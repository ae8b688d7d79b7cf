/**
 The rounds of the demand pass (`EmitCxxDemandCompanion`): recorded declarations are split into those
 handed to CodeGen wholesale and those it would emit on sight, which are held back; rounds of CodeGen
 then add held symbols, bodies and storage until the module declares nothing it could define.

 CodeGen itself is modelled as reachability over the declarations handed to it.
 */
module DemandRounds {
  import opened Reachability
  import opened DemandUnit

  /** Splits the rest of the plan. */
  function Split(u: Unit, s: State): State
    requires s.splitDone <= |s.plan|
    decreases |s.plan| - s.splitDone
  {
    if s.splitDone == |s.plan| then s
    else
      var d := s.plan[s.splitDone];
      var t := s.(splitDone := s.splitDone + 1);
      Split(u,
            if d !in u.handable then t
            else if d !in u.mustEmit then t.(lazy := t.lazy + {d})
            else t.(held := (map n | n in u.Symbols(d) :: d) + t.held))
  }

  // ---------------------------------------------------------------------------------------------
  // CodeGen
  // ---------------------------------------------------------------------------------------------

  predicate HasBody(u: Unit, s: State, d: Decl) {
    d in u.defines && d in u.compiles && d !in s.pending && d !in s.uninstantiated
  }

  function Handed(s: State): set<Decl> {
    s.lazy + set n | n in s.want && n in s.held :: s.held[n]
  }

  /** The definitions CodeGen was handed with a body. */
  function Available(u: Unit, s: State): set<Decl> {
    set d | d in Handed(s) && HasBody(u, s, d)
  }

  /** The symbols the pass asks CodeGen for. */
  function Requested(u: Unit, s: State): set<string> {
    set n | n in s.want && (n in u.bound || n in s.held)
  }

  /** Which of the declarations `among` each of them refers to. */
  function RefersTo(u: Unit, among: set<Decl>): Graph<Decl> {
    map d | d in among :: set n | n in u.Refs(d) && n in u.declOf && u.declOf[n] in among :: u.declOf[n]
  }

  function Roots(u: Unit, names: set<string>, among: set<Decl>): set<Decl> {
    set n | n in names && n in u.declOf && u.declOf[n] in among :: u.declOf[n]
  }

  /** The module's definitions. */
  function Emitted(u: Unit, s: State): set<Decl> {
    Saturate(RefersTo(u, Available(u, s)), Roots(u, Requested(u, s), Available(u, s)))
  }

  /** The symbols the module's definitions use. */
  function Used(u: Unit, s: State): set<string> {
    set d, n | d in Emitted(u, s) && n in u.Refs(d) :: n
  }

  /** A symbol the module has but only declares. */
  predicate OnlyDeclared(u: Unit, s: State, n: string) {
    (n in Used(u, s) || n in Requested(u, s)) && (n !in u.declOf || u.declOf[n] !in Emitted(u, s))
  }

  // ---------------------------------------------------------------------------------------------
  // A round
  // ---------------------------------------------------------------------------------------------

  /** Held symbols the module only declares and nobody asked for yet. */
  function NewlyNeeded(u: Unit, s: State): set<string> {
    set n | n in u.order && OnlyDeclared(u, s, n) && n in s.held && n !in s.want
  }

  /** Functions the closure looks at: declared only, used or asked for, and not tried before. */
  predicate Pulls(u: Unit, s: State, n: string) {
    OnlyDeclared(u, s, n) && (n in Used(u, s) || n in s.want) &&
    n in u.declOf && u.declOf[n] !in u.variables && u.declOf[n] !in s.tried
  }

  function PulledFrom(u: Unit, s: State, order: seq<string>): seq<string> {
    if order == [] then []
    else if Pulls(u, s, order[0]) then [order[0]] + PulledFrom(u, s, order[1..])
    else PulledFrom(u, s, order[1..])
  }

  datatype Growth = Growth(s: State, grew: bool)

  /** Takes one pulled function as far as it goes: instantiated, its body parsed by a walk, recorded in the plan. */
  function Pull(u: Unit, g: Growth, n: string): Growth
    requires n in u.declOf
  {
    var d := u.declOf[n];
    var s := g.s.(tried := g.s.tried + {d});
    if d in g.s.tried || d !in u.defines then g.(s := s)
    else
      var s1 := Instantiated(u, s, d);
      if d !in s1.pending && d !in u.compiles then g.(s := s1)
      else
        var parsed := d in s1.pending;
        var s2 := if parsed then WalkFrom(u, s1, [d]) else s1;
        if d !in u.compiles then g.(s := s2)
        else if d !in s2.plan then Growth(s2.(plan := s2.plan + [d], want := s2.want + {n}), true)
        else Growth(s2, g.grew || parsed || s2.splitDone < |s2.plan|)
  }

  function PullAll(u: Unit, g: Growth, names: seq<string>): Growth
    requires forall n | n in names :: n in u.declOf
    decreases |names|
  {
    if names == [] then g else PullAll(u, Pull(u, g, names[0]), names[1..])
  }

  /** Storage the module uses but only declares. */
  function StorageFrom(u: Unit, s: State, order: seq<string>): seq<Decl> {
    if order == [] then []
    else
      var n := order[0];
      var rest := StorageFrom(u, s, order[1..]);
      if OnlyDeclared(u, s, n) && n in Used(u, s) && n in u.declOf && u.declOf[n] in u.variables &&
        u.declOf[n] in u.defines
      then [u.declOf[n]] + rest else rest
  }

  lemma {:induction false} PulledHaveDecls(u: Unit, s: State, order: seq<string>)
    ensures forall n :: n in PulledFrom(u, s, order) <==> n in order && Pulls(u, s, n)
  {
    if order != [] {
      PulledHaveDecls(u, s, order[1..]);
      assert forall n :: n in order <==> n == order[0] || n in order[1..];
    }
  }

  lemma {:induction false} StorageHasUses(u: Unit, s: State, order: seq<string>)
    ensures forall d :: d in StorageFrom(u, s, order) <==>
              d in u.variables && d in u.defines &&
              exists n :: n in order && OnlyDeclared(u, s, n) && n in Used(u, s) && n in u.declOf && u.declOf[n] == d
  {
    if order != [] {
      StorageHasUses(u, s, order[1..]);
      assert forall n :: n in order <==> n == order[0] || n in order[1..];
    }
  }

  function Round(u: Unit, before: State): Growth
    requires before.splitDone <= |before.plan|
  {
    var s := Split(u, before);
    if NewlyNeeded(u, s) != {} then Growth(s.(want := s.want + NewlyNeeded(u, s)), true)
    else
      PulledHaveDecls(u, s, u.order);
      var g := PullAll(u, Growth(s, false), PulledFrom(u, s, u.order));
      var plan := AddAll(g.s.plan, StorageFrom(u, s, u.order));
      Growth(g.s.(plan := plan), g.grew || plan != g.s.plan || g.s.splitDone < |plan|)
  }

  // ---------------------------------------------------------------------------------------------
  // What the pass should emit
  // ---------------------------------------------------------------------------------------------

  ghost function AllDefinable(u: Unit): set<Decl> {
    set d | d in u.defines && u.Definable(d)
  }

  /** The definable declarations the demanded symbols lead to through definable ones. */
  ghost function Needed(u: Unit, demanded: set<string>): set<Decl> {
    Saturate(RefersTo(u, AllDefinable(u)), Roots(u, demanded, AllDefinable(u)))
  }

  /**
   A chain from the demand: the first declaration is that of a demanded symbol, each later one that of a
   symbol its predecessor refers to, and all are definable.
   */
  ghost predicate DemandChain(u: Unit, demanded: set<string>, w: seq<Decl>) {
    && w != [] && (exists n :: n in demanded && n in u.declOf && u.declOf[n] == w[0])
    && (forall i | 0 < i < |w| :: Mentions(u, w[i - 1], w[i]))
    && forall d | d in w :: d in u.defines && d in u.compiles && d in u.handable
  }

  /** d's definition refers to a symbol of e. */
  ghost predicate Mentions(u: Unit, d: Decl, e: Decl) {
    d in u.refs && exists n :: n in u.refs[d] && n in u.declOf && u.declOf[n] == e
  }

  /** Needed are exactly the ends of such chains. */
  lemma NeededIff(u: Unit, demanded: set<string>, d: Decl)
    ensures d in Needed(u, demanded) <==> exists w :: DemandChain(u, demanded, w) && w[|w| - 1] == d
  {
    var g, roots := RefersTo(u, AllDefinable(u)), Roots(u, demanded, AllDefinable(u));
    SaturateIsReach(g, roots, d);
    if d in Needed(u, demanded) {
      var r :| r in roots && Reaches(g, r, d);
      var w :| WalkBetween(g, r, d, w);
      forall i | 0 < i < |w|
        ensures Mentions(u, w[i - 1], w[i]) && w[i] in AllDefinable(u)
      {
        assert w[i - 1 + 1] in Successors(g, w[i - 1]);
        var n :| n in u.Refs(w[i - 1]) && n in u.declOf && u.declOf[n] == w[i];
      }
      forall e | e in w
        ensures e in AllDefinable(u)
      {
        var i :| 0 <= i < |w| && w[i] == e;
      }
      assert DemandChain(u, demanded, w);
    }
    if w :| DemandChain(u, demanded, w) && w[|w| - 1] == d {
      forall i | 0 <= i < |w| - 1
        ensures w[i + 1] in Successors(g, w[i])
      {
        var j := i + 1;
        assert w[i] in w && w[j] in w && Mentions(u, w[j - 1], w[j]);
        var n :| n in u.refs[w[i]] && n in u.declOf && u.declOf[n] == w[i + 1];
        assert n in u.Refs(w[i]) && w[i + 1] in AllDefinable(u);
      }
      assert w[0] in w && w[0] in roots && WalkBetween(g, w[0], d, w);
    }
  }

  ghost predicate NeededSymbol(u: Unit, demanded: set<string>, n: string) {
    n in demanded || exists d :: d in Needed(u, demanded) && n in u.Refs(d)
  }

  /** The split part of the plan is handed, or held under all of its symbols; nothing else is. */
  ghost predicate SplitOk(u: Unit, s: State) {
    && s.splitDone <= |s.plan|
    && (forall d | d in s.lazy :: d in u.handable && d !in u.mustEmit)
    && (forall n | n in s.held :: n in u.Symbols(s.held[n]) && s.held[n] in u.handable)
    && (forall d | d in s.plan[..s.splitDone] && d in u.handable ::
          if d in u.mustEmit then u.Symbols(d) <= s.held.Keys else d in s.lazy)
  }

  /** What the closure tried and could define is recorded and ready. */
  ghost predicate TriedOk(u: Unit, s: State) {
    forall d | d in s.tried && u.Definable(d) :: d in s.plan && d !in s.pending && d !in s.uninstantiated
  }

  /** Only needed symbols are asked for; those added on the way are held or recorded. */
  ghost predicate WantOk(u: Unit, demanded: set<string>, s: State) {
    && demanded <= s.want
    && (forall n | n in s.want :: NeededSymbol(u, demanded, n))
    && (forall n | n in s.want && n !in demanded :: n in s.held || (n in u.declOf && u.declOf[n] in s.plan))
  }

  /** Demanded symbols are ones the group binds or holds, and only functions wait for a body. */
  ghost predicate DemandOk(u: Unit, demanded: set<string>, s: State) {
    && (forall n | n in demanded :: n in u.bound || n in s.held)
    && s.pending !! u.variables
  }

  ghost predicate Inv(u: Unit, demanded: set<string>, s: State) {
    SplitOk(u, s) && TriedOk(u, s) && WantOk(u, demanded, s) && DemandOk(u, demanded, s) && PlanReady(u, s)
  }

  /**
   The rounds record a variable only when the module uses it: those behind the sure symbols are recorded,
   and what the other demanded symbols stand for is needed by the sure ones.
   */
  ghost predicate Backed(u: Unit, demanded: set<string>, sure: set<string>, s: State) {
    && sure <= demanded
    && (forall n | n in sure && n in u.declOf && u.Definable(u.declOf[n]) && u.declOf[n] in u.variables ::
          u.declOf[n] in s.plan)
    && forall n | n in demanded - sure && n in u.declOf && u.Definable(u.declOf[n]) :: u.declOf[n] in Needed(u, sure)
  }

  // ---------------------------------------------------------------------------------------------
  // A module holds only what is needed
  // ---------------------------------------------------------------------------------------------

  lemma NeededIsClosed(u: Unit, demanded: set<string>, n: string)
    requires NeededSymbol(u, demanded, n) && n in u.declOf && u.Definable(u.declOf[n])
    ensures u.declOf[n] in Needed(u, demanded)
  {
    var g, roots := RefersTo(u, AllDefinable(u)), Roots(u, demanded, AllDefinable(u));
    SaturateCloses(g, roots);
    if n !in demanded {
      var d :| d in Needed(u, demanded) && n in u.Refs(d);
      SaturateOnlyReaches(g, roots, d);
      NeededIsDefinable(u, demanded, d);
      assert u.declOf[n] in Successors(g, d);
    }
  }

  lemma NeededIsDefinable(u: Unit, demanded: set<string>, d: Decl)
    requires d in Needed(u, demanded)
    ensures u.Definable(d)
  {
    var g := RefersTo(u, AllDefinable(u));
    SaturateOnlyReaches(g, Roots(u, demanded, AllDefinable(u)), d);
    var r :| r in Roots(u, demanded, AllDefinable(u)) && Reaches(g, r, d);
    ClosedKeepsWalks(g, AllDefinable(u), r, d);
  }

  lemma AvailableIsDefinable(u: Unit, s: State, d: Decl)
    requires SplitOk(u, s) && d in Available(u, s)
    ensures u.Definable(d)
  {}

  /** CodeGen emits only needed definitions, whatever else was handed to it. */
  lemma EmittedIsNeeded(u: Unit, demanded: set<string>, s: State)
    requires SplitOk(u, s) && WantOk(u, demanded, s)
    ensures Emitted(u, s) <= Needed(u, demanded)
  {
    var g, roots := RefersTo(u, Available(u, s)), Roots(u, Requested(u, s), Available(u, s));
    var needed := Needed(u, demanded) * Available(u, s);
    forall d | d in roots
      ensures d in needed
    {
      var n :| n in Requested(u, s) && n in u.declOf && u.declOf[n] == d && d in Available(u, s);
      AvailableIsDefinable(u, s, d);
      NeededIsClosed(u, demanded, n);
    }
    forall d, m | d in needed && m in Successors(g, d)
      ensures m in needed
    {
      var n :| n in u.Refs(d) && n in u.declOf && u.declOf[n] == m && m in Available(u, s);
      AvailableIsDefinable(u, s, m);
      NeededIsClosed(u, demanded, n);
    }
    forall d | d in Emitted(u, s)
      ensures d in needed
    {
      SaturateOnlyReaches(g, roots, d);
      var r :| r in roots && Reaches(g, r, d);
      ClosedKeepsWalks(g, needed, r, d);
    }
  }

  // ---------------------------------------------------------------------------------------------
  // What a round keeps
  // ---------------------------------------------------------------------------------------------

  lemma {:induction false} SplitKeeps(u: Unit, demanded: set<string>, s: State)
    requires u.Valid() && Inv(u, demanded, s)
    ensures var t := Split(u, s);
      Inv(u, demanded, t) && t.splitDone == |t.plan| && t.plan == s.plan && t.want == s.want && t.pending == s.pending
    decreases |s.plan| - s.splitDone
  {
    if s.splitDone < |s.plan| {
      var d := s.plan[s.splitDone];
      var t := s.(splitDone := s.splitDone + 1);
      assert t.plan[..t.splitDone] == s.plan[..s.splitDone] + [d];
      var t' := if d !in u.handable then t
                else if d !in u.mustEmit then t.(lazy := t.lazy + {d})
                else t.(held := (map n | n in u.Symbols(d) :: d) + t.held);
      assert SplitOk(u, t');
      SplitKeeps(u, demanded, t');
    }
  }

  lemma GrownPlanKeeps(u: Unit, demanded: set<string>, s: State, t: State)
    requires Inv(u, demanded, s) && s.plan <= t.plan
    requires t == s.(plan := t.plan, pending := t.pending, uninstantiated := t.uninstantiated,
                     walked := t.walked, failed := t.failed)
    requires t.pending <= s.pending && t.uninstantiated <= s.uninstantiated && PlanReady(u, t)
    ensures Inv(u, demanded, t)
  {
    assert t.plan[..t.splitDone] == s.plan[..s.splitDone];
    assert forall d | d in s.plan :: d in t.plan;
  }

  /** What the later rounds may rely on after a pull, and the signs of growth it leaves. */
  ghost predicate Pulled(s: State, t: State) {
    && s.plan <= t.plan && t.pending <= s.pending && t.uninstantiated <= s.uninstantiated && s.want <= t.want
    && s.tried <= t.tried && t.splitDone == s.splitDone && t.lazy == s.lazy && t.held == s.held
  }

  /** The state a pull leaves before it records anything. */
  function PullState(u: Unit, s: State, d: Decl): State {
    var s1 := Instantiated(u, s, d);
    if d in s1.pending then WalkFrom(u, s1, [d]) else s1
  }

  lemma PullStateReadies(u: Unit, s: State, d: Decl)
    requires d in u.defines
    ensures Readied(s, PullState(u, s, d)) && Ready(PullState(u, s, d), d)
    ensures d in s.pending && d in Instantiated(u, s, d).pending ==> PullState(u, s, d).pending < s.pending
  {
    hide WalkFrom, Instantiated;
    BothReadied(u, s, d);
    var s1 := Instantiated(u, s, d);
    if d in s1.pending {
      WalkReadies(u, s1, [d]);
    }
  }

  lemma PullGrows(u: Unit, g: Growth, n: string)
    requires n in u.declOf
    ensures var h, d := Pull(u, g, n), u.declOf[n];
      && Pulled(g.s, h.s) && h.s.tried == g.s.tried + {d} && (g.grew ==> h.grew)
      && (h.s.want == g.s.want || (h.s.want == g.s.want + {n} && d in h.s.plan))
      && (d !in g.s.tried && u.Definable(d) ==> d in h.s.plan && d !in h.s.pending && d !in h.s.uninstantiated)
  {
    hide WalkFrom, Instantiated;
    var d := u.declOf[n];
    var s := g.s.(tried := g.s.tried + {d});
    BothReadied(u, s, d);
    if d in u.defines { PullStateReadies(u, s, d); }
  }

  lemma PullSigns(u: Unit, g: Growth, n: string)
    requires n in u.declOf
    ensures var h, d := Pull(u, g, n), u.declOf[n];
      && (!h.grew && h.s.plan == g.s.plan && d !in g.s.tried && u.Definable(d) ==> d in g.s.plan)
      && (h.grew && !g.grew ==> h.s.splitDone < |h.s.plan| || h.s.pending < g.s.pending || |g.s.plan| < |h.s.plan|)
  {
    hide WalkFrom, Instantiated;
    var d := u.declOf[n];
    var s := g.s.(tried := g.s.tried + {d});
    BothReadied(u, s, d);
    if d in u.defines { PullStateReadies(u, s, d); }
  }

  lemma PullKeepsPlanReady(u: Unit, g: Growth, n: string)
    requires u.Valid() && PlanReady(u, g.s) && n in u.declOf
    ensures PlanReady(u, Pull(u, g, n).s)
  {
    hide WalkFrom, Instantiated;
    var d := u.declOf[n];
    var s := g.s.(tried := g.s.tried + {d});
    assert PlanReady(u, s);
    MakesPlanReady(u, s, d);
    BothReadied(u, s, d);
    var s1 := Instantiated(u, s, d);
    WalkKeepsPlanReady(u, s1, [d]);
    WalkReadies(u, s1, [d]);
  }

  /** A pull without a sign of growth makes no good body ready. */
  lemma QuietPull(u: Unit, g: Growth, n: string, d: Decl)
    requires u.Valid() && PlanReady(u, g.s) && n in u.declOf
    requires !Pull(u, g, n).grew && Pull(u, g, n).s.plan == g.s.plan
    requires d in u.compiles && Ready(Pull(u, g, n).s, d)
    ensures Ready(g.s, d)
  {
    hide WalkFrom;
    var e := u.declOf[n];
    var s := g.s.(tried := g.s.tried + {e});
    if e !in g.s.tried && e in u.defines {
      BothReadied(u, s, e);
      var s1 := Instantiated(u, s, e);
      WalkReadies(u, s1, [e]);
      MakesPlanReady(u, s, e);
      AddAllExtends(s.plan, u.Announced(e));
      if e in u.compiles {
        assert e !in s.uninstantiated && s1 == s;
      } else {
        assert s1.plan == s.plan;
        assert s1.uninstantiated >= s.uninstantiated - {e};
        if e in s1.pending { BadWalk(u, s1, e); }
      }
    }
  }

  lemma PullKeeps(u: Unit, demanded: set<string>, g: Growth, n: string)
    requires u.Valid() && Inv(u, demanded, g.s) && n in u.declOf && NeededSymbol(u, demanded, n)
    ensures Inv(u, demanded, Pull(u, g, n).s)
  {
    var h := Pull(u, g, n);
    PullGrows(u, g, n);
    PullKeepsPlanReady(u, g, n);
    var mid := g.s.(plan := h.s.plan, pending := h.s.pending, uninstantiated := h.s.uninstantiated,
                    walked := h.s.walked, failed := h.s.failed);
    GrownPlanKeeps(u, demanded, g.s, mid);
    assert h.s == mid.(tried := h.s.tried, want := h.s.want);
    assert SplitOk(u, h.s) && WantOk(u, demanded, h.s) && DemandOk(u, demanded, h.s);
  }

  lemma {:induction false} PullAllKeeps(u: Unit, demanded: set<string>, g: Growth, names: seq<string>)
    requires u.Valid() && Inv(u, demanded, g.s)
    requires forall n | n in names :: n in u.declOf && NeededSymbol(u, demanded, n)
    ensures var h := PullAll(u, g, names);
      && Inv(u, demanded, h.s) && Pulled(g.s, h.s) && (g.grew ==> h.grew)
      && (!h.grew && h.s.plan == g.s.plan ==>
            forall n | n in names && u.declOf[n] !in g.s.tried && u.Definable(u.declOf[n]) ::
              u.declOf[n] in g.s.plan && Ready(g.s, u.declOf[n]))
      && (h.grew && !g.grew ==> h.s.splitDone < |h.s.plan| || h.s.pending < g.s.pending || |g.s.plan| < |h.s.plan|)
    decreases |names|
  {
    if names != [] {
      var k := Pull(u, g, names[0]);
      PullKeeps(u, demanded, g, names[0]);
      PullGrows(u, g, names[0]);
      PullSigns(u, g, names[0]);
      PullAllKeeps(u, demanded, k, names[1..]);
      var h := PullAll(u, g, names);
      assert forall n | n in names :: n == names[0] || n in names[1..];
      if !h.grew && h.s.plan == g.s.plan {
        assert k.s.plan == g.s.plan;
        forall n | n in names && u.declOf[n] !in g.s.tried && u.Definable(u.declOf[n])
          ensures u.declOf[n] in g.s.plan && Ready(g.s, u.declOf[n])
        {
          if n in names[1..] && u.declOf[n] !in k.s.tried {
            assert Ready(k.s, u.declOf[n]);
          } else {
            assert u.declOf[n] == u.declOf[names[0]];
          }
          QuietPull(u, g, names[0], u.declOf[n]);
        }
      }
    }
  }

  lemma UsedIsNeeded(u: Unit, demanded: set<string>, s: State, n: string)
    requires SplitOk(u, s) && WantOk(u, demanded, s) && (n in Used(u, s) || n in Requested(u, s))
    ensures NeededSymbol(u, demanded, n)
  {
    EmittedIsNeeded(u, demanded, s);
    if n in Used(u, s) {
      var d :| d in Emitted(u, s) && n in u.Refs(d);
    }
  }

  lemma RoundKeeps(u: Unit, demanded: set<string>, before: State)
    requires u.Valid() && Inv(u, demanded, before)
    ensures var r := Round(u, before);
      && Inv(u, demanded, r.s) && before.plan <= r.s.plan && r.s.pending <= before.pending && before.want <= r.s.want
      && (r.grew ==> |before.plan| < |r.s.plan| || r.s.pending < before.pending
                     || exists n :: n in r.s.want && n !in before.want && n in u.order)
  {
    var s := Split(u, before);
    SplitKeeps(u, demanded, before);
    if NewlyNeeded(u, s) != {} {
      var n0 :| n0 in NewlyNeeded(u, s);
      forall n | n in NewlyNeeded(u, s)
        ensures NeededSymbol(u, demanded, n)
      {
        UsedIsNeeded(u, demanded, s, n);
      }
    } else {
      var names := PulledFrom(u, s, u.order);
      PulledHaveDecls(u, s, u.order);
      forall n | n in names
        ensures NeededSymbol(u, demanded, n)
      {
        if n !in s.want {
          UsedIsNeeded(u, demanded, s, n);
        }
      }
      var g := PullAll(u, Growth(s, false), names);
      PullAllKeeps(u, demanded, Growth(s, false), names);
      var plan := AddAll(g.s.plan, StorageFrom(u, s, u.order));
      AddAllExtends(g.s.plan, StorageFrom(u, s, u.order));
      StorageHasUses(u, s, u.order);
      GrownPlanKeeps(u, demanded, g.s, g.s.(plan := plan));
    }
  }

  // ---------------------------------------------------------------------------------------------
  // The last round: nothing needed is missing
  // ---------------------------------------------------------------------------------------------

  lemma AvailableIsEmitted(u: Unit, s: State, n: string)
    requires n in u.declOf && u.declOf[n] in Available(u, s) && (n in Used(u, s) || n in Requested(u, s))
    ensures u.declOf[n] in Emitted(u, s)
  {
    var g, roots := RefersTo(u, Available(u, s)), Roots(u, Requested(u, s), Available(u, s));
    SaturateCloses(g, roots);
    if n in Used(u, s) {
      var e :| e in Emitted(u, s) && n in u.Refs(e);
      SaturateOnlyReaches(g, roots, e);
      var r :| r in roots && Reaches(g, r, e);
      ClosedKeepsWalks(g, Available(u, s), r, e);
      assert u.declOf[n] in Successors(g, e);
    }
  }

  lemma RecordedIsEmitted(u: Unit, s: State, n: string)
    requires u.Valid() && SplitOk(u, s) && s.splitDone == |s.plan| && NewlyNeeded(u, s) == {}
    requires n in u.declOf && (n in Used(u, s) || n in Requested(u, s))
    requires u.Definable(u.declOf[n]) && Ready(s, u.declOf[n]) && (u.declOf[n] in s.plan || n in s.held)
    ensures u.declOf[n] in Emitted(u, s)
  {
    var d := u.declOf[n];
    assert s.plan[..s.splitDone] == s.plan;
    if d !in Emitted(u, s) {
      assert OnlyDeclared(u, s, n);
      if n in s.held {
        assert n !in NewlyNeeded(u, s);
        assert s.held[n] == d && d in Handed(s);
      }
      assert d in Available(u, s);
      AvailableIsEmitted(u, s, n);
    }
  }

  /** A round that adds nothing found all storage recorded, and all pulled functions recorded and ready. */
  lemma QuietRound(u: Unit, demanded: set<string>, before: State)
    requires u.Valid() && Inv(u, demanded, before) && !Round(u, before).grew
    ensures var s := Split(u, before);
      && NewlyNeeded(u, s) == {}
      && (forall d | d in StorageFrom(u, s, u.order) :: d in s.plan)
      && (forall n | n in u.order && Pulls(u, s, n) && u.Definable(u.declOf[n]) ::
            u.declOf[n] in s.plan && Ready(s, u.declOf[n]))
  {
    var s := Split(u, before);
    SplitKeeps(u, demanded, before);
    var names, storage := PulledFrom(u, s, u.order), StorageFrom(u, s, u.order);
    PulledHaveDecls(u, s, u.order);
    forall n | n in names
      ensures NeededSymbol(u, demanded, n)
    {
      if n !in s.want { UsedIsNeeded(u, demanded, s, n); }
    }
    var g := PullAll(u, Growth(s, false), names);
    PullAllKeeps(u, demanded, Growth(s, false), names);
    AddAllExtends(g.s.plan, storage);
    assert g.s.plan == s.plan;
  }

  /** In a round that adds nothing, what the module could define it defines. */
  lemma NothingMissing(u: Unit, demanded: set<string>, before: State, n: string)
    requires u.Valid() && Inv(u, demanded, before) && !Round(u, before).grew
    requires n in u.declOf && u.Definable(u.declOf[n])
    requires var s := Split(u, before);
      n in Used(u, s) || (n in Requested(u, s) && (u.declOf[n] in u.variables ==> u.declOf[n] in s.plan))
    ensures u.declOf[n] in Emitted(u, Split(u, before))
  {
    var s, d := Split(u, before), u.declOf[n];
    SplitKeeps(u, demanded, before);
    QuietRound(u, demanded, before);
    if d !in Emitted(u, s) {
      assert OnlyDeclared(u, s, n) && n in u.order;
      if d in u.variables {
        StorageHasUses(u, s, u.order);
        if n in Used(u, s) { assert d in StorageFrom(u, s, u.order); }
      } else if d !in s.tried {
        assert Pulls(u, s, n);
      }
      RecordedIsEmitted(u, s, n);
    }
  }

  /** What the sure symbols lead to is defined. */
  lemma SureIsEmitted(u: Unit, demanded: set<string>, sure: set<string>, before: State, d: Decl)
    requires u.Valid() && Inv(u, demanded, before) && !Round(u, before).grew
    requires Backed(u, demanded, sure, before) && d in Needed(u, sure)
    ensures d in Emitted(u, Split(u, before))
  {
    hide Needed, Inv, Round, Split, Emitted, Used, Requested;
    SplitWants(u, demanded, before);
    forall n | n in sure && n in u.declOf && u.Definable(u.declOf[n])
      ensures u.declOf[n] in Emitted(u, Split(u, before))
    {
      NothingMissing(u, demanded, before, n);
    }
    NeededIsEmitted(u, demanded, sure, before, d);
  }

  lemma SplitWants(u: Unit, demanded: set<string>, before: State)
    requires u.Valid() && Inv(u, demanded, before)
    ensures demanded <= Requested(u, Split(u, before)) && before.splitDone <= |before.plan|
    ensures Split(u, before).plan == before.plan
  {
    SplitKeeps(u, demanded, before);
  }

  /** A quiet module that defines what these symbols stand for defines all they lead to. */
  lemma NeededIsEmitted(u: Unit, demanded: set<string>, from: set<string>, before: State, d: Decl)
    requires u.Valid() && Inv(u, demanded, before) && !Round(u, before).grew && d in Needed(u, from)
    requires forall n | n in from && n in u.declOf && u.Definable(u.declOf[n]) ::
      u.declOf[n] in Emitted(u, Split(u, before))
    ensures d in Emitted(u, Split(u, before))
  {
    hide Round, Split, Emitted;
    var s := Split(u, before);
    var g, roots := RefersTo(u, AllDefinable(u)), Roots(u, from, AllDefinable(u));
    forall e, m | e in Emitted(u, s) && m in Successors(g, e)
      ensures m in Emitted(u, s)
    {
      var n :| n in u.Refs(e) && n in u.declOf && u.declOf[n] == m && m in AllDefinable(u);
      assert n in Used(u, s);
      NothingMissing(u, demanded, before, n);
    }
    SaturateOnlyReaches(g, roots, d);
    var r :| r in roots && Reaches(g, r, d);
    ClosedKeepsWalks(g, Emitted(u, s), r, d);
  }

  /**
   A round that adds nothing ends the pass, and its module then defines exactly the definable
   declarations the demand leads to.
   */
  lemma FinalModuleIsExact(u: Unit, demanded: set<string>, sure: set<string>, before: State)
    requires u.Valid() && Inv(u, demanded, before) && !Round(u, before).grew && Backed(u, demanded, sure, before)
    ensures Emitted(u, Split(u, before)) == Needed(u, demanded)
  {
    hide Round, Emitted, Needed;
    SplitKeeps(u, demanded, before);
    EmittedIsNeeded(u, demanded, Split(u, before));
    forall n | n in demanded && n in u.declOf && u.Definable(u.declOf[n])
      ensures u.declOf[n] in Emitted(u, Split(u, before))
    {
      if n in sure { NeededIsClosed(u, sure, n); }
      SureIsEmitted(u, demanded, sure, before, u.declOf[n]);
    }
    forall d | d in Needed(u, demanded)
      ensures d in Emitted(u, Split(u, before))
    {
      NeededIsEmitted(u, demanded, demanded, before, d);
    }
  }

  // ---------------------------------------------------------------------------------------------
  // Termination
  // ---------------------------------------------------------------------------------------------

  lemma PullPlanOk(u: Unit, all: set<Decl>, g: Growth, n: string)
    requires Covers(u, all) && PlanOk(all, g.s.plan) && n in u.declOf
    ensures PlanOk(all, Pull(u, g, n).s.plan)
  {
    hide PlanOk, WalkFrom, Instantiated;
    var d := u.declOf[n];
    var s := g.s.(tried := g.s.tried + {d});
    InstantiatedPlanOk(u, all, s, d);
    var s1 := Instantiated(u, s, d);
    WalkPlanOk(u, all, s1, [d]);
    var s2 := if d in s1.pending then WalkFrom(u, s1, [d]) else s1;
    AddAllPlanOk(all, s2.plan, [d]);
    assert AddAll(s2.plan, [d]) == Add(s2.plan, d);
  }

  lemma {:induction false} PullAllPlanOk(u: Unit, all: set<Decl>, g: Growth, names: seq<string>)
    requires Covers(u, all) && PlanOk(all, g.s.plan) && forall n | n in names :: n in u.declOf
    ensures PlanOk(all, PullAll(u, g, names).s.plan)
    decreases |names|
  {
    if names != [] {
      PullPlanOk(u, all, g, names[0]);
      PullAllPlanOk(u, all, Pull(u, g, names[0]), names[1..]);
    }
  }

  lemma RoundPlanOk(u: Unit, demanded: set<string>, all: set<Decl>, before: State)
    requires u.Valid() && Inv(u, demanded, before) && Covers(u, all) && PlanOk(all, before.plan)
    ensures PlanOk(all, Round(u, before).s.plan)
  {
    var s := Split(u, before);
    SplitKeeps(u, demanded, before);
    if NewlyNeeded(u, s) == {} {
      PulledHaveDecls(u, s, u.order);
      StorageHasUses(u, s, u.order);
      var names := PulledFrom(u, s, u.order);
      PullAllPlanOk(u, all, Growth(s, false), names);
      AddAllPlanOk(all, PullAll(u, Growth(s, false), names).s.plan, StorageFrom(u, s, u.order));
    }
  }

  ghost function SymbolSet(u: Unit): set<string> {
    set n | n in u.order
  }

  ghost function PlanSet(s: State): set<Decl> {
    set d | d in s.plan
  }

  /** What is left to ask for, to record and to parse. */
  ghost function Remaining(u: Unit, all: set<Decl>, s: State): nat {
    |SymbolSet(u) - s.want| + |all - PlanSet(s)| + |s.pending|
  }

  lemma SmallerSet<T>(a: set<T>, b: set<T>)
    requires a < b
    ensures |a| < |b|
  {
    assert b == a + (b - a);
  }

  lemma SubsetSize<T>(a: set<T>, b: set<T>)
    requires a <= b
    ensures |a| <= |b|
  {
    if a != b { SmallerSet(a, b); }
  }

  /** A round that grew leaves strictly less to do. */
  lemma GrowthIsProgress(u: Unit, demanded: set<string>, all: set<Decl>, before: State)
    requires u.Valid() && Inv(u, demanded, before) && Covers(u, all) && PlanOk(all, before.plan)
    requires Round(u, before).grew
    ensures Remaining(u, all, Round(u, before).s) < Remaining(u, all, before)
  {
    var after := Round(u, before).s;
    RoundKeeps(u, demanded, before);
    RoundPlanOk(u, demanded, all, before);
    var w0, w1 := SymbolSet(u) - before.want, SymbolSet(u) - after.want;
    var p0, p1 := all - PlanSet(before), all - PlanSet(after);
    assert forall d | d in before.plan :: d in after.plan;
    SubsetSize(w1, w0);
    SubsetSize(p1, p0);
    SubsetSize(after.pending, before.pending);
    if |before.plan| < |after.plan| {
      var d := after.plan[|before.plan|];
      forall i | 0 <= i < |before.plan|
        ensures before.plan[i] != d
      {
        assert before.plan[i] == after.plan[i];
      }
      assert d in p0 && d !in p1;
      SmallerSet(p1, p0);
    } else if after.pending < before.pending {
      SmallerSet(after.pending, before.pending);
    } else {
      var n :| n in after.want && n !in before.want && n in u.order;
      assert n in w0 && n !in w1;
      SmallerSet(w1, w0);
    }
  }

  // ---------------------------------------------------------------------------------------------
  // The pass
  // ---------------------------------------------------------------------------------------------

  const ROUND_CAP: nat := 16

  datatype Result = Module(definitions: set<Decl>, last: State) | DidNotConverge

  /** At most `fuel` rounds; the module is that of the first round that adds nothing. */
  function Rounds(u: Unit, s: State, fuel: nat): Result
    requires s.splitDone <= |s.plan|
    decreases fuel
  {
    if fuel == 0 then DidNotConverge
    else
      RoundKeepsSplit(u, s);
      var r := Round(u, s);
      if r.grew then Rounds(u, r.s, fuel - 1) else Module(Emitted(u, Split(u, s)), s)
  }

  lemma {:induction false} SplitBounds(u: Unit, s: State)
    requires s.splitDone <= |s.plan|
    ensures Split(u, s).splitDone == |s.plan| && Split(u, s).plan == s.plan
    decreases |s.plan| - s.splitDone
  {
    if s.splitDone < |s.plan| {
      var d := s.plan[s.splitDone];
      var t := s.(splitDone := s.splitDone + 1);
      SplitBounds(u,
                  if d !in u.handable then t
                  else if d !in u.mustEmit then t.(lazy := t.lazy + {d})
                  else t.(held := (map n | n in u.Symbols(d) :: d) + t.held));
    }
  }

  lemma {:induction false} PullAllGrows(u: Unit, g: Growth, names: seq<string>)
    requires forall n | n in names :: n in u.declOf
    ensures Pulled(g.s, PullAll(u, g, names).s)
    decreases |names|
  {
    if names != [] {
      PullGrows(u, g, names[0]);
      PullAllGrows(u, Pull(u, g, names[0]), names[1..]);
    }
  }

  lemma RoundKeepsSplit(u: Unit, before: State)
    requires before.splitDone <= |before.plan|
    ensures Round(u, before).s.splitDone <= |Round(u, before).s.plan|
  {
    var s := Split(u, before);
    SplitBounds(u, before);
    PulledHaveDecls(u, s, u.order);
    PullAllGrows(u, Growth(s, false), PulledFrom(u, s, u.order));
    AddAllExtends(PullAll(u, Growth(s, false), PulledFrom(u, s, u.order)).s.plan, StorageFrom(u, s, u.order));
  }

  /** Rounds that end define exactly what the demand leads to, and ask only for needed symbols. */
  lemma {:induction false} ModuleIsExact(u: Unit, demanded: set<string>, sure: set<string>, s: State, fuel: nat)
    requires u.Valid() && Inv(u, demanded, s) && Backed(u, demanded, sure, s) && Rounds(u, s, fuel).Module?
    ensures var Module(definitions, last) := Rounds(u, s, fuel);
      definitions == Needed(u, demanded) && forall n | n in last.want :: NeededSymbol(u, demanded, n)
    decreases fuel
  {
    hide Round, Needed, Emitted, NeededSymbol;
    if Round(u, s).grew {
      RoundKeeps(u, demanded, s);
      assert forall d | d in s.plan :: d in Round(u, s).s.plan;
      ModuleIsExact(u, demanded, sure, Round(u, s).s, fuel - 1);
    } else {
      FinalModuleIsExact(u, demanded, sure, s);
    }
  }

  /** Without the cap the rounds would end: with more rounds allowed than there is left to do, they do. */
  lemma {:induction false} RoundsConverge(u: Unit, demanded: set<string>, all: set<Decl>, s: State, fuel: nat)
    requires u.Valid() && Inv(u, demanded, s) && Covers(u, all) && PlanOk(all, s.plan)
    requires Remaining(u, all, s) < fuel
    ensures Rounds(u, s, fuel).Module?
    decreases fuel
  {
    hide Round, Remaining, PlanOk, Covers;
    if Round(u, s).grew {
      RoundKeeps(u, demanded, s);
      RoundPlanOk(u, demanded, all, s);
      GrowthIsProgress(u, demanded, all, s);
      RoundsConverge(u, demanded, all, Round(u, s).s, fuel - 1);
    }
  }
}
