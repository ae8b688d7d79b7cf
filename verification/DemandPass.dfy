/**
 The whole demand pass (`EmitCxxDemandCompanion`): the demanded symbols the group knows, a walk that
 makes everything they call ready or refuses the demand, then the rounds. When is its module exactly
 what the demand leads to?
 */
module DemandPass {
  import opened Reachability
  import opened DemandUnit
  import opened DemandRounds

  /**
   What a group brings to a pass: the recorded declarations, the bodies still skipped or not yet
   instantiated, what earlier walks walked, the renamed symbols, and the demanded names.
   */
  datatype Situation = Situation(
    plan: seq<Decl>,
    pending: set<Decl>,
    uninstantiated: set<Decl>,
    walked: set<Decl>,
    renamed: map<string, string>,
    demand: seq<string>)

  datatype Outcome = Emits(definitions: set<Decl>) | Refused | TooManyRounds

  /** The state before anything is demanded. */
  function Opening(c: Situation): State {
    State(c.plan, 0, {}, map[], {}, {}, c.pending, c.uninstantiated, c.walked, false)
  }

  /** The plan split once, and the demanded symbols the group binds or holds. */
  function Start(u: Unit, c: Situation): State {
    var s := Split(u, Opening(c));
    s.(want := Demanded(u, s.held, c.renamed, c.demand))
  }

  function Demanded(u: Unit, held: map<string, Decl>, renamed: map<string, string>, demand: seq<string>): set<string> {
    set name | name in demand && (EmittedName(renamed, name) in u.bound || EmittedName(renamed, name) in held) ::
      EmittedName(renamed, name)
  }

  /** The name clang emits for a program-visible one. */
  function EmittedName(renamed: map<string, string>, name: string): string {
    if name in renamed then renamed[name] else name
  }

  /** The functions behind the wanted symbols. */
  function RootsOf(u: Unit, want: set<string>, order: seq<string>): seq<Decl> {
    if order == [] then []
    else
      var rest := RootsOf(u, want, order[1..]);
      if order[0] in want && order[0] in u.declOf && u.declOf[order[0]] !in u.variables
      then [u.declOf[order[0]]] + rest else rest
  }

  /** Everything the wanted functions call is made ready before the first round. */
  function UpFront(u: Unit, c: Situation): State {
    var s := Start(u, c);
    WalkFrom(u, s, RootsOf(u, s.want, u.order))
  }

  lemma OpensSplit(u: Unit, c: Situation)
    ensures Start(u, c).splitDone <= |Start(u, c).plan| && UpFront(u, c).splitDone <= |UpFront(u, c).plan|
  {
    SplitBounds(u, Opening(c));
    var s := Start(u, c);
    WalkReadies(u, s, RootsOf(u, s.want, u.order));
  }

  function Pass(u: Unit, c: Situation, fuel: nat): Outcome {
    OpensSplit(u, c);
    if Start(u, c).want == {} then Emits({})
    else if UpFront(u, c).failed then Refused
    else Answer(Rounds(u, UpFront(u, c), fuel))
  }

  function Answer(r: Result): Outcome {
    if r.Module? then Emits(r.definitions) else TooManyRounds
  }

  // ---------------------------------------------------------------------------------------------
  // How a pass begins
  // ---------------------------------------------------------------------------------------------

  /**
   What a group guarantees: only functions wait for a body, nothing recorded waits for an instantiation
   (Sema announces an instantiated function once it has its body, and the group records it then), and
   what earlier walks walked is closed under calls.
   */
  ghost predicate Arises(u: Unit, c: Situation) {
    c.pending !! u.variables && PlanReady(u, Opening(c)) && WalkedClosed(u, Opening(c), [])
  }

  /** Every variable the group binds it has recorded as well. */
  ghost predicate BoundRecorded(u: Unit, c: Situation) {
    forall n | n in u.bound && n in u.declOf && u.declOf[n] in u.variables :: u.declOf[n] in c.plan
  }

  /** A symbol of a handable declaration in `plan` that CodeGen would emit on sight. */
  predicate HeldBy(u: Unit, plan: seq<Decl>, n: string) {
    n in u.declOf && u.declOf[n] in plan && u.declOf[n] in u.handable && u.declOf[n] in u.mustEmit
  }

  lemma {:induction false} SplitHolds(u: Unit, s: State)
    requires u.Valid() && s.splitDone <= |s.plan|
    ensures var t := Split(u, s);
      && t == s.(splitDone := |s.plan|, lazy := t.lazy, held := t.held)
      && forall n :: n in t.held <==> (n in s.held || HeldBy(u, s.plan[s.splitDone..], n))
    decreases |s.plan| - s.splitDone
  {
    if s.splitDone < |s.plan| {
      var d := s.plan[s.splitDone];
      var t := s.(splitDone := s.splitDone + 1);
      assert s.plan[s.splitDone..] == [d] + s.plan[s.splitDone + 1..];
      var t' := if d !in u.handable then t
                else if d !in u.mustEmit then t.(lazy := t.lazy + {d})
                else t.(held := (map n | n in u.Symbols(d) :: d) + t.held);
      SplitHolds(u, t');
    }
  }

  /**
   A demanded name asks for the symbol clang emits for it, which is another one when its wrapper was renamed,
   provided the group binds that symbol or has recorded what CodeGen would emit on sight for it.
   */
  ghost predicate DemandedSymbol(u: Unit, c: Situation, e: string) {
    && (exists p :: p in c.demand && if p in c.renamed then e == c.renamed[p] else e == p)
    && (e in u.bound || HeldBy(u, c.plan, e))
  }

  ghost predicate Demands(u: Unit, c: Situation, demanded: set<string>) {
    forall e :: e in demanded <==> DemandedSymbol(u, c, e)
  }

  lemma WantIsDemanded(u: Unit, c: Situation, demanded: set<string>)
    requires u.Valid() && Demands(u, c, demanded)
    ensures Start(u, c).want == demanded
  {
    hide HeldBy;
    SplitHolds(u, Opening(c));
    assert c.plan[0..] == c.plan;
    forall e
      ensures e in Start(u, c).want <==> e in demanded
    {}
  }

  /** The rounds' invariant holds when they begin, whether or not the walk refused. */
  lemma StartIsInv(u: Unit, c: Situation)
    requires u.Valid() && Arises(u, c)
    ensures var s := Start(u, c); Inv(u, s.want, s) && s.plan == c.plan && Readied(s, UpFront(u, c))
    ensures Inv(u, Start(u, c).want, UpFront(u, c))
  {
    SplitKeeps(u, {}, Opening(c));
    SplitHolds(u, Opening(c));
    var s := Start(u, c);
    WalkReadies(u, s, RootsOf(u, s.want, u.order));
    WalkKeepsPlanReady(u, s, RootsOf(u, s.want, u.order));
    GrownPlanKeeps(u, s.want, s, UpFront(u, c));
  }

  // ---------------------------------------------------------------------------------------------
  // The walk before the rounds
  // ---------------------------------------------------------------------------------------------

  /** The demanded functions. */
  function WalkRoots(u: Unit, demanded: set<string>): set<Decl> {
    set n | n in demanded && n in u.declOf && u.declOf[n] !in u.variables :: u.declOf[n]
  }

  lemma {:induction false} RootsAre(u: Unit, want: set<string>, order: seq<string>)
    ensures forall d :: d in RootsOf(u, want, order) <==>
              exists n :: n in order && n in want && n in u.declOf && u.declOf[n] !in u.variables && u.declOf[n] == d
  {
    if order != [] {
      RootsAre(u, want, order[1..]);
      assert forall n :: n in order <==> n == order[0] || n in order[1..];
    }
  }

  /** A demand is refused iff a walk from its functions meets a bad definition; else all it meets is ready. */
  lemma UpFrontIsExact(u: Unit, c: Situation, demanded: set<string>)
    requires u.Valid() && Arises(u, c) && Demands(u, c, demanded)
    ensures var s, from := UpFront(u, c), WalkRoots(u, demanded);
      && (s.failed <==> Refuses(u, from))
      && (!s.failed ==> forall d | d in Visited(u, from) && d in u.defines :: Ready(s, d))
  {
    hide WalkFrom, Refuses, Visited, Demands;
    var s := Start(u, c);
    SplitHolds(u, Opening(c));
    WantIsDemanded(u, c, demanded);
    var roots := RootsOf(u, s.want, u.order);
    RootsAre(u, s.want, u.order);
    assert Members(roots) == WalkRoots(u, s.want);
    assert WalkedClosed(u, s, []);
    WalkIsExact(u, s, roots);
  }

  // ---------------------------------------------------------------------------------------------
  // The module is exact
  // ---------------------------------------------------------------------------------------------

  /** A pass defines what the demand leads to if the demanded variables are recorded or otherwise needed. */
  lemma BackedIsExact(u: Unit, c: Situation, demanded: set<string>, sure: set<string>, fuel: nat)
    requires u.Valid() && Arises(u, c) && Demands(u, c, demanded) && Backed(u, demanded, sure, Opening(c))
    requires Pass(u, c, fuel).Emits?
    ensures Pass(u, c, fuel).definitions == Needed(u, demanded)
  {
    hide Rounds, Start, UpFront, Inv, Needed, Demands;
    WantIsDemanded(u, c, demanded);
    if demanded == {} {
      NothingNeeded(u);
    } else {
      OpensSplit(u, c);
      StartIsInv(u, c);
      assert forall d | d in c.plan :: d in UpFront(u, c).plan;
      ModuleIsExact(u, demanded, sure, UpFront(u, c), fuel);
    }
  }

  /**
   In a group that records the variables it binds, a pass is refused iff the demanded functions lead to a
   bad definition, and one that ends defines exactly the definable declarations the demand leads to.
   */
  lemma PassIsExact(u: Unit, c: Situation, demanded: set<string>, fuel: nat)
    requires u.Valid() && Arises(u, c) && BoundRecorded(u, c) && Demands(u, c, demanded)
    ensures Pass(u, c, fuel).Refused? <==> Refuses(u, WalkRoots(u, demanded))
    ensures Pass(u, c, fuel).Emits? ==> Pass(u, c, fuel).definitions == Needed(u, demanded)
  {
    hide Pass, Needed, Refuses;
    RefusalIs(u, c, demanded, fuel);
    if Pass(u, c, fuel).Emits? {
      BackedIsExact(u, c, demanded, demanded, fuel);
    }
  }

  lemma RefusalIs(u: Unit, c: Situation, demanded: set<string>, fuel: nat)
    requires u.Valid() && Arises(u, c) && Demands(u, c, demanded)
    ensures Pass(u, c, fuel).Refused? <==> Refuses(u, WalkRoots(u, demanded))
  {
    hide UpFront, Start, Rounds, Demands;
    UpFrontIsExact(u, c, demanded);
    WantIsDemanded(u, c, demanded);
    assert demanded == {} ==> WalkRoots(u, demanded) == {} && Visited(u, {}) == {};
  }

  /** What is left to do before the first round is at most this. */
  ghost function RoundsEnough(u: Unit, c: Situation): nat {
    |SymbolSet(u)| + |All(u) + Members(c.plan)| + |c.pending| + 1
  }

  /** A pass that may take that many rounds does not give up. */
  lemma PassEnds(u: Unit, c: Situation, fuel: nat)
    requires u.Valid() && Arises(u, c) && fuel >= RoundsEnough(u, c)
    requires forall i, j | 0 <= i < j < |c.plan| :: c.plan[i] != c.plan[j]
    ensures !Pass(u, c, fuel).TooManyRounds?
  {
    hide Rounds, Start, UpFront, Inv, PlanOk, All, Remaining;
    var s, all := Start(u, c), All(u) + Members(c.plan);
    OpensSplit(u, c);
    StartIsInv(u, c);
    OpensPlanOk(u, c);
    AllCovers(u);
    CoversMore(u, All(u), all);
    RemainingAtMost(u, c);
    RoundsConverge(u, s.want, all, UpFront(u, c), fuel);
  }

  lemma OpensPlanOk(u: Unit, c: Situation)
    requires u.Valid() && Arises(u, c) && forall i, j | 0 <= i < j < |c.plan| :: c.plan[i] != c.plan[j]
    ensures PlanOk(All(u) + Members(c.plan), UpFront(u, c).plan)
  {
    hide WalkFrom, All;
    SplitHolds(u, Opening(c));
    var s, all := Start(u, c), All(u) + Members(c.plan);
    AllCovers(u);
    CoversMore(u, All(u), all);
    assert PlanOk(all, s.plan);
    WalkPlanOk(u, all, s, RootsOf(u, s.want, u.order));
  }

  lemma CoversMore(u: Unit, all: set<Decl>, more: set<Decl>)
    requires Covers(u, all) && all <= more
    ensures Covers(u, more)
  {}

  lemma RemainingAtMost(u: Unit, c: Situation)
    requires u.Valid() && Arises(u, c)
    ensures Remaining(u, All(u) + Members(c.plan), UpFront(u, c)) < RoundsEnough(u, c)
  {
    hide All, WalkFrom;
    var s, all := UpFront(u, c), All(u) + Members(c.plan);
    StartIsInv(u, c);
    SplitHolds(u, Opening(c));
    SubsetSize(SymbolSet(u) - s.want, SymbolSet(u));
    SubsetSize(all - PlanSet(s), all);
    SubsetSize(s.pending, c.pending);
  }

  lemma NothingNeeded(u: Unit)
    ensures Needed(u, {}) == {}
  {
    if d :| d in Needed(u, {}) {
      SaturateOnlyReaches(RefersTo(u, AllDefinable(u)), Roots(u, {}, AllDefinable(u)), d);
    }
  }

  // ---------------------------------------------------------------------------------------------
  // Demanded variables that were never recorded
  // ---------------------------------------------------------------------------------------------

  /** Symbols a group can be asked for: bound ones, and those it holds once their declaration is recorded. */
  ghost predicate Demandable(u: Unit, demanded: set<string>) {
    forall n | n in demanded ::
      n in u.bound || (n in u.declOf && u.declOf[n] in u.handable && u.declOf[n] in u.mustEmit)
  }

  /** A bound symbol of a definable variable: nothing makes the group record the variable. */
  predicate AtRisk(u: Unit, n: string) {
    n in u.bound && n in u.declOf && u.declOf[n] in u.variables && u.Definable(u.declOf[n])
  }

  function Sure(u: Unit, demanded: set<string>): set<string> {
    set n | n in demanded && !AtRisk(u, n)
  }

  /** The rest of the demand needs every demanded variable that may be unrecorded. */
  ghost predicate RiskFree(u: Unit, demanded: set<string>) {
    forall n | n in demanded && AtRisk(u, n) :: u.declOf[n] in Needed(u, Sure(u, demanded))
  }

  lemma RiskFreeIsBacked(u: Unit, c: Situation, demanded: set<string>)
    requires u.Valid() && Arises(u, c) && Demands(u, c, demanded) && RiskFree(u, demanded)
    ensures Backed(u, demanded, Sure(u, demanded), Opening(c))
  {
    hide Needed;
    SplitHolds(u, Opening(c));
    assert c.plan[0..] == c.plan;
  }

  /** The definable variables demanded at risk that the rest of the demand does not need. */
  ghost function Unbacked(u: Unit, demanded: set<string>): set<Decl> {
    set n | n in demanded && AtRisk(u, n) && u.declOf[n] !in Needed(u, Sure(u, demanded)) :: u.declOf[n]
  }

  /** Everything is ready, no unbacked variable is recorded, and only recorded declarations are handed. */
  ghost predicate Poor(u: Unit, demanded: set<string>, s: State) {
    && s.pending == {} && s.uninstantiated == {} && (forall d | d in s.plan :: d !in Unbacked(u, demanded))
    && (forall d | d in s.lazy :: d in s.plan) && (forall n | n in s.held :: s.held[n] in s.plan)
    && forall n | n in s.want :: Asked(u, demanded, n)
  }

  ghost predicate Asked(u: Unit, demanded: set<string>, n: string) {
    n in demanded || NeededSymbol(u, Sure(u, demanded), n)
  }

  lemma {:induction false} SplitKeepsPoor(u: Unit, demanded: set<string>, s: State)
    requires s.splitDone <= |s.plan| && Poor(u, demanded, s)
    ensures Poor(u, demanded, Split(u, s))
    decreases |s.plan| - s.splitDone
  {
    hide Unbacked, Asked;
    if s.splitDone < |s.plan| {
      var d := s.plan[s.splitDone];
      var t := s.(splitDone := s.splitDone + 1);
      SplitKeepsPoor(u, demanded,
                     if d !in u.handable then t
                     else if d !in u.mustEmit then t.(lazy := t.lazy + {d})
                     else t.(held := (map n | n in u.Symbols(d) :: d) + t.held));
    }
  }

  /** What is asked for and recorded, the sure symbols need. */
  lemma AskedIsNeeded(u: Unit, demanded: set<string>, s: State, n: string)
    requires Poor(u, demanded, s) && Asked(u, demanded, n) && n in u.declOf && u.Definable(u.declOf[n])
    requires u.declOf[n] in s.plan
    ensures u.declOf[n] in Needed(u, Sure(u, demanded))
  {
    hide Needed;
    if n in demanded && AtRisk(u, n) {
      assert u.declOf[n] !in Unbacked(u, demanded);
    } else {
      NeededIsClosed(u, Sure(u, demanded), n);
    }
  }

  lemma PoorEmits(u: Unit, demanded: set<string>, s: State)
    requires SplitOk(u, s) && Poor(u, demanded, s)
    ensures Emitted(u, s) <= Needed(u, Sure(u, demanded))
  {
    hide Needed, Unbacked, Asked, SplitOk;
    var g, roots := RefersTo(u, Available(u, s)), Roots(u, Requested(u, s), Available(u, s));
    var needed := Needed(u, Sure(u, demanded)) * Available(u, s);
    forall d | d in roots
      ensures d in needed
    {
      var n :| n in Requested(u, s) && n in u.declOf && u.declOf[n] == d && d in Available(u, s);
      AvailableIsDefinable(u, s, d);
      AskedIsNeeded(u, demanded, s, n);
    }
    forall d, m | d in needed && m in Successors(g, d)
      ensures m in needed
    {
      var n :| n in u.Refs(d) && n in u.declOf && u.declOf[n] == m && m in Available(u, s);
      AvailableIsDefinable(u, s, m);
      NeededIsClosed(u, Sure(u, demanded), n);
    }
    forall d | d in Emitted(u, s)
      ensures d in needed
    {
      SaturateOnlyReaches(g, roots, d);
      var r :| r in roots && Reaches(g, r, d);
      ClosedKeepsWalks(g, needed, r, d);
    }
  }

  lemma PoorUses(u: Unit, demanded: set<string>, s: State, n: string)
    requires SplitOk(u, s) && Poor(u, demanded, s) && n in Used(u, s)
    ensures NeededSymbol(u, Sure(u, demanded), n)
  {
    hide Needed, Emitted, Poor;
    PoorEmits(u, demanded, s);
    var d :| d in Emitted(u, s) && n in u.Refs(d);
  }

  lemma PullKeepsPoor(u: Unit, demanded: set<string>, g: Growth, n: string)
    requires n in u.declOf && u.declOf[n] !in u.variables && Asked(u, demanded, n) && Poor(u, demanded, g.s)
    ensures Poor(u, demanded, Pull(u, g, n).s)
  {
    hide WalkFrom, Asked;
  }

  lemma {:induction false} PullAllKeepsPoor(u: Unit, demanded: set<string>, g: Growth, names: seq<string>)
    requires forall n | n in names :: n in u.declOf && u.declOf[n] !in u.variables && Asked(u, demanded, n)
    requires Poor(u, demanded, g.s)
    ensures Poor(u, demanded, PullAll(u, g, names).s)
    decreases |names|
  {
    hide Pull, Poor, Asked;
    if names != [] {
      PullKeepsPoor(u, demanded, g, names[0]);
      PullAllKeepsPoor(u, demanded, Pull(u, g, names[0]), names[1..]);
    }
  }

  lemma RoundKeepsPoor(u: Unit, demanded: set<string>, before: State)
    requires u.Valid() && Inv(u, demanded, before) && Poor(u, demanded, before)
    ensures Poor(u, demanded, Round(u, before).s)
  {
    hide Pull, PullAll, Needed, Emitted, Used;
    var s := Split(u, before);
    SplitKeeps(u, demanded, before);
    SplitKeepsPoor(u, demanded, before);
    forall n | n in Used(u, s)
      ensures Asked(u, demanded, n) && NeededSymbol(u, Sure(u, demanded), n)
    {
      PoorUses(u, demanded, s, n);
    }
    if NewlyNeeded(u, s) == {} {
      var names, storage := PulledFrom(u, s, u.order), StorageFrom(u, s, u.order);
      PulledHaveDecls(u, s, u.order);
      StorageHasUses(u, s, u.order);
      PullAllKeepsPoor(u, demanded, Growth(s, false), names);
      var t := PullAll(u, Growth(s, false), names).s;
      AddAllExtends(t.plan, storage);
      forall d | d in storage
        ensures d !in Unbacked(u, demanded)
      {
        var n :| n in Used(u, s) && n in u.declOf && u.declOf[n] == d;
        if u.Definable(d) { NeededIsClosed(u, Sure(u, demanded), n); }
      }
    }
  }

  lemma {:induction false} PoorRoundsMiss(u: Unit, demanded: set<string>, s: State, fuel: nat)
    requires u.Valid() && Inv(u, demanded, s) && Poor(u, demanded, s) && Rounds(u, s, fuel).Module?
    ensures Rounds(u, s, fuel).definitions <= Needed(u, Sure(u, demanded))
    decreases fuel
  {
    hide Round, Poor, Needed, Emitted;
    RoundKeeps(u, demanded, s);
    if Round(u, s).grew {
      RoundKeepsPoor(u, demanded, s);
      PoorRoundsMiss(u, demanded, Round(u, s).s, fuel - 1);
    } else {
      SplitKeeps(u, demanded, s);
      SplitKeepsPoor(u, demanded, s);
      PoorEmits(u, demanded, Split(u, s));
    }
  }

  /** A walk through definitions that were all walked before changes nothing. */
  lemma {:induction false} NothingToWalk(u: Unit, w: Walk, work: seq<Decl>)
    requires w.s.pending == {} && w.s.uninstantiated == {}
    requires forall d | d in work && d in u.defines :: d in u.compiles && d in w.s.walked
    ensures Drain(u, w, work) == w
    decreases |work|
  {
    if work != [] {
      var (next, pushed) := Visit(u, w, work[|work| - 1]);
      assert next == w && pushed == [] && work[..|work| - 1] + pushed == work[..|work| - 1];
      NothingToWalk(u, w, work[..|work| - 1]);
    }
  }

  lemma {:induction false} Listing<T>(s: set<T>) returns (list: seq<T>)
    ensures forall x :: x in list <==> x in s
    ensures forall i, j | 0 <= i < j < |list| :: list[i] != list[j]
    decreases |s|
  {
    if s == {} {
      list := [];
    } else {
      var x :| x in s;
      var rest := Listing(s - {x});
      list := [x] + rest;
    }
  }

  /** Every declaration the pass can record. */
  ghost function All(u: Unit): set<Decl> {
    u.declOf.Values + u.defines
    + (set d, a | d in u.announced && a in u.announced[d] :: a)
    + (set d, v | d in u.storage && v in u.storage[d] :: v)
  }

  lemma AllCovers(u: Unit)
    ensures Covers(u, All(u))
  {}

  /** A group that recorded only what it must, and walked before all that the demanded functions call. */
  lemma PoorSituation(u: Unit, demanded: set<string>) returns (c: Situation)
    requires u.Valid() && Demandable(u, demanded) && !Refuses(u, WalkRoots(u, demanded))
    ensures Arises(u, c) && Demands(u, c, demanded) && c.pending == {} && c.uninstantiated == {}
    ensures forall d :: d in c.plan <==> exists n :: n in demanded && n !in u.bound && u.declOf[n] == d
    ensures c.walked == Visited(u, WalkRoots(u, demanded)) * u.defines && PlanOk(All(u), c.plan)
  {
    var held := set n | n in demanded && n !in u.bound :: u.declOf[n];
    var plan := Listing(held);
    var demand := Listing(demanded);
    var visited := Visited(u, WalkRoots(u, demanded));
    c := Situation(plan, {}, {}, visited * u.defines, map[], demand);
    SaturateCloses(WalkGraph(u), WalkRoots(u, demanded));
    forall t, e | t in c.walked && e in u.Callees(t)
      ensures e in visited
    {
      assert e in Successors(WalkGraph(u), t);
    }
    forall n | n in demanded
      ensures DemandedSymbol(u, c, n)
    {
      if n !in u.bound { assert u.declOf[n] in held; }
    }
    forall d | d in plan
      ensures d in All(u)
    {
      var n :| n in demanded && n !in u.bound && u.declOf[n] == d;
      assert d in u.declOf.Values;
    }
  }

  lemma PoorWalk(u: Unit, demanded: set<string>, c: Situation)
    requires u.Valid() && !Refuses(u, WalkRoots(u, demanded)) && Start(u, c).want == demanded
    requires c.pending == {} && c.uninstantiated == {} && c.walked == Visited(u, WalkRoots(u, demanded)) * u.defines
    ensures UpFront(u, c) == Start(u, c)
  {
    hide Visit;
    SplitHolds(u, Opening(c));
    var s := Start(u, c);
    var roots := RootsOf(u, demanded, u.order);
    RootsAre(u, demanded, u.order);
    SaturateCloses(WalkGraph(u), WalkRoots(u, demanded));
    forall d | d in roots && d in u.defines
      ensures d in u.compiles && d in s.walked
    {
      assert d in WalkRoots(u, demanded);
    }
    NothingToWalk(u, Walk(s, {}, []), roots);
  }

  lemma HeldIsNotUnbacked(u: Unit, demanded: set<string>, n: string)
    requires n in demanded && n !in u.bound && n in u.declOf
    ensures u.declOf[n] !in Unbacked(u, demanded)
  {
    hide Needed;
    if u.Definable(u.declOf[n]) { NeededIsClosed(u, Sure(u, demanded), n); }
  }

  lemma PoorStart(u: Unit, demanded: set<string>, c: Situation)
    requires u.Valid() && Demandable(u, demanded) && Start(u, c).want == demanded
    requires c.pending == {} && c.uninstantiated == {}
    requires forall d :: d in c.plan <==> exists n :: n in demanded && n !in u.bound && u.declOf[n] == d
    ensures Poor(u, demanded, Start(u, c))
  {
    hide Split, Unbacked, Demanded;
    forall d | d in c.plan
      ensures d !in Unbacked(u, demanded)
    {
      var n :| n in demanded && n !in u.bound && u.declOf[n] == d;
      HeldIsNotUnbacked(u, demanded, n);
    }
    SplitKeepsPoor(u, demanded, Opening(c));
  }

  /** An unrecorded demanded variable that nothing else needs stays undefined in some pass. */
  lemma UnrecordedIsMissed(u: Unit, demanded: set<string>, n: string) returns (c: Situation, fuel: nat)
    requires u.Valid() && Demandable(u, demanded) && !Refuses(u, WalkRoots(u, demanded))
    requires n in demanded && AtRisk(u, n) && u.declOf[n] !in Needed(u, Sure(u, demanded))
    ensures Arises(u, c) && Demands(u, c, demanded) && Pass(u, c, fuel).Emits?
    ensures u.declOf[n] in Needed(u, demanded) && u.declOf[n] !in Pass(u, c, fuel).definitions
  {
    hide Rounds, Start, UpFront, Refuses, Needed, Inv, Poor, PlanOk, All;
    c := PoorSituation(u, demanded);
    WantIsDemanded(u, c, demanded);
    PoorStart(u, demanded, c);
    PoorWalk(u, demanded, c);
    StartIsInv(u, c);
    OpensSplit(u, c);
    UpFrontIsExact(u, c, demanded);
    AllCovers(u);
    fuel := Remaining(u, All(u), Start(u, c)) + 1;
    RoundsConverge(u, demanded, All(u), Start(u, c), fuel);
    PoorRoundsMiss(u, demanded, Start(u, c), fuel);
    NeededIsClosed(u, demanded, n);
  }

  /**
   For groups that may not have recorded the variables they bind: every pass for a demand is exact iff
   the walk refuses it or the rest of the demand needs each of its bound variables.
   */
  lemma PassIsExactIff(u: Unit, demanded: set<string>)
    requires u.Valid() && Demandable(u, demanded)
    ensures (Refuses(u, WalkRoots(u, demanded)) || RiskFree(u, demanded)) <==>
      forall c, fuel: nat | Arises(u, c) && Demands(u, c, demanded) && Pass(u, c, fuel).Emits? ::
        Pass(u, c, fuel).definitions == Needed(u, demanded)
  {
    hide Start, Arises, Needed, Refuses, Sure;
    if Refuses(u, WalkRoots(u, demanded)) {
      forall c, fuel: nat | Arises(u, c) && Demands(u, c, demanded)
        ensures !Pass(u, c, fuel).Emits?
      {
        RefusalIs(u, c, demanded, fuel);
      }
    } else if RiskFree(u, demanded) {
      forall c, fuel: nat | Arises(u, c) && Demands(u, c, demanded) && Pass(u, c, fuel).Emits?
        ensures Pass(u, c, fuel).definitions == Needed(u, demanded)
      {
        RiskFreeIsBacked(u, c, demanded);
        BackedIsExact(u, c, demanded, Sure(u, demanded), fuel);
      }
    } else {
      var n :| n in demanded && AtRisk(u, n) && u.declOf[n] !in Needed(u, Sure(u, demanded));
      var c, fuel := UnrecordedIsMissed(u, demanded, n);
    }
  }

  class CxxDemandPass {
    const u: Unit
    const roundCap: nat
    var decls: seq<Decl>
    var declSeen: set<Decl>
    var splitDone: nat
    var lazy: set<Decl>
    var held: map<string, Decl>
    var want: set<string>
    var closureTried: set<Decl>
    var pending: set<Decl>
    var uninstantiated: set<Decl>
    var walked: set<Decl>
    var failed: bool

    ghost predicate Valid()
      reads this
    {
      declSeen == (set d | d in decls) && splitDone <= |decls|
    }

    function Contents(): State
      reads this
    {
      State(decls, splitDone, lazy, held, want, closureTried, pending, uninstantiated, walked, failed)
    }

    constructor (u: Unit, c: Situation)
      ensures Valid() && this.u == u && roundCap == ROUND_CAP && Contents() == Opening(c)
    {
      this.u, roundCap := u, ROUND_CAP;
      decls, declSeen, splitDone := c.plan, set d | d in c.plan, 0;
      lazy, held, want, closureTried := {}, map[], {}, {};
      pending, uninstantiated, walked, failed := c.pending, c.uninstantiated, c.walked, false;
    }

    method AddDecl(d: Decl)
      requires Valid()
      modifies this`decls, this`declSeen
      ensures Valid() && decls == Add(old(decls), d)
    {
      if d !in declSeen {
        declSeen := declSeen + {d};
        decls := decls + [d];
      }
    }

    method AddDecls(ds: seq<Decl>)
      requires Valid()
      modifies this`decls, this`declSeen
      ensures Valid() && decls == AddAll(old(decls), ds) && |old(decls)| <= |decls|
    {
      AddAllExtends(decls, ds);
      for i := 0 to |ds|
        invariant Valid() && AddAll(old(decls), ds) == AddAll(decls, ds[i..])
      {
        AddDecl(ds[i]);
      }
    }

    method SplitPlan()
      requires Valid()
      modifies this`splitDone, this`lazy, this`held
      ensures Valid() && Contents() == Split(u, old(Contents())) && splitDone == |decls|
    {
      while splitDone < |decls|
        invariant Valid() && Split(u, Contents()) == Split(u, old(Contents()))
      {
        var d := decls[splitDone];
        splitDone := splitDone + 1;
        if d !in u.handable { continue; }
        if d !in u.mustEmit {
          lazy := lazy + {d};
        } else {
          held := (map n | n in u.Symbols(d) :: d) + held;
        }
      }
    }

    /** Instantiates or parses d: instantiations may complete, and what Sema announces is recorded. */
    method MakeBodyReady(d: Decl)
      requires Valid()
      modifies this`decls, this`declSeen, this`pending, this`uninstantiated
      ensures Valid() && Contents() == MakeReady(u, old(Contents()), d)
    {
      AddAllExtends(decls, u.Announced(d));
      uninstantiated := uninstantiated - {d} - Members(u.Announced(d));
      AddDecls(u.Announced(d));
    }

    method Instantiate(d: Decl)
      requires Valid()
      modifies this`decls, this`declSeen, this`pending, this`uninstantiated
      ensures Valid() && Contents() == Instantiated(u, old(Contents()), d)
    {
      if d in uninstantiated { MakeBodyReady(d); }
    }

    method ParseOne(d: Decl)
      requires Valid()
      modifies this`decls, this`declSeen, this`pending, this`uninstantiated
      ensures Valid() && Contents() == Parsed(u, old(Contents()), d)
    {
      if d in pending {
        pending := pending - {d};
        MakeBodyReady(d);
      }
    }

    /** One step of the walk's loop: what d pushes, and whether it is walked now and recorded later. */
    method VisitOne(d: Decl, ghost w: Walk) returns (pushed: seq<Decl>, isNew: bool)
      requires Valid() && w.s == Contents()
      modifies this`decls, this`declSeen, this`pending, this`uninstantiated, this`walked, this`failed
      ensures Valid() && pushed == Visit(u, w, d).1
      ensures Visit(u, w, d).0 ==
        Walk(Contents(), if isNew then w.now + {d} else w.now,
             if isNew && d in u.freestanding then w.add + [d] else w.add)
    {
      hide Instantiated, Parsed, AddAll;
      pushed, isNew := [], false;
      if d !in u.defines { return; }
      Instantiate(d);
      if d !in u.compiles && d !in pending {
        failed := true;
        return;
      }
      ParseOne(d);
      if d !in u.compiles {
        failed := true;
        return;
      }
      if d in walked { return; }
      walked := walked + {d};
      AddDecls(u.Storage(d));
      pushed, isNew := u.Callees(d), true;
    }

    /** Parses and instantiates everything the roots call, and records storage and definitions. */
    method MaterializeReachable(roots: seq<Decl>)
      requires Valid()
      modifies this`decls, this`declSeen, this`pending, this`uninstantiated, this`walked, this`failed
      ensures Valid() && Contents() == WalkFrom(u, old(Contents()), roots)
    {
      var work := roots;
      var walkedNow: set<Decl> := {};
      var addNow: seq<Decl> := [];
      while work != []
        invariant Valid()
        invariant Drain(u, Walk(Contents(), walkedNow, addNow), work) == Drain(u, Walk(old(Contents()), {}, []), roots)
        decreases u.defines - walked, |work|
      {
        ghost var w := Walk(Contents(), walkedNow, addNow);
        var next := work[|work| - 1];
        VisitTerminates(u, w, next);
        var pushed, isNew := VisitOne(next, w);
        work := work[..|work| - 1] + pushed;
        if isNew {
          walkedNow := walkedNow + {next};
          if next in u.freestanding { addNow := addNow + [next]; }
        }
      }
      AddAllExtends(decls, addNow);
      if failed {
        walked := walked - walkedNow;
      } else {
        AddDecls(addNow);
      }
    }

    method PullOne(n: string, grew0: bool) returns (grew: bool)
      requires Valid() && n in u.declOf
      modifies this
      ensures Valid() && Growth(Contents(), grew) == Pull(u, Growth(old(Contents()), grew0), n)
    {
      hide WalkFrom, Instantiated;
      grew := grew0;
      var d := u.declOf[n];
      if d in closureTried { assert closureTried + {d} == closureTried; return; }
      closureTried := closureTried + {d};
      if d !in u.defines { return; }
      Instantiate(d);
      if d !in pending && d !in u.compiles { return; }
      var materialized := d in pending;
      if materialized { MaterializeReachable([d]); }
      if d !in u.compiles { return; }
      if d !in declSeen {
        AddDecl(d);
        want := want + {n};
        grew := true;
      } else if materialized || splitDone < |decls| {
        grew := true;
      }
    }

    /** The closure over one module: pulls functions, then storage. */
    method Close(names: seq<string>, storage: seq<Decl>) returns (grew: bool)
      requires Valid() && forall n | n in names :: n in u.declOf
      modifies this
      ensures Valid()
      ensures var g := PullAll(u, Growth(old(Contents()), false), names);
        var plan := AddAll(g.s.plan, storage);
        Growth(Contents(), grew) == Growth(g.s.(plan := plan), g.grew || plan != g.s.plan || g.s.splitDone < |plan|)
    {
      hide Pull;
      grew := false;
      for i := 0 to |names|
        invariant Valid()
        invariant PullAll(u, Growth(Contents(), grew), names[i..]) == PullAll(u, Growth(old(Contents()), false), names)
      {
        grew := PullOne(names[i], grew);
      }
      var before := |decls|;
      AddAllExtends(decls, storage);
      AddDecls(storage);
      grew := grew || before < |decls| || splitDone < |decls|;
    }

    method RoundOnce() returns (grew: bool, definitions: set<Decl>)
      requires Valid()
      modifies this
      ensures Valid() && Growth(Contents(), grew) == Round(u, old(Contents()))
      ensures definitions == Emitted(u, Split(u, old(Contents())))
    {
      SplitPlan();
      definitions := Emitted(u, Contents());
      var needed := NewlyNeeded(u, Contents());
      if needed != {} {
        want := want + needed;
        return true, definitions;
      }
      PulledHaveDecls(u, Contents(), u.order);
      grew := Close(PulledFrom(u, Contents(), u.order), StorageFrom(u, Contents(), u.order));
    }

    method RunRounds() returns (outcome: Outcome)
      requires Valid()
      modifies this
      ensures old(splitDone <= |decls|) && outcome == Answer(Rounds(u, old(Contents()), roundCap))
    {
      hide Round;
      for round := 0 to roundCap
        invariant Valid() && Rounds(u, Contents(), roundCap - round) == Rounds(u, old(Contents()), roundCap)
      {
        var grew, definitions := RoundOnce();
        if !grew { return Emits(definitions); }
      }
      return TooManyRounds;
    }

    /** The demanded symbols' definitions, a refusal, or no answer when the capped rounds were not enough. */
    method Emit(c: Situation) returns (outcome: Outcome)
      requires Valid() && Contents() == Opening(c)
      modifies this
      ensures outcome == Pass(u, c, roundCap)
    {
      hide Rounds;
      SplitPlan();
      want := Demanded(u, held, c.renamed, c.demand);
      if want == {} { return Emits({}); }
      MaterializeReachable(RootsOf(u, want, u.order));
      if failed { return Refused; }
      outcome := RunRounds();
    }
  }
}
