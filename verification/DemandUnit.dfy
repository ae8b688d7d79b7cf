/**
 The functions and variables of a demand pass, and the walk that makes bodies ready
 (`LazyBodies::MaterializeReachable` as the pass uses it): from the given functions it instantiates and
 parses everything they call, and records the storage and the free-standing definitions it meets.
 */
module DemandUnit {
  import opened Reachability

  datatype Decl = Decl(id: nat)

  /**
   What clang answers about the group's functions and variables.
    - order: every symbol, in the order a module lists its globals
    - declOf: the declaration behind a symbol; symbols: the symbols a declaration's definition has
    - refs: the symbols CodeGen makes a definition refer to
    - defines: declarations with a definition, or one to be instantiated; compiles: those whose body is
      good and that no earlier check refused
    - handable: valid declarations, constrained members that lose to a twin excluded
    - mustEmit: what CodeGen emits as soon as it is handed
    - announced: the declarations Sema announces when it parses or instantiates a body: among them every
      function whose own instantiation it completes on the way, each once it has a body
    - callees, storage: the functions a walk follows from a body, and the variables it records for it
    - freestanding: functions defined outside a class, which a walk records too
   */
  datatype Unit = Unit(
    order: seq<string>,
    declOf: map<string, Decl>,
    symbols: map<Decl, set<string>>,
    refs: map<Decl, set<string>>,
    variables: set<Decl>,
    defines: set<Decl>,
    compiles: set<Decl>,
    handable: set<Decl>,
    mustEmit: set<Decl>,
    announced: map<Decl, seq<Decl>>,
    bound: set<string>,
    callees: map<Decl, seq<Decl>>,
    storage: map<Decl, seq<Decl>>,
    freestanding: set<Decl>)
  {
    function Symbols(d: Decl): set<string> {
      if d in symbols then symbols[d] else {}
    }

    function Refs(d: Decl): set<string> {
      if d in refs then refs[d] else {}
    }

    function Announced(d: Decl): seq<Decl> {
      if d in announced then announced[d] else []
    }

    function Callees(d: Decl): seq<Decl> {
      if d in callees then callees[d] else []
    }

    function Storage(d: Decl): seq<Decl> {
      if d in storage then storage[d] else []
    }

    /** What the pass can get CodeGen to emit. */
    predicate Definable(d: Decl) {
      d in defines && d in compiles && d in handable
    }

    /** Symbols are mangled one way, a module lists each symbol it refers to, and walks record variables. */
    ghost predicate Valid() {
      && (forall d, n | n in Symbols(d) :: n in declOf && declOf[n] == d)
      && (forall n | n in declOf :: n in Symbols(declOf[n]))
      && (forall d, n | n in Refs(d) :: n in order)
      && (forall n | n in declOf :: n in order)
      && (forall d, v | v in Storage(d) :: v in variables)
    }
  }

  /**
   The pass's state: the plan (declarations in first-seen order), how much of it is split, the two
   halves, the demanded symbols, the functions the closure tried, the bodies still skipped or not yet
   instantiated, the definitions walked, and whether a walk of this pass has failed.
   */
  datatype State = State(
    plan: seq<Decl>,
    splitDone: nat,
    lazy: set<Decl>,
    held: map<string, Decl>,
    want: set<string>,
    tried: set<Decl>,
    pending: set<Decl>,
    uninstantiated: set<Decl>,
    walked: set<Decl>,
    failed: bool)

  predicate Ready(s: State, d: Decl) {
    d !in s.pending && d !in s.uninstantiated
  }

  /** `CxxDemandPlan::Add`. */
  function Add(plan: seq<Decl>, d: Decl): seq<Decl> {
    if d in plan then plan else plan + [d]
  }

  function AddAll(plan: seq<Decl>, ds: seq<Decl>): seq<Decl>
    decreases |ds|
  {
    if ds == [] then plan else AddAll(Add(plan, ds[0]), ds[1..])
  }

  function Members(ds: seq<Decl>): set<Decl> {
    set d | d in ds
  }

  /** Instantiates or parses d: instantiations complete, and whatever Sema announces is recorded. */
  function MakeReady(u: Unit, s: State, d: Decl): State {
    s.(uninstantiated := s.uninstantiated - {d} - Members(u.Announced(d)), plan := AddAll(s.plan, u.Announced(d)))
  }

  function Instantiated(u: Unit, s: State, d: Decl): State {
    if d in s.uninstantiated then MakeReady(u, s, d) else s
  }

  function Parsed(u: Unit, s: State, d: Decl): State {
    if d in s.pending then MakeReady(u, s.(pending := s.pending - {d}), d) else s
  }

  // ---------------------------------------------------------------------------------------------
  // The walk
  // ---------------------------------------------------------------------------------------------

  /** A walk in progress: what it walked itself, and the definitions it will record. */
  datatype Walk = Walk(s: State, now: set<Decl>, add: seq<Decl>)

  function Fail(w: Walk, s: State): Walk {
    w.(s := s.(failed := true))
  }

  /** One function of the worklist, and what it pushes. */
  function Visit(u: Unit, w: Walk, d: Decl): (Walk, seq<Decl>) {
    if d !in u.defines then (w, [])
    else
      var s1 := Instantiated(u, w.s, d);
      if d !in u.compiles && d !in s1.pending then (Fail(w, s1), [])
      else
        var s2 := Parsed(u, s1, d);
        if d !in u.compiles then (Fail(w, s2), [])
        else if d in s2.walked then (w.(s := s2), [])
        else
          (Walk(s2.(walked := s2.walked + {d}, plan := AddAll(s2.plan, u.Storage(d))), w.now + {d},
                if d in u.freestanding then w.add + [d] else w.add),
           u.Callees(d))
  }

  function Drain(u: Unit, w: Walk, work: seq<Decl>): Walk
    decreases u.defines - w.s.walked, |work|
  {
    if work == [] then w
    else
      var (next, pushed) := Visit(u, w, work[|work| - 1]);
      Drain(u, next, work[..|work| - 1] + pushed)
  }

  /** The whole walk: a failure forgets what it walked, a success records the definitions. */
  function WalkFrom(u: Unit, s: State, roots: seq<Decl>): State {
    var w := Drain(u, Walk(s, {}, []), roots);
    if w.s.failed then w.s.(walked := w.s.walked - w.now) else w.s.(plan := AddAll(w.s.plan, w.add))
  }

  // ---------------------------------------------------------------------------------------------
  // What a walk changes
  // ---------------------------------------------------------------------------------------------

  lemma {:induction false} AddAllExtends(plan: seq<Decl>, ds: seq<Decl>)
    ensures plan <= AddAll(plan, ds)
    ensures forall d :: d in AddAll(plan, ds) <==> d in plan || d in ds
    decreases |ds|
  {
    if ds != [] {
      AddAllExtends(Add(plan, ds[0]), ds[1..]);
      assert forall d :: d in ds <==> d == ds[0] || d in ds[1..];
    }
  }

  /** Making bodies ready only extends the plan and shrinks what is not ready. */
  ghost predicate Readied(s: State, t: State) {
    && s.plan <= t.plan && t.pending <= s.pending && t.uninstantiated <= s.uninstantiated
    && t == s.(plan := t.plan, pending := t.pending, uninstantiated := t.uninstantiated,
               walked := t.walked, failed := t.failed)
    && (s.failed ==> t.failed)
  }

  lemma MakeReadyReadies(u: Unit, s: State, d: Decl)
    ensures var t := MakeReady(u, s, d);
      Readied(s, t) && d !in t.uninstantiated && t.walked == s.walked && t.failed == s.failed
  {
    AddAllExtends(s.plan, u.Announced(d));
  }

  lemma BothReadied(u: Unit, s: State, d: Decl)
    ensures var t := Instantiated(u, s, d);
      Readied(s, t) && d !in t.uninstantiated && t.walked == s.walked && t.failed == s.failed
    ensures var t := Parsed(u, s, d);
      Readied(s, t) && d !in t.pending && t.walked == s.walked && t.failed == s.failed
  {
    MakeReadyReadies(u, s, d);
    MakeReadyReadies(u, s.(pending := s.pending - {d}), d);
  }

  lemma VisitReadies(u: Unit, w: Walk, d: Decl)
    ensures var next := Visit(u, w, d).0;
      && Readied(w.s, next.s) && (d in u.defines && d in u.compiles ==> Ready(next.s, d))
      && (d in u.defines ==> d !in next.s.uninstantiated && d !in next.s.pending)
      && w.s.walked <= next.s.walked && next.s.walked + w.now == w.s.walked + next.now && w.now <= next.now
  {
    BothReadied(u, w.s, d);
    var s1 := Instantiated(u, w.s, d);
    BothReadied(u, s1, d);
    AddAllExtends(Parsed(u, s1, d).plan, u.Storage(d));
  }

  lemma {:induction false} DrainReadies(u: Unit, w: Walk, work: seq<Decl>)
    ensures Readied(w.s, Drain(u, w, work).s)
    decreases u.defines - w.s.walked, |work|
  {
    if work != [] {
      var (next, pushed) := Visit(u, w, work[|work| - 1]);
      VisitReadies(u, w, work[|work| - 1]);
      DrainReadies(u, next, work[..|work| - 1] + pushed);
    }
  }

  /** A walk readies what it starts from, and changes nothing but plan, readiness and its own marks. */
  lemma WalkReadies(u: Unit, s: State, roots: seq<Decl>)
    ensures Readied(s, WalkFrom(u, s, roots))
    ensures roots != [] && roots[|roots| - 1] in u.defines ==> Ready(WalkFrom(u, s, roots), roots[|roots| - 1])
  {
    var w := Drain(u, Walk(s, {}, []), roots);
    DrainReadies(u, Walk(s, {}, []), roots);
    AddAllExtends(w.s.plan, w.add);
    if roots != [] {
      var d := roots[|roots| - 1];
      var (next, pushed) := Visit(u, Walk(s, {}, []), d);
      VisitReadies(u, Walk(s, {}, []), d);
      DrainReadies(u, next, roots[..|roots| - 1] + pushed);
    }
  }

  // ---------------------------------------------------------------------------------------------
  // What a walk finds
  // ---------------------------------------------------------------------------------------------

  /** What a walk follows: good definitions to the functions they call. */
  function WalkGraph(u: Unit): Graph<Decl> {
    map d | d in u.defines && d in u.compiles :: if d in u.callees then set c | c in u.callees[d] else {}
  }

  /** All a walk from these functions can visit. */
  function Visited(u: Unit, roots: set<Decl>): set<Decl> {
    Saturate(WalkGraph(u), roots)
  }

  /** Something the walk visits has a definition that is no good. */
  predicate Refuses(u: Unit, roots: set<Decl>) {
    exists d :: d in Visited(u, roots) && d in u.defines && d !in u.compiles
  }

  /** Walked definitions are good and ready; what they call is walked too, or still in the worklist. */
  ghost predicate WalkedClosed(u: Unit, s: State, work: seq<Decl>) {
    forall t | t in s.walked ::
      && t in u.defines && t in u.compiles && Ready(s, t)
      && forall c | c in u.Callees(t) :: c !in u.defines || c in s.walked || c in work
  }

  lemma {:induction false} FailureStays(u: Unit, w: Walk, work: seq<Decl>)
    requires w.s.failed
    ensures Drain(u, w, work).s.failed
  {
    DrainReadies(u, w, work);
  }

  lemma VisitKeepsClosed(u: Unit, w: Walk, d: Decl, before: seq<Decl>, work: seq<Decl>)
    requires WalkedClosed(u, w.s, before) && !Visit(u, w, d).0.s.failed
    requires forall c | c in before :: c == d || c in work
    requires forall c | c in Visit(u, w, d).1 :: c in work
    ensures WalkedClosed(u, Visit(u, w, d).0.s, work)
    ensures d in u.defines ==> d in Visit(u, w, d).0.s.walked
  {
    hide Instantiated, Parsed;
    VisitReadies(u, w, d);
    var s1 := Instantiated(u, w.s, d);
    BothReadied(u, w.s, d);
    BothReadied(u, s1, d);
  }

  /** A walk that does not fail has walked all it started from, and left the walked set closed. */
  lemma {:induction false} DrainSucceeds(u: Unit, w: Walk, work: seq<Decl>)
    requires WalkedClosed(u, w.s, work) && !Drain(u, w, work).s.failed
    ensures WalkedClosed(u, Drain(u, w, work).s, []) && w.s.walked <= Drain(u, w, work).s.walked
    ensures forall d | d in work && d in u.defines :: d in Drain(u, w, work).s.walked
    decreases u.defines - w.s.walked, |work|
  {
    hide Visit, WalkedClosed;
    if work != [] {
      var d, rest := work[|work| - 1], work[..|work| - 1];
      var (next, pushed) := Visit(u, w, d);
      VisitReadies(u, w, d);
      assert forall c | c in work :: c == d || c in rest + pushed;
      if next.s.failed {
        FailureStays(u, next, rest + pushed);
        assert false;
      } else {
        VisitKeepsClosed(u, w, d, work, rest + pushed);
        VisitTerminates(u, w, d);
        DrainSucceeds(u, next, rest + pushed);
      }
    }
  }

  lemma VisitTerminates(u: Unit, w: Walk, d: Decl)
    ensures var (next, pushed) := Visit(u, w, d);
      && w.s.walked <= next.s.walked && (pushed != [] ==> d in u.defines && d !in w.s.walked && d in next.s.walked)
  {
    BothReadied(u, w.s, d);
    BothReadied(u, Instantiated(u, w.s, d), d);
  }

  /** A walk fails only on something that leads to a bad definition. */
  lemma {:induction false} DrainFails(u: Unit, w: Walk, work: seq<Decl>) returns (d: Decl, bad: Decl)
    requires !w.s.failed && Drain(u, w, work).s.failed
    ensures d in work && Reaches(WalkGraph(u), d, bad) && bad in u.defines && bad !in u.compiles
    decreases u.defines - w.s.walked, |work|
  {
    var next, rest := work[|work| - 1], work[..|work| - 1];
    var (v, pushed) := Visit(u, w, next);
    VisitPushes(u, w, next);
    VisitTerminates(u, w, next);
    hide Visit;
    if v.s.failed {
      d, bad := next, next;
      ReachesSelf(WalkGraph(u), next);
    } else {
      d, bad := DrainFails(u, v, rest + pushed);
      if d in pushed {
        assert d in Successors(WalkGraph(u), next);
        StepReaches(WalkGraph(u), next, d, bad);
        d := next;
      }
    }
  }

  lemma VisitPushes(u: Unit, w: Walk, d: Decl)
    ensures var (next, pushed) := Visit(u, w, d);
      && (next.s.failed && !w.s.failed ==> d in u.defines && d !in u.compiles)
      && (pushed != [] ==> d in u.defines && d in u.compiles && pushed == u.Callees(d))
  {
    BothReadied(u, w.s, d);
    BothReadied(u, Instantiated(u, w.s, d), d);
  }

  lemma {:induction false} DrainOnlyAdds(u: Unit, walked: set<Decl>, w: Walk, work: seq<Decl>)
    requires w.s.walked == walked + w.now && walked !! w.now
    ensures var r := Drain(u, w, work); r.s.walked == walked + r.now && walked !! r.now
    decreases u.defines - w.s.walked, |work|
  {
    if work != [] {
      var d := work[|work| - 1];
      var (next, pushed) := Visit(u, w, d);
      BothReadied(u, w.s, d);
      BothReadied(u, Instantiated(u, w.s, d), d);
      DrainOnlyAdds(u, walked, next, work[..|work| - 1] + pushed);
    }
  }

  lemma ClosedStays(u: Unit, s: State, t: State)
    requires WalkedClosed(u, s, []) && Readied(s, t) && t.walked == s.walked
    ensures WalkedClosed(u, t, [])
  {}

  /**
   From a closed walked set a walk fails iff what it visits holds a bad definition; a walk that does not
   leaves every definition it visits good and ready, and the set closed either way.
   */
  lemma WalkIsExact(u: Unit, s: State, roots: seq<Decl>)
    requires WalkedClosed(u, s, []) && !s.failed
    ensures var t, from := WalkFrom(u, s, roots), Members(roots);
      && (t.failed <==> Refuses(u, from)) && WalkedClosed(u, t, [])
      && (t.failed ==> t.walked == s.walked)
      && (!t.failed ==> forall d | d in Visited(u, from) && d in u.defines :: d in t.walked)
  {
    var w := Drain(u, Walk(s, {}, []), roots);
    var t, from, g := WalkFrom(u, s, roots), Members(roots), WalkGraph(u);
    WalkReadies(u, s, roots);
    AddAllExtends(w.s.plan, w.add);
    if w.s.failed {
      DrainOnlyAdds(u, s.walked, Walk(s, {}, []), roots);
      ClosedStays(u, s, t);
      var d, bad := DrainFails(u, Walk(s, {}, []), roots);
      assert d in from;
      SaturateIsReach(g, from, bad);
    } else {
      assert WalkedClosed(u, s, roots);
      DrainSucceeds(u, Walk(s, {}, []), roots);
      ClosedStays(u, w.s, t);
      forall d | d in Visited(u, from) && d in u.defines
        ensures d in t.walked
      {
        SaturateIsReach(g, from, d);
        var r :| r in from && Reaches(g, r, d);
        WalkStaysWalked(u, t, r, d);
      }
    }
  }

  lemma WalkStaysWalked(u: Unit, t: State, r: Decl, d: Decl)
    requires WalkedClosed(u, t, []) && (r in u.defines ==> r in t.walked)
    requires Reaches(WalkGraph(u), r, d) && d in u.defines
    ensures d in t.walked
  {
    var g := WalkGraph(u);
    var w :| WalkBetween(g, r, d, w);
    for i := 0 to |w| - 1
      invariant w[i] in u.defines ==> w[i] in t.walked
    {
      assert w[i + 1] in Successors(g, w[i]);
      assert w[i + 1] in u.Callees(w[i]);
    }
  }

  // ---------------------------------------------------------------------------------------------
  // What a walk leaves recorded
  // ---------------------------------------------------------------------------------------------

  /** The variables d's body names are recorded. */
  ghost predicate StorageRecorded(u: Unit, plan: seq<Decl>, d: Decl) {
    d in u.storage ==> forall v | v in u.storage[d] :: v in plan
  }

  /** So is what Sema announced when d was parsed. */
  ghost predicate AnnouncementsRecorded(u: Unit, plan: seq<Decl>, d: Decl) {
    d in u.announced ==> forall a | a in u.announced[d] :: a in plan
  }

  /** Of a walk that began in state s: bodies parsed and definitions walked since are recorded as they should be. */
  ghost predicate Recording(u: Unit, s: State, w: Walk) {
    && (forall d | d in s.pending && d !in w.s.pending :: AnnouncementsRecorded(u, w.s.plan, d))
    && (forall d | d in w.now :: StorageRecorded(u, w.s.plan, d))
    && (forall d | d in w.now && d in u.freestanding :: d in w.add)
  }

  lemma ReadyingRecords(u: Unit, s: State, w: Walk, d: Decl)
    requires Recording(u, s, w)
    ensures Recording(u, s, w.(s := Instantiated(u, w.s, d))) && Recording(u, s, w.(s := Parsed(u, w.s, d)))
  {
    AddAllExtends(w.s.plan, u.Announced(d));
  }

  lemma WalkingRecords(u: Unit, s: State, w: Walk, d: Decl)
    requires Recording(u, s, w)
    ensures Recording(u, s, Walk(w.s.(walked := w.s.walked + {d}, plan := AddAll(w.s.plan, u.Storage(d))), w.now + {d},
                                 if d in u.freestanding then w.add + [d] else w.add))
  {
    AddAllExtends(w.s.plan, u.Storage(d));
  }

  lemma FailingRecords(u: Unit, s: State, w: Walk)
    requires Recording(u, s, w)
    ensures Recording(u, s, w.(s := w.s.(failed := true)))
  {}

  lemma VisitRecords(u: Unit, s: State, w: Walk, d: Decl)
    requires Recording(u, s, w)
    ensures Recording(u, s, Visit(u, w, d).0)
  {
    hide Recording, Instantiated, Parsed;
    var s1 := Instantiated(u, w.s, d);
    var w1 := w.(s := s1);
    ReadyingRecords(u, s, w, d);
    FailingRecords(u, s, w1);
    ReadyingRecords(u, s, w1, d);
    var w2 := w1.(s := Parsed(u, s1, d));
    FailingRecords(u, s, w2);
    WalkingRecords(u, s, w2, d);
  }

  lemma {:induction false} DrainRecords(u: Unit, s: State, w: Walk, work: seq<Decl>)
    requires Recording(u, s, w)
    ensures Recording(u, s, Drain(u, w, work))
    decreases u.defines - w.s.walked, |work|
  {
    hide Recording, Visit;
    if work != [] {
      var d := work[|work| - 1];
      var (next, pushed) := Visit(u, w, d);
      VisitRecords(u, s, w, d);
      VisitTerminates(u, w, d);
      DrainRecords(u, s, next, work[..|work| - 1] + pushed);
    }
  }

  /**
   A walk records what Sema announces for each body it parses, and, when it does not fail, the storage each
   newly walked definition names and the definition itself when it stands outside a class.
   */
  lemma WalkRecords(u: Unit, s: State, roots: seq<Decl>)
    ensures var t := WalkFrom(u, s, roots);
      && (forall d | d in s.pending && d !in t.pending :: AnnouncementsRecorded(u, t.plan, d))
      && (!t.failed ==> forall d | d in t.walked && d !in s.walked ::
            StorageRecorded(u, t.plan, d) && (d in u.freestanding ==> d in t.plan))
  {
    var w := Drain(u, Walk(s, {}, []), roots);
    DrainRecords(u, s, Walk(s, {}, []), roots);
    DrainAddsToWalked(u, s.walked, Walk(s, {}, []), roots);
    AddAllExtends(w.s.plan, w.add);
  }

  lemma {:induction false} DrainAddsToWalked(u: Unit, walked: set<Decl>, w: Walk, work: seq<Decl>)
    requires w.s.walked == walked + w.now
    ensures var r := Drain(u, w, work); r.s.walked == walked + r.now
    decreases u.defines - w.s.walked, |work|
  {
    if work != [] {
      var (next, pushed) := Visit(u, w, work[|work| - 1]);
      BothReadied(u, w.s, work[|work| - 1]);
      BothReadied(u, Instantiated(u, w.s, work[|work| - 1]), work[|work| - 1]);
      DrainAddsToWalked(u, walked, next, work[..|work| - 1] + pushed);
    }
  }

  // ---------------------------------------------------------------------------------------------
  // What a walk records
  // ---------------------------------------------------------------------------------------------

  /** The plan repeats nothing and stays among the declarations `all`. */
  ghost predicate PlanOk(all: set<Decl>, plan: seq<Decl>) {
    (forall i, j | 0 <= i < j < |plan| :: plan[i] != plan[j]) && forall d | d in plan :: d in all
  }

  /** `all` has every declaration behind a symbol, every definition, and every one announced or walked over. */
  ghost predicate Covers(u: Unit, all: set<Decl>) {
    && u.declOf.Values + u.defines <= all
    && (forall d, a | d in u.announced && a in u.announced[d] :: a in all)
    && (forall d, v | d in u.storage && v in u.storage[d] :: v in all)
  }

  lemma {:induction false} AddAllPlanOk(all: set<Decl>, plan: seq<Decl>, ds: seq<Decl>)
    requires PlanOk(all, plan) && forall d | d in ds :: d in all
    ensures PlanOk(all, AddAll(plan, ds))
    decreases |ds|
  {
    if ds != [] {
      AddAllPlanOk(all, Add(plan, ds[0]), ds[1..]);
    }
  }

  lemma InstantiatedPlanOk(u: Unit, all: set<Decl>, s: State, d: Decl)
    requires Covers(u, all) && PlanOk(all, s.plan)
    ensures PlanOk(all, Instantiated(u, s, d).plan) && PlanOk(all, Parsed(u, s, d).plan)
  {
    AddAllPlanOk(all, s.plan, u.Announced(d));
  }

  lemma VisitPlanOk(u: Unit, all: set<Decl>, w: Walk, d: Decl)
    requires Covers(u, all) && PlanOk(all, w.s.plan) && forall a | a in w.add :: a in all
    ensures PlanOk(all, Visit(u, w, d).0.s.plan) && forall a | a in Visit(u, w, d).0.add :: a in all
  {
    hide PlanOk, Instantiated, Parsed;
    InstantiatedPlanOk(u, all, w.s, d);
    var s1 := Instantiated(u, w.s, d);
    InstantiatedPlanOk(u, all, s1, d);
    AddAllPlanOk(all, Parsed(u, s1, d).plan, u.Storage(d));
  }

  lemma {:induction false} DrainPlanOk(u: Unit, all: set<Decl>, w: Walk, work: seq<Decl>)
    requires Covers(u, all) && PlanOk(all, w.s.plan) && forall a | a in w.add :: a in all
    ensures PlanOk(all, Drain(u, w, work).s.plan) && forall a | a in Drain(u, w, work).add :: a in all
    decreases u.defines - w.s.walked, |work|
  {
    hide PlanOk, Visit;
    if work != [] {
      var d := work[|work| - 1];
      var (next, pushed) := Visit(u, w, d);
      VisitPlanOk(u, all, w, d);
      VisitTerminates(u, w, d);
      DrainPlanOk(u, all, next, work[..|work| - 1] + pushed);
    }
  }

  lemma WalkPlanOk(u: Unit, all: set<Decl>, s: State, roots: seq<Decl>)
    requires Covers(u, all) && PlanOk(all, s.plan)
    ensures PlanOk(all, WalkFrom(u, s, roots).plan)
  {
    DrainPlanOk(u, all, Walk(s, {}, []), roots);
    var w := Drain(u, Walk(s, {}, []), roots);
    AddAllPlanOk(all, w.s.plan, w.add);
  }

  // ---------------------------------------------------------------------------------------------
  // What is recorded is instantiated
  // ---------------------------------------------------------------------------------------------

  /** Nothing recorded still waits for an instantiation, and no variable ever does. */
  ghost predicate PlanReady(u: Unit, s: State) {
    (forall d | d in s.plan :: d !in s.uninstantiated) && s.uninstantiated !! u.variables
  }

  lemma MakesPlanReady(u: Unit, s: State, d: Decl)
    requires PlanReady(u, s)
    ensures PlanReady(u, Instantiated(u, s, d)) && PlanReady(u, Parsed(u, s, d))
  {
    AddAllExtends(s.plan, u.Announced(d));
  }

  lemma VisitKeepsPlanReady(u: Unit, w: Walk, d: Decl)
    requires u.Valid() && PlanReady(u, w.s) && forall a | a in w.add :: a !in w.s.uninstantiated
    ensures var next := Visit(u, w, d).0;
      PlanReady(u, next.s) && forall a | a in next.add :: a !in next.s.uninstantiated
  {
    hide Instantiated, Parsed;
    VisitReadies(u, w, d);
    MakesPlanReady(u, w.s, d);
    var s1 := Instantiated(u, w.s, d);
    MakesPlanReady(u, s1, d);
    BothReadied(u, w.s, d);
    BothReadied(u, s1, d);
    AddAllExtends(Parsed(u, s1, d).plan, u.Storage(d));
  }

  lemma {:induction false} DrainKeepsPlanReady(u: Unit, w: Walk, work: seq<Decl>)
    requires u.Valid() && PlanReady(u, w.s) && forall a | a in w.add :: a !in w.s.uninstantiated
    ensures var r := Drain(u, w, work); PlanReady(u, r.s) && forall a | a in r.add :: a !in r.s.uninstantiated
    decreases u.defines - w.s.walked, |work|
  {
    hide PlanReady, Visit;
    if work != [] {
      var d := work[|work| - 1];
      var (next, pushed) := Visit(u, w, d);
      VisitKeepsPlanReady(u, w, d);
      VisitTerminates(u, w, d);
      DrainKeepsPlanReady(u, next, work[..|work| - 1] + pushed);
    }
  }

  /** A walk records only variables, what Sema announces, and definitions it has made ready. */
  lemma WalkKeepsPlanReady(u: Unit, s: State, roots: seq<Decl>)
    requires u.Valid() && PlanReady(u, s)
    ensures PlanReady(u, WalkFrom(u, s, roots))
  {
    DrainKeepsPlanReady(u, Walk(s, {}, []), roots);
    var w := Drain(u, Walk(s, {}, []), roots);
    AddAllExtends(w.s.plan, w.add);
  }

  /** A walk from a bad body that records nothing new readies that body alone. */
  lemma BadWalk(u: Unit, s: State, e: Decl)
    requires PlanReady(u, s) && e in u.defines && e !in u.compiles && WalkFrom(u, s, [e]).plan == s.plan
    ensures var t := WalkFrom(u, s, [e]);
      t.pending >= s.pending - {e} && t.uninstantiated >= s.uninstantiated - {e}
  {
    var w := Walk(s, {}, []);
    var (next, pushed) := Visit(u, w, e);
    assert pushed == [] && [e][..0] + pushed == [];
    assert Drain(u, w, [e]) == Drain(u, next, []) == next;
    assert next.add == [] && WalkFrom(u, s, [e]).plan == next.s.plan;
    AddAllExtends(s.plan, u.Announced(e));
    AddAllExtends(AddAll(s.plan, u.Announced(e)), u.Announced(e));
    BothReadied(u, s, e);
  }
}
