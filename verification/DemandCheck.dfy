/**
 The demand check of a live C++ import group: a worklist walk over everything a demanded function
 can call, parsing skipped inline bodies on the way (`LazyBodies::MaterializeReachable`), and the
 verdicts `CheckDemand` remembers between calls.
 */
module DemandCheck {
  import opened Wrappers
  import opened Reachability

  datatype Decl = Decl(id: nat)

  /**
   What clang answers about the group's functions. A declaration's definition may be another
   declaration of the same function.
    - callees: what a definition's body and initializers call, in push order
    - implicitCallees: the destructors a constructor or destructor runs without spelling them
    - noCompile: definitions whose skipped body has errors
    - raises: declarations whose first reference raises an instantiation error
    - recovery: definitions whose body already holds error nodes
    - reported, invalidated: the functions clang's notes blame, and those it marks invalid, when
      a reference or a body fails
    - replayed: declarations with a verdict restored from an earlier compile
   */
  datatype TranslationUnit = TranslationUnit(
    definition: map<Decl, Decl>,
    callees: map<Decl, seq<Decl>>,
    implicitCallees: map<Decl, seq<Decl>>,
    noCompile: set<Decl>,
    raises: set<Decl>,
    recovery: set<Decl>,
    reported: map<Decl, set<Decl>>,
    invalidated: map<Decl, set<Decl>>,
    constructors: set<Decl>,
    replayed: set<Decl>)

  function ListAt(m: map<Decl, seq<Decl>>, d: Decl): seq<Decl> {
    if d in m then m[d] else []
  }

  function SetAt(m: map<Decl, set<Decl>>, d: Decl): (r: set<Decl>)
    ensures r == Listed(m, d)
  {
    if d in m then m[d] else {}
  }

  ghost function Listed(m: map<Decl, set<Decl>>, d: Decl): set<Decl> {
    if d in m then set c | c in m[d] else {}
  }

  /**
   The group's state between checks: definitions already walked, bodies still skipped, invalid
   and poisoned declarations, definitions left without a body (a failed late parse, or a failed
   constructor made valid again), and references that already raised their error.
   */
  datatype State = State(
    walked: set<Decl>,
    bodies: set<Decl>,
    invalid: set<Decl>,
    poisoned: set<Decl>,
    emptied: set<Decl>,
    fired: set<Decl>)

  /** A walk in progress. */
  datatype Pass = Pass(s: State, walkedNow: set<Decl>, failure: Option<Decl>, reported: set<Decl>)

  function Blame(p: Pass, d: Decl): Pass {
    if p.failure.None? then p.(failure := Some(d)) else p
  }

  /** Parses a skipped body; one that does not compile leaves its definition invalid and bodiless. */
  function ParseOne(tu: TranslationUnit, p: Pass, target: Decl): Pass {
    if target !in p.s.bodies then p
    else if target in tu.noCompile then
      Blame(p.(s := p.s.(bodies := p.s.bodies - {target}, invalid := p.s.invalid + {target},
                         emptied := p.s.emptied + {target}),
               reported := p.reported + SetAt(tu.reported, target)), target)
    else p.(s := p.s.(bodies := p.s.bodies - {target}))
  }

  /** Every function a definition calls: those it runs implicitly and, unless its body is gone, those it spells. */
  ghost function CalledBy(tu: TranslationUnit, emptied: set<Decl>, t: Decl): set<Decl> {
    (if t in tu.implicitCallees then set c | c in tu.implicitCallees[t] else {})
    + if t in tu.callees && t !in emptied then set c | c in tu.callees[t] else {}
  }

  /** What walking definition t pushes. */
  function Pushes(tu: TranslationUnit, emptied: set<Decl>, t: Decl): (r: seq<Decl>)
    ensures forall c :: c in r <==> c in CalledBy(tu, emptied, t)
  {
    if t in emptied then ListAt(tu.implicitCallees, t)
    else ListAt(tu.callees, t) + ListAt(tu.implicitCallees, t)
  }

  /** One iteration of the worklist: the pass after visiting next, and what it pushes. */
  function Visit(tu: TranslationUnit, p: Pass, next: Decl): (Pass, seq<Decl>) {
    if next in tu.replayed || next in p.s.poisoned then (Blame(p, next), [])
    else if next in tu.raises && next !in p.s.fired then
      (Blame(p.(s := p.s.(fired := p.s.fired + {next}, invalid := p.s.invalid + SetAt(tu.invalidated, next)),
                reported := p.reported + SetAt(tu.reported, next)), next), [])
    else if next in p.s.invalid then (Blame(p, next), [])
    else if next !in tu.definition then (p, [])
    else
      var target := tu.definition[next];
      var q := ParseOne(tu, p, target);
      if target in q.s.walked then (q, [])
      else
        var r := q.(s := q.s.(walked := q.s.walked + {target}), walkedNow := q.walkedNow + {target});
        if target !in r.s.emptied && target in tu.recovery then (Blame(r, target), [])
        else (r, Pushes(tu, r.s.emptied, target))
  }

  function Drain(tu: TranslationUnit, p: Pass, work: seq<Decl>): Pass
    decreases tu.definition.Values - p.s.walked, |work|
  {
    if work == [] then p
    else
      var (q, pushed) := Visit(tu, p, work[|work| - 1]);
      Drain(tu, q, work[..|work| - 1] + pushed)
  }

  /** The whole walk: a failure forgets the definitions it reached. */
  function Materialize(tu: TranslationUnit, s: State, work: seq<Decl>): Pass {
    var p := Drain(tu, Pass(s, {}, None, {}), work);
    if p.failure.Some? then p.(s := p.s.(walked := p.s.walked - p.walkedNow)) else p
  }

  /** Failed constructors among fs become valid again, with an empty body. */
  function Revalidate(tu: TranslationUnit, s: State, fs: set<Decl>): State {
    var again := set f | f in fs && f in tu.constructors && f in s.invalid;
    s.(invalid := s.invalid - again, emptied := s.emptied + again)
  }

  datatype Entity = Function(fd: Decl) | Variable(initializerFailed: bool)

  datatype Group = Group(tu: TranslationUnit, bound: map<string, Entity>, renamed: map<string, string>)
  {
    function Lookup(symbol: string): Option<Entity> {
      var name := if symbol in renamed then renamed[symbol] else symbol;
      if name in bound then Some(bound[name]) else None
    }
  }

  /** The check of one function: whether it is refused, and the state it leaves. */
  function CheckFunction(tu: TranslationUnit, s: State, fd: Decl): (bool, State) {
    if fd in s.poisoned then (true, Revalidate(tu, s, {fd}))
    else
      var p := Materialize(tu, s, [fd]);
      if p.failure.None? then (false, p.s)
      else (true, Revalidate(tu, p.s.(poisoned := p.s.poisoned + p.reported + {fd}), p.reported + {fd}))
  }

  /** 0: not this group's symbol, 1: valid demand, -1: refused. */
  function Check(g: Group, s: State, symbol: string): (int, State) {
    match g.Lookup(symbol)
    case None => (0, s)
    case Some(Variable(failed)) => (if failed then -1 else 1, s)
    case Some(Function(fd)) =>
      var (refused, s') := CheckFunction(g.tu, s, fd);
      (if refused then -1 else 1, s')
  }

  // ---------------------------------------------------------------------------------------------
  // What a check should find
  // ---------------------------------------------------------------------------------------------

  /** Which declarations each declaration's definition leads to. */
  ghost function Calls(tu: TranslationUnit, s: State): Graph<Decl> {
    map d | d in tu.definition :: CalledBy(tu, s.emptied, tu.definition[d])
  }

  /** A fault the walk can see on reaching d. */
  ghost predicate Faulty(tu: TranslationUnit, s: State, d: Decl) {
    || d in tu.replayed || d in s.poisoned || d in s.invalid
    || (d in tu.raises && d !in s.fired)
    || (d in tu.definition &&
        var t := tu.definition[d];
        (t in s.bodies && t in tu.noCompile) || (t in tu.recovery && t !in s.emptied))
  }

  /** d calls its way to a fault. */
  ghost predicate Hot(tu: TranslationUnit, s: State, d: Decl) {
    exists v :: Faulty(tu, s, v) && Reaches(Calls(tu, s), d, v)
  }

  /** clang blames and invalidates only functions that lead to a fault. */
  ghost predicate BlameHot(tu: TranslationUnit, s0: State) {
    forall d, c | c in Listed(tu.reported, d) || c in Listed(tu.invalidated, d) :: Hot(tu, s0, c)
  }

  /** The fresh state of a group, and what its clang answers keep to. */
  ghost predicate Initial(tu: TranslationUnit, s0: State) {
    && s0.walked == {} && s0.emptied == {} && s0.fired == {}
    && tu.noCompile <= s0.bodies
    && (forall t | t in tu.definition.Values :: t in tu.definition && tu.definition[t] == t)
    && BlameHot(tu, s0)
    // a raised error leaves a function the reference leads to blamed or invalid
    && (forall d | d in tu.raises ::
          exists c :: c in Listed(tu.reported, d) + Listed(tu.invalidated, d) && Reaches(Calls(tu, s0), d, c))
  }

  /** d is known bad before anything is looked up through it. */
  predicate Marked(s: State, d: Decl) {
    d in s.poisoned || d in s.invalid
  }

  /** A redeclaration of a body that already failed: nothing on it tells of the failure. */
  predicate Spent(tu: TranslationUnit, s: State, d: Decl) {
    d in tu.definition && tu.definition[d] in s.emptied && !Marked(s, d)
  }

  // ---------------------------------------------------------------------------------------------
  // One walk
  // ---------------------------------------------------------------------------------------------

  /** Parsing bodies that compile and walking them changes nothing a walk can see. */
  ghost predicate SameView(tu: TranslationUnit, s: State, t: State) {
    && t.invalid == s.invalid && t.poisoned == s.poisoned && t.emptied == s.emptied && t.fired == s.fired
    && t.bodies <= s.bodies && s.bodies * tu.noCompile <= t.bodies
  }

  lemma SameViewSameHot(tu: TranslationUnit, s: State, t: State)
    requires SameView(tu, s, t)
    ensures Calls(tu, s) == Calls(tu, t)
    ensures forall d :: Faulty(tu, s, d) == Faulty(tu, t, d)
    ensures forall d :: Hot(tu, s, d) == Hot(tu, t, d)
  {
    assert Calls(tu, s) == Calls(tu, t);
    assert forall d :: Faulty(tu, s, d) == Faulty(tu, t, d);
  }

  /** The walk has been through d and found nothing. */
  ghost predicate Passed(tu: TranslationUnit, s: State, d: Decl) {
    !Faulty(tu, s, d) && (d in tu.definition ==> tu.definition[d] in s.walked)
  }

  /** Walked definitions hold no error nodes; everything they call was passed or is still in the worklist. */
  ghost predicate WalkedClosed(tu: TranslationUnit, s: State, work: seq<Decl>) {
    (forall t | t in s.walked && t in tu.recovery :: t in s.emptied) &&
    forall t, d | t in s.walked && d in Pushes(tu, s.emptied, t) :: Passed(tu, s, d) || d in work
  }

  lemma VisitPasses(tu: TranslationUnit, p: Pass, next: Decl)
    requires p.failure.None? && Visit(tu, p, next).0.failure.None?
    ensures var (q, pushed) := Visit(tu, p, next);
      && SameView(tu, p.s, q.s) && p.s.walked <= q.s.walked
      && ((forall t | t in p.s.walked && t in tu.recovery :: t in p.s.emptied) ==> Passed(tu, q.s, next))
      && (forall t | t in q.s.walked && t !in p.s.walked :: pushed == Pushes(tu, q.s.emptied, t))
      && (pushed != [] ==> next in tu.definition && pushed == Pushes(tu, p.s.emptied, tu.definition[next]))
      && (forall d | Passed(tu, p.s, d) :: Passed(tu, q.s, d))
  {
    SameViewSameHot(tu, p.s, Visit(tu, p, next).0.s);
  }

  lemma VisitFails(tu: TranslationUnit, p: Pass, next: Decl)
    requires p.failure.None? && Visit(tu, p, next).0.failure.Some?
    ensures Faulty(tu, p.s, next)
  {}

  /** A walk that ends without a failure passed everything, and left the walked set closed. */
  lemma {:induction false} DrainAccepts(tu: TranslationUnit, p: Pass, work: seq<Decl>)
    requires p.failure.None? && Drain(tu, p, work).failure.None? && WalkedClosed(tu, p.s, work)
    ensures var r := Drain(tu, p, work);
      && SameView(tu, p.s, r.s) && WalkedClosed(tu, r.s, [])
      && (forall d | d in work || Passed(tu, p.s, d) :: Passed(tu, r.s, d))
    decreases tu.definition.Values - p.s.walked, |work|
  {
    if work != [] {
      var next := work[|work| - 1];
      var (q, pushed) := Visit(tu, p, next);
      var rest := work[..|work| - 1] + pushed;
      assert forall d | d in work :: d in rest || d == next;
      if q.failure.Some? {
        FailureStays(tu, q, rest);
        assert false;
      } else {
        VisitPasses(tu, p, next);
        assert WalkedClosed(tu, q.s, rest);
        DrainAccepts(tu, q, rest);
      }
    }
  }

  lemma {:induction false} FailureStays(tu: TranslationUnit, p: Pass, work: seq<Decl>)
    requires p.failure.Some?
    ensures Drain(tu, p, work).failure.Some?
    decreases tu.definition.Values - p.s.walked, |work|
  {
    if work != [] {
      var (q, pushed) := Visit(tu, p, work[|work| - 1]);
      FailureStays(tu, q, work[..|work| - 1] + pushed);
    }
  }

  lemma {:induction false} AcceptReportsNothing(tu: TranslationUnit, p: Pass, work: seq<Decl>)
    requires p.reported != {} ==> p.failure.Some?
    ensures Drain(tu, p, work).reported != {} ==> Drain(tu, p, work).failure.Some?
    decreases tu.definition.Values - p.s.walked, |work|
  {
    if work != [] {
      var (q, pushed) := Visit(tu, p, work[|work| - 1]);
      AcceptReportsNothing(tu, q, work[..|work| - 1] + pushed);
    }
  }

  /** A walk fails only on something in its worklist that leads to a visible fault. */
  lemma {:induction false} DrainRefuses(tu: TranslationUnit, p: Pass, work: seq<Decl>) returns (d: Decl)
    requires p.failure.None? && Drain(tu, p, work).failure.Some?
    ensures d in work && Hot(tu, p.s, d)
    decreases tu.definition.Values - p.s.walked, |work|
  {
    var next := work[|work| - 1];
    var (q, pushed) := Visit(tu, p, next);
    if q.failure.Some? {
      VisitFails(tu, p, next);
      ReachesSelf(Calls(tu, p.s), next);
      d := next;
    } else {
      VisitPasses(tu, p, next);
      SameViewSameHot(tu, p.s, q.s);
      d := DrainRefuses(tu, q, work[..|work| - 1] + pushed);
      if d in pushed {
        var v :| Faulty(tu, p.s, v) && Reaches(Calls(tu, p.s), d, v);
        StepReaches(Calls(tu, p.s), next, d, v);
        d := next;
      }
    }
  }

  /** Nothing that was passed under a closed walked set leads to a fault. */
  lemma PassedIsNotHot(tu: TranslationUnit, s: State, d: Decl)
    requires WalkedClosed(tu, s, []) && Passed(tu, s, d)
    ensures !Hot(tu, s, d)
  {
    forall v | Reaches(Calls(tu, s), d, v)
      ensures !Faulty(tu, s, v)
    {
      var w :| WalkBetween(Calls(tu, s), d, v, w);
      for i := 0 to |w| - 1
        invariant Passed(tu, s, w[i])
      {
        assert w[i + 1] in Successors(Calls(tu, s), w[i]);
        assert w[i + 1] in Pushes(tu, s.emptied, tu.definition[w[i]]);
      }
    }
  }

  lemma {:induction false} DrainOnlyAdds(tu: TranslationUnit, s: State, p: Pass, work: seq<Decl>)
    requires p.s.walked == s.walked + p.walkedNow && s.walked !! p.walkedNow
    ensures var r := Drain(tu, p, work);
      r.s.walked == s.walked + r.walkedNow && s.walked !! r.walkedNow && p.s.emptied <= r.s.emptied
    decreases tu.definition.Values - p.s.walked, |work|
  {
    if work != [] {
      var (q, pushed) := Visit(tu, p, work[|work| - 1]);
      DrainOnlyAdds(tu, s, q, work[..|work| - 1] + pushed);
    }
  }

  /** A failed walk leaves the walked set as it found it. */
  lemma FailedWalkRestores(tu: TranslationUnit, s: State, work: seq<Decl>)
    requires Materialize(tu, s, work).failure.Some?
    ensures Materialize(tu, s, work).s.walked == s.walked
    ensures s.emptied <= Materialize(tu, s, work).s.emptied
  {
    DrainOnlyAdds(tu, s, Pass(s, {}, None, {}), work);
  }

  /**
   The verdict is exactly what is visible in the state: a function is refused iff it calls its
   way to a fault the walk can see, and an accepted one changes nothing anyone can see.
   */
  lemma CheckIsExact(tu: TranslationUnit, s: State, fd: Decl)
    requires WalkedClosed(tu, s, [])
    ensures var (refused, s') := CheckFunction(tu, s, fd);
      && (refused <==> Hot(tu, s, fd))
      && (refused ==> s'.walked == s.walked && s.emptied <= s'.emptied)
      && (!refused ==> SameView(tu, s, s') && WalkedClosed(tu, s', []) && Passed(tu, s', fd))
  {
    var p := Pass(s, {}, None, {});
    if fd in s.poisoned {
      ReachesSelf(Calls(tu, s), fd);
    } else if Drain(tu, p, [fd]).failure.Some? {
      var d := DrainRefuses(tu, p, [fd]);
      FailedWalkRestores(tu, s, [fd]);
    } else {
      DrainAccepts(tu, p, [fd]);
      var s' := Drain(tu, p, [fd]).s;
      assert fd in [fd];
      PassedIsNotHot(tu, s', fd);
      SameViewSameHot(tu, s, s');
    }
  }

  // ---------------------------------------------------------------------------------------------
  // Runs of checks
  // ---------------------------------------------------------------------------------------------

  lemma GraphGrows(g: Graph<Decl>, h: Graph<Decl>, a: Decl, b: Decl)
    requires Reaches(g, a, b) && forall n :: Successors(g, n) <= Successors(h, n)
    ensures Reaches(h, a, b)
  {
    var w :| WalkBetween(g, a, b, w);
    assert WalkBetween(h, a, b, w);
  }

  lemma ReachesThrough(g: Graph<Decl>, a: Decl, b: Decl, c: Decl)
    requires Reaches(g, a, b) && Reaches(g, b, c)
    ensures Reaches(g, a, c)
  {
    var w, v :| WalkBetween(g, a, b, w) && WalkBetween(g, b, c, v);
    var u := w + v[1..];
    assert forall i | |w| - 1 <= i < |u| :: u[i] == v[i - |w| + 1];
    assert WalkBetween(g, a, c, u);
  }

  /** Every mark of the state, and every function in extra, leads to a fault in the fresh state. */
  ghost predicate MarksHot(tu: TranslationUnit, s0: State, s: State, extra: set<Decl>) {
    forall d | Marked(s, d) || d in extra :: Hot(tu, s0, d)
  }

  /** A declaration clang can mark invalid while checking, other than by a failed parse. */
  ghost predicate Invalidated(tu: TranslationUnit, s0: State, d: Decl) {
    d in s0.invalid || exists r :: r in tu.raises && d in Listed(tu.invalidated, r)
  }

  /** A body that is gone failed to compile or was an invalid constructor's; its definition is marked. */
  ghost predicate BodiesAccounted(tu: TranslationUnit, s0: State, s: State, extra: set<Decl>) {
    && s.bodies <= s0.bodies
    && (forall t | t in s.invalid :: t in tu.noCompile || Invalidated(tu, s0, t))
    && (forall t | t in tu.noCompile && t !in s.bodies ::
          t in s.emptied && forall c | c in Listed(tu.reported, t) :: Marked(s, c) || c in extra)
    && forall t | t in s.emptied ::
         (t in tu.noCompile || (t in tu.constructors && Invalidated(tu, s0, t))) && (Marked(s, t) || t in extra)
  }

  /** What a raised error blamed, and what was marked at first, is still marked. */
  ghost predicate ErrorsKept(tu: TranslationUnit, s0: State, s: State, extra: set<Decl>) {
    && s.fired <= tu.raises
    && (forall d, c | d in s.fired && c in Listed(tu.reported, d) + Listed(tu.invalidated, d) ::
          Marked(s, c) || c in extra)
    && forall d | Marked(s0, d) :: Marked(s, d) || d in extra
  }

  /** How a state between checks, or in a walk that clang has told of extra, relates to the fresh state. */
  ghost predicate Faithful(tu: TranslationUnit, s0: State, s: State, extra: set<Decl>) {
    MarksHot(tu, s0, s, extra) && BodiesAccounted(tu, s0, s, extra) && ErrorsKept(tu, s0, s, extra)
  }

  lemma ParseStaysFaithful(tu: TranslationUnit, s0: State, p: Pass, target: Decl)
    requires BlameHot(tu, s0) && Faithful(tu, s0, p.s, p.reported)
    requires target in tu.definition && tu.definition[target] == target
    ensures var q := ParseOne(tu, p, target); Faithful(tu, s0, q.s, q.reported)
  {
    var q := ParseOne(tu, p, target);
    if target in p.s.bodies && target in tu.noCompile {
      assert Hot(tu, s0, target) by {
        assert Faulty(tu, s0, target);
        ReachesSelf(Calls(tu, s0), target);
      }
      assert q.s.invalid == p.s.invalid + {target} && q.s.poisoned == p.s.poisoned;
    }
  }

  lemma RaiseStaysFaithful(tu: TranslationUnit, s0: State, p: Pass, next: Decl)
    requires BlameHot(tu, s0) && Faithful(tu, s0, p.s, p.reported) && next in tu.raises
    ensures Faithful(tu, s0, p.s.(fired := p.s.fired + {next}, invalid := p.s.invalid + SetAt(tu.invalidated, next)),
                     p.reported + SetAt(tu.reported, next))
  {}

  lemma VisitStaysFaithful(tu: TranslationUnit, s0: State, p: Pass, next: Decl)
    requires Initial(tu, s0) && Faithful(tu, s0, p.s, p.reported)
    ensures var q := Visit(tu, p, next).0; Faithful(tu, s0, q.s, q.reported)
  {
    hide Hot, Calls, BlameHot;
    if next in tu.raises {
      RaiseStaysFaithful(tu, s0, p, next);
    }
    if next in tu.definition {
      ParseStaysFaithful(tu, s0, p, tu.definition[next]);
    }
  }

  lemma {:induction false} DrainStaysFaithful(tu: TranslationUnit, s0: State, p: Pass, work: seq<Decl>)
    requires Initial(tu, s0) && Faithful(tu, s0, p.s, p.reported)
    ensures var r := Drain(tu, p, work); Faithful(tu, s0, r.s, r.reported)
    decreases tu.definition.Values - p.s.walked, |work|
  {
    if work != [] {
      var next := work[|work| - 1];
      var (q, pushed) := Visit(tu, p, next);
      VisitStaysFaithful(tu, s0, p, next);
      DrainStaysFaithful(tu, s0, q, work[..|work| - 1] + pushed);
    }
  }

  /** What a later state shows as leading to a fault led to one in the fresh state. */
  lemma HotIsSound(tu: TranslationUnit, s0: State, s: State, d: Decl)
    requires Initial(tu, s0) && Faithful(tu, s0, s, {}) && Hot(tu, s, d)
    ensures Hot(tu, s0, d)
  {
    var v :| Faulty(tu, s, v) && Reaches(Calls(tu, s), d, v);
    GraphGrows(Calls(tu, s), Calls(tu, s0), d, v);
    if Marked(s, v) {
      var u :| Faulty(tu, s0, u) && Reaches(Calls(tu, s0), v, u);
      ReachesThrough(Calls(tu, s0), d, v, u);
    } else {
      assert Faulty(tu, s0, v);
    }
  }

  lemma CheckStaysFaithful(tu: TranslationUnit, s0: State, s: State, fd: Decl)
    requires Initial(tu, s0) && Faithful(tu, s0, s, {})
    ensures Faithful(tu, s0, CheckFunction(tu, s, fd).1, {})
    ensures CheckFunction(tu, s, fd).0 ==> Hot(tu, s0, fd)
  {
    var p := Drain(tu, Pass(s, {}, None, {}), [fd]);
    DrainStaysFaithful(tu, s0, Pass(s, {}, None, {}), [fd]);
    AcceptReportsNothing(tu, Pass(s, {}, None, {}), [fd]);
    if fd in s.poisoned {
      RevalidateStaysFaithful(tu, s0, s, {fd});
    } else if p.failure.Some? {
      var d := DrainRefuses(tu, Pass(s, {}, None, {}), [fd]);
      HotIsSound(tu, s0, s, fd);
      var poisoned := p.s.(walked := p.s.walked - p.walkedNow, poisoned := p.s.poisoned + p.reported + {fd});
      PoisonStaysFaithful(tu, s0, p.s, p.reported, poisoned, fd);
      RevalidateStaysFaithful(tu, s0, poisoned, p.reported + {fd});
    }
  }

  lemma PoisonStaysFaithful(tu: TranslationUnit, s0: State, s: State, extra: set<Decl>, t: State, fd: Decl)
    requires Faithful(tu, s0, s, extra) && Hot(tu, s0, fd)
    requires t == s.(walked := t.walked, poisoned := s.poisoned + extra + {fd})
    ensures Faithful(tu, s0, t, {})
  {}

  lemma RevalidateStaysFaithful(tu: TranslationUnit, s0: State, s: State, fs: set<Decl>)
    requires Faithful(tu, s0, s, {}) && fs <= s.poisoned
    ensures Faithful(tu, s0, Revalidate(tu, s, fs), {})
  {
    var t := Revalidate(tu, s, fs);
    assert forall d :: Marked(t, d) == Marked(s, d);
  }

  /** A redeclaration whose failed body nothing tells of, though it led to a fault in the fresh group. */
  ghost predicate Hidden(tu: TranslationUnit, s0: State, s: State, d: Decl) {
    Spent(tu, s, d) && Hot(tu, s0, d)
  }

  lemma FaultOnWalkIsHot(tu: TranslationUnit, s0: State, s: State, d: Decl, u: Decl)
    requires Initial(tu, s0) && Faithful(tu, s0, s, {}) && Faulty(tu, s, u) && Reaches(Calls(tu, s0), d, u)
    ensures Hot(tu, s0, d)
  {
    if Marked(s, u) {
      var v :| Faulty(tu, s0, v) && Reaches(Calls(tu, s0), u, v);
      ReachesThrough(Calls(tu, s0), d, u, v);
    } else {
      assert Faulty(tu, s0, u);
    }
  }

  /**
   Along any walk of the fresh graph to a marked or still visible fault there is a visible one, or a
   spent redeclaration.
   */
  lemma {:induction false} WalkMeetsFault(tu: TranslationUnit, s0: State, s: State, w: seq<Decl>)
    requires Initial(tu, s0) && Faithful(tu, s0, s, {})
    requires IsWalk(Calls(tu, s0), w) && Faulty(tu, s, w[|w| - 1])
    ensures Hot(tu, s, w[0]) || exists d :: Hidden(tu, s0, s, d) && !Hot(tu, s, d) && Reaches(Calls(tu, s0), w[0], d)
    decreases |w|
  {
    ReachesSelf(Calls(tu, s), w[0]);
    ReachesSelf(Calls(tu, s0), w[0]);
    if Spent(tu, s, w[0]) {
      assert WalkBetween(Calls(tu, s0), w[0], w[|w| - 1], w);
      FaultOnWalkIsHot(tu, s0, s, w[0], w[|w| - 1]);
    } else if !Faulty(tu, s, w[0]) {
      var rest := w[1..];
      assert forall i | 0 <= i < |rest| :: rest[i] == w[i + 1];
      WalkMeetsFault(tu, s0, s, rest);
      assert w[1] in Successors(Calls(tu, s0), w[0]);
      assert w[1] in Successors(Calls(tu, s), w[0]);
      if Hot(tu, s, w[1]) {
        var v :| Faulty(tu, s, v) && Reaches(Calls(tu, s), w[1], v);
        StepReaches(Calls(tu, s), w[0], w[1], v);
      } else {
        var d :| Hidden(tu, s0, s, d) && !Hot(tu, s, d) && Reaches(Calls(tu, s0), w[1], d);
        StepReaches(Calls(tu, s0), w[0], w[1], d);
      }
    }
  }

  /** A fault of the fresh state still leads to a visible one, or its own redeclaration hides it. */
  lemma FaultRemains(tu: TranslationUnit, s0: State, s: State, v: Decl)
    requires Initial(tu, s0) && Faithful(tu, s0, s, {}) && Faulty(tu, s0, v)
    ensures (Hidden(tu, s0, s, v) && !Hot(tu, s, v)) || exists u :: Faulty(tu, s, u) && Reaches(Calls(tu, s0), v, u)
  {
    ReachesSelf(Calls(tu, s0), v);
    if Faulty(tu, s, v) {
    } else if Spent(tu, s, v) {
      if Hot(tu, s, v) {
        var u :| Faulty(tu, s, u) && Reaches(Calls(tu, s), v, u);
        GraphGrows(Calls(tu, s), Calls(tu, s0), v, u);
      }
    } else {
      assert v in s.fired by { assert !Marked(s0, v); }
      var u :| u in Listed(tu.reported, v) + Listed(tu.invalidated, v) && Reaches(Calls(tu, s0), v, u);
      assert Marked(s, u);
    }
  }

  /** A fault of the fresh state is hidden from a later one only behind a spent redeclaration that hides it. */
  lemma HotIsKept(tu: TranslationUnit, s0: State, s: State, fd: Decl)
    requires Initial(tu, s0) && Faithful(tu, s0, s, {}) && Hot(tu, s0, fd)
    ensures Hot(tu, s, fd) || exists d :: Hidden(tu, s0, s, d) && !Hot(tu, s, d) && Reaches(Calls(tu, s0), fd, d)
  {
    hide Faulty, Initial, Faithful, Calls, Hidden, Hot;
    var v := HotWitness(tu, s0, fd);
    FaultRemains(tu, s0, s, v);
    if u :| Faulty(tu, s, u) && Reaches(Calls(tu, s0), v, u) {
      ReachesThrough(Calls(tu, s0), fd, v, u);
      var w :| WalkBetween(Calls(tu, s0), fd, u, w);
      WalkMeetsFault(tu, s0, s, w);
    }
  }

  lemma HotWitness(tu: TranslationUnit, s: State, d: Decl) returns (v: Decl)
    requires Hot(tu, s, d)
    ensures Faulty(tu, s, v) && Reaches(Calls(tu, s), d, v)
  {
    v :| Faulty(tu, s, v) && Reaches(Calls(tu, s), d, v);
  }

  // ---------------------------------------------------------------------------------------------
  // Which functions can lose their verdict
  // ---------------------------------------------------------------------------------------------

  /** The fresh group once every body that does not compile has been tried and every error raised. */
  ghost function SpentView(tu: TranslationUnit, s0: State): State {
    s0.(bodies := s0.bodies - tu.noCompile, emptied := tu.noCompile, fired := tu.raises,
        invalid := s0.invalid + tu.noCompile * tu.definition.Values)
  }

  /** What a walk from d can then still look at. */
  ghost function Region(tu: TranslationUnit, s0: State, d: Decl): set<Decl> {
    Saturate(Calls(tu, SpentView(tu, s0)), {d})
  }

  /** The error d raises, or the body behind it that does not compile. */
  predicate Spends(tu: TranslationUnit, d: Decl) {
    d in tu.raises || (d in tu.definition && tu.definition[d] in tu.noCompile)
  }

  /** Everything clang blames or invalidates when d raises its error or its definition fails to parse. */
  ghost function Blames(tu: TranslationUnit, d: Decl): set<Decl> {
    (if d in tu.raises then Listed(tu.reported, d) + Listed(tu.invalidated, d) else {})
    + if d in tu.definition && tu.definition[d] in tu.noCompile then Listed(tu.reported, tu.definition[d]) else {}
  }

  /**
   A function that leads to faults which can all be used up without leaving a mark on the way: what a
   walk can then still look at is free of faults, and none of it is blamed for them.
   */
  ghost predicate Exposed(tu: TranslationUnit, s0: State, d: Decl) {
    var region := Region(tu, s0, d);
    && (forall e | e in region :: !Faulty(tu, SpentView(tu, s0), e) && Blames(tu, e) !! region)
    && exists e :: e in region && Spends(tu, e)
  }

  /** A constructor that compiles but can become invalid has no redeclaration. */
  ghost predicate ConstructorsKept(tu: TranslationUnit, s0: State) {
    forall d | d in tu.definition ::
      var t := tu.definition[d];
      t in tu.constructors && t !in tu.noCompile && Invalidated(tu, s0, t) ==> d == t
  }

  /** A declaration without a visible fault looks the same in the spent group, and all it blames is marked. */
  lemma CoolLooksSpent(tu: TranslationUnit, s0: State, s: State, e: Decl)
    requires Initial(tu, s0) && Faithful(tu, s0, s, {}) && ConstructorsKept(tu, s0) && !Faulty(tu, s, e)
    ensures Successors(Calls(tu, SpentView(tu, s0)), e) <= Successors(Calls(tu, s), e)
    ensures !Faulty(tu, SpentView(tu, s0), e) && forall c | c in Blames(tu, e) :: Marked(s, c)
  {
    assert !Marked(s, e) && !Marked(s0, e);
    assert e !in tu.noCompile * tu.definition.Values;
    if e in tu.definition && tu.definition[e] !in tu.noCompile {
      assert tu.definition[e] !in s.emptied;
    }
  }

  lemma CoolStep(tu: TranslationUnit, s: State, d: Decl, e: Decl)
    requires !Hot(tu, s, d) && e in Successors(Calls(tu, s), d)
    ensures !Hot(tu, s, e)
  {
    if Hot(tu, s, e) {
      var v :| Faulty(tu, s, v) && Reaches(Calls(tu, s), e, v);
      StepReaches(Calls(tu, s), d, e, v);
    }
  }

  lemma RegionIsCool(tu: TranslationUnit, s0: State, s: State, d: Decl, e: Decl)
    requires Initial(tu, s0) && Faithful(tu, s0, s, {}) && ConstructorsKept(tu, s0)
    requires !Hot(tu, s, d) && e in Region(tu, s0, d)
    ensures !Hot(tu, s, e) && !Faulty(tu, s, e)
  {
    hide Initial, Faithful, ConstructorsKept, Calls, Faulty;
    var g := Calls(tu, SpentView(tu, s0));
    SaturateOnlyReaches(g, {d}, e);
    var w :| WalkBetween(g, d, e, w);
    NotHotNotFaulty(tu, s, d);
    for i := 0 to |w| - 1
      invariant !Hot(tu, s, w[i]) && !Faulty(tu, s, w[i])
    {
      assert w[i + 1] in Successors(g, w[i]);
      CoolLooksSpent(tu, s0, s, w[i]);
      CoolStep(tu, s, w[i], w[i + 1]);
      NotHotNotFaulty(tu, s, w[i + 1]);
    }
  }

  lemma NotHotNotFaulty(tu: TranslationUnit, s: State, d: Decl)
    requires !Hot(tu, s, d)
    ensures !Faulty(tu, s, d)
  {
    ReachesSelf(Calls(tu, s), d);
  }

  lemma RegionIsClosed(tu: TranslationUnit, s0: State, d: Decl)
    ensures d in Region(tu, s0, d) && Closed(Calls(tu, SpentView(tu, s0)), Region(tu, s0, d))
  {
    SaturateCloses(Calls(tu, SpentView(tu, s0)), {d});
  }

  /** A region without faults in the spent group leads to one in the fresh group only by what it spends. */
  lemma FaultIsSpent(tu: TranslationUnit, s0: State, d: Decl)
    requires Initial(tu, s0) && Hot(tu, s0, d)
    requires forall e | e in Region(tu, s0, d) :: !Faulty(tu, SpentView(tu, s0), e)
    ensures exists e :: e in Region(tu, s0, d) && Spends(tu, e)
  {
    var region := Region(tu, s0, d);
    RegionIsClosed(tu, s0, d);
    if forall e | e in region :: !Spends(tu, e) {
      forall e | e in region
        ensures Successors(Calls(tu, s0), e) <= region && !Faulty(tu, s0, e)
      {
        assert !Spends(tu, e) && !Faulty(tu, SpentView(tu, s0), e);
        assert Successors(Calls(tu, s0), e) == Successors(Calls(tu, SpentView(tu, s0)), e);
      }
      var v :| Faulty(tu, s0, v) && Reaches(Calls(tu, s0), d, v);
      ClosedKeepsWalks(Calls(tu, s0), region, d, v);
    }
  }

  /** A function that hides its fault from any state between checks is exposed in the fresh group. */
  lemma HidingIsExposed(tu: TranslationUnit, s0: State, s: State, d: Decl)
    requires Initial(tu, s0) && Faithful(tu, s0, s, {}) && ConstructorsKept(tu, s0)
    requires Hot(tu, s0, d) && !Hot(tu, s, d)
    ensures Exposed(tu, s0, d)
  {
    hide Initial, Faithful, ConstructorsKept, Hot, Faulty, Region, Spends;
    var region := Region(tu, s0, d);
    forall e | e in region
      ensures !Faulty(tu, SpentView(tu, s0), e) && Blames(tu, e) !! region
    {
      RegionIsCool(tu, s0, s, d, e);
      CoolLooksSpent(tu, s0, s, e);
      forall c | c in region
        ensures c !in Blames(tu, e)
      {
        RegionIsCool(tu, s0, s, d, c);
        UnmarkedIsNotFaulty(tu, s, c);
      }
    }
    FaultIsSpent(tu, s0, d);
  }

  lemma UnmarkedIsNotFaulty(tu: TranslationUnit, s: State, d: Decl)
    requires !Faulty(tu, s, d)
    ensures !Marked(s, d)
  {}

  /** Any state between checks shows the fault of a function that is not exposed. */
  lemma HotStays(tu: TranslationUnit, s0: State, s: State, d: Decl)
    requires Initial(tu, s0) && Faithful(tu, s0, s, {}) && ConstructorsKept(tu, s0) && !Exposed(tu, s0, d)
    ensures Hot(tu, s, d) == Hot(tu, s0, d)
  {
    hide Initial, Faithful, ConstructorsKept, Hot, Exposed;
    if Hot(tu, s, d) {
      HotIsSound(tu, s0, s, d);
    } else if Hot(tu, s0, d) {
      HidingIsExposed(tu, s0, s, d);
    }
  }

  // ---------------------------------------------------------------------------------------------
  // Runs without exposed functions
  // ---------------------------------------------------------------------------------------------

  ghost function RunChecks(tu: TranslationUnit, s: State, fds: seq<Decl>): State
    decreases |fds|
  {
    if fds == [] then s else RunChecks(tu, CheckFunction(tu, s, fds[0]).1, fds[1..])
  }

  /** Nothing that a walked definition calls, spelled or not, led to a fault in the fresh group. */
  ghost predicate WalkedCool(tu: TranslationUnit, s0: State, s: State) {
    forall t, c | t in s.walked && c in Pushes(tu, {}, t) :: !Hot(tu, s0, c)
  }

  /** A state between checks all of whose verdicts so far were right. */
  ghost predicate Steady(tu: TranslationUnit, s0: State, s: State) {
    Initial(tu, s0) && Faithful(tu, s0, s, {}) && WalkedClosed(tu, s, []) && WalkedCool(tu, s0, s)
  }

  lemma FreshIsSteady(tu: TranslationUnit, s0: State)
    requires Initial(tu, s0) && Faithful(tu, s0, s0, {})
    ensures Steady(tu, s0, s0)
  {}

  lemma VisitStaysCool(tu: TranslationUnit, s0: State, p: Pass, next: Decl)
    requires s0.emptied == {} && !Hot(tu, s0, next) && WalkedCool(tu, s0, p.s)
    ensures var (q, pushed) := Visit(tu, p, next); WalkedCool(tu, s0, q.s) && forall c | c in pushed :: !Hot(tu, s0, c)
  {
    if next in tu.definition {
      forall c | c in Pushes(tu, {}, tu.definition[next])
        ensures !Hot(tu, s0, c)
      {
        CoolStep(tu, s0, next, c);
      }
    }
  }

  lemma {:induction false} DrainStaysCool(tu: TranslationUnit, s0: State, p: Pass, work: seq<Decl>)
    requires s0.emptied == {} && WalkedCool(tu, s0, p.s) && forall c | c in work :: !Hot(tu, s0, c)
    ensures WalkedCool(tu, s0, Drain(tu, p, work).s)
    decreases tu.definition.Values - p.s.walked, |work|
  {
    if work != [] {
      hide Hot, WalkedCool;
      var next := work[|work| - 1];
      VisitStaysCool(tu, s0, p, next);
      var (q, pushed) := Visit(tu, p, next);
      DrainStaysCool(tu, s0, q, work[..|work| - 1] + pushed);
    }
  }

  /** What was passed by right verdicts is still passed after a refusal. */
  lemma RefusalKeepsClosed(tu: TranslationUnit, s0: State, s: State, t: State)
    requires Steady(tu, s0, s) && Faithful(tu, s0, t, {}) && t.walked == s.walked && s.emptied <= t.emptied
    ensures WalkedClosed(tu, t, [])
  {
    forall b, d | b in t.walked && d in Pushes(tu, t.emptied, b)
      ensures Passed(tu, t, d)
    {
      assert d in Pushes(tu, s.emptied, b) && d in Pushes(tu, {}, b);
      assert Passed(tu, s, d);
      if Faulty(tu, t, d) {
        ReachesSelf(Calls(tu, t), d);
        HotIsSound(tu, s0, t, d);
      }
    }
  }

  /**
   The check of a function that is not exposed is right, keeps the state between checks as it should be,
   and changes what no other such function shows.
   */
  lemma CheckStaysSteady(tu: TranslationUnit, s0: State, s: State, fd: Decl)
    requires Steady(tu, s0, s) && ConstructorsKept(tu, s0) && !Exposed(tu, s0, fd)
    ensures CheckFunction(tu, s, fd).0 <==> Hot(tu, s0, fd)
    ensures Steady(tu, s0, CheckFunction(tu, s, fd).1)
    ensures forall g | !Exposed(tu, s0, g) :: Hot(tu, CheckFunction(tu, s, fd).1, g) == Hot(tu, s, g)
  {
    hide Exposed, Hot, Initial, Faithful, ConstructorsKept, WalkedCool, WalkedClosed, Drain;
    var (refused, s') := CheckFunction(tu, s, fd);
    CheckIsExact(tu, s, fd);
    FreshIsUntouched(tu, s0);
    CheckStaysFaithful(tu, s0, s, fd);
    HotStays(tu, s0, s, fd);
    if refused {
      RefusalKeepsClosed(tu, s0, s, s');
      SameWalkedCool(tu, s0, s, s');
    } else {
      DrainStaysCool(tu, s0, Pass(s, {}, None, {}), [fd]);
    }
    forall g | !Exposed(tu, s0, g)
      ensures Hot(tu, s', g) == Hot(tu, s, g)
    {
      HotStays(tu, s0, s, g);
      HotStays(tu, s0, s', g);
    }
  }

  lemma FreshIsUntouched(tu: TranslationUnit, s0: State)
    requires Initial(tu, s0)
    ensures s0.emptied == {}
  {}

  lemma SameWalkedCool(tu: TranslationUnit, s0: State, s: State, t: State)
    requires WalkedCool(tu, s0, s) && t.walked == s.walked
    ensures WalkedCool(tu, s0, t)
  {}

  /**
   After any run of checks of functions that are not exposed, another is refused iff it led to a fault in
   the fresh group; the verdict does not depend on what was checked before.
   */
  lemma {:induction false} VerdictsIgnoreOrder(tu: TranslationUnit, s0: State, s: State, fds: seq<Decl>, fd: Decl)
    requires Steady(tu, s0, s) && ConstructorsKept(tu, s0)
    requires !Exposed(tu, s0, fd) && forall g | g in fds :: !Exposed(tu, s0, g)
    ensures CheckFunction(tu, RunChecks(tu, s, fds), fd).0 <==> Hot(tu, s0, fd)
    decreases |fds|
  {
    hide Exposed, Hot, ConstructorsKept, Steady, CheckFunction;
    if fds == [] {
      CheckStaysSteady(tu, s0, s, fd);
    } else {
      CheckStaysSteady(tu, s0, s, fds[0]);
      VerdictsIgnoreOrder(tu, s0, CheckFunction(tu, s, fds[0]).1, fds[1..], fd);
    }
  }

  /** In any group: after any run of checks a refusal is still right. */
  lemma {:induction false} RefusalsAreRight(tu: TranslationUnit, s0: State, s: State, fds: seq<Decl>, fd: Decl)
    requires Initial(tu, s0) && Faithful(tu, s0, s, {})
    ensures Faithful(tu, s0, RunChecks(tu, s, fds), {})
    ensures CheckFunction(tu, RunChecks(tu, s, fds), fd).0 ==> Hot(tu, s0, fd)
    decreases |fds|
  {
    if fds == [] {
      CheckStaysFaithful(tu, s0, s, fd);
    } else {
      CheckStaysFaithful(tu, s0, s, fds[0]);
      RefusalsAreRight(tu, s0, CheckFunction(tu, s, fds[0]).1, fds[1..], fd);
    }
  }

  // ---------------------------------------------------------------------------------------------
  // Losing the verdict of an exposed function
  // ---------------------------------------------------------------------------------------------

  /** What a walk from a looks at after a itself, in the spent group. */
  ghost function Behind(tu: TranslationUnit, s0: State, a: Decl): set<Decl>
    requires a in tu.definition
  {
    Saturate(Calls(tu, SpentView(tu, s0)), set c | c in Pushes(tu, tu.noCompile, tu.definition[a]))
  }

  /**
   Checking a tries every body behind b that does not compile, and marks nothing behind b: a can be
   walked, no error is raised, and nothing either of them leads to is blamed or otherwise at fault.
   */
  ghost predicate Uncovers(tu: TranslationUnit, s0: State, a: Decl, b: Decl) {
    && a in tu.definition && a !in tu.replayed && !Marked(s0, a) && a !in tu.raises
    && (tu.definition[a] in tu.recovery ==> tu.definition[a] in tu.noCompile)
    && Unharmed(tu, s0, a, Behind(tu, s0, a), Behind(tu, s0, a) + Region(tu, s0, b))
    && forall e | e in Region(tu, s0, b) && e in tu.definition && tu.definition[e] in tu.noCompile ::
         tu.definition[e] == tu.definition[a] || LiesBehind(tu, s0, a, tu.definition[e])
  }

  ghost predicate Unharmed(tu: TranslationUnit, s0: State, a: Decl, behind: set<Decl>, seen: set<Decl>) {
    && a !in seen && seen !! tu.raises && Blames(tu, a) !! seen
    && (forall e | e in seen :: !Faulty(tu, SpentView(tu, s0), e)) && forall e | e in behind :: Blames(tu, e) !! seen
  }

  ghost predicate LiesBehind(tu: TranslationUnit, s0: State, a: Decl, t: Decl)
    requires a in tu.definition
  {
    exists x :: x in Behind(tu, s0, a) && x in tu.definition && tu.definition[x] == t
  }

  /** A walk has raised nothing, and only bodies that do not compile have failed, blaming nothing seen. */
  ghost predicate Untouched(tu: TranslationUnit, s0: State, seen: set<Decl>, p: Pass) {
    && p.s.poisoned == s0.poisoned && p.s.fired == s0.fired && p.reported !! seen
    && p.s.invalid <= SpentView(tu, s0).invalid && p.s.emptied <= tu.noCompile
    && forall b | b in tu.noCompile && b !in p.s.bodies :: b in p.s.emptied
  }

  /** A walk from definition t that stayed behind it, trying all bodies it met and blaming nothing seen. */
  ghost predicate Trying(tu: TranslationUnit, s0: State, behind: set<Decl>, seen: set<Decl>, t: Decl,
                         p: Pass, work: seq<Decl>) {
    && Untouched(tu, s0, seen, p) && t in p.s.walked && (forall c | c in work :: c in behind)
    && forall b | b in p.s.walked :: (b in tu.noCompile ==> b !in p.s.bodies) && Followed(tu, p.s.walked, work, b)
  }

  /** What definition b calls, in the spent group, is walked or in the worklist. */
  ghost predicate Followed(tu: TranslationUnit, walked: set<Decl>, work: seq<Decl>, b: Decl) {
    forall c | c in Pushes(tu, tu.noCompile, b) :: c in work || c !in tu.definition || tu.definition[c] in walked
  }

  lemma BehindIsClosed(tu: TranslationUnit, s0: State, a: Decl)
    requires a in tu.definition
    ensures forall c | c in Pushes(tu, tu.noCompile, tu.definition[a]) :: c in Behind(tu, s0, a)
    ensures Closed(Calls(tu, SpentView(tu, s0)), Behind(tu, s0, a))
  {
    SaturateCloses(Calls(tu, SpentView(tu, s0)), set c | c in Pushes(tu, tu.noCompile, tu.definition[a]));
  }

  /** A visit behind a finds no fault but a body that does not compile. */
  lemma VisitBehind(tu: TranslationUnit, s0: State, behind: set<Decl>, seen: set<Decl>, t: Decl, p: Pass,
                    work: seq<Decl>, next: Decl)
    requires Trying(tu, s0, behind, seen, t, p, work)
    requires next !in tu.raises && !Faulty(tu, SpentView(tu, s0), next)
    ensures var (q, pushed) := Visit(tu, p, next);
      if next !in tu.definition then (q, pushed) == (p, [])
      else
        var target := tu.definition[next];
        var tried := ParseOne(tu, p, target);
        if target in p.s.walked then (q, pushed) == (tried, [])
        else q == tried.(s := tried.s.(walked := tried.s.walked + {target}), walkedNow := tried.walkedNow + {target})
             && pushed == Pushes(tu, tu.noCompile, target)
  {
    hide Followed;
    assert next !in p.s.poisoned && next !in p.s.invalid && next !in tu.replayed;
  }

  lemma ParseTries(tu: TranslationUnit, s0: State, seen: set<Decl>, p: Pass, next: Decl)
    requires Untouched(tu, s0, seen, p) && next in tu.definition && Blames(tu, next) !! seen
    ensures var q := ParseOne(tu, p, tu.definition[next]);
      && Untouched(tu, s0, seen, q) && q.s.walked == p.s.walked && q.s.bodies <= p.s.bodies
      && (tu.definition[next] in tu.noCompile ==> tu.definition[next] !in q.s.bodies)
  {
    assert tu.definition[next] in tu.definition.Values;
  }

  lemma VisitTries(tu: TranslationUnit, s0: State, a: Decl, behind: set<Decl>, seen: set<Decl>, t: Decl, p: Pass,
                   work: seq<Decl>)
    requires Initial(tu, s0) && a in tu.definition && behind == Behind(tu, s0, a) <= seen
    requires Unharmed(tu, s0, a, behind, seen) && work != [] && Trying(tu, s0, behind, seen, t, p, work)
    ensures var (q, pushed) := Visit(tu, p, work[|work| - 1]);
      Trying(tu, s0, behind, seen, t, q, work[..|work| - 1] + pushed)
  {
    hide Visit, ParseOne, Behind, Followed, Pushes, Faulty, Blames, Untouched;
    var next, rest := work[|work| - 1], work[..|work| - 1];
    var (q, pushed) := Visit(tu, p, next);
    BehindIsClosed(tu, s0, a);
    assert next in behind && Blames(tu, next) !! seen;
    VisitBehind(tu, s0, behind, seen, t, p, work, next);
    assert forall c | c in work :: c == next || c in rest;
    if next in tu.definition {
      var tried := ParseOne(tu, p, tu.definition[next]);
      ParseTries(tu, s0, seen, p, next);
      WalkingKeepsUntouched(tu, s0, seen, tried, q);
    }
    assert forall c | c in pushed :: c in Successors(Calls(tu, SpentView(tu, s0)), next);
    forall b | b in q.s.walked
      ensures Followed(tu, q.s.walked, rest + pushed, b)
    {
      FollowedStays(tu, p.s.walked, work, q.s.walked, rest + pushed, next, b);
    }
  }

  lemma WalkingKeepsUntouched(tu: TranslationUnit, s0: State, seen: set<Decl>, p: Pass, q: Pass)
    requires Untouched(tu, s0, seen, p) && q == p.(s := p.s.(walked := q.s.walked), walkedNow := q.walkedNow)
    ensures Untouched(tu, s0, seen, q)
  {}

  lemma FollowedStays(tu: TranslationUnit, walked: set<Decl>, work: seq<Decl>, walked': set<Decl>, work': seq<Decl>,
                      next: Decl, b: Decl)
    requires walked <= walked' && forall c | c in work :: c == next || c in work'
    requires next in tu.definition ==> tu.definition[next] in walked'
    requires if b in walked then Followed(tu, walked, work, b)
             else forall c | c in Pushes(tu, tu.noCompile, b) :: c in work'
    ensures Followed(tu, walked', work', b)
  {}

  lemma {:induction false} DrainTries(tu: TranslationUnit, s0: State, a: Decl, behind: set<Decl>, seen: set<Decl>,
                                      t: Decl, p: Pass, work: seq<Decl>)
    requires Initial(tu, s0) && a in tu.definition && behind == Behind(tu, s0, a) <= seen
    requires Unharmed(tu, s0, a, behind, seen) && Trying(tu, s0, behind, seen, t, p, work)
    ensures Trying(tu, s0, behind, seen, t, Drain(tu, p, work), [])
    decreases tu.definition.Values - p.s.walked, |work|
  {
    hide Initial, Unharmed, Trying, Behind;
    if work != [] {
      VisitTries(tu, s0, a, behind, seen, t, p, work);
      var (q, pushed) := Visit(tu, p, work[|work| - 1]);
      DrainTries(tu, s0, a, behind, seen, t, q, work[..|work| - 1] + pushed);
    }
  }

  /** The first step walks a's definition, which may itself fail to parse, and goes on behind it. */
  lemma WalkTries(tu: TranslationUnit, s0: State, a: Decl, b: Decl)
    requires Initial(tu, s0) && Uncovers(tu, s0, a, b)
    ensures Trying(tu, s0, Behind(tu, s0, a), Behind(tu, s0, a) + Region(tu, s0, b), tu.definition[a],
                   Drain(tu, Pass(s0, {}, None, {}), [a]), [])
  {
    hide Faulty, Behind, Region;
    var behind, seen, t := Behind(tu, s0, a), Behind(tu, s0, a) + Region(tu, s0, b), tu.definition[a];
    var p := Pass(s0, {}, None, {});
    var (q, pushed) := Visit(tu, p, a);
    BehindIsClosed(tu, s0, a);
    assert t in tu.definition.Values;
    assert pushed == Pushes(tu, tu.noCompile, t);
    assert [a][..0] + pushed == pushed;
    assert Trying(tu, s0, behind, seen, t, q, pushed);
    DrainTries(tu, s0, a, behind, seen, t, q, pushed);
  }

  /** Once the walk is done, everything behind a has been walked. */
  lemma BehindIsWalked(tu: TranslationUnit, s0: State, a: Decl, seen: set<Decl>, p: Pass, e: Decl)
    requires a in tu.definition && Trying(tu, s0, Behind(tu, s0, a), seen, tu.definition[a], p, [])
    requires e in Behind(tu, s0, a) && e in tu.definition
    ensures tu.definition[e] in p.s.walked
  {
    var g := Calls(tu, SpentView(tu, s0));
    var pushes := set c | c in Pushes(tu, tu.noCompile, tu.definition[a]);
    SaturateOnlyReaches(g, pushes, e);
    var c :| c in pushes && Reaches(g, c, e);
    var w :| WalkBetween(g, c, e, w);
    for i := 0 to |w| - 1
      invariant w[i] in tu.definition ==> tu.definition[w[i]] in p.s.walked
    {
      assert w[i + 1] in Successors(g, w[i]);
      assert w[i + 1] in Pushes(tu, tu.noCompile, tu.definition[w[i]]);
    }
  }

  lemma SpentCallsAreFresh(tu: TranslationUnit, s0: State, a: Decl, b: Decl)
    requires s0.emptied == {} && Reaches(Calls(tu, SpentView(tu, s0)), a, b)
    ensures Reaches(Calls(tu, s0), a, b)
  {
    GraphGrows(Calls(tu, SpentView(tu, s0)), Calls(tu, s0), a, b);
  }

  /** What an exposed function spends is a fault of the fresh group. */
  lemma ExposedIsHot(tu: TranslationUnit, s0: State, b: Decl)
    requires Initial(tu, s0) && Exposed(tu, s0, b)
    ensures Hot(tu, s0, b)
  {
    var e :| e in Region(tu, s0, b) && Spends(tu, e);
    SaturateOnlyReaches(Calls(tu, SpentView(tu, s0)), {b}, e);
    SpentCallsAreFresh(tu, s0, b, e);
    assert Faulty(tu, s0, e);
  }

  /** The check of a is refused: what b spends lies behind a as well. */
  lemma UncoveringIsRefused(tu: TranslationUnit, s0: State, a: Decl, b: Decl)
    requires Initial(tu, s0) && Exposed(tu, s0, b) && Uncovers(tu, s0, a, b)
    ensures Hot(tu, s0, a)
  {
    hide Region, Behind;
    var e :| e in Region(tu, s0, b) && Spends(tu, e);
    assert e !in tu.raises;
    var t := tu.definition[e];
    if t == tu.definition[a] {
      ReachesSelf(Calls(tu, s0), a);
      assert Faulty(tu, s0, a);
    } else {
      var x :| x in Behind(tu, s0, a) && x in tu.definition && tu.definition[x] == t;
      BehindIsReached(tu, s0, a, x);
      assert Faulty(tu, s0, x);
    }
  }

  lemma BehindIsReached(tu: TranslationUnit, s0: State, a: Decl, x: Decl)
    requires s0.emptied == {} && a in tu.definition && x in Behind(tu, s0, a)
    ensures Reaches(Calls(tu, s0), a, x)
  {
    var g := Calls(tu, SpentView(tu, s0));
    var pushes := set c | c in Pushes(tu, tu.noCompile, tu.definition[a]);
    SaturateOnlyReaches(g, pushes, x);
    var c :| c in pushes && Reaches(g, c, x);
    StepReaches(g, a, c, x);
    SpentCallsAreFresh(tu, s0, a, x);
  }

  /** The state a refused check leaves. */
  lemma RefusalLeaves(tu: TranslationUnit, s0: State, a: Decl)
    requires Initial(tu, s0) && Hot(tu, s0, a) && a !in s0.poisoned
    ensures var p, s1 := Drain(tu, Pass(s0, {}, None, {}), [a]), CheckFunction(tu, s0, a).1;
      && s1.walked == {} && s1.poisoned == p.s.poisoned + p.reported + {a} && s1.fired == p.s.fired
      && s1.invalid <= p.s.invalid && s1.bodies == p.s.bodies && p.s.emptied <= s1.emptied
  {
    hide Drain, Hot;
    CheckIsExact(tu, s0, a);
    FailedWalkRestores(tu, s0, [a]);
  }

  /** It leaves everything behind b without a visible fault. */
  lemma RegionIsLeftClear(tu: TranslationUnit, s0: State, a: Decl, b: Decl, e: Decl)
    requires Initial(tu, s0) && Exposed(tu, s0, b) && Uncovers(tu, s0, a, b) && e in Region(tu, s0, b)
    ensures var s1 := CheckFunction(tu, s0, a).1;
      !Faulty(tu, s1, e) && Successors(Calls(tu, s1), e) <= Region(tu, s0, b)
  {
    hide Drain, Behind, CheckFunction, Followed, Initial, Exposed;
    var seen := Behind(tu, s0, a) + Region(tu, s0, b);
    var p, s1 := Drain(tu, Pass(s0, {}, None, {}), [a]), CheckFunction(tu, s0, a).1;
    UncoveringIsRefused(tu, s0, a, b);
    RefusalLeaves(tu, s0, a);
    WalkTries(tu, s0, a, b);
    RegionIsClosed(tu, s0, b);
    assert e in seen && e != a && !Faulty(tu, SpentView(tu, s0), e);
    if e in tu.definition && tu.definition[e] in tu.noCompile {
      TriedIsEmptied(tu, s0, a, b, e, p);
    }
    assert Successors(Calls(tu, s1), e) <= Successors(Calls(tu, SpentView(tu, s0)), e);
  }

  lemma TriedIsEmptied(tu: TranslationUnit, s0: State, a: Decl, b: Decl, e: Decl, p: Pass)
    requires Uncovers(tu, s0, a, b) && e in Region(tu, s0, b) && e in tu.definition && tu.definition[e] in tu.noCompile
    requires Trying(tu, s0, Behind(tu, s0, a), Behind(tu, s0, a) + Region(tu, s0, b), tu.definition[a], p, [])
    ensures tu.definition[e] !in p.s.bodies && tu.definition[e] in p.s.emptied
  {
    hide Behind, Region, Followed, Unharmed;
    if tu.definition[e] != tu.definition[a] {
      var x :| x in Behind(tu, s0, a) && x in tu.definition && tu.definition[x] == tu.definition[e];
      BehindIsWalked(tu, s0, a, Behind(tu, s0, a) + Region(tu, s0, b), p, x);
    }
  }

  /** The converse: an exposed function is accepted once a function that uncovers it has been checked. */
  lemma ExposedIsLost(tu: TranslationUnit, s0: State, a: Decl, b: Decl)
    requires Initial(tu, s0) && Exposed(tu, s0, b) && Uncovers(tu, s0, a, b)
    ensures Hot(tu, s0, b) && !CheckFunction(tu, RunChecks(tu, s0, [a]), b).0
  {
    hide Initial, Exposed, Uncovers, Region, CheckFunction;
    var s1 := CheckFunction(tu, s0, a).1;
    ExposedIsHot(tu, s0, b);
    RegionIsClosed(tu, s0, b);
    forall e | e in Region(tu, s0, b)
      ensures !Faulty(tu, s1, e) && Successors(Calls(tu, s1), e) <= Region(tu, s0, b)
    {
      RegionIsLeftClear(tu, s0, a, b, e);
    }
    forall v | Reaches(Calls(tu, s1), b, v)
      ensures !Faulty(tu, s1, v)
    {
      ClosedKeepsWalks(Calls(tu, s1), Region(tu, s0, b), b, v);
    }
    LeavesNothingWalked(tu, s0, a, b);
    CheckIsExact(tu, s1, b);
    assert [a][1..] == [];
    assert RunChecks(tu, s0, [a]) == RunChecks(tu, s1, []) == s1;
  }

  lemma LeavesNothingWalked(tu: TranslationUnit, s0: State, a: Decl, b: Decl)
    requires Initial(tu, s0) && Exposed(tu, s0, b) && Uncovers(tu, s0, a, b)
    ensures WalkedClosed(tu, CheckFunction(tu, s0, a).1, [])
  {
    hide Exposed, CheckFunction, Behind, Region, Unharmed;
    UncoveringIsRefused(tu, s0, a, b);
    RefusalLeaves(tu, s0, a);
  }

  // ---------------------------------------------------------------------------------------------
  // Runs over symbols
  // ---------------------------------------------------------------------------------------------

  /** The functions that a symbol can ask for: of each, the one declaration its name is bound to. */
  ghost function Asked(g: Group): iset<Decl> {
    iset fd | exists symbol :: g.Lookup(symbol) == Some(Function(fd))
  }

  ghost function RunSymbols(g: Group, s: State, symbols: seq<string>): State
    decreases |symbols|
  {
    if symbols == [] then s else RunSymbols(g, Check(g, s, symbols[0]).1, symbols[1..])
  }

  /** After any run of demand checks, a bound function's symbol is refused iff it led to a fault at first. */
  ghost predicate RunsAreRight(g: Group, s0: State) {
    forall symbols, symbol, fd | g.Lookup(symbol) == Some(Function(fd)) ::
      Check(g, RunSymbols(g, s0, symbols), symbol).0 == -1 <==> Hot(g.tu, s0, fd)
  }

  lemma {:induction false} SymbolsRunFunctions(g: Group, s: State, symbols: seq<string>) returns (fds: seq<Decl>)
    ensures RunSymbols(g, s, symbols) == RunChecks(g.tu, s, fds) && forall fd | fd in fds :: fd in Asked(g)
    decreases |symbols|
  {
    hide CheckFunction;
    if symbols == [] {
      fds := [];
    } else {
      fds := SymbolsRunFunctions(g, Check(g, s, symbols[0]).1, symbols[1..]);
      var entity := g.Lookup(symbols[0]);
      if entity.Some? && entity.value.Function? {
        assert g.Lookup(symbols[0]) == Some(Function(entity.value.fd));
        assert ([entity.value.fd] + fds)[1..] == fds;
        fds := [entity.value.fd] + fds;
      }
    }
  }

  /**
   A fresh group answers every run of demand checks rightly iff it can be asked for no exposed function;
   for groups in which the check of another bound function uncovers each exposed one.
   */
  lemma RunsAreRightIff(g: Group, s0: State)
    requires Initial(g.tu, s0) && Faithful(g.tu, s0, s0, {}) && ConstructorsKept(g.tu, s0)
    requires forall b | b in Asked(g) && Exposed(g.tu, s0, b) :: exists a :: a in Asked(g) && Uncovers(g.tu, s0, a, b)
    ensures RunsAreRight(g, s0) <==> forall b | b in Asked(g) :: !Exposed(g.tu, s0, b)
  {
    hide Initial, Faithful, Exposed, Uncovers, ConstructorsKept, CheckFunction, RunChecks, Hot;
    if b :| b in Asked(g) && Exposed(g.tu, s0, b) {
      var a :| a in Asked(g) && Uncovers(g.tu, s0, a, b);
      SymbolIsLost(g, s0, a, b);
    } else {
      FreshIsSteady(g.tu, s0);
      forall symbols, symbol, fd | g.Lookup(symbol) == Some(Function(fd))
        ensures Check(g, RunSymbols(g, s0, symbols), symbol).0 == -1 <==> Hot(g.tu, s0, fd)
      {
        var fds := SymbolsRunFunctions(g, s0, symbols);
        assert fd in Asked(g);
        VerdictsIgnoreOrder(g.tu, s0, s0, fds, fd);
      }
    }
  }

  /** Two bound functions: after the check of one the other's symbol is accepted, though it led to a fault. */
  lemma SymbolIsLost(g: Group, s0: State, a: Decl, b: Decl)
    requires Initial(g.tu, s0) && a in Asked(g) && b in Asked(g)
    requires Exposed(g.tu, s0, b) && Uncovers(g.tu, s0, a, b)
    ensures !RunsAreRight(g, s0)
  {
    hide Initial, Exposed, Uncovers, CheckFunction, Hot;
    var first :| g.Lookup(first) == Some(Function(a));
    var second :| g.Lookup(second) == Some(Function(b));
    ExposedIsLost(g.tu, s0, a, b);
    assert [a][1..] == [] && [first][1..] == [];
    var s1 := CheckFunction(g.tu, s0, a).1;
    assert Check(g, s0, first).1 == s1;
    assert RunSymbols(g, s0, [first]) == RunSymbols(g, s1, []) == s1;
    assert RunChecks(g.tu, s0, [a]) == RunChecks(g.tu, s1, []) == s1;
    assert Check(g, RunSymbols(g, s0, [first]), second).0 == 1;
  }

  /** A function with a body of its own that only calls d. */
  ghost predicate OnlyCalls(tu: TranslationUnit, s0: State, x: Decl, d: Decl) {
    && x in tu.definition && tu.definition[x] == x && Pushes(tu, {}, x) == [d]
    && x !in tu.noCompile && x !in tu.recovery && x !in tu.replayed && x !in tu.raises && !Marked(s0, x)
  }

  /** A redeclaration of a body that does not compile and runs no destructors; nothing marks it at first. */
  ghost predicate BareRedeclaration(tu: TranslationUnit, s0: State, d: Decl) {
    && d in tu.definition && tu.definition[d] != d && tu.definition[d] in tu.noCompile
    && (tu.definition[d] in tu.implicitCallees ==> tu.implicitCallees[tu.definition[d]] == [])
    && d !in tu.replayed && !Marked(s0, d) && d !in tu.raises
  }

  lemma CallerRegion(tu: TranslationUnit, s0: State, x: Decl, d: Decl)
    requires Initial(tu, s0) && OnlyCalls(tu, s0, x, d) && BareRedeclaration(tu, s0, d)
    ensures Region(tu, s0, x) == {x, d} && Behind(tu, s0, x) == {d} && x != d
  {
    var g := Calls(tu, SpentView(tu, s0));
    assert tu.definition[d] in tu.definition.Values && x in tu.definition.Values;
    assert Pushes(tu, tu.noCompile, x) == [d];
    assert Successors(g, d) == {} && Successors(g, x) == {d};
    assert (set c | c in Pushes(tu, tu.noCompile, x)) == {d};
    ReachOfCaller(g, x, d);
  }

  lemma CallerIsClear(tu: TranslationUnit, s0: State, x: Decl, d: Decl)
    requires Initial(tu, s0) && OnlyCalls(tu, s0, x, d) && BareRedeclaration(tu, s0, d)
    ensures !Faulty(tu, SpentView(tu, s0), x) && !Faulty(tu, SpentView(tu, s0), d)
    ensures Blames(tu, x) == {} && Blames(tu, d) == Listed(tu.reported, tu.definition[d]) && Spends(tu, d)
    ensures Hot(tu, s0, x)
  {
    assert tu.definition[d] in tu.definition.Values;
    assert d !in tu.definition.Values;
    ReachesSelf(Calls(tu, s0), d);
    assert Faulty(tu, s0, d) && d in Successors(Calls(tu, s0), x);
    StepReaches(Calls(tu, s0), x, d, d);
  }

  lemma CallerIsExposedIff(tu: TranslationUnit, s0: State, b: Decl, d: Decl)
    requires Initial(tu, s0) && BareRedeclaration(tu, s0, d) && OnlyCalls(tu, s0, b, d)
    ensures Exposed(tu, s0, b) <==>
            b !in Listed(tu.reported, tu.definition[d]) && d !in Listed(tu.reported, tu.definition[d])
  {
    hide Faulty, Blames, Region, Spends, SpentView, Hot, Initial;
    CallerRegion(tu, s0, b, d);
    CallerIsClear(tu, s0, b, d);
    assert Region(tu, s0, b) == {b, d} && d in {b, d};
    assert Blames(tu, d) !! {b, d} <==> b !in Blames(tu, d) && d !in Blames(tu, d);
  }

  lemma CallerUncovers(tu: TranslationUnit, s0: State, a: Decl, b: Decl, d: Decl)
    requires Initial(tu, s0) && BareRedeclaration(tu, s0, d)
    requires OnlyCalls(tu, s0, a, d) && OnlyCalls(tu, s0, b, d) && a != b && Exposed(tu, s0, b)
    ensures Uncovers(tu, s0, a, b)
  {
    hide Faulty, Blames, Region, Behind, Spends, SpentView, Hot, Initial;
    CallerRegion(tu, s0, a, d);
    CallerRegion(tu, s0, b, d);
    CallerIsClear(tu, s0, a, d);
    CallerIsClear(tu, s0, b, d);
    assert d in Region(tu, s0, b) && Behind(tu, s0, a) + Region(tu, s0, b) == {b, d};
    assert Unharmed(tu, s0, a, Behind(tu, s0, a), {b, d});
    assert d in Behind(tu, s0, a);
  }

  /**
   Two callers of such a redeclaration: the second keeps its verdict iff clang's notes name it or the
   redeclaration.
   */
  lemma TwoCallersLoseIff(tu: TranslationUnit, s0: State, a: Decl, b: Decl, d: Decl)
    requires Initial(tu, s0) && Faithful(tu, s0, s0, {}) && ConstructorsKept(tu, s0)
    requires BareRedeclaration(tu, s0, d) && OnlyCalls(tu, s0, a, d) && OnlyCalls(tu, s0, b, d) && a != b
    ensures Hot(tu, s0, b)
    ensures CheckFunction(tu, RunChecks(tu, s0, [a]), b).0 <==>
            b in Listed(tu.reported, tu.definition[d]) || d in Listed(tu.reported, tu.definition[d])
  {
    hide CheckFunction, RunChecks, Hot, Faithful, ConstructorsKept, Initial, Exposed, Uncovers, OnlyCalls;
    CallerIsClear(tu, s0, a, d);
    CallerIsClear(tu, s0, b, d);
    CallerIsExposedIff(tu, s0, b, d);
    if Exposed(tu, s0, b) {
      CallerUncovers(tu, s0, a, b, d);
      ExposedIsLost(tu, s0, a, b);
    } else {
      KeepsAfterRefusal(tu, s0, a, b);
    }
  }

  /** After the first refusal of a run, what is not exposed is still judged rightly. */
  lemma KeepsAfterRefusal(tu: TranslationUnit, s0: State, a: Decl, b: Decl)
    requires Initial(tu, s0) && Faithful(tu, s0, s0, {}) && ConstructorsKept(tu, s0)
    requires Hot(tu, s0, a) && Hot(tu, s0, b) && !Exposed(tu, s0, b)
    ensures CheckFunction(tu, RunChecks(tu, s0, [a]), b).0
  {
    hide Hot, Exposed, ConstructorsKept;
    var s1 := CheckFunction(tu, s0, a).1;
    CheckIsExact(tu, s0, a);
    CheckStaysFaithful(tu, s0, s0, a);
    HotStays(tu, s0, s1, b);
    CheckIsExact(tu, s1, b);
    assert [a][1..] == [];
    assert RunChecks(tu, s0, [a]) == RunChecks(tu, s1, []) == s1;
  }

  lemma ReachOfCaller(g: Graph<Decl>, b: Decl, d: Decl)
    requires Successors(g, b) == {d} && Successors(g, d) == {}
    ensures Saturate(g, {b}) == {b, d} && Saturate(g, {d}) == {d}
  {
    SaturateCloses(g, {b});
    forall m | m in Saturate(g, {b})
      ensures m in {b, d}
    {
      SaturateOnlyReaches(g, {b}, m);
      ClosedKeepsWalks(g, {b, d}, b, m);
    }
  }

  // ---------------------------------------------------------------------------------------------
  // What a check answers and remembers
  // ---------------------------------------------------------------------------------------------

  /** The name a symbol stands for: the one clang emits when the wrapper was renamed. */
  ghost predicate StandsFor(g: Group, symbol: string, name: string) {
    if symbol in g.renamed then name == g.renamed[symbol] else name == symbol
  }

  /**
   The verdict on a symbol, by what its name is bound to: unbound names are not this group's, a variable
   is refused iff its initializer failed, a function iff it leads to a fault the state shows.
   */
  lemma SymbolVerdict(g: Group, s: State, symbol: string, name: string)
    requires WalkedClosed(g.tu, s, []) && StandsFor(g, symbol, name)
    ensures var (verdict, s') := Check(g, s, symbol);
      if name !in g.bound then verdict == 0 && s' == s
      else match g.bound[name]
        case Variable(failed) => verdict == (if failed then -1 else 1) && s' == s
        case Function(fd) => verdict == (if Hot(g.tu, s, fd) then -1 else 1) && s' == CheckFunction(g.tu, s, fd).1
  {
    hide CheckFunction, Hot;
    if name in g.bound && g.bound[name].Function? {
      CheckIsExact(g.tu, s, g.bound[name].fd);
    }
  }

  /** A failed constructor that clang blames, or that the check is about, is valid again without its body. */
  ghost predicate Revalidated(tu: TranslationUnit, invalid: set<Decl>, blamed: set<Decl>, s: State, t: State) {
    && (forall d :: d in t.invalid <==> d in invalid && !(d in tu.constructors && d in blamed))
    && forall d :: d in t.emptied <==> d in s.emptied || (d in tu.constructors && d in blamed && d in invalid)
  }

  /** A reference that raises an error does so once: the error, its blame and its invalid functions stay. */
  lemma RaisedIsRemembered(tu: TranslationUnit, s: State, fd: Decl)
    requires fd !in tu.replayed && fd !in s.poisoned && fd in tu.raises && fd !in s.fired
    ensures var (refused, t) := CheckFunction(tu, s, fd); var blamed := Listed(tu.reported, fd) + {fd};
      && refused && t.walked == s.walked && t.bodies == s.bodies && t.fired == s.fired + {fd}
      && t.poisoned == s.poisoned + blamed
      && Revalidated(tu, s.invalid + Listed(tu.invalidated, fd), blamed, s, t)
  {
    var p := Pass(s, {}, None, {});
    var (q, pushed) := Visit(tu, p, fd);
    assert [fd][..0] + pushed == [] && Drain(tu, p, [fd]) == Drain(tu, q, []) == q;
    assert q.s.walked - q.walkedNow == s.walked;
  }

  /** A body that does not compile is parsed once: its definition stays invalid and bodiless, its blame stays. */
  lemma FailedBodyIsRemembered(tu: TranslationUnit, s: State, fd: Decl)
    requires fd !in tu.replayed && fd !in s.poisoned && fd !in s.invalid && fd !in tu.raises
    requires fd in tu.definition && tu.definition[fd] in s.bodies * tu.noCompile && tu.definition[fd] !in s.walked
    requires tu.definition[fd] in tu.implicitCallees ==> tu.implicitCallees[tu.definition[fd]] == []
    ensures var (refused, t) := CheckFunction(tu, s, fd);
      var body, blamed := tu.definition[fd], Listed(tu.reported, tu.definition[fd]) + {fd};
      && refused && t.walked == s.walked && t.bodies == s.bodies - {body} && t.fired == s.fired
      && t.poisoned == s.poisoned + blamed
      && Revalidated(tu, s.invalid + {body}, blamed, s.(emptied := s.emptied + {body}), t)
  {
    var p := Pass(s, {}, None, {});
    var (q, pushed) := Visit(tu, p, fd);
    assert pushed == [];
    assert [fd][..0] + pushed == [] && Drain(tu, p, [fd]) == Drain(tu, q, []) == q;
    assert q.s.walked - q.walkedNow == s.walked;
  }

  lemma {:induction false} DrainKeepsPoison(tu: TranslationUnit, p: Pass, work: seq<Decl>)
    ensures Drain(tu, p, work).s.poisoned == p.s.poisoned
    decreases tu.definition.Values - p.s.walked, |work|
  {
    if work != [] {
      var (q, pushed) := Visit(tu, p, work[|work| - 1]);
      DrainKeepsPoison(tu, q, work[..|work| - 1] + pushed);
    }
  }

  /** A refused function is refused again, whatever was checked in between. */
  lemma {:induction false} RefusedStaysRefused(tu: TranslationUnit, s: State, fd: Decl, fds: seq<Decl>)
    requires CheckFunction(tu, s, fd).0
    ensures CheckFunction(tu, RunChecks(tu, CheckFunction(tu, s, fd).1, fds), fd).0
  {
    DrainKeepsPoison(tu, Pass(s, {}, None, {}), [fd]);
    PoisonStays(tu, CheckFunction(tu, s, fd).1, fd, fds);
  }

  lemma {:induction false} PoisonStays(tu: TranslationUnit, s: State, fd: Decl, fds: seq<Decl>)
    requires fd in s.poisoned
    ensures fd in RunChecks(tu, s, fds).poisoned
    decreases |fds|
  {
    if fds != [] {
      DrainKeepsPoison(tu, Pass(s, {}, None, {}), [fds[0]]);
      PoisonStays(tu, CheckFunction(tu, s, fds[0]).1, fd, fds[1..]);
    }
  }

  /** d0's out-of-line definition d1 does not compile; a and b call d0. */
  const LOST_UNIT := TranslationUnit(
    map[Decl(0) := Decl(1), Decl(1) := Decl(1), Decl(2) := Decl(2), Decl(3) := Decl(3)],
    map[Decl(2) := [Decl(0)], Decl(3) := [Decl(0)]], map[], {Decl(1)}, {}, {}, map[], map[], {}, {})

  const LOST_START := State({}, {Decl(1)}, {}, {}, {}, {})
  const LOST_AFTER := State({}, {}, {Decl(1)}, {Decl(2)}, {Decl(1)}, {})

  lemma LostFirstWalk()
    ensures Drain(LOST_UNIT, Pass(LOST_START, {}, None, {}), [Decl(2)]) ==
            Pass(State({Decl(2), Decl(1)}, {}, {Decl(1)}, {}, {Decl(1)}, {}), {Decl(2), Decl(1)}, Some(Decl(1)), {})
  {
    var tu, s0, d0, d1, a := LOST_UNIT, LOST_START, Decl(0), Decl(1), Decl(2);
    var p0 := Pass(s0, {}, None, {});
    var p1 := Pass(s0.(walked := {a}), {a}, None, {});
    assert [a][..0] == [] && [d0][..0] == [] && [] + [d0] == [d0] && [d0] + [] == [d0];
    assert s0.walked + {a} == {a} && p0.walkedNow + {a} == {a} && {a} + {d1} == {a, d1};
    assert Visit(tu, p0, a) == (p1, [d0]);
    assert s0.bodies - {d1} == {} && s0.invalid + {d1} == {d1} && s0.emptied + {d1} == {d1};
    assert ParseOne(tu, p1, d1) == Pass(State({a}, {}, {d1}, {}, {d1}, {}), {a}, Some(d1), {});
    var p2 := Pass(State({a, d1}, {}, {d1}, {}, {d1}, {}), {a, d1}, Some(d1), {});
    assert Visit(tu, p1, d0) == (p2, []);
    assert Drain(tu, p0, [a]) == Drain(tu, p1, [d0]) == Drain(tu, p2, []);
  }

  lemma LostFirst()
    ensures CheckFunction(LOST_UNIT, LOST_START, Decl(2)) == (true, LOST_AFTER)
  {
    hide Drain;
    LostFirstWalk();
    var a, d1, s3 := Decl(2), Decl(1), LOST_AFTER;
    assert {a, d1} - {a, d1} == {} && LOST_START.poisoned + {} + {a} == {a};
    assert Materialize(LOST_UNIT, LOST_START, [a]).s == s3.(poisoned := {});
    assert Revalidate(LOST_UNIT, s3, {} + {a}) == s3 by {
      assert (set f | f in {} + {a} && f in LOST_UNIT.constructors && f in s3.invalid) == {};
    }
  }

  lemma LostSecond()
    ensures !CheckFunction(LOST_UNIT, LOST_AFTER, Decl(3)).0
  {
    var tu, s3, d0, d1, b := LOST_UNIT, LOST_AFTER, Decl(0), Decl(1), Decl(3);
    var q0 := Pass(s3, {}, None, {});
    var q1 := Pass(s3.(walked := {b}), {b}, None, {});
    var q2 := Pass(s3.(walked := {b, d1}), {b, d1}, None, {});
    assert [b][..0] == [] && [d0][..0] == [] && [] + [d0] == [d0] && [d0] + [] == [d0];
    assert s3.walked + {b} == {b} && q0.walkedNow + {b} == {b} && {b} + {d1} == {b, d1};
    assert Visit(tu, q0, b) == (q1, [d0]);
    assert Pushes(tu, {d1}, d1) == [] && Visit(tu, q1, d0) == (q2, []);
    assert Drain(tu, q0, [b]) == Drain(tu, q1, [d0]) == Drain(tu, q2, []) == q2;
  }

  /**
   A lost verdict: checking a is refused; checking b is then accepted, because the failure marks d1 and
   the walk looks at d0.
   */
  lemma RedeclarationHidesFailure()
    ensures Initial(LOST_UNIT, LOST_START) && CheckFunction(LOST_UNIT, LOST_START, Decl(2)).0
    ensures Hot(LOST_UNIT, LOST_START, Decl(3))
    ensures !CheckFunction(LOST_UNIT, CheckFunction(LOST_UNIT, LOST_START, Decl(2)).1, Decl(3)).0
  {
    hide CheckFunction;
    LostFirst();
    LostSecond();
    var tu, s0, d0, b := LOST_UNIT, LOST_START, Decl(0), Decl(3);
    ReachesSelf(Calls(tu, s0), d0);
    assert Faulty(tu, s0, d0) && d0 in Pushes(tu, {}, b);
    StepReaches(Calls(tu, s0), b, d0, d0);
  }

  // ---------------------------------------------------------------------------------------------
  // The group
  // ---------------------------------------------------------------------------------------------

  /** The walk's and the group's fields; the poisoned set is shared between them. */
  class CxxIncrementalGroup {
    const group: Group
    var walked: set<Decl>
    var bodies: set<Decl>
    var invalid: set<Decl>
    var poisoned: set<Decl>
    var emptied: set<Decl>
    var fired: set<Decl>
    var failedFunctions: set<Decl>     // what clang's notes blamed during the current check

    function Contents(): State
      reads this
    {
      State(walked, bodies, invalid, poisoned, emptied, fired)
    }

    constructor (group: Group, s0: State)
      ensures this.group == group && Contents() == s0
    {
      this.group := group;
      walked, bodies, invalid, poisoned, emptied, fired :=
        s0.walked, s0.bodies, s0.invalid, s0.poisoned, s0.emptied, s0.fired;
      failedFunctions := {};
    }

    method ParseSkipped(target: Decl, failure0: Option<Decl>) returns (failure: Option<Decl>)
      modifies this
      ensures forall walkedNow ::
        Pass(Contents(), walkedNow, failure, failedFunctions) ==
        ParseOne(group.tu, Pass(old(Contents()), walkedNow, failure0, old(failedFunctions)), target)
    {
      failure := failure0;
      if target !in bodies { return; }
      bodies := bodies - {target};
      if target in group.tu.noCompile {
        invalid := invalid + {target};
        emptied := emptied + {target};
        failedFunctions := failedFunctions + SetAt(group.tu.reported, target);
        if failure.None? { failure := Some(target); }
      }
    }

    method VisitNext(next: Decl, failure0: Option<Decl>, walkedNow0: set<Decl>)
      returns (failure: Option<Decl>, walkedNow: set<Decl>, pushed: seq<Decl>)
      modifies this
      ensures (Pass(Contents(), walkedNow, failure, failedFunctions), pushed) ==
        Visit(group.tu, Pass(old(Contents()), walkedNow0, failure0, old(failedFunctions)), next)
    {
      failure, walkedNow, pushed := failure0, walkedNow0, [];
      if next in group.tu.replayed || next in poisoned {
        if failure.None? { failure := Some(next); }
        return;
      }
      if next in group.tu.raises && next !in fired {
        fired := fired + {next};
        invalid := invalid + SetAt(group.tu.invalidated, next);
        failedFunctions := failedFunctions + SetAt(group.tu.reported, next);
        if failure.None? { failure := Some(next); }
        return;
      }
      if next in invalid {
        if failure.None? { failure := Some(next); }
        return;
      }
      if next !in group.tu.definition { return; }
      var target := group.tu.definition[next];
      failure := ParseSkipped(target, failure);
      if target in walked { return; }
      walked := walked + {target};
      walkedNow := walkedNow + {target};
      if target !in emptied {
        if target in group.tu.recovery {
          if failure.None? { failure := Some(target); }
          return;
        }
        pushed := ListAt(group.tu.callees, target);
      }
      pushed := pushed + ListAt(group.tu.implicitCallees, target);
      assert pushed == Pushes(group.tu, emptied, target);
    }

    method MaterializeReachable(roots: seq<Decl>) returns (failure: Option<Decl>)
      requires failedFunctions == {}
      modifies this
      ensures var p := Materialize(group.tu, old(Contents()), roots);
        Contents() == p.s && failure == p.failure && failedFunctions == p.reported
    {
      var work := roots;
      failure := None;
      var walkedNow: set<Decl> := {};
      while work != []
        invariant Drain(group.tu, Pass(old(Contents()), {}, None, {}), roots) ==
                  Drain(group.tu, Pass(Contents(), walkedNow, failure, failedFunctions), work)
        decreases group.tu.definition.Values - walked, |work|
      {
        var next := work[|work| - 1];
        work := work[..|work| - 1];
        var pushed;
        failure, walkedNow, pushed := VisitNext(next, failure, walkedNow);
        work := work + pushed;
      }
      if failure.Some? {
        walked := walked - walkedNow;
      }
    }

    method RevalidateFailedConstructors(fs: set<Decl>)
      modifies this
      ensures Contents() == Revalidate(group.tu, old(Contents()), fs)
    {
      var again := set f | f in fs && f in group.tu.constructors && f in invalid;
      invalid := invalid - again;
      emptied := emptied + again;
    }

    method CheckDemand(symbol: string) returns (verdict: int)
      modifies this
      ensures (verdict, Contents()) == Check(group, old(Contents()), symbol)
    {
      var name := if symbol in group.renamed then group.renamed[symbol] else symbol;
      if name !in group.bound { return 0; }
      var entity := group.bound[name];
      if entity.Variable? { return if entity.initializerFailed then -1 else 1; }
      var fd := entity.fd;
      if fd in poisoned {
        RevalidateFailedConstructors({fd});
        return -1;
      }
      failedFunctions := {};
      var failure := MaterializeReachable([fd]);
      if failure.None? { return 1; }
      poisoned := poisoned + failedFunctions + {fd};
      RevalidateFailedConstructors(failedFunctions + {fd});
      return -1;
    }
  }
}
