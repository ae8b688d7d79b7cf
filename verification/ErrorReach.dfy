/**
 The extractor's scan for functions whose emission would reach an error-bearing body
 (`ErrorReachScan`): a memoised depth-first search over the call graph with a depth cap,
 whose memo survives from one query to the next.
 */
module ErrorReach {
  import opened Wrappers
  import opened Reachability

  datatype FunctionDecl = FunctionDecl(id: nat)

  const DEPTH_CAP: nat := 64

  /**
   What the scan asks clang about: the definition behind a redeclaration (absent: the declaration
   itself), the callees a body spells in visiting order (None for an indirect call), and the
   definitions that are invalid, poisoned or touch an invalid record in their own body.
   */
  datatype CallGraph = CallGraph(
    definitions: map<FunctionDecl, FunctionDecl>,
    callees: map<FunctionDecl, seq<Option<FunctionDecl>>>,
    ownError: set<FunctionDecl>)
  {
    function DefinitionOf(fd: FunctionDecl): FunctionDecl {
      if fd in definitions then definitions[fd] else fd
    }

    function Callees(def: FunctionDecl): seq<Option<FunctionDecl>> {
      if def in callees then callees[def] else []
    }

    /** A declaration is its definition's, or its own when it has none. */
    ghost predicate Declares(fd: FunctionDecl, def: FunctionDecl) {
      if fd in definitions then def == definitions[fd] else def == fd
    }

    /** A definition is its own definition. */
    ghost predicate Valid() {
      forall fd, def | Declares(fd, def) :: Declares(def, def)
    }

    /** Calls between definitions. */
    ghost function Calls(): Graph<FunctionDecl> {
      map def | def in callees ::
        set c | c in callees[def] && c.Some? :: if c.value in definitions then definitions[c.value] else c.value
    }

    ghost predicate ReachesError(def: FunctionDecl) {
      exists e :: e in ownError && Reaches(Calls(), def, e)
    }
  }

  type Memo = map<FunctionDecl, bool>

  datatype Answer = Answer(bad: bool, memo: Memo)

  /** One query: the verdict on fd at the given depth, and the memo it leaves. */
  function Reach(tu: CallGraph, memo: Memo, fd: Option<FunctionDecl>, depth: nat): Answer
    decreases DEPTH_CAP + 1 - depth, 0
  {
    if fd.None? then Answer(false, memo)
    else if depth > DEPTH_CAP then Answer(true, memo)
    else
      var def := tu.DefinitionOf(fd.value);
      if def in memo then Answer(memo[def], memo)
      else if def in tu.ownError then Answer(true, memo[def := true])
      else
        var r := ReachAny(tu, memo[def := false], def, tu.Callees(def), depth + 1);
        Answer(r.bad, r.memo[def := r.bad])
  }

  /** Whether some callee, other than the caller itself, is bad; the scan stops at the first. */
  function ReachAny(tu: CallGraph, memo: Memo, caller: FunctionDecl,
                    callees: seq<Option<FunctionDecl>>, depth: nat): Answer
    requires depth <= DEPTH_CAP + 1
    decreases DEPTH_CAP + 1 - depth, 1 + |callees|
  {
    if callees == [] then Answer(false, memo)
    else if callees[0].None? || callees[0].value == caller then
      ReachAny(tu, memo, caller, callees[1..], depth)
    else
      var r := Reach(tu, memo, callees[0], depth);
      if r.bad then r else ReachAny(tu, r.memo, caller, callees[1..], depth)
  }

  // ---------------------------------------------------------------------------------------------
  // A false answer from a clean memo is right, on every graph
  // ---------------------------------------------------------------------------------------------

  ghost predicate Clean(memo: Memo, n: FunctionDecl) {
    n in memo && !memo[n]
  }

  /** Every finished clean entry has no error of its own and only clean successors. */
  ghost predicate CleanClosed(tu: CallGraph, memo: Memo, walking: set<FunctionDecl>) {
    forall n | Clean(memo, n) && n !in walking ::
      n !in tu.ownError && forall m | m in Successors(tu.Calls(), n) :: Clean(memo, m)
  }

  /** An entry of the earlier memo keeps its value. */
  ghost predicate Keeps(before: Memo, after: Memo) {
    forall n | n in before :: n in after && after[n] == before[n]
  }

  lemma DefinitionIs(tu: CallGraph, fd: FunctionDecl)
    requires tu.Valid()
    ensures var def := tu.DefinitionOf(fd); tu.Declares(fd, def) && tu.DefinitionOf(def) == def
  {
    assert tu.Declares(fd, tu.DefinitionOf(fd));
  }

  lemma CalleesAreCalled(tu: CallGraph, def: FunctionDecl)
    ensures forall c | c in tu.Callees(def) && c.Some? :: tu.DefinitionOf(c.value) in Successors(tu.Calls(), def)
    ensures forall m | m in Successors(tu.Calls(), def) ::
      exists c :: c in tu.Callees(def) && c.Some? && tu.DefinitionOf(c.value) == m
  {}

  lemma {:induction false} FalseRunStaysClosed(tu: CallGraph, memo: Memo, walking: set<FunctionDecl>,
                                               fd: FunctionDecl, depth: nat)
    requires tu.Valid() && CleanClosed(tu, memo, walking)
    requires !Reach(tu, memo, Some(fd), depth).bad
    ensures var after := Reach(tu, memo, Some(fd), depth).memo;
      CleanClosed(tu, after, walking) && Keeps(memo, after) && Clean(after, tu.DefinitionOf(fd))
    decreases DEPTH_CAP + 1 - depth, 0
  {
    var def := tu.DefinitionOf(fd);
    DefinitionIs(tu, fd);
    if def !in memo {
      FalseRunOverCallees(tu, memo[def := false], walking + {def}, def, tu.Callees(def), depth + 1);
    }
  }

  lemma {:induction false} FalseRunOverCallees(tu: CallGraph, memo: Memo, walking: set<FunctionDecl>,
                                               caller: FunctionDecl, callees: seq<Option<FunctionDecl>>, depth: nat)
    requires tu.Valid() && CleanClosed(tu, memo, walking) && depth <= DEPTH_CAP + 1
    requires Clean(memo, caller) && tu.DefinitionOf(caller) == caller
    requires !ReachAny(tu, memo, caller, callees, depth).bad
    ensures var after := ReachAny(tu, memo, caller, callees, depth).memo;
      CleanClosed(tu, after, walking) && Keeps(memo, after) &&
      forall c | c in callees && c.Some? :: Clean(after, tu.DefinitionOf(c.value))
    decreases DEPTH_CAP + 1 - depth, 1 + |callees|
  {
    if callees != [] {
      if callees[0].None? || callees[0].value == caller {
        FalseRunOverCallees(tu, memo, walking, caller, callees[1..], depth);
      } else {
        var r := Reach(tu, memo, callees[0], depth);
        FalseRunStaysClosed(tu, memo, walking, callees[0].value, depth);
        FalseRunOverCallees(tu, r.memo, walking, caller, callees[1..], depth);
      }
      assert forall c | c in callees :: c == callees[0] || c in callees[1..];
    }
  }

  /** In a clean-closed memo with nothing in progress, a clean entry reaches no error. */
  lemma CleanEntryReachesNoError(tu: CallGraph, memo: Memo, n: FunctionDecl)
    requires CleanClosed(tu, memo, {}) && Clean(memo, n)
    ensures !tu.ReachesError(n)
  {
    var clean := set m | m in memo && !memo[m];
    forall e | Reaches(tu.Calls(), n, e)
      ensures e !in tu.ownError
    {
      ClosedKeepsWalks(tu.Calls(), clean, n, e);
    }
  }

  /** A false answer to a query on an empty memo is right, cycles and depth cap notwithstanding. */
  lemma FalseAnswerIsRight(tu: CallGraph, fd: FunctionDecl)
    requires tu.Valid() && !Reach(tu, map[], Some(fd), 0).bad
    ensures forall def | tu.Declares(fd, def) :: !tu.ReachesError(def)
  {
    FalseRunStaysClosed(tu, map[], {}, fd, 0);
    CleanEntryReachesNoError(tu, Reach(tu, map[], Some(fd), 0).memo, tu.DefinitionOf(fd));
  }

  // ---------------------------------------------------------------------------------------------
  // A true answer is justified: an error, or a call chain past the cap
  // ---------------------------------------------------------------------------------------------

  ghost predicate Distinct(s: seq<FunctionDecl>) {
    forall i, j | 0 <= i < j < |s| :: s[i] != s[j]
  }

  /** The end of a call chain longer than the cap that repeats no function before its last one. */
  ghost predicate PastCap(tu: CallGraph, n: FunctionDecl) {
    exists w :: IsWalk(tu.Calls(), w) && |w| == DEPTH_CAP + 2 && w[|w| - 1] == n && Distinct(w[..DEPTH_CAP + 1])
  }

  ghost predicate Justified(tu: CallGraph, n: FunctionDecl) {
    exists t :: Reaches(tu.Calls(), n, t) && (t in tu.ownError || PastCap(tu, t))
  }

  ghost predicate TrueJustified(tu: CallGraph, memo: Memo) {
    forall n | n in memo && memo[n] :: Justified(tu, n)
  }

  /** The definitions being walked, outermost first: a chain of distinct entries of the memo. */
  ghost predicate Stack(tu: CallGraph, memo: Memo, stack: seq<FunctionDecl>) {
    Distinct(stack) && (forall n | n in stack :: n in memo) &&
    forall i | 0 <= i < |stack| - 1 :: stack[i + 1] in Successors(tu.Calls(), stack[i])
  }

  lemma {:induction false} TrueRunJustified(tu: CallGraph, memo: Memo, stack: seq<FunctionDecl>, fd: FunctionDecl)
    requires tu.Valid() && TrueJustified(tu, memo) && Stack(tu, memo, stack) && |stack| <= DEPTH_CAP + 1
    requires stack != [] ==> tu.DefinitionOf(fd) in Successors(tu.Calls(), stack[|stack| - 1])
    ensures var r := Reach(tu, memo, Some(fd), |stack|);
      && TrueJustified(tu, r.memo) && memo.Keys <= r.memo.Keys
      && (r.bad ==> tu.Declares(fd, tu.DefinitionOf(fd)) && Justified(tu, tu.DefinitionOf(fd)))
    decreases DEPTH_CAP + 1 - |stack|, 0
  {
    var def := tu.DefinitionOf(fd);
    DefinitionIs(tu, fd);
    ReachesSelf(tu.Calls(), def);
    if |stack| > DEPTH_CAP {
      var w := stack + [def];
      assert w[..DEPTH_CAP + 1] == stack;
      assert IsWalk(tu.Calls(), w);
      assert PastCap(tu, def);
    } else if def !in memo && def !in tu.ownError {
      assert Stack(tu, memo[def := false], stack + [def]);
      CalleesAreCalled(tu, def);
      TrueRunOverCallees(tu, memo[def := false], stack + [def], tu.Callees(def));
    }
  }

  lemma {:induction false} TrueRunOverCallees(tu: CallGraph, memo: Memo, stack: seq<FunctionDecl>,
                                              callees: seq<Option<FunctionDecl>>)
    requires tu.Valid() && TrueJustified(tu, memo) && Stack(tu, memo, stack) && 0 < |stack| <= DEPTH_CAP + 1
    requires forall c | c in callees && c.Some? ::
      tu.DefinitionOf(c.value) in Successors(tu.Calls(), stack[|stack| - 1])
    ensures var r := ReachAny(tu, memo, stack[|stack| - 1], callees, |stack|);
      TrueJustified(tu, r.memo) && memo.Keys <= r.memo.Keys && (r.bad ==> Justified(tu, stack[|stack| - 1]))
    decreases DEPTH_CAP + 1 - |stack|, 1 + |callees|
  {
    var caller := stack[|stack| - 1];
    if callees != [] {
      if callees[0].None? || callees[0].value == caller {
        TrueRunOverCallees(tu, memo, stack, callees[1..]);
      } else {
        assert callees[0] in callees;
        var r := Reach(tu, memo, callees[0], |stack|);
        TrueRunJustified(tu, memo, stack, callees[0].value);
        if r.bad {
          var m := tu.DefinitionOf(callees[0].value);
          var t :| Reaches(tu.Calls(), m, t) && (t in tu.ownError || PastCap(tu, t));
          StepReaches(tu.Calls(), caller, m, t);
        } else {
          TrueRunOverCallees(tu, r.memo, stack, callees[1..]);
        }
      }
    }
  }

  // ---------------------------------------------------------------------------------------------
  // Runs of queries against one memo
  // ---------------------------------------------------------------------------------------------

  /** The memo after a sequence of root queries. */
  function Run(tu: CallGraph, memo: Memo, queries: seq<FunctionDecl>): Memo
    decreases |queries|
  {
    if queries == [] then memo
    else Run(tu, Reach(tu, memo, Some(queries[0]), 0).memo, queries[1..])
  }

  /** Every true entry left by any run of queries is justified. */
  lemma {:induction false} RunJustified(tu: CallGraph, memo: Memo, queries: seq<FunctionDecl>)
    requires tu.Valid() && TrueJustified(tu, memo)
    ensures TrueJustified(tu, Run(tu, memo, queries))
    decreases |queries|
  {
    if queries != [] {
      TrueRunJustified(tu, memo, [], queries[0]);
      RunJustified(tu, Reach(tu, memo, Some(queries[0]), 0).memo, queries[1..]);
    }
  }

  /** Every finished clean entry has no error of its own, and every successor of it has an entry. */
  ghost predicate Visited(tu: CallGraph, memo: Memo, walking: set<FunctionDecl>) {
    forall n | Clean(memo, n) && n !in walking ::
      n !in tu.ownError && Successors(tu.Calls(), n) <= memo.Keys
  }

  lemma {:induction false} ReachVisits(tu: CallGraph, memo: Memo, walking: set<FunctionDecl>,
                                       fd: FunctionDecl, depth: nat)
    requires tu.Valid() && Visited(tu, memo, walking)
    ensures var r := Reach(tu, memo, Some(fd), depth);
      Visited(tu, r.memo, walking) && memo.Keys <= r.memo.Keys && (!r.bad ==> tu.DefinitionOf(fd) in r.memo)
    decreases DEPTH_CAP + 1 - depth, 0
  {
    var def := tu.DefinitionOf(fd);
    DefinitionIs(tu, fd);
    if depth <= DEPTH_CAP && def !in memo && def !in tu.ownError {
      ReachAnyVisits(tu, memo[def := false], walking + {def}, def, tu.Callees(def), depth + 1);
    }
  }

  lemma {:induction false} ReachAnyVisits(tu: CallGraph, memo: Memo, walking: set<FunctionDecl>,
                                          caller: FunctionDecl, callees: seq<Option<FunctionDecl>>, depth: nat)
    requires tu.Valid() && Visited(tu, memo, walking) && depth <= DEPTH_CAP + 1
    requires caller in memo && tu.DefinitionOf(caller) == caller
    ensures var r := ReachAny(tu, memo, caller, callees, depth);
      Visited(tu, r.memo, walking) && memo.Keys <= r.memo.Keys &&
      (!r.bad ==> forall c | c in callees && c.Some? :: tu.DefinitionOf(c.value) in r.memo)
    decreases DEPTH_CAP + 1 - depth, 1 + |callees|
  {
    if callees != [] {
      if callees[0].None? || callees[0].value == caller {
        ReachAnyVisits(tu, memo, walking, caller, callees[1..], depth);
      } else {
        var r := Reach(tu, memo, callees[0], depth);
        ReachVisits(tu, memo, walking, callees[0].value, depth);
        if !r.bad {
          ReachAnyVisits(tu, r.memo, walking, caller, callees[1..], depth);
        }
      }
      assert forall c | c in callees :: c == callees[0] || c in callees[1..];
    }
  }

  lemma {:induction false} RunVisits(tu: CallGraph, memo: Memo, queries: seq<FunctionDecl>)
    requires tu.Valid() && Visited(tu, memo, {})
    ensures Visited(tu, Run(tu, memo, queries), {})
    decreases |queries|
  {
    if queries != [] {
      ReachVisits(tu, memo, {}, queries[0], 0);
      RunVisits(tu, Reach(tu, memo, Some(queries[0]), 0).memo, queries[1..]);
    }
  }

  /** No clean entry calls a function recorded as bad: what a caller can check before trusting the memo. */
  ghost predicate NoCleanEntryCallsBad(tu: CallGraph, memo: Memo) {
    forall n, m | Clean(memo, n) && m in Successors(tu.Calls(), n) && m in memo :: !memo[m]
  }

  /**
   After any run of queries the clean entries are right if no clean entry calls a recorded bad
   one; when no chain passes the cap, they are right only then.
   */
  lemma CleanEntriesRightIff(tu: CallGraph, queries: seq<FunctionDecl>)
    requires tu.Valid()
    ensures var memo := Run(tu, map[], queries);
      && (NoCleanEntryCallsBad(tu, memo) ==> forall n | Clean(memo, n) :: !tu.ReachesError(n))
      && ((forall t :: !PastCap(tu, t)) ==>
           ((forall n | Clean(memo, n) :: !tu.ReachesError(n)) <==> NoCleanEntryCallsBad(tu, memo)))
  {
    var memo := Run(tu, map[], queries);
    RunJustified(tu, map[], queries);
    RunVisits(tu, map[], queries);
    if NoCleanEntryCallsBad(tu, memo) {
      forall n | Clean(memo, n)
        ensures !tu.ReachesError(n)
      {
        CleanEntryReachesNoError(tu, memo, n);
      }
    }
    if forall t :: !PastCap(tu, t) {
      forall n, m | Clean(memo, n) && m in Successors(tu.Calls(), n) && m in memo && memo[m]
        ensures tu.ReachesError(n)
      {
        assert Justified(tu, m);
        var t :| Reaches(tu.Calls(), m, t) && (t in tu.ownError || PastCap(tu, t));
        StepReaches(tu.Calls(), n, m, t);
      }
    }
  }

  /**
   A wrong clean entry: A calls B then C, B calls A, C is in error. Querying A walks B while A
   still counts as clean, and B's entry stays clean although B reaches C.
   */
  lemma InProgressEntryMisleads()
    ensures var a, b, c := FunctionDecl(0), FunctionDecl(1), FunctionDecl(2);
      var tu := CallGraph(map[], map[a := [Some(b), Some(c)], b := [Some(a)]], {c});
      tu.Valid() && Clean(Run(tu, map[], [a]), b) && tu.ReachesError(b) &&
      !Reach(tu, Run(tu, map[], [a]), Some(b), 0).bad
  {
    var a, b, c := FunctionDecl(0), FunctionDecl(1), FunctionDecl(2);
    var tu := CallGraph(map[], map[a := [Some(b), Some(c)], b := [Some(a)]], {c});
    assert tu.Callees(a) == [Some(b), Some(c)] && [Some(b), Some(c)][1..] == [Some(c)];
    assert tu.Callees(b) == [Some(a)] && [Some(a)][1..] == [];
    var m0: Memo := map[a := false];
    var m1: Memo := map[a := false, b := false];
    assert ReachAny(tu, m1, b, [], 2) == Answer(false, m1);
    assert Reach(tu, m1, Some(a), 2) == Answer(false, m1);
    assert ReachAny(tu, m1, b, [Some(a)], 2) == Answer(false, m1);
    assert m0[b := false] == m1 && m1[b := false] == m1;
    assert Reach(tu, m0, Some(b), 1) == Answer(false, m1);
    assert Reach(tu, m1, Some(c), 1) == Answer(true, m1[c := true]);
    assert ReachAny(tu, m1, a, [Some(c)], 1) == Answer(true, m1[c := true]);
    assert ReachAny(tu, m0, a, [Some(b), Some(c)], 1) == Answer(true, m1[c := true]);
    assert Run(tu, map[], [a]) == m1[c := true][a := true];
    assert Some(b) in tu.callees[a] && Some(c) in tu.callees[a] && Some(a) in tu.callees[b];
    ReachesSelf(tu.Calls(), c);
    StepReaches(tu.Calls(), a, c, c);
    StepReaches(tu.Calls(), b, a, c);
  }

  // ---------------------------------------------------------------------------------------------
  // Acyclic call graphs (direct recursion allowed): clean entries are always right
  // ---------------------------------------------------------------------------------------------

  function Rank(rank: map<FunctionDecl, nat>, n: FunctionDecl): nat {
    if n in rank then rank[n] else 0
  }

  /** Calls go down in rank, except those a function makes to itself. */
  ghost predicate Acyclic(tu: CallGraph, rank: map<FunctionDecl, nat>) {
    forall n, m | m in Successors(tu.Calls(), n) :: m == n || Rank(rank, m) < Rank(rank, n)
  }

  /** Finished clean entries have no error and call only themselves and finished clean entries. */
  ghost predicate Settled(tu: CallGraph, memo: Memo, walking: set<FunctionDecl>) {
    forall n | Clean(memo, n) && n !in walking ::
      n !in tu.ownError &&
      forall m | m in Successors(tu.Calls(), n) && m != n :: Clean(memo, m) && m !in walking
  }

  lemma {:induction false} AcyclicReachSettles(tu: CallGraph, rank: map<FunctionDecl, nat>, memo: Memo,
                                               walking: set<FunctionDecl>, fd: FunctionDecl, depth: nat)
    requires tu.Valid() && Acyclic(tu, rank) && Settled(tu, memo, walking) && walking <= memo.Keys
    requires forall g | g in walking :: Rank(rank, tu.DefinitionOf(fd)) < Rank(rank, g)
    ensures var r := Reach(tu, memo, Some(fd), depth);
      Settled(tu, r.memo, walking) && Keeps(memo, r.memo) && (!r.bad ==> Clean(r.memo, tu.DefinitionOf(fd)))
    decreases DEPTH_CAP + 1 - depth, 0
  {
    hide CallGraph.Calls, CallGraph.DefinitionOf, CallGraph.Valid;
    var def := tu.DefinitionOf(fd);
    DefinitionIs(tu, fd);
    if depth <= DEPTH_CAP && def !in memo && def !in tu.ownError {
      assert Settled(tu, memo[def := false], walking + {def});
      CalleesAreCalled(tu, def);
      AcyclicReachAnySettles(tu, rank, memo[def := false], walking + {def}, def, tu.Callees(def), depth + 1);
    }
  }

  lemma {:induction false} AcyclicReachAnySettles(tu: CallGraph, rank: map<FunctionDecl, nat>, memo: Memo,
                                                  walking: set<FunctionDecl>, caller: FunctionDecl,
                                                  callees: seq<Option<FunctionDecl>>, depth: nat)
    requires tu.Valid() && Acyclic(tu, rank) && Settled(tu, memo, walking) && walking <= memo.Keys
    requires depth <= DEPTH_CAP + 1 && tu.DefinitionOf(caller) == caller && caller in walking && Clean(memo, caller)
    requires forall g | g in walking :: Rank(rank, caller) <= Rank(rank, g)
    requires forall c | c in callees && c.Some? :: tu.DefinitionOf(c.value) in Successors(tu.Calls(), caller)
    ensures var r := ReachAny(tu, memo, caller, callees, depth);
      Settled(tu, r.memo, walking) && Keeps(memo, r.memo) &&
      (!r.bad ==> forall c | c in callees && c.Some? :: Clean(r.memo, tu.DefinitionOf(c.value)))
    decreases DEPTH_CAP + 1 - depth, 1 + |callees|
  {
    if callees != [] {
      if callees[0].None? || callees[0].value == caller {
        AcyclicReachAnySettles(tu, rank, memo, walking, caller, callees[1..], depth);
      } else {
        var r := Reach(tu, memo, callees[0], depth);
        assert callees[0] in callees;
        if tu.DefinitionOf(callees[0].value) == caller {
          assert r.memo == memo;
        } else {
          AcyclicReachSettles(tu, rank, memo, walking, callees[0].value, depth);
        }
        if !r.bad {
          AcyclicReachAnySettles(tu, rank, r.memo, walking, caller, callees[1..], depth);
        }
      }
      assert forall c | c in callees :: c == callees[0] || c in callees[1..];
    }
  }

  /** On an acyclic graph a clean entry is right after any run of queries. */
  lemma {:induction false} AcyclicRunIsRight(tu: CallGraph, rank: map<FunctionDecl, nat>, memo: Memo,
                                             queries: seq<FunctionDecl>)
    requires tu.Valid() && Acyclic(tu, rank) && Settled(tu, memo, {})
    ensures Settled(tu, Run(tu, memo, queries), {})
    ensures forall n | Clean(Run(tu, memo, queries), n) :: !tu.ReachesError(n)
    decreases |queries|
  {
    if queries != [] {
      AcyclicReachSettles(tu, rank, memo, {}, queries[0], 0);
      AcyclicRunIsRight(tu, rank, Reach(tu, memo, Some(queries[0]), 0).memo, queries[1..]);
    } else {
      forall n | Clean(memo, n)
        ensures !tu.ReachesError(n)
      {
        CleanEntryReachesNoError(tu, memo, n);
      }
    }
  }

  // ---------------------------------------------------------------------------------------------
  // The scan object
  // ---------------------------------------------------------------------------------------------

  class ErrorReachScan {
    const tu: CallGraph
    const active: bool      // some parse error or poisoned function exists
    var memo: Memo

    constructor (tu: CallGraph, active: bool)
      ensures this.tu == tu && this.active == active && memo == map[]
    {
      this.tu := tu;
      this.active := active;
      memo := map[];
    }

    method Reaches(fd: Option<FunctionDecl>, depth: nat) returns (bad: bool)
      modifies this`memo
      ensures !active ==> !bad && memo == old(memo)
      ensures active ==> Answer(bad, memo) == Reach(tu, old(memo), fd, depth)
      decreases DEPTH_CAP + 1 - depth
    {
      if fd.None? || !active { return false; }
      // Past the cap the answer is a refusal, not "clean".
      if depth > DEPTH_CAP { return true; }
      var def := tu.DefinitionOf(fd.value);
      if def in memo { return memo[def]; }
      memo := memo[def := false];
      if def in tu.ownError {
        memo := memo[def := true];
        return true;
      }
      bad := false;
      var callees := tu.Callees(def);
      for i := 0 to |callees|
        invariant bad ==> Answer(bad, memo) == ReachAny(tu, old(memo)[def := false], def, callees, depth + 1)
        invariant !bad ==>
          ReachAny(tu, memo, def, callees[i..], depth + 1) ==
            ReachAny(tu, old(memo)[def := false], def, callees, depth + 1)
      {
        if bad { break; }
        if callees[i].None? || callees[i].value == def { continue; }
        bad := Reaches(callees[i], depth + 1);
      }
      memo := memo[def := bad];
    }
  }
}
