/** Walks and reachability in a finite directed graph, shared by the call-graph and include-graph models. */
module Reachability {

  /** The successors of each node; a node without an entry has none. */
  type Graph<T> = map<T, set<T>>

  function Successors<T(==)>(g: Graph<T>, n: T): set<T> {
    if n in g then g[n] else {}
  }

  /** A non-empty sequence of nodes in which each node is a successor of the one before. */
  ghost predicate IsWalk<T>(g: Graph<T>, w: seq<T>) {
    |w| > 0 && forall i | 0 <= i < |w| - 1 :: w[i + 1] in Successors(g, w[i])
  }

  ghost predicate WalkBetween<T>(g: Graph<T>, a: T, b: T, w: seq<T>) {
    IsWalk(g, w) && w[0] == a && w[|w| - 1] == b
  }

  ghost predicate Reaches<T(!new)>(g: Graph<T>, a: T, b: T) {
    exists w :: WalkBetween(g, a, b, w)
  }

  /** Every successor of a member of s is a member of s. */
  ghost predicate Closed<T>(g: Graph<T>, s: set<T>) {
    forall n | n in s :: Successors(g, n) <= s
  }

  lemma ReachesSelf<T(!new)>(g: Graph<T>, a: T)
    ensures Reaches(g, a, a)
  {
    assert WalkBetween(g, a, a, [a]);
  }

  lemma StepReaches<T(!new)>(g: Graph<T>, a: T, b: T, c: T)
    requires b in Successors(g, a) && Reaches(g, b, c)
    ensures Reaches(g, a, c)
  {
    var w :| WalkBetween(g, b, c, w);
    var v := [a] + w;
    assert forall i | 0 < i < |v| - 1 :: v[i] == w[i - 1] && v[i + 1] == w[i];
    assert WalkBetween(g, a, c, v);
  }

  lemma ReachesStep<T(!new)>(g: Graph<T>, a: T, b: T, c: T)
    requires Reaches(g, a, b) && c in Successors(g, b)
    ensures Reaches(g, a, c)
  {
    var w :| WalkBetween(g, a, b, w);
    assert WalkBetween(g, a, c, w + [c]);
  }

  /** What is reachable from inside a closed set lies inside it. */
  lemma ClosedKeepsWalks<T(!new)>(g: Graph<T>, s: set<T>, a: T, b: T)
    requires Closed(g, s) && a in s && Reaches(g, a, b)
    ensures b in s
  {
    var w :| WalkBetween(g, a, b, w);
    for i := 0 to |w| - 1
      invariant w[i] in s
    {
      assert w[i + 1] in Successors(g, w[i]);
    }
  }

  function Targets<T(==)>(g: Graph<T>): set<T> {
    set n, m | n in g && m in g[n] :: m
  }

  /** The nodes reachable from s, computed by rounds. */
  function Saturate<T(==)>(g: Graph<T>, s: set<T>): set<T>
    decreases Targets(g) - s
  {
    var next := s + set n, m | n in s && n in g && m in g[n] :: m;
    if next == s then s
    else
      assert exists m :: m in next && m !in s && m in Targets(g);
      Saturate(g, next)
  }

  lemma {:induction false} SaturateCloses<T(!new)>(g: Graph<T>, s: set<T>)
    ensures s <= Saturate(g, s) && Closed(g, Saturate(g, s))
    decreases Targets(g) - s
  {
    var next := s + set n, m | n in s && n in g && m in g[n] :: m;
    if next == s {
      forall n, m | n in s && m in Successors(g, n)
        ensures m in s
      {
        assert m in next;
      }
    } else {
      assert exists m :: m in next && m !in s && m in Targets(g);
      SaturateCloses(g, next);
    }
  }

  lemma {:induction false} SaturateOnlyReaches<T(!new)>(g: Graph<T>, s: set<T>, m: T)
    requires m in Saturate(g, s)
    ensures exists n :: n in s && Reaches(g, n, m)
    decreases Targets(g) - s
  {
    var next := s + set n, m | n in s && n in g && m in g[n] :: m;
    if next == s {
      ReachesSelf(g, m);
    } else {
      assert exists m :: m in next && m !in s && m in Targets(g);
      SaturateOnlyReaches(g, next, m);
      var n :| n in next && Reaches(g, n, m);
      if n !in s {
        var k :| k in s && k in g && n in g[k];
        StepReaches(g, k, n, m);
      }
    }
  }

  /** Saturation is exactly reachability. */
  lemma SaturateIsReach<T(!new)>(g: Graph<T>, s: set<T>, m: T)
    ensures m in Saturate(g, s) <==> exists n :: n in s && Reaches(g, n, m)
  {
    SaturateCloses(g, s);
    if m in Saturate(g, s) {
      SaturateOnlyReaches(g, s, m);
    }
    if n :| n in s && Reaches(g, n, m) {
      ClosedKeepsWalks(g, Saturate(g, s), n, m);
    }
  }
}
