// Finite directed graphs given by their edges: paths, reachability and cycles.
module Graphs {
  type Edge = (int, int)

  ghost predicate IsPath(es: set<Edge>, p: seq<int>) {
    p != [] && forall k :: 0 <= k < |p| - 1 ==> (p[k], p[k + 1]) in es
  }

  ghost predicate IsPathFrom(es: set<Edge>, a: int, b: int, p: seq<int>) {
    IsPath(es, p) && p[0] == a && p[|p| - 1] == b
  }

  ghost predicate Reaches(es: set<Edge>, a: int, b: int) {
    exists p :: IsPathFrom(es, a, b, p)
  }

  /** A closed path: every node leads to the next, and the last one back to the first. */
  ghost predicate IsCycle(es: set<Edge>, c: seq<int>) {
    IsPath(es, c) && (c[|c| - 1], c[0]) in es
  }

  ghost predicate Acyclic(es: set<Edge>) {
    forall c :: !IsCycle(es, c)
  }

  ghost predicate OneParent(es: set<Edge>) {
    forall e, f :: e in es && f in es && e.1 == f.1 ==> e == f
  }

  ghost predicate OnCycle(es: set<Edge>, a: int) {
    exists b :: (a, b) in es && Reaches(es, b, a)
  }

  lemma ReachesSelf(es: set<Edge>, a: int)
    ensures Reaches(es, a, a)
  {
    assert IsPathFrom(es, a, a, [a]);
  }

  lemma ReachesThenEdge(es: set<Edge>, a: int, b: int, c: int)
    requires Reaches(es, a, b) && (b, c) in es
    ensures Reaches(es, a, c)
  {
    var p :| IsPathFrom(es, a, b, p);
    assert IsPathFrom(es, a, c, p + [c]);
  }

  lemma PathsJoin(es: set<Edge>, a: int, b: int, c: int, p: seq<int>, q: seq<int>)
    requires IsPathFrom(es, a, b, p) && IsPathFrom(es, b, c, q)
    ensures IsPathFrom(es, a, c, p + q[1..])
  {
    var r := p + q[1..];
    forall k | 0 <= k < |r| - 1 ensures (r[k], r[k + 1]) in es {
      if k == |p| - 1 {
        assert r[k] == q[0] && r[k + 1] == q[1];
      } else if k >= |p| {
        assert r[k] == q[k - |p| + 1] && r[k + 1] == q[k - |p| + 2];
      }
    }
  }

  lemma ReachesTransitive(es: set<Edge>, a: int, b: int, c: int)
    requires Reaches(es, a, b) && Reaches(es, b, c)
    ensures Reaches(es, a, c)
  {
    var p :| IsPathFrom(es, a, b, p);
    var q :| IsPathFrom(es, b, c, q);
    PathsJoin(es, a, b, c, p, q);
  }

  lemma EdgeReaches(es: set<Edge>, a: int, b: int)
    requires (a, b) in es
    ensures Reaches(es, a, b)
  {
    assert IsPathFrom(es, a, b, [a, b]);
  }

  lemma ReachesMore(es: set<Edge>, fs: set<Edge>, a: int, b: int)
    requires es <= fs && Reaches(es, a, b)
    ensures Reaches(fs, a, b)
  {
    var p :| IsPathFrom(es, a, b, p);
    assert IsPathFrom(fs, a, b, p);
  }

  /** A non-trivial path splits after its first edge. */
  lemma FirstEdge(es: set<Edge>, a: int, b: int) returns (c: int)
    requires Reaches(es, a, b) && a != b
    ensures (a, c) in es && Reaches(es, c, b)
  {
    var p :| IsPathFrom(es, a, b, p);
    c := p[1];
    assert IsPathFrom(es, c, b, p[1..]);
  }

  /** A non-trivial path splits before its last edge. */
  lemma LastEdge(es: set<Edge>, a: int, b: int) returns (c: int)
    requires Reaches(es, a, b) && a != b
    ensures Reaches(es, a, c) && (c, b) in es
  {
    var p :| IsPathFrom(es, a, b, p);
    c := p[|p| - 2];
    assert IsPathFrom(es, a, c, p[..|p| - 1]);
  }

  /** A set that every edge stays inside holds whatever its members reach. */
  lemma {:induction false} ClosedHoldsReached(es: set<Edge>, s: set<int>, p: seq<int>, a: int, b: int)
    requires a in s && IsPathFrom(es, a, b, p)
    requires forall e :: e in es && e.0 in s ==> e.1 in s
    ensures b in s
    decreases |p|
  {
    if |p| > 1 {
      assert IsPathFrom(es, a, p[|p| - 2], p[..|p| - 1]);
      ClosedHoldsReached(es, s, p[..|p| - 1], a, p[|p| - 2]);
      assert (p[|p| - 2], p[|p| - 1]) in es;
    }
  }

  // ---------------------------------------------------------------- cycles

  lemma PathReaches(es: set<Edge>, p: seq<int>, i: nat, j: nat)
    requires IsPath(es, p) && i <= j < |p|
    ensures Reaches(es, p[i], p[j])
  {
    assert IsPathFrom(es, p[i], p[j], p[i..j + 1]);
  }

  /** On a cycle, every node reaches every other. */
  lemma CycleConnects(es: set<Edge>, c: seq<int>, i: nat, j: nat)
    requires IsCycle(es, c) && i < |c| && j < |c|
    ensures Reaches(es, c[i], c[j])
  {
    if i <= j {
      PathReaches(es, c, i, j);
    } else {
      PathReaches(es, c, i, |c| - 1);
      ReachesThenEdge(es, c[i], c[|c| - 1], c[0]);
      PathReaches(es, c, 0, j);
      ReachesTransitive(es, c[i], c[0], c[j]);
    }
  }

  /** A graph has a cycle exactly when some edge can be travelled back. */
  lemma CyclicExact(es: set<Edge>)
    ensures !Acyclic(es) <==> exists e :: e in es && Reaches(es, e.1, e.0)
  {
    if c :| IsCycle(es, c) {
      PathReaches(es, c, 0, |c| - 1);
      assert (c[|c| - 1], c[0]) in es;
    }
    if e :| e in es && Reaches(es, e.1, e.0) {
      var p :| IsPathFrom(es, e.1, e.0, p);
      assert IsCycle(es, p);
    }
  }

  lemma OnCycleNotAcyclic(es: set<Edge>, a: int)
    requires OnCycle(es, a)
    ensures !Acyclic(es)
  {
    var b :| (a, b) in es && Reaches(es, b, a);
    CyclicExact(es);
    assert (a, b).1 == b;
  }

  lemma FewerEdgesAcyclic(es: set<Edge>, fs: set<Edge>)
    requires fs <= es && Acyclic(es)
    ensures Acyclic(fs)
  {
    forall c ensures !IsCycle(fs, c) {
      assert IsCycle(fs, c) ==> IsCycle(es, c);
    }
  }

  /** Edges that always lead to a lower rank make no cycle. */
  lemma RankedAcyclic(es: set<Edge>, rank: map<int, nat>)
    requires forall e :: e in es ==> e.0 in rank && e.1 in rank && rank[e.1] < rank[e.0]
    ensures Acyclic(es)
  {
    forall c ensures !IsCycle(es, c) {
      if IsCycle(es, c) {
        RankFalls(es, rank, c, |c| - 1);
        assert false;
      }
    }
  }

  lemma {:induction false} RankFalls(es: set<Edge>, rank: map<int, nat>, p: seq<int>, k: nat)
    requires forall e :: e in es ==> e.0 in rank && e.1 in rank && rank[e.1] < rank[e.0]
    requires IsPath(es, p) && k < |p| && p[0] in rank
    ensures p[k] in rank && rank[p[k]] <= rank[p[0]]
  {
    if k > 0 {
      RankFalls(es, rank, p, k - 1);
      assert (p[k - 1], p[k]) in es;
    }
  }

  /** A path through a graph with one more edge either avoids that edge or runs up to it and on from it. */
  lemma {:induction false} ReachesWithEdge(es: set<Edge>, u: int, v: int, a: int, b: int, p: seq<int>)
    requires IsPathFrom(es + {(u, v)}, a, b, p)
    ensures Reaches(es, a, b) || (Reaches(es, a, u) && Reaches(es, v, b))
    decreases |p|
  {
    if |p| == 1 {
      ReachesSelf(es, a);
    } else {
      var q, m := p[..|p| - 1], p[|p| - 2];
      assert IsPathFrom(es + {(u, v)}, a, m, q);
      assert (m, b) in es + {(u, v)} by {
        assert (p[|p| - 2], p[|p| - 2 + 1]) in es + {(u, v)};
      }
      ReachesWithEdge(es, u, v, a, m, q);
      if (m, b) in es {
        if Reaches(es, a, m) {
          ReachesThenEdge(es, a, m, b);
        } else {
          ReachesThenEdge(es, v, m, b);
        }
      } else {
        ReachesSelf(es, v);
      }
    }
  }

  /** One more edge u -> v closes a cycle exactly when v already reaches u. */
  lemma AddEdgeAcyclic(es: set<Edge>, u: int, v: int)
    requires Acyclic(es)
    ensures Acyclic(es + {(u, v)}) <==> !Reaches(es, v, u)
  {
    var fs := es + {(u, v)};
    CyclicExact(es);
    CyclicExact(fs);
    if Reaches(es, v, u) {
      ReachesMore(es, fs, v, u);
      assert (u, v) in fs;
    } else if e :| e in fs && Reaches(fs, e.1, e.0) {
      var p :| IsPathFrom(fs, e.1, e.0, p);
      ReachesWithEdge(es, u, v, e.1, e.0, p);
      if e in es && !Reaches(es, e.1, e.0) {
        ReachesThenEdge(es, v, e.0, e.1);
        ReachesTransitive(es, v, e.1, u);
      }
      assert false;
    }
  }

  // ---------------------------------------------------------------- at most one parent

  /** Of two nodes that reach a common one, the first reaches the second or the other way round. */
  lemma {:induction false} OneParentOrdered(es: set<Edge>, a: int, b: int, g: int, p: seq<int>)
    requires OneParent(es) && IsPathFrom(es, a, g, p) && Reaches(es, b, g)
    ensures Reaches(es, a, b) || Reaches(es, b, a)
    decreases |p|
  {
    if |p| > 1 && b != g {
      var m := LastEdge(es, b, g);
      assert (p[|p| - 2], p[|p| - 2 + 1]) in es;
      assert p[|p| - 2] == m;
      assert IsPathFrom(es, a, m, p[..|p| - 1]);
      OneParentOrdered(es, a, b, m, p[..|p| - 1]);
    }
  }

  /** A set that is only entered from inside holds whatever reaches its members. */
  lemma {:induction false} ClosedHoldsReaching(es: set<Edge>, s: set<int>, p: seq<int>, a: int, b: int)
    requires b in s && IsPathFrom(es, a, b, p)
    requires forall e :: e in es && e.1 in s ==> e.0 in s
    ensures a in s
    decreases |p|
  {
    if |p| > 1 {
      assert (p[0], p[0 + 1]) in es;
      assert IsPathFrom(es, p[1], b, p[1..]);
      ClosedHoldsReaching(es, s, p[1..], p[1], b);
    }
  }

  /** Two cycles that share a node go through the same nodes. */
  lemma OneParentCyclesMeet(es: set<Edge>, c: seq<int>, d: seq<int>, i: nat, j: nat)
    requires OneParent(es) && IsCycle(es, c) && IsCycle(es, d)
    requires i < |c| && j < |d| && c[i] == d[j]
    ensures forall x :: x in c ==> x in d
  {
    var s := set x | x in d;
    forall e | e in es && e.1 in s ensures e.0 in s {
      var k :| 0 <= k < |d| && d[k] == e.1;
      CyclePredecessor(es, d, k, e);
    }
    forall k | 0 <= k < |c| ensures c[k] in d {
      CycleConnects(es, c, k, i);
      var p :| IsPathFrom(es, c[k], c[i], p);
      ClosedHoldsReaching(es, s, p, c[k], c[i]);
    }
  }

  lemma CyclePredecessor(es: set<Edge>, d: seq<int>, k: nat, e: Edge)
    requires OneParent(es) && IsCycle(es, d) && k < |d| && e in es && e.1 == d[k]
    ensures e.0 in d
  {
    var f := if k == 0 then (d[|d| - 1], d[0]) else (d[k - 1], d[k - 1 + 1]);
    assert f in es;
  }

  ghost predicate SameLoop(es: set<Edge>, a: int, b: int) {
    OnCycle(es, a) && Reaches(es, a, b) && Reaches(es, b, a)
  }

  /** With at most one parent per node, whatever leads onto a loop is on it. */
  lemma LoopHasParents(es: set<Edge>, a: int, e: Edge)
    requires OneParent(es) && e in es && SameLoop(es, a, e.1)
    ensures SameLoop(es, a, e.0)
  {
    var x := e.1;
    EdgeReaches(es, e.0, x);
    ReachesTransitive(es, e.0, x, a);
    var start := a;
    ReachesSelf(es, a);
    if x == a {
      var b :| (a, b) in es && Reaches(es, b, a);
      EdgeReaches(es, a, b);
      start := b;
    }
    if start == x {
      assert (x, x) in es;
      assert (e.0, x) in es;
    } else {
      var m := LastEdge(es, start, x);
      assert (m, x) in es && (e.0, x) in es;
      ReachesTransitive(es, a, start, m);
    }
  }

  lemma {:induction false} LoopEntered(es: set<Edge>, a: int, g: int, x: int, p: seq<int>)
    requires OneParent(es) && IsPathFrom(es, g, x, p) && SameLoop(es, a, x)
    ensures SameLoop(es, a, g)
    decreases |p|
  {
    if |p| > 1 {
      var m := p[|p| - 2];
      assert (p[|p| - 2], p[|p| - 2 + 1]) in es;
      LoopHasParents(es, a, (m, x));
      assert IsPathFrom(es, g, m, p[..|p| - 1]);
      LoopEntered(es, a, g, m, p[..|p| - 1]);
    }
  }

  lemma LoopMember(es: set<Edge>, a: int, b: int)
    requires SameLoop(es, a, b)
    ensures OnCycle(es, b) && SameLoop(es, b, a)
  {
    if a != b {
      var c := FirstEdge(es, b, a);
      ReachesTransitive(es, c, a, b);
    }
  }
}
