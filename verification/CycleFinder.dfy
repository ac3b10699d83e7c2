// The depth-first search for folder loops: which cycles it reports, and what giving up their
// closing edges achieves.
module CycleFinder {
  import opened Graphs
  import opened Sorting

  type Graph = map<int, seq<int>>

  ghost function EdgesOf(graph: Graph): set<Edge> {
    set u, v | u in graph && v in graph[u] :: (u, v)
  }

  lemma InEdges(graph: Graph, u: int, w: int)
    ensures (u, w) in EdgesOf(graph) <==> u in graph && w in graph[u]
  {
    if u in graph && w in graph[u] {
      assert (u, w) in EdgesOf(graph);
    }
  }

  /** Every neighbour is a node, and no edge is listed twice. */
  ghost predicate WellFormed(graph: Graph) {
    && (forall u, v :: u in graph && v in graph[u] ==> v in graph)
    && (forall u :: u in graph ==> NoDup(graph[u]))
  }

  function ClosingEdge(cyc: seq<int>): Edge
    requires cyc != []
  {
    (cyc[|cyc| - 1], cyc[0])
  }

  ghost function Closing(cycles: seq<seq<int>>): set<Edge> {
    set k | 0 <= k < |cycles| && cycles[k] != [] :: ClosingEdge(cycles[k])
  }

  ghost predicate PathWithin(es: set<Edge>, p: seq<int>) {
    forall k :: 0 <= k < |p| - 1 ==> (p[k], p[k + 1]) in es
  }

  // ---------------------------------------------------------------- what the search keeps

  function OnPath(path: seq<int>): set<int> {
    set v | v in path
  }

  /** The stack is the current path; every visited node is on it or finished. */
  ghost predicate StackOk(graph: Graph, visited: set<int>, recStack: set<int>, path: seq<int>, tree: set<Edge>,
                          rank: map<int, nat>) {
    && NoDup(path) && recStack == OnPath(path)
    && visited == rank.Keys + recStack && rank.Keys !! recStack
    && visited <= graph.Keys
    && PathWithin(tree, path)
  }

  ghost predicate CycleOk(graph: Graph, tree: set<Edge>, cyc: seq<int>) {
    cyc != [] && PathWithin(tree, cyc) && ClosingEdge(cyc) in EdgesOf(graph)
  }

  /** Reported cycles run along tree edges, and no two are closed by the same edge. */
  ghost predicate CyclesOk(graph: Graph, cycles: seq<seq<int>>, tree: set<Edge>) {
    && (forall k :: 0 <= k < |cycles| ==> CycleOk(graph, tree, cycles[k]))
    && (forall j, k :: 0 <= j < k < |cycles| && cycles[j] != [] && cycles[k] != [] ==>
        ClosingEdge(cycles[j]) != ClosingEdge(cycles[k]))
  }

  /** An edge followed so far leaves a visited node, and is a tree edge or a closing edge but not both. */
  ghost predicate EdgesOk(graph: Graph, visited: set<int>, cycles: seq<seq<int>>, tree: set<Edge>) {
    && tree <= EdgesOf(graph)
    && tree !! Closing(cycles)
    && forall e :: e in tree + Closing(cycles) ==> e.0 in visited
  }

  ghost predicate EdgeDone(cycles: seq<seq<int>>, rank: map<int, nat>, u: int, w: int)
    requires u in rank
  {
    (u, w) in Closing(cycles) || (w in rank && rank[w] < rank[u])
  }

  /** Every edge out of a finished node closes a reported cycle or leads to one finished earlier. */
  ghost predicate RankOk(graph: Graph, cycles: seq<seq<int>>, rank: map<int, nat>) {
    && (forall u :: u in rank ==> rank[u] < |rank|)
    && forall u, w :: u in rank && u in graph && w in graph[u] ==> EdgeDone(cycles, rank, u, w)
  }

  lemma EnterStack(graph: Graph, visited: set<int>, recStack: set<int>, path: seq<int>, tree: set<Edge>,
                   rank: map<int, nat>, v: int)
    requires StackOk(graph, visited, recStack, path, tree, rank) && v in graph && v !in visited
    ensures var tree' := tree + if path == [] then {} else {(path[|path| - 1], v)};
            StackOk(graph, visited + {v}, recStack + {v}, path + [v], tree', rank)
  {
    var p := path + [v];
    var tree' := tree + if path == [] then {} else {(path[|path| - 1], v)};
    forall j, k | 0 <= j < k < |p| ensures p[j] != p[k] {
      assert p[j] == path[j];
      assert path[j] in recStack;
    }
    forall k | 0 <= k < |p| - 1 ensures (p[k], p[k + 1]) in tree' {
      assert k < |path| - 1 ==> p[k] == path[k] && p[k + 1] == path[k + 1];
    }
  }

  lemma EnterCycles(graph: Graph, cycles: seq<seq<int>>, tree: set<Edge>, more: set<Edge>)
    requires CyclesOk(graph, cycles, tree)
    ensures CyclesOk(graph, cycles, tree + more)
  {
    forall k | 0 <= k < |cycles| ensures CycleOk(graph, tree + more, cycles[k]) {
      assert CycleOk(graph, tree, cycles[k]);
    }
  }

  lemma PopPath(below: seq<int>, v: int, tree: set<Edge>)
    requires NoDup(below + [v]) && PathWithin(tree, below + [v])
    ensures NoDup(below) && PathWithin(tree, below)
    ensures OnPath(below + [v]) == OnPath(below) + {v} && v !in OnPath(below)
  {
    var path := below + [v];
    assert path[|below|] == v;
    forall j | 0 <= j < |below| ensures below[j] != v {
      assert path[j] != path[|below|];
    }
    forall j, k | 0 <= j < k < |below| ensures below[j] != below[k] {
      assert path[j] != path[k];
    }
    forall k | 0 <= k < |below| - 1 ensures (below[k], below[k + 1]) in tree {
      assert (path[k], path[k + 1]) in tree;
    }
  }

  lemma LeaveStack(graph: Graph, visited: set<int>, recStack: set<int>, below: seq<int>, v: int, tree: set<Edge>,
                   rank: map<int, nat>)
    requires StackOk(graph, visited, recStack, below + [v], tree, rank)
    ensures StackOk(graph, visited, recStack - {v}, below, tree, rank[v := |rank|])
  {
    hide NoDup, PathWithin, OnPath;
    PopPath(below, v, tree);
    var onBelow, done := OnPath(below), rank.Keys;
    assert rank[v := |rank|].Keys == done + {v};
    assert visited == (done + {v}) + onBelow && (done + {v}) !! onBelow && recStack - {v} == onBelow by {
      MovedAcross(visited, done, onBelow, v, recStack);
    }
  }

  lemma MovedAcross(visited: set<int>, done: set<int>, onBelow: set<int>, v: int, recStack: set<int>)
    requires recStack == onBelow + {v} && v !in onBelow
    requires visited == done + recStack && done !! recStack
    ensures visited == (done + {v}) + onBelow && (done + {v}) !! onBelow && recStack - {v} == onBelow
  {
    assert recStack - {v} == onBelow;
  }

  lemma LeaveRank(graph: Graph, cycles: seq<seq<int>>, rank: map<int, nat>, v: int)
    requires RankOk(graph, cycles, rank) && v in graph && v !in rank
    requires forall w :: w in graph[v] ==> (v, w) in Closing(cycles) || w in rank
    ensures RankOk(graph, cycles, rank[v := |rank|])
  {
    var rank' := rank[v := |rank|];
    assert |rank'| == |rank| + 1;
    forall u, w | u in rank' && u in graph && w in graph[u] ensures EdgeDone(cycles, rank', u, w) {
      if u != v {
        assert EdgeDone(cycles, rank, u, w);
      }
    }
  }

  lemma ClosingAppend(cycles: seq<seq<int>>, c: seq<int>)
    requires c != []
    ensures Closing(cycles + [c]) == Closing(cycles) + {ClosingEdge(c)}
  {
    var all := cycles + [c];
    assert all[|cycles|] == c;
    forall k | 0 <= k < |cycles| && cycles[k] != [] ensures ClosingEdge(cycles[k]) in Closing(all) {
      assert all[k] == cycles[k];
    }
  }

  lemma ReportCycles(graph: Graph, cycles: seq<seq<int>>, tree: set<Edge>, c: seq<int>)
    requires CyclesOk(graph, cycles, tree) && CycleOk(graph, tree, c) && ClosingEdge(c) !in Closing(cycles)
    ensures CyclesOk(graph, cycles + [c], tree)
  {
    var all := cycles + [c];
    forall j, k | 0 <= j < k < |all| && all[j] != [] && all[k] != []
      ensures ClosingEdge(all[j]) != ClosingEdge(all[k]) {
      assert all[j] == cycles[j];
      assert ClosingEdge(cycles[j]) in Closing(cycles);
    }
  }

  lemma ReportRank(graph: Graph, cycles: seq<seq<int>>, rank: map<int, nat>, c: seq<int>)
    requires RankOk(graph, cycles, rank) && c != []
    ensures RankOk(graph, cycles + [c], rank)
  {
    ClosingAppend(cycles, c);
    forall u, w | u in rank && u in graph && w in graph[u] ensures EdgeDone(cycles + [c], rank, u, w) {
      assert EdgeDone(cycles, rank, u, w);
    }
  }

  lemma SuffixOfPath(graph: Graph, tree: set<Edge>, path: seq<int>, i: nat)
    requires i < |path| && PathWithin(tree, path) && (path[|path| - 1], path[i]) in EdgesOf(graph)
    ensures CycleOk(graph, tree, path[i..]) && ClosingEdge(path[i..]) == (path[|path| - 1], path[i])
  {
    var c := path[i..];
    forall k | 0 <= k < |c| - 1 ensures (c[k], c[k + 1]) in tree {
      assert (path[i + k], path[i + k + 1]) in tree;
    }
  }

  // ---------------------------------------------------------------- the search

  class Search {
    const graph: Graph
    var visited: set<int>
    var recStack: set<int>
    var path: seq<int>
    var cycles: seq<seq<int>>
    ghost var tree: set<Edge>         // edges that led to a node for the first time
    ghost var rank: map<int, nat>     // finished nodes, numbered in the order they were finished

    constructor (graph: Graph)
      requires WellFormed(graph)
      ensures this.graph == graph && Valid()
      ensures visited == {} && path == [] && cycles == []
    {
      this.graph := graph;
      visited, recStack, path, cycles := {}, {}, [], [];
      tree, rank := {}, map[];
    }

    ghost predicate Valid()
      reads this
    {
      && WellFormed(graph)
      && StackOk(graph, visited, recStack, path, tree, rank)
      && CyclesOk(graph, cycles, tree)
      && EdgesOk(graph, visited, cycles, tree)
      && RankOk(graph, cycles, rank)
    }

    /** The edge being followed is new: it leads on from the top of the path. */
    ghost predicate Following(v: int)
      reads this
    {
      && v in graph
      && (path != [] ==> (path[|path| - 1], v) in EdgesOf(graph) && (path[|path| - 1], v) !in tree + Closing(cycles))
    }

    method Enter(v: int)
      requires Valid() && Following(v) && v !in visited
      modifies this
      ensures Valid()
      ensures path == old(path) + [v] && visited == old(visited) + {v}
      ensures cycles == old(cycles) && rank == old(rank)
      ensures tree == old(tree) + if old(path) == [] then {} else {(old(path)[|old(path)| - 1], v)}
    {
      hide StackOk, CyclesOk, RankOk;
      ghost var more := if path == [] then {} else {(path[|path| - 1], v)};
      EnterStack(graph, visited, recStack, path, tree, rank, v);
      EnterCycles(graph, cycles, tree, more);
      assert path != [] ==> path[|path| - 1] in visited by {
        TopVisited(graph, visited, recStack, path, tree, rank);
      }
      tree := tree + more;
      visited := visited + {v};
      recStack := recStack + {v};
      path := path + [v];
    }

    method Report(v: int)
      requires Valid() && Following(v) && v in path
      modifies this
      ensures Valid()
      ensures path == old(path) && visited == old(visited) && rank == old(rank) && tree == old(tree)
      ensures old(cycles) <= cycles
      ensures Closing(cycles) == Closing(old(cycles)) + {(path[|path| - 1], v)}
    {
      hide CyclesOk, RankOk;
      var i := IndexOf(path, v);
      ghost var c := path[i..];
      SuffixOfPath(graph, tree, path, i);
      TopVisited(graph, visited, recStack, path, tree, rank);
      ClosingAppend(cycles, c);
      ReportCycles(graph, cycles, tree, c);
      ReportRank(graph, cycles, rank, c);
      cycles := cycles + [path[i..]];
    }

    method Leave(ghost below: seq<int>, v: int)
      requires Valid() && path == below + [v] && v in graph && v !in rank
      requires ChildrenDone(cycles, rank, v, graph[v])
      modifies this
      ensures Valid()
      ensures path == below && visited == old(visited) && cycles == old(cycles) && tree == old(tree)
      ensures rank == old(rank)[v := |old(rank)|]
    {
      hide StackOk, CyclesOk, RankOk, EdgesOk;
      LeaveStack(graph, visited, recStack, below, v, tree, rank);
      LeaveRank(graph, cycles, rank, v);
      path := path[..|path| - 1];
      recStack := recStack - {v};
      rank := rank[v := |rank|];
    }

    /** Follows an edge to `v`: reports a cycle when `v` is on the path, and otherwise explores it
        unless it was visited before. */
    method Dfs(v: int)
      requires Valid() && Following(v)
      modifies this
      ensures Valid() && path == old(path) && v in visited
      ensures old(visited) <= visited && old(Closing(cycles)) <= Closing(cycles)
      ensures RankGrows(old(rank), rank)
      ensures v !in path ==> v in rank
      ensures v in path ==> (path[|path| - 1], v) in Closing(cycles)
      ensures FollowedFrom(tree + Closing(cycles), old(tree + Closing(cycles)), old(visited), path, v)
      decreases graph.Keys - visited
    {
      hide StackOk, CyclesOk, EdgesOk, RankOk;
      VisitedExact(graph, visited, recStack, path, tree, rank, v);
      if v in path {
        Report(v);
        return;
      }
      if v !in visited {
        FreshNode(graph, visited, cycles, tree, v);
        Enter(v);
        for i := 0 to |graph[v]|
          invariant Valid() && path == old(path) + [v]
          invariant old(visited) + {v} <= visited && old(Closing(cycles)) <= Closing(cycles)
          invariant RankGrows(old(rank), rank)
          invariant ChildrenDone(cycles, rank, v, graph[v][..i])
          invariant ChildrenOnly(tree + Closing(cycles), v, graph[v][..i])
          invariant FollowedFrom(tree + Closing(cycles), old(tree + Closing(cycles)), old(visited), old(path), v)
        {
          NextChild(graph, tree + Closing(cycles), v, i);
          ghost var cycles0, rank0, visited0, edges0 := cycles, rank, visited, tree + Closing(cycles);
          Dfs(graph[v][i]);
          ChildDone(cycles0, rank0, cycles, rank, v, graph[v], i);
          ChildFollowed(edges0, tree + Closing(cycles), old(tree + Closing(cycles)), old(visited), visited0,
                        old(path), v, graph[v], i);
        }
        assert graph[v][..|graph[v]|] == graph[v];
        VisitedExact(graph, visited, recStack, path, tree, rank, v);
        Leave(old(path), v);
      }
    }
  }

  lemma VisitedExact(graph: Graph, visited: set<int>, recStack: set<int>, path: seq<int>, tree: set<Edge>,
                     rank: map<int, nat>, v: int)
    requires StackOk(graph, visited, recStack, path, tree, rank)
    ensures v in visited <==> v in path || v in rank
    ensures v in path ==> v !in rank
    ensures visited <= graph.Keys
  {
    assert v in recStack <==> v in path;
  }

  ghost predicate ChildrenDone(cycles: seq<seq<int>>, rank: map<int, nat>, v: int, ws: seq<int>) {
    forall w :: w in ws ==> (v, w) in Closing(cycles) || w in rank
  }

  /** Of the edges out of `v`, only those to `ws` have been followed. */
  ghost predicate ChildrenOnly(edges: set<Edge>, v: int, ws: seq<int>) {
    forall e :: e in edges && e.0 == v ==> e.1 in ws
  }

  lemma FreshNode(graph: Graph, visited: set<int>, cycles: seq<seq<int>>, tree: set<Edge>, v: int)
    requires EdgesOk(graph, visited, cycles, tree) && v !in visited
    ensures forall e :: e in tree + Closing(cycles) ==> e.0 != v
  {
  }

  lemma NextChild(graph: Graph, edges: set<Edge>, v: int, i: nat)
    requires WellFormed(graph) && v in graph && i < |graph[v]|
    requires ChildrenOnly(edges, v, graph[v][..i])
    ensures graph[v][i] in graph
    ensures (v, graph[v][i]) in EdgesOf(graph) && (v, graph[v][i]) !in edges
  {
    assert graph[v][i] in graph[v];
    InEdges(graph, v, graph[v][i]);
  }

  lemma ChildDone(cycles0: seq<seq<int>>, rank0: map<int, nat>, cycles: seq<seq<int>>, rank: map<int, nat>, v: int,
                  ws: seq<int>, i: nat)
    requires i < |ws| && ChildrenDone(cycles0, rank0, v, ws[..i])
    requires Closing(cycles0) <= Closing(cycles) && RankGrows(rank0, rank)
    requires (v, ws[i]) in Closing(cycles) || ws[i] in rank
    ensures ChildrenDone(cycles, rank, v, ws[..i + 1])
  {
    assert ws[..i + 1] == ws[..i] + [ws[i]];
  }

  lemma ChildFollowed(edges0: set<Edge>, edges: set<Edge>, before: set<Edge>, visited: set<int>, visited0: set<int>,
                      path: seq<int>, v: int, ws: seq<int>, i: nat)
    requires i < |ws| && visited + {v} <= visited0 && v !in visited
    requires FollowedFrom(edges0, before, visited, path, v) && ChildrenOnly(edges0, v, ws[..i])
    requires FollowedFrom(edges, edges0, visited0, path + [v], ws[i])
    ensures FollowedFrom(edges, before, visited, path, v) && ChildrenOnly(edges, v, ws[..i + 1])
  {
    assert ws[..i + 1] == ws[..i] + [ws[i]];
  }

  /** Finished nodes stay finished, with their number. */
  ghost predicate RankGrows(before: map<int, nat>, after: map<int, nat>) {
    forall u :: u in before ==> u in after && after[u] == before[u]
  }

  /** The edges followed since leave nodes that were not visited then, apart from the one to `v`. */
  ghost predicate FollowedFrom(after: set<Edge>, before: set<Edge>, visited: set<int>, path: seq<int>, v: int) {
    forall e :: e in after && e !in before ==> e.0 !in visited || (path != [] && e == (path[|path| - 1], v))
  }

  lemma TopVisited(graph: Graph, visited: set<int>, recStack: set<int>, path: seq<int>, tree: set<Edge>,
                   rank: map<int, nat>)
    requires StackOk(graph, visited, recStack, path, tree, rank)
    ensures path != [] ==> path[|path| - 1] in visited
  {
    assert path != [] ==> path[|path| - 1] in recStack;
  }

  method IndexOf(path: seq<int>, v: int) returns (i: nat)
    requires v in path
    ensures i < |path| && path[i] == v
  {
    i := 0;
    while path[i] != v
      invariant i < |path| && v in path[i..]
      decreases |path| - i
    {
      assert path[i..] == [path[i]] + path[i + 1..];
      i := i + 1;
    }
  }

  // ---------------------------------------------------------------- the answer

  /** Giving up the closing edge of every reported cycle, and nothing else, leaves no cycle. */
  ghost predicate Breaks(es: set<Edge>, cycles: seq<seq<int>>) {
    && (forall k :: 0 <= k < |cycles| ==> IsCycle(es, cycles[k]))
    && (forall k :: 0 <= k < |cycles| ==> PathWithin(es - Closing(cycles), cycles[k]))
    && (forall j, k :: 0 <= j < k < |cycles| && cycles[j] != [] && cycles[k] != [] ==>
        ClosingEdge(cycles[j]) != ClosingEdge(cycles[k]))
    && Acyclic(es - Closing(cycles))
  }

  lemma SearchBreaks(graph: Graph, visited: set<int>, recStack: set<int>, cycles: seq<seq<int>>, tree: set<Edge>,
                     rank: map<int, nat>)
    requires WellFormed(graph) && StackOk(graph, visited, recStack, [], tree, rank) && CyclesOk(graph, cycles, tree)
    requires EdgesOk(graph, visited, cycles, tree) && RankOk(graph, cycles, rank) && visited == graph.Keys
    ensures Breaks(EdgesOf(graph), cycles)
  {
    var es, closing := EdgesOf(graph), Closing(cycles);
    forall k | 0 <= k < |cycles| ensures IsCycle(es, cycles[k]) && PathWithin(es - closing, cycles[k]) {
      assert CycleOk(graph, tree, cycles[k]);
      forall i | 0 <= i < |cycles[k]| - 1 ensures (cycles[k][i], cycles[k][i + 1]) in es - closing {
        assert (cycles[k][i], cycles[k][i + 1]) in tree;
      }
    }
    forall e | e in es - closing ensures e.0 in rank && e.1 in rank && rank[e.1] < rank[e.0] {
      InEdges(graph, e.0, e.1);
      assert EdgeDone(cycles, rank, e.0, e.1);
    }
    RankedAcyclic(es - closing, rank);
  }

  function SetOf(edges: seq<Edge>): set<Edge> {
    set e | e in edges
  }

  method BuildGraph(edges: seq<Edge>) returns (graph: Graph, nodes: seq<int>)
    requires NoDup(edges)
    ensures WellFormed(graph) && EdgesOf(graph) == SetOf(edges)
    ensures forall n :: n in nodes <==> n in graph
  {
    graph, nodes := AllNodes(edges);
    for i := 0 to |edges|
      invariant forall n :: n in nodes <==> n in graph
      invariant forall k :: 0 <= k < |edges| ==> edges[k].0 in graph && edges[k].1 in graph
      invariant forall u, w :: u in graph ==> (w in graph[u] <==> (u, w) in edges[..i])
      invariant forall u :: u in graph ==> NoDup(graph[u])
    {
      var u, v := edges[i].0, edges[i].1;
      assert edges[..i + 1] == edges[..i] + [edges[i]];
      assert (u, v) !in edges[..i];
      graph := graph[u := graph[u] + [v]];
    }
    assert edges[..|edges|] == edges;
    forall e: Edge ensures e in EdgesOf(graph) <==> e in edges {
      InEdges(graph, e.0, e.1);
      if e in edges {
        var k :| 0 <= k < |edges| && edges[k] == e;
      }
      assert e == (e.0, e.1);
    }
  }

  method AllNodes(edges: seq<Edge>) returns (graph: Graph, nodes: seq<int>)
    ensures forall n :: n in nodes <==> n in graph
    ensures forall n :: n in graph ==> graph[n] == []
    ensures forall k :: 0 <= k < |edges| ==> edges[k].0 in graph && edges[k].1 in graph
  {
    graph, nodes := map[], [];
    for i := 0 to |edges|
      invariant forall n :: n in nodes <==> n in graph
      invariant forall n :: n in graph ==> graph[n] == []
      invariant forall k :: 0 <= k < i ==> edges[k].0 in graph && edges[k].1 in graph
    {
      var ends := [edges[i].0, edges[i].1];
      for j := 0 to 2
        invariant forall n :: n in nodes <==> n in graph
        invariant forall n :: n in graph ==> graph[n] == []
        invariant forall k :: 0 <= k < i ==> edges[k].0 in graph && edges[k].1 in graph
        invariant forall k :: 0 <= k < j ==> ends[k] in graph
      {
        if ends[j] !in graph {
          graph := graph[ends[j] := []];
          nodes := nodes + [ends[j]];
        }
      }
      assert ends[0] in graph && ends[1] in graph;
    }
  }

  method FindCycles(edges: seq<Edge>) returns (cycles: seq<seq<int>>)
    requires NoDup(edges)
    ensures Breaks(SetOf(edges), cycles)
  {
    hide StackOk, CyclesOk, EdgesOk, RankOk, Breaks;
    var graph, nodes := BuildGraph(edges);
    var search := new Search(graph);
    for i := 0 to |nodes|
      invariant search.Valid() && search.graph == graph && search.path == []
      invariant forall k :: 0 <= k < i ==> nodes[k] in search.visited
    {
      if nodes[i] !in search.visited {
        search.Dfs(nodes[i]);
      }
    }
    AllVisited(graph, nodes, search.visited, search.recStack, search.tree, search.rank);
    SearchBreaks(graph, search.visited, search.recStack, search.cycles, search.tree, search.rank);
    return search.cycles;
  }

  lemma AllVisited(graph: Graph, nodes: seq<int>, visited: set<int>, recStack: set<int>, tree: set<Edge>,
                   rank: map<int, nat>)
    requires StackOk(graph, visited, recStack, [], tree, rank)
    requires forall n :: n in nodes <==> n in graph
    requires forall k :: 0 <= k < |nodes| ==> nodes[k] in visited
    ensures visited == graph.Keys
  {
    forall n | n in graph ensures n in visited {
      assert n in nodes;
    }
  }

  // ---------------------------------------------------------------- what the answer means

  /** An acyclic graph loses nothing. */
  lemma NothingToBreak(es: set<Edge>, cycles: seq<seq<int>>)
    requires Breaks(es, cycles)
    ensures Acyclic(es) <==> cycles == []
  {
    if cycles == [] {
      assert es - Closing(cycles) == es;
    } else {
      assert IsCycle(es, cycles[0]);
    }
  }

  ghost predicate SameNodes(c: seq<int>, d: seq<int>) {
    forall x :: x in c <==> x in d
  }

  /** Every cycle loses one of its edges to a reported cycle. */
  lemma CycleMeetsReported(es: set<Edge>, cycles: seq<seq<int>>, c: seq<int>) returns (k: nat, x: int)
    requires Breaks(es, cycles) && IsCycle(es, c)
    ensures k < |cycles| && x in c && x in cycles[k]
  {
    assert !IsCycle(es - Closing(cycles), c);
    if (c[|c| - 1], c[0]) in Closing(cycles) {
      x := c[0];
    } else {
      var i :| 0 <= i < |c| - 1 && (c[i], c[i + 1]) !in es - Closing(cycles);
      assert (c[i], c[i + 1]) in es;
      x := c[i + 1];
    }
    k :| 0 <= k < |cycles| && cycles[k] != [] && ClosingEdge(cycles[k]).1 == x;
  }

  lemma MeetMeansSame(es: set<Edge>, c: seq<int>, d: seq<int>, x: int)
    requires OneParent(es) && IsCycle(es, c) && IsCycle(es, d) && x in c && x in d
    ensures SameNodes(c, d)
  {
    var i, j :| 0 <= i < |c| && c[i] == x && 0 <= j < |d| && d[j] == x;
    OneParentCyclesMeet(es, c, d, i, j);
    OneParentCyclesMeet(es, d, c, j, i);
  }

  /** Two reports never show the same loop: the first one's only given-up edge is its closing edge. */
  lemma ReportedApart(es: set<Edge>, cycles: seq<seq<int>>, j: nat, k: nat)
    requires OneParent(es) && Breaks(es, cycles) && j < |cycles| && k < |cycles| && j != k
    ensures !SameNodes(cycles[j], cycles[k])
  {
    var c, d := cycles[j], cycles[k];
    assert IsCycle(es, c) && IsCycle(es, d);
    if SameNodes(c, d) {
      assert d[0] in c;
      var i :| 0 <= i < |c| && c[i] == d[0];
      EdgeInto(es, Closing(cycles), c, i);
    }
  }

  lemma EdgeInto(es: set<Edge>, closing: set<Edge>, c: seq<int>, i: nat)
    requires IsCycle(es, c) && PathWithin(es - closing, c) && i < |c|
    ensures i == 0 ==> ClosingEdge(c) in es && ClosingEdge(c).1 == c[i]
    ensures i > 0 ==> (c[i - 1], c[i]) in es - closing
  {
    assert i > 0 ==> (c[i - 1], c[i - 1 + 1]) in es - closing;
  }

  /** With at most one parent per node, every loop is reported exactly once. */
  lemma EachLoopOnce(es: set<Edge>, cycles: seq<seq<int>>, c: seq<int>)
    requires OneParent(es) && Breaks(es, cycles) && IsCycle(es, c)
    ensures exists k :: 0 <= k < |cycles| && SameNodes(cycles[k], c)
                        && forall j :: 0 <= j < |cycles| && SameNodes(cycles[j], c) ==> j == k
  {
    var k, x := CycleMeetsReported(es, cycles, c);
    MeetMeansSame(es, cycles[k], c, x);
    forall j | 0 <= j < |cycles| && SameNodes(cycles[j], c) ensures j == k {
      if j != k {
        ReportedApart(es, cycles, j, k);
      }
    }
  }

  lemma ClosingReported(es: set<Edge>, cycles: seq<seq<int>>, f: Edge) returns (k: nat)
    requires Breaks(es, cycles) && f in Closing(cycles)
    ensures k < |cycles| && IsCycle(es, cycles[k]) && f in es && ClosingEdge(cycles[k]) == f && f.1 in cycles[k]
  {
    k :| 0 <= k < |cycles| && cycles[k] != [] && ClosingEdge(cycles[k]) == f;
  }

  /** With at most one parent per node, every loop is entered by exactly one of the edges given up. */
  lemma EachLoopOneClosing(es: set<Edge>, cycles: seq<seq<int>>, c: seq<int>)
    requires OneParent(es) && Breaks(es, cycles) && IsCycle(es, c)
    ensures Closing(cycles) <= es
    ensures exists e :: e in Closing(cycles) && e.1 in c && forall f :: f in Closing(cycles) && f.1 in c ==> f == e
  {
    hide Breaks, IsCycle, OneParent;
    forall f | f in Closing(cycles) ensures f in es {
      var j := ClosingReported(es, cycles, f);
    }
    EachLoopOnce(es, cycles, c);
    var k :| 0 <= k < |cycles| && SameNodes(cycles[k], c)
             && forall j :: 0 <= j < |cycles| && SameNodes(cycles[j], c) ==> j == k;
    assert IsCycle(es, cycles[k]) by {
      ReportedIsCycle(es, cycles, k);
    }
    assert cycles[k] != [] by {
      ReportedIsCycle(es, cycles, k);
    }
    var e := ClosingEdge(cycles[k]);
    assert e in Closing(cycles) && e.1 in cycles[k];
    assert SameNodes(cycles[k], c);
    assert forall x: int :: x in cycles[k] <==> x in c;
    forall f | f in Closing(cycles) && f.1 in c ensures f == e {
      var j := ClosingReported(es, cycles, f);
      MeetMeansSame(es, cycles[j], c, f.1);
    }
  }

  lemma ReportedIsCycle(es: set<Edge>, cycles: seq<seq<int>>, k: nat)
    requires Breaks(es, cycles) && k < |cycles|
    ensures IsCycle(es, cycles[k]) && cycles[k] != []
  {
    assert IsCycle(es, cycles[k]);
  }
}
