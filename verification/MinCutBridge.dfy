/** `MinCutBridge` of `rvm-coherence/src/mincut.rs`: the minimum cut of a
    partition's neighbourhood in the coherence graph. */
module Bridge {
  import opened Cuts
  import opened Types
  import opened EdgeLists
  import opened Graph
  import opened MinCut

  // ---- the neighbourhood ------------------------------------------------------

  ghost predicate Touches(e: Edge, root: nat, i: nat) {
    e.active && ((e.from == root && e.to == i) || (e.to == root && e.from == i))
  }

  ghost predicate Adjacent(es: seq<Edge>, root: nat, i: nat) {
    exists e :: 0 <= e < |es| && Touches(es[e], root, i)
  }

  /** Distinct occupied nodes with their partitions, the root first. */
  ghost predicate SubNodes(ns: seq<Node>, root: nat, pid: PartitionId, sub: seq<SubNode>) {
    && |sub| >= 1 && sub[0] == (root, pid)
    && (forall k :: 0 <= k < |sub| ==> sub[k].0 < |ns| && ns[sub[k].0].partition == Some(sub[k].1))
    && (forall j, k :: 0 <= j < k < |sub| ==> sub[j].0 != sub[k].0)
  }

  /** The collected nodes are the root and exactly the nodes an edge joins to it. */
  ghost predicate Neighbourhood(es: seq<Edge>, root: nat, sub: seq<SubNode>) {
    forall i: nat :: i in Indices(sub) <==> i == root || Adjacent(es, root, i)
  }

  ghost function Indices(sub: seq<SubNode>): set<nat> {
    set k | 0 <= k < |sub| :: sub[k].0
  }

  lemma IndicesAppend(sub: seq<SubNode>, x: SubNode)
    ensures Indices(sub + [x]) == Indices(sub) + {x.0}
  {
    var sub' := sub + [x];
    forall i | i in Indices(sub) + {x.0} ensures i in Indices(sub') {
      if i in Indices(sub) {
        var k :| 0 <= k < |sub| && sub[k].0 == i;
        assert sub'[k].0 == i;
      } else {
        assert sub'[|sub|].0 == i;
      }
    }
  }

  lemma {:induction false} IndicesSize(sub: seq<SubNode>)
    requires forall i, j :: 0 <= i < j < |sub| ==> sub[i].0 != sub[j].0
    ensures |Indices(sub)| == |sub|
  {
    if sub != [] {
      var init, last := sub[..|sub| - 1], sub[|sub| - 1];
      assert sub == init + [last];
      IndicesSize(init);
      IndicesAppend(init, last);
      assert last.0 !in Indices(init);
    }
  }

  /** A collection never exceeds the node slots, and a full one holds every node. */
  lemma FullCollection(ns: seq<Node>, root: nat, pid: PartitionId, sub: seq<SubNode>)
    requires SubNodes(ns, root, pid, sub) && |ns| <= 32
    ensures |sub| <= 32
    ensures |sub| == MINCUT_MAX_NODES ==> Indices(sub) == Below(|ns|) && |ns| == 32
  {
    IndicesSize(sub);
    var all := Below(|ns|);
    BelowSize(|ns|);
    assert Indices(sub) <= all;
    SubsetSize(Indices(sub), all);
    if |sub| == MINCUT_MAX_NODES {
      SameSizeSubset(Indices(sub), all);
    }
  }

  /** Appends a neighbour unless it is there or the table is full. */
  method Include(graph: CoherenceGraph, root: nat, pid: PartitionId, sub: seq<SubNode>, idx: nat)
      returns (sub': seq<SubNode>)
    requires SubNodes(graph.nodes[..], root, pid, sub) && graph.nodes.Length <= MINCUT_MAX_NODES
    requires Occupied(graph.nodes[..], idx)
    ensures SubNodes(graph.nodes[..], root, pid, sub')
    ensures Indices(sub') == Indices(sub) + {idx}
  {
    FullCollection(graph.nodes[..], root, pid, sub);
    sub' := sub;
    if |sub| >= MINCUT_MAX_NODES {
      return;
    }
    if graph.nodes[idx].partition.Some? {
      var present := false;
      for k := 0 to |sub|
        invariant present <==> exists j :: 0 <= j < k && sub[j].0 == idx
      {
        if sub[k].0 == idx {
          present := true;
        }
      }
      if !present {
        sub' := sub + [(idx, graph.nodes[idx].partition.value)];
        IndicesAppend(sub, sub'[|sub|]);
      } else {
        assert idx in Indices(sub);
      }
    }
  }

  /** Collects the root, its out-neighbours in list order and its in-neighbours in
      slot order (lines 117-156). */
  method Collect(graph: CoherenceGraph, root: nat, pid: PartitionId) returns (sub: seq<SubNode>)
    requires graph.Sound() && Scan(graph.nodes[..], pid, 0) == Some(root)
    ensures SubNodes(graph.nodes[..], root, pid, sub) && Neighbourhood(graph.edges[..], root, sub)
    ensures |sub| <= MINCUT_MAX_NODES
  {
    hide Linked, ListOf, UniquePartitions, Touches, Selects;
    sub := [(root, pid)];
    assert Indices(sub) == {root} by { assert sub[0].0 == root; }
    var neighbors := graph.Neighbors(pid);
    if neighbors.Some? {
      ListTargets(graph.nodes[..], graph.edges[..], graph.lists, root);
      sub := CollectOut(graph, root, pid, sub, neighbors.value);
      OutgoingCollected(graph.nodes[..], graph.edges[..], graph.lists, root, neighbors.value);
    }
    sub := CollectIn(graph, root, pid, sub);
    FullCollection(graph.nodes[..], root, pid, sub);
    AdjacentBothWays(graph.edges[..], root);
  }

  /** Collects the far ends of the root's list. */
  method CollectOut(graph: CoherenceGraph, root: nat, pid: PartitionId, sub0: seq<SubNode>, neighbors: seq<(nat, u64)>)
      returns (sub: seq<SubNode>)
    requires SubNodes(graph.nodes[..], root, pid, sub0) && graph.nodes.Length <= MINCUT_MAX_NODES
    requires forall k :: 0 <= k < |neighbors| ==> Occupied(graph.nodes[..], neighbors[k].0)
    ensures SubNodes(graph.nodes[..], root, pid, sub)
    ensures Indices(sub) == Indices(sub0) + FarEnds(neighbors, |neighbors|)
  {
    hide Indices, SubNodes, Occupied;
    sub := sub0;
    for k := 0 to |neighbors|
      invariant SubNodes(graph.nodes[..], root, pid, sub)
      invariant Indices(sub) == Indices(sub0) + FarEnds(neighbors, k)
    {
      sub := Include(graph, root, pid, sub, neighbors[k].0);
    }
  }

  /** The edges of a node's list lead to occupied nodes. */
  lemma ListTargets(ns: seq<Node>, es: seq<Edge>, lists: seq<seq<nat>>, root: nat)
    requires Linked(ns, es, lists) && root < |ns| && ListOf(es, root, ns[root].firstEdge, lists[root])
    ensures forall k :: 0 <= k < |lists[root]| ==> lists[root][k] < |es| && Occupied(ns, es[lists[root][k]].to)
  {
    forall k | 0 <= k < |lists[root]| ensures lists[root][k] < |es| && Occupied(ns, es[lists[root][k]].to) {
      assert es[lists[root][k]].active;
    }
  }

  method CollectIn(graph: CoherenceGraph, root: nat, pid: PartitionId, sub0: seq<SubNode>) returns (sub: seq<SubNode>)
    requires graph.Sound() && SubNodes(graph.nodes[..], root, pid, sub0)
    ensures SubNodes(graph.nodes[..], root, pid, sub)
    ensures Indices(sub) == Indices(sub0) + SourcesUpTo(graph.edges[..], root, graph.edges.Length)
  {
    hide Indices, SubNodes, Linked, UniquePartitions, Occupied;
    sub := sub0;
    for e := 0 to graph.edges.Length
      invariant SubNodes(graph.nodes[..], root, pid, sub)
      invariant Indices(sub) == Indices(sub0) + SourcesUpTo(graph.edges[..], root, e)
    {
      if graph.edges[e].active && graph.edges[e].to == root {
        ghost var p := EdgeOnList(graph.nodes[..], graph.edges[..], graph.lists, e);
        sub := Include(graph, root, pid, sub, graph.edges[e].from);
      }
    }
  }

  /** Nodes at the far end of the first `k` edges of a walk. */
  ghost function FarEnds(neighbors: seq<(nat, u64)>, k: nat): set<nat>
    requires k <= |neighbors|
  {
    if k == 0 then {} else FarEnds(neighbors, k - 1) + {neighbors[k - 1].0}
  }

  /** Nodes from which one of the first `k` edges leads to `root`. */
  ghost function SourcesUpTo(es: seq<Edge>, root: nat, k: nat): set<nat>
    requires k <= |es|
  {
    if k == 0 then {}
    else SourcesUpTo(es, root, k - 1) + if Selects(To(root), es[k - 1]) then {es[k - 1].from} else {}
  }

  ghost predicate OutTo(es: seq<Edge>, root: nat, i: nat) {
    exists e :: 0 <= e < |es| && Selects(Pair(root, i), es[e])
  }

  lemma {:induction false} SourcesMeaning(es: seq<Edge>, root: nat, k: nat, i: nat)
    requires k <= |es|
    ensures i in SourcesUpTo(es, root, k) <==> exists e :: 0 <= e < k && Selects(Pair(i, root), es[e])
  {
    if k > 0 { SourcesMeaning(es, root, k - 1, i); }
  }

  lemma {:induction false} FarEndsMeaning(neighbors: seq<(nat, u64)>, k: nat, i: nat)
    requires k <= |neighbors|
    ensures i in FarEnds(neighbors, k) <==> exists j :: 0 <= j < k && neighbors[j].0 == i
  {
    if k > 0 { FarEndsMeaning(neighbors, k - 1, i); }
  }

  lemma AdjacentBothWays(es: seq<Edge>, root: nat)
    ensures forall i: nat :: Adjacent(es, root, i) <==> OutTo(es, root, i) || i in SourcesUpTo(es, root, |es|)
  {
    forall i: nat ensures Adjacent(es, root, i) <==> OutTo(es, root, i) || i in SourcesUpTo(es, root, |es|) {
      SourcesMeaning(es, root, |es|, i);
      if Adjacent(es, root, i) {
        var e :| 0 <= e < |es| && Touches(es[e], root, i);
        assert Selects(Pair(root, i), es[e]) || Selects(Pair(i, root), es[e]);
      }
      if OutTo(es, root, i) {
        var e :| 0 <= e < |es| && Selects(Pair(root, i), es[e]);
        assert Touches(es[e], root, i);
      }
      if i in SourcesUpTo(es, root, |es|) {
        var e :| 0 <= e < |es| && Selects(Pair(i, root), es[e]);
        assert Touches(es[e], root, i);
      }
    }
  }

  /** Walking the root's list meets exactly its active outgoing edges. */
  lemma OutgoingCollected(ns: seq<Node>, es: seq<Edge>, lists: seq<seq<nat>>, root: nat, neighbors: seq<(nat, u64)>)
    requires Linked(ns, es, lists) && root < |ns|
    requires ListOf(es, root, ns[root].firstEdge, lists[root]) && neighbors == Targets(es, lists[root])
    ensures forall i: nat :: i in FarEnds(neighbors, |neighbors|) <==> OutTo(es, root, i)
  {
    var list := lists[root];
    forall i: nat ensures i in FarEnds(neighbors, |neighbors|) <==> OutTo(es, root, i) {
      FarEndsMeaning(neighbors, |neighbors|, i);
      if OutTo(es, root, i) {
        var e :| 0 <= e < |es| && Selects(Pair(root, i), es[e]);
        var p := EdgeOnList(ns, es, lists, e);
        assert neighbors[p].0 == i;
      }
      if i in FarEnds(neighbors, |neighbors|) {
        var j :| 0 <= j < |list| && neighbors[j].0 == i;
        assert Selects(Pair(root, i), es[list[j]]);
      }
    }
  }

  // ---- the local matrix -----------------------------------------------------------

  /** Undirected weights between the collected nodes. */
  ghost function LocalWeights(es: seq<Edge>, sub: seq<SubNode>): (r: Matrix)
    ensures |r| == |sub|
    ensures forall i: nat, j: nat :: i < |sub| && j < |sub| ==>
      At(r, i, j) == if i == j then 0 else Between(es, sub[i].0, sub[j].0)
  {
    seq(|sub|, i requires 0 <= i < |sub| =>
      seq(|sub|, j requires 0 <= j < |sub| => if i == j then 0 else Between(es, sub[i].0, sub[j].0) as nat))
  }

  method LocalMatrix(graph: CoherenceGraph, root: nat, pid: PartitionId, sub: seq<SubNode>) returns (adj: array2<u64>)
    requires graph.Sound() && SubNodes(graph.nodes[..], root, pid, sub) && |sub| <= MINCUT_MAX_NODES
    ensures fresh(adj) && adj.Length0 == adj.Length1 == MINCUT_MAX_NODES
    ensures graph.Agree() ==> forall i: nat, j: nat :: i < |sub| && j < |sub| ==>
      At(RowsOf(adj), i, j) == At(LocalWeights(graph.edges[..], sub), i, j)
    ensures Symmetric(RowsOf(adj), |sub|)
  {
    hide Linked, ListOf, UniquePartitions;
    adj := new u64[MINCUT_MAX_NODES, MINCUT_MAX_NODES]((_, _) => 0);
    for i := 0 to |sub|
      invariant forall a, b :: 0 <= a < i && 0 <= b < |sub| ==>
        adj[a, b] == if a == b then 0 else graph.Seen(sub[a].0, sub[b].0)
      invariant forall a, b :: i <= a < |sub| && 0 <= b < |sub| ==> adj[a, b] == 0
    {
      FillRow(graph, root, pid, sub, adj, i);
    }
    if graph.Agree() {
      SeenLocally(graph, root, pid, sub, adj);
    }
  }

  /** What the queries of an agreeing graph put into the matrix are the true weights. */
  lemma SeenLocally(graph: CoherenceGraph, root: nat, pid: PartitionId, sub: seq<SubNode>, adj: array2<u64>)
    requires graph.Sound() && graph.Agree() && SubNodes(graph.nodes[..], root, pid, sub)
    requires |sub| <= adj.Length0 == adj.Length1
    requires forall a, b :: 0 <= a < |sub| && 0 <= b < |sub| ==>
      adj[a, b] == if a == b then 0 else graph.Seen(sub[a].0, sub[b].0)
    ensures forall i: nat, j: nat :: i < |sub| && j < |sub| ==>
      At(RowsOf(adj), i, j) == At(LocalWeights(graph.edges[..], sub), i, j)
  {
    hide CoherenceGraph.Agree, CoherenceGraph.Seen, Between, Linked, UniquePartitions;
    forall i: nat, j: nat | i < |sub| && j < |sub|
      ensures At(RowsOf(adj), i, j) == At(LocalWeights(graph.edges[..], sub), i, j)
    {
      graph.SeenIsBetween(sub[i].0, sub[j].0);
    }
  }

  method FillRow(graph: CoherenceGraph, root: nat, pid: PartitionId, sub: seq<SubNode>, adj: array2<u64>, i: nat)
    requires graph.Sound() && SubNodes(graph.nodes[..], root, pid, sub) && i < |sub| <= MINCUT_MAX_NODES
    requires adj.Length0 == adj.Length1 == MINCUT_MAX_NODES && adj != graph.adj
    requires forall b :: 0 <= b < |sub| ==> adj[i, b] == 0
    modifies adj
    ensures forall b :: 0 <= b < |sub| ==> adj[i, b] == if i == b then 0 else graph.Seen(sub[i].0, sub[b].0)
    ensures forall a, b :: 0 <= a < MINCUT_MAX_NODES && 0 <= b < MINCUT_MAX_NODES && a != i ==>
      adj[a, b] == old(adj[a, b])
  {
    hide Linked, ListOf, UniquePartitions, Scan;
    for j := 0 to |sub|
      invariant forall a, b :: 0 <= a < MINCUT_MAX_NODES && 0 <= b < MINCUT_MAX_NODES && a != i ==>
        adj[a, b] == old(adj[a, b])
      invariant forall b :: 0 <= b < |sub| ==>
        adj[i, b] == if i == b || b >= j then 0 else graph.Seen(sub[i].0, sub[b].0)
    {
      if i != j {
        ScanUnique(graph.nodes[..], sub[i].1, sub[i].0);
        ScanUnique(graph.nodes[..], sub[j].1, sub[j].0);
        adj[i, j] := graph.EdgeWeightBetween(sub[i].1, sub[j].1);
      }
    }
  }

  lemma ScanUnique(ns: seq<Node>, pid: PartitionId, i: nat)
    requires UniquePartitions(ns) && i < |ns| && ns[i].partition == Some(pid)
    ensures Scan(ns, pid, 0) == Some(i)
  {
    var r := Scan(ns, pid, 0);
    assert r.Some?;
    assert ns[r.value].partition == ns[i].partition;
  }

  lemma SameCut(w: Matrix, w': Matrix, s: set<nat>, n: nat)
    requires s <= Below(n)
    requires forall i: nat, j: nat :: i < n && j < n ==> At(w, i, j) == At(w', i, j)
    ensures Cut(w, Below(n), s, n) == Cut(w', Below(n), s, n)
  {
    CrossCong(w, w', s, Below(n) - s, n, n);
  }

  /** Matrices with the same entries have the same cuts, so a run on one tells about both. */
  lemma SameRun(w: Matrix, w': Matrix, n: nat, own: seq<nat>, k: nat, best: u64, side: set<nat>)
    requires Partial(w, n, own, k, best, side)
    requires forall i: nat, j: nat :: i < n && j < n ==> At(w, i, j) == At(w', i, j)
    ensures Partial(w', n, own, k, best, side)
    ensures Minimum(w, n, best) ==> Minimum(w', n, best)
    ensures DegreesFit(w', n) ==> DegreesFit(w, n)
  {
    hide Cut, Together, AfterPhases;
    forall s | s <= Below(n) ensures Cut(w, Below(n), s, n) == Cut(w', Below(n), s, n) {
      SameCut(w, w', s, n);
    }
    if DegreesFit(w', n) {
      forall i: nat | i < n ensures Cut(w, Below(n), {i}, n) < U64_MAX {
        assert {i} <= Below(n);
      }
    }
  }

  // ---- the bridge -------------------------------------------------------------------

  /** What the cut reported after `k` phases says about the weights `local` between the
      collected nodes: the split is the one named, the weight is worth what `Partial` and
      `Minimum` say, and it is real once a phase ran and the nodes' totals are in range. */
  ghost predicate CutOf(local: Matrix, sub: seq<SubNode>, own: seq<nat>, k: nat, side: set<nat>, r: MinCutResult) {
    var n := |sub|;
    && r.left == PidsOf(sub, side, n) && r.right == PidsOf(sub, Below(n) - side, n)
    && Partial(local, n, own, k, r.cutWeight, side)
    && (r.withinBudget ==> Minimum(local, n, r.cutWeight))
    && (r.withinBudget && r.cutWeight == U64_MAX ==> side == Below(n))
    && (k >= 1 && DegreesFit(local, n) ==> r.cutWeight < U64_MAX)
  }

  class MinCutBridge {
    var lastKnownCut: MinCutResult
    var epoch: nat
    var budgetExceededCount: nat
    var computeCount: nat
    const maxIterations: nat

    constructor (maxIterations: nat)
      ensures lastKnownCut == MinCutResult([], [], 0, true) && epoch == budgetExceededCount == computeCount == 0
      ensures this.maxIterations == maxIterations
    {
      lastKnownCut := EMPTY_RESULT;
      epoch, budgetExceededCount, computeCount := 0, 0, 0;
      this.maxIterations := maxIterations;
    }

    /** The cut of the collected nodes (lines 174-203). */
    method Compute(graph: CoherenceGraph, root: nat, pid: PartitionId, nodes: seq<SubNode>)
        returns (r: MinCutResult, ghost side: set<nat>, ghost own: seq<nat>)
      requires graph.Sound() && SubNodes(graph.nodes[..], root, pid, nodes) && 2 <= |nodes| <= MINCUT_MAX_NODES
      modifies this
      ensures r == lastKnownCut && epoch == old(epoch) && (r.withinBudget <==> maxIterations >= |nodes| - 1)
      ensures computeCount == old(computeCount) + (if r.withinBudget then 1 else 0)
      ensures budgetExceededCount == old(budgetExceededCount) + (if r.withinBudget then 0 else 1)
      ensures graph.Agree() ==>
        CutOf(LocalWeights(graph.edges[..], nodes), nodes, own,
              if r.withinBudget then |nodes| - 1 else maxIterations, side, r)
    {
      hide Linked, ListOf, UniquePartitions, PidsOf, Partial, Minimum, DegreesFit, CoherenceGraph.Agree, SubNodes;
      var n := |nodes|;
      var adj := LocalMatrix(graph, root, pid, nodes);
      var result;
      result, side, own := StoerWagnerMinCut(adj, n, nodes, maxIterations);
      match result {
        case Ok(cut) =>
          lastKnownCut := cut;
          computeCount := computeCount + 1;
        case Err(partial) =>
          lastKnownCut := partial.(withinBudget := false);
          budgetExceededCount := budgetExceededCount + 1;
      }
      r := lastKnownCut;
      if graph.Agree() {
        SameRun(RowsOf(adj), LocalWeights(graph.edges[..], nodes), n, own,
                if r.withinBudget then n - 1 else maxIterations, r.cutWeight, side);
      }
    }

    /** Recomputes the cut around `pid`. `sub` lists the collected nodes, `side` the
        positions that went left, and `own` tells which positions the phases merged. */
    method FindMinCut(graph: CoherenceGraph, pid: PartitionId)
        returns (r: MinCutResult, ghost sub: seq<SubNode>, ghost side: set<nat>, ghost own: seq<nat>)
      requires graph.Sound()
      modifies this
      ensures r == lastKnownCut && epoch == (old(epoch) + 1) % 0x1_0000_0000
      ensures var root := Scan(graph.nodes[..], pid, 0);
        if root.None? then
          sub == [] && r == MinCutResult([], [], 0, true) && computeCount == old(computeCount) + 1
          && budgetExceededCount == old(budgetExceededCount)
        else
          && SubNodes(graph.nodes[..], root.value, pid, sub)
          && Neighbourhood(graph.edges[..], root.value, sub)
          && (|sub| == 1 ==> r == MinCutResult([pid], [], 0, true))
          && (r.withinBudget <==> |sub| == 1 || maxIterations >= |sub| - 1)
          && computeCount == old(computeCount) + (if r.withinBudget then 1 else 0)
          && budgetExceededCount == old(budgetExceededCount) + (if r.withinBudget then 0 else 1)
          && (|sub| >= 2 && graph.Agree() ==>
                CutOf(LocalWeights(graph.edges[..], sub), sub, own,
                      if r.withinBudget then |sub| - 1 else maxIterations, side, r))
    {
      hide Linked, ListOf, UniquePartitions, PidsOf, Neighbourhood, CutOf, CoherenceGraph.Agree;
      epoch := (epoch + 1) % 0x1_0000_0000;
      var root := graph.FindNode(pid);
      sub, side, own := [], {}, [];
      if root.None? {
        lastKnownCut := EMPTY_RESULT;
        computeCount := computeCount + 1;
        return lastKnownCut, sub, side, own;
      }
      var nodes := Collect(graph, root.value, pid);
      sub := nodes;
      var n := |nodes|;
      if n < 2 {
        lastKnownCut := EMPTY_RESULT.(left := [nodes[0].1]);
        computeCount := computeCount + 1;
        return lastKnownCut, sub, side, own;
      }
      r, side, own := Compute(graph, root.value, pid, nodes);
    }
  }
}
