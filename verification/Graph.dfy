/** The fixed-size coherence graph of `rvm-coherence/src/graph.rs`. */
module Graph {
  import opened Cuts
  import opened Types
  import opened EdgeLists

  datatype GraphError =
    NodeCapacityExhausted | EdgeCapacityExhausted | NodeNotFound | EdgeNotFound | DuplicateNode

  const NODE_INDEX_SIZE: nat := 256
  const ADJ_DIM: nat := 32

  /** `u64::saturating_sub`. */
  function SatSub(a: u64, b: nat): (r: u64) {
    if a < b then 0 else a - b
  }

  /** Edges that carry the same weight between the same nodes. */
  ghost predicate SameEdge(a: Edge, b: Edge) {
    a.active == b.active && (a.active ==> a.from == b.from && a.to == b.to && a.weight == b.weight)
  }

  /** The slot adds `w` to the sums of the edge from `f` to `t`, and to no other. */
  ghost predicate Worth(e: Edge, f: nat, t: nat, w: nat) {
    if e.active then e.from == f && e.to == t && e.weight == w else w == 0
  }

  /** Changing one slot moves each sum by the difference of the slot's shares. */
  lemma SumsShift(es: seq<Edge>, es': seq<Edge>, e: nat)
    requires |es'| == |es| && e < |es|
    requires forall x :: 0 <= x < |es| && x != e ==> SameEdge(es'[x], es[x])
    ensures forall sel :: Sum(es', sel) + Share(sel, es[e]) == Sum(es, sel) + Share(sel, es'[e])
    ensures forall sel :: Share(sel, es[e]) <= Sum(es, sel)
    ensures ActiveUpTo(es', |es|) + (if es[e].active then 1 else 0) ==
            ActiveUpTo(es, |es|) + (if es'[e].active then 1 else 0)
  {
    forall sel
      ensures Sum(es', sel) + Share(sel, es[e]) == Sum(es, sel) + Share(sel, es'[e])
      ensures Share(sel, es[e]) <= Sum(es, sel)
    {
      SumChange(es, es', sel, e, |es|);
      SumCovers(es, sel, e, |es|);
    }
    ActiveChange(es, es', e, |es|);
  }

  /** The matrix and the cached sums are the true sums of the active weights. */
  ghost predicate Totals(es: seq<Edge>, m: Matrix, outgoing: seq<int>, incoming: seq<int>) {
    && (forall a: nat, b: nat :: a < ADJ_DIM && b < ADJ_DIM ==> At(m, a, b) == Sum(es, Pair(a, b)))
    && |outgoing| == |incoming| == ADJ_DIM
    && (forall a :: 0 <= a < ADJ_DIM ==> outgoing[a] == Sum(es, From(a)))
    && (forall a :: 0 <= a < ADJ_DIM ==> incoming[a] == Sum(es, To(a)))
  }

  /** A cached sum after `less` is taken off and `more` added, saturating both ways. */
  ghost function Moved(was: int, less: nat, more: nat): int {
    var rest := if was < less then 0 else was - less;
    if rest + more > U64_MAX then U64_MAX else rest + more
  }

  /** Exactly the cache entries of an edge from `f` to `t` lost `less` and gained `more`. */
  ghost predicate Adjusted(m: Matrix, m': Matrix, outgoing: seq<int>, outgoing': seq<int>, incoming: seq<int>,
                           incoming': seq<int>, f: nat, t: nat, less: nat, more: nat) {
    && |outgoing| == |outgoing'| == |incoming| == |incoming'| == ADJ_DIM
    && (forall a: nat, b: nat :: a < ADJ_DIM && b < ADJ_DIM ==>
          At(m', a, b) == if a == f && b == t then Moved(At(m, a, b), less, more) else At(m, a, b))
    && (forall a :: 0 <= a < ADJ_DIM ==>
          outgoing'[a] == if a == f then Moved(outgoing[a], less, more) else outgoing[a])
    && (forall a :: 0 <= a < ADJ_DIM ==>
          incoming'[a] == if a == t then Moved(incoming[a], less, more) else incoming[a])
  }

  /** Whether the sums of `f` and `t` can trade `less` for `more` without saturating. */
  ghost predicate Fits(es: seq<Edge>, f: nat, t: nat, less: nat, more: nat) {
    && Sum(es, From(f)) - less + more <= U64_MAX
    && Sum(es, To(t)) - less + more <= U64_MAX
  }

  /** How the true sums move when slot `e`, worth `less`, becomes worth `more`. */
  lemma SumsAfter(es: seq<Edge>, es': seq<Edge>, e: nat, f: nat, t: nat, less: nat, more: nat)
    requires |es'| == |es| && e < |es|
    requires forall x :: 0 <= x < |es| && x != e ==> SameEdge(es'[x], es[x])
    requires Worth(es[e], f, t, less) && Worth(es'[e], f, t, more)
    ensures forall a: nat, b: nat ::
      Sum(es', Pair(a, b)) == Sum(es, Pair(a, b)) + if a == f && b == t then more - less else 0
    ensures forall a: nat :: Sum(es', From(a)) == Sum(es, From(a)) + if a == f then more - less else 0
    ensures forall a: nat :: Sum(es', To(a)) == Sum(es, To(a)) + if a == t then more - less else 0
    ensures less <= Sum(es, Pair(f, t)) <= Sum(es, From(f)) && Sum(es, Pair(f, t)) <= Sum(es, To(t))
  {
    SumsShift(es, es', e);
    PairWithin(es, f, t, |es|);
  }

  /** After the cache updates for slot `e` losing `less` and gaining `more`, the
      caches are the true sums exactly when those fit. */
  lemma TotalsIff(es: seq<Edge>, es': seq<Edge>, m: Matrix, m': Matrix, outgoing: seq<int>, outgoing': seq<int>,
                  incoming: seq<int>, incoming': seq<int>, e: nat, f: nat, t: nat, less: nat, more: nat, w: nat)
    requires Totals(es, m, outgoing, incoming) && f < ADJ_DIM && t < ADJ_DIM
    requires Adjusted(m, m', outgoing, outgoing', incoming, incoming', f, t, less, more)
    requires |es'| == |es| && e < |es|
    requires forall x :: 0 <= x < |es| && x != e ==> SameEdge(es'[x], es[x])
    requires Worth(es[e], f, t, w) && less <= w && Worth(es'[e], f, t, w - less + more)
    ensures Totals(es', m', outgoing', incoming') <==> Fits(es, f, t, less, more)
  {
    hide Sum;
    SumsAfter(es, es', e, f, t, w, w - less + more);
  }

  lemma EmptyGraph(ns: seq<Node>, es: seq<Edge>, m: Matrix, outgoing: seq<int>, incoming: seq<int>,
                   lists: seq<seq<nat>>)
    requires |ns| <= ADJ_DIM && |es| <= INVALID && |lists| == |ns| && |outgoing| == |incoming| == ADJ_DIM
    requires forall i :: 0 <= i < |ns| ==> ns[i] == EMPTY_NODE && lists[i] == []
    requires forall e :: 0 <= e < |es| ==> es[e] == EMPTY_EDGE
    requires forall a: nat, b: nat :: a < ADJ_DIM && b < ADJ_DIM ==> At(m, a, b) == 0
    requires forall a :: 0 <= a < ADJ_DIM ==> outgoing[a] == 0 == incoming[a]
    ensures Linked(ns, es, lists) && UniquePartitions(ns) && Totals(es, m, outgoing, incoming)
    ensures OccupiedUpTo(ns, |ns|) == 0 == ActiveUpTo(es, |es|)
  {
    EmptyCounts(ns, es, |ns|, |es|);
  }

  lemma ZeroMatrix(m: array2<u64>)
    requires m.Length0 == m.Length1 == ADJ_DIM
    requires forall a, b :: 0 <= a < ADJ_DIM && 0 <= b < ADJ_DIM ==> m[a, b] == 0
    ensures forall a: nat, b: nat :: a < ADJ_DIM && b < ADJ_DIM ==> At(RowsOf(m), a, b) == 0
  {}

  lemma {:induction false} EmptyCounts(ns: seq<Node>, es: seq<Edge>, i: nat, k: nat)
    requires i <= |ns| && k <= |es|
    requires forall x :: 0 <= x < |ns| ==> ns[x] == EMPTY_NODE
    requires forall x :: 0 <= x < |es| ==> es[x] == EMPTY_EDGE
    ensures OccupiedUpTo(ns, i) == 0 && ActiveUpTo(es, k) == 0
    ensures forall sel :: SumUpTo(es, sel, k) == 0
    decreases i + k
  {
    if i > 0 { EmptyCounts(ns, es, i - 1, k); }
    else if k > 0 { EmptyCounts(ns, es, i, k - 1); }
  }

  /** Where an active edge stands on its source's list. */
  lemma EdgeOnList(ns: seq<Node>, es: seq<Edge>, lists: seq<seq<nat>>, e: nat) returns (p: nat)
    requires Linked(ns, es, lists) && e < |es| && es[e].active
    ensures |ns| == |lists| && Occupied(ns, es[e].from) && Occupied(ns, es[e].to)
    ensures p < |lists[es[e].from]| && lists[es[e].from][p] == e
    ensures ListOf(es, es[e].from, ns[es[e].from].firstEdge, lists[es[e].from])
  {
    assert Occupied(ns, es[e].from) && Occupied(ns, es[e].to) && e in lists[es[e].from];
    p :| 0 <= p < |lists[es[e].from]| && lists[es[e].from][p] == e;
  }

  lemma NodeList(ns: seq<Node>, es: seq<Edge>, lists: seq<seq<nat>>, i: nat)
    requires Linked(ns, es, lists) && i < |ns|
    ensures |lists| == |ns| && ListOf(es, i, ns[i].firstEdge, lists[i])
  {}

  /** Changing only the weight of an active edge keeps the graph linked. */
  lemma ReweighLinked(ns: seq<Node>, es: seq<Edge>, lists: seq<seq<nat>>, e: nat, w: u64)
    requires Linked(ns, es, lists) && e < |es| && es[e].active
    ensures Linked(ns, es[e := es[e].(weight := w)], lists)
  {
    var es' := es[e := es[e].(weight := w)];
    forall i | 0 <= i < |ns| ensures ListOf(es', i, ns[i].firstEdge, lists[i]) {
      assert ListOf(es, i, ns[i].firstEdge, lists[i]);
      ListKept(es, es', i, ns[i].firstEdge, lists[i]);
    }
    forall x | 0 <= x < |es'| && es'[x].active
      ensures Occupied(ns, es'[x].from) && Occupied(ns, es'[x].to) && x in lists[es'[x].from]
    {
      assert es[x].active;
    }
  }

  lemma HeadEdge(es: seq<Edge>, node: nat, start: nat, list: seq<nat>)
    requires ListOf(es, node, start, list)
    ensures list != [] ==> list[0] < |es| && es[list[0]].active && es[list[0]].from == node
    ensures list == [] ==> start == INVALID
  {}

  /** A node with no incident edge can be freed. */
  lemma FreeLinked(ns: seq<Node>, es: seq<Edge>, lists: seq<seq<nat>>, i: nat)
    requires Linked(ns, es, lists) && i < |ns|
    requires forall e :: 0 <= e < |es| && es[e].active ==> es[e].from != i && es[e].to != i
    ensures Linked(ns[i := EMPTY_NODE], es, lists)
  {
    var ns' := ns[i := EMPTY_NODE];
    assert ListOf(es, i, ns[i].firstEdge, lists[i]);
    HeadEdge(es, i, ns[i].firstEdge, lists[i]);
    forall k | 0 <= k < |ns'| ensures ListOf(es, k, ns'[k].firstEdge, lists[k]) {
      assert ListOf(es, k, ns[k].firstEdge, lists[k]);
    }
    forall e | 0 <= e < |es| && es[e].active ensures Occupied(ns', es[e].from) && Occupied(ns', es[e].to) {
      assert Occupied(ns, es[e].from) && Occupied(ns, es[e].to);
    }
  }

  /** A node with no incident edge has zero sums. */
  lemma {:induction false} NoEdgesNoWeight(es: seq<Edge>, i: nat, k: nat)
    requires k <= |es| && forall e :: 0 <= e < |es| && es[e].active ==> es[e].from != i && es[e].to != i
    ensures SumUpTo(es, From(i), k) == 0 == SumUpTo(es, To(i), k)
    ensures forall j: nat :: SumUpTo(es, Pair(i, j), k) == 0 == SumUpTo(es, Pair(j, i), k)
  {
    if k > 0 { NoEdgesNoWeight(es, i, k - 1); }
  }

  /** The weight one decay step leaves: a saturating product, then a floor. */
  function Decayed(w: u64, factor: nat): u64 {
    var product := w * factor;
    (if product > U64_MAX then U64_MAX else product) / 10000
  }

  lemma DecayedNoMore(w: u64, factor: nat)
    requires factor <= 10000
    ensures Decayed(w, factor) <= w
  {
    assert w * factor <= w * 10000;
  }

  /** The slot after one decay step. */
  function DecayedEdge(e: Edge, factor: nat): Edge {
    if !e.active then e
    else if Decayed(e.weight, factor) == 0 then e.(active := false)
    else e.(weight := Decayed(e.weight, factor))
  }

  /** How many of the first `k` edges one decay step prunes. */
  ghost function PrunedUpTo(es: seq<Edge>, factor: nat, k: nat): nat
    requires k <= |es|
  {
    if k == 0 then 0
    else PrunedUpTo(es, factor, k - 1) + if es[k - 1].active && Decayed(es[k - 1].weight, factor) == 0 then 1 else 0
  }

  /** The decay is the exact floor of `w * factor / 10000` just when the product fits. */
  lemma DecayExactIff(w: u64, factor: nat)
    requires factor <= 10000
    ensures Decayed(w, factor) == w * factor / 10000 <==> w * factor / 10000 <= U64_MAX / 10000
  {
    if w * factor > U64_MAX {
      assert w * factor / 10000 >= U64_MAX / 10000;
    }
  }

  /** Unlinking touches links and one flag only. */
  lemma RemovedKeep(ns: seq<Node>, es: seq<Edge>, start: nat, list: seq<nat>, f: nat, p: nat)
    requires f < |ns| && p < |list| && ListOf(es, f, start, list)
    requires UniquePartitions(ns) && es[list[p]].active
    ensures UniquePartitions(RemovedNodes(ns, list, f, p))
    ensures OccupiedUpTo(RemovedNodes(ns, list, f, p), |ns|) == OccupiedUpTo(ns, |ns|)
    ensures ActiveUpTo(RemovedEdges(es, list, p), |es|) == ActiveUpTo(es, |es|) - 1
    ensures var es' := RemovedEdges(es, list, p);
      && (forall x :: 0 <= x < |es| && x != list[p] ==> SameEdge(es'[x], es[x]))
      && !es'[list[p]].active && es'[list[p]].from == es[list[p]].from
      && Worth(es[list[p]], es[list[p]].from, es[list[p]].to, es[list[p]].weight)
      && Worth(es'[list[p]], es[list[p]].from, es[list[p]].to, 0)
    ensures forall i :: 0 <= i < |ns| ==> RemovedNodes(ns, list, f, p)[i].partition == ns[i].partition
  {
    OccupiedChange(ns, RemovedNodes(ns, list, f, p), f, |ns|);
    ActiveChange(es, RemovedEdges(es, list, p), list[p], |es|);
  }

  /** Weight between two nodes in either direction, as `edge_weight_between` shows it. */
  ghost function Between(es: seq<Edge>, i: nat, j: nat): u64 {
    Cap(Sum(es, Pair(i, j)) + Sum(es, Pair(j, i)))
  }

  /** What a walk over `list` yields. */
  ghost function Targets(es: seq<Edge>, list: seq<nat>): (r: seq<(nat, u64)>)
    requires forall k :: 0 <= k < |list| ==> list[k] < |es|
    ensures |r| == |list| && forall k :: 0 <= k < |list| ==> r[k] == (es[list[k]].to, es[list[k]].weight)
  {
    seq(|list|, k requires 0 <= k < |list| => (es[list[k]].to, es[list[k]].weight))
  }

  class CoherenceGraph {
    const nodes: array<Node>
    const edges: array<Edge>
    const idToNode: array<Option<nat>>
    const adj: array2<u64>
    const cachedOut: array<u64>
    const cachedIn: array<u64>
    var nodeCount: nat
    var edgeCount: nat
    /** The edges of each node's linked list, in list order. */
    ghost var lists: seq<seq<nat>>

    ghost predicate Shape() {
      && nodes.Length <= ADJ_DIM && edges.Length <= INVALID
      && idToNode.Length == NODE_INDEX_SIZE
      && adj.Length0 == adj.Length1 == cachedOut.Length == cachedIn.Length == ADJ_DIM
      && cachedOut != cachedIn
    }

    /** Lists, index and counters are sound. Nothing here depends on weights. */
    ghost predicate Sound()
      reads this, nodes, edges
      ensures Sound() ==> Shape()
    {
      && Shape()
      && Linked(nodes[..], edges[..], lists) && UniquePartitions(nodes[..])
      && nodeCount == OccupiedUpTo(nodes[..], nodes.Length)
      && edgeCount == ActiveUpTo(edges[..], edges.Length)
    }

    /** The matrix and the cached sums are the true sums of the active weights. */
    ghost predicate Agree()
      requires Shape()
      reads edges, adj, cachedOut, cachedIn
    {
      Totals(edges[..], RowsOf(adj), Values(cachedOut), Values(cachedIn))
    }

    lemma SoundIsUnique()
      requires Sound()
      ensures UniquePartitions(nodes[..])
    {}

    constructor (maxNodes: nat, maxEdges: nat)
      requires maxNodes <= ADJ_DIM && maxEdges <= INVALID
      ensures fresh(nodes) && fresh(edges) && fresh(idToNode) && fresh(adj) && fresh(cachedOut) && fresh(cachedIn)
      ensures Sound() && Agree()
      ensures nodes.Length == maxNodes && edges.Length == maxEdges
      ensures nodeCount == edgeCount == 0
      ensures forall i :: 0 <= i < maxNodes ==> nodes[i].partition.None?
      ensures forall e :: 0 <= e < maxEdges ==> !edges[e].active
    {
      nodes := new Node[maxNodes](_ => EMPTY_NODE);
      edges := new Edge[maxEdges](_ => EMPTY_EDGE);
      idToNode := new Option<nat>[NODE_INDEX_SIZE](_ => None);
      adj := new u64[ADJ_DIM, ADJ_DIM]((_, _) => 0);
      cachedOut := new u64[ADJ_DIM](_ => 0);
      cachedIn := new u64[ADJ_DIM](_ => 0);
      nodeCount, edgeCount := 0, 0;
      lists := seq(maxNodes, _ => []);
      new;
      ZeroMatrix(adj);
      EmptyGraph(nodes[..], edges[..], RowsOf(adj), Values(cachedOut), Values(cachedIn), lists);
    }

    /** Direct index first, linear scan on a miss; always the answer of the scan. */
    method FindNode(pid: PartitionId) returns (r: Option<nat>)
      requires Shape() && UniquePartitions(nodes[..])
      ensures r == Scan(nodes[..], pid, 0)
    {
      var hash := pid % NODE_INDEX_SIZE;
      if idToNode[hash].Some? {
        var i := idToNode[hash].value;
        if i < nodes.Length && nodes[i].partition == Some(pid) {
          ghost var found := Scan(nodes[..], pid, 0);
          assert nodes[..][i].partition == Some(pid);
          return Some(i);
        }
      }
      for i := 0 to nodes.Length
        invariant Scan(nodes[..], pid, 0) == Scan(nodes[..], pid, i)
      {
        if nodes[i].partition == Some(pid) {
          return Some(i);
        }
      }
      return None;
    }

    /** Registers a partition in the lowest free slot. */
    method AddNode(pid: PartitionId) returns (r: Result<nat, GraphError>)
      requires Sound()
      modifies this, nodes, idToNode
      ensures Sound() && lists == old(lists) && edgeCount == old(edgeCount)
      ensures old(Agree()) ==> Agree()
      ensures r == Err(DuplicateNode) <==> old(Scan(nodes[..], pid, 0)).Some?
      ensures r == Err(NodeCapacityExhausted) <==>
        old(Scan(nodes[..], pid, 0)).None? && forall i :: 0 <= i < nodes.Length ==> old(nodes[i]).partition.Some?
      ensures r.Err? ==> nodes[..] == old(nodes[..]) && r.error in {DuplicateNode, NodeCapacityExhausted}
      ensures r.Ok? ==>
        && r.value < nodes.Length && old(nodes[r.value]).partition.None?
        && nodes[..] == old(nodes[..])[r.value := Node(Some(pid), INVALID)]
        && forall i :: 0 <= i < r.value ==> old(nodes[i]).partition.Some?
    {
      hide Linked, ListOf, Totals;
      var existing := FindNode(pid);
      if existing.Some? {
        return Err(DuplicateNode);
      }
      for i := 0 to nodes.Length
        invariant nodes[..] == old(nodes[..]) && forall k :: 0 <= k < i ==> nodes[k].partition.Some?
        invariant nodeCount == old(nodeCount) && edgeCount == old(edgeCount) && lists == old(lists)
      {
        if nodes[i].partition.None? {
          FreeNodeHasNoList(nodes[..], edges[..], lists, i);
          nodes[i] := Node(Some(pid), INVALID);
          nodeCount := nodeCount + 1;
          idToNode[pid % NODE_INDEX_SIZE] := Some(i);
          OccupiedChange(old(nodes[..]), nodes[..], i, nodes.Length);
          OccupyLinked(old(nodes[..]), edges[..], lists, i, pid);
          assert nodes[..] == old(nodes[..])[i := Node(Some(pid), INVALID)];
          return Ok(i);
        }
      }
      return Err(NodeCapacityExhausted);
    }

    static lemma OccupyLinked(ns: seq<Node>, es: seq<Edge>, lists: seq<seq<nat>>, i: nat, pid: PartitionId)
      requires Linked(ns, es, lists) && i < |ns| && ns[i].partition.None? && ns[i].firstEdge == INVALID
      ensures Linked(ns[i := Node(Some(pid), INVALID)], es, lists)
    {
      var ns' := ns[i := Node(Some(pid), INVALID)];
      forall k | 0 <= k < |ns'| ensures ListOf(es, k, ns'[k].firstEdge, lists[k]) {
        assert ListOf(es, k, ns[k].firstEdge, lists[k]);
      }
      forall e | 0 <= e < |es| && es[e].active ensures Occupied(ns', es[e].from) && Occupied(ns', es[e].to) {
        assert Occupied(ns, es[e].from) && Occupied(ns, es[e].to);
      }
    }

    /** Lowest free edge slot. */
    method AllocEdge() returns (r: Result<nat, GraphError>)
      ensures r.Ok? ==>
        r.value < edges.Length && !edges[r.value].active && forall i :: 0 <= i < r.value ==> edges[i].active
      ensures r.Err? ==> r.error == EdgeCapacityExhausted && forall i :: 0 <= i < edges.Length ==> edges[i].active
    {
      for i := 0 to edges.Length
        invariant forall k :: 0 <= k < i ==> edges[k].active
      {
        if !edges[i].active {
          return Ok(i);
        }
      }
      return Err(EdgeCapacityExhausted);
    }

    /** The three cache updates every weight change makes: take `less` off, then add `more`. */
    method Adjust(f: nat, t: nat, less: u64, more: u64)
      requires Shape() && f < ADJ_DIM && t < ADJ_DIM
      modifies adj, cachedOut, cachedIn
      ensures Adjusted(old(RowsOf(adj)), RowsOf(adj), old(Values(cachedOut)), Values(cachedOut),
                       old(Values(cachedIn)), Values(cachedIn), f, t, less, more)
    {
      adj[f, t] := SatAdd(SatSub(adj[f, t], less), more);
      cachedOut[f] := SatAdd(SatSub(cachedOut[f], less), more);
      cachedIn[t] := SatAdd(SatSub(cachedIn[t], less), more);
    }

    /** Adds a directed edge in the lowest free slot, at the head of its source's
        list. The cached sums stay true exactly when neither saturates. */
    method AddEdge(from: PartitionId, to: PartitionId, weight: u64) returns (r: Result<nat, GraphError>)
      requires Sound()
      modifies this, nodes, edges, adj, cachedOut, cachedIn
      ensures Sound() && nodeCount == old(nodeCount)
      ensures var f, t := old(Scan(nodes[..], from, 0)), old(Scan(nodes[..], to, 0));
        && (r == Err(NodeNotFound) <==> f.None? || t.None?)
        && (r == Err(EdgeCapacityExhausted) <==>
              f.Some? && t.Some? && forall i :: 0 <= i < edges.Length ==> old(edges[i]).active)
        && (r.Err? ==>
              && r.error in {NodeNotFound, EdgeCapacityExhausted}
              && nodes[..] == old(nodes[..]) && edges[..] == old(edges[..]) && lists == old(lists)
              && (old(Agree()) ==> Agree()))
        && (r.Ok? ==>
              && r.value < edges.Length && !old(edges[r.value]).active
              && (forall i :: 0 <= i < r.value ==> old(edges[i]).active)
              && nodes[..] == AddedNodes(old(nodes[..]), r.value, f.value)
              && edges[..] == AddedEdges(old(nodes[..]), old(edges[..]), r.value, f.value, t.value, weight)
              && lists == old(lists)[f.value := [r.value] + old(lists)[f.value]]
              && (old(Agree()) ==> (Agree() <==> Fits(old(edges[..]), f.value, t.value, 0, weight))))
    {
      var fromIdx := FindNode(from);
      if fromIdx.None? {
        return Err(NodeNotFound);
      }
      var toIdx := FindNode(to);
      if toIdx.None? {
        return Err(NodeNotFound);
      }
      var slot := AllocEdge();
      if slot.Err? {
        return Err(slot.error);
      }
      LinkEdge(slot.value, fromIdx.value, toIdx.value, weight);
      return Ok(slot.value);
    }

    /** The writes of a successful `AddEdge` (lines 207-223). */
    method LinkEdge(e: nat, f: nat, t: nat, weight: u64)
      requires Sound() && e < edges.Length && !edges[e].active
      requires Occupied(nodes[..], f) && Occupied(nodes[..], t)
      modifies this, nodes, edges, adj, cachedOut, cachedIn
      ensures Sound() && nodeCount == old(nodeCount)
      ensures nodes[..] == AddedNodes(old(nodes[..]), e, f)
      ensures edges[..] == AddedEdges(old(nodes[..]), old(edges[..]), e, f, t, weight)
      ensures lists == old(lists)[f := [e] + old(lists)[f]]
      ensures old(Agree()) ==> (Agree() <==> Fits(old(edges[..]), f, t, 0, weight))
    {
      hide Linked, ListOf, Totals;
      NodeList(nodes[..], edges[..], lists, f);
      var oldHead := nodes[f].firstEdge;
      edges[e] := Edge(f, t, weight, oldHead, true);
      nodes[f] := nodes[f].(firstEdge := e);
      edgeCount := edgeCount + 1;
      lists := lists[f := [e] + lists[f]];
      Adjust(f, t, 0, weight);
      assert nodes[..] == AddedNodes(old(nodes[..]), e, f);
      assert edges[..] == AddedEdges(old(nodes[..]), old(edges[..]), e, f, t, weight);
      AddLinked(old(nodes[..]), old(edges[..]), old(lists), e, f, t, weight);
      ActiveChange(old(edges[..]), edges[..], e, edges.Length);
      OccupiedChange(old(nodes[..]), nodes[..], f, nodes.Length);
      if old(Agree()) {
        TotalsIff(old(edges[..]), edges[..], old(RowsOf(adj)), RowsOf(adj), old(Values(cachedOut)), Values(cachedOut),
                  old(Values(cachedIn)), Values(cachedIn), e, f, t, 0, weight, 0);
      }
    }

    /** Moves an edge's weight by `delta`, clamped to 64 bits. The cached sums stay
        true exactly when neither saturates. */
    method UpdateWeight(e: nat, delta: int) returns (r: Result<(), GraphError>)
      requires Sound() && -0x8000_0000_0000_0000 <= delta < 0x8000_0000_0000_0000
      modifies edges, adj, cachedOut, cachedIn
      ensures Sound()
      ensures r == Err(EdgeNotFound) <==> e >= edges.Length || !old(edges[e]).active
      ensures r.Err? ==> r == Err(EdgeNotFound) && edges[..] == old(edges[..]) && (old(Agree()) ==> Agree())
      ensures r.Ok? ==>
        var was := old(edges[e]);
        var now: u64 := if was.weight + delta < 0 then 0 else Cap(was.weight + delta);
        && edges[..] == old(edges[..])[e := was.(weight := now)]
        && (old(Agree()) ==> (Agree() <==> Fits(old(edges[..]), was.from, was.to, was.weight, now)))
    {
      if e >= edges.Length || !edges[e].active {
        return Err(EdgeNotFound);
      }
      var oldWeight := edges[e].weight;
      var newWeight := if delta >= 0 then SatAdd(oldWeight, delta) else SatSub(oldWeight, -delta);
      Reweigh(e, newWeight, oldWeight, newWeight);
      return Ok(());
    }

    /** Stores a new weight for an active edge and moves the caches with it. */
    method Reweigh(e: nat, newWeight: u64, less: u64, more: u64)
      requires Sound() && e < edges.Length && edges[e].active
      requires less <= edges[e].weight && newWeight == edges[e].weight - less + more
      modifies edges, adj, cachedOut, cachedIn
      ensures Sound()
      ensures edges[..] == old(edges[..])[e := old(edges[e]).(weight := newWeight)]
      ensures old(Agree()) ==>
        (Agree() <==> Fits(old(edges[..]), old(edges[e]).from, old(edges[e]).to, less, more))
      ensures old(Agree()) && more == 0 ==> Agree()
    {
      hide Linked, ListOf, Totals;
      var f, t := edges[e].from, edges[e].to;
      ghost var p := EdgeOnList(nodes[..], edges[..], lists, e);
      ReweighLinked(nodes[..], edges[..], lists, e, newWeight);
      ghost var w := edges[e].weight;
      FitsLess(edges[..], f, t, less, RowsOf(adj), Values(cachedOut), Values(cachedIn));
      edges[e] := edges[e].(weight := newWeight);
      Adjust(f, t, less, more);
      ActiveChange(old(edges[..]), edges[..], e, edges.Length);
      assert edges[..] == old(edges[..])[e := old(edges[e]).(weight := newWeight)];
      if old(Agree()) {
        TotalsIff(old(edges[..]), edges[..], old(RowsOf(adj)), RowsOf(adj), old(Values(cachedOut)), Values(cachedOut),
                  old(Values(cachedIn)), Values(cachedIn), e, f, t, less, more, w);
      }
    }

    /** Takes an active edge off its list and out of the sums. Nothing else changes. */
    method RemoveEdgeByIndex(e: nat)
      requires Sound()
      modifies this, nodes, edges, adj, cachedOut, cachedIn
      ensures Sound() && nodeCount == old(nodeCount)
      ensures old(Agree()) ==> Agree()
      ensures forall i :: 0 <= i < nodes.Length ==> nodes[i].partition == old(nodes[i]).partition
      ensures forall x :: 0 <= x < edges.Length && x != e ==> SameEdge(edges[x], old(edges[x]))
      ensures e < edges.Length ==> !edges[e].active && edges[e].from == old(edges[e]).from
      ensures edgeCount == old(edgeCount) - if e < edges.Length && old(edges[e]).active then 1 else 0
      ensures e < edges.Length && old(edges[e]).active ==>
        var f := old(edges[e]).from;
        && |lists| == |old(lists)| && f < |lists|
        && (forall i :: 0 <= i < |lists| && i != f ==> lists[i] == old(lists)[i])
        && exists p :: 0 <= p < |old(lists)[f]| && old(lists)[f][p] == e && lists[f] == Without(old(lists)[f], p)
    {
      hide Agree, Linked;
      if e >= edges.Length || !edges[e].active {
        return;
      }
      ghost var p := EdgeOnList(nodes[..], edges[..], lists, e);
      hide Sound;
      RemoveActiveEdge(e, p);
    }

    /** The writes of `remove_edge_by_index` on an active edge (lines 483-510). */
    method RemoveActiveEdge(e: nat, ghost p: nat)
      requires Sound() && e < edges.Length && edges[e].active
      requires edges[e].from < nodes.Length && edges[e].to < nodes.Length && edges[e].from < |lists|
      requires p < |lists[edges[e].from]| && lists[edges[e].from][p] == e
      modifies this, nodes, edges, adj, cachedOut, cachedIn
      ensures Sound() && nodeCount == old(nodeCount)
      ensures old(Agree()) ==> Agree()
      ensures forall i :: 0 <= i < nodes.Length ==> nodes[i].partition == old(nodes[i]).partition
      ensures forall x :: 0 <= x < edges.Length && x != e ==> SameEdge(edges[x], old(edges[x]))
      ensures !edges[e].active && edges[e].from == old(edges[e]).from && edgeCount == old(edgeCount) - 1
      ensures var f := old(edges[e]).from; lists == old(lists)[f := Without(old(lists)[f], p)]
    {
      hide Linked, ListOf, Totals, Adjusted, UniquePartitions, Fits, SameEdge;
      var f, t, weight := edges[e].from, edges[e].to, edges[e].weight;
      ghost var q := EdgeOnList(nodes[..], edges[..], lists, e);
      RemoveLinked(nodes[..], edges[..], lists, f, p);
      FitsLess(edges[..], f, t, weight, RowsOf(adj), Values(cachedOut), Values(cachedIn));
      RemovedKeep(nodes[..], edges[..], nodes[f].firstEdge, lists[f], f, p);
      Adjust(f, t, weight, 0);
      Unlink(e, f, lists[f], p);
      edges[e] := edges[e].(active := false);
      edgeCount := DropOne(edgeCount);
      lists := lists[f := Without(lists[f], p)];
      assert edges[..] == RemovedEdges(old(edges[..]), old(lists[f]), p);
      if old(Agree()) {
        TotalsIff(old(edges[..]), edges[..], old(RowsOf(adj)), RowsOf(adj), old(Values(cachedOut)), Values(cachedOut),
                  old(Values(cachedIn)), Values(cachedIn), e, f, t, weight, 0, weight);
      }
    }

    /** Repairs the list of `f` around edge `e` (lines 493-507). */
    method Unlink(e: nat, f: nat, ghost list: seq<nat>, ghost p: nat)
      requires f < nodes.Length && edges.Length <= INVALID && p < |list| && list[p] == e
      requires ListOf(edges[..], f, nodes[f].firstEdge, list)
      modifies nodes, edges
      ensures nodes[..] == RemovedNodes(old(nodes[..]), list, f, p)
      ensures edges[..] == if p == 0 then old(edges[..])
                           else old(edges[..])[list[p - 1] := old(edges[list[p - 1]]).(nextFrom := Next(list, p))]
    {
      assert LinkAt(edges[..], list, p);
      if nodes[f].firstEdge == e {
        assert p == 0;
        nodes[f] := nodes[f].(firstEdge := edges[e].nextFrom);
      } else {
        var cur := nodes[f].firstEdge;
        ghost var k := 0;
        while cur != INVALID
          invariant 0 <= k < p && cur == list[k]
          invariant nodes[..] == old(nodes[..]) && edges[..] == old(edges[..])
          decreases p - k
        {
          assert LinkAt(edges[..], list, k);
          if edges[cur].nextFrom == e {
            assert Next(list, k) == list[k + 1] == list[p];
            edges[cur] := edges[cur].(nextFrom := edges[e].nextFrom);
            break;
          }
          cur := edges[cur].nextFrom;
          k := k + 1;
        }
      }
    }

    /** Frees a partition's node and drops exactly its incident edges. */
    method RemoveNode(pid: PartitionId) returns (r: Result<(), GraphError>)
      requires Sound()
      modifies this, nodes, edges, adj, cachedOut, cachedIn, idToNode
      ensures Sound()
      ensures old(Agree()) ==> Agree()
      ensures var idx := old(Scan(nodes[..], pid, 0));
        && (r == Err(NodeNotFound) <==> idx.None?)
        && (r.Err? ==> r == Err(NodeNotFound) && nodes[..] == old(nodes[..]) && edges[..] == old(edges[..]))
        && (r.Ok? ==>
              && nodes[idx.value] == EMPTY_NODE
              && (forall i :: 0 <= i < nodes.Length && i != idx.value ==> nodes[i].partition == old(nodes[i]).partition)
              && (forall x :: 0 <= x < edges.Length ==>
                    if old(edges[x]).from == idx.value || old(edges[x]).to == idx.value then !edges[x].active
                    else SameEdge(edges[x], old(edges[x]))))
      ensures r.Ok? ==> forall h :: 0 <= h < 256 ==>
        idToNode[h] ==
        if h == pid % 256 && old(idToNode[h]) == old(Scan(nodes[..], pid, 0)) then None else old(idToNode[h])
    {
      hide Sound, Agree;
      SoundIsUnique();
      var found := FindNode(pid);
      if found.None? {
        return Err(NodeNotFound);
      }
      var idx := found.value;
      for i := 0 to edges.Length
        invariant Sound() && nodeCount == old(nodeCount) && (old(Agree()) ==> Agree())
        invariant forall k :: 0 <= k < nodes.Length ==> nodes[k].partition == old(nodes[k]).partition
        invariant idToNode[..] == old(idToNode[..])
        invariant forall x :: 0 <= x < edges.Length ==>
          if x < i && (old(edges[x]).from == idx || old(edges[x]).to == idx) then !edges[x].active
          else SameEdge(edges[x], old(edges[x]))
      {
        if edges[i].active && (edges[i].from == idx || edges[i].to == idx) {
          RemoveEdgeByIndex(i);
        }
      }
      var hash := pid % NODE_INDEX_SIZE;
      assert forall h :: 0 <= h < 256 ==> idToNode[..][h] == old(idToNode[..])[h];
      if idToNode[hash] == Some(idx) {
        idToNode[hash] := None;
      }
      FreeNode(idx);
      return Ok(());
    }

    /** Clears an isolated node, its matrix row and column and its sums (lines 170-190). */
    method FreeNode(idx: nat)
      requires Sound() && idx < nodes.Length && nodes[idx].partition.Some?
      requires forall e :: 0 <= e < edges.Length && edges[e].active ==> edges[e].from != idx && edges[e].to != idx
      modifies this, nodes, adj, cachedOut, cachedIn
      ensures Sound() && nodes[..] == old(nodes[..])[idx := EMPTY_NODE] && nodeCount == old(nodeCount) - 1
      ensures old(Agree()) ==> Agree()
    {
      hide Linked, ListOf, Agree, Selects;
      FreeLinked(nodes[..], edges[..], lists, idx);
      NoEdgesNoWeight(edges[..], idx, edges.Length);
      nodes[idx] := nodes[idx].(partition := None);
      nodes[idx] := nodes[idx].(firstEdge := INVALID);
      OccupiedChange(old(nodes[..]), nodes[..], idx, nodes.Length);
      assert nodes[..] == old(nodes[..])[idx := EMPTY_NODE];
      nodeCount := DropOne(nodeCount);
      ClearCaches(idx);
    }

    method ClearCaches(idx: nat)
      requires Shape() && idx < ADJ_DIM
      requires Sum(edges[..], From(idx)) == 0 == Sum(edges[..], To(idx))
      requires forall j: nat :: Sum(edges[..], Pair(idx, j)) == 0 == Sum(edges[..], Pair(j, idx))
      modifies adj, cachedOut, cachedIn
      ensures old(Agree()) ==> Agree()
      ensures forall j :: 0 <= j < ADJ_DIM ==> adj[idx, j] == 0 == adj[j, idx]
      ensures cachedOut[idx] == 0 == cachedIn[idx]
    {
      hide Sum;
      for j := 0 to ADJ_DIM
        modifies adj
        invariant forall a, b :: 0 <= a < ADJ_DIM && 0 <= b < ADJ_DIM ==>
          adj[a, b] == if (a == idx && b < j) || (b == idx && a < j) then 0 else old(adj[a, b])
      {
        adj[idx, j] := 0;
        adj[j, idx] := 0;
      }
      cachedOut[idx] := 0;
      cachedIn[idx] := 0;
    }

    /** Scales every weight down and prunes what falls to zero. The caches stay true. */
    method DecayWeights(decayBp: nat) returns (pruned: nat)
      requires Sound() && decayBp <= 65535
      modifies this, nodes, edges, adj, cachedOut, cachedIn
      ensures Sound() && nodeCount == old(nodeCount)
      ensures old(Agree()) ==> Agree()
      ensures forall i :: 0 <= i < nodes.Length ==> nodes[i].partition == old(nodes[i]).partition
      ensures var factor := if decayBp > 10000 then 0 else 10000 - decayBp;
        && (forall x :: 0 <= x < edges.Length ==> SameEdge(edges[x], DecayedEdge(old(edges[x]), factor)))
        && pruned == PrunedUpTo(old(edges[..]), factor, edges.Length)
      ensures edgeCount + pruned == old(edgeCount)
    {
      hide Sound, Agree, Decayed;
      pruned := 0;
      var factor := if decayBp > 10000 then 0 else 10000 - decayBp;
      for i := 0 to edges.Length
        invariant Sound() && nodeCount == old(nodeCount) && (old(Agree()) ==> Agree())
        invariant forall k :: 0 <= k < nodes.Length ==> nodes[k].partition == old(nodes[k]).partition
        invariant forall x :: 0 <= x < edges.Length ==>
          SameEdge(edges[x], if x < i then DecayedEdge(old(edges[x]), factor) else old(edges[x]))
        invariant pruned == PrunedUpTo(old(edges[..]), factor, i) && edgeCount + pruned == old(edgeCount)
      {
        if edges[i].active {
          var oldW := edges[i].weight;
          var newW := Decayed(oldW, factor);
          DecayedNoMore(oldW, factor);
          if newW == 0 {
            RemoveEdgeByIndex(i);
            pruned := pruned + 1;
          } else {
            Reweigh(i, newW, oldW - newW, 0);
          }
        }
      }
    }

    // ---- queries -------------------------------------------------------------------

    /** What the two matrix entries of a pair of nodes show. */
    ghost function Seen(i: nat, j: nat): u64
      requires Shape() && i < ADJ_DIM && j < ADJ_DIM
      reads adj
    {
      SatAdd(adj[i, j], adj[j, i])
    }

    lemma SeenIsBetween(i: nat, j: nat)
      requires Shape() && Agree() && i < ADJ_DIM && j < ADJ_DIM
      ensures Seen(i, j) == Between(edges[..], i, j)
    {
      assert At(RowsOf(adj), i, j) == adj[i, j];
      assert At(RowsOf(adj), j, i) == adj[j, i];
    }

    method EdgeWeightBetween(a: PartitionId, b: PartitionId) returns (r: u64)
      requires Sound()
      ensures r == BetweenOf(a, b)
    {
      hide Linked;
      var i := FindNode(a);
      if i.None? {
        return 0;
      }
      var j := FindNode(b);
      if j.None? {
        return 0;
      }
      r := SatAdd(adj[i.value, j.value], adj[j.value, i.value]);
    }

    /** The answers of the three weight queries as functions of the state. */
    ghost function BetweenOf(a: PartitionId, b: PartitionId): u64
      requires Shape()
      reads nodes, adj
    {
      var i, j := Scan(nodes[..], a, 0), Scan(nodes[..], b, 0);
      if i.None? || j.None? then 0 else Seen(i.value, j.value)
    }

    ghost function TotalOf(pid: PartitionId): u64
      requires Shape()
      reads nodes, cachedOut, cachedIn
    {
      var i := Scan(nodes[..], pid, 0);
      if i.None? then 0 else SatAdd(cachedOut[i.value], cachedIn[i.value])
    }

    ghost function InternalOf(pid: PartitionId): u64
      reads nodes, edges
    {
      var i := Scan(nodes[..], pid, 0);
      if i.None? then 0 else Cap(Sum(edges[..], Pair(i.value, i.value)))
    }

    /** When the caches are true the queries answer with true sums. */
    lemma QueriesAreTrue(a: PartitionId, b: PartitionId)
      requires Shape() && Agree()
      ensures var i, j := Scan(nodes[..], a, 0), Scan(nodes[..], b, 0);
        && (i.Some? ==> TotalOf(a) == Cap(Sum(edges[..], From(i.value)) + Sum(edges[..], To(i.value))))
        && (i.Some? && j.Some? ==> BetweenOf(a, b) == Between(edges[..], i.value, j.value))
    {
      var i, j := Scan(nodes[..], a, 0), Scan(nodes[..], b, 0);
      if i.Some? && j.Some? {
        SeenIsBetween(i.value, j.value);
      }
    }

    method TotalWeight(pid: PartitionId) returns (r: u64)
      requires Sound()
      ensures r == TotalOf(pid)
    {
      var i := FindNode(pid);
      if i.None? {
        return 0;
      }
      r := SatAdd(cachedOut[i.value], cachedIn[i.value]);
    }

    method InternalWeight(pid: PartitionId) returns (sum: u64)
      requires Sound()
      ensures sum == InternalOf(pid)
    {
      hide Linked, UniquePartitions;
      var i := FindNode(pid);
      if i.None? {
        return 0;
      }
      var idx := i.value;
      sum := 0;
      for k := 0 to edges.Length
        invariant sum == Cap(SumUpTo(edges[..], Pair(idx, idx), k))
      {
        if edges[k].active && edges[k].from == idx && edges[k].to == idx {
          sum := SatAdd(sum, edges[k].weight);
        }
      }
    }

    /** Finds an active edge from `from` to `to` whenever their weight is positive,
        and nothing otherwise: an edge of weight zero is invisible to it. */
    method FindDirectedEdge(from: PartitionId, to: PartitionId) returns (r: Option<nat>)
      requires Sound()
      ensures r.Some? ==>
        var f, t := Scan(nodes[..], from, 0), Scan(nodes[..], to, 0);
        && f.Some? && t.Some? && r.value < edges.Length
        && Selects(Pair(f.value, t.value), edges[r.value])
      ensures Agree() ==>
        var f, t := Scan(nodes[..], from, 0), Scan(nodes[..], to, 0);
        (r.Some? <==> f.Some? && t.Some? && Sum(edges[..], Pair(f.value, t.value)) > 0)
    {
      var fromIdx := FindNode(from);
      if fromIdx.None? {
        return None;
      }
      var toIdx := FindNode(to);
      if toIdx.None? {
        return None;
      }
      var f, t := fromIdx.value, toIdx.value;
      assert At(RowsOf(adj), f, t) == adj[f, t];
      if adj[f, t] == 0 {
        return None;
      }
      r := WalkList(f, t);
      if Agree() && r.None? {
        ghost var e := PositiveSumHasEdge(edges[..], Pair(f, t), edges.Length);
      }
    }

    /** The walk of lines 365-377. */
    method WalkList(f: nat, t: nat) returns (r: Option<nat>)
      requires Sound() && f < nodes.Length
      ensures r.Some? ==> r.value < edges.Length && Selects(Pair(f, t), edges[r.value])
      ensures r.None? ==> forall e :: 0 <= e < edges.Length ==> !Selects(Pair(f, t), edges[e])
    {
      hide Linked, UniquePartitions, NoRepeats;
      NodeList(nodes[..], edges[..], lists, f);
      var cur := nodes[f].firstEdge;
      ghost var k := 0;
      while cur != INVALID
        invariant 0 <= k <= |lists[f]| && cur == Next(lists[f], k - 1)
        invariant forall j :: 0 <= j < k ==> edges[lists[f][j]].to != t
        decreases |lists[f]| - k
      {
        assert LinkAt(edges[..], lists[f], k);
        if cur >= edges.Length {
          break;
        }
        if edges[cur].active && edges[cur].to == t {
          return Some(cur);
        }
        cur := edges[cur].nextFrom;
        k := k + 1;
      }
      forall e | 0 <= e < edges.Length && edges[e].active && edges[e].from == f ensures edges[e].to != t {
        ghost var p := EdgeOnList(nodes[..], edges[..], lists, e);
      }
      return None;
    }

    /** The outgoing edges of a partition as (node, weight), in list order. */
    method Neighbors(pid: PartitionId) returns (r: Option<seq<(nat, u64)>>)
      requires Sound()
      ensures var i := Scan(nodes[..], pid, 0);
        && (r.None? <==> i.None?)
        && (r.Some? ==>
              && |lists| == nodes.Length && ListOf(edges[..], i.value, nodes[i.value].firstEdge, lists[i.value])
              && r.value == Targets(edges[..], lists[i.value]))
    {
      hide Linked, UniquePartitions, NoRepeats;
      var found := FindNode(pid);
      if found.None? {
        return None;
      }
      NodeList(nodes[..], edges[..], lists, found.value);
      ghost var list := lists[found.value];
      var out: seq<(nat, u64)> := [];
      var cur := nodes[found.value].firstEdge;
      ghost var k := 0;
      while cur != INVALID
        invariant 0 <= k <= |list| && cur == Next(list, k - 1)
        invariant out == Targets(edges[..], list[..k])
        decreases |list| - k
      {
        assert LinkAt(edges[..], list, k);
        if cur >= edges.Length {
          break;
        }
        var edge := edges[cur];
        cur := edge.nextFrom;
        if edge.active {
          out := out + [(edge.to, edge.weight)];
        }
        k := k + 1;
      }
      assert list[..k] == list;
      return Some(out);
    }
  }

  lemma {:induction false} PositiveSumHasEdge(es: seq<Edge>, sel: Selector, k: nat) returns (e: nat)
    requires k <= |es| && SumUpTo(es, sel, k) > 0
    ensures e < k && Selects(sel, es[e])
  {
    if Selects(sel, es[k - 1]) { e := k - 1; } else { e := PositiveSumHasEdge(es, sel, k - 1); }
  }

  lemma {:induction false} MatrixRow(es: seq<Edge>, m: Matrix, s: set<nat>, a: nat, n: nat)
    requires a < ADJ_DIM && n <= ADJ_DIM && forall b: nat :: b < n ==> b in s
    requires forall b: nat :: b < ADJ_DIM ==> At(m, a, b) == Sum(es, Pair(a, b))
    ensures Row(m, a, s, n) == RowTotal(es, a, n, |es|)
  {
    if n > 0 { MatrixRow(es, m, s, a, n - 1); }
  }

  lemma {:induction false} MatrixColumn(es: seq<Edge>, m: Matrix, s: set<nat>, b: nat, n: nat)
    requires b < ADJ_DIM && n <= ADJ_DIM && forall a: nat :: a < n ==> a in s
    requires forall a: nat :: a < ADJ_DIM ==> At(m, a, b) == Sum(es, Pair(a, b))
    ensures CrossUpTo(m, s, {b}, n, ADJ_DIM) == ColumnTotal(es, b, n, |es|)
  {
    if n > 0 {
      MatrixColumn(es, m, s, b, n - 1);
      RowSingle(m, n - 1, b, ADJ_DIM);
    }
  }

  /** In a sound graph whose caches are true, the cached sums of a node are the
      sums of its matrix row and of its matrix column. */
  lemma CachesAreMargins(ns: seq<Node>, es: seq<Edge>, lists: seq<seq<nat>>, m: Matrix, outgoing: seq<int>,
                         incoming: seq<int>, a: nat)
    requires Linked(ns, es, lists) && |ns| <= ADJ_DIM && Totals(es, m, outgoing, incoming) && a < ADJ_DIM
    ensures outgoing[a] == Row(m, a, Below(ADJ_DIM), ADJ_DIM)
    ensures incoming[a] == Cross(m, Below(ADJ_DIM), {a}, ADJ_DIM)
  {
    MatrixRow(es, m, Below(ADJ_DIM), a, ADJ_DIM);
    MatrixColumn(es, m, Below(ADJ_DIM), a, ADJ_DIM);
    forall e | 0 <= e < |es| && es[e].active ensures es[e].from < ADJ_DIM && es[e].to < ADJ_DIM {
      assert Occupied(ns, es[e].from) && Occupied(ns, es[e].to);
    }
    RowTotalIsOutgoing(es, a, ADJ_DIM, |es|);
    ColumnTotalIsIncoming(es, a, ADJ_DIM, |es|);
  }

  /** Taking weight off never saturates. */
  lemma FitsLess(es: seq<Edge>, f: nat, t: nat, less: nat, m: Matrix, outgoing: seq<int>, incoming: seq<int>)
    requires f < ADJ_DIM && t < ADJ_DIM
    requires |outgoing| == |incoming| == ADJ_DIM
    requires outgoing[f] <= U64_MAX && incoming[t] <= U64_MAX
    ensures Totals(es, m, outgoing, incoming) ==> Fits(es, f, t, less, 0)
  {}
}
