/** The edge array of the coherence graph, its intrusive lists and its sums, as
    facts about sequences (`rvm-coherence/src/graph.rs`). */
module EdgeLists {
  import opened Cuts
  import opened Types

  /** The sentinel `u16::MAX` of an unused link. */
  type u16 = x: nat | x <= 0xFFFF

  const INVALID: u16 := 65535

  datatype Node = Node(partition: Option<PartitionId>, firstEdge: nat)

  datatype Edge = Edge(from: nat, to: nat, weight: u64, nextFrom: nat, active: bool)

  const EMPTY_NODE := Node(None, INVALID)
  const EMPTY_EDGE := Edge(0, 0, 0, INVALID, false)

  // ---- lists -----------------------------------------------------------------

  ghost function Next(list: seq<nat>, k: int): nat
    requires -1 <= k < |list|
  {
    if k + 1 < |list| then list[k + 1] else INVALID
  }

  ghost predicate LinkAt(es: seq<Edge>, list: seq<nat>, k: int)
    requires 0 <= k < |list|
  {
    list[k] < |es| && es[list[k]].nextFrom == Next(list, k)
  }

  /** Following `nextFrom` from `start` visits exactly the edges of `list`. */
  ghost predicate Chain(es: seq<Edge>, start: nat, list: seq<nat>) {
    && start == Next(list, -1)
    && forall k {:trigger LinkAt(es, list, k)} :: 0 <= k < |list| ==> LinkAt(es, list, k)
  }

  /** The list of a node holds active edges leaving that node, each once. */
  ghost predicate ListOf(es: seq<Edge>, node: nat, start: nat, list: seq<nat>) {
    && Chain(es, start, list) && NoRepeats(list)
    && forall k :: 0 <= k < |list| ==> list[k] < |es| && es[list[k]].active && es[list[k]].from == node
  }

  ghost predicate Occupied(ns: seq<Node>, i: nat) {
    i < |ns| && ns[i].partition.Some?
  }

  /** Every list is a proper one, every active edge joins two occupied nodes and
      is on the list of its source, and a free node has no list. */
  ghost predicate Linked(ns: seq<Node>, es: seq<Edge>, lists: seq<seq<nat>>) {
    && |lists| == |ns| && |es| <= INVALID
    && (forall i :: 0 <= i < |ns| ==> ListOf(es, i, ns[i].firstEdge, lists[i]))
    && (forall e :: 0 <= e < |es| && es[e].active ==>
          Occupied(ns, es[e].from) && Occupied(ns, es[e].to) && e in lists[es[e].from])
  }

  lemma FreeNodeHasNoList(ns: seq<Node>, es: seq<Edge>, lists: seq<seq<nat>>, i: nat)
    requires Linked(ns, es, lists) && i < |ns| && ns[i].partition.None?
    ensures |lists| == |ns| && lists[i] == [] && ns[i].firstEdge == INVALID
  {
    assert ListOf(es, i, ns[i].firstEdge, lists[i]);
    assert |lists[i]| > 0 ==> Occupied(ns, es[lists[i][0]].from);
  }

  /** A list survives any change to the array that leaves its edges' links alone. */
  lemma ListKept(es: seq<Edge>, es': seq<Edge>, node: nat, start: nat, list: seq<nat>)
    requires ListOf(es, node, start, list) && |es'| == |es|
    requires forall k :: 0 <= k < |list| ==>
      var e := list[k]; es'[e].nextFrom == es[e].nextFrom && es'[e].active && es'[e].from == node
    ensures ListOf(es', node, start, list)
  {
    forall k | 0 <= k < |list| ensures LinkAt(es', list, k) {
      assert LinkAt(es, list, k);
    }
  }

  ghost function AddedNodes(ns: seq<Node>, e: nat, f: nat): seq<Node>
    requires f < |ns|
  {
    ns[f := ns[f].(firstEdge := e)]
  }

  ghost function AddedEdges(ns: seq<Node>, es: seq<Edge>, e: nat, f: nat, t: nat, w: u64): seq<Edge>
    requires e < |es| && f < |ns|
  {
    es[e := Edge(f, t, w, ns[f].firstEdge, true)]
  }

  lemma Prepend(es: seq<Edge>, node: nat, start: nat, list: seq<nat>, e: nat, t: nat, w: u64)
    requires ListOf(es, node, start, list) && e < |es| && !es[e].active
    ensures ListOf(es[e := Edge(node, t, w, start, true)], node, e, [e] + list)
  {
    var es', list' := es[e := Edge(node, t, w, start, true)], [e] + list;
    forall k | 0 <= k < |list'| ensures LinkAt(es', list', k) {
      if k > 0 {
        assert list'[k] == list[k - 1] && LinkAt(es, list, k - 1);
        assert Next(list', k) == Next(list, k - 1);
      } else {
        assert Next(list', 0) == Next(list, -1);
      }
    }
  }

  /** Prepending a new edge to its source's list keeps the graph linked. */
  lemma AddLinked(ns: seq<Node>, es: seq<Edge>, lists: seq<seq<nat>>, e: nat, f: nat, t: nat, w: u64)
    requires Linked(ns, es, lists) && e < |es| && !es[e].active
    requires Occupied(ns, f) && Occupied(ns, t)
    ensures |lists| == |ns|
    ensures Linked(AddedNodes(ns, e, f), AddedEdges(ns, es, e, f, t, w), lists[f := [e] + lists[f]])
  {
    var ns', es', lists' := AddedNodes(ns, e, f), AddedEdges(ns, es, e, f, t, w), lists[f := [e] + lists[f]];
    forall i | 0 <= i < |ns'| ensures ListOf(es', i, ns'[i].firstEdge, lists'[i]) {
      assert ListOf(es, i, ns[i].firstEdge, lists[i]);
      if i == f {
        Prepend(es, f, ns[f].firstEdge, lists[f], e, t, w);
      } else {
        ListKept(es, es', i, ns[i].firstEdge, lists[i]);
      }
    }
    forall x | 0 <= x < |es'| && es'[x].active
      ensures Occupied(ns', es'[x].from) && Occupied(ns', es'[x].to) && x in lists'[es'[x].from]
    {
      if x == e {
        assert lists'[f][0] == e;
      } else {
        assert Occupied(ns, es[x].from) && Occupied(ns, es[x].to) && x in lists[es[x].from];
      }
    }
  }

  ghost function Without(list: seq<nat>, p: nat): seq<nat>
    requires p < |list|
  {
    list[..p] + list[p + 1..]
  }

  /** The node array after the edge at position `p` of the list of `f` is unlinked. */
  ghost function RemovedNodes(ns: seq<Node>, list: seq<nat>, f: nat, p: nat): seq<Node>
    requires f < |ns| && p < |list|
  {
    if p == 0 then ns[f := ns[f].(firstEdge := Next(list, 0))] else ns
  }

  ghost function RemovedEdges(es: seq<Edge>, list: seq<nat>, p: nat): seq<Edge>
    requires p < |list| && forall k :: 0 <= k < |list| ==> list[k] < |es|
  {
    var bypassed := if p == 0 then es else es[list[p - 1] := es[list[p - 1]].(nextFrom := Next(list, p))];
    bypassed[list[p] := bypassed[list[p]].(active := false)]
  }

  /** Position of the `k`-th element of the shortened list in the old one. */
  ghost function Skip(p: nat, k: nat): nat {
    if k < p then k else k + 1
  }

  lemma WithoutLink(es: seq<Edge>, list: seq<nat>, p: nat, k: nat)
    requires p < |list| && k < |list| - 1 && NoRepeats(list)
    requires forall j :: 0 <= j < |list| ==> list[j] < |es|
    requires LinkAt(es, list, p) && LinkAt(es, list, Skip(p, k))
    ensures LinkAt(RemovedEdges(es, list, p), Without(list, p), k)
    ensures list[Skip(p, k)] < |es| && RemovedEdges(es, list, p)[list[Skip(p, k)]].active == es[list[Skip(p, k)]].active
    ensures RemovedEdges(es, list, p)[list[Skip(p, k)]].from == es[list[Skip(p, k)]].from
  {
    var list', k0 := Without(list, p), Skip(p, k);
    assert list'[k] == list[k0] != list[p];
    if k == p - 1 {
      assert Next(list', k) == Next(list, p);
    } else {
      assert Next(list', k) == Next(list, k0);
      assert p > 0 ==> list[k0] != list[p - 1];
    }
  }

  lemma WithoutMembers(list: seq<nat>, p: nat, x: nat)
    requires p < |list| && x in list && x != list[p]
    ensures x in Without(list, p)
  {
    var k :| 0 <= k < |list| && list[k] == x;
    assert Without(list, p)[if k < p then k else k - 1] == x;
  }

  lemma WithoutChain(es: seq<Edge>, node: nat, start: nat, list: seq<nat>, p: nat)
    requires ListOf(es, node, start, list) && p < |list|
    ensures ListOf(RemovedEdges(es, list, p), node, if p == 0 then Next(list, 0) else start, Without(list, p))
    ensures forall x :: x in list && x != list[p] ==> x in Without(list, p)
  {
    var es', list' := RemovedEdges(es, list, p), Without(list, p);
    forall k | 0 <= k < |list'|
      ensures LinkAt(es', list', k)
      ensures list'[k] < |es'| && es'[list'[k]].active && es'[list'[k]].from == node
    {
      assert LinkAt(es, list, p) && LinkAt(es, list, Skip(p, k));
      WithoutLink(es, list, p, k);
      assert list'[k] == list[Skip(p, k)];
    }
    forall x | x in list && x != list[p] ensures x in list' {
      WithoutMembers(list, p, x);
    }
  }

  lemma OtherListKept(es: seq<Edge>, list: seq<nat>, f: nat, p: nat, node: nat, start: nat, other: seq<nat>)
    requires p < |list| && forall k :: 0 <= k < |list| ==> list[k] < |es| && es[list[k]].from == f
    requires ListOf(es, node, start, other) && node != f
    ensures ListOf(RemovedEdges(es, list, p), node, start, other)
  {
    ListKept(es, RemovedEdges(es, list, p), node, start, other);
  }

  /** Unlinking one edge keeps the graph linked. */
  lemma RemoveLinked(ns: seq<Node>, es: seq<Edge>, lists: seq<seq<nat>>, f: nat, p: nat)
    requires Linked(ns, es, lists) && f < |ns| && p < |lists[f]|
    requires ListOf(es, f, ns[f].firstEdge, lists[f])
    ensures Linked(RemovedNodes(ns, lists[f], f, p), RemovedEdges(es, lists[f], p), lists[f := Without(lists[f], p)])
  {
    var list := lists[f];
    var ns', es', lists' := RemovedNodes(ns, list, f, p), RemovedEdges(es, list, p), lists[f := Without(list, p)];
    WithoutChain(es, f, ns[f].firstEdge, list, p);
    forall i | 0 <= i < |ns'| ensures ListOf(es', i, ns'[i].firstEdge, lists'[i]) {
      assert ListOf(es, i, ns[i].firstEdge, lists[i]);
      if i != f {
        OtherListKept(es, list, f, p, i, ns[i].firstEdge, lists[i]);
      }
    }
    forall x | 0 <= x < |es'| && es'[x].active
      ensures Occupied(ns', es'[x].from) && Occupied(ns', es'[x].to) && x in lists'[es'[x].from]
    {
      assert es[x].active && x != list[p];
      assert Occupied(ns, es[x].from) && Occupied(ns, es[x].to) && x in lists[es[x].from];
    }
  }

  // ---- sums --------------------------------------------------------------------

  /** Which edges a sum counts. */
  datatype Selector = Pair(a: nat, b: nat) | From(a: nat) | To(b: nat)

  ghost predicate Selects(sel: Selector, e: Edge) {
    e.active && match sel
      case Pair(a, b) => e.from == a && e.to == b
      case From(a) => e.from == a
      case To(b) => e.to == b
  }

  /** What one array slot adds to a sum. */
  ghost function Share(sel: Selector, e: Edge): nat {
    if Selects(sel, e) then e.weight else 0
  }

  ghost function SumUpTo(es: seq<Edge>, sel: Selector, k: nat): nat
    requires k <= |es|
  {
    if k == 0 then 0 else SumUpTo(es, sel, k - 1) + Share(sel, es[k - 1])
  }

  /** Total weight of the selected active edges. */
  ghost function Sum(es: seq<Edge>, sel: Selector): nat {
    SumUpTo(es, sel, |es|)
  }

  lemma {:induction false} SumChange(es: seq<Edge>, es': seq<Edge>, sel: Selector, e: nat, k: nat)
    requires |es'| == |es| && e < |es| && k <= |es|
    requires forall x :: 0 <= x < |es| && x != e ==> Share(sel, es'[x]) == Share(sel, es[x])
    ensures SumUpTo(es', sel, k) + (if e < k then Share(sel, es[e]) else 0) ==
            SumUpTo(es, sel, k) + (if e < k then Share(sel, es'[e]) else 0)
  {
    if k > 0 { SumChange(es, es', sel, e, k - 1); }
  }

  lemma {:induction false} SumCovers(es: seq<Edge>, sel: Selector, e: nat, k: nat)
    requires k <= |es| && e < k
    ensures Share(sel, es[e]) <= SumUpTo(es, sel, k)
  {
    if e < k - 1 { SumCovers(es, sel, e, k - 1); }
  }

  lemma {:induction false} PairWithin(es: seq<Edge>, a: nat, b: nat, k: nat)
    requires k <= |es|
    ensures SumUpTo(es, Pair(a, b), k) <= SumUpTo(es, From(a), k)
    ensures SumUpTo(es, Pair(a, b), k) <= SumUpTo(es, To(b), k)
  {
    if k > 0 { PairWithin(es, a, b, k - 1); }
  }

  /** Row `a` of the pair sums up to column `n`. */
  ghost function RowTotal(es: seq<Edge>, a: nat, n: nat, k: nat): nat
    requires k <= |es|
  {
    if n == 0 then 0 else RowTotal(es, a, n - 1, k) + SumUpTo(es, Pair(a, n - 1), k)
  }

  lemma {:induction false} RowTotalStep(es: seq<Edge>, a: nat, n: nat, k: nat)
    requires 1 <= k <= |es|
    ensures RowTotal(es, a, n, k) ==
            RowTotal(es, a, n, k - 1) +
            if Selects(From(a), es[k - 1]) && es[k - 1].to < n then es[k - 1].weight else 0
  {
    if n > 0 { RowTotalStep(es, a, n - 1, k); }
  }

  lemma {:induction false} RowTotalEmpty(es: seq<Edge>, a: nat, n: nat)
    ensures RowTotal(es, a, n, 0) == 0
  {
    if n > 0 { RowTotalEmpty(es, a, n - 1); }
  }

  /** The outgoing sum of a node is the sum of its row of pair sums. */
  lemma {:induction false} RowTotalIsOutgoing(es: seq<Edge>, a: nat, n: nat, k: nat)
    requires k <= |es| && forall e :: 0 <= e < |es| && es[e].active ==> es[e].to < n
    ensures RowTotal(es, a, n, k) == SumUpTo(es, From(a), k)
  {
    if k == 0 { RowTotalEmpty(es, a, n); } else {
      RowTotalIsOutgoing(es, a, n, k - 1);
      RowTotalStep(es, a, n, k);
    }
  }

  /** Column `b` of the pair sums up to row `n`. */
  ghost function ColumnTotal(es: seq<Edge>, b: nat, n: nat, k: nat): nat
    requires k <= |es|
  {
    if n == 0 then 0 else ColumnTotal(es, b, n - 1, k) + SumUpTo(es, Pair(n - 1, b), k)
  }

  lemma {:induction false} ColumnTotalStep(es: seq<Edge>, b: nat, n: nat, k: nat)
    requires 1 <= k <= |es|
    ensures ColumnTotal(es, b, n, k) ==
            ColumnTotal(es, b, n, k - 1) +
            if Selects(To(b), es[k - 1]) && es[k - 1].from < n then es[k - 1].weight else 0
  {
    if n > 0 { ColumnTotalStep(es, b, n - 1, k); }
  }

  /** The incoming sum of a node is the sum of its column of pair sums. */
  lemma {:induction false} ColumnTotalIsIncoming(es: seq<Edge>, b: nat, n: nat, k: nat)
    requires k <= |es| && forall e :: 0 <= e < |es| && es[e].active ==> es[e].from < n
    ensures ColumnTotal(es, b, n, k) == SumUpTo(es, To(b), k)
  {
    if k == 0 {
      ColumnTotalEmpty(es, b, n);
    } else {
      ColumnTotalIsIncoming(es, b, n, k - 1);
      ColumnTotalStep(es, b, n, k);
    }
  }

  lemma {:induction false} ColumnTotalEmpty(es: seq<Edge>, b: nat, n: nat)
    ensures ColumnTotal(es, b, n, 0) == 0
  {
    if n > 0 { ColumnTotalEmpty(es, b, n - 1); }
  }

  /** Number of active edges among the first `k`. */
  ghost function ActiveUpTo(es: seq<Edge>, k: nat): nat
    requires k <= |es|
  {
    if k == 0 then 0 else ActiveUpTo(es, k - 1) + if es[k - 1].active then 1 else 0
  }

  lemma {:induction false} ActiveChange(es: seq<Edge>, es': seq<Edge>, e: nat, k: nat)
    requires |es'| == |es| && e < |es| && k <= |es|
    requires forall x :: 0 <= x < |es| && x != e ==> es'[x].active == es[x].active
    ensures ActiveUpTo(es', k) + (if e < k && es[e].active then 1 else 0) ==
            ActiveUpTo(es, k) + (if e < k && es'[e].active then 1 else 0)
  {
    if k > 0 { ActiveChange(es, es', e, k - 1); }
  }

  // ---- nodes ---------------------------------------------------------------------

  /** No partition has two nodes. */
  ghost predicate UniquePartitions(ns: seq<Node>) {
    forall i, j :: 0 <= i < j < |ns| && ns[i].partition.Some? ==> ns[i].partition != ns[j].partition
  }

  /** The linear scan: lowest node from `k` on that holds `pid`. */
  ghost function Scan(ns: seq<Node>, pid: PartitionId, k: nat): (r: Option<nat>)
    requires k <= |ns|
    ensures r.Some? ==> k <= r.value < |ns| && ns[r.value].partition == Some(pid)
    ensures r.None? ==> forall i :: k <= i < |ns| ==> ns[i].partition != Some(pid)
    decreases |ns| - k
  {
    if k == |ns| then None
    else if ns[k].partition == Some(pid) then Some(k)
    else Scan(ns, pid, k + 1)
  }

  ghost function OccupiedUpTo(ns: seq<Node>, k: nat): nat
    requires k <= |ns|
  {
    if k == 0 then 0 else OccupiedUpTo(ns, k - 1) + if ns[k - 1].partition.Some? then 1 else 0
  }

  lemma {:induction false} OccupiedChange(ns: seq<Node>, ns': seq<Node>, i: nat, k: nat)
    requires |ns'| == |ns| && i < |ns| && k <= |ns|
    requires forall x :: 0 <= x < |ns| && x != i ==> ns'[x].partition.Some? == ns[x].partition.Some?
    ensures OccupiedUpTo(ns', k) + (if i < k && ns[i].partition.Some? then 1 else 0) ==
            OccupiedUpTo(ns, k) + (if i < k && ns'[i].partition.Some? then 1 else 0)
  {
    if k > 0 { OccupiedChange(ns, ns', i, k - 1); }
  }
}
