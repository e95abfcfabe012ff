/** Scores, cut pressure and the coherence engine (`rvm-coherence/src/scoring.rs`,
    `pressure.rs` and `engine.rs`). */
module Engine {
  import opened Cuts
  import opened Types
  import opened EdgeLists
  import opened Graph

  const SPLIT_THRESHOLD_BP: nat := 8000
  const MERGE_COHERENCE_THRESHOLD_BP: nat := 4000
  const FULL_BP: nat := 10000

  /** `as u16`. */
  function TruncU16(x: nat): (r: nat) {
    x % 0x1_0000
  }

  function AtMostFull(bp: nat): (r: nat) {
    if bp > FULL_BP then FULL_BP else bp
  }

  /** Unsigned integer division. */
  function Div(x: nat, d: nat): (r: nat)
    requires d > 0
  {
    x / d
  }

  /** Coherence score in basis points from the cached total and the self-loop weight. */
  function ScoreBp(total: u64, internal: u64): nat {
    if total == 0 then FULL_BP else AtMostFull(TruncU16(Div(internal * FULL_BP, total)))
  }

  /** Cut pressure in basis points. */
  function PressureBp(total: u64, internal: u64): nat {
    if total == 0 then 0 else Div(SatSub(total, internal) * FULL_BP, total)
  }

  /** Mutual coherence in basis points. */
  function MutualBp(mutual: u64, totalA: u64, totalB: u64): nat {
    var combined := SatAdd(totalA, totalB);
    if combined == 0 then 0 else AtMostFull(TruncU16(Div(mutual * FULL_BP, combined)))
  }

  // ---- arithmetic of the ratios ----------------------------------------------------

  lemma MulMono(a: int, b: int, d: nat)
    requires a <= b
    ensures a * d <= b * d
  {}

  lemma DivBounds(x: nat, d: nat)
    requires d > 0
    ensures Div(x, d) * d <= x < Div(x, d) * d + d
  {}

  lemma RatioAtMost(x: nat, k: nat, d: nat)
    requires d > 0 && x < (k + 1) * d
    ensures Div(x, d) <= k
  {
    hide Div;
    DivBounds(x, d);
    var q := Div(x, d);
    if q >= k + 1 { MulMono(k + 1, q, d); }
  }

  lemma DivUnique(x: nat, d: nat, q: nat, r: nat)
    requires d > 0 && x == q * d + r && r < d
    ensures Div(x, d) == q
  {
    hide Div;
    assert (q + 1) * d == q * d + d;
    RatioAtMost(x, q, d);
    DivBounds(x, d);
    var p := Div(x, d);
    assert (p + 1) * d == p * d + d;
    if p + 1 <= q { MulMono(p + 1, q, d); }
  }

  /** The floors of two complementary ratios fall at most one short of the whole. */
  lemma Complement(a: nat, b: nat, d: nat)
    requires d > 0 && a + b == FULL_BP * d
    ensures Div(a, d) + Div(b, d) == if Div(a, d) * d == a then FULL_BP else FULL_BP - 1
    ensures Div(a, d) <= FULL_BP
  {
    hide Div;
    var q := Div(a, d);
    DivBounds(a, d);
    assert (FULL_BP + 1) * d == FULL_BP * d + d;
    RatioAtMost(a, FULL_BP, d);
    var r := a - q * d;
    assert (FULL_BP - q) * d == FULL_BP * d - q * d;
    if r == 0 {
      DivUnique(b, d, FULL_BP - q, 0);
    } else {
      assert b == (FULL_BP - q) * d - r;
      assert (FULL_BP - q - 1) * d == (FULL_BP - q) * d - d;
      DivUnique(b, d, FULL_BP - q - 1, d - r);
    }
  }

  lemma SmallRatio(bp: nat)
    requires bp <= FULL_BP
    ensures AtMostFull(TruncU16(bp)) == bp
  {}

  /** `q` is `part` out of `whole` in basis points, rounded down. */
  ghost predicate FloorOf(q: nat, part: nat, whole: nat) {
    q * whole <= part * 10000 < (q + 1) * whole
  }

  lemma DivIsFloor(part: nat, whole: nat, q: nat)
    requires whole > 0
    ensures Div(part * FULL_BP, whole) == q <==> FloorOf(q, part, whole)
  {
    hide Div;
    var x := part * FULL_BP;
    DivBounds(x, whole);
    assert (q + 1) * whole == q * whole + whole;
    if FloorOf(q, part, whole) { DivUnique(x, whole, q, x - q * whole); }
  }

  /** Pressure is the share of the total that is not internal. */
  lemma PressureExactly(total: u64, internal: u64)
    ensures total == 0 ==> PressureBp(total, internal) == 0
    ensures total > 0 ==>
      FloorOf(PressureBp(total, internal), if internal < total then total - internal else 0, total)
  {
    hide Div;
    if total > 0 { DivIsFloor(SatSub(total, internal), total, PressureBp(total, internal)); }
  }

  /** Score and mutual coherence are floors too, of the internal and of the shared weight.
      Cutting to 16 bits, and then to 10000, shows only where the part exceeds the whole. */
  lemma RatiosExactly(part: u64, total: u64, totalA: u64, totalB: u64, q: nat)
    ensures total == 0 ==> ScoreBp(total, part) == 10000
    ensures total > 0 && FloorOf(q, part, total) ==>
      ScoreBp(total, part) == if q % 0x1_0000 > 10000 then 10000 else q % 0x1_0000
    ensures part <= total && FloorOf(q, part, total) ==> q <= 10000
    ensures totalA == 0 == totalB ==> MutualBp(part, totalA, totalB) == 0
    ensures
      var whole := if totalA + totalB < U64_MAX then totalA + totalB else U64_MAX;
      whole > 0 && FloorOf(q, part, whole) ==>
        MutualBp(part, totalA, totalB) == if q % 0x1_0000 > 10000 then 10000 else q % 0x1_0000
  {
    hide Div;
    if total > 0 { DivIsFloor(part, total, q); }
    var whole := SatAdd(totalA, totalB);
    if whole > 0 { DivIsFloor(part, whole, q); }
    if total > 0 && part <= total && FloorOf(q, part, total) && q > 10000 { MulMono(10001, q, total); }
  }

  /** Score and pressure always make up the whole, short of it by one when the
      division leaves a remainder. */
  lemma ScoreAndPressure(total: u64, internal: u64)
    requires internal <= total
    ensures ScoreBp(total, internal) + PressureBp(total, internal) ==
            if total == 0 || Div(internal * FULL_BP, total) * total == internal * FULL_BP then FULL_BP else FULL_BP - 1
  {
    hide AtMostFull, TruncU16, Div;
    if total > 0 {
      var a, b := internal * FULL_BP, (total - internal) * FULL_BP;
      Complement(a, b, total);
      SmallRatio(Div(a, total));
    }
  }

  /** Two nodes of a graph whose true sums do not saturate: what they share, and
      what each keeps to itself, fits twice into what each carries. */
  ghost predicate Shared(totalA: nat, totalB: nat, selfA: nat, selfB: nat, mutual: nat) {
    && 2 * selfA + mutual <= totalA
    && 2 * selfB + mutual <= totalB
    && totalA + totalB <= U64_MAX
  }

  lemma MutualAtMost(mutual: u64, totalA: u64, totalB: u64, k: nat)
    requires 0 < totalA + totalB <= U64_MAX && k <= FULL_BP
    requires mutual * FULL_BP < (k + 1) * (totalA + totalB)
    ensures MutualBp(mutual, totalA, totalB) <= k
  {
    hide AtMostFull, TruncU16, Div;
    RatioAtMost(mutual * FULL_BP, k, totalA + totalB);
    SmallRatio(Div(mutual * FULL_BP, totalA + totalB));
  }

  lemma MutualHalf(totalA: u64, totalB: u64, selfA: u64, selfB: u64, mutual: u64)
    requires Shared(totalA, totalB, selfA, selfB, mutual)
    ensures MutualBp(mutual, totalA, totalB) <= 5000
  {
    if totalA + totalB > 0 {
      MutualAtMost(mutual, totalA, totalB, 5000);
    }
  }

  /** Room matters: two totals at the saturation point that share everything seem fully coherent. */
  lemma SaturatedMutual()
    ensures MutualBp(U64_MAX, U64_MAX, U64_MAX) == 10000
  {}

  lemma LowPressureSelf(total: u64, self: u64)
    requires 0 < total && self <= total && PressureBp(total, self) <= SPLIT_THRESHOLD_BP
    ensures 10000 * self > 1999 * total
  {
    hide Div;
    var x := (total - self) * FULL_BP;
    DivBounds(x, total);
    MulMono(Div(x, total), SPLIT_THRESHOLD_BP, total);
  }

  /** Two partitions that are both below the split threshold talk mostly to
      themselves, so they are far below the merge threshold. */
  lemma LowPressureNoMerge(totalA: u64, totalB: u64, selfA: u64, selfB: u64, mutual: u64)
    requires Shared(totalA, totalB, selfA, selfB, mutual)
    requires PressureBp(totalA, selfA) <= SPLIT_THRESHOLD_BP && PressureBp(totalB, selfB) <= SPLIT_THRESHOLD_BP
    ensures MutualBp(mutual, totalA, totalB) <= 3000
  {
    if totalA + totalB > 0 {
      assert 10000 * mutual < 3001 * (totalA + totalB) by {
        hide PressureBp, MutualBp;
        if totalA > 0 { LowPressureSelf(totalA, selfA); }
        if totalB > 0 { LowPressureSelf(totalB, selfB); }
      }
      hide PressureBp, MutualBp;
      MutualAtMost(mutual, totalA, totalB, 3000);
    } else {
      assert SatAdd(totalA, totalB) == 0;
    }
  }

  // ---- the graph behind the ratios --------------------------------------------------

  lemma {:induction false} TwoPairsWithin(es: seq<Edge>, i: nat, j: nat, k: nat)
    requires k <= |es| && i != j
    ensures SumUpTo(es, Pair(i, i), k) + SumUpTo(es, Pair(i, j), k) <= SumUpTo(es, From(i), k)
    ensures SumUpTo(es, Pair(i, i), k) + SumUpTo(es, Pair(j, i), k) <= SumUpTo(es, To(i), k)
  {
    if k > 0 { TwoPairsWithin(es, i, j, k - 1); }
  }

  /** True total weight at a node: outgoing plus incoming, a self-loop twice. */
  ghost function NodeTotal(es: seq<Edge>, i: nat): nat {
    Sum(es, From(i)) + Sum(es, To(i))
  }

  lemma SharedInGraph(es: seq<Edge>, i: nat, j: nat)
    requires i != j && NodeTotal(es, i) + NodeTotal(es, j) <= U64_MAX
    ensures Shared(NodeTotal(es, i), NodeTotal(es, j), Sum(es, Pair(i, i)), Sum(es, Pair(j, j)),
                   Sum(es, Pair(i, j)) + Sum(es, Pair(j, i)))
  {
    TwoPairsWithin(es, i, j, |es|);
    TwoPairsWithin(es, j, i, |es|);
  }

  datatype PressureResult = PressureResult(
    partition: PartitionId, pressure: nat, shouldSplit: bool, externalWeight: u64, internalWeight: u64)

  method ComputeCutPressure(pid: PartitionId, graph: CoherenceGraph) returns (r: PressureResult)
    requires graph.Sound()
    ensures r.partition == pid && r.pressure == PressureBp(graph.TotalOf(pid), graph.InternalOf(pid))
    ensures r.shouldSplit <==> r.pressure > 8000
    ensures r.internalWeight == graph.InternalOf(pid)
    ensures r.externalWeight == SatSub(graph.TotalOf(pid), graph.InternalOf(pid))
  {
    var total := graph.TotalWeight(pid);
    var internal := graph.InternalWeight(pid);
    var external := SatSub(total, internal);
    var pressureBp := if total == 0 then 0 else Div(external * FULL_BP, total);
    r := PressureResult(pid, pressureBp, pressureBp > SPLIT_THRESHOLD_BP, external, internal);
  }

  method ComputeCoherenceScore(pid: PartitionId, graph: CoherenceGraph) returns (score: nat)
    requires graph.Sound()
    ensures score == ScoreBp(graph.TotalOf(pid), graph.InternalOf(pid))
    ensures graph.Agree() ==>
      score + PressureBp(graph.TotalOf(pid), graph.InternalOf(pid)) in {FULL_BP - 1, FULL_BP}
  {
    var total := graph.TotalWeight(pid);
    var internal := graph.InternalWeight(pid);
    score := if total == 0 then FULL_BP else AtMostFull(TruncU16(Div(internal * FULL_BP, total)));
    if graph.Agree() {
      InternalWithin(graph, pid);
      ScoreAndPressure(total, internal);
    }
  }

  lemma InternalWithin(graph: CoherenceGraph, pid: PartitionId)
    requires graph.Shape() && graph.Agree()
    ensures graph.InternalOf(pid) <= graph.TotalOf(pid)
  {
    graph.QueriesAreTrue(pid, pid);
    var i := Scan(graph.nodes[..], pid, 0);
    if i.Some? {
      PairWithin(graph.edges[..], i.value, i.value, graph.edges.Length);
    }
  }

  /** Mutual coherence of two partitions in the current graph. */
  ghost function MutualOf(graph: CoherenceGraph, a: PartitionId, b: PartitionId): nat
    requires graph.Shape()
    reads graph, graph.nodes, graph.adj, graph.cachedOut, graph.cachedIn
  {
    MutualBp(graph.BetweenOf(a, b), graph.TotalOf(a), graph.TotalOf(b))
  }

  method EvaluateMerge(a: PartitionId, b: PartitionId, graph: CoherenceGraph) returns (mutual: nat, shouldMerge: bool)
    requires graph.Sound()
    ensures mutual == MutualOf(graph, a, b)
    ensures shouldMerge <==> mutual >= 4000
  {
    hide Linked, UniquePartitions;
    var mutualWeight := graph.EdgeWeightBetween(a, b);
    var totalA := graph.TotalWeight(a);
    var totalB := graph.TotalWeight(b);
    var combined := SatAdd(totalA, totalB);
    mutual := if combined == 0 then 0 else AtMostFull(TruncU16(Div(mutualWeight * FULL_BP, combined)));
    shouldMerge := mutual >= MERGE_COHERENCE_THRESHOLD_BP;
  }

  /** Two distinct partitions whose totals do not saturate: their mutual coherence
      is at most one half, and at most 3000 basis points when neither is under
      split pressure. */
  lemma MutualBounds(graph: CoherenceGraph, a: PartitionId, b: PartitionId, i: nat, j: nat)
    requires graph.Shape() && graph.Agree() && i != j
    requires Scan(graph.nodes[..], a, 0) == Some(i) && Scan(graph.nodes[..], b, 0) == Some(j)
    requires NodeTotal(graph.edges[..], i) + NodeTotal(graph.edges[..], j) <= U64_MAX
    ensures MutualOf(graph, a, b) <= 5000
    ensures PressureBp(graph.TotalOf(a), graph.InternalOf(a)) <= 8000
         && PressureBp(graph.TotalOf(b), graph.InternalOf(b)) <= SPLIT_THRESHOLD_BP
         ==> MutualOf(graph, a, b) <= 3000
  {
    graph.QueriesAreTrue(a, b);
    graph.QueriesAreTrue(b, a);
    SharedInGraph(graph.edges[..], i, j);
    var ta, tb := graph.TotalOf(a), graph.TotalOf(b);
    var sa, sb, m := graph.InternalOf(a), graph.InternalOf(b), graph.BetweenOf(a, b);
    MutualHalf(ta, tb, sa, sb, m);
    if PressureBp(ta, sa) <= SPLIT_THRESHOLD_BP && PressureBp(tb, sb) <= SPLIT_THRESHOLD_BP {
      LowPressureNoMerge(ta, tb, sa, sb, m);
    }
  }

  // ---- the engine -----------------------------------------------------------------------

  const ENGINE_MAX_NODES: nat := 32
  const ENGINE_MAX_EDGES: nat := 128
  const EDGE_DECAY_BP: nat := 500
  const I64_MAX: nat := 0x7FFF_FFFF_FFFF_FFFF

  datatype EngineError = InvalidPartitionState | ResourceLimitExceeded | PartitionNotFound | InternalError

  datatype CoherenceDecision =
    | NoAction
    | SplitRecommended(partition: PartitionId, pressure: nat)
    | MergeRecommended(a: PartitionId, b: PartitionId, mutual: nat)

  datatype PartitionEntry = PartitionEntry(id: PartitionId, score: nat, pressure: nat, active: bool)

  ghost predicate HasEntry(es: seq<PartitionEntry>, pid: PartitionId) {
    exists i :: 0 <= i < |es| && es[i].active && es[i].id == pid
  }

  ghost function ActiveEntries(es: seq<PartitionEntry>, k: nat): nat
    requires k <= |es|
  {
    if k == 0 then 0 else ActiveEntries(es, k - 1) + if es[k - 1].active then 1 else 0
  }

  lemma {:induction false} ActiveEntriesChange(es: seq<PartitionEntry>, es': seq<PartitionEntry>, i: nat, k: nat)
    requires |es'| == |es| && i < |es| && k <= |es|
    requires forall x :: 0 <= x < |es| && x != i ==> es'[x].active == es[x].active
    ensures ActiveEntries(es', k) + (if i < k && es[i].active then 1 else 0) ==
            ActiveEntries(es, k) + (if i < k && es'[i].active then 1 else 0)
  {
    if k > 0 { ActiveEntriesChange(es, es', i, k - 1); }
  }

  lemma {:induction false} ActiveEntriesFull(es: seq<PartitionEntry>, k: nat)
    requires k <= |es|
    ensures ActiveEntries(es, k) <= k
    ensures ActiveEntries(es, k) == k <==> forall x :: 0 <= x < k ==> es[x].active
  {
    if k > 0 { ActiveEntriesFull(es, k - 1); }
  }

  lemma {:induction false} OccupiedFull(ns: seq<Node>, k: nat)
    requires k <= |ns|
    ensures OccupiedUpTo(ns, k) <= k
    ensures OccupiedUpTo(ns, k) == k <==> forall x :: 0 <= x < k ==> ns[x].partition.Some?
  {
    if k > 0 { OccupiedFull(ns, k - 1); }
  }

  /** The active entries and the occupied nodes carry the same partitions, each once. */
  ghost predicate InStep(es: seq<PartitionEntry>, ns: seq<Node>) {
    && (forall i :: 0 <= i < |es| && es[i].active ==> Scan(ns, es[i].id, 0).Some?)
    && (forall i, j :: 0 <= i < j < |es| && es[i].active && es[j].active ==> es[i].id != es[j].id)
    && (forall k :: 0 <= k < |ns| && ns[k].partition.Some? ==> HasEntry(es, ns[k].partition.value))
    && ActiveEntries(es, |es|) == OccupiedUpTo(ns, |ns|)
  }

  /** A free node means a free entry. */
  lemma EntryFree(es: seq<PartitionEntry>, ns: seq<Node>, k: nat)
    requires InStep(es, ns) && |es| == |ns| && k < |ns| && ns[k].partition.None?
    ensures exists i :: 0 <= i < |es| && !es[i].active
  {
    OccupiedFull(ns, |ns|);
    ActiveEntriesFull(es, |es|);
  }

  /** Only partitions matter to the agreement with the entries. */
  lemma InStepKept(es: seq<PartitionEntry>, ns: seq<Node>, ns': seq<Node>)
    requires InStep(es, ns) && |ns'| == |ns|
    requires forall k :: 0 <= k < |ns| ==> ns'[k].partition == ns[k].partition
    ensures InStep(es, ns')
  {
    forall pid: PartitionId ensures Scan(ns', pid, 0) == Scan(ns, pid, 0) { ScanKept(ns, ns', pid, 0); }
    SameOccupied(ns, ns', |ns|);
  }

  lemma ScanKept(ns: seq<Node>, ns': seq<Node>, pid: PartitionId, k: nat)
    requires |ns'| == |ns| && k <= |ns|
    requires forall x :: 0 <= x < |ns| ==> ns'[x].partition == ns[x].partition
    ensures Scan(ns', pid, k) == Scan(ns, pid, k)
    decreases |ns| - k
  {
    if k < |ns| { ScanKept(ns, ns', pid, k + 1); }
  }

  lemma {:induction false} SameOccupied(ns: seq<Node>, ns': seq<Node>, k: nat)
    requires |ns'| == |ns| && k <= |ns|
    requires forall x :: 0 <= x < |ns| ==> ns'[x].partition == ns[x].partition
    ensures OccupiedUpTo(ns', k) == OccupiedUpTo(ns, k)
  {
    if k > 0 { SameOccupied(ns, ns', k - 1); }
  }

  lemma InStepAdd(es: seq<PartitionEntry>, ns: seq<Node>, i: nat, k: nat, entry: PartitionEntry)
    requires InStep(es, ns) && i < |es| && !es[i].active && k < |ns| && ns[k].partition.None?
    requires entry.active && Scan(ns, entry.id, 0).None?
    ensures InStep(es[i := entry], ns[k := Node(Some(entry.id), INVALID)])
  {
    var es', ns' := es[i := entry], ns[k := Node(Some(entry.id), INVALID)];
    ActiveEntriesChange(es, es', i, |es|);
    OccupiedChange(ns, ns', k, |ns|);
    forall x | 0 <= x < |es'| && es'[x].active ensures Scan(ns', es'[x].id, 0).Some? {
      if x == i {
        assert ns'[k].partition == Some(entry.id);
      } else {
        var m := Scan(ns, es[x].id, 0).value;
        assert ns'[m].partition == Some(es'[x].id);
      }
    }
    forall m | 0 <= m < |ns'| && ns'[m].partition.Some? ensures HasEntry(es', ns'[m].partition.value) {
      if m == k {
        assert es'[i].active && es'[i].id == ns'[m].partition.value;
      } else {
        assert HasEntry(es, ns[m].partition.value);
        var x :| 0 <= x < |es| && es[x].active && es[x].id == ns[m].partition.value;
        assert es'[x].active;
      }
    }
  }

  lemma InStepRemove(es: seq<PartitionEntry>, ns: seq<Node>, ns': seq<Node>, i: nat, k: nat)
    requires InStep(es, ns) && UniquePartitions(ns) && |ns'| == |ns|
    requires i < |es| && es[i].active && k < |ns| && ns[k].partition == Some(es[i].id)
    requires ns'[k].partition.None? && forall m :: 0 <= m < |ns| && m != k ==> ns'[m].partition == ns[m].partition
    ensures InStep(es[i := es[i].(active := false)], ns')
  {
    var es' := es[i := es[i].(active := false)];
    ActiveEntriesChange(es, es', i, |es|);
    OccupiedChange(ns, ns', k, |ns|);
    forall x | 0 <= x < |es'| && es'[x].active ensures Scan(ns', es'[x].id, 0).Some? {
      var m := Scan(ns, es[x].id, 0).value;
      assert m != k && ns'[m].partition == Some(es'[x].id);
    }
    forall m | 0 <= m < |ns'| && ns'[m].partition.Some? ensures HasEntry(es', ns'[m].partition.value) {
      assert HasEntry(es, ns[m].partition.value);
      var x :| 0 <= x < |es| && es[x].active && es[x].id == ns[m].partition.value;
      assert es'[x].active;
    }
  }

  class CoherenceEngine {
    const graph: CoherenceGraph
    const entries: array<PartitionEntry>
    var epoch: nat

    ghost predicate Valid()
      reads graph, graph.nodes, graph.edges, entries
    {
      && graph.Sound() && graph.nodes.Length == ENGINE_MAX_NODES && graph.edges.Length == ENGINE_MAX_EDGES
      && entries.Length == ENGINE_MAX_NODES
      && InStep(entries[..], graph.nodes[..])
    }

    constructor ()
      ensures fresh(graph) && fresh(graph.nodes) && fresh(graph.edges) && fresh(graph.idToNode) && fresh(graph.adj)
      ensures fresh(graph.cachedOut) && fresh(graph.cachedIn) && fresh(entries)
      ensures Valid() && graph.Agree() && epoch == 0
      ensures graph.nodes.Length == entries.Length == 32 && graph.edges.Length == 128
      ensures forall e :: 0 <= e < graph.edges.Length ==> !graph.edges[e].active
      ensures forall k :: 0 <= k < graph.nodes.Length ==> graph.nodes[k].partition.None?
      ensures forall i :: 0 <= i < entries.Length ==> !entries[i].active
    {
      graph := new CoherenceGraph(ENGINE_MAX_NODES, ENGINE_MAX_EDGES);
      entries := new PartitionEntry[ENGINE_MAX_NODES](_ => PartitionEntry(0, FULL_BP, 0, false));
      epoch := 0;
      new;
      NoEntries(entries[..], entries.Length);
    }

    static lemma {:induction false} NoEntries(es: seq<PartitionEntry>, k: nat)
      requires k <= |es| && forall i :: 0 <= i < |es| ==> !es[i].active
      ensures ActiveEntries(es, k) == 0
    {
      if k > 0 { NoEntries(es, k - 1); }
    }

    /** Registers a partition in graph and entries; the guard of line 189 never fires. */
    method AddPartition(id: PartitionId) returns (r: Result<(), EngineError>)
      requires Valid()
      modifies graph, graph.nodes, graph.idToNode, entries
      ensures Valid() && (old(graph.Agree()) ==> graph.Agree())
      ensures r == Err(InvalidPartitionState) <==> old(Scan(graph.nodes[..], id, 0)).Some?
      ensures r == Err(ResourceLimitExceeded) <==>
        old(Scan(graph.nodes[..], id, 0)).None?
          && forall k :: 0 <= k < ENGINE_MAX_NODES ==> old(graph.nodes[k]).partition.Some?
      ensures r.Err? ==>
        && r.error in {InvalidPartitionState, ResourceLimitExceeded}
        && entries[..] == old(entries[..]) && graph.nodes[..] == old(graph.nodes[..])
      ensures r.Ok? ==> exists i ::
        && 0 <= i < entries.Length && !old(entries[i]).active
        && entries[..] == old(entries[..])[i := PartitionEntry(id, FULL_BP, 0, true)]
      ensures r.Ok? ==> exists k ::
        && 0 <= k < graph.nodes.Length && old(graph.nodes[k]).partition.None?
        && graph.nodes[..] == old(graph.nodes[..])[k := Node(Some(id), INVALID)]
    {
      hide Linked, UniquePartitions, InStep, CoherenceGraph.Agree;
      var added := graph.AddNode(id);
      if added.Err? {
        r := Err(match added.error
                 case DuplicateNode => InvalidPartitionState
                 case NodeCapacityExhausted => ResourceLimitExceeded
                 case _ => InternalError);
        return;
      }
      EntryFree(entries[..], old(graph.nodes[..]), added.value);
      for i := 0 to entries.Length
        invariant entries[..] == old(entries[..])
        invariant forall k :: 0 <= k < i ==> entries[k].active
      {
        if !entries[i].active {
          InStepAdd(entries[..], old(graph.nodes[..]), i, added.value, PartitionEntry(id, FULL_BP, 0, true));
          entries[i] := PartitionEntry(id, FULL_BP, 0, true);
          assert entries[..] == old(entries[..])[i := PartitionEntry(id, FULL_BP, 0, true)];
          return Ok(());
        }
      }
      assert false;
      return Err(ResourceLimitExceeded);
    }

    /** Drops a partition from graph and entries. */
    method RemovePartition(id: PartitionId) returns (r: Result<(), EngineError>)
      requires Valid()
      modifies graph, graph.nodes, graph.edges, graph.adj, graph.cachedOut, graph.cachedIn, graph.idToNode, entries
      ensures Valid() && (old(graph.Agree()) ==> graph.Agree())
      ensures r == Err(PartitionNotFound) <==> old(Scan(graph.nodes[..], id, 0)).None?
      ensures r.Err? ==> r == Err(PartitionNotFound) && entries[..] == old(entries[..])
      ensures r.Ok? ==> exists i ::
        && 0 <= i < entries.Length && old(entries[i]).active && old(entries[i]).id == id
        && entries[..] == old(entries[..])[i := old(entries[i]).(active := false)]
    {
      hide Linked, Totals, UniquePartitions, SameEdge;
      var removed := graph.RemoveNode(id);
      if removed.Err? {
        return Err(PartitionNotFound);
      }
      ghost var k := old(Scan(graph.nodes[..], id, 0)).value;
      assert HasEntry(entries[..], old(graph.nodes[..])[k].partition.value);
      for i := 0 to entries.Length
        invariant entries[..] == old(entries[..])
        invariant forall x :: 0 <= x < i ==> !(entries[x].active && entries[x].id == id)
      {
        if entries[i].active && entries[i].id == id {
          InStepRemove(entries[..], old(graph.nodes[..]), graph.nodes[..], i, k);
          entries[i] := entries[i].(active := false);
          assert entries[..] == old(entries[..])[i := old(entries[i]).(active := false)];
          return Ok(());
        }
      }
      assert false;
      return Ok(());
    }

    /** Adds traffic from one partition to another. An existing edge of positive
        weight takes at most `i64::MAX` at once; otherwise a new edge takes it all. */
    method RecordCommunication(from: PartitionId, to: PartitionId, weight: u64) returns (r: Result<(), EngineError>)
      requires Valid()
      modifies graph, graph.nodes, graph.edges, graph.adj, graph.cachedOut, graph.cachedIn
      ensures Valid() && entries[..] == old(entries[..])
      ensures forall i :: 0 <= i < graph.nodes.Length ==> graph.nodes[i].partition == old(graph.nodes[i]).partition
      ensures var f, t := old(Scan(graph.nodes[..], from, 0)), old(Scan(graph.nodes[..], to, 0));
        && (r == Err(PartitionNotFound) <==> f.None? || t.None?)
        && (old(graph.Agree()) ==>
              (r == Err(ResourceLimitExceeded) <==>
                 && f.Some? && t.Some? && old(Sum(graph.edges[..], Pair(f.value, t.value))) == 0
                 && forall e :: 0 <= e < ENGINE_MAX_EDGES ==> old(graph.edges[e]).active))
        && (r.Err? ==> r.error in {PartitionNotFound, ResourceLimitExceeded} && (old(graph.Agree()) ==> graph.Agree()))
        && (r.Ok? ==> OnlyPairChanged(old(graph.edges[..]), graph.edges[..], f.value, t.value))
        && (r.Ok? && old(graph.Agree()) && Fits(old(graph.edges[..]), f.value, t.value, 0, weight) ==>
              var was := old(Sum(graph.edges[..], Pair(f.value, t.value)));
              && graph.Agree()
              && Sum(graph.edges[..], Pair(f.value, t.value)) ==
                 was + if was > 0 && weight > 0x7FFF_FFFF_FFFF_FFFF then 0x7FFF_FFFF_FFFF_FFFF else weight)
    {
      hide Linked, UniquePartitions, InStep, CoherenceGraph.Agree, Sum, Worth;
      var found := graph.FindDirectedEdge(from, to);
      if found.Some? {
        var delta := if weight > I64_MAX then I64_MAX else weight;
        ghost var es, e := graph.edges[..], graph.edges[found.value];
        var updated := graph.UpdateWeight(found.value, delta);
        if updated.Err? {
          return Err(InternalError);
        }
        InStepKept(entries[..], old(graph.nodes[..]), graph.nodes[..]);
        WeightMoves(es, graph.edges[..], found.value, Cap(e.weight + delta));
        if Fits(es, e.from, e.to, 0, weight) {
          WeightGrows(es, graph.edges[..], found.value, delta);
        }
        return Ok(());
      }
      var added := graph.AddEdge(from, to, weight);
      if added.Err? {
        InStepKept(entries[..], old(graph.nodes[..]), graph.nodes[..]);
        r := Err(match added.error
                 case EdgeCapacityExhausted => ResourceLimitExceeded
                 case NodeNotFound => PartitionNotFound
                 case _ => InternalError);
        return;
      }
      InStepKept(entries[..], old(graph.nodes[..]), graph.nodes[..]);
      ghost var f, t := Scan(old(graph.nodes[..]), from, 0), Scan(old(graph.nodes[..]), to, 0);
      SumsAfter(old(graph.edges[..]), graph.edges[..], added.value, f.value, t.value, 0, weight);
      return Ok(());
    }

    /** The strongest split, else the strongest merge, else nothing. */
    method Recommend() returns (d: CoherenceDecision)
      requires Valid()
      ensures Recommended(graph, entries[..], d)
    {
      hide Linked, Totals, UniquePartitions, InStep, MutualOf;
      var split := HottestEntry();
      if split.Some? {
        d := SplitRecommended(entries[split.value].id, entries[split.value].pressure);
        assert IsHottest(entries[..], d, split.value);
        return;
      }
      d := BestMerge();
    }

    /** The pair loops of `recommend` (lines 337-366). */
    method BestMerge() returns (d: CoherenceDecision)
      requires Valid()
      ensures !d.SplitRecommended? && Found(graph, entries[..], d)
      ensures MutualUpTo(graph, entries[..], entries.Length, 0, Bar(d))
    {
      hide InStep, MutualOf, MutualUpTo, Linked, UniquePartitions;
      d := NoAction;
      NoPairsYet(graph, entries[..], Bar(d));
      for i := 0 to entries.Length
        invariant !d.SplitRecommended? && Found(graph, entries[..], d)
        invariant MutualUpTo(graph, entries[..], i, 0, Bar(d))
      {
        if entries[i].active {
          RowStart(graph, entries[..], i, Bar(d));
          for j := i + 1 to entries.Length
            invariant !d.SplitRecommended? && Found(graph, entries[..], d)
            invariant MutualUpTo(graph, entries[..], i, j, Bar(d))
          {
            ghost var was := d;
            if entries[j].active {
              var mutual, shouldMerge := EvaluateMerge(entries[i].id, entries[j].id, graph);
              if shouldMerge && (d.NoAction? || mutual > d.mutual) {
                d := MergeRecommended(entries[i].id, entries[j].id, mutual);
                HigherBar(graph, entries[..], i, j, Bar(was), mutual - 1);
                assert IsMerge(graph, entries[..], d, i, j);
              }
            }
            PairDone(graph, entries[..], i, j, Bar(was), Bar(d));
          }
        }
        RowDone(graph, entries[..], i, Bar(d));
      }
    }

    /** The first loop of `recommend`: the first entry of greatest split pressure. */
    method HottestEntry() returns (best: Option<nat>)
      requires entries.Length == ENGINE_MAX_NODES
      ensures best.Some? <==> exists i :: 0 <= i < entries.Length && Hot(entries[i])
      ensures best.Some? ==>
        && best.value < entries.Length && Hot(entries[best.value])
        && (forall j :: 0 <= j < entries.Length && Hot(entries[j]) ==>
              entries[j].pressure <= entries[best.value].pressure)
        && (forall j :: 0 <= j < best.value && Hot(entries[j]) ==> entries[j].pressure < entries[best.value].pressure)
    {
      best := None;
      for i := 0 to entries.Length
        invariant best.None? ==> forall j :: 0 <= j < i ==> !Hot(entries[j])
        invariant best.Some? ==>
          && best.value < i && Hot(entries[best.value])
          && (forall j :: 0 <= j < i && Hot(entries[j]) ==> entries[j].pressure <= entries[best.value].pressure)
          && (forall j :: 0 <= j < best.value && Hot(entries[j]) ==> entries[j].pressure < entries[best.value].pressure)
      {
        if entries[i].active && entries[i].pressure > SPLIT_THRESHOLD_BP {
          if best.None? || entries[i].pressure > entries[best.value].pressure {
            best := Some(i);
          }
        }
      }
    }

    /** One epoch: decay, recompute when the adaptive controller says so, recommend. The
        decay leaves so little weight that no sum saturates, so a recomputing epoch of an
        agreeing graph never recommends a merge. */
    method Tick(recompute: bool) returns (d: CoherenceDecision)
      requires Valid()
      modifies this, graph, graph.nodes, graph.edges, graph.adj, graph.cachedOut, graph.cachedIn, entries
      ensures Valid() && epoch == (old(epoch) + 1) % 0x1_0000_0000_0000_0000
      ensures old(graph.Agree()) ==> graph.Agree()
      ensures forall x :: 0 <= x < graph.edges.Length ==>
        SameEdge(graph.edges[x], DecayedEdge(old(graph.edges[x]), 9500))
      ensures !recompute ==> entries[..] == old(entries[..])
      ensures recompute ==> forall i :: 0 <= i < entries.Length ==>
        entries[i] == if old(entries[i]).active then Recomputed(graph, old(entries[i])) else old(entries[i])
      ensures Recommended(graph, entries[..], d) && Roomy(graph.edges[..])
      ensures recompute && old(graph.Agree()) ==> !d.MergeRecommended?
    {
      hide Linked, Totals, UniquePartitions, InStep, Roomy, MutualUpTo, ScoreBp, PressureBp, IsMerge, Decayed;
      hide MutualOf, Recommended, CoherenceGraph.Agree;
      epoch := (epoch + 1) % 0x1_0000_0000_0000_0000;
      var pruned := graph.DecayWeights(EDGE_DECAY_BP);
      InStepKept(entries[..], old(graph.nodes[..]), graph.nodes[..]);
      DecayMakesRoom(old(graph.edges[..]), graph.edges[..]);
      if !recompute {
        d := Recommend();
        return;
      }
      RecomputeEntries();
      d := Recommend();
      if graph.Agree() {
        NoMerge(d);
      }
    }

    lemma NoMerge(d: CoherenceDecision)
      requires Valid() && graph.Agree() && Roomy(graph.edges[..])
      requires forall i :: 0 <= i < entries.Length && entries[i].active ==> entries[i] == Recomputed(graph, entries[i])
      requires Recommended(graph, entries[..], d)
      ensures !d.MergeRecommended?
    {
      hide MutualOf, MutualUpTo, Roomy, InStep, CoherenceGraph.Agree;
      ghost var es := entries[..];
      if forall i :: 0 <= i < |es| ==> !Hot(es[i]) {
        forall i, j | ActivePair(es, i, j) ensures MutualOf(graph, es[i].id, es[j].id) < 4000 {
          NoMergePair(graph, es, i, j);
        }
      }
    }

    method RecomputeEntries()
      requires Valid()
      modifies entries
      ensures Valid()
      ensures forall i :: 0 <= i < entries.Length ==>
        entries[i] == if old(entries[i]).active then Recomputed(graph, old(entries[i])) else old(entries[i])
    {
      hide Linked, Totals, UniquePartitions, InStep;
      for i := 0 to entries.Length
        invariant forall k :: 0 <= k < entries.Length ==>
          entries[k] == if k < i && old(entries[k]).active then Recomputed(graph, old(entries[k])) else old(entries[k])
      {
        if entries[i].active {
          var score := ComputeCoherenceScore(entries[i].id, graph);
          var pr := ComputeCutPressure(entries[i].id, graph);
          entries[i] := entries[i].(score := score, pressure := pr.pressure);
        }
      }
      InStepRescored(old(entries[..]), entries[..], graph.nodes[..]);
    }
  }

  /** Active and over 8000 basis points. */
  ghost predicate Hot(e: PartitionEntry) {
    e.active && e.pressure > 8000
  }

  /** Entry `i` is the first of the hottest ones and is to be split. */
  ghost predicate IsHottest(es: seq<PartitionEntry>, d: CoherenceDecision, i: int) {
    && 0 <= i < |es| && Hot(es[i]) && d == SplitRecommended(es[i].id, es[i].pressure)
    && (forall j :: 0 <= j < |es| && Hot(es[j]) ==> es[j].pressure <= es[i].pressure)
    && (forall j :: 0 <= j < i && Hot(es[j]) ==> es[j].pressure < es[i].pressure)
  }

  /** What the decision must be: to split the first hottest entry if any is hot; else to merge
      the first pair of greatest mutual coherence if that is at least 4000 basis points; else
      nothing. */
  ghost predicate Recommended(graph: CoherenceGraph, es: seq<PartitionEntry>, d: CoherenceDecision)
    requires graph.Shape()
    reads graph, graph.nodes, graph.adj, graph.cachedOut, graph.cachedIn
  {
    if exists i :: 0 <= i < |es| && Hot(es[i]) then exists i :: IsHottest(es, d, i)
    else if exists i, j :: ActivePair(es, i, j) && MutualOf(graph, es[i].id, es[j].id) >= 4000 then
      d.MergeRecommended? && Found(graph, es, d) && MutualUpTo(graph, es, |es|, 0, d.mutual)
    else d == NoAction
  }

  /** The entry with score and pressure taken afresh from the graph. */
  ghost function Recomputed(graph: CoherenceGraph, e: PartitionEntry): PartitionEntry
    requires graph.Shape()
    reads graph, graph.nodes, graph.edges, graph.cachedOut, graph.cachedIn
  {
    var total, internal := graph.TotalOf(e.id), graph.InternalOf(e.id);
    e.(score := ScoreBp(total, internal), pressure := PressureBp(total, internal))
  }

  ghost predicate ActivePair(es: seq<PartitionEntry>, i: int, j: int) {
    0 <= i < j < |es| && es[i].active && es[j].active
  }

  /** Entries `i` and `j` are the first pair of their mutual coherence and are to be merged. */
  ghost predicate IsMerge(graph: CoherenceGraph, es: seq<PartitionEntry>, d: CoherenceDecision, i: int, j: int)
    requires graph.Shape()
    reads graph, graph.nodes, graph.adj, graph.cachedOut, graph.cachedIn
  {
    && ActivePair(es, i, j) && d.MergeRecommended? && d.a == es[i].id && d.b == es[j].id
    && d.mutual == MutualOf(graph, es[i].id, es[j].id) >= 4000 && MutualUpTo(graph, es, i, j, d.mutual - 1)
  }

  ghost predicate Found(graph: CoherenceGraph, es: seq<PartitionEntry>, d: CoherenceDecision)
    requires graph.Shape()
    reads graph, graph.nodes, graph.adj, graph.cachedOut, graph.cachedIn
  {
    d.NoAction? || exists i, j :: IsMerge(graph, es, d, i, j)
  }

  /** What a later pair must exceed. */
  ghost function Bar(d: CoherenceDecision): nat {
    if d.MergeRecommended? then d.mutual else 3999
  }

  /** Pairs scanned before row `m`, and those of row `m` before column `n`, stay within `bar`. */
  ghost predicate MutualUpTo(graph: CoherenceGraph, es: seq<PartitionEntry>, m: int, n: int, bar: nat)
    requires graph.Shape()
    reads graph, graph.nodes, graph.adj, graph.cachedOut, graph.cachedIn
  {
    forall i, j :: ActivePair(es, i, j) && (i < m || (i == m && j < n)) ==> MutualOf(graph, es[i].id, es[j].id) <= bar
  }

  lemma NoPairsYet(graph: CoherenceGraph, es: seq<PartitionEntry>, bar: nat)
    requires graph.Shape()
    ensures MutualUpTo(graph, es, 0, 0, bar)
  {}

  lemma RowStart(graph: CoherenceGraph, es: seq<PartitionEntry>, m: int, bar: nat)
    requires graph.Shape() && MutualUpTo(graph, es, m, 0, bar)
    ensures MutualUpTo(graph, es, m, m + 1, bar)
  {}

  lemma HigherBar(graph: CoherenceGraph, es: seq<PartitionEntry>, m: int, n: int, bar: nat, bar': nat)
    requires graph.Shape() && MutualUpTo(graph, es, m, n, bar) && bar <= bar'
    ensures MutualUpTo(graph, es, m, n, bar')
  {}

  lemma PairDone(graph: CoherenceGraph, es: seq<PartitionEntry>, m: int, n: int, bar: nat, bar': nat)
    requires graph.Shape() && MutualUpTo(graph, es, m, n, bar) && bar <= bar'
    requires ActivePair(es, m, n) ==> MutualOf(graph, es[m].id, es[n].id) <= bar'
    ensures MutualUpTo(graph, es, m, n + 1, bar')
  {}

  lemma RowDone(graph: CoherenceGraph, es: seq<PartitionEntry>, m: int, bar: nat)
    requires graph.Shape() && 0 <= m < |es|
    requires MutualUpTo(graph, es, m, if es[m].active then |es| else 0, bar)
    ensures MutualUpTo(graph, es, m + 1, 0, bar)
  {}

  /** No two nodes carry more than 64 bits of weight between them. */
  ghost predicate Roomy(es: seq<Edge>) {
    forall i: nat, j: nat :: i < ADJ_DIM && j < ADJ_DIM && i != j ==> NodeTotal(es, i) + NodeTotal(es, j) <= U64_MAX
  }

  /** The saturating product keeps whatever one decay step leaves below a ten-thousandth of
      the largest number. */
  lemma DecayedSmall(e: Edge, factor: nat)
    ensures DecayedEdge(e, factor).active ==> DecayedEdge(e, factor).weight <= U64_MAX / 10000
  {}

  lemma {:induction false} SumSmall(es: seq<Edge>, sel: Selector, bound: nat, k: nat)
    requires k <= |es| && forall x :: 0 <= x < |es| && es[x].active ==> es[x].weight <= bound
    ensures SumUpTo(es, sel, k) <= k * bound
  {
    if k > 0 {
      SumSmall(es, sel, bound, k - 1);
      assert k * bound == (k - 1) * bound + bound;
    }
  }

  lemma DecayMakesRoom(es: seq<Edge>, es': seq<Edge>)
    requires |es| == |es'| == ENGINE_MAX_EDGES
    requires forall x :: 0 <= x < |es| ==> SameEdge(es'[x], DecayedEdge(es[x], 9500))
    ensures Roomy(es')
  {
    var bound := U64_MAX / 10000;
    forall x | 0 <= x < |es'| && es'[x].active ensures es'[x].weight <= bound {
      DecayedSmall(es[x], 9500);
    }
    hide Decayed;
    forall i: nat, j: nat | i < ADJ_DIM && j < ADJ_DIM && i != j
      ensures NodeTotal(es', i) + NodeTotal(es', j) <= U64_MAX
    {
      SumSmall(es', From(i), bound, |es'|);
      SumSmall(es', To(i), bound, |es'|);
      SumSmall(es', From(j), bound, |es'|);
      SumSmall(es', To(j), bound, |es'|);
    }
  }

  lemma NoMergePair(graph: CoherenceGraph, es: seq<PartitionEntry>, i: int, j: int)
    requires graph.Sound() && graph.Agree() && Roomy(graph.edges[..])
    requires InStep(es, graph.nodes[..]) && ActivePair(es, i, j)
    requires es[i] == Recomputed(graph, es[i]) && es[j] == Recomputed(graph, es[j]) && !Hot(es[i]) && !Hot(es[j])
    ensures MutualOf(graph, es[i].id, es[j].id) < 4000
  {
    var a, b := Scan(graph.nodes[..], es[i].id, 0), Scan(graph.nodes[..], es[j].id, 0);
    MutualBounds(graph, es[i].id, es[j].id, a.value, b.value);
  }

  lemma InStepRescored(es: seq<PartitionEntry>, es': seq<PartitionEntry>, ns: seq<Node>)
    requires InStep(es, ns) && |es'| == |es|
    requires forall i :: 0 <= i < |es| ==> es'[i].active == es[i].active && es'[i].id == es[i].id
    ensures InStep(es', ns)
  {
    forall k | 0 <= k < |ns| && ns[k].partition.Some? ensures HasEntry(es', ns[k].partition.value) {
      assert HasEntry(es, ns[k].partition.value);
      var i :| 0 <= i < |es| && es[i].active && es[i].id == ns[k].partition.value;
      assert es'[i].active;
    }
    SameActive(es, es', |es|);
  }

  lemma {:induction false} SameActive(es: seq<PartitionEntry>, es': seq<PartitionEntry>, k: nat)
    requires |es'| == |es| && k <= |es|
    requires forall i :: 0 <= i < |es| ==> es'[i].active == es[i].active
    ensures ActiveEntries(es', k) == ActiveEntries(es, k)
  {
    if k > 0 { SameActive(es, es', k - 1); }
  }

  /** No pair but (f, t) has a different weight. */
  ghost predicate OnlyPairChanged(es: seq<Edge>, es': seq<Edge>, f: nat, t: nat) {
    forall a: nat, b: nat :: !(a == f && b == t) ==> Sum(es', Pair(a, b)) == Sum(es, Pair(a, b))
  }

  lemma WeightMoves(es: seq<Edge>, es': seq<Edge>, e: nat, now: u64)
    requires e < |es| && es[e].active && es' == es[e := es[e].(weight := now)]
    ensures OnlyPairChanged(es, es', es[e].from, es[e].to)
  {
    SumsAfter(es, es', e, es[e].from, es[e].to, es[e].weight, now);
  }

  /** A positive delta on an edge whose sums have room moves its pair sum by just that. */
  lemma WeightGrows(es: seq<Edge>, es': seq<Edge>, e: nat, delta: nat)
    requires e < |es| && es[e].active && Fits(es, es[e].from, es[e].to, 0, delta)
    requires es' == es[e := es[e].(weight := Cap(es[e].weight + delta))]
    ensures Sum(es', Pair(es[e].from, es[e].to)) == Sum(es, Pair(es[e].from, es[e].to)) + delta
    ensures Fits(es, es[e].from, es[e].to, es[e].weight, Cap(es[e].weight + delta))
  {
    var f, t, w := es[e].from, es[e].to, es[e].weight;
    SumCovers(es, From(f), e, |es|);
    SumsAfter(es, es', e, f, t, w, w + delta);
  }

  // ---- without recomputation ---------------------------------------------------------------

  /** The only positive pair sum is that of (f, t). */
  ghost predicate OneMessage(es: seq<Edge>, f: nat, t: nat, weight: u64) {
    forall a: nat, b: nat :: Sum(es, Pair(a, b)) == if a == f && b == t then weight else 0
  }

  lemma {:induction false} MarginsOfOne(es: seq<Edge>, f: nat, t: nat, weight: u64, x: nat, n: nat)
    requires OneMessage(es, f, t, weight)
    ensures RowTotal(es, x, n, |es|) == if x == f && t < n then weight else 0
    ensures ColumnTotal(es, x, n, |es|) == if x == t && f < n then weight else 0
  {
    if n > 0 {
      MarginsOfOne(es, f, t, weight, x, n - 1);
      assert Sum(es, Pair(x, n - 1)) == SumUpTo(es, Pair(x, n - 1), |es|);
      assert Sum(es, Pair(n - 1, x)) == SumUpTo(es, Pair(n - 1, x), |es|);
    }
  }

  lemma TotalsOfOne(graph: CoherenceGraph, a: PartitionId, b: PartitionId, f: nat, t: nat, weight: u64)
    requires graph.Sound() && graph.Agree() && f != t && OneMessage(graph.edges[..], f, t, weight)
    requires Scan(graph.nodes[..], a, 0) == Some(f) && Scan(graph.nodes[..], b, 0) == Some(t)
    ensures graph.TotalOf(a) == graph.TotalOf(b) == graph.BetweenOf(a, b) == graph.BetweenOf(b, a) == weight
  {
    var es := graph.edges[..];
    forall e | 0 <= e < |es| && es[e].active ensures es[e].to < ADJ_DIM && es[e].from < ADJ_DIM {
      var _ := EdgeOnList(graph.nodes[..], es, graph.lists, e);
    }
    RowTotalIsOutgoing(es, f, ADJ_DIM, |es|);
    RowTotalIsOutgoing(es, t, ADJ_DIM, |es|);
    ColumnTotalIsIncoming(es, f, ADJ_DIM, |es|);
    ColumnTotalIsIncoming(es, t, ADJ_DIM, |es|);
    MarginsOfOne(es, f, t, weight, f, ADJ_DIM);
    MarginsOfOne(es, f, t, weight, t, ADJ_DIM);
    graph.QueriesAreTrue(a, b);
    graph.QueriesAreTrue(b, a);
  }

  /** Mutual coherence of two partitions that exchanged one message and nothing else. */
  lemma OneMessageMutual(weight: u64)
    requires weight > 0
    ensures MutualBp(weight, weight, weight) == if 2 * weight <= U64_MAX then 5000 else Div(weight * FULL_BP, U64_MAX)
    ensures MutualBp(weight, weight, weight) >= 4000
    ensures weight == U64_MAX ==> MutualBp(weight, weight, weight) == 10000
  {
    hide Div, TruncU16, AtMostFull;
    var x := weight * FULL_BP;
    if 2 * weight <= U64_MAX {
      DivUnique(x, 2 * weight, 5000, 0);
      SmallRatio(5000);
    } else {
      RatioAtMost(x, FULL_BP, U64_MAX);
      SmallRatio(Div(x, U64_MAX));
      DivBounds(x, U64_MAX);
      if weight == U64_MAX { DivUnique(x, U64_MAX, FULL_BP, 0); }
    }
  }

  /** An engine with partitions 1 and 2 and no traffic. */
  method TwoPartitions() returns (engine: CoherenceEngine, ghost i: nat, ghost j: nat)
    ensures fresh(engine) && fresh(engine.graph) && fresh(engine.graph.nodes) && fresh(engine.graph.edges)
    ensures fresh(engine.graph.idToNode) && fresh(engine.graph.adj)
    ensures fresh(engine.graph.cachedOut) && fresh(engine.graph.cachedIn) && fresh(engine.entries)
    ensures engine.Valid() && engine.graph.Agree() && NoTraffic(engine.graph.edges[..])
    ensures i < engine.entries.Length && j < engine.entries.Length && i != j
    ensures engine.entries[i] == PartitionEntry(1, 10000, 0, true)
    ensures engine.entries[j] == PartitionEntry(2, 10000, 0, true)
    ensures forall x :: 0 <= x < engine.entries.Length && x != i && x != j ==> !engine.entries[x].active
  {
    hide CoherenceGraph.Agree, CoherenceGraph.Sound, InStep;
    engine := new CoherenceEngine();
    assert engine.graph.nodes[0].partition.None? && Scan(engine.graph.nodes[..], 1, 0).None?;
    ghost var es := engine.entries[..];
    var first := engine.AddPartition(1);
    assert first.Ok?;
    i :| i < |es| && !es[i].active && engine.entries[..] == es[i := PartitionEntry(1, FULL_BP, 0, true)];
    es := engine.entries[..];
    ghost var ns := engine.graph.nodes[..];
    assert (ns[0].partition.None? || ns[1].partition.None?) && Scan(ns, 2, 0).None?;
    assert ns[0] == engine.graph.nodes[0] && ns[1] == engine.graph.nodes[1];
    var second := engine.AddPartition(2);
    assert second.Ok?;
    j :| j < |es| && !es[j].active && engine.entries[..] == es[j := PartitionEntry(2, FULL_BP, 0, true)];
    es := engine.entries[..];
    assert es[i].active && es[j].active && i != j;
  }

  ghost predicate NoTraffic(es: seq<Edge>) {
    forall e :: 0 <= e < |es| ==> !es[e].active
  }

  /** Recomputing is what excludes merges: pressures of new entries are still zero, so right
      after one message of any weight `recommend` asks for a merge. */
  method MergeBeforeTick(weight: u64) returns (d: CoherenceDecision)
    requires weight > 0
    ensures d.MergeRecommended? && d.mutual == MutualBp(weight, weight, weight)
  {
    hide CoherenceGraph.Agree, CoherenceGraph.Sound, MutualBp, OneMessage;
    var engine;
    ghost var i, j;
    engine, i, j := TwoPartitions();
    ghost var es := engine.entries[..];
    assert es[i].id == 1 && es[j].id == 2;
    ghost var ns := engine.graph.nodes[..];
    ghost var f, t := Scan(ns, 1, 0).value, Scan(ns, 2, 0).value;
    NoWeight(engine.graph.edges[..]);
    var recorded := engine.RecordCommunication(1, 2, weight);
    assert engine.entries[..] == es;
    ScanKept(ns, engine.graph.nodes[..], 1, 0);
    ScanKept(ns, engine.graph.nodes[..], 2, 0);
    TotalsOfOne(engine.graph, 1, 2, f, t, weight);
    OneMessageMutual(weight);
    ghost var lo, hi := if i < j then i else j, if i < j then j else i;
    assert MutualOf(engine.graph, es[lo].id, es[hi].id) == MutualBp(weight, weight, weight);
    d := RecommendFor(engine, es, lo, hi, MutualBp(weight, weight, weight));
  }

  /** The only pair of an engine whose entries are all cold is the one to be merged. */
  method RecommendFor(engine: CoherenceEngine, ghost es: seq<PartitionEntry>, ghost i: nat, ghost j: nat,
                      ghost mutual: nat)
      returns (d: CoherenceDecision)
    requires engine.Valid() && es == engine.entries[..] && ActivePair(es, i, j)
    requires forall x :: 0 <= x < |es| ==> !Hot(es[x]) && (es[x].active ==> x == i || x == j)
    requires MutualOf(engine.graph, es[i].id, es[j].id) == mutual >= MERGE_COHERENCE_THRESHOLD_BP
    ensures d.MergeRecommended? && d.mutual == mutual
  {
    hide CoherenceEngine.Valid, MutualOf;
    d := engine.Recommend();
  }

  lemma NoWeight(es: seq<Edge>)
    requires NoTraffic(es)
    ensures forall sel :: Sum(es, sel) == 0
  {
    forall sel ensures Sum(es, sel) == 0 { SumSmall(es, sel, 0, |es|); }
  }
}
