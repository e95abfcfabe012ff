/** The budgeted Stoer-Wagner minimum cut of `rvm-coherence/src/mincut.rs`. */
module MinCut {
  import opened Cuts
  import opened Types

  const MINCUT_MAX_NODES: nat := 32

  /** A cut. The fixed arrays `left`/`right` and their counts are sequences here. */
  datatype MinCutResult = MinCutResult(
    left: seq<PartitionId>,
    right: seq<PartitionId>,
    cutWeight: u64,
    withinBudget: bool
  )

  const EMPTY_RESULT := MinCutResult([], [], 0, true)

  type SubNode = (nat, PartitionId)

  // ---- what the working arrays hold -------------------------------------

  ghost function TrueUpTo(a: array<bool>, n: nat): (r: set<nat>)
    requires n <= a.Length
    reads a
    ensures forall i: nat :: i in r <==> i < n && a[i]
  {
    set i | i in Below(n) && a[i]
  }

  ghost function GroupOf(a: array2<bool>, g: nat, n: nat): (r: set<nat>)
    requires g < n <= a.Length0 && n <= a.Length1
    reads a
    ensures forall i: nat :: i in r <==> i < n && a[g, i]
  {
    set i | i in Below(n) && a[g, i]
  }

  ghost function GroupsOf(a: array2<bool>, n: nat): (r: seq<set<nat>>)
    requires n <= a.Length0 && n <= a.Length1
    reads a
    ensures |r| == n
    ensures forall g: nat, i: nat :: g < n ==> (i in r[g] <==> i < n && a[g, i])
  {
    seq(n, g requires 0 <= g < n reads a => GroupOf(a, g, n))
  }

  // ---- one phase ----------------------------------------------------------

  /** The scan of lines 331-337: the waiting node with the largest key, the
      first such on a tie. */
  method MostTightlyConnected(active: array<bool>, inA: array<bool>, key: array<u64>, n: nat)
      returns (maxNode: nat)
    requires active.Length == inA.Length == key.Length == MINCUT_MAX_NODES && n <= MINCUT_MAX_NODES
    requires exists i :: 0 <= i < n && active[i] && !inA[i]
    ensures maxNode < n && active[maxNode] && !inA[maxNode]
    ensures forall i :: 0 <= i < n && active[i] && !inA[i] ==> key[i] <= key[maxNode]
    ensures forall i :: 0 <= i < maxNode && active[i] && !inA[i] ==> key[i] < key[maxNode]
  {
    var maxKey: u64 := 0;
    var found := false;
    maxNode := 0;
    for i := 0 to n
      invariant found ==> maxNode < i && active[maxNode] && !inA[maxNode] && maxKey == key[maxNode]
      invariant found ==> forall k :: 0 <= k < i && active[k] && !inA[k] ==> key[k] <= maxKey
      invariant found ==> forall k :: 0 <= k < maxNode && active[k] && !inA[k] ==> key[k] < maxKey
      invariant !found ==> forall k :: 0 <= k < i ==> !active[k] || inA[k]
    {
      if active[i] && !inA[i] && (key[i] > maxKey || !found) {
        maxKey := key[i];
        maxNode := i;
        found := true;
      }
    }
  }

  /** What holds of the arrays of a phase after the nodes of `ord` were added to A. */
  ghost predicate PhaseState(w: Matrix, act: set<nat>, inA: set<nat>, key: seq<int>, ord: seq<nat>, n: nat) {
    && NoRepeats(ord) && MaxAdjacency(w, ord, n)
    && inA == Prefix(ord, |ord|) && inA <= act
    && act <= Below(n) && n <= |key|
    && (forall i :: i in act && i !in inA ==> key[i] == Cap(Row(w, i, inA, n)))
    && (forall k, x :: 1 <= k < |ord| && x in act && x !in inA ==>
          Cap(Row(w, x, Prefix(ord, k), n)) <= Cap(Row(w, ord[k], Prefix(ord, k), n)))
  }

  lemma PrefixOfLonger(ord: seq<nat>, v: nat, k: nat)
    requires k <= |ord|
    ensures Prefix(ord + [v], k) == Prefix(ord, k)
  {
    assert (ord + [v])[..k] == ord[..k];
  }

  lemma MaxAdjacencyStep(w: Matrix, act: set<nat>, inA: set<nat>, key: seq<int>, ord: seq<nat>, v: nat, n: nat)
    requires PhaseState(w, act, inA, key, ord, n) && |ord| >= 1
    requires v in act && v !in inA
    requires forall i :: i in act && i !in inA ==> key[i] <= key[v]
    ensures MaxAdjacency(w, ord + [v], n)
    ensures forall k, x :: 1 <= k < |ord| + 1 && x in act && x !in inA && x != v ==>
      Cap(Row(w, x, Prefix(ord + [v], k), n)) <= Cap(Row(w, (ord + [v])[k], Prefix(ord + [v], k), n))
  {
    var ord' := ord + [v];
    forall k, j | 1 <= k <= j < |ord'|
      ensures Cap(Row(w, ord'[j], Prefix(ord', k), n)) <= Cap(Row(w, ord'[k], Prefix(ord', k), n))
    {
      PrefixOfLonger(ord, v, k);
    }
    forall k, x | 1 <= k < |ord| + 1 && x in act && x !in inA && x != v
      ensures Cap(Row(w, x, Prefix(ord', k), n)) <= Cap(Row(w, ord'[k], Prefix(ord', k), n))
    {
      PrefixOfLonger(ord, v, k);
    }
  }

  lemma SymmetricAt(w: Matrix, n: nat, i: nat, j: nat)
    requires Symmetric(w, n) && i < n && j < n
    ensures At(w, i, j) == At(w, j, i)
  {}

  lemma PhaseStep(w: Matrix, act: set<nat>, inA: set<nat>, key: seq<int>, key': seq<int>, ord: seq<nat>, v: nat, n: nat)
    requires PhaseState(w, act, inA, key, ord, n) && |ord| >= 1 && Symmetric(w, n)
    requires v in act && v !in inA
    requires forall i :: i in act && i !in inA ==> key[i] <= key[v]
    requires |key'| == |key|
    requires forall i :: i in act && i !in inA && i != v ==> key'[i] == Cap(key[i] + At(w, v, i))
    ensures PhaseState(w, act, inA + {v}, key', ord + [v], n)
  {
    hide Row, MaxAdjacency, Symmetric;
    var ord' := ord + [v];
    PrefixOfLonger(ord, v, |ord|);
    PrefixStep(ord', |ord|);
    MaxAdjacencyStep(w, act, inA, key, ord, v, n);
    assert NoRepeats(ord') by {
      assert forall x :: x in ord ==> x in ord[..|ord|];
    }
    forall i | i in act && i !in inA && i != v
      ensures key'[i] == Cap(Row(w, i, inA + {v}, n))
    {
      assert At(w, v, i) == At(w, i, v) by { SymmetricAt(w, n, v, i); }
      RowSplit(w, i, inA, {v}, n);
      RowSingle(w, i, v, n);
    }
  }

  /** The key update of lines 344-348: nodes still waiting gain their edge to `node`. */
  method UpdateKeys(w: array2<u64>, active: array<bool>, inA: array<bool>, key: array<u64>, node: nat, n: nat)
    requires w.Length0 == w.Length1 == active.Length == inA.Length == key.Length == MINCUT_MAX_NODES
    requires node < n <= MINCUT_MAX_NODES && active != inA && inA[node]
    modifies key
    ensures forall k :: 0 <= k < n ==>
      key[k] == if active[k] && !inA[k] then SatAdd(old(key[k]), w[node, k]) else old(key[k])
  {
    for i := 0 to n
      invariant forall k :: i <= k < n ==> key[k] == old(key[k])
      invariant forall k :: 0 <= k < i ==>
        key[k] == if active[k] && !inA[k] then SatAdd(old(key[k]), w[node, k]) else old(key[k])
    {
      if active[i] && !inA[i] {
        key[i] := SatAdd(key[i], w[node, i]);
      }
    }
  }

  /** Picks the first active node, puts it in A and keys the others by their
      edge to it (lines 316-325). */
  method StartPhase(w: array2<u64>, active: array<bool>, inA: array<bool>, key: array<u64>, n: nat)
      returns (start: nat)
    requires w.Length0 == w.Length1 == active.Length == inA.Length == key.Length == MINCUT_MAX_NODES
    requires n <= MINCUT_MAX_NODES && active != inA && Symmetric(RowsOf(w), n)
    requires TrueUpTo(active, n) != {} && forall i :: 0 <= i < n ==> !inA[i]
    modifies inA, key
    ensures start < n && active[start] && TrueUpTo(inA, n) == {start}
    ensures forall i :: 0 <= i < start ==> !active[i]
    ensures PhaseState(RowsOf(w), TrueUpTo(active, n), {start}, Values(key), [start], n)
  {
    hide Row, PhaseState, Symmetric, RowsOf;
    start := FirstActive(active, n);
    inA[start] := true;
    for i := 0 to n
      modifies key
      invariant forall k :: 0 <= k < i && active[k] && !inA[k] ==> key[k] == w[start, k]
    {
      if active[i] && !inA[i] {
        key[i] := w[start, i];
      }
    }
    forall i | i in TrueUpTo(active, n) && i != start ensures Values(key)[i] == At(RowsOf(w), start, i) {}
    FirstState(RowsOf(w), TrueUpTo(active, n), Values(key), start, n);
  }

  method FirstActive(active: array<bool>, n: nat) returns (start: nat)
    requires n <= active.Length && TrueUpTo(active, n) != {}
    ensures start < n && active[start] && forall i :: 0 <= i < start ==> !active[i]
  {
    ghost var some :| some in TrueUpTo(active, n);
    start := 0;
    while !active[start]
      invariant start <= some && forall i :: 0 <= i < start ==> !active[i]
      decreases n - start
    {
      start := start + 1;
    }
  }

  lemma FirstState(w: Matrix, act: set<nat>, key: seq<int>, start: nat, n: nat)
    requires Symmetric(w, n) && start in act && act <= Below(n) && n <= |key|
    requires forall i :: i in act && i != start ==> key[i] == At(w, start, i) <= U64_MAX
    ensures PhaseState(w, act, {start}, key, [start], n)
  {
    hide Row;
    var ord := [start];
    assert Prefix(ord, 1) == {start} by { assert ord[..1] == [start]; }
    forall i | i in act && i != start ensures key[i] == Cap(Row(w, i, {start}, n)) {
      RowSingle(w, i, start, n);
      assert At(w, i, start) == At(w, start, i);
    }
  }

  /** Moves the most tightly connected waiting node into A (lines 328-349). */
  method AddNext(w: array2<u64>, active: array<bool>, inA: array<bool>, key: array<u64>, n: nat, ghost ord: seq<nat>)
      returns (maxNode: nat)
    requires w.Length0 == w.Length1 == active.Length == inA.Length == key.Length == MINCUT_MAX_NODES
    requires n <= MINCUT_MAX_NODES && active != inA && Symmetric(RowsOf(w), n)
    requires PhaseState(RowsOf(w), TrueUpTo(active, n), TrueUpTo(inA, n), Values(key), ord, n)
    requires 1 <= |ord| < |TrueUpTo(active, n)|
    modifies inA, key
    ensures maxNode < n && active[maxNode] && old(!inA[maxNode])
    ensures TrueUpTo(inA, n) == old(TrueUpTo(inA, n)) + {maxNode}
    ensures PhaseState(RowsOf(w), TrueUpTo(active, n), TrueUpTo(inA, n), Values(key), ord + [maxNode], n)
    ensures key[maxNode] == Cap(Row(RowsOf(w), maxNode, Prefix(ord, |ord|), n))
  {
    hide Symmetric, MaxAdjacency, NoRepeats, Row;
    ghost var act := TrueUpTo(active, n);
    ghost var before := TrueUpTo(inA, n);
    ghost var rows := RowsOf(w);
    WaitingExists(act, before, ord);
    ghost var waiting :| waiting in act && waiting !in before;
    assert active[waiting] && !inA[waiting];
    maxNode := MostTightlyConnected(active, inA, key, n);
    inA[maxNode] := true;
    ghost var oldKey := Values(key);
    UpdateKeys(w, active, inA, key, maxNode, n);
    assert TrueUpTo(inA, n) == before + {maxNode};
    forall i | i in act && i !in before && i != maxNode
      ensures Values(key)[i] == Cap(oldKey[i] + At(rows, maxNode, i))
    {
      assert At(rows, maxNode, i) == w[maxNode, i];
    }
    PhaseStep(rows, act, before, oldKey, Values(key), ord, maxNode, n);
  }

  /** One maximum-adjacency phase. `cut` is the cheapest way to part the last
      two nodes reached, and it is the weight of cutting off the last one. */
  method MinimumCutPhase(w: array2<u64>, active: array<bool>, activeCount: nat, n: nat)
      returns (secondToLast: nat, last: nat, cutWeight: u64)
    requires w.Length0 == w.Length1 == active.Length == MINCUT_MAX_NODES && n <= MINCUT_MAX_NODES
    requires Symmetric(RowsOf(w), n)
    requires activeCount == |TrueUpTo(active, n)| >= 2
    ensures secondToLast != last && secondToLast < n && last < n && active[secondToLast] && active[last]
    ensures exists i :: 0 <= i < last && active[i]
    ensures cutWeight == Cap(Cut(RowsOf(w), TrueUpTo(active, n), {last}, n))
    ensures forall side :: side <= TrueUpTo(active, n) && (last in side) != (secondToLast in side) ==>
      cutWeight <= Cap(Cut(RowsOf(w), TrueUpTo(active, n), side, n))
  {
    hide PhaseState, Row, Cut, Cross, Symmetric;
    var inA := new bool[MINCUT_MAX_NODES](_ => false);
    var key := new u64[MINCUT_MAX_NODES](_ => 0);
    secondToLast := 0;
    ghost var act := TrueUpTo(active, n);
    ghost var rows := RowsOf(w);
    var start := StartPhase(w, active, inA, key, n);
    last := start;
    ghost var ord: seq<nat> := [start];

    for step := 1 to activeCount
      invariant |ord| == step && last < n && last == ord[|ord| - 1] && ord[0] == start
      invariant step > 1 ==> secondToLast == ord[|ord| - 2]
      invariant PhaseState(rows, act, TrueUpTo(inA, n), Values(key), ord, n)
      invariant step > 1 ==> key[last] == Cap(Row(rows, last, Prefix(ord, |ord| - 1), n))
    {
      var maxNode := AddNext(w, active, inA, key, n, ord);
      PrefixOfLonger(ord, maxNode, |ord|);
      secondToLast := last;
      last := maxNode;
      ord := ord + [maxNode];
    }

    cutWeight := key[last];
    PhaseResult(rows, act, TrueUpTo(inA, n), Values(key), ord, n);
  }

  /** What the finished ordering of a phase says about its last two nodes. */
  lemma PhaseResult(w: Matrix, act: set<nat>, inA: set<nat>, key: seq<int>, ord: seq<nat>, n: nat)
    requires PhaseState(w, act, inA, key, ord, n) && Symmetric(w, n) && |ord| == |act| >= 2
    ensures
      var last, secondToLast := ord[|ord| - 1], ord[|ord| - 2];
      && last != secondToLast && last != ord[0] && last in act && secondToLast in act
      && Row(w, last, Prefix(ord, |ord| - 1), n) == Cut(w, act, {last}, n)
      && forall side :: side <= act && (last in side) != (secondToLast in side) ==>
           Cap(Cut(w, act, {last}, n)) <= Cap(Cut(w, act, side, n))
  {
    var last, secondToLast := ord[|ord| - 1], ord[|ord| - 2];
    PhaseOutcome(w, act, inA, ord, n);
    LastTwo(ord, act);
    CutSingle(w, act, last, n);
    forall side | side <= act && (last in side) != (secondToLast in side)
      ensures Cap(Cut(w, act, {last}, n)) <= Cap(Cut(w, act, side, n))
    {
      CutOfPhaseIsMinimal(w, ord, act, side, n);
    }
  }

  lemma LastTwo(ord: seq<nat>, act: set<nat>)
    requires NoRepeats(ord) && |ord| >= 2 && Prefix(ord, |ord|) == act
    ensures ord[|ord| - 1] != ord[|ord| - 2] && ord[|ord| - 1] != ord[0]
    ensures ord[|ord| - 1] in act && ord[|ord| - 2] in act
  {
    assert ord[..|ord|] == ord;
  }

  lemma PrefixSize(ord: seq<nat>, k: nat)
    requires NoRepeats(ord) && k <= |ord|
    ensures |Prefix(ord, k)| == k
  {
    if k > 0 {
      PrefixSize(ord, k - 1);
      PrefixStep(ord, k - 1);
      assert ord[k - 1] !in Prefix(ord, k - 1);
    } else {
      assert Prefix(ord, 0) == {};
    }
  }

  lemma WaitingExists(act: set<nat>, inA: set<nat>, ord: seq<nat>)
    requires NoRepeats(ord) && inA == Prefix(ord, |ord|) && inA <= act && |ord| < |act|
    ensures exists x :: x in act && x !in inA
  {
    PrefixSize(ord, |ord|);
    assert inA != act;
  }

  /** After `active_count` additions the ordering lists the whole active set. */
  lemma PhaseOutcome(w: Matrix, act: set<nat>, inA: set<nat>, ord: seq<nat>, n: nat)
    requires NoRepeats(ord) && inA == Prefix(ord, |ord|) && inA <= act && |ord| == |act| >= 2
    ensures Prefix(ord, |ord|) == act
    ensures Prefix(ord, |ord| - 1) == act - {ord[|ord| - 1]}
  {
    PrefixSize(ord, |ord|);
    SameSizeSubset(inA, act);
    PrefixStep(ord, |ord| - 1);
    assert ord[|ord| - 1] !in Prefix(ord, |ord| - 1);
  }

  // ---- contraction over the whole run -------------------------------------

  /** The original nodes held by the super-nodes of `t`, when `own[i]` is the
      super-node that holds node `i`. */
  ghost function Expand(own: seq<nat>, t: set<nat>): (r: set<nat>)
    ensures forall i: nat :: i in r <==> i < |own| && own[i] in t
  {
    set i | i in Below(|own|) && own[i] in t
  }

  /** The super-nodes split the original nodes between them; each holds itself. */
  ghost predicate Owners(n: nat, act: set<nat>, own: seq<nat>) {
    && |own| == n && act <= Below(n) && 0 in act
    && (forall i :: 0 <= i < n ==> own[i] in act)
    && (forall g :: g in act ==> own[g] == g)
  }

  /** The membership rows of active super-nodes agree with the owners. */
  ghost predicate Members(act: set<nat>, grp: seq<set<nat>>, own: seq<nat>) {
    forall g :: g in act && g < |grp| ==> grp[g] == Expand(own, {g})
  }

  /** The working matrix weighs every cut of the super-nodes as the original
      matrix weighs that cut of the original nodes. */
  ghost predicate Contracted(a: Matrix, w: Matrix, n: nat, act: set<nat>, own: seq<nat>) {
    && Symmetric(a, n) && Symmetric(w, n) && Owners(n, act, own)
    && forall t :: t <= act ==> Cap(Cut(w, act, t, n)) == Cap(Cut(a, Below(n), Expand(own, t), n))
  }

  lemma ContractedIsSymmetric(a: Matrix, w: Matrix, n: nat, act: set<nat>, own: seq<nat>)
    requires Contracted(a, w, n, act, own)
    ensures Symmetric(w, n) && Owners(n, act, own)
  {}

  /** No super-node is parted by `s`. */
  ghost predicate Together(s: set<nat>, own: seq<nat>) {
    forall i: nat, j: nat :: i < |own| && j < |own| && own[i] == own[j] ==> (i in s <==> j in s)
  }

  /** `side`, the membership of `bestNode`, is a real cut of weight `best`, leaves node 0 on
      the other side and parts two nodes that were merged. */
  ghost predicate BestCut(a: Matrix, n: nat, act: set<nat>, own: seq<nat>, best: u64, bestNode: nat, side: set<nat>) {
    && (best == U64_MAX ==> bestNode == 0)
    && (best < U64_MAX ==>
          && bestNode !in act && ProperSide(side, Below(n)) && Cut(a, Below(n), side, n) == best
          && 0 !in side && !Together(side, own))
  }

  /** `best` is no dearer than any cut that parts a super-node. */
  ghost predicate BestSoFar(a: Matrix, n: nat, own: seq<nat>, best: u64) {
    forall s :: ProperSide(s, Below(n)) ==> best <= Cap(Cut(a, Below(n), s, n)) || Together(s, own)
  }

  ghost function MergedOwners(own: seq<nat>, s: nat, t: nat): (r: seq<nat>)
    ensures |r| == |own|
    ensures forall i :: 0 <= i < |own| ==> r[i] == if own[i] == t then s else own[i]
  {
    seq(|own|, i requires 0 <= i < |own| => if own[i] == t then s else own[i])
  }

  lemma ExpandMerged(own: seq<nat>, s: nat, t: nat, side: set<nat>)
    requires t !in side && s != t
    ensures Expand(MergedOwners(own, s, t), side) == Expand(own, if s in side then side + {t} else side)
  {}

  lemma ContractStep(a: Matrix, w: Matrix, w': Matrix, n: nat, act: set<nat>, own: seq<nat>, s: nat, t: nat)
    requires Contracted(a, w, n, act, own) && Symmetric(w', n) && Merged(w, w', act, s, t)
    requires s in act && t in act && s != t && t != 0
    ensures Contracted(a, w', n, act - {t}, MergedOwners(own, s, t))
  {
    forall side | side <= act - {t}
      ensures Cap(Cut(w', act - {t}, side, n)) ==
              Cap(Cut(a, Below(n), Expand(MergedOwners(own, s, t), side), n))
    {
      MergePreservesCut(w, w', act, s, t, side, n);
      ExpandMerged(own, s, t, side);
    }
  }

  lemma MembersStep(n: nat, act: set<nat>, grp: seq<set<nat>>, own: seq<nat>, s: nat, t: nat)
    requires Owners(n, act, own) && Members(act, grp, own) && |grp| == n
    requires s in act && t in act && s != t
    ensures Members(act - {t}, grp[s := grp[s] + grp[t]], MergedOwners(own, s, t))
  {
    forall g | g in act - {t} ensures grp[s := grp[s] + grp[t]][g] == Expand(MergedOwners(own, s, t), {g}) {
      ExpandMerged(own, s, t, {g});
    }
  }

  /** A side that parts no super-node is a side of the contracted graph. */
  lemma Lift(n: nat, act: set<nat>, own: seq<nat>, s: set<nat>) returns (lift: set<nat>)
    requires Owners(n, act, own) && Together(s, own) && s <= Below(n)
    ensures lift <= act && Expand(own, lift) == s
    ensures forall g :: g in act ==> (g in lift <==> g in s)
  {
    lift := act * s;
    forall i: nat | i < n ensures i in s <==> own[i] in lift {
      var g := own[i];
      assert own[g] == own[i];
    }
  }

  lemma BestStep(a: Matrix, w: Matrix, n: nat, act: set<nat>, own: seq<nat>, best: u64, s: nat, t: nat, cut: u64)
    requires Contracted(a, w, n, act, own) && BestSoFar(a, n, own, best)
    requires s in act && t in act && s != t
    requires forall side :: side <= act && (t in side) != (s in side) ==> cut <= Cap(Cut(w, act, side, n))
    ensures BestSoFar(a, n, MergedOwners(own, s, t), if cut < best then cut else best)
  {
    forall side | ProperSide(side, Below(n))
      ensures (if cut < best then cut else best) <= Cap(Cut(a, Below(n), side, n))
           || Together(side, MergedOwners(own, s, t))
    {
      if Together(side, own) {
        var lift := Lift(n, act, own, side);
        assert Cap(Cut(w, act, lift, n)) == Cap(Cut(a, Below(n), side, n));
        if (t in side) == (s in side) {
          TogetherMerged(n, act, own, s, t, side);
        }
      }
    }
  }

  lemma TogetherMerged(n: nat, act: set<nat>, own: seq<nat>, s: nat, t: nat, side: set<nat>)
    requires Owners(n, act, own) && Together(side, own) && s in act && t in act
    requires (t in side) == (s in side)
    ensures Together(side, MergedOwners(own, s, t))
  {
    assert own[s] == s && own[t] == t;
    forall i: nat | i < n ensures i in side <==> own[i] in side {
      assert own[own[i]] == own[i];
    }
  }

  lemma BestCutStep(a: Matrix, w: Matrix, n: nat, act: set<nat>, own: seq<nat>, grp: seq<set<nat>>, s: nat, t: nat,
                    cut: u64, best: u64, bestNode: nat)
    requires Contracted(a, w, n, act, own) && Members(act, grp, own) && |grp| == n && bestNode < n
    requires s in act && t in act && s != t && t != 0 && cut == Cap(Cut(w, act, {t}, n))
    requires BestCut(a, n, act, own, best, bestNode, grp[bestNode])
    ensures
      var own' := MergedOwners(own, s, t);
      if cut < best then BestCut(a, n, act - {t}, own', cut, t, grp[t])
      else BestCut(a, n, act - {t}, own', best, bestNode, grp[bestNode])
  {
    var own' := MergedOwners(own, s, t);
    if cut < best {
      assert {t} <= act;
      assert grp[t] == Expand(own, {t});
      assert own[t] == t && own[s] == s && own[0] == 0 && s in Below(n);
      assert own'[t] == own'[s];
    } else if best < U64_MAX {
      StillParted(own, s, t, grp[bestNode]);
    }
  }

  lemma StillParted(own: seq<nat>, s: nat, t: nat, side: set<nat>)
    requires !Together(side, own)
    ensures !Together(side, MergedOwners(own, s, t))
  {
    var own' := MergedOwners(own, s, t);
    var i: nat, j: nat :| i < |own| && j < |own| && own[i] == own[j] && (i in side) != (j in side);
    assert own'[i] == own'[j];
  }

  /** The start of a run: every node is its own super-node. */
  lemma InitialState(a: Matrix, w: Matrix, n: nat, own: seq<nat>, grp: seq<set<nat>>)
    requires n >= 1 && Symmetric(a, n) && |own| == n
    requires forall i :: 0 <= i < n ==> own[i] == i
    requires forall i: nat, j: nat :: i < n && j < n ==> At(w, i, j) == At(a, i, j)
    requires |grp| == n && forall g: nat :: g < n ==> grp[g] == {g}
    ensures Contracted(a, w, n, Below(n), own) && Members(Below(n), grp, own)
    ensures BestSoFar(a, n, own, U64_MAX)
  {
    forall t | t <= Below(n)
      ensures Cap(Cut(w, Below(n), t, n)) == Cap(Cut(a, Below(n), Expand(own, t), n))
    {
      assert Expand(own, t) == t;
      CrossCong(w, a, t, Below(n) - t, n, n);
    }
  }

  /** With fewer super-nodes than nodes some node was merged away, and cutting that node
      off alone parts it from its holder. */
  lemma MergedAway(n: nat, act: set<nat>, own: seq<nat>) returns (x: nat)
    requires Owners(n, act, own) && |act| < n
    ensures x < n && ProperSide({x}, Below(n)) && !Together({x}, own)
  {
    BelowSize(n);
    if act == Below(n) {
      assert false;
    }
    x :| x in Below(n) && x !in act;
    assert own[own[x]] == own[x] && own[x] != x && own[x] in Below(n);
  }

  /** While several super-nodes are left, the one that holds node 0 is a proper side. */
  lemma FirstGroup(n: nat, act: set<nat>, own: seq<nat>, grp: seq<set<nat>>)
    requires Owners(n, act, own) && |grp| == n && Members(act, grp, own)
    ensures 0 in grp[0] && grp[0] <= Below(n)
    ensures |act| > 1 ==> ProperSide(grp[0], Below(n))
    ensures |act| == n ==> grp[0] == {0}
  {
    assert own[0] == 0 && grp[0] == Expand(own, {0});
    if |act| > 1 && act == {0} {
      assert false;
    }
    if |act| > 1 {
      var g :| g in act && g != 0;
      assert own[g] == g && g in Below(n);
    }
    if |act| == n {
      BelowSize(n);
      SameSizeSubset(act, Below(n));
      assert forall i :: 0 <= i < n ==> i in act && own[i] == i;
    }
  }

  /** `k` phases merged the `n` nodes into the groups `own` tells. */
  ghost predicate AfterPhases(n: nat, own: seq<nat>, k: nat) {
    exists act: set<nat> :: Owners(n, act, own) && |act| + k == n
  }

  /** What the best weight and side so far are worth, after `k` phases. */
  ghost predicate Partial(a: Matrix, n: nat, own: seq<nat>, k: nat, best: u64, side: set<nat>) {
    && AfterPhases(n, own, k) && BestSoFar(a, n, own, best) && side <= Below(n)
    && (best < U64_MAX ==> ProperSide(side, Below(n)) && Cut(a, Below(n), side, n) == best && !Together(side, own))
    && (best == U64_MAX <==> 0 in side)
    && (k + 1 < n ==> ProperSide(side, Below(n)))
    && (k == 0 ==> side == {0} && best == U64_MAX)
  }

  /** Every node's total weight to the others fits below the largest number. */
  ghost predicate DegreesFit(a: Matrix, n: nat) {
    forall i: nat :: i < n ==> Cut(a, Below(n), {i}, n) < U64_MAX
  }

  /** When a phase beats the initial "best": exactly when some cut parting a merged pair
      is below the largest number, and in particular when the nodes' totals are. */
  lemma PartialExactly(a: Matrix, n: nat, own: seq<nat>, k: nat, best: u64, side: set<nat>)
    requires Partial(a, n, own, k, best, side)
    ensures best < U64_MAX <==>
      exists s :: ProperSide(s, Below(n)) && !Together(s, own) && Cut(a, Below(n), s, n) < U64_MAX
    ensures k >= 1 && DegreesFit(a, n) ==> best < U64_MAX
  {
    if k >= 1 && DegreesFit(a, n) {
      var act: set<nat> :| Owners(n, act, own) && |act| + k == n;
      var x := MergedAway(n, act, own);
      assert Cut(a, Below(n), {x}, n) < U64_MAX;
    }
  }

  /** `best` is the weight of a minimum cut, found exactly when some cut is below the
      largest number. */
  ghost predicate Minimum(a: Matrix, n: nat, best: u64) {
    && (forall s :: ProperSide(s, Below(n)) ==> best <= Cap(Cut(a, Below(n), s, n)))
    && (best < U64_MAX <==> exists s :: ProperSide(s, Below(n)) && Cut(a, Below(n), s, n) < U64_MAX)
  }

  /** After a full run no proper side keeps every merged pair together. */
  lemma FullRun(a: Matrix, n: nat, own: seq<nat>, best: u64, side: set<nat>)
    requires n >= 2 && Partial(a, n, own, n - 1, best, side)
    ensures Minimum(a, n, best)
  {
    var act: set<nat> :| Owners(n, act, own) && |act| + (n - 1) == n;
    SameSizeSubset({0}, act);
    forall s | ProperSide(s, Below(n)) ensures !Together(s, own) {
      var x :| x in s;
      var y :| y in Below(n) && y !in s;
      assert own[x] == 0 == own[y];
    }
  }

  // ---- building the answer --------------------------------------------------

  /** Partition ids of the first `k` collected nodes that lie in `s`, in order. */
  ghost function PidsOf(sub: seq<SubNode>, s: set<nat>, k: nat): seq<PartitionId>
    requires k <= |sub|
  {
    if k == 0 then []
    else PidsOf(sub, s, k - 1) + if k - 1 in s then [sub[k - 1].1] else []
  }

  lemma {:induction false} PidsOfLength(sub: seq<SubNode>, s: set<nat>, k: nat)
    requires k <= |sub|
    ensures |PidsOf(sub, s, k)| <= k
  {
    if k > 0 { PidsOfLength(sub, s, k - 1); }
  }

  lemma PidsOfStep(sub: seq<SubNode>, s: set<nat>, k: nat)
    requires 1 <= k <= |sub|
    ensures multiset(PidsOf(sub, s, k)) ==
            multiset(PidsOf(sub, s, k - 1)) + if k - 1 in s then multiset{sub[k - 1].1} else multiset{}
  {}

  /** Two complementary sides list every collected node once between them. */
  lemma {:induction false} PidsOfSplit(sub: seq<SubNode>, s: set<nat>, s': set<nat>, all: set<nat>, k: nat)
    requires k <= |sub| && forall i: nat :: i < k ==> i in all && (i in s <==> i !in s')
    ensures multiset(PidsOf(sub, s, k)) + multiset(PidsOf(sub, s', k)) == multiset(PidsOf(sub, all, k))
  {
    hide PidsOf;
    if k == 0 {
      PidsOfNonEmpty(sub, s, 0);
      PidsOfNonEmpty(sub, s', 0);
      PidsOfNonEmpty(sub, all, 0);
    } else {
      PidsOfSplit(sub, s, s', all, k - 1);
      PidsOfStep(sub, s, k);
      PidsOfStep(sub, s', k);
      PidsOfStep(sub, all, k);
    }
  }

  lemma {:induction false} PidsOfNonEmpty(sub: seq<SubNode>, s: set<nat>, k: nat)
    requires k <= |sub|
    ensures PidsOf(sub, s, k) == [] <==> forall i: nat :: i < k ==> i !in s
  {
    if k > 0 { PidsOfNonEmpty(sub, s, k - 1); }
  }

  method BuildResult(sub: seq<SubNode>, groups: array2<bool>, cutNode: nat, n: nat) returns (result: MinCutResult)
    requires groups.Length0 == groups.Length1 == MINCUT_MAX_NODES
    requires cutNode < n <= MINCUT_MAX_NODES && n == |sub|
    ensures result.left == PidsOf(sub, GroupOf(groups, cutNode, n), n)
    ensures result.right == PidsOf(sub, Below(n) - GroupOf(groups, cutNode, n), n)
  {
    result := EMPTY_RESULT;
    ghost var side := GroupOf(groups, cutNode, n);
    for i := 0 to n
      invariant result.left == PidsOf(sub, side, i)
      invariant result.right == PidsOf(sub, Below(n) - side, i)
    {
      var pid := sub[i].1;
      PidsOfLength(sub, side, i);
      PidsOfLength(sub, Below(n) - side, i);
      if groups[cutNode, i] {
        if |result.left| < MINCUT_MAX_NODES {
          result := result.(left := result.left + [pid]);
        }
      } else {
        if |result.right| < MINCUT_MAX_NODES {
          result := result.(right := result.right + [pid]);
        }
      }
    }
  }

  // ---- the run ----------------------------------------------------------------

  /** Merge node `t` into `s` (lines 276-281). */
  method MergeNodes(w: array2<u64>, active: array<bool>, s: nat, t: nat, n: nat)
    requires w.Length0 == w.Length1 == active.Length == MINCUT_MAX_NODES
    requires s < n && t < n <= MINCUT_MAX_NODES && s != t && Symmetric(RowsOf(w), n)
    modifies w
    ensures Merged(old(RowsOf(w)), RowsOf(w), TrueUpTo(active, n), s, t)
    ensures Symmetric(RowsOf(w), n)
  {
    hide Symmetric, Merged, RowsOf;
    ghost var was := RowsOf(w);
    for i := 0 to n
      invariant forall a, b :: 0 <= a < n && 0 <= b < n && a != s && b != s ==> w[a, b] == was[a][b]
      invariant w[s, s] == was[s][s]
      invariant forall k :: 0 <= k < n && k != s ==>
        && w[s, k] == (if k < i && active[k] && k != t then Cap(was[s][k] + was[t][k]) else was[s][k])
        && w[k, s] == (if k < i && active[k] && k != t then Cap(was[k][s] + was[k][t]) else was[k][s])
    {
      if active[i] && i != s && i != t {
        w[s, i] := SatAdd(w[s, i], w[t, i]);
        w[i, s] := SatAdd(w[i, s], w[i, t]);
      }
    }
    MergedEntries(was, RowsOf(w), TrueUpTo(active, n), s, t, n);
  }

  lemma MergedEntries(was: Matrix, now: Matrix, act: set<nat>, s: nat, t: nat, n: nat)
    requires Symmetric(was, n) && s < n && t < n && s != t && act <= Below(n)
    requires forall a: nat, b: nat :: a < n && b < n && a != s && b != s ==> At(now, a, b) == At(was, a, b)
    requires forall k: nat :: k < n && k != s ==>
        && At(now, s, k) == (if k in act && k != t then Cap(At(was, s, k) + At(was, t, k)) else At(was, s, k))
        && At(now, k, s) == (if k in act && k != t then Cap(At(was, k, s) + At(was, k, t)) else At(was, k, s))
    ensures Merged(was, now, act, s, t) && Symmetric(now, n)
  {
    forall i: nat, j: nat | i < n && j < n ensures At(now, i, j) == At(now, j, i) {
      assert At(was, i, j) == At(was, j, i) && At(was, t, j) == At(was, j, t) && At(was, i, t) == At(was, t, i);
    }
  }

  /** Transfer group membership from `t` to `s` (lines 284-288). */
  method MergeMembers(groups: array2<bool>, s: nat, t: nat, n: nat)
    requires groups.Length0 == groups.Length1 == MINCUT_MAX_NODES
    requires s < n && t < n <= MINCUT_MAX_NODES && s != t
    modifies groups
    ensures GroupsOf(groups, n) ==
            var was := old(GroupsOf(groups, n)); was[s := was[s] + was[t]]
  {
    ghost var was := GroupsOf(groups, n);
    for i := 0 to n
      invariant forall g, k :: 0 <= g < n && 0 <= k < n ==>
        groups[g, k] == if g == s && k < i then k in was[s] || k in was[t] else k in was[g]
    {
      if groups[t, i] {
        groups[s, i] := true;
      }
    }
    forall g: nat | g < n ensures GroupsOf(groups, n)[g] == was[s := was[s] + was[t]][g] {}
  }

  /** Copies the matrix (lines 232-236). */
  method CopyMatrix(adj: array2<u64>, n: nat) returns (w: array2<u64>)
    requires adj.Length0 == adj.Length1 == MINCUT_MAX_NODES && n <= MINCUT_MAX_NODES
    ensures fresh(w) && w.Length0 == w.Length1 == MINCUT_MAX_NODES
    ensures forall a, b :: 0 <= a < n && 0 <= b < n ==> w[a, b] == adj[a, b]
  {
    w := new u64[MINCUT_MAX_NODES, MINCUT_MAX_NODES]((_, _) => 0);
    for i := 0 to n
      invariant forall a, b :: 0 <= a < i && 0 <= b < n ==> w[a, b] == adj[a, b]
    {
      for j := 0 to n
        invariant forall a, b :: 0 <= a < i && 0 <= b < n ==> w[a, b] == adj[a, b]
        invariant forall b :: 0 <= b < j ==> w[i, b] == adj[i, b]
      {
        w[i, j] := adj[i, j];
      }
    }
  }

  /** Makes each node its own active super-node (lines 239-250). */
  method SingleNodes(n: nat) returns (groups: array2<bool>, active: array<bool>)
    requires n <= MINCUT_MAX_NODES
    ensures fresh(groups) && fresh(active)
    ensures groups.Length0 == groups.Length1 == active.Length == MINCUT_MAX_NODES
    ensures TrueUpTo(active, n) == Below(n)
    ensures forall g: nat :: g < n ==> GroupsOf(groups, n)[g] == {g}
  {
    groups := new bool[MINCUT_MAX_NODES, MINCUT_MAX_NODES]((_, _) => false);
    for i := 0 to n
      invariant forall a, b :: 0 <= a < MINCUT_MAX_NODES && 0 <= b < MINCUT_MAX_NODES ==>
        groups[a, b] == (a == b && a < i)
    {
      groups[i, i] := true;
    }
    active := new bool[MINCUT_MAX_NODES](_ => false);
    for i := 0 to n
      modifies active
      invariant forall a :: 0 <= a < i ==> active[a]
    {
      active[i] := true;
    }
  }

  /** The invariant of the run over the four working arrays. */
  ghost predicate RunState(a: Matrix, w: array2<u64>, groups: array2<bool>, active: array<bool>, n: nat, own: seq<nat>,
                           best: u64, bestNode: nat)
    reads w, groups, active
  {
    && w.Length0 == w.Length1 == groups.Length0 == groups.Length1 == active.Length == MINCUT_MAX_NODES
    && bestNode < n <= MINCUT_MAX_NODES
    && Contracted(a, RowsOf(w), n, TrueUpTo(active, n), own)
    && Members(TrueUpTo(active, n), GroupsOf(groups, n), own)
    && BestSoFar(a, n, own, best)
    && BestCut(a, n, TrueUpTo(active, n), own, best, bestNode, GroupOf(groups, bestNode, n))
  }

  /** One round of the run: a phase, the comparison and the merge (lines 266-293). */
  method MergePhase(w: array2<u64>, groups: array2<bool>, active: array<bool>, activeCount: nat, n: nat, best: u64,
                    bestNode: nat, ghost a: Matrix, ghost own: seq<nat>)
      returns (best': u64, bestNode': nat, ghost own': seq<nat>)
    requires RunState(a, w, groups, active, n, own, best, bestNode)
    requires activeCount == |TrueUpTo(active, n)| >= 2
    modifies w, groups, active
    ensures bestNode' < n && RunState(a, w, groups, active, n, own', best', bestNode')
    ensures |TrueUpTo(active, n)| == activeCount - 1
  {
    hide Contracted, BestSoFar, Merged, Symmetric, Members, Cut, Cross, ProperSide, Together, MergedOwners, Owners;
    hide RowsOf;
    ghost var act := TrueUpTo(active, n);
    ContractedIsSymmetric(a, RowsOf(w), n, act, own);
    var s, t, cutOfPhase := MinimumCutPhase(w, active, activeCount, n);
    BestStep(a, RowsOf(w), n, act, own, best, s, t, cutOfPhase);
    BestCutStep(a, RowsOf(w), n, act, own, GroupsOf(groups, n), s, t, cutOfPhase, best, bestNode);
    best', bestNode' := best, bestNode;
    if cutOfPhase < best {
      best' := cutOfPhase;
      bestNode' := t;
    }
    ghost var wasRows, wasGroups := RowsOf(w), GroupsOf(groups, n);
    MergeNodes(w, active, s, t, n);
    MergeMembers(groups, s, t, n);
    ContractStep(a, wasRows, RowsOf(w), n, act, own, s, t);
    MembersStep(n, act, wasGroups, own, s, t);
    active[t] := false;
    own' := MergedOwners(own, s, t);
    assert TrueUpTo(active, n) == act - {t};
    // A best node was merged away, so its membership row no longer changes.
    assert best' < U64_MAX ==> GroupsOf(groups, n)[bestNode'] == wasGroups[bestNode'];
  }

  /** What a run's state says about the answer built from it. */
  lemma RunPartial(a: Matrix, w: array2<u64>, groups: array2<bool>, active: array<bool>, n: nat, own: seq<nat>,
                   best: u64, bestNode: nat, k: nat)
    requires RunState(a, w, groups, active, n, own, best, bestNode) && |TrueUpTo(active, n)| + k == n
    requires k == 0 ==> best == U64_MAX
    ensures Partial(a, n, own, k, best, GroupOf(groups, bestNode, n))
    ensures k + 1 == n && best == U64_MAX ==> GroupOf(groups, bestNode, n) == Below(n)
  {
    hide BestSoFar, Symmetric, Cut, Cross, Together, Members;
    var act, grp := TrueUpTo(active, n), GroupsOf(groups, n);
    ContractedIsSymmetric(a, RowsOf(w), n, act, own);
    hide Contracted;
    FirstGroup(n, act, own, grp);
    assert grp[bestNode] == GroupOf(groups, bestNode, n);
    if k + 1 == n && best == U64_MAX {
      OneGroup(n, act, own, grp);
    }
  }

  lemma OneGroup(n: nat, act: set<nat>, own: seq<nat>, grp: seq<set<nat>>)
    requires Owners(n, act, own) && |act| == 1 && |grp| == n && Members(act, grp, own)
    ensures grp[0] == Below(n)
  {
    SameSizeSubset({0}, act);
  }

  /** Stoer-Wagner on a small symmetric matrix, `Err` when the budget ran out. `side` is
      the set of node numbers on the left, and `own` tells which nodes the phases merged. */
  method StoerWagnerMinCut(adj: array2<u64>, n: nat, sub: seq<SubNode>, maxIterations: nat)
      returns (result: Result<MinCutResult, MinCutResult>, ghost side: set<nat>, ghost own: seq<nat>)
    requires adj.Length0 == adj.Length1 == MINCUT_MAX_NODES && n <= MINCUT_MAX_NODES && n == |sub|
    requires Symmetric(RowsOf(adj), n)
    ensures n < 2 ==> result == Ok(MinCutResult([], [], 0, true))
    ensures n >= 2 ==>
      var r := match result { case Ok(x) => x case Err(x) => x };
      var a := RowsOf(adj);
      && (result.Ok? <==> maxIterations >= n - 1)
      && r.withinBudget == result.Ok?
      && r.left == PidsOf(sub, side, n) && r.right == PidsOf(sub, Below(n) - side, n)
      && Partial(a, n, own, if result.Ok? then n - 1 else maxIterations, r.cutWeight, side)
      && (maxIterations >= 1 && DegreesFit(a, n) ==> r.cutWeight < U64_MAX)
      && (result.Ok? ==> Minimum(a, n, r.cutWeight))
      && (result.Ok? && r.cutWeight == U64_MAX ==> side == Below(n))
  {
    hide Symmetric, Partial, DegreesFit, PidsOf, Minimum, RunState, RowsOf;
    if n < 2 {
      return Ok(EMPTY_RESULT), {}, [];
    }
    var w := CopyMatrix(adj, n);
    var groups, active := SingleNodes(n);
    own := StartState(RowsOf(adj), w, groups, active, n);
    var bestCutWeight, bestCutNode, phases;
    bestCutWeight, bestCutNode, phases, own := RunPhases(w, groups, active, n, maxIterations, RowsOf(adj), own);
    var r := BuildResult(sub, groups, bestCutNode, n);
    side := GroupOf(groups, bestCutNode, n);
    r := r.(cutWeight := bestCutWeight, withinBudget := phases == n - 1);
    RunPartial(RowsOf(adj), w, groups, active, n, own, bestCutWeight, bestCutNode, phases);
    PartialExactly(RowsOf(adj), n, own, phases, bestCutWeight, side);
    if phases < n - 1 {
      return Err(r), side, own;
    }
    FullRun(RowsOf(adj), n, own, bestCutWeight, side);
    return Ok(r), side, own;
  }

  lemma StartState(a: Matrix, w: array2<u64>, groups: array2<bool>, active: array<bool>, n: nat) returns (own: seq<nat>)
    requires 1 <= n <= MINCUT_MAX_NODES && Symmetric(a, n)
    requires w.Length0 == w.Length1 == groups.Length0 == groups.Length1 == active.Length == MINCUT_MAX_NODES
    requires TrueUpTo(active, n) == Below(n) && forall g: nat :: g < n ==> GroupsOf(groups, n)[g] == {g}
    requires forall i: nat, j: nat :: i < n && j < n ==> At(RowsOf(w), i, j) == At(a, i, j)
    ensures RunState(a, w, groups, active, n, own, U64_MAX, 0) && |TrueUpTo(active, n)| == n
  {
    own := seq(n, i requires 0 <= i < n => i);
    BelowSize(n);
    InitialState(a, RowsOf(w), n, own, GroupsOf(groups, n));
  }

  /** The phase loop (lines 256-293): as many phases as the budget allows, at most `n - 1`. */
  method RunPhases(w: array2<u64>, groups: array2<bool>, active: array<bool>, n: nat, maxIterations: nat,
                   ghost a: Matrix, ghost start: seq<nat>)
      returns (bestCutWeight: u64, bestCutNode: nat, iterationCount: nat, ghost own: seq<nat>)
    requires 1 <= n <= active.Length && n <= groups.Length0 && n <= groups.Length1
    requires RunState(a, w, groups, active, n, start, U64_MAX, 0) && |TrueUpTo(active, n)| == n
    modifies w, groups, active
    ensures bestCutNode < n && RunState(a, w, groups, active, n, own, bestCutWeight, bestCutNode)
    ensures |TrueUpTo(active, n)| + iterationCount == n
    ensures iterationCount == if maxIterations < n - 1 then maxIterations else n - 1
    ensures iterationCount == 0 ==> bestCutWeight == U64_MAX
  {
    hide RunState;
    bestCutWeight, bestCutNode, own := U64_MAX, 0, start;
    iterationCount := 0;
    var activeCount := n;
    while activeCount > 1
      invariant 1 <= activeCount == |TrueUpTo(active, n)| && iterationCount == n - activeCount <= maxIterations
      invariant iterationCount == 0 ==> bestCutWeight == U64_MAX
      invariant bestCutNode < n && RunState(a, w, groups, active, n, own, bestCutWeight, bestCutNode)
    {
      if iterationCount >= maxIterations {
        return;
      }
      bestCutWeight, bestCutNode, own :=
        MergePhase(w, groups, active, activeCount, n, bestCutWeight, bestCutNode, a, own);
      activeCount := activeCount - 1;
      iterationCount := iterationCount + 1;
    }
  }

  /** Two nodes joined by a saturated weight: within budget, yet everything ends up on the
      left, although either node alone is a proper side of minimum weight. */
  method SaturatedPairCut(sub: seq<SubNode>) returns (r: MinCutResult)
    requires |sub| == 2
    ensures r == MinCutResult([sub[0].1, sub[1].1], [], U64_MAX, true)
  {
    var adj := new u64[MINCUT_MAX_NODES, MINCUT_MAX_NODES]((i, j) => if i + j == 1 then U64_MAX else 0);
    var result;
    ghost var side, own;
    ghost var pair: Matrix := [[0, U64_MAX], [U64_MAX, 0]];
    SaturatedPair();
    result, side, own := StoerWagnerMinCut(adj, 2, sub, 1);
    forall s | ProperSide(s, Below(2)) ensures Cut(RowsOf(adj), Below(2), s, 2) == U64_MAX {
      CrossCong(RowsOf(adj), pair, s, Below(2) - s, 2, 2);
    }
    assert side == Below(2);
    assert PidsOf(sub, side, 1) == [sub[0].1] && PidsOf(sub, Below(2) - side, 1) == [];
    return result.value;
  }
}
