/** Weighted cuts of a small dense graph, with the saturating 64-bit sums the
    coherence crate uses. Sides of a cut are finite sets of node numbers. */
module Cuts {
  import opened Types

  type Matrix = seq<seq<nat>>

  /** What a saturating 64-bit sum shows of a true sum. */
  function Cap(x: nat): (r: u64) {
    if x > U64_MAX then U64_MAX else x
  }

  /** `u64::saturating_add`. */
  function SatAdd(a: u64, b: u64): (r: u64) {
    Cap(a + b)
  }

  // ---- snapshots of working arrays

  ghost function RowsOf(a: array2<u64>): (r: Matrix)
    reads a
    ensures |r| == a.Length0
    ensures forall i :: 0 <= i < a.Length0 ==> |r[i]| == a.Length1
    ensures forall i, j :: 0 <= i < a.Length0 && 0 <= j < a.Length1 ==> r[i][j] == a[i, j]
  {
    seq(a.Length0, i requires 0 <= i < a.Length0 reads a =>
      seq(a.Length1, j requires 0 <= j < a.Length1 reads a => a[i, j] as nat))
  }

  ghost function Values(a: array<u64>): (r: seq<int>)
    reads a
    ensures |r| == a.Length && forall i :: 0 <= i < a.Length ==> r[i] == a[i]
  {
    seq(a.Length, i requires 0 <= i < a.Length reads a => a[i] as int)
  }

  ghost function At(w: Matrix, i: nat, j: nat): nat {
    if i < |w| && j < |w[i]| then w[i][j] else 0
  }

  ghost predicate Symmetric(w: Matrix, n: nat) {
    forall i: nat, j: nat :: i < n && j < n ==> At(w, i, j) == At(w, j, i)
  }

  /** Total weight from `v` to the nodes of `s` below `n`. */
  ghost function Row(w: Matrix, v: nat, s: set<nat>, n: nat): nat {
    if n == 0 then 0
    else Row(w, v, s, n - 1) + if n - 1 in s then At(w, v, n - 1) else 0
  }

  /** Total weight from the nodes of `s` below `m` to the nodes of `t` below `n`. */
  ghost function CrossUpTo(w: Matrix, s: set<nat>, t: set<nat>, m: nat, n: nat): nat {
    if m == 0 then 0
    else CrossUpTo(w, s, t, m - 1, n) + if m - 1 in s then Row(w, m - 1, t, n) else 0
  }

  ghost function Cross(w: Matrix, s: set<nat>, t: set<nat>, n: nat): nat {
    CrossUpTo(w, s, t, n, n)
  }

  /** Weight of the edges of the graph on `active` that leave `s`. */
  ghost function Cut(w: Matrix, active: set<nat>, s: set<nat>, n: nat): nat {
    Cross(w, s, active - s, n)
  }

  ghost predicate ProperSide(s: set<nat>, all: set<nat>) {
    s < all && s != {}
  }

  // ---- sums over sides -------------------------------------------------

  lemma {:induction false} RowSplit(w: Matrix, v: nat, s: set<nat>, t: set<nat>, n: nat)
    requires s !! t
    ensures Row(w, v, s + t, n) == Row(w, v, s, n) + Row(w, v, t, n)
  {
    if n > 0 { RowSplit(w, v, s, t, n - 1); }
  }

  lemma {:induction false} RowNone(w: Matrix, v: nat, s: set<nat>, n: nat)
    requires forall j: nat :: j < n ==> j !in s
    ensures Row(w, v, s, n) == 0
  {
    if n > 0 { RowNone(w, v, s, n - 1); }
  }

  lemma {:induction false} RowSingle(w: Matrix, v: nat, x: nat, n: nat)
    requires x < n
    ensures Row(w, v, {x}, n) == At(w, v, x)
  {
    if x == n - 1 { RowNone(w, v, {x}, n - 1); } else { RowSingle(w, v, x, n - 1); }
  }

  lemma {:induction false} RowCong(w: Matrix, w': Matrix, v: nat, v': nat, s: set<nat>, n: nat)
    requires forall j: nat :: j < n && j in s ==> At(w, v, j) == At(w', v', j)
    ensures Row(w, v, s, n) == Row(w', v', s, n)
  {
    if n > 0 { RowCong(w, w', v, v', s, n - 1); }
  }

  lemma {:induction false} RowSum(w: Matrix, w': Matrix, v: nat, u: nat, s: set<nat>, n: nat)
    requires forall j: nat :: j < n && j in s ==> Cap(At(w', v, j)) == Cap(At(w, v, j) + At(w, u, j))
    ensures Cap(Row(w', v, s, n)) == Cap(Row(w, v, s, n) + Row(w, u, s, n))
  {
    if n > 0 { RowSum(w, w', v, u, s, n - 1); }
  }

  lemma {:induction false} CrossSplitLeft(w: Matrix, s: set<nat>, s': set<nat>, t: set<nat>, m: nat, n: nat)
    requires s !! s'
    ensures CrossUpTo(w, s + s', t, m, n) == CrossUpTo(w, s, t, m, n) + CrossUpTo(w, s', t, m, n)
  {
    if m > 0 { CrossSplitLeft(w, s, s', t, m - 1, n); }
  }

  lemma {:induction false} CrossSplitRight(w: Matrix, s: set<nat>, t: set<nat>, t': set<nat>, m: nat, n: nat)
    requires t !! t'
    ensures CrossUpTo(w, s, t + t', m, n) == CrossUpTo(w, s, t, m, n) + CrossUpTo(w, s, t', m, n)
  {
    if m > 0 {
      CrossSplitRight(w, s, t, t', m - 1, n);
      RowSplit(w, m - 1, t, t', n);
    }
  }

  lemma {:induction false} CrossNone(w: Matrix, s: set<nat>, t: set<nat>, m: nat, n: nat)
    requires forall j: nat :: j < m ==> j !in s
    ensures CrossUpTo(w, s, t, m, n) == 0
  {
    if m > 0 { CrossNone(w, s, t, m - 1, n); }
  }

  lemma {:induction false} CrossSingle(w: Matrix, v: nat, t: set<nat>, m: nat, n: nat)
    requires v < m
    ensures CrossUpTo(w, {v}, t, m, n) == Row(w, v, t, n)
  {
    if v == m - 1 { CrossNone(w, {v}, t, m - 1, n); } else { CrossSingle(w, v, t, m - 1, n); }
  }

  lemma {:induction false} CrossCong(w: Matrix, w': Matrix, s: set<nat>, t: set<nat>, m: nat, n: nat)
    requires forall i: nat, j: nat :: i < m && j < n && i in s && j in t ==> At(w, i, j) == At(w', i, j)
    ensures CrossUpTo(w, s, t, m, n) == CrossUpTo(w', s, t, m, n)
  {
    if m > 0 {
      CrossCong(w, w', s, t, m - 1, n);
      if m - 1 in s { RowCong(w, w', m - 1, m - 1, t, n); }
    }
  }

  /** Weight into a single node equals the weight out of it. */
  lemma {:induction false} CrossToSingle(w: Matrix, s: set<nat>, v: nat, m: nat, n: nat)
    requires Symmetric(w, n) && v < n && m <= n
    ensures CrossUpTo(w, s, {v}, m, n) == Row(w, v, s, m)
  {
    if m > 0 {
      CrossToSingle(w, s, v, m - 1, n);
      RowSingle(w, m - 1, v, n);
    }
  }

  lemma {:induction false} CrossEmptyRight(w: Matrix, s: set<nat>, m: nat, n: nat)
    ensures CrossUpTo(w, s, {}, m, n) == 0
  {
    if m > 0 { CrossEmptyRight(w, s, m - 1, n); RowNone(w, m - 1, {}, n); }
  }

  lemma {:induction false} CrossSymmetric(w: Matrix, s: set<nat>, t: set<nat>, n: nat)
    requires Symmetric(w, n) && s <= Below(n)
    ensures Cross(w, s, t, n) == Cross(w, t, s, n)
    decreases s
  {
    if s == {} {
      CrossNone(w, s, t, n, n);
      CrossEmptyRight(w, t, n, n);
    } else {
      var v :| v in s;
      var rest := s - {v};
      assert s == rest + {v};
      CrossSplitLeft(w, rest, {v}, t, n, n);
      CrossSingle(w, v, t, n, n);
      CrossSplitRight(w, t, rest, {v}, n, n);
      CrossToSingle(w, t, v, n, n);
      CrossSymmetric(w, rest, t, n);
    }
  }

  /** A cut and its complement weigh the same. */
  lemma CutComplement(w: Matrix, active: set<nat>, s: set<nat>, n: nat)
    requires Symmetric(w, n) && s <= active <= Below(n)
    ensures Cut(w, active, s, n) == Cut(w, active, active - s, n)
  {
    assert active - (active - s) == s;
    CrossSymmetric(w, s, active - s, n);
  }

  /** Cutting off one node costs the weight of its row. */
  lemma CutSingle(w: Matrix, active: set<nat>, v: nat, n: nat)
    requires v in active && active <= Below(n)
    ensures Cut(w, active, {v}, n) == Row(w, v, active - {v}, n)
  {
    CrossSingle(w, v, active - {v}, n, n);
  }

  // ---- maximum-adjacency orderings --------------------------------------

  ghost function Prefix(ord: seq<nat>, k: nat): set<nat>
    requires k <= |ord|
  {
    set x | x in ord[..k]
  }

  lemma PrefixStep(ord: seq<nat>, k: nat)
    requires k < |ord|
    ensures Prefix(ord, k + 1) == Prefix(ord, k) + {ord[k]}
  {
    assert ord[..k + 1] == ord[..k] + [ord[k]];
  }

  /** Every node of the ordering was, when chosen, at least as tightly tied to
      the nodes before it (as far as saturated keys can tell) as any node after it. */
  ghost predicate MaxAdjacency(w: Matrix, ord: seq<nat>, n: nat) {
    forall k, j :: 1 <= k <= j < |ord| ==>
      Cap(Row(w, ord[j], Prefix(ord, k), n)) <= Cap(Row(w, ord[k], Prefix(ord, k), n))
  }

  /** Weight of the edges inside the first `k` nodes that `s` cuts. */
  ghost function CutInside(w: Matrix, ord: seq<nat>, s: set<nat>, k: nat, n: nat): nat
    requires k <= |ord|
  {
    Cross(w, Prefix(ord, k) * s, Prefix(ord, k) - s, n)
  }

  /** The nodes among the first `k` on the side of `x`. */
  ghost function SameSide(ord: seq<nat>, s: set<nat>, x: nat, k: nat): set<nat>
    requires k <= |ord|
  {
    if x in s then Prefix(ord, k) * s else Prefix(ord, k) - s
  }

  ghost function OtherSide(ord: seq<nat>, s: set<nat>, x: nat, k: nat): set<nat>
    requires k <= |ord|
  {
    if x in s then Prefix(ord, k) - s else Prefix(ord, k) * s
  }

  /** Adding the next node adds exactly its edges to the other side. */
  lemma CutInsideStep(w: Matrix, ord: seq<nat>, s: set<nat>, k: nat, n: nat)
    requires Symmetric(w, n) && NoRepeats(ord) && k < |ord|
    requires forall x :: x in ord ==> x < n
    ensures CutInside(w, ord, s, k + 1, n) ==
            CutInside(w, ord, s, k, n) + Row(w, ord[k], OtherSide(ord, s, ord[k], k), n)
  {
    var v, p := ord[k], Prefix(ord, k);
    PrefixStep(ord, k);
    assert v !in p && v in ord;
    if v in s {
      assert Prefix(ord, k + 1) * s == p * s + {v};
      assert Prefix(ord, k + 1) - s == p - s;
      CrossSplitLeft(w, p * s, {v}, p - s, n, n);
      CrossSingle(w, v, p - s, n, n);
    } else {
      assert Prefix(ord, k + 1) * s == p * s;
      assert Prefix(ord, k + 1) - s == p - s + {v};
      CrossSplitRight(w, p * s, p - s, {v}, n, n);
      CrossToSingle(w, p * s, v, n, n);
    }
  }

  lemma RowSides(w: Matrix, ord: seq<nat>, s: set<nat>, x: nat, y: nat, k: nat, n: nat)
    requires k <= |ord|
    ensures Row(w, y, Prefix(ord, k), n) ==
            Row(w, y, SameSide(ord, s, x, k), n) + Row(w, y, OtherSide(ord, s, x, k), n)
  {
    var p := Prefix(ord, k);
    assert p == SameSide(ord, s, x, k) + OtherSide(ord, s, x, k);
    RowSplit(w, y, SameSide(ord, s, x, k), OtherSide(ord, s, x, k), n);
  }

  lemma SameSideStep(ord: seq<nat>, s: set<nat>, x: nat, k: nat)
    requires 1 <= k <= |ord| && (x in s) != (ord[k - 1] in s)
    ensures SameSide(ord, s, x, k) == SameSide(ord, s, x, k - 1)
  {
    PrefixStep(ord, k - 1);
  }

  /** The step of the argument at a node `v` that changes sides: what ties `x` to
      the prefix is bounded by what tied `v` to it, all of which is now cut. */
  lemma ActiveStep(w: Matrix, ord: seq<nat>, s: set<nat>, k: nat, x: nat, n: nat)
    requires k < |ord| && (x in s) != (ord[k] in s)
    requires Cap(Row(w, x, Prefix(ord, k), n)) <= Cap(Row(w, ord[k], Prefix(ord, k), n))
    requires CutInside(w, ord, s, k + 1, n) ==
             CutInside(w, ord, s, k, n) + Row(w, ord[k], OtherSide(ord, s, ord[k], k), n)
    requires CutInside(w, ord, s, k, n) >= U64_MAX
          || Row(w, ord[k], SameSide(ord, s, ord[k], k), n) <= CutInside(w, ord, s, k, n)
    ensures CutInside(w, ord, s, k + 1, n) >= U64_MAX
         || Row(w, x, SameSide(ord, s, x, k), n) <= CutInside(w, ord, s, k + 1, n)
  {
    RowSides(w, ord, s, ord[k], ord[k], k, n);
    RowSides(w, ord, s, x, x, k, n);
  }

  /** The heart of the Stoer-Wagner argument: once the cut weight inside the
      prefix is below the saturation point, no node waiting across from the
      newest one ties to its own side by more than the prefix already cuts. */
  lemma {:induction false} WaitingNodes(w: Matrix, ord: seq<nat>, s: set<nat>, k: nat, j: nat, n: nat)
    requires Symmetric(w, n) && NoRepeats(ord) && MaxAdjacency(w, ord, n)
    requires forall x :: x in ord ==> x < n
    requires 1 <= k <= j < |ord| && (ord[j] in s) != (ord[k - 1] in s)
    ensures CutInside(w, ord, s, k, n) >= U64_MAX
         || Row(w, ord[j], SameSide(ord, s, ord[j], k), n) <= CutInside(w, ord, s, k, n)
    decreases k
  {
    var x, v := ord[j], ord[k - 1];
    SameSideStep(ord, s, x, k);
    CutInsideStep(w, ord, s, k - 1, n);
    if k == 1 {
      RowNone(w, x, SameSide(ord, s, x, 0), n);
    } else if (v in s) == (ord[k - 2] in s) {
      WaitingNodes(w, ord, s, k - 1, j, n);
    } else {
      WaitingNodes(w, ord, s, k - 1, k - 1, n);
      ActiveStep(w, ord, s, k - 1, x, n);
    }
  }

  /** The last node of a maximum-adjacency ordering is separated from the one
      before it at least as cheaply by its own row as by any cut. */
  lemma CutOfPhaseIsMinimal(w: Matrix, ord: seq<nat>, active: set<nat>, s: set<nat>, n: nat)
    requires Symmetric(w, n) && NoRepeats(ord) && MaxAdjacency(w, ord, n)
    requires |ord| >= 2 && Prefix(ord, |ord|) == active <= Below(n) && s <= active
    requires (ord[|ord| - 1] in s) != (ord[|ord| - 2] in s)
    ensures Cap(Row(w, ord[|ord| - 1], active - {ord[|ord| - 1]}, n)) <= Cap(Cut(w, active, s, n))
  {
    var k := |ord| - 1;
    var t := ord[k];
    assert forall x :: x in ord ==> x in Prefix(ord, |ord|);
    WaitingNodes(w, ord, s, k, k, n);
    CutInsideStep(w, ord, s, k, n);
    RowSides(w, ord, s, t, t, k, n);
    PrefixStep(ord, k);
    assert active - {t} == Prefix(ord, k);
    assert active * s == s;
  }

  // ---- contraction --------------------------------------------------------

  /** `w'` is `w` with node `t` merged into node `s` (saturating sums). */
  ghost predicate Merged(w: Matrix, w': Matrix, active: set<nat>, s: nat, t: nat) {
    && (forall i: nat :: i in active && i != s && i != t ==>
          && At(w', s, i) == Cap(At(w, s, i) + At(w, t, i))
          && At(w', i, s) == Cap(At(w, i, s) + At(w, i, t)))
    && (forall i: nat, j: nat :: i in active && j in active && i != s && j != s && i != t && j != t ==>
          At(w', i, j) == At(w, i, j))
  }

  lemma MergeKeepsSide(w: Matrix, w': Matrix, active: set<nat>, s: nat, t: nat, side: set<nat>, n: nat)
    requires Merged(w, w', active, s, t) && s in active && t in active && s != t
    requires active <= Below(n) && side <= active - {t} && s in side
    ensures Cap(Cut(w', active - {t}, side, n)) == Cap(Cut(w, active, side + {t}, n))
  {
    var out := active - side - {t};
    var rest := side - {s};
    assert (active - {t}) - side == out && active - (side + {t}) == out;
    assert side == rest + {s} && side + {t} == rest + {s} + {t};
    CrossSplitLeft(w', rest, {s}, out, n, n);
    CrossSingle(w', s, out, n, n);
    CrossSplitLeft(w, rest + {s}, {t}, out, n, n);
    CrossSplitLeft(w, rest, {s}, out, n, n);
    CrossSingle(w, s, out, n, n);
    CrossSingle(w, t, out, n, n);
    CrossCong(w, w', rest, out, n, n);
    RowSum(w, w', s, t, out, n);
  }

  /** Merging preserves the weight of every cut that keeps `s` and `t` together. */
  lemma MergePreservesCut(w: Matrix, w': Matrix, active: set<nat>, s: nat, t: nat, side: set<nat>, n: nat)
    requires Merged(w, w', active, s, t) && s in active && t in active && s != t
    requires Symmetric(w, n) && Symmetric(w', n)
    requires active <= Below(n) && side <= active - {t}
    ensures Cap(Cut(w', active - {t}, side, n)) ==
            Cap(Cut(w, active, if s in side then side + {t} else side, n))
  {
    if s in side {
      MergeKeepsSide(w, w', active, s, t, side, n);
    } else {
      var other := active - {t} - side;
      MergeKeepsSide(w, w', active, s, t, other, n);
      CutComplement(w', active - {t}, side, n);
      CutComplement(w, active, side, n);
      assert active - side == other + {t};
    }
  }

  /** Two nodes joined by a saturated weight have a minimum cut, yet every proper side
      weighs as much as the initial "best so far": no phase improves on it. */
  lemma SaturatedPair()
    ensures
      var w := [[0, U64_MAX], [U64_MAX, 0]];
      && Symmetric(w, 2) && ProperSide({0}, Below(2))
      && forall s :: ProperSide(s, Below(2)) ==> Cut(w, Below(2), s, 2) == U64_MAX
  {
    var w: Matrix := [[0, U64_MAX], [U64_MAX, 0]];
    var all := Below(2);
    assert 1 in all && {0} <= all;
    forall s | ProperSide(s, Below(2)) ensures Cut(w, Below(2), s, 2) == U64_MAX {
      assert 0 in s && 1 in s ==> all <= s;
      assert exists v :: v in s;
      var t := Below(2) - s;
      assert (0 in s <==> 0 !in t) && (1 in s <==> 1 !in t);
      assert Row(w, 0, t, 1) == 0 && Row(w, 1, t, 1) == if 0 in t then U64_MAX else 0;
      assert Row(w, 0, t, 2) == if 1 in t then U64_MAX else 0;
      assert CrossUpTo(w, s, t, 1, 2) == if 0 in s then Row(w, 0, t, 2) else 0;
    }
  }
}
