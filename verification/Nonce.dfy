/** Replay protection and the P2 check of `rvm-cap/src/verify.rs`. */
module Nonce {
  import opened Types
  import opened CapTable
  import opened Derivation
  import opened CapManager

  const NONCE_RING_SIZE: nat := 4096

  /** Position in the ring after `n` steps. */
  function Slot(n: nat): nat {
    n % NONCE_RING_SIZE
  }

  datatype PolicyContext = PolicyContext(
    expectedOwner: PartitionId, regionBase: nat, regionLimit: nat, leaseExpiryNs: nat, currentTimeNs: nat,
    maxDelegationDepth: nat, nonce: nat)

  // ---- the history of accepted nonces ---------------------------------------------------

  /** The latest accepted nonce in the residue class of `h`, or 0. */
  ghost function Latest(accepted: seq<nat>, h: nat): nat {
    if accepted == [] then 0
    else
      var last := accepted[|accepted| - 1];
      if last % NONCE_RING_SIZE == h % NONCE_RING_SIZE then last else Latest(accepted[..|accepted| - 1], h)
  }

  ghost function Least(s: seq<nat>): nat
    requires s != []
  {
    if |s| == 1 then s[0]
    else
      var rest, last := Least(s[..|s| - 1]), s[|s| - 1];
      if last < rest then last else rest
  }

  /** The least nonce of the last full block of 4096, or 0 before the first is full. */
  ghost function Watermark(accepted: seq<nat>): nat {
    var full := |accepted| / NONCE_RING_SIZE * NONCE_RING_SIZE;
    if full == 0 then 0 else Least(accepted[full - NONCE_RING_SIZE..full])
  }

  /** When a nonzero nonce passes: above the watermark and not the latest of its class. */
  ghost predicate Accepts(accepted: seq<nat>, nonce: nat) {
    nonce > Watermark(accepted) && Latest(accepted, nonce) != nonce
  }

  /** Every nonce in the history passed when it came. */
  ghost predicate History(accepted: seq<nat>) {
    forall t :: 0 <= t < |accepted| ==> 0 < accepted[t] <= U64_MAX && Accepts(accepted[..t], accepted[t])
  }

  lemma {:induction false} LatestAfter(accepted: seq<nat>, s: nat, t: nat, h: nat)
    requires s < t <= |accepted| && accepted[s] % NONCE_RING_SIZE == h % NONCE_RING_SIZE
    ensures exists u ::
      && s <= u < t && accepted[u] % NONCE_RING_SIZE == h % NONCE_RING_SIZE
      && Latest(accepted[..t], h) == accepted[u]
    decreases t
  {
    var last := accepted[t - 1];
    assert accepted[..t][..t - 1] == accepted[..t - 1];
    if last % NONCE_RING_SIZE != h % NONCE_RING_SIZE {
      LatestAfter(accepted, s, t - 1, h);
    }
  }

  /** A nonzero nonce passes exactly when it is above the watermark and, if it was accepted
      before, another one congruent to it modulo 4096 was accepted since. */
  lemma AcceptsExactly(accepted: seq<nat>, nonce: nat)
    requires nonce > 0
    ensures Accepts(accepted, nonce) <==>
      && nonce > Watermark(accepted)
      && forall t :: 0 <= t < |accepted| && accepted[t] == nonce ==> Displaced(accepted, t)
  {
    var h := |accepted|;
    assert accepted[..h] == accepted;
    if Latest(accepted, nonce) == nonce {
      var t := LatestPlace(accepted, nonce);
      assert !Displaced(accepted, t);
    } else {
      forall t | 0 <= t < h && accepted[t] == nonce ensures Displaced(accepted, t) {
        LatestAfter(accepted, t, h, nonce);
      }
    }
  }

  /** A different nonce of the same class was accepted after number `t`. */
  ghost predicate Displaced(accepted: seq<nat>, t: nat)
    requires t < |accepted|
  {
    exists u :: t < u < |accepted| && accepted[u] % 4096 == accepted[t] % 4096 && accepted[u] != accepted[t]
  }

  lemma {:induction false} LatestPlace(accepted: seq<nat>, nonce: nat) returns (t: nat)
    requires nonce > 0 && Latest(accepted, nonce) == nonce
    ensures t < |accepted| && accepted[t] == nonce
    ensures forall u :: t < u < |accepted| ==> accepted[u] % 4096 != nonce % 4096
  {
    t := |accepted| - 1;
    if accepted[t] % 4096 != nonce % 4096 {
      t := LatestPlace(accepted[..t], nonce);
    }
  }

  /** The watermark is the least of the last full block of 4096. */
  lemma WatermarkExactly(accepted: seq<nat>)
    ensures |accepted| < 4096 ==> Watermark(accepted) == 0
    ensures |accepted| >= 4096 ==>
      var full := |accepted| - |accepted| % 4096;
      && (forall i :: full - 4096 <= i < full ==> Watermark(accepted) <= accepted[i])
      && (exists i :: full - 4096 <= i < full && Watermark(accepted) == accepted[i])
  {
    if |accepted| >= 4096 {
      var full := |accepted| - |accepted| % 4096;
      var block := accepted[full - 4096..full];
      assert |accepted| / NONCE_RING_SIZE * NONCE_RING_SIZE == full;
      LeastMember(block);
      assert Watermark(accepted) == Least(block);
      forall i | full - 4096 <= i < full ensures Watermark(accepted) <= accepted[i] {
        assert accepted[i] == block[i - (full - 4096)] && accepted[i] in block;
      }
      var j :| 0 <= j < |block| && block[j] == Least(block);
      assert accepted[full - 4096 + j] == block[j];
    }
  }

  /** A nonce comes back only after a different nonce of its class was accepted in between. */
  lemma NoPlainReplay(accepted: seq<nat>, s: nat, t: nat)
    requires History(accepted) && s < t < |accepted| && accepted[s] == accepted[t]
    ensures exists u ::
      s < u < t && accepted[u] != accepted[s] && accepted[u] % 4096 == accepted[s] % 4096
  {
    LatestAfter(accepted, s, t, accepted[t]);
  }

  /** That much is possible: the class is all the index remembers, so 1 passes again
      after 4097 although it is still in the ring. */
  lemma ReplayAfterCollision()
    ensures History([1, 4097, 1])
  {
    var h := [1, 4097, 1];
    assert h[..0] == [] && h[..1] == [1] && h[..2] == [1, 4097];
    assert [1, 4097][..1] == [1];
    forall t | 0 <= t < 3 ensures 0 < h[t] <= U64_MAX && Accepts(h[..t], h[t]) {}
  }

  lemma {:induction false} LeastMember(s: seq<nat>)
    requires s != []
    ensures Least(s) in s && forall x :: x in s ==> Least(s) <= x
  {
    if |s| > 1 {
      LeastMember(s[..|s| - 1]);
      assert s == s[..|s| - 1] + [s[|s| - 1]];
    }
  }

  /** Nothing at or below the watermark is ever accepted. */
  lemma AboveWatermark(accepted: seq<nat>, t: nat)
    requires History(accepted) && t < |accepted|
    ensures accepted[t] > Watermark(accepted[..t])
  {}

  lemma WatermarkInBlock(accepted: seq<nat>, b: nat, t: nat)
    requires b * NONCE_RING_SIZE <= t < (b + 1) * NONCE_RING_SIZE && t <= |accepted|
    ensures Watermark(accepted[..t]) ==
      if b == 0 then 0 else Least(accepted[(b - 1) * NONCE_RING_SIZE..b * NONCE_RING_SIZE])
  {
    assert t / NONCE_RING_SIZE == b;
    if b > 0 {
      assert accepted[..t][(b - 1) * NONCE_RING_SIZE..b * NONCE_RING_SIZE] ==
             accepted[(b - 1) * NONCE_RING_SIZE..b * NONCE_RING_SIZE];
    }
  }

  /** The watermark strictly rises with every 4096 accepted nonces. */
  lemma WatermarkRises(accepted: seq<nat>, b: nat)
    requires History(accepted) && (b + 1) * 4096 <= |accepted|
    ensures Watermark(accepted[..b * 4096]) < Watermark(accepted[..(b + 1) * 4096])
  {
    hide History, Watermark, Least;
    var lo, hi := b * NONCE_RING_SIZE, (b + 1) * NONCE_RING_SIZE;
    WatermarkInBlock(accepted, b, lo);
    WatermarkInBlock(accepted, b + 1, hi);
    var block := accepted[lo..hi];
    LeastMember(block);
    var i :| 0 <= i < |block| && block[i] == Least(block);
    WatermarkInBlock(accepted, b, lo + i);
    AboveWatermark(accepted, lo + i);
    assert accepted[lo + i] == block[i];
  }

  // ---- the verifier -------------------------------------------------------------------------

  class ProofVerifier {
    const nonceRing: array<nat>
    const nonceHash: array<nat>
    var nonceWritePos: nat
    var nonceWatermark: nat
    var allowZeroNonce: bool
    /** The nonzero nonces accepted so far, oldest first. */
    ghost var accepted: seq<nat>

    ghost predicate Valid()
      reads this, nonceRing, nonceHash
    {
      && nonceRing.Length == nonceHash.Length == NONCE_RING_SIZE && nonceRing != nonceHash
      && History(accepted)
      && nonceWritePos == Slot(|accepted|)
      && nonceWatermark == Watermark(accepted)
      && (forall i :: 0 <= i < nonceWritePos ==> nonceRing[i] == accepted[|accepted| - nonceWritePos + i])
      && (forall h :: 0 <= h < NONCE_RING_SIZE ==> nonceHash[h] == Latest(accepted, h))
    }

    constructor ()
      ensures fresh(nonceRing) && fresh(nonceHash) && Valid() && accepted == [] && !allowZeroNonce
    {
      nonceRing := new nat[NONCE_RING_SIZE](_ => 0);
      nonceHash := new nat[NONCE_RING_SIZE](_ => 0);
      nonceWritePos, nonceWatermark := 0, 0;
      allowZeroNonce := false;
      accepted := [];
    }

    method CheckNonce(nonce: nat) returns (passes: bool)
      requires Valid()
      ensures passes <==> if nonce == 0 then allowZeroNonce else Accepts(accepted, nonce)
    {
      if nonce == 0 {
        return allowZeroNonce;
      }
      if nonce <= nonceWatermark {
        return false;
      }
      LatestOfClass(accepted, nonce % NONCE_RING_SIZE, nonce);
      if nonceHash[nonce % NONCE_RING_SIZE] == nonce {
        return false;
      }
      return true;
    }

    method MarkNonce(nonce: nat)
      requires Valid() && nonce <= U64_MAX
      requires nonce != 0 ==> Accepts(accepted, nonce)
      modifies this, nonceRing, nonceHash
      ensures Valid() && allowZeroNonce == old(allowZeroNonce)
      ensures accepted == if nonce == 0 then old(accepted) else old(accepted) + [nonce]
    {
      hide History, Accepts, Watermark, Latest, Slot;
      if nonce != 0 {
        HistoryGrows(accepted, nonce);
        NextPosition(|accepted|);
        nonceRing[nonceWritePos] := nonce;
        IndexNonce(nonce);
        AdvanceRing(nonce);
      }
    }

    /** Steps the write position and, when it wraps, the watermark (lines 329-346). */
    method AdvanceRing(nonce: nat)
      requires nonceRing.Length == NONCE_RING_SIZE && nonceWritePos == Slot(|accepted|) < NONCE_RING_SIZE
      requires History(accepted + [nonce]) && nonceWatermark == Watermark(accepted) && nonceWritePos <= |accepted|
      requires forall i :: 0 <= i < nonceWritePos ==> nonceRing[i] == accepted[|accepted| - nonceWritePos + i]
      requires nonceRing[nonceWritePos] == nonce
      modifies this
      ensures accepted == old(accepted) + [nonce] && allowZeroNonce == old(allowZeroNonce)
      ensures nonceWritePos == Slot(|accepted|) && nonceWatermark == Watermark(accepted)
      ensures forall i :: 0 <= i < nonceWritePos ==> nonceRing[i] == accepted[|accepted| - nonceWritePos + i]
      ensures nonceWritePos <= |accepted|
    {
      hide History, Watermark, Slot;
      ghost var was := accepted;
      NextPosition(|was|);
      accepted := accepted + [nonce];
      nonceWritePos := Slot(nonceWritePos + 1);
      if nonceWritePos == 0 {
        assert nonceRing[..] == accepted[|accepted| - NONCE_RING_SIZE..];
        assert accepted[..|accepted| - 1] == was;
        BlockBounds(accepted);
        RaiseWatermark(nonceRing[..]);
      } else {
        SameWatermark(was, nonce);
      }
    }

    /** Populates the class index (lines 327-328). */
    method IndexNonce(nonce: nat)
      requires nonceHash.Length == NONCE_RING_SIZE
      requires forall h :: 0 <= h < NONCE_RING_SIZE ==> nonceHash[h] == Latest(accepted, h)
      modifies nonceHash
      ensures forall h :: 0 <= h < NONCE_RING_SIZE ==> nonceHash[h] == Latest(accepted + [nonce], h)
    {
      hide Latest;
      var hashSlot := nonce % NONCE_RING_SIZE;
      forall h | 0 <= h < NONCE_RING_SIZE
        ensures Latest(accepted + [nonce], h) == if h == hashSlot then nonce else Latest(accepted, h)
      {
        LatestGrows(accepted, nonce, h);
      }
      nonceHash[hashSlot] := nonce;
    }

    /** The wrap of lines 334-346: the least entry of a full ring becomes the watermark
        unless it is the sentinel `u64::MAX` or no rise, which never happens. */
    method RaiseWatermark(ghost ring: seq<nat>)
      requires ring == nonceRing[..] && |ring| == NONCE_RING_SIZE
      requires forall i :: 0 <= i < |ring| ==> 0 < ring[i] <= U64_MAX
      requires nonceWatermark < Least(ring) < U64_MAX
      modifies this`nonceWatermark
      ensures nonceWatermark == Least(ring)
    {
      hide Least;
      var minVal := U64_MAX;
      for i := 0 to NONCE_RING_SIZE
        invariant nonceWatermark == old(nonceWatermark)
        invariant minVal == if i == 0 then U64_MAX else Least(ring[..i])
      {
        LeastStep(ring, i);
        if nonceRing[i] != 0 && nonceRing[i] < minVal {
          minVal := nonceRing[i];
        }
      }
      assert ring[..NONCE_RING_SIZE] == ring;
      if minVal != U64_MAX && minVal > nonceWatermark {
        nonceWatermark := minVal;
      }
    }

    /** P2: owner, region, lease, depth and nonce must all pass; only then is the nonce used up. */
    method VerifyP2(manager: CapabilityManager, index: nat, generation: nat, ctx: PolicyContext) returns (ok: bool)
      requires Valid() && manager.Valid() && ctx.nonce <= U64_MAX
      modifies this, nonceRing, nonceHash
      ensures Valid() && allowZeroNonce == old(allowZeroNonce)
      ensures ok <==>
        && manager.table.LookupOf(index, generation).Ok?
        && manager.table.LookupOf(index, generation).value.owner == ctx.expectedOwner
        && ctx.regionBase < ctx.regionLimit && ctx.currentTimeNs <= ctx.leaseExpiryNs
        && manager.tree.nodes[index].depth <= ctx.maxDelegationDepth
        && (if ctx.nonce == 0 then allowZeroNonce else Accepts(old(accepted), ctx.nonce))
      ensures accepted == if ok && ctx.nonce != 0 then old(accepted) + [ctx.nonce] else old(accepted)
    {
      var looked := manager.table.Lookup(index, generation);
      var ownerOk := looked.Ok? && looked.value.owner == ctx.expectedOwner;
      var regionOk := ctx.regionBase < ctx.regionLimit;
      var leaseOk := ctx.currentTimeNs <= ctx.leaseExpiryNs;
      var depthOk := index < manager.tree.nodes.Length && manager.tree.nodes[index].isValid
                     && manager.tree.nodes[index].depth <= ctx.maxDelegationDepth;
      var nonceOk := CheckNonce(ctx.nonce);
      ok := ownerOk && regionOk && leaseOk && depthOk && nonceOk;
      if ok {
        MarkNonce(ctx.nonce);
      }
    }
  }

  lemma {:induction false} LatestOfClass(accepted: seq<nat>, h: nat, h': nat)
    requires h % NONCE_RING_SIZE == h' % NONCE_RING_SIZE
    ensures Latest(accepted, h) == Latest(accepted, h')
  {
    if accepted != [] { LatestOfClass(accepted[..|accepted| - 1], h, h'); }
  }

  lemma LatestGrows(accepted: seq<nat>, nonce: nat, h: nat)
    ensures Latest(accepted + [nonce], h) ==
      if nonce % NONCE_RING_SIZE == h % NONCE_RING_SIZE then nonce else Latest(accepted, h)
  {
    assert (accepted + [nonce])[..|accepted|] == accepted;
  }

  lemma LeastStep(s: seq<nat>, i: nat)
    requires i < |s|
    ensures Least(s[..i + 1]) == if i == 0 || s[i] < Least(s[..i]) then s[i] else Least(s[..i])
  {
    assert s[..i + 1][..i] == s[..i];
  }

  /** The write position after one more nonce, and the start of the open block. */
  lemma NextPosition(n: nat)
    ensures Slot(Slot(n) + 1) == Slot(n + 1) && Slot(n) < NONCE_RING_SIZE && Slot(n) <= n
    ensures Slot(n + 1) != 0 ==> Slot(n + 1) == Slot(n) + 1
    ensures Slot(n + 1) == 0 ==> Slot(n) == NONCE_RING_SIZE - 1
  {}

  lemma NeverTwiceRunning(accepted: seq<nat>, k: nat)
    requires History(accepted) && k + 1 < |accepted|
    ensures accepted[k] != accepted[k + 1]
  {
    var past := accepted[..k + 1];
    assert past[|past| - 1] == accepted[k] && Accepts(past, accepted[k + 1]);
  }

  lemma HistoryGrows(accepted: seq<nat>, nonce: nat)
    requires History(accepted) && 0 < nonce <= U64_MAX && Accepts(accepted, nonce)
    ensures History(accepted + [nonce])
  {
    var next := accepted + [nonce];
    forall t | 0 <= t < |next| ensures 0 < next[t] <= U64_MAX && Accepts(next[..t], next[t]) {
      assert next[..t] == if t < |accepted| then accepted[..t] else accepted;
    }
  }

  lemma SameWatermark(accepted: seq<nat>, nonce: nat)
    requires Slot(|accepted| + 1) != 0
    ensures Watermark(accepted + [nonce]) == Watermark(accepted)
  {
    var next := accepted + [nonce];
    assert |next| / NONCE_RING_SIZE == |accepted| / NONCE_RING_SIZE;
    var full := |accepted| / NONCE_RING_SIZE * NONCE_RING_SIZE;
    if full > 0 {
      assert next[full - NONCE_RING_SIZE..full] == accepted[full - NONCE_RING_SIZE..full];
    }
  }

  /** The least of a full block is above the watermark before it and is not `u64::MAX`:
      two nonces in a row are never equal. */
  lemma BlockBounds(accepted: seq<nat>)
    requires History(accepted) && |accepted| >= NONCE_RING_SIZE && Slot(|accepted|) == 0
    ensures Watermark(accepted) == Least(accepted[|accepted| - NONCE_RING_SIZE..])
    ensures Watermark(accepted[..|accepted| - 1]) < Watermark(accepted) < U64_MAX
    ensures forall i :: |accepted| - NONCE_RING_SIZE <= i < |accepted| ==> 0 < accepted[i] <= U64_MAX
  {
    var n := |accepted|;
    var block := accepted[n - NONCE_RING_SIZE..];
    assert forall i :: 0 <= i < n ==> 0 < accepted[i] <= U64_MAX;
    LastBlock(accepted, n / NONCE_RING_SIZE - 1);
    hide History, Watermark, Least, Slot;
    LeastMember(block);
    NeverTwiceRunning(accepted, n - NONCE_RING_SIZE);
    assert block[0] in block && block[1] in block;
  }

  lemma LastBlock(accepted: seq<nat>, b: nat)
    requires History(accepted) && |accepted| == (b + 1) * NONCE_RING_SIZE
    ensures Watermark(accepted) == Least(accepted[|accepted| - NONCE_RING_SIZE..])
    ensures Watermark(accepted[..|accepted| - 1]) < Watermark(accepted)
  {
    hide History, Watermark, Least;
    var n, lo := |accepted|, b * NONCE_RING_SIZE;
    assert accepted[..n] == accepted && accepted[lo..n] == accepted[n - NONCE_RING_SIZE..];
    WatermarkInBlock(accepted, b + 1, n);
    WatermarkInBlock(accepted, b, n - 1);
    WatermarkInBlock(accepted, b, lo);
    WatermarkRises(accepted, b);
  }
}
