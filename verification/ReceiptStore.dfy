/** The durable receipt store: `rvm-context-service/src/receipt_store.rs`. */
module ReceiptStore {
  import opened Types
  import opened Bytes
  import opened Witness
  import opened Receipt

  datatype ReceiptCursor = ReceiptCursor(nextSequence: u64, chainHash: u64, nextEpochId: u64,
                                         previousReceiptId: Bytes32)

  datatype StoreError = ReceiptRefused(cause: ReceiptError) | CorruptState | Database

  // ---- the cursor on disk -----------------------------------------------------------------------

  const CURSOR_OFFSETS: seq<nat> := [0, 8, 16, 24, 56]

  function CursorFields(c: ReceiptCursor): (r: seq<seq<byte>>)
    ensures |r| == 4
  {
    [ToLe(c.nextSequence, 8), ToLe(c.chainHash, 8), ToLe(c.nextEpochId, 8), c.previousReceiptId]
  }

  function CursorBytes(c: ReceiptCursor): seq<byte> { Layout(CursorFields(c)) }

  method EncodeCursor(c: ReceiptCursor) returns (bytes: array<byte>)
    ensures fresh(bytes) && bytes[..] == CursorBytes(c)
  {
    ghost var fields := CursorFields(c);
    bytes := new byte[56](_ => 0);
    assert bytes[..] == Zeros(56) && fields[..0] == [];
    assert Written(bytes[..], 0, fields, 0);
    hide Written, Layout, ToLe, Zeros;
    CopyField(bytes, 0, ToLe(c.nextSequence, 8), fields, 0);
    CopyField(bytes, 8, ToLe(c.chainHash, 8), fields, 1);
    CopyField(bytes, 16, ToLe(c.nextEpochId, 8), fields, 2);
    CopyField(bytes, 24, c.previousReceiptId, fields, 3);
    AllWritten(bytes[..], fields);
  }

  function DecodeCursor(bytes: seq<byte>): (r: Result<ReceiptCursor, StoreError>)
    ensures r.Ok? <==> |bytes| == 56
    ensures r.Err? ==> r == Err(CorruptState)
  {
    if |bytes| != 56 then Err(CorruptState)
    else Ok(ReceiptCursor(ReadLe(bytes, 0, 8), ReadLe(bytes, 8, 8), ReadLe(bytes, 16, 8), bytes[24..56]))
  }

  lemma CursorMeasured(c: ReceiptCursor)
    ensures Measured(CursorFields(c), CURSOR_OFFSETS) && |CursorBytes(c)| == 56
  {
    hide Layout, ToLe;
    forall k | 0 <= k < 4 ensures Measures(CursorFields(c), CURSOR_OFFSETS, k) {}
    LayoutLength(CursorFields(c), CURSOR_OFFSETS, 4);
    assert CursorFields(c)[..4] == CursorFields(c);
  }

  /** The cursor written is the cursor read. */
  lemma CursorRoundTrip(c: ReceiptCursor)
    ensures DecodeCursor(CursorBytes(c)) == Ok(c)
  {
    var data, fields := CursorBytes(c), CursorFields(c);
    CursorMeasured(c);
    Widths();
    hide Layout, ToLe, Power256, Measured, CursorBytes, ReadLe;
    CursorIs(c);
    LayoutField(fields, CURSOR_OFFSETS, 0);
    LayoutField(fields, CURSOR_OFFSETS, 1);
    LayoutField(fields, CURSOR_OFFSETS, 2);
    LayoutField(fields, CURSOR_OFFSETS, 3);
    ReadField(data, 0, c.nextSequence, 8);
    ReadField(data, 8, c.chainHash, 8);
    ReadField(data, 16, c.nextEpochId, 8);
  }

  lemma CursorIs(c: ReceiptCursor)
    ensures CursorBytes(c) == Layout(CursorFields(c))
  {}

  // ---- chains of receipts ---------------------------------------------------------------------------

  /** Receipt `k` of a chain: epoch `k`, the genesis or the successor of the one before,
      all by one signer. */
  ghost predicate LinkHolds(h: ChainHasher, d: Digests, chain: seq<SignedReceipt>, k: nat)
    requires k < |chain|
  {
    && chain[k].receipt.Sound() && chain[k].receipt.epochId == k && chain[k].signerId == chain[0].signerId
    && if k == 0 then IsGenesis(chain[0].receipt) else Follows(h, d, chain[k], chain[k - 1])
  }

  ghost predicate ReceiptChain(h: ChainHasher, d: Digests, chain: seq<SignedReceipt>) {
    forall k :: 0 <= k < |chain| ==> LinkHolds(h, d, chain, k)
  }

  /** Sequence numbers covered so far. */
  function Covered(chain: seq<SignedReceipt>): nat {
    if chain == [] then 0 else chain[|chain| - 1].receipt.lastSequence + 1
  }

  /** Neighbours in a chain. */
  lemma Neighbours(h: ChainHasher, d: Digests, chain: seq<SignedReceipt>, k: nat)
    requires ReceiptChain(h, d, chain) && 0 < k < |chain|
    ensures
      var c, p := chain[k].receipt, chain[k - 1].receipt;
      && c.firstSequence == p.lastSequence + 1 == p.firstSequence + p.recordCount
      && c.initialChainHash == ChainHash(h, p.initialChainHash, p.firstSequence, p.recordCount)
      && p.firstSequence <= p.lastSequence
  {
    assert LinkHolds(h, d, chain, k) && LinkHolds(h, d, chain, k - 1);
    hide ChainHash, ReceiptId;
  }

  lemma Genesis(h: ChainHasher, d: Digests, chain: seq<SignedReceipt>)
    requires ReceiptChain(h, d, chain) && chain != []
    ensures chain[0].receipt.firstSequence == 0 == chain[0].receipt.initialChainHash == ChainHash(h, 0, 0, 0)
  {
    assert LinkHolds(h, d, chain, 0);
  }

  /** Each receipt starts where the earlier ones end, on the chain hash from genesis. */
  lemma {:induction false} StartsWhereCovered(h: ChainHasher, d: Digests, chain: seq<SignedReceipt>, k: nat)
    requires ReceiptChain(h, d, chain) && k < |chain|
    ensures chain[k].receipt.firstSequence == Covered(chain[..k])
    ensures chain[k].receipt.initialChainHash == ChainHash(h, 0, 0, chain[k].receipt.firstSequence)
  {
    hide *;
    CoveredUpTo(chain, k);
    if k == 0 {
      Genesis(h, d, chain);
    } else {
      Neighbours(h, d, chain, k);
      StartsWhereCovered(h, d, chain, k - 1);
      var p := chain[k - 1].receipt;
      ChainSplit(h, 0, 0, p.firstSequence, p.recordCount);
    }
  }

  lemma CoveredUpTo(chain: seq<SignedReceipt>, k: nat)
    requires k <= |chain|
    ensures Covered(chain[..k]) == if k == 0 then 0 else chain[k - 1].receipt.lastSequence + 1
  {}

  /** The ranges tile `[0, Covered)`: every number below it lies in exactly one receipt. */
  lemma {:induction false} TilesOnce(h: ChainHasher, d: Digests, chain: seq<SignedReceipt>, q: nat)
    requires ReceiptChain(h, d, chain) && q < Covered(chain)
    ensures exists k :: 0 <= k < |chain| && chain[k].receipt.firstSequence <= q <= chain[k].receipt.lastSequence
    ensures forall j, k ::
      0 <= j < k < |chain| ==> chain[j].receipt.lastSequence < chain[k].receipt.firstSequence
  {
    Disjoint(h, d, chain);
    var k := |chain| - 1;
    while chain[k].receipt.firstSequence > q
      invariant 0 <= k < |chain| && q <= chain[k].receipt.lastSequence
      decreases k
    {
      if k == 0 { Genesis(h, d, chain); }
      Neighbours(h, d, chain, k);
      k := k - 1;
    }
  }

  lemma Disjoint(h: ChainHasher, d: Digests, chain: seq<SignedReceipt>)
    requires ReceiptChain(h, d, chain)
    ensures forall j, k ::
      0 <= j < k < |chain| ==> chain[j].receipt.lastSequence < chain[k].receipt.firstSequence
  {
    forall j, k | 0 <= j < k < |chain| ensures chain[j].receipt.lastSequence < chain[k].receipt.firstSequence {
      DisjointPair(h, d, chain, j, k);
    }
  }

  lemma {:induction false} DisjointPair(h: ChainHasher, d: Digests, chain: seq<SignedReceipt>, j: nat, k: nat)
    requires ReceiptChain(h, d, chain) && j < k < |chain|
    ensures chain[j].receipt.lastSequence < chain[k].receipt.firstSequence
  {
    Neighbours(h, d, chain, k);
    if j < k - 1 {
      DisjointPair(h, d, chain, j, k - 1);
    }
  }

  /** The cursor that goes with a non-empty chain: the chain hash is the fold from zero
      over everything covered. */
  ghost predicate CursorFits(h: ChainHasher, d: Digests, chain: seq<SignedReceipt>, c: ReceiptCursor)
    requires chain != []
  {
    && c.nextSequence == Covered(chain) && c.chainHash == ChainHash(h, 0, 0, Covered(chain))
    && c.nextEpochId == |chain| && c.previousReceiptId == ReceiptId(d, chain[|chain| - 1])
  }

  lemma LastIsSound(h: ChainHasher, d: Digests, chain: seq<SignedReceipt>)
    requires ReceiptChain(h, d, chain) && chain != []
    ensures chain[|chain| - 1].receipt.Sound() && |chain| <= U64_LIMIT
  {
    assert LinkHolds(h, d, chain, |chain| - 1);
  }

  lemma ExtendReceipts(h: ChainHasher, d: Digests, chain: seq<SignedReceipt>, s: SignedReceipt)
    requires ReceiptChain(h, d, chain) && s.receipt.Sound() && s.receipt.epochId == |chain|
    requires if chain == [] then IsGenesis(s.receipt)
             else Follows(h, d, s, chain[|chain| - 1]) && s.signerId == chain[|chain| - 1].signerId
    ensures ReceiptChain(h, d, chain + [s])
  {
    var chain' := chain + [s];
    forall k | 0 <= k < |chain'| ensures LinkHolds(h, d, chain', k) {
      if k < |chain| {
        assert LinkHolds(h, d, chain, k);
      } else if k > 0 {
        assert LinkHolds(h, d, chain, k - 1);
      }
    }
  }

  lemma LastLink(h: ChainHasher, d: Digests, chain: seq<SignedReceipt>, s: SignedReceipt)
    requires ReceiptChain(h, d, chain + [s])
    ensures s.receipt.epochId == |chain|
    ensures if chain == [] then IsGenesis(s.receipt) else Follows(h, d, s, chain[|chain| - 1])
  {
    assert LinkHolds(h, d, chain + [s], |chain|);
  }

  /** Folding the newest range onto its initial hash is folding from zero. */
  lemma NewHash(h: ChainHasher, d: Digests, chain: seq<SignedReceipt>, s: SignedReceipt)
    requires ReceiptChain(h, d, chain + [s])
    ensures ChainHash(h, s.receipt.initialChainHash, s.receipt.firstSequence, s.receipt.recordCount) ==
            ChainHash(h, 0, 0, Covered(chain + [s]))
    ensures s.receipt.firstSequence == Covered(chain)
  {
    hide ReceiptChain, ChainHash, ReceiptId, WireBytes;
    var chain', c := chain + [s], s.receipt;
    LastIsSound(h, d, chain');
    assert chain'[..|chain|] == chain;
    StartsWhereCovered(h, d, chain', |chain|);
    ChainSplit(h, 0, 0, c.firstSequence, c.recordCount);
  }

  // ---- the store ----------------------------------------------------------------------------------

  lemma FollowsId(h: ChainHasher, d: Digests, s: SignedReceipt, p: SignedReceipt)
    ensures Follows(h, d, s, p) ==> s.receipt.previousReceipt == ReceiptId(d, p)
  {}

  class DurableReceiptStore {
    const hasher: ChainHasher
    const digests: Digests
    /** The two tables, holding encoded values. */
    var receipts: map<u64, seq<byte>>
    var cursor: Option<seq<byte>>
    /** What they hold, decoded. */
    ghost var chain: seq<SignedReceipt>

    ghost predicate Valid()
      reads this
    {
      && ReceiptChain(hasher, digests, chain)
      && (forall e: u64 :: e in receipts <==> e < |chain|)
      && (forall e: u64 :: e < |chain| ==> receipts[e] == WireBytes(chain[e]))
      && (cursor.None? <==> chain == [])
      && (chain != [] ==> exists c :: CursorFits(hasher, digests, chain, c) && cursor == Some(CursorBytes(c)))
    }

    /** Opens an empty database. */
    constructor (hasher: ChainHasher, digests: Digests)
      ensures Valid() && chain == [] && this.hasher == hasher && this.digests == digests
    {
      this.hasher := hasher;
      this.digests := digests;
      receipts, cursor, chain := map[], None, [];
    }

    /** A receipt is admissible when the signer vouches for it and for its predecessor, it
        prolongs the chain, and the cursor handed along is the one of the longer chain. */
    ghost predicate Admissible(s: SignedReceipt, following: ReceiptCursor, signer: Signer)
      reads this
    {
      && VerifySignature(digests, s, signer).Ok?
      && (chain != [] ==> VerifySignature(digests, chain[|chain| - 1], signer).Ok?)
      && ReceiptChain(hasher, digests, chain + [s]) && CursorFits(hasher, digests, chain + [s], following)
    }

    /** The same, check by check. */
    ghost predicate Passes(s: SignedReceipt, following: ReceiptCursor, signer: Signer)
      reads this
    {
      VerifySignature(digests, s, signer).Ok? && Matches(s, following) && s.receipt.epochId == |chain|
        && Fits(s, signer)
    }

    /** The cursor handed along is the one after the receipt. */
    ghost predicate Matches(s: SignedReceipt, following: ReceiptCursor)
    {
      var c := s.receipt;
      && following.nextEpochId == c.epochId + 1 && following.previousReceiptId == ReceiptId(digests, s)
      && following.nextSequence == c.lastSequence + 1
      && following.chainHash == ChainHash(hasher, c.initialChainHash, c.firstSequence, c.recordCount)
    }

    ghost predicate Fits(s: SignedReceipt, signer: Signer)
      reads this
    {
      if chain == [] then IsGenesis(s.receipt)
      else VerifySignature(digests, chain[|chain| - 1], signer).Ok? && Follows(hasher, digests, s, chain[|chain| - 1])
    }

    lemma AdmissibleIff(s: SignedReceipt, following: ReceiptCursor, signer: Signer)
      requires ReceiptChain(hasher, digests, chain) && s.receipt.Sound()
      ensures Admissible(s, following, signer) <==> Passes(s, following, signer)
    {
      hide ReceiptChain, ChainHash, ReceiptId;
      if Admissible(s, following, signer) {
        LastLink(hasher, digests, chain, s);
        NewHash(hasher, digests, chain, s);
      }
      if Passes(s, following, signer) {
        ExtendReceipts(hasher, digests, chain, s);
        NewHash(hasher, digests, chain, s);
      }
    }

    method CursorMatches(s: SignedReceipt, following: ReceiptCursor) returns (ok: bool)
      requires s.receipt.Sound()
      ensures ok <==> Matches(s, following)
    {
      var c := s.receipt;
      if c.epochId + 1 >= U64_LIMIT || c.lastSequence + 1 >= U64_LIMIT {
        return false;
      }
      if following.nextEpochId != c.epochId + 1 || following.previousReceiptId != ReceiptId(digests, s)
         || following.nextSequence != c.lastSequence + 1 {
        return false;
      }
      hide ReceiptId, ChainHash;
      var expected := FoldRange(c);
      return following.chainHash == expected;
    }

    /** The chain hash after a receipt's whole range. */
    method FoldRange(c: EpochReceipt) returns (expected: u64)
      requires c.Sound() && c.lastSequence < U64_LIMIT
      ensures expected == ChainHash(hasher, c.initialChainHash, c.firstSequence, c.recordCount)
    {
      expected := c.initialChainHash;
      for sequence := c.firstSequence to c.lastSequence + 1
        invariant expected == ChainHash(hasher, c.initialChainHash, c.firstSequence, sequence - c.firstSequence)
      {
        WrapStep(sequence);
        expected := hasher.link(expected, sequence);
      }
    }

    /** Loads the resume cursor. */
    method Cursor() returns (r: Result<Option<ReceiptCursor>, StoreError>)
      requires Valid()
      ensures r.Ok?
      ensures r.value.None? <==> chain == []
      ensures r.value.Some? ==> CursorFits(hasher, digests, chain, r.value.value)
    {
      if cursor.None? {
        return Ok(None);
      }
      hide ReceiptChain, CursorBytes, DecodeCursor, ChainHash, Covered, ReceiptId, WireBytes;
      ghost var c :| CursorFits(hasher, digests, chain, c) && cursor == Some(CursorBytes(c));
      CursorRoundTrip(c);
      var decoded := DecodeCursor(cursor.value);
      if decoded.Err? {
        assert false;
      }
      return Ok(Some(decoded.value));
    }

    /** Loads and decodes the newest receipt. */
    method Newest(epoch: u64) returns (previous: SignedReceipt)
      requires Valid() && 0 < epoch == |chain|
      ensures previous == chain[epoch - 1] && previous.receipt.Sound()
    {
      LastIsSound(hasher, digests, chain);
      hide ReceiptChain, WireBytes, Framed, Decoded, CursorFits, CursorBytes;
      WireRoundTrip(chain[epoch - 1]);
      var decoded := FromBytes(receipts[epoch - 1]);
      if decoded.Err? {
        assert false;
      }
      return decoded.value;
    }

    /** Why a receipt does not fit: its place contradicts the cursor, the newest receipt
        was signed by someone else, or the link between the two is wrong. */
    ghost predicate RefusedFor(s: SignedReceipt, signer: Signer, error: StoreError)
      reads this
    {
      if chain == [] then !IsGenesis(s.receipt) && error == ReceiptRefused(ReceiptContinuity)
      else
        var newest := chain[|chain| - 1];
        if s.receipt.epochId != |chain| || s.receipt.previousReceipt != ReceiptId(digests, newest) then
          error == CorruptState
        else if VerifySignature(digests, newest, signer).Err? then
          error == ReceiptRefused(VerifySignature(digests, newest, signer).error)
        else !Follows(hasher, digests, s, newest) && error == ReceiptRefused(ReceiptContinuity)
    }

    /** Genesis into an empty store, otherwise the successor of the newest receipt. */
    method FitsChain(s: SignedReceipt, signer: Signer) returns (r: Result<(), StoreError>)
      requires Valid() && s.receipt.epochId >= |chain|
      ensures r.Ok? <==> s.receipt.epochId == |chain| && Fits(s, signer)
      ensures r.Err? ==> RefusedFor(s, signer, r.error)
    {
      hide ReceiptId, WireBytes, ChainHash, ReceiptChain, VerifySignature, Follows, CursorBytes;
      var c := s.receipt;
      var current := Cursor();
      if current.Err? {
        assert false;
      }
      if current.value.None? {
        return if IsGenesis(c) then Ok(()) else Err(ReceiptRefused(ReceiptContinuity));
      }
      FollowsId(hasher, digests, s, chain[|chain| - 1]);
      var cursor := current.value.value;
      if cursor.nextEpochId != c.epochId || cursor.previousReceiptId != c.previousReceipt {
        return Err(CorruptState);
      }
      if c.epochId == 0 {
        assert false;
      }
      var previous := Newest(c.epochId);
      var verified := VerifySignature(digests, previous, signer);
      if verified.Err? {
        return Err(ReceiptRefused(verified.error));
      }
      var follows := VerifySuccessor(hasher, digests, s, previous);
      return if follows.Err? then Err(ReceiptRefused(follows.error)) else Ok(());
    }

    /** Appends a receipt and its cursor in one transaction, exactly when admissible.
        Forks, gaps, replays and foreign signatures leave the store as it was. */
    method AppendVerified(s: SignedReceipt, following: ReceiptCursor, signer: Signer, commits: bool)
        returns (r: Result<(), StoreError>)
      requires Valid() && s.receipt.Sound()
      modifies this
      ensures Valid()
      ensures r.Ok? <==> old(Admissible(s, following, signer)) && commits
      ensures r.Ok? ==> chain == old(chain) + [s]
      ensures r.Err? ==> chain == old(chain) && receipts == old(receipts) && cursor == old(cursor)
      ensures r.Err? ==>
        if VerifySignature(digests, s, signer).Err? then
          r.error == ReceiptRefused(VerifySignature(digests, s, signer).error)
        else if !Matches(s, following) || s.receipt.epochId < |chain| then r.error == CorruptState
        else if Fits(s, signer) && s.receipt.epochId == |chain| then r.error == Database
        else RefusedFor(s, signer, r.error)
    {
      hide ReceiptChain, ReceiptId, ChainHash, WireBytes, CursorBytes, Admissible, Matches, Fits, CursorFits;
      AdmissibleIff(s, following, signer);
      var c := s.receipt;
      var verified := VerifySignature(digests, s, signer);
      if verified.Err? {
        return Err(ReceiptRefused(verified.error));
      }
      var matches := CursorMatches(s, following);
      if !matches {
        return Err(CorruptState);
      }
      var epoch := c.epochId;
      if epoch in receipts {
        return Err(CorruptState);
      }
      var fits := FitsChain(s, signer);
      if fits.Err? {
        return fits;
      }
      var receiptBytes := ToBytes(s);
      var cursorBytes := EncodeCursor(following);
      if !commits {
        return Err(Database);
      }
      AdmissibleMeans(s, following, signer);
      receipts := receipts[epoch := receiptBytes[..]];
      cursor := Some(cursorBytes[..]);
      chain := chain + [s];
      return Ok(());
    }

    lemma AdmissibleMeans(s: SignedReceipt, following: ReceiptCursor, signer: Signer)
      requires Admissible(s, following, signer)
      ensures ReceiptChain(hasher, digests, chain + [s]) && CursorFits(hasher, digests, chain + [s], following)
    {}
  }
}
