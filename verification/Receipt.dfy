/** Signed epoch receipts: `rvm-context/src/receipt.rs`. */
module Receipt {
  import opened Types
  import opened Bytes
  import opened Witness
  import Merkle

  const U64_LIMIT: nat := 0x1_0000_0000_0000_0000

  const MAX_CONTEXT_EPOCH_RECORDS: nat := 262_144

  datatype ReceiptError =
    EmptyEpoch | TooManyRecords | SequenceRange | TimestampBounds | Chain(error: ChainError)
    | Snapshot(cause: SnapshotError)
    | SignerMismatch | BadSignature | Encoding | WitnessRootMismatch | ReceiptContinuity

  datatype EpochReceipt = EpochReceipt(
    epochId: u64, firstSequence: u64, lastSequence: u64, recordCount: nat, started: u64, ended: u64,
    initialChainHash: u64,
    previousReceipt: Bytes32, namespaceRoot: Bytes32, rvfIdentity: Bytes32, policyHash: Bytes32, detailRoot: Bytes32,
    witnessRoot: Bytes32)
  {
    /** What every receipt has, sealed or decoded: a non-empty range of the stated length
        and ordered time bounds. */
    predicate Sound() {
      && 1 <= recordCount <= 262_144
      && firstSequence + recordCount == lastSequence + 1 && started <= ended
    }
  }

  datatype SignedReceipt = SignedReceipt(receipt: EpochReceipt, signerId: Bytes32, signature: Bytes64)

  /** The digests; what a proof needs of them it states. `leaf` and `node` build the Merkle
      tree, `signing` covers what is signed, `id` the complete signed receipt. */
  datatype Digests = Digests(
    leaf: WitnessRecord -> Bytes32, node: (Bytes32, Bytes32) -> Bytes32,
    signing: (seq<byte>, Bytes32) -> Bytes32, id: seq<byte> -> Bytes32)

  datatype Signer = Signer(id: Bytes32, sign: Bytes32 -> Bytes64, accepts: (Bytes32, Bytes64) -> bool)

  // ---- the wire form --------------------------------------------------------------------------

  const MAGIC: seq<byte> := [0x52, 0x55, 0x43, 0x52]
  const VERSION: u64 := 1

  /** The fields of the 256 unsigned bytes, in order, with the reserved ones. */
  function UnsignedFields(c: EpochReceipt): (r: seq<seq<byte>>)
    ensures |r| == 17
  {
    [MAGIC, ToLe(VERSION, 2), Zeros(2), ToLe(c.epochId, 8), ToLe(c.firstSequence, 8), ToLe(c.lastSequence, 8),
     ToLe(c.recordCount, 4), Zeros(4), ToLe(c.started, 8), ToLe(c.ended, 8), ToLe(c.initialChainHash, 8),
     c.previousReceipt, c.namespaceRoot, c.rvfIdentity, c.policyHash, c.detailRoot, c.witnessRoot]
  }

  const UNSIGNED_OFFSETS: seq<nat> := [0, 4, 6, 8, 16, 24, 32, 36, 40, 48, 56, 64, 96, 128, 160, 192, 224, 256]

  const SIGNED_OFFSETS: seq<nat> :=
    [0, 4, 6, 8, 16, 24, 32, 36, 40, 48, 56, 64, 96, 128, 160, 192, 224, 256, 288, 352]

  function SignedFields(s: SignedReceipt): (r: seq<seq<byte>>)
    ensures |r| == 19
  {
    UnsignedFields(s.receipt) + [s.signerId, s.signature]
  }

  /** The bytes that are signed, and the whole signed receipt. */
  function UnsignedBytes(c: EpochReceipt): seq<byte> { Layout(UnsignedFields(c)) }

  function WireBytes(s: SignedReceipt): seq<byte> { Layout(SignedFields(s)) }

  lemma UnsignedMeasured(c: EpochReceipt)
    ensures Measured(UnsignedFields(c), UNSIGNED_OFFSETS)
  {
    hide Layout, ToLe, Zeros;
    forall k | 0 <= k < 17 ensures Measures(UnsignedFields(c), UNSIGNED_OFFSETS, k) {}
  }

  lemma SignedMeasured(s: SignedReceipt)
    ensures Measured(SignedFields(s), SIGNED_OFFSETS) && |WireBytes(s)| == 352
  {
    UnsignedMeasured(s.receipt);
    hide Layout, UnsignedFields;
    assert SIGNED_OFFSETS[..18] == UNSIGNED_OFFSETS;
    forall k | 0 <= k < 19 ensures Measures(SignedFields(s), SIGNED_OFFSETS, k) {
      if k < 17 {
        assert Measures(UnsignedFields(s.receipt), UNSIGNED_OFFSETS, k);
      }
    }
    LayoutLength(SignedFields(s), SIGNED_OFFSETS, 19);
    assert SignedFields(s)[..19] == SignedFields(s);
  }

  /** How every receipt begins: the letters RUCR, version 1 in two bytes, and two zeros. */
  lemma WireBegins(c: EpochReceipt)
    ensures |UnsignedBytes(c)| == 256 && UnsignedBytes(c)[..8] == [0x52, 0x55, 0x43, 0x52, 1, 0, 0, 0]
  {
    var fields, bytes := UnsignedFields(c), UnsignedBytes(c);
    UnsignedMeasured(c);
    LayoutField(fields, UNSIGNED_OFFSETS, 0);
    LayoutField(fields, UNSIGNED_OFFSETS, 1);
    LayoutField(fields, UNSIGNED_OFFSETS, 2);
    UnsignedLength(c);
    assert fields[1] == [1, 0] && fields[2] == [0, 0];
    hide Layout, UnsignedBytes, UnsignedFields, Measured, ToLe, Zeros;
    assert bytes[..8] == bytes[0..4] + bytes[4..6] + bytes[6..8];
  }

  method EncodeUnsigned(c: EpochReceipt) returns (out: array<byte>)
    ensures fresh(out) && out[..] == UnsignedBytes(c)
  {
    ghost var fields := UnsignedFields(c);
    UnsignedMeasured(c);
    out := new byte[256](_ => 0);
    assert out[..] == Zeros(256) && fields[..0] == [];
    assert Written(out[..], 0, fields, 0);
    assert UnsignedBytes(c) == Layout(fields);
    hide Written, Layout, Measured, ToLe, Zeros, UnsignedFields, UnsignedBytes;
    EncodeCoordinates(c, out);
    EncodeRoots(c, out);
    AllWritten(out[..], fields);
  }

  /** Bytes 0 to 64. */
  method EncodeCoordinates(c: EpochReceipt, out: array<byte>)
    requires out.Length == 256 && Written(out[..], 0, UnsignedFields(c), 0)
    modifies out
    ensures Written(out[..], 64, UnsignedFields(c), 11)
  {
    EncodeRange(c, out);
    EncodeTimes(c, out);
  }

  method EncodeRange(c: EpochReceipt, out: array<byte>)
    requires out.Length == 256 && Written(out[..], 0, UnsignedFields(c), 0)
    modifies out
    ensures Written(out[..], 32, UnsignedFields(c), 6)
  {
    ghost var fields := UnsignedFields(c);
    assert fields[0] == MAGIC && fields[1] == ToLe(VERSION, 2) && fields[2] == Zeros(2);
    assert fields[3] == ToLe(c.epochId, 8) && fields[4] == ToLe(c.firstSequence, 8)
      && fields[5] == ToLe(c.lastSequence, 8);
    hide Written, Layout, ToLe, Zeros, UnsignedFields;
    CopyField(out, 0, MAGIC, fields, 0);
    CopyField(out, 4, ToLe(VERSION, 2), fields, 1);
    SkipField(out[..], 6, fields, 2);
    CopyField(out, 8, ToLe(c.epochId, 8), fields, 3);
    CopyField(out, 16, ToLe(c.firstSequence, 8), fields, 4);
    CopyField(out, 24, ToLe(c.lastSequence, 8), fields, 5);
  }

  method EncodeTimes(c: EpochReceipt, out: array<byte>)
    requires out.Length == 256 && Written(out[..], 32, UnsignedFields(c), 6)
    modifies out
    ensures Written(out[..], 64, UnsignedFields(c), 11)
  {
    ghost var fields := UnsignedFields(c);
    assert fields[6] == ToLe(c.recordCount, 4) && fields[7] == Zeros(4) && fields[8] == ToLe(c.started, 8);
    assert fields[9] == ToLe(c.ended, 8) && fields[10] == ToLe(c.initialChainHash, 8);
    hide Written, Layout, ToLe, Zeros, UnsignedFields;
    CopyField(out, 32, ToLe(c.recordCount, 4), fields, 6);
    SkipField(out[..], 36, fields, 7);
    CopyField(out, 40, ToLe(c.started, 8), fields, 8);
    CopyField(out, 48, ToLe(c.ended, 8), fields, 9);
    CopyField(out, 56, ToLe(c.initialChainHash, 8), fields, 10);
  }

  /** Bytes 64 to 256. */
  method EncodeRoots(c: EpochReceipt, out: array<byte>)
    requires out.Length == 256 && Written(out[..], 64, UnsignedFields(c), 11)
    modifies out
    ensures Written(out[..], 256, UnsignedFields(c), 17)
  {
    ghost var fields := UnsignedFields(c);
    assert fields[11] == c.previousReceipt && fields[12] == c.namespaceRoot && fields[13] == c.rvfIdentity;
    assert fields[14] == c.policyHash && fields[15] == c.detailRoot && fields[16] == c.witnessRoot;
    hide Written, Layout, ToLe, Zeros, UnsignedFields;
    CopyField(out, 64, c.previousReceipt, fields, 11);
    CopyField(out, 96, c.namespaceRoot, fields, 12);
    CopyField(out, 128, c.rvfIdentity, fields, 13);
    CopyField(out, 160, c.policyHash, fields, 14);
    CopyField(out, 192, c.detailRoot, fields, 15);
    CopyField(out, 224, c.witnessRoot, fields, 16);
  }

  lemma AllWritten(data: seq<byte>, fields: seq<seq<byte>>)
    requires Written(data, |data|, fields, |fields|)
    ensures data == Layout(fields)
  {
    assert data[..|data|] == data && fields[..|fields|] == fields;
  }

  method ToBytes(s: SignedReceipt) returns (out: array<byte>)
    ensures fresh(out) && out[..] == WireBytes(s)
  {
    ghost var fields := [UnsignedBytes(s.receipt), s.signerId, s.signature];
    var unsigned := EncodeUnsigned(s.receipt);
    out := new byte[352](_ => 0);
    assert out[..] == Zeros(352) && fields[..0] == [];
    assert Written(out[..], 0, fields, 0);
    UnsignedLength(s.receipt);
    Nested(s);
    hide Written, Layout, Zeros;
    CopyField(out, 0, unsigned[..], fields, 0);
    CopyField(out, 256, s.signerId, fields, 1);
    CopyField(out, 288, s.signature, fields, 2);
    AllWritten(out[..], fields);
  }

  lemma UnsignedLength(c: EpochReceipt)
    ensures |UnsignedBytes(c)| == 256
  {
    UnsignedMeasured(c);
    LayoutLength(UnsignedFields(c), UNSIGNED_OFFSETS, 17);
    assert UnsignedFields(c)[..17] == UnsignedFields(c);
  }

  lemma Nested(s: SignedReceipt)
    ensures Layout([UnsignedBytes(s.receipt), s.signerId, s.signature]) == WireBytes(s)
  {
    var flat, deep := SignedFields(s), [UnsignedBytes(s.receipt), s.signerId, s.signature];
    hide UnsignedFields, SignedFields, UnsignedBytes;
    assert flat == UnsignedFields(s.receipt) + [s.signerId, s.signature] by { ThatIs(s); }
    assert flat[..18] == UnsignedFields(s.receipt) + [s.signerId];
    assert flat[..18][..17] == UnsignedFields(s.receipt);
    assert deep[..2][..1] == [UnsignedBytes(s.receipt)] && deep[..2] == [UnsignedBytes(s.receipt), s.signerId];
    assert Layout(deep[..2][..1]) == UnsignedBytes(s.receipt);
    assert Layout(flat[..18]) == Layout(flat[..18][..17]) + s.signerId;
    assert Layout(deep[..2]) == Layout(deep[..2][..1]) + s.signerId;
    UnsignedIs(s.receipt);
  }

  lemma ThatIs(s: SignedReceipt)
    ensures SignedFields(s) == UnsignedFields(s.receipt) + [s.signerId, s.signature]
  {}

  lemma UnsignedIs(c: EpochReceipt)
    ensures UnsignedBytes(c) == Layout(UnsignedFields(c))
  {}

  // ---- decoding -----------------------------------------------------------------------------

  function ReadLe(data: seq<byte>, at: nat, n: nat): (r: nat)
    requires at + n <= |data|
    ensures n == 8 ==> r < U64_LIMIT
  {
    Widths();
    LeBack(data[at..at + n]);
    FromLe(data[at..at + n])
  }

  /** What 352 bytes say, whether or not it is sound. */
  function Decoded(data: seq<byte>): SignedReceipt
    requires |data| == 352
  {
    var c := EpochReceipt(
      ReadLe(data, 8, 8), ReadLe(data, 16, 8), ReadLe(data, 24, 8), ReadLe(data, 32, 4), ReadLe(data, 40, 8),
      ReadLe(data, 48, 8), ReadLe(data, 56, 8), data[64..96], data[96..128], data[128..160], data[160..192],
      data[192..224], data[224..256]);
    SignedReceipt(c, data[256..288], data[288..352])
  }

  /** The fixed parts: magic, version, and zeros where the format reserves space. */
  predicate Framed(data: seq<byte>)
    requires |data| == 352
  {
    && data[..4] == MAGIC && ReadLe(data, 4, 2) == VERSION
    && (forall k :: 6 <= k < 8 ==> data[k] == 0) && (forall k :: 36 <= k < 40 ==> data[k] == 0)
  }

  method FromBytes(data: seq<byte>) returns (r: Result<SignedReceipt, ReceiptError>)
    ensures r.Ok? <==> |data| == 352 && Framed(data) && Decoded(data).receipt.Sound()
    ensures r.Ok? ==> r.value == Decoded(data)
    ensures r == Err(Encoding) <==> |data| != 352 || !Framed(data)
    ensures r.Err? && r.error != Encoding ==>
      var c := Decoded(data).receipt;
      match r.error
      case TooManyRecords => c.recordCount > 262_144
      case SequenceRange =>
        c.recordCount <= 262_144 && (c.recordCount == 0 || c.lastSequence + 1 != c.firstSequence + c.recordCount)
      case TimestampBounds => c.ended < c.started
      case _ => false
  {
    if |data| != 352 {
      return Err(Encoding);
    }
    if data[..4] != MAGIC {
      return Err(Encoding);
    }
    if ReadLe(data, 4, 2) != VERSION {
      return Err(Encoding);
    }
    if data[6] != 0 || data[7] != 0 || data[36] != 0 || data[37] != 0 || data[38] != 0 || data[39] != 0 {
      return Err(Encoding);
    }
    var first, last, count := ReadLe(data, 16, 8), ReadLe(data, 24, 8), ReadLe(data, 32, 4);
    if count > MAX_CONTEXT_EPOCH_RECORDS {
      return Err(TooManyRecords);
    }
    if count == 0 || last < first || last - first + 1 >= U64_LIMIT || last - first + 1 != count {
      return Err(SequenceRange);
    }
    var started, ended := ReadLe(data, 40, 8), ReadLe(data, 48, 8);
    if ended < started {
      return Err(TimestampBounds);
    }
    return Ok(Decoded(data));
  }

  lemma ReadField(data: seq<byte>, at: nat, x: nat, n: nat)
    requires FieldAt(data, at, ToLe(x, n)) && x < Power256(n)
    ensures ReadLe(data, at, n) == x
  {
    LeRound(x, n);
  }

  /** Decoding undoes encoding for every sound receipt. */
  lemma WireRoundTrip(s: SignedReceipt)
    requires s.receipt.Sound()
    ensures |WireBytes(s)| == 352 && Framed(WireBytes(s)) && Decoded(WireBytes(s)) == s
  {
    var data, fields, c := WireBytes(s), SignedFields(s), s.receipt;
    SignedMeasured(s);
    Widths();
    forall k | 0 <= k < 19 ensures FieldAt(data, SIGNED_OFFSETS[k], fields[k]) {
      LayoutField(fields, SIGNED_OFFSETS, k);
    }
    hide Layout, ToLe, Power256, Measured, WireBytes, ReadLe;
    FieldsRead(data, s);
  }

  ghost predicate ShowsAll(data: seq<byte>, s: SignedReceipt) {
    |data| == 352 && forall k :: 0 <= k < 19 ==> FieldAt(data, SIGNED_OFFSETS[k], SignedFields(s)[k])
  }

  lemma FieldsRead(data: seq<byte>, s: SignedReceipt)
    requires ShowsAll(data, s) && s.receipt.Sound()
    ensures Framed(data) && Decoded(data) == s
  {
    hide ReadLe;
    FrameRead(data, s);
    NumbersRead(data, s);
    RootsRead(data, s);
  }

  lemma FrameRead(data: seq<byte>, s: SignedReceipt)
    requires ShowsAll(data, s)
    ensures Framed(data)
  {
    var fields := SignedFields(s);
    assert FieldAt(data, 0, fields[0]) && FieldAt(data, 4, fields[1]) && FieldAt(data, 6, fields[2]);
    assert FieldAt(data, 36, fields[7]);
    Widths();
    hide Layout, ToLe, Power256, ReadLe, ShowsAll;
    ReadField(data, 4, VERSION, 2);
    ZerosAt(data, 6, 2);
    ZerosAt(data, 36, 4);
  }

  lemma ZerosAt(data: seq<byte>, at: nat, n: nat)
    requires FieldAt(data, at, Zeros(n))
    ensures forall k :: at <= k < at + n ==> k < |data| && data[k] == 0
  {
    forall k | at <= k < at + n ensures k < |data| && data[k] == 0 {
      assert data[at..at + n][k - at] == Zeros(n)[k - at];
    }
  }

  lemma NumbersRead(data: seq<byte>, s: SignedReceipt)
    requires ShowsAll(data, s) && s.receipt.Sound()
    ensures
      var c := s.receipt;
      && ReadLe(data, 8, 8) == c.epochId && ReadLe(data, 16, 8) == c.firstSequence
         && ReadLe(data, 24, 8) == c.lastSequence
      && ReadLe(data, 32, 4) == c.recordCount && ReadLe(data, 40, 8) == c.started && ReadLe(data, 48, 8) == c.ended
      && ReadLe(data, 56, 8) == c.initialChainHash
  {
    var fields, c := SignedFields(s), s.receipt;
    assert FieldAt(data, 8, fields[3]) && FieldAt(data, 16, fields[4]) && FieldAt(data, 24, fields[5]);
    assert FieldAt(data, 32, fields[6]) && FieldAt(data, 40, fields[8]);
    assert FieldAt(data, 48, fields[9]) && FieldAt(data, 56, fields[10]);
    Widths();
    hide Layout, ToLe, Power256, ReadLe, ShowsAll, FieldAt;
    ReadField(data, 8, c.epochId, 8);
    ReadField(data, 16, c.firstSequence, 8);
    ReadField(data, 24, c.lastSequence, 8);
    ReadField(data, 32, c.recordCount, 4);
    ReadField(data, 40, c.started, 8);
    ReadField(data, 48, c.ended, 8);
    ReadField(data, 56, c.initialChainHash, 8);
  }

  lemma RootsRead(data: seq<byte>, s: SignedReceipt)
    requires ShowsAll(data, s)
    ensures
      var c := s.receipt;
      && data[64..96] == c.previousReceipt && data[96..128] == c.namespaceRoot && data[128..160] == c.rvfIdentity
      && data[160..192] == c.policyHash && data[192..224] == c.detailRoot && data[224..256] == c.witnessRoot
      && data[256..288] == s.signerId && data[288..352] == s.signature
  {
    var fields := SignedFields(s);
    assert FieldAt(data, 64, fields[11]) && FieldAt(data, 96, fields[12]) && FieldAt(data, 128, fields[13]);
    assert FieldAt(data, 160, fields[14]) && FieldAt(data, 192, fields[15]) && FieldAt(data, 224, fields[16]);
    assert FieldAt(data, 256, fields[17]) && FieldAt(data, 288, fields[18]);
  }

  lemma ReadBack(data: seq<byte>, at: nat, n: nat)
    requires at + n <= |data|
    ensures FieldAt(data, at, ToLe(ReadLe(data, at, n), n))
  {
    LeBack(data[at..at + n]);
  }

  /** Encoding undoes decoding: a receipt has no second wire form. */
  lemma WireCanonical(data: seq<byte>)
    requires |data| == 352 && Framed(data)
    ensures WireBytes(Decoded(data)) == data
  {
    var s := Decoded(data);
    var fields := SignedFields(s);
    SignedMeasured(s);
    ReadBack(data, 4, 2);
    ReadBack(data, 8, 8);
    ReadBack(data, 16, 8);
    ReadBack(data, 24, 8);
    ReadBack(data, 32, 4);
    ReadBack(data, 40, 8);
    ReadBack(data, 48, 8);
    ReadBack(data, 56, 8);
    assert data[6..8] == Zeros(2) && data[36..40] == Zeros(4);
    assert data[0..4] == data[..4];
    hide Layout, ToLe, Power256, Measured, WireBytes, ReadLe;
    forall k | 0 <= k < 19 ensures FieldAt(data, SIGNED_OFFSETS[k], fields[k]) {}
    LayoutOf(data, fields, SIGNED_OFFSETS, 19);
    assert fields[..19] == fields && data[..352] == data;
    WireIs(s);
  }

  /** Decoding accepts exactly the wire forms of sound receipts. */
  lemma AcceptedExactly(data: seq<byte>)
    ensures |data| == 352 && Framed(data) && Decoded(data).receipt.Sound() <==>
      exists s: SignedReceipt :: s.receipt.Sound() && WireBytes(s) == data
  {
    hide WireBytes, Framed, Decoded;
    if |data| == 352 && Framed(data) && Decoded(data).receipt.Sound() {
      WireCanonical(data);
    }
    forall s: SignedReceipt | s.receipt.Sound() && WireBytes(s) == data
      ensures |data| == 352 && Framed(data) && Decoded(data).receipt.Sound()
    {
      WireRoundTrip(s);
    }
  }

  lemma WireIs(s: SignedReceipt)
    ensures WireBytes(s) == Layout(SignedFields(s))
  {}

  // ---- sealing and checking ---------------------------------------------------------------------

  function Leaves(d: Digests, records: seq<WitnessRecord>): (r: seq<Bytes32>)
    ensures |r| == |records| && forall k :: 0 <= k < |records| ==> r[k] == d.leaf(records[k])
  {
    if records == [] then [] else [d.leaf(records[0])] + Leaves(d, records[1..])
  }

  function WitnessRoot(d: Digests, records: seq<WitnessRecord>): Bytes32 {
    if records == [] then ZERO32 else Merkle.Root(d.node, Leaves(d, records))
  }

  method MerkleRoot(d: Digests, records: seq<WitnessRecord>) returns (root: Bytes32)
    ensures root == WitnessRoot(d, records)
  {
    var level := new Bytes32[|records|](k requires 0 <= k < |records| => d.leaf(records[k]));
    assert level[..] == Leaves(d, records);
    root := Merkle.ReduceInPlace(d.node, level, ZERO32);
  }

  /** Where two record lists collide: two different records with one leaf digest, or two
      different pairs with one parent at the same place of the two trees. */
  datatype Collision = AtLeaf(index: nat) | AtNode(level: nat, place: nat)

  ghost predicate Collides(d: Digests, a: seq<WitnessRecord>, b: seq<WitnessRecord>, where: Collision) {
    match where
    case AtLeaf(i) => i < |a| && i < |b| && a[i] != b[i] && d.leaf(a[i]) == d.leaf(b[i])
    case AtNode(k, p) => Merkle.NodeCollision(d.node, Leaves(d, a), Leaves(d, b), k, p)
  }

  /** A root and a count determine the records, but for a collision found in the trees. */
  lemma RootCollides(d: Digests, a: seq<WitnessRecord>, b: seq<WitnessRecord>) returns (where: Collision)
    requires |a| == |b| && WitnessRoot(d, a) == WitnessRoot(d, b) && a != b
    ensures Collides(d, a, b, where)
  {
    var x, y := Leaves(d, a), Leaves(d, b);
    if x == y {
      var i :| 0 <= i < |a| && a[i] != b[i];
      assert x[i] == y[i];
      where := AtLeaf(i);
    } else {
      var k, p := Merkle.RootCollision(d.node, x, y);
      where := AtNode(k, p);
    }
  }

  /** The tightest bounds of the timestamps. */
  ghost predicate Bounds(records: seq<WitnessRecord>, lo: u64, hi: u64) {
    if records == [] then lo == hi == 0
    else
      && (forall k :: 0 <= k < |records| ==> lo <= records[k].timestamp <= hi)
      && (exists k :: 0 <= k < |records| && records[k].timestamp == lo)
      && (exists k :: 0 <= k < |records| && records[k].timestamp == hi)
  }

  method TimeBounds(records: seq<WitnessRecord>) returns (lo: u64, hi: u64)
    ensures Bounds(records, lo, hi) && lo <= hi
  {
    if records == [] {
      return 0, 0;
    }
    lo, hi := records[0].timestamp, records[0].timestamp;
    ghost var atLo, atHi := 0, 0;
    for k := 0 to |records|
      invariant forall j :: 0 <= j < k ==> lo <= records[j].timestamp <= hi
      invariant 0 <= atLo < |records| && records[atLo].timestamp == lo
      invariant 0 <= atHi < |records| && records[atHi].timestamp == hi
    {
      var timestamp := records[k].timestamp;
      if timestamp < lo { lo, atLo := timestamp, k; }
      if timestamp > hi { hi, atHi := timestamp, k; }
    }
    assert lo <= records[0].timestamp <= hi;
  }

  lemma BoundsUnique(records: seq<WitnessRecord>, lo: u64, hi: u64, lo': u64, hi': u64)
    requires Bounds(records, lo, hi) && Bounds(records, lo', hi')
    ensures lo == lo' && hi == hi'
  {}

  /** The records a receipt stands for. */
  ghost predicate Reproduces(h: ChainHasher, d: Digests, c: EpochReceipt, records: seq<WitnessRecord>) {
    && records != [] && |records| == c.recordCount <= MAX_CONTEXT_EPOCH_RECORDS
    && records[0].sequence == c.firstSequence && records[|records| - 1].sequence == c.lastSequence
    && Bounds(records, c.started, c.ended)
    && Chained(h, Checkpoint(c.firstSequence, c.initialChainHash), records)
    && WitnessRoot(d, records) == c.witnessRoot
  }

  /** Two lists of records a receipt stands for: different ones collide. */
  lemma ReceiptCollides(h: ChainHasher, d: Digests, c: EpochReceipt, a: seq<WitnessRecord>, b: seq<WitnessRecord>)
      returns (where: Collision)
    requires Reproduces(h, d, c, a) && Reproduces(h, d, c, b) && a != b
    ensures Collides(d, a, b, where)
  {
    where := RootCollides(d, a, b);
  }

  /** Checks records against a receipt: exactly those it stands for pass. */
  method VerifyRecords(h: ChainHasher, d: Digests, c: EpochReceipt, records: seq<WitnessRecord>)
      returns (r: Result<(), ReceiptError>)
    ensures r.Ok? <==> Reproduces(h, d, c, records)
    ensures r.Err? ==>
      match r.error
      case TooManyRecords => c.recordCount > 262_144
      case SequenceRange =>
        && c.recordCount <= 262_144
        && (|records| != c.recordCount || records == [] || records[0].sequence != c.firstSequence
            || records[|records| - 1].sequence != c.lastSequence)
      case TimestampBounds => |records| == c.recordCount <= 262_144 && !Bounds(records, c.started, c.ended)
      case Chain(error) =>
        && Bounds(records, c.started, c.ended)
        && exists k :: FirstBreak(h, Checkpoint(c.firstSequence, c.initialChainHash), records, k, error)
      case WitnessRootMismatch =>
        && Chained(h, Checkpoint(c.firstSequence, c.initialChainHash), records)
        && WitnessRoot(d, records) != c.witnessRoot
      case _ => false
  {
    if c.recordCount > MAX_CONTEXT_EPOCH_RECORDS {
      return Err(TooManyRecords);
    }
    if |records| != c.recordCount || records == [] {
      return Err(SequenceRange);
    }
    if records[0].sequence != c.firstSequence || records[|records| - 1].sequence != c.lastSequence {
      return Err(SequenceRange);
    }
    var lo, hi := TimeBounds(records);
    if (lo, hi) != (c.started, c.ended) {
      if Bounds(records, c.started, c.ended) { BoundsUnique(records, lo, hi, c.started, c.ended); }
      return Err(TimestampBounds);
    }
    var chain := VerifyChainFrom(h, records, c.initialChainHash, c.firstSequence);
    if chain.Err? {
      return Err(Chain(chain.error));
    }
    var root := MerkleRoot(d, records);
    if root != c.witnessRoot {
      return Err(WitnessRootMismatch);
    }
    return Ok(());
  }

  /** The sequence numbers at both ends of a chain. */
  lemma ChainEnds(h: ChainHasher, checkpoint: Checkpoint, records: seq<WitnessRecord>)
    requires Chained(h, checkpoint, records) && records != [] && checkpoint.nextSequence < U64_LIMIT
    ensures records[0].sequence == checkpoint.nextSequence
    ensures checkpoint.nextSequence + |records| <= U64_LIMIT ==>
      records[|records| - 1].sequence == checkpoint.nextSequence + |records| - 1
  {
    assert Linked(h, checkpoint, records, 0) && Linked(h, checkpoint, records, |records| - 1);
  }

  /** Seals records that follow a checkpoint: exactly a non-empty chain from there that is
      not too long and stays within 64-bit numbering. */
  method Seal(h: ChainHasher, d: Digests, epochId: u64, checkpoint: Checkpoint, records: seq<WitnessRecord>,
              previousReceipt: Bytes32, namespaceRoot: Bytes32, rvfIdentity: Bytes32, policyHash: Bytes32,
              detailRoot: Bytes32)
      returns (r: Result<EpochReceipt, ReceiptError>)
    requires checkpoint.nextSequence < U64_LIMIT
    ensures r.Ok? <==>
      && 1 <= |records| <= 262_144 && Chained(h, checkpoint, records)
      && checkpoint.nextSequence + |records| <= U64_LIMIT
    ensures r.Ok? ==>
      var c := r.value;
      && c.Sound() && Reproduces(h, d, c, records) && c.recordCount == |records|
      && c.epochId == epochId && c.firstSequence == checkpoint.nextSequence
         && c.initialChainHash == checkpoint.chainHash
      && c.previousReceipt == previousReceipt && c.namespaceRoot == namespaceRoot && c.rvfIdentity == rvfIdentity
      && c.policyHash == policyHash && c.detailRoot == detailRoot
    ensures r.Err? ==>
      match r.error
      case EmptyEpoch => records == []
      case TooManyRecords => |records| > 262_144
      case Chain(error) => |records| <= 262_144 && exists k :: FirstBreak(h, checkpoint, records, k, error)
      case SequenceRange => Chained(h, checkpoint, records) && checkpoint.nextSequence + |records| > U64_LIMIT
      case _ => false
  {
    if records == [] {
      return Err(EmptyEpoch);
    }
    if |records| > MAX_CONTEXT_EPOCH_RECORDS {
      return Err(TooManyRecords);
    }
    var chain := VerifyChainFrom(h, records, checkpoint.chainHash, checkpoint.nextSequence);
    if chain.Err? {
      return Err(Chain(chain.error));
    }
    var first, last := records[0], records[|records| - 1];
    ChainEnds(h, checkpoint, records);
    hide Chained, Bounds, WitnessRoot;
    var started, ended := TimeBounds(records);
    if first.sequence + |records| - 1 >= U64_LIMIT || last.sequence != first.sequence + |records| - 1 {
      return Err(SequenceRange);
    }
    var root := MerkleRoot(d, records);
    return Ok(EpochReceipt(
      epochId, first.sequence, last.sequence, |records|, started, ended, checkpoint.chainHash, previousReceipt,
      namespaceRoot, rvfIdentity, policyHash, detailRoot, root));
  }

  // ---- signatures and continuity ------------------------------------------------------------------

  function Sign(d: Digests, c: EpochReceipt, signer: Signer): SignedReceipt {
    SignedReceipt(c, signer.id, signer.sign(d.signing(UnsignedBytes(c), signer.id)))
  }

  function ReceiptId(d: Digests, s: SignedReceipt): Bytes32 {
    d.id(WireBytes(s))
  }

  /** The signer is the one named, then the signature holds. */
  function VerifySignature(d: Digests, s: SignedReceipt, signer: Signer): (r: Result<(), ReceiptError>)
    ensures r == Err(SignerMismatch) <==> signer.id != s.signerId
  {
    if signer.id != s.signerId then Err(SignerMismatch)
    else if !signer.accepts(d.signing(UnsignedBytes(s.receipt), s.signerId), s.signature) then Err(BadSignature)
    else Ok(())
  }

  /** A signer that accepts what it signs. */
  ghost predicate Honest(signer: Signer) {
    forall digest: Bytes32 :: signer.accepts(digest, signer.sign(digest))
  }

  /** A signer that accepts no signature for two digests. */
  ghost predicate OneDigest(signer: Signer) {
    forall x: Bytes32, y: Bytes32, signature: Bytes64 ::
      signer.accepts(x, signature) && signer.accepts(y, signature) ==> x == y
  }

  /** What an honest signer signs verifies under it and under nobody of another name. */
  lemma SignedVerifies(d: Digests, c: EpochReceipt, signer: Signer, other: Signer)
    requires Honest(signer) && other.id != signer.id
    ensures VerifySignature(d, Sign(d, c, signer), signer) == Ok(())
    ensures VerifySignature(d, Sign(d, c, signer), other) == Err(SignerMismatch)
  {
    var digest: Bytes32 := d.signing(UnsignedBytes(c), signer.id);
    assert signer.accepts(digest, signer.sign(digest));
  }

  /** Different sound receipts have different signed bytes. */
  lemma UnsignedInjective(c: EpochReceipt, c': EpochReceipt)
    requires c.Sound() && c'.Sound() && UnsignedBytes(c) == UnsignedBytes(c')
    ensures c == c'
  {
    var s, s' := SignedReceipt(c, ZERO32, Zeros(64)), SignedReceipt(c', ZERO32, Zeros(64));
    Nested(s);
    Nested(s');
    WireRoundTrip(s);
    WireRoundTrip(s');
  }

  /** A receipt exchanged under its signature still verifies only if the digest of the
      signed bytes collides on the two. */
  lemma SignatureBinds(d: Digests, s: SignedReceipt, c: EpochReceipt, signer: Signer)
    requires OneDigest(signer) && s.receipt.Sound() && c.Sound() && c != s.receipt
    requires VerifySignature(d, s, signer).Ok? && VerifySignature(d, s.(receipt := c), signer).Ok?
    ensures UnsignedBytes(c) != UnsignedBytes(s.receipt)
    ensures d.signing(UnsignedBytes(c), s.signerId) == d.signing(UnsignedBytes(s.receipt), s.signerId)
  {
    hide UnsignedBytes;
    if UnsignedBytes(c) == UnsignedBytes(s.receipt) {
      UnsignedInjective(c, s.receipt);
      assert false;
    }
  }

  predicate IsGenesis(c: EpochReceipt) {
    c.epochId == 0 && c.firstSequence == 0 && c.initialChainHash == 0 && c.previousReceipt == ZERO32
  }

  lemma GenesisExactly(c: EpochReceipt)
    ensures IsGenesis(c) <==>
      && c.epochId == 0 && c.firstSequence == 0 && c.initialChainHash == 0
      && forall k :: 0 <= k < 32 ==> c.previousReceipt[k] == 0
  {}

  /** The next receipt after `previous`, by identifier, epoch, sequence and chain hash. */
  ghost predicate Follows(h: ChainHasher, d: Digests, s: SignedReceipt, previous: SignedReceipt) {
    var c, p := s.receipt, previous.receipt;
    && c.previousReceipt == ReceiptId(d, previous) && c.epochId == p.epochId + 1
       && c.firstSequence == p.lastSequence + 1
    && c.initialChainHash == ChainHash(h, p.initialChainHash, p.firstSequence, p.recordCount)
  }

  method VerifySuccessor(h: ChainHasher, d: Digests, s: SignedReceipt, previous: SignedReceipt)
      returns (r: Result<(), ReceiptError>)
    requires previous.receipt.Sound()
    ensures r.Ok? <==> Follows(h, d, s, previous)
    ensures r.Err? ==> r == Err(ReceiptContinuity)
  {
    var c, p := s.receipt, previous.receipt;
    if p.epochId + 1 >= U64_LIMIT || p.lastSequence + 1 >= U64_LIMIT {
      return Err(ReceiptContinuity);
    }
    var expected := p.initialChainHash;
    for offset := 0 to p.recordCount
      invariant expected == ChainHash(h, p.initialChainHash, p.firstSequence, offset)
    {
      var sequence := p.firstSequence + offset;
      WrapStep(sequence);
      expected := h.link(expected, sequence);
    }
    if c.previousReceipt != ReceiptId(d, previous) || c.epochId != p.epochId + 1
      || c.firstSequence != p.lastSequence + 1
       || c.initialChainHash != expected {
      return Err(ReceiptContinuity);
    }
    return Ok(());
  }
}
