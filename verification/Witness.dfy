/** The witness ring of `rvm-witness/src/log.rs` and the chain check of `replay.rs`. */
module Witness {
  import opened Types

  datatype ActionKind =
    NoAction | ProofVerifiedP1 | ProofRejected | CapabilityGrant | CapabilityRevoke
    | ContextResolve | ContextRead | ContextSearch | ContextPut | ContextAliasUpdate
    | ContextForget | ContextExecute | ContextEpochSeal

  datatype WitnessRecord = WitnessRecord(
    sequence: u64, timestamp: u64, action: ActionKind, proofTier: nat, flags: nat, actor: nat,
    target: nat, capability: nat, payload: nat, prevHash: nat, recordHash: nat, aux: nat)

  const ZEROED := WitnessRecord(0, 0, NoAction, 0, 0, 0, 0, 0, 0, 0, 0, 0)

  /** The hash functions, of which nothing is assumed: `link` chains a sequence number
      onto a 64-bit hash, `fold` shortens a hash to the 32 bits a record has room for. */
  datatype ChainHasher = ChainHasher(link: (u64, u64) -> u64, fold: u64 -> nat)

  datatype Checkpoint = Checkpoint(nextSequence: nat, chainHash: u64)

  datatype SnapshotError = FutureCheckpoint | RecordsOverwritten | OutputTooSmall(required: nat) | SequenceMismatch

  datatype ChainError = ChainBreak(sequence: nat) | RecordCorrupted(sequence: nat) | EmptyLog

  // ---- the chain ----------------------------------------------------------------------

  /** 64-bit wrap-around of a sequence number. */
  function Wrap(x: nat): u64 {
    x % 0x1_0000_0000_0000_0000
  }

  lemma WrapStep(x: nat)
    ensures Wrap(Wrap(x) + 1) == Wrap(x + 1)
    ensures x < 0x1_0000_0000_0000_0000 ==> Wrap(x) == x
  {}

  /** The chain hash after linking the `count` sequence numbers from `first` onto `start`. */
  function ChainHash(h: ChainHasher, start: u64, first: nat, count: nat): u64 {
    if count == 0 then start else h.link(ChainHash(h, start, first, count - 1), Wrap(first + count - 1))
  }

  /** Linking two adjacent ranges one after the other is linking the whole range. */
  lemma {:induction false} ChainSplit(h: ChainHasher, start: u64, first: nat, a: nat, b: nat)
    ensures ChainHash(h, ChainHash(h, start, first, a), first + a, b) == ChainHash(h, start, first, a + b)
  {
    if b > 0 { ChainSplit(h, start, first, a, b - 1); }
  }

  /** A record whose position and hashes fit position `k` of a chain that starts at `from`. */
  ghost predicate Linked(h: ChainHasher, from: Checkpoint, records: seq<WitnessRecord>, k: nat)
    requires k < |records|
  {
    && records[k].sequence == Wrap(from.nextSequence + k)
    && records[k].prevHash == h.fold(ChainHash(h, from.chainHash, from.nextSequence, k))
    && records[k].recordHash == h.fold(ChainHash(h, from.chainHash, from.nextSequence, k + 1))
  }

  ghost predicate Chained(h: ChainHasher, from: Checkpoint, records: seq<WitnessRecord>) {
    forall k :: 0 <= k < |records| ==> Linked(h, from, records, k)
  }

  /** Every suffix of a chain is a chain from its own checkpoint. */
  lemma SuffixChained(h: ChainHasher, from: Checkpoint, records: seq<WitnessRecord>, k: nat)
    requires Chained(h, from, records) && k <= |records|
    ensures
      Chained(h, Checkpoint(from.nextSequence + k, ChainHash(h, from.chainHash, from.nextSequence, k)), records[k..])
  {
    var mid := Checkpoint(from.nextSequence + k, ChainHash(h, from.chainHash, from.nextSequence, k));
    forall j | 0 <= j < |records| - k ensures Linked(h, mid, records[k..], j) {
      assert Linked(h, from, records, k + j);
      SuffixLinked(h, from, records, k, j);
    }
  }

  lemma SuffixLinked(h: ChainHasher, from: Checkpoint, records: seq<WitnessRecord>, k: nat, j: nat)
    requires k + j < |records| && Linked(h, from, records, k + j)
    ensures
      Linked(h, Checkpoint(from.nextSequence + k, ChainHash(h, from.chainHash, from.nextSequence, k)), records[k..], j)
  {
    hide Wrap, ChainHash;
    ChainSplit(h, from.chainHash, from.nextSequence, k, j);
    ChainSplit(h, from.chainHash, from.nextSequence, k, j + 1);
    assert records[k..][j] == records[k + j];
    assert from.nextSequence + (k + j) == from.nextSequence + k + j;
  }

  /** The first record that does not link, and the error that names it: a wrong own hash
      is corruption, a wrong place or predecessor a break. */
  ghost predicate FirstBreak(h: ChainHasher, from: Checkpoint, records: seq<WitnessRecord>, k: nat, error: ChainError) {
    && k < |records| && (forall j :: 0 <= j < k ==> Linked(h, from, records, j)) && !Linked(h, from, records, k)
    && if records[k].sequence == Wrap(from.nextSequence + k)
           && records[k].prevHash == h.fold(ChainHash(h, from.chainHash, from.nextSequence, k))
       then error == RecordCorrupted(records[k].sequence)
       else error == ChainBreak(records[k].sequence)
  }

  /** Accepts exactly the non-empty chains from the given hash and sequence number. */
  method VerifyChainFrom(h: ChainHasher, records: seq<WitnessRecord>, initial: u64, first: u64)
      returns (r: Result<nat, ChainError>)
    ensures r.Ok? <==> records != [] && Chained(h, Checkpoint(first, initial), records)
    ensures r.Ok? ==> r.value == |records|
    ensures r == Err(EmptyLog) <==> records == []
    ensures r.Err? && records != [] ==> exists k :: FirstBreak(h, Checkpoint(first, initial), records, k, r.error)
  {
    if records == [] {
      return Err(EmptyLog);
    }
    ghost var from := Checkpoint(first, initial);
    WrapStep(first);
    hide Wrap;
    var prev := initial;
    var expected: nat := first;
    for k := 0 to |records|
      invariant prev == ChainHash(h, initial, first, k)
      invariant expected == Wrap(first + k)
      invariant forall j :: 0 <= j < k ==> Linked(h, from, records, j)
    {
      WrapStep(first + k);
      var record := records[k];
      if record.sequence != expected {
        assert FirstBreak(h, from, records, k, ChainBreak(record.sequence));
        return Err(ChainBreak(record.sequence));
      }
      if record.prevHash != h.fold(prev) {
        assert FirstBreak(h, from, records, k, ChainBreak(record.sequence));
        return Err(ChainBreak(record.sequence));
      }
      var chain := h.link(prev, record.sequence);
      if record.recordHash != h.fold(chain) {
        assert FirstBreak(h, from, records, k, RecordCorrupted(record.sequence));
        return Err(RecordCorrupted(record.sequence));
      }
      prev := chain;
      expected := Wrap(expected + 1);
    }
    return Ok(|records|);
  }

  // ---- the ring -----------------------------------------------------------------------

  function Slot(sequence: nat, capacity: nat): (r: nat)
    requires capacity > 0
    ensures r < capacity
  {
    sequence % capacity
  }

  lemma NextSlot(k: nat, n: nat)
    requires n > 0
    ensures Slot(k + 1, n) == Slot(Slot(k, n) + 1, n)
  {
    var q, r := k / n, k % n;
    if r + 1 == n {
      SlotUnique(k + 1, n, q + 1, 0);
      SlotUnique(n, n, 1, 0);
    } else {
      SlotUnique(k + 1, n, q, r + 1);
      SlotUnique(r + 1, n, 0, r + 1);
    }
  }

  lemma FarMultiples(n: nat, d: int)
    ensures d >= 1 ==> n * d >= n
    ensures d <= -1 ==> n * d + n <= 0
  {
    if d >= 1 {
      assert n * (d - 1) >= 0;
    } else if d <= -1 {
      assert n * (d + 1) <= 0;
    }
  }

  lemma SlotUnique(x: nat, n: nat, q: nat, r: nat)
    requires n > 0 && x == n * q + r && r < n
    ensures x % n == r
  {
    var d := x / n - q;
    assert n * d == r - x % n;
    FarMultiples(n, d);
  }

  /** Numbers less than `n` apart fall into different slots. */
  lemma SlotsDiffer(j: nat, k: nat, n: nat)
    requires n > 0 && j < k < j + n
    ensures Slot(j, n) != Slot(k, n)
  {
    if j % n == k % n {
      var d := k / n - j / n;
      assert n * d == k - j;
      FarMultiples(n, d);
    }
  }

  /** What the log stores for a record appended as number `k`. */
  function Stamped(h: ChainHasher, k: u64, record: WitnessRecord): WitnessRecord {
    record.(sequence := k, prevHash := h.fold(ChainHash(h, 0, 0, k)), recordHash := h.fold(ChainHash(h, 0, 0, k + 1)))
  }

  /** Appending a stamped record extends the chain. */
  lemma ExtendChain(h: ChainHasher, history: seq<WitnessRecord>, record: WitnessRecord)
    requires |history| <= 0xFFFF_FFFF_FFFF_FFFF && Chained(h, Checkpoint(0, 0), history)
    ensures Chained(h, Checkpoint(0, 0), history + [Stamped(h, |history|, record)])
  {
    var history' := history + [Stamped(h, |history|, record)];
    WrapStep(|history|);
    forall k | 0 <= k < |history'| ensures Linked(h, Checkpoint(0, 0), history', k) {
      if k < |history| {
        assert Linked(h, Checkpoint(0, 0), history, k);
      }
    }
  }

  /** A ring holds the newest entries of a history. */
  ghost predicate RingHolds(ring: seq<WitnessRecord>, history: seq<WitnessRecord>) {
    && |ring| > 0
    && forall k :: 0 <= k < |history| && |history| - |ring| <= k ==> ring[Slot(k, |ring|)] == history[k]
  }

  lemma RingKept(ring: seq<WitnessRecord>, history: seq<WitnessRecord>, record: WitnessRecord)
    requires RingHolds(ring, history)
    ensures RingHolds(ring[Slot(|history|, |ring|) := record], history + [record])
  {
    var ring', history' := ring[Slot(|history|, |ring|) := record], history + [record];
    forall k | 0 <= k < |history'| && |history'| - |ring| <= k ensures ring'[Slot(k, |ring|)] == history'[k] {
      if k < |history| { SlotsDiffer(k, |history|, |ring|); }
    }
  }

  class WitnessLog {
    const records: array<WitnessRecord>
    const hasher: ChainHasher
    var writePos: nat
    var chainHash: u64
    var sequence: u64
    var totalEmitted: u64
    /** Every record ever appended, also those overwritten. */
    ghost var history: seq<WitnessRecord>

    /** The ring holds the newest records of the history, the history is one hash chain. */
    ghost predicate Valid()
      reads this, records
    {
      && 0 < records.Length
      && sequence == totalEmitted == |history| <= 0xFFFF_FFFF_FFFF_FFFF
      && writePos == Slot(|history|, records.Length)
      && chainHash == ChainHash(hasher, 0, 0, |history|)
      && Chained(hasher, Checkpoint(0, 0), history)
      && RingHolds(records[..], history)
    }

    constructor (capacity: nat, hasher: ChainHasher)
      requires capacity > 0
      ensures Valid() && history == [] && records.Length == capacity && this.hasher == hasher
      ensures fresh(records)
    {
      records := new WitnessRecord[capacity](_ => ZEROED);
      this.hasher := hasher;
      writePos, chainHash, sequence, totalEmitted, history := 0, 0, 0, 0, [];
    }

    /** Appends one record. The 64-bit counters would overflow only after 2^64 - 1 appends. */
    method Append(record: WitnessRecord) returns (number: u64)
      requires Valid() && totalEmitted < 0xFFFF_FFFF_FFFF_FFFF
      modifies this, records
      ensures Valid() && number == |old(history)|
      ensures history == old(history) + [Stamped(hasher, number, record)]
    {
      number := sequence;
      var prev := chainHash;
      var chain := hasher.link(prev, number);
      var stamped := record.(sequence := number, prevHash := hasher.fold(prev), recordHash := hasher.fold(chain));
      WrapStep(number);
      assert stamped == Stamped(hasher, number, record);
      records[writePos] := stamped;
      history := history + [stamped];
      ExtendChain(hasher, old(history), record);
      RingKept(old(records[..]), old(history), stamped);
      hide Chained, ChainHash;
      NextSlot(|old(history)|, records.Length);
      hide Slot, Wrap;
      WrapStep(number + 1);
      writePos := Slot(writePos + 1, records.Length);
      chainHash := chain;
      sequence := Wrap(number + 1);
      totalEmitted := totalEmitted + 1;
      assert records[..] == old(records[..])[Slot(number, records.Length) := stamped];
    }

    /** Where the next epoch starts. */
    method CurrentCheckpoint() returns (c: Checkpoint)
      requires Valid()
      ensures c == Checkpoint(|history|, ChainHash(hasher, 0, 0, |history|))
    {
      return Checkpoint(sequence, chainHash);
    }

    /** Copies out everything since `checkpoint`: exactly when the checkpoint is not ahead,
        at most a ring of records follows it and they fit. The ring never disagrees
        with the numbering. */
    method SnapshotSince(checkpoint: Checkpoint, out: array<WitnessRecord>)
        returns (r: Result<(nat, Checkpoint), SnapshotError>)
      requires Valid() && out != records
      modifies out
      ensures Valid()
      ensures r.Err? ==> out[..] == old(out[..])
      ensures
        var behind := |history| - checkpoint.nextSequence;
        r ==
          if behind < 0 then Err(FutureCheckpoint)
          else if behind > records.Length then Err(RecordsOverwritten)
          else if behind > out.Length then Err(OutputTooSmall(behind))
          else Ok((behind, Checkpoint(|history|, ChainHash(hasher, 0, 0, |history|))))
      ensures r.Ok? ==>
        && out[..r.value.0] == history[checkpoint.nextSequence..]
        && out[r.value.0..] == old(out[r.value.0..])
    {
      hide Chained, ChainHash, Slot;
      if checkpoint.nextSequence > sequence {
        return Err(FutureCheckpoint);
      }
      var capacity := records.Length;
      var retainedStart := if sequence >= capacity then sequence - capacity else 0;
      if checkpoint.nextSequence < retainedStart {
        return Err(RecordsOverwritten);
      }
      var required := sequence - checkpoint.nextSequence;
      if out.Length < required {
        return Err(OutputTooSmall(required));
      }
      for offset := 0 to required
        modifies out
        invariant forall j :: 0 <= j < offset ==> out[j] == history[checkpoint.nextSequence + j]
        invariant forall j :: required <= j < out.Length ==> out[j] == old(out[j])
      {
        var number := checkpoint.nextSequence + offset;
        var record := records[Slot(number, capacity)];
        assert record == history[number] && record.sequence == number by {
          Numbered(number);
        }
        if record.sequence != number {
          assert false;
        }
        out[offset] := record;
      }
      return Ok((required, Checkpoint(sequence, chainHash)));
    }

    lemma Numbered(k: nat)
      requires Valid() && k < |history|
      ensures history[k].sequence == k
    {
      assert Linked(hasher, Checkpoint(0, 0), history, k);
    }
  }
}
