/** Sealing epochs: the receipt cursor of `rvm-context/src/runtime.rs` kept in step with the
    durable store by `rvm-context-service/src/receipt_drainer.rs`. */
module Drainer {
  import opened Types
  import opened Bytes
  import opened Witness
  import opened Authority
  import opened Receipt
  import opened ReceiptStore

  datatype ReceiptChainState = ReceiptChainState(nextCheckpoint: Checkpoint, nextEpochId: u64,
                                                 previousReceiptId: Bytes32)

  const GENESIS := ReceiptChainState(Checkpoint(0, 0), 0, ZERO32)

  // ---- runtime, store and witness history in step ------------------------------------------------

  /** The resume state that goes with a chain of receipts. */
  ghost predicate StateFits(h: ChainHasher, d: Digests, chain: seq<SignedReceipt>, state: ReceiptChainState) {
    && state.nextCheckpoint == Checkpoint(Covered(chain), ChainHash(h, 0, 0, Covered(chain)))
    && state.nextEpochId == |chain|
    && state.previousReceiptId == if chain == [] then ZERO32 else ReceiptId(d, chain[|chain| - 1])
  }

  /** Each receipt stands for its own range of the witness history. */
  ghost predicate Commits(h: ChainHasher, d: Digests, chain: seq<SignedReceipt>, history: seq<WitnessRecord>) {
    Covered(chain) <= |history| && forall k :: 0 <= k < |chain| ==> CommitsAt(h, d, chain, history, k)
  }

  ghost predicate CommitsAt(h: ChainHasher, d: Digests, chain: seq<SignedReceipt>, history: seq<WitnessRecord>, k: nat)
    requires k < |chain|
  {
    RangeCommits(h, d, chain[k].receipt, history)
  }

  ghost predicate RangeCommits(h: ChainHasher, d: Digests, c: EpochReceipt, history: seq<WitnessRecord>) {
    c.firstSequence <= c.lastSequence < |history| && Reproduces(h, d, c, RangeOf(c, history))
  }

  /** Growing the history leaves the sealed ranges alone. */
  lemma CommitsMore(h: ChainHasher, d: Digests, chain: seq<SignedReceipt>, history: seq<WitnessRecord>,
                    more: seq<WitnessRecord>)
    requires Commits(h, d, chain, history)
    ensures Commits(h, d, chain, history + more)
  {
    hide Reproduces;
    forall k | 0 <= k < |chain| ensures CommitsAt(h, d, chain, history + more, k) {
      assert CommitsAt(h, d, chain, history, k);
      var c := chain[k].receipt;
      assert (history + more)[c.firstSequence..c.lastSequence + 1] == history[c.firstSequence..c.lastSequence + 1];
    }
  }

  /** Each receipt covers something, so there are no more receipts than numbers covered. */
  lemma {:induction false} FewerThanCovered(h: ChainHasher, d: Digests, chain: seq<SignedReceipt>, k: nat)
    requires ReceiptChain(h, d, chain) && k <= |chain|
    ensures k <= Covered(chain[..k])
  {
    if k > 0 {
      hide ReceiptChain;
      FewerThanCovered(h, d, chain, k - 1);
      StartsWhereCovered(h, d, chain, k - 1);
      LastIsSoundAt(h, d, chain, k - 1);
      assert chain[..k][k - 1] == chain[k - 1];
    }
  }

  lemma LastIsSoundAt(h: ChainHasher, d: Digests, chain: seq<SignedReceipt>, k: nat)
    requires ReceiptChain(h, d, chain) && k < |chain|
    ensures chain[k].receipt.Sound()
  {
    assert LinkHolds(h, d, chain, k);
  }

  /** The part of a history that a receipt covers. */
  ghost function RangeOf(c: EpochReceipt, history: seq<WitnessRecord>): seq<WitnessRecord>
    requires c.firstSequence <= c.lastSequence < |history|
  {
    history[c.firstSequence..c.lastSequence + 1]
  }

  /** The stored receipts pin down the sealed history: where two histories differ in a
      sealed record, the trees of the range that covers it hold a collision. */
  lemma SealedHistoryCollides(h: ChainHasher, d: Digests, chain: seq<SignedReceipt>, a: seq<WitnessRecord>,
                              b: seq<WitnessRecord>, q: nat) returns (k: nat, where: Collision)
    requires ReceiptChain(h, d, chain) && Commits(h, d, chain, a) && Commits(h, d, chain, b)
    requires q < Covered(chain) && a[q] != b[q]
    ensures k < |chain|
    ensures
      var c := chain[k].receipt;
      && c.firstSequence <= q <= c.lastSequence < |a| && c.lastSequence < |b|
      && Collides(d, RangeOf(c, a), RangeOf(c, b), where)
  {
    hide Reproduces, ReceiptChain, Collides;
    TilesOnce(h, d, chain, q);
    k :| k < |chain| && chain[k].receipt.firstSequence <= q <= chain[k].receipt.lastSequence;
    assert CommitsAt(h, d, chain, a, k) && CommitsAt(h, d, chain, b, k);
    hide Commits, Covered;
    var c := chain[k].receipt;
    var x, y := RangeOf(c, a), RangeOf(c, b);
    assert x[q - c.firstSequence] == a[q] && y[q - c.firstSequence] == b[q];
    where := ReceiptCollides(h, d, c, x, y);
  }

  // ---- the runtime ----------------------------------------------------------------------------------

  /** How a resolver operation ends once it is authorized: recorded as done, recorded as
      rejected, or given up by an error that leaves no second record. */
  datatype Completion = Completed | Rejected | Abandoned

  function ActionOf(op: ContextOperation): ActionKind {
    match op
    case Resolve | List | Tree | History | Verify => ContextResolve
    case Read => ContextRead
    case Search => ContextSearch
    case Put => ContextPut
    case CompareAndSwapAlias => ContextAliasUpdate
    case Forget => ContextForget
    case Execute => ContextExecute
    case GrantContext => CapabilityGrant
    case RevokeContext => CapabilityRevoke
    case SealReceipt => ContextEpochSeal
  }

  /** Which operations leave which action; each change of state has an action of its own. */
  lemma ActionExactly(op: ContextOperation)
    ensures ActionOf(op) == ContextResolve <==> op in {Resolve, List, Tree, History, Verify}
    ensures ActionOf(op) == ContextRead <==> op == Read
    ensures ActionOf(op) == ContextSearch <==> op == Search
    ensures ActionOf(op) == ContextPut <==> op == Put
    ensures ActionOf(op) == ContextAliasUpdate <==> op == CompareAndSwapAlias
    ensures ActionOf(op) == ContextForget <==> op == Forget
    ensures ActionOf(op) == ContextExecute <==> op == Execute
    ensures ActionOf(op) == CapabilityGrant <==> op == GrantContext
    ensures ActionOf(op) == CapabilityRevoke <==> op == RevokeContext
    ensures ActionOf(op) == ContextEpochSeal <==> op == SealReceipt
  {}

  /** A receipt whose range goes from the cursor to the end of a log of `total` records,
      and the state that follows it. */
  ghost predicate Prepared(h: ChainHasher, d: Digests, now: ReceiptChainState, total: nat, s: SignedReceipt,
                           next: ReceiptChainState) {
    var c := s.receipt;
    && c.Sound() && c.firstSequence == now.nextCheckpoint.nextSequence && c.lastSequence + 1 == total
    && c.epochId == now.nextEpochId && c.previousReceipt == now.previousReceiptId
    && c.initialChainHash == now.nextCheckpoint.chainHash
    && next.nextCheckpoint == Checkpoint(total, ChainHash(h, 0, 0, total))
    && next.nextEpochId == now.nextEpochId + 1 && next.previousReceiptId == ReceiptId(d, s)
  }

  function CursorOf(state: ReceiptChainState): ReceiptCursor
    requires state.nextCheckpoint.nextSequence < U64_LIMIT
  {
    ReceiptCursor(state.nextCheckpoint.nextSequence, state.nextCheckpoint.chainHash, state.nextEpochId,
                  state.previousReceiptId)
  }

  /** Folding the newest range is folding everything covered. */
  lemma LastFolds(h: ChainHasher, d: Digests, chain: seq<SignedReceipt>)
    requires ReceiptChain(h, d, chain) && chain != []
    ensures
      var p := chain[|chain| - 1].receipt;
      && p.epochId == |chain| - 1
      && ChainHash(h, p.initialChainHash, p.firstSequence, p.recordCount) == ChainHash(h, 0, 0, Covered(chain))
  {
    hide ReceiptChain, ChainHash, Covered;
    var init, p := chain[..|chain| - 1], chain[|chain| - 1];
    assert chain == init + [p];
    NewHash(h, d, init, p);
    LastLink(h, d, init, p);
  }

  lemma PreparedFollows(h: ChainHasher, d: Digests, chain: seq<SignedReceipt>, now: ReceiptChainState, total: nat,
                        s: SignedReceipt, next: ReceiptChainState)
    requires ReceiptChain(h, d, chain) && StateFits(h, d, chain, now) && Prepared(h, d, now, total, s, next)
    ensures s.receipt.Sound() && s.receipt.epochId == |chain|
    ensures if chain == [] then IsGenesis(s.receipt) else Follows(h, d, s, chain[|chain| - 1])
  {
    hide ReceiptChain, ReceiptId;
    if chain == [] {
      assert ChainHash(h, 0, 0, 0) == 0;
    } else {
      hide ChainHash;
      LastFolds(h, d, chain);
    }
  }

  /** What the runtime prepares prolongs the store's chain, with the right cursor. */
  lemma PreparedFits(h: ChainHasher, d: Digests, chain: seq<SignedReceipt>, now: ReceiptChainState, total: nat,
                     s: SignedReceipt, next: ReceiptChainState)
    requires ReceiptChain(h, d, chain) && StateFits(h, d, chain, now) && Prepared(h, d, now, total, s, next)
    requires total < U64_LIMIT
    requires chain != [] ==> s.signerId == chain[|chain| - 1].signerId
    ensures next.nextCheckpoint.nextSequence == total
    ensures ReceiptChain(h, d, chain + [s]) && CursorFits(h, d, chain + [s], CursorOf(next))
    ensures StateFits(h, d, chain + [s], next)
  {
    hide ReceiptChain, ReceiptId, ChainHash, Follows, IsGenesis;
    PreparedFollows(h, d, chain, now, total, s, next);
    ExtendReceipts(h, d, chain, s);
  }

  /** The range of a receipt for the newest records is exactly those records. */
  lemma NewestRange(c: EpochReceipt, history: seq<WitnessRecord>, records: seq<WitnessRecord>)
    requires c.Sound() && c.firstSequence <= |history|
    requires records == history[c.firstSequence..] && |records| == c.recordCount
    ensures c.firstSequence <= c.lastSequence < |history| == c.lastSequence + 1 && RangeOf(c, history) == records
  {}

  class ContextRuntime {
    const actor: PartitionId
    const authority: ContextAuthority
    const trail: WitnessLog
    const digests: Digests
    var receiptChain: ReceiptChainState

    ghost predicate Valid()
      reads this, trail, trail.records, authority, authority.manager, authority.manager.table,
            authority.manager.table.slots, authority.manager.tree, authority.manager.tree.nodes
    {
      && authority.Valid() && trail.Valid()
      && receiptChain.nextCheckpoint.nextSequence <= |trail.history|
      && receiptChain.nextCheckpoint.chainHash ==
           ChainHash(trail.hasher, 0, 0, receiptChain.nextCheckpoint.nextSequence)
    }

    /** Starts at genesis with an empty ring. */
    constructor (actor: PartitionId, authority: ContextAuthority, capacity: nat, hasher: ChainHasher, digests: Digests)
      requires capacity > 0 && authority.Valid()
      ensures Valid() && this.authority == authority && this.digests == digests && receiptChain == GENESIS
      ensures fresh(trail) && fresh(trail.records) && trail.history == [] && trail.records.Length == capacity
      ensures trail.hasher == hasher
    {
      this.actor := actor;
      this.authority := authority;
      this.digests := digests;
      trail := new WitnessLog(capacity, hasher);
      receiptChain := GENESIS;
    }

    /** Records not sealed yet. */
    ghost function Unsealed(): int
      reads this, trail
    {
      |trail.history| - receiptChain.nextCheckpoint.nextSequence
    }

    /** The request names the operation, its target has the right shape, and a capability
        authorizes it. */
    ghost predicate Allows(request: ContextRequest, operation: ContextOperation)
      reads this, authority, authority.manager, authority.manager.table.slots
    {
      request.operation == operation && Shaped(operation, request.target)
        && authority.Authorizes(actor, request)
    }

    /** A resolver operation. Whatever comes of it, it leaves one or two records. */
    method Perform(request: ContextRequest, operation: ContextOperation, timestamp: u64, ending: Completion)
        returns (r: Result<(), ContextError>)
      requires Valid() && |trail.history| < 0xFFFF_FFFF_FFFF_FFFE
      modifies trail, trail.records
      ensures Valid() && old(trail.history) < trail.history
      ensures
        var allowed := old(Allows(request, operation));
        && (r.Ok? <==> allowed && ending.Completed?)
        && |trail.history| == |old(trail.history)| + (if allowed && !ending.Abandoned? then 2 else 1)
        && (allowed && !ending.Abandoned? ==>
              var last := trail.history[|trail.history| - 1];
              last == Stamped(trail.hasher, |trail.history| - 1,
                authority.Decision(if ending.Completed? then ActionOf(operation) else ProofRejected, actor, timestamp,
                                   request, authority.prints.token(old(authority.TokenOf(request.capability.index))))))
        && (r.Err? ==>
              if allowed then r.error == if ending.Abandoned? then BackendUnavailable else ResolverScopeViolation
              else if request.operation == operation && Shaped(operation, request.target) then r.error == AccessDenied
              else ContextAuthority.IsShapeError(request, operation, r.error))
    {
      hide Chained, RingHolds, ChainHash, ContextAuthority.Authorizes, ContextAuthority.Valid, Sanctioned, LineHeld;
      hide ContextAuthority.Proven, ContextAuthority.TokenOf, ContextAuthority.IsShapeError, Shaped, ActionOf;
      var authorized := authority.Authorize(actor, timestamp, request, operation, trail);
      if authorized.Err? {
        return Err(authorized.error);
      }
      if ending.Abandoned? {
        return Err(BackendUnavailable);
      }
      var action := if ending.Completed? then ActionOf(operation) else ProofRejected;
      var digest := authority.prints.target(request.target);
      var record := ZEROED.(action := action, proofTier := 1, flags := operation.Code(), actor := actor);
      record := record.(target := digest.0, capability := authorized.value.capabilityHash, payload := digest.1,
                        timestamp := timestamp);
      var _ := trail.Append(record);
      return if ending.Completed? then Ok(()) else Err(ResolverScopeViolation);
    }

    /** Takes everything unsealed out of the ring and seals it: possible exactly when there
        is something, the ring still holds it all, and it is not too much for one epoch. */
    method SealFromLog(namespaceRoot: Bytes32, rvfIdentity: Bytes32, policyHash: Bytes32, detailRoot: Bytes32)
        returns (r: Result<(EpochReceipt, Checkpoint), ReceiptError>)
      requires Valid()
      ensures r.Ok? <==> 1 <= Unsealed() <= trail.records.Length && Unsealed() <= 262_144
      ensures r.Ok? ==>
        var c, next := r.value.0, receiptChain.nextCheckpoint;
        && c.Sound() && RangeCommits(trail.hasher, digests, c, trail.history)
        && c.epochId == receiptChain.nextEpochId && c.previousReceipt == receiptChain.previousReceiptId
        && c.firstSequence == next.nextSequence && c.lastSequence + 1 == |trail.history|
           && c.initialChainHash == next.chainHash
        && c.namespaceRoot == namespaceRoot && c.rvfIdentity == rvfIdentity
        && c.policyHash == policyHash && c.detailRoot == detailRoot
        && r.value.1 == Checkpoint(|trail.history|, ChainHash(trail.hasher, 0, 0, |trail.history|))
    {
      var next := receiptChain.nextCheckpoint;
      SuffixChained(trail.hasher, Checkpoint(0, 0), trail.history, next.nextSequence);
      ghost var unsealed := trail.history[next.nextSequence..];
      assert Chained(trail.hasher, next, unsealed) && |trail.history| <= U64_MAX;
      assert |unsealed| == Unsealed();
      hide Chained, RingHolds, ChainHash, Reproduces, WitnessLog.Valid, ContextAuthority.Valid, Valid;
      hide EpochReceipt.Sound;
      hide RangeOf, Unsealed;
      var scratch := new WitnessRecord[trail.records.Length](_ => ZEROED);
      var snapshot := trail.SnapshotSince(next, scratch);
      if snapshot.Err? {
        return Err(Snapshot(snapshot.error));
      }
      var records := scratch[..snapshot.value.0];
      assert records == unsealed;
      var sealed := Seal(trail.hasher, digests, receiptChain.nextEpochId, next, records, receiptChain.previousReceiptId,
                         namespaceRoot, rvfIdentity, policyHash, detailRoot);
      if sealed.Err? {
        return Err(sealed.error);
      }
      NewestRange(sealed.value, trail.history, records);
      return Ok((sealed.value, snapshot.value.1));
    }

    /** What a passed check of the seal request means. */
    ghost predicate MaySeal(request: ContextRequest, rvfIdentity: Bytes32)
      reads this, authority, authority.manager, authority.manager.table.slots
    {
      Allows(request, SealReceipt) && request.target.revision == Some(rvfIdentity)
    }

    /** What a seal request is refused with. */
    ghost predicate SealRefused(request: ContextRequest, rvfIdentity: Bytes32, error: ContextError)
      reads this, authority, authority.manager, authority.manager.table.slots
    {
      if request.operation != SealReceipt || !Shaped(SealReceipt, request.target) then
        ContextAuthority.IsShapeError(request, SealReceipt, error)
      else if !authority.Authorizes(actor, request) then error == AccessDenied
      else if receiptChain.nextEpochId + 1 < U64_LIMIT && request.target.revision != Some(rvfIdentity) then
        error == InvalidTarget
      else error == ReceiptSealFailed
    }

    /** The first half of `seal_epoch_transactional`: authorize, seal and sign. The cursor
        stays where it is. */
    method PrepareSeal(request: ContextRequest, timestamp: u64, namespaceRoot: Bytes32, rvfIdentity: Bytes32,
                       policyHash: Bytes32, detailRoot: Bytes32, signer: Signer)
        returns (r: Result<(SignedReceipt, ReceiptChainState, AuthorizedRequest), ContextError>)
      requires Valid() && |trail.history| < 0xFFFF_FFFF_FFFF_FFFE
      modifies trail, trail.records
      ensures Valid() && old(trail.history) < trail.history && |trail.history| == |old(trail.history)| + 1
      ensures r.Ok? ==> old(MaySeal(request, rvfIdentity)) && receiptChain.nextEpochId + 1 < U64_LIMIT
      ensures r.Ok? ==> request.operation == SealReceipt && request.target.revision == Some(rvfIdentity)
      ensures Honest(signer) ==>
        (r.Ok? <==>
          && old(MaySeal(request, rvfIdentity)) && receiptChain.nextEpochId + 1 < U64_LIMIT
          && Unsealed() <= trail.records.Length && Unsealed() <= 262_144)
      ensures r.Ok? ==>
        && Prepared(trail.hasher, digests, receiptChain, |trail.history|, r.value.0, r.value.1)
        && RangeCommits(trail.hasher, digests, r.value.0.receipt, trail.history)
        && VerifySignature(digests, r.value.0, signer).Ok? && r.value.0.receipt.rvfIdentity == rvfIdentity
        && r.value.0.receipt.namespaceRoot == namespaceRoot && r.value.0.receipt.policyHash == policyHash
        && r.value.0.receipt.detailRoot == detailRoot
      ensures r.Err? ==> old(SealRefused(request, rvfIdentity, r.error))
    {
      hide Chained, RingHolds, ChainHash, RangeCommits, ReceiptId, UnsignedBytes, ContextAuthority.Authorizes;
      hide Sanctioned, LineHeld, ContextAuthority.Valid;
      var authorized := authority.Authorize(actor, timestamp, request, SealReceipt, trail);
      if authorized.Err? {
        return Err(authorized.error);
      }
      if receiptChain.nextEpochId + 1 >= U64_LIMIT {
        return Err(ReceiptSealFailed);
      }
      if request.target.revision != Some(rvfIdentity) {
        return Err(InvalidTarget);
      }
      var sealed := SealFromLog(namespaceRoot, rvfIdentity, policyHash, detailRoot);
      if sealed.Err? {
        return Err(ReceiptSealFailed);
      }
      var s := Sign(digests, sealed.value.0, signer);
      var state := ReceiptChainState(sealed.value.1, receiptChain.nextEpochId + 1, ReceiptId(digests, s));
      if VerifySignature(digests, s, signer).Err? {
        return Err(ReceiptSealFailed);
      }
      return Ok((s, state, authorized.value));
    }

    /** The second half, after the receipt was persisted: record the seal, move the cursor. */
    method CompleteSeal(s: SignedReceipt, state: ReceiptChainState, authorized: AuthorizedRequest, sealTime: u64)
      requires Valid() && |trail.history| < 0xFFFF_FFFF_FFFF_FFFF
      requires state.nextCheckpoint == Checkpoint(|trail.history|, ChainHash(trail.hasher, 0, 0, |trail.history|))
      modifies this, trail, trail.records
      ensures Valid() && old(trail.history) < trail.history && |trail.history| == |old(trail.history)| + 1
      ensures receiptChain == state
      ensures
        trail.history[|trail.history| - 1] == Stamped(trail.hasher, |trail.history| - 1,
          WitnessRecord(0, sealTime, ContextEpochSeal, 1, 0, authorized.actor, ReadLe(ReceiptId(digests, s), 0, 8),
                        authorized.capabilityHash, s.receipt.lastSequence, 0, 0, ReadLe(s.receipt.witnessRoot, 0, 8)))
    {
      hide Chained, RingHolds, ChainHash, ReceiptId, ReadLe;
      var id := ReceiptId(digests, s);
      var record := ZEROED.(action := ContextEpochSeal, proofTier := 1, actor := authorized.actor);
      record := record.(target := ReadLe(id, 0, 8), capability := authorized.capabilityHash);
      record := record.(payload := s.receipt.lastSequence, aux := ReadLe(s.receipt.witnessRoot, 0, 8),
                        timestamp := sealTime);
      var _ := trail.Append(record);
      receiptChain := state;
    }
  }

  // ---- the drainer --------------------------------------------------------------------------------

  datatype DrainError = Configuration | BackpressureActive | Runtime(cause: ContextError)

  /** There are fewer epochs than records, so the epoch counter never overflows. */
  lemma StateCounts(h: ChainHasher, d: Digests, chain: seq<SignedReceipt>, state: ReceiptChainState,
                    history: seq<WitnessRecord>)
    requires ReceiptChain(h, d, chain) && StateFits(h, d, chain, state) && Commits(h, d, chain, history)
    ensures state.nextEpochId <= |history|
  {
    FewerThanCovered(h, d, chain, |chain|);
    assert chain[..|chain|] == chain;
  }

  lemma PreparedBound(h: ChainHasher, d: Digests, now: ReceiptChainState, total: nat, s: SignedReceipt,
                      next: ReceiptChainState)
    requires Prepared(h, d, now, total, s, next)
    ensures next.nextCheckpoint == Checkpoint(total, ChainHash(h, 0, 0, total))
    ensures s.receipt.Sound() && s.receipt.lastSequence + 1 == total
  {}

  /** The store takes what the runtime prepares, provided the newest receipt verifies too. */
  lemma PreparedAdmissible(store: DurableReceiptStore, now: ReceiptChainState, total: nat, s: SignedReceipt,
                           next: ReceiptChainState, signer: Signer)
    requires store.Valid() && StateFits(store.hasher, store.digests, store.chain, now) && total < U64_LIMIT
    requires Prepared(store.hasher, store.digests, now, total, s, next) && VerifySignature(store.digests, s, signer).Ok?
    ensures next.nextCheckpoint.nextSequence == total
    ensures store.Admissible(s, CursorOf(next), signer) <==>
      store.chain == [] || VerifySignature(store.digests, store.chain[|store.chain| - 1], signer).Ok?
    ensures store.Admissible(s, CursorOf(next), signer) ==>
      && CursorFits(store.hasher, store.digests, store.chain + [s], CursorOf(next))
      && StateFits(store.hasher, store.digests, store.chain + [s], next)
  {
    hide ReceiptChain, StateFits, CursorFits, Follows, IsGenesis, ReceiptId, ChainHash, WireBytes, CursorBytes, Covered;
    hide UnsignedBytes, LinkHolds;
    var chain := store.chain;
    if chain == [] || VerifySignature(store.digests, chain[|chain| - 1], signer).Ok? {
      PreparedFits(store.hasher, store.digests, chain, now, total, s, next);
    }
  }

  lemma NewestCommits(h: ChainHasher, d: Digests, s: SignedReceipt, history: seq<WitnessRecord>)
    ensures RangeCommits(h, d, s.receipt, history) <==> Commits(h, d, [s], history)
  {
    hide Reproduces;
    assert RangeCommits(h, d, s.receipt, history) <==> CommitsAt(h, d, [s], history, 0);
  }

  /** The new receipt's range joins the committed ones. */
  lemma CommitsOneMore(h: ChainHasher, d: Digests, chain: seq<SignedReceipt>, history: seq<WitnessRecord>,
                       s: SignedReceipt)
    requires Commits(h, d, chain, history) && Commits(h, d, [s], history) && s.receipt.lastSequence + 1 == |history|
    ensures Commits(h, d, chain + [s], history)
  {
    hide RangeCommits;
    var chain' := chain + [s];
    assert CommitsAt(h, d, [s], history, 0);
    forall k | 0 <= k < |chain'| ensures CommitsAt(h, d, chain', history, k) {
      if k < |chain| {
        assert CommitsAt(h, d, chain, history, k);
      }
    }
  }

  class ReceiptDrainer {
    const store: DurableReceiptStore
    const maxUnsealed: nat
    /** Seal attempts failed since the last success. */
    ghost var failed: nat

    constructor (store: DurableReceiptStore, maxUnsealed: nat)
      requires maxUnsealed > 0
      ensures this.store == store && this.maxUnsealed == maxUnsealed && failed == 0
    {
      this.store := store;
      this.maxUnsealed := maxUnsealed;
      failed := 0;
    }

    /** Runtime cursor and store cursor agree, every stored receipt stands for its part of
        the witness history, and the part not yet sealed is bounded. */
    ghost predicate InStep(runtime: ContextRuntime)
      reads this, store, runtime, runtime.trail
    {
      && store.hasher == runtime.trail.hasher && store.digests == runtime.digests && maxUnsealed > 0
      && StateFits(store.hasher, store.digests, store.chain, runtime.receiptChain)
      && Commits(store.hasher, store.digests, store.chain, runtime.trail.history)
      && runtime.Unsealed() <= maxUnsealed + 1 + failed
    }

    /** A fresh runtime over an empty store. */
    lemma StartsInStep(runtime: ContextRuntime)
      requires store.chain == [] && runtime.receiptChain == GENESIS && runtime.trail.history == [] && maxUnsealed > 0
      requires store.hasher == runtime.trail.hasher && store.digests == runtime.digests
      ensures InStep(runtime)
    {}

    method Pending(runtime: ContextRuntime) returns (n: nat)
      requires runtime.Valid()
      ensures n == runtime.Unsealed()
    {
      var emitted, sealed := runtime.trail.totalEmitted, runtime.receiptChain.nextCheckpoint.nextSequence;
      return if emitted >= sealed then emitted - sealed else 0;
    }

    /** Lets an ordinary request through while the backlog is below the threshold and the
        threshold leaves two slots of the ring. */
    method Admit(runtime: ContextRuntime) returns (r: Result<(), DrainError>)
      requires runtime.Valid() && maxUnsealed > 0
      ensures r.Ok? <==> maxUnsealed + 2 <= runtime.trail.records.Length && runtime.Unsealed() < maxUnsealed
      ensures r.Err? ==>
        r.error == if maxUnsealed + 2 > runtime.trail.records.Length then Configuration else BackpressureActive
    {
      var capacity := runtime.trail.records.Length;
      if maxUnsealed > (if capacity >= 2 then capacity - 2 else 0) {
        return Err(Configuration);
      }
      var pending := Pending(runtime);
      if pending >= maxUnsealed {
        return Err(BackpressureActive);
      }
      return Ok(());
    }

    /** An ordinary request, as the drainer asks for: admitted first. One that is not
        admitted leaves the log alone; one that is gets performed. */
    method Serve(runtime: ContextRuntime, request: ContextRequest, operation: ContextOperation, timestamp: u64,
                 ending: Completion)
        returns (r: Result<(), DrainError>)
      requires runtime.Valid() && InStep(runtime) && |runtime.trail.history| < 0xFFFF_FFFF_FFFF_FFFE
      modifies runtime.trail, runtime.trail.records
      ensures runtime.Valid() && InStep(runtime)
      ensures
        var admitted := maxUnsealed + 2 <= runtime.trail.records.Length && old(runtime.Unsealed()) < maxUnsealed;
        && (!admitted ==> r.Err? && !r.error.Runtime? && runtime.trail.history == old(runtime.trail.history))
        && (admitted ==>
              && old(runtime.trail.history) < runtime.trail.history && (r.Err? ==> r.error.Runtime?)
              && (r.Ok? <==> old(runtime.Allows(request, operation)) && ending.Completed?))
    {
      hide Commits, ChainHash, Chained, RingHolds, ContextAuthority.Valid, ContextRuntime.Allows, WitnessLog.Valid;
      var admitted := Admit(runtime);
      if admitted.Err? {
        return Err(admitted.error);
      }
      ghost var history := runtime.trail.history;
      var performed := runtime.Perform(request, operation, timestamp, ending);
      assert runtime.trail.history == history + runtime.trail.history[|history|..];
      CommitsMore(store.hasher, store.digests, store.chain, history, runtime.trail.history[|history|..]);
      return if performed.Err? then Err(Runtime(performed.error)) else Ok(());
    }

    /** The second half of a seal: the store takes receipt and cursor together, then the
        runtime moves on. A store that does not leaves everything as it was. */
    method Persist(runtime: ContextRuntime, s: SignedReceipt, state: ReceiptChainState, authorized: AuthorizedRequest,
                   sealTime: u64, signer: Signer, commits: bool) returns (ok: bool)
      requires runtime.Valid() && store.Valid() && |runtime.trail.history| < 0xFFFF_FFFF_FFFF_FFFF
      requires store.hasher == runtime.trail.hasher && store.digests == runtime.digests
      requires StateFits(store.hasher, store.digests, store.chain, runtime.receiptChain)
      requires Commits(store.hasher, store.digests, store.chain, runtime.trail.history)
      requires Prepared(store.hasher, store.digests, runtime.receiptChain, |runtime.trail.history|, s, state)
      requires Commits(store.hasher, store.digests, [s], runtime.trail.history)
      requires VerifySignature(store.digests, s, signer).Ok?
      modifies store, runtime, runtime.trail, runtime.trail.records
      ensures runtime.Valid() && store.Valid()
      ensures StateFits(store.hasher, store.digests, store.chain, runtime.receiptChain)
      ensures Commits(store.hasher, store.digests, store.chain, runtime.trail.history)
      ensures !ok ==>
        && store.chain == old(store.chain) && runtime.receiptChain == old(runtime.receiptChain)
        && runtime.trail.history == old(runtime.trail.history)
      ensures ok ==>
        && commits && store.chain == old(store.chain) + [s] && runtime.receiptChain == state && runtime.Unsealed() == 1
        && CursorFits(store.hasher, store.digests, store.chain, CursorOf(state))
      ensures
        (old(store.chain) != [] ==>
          VerifySignature(store.digests, old(store.chain)[|old(store.chain)| - 1], signer).Ok?)
        ==> (ok <==> commits)
    {
      hide Commits, ChainHash, Chained, RingHolds, ReceiptChain, ReceiptId, Reproduces, StateFits, CursorFits, Prepared;
      hide WitnessLog.Valid, ContextAuthority.Valid, DurableReceiptStore.Valid, CommitsAt, Stamped;
      hide VerifySignature, Follows, IsGenesis, WireBytes, CursorBytes, Covered;
      ghost var h, d, chain, now := store.hasher, store.digests, store.chain, runtime.receiptChain;
      ghost var history := runtime.trail.history;
      PreparedBound(h, d, now, |history|, s, state);
      PreparedAdmissible(store, now, |history|, s, state, signer);
      hide DurableReceiptStore.Admissible;
      var persisted := store.AppendVerified(s, CursorOf(state), signer, commits);
      if persisted.Err? {
        return false;
      }
      CommitsOneMore(h, d, chain, history, s);
      runtime.CompleteSeal(s, state, authorized, sealTime);
      assert runtime.trail.history == history + runtime.trail.history[|history|..];
      CommitsMore(h, d, store.chain, history, runtime.trail.history[|history|..]);
      return true;
    }

    /** Seals one epoch. Attempted by an honest signer that also signed the newest stored
        receipt, with few enough failures before it, it fails only for lack of authority or
        because the database does not commit: never because records were overwritten, never
        because the store refuses the receipt. Failed or not, the cursors stay equal. */
    method SealEpoch(runtime: ContextRuntime, request: ContextRequest, timestamp: u64, sealTime: u64,
                     namespaceRoot: Bytes32, rvfIdentity: Bytes32, policyHash: Bytes32, detailRoot: Bytes32,
                     signer: Signer, commits: bool)
        returns (r: Result<ReceiptCursor, ContextError>)
      requires runtime.Valid() && store.Valid() && InStep(runtime) && |runtime.trail.history| < 0xFFFF_FFFF_FFFF_FFFE
      modifies this, store, runtime, runtime.trail, runtime.trail.records
      ensures runtime.Valid() && store.Valid() && InStep(runtime)
      ensures failed == if r.Ok? then 0 else old(failed) + 1
      ensures r.Err? ==> store.chain == old(store.chain) && runtime.receiptChain == old(runtime.receiptChain)
      ensures r.Ok? ==>
        && old(runtime.MaySeal(request, rvfIdentity)) && commits && runtime.Unsealed() == 1
        && |store.chain| == |old(store.chain)| + 1 && store.chain[..|old(store.chain)|] == old(store.chain)
        && (var c := store.chain[|old(store.chain)|].receipt;
            && c.rvfIdentity == rvfIdentity && c.namespaceRoot == namespaceRoot && c.policyHash == policyHash
            && c.detailRoot == detailRoot)
        && CursorFits(store.hasher, store.digests, store.chain, r.value)
      ensures r.Err? ==>
        || old(runtime.SealRefused(request, rvfIdentity, r.error))
        || (old(runtime.MaySeal(request, rvfIdentity)) && r.error == BackendUnavailable)
      ensures
        && Honest(signer) && maxUnsealed + 2 + old(failed) <= runtime.trail.records.Length <= 262_144
        && (old(store.chain) != [] ==>
             VerifySignature(store.digests, old(store.chain)[|old(store.chain)| - 1], signer).Ok?)
        ==>
          var may := old(runtime.MaySeal(request, rvfIdentity));
          && (r.Ok? <==> may && commits) && (may && !commits ==> r == Err(BackendUnavailable))
    {
      hide Commits, ChainHash, Chained, RingHolds, ReceiptChain, ReceiptId, Reproduces, StateFits, CursorFits, Prepared;
      hide ContextRuntime.MaySeal, ContextRuntime.SealRefused, ContextAuthority.Valid, Honest, CommitsAt;
      hide RangeCommits, WitnessLog.Valid;
      hide VerifySignature, Follows, IsGenesis, WireBytes, CursorBytes, Covered, Sign;
      ghost var h, d, chain, now := store.hasher, store.digests, store.chain, runtime.receiptChain;
      ghost var history := runtime.trail.history;
      StateCounts(h, d, chain, now, history);
      hide DurableReceiptStore.Valid;
      var prepared := runtime.PrepareSeal(request, timestamp, namespaceRoot, rvfIdentity, policyHash, detailRoot,
                                          signer);
      ghost var more := runtime.trail.history[|history|..];
      assert runtime.trail.history == history + more;
      CommitsMore(h, d, chain, history, more);
      if prepared.Err? {
        failed := failed + 1;
        return Err(prepared.error);
      }
      var s, state := prepared.value.0, prepared.value.1;
      NewestCommits(h, d, s, runtime.trail.history);
      var persisted := Persist(runtime, s, state, prepared.value.2, sealTime, signer, commits);
      if !persisted {
        failed := failed + 1;
        return Err(BackendUnavailable);
      }
      failed := 0;
      return Ok(CursorOf(runtime.receiptChain));
    }
  }
}
