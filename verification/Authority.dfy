/** Scoped context capabilities: `rvm-context/src/capability.rs`, a binding table and an
    authorization gate over the capability manager. */
module Authority {
  import opened Types
  import opened Bytes
  import opened CapTable
  import opened Derivation
  import opened CapManager
  import opened Witness

  // ---- names, views and operations -----------------------------------------------------

  datatype SubjectKind = Agent | User | Service | Team

  datatype Subject = Subject(kind: SubjectKind, id: string)

  datatype Collection = Memory | Resources | Skills

  datatype ProgressiveView = AbstractView | OverviewView | ContentView

  datatype View = MANIFEST | ABSTRACT | OVERVIEW | CONTENT

  /** The view bit mask. */
  type ViewMask = set<View>

  function ViewBit(view: ProgressiveView): View {
    match view
    case AbstractView => ABSTRACT
    case OverviewView => OVERVIEW
    case ContentView => CONTENT
  }

  /** A `ruv://` name, parsed. A pinned name carries a revision. */
  datatype Uri = Uri(
    authority: string, tenant: string, subject: Subject, collection: Collection, path: seq<string>,
    revision: Option<Bytes32>, view: Option<ProgressiveView>)

  datatype ContextOperation =
    Resolve | List | Tree | Read | Search | History | Verify | Put | CompareAndSwapAlias | Forget
    | Execute | GrantContext | RevokeContext | SealReceipt
  {
    function RequiredRights(): CapRights {
      match this
      case Resolve | List | Tree | Read | Search | History => {READ}
      case Verify => {READ, PROVE}
      case Put | CompareAndSwapAlias | Forget => {WRITE}
      case Execute => {EXECUTE}
      case GrantContext => {GRANT}
      case RevokeContext => {REVOKE}
      case SealReceipt => {PROVE}
    }

    function RequiredViews(explicit: Option<ProgressiveView>): ViewMask {
      if explicit.Some? then {ViewBit(explicit.value)} else
      match this
      case Resolve | List | Tree | History | Verify => {MANIFEST}
      case Read => {CONTENT}
      case Search => {OVERVIEW}
      case Put | CompareAndSwapAlias | Forget | Execute | GrantContext | RevokeContext | SealReceipt => {}
    }

    predicate TargetShapeIsValid(target: Uri) {
      match this
      case Put | Verify | SealReceipt => target.revision.Some? && target.view.None?
      case Execute => target.revision.Some? && target.view.None? && target.collection == Skills
      case List | Tree | History | CompareAndSwapAlias | Forget => target.revision.None? && target.view.None?
      case GrantContext | RevokeContext => target.view.None?
      case Resolve | Read | Search => true
    }

    function Code(): nat {
      match this
      case Resolve => 0 case List => 1 case Tree => 2 case Read => 3 case Search => 4 case History => 5
      case Verify => 6 case Put => 7 case CompareAndSwapAlias => 8 case Forget => 9 case Execute => 10
      case GrantContext => 11 case RevokeContext => 12 case SealReceipt => 13
    }
  }

  /** The operations that leave everything as it is and prove nothing. */
  const READING: set<ContextOperation> := {Resolve, List, Tree, Read, Search, History}

  /** Whether rights suffice for an operation, said right by right. */
  ghost predicate Suffices(rights: CapRights, op: ContextOperation) {
    && (op in READING || op == Verify ==> READ in rights)
    && (op in {Put, CompareAndSwapAlias, Forget} ==> WRITE in rights)
    && (op in {Verify, SealReceipt} ==> PROVE in rights) && (op == Execute ==> EXECUTE in rights)
    && (op == GrantContext ==> GRANT in rights) && (op == RevokeContext ==> REVOKE in rights)
  }

  lemma RightsExactly(rights: CapRights, op: ContextOperation)
    ensures op.RequiredRights() <= rights <==> Suffices(rights, op)
  {}

  /** Each right opens these operations and no others. */
  lemma OneRightOpens(op: ContextOperation)
    ensures Suffices({READ}, op) <==> op in {Resolve, List, Tree, Read, Search, History}
    ensures Suffices({WRITE}, op) <==> op in {Put, CompareAndSwapAlias, Forget}
    ensures Suffices({EXECUTE}, op) <==> op == Execute
    ensures Suffices({PROVE}, op) <==> op == SealReceipt
    ensures Suffices({GRANT}, op) <==> op == GrantContext
    ensures Suffices({REVOKE}, op) <==> op == RevokeContext
    ensures Suffices({READ, PROVE}, op) <==> op in {Resolve, List, Tree, Read, Search, History, Verify, SealReceipt}
    ensures !Suffices({GRANT_ONCE}, op)
  {}

  /** Whether the views shown suffice for an operation, said view by view. */
  ghost predicate Discloses(views: ViewMask, op: ContextOperation, explicit: Option<ProgressiveView>) {
    match explicit
    case Some(AbstractView) => ABSTRACT in views
    case Some(OverviewView) => OVERVIEW in views
    case Some(ContentView) => CONTENT in views
    case None =>
      && (op in {Resolve, List, Tree, History, Verify} ==> MANIFEST in views)
      && (op == Read ==> CONTENT in views) && (op == Search ==> OVERVIEW in views)
  }

  lemma ViewsExactly(views: ViewMask, op: ContextOperation, explicit: Option<ProgressiveView>)
    ensures op.RequiredViews(explicit) <= views <==> Discloses(views, op, explicit)
  {}

  /** Which targets an operation takes: pinned or not, with a view or not. */
  ghost predicate Shaped(op: ContextOperation, target: Uri) {
    && (op in {Put, Verify, Execute, SealReceipt} ==> target.revision.Some?)
    && (op in {List, Tree, History, CompareAndSwapAlias, Forget} ==> target.revision.None?)
    && (target.view.Some? ==> op in {Resolve, Read, Search}) && (op == Execute ==> target.collection == Skills)
  }

  lemma ShapeExactly(op: ContextOperation, target: Uri)
    ensures op.TargetShapeIsValid(target) <==> Shaped(op, target)
  {}

  /** Every operation has its own code, in the order of the source's enumeration. */
  lemma CodesInOrder()
    ensures
      var all := [Resolve, List, Tree, Read, Search, History, Verify, Put, CompareAndSwapAlias, Forget, Execute,
                  GrantContext, RevokeContext, SealReceipt];
      |all| == 14 && forall k :: 0 <= k < |all| ==> all[k].Code() == k
  {}

  /** A namespace and path prefix together with the views it discloses. */
  datatype ContextScope = ContextScope(
    authority: string, tenant: string, subject: Subject, collection: Collection, pathPrefix: seq<string>,
    views: ViewMask)
  {
    predicate ContainsScope(child: ContextScope) {
      && authority == child.authority && tenant == child.tenant && subject == child.subject
      && collection == child.collection && pathPrefix <= child.pathPrefix && child.views <= views
    }

    predicate Allows(target: Uri, operation: ContextOperation) {
      && authority == target.authority && tenant == target.tenant && subject == target.subject
      && collection == target.collection && pathPrefix <= target.path
      && operation.RequiredViews(target.view) <= views
    }
  }

  /** A scope contains another exactly when it allows at least what the other allows:
      delegation to a contained scope never widens, and refusing the rest loses nothing. */
  lemma ContainsIffAllowsMore(outer: ContextScope, inner: ContextScope)
    ensures outer.ContainsScope(inner) <==> forall t: Uri, op :: inner.Allows(t, op) ==> outer.Allows(t, op)
  {
    if forall t: Uri, op :: inner.Allows(t, op) ==> outer.Allows(t, op) {
      var base := Uri(inner.authority, inner.tenant, inner.subject, inner.collection, inner.pathPrefix, None, None);
      assert inner.Allows(base, Put);
      assert outer.Allows(base, Put);
      forall view | view in inner.views ensures view in outer.views {
        if view == MANIFEST {
          assert inner.Allows(base, Resolve);
          assert outer.Allows(base, Resolve);
        } else {
          var shown :=
            if view == ABSTRACT then AbstractView else if view == OVERVIEW then OverviewView else ContentView;
          assert inner.Allows(base.(view := Some(shown)), Read);
          assert outer.Allows(base.(view := Some(shown)), Read);
        }
      }
    }
  }

  datatype ContextError =
    AccessDenied | GrantTableFull | GrantAlreadyBound | ScopeEscalation | Capability(error: CapError)
    | PinnedUriRequired | VersionlessUriRequired | OperationMismatch | InvalidTarget
    | ResolverScopeViolation | ReceiptSealFailed | BackendUnavailable
    | ImmutableRevision | RevisionNotFound | RevisionConflict | RevisionHashMismatch | ObjectTooLarge | ObjectTableFull
    | AliasNotFound | AliasConflict | AliasGenerationExhausted | AliasTableFull | Tombstoned | InvalidQuery
    | InvalidResultLimit

  datatype CapabilityHandle = CapabilityHandle(index: nat, generation: nat)

  datatype ContextRequest = ContextRequest(capability: CapabilityHandle, operation: ContextOperation, target: Uri)

  datatype AuthorizedRequest = AuthorizedRequest(
    actor: PartitionId, operation: ContextOperation, target: Uri, capabilityHash: nat, witnessSequence: u64,
    timestamp: u64)

  /** The digests that end up in badges and witness records; nothing is assumed of them. */
  datatype Fingerprints = Fingerprints(
    scope: ContextScope -> nat, token: CapToken -> nat, handle: CapabilityHandle -> nat, target: Uri -> (nat, nat))

  // ---- bindings --------------------------------------------------------------------------

  datatype ContextGrant = ContextGrant(tokenId: nat, scope: ContextScope)

  /** The first binding of an identifier. */
  function Get(grants: seq<ContextGrant>, id: nat): (r: Option<ContextScope>)
    ensures r.None? <==> forall k :: 0 <= k < |grants| ==> grants[k].tokenId != id
  {
    if grants == [] then None
    else if grants[0].tokenId == id then Some(grants[0].scope)
    else Get(grants[1..], id)
  }

  lemma {:induction false} GetAppended(grants: seq<ContextGrant>, grant: ContextGrant, id: nat)
    ensures Get(grants + [grant], id) ==
      if Get(grants, id).Some? then Get(grants, id) else if grant.tokenId == id then Some(grant.scope) else None
  {
    if grants != [] {
      assert (grants + [grant])[1..] == grants[1..] + [grant];
      GetAppended(grants[1..], grant, id);
    }
  }

  ghost predicate IsLiveId(slots: seq<CapSlot>, id: nat) {
    exists i :: 0 <= i < |slots| && slots[i].IsValid() && slots[i].token.id == id
  }

  /** The bindings of the identifiers still live. */
  ghost function Retained(grants: seq<ContextGrant>, slots: seq<CapSlot>): seq<ContextGrant> {
    if grants == [] then []
    else
      var rest := Retained(grants[..|grants| - 1], slots);
      if IsLiveId(slots, grants[|grants| - 1].tokenId) then rest + [grants[|grants| - 1]] else rest
  }

  lemma {:induction false} RetainedFacts(grants: seq<ContextGrant>, slots: seq<CapSlot>, id: nat)
    requires DistinctIds(grants)
    ensures DistinctIds(Retained(grants, slots))
    ensures forall k :: 0 <= k < |Retained(grants, slots)| ==>
      Retained(grants, slots)[k] in grants && IsLiveId(slots, Retained(grants, slots)[k].tokenId)
    ensures IsLiveId(slots, id) ==> Get(Retained(grants, slots), id) == Get(grants, id)
  {
    if grants != [] {
      var init, last := grants[..|grants| - 1], grants[|grants| - 1];
      assert grants == init + [last];
      RetainedFacts(init, slots, id);
      GetAppended(init, last, id);
      GetAppended(Retained(init, slots), last, id);
    }
  }

  ghost predicate DistinctIds(grants: seq<ContextGrant>) {
    forall j, k :: 0 <= j < k < |grants| ==> grants[j].tokenId != grants[k].tokenId
  }

  /** At most one binding per live slot. */
  lemma BindingsFit(grants: seq<ContextGrant>, slots: seq<CapSlot>)
    requires DistinctIds(grants)
    requires forall k :: 0 <= k < |grants| ==> IsLiveId(slots, grants[k].tokenId)
    ensures |grants| <= ValidUpTo(slots, |slots|)
  {
    var ids := seq(|grants|, k requires 0 <= k < |grants| => grants[k].tokenId);
    LiveIdsSize(slots, |slots|);
    DistinctSize(ids, LiveIds(slots, |slots|));
  }

  ghost function LiveIds(slots: seq<CapSlot>, k: nat): (r: set<nat>)
    requires k <= |slots|
    ensures forall i :: 0 <= i < k && slots[i].IsValid() ==> slots[i].token.id in r
  {
    if k == 0 then {} else LiveIds(slots, k - 1) + if slots[k - 1].IsValid() then {slots[k - 1].token.id} else {}
  }

  lemma {:induction false} LiveIdsSize(slots: seq<CapSlot>, k: nat)
    requires k <= |slots|
    ensures |LiveIds(slots, k)| <= ValidUpTo(slots, k)
  {
    if k > 0 {
      LiveIdsSize(slots, k - 1);
      if slots[k - 1].IsValid() {
        OneMoreId(LiveIds(slots, k - 1), slots[k - 1].token.id);
      }
    }
  }

  lemma OneMoreId(ids: set<nat>, id: nat)
    ensures |ids + {id}| <= |ids| + 1
  {
    if id in ids {
      assert ids + {id} == ids;
    }
  }

  // ---- where a capability comes from ---------------------------------------------------------

  /** For what, in which era (rotations so far), by and to whom a capability was issued. */
  datatype Provenance = Provenance(scope: ContextScope, era: nat, issuer: PartitionId, owner: PartitionId)

  /** Roots come from the hypervisor; every other capability was delegated, in the era of
      its parent, by the parent's owner, under a parent with GRANT and a containing scope. */
  ghost predicate LinkTraced(log: seq<Issue>, origin: seq<Provenance>, k: nat)
    requires k < |log| == |origin|
  {
    && log[k].capType == Context
    && match log[k].parent
       case None => origin[k].issuer == HYPERVISOR
       case Some(j) =>
         && j < k && GRANT in log[j].rights && origin[j].scope.ContainsScope(origin[k].scope)
         && origin[j].era == origin[k].era && origin[k].issuer == origin[j].owner
  }

  ghost predicate Traced(log: seq<Issue>, origin: seq<Provenance>) {
    |origin| == |log| && forall k :: 0 <= k < |log| ==> LinkTraced(log, origin, k)
  }

  /** The whole issuance line of capability `k`, up to a root of the hypervisor, backs an
      operation on a target: each link is of this era, has the rights and allows it. */
  ghost predicate Sanctioned(log: seq<Issue>, origin: seq<Provenance>, k: nat, era: nat, target: Uri,
                             op: ContextOperation)
    requires |origin| == |log|
  {
    && k < |log| && log[k].capType == Context && origin[k].era == era
    && Suffices(log[k].rights, op) && origin[k].scope.Allows(target, op)
    && match log[k].parent
       case None => origin[k].issuer == HYPERVISOR
       case Some(j) =>
         && j < k && GRANT in log[j].rights && origin[k].issuer == origin[j].owner
         && Sanctioned(log, origin, j, era, target, op)
  }

  /** What the last link allows, every link up to the root allows. */
  lemma {:induction false} LineSanctions(log: seq<Issue>, origin: seq<Provenance>, maxDepth: nat, k: nat, era: nat,
                                         target: Uri, op: ContextOperation)
    requires Lineage(log, maxDepth) && Traced(log, origin) && k < |log|
    requires origin[k].era == era && Suffices(log[k].rights, op) && origin[k].scope.Allows(target, op)
    ensures Sanctioned(log, origin, k, era, target, op)
  {
    assert LinkTraced(log, origin, k) && LinkOk(log, k, maxDepth);
    if log[k].parent.Some? {
      var j := log[k].parent.value;
      assert origin[j].scope.Allows(target, op);
      LineSanctions(log, origin, maxDepth, j, era, target, op);
    }
  }

  /** Every issue on a sanctioned line has the rights and allows the target: a line with a
      link that lacks WRITE, say, backs no put, no alias update and no forget. */
  lemma {:induction false} EveryLinkSanctions(log: seq<Issue>, origin: seq<Provenance>, k: nat, era: nat, target: Uri,
                                              op: ContextOperation, m: nat)
    requires |origin| == |log| && Sanctioned(log, origin, k, era, target, op) && Under(log, k, m)
    ensures m < |log|
    ensures Suffices(log[m].rights, op) && origin[m].scope.Allows(target, op) && origin[m].era == era
  {
    hide Suffices;
    if k != m { EveryLinkSanctions(log, origin, log[k].parent.value, era, target, op, m); }
  }

  // ---- lines that are still held -----------------------------------------------------------------

  /** Some live slot holds issue `k`. */
  ghost predicate Held(slots: seq<CapSlot>, at: seq<nat>, k: nat) {
    exists i :: 0 <= i < |slots| && i < |at| && slots[i].IsValid() && at[i] == k
  }

  /** Issue `k` and every issue it descends from are held by live slots. */
  ghost predicate LineHeld(slots: seq<CapSlot>, at: seq<nat>, log: seq<Issue>, k: nat) {
    && k < |log| && Held(slots, at, k)
    && match log[k].parent
       case None => true
       case Some(j) => j < k && LineHeld(slots, at, log, j)
  }

  /** Issue `k` is `m` or descends from it. */
  ghost predicate Under(log: seq<Issue>, k: nat, m: nat) {
    k < |log| && (k == m || (log[k].parent.Some? && log[k].parent.value < k && Under(log, log[k].parent.value, m)))
  }

  /** What a live slot holds descends only from what live slots hold. */
  lemma {:induction false} LiveLineHeld(slots: seq<CapSlot>, ns: Nodes, kids: seq<seq<nat>>, log: seq<Issue>,
                                        at: seq<nat>, nextId: nat, maxDepth: nat, i: nat)
    requires Agreement(slots, ns, log, at, nextId, maxDepth) && Forest(ns, kids) && i < |slots| && slots[i].IsValid()
    ensures i < |at| && LineHeld(slots, at, log, at[i])
    decreases if i < |ns| then ns[i].depth else 0
  {
    hide Forest, FreshIds, OneChild;
    assert Live(ns, i) && Holds(slots[i], ns[i], log, at[i]) && LinkOk(log, at[i], maxDepth);
    if ns[i].depth > 0 {
      ParentLive(ns, kids, i);
      LiveLineHeld(slots, ns, kids, log, at, nextId, maxDepth, ns[i].parentIndex);
    }
  }

  lemma {:induction false} HeldAbove(slots: seq<CapSlot>, at: seq<nat>, log: seq<Issue>, k: nat, m: nat)
    requires LineHeld(slots, at, log, k) && Under(log, k, m)
    ensures Held(slots, at, m)
  {
    if k != m { HeldAbove(slots, at, log, log[k].parent.value, m); }
  }

  /** Issuing into a slot brings no earlier issue back. */
  lemma StillGone(slots: seq<CapSlot>, at: seq<nat>, c: nat, slot: CapSlot, k: nat)
    requires |at| == |slots| && c < |slots|
    ensures forall m :: m != k && Held(slots[c := slot], at[c := k], m) ==> Held(slots, at, m)
  {
    forall m | m != k && Held(slots[c := slot], at[c := k], m) ensures Held(slots, at, m) {
      var i :| 0 <= i < |slots| && slots[c := slot][i].IsValid() && at[c := k][i] == m;
      assert i != c;
    }
  }

  /** A freed slot was the only one to hold its issue. */
  lemma FreedUnheld(slots: seq<CapSlot>, slots': seq<CapSlot>, ns: Nodes, log: seq<Issue>, at: seq<nat>, nextId: nat,
                    maxDepth: nat, r: nat)
    requires Agreement(slots, ns, log, at, nextId, maxDepth) && r < |slots| == |slots'|
    requires slots[r].IsValid() && !slots'[r].IsValid()
    requires forall i :: 0 <= i < |slots| && slots'[i].IsValid() ==> slots'[i] == slots[i]
    ensures at[r] < |log| && !Held(slots', at, at[r])
    ensures forall m :: Held(slots', at, m) ==> Held(slots, at, m)
  {
    hide FreshIds, OneChild, Lineage;
    assert Live(ns, r) && Holds(slots[r], ns[r], log, at[r]);
    assert forall i :: 0 <= i < |slots| && slots'[i].IsValid() ==> Live(ns, i) && i != r;
  }

  // ---- agreement of bindings and slots ---------------------------------------------------------

  /** Live slot `i`: whom it belongs to, and its binding while its era lasts. */
  ghost predicate SlotBound(slot: CapSlot, from: Provenance, grants: seq<ContextGrant>, era: nat, epoch: nat) {
    && slot.owner == from.owner && slot.token.capType == Context && from.era <= era
    && (from.era == era ==> slot.token.epoch == epoch)
    && Get(grants, slot.token.id) == (if from.era == era then Some(from.scope) else None)
  }

  ghost predicate Bound(slots: seq<CapSlot>, at: seq<nat>, origin: seq<Provenance>, grants: seq<ContextGrant>, era: nat,
                        epoch: nat) {
    && |at| == |slots| && DistinctIds(grants)
    && (forall k :: 0 <= k < |grants| ==> IsLiveId(slots, grants[k].tokenId))
    && (forall i :: 0 <= i < |slots| && slots[i].IsValid() ==>
          at[i] < |origin| && SlotBound(slots[i], origin[at[i]], grants, era, epoch))
  }

  /** Issuing into a free slot under a fresh identifier and binding it. */
  lemma IssueBound(slots: seq<CapSlot>, at: seq<nat>, origin: seq<Provenance>, grants: seq<ContextGrant>, era: nat,
                   epoch: nat, c: nat, slot: CapSlot, from: Provenance)
    requires Bound(slots, at, origin, grants, era, epoch) && c < |slots| && !slots[c].IsValid()
    requires slot.IsValid() && slot.owner == from.owner && slot.token.capType == Context
    requires slot.token.epoch == epoch && from.era == era && !IsLiveId(slots, slot.token.id)
    ensures Get(grants, slot.token.id).None?
    ensures Bound(slots[c := slot], at[c := |origin|], origin + [from],
                  grants + [ContextGrant(slot.token.id, from.scope)], era, epoch)
  {
    var slots', grant := slots[c := slot], ContextGrant(slot.token.id, from.scope);
    var grants' := grants + [grant];
    forall k | 0 <= k < |grants'| ensures IsLiveId(slots', grants'[k].tokenId) {
      if k < |grants| {
        assert IsLiveId(slots, grants[k].tokenId);
        var i :| 0 <= i < |slots| && slots[i].IsValid() && slots[i].token.id == grants[k].tokenId;
        assert slots'[i] == slots[i];
      } else {
        assert slots'[c] == slot;
      }
    }
    forall i | 0 <= i < |slots'| && slots'[i].IsValid() ensures
      Get(grants', slots'[i].token.id) == if i == c then Some(from.scope) else Get(grants, slots'[i].token.id)
    {
      GetAppended(grants, grant, slots'[i].token.id);
      assert i != c ==> slots[i].token.id != slot.token.id;
    }
  }

  /** Freeing slots and dropping the bindings that lost theirs. */
  lemma RevokeBound(slots: seq<CapSlot>, slots': seq<CapSlot>, at: seq<nat>, origin: seq<Provenance>,
                    grants: seq<ContextGrant>, era: nat, epoch: nat)
    requires Bound(slots, at, origin, grants, era, epoch) && |slots'| == |slots|
    requires forall i :: 0 <= i < |slots| && slots'[i].IsValid() ==> slots'[i] == slots[i]
    ensures Bound(slots', at, origin, Retained(grants, slots'), era, epoch)
  {
    RetainedFacts(grants, slots', 0);
    forall i | 0 <= i < |slots'| && slots'[i].IsValid()
      ensures Get(Retained(grants, slots'), slots'[i].token.id) == Get(grants, slots[i].token.id)
    {
      RetainedFacts(grants, slots', slots'[i].token.id);
    }
  }

  lemma RotateBound(slots: seq<CapSlot>, at: seq<nat>, origin: seq<Provenance>, grants: seq<ContextGrant>, era: nat,
                    epoch: nat, epoch': nat)
    requires Bound(slots, at, origin, grants, era, epoch)
    ensures Bound(slots, at, origin, [], era + 1, epoch')
  {}

  /** The identifier about to be handed out is on no live slot. */
  lemma NextIdFresh(slots: seq<CapSlot>, ns: Nodes, log: seq<Issue>, at: seq<nat>, nextId: nat, maxDepth: nat)
    requires Agreement(slots, ns, log, at, nextId, maxDepth)
    ensures !IsLiveId(slots, nextId)
  {
    forall i | 0 <= i < |slots| && slots[i].IsValid() ensures slots[i].token.id != nextId {
      assert Live(ns, i) && Holds(slots[i], ns[i], log, at[i]);
    }
  }

  lemma TraceIssue(log: seq<Issue>, origin: seq<Provenance>, issue: Issue, from: Provenance)
    requires Traced(log, origin)
    requires LinkTraced(log + [issue], origin + [from], |log|)
    ensures Traced(log + [issue], origin + [from])
  {
    forall k | 0 <= k < |log| ensures LinkTraced(log + [issue], origin + [from], k) {
      assert LinkTraced(log, origin, k);
    }
  }

  /** The rights in a live slot are rights of its issue. */
  lemma SlotWithinIssue(slots: seq<CapSlot>, ns: Nodes, log: seq<Issue>, at: seq<nat>, nextId: nat, maxDepth: nat,
                        i: nat)
    requires Agreement(slots, ns, log, at, nextId, maxDepth) && i < |slots| && slots[i].IsValid()
    ensures i < |at| && at[i] < |log| && slots[i].token.rights <= log[at[i]].rights
  {
    assert Live(ns, i) && Holds(slots[i], ns[i], log, at[i]);
  }

  // ---- the authority ---------------------------------------------------------------------------

  class ContextAuthority {
    const manager: CapabilityManager
    const grantCapacity: nat
    const prints: Fingerprints
    var grants: seq<ContextGrant>
    /** The provenance of every issue, and the number of epoch rotations. */
    ghost var origin: seq<Provenance>
    ghost var era: nat

    /** The bindings mirror the live slots and every issue is traced to its root. */
    ghost predicate Governed()
      reads this, manager, manager.table.slots
    {
      && manager.table.slots.Length <= grantCapacity
      && Bound(manager.table.slots[..], manager.at, origin, grants, era, manager.epoch)
      && Traced(manager.log, origin)
    }

    ghost predicate Valid()
      reads this, manager, manager.table, manager.table.slots, manager.tree, manager.tree.nodes
    {
      manager.Valid() && Governed()
    }

    constructor (capacity: nat, grantCapacity: nat, maxDepth: nat, epoch: nat, prints: Fingerprints)
      requires capacity <= grantCapacity && capacity < U32_MAX && maxDepth <= 255 && epoch <= U32_MAX
      ensures Valid() && fresh(manager) && fresh(manager.table) && fresh(manager.table.slots)
      ensures fresh(manager.tree) && fresh(manager.tree.nodes)
      ensures Tidy(manager.tree.nodes[..], manager.tree.kids) && grants == [] && manager.log == []
    {
      manager := new CapabilityManager(capacity, maxDepth, epoch);
      this.grantCapacity := grantCapacity;
      this.prints := prints;
      grants, origin, era := [], [], 0;
      new;
      assert manager.log == [];
      NoneInUse();
    }

    lemma NoneInUse()
      requires manager.table.Valid() && manager.table.count == 0
      ensures forall i :: 0 <= i < manager.table.slots.Length ==> !manager.table.slots[i].IsValid()
    {
      forall i | 0 <= i < manager.table.slots.Length ensures !manager.table.slots[i].IsValid() {
        if manager.table.slots[i].IsValid() {
          SomeInUse(manager.table.slots[..], i, manager.table.slots.Length);
        }
      }
    }

    static lemma {:induction false} SomeInUse(slots: seq<CapSlot>, i: nat, k: nat)
      requires i < k <= |slots| && slots[i].IsValid()
      ensures ValidUpTo(slots, k) > 0
    {
      if i < k - 1 { SomeInUse(slots, i, k - 1); }
    }

    /** Binds an identifier to a scope. */
    method Bind(tokenId: nat, scope: ContextScope) returns (r: Result<(), ContextError>)
      modifies this`grants
      ensures Get(old(grants), tokenId) == Some(scope) ==> r.Ok? && grants == old(grants)
      ensures Get(old(grants), tokenId).Some? && Get(old(grants), tokenId) != Some(scope) ==>
        r == Err(GrantAlreadyBound) && grants == old(grants)
      ensures Get(old(grants), tokenId).None? && |old(grants)| >= grantCapacity ==>
        r == Err(GrantTableFull) && grants == old(grants)
      ensures Get(old(grants), tokenId).None? && |old(grants)| < grantCapacity ==>
        r.Ok? && grants == old(grants) + [ContextGrant(tokenId, scope)]
    {
      var existing := Get(grants, tokenId);
      if existing.Some? {
        return if existing.value == scope then Ok(()) else Err(GrantAlreadyBound);
      }
      if |grants| >= grantCapacity {
        return Err(GrantTableFull);
      }
      grants := grants + [ContextGrant(tokenId, scope)];
      return Ok(());
    }

    /** A free slot in the table means room in the binding table. */
    lemma RoomToBind()
      requires Governed() && manager.table.Valid() && manager.NextSlot() < manager.table.slots.Length
      ensures |grants| < grantCapacity
    {
      var slots := manager.table.slots[..];
      BindingsFit(grants, slots);
      ValidFull(slots, |slots|);
      LowestFreeIsFree(slots, 0);
    }

    static lemma {:induction false} LowestFreeIsFree(slots: seq<CapSlot>, k: nat)
      requires k <= |slots| && LowestFree(slots, k) < |slots|
      ensures !slots[LowestFree(slots, k)].IsValid()
      decreases |slots| - k
    {
      if slots[k].IsValid() { LowestFreeIsFree(slots, k + 1); }
    }

    /** Issues and binds a root. Only the capability table can refuse the hypervisor: a
        new capability always finds room in the binding table, so nothing is rolled back. */
    method IssueRoot(scope: ContextScope, rights: CapRights, owner: PartitionId, caller: PartitionId)
        returns (r: Result<CapabilityHandle, ContextError>)
      requires Valid()
      modifies this, manager, manager.table, manager.table.slots, manager.tree, manager.tree.nodes
      ensures Governed() && era == old(era) && manager.epoch == old(manager.epoch)
      ensures r.Err? ==>
        && r == Err(Capability(if caller == 0 then TableFull else GrantNotPermitted))
        && (caller == 0 ==>
              old(manager.nextId) >= U64_MAX || old(manager.table.count) == manager.table.slots.Length)
        && Valid() && grants == old(grants) && origin == old(origin) && manager.log == old(manager.log)
        && manager.table.slots[..] == old(manager.table.slots[..])
        && manager.tree.nodes[..] == old(manager.tree.nodes[..])
      ensures r.Ok? ==>
        && caller == 0
        && origin == old(origin) + [Provenance(scope, era, 0, owner)]
        && |manager.log| == |old(manager.log)| + 1 && manager.log[..|old(manager.log)|] == old(manager.log)
        && (var issue := manager.log[|old(manager.log)|];
            issue.parent == None && issue.rights == rights && issue.capType == Context)
        && manager.table.LookupOf(r.value.index, r.value.generation).Ok?
        && r.value.index < |manager.at| && manager.at[r.value.index] == |old(manager.log)|
        && (Valid() <==> old(manager.NextSlotUnlinked()))
        && (old(Tidy(manager.tree.nodes[..], manager.tree.kids)) ==>
              Valid() && Tidy(manager.tree.nodes[..], manager.tree.kids))
      ensures forall m :: old(Gone(m)) ==> Gone(m)
    {
      hide Forest, Counts, Agreement, Bound, Traced, Tidy, GenOf, Get, Held, LowestFree;
      ghost var slots, log, at := manager.table.slots[..], manager.log, manager.at;
      BoundShape(slots, at, origin, grants, era, manager.epoch);
      NextIdFresh(slots, manager.tree.nodes[..], log, at, manager.nextId, manager.maxDepth);
      ghost var room := manager.NextSlot() < manager.table.slots.Length;
      if room { RoomToBind(); LowestFreeIsFree(slots, 0); }
      var badge := prints.scope(scope);
      var created := manager.CreateRootChecked(Context, rights, badge, owner, caller);
      if created.Err? {
        return Err(Capability(created.error));
      }
      var index, generation := created.value.0, created.value.1;
      var tokenId := manager.table.slots[index].token.id;
      ghost var from := Provenance(scope, era, HYPERVISOR, owner);
      StillGone(slots, at, index, manager.table.slots[index], |log|);
      IssueBound(slots, at, origin, grants, era, manager.epoch, index, manager.table.slots[index], from);
      RootTraced(log, origin, manager.log[|log|], from);
      var bound := Bind(tokenId, scope);
      if bound.Err? {
        // The rollback of lines 582-585.
        assert false;
      }
      TracedShape(log, origin);
      origin := origin + [from];
      return Ok(CapabilityHandle(index, generation));
    }

    static lemma BoundShape(slots: seq<CapSlot>, at: seq<nat>, origin: seq<Provenance>, grants: seq<ContextGrant>,
                            era: nat, epoch: nat)
      requires Bound(slots, at, origin, grants, era, epoch)
      ensures |at| == |slots|
      ensures forall i :: 0 <= i < |slots| && slots[i].IsValid() ==>
        at[i] < |origin| && SlotBound(slots[i], origin[at[i]], grants, era, epoch)
    {}

    static lemma TracedShape(log: seq<Issue>, origin: seq<Provenance>)
      requires Traced(log, origin)
      ensures |log| == |origin|
    {}

    static lemma RootTraced(log: seq<Issue>, origin: seq<Provenance>, issue: Issue, from: Provenance)
      requires Traced(log, origin) && issue.parent == None && issue.capType == Context && from.issuer == HYPERVISOR
      ensures Traced(log + [issue], origin + [from])
    {
      TraceIssue(log, origin, issue, from);
    }

    /** Delegates a capability: the caller must own a current source with GRANT whose scope
        contains the child's. Again no grant is rolled back. */
    method Delegate(source: CapabilityHandle, childScope: ContextScope, requested: CapRights, targetOwner: PartitionId,
                    caller: PartitionId) returns (r: Result<CapabilityHandle, ContextError>)
      requires Valid()
      modifies this, manager, manager.table, manager.table.slots, manager.tree, manager.tree.nodes
      ensures Governed() && era == old(era) && manager.epoch == old(manager.epoch)
      ensures r == Err(AccessDenied) <==>
        !old(manager.P1Holds(source.index, source.generation, {GRANT}) && BindingCurrent(source.index)
             && manager.table.slots[source.index].owner == caller)
      ensures r != Err(AccessDenied) ==> old(BindingCurrent(source.index))
      ensures r == Err(ScopeEscalation) <==>
        r != Err(AccessDenied) && !old(OriginOf(source.index)).scope.ContainsScope(childScope)
      ensures r.Ok? || r.error.Capability? ==>
        var granted := old(manager.GrantOutcome(source.index, source.generation, requested, Some(caller)));
        if granted.Ok? then r == Ok(CapabilityHandle(granted.value.0, granted.value.1))
        else r == Err(Capability(granted.error))
      ensures r.Err? ==>
        && r.error !in {GrantTableFull, GrantAlreadyBound}
        && Valid() && grants == old(grants) && origin == old(origin) && manager.log == old(manager.log)
        && manager.table.slots[..] == old(manager.table.slots[..])
        && manager.tree.nodes[..] == old(manager.tree.nodes[..])
      ensures r.Ok? ==>
        && old(BindingCurrent(source.index)) && old(OriginOf(source.index)).scope.ContainsScope(childScope)
        && origin == old(origin) + [Provenance(childScope, era, caller, targetOwner)]
        && |manager.log| == |old(manager.log)| + 1 && manager.log[..|old(manager.log)|] == old(manager.log)
        && (var issue := manager.log[|old(manager.log)|];
            issue.parent == Some(old(manager.at[source.index])) && issue.rights == requested
              && issue.capType == Context)
        && manager.table.LookupOf(r.value.index, r.value.generation).Ok?
        && r.value.index < |manager.at| && manager.at[r.value.index] == |old(manager.log)|
        && (Valid() <==> old(manager.NextSlotUnlinked()))
        && (old(Tidy(manager.tree.nodes[..], manager.tree.kids)) ==>
              Valid() && Tidy(manager.tree.nodes[..], manager.tree.kids))
      ensures forall m :: old(Gone(m)) ==> Gone(m)
    {
      hide Forest, Counts, Agreement, Bound, Traced, Tidy, GenOf, Get, Held, LowestFree, ChildAdded, Unlinked;
      hide Chronological;
      ghost var slots := manager.table.slots[..];
      BoundShape(slots, manager.at, origin, grants, era, manager.epoch);
      var proven := manager.VerifyP1(source.index, source.generation, {GRANT});
      if proven.Err? {
        return Err(AccessDenied);
      }
      var looked := manager.table.Lookup(source.index, source.generation);
      if looked.Err? {
        assert false;
      }
      var sourceSlot := looked.value;
      assert slots[source.index] == sourceSlot;
      if sourceSlot.token.capType != Context || sourceSlot.owner != caller {
        return Err(AccessDenied);
      }
      var parent := Get(grants, sourceSlot.token.id);
      if parent.None? {
        return Err(AccessDenied);
      }
      if !parent.value.ContainsScope(childScope) {
        return Err(ScopeEscalation);
      }
      r := DelegateFrom(source, childScope, requested, targetOwner, caller);
    }

    /** The writes of a delegation that passed its checks (lines 646-664). */
    method DelegateFrom(source: CapabilityHandle, childScope: ContextScope, requested: CapRights,
                        targetOwner: PartitionId,
                        caller: PartitionId) returns (r: Result<CapabilityHandle, ContextError>)
      requires Valid() && manager.P1Holds(source.index, source.generation, {GRANT})
      requires manager.table.slots[source.index].owner == caller
      requires BindingCurrent(source.index) && OriginOf(source.index).scope.ContainsScope(childScope)
      modifies this, manager, manager.table, manager.table.slots, manager.tree, manager.tree.nodes
      ensures Governed() && era == old(era) && manager.epoch == old(manager.epoch)
      ensures
        var granted := old(manager.GrantOutcome(source.index, source.generation, requested, Some(caller)));
        if granted.Ok? then r == Ok(CapabilityHandle(granted.value.0, granted.value.1))
        else r == Err(Capability(granted.error))
      ensures r.Err? ==>
        && r.error.Capability? && Valid() && grants == old(grants) && origin == old(origin)
           && manager.log == old(manager.log)
        && manager.table.slots[..] == old(manager.table.slots[..])
        && manager.tree.nodes[..] == old(manager.tree.nodes[..])
      ensures r.Ok? ==>
        && origin == old(origin) + [Provenance(childScope, era, caller, targetOwner)]
        && |manager.log| == |old(manager.log)| + 1 && manager.log[..|old(manager.log)|] == old(manager.log)
        && (var issue := manager.log[|old(manager.log)|];
            issue.parent == Some(old(manager.at[source.index])) && issue.rights == requested
              && issue.capType == Context)
        && manager.table.LookupOf(r.value.index, r.value.generation).Ok?
        && r.value.index < |manager.at| && manager.at[r.value.index] == |old(manager.log)|
        && (Valid() <==> old(manager.NextSlotUnlinked()))
        && (old(Tidy(manager.tree.nodes[..], manager.tree.kids)) ==>
              Valid() && Tidy(manager.tree.nodes[..], manager.tree.kids))
      ensures forall m :: old(Gone(m)) ==> Gone(m)
    {
      hide Forest, Counts, Agreement, Bound, Traced, Tidy, GenOf, Get, Held, LowestFree, ChildAdded, Unlinked;
      hide Chronological;
      ghost var slots, log, at := manager.table.slots[..], manager.log, manager.at;
      BoundShape(slots, at, origin, grants, era, manager.epoch);
      assert slots[source.index] == manager.table.slots[source.index];
      NextIdFresh(slots, manager.tree.nodes[..], log, at, manager.nextId, manager.maxDepth);
      SlotWithinIssue(slots, manager.tree.nodes[..], log, at, manager.nextId, manager.maxDepth, source.index);
      ghost var room := manager.NextSlot() < manager.table.slots.Length;
      if room { RoomToBind(); LowestFreeIsFree(slots, 0); }
      var badge := prints.scope(childScope);
      var granted := manager.Grant(source.index, source.generation, requested, badge, targetOwner, Some(caller));
      if granted.Err? {
        return Err(Capability(granted.error));
      }
      var index, generation := granted.value.0, granted.value.1;
      var tokenId := manager.table.slots[index].token.id;
      ghost var from := Provenance(childScope, era, caller, targetOwner);
      assert manager.table.slots[..] == slots[index := manager.table.slots[index]];
      StillGone(slots, at, index, manager.table.slots[index], |log|);
      IssueBound(slots, at, origin, grants, era, manager.epoch, index, manager.table.slots[index], from);
      DelegationTraced(log, origin, manager.log[|log|], at[source.index], from);
      var bound := Bind(tokenId, childScope);
      if bound.Err? {
        // The rollback of lines 659-662.
        assert false;
      }
      TracedShape(log, origin);
      origin := origin + [from];
      return Ok(CapabilityHandle(index, generation));
    }

    /** The slot's capability was issued in the current era, that is, it is bound. */
    ghost predicate BindingCurrent(index: nat)
      reads this, manager, manager.table.slots
    {
      && index < manager.table.slots.Length == |manager.at| && manager.at[index] < |origin|
      && origin[manager.at[index]].era == era
    }

    ghost function OriginOf(index: nat): Provenance
      requires BindingCurrent(index)
      reads this, manager, manager.table.slots
    {
      origin[manager.at[index]]
    }

    static lemma DelegationTraced(log: seq<Issue>, origin: seq<Provenance>, issue: Issue, j: nat, from: Provenance)
      requires Traced(log, origin) && j < |log| && issue.parent == Some(j) && issue.capType == Context
      requires GRANT in log[j].rights && origin[j].scope.ContainsScope(from.scope)
      requires from.era == origin[j].era && from.issuer == origin[j].owner
      ensures Traced(log + [issue], origin + [from])
    {
      TraceIssue(log, origin, issue, from);
    }

    /** Revokes a capability with its descendants and drops exactly their bindings. The
        revoked issue is gone, and what is gone stays gone. */
    method Revoke(handle: CapabilityHandle) returns (r: Result<nat, ContextError>)
      requires Valid()
      modifies this, manager, manager.table, manager.table.slots, manager.tree, manager.tree.nodes
      ensures Valid() && era == old(era) && origin == old(origin) && manager.log == old(manager.log)
      ensures r.Err? <==> old(manager.table.LookupOf(handle.index, handle.generation)).Err?
      ensures r.Err? ==> grants == old(grants) && manager.table.slots[..] == old(manager.table.slots[..])
      ensures r.Ok? ==>
        var doomed := Doomed(old(manager.tree.nodes[..]), handle.index);
        && handle.index in doomed && r.value == |doomed|
        && (forall i :: 0 <= i < manager.table.slots.Length ==>
              manager.table.slots[i] ==
              if i in doomed then old(manager.table.slots[i]).Invalidate() else old(manager.table.slots[i]))
        && grants == Retained(old(grants), manager.table.slots[..])
        && handle.index < |old(manager.at)| && Gone(old(manager.at[handle.index]))
      ensures forall m :: old(Gone(m)) ==> Gone(m)
    {
      hide Forest, Counts, Agreement, Bound, Traced, Tidy, GenOf, Get, Held;
      ghost var slots, ns := manager.table.slots[..], manager.tree.nodes[..];
      BoundShape(slots, manager.at, origin, grants, era, manager.epoch);
      var revoked := manager.Revoke(handle.index, handle.generation);
      if revoked.Err? {
        return Err(Capability(revoked.error));
      }
      assert slots[handle.index] == old(manager.table.slots[handle.index]);
      FreedUnheld(slots, manager.table.slots[..], ns, manager.log, manager.at, manager.nextId, manager.maxDepth,
                  handle.index);
      RevokeBound(slots, manager.table.slots[..], manager.at, origin, grants, era, manager.epoch);
      RetainLive();
      return Ok(revoked.value);
    }

    /** Drops the bindings whose capability is gone. */
    method RetainLive()
      requires manager.table.Valid()
      modifies this`grants
      ensures grants == Retained(old(grants), manager.table.slots[..])
    {
      var all, kept: seq<ContextGrant> := grants, [];
      for k := 0 to |all|
        invariant kept == Retained(all[..k], manager.table.slots[..])
      {
        assert all[..k + 1][..k] == all[..k];
        var live := AnyLive(all[k].tokenId);
        if live {
          kept := kept + [all[k]];
        }
      }
      assert all[..|all|] == all;
      grants := kept;
    }

    method AnyLive(id: nat) returns (live: bool)
      ensures live <==> IsLiveId(manager.table.slots[..], id)
    {
      ghost var slots := manager.table.slots[..];
      for i := 0 to manager.table.slots.Length
        invariant forall j :: 0 <= j < i ==> !(slots[j].IsValid() && slots[j].token.id == id)
      {
        if manager.table.slots[i].IsValid() && manager.table.slots[i].token.id == id {
          assert slots[i] == manager.table.slots[i];
          return true;
        }
      }
      return false;
    }

    /** Rotates the epoch: whatever was issued before is never authorized again, also
        when the 32-bit epoch counter comes round to an old value. */
    method IncrementEpoch()
      requires Valid()
      modifies this, manager
      ensures Valid() && era == old(era) + 1 && grants == [] && origin == old(origin)
      ensures manager.log == old(manager.log) && manager.epoch == (old(manager.epoch) + 1) % 0x1_0000_0000
      ensures forall m :: old(Gone(m)) ==> Gone(m)
    {
      hide Forest, Counts, Agreement, Bound, Traced, Tidy, GenOf, Get;
      manager.IncrementEpoch();
      RotateBound(manager.table.slots[..], manager.at, origin, grants, era, old(manager.epoch), manager.epoch);
      grants := [];
      era := era + 1;
    }

    /** What a request is refused with before its capability is even looked at. */
    function ShapeError(request: ContextRequest, expected: ContextOperation): ContextError {
      if request.operation != expected then OperationMismatch
      else if expected in {Put, Verify, Execute, SealReceipt} && request.target.revision.None? then PinnedUriRequired
      else if expected in {List, Tree, History, CompareAndSwapAlias, Forget} && request.target.revision.Some? then
        VersionlessUriRequired
      else InvalidTarget
    }

    /** Which error names what is wrong with the shape of a request. */
    static ghost predicate IsShapeError(request: ContextRequest, expected: ContextOperation, error: ContextError) {
      && (error == OperationMismatch <==> request.operation != expected)
      && (error == PinnedUriRequired <==>
            request.operation == expected && request.target.revision.None?
            && expected in {Put, Verify, Execute, SealReceipt})
      && (error == VersionlessUriRequired <==>
            request.operation == expected && request.target.revision.Some?
            && expected in {List, Tree, History, CompareAndSwapAlias, Forget})
      && error in {OperationMismatch, PinnedUriRequired, VersionlessUriRequired, InvalidTarget}
    }

    lemma ShapeErrorExactly(request: ContextRequest, expected: ContextOperation)
      ensures IsShapeError(request, expected, ShapeError(request, expected))
    {}

    /** The conditions of an allow, in terms of what was issued: a live handle of the actor,
        issued in this era, for a scope that allows the target, with the rights still left. */
    ghost predicate Authorizes(actor: PartitionId, request: ContextRequest)
      reads this, manager, manager.table.slots
    {
      var looked := manager.table.LookupOf(request.capability.index, request.capability.generation);
      && looked.Ok? && looked.value.owner == actor
      && Suffices(looked.value.token.rights, request.operation)
      && BindingCurrent(request.capability.index)
      && OriginOf(request.capability.index).scope.Allows(request.target, request.operation)
    }

    /** What makes the record name the token rather than only the handle: a request of the
        right shape with a live, current capability whose rights suffice. */
    ghost predicate Proven(request: ContextRequest, expected: ContextOperation)
      reads this, manager, manager.table.slots
    {
      var looked := manager.table.LookupOf(request.capability.index, request.capability.generation);
      && request.operation == expected && Shaped(expected, request.target) && looked.Ok?
      && looked.value.token.epoch == manager.epoch && Suffices(looked.value.token.rights, expected)
    }

    ghost function TokenOf(index: nat): CapToken
      reads manager, manager.table.slots
    {
      if index < manager.table.slots.Length then manager.table.slots[index].token else EMPTY_SLOT.token
    }

    /** The record of a decision. */
    function Decision(action: ActionKind, actor: PartitionId, timestamp: u64, request: ContextRequest,
                      capability: nat): WitnessRecord {
      var digest := prints.target(request.target);
      WitnessRecord(0, timestamp, action, 1, request.operation.Code(), actor, digest.0, capability, digest.1, 0, 0, 0)
    }

    /** The gate. It allows exactly the requests `Authorizes` describes, every allow is backed
        by the whole issuance line up to a root of the hypervisor, and each decision, allow
        or denial, leaves one record in the witness log before it is returned. */
    method Authorize(actor: PartitionId, timestamp: u64, request: ContextRequest, expected: ContextOperation,
                     trail: WitnessLog) returns (r: Result<AuthorizedRequest, ContextError>)
      requires Valid() && trail.Valid() && trail.totalEmitted < 0xFFFF_FFFF_FFFF_FFFF
      modifies trail, trail.records
      ensures trail.Valid() && |trail.history| == |old(trail.history)| + 1
      ensures
        var shaped := request.operation == expected && Shaped(expected, request.target);
        && (r.Ok? <==> shaped && old(Authorizes(actor, request)))
        && (r.Err? ==> if shaped then r.error == AccessDenied else IsShapeError(request, expected, r.error))
      ensures
        var last := |old(trail.history)|;
        trail.history == old(trail.history) + [Stamped(trail.hasher, last,
          Decision(if r.Ok? then ProofVerifiedP1 else ProofRejected, actor, timestamp, request,
                   if old(Proven(request, expected)) then prints.token(old(TokenOf(request.capability.index)))
                   else prints.handle(request.capability)))]
      ensures r.Ok? ==>
        && r.value == AuthorizedRequest(actor, expected, request.target,
             prints.token(old(TokenOf(request.capability.index))), |old(trail.history)|, timestamp)
        && request.capability.index < |manager.at|
        && Sanctioned(manager.log, origin, manager.at[request.capability.index], era, request.target, expected)
        && LineHeld(manager.table.slots[..], manager.at, manager.log, manager.at[request.capability.index])
    {
      hide *;
      ShapeExactly(expected, request.target);
      ShapeErrorExactly(request, expected);
      Provenly(request, expected);
      LogShape(trail);
      if request.operation != expected || !expected.TargetShapeIsValid(request.target) {
        var _ := EmitDecision(ProofRejected, actor, timestamp, request, prints.handle(request.capability), trail);
        return Err(ShapeError(request, expected));
      }
      var token, allowed := CheckCapability(actor, request);
      if token.None? {
        var _ := EmitDecision(ProofRejected, actor, timestamp, request, prints.handle(request.capability), trail);
        return Err(AccessDenied);
      }
      var named := prints.token(token.value);
      if !allowed {
        var _ := EmitDecision(ProofRejected, actor, timestamp, request, named, trail);
        return Err(AccessDenied);
      }
      var sequence := EmitDecision(ProofVerifiedP1, actor, timestamp, request, named, trail);
      return Ok(AuthorizedRequest(actor, expected, request.target, named, sequence, timestamp));
    }

    lemma LogShape(trail: WitnessLog)
      requires trail.Valid()
      ensures trail.totalEmitted == |trail.history|
    {}

    lemma Provenly(request: ContextRequest, expected: ContextOperation)
      ensures Proven(request, expected) <==>
        && request.operation == expected && Shaped(expected, request.target)
        && HasRights(request)
    {}

    /** A live capability of the current epoch whose rights suffice for the operation. */
    ghost predicate HasRights(request: ContextRequest)
      reads this, manager, manager.table.slots
    {
      var looked := manager.table.LookupOf(request.capability.index, request.capability.generation);
      looked.Ok? && looked.value.token.epoch == manager.epoch && Suffices(looked.value.token.rights, request.operation)
    }

    /** The checks on the capability (lines 724-757): the token once it is proven, and whether
        it allows the request. */
    method CheckCapability(actor: PartitionId, request: ContextRequest)
        returns (token: Option<CapToken>, allowed: bool)
      requires Valid()
      ensures allowed <==> Authorizes(actor, request)
      ensures token.Some? <==> HasRights(request)
      ensures token.Some? ==> token.value == TokenOf(request.capability.index)
      ensures allowed ==>
        && token.Some? && request.capability.index < |manager.at|
        && Sanctioned(manager.log, origin, manager.at[request.capability.index], era, request.target, request.operation)
        && LineHeld(manager.table.slots[..], manager.at, manager.log, manager.at[request.capability.index])
    {
      hide Forest, Counts, Agreement, Bound, Traced, Tidy, GenOf, Get, LineHeld, Sanctioned, ContextScope.Allows;
      var op := request.operation;
      forall rights { RightsExactly(rights, op); }
      hide Suffices;
      var index := request.capability.index;
      BoundShape(manager.table.slots[..], manager.at, origin, grants, era, manager.epoch);
      var proven := manager.VerifyP1(index, request.capability.generation, op.RequiredRights());
      if proven.Err? {
        return None, false;
      }
      var looked := manager.table.Lookup(index, request.capability.generation);
      if looked.Err? {
        assert false;
      }
      var slot := looked.value;
      assert manager.table.slots[..][index] == slot;
      token := Some(slot.token);
      if slot.token.capType != Context || slot.owner != actor {
        return token, false;
      }
      var grant := Get(grants, slot.token.id);
      if grant.None? {
        return token, false;
      }
      if !grant.value.Allows(request.target, op) {
        return token, false;
      }
      SlotWithinIssue(manager.table.slots[..], manager.tree.nodes[..], manager.log, manager.at, manager.nextId,
                      manager.maxDepth, index);
      LiveLineHeld(manager.table.slots[..], manager.tree.nodes[..], manager.tree.kids, manager.log, manager.at,
                   manager.nextId, manager.maxDepth, index);
      Backed(manager.at[index], request.target, op);
      return token, true;
    }

    /** Issue `m` was made and no live slot holds it any more. */
    ghost predicate Gone(m: nat)
      reads this, manager, manager.table.slots
    {
      m < |manager.log| && !Held(manager.table.slots[..], manager.at, m)
    }

    /** Nothing that descends from an issue that is gone authorizes anything. */
    lemma GoneAuthorizesNothing(actor: PartitionId, request: ContextRequest, m: nat)
      requires Valid() && Gone(m) && BindingCurrent(request.capability.index)
      requires Under(manager.log, manager.at[request.capability.index], m)
      ensures !Authorizes(actor, request)
    {
      hide Forest, Counts, Agreement, Bound, Traced, GenOf, LineHeld, Held;
      var index, slots := request.capability.index, manager.table.slots[..];
      if Authorizes(actor, request) {
        assert slots[index].IsValid();
        LiveLineHeld(slots, manager.tree.nodes[..], manager.tree.kids, manager.log, manager.at,
                     manager.nextId, manager.maxDepth, index);
        HeldAbove(slots, manager.at, manager.log, manager.at[index], m);
      }
    }

    lemma Backed(k: nat, target: Uri, op: ContextOperation)
      requires Valid() && k < |manager.log|
      requires |origin| == |manager.log| ==>
        origin[k].era == era && Suffices(manager.log[k].rights, op) && origin[k].scope.Allows(target, op)
      ensures |origin| == |manager.log| && Sanctioned(manager.log, origin, k, era, target, op)
    {
      LineSanctions(manager.log, origin, manager.maxDepth, k, era, target, op);
    }

    method EmitDecision(action: ActionKind, actor: PartitionId, timestamp: u64, request: ContextRequest,
                        capability: nat, trail: WitnessLog) returns (sequence: u64)
      requires trail.Valid() && trail.totalEmitted < 0xFFFF_FFFF_FFFF_FFFF
      modifies trail, trail.records
      ensures trail.Valid() && sequence == |old(trail.history)|
      ensures trail.history == old(trail.history) +
        [Stamped(trail.hasher, sequence, Decision(action, actor, timestamp, request, capability))]
    {
      var digest := prints.target(request.target);
      var record := ZEROED;
      record := record.(action := action, proofTier := 1, flags := request.operation.Code(), actor := actor);
      record := record.(target := digest.0, capability := capability, payload := digest.1, timestamp := timestamp);
      sequence := trail.Append(record);
    }
  }
}
