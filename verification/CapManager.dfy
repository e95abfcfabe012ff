/** The capability manager of `rvm-cap/src/manager.rs`, with the grant rules of
    `grant.rs`, the revocation of `revoke.rs` and the P1/P3 checks of `verify.rs`. */
module CapManager {
  import opened Types
  import opened CapTable
  import opened Derivation

  const HYPERVISOR: PartitionId := 0

  datatype ProofError = InvalidHandle | StaleCapability | InsufficientRights | DerivationChainBroken

  // ---- granting ---------------------------------------------------------------------

  datatype Granted = Granted(token: CapToken, depth: nat, consume: bool)

  /** Checks a grant and produces the derived token, its depth and whether the
      source's one-time right is used up. */
  function ValidateGrant(source: CapSlot, requested: CapRights, newId: nat, epoch: nat, maxDepth: nat)
      : (r: Result<Granted, CapError>)
    ensures r.Ok? <==>
      && (GRANT in source.token.rights || GRANT_ONCE in source.token.rights) && requested <= source.token.rights
      && source.depth < maxDepth && source.depth < 255
    ensures r == Err(GrantNotPermitted) <==> {GRANT, GRANT_ONCE} !! source.token.rights
    ensures r == Err(RightsEscalation) <==>
      !({GRANT, GRANT_ONCE} !! source.token.rights) && !(requested <= source.token.rights)
    ensures r.Err? ==> r.error in {GrantNotPermitted, RightsEscalation, DelegationDepthExceeded}
    ensures r.Ok? ==>
      && r.value.token.rights == requested <= source.token.rights && r.value.token.capType == source.token.capType
      && r.value.token.id == newId && r.value.token.epoch == epoch && r.value.depth == source.depth + 1 <= maxDepth
      && (r.value.consume <==> GRANT !in source.token.rights)
  {
    var rights := source.token.rights;
    var hasGrant := GRANT in rights;
    var hasGrantOnce := GRANT_ONCE in rights;
    if !hasGrant && !hasGrantOnce then Err(GrantNotPermitted)
    else if !(requested <= rights) then Err(RightsEscalation)
    else if source.depth + 1 > 255 || source.depth + 1 > maxDepth then Err(DelegationDepthExceeded)
    else Ok(Granted(CapToken(newId, source.token.capType, requested, epoch), source.depth + 1,
                    !hasGrant && hasGrantOnce))
  }

  // ---- the issuance history -----------------------------------------------------------

  /** One capability ever issued. `parent` and `root` are positions in the history. */
  datatype Issue = Issue(
    id: nat, parent: Option<nat>, root: nat, rights: CapRights, capType: CapType, depth: nat, epoch: nat)

  /** Every issue is a root or derives from an earlier one: one level deeper, no deeper
      than allowed, with no more rights and the same type. */
  ghost predicate Lineage(log: seq<Issue>, maxDepth: nat) {
    forall k :: 0 <= k < |log| ==> LinkOk(log, k, maxDepth)
  }

  ghost predicate LinkOk(log: seq<Issue>, k: nat, maxDepth: nat)
    requires k < |log|
  {
    match log[k].parent
    case None => log[k].depth == 0 && log[k].root == k
    case Some(j) =>
      && j < k && log[k].depth == log[j].depth + 1 <= maxDepth
      && log[k].rights <= log[j].rights && log[k].capType == log[j].capType && log[k].root == log[j].root
  }

  /** No issue without GRANT has two children. */
  ghost predicate OneChild(log: seq<Issue>) {
    forall a, b, p :: 0 <= a < b < |log| && 0 <= p < |log| && log[a].parent == Some(p) == log[b].parent ==>
      GRANT in log[p].rights
  }

  /** Rights only shrink: whatever was issued under a root has at most the root's
      rights, its type, and a depth within the limit. */
  lemma {:induction false} Attenuated(log: seq<Issue>, maxDepth: nat, k: nat)
    requires Lineage(log, maxDepth) && k < |log|
    ensures log[k].root <= k && log[log[k].root].depth == 0 && log[log[k].root].parent.None?
    ensures log[k].rights <= log[log[k].root].rights && log[k].capType == log[log[k].root].capType
    ensures log[k].depth > 0 ==> log[k].depth <= maxDepth
    ensures log[k].depth == 0 ==> log[k].root == k
  {
    assert LinkOk(log, k, maxDepth);
    if log[k].parent.Some? { Attenuated(log, maxDepth, log[k].parent.value); }
  }

  /** Under a root without GRANT there is at most one issue at each depth. */
  lemma {:induction false} OneAtEachDepth(log: seq<Issue>, maxDepth: nat, r: nat, a: nat, b: nat)
    requires Lineage(log, maxDepth) && OneChild(log) && r < |log| && GRANT !in log[r].rights
    requires a < |log| && b < |log| && log[a].root == r == log[b].root && log[a].depth == log[b].depth
    ensures a == b
    decreases log[a].depth
  {
    Attenuated(log, maxDepth, a);
    Attenuated(log, maxDepth, b);
    assert LinkOk(log, a, maxDepth) && LinkOk(log, b, maxDepth);
    if log[a].depth > 0 {
      OneAtEachDepth(log, maxDepth, r, log[a].parent.value, log[b].parent.value);
      Attenuated(log, maxDepth, log[a].parent.value);
      assert GRANT !in log[log[a].parent.value].rights;
    }
  }

  /** A root issued without GRANT, with the one-time right or not, has over the whole
      history a single path of at most `maxDepth` descendants. */
  lemma SinglePath(log: seq<Issue>, maxDepth: nat, r: nat, under: set<nat>)
    requires Lineage(log, maxDepth) && OneChild(log) && r < |log| && GRANT !in log[r].rights
    requires forall k :: k in under ==> k < |log| && log[k].root == r && k != r
    ensures |under| <= maxDepth
    ensures forall a, b :: a in under && b in under && log[a].depth == log[b].depth ==> a == b
  {
    forall a, b | a in under && b in under && log[a].depth == log[b].depth ensures a == b {
      OneAtEachDepth(log, maxDepth, r, a, b);
    }
    forall k | k in under ensures 1 <= log[k].depth <= maxDepth { Attenuated(log, maxDepth, k); }
    BoundedByDepth(log, under, maxDepth);
  }

  lemma {:induction false} BoundedByDepth(log: seq<Issue>, under: set<nat>, d: nat)
    requires forall k :: k in under ==> k < |log| && 1 <= log[k].depth <= d
    requires forall a, b :: a in under && b in under && log[a].depth == log[b].depth ==> a == b
    ensures |under| <= d
  {
    if d == 0 {
      assert under == {};
    } else if k :| k in under && log[k].depth == d {
      BoundedByDepth(log, under - {k}, d - 1);
    } else {
      BoundedByDepth(log, under, d - 1);
    }
  }

  // ---- agreement of table, tree and history ---------------------------------------------

  /** A slot is in use exactly when its node is valid, at the same depth and parent. */
  ghost predicate SameForest(slots: seq<CapSlot>, ns: Nodes) {
    && |slots| == |ns|
    && forall i :: 0 <= i < |slots| ==>
         && (slots[i].IsValid() <==> ns[i].isValid)
         && (ns[i].isValid ==> slots[i].depth == ns[i].depth && slots[i].parentIndex == ns[i].parentIndex)
  }

  /** Live slot `i` holds the issue `at[i]`, perhaps with the one-time right used up. */
  ghost predicate Holds(slot: CapSlot, node: DerivationNode, log: seq<Issue>, k: nat) {
    && k < |log| && log[k].id == slot.token.id && log[k].capType == slot.token.capType
    && log[k].depth == node.depth && log[k].epoch == slot.token.epoch == node.epoch
    && slot.token.rights <= log[k].rights <= slot.token.rights + {GRANT_ONCE}
    && (GRANT !in log[k].rights && GRANT_ONCE in slot.token.rights ==>
          forall c :: 0 <= c < |log| ==> log[c].parent != Some(k))
  }

  ghost predicate Recorded(slots: seq<CapSlot>, ns: Nodes, log: seq<Issue>, at: seq<nat>) {
    && |at| == |ns| == |slots|
    && (forall i :: Live(ns, i) ==> Holds(slots[i], ns[i], log, at[i]))
    && (forall i, j :: Live(ns, i) && Live(ns, j) && at[i] == at[j] ==> i == j)
    && (forall i :: Live(ns, i) && ns[i].depth > 0 && Live(ns, ns[i].parentIndex) ==>
          log[at[i]].parent == Some(at[ns[i].parentIndex]))
  }

  /** Identifiers are handed out in increasing order. */
  ghost predicate FreshIds(log: seq<Issue>, nextId: nat) {
    && (forall j, k :: 0 <= j < k < |log| ==> log[j].id < log[k].id)
    && (forall k :: 0 <= k < |log| ==> log[k].id < nextId)
  }

  /** No live node still lists a revoked child. */
  ghost predicate Tidy(ns: Nodes, kids: seq<seq<nat>>) {
    forall i, c :: Live(ns, i) && i < |kids| && c in kids[i] ==> Live(ns, c)
  }

  /** A child other than the target goes only together with its parent. */
  lemma ParentDoomed(ns: Nodes, kids: seq<seq<nat>>, r: nat, i: nat, c: nat)
    requires Forest(ns, kids) && Live(ns, i) && c in kids[i] && Live(ns, c) && c != r
    ensures c in Doomed(ns, r) ==> i in Doomed(ns, r)
  {
    assert ChildList(ns, i, kids[i]);
  }

  /** In a tidy forest, revoking keeps it tidy exactly when the target is a root:
      then the whole tree dies and no live list passes a dead node. */
  lemma RevokeTidyIff(ns: Nodes, ns': Nodes, kids: seq<seq<nat>>, r: nat)
    requires Forest(ns, kids) && Tidy(ns, kids) && Live(ns, r) && Killed(ns, ns', Doomed(ns, r))
    ensures Tidy(ns', kids) <==> ns[r].depth == 0
  {
    if ns[r].depth > 0 {
      var p := ns[r].parentIndex;
      ParentLive(ns, kids, r);
      assert p !in Doomed(ns, r) by {
        if DescendsFrom(ns, p, r) { DescendDepth(ns, p, r); }
      }
      assert r in Doomed(ns, r);
      assert Live(ns', p) && r in kids[p] && !Live(ns', r);
    } else {
      forall i, c | Live(ns', i) && i < |kids| && c in kids[i] ensures Live(ns', c) {
        assert ChildList(ns, i, kids[i]) && Live(ns, c);
        ParentDoomed(ns, kids, r, i, c);
      }
    }
  }

  /** Epochs never fall on the way down from a live node's root. */
  ghost predicate EpochsOrdered(ns: Nodes, i: nat)
    decreases if i < |ns| then ns[i].depth else 0
  {
    Live(ns, i) && (ns[i].depth > 0 ==>
      Live(ns, ns[i].parentIndex) && ns[ns[i].parentIndex].depth < ns[i].depth
      && ns[ns[i].parentIndex].epoch <= ns[i].epoch && EpochsOrdered(ns, ns[i].parentIndex))
  }

  /** Epochs are at most the current one and never fall from parent to child. */
  ghost predicate Chronological(ns: Nodes, epoch: nat) {
    forall i :: Live(ns, i) ==>
      && ns[i].epoch <= epoch
      && (ns[i].depth > 0 && Live(ns, ns[i].parentIndex) ==> ns[ns[i].parentIndex].epoch <= ns[i].epoch)
  }

  lemma KilledChronological(ns: Nodes, ns': Nodes, dead: set<nat>, epoch: nat)
    requires Killed(ns, ns', dead)
    ensures Chronological(ns, epoch) ==> Chronological(ns', epoch)
  {}

  lemma {:induction false} ChronologicalOrders(ns: Nodes, kids: seq<seq<nat>>, epoch: nat, i: nat)
    requires Forest(ns, kids) && Chronological(ns, epoch) && Live(ns, i)
    ensures EpochsOrdered(ns, i)
    decreases ns[i].depth
  {
    if ns[i].depth > 0 {
      ParentLive(ns, kids, i);
      ChronologicalOrders(ns, kids, epoch, ns[i].parentIndex);
    }
  }

  /** The whole agreement between the parts of the manager. */
  ghost predicate Agreement(slots: seq<CapSlot>, ns: Nodes, log: seq<Issue>, at: seq<nat>, nextId: nat, maxDepth: nat) {
    && SameForest(slots, ns) && Recorded(slots, ns, log, at)
    && FreshIds(log, nextId) && Lineage(log, maxDepth) && OneChild(log)
  }

  lemma CreateAgrees(slots: seq<CapSlot>, ns: Nodes, kids: seq<seq<nat>>, log: seq<Issue>, at: seq<nat>, nextId: nat,
                     maxDepth: nat, c: nat, slot: CapSlot, epoch: nat)
    requires Agreement(slots, ns, log, at, nextId, maxDepth) && Forest(ns, kids) && c < |ns| && !Live(ns, c)
    requires slot.IsValid() && slot.depth == 0 && slot.parentIndex == U32_MAX
    requires slot.token.id == nextId && slot.token.epoch == epoch
    ensures
      var issue := Issue(nextId, None, |log|, slot.token.rights, slot.token.capType, 0, epoch);
      Agreement(slots[c := slot], RootAdded(ns, c, epoch), log + [issue], at[c := |log|], nextId + 1, maxDepth)
  {
    var issue := Issue(nextId, None, |log|, slot.token.rights, slot.token.capType, 0, epoch);
    ExtendLog(log, issue, maxDepth);
    NoChildYet(log + [issue], maxDepth);
    assert forall k :: 0 <= k < |log| ==> log[k] == (log + [issue])[k];
    hide Forest, Recorded, Lineage;
    CreateRecorded(slots, ns, kids, log, at, c, slot, issue, epoch);
  }

  lemma CreateRecorded(slots: seq<CapSlot>, ns: Nodes, kids: seq<seq<nat>>, log: seq<Issue>, at: seq<nat>, c: nat,
                       slot: CapSlot, issue: Issue, epoch: nat)
    requires Recorded(slots, ns, log, at) && Forest(ns, kids) && c < |ns| && !Live(ns, c)
    requires slot.token.id == issue.id && slot.token.capType == issue.capType && slot.token.rights == issue.rights
      && slot.token.epoch == epoch
    requires issue.parent == None && issue.depth == 0 && issue.epoch == epoch
    requires forall k :: 0 <= k < |log| ==> log[k].parent != Some(|log|)
    ensures Recorded(slots[c := slot], RootAdded(ns, c, epoch), log + [issue], at[c := |log|])
  {
    var slots', ns', log', at' := slots[c := slot], RootAdded(ns, c, epoch), log + [issue], at[c := |log|];
    forall i | Live(ns', i) ensures Holds(slots'[i], ns'[i], log', at'[i]) {
      if i != c {
        assert Holds(slots[i], ns[i], log, at[i]);
        HoldsExtended(slots[i], ns[i], log, issue, at[i]);
      }
    }
    forall i | Live(ns', i) && ns'[i].depth > 0 ensures i != c && Live(ns, ns[i].parentIndex) {
      ParentLive(ns, kids, i);
    }
  }

  lemma ExtendLog(log: seq<Issue>, issue: Issue, maxDepth: nat)
    requires Lineage(log, maxDepth)
    requires LinkOk(log + [issue], |log|, maxDepth)
    ensures Lineage(log + [issue], maxDepth)
  {
    forall k | 0 <= k < |log| + 1 ensures LinkOk(log + [issue], k, maxDepth) {
      if k < |log| { assert LinkOk(log, k, maxDepth); }
    }
  }

  /** The newest issue has no children. */
  lemma NoChildYet(log: seq<Issue>, maxDepth: nat)
    requires Lineage(log, maxDepth) && |log| > 0
    ensures forall c :: 0 <= c < |log| ==> log[c].parent != Some(|log| - 1)
  {
    forall c | 0 <= c < |log| ensures log[c].parent != Some(|log| - 1) { assert LinkOk(log, c, maxDepth); }
  }

  lemma HoldsExtended(slot: CapSlot, node: DerivationNode, log: seq<Issue>, issue: Issue, k: nat)
    requires Holds(slot, node, log, k) && issue.parent != Some(k)
    ensures Holds(slot, node, log + [issue], k)
  {}

  /** The source's slot after a grant. */
  function Spent(slot: CapSlot, consume: bool): CapSlot {
    if consume then slot.(token := slot.token.(rights := slot.token.rights - {GRANT_ONCE})) else slot
  }

  lemma GrantAgrees(slots: seq<CapSlot>, ns: Nodes, kids: seq<seq<nat>>, log: seq<Issue>, at: seq<nat>, nextId: nat,
                    maxDepth: nat, s: nat, c: nat, slot: CapSlot, requested: CapRights, g: Granted, epoch: nat)
    requires Agreement(slots, ns, log, at, nextId, maxDepth) && Forest(ns, kids)
    requires c < |ns| && !Live(ns, c) && s < |ns| && Live(ns, s)
    requires slot.IsValid() && slot.depth == g.depth && slot.parentIndex == s && slot.token == g.token
    requires ValidateGrant(slots[s], requested, nextId, epoch, maxDepth) == Ok(g)
    ensures
      var issue := Issue(nextId, Some(at[s]), log[at[s]].root, g.token.rights, g.token.capType, g.depth, epoch);
      Agreement(slots[c := slot][s := Spent(slots[s], g.consume)], ChildAdded(ns, s, c, g.depth, epoch),
                log + [issue], at[c := |log|], nextId + 1, maxDepth)
  {
    assert Holds(slots[s], ns[s], log, at[s]);
    var issue := Issue(nextId, Some(at[s]), log[at[s]].root, g.token.rights, g.token.capType, g.depth, epoch);
    hide Holds;
    ExtendLog(log, issue, maxDepth);
    NoChildYet(log + [issue], maxDepth);
    OneMoreChild(slots[s], ns[s], log, at[s], issue);
    GrantRecorded(slots, ns, kids, log, at, nextId, maxDepth, s, c, slot, requested, g, epoch);
  }

  /** Only an issue with GRANT gets a second child: without it the one-time right is still
      there, so no child was issued before. */
  lemma OneMoreChild(source: CapSlot, node: DerivationNode, log: seq<Issue>, k: nat, issue: Issue)
    requires OneChild(log) && Holds(source, node, log, k) && issue.parent == Some(k)
    requires forall a :: 0 <= a < |log| + 1 ==> (log + [issue])[a].parent != Some(|log|)
    requires GRANT in source.token.rights || GRANT_ONCE in source.token.rights
    ensures OneChild(log + [issue])
  {}

  lemma GrantRecorded(slots: seq<CapSlot>, ns: Nodes, kids: seq<seq<nat>>, log: seq<Issue>, at: seq<nat>, nextId: nat,
                      maxDepth: nat, s: nat, c: nat, slot: CapSlot, requested: CapRights, g: Granted, epoch: nat)
    requires Agreement(slots, ns, log, at, nextId, maxDepth) && Forest(ns, kids)
    requires c < |ns| && !Live(ns, c) && s < |ns| && Live(ns, s) && at[s] < |log|
    requires slot.IsValid() && slot.depth == g.depth && slot.parentIndex == s && slot.token == g.token
    requires ValidateGrant(slots[s], requested, nextId, epoch, maxDepth) == Ok(g)
    requires
      Lineage(log + [Issue(nextId, Some(at[s]), log[at[s]].root, g.token.rights, g.token.capType, g.depth, epoch)],
              maxDepth)
    ensures
      var issue := Issue(nextId, Some(at[s]), log[at[s]].root, g.token.rights, g.token.capType, g.depth, epoch);
      Recorded(slots[c := slot][s := Spent(slots[s], g.consume)], ChildAdded(ns, s, c, g.depth, epoch),
               log + [issue], at[c := |log|])
  {
    hide FreshIds, OneChild, LinkOk;
    var k := at[s];
    assert Holds(slots[s], ns[s], log, k);
    var issue := Issue(nextId, Some(k), log[k].root, g.token.rights, g.token.capType, g.depth, epoch);
    var slots', ns' := slots[c := slot][s := Spent(slots[s], g.consume)], ChildAdded(ns, s, c, g.depth, epoch);
    var log', at' := log + [issue], at[c := |log|];
    NoChildYet(log', maxDepth);
    hide Lineage;
    forall i | Live(ns', i) ensures Holds(slots'[i], ns'[i], log', at'[i]) {
      if i != c && i != s {
        assert Holds(slots[i], ns[i], log, at[i]);
        HoldsExtended(slots[i], ns[i], log, issue, at[i]);
      }
    }
    forall i | Live(ns', i) && ns'[i].depth > 0 && Live(ns', ns'[i].parentIndex)
      ensures log'[at'[i]].parent == Some(at'[ns'[i].parentIndex])
    {
      if i != c {
        ParentLive(ns, kids, i);
        assert log[at[i]].parent == Some(at[ns[i].parentIndex]);
      }
    }
  }

  /** Revocation leaves the survivors' records alone. */
  lemma RevokeAgrees(slots: seq<CapSlot>, ns: Nodes, kids: seq<seq<nat>>, log: seq<Issue>, at: seq<nat>, nextId: nat,
                     maxDepth: nat, slots': seq<CapSlot>, ns': Nodes, r: nat)
    requires Agreement(slots, ns, log, at, nextId, maxDepth)
    requires Killed(ns, ns', Doomed(ns, r)) && |slots'| == |slots|
    requires forall i :: 0 <= i < |slots| ==>
      slots'[i] == if i in Doomed(ns, r) then slots[i].Invalidate() else slots[i]
    ensures Agreement(slots', ns', log, at, nextId, maxDepth)
  {}

  // ---- the manager --------------------------------------------------------------------------

  class CapabilityManager {
    const table: CapabilityTable
    const tree: DerivationTree
    const maxDepth: nat
    var epoch: nat
    var nextId: nat
    /** Everything ever issued, and which issue each live slot holds. */
    ghost var log: seq<Issue>
    ghost var at: seq<nat>

    ghost predicate Valid()
      reads this, table, table.slots, tree, tree.nodes
    {
      && table.Valid() && tree.Valid() && maxDepth <= 255 && epoch <= U32_MAX
      && Agreement(table.slots[..], tree.nodes[..], log, at, nextId, maxDepth)
    }

    /** The slot the next insertion takes. */
    ghost function NextSlot(): nat
      reads table.slots
    {
      LowestFree(table.slots[..], 0)
    }

    /** What a caller must know before inserting: the slot is on no live child list. */
    ghost predicate NextSlotUnlinked()
      reads table.slots, tree, tree.nodes
    {
      Unlinked(tree.nodes[..], tree.kids, NextSlot())
    }

    constructor (capacity: nat, maxDepth: nat, epoch: nat)
      requires capacity < U32_MAX && maxDepth <= 255 && epoch <= U32_MAX
      ensures fresh(table) && fresh(table.slots) && fresh(tree) && fresh(tree.nodes)
      ensures Valid() && Tidy(tree.nodes[..], tree.kids) && Chronological(tree.nodes[..], this.epoch)
      ensures this.maxDepth == maxDepth && this.epoch == epoch && log == [] && nextId == 1
      ensures table.slots.Length == capacity && table.count == 0
      ensures forall k :: 0 <= k < capacity ==> !table.slots[k].IsValid()
    {
      table := new CapabilityTable(capacity);
      tree := new DerivationTree(capacity);
      this.maxDepth := maxDepth;
      this.epoch := epoch;
      nextId := 1;
      log := [];
      at := seq(capacity, _ => 0);
    }

    /** Creates a root capability in the lowest free slot. */
    method CreateRoot(capType: CapType, rights: CapRights, badge: nat, owner: PartitionId)
        returns (r: Result<(nat, nat), CapError>)
      requires Valid()
      modifies this, table, table.slots, tree, tree.nodes
      ensures epoch == old(epoch) && table.Valid()
      ensures r.Err? ==>
        && r == Err(TableFull) && Valid() && log == old(log) && at == old(at)
        && table.slots[..] == old(table.slots[..]) && tree.nodes[..] == old(tree.nodes[..])
           && tree.kids == old(tree.kids)
      ensures r.Err? <==> old(nextId) >= U64_MAX || old(table.count) == table.slots.Length
      ensures r.Ok? ==>
        var i, g := r.value.0, r.value.1;
        && i == old(NextSlot()) < table.slots.Length && g == GenOf(old(table.issued)[i])
        && table.slots[..] == old(table.slots[..])[i :=
             CapSlot(CapToken(old(nextId), capType, rights, epoch), g, owner, 0, U32_MAX, badge)]
        && tree.nodes[..] == RootAdded(old(tree.nodes[..]), i, epoch)
        && log == old(log) + [Issue(old(nextId), None, |old(log)|, rights, capType, 0, epoch)]
        && at == old(at)[i := |old(log)|] && nextId == old(nextId) + 1
        && (Valid() <==> old(NextSlotUnlinked()))
        && (old(Tidy(tree.nodes[..], tree.kids)) ==> Valid() && Tidy(tree.nodes[..], tree.kids))
        && (old(Chronological(tree.nodes[..], epoch)) && old(NextSlotUnlinked()) ==>
              Chronological(tree.nodes[..], epoch))
    {
      hide Forest, Counts, Recorded, FreshIds, Lineage, OneChild;
      if nextId >= U64_MAX {
        return Err(TableFull);
      }
      var id := nextId;
      nextId := nextId + 1;
      var token := CapToken(id, capType, rights, epoch);
      FreshIdsKept(log, id);
      RecordedShape(table.slots[..], tree.nodes[..], log, at);
      var inserted := table.Insert(token, owner, 0, U32_MAX, badge);
      if inserted.Err? {
        return Err(inserted.error);
      }
      var index, generation := inserted.value.0, inserted.value.1;
      assert !old(Live(tree.nodes[..], index));
      var added := tree.AddRoot(index, epoch);
      if added.Err? {
        assert false;
      }
      CreateAgrees(old(table.slots[..]), old(tree.nodes[..]), old(tree.kids), log, at, id, maxDepth, index,
                   table.slots[index], epoch);
      log := log + [Issue(id, None, |log|, rights, capType, 0, epoch)];
      at := at[index := |log| - 1];
      CreateTidy(old(tree.nodes[..]), old(tree.kids), index, epoch);
      return Ok((index, generation));
    }

    /** The checked path: only the hypervisor creates roots. */
    method CreateRootChecked(capType: CapType, rights: CapRights, badge: nat, owner: PartitionId, caller: PartitionId)
        returns (r: Result<(nat, nat), CapError>)
      requires Valid()
      modifies this, table, table.slots, tree, tree.nodes
      ensures epoch == old(epoch) && table.Valid()
      ensures r == Err(GrantNotPermitted) <==> caller != 0
      ensures r == Err(TableFull) <==>
        caller == HYPERVISOR && (old(nextId) >= U64_MAX || old(table.count) == table.slots.Length)
      ensures r.Err? ==>
        && r.error in {GrantNotPermitted, TableFull} && Valid() && log == old(log) && at == old(at)
        && table.slots[..] == old(table.slots[..]) && tree.nodes[..] == old(tree.nodes[..])
           && tree.kids == old(tree.kids)
      ensures r.Ok? ==>
        var i, g := r.value.0, r.value.1;
        && i == old(NextSlot()) < table.slots.Length && g == GenOf(old(table.issued)[i])
        && table.slots[..] == old(table.slots[..])[i :=
             CapSlot(CapToken(old(nextId), capType, rights, epoch), g, owner, 0, U32_MAX, badge)]
        && tree.nodes[..] == RootAdded(old(tree.nodes[..]), i, epoch)
        && log == old(log) + [Issue(old(nextId), None, |old(log)|, rights, capType, 0, epoch)]
        && at == old(at)[i := |old(log)|]
        && (Valid() <==> old(NextSlotUnlinked()))
        && (old(Tidy(tree.nodes[..], tree.kids)) ==> Valid() && Tidy(tree.nodes[..], tree.kids))
    {
      if caller != HYPERVISOR {
        return Err(GrantNotPermitted);
      }
      r := CreateRoot(capType, rights, badge, owner);
    }

    /** Derives a capability from a live one. A caller, when given, must own the source. */
    method Grant(sourceIndex: nat, sourceGeneration: nat, requested: CapRights, badge: nat, target: PartitionId,
                 caller: Option<PartitionId>) returns (r: Result<(nat, nat), CapError>)
      requires Valid()
      modifies this, table, table.slots, tree, tree.nodes
      ensures epoch == old(epoch) && table.Valid() && old(nextId) <= nextId <= old(nextId) + 1
      ensures r.Err? ==>
        && Valid() && log == old(log) && at == old(at)
        && table.slots[..] == old(table.slots[..]) && tree.nodes[..] == old(tree.nodes[..])
           && tree.kids == old(tree.kids)
      ensures r == old(GrantOutcome(sourceIndex, sourceGeneration, requested, caller))
      ensures r.Ok? ==>
        var i, g := r.value.0, r.value.1;
        var source := old(table.slots[sourceIndex]);
        var granted := ValidateGrant(source, requested, old(nextId), epoch, maxDepth).value;
        && sourceIndex < |old(at)| && old(at)[sourceIndex] < |old(log)|
        && i < table.slots.Length
        && table.slots[..] == old(table.slots[..])
             [i := CapSlot(granted.token, g, target, granted.depth, sourceIndex, badge)]
             [sourceIndex := Spent(source, granted.consume)]
        && tree.nodes[..] == ChildAdded(old(tree.nodes[..]), sourceIndex, i, granted.depth, epoch)
        && log == old(log) + [Issue(old(nextId), Some(old(at)[sourceIndex]), old(log)[old(at)[sourceIndex]].root,
                                    requested, source.token.capType, granted.depth, epoch)]
        && at == old(at)[i := |old(log)|]
        && (Valid() <==> old(NextSlotUnlinked()))
        && (old(Tidy(tree.nodes[..], tree.kids)) ==> Valid() && Tidy(tree.nodes[..], tree.kids))
        && (old(Chronological(tree.nodes[..], epoch)) && old(NextSlotUnlinked()) ==>
              Chronological(tree.nodes[..], epoch))
    {
      hide Forest, Counts, Recorded, FreshIds, Lineage, OneChild, GenOf, Tidy, Chronological;
      var looked := table.Lookup(sourceIndex, sourceGeneration);
      if looked.Err? {
        return Err(looked.error);
      }
      var source := looked.value;
      if caller.Some? && source.owner != caller.value {
        return Err(GrantNotPermitted);
      }
      if nextId >= U64_MAX {
        return Err(TableFull);
      }
      var id := nextId;
      nextId := nextId + 1;
      FreshIdsKept(log, id);
      RecordedShape(table.slots[..], tree.nodes[..], log, at);
      var checked := ValidateGrant(source, requested, id, epoch, maxDepth);
      if checked.Err? {
        return Err(checked.error);
      }
      var granted := checked.value;
      r := Derive(sourceIndex, sourceGeneration, source, requested, granted, id, badge, target);
    }

    /** The writes of a grant that passed its checks (lines 300-345). */
    method Derive(sourceIndex: nat, sourceGeneration: nat, source: CapSlot, ghost requested: CapRights,
                  granted: Granted, id: nat, badge: nat, target: PartitionId) returns (r: Result<(nat, nat), CapError>)
      requires Valid() && nextId == id + 1 && FreshIds(log, id)
      requires table.LookupOf(sourceIndex, sourceGeneration) == Ok(source)
      requires ValidateGrant(source, requested, id, epoch, maxDepth) == Ok(granted)
      modifies this, table, table.slots, tree, tree.nodes
      ensures epoch == old(epoch) && nextId == old(nextId) && table.Valid()
      ensures r.Err? ==>
        && r == Err(TableFull) && Valid() && log == old(log) && at == old(at)
        && table.slots[..] == old(table.slots[..]) && tree.nodes[..] == old(tree.nodes[..])
           && tree.kids == old(tree.kids)
      ensures r.Err? <==> old(NextSlot()) >= table.slots.Length
      ensures r.Ok? ==>
        var i, g := r.value.0, r.value.1;
        && i == old(NextSlot()) < table.slots.Length && g == GenOf(old(table.issued)[i])
        && sourceIndex < |old(at)| && old(at)[sourceIndex] < |old(log)|
        && table.slots[..] == old(table.slots[..])
             [i := CapSlot(granted.token, g, target, granted.depth, sourceIndex, badge)]
             [sourceIndex := Spent(source, granted.consume)]
        && tree.nodes[..] == ChildAdded(old(tree.nodes[..]), sourceIndex, i, granted.depth, epoch)
        && log == old(log) + [Issue(id, Some(old(at)[sourceIndex]), old(log)[old(at)[sourceIndex]].root,
                                    requested, source.token.capType, granted.depth, epoch)]
        && at == old(at)[i := |old(log)|]
        && (Valid() <==> old(NextSlotUnlinked()))
        && (old(Tidy(tree.nodes[..], tree.kids)) ==> Valid() && Tidy(tree.nodes[..], tree.kids))
        && (old(Chronological(tree.nodes[..], epoch)) && old(NextSlotUnlinked()) ==>
              Chronological(tree.nodes[..], epoch))
    {
      hide Forest, Counts, Recorded, FreshIds, Lineage, OneChild, GenOf, Tidy, Chronological, Unlinked, ValidUpTo;
      hide LowestFree;
      hide ChildAdded;
      RecordedShape(table.slots[..], tree.nodes[..], log, at);
      var inserted := table.Insert(granted.token, target, granted.depth, sourceIndex, badge);
      if inserted.Err? {
        return Err(inserted.error);
      }
      var index, generation := inserted.value.0, inserted.value.1;
      assert old(Live(tree.nodes[..], sourceIndex)) && !old(Live(tree.nodes[..], index));
      var added := tree.AddChild(sourceIndex, index, granted.depth, epoch);
      if added.Err? {
        // The rollback of lines 311-320: a live source in range is never refused.
        assert false;
      }
      if granted.consume {
        table.SetRights(sourceIndex, sourceGeneration, source.token.rights - {GRANT_ONCE});
      }
      assert table.slots[..] == old(table.slots[..])
        [index := CapSlot(granted.token, generation, target, granted.depth, sourceIndex, badge)]
        [sourceIndex := Spent(source, granted.consume)];
      GrantAgrees(old(table.slots[..]), old(tree.nodes[..]), old(tree.kids), log, at, id, maxDepth, sourceIndex, index,
                  CapSlot(granted.token, generation, target, granted.depth, sourceIndex, badge), requested, granted,
                  epoch);
      ForestShape(old(tree.nodes[..]), old(tree.kids));
      if old(Tidy(tree.nodes[..], tree.kids)) {
        GrantTidy(old(tree.nodes[..]), old(tree.kids), sourceIndex, index, epoch);
      }
      if old(Chronological(tree.nodes[..], epoch)) {
        GrantInOrder(old(tree.nodes[..]), old(tree.kids), sourceIndex, index, epoch);
      }
      log := log + [Issue(id, Some(at[sourceIndex]), log[at[sourceIndex]].root, requested, source.token.capType,
                          granted.depth, epoch)];
      at := at[index := |log| - 1];
      return Ok((index, generation));
    }

    /** The answer of `Grant`: the first failing check in source order, or the handle
        of the lowest free slot. */
    ghost function GrantOutcome(sourceIndex: nat, sourceGeneration: nat, requested: CapRights,
                                caller: Option<PartitionId>)
        : Result<(nat, nat), CapError>
      requires table.Valid()
      reads this, table, table.slots
    {
      var looked := table.LookupOf(sourceIndex, sourceGeneration);
      if looked.Err? then Err(looked.error)
      else if caller.Some? && looked.value.owner != caller.value then Err(GrantNotPermitted)
      else if nextId >= U64_MAX then Err(TableFull)
      else
        var checked := ValidateGrant(looked.value, requested, nextId, epoch, maxDepth);
        if checked.Err? then Err(checked.error)
        else if NextSlot() >= table.slots.Length then Err(TableFull)
        else Ok((NextSlot(), GenOf(table.issued[NextSlot()])))
    }

    /** Revokes a capability with everything derived from it, in tree and table. */
    method Revoke(index: nat, generation: nat) returns (r: Result<nat, CapError>)
      requires Valid()
      modifies this, table, table.slots, tree, tree.nodes
      ensures Valid() && epoch == old(epoch) && nextId == old(nextId) && log == old(log) && at == old(at)
      ensures r.Err? <==> old(table.LookupOf(index, generation)).Err?
      ensures r.Err? ==>
        && r.error == old(table.LookupOf(index, generation)).error
        && table.slots[..] == old(table.slots[..]) && tree.nodes[..] == old(tree.nodes[..])
           && tree.kids == old(tree.kids)
      ensures r.Ok? ==>
        var doomed := Doomed(old(tree.nodes[..]), index);
        && index in doomed && r.value == |doomed|
        && Killed(old(tree.nodes[..]), tree.nodes[..], doomed)
        && (forall i :: 0 <= i < table.slots.Length ==>
              table.slots[i] == if i in doomed then old(table.slots[i]).Invalidate() else old(table.slots[i]))
        && (old(Tidy(tree.nodes[..], tree.kids)) ==>
              (Tidy(tree.nodes[..], tree.kids) <==> old(tree.nodes[index]).depth == 0))
      ensures old(Chronological(tree.nodes[..], epoch)) ==> Chronological(tree.nodes[..], epoch)
    {
      hide Forest, Counts, Recorded, FreshIds, Lineage, OneChild, GenOf, DescendsFrom, Chronological, Tidy, Doomed;
      var looked := table.Lookup(index, generation);
      if looked.Err? {
        return Err(looked.error);
      }
      var revokedIndices := tree.CollectSubtree(index);
      ghost var doomed := Doomed(tree.nodes[..], index);
      var revoked := tree.Revoke(index);
      if revoked.Err? {
        assert false;
      }
      DoomedAreLive(old(tree.nodes[..]), index);
      ghost var slots := table.slots[..];
      forall k | 0 <= k < |revokedIndices| ensures Live(old(tree.nodes[..]), revokedIndices[k]) {
        assert revokedIndices[k] in doomed;
      }
      InvalidateAll(revokedIndices);
      RevokeAgrees(slots, old(tree.nodes[..]), tree.kids, log, at, nextId, maxDepth, table.slots[..], tree.nodes[..],
                   index);
      if old(Tidy(tree.nodes[..], tree.kids)) {
        RevokeTidyIff(old(tree.nodes[..]), tree.nodes[..], tree.kids, index);
      }
      KilledChronological(old(tree.nodes[..]), tree.nodes[..], doomed, epoch);
      return Ok(revoked.value);
    }

    /** Frees the table slots of a revoked subtree (lines 55-57 of `revoke.rs`). */
    method InvalidateAll(indices: seq<nat>)
      requires table.Valid() && NoRepeats(indices)
      requires forall k :: 0 <= k < |indices| ==> indices[k] < table.slots.Length && table.slots[indices[k]].IsValid()
      modifies table, table.slots
      ensures table.Valid() && table.issued == old(table.issued)
      ensures forall i :: 0 <= i < table.slots.Length ==>
        table.slots[i] == if i in indices then old(table.slots[i]).Invalidate() else old(table.slots[i])
    {
      hide Counts;
      for k := 0 to |indices|
        invariant table.Valid() && table.issued == old(table.issued)
        invariant forall i :: 0 <= i < table.slots.Length ==>
          table.slots[i] == if i in indices[..k] then old(table.slots[i]).Invalidate() else old(table.slots[i])
      {
        assert indices[..k + 1] == indices[..k] + [indices[k]];
        assert indices[k] !in indices[..k];
        table.ForceInvalidate(indices[k]);
      }
      assert indices[..|indices|] == indices;
    }

    /** Rotates the epoch. Order is kept as long as the 32-bit counter does not wrap. */
    method IncrementEpoch()
      requires Valid()
      modifies this
      ensures Valid() && epoch == (old(epoch) + 1) % 0x1_0000_0000
      ensures log == old(log) && at == old(at) && nextId == old(nextId)
      ensures old(Chronological(tree.nodes[..], epoch)) && old(epoch) < U32_MAX ==> Chronological(tree.nodes[..], epoch)
    {
      hide Forest, Counts, Recorded, FreshIds, Lineage, OneChild, SameForest;
      epoch := (epoch + 1) % 0x1_0000_0000;
    }

    /** P1: the handle is live, its epoch current and its rights sufficient. */
    method VerifyP1(index: nat, generation: nat, required: CapRights) returns (r: Result<(), ProofError>)
      requires Valid()
      ensures r.Ok? <==> P1Holds(index, generation, required)
      ensures r == Err(ProofError.InvalidHandle) <==> table.LookupOf(index, generation).Err?
      ensures r == Err(InsufficientRights) ==> table.LookupOf(index, generation).value.token.epoch == epoch
      ensures r == Err(StaleCapability) ==> table.LookupOf(index, generation).value.token.epoch != epoch
      ensures r.Err? ==> r.error in {ProofError.InvalidHandle, StaleCapability, InsufficientRights}
    {
      var looked := table.Lookup(index, generation);
      var epochMatch := looked.Ok? && looked.value.token.epoch == epoch;
      var rightsMatch := looked.Ok? && required <= looked.value.token.rights;
      if looked.Ok? && epochMatch && rightsMatch {
        return Ok(());
      } else if looked.Err? {
        return Err(ProofError.InvalidHandle);
      } else if !epochMatch {
        return Err(StaleCapability);
      } else {
        return Err(InsufficientRights);
      }
    }

    ghost predicate P1Holds(index: nat, generation: nat, required: CapRights)
      reads this, table.slots
    {
      var looked := table.LookupOf(index, generation);
      looked.Ok? && looked.value.token.epoch == epoch && required <= looked.value.token.rights
    }

    /** P3: walks a live capability up to its root. It accepts exactly the roots and the
        capabilities no deeper than `limit` whose epochs never fall on the way down. */
    method VerifyP3(index: nat, generation: nat, limit: nat) returns (r: Result<(), ProofError>)
      requires Valid() && limit <= 255
      ensures r.Ok? <==>
        && table.LookupOf(index, generation).Ok?
        && (tree.nodes[index].depth == 0 ||
            (tree.nodes[index].depth <= limit && EpochsOrdered(tree.nodes[..], index)))
      ensures r.Err? ==> r == Err(DerivationChainBroken)
    {
      hide Forest, Counts, Recorded, FreshIds, Lineage, OneChild, GenOf;
      var looked := table.Lookup(index, generation);
      if looked.Err? {
        return Err(DerivationChainBroken);
      }
      var node := tree.nodes[index];
      assert Live(tree.nodes[..], index);
      if node.depth == 0 {
        return Ok(());
      }
      DepthBounded(table.slots[..], tree.nodes[..], log, at, maxDepth, index);
      var currentDepth, currentEpoch, currentIndex := node.depth, node.epoch, index;
      var steps := 0;
      while true
        invariant Live(tree.nodes[..], currentIndex) && tree.nodes[currentIndex].depth == currentDepth > 0
        invariant tree.nodes[currentIndex].epoch == currentEpoch
        invariant steps + currentDepth == node.depth && (steps == 0 || steps <= limit)
        invariant EpochsOrdered(tree.nodes[..], index) <==> EpochsOrdered(tree.nodes[..], currentIndex)
        decreases currentDepth
      {
        assert steps + 1 <= 255;  // the `u8` counter does not overflow
        steps := steps + 1;
        if steps > limit {
          return Err(DerivationChainBroken);
        }
        var parent := tree.FindParent(currentIndex);
        if parent.None? {
          assert false;
        }
        var above := tree.nodes[parent.value];
        if above.depth >= currentDepth {
          assert false;
        }
        if above.epoch > currentEpoch {
          return Err(DerivationChainBroken);
        }
        if above.depth == 0 {
          return Ok(());
        }
        currentDepth, currentEpoch, currentIndex := above.depth, above.epoch, parent.value;
      }
    }

    /** Without an epoch wrap P3 accepts every live handle within the depth limit. */
    lemma P3WithoutWrap(index: nat)
      requires Valid() && Chronological(tree.nodes[..], epoch) && Live(tree.nodes[..], index)
      ensures EpochsOrdered(tree.nodes[..], index)
    {
      ChronologicalOrders(tree.nodes[..], tree.kids, epoch, index);
    }
  }

  lemma ForestShape(ns: Nodes, kids: seq<seq<nat>>)
    requires Forest(ns, kids)
    ensures |kids| == |ns| < U32_MAX
  {}

  lemma DoomedAreLive(ns: Nodes, r: nat)
    ensures forall c :: c in Doomed(ns, r) ==> Live(ns, c)
    ensures Live(ns, r) ==> r in Doomed(ns, r)
  {}

  lemma DepthBounded(slots: seq<CapSlot>, ns: Nodes, log: seq<Issue>, at: seq<nat>, maxDepth: nat, i: nat)
    requires Recorded(slots, ns, log, at) && Lineage(log, maxDepth) && Live(ns, i)
    ensures ns[i].depth <= maxDepth
  {
    assert Holds(slots[i], ns[i], log, at[i]);
    assert LinkOk(log, at[i], maxDepth);
  }

  lemma GrantTidy(ns: Nodes, kids: seq<seq<nat>>, p: nat, c: nat, epoch: nat)
    requires |kids| == |ns| && Live(ns, p) && c < |ns| && !Live(ns, c) && Tidy(ns, kids)
    ensures Unlinked(ns, kids, c)
    ensures Tidy(ChildAdded(ns, p, c, ns[p].depth + 1, epoch), kids[c := []][p := [c] + kids[p]])
  {
    var ns', kids' := ChildAdded(ns, p, c, ns[p].depth + 1, epoch), kids[c := []][p := [c] + kids[p]];
    forall i, x | Live(ns', i) && x in kids'[i] ensures Live(ns', x) {
      if i == p {
        assert x == c || (x in kids[p] && Live(ns, p) && Live(ns, x));
      } else if i != c {
        assert x in kids[i] && Live(ns, i) && Live(ns, x);
      }
    }
  }

  lemma GrantInOrder(ns: Nodes, kids: seq<seq<nat>>, p: nat, c: nat, epoch: nat)
    requires Forest(ns, kids) && Live(ns, p) && c < |ns| && !Live(ns, c)
    requires Chronological(ns, epoch)
    ensures Chronological(ChildAdded(ns, p, c, ns[p].depth + 1, epoch), epoch)
  {
    forall i | Live(ns, i) && ns[i].depth > 0 ensures Live(ns, ns[i].parentIndex) {
      ParentLive(ns, kids, i);
    }
    hide Forest;
  }

  lemma RecordedShape(slots: seq<CapSlot>, ns: Nodes, log: seq<Issue>, at: seq<nat>)
    requires Recorded(slots, ns, log, at)
    ensures |at| == |ns| == |slots| && forall i :: Live(ns, i) ==> at[i] < |log|
  {}

  lemma FreshIdsKept(log: seq<Issue>, id: nat)
    ensures FreshIds(log, id) ==> FreshIds(log, id + 1)
  {}

  lemma CreateTidy(ns: Nodes, kids: seq<seq<nat>>, c: nat, epoch: nat)
    requires Forest(ns, kids) && c < |ns| && !Live(ns, c)
    ensures Tidy(ns, kids) ==> Unlinked(ns, kids, c) && Tidy(RootAdded(ns, c, epoch), kids[c := []])
    ensures Chronological(ns, epoch) && Unlinked(ns, kids, c) ==> Chronological(RootAdded(ns, c, epoch), epoch)
  {
    forall i | Live(ns, i) && ns[i].depth > 0 ensures Live(ns, ns[i].parentIndex) {
      ParentLive(ns, kids, i);
    }
    if Tidy(ns, kids) {
      var ns', kids' := RootAdded(ns, c, epoch), kids[c := []];
      forall i, x | Live(ns', i) && x in kids'[i] ensures Live(ns', x) {
        assert x in kids[i] && Live(ns, i) && Live(ns, x);
      }
    }
  }

  // ---- the depth limit is reached ---------------------------------------------------------------

  /** The first `used` slots are live and the last of them holds a capability with GRANT,
      `used - 1` levels below its root. */
  ghost predicate ChainOf(slots: seq<CapSlot>, used: nat) {
    && 0 < used <= |slots| && (forall k :: 0 <= k < |slots| ==> (slots[k].IsValid() <==> k < used))
    && slots[used - 1].depth == used - 1 && slots[used - 1].token.rights == {GRANT}
  }

  /** A delegation chain may be as long as the limit says: from a root with GRANT, `maxDepth`
      grants, each from the one before, all succeed, and the next is refused for its depth. */
  method DeepestChain(maxDepth: nat) returns (manager: CapabilityManager, refused: Result<(nat, nat), CapError>)
    requires maxDepth <= 255
    ensures manager.Valid() && manager.maxDepth == maxDepth && |manager.log| == maxDepth + 1
    ensures manager.log[maxDepth].depth == maxDepth && ChainOf(manager.table.slots[..], maxDepth + 1)
    ensures refused == Err(DelegationDepthExceeded)
  {
    hide CapabilityManager.Valid, CapabilityTable.Valid, Tidy, LowestFree, ChildAdded, RootAdded, GenOf;
    manager := new CapabilityManager(maxDepth + 2, maxDepth, 0);
    NextIs(manager, 0);
    var last := manager.CreateRoot(Context, {GRANT}, 0, HYPERVISOR);
    for depth := 0 to maxDepth
      invariant fresh(manager) && fresh(manager.table) && fresh(manager.table.slots)
      invariant fresh(manager.tree) && fresh(manager.tree.nodes)
      invariant manager.Valid() && manager.table.Valid() && Tidy(manager.tree.nodes[..], manager.tree.kids)
      invariant manager.maxDepth == maxDepth && manager.table.slots.Length == maxDepth + 2
      invariant manager.nextId <= depth + 2 && |manager.log| == depth + 1 && manager.log[depth].depth == depth
      invariant ChainOf(manager.table.slots[..], depth + 1)
      invariant last.Ok? && last.value.0 == depth && manager.table.LookupOf(depth, last.value.1).Ok?
    {
      NextIs(manager, depth + 1);
      last := manager.Grant(depth, last.value.1, {GRANT}, 0, HYPERVISOR, None);
    }
    refused := manager.Grant(maxDepth, last.value.1, {GRANT}, 0, HYPERVISOR, None);
  }

  lemma NextIs(manager: CapabilityManager, used: nat)
    requires used < manager.table.slots.Length
    requires forall k :: 0 <= k < manager.table.slots.Length ==> (manager.table.slots[k].IsValid() <==> k < used)
    ensures manager.NextSlot() == used
  {
    LowestFreeFrom(manager.table.slots[..], 0, used);
  }
}
