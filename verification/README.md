# Formal model of the RVM coherence, capability, context and anchor cores

This project models, in Dafny 4.11, the stateful cores of RVM, a partitioning hypervisor with
capability-governed context storage, and proves what their code does on all inputs and over all runs.
`dafny verify dfyconfig.toml` checks the whole project.

| files | what they model |
|---|---|
| `Cuts`, `MinCut`, `MinCutBridge` | the budgeted Stoer-Wagner minimum cut over a neighbourhood of the coherence graph |
| `EdgeLists`, `Graph` | the graph: edge array, intrusive lists, adjacency matrix, cached sums |
| `Engine` | scores, pressure and recommendations |
| `CapTable`, `Derivation`, `CapManager`, `Nonce` | capability table, derivation forest, grants, revocation, proof checks, nonce ring |
| `Authority` | scoped context capabilities over the capability manager |
| `Witness`, `Merkle`, `Bytes`, `Receipt`, `ReceiptStore`, `Drainer` | witness ring, epoch receipts, their durable chain, and the sealing protocol |
| `Utf16Order`, `Jcs`, `JcsCodec`, `JcsGrammar`, `JcsLexemes` | canonical JSON (RFC 8785, sections 3.2.2 and 3.2.3; string syntax of RFC 8259, section 7) |
| `AliasStore` | objects, aliases, two outboxes and the vector index that follows them |
| `Types` | identifiers and small set lemmas |

Code that updates state in place is a class or a method over arrays with the same fields, branches, scan
orders and integer widths; its contract ties the new state to functions and predicates about which lemmas
are proved. 64-bit saturation, 32-bit wrap-around and the clamps are written out. Hash functions,
signatures and digests are function values of which a proof assumes only what it states (a signer that
accepts its own signatures). No hash is assumed to be free of collisions, which none into 32 bytes is: what rests on
a digest is stated as a lemma that finds the collision where the result fails. Ghost fields keep histories:
everything ever issued by a capability manager, accepted by a nonce verifier, appended to a witness log
or stored as a receipt.

## Where the code is not what one might expect

Each point is a proved lemma or contract named in the table below.

- A minimum cut of weight `u64::MAX` or more is never found: within budget the code then puts everything on
  one side (`MinCut.StoerWagnerMinCut`, `MinCut.SaturatedPairCut`), and over budget it reports weight `u64::MAX`
  with the group of node 0, exactly when no phase so far beat that weight (`MinCut.PartialExactly`). The comment at mincut.rs:4-6 speaks of the last known cut
  when the budget runs out; the code stores the partial cut of the run that ran out.
- Cached sums and matrix stay true exactly while the true sums fit in 64 bits (`Graph.TotalsIff`).
  Decay is exact only up to `u64::MAX / 10000`, so a decay of zero is not a no-op for larger weights
  (`Graph.DecayExactIff`). `find_directed_edge` misses edges of weight zero, so a second edge is then
  created for the pair; `record_communication` clamps a repeated weight to `i64::MAX`.
- `MergeRecommended` cannot come out of a tick that recomputes on an agreeing graph, not even after saturation: the
  decay at its start cuts every weight below a ten-thousandth of `u64::MAX` (`Engine.CoherenceEngine.Tick`,
  `Engine.DecayMakesRoom`). Right after a message, before any tick, it can (`Engine.MergeBeforeTick`).
- Reusing a slot that a live parent still lists destroys the derivation forest, and a regrant can put a child
  after itself (`Derivation.AddChildIff`, `Derivation.RegrantLoops`). Only revoking roots never leads there
  (`CapManager.RevokeTidyIff`).
- A nonce still in the ring passes again after a colliding one, although the comment at verify.rs:299-301 describes ring membership
  as rejection (`Nonce.ReplayAfterCollision`). The guard of the watermark against an all-empty ring never fires.
- The second scan of `find_free_slot`, both grant rollbacks, the entry-table-full branch of `add_partition`,
  the witness log's sequence mismatch and the decoding errors of a stored cursor or receipt are unreachable.
- A Merkle root alone does not tell an odd list from the same list with its last record twice (`Merkle.RepeatedLast`);
  the receipt commits the count beside it.
- `forget` removes every object of a name, but `put` does not consult aliases: the same bytes can be stored
  under a tombstoned name again and read by their pinned name. The alias itself stays a tombstone.

## Model

| member | source | states |
|---|---|---|
| MinCut.MinimumCutPhase | crates/rvm-coherence/src/mincut.rs:304-355 | For a symmetric matrix and at least two active nodes: the pair returned is distinct and active, the weight is that of the cut isolating the last node, and no cut that separates the two weighs less, also where the 64-bit sums saturate. |
| Cuts.CutOfPhaseIsMinimal | crates/rvm-coherence/src/mincut.rs:304-355 | Along any maximum-adjacency order the last node's own cut is at most every cut that separates it from the node before it. |
| Cuts.MergePreservesCut | crates/rvm-coherence/src/mincut.rs:274-283 | Merging two nodes (saturating) changes the capped weight of no cut that keeps them together. |
| Cuts.MergeKeepsSide | crates/rvm-coherence/src/mincut.rs:274-283 | A side with both merged nodes weighs the same before and after the merge. |
| MinCut.MergeNodes | crates/rvm-coherence/src/mincut.rs:274-280 | The in-place row and column update is the merge the proofs are about and keeps the matrix symmetric. |
| MinCut.ContractStep | crates/rvm-coherence/src/mincut.rs:267-290 | After a merge the working matrix is again the contraction of the original graph, with the owners of the absorbed node redirected. |
| MinCut.BestStep | crates/rvm-coherence/src/mincut.rs:267-273 | After a phase the best weight so far bounds every cut of the original graph that separates any two nodes merged so far. |
| MinCut.BestCutStep | crates/rvm-coherence/src/mincut.rs:267-290 | The recorded best weight stays the true weight, in the original graph, of the cut given by the recorded node's group, although later phases go on merging. |
| MinCut.FirstGroup | crates/rvm-coherence/src/mincut.rs:245-290 | While several super-nodes are left, the group of node 0 is a proper side: the side reported when no phase beat the initial best. |
| MinCut.RunPartial | crates/rvm-coherence/src/mincut.rs:250-298 | After any number of phases the recorded side is proper unless the run is complete and found nothing, its weight is the true one, and the weight bounds every cut that parts two nodes merged so far. |
| MinCut.PartialExactly | crates/rvm-coherence/src/mincut.rs:250-298 | A phase beats the initial best exactly when some cut that parts two merged nodes is below u64::MAX; one phase suffices when every node's total weight is. |
| MinCut.FullRun | crates/rvm-coherence/src/mincut.rs:250-298 | After all phases the weight is at most every proper cut, and below u64::MAX exactly when some proper cut is. |
| MinCut.MergePhase | crates/rvm-coherence/src/mincut.rs:264-292 | One phase keeps the whole run invariant and removes exactly one active node. |
| MinCut.PidsOfSplit | crates/rvm-coherence/src/mincut.rs:358-384 | The partitions of a side and of its complement are together exactly the collected ones, as multisets. |
| MinCut.BuildResult | crates/rvm-coherence/src/mincut.rs:358-384 | Left and right list the group of the cut node and its complement, in order, nothing lost. |
| MinCut.StoerWagnerMinCut | crates/rvm-coherence/src/mincut.rs:221-299 | For every symmetric matrix: Ok exactly when the budget is at least n-1, and then a global minimum, found exactly when some proper cut is below u64::MAX. Over budget the two sides are always non-empty, the weight bounds every cut parting two nodes merged so far, and it is the true weight of the split whenever it is below u64::MAX, as it is after one phase if every node's total weight is. The side with node 0 is the reported group exactly when nothing below u64::MAX was found; with budget 0 it is node 0 alone. |
| MinCut.SaturatedPairCut | crates/rvm-coherence/src/mincut.rs:245-298 | Two nodes joined by weight u64::MAX: within budget the code returns everything on the left and nothing on the right, although either node alone is a minimum cut. |
| Bridge.FullCollection | crates/rvm-coherence/src/mincut.rs:112-158 | Stopping the collection at 32 nodes loses nothing while the graph has at most 32. |
| Bridge.Collect | crates/rvm-coherence/src/mincut.rs:112-158 | The two scans, through the out-list and through all edges, collect the root and exactly its neighbours in either direction, each once. |
| Bridge.LocalMatrix | crates/rvm-coherence/src/mincut.rs:174-192 | The local matrix holds the two-way weights among the collected nodes and is symmetric. |
| Bridge.MinCutBridge.FindMinCut | crates/rvm-coherence/src/mincut.rs:104-208 | From graph to cut: the neighbourhood is complete, and all that holds of the matrix run, over budget and within, holds of the reported split and the true weights between the collected nodes; the budget flag and counters are exact. |
| EdgeLists.AddLinked | crates/rvm-coherence/src/graph.rs:195-226 | Prepending an edge keeps every node's linked list a list of exactly its active outgoing edges, each once. |
| EdgeLists.RemoveLinked | crates/rvm-coherence/src/graph.rs:477-511 | Unlinking one edge keeps all lists, that edge taken out of its own. |
| EdgeLists.RowTotalIsOutgoing | crates/rvm-coherence/src/graph.rs:205-222 | The pair sums of one row add up to the outgoing total of its node. |
| EdgeLists.ColumnTotalIsIncoming | crates/rvm-coherence/src/graph.rs:205-222 | The pair sums of one column add up to the incoming total. |
| Graph.SumsAfter | crates/rvm-coherence/src/graph.rs:205-257 | How one edge's change moves every pair, row and column sum of active weights. |
| Graph.TotalsIff | crates/rvm-coherence/src/graph.rs:205-257 | After a saturating update of matrix and caches they still equal the true sums exactly when the new sums fit in 64 bits. |
| Graph.CachesAreMargins | crates/rvm-coherence/src/graph.rs:88-106 | Matrix and caches that equal their sums over edges agree with each other: the caches are row and column totals. |
| Graph.DecayExactIff | crates/rvm-coherence/src/graph.rs:439-464 | One edge's decay is the exact product over 10000 exactly when the result is at most u64::MAX / 10000; above that the saturating product makes even a decay of zero shrink the weight. |
| Graph.CoherenceGraph.constructor | crates/rvm-coherence/src/graph.rs:110-121 | A new graph satisfies the whole agreement. |
| Graph.CoherenceGraph.FindNode | crates/rvm-coherence/src/graph.rs:384-400 | The direct-mapped lookup with its fallback agrees with a linear scan. |
| Graph.CoherenceGraph.AddNode | crates/rvm-coherence/src/graph.rs:136-155 | Takes the lowest free node, refuses duplicates and a full table, keeps every agreement. |
| Graph.CoherenceGraph.AddEdge | crates/rvm-coherence/src/graph.rs:195-226 | Takes the lowest free edge, puts it at the head of its list; caches and matrix stay true exactly when the sums fit. |
| Graph.CoherenceGraph.UpdateWeight | crates/rvm-coherence/src/graph.rs:229-257 | The clamped new weight, and caches that stay true exactly when the sums fit. |
| Graph.CoherenceGraph.RemoveEdgeByIndex | crates/rvm-coherence/src/graph.rs:477-511 | Removes one edge from list, matrix and caches; nothing else changes. |
| Graph.CoherenceGraph.RemoveNode | crates/rvm-coherence/src/graph.rs:158-192 | Deactivates exactly the edges touching the node and keeps every agreement. |
| Graph.CoherenceGraph.DecayWeights | crates/rvm-coherence/src/graph.rs:439-464 | Every edge decays, zero ones are pruned, and as many as the result says: the edges left and the pruned ones are the edges before; every agreement is kept. |
| Graph.CoherenceGraph.EdgeWeightBetween | crates/rvm-coherence/src/graph.rs:338-348 | Reads the two-way pair weight off the matrix. |
| Graph.CoherenceGraph.TotalWeight | crates/rvm-coherence/src/graph.rs:302-310 | Reads a node's total off the two caches. |
| Graph.CoherenceGraph.QueriesAreTrue | crates/rvm-coherence/src/graph.rs:302-348 | In an agreeing graph both queries are the sums over the edges they stand for. |
| Graph.CoherenceGraph.Neighbors | crates/rvm-coherence/src/graph.rs:286-295 | The iterator yields exactly the targets of the node's active outgoing edges. |
| Graph.CoherenceGraph.FindDirectedEdge | crates/rvm-coherence/src/graph.rs:356-378 | With true caches it finds an edge exactly when the pair weight is positive, so it misses edges of weight zero. |
| Engine.ScoreAndPressure | crates/rvm-coherence/src/pressure.rs:62-85 | Score and pressure add up to 10000 basis points, or 9999 exactly when the division leaves a remainder. |
| Engine.PressureExactly | crates/rvm-coherence/src/pressure.rs:62-85 | Pressure is the floor, in basis points, of the share of the total that is not internal, for all totals. |
| Engine.RatiosExactly | crates/rvm-coherence/src/pressure.rs:93-122 | Score and mutual coherence are the floors of their ratios for all totals, as 16 bits and the limit of 10000 show them. |
| Engine.MutualHalf | crates/rvm-coherence/src/pressure.rs:93-122 | Mutual coherence never exceeds 5000 basis points without saturation. |
| Engine.SaturatedMutual | crates/rvm-coherence/src/pressure.rs:93-122 | With saturated totals it reaches 10000. |
| Engine.LowPressureNoMerge | crates/rvm-coherence/src/engine.rs:307-376 | Two partitions at or below the split threshold have mutual coherence of at most 3000 basis points. |
| Engine.SharedInGraph | crates/rvm-coherence/src/graph.rs:302-348 | The totals of two nodes of a graph meet the hypotheses of these bounds. |
| Engine.MutualBounds | crates/rvm-coherence/src/pressure.rs:93-122 | Both bounds for the queries on an agreeing graph. |
| Engine.ComputeCutPressure | crates/rvm-coherence/src/pressure.rs:62-85 | Pressure, external weight and split flag from the graph queries. |
| Engine.ComputeCoherenceScore | crates/rvm-coherence/src/scoring.rs:35-57 | The score, complementary to the pressure on an agreeing graph. |
| Engine.EvaluateMerge | crates/rvm-coherence/src/pressure.rs:93-122 | Mutual coherence and the merge flag. |
| Engine.CoherenceEngine.AddPartition | crates/rvm-coherence/src/engine.rs:172-192 | Entries and graph nodes stay in one-to-one step; the entry-table-full branch is unreachable. |
| Engine.CoherenceEngine.RemovePartition | crates/rvm-coherence/src/engine.rs:195-208 | Removes the node and its entry together. |
| Engine.CoherenceEngine.RecordCommunication | crates/rvm-coherence/src/engine.rs:218-239 | Adds the weight to the directed pair and changes no other pair, also when sums saturate; a repeated weight above i64::MAX is clamped. |
| Engine.CoherenceEngine.Recommend | crates/rvm-coherence/src/engine.rs:307-376 | A split whenever some entry is over 8000, of the first hottest entry; otherwise the first best merge if one reaches 4000; otherwise no action. |
| Engine.DecayMakesRoom | crates/rvm-coherence/src/engine.rs:255-280 | The saturating decay leaves so little weight on each edge that no two nodes' totals can saturate after it. |
| Engine.CoherenceEngine.Tick | crates/rvm-coherence/src/engine.rs:255-280 | Keeps 9500 of 10000 of every weight, recomputes when asked, and then decides, with or without recomputation: a split exactly when an entry is over 8000, of the first hottest one, else the first best merge from 4000 on, else nothing. On a recomputing tick of an agreeing graph it never recommends a merge, whatever the weights were. |
| Engine.OneMessageMutual | crates/rvm-coherence/src/pressure.rs:93-122 | Two partitions whose only traffic is one message have mutual coherence 5000, more once the sums saturate, and 10000 at weight u64::MAX. |
| Engine.MergeBeforeTick | crates/rvm-coherence/src/engine.rs:307-376 | Without recomputation merges do come out: a new engine with two partitions and one message of any weight recommends merging them. |
| CapTable.CycleStep | crates/rvm-cap/src/table.rs:86-116 | Generations of a slot run 1, 2, ..., 2^32-2 and start again at 1. |
| CapTable.InvalidateExactly | crates/rvm-cap/src/table.rs:86-116 | Freeing a slot clears its generation, keeps everything else, and the next allocation of it gets the next number, 1 after the last. |
| CapTable.GenerationsReturn | crates/rvm-cap/src/table.rs:86-116 | Two allocations of a slot share a generation exactly when a multiple of 2^32-2 allocations lies between them. |
| CapTable.CapabilityTable.Insert | crates/rvm-cap/src/table.rs:187-237 | Takes the lowest free index with the next generation of that slot, fails exactly when full. |
| CapTable.CapabilityTable.FindFreeSlot | crates/rvm-cap/src/table.rs:332-346 | The hinted scan finds the lowest free slot; its second half never finds anything. |
| CapTable.CapabilityTable.Lookup | crates/rvm-cap/src/table.rs:246-259 | A handle resolves exactly to the slot's latest allocation. |
| CapTable.CapabilityTable.Remove | crates/rvm-cap/src/table.rs:288-306 | Frees the slot of a current handle, which is dead from then on. |
| CapTable.CapabilityTable.ForceInvalidate | crates/rvm-cap/src/table.rs:309-318 | Frees a slot whatever its generation, keeps counts and the hint. |
| Derivation.AddRootIff | crates/rvm-cap/src/derivation.rs:128-136 | Inserting a root keeps the forest exactly when no live child list passes the slot. |
| Derivation.AddChildIff | crates/rvm-cap/src/derivation.rs:144-170 | The same for a child. |
| Derivation.ReuseLosesChild | crates/rvm-cap/src/derivation.rs:128-136 | Reusing a slot still listed by a live parent cuts a live sibling off. |
| Derivation.RegrantLoops | crates/rvm-cap/src/derivation.rs:144-170 | Granting, revoking and granting again makes a child its own sibling: its parent has no finite child list. |
| Derivation.WalkStep | crates/rvm-cap/src/derivation.rs:227-268 | Popping a node and pushing its live children keeps the walk on course for all and only the descendants. |
| Derivation.DerivationTree.PushChildren | crates/rvm-cap/src/derivation.rs:250-268 | The child loop pushes every live child: the N-sized stack never drops one. |
| Derivation.DerivationTree.AddRoot | crates/rvm-cap/src/derivation.rs:128-136 | The new links, and the forest kept exactly when the slot is unlinked. |
| Derivation.DerivationTree.AddChild | crates/rvm-cap/src/derivation.rs:144-170 | The child at the head of its parent's list, and the forest kept exactly when the slot is unlinked. |
| Derivation.DerivationTree.CollectSubtree | crates/rvm-cap/src/derivation.rs:227-269 | Collects the node and exactly its transitive live descendants, each once. |
| Derivation.DerivationTree.Revoke | crates/rvm-cap/src/derivation.rs:178-187 | Kills exactly the node and its descendants, returns their number, changes no other node, keeps the forest. |
| Derivation.DerivationTree.RevokeSubtree | crates/rvm-cap/src/derivation.rs:323-367 | The in-place walk terminates and kills exactly the descendants while walking lists it is invalidating. |
| Derivation.DerivationTree.FindParent | crates/rvm-cap/src/derivation.rs:279-315 | Answers with the recorded parent, which is live and one level up; in a forest the search by child lists is never reached. |
| CapManager.ValidateGrant | crates/rvm-cap/src/grant.rs:55-96 | Passes exactly with GRANT or GRANT_ONCE, a subset of the rights and depth left below the limit and 255, each error otherwise exactly; the token has the requested rights, the type of the source, one level deeper, and uses up a one-time right exactly when plain GRANT is missing. |
| CapManager.Attenuated | crates/rvm-cap/src/grant.rs:55-96 | Over the whole history, rights are a subset of the root's rights at creation, with the root's type and a depth within the limit. |
| CapManager.OneAtEachDepth | crates/rvm-cap/src/manager.rs:276-342 | Under a root without GRANT at most one capability is ever issued at each depth. |
| CapManager.SinglePath | crates/rvm-cap/src/manager.rs:276-342 | A root without GRANT has over the whole run a single path of at most max_depth descendants. |
| CapManager.DeepestChain | crates/rvm-cap/src/grant.rs:55-96 | The bound is attained: for every depth limit up to 255, that many successive grants from a root succeed, and only the next one exceeds the depth. |
| CapManager.RevokeTidyIff | crates/rvm-cap/src/derivation.rs:345-363 | Revoking leaves no dead node on a live list exactly when the target is a root. |
| CapManager.CreateAgrees | crates/rvm-cap/src/manager.rs:198-217 | Table, tree and history agree after a root is created. |
| CapManager.GrantAgrees | crates/rvm-cap/src/manager.rs:276-342 | They agree after a grant, with the one-time right of the source used up. |
| CapManager.RevokeAgrees | crates/rvm-cap/src/revoke.rs:37-60 | They agree after a revocation. |
| CapManager.ChronologicalOrders | crates/rvm-cap/src/verify.rs:246-290 | With epochs that never fall from parent to child, no ancestor of a live node is newer than its descendant. |
| CapManager.CapabilityManager.CreateRoot | crates/rvm-cap/src/manager.rs:198-217 | A root in the lowest free slot; the invariant survives exactly when that slot is unlinked. |
| CapManager.CapabilityManager.CreateRootChecked | crates/rvm-cap/src/manager.rs:183-195 | Only the hypervisor creates roots. |
| CapManager.CapabilityManager.Grant | crates/rvm-cap/src/manager.rs:276-342 | The first failing check decides the error, nothing changes then; otherwise child, source and history as specified, the new identifier within 64 bits. The rollback branch is unreachable. |
| CapManager.CapabilityManager.Revoke | crates/rvm-cap/src/manager.rs:349-359 | Kills exactly the target and its descendants in table and tree alike, returns their number, changes no other slot. |
| CapManager.CapabilityManager.InvalidateAll | crates/rvm-cap/src/revoke.rs:50-59 | The loop frees exactly the collected slots. |
| CapManager.CapabilityManager.IncrementEpoch | crates/rvm-cap/src/manager.rs:150-153 | Rotates the epoch; order of epochs is kept as long as the counter does not wrap. |
| CapManager.CapabilityManager.VerifyP1 | crates/rvm-cap/src/verify.rs:104-148 | Passes exactly for a live handle of the current epoch with the rights, and reports the first missing one. |
| CapManager.CapabilityManager.VerifyP3 | crates/rvm-cap/src/verify.rs:217-295 | Accepts a live root, or a live handle within the depth limit whose epochs never fall on the way down; the u8 step counter does not overflow. |
| CapManager.CapabilityManager.P3WithoutWrap | crates/rvm-cap/src/verify.rs:217-295 | Without an epoch wrap the epoch part always holds. |
| Nonce.LatestAfter | crates/rvm-cap/src/verify.rs:306-348 | The hash index remembers the newest accepted nonce of each residue class mod 4096. |
| Nonce.AcceptsExactly | crates/rvm-cap/src/verify.rs:306-320 | A nonzero nonce passes exactly when it is above the watermark and every earlier acceptance of it was followed by one of another nonce congruent to it modulo 4096. |
| Nonce.WatermarkExactly | crates/rvm-cap/src/verify.rs:323-348 | The watermark is zero until 4096 nonces were accepted, and then the least of the last full block of 4096. |
| Nonce.NoPlainReplay | crates/rvm-cap/src/verify.rs:306-348 | Between two acceptances of a nonce some different accepted nonce of the same class lies. |
| Nonce.ReplayAfterCollision | crates/rvm-cap/src/verify.rs:306-320 | 1, 4097, 1 are all accepted: a nonce still in the ring can pass again. |
| Nonce.WatermarkRises | crates/rvm-cap/src/verify.rs:323-348 | The watermark strictly rises with every 4096 accepted nonces. |
| Nonce.NeverTwiceRunning | crates/rvm-cap/src/verify.rs:306-348 | The same nonce is never accepted twice in a row. |
| Nonce.ProofVerifier.CheckNonce | crates/rvm-cap/src/verify.rs:306-320 | Decides by watermark and class what the history of acceptances says. |
| Nonce.ProofVerifier.MarkNonce | crates/rvm-cap/src/verify.rs:323-348 | Ring, index and watermark after the nonce are those of the longer history. |
| Nonce.ProofVerifier.VerifyP2 | crates/rvm-cap/src/verify.rs:161-199 | Passes exactly when all policy conditions hold, and uses up the nonce only then. |
| Authority.ContainsIffAllowsMore | crates/rvm-context/src/capability.rs:287-307 | A scope contains another exactly when it allows every target and operation the other allows. |
| Authority.OneRightOpens | crates/rvm-context/src/capability.rs:87-99 | READ alone opens exactly the six reading operations, WRITE the three writing ones, and so on right by right; verifying needs READ and PROVE. |
| Authority.ViewsExactly | crates/rvm-context/src/capability.rs:122-142 | Which disclosed views an operation needs, view by view. |
| Authority.EveryLinkSanctions | crates/rvm-context/src/capability.rs:621-664 | Every issue on the line behind an allow has the rights of the operation and allows the target: a line with a link that lacks WRITE backs no put, no alias update and no forget. |
| Authority.LineSanctions | crates/rvm-context/src/capability.rs:621-664 | What a capability's scope and rights allow, every ancestor's scope and rights allow, up to a hypervisor-issued root of the same era. |
| Authority.BindingsFit | crates/rvm-context/src/capability.rs:487-509 | There are never more bindings than live slots. |
| Authority.RetainedFacts | crates/rvm-context/src/capability.rs:502-509 | Pruning keeps exactly the bindings of live identifiers, still one each. |
| Authority.IssueBound | crates/rvm-context/src/capability.rs:565-587 | Binding a new capability keeps bindings and live slots in step. |
| Authority.RevokeBound | crates/rvm-context/src/capability.rs:671-675 | So does revoking and pruning. |
| Authority.ContextAuthority.Bind | crates/rvm-context/src/capability.rs:487-500 | All four outcomes of binding an identifier. |
| Authority.ContextAuthority.RoomToBind | crates/rvm-context/src/capability.rs:582-585 | With at least as many binding places as slots, a free slot means a free binding place. |
| Authority.ContextAuthority.IssueRoot | crates/rvm-context/src/capability.rs:565-587 | Only for the hypervisor; scope, owner and era recorded; the rollback is unreachable. |
| Authority.ContextAuthority.Delegate | crates/rvm-context/src/capability.rs:621-664 | Denied exactly unless the caller owns a bound live source with GRANT of this era; refused when the scope widens; the rollback is unreachable. |
| Authority.ContextAuthority.Revoke | crates/rvm-context/src/capability.rs:671-675 | The whole lineage below goes, and exactly its bindings; the revoked issue is held by no live slot any more, and like every other operation this brings no such issue back. |
| Authority.ContextAuthority.RetainLive | crates/rvm-context/src/capability.rs:502-509 | The pruning loop computes exactly the live bindings. |
| Authority.ContextAuthority.IncrementEpoch | crates/rvm-context/src/capability.rs:678-681 | Ends the era: no earlier capability is bound any more, even if the 32-bit epoch later repeats. |
| Authority.LiveLineHeld | crates/rvm-context/src/capability.rs:683-775 | In a forest every issue that a live slot's capability descends from is itself held by a live slot. |
| Authority.ContextAuthority.GoneAuthorizesNothing | crates/rvm-context/src/capability.rs:671-775 | Once an issue is held by no live slot, no capability that descends from it authorizes anything. |
| Authority.ContextAuthority.ShapeErrorExactly | crates/rvm-context/src/capability.rs:694-721 | Which error names a request of the wrong operation, a missing or superfluous revision, or another wrong shape. |
| Authority.ContextAuthority.CheckCapability | crates/rvm-context/src/capability.rs:724-757 | The checks on the capability one after the other decide exactly whether it is live, of this epoch, with the rights, of this actor, bound, and with a scope that allows the target; the token is known exactly once it is proven. |
| Authority.ContextAuthority.Authorize | crates/rvm-context/src/capability.rs:683-775 | Allows exactly the shaped requests of the owner of a live capability of this era whose scope allows the target and whose rights suffice, right by right; each allow is backed by the whole issuance line, every link of which is still held; each decision appends one record, which names the token once it is proven and the handle otherwise. |
| Witness.ChainSplit | crates/rvm-witness/src/log.rs:173-192 | Chaining two adjacent ranges is chaining the whole. |
| Witness.SuffixChained | crates/rvm-witness/src/replay.rs:62-99 | Every suffix of a chain is a chain from its own checkpoint. |
| Witness.VerifyChainFrom | crates/rvm-witness/src/replay.rs:62-99 | Accepts exactly the non-empty chains from the given hash and number; otherwise names the first record that does not link, and whether it is out of place or corrupted. |
| Witness.WitnessLog.Append | crates/rvm-witness/src/log.rs:173-192 | Adds one stamped record to the history; the ring keeps the newest records of it. |
| Witness.WitnessLog.SnapshotSince | crates/rvm-witness/src/log.rs:257-302 | Returns everything since a checkpoint exactly when at most a ring of records follows it; the sequence mismatch is unreachable. |
| Merkle.LevelUp | crates/rvm-context/src/receipt.rs:646-664 | Pairing one level lowers the recursive tree by one and keeps its root. |
| Merkle.ReduceInPlace | crates/rvm-context/src/receipt.rs:636-666 | The in-place reduction computes the root of the recursive tree that repeats a missing right half. |
| Merkle.RootCollision | crates/rvm-context/src/receipt.rs:636-666 | Two different lists of equally many leaves with equal roots: a level and a place in their two trees where different pairs have the same parent, found by the lemma. |
| Merkle.RepeatedLast | crates/rvm-context/src/receipt.rs:650-656 | For an odd number of leaves, repeating the last gives the same root, so the number must be committed separately. |
| Bytes.LeRound | crates/rvm-context/src/receipt.rs:349-367 | Little-endian writing is undone by reading. |
| Bytes.ToLeByte | crates/rvm-context/src/receipt.rs:349-367 | Byte k of a number is its k-th digit to the base 256. |
| Bytes.LayoutOf | crates/rvm-context/src/receipt.rs:349-367 | Data that shows every field at its offset is the layout of the fields. |
| Receipt.EncodeUnsigned | crates/rvm-context/src/receipt.rs:349-367 | The buffer filled at fixed offsets is the layout of the fields. |
| Receipt.WireBegins | crates/rvm-context/src/receipt.rs:349-367 | The first eight bytes: RUCR, version 1, two zeros. |
| Receipt.ToBytes | crates/rvm-context/src/receipt.rs:422-428 | The 352-byte form. |
| Receipt.FromBytes | crates/rvm-context/src/receipt.rs:439-495 | Accepts exactly framed data whose range, count and time bounds are sound; each refusal with its cause. |
| Receipt.WireRoundTrip | crates/rvm-context/src/receipt.rs:422-495 | Decoding undoes encoding for every sound receipt. |
| Receipt.WireCanonical | crates/rvm-context/src/receipt.rs:422-495 | Encoding undoes decoding: no receipt has a second wire form. |
| Receipt.AcceptedExactly | crates/rvm-context/src/receipt.rs:439-495 | What decodes is exactly the set of wire forms of sound receipts. |
| Receipt.TimeBounds | crates/rvm-context/src/receipt.rs:668-678 | The tightest bounds of the timestamps. |
| Receipt.MerkleRoot | crates/rvm-context/src/receipt.rs:636-666 | The committed root of a list of records. |
| Receipt.RootCollides | crates/rvm-context/src/receipt.rs:636-666 | Root and count determine the records, except for a collision the lemma finds: two different records at one index with one leaf digest, or different pairs at one place with one parent. |
| Receipt.ReceiptCollides | crates/rvm-context/src/receipt.rs:305-327 | Two different lists of records that one receipt stands for hold such a collision. |
| Receipt.VerifyRecords | crates/rvm-context/src/receipt.rs:305-327 | Passes exactly the records a receipt stands for; each refusal with its cause, a broken chain with the first record that does not link. |
| Receipt.Seal | crates/rvm-context/src/receipt.rs:220-265 | Succeeds exactly for a non-empty chain from the checkpoint that is not too long; the receipt is sound and stands for those records; each refusal with its cause. |
| Receipt.SignedVerifies | crates/rvm-context/src/receipt.rs:331-418 | What an honest signer signs verifies under it, and is a signer mismatch under a verifier of another name. |
| Receipt.UnsignedInjective | crates/rvm-context/src/receipt.rs:349-398 | Different sound receipts have different signed bytes. |
| Receipt.SignatureBinds | crates/rvm-context/src/receipt.rs:341-418 | Under a signer that accepts a signature for one digest only, exchanging the receipt under a signature that still verifies is a collision of the signing digest on two different byte strings. |
| Receipt.VerifySuccessor | crates/rvm-context/src/receipt.rs:556-586 | Passes exactly the receipt that links to the previous one by identifier, epoch, sequence and folded chain hash. |
| Receipt.GenesisExactly | crates/rvm-context/src/receipt.rs:523-542 | The first receipt has epoch, sequence and chain hash zero and 32 zero bytes for its predecessor. |
| ReceiptStore.EncodeCursor | crates/rvm-context-service/src/receipt_store.rs:65-72 | The 56-byte cursor. |
| ReceiptStore.CursorRoundTrip | crates/rvm-context-service/src/receipt_store.rs:65-86 | The cursor written is the cursor read. |
| ReceiptStore.StartsWhereCovered | crates/rvm-context-service/src/receipt_store.rs:121-214 | Every stored receipt starts where the earlier ones end, on the chain hash folded from zero. |
| ReceiptStore.TilesOnce | crates/rvm-context-service/src/receipt_store.rs:121-214 | Each sequence number below the cursor lies in exactly one stored receipt: no gap, no overlap. |
| ReceiptStore.DurableReceiptStore.AdmissibleIff | crates/rvm-context-service/src/receipt_store.rs:121-214 | The separate checks together say that the longer list is a receipt chain with exactly that cursor. |
| ReceiptStore.DurableReceiptStore.FitsChain | crates/rvm-context-service/src/receipt_store.rs:169-203 | Genesis into an empty store, otherwise the successor of the decoded newest receipt; each refusal with its cause. |
| ReceiptStore.DurableReceiptStore.AppendVerified | crates/rvm-context-service/src/receipt_store.rs:121-214 | Succeeds exactly when receipt and cursor are admissible and the transaction commits; refused calls change nothing and name the cause; the epochs stored are always 0..k-1. |
| ReceiptStore.DurableReceiptStore.Cursor | crates/rvm-context-service/src/receipt_store.rs:221-231 | The stored cursor always decodes and belongs to the stored chain. |
| Drainer.SealedHistoryCollides | crates/rvm-context/src/runtime.rs:699-761 | The stored receipts determine every sealed record: where two histories they stand for differ, the lemma finds the receipt that covers the record and a collision in the trees of its range. |
| Drainer.PreparedAdmissible | crates/rvm-context/src/runtime.rs:699-761 | What the runtime prepares, the store admits, provided the newest receipt verifies with the same signer. |
| Drainer.FewerThanCovered | crates/rvm-context/src/runtime.rs:718-722 | There are no more epochs than records, so the epoch counter never overflows. |
| Drainer.ActionExactly | crates/rvm-context/src/capability.rs:103-121 | Which action the record of a successful operation shows, operation by operation. |
| Drainer.ContextRuntime.Perform | crates/rvm-context/src/runtime.rs:316-333 | A resolver operation is done exactly when authorized and completed, each refusal with its cause; it leaves one record, or two when its outcome is recorded, and the whole second record is stated: action, actor, target, token, time. |
| Drainer.ContextRuntime.SealFromLog | crates/rvm-context/src/receipt.rs:274-297 | Seals everything unsealed exactly when the ring still holds it. |
| Drainer.ContextRuntime.PrepareSeal | crates/rvm-context/src/runtime.rs:699-745 | With an honest signer, fails only for lack of authority, another identity, or a backlog beyond the ring or the epoch limit, and says which. |
| Drainer.ContextRuntime.CompleteSeal | crates/rvm-context/src/runtime.rs:746-760 | Records the seal, the whole record stated, in the next epoch and moves the cursor. |
| Drainer.ReceiptDrainer.Admit | crates/rvm-context-service/src/receipt_drainer.rs:67-89 | Admits exactly below a threshold that leaves two ring slots. |
| Drainer.ReceiptDrainer.Serve | crates/rvm-context-service/src/receipt_drainer.rs:67-89 | A request that is not admitted leaves the log alone, one that is admitted is performed and succeeds exactly as the runtime decides; the backlog stays within the threshold plus one plus the failed seals. |
| Drainer.ReceiptDrainer.SealEpoch | crates/rvm-context-service/src/receipt_drainer.rs:98-141 | After any attempt the two cursors agree; with few enough failures before it an authorized seal never finds records overwritten and is refused by nothing but a failing commit. |
| Utf16Order.EncodingInjective | crates/rvm-anchor/src/jcs.rs:152-154 | Different strings have different UTF-16 encodings. |
| Utf16Order.EncodeAppend | crates/rvm-anchor/src/jcs.rs:152-154 | The encoding of a string is the encodings of its characters one after the other. |
| Utf16Order.KeyBeforeIff | crates/rvm-anchor/src/jcs.rs:152-154 | A key comes before another exactly when its code units are a proper prefix of the other's or the first unit that differs is smaller (RFC 8785, section 3.2.3). |
| Utf16Order.KeysTotal | crates/rvm-anchor/src/jcs.rs:152-154 | The key order is a strict total order. |
| Utf16Order.SortAscending | crates/rvm-anchor/src/jcs.rs:170-172 | Sorting distinct keys puts them in strictly ascending order. |
| Utf16Order.SortStable | crates/rvm-anchor/src/jcs.rs:176-178 | Sorting keeps the order of the members that share a key. |
| Utf16Order.AscendingUnique | crates/rvm-anchor/src/jcs.rs:170-172 | The sorted order is determined by the members. |
| Jcs.ValueRound | crates/rvm-anchor/src/jcs.rs:219-412 | The parser reads back a canonical text wherever it stands in a document, or reports the duplicate key if there is one. |
| Jcs.MembersInKeyOrder | crates/rvm-anchor/src/jcs.rs:175-189 | The canonical text of an object prints all its members, none after one with a greater key by UTF-16 code units, those of one key in their old order. |
| Jcs.RoundTrip | crates/rvm-anchor/src/jcs.rs:77-148 | parse(canonicalize(v)) is v with keys in order exactly when no object has a key twice, and the duplicate-key error otherwise. |
| Jcs.NormalIffSame | crates/rvm-anchor/src/jcs.rs:156-190 | Normal forms coincide exactly for values equal up to key order. |
| Jcs.CanonicalIffSame | crates/rvm-anchor/src/jcs.rs:142-190 | Two values have the same canonical text exactly when they are equal up to key order. |
| Jcs.CanonicalTextIsFixed | crates/rvm-anchor/src/jcs.rs:77-148 | Canonicalizing any accepted text gives an accepted text of the same meaning that is its own canonical text. |
| Jcs.DocumentOf | crates/rvm-anchor/src/jcs.rs:77-86 | Whatever is accepted has distinct keys at every depth. |
| JcsGrammar.ValueSound | crates/rvm-anchor/src/jcs.rs:219-412 | Whatever is read at a position is spelled by the tokens there. |
| JcsGrammar.ValueComplete | crates/rvm-anchor/src/jcs.rs:219-412 | Whatever value with distinct keys the tokens at a position spell is read there. |
| JcsGrammar.AcceptedIff | crates/rvm-anchor/src/jcs.rs:77-86 | A text is accepted as a value exactly when its tokens, white space aside, spell that value and no object of it has a key twice. |
| JcsGrammar.SameTokensSameValue | crates/rvm-anchor/src/jcs.rs:77-86 | Texts that differ only in the white space between their tokens are both accepted, as the same value, or both refused. |
| JcsLexemes.SpaceExactly | crates/rvm-anchor/src/jcs.rs:213-217 | Skipping white space passes exactly spaces, tabs, line feeds and carriage returns. |
| JcsLexemes.NumberExactly | crates/rvm-anchor/src/jcs.rs:247-274 | A number is read as an integer exactly where the one decimal form of that integer stands by itself. |
| JcsLexemes.NumberMalformed | crates/rvm-anchor/src/jcs.rs:247-274 | Malformed, rather than out of the integers, is exactly a missing digit or a leading zero. |
| JcsLexemes.UnicodeRead | crates/rvm-anchor/src/jcs.rs:300-352 | What four hexadecimal digits, or two such groups of a surrogate pair, are read as is the character whose UTF-16 code units they denote. |
| JcsLexemes.EscapeExactly | crates/rvm-anchor/src/jcs.rs:284-337 | A backslash is read as a character exactly when what follows spells it: by a letter, by the digits of its unit, or by those of its surrogate pair. |
| JcsLexemes.StringExactly | crates/rvm-anchor/src/jcs.rs:276-337 | A string is read exactly up to a quotation mark before which its characters are spelled, raw or escaped. |
| JcsLexemes.EscapePrinted | crates/rvm-anchor/src/jcs.rs:193-211 | The printer writes a character as itself whenever it may, else by its letter if it has one, else by four digits in lower case; what it writes spells that character. |
| JcsCodec.WriteCanonical | crates/rvm-anchor/src/jcs.rs:156-190 | The recursive printer with its sorting loop appends exactly the canonical text. |
| JcsCodec.WriteEscaped | crates/rvm-anchor/src/jcs.rs:193-211 | The string printer appends exactly the quoted form. |
| JcsCodec.ParseNumber | crates/rvm-anchor/src/jcs.rs:247-274 | The scanning loop yields the integer or the right refusal. |
| JcsCodec.ParseHex4 | crates/rvm-anchor/src/jcs.rs:339-352 | Four hexadecimal digits or a bad escape. |
| JcsCodec.ParseString | crates/rvm-anchor/src/jcs.rs:276-337 | The character loop with escapes and surrogate pairs. |
| JcsCodec.ParseArray | crates/rvm-anchor/src/jcs.rs:354-375 | The item loop. |
| JcsCodec.ParseObject | crates/rvm-anchor/src/jcs.rs:377-412 | The member loop with its duplicate check. |
| JcsCodec.Parse | crates/rvm-anchor/src/jcs.rs:77-86 | The whole document, trailing data refused. |
| AliasStore.UncheckedRemovalBreaks | crates/rvm-context-service/src/resolver.rs:384-408 | Dropping a job that was replaced since it was read would leave the index wrong with nothing pending. |
| AliasStore.DrainedIndex | crates/rvm-context-service/src/resolver.rs:339-360 | With an empty outbox the index holds exactly the live aliases at their present points. |
| AliasStore.WithinIffInside | crates/rvm-context-service/src/resolver.rs:808-815 | One name is within another exactly when every context scope that allows searching the other also allows searching it: authority, tenant, subject, collection and path prefix. |
| AliasStore.ForgetKeeps | crates/rvm-context-service/src/resolver.rs:692-772 | The forget transaction keeps outbox, aliases, objects and index consistent. |
| AliasStore.AdvanceKeeps | crates/rvm-context-service/src/resolver.rs:595-690 | So does the alias transaction. |
| AliasStore.PersistentContextResolver.Apply | crates/rvm-context-service/src/active_index.rs:47-65 | Breaking off anywhere inside the index update violates nothing while the job is pending. |
| AliasStore.PersistentContextResolver.RemoveJobIfUnchanged | crates/rvm-context-service/src/resolver.rs:384-408 | Removes a job only if it is still the one applied. |
| AliasStore.PersistentContextResolver.DrainIndexJobs | crates/rvm-context-service/src/resolver.rs:339-360 | Repeatable after a break anywhere; empties the outbox when it gets through. |
| AliasStore.PersistentContextResolver.DrainPurgeJobs | crates/rvm-context-service/src/resolver.rs:362-382 | A purge job goes only after the sink confirmed it; all go exactly when the sink confirms all. |
| AliasStore.PersistentContextResolver.Put | crates/rvm-context-service/src/resolver.rs:540-593 | Stores under the content hash, never replaces; a conflict means that different bytes of the same digest were stored under the key before; each refusal exactly with its cause. |
| AliasStore.PersistentContextResolver.NextSnapshot | crates/rvm-context-service/src/resolver.rs:595-674 | What a swap would write and exactly when: a versionless target, a stored object that compiles, the alias as expected below the last generation; each refusal with its cause. |
| AliasStore.PersistentContextResolver.CompareAndSwapAlias | crates/rvm-context-service/src/resolver.rs:595-690 | Succeeds exactly from the expected snapshot, to a stored revision, one generation up, never from a tombstone, within the table; otherwise nothing changes and the error names the cause. |
| AliasStore.PersistentContextResolver.Forget | crates/rvm-context-service/src/resolver.rs:692-772 | Succeeds exactly from the expected live snapshot; the tombstone and its revision are final, exactly the objects of that name go, erasure and purge are queued or done; each refusal with its cause. |
| AliasStore.PersistentContextResolver.Reopen | crates/rvm-context-service/src/resolver.rs:88-124 | Opening replays the index outbox before anything is served. |
| AliasStore.PersistentContextResolver.ResolvedFor | crates/rvm-context-service/src/resolver.rs:241-264 | A live alias always finds its object; tombstones and unknown names are told apart. |
| AliasStore.PersistentContextResolver.SearchIndex | crates/rvm-context-service/src/active_index.rs:67-86 | Distinct points below the root, all of them unless the limit is reached. |
| AliasStore.PersistentContextResolver.Search | crates/rvm-context-service/src/resolver.rs:440-497 | After the replay no hit is skipped as forgotten or refused as stale or out of scope; every hit is allowed by every scope that allows the target; with room every live alias below the root is found; a pinned target gives its own hit; query and limit bounds are exact. |

## Left out

- Authority.ContextAuthority.IssueRoot: states what holds up to and including an insertion into a slot some live parent still lists (the invariant then fails, exactly); runs beyond that insertion are not modelled, since there the source's own walks need not end.
- Authority.ContextAuthority.Delegate: the same limit on runs; `bind_existing`, an administrative path that binds capabilities issued elsewhere, is left out, and at least as many binding places as table slots are assumed.
- CapManager.CapabilityManager.CreateRoot: the statistics counters and the mode without derivation tracking are left out; the epoch of the proof verifier is the manager's.
- CapManager.CapabilityManager.VerifyP1: the constant-time fail mask is a plain conjunction.
- Nonce.ProofVerifier.VerifyP2: the six policy flags are evaluated without the constant-time accumulation.
- Graph.CoherenceGraph.Neighbors: the lazy iterator is the list it yields.
- Engine.CoherenceEngine.Tick: the adaptive interval and the pluggable backends are a parameter that says whether this tick recomputes.
- Bridge.MinCutBridge.FindMinCut: optional sub-node slots are a sequence; the fixed result arrays are sequences of partitions.
- Witness.WitnessLog.Append: the lock and the signing variant are left out; two to the 64th appends are excluded.
- Receipt.Seal: SHA-256 and SHAKE-256 are function values; the RVF witness entry is left out.
- ReceiptStore.DurableReceiptStore.AppendVerified: of the database only the atomic commit is modelled, as a flag that says whether it succeeds.
- Drainer.ContextRuntime.Perform: the resolver call is its outcome; the runtime's grant and revoke entry points, which combine this with delegation or revocation, are not modelled as one method, and neither are restarts with a fresh ring.
- Drainer.ReceiptDrainer.SealEpoch: the persistence callback is the store call itself.
- JcsCodec.Parse: texts are sequences of Unicode scalar values, so UTF-8 decoding is left out; all syntax is ASCII, where positions move alike.
- JcsCodec.WriteCanonical: the library's integer formatting and stable sort are the functions `Integer` and `Sort`, with their properties proved.
- AliasStore.PersistentContextResolver.SearchIndex: distances and ranking are left out, so which hits a reached limit drops is open.
- AliasStore.PersistentContextResolver.Put: encryption at rest is the identity and the byte codecs of aliases and jobs are left out.
- Enumeration (`list`, `tree`, `history`), profile verification, embeddings, the capacity limits of the index library (they appear as faults), URI parsing, the RVF container, GPU, boot, WASM and gateway code.
- Concurrency beyond one owner at a time: the mutexes and the single `&mut` owner make calls sequential.
