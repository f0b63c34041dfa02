# Procedure detection over an interprocedural control-flow graph

This project models Reko's procedure-boundary detector, `ProcedureDetector`. The detector
takes the interprocedural control-flow graph (ICFG) that the scanner built from a binary,
and the set of addresses known to start procedures. It cuts that graph into clusters
(proto-procedures) that each have a single entry. Its pipeline, and the Dafny that models
each stage:

1. **Sever call edges.** Every edge into a known procedure is deleted
   (`ProcedureDetector.RemoveJumpsToKnownProcedures`).
2. **Collect components.** The call-aware weakly connected components become one cluster
   each (`FindClusters`, `BuildWCC`). The walk never follows an edge forward into a known
   procedure. It never walks backward out of one.
3. **Pick entries.** The first rule that yields a block wins: the cluster's known
   procedures, else its blocks without predecessors, else its lowest block
   (`FindClusterEntries`, specified by `EntryRules.ChooseEntries`).
4. **Prune dead blocks.** Non-entry blocks without predecessors leave the cluster
   (`PruneDeadNodes`, specified by `Pruning.Dead`).
5. **Fuse.** One sweep runs from the highest block down. A block absorbs its only
   successor when that successor has no other predecessor and starts where the block ends
   (`FuseBlocks`, specified by `Fusion.FuseSweep`).
6. **Split multi-entry clusters.** A synthetic root is joined to the entries, and
   immediate dominators are computed. Each block goes to the first block on its dominator
   chain that the root immediately dominates. New entries without successors that were
   not entries before become shared exits. One cluster per surviving new entry is returned,
   in address order (`PartitionIntoSubclusters`, specified by `Partitioning`).

The modules, one file each:

| module | contents |
|---|---|
| `Blocks` | `Node` (a real block known by its address, or the synthetic root), instructions and their lengths, the address order |
| `Graph` | the `Icfg` class: nodes, edges, a table of each block's instructions and its shared-exit flag |
| `Results` | `Outcome`: the dictionary look-ups that throw in the original |
| `Events` | the polled cancellation flag |
| `Dominators` | the immediate-dominator map, by the properties the detector relies on |
| `Components` | the walk relation and what a component is |
| `EntryRules` | the three-tier entry rule |
| `Pruning` | the dead-block rule |
| `Fusion` | one fusion and one sweep, on graph values |
| `Chains` | why one descending sweep collapses a whole fall-through chain |
| `Partitioning` | the assignment of blocks to new entries, and shared exits |
| `Scanning` | the `Cluster` and `ProcedureDetector` classes |

The original mutates one shared graph in place, so the model does too. `Icfg`, `Cluster`
and `ProcedureDetector` are classes, and the detector's methods carry loops with their
invariants. Each state-changing method is tied to a function of the old state:
- `FuseBlocks` to `Fusion.FuseSweep`;
- `AddRoot` to `Partitioning.WithRoot`;
- `FindClusterEntries` to `ChooseEntries`;
- `PruneDeadNodes` to `Dead`.

`AssignBlocks` changes nothing. It builds the dictionary from new entries to blocks, and
its result is tied to `Partitioning.Members`.

The lemmas beside those functions prove what the detector promises.

The model follows the code as written in these places:
- Dead-block pruning takes blocks out of the cluster only. They stay in the graph.
- Fusion takes the absorbed block out of the graph only. It stays in the cluster's block
  set.
- As a result, a cluster with several entries in which any block was absorbed still lists
  that block. The dominator look-up for it then fails. `PartitionIntoSubclusters` states
  this: a block outside the graph makes the result `MissingDominator`.
- A known address with no block makes the index look-up throw and ends the run. The model
  returns `MissingBlock`.
- Each dictionary look-up that can throw is modelled as an `Outcome`:
  - the block index, `ProcedureDetector.cs:86`;
  - the dominator map, `ProcedureDetector.cs:318` and `ProcedureDetector.cs:330`.
- The dominator map covers only the blocks the synthetic root reaches. A block of a
  multi-entry cluster that only unreached blocks lead into makes the look-up throw. One
  case: a block whose only predecessor was pruned as dead, since that predecessor stays in
  the graph but is not joined to the root. `Partitioning.SealedBlockFails` states this.

Cancellation is polled as in the original. The listener may answer yes at any moment, and
once it has said yes it keeps saying yes. A run canceled before it starts produces no
procedures.

## Model

| member | source | states |
|---|---|---|
| Blocks.Compare | src/Decompiler/Scanning/ProcedureDetector.cs:121-129 | the comparer's sign: negative, zero or positive exactly when the first block's address is below, equal to or above the second's; zero only for the same block |
| Blocks.MinBlock | src/Decompiler/Scanning/ProcedureDetector.cs:252 | `Blocks.Min()` is a block of the set whose address is no greater than any other block's |
| Blocks.Ascending | src/Decompiler/Scanning/ProcedureDetector.cs:357-358 | enumerating a sorted set lists each of its blocks exactly once, and nothing else |
| Blocks.AscendingSorted | src/Decompiler/Scanning/ProcedureDetector.cs:357-358 | the enumeration is strictly ascending by address |
| Blocks.Descending | src/Decompiler/Scanning/ProcedureDetector.cs:380 | the reversed enumeration lists each block exactly once, and nothing else |
| Blocks.DescendingSorted | src/Decompiler/Scanning/ProcedureDetector.cs:380 | the reversed enumeration is strictly descending by address |
| Blocks.SortedByCompare | src/Decompiler/Scanning/ProcedureDetector.cs:121-129 | a sorted set built with the comparer enumerates its blocks in strictly increasing comparer order, and its reverse in strictly decreasing order |
| Blocks.TotalLengthAppend | src/Decompiler/Scanning/ProcedureDetector.cs:394 | appending instructions adds their lengths |
| Blocks.ContiguousEnd | src/Decompiler/Scanning/ProcedureDetector.cs:390-394 | a block followed by the block that starts at its end address ends where the second one ends |
| Graph.Succ | src/Decompiler/Scanning/ProcedureDetector.cs:173 | definition of the ICFG's successor query: the targets of the node's outgoing edges |
| Graph.Pred | src/Decompiler/Scanning/ProcedureDetector.cs:87 | definition of the ICFG's predecessor query: the sources of the node's incoming edges |
| Graph.Icfg.AddNode | src/Decompiler/Scanning/ProcedureDetector.cs:308 | the node set gains the node; edges, instructions and flags are unchanged |
| Graph.Icfg.RemoveNode | src/Decompiler/Scanning/ProcedureDetector.cs:342 | the node and every incident edge are gone; nothing else changes |
| Graph.Icfg.AddEdge | src/Decompiler/Scanning/ProcedureDetector.cs:311 | the edge set gains exactly the edge |
| Graph.Icfg.RemoveEdge | src/Decompiler/Scanning/ProcedureDetector.cs:90 | the edge set loses exactly the edge |
| Graph.Icfg.AppendInstructions | src/Decompiler/Scanning/ProcedureDetector.cs:394 | the block's instructions become its old ones followed by the appended ones; the graph is still well formed |
| Graph.Icfg.MarkSharedExit | src/Decompiler/Scanning/ProcedureDetector.cs:352 | the block's shared-exit flag is set and nothing else changes |
| Events.Listener.IsCanceled | src/Decompiler/Scanning/ProcedureDetector.cs:84 | the answer is the new state of the flag, and a canceled run stays canceled |
| Dominators.Reachable | src/Decompiler/Scanning/ProcedureDetector.cs:313 | the nodes given a distance are exactly the nodes other than the root that the root reaches: each is a successor of the root or of a nearer such node, and every edge out of the root or a reached node ends at a reached node |
| Dominators.ReachedGrow | src/Decompiler/Scanning/ProcedureDetector.cs:313 | a node entered by an edge from the root or from a reached node can be added one step further away |
| Dominators.Create | src/Decompiler/Scanning/ProcedureDetector.cs:313 | the map covers exactly the nodes the root reaches: the root has no image, each successor of the root is immediately dominated by it, every covered node is reached from the root, the covered nodes are closed under edges, depth decreases toward the root, and a node that immediately dominates another has a successor |
| Dominators.SealedFar | src/Decompiler/Scanning/ProcedureDetector.cs:313 | in a set of nodes without the root that no edge enters from outside, every reached node would lie at least any given distance from the root, so none is reached |
| Dominators.SealedUncovered | src/Decompiler/Scanning/ProcedureDetector.cs:313-318 | no node of a set without the root that no edge enters from outside has an immediate dominator |
| Components.StepSymmetric | src/Decompiler/Scanning/ProcedureDetector.cs:173-195 | the walk crosses an edge in either direction exactly when the edge's target is not a known procedure |
| Components.ClosedIsIsolated | src/Decompiler/Scanning/ProcedureDetector.cs:80-93 | once every edge into a known procedure is cut, no edge enters or leaves a component |
| Components.Graft | src/Decompiler/Scanning/ProcedureDetector.cs:180 | the walk tree of a recursive call, hung below the current block, extends the current tree over both block sets |
| Components.WalkFromRoot | src/Decompiler/Scanning/ProcedureDetector.cs:165-196 | every block of a component is reached by a walk inside it from the block it was started at |
| Components.UnionMember | src/Decompiler/Scanning/ProcedureDetector.cs:148 | a block is in the union of the clusters exactly when it is in one of them |
| Components.ExtendComponents | src/Decompiler/Scanning/ProcedureDetector.cs:142-151 | each new cluster is non-empty, closed under the walk and disjoint from the earlier ones, and the clusters cover exactly the blocks taken out of the pending set |
| Components.PendingAfterSweep | src/Decompiler/Scanning/ProcedureDetector.cs:208-214 | processing one cluster leaves every later cluster in the graph, isolated, and with no edge into a known procedure |
| EntryRules.CalledBlocksAdd | src/Decompiler/Scanning/ProcedureDetector.cs:228-231 | one more visited block adds itself to the known-procedure entries exactly when it is known |
| EntryRules.UnreachedBlocksAdd | src/Decompiler/Scanning/ProcedureDetector.cs:232-235 | one more visited block adds itself to the predecessor-less list exactly when it has no predecessor |
| EntryRules.ChooseEntriesRule | src/Decompiler/Scanning/ProcedureDetector.cs:223-253 | the first rule that applies decides: exactly the known blocks, else exactly the predecessor-less blocks, else the single lowest block; the entries are non-empty blocks of the cluster |
| EntryRules.ChosenEntriesAreSafe | src/Decompiler/Scanning/ProcedureDetector.cs:238-252 | once call edges are cut, every chosen entry has no predecessor or is the lowest block of its cluster |
| Fusion.FuseAtMerges | src/Decompiler/Scanning/ProcedureDetector.cs:382-399 | when all three conditions hold: the absorbing block's instructions are its own followed by the absorbed block's, its end address becomes the absorbed block's, the absorbed block leaves the graph, its successors are exactly the absorbed block's former successors, and other blocks' instructions and edges are unchanged |
| Fusion.FuseAtIdle | src/Decompiler/Scanning/ProcedureDetector.cs:383-391 | when any condition fails the visit changes nothing |
| Fusion.FuseAtKeepsUnreached | src/Decompiler/Scanning/ProcedureDetector.cs:382-399 | one fusion never gives a predecessor to a block that had none |
| Fusion.FuseSweepWellFormed | src/Decompiler/Scanning/ProcedureDetector.cs:378-403 | the sweep keeps the graph well formed, only removes nodes, and never adds the synthetic root |
| Fusion.FuseSweepKeepsUnreached | src/Decompiler/Scanning/ProcedureDetector.cs:378-403 | a block without predecessors keeps none through the sweep and stays in the graph |
| Fusion.FuseSweepKeepsAllUnreached | src/Decompiler/Scanning/ProcedureDetector.cs:378-403 | every block without predecessors stays in the graph through the sweep and gains none |
| Fusion.FuseSweepKeepsEntry | src/Decompiler/Scanning/ProcedureDetector.cs:378-403 | an entry without predecessors, or below every visited block, is never absorbed |
| Fusion.FuseSweepKeepsEntries | src/Decompiler/Scanning/ProcedureDetector.cs:273 | fusing a cluster keeps all its entries in the graph |
| Fusion.FuseSweepTargets | src/Decompiler/Scanning/ProcedureDetector.cs:392-399 | fusion only redirects edges: no edge leads into a block that no edge led into before |
| Fusion.FuseSweepIsolated | src/Decompiler/Scanning/ProcedureDetector.cs:378-403 | fusing inside one cluster leaves an isolated other cluster untouched and isolated |
| Partitioning.SealedBlockFails | src/Decompiler/Scanning/ProcedureDetector.cs:313-330 | a block of the cluster in a set no edge enters from outside, holding neither the root nor an entry, makes the partition throw |
| Partitioning.WithRootRemoved | src/Decompiler/Scanning/ProcedureDetector.cs:342 | removing the root gives back the graph it was added to, edges included |
| Chains.ChainAscending | src/Decompiler/Scanning/ProcedureDetector.cs:390-391 | along a fall-through chain each block starts above every block before it, since each starts where a non-empty predecessor ends |
| Chains.LinkSurvives | src/Decompiler/Scanning/ProcedureDetector.cs:382-399 | a fusion elsewhere does not break a chain link whose two blocks it leaves alone |
| Chains.VisitMerge | src/Decompiler/Scanning/ProcedureDetector.cs:382-399 | visiting the next chain block down makes it absorb the collapsed tail above it, so the collapsed part grows by one block |
| Chains.VisitElsewhere | src/Decompiler/Scanning/ProcedureDetector.cs:382-399 | visiting any other block above the next chain block keeps the collapsed part and the untouched links below it |
| Chains.Visit | src/Decompiler/Scanning/ProcedureDetector.cs:380-401 | a visit to a block no lower than the next unvisited chain block keeps the chain collapsed, one block further down exactly when that block is the one visited |
| Chains.SweepPrefix | src/Decompiler/Scanning/ProcedureDetector.cs:378-403 | after every prefix of a strictly descending sweep the chain is collapsed down to its lowest unvisited block |
| Chains.ChainCollapses | src/Decompiler/Scanning/ProcedureDetector.cs:378-403 | one sweep from the highest address down removes every block of a fall-through chain but the lowest from the graph, and the lowest, while still in the graph, starts with the instructions of the whole chain in order |
| Partitioning.DominatorDepth | src/Decompiler/Scanning/ProcedureDetector.cs:328-338 | following an immediate dominator lowers the depth, so the chain walk ends |
| Partitioning.Owner | src/Decompiler/Scanning/ProcedureDetector.cs:327-338 | the walk stops only at a new entry, or at a node without an immediate dominator |
| Partitioning.Chain | src/Decompiler/Scanning/ProcedureDetector.cs:328-337 | the dominator chain starts at the block, links each node to its immediate dominator, and ends at the first node without one |
| Partitioning.OwnerIsFirstHeadOnChain | src/Decompiler/Scanning/ProcedureDetector.cs:328-336 | a block lands with the first new entry strictly above it on its dominator chain |
| Partitioning.OwnerWithoutHeadOnChain | src/Decompiler/Scanning/ProcedureDetector.cs:330 | with no new entry above it, the walk throws at the chain's first node without an immediate dominator |
| Partitioning.NewEntriesAdd | src/Decompiler/Scanning/ProcedureDetector.cs:318 | one more block adds itself to the new entries exactly when the root immediately dominates it |
| Partitioning.MembersAdd | src/Decompiler/Scanning/ProcedureDetector.cs:323-339 | one more block joins exactly the new entry its walk stops at |
| Partitioning.AssignedKeep | src/Decompiler/Scanning/ProcedureDetector.cs:325-326 | skipping a new entry keeps the dictionary exact |
| Partitioning.AssignedJoin | src/Decompiler/Scanning/ProcedureDetector.cs:331-335 | adding a block to its owner's set keeps the dictionary exact |
| Partitioning.SharedExitsAdd | src/Decompiler/Scanning/ProcedureDetector.cs:350-354 | one more candidate becomes a shared exit exactly when it was not an entry and has no successor |
| Partitioning.SharedExitsSplit | src/Decompiler/Scanning/ProcedureDetector.cs:347-355 | shared exits and survivors split the new entries, and no original entry is a shared exit |
| Partitioning.MembersDisjoint | src/Decompiler/Scanning/ProcedureDetector.cs:323-339 | two new entries never share a block |
| Partitioning.OwnerHasChild | src/Decompiler/Scanning/ProcedureDetector.cs:327-336 | a walk that stops at a new entry left a node that the new entry immediately dominates |
| Partitioning.OwnerHasSuccessor | src/Decompiler/Scanning/ProcedureDetector.cs:313-336 | the new entry a walk stops at has a successor in the cluster's graph |
| Partitioning.SharedExitAlone | src/Decompiler/Scanning/ProcedureDetector.cs:344-353 | a shared exit's block set holds that block alone, as the comment on the shared-exit loop says |
| Partitioning.PartitionCovers | src/Decompiler/Scanning/ProcedureDetector.cs:323-355 | when no look-up throws, every block of the cluster is a shared exit or lies in the block set of a surviving new entry |
| Partitioning.MembersCover | src/Decompiler/Scanning/ProcedureDetector.cs:323-339 | when no look-up throws, every block of the cluster lands with some new entry |
| Partitioning.EntriesSurvive | src/Decompiler/Scanning/ProcedureDetector.cs:347-348 | an original entry that is a new entry is kept |
| Partitioning.EntriesAreKeys | src/Decompiler/Scanning/ProcedureDetector.cs:309-318 | every original entry of the cluster is joined to the root, so it is a new entry, and it is kept |
| Partitioning.MembersPartitioned | src/Decompiler/Scanning/ProcedureDetector.cs:357-360 | each kept new entry lies in its own block set, which lies in the cluster, and no two share a block |
| Pruning.DeadAdd | src/Decompiler/Scanning/ProcedureDetector.cs:266-268 | one more block is dead exactly when it is not an entry and has no predecessor |
| Pruning.PrunedBlocks | src/Decompiler/Scanning/ProcedureDetector.cs:265-269 | pruning keeps exactly the entries and the blocks that have a predecessor |
| Scanning.Cluster.constructor | src/Decompiler/Scanning/ProcedureDetector.cs:109-113 | a new cluster has no entries and no blocks |
| Scanning.Cluster.From | src/Decompiler/Scanning/ProcedureDetector.cs:115-119 | a cluster made from given entries and blocks holds exactly those |
| Scanning.OneCluster | src/Decompiler/Scanning/ProcedureDetector.cs:285 | a single-entry cluster returned alone is a list of disjoint single-entry procedures that heads its entry |
| Scanning.ClustersCover | src/Decompiler/Scanning/ProcedureDetector.cs:347-360 | when no look-up throws, every block of a split cluster is a shared exit or in one of the returned clusters |
| Scanning.ClusterCoversBlock | src/Decompiler/Scanning/ProcedureDetector.cs:347-360 | one block of a split cluster, when no look-up throws, is a shared exit or in one of the clusters built for the surviving entries |
| Scanning.SplitAccounted | src/Decompiler/Scanning/ProcedureDetector.cs:347-360 | after a split that succeeds, every block of the cluster is in a returned cluster or flagged as a shared exit |
| Scanning.PrunedAccounted | src/Decompiler/Scanning/ProcedureDetector.cs:265-269 | a pruned block, having no predecessor, stays in the graph without one once the kept blocks are placed |
| Scanning.AccountedLater | src/Decompiler/Scanning/ProcedureDetector.cs:208-214 | later procedures, more shared exits and a graph that keeps its unreached blocks keep a block accounted for |
| Scanning.AccountedSuffix | src/Decompiler/Scanning/ProcedureDetector.cs:213 | a block in one cluster's procedures stays accounted for once they are appended to the output |
| Scanning.ProceduresAppend | src/Decompiler/Scanning/ProcedureDetector.cs:213 | procedures over disjoint block sets can be put together without two sharing a block |
| Scanning.ProcedureDetector.constructor | src/Decompiler/Scanning/ProcedureDetector.cs:49-56 | the known set is the explicit procedures plus the directly called addresses, and the index maps exactly the graph's block addresses to their blocks |
| Scanning.ProcedureDetector.RemoveJumpsToKnownProcedures | src/Decompiler/Scanning/ProcedureDetector.cs:80-93 | exactly the edges into the handled known procedures are deleted; every handled known procedure has a block; nodes, instructions and other edges are unchanged; without cancellation all known procedures are handled and none has a predecessor; a known address without a block throws |
| Scanning.ProcedureDetector.FindClusters | src/Decompiler/Scanning/ProcedureDetector.cs:138-153 | the clusters are fresh, have no entries, are non-empty, pairwise disjoint and closed under the walk, and are spanned from their first block; without cancellation they cover the graph exactly |
| Scanning.ProcedureDetector.BuildWCC | src/Decompiler/Scanning/ProcedureDetector.cs:165-196 | the block and everything the walk reaches from it through pending blocks move into the cluster; no walk step leads from the moved blocks to a block still pending; each moved block was reached by a walk |
| Scanning.ProcedureDetector.Descend | src/Decompiler/Scanning/ProcedureDetector.cs:180 | one recursive call keeps the caller's loop invariant: moved blocks joined to the cluster, no open walk step, the walk tree intact |
| Scanning.ProcedureDetector.FindClusterEntries | src/Decompiler/Scanning/ProcedureDetector.cs:223-253 | the entries become the three-tier choice over the cluster's blocks; the blocks are unchanged |
| Scanning.ProcedureDetector.PostProcessCluster | src/Decompiler/Scanning/ProcedureDetector.cs:261-287 | exactly the dead blocks are dropped and no entry is; the graph is the sweep over the remaining blocks; a single-entry cluster is returned alone; with several entries the result succeeds exactly when every block resolves over the fused graph, and is then one cluster per kept new entry in ascending address order, holding exactly that entry's blocks, with exactly the shared exits flagged; the result is disjoint single-entry procedures within the cluster that head all its entries; on success the blocks without predecessors stay unreached in the graph, and every kept block is in a returned cluster or flagged as a shared exit |
| Scanning.ProcedureDetector.Subclusters | src/Decompiler/Scanning/ProcedureDetector.cs:275-286 | one entry: the cluster alone and no flag set; several: it succeeds exactly when every block resolves, and is then one cluster per kept new entry in ascending address order, holding exactly that entry's blocks, with exactly the shared exits flagged; the graph is kept and every entry is headed; on success every block is in a returned cluster or flagged as a shared exit |
| Scanning.ProcedureDetector.PruneAndFuse | src/Decompiler/Scanning/ProcedureDetector.cs:265-273 | dead blocks go, the graph becomes the sweep over the remaining blocks, and every entry is still a block and a node |
| Scanning.ProcedureDetector.PruneDeadNodes | src/Decompiler/Scanning/ProcedureDetector.cs:265-269 | the blocks lose exactly the dead blocks; the entries and the graph are unchanged |
| Scanning.ProcedureDetector.FuseBlocks | src/Decompiler/Scanning/ProcedureDetector.cs:378-403 | the graph becomes one sweep over the cluster's blocks from the highest address down |
| Scanning.ProcedureDetector.FuseAtBlock | src/Decompiler/Scanning/ProcedureDetector.cs:382-401 | one visit fuses exactly when the three conditions hold, and otherwise changes nothing |
| Scanning.ProcedureDetector.Merge | src/Decompiler/Scanning/ProcedureDetector.cs:392-399 | the graph after the merge is the absorption of the successor |
| Scanning.ProcedureDetector.AddEdgesFrom | src/Decompiler/Scanning/ProcedureDetector.cs:396-399 | the absorbing block gains exactly an edge to each former successor of the absorbed block |
| Scanning.ProcedureDetector.PartitionIntoSubclusters | src/Decompiler/Scanning/ProcedureDetector.cs:302-361 | it succeeds exactly when every block has an immediate dominator and every walk reaches a new entry; a block outside the graph makes it fail; on success the root and its edges are gone, exactly the shared exits are flagged, and there is one fresh cluster per surviving new entry in strictly ascending address order, holding exactly that entry's blocks; the clusters are disjoint single-entry procedures heading every original entry |
| Scanning.ProcedureDetector.Regroup | src/Decompiler/Scanning/ProcedureDetector.cs:341-360 | the root leaves the graph, the shared exits are flagged, and the clusters of the kept new entries come out in ascending order |
| Scanning.ProcedureDetector.MakeClusters | src/Decompiler/Scanning/ProcedureDetector.cs:357-360 | one fresh cluster per key, in key order, each holding its key as the single entry and the key's blocks |
| Scanning.ProcedureDetector.AddRoot | src/Decompiler/Scanning/ProcedureDetector.cs:307-312 | the graph gains the root and exactly an edge from it to each entry |
| Scanning.ProcedureDetector.FindNewEntries | src/Decompiler/Scanning/ProcedureDetector.cs:318 | the new entries are exactly the blocks the root immediately dominates; the look-up throws exactly when some block has no immediate dominator, at the lowest such block |
| Scanning.ProcedureDetector.AssignBlocks | src/Decompiler/Scanning/ProcedureDetector.cs:319-339 | the dictionary maps each new entry to exactly itself and the blocks whose walk stops at it; it throws exactly when some walk reaches a node without an immediate dominator |
| Scanning.ProcedureDetector.WalkToEntry | src/Decompiler/Scanning/ProcedureDetector.cs:327-338 | the chain walk computes the owner of the block |
| Scanning.ProcedureDetector.MarkSharedExits | src/Decompiler/Scanning/ProcedureDetector.cs:347-355 | exactly the new entries that were not entries and have no successor are flagged and dropped; the others keep their blocks; the graph is unchanged |
| Scanning.ProcedureDetector.DetectProcedures | src/Decompiler/Scanning/ProcedureDetector.cs:63-74 | a missing known block throws; an uncanceled run that succeeds had a block for every known procedure; the procedures each have one entry among their blocks, lie within the original graph and share no block; a run canceled before it starts returns nothing; an uncanceled run accounts for every block of the graph: it is in a procedure, flagged as a shared exit, or left in the graph with no edge into it |
| Scanning.ProcedureDetector.BuildProcedures | src/Decompiler/Scanning/ProcedureDetector.cs:205-216 | the procedures of all clusters, in order, are single-entry, within the original graph and pairwise disjoint; a run canceled before it starts returns nothing; an uncanceled run accounts for every block of every component: it is in a procedure, flagged as a shared exit, or left in the graph with no edge into it |
| Scanning.ProcedureDetector.Turn | src/Decompiler/Scanning/ProcedureDetector.cs:208-214 | one cluster's procedures are appended and the later clusters stay pending and untouched; every block of the clusters done so far is in an output procedure, flagged as a shared exit, or left unreached in the graph |
| Scanning.ProcedureDetector.ProcessCluster | src/Decompiler/Scanning/ProcedureDetector.cs:212-213 | the cluster's entries are the three-tier choice, the other clusters are untouched, and the procedures lie within the cluster; on success every block of the component is in a returned procedure, flagged as a shared exit, or left in the graph with no edge into it |
| Scanning.ProcedureDetector.PostProcessPending | src/Decompiler/Scanning/ProcedureDetector.cs:212-213 | post-processing a cluster whose entries are set keeps its entries, shrinks its blocks, leaves the later clusters pending, and returns disjoint single-entry procedures within the cluster that head all its entries; on success every block of the component is in a returned procedure, flagged as a shared exit, or left in the graph with no edge into it |

## Left out

- Dominators.Create: LTDominatorGraph.Create (Lengauer and Tarjan's algorithm) is not part of this model. `Dominators.Create` returns a tree that covers exactly the nodes the root reaches, hangs the root's successors on the root and is closed under edges; it does not state that each image is the true immediate dominator.
- The ICFG and RtlBlock classes are not part of this model. The graph is a set of nodes and a set of edges, so parallel edges are not represented. A block's end address is its address plus the lengths of its instructions.
- Graph.Icfg.AddEdge: requires both ends to be nodes, because the behaviour of the unshown ICFG class on a missing node is not known.
- The order of enumeration is left open in every loop over a set or a dictionary, including the loops over the clusters' sorted block sets in FindClusterEntries, PruneDeadNodes and AssignBlocks, which the original walks in address order. Each such loop picks any remaining element; the sets and dictionaries it builds do not depend on the order. AssignBlocks's failure names some node reached without an immediate dominator, not necessarily the one the address-order walk meets first. The clusters that PartitionIntoSubclusters returns, and the blocks FuseBlocks visits, do follow address order.
- Deep recursion in BuildWCC and stack overflow are not modelled. The recursion is modelled as written and terminates because the pending set shrinks.
- Duplicate block addresses, which make the index construction throw, are not modelled. Blocks are identified by their address.
- `Debug.Print` and the `DumpDomGraph` diagnostic have no effect on the result and are left out.
- `ProcessIndirectJumps` is an empty placeholder and is left out. `PreprocessIcfg` therefore reduces to the call-edge severing.
- Program, ScanResults and DecompilerEventListener are left out beyond the fields they supply. These fields are the graph, the explicit procedures, the directly called addresses and the cancellation flag.
- Events.Listener.IsCanceled: the user's cancellation is an arbitrary choice, assumed to stay set once given.
- PostProcessCluster: requires a non-empty entry set in which every entry has no predecessor or is the cluster's lowest block. Only then can fusion not absorb an entry before the entries are joined to the synthetic root. This is what FindClusterEntries delivers after call edges are cut; the original does not check it.
- FindClusterEntries: requires a non-empty cluster of real blocks. Every cluster that FindClusters builds is non-empty; on an empty one, the original's `Min()` returns null and null becomes the entry.
- Blocks.MinBlock: is the lowest-addressed block. The original's `cluster.Blocks.Min()` is the LINQ `Enumerable.Min` over the sorted set, which orders by RtlBlock's own default comparison, not by the cluster's address comparer. RtlBlock is not part of this model, so whether that comparison is by address, or throws for lack of one, is not known.
- Empty blocks: Graph.WellFormed requires every block to hold at least one byte of instructions. The original accepts empty blocks. An empty block ends where it starts, so an empty block whose only successor and predecessor is itself passes the fusion tests at ProcedureDetector.cs:382-391; the original then absorbs the block into itself, removes it from the graph and adds an edge at the removed block, whose effect depends on the ICFG class. The model does not represent that case.
- Chains.ChainCollapses: states the lowest block's instructions only as starting with the chain's, because the lowest block may in turn absorb a further block that lies outside the chain.
- BuildProcedures: does not relate each procedure to the cluster it came from. Its coverage law names a block left out of every procedure only as flagged or unreached, not as pruned in a particular cluster, and holds for uncanceled runs only, since a canceled run stops early.
- DetectProcedures: does not state freshness or origin of the returned clusters. It states only what BuildProcedures states of them.
