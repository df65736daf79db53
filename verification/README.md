# hypercore-rs: a verified model

This project models the logic of hypercore-rs in Dafny 4.11 and proves what its components
promise, for every input, every run and every reachable state. `dafny verify dfyconfig.toml`
checks all of it.

**Autobase** (`CausalDag`, `Kahn`, `Confirmation`, `FinalizedView`, `Finality`, `Permanence`,
`Reordering`, `Agreement`, `Walks`, `Machine`, `Driver`, `Autobase`, `Quorum`). A linearizer delivers nodes of
many writers into a causal DAG, orders them deterministically, and lets a committee of indexers
confirm a prefix of that order by votes of votes. `Confirmation` states the vote machine over the
DAG; `FinalizedView` runs it and gives the invariant of every run; `Finality` proves that what is
finalized without resolving a fork is final, order included; `Permanence` that with any indexers
and any growth nothing finalized is ever lost; `Reordering` that its order can change once the DAG
has forked; `Agreement` says in plain majorities what it takes to be finalized; `Walks`, `Machine` and `Driver` are the loops that compute all this, each proved equal
to its statement; `Autobase` is the mutable linearizer. `Quorum` is the one-pass table for quorum
degrees.

**Rooms** (`Room`, `Ingest`). A room feeds writers' verified logs into the linearizer through a
causal delivery buffer and folds a projection over the finalized prefix and over the whole order.
`Ingest` takes a block from a writer's replica into the room. A room is steady while confirmation
has resolved no fork, which with one indexer is always.

**Merkle** (`Flat`, `Merkle`, `MerkleProof`, `MerkleSeek`, `MerkleTree`, `MerkleUpgrade`,
`UpgradeVerifier`, `MerkleRange`, `RangeVerifier`, `RangeProver`). Flat-tree indices, the tree as
a function of its blocks, the incremental tree, and inclusion, node, seek, length-extension and
range proofs: each verifier accepts only the truth, and each proof a tree builds is accepted. The
three BLAKE3 hashes are the constructors of a datatype, so they are injective and domain
separated, and a digest is named by what was hashed.

**Hypercore** (`Hypercore`, `Replica`). The writer that signs heads, and the verify-only replica
that follows it, including across rewritten history. A signature is a value naming the key and
the message; that only the writer makes such values is the hypothesis `Unforged` where it is
needed.

**Hyperbee** (`BeeKeys`, `BeeNodes`, `BeePut`, `BeeDelete`, `BeeRange`, `Hyperbee`). The
copy-on-write B-tree of order 9 over an append-only sequence of blocks, with batches, versions
and the lazy iterator. `Insert`, `Delete` and their helpers are functions from blocks to blocks
about which everything is proved; the methods of `Bee` compute exactly them, staging or not.

**Storage** (`LogRecords`, `LogStore`, `Words`, `Bitfield`). The log-structured store with replay
and compaction, and the paged bitfield over 64-bit words.

Numbers are natural numbers. A ghost argument `b` of a verifying method stands for an arbitrary
block list; it has no part in the computation. Where a loop of the source visits a sorted set or
map, the model picks the elements in any order unless the order shows in the result.

Places where a property of the code needs a condition, each stated with it and with an input
that fails it:

- `finalized()` only extends as long as the machine has resolved no fork
  (`Finality.ForkFreeIsFinal`; indexer nodes that are all comparable suffice). After a fork its
  order can change even when the next node has seen everything (`Reordering.FinalizedReordered`);
  its members never leave (`Permanence.FinalizedIsPermanent`).
- `reconfigure_at` checks that a base is causally closed but not that it lists dependencies
  first. `Autobase.OrderIsCausal` shows that the order puts dependencies first if and only if the
  base does, and `Autobase.UnorderedBase` is a base for which it does not.
- `quorum_degree` does not return when the only indexer has seen the target:
  `Quorum.DegreeExists` shows that a highest degree exists if and only if it has not, and
  `Quorum.SoleVoteHasNoDegree` is a one-node DAG without one.
- `copy_prologue` from a source that has cleared one of the blocks fails only on reaching it.
  `Hypercore.Core.CopyPrologue` states which blocks are then left behind, unsigned, and
  `Hypercore.CopyStopsShort` is such a source.
- A put of 2^32 bytes or more truncates its length field. `LogRecords.PutReadsBack` shows that
  a put reads back from the file if and only if its value is shorter, and
  `LogStore.LogStore.Put` what the open store serves meanwhile.

## Model

| member | source | states |
|---|---|---|
| CausalDag.ClockIsSees | crates/autobase/src/linearizer.rs:225-277 | For a delivered node, its clock includes `(k, q + 1)` exactly when it causally sees `(k, q)` |
| CausalDag.SeesAntisym | crates/autobase/src/linearizer.rs:31-69 | Gap-free causal delivery leaves no causal cycle |
| CausalDag.SeesGrows | crates/autobase/src/linearizer.rs:31-69 | What a delivered node sees never changes as the DAG grows |
| Kahn.OrderIsTopological | crates/autobase/src/linearizer.rs:783-810 | The priority order lists each node once, dependencies first |
| Kahn.OrderIsLeast | crates/autobase/src/linearizer.rs:783-810 | No other topological order of the same nodes is lexicographically smaller by `NodeId` |
| Kahn.OrderBreaksTies | crates/autobase/src/linearizer.rs:99-128 | A node stands before any later one that could have taken its place exactly by lower writer key, then lower position |
| Kahn.OrderGrows | crates/autobase/src/linearizer.rs:783-810 | The order of a set of nodes does not depend on what else is delivered |
| Kahn.Drain | crates/autobase/src/linearizer.rs:99-128 | The in-degree loop over the frontier emits exactly the least topological order |
| Kahn.TopoKeyOrder | crates/autobase/src/linearizer.rs:783-810 | The order over a node set with emitted nodes counted as met is that least order |
| Kahn.PlainOrder | crates/autobase/src/linearizer.rs:99-128 | Without indexers the order is the least topological order of all nodes |
| Walks.SeesWalk | crates/autobase/src/linearizer.rs:225-247 | The depth-first search decides causal reachability |
| Walks.ClockOf | crates/autobase/src/linearizer.rs:255-277 | The walk's clock: per writer the number of nodes seen, and it includes a length exactly when the node has seen that many of the writer's nodes |
| Machine.IsStrictlyNewer | crates/autobase/src/linearizer.rs:363-399 | The clock comparison decides whether a node is strictly newer than another for every unremoved writer it knows |
| Machine.Acks | crates/autobase/src/linearizer.rs:408-435 | The loop returns one node per acknowledging indexer, its first that sees the target unambiguously |
| Machine.AckedAt | crates/autobase/src/linearizer.rs:501-521 | The early-exit count decides whether a node sees a majority of the acknowledgements |
| Machine.Confirms | crates/autobase/src/linearizer.rs:455-498 | Scanning an indexer's nodes newest first gives its status: unseen, newer or acknowledged |
| Machine.HalfIsNotEnough | crates/autobase/src/linearizer.rs:529-562 | With votes of half of the indexers or fewer nothing is confirmed; with votes of more than half and more than half of the indexers endorsing, everything is |
| Machine.IsConfirmableAt | crates/autobase/src/linearizer.rs:569-608 | Decides whether enough indexers could still confirm the target after a parent |
| Machine.IsConfirmed | crates/autobase/src/linearizer.rs:529-562 | The loop decides confirmation; without votes of more than half of the indexers it answers no, with them and endorsements of more than half it answers yes |
| Driver.IndexerTails | crates/autobase/src/linearizer.rs:327-355 | The antichain loop returns the minimal first-unconfirmed indexer nodes |
| Driver.IsMergeNode | crates/autobase/src/linearizer.rs:294-322 | Decides whether an indexer node joins two incomparable unconfirmed indexer heads |
| Driver.MergeNodes | crates/autobase/src/linearizer.rs:622-632 | Exactly the unconfirmed indexer merge nodes |
| Driver.TailsSeenBy | crates/autobase/src/linearizer.rs:635-637 | The tails a node sees, in ascending order |
| Driver.YieldNext | crates/autobase/src/linearizer.rs:659-680 | Walking from a confirmed merge toward the frontier yields what the recursive resolution yields and raises the removed clock by it |
| Driver.ShiftOnce | crates/autobase/src/linearizer.rs:684-698 | One shift returns the least confirmed tail, else the resolution of the least confirmed merge, else nothing |
| Driver.ConfirmedPrefix | crates/autobase/src/linearizer.rs:713-728 | The loop terminates with the confirmed indexer sequence after the base |
| Driver.NewlyCovered | crates/autobase/src/linearizer.rs:740-777 | The stack loop returns the batch's causal history not yet emitted |
| Driver.ConfirmedView | crates/autobase/src/linearizer.rs:740-777 | The loop terminates with the finalized view |
| Confirmation.TailHistory | crates/autobase/src/linearizer.rs:327-355 | A frontier node has seen no other unconfirmed indexer node |
| Confirmation.YieldsTails | crates/autobase/src/linearizer.rs:659-680 | Resolving a merge always yields something, distinct, and only frontier nodes |
| Confirmation.ShiftsTails | crates/autobase/src/linearizer.rs:684-698 | Every shift confirms distinct frontier nodes only |
| Confirmation.ShiftCases | crates/autobase/src/linearizer.rs:684-698 | A confirmed tail leaves first; failing that the confirmed merge least by key and position is resolved |
| Confirmation.YieldCases | crates/autobase/src/linearizer.rs:659-680 | A merge resolves to the least tail confirmed relative to it; failing that to what the least such merge below it resolves to |
| Confirmation.YieldRest | crates/autobase/src/linearizer.rs:659-680 | With nothing confirmed relative to it, a merge yields every tail it has seen, in ascending order |
| FinalizedView.ShiftShrinks | crates/autobase/src/linearizer.rs:713-728 | Every non-empty shift leaves fewer unconfirmed indexer nodes, so the loop ends on every DAG and indexer set |
| FinalizedView.FrontierStep | crates/autobase/src/linearizer.rs:740-777 | Emitting a batch's newly covered history keeps: no repeats, causally closed, and indexer nodes emitted exactly up to the removed clock; what it appends comes after its dependencies |
| FinalizedView.ViewIsFrontier | crates/autobase/src/linearizer.rs:740-777 | From any closed base, the whole view repeats no node, extends the base in causal order, holds each indexer's nodes as a gap-free run, and stops only when nothing more confirms |
| FinalizedView.ViewHasPrefix | crates/autobase/src/linearizer.rs:740-777 | The view's indexer nodes are exactly those of the confirmed indexer sequence |
| Finality.AcksDisjoint | crates/autobase/src/linearizer.rs:408-435 | No indexer acknowledges two different frontier nodes |
| Finality.OneMajority | crates/autobase/src/linearizer.rs:529-562 | At most one frontier node has a majority of acknowledgements |
| Finality.ConfirmedGrows | crates/autobase/src/linearizer.rs:529-562 | A confirmed node stays confirmed whatever any writer adds |
| Finality.ShiftStable | crates/autobase/src/linearizer.rs:684-698 | A shift that confirms a frontier node is the same shift in every larger DAG |
| Finality.SettledIsFinal | crates/autobase/src/linearizer.rs:917-927 | What was finalized before any fork resolution is a prefix of the finalized view after any growth, cooperative or not |
| Finality.ForkFreeIsSettled | crates/autobase/src/linearizer.rs:740-777 | A run that never resolves a fork finalizes exactly its settled part |
| Finality.ForkFreeIsFinal | crates/autobase/src/linearizer.rs:917-927 | If the run so far resolved no fork, `finalized()` before any growth is a prefix of `finalized()` after it |
| Finality.LinearIsForkFree | crates/autobase/src/linearizer.rs:684-698 | With causally comparable indexer nodes the machine never resolves a fork |
| Finality.FinalityStable | crates/autobase/src/linearizer.rs:917-927 | From a DAG whose indexer nodes are comparable, the finalized view before any additions is a prefix of the view after |
| Finality.SoleIndexerIsLinear | crates/autobase/src/linearizer.rs:917-927 | One indexer's nodes are always comparable |
| Finality.CooperativeIsLinear | crates/autobase/src/linearizer.rs:917-927 | If every node was added seeing all nodes present, indexer nodes are comparable |
| Finality.CooperativeFinality | crates/autobase/src/linearizer.rs:917-927 | If every node so far was added seeing all nodes then present, `finalized()` before any addition is a prefix of `finalized()` after it |
| Permanence.ConfirmedRaised | crates/autobase/src/linearizer.rs:529-562 | An unconfirmed node that a majority confirmed stays confirmed as other nodes leave the frontier |
| Permanence.ConfirmedCovered | crates/autobase/src/linearizer.rs:529-562 | What confirms a node confirms the single node its unconfirmed history hangs from |
| Permanence.ConfirmedMoves | crates/autobase/src/linearizer.rs:684-698 | While any unconfirmed indexer node is confirmed by a majority, the machine has a next step |
| Permanence.RunWithin | crates/autobase/src/linearizer.rs:740-777 | A run never passes a frontier on which a larger DAG is stuck, whatever order the two resolve their forks in |
| Permanence.FinalizedIsPermanent | crates/autobase/src/linearizer.rs:917-927 | With any number of indexers and any growth, forks and partitions included, no node ever leaves the finalized set |
| Permanence.TailIsLowest | crates/autobase/src/linearizer.rs:327-355 | The frontier is the unconfirmed indexer nodes that have seen no other |
| Permanence.MergeIsFirstToJoin | crates/autobase/src/linearizer.rs:289-322 | A merge is exactly a node that is the first to see two unconfirmed indexer nodes |
| Agreement.FinalizedIsAgreed | crates/autobase/src/linearizer.rs:917-927 | In any DAG, whatever is finalized past the base has been seen by every indexer, or more than half of the indexers have a node that has seen more than half of them see it |
| Agreement.ComparableIsFinal | crates/autobase/src/linearizer.rs:917-927 | An indexer node that no indexer node is concurrent to is finalized if and only if that holds |
| Agreement.DoubleQuorumIsFinal | crates/autobase/src/linearizer.rs:1110-1124 | `finalized()` is at least as eager as the conservative rule: a double quorum over a node that no indexer node is concurrent to finalizes it |
| Reordering.FinalizedReordered | crates/autobase/src/linearizer.rs:917-927 | Order is another matter: a concrete forked DAG of four indexers and ten nodes, and one more node that sees all of them, after which `finalized()` no longer starts as it did |
| Autobase.AddKeepsDag | crates/autobase/src/linearizer.rs:31-69 | An accepted node keeps the DAG closed, chained per writer and acyclic |
| Autobase.LinearizationIsCausal | crates/autobase/src/linearizer.rs:77-92 | Over any closed finalized prefix the order lists every node once, starts with it and has the least topological order of the rest as tail; it puts dependencies first exactly when the prefix does |
| Autobase.OrderIsCausal | crates/autobase/src/linearizer.rs:183-209 | On every base `reconfigure_at` lets through, under any indexers, `order()` lists each node once after `finalized()`; it puts dependencies first if and only if the base does |
| Autobase.UnorderedBase | crates/autobase/src/linearizer.rs:183-209 | Two nodes and a base naming the child first: every check passes and the order is not causal |
| Autobase.Linearizer.Add | crates/autobase/src/linearizer.rs:31-69 | Accepts exactly the next node of a writer whose heads are delivered, says why it refuses any other, keeps the invariant, `dependents` the exact inverse of `deps`, and the base as causal as it was |
| Autobase.Linearizer.Heads | crates/autobase/src/linearizer.rs:137-141 | The nodes nothing depends on |
| Autobase.Linearizer.Finalized | crates/autobase/src/linearizer.rs:925-927 | The finalized view: extends the base in causal order, without repeats and closed; dependencies first exactly when the base has them first |
| Autobase.Linearizer.LinearOrder | crates/autobase/src/linearizer.rs:77-92 | In every reachable state: each node once, finalized prefix first, least tail, and dependencies first exactly when the base has them first |
| Autobase.Linearizer.ReconfigureAt | crates/autobase/src/linearizer.rs:183-209 | Which bases are pinned and why others are refused; the invariant holds either way; the order then puts dependencies first if and only if the new base does; a refusal changes nothing |
| Autobase.Linearizer.Reconfigure | crates/autobase/src/linearizer.rs:172-178 | Pins the first `through` finalized nodes exactly when they cover the old base and are finalized; keeps the invariant and the base as causal as it was |
| Quorum.WitnessBound | crates/autobase/src/linearizer.rs:831-915 | Unless a sole indexer has seen the target, a node witnesses no degree above the size of its history |
| Quorum.SoleIndexerUnbounded | crates/autobase/src/linearizer.rs:870-905 | A sole indexer's node that sees the target witnesses every degree |
| Quorum.DegreeExists | crates/autobase/src/linearizer.rs:831-915 | A delivered target has a highest degree if and only if no sole indexer has seen it |
| Quorum.SoleVoteHasNoDegree | crates/autobase/src/linearizer.rs:870-905 | One node written by the only indexer has no highest degree |
| Agreement.DegreeStep | crates/autobase/src/linearizer.rs:831-915 | A degree is witnessed exactly when more than half of the indexers have a node in the history that witnesses the one below |
| Agreement.DegreeOne | crates/autobase/src/linearizer.rs:831-915 | A quorum is witnessed exactly when the history holds nodes of more than half of the indexers that have seen the target |
| Quorum.OwnDegree | crates/autobase/src/linearizer.rs:870-905 | The level loop ends on the highest degree the node itself witnesses |
| Quorum.Visit | crates/autobase/src/linearizer.rs:831-915 | One node of the pass keeps the table: per node and indexer, the highest degree that indexer witnesses in the node's history |
| Quorum.QuorumDegree | crates/autobase/src/linearizer.rs:831-915 | The one-pass table gives the highest degree of the recursive majority definition wherever there is one, and 0 for an undelivered target |
| Room.DrainedIsExact | crates/roomnet/src/room.rs:769-801 | A drained DAG holds exactly the received nodes whose whole causal past was received |
| Room.DeliverableIs | crates/roomnet/src/room.rs:769-801 | An entry is deliverable exactly when it was received and its predecessor and every head it names are deliverable |
| Room.Converges | crates/roomnet/src/room.rs:743-801 | The same received blocks give the same DAG, however they were interleaved |
| Room.FinalExtends | crates/roomnet/src/room.rs:839-879 | Growth extends the finalized prefix as long as confirmation has resolved no fork |
| Room.FinalKept | crates/roomnet/src/room.rs:839-879 | Whatever the indexers and forks, every finalized node is finalized after growth |
| Room.FoldSurvives | crates/roomnet/src/room.rs:839-879 | The fold over the finalized prefix before growth is the fold over the same prefix after |
| Room.OperationsAre | crates/roomnet/src/room.rs:839-879 | The operations of a node sequence are exactly its nodes with a non-empty payload, with that payload |
| Room.FoldIsRun | crates/roomnet/src/room.rs:839-879 | For every projection the fold is the projection run over those operations in order, skipping what it refuses |
| Room.FoldRecords | crates/roomnet/src/room.rs:839-879 | For the projection that records what it is given, the fold is the list of operations itself |
| Room.StatesAre | crates/roomnet/src/room.rs:839-879 | In a folded room the finalized and live states are the projection run over the operations in the writers' logs, in finalized order and in the whole order |
| Room.HeadsSeeAll | crates/roomnet/src/room.rs:291-341 | An entry that references the whole frontier sees everything delivered |
| Room.SoleTermIsSteady | crates/roomnet/src/room.rs:839-879 | A term with one indexer has no fork to resolve |
| Room.RoomsConverge | crates/roomnet/src/room.rs:743-801 | Drained rooms with the same feeds, indexers and base have the same DAG, finalized prefix and whole order; where each state is the fold of its own, the same finalized and live states too |
| Room.CommonPrefix | crates/roomnet/src/room.rs:579-599 | The longest common prefix of two finalized sequences |
| Room.Room.TryAdd | crates/roomnet/src/room.rs:769-779 | Delivers an entry or buffers it exactly when it cannot be added, losing none |
| Room.Room.DrainPending | crates/roomnet/src/room.rs:782-801 | The retry loop terminates with nothing left that could be delivered |
| Room.Room.Advance | crates/roomnet/src/room.rs:839-879 | What is newly finalized by length is run on top of the finalized state and the rest of the order on top of that; if the finalized state was the fold of a prefix of what is finalized, both states become the full folds |
| Room.Room.LocalAppend | crates/roomnet/src/room.rs:291-341 | Appends a node that sees everything delivered, refused only while our previous one waits; states exactly how both states are refolded; loses nothing finalized; in a steady room finalized only extends and both folds stay exact |
| Room.Room.OnBlock | crates/roomnet/src/room.rs:743-766 | Accepts exactly the writer's next verified block; afterwards nothing waiting can be delivered and the DAG is exactly the deliverable part of what was received; states exactly how both states are refolded; loses nothing finalized; in a steady room finalized only extends and both folds stay exact |
| Room.Room.Reconfigure | crates/roomnet/src/room.rs:579-599 | Reports what is kept and dropped and states exactly how both states are refolded, so both folds stay exact even when finalized entries are dropped |
| Room.Room.Replay | crates/roomnet/src/room.rs:808-829 | Rebuilding from saved logs, whatever writer comes first, delivers everything deliverable and makes both folds exact, so by RoomsConverge the room is the one that saved them |
| Room.RunRoom | crates/roomnet/src/room.rs:839-879 | After any run of appends, blocks and one-indexer reconfigurations the finalized state is the fold over all of `finalized()` and the live state the fold over `order()`; without a reconfiguration `finalized()` only extends |
| Room.RunCommittee | crates/roomnet/src/room.rs:839-879 | Any run of appends and blocks, with any indexers and any forks, loses nothing finalized |
| Ingest.OnRemoteBlock | crates/roomnet/src/room.rs:743-766 | A block enters only through its writer's replica: refused ones change nothing, accepted ones are the block every history under the signed head has there, and the room's log of the writer stays what the replica's blocks decode to, fully delivered |
| Ingest.SameBlocksConverge | crates/roomnet/src/room.rs:743-801 | Drained rooms holding the same raw blocks of every writer agree on DAG, finalized prefix and order |
| Flat.IndexOf | crates/merkle/src/flat.rs:5-22 | Every index is the index of its own depth and offset |
| Flat.OffsetOfIndex | crates/merkle/src/flat.rs:5-22 | Depth and offset invert `index` |
| Flat.ChildFacts | crates/merkle/src/flat.rs:25-54 | A parent covers its left child's blocks then its right child's, and the children are each other's siblings with that parent |
| Flat.SiblingFacts | crates/merkle/src/flat.rs:25-44 | A node and its sibling are the two children of their parent |
| Flat.IndexIs | crates/merkle/src/flat.rs:49-54 | An index is determined by the block range it covers |
| Flat.Nested | crates/merkle/src/flat.rs:49-54 | Two nodes covering a common block are nested |
| Flat.RootsFacts | crates/merkle/src/flat.rs:58-74 | The roots tile all blocks in order and are exactly the maximal complete subtrees |
| Flat.FullRoots | crates/merkle/src/flat.rs:58-74 | The nested loop lists exactly those roots |
| Merkle.AtDepends | crates/merkle/src/tree.rs:61-74 | A node is a function of the blocks it covers |
| Merkle.AtCommits | crates/merkle/src/lib.rs:34-61 | Equal hashes at an index mean equal blocks and sizes under it |
| Merkle.RootHashCommits | crates/merkle/src/lib.rs:52-61 | Equal root hashes mean equal block lists |
| Merkle.AtHashes | crates/merkle/src/lib.rs:34-50 | A node hashes exactly the blocks it covers, left to right |
| Merkle.RootHashHashes | crates/merkle/src/lib.rs:52-61 | The root hash hashes exactly the block list, in order |
| MerkleProof.AcceptedIsTrue | crates/merkle/src/proof.rs:47-74 | A node accepted against the root hash of `b` is `b`'s node at that index, whatever siblings and roots were carried |
| MerkleProof.IncludedIsBlock | crates/merkle/src/proof.rs:94-128 | Data accepted against the root hash of `b` is `b`'s block at that position |
| MerkleProof.HonestIsAccepted | crates/merkle/src/tree.rs:246-265 | The true path of every node of the tree is accepted |
| MerkleProof.BlockHasProof | crates/merkle/src/tree.rs:246-265 | Every block has an accepted inclusion proof |
| MerkleProof.ClimbUp | crates/merkle/src/proof.rs:98-119 | The climbing loop computes the recursive climb, refusing a node that is not the path's sibling |
| MerkleProof.SubstituteIn | crates/merkle/src/proof.rs:120-127 | Finds the first root at the recomputed index and replaces it |
| MerkleProof.Verify | crates/merkle/src/proof.rs:94-128 | Accepts only the block of every block list with that root hash |
| MerkleProof.VerifyNodeProof | crates/merkle/src/proof.rs:47-74 | Returns only the true node of every block list with that root hash |
| MerkleSeek.SizeIs | crates/merkle/src/lib.rs:28-32 | A node's size is the bytes of the blocks it covers |
| MerkleSeek.ScanFinds | crates/merkle/src/tree.rs:399-408 | A byte of the concatenated blocks is found in the block and at the offset it has there; past the end what is left over is returned |
| MerkleSeek.LocatesIsScan | crates/merkle/src/proof.rs:164-231 | Every accepted seek proof returns the block and offset of the linear scan |
| MerkleSeek.SeekProofAccepted | crates/merkle/src/tree.rs:438-457 | Exactly the offsets inside the log have a proof, and it is accepted with the scan's answer |
| MerkleSeek.VerifySeek | crates/merkle/src/proof.rs:164-231 | The verifier's loops return exactly what the proof locates, which is the scan's answer for every block list with that root |
| MerkleTree.Tree.Append | crates/merkle/src/tree.rs:21-59 | The roll-up loop leaves the node map the tree over the blocks with the new one; an intact tree stays intact |
| MerkleTree.Tree.Truncate | crates/merkle/src/tree.rs:75-84 | The kept nodes are the tree over the prefix |
| MerkleTree.Tree.PrefixRoots | crates/merkle/src/tree.rs:151-159 | The gathered nodes are the roots of the prefix, and none are missing in an intact tree |
| MerkleTree.Tree.PrefixRootHash | crates/merkle/src/tree.rs:167-169 | The hash of the prefix |
| MerkleTree.Tree.AgreesIsEqual | crates/merkle/src/tree.rs:161-190 | Agreeing prefix hashes mean equal prefixes, and conversely in intact trees |
| MerkleTree.Tree.LowestCommonAncestor | crates/merkle/src/tree.rs:182-202 | Binary search returns a common prefix, and in intact trees the longest |
| MerkleTree.Tree.Reorg | crates/merkle/src/tree.rs:219-227 | Leaves the tree over the other's blocks, node for node the other tree if that is intact, and returns the ancestor |
| MerkleTree.Tree.Seek | crates/merkle/src/tree.rs:399-408 | Descending by committed sizes gives the linear scan's answer for every offset, empty blocks included |
| MerkleTree.Tree.SeekDescend | crates/merkle/src/tree.rs:412-427 | Descending a subtree agrees with scanning from its first block |
| MerkleTree.Tree.ProofOf | crates/merkle/src/tree.rs:246-265 | Exactly the blocks in range have a proof, and the verifier accepts it |
| MerkleTree.Tree.SeekProofFor | crates/merkle/src/tree.rs:438-457 | Exactly the offsets inside the log have a seek proof, accepted with the scan's answer |
| MerkleTree.Tree.MissingNodes | crates/merkle/src/tree.rs:477-491 | Lists in ascending order exactly the implied nodes that are absent; empty exactly when intact |
| MerkleTree.Tree.TryAppend | crates/merkle/src/tree.rs:525-530 | Appends exactly when no node is missing, and otherwise changes nothing |
| MerkleTree.Tree.RemoveNode | crates/merkle/src/tree.rs:469-471 | Drops the node and nothing else; what is left is still true |
| MerkleTree.Tree.RecoverNode | crates/merkle/src/tree.rs:564-572 | Against the tree's own root hash only true nodes are ever stored; a refused proof changes nothing |
| MerkleTree.Tree.NodeProofOf | crates/merkle/src/tree.rs:541-556 | A returned proof is accepted for the true node, and an intact tree proves every node it has |
| MerkleUpgrade.ExtendsIsPrefix | crates/merkle/src/proof.rs:386-464 | Any upgrade proof accepted with the roots of `a` against the root hash of `b` means `a` is a proper prefix of `b` |
| MerkleUpgrade.UpgradeAccepted | crates/merkle/src/tree.rs:339-386 | A proof holding each largest fully-new subtree once is accepted with the tree's own roots at the old length |
| UpgradeVerifier.Pass | crates/merkle/src/proof.rs:426-453 | One pass keeps what is known derived from the seeds and closes one more level; a pass that changes something reaches a new depth |
| UpgradeVerifier.Saturate | crates/merkle/src/proof.rs:426-453 | The passes end with everything derivable known, and the pass limit is never met by block counts up to its own power of two |
| UpgradeVerifier.LengthFits | crates/merkle/src/proof.rs:429-434 | Every 64-bit block count needs at most 64 levels |
| UpgradeVerifier.VerifyUpgrade | crates/merkle/src/proof.rs:398-464 | Accepts only a true extension, with distinct nodes that lie wholly in the new part, and every honest one |
| UpgradeVerifier.CollectUpgrade | crates/merkle/src/tree.rs:357-386 | The walk emits exactly the largest subtrees past the old length: those that start past it and are the root itself or have a parent that does not |
| UpgradeVerifier.UpgradeProofOf | crates/merkle/src/tree.rs:339-355 | Exists exactly for `0 < old < new <= len`, lists each largest new subtree once in index order, and is accepted |
| MerkleRange.LevelStep | crates/merkle/src/proof.rs:298-352 | Merging a node keeps the level's shape: unfinished nodes at one depth, new ones above children that left |
| MerkleRange.FrontStep | crates/merkle/src/tree.rs:289-314 | On an honest climb every complete node touching the range is on the frontier or merged into its parent |
| MerkleRange.MergeCommits | crates/merkle/src/proof.rs:317-351 | If the frontier after a merge is true then it was true before, whichever sibling was supplied |
| RangeVerifier.ClimbLevel | crates/merkle/src/proof.rs:312-351 | One level keeps that a true frontier makes the data true, and never fails on an honest proof |
| RangeVerifier.ClimbToRoots | crates/merkle/src/proof.rs:296-352 | The level loop ends on root indices; on honest proofs it stays within its guard |
| RangeVerifier.VerifyRange | crates/merkle/src/proof.rs:261-369 | Accepted data is exactly the range and matches the declared sizes, and honest proofs pass |
| RangeProver.BoundaryDone | crates/merkle/src/tree.rs:289-314 | When the frontier is all roots every needed sibling was supplied |
| RangeProver.RangeProofOf | crates/merkle/src/tree.rs:275-322 | Exists exactly for non-empty ranges inside the log, holds needed nodes only and all of them, and so is accepted |
| Hypercore.HonestNeverConflicts | crates/hypercore/src/lib.rs:326-332 | If only the writer signs under its key, no two heads of one fork conflict, whatever heads are offered |
| Hypercore.HonestNeverForks | crates/hypercore/src/replica.rs:17-22 | If only the writer signs under its key, no fork proof against it verifies, whatever it carries |
| Hypercore.VerifiedIsVouched | crates/hypercore/src/lib.rs:276-278 | If only the writer signs under its key, a head that verifies states a fork, length and root the writer signed together |
| Hypercore.EquivocationIsCaught | crates/hypercore/src/replica.rs:11-23 | Two histories of one fork, of any lengths, that differ at a block both have: their heads and accepted proofs of that block are an accepted fork proof |
| Hypercore.EquivocationHasProof | crates/hypercore/src/replica.rs:11-23 | Such a fork proof always exists |
| Hypercore.ConflictIsCaught | crates/hypercore/src/lib.rs:326-332 | Heads of one fork conflict exactly when the histories have one length and differ |
| Hypercore.Core.Resign | crates/hypercore/src/core.rs:184-189 | The head becomes the signature of the log as it stands, and nothing else is signed |
| Hypercore.Core.Append | crates/hypercore/src/core.rs:192-201 | Extends the log under a current head; a failed write changes nothing; honesty of the signed record is kept |
| Hypercore.Core.WriteAll | crates/hypercore/src/core.rs:333-344 | Stores every block or, on failure, leaves none of those written; nothing else in the store changes |
| Hypercore.Core.Commit | crates/hypercore/src/core.rs:322-356 | All of the batch under one head, or, when stale or failed, no change to tree, head or presence and none of the batch left in the store |
| Hypercore.Core.Truncate | crates/hypercore/src/core.rs:265-281 | Rewinds under the next fork exactly when something goes and the prologue stays |
| Hypercore.Core.Block | crates/hypercore/src/core.rs:429-439 | Exactly the present blocks read back, with their bytes |
| Hypercore.Core.Clear | crates/hypercore/src/core.rs:477-490 | Drops exactly the present blocks of the range and counts them; the tree and head stay |
| Hypercore.Core.CopyPrologue | crates/hypercore/src/core.rs:379-403 | Copies exactly when the source's prefix hashes to the prologue and all its blocks are present; states what a failure on a missing block leaves behind |
| Hypercore.CopyStopsShort | crates/hypercore/src/core.rs:379-403 | A source that cleared the second of two prologue blocks leaves the first one appended and unsigned |
| Replica.Replica.AddBlock | crates/hypercore/src/replica.rs:60-79 | Accepts exactly the next verified block, which is the block of every history with that root; reaching the head's end makes it the verified head; every verified head is the root of the replica's own prefix |
| Replica.Replica.VerifyUpgradeTo | crates/hypercore/src/replica.rs:100-108 | Accepts only signed heads whose every history properly extends the replica, and accepts an honest offer |
| Replica.Replica.VerifyReorg | crates/hypercore/src/replica.rs:150-195 | Accepts only signed higher-fork heads whose every history shares the claimed ancestor prefix, and accepts every honest offer |
| Replica.Replica.Reorg | crates/hypercore/src/replica.rs:208-219 | Keeps exactly the shared prefix, with a verified head only for a pure truncation; a refusal changes nothing |
| Replica.Refetch | crates/hypercore/src/tests.rs:1170-1188 | After a reorg, blocks accepted against the head up to its length leave the replica equal to that history with that verified head; honestly served blocks are all accepted |
| Replica.Open | crates/hypercore/src/replica.rs:274-302 | Over any saved state: refused, or unable to find a root, or opened, each exactly when; a replica opened with a head has the roots of the history the head states; of what a replica saved, it reopens the whole tree at the verified head exactly when this key signed it and it is the saved tree's root there |
| Replica.PersistedOpens | crates/hypercore/src/replica.rs:260-266 | What any reachable replica saves is accepted on reopening |
| BeeKeys.RankOrder | crates/hyperbee/src/btree.rs:73-86 | Bytewise key order is a total order embedded in the reals |
| BeeKeys.MapLaws | crates/hyperbee/src/btree.rs:129-153 | On sorted lists a put is the map update and a removal the map removal |
| BeeKeys.RemoveAbsent | crates/hyperbee/src/btree.rs:381-393 | Exactly the removal of an absent key changes nothing |
| BeeKeys.SortedUnique | crates/hyperbee/src/btree.rs:247-270 | A sorted list is determined by the map it stands for |
| BeeNodes.WeaveCut | crates/hyperbee/src/btree.rs:186-204 | A node's entry list cut at an entry is the lists of two nodes |
| BeeNodes.FlatStays | crates/hyperbee/src/btree.rs:88-101 | Appending blocks changes nothing under earlier blocks |
| BeePut.InsertFacts | crates/hyperbee/src/btree.rs:155-204 | Insertion under a block puts into its entries, keeps all leaves at one depth and every fill legal, splitting or not |
| BeePut.PutFacts | crates/hyperbee/src/btree.rs:129-153 | A put keeps the tree balanced and sorted over earlier blocks, and acts on the map as an update |
| BeePut.NodeSizes | crates/hyperbee/src/lib.rs:31-38 | In a sound tree every node has at most eight entries, every node but the root at least four, and all leaves lie equally deep |
| BeeDelete.RotateRight | crates/hyperbee/src/btree.rs:470-486 | Borrowing from the left keeps the entries of both nodes and the separator |
| BeeDelete.RotateLeft | crates/hyperbee/src/btree.rs:487-502 | Borrowing from the right does too |
| BeeDelete.RebalanceFacts | crates/hyperbee/src/btree.rs:470-516 | Borrow or merge keeps the node's entries, restores every child's fill and costs it at most one key |
| BeeDelete.RebalanceCases | crates/hyperbee/src/btree.rs:470-516 | Which neighbour a short child borrows from or merges with, and the entries and children that result |
| BeeDelete.SeparatorFrom | crates/hyperbee/src/btree.rs:411-454 | A deleted separator is replaced from the side whose boundary leaf is longer, from the left when equal |
| BeeDelete.DeleteMinFacts | crates/hyperbee/src/btree.rs:520-535 | Takes out the smallest entry and leaves a balanced rest at most one key short |
| BeeDelete.DeleteMaxFacts | crates/hyperbee/src/btree.rs:539-555 | Takes out the largest entry likewise |
| BeeDelete.DeleteFacts | crates/hyperbee/src/btree.rs:411-464 | Deletion under a block removes exactly the key from its entries and reports presence and underflow |
| BeeDelete.DelFacts | crates/hyperbee/src/btree.rs:387-406 | A deletion keeps the tree balanced and sorted, acts on the map as a removal, and appends nothing exactly when the key is absent |
| BeeRange.FilterReversed | crates/hyperbee/src/btree.rs:247-270 | Filtering commutes with reversal |
| BeeRange.RangedIs | crates/hyperbee/src/btree.rs:247-270 | Without a limit a read gives exactly the entries whose key lies within every bound set, inclusive or exclusive, strictly ascending, or descending when reversed |
| BeeRange.LimitIs | crates/hyperbee/src/btree.rs:247-270 | A limit keeps that many entries from the front of the unlimited read |
| BeeRange.RangeIter.constructor | crates/hyperbee/src/btree.rs:234-243 | The iterator starts with the eager range as what it has yet to yield |
| BeeRange.RangeIter.Turn | crates/hyperbee/src/btree.rs:751-798 | Each turn of the loop pops, descends or comes to the next entry of the traversal, with fewer steps left |
| BeeRange.RangeIter.Next | crates/hyperbee/src/btree.rs:732-799 | Yields the head of what it has yet to yield and keeps the rest, for every tree, bounds, direction and limit |
| Hyperbee.SearchNode | crates/hyperbee/src/btree.rs:73-86 | A search of one node settles the lookup or leaves it to one child |
| Hyperbee.RunFacts | crates/hyperbee/src/btree.rs:129-153 | After any run of puts and deletes the tree is balanced and sorted and stands for the map after them |
| Hyperbee.OldVersions | crates/hyperbee/src/btree.rs:88-101 | The blocks up to a recorded version never change and stand for the map as it was |
| Hyperbee.Bee.AppendNode | crates/hyperbee/src/btree.rs:53-62 | Appends to the log, or to the open batch leaving the log alone |
| Hyperbee.Bee.GetFrom | crates/hyperbee/src/btree.rs:73-86 | The descent returns the lookup in the entries under the block |
| Hyperbee.Bee.Get | crates/hyperbee/src/btree.rs:65-70 | The map's value |
| Hyperbee.Bee.GetAt | crates/hyperbee/src/btree.rs:96-101 | The value in the map as of a version |
| Hyperbee.Bee.Collect | crates/hyperbee/src/btree.rs:367-379 | Appends the entries under the block in order |
| Hyperbee.Bee.RangeFrom | crates/hyperbee/src/btree.rs:247-270 | The entries in bounds, in the order asked for, up to the limit |
| Hyperbee.Bee.RangeOf | crates/hyperbee/src/btree.rs:207-209 | The range over the whole map |
| Hyperbee.Bee.RangeAt | crates/hyperbee/src/btree.rs:212-218 | The range as of a version |
| Hyperbee.Bee.Iter | crates/hyperbee/src/btree.rs:234-243 | A lazy iterator that will yield exactly the eager range |
| Hyperbee.Bee.FinishNode | crates/hyperbee/src/btree.rs:186-204 | Appends a node, or its halves around the median when it has nine keys |
| Hyperbee.Bee.InsertAt | crates/hyperbee/src/btree.rs:155-183 | Computes the insertion that InsertFacts is about |
| Hyperbee.Bee.PutKey | crates/hyperbee/src/btree.rs:129-153 | The tree stands for the updated map, staged or not |
| Hyperbee.Bee.RebalanceChild | crates/hyperbee/src/btree.rs:470-516 | Computes the rebalancing that RebalanceFacts is about |
| Hyperbee.Bee.DeleteAt | crates/hyperbee/src/btree.rs:411-454 | Computes the deletion that DeleteFacts is about |
| Hyperbee.Bee.DelKey | crates/hyperbee/src/btree.rs:387-406 | The tree stands for the map without the key; the answer is whether it was there; an absent key appends nothing |
| Hyperbee.Bee.CommitBatch | crates/hyperbee/src/btree.rs:695-700 | The log becomes the log with the staged blocks, or stays as it was when a write fails; a batch is never stale |
| Hyperbee.Bee.DropBatch | crates/hyperbee/src/btree.rs:704-707 | The log is as it was |
| Hyperbee.Bee.RunBatch | crates/hyperbee/src/btree.rs:672-708 | A committed batch appends exactly the blocks its operations append directly; a dropped or failed one changes nothing |
| LogRecords.ParseCut | crates/storage/src/log.rs:65-90 | A log cut at any byte parses to exactly its whole records |
| LogRecords.Layout | crates/storage/src/log.rs:30-42 | Byte for byte: key in eight bytes low first, kind, length in four bytes low first, value |
| LogRecords.FrontEncode | crates/storage/src/log.rs:35-42 | Parsing inverts encoding byte for byte |
| LogRecords.PutReadsBack | crates/storage/src/log.rs:35-42 | A log with one more put reads back as that if and only if the value is shorter than 2^32 bytes |
| LogRecords.ReplayIndexes | crates/storage/src/log.rs:56-96 | The replayed index finds every live value in the file, and nothing else |
| LogRecords.Conservation | crates/storage/src/log.rs:150-185 | Every byte of the file belongs to a live record or is counted dead |
| LogStore.Reopens | crates/storage/src/log.rs:56-96 | Replaying an uncut file reads back its records, hence the same index, end and dead count |
| LogStore.CrashCut | crates/storage/src/log.rs:53-96 | A file cut anywhere past its last compaction reopens as the map after some prefix of the writes since it was opened |
| LogStore.LogStore.Open | crates/storage/src/log.rs:56-96 | Over any bytes: the whole records at the front, replayed, and the rest dropped |
| LogStore.LogStore.Get | crates/storage/src/log.rs:162-173 | The map's value, also after a value too long for its length field |
| LogStore.LogStore.Put | crates/storage/src/log.rs:150-160 | Updates the map to what the length field lets through, for values of any size; a value that fits keeps the file a log of records, at most 4096 bytes or twice its live bytes |
| LogStore.LogStore.Delete | crates/storage/src/log.rs:175-185 | Removes from the map, writing nothing for an absent key; the size bound is kept |
| LogStore.LogStore.MaybeCompact | crates/storage/src/log.rs:134-139 | Compacts exactly on its guard without changing the map, and establishes the size bound |
| LogStore.LogStore.Compact | crates/storage/src/log.rs:104-132 | Rewrites the file to exactly the live bytes with the same map, making it a log of records again |
| LogStore.RunStore | crates/storage/src/log.rs:56-185 | Any run of puts, deletes and reopenings from an empty file holds the map of the run in a clean log within the size bound |
| Words.MaskBits | crates/storage/src/bitfield.rs:47-56 | A word mask has exactly the bits it names |
| Words.MaskedCount | crates/storage/src/bitfield.rs:76-88 | Counting ones under a mask counts the ones in its range |
| Bitfield.PageSetRange | crates/storage/src/bitfield.rs:59-73 | The word loop sets exactly the bits of the range |
| Bitfield.PageCountSet | crates/storage/src/bitfield.rs:76-88 | The word loop counts the page's set bits in the range |
| Bitfield.PageFindFirst | crates/storage/src/bitfield.rs:91-104 | The first offset with the value, or that there is none |
| Bitfield.PageFindLast | crates/storage/src/bitfield.rs:107-123 | The last offset with the value, or that there is none |
| Bitfield.TallyIsCard | crates/storage/src/bitfield.rs:175-192 | Counting along the range is the cardinality of the matching indices |
| Bitfield.Field.Get | crates/storage/src/bitfield.rs:132-137 | Membership in the set |
| Bitfield.Field.Set | crates/storage/src/bitfield.rs:141-149 | Changes exactly one membership, and clearing adds no page |
| Bitfield.Field.SetRange | crates/storage/src/bitfield.rs:155-169 | Changes exactly the memberships of the range, and clearing adds no page |
| Bitfield.Field.Count | crates/storage/src/bitfield.rs:175-192 | The number of matching indices in the range |
| Bitfield.Field.FindFirstSet | crates/storage/src/bitfield.rs:199-209 | The nearest set index above, or that there is none |
| Bitfield.Field.FindFirstUnset | crates/storage/src/bitfield.rs:210-225 | Always terminates with the nearest unset index above |
| Bitfield.Field.FindLastSet | crates/storage/src/bitfield.rs:232-246 | The nearest set index below, or that there is none |
| Bitfield.Field.FindLastUnset | crates/storage/src/bitfield.rs:247-267 | The nearest unset index below; none exactly when all are set |

## Left out

- The order of what is finalized on a forked history: when exactly growth keeps it is not stated,
  only that it does while no fork was resolved.
- A room's finalized state after such a reordering is not the fold of what is finalized then: it is
  refolded by length, as `Room.Room.Advance` states; the folds are stated exact for steady rooms, and
  for every room right after a replay.
- Real digests and signatures: hash collisions and signature forgery are outside the model.
- Machine-word limits: lengths, offsets and counters are unbounded, so `u64` overflow of
  `2 * len`, of a page index or of a fork counter is not modelled.
- UpgradeVerifier.VerifyUpgrade: acceptance of honest proofs is stated for new lengths below two to the
  4096th, where the pass limit lies; every 64-bit length is below it.
- RangeVerifier.VerifyRange: likewise for trees below two to the 256th blocks.
- Quorum.QuorumDegree: requires that a sole indexer has not seen the target, since the loop has no exit otherwise.
- Replica.Open: the inner nodes of a saved tree are not checked against anything in the source, so only
  its roots are stated to be those of the signed history.
- Ingest.OnRemoteBlock: requires that the writer's earlier blocks all decoded; after one that did not, the
  writer's later blocks wait forever.
- Bitfield pages and Merkle node maps are values that fields are reassigned to; updating words and
  boxed pages in place is not captured.
- The iterator holds the blocks it borrowed as a value instead of a reference to the tree.
- Storage failures other than a failing write in append and commit; user data, streams, snapshots,
  purge, sweep, metadata and tree serialization, `recover_signed_suffix`.
- Compare-and-swap, diff, history, sub-databases and the node codec of the B-tree.
- The rest of a room: announcements, checkpoints, own-feed recovery and the finalized delta queue; the
  entry codec is a parameter.
- Transports, drivers, servers, browser and file I/O, codecs, manifests and identities.
