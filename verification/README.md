# Merkle paths and launcher topology

Two parts of eos-tools, as Dafny models with their proofs.

**The incremental Merkle tree and its block-inclusion paths** (`src/merkle/incremental_merkle.cpp`).
Every block of the simulated chain carries a compact Merkle state over the ids of all earlier blocks.
From these states alone the program rebuilds a path from a block to a full sub-branch of a later
block's tree, and checks it. The reference the proofs measure this against is `MerkleTree.Node`: the
root of the perfect subtree at a layer and an index, written over the block ids. The main results:

- every path the builder makes is the path of siblings in the reference tree, and the checker accepts
  it (`SimChain.PathIsComplete`, and the contract of the builder itself);
- conversely, a path of three or more digests that ends in the root of one of the anchor's full
  sub-branches is accepted exactly when it is a branch of that sub-branch, up from where its length puts it
  (`SimChain.AnyPathIsSound`). Only if it has one digest more than the sub-branch has layers does it show
  blocks: then the accepted paths are the inclusion paths of the blocks below, and those a prefix of which
  hashes to the opaque root the chain started from (`SimChain.PathIsSound`). The side bits alone say which
  of the two it must be, and past the opaque blocks it is always the first (`PathIsSoundBySideBits`);
- appending keeps the compact state equal to the reference tree's (`AppendKeepsRepresents`), its root
  is that of the batch algorithm (`IncrementalIsBatch`), and the self-check accepts a correctly
  sized state with the true root exactly when its other nodes are the true ones (`PassesIffTrueNodes`).

**The launcher's layout, allocation and wiring** (`src/eosio-launcher2/main.cpp`), without its I/O: node
names, the spread of instances over hosts, producer names and their allocation, the walk over node
indices that skips bios, and the ring and mesh. It covers any number of bios instances in any
places. The main results: producer names can be read back, so they are distinct for all 32-bit numbers; a
layout hands out exactly the asked-for producers if and only if enough of its instances are not bios, which
some server files miss (`TwoBiosUnderAllocate`); the exact sizes for which the ring is one cycle and the
mesh links every pair; and exactly when bios stays out of both.

## How it is modelled

- The hash is a parameter `h`: nothing is assumed of it. Soundness and binding assume `CollisionFree(h)`
  (injective up to the side bit of the result), the self-check method assumes `NeverZero(h)`;
  `Digests.SymbolicHashMeetsBoth` shows both can hold together for any choice of side bits.
- A digest is its side bit (bit `0x80` of the first word) and the rest. "Up to side bits" is `Same`.
- `incremental_merkle::append`, `get_root` and `calcluate_max_depth` are EOSIO library code and not part
  of the repository. They are modelled by what their callers rely on: the depth is 0 for an empty tree
  and `ceil(log2 n) + 1` otherwise; `append` walks up from the new leaf over the bits of the old count,
  keeping full nodes and pairing a node without a right sibling with itself.
- A chain starts at block 1 over an empty tree (`Genesis`), or at block `2^exp + 1`, `exp >= 1`, over one
  opaque root (`Snapshot`), as `main` does with `exp = 14`.
- C++ copies `incremental_merkle` by value, so its state is a datatype (`State`); the class around it
  changes in place. `sim_chain` and `launcher_def` are classes with the source's fields. Loops are loops;
  some inner loops are methods of their own (`PairUp`, `WriteDigits`, `HandOut`, `AddSiblings`, `WireRing`).
- `uint32` values wrap where the source's do (`Shl32`, `Increment`, `Decrement`). Block numbers and
  counts stay below `2^31`: beyond that `1 << diff` in the cover search shifts an `int` out of range.
- Proofs use `hide` to keep definitions out of lemmas that only need their step lemmas.

## Where the code and its comments differ

- `verify_merkle_path` does not look at layers. The two halves of the first four blocks and their parent are
  accepted for anchor 5, but are nobody's inclusion path (`InteriorPathIsAccepted`). A caller has to compare
  the length of a path with the layer of the active node it ends in.
- `producer_name`: the comments promise "defproducera".."defproducerz" up to 26 and the long form above.
  Number 26 itself gets neither: the test is `> 26`, so it becomes "defproduceba" (`TemplateOf26`). The
  exception for too large numbers cannot be thrown.
- `--per-host` is described as the number of instances on a host. Without a server file any value but 0
  puts one instance on each host, and no instance is bios (`PseudoHostsHoldOne`).
- `initialize` caps the producing nodes at `producers` when there are more than `producers + 1`, so one
  producer and two producing nodes cannot be launched (`LaunchableIff`).
- A server that declares no instances takes all that are left (`Hosts.Taken`); a server file is spread as
  declared exactly when there is no such server (`PartitionIff`).
- `initialize` does not check that the nodes other than bios can take all producers. A server file with
  three producing servers of one instance each, two of them with `has_bios`, leaves one node, which gets 11
  of 21 producers (`TwoBiosUnderAllocate`); `PlanAllocationConserves` has the exact condition.
- The wirings count `total_nodes - 1` nodes besides bios, also where there is no bios or more than one. Among
  three nodes without bios, as `--nodes 2 --per-host 1` makes them, the ring links only two
  (`ThreeHostsMakeNoRing`); among three of which the walk visits a single one, that one becomes its own
  peer, twice (`RingIsOneCycleIff`, `ThreeNodeRing`).
- `start_ndx` looks at the first name only. With bios first and second it starts at a bios, which then is
  visited and linked like a node (`VisitsPlainsIff`, `BiosIsLinkedIff`; `PlanStartsPlainIff` says for which
  server files).
- `skip_ndx` settles on a valid peer whenever there is one, except among three or four nodes, where its budget
  may be a move short (`SkipSettlesIff`). The mesh never meets that, but a lone node is linked to itself or,
  behind two bios, may be linked to bios (`MeshLinksIff`).

## Model

| member | source | states |
|---|---|---|
| Digests.SymbolicHashMeetsBoth | src/merkle/incremental_merkle.cpp:49-59 | the two assumptions on the hash are consistent, whatever the side bit of a hash depends on |
| Bits.CeilLog2Bounds | src/merkle/incremental_merkle.cpp:33 | the depth is the rounded-up logarithm: `2^(d-1) < n <= 2^d` |
| Bits.CeilIsFloorOfPredecessor | src/merkle/incremental_merkle.cpp:65 | iterating `(i + 1) >> 1` on n is iterating `i >> 1` on n - 1, plus one |
| Bits.CeilShrIsCover | src/merkle/incremental_merkle.cpp:135-142 | the rounded-up index is the one index whose block of `2^k` leaves contains the leaf |
| MerkleTree.FullRootAt | src/merkle/incremental_merkle.cpp:96-98 | the root for a set bit of the count stands behind one root for each lower set bit |
| MerkleTree.LastActiveIsRoot | src/merkle/incremental_merkle.cpp:67 | the last active node is the overall root, also when the count is a power of two |
| IncrementalMerkle.IncrementalMerkle.Append | src/merkle/incremental_merkle.cpp:331 | the in-place append ends in the state the walk over the old count's bits describes and returns its last node |
| IncrementalMerkle.AppendKeepsRepresents | src/merkle/incremental_merkle.cpp:366-373 | appending the next block id keeps the state equal to the reference tree's active nodes: full sub-branch roots low bit first, then the root unless the count is a power of two |
| IncrementalMerkle.CollapseIsNodesFrom | src/merkle/incremental_merkle.cpp:366-373 | the same for a walk stopped at any layer, partial or not, whatever it has kept |
| BatchRoot.PrintMerkleTree | src/merkle/incremental_merkle.cpp:290-310 | the in-place layer loop prints the batch root, and nothing for an empty list |
| BatchRoot.PairUp | src/merkle/incremental_merkle.cpp:302-304 | overwriting the front half in place reads only elements not overwritten yet |
| BatchRoot.IncrementalIsBatch | src/merkle/incremental_merkle.cpp:290-336 | for every non-empty list, appending one by one ends in the root of the pairwise batch loop |
| BatchRoot.AppendAllRepresents | src/merkle/incremental_merkle.cpp:328-334 | after n appends the state is the reference tree's over the first n digests |
| BatchRoot.BatchIsRoot | src/merkle/incremental_merkle.cpp:290-310 | the batch root is the root of the reference tree |
| BatchRoot.BatchComposes | src/merkle/merkle.cpp:79-89 | for a of `2^k` and b of more than half and at most `2^k` digests, the root of a ++ b is the canonical-pair hash of the two roots |
| BatchRoot.GenerateIncMerkle | src/merkle/incremental_merkle.cpp:320-336 | the root printed by the batch loop is the one returned by the last append, and the last active node of the tree |
| SelfCheck.IncMerkleVerify | src/merkle/incremental_merkle.cpp:32-68 | the loop with its zero-digest marker computes the verdict `Passes`, never leaving the active list |
| SelfCheck.RepresentedStatePasses | src/merkle/incremental_merkle.cpp:32-68 | every state that stands for a ledger passes |
| SelfCheck.GeneratedTreePasses | src/merkle/incremental_merkle.cpp:443-451 | every tree grown from nothing passes |
| SelfCheck.PassesIffTrueNodes | src/merkle/incremental_merkle.cpp:32-68 | a correctly sized state with the true root passes if and only if all its active nodes are the true ones up to side bits |
| SelfCheck.PassesIffTrueRoot | src/merkle/incremental_merkle.cpp:32-68 | with the true sub-branch roots and the right size, a state of more than one node passes if and only if its root is the true one |
| SelfCheck.PassingStatesAgree | src/merkle/incremental_merkle.cpp:32-68 | two correctly sized states of one count and root that both pass have the same active nodes up to side bits |
| BranchCover.LayerLeftNode | src/merkle/incremental_merkle.cpp:78-113 | the active node for the layer's bit when it is set, the zero digest when it is not or the layer is not below the root; the root for layer 1 |
| BranchCover.FullBranchCover | src/merkle/incremental_merkle.cpp:115-154 | finds the layer, index and root of the sub-branch that covers the block for every 1 <= from <= count, and zeroes otherwise |
| BranchCover.IsUnder | src/merkle/incremental_merkle.cpp:135-142 | below the count limit the shifted 32-bit interval is exactly the leaves under the node |
| BranchCover.CoversIsInterval | src/merkle/incremental_merkle.cpp:135-142 | covering a block means a set bit whose interval of leaves contains it |
| BranchCover.CoverExists | src/merkle/incremental_merkle.cpp:128-154 | every block 1 .. count is covered within the layers of the tree |
| BranchCover.CoverIsUnique | src/merkle/incremental_merkle.cpp:128-154 | no block is covered by two sub-branches |
| BranchCover.CoveredIsCounted | src/merkle/incremental_merkle.cpp:116-119 | only blocks 1 .. count are covered |
| BranchCover.ActiveIsNode | src/merkle/incremental_merkle.cpp:131-143 | in a state that stands for a ledger, the active node of a set bit is the root of the perfect subtree |
| BranchCover.PathPositions | src/merkle/incremental_merkle.cpp:157-176 | for 1 <= from < 2^32 - 1 the positions are the siblings of its ancestors in layers 2 .. toLayer-1 and then its ancestor in toLayer; for 0 and 2^32 - 1, where the index wraps, what they are instead |
| PathCheck.VerifyMerklePath | src/merkle/incremental_merkle.cpp:263-284 | the loop computes the verdict `Accepts`, without reading outside the path; no for an empty path, yes for a single digest |
| PathCheck.PathToAccepted | src/merkle/incremental_merkle.cpp:263-284 | the path of siblings to any ancestor that is not cut off by the opaque root is accepted |
| PathCheck.HashUpInverts | src/merkle/incremental_merkle.cpp:269-283 | hashing that ends in a perfect subtree's root went up the branch its side bits show, with exactly its siblings; with the opaque root on that branch, through a digest that is that root |
| PathCheck.HashUpIff | src/merkle/incremental_merkle.cpp:269-283 | hashing from any layer ends in a perfect subtree's root if and only if the siblings are those of the branch their side bits show, or lead on from the opaque root |
| PathCheck.AcceptsIffShows | src/merkle/incremental_merkle.cpp:263-284 | what the checker accepts among the paths that end in a perfect subtree's root, for every length of the path and every layer of the root |
| PathCheck.AcceptsBySideBits | src/merkle/incremental_merkle.cpp:263-284 | a path of L + 1 >= 3 digests ending in the root of a perfect L-layer subtree is accepted if and only if it is the path of the blocks its side bits lead to or, where these are hidden under the opaque root, a prefix of it hashes to that root |
| PathCheck.AcceptsIffInclusionPath | src/merkle/incremental_merkle.cpp:263-284 | the same without the side bits: accepted if and only if it is the path of some block not hidden under the opaque root, up to the side bits of the first two, or a prefix hashes to that root |
| PathCheck.FromRootEnds | src/merkle/incremental_merkle.cpp:269-283 | what hashes to the opaque root and goes on with the root's siblings ends in the node above it |
| PathCheck.FromRootPointsBelow | src/merkle/incremental_merkle.cpp:269-275 | the side bits of such a path never lead past the opaque blocks |
| SimChain.ChainRepresents | src/merkle/incremental_merkle.cpp:352-373 | every block of a chain built as in `main` carries the reference tree's state over the blocks before it |
| SimChain.PathIsComplete | src/merkle/incremental_merkle.cpp:213-284 | for every chain and every from < anchor in it, the inclusion path is accepted, is the id alone or shows it at place 0 or 1 by parity, and ends in an active node of the anchor |
| SimChain.PathShowsPair | src/merkle/incremental_merkle.cpp:239-246 | the path has one digest more than its sub-branch has layers, or one alone, and its other block is the one `from` shares a parent with, before the anchor in the chain |
| SimChain.AnyPathIsSound | src/merkle/incremental_merkle.cpp:263-284 | a path of three or more digests that ends in the root of a full sub-branch of any layer is accepted if and only if it shows two sibling nodes in the layer its length gives and the branch up from them, or a prefix hashes to a block id or to the opaque root |
| SimChain.InteriorPathIsAccepted | src/merkle/incremental_merkle.cpp:263-284 | in every chain from block 1 an accepted path of three digests that is no block's inclusion path |
| SimChain.PathIsSound | src/merkle/incremental_merkle.cpp:263-284 | of the paths that end in the root of a full sub-branch and have one digest more than it has layers, three or more, the checker accepts exactly the inclusion paths of the chain's blocks under it, and those with a prefix that hashes to the opaque root |
| SimChain.PathIsSoundBySideBits | src/merkle/incremental_merkle.cpp:263-284 | a path of that length whose side bits lead to a block of the chain is accepted if and only if it is the inclusion path of that block |
| SimChain.UnblockedIffPastBase | src/merkle/incremental_merkle.cpp:359-364 | under an active node exactly the chain's own blocks are not hidden by the opaque root |
| SimChain.FrontIsNode | src/merkle/incremental_merkle.cpp:191-193 | the first active node of the block after a sub-branch is that sub-branch's root |
| SimChain.LowFoldStep | src/merkle/incremental_merkle.cpp:203-208 | folding in the next low active node gives the root of the parent subtree |
| SimChain.LeftLookupInChain | src/merkle/incremental_merkle.cpp:192 | the block read for a left sibling lies between the first block and `from` |
| SimChain.RightLookupInChain | src/merkle/incremental_merkle.cpp:195-199 | the block read for a right sibling lies between `from` and the last block counted by the anchor |
| SimChain.SiblingLookup | src/merkle/incremental_merkle.cpp:178-211 | every sibling on the way up is looked up inside the chain, and the lookup finds that sibling whichever of the three sources answers |
| SimChain.SimChain.constructor | src/merkle/incremental_merkle.cpp:359-364 | the chain's first block, over an empty tree or over one opaque root |
| SimChain.SimChain.Extend | src/merkle/incremental_merkle.cpp:366-373 | adds one block that follows the last, and keeps the chain valid |
| SimChain.SimChain.LookupFacts | src/merkle/incremental_merkle.cpp:70-76 | what the two getters return for every number in the chain: the ledger's id, and the state over the blocks before |
| SimChain.SimChain.LeftNodeValue | src/merkle/incremental_merkle.cpp:181-193 | an odd position's value is the perfect-subtree root, from the reference state or from the fallback block |
| SimChain.SimChain.RightNodeValue | src/merkle/incremental_merkle.cpp:194-210 | an even position's value, folded from a later block's low active nodes and id, is the perfect-subtree root |
| SimChain.SimChain.NodeValueInFullSubBranch | src/merkle/incremental_merkle.cpp:178-211 | the value is the perfect-subtree root of the node found, and the zero digest below layer 2 |
| SimChain.SimChain.FirstPair | src/merkle/incremental_merkle.cpp:239-246 | the ids of the block and of the block it shares a parent with, both inside the chain |
| SimChain.SimChain.AddSiblings | src/merkle/incremental_merkle.cpp:248-257 | appends the reference tree's siblings, each with the side bit of its side |
| SimChain.SimChain.PathInSubBranch | src/merkle/incremental_merkle.cpp:232-260 | the "internal error" branch cannot be reached, and the path is the reference path |
| SimChain.SimChain.GetBlockIdMerklePathToAnchorBlock | src/merkle/incremental_merkle.cpp:213-261 | empty when from >= anchor, otherwise the reference inclusion path to the covering sub-branch |
| SimChain.SimChain.TestPaths | src/merkle/incremental_merkle.cpp:376-394 | over any ranges of the chain, a verdict for exactly the pairs of a block and a later anchor in the ranges, by anchor and then block, each of them "yes" |
| SimChain.YesTableIff | src/merkle/incremental_merkle.cpp:376-394 | the loops visit a pair if and only if the anchor is in its range and the block between the first one and the anchor |
| SimChain.YesTableOrdered | src/merkle/incremental_merkle.cpp:376-394 | anchors come in increasing order, and so do the blocks of each, so no pair comes twice |
| ProducerNames.MakeProducerName | src/eosio-launcher2/main.cpp:367-390 | "defproducer" and a letter below 26, "defproduceba" for 26, else "defpr" and seven letters that are the number in base 26; the exception is never thrown |
| ProducerNames.ProducerNameReads | src/eosio-launcher2/main.cpp:365-386 | the same of the name the other theorems are about |
| ProducerNames.WriteDigits | src/eosio-launcher2/main.cpp:378-384 | the loop writes exactly the number's base-26 digits over the end of the buffer and uses the number up |
| ProducerNames.SevenDigits | src/eosio-launcher2/main.cpp:369-386 | a 32-bit number has at most seven base-26 digits |
| ProducerNames.TopDigit | src/eosio-launcher2/main.cpp:369-374 | its seventh digit is at most 'n', so no long name starts like "defproducer" |
| ProducerNames.TemplateOf26 | src/eosio-launcher2/main.cpp:365-374 | number 26 becomes "defproduceba" |
| ProducerNames.NameRoundTrip | src/eosio-launcher2/main.cpp:367-390 | a name can be read back to its number, for every 32-bit number |
| ProducerNames.NamesAreDistinct | src/eosio-launcher2/main.cpp:367-390 | no two 32-bit numbers share a name |
| Allocation.AllHandedOutIff | src/eosio-launcher2/main.cpp:855-890 | all producers are handed out if and only if there are as many nodes as should share them, or as producers |
| Allocation.AllocationConserves | src/eosio-launcher2/main.cpp:850-897 | under that condition, and only then, the schedule without "eosio" is producers 0 .. producers-1, once each and in order |
| Allocation.AllocationBalances | src/eosio-launcher2/main.cpp:855-883 | the sharing nodes' loads differ by at most one, larger ones first; later nodes get none |
| Allocation.RunNamesDiffer | src/eosio-launcher2/main.cpp:883-888 | no name is handed out twice |
| Allocation.NameRunAt | src/eosio-launcher2/main.cpp:883-888 | the k-th name of a run is that of the k-th number after its first |
| LauncherDef.LauncherDef.HandOut | src/eosio-launcher2/main.cpp:883-888 | the innermost loop hands out consecutive names and adds them to the schedule |
| LauncherDef.LauncherDef.BindInstance | src/eosio-launcher2/main.cpp:861-895 | one instance gets its node, its share and its place in the schedule |
| LauncherDef.LauncherDef.BindNodes | src/eosio-launcher2/main.cpp:850-897 | fails exactly below two producing nodes; otherwise every instance has a node with its share, no other entry is made or changed, and the schedule is the concatenation of the shares |
| LauncherSteps.ProducersAtAre | src/eosio-launcher2/main.cpp:855-890 | a bios signs as "eosio"; the node of rank r gets the quotient, one more below the remainder, of producers numbered on from those before it |
| LauncherSteps.ScheduleIsProducersOf | src/eosio-launcher2/main.cpp:879-888 | the schedule is what the nodes hold, in the order of the instances |
| LauncherSteps.PlanAllocationConserves | src/eosio-launcher2/main.cpp:784-897 | over a server file all producers are handed out, once each and in order, if and only if its instances other than bios are as many as should share them, or as the producers |
| LauncherSteps.TwoBiosUnderAllocate | src/eosio-launcher2/main.cpp:850-897 | a server file for which 11 of 21 producers are handed out |
| LauncherDef.LauncherDef.AssignName | src/eosio-launcher2/main.cpp:683-698 | "bios", or the network name followed by the next number in at least two decimal digits |
| Hosts.NodeNameReads | src/eosio-launcher2/main.cpp:691-693 | the same of the name the other theorems are about; a leading zero only makes two digits |
| Hosts.NodeNamesDiffer | src/eosio-launcher2/main.cpp:691-693 | different numbers give different names, none of them "bios" |
| LauncherDef.LauncherDef.LoadServers | src/eosio-launcher2/main.cpp:657-679 | a server file sets the node counts to the sums of the declared instances |
| LauncherDef.LauncherDef.Initialize | src/eosio-launcher2/main.cpp:621-652 | one producing node more than asked for up to `producers`, else `producers`; with a file the declared sum up to `producers` + 1, else `producers`; and the layout from scratch when no bindings were loaded |
| LauncherSteps.SizesAre | src/eosio-launcher2/main.cpp:621-630 | the same of the sizes a launch is stated by, and the number of instances |
| LauncherSteps.LaunchableIff | src/eosio-launcher2/main.cpp:622-630 | exactly which requested sizes leave two producing nodes |
| LauncherDef.LauncherDef.LayoutIsReady | src/eosio-launcher2/main.cpp:769-846 | every layout from scratch can be wired: one name for each node, distinct apart from bios, and as many bios instances as its hosts have |
| LauncherDef.LauncherDef.OpenHost | src/eosio-launcher2/main.cpp:797-822 | the next host is that of the next server, producers first, then made-up ones |
| LauncherDef.LauncherDef.DefineLocal | src/eosio-launcher2/main.cpp:771-783 | one host with all instances and their names as aliases |
| Hosts.LocalNamesAre | src/eosio-launcher2/main.cpp:771-783 | these are "bios" and then the nodes by number |
| LauncherSteps.HostsAre | src/eosio-launcher2/main.cpp:769-846 | what a launch lays out: that host from number 0 on, a server file's servers with the nodes numbered throughout, or one numbered node on each host |
| LauncherDef.LauncherDef.DefineServers | src/eosio-launcher2/main.cpp:784-845 | the bindings are the plan of hosts, and the aliases the names in it, host by host |
| LauncherDef.LauncherDef.DefineNetwork | src/eosio-launcher2/main.cpp:769-846 | either of the two, by `per_host` |
| Hosts.PartitionIff | src/eosio-launcher2/main.cpp:784-845 | one binding for each server, in order, with exactly its declared instances, if and only if every server declares one |
| Hosts.PlanSizes | src/eosio-launcher2/main.cpp:791-841 | the hosts are those of the servers in order, each with its declared instances but the last, which may hold fewer, or all that are left if it declares none |
| Hosts.MadeUpServer | src/eosio-launcher2/main.cpp:812-818 | beyond the file hosts are named "pseudo_" and their number, hold one instance and no bios |
| Hosts.PlanBios | src/eosio-launcher2/main.cpp:791-841 | "bios" is the first instance of each has_bios host and no other |
| LauncherSteps.PlanNamesDiffer | src/eosio-launcher2/main.cpp:683-698 | names other than bios are pairwise distinct |
| Wiring.PlanCounts | src/eosio-launcher2/main.cpp:784-845 | the plan places all instances; all but one for each host with bios are numbered, consecutively |
| Hosts.PseudoHostsHoldOne | src/eosio-launcher2/main.cpp:812-818 | without a server file every host has one instance, whatever `per_host` says, and none is bios |
| LauncherDef.LauncherDef.NextNdx | src/eosio-launcher2/main.cpp:1286-1296 | the next index other than bios or, past the last, the start, with the wrap reported also through the recursive call; whatever the names are |
| LauncherDef.LauncherDef.Traverse | src/eosio-launcher2/main.cpp:1315 | the loop both shapes share ends, and visits the start and then the later indices other than bios in increasing order |
| Traversal.VisitedIff | src/eosio-launcher2/main.cpp:1282-1296 | an index is visited if and only if it is not bios or is the start |
| Traversal.VisitsPlainsIff | src/eosio-launcher2/main.cpp:1282-1296 | exactly the indices other than bios are visited if and only if not both of the first two names are bios |
| Traversal.VisitsIncrease | src/eosio-launcher2/main.cpp:1286-1296 | the visits are in increasing order, so none comes twice |
| LauncherSteps.PlanStartsPlainIff | src/eosio-launcher2/main.cpp:784-845 | the same in terms of the server file: unless the first server has bios as its only instance and the second has one too |
| LauncherDef.LauncherDef.SkipNdx | src/eosio-launcher2/main.cpp:1298-1307 | where the walk with its attempt budget ends, for any names, start and offset |
| Traversal.SkipSettlesIff | src/eosio-launcher2/main.cpp:1298-1307 | for any names, more than two: it ends on neither bios nor where it started if and only if there is another node and, among three or four, it is within the one or two moves of the budget |
| Traversal.ThreeMoves | src/eosio-launcher2/main.cpp:1298-1307 | another node than bios and the start, if there is one, is at most three moves away |
| LauncherDef.LauncherDef.MakeRing | src/eosio-launcher2/main.cpp:1309-1328 | the bound nodes, each visited one with the peers of the ring: the next one above three nodes, the pair among three, none below; no other entry is made or changed |
| Wiring.RingIsOneCycleIff | src/eosio-launcher2/main.cpp:1309-1328 | every visited node has exactly the next one as its peer if and only if there are more than three names, or three of which exactly one is bios or only the first two are |
| Wiring.RingOfFew | src/eosio-launcher2/main.cpp:1320-1327 | among fewer than three nodes no links; among three the first two visited as a pair and a third without peers, or a single one linked to itself twice |
| LauncherSteps.ThreeHostsMakeNoRing | src/eosio-launcher2/main.cpp:1320-1327 | a layout of three hosts without bios, whose ring leaves a node out |
| Wiring.RingIsOneCycle | src/eosio-launcher2/main.cpp:1309-1328 | then from any node the peers reach every visited node, each after its own number of steps, and then the start again |
| LauncherDef.LauncherDef.MakeMesh | src/eosio-launcher2/main.cpp:1382-1405 | the bound nodes, each visited one with a peer for every offset; no other entry is made or changed |
| Traversal.MeshLinksIff | src/eosio-launcher2/main.cpp:1394-1396 | exactly which nodes the offsets of a visited node reach, for any names, more than two |
| Wiring.MeshPeersIff | src/eosio-launcher2/main.cpp:1382-1405 | exactly which names are peers of a visited node; where it has another node to link to, all others but bios and, unless a bios stands before that, the node just before it |
| Wiring.MeshPeersInOrder | src/eosio-launcher2/main.cpp:1394-1403 | two peers fewer than nodes, one for each offset in order: the node there or, where that is bios, the next one |
| Wiring.MeshIsComplete | src/eosio-launcher2/main.cpp:1382-1405 | every two nodes other than bios are peers one way or the other if and only if there are more than two nodes, and neither is its own peer or has bios as one |
| Wiring.BiosIsLinkedIff | src/eosio-launcher2/main.cpp:1282-1405 | in ring and mesh of at least three nodes, bios has or is a peer if and only if the first two names both are bios |
| LauncherDef.LauncherDef.Prepare | src/eosio-launcher2/main.cpp:621-652 | from fresh fields to a layout that can be wired, with the sizes asked for after the cap |
| LauncherDef.LauncherDef.Wire | src/eosio-launcher2/main.cpp:703-710 | ring or mesh: every instance has its node with its producers and planned peers, there is no other new node, the schedule is what the nodes hold, and whether that is all producers |
| LauncherDef.Generate | src/eosio-launcher2/main.cpp:621-710 | from the requested sizes or a server file to a wired network: the layout, exactly when it can be launched, exactly one node for each name with its producers and peers, and exactly when all producers are handed out |

## Left out

- SHA-256, keys, JSON, printing and random digests: library code or I/O; the hash is a parameter.
- PathCheck.VerifyMerklePath: does not cover paths of two digests, on which the source's loop bound wraps and it reads past the end.
- SelfCheck.IncMerkleVerify: assumes no hash is the zero digest, which the source uses to mean that nothing has been hashed yet.
- SelfCheck.PassesIffTrueNodes: is about lists of the right size. The source also accepts a lone active node for a count that is not a power of two, unseen, and over-long lists, whose nodes between the used ones and the root it never reads.
- SimChain.PathIsSound: is about paths whose length fits the layer of the node they end in; `AnyPathIsSound` has the others. What lies under the opaque root is not known to the model, so for a path from there it says only that a prefix hashes to that root.
- SimChain.AnyPathIsSound: says nothing about paths of a single digest, which the checker accepts whatever they hold, nor about paths that end in the overall root of a tree that is not full, which the path builder never makes.
- SimChain.SimChain.Extend: stops at block number `2^31`, where the cover search would shift an `int` out of range.
- SimChain.SimChain.NodeValueInFullSubBranch: takes reference states that stand for the chain, as the path builder passes them.
- LauncherDef.LauncherDef.BindNodes: takes fewer than `2^31` producers and nodes, so that the conversions to `int` are exact, and distinct names other than bios, as `define_network` makes them; keys and log endpoints of a node are not modelled.
- LauncherDef.LauncherDef.DefineServers: needs at least one instance in all; with none the source dereferences a null host. Ports, directories, the `has_db` flag and the 16-bit width of `instances` are not modelled.
- LauncherDef.LauncherDef.MakeMesh: makes no claim that a peer list has no duplicates; the source's guard against them counts in a set and always holds, and duplicates do arise.
- `make_star` and `make_custom`: the star assigns through a reference into the name table while wiring, and the custom shape is read from a file.
- Host map files: `aliases` and `bindings` read from a file are not modelled.
- Starting, stopping and configuring nodes, genesis and config files: I/O.
- The block log, fork database, checkpoint and PBFT tools: they print library containers.
