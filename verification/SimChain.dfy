/** The simulated chain, and the paths rebuilt from its blocks' compact states alone. */
module SimChain {
  import opened Bits
  import opened Digests
  import opened MerkleTree
  import opened IncrementalMerkle
  import opened BranchCover
  import opened PathCheck

  /** A block and the compact tree over the ids of all blocks before it. */
  datatype SimBlock = SimBlock(blockNum: uint32, blockId: Digest, blockrootMerkle: State)

  function FirstNum(start: Start): nat { BaseCount(start) + 1 }

  function FirstState(start: Start): State {
    if start.Genesis? then State(0, []) else State(BaseCount(start), [start.root])
  }

  predicate Follows(h: HashFn, block: SimBlock, next: SimBlock) {
    && WellSized(block.blockrootMerkle)
    && next.blockNum == block.blockNum + 1
    && next.blockrootMerkle == Appended(h, block.blockrootMerkle, block.blockId)
  }

  /** The chains `main` builds: each block copies its parent's tree and appends the parent's id. */
  ghost predicate IsChain(h: HashFn, start: Start, blocks: seq<SimBlock>) {
    && ValidStart(start)
    && blocks != []
    && blocks[0].blockNum == FirstNum(start)
    && blocks[0].blockrootMerkle == FirstState(start)
    && forall i, j :: 0 <= i < j < |blocks| && j == i + 1 ==> Follows(h, blocks[i], blocks[j])
  }

  function LedgerOf(start: Start, blocks: seq<SimBlock>): Ledger {
    Ledger(start, seq(|blocks|, i requires 0 <= i < |blocks| => blocks[i].blockId))
  }

  lemma {:induction false} FirstStateRepresents(h: HashFn, led: Ledger)
    ensures Represents(h, led, FirstState(led.start))
  {
    if led.start.Snapshot? {
      FullRootsShift(h, led, 1, 1, led.start.exp);
      assert 1 * Pow2(led.start.exp) == BaseCount(led.start);
      FullRootsStep(h, led, led.start.exp + 1, 0);
      OnesPow2(led.start.exp);
    }
  }

  /** Every block of the chain carries the compact state of the reference tree over its predecessors. */
  lemma {:induction false} ChainRepresents(h: HashFn, start: Start, blocks: seq<SimBlock>, i: nat)
    requires IsChain(h, start, blocks) && i < |blocks|
    ensures ValidStart(start) && LedgerOf(start, blocks).start == start && FirstNum(start) >= 1
    ensures blocks[i].blockNum == FirstNum(start) + i
    ensures blocks[i].blockrootMerkle.nodeCount == FirstNum(start) + i - 1
    ensures BlockId(LedgerOf(start, blocks), FirstNum(start) + i) == blocks[i].blockId
    ensures Represents(h, LedgerOf(start, blocks), blocks[i].blockrootMerkle)
  {
    var led := LedgerOf(start, blocks);
    if i == 0 {
      FirstStateRepresents(h, led);
    } else {
      ChainRepresents(h, start, blocks, i - 1);
      assert Follows(h, blocks[i - 1], blocks[i]);
      AppendKeepsRepresents(h, led, blocks[i - 1].blockrootMerkle);
    }
  }

  // ----- which layer covers a block

  lemma {:induction false} SomeCover(count: nat, from: nat)
    requires 1 <= from <= count
    ensures exists layer: nat :: Covers(count, from, layer)
  {
    var layer := CoverExists(count, from);
  }

  /** The layers of the full sub-branch that covers `from`; `CoverIsUnique` says there is only one. */
  ghost function CoverLayer(count: nat, from: nat): (layer: nat)
    requires 1 <= from <= count
    ensures Covers(count, from, layer) && layer >= 1 && LastFull(count, layer) % 2 == 1
  {
    SomeCover(count, from);
    var layer: nat :| Covers(count, from, layer);
    layer
  }

  // ----- the main theorem

  /** A path the checker accepts that is the id of block `from` alone, or shows it in its first or second
      place by parity, and that ends in `root`. */
  predicate Proves(h: HashFn, path: seq<Digest>, from: nat, id: Digest, root: Digest) {
    && |path| != 2 && Accepts(h, path)
    && (|path| == 1 ==> path == [id])
    && (|path| > 1 ==> path[if from % 2 == 1 then 0 else 1] == id)
    && path[|path| - 1] == root
  }

  /** Every block before `anchor` has an inclusion path in the anchor's tree that proves it from an
      active node of the anchor. */
  lemma {:induction false} PathIsComplete(h: HashFn, start: Start, blocks: seq<SimBlock>, from: nat, anchor: nat)
    requires IsChain(h, start, blocks)
    requires FirstNum(start) <= from < anchor < FirstNum(start) + |blocks|
    ensures var m := blocks[anchor - FirstNum(start)].blockrootMerkle;
      && m.nodeCount == anchor - 1 && WellSized(m)
      && var layer := CoverLayer(m.nodeCount, from);
         && ActiveAt(m, layer) in m.activeNodes
         && Proves(h, InclusionPath(h, LedgerOf(start, blocks), from, layer), from,
                   blocks[from - FirstNum(start)].blockId, ActiveAt(m, layer))
  {
    hide *;
    var i, j := from - FirstNum(start), anchor - FirstNum(start);
    ChainRepresents(h, start, blocks, i);
    ChainRepresents(h, start, blocks, j);
    var led, layer := LedgerOf(start, blocks), CoverLayer(anchor - 1, from);
    ActiveIsNode(h, led, blocks[j].blockrootMerkle, layer);
    CoverPath(h, led, from, anchor - 1, layer);
  }

  /** The same over a ledger: the path ends in the root of the sub-branch that covers `from`. */
  lemma {:induction false} CoverPath(h: HashFn, led: Ledger, from: nat, count: nat, layer: nat)
    requires ValidStart(led.start) && from >= FirstNum(led.start) && Covers(count, from, layer)
    ensures Proves(h, InclusionPath(h, led, from, layer), from, BlockId(led, from),
                   Node(h, led, layer, LastFull(count, layer)))
  {
    LiveUnblocked(led.start, 1, from, layer);
    hide PathTo, CeilShr, Shr;
    if layer > 1 {
      PathToAccepted(h, led, from, layer);
      PathToEnds(h, led, from, layer);
    } else {
      AncestorStart(from);
    }
  }

  /** What an accepted path proves: among the paths that end in the root of the anchor's full sub-branch for
      their length, of one layer less than they have digests, the checker accepts exactly the inclusion
      paths of the blocks of the chain under it, and those that start from what hashes to the opaque root. */
  lemma {:induction false} PathIsSound(h: HashFn, start: Start, blocks: seq<SimBlock>, path: seq<Digest>, anchor: nat)
    requires IsChain(h, start, blocks) && CollisionFree(h) && |path| >= 3
    requires FirstNum(start) <= anchor < FirstNum(start) + |blocks|
    requires EndsInLayer(blocks[anchor - FirstNum(start)], path, |path| - 1)
    ensures Accepts(h, path) <==>
      || IsPathFromRoot(h, LedgerOf(start, blocks), path, LastFull(anchor - 1, |path| - 1))
      || exists from: nat :: from >= FirstNum(start) && Covers(anchor - 1, from, |path| - 1)
                             && IsPathOf(h, LedgerOf(start, blocks), path, from)
  {
    hide *;
    EndsInNode(h, start, blocks, path, anchor, |path| - 1);
    var led, top := LedgerOf(start, blocks), LastFull(anchor - 1, |path| - 1);
    AcceptsIffInclusionPath(h, led, path, top);
    InclusionIsCovered(h, led, path, anchor - 1, top);
  }

  /** The side bits say which: a path that they lead past the opaque blocks is accepted exactly when it is
      the inclusion path of the block they lead to. */
  lemma {:induction false} PathIsSoundBySideBits(h: HashFn, start: Start, blocks: seq<SimBlock>, path: seq<Digest>,
                                                 anchor: nat)
    requires IsChain(h, start, blocks) && CollisionFree(h) && |path| >= 3
    requires FirstNum(start) <= anchor < FirstNum(start) + |blocks|
    requires EndsInLayer(blocks[anchor - FirstNum(start)], path, |path| - 1)
    ensures var top := LastFull(anchor - 1, |path| - 1);
      && top >= 1
      && var led, from := LedgerOf(start, blocks), PointsAt(path, top);
         Accepts(h, path) <==>
           if from >= FirstNum(start) then Covers(anchor - 1, from, |path| - 1) && IsPathOf(h, led, path, from)
           else IsPathFromRoot(h, led, path, top)
  {
    hide *;
    EndsInNode(h, start, blocks, path, anchor, |path| - 1);
    var led, top := LedgerOf(start, blocks), LastFull(anchor - 1, |path| - 1);
    AcceptsBySideBits(h, led, path, top);
    var from := PointsAt(path, top);
    InclusionParts(h, led, path, anchor - 1, top, from);
    PointsIntoCover(path, anchor - 1);
    UnblockedIffPastBase(start, anchor - 1, from, |path| - 1);
  }

  /** The path ends in the active node for the set bit of `layer`. */
  predicate EndsInLayer(block: SimBlock, path: seq<Digest>, layer: nat)
    requires |path| >= 3 && layer >= 1
  {
    var m := block.blockrootMerkle;
    WellSized(m) && LastFull(m.nodeCount, layer) % 2 == 1 && path[|path| - 1] == ActiveAt(m, layer)
  }

  lemma {:induction false} EndsInNode(h: HashFn, start: Start, blocks: seq<SimBlock>, path: seq<Digest>, anchor: nat,
                                      layer: nat)
    requires IsChain(h, start, blocks) && |path| >= 3 && layer >= 1
    requires FirstNum(start) <= anchor < FirstNum(start) + |blocks|
    requires EndsInLayer(blocks[anchor - FirstNum(start)], path, layer)
    ensures ValidStart(start) && LedgerOf(start, blocks).start == start
    ensures anchor >= 1 && anchor - 1 >= BaseCount(start) && FirstNum(start) == BaseCount(start) + 1
    ensures var top := LastFull(anchor - 1, layer);
      top % 2 == 1 && path[|path| - 1] == Node(h, LedgerOf(start, blocks), layer, top)
  {
    var j := anchor - FirstNum(start);
    ChainRepresents(h, start, blocks, j);
    hide IsChain, ActiveAt, Node, LedgerOf, Represents, Shr;
    ActiveIsNode(h, LedgerOf(start, blocks), blocks[j].blockrootMerkle, layer);
  }

  /** Whatever its number of digests: a path that ends in the root of a full sub-branch of the anchor is
      accepted exactly when it is a branch of that sub-branch, up from two sibling nodes in the layer its
      length gives, or from what hashes to a block id or to the opaque root. */
  lemma {:induction false} AnyPathIsSound(h: HashFn, start: Start, blocks: seq<SimBlock>, path: seq<Digest>,
                                          anchor: nat, layer: nat)
    requires IsChain(h, start, blocks) && CollisionFree(h) && |path| >= 3 && layer >= 1
    requires FirstNum(start) <= anchor < FirstNum(start) + |blocks|
    requires EndsInLayer(blocks[anchor - FirstNum(start)], path, layer)
    ensures LastFull(anchor - 1, layer) >= 1
    ensures Accepts(h, path) <==> ShowsPath(h, LedgerOf(start, blocks), path, layer, LastFull(anchor - 1, layer))
  {
    hide *;
    EndsInNode(h, start, blocks, path, anchor, layer);
    AcceptsIffShows(h, LedgerOf(start, blocks), path, layer, LastFull(anchor - 1, layer));
  }

  /** The length matters: in every chain from block 1 the two halves of the first four blocks and their
      parent are accepted for anchor 5, though they are nobody's inclusion path. */
  lemma {:induction false} InteriorPathIsAccepted(h: HashFn, blocks: seq<SimBlock>)
    requires IsChain(h, Genesis, blocks) && |blocks| >= 5
    requires forall a, b :: h(a, b).body.Pair?
    requires forall i :: 0 <= i < |blocks| ==> blocks[i].blockId.body.Opaque?
    ensures var led := LedgerOf(Genesis, blocks);
      var path := [Node(h, led, 2, 1), Node(h, led, 2, 2), Node(h, led, 3, 1)];
      && EndsInLayer(blocks[4], path, 3) && Accepts(h, path)
      && forall from: nat :: !IsPathOf(h, led, path, from)
  {
    ChainRepresents(h, Genesis, blocks, 4);
    hide IsChain, Represents, Shr, CeilShr, ActiveAt, PathTo, LedgerOf, BlockId;
    var led, m := LedgerOf(Genesis, blocks), blocks[4].blockrootMerkle;
    InteriorPairAccepted(h, led, 2, 1);
    RepresentsWellSized(h, led, m);
    LastFullOfFour();
    ActiveIsNode(h, led, m, 3);
    forall from: nat | from >= 1
      ensures !IsPathOf(h, led, [Node(h, led, 2, 1), Node(h, led, 2, 2), Node(h, led, 3, 1)], from)
    {
      PathToEnds(h, led, from, 2);
      IdIsNoHash(blocks, from);
    }
  }

  lemma {:induction false} LastFullOfFour()
    ensures LastFull(4, 3) == 1
  {
    assert Shr(4, 2) == 1;
  }

  lemma {:induction false} IdIsNoHash(blocks: seq<SimBlock>, num: nat)
    requires forall i :: 0 <= i < |blocks| ==> blocks[i].blockId.body.Opaque?
    ensures !BlockId(LedgerOf(Genesis, blocks), num).body.Pair?
  {
  }

  /** `path` is, up to the side bits of the first two digests, the inclusion path of block `from`. */
  predicate IsPathOf(h: HashFn, led: Ledger, path: seq<Digest>, from: nat)
    requires |path| >= 3
  {
    from >= 1 && SamePath(path, InclusionPath(h, led, from, |path| - 1))
  }

  /** Under an active node exactly the blocks of the chain are not hidden by the opaque root. */
  lemma {:induction false} UnblockedIffPastBase(start: Start, count: nat, from: nat, layer: nat)
    requires ValidStart(start) && count >= BaseCount(start) && from >= 1 && Covers(count, from, layer)
    ensures layer >= 1
    ensures Unblocked(start, 1, from, layer) <==> from > BaseCount(start)
  {
    hide CeilShr, Unblocked, Shr;
    if from > BaseCount(start) {
      LiveUnblocked(start, 1, from, layer);
    } else if start.Snapshot? {
      if layer <= start.exp {
        CoveredPastBase(start.exp, count, from, layer);
      } else {
        CeilShrIsCover(from, start.exp, 1);
        assert 0 * Pow2(start.exp) == 0;
        OpaqueBlocks(start, 1, from, layer, start.exp);
      }
    }
  }

  lemma {:induction false} PointsIntoCover(path: seq<Digest>, count: nat)
    requires |path| >= 3 && LastFull(count, |path| - 1) % 2 == 1
    ensures Covers(count, PointsAt(path, LastFull(count, |path| - 1)), |path| - 1)
  {
    PointsUnder(path, LastFull(count, |path| - 1));
  }

  /** A full sub-branch lower than the opaque root is past it. */
  lemma {:induction false} CoveredPastBase(exp: nat, count: nat, from: nat, layer: nat)
    requires count >= Pow2(exp) && 1 <= layer <= exp && Covers(count, from, layer)
    ensures from > Pow2(exp)
  {
    hide CeilShr, Shr;
    var k, top := layer - 1, LastFull(count, layer);
    Pow2Add(exp - k, k);
    Pow2Step(exp - k - 1);
    ShrKeepsBound(count, k, Pow2(exp - k));
    CeilShrIsCover(from, k, top);
    hide Pow2;
    MulMonotone(Pow2(exp - k), top - 1, Pow2(k));
  }

  lemma {:induction false} InclusionParts(h: HashFn, led: Ledger, path: seq<Digest>, count: nat, top: nat, from: nat)
    requires |path| >= 3 && top == LastFull(count, |path| - 1) && top % 2 == 1
    ensures IsInclusionPath(h, led, path, top, from)
       <==> Covers(count, from, |path| - 1) && IsPathOf(h, led, path, from)
    ensures IsPathOf(h, led, path, from) ==> from >= 1
  {
    hide PathTo, CeilShr, Shr, SamePath;
  }

  lemma {:induction false} InclusionIsCovered(h: HashFn, led: Ledger, path: seq<Digest>, count: nat, top: nat)
    requires |path| >= 3 && top == LastFull(count, |path| - 1) && top % 2 == 1
    requires ValidStart(led.start) && count >= BaseCount(led.start)
    ensures (exists from: nat :: Unblocked(led.start, 1, from, |path| - 1) && IsInclusionPath(h, led, path, top, from))
       <==> exists from: nat ::
              from > BaseCount(led.start) && Covers(count, from, |path| - 1) && IsPathOf(h, led, path, from)
  {
    hide *;
    var layer := |path| - 1;
    if from: nat :| Unblocked(led.start, 1, from, layer) && IsInclusionPath(h, led, path, top, from) {
      InclusionParts(h, led, path, count, top, from);
      UnblockedIffPastBase(led.start, count, from, layer);
      assert from > BaseCount(led.start) && Covers(count, from, layer) && IsPathOf(h, led, path, from);
    }
    if from: nat :| from > BaseCount(led.start) && Covers(count, from, layer) && IsPathOf(h, led, path, from) {
      InclusionParts(h, led, path, count, top, from);
      UnblockedIffPastBase(led.start, count, from, layer);
      assert Unblocked(led.start, 1, from, layer) && IsInclusionPath(h, led, path, top, from);
    }
  }

  // ----- the lookups

  /** The reference state keeps a non-zero root for the layer. */
  ghost predicate Hit(h: HashFn, led: Ledger, m: State, layer: nat) {
    && 1 <= layer < MaxDepth(m.nodeCount)
    && LastFull(m.nodeCount, layer) % 2 == 1
    && Node(h, led, layer, LastFull(m.nodeCount, layer)) != ZERO
  }

  /** What the lookup in the reference state returned, in these terms. */
  lemma {:induction false} LookupIsHit(h: HashFn, led: Ledger, m: State, layer: nat, ret: Digest)
    requires Represents(h, led, m) && 2 <= layer < MaxDepth(m.nodeCount) && WellSized(m)
    requires ret == if LastFull(m.nodeCount, layer) % 2 == 1 then ActiveAt(m, layer) else ZERO
    ensures Hit(h, led, m, layer) <==> ret != ZERO
    ensures ret != ZERO ==>
      LastFull(m.nodeCount, layer) >= 1 && ret == Node(h, led, layer, LastFull(m.nodeCount, layer))
  {
    if LastFull(m.nodeCount, layer) % 2 == 1 {
      ActiveIsNode(h, led, m, layer);
    }
  }

  lemma {:induction false} NoHitAbove(h: HashFn, led: Ledger, m: State, layer: nat)
    ensures layer >= MaxDepth(m.nodeCount) ==> !Hit(h, led, m, layer)
  {
  }

  /** A tree over exactly `index * 2^(layer-1)` blocks keeps that sub-branch's root first. */
  lemma {:induction false} FrontIsNode(h: HashFn, led: Ledger, m: State, layer: nat, index: nat)
    requires Represents(h, led, m) && layer >= 1 && index % 2 == 1
    requires m.nodeCount == LastLeaf(index, layer)
    ensures m.activeNodes != [] && m.activeNodes[0] == Node(h, led, layer, index)
  {
    FullRootsShift(h, led, 1, index, layer - 1);
    ActiveNodesSize(h, led, m.nodeCount);
    FullRootsStep(h, led, layer, index / 2);
    assert FullRoots(h, led, layer, index)[0] == Node(h, led, layer, index);
  }

  /** Half way through the fold of a block's low active nodes: `top` is the node above the block, the
      last one of its layer, and the nodes not used yet start with the full roots to its left. */
  ghost predicate LowFold(h: HashFn, led: Ledger, layer: nat, at: nat, active: seq<Digest>, next: nat, top: Digest) {
    && layer >= 1 && at >= 1 && Live(led.start, layer, at)
    && top == Node(h, led, layer, at)
    && next <= |active| && FullRoots(h, led, layer, at - 1) <= active[next..]
  }

  lemma {:induction false} LowFoldStart(h: HashFn, led: Ledger, m: State, num: nat)
    requires Represents(h, led, m) && m.nodeCount == num - 1 && ValidStart(led.start)
    ensures LowFold(h, led, 1, num, m.activeNodes, 0, BlockId(led, num))
  {
    ActiveNodesSize(h, led, m.nodeCount);
    assert m.activeNodes[0..] == m.activeNodes;
  }

  lemma {:induction false} LowFoldStep(h: HashFn, led: Ledger, layer: nat, half: nat, active: seq<Digest>,
                                       next: nat, top: Digest)
    requires half >= 1 && LowFold(h, led, layer, 2 * half, active, next, top)
    ensures next < |active|
    ensures LowFold(h, led, layer + 1, half, active, next + 1, Combine(h, active[next], top))
  {
    hide FullRoots, Node;
    FullRootsStep(h, led, layer, half - 1);
    assert 2 * (half - 1) + 1 == 2 * half - 1;
    TakeFirst(active, next, Node(h, led, layer, 2 * half - 1), FullRoots(h, led, layer + 1, half - 1));
    NodeSplit(h, led, layer, 2 * half - 1);
    LiveParent(led.start, layer, 2 * half);
    assert (2 * half + 1) / 2 == half;
  }

  lemma {:induction false} LowFoldEnd(h: HashFn, led: Ledger, layer: nat, at: nat, active: seq<Digest>, next: nat,
                                      top: Digest)
    requires LowFold(h, led, layer, at, active, next, top)
    ensures layer >= 1 && at >= 1 && top == Node(h, led, layer, at)
  {
  }

  lemma {:induction false} EvenAbove(index: nat, k: nat)
    requires k >= 1 && LastLeaf(index, k + 1) >= 1
    ensures LastLeaf(index, k + 1) == 2 * LastLeaf(index, k) && LastLeaf(index, k) >= 1
  {
    MulDouble(index, Pow2(k - 1));
  }

  lemma {:induction false} ShiftIsLastLeaf(index: nat, layer: nat)
    requires layer >= 1 && LastLeaf(index, layer) < COUNT_LIMIT
    ensures Shl32(index, layer - 1) == LastLeaf(index, layer)
    ensures LastLeaf(index, 1) == index
  {
    Shl32Exact(index, layer - 1);
  }

  /** The sibling on `from`'s left is the last full node of its layer in the tree `from` carries. */
  lemma {:induction false} LeftSiblingIsLastFull(from: nat, layer: nat)
    requires from >= 1 && layer >= 1 && Ancestor(from, layer) % 2 == 0
    ensures Ancestor(from, layer) >= 1 && Sibling(Ancestor(from, layer)) == LastFull(from - 1, layer)
  {
    CeilIsFloorOfPredecessor(from, layer - 1);
  }

  /** The block whose tree ends with the left sibling lies between the first block and `from`. */
  lemma {:induction false} LeftLookupInChain(start: Start, from: nat, layer: nat)
    requires from >= FirstNum(start) && layer >= 1 && LastFull(from - 1, layer) >= 1
    ensures FirstNum(start) <= LastLeaf(LastFull(from - 1, layer), layer) + 1 <= from
  {
    LastFullCounted(from - 1, layer);
    if start.Snapshot? {
      BaseIsCounted(start.exp, from - 1, layer);
    }
  }

  /** A boundary at a power of two is never inside a full node that ends after it. */
  lemma {:induction false} BaseIsCounted(exp: nat, count: nat, layer: nat)
    requires count >= Pow2(exp) && layer >= 1 && LastFull(count, layer) >= 1
    ensures Pow2(exp) <= LastLeaf(LastFull(count, layer), layer)
  {
    var s, k := LastFull(count, layer), layer - 1;
    if k <= exp {
      Pow2Add(exp - k, k);
      ShrKeepsBound(count, k, Pow2(exp - k));
      MulMonotone(Pow2(exp - k), s, Pow2(k));
    } else {
      Pow2Monotone(exp, k);
      MulMonotone(1, s, Pow2(k));
    }
  }

  lemma {:induction false} ShrKeepsBound(n: nat, k: nat, bound: nat)
    requires n >= bound * Pow2(k)
    ensures Shr(n, k) >= bound
  {
    ShrBounds(n, k);
    if Shr(n, k) < bound {
      MulMonotone(Shr(n, k) + 1, bound, Pow2(k));
    }
  }

  /** The block that completes the right sibling comes after `from` and is counted by the anchor. */
  lemma {:induction false} RightLookupInChain(from: nat, count: nat, layer: nat, toLayer: nat)
    requires from >= 1 && 1 <= layer < toLayer && Ancestor(from, layer) % 2 == 1 && Covers(count, from, toLayer)
    ensures from <= LastLeaf(Ancestor(from, layer) + 1, layer) <= count
  {
    hide LastLeaf;
    var a, up := Ancestor(from, layer), Ancestor(from, layer + 1);
    CeilShrStep(from, layer - 1);
    AncestorReaches(from, layer);
    LastLeafMonotone(a, a + 1, layer);
    LastLeafOfParent(a + 1, up, layer);
    AncestorsSpread(from, layer + 1, toLayer);
    LastFullCounted(count, toLayer);
  }

  /** Going up, an ancestor's subtree never ends earlier. */
  lemma {:induction false} AncestorsSpread(from: nat, low: nat, high: nat)
    requires 1 <= low <= high
    ensures LastLeaf(Ancestor(from, low), low) <= LastLeaf(Ancestor(from, high), high)
    decreases high
  {
    hide LastLeaf;
    if low < high {
      AncestorsSpread(from, low, high - 1);
      CeilShrStep(from, high - 2);
      LastLeafOfParent(Ancestor(from, high - 1), Ancestor(from, high), high - 1);
    }
  }

  /** Which node a lookup of an odd (layer, index) finds: the reference state's own, if it keeps one. */
  ghost function FoundIndex(h: HashFn, led: Ledger, reference: State, layer: nat, index: nat): nat {
    if index % 2 == 1 && Hit(h, led, reference, layer) then LastFull(reference.nodeCount, layer) else index
  }

  /** Every sibling on `from`'s way up can be looked up inside the chain, and the lookup finds it. */
  lemma {:induction false} SiblingLookup(h: HashFn, led: Ledger, reference: State, from: nat, count: nat,
                                         layer: nat, toLayer: nat)
    requires from >= FirstNum(led.start) && reference.nodeCount == from - 1
    requires 1 <= layer < toLayer && Covers(count, from, toLayer)
    ensures Ancestor(from, layer) >= 1
    ensures var s := Sibling(Ancestor(from, layer));
      && s >= 1 && FoundIndex(h, led, reference, layer, s) == s
      && (s % 2 == 1 ==> FirstNum(led.start) <= LastLeaf(s, layer) + 1 <= from)
      && (s % 2 == 0 ==> from <= LastLeaf(s, layer) <= count)
  {
    CeilShrPositive(from, layer - 1);
    hide LastLeaf, CeilShr, Shr, Hit, Covers;
    if Ancestor(from, layer) % 2 == 0 {
      LeftSiblingIsLastFull(from, layer);
      LeftLookupInChain(led.start, from, layer);
    } else {
      RightLookupInChain(from, count, layer, toLayer);
    }
  }

  lemma {:induction false} PartnerInChain(from: nat, count: nat, layer: nat)
    requires from % 2 == 1 && layer >= 2 && Covers(count, from, layer)
    ensures from + 1 <= count
  {
    RightLookupInChain(from, count, 1, layer);
  }

  lemma {:induction false} FirstIsOdd(start: Start)
    requires ValidStart(start)
    ensures FirstNum(start) % 2 == 1
  {
  }

  lemma {:induction false} PathToParts(h: HashFn, led: Ledger, from: nat, count: nat, layer: nat,
                                       pair: seq<Digest>, value: Digest)
    requires from >= 1 && layer >= 2 && Covers(count, from, layer)
    requires pair == [BlockId(led, PairLeft(from)), BlockId(led, PairLeft(from) + 1)]
    requires LastFull(count, layer) >= 1 && value == Node(h, led, layer, LastFull(count, layer))
    ensures pair + Siblings(h, led, 2, (from + 1) / 2, layer) + [value] == InclusionPath(h, led, from, layer)
  {
    CeilShrPositive(from, layer - 1);
  }

  lemma {:induction false} FirstLayerCover(h: HashFn, led: Ledger, count: nat, from: nat)
    requires ValidStart(led.start) && Covers(count, from, 1)
    ensures from >= 1 && LastFull(count, 1) == from
    ensures [Node(h, led, 1, from)] == InclusionPath(h, led, from, 1)
  {
  }

  // ----- the test of `main`

  datatype Verdict = Verdict(from: nat, anchor: nat, ok: bool)

  /** A "yes" for every block from `firstFrom` to before `end` under one anchor. */
  function YesRow(firstFrom: nat, end: nat, anchor: nat): seq<Verdict> {
    seq(if end > firstFrom then end - firstFrom else 0, i requires i >= 0 => Verdict(firstFrom + i, anchor, true))
  }

  /** A row for every anchor from `firstAnchor` to before `end`, over the blocks before it. */
  function YesTable(firstFrom: nat, firstAnchor: nat, end: nat): seq<Verdict> {
    if end <= firstAnchor then []
    else YesTable(firstFrom, firstAnchor, end - 1) + YesRow(firstFrom, end - 1, end - 1)
  }

  predicate ComesBefore(v: Verdict, w: Verdict) {
    v.anchor < w.anchor || (v.anchor == w.anchor && v.from < w.from)
  }

  /** The table has a verdict for every pair of a block and a later anchor in the ranges, and no other. */
  lemma {:induction false} YesTableIff(firstFrom: nat, firstAnchor: nat, end: nat, v: Verdict)
    ensures v in YesTable(firstFrom, firstAnchor, end)
       <==> v.ok && firstAnchor <= v.anchor < end && firstFrom <= v.from < v.anchor
    decreases end
  {
    if end > firstAnchor {
      YesTableIff(firstFrom, firstAnchor, end - 1, v);
      var row := YesRow(firstFrom, end - 1, end - 1);
      if v.ok && v.anchor == end - 1 && firstFrom <= v.from < v.anchor {
        assert row[v.from - firstFrom] == v;
      }
    }
  }

  lemma {:induction false} YesTableOrdered(firstFrom: nat, firstAnchor: nat, end: nat, i: nat, j: nat)
    requires i < j < |YesTable(firstFrom, firstAnchor, end)|
    ensures ComesBefore(YesTable(firstFrom, firstAnchor, end)[i], YesTable(firstFrom, firstAnchor, end)[j])
    decreases end
  {
    var before := YesTable(firstFrom, firstAnchor, end - 1);
    if j < |before| {
      YesTableOrdered(firstFrom, firstAnchor, end - 1, i, j);
    } else if i < |before| {
      YesTableIff(firstFrom, firstAnchor, end - 1, before[i]);
    }
  }

  lemma {:induction false} YesRowStart(firstFrom: nat, anchor: nat)
    ensures YesRow(firstFrom, firstFrom, anchor) == []
    ensures anchor <= firstFrom ==> YesRow(firstFrom, anchor, anchor) == []
  {
  }

  lemma {:induction false} YesRowGrow(firstFrom: nat, from: nat, anchor: nat)
    requires firstFrom <= from
    ensures YesRow(firstFrom, from + 1, anchor) == YesRow(firstFrom, from, anchor) + [Verdict(from, anchor, true)]
  {
  }

  /** Its other block is the one `from` shares a parent with, as it stands in the chain before the anchor. */
  lemma {:induction false} PathShowsPair(h: HashFn, start: Start, blocks: seq<SimBlock>, from: nat, anchor: nat)
    requires IsChain(h, start, blocks)
    requires FirstNum(start) <= from < anchor < FirstNum(start) + |blocks|
    ensures var layer := CoverLayer(anchor - 1, from);
      var path := InclusionPath(h, LedgerOf(start, blocks), from, layer);
      var partner := if from % 2 == 1 then from + 1 else from - 1;
      && |path| == (if layer == 1 then 1 else layer + 1)
      && (layer > 1 ==>
           && FirstNum(start) <= partner < anchor
           && path[if from % 2 == 1 then 1 else 0] == blocks[partner - FirstNum(start)].blockId)
  {
    hide *;
    ChainRepresents(h, start, blocks, from - FirstNum(start));
    FirstIsOdd(start);
    var led, layer := LedgerOf(start, blocks), CoverLayer(anchor - 1, from);
    PairOfPath(h, led, from, layer);
    if layer > 1 {
      if from % 2 == 1 {
        PartnerInChain(from, anchor - 1, layer);
        ChainRepresents(h, start, blocks, from + 1 - FirstNum(start));
      } else {
        ChainRepresents(h, start, blocks, from - 1 - FirstNum(start));
      }
    }
  }

  lemma {:induction false} PairOfPath(h: HashFn, led: Ledger, from: nat, layer: nat)
    requires from >= 1 && layer >= 1
    ensures var path := InclusionPath(h, led, from, layer);
      && |path| == (if layer == 1 then 1 else layer + 1)
      && (layer > 1 && from % 2 == 1 ==> path[1] == BlockId(led, from + 1))
      && (layer > 1 && from % 2 == 0 ==> path[0] == BlockId(led, from - 1))
  {
    hide Siblings, BlockId, Node, CeilShr;
    if layer > 1 {
      PathToEnds(h, led, from, layer);
    }
  }

  /** The global `sim_chain`. */
  class SimChain {
    const h: HashFn
    const start: Start
    var blocks: seq<SimBlock>

    ghost predicate Valid()
      reads this
    {
      IsChain(h, start, blocks) && FirstNum(start) + |blocks| - 1 < COUNT_LIMIT
    }

    predicate InChain(num: int)
      reads this
    {
      FirstNum(start) <= num < FirstNum(start) + |blocks|
    }

    ghost function Led(): Ledger
      reads this
    {
      LedgerOf(start, blocks)
    }

    /** The first block: number 1 over an empty tree, or `2^exp + 1` over an opaque root. */
    constructor (h: HashFn, start: Start, blockId: Digest)
      requires ValidStart(start) && FirstNum(start) < COUNT_LIMIT
      ensures Valid() && this.h == h && this.start == start
      ensures blocks == [SimBlock(FirstNum(start), blockId, FirstState(start))]
    {
      this.h, this.start := h, start;
      blocks := [SimBlock(FirstNum(start), blockId, FirstState(start))];
    }

    /** One turn of the loop in `main`: a copy of the parent's tree with the parent's id appended. */
    method Extend(blockId: Digest)
      requires Valid() && FirstNum(start) + |blocks| < COUNT_LIMIT
      modifies this
      ensures Valid()
      ensures |blocks| == old(|blocks|) + 1 && blocks[..|blocks| - 1] == old(blocks)
      ensures blocks[|blocks| - 1].blockId == blockId && Follows(h, blocks[|blocks| - 2], blocks[|blocks| - 1])
    {
      ghost var n := |blocks|;
      ghost var was := blocks;
      ChainRepresents(h, start, blocks, n - 1);
      var back := blocks[|blocks| - 1];
      RepresentsWellSized(h, LedgerOf(start, blocks), back.blockrootMerkle);
      var merkle := new IncrementalMerkle.CopyOf(h, back.blockrootMerkle);
      var _ := merkle.Append(back.blockId);
      var block := SimBlock(back.blockNum + 1, blockId, merkle.Contents());
      assert Follows(h, back, block);
      blocks := blocks + [block];
      forall i, j | 0 <= i < j < |blocks| && j == i + 1
        ensures Follows(h, blocks[i], blocks[j])
      {
        if j < n {
          assert Follows(h, was[i], was[j]);
        }
      }
    }

    function GetBlockIdByNum(num: uint32): Digest
      requires InChain(num)
      reads this
    {
      blocks[num - FirstNum(start)].blockId
    }

    function GetIncMerkleByBlockNum(num: uint32): State
      requires InChain(num)
      reads this
    {
      blocks[num - FirstNum(start)].blockrootMerkle
    }

    lemma {:induction false} LookupFacts(num: uint32)
      requires Valid() && InChain(num)
      ensures GetBlockIdByNum(num) == BlockId(Led(), num)
      ensures Represents(h, Led(), GetIncMerkleByBlockNum(num))
      ensures WellSized(GetIncMerkleByBlockNum(num)) && GetIncMerkleByBlockNum(num).nodeCount == num - 1
      ensures Led().start == start && ValidStart(start)
    {
      ChainRepresents(h, start, blocks, num - FirstNum(start));
      RepresentsWellSized(h, Led(), GetIncMerkleByBlockNum(num));
    }

    /** `get_merkle_node_value_in_full_sub_branch`, odd indices: the reference state's node of the layer,
        or the first active node of the block after the sub-branch. */
    method LeftNodeValue(reference: State, layer: uint32, index: uint32) returns (value: Digest)
      requires Valid() && Represents(h, Led(), reference) && layer >= 2 && index % 2 == 1
      requires !Hit(h, Led(), reference, layer) ==> InChain(LastLeaf(index, layer) + 1)
      ensures FoundIndex(h, Led(), reference, layer, index) >= 1
      ensures value == Node(h, Led(), layer, FoundIndex(h, Led(), reference, layer, index))
    {
      hide IsChain, LedgerOf, Represents, BlockId, LastLeaf, Shl32, Node, Hit, MaxDepth, Shr, Ones, ActiveAt;
      RepresentsWellSized(h, Led(), reference);
      var maxLayers := MaxDepth(reference.nodeCount);
      if layer < maxLayers {
        var ret := LayerLeftNode(reference, layer);
        LookupIsHit(h, Led(), reference, layer, ret);
        if ret != ZERO {
          return ret;
        }
      }
      NoHitAbove(h, Led(), reference, layer);
      ShiftIsLastLeaf(index, layer);
      var num := Increment(Shl32(index, layer - 1));
      LookupFacts(num);
      var incMerkle := GetIncMerkleByBlockNum(num);
      FrontIsNode(h, Led(), incMerkle, layer, index);
      value := incMerkle.activeNodes[0];
    }

    /** The same for even indices: fold the low active nodes of the sub-branch's last block with its id. */
    method RightNodeValue(layer: uint32, index: uint32) returns (value: Digest)
      requires Valid() && layer >= 2 && index % 2 == 0 && InChain(LastLeaf(index, layer))
      ensures index >= 1 && value == Node(h, Led(), layer, index)
    {
      hide IsChain, LedgerOf, Represents, BlockId, LowFold, LastLeaf, Shl32, Node;
      ShiftIsLastLeaf(index, layer);
      var num := Shl32(index, layer - 1);
      LookupFacts(num);
      var incMerkle := GetIncMerkleByBlockNum(num);
      var activeIter := 0;
      var currentLayer := 1;
      var top := GetBlockIdByNum(num);
      ghost var at: nat := num;
      LowFoldStart(h, Led(), incMerkle, num);
      while currentLayer < layer
        invariant 1 <= currentLayer <= layer
        invariant at >= 1 && at == LastLeaf(index, layer - currentLayer + 1)
        invariant LowFold(h, Led(), currentLayer, at, incMerkle.activeNodes, activeIter, top)
      {
        EvenAbove(index, layer - currentLayer);
        at := LastLeaf(index, layer - currentLayer);
        LowFoldStep(h, Led(), currentLayer, at, incMerkle.activeNodes, activeIter, top);
        var leftValue := incMerkle.activeNodes[activeIter];
        activeIter := activeIter + 1;
        top := Combine(h, leftValue, top);
        currentLayer := currentLayer + 1;
      }
      LowFoldEnd(h, Led(), layer, index, incMerkle.activeNodes, activeIter, top);
      value := top;
    }

    /** `get_merkle_node_value_in_full_sub_branch` */
    method NodeValueInFullSubBranch(reference: State, layer: uint32, index: uint32) returns (value: Digest)
      requires Valid() && Represents(h, Led(), reference)
      requires layer >= 2 && index % 2 == 1 && !Hit(h, Led(), reference, layer) ==> InChain(LastLeaf(index, layer) + 1)
      requires layer >= 2 && index % 2 == 0 ==> InChain(LastLeaf(index, layer))
      ensures layer < 2 ==> value == ZERO
      ensures layer >= 2 ==>
        && FoundIndex(h, Led(), reference, layer, index) >= 1
        && value == Node(h, Led(), layer, FoundIndex(h, Led(), reference, layer, index))
    {
      if layer < 2 {
        return ZERO;
      }
      if index % 2 == 1 {
        value := LeftNodeValue(reference, layer, index);
      } else {
        value := RightNodeValue(layer, index);
      }
    }

    /** The first two elements of the path: `from` and the block it shares a parent with. */
    method FirstPair(from: uint32, ghost anchor: uint32, ghost layer: uint32) returns (pair: seq<Digest>)
      requires Valid() && InChain(from) && InChain(anchor) && from < anchor
      requires layer >= 2 && Covers(anchor - 1, from, layer)
      ensures pair == [BlockId(Led(), PairLeft(from)), BlockId(Led(), PairLeft(from) + 1)]
    {
      hide *;
      LookupFacts(from);
      PartnerLookup(from, anchor, layer);
      if from % 2 == 1 {
        LookupFacts(from + 1);
        pair := [GetBlockIdByNum(from), GetBlockIdByNum(from + 1)];
      } else {
        LookupFacts(from - 1);
        pair := [GetBlockIdByNum(from - 1), GetBlockIdByNum(from)];
      }
    }

    lemma {:induction false} PartnerLookup(from: uint32, anchor: uint32, layer: uint32)
      requires Valid() && InChain(from) && InChain(anchor) && from < anchor
      requires layer >= 2 && Covers(anchor - 1, from, layer)
      ensures from >= 1
      ensures from % 2 == 1 ==> PairLeft(from) == from && from + 1 <= 0xFFFF_FFFF && InChain(from + 1)
      ensures from % 2 == 0 ==> PairLeft(from) == from - 1 && InChain(from - 1)
    {
      hide CeilShr, Shr, Covers;
      if from % 2 == 1 {
        PartnerInChain(from, anchor - 1, layer);
      } else {
        FirstIsOdd(start);
      }
    }

    /** The loop of the path builder: the siblings at the given positions, each on its own side. */
    method AddSiblings(from: uint32, anchor: uint32, layer: uint32, positions: seq<(uint32, uint32)>, pair: seq<Digest>)
      returns (result: seq<Digest>)
      requires Valid() && InChain(from) && InChain(anchor) && from < anchor
      requires layer >= 2 && Covers(anchor - 1, from, layer)
      requires |positions| == layer - 2 && forall i :: 0 <= i < layer - 2 ==> IsSiblingAt(positions[i], from, i + 2)
      ensures result == pair + Siblings(h, Led(), 2, (from + 1) / 2, layer)
    {
      hide IsChain, LedgerOf, Represents, BlockId, Node, Siblings, CeilShr, Shr, FoundIndex, LastLeaf, Hit, Covers;
      LookupFacts(from);
      LookupFacts(anchor);
      var reference := GetIncMerkleByBlockNum(from);
      ghost var all := Siblings(h, Led(), 2, (from + 1) / 2, layer);
      SiblingsElements(h, Led(), 2, (from + 1) / 2, layer, 0);
      result := pair;
      for i := 0 to |positions|
        invariant result == pair + all[..i]
      {
        SiblingLookup(h, Led(), reference, from, anchor - 1, i + 2, layer);
        var (l, s) := positions[i];
        var value := NodeValueInFullSubBranch(reference, l, s);
        SiblingsElements(h, Led(), 2, (from + 1) / 2, layer, i);
        AncestorStep(from, i + 2);
        var node := if s % 2 == 1 then MakeCanonicalLeft(value) else MakeCanonicalRight(value);
        assert all[i] == node;
        result := result + [node];
      }
      assert all[..|positions|] == all;
    }

    /** The path builder once the covering sub-branch is known and has more than one layer. */
    method PathInSubBranch(from: uint32, anchor: uint32, layer: uint32, index: uint32,
                           value: Digest) returns (result: seq<Digest>)
      requires Valid() && InChain(from) && InChain(anchor) && from < anchor
      requires layer >= 2 && Covers(anchor - 1, from, layer) && index == LastFull(anchor - 1, layer) >= 1
      requires value == Node(h, Led(), layer, index)
      ensures result == InclusionPath(h, Led(), from, layer)
    {
      hide IsChain, LedgerOf, BlockId, Node, Siblings, PathTo, InclusionPath, CeilShr, Shr;
      var positions := PathPositions(from, layer);
      if positions[|positions| - 1] != (layer, index) {
        // "internal error! position_path.back() calculate failed"
        assert false;
      }
      var pair := FirstPair(from, anchor, layer);
      result := AddSiblings(from, anchor, layer, positions[..|positions| - 1], pair);
      PathToParts(h, Led(), from, anchor - 1, layer, pair, value);
      result := result + [value];
    }

    /** `get_block_id_merkle_path_to_anchor_block` */
    method GetBlockIdMerklePathToAnchorBlock(from: uint32, anchor: uint32) returns (result: seq<Digest>)
      requires Valid() && (from < anchor ==> InChain(from) && InChain(anchor))
      ensures from >= anchor ==> result == []
      ensures from < anchor ==> result == InclusionPath(h, Led(), from, CoverLayer(anchor - 1, from))
    {
      hide IsChain, LedgerOf, Represents, BlockId, Node, ActiveAt, InclusionPath, CeilShr, Shr, Ones;
      if from >= anchor {
        return [];
      }
      LookupFacts(from);
      LookupFacts(anchor);
      var anchorMerkle := GetIncMerkleByBlockNum(anchor);
      var layer, index, value := FullBranchCover(from, anchorMerkle);
      CoverIsUnique(anchor - 1, from, layer, CoverLayer(anchor - 1, from));
      ActiveIsNode(h, Led(), anchorMerkle, layer);
      if layer == 1 {
        FirstLayerCover(h, Led(), anchor - 1, from);
        result := [value];
      } else {
        result := PathInSubBranch(from, anchor, layer, index, value);
      }
    }

    /** The test loops of `main`, for any range of anchors and first block: one verdict for every pair of a
        block and a later anchor in the ranges, in order, and every one is "yes". */
    method TestPaths(firstFrom: uint32, firstAnchor: uint32, lastAnchor: uint32) returns (verdicts: seq<Verdict>)
      requires Valid() && InChain(firstFrom) && InChain(firstAnchor) && InChain(lastAnchor)
      ensures forall v :: v in verdicts <==>
        v.ok && firstAnchor <= v.anchor <= lastAnchor && firstFrom <= v.from < v.anchor
      ensures forall i, j :: 0 <= i < j < |verdicts| ==> ComesBefore(verdicts[i], verdicts[j])
      ensures verdicts == YesTable(firstFrom, firstAnchor, lastAnchor + 1)
    {
      hide IsChain, LedgerOf, InclusionPath, Covers, ActiveAt, WellSized, Accepts, YesRow,
        ComesBefore;
      verdicts := [];
      var anchor := firstAnchor;
      while anchor <= lastAnchor
        invariant firstAnchor <= anchor && (anchor <= lastAnchor + 1 || anchor == firstAnchor)
        invariant verdicts == YesTable(firstFrom, firstAnchor, anchor)
      {
        var from := firstFrom;
        YesRowStart(firstFrom, anchor);
        while from <= anchor - 1
          invariant firstFrom <= from && (from <= anchor || from == firstFrom)
          invariant verdicts == YesTable(firstFrom, firstAnchor, anchor) + YesRow(firstFrom, from, anchor)
        {
          var path := GetBlockIdMerklePathToAnchorBlock(from, anchor);
          PathIsComplete(h, start, blocks, from, anchor);
          var ok := VerifyMerklePath(h, path);
          YesRowGrow(firstFrom, from, anchor);
          verdicts := verdicts + [Verdict(from, anchor, ok)];
          from := from + 1;
        }
        YesRowStart(firstFrom, anchor);
        anchor := anchor + 1;
      }
      forall v: Verdict
        ensures v in verdicts <==> v.ok && firstAnchor <= v.anchor <= lastAnchor && firstFrom <= v.from < v.anchor
      {
        YesTableIff(firstFrom, firstAnchor, lastAnchor + 1, v);
      }
      forall i, j | 0 <= i < j < |verdicts|
        ensures ComesBefore(verdicts[i], verdicts[j])
      {
        YesTableOrdered(firstFrom, firstAnchor, lastAnchor + 1, i, j);
      }
    }
  }
}
