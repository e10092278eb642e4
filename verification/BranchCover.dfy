/** Finding the full sub-branch of a compact state that covers a block, and the positions of the
    siblings on the way from the block up to it. */
module BranchCover {
  import opened Bits
  import opened Digests
  import opened MerkleTree
  import opened IncrementalMerkle

  /** The index, in `layer`, of the node above leaf `num`: `ceil(num / 2^(layer-1))`. */
  function Ancestor(num: nat, layer: nat): nat
    requires layer >= 1
  {
    CeilShr(num, layer - 1)
  }

  /** The index of the last full node of `layer` when there are `count` leaves. */
  function LastFull(count: nat, layer: nat): nat
    requires layer >= 1
  {
    Shr(count, layer - 1)
  }

  /** The last leaf under node (layer, index): `index << (layer - 1)`. */
  function LastLeaf(index: nat, layer: nat): nat
    requires layer >= 1
  {
    index * Pow2(layer - 1)
  }

  lemma {:induction false} LastLeafOfParent(child: nat, parent: nat, layer: nat)
    requires layer >= 1
    ensures child <= 2 * parent ==> LastLeaf(child, layer) <= LastLeaf(parent, layer + 1)
    ensures child == 2 * parent ==> LastLeaf(child, layer) == LastLeaf(parent, layer + 1)
  {
  }

  lemma {:induction false} LastLeafMonotone(a: nat, b: nat, layer: nat)
    requires layer >= 1 && a <= b
    ensures LastLeaf(a, layer) <= LastLeaf(b, layer)
  {
    MulMonotone(a, b, Pow2(layer - 1));
  }

  lemma {:induction false} AncestorReaches(num: nat, layer: nat)
    requires layer >= 1
    ensures num <= LastLeaf(Ancestor(num, layer), layer)
  {
    CeilShrUpper(num, layer - 1);
  }

  lemma {:induction false} LastFullCounted(count: nat, layer: nat)
    requires layer >= 1
    ensures LastLeaf(LastFull(count, layer), layer) <= count
  {
    ShrBounds(count, layer - 1);
  }

  /** A tree over `count` leaves has a full sub-branch of `layer` layers, and leaf `from` is under it:
      bit `layer - 1` of the count is set, and the last full node of the layer is above `from`. */
  predicate Covers(count: nat, from: nat, layer: nat) {
    && layer >= 1
    && LastFull(count, layer) % 2 == 1
    && Ancestor(from, layer) == LastFull(count, layer)
  }

  /** In leaves: the sub-branch ends at leaf `index * 2^(layer-1)`, and `from` is among its last
      `2^(layer-1)` leaves. */
  lemma {:induction false} CoversIsInterval(count: nat, from: nat, layer: nat)
    requires layer >= 1
    ensures var index, width := LastFull(count, layer), Pow2(layer - 1);
      Covers(count, from, layer) <==>
      index % 2 == 1 && (index - 1) * width < from <= index * width
  {
    if LastFull(count, layer) % 2 == 1 {
      CeilShrIsCover(from, layer - 1, LastFull(count, layer));
    }
  }

  /** As long as no lower sub-branch covered `from`, the node above it is among the full ones. */
  lemma {:induction false} StepUp(count: nat, from: nat, layer: nat)
    requires layer >= 1 && Ancestor(from, layer) <= LastFull(count, layer) && !Covers(count, from, layer)
    ensures Ancestor(from, layer + 1) <= LastFull(count, layer + 1)
  {
    CeilShrStep(from, layer - 1);
    ShrStep(count, layer - 1);
  }

  /** Once a sub-branch covers `from`, the node above it is beyond every higher full node. */
  lemma {:induction false} NoHigherCover(count: nat, from: nat, layer: nat, k: nat)
    requires layer >= 1 && Ancestor(from, layer) > LastFull(count, layer)
    ensures Ancestor(from, layer + k) > LastFull(count, layer + k)
  {
    if k > 0 {
      NoHigherCover(count, from, layer, k - 1);
      CeilShrStep(from, layer + k - 2);
      ShrStep(count, layer + k - 2);
    }
  }

  /** The sub-branches of the set bits tile 1 .. count: no leaf is under two of them ... */
  lemma {:induction false} CoverIsUnique(count: nat, from: nat, low: nat, high: nat)
    requires Covers(count, from, low) && Covers(count, from, high)
    ensures low == high
  {
    if low != high {
      var l, k := if low < high then low else high, if low < high then high - low - 1 else low - high - 1;
      CeilShrStep(from, l - 1);
      ShrStep(count, l - 1);
      NoHigherCover(count, from, l + 1, k);
      assert false;
    }
  }

  /** ... and every leaf is under one, within the layers of the tree. */
  lemma {:induction false} CoverExists(count: nat, from: nat) returns (layer: nat)
    requires 1 <= from <= count
    ensures Covers(count, from, layer) && layer <= MaxDepth(count)
  {
    layer := 1;
    while !Covers(count, from, layer)
      invariant 1 <= layer <= MaxDepth(count) + 1
      invariant Ancestor(from, layer) <= LastFull(count, layer)
      decreases MaxDepth(count) + 1 - layer
    {
      NotPastTop(count, from, layer);
      StepUp(count, from, layer);
      layer := layer + 1;
    }
    NotPastTop(count, from, layer);
  }

  lemma {:induction false} NotPastTop(count: nat, from: nat, layer: nat)
    requires from >= 1 && layer >= 1 && Ancestor(from, layer) <= LastFull(count, layer)
    ensures layer != MaxDepth(count) + 1
  {
    ShrPastTop(count);
    CeilShrPositive(from, layer - 1);
  }

  /** Only leaves 1 .. count are covered. */
  lemma {:induction false} CoveredIsCounted(count: nat, from: nat, layer: nat)
    requires Covers(count, from, layer)
    ensures 1 <= from <= count
  {
    CoversIsInterval(count, from, layer);
    ShrBounds(count, layer - 1);
    var index, width := LastFull(count, layer), Pow2(layer - 1);
    assert (index - 1) * width >= 0;
  }

  /** Where the state keeps the root of the full sub-branch of `layer`. */
  function ActiveAt(m: State, layer: nat): Digest
    requires WellSized(m) && layer >= 1 && LastFull(m.nodeCount, layer) % 2 == 1
  {
    OnesShr(m.nodeCount, layer - 1);
    OnesZero(LastFull(m.nodeCount, layer));
    m.activeNodes[Ones(m.nodeCount) - Ones(LastFull(m.nodeCount, layer))]
  }

  /** In a state that stands for a ledger, that is the root of the perfect subtree. */
  lemma {:induction false} ActiveIsNode(h: HashFn, led: Ledger, m: State, layer: nat)
    requires Represents(h, led, m) && layer >= 1 && LastFull(m.nodeCount, layer) % 2 == 1
    ensures WellSized(m)
    ensures ActiveAt(m, layer) == Node(h, led, layer, LastFull(m.nodeCount, layer))
    ensures ActiveAt(m, layer) in m.activeNodes
  {
    RepresentsWellSized(h, led, m);
    ActiveNodesSize(h, led, m.nodeCount);
    FullRootAt(h, led, 1, m.nodeCount, layer - 1);
    var roots, i := FullRoots(h, led, 1, m.nodeCount), Ones(m.nodeCount) - Ones(LastFull(m.nodeCount, layer));
    assert m.activeNodes[i] == roots[i];
  }

  /** What one halving does to the iterator over the active nodes. */
  lemma {:induction false} IteratorStep(m: State, layer: nat)
    requires WellSized(m) && layer >= 1
    ensures var index := LastFull(m.nodeCount, layer);
      && Ones(index) <= Ones(m.nodeCount) <= |m.activeNodes|
      && Ones(index) == index % 2 + Ones(index / 2)
      && LastFull(m.nodeCount, layer + 1) == index / 2 <= index <= m.nodeCount
  {
    OnesShr(m.nodeCount, layer - 1);
    OnesZero(LastFull(m.nodeCount, layer));
    ShrStep(m.nodeCount, layer - 1);
    ShrNotMore(m.nodeCount, layer - 1);
  }

  /** `get_inc_merkle_layer_left_node`.  For layer 1 the source returns the root, not a leaf. */
  method LayerLeftNode(m: State, layer: uint32) returns (node: Digest)
    requires WellSized(m)
    ensures m.nodeCount == 0 || layer >= MaxDepth(m.nodeCount) || layer == 0 ==> node == ZERO
    ensures layer == 1 && layer < MaxDepth(m.nodeCount) ==>
      m.activeNodes != [] && node == m.activeNodes[|m.activeNodes| - 1]
    ensures layer >= 2 && layer < MaxDepth(m.nodeCount) ==>
      node == if LastFull(m.nodeCount, layer) % 2 == 1 then ActiveAt(m, layer) else ZERO
  {
    var maxLayers := MaxDepth(m.nodeCount);
    if m.nodeCount == 0 {
      return ZERO;
    }
    if layer >= maxLayers {
      return ZERO;
    }
    var currentLayer := 1;
    var index := m.nodeCount;
    var activeIter := 0;
    OnesZero(m.nodeCount);
    if layer == 1 {
      return m.activeNodes[|m.activeNodes| - 1];
    }
    var currentLayerNode := ZERO;
    while currentLayer < maxLayers
      invariant 1 <= currentLayer <= maxLayers
      invariant layer == 0 || currentLayer <= layer
      invariant index == LastFull(m.nodeCount, currentLayer)
      invariant 0 <= activeIter == Ones(m.nodeCount) - Ones(index)
    {
      IteratorStep(m, currentLayer);
      if index % 2 == 1 {
        currentLayerNode := m.activeNodes[activeIter];
        activeIter := activeIter + 1;
      } else {
        currentLayerNode := ZERO;
      }
      if currentLayer == layer {
        return currentLayerNode;
      }
      currentLayer := currentLayer + 1;
      index := index / 2;
    }
    return ZERO;
  }

  /** The interval test of the cover search: is leaf `from` under node `index` of layer `diff + 1`?
      Below the count limit no shift loses a bit. */
  method IsUnder(from: uint32, index: nat, diff: nat, ghost count: nat) returns (under: bool)
    requires index == Shr(count, diff) >= 1 && count < COUNT_LIMIT
    ensures under <==> CeilShr(from, diff) == index
  {
    IntervalFits(count, diff);
    CeilShrIsCover(from, diff, index);
    var last := Shl32(index, diff);
    var first := last - Shl32(1, diff) + 1;
    under := first <= from && from <= last;
  }

  lemma {:induction false} IntervalFits(count: nat, k: nat)
    requires count < COUNT_LIMIT && Shr(count, k) >= 1
    ensures Shl32(Shr(count, k), k) == Shr(count, k) * Pow2(k)
    ensures Shl32(1, k) == Pow2(k)
    ensures Shr(count, k) * Pow2(k) - Pow2(k) == (Shr(count, k) - 1) * Pow2(k)
  {
    hide Pow2, Shr, Shl32;
    ShrBounds(count, k);
    var s, p := Shr(count, k), Pow2(k);
    MulAtLeast(s, p);
    Shl32Exact(s, k);
    Shl32Exact(1, k);
    assert 1 * p == p;
    assert (s - 1) * p == s * p - p;
  }

  lemma {:induction false} Shl32Exact(n: nat, k: nat)
    requires n * Pow2(k) < 0x1_0000_0000
    ensures Shl32(n, k) == n * Pow2(k)
  {
  }

  /** `get_inc_merkle_full_branch_root_cover_from`: the layer, index and root of the full sub-branch
      that covers `from`, or zeroes when there is none (`CoveredIsCounted`: for `from` outside 1 .. count). */
  method FullBranchCover(from: uint32, m: State) returns (layer: uint32, index: uint32, value: Digest)
    requires WellSized(m) && m.nodeCount < COUNT_LIMIT
    ensures layer == 0 ==> index == 0 && value == ZERO
    ensures layer > 0 ==>
      Covers(m.nodeCount, from, layer) && index == LastFull(m.nodeCount, layer) && value == ActiveAt(m, layer)
    ensures 1 <= from <= m.nodeCount ==> layer > 0
  {
    if from > m.nodeCount {
      return 0, 0, ZERO;
    }
    var maxLayers := MaxDepth(m.nodeCount);
    var currentLayer := 1;
    var idx := m.nodeCount;
    var activeIter := 0;
    var currentLayerNode := ZERO;
    MaxDepthBelow(m.nodeCount);
    while currentLayer <= maxLayers
      invariant 1 <= currentLayer <= maxLayers + 1
      invariant idx == LastFull(m.nodeCount, currentLayer)
      invariant 0 <= activeIter == Ones(m.nodeCount) - Ones(idx)
      invariant Ancestor(from, currentLayer) <= idx
    {
      IteratorStep(m, currentLayer);
      if idx % 2 == 1 {
        currentLayerNode := m.activeNodes[activeIter];
        activeIter := activeIter + 1;
        var diff := currentLayer - 1;
        var under := IsUnder(from, idx, diff, m.nodeCount);
        if under {
          return currentLayer, idx, currentLayerNode;
        }
      }
      StepUp(m.nodeCount, from, currentLayer);
      currentLayer := currentLayer + 1;
      idx := idx / 2;
    }
    if from >= 1 {
      NotPastTop(m.nodeCount, from, currentLayer);
    }
    return 0, 0, ZERO;
  }

  lemma {:induction false} MaxDepthBelow(n: nat)
    requires n < COUNT_LIMIT
    ensures MaxDepth(n) <= 32
  {
    if n > 1 && CeilLog2(n) > 31 {
      CeilLog2Bounds(n);
      Pow2Monotone(31, CeilLog2(n) - 1);
      Pow2Of31();
      assert false;
    }
  }

  lemma {:induction false} Pow2Of31()
    ensures Pow2(31) == COUNT_LIMIT
  {
    assert Pow2(8) == 256;
    Pow2Add(8, 8);
    Pow2Add(16, 8);
    assert Pow2(7) == 128;
    Pow2Add(24, 7);
  }

  lemma {:induction false} Pow2Monotone(i: nat, j: nat)
    requires i <= j
    ensures Pow2(i) <= Pow2(j)
  {
    if i < j {
      Pow2Monotone(i, j - 1);
    }
  }

  // ----- positions

  /** The other child of the same parent. */
  function Sibling(index: nat): nat
    requires index >= 1
  {
    if index % 2 == 1 then index + 1 else index - 1
  }

  /** `p` is the position of the sibling of `from`'s ancestor in `layer`. */
  predicate IsSiblingAt(p: (uint32, uint32), from: nat, layer: nat)
    requires from >= 1 && layer >= 1
  {
    CeilShrPositive(from, layer - 1);
    p.0 == layer && p.1 == Sibling(Ancestor(from, layer))
  }

  /** The siblings of `from`'s ancestors in layers 2 .. toLayer-1, then the ancestor in `toLayer`. */
  ghost predicate ArePositions(path: seq<(uint32, uint32)>, from: nat, toLayer: nat)
    requires from >= 1 && toLayer >= 2
  {
    && |path| == toLayer - 1
    && (forall i :: 0 <= i < toLayer - 2 ==> IsSiblingAt(path[i], from, i + 2))
    && path[toLayer - 2] == (toLayer, Ancestor(from, toLayer))
  }

  /** What comes out for the two numbers that no block has: 0, and the largest, whose successor wraps to 0. */
  ghost predicate AreWrapped(path: seq<(uint32, uint32)>, toLayer: nat)
    requires toLayer >= 2
  {
    && |path| == toLayer - 1
    && (forall i :: 0 <= i < toLayer - 2 ==> path[i] == (i + 2, 0xFFFF_FFFF))
    && path[toLayer - 2] == (toLayer, 0)
  }

  /** `get_merkle_path_positions_to_layer_in_full_branch` */
  method PathPositions(from: uint32, toLayer: uint32) returns (path: seq<(uint32, uint32)>)
    ensures toLayer < 2 ==> path == []
    ensures toLayer >= 2 && 1 <= from < 0xFFFF_FFFF ==> ArePositions(path, from, toLayer)
    ensures toLayer >= 2 && (from == 0 || from == 0xFFFF_FFFF) ==> AreWrapped(path, toLayer)
  {
    hide Ancestor, CeilShr, IsSiblingAt, Increment, Decrement, Sibling;
    path := [];
    if toLayer < 2 {
      return;
    }
    var index: uint32 := from;
    var currentLayer := 2;
    ghost var inRange := 1 <= from < 0xFFFF_FFFF;
    AncestorStart(from);
    while currentLayer < toLayer
      invariant 2 <= currentLayer <= toLayer
      invariant |path| == currentLayer - 2
      invariant inRange ==> index == Ancestor(from, currentLayer - 1) < 0xFFFF_FFFF
      invariant inRange ==> forall i :: 0 <= i < |path| ==> IsSiblingAt(path[i], from, i + 2)
      invariant !inRange ==> index == 0 || index == 0xFFFF_FFFF
      invariant !inRange ==> forall i :: 0 <= i < |path| ==> path[i] == (i + 2, 0xFFFF_FFFF)
    {
      AncestorUp(from, currentLayer - 1);
      HalvedUp(index);
      index := Increment(index) / 2;
      SiblingWraps(index);
      if index % 2 == 1 {
        path := path + [(currentLayer, Increment(index))];
      } else {
        path := path + [(currentLayer, Decrement(index))];
      }
      if inRange {
        SiblingAt(path[|path| - 1], from, currentLayer);
      }
      currentLayer := currentLayer + 1;
    }
    AncestorUp(from, toLayer - 1);
    HalvedUp(index);
    index := Increment(index) / 2;
    path := path + [(toLayer, index)];
  }

  lemma {:induction false} HalvedUp(index: uint32)
    ensures index < 0xFFFF_FFFF ==> Increment(index) / 2 == (index + 1) / 2 < 0xFFFF_FFFF
    ensures index == 0 || index == 0xFFFF_FFFF ==> Increment(index) / 2 == 0
  {
  }

  lemma {:induction false} SiblingWraps(index: uint32)
    ensures 1 <= index < 0xFFFF_FFFF ==>
      Sibling(index) == if index % 2 == 1 then Increment(index) else Decrement(index)
    ensures Decrement(0) == 0xFFFF_FFFF
  {
  }

  lemma {:induction false} AncestorStart(from: nat)
    ensures Ancestor(from, 1) == from
  {
  }

  lemma {:induction false} AncestorUp(from: nat, layer: nat)
    requires layer >= 1
    ensures Ancestor(from, layer + 1) == (Ancestor(from, layer) + 1) / 2
    ensures from >= 1 ==> Ancestor(from, layer + 1) >= 1
  {
    CeilShrStep(from, layer - 1);
    if from >= 1 {
      CeilShrPositive(from, layer);
    }
  }

  lemma {:induction false} SiblingAt(p: (uint32, uint32), from: nat, layer: nat)
    requires from >= 1 && layer >= 1 && Ancestor(from, layer) >= 1
    requires p.0 == layer && p.1 == Sibling(Ancestor(from, layer))
    ensures IsSiblingAt(p, from, layer)
  {
  }

  // uint32_t arithmetic wraps.
  function Increment(n: uint32): uint32 { (n + 1) % 0x1_0000_0000 }

  function Decrement(n: uint32): uint32 { (n + 0xFFFF_FFFF) % 0x1_0000_0000 }
}
