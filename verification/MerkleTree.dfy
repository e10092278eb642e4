/** The reference tree: what each node of the block Merkle tree is, written over the block ids alone.

    Layers count up from 1 (the block ids) and indices from 1, left to right, as in the picture in
    the source.  A chain that does not start at block 1 starts from an opaque root over its first
    `2^exp` blocks. */
module MerkleTree {
  import opened Bits
  import opened Digests

  datatype Start = Genesis | Snapshot(exp: nat, root: Digest)

  /** Where a chain starts, and the ids of the blocks from there on. */
  datatype Ledger = Ledger(start: Start, ids: seq<Digest>)

  /** How many blocks the opaque root stands for. */
  function BaseCount(start: Start): nat {
    if start.Genesis? then 0 else Pow2(start.exp)
  }

  function BlockId(led: Ledger, num: nat): Digest {
    var i := num - BaseCount(led.start) - 1;
    if 0 <= i < |led.ids| then led.ids[i] else ZERO
  }

  predicate IsOpaque(start: Start, layer: nat, index: nat) {
    start.Snapshot? && layer == start.exp + 1 && index == 1
  }

  /** The root of the perfect subtree at (layer, index): it hashes the ids of the blocks
      `(index-1) * 2^(layer-1) + 1` to `index * 2^(layer-1)`. */
  function Node(h: HashFn, led: Ledger, layer: nat, index: nat): Digest
    requires layer >= 1 && index >= 1
    decreases layer
  {
    if IsOpaque(led.start, layer, index) then led.start.root
    else if layer == 1 then BlockId(led, index)
    else Combine(h, Node(h, led, layer - 1, 2 * index - 1), Node(h, led, layer - 1, 2 * index))
  }

  /** The subtree at (layer, index) reaches past the opaque blocks. */
  predicate Live(start: Start, layer: nat, index: nat) {
    && index >= 1
    && (start.Snapshot? && layer <= start.exp + 1 ==> index > Pow2(start.exp + 1 - layer))
  }

  lemma {:induction false} LiveParent(start: Start, layer: nat, index: nat)
    requires layer >= 1 && Live(start, layer, index)
    ensures Live(start, layer + 1, (index + 1) / 2)
    ensures !IsOpaque(start, layer, index)
  {
    if start.Snapshot? && layer <= start.exp {
      assert Pow2(start.exp + 1 - layer) == 2 * Pow2(start.exp - layer);
    }
  }

  lemma {:induction false} LiveAncestor(start: Start, layer: nat, index: nat, k: nat)
    requires layer >= 1 && Live(start, layer, index)
    ensures Live(start, layer + k, CeilShr(index, k))
    decreases k
  {
    if k > 0 {
      LiveParent(start, layer, index);
      LiveAncestor(start, layer + 1, (index + 1) / 2, k - 1);
    }
  }

  /** A live parent is the hash of its two children. */
  lemma {:induction false} NodeSplit(h: HashFn, led: Ledger, layer: nat, left: nat)
    requires layer >= 1 && left % 2 == 1 && Live(led.start, layer, left + 1)
    ensures Node(h, led, layer + 1, (left + 1) / 2)
         == Combine(h, Node(h, led, layer, left), Node(h, led, layer, left + 1))
  {
    LiveParent(led.start, layer, left + 1);
    assert (left + 2) / 2 == (left + 1) / 2;
    var c := (left + 1) / 2;
    assert 2 * c - 1 == left;
    LiveParent(led.start, layer + 1, c);
  }

  /** The roots of the perfect subtrees that tile `1 .. index * 2^(layer-1)`: one for each set bit
      of `index`, low bit first. */
  function FullRoots(h: HashFn, led: Ledger, layer: nat, index: nat): seq<Digest>
    requires layer >= 1
    decreases index
  {
    if index == 0 then [] else
      (if index % 2 == 1 then [Node(h, led, layer, index)] else []) + FullRoots(h, led, layer + 1, index / 2)
  }

  lemma {:induction false} FullRootsStep(h: HashFn, led: Ledger, layer: nat, half: nat)
    requires layer >= 1
    ensures FullRoots(h, led, layer, 2 * half) == FullRoots(h, led, layer + 1, half)
    ensures FullRoots(h, led, layer, 2 * half + 1)
         == [Node(h, led, layer, 2 * half + 1)] + FullRoots(h, led, layer + 1, half)
  {
    assert (2 * half + 1) / 2 == half;
  }

  lemma {:induction false} FullRootsSize(h: HashFn, led: Ledger, layer: nat, index: nat)
    requires layer >= 1
    ensures |FullRoots(h, led, layer, index)| == Ones(index)
    decreases index
  {
    if index > 0 {
      FullRootsSize(h, led, layer + 1, index / 2);
    }
  }

  /** Trailing zero bits only move the first root up. */
  lemma {:induction false} FullRootsShift(h: HashFn, led: Ledger, layer: nat, index: nat, k: nat)
    requires layer >= 1
    ensures FullRoots(h, led, layer, index * Pow2(k)) == FullRoots(h, led, layer + k, index)
    decreases k
  {
    if k > 0 {
      MulDouble(index, Pow2(k - 1));
      FullRootsShift(h, led, layer + 1, index, k - 1);
    }
  }

  /** The root found by starting from the rightmost node of a layer, at `index`, and pairing upwards;
      a rightmost node without a right sibling is paired with itself. */
  function RootAbove(h: HashFn, led: Ledger, layer: nat, index: nat, top: Digest): Digest
    requires layer >= 1
    decreases index
  {
    if index <= 1 then top else
      var left := if index % 2 == 0 then Node(h, led, layer, index - 1) else top;
      RootAbove(h, led, layer + 1, (index + 1) / 2, Combine(h, left, top))
  }

  lemma {:induction false} RootAboveTop(h: HashFn, led: Ledger, layer: nat, top: Digest)
    requires layer >= 1
    ensures RootAbove(h, led, layer, 1, top) == top
  {
  }

  lemma {:induction false} RootAboveStep(h: HashFn, led: Ledger, layer: nat, half: nat, top: Digest)
    requires layer >= 1 && half >= 1
    ensures RootAbove(h, led, layer, 2 * half, top)
         == RootAbove(h, led, layer + 1, half, Combine(h, Node(h, led, layer, 2 * half - 1), top))
    ensures RootAbove(h, led, layer, 2 * half + 1, top)
         == RootAbove(h, led, layer + 1, half + 1, Combine(h, top, top))
  {
    assert (2 * half + 2) / 2 == half + 1;
  }

  /** The root over the first `count` blocks. */
  function Root(h: HashFn, led: Ledger, count: nat): Digest
    requires count >= 1
  {
    if count == BaseCount(led.start) then led.start.root
    else RootAbove(h, led, 1, count, BlockId(led, count))
  }

  /** What the active nodes of a tree over `count` blocks must be: the full sub-branch roots, low bit
      first, and the overall root unless it already is the only full root. */
  function ActiveNodes(h: HashFn, led: Ledger, count: nat): seq<Digest> {
    if count == 0 then []
    else FullRoots(h, led, 1, count) + (if Ones(count) == 1 then [] else [Root(h, led, count)])
  }

  function ActiveSize(count: nat): nat {
    if count == 0 then 0 else if Ones(count) == 1 then 1 else Ones(count) + 1
  }

  lemma {:induction false} ActiveNodesSize(h: HashFn, led: Ledger, count: nat)
    ensures |ActiveNodes(h, led, count)| == ActiveSize(count)
    ensures FullRoots(h, led, 1, count) <= ActiveNodes(h, led, count)
  {
    FullRootsSize(h, led, 1, count);
  }

  /** The root of a set bit sits behind one root for each lower set bit. */
  lemma {:induction false} FullRootAt(h: HashFn, led: Ledger, layer: nat, index: nat, k: nat)
    requires layer >= 1 && Shr(index, k) % 2 == 1
    ensures Ones(Shr(index, k)) >= 1
    ensures 0 <= Ones(index) - Ones(Shr(index, k)) < |FullRoots(h, led, layer, index)|
    ensures FullRoots(h, led, layer, index)[Ones(index) - Ones(Shr(index, k))] == Node(h, led, layer + k, Shr(index, k))
    decreases k
  {
    FullRootsSize(h, led, layer, index);
    OnesShr(index, k);
    OnesZero(Shr(index, k));
    if k > 0 {
      OnesShr(index / 2, k - 1);
      FullRootAt(h, led, layer + 1, index / 2, k - 1);
    }
  }

  /** In a tree whose count is a power of two the only full root is the overall root. */
  lemma {:induction false} PerfectRoot(h: HashFn, led: Ledger, layer: nat, index: nat)
    requires layer >= 1 && Ones(index) == 1 && Live(led.start, layer, index)
    ensures FullRoots(h, led, layer, index) == [RootAbove(h, led, layer, index, Node(h, led, layer, index))]
    decreases index, 1
  {
    if index > 1 {
      OnesZero(index / 2);
      LiveParent(led.start, layer, index);
      PerfectRootStep(h, led, layer, index / 2);
    } else {
      FullRootsStep(h, led, layer, 0);
    }
  }

  lemma {:induction false} PerfectRootStep(h: HashFn, led: Ledger, layer: nat, half: nat)
    requires layer >= 1 && Ones(half) == 1 && Live(led.start, layer, 2 * half) && Live(led.start, layer + 1, half)
    ensures FullRoots(h, led, layer, 2 * half) == [RootAbove(h, led, layer, 2 * half, Node(h, led, layer, 2 * half))]
    decreases 2 * half, 0
  {
    hide FullRoots, RootAbove, Node, Live;
    FullRootsStep(h, led, layer, half);
    RootAboveStep(h, led, layer, half, Node(h, led, layer, 2 * half));
    NodeSplit(h, led, layer, 2 * half - 1);
    PerfectRoot(h, led, layer + 1, half);
  }

  /** The last active node is always the root. */
  lemma {:induction false} LastActiveIsRoot(h: HashFn, led: Ledger, count: nat)
    requires count >= 1 && count >= BaseCount(led.start)
    ensures ActiveNodes(h, led, count) != []
    ensures ActiveNodes(h, led, count)[|ActiveNodes(h, led, count)| - 1] == Root(h, led, count)
  {
    ActiveNodesSize(h, led, count);
    if Ones(count) == 1 {
      if count == BaseCount(led.start) {
        FullRootsShift(h, led, 1, 1, led.start.exp);
        assert 1 * Pow2(led.start.exp) == count;
      } else {
        LiveParent(led.start, 1, count);
        PerfectRoot(h, led, 1, count);
      }
    }
  }
}
