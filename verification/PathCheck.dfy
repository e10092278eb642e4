/** Merkle paths: what an inclusion path is, the checker, and that each accepts exactly the other. */
module PathCheck {
  import opened Bits
  import opened Digests
  import opened MerkleTree
  import opened BranchCover

  // ----- the reference path

  /** A sibling as it stands in a path: its side bit says on which side it goes. */
  function SideNode(h: HashFn, led: Ledger, layer: nat, index: nat): Digest
    requires layer >= 1 && index >= 1
  {
    if index % 2 == 1 then MakeCanonicalLeft(Node(h, led, layer, index))
    else MakeCanonicalRight(Node(h, led, layer, index))
  }

  /** The siblings on the way from node (layer, index) up to `toLayer`. */
  function Siblings(h: HashFn, led: Ledger, layer: nat, index: nat, toLayer: nat): seq<Digest>
    requires layer >= 1 && index >= 1
    decreases toLayer - layer
  {
    if layer >= toLayer then []
    else [SideNode(h, led, layer, Sibling(index))] + Siblings(h, led, layer + 1, (index + 1) / 2, toLayer)
  }

  /** The left one of the two blocks that share `from`'s parent. */
  function PairLeft(from: nat): nat
    requires from >= 1
  {
    if from % 2 == 1 then from else from - 1
  }

  /** The path from block `from` to the node above it in `toLayer`. */
  function PathTo(h: HashFn, led: Ledger, from: nat, toLayer: nat): seq<Digest>
    requires from >= 1 && toLayer >= 2
  {
    CeilShrPositive(from, toLayer - 1);
    [BlockId(led, PairLeft(from)), BlockId(led, PairLeft(from) + 1)]
    + Siblings(h, led, 2, (from + 1) / 2, toLayer)
    + [Node(h, led, toLayer, Ancestor(from, toLayer))]
  }

  /** The path to a sub-branch of a single layer is the block's own id. */
  function InclusionPath(h: HashFn, led: Ledger, from: nat, toLayer: nat): seq<Digest>
    requires from >= 1 && toLayer >= 1
  {
    if toLayer == 1 then [BlockId(led, from)] else PathTo(h, led, from, toLayer)
  }

  lemma {:induction false} SiblingsElements(h: HashFn, led: Ledger, layer: nat, index: nat, toLayer: nat, j: nat)
    requires layer >= 1 && index >= 1 && layer <= toLayer
    ensures |Siblings(h, led, layer, index, toLayer)| == toLayer - layer
    ensures j < toLayer - layer ==>
      CeilShr(index, j) >= 1 &&
      Siblings(h, led, layer, index, toLayer)[j] == SideNode(h, led, layer + j, Sibling(CeilShr(index, j)))
    decreases toLayer - layer
  {
    CeilShrPositive(index, j);
    if layer < toLayer {
      SiblingsElements(h, led, layer + 1, (index + 1) / 2, toLayer, if j > 0 then j - 1 else 0);
    }
  }

  // ----- the checker

  function HashWith(h: HashFn, result: Digest, sibling: Digest): Digest {
    if IsCanonicalLeft(sibling) then h(sibling, MakeCanonicalRight(result))
    else h(MakeCanonicalLeft(result), sibling)
  }

  function HashUp(h: HashFn, result: Digest, siblings: seq<Digest>): Digest
    decreases |siblings|
  {
    if siblings == [] then result else HashUp(h, HashWith(h, result, siblings[0]), siblings[1..])
  }

  predicate Accepts(h: HashFn, path: seq<Digest>)
    requires |path| != 2
  {
    && |path| > 0
    && (|path| == 1 || HashUp(h, Combine(h, path[0], path[1]), path[2..|path| - 1]) == path[|path| - 1])
  }

  /** `verify_merkle_path`.  On a path of two elements the loop bound `size() - 3` wraps and the source
      reads past the end. */
  method VerifyMerklePath(h: HashFn, path: seq<Digest>) returns (ok: bool)
    requires |path| != 2
    ensures ok == Accepts(h, path)
    ensures (|path| == 0 ==> !ok) && (|path| == 1 ==> ok)
  {
    if |path| == 0 {
      return false;
    }
    if |path| == 1 {
      return true;
    }
    var result := Combine(h, path[0], path[1]);
    ghost var middle := path[2..|path| - 1];
    for i := 0 to |path| - 3
      invariant HashUp(h, result, middle[i..]) == HashUp(h, Combine(h, path[0], path[1]), middle)
    {
      assert middle[i..][0] == path[i + 2] && middle[i..][1..] == middle[i + 1..];
      var left, right;
      if IsCanonicalLeft(path[i + 2]) {
        left := path[i + 2];
        right := MakeCanonicalRight(result);
      } else {
        left := MakeCanonicalLeft(result);
        right := path[i + 2];
      }
      result := h(left, right);
    }
    ok := result == path[|path| - 1];
  }

  // ----- completeness

  /** No ancestor of node (layer, index), up to `toLayer`, is the opaque root. */
  predicate Unblocked(start: Start, layer: nat, index: nat, toLayer: nat)
    decreases toLayer - layer
  {
    layer >= toLayer ||
    (!IsOpaque(start, layer + 1, (index + 1) / 2) && Unblocked(start, layer + 1, (index + 1) / 2, toLayer))
  }

  lemma {:induction false} OpaqueBlocks(start: Start, layer: nat, index: nat, toLayer: nat, k: nat)
    requires 1 <= k <= toLayer - layer && IsOpaque(start, layer + k, CeilShr(index, k))
    ensures !Unblocked(start, layer, index, toLayer)
    decreases k
  {
    assert CeilShr(index, k) == CeilShr((index + 1) / 2, k - 1);
    if k > 1 {
      OpaqueBlocks(start, layer + 1, (index + 1) / 2, toLayer, k - 1);
    }
  }

  lemma {:induction false} LiveUnblocked(start: Start, layer: nat, index: nat, toLayer: nat)
    requires layer >= 1 && Live(start, layer, index)
    ensures Unblocked(start, layer, index, toLayer)
    decreases toLayer - layer
  {
    if layer < toLayer {
      LiveParent(start, layer, index);
      LiveParent(start, layer + 1, (index + 1) / 2);
      LiveUnblocked(start, layer + 1, (index + 1) / 2, toLayer);
    }
  }

  /** Hashing a node with its sibling gives their parent. */
  lemma {:induction false} HashWithSibling(h: HashFn, led: Ledger, layer: nat, index: nat)
    requires layer >= 1 && index >= 1 && !IsOpaque(led.start, layer + 1, (index + 1) / 2)
    ensures HashWith(h, Node(h, led, layer, index), SideNode(h, led, layer, Sibling(index)))
         == Node(h, led, layer + 1, (index + 1) / 2)
  {
    var c := (index + 1) / 2;
    assert Node(h, led, layer + 1, c) == Combine(h, Node(h, led, layer, 2 * c - 1), Node(h, led, layer, 2 * c));
    assert index == 2 * c - 1 || index == 2 * c;
  }

  lemma {:induction false} SiblingsLeadUp(h: HashFn, led: Ledger, layer: nat, index: nat, toLayer: nat)
    requires 1 <= layer <= toLayer && index >= 1 && Unblocked(led.start, layer, index, toLayer)
    ensures CeilShr(index, toLayer - layer) >= 1
    ensures HashUp(h, Node(h, led, layer, index), Siblings(h, led, layer, index, toLayer))
         == Node(h, led, toLayer, CeilShr(index, toLayer - layer))
    decreases toLayer - layer
  {
    CeilShrPositive(index, toLayer - layer);
    if layer < toLayer {
      HashWithSibling(h, led, layer, index);
      SiblingsLeadUp(h, led, layer + 1, (index + 1) / 2, toLayer);
      var rest := Siblings(h, led, layer + 1, (index + 1) / 2, toLayer);
      assert ([SideNode(h, led, layer, Sibling(index))] + rest)[1..] == rest;
    }
  }

  predicate ValidStart(start: Start) {
    start.Snapshot? ==> start.exp >= 1
  }

  lemma {:induction false} PairNode(h: HashFn, led: Ledger, c: nat)
    requires ValidStart(led.start) && c >= 1 && !IsOpaque(led.start, 2, c)
    ensures Node(h, led, 2, c) == Combine(h, BlockId(led, 2 * c - 1), BlockId(led, 2 * c))
  {
    assert Node(h, led, 1, 2 * c - 1) == BlockId(led, 2 * c - 1);
    assert Node(h, led, 1, 2 * c) == BlockId(led, 2 * c);
  }

  /** The checker accepts the path to any node above `from` that is not cut off by the opaque root. */
  lemma {:induction false} PathToAccepted(h: HashFn, led: Ledger, from: nat, toLayer: nat)
    requires ValidStart(led.start) && from >= 1 && toLayer >= 2 && Unblocked(led.start, 1, from, toLayer)
    ensures |PathTo(h, led, from, toLayer)| == toLayer + 1
    ensures Accepts(h, PathTo(h, led, from, toLayer))
  {
    hide Node, Siblings, HashUp, CeilShr, IsOpaque;
    var c, path := (from + 1) / 2, PathTo(h, led, from, toLayer);
    AncestorStep(from, toLayer);
    SiblingsElements(h, led, 2, c, toLayer, 0);
    assert path[2..|path| - 1] == Siblings(h, led, 2, c, toLayer);
    PairNode(h, led, c);
    assert PairLeft(from) == 2 * c - 1;
    SiblingsLeadUp(h, led, 2, c, toLayer);
  }

  /** Where the path shows its block, and where it ends. */
  lemma {:induction false} PathToEnds(h: HashFn, led: Ledger, from: nat, toLayer: nat)
    requires from >= 1 && toLayer >= 2
    ensures var path := PathTo(h, led, from, toLayer);
      && |path| == toLayer + 1
      && path[if from % 2 == 1 then 0 else 1] == BlockId(led, from)
      && Ancestor(from, toLayer) >= 1 && path[toLayer] == Node(h, led, toLayer, Ancestor(from, toLayer))
  {
    CeilShrPositive(from, toLayer - 1);
    SiblingsElements(h, led, 2, (from + 1) / 2, toLayer, 0);
  }

  // ----- soundness

  /** Neither node (layer, index) nor any of its ancestors up to `toLayer` is the opaque root. */
  predicate Clear(start: Start, layer: nat, index: nat, toLayer: nat) {
    !IsOpaque(start, layer, index) && Unblocked(start, layer, index, toLayer)
  }

  /** Which node the side bits lead down to from node `top` above all siblings. */
  function PlaceOf(siblings: seq<Digest>, top: nat): (index: nat)
    requires top >= 1
    ensures index >= 1
  {
    if siblings == [] then top else
      var up := PlaceOf(siblings[1..], top);
      if IsCanonicalLeft(siblings[0]) then 2 * up else 2 * up - 1
  }

  /** It is under the place the siblings from the `k`-th on lead to. */
  lemma {:induction false} PlaceAbove(siblings: seq<Digest>, top: nat, k: nat)
    requires top >= 1 && k <= |siblings|
    ensures CeilShr(PlaceOf(siblings, top), k) == PlaceOf(siblings[k..], top)
    ensures PlaceOf([], top) == top
  {
    hide CeilShr;
    CeilShrUnfold(PlaceOf(siblings, top), k);
    if k > 0 {
      PlaceAbove(siblings[1..], top, k - 1);
      var index, up := PlaceOf(siblings, top), PlaceOf(siblings[1..], top);
      assert index == 2 * up || index == 2 * up - 1;
      hide PlaceOf;
      assert (index + 1) / 2 == up;
      assert siblings[1..][k - 1..] == siblings[k..];
    } else {
      assert siblings[0..] == siblings;
    }
  }

  lemma {:induction false} SiblingsStep(h: HashFn, led: Ledger, layer: nat, index: nat, toLayer: nat)
    requires 1 <= layer <= toLayer && index >= 1
    ensures layer == toLayer ==>
      Siblings(h, led, layer, index, toLayer) == [] && CeilShr(index, toLayer - layer) == index
    ensures layer < toLayer ==>
      var siblings, up := Siblings(h, led, layer, index, toLayer), (index + 1) / 2;
      && siblings != [] && siblings[1..] == Siblings(h, led, layer + 1, up, toLayer)
      && index == (if IsCanonicalLeft(siblings[0]) then 2 * up else 2 * up - 1)
      && CeilShr(index, toLayer - layer) == CeilShr(up, toLayer - layer - 1) >= 1
  {
    hide Node, CeilShr, Sibling;
    CeilShrPositive(index, toLayer - layer);
    CeilShrUnfold(index, toLayer - layer);
    if layer < toLayer {
      SiblingSide(index);
      SideNodeSide(h, led, layer, Sibling(index));
      SiblingsUnfold(h, led, layer, index, toLayer);
    }
  }

  lemma {:induction false} SideNodeSide(h: HashFn, led: Ledger, layer: nat, index: nat)
    requires layer >= 1 && index >= 1
    ensures IsCanonicalLeft(SideNode(h, led, layer, index)) <==> index % 2 == 1
  {
    hide Node;
  }

  lemma {:induction false} SiblingSide(index: nat)
    requires index >= 1
    ensures Sibling(index) >= 1
    ensures var up := (index + 1) / 2; index == if Sibling(index) % 2 == 1 then 2 * up else 2 * up - 1
  {
  }

  /** The side bits of a node's own siblings lead back to that node. */
  lemma {:induction false} PlaceOfSiblings(h: HashFn, led: Ledger, layer: nat, index: nat, toLayer: nat)
    requires 1 <= layer <= toLayer && index >= 1
    ensures CeilShr(index, toLayer - layer) >= 1
    ensures PlaceOf(Siblings(h, led, layer, index, toLayer), CeilShr(index, toLayer - layer)) == index
    decreases toLayer - layer
  {
    hide Siblings, CeilShr;
    SiblingsStep(h, led, layer, index, toLayer);
    if layer < toLayer {
      var siblings, up := Siblings(h, led, layer, index, toLayer), (index + 1) / 2;
      PlaceOfSiblings(h, led, layer + 1, up, toLayer);
    } else {
      PlaceAbove([], index, 0);
    }
  }

  /** The hashes up to the layer of the opaque root give that root, and the siblings after them are the
      root's own.  Its side bit counts only when nothing is hashed after it. */
  ghost predicate HashesToRoot(h: HashFn, led: Ledger, layer: nat, result: Digest, siblings: seq<Digest>,
                               toLayer: nat, top: nat)
    requires toLayer == layer + |siblings|
  {
    && led.start.Snapshot? && layer <= led.start.exp + 1 <= toLayer && top == 1
    && var k := led.start.exp + 1 - layer;
       && Same(HashUp(h, result, siblings[..k]), led.start.root)
       && (k == |siblings| ==> HashUp(h, result, siblings) == led.start.root)
       && siblings[k..] == Siblings(h, led, led.start.exp + 1, 1, toLayer)
  }

  /** Hashing that ends in the root of a perfect subtree ran along the branch its side bits show, and from
      the node they lead to; with the opaque root on that branch, from a digest that hashes to that root. */
  lemma {:induction false} HashUpInverts(h: HashFn, led: Ledger, layer: nat, result: Digest, siblings: seq<Digest>,
                                         toLayer: nat, top: nat)
    requires CollisionFree(h)
    requires layer >= 1 && toLayer == layer + |siblings| && top >= 1
    requires HashUp(h, result, siblings) == Node(h, led, toLayer, top)
    ensures var index := PlaceOf(siblings, top);
      if Clear(led.start, layer, index, toLayer)
      then Same(result, Node(h, led, layer, index)) && siblings == Siblings(h, led, layer, index, toLayer)
      else HashesToRoot(h, led, layer, result, siblings, toLayer, top)
    decreases |siblings|
  {
    hide *;
    if siblings == [] {
      TopOfBranch(h, led, layer, result, top);
    } else {
      var up := PlaceOf(siblings[1..], top);
      HashUpStep(h, result, siblings);
      HashUpInverts(h, led, layer + 1, HashWith(h, result, siblings[0]), siblings[1..], toLayer, top);
      if Clear(led.start, layer + 1, up, toLayer) {
        BranchDown(h, led, layer, result, siblings, toLayer, top);
      } else {
        RootDown(h, led, layer, result, siblings, toLayer, top);
      }
    }
  }

  lemma {:induction false} HashUpStep(h: HashFn, result: Digest, siblings: seq<Digest>)
    ensures siblings != [] ==> HashUp(h, result, siblings) == HashUp(h, HashWith(h, result, siblings[0]), siblings[1..])
    ensures siblings == [] ==> HashUp(h, result, siblings) == result
  {
  }

  lemma {:induction false} TopOfBranch(h: HashFn, led: Ledger, layer: nat, result: Digest, top: nat)
    requires layer >= 1 && top >= 1 && HashUp(h, result, []) == Node(h, led, layer, top)
    ensures PlaceOf([], top) == top
    ensures if Clear(led.start, layer, top, layer) then Same(result, Node(h, led, layer, top))
      else HashesToRoot(h, led, layer, result, [], layer, top)
    ensures Siblings(h, led, layer, top, layer) == []
  {
  }

  /** One step down a clear branch: the side bit of the sibling says which child the result was. */
  lemma {:induction false} BranchDown(h: HashFn, led: Ledger, layer: nat, result: Digest, siblings: seq<Digest>,
                                      toLayer: nat, top: nat)
    requires CollisionFree(h) && layer >= 1 && top >= 1 && siblings != [] && toLayer == layer + |siblings|
    requires var up := PlaceOf(siblings[1..], top);
      && Clear(led.start, layer + 1, up, toLayer)
      && Same(HashWith(h, result, siblings[0]), Node(h, led, layer + 1, up))
      && siblings[1..] == Siblings(h, led, layer + 1, up, toLayer)
    ensures var index := PlaceOf(siblings, top);
      && Same(result, Node(h, led, layer, index)) && siblings == Siblings(h, led, layer, index, toLayer)
      && (!Clear(led.start, layer, index, toLayer) ==>
           HashesToRoot(h, led, layer, result, siblings, toLayer, top))
  {
    var up, index := PlaceOf(siblings[1..], top), PlaceOf(siblings, top);
    hide Node, HashUp, PlaceOf, CeilShr, Siblings, SideNode, HashWith, HashesToRoot;
    SiblingInverts(h, led, layer, result, siblings[0], up, index);
    SiblingsUnfold(h, led, layer, index, toLayer);
    assert siblings == [siblings[0]] + siblings[1..];
    if IsOpaque(led.start, layer, index) {
      PlaceAbove(siblings, top, |siblings|);
      CeilShrOfOne(|siblings|);
      assert siblings[|siblings|..] == [];
      AtRoot(h, led, result, siblings, toLayer);
    }
  }

  lemma {:induction false} SiblingsUnfold(h: HashFn, led: Ledger, layer: nat, index: nat, toLayer: nat)
    requires 1 <= layer < toLayer && index >= 1
    ensures Siblings(h, led, layer, index, toLayer)
         == [SideNode(h, led, layer, Sibling(index))] + Siblings(h, led, layer + 1, (index + 1) / 2, toLayer)
  {
  }

  lemma {:induction false} AtRoot(h: HashFn, led: Ledger, result: Digest, siblings: seq<Digest>, toLayer: nat)
    requires led.start.Snapshot? && toLayer == led.start.exp + 1 + |siblings| && siblings != []
    requires Same(result, Node(h, led, led.start.exp + 1, 1))
    requires siblings == Siblings(h, led, led.start.exp + 1, 1, toLayer)
    ensures HashesToRoot(h, led, led.start.exp + 1, result, siblings, toLayer, 1)
  {
    hide Node, HashUp, Siblings;
    HashUpStep(h, result, []);
    NodeAtRoot(h, led);
    assert siblings[..0] == [] && siblings[0..] == siblings;
  }

  lemma {:induction false} NodeAtRoot(h: HashFn, led: Ledger)
    requires led.start.Snapshot?
    ensures Node(h, led, led.start.exp + 1, 1) == led.start.root
  {
  }

  lemma {:induction false} SiblingInverts(h: HashFn, led: Ledger, layer: nat, result: Digest, sibling: Digest, up: nat,
                                          index: nat)
    requires CollisionFree(h) && layer >= 1 && up >= 1 && !IsOpaque(led.start, layer + 1, up)
    requires Same(HashWith(h, result, sibling), Node(h, led, layer + 1, up))
    requires index == if IsCanonicalLeft(sibling) then 2 * up else 2 * up - 1
    ensures (index + 1) / 2 == up && Same(result, Node(h, led, layer, index))
    ensures sibling == SideNode(h, led, layer, Sibling(index))
  {
    var l, r := Node(h, led, layer, 2 * up - 1), Node(h, led, layer, 2 * up);
    assert Node(h, led, layer + 1, up) == h(MakeCanonicalLeft(l), MakeCanonicalRight(r));
    if IsCanonicalLeft(sibling) {
      assert sibling == MakeCanonicalLeft(l) && MakeCanonicalRight(result) == MakeCanonicalRight(r);
    } else {
      assert sibling == MakeCanonicalRight(r) && MakeCanonicalLeft(result) == MakeCanonicalLeft(l);
    }
  }

  /** One step down a branch that has the opaque root further up. */
  lemma {:induction false} RootDown(h: HashFn, led: Ledger, layer: nat, result: Digest, siblings: seq<Digest>,
                                    toLayer: nat, top: nat)
    requires layer >= 1 && top >= 1 && siblings != [] && toLayer == layer + |siblings|
    requires !Clear(led.start, layer + 1, PlaceOf(siblings[1..], top), toLayer)
    requires HashesToRoot(h, led, layer + 1, HashWith(h, result, siblings[0]), siblings[1..], toLayer, top)
    ensures !Clear(led.start, layer, PlaceOf(siblings, top), toLayer)
    ensures HashesToRoot(h, led, layer, result, siblings, toLayer, top)
  {
    var k := led.start.exp + 1 - layer;
    assert siblings[..k][0] == siblings[0] && siblings[..k][1..] == siblings[1..][..k - 1];
    assert siblings[k..] == siblings[1..][k - 1..];
  }

  /** The same path, up to the side bits of the two block ids (which the checker overwrites). */
  predicate SamePath(path: seq<Digest>, other: seq<Digest>) {
    && |path| == |other| >= 2
    && Same(path[0], other[0]) && Same(path[1], other[1])
    && path[2..] == other[2..]
  }

  /** `path` is, up to those side bits, the path of block `from` to node `top` of its last layer. */
  predicate IsInclusionPath(h: HashFn, led: Ledger, path: seq<Digest>, top: nat, from: nat)
    requires |path| >= 3
  {
    from >= 1 && Ancestor(from, |path| - 1) == top && SamePath(path, PathTo(h, led, from, |path| - 1))
  }

  lemma {:induction false} AncestorStep(from: nat, toLayer: nat)
    requires toLayer >= 2
    ensures Ancestor(from, toLayer) == CeilShr((from + 1) / 2, toLayer - 2)
  {
  }

  lemma {:induction false} SamePathAccepted(h: HashFn, path: seq<Digest>, other: seq<Digest>)
    requires SamePath(path, other) && |path| >= 3 && Accepts(h, other)
    ensures Accepts(h, path)
  {
    assert MakeCanonicalLeft(path[0]) == MakeCanonicalLeft(other[0]);
    assert MakeCanonicalRight(path[1]) == MakeCanonicalRight(other[1]);
    var n := |path|;
    assert path[2..n - 1] == path[2..][..n - 3] == other[2..n - 1];
    assert path[n - 1] == path[2..][n - 3] == other[n - 1];
  }

  /** The left one of the two blocks below which the side bits of the siblings put the path. */
  function PointsAt(path: seq<Digest>, top: nat): (from: nat)
    requires |path| >= 3 && top >= 1
    ensures from % 2 == 1
  {
    2 * PlaceOf(path[2..|path| - 1], top) - 1
  }

  lemma {:induction false} PointsUnder(path: seq<Digest>, top: nat)
    requires |path| >= 3 && top >= 1
    ensures Ancestor(PointsAt(path, top), |path| - 1) == top
  {
    hide PlaceOf, CeilShr;
    var middle, from := path[2..|path| - 1], PointsAt(path, top);
    PlaceAbove(middle, top, |middle|);
    assert middle[|middle|..] == [];
    AncestorStep(from, |path| - 1);
    assert (from + 1) / 2 == PlaceOf(middle, top);
  }

  /** A prefix of the path hashes to the opaque root, and the rest leads from there to `top`. */
  ghost predicate IsPathFromRoot(h: HashFn, led: Ledger, path: seq<Digest>, top: nat)
    requires |path| >= 3
  {
    HashesToRoot(h, led, 2, Combine(h, path[0], path[1]), path[2..|path| - 1], |path| - 1, top)
  }

  lemma {:induction false} HashUpConcat(h: HashFn, result: Digest, a: seq<Digest>, b: seq<Digest>)
    ensures HashUp(h, result, a + b) == HashUp(h, HashUp(h, result, a), b)
    decreases |a|
  {
    if a == [] {
      assert a + b == b;
    } else {
      HashUpConcat(h, HashWith(h, result, a[0]), a[1..], b);
      assert (a + b)[0] == a[0] && (a + b)[1..] == a[1..] + b;
    }
  }

  lemma {:induction false} RootUnblocked(start: Start, layer: nat, toLayer: nat)
    requires start.Snapshot? && layer >= start.exp + 1
    ensures Unblocked(start, layer, 1, toLayer)
    decreases toLayer - layer
  {
    if layer < toLayer {
      RootUnblocked(start, layer + 1, toLayer);
    }
  }

  /** What hashes to the opaque root and goes on with the root's siblings ends in the node above the root. */
  lemma {:induction false} FromRootEnds(h: HashFn, led: Ledger, layer: nat, result: Digest, siblings: seq<Digest>,
                                        toLayer: nat)
    requires toLayer == layer + |siblings| && HashesToRoot(h, led, layer, result, siblings, toLayer, 1)
    ensures toLayer >= 1 && HashUp(h, result, siblings) == Node(h, led, toLayer, 1)
  {
    hide Siblings, HashUp, Unblocked, CeilShr;
    var low, k := led.start.exp + 1, led.start.exp + 1 - layer;
    var at, rest := HashUp(h, result, siblings[..k]), siblings[k..];
    assert siblings == siblings[..k] + rest;
    HashUpConcat(h, result, siblings[..k], rest);
    RootUnblocked(led.start, low, toLayer);
    SiblingsLeadUp(h, led, low, 1, toLayer);
    CeilShrOfOne(toLayer - low);
    NodeAtRoot(h, led);
    if rest != [] {
      SideBitIsOverwritten(h, at, led.start.root, rest);
    }
  }

  lemma {:induction false} SideBitIsOverwritten(h: HashFn, result: Digest, other: Digest, siblings: seq<Digest>)
    requires Same(result, other) && siblings != []
    ensures HashUp(h, result, siblings) == HashUp(h, other, siblings)
  {
    assert MakeCanonicalLeft(result) == MakeCanonicalLeft(other);
    assert MakeCanonicalRight(result) == MakeCanonicalRight(other);
  }

  /** A path from the opaque root ends above it, and its side bits never lead past the opaque blocks. */
  lemma {:induction false} FromRootPointsBelow(h: HashFn, led: Ledger, path: seq<Digest>, top: nat)
    requires ValidStart(led.start) && |path| >= 3 && IsPathFromRoot(h, led, path, top)
    ensures top == 1 && PointsAt(path, top) < BaseCount(led.start)
  {
    hide Siblings, HashUp, PlaceOf, CeilShr;
    var toLayer, low, middle := |path| - 1, led.start.exp + 1, path[2..|path| - 1];
    PlaceAbove(middle, top, low - 2);
    CeilShrOfOne(toLayer - low);
    PlaceOfSiblings(h, led, low, 1, toLayer);
    CeilShrIsCover(PlaceOf(middle, 1), low - 2, 1);
  }

  /** What the checker accepts, of the paths of `L + 1 >= 3` digests that end in the root of a perfect
      `L`-layer subtree: where the side bits lead to blocks that are not hidden under the opaque root,
      exactly the path of those blocks; elsewhere, exactly what hashes to the opaque root. */
  lemma {:induction false} AcceptsBySideBits(h: HashFn, led: Ledger, path: seq<Digest>, top: nat)
    requires CollisionFree(h) && ValidStart(led.start) && |path| >= 3 && top >= 1
    requires path[|path| - 1] == Node(h, led, |path| - 1, top)
    ensures var from := PointsAt(path, top);
      Accepts(h, path) <==> if Unblocked(led.start, 1, from, |path| - 1) then IsInclusionPath(h, led, path, top, from)
                            else IsPathFromRoot(h, led, path, top)
  {
    hide *;
    var from := PointsAt(path, top);
    if Accepts(h, path) {
      AcceptedPoints(h, led, path, top);
    }
    if Unblocked(led.start, 1, from, |path| - 1) {
      if IsInclusionPath(h, led, path, top, from) {
        InclusionAccepted(h, led, path, top, from);
      }
    } else if IsPathFromRoot(h, led, path, top) {
      FromRootAccepted(h, led, path, top);
    }
  }

  lemma {:induction false} AcceptedPoints(h: HashFn, led: Ledger, path: seq<Digest>, top: nat)
    requires CollisionFree(h) && ValidStart(led.start) && |path| >= 3 && top >= 1
    requires path[|path| - 1] == Node(h, led, |path| - 1, top) && Accepts(h, path)
    ensures var from := PointsAt(path, top);
      if Unblocked(led.start, 1, from, |path| - 1) then IsInclusionPath(h, led, path, top, from)
      else IsPathFromRoot(h, led, path, top)
  {
    hide HashUp, Siblings, CeilShr, Node, PlaceOf, HashesToRoot;
    var toLayer, middle := |path| - 1, path[2..|path| - 1];
    var c, from := PlaceOf(middle, top), PointsAt(path, top);
    HashUpInverts(h, led, 2, Combine(h, path[0], path[1]), middle, toLayer, top);
    assert (from + 1) / 2 == c;
    assert Unblocked(led.start, 1, from, toLayer) == Clear(led.start, 2, c, toLayer);
    if Clear(led.start, 2, c, toLayer) {
      PairNode(h, led, c);
      CombineInjective(h, path[0], path[1], BlockId(led, from), BlockId(led, from + 1));
      PointsUnder(path, top);
      assert path[2..] == middle + [path[toLayer]];
    }
  }

  lemma {:induction false} InclusionAccepted(h: HashFn, led: Ledger, path: seq<Digest>, top: nat, from: nat)
    requires ValidStart(led.start) && |path| >= 3 && IsInclusionPath(h, led, path, top, from)
    requires Unblocked(led.start, 1, from, |path| - 1)
    ensures Accepts(h, path)
  {
    hide PathTo, HashUp, Unblocked, CeilShr;
    PathToAccepted(h, led, from, |path| - 1);
    SamePathAccepted(h, path, PathTo(h, led, from, |path| - 1));
  }

  lemma {:induction false} FromRootAccepted(h: HashFn, led: Ledger, path: seq<Digest>, top: nat)
    requires |path| >= 3 && top >= 1 && IsPathFromRoot(h, led, path, top)
    requires path[|path| - 1] == Node(h, led, |path| - 1, top)
    ensures Accepts(h, path)
  {
    hide HashUp, Siblings, Node;
    FromRootEnds(h, led, 2, Combine(h, path[0], path[1]), path[2..|path| - 1], |path| - 1);
  }

  // ----- paths of any length

  /** `siblings` lead from `result`, a digest in `layer`, to node `top` of `toLayer`: up the branch their side
      bits show, or up from the opaque root on that branch.  With no siblings the side bit counts too. */
  ghost predicate LeadsTo(h: HashFn, led: Ledger, layer: nat, result: Digest, siblings: seq<Digest>, toLayer: nat,
                          top: nat)
    requires layer >= 1 && toLayer == layer + |siblings| && top >= 1
  {
    var index := PlaceOf(siblings, top);
    if Clear(led.start, layer, index, toLayer)
    then && Same(result, Node(h, led, layer, index)) && siblings == Siblings(h, led, layer, index, toLayer)
         && (siblings == [] ==> result == Node(h, led, layer, index))
    else HashesToRoot(h, led, layer, result, siblings, toLayer, top)
  }

  /** Hashing up from any layer ends in the root of a perfect subtree exactly along a branch. */
  lemma {:induction false} HashUpIff(h: HashFn, led: Ledger, layer: nat, result: Digest, siblings: seq<Digest>,
                                     toLayer: nat, top: nat)
    requires CollisionFree(h) && layer >= 1 && toLayer == layer + |siblings| && top >= 1
    ensures HashUp(h, result, siblings) == Node(h, led, toLayer, top)
       <==> LeadsTo(h, led, layer, result, siblings, toLayer, top)
  {
    hide Node, Siblings, CeilShr, Unblocked;
    var index := PlaceOf(siblings, top);
    if HashUp(h, result, siblings) == Node(h, led, toLayer, top) {
      HashUpInverts(h, led, layer, result, siblings, toLayer, top);
    }
    if LeadsTo(h, led, layer, result, siblings, toLayer, top) {
      if Clear(led.start, layer, index, toLayer) {
        PlaceAbove(siblings, top, |siblings|);
        assert siblings[|siblings|..] == [];
        SiblingsLeadUp(h, led, layer, index, toLayer);
        if siblings != [] {
          SideBitIsOverwritten(h, result, Node(h, led, layer, index), siblings);
        }
      } else {
        assert top == 1;
        FromRootEnds(h, led, layer, result, siblings, toLayer);
      }
    }
  }

  /** What a path of at most `toLayer + 1` digests shows when it ends in node `top` of `toLayer`: two sibling
      nodes in layer `toLayer + 2 - |path|` and the branch up from them.  They are blocks only if that is 1. */
  ghost predicate ShowsPair(h: HashFn, led: Ledger, path: seq<Digest>, toLayer: nat, top: nat)
    requires 3 <= |path| <= toLayer + 1 && top >= 1
  {
    var low, middle := toLayer + 2 - |path|, path[2..|path| - 1];
    var index := PlaceOf(middle, top);
    if Clear(led.start, low + 1, index, toLayer)
    then && Same(path[0], Node(h, led, low, 2 * index - 1)) && Same(path[1], Node(h, led, low, 2 * index))
         && middle == Siblings(h, led, low + 1, index, toLayer)
    else HashesToRoot(h, led, low + 1, Combine(h, path[0], path[1]), middle, toLayer, top)
  }

  /** What a longer one shows: all but its last `toLayer` digests hash to a block id, or on to the opaque root. */
  ghost predicate ShowsBelow(h: HashFn, led: Ledger, path: seq<Digest>, toLayer: nat, top: nat)
    requires |path| >= 3 && 1 <= toLayer <= |path| - 2 && top >= 1
  {
    var n := |path|;
    LeadsTo(h, led, 1, HashUp(h, Combine(h, path[0], path[1]), path[2..n - toLayer]), path[n - toLayer..n - 1],
            toLayer, top)
  }

  ghost predicate ShowsPath(h: HashFn, led: Ledger, path: seq<Digest>, toLayer: nat, top: nat)
    requires |path| >= 3 && toLayer >= 1 && top >= 1
  {
    if |path| <= toLayer + 1 then ShowsPair(h, led, path, toLayer, top) else ShowsBelow(h, led, path, toLayer, top)
  }

  /** The checker never looks at layers.  This is what it accepts among all paths of three or more digests
      that end in the root of a perfect subtree, whatever the layer of that root. */
  lemma {:induction false} AcceptsIffShows(h: HashFn, led: Ledger, path: seq<Digest>, toLayer: nat, top: nat)
    requires CollisionFree(h) && |path| >= 3 && toLayer >= 1 && top >= 1
    requires path[|path| - 1] == Node(h, led, toLayer, top)
    ensures Accepts(h, path) <==> ShowsPath(h, led, path, toLayer, top)
  {
    hide Node, Siblings, HashUp, Unblocked, PlaceOf, HashesToRoot, LeadsTo;
    var n, middle, pair := |path|, path[2..|path| - 1], Combine(h, path[0], path[1]);
    if n <= toLayer + 1 {
      HashUpIff(h, led, toLayer + 3 - n, pair, middle, toLayer, top);
      PairLeadsIff(h, led, path, toLayer, top);
    } else {
      var k := n - toLayer - 2;
      assert middle == middle[..k] + middle[k..];
      assert middle[..k] == path[2..n - toLayer] && middle[k..] == path[n - toLayer..n - 1];
      HashUpConcat(h, pair, middle[..k], middle[k..]);
      HashUpIff(h, led, 1, HashUp(h, pair, middle[..k]), middle[k..], toLayer, top);
    }
  }

  lemma {:induction false} PairLeadsIff(h: HashFn, led: Ledger, path: seq<Digest>, toLayer: nat, top: nat)
    requires CollisionFree(h) && 3 <= |path| <= toLayer + 1 && top >= 1
    ensures LeadsTo(h, led, toLayer + 3 - |path|, Combine(h, path[0], path[1]), path[2..|path| - 1], toLayer, top)
       <==> ShowsPair(h, led, path, toLayer, top)
  {
    hide Siblings, HashUp, PlaceOf, HashesToRoot, Unblocked;
    var low, index := toLayer + 2 - |path|, PlaceOf(path[2..|path| - 1], top);
    var l, r := Node(h, led, low, 2 * index - 1), Node(h, led, low, 2 * index);
    if Clear(led.start, low + 1, index, toLayer) {
      assert Node(h, led, low + 1, index) == Combine(h, l, r);
      if Same(Combine(h, path[0], path[1]), Combine(h, l, r)) {
        CombineInjective(h, path[0], path[1], l, r);
      }
      if Same(path[0], l) && Same(path[1], r) {
        assert MakeCanonicalLeft(path[0]) == MakeCanonicalLeft(l);
        assert MakeCanonicalRight(path[1]) == MakeCanonicalRight(r);
      }
    }
  }

  /** So a path of two nodes above the blocks and their parent is accepted, like that of two blocks. */
  lemma {:induction false} InteriorPairAccepted(h: HashFn, led: Ledger, layer: nat, top: nat)
    requires layer >= 1 && top >= 1 && !IsOpaque(led.start, layer + 1, top)
    ensures Accepts(h, [Node(h, led, layer, 2 * top - 1), Node(h, led, layer, 2 * top), Node(h, led, layer + 1, top)])
  {
    var path := [Node(h, led, layer, 2 * top - 1), Node(h, led, layer, 2 * top), Node(h, led, layer + 1, top)];
    assert path[2..2] == [];
  }

  /** The same without the side bits: an accepted path is the path of a block that is not hidden under the
      opaque root, or one from that root. */
  lemma {:induction false} AcceptsIffInclusionPath(h: HashFn, led: Ledger, path: seq<Digest>, top: nat)
    requires CollisionFree(h) && ValidStart(led.start) && |path| >= 3 && top >= 1
    requires path[|path| - 1] == Node(h, led, |path| - 1, top)
    ensures Accepts(h, path) <==>
      || IsPathFromRoot(h, led, path, top)
      || exists from: nat :: Unblocked(led.start, 1, from, |path| - 1) && IsInclusionPath(h, led, path, top, from)
  {
    hide *;
    if Accepts(h, path) {
      AcceptedPoints(h, led, path, top);
    }
    if IsPathFromRoot(h, led, path, top) {
      FromRootAccepted(h, led, path, top);
    }
    if from: nat :| Unblocked(led.start, 1, from, |path| - 1) && IsInclusionPath(h, led, path, top, from) {
      InclusionAccepted(h, led, path, top, from);
    }
  }
}
