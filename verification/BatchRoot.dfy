/** The plain batch algorithm, and its agreement with the incremental tree. */
module BatchRoot {
  import opened Bits
  import opened Wrappers
  import opened Digests
  import opened MerkleTree
  import opened IncrementalMerkle

  /** An odd layer is made even by repeating its last element. */
  function Padded(ids: seq<Digest>): (r: seq<Digest>)
    requires ids != []
    ensures |r| % 2 == 0 && ids <= r
  {
    if |ids| % 2 == 1 then ids + [ids[|ids| - 1]] else ids
  }

  function NextLayer(h: HashFn, ids: seq<Digest>): seq<Digest>
    requires ids != []
  {
    var p := Padded(ids);
    seq(|p| / 2, i requires 0 <= i < |p| / 2 => Combine(h, p[2 * i], p[2 * i + 1]))
  }

  lemma {:induction false} PairedIsNextLayer(h: HashFn, ids: seq<Digest>, paired: seq<Digest>)
    requires ids != [] && |paired| == |Padded(ids)| / 2
    requires forall k :: 0 <= k < |paired| ==> paired[k] == Combine(h, Padded(ids)[2 * k], Padded(ids)[2 * k + 1])
    ensures paired == NextLayer(h, ids)
  {
  }

  function Batch(h: HashFn, ids: seq<Digest>): Digest
    requires ids != []
    decreases |ids|
  {
    if |ids| == 1 then ids[0] else Batch(h, NextLayer(h, ids))
  }

  /** The inner loop of `print_merkle_tree`: pair the elements of an even layer in place. */
  method PairUp(h: HashFn, padded: seq<Digest>) returns (layer: seq<Digest>)
    requires |padded| % 2 == 0
    ensures |layer| == |padded|
    ensures forall k :: 0 <= k < |padded| / 2 ==> layer[k] == Combine(h, padded[2 * k], padded[2 * k + 1])
  {
    layer := padded;
    for i := 0 to |layer| / 2
      invariant |layer| == |padded|
      invariant forall k :: 0 <= k < i ==> layer[k] == Combine(h, padded[2 * k], padded[2 * k + 1])
      invariant layer[i..] == padded[i..]
    {
      assert layer[2 * i] == layer[i..][i] && layer[2 * i + 1] == layer[i..][i + 1];
      ghost var was := layer;
      layer := layer[i := Combine(h, layer[2 * i], layer[2 * i + 1])];
      assert layer[i + 1..] == was[i..][1..];
    }
  }

  /** `print_merkle_tree`: each layer overwrites the front half of the one below, which is then cut
      off.  Returns the root it prints. */
  method PrintMerkleTree(h: HashFn, ids: seq<Digest>) returns (root: Option<Digest>)
    ensures root == if ids == [] then None else Some(Batch(h, ids))
  {
    if |ids| == 0 {
      return None;
    }
    var layer := ids;
    while |layer| > 1
      invariant layer != [] && Batch(h, layer) == Batch(h, ids)
      decreases |layer|
    {
      ghost var below := layer;
      if |layer| % 2 == 1 {
        layer := layer + [layer[|layer| - 1]];
      }
      layer := PairUp(h, layer);
      layer := layer[..|layer| / 2];
      PairedIsNextLayer(h, below, layer);
    }
    root := Some(layer[0]);
  }

  // ----- agreement with the incremental tree

  /** Appending the digests one by one to the empty tree. */
  function AppendAll(h: HashFn, digests: seq<Digest>): (m: State)
    ensures m.nodeCount == |digests| && WellSized(m)
  {
    if digests == [] then State(0, [])
    else
      var m := AppendAll(h, digests[..|digests| - 1]);
      AppendedWellSized(h, m, digests[|digests| - 1]);
      Appended(h, m, digests[|digests| - 1])
  }

  lemma {:induction false} AppendAllStep(h: HashFn, digests: seq<Digest>, n: nat)
    requires n < |digests|
    ensures AppendAll(h, digests[..n + 1]) == Appended(h, AppendAll(h, digests[..n]), digests[n])
  {
    assert digests[..n + 1][..n] == digests[..n];
  }

  lemma {:induction false} AppendAllRepresents(h: HashFn, all: seq<Digest>, n: nat)
    requires n <= |all|
    ensures Represents(h, Ledger(Genesis, all), AppendAll(h, all[..n]))
  {
    if n > 0 {
      AppendAllRepresents(h, all, n - 1);
      AppendKeepsRepresents(h, Ledger(Genesis, all), AppendAll(h, all[..n - 1]));
      AppendAllStep(h, all, n - 1);
    }
  }

  /** Row `layer` of the batch loop holds the reference nodes, except for its last element. */
  predicate IsLayer(h: HashFn, led: Ledger, layer: nat, row: seq<Digest>)
    requires layer >= 1
  {
    forall index :: 1 <= index < |row| ==> Node(h, led, layer, index) == row[index - 1]
  }

  lemma {:induction false} NextLayerIsLayer(h: HashFn, led: Ledger, layer: nat, row: seq<Digest>)
    requires layer >= 1 && led.start.Genesis? && row != [] && IsLayer(h, led, layer, row)
    ensures IsLayer(h, led, layer + 1, NextLayer(h, row))
  {
    hide Node;
    var up, above := NextLayer(h, row), layer + 1;
    forall index | 1 <= index < |up|
      ensures Node(h, led, above, index) == up[index - 1]
    {
      assert Node(h, led, layer, 2 * index - 1) == row[2 * index - 2];
      assert Node(h, led, layer, 2 * index) == row[2 * index - 1];
      NodeSplit(h, led, layer, 2 * index - 1);
    }
  }

  /** Pairing the last element, with the node to its left or with itself, does not change the root. */
  lemma {:induction false} NextLayerRoot(h: HashFn, led: Ledger, layer: nat, row: seq<Digest>)
    requires layer >= 1 && |row| > 1 && IsLayer(h, led, layer, row)
    ensures |NextLayer(h, row)| == (|row| + 1) / 2
    ensures RootAbove(h, led, layer, |row|, row[|row| - 1])
         == RootAbove(h, led, layer + 1, |NextLayer(h, row)|, NextLayer(h, row)[|NextLayer(h, row)| - 1])
  {
    if |row| % 2 == 0 {
      assert Node(h, led, layer, |row| - 1) == row[|row| - 2];
    }
  }

  lemma {:induction false} BatchIsRootAbove(h: HashFn, led: Ledger, layer: nat, row: seq<Digest>)
    requires layer >= 1 && led.start.Genesis? && row != [] && IsLayer(h, led, layer, row)
    ensures Batch(h, row) == RootAbove(h, led, layer, |row|, row[|row| - 1])
    decreases |row|
  {
    hide Node, IsLayer, NextLayer, RootAbove;
    if |row| == 1 {
      RootAboveTop(h, led, layer, row[0]);
    } else {
      NextLayerIsLayer(h, led, layer, row);
      NextLayerRoot(h, led, layer, row);
      BatchIsRootAbove(h, led, layer + 1, NextLayer(h, row));
    }
  }

  lemma {:induction false} IdsAreLayerOne(h: HashFn, digests: seq<Digest>)
    ensures IsLayer(h, Ledger(Genesis, digests), 1, digests)
  {
  }

  lemma {:induction false} BatchIsRoot(h: HashFn, digests: seq<Digest>)
    requires digests != []
    ensures Batch(h, digests) == Root(h, Ledger(Genesis, digests), |digests|)
  {
    hide RootAbove, Batch, Node, IsLayer;
    var led := Ledger(Genesis, digests);
    IdsAreLayerOne(h, digests);
    BatchIsRootAbove(h, led, 1, digests);
    assert BlockId(led, |digests|) == digests[|digests| - 1];
  }

  /** Appending one by one and the pairwise batch loop end in the same root. */
  lemma {:induction false} IncrementalIsBatch(h: HashFn, digests: seq<Digest>)
    requires digests != []
    ensures var active := AppendAll(h, digests).activeNodes;
      active != [] && active[|active| - 1] == Batch(h, digests)
  {
    var led := Ledger(Genesis, digests);
    BatchIsRoot(h, digests);
    AppendAllRepresents(h, digests, |digests|);
    assert digests[..|digests|] == digests;
    LastActiveIsRoot(h, led, |digests|);
  }

  /** `generate_inc_merkle`, for given digests: both algorithms on the same list. */
  method GenerateIncMerkle(h: HashFn, digests: seq<Digest>) returns (m: State, printed: Option<Digest>, root: Digest)
    ensures m == AppendAll(h, digests)
    ensures m.nodeCount == |digests|
    ensures if digests == [] then printed.None? && root == ZERO
      else m.activeNodes != [] && printed == Some(root) && root == m.activeNodes[|m.activeNodes| - 1]
  {
    printed := PrintMerkleTree(h, digests);
    var incMerkle := new IncrementalMerkle(h);
    root := ZERO;
    for n := 0 to |digests|
      invariant incMerkle.h == h && fresh(incMerkle)
      invariant incMerkle.Contents() == AppendAll(h, digests[..n])
      invariant if n == 0 then root == ZERO else
        incMerkle.activeNodes != [] && root == incMerkle.activeNodes[|incMerkle.activeNodes| - 1]
    {
      AppendAllStep(h, digests, n);
      root := incMerkle.Append(digests[n]);
    }
    assert digests[..|digests|] == digests;
    m := incMerkle.Contents();
    if digests != [] {
      IncrementalIsBatch(h, digests);
    }
  }

  // ----- composition

  lemma {:induction false} NextLayerConcat(h: HashFn, a: seq<Digest>, b: seq<Digest>)
    requires a != [] && b != [] && |a| % 2 == 0
    ensures NextLayer(h, a + b) == NextLayer(h, a) + NextLayer(h, b)
  {
    assert Padded(a + b) == Padded(a) + Padded(b);
  }

  /** A list split after its largest complete half: the root is the canonical pair of the two roots. */
  lemma {:induction false} BatchComposes(h: HashFn, k: nat, a: seq<Digest>, b: seq<Digest>)
    requires |a| == Pow2(k) && b != [] && |b| <= Pow2(k) < 2 * |b|
    ensures Batch(h, a + b) == Combine(h, Batch(h, a), Batch(h, b))
    decreases k
  {
    hide Pow2;
    if k == 0 {
      Pow2Step(0);
      BatchOfTwo(h, a, b);
    } else {
      Pow2Step(k - 1);
      Pow2Step(0);
      NextLayerConcat(h, a, b);
      BatchComposes(h, k - 1, NextLayer(h, a), NextLayer(h, b));
    }
  }

  lemma {:induction false} BatchOfTwo(h: HashFn, a: seq<Digest>, b: seq<Digest>)
    requires |a| == 1 && |b| == 1
    ensures Batch(h, a + b) == Combine(h, Batch(h, a), Batch(h, b))
  {
    assert NextLayer(h, a + b) == [Combine(h, a[0], b[0])];
  }
}
