/** The compact Merkle state and its append.

    The C++ class is copied by value everywhere, so its state is a datatype and the class below holds
    one in its fields. */
module IncrementalMerkle {
  import opened Bits
  import opened Digests
  import opened MerkleTree

  datatype State = State(nodeCount: nat, activeNodes: seq<Digest>)

  /** The list holds a node for every set bit of the count, so no reader runs off its end. */
  predicate WellSized(m: State) {
    |m.activeNodes| >= Ones(m.nodeCount)
  }

  /** What appending leaves: the walk from the new leaf up, over the bits of the old count.  `next` is
      the next old node to take and `kept` what has been kept so far. */
  function Collapse(h: HashFn, index: nat, depth: nat, active: seq<Digest>, next: nat,
                    top: Digest, partial: bool, kept: seq<Digest>): seq<Digest>
    requires |active| >= next + Ones(index)
    decreases depth
  {
    if depth == 0 then kept + [top]
    else if index % 2 == 0 then
      Collapse(h, index / 2, depth - 1, active, next, Combine(h, top, top), true,
               if partial then kept else kept + [top])
    else
      Collapse(h, index / 2, depth - 1, active, next + 1, Combine(h, active[next], top), partial,
               if partial then kept + [active[next]] else kept)
  }

  function Appended(h: HashFn, m: State, digest: Digest): State
    requires WellSized(m)
  {
    State(m.nodeCount + 1,
          Collapse(h, m.nodeCount, MaxDepth(m.nodeCount + 1) - 1, m.activeNodes, 0, digest, false, []))
  }

  lemma {:induction false} CollapseStepLeft(h: HashFn, half: nat, depth: nat, active: seq<Digest>, next: nat,
                                            top: Digest, partial: bool, kept: seq<Digest>)
    requires |active| >= next + Ones(2 * half)
    ensures |active| >= next + Ones(half)
    ensures Collapse(h, 2 * half, depth + 1, active, next, top, partial, kept)
         == Collapse(h, half, depth, active, next, Combine(h, top, top), true, if partial then kept else kept + [top])
  {
    OnesDouble(half);
  }

  lemma {:induction false} CollapseStepRight(h: HashFn, half: nat, depth: nat, active: seq<Digest>, next: nat,
                                             top: Digest, partial: bool, kept: seq<Digest>)
    requires |active| >= next + Ones(2 * half + 1)
    ensures |active| >= next + 1 + Ones(half)
    ensures Collapse(h, 2 * half + 1, depth + 1, active, next, top, partial, kept)
         == Collapse(h, half, depth, active, next + 1, Combine(h, active[next], top), partial,
                     if partial then kept + [active[next]] else kept)
  {
    OnesDouble(half);
    assert (2 * half + 1) / 2 == half;
  }

  /** The walk keeps at least one node for each bit it leaves set. */
  lemma {:induction false} CollapseSize(h: HashFn, index: nat, active: seq<Digest>, next: nat,
                                        top: Digest, partial: bool, kept: seq<Digest>)
    requires |active| >= next + Ones(index)
    ensures |Collapse(h, index, CeilLog2(index + 1), active, next, top, partial, kept)|
         >= |kept| + Ones(if partial then index else index + 1)
    decreases index, 1
  {
    if index > 0 {
      CollapseSizeStep(h, index / 2, index % 2 == 1, active, next, top, partial, kept);
    }
  }

  lemma {:induction false} CollapseSizeStep(h: HashFn, half: nat, odd: bool, active: seq<Digest>, next: nat,
                                            top: Digest, partial: bool, kept: seq<Digest>)
    requires var index := if odd then 2 * half + 1 else 2 * half; index > 0 && |active| >= next + Ones(index)
    ensures var index := if odd then 2 * half + 1 else 2 * half;
         |Collapse(h, index, CeilLog2(index + 1), active, next, top, partial, kept)|
         >= |kept| + Ones(if partial then index else index + 1)
    decreases if odd then 2 * half + 1 else 2 * half, 0
  {
    hide Collapse, CeilLog2, Ones;
    CeilLog2Step(half);
    OnesDouble(half);
    OnesDouble(half + 1);
    if odd {
      CollapseStepRight(h, half, CeilLog2(half + 1), active, next, top, partial, kept);
      CollapseSize(h, half, active, next + 1, Combine(h, active[next], top), partial,
                   if partial then kept + [active[next]] else kept);
    } else {
      CollapseStepLeft(h, half, CeilLog2(half + 1), active, next, top, partial, kept);
      CollapseSize(h, half, active, next, Combine(h, top, top), true, if partial then kept else kept + [top]);
    }
  }

  lemma {:induction false} AppendedWellSized(h: HashFn, m: State, digest: Digest)
    requires WellSized(m)
    ensures WellSized(Appended(h, m, digest))
  {
    CollapseSize(h, m.nodeCount, m.activeNodes, 0, digest, false, []);
  }

  /** The state stands for the first `nodeCount` blocks of the ledger. */
  predicate Represents(h: HashFn, led: Ledger, m: State) {
    && m.nodeCount >= BaseCount(led.start)
    && m.activeNodes == ActiveNodes(h, led, m.nodeCount)
  }

  lemma {:induction false} RepresentsWellSized(h: HashFn, led: Ledger, m: State)
    requires Represents(h, led, m)
    ensures WellSized(m) && |m.activeNodes| == ActiveSize(m.nodeCount)
  {
    ActiveNodesSize(h, led, m.nodeCount);
    OnesZero(m.nodeCount);
  }

  /** The active nodes that come from `layer` upwards once its rightmost node is `top`, at `index + 1`. */
  function NodesFrom(h: HashFn, led: Ledger, layer: nat, index: nat, top: Digest, partial: bool): seq<Digest>
    requires layer >= 1
  {
    FullRoots(h, led, layer, if partial then index else index + 1)
    + (if !partial && Ones(index + 1) == 1 then [] else [RootAbove(h, led, layer, index + 1, top)])
  }

  lemma {:induction false} NodesFromLeft(h: HashFn, led: Ledger, layer: nat, half: nat, top: Digest, partial: bool)
    requires layer >= 1 && half >= 1
    requires !partial ==> top == Node(h, led, layer, 2 * half + 1)
    ensures NodesFrom(h, led, layer, 2 * half, top, partial)
         == (if partial then [] else [top]) + NodesFrom(h, led, layer + 1, half, Combine(h, top, top), true)
  {
    FullRootsStep(h, led, layer, half);
    RootAboveStep(h, led, layer, half, top);
    OnesDouble(half);
    OnesZero(half);
  }

  lemma {:induction false} NodesFromRight(h: HashFn, led: Ledger, layer: nat, half: nat, top: Digest, partial: bool)
    requires layer >= 1
    ensures NodesFrom(h, led, layer, 2 * half + 1, top, partial)
         == (if partial then [Node(h, led, layer, 2 * half + 1)] else [])
          + NodesFrom(h, led, layer + 1, half, Combine(h, Node(h, led, layer, 2 * half + 1), top), partial)
  {
    hide FullRoots, RootAbove, Ones, Node;
    FullRootsStep(h, led, layer, half);
    FullRootsStep(h, led, layer, half + 1);
    RootAboveStep(h, led, layer, half + 1, top);
    OnesDouble(half + 1);
  }

  /** Half way up: `top` is the rightmost node of its layer, and the nodes not taken yet start with the
      full roots to its left. */
  lemma {:induction false} CollapseIsNodesFrom(h: HashFn, led: Ledger, layer: nat, index: nat, active: seq<Digest>,
                                               next: nat, top: Digest, partial: bool, kept: seq<Digest>)
    requires layer >= 1 && Live(led.start, layer, index + 1)
    requires next <= |active| && FullRoots(h, led, layer, index) <= active[next..]
    requires !partial ==> top == Node(h, led, layer, index + 1)
    ensures |active| >= next + Ones(index)
    ensures Collapse(h, index, CeilLog2(index + 1), active, next, top, partial, kept)
         == kept + NodesFrom(h, led, layer, index, top, partial)
    decreases index, 1
  {
    FullRootsSize(h, led, layer, index);
    if index > 0 {
      LiveParent(led.start, layer, index + 1);
      if index % 2 == 0 {
        CollapseLeft(h, led, layer, index / 2, active, next, top, partial, kept);
      } else {
        CollapseRight(h, led, layer, index / 2, active, next, top, partial, kept);
      }
    }
  }

  lemma {:induction false} CollapseLeft(h: HashFn, led: Ledger, layer: nat, half: nat, active: seq<Digest>,
                                        next: nat, top: Digest, partial: bool, kept: seq<Digest>)
    requires layer >= 1 && half >= 1 && Live(led.start, layer + 1, half + 1)
    requires next <= |active| && FullRoots(h, led, layer, 2 * half) <= active[next..]
    requires !partial ==> top == Node(h, led, layer, 2 * half + 1)
    requires |active| >= next + Ones(2 * half)
    ensures Collapse(h, 2 * half, CeilLog2(2 * half + 1), active, next, top, partial, kept)
         == kept + NodesFrom(h, led, layer, 2 * half, top, partial)
    decreases 2 * half, 0
  {
    hide Collapse, CeilLog2, Ones, RootAbove, FullRoots, NodesFrom, Node, Live;
    FullRootsStep(h, led, layer, half);
    CeilLog2Step(half);
    CollapseStepLeft(h, half, CeilLog2(half + 1), active, next, top, partial, kept);
    NodesFromLeft(h, led, layer, half, top, partial);
    CollapseIsNodesFrom(h, led, layer + 1, half, active, next, Combine(h, top, top), true,
                        if partial then kept else kept + [top]);
  }

  lemma {:induction false} CollapseRight(h: HashFn, led: Ledger, layer: nat, half: nat, active: seq<Digest>,
                                         next: nat, top: Digest, partial: bool, kept: seq<Digest>)
    requires layer >= 1 && Live(led.start, layer, 2 * half + 2) && Live(led.start, layer + 1, half + 1)
    requires next <= |active| && FullRoots(h, led, layer, 2 * half + 1) <= active[next..]
    requires !partial ==> top == Node(h, led, layer, 2 * half + 2)
    requires |active| >= next + Ones(2 * half + 1)
    ensures Collapse(h, 2 * half + 1, CeilLog2(2 * half + 2), active, next, top, partial, kept)
         == kept + NodesFrom(h, led, layer, 2 * half + 1, top, partial)
    decreases 2 * half + 1, 0
  {
    hide Collapse, CeilLog2, Ones, RootAbove, FullRoots, NodesFrom, Node, Live;
    FullRootsStep(h, led, layer, half);
    CeilLog2Step(half);
    CollapseStepRight(h, half, CeilLog2(half + 1), active, next, top, partial, kept);
    NodesFromRight(h, led, layer, half, top, partial);
    TakeFirst(active, next, Node(h, led, layer, 2 * half + 1), FullRoots(h, led, layer + 1, half));
    NodeSplit(h, led, layer, 2 * half + 1);
    assert (2 * half + 2) / 2 == half + 1;
    CollapseIsNodesFrom(h, led, layer + 1, half, active, next + 1, Combine(h, active[next], top), partial,
                        if partial then kept + [active[next]] else kept);
  }

  lemma {:induction false} TakeFirst(active: seq<Digest>, next: nat, first: Digest, rest: seq<Digest>)
    requires next <= |active| && [first] + rest <= active[next..]
    ensures next < |active| && active[next] == first && rest <= active[next + 1..]
  {
    assert ([first] + rest)[0] == first;
    assert ([first] + rest)[1..] == rest;
    assert active[next..][1..] == active[next + 1..];
  }

  lemma {:induction false} NodesFromLeaf(h: HashFn, led: Ledger, num: nat)
    requires num > BaseCount(led.start)
    ensures Node(h, led, 1, num) == BlockId(led, num)
    ensures NodesFrom(h, led, 1, num - 1, BlockId(led, num), false) == ActiveNodes(h, led, num)
  {
    hide FullRoots, RootAbove, Ones;
    LiveParent(led.start, 1, num);
  }

  /** Appending the next block id keeps the compact state in step with the reference tree. */
  lemma {:induction false} AppendKeepsRepresents(h: HashFn, led: Ledger, m: State)
    requires Represents(h, led, m)
    ensures WellSized(m)
    ensures Represents(h, led, Appended(h, m, BlockId(led, m.nodeCount + 1)))
  {
    hide *;
    var n := m.nodeCount;
    RepresentsStart(h, led, m);
    NodesFromLeaf(h, led, n + 1);
    CollapseIsNodesFrom(h, led, 1, n, m.activeNodes, 0, BlockId(led, n + 1), false, []);
    AppendedIs(h, led, m, BlockId(led, n + 1));
  }

  lemma {:induction false} RepresentsStart(h: HashFn, led: Ledger, m: State)
    requires Represents(h, led, m)
    ensures WellSized(m) && |m.activeNodes| >= Ones(m.nodeCount)
    ensures m.nodeCount + 1 > BaseCount(led.start) && Live(led.start, 1, m.nodeCount + 1)
    ensures FullRoots(h, led, 1, m.nodeCount) <= m.activeNodes[0..]
  {
    RepresentsWellSized(h, led, m);
    ActiveNodesSize(h, led, m.nodeCount);
    assert m.activeNodes[0..] == m.activeNodes;
  }

  lemma {:induction false} AppendedIs(h: HashFn, led: Ledger, m: State, digest: Digest)
    requires WellSized(m) && |m.activeNodes| >= Ones(m.nodeCount) && m.nodeCount + 1 >= BaseCount(led.start)
    ensures Collapse(h, m.nodeCount, CeilLog2(m.nodeCount + 1), m.activeNodes, 0, digest, false, [])
         == [] + ActiveNodes(h, led, m.nodeCount + 1)
        ==> Represents(h, led, Appended(h, m, digest))
  {
    hide Collapse, CeilLog2, ActiveNodes, Ones;
    assert [] + ActiveNodes(h, led, m.nodeCount + 1) == ActiveNodes(h, led, m.nodeCount + 1);
  }

  /** The library class, updated in place. */
  class IncrementalMerkle {
    const h: HashFn
    var nodeCount: nat
    var activeNodes: seq<Digest>

    function Contents(): State
      reads this
    {
      State(nodeCount, activeNodes)
    }

    constructor (h: HashFn)
      ensures this.h == h && Contents() == State(0, [])
    {
      this.h := h;
      nodeCount, activeNodes := 0, [];
    }

    constructor CopyOf(h: HashFn, m: State)
      ensures this.h == h && Contents() == m
    {
      this.h := h;
      nodeCount, activeNodes := m.nodeCount, m.activeNodes;
    }

    method Append(digest: Digest) returns (root: Digest)
      requires WellSized(Contents())
      modifies this
      ensures Contents() == Appended(h, old(Contents()), digest)
      ensures activeNodes != [] && root == activeNodes[|activeNodes| - 1]
    {
      var partial := false;
      var currentDepth: nat := MaxDepth(nodeCount + 1) - 1;
      var index := nodeCount;
      var top := digest;
      var activeIter := 0;
      var updated: seq<Digest> := [];
      ghost var result := Appended(h, Contents(), digest).activeNodes;
      while currentDepth > 0
        invariant 0 <= activeIter && activeIter + Ones(index) <= |activeNodes|
        invariant Collapse(h, index, currentDepth, activeNodes, activeIter, top, partial, updated) == result
        modifies {}
      {
        if index % 2 == 0 {
          if !partial {
            updated := updated + [top];
          }
          top := Combine(h, top, top);
          partial := true;
        } else {
          var leftValue := activeNodes[activeIter];
          activeIter := activeIter + 1;
          if partial {
            updated := updated + [leftValue];
          }
          top := Combine(h, leftValue, top);
        }
        currentDepth := currentDepth - 1;
        index := index / 2;
      }
      updated := updated + [top];
      activeNodes := updated;
      nodeCount := nodeCount + 1;
      root := activeNodes[|activeNodes| - 1];
    }
  }
}
