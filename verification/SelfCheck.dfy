/** The self-check of a compact state: recompute the root from the other active nodes. */
module SelfCheck {
  import opened Bits
  import opened Digests
  import opened MerkleTree
  import opened IncrementalMerkle
  import opened BatchRoot

  /** `get_root` */
  function GetRoot(m: State): Digest
    requires m.nodeCount > 0 ==> m.activeNodes != []
  {
    if m.nodeCount > 0 then m.activeNodes[|m.activeNodes| - 1] else ZERO
  }

  /** The rest of the check once something has been hashed: `index` is the index of `top` in its layer. */
  function Climb(h: HashFn, index: nat, active: seq<Digest>, top: Digest): Digest
    requires index >= 1 && |active| >= Ones(index - 1)
    decreases index
  {
    if index == 1 then top
    else
      ClimbSize(index);
      if index % 2 == 1 then Climb(h, (index + 1) / 2, active, Combine(h, top, top))
      else Climb(h, (index + 1) / 2, active[1..], Combine(h, active[0], top))
  }

  lemma {:induction false} ClimbSize(index: nat)
    requires index >= 2
    ensures Ones(index - 1) == (if index % 2 == 1 then 0 else 1) + Ones((index + 1) / 2 - 1)
  {
    assert (index - 1) / 2 == (index + 1) / 2 - 1;
  }

  /** The whole check: up to the lowest set bit nothing is hashed, there the first active node is
      paired with itself.  A count with one bit set never gets there. */
  function Recomputed(h: HashFn, index: nat, active: seq<Digest>): Digest
    requires |active| >= Ones(index)
    decreases index
  {
    if index <= 1 then ZERO
    else if index % 2 == 1 then
      ClimbSize(index + 1);
      Climb(h, (index + 1) / 2, active[1..], Combine(h, active[0], active[0]))
    else Recomputed(h, index / 2, active)
  }

  predicate Passes(h: HashFn, m: State)
    requires |m.activeNodes| == 1 || WellSized(m)
  {
    OnesZero(m.nodeCount);
    |m.activeNodes| == 1 || Recomputed(h, m.nodeCount, m.activeNodes) == GetRoot(m)
  }

  /** Where the loop of `inc_merkle_verify` stands: the zero digest stands for "nothing hashed yet". */
  ghost predicate CheckState(h: HashFn, all: seq<Digest>, result: Digest, index: nat, next: nat, top: Digest) {
    && next <= |all|
    && (top == ZERO ==> |all[next..]| >= Ones(index) && Recomputed(h, index, all[next..]) == result)
    && (top != ZERO ==>
         index >= 1 && |all[next..]| >= Ones(index - 1) && Climb(h, index, all[next..], top) == result)
  }

  lemma {:induction false} CheckStart(h: HashFn, m: State)
    requires |m.activeNodes| != 1 && WellSized(m)
    ensures |m.activeNodes| >= Ones(m.nodeCount) && (m.nodeCount > 0 ==> m.activeNodes != [])
    ensures CheckState(h, m.activeNodes, Recomputed(h, m.nodeCount, m.activeNodes), m.nodeCount, 0, ZERO)
    ensures Passes(h, m) == (Recomputed(h, m.nodeCount, m.activeNodes) == GetRoot(m))
  {
    hide Recomputed;
    OnesZero(m.nodeCount);
    assert m.activeNodes[0..] == m.activeNodes;
  }

  lemma {:induction false} CheckEnd(h: HashFn, all: seq<Digest>, result: Digest, index: nat, next: nat, top: Digest)
    requires MaxDepth(index) <= 1 && CheckState(h, all, result, index, next, top)
    ensures result == top
  {
  }

  /** One turn of the loop where nothing has been hashed yet, or after. */
  lemma {:induction false} CheckFresh(h: HashFn, all: seq<Digest>, result: Digest, index: nat, next: nat)
    requires index >= 2 && NeverZero(h) && CheckState(h, all, result, index, next, ZERO)
    ensures var up := (index + 1) / 2;
      if index % 2 == 1 then
        next < |all| && CheckState(h, all, result, up, next + 1, Combine(h, all[next], all[next]))
      else
        CheckState(h, all, result, up, next, ZERO)
  {
    ClimbSize(index);
    ClimbSize(index + 1);
    hide Climb;
    if next < |all| {
      assert all[next..][1..] == all[next + 1..];
    }
  }

  lemma {:induction false} CheckBegun(h: HashFn, all: seq<Digest>, result: Digest, index: nat, next: nat, top: Digest)
    requires index >= 2 && NeverZero(h) && top != ZERO && CheckState(h, all, result, index, next, top)
    ensures var up := (index + 1) / 2;
      if index % 2 == 1 then
        CheckState(h, all, result, up, next, Combine(h, top, top))
      else
        next < |all| && CheckState(h, all, result, up, next + 1, Combine(h, all[next], top))
  {
    ClimbSize(index);
    hide Recomputed, Ones;
    if next < |all| {
      assert all[next..][1..] == all[next + 1..];
    }
  }

  /** `inc_merkle_verify`.  Its zero-digest marker is right as long as no hash is the zero digest. */
  method IncMerkleVerify(h: HashFn, m: State) returns (ok: bool)
    requires NeverZero(h)
    requires |m.activeNodes| == 1 || WellSized(m)
    ensures ok == Passes(h, m)
  {
    hide Climb, Recomputed;
    var maxDepth := MaxDepth(m.nodeCount);
    var currentDepth := maxDepth;
    var index := m.nodeCount;
    var activeIter := 0;
    var top := ZERO;
    if |m.activeNodes| == 1 {
      return true;
    }
    CheckStart(h, m);
    ghost var result := Recomputed(h, m.nodeCount, m.activeNodes);
    while currentDepth > 1
      invariant currentDepth == MaxDepth(index)
      invariant CheckState(h, m.activeNodes, result, index, activeIter, top)
    {
      if top == ZERO {
        CheckFresh(h, m.activeNodes, result, index, activeIter);
      } else {
        CheckBegun(h, m.activeNodes, result, index, activeIter, top);
      }
      if index % 2 == 1 {
        if top == ZERO {
          var leftValue := m.activeNodes[activeIter];
          activeIter := activeIter + 1;
          top := Combine(h, leftValue, leftValue);
        } else {
          top := Combine(h, top, top);
        }
      } else {
        if top != ZERO {
          var leftValue := m.activeNodes[activeIter];
          activeIter := activeIter + 1;
          top := Combine(h, leftValue, top);
        }
      }
      currentDepth := currentDepth - 1;
      index := (index + 1) / 2;
    }
    CheckEnd(h, m.activeNodes, result, index, activeIter, top);
    ok := top == GetRoot(m);
  }

  // ----- every reachable state passes

  lemma {:induction false} ClimbOdd(h: HashFn, half: nat, active: seq<Digest>, top: Digest)
    requires half >= 1 && |active| >= Ones(2 * half)
    ensures |active| >= Ones(half)
    ensures Climb(h, 2 * half + 1, active, top) == Climb(h, half + 1, active, Combine(h, top, top))
  {
    ClimbSize(2 * half + 1);
    assert (2 * half + 2) / 2 == half + 1;
  }

  lemma {:induction false} ClimbEven(h: HashFn, half: nat, active: seq<Digest>, top: Digest)
    requires half >= 1 && |active| >= Ones(2 * half - 1)
    ensures |active| >= 1 + Ones(half - 1)
    ensures Climb(h, 2 * half, active, top) == Climb(h, half, active[1..], Combine(h, active[0], top))
  {
    ClimbSize(2 * half);
    assert (2 * half + 1) / 2 == half;
  }

  lemma {:induction false} ClimbIsRoot(h: HashFn, led: Ledger, layer: nat, index: nat, active: seq<Digest>, top: Digest)
    requires layer >= 1 && index >= 1
    requires FullRoots(h, led, layer, index - 1) <= active
    ensures |active| >= Ones(index - 1)
    ensures Climb(h, index, active, top) == RootAbove(h, led, layer, index, top)
    decreases index, 1
  {
    FullRootsSize(h, led, layer, index - 1);
    if index > 1 {
      if index % 2 == 1 {
        ClimbOddIsRoot(h, led, layer, index / 2, active, top);
      } else {
        ClimbEvenIsRoot(h, led, layer, index / 2, active, top);
      }
    }
  }

  lemma {:induction false} ClimbOddIsRoot(h: HashFn, led: Ledger, layer: nat, half: nat, active: seq<Digest>,
                                          top: Digest)
    requires layer >= 1 && half >= 1 && |active| >= Ones(2 * half)
    requires FullRoots(h, led, layer, 2 * half) <= active
    ensures Climb(h, 2 * half + 1, active, top) == RootAbove(h, led, layer, 2 * half + 1, top)
    decreases 2 * half + 1, 0
  {
    hide FullRoots, RootAbove, Climb, Ones;
    ClimbOdd(h, half, active, top);
    FullRootsStep(h, led, layer, half);
    RootAboveStep(h, led, layer, half, top);
    ClimbIsRoot(h, led, layer + 1, half + 1, active, Combine(h, top, top));
  }

  lemma {:induction false} ClimbEvenIsRoot(h: HashFn, led: Ledger, layer: nat, half: nat, active: seq<Digest>,
                                           top: Digest)
    requires layer >= 1 && half >= 1 && |active| >= Ones(2 * half - 1)
    requires FullRoots(h, led, layer, 2 * half - 1) <= active
    ensures Climb(h, 2 * half, active, top) == RootAbove(h, led, layer, 2 * half, top)
    decreases 2 * half, 0
  {
    hide FullRoots, RootAbove, Climb, Ones, Node;
    ClimbEven(h, half, active, top);
    FullRootsStep(h, led, layer, half - 1);
    assert 2 * (half - 1) + 1 == 2 * half - 1;
    RootAboveStep(h, led, layer, half, top);
    TakeFirst(active, 0, Node(h, led, layer, 2 * half - 1), FullRoots(h, led, layer + 1, half - 1));
    ClimbIsRoot(h, led, layer + 1, half, active[1..], Combine(h, active[0], top));
  }

  lemma {:induction false} RecomputedIsRoot(h: HashFn, led: Ledger, layer: nat, index: nat, active: seq<Digest>)
    requires layer >= 1 && Live(led.start, layer, index)
    requires Ones(index) > 1 && FullRoots(h, led, layer, index) <= active
    ensures |active| >= Ones(index)
    ensures Recomputed(h, index, active) == RootAbove(h, led, layer, index, Node(h, led, layer, index))
    decreases index, 1
  {
    FullRootsSize(h, led, layer, index);
    LiveParent(led.start, layer, index);
    OnesDouble(index / 2);
    OnesZero(index / 2);
    if index % 2 == 1 {
      RecomputedOddIsRoot(h, led, layer, index / 2, active);
    } else {
      RecomputedEvenIsRoot(h, led, layer, index / 2, active);
    }
  }

  lemma {:induction false} RecomputedOddIsRoot(h: HashFn, led: Ledger, layer: nat, half: nat, active: seq<Digest>)
    requires layer >= 1 && half >= 1 && |active| >= Ones(2 * half + 1)
    requires FullRoots(h, led, layer, 2 * half + 1) <= active
    ensures Recomputed(h, 2 * half + 1, active)
         == RootAbove(h, led, layer, 2 * half + 1, Node(h, led, layer, 2 * half + 1))
    decreases 2 * half + 1, 0
  {
    hide FullRoots, RootAbove, Climb, Ones, Node;
    OnesDouble(half);
    FullRootsStep(h, led, layer, half);
    RootAboveStep(h, led, layer, half, Node(h, led, layer, 2 * half + 1));
    TakeFirst(active, 0, Node(h, led, layer, 2 * half + 1), FullRoots(h, led, layer + 1, half));
    ClimbIsRoot(h, led, layer + 1, half + 1, active[1..], Combine(h, active[0], active[0]));
    assert (2 * half + 2) / 2 == half + 1;
  }

  lemma {:induction false} RecomputedEvenIsRoot(h: HashFn, led: Ledger, layer: nat, half: nat, active: seq<Digest>)
    requires layer >= 1 && half >= 1 && Live(led.start, layer, 2 * half) && Live(led.start, layer + 1, half)
    requires Ones(half) > 1 && |active| >= Ones(2 * half)
    requires FullRoots(h, led, layer, 2 * half) <= active
    ensures Recomputed(h, 2 * half, active) == RootAbove(h, led, layer, 2 * half, Node(h, led, layer, 2 * half))
    decreases 2 * half, 0
  {
    hide *;
    OnesDouble(half);
    RecomputedEven(h, half, active);
    FullRootsStep(h, led, layer, half);
    RootAboveStep(h, led, layer, half, Node(h, led, layer, 2 * half));
    assert 2 * half - 1 + 1 == 2 * half;
    NodeSplit(h, led, layer, 2 * half - 1);
    RecomputedIsRoot(h, led, layer + 1, half, active);
  }

  lemma {:induction false} RecomputedEven(h: HashFn, half: nat, active: seq<Digest>)
    requires half >= 1 && |active| >= Ones(2 * half) && |active| >= Ones(half)
    ensures Recomputed(h, 2 * half, active) == Recomputed(h, half, active)
  {
    hide Climb;
  }

  /** The self-check accepts every state that stands for a ledger. */
  lemma {:induction false} RepresentedStatePasses(h: HashFn, led: Ledger, m: State)
    requires Represents(h, led, m)
    ensures WellSized(m) && Passes(h, m)
  {
    RepresentsWellSized(h, led, m);
    ActiveNodesSize(h, led, m.nodeCount);
    OnesZero(m.nodeCount);
    if Ones(m.nodeCount) > 1 {
      if led.start.Snapshot? {
        OnesPow2(led.start.exp);
      }
      LiveParent(led.start, 1, m.nodeCount);
      RecomputedIsRoot(h, led, 1, m.nodeCount, m.activeNodes);
      LastActiveIsRoot(h, led, m.nodeCount);
    }
  }

  /** With the true sub-branch roots the check is about the root: only the true one passes. */
  lemma {:induction false} PassesIffTrueRoot(h: HashFn, led: Ledger, m: State)
    requires m.nodeCount >= 1 && m.nodeCount >= BaseCount(led.start) && |m.activeNodes| == ActiveSize(m.nodeCount)
    requires FullRoots(h, led, 1, m.nodeCount) <= m.activeNodes
    ensures WellSized(m) && m.activeNodes != []
    ensures |m.activeNodes| > 1 ==>
      (Passes(h, m) <==> m.activeNodes[|m.activeNodes| - 1] == Root(h, led, m.nodeCount))
  {
    hide Recomputed, RootAbove, FullRoots;
    OnesZero(m.nodeCount);
    if Ones(m.nodeCount) > 1 {
      if led.start.Snapshot? {
        OnesPow2(led.start.exp);
      }
      LiveParent(led.start, 1, m.nodeCount);
      RecomputedIsRoot(h, led, 1, m.nodeCount, m.activeNodes);
    }
  }

  /** In particular every tree grown from nothing, as `generate_inc_merkle` grows them. */
  lemma {:induction false} GeneratedTreePasses(h: HashFn, digests: seq<Digest>)
    ensures Passes(h, AppendAll(h, digests))
  {
    hide *;
    AppendAllRepresents(h, digests, |digests|);
    assert digests[..|digests|] == digests;
    RepresentedStatePasses(h, Ledger(Genesis, digests), AppendAll(h, digests));
  }

  // ----- what the check binds

  predicate SamePrefix(a: seq<Digest>, b: seq<Digest>, n: nat)
    requires n <= |a| && n <= |b|
  {
    forall i :: 0 <= i < n ==> Same(a[i], b[i])
  }

  lemma {:induction false} CombineBinds(h: HashFn, a: Digest, b: Digest, c: Digest, d: Digest)
    requires CollisionFree(h)
    ensures Same(Combine(h, a, b), Combine(h, c, d)) <==> Same(a, c) && Same(b, d)
    ensures Same(a, c) && Same(b, d) ==> Combine(h, a, b) == Combine(h, c, d)
  {
    if Same(Combine(h, a, b), Combine(h, c, d)) {
      CombineInjective(h, a, b, c, d);
    }
    if Same(a, c) && Same(b, d) {
      assert MakeCanonicalLeft(a) == MakeCanonicalLeft(c);
      assert MakeCanonicalRight(b) == MakeCanonicalRight(d);
    }
  }

  lemma {:induction false} PrefixCons(a: seq<Digest>, b: seq<Digest>, n: nat)
    requires 1 <= n <= |a| && n <= |b|
    ensures SamePrefix(a, b, n) <==> Same(a[0], b[0]) && SamePrefix(a[1..], b[1..], n - 1)
  {
    if Same(a[0], b[0]) && SamePrefix(a[1..], b[1..], n - 1) {
      forall i | 0 <= i < n
        ensures Same(a[i], b[i])
      {
        if i > 0 {
          assert Same(a[1..][i - 1], b[1..][i - 1]);
        }
      }
    }
  }

  /** Two climbs over the same count end in the same digest exactly when they started from the same
      nodes, up to side bits. */
  lemma {:induction false} ClimbBinds(h: HashFn, index: nat, a: seq<Digest>, b: seq<Digest>, s: Digest, t: Digest)
    requires CollisionFree(h) && index >= 1
    requires |a| >= Ones(index - 1) && |b| >= Ones(index - 1)
    ensures Same(Climb(h, index, a, s), Climb(h, index, b, t)) <==> Same(s, t) && SamePrefix(a, b, Ones(index - 1))
    ensures s == t && SamePrefix(a, b, Ones(index - 1)) ==> Climb(h, index, a, s) == Climb(h, index, b, t)
    decreases index
  {
    if index > 1 {
      ClimbSize(index);
      var up := (index + 1) / 2;
      if index % 2 == 1 {
        ClimbBinds(h, up, a, b, Combine(h, s, s), Combine(h, t, t));
        CombineBinds(h, s, s, t, t);
      } else {
        ClimbBinds(h, up, a[1..], b[1..], Combine(h, a[0], s), Combine(h, b[0], t));
        CombineBinds(h, a[0], s, b[0], t);
        PrefixCons(a, b, Ones(index - 1));
      }
    }
  }

  lemma {:induction false} RecomputedBinds(h: HashFn, index: nat, a: seq<Digest>, b: seq<Digest>)
    requires CollisionFree(h) && Ones(index) > 1
    requires |a| >= Ones(index) && |b| >= Ones(index)
    ensures Recomputed(h, index, a) == Recomputed(h, index, b) <==> SamePrefix(a, b, Ones(index))
    decreases index
  {
    if index % 2 == 1 {
      ClimbSize(index + 1);
      CombineBinds(h, a[0], a[0], b[0], b[0]);
      PrefixCons(a, b, Ones(index));
      ClimbBinds(h, (index + 1) / 2, a[1..], b[1..], Combine(h, a[0], a[0]), Combine(h, b[0], b[0]));
    } else {
      RecomputedBinds(h, index / 2, a, b);
    }
  }

  /** A state of the right size that shows the true root passes exactly when its other active nodes are
      the true ones, up to side bits. */
  lemma {:induction false} PassesIffTrueNodes(h: HashFn, led: Ledger, m: State)
    requires CollisionFree(h)
    requires m.nodeCount >= 1 && m.nodeCount >= BaseCount(led.start)
    requires |m.activeNodes| == ActiveSize(m.nodeCount)
    requires GetRoot(m) == Root(h, led, m.nodeCount)
    ensures WellSized(m) && |ActiveNodes(h, led, m.nodeCount)| == |m.activeNodes|
    ensures Passes(h, m) <==>
      SamePrefix(m.activeNodes, ActiveNodes(h, led, m.nodeCount), |m.activeNodes|)
  {
    hide Recomputed, RootAbove, FullRoots, Root, ActiveNodes;
    var truth := State(m.nodeCount, ActiveNodes(h, led, m.nodeCount));
    RepresentedStatePasses(h, led, truth);
    ActiveNodesSize(h, led, m.nodeCount);
    LastActiveIsRoot(h, led, m.nodeCount);
    OnesZero(m.nodeCount);
    if Ones(m.nodeCount) > 1 {
      RecomputedBinds(h, m.nodeCount, m.activeNodes, truth.activeNodes);
    }
  }

  /** Two states over the same count with the same root that both pass hold the same active nodes. */
  lemma {:induction false} PassingStatesAgree(h: HashFn, m: State, other: State)
    requires CollisionFree(h)
    requires m.nodeCount == other.nodeCount >= 1
    requires |m.activeNodes| == |other.activeNodes| == ActiveSize(m.nodeCount)
    requires WellSized(m) && WellSized(other) && GetRoot(m) == GetRoot(other)
    requires Passes(h, m) && Passes(h, other)
    ensures SamePrefix(m.activeNodes, other.activeNodes, |m.activeNodes|)
  {
    hide Recomputed;
    OnesZero(m.nodeCount);
    if Ones(m.nodeCount) > 1 {
      RecomputedBinds(h, m.nodeCount, m.activeNodes, other.activeNodes);
    }
  }
}
