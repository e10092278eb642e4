/** The two topologies, as lists of peers, and what following the peers gives. */
module Wiring {
  import opened Hosts
  import opened Traversal

  /** No two instances other than bios share a name. */
  predicate NamesDiffer(names: seq<string>) {
    forall i, j :: 0 <= i < j < |names| && names[i] != BIOS && names[j] != BIOS ==> names[i] != names[j]
  }

  /** How many of the hosts in the plan have bios. */
  function BiosHosts(servers: Servers, index: nat, left: nat): nat
    decreases left
  {
    if left == 0 then 0 else
      var s := ServerFor(servers, index);
      (if s.hasBios then 1 else 0) + BiosHosts(servers, index + 1, left - Taken(s.instances, left))
  }

  /** The plan places all instances, and the names other than bios are one run of numbered names. */
  lemma {:induction false} PlanCounts(servers: Servers, network: string, index: nat, left: nat, next: nat)
    ensures |NamesOf(Plan(servers, network, index, left, next))| == left
    ensures BiosHosts(servers, index, left) <= left
    ensures NonBios(NamesOf(Plan(servers, network, index, left, next)))
         == Numbered(network, next, left - BiosHosts(servers, index, left))
    decreases left
  {
    hide *;
    if left == 0 {
      EmptyPlan(servers, network, index, next);
      NoBiosHosts(servers, index);
    } else {
      var s := ServerFor(servers, index);
      var k, up := Taken(s.instances, left), NextFrom(s, left, next);
      PlanStep(servers, network, index, left, next);
      NextFromUp(s, left, next);
      BiosHostsStep(servers, index, left, next);
      PlanCounts(servers, network, index + 1, left - k, up);
      NumberedSplit(network, next, up - next, left - k - BiosHosts(servers, index + 1, left - k));
      NonBiosInstances(network, next, s.hasBios, k);
      var host, tail := HostOf(s, network, left, next), Plan(servers, network, index + 1, left - k, up);
      NamesOfCons(host, tail);
      NonBiosConcat(NamesIn(host.instances), NamesOf(tail));
    }
  }

  lemma {:induction false} NoBiosHosts(servers: Servers, index: nat)
    ensures BiosHosts(servers, index, 0) == 0 && NamesOf([]) == []
  {
  }

  lemma {:induction false} BiosHostsStep(servers: Servers, index: nat, left: nat, next: nat)
    requires left >= 1
    ensures var s := ServerFor(servers, index);
      && 1 <= Taken(s.instances, left) <= left
      && BiosHosts(servers, index, left)
      == Taken(s.instances, left) - (NextFrom(s, left, next) - next)
       + BiosHosts(servers, index + 1, left - Taken(s.instances, left))
  {
  }

  // ----- the peers of each node, in the order of the walk

  /** The peers of the node visited as number `q` in a ring: the next one.  With three names, where the
      source expects two nodes besides bios, the first two visited are each other's peers instead. */
  function RingPeers(names: seq<string>, q: nat): seq<string>
    requires Walkable(names) && q < |Visits(names)|
  {
    var v, n := Visits(names), |names|;
    VisitNext(names, q);
    VisitNext(names, 0);
    if n > 3 then NextIsWalked(names, q); [names[NextOf(names, v[q]).0]]
    else if n == 3 then
      NextIsWalked(names, 0);
      var second := NextOf(names, v[0]).0;
      (if q == 0 then [names[second]] else []) + (if v[q] == second then [names[v[0]]] else [])
    else []
  }

  lemma {:induction false} NextIsWalked(names: seq<string>, q: nat)
    requires Walkable(names) && q < |Visits(names)|
    ensures Visits(names)[q] < |names| && NextOf(names, Visits(names)[q]).0 < |names|
  {
    VisitNext(names, q);
    if q + 1 < |Visits(names)| {
      VisitNext(names, q + 1);
    }
  }

  /** In a mesh each visited node has one peer for every offset from 1 to `count`. */
  function MeshPeers(names: seq<string>, i: nat, count: nat): (peers: seq<string>)
    requires Walkable(names)
    ensures |peers| == count
    ensures forall j :: 0 <= j < count ==> peers[j] == names[SkipFrom(names, i, j + 1)]
  {
    seq(count, j requires 0 <= j < count => names[SkipFrom(names, i, j + 1)])
  }

  function RingPlan(names: seq<string>): (plan: seq<seq<string>>)
    requires Walkable(names)
    ensures |plan| == |Visits(names)| && forall q :: 0 <= q < |plan| ==> plan[q] == RingPeers(names, q)
  {
    seq(|Visits(names)|, q requires 0 <= q < |Visits(names)| => RingPeers(names, q))
  }

  function MeshPlan(names: seq<string>): (plan: seq<seq<string>>)
    requires Walkable(names)
    ensures |plan| == |Visits(names)|
    ensures forall q :: 0 <= q < |plan| ==> plan[q] == MeshPeers(names, Visits(names)[q], SkipBudget(|names|))
  {
    seq(|Visits(names)|, q requires 0 <= q < |Visits(names)| =>
      MeshPeers(names, Visits(names)[q], SkipBudget(|names|)))
  }

  /** The name of the node visited as number `q`. */
  function VisitName(names: seq<string>, q: nat): string
    requires Walkable(names) && q < |Visits(names)|
  {
    VisitNext(names, q);
    names[Visits(names)[q]]
  }

  lemma {:induction false} VisitNamesDiffer(names: seq<string>, q: nat, r: nat)
    requires Walkable(names) && NamesDiffer(names) && q < |Visits(names)| && r < |Visits(names)| && q != r
    ensures VisitName(names, q) != VisitName(names, r)
  {
    hide Visits;
    VisitsIncrease(names, if q < r then q else r, if q < r then r else q);
  }

  /** There is a bios, and the walk passes it over. */
  predicate BiosUnvisited(names: seq<string>) { BIOS in names && StartsPlain(names) }

  /** From `was` to `nodes` entries were set under the given names only, and none was lost. */
  ghost predicate SetsOnly(was: map<string, TnNode>, nodes: map<string, TnNode>, names: seq<string>) {
    && was.Keys <= nodes.Keys
    && forall name :: name in nodes && name !in names ==> name in was && nodes[name] == was[name]
  }

  lemma {:induction false} SetOne(was: map<string, TnNode>, nodes: map<string, TnNode>, names: seq<string>,
                                  name: string, node: TnNode)
    requires SetsOnly(was, nodes, names) && name in names
    ensures SetsOnly(was, nodes[name := node], names)
  {
  }

  /** Then, with an entry for every name, these are the new keys. */
  lemma {:induction false} KeysAfter(was: map<string, TnNode>, nodes: map<string, TnNode>, names: seq<string>)
    requires SetsOnly(was, nodes, names) && forall i :: 0 <= i < |names| ==> names[i] in nodes
    ensures nodes.Keys == was.Keys + set name | name in names
  {
    forall name | name in names
      ensures name in nodes
    {
      var i :| 0 <= i < |names| && names[i] == name;
    }
  }

  /** The first `r` visited nodes have their peers, the others still have none, and nothing else changed. */
  ghost predicate WiredUpTo(nodes: map<string, TnNode>, bound: map<string, TnNode>, names: seq<string>,
                            plan: seq<seq<string>>, r: nat)
    requires Walkable(names)
  {
    && |plan| == |Visits(names)|
    && (forall q :: 0 <= q < |plan| ==>
         var name := VisitName(names, q);
         && name in nodes && name in bound
         && nodes[name] == bound[name].(peers := if q < r then plan[q] else []))
    && (BiosUnvisited(names) ==> BIOS in nodes && BIOS in bound && nodes[BIOS] == bound[BIOS])
  }

  lemma {:induction false} WireNext(nodes: map<string, TnNode>, bound: map<string, TnNode>, names: seq<string>,
                                    plan: seq<seq<string>>, r: nat)
    requires Walkable(names) && NamesDiffer(names) && r < |plan| && WiredUpTo(nodes, bound, names, plan, r)
    ensures var name := VisitName(names, r);
      && name in nodes && nodes[name].peers == []
      && WiredUpTo(nodes[name := nodes[name].(peers := plan[r])], bound, names, plan, r + 1)
  {
    hide VisitName, Visits;
    var name := VisitName(names, r);
    VisitNotPassedOver(names, r);
    forall q | 0 <= q < |plan| && q != r
      ensures VisitName(names, q) != name
    {
      VisitNamesDiffer(names, q, r);
    }
  }

  lemma {:induction false} VisitNotPassedOver(names: seq<string>, q: nat)
    requires Walkable(names) && q < |Visits(names)|
    ensures BiosUnvisited(names) ==> VisitName(names, q) != BIOS
  {
    hide Visits;
    VisitNext(names, q);
    VisitedIff(names, Visits(names)[q]);
  }

  /** The network is wired by `plan`: each visited node has its planned peers, and a bios that is not
      visited has none. */
  ghost predicate HasPeers(nodes: map<string, TnNode>, names: seq<string>, plan: seq<seq<string>>)
    requires Walkable(names)
  {
    && |plan| == |Visits(names)|
    && (forall q :: 0 <= q < |plan| ==>
         VisitName(names, q) in nodes && nodes[VisitName(names, q)].peers == plan[q])
    && (BiosUnvisited(names) ==> BIOS in nodes && nodes[BIOS].peers == [])
  }

  // ----- a ring is one cycle

  /** Where one gets by following the first peer `m` times. */
  function Follow(nodes: map<string, TnNode>, name: string, m: nat): string {
    if m == 0 then name else
      var at := Follow(nodes, name, m - 1);
      if at in nodes && nodes[at].peers != [] then nodes[at].peers[0] else at
  }

  /** `x` around a circle of `n`, for `x` below two rounds. */
  function Wrap(n: nat, x: nat): nat
    requires x < 2 * n
  {
    if x < n then x else x - n
  }

  /** Every visited node has the next one, and the last one the first, as its only peer. */
  ghost predicate OneCycle(nodes: map<string, TnNode>, names: seq<string>)
    requires Walkable(names)
  {
    forall q :: 0 <= q < |Visits(names)| ==>
      && VisitName(names, q) in nodes
      && nodes[VisitName(names, q)].peers == [VisitName(names, Wrap(|Visits(names)|, q + 1))]
  }

  /** Three names, of which the walk visits two: one is bios, or the first two are. */
  predicate TwoOfThree(names: seq<string>) {
    |names| == 3 &&
    var b0, b1, b2 := names[0] == BIOS, names[1] == BIOS, names[2] == BIOS;
    if b0 then !b2 else b1 != b2
  }

  lemma {:induction false} TwoOfThreeIff(names: seq<string>)
    requires Walkable(names) && |names| == 3
    ensures |Visits(names)| == 2 <==> TwoOfThree(names)
  {
    assert Plains(names, 3) == [];
    assert Plains(names, 2) == if names[2] == BIOS then [] else [2];
    assert names[1] != BIOS ==> Plains(names, 1) == [1] + Plains(names, 2);
    assert names[1] == BIOS ==> PlainFrom(names, 1) == PlainFrom(names, 2);
  }

  /** The ring is one cycle among more than three nodes, bios included, wherever and however often bios is
      among them; among three exactly when one of them is bios or the first two are.  Otherwise nodes stay
      unconnected, or a single one is its own peer. */
  lemma {:induction false} RingIsOneCycleIff(nodes: map<string, TnNode>, names: seq<string>)
    requires Walkable(names) && HasPeers(nodes, names, RingPlan(names))
    ensures OneCycle(nodes, names) <==> |names| > 3 || TwoOfThree(names)
  {
    hide Visits, VisitName, HasPeers, RingPlan, Walkable;
    var v := Visits(names);
    VisitsBounded(names);
    if |names| > 3 {
      forall q | 0 <= q < |v|
        ensures VisitName(names, q) in nodes
        ensures nodes[VisitName(names, q)].peers == [VisitName(names, Wrap(|v|, q + 1))]
      {
        RingOfMany(nodes, names, q);
      }
    } else {
      RingOfFew(nodes, names, 0);
      if |names| == 3 {
        TwoOfThreeIff(names);
        if |v| == 2 {
          RingOfFew(nodes, names, 1);
        } else if |v| == 3 {
          RingOfFew(nodes, names, 2);
        }
      }
      if OneCycle(nodes, names) {
        assert nodes[VisitName(names, 0)].peers == [VisitName(names, Wrap(|v|, 0 + 1))];
      }
    }
  }

  lemma {:induction false} RingOfMany(nodes: map<string, TnNode>, names: seq<string>, q: nat)
    requires Walkable(names) && |names| > 3 && HasPeers(nodes, names, RingPlan(names)) && q < |Visits(names)|
    ensures VisitName(names, q) in nodes
    ensures nodes[VisitName(names, q)].peers == [VisitName(names, Wrap(|Visits(names)|, q + 1))]
  {
    hide Visits, NextOf, Start;
    VisitNext(names, q);
    assert nodes[VisitName(names, q)].peers == RingPlan(names)[q];
  }

  lemma {:induction false} ThreeNodeRing(names: seq<string>)
    requires Walkable(names) && |names| == 3
    ensures 1 <= |Visits(names)| <= 3
    ensures |Visits(names)| == 1 ==> RingPeers(names, 0) == [VisitName(names, 0), VisitName(names, 0)]
    ensures |Visits(names)| >= 2 ==>
      RingPeers(names, 0) == [VisitName(names, 1)] && RingPeers(names, 1) == [VisitName(names, 0)]
    ensures |Visits(names)| == 3 ==> RingPeers(names, 2) == []
  {
    VisitsBounded(names);
    VisitNext(names, 0);
    if |Visits(names)| >= 2 {
      VisitsIncrease(names, 0, 1);
    }
    if |Visits(names)| == 3 {
      VisitsIncrease(names, 0, 2);
      VisitsIncrease(names, 1, 2);
    }
    hide Visits, NextOf, Start;
  }

  /** What it is instead among at most three names: no links; the first two visited as a pair and a third one
      alone; or a single one linked to itself twice. */
  lemma {:induction false} RingOfFew(nodes: map<string, TnNode>, names: seq<string>, q: nat)
    requires Walkable(names) && |names| <= 3 && HasPeers(nodes, names, RingPlan(names)) && q < |Visits(names)|
    ensures VisitName(names, q) in nodes
    ensures var peers, n := nodes[VisitName(names, q)].peers, |Visits(names)|;
      peers ==
        if |names| < 3 || q == 2 then []
        else if n == 1 then [VisitName(names, 0), VisitName(names, 0)]
        else if q == 0 then [VisitName(names, 1)]
        else [VisitName(names, 0)]
  {
    VisitsBounded(names);
    if |names| == 3 {
      ThreeNodeRing(names);
    }
    hide Visits, NextOf, Start;
    assert nodes[VisitName(names, q)].peers == RingPlan(names)[q];
  }

  lemma {:induction false} FollowCycle(nodes: map<string, TnNode>, names: seq<string>, r: nat, m: nat)
    requires Walkable(names) && OneCycle(nodes, names) && r < |Visits(names)| && m <= |Visits(names)|
    ensures Follow(nodes, VisitName(names, r), m) == VisitName(names, Wrap(|Visits(names)|, r + m))
  {
    hide Visits, VisitName;
    if m > 0 {
      FollowCycle(nodes, names, r, m - 1);
      var n, at := |Visits(names)|, Follow(nodes, VisitName(names, r), m - 1);
      assert nodes[at].peers == [VisitName(names, Wrap(n, r + m))];
    }
  }

  /** How many visits ahead, of `n` in a circle, number `s` is of number `r`. */
  function RingDistance(n: nat, r: nat, s: nat): nat
    requires r < n
  {
    if s >= r then s - r else s + n - r
  }

  /** In such a ring the peers lead from any visited node to every other, to each after its own number of
      steps below the number of nodes, and then back. */
  lemma {:induction false} RingIsOneCycle(nodes: map<string, TnNode>, names: seq<string>, x: nat, y: nat, m: nat)
    requires Walkable(names) && NamesDiffer(names) && OneCycle(nodes, names)
    requires x < |Visits(names)| && y < |Visits(names)| && m < |Visits(names)|
    ensures Follow(nodes, VisitName(names, x), m) == VisitName(names, y) <==> m == RingDistance(|Visits(names)|, x, y)
    ensures RingDistance(|Visits(names)|, x, y) < |Visits(names)|
    ensures Follow(nodes, VisitName(names, x), |Visits(names)|) == VisitName(names, x)
  {
    hide Follow, Visits, VisitName, OneCycle, Walkable, NamesDiffer;
    var n := |Visits(names)|;
    FollowCycle(nodes, names, x, m);
    FollowCycle(nodes, names, x, n);
    var t := Wrap(n, x + m);
    if t != y {
      VisitNamesDiffer(names, t, y);
    }
  }

  // ----- a mesh is complete

  lemma {:induction false} MeshPeersOf(nodes: map<string, TnNode>, names: seq<string>, x: nat)
    requires Walkable(names) && HasPeers(nodes, names, MeshPlan(names))
    requires x < |names| && (names[x] != BIOS || x == Start(names))
    ensures names[x] in nodes && nodes[names[x]].peers == MeshPeers(names, x, SkipBudget(|names|))
  {
    hide Visits;
    VisitedIff(names, x);
    var q :| 0 <= q < |Visits(names)| && Visits(names)[q] == x;
    assert VisitName(names, q) == names[x];
  }

  lemma {:induction false} MeshPeerIff(names: seq<string>, x: nat, name: string)
    requires Walkable(names) && x < |names|
    ensures name in MeshPeers(names, x, SkipBudget(|names|))
       <==> exists j :: 1 <= j <= |names| - 2 && names[SkipFrom(names, x, j)] == name
  {
    hide SkipFrom, Walkable;
    var peers := MeshPeers(names, x, SkipBudget(|names|));
    if name in peers {
      var j :| 0 <= j < |peers| && peers[j] == name;
      assert 1 <= j + 1 <= |names| - 2 && names[SkipFrom(names, x, j + 1)] == name;
    }
    if j :| 1 <= j <= |names| - 2 && names[SkipFrom(names, x, j)] == name {
      assert peers[j - 1] == names[SkipFrom(names, x, j - 1 + 1)];
    }
  }

  lemma {:induction false} PlaceIsUnique(names: seq<string>, i: nat, j: nat)
    requires NamesDiffer(names) && i < |names| && j < |names|
    ensures names[i] == names[j] != BIOS ==> i == j
  {
  }

  /** The peers of a visited node in a mesh, by name. */
  lemma {:induction false} MeshPeersIff(nodes: map<string, TnNode>, names: seq<string>, x: nat, y: nat)
    requires Walkable(names) && NamesDiffer(names) && |names| >= 3 && HasPeers(nodes, names, MeshPlan(names))
    requires x < |names| && y < |names| && (names[x] != BIOS || x == Start(names))
    ensures names[x] in nodes
    ensures names[y] in nodes[names[x]].peers
       <==> exists k :: 0 <= k < |names| && names[k] == names[y] && MeshLinked(names, x, k)
    ensures names[y] != BIOS ==> (names[y] in nodes[names[x]].peers <==> MeshLinked(names, x, y))
  {
    hide NextOf, SkipFrom, Visits, MeshPlan, HasPeers, MeshLinked, Start;
    MeshPeersOf(nodes, names, x);
    MeshPeerIff(names, x, names[y]);
    if j :| 1 <= j <= |names| - 2 && names[SkipFrom(names, x, j)] == names[y] {
      MeshOffsetLinks(names, x, j);
    }
    forall k | 0 <= k < |names| && names[k] == names[y] && MeshLinked(names, x, k)
      ensures names[y] in nodes[names[x]].peers && (names[y] != BIOS ==> k == y)
    {
      MeshLinksIff(names, x, k);
      PlaceIsUnique(names, k, y);
    }
  }

  /** The peers in their order: one for each offset, the node there or, where that is bios, the next one, or
      the one after if that is the node itself. */
  lemma {:induction false} MeshPeersInOrder(nodes: map<string, TnNode>, names: seq<string>, x: nat, j: nat)
    requires Walkable(names) && HasPeers(nodes, names, MeshPlan(names))
    requires x < |names| && (names[x] != BIOS || x == Start(names))
    ensures names[x] in nodes && |nodes[names[x]].peers| == if |names| >= 3 then |names| - 2 else 0
    ensures 1 <= j <= |names| - 2 ==>
      var t, peer := (x + j) % |names|, nodes[names[x]].peers[j - 1];
      && (names[t] != BIOS ==> peer == names[t])
      && (names[t] == BIOS && StartsPlain(names) ==>
           var u, w := NextOf(names, t).0, NextOf(names, x).0;
           u < |names| && w < |names| && peer == names[if u != x || |names| == 3 then u else w])
  {
    hide Visits, NextOf, SkipFrom, Start;
    MeshPeersOf(nodes, names, x);
    if 1 <= j <= |names| - 2 {
      var t := Around(|names|, x, j);
      OffsetIsUnique(|names|, x, j);
      OffsetReaches(|names|, x, t);
      SkipFromStays(names, x, j);
      if StartsPlain(names) {
        MeshStep(names, x, j);
        NextIsPlain(names, t);
        NextIsPlain(names, x);
      }
    }
  }

  /** Any two different nodes other than bios are peers one way or the other, exactly when there are more
      than two names; then none of them is its own peer or has bios as one. */
  lemma {:induction false} MeshIsComplete(nodes: map<string, TnNode>, names: seq<string>, x: nat, y: nat)
    requires Walkable(names) && NamesDiffer(names) && HasPeers(nodes, names, MeshPlan(names))
    requires x < |names| && y < |names| && x != y && names[x] != BIOS && names[y] != BIOS
    ensures names[x] in nodes && names[y] in nodes
    ensures names[y] in nodes[names[x]].peers || names[x] in nodes[names[y]].peers <==> |names| >= 3
    ensures names[x] !in nodes[names[x]].peers && BIOS !in nodes[names[x]].peers
  {
    hide SkipFrom, MeshPeers, MeshPlan, HasPeers, Visits, Alone, MeshLinked;
    var n := |names|;
    MeshPeersOf(nodes, names, x);
    MeshPeersOf(nodes, names, y);
    MeshPeerIff(names, x, names[y]);
    MeshPeerIff(names, y, names[x]);
    OwnOffset(names, x, y);
    OwnOffset(names, y, x);
    MeshPeerIff(names, x, names[x]);
    MeshPeerIff(names, x, BIOS);
    forall j | 1 <= j <= n - 2
      ensures names[SkipFrom(names, x, j)] != names[x] && names[SkipFrom(names, x, j)] != BIOS
    {
      OtherNode(names, x, y, j);
      PlaceIsUnique(names, SkipFrom(names, x, j), x);
    }
  }

  lemma {:induction false} OtherNode(names: seq<string>, x: nat, y: nat, j: nat)
    requires Walkable(names) && x < |names| && y < |names| && x != y && names[x] != BIOS && names[y] != BIOS
    requires 1 <= j <= |names| - 2
    ensures names[SkipFrom(names, x, j)] != BIOS && SkipFrom(names, x, j) != x
  {
    hide SkipFrom;
    MeshOffsetLinks(names, x, j);
  }

  // ----- bios stays out

  /** Bios has a peer, or a visited node has it as one. */
  ghost predicate BiosIsLinked(nodes: map<string, TnNode>, names: seq<string>)
    requires Walkable(names)
  {
    || (BIOS in names && BIOS in nodes && nodes[BIOS].peers != [])
    || exists q :: 0 <= q < |Visits(names)| && VisitName(names, q) in nodes
                   && BIOS in nodes[VisitName(names, q)].peers
  }

  /** Either topology keeps bios out exactly when not both of the first two names are bios. */
  lemma {:induction false} BiosIsLinkedIff(nodes: map<string, TnNode>, names: seq<string>)
    requires |names| >= 3 && Walkable(names) && NamesDiffer(names)
    requires HasPeers(nodes, names, RingPlan(names)) || HasPeers(nodes, names, MeshPlan(names))
    ensures BiosIsLinked(nodes, names) <==> names[0] == BIOS && names[1] == BIOS
  {
    hide RingPlan, MeshPlan, Visits;
    var v := Visits(names);
    VisitsPlainsIff(names);
    var plan :| (plan == RingPlan(names) || plan == MeshPlan(names)) && HasPeers(nodes, names, plan);
    FirstHasPeers(names, plan);
    if StartsPlain(names) {
      forall q | 0 <= q < |v|
        ensures BIOS !in nodes[VisitName(names, q)].peers
      {
        PlannedPeersArePlain(names, plan, q);
      }
      if BIOS in names {
        assert BiosUnvisited(names);
      }
    } else {
      assert VisitName(names, 0) == BIOS;
    }
  }

  lemma {:induction false} FirstHasPeers(names: seq<string>, plan: seq<seq<string>>)
    requires Walkable(names) && |names| >= 3 && (plan == RingPlan(names) || plan == MeshPlan(names))
    ensures |plan| == |Visits(names)| && plan[0] != []
    ensures Visits(names)[0] == Start(names)
  {
  }

  lemma {:induction false} PlannedPeersArePlain(names: seq<string>, plan: seq<seq<string>>, q: nat)
    requires StartsPlain(names) && |names| >= 3 && (plan == RingPlan(names) || plan == MeshPlan(names))
    requires q < |Visits(names)| == |plan|
    ensures BIOS !in plan[q]
  {
    var x := Visits(names)[q];
    VisitNext(names, q);
    VisitNext(names, 0);
    VisitedIff(names, x);
    NextIsPlain(names, x);
    NextIsPlain(names, Visits(names)[0]);
    hide SkipFrom, NextOf, Visits;
    if plan == MeshPlan(names) {
      MeshPeerIff(names, x, BIOS);
      forall j | 1 <= j <= |names| - 2
        ensures names[SkipFrom(names, x, j)] != BIOS
      {
        MeshOffsetLinks(names, x, j);
      }
    }
  }
}
