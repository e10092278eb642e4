/** Where the launcher's loops stand, and what one turn of each does to that. */
module LauncherSteps {
  import opened Bits
  import opened Wrappers
  import opened Hosts
  import opened ProducerNames
  import opened Allocation
  import opened Traversal
  import opened Wiring

  /** Over a server file no two instances other than bios share a name. */
  lemma {:induction false} PlanNamesDiffer(servers: Servers, network: string, total: nat, next: nat)
    ensures NamesDiffer(NamesOf(Plan(servers, network, 0, total, next)))
  {
    hide Plan, NamesOf, NonBios, Numbered;
    var names := NamesOf(Plan(servers, network, 0, total, next));
    PlanCounts(servers, network, 0, total, next);
    var count := total - BiosHosts(servers, 0, total);
    forall i, j | 0 <= i < j < |names| && names[i] != BIOS && names[j] != BIOS
      ensures names[i] != names[j]
    {
      NumberedNamesDiffer(names, network, next, count, i, j);
    }
  }

  /** The first instance of a plan is bios by its first server. */
  lemma {:induction false} PlanFront(servers: Servers, network: string, index: nat, left: nat, next: nat)
    requires left >= 1
    ensures var s := ServerFor(servers, index); var names := NamesOf(Plan(servers, network, index, left, next));
      && 1 <= Taken(s.instances, left) <= left == |names|
      && (names[0] == BIOS <==> s.hasBios)
      && (Taken(s.instances, left) >= 2 ==> names[1] != BIOS)
      && (Taken(s.instances, left) == 1 ==>
           names[1..] == NamesOf(Plan(servers, network, index + 1, left - 1, NextFrom(s, left, next))))
  {
    hide Plan, NamesOf, NamesIn, InstanceNames, NextFrom, ServerFor, Taken;
    var s := ServerFor(servers, index);
    PlanCounts(servers, network, index, left, next);
    PlanStep(servers, network, index, left, next);
    var k := Taken(s.instances, left);
    NamesOfCons(HostOf(s, network, left, next), Plan(servers, network, index + 1, left - k, NextFrom(s, left, next)));
    BiosIsFirst(network, next, s.hasBios, k, 0);
    if k >= 2 {
      BiosIsFirst(network, next, s.hasBios, k, 1);
    }
  }

  /** Which server files make the walk start at a bios: the first server has bios as its only instance,
      and the second has one too. */
  lemma {:induction false} PlanStartsPlainIff(servers: Servers, network: string, total: nat, next: nat)
    requires total >= 2
    ensures var s := ServerFor(servers, 0);
      StartsPlain(NamesOf(Plan(servers, network, 0, total, next)))
      <==> !(s.hasBios && Taken(s.instances, total) == 1 && ServerFor(servers, 1).hasBios)
  {
    hide Plan, NamesOf, NextFrom, ServerFor, Taken;
    var s := ServerFor(servers, 0);
    PlanFront(servers, network, 0, total, next);
    PlanFront(servers, network, 1, total - 1, NextFrom(s, total, next));
    VisitsPlainsIff(NamesOf(Plan(servers, network, 0, total, next)));
  }

  /** A local network is named like one host with bios. */
  lemma {:induction false} LocalNames(network: string, total: nat, next: nat)
    requires total >= 1
    ensures var names := NamesIn(LocalHost(network, total, next).instances);
      |names| == total && |NonBios(names)| == total - 1 && NamesDiffer(names)
  {
    NonBiosInstances(network, next, true, total);
    hide NonBios, Numbered, InstanceNames;
    var names := InstanceNames(network, next, true, total);
    forall i, j | 0 <= i < j < |names| && names[i] != BIOS && names[j] != BIOS
      ensures names[i] != names[j]
    {
      NumberedNamesDiffer(names, network, next, total - 1, i, j);
    }
  }

  /** Without a server file no host has bios. */
  lemma {:induction false} NoFileNoBios(total: nat)
    ensures BiosHosts(Servers([], []), 0, total) == 0
  {
    PseudoHaveNoBios(0, total);
  }

  lemma {:induction false} PseudoHaveNoBios(index: nat, left: nat)
    ensures BiosHosts(Servers([], []), index, left) == 0
    decreases left
  {
    if left > 0 {
      PseudoHaveNoBios(index + 1, left - 1);
    }
  }

  /** What `bind_nodes` makes of the instance at place `i`. */
  function BoundNode(names: seq<string>, producers: nat, nonBios: nat, i: nat): TnNode
    requires i < |names| && nonBios >= 1 && producers < 0x1_0000_0000
  {
    TnNode(names[i], [], ProducersAt(names, producers, nonBios, i))
  }

  /** The first `n` instances have been bound. */
  ghost predicate BoundUpTo(nodes: map<string, TnNode>, names: seq<string>, producers: nat, nonBios: nat, n: nat)
    requires n <= |names| && nonBios >= 1 && producers < 0x1_0000_0000
  {
    forall i :: 0 <= i < n ==> names[i] in nodes && nodes[names[i]] == BoundNode(names, producers, nonBios, i)
  }

  lemma {:induction false} BindNext(nodes: map<string, TnNode>, names: seq<string>, producers: nat, nonBios: nat,
                                    n: nat)
    requires n < |names| && nonBios >= 1 && producers < 0x1_0000_0000 && NamesDiffer(names)
    requires BoundUpTo(nodes, names, producers, nonBios, n)
    ensures BoundUpTo(nodes[names[n] := BoundNode(names, producers, nonBios, n)], names, producers, nonBios, n + 1)
  {
    hide Load, HandedBefore, RankIn, NameRun;
  }

  /** What is left of `extra` when `rank` nodes have been served. */
  function ExtraLeft(producers: nat, nonBios: nat, rank: nat): nat
    requires nonBios >= 1
  {
    var extra: nat := producers % nonBios;
    if rank < extra then extra - rank else 0
  }

  /** Where the loops of `bind_nodes` stand after `at` instances. */
  ghost predicate BindState(names: seq<string>, producers: nat, nonBios: nat, at: nat,
                            i: nat, left: nat, number: nat, nodes: map<string, TnNode>,
                            before: seq<string>, schedule: seq<string>)
    requires nonBios >= 1 && producers < 0x1_0000_0000
  {
    && at <= |names|
    && i == RankIn(names, at)
    && left == ExtraLeft(producers, nonBios, i)
    && number == HandedBefore(producers, nonBios, i)
    && BoundUpTo(nodes, names, producers, nonBios, at)
    && schedule == before + Schedule(names, producers, nonBios, at)
  }

  lemma {:induction false} OneHost(host: HostDef)
    ensures NamesOf([host]) == NamesIn(host.instances)
  {
    assert [host][1..] == [];
    assert NamesOf([]) == [];
  }

  /** A name more in the last host is a name more in the list. */
  lemma {:induction false} NamesOfGrow(done: seq<HostDef>, host: HostDef, eosd: EosdDef)
    ensures NamesOf(done + [host.(instances := host.instances + [eosd])]) == NamesOf(done + [host]) + [eosd.name]
    ensures host.instances == [] ==> NamesOf(done + [host]) == NamesOf(done)
  {
    var grown := host.(instances := host.instances + [eosd]);
    NamesOfAppend(done, host);
    NamesOfAppend(done, grown);
    hide NamesOf;
    assert NamesIn(grown.instances) == NamesIn(host.instances) + [eosd.name];
    assert NamesOf(done) + NamesIn(grown.instances) == NamesOf(done) + NamesIn(host.instances) + [eosd.name];
  }

  /** The cap `initialize` puts on the producing nodes, bios included.  Above `producers + 1` it falls
      back to `producers`, not to `producers + 1`. */
  function Clamped(prodNodes: nat, producers: nat): nat {
    if prodNodes > producers + 1 then producers else prodNodes
  }

  /** The producing nodes asked for, after the cap. */
  function AskedFor(file: Option<Servers>, pnodes: nat, producers: nat): nat {
    Clamped(if file.None? then pnodes + 1 else TotalInstances(file.value.producer), producers)
  }

  /** How many instances are laid out, bios included. */
  function InstancesFor(file: Option<Servers>, nodes: nat, asked: nat): nat {
    if file.Some? then TotalInstances(AllServers(file.value)) else if asked > nodes + 1 then asked else nodes + 1
  }

  /** The hosts of a launch without a host map. */
  function HostsFor(file: Option<Servers>, perHost: int, network: string, total: nat): seq<HostDef> {
    if file.Some? then Plan(file.value, network, 0, total, 0)
    else if perHost == 0 then [LocalHost(network, total, 0)]
    else Plan(Servers([], []), network, 0, total, 0)
  }

  /** Enough instances that are not bios for all producers to be handed out. */
  predicate EnoughNodes(file: Option<Servers>, pnodes: nat, producers: nat) {
    file.Some? ==>
      var total := TotalInstances(AllServers(file.value));
      var plain := total - BiosHosts(file.value, 0, total);
      plain >= AskedFor(file, pnodes, producers) - 1 || plain >= producers
  }

  lemma {:induction false} NoInstances(list: seq<ServerDef>)
    ensures TotalInstances(list[..0]) == 0
  {
  }

  lemma {:induction false} TotalInstancesGrow(list: seq<ServerDef>, i: nat)
    requires i < |list|
    ensures TotalInstances(list[..i + 1]) == TotalInstances(list[..i]) + list[i].instances
  {
    assert list[..i + 1][..i] == list[..i];
  }

  lemma {:induction false} ProducersAreServers(servers: Servers)
    ensures TotalInstances(servers.producer) <= TotalInstances(AllServers(servers))
  {
    var all, p := AllServers(servers), |servers.producer|;
    assert all[..p] == servers.producer && all[..|all|] == all;
    TotalInstancesMonotone(all, p, |all|);
  }

  lemma {:induction false} TotalInstancesMonotone(list: seq<ServerDef>, i: nat, j: nat)
    requires i <= j <= |list|
    ensures TotalInstances(list[..i]) <= TotalInstances(list[..j])
  {
    if i < j {
      TotalInstancesMonotone(list, i, j - 1);
      TotalInstancesGrow(list, j - 1);
    }
  }

  /** A local network of the requested sizes can be launched exactly when a producing node was asked for
      and, if there are more of them than producers, at least two producers were. */
  lemma {:induction false} LaunchableIff(pnodes: nat, producers: nat)
    ensures Clamped(pnodes + 1, producers) >= 2 <==> pnodes >= 1 && (pnodes > producers ==> producers >= 2)
  {
  }

  /** The nodes as bound, with their planned peers; a bios that is not visited has none. */
  ghost predicate WiredAs(nodes: map<string, TnNode>, names: seq<string>, producers: nat, nonBios: nat,
                          plan: seq<seq<string>>)
    requires Walkable(names) && nonBios >= 1 && producers < 0x1_0000_0000
  {
    && |plan| == |Visits(names)|
    && (forall q :: 0 <= q < |plan| ==>
         && Visits(names)[q] < |names| && VisitName(names, q) in nodes
         && nodes[VisitName(names, q)]
            == TnNode(VisitName(names, q), plan[q], ProducersAt(names, producers, nonBios, Visits(names)[q])))
    && (BiosUnvisited(names) ==> BIOS in nodes && nodes[BIOS] == TnNode(BIOS, [], [EOSIO]))
  }

  lemma {:induction false} WiredHasPeers(nodes: map<string, TnNode>, names: seq<string>, producers: nat,
                                         nonBios: nat, plan: seq<seq<string>>)
    requires Walkable(names) && nonBios >= 1 && producers < 0x1_0000_0000
    requires WiredAs(nodes, names, producers, nonBios, plan)
    ensures HasPeers(nodes, names, plan)
  {
    hide ProducersAt, Visits, VisitName;
  }

  /** Binding leaves every node without peers. */
  lemma {:induction false} NothingWired(nodes: map<string, TnNode>, names: seq<string>, producers: nat, nonBios: nat,
                                        plan: seq<seq<string>>)
    requires Walkable(names) && nonBios >= 1 && producers < 0x8000_0000 && |plan| == |Visits(names)|
    requires BoundUpTo(nodes, names, producers, nonBios, |names|)
    ensures WiredUpTo(nodes, nodes, names, plan, 0)
  {
    hide ProducersAt, Visits;
    forall q | 0 <= q < |plan|
      ensures var name := VisitName(names, q); name in nodes && nodes[name] == nodes[name].(peers := [])
    {
      VisitNext(names, q);
    }
  }

  lemma {:induction false} AllWired(nodes: map<string, TnNode>, bound: map<string, TnNode>, names: seq<string>,
                                    producers: nat, nonBios: nat, plan: seq<seq<string>>)
    requires Walkable(names) && nonBios >= 1 && producers < 0x8000_0000
    requires BoundUpTo(bound, names, producers, nonBios, |names|)
    requires WiredUpTo(nodes, bound, names, plan, |Visits(names)|)
    ensures WiredAs(nodes, names, producers, nonBios, plan)
  {
    hide NameRun, HandedBefore, Load, RankIn, Visits;
    forall q | 0 <= q < |plan|
      ensures Visits(names)[q] < |names| && VisitName(names, q) in nodes
      ensures nodes[VisitName(names, q)]
           == TnNode(VisitName(names, q), plan[q], ProducersAt(names, producers, nonBios, Visits(names)[q]))
    {
      VisitNext(names, q);
    }
    if BiosUnvisited(names) {
      var b :| 0 <= b < |names| && names[b] == BIOS;
      assert bound[names[b]] == BoundNode(names, producers, nonBios, b);
    }
  }

  lemma {:induction false} FirstVisit(names: seq<string>)
    requires Walkable(names)
    ensures Visits(names) != [] && Visits(names)[0] == Start(names)
  {
  }

  /** The two assignments of the pair complete the ring of three names. */
  lemma {:induction false} PairInPlan(nodes: map<string, TnNode>, bound: map<string, TnNode>, names: seq<string>)
    requires Walkable(names) && |names| == 3 && NamesDiffer(names)
    requires WiredUpTo(nodes, bound, names, RingPlan(names), 0)
    ensures var n0 := Start(names); var n1 := NextOf(names, n0).0;
      && n0 < 3 && n1 < 3 && names[n0] in nodes && names[n1] in nodes
      && var first := nodes[names[n0] := nodes[names[n0]].(peers := nodes[names[n0]].peers + [names[n1]])];
         && names[n1] in first
         && WiredUpTo(first[names[n1] := first[names[n1]].(peers := first[names[n1]].peers + [names[n0]])], bound,
                      names, RingPlan(names), |Visits(names)|)
  {
    hide WiredUpTo, Visits, NextOf, Start, RingPeers, Walkable, NamesDiffer;
    ThreeNodeRing(names);
    FirstVisit(names);
    VisitNext(names, 0);
    NextIsWalked(names, 0);
    var v, plan := Visits(names), RingPlan(names);
    var x, y := VisitName(names, 0), names[NextOf(names, v[0]).0];
    WireNext(nodes, bound, names, plan, 0);
    var first := nodes[x := nodes[x].(peers := plan[0])];
    assert nodes[x].peers + [y] == [y] && [y] + [x] == [y, x];
    if |v| == 1 {
      assert plan[0] == [x, x];
      var once := nodes[x := nodes[x].(peers := nodes[x].peers + [x])];
      assert once[x := once[x].(peers := once[x].peers + [x])] == first;
    } else {
      assert y == VisitName(names, 1);
      WireNext(first, bound, names, plan, 1);
      var second := first[y := first[y].(peers := plan[1])];
      assert plan[0] == [y] && plan[1] == [x] && first[y].peers + [x] == [x];
      if |v| == 3 {
        WireNext(second, bound, names, plan, 2);
        var z := VisitName(names, 2);
        assert second[z := second[z].(peers := [])] == second;
      }
    }
  }

  /** Among at most two nodes the ring has no links. */
  lemma {:induction false} NoRing(nodes: map<string, TnNode>, bound: map<string, TnNode>, names: seq<string>)
    requires Walkable(names) && |names| <= 2 && WiredUpTo(nodes, bound, names, RingPlan(names), 0)
    ensures WiredUpTo(nodes, bound, names, RingPlan(names), |Visits(names)|)
  {
    hide Visits, VisitName;
  }

  lemma {:induction false} AllBound(names: seq<string>, producers: nat, nonBios: nat,
                                    i: nat, left: nat, number: nat, nodes: map<string, TnNode>,
                                    before: seq<string>, schedule: seq<string>)
    requires nonBios >= 1 && producers < 0x8000_0000
    requires BindState(names, producers, nonBios, |names|, i, left, number, nodes, before, schedule)
    ensures BoundUpTo(nodes, names, producers, nonBios, |names|)
    ensures schedule == before + Schedule(names, producers, nonBios, |names|)
  {
  }

  /** What the instance at place `at` gets, in the terms of the loop, and where that leaves the loop. */
  lemma {:induction false} InstanceShare(names: seq<string>, producers: nat, nonBios: nat, at: nat,
                                         i: nat, left: nat, number: nat, nodes: map<string, TnNode>,
                                         before: seq<string>, schedule: seq<string>)
    requires at < |names| && nonBios >= 1 && producers < 0x8000_0000 && NamesDiffer(names)
    requires BindState(names, producers, nonBios, at, i, left, number, nodes, before, schedule)
    ensures var share := ProducersAt(names, producers, nonBios, at);
      var count := if i >= nonBios then 0 else producers / nonBios + if left != 0 then 1 else 0;
      var node := TnNode(names[at], [], share);
      && (names[at] == BIOS ==>
           && share == [EOSIO]
           && BindState(names, producers, nonBios, at + 1, i, left, number, nodes[names[at] := node], before,
               schedule + share))
      && (names[at] != BIOS ==>
           && number + count <= producers
           && share == NameRun(number, count) && (count == 0 ==> share == [])
           && BindState(names, producers, nonBios, at + 1, i + 1, if i < nonBios && left != 0 then left - 1 else left,
                        number + count, nodes[names[at] := node], before, schedule + share))
  {
    hide RankIn, NonBios, NameRun, BoundUpTo, NamesDiffer, Schedule, WithoutEosio;
    RankInStep(names, at);
    BindNext(nodes, names, producers, nonBios, at);
    ScheduleStep(names, producers, nonBios, at);
    if names[at] != BIOS {
      HandedAtMost(producers, nonBios, i + 1);
    }
  }

  lemma {:induction false} NothingSet(nodes: map<string, TnNode>, names: seq<string>)
    ensures SetsOnly(nodes, nodes, names)
  {
  }

  lemma {:induction false} AllKeys(was: map<string, TnNode>, nodes: map<string, TnNode>, names: seq<string>,
                                   producers: nat, nonBios: nat)
    requires nonBios >= 1 && producers < 0x8000_0000 && SetsOnly(was, nodes, names)
    requires BoundUpTo(nodes, names, producers, nonBios, |names|)
    ensures nodes.Keys == was.Keys + set name | name in names
  {
    hide BoundNode;
    KeysAfter(was, nodes, names);
  }

  lemma {:induction false} NothingBound(nodes: map<string, TnNode>, names: seq<string>, bindings: seq<HostDef>,
                                        producers: nat, nonBios: nat, before: seq<string>)
    requires nonBios >= 1 && producers < 0x8000_0000
    ensures |NamesOf(bindings[..0])| == 0
    ensures BindState(names, producers, nonBios, 0, 0, producers % nonBios, 0, nodes, before, before)
  {
    assert bindings[..0] == [];
    assert names[..0] == [];
  }

  /** The `k`-th instance of a host in the list of all names. */
  lemma {:induction false} InstancePlace(bindings: seq<HostDef>, host: nat, k: nat)
    requires host < |bindings| && k < |bindings[host].instances|
    ensures var at := |NamesOf(bindings[..host])| + k;
      at < |NamesOf(bindings)| && NamesOf(bindings)[at] == bindings[host].instances[k].name
  {
    NamesOfAt(bindings, host);
    hide NamesOf;
    assert NamesOf(bindings[..host + 1])[|NamesOf(bindings[..host])| + k] == bindings[host].instances[k].name;
  }

  lemma {:induction false} NextHost(bindings: seq<HostDef>, host: nat)
    requires host < |bindings|
    ensures |NamesOf(bindings[..host + 1])| == |NamesOf(bindings[..host])| + |bindings[host].instances|
    ensures |NamesOf(bindings[..host + 1])| <= |NamesOf(bindings)|
  {
    NamesOfAt(bindings, host);
  }

  lemma {:induction false} NameRunGrows(first: uint32, k: nat)
    requires first + k < 0x1_0000_0000
    ensures NameRun(first, k + 1) == NameRun(first, k) + [ProducerName(first + k)]
  {
    hide ProducerName;
  }

  /** Over a server file all producers are handed out, once each and in order, exactly when enough of its
      instances are not bios. */
  lemma {:induction false} PlanAllocationConserves(servers: Servers, network: string, total: nat, next: nat,
                                                   producers: nat, prodNodes: nat)
    requires prodNodes >= 2 && producers < 0x1_0000_0000
    ensures |NamesOf(Plan(servers, network, 0, total, next))| == total
    ensures var plain := total - BiosHosts(servers, 0, total);
      WithoutEosio(Schedule(NamesOf(Plan(servers, network, 0, total, next)), producers, prodNodes - 1, total))
      == NameRun(0, producers)
      <==> plain >= prodNodes - 1 || plain >= producers
  {
    hide *;
    PlanCounts(servers, network, 0, total, next);
    AllocationConserves(NamesOf(Plan(servers, network, 0, total, next)), producers, prodNodes - 1);
  }

  /** They need not be: with three producing servers of one instance each, two of them with bios, a single
      node is left, and it gets 11 of the default 21 producers. */
  lemma {:induction false} TwoBiosUnderAllocate(servers: Servers, network: string, next: nat)
    requires |servers.producer| == 3 && servers.nonprod == []
    requires forall i :: 0 <= i < 3 ==> servers.producer[i].instances == 1 && servers.producer[i].hasBios == (i < 2)
    ensures TotalInstances(AllServers(servers)) == TotalInstances(servers.producer) == Clamped(3, 21) == 3
    ensures |NamesOf(Plan(servers, network, 0, 3, next))| == 3
    ensures WithoutEosio(Schedule(NamesOf(Plan(servers, network, 0, 3, next)), 21, 3 - 1, 3)) == NameRun(0, 11)
    ensures NameRun(0, 11) != NameRun(0, 21)
  {
    hide Plan, NamesOf, Schedule, WithoutEosio, NameRun, NonBios, HandedBefore;
    var names := NamesOf(Plan(servers, network, 0, 3, next));
    ThreeInstances(servers);
    PlanCounts(servers, network, 0, 3, next);
    ScheduleIsRun(names, 21, 2, 3);
    assert names[..3] == names;
    HandedClosedForm(21, 2, 1);
    assert |NameRun(0, 11)| == 11 && |NameRun(0, 21)| == 21;
  }

  lemma {:induction false} ThreeInstances(servers: Servers)
    requires |servers.producer| == 3 && servers.nonprod == []
    requires forall i :: 0 <= i < 3 ==> servers.producer[i].instances == 1 && servers.producer[i].hasBios == (i < 2)
    ensures AllServers(servers) == servers.producer && TotalInstances(servers.producer) == 3
    ensures BiosHosts(servers, 0, 3) == 2
  {
    var list := servers.producer;
    NoInstances(list);
    TotalInstancesGrow(list, 0);
    TotalInstancesGrow(list, 1);
    TotalInstancesGrow(list, 2);
    assert list[..3] == list;
    hide TotalInstances, BiosHosts;
    BiosHostsStep(servers, 0, 3, 0);
    BiosHostsStep(servers, 1, 2, 0);
    BiosHostsStep(servers, 2, 1, 0);
    NoBiosHosts(servers, 3);
  }

  /** Two nodes asked for with one host each, `--nodes 2 --per-host 1`, make three names without bios.  The
      ring then leaves the third node without peers. */
  lemma {:induction false} ThreeHostsMakeNoRing(nodes: map<string, TnNode>, network: string, asked: nat)
    requires asked <= 3
    requires var names := NamesOf(HostsFor(None, 1, network, InstancesFor(None, 2, asked)));
      Walkable(names) && HasPeers(nodes, names, RingPlan(names))
    ensures var names := NamesOf(HostsFor(None, 1, network, InstancesFor(None, 2, asked)));
      && |names| == 3 && Walkable(names) && !OneCycle(nodes, names)
      && names[2] in nodes && nodes[names[2]].peers == []
  {
    hide Plan, NamesOf, NextFrom, Visits, NonBios, RingPeers, OneCycle;
    var servers := Servers([], []);
    var names := NamesOf(Plan(servers, network, 0, 3, 0));
    var next := NextFrom(ServerFor(servers, 0), 3, 0);
    PlanFront(servers, network, 0, 3, 0);
    PlanFront(servers, network, 1, 2, next);
    PlanFront(servers, network, 2, 1, NextFrom(ServerFor(servers, 1), 2, next));
    RingIsOneCycleIff(nodes, names);
    LastOfThree(names);
    assert nodes[VisitName(names, 2)].peers == RingPlan(names)[2];
  }

  lemma {:induction false} LastOfThree(names: seq<string>)
    requires |names| == 3 && Walkable(names) && forall i :: 0 <= i < 3 ==> names[i] != BIOS
    ensures |Visits(names)| == 3 && VisitName(names, 2) == names[2] && RingPeers(names, 2) == []
  {
    assert Plains(names, 3) == [];
    assert Plains(names, 2) == [2];
    ThreeNodeRing(names);
  }

  // ----- what the nodes hold

  /** The producers of the named nodes, one after the other. */
  function ProducersOf(nodes: map<string, TnNode>, names: seq<string>): seq<string>
    requires forall i :: 0 <= i < |names| ==> names[i] in nodes
  {
    if names == [] then []
    else ProducersOf(nodes, names[..|names| - 1]) + nodes[names[|names| - 1]].producers
  }

  /** The schedule is what the nodes hold, in order. */
  lemma {:induction false} ScheduleIsProducersOf(nodes: map<string, TnNode>, names: seq<string>, producers: nat,
                                                 nonBios: nat, n: nat)
    requires n <= |names| && nonBios >= 1 && producers < 0x1_0000_0000
    requires HoldProducers(nodes, names, producers, nonBios)
    ensures Schedule(names, producers, nonBios, n) == ProducersOf(nodes, names[..n])
  {
    hide ProducersAt;
    if n > 0 {
      ScheduleIsProducersOf(nodes, names, producers, nonBios, n - 1);
      assert names[..n][..n - 1] == names[..n - 1];
    }
  }

  /** Every node has its share. */
  ghost predicate HoldProducers(nodes: map<string, TnNode>, names: seq<string>, producers: nat, nonBios: nat)
    requires nonBios >= 1 && producers < 0x1_0000_0000
  {
    forall i :: 0 <= i < |names| ==>
      names[i] in nodes && nodes[names[i]].producers == ProducersAt(names, producers, nonBios, i)
  }

  lemma {:induction false} WiredHoldProducers(nodes: map<string, TnNode>, names: seq<string>, producers: nat,
                                              nonBios: nat, plan: seq<seq<string>>)
    requires Walkable(names) && nonBios >= 1 && producers < 0x1_0000_0000
    requires WiredAs(nodes, names, producers, nonBios, plan)
    ensures HoldProducers(nodes, names, producers, nonBios)
  {
    hide Visits, RankIn, HandedBefore, Load, NameRun;
    forall i | 0 <= i < |names|
      ensures names[i] in nodes && nodes[names[i]].producers == ProducersAt(names, producers, nonBios, i)
    {
      var x := if names[i] == BIOS && !StartsPlain(names) then Start(names) else i;
      VisitedIff(names, x);
      if x in Visits(names) {
        var q :| 0 <= q < |Visits(names)| && Visits(names)[q] == x;
        assert VisitName(names, q) == names[x] == names[i];
      } else {
        assert BiosUnvisited(names);
      }
    }
  }

  /** The share of the instance at place `i`: bios signs as "eosio"; of the others the one of rank `r` has the
      producers that follow those of the `r` before it, one more than the quotient for the first few. */
  lemma {:induction false} ProducersAtAre(names: seq<string>, producers: nat, nonBios: nat, i: nat)
    requires i < |names| && nonBios >= 1 && producers < 0x1_0000_0000
    ensures names[i] == "bios" ==> ProducersAt(names, producers, nonBios, i) == ["eosio"]
    ensures names[i] != "bios" ==>
      var share, r := ProducersAt(names, producers, nonBios, i), |NonBios(names[..i])|;
      var quotient, extra: nat := producers / nonBios, producers % nonBios;
      && |share| == (if r >= nonBios then 0 else if r < extra then quotient + 1 else quotient)
      && forall k :: 0 <= k < |share| ==>
           var number := r * quotient + (if r < extra then r else extra) + k;
           0 <= number < producers && share[k] == ProducerName(number)
  {
    hide NameRun, HandedBefore, ProducerName, NonBios;
    if names[i] != BIOS {
      var r := RankIn(names, i);
      var first, count := HandedBefore(producers, nonBios, r), Load(producers, nonBios, r);
      HandedStep(producers, nonBios, r);
      if r < nonBios {
        HandedClosedForm(producers, nonBios, r);
        forall k | 0 <= k < count
          ensures NameRun(first, count)[k] == ProducerName(first + k)
        {
          NameRunAt(first, count, k);
        }
      }
    }
  }

  // ----- what a launch lays out

  /** The sizes, in the numbers asked for: with more producing nodes than producers these fall back to the
      number of producers, bios included. */
  lemma {:induction false} SizesAre(file: Option<Servers>, nodes: nat, pnodes: nat, producers: nat)
    ensures var asked := AskedFor(file, pnodes, producers);
      && (file.None? && pnodes <= producers ==> asked == pnodes + 1)
      && (file.None? && pnodes > producers ==> asked == producers)
      && (file.Some? && TotalInstances(file.value.producer) <= producers + 1 ==>
           asked == TotalInstances(file.value.producer))
      && (file.Some? && TotalInstances(file.value.producer) > producers + 1 ==> asked == producers)
      && (file.None? ==> InstancesFor(file, nodes, asked) == if nodes + 1 >= asked then nodes + 1 else asked)
      && (file.Some? ==> InstancesFor(file, nodes, asked) == TotalInstances(AllServers(file.value)))
  {
  }

  /** The hosts: one with bios and the numbered nodes; or for a server file its servers, spread as declared
      if all declare an instance, with the nodes numbered throughout; or else a numbered node on each. */
  lemma {:induction false} HostsAre(file: Option<Servers>, perHost: int, network: string, total: nat, k: nat)
    requires k < total && (file.Some? ==> total == TotalInstances(AllServers(file.value)))
    ensures var hosts := HostsFor(file, perHost, network, total);
      && |NamesOf(hosts)| == total
      && (file.None? && perHost == 0 ==>
           |hosts| == 1 && NamesOf(hosts)[k] == if k == 0 then "bios" else NodeName(network, k - 1))
      && (file.None? && perHost != 0 ==> |hosts| == total && NamesIn(hosts[k].instances) == [NodeName(network, k)])
      && (file.Some? ==>
           && (IsPartition(hosts, AllServers(file.value))
               <==> forall j :: 0 <= j < |AllServers(file.value)| ==> AllServers(file.value)[j].instances >= 1)
           && (k < |NonBios(NamesOf(hosts))| ==> NonBios(NamesOf(hosts))[k] == NodeName(network, k)))
  {
    hide Plan, NamesOf, NodeName, NonBios, TotalInstances, IsPartition, AllServers, NamesIn, LocalHost, Numbered;
    if file.Some? {
      PartitionIff(file.value, network, 0);
      PlanCounts(file.value, network, 0, total, 0);
      if k < total - BiosHosts(file.value, 0, total) {
        NumberedAt(network, 0, total - BiosHosts(file.value, 0, total), k);
      }
    } else if perHost == 0 {
      OneHost(LocalHost(network, total, 0));
      LocalNamesAre(network, total, 0, k);
    } else {
      PlanCounts(Servers([], []), network, 0, total, 0);
      PseudoHostsHoldOne(network, 0, total, 0, k);
    }
  }
}
