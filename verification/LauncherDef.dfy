/** The launcher: naming and placing instances, sharing out producers, and wiring the nodes. */
module LauncherDef {
  import opened Bits
  import opened Wrappers
  import opened Hosts
  import opened ProducerNames
  import opened Allocation
  import opened Traversal
  import opened Wiring
  import opened LauncherSteps

  class LauncherDef {
    var totalNodes: nat
    var prodNodes: nat
    var producers: nat
    var nextNode: nat
    var perHost: int
    var networkName: string
    var servers: Servers
    var aliases: seq<string>
    var bindings: seq<HostDef>
    var nodes: map<string, TnNode>
    var schedule: seq<string>

    constructor (networkName: string, nodes: nat, pnodes: nat, producers: nat, perHost: int)
      ensures this.networkName == networkName && totalNodes == nodes && prodNodes == pnodes
      ensures this.producers == producers && this.perHost == perHost && servers == Servers([], [])
      ensures nextNode == 0 && aliases == [] && bindings == [] && this.nodes == map[] && schedule == []
    {
      this.networkName, this.totalNodes, this.prodNodes, this.producers := networkName, nodes, pnodes, producers;
      this.perHost, this.servers := perHost, Servers([], []);
      this.nextNode, this.aliases, this.bindings, this.nodes, this.schedule := 0, [], [], map[], [];
    }

    // ----- naming and placing instances

    method AssignName(isBios: bool) returns (node: EosdDef)
      modifies `nextNode
      ensures node.name == if isBios then "bios" else NodeName(networkName, old(nextNode))
      ensures !isBios ==>
        && |node.name| >= |networkName| && node.name[..|networkName|] == networkName
        && IsNumeral(node.name[|networkName|..], old(nextNode))
      ensures nextNode == if isBios then old(nextNode) else old(nextNode) + 1
    {
      NodeNameReads(networkName, nextNode);
      if isBios {
        node := EosdDef(BIOS);
      } else {
        var dex := if nextNode < 10 then "0" else "";
        dex := dex + Decimal(nextNode);
        nextNode := nextNode + 1;
        node := EosdDef(networkName + dex);
      }
    }

    /** `load_servers`: a server file sets the sizes. */
    method LoadServers(file: Option<Servers>)
      modifies `servers, `prodNodes, `totalNodes, `perHost
      ensures file.None? ==>
        servers == old(servers) && prodNodes == old(prodNodes) && totalNodes == old(totalNodes)
            && perHost == old(perHost)
      ensures file.Some? ==>
        && servers == file.value && perHost == 1
        && prodNodes == TotalInstances(file.value.producer) && totalNodes == TotalInstances(AllServers(file.value))
    {
      hide TotalInstances;
      if file.Some? {
        servers := file.value;
        prodNodes := 0;
        NoInstances(servers.producer);
        for i := 0 to |servers.producer|
          invariant servers == file.value && prodNodes == TotalInstances(servers.producer[..i])
        {
          TotalInstancesGrow(servers.producer, i);
          prodNodes := prodNodes + servers.producer[i].instances;
        }
        assert servers.producer[..|servers.producer|] == servers.producer;
        totalNodes := prodNodes;
        ghost var all := AllServers(servers);
        for i := 0 to |servers.nonprod|
          invariant servers == file.value && prodNodes == TotalInstances(servers.producer)
          invariant totalNodes == TotalInstances(all[..|servers.producer| + i])
        {
          TotalInstancesGrow(all, |servers.producer| + i);
          totalNodes := totalNodes + servers.nonprod[i].instances;
        }
        assert all[..|all|] == all;
        perHost := 1;
      }
    }

    /** The sizing and layout steps of `initialize`. */
    method Initialize(file: Option<Servers>)
      requires file.Some? ==> TotalInstances(AllServers(file.value)) >= 1
      modifies `servers, `prodNodes, `totalNodes, `perHost, `nextNode, `aliases, `bindings
      ensures prodNodes <= totalNodes && totalNodes >= 1
      ensures file.None? ==>
        && prodNodes == (if old(prodNodes) <= producers then old(prodNodes) + 1 else producers)
        && perHost == old(perHost) && servers == old(servers)
        && totalNodes == (if prodNodes > old(totalNodes) + 1 then prodNodes else old(totalNodes) + 1)
      ensures file.Some? ==>
        && servers == file.value && perHost == 1 && totalNodes == TotalInstances(AllServers(file.value))
        && var declared := TotalInstances(file.value.producer);
           prodNodes == if declared <= producers + 1 then declared else producers
      ensures old(bindings) != [] ==> bindings == old(bindings) && aliases == old(aliases)
      ensures old(bindings) == [] ==> bindings == Layout(0) && aliases == old(aliases) + NamesOf(bindings)
    {
      hide TotalInstances, AllServers, Plan, LocalHost, NamesOf;
      nextNode := 0;
      prodNodes := prodNodes + 1;
      totalNodes := totalNodes + 1;
      LoadServers(file);
      if file.Some? {
        ProducersAreServers(file.value);
      }
      if prodNodes > producers + 1 {
        prodNodes := producers;
      }
      if prodNodes > totalNodes {
        totalNodes := prodNodes;
      }
      if bindings == [] {
        DefineNetwork();
        assert [] + Layout(0) == Layout(0);
      }
    }

    /** How many bios instances a fresh layout has. */
    function BiosCount(): nat
      reads `perHost, `totalNodes, `servers
    {
      if perHost == 0 then 1 else BiosHosts(servers, 0, totalNodes)
    }

    /** The host for the next server, producers first; beyond the file, a made-up one. */
    method OpenHost(hostNdx: nat) returns (lhost: HostDef, phCount: int, doBios: bool)
      ensures var s := ServerFor(servers, hostNdx);
        lhost == HostDef(s.ipaddr, s.name, []) && phCount == s.instances && doBios == s.hasBios
    {
      var numProdAddr, numNonprodAddr := |servers.producer|, |servers.nonprod|;
      doBios := false;
      if hostNdx < numProdAddr {
        var s := servers.producer[hostNdx];
        doBios := s.hasBios;
        lhost := HostDef(s.ipaddr, s.name, []);
        phCount := s.instances;
      } else if hostNdx - numProdAddr < numNonprodAddr {
        var s := servers.nonprod[hostNdx - numProdAddr];
        doBios := s.hasBios;
        lhost := HostDef(s.ipaddr, s.name, []);
        phCount := s.instances;
      } else {
        var ext := if hostNdx < 10 then "0" else "";
        ext := ext + Decimal(hostNdx);
        lhost := HostDef("pseudo_" + ext, "pseudo_" + ext, []);
        phCount := 1;
      }
    }

    /** `define_network` when all instances run on one host: the first is bios. */
    method DefineLocal()
      modifies `aliases, `bindings, `nextNode
      ensures bindings == old(bindings) + [LocalHost(networkName, totalNodes, old(nextNode))]
      ensures aliases == old(aliases) + NamesIn(LocalHost(networkName, totalNodes, old(nextNode)).instances)
    {
      hide Named, InstanceNames, NamesIn, NodeName;
      ghost var first, was := nextNode, aliases;
      var localHost := HostDef("", "", []);
      for i := 0 to totalNodes
        invariant nextNode == if i == 0 then first else first + i - 1
        invariant localHost == HostDef("", "", Named(InstanceNames(networkName, first, true, i)))
        invariant aliases == was + InstanceNames(networkName, first, true, i) && bindings == old(bindings)
      {
        LocalNamesGrow(networkName, first, i);
        var eosd := AssignName(i == 0);
        aliases := aliases + [eosd.name];
        localHost := localHost.(instances := localHost.instances + [eosd]);
      }
      bindings := bindings + [localHost];
    }

    /** `define_network` over the servers of a file: a host is opened when the last one is full.  With no
        instances at all the source would dereference a null host. */
    method DefineServers()
      requires totalNodes >= 1
      modifies `aliases, `bindings, `nextNode
      ensures bindings == old(bindings) + Plan(servers, networkName, 0, totalNodes, old(nextNode))
      ensures aliases == old(aliases) + NamesOf(Plan(servers, networkName, 0, totalNodes, old(nextNode)))
    {
      hide Plan, PlanState, ServerFor, NamesIn, NodeName, Dex, Decimal;
      ghost var plan := Plan(servers, networkName, 0, totalNodes, nextNode);
      ghost var done: seq<HostDef> := [];
      ghost var was := bindings;
      ghost var named := aliases;
      var lhost := HostDef("", "", []);
      var open, phCount, hostNdx := false, 0, 0;
      var i := totalNodes;
      while i > 0
        invariant 0 <= i <= totalNodes && (!open ==> i == totalNodes && phCount == 0)
        invariant bindings == was + done
        invariant !open ==> done == [] && aliases == named && plan == Plan(servers, networkName, hostNdx, i, nextNode)
        invariant open ==>
          && PlanState(plan, servers, networkName, done, lhost, phCount, hostNdx, i, nextNode)
          && aliases == named + NamesOf(done + [lhost])
      {
        var doBios := false;
        var opening := phCount == 0;
        if opening {
          if open {
            CloseHost(plan, servers, networkName, done, lhost, phCount, hostNdx, i, nextNode);
            bindings := bindings + [lhost];
            done := done + [lhost];
          }
          lhost, phCount, doBios := OpenHost(hostNdx);
          hostNdx := hostNdx + 1;
          open := true;
        }
        ghost var next := nextNode;
        var eosd := AssignName(doBios);
        if opening {
          OpenNext(plan, servers, networkName, done, hostNdx - 1, i, next, eosd);
          assert lhost.instances + [eosd] == [eosd];
        } else {
          FillHost(plan, servers, networkName, done, lhost, phCount, hostNdx, i, next);
          assert eosd == EosdDef(NodeName(networkName, next));
        }
        NamesOfGrow(done, lhost, eosd);
        aliases := aliases + [eosd.name];
        lhost := lhost.(instances := lhost.instances + [eosd]);
        phCount := phCount - 1;
        i := i - 1;
      }
      CloseHost(plan, servers, networkName, done, lhost, phCount, hostNdx, i, nextNode);
      bindings := bindings + [lhost];
    }

    /** `define_network` */
    method DefineNetwork()
      requires perHost != 0 ==> totalNodes >= 1
      modifies `aliases, `bindings, `nextNode
      ensures bindings == old(bindings) + Layout(old(nextNode))
      ensures aliases == old(aliases) + NamesOf(Layout(old(nextNode)))
    {
      if perHost == 0 {
        LayoutNames(nextNode);
        DefineLocal();
      } else {
        DefineServers();
      }
    }

    /** The hosts `define_network` adds when `next` is the next free number. */
    function Layout(next: nat): seq<HostDef>
      reads `perHost, `networkName, `totalNodes, `servers
    {
      if perHost == 0 then [LocalHost(networkName, totalNodes, next)]
      else Plan(servers, networkName, 0, totalNodes, next)
    }

    lemma {:induction false} LayoutNames(next: nat)
      ensures perHost == 0 ==> NamesOf(Layout(next)) == NamesIn(LocalHost(networkName, totalNodes, next).instances)
    {
      if perHost == 0 {
        OneHost(LocalHost(networkName, totalNodes, next));
      }
    }

    // ----- producers

    /** The innermost loop of `bind_nodes`. */
    method HandOut(count: nat, first: uint32) returns (given: seq<string>)
      requires first + count <= 0xFFFF_FFFF
      modifies `schedule
      ensures given == NameRun(first, count) && schedule == old(schedule) + given
    {
      hide ProducerName, NameRun;
      given := [];
      var producerNumber: uint32 := first;
      ghost var before := schedule;
      for k := 0 to count
        invariant producerNumber == first + k
        invariant given == NameRun(first, k) && schedule == before + given
      {
        NameRunGrows(first, k);
        var r := MakeProducerName(producerNumber);
        given := given + [r.name];
        schedule := schedule + [r.name];
        producerNumber := producerNumber + 1;
      }
    }

    /** One turn of the loops of `bind_nodes`: make the node for an instance and give it its producers.
        `left` is what remains of `extra`, `i` counts the non-bios instances so far. */
    method BindInstance(inst: EosdDef, i: nat, left: nat, producerNumber: uint32,
                        ghost names: seq<string>, ghost at: nat, ghost before: seq<string>)
      returns (i': nat, left': nat, number': uint32)
      requires prodNodes >= 2 && producers < 0x8000_0000 && NamesDiffer(names)
      requires at < |names| && names[at] == inst.name
      requires BindState(names, producers, prodNodes - 1, at, i, left, producerNumber, nodes, before, schedule)
      modifies `nodes, `schedule
      ensures BindState(names, producers, prodNodes - 1, at + 1, i', left', number', nodes, before, schedule)
      ensures inst.name in nodes && nodes == old(nodes)[inst.name := nodes[inst.name]]
    {
      hide *;
      var nonBios := prodNodes - 1;
      var perNode := producers / nonBios;
      var isBios := inst.name == BIOS;
      InstanceShare(names, producers, nonBios, at, i, left, producerNumber, nodes, before, schedule);
      var node := TnNode(inst.name, [], []);
      i', left', number' := i, left, producerNumber;
      if isBios {
        node := node.(producers := [EOSIO]);
        schedule := schedule + [EOSIO];
      } else {
        if i < nonBios {
          var count := perNode;
          if left != 0 {
            count := count + 1;
            left' := left - 1;
          }
          var given := HandOut(count, producerNumber);
          node := node.(producers := given);
          number' := producerNumber + count;
        }
        i' := i + 1;
      }
      assert schedule == old(schedule) + node.producers;
      nodes := nodes[inst.name := node];
    }

    /** `bind_nodes`.  The source exits when there are fewer than two producing nodes, bios included. */
    method BindNodes() returns (ok: bool)
      requires prodNodes < 0x8000_0000 && producers < 0x8000_0000 && NamesDiffer(NamesOf(bindings))
      modifies `nodes, `schedule
      ensures ok <==> prodNodes >= 2
      ensures !ok ==> nodes == old(nodes) && schedule == old(schedule)
      ensures ok ==> var names := NamesOf(bindings);
        && nodes.Keys == old(nodes.Keys) + (set name | name in names) && SetsOnly(old(nodes), nodes, names)
        && BoundUpTo(nodes, names, producers, prodNodes - 1, |names|)
        && schedule == old(schedule) + Schedule(names, producers, prodNodes - 1, |names|)
    {
      hide *;
      if prodNodes < 2 {
        return false;
      }
      var nonBios := prodNodes - 1;
      var extra: nat := producers % nonBios;
      var i: nat := 0;
      var producerNumber: uint32 := 0;
      ghost var names := NamesOf(bindings);
      ghost var at, before := 0, schedule;
      NothingSet(nodes, names);
      NothingBound(nodes, names, bindings, producers, nonBios, before);
      for hi := 0 to |bindings|
        invariant at == |NamesOf(bindings[..hi])|
        invariant SetsOnly(old(nodes), nodes, names)
        invariant BindState(names, producers, nonBios, at, i, extra, producerNumber, nodes, before, schedule)
      {
        var instances := bindings[hi].instances;
        for k := 0 to |instances|
          invariant at == |NamesOf(bindings[..hi])| + k
          invariant SetsOnly(old(nodes), nodes, names)
          invariant BindState(names, producers, nonBios, at, i, extra, producerNumber, nodes, before, schedule)
        {
          InstancePlace(bindings, hi, k);
          ghost var was := nodes;
          i, extra, producerNumber := BindInstance(instances[k], i, extra, producerNumber, names, at, before);
          SetOne(old(nodes), was, names, instances[k].name, nodes[instances[k].name]);
          at := at + 1;
        }
        NextHost(bindings, hi);
      }
      assert bindings[..|bindings|] == bindings;
      AllBound(names, producers, nonBios, i, extra, producerNumber, nodes, before, schedule);
      AllKeys(old(nodes), nodes, names, producers, nonBios);
      ok := true;
    }

    // ----- walking the indices

    predicate IsBiosNdx(ndx: nat)
      requires ndx < |aliases|
      reads this
    {
      aliases[ndx] == BIOS
    }

    function StartNdx(): nat
      requires |aliases| > 0
      reads this
    {
      if IsBiosNdx(0) then 1 else 0
    }

    /** One name for each node. */
    predicate Indexed()
      reads `aliases, `totalNodes
    {
      |aliases| == totalNodes
    }

    /** `next_ndx`; the source changes its argument in place. */
    method NextNdx(ndx: nat) returns (next: nat, loop: bool)
      requires Indexed() && ndx < totalNodes
      ensures (next, loop) == NextOf(aliases, ndx)
      decreases totalNodes - ndx
    {
      next := ndx + 1;
      loop := next == totalNodes;
      if loop {
        next := StartNdx();
      } else if IsBiosNdx(next) {
        next, loop := NextNdx(next);
      }
    }

    /** The loop header both shapes share: it ends, and visits the indices of `Visits` in that order. */
    method Traverse() returns (visited: seq<nat>)
      requires Indexed() && Walkable(aliases)
      ensures visited == Visits(aliases)
    {
      hide Visits, NextOf;
      ghost var v := Visits(aliases);
      visited := [];
      var i, loop := StartNdx(), false;
      FirstVisit(aliases);
      while !loop
        invariant visited <= v && (if loop then visited == v else |visited| < |v| && i == v[|visited|])
        decreases |v| - |visited|, !loop
      {
        VisitNext(aliases, |visited|);
        visited := visited + [i];
        i, loop := NextNdx(i);
      }
    }

    /** `skip_ndx` */
    method SkipNdx(from: nat, offset: nat) returns (ndx: nat)
      requires Indexed() && Walkable(aliases)
      ensures ndx == SkipFrom(aliases, from, offset) < totalNodes
    {
      hide NextOf;
      ndx := (from + offset) % totalNodes;
      if totalNodes > 2 {
        var attempts := totalNodes - 1;
        attempts := attempts - 1;
        ghost var end := SkipTo(aliases, from, ndx, attempts);
        while attempts != 0 && (IsBiosNdx(ndx) || ndx == from)
          invariant 0 <= attempts && ndx < totalNodes && SkipTo(aliases, from, ndx, attempts) == end
          decreases attempts
        {
          var next, loop := NextNdx(ndx);
          SkipUnfold(aliases, from, ndx, attempts);
          ndx := next;
          attempts := attempts - 1;
        }
      }
    }

    // ----- wiring

    /** The state both shapes start from. */
    ghost predicate Ready()
      reads this
    {
      && Indexed() && aliases == NamesOf(bindings) && NamesDiffer(aliases)
      && prodNodes <= totalNodes && prodNodes < 0x8000_0000 && producers < 0x8000_0000
    }

    /** Every layout from scratch is such a state; `BiosCount` of its instances are bios. */
    lemma {:induction false} LayoutIsReady()
      requires bindings == Layout(0) && aliases == NamesOf(bindings)
      requires 1 <= totalNodes && prodNodes <= totalNodes && prodNodes < 0x8000_0000 && producers < 0x8000_0000
      ensures Ready() && BiosCount() <= totalNodes && |NonBios(aliases)| == totalNodes - BiosCount()
    {
      hide Plan, NamesOf, NonBios, BiosHosts, InstanceNames, NamesDiffer, LocalHost;
      LayoutNames(0);
      if perHost == 0 {
        LocalNames(networkName, totalNodes, 0);
      } else {
        PlanCounts(servers, networkName, 0, totalNodes, 0);
        PlanNamesDiffer(servers, networkName, totalNodes, 0);
      }
    }

    /** `make_ring` */
    method MakeRing() returns (ok: bool)
      requires Ready()
      modifies `nodes, `schedule
      ensures ok <==> prodNodes >= 2
      ensures !ok ==> nodes == old(nodes) && schedule == old(schedule)
      ensures ok ==>
        && Walkable(aliases) && WiredAs(nodes, aliases, producers, prodNodes - 1, RingPlan(aliases))
        && nodes.Keys == old(nodes.Keys) + (set name | name in aliases) && SetsOnly(old(nodes), nodes, aliases)
        && schedule == old(schedule) + Schedule(aliases, producers, prodNodes - 1, |aliases|)
    {
      hide WiredAs, WiredUpTo, BoundUpTo, RingPlan, Schedule, NamesOf, NamesDiffer, Visits;
      ok := BindNodes();
      if !ok {
        return;
      }
      ghost var bound := nodes;
      ghost var plan := RingPlan(aliases);
      NothingWired(nodes, aliases, producers, prodNodes - 1, plan);
      var nonBios := totalNodes - 1;
      if nonBios > 2 {
        WireRing(bound);
      } else if nonBios == 2 {
        WirePair(bound);
      } else {
        NoRing(nodes, bound, aliases);
      }
      AllWired(nodes, bound, aliases, producers, prodNodes - 1, plan);
    }

    /** The loop of `make_ring`. */
    method WireRing(ghost bound: map<string, TnNode>)
      requires Indexed() && totalNodes > 3 && NamesDiffer(aliases)
      requires WiredUpTo(nodes, bound, aliases, RingPlan(aliases), 0)
      modifies `nodes
      ensures WiredUpTo(nodes, bound, aliases, RingPlan(aliases), |Visits(aliases)|)
      ensures nodes.Keys == old(nodes.Keys) && SetsOnly(old(nodes), nodes, aliases)
    {
      hide WiredUpTo, NamesDiffer, Visits, NextOf;
      ghost var v, plan, r := Visits(aliases), RingPlan(aliases), 0;
      var loop := false;
      var i := StartNdx();
      FirstVisit(aliases);
      while !loop
        invariant if loop then r == |v| else r < |v| && i == v[r]
        invariant WiredUpTo(nodes, bound, aliases, plan, r)
        invariant nodes.Keys == old(nodes.Keys) && SetsOnly(old(nodes), nodes, aliases)
        decreases |v| - r, !loop
      {
        VisitNext(aliases, r);
        NextIsWalked(aliases, r);
        var front := i;
        front, loop := NextNdx(front);
        WireNext(nodes, bound, aliases, plan, r);
        assert nodes[aliases[i]].peers + [aliases[front]] == plan[r];
        nodes := nodes[aliases[i] := nodes[aliases[i]].(peers := nodes[aliases[i]].peers + [aliases[front]])];
        i, loop := NextNdx(i);
        r := r + 1;
      }
    }

    /** `make_ring` with three nodes, two of them taken to be besides bios: each becomes the other's peer. */
    method WirePair(ghost bound: map<string, TnNode>)
      requires Indexed() && totalNodes == 3 && NamesDiffer(aliases)
      requires WiredUpTo(nodes, bound, aliases, RingPlan(aliases), 0)
      modifies `nodes
      ensures WiredUpTo(nodes, bound, aliases, RingPlan(aliases), |Visits(aliases)|)
      ensures nodes.Keys == old(nodes.Keys) && SetsOnly(old(nodes), nodes, aliases)
    {
      hide WiredUpTo, NamesDiffer, Visits, NextOf;
      FirstVisit(aliases);
      VisitNext(aliases, 0);
      var n0 := StartNdx();
      var n1 := n0;
      var loop;
      n1, loop := NextNdx(n1);
      ghost var was := nodes;
      PairInPlan(nodes, bound, aliases);
      nodes := nodes[aliases[n0] := nodes[aliases[n0]].(peers := nodes[aliases[n0]].peers + [aliases[n1]])];
      nodes := nodes[aliases[n1] := nodes[aliases[n1]].(peers := nodes[aliases[n1]].peers + [aliases[n0]])];
    }

    /** `make_mesh` */
    method MakeMesh() returns (ok: bool)
      requires Ready()
      modifies `nodes, `schedule
      ensures ok <==> prodNodes >= 2
      ensures !ok ==> nodes == old(nodes) && schedule == old(schedule)
      ensures ok ==>
        && Walkable(aliases) && WiredAs(nodes, aliases, producers, prodNodes - 1, MeshPlan(aliases))
        && nodes.Keys == old(nodes.Keys) + (set name | name in aliases) && SetsOnly(old(nodes), nodes, aliases)
        && schedule == old(schedule) + Schedule(aliases, producers, prodNodes - 1, |aliases|)
    {
      hide WiredAs, WiredUpTo, BoundUpTo, MeshPlan, Schedule, NamesOf, NamesDiffer, Visits;
      ok := BindNodes();
      if !ok {
        return;
      }
      ghost var bound := nodes;
      ghost var plan := MeshPlan(aliases);
      NothingWired(nodes, aliases, producers, prodNodes - 1, plan);
      WireMesh(bound);
      AllWired(nodes, bound, aliases, producers, prodNodes - 1, plan);
    }

    /** The loops of `make_mesh`.  The guard against established links counts in a set, so it always holds. */
    method WireMesh(ghost bound: map<string, TnNode>)
      requires Indexed() && totalNodes >= 2 && NamesDiffer(aliases)
      requires WiredUpTo(nodes, bound, aliases, MeshPlan(aliases), 0)
      modifies `nodes
      ensures WiredUpTo(nodes, bound, aliases, MeshPlan(aliases), |Visits(aliases)|)
      ensures nodes.Keys == old(nodes.Keys) && SetsOnly(old(nodes), nodes, aliases)
    {
      hide WiredUpTo, NamesDiffer, Visits, NextOf, SkipFrom;
      var nonBios := totalNodes - 1;
      ghost var v, plan, r := Visits(aliases), MeshPlan(aliases), 0;
      var peersToFrom: map<string, set<string>> := map[];
      var loop := false;
      var i := StartNdx();
      FirstVisit(aliases);
      while !loop
        invariant if loop then r == |v| else r < |v| && i == v[r]
        invariant WiredUpTo(nodes, bound, aliases, plan, r)
        invariant nodes.Keys == old(nodes.Keys) && SetsOnly(old(nodes), nodes, aliases)
        decreases |v| - r, !loop
      {
        VisitNext(aliases, r);
        WireNext(nodes, bound, aliases, plan, r);
        ghost var was := nodes;
        var currentName := aliases[i];
        for j := 1 to nonBios
          invariant currentName in nodes && was[currentName].peers == []
          invariant nodes == was[currentName := was[currentName].(peers := MeshPeers(aliases, i, j - 1))]
        {
          var ndx := SkipNdx(i, j);
          var peer := aliases[ndx];
          assert MeshPeers(aliases, i, j) == MeshPeers(aliases, i, j - 1) + [peer];
          var count := if peer in peersToFrom && currentName in peersToFrom[peer] then 1 else 0;
          if count < 2 {
            nodes := nodes[currentName := nodes[currentName].(peers := nodes[currentName].peers + [peer])];
            var known := if currentName in peersToFrom then peersToFrom[currentName] else {};
            peersToFrom := peersToFrom[currentName := known + {peer}];
          }
        }
        i, loop := NextNdx(i);
        r := r + 1;
      }
    }

    /** The sizes as `initialize` leaves them. */
    ghost predicate Sized(file: Option<Servers>, pnodes: nat)
      reads this
    {
      && prodNodes == AskedFor(file, pnodes, producers) <= totalNodes
      && (file.None? ==> servers == Servers([], []))
      && (file.Some? ==> servers == file.value && perHost == 1 && totalNodes == TotalInstances(AllServers(servers)))
    }

    lemma {:induction false} SizedIs(file: Option<Servers>, pnodes: nat)
      requires Sized(file, pnodes)
      ensures prodNodes == AskedFor(file, pnodes, producers)
    {
    }

    lemma {:induction false} ReadyNames()
      requires Ready()
      ensures aliases == NamesOf(bindings) && NamesDiffer(aliases)
    {
    }

    lemma {:induction false} FileDecides(file: Option<Servers>, pnodes: nat)
      requires Sized(file, pnodes) && BiosCount() <= totalNodes
      ensures var plain := totalNodes - BiosCount();
        plain >= prodNodes - 1 || plain >= producers <==> EnoughNodes(file, pnodes, producers)
    {
      hide TotalInstances, AllServers, BiosHosts;
      if file.None? && perHost != 0 {
        NoFileNoBios(totalNodes);
      }
    }

    /** All of `initialize`, on a launcher that has no bindings yet. */
    method Prepare(file: Option<Servers>)
      requires bindings == [] && aliases == [] && servers == Servers([], [])
      requires prodNodes < 0x7FFF_FFFF && producers < 0x8000_0000
      requires file.Some? ==>
        1 <= TotalInstances(AllServers(file.value)) && TotalInstances(file.value.producer) < 0x8000_0000
      modifies `servers, `prodNodes, `totalNodes, `perHost, `nextNode, `aliases, `bindings
      ensures Ready() && Sized(file, old(prodNodes))
      ensures totalNodes == InstancesFor(file, old(totalNodes), prodNodes)
      ensures bindings == HostsFor(file, old(perHost), networkName, totalNodes)
      ensures file.None? && old(perHost) == 0 ==>
        forall k :: 0 <= k < totalNodes ==> aliases[k] == if k == 0 then "bios" else NodeName(networkName, k - 1)
      ensures BiosCount() <= totalNodes && |NonBios(aliases)| == totalNodes - BiosCount()
    {
      hide Plan, NamesOf, NonBios, BiosHosts, TotalInstances, AllServers, LocalHost, NamesDiffer,
        NodeName;
      Initialize(file);
      assert [] + NamesOf(bindings) == NamesOf(bindings);
      LayoutIsReady();
      if perHost == 0 {
        forall k | 0 <= k < totalNodes
          ensures NamesOf(bindings)[k] == if k == 0 then "bios" else NodeName(networkName, k - 1)
        {
          HostsAre(None, 0, networkName, totalNodes, k);
        }
      }
    }

    /** Every instance has its node with its producers and its peers, and the schedule is what they sign for. */
    ghost predicate Launched(mesh: bool)
      reads this
    {
      && prodNodes >= 2 && producers < 0x8000_0000 && Walkable(aliases)
      && var plan := if mesh then MeshPlan(aliases) else RingPlan(aliases);
         && WiredAs(nodes, aliases, producers, prodNodes - 1, plan) && HasPeers(nodes, aliases, plan)
         && HoldProducers(nodes, aliases, producers, prodNodes - 1)
         && (forall i :: 0 <= i < |aliases| ==> aliases[i] in nodes)
         && schedule == ProducersOf(nodes, aliases)
    }

    /** The wiring step of `generate`. */
    method Wire(mesh: bool) returns (ok: bool)
      requires Ready() && schedule == []
      modifies `nodes, `schedule
      ensures ok <==> prodNodes >= 2
      ensures ok ==> Launched(mesh)
      ensures ok ==>
        && nodes.Keys == old(nodes.Keys) + (set name | name in aliases) && SetsOnly(old(nodes), nodes, aliases)
        && (WithoutEosio(schedule) == NameRun(0, producers)
            <==> |NonBios(aliases)| >= prodNodes - 1 || |NonBios(aliases)| >= producers)
    {
      hide Visits, NonBios, WiredAs, HasPeers, MeshPlan, RingPlan, Schedule, WithoutEosio, NameRun, NamesDiffer,
        NamesOf, SetsOnly, ProducersOf, ProducersAt;
      if mesh {
        ok := MakeMesh();
      } else {
        ok := MakeRing();
      }
      if ok {
        ghost var plan := if mesh then MeshPlan(aliases) else RingPlan(aliases);
        WiredHasPeers(nodes, aliases, producers, prodNodes - 1, plan);
        WiredHoldProducers(nodes, aliases, producers, prodNodes - 1, plan);
        ScheduleIsProducersOf(nodes, aliases, producers, prodNodes - 1, |aliases|);
        assert aliases[..|aliases|] == aliases;
        AllocationConserves(aliases, producers, prodNodes - 1);
        assert [] + Schedule(aliases, producers, prodNodes - 1, |aliases|)
            == Schedule(aliases, producers, prodNodes - 1, |aliases|);
      }
    }
  }

  /** A launch from the command line's sizes, or a server file's, to a wired network: `initialize`, then the
      ring or the mesh of `generate`. */
  method Generate(networkName: string, nodes: nat, pnodes: nat, producers: nat, perHost: int, file: Option<Servers>,
                  mesh: bool)
    returns (launcher: LauncherDef, ok: bool)
    requires pnodes < 0x7FFF_FFFF && producers < 0x8000_0000
    requires file.Some? ==>
      1 <= TotalInstances(AllServers(file.value)) && TotalInstances(file.value.producer) < 0x8000_0000
    ensures ok <==> AskedFor(file, pnodes, producers) >= 2
    ensures launcher.bindings ==
      HostsFor(file, perHost, networkName, InstancesFor(file, nodes, AskedFor(file, pnodes, producers)))
    ensures launcher.aliases == NamesOf(launcher.bindings) && NamesDiffer(launcher.aliases)
    ensures ok ==> launcher.nodes.Keys == (set name | name in launcher.aliases) && launcher.Launched(mesh)
    ensures ok ==> launcher.prodNodes == AskedFor(file, pnodes, producers) && launcher.producers == producers
    ensures ok ==>
      (WithoutEosio(launcher.schedule) == NameRun(0, producers) <==> EnoughNodes(file, pnodes, producers))
  {
    hide *;
    launcher := new LauncherDef(networkName, nodes, pnodes, producers, perHost);
    launcher.Prepare(file);
    launcher.ReadyNames();
    launcher.SizedIs(file, pnodes);
    launcher.FileDecides(file, pnodes);
    ok := launcher.Wire(mesh);
  }
}
