/** Node names, and how the instances of a network are spread over hosts. */
module Hosts {

  const BIOS := "bios"

  datatype EosdDef = EosdDef(name: string)

  datatype HostDef = HostDef(hostName: string, publicName: string, instances: seq<EosdDef>)

  datatype TnNode = TnNode(name: string, peers: seq<string>, producers: seq<string>)

  datatype ServerDef = ServerDef(ipaddr: string, name: string, hasBios: bool, instances: nat)

  datatype Servers = Servers(producer: seq<ServerDef>, nonprod: seq<ServerDef>)

  // ----- names

  function DigitChar(d: nat): char
    requires d < 10
  {
    '0' + d as char
  }

  /** The decimal digits of `n`. */
  function Decimal(n: nat): (s: string)
    ensures s != ""
  {
    if n < 10 then [DigitChar(n)] else Decimal(n / 10) + [DigitChar(n % 10)]
  }

  /** At least two digits. */
  function Dex(n: nat): (s: string)
    ensures s != ""
  {
    (if n < 10 then "0" else "") + Decimal(n)
  }

  function NodeName(network: string, n: nat): string { network + Dex(n) }

  function DigitValue(c: char): nat { if '0' <= c <= '9' then (c - '0') as nat else 0 }

  function NumberOf(s: string): nat {
    if s == "" then 0 else 10 * NumberOf(s[..|s| - 1]) + DigitValue(s[|s| - 1])
  }

  lemma {:induction false} DecimalRoundTrip(n: nat)
    ensures NumberOf(Decimal(n)) == n
    ensures '0' <= Decimal(n)[|Decimal(n)| - 1] <= '9'
  {
    var s := Decimal(n);
    if n < 10 {
      assert s[..0] == "";
    } else {
      DecimalRoundTrip(n / 10);
      assert s[..|s| - 1] == Decimal(n / 10);
    }
  }

  lemma {:induction false} DexRoundTrip(n: nat)
    ensures NumberOf(Dex(n)) == n
    ensures '0' <= Dex(n)[|Dex(n)| - 1] <= '9'
  {
    DecimalRoundTrip(n);
    if n < 10 {
      assert Dex(n) == ['0', DigitChar(n)];
      assert Dex(n)[..1] == ['0'];
      assert ['0'][..0] == "";
      assert NumberOf("") == 0 && NumberOf(['0']) == 0;
    } else {
      assert Dex(n) == Decimal(n);
    }
  }

  predicate AllDigits(s: string) {
    forall k :: 0 <= k < |s| ==> '0' <= s[k] <= '9'
  }

  lemma {:induction false} DecimalReads(n: nat)
    ensures AllDigits(Decimal(n)) && NumberOf(Decimal(n)) == n
    ensures Decimal(n)[0] == '0' ==> n == 0
    ensures |Decimal(n)| == 1 <==> n < 10
  {
    DecimalRoundTrip(n);
    if n >= 10 {
      DecimalReads(n / 10);
    }
  }

  /** `s` is the number `n` in at least two decimal digits, with a leading zero only to make two. */
  predicate IsNumeral(s: string, n: nat) {
    |s| >= 2 && AllDigits(s) && NumberOf(s) == n && (s[0] == '0' ==> |s| == 2)
  }

  lemma {:induction false} DexReads(n: nat)
    ensures IsNumeral(Dex(n), n)
  {
    DecimalReads(n);
    DexRoundTrip(n);
  }

  /** A node name is the network's name and the node's number. */
  lemma {:induction false} NodeNameReads(network: string, n: nat)
    ensures var name := NodeName(network, n);
      |name| >= |network| && name[..|network|] == network && IsNumeral(name[|network|..], n)
  {
    DexReads(n);
    assert NodeName(network, n)[|network|..] == Dex(n);
  }

  /** Different numbers give different names, and none of them is "bios". */
  lemma {:induction false} NodeNamesDiffer(network: string, a: nat, b: nat)
    ensures a != b ==> NodeName(network, a) != NodeName(network, b)
    ensures NodeName(network, a) != BIOS
  {
    DexRoundTrip(a);
    DexRoundTrip(b);
    var x, y := NodeName(network, a), NodeName(network, b);
    assert x[|network|..] == Dex(a) && y[|network|..] == Dex(b);
    assert x[|x| - 1] == Dex(a)[|Dex(a)| - 1];
    assert BIOS[|BIOS| - 1] == 's';
  }

  /** `count` names with consecutive numbers. */
  function Numbered(network: string, next: nat, count: nat): (s: seq<string>)
    ensures |s| == count
    decreases count
  {
    if count == 0 then [] else [NodeName(network, next)] + Numbered(network, next + 1, count - 1)
  }

  lemma {:induction false} NumberedAt(network: string, next: nat, count: nat, j: nat)
    requires j < count
    ensures Numbered(network, next, count)[j] == NodeName(network, next + j)
    decreases count
  {
    if j > 0 {
      NumberedAt(network, next + 1, count - 1, j - 1);
    }
  }

  lemma {:induction false} NumberedSplit(network: string, next: nat, a: nat, b: nat)
    ensures Numbered(network, next, a + b) == Numbered(network, next, a) + Numbered(network, next + a, b)
    decreases a
  {
    if a > 0 {
      NumberedSplit(network, next + 1, a - 1, b);
    }
  }

  // ----- instances of hosts

  function NamesIn(instances: seq<EosdDef>): (s: seq<string>)
    ensures |s| == |instances|
    ensures forall j :: 0 <= j < |s| ==> s[j] == instances[j].name
  {
    seq(|instances|, j requires 0 <= j < |instances| => instances[j].name)
  }

  /** All instance names, host by host: what `aliases` must be. */
  function NamesOf(bindings: seq<HostDef>): seq<string> {
    if bindings == [] then [] else NamesIn(bindings[0].instances) + NamesOf(bindings[1..])
  }

  lemma {:induction false} NamesOfAppend(bindings: seq<HostDef>, host: HostDef)
    ensures NamesOf(bindings + [host]) == NamesOf(bindings) + NamesIn(host.instances)
  {
    if bindings == [] {
      assert [] + [host] == [host];
      assert [host][1..] == [];
    } else {
      NamesOfAppend(bindings[1..], host);
      assert (bindings + [host])[1..] == bindings[1..] + [host];
    }
  }

  // ----- the names other than bios

  function NonBios(names: seq<string>): seq<string> {
    if names == [] then []
    else (if names[0] == BIOS then [] else [names[0]]) + NonBios(names[1..])
  }

  lemma {:induction false} NonBiosConcat(a: seq<string>, b: seq<string>)
    ensures NonBios(a + b) == NonBios(a) + NonBios(b)
  {
    if a == [] {
      assert a + b == b;
    } else {
      assert (a + b)[1..] == a[1..] + b;
      NonBiosConcat(a[1..], b);
    }
  }

  /** How many of the names before `i` are not bios. */
  function RankIn(names: seq<string>, i: nat): nat
    requires i <= |names|
  {
    |NonBios(names[..i])|
  }

  lemma {:induction false} RankInStep(names: seq<string>, i: nat)
    requires i < |names|
    ensures RankIn(names, i + 1) == RankIn(names, i) + if names[i] == BIOS then 0 else 1
    ensures RankIn(names, i + 1) <= |NonBios(names)|
    ensures names[i] != BIOS ==> NonBios(names)[RankIn(names, i)] == names[i]
  {
    assert names[..i + 1] == names[..i] + [names[i]];
    NonBiosConcat(names[..i], [names[i]]);
    assert names == names[..i + 1] + names[i + 1..];
    NonBiosConcat(names[..i + 1], names[i + 1..]);
    assert [names[i]][1..] == [];
  }

  lemma {:induction false} RankInMonotone(names: seq<string>, i: nat, j: nat)
    requires i <= j <= |names|
    ensures RankIn(names, i) <= RankIn(names, j)
  {
    if i < j {
      RankInMonotone(names, i, j - 1);
      RankInStep(names, j - 1);
    }
  }

  function Named(names: seq<string>): (s: seq<EosdDef>)
    ensures NamesIn(s) == names
  {
    seq(|names|, j requires 0 <= j < |names| => EosdDef(names[j]))
  }

  /** The names of a host's instances: bios first if it has one, then the next numbers. */
  function InstanceNames(network: string, next: nat, hasBios: bool, count: nat): (s: seq<string>)
    ensures |s| == count
  {
    if count == 0 then [] else
      [if hasBios then BIOS else NodeName(network, next)]
      + Numbered(network, if hasBios then next else next + 1, count - 1)
  }

  /** The next free number after them. */
  function NextAfter(next: nat, hasBios: bool, count: nat): nat
    requires count >= 1
  {
    if hasBios then next + count - 1 else next + count
  }

  // ----- the plan of `define_network` for a server file

  /** The server behind the `index`-th host: producers, then non-producers, then made-up ones. */
  function ServerFor(servers: Servers, index: nat): ServerDef {
    var p, q := |servers.producer|, |servers.nonprod|;
    if index < p then servers.producer[index]
    else if index - p < q then servers.nonprod[index - p]
    else ServerDef("pseudo_" + Dex(index), "pseudo_" + Dex(index), false, 1)
  }

  /** How many of `left` instances a server takes; one that asks for none takes them all. */
  function Taken(instances: int, left: nat): nat {
    if instances <= 0 || instances > left then left else instances
  }

  /** The host that server `s` becomes when `left` instances and the numbers from `next` on are left. */
  function HostOf(s: ServerDef, network: string, left: nat, next: nat): (host: HostDef)
    requires left >= 1
    ensures host.hostName == s.ipaddr && host.publicName == s.name
    ensures |host.instances| == Taken(s.instances, left)
    ensures NamesIn(host.instances) == InstanceNames(network, next, s.hasBios, Taken(s.instances, left))
  {
    HostDef(s.ipaddr, s.name, Named(InstanceNames(network, next, s.hasBios, Taken(s.instances, left))))
  }

  function NextFrom(s: ServerDef, left: nat, next: nat): nat
    requires left >= 1
  {
    NextAfter(next, s.hasBios, Taken(s.instances, left))
  }

  function Plan(servers: Servers, network: string, index: nat, left: nat, next: nat): seq<HostDef>
    decreases left
  {
    if left == 0 then [] else
      var s := ServerFor(servers, index);
      [HostOf(s, network, left, next)]
      + Plan(servers, network, index + 1, left - Taken(s.instances, left), NextFrom(s, left, next))
  }

  lemma {:induction false} PlanStep(servers: Servers, network: string, index: nat, left: nat, next: nat)
    requires left >= 1
    ensures var s := ServerFor(servers, index);
      && 1 <= Taken(s.instances, left) <= left
      && Plan(servers, network, index, left, next)
      == [HostOf(s, network, left, next)]
       + Plan(servers, network, index + 1, left - Taken(s.instances, left), NextFrom(s, left, next))
  {
  }

  function TotalInstances(list: seq<ServerDef>): nat {
    if list == [] then 0 else TotalInstances(list[..|list| - 1]) + list[|list| - 1].instances
  }

  function AllServers(servers: Servers): seq<ServerDef> { servers.producer + servers.nonprod }

  lemma {:induction false} TotalInstancesStep(list: seq<ServerDef>, index: nat)
    requires index < |list|
    ensures TotalInstances(list[index..]) == list[index].instances + TotalInstances(list[index + 1..])
    decreases |list|
  {
    var front, last := list[..|list| - 1], list[|list| - 1];
    assert list[index..][..|list| - index - 1] == front[index..];
    if index == |list| - 1 {
      assert list[index..] == [last];
      assert list[index + 1..] == [];
      assert [last][..0] == [];
      assert TotalInstances([last]) == TotalInstances([]) + last.instances;
    } else {
      TotalInstancesStep(front, index);
      assert list[index + 1..][..|list| - index - 2] == front[index + 1..];
    }
  }

  /** `host` is `server` with exactly its declared number of instances. */
  predicate Matches(host: HostDef, server: ServerDef) {
    host.hostName == server.ipaddr && host.publicName == server.name && |host.instances| == server.instances
  }

  /** One binding for each server from `index` on, in order, with its declared instances. */
  predicate IsPartition(plan: seq<HostDef>, list: seq<ServerDef>) {
    |plan| == |list| && forall j :: 0 <= j < |plan| ==> Matches(plan[j], list[j])
  }

  lemma {:induction false} PartitionCons(host: HostDef, plan: seq<HostDef>, server: ServerDef, list: seq<ServerDef>)
    requires Matches(host, server) && IsPartition(plan, list)
    ensures IsPartition([host] + plan, [server] + list)
  {
  }

  lemma {:induction false} PlanPartitions(servers: Servers, network: string, index: nat, next: nat)
    requires index <= |AllServers(servers)|
    requires forall j :: index <= j < |AllServers(servers)| ==> AllServers(servers)[j].instances >= 1
    ensures var list := AllServers(servers)[index..];
      IsPartition(Plan(servers, network, index, TotalInstances(list), next), list)
    decreases |AllServers(servers)| - index
  {
    hide Plan, AllServers, ServerFor, TotalInstances, Taken, NextFrom, HostOf, IsPartition, NamesIn, InstanceNames;
    var all := AllServers(servers);
    if index < |all| {
      var s := all[index];
      ServerForIs(servers, index);
      assert all[index..] == [s] + all[index + 1..];
      TotalInstancesStep(all, index);
      var left := TotalInstances(all[index..]);
      TakenAll(s.instances, left);
      PlanStep(servers, network, index, left, next);
      var up := NextFrom(s, left, next);
      PlanPartitions(servers, network, index + 1, up);
      var host := HostOf(s, network, left, next);
      PartitionCons(host, Plan(servers, network, index + 1, left - s.instances, up), s, all[index + 1..]);
    } else {
      assert all[index..] == [];
      EmptyPlan(servers, network, index, next);
    }
  }

  lemma {:induction false} ServerForIs(servers: Servers, index: nat)
    requires index < |AllServers(servers)|
    ensures ServerFor(servers, index) == AllServers(servers)[index]
  {
  }

  lemma {:induction false} TakenAll(instances: nat, left: nat)
    requires 1 <= instances <= left
    ensures Taken(instances, left) == instances
  {
  }

  lemma {:induction false} EmptyPlan(servers: Servers, network: string, index: nat, next: nat)
    ensures Plan(servers, network, index, 0, next) == []
    ensures TotalInstances([]) == 0 && IsPartition([], [])
    ensures NonBios(NamesOf([])) == Numbered(network, next, 0)
  {
  }

  lemma {:induction false} PlanNeverEmpty(servers: Servers, network: string, index: nat, left: nat, next: nat)
    ensures forall j :: 0 <= j < |Plan(servers, network, index, left, next)| ==>
      |Plan(servers, network, index, left, next)[j].instances| >= 1
    decreases left
  {
    hide *;
    if left == 0 {
      EmptyPlan(servers, network, index, next);
    } else {
      var s := ServerFor(servers, index);
      PlanStep(servers, network, index, left, next);
      PlanNeverEmpty(servers, network, index + 1, left - Taken(s.instances, left), NextFrom(s, left, next));
    }
  }

  /** The host at place `j` is that of the server at place `j`, with its declared number of instances; only
      the last one may hold fewer, or, if it declares none, whatever is left. */
  lemma {:induction false} PlanSizes(servers: Servers, network: string, index: nat, left: nat, next: nat, j: nat)
    requires j < |Plan(servers, network, index, left, next)|
    ensures var plan, s := Plan(servers, network, index, left, next), ServerFor(servers, index + j);
      && plan[j].hostName == s.ipaddr && plan[j].publicName == s.name
      && |plan[j].instances| >= 1
      && (s.instances >= 1 ==> |plan[j].instances| <= s.instances)
      && (j + 1 < |plan| ==> |plan[j].instances| == s.instances)
    decreases left
  {
    hide Plan, ServerFor, InstanceNames, NamesIn;
    if left == 0 {
      EmptyPlan(servers, network, index, next);
    } else {
      var s := ServerFor(servers, index);
      var rest := left - Taken(s.instances, left);
      PlanStep(servers, network, index, left, next);
      if j > 0 {
        PlanSizes(servers, network, index + 1, rest, NextFrom(s, left, next), j - 1);
      } else if rest == 0 {
        EmptyPlan(servers, network, index + 1, NextFrom(s, left, next));
      }
    }
  }

  /** Beyond the file the servers are made up: numbered from the size of the file on, one instance, no bios. */
  lemma {:induction false} MadeUpServer(servers: Servers, index: nat)
    requires index >= |AllServers(servers)|
    ensures var s := ServerFor(servers, index);
      && s.ipaddr == s.name && s.instances == 1 && !s.hasBios
      && |s.name| >= 7 && s.name[..7] == "pseudo_" && IsNumeral(s.name[7..], index)
  {
    DexReads(index);
    assert ServerFor(servers, index).name[7..] == Dex(index);
  }

  /** A server file is spread as declared exactly when every server in it declares an instance. */
  lemma {:induction false} PartitionIff(servers: Servers, network: string, next: nat)
    ensures var all := AllServers(servers);
      IsPartition(Plan(servers, network, 0, TotalInstances(all), next), all)
      <==> forall j :: 0 <= j < |all| ==> all[j].instances >= 1
  {
    var all := AllServers(servers);
    assert all[0..] == all;
    var plan := Plan(servers, network, 0, TotalInstances(all), next);
    if forall j :: 0 <= j < |all| ==> all[j].instances >= 1 {
      PlanPartitions(servers, network, 0, next);
    }
    if IsPartition(plan, all) {
      PlanNeverEmpty(servers, network, 0, TotalInstances(all), next);
      forall j | 0 <= j < |all|
        ensures all[j].instances >= 1
      {
        assert Matches(plan[j], all[j]) && |plan[j].instances| >= 1;
      }
    }
  }

  /** Without a server file the number given with `--per-host` is not used: each instance gets a host of
      its own, and none of them is bios. */
  lemma {:induction false} PseudoHostsHoldOne(network: string, index: nat, left: nat, next: nat, j: nat)
    requires j < left
    ensures var plan := Plan(Servers([], []), network, index, left, next);
      |plan| == left && NamesIn(plan[j].instances) == [NodeName(network, next + j)]
    decreases left
  {
    hide NodeName, NamesIn, Named, Dex;
    var servers := Servers([], []);
    PlanStep(servers, network, index, left, next);
    if j > 0 {
      PseudoHostsHoldOne(network, index + 1, left - 1, next + 1, j - 1);
    } else if left > 1 {
      PseudoHostsHoldOne(network, index + 1, left - 1, next + 1, 0);
    }
  }

  // ----- what the names say

  /** Among a host's instances the name "bios" is the first one of a bios host and no other. */
  lemma {:induction false} BiosIsFirst(network: string, next: nat, hasBios: bool, count: nat, j: nat)
    requires j < count
    ensures InstanceNames(network, next, hasBios, count)[j] == BIOS <==> hasBios && j == 0
  {
    hide NodeName, Numbered, NamesIn, Named;
    NodeNamesDiffer(network, next, next);
    if j > 0 {
      var first := if hasBios then next else next + 1;
      NumberedAt(network, first, count - 1, j - 1);
      NodeNamesDiffer(network, first + j - 1, next);
    }
  }

  /** The bios name occurs in the plan exactly as the first instance of each bios host. */
  lemma {:induction false} PlanBios(servers: Servers, network: string, index: nat, left: nat, next: nat, host: nat,
                                    j: nat)
    requires host < |Plan(servers, network, index, left, next)|
    requires j < |Plan(servers, network, index, left, next)[host].instances|
    ensures Plan(servers, network, index, left, next)[host].instances[j].name == BIOS
       <==> ServerFor(servers, index + host).hasBios && j == 0
    decreases left
  {
    hide *;
    if left == 0 {
      EmptyPlan(servers, network, index, next);
      return;
    }
    var s := ServerFor(servers, index);
    PlanStep(servers, network, index, left, next);
    if host > 0 {
      PlanBios(servers, network, index + 1, left - Taken(s.instances, left), NextFrom(s, left, next), host - 1, j);
    } else {
      var names := NamesIn(HostOf(s, network, left, next).instances);
      BiosIsFirst(network, next, s.hasBios, Taken(s.instances, left), j);
    }
  }

  lemma {:induction false} NonBiosNumbered(network: string, next: nat, count: nat)
    ensures NonBios(Numbered(network, next, count)) == Numbered(network, next, count)
    decreases count
  {
    if count > 0 {
      NodeNamesDiffer(network, next, next);
      NonBiosNumbered(network, next + 1, count - 1);
      var names := Numbered(network, next, count);
      assert names[1..] == Numbered(network, next + 1, count - 1);
    }
  }

  lemma {:induction false} NonBiosInstances(network: string, next: nat, hasBios: bool, count: nat)
    requires count >= 1
    ensures NonBios(InstanceNames(network, next, hasBios, count))
         == Numbered(network, next, NextAfter(next, hasBios, count) - next)
  {
    hide *;
    var names, first := InstanceNames(network, next, hasBios, count), if hasBios then next else next + 1;
    InstanceNamesParts(network, next, hasBios, count);
    NodeNamesDiffer(network, next, next);
    NonBiosNumbered(network, first, count - 1);
    NonBiosCons(names);
    if !hasBios {
      NumberedCons(network, next, count);
    }
  }

  lemma {:induction false} InstanceNamesParts(network: string, next: nat, hasBios: bool, count: nat)
    requires count >= 1
    ensures var names := InstanceNames(network, next, hasBios, count);
      && names[0] == (if hasBios then BIOS else NodeName(network, next))
      && names[1..] == Numbered(network, if hasBios then next else next + 1, count - 1)
    ensures NextAfter(next, hasBios, count) - next == if hasBios then count - 1 else count
  {
  }

  lemma {:induction false} NonBiosCons(names: seq<string>)
    requires names != []
    ensures NonBios(names) == (if names[0] == BIOS then [] else [names[0]]) + NonBios(names[1..])
  {
  }

  lemma {:induction false} NumberedCons(network: string, next: nat, count: nat)
    requires count >= 1
    ensures Numbered(network, next, count) == [NodeName(network, next)] + Numbered(network, next + 1, count - 1)
  {
  }

  lemma {:induction false} NextFromUp(s: ServerDef, left: nat, next: nat)
    requires left >= 1
    ensures NextFrom(s, left, next) == NextAfter(next, s.hasBios, Taken(s.instances, left)) >= next
  {
  }

  lemma {:induction false} NamesOfCons(host: HostDef, tail: seq<HostDef>)
    ensures NamesOf([host] + tail) == NamesIn(host.instances) + NamesOf(tail)
  {
    assert ([host] + tail)[1..] == tail;
  }

  /** Numbered names never repeat: two places with the same name other than bios are one place. */
  lemma {:induction false} NumberedNamesDiffer(names: seq<string>, network: string, next: nat, count: nat, i: nat,
                                               j: nat)
    requires NonBios(names) == Numbered(network, next, count)
    requires i < j < |names| && names[i] != BIOS && names[j] != BIOS
    ensures names[i] != names[j]
  {
    RankInStep(names, i);
    RankInStep(names, j);
    RankInMonotone(names, i + 1, j);
    NumberedAt(network, next, count, RankIn(names, i));
    NumberedAt(network, next, count, RankIn(names, j));
    NodeNamesDiffer(network, next + RankIn(names, i), next + RankIn(names, j));
  }

  /** The place of an instance in the list of all names. */
  lemma {:induction false} NamesOfAt(bindings: seq<HostDef>, host: nat)
    requires host < |bindings|
    ensures NamesOf(bindings[..host + 1]) == NamesOf(bindings[..host]) + NamesIn(bindings[host].instances)
    ensures NamesOf(bindings[..host + 1]) <= NamesOf(bindings)
  {
    assert bindings[..host + 1] == bindings[..host] + [bindings[host]];
    NamesOfAppend(bindings[..host], bindings[host]);
    NamesOfPrefix(bindings, host + 1);
  }

  lemma {:induction false} NamesOfPrefix(bindings: seq<HostDef>, n: nat)
    requires n <= |bindings|
    ensures NamesOf(bindings[..n]) <= NamesOf(bindings)
    decreases |bindings| - n
  {
    if n < |bindings| {
      assert bindings[..n + 1] == bindings[..n] + [bindings[n]];
      NamesOfAppend(bindings[..n], bindings[n]);
      NamesOfPrefix(bindings, n + 1);
    } else {
      assert bindings[..n] == bindings;
    }
  }

  // ----- the loops of `define_network`

  /** The single host of a local network, bios first. */
  function LocalHost(network: string, total: nat, next: nat): HostDef {
    HostDef("", "", Named(InstanceNames(network, next, true, total)))
  }

  /** A local host has bios first, and then the nodes by number. */
  lemma {:induction false} LocalNamesAre(network: string, total: nat, next: nat, k: nat)
    requires k < total
    ensures var names := NamesIn(LocalHost(network, total, next).instances);
      |names| == total && names[k] == if k == 0 then "bios" else NodeName(network, next + k - 1)
  {
    hide NodeName, Numbered, Named, NamesIn;
    if k > 0 {
      NumberedAt(network, next, total - 1, k - 1);
      var names := InstanceNames(network, next, true, total);
      assert names[1..][k - 1] == names[k];
      assert names[1..] == Numbered(network, next, total - 1);
    }
  }

  lemma {:induction false} LocalNamesGrow(network: string, next: nat, count: nat)
    ensures InstanceNames(network, next, true, count + 1)
         == InstanceNames(network, next, true, count) + [if count == 0 then BIOS else NodeName(network,
             next + count - 1)]
  {
    hide NodeName;
    if count > 0 {
      NumberedSplit(network, next, count - 1, 1);
      assert Numbered(network, next + count - 1, 1) == [NodeName(network, next + count - 1)];
    }
  }

  /** How many of `left` instances still go to the open host when its counter shows `phCount`. */
  function StillToCome(phCount: int, left: nat): nat {
    if phCount < 0 || phCount > left then left else phCount
  }

  /** The plan as the loop over a server file sees it with a host open: what is done, the open host when
      it is full, and the plan for the rest. */
  ghost predicate PlanState(plan: seq<HostDef>, servers: Servers, network: string, done: seq<HostDef>, host: HostDef,
                            phCount: int, hostNdx: nat, left: nat, next: nat)
  {
    var m := StillToCome(phCount, left);
    plan == done + [host.(instances := host.instances + Named(Numbered(network, next, m)))]
          + Plan(servers, network, hostNdx, left - m, next + m)
  }

  /** Opening the next host, with its first instance. */
  lemma {:induction false} OpenNext(plan: seq<HostDef>, servers: Servers, network: string, done: seq<HostDef>,
                                    hostNdx: nat, left: nat, next: nat, first: EosdDef)
    requires left >= 1 && plan == done + Plan(servers, network, hostNdx, left, next)
    requires first.name == if ServerFor(servers, hostNdx).hasBios then BIOS else NodeName(network, next)
    ensures var s := ServerFor(servers, hostNdx);
      PlanState(plan, servers, network, done, HostDef(s.ipaddr, s.name, [first]), s.instances - 1, hostNdx + 1,
                left - 1, if s.hasBios then next else next + 1)
  {
    var s := ServerFor(servers, hostNdx);
    var k := Taken(s.instances, left);
    var next' := if s.hasBios then next else next + 1;
    hide Plan, Numbered, ServerFor, NodeName;
    PlanStep(servers, network, hostNdx, left, next);
    assert StillToCome(s.instances - 1, left - 1) == k - 1;
    var host := HostDef(s.ipaddr, s.name, [first]);
    NamedCons(first.name, Numbered(network, next', k - 1));
    var rest := Named(Numbered(network, next', k - 1));
    assert HostOf(s, network, left, next) == host.(instances := host.instances + rest);
    assert NextFrom(s, left, next) == next' + (k - 1);
  }

  lemma {:induction false} NamedCons(name: string, names: seq<string>)
    ensures Named([name] + names) == [EosdDef(name)] + Named(names)
  {
  }

  /** One more instance for the open host. */
  lemma {:induction false} FillHost(plan: seq<HostDef>, servers: Servers, network: string, done: seq<HostDef>,
                                    host: HostDef,
                                    phCount: int, hostNdx: nat, left: nat, next: nat)
    requires left >= 1 && phCount != 0
    requires PlanState(plan, servers, network, done, host, phCount, hostNdx, left, next)
    ensures PlanState(plan, servers, network, done,
                      host.(instances := host.instances + [EosdDef(NodeName(network, next))]),
                      phCount - 1, hostNdx, left - 1, next + 1)
  {
    hide Plan, NodeName;
    var m := StillToCome(phCount, left);
    NumberedCons(network, next, m);
    NamedCons(NodeName(network, next), Numbered(network, next + 1, m - 1));
    var rest := Named(Numbered(network, next + 1, m - 1));
    var one := [EosdDef(NodeName(network, next))];
    assert host.instances + (one + rest) == (host.instances + one) + rest;
  }

  /** A full host is closed: what is planned is what is done, that host, and the plan for the rest. */
  lemma {:induction false} CloseHost(plan: seq<HostDef>, servers: Servers, network: string, done: seq<HostDef>,
                                     host: HostDef,
                                     phCount: int, hostNdx: nat, left: nat, next: nat)
    requires phCount == 0 || left == 0
    requires PlanState(plan, servers, network, done, host, phCount, hostNdx, left, next)
    ensures plan == done + [host] + Plan(servers, network, hostNdx, left, next)
    ensures left == 0 ==> plan == done + [host]
  {
    assert host.instances + Named(Numbered(network, next, 0)) == host.instances;
  }
}
