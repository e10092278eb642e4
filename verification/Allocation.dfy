/** How `bind_nodes` shares the producers out over the nodes. */
module Allocation {
  import opened Hosts
  import opened ProducerNames

  const EOSIO := "eosio"

  /** How many producers the `rank`-th non-bios node gets when `nonBios` nodes are to share them: the
      first `producers % nonBios` of these get one more. */
  function Load(producers: nat, nonBios: nat, rank: nat): nat
    requires nonBios >= 1
  {
    if rank >= nonBios then 0
    else producers / nonBios + if rank < producers % nonBios then 1 else 0
  }

  /** How many producers the nodes before it got. */
  function HandedBefore(producers: nat, nonBios: nat, rank: nat): nat
    requires nonBios >= 1
  {
    if rank == 0 then 0 else HandedBefore(producers, nonBios, rank - 1) + Load(producers, nonBios, rank - 1)
  }

  lemma {:induction false} HandedClosedForm(producers: nat, nonBios: nat, rank: nat)
    requires 1 <= nonBios && rank <= nonBios
    ensures var extra := producers % nonBios;
      HandedBefore(producers, nonBios, rank) == rank * (producers / nonBios) + if rank < extra then rank else extra
  {
    if rank > 0 {
      HandedClosedForm(producers, nonBios, rank - 1);
    }
  }

  lemma {:induction false} HandedTotal(producers: nat, nonBios: nat, rank: nat)
    requires 1 <= nonBios <= rank
    ensures HandedBefore(producers, nonBios, rank) == producers
  {
    if rank == nonBios {
      HandedClosedForm(producers, nonBios, rank);
      assert nonBios * (producers / nonBios) + producers % nonBios == producers;
    } else {
      HandedTotal(producers, nonBios, rank - 1);
    }
  }

  lemma {:induction false} HandedMonotone(producers: nat, nonBios: nat, low: nat, high: nat)
    requires 1 <= nonBios && low <= high
    ensures HandedBefore(producers, nonBios, low) <= HandedBefore(producers, nonBios, high)
  {
    if low < high {
      HandedMonotone(producers, nonBios, low, high - 1);
    }
  }

  lemma {:induction false} HandedAtMost(producers: nat, nonBios: nat, rank: nat)
    requires 1 <= nonBios
    ensures HandedBefore(producers, nonBios, rank) <= producers
  {
    HandedMonotone(producers, nonBios, rank, rank + nonBios);
    HandedTotal(producers, nonBios, rank + nonBios);
  }

  /** All producers are handed out exactly when enough nodes are there to take them. */
  lemma {:induction false} AllHandedOutIff(producers: nat, nonBios: nat, nodes: nat)
    requires 1 <= nonBios
    ensures HandedBefore(producers, nonBios, nodes) == producers
       <==> nodes >= nonBios || nodes >= producers
  {
    if nodes >= nonBios {
      HandedTotal(producers, nonBios, nodes);
    } else if producers < nonBios {
      FewProducers(producers, nonBios);
      HandedClosedForm(producers, nonBios, nodes);
      assert nodes * 0 == 0;
    } else {
      // the node after the last one would get at least one more
      HandedMonotone(producers, nonBios, nodes + 1, nonBios);
      HandedTotal(producers, nonBios, nonBios);
    }
  }

  lemma {:induction false} FewProducers(producers: nat, nonBios: nat)
    requires producers < nonBios
    ensures producers / nonBios == 0 && producers % nonBios == producers
  {
  }

  /** `count` consecutive producer names. */
  function NameRun(first: nat, count: nat): (s: seq<string>)
    requires first + count <= 0x1_0000_0000
    ensures |s| == count
  {
    seq(count, k requires 0 <= k < count => ProducerName(first + k))
  }

  lemma {:induction false} NameRunSplit(first: nat, a: nat, b: nat)
    requires first + a + b <= 0x1_0000_0000
    ensures NameRun(first, a + b) == NameRun(first, a) + NameRun(first + a, b)
  {
  }

  /** The producers of the node at place `i` among `names`. */
  function ProducersAt(names: seq<string>, producers: nat, nonBios: nat, i: nat): seq<string>
    requires i < |names| && nonBios >= 1 && producers < 0x1_0000_0000
  {
    if names[i] == BIOS then [EOSIO]
    else
      var rank := RankIn(names, i);
      HandedAtMost(producers, nonBios, rank + 1);
      NameRun(HandedBefore(producers, nonBios, rank), Load(producers, nonBios, rank))
  }

  /** The producer schedule: node by node. */
  function Schedule(names: seq<string>, producers: nat, nonBios: nat, n: nat): seq<string>
    requires n <= |names| && nonBios >= 1 && producers < 0x1_0000_0000
  {
    if n == 0 then []
    else Schedule(names, producers, nonBios, n - 1) + ProducersAt(names, producers, nonBios, n - 1)
  }

  function WithoutEosio(schedule: seq<string>): seq<string> {
    if schedule == [] then [] else
      WithoutEosio(schedule[..|schedule| - 1])
      + (if schedule[|schedule| - 1] == EOSIO then [] else [schedule[|schedule| - 1]])
  }

  lemma {:induction false} WithoutEosioConcat(a: seq<string>, b: seq<string>)
    ensures WithoutEosio(a + b) == WithoutEosio(a) + WithoutEosio(b)
    decreases |b|
  {
    if b == [] {
      assert a + b == a;
    } else {
      var front, last := b[..|b| - 1], b[|b| - 1];
      WithoutEosioConcat(a, front);
      assert (a + b)[..|a + b| - 1] == a + front;
    }
  }

  lemma {:induction false} NameRunAt(first: nat, count: nat, k: nat)
    requires first + count <= 0x1_0000_0000 && k < count
    ensures NameRun(first, count)[k] == ProducerName(first + k)
  {
    hide ProducerName;
  }

  lemma {:induction false} NotEosio(name: string)
    requires |name| == TOTAL_CHARS
    ensures WithoutEosio([name]) == [name]
  {
    assert [name][..0] == [];
    assert |EOSIO| == 5;
  }

  lemma {:induction false} NameRunIsPlain(first: nat, count: nat)
    requires first + count <= 0x1_0000_0000
    ensures WithoutEosio(NameRun(first, count)) == NameRun(first, count)
  {
    hide ProducerName;
    if count > 0 {
      NameRunIsPlain(first, count - 1);
      var last := NameRun(first + count - 1, 1);
      NameRunSplit(first, count - 1, 1);
      NotEosio(ProducerName(first + count - 1));
      assert last == [ProducerName(first + count - 1)];
      WithoutEosioConcat(NameRun(first, count - 1), last);
    }
  }

  /** Apart from "eosio" the schedule is one run of producer names, each once, in order. */
  lemma {:induction false} ScheduleIsRun(names: seq<string>, producers: nat, nonBios: nat, n: nat)
    requires n <= |names| && nonBios >= 1 && producers < 0x1_0000_0000
    ensures HandedBefore(producers, nonBios, RankIn(names, n)) <= producers
    ensures WithoutEosio(Schedule(names, producers, nonBios, n))
         == NameRun(0, HandedBefore(producers, nonBios, RankIn(names, n)))
  {
    hide *;
    HandedAtMost(producers, nonBios, RankIn(names, n));
    if n == 0 {
      EmptySchedule(names, producers, nonBios);
    } else {
      ScheduleIsRun(names, producers, nonBios, n - 1);
      WithoutEosioConcat(Schedule(names, producers, nonBios, n - 1), ProducersAt(names, producers, nonBios, n - 1));
      ScheduleStep(names, producers, nonBios, n - 1);
    }
  }

  lemma {:induction false} EmptySchedule(names: seq<string>, producers: nat, nonBios: nat)
    requires nonBios >= 1 && producers < 0x1_0000_0000
    ensures HandedBefore(producers, nonBios, RankIn(names, 0)) == 0
    ensures WithoutEosio(Schedule(names, producers, nonBios, 0)) == NameRun(0, 0)
  {
    assert names[..0] == [];
  }

  lemma {:induction false} ScheduleStep(names: seq<string>, producers: nat, nonBios: nat, i: nat)
    requires i < |names| && nonBios >= 1 && producers < 0x1_0000_0000
    ensures Schedule(names, producers, nonBios, i + 1)
         == Schedule(names, producers, nonBios, i) + ProducersAt(names, producers, nonBios, i)
    ensures
      var before := HandedBefore(producers, nonBios, RankIn(names, i));
      var after := HandedBefore(producers, nonBios, RankIn(names, i + 1));
      before <= after <= producers &&
      NameRun(0, before) + WithoutEosio(ProducersAt(names, producers, nonBios, i)) == NameRun(0, after)
  {
    hide *;
    ScheduleUnfold(names, producers, nonBios, i);
    RankInStep(names, i);
    if names[i] == BIOS {
      HandedAtMost(producers, nonBios, RankIn(names, i));
      EosioAlone();
      assert NameRun(0, HandedBefore(producers, nonBios, RankIn(names, i))) + []
          == NameRun(0, HandedBefore(producers, nonBios, RankIn(names, i)));
    } else {
      var rank := RankIn(names, i);
      HandedStep(producers, nonBios, rank);
      var before, load := HandedBefore(producers, nonBios, rank), Load(producers, nonBios, rank);
      NameRunIsPlain(before, load);
      NameRunSplit(0, before, load);
    }
  }

  lemma {:induction false} HandedStep(producers: nat, nonBios: nat, rank: nat)
    requires nonBios >= 1
    ensures HandedBefore(producers, nonBios, rank) + Load(producers, nonBios, rank)
         == HandedBefore(producers, nonBios, rank + 1) <= producers
  {
    HandedAtMost(producers, nonBios, rank + 1);
  }

  lemma {:induction false} ScheduleUnfold(names: seq<string>, producers: nat, nonBios: nat, i: nat)
    requires i < |names| && nonBios >= 1 && producers < 0x1_0000_0000
    ensures Schedule(names, producers, nonBios, i + 1)
         == Schedule(names, producers, nonBios, i) + ProducersAt(names, producers, nonBios, i)
    ensures names[i] == BIOS ==> ProducersAt(names, producers, nonBios, i) == [EOSIO]
    ensures names[i] != BIOS ==>
      var rank := RankIn(names, i);
      HandedBefore(producers, nonBios, rank) + Load(producers, nonBios, rank) <= producers &&
      ProducersAt(names, producers, nonBios, i)
      == NameRun(HandedBefore(producers, nonBios, rank), Load(producers, nonBios, rank))
  {
    hide RankIn, NameRun, HandedBefore, Load;
    HandedStep(producers, nonBios, RankIn(names, i));
  }

  lemma {:induction false} EosioAlone()
    ensures WithoutEosio([EOSIO]) == []
  {
    assert [EOSIO][..0] == [];
    assert WithoutEosio([]) == [];
  }

  /** With at least as many nodes as are to share them, exactly the producers 0 .. producers-1 are
      handed out, once each and in order. */
  lemma {:induction false} AllocationConserves(names: seq<string>, producers: nat, nonBios: nat)
    requires nonBios >= 1 && producers < 0x1_0000_0000
    ensures WithoutEosio(Schedule(names, producers, nonBios, |names|)) == NameRun(0, producers)
       <==> |NonBios(names)| >= nonBios || |NonBios(names)| >= producers
  {
    hide WithoutEosio, Schedule, HandedBefore, NonBios;
    ScheduleIsRun(names, producers, nonBios, |names|);
    assert names[..|names|] == names;
    AllHandedOutIff(producers, nonBios, |NonBios(names)|);
  }

  /** The first `nonBios` nodes other than bios get loads that differ by at most one, the larger ones
      first; the nodes after them get nothing. */
  lemma {:induction false} AllocationBalances(names: seq<string>, producers: nat, nonBios: nat, i: nat, j: nat)
    requires nonBios >= 1 && producers < 0x1_0000_0000
    requires i <= j < |names| && names[i] != BIOS && names[j] != BIOS
    ensures RankIn(names, j) < nonBios ==>
      |ProducersAt(names, producers, nonBios, j)| <= |ProducersAt(names, producers, nonBios, i)|
      <= |ProducersAt(names, producers, nonBios, j)| + 1
    ensures RankIn(names, j) >= nonBios ==> ProducersAt(names, producers, nonBios, j) == []
  {
    hide RankIn, HandedBefore, NameRun;
    RankInMonotone(names, i, j);
    HandedAtMost(producers, nonBios, RankIn(names, i) + 1);
    HandedAtMost(producers, nonBios, RankIn(names, j) + 1);
  }

  /** No name is handed out twice. */
  lemma {:induction false} RunNamesDiffer(first: nat, count: nat, i: nat, j: nat)
    requires first + count <= 0x1_0000_0000 && i < j < count
    ensures NameRun(first, count)[i] != NameRun(first, count)[j]
  {
    hide *;
    NameRunAt(first, count, i);
    NameRunAt(first, count, j);
    NamesAreDistinct(first + i, first + j);
  }
}
