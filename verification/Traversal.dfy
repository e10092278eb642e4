/** Walking the node indices in a circle while skipping those of bios, and where the walk's steps lead. */
module Traversal {
  import opened Hosts

  /** The first index from `i` on that is not bios, or the number of names. */
  function PlainFrom(names: seq<string>, i: nat): (k: nat)
    requires i <= |names|
    ensures i <= k <= |names| && (k < |names| ==> names[k] != BIOS)
    ensures forall m :: i <= m < k ==> names[m] == BIOS
    decreases |names| - i
  {
    if i == |names| || names[i] != BIOS then i else PlainFrom(names, i + 1)
  }

  /** `start_ndx` looks at the first name only. */
  function Start(names: seq<string>): nat
    requires names != []
  {
    if names[0] == BIOS then 1 else 0
  }

  /** The next index other than bios, and whether the walk wrapped around to get there. */
  function NextOf(names: seq<string>, i: nat): (nat, bool)
    requires i < |names|
  {
    var k := PlainFrom(names, i + 1);
    if k == |names| then (Start(names), true) else (k, false)
  }

  /** There is an index to start at: anything but a lone bios. */
  predicate Walkable(names: seq<string>) { names != [] && Start(names) < |names| }

  /** The walk starts at an index that is not bios: not both of the first two names are. */
  predicate StartsPlain(names: seq<string>) { Walkable(names) && names[Start(names)] != BIOS }

  // ----- the order of the walk

  /** The indices from `i` on that are not bios. */
  function Plains(names: seq<string>, i: nat): seq<nat>
    requires i <= |names|
    decreases |names| - i
  {
    var k := PlainFrom(names, i);
    if k == |names| then [] else [k] + Plains(names, k + 1)
  }

  /** The indices the walk visits. */
  function Visits(names: seq<string>): (v: seq<nat>)
    requires Walkable(names)
    ensures v != []
  {
    [Start(names)] + Plains(names, Start(names) + 1)
  }

  lemma {:induction false} PlainsAre(names: seq<string>, i: nat, r: nat)
    requires i <= |names|
    ensures r < |Plains(names, i)| ==> i <= Plains(names, i)[r] < |names| && names[Plains(names, i)[r]] != BIOS
    ensures r + 1 < |Plains(names, i)| ==> Plains(names, i)[r] < Plains(names, i)[r + 1]
    ensures r < |Plains(names, i)| ==>
      PlainFrom(names, Plains(names, i)[r] + 1)
      == if r + 1 < |Plains(names, i)| then Plains(names, i)[r + 1] else |names|
    decreases |names| - i
  {
    var k := PlainFrom(names, i);
    if k < |names| {
      PlainsAre(names, k + 1, if r == 0 then 0 else r - 1);
    }
  }

  lemma {:induction false} PlainsFirst(names: seq<string>, i: nat)
    requires i <= |names|
    ensures if PlainFrom(names, i) == |names| then Plains(names, i) == []
            else Plains(names, i) != [] && Plains(names, i)[0] == PlainFrom(names, i)
  {
  }

  lemma {:induction false} PlainIsThere(names: seq<string>, i: nat, x: nat)
    requires i <= x < |names| && names[x] != BIOS
    ensures x in Plains(names, i)
    decreases |names| - i
  {
    var k := PlainFrom(names, i);
    if k < x {
      PlainIsThere(names, k + 1, x);
    }
  }

  /** One step of the walk goes to the next visit, and from the last one, saying so, to the first. */
  lemma {:induction false} VisitNext(names: seq<string>, r: nat)
    requires Walkable(names) && r < |Visits(names)|
    ensures Visits(names)[r] < |names|
    ensures NextOf(names, Visits(names)[r])
         == if r + 1 < |Visits(names)| then (Visits(names)[r + 1], false) else (Visits(names)[0], true)
  {
    var s := Start(names);
    var p := Plains(names, s + 1);
    if r > 0 {
      PlainsAre(names, s + 1, r - 1);
      PlainsAre(names, s + 1, r);
      assert Visits(names)[r] == p[r - 1];
    } else {
      PlainsFirst(names, s + 1);
    }
  }

  /** The walk visits, in increasing order, every index that is not bios and else at most where it starts. */
  lemma {:induction false} VisitsIncrease(names: seq<string>, q: nat, r: nat)
    requires Walkable(names) && q < r < |Visits(names)|
    ensures Visits(names)[q] < Visits(names)[r] < |names| && names[Visits(names)[r]] != BIOS
    decreases r
  {
    PlainsAre(names, Start(names) + 1, r - 1);
    if r >= 2 {
      PlainsAre(names, Start(names) + 1, r - 2);
    }
    if q < r - 1 {
      VisitsIncrease(names, q, r - 1);
    }
  }

  lemma {:induction false} VisitedIff(names: seq<string>, x: nat)
    requires Walkable(names)
    ensures x in Visits(names) <==> x < |names| && (names[x] != BIOS || x == Start(names))
  {
    var s, v := Start(names), Visits(names);
    if x in v {
      var r :| 0 <= r < |v| && v[r] == x;
      VisitNext(names, r);
      if r > 0 {
        VisitsIncrease(names, 0, r);
      }
    }
    if s < x < |names| && names[x] != BIOS {
      PlainIsThere(names, s + 1, x);
    }
  }

  lemma {:induction false} PlainsBounded(names: seq<string>, i: nat)
    requires i <= |names|
    ensures |Plains(names, i)| <= |names| - i
    decreases |names| - i
  {
    var k := PlainFrom(names, i);
    if k < |names| {
      PlainsBounded(names, k + 1);
    }
  }

  lemma {:induction false} VisitsBounded(names: seq<string>)
    requires Walkable(names)
    ensures 1 <= |Visits(names)| <= |names|
  {
    PlainsBounded(names, Start(names) + 1);
  }

  /** It visits exactly the indices other than bios unless the first two names both are bios. */
  lemma {:induction false} VisitsPlainsIff(names: seq<string>)
    requires Walkable(names)
    ensures (forall x :: 0 <= x < |names| ==> (x in Visits(names) <==> names[x] != BIOS)) <==> StartsPlain(names)
    ensures StartsPlain(names) <==> !(|names| >= 2 && names[0] == BIOS && names[1] == BIOS)
  {
    hide Visits;
    forall x: nat
      ensures x in Visits(names) <==> x < |names| && (names[x] != BIOS || x == Start(names))
    {
      VisitedIff(names, x);
    }
  }

  // ----- one step

  lemma {:induction false} NextIsPlain(names: seq<string>, i: nat)
    requires StartsPlain(names) && i < |names|
    ensures NextOf(names, i).0 < |names| && names[NextOf(names, i).0] != BIOS
  {
  }

  /** A step goes to the next index that is not bios or, past the last one, to the start. */
  lemma {:induction false} NextPast(names: seq<string>, i: nat)
    requires Walkable(names) && i < |names|
    ensures var u := NextOf(names, i).0;
      && u < |names|
      && (if i < u && names[u] != BIOS then forall m :: i < m < u ==> names[m] == BIOS
          else u == Start(names) && forall m :: i < m < |names| ==> names[m] == BIOS)
  {
  }

  /** No other node than `i` and bios. */
  ghost predicate Alone(names: seq<string>, i: nat) {
    forall k :: 0 <= k < |names| && k != i ==> names[k] == BIOS
  }

  lemma {:induction false} NextIfAlone(names: seq<string>, i: nat)
    requires StartsPlain(names) && i < |names| && names[i] != BIOS
    ensures NextOf(names, i).0 == i <==> Alone(names, i)
  {
    NextIsPlain(names, i);
  }

  /** `i + j` around a circle of `n`. */
  function Around(n: nat, i: nat, j: nat): (t: nat)
    requires n > 0
    ensures t < n
  {
    (i + j) % n
  }

  lemma {:induction false} AroundOnce(n: nat, i: nat, j: nat)
    requires i < n && j < n
    ensures Around(n, i, j) == if i + j < n then i + j else i + j - n
  {
    ModOnce(i + j, n);
  }

  lemma {:induction false} ModOnce(x: nat, n: nat)
    requires x < 2 * n
    ensures x % n == if x < n then x else x - n
  {
    var q := x / n;
    assert x == n * q + x % n;
    Rounds(n, q);
  }

  lemma {:induction false} Rounds(n: nat, q: nat)
    ensures q >= 2 ==> n * q >= 2 * n
    ensures q == 1 ==> n * q == n
    ensures q == 0 ==> n * q == 0
  {
  }

  /** The index before `k` around the circle. */
  function Before(n: nat, k: nat): nat
    requires k < n
  {
    if k == 0 then n - 1 else k - 1
  }

  lemma {:induction false} NextOfBefore(names: seq<string>, k: nat)
    requires k < |names| && names[k] != BIOS
    ensures NextOf(names, Before(|names|, k)).0 == k
  {
  }

  // ----- skipping

  /** Where `skip_ndx` ends when it has come to `ndx` and has `budget` moves left. */
  function SkipTo(names: seq<string>, from: nat, ndx: nat, budget: nat): (t: nat)
    requires Walkable(names) && ndx < |names|
    ensures t < |names|
    decreases budget
  {
    if budget == 0 || (names[ndx] != BIOS && ndx != from) then ndx
    else SkipTo(names, from, NextOf(names, ndx).0, budget - 1)
  }

  function SkipBudget(n: nat): nat { if n > 2 then n - 2 else 0 }

  /** `skip_ndx` */
  function SkipFrom(names: seq<string>, from: nat, offset: nat): (t: nat)
    requires Walkable(names)
    ensures t < |names|
  {
    SkipTo(names, from, Around(|names|, from, offset), SkipBudget(|names|))
  }

  lemma {:induction false} SkipStays(names: seq<string>, from: nat, ndx: nat, budget: nat)
    requires Walkable(names) && ndx < |names|
    requires (names[ndx] != BIOS && ndx != from) || (ndx == from && NextOf(names, from).0 == from)
    ensures SkipTo(names, from, ndx, budget) == ndx
    decreases budget
  {
    if budget > 0 && ndx == from {
      SkipStays(names, from, ndx, budget - 1);
    }
  }

  /** Where it ends, in at most two moves. */
  lemma {:induction false} SkipIsNext(names: seq<string>, from: nat, t: nat)
    requires StartsPlain(names) && |names| > 2 && from < |names| && t < |names|
    ensures var u := NextOf(names, t).0;
      SkipTo(names, from, t, |names| - 2) ==
        if names[t] != BIOS && t != from then t
        else if u != from || |names| == 3 then u
        else NextOf(names, from).0
  {
    var n, u := |names|, NextOf(names, t).0;
    hide NextOf, SkipTo;
    SkipUnfold(names, from, t, n - 2);
    NextIsPlain(names, t);
    if u != from {
      SkipStays(names, from, u, n - 3);
    } else {
      SkipUnfold(names, from, u, n - 3);
      if n > 3 {
        NextIsPlain(names, from);
        SkipStays(names, from, NextOf(names, from).0, n - 4);
      }
    }
  }

  lemma {:induction false} SkipUnfold(names: seq<string>, from: nat, ndx: nat, budget: nat)
    requires Walkable(names) && ndx < |names|
    ensures NextOf(names, ndx).0 < |names|
    ensures SkipTo(names, from, ndx, budget) ==
      if budget == 0 || (names[ndx] != BIOS && ndx != from) then ndx
      else SkipTo(names, from, NextOf(names, ndx).0, budget - 1)
  {
  }

  /** `x` is what `skip_ndx` looks for. */
  predicate Settled(names: seq<string>, from: nat, x: nat)
    requires x < |names|
  {
    names[x] != BIOS && x != from
  }

  /** If there is such a node at all, it is at most three moves away. */
  lemma {:induction false} ThreeMoves(names: seq<string>, from: nat, t: nat)
    requires Walkable(names) && from < |names| && t < |names| && !Alone(names, from)
    ensures var u := NextOf(names, t).0;
      && u < |names|
      && var w := NextOf(names, u).0;
         && w < |names| && NextOf(names, w).0 < |names|
         && (Settled(names, from, u) || Settled(names, from, w) || Settled(names, from, NextOf(names, w).0))
  {
    hide NextOf;
    var y :| 0 <= y < |names| && y != from && names[y] != BIOS;
    NextPast(names, t);
    var u := NextOf(names, t).0;
    NextPast(names, u);
    var w := NextOf(names, u).0;
    NextPast(names, w);
  }

  /** `skip_ndx` among more than two nodes ends on a valid peer exactly when there is one and its budget of
      moves suffices: one move among three nodes, two among four; above that it always does.  Where the
      walk starts at a node other than bios, four are enough, and it never ends on bios. */
  lemma {:induction false} SkipSettlesIff(names: seq<string>, from: nat, t: nat)
    requires Walkable(names) && |names| > 2 && from < |names| && t < |names|
    ensures var n, u, ndx := |names|, NextOf(names, t).0, SkipTo(names, from, t, |names| - 2);
      && u < n && NextOf(names, u).0 < n
      && (Settled(names, from, ndx) <==>
           && !Alone(names, from)
           && (n >= 5 || Settled(names, from, t) || Settled(names, from, u)
               || (n == 4 && Settled(names, from, NextOf(names, u).0))))
    ensures StartsPlain(names) ==>
      var ndx := SkipTo(names, from, t, |names| - 2);
      && names[ndx] != BIOS
      && (ndx != from <==>
           !Alone(names, from)
           && !(|names| == 3 && (names[t] == BIOS || t == from) && NextOf(names, t).0 == from))
  {
    hide SkipTo, NextOf;
    var n, u := |names|, NextOf(names, t).0;
    SkipUnfold(names, from, t, n - 2);
    SkipUnfold(names, from, u, n - 3);
    var w := NextOf(names, u).0;
    if n >= 4 {
      SkipUnfold(names, from, w, n - 4);
    }
    if n >= 5 {
      SkipUnfold(names, from, NextOf(names, w).0, n - 5);
    }
    if !Alone(names, from) {
      ThreeMoves(names, from, t);
    }
    if StartsPlain(names) {
      SkipSettlesPlainly(names, from, t);
    }
  }

  lemma {:induction false} SkipSettlesPlainly(names: seq<string>, from: nat, t: nat)
    requires StartsPlain(names) && |names| > 2 && from < |names| && t < |names|
    ensures var ndx := SkipTo(names, from, t, |names| - 2);
      && names[ndx] != BIOS
      && (ndx != from <==>
           !Alone(names, from)
           && !(|names| == 3 && (names[t] == BIOS || t == from) && NextOf(names, t).0 == from))
  {
    hide SkipTo, NextOf;
    SkipIsNext(names, from, t);
    NextIsPlain(names, t);
    NextIsPlain(names, from);
    if names[from] != BIOS {
      NextIfAlone(names, from);
    }
  }

  // ----- the offsets of a mesh

  /** How far `k` is ahead of `i`. */
  function Offset(n: nat, i: nat, k: nat): nat
    requires i < n && k < n
  {
    if k >= i then k - i else k + n - i
  }

  lemma {:induction false} OffsetReaches(n: nat, i: nat, k: nat)
    requires i < n && k < n
    ensures Offset(n, i, k) < n && Around(n, i, Offset(n, i, k)) == k
    ensures Before(n, i) == k <==> Offset(n, i, k) == n - 1
    ensures k == i <==> Offset(n, i, k) == 0
  {
    AroundOnce(n, i, Offset(n, i, k));
  }

  lemma {:induction false} OffsetIsUnique(n: nat, i: nat, j: nat)
    requires i < n && j < n
    ensures Offset(n, i, Around(n, i, j)) == j
  {
    AroundOnce(n, i, j);
  }

  /** A node other than bios is reached by its own offset. */
  lemma {:induction false} OwnOffset(names: seq<string>, i: nat, k: nat)
    requires Walkable(names) && i < |names| && k < |names| && k != i && names[k] != BIOS
    ensures SkipFrom(names, i, Offset(|names|, i, k)) == k
  {
    hide *;
    OffsetReaches(|names|, i, k);
    SkipFromStays(names, i, Offset(|names|, i, k));
  }

  lemma {:induction false} SkipFromStays(names: seq<string>, i: nat, j: nat)
    requires Walkable(names) && i < |names|
    ensures var t := Around(|names|, i, j); names[t] != BIOS && t != i ==> SkipFrom(names, i, j) == t
  {
    var t := Around(|names|, i, j);
    if names[t] != BIOS && t != i {
      SkipStays(names, i, t, SkipBudget(|names|));
    }
  }

  /** The index an offset of the mesh loop points at, and where skipping goes from there. */
  lemma {:induction false} MeshStep(names: seq<string>, i: nat, j: nat)
    requires StartsPlain(names) && |names| >= 3 && i < |names| && 1 <= j <= |names| - 2
    ensures var t := Around(|names|, i, j); var u := NextOf(names, t).0;
      && t != i && Offset(|names|, i, t) == j
      && SkipFrom(names, i, j) ==
           if names[t] != BIOS then t else if u != i || |names| == 3 then u else NextOf(names, i).0
  {
    hide SkipTo, NextOf;
    var t := Around(|names|, i, j);
    OffsetIsUnique(|names|, i, j);
    OffsetReaches(|names|, i, t);
    SkipIsNext(names, i, t);
  }

  /** Exactly which nodes a visited node is linked to by the offsets of the mesh: all others but bios and,
      unless a bios stands before that, the node just before its own; and itself only if there is no other.
      A lone node behind two leading bios ends on itself or on the second bios, as its budget runs out. */
  ghost predicate MeshLinked(names: seq<string>, i: nat, k: nat)
    requires i < |names| && k < |names|
  {
    var n := |names|;
    if StartsPlain(names) || !Alone(names, i) then
      && names[k] != BIOS
      && if k == i then Alone(names, i) else Before(n, i) != k || names[Before(n, k)] == BIOS
    else if names[i] == BIOS then k == i
    else (k == i && (n % 2 == 1 || i < n - 1)) || (k == 1 && (n % 2 == 0 || i < n - 1))
  }

  lemma {:induction false} MeshLinksIff(names: seq<string>, i: nat, k: nat)
    requires Walkable(names) && |names| >= 3 && i < |names| && k < |names|
    requires names[i] != BIOS || i == Start(names)
    ensures (exists j :: 1 <= j <= |names| - 2 && SkipFrom(names, i, j) == k) <==> MeshLinked(names, i, k)
  {
    hide SkipFrom, NextOf;
    if MeshLinked(names, i, k) {
      var j := MeshOffset(names, i, k);
    }
    if j :| 1 <= j <= |names| - 2 && SkipFrom(names, i, j) == k {
      MeshOffsetLinks(names, i, j);
    }
  }

  /** The offset that links them. */
  lemma {:induction false} MeshOffset(names: seq<string>, i: nat, k: nat) returns (j: nat)
    requires Walkable(names) && |names| >= 3 && i < |names| && k < |names|
    requires names[i] != BIOS || i == Start(names)
    requires MeshLinked(names, i, k)
    ensures 1 <= j <= |names| - 2 && SkipFrom(names, i, j) == k
  {
    hide SkipTo, NextOf, Offset, Around;
    var n := |names|;
    if !StartsPlain(names) && Alone(names, i) {
      j := LoneOffset(names, i, k);
    } else if k == i {
      j := 1;
      MeshStep(names, i, 1);
      NextIsPlain(names, Around(n, i, 1));
      NextIfAlone(names, i);
    } else if Before(n, i) != k {
      OffsetReaches(n, i, k);
      j := Offset(n, i, k);
      OwnOffset(names, i, k);
    } else {
      var b := Before(n, k);
      OffsetReaches(n, i, b);
      j := Offset(n, i, b);
      NextOfBefore(names, k);
      SkipUnfold(names, i, b, n - 2);
      SkipStays(names, i, k, n - 3);
    }
  }

  lemma {:induction false} MeshOffsetLinks(names: seq<string>, i: nat, j: nat)
    requires Walkable(names) && |names| >= 3 && i < |names| && 1 <= j <= |names| - 2
    requires names[i] != BIOS || i == Start(names)
    ensures MeshLinked(names, i, SkipFrom(names, i, j))
  {
    hide SkipFrom, NextOf, Around;
    if StartsPlain(names) {
      PlainOffsetLinks(names, i, j);
    } else {
      OffsetIsUnique(|names|, i, j);
      OffsetReaches(|names|, i, Around(|names|, i, j));
      if Alone(names, i) {
        SkipLone(names, i, j);
      } else {
        var y :| 0 <= y < |names| && y != i && names[y] != BIOS;
        SkipFromBios(names, i, y, j);
      }
    }
  }

  /** The walk of a lone node behind two leading bios goes back and forth between it and the second one. */
  lemma {:induction false} LoneWalk(names: seq<string>, i: nat, budget: nat)
    requires |names| >= 3 && names[0] == BIOS && names[1] == BIOS
    requires i < |names| && names[i] != BIOS && Alone(names, i)
    ensures SkipTo(names, i, i, budget) == if budget % 2 == 0 then i else 1
    ensures SkipTo(names, i, 1, budget) == if budget % 2 == 0 then 1 else i
    decreases budget
  {
    hide SkipTo, NextOf;
    NextPast(names, i);
    NextPast(names, 1);
    SkipUnfold(names, i, i, budget);
    SkipUnfold(names, i, 1, budget);
    if budget > 0 {
      LoneWalk(names, i, budget - 1);
    }
  }

  lemma {:induction false} SkipLone(names: seq<string>, i: nat, j: nat)
    requires |names| >= 3 && names[0] == BIOS && names[1] == BIOS && Alone(names, i)
    requires i < |names| && Around(|names|, i, j) != i && (names[i] != BIOS || i == 1)
    ensures SkipFrom(names, i, j) ==
      if names[i] == BIOS || (Around(|names|, i, j) < i <==> |names| % 2 == 1) then i else 1
  {
    hide SkipTo, NextOf, Around;
    var n, t := |names|, Around(|names|, i, j);
    SkipUnfold(names, i, t, n - 2);
    NextPast(names, t);
    if names[i] != BIOS {
      LoneWalk(names, i, n - 3);
    } else {
      NextPast(names, 1);
      SkipStays(names, 1, 1, n - 3);
    }
  }

  lemma {:induction false} LoneOffset(names: seq<string>, i: nat, k: nat) returns (j: nat)
    requires |names| >= 3 && names[0] == BIOS && names[1] == BIOS && Alone(names, i)
    requires i < |names| && k < |names| && (names[i] != BIOS || i == 1) && MeshLinked(names, i, k)
    ensures 1 <= j <= |names| - 2 && SkipFrom(names, i, j) == k
  {
    hide SkipFrom, Around;
    var n := |names|;
    // the first bios, or the one just after the node
    var t := if i == 1 || (k == i) != (n % 2 == 1) then i + 1 else 0;
    OffsetReaches(n, i, t);
    j := Offset(n, i, t);
    SkipLone(names, i, j);
  }

  lemma {:induction false} PlainOffsetLinks(names: seq<string>, i: nat, j: nat)
    requires StartsPlain(names) && |names| >= 3 && i < |names| && names[i] != BIOS && 1 <= j <= |names| - 2
    ensures MeshLinked(names, i, SkipFrom(names, i, j))
  {
    var n, t, k := |names|, Around(|names|, i, j), SkipFrom(names, i, j);
    MeshStep(names, i, j);
    OffsetReaches(n, i, t);
    AroundOnce(n, i, j);
    NextIsPlain(names, t);
    NextIsPlain(names, i);
    NextIfAlone(names, i);
    hide SkipFrom, NextOf, Around;
    if k == i && n > 3 {
      assert Alone(names, i);
    }
  }

  /** Where the first two names are both bios the walk wraps onto the second, which costs a move more. */
  lemma {:induction false} SkipFromBios(names: seq<string>, x: nat, y: nat, j: nat)
    requires |names| >= 3 && names[0] == BIOS && names[1] == BIOS && Around(|names|, x, j) != x
    requires x < |names| && y < |names| && x != y && (names[x] != BIOS || x == 1) && names[y] != BIOS
    ensures var k := SkipFrom(names, x, j);
      && names[k] != BIOS && k != x
      && (k == Around(|names|, x, j) || (k >= 1 && (names[k - 1] == BIOS || k - 1 == x)))
  {
    hide NextOf, SkipTo, Around, Alone;
    var n, t := |names|, Around(|names|, x, j);
    SkipUnfold(names, x, t, n - 2);
    if names[t] == BIOS {
      var u := NextOf(names, t).0;
      var w := NextOf(names, u).0;
      NextPast(names, t);
      NextPast(names, u);
      NextPast(names, w);
      SkipUnfold(names, x, u, n - 3);
      if n >= 4 {
        SkipUnfold(names, x, w, n - 4);
      }
      if n >= 5 {
        SkipUnfold(names, x, NextOf(names, w).0, n - 5);
      }
    }
  }
}
