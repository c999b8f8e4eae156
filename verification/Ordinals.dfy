/**
  Export ordinals: winebuild's numbering of a real module
  (tools/winebuild/parser.c), the thunk generator's numbering of its stand-in
  and the export table it emits (tools/spec2thunk/spec2thunk).
 */
module Ordinals {

  const MAX_ORDINALS: nat := 65535

  /** The ordinal a spec line gives an entry point, if any. */
  datatype Pin = At(ordinal: nat) | Unpinned

  /** What the parser lets through: winebuild refuses 0 and anything from 65535 on, line by line. */
  ghost predicate InRange(pins: seq<Pin>) {
    forall i :: 0 <= i < |pins| && pins[i].At? ==> 0 < pins[i].ordinal < MAX_ORDINALS
  }

  ghost predicate Redefined(pins: seq<Pin>) {
    exists i, j :: 0 <= i < j < |pins| && pins[i].At? && pins[i] == pins[j]
  }

  /** The ordinals that the file gives outright. */
  function Given(pins: seq<Pin>): (s: set<nat>)
    ensures forall o: nat :: o in s <==> At(o) in pins
  {
    if pins == [] then {}
    else if pins[0].At? then {pins[0].ordinal} + Given(pins[1..])
    else Given(pins[1..])
  }

  function LowestGiven(pins: seq<Pin>): (m: nat)
    ensures m <= MAX_ORDINALS && forall o: nat :: At(o) in pins ==> m <= o
    ensures m < MAX_ORDINALS ==> At(m) in pins
  {
    if pins == [] then MAX_ORDINALS
    else
      var n := |pins| - 1;
      var m := LowestGiven(pins[..n]);
      assert pins == pins[..n] + [pins[n]];
      if pins[n].At? && pins[n].ordinal < m then pins[n].ordinal else m
  }

  function HighestGiven(pins: seq<Pin>): (m: nat)
    ensures forall o: nat :: At(o) in pins ==> o <= m
    ensures m > 0 ==> At(m) in pins
  {
    if pins == [] then 0
    else
      var n := |pins| - 1;
      var m := HighestGiven(pins[..n]);
      assert pins == pins[..n] + [pins[n]];
      if pins[n].At? && pins[n].ordinal > m then pins[n].ordinal else m
  }

  /** Numbering starts at the lowest given ordinal, or at 1. */
  function Base(pins: seq<Pin>): nat { if LowestGiven(pins) == MAX_ORDINALS then 1 else LowestGiven(pins) }

  lemma {:induction false} SubsetAtMost(t: set<nat>, s: set<nat>)
    requires t <= s
    ensures |t| <= |s|
    decreases |t|
  {
    if t != {} {
      var x :| x in t;
      SubsetAtMost(t - {x}, s - {x});
    }
  }

  // ----- the numbering, characterised -----

  /**
    A numbering of a file: given ordinals are kept, and each other entry, in
    file order, has the lowest number from the base up that neither the file
    gives nor an earlier entry has.
   */
  ghost predicate IsNumbering(pins: seq<Pin>, ords: seq<nat>) {
    && |ords| == |pins|
    && forall i :: 0 <= i < |pins| ==>
         && (pins[i].At? ==> ords[i] == pins[i].ordinal)
         && (pins[i].Unpinned? ==> LowestFree(pins, ords, i))
  }

  ghost predicate LowestFree(pins: seq<Pin>, ords: seq<nat>, i: nat)
    requires i < |ords|
  {
    && ords[i] >= Base(pins) && ords[i] !in Given(pins) && ords[i] !in ords[..i]
    && forall o :: Base(pins) <= o < ords[i] ==> o in Given(pins) || o in ords[..i]
  }

  lemma {:induction false} SameLowestFree(pins: seq<Pin>, a: seq<nat>, b: seq<nat>, i: nat)
    requires i < |a| && i < |b| && a[..i] == b[..i] && LowestFree(pins, a, i) && LowestFree(pins, b, i)
    ensures a[i] == b[i]
  {
  }

  /** There is no other numbering: whoever follows the rule arrives at the same ordinals. */
  lemma {:induction false} NumberingIsUnique(pins: seq<Pin>, a: seq<nat>, b: seq<nat>, n: nat)
    requires IsNumbering(pins, a) && IsNumbering(pins, b) && n <= |pins|
    ensures a[..n] == b[..n]
  {
    if n > 0 {
      NumberingIsUnique(pins, a, b, n - 1);
      var i := n - 1;
      if pins[i].Unpinned? { SameLowestFree(pins, a, b, i); }
      assert a[..n] == a[..i] + [a[i]] && b[..n] == b[..i] + [b[i]];
    }
  }

  /** No two entries share an ordinal, unless the file itself gives one twice. */
  lemma {:induction false} NumberingIsInjective(pins: seq<Pin>, ords: seq<nat>, i: nat, j: nat)
    requires IsNumbering(pins, ords) && !Redefined(pins) && i < j < |pins|
    ensures ords[i] != ords[j]
  {
  }

  /** Unnumbered entries get increasing ordinals, in file order. */
  lemma {:induction false} NumberingAscends(pins: seq<Pin>, ords: seq<nat>, i: nat, j: nat)
    requires IsNumbering(pins, ords) && i < j < |pins| && pins[i].Unpinned? && pins[j].Unpinned?
    ensures ords[i] < ords[j]
  {
  }

  // ----- the numbering, computed -----

  /** The lowest number from `from` up that is not taken. */
  function Lowest(taken: set<nat>, from: nat): (r: nat)
    ensures r >= from && r !in taken && forall o :: from <= o < r ==> o in taken
    decreases |taken|
  {
    if from !in taken then from else
      var r := Lowest(taken - {from}, from + 1);
      AllTaken(taken, from, r);
      r
  }

  lemma {:induction false} AllTaken(taken: set<nat>, from: nat, r: nat)
    requires from in taken && r > from && forall o :: from + 1 <= o < r ==> o in taken - {from}
    ensures forall o :: from <= o < r ==> o in taken
  {
    forall o | from <= o < r ensures o in taken {
      if o > from { assert o in taken - {from}; }
    }
  }

  /** The ordinals of entries i and on, numbers below `next` being used up and `taken` being in use. */
  function Number(pins: seq<Pin>, i: nat, next: nat, taken: set<nat>): (ords: seq<nat>)
    requires i <= |pins|
    ensures |ords| == |pins| - i
    decreases |pins| - i
  {
    if i == |pins| then []
    else if pins[i].At? then [pins[i].ordinal] + Number(pins, i + 1, next, taken)
    else
      var o := Lowest(taken, next);
      [o] + Number(pins, i + 1, o, taken + {o})
  }

  function Numbering(pins: seq<Pin>): (ords: seq<nat>)
    ensures |ords| == |pins|
  {
    Number(pins, 0, Base(pins), Given(pins))
  }

  /** The ordinals handed out among the first i entries. */
  function HandedOut(pins: seq<Pin>, ords: seq<nat>, i: nat): (s: set<nat>)
    requires i <= |pins| && i <= |ords|
    ensures forall o :: o in s ==> o in ords[..i]
  {
    if i == 0 then {}
    else
      var s := HandedOut(pins, ords, i - 1);
      assert forall o :: o in ords[..i - 1] ==> o in ords[..i];
      if pins[i - 1].At? then s else assert ords[..i][i - 1] == ords[i - 1]; s + {ords[i - 1]}
  }

  /** While numbering: everything from the base up to `next` is taken, and what is taken is given or handed out. */
  ghost predicate Midway(pins: seq<Pin>, ords: seq<nat>, i: nat, next: nat, taken: set<nat>)
    requires i <= |pins| && i <= |ords|
  {
    && Base(pins) <= next && taken == Given(pins) + HandedOut(pins, ords, i)
    && forall o :: Base(pins) <= o < next ==> o in taken
  }

  lemma {:induction false} HandedOutOrGiven(pins: seq<Pin>, ords: seq<nat>, i: nat)
    requires i <= |pins| && i <= |ords|
    requires forall j :: 0 <= j < i && pins[j].At? ==> ords[j] == pins[j].ordinal
    ensures forall o :: o in ords[..i] ==> o in Given(pins) + HandedOut(pins, ords, i)
  {
    forall o | o in ords[..i] ensures o in Given(pins) + HandedOut(pins, ords, i) {
      var j :| 0 <= j < i && ords[j] == o;
      if pins[j].At? { assert pins[j] in pins; } else { HandedOutHas(pins, ords, i, j); }
    }
  }

  lemma {:induction false} HandedOutHas(pins: seq<Pin>, ords: seq<nat>, i: nat, j: nat)
    requires j < i <= |pins| && i <= |ords| && pins[j].Unpinned?
    ensures ords[j] in HandedOut(pins, ords, i)
    decreases i
  {
    if j < i - 1 { HandedOutHas(pins, ords, i - 1, j); }
  }

  /** One entry's number is the lowest free one. */
  lemma {:induction false} NextIsLowestFree(pins: seq<Pin>, ords: seq<nat>, i: nat, next: nat, taken: set<nat>)
    requires i < |pins| == |ords| && Midway(pins, ords, i, next, taken) && pins[i].Unpinned?
    requires ords[i] == Lowest(taken, next)
    requires forall j :: 0 <= j < i && pins[j].At? ==> ords[j] == pins[j].ordinal
    ensures LowestFree(pins, ords, i)
    ensures Midway(pins, ords, i + 1, ords[i], taken + {ords[i]})
  {
    HandedOutOrGiven(pins, ords, i);
    forall o | Base(pins) <= o < ords[i] ensures o in taken {
      if o < next { assert o in taken; } else { assert next <= o < Lowest(taken, next); }
    }
    assert ords[i] !in taken;
    forall o | Base(pins) <= o < ords[i] ensures o in Given(pins) || o in ords[..i] {
      assert o in taken;
    }
  }

  lemma {:induction false} NumberIsNumbering(pins: seq<Pin>, ords: seq<nat>, i: nat, next: nat, taken: set<nat>)
    requires i <= |pins| == |ords| && ords[i..] == Number(pins, i, next, taken) && Midway(pins, ords, i, next, taken)
    requires forall j :: 0 <= j < i && pins[j].At? ==> ords[j] == pins[j].ordinal
    ensures forall j :: i <= j < |pins| ==> (pins[j].At? ==> ords[j] == pins[j].ordinal)
    ensures forall j :: i <= j < |pins| && pins[j].Unpinned? ==> LowestFree(pins, ords, j)
    decreases |pins| - i
  {
    if i < |pins| {
      assert ords[i] == ords[i..][0] && ords[i + 1..] == ords[i..][1..];
      if pins[i].At? {
        NumberIsNumbering(pins, ords, i + 1, next, taken);
      } else {
        NextIsLowestFree(pins, ords, i, next, taken);
        NumberIsNumbering(pins, ords, i + 1, ords[i], taken + {ords[i]});
      }
    }
  }

  /** The loop's answer is the numbering that the rule describes. */
  lemma {:induction false} NumberingIsNumbering(pins: seq<Pin>)
    ensures IsNumbering(pins, Numbering(pins))
  {
    var ords := Numbering(pins);
    assert ords[0..] == ords && ords[..0] == [];
    assert Midway(pins, ords, 0, Base(pins), Given(pins));
    NumberIsNumbering(pins, ords, 0, Base(pins), Given(pins));
  }

  // ----- room in the table -----

  function Pinned(pins: seq<Pin>): nat { if pins == [] then 0 else (if pins[0].At? then 1 else 0) + Pinned(pins[1..]) }

  function Loose(pins: seq<Pin>, i: nat): nat
    requires i <= |pins|
  {
    if i == 0 then 0 else (if pins[i - 1].At? then 0 else 1) + Loose(pins, i - 1)
  }

  lemma {:induction false} GivenAtMostPinned(pins: seq<Pin>)
    ensures |Given(pins)| <= Pinned(pins)
  {
    if pins != [] { GivenAtMostPinned(pins[1..]); }
  }

  lemma {:induction false} PinnedPlusLoose(pins: seq<Pin>, i: nat)
    requires i <= |pins|
    ensures Pinned(pins) == Pinned(pins[..i]) + Pinned(pins[i..]) && Pinned(pins[..i]) + Loose(pins, i) == i
    ensures Pinned(pins[i..]) <= |pins| - i
  {
    if i == 0 {
      assert pins[..0] == [] && pins[0..] == pins;
      PinnedAtMost(pins);
    } else {
      PinnedPlusLoose(pins, i - 1);
      PinnedSnoc(pins[..i - 1], pins[i - 1]);
      assert pins[..i] == pins[..i - 1] + [pins[i - 1]];
      assert pins[i - 1..][0] == pins[i - 1] && pins[i - 1..][1..] == pins[i..];
      PinnedAtMost(pins[i..]);
    }
  }

  lemma {:induction false} PinnedSnoc(pins: seq<Pin>, p: Pin)
    ensures Pinned(pins + [p]) == Pinned(pins) + if p.At? then 1 else 0
  {
    if pins == [] {
      assert ([] + [p])[1..] == [];
    } else {
      assert (pins + [p])[0] == pins[0] && (pins + [p])[1..] == pins[1..] + [p];
      PinnedSnoc(pins[1..], p);
    }
  }

  lemma {:induction false} PinnedAtMost(pins: seq<Pin>)
    ensures Pinned(pins) <= |pins|
  {
    if pins != [] { PinnedAtMost(pins[1..]); }
  }

  lemma {:induction false} HandedOutAtMostLoose(pins: seq<Pin>, ords: seq<nat>, i: nat)
    requires i <= |pins| && i <= |ords|
    ensures |HandedOut(pins, ords, i)| <= Loose(pins, i)
  {
    if i > 0 { HandedOutAtMostLoose(pins, ords, i - 1); }
  }

  lemma {:induction false} IntervalFits(lo: nat, hi: nat, taken: set<nat>)
    requires lo <= hi && forall o :: lo <= o < hi ==> o in taken
    ensures hi - lo <= |taken|
    decreases hi
  {
    if lo < hi {
      assert hi - 1 in taken;
      IntervalFits(lo, hi - 1, taken - {hi - 1});
    }
  }

  /** An entry's number lies below base + n: the search for it stays in the table. */
  lemma {:induction false} RoomInTable(pins: seq<Pin>, all: seq<nat>, i: nat)
    requires IsNumbering(pins, all) && i < |pins| && pins[i].Unpinned?
    ensures all[i] < Base(pins) + |pins|
  {
    assert LowestFree(pins, all, i);
    var taken := Given(pins) + HandedOut(pins, all, i);
    HandedOutOrGiven(pins, all, i);
    IntervalFits(Base(pins), all[i], taken);
    GivenAtMostPinned(pins);
    HandedOutAtMostLoose(pins, all, i);
    PinnedPlusLoose(pins, i);
    assert pins[i..][0] == pins[i];
    PinnedAtMost(pins[i..][1..]);
    assert |taken| <= |Given(pins)| + |HandedOut(pins, all, i)|;
  }

  // ----- winebuild -----

  /** What assign_ordinals leaves: each entry's ordinal, the table from ordinal to entry (-1 for none), the bounds. */
  datatype Exports = TooMany | Exports(ords: seq<nat>, table: seq<int>, base: nat, limit: nat, redefined: bool)

  /** An entry without an ordinal of its own would be numbered past the end. */
  ghost predicate Overflows(pins: seq<Pin>) {
    exists i :: 0 <= i < |pins| && pins[i].Unpinned? && Numbering(pins)[i] >= MAX_ORDINALS
  }

  /** The first pass: the lowest and highest given ordinals. */
  method FindBounds(pins: seq<Pin>) returns (base: nat, limit: nat)
    requires InRange(pins)
    ensures base == Base(pins) && limit == (if HighestGiven(pins) < base then base else HighestGiven(pins))
  {
    base, limit := MAX_ORDINALS, 0;
    for i := 0 to |pins|
      invariant base == LowestGiven(pins[..i]) && limit == HighestGiven(pins[..i])
    {
      assert pins[..i + 1][..i] == pins[..i];
      if pins[i].At? {
        if pins[i].ordinal > limit { limit := pins[i].ordinal; }
        if pins[i].ordinal < base { base := pins[i].ordinal; }
      }
    }
    assert pins[..|pins|] == pins;
    if base == MAX_ORDINALS { base := 1; }
    if limit < base { limit := base; }
  }

  /** The ordinal entry i gives is in the table, for i or for an entry before it. */
  ghost predicate Taken(pins: seq<Pin>, table: seq<int>, i: nat) {
    i < |pins| && pins[i].At? && pins[i].ordinal < |table| && 0 <= table[pins[i].ordinal] <= i
  }

  /** The table after the given ordinals are in: the first entry that gives an ordinal has it. */
  ghost predicate GivenPlaced(pins: seq<Pin>, table: seq<int>, n: nat) {
    && n <= |pins|
    && (forall o :: 0 <= o < |table| ==> table[o] == -1 || (0 <= table[o] < n && pins[table[o]] == At(o)))
    && (forall i: nat {:trigger Taken(pins, table, i)} :: i < n && pins[i].At? ==> Taken(pins, table, i))
  }

  /** The second pass: fill in the given ordinals, complaining of any that is given twice. */
  method PlaceGiven(pins: seq<Pin>, table: array<int>) returns (redefined: bool)
    requires forall i :: 0 <= i < |pins| && pins[i].At? ==> pins[i].ordinal < table.Length
    requires forall o :: 0 <= o < table.Length ==> table[o] == -1
    modifies table
    ensures GivenPlaced(pins, table[..], |pins|)
    ensures redefined <==> Redefined(pins)
  {
    redefined := false;
    var i := 0;
    while i < |pins|
      invariant 0 <= i <= |pins|
      invariant GivenPlaced(pins, table[..], i)
      invariant redefined <==> Redefined(pins[..i])
    {
      RedefinedSnoc(pins, i);
      OneMoreGiven(pins, table[..], i);
      if pins[i].At? {
        var o := pins[i].ordinal;
        if table[o] != -1 {
          redefined := true;
        } else {
          ghost var before := table[..];
          table[o] := i;
          assert table[..] == before[o := i];
        }
      }
      i := i + 1;
    }
    assert pins[..i] == pins;
  }

  /** One entry of the second pass: its ordinal was there already exactly if an earlier entry gives it too. */
  lemma {:induction false} OneMoreGiven(pins: seq<Pin>, table: seq<int>, i: nat)
    requires i < |pins| && GivenPlaced(pins, table, i) && (pins[i].At? ==> pins[i].ordinal < |table|)
    ensures pins[i].Unpinned? ==> GivenPlaced(pins, table, i + 1)
    ensures pins[i].At? ==>
              var o := pins[i].ordinal;
              && (table[o] != -1 <==> exists j :: 0 <= j < i && pins[j] == pins[i])
              && GivenPlaced(pins, if table[o] == -1 then table[o := i] else table, i + 1)
  {
    if pins[i].At? {
      var o := pins[i].ordinal;
      var t := if table[o] == -1 then table[o := i] else table;
      if exists j :: 0 <= j < i && pins[j] == pins[i] {
        var j :| 0 <= j < i && pins[j] == pins[i];
        assert Taken(pins, table, j);
      }
      forall j: nat | j < i + 1 && pins[j].At? ensures Taken(pins, t, j) {
        if j < i { assert Taken(pins, table, j); }
      }
    } else {
      forall j: nat | j < i + 1 && pins[j].At? ensures Taken(pins, table, j) {
        assert Taken(pins, table, j);
      }
    }
  }

  lemma {:induction false} RedefinedSnoc(pins: seq<Pin>, i: nat)
    requires i < |pins|
    ensures Redefined(pins[..i + 1]) <==>
            Redefined(pins[..i]) || (pins[i].At? && exists j :: 0 <= j < i && pins[j] == pins[i])
  {
  }

  ghost predicate Marks(table: seq<int>, taken: set<nat>) {
    forall o: nat :: o < |table| ==> (o in taken <==> table[o] != -1)
  }

  /** Entry j is where its ordinal says. */
  ghost predicate Found(ords: seq<nat>, table: seq<int>, j: nat) {
    j < |ords| && ords[j] < |table| && table[ords[j]] == j
  }

  /** The table says what is taken, and by whom. */
  ghost predicate Tabled(pins: seq<Pin>, ords: seq<nat>, table: seq<int>, i: nat, taken: set<nat>) {
    && i <= |pins| == |ords| && Marks(table, taken)
    && (forall j: nat {:trigger Found(ords, table, j)} :: j < i && pins[j].Unpinned? ==> Found(ords, table, j))
    && (forall o :: 0 <= o < |table| && table[o] != -1 ==> 0 <= table[o] < |pins| && ords[table[o]] == o)
    && (forall o :: 0 <= o < |table| && table[o] != -1 && pins[table[o]].Unpinned? ==> table[o] < i)
  }

  /** Entries and table agree: each entry that is alone in giving its ordinal is found there, and nothing else is. */
  ghost predicate TableAgrees(ords: seq<nat>, table: seq<int>) {
    && (forall i: nat {:trigger Found(ords, table, i)} :: i < |ords| ==> Found(ords, table, i))
    && (forall o :: 0 <= o < |table| ==> table[o] == -1 || (0 <= table[o] < |ords| && ords[table[o]] == o))
  }

  lemma {:induction false} TabledOne(pins: seq<Pin>, ords: seq<nat>, table: seq<int>, i: nat, o: nat, taken: set<nat>)
    requires i < |pins| && pins[i].Unpinned? && Tabled(pins, ords, table, i, taken) && o < |table| && o !in taken
    ensures Tabled(pins, ords[i := o], table[o := i], i + 1, taken + {o})
  {
    var after, t := ords[i := o], table[o := i];
    forall j: nat | j < i + 1 && pins[j].Unpinned? ensures Found(after, t, j) {
      if j < i { assert Found(ords, table, j); }
    }
    forall x | 0 <= x < |t| && t[x] != -1 ensures 0 <= t[x] < |pins| && after[t[x]] == x {
      if x != o { assert table[x] != i; }
    }
  }

  lemma {:induction false} TabledFirst(pins: seq<Pin>, ords: seq<nat>, table: seq<int>)
    requires |ords| == |pins| && forall j :: 0 <= j < |pins| && pins[j].At? ==> ords[j] == pins[j].ordinal
    requires GivenPlaced(pins, table, |pins|)
    ensures Tabled(pins, ords, table, 0, Given(pins))
  {
    forall o: nat | o < |table| ensures o in Given(pins) <==> table[o] != -1 {
      if o in Given(pins) {
        var j :| 0 <= j < |pins| && pins[j] == At(o);
        assert Taken(pins, table, j);
      }
    }
  }

  /** With no ordinal given twice, table and entries are inverse to each other. */
  lemma {:induction false} TabledLast(pins: seq<Pin>, ords: seq<nat>, table: seq<int>, taken: set<nat>)
    requires IsNumbering(pins, ords) && Tabled(pins, ords, table, |pins|, taken) && Given(pins) <= taken && !Redefined(pins)
    requires forall j :: 0 <= j < |pins| && pins[j].At? ==> pins[j].ordinal < |table|
    ensures TableAgrees(ords, table)
  {
  }

  /** What the third pass leaves: the last number looked at, and either every entry's ordinal or none. */
  datatype Rest = Overflow | Rest(ords: seq<nat>, last: nat)

  method NumberRest(pins: seq<Pin>, table: array<int>, base: nat) returns (r: Rest)
    requires InRange(pins) && base == Base(pins) && base + |pins| <= table.Length && base < table.Length
    requires GivenPlaced(pins, table[..], |pins|)
    modifies table
    ensures r.Overflow? <==> Overflows(pins)
    ensures r.Rest? ==>
              && r.ords == Numbering(pins)
              && (exists taken :: Given(pins) <= taken && Tabled(pins, r.ords, table[..], |pins|, taken))
              && (forall j :: 0 <= j < |pins| && pins[j].Unpinned? ==> r.ords[j] <= r.last)
              && (r.last == base || r.last in r.ords)
  {
    ghost var froms, takens := PlanFor(pins);
    var ords: seq<nat> := seq(|pins|, i requires 0 <= i < |pins| => if pins[i].At? then pins[i].ordinal else 0);
    TabledFirst(pins, ords, table[..]);
    var overflow, all, last := FollowPlan(pins, ords, table, base, Numbering(pins), froms, takens);
    if overflow { return Overflow; }
    PlanEnds(pins, froms, takens);
    r := Rest(all, last);
  }

  /** The loop of the third pass, beside the plan of what it will find. */
  method FollowPlan(pins: seq<Pin>, given: seq<nat>, table: array<int>, base: nat,
                    ghost all: seq<nat>, ghost froms: seq<nat>, ghost takens: seq<set<nat>>)
    returns (overflow: bool, ords: seq<nat>, ordinal: nat)
    requires |given| == |pins| == |all| && |froms| == |pins| + 1 == |takens| && froms[0] == base
    requires forall i: nat {:trigger Planned(pins, all, froms, takens, base, i)} ::
               i < |pins| ==> Planned(pins, all, froms, takens, base, i)
    requires base + |pins| <= table.Length && Tabled(pins, given, table[..], 0, takens[0])
    requires forall j :: 0 <= j < |pins| && pins[j].At? ==> given[j] == pins[j].ordinal
    modifies table
    ensures overflow <==> exists i :: 0 <= i < |pins| && pins[i].Unpinned? && all[i] >= MAX_ORDINALS
    ensures !overflow ==> ords == all && ordinal == froms[|pins|] && Tabled(pins, ords, table[..], |pins|, takens[|pins|])
  {
    var i: nat := 0;
    ords, ordinal, overflow := given, base, false;
    while i < |pins|
      invariant i <= |pins| && |ords| == |pins|
      invariant forall j :: 0 <= j < i ==> ords[j] == all[j]
      invariant forall j :: i <= j < |pins| && pins[j].At? ==> ords[j] == pins[j].ordinal
      invariant ordinal == froms[i] && Tabled(pins, ords, table[..], i, takens[i])
      invariant forall j :: 0 <= j < i && pins[j].Unpinned? ==> all[j] < MAX_ORDINALS
    {
      assert Planned(pins, all, froms, takens, base, i);
      if pins[i].Unpinned? {
        ordinal := NextFree(table, ordinal, all[i], takens[i]);
        if ordinal >= MAX_ORDINALS {
          overflow := true;
          return;
        }
        PlaceAt(pins, ords, table, i, ordinal, takens[i]);
        ords := ords[i := ordinal];
      }
      i := i + 1;
    }
    assert ords == all;
  }

  /** Entry i of the plan: where the search for its number starts, and what is taken by then. */
  ghost predicate Planned(pins: seq<Pin>, all: seq<nat>, froms: seq<nat>, takens: seq<set<nat>>, base: nat, i: nat) {
    && i < |pins| == |all| && |froms| == |pins| + 1 == |takens|
    && (pins[i].At? ==> all[i] == pins[i].ordinal && froms[i + 1] == froms[i] && takens[i + 1] == takens[i])
    && (pins[i].Unpinned? ==>
          && froms[i] <= all[i] < base + |pins| && all[i] !in takens[i]
          && froms[i + 1] == all[i] && takens[i + 1] == takens[i] + {all[i]}
          && forall o: nat :: froms[i] <= o < all[i] ==> o in takens[i])
  }

  function From(pins: seq<Pin>, all: seq<nat>, i: nat): nat
    requires i <= |pins| == |all|
  {
    if i == 0 then Base(pins) else if pins[i - 1].At? then From(pins, all, i - 1) else all[i - 1]
  }

  lemma {:induction false} FromOfLast(pins: seq<Pin>, all: seq<nat>, i: nat) returns (last: int)
    requires i <= |pins| == |all|
    ensures LastNumbered(pins, all, i, last) && From(pins, all, i) == if last == -1 then Base(pins) else all[last]
  {
    if i == 0 {
      last := -1;
    } else if pins[i - 1].At? {
      last := FromOfLast(pins, all, i - 1);
    } else {
      last := i - 1;
    }
  }

  lemma {:induction false} PlanFor(pins: seq<Pin>) returns (froms: seq<nat>, takens: seq<set<nat>>)
    ensures |froms| == |pins| + 1 == |takens| && froms[0] == Base(pins) && takens[0] == Given(pins)
    ensures forall i: nat {:trigger Planned(pins, Numbering(pins), froms, takens, Base(pins), i)} ::
              i < |pins| ==> Planned(pins, Numbering(pins), froms, takens, Base(pins), i)
    ensures PlanOf(pins, froms, takens)
  {
    var all, n := Numbering(pins), |pins|;
    NumberingIsNumbering(pins);
    froms := seq(n + 1, i requires 0 <= i <= n => From(pins, all, i));
    takens := seq(n + 1, i requires 0 <= i <= n => Given(pins) + HandedOut(pins, all, i));
    forall i: nat | i < n ensures Planned(pins, all, froms, takens, Base(pins), i) {
      PlanStep(pins, all, froms, takens, i);
    }
  }

  ghost predicate PlanOf(pins: seq<Pin>, froms: seq<nat>, takens: seq<set<nat>>) {
    && |froms| == |pins| + 1 == |takens|
    && froms[|pins|] == From(pins, Numbering(pins), |pins|)
    && takens[|pins|] == Given(pins) + HandedOut(pins, Numbering(pins), |pins|)
  }

  lemma {:induction false} PlanStep(pins: seq<Pin>, all: seq<nat>, froms: seq<nat>, takens: seq<set<nat>>, i: nat)
    requires IsNumbering(pins, all) && i < |pins| && |froms| == |pins| + 1 == |takens|
    requires froms[i] == From(pins, all, i) && froms[i + 1] == From(pins, all, i + 1)
    requires takens[i] == Given(pins) + HandedOut(pins, all, i)
    requires takens[i + 1] == Given(pins) + HandedOut(pins, all, i + 1)
    ensures Planned(pins, all, froms, takens, Base(pins), i)
  {
    if pins[i].Unpinned? {
      var last := FromOfLast(pins, all, i);
      NextNumber(pins, all, i, last);
    }
  }

  /** At the end of the plan: the last number given out is the highest of them, and the table has the given ones. */
  lemma {:induction false} PlanEnds(pins: seq<Pin>, froms: seq<nat>, takens: seq<set<nat>>)
    requires PlanOf(pins, froms, takens)
    ensures var all, n := Numbering(pins), |pins|;
            && Given(pins) <= takens[n]
            && (forall j :: 0 <= j < n && pins[j].Unpinned? ==> all[j] <= froms[n])
            && (froms[n] == Base(pins) || froms[n] in all)
  {
    var all, n := Numbering(pins), |pins|;
    NumberingIsNumbering(pins);
    var last := FromOfLast(pins, all, n);
    forall j | 0 <= j < n && pins[j].Unpinned? ensures all[j] <= froms[n] {
      if j < last { NumberingAscends(pins, all, j, last); }
    }
  }

  method PlaceAt(pins: seq<Pin>, ghost ords: seq<nat>, table: array<int>, i: nat, o: nat, ghost taken: set<nat>)
    requires i < |pins| && pins[i].Unpinned? && Tabled(pins, ords, table[..], i, taken) && o < table.Length && o !in taken
    modifies table
    ensures Tabled(pins, ords[i := o], table[..], i + 1, taken + {o})
  {
    TabledOne(pins, ords, table[..], i, o, taken);
    ghost var before := table[..];
    table[o] := i;
    assert table[..] == before[o := i];
  }

  /** The last entry before i that had to be numbered, -1 if there was none. */
  ghost predicate LastNumbered(pins: seq<Pin>, all: seq<nat>, i: nat, last: int) {
    && i <= |pins| == |all| && -1 <= last < i
    && (last >= 0 ==> pins[last].Unpinned?)
    && (forall j :: last < j < i ==> pins[j].At?)
  }

  /** From the previous number, the search passes only taken ones before it finds the next, inside the table. */
  lemma {:induction false} NextNumber(pins: seq<Pin>, all: seq<nat>, i: nat, last: int)
    requires IsNumbering(pins, all) && i < |pins| && pins[i].Unpinned? && LastNumbered(pins, all, i, last)
    ensures var from := if last == -1 then Base(pins) else all[last];
            var taken := Given(pins) + HandedOut(pins, all, i);
            && from <= all[i] < Base(pins) + |pins| && all[i] !in taken
            && forall o: nat :: from <= o < all[i] ==> o in taken
  {
    assert LowestFree(pins, all, i);
    HandedOutOrGiven(pins, all, i);
    if last >= 0 {
      NumberingAscends(pins, all, last, i);
      assert LowestFree(pins, all, last);
    }
    RoomInTable(pins, all, i);
  }

  /** assign_ordinals */
  method AssignOrdinals(pins: seq<Pin>) returns (r: Exports)
    requires InRange(pins)
    ensures r.TooMany? <==> Overflows(pins)
    ensures r.Exports? ==>
              && r.ords == Numbering(pins) && r.base == Base(pins) && (r.redefined <==> Redefined(pins))
              && (!r.redefined ==> TableAgrees(r.ords, r.table))
              && (forall i :: 0 <= i < |pins| ==> r.ords[i] <= r.limit)
              && (r.limit in r.ords || (pins == [] && r.limit == 1))
  {
    var base, limit := FindBounds(pins);
    assert forall i :: 0 <= i < |pins| && pins[i].At? ==> pins[i] in pins && pins[i].ordinal <= limit;
    var count := if limit + 1 > base + |pins| then limit + 1 else base + |pins|;
    var table := new int[count](_ => -1);
    var redefined := PlaceGiven(pins, table);
    var rest := NumberRest(pins, table, base);
    if rest.Overflow? { return TooMany; }
    if !redefined { RestAgrees(pins, table[..]); }
    RestLimit(pins, limit, rest.last);
    if rest.last > limit { limit := rest.last; }
    r := Exports(rest.ords, table[..], base, limit, redefined);
  }

  lemma {:induction false} RestAgrees(pins: seq<Pin>, table: seq<int>)
    requires exists taken :: Given(pins) <= taken && Tabled(pins, Numbering(pins), table, |pins|, taken)
    requires !Redefined(pins) && forall j :: 0 <= j < |pins| && pins[j].At? ==> pins[j].ordinal < |table|
    ensures TableAgrees(Numbering(pins), table)
  {
    NumberingIsNumbering(pins);
    var taken :| Given(pins) <= taken && Tabled(pins, Numbering(pins), table, |pins|, taken);
    TabledLast(pins, Numbering(pins), table, taken);
  }

  lemma {:induction false} RestLimit(pins: seq<Pin>, limit: nat, last: nat)
    requires InRange(pins) && limit == if HighestGiven(pins) < Base(pins) then Base(pins) else HighestGiven(pins)
    requires forall j :: 0 <= j < |pins| && pins[j].Unpinned? ==> Numbering(pins)[j] <= last
    requires last == Base(pins) || last in Numbering(pins)
    ensures var ords := Numbering(pins); var top := if last > limit then last else limit;
            && (forall i :: 0 <= i < |pins| ==> ords[i] <= top)
            && (top in ords || (pins == [] && top == 1))
  {
    var ords := Numbering(pins);
    NumberingIsNumbering(pins);
    LimitIsUsed(pins, ords);
    forall i | 0 <= i < |pins| ensures ords[i] <= if last > limit then last else limit {
      if pins[i].At? { assert pins[i] in pins; }
    }
  }

  lemma {:induction false} OrdinalIn(pins: seq<Pin>, ords: seq<nat>, o: nat)
    requires IsNumbering(pins, ords) && At(o) in pins
    ensures o in ords
  {
  }

  lemma {:induction false} FirstIsOne(pins: seq<Pin>, ords: seq<nat>)
    requires IsNumbering(pins, ords) && pins != [] && Base(pins) == 1 && forall o: nat :: At(o) !in pins
    ensures 1 in ords
  {
    assert pins[0] in pins;
    assert forall p :: p in pins ==> p.Unpinned?;
    assert LowestFree(pins, ords, 0) && ords[..0] == [];
    assert 1 !in Given(pins) && 1 !in ords[..0];
    assert ords[0] in ords;
  }

  /** The base and the highest given ordinal are some entry's own, unless there is no entry at all. */
  lemma {:induction false} LimitIsUsed(pins: seq<Pin>, ords: seq<nat>)
    requires InRange(pins) && IsNumbering(pins, ords)
    ensures HighestGiven(pins) > 0 ==> HighestGiven(pins) in ords
    ensures pins != [] ==> Base(pins) in ords
  {
    var lo, hi := LowestGiven(pins), HighestGiven(pins);
    if hi > 0 { OrdinalIn(pins, ords, hi); }
    if lo < MAX_ORDINALS {
      OrdinalIn(pins, ords, lo);
    } else if pins != [] {
      assert forall o: nat :: At(o) !in pins;
      FirstIsOne(pins, ords);
    }
  }

  /** The search for a free entry: `to` is the first at or after `from`. */
  method NextFree(table: array<int>, from: nat, ghost to: nat, ghost taken: set<nat>) returns (ordinal: nat)
    requires Marks(table[..], taken) && from <= to < table.Length && to !in taken
    requires forall o: nat :: from <= o < to ==> o in taken
    ensures ordinal == to
  {
    ordinal := from;
    while table[ordinal] != -1
      invariant from <= ordinal <= to
      decreases table.Length - ordinal
    {
      assert table[..][ordinal] != -1;
      ordinal := ordinal + 1;
    }
    assert table[..][ordinal] == -1;
  }

  // ----- the thunk generator -----

  /** spec2thunk's numbering ends the program where it cannot number a file. */
  datatype Records = OutOfRange(at: nat) | GivenTwice(at: nat) | TooManyRecords(at: nat) | Records(ords: seq<nat>, limit: nat)

  /** The first pass: the given ordinals, or the first one that cannot stand. */
  method CollectGiven(pins: seq<Pin>) returns (r: Records, used: set<nat>)
    ensures r.Records? <==> InRange(pins) && !Redefined(pins)
    ensures r.Records? ==> used == Given(pins)
    ensures r.OutOfRange? || r.GivenTwice? ==> r.at < |pins| && !(InRange(pins[..r.at + 1]) && !Redefined(pins[..r.at + 1]))
    ensures !r.TooManyRecords?
  {
    used := {};
    var i := 0;
    while i < |pins|
      invariant 0 <= i <= |pins|
      invariant InRange(pins[..i]) && !Redefined(pins[..i])
      invariant forall o: nat :: o in used <==> exists j :: 0 <= j < i && pins[j] == At(o)
    {
      RedefinedSnoc(pins, i);
      if pins[i].At? {
        var o := pins[i].ordinal;
        if !(0 < o < MAX_ORDINALS) {
          assert pins[..i + 1][i] == pins[i];
          return OutOfRange(i), used;
        }
        if o in used {
          PrefixRedefined(pins, i + 1);
          return GivenTwice(i), used;
        }
        used := used + {o};
      }
      assert pins[..i + 1] == pins[..i] + [pins[i]];
      i := i + 1;
    }
    assert pins[..i] == pins;
    assert used == Given(pins) by {
      forall o: nat ensures o in used <==> o in Given(pins) { }
    }
    r := Records([], 0);
  }

  lemma {:induction false} PrefixRedefined(pins: seq<Pin>, n: nat)
    requires n <= |pins| && Redefined(pins[..n])
    ensures Redefined(pins)
  {
  }

  /** One of the first n entries, without an ordinal of its own, has got number o. */
  ghost predicate NumberedTo(pins: seq<Pin>, ords: seq<nat>, o: nat, n: nat) {
    exists i :: 0 <= i < n && i < |pins| && i < |ords| && pins[i].Unpinned? && ords[i] == o
  }

  /** The least of a set, as min finds it. */
  method Least(s: set<nat>) returns (m: nat)
    requires s != {}
    ensures m in s && forall o :: o in s ==> m <= o
  {
    m :| m in s;
    var rest := s - {m};
    while rest != {}
      invariant m in s && rest <= s && forall o :: o in s ==> o in rest || m <= o
      decreases |rest|
    {
      var o :| o in rest;
      rest := rest - {o};
      if o < m { m := o; }
    }
  }

  method Greatest(s: set<nat>) returns (m: nat)
    requires s != {}
    ensures m in s && forall o :: o in s ==> o <= m
  {
    m :| m in s;
    var rest := s - {m};
    while rest != {}
      invariant m in s && rest <= s && forall o :: o in s ==> o in rest || o <= m
      decreases |rest|
    {
      var o :| o in rest;
      rest := rest - {o};
      if o > m { m := o; }
    }
  }

  /** The second pass, over a set instead of a table. */
  method FollowPlanInSet(pins: seq<Pin>, given: set<nat>, base: nat,
                         ghost all: seq<nat>, ghost froms: seq<nat>, ghost takens: seq<set<nat>>)
    returns (overflow: bool, at: nat, ords: seq<nat>, used: set<nat>)
    requires |pins| == |all| && |froms| == |pins| + 1 == |takens| && froms[0] == base && takens[0] == given
    requires forall i: nat {:trigger Planned(pins, all, froms, takens, base, i)} ::
               i < |pins| ==> Planned(pins, all, froms, takens, base, i)
    ensures overflow <==> exists i :: 0 <= i < |pins| && pins[i].Unpinned? && all[i] >= MAX_ORDINALS
    ensures overflow ==> at < |pins| && pins[at].Unpinned? && all[at] >= MAX_ORDINALS
    ensures !overflow ==> ords == all && forall o: nat :: o in used <==> o in given || NumberedTo(pins, ords, o, |pins|)
  {
    ords, used, overflow, at := [], given, false, 0;
    var i: nat, next: nat := 0, base;
    while i < |pins|
      invariant i <= |pins| && |ords| == i
      invariant forall o: nat :: o in used <==> o in given || NumberedTo(pins, all, o, i)
      invariant forall j :: 0 <= j < i ==> ords[j] == all[j]
      invariant next == froms[i] && used == takens[i]
      invariant forall j :: 0 <= j < i && pins[j].Unpinned? ==> all[j] < MAX_ORDINALS
    {
      assert Planned(pins, all, froms, takens, base, i);
      if pins[i].At? {
        ords := ords + [pins[i].ordinal];
      } else {
        while next in used
          invariant froms[i] <= next <= all[i]
          decreases all[i] + 1 - next
        {
          next := next + 1;
        }
        if next >= MAX_ORDINALS {
          overflow, at := true, i;
          return;
        }
        ords := ords + [next];
        used := used + {next};
      }
      i := i + 1;
    }
  }

  /** The highest number in use, 0 if there is none. */
  function Highest(ords: seq<nat>): (m: nat)
    ensures forall i :: 0 <= i < |ords| ==> ords[i] <= m
    ensures ords != [] ==> m in ords
    ensures ords == [] ==> m == 0
  {
    if ords == [] then 0
    else
      var n := |ords| - 1;
      var m := Highest(ords[..n]);
      assert ords == ords[..n] + [ords[n]];
      if ords[n] >= m then ords[n] else m
  }

  /** assign_ordinals of spec2thunk: winebuild's numbering, or an exit where winebuild complains. */
  method AssignRecords(pins: seq<Pin>) returns (r: Records)
    ensures r.Records? <==> InRange(pins) && !Redefined(pins) && !Overflows(pins)
    ensures r.Records? ==> r.ords == Numbering(pins) && r.limit == Highest(r.ords)
  {
    var used;
    r, used := CollectGiven(pins);
    if !r.Records? { return; }
    var base := 1;
    if used != {} { base := Least(used); }
    BaseIsLeast(pins);
    ghost var froms, takens := PlanFor(pins);
    var overflow, at, ords, all := FollowPlanInSet(pins, used, base, Numbering(pins), froms, takens);
    if overflow { return TooManyRecords(at); }
    var limit := 0;
    if all != {} { limit := Greatest(all); }
    InUseAreNumbers(pins, ords, all);
    r := Records(ords, limit);
  }

  /** The ordinals in use are the numbers given out. */
  lemma {:induction false} InUseAreNumbers(pins: seq<Pin>, ords: seq<nat>, used: set<nat>)
    requires ords == Numbering(pins) && forall o: nat :: o in used <==> o in Given(pins) || NumberedTo(pins, ords, o, |pins|)
    ensures forall o: nat :: o in used <==> o in ords
  {
    NumberingIsNumbering(pins);
    forall o: nat ensures o in used <==> o in ords {
      if o in ords {
        var i :| 0 <= i < |ords| && ords[i] == o;
      }
    }
  }

  /** The base is the least of the given ordinals, or 1 if there are none. */
  lemma {:induction false} BaseIsLeast(pins: seq<Pin>)
    requires InRange(pins)
    ensures Given(pins) == {} ==> Base(pins) == 1
    ensures Given(pins) != {} ==> Base(pins) in Given(pins) && forall o :: o in Given(pins) ==> Base(pins) <= o
  {
  }

  /**
    The two tools' limits: winebuild's is the highest ordinal of any entry, as
    the generator's is, except for a module without entries.
   */
  lemma {:induction false} LimitsAgreeUnlessEmpty(ords: seq<nat>, limit: nat)
    requires forall i :: 0 <= i < |ords| ==> ords[i] <= limit
    requires limit in ords || (ords == [] && limit == 1)
    ensures limit == Highest(ords) <==> ords != []
  {
  }

  // ----- the thunk's export table -----

  /** What an ordinal of the thunk module resolves to. */
  datatype Target = Thunk(entry: nat) | Info(k: nat)

  /** How many of this tool's own structures are exported: the thunk info, and the COM and fast-path ones if present. */
  function Extras(com: bool, fast: bool): nat { 1 + (if com then 1 else 0) + (if fast then 1 else 0) }

  /** emit_def: each served entry at its ordinal, the tool's own structures past the module's whole range. */
  method EmitDef(ords: seq<nat>, served: seq<bool>, limit: nat, com: bool, fast: bool) returns (table: map<nat, Target>)
    requires |served| == |ords| && forall i :: 0 <= i < |ords| ==> 0 < ords[i] <= limit
    requires forall i, j :: 0 <= i < j < |ords| ==> ords[i] != ords[j]
    ensures forall o :: o in table && o > limit ==>
              limit > 0 && o <= limit + Extras(com, fast) && table[o] == Info(o - limit - 1)
    ensures limit > 0 ==> forall o :: limit < o <= limit + Extras(com, fast) ==> o in table
    ensures IsDef(table, ords, served, limit)
  {
    table := map[];
    var i := 0;
    while i < |ords|
      invariant 0 <= i <= |ords|
      invariant forall j: nat :: j < i && served[j] ==> ords[j] in table && table[ords[j]] == Thunk(j)
      invariant forall o :: o in table ==>
                  o <= limit && table[o].Thunk? && table[o].entry < i && served[table[o].entry] && ords[table[o].entry] == o
    {
      if served[i] { table := table[ords[i] := Thunk(i)]; }
      i := i + 1;
    }
    if limit > 0 {
      table := table[limit + 1 := Info(0)];
      if com { table := table[limit + 2 := Info(1)]; }
      if fast {
        var next := if com then 2 else 1;
        table := table[limit + 1 + next := Info(next)];
      }
    }
  }

  /** A table as EmitDef leaves it. */
  ghost predicate IsDef(table: map<nat, Target>, ords: seq<nat>, served: seq<bool>, limit: nat)
    requires |served| == |ords|
  {
    && (forall i: nat :: i < |ords| && served[i] ==> ords[i] in table && table[ords[i]] == Thunk(i))
    && (forall o :: o in table && o <= limit ==>
          table[o].Thunk? && table[o].entry < |ords| && served[table[o].entry] && ords[table[o].entry] == o)
  }

  /**
    An import by ordinal from the thunk reaches the very entry that the real
    module has at that ordinal, or nothing; it never reaches another entry.
   */
  lemma {:induction false} OrdinalIsTheRealEntryOrAHole(pins: seq<Pin>, served: seq<bool>, actual: seq<int>, limit: nat,
                                     table: map<nat, Target>, o: nat)
    requires |served| == |pins| && TableAgrees(Numbering(pins), actual) && IsDef(table, Numbering(pins), served, limit)
    requires o < |actual| && o <= limit
    ensures o in table <==> actual[o] != -1 && served[actual[o]]
    ensures o in table ==> table[o] == Thunk(actual[o])
  {
    var ords := Numbering(pins);
    if o in table { assert Found(ords, actual, table[o].entry); }
  }

  /** Refusing more entries opens holes and moves nothing else. */
  lemma {:induction false} RefusingMoreMovesNothing(ords: seq<nat>, served: seq<bool>, fewer: seq<bool>, limit: nat,
                                 table: map<nat, Target>, less: map<nat, Target>, o: nat)
    requires |served| == |ords| == |fewer| && forall i :: 0 <= i < |ords| && fewer[i] ==> served[i]
    requires IsDef(table, ords, served, limit) && IsDef(less, ords, fewer, limit) && o <= limit
    ensures o in less ==> o in table && table[o] == less[o]
    ensures o in table && o !in less ==> !fewer[table[o].entry]
  {
  }
}
