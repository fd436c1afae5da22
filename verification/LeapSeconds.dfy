/** The table of leap seconds: how it is built, and counting leap seconds in and out of an instant. */
module LeapSeconds {
  import opened Calendar

  const TWO64: nat := 0x1_0000_0000_0000_0000
  const EPOCH: nat := 4611686014920671114

  type Uint64 = x: int | 0 <= x < 0x1_0000_0000_0000_0000

  /** C's conversion to 64 unsigned bits. */
  function Wrap(x: int): (r: Uint64)
    ensures 0 <= x < TWO64 ==> r == x
  {
    x % 0x1_0000_0000_0000_0000
  }

  /** At least two seconds later. */
  predicate Later(a: int, b: int)
  {
    b - a > 1
  }

  /** A table as leapsecs.c writes it: entry i is the last second of a day, later days further on, and the i
      leap seconds before it have been counted in; 64 bits hold the day after. */
  ghost predicate WellFormed(table: seq<Uint64>)
  {
    forall i :: 0 <= i < |table| ==>
      EPOCH + i <= table[i] < TWO64 - 86400 && (table[i] - EPOCH - i) % 86400 == 0 &&
      (i > 0 ==> Later(table[i - 1], table[i]))
  }

  /** The leap second at the end of that day comes after those of the table, and 64 bits hold it. */
  ghost predicate InOrder(table: seq<Uint64>, day: int)
  {
    var x := (day + 1) * 86400 + EPOCH + |table|;
    day >= 0 && x < TWO64 - 86400 && (|table| > 0 ==> Later(table[|table| - 1], x))
  }

  lemma {:induction false} Increasing(table: seq<Uint64>, i: nat, j: nat)
    requires WellFormed(table) && i <= j < |table|
    ensures table[i] + (j - i) + (if i < j then 1 else 0) <= table[j]
    decreases j
  {
    if i < j - 1 {
      Increasing(table, i, j - 1);
    }
  }

  lemma Appended(table: seq<Uint64>, day: int)
    requires WellFormed(table) && InOrder(table, day)
    ensures WellFormed(table + [Wrap((day + 1) * 86400 + EPOCH + |table|)])
  {
    var x := (day + 1) * 86400 + EPOCH + |table|;
    assert (x - EPOCH - |table|) % 86400 == 0 by {
      assert x - EPOCH - |table| == (day + 1) * 86400;
    }
    hide Later;
  }

  lemma AppendedMaybe(table: seq<Uint64>, day: int)
    ensures WellFormed(table) && InOrder(table, day) ==> WellFormed(table + [Wrap((day + 1) * 86400 + EPOCH + |table|)])
  {
    hide *;
    if WellFormed(table) && InOrder(table, day) {
      Appended(table, day);
    }
  }

  class LeapTable {
    var leapsecs: seq<Uint64>

    constructor ()
      ensures leapsecs == []
    {
      leapsecs := [];
    }

    /** One line of the table's source: the date before whose end a leap second comes. The lines are to be
        in the order of their dates, from the origin of the day numbers on. */
    method AddLine(cd: Caldate, leaps: nat)
      requires leaps == |leapsecs|
      modifies this
      ensures leapsecs == old(leapsecs) + [Wrap((DayNumber(cd.Value()) + 1) * 86400 + EPOCH + leaps)]
      ensures old(WellFormed(leapsecs)) && InOrder(old(leapsecs), DayNumber(cd.Value())) ==> WellFormed(leapsecs)
    {
      hide DayNumber, WellFormed, InOrder, Wrap;
      var day := cd.Mjd();
      AppendedMaybe(leapsecs, day);
      leapsecs := leapsecs + [Wrap((day + 1) * 86400 + EPOCH + leaps)];
    }

    /** Counts leap seconds into an instant. hit says that it is itself a leap second. */
    method Add(x: Uint64, hit: bool) returns (u: Uint64)
      ensures u == Added(leapsecs, x, hit, 0)
    {
      u := x;
      for i := 0 to |leapsecs|
        invariant Added(leapsecs, x, hit, 0) == Added(leapsecs, u, hit, i)
      {
        if u < leapsecs[i] {
          break;
        }
        if !hit || u > leapsecs[i] {
          u := Wrap(u + 1);
        }
      }
    }

    /** Takes the leap seconds out of an instant, and says whether it is a leap second. */
    method Sub(x: Uint64) returns (u: Uint64, hit: bool)
      ensures (u, hit) == Subtracted(leapsecs, x, 0)
    {
      var s := 0;
      for i := 0 to |leapsecs|
        invariant s == i
        invariant Subtracted(leapsecs, x, 0) == Subtracted(leapsecs, x, i)
      {
        if x < leapsecs[i] {
          break;
        }
        s := s + 1;
        if x == leapsecs[i] {
          return Wrap(x - s), true;
        }
      }
      return Wrap(x - s), false;
    }
  }

  /** What Add makes of u from table entry i on. */
  function Added(table: seq<Uint64>, u: Uint64, hit: bool, i: nat): Uint64
    requires i <= |table|
    decreases |table| - i
  {
    if i == |table| || u < table[i] then u
    else if !hit || u > table[i] then Added(table, Wrap(u + 1), hit, i + 1)
    else Added(table, u, hit, i + 1)
  }

  /** What Sub makes of u when i entries have been passed. */
  function Subtracted(table: seq<Uint64>, u: Uint64, i: nat): (Uint64, bool)
    requires i <= |table|
    decreases |table| - i
  {
    if i == |table| || u < table[i] then (Wrap(u - i), false)
    else if u == table[i] then (Wrap(u - i - 1), true)
    else Subtracted(table, u, i + 1)
  }

  /** The number of leap seconds up to and including an instant. */
  function Passed(table: seq<Uint64>, u: Uint64, i: nat): (k: nat)
    requires i <= |table|
    ensures i <= k <= |table|
    decreases |table| - i
  {
    if i == |table| || u < table[i] then i else if u == table[i] then i + 1 else Passed(table, u, i + 1)
  }

  lemma {:induction false} SubtractedIs(table: seq<Uint64>, u: Uint64, i: nat)
    requires WellFormed(table) && i <= |table| && (i > 0 ==> table[i - 1] < u)
    ensures var k := Passed(table, u, i);
      Subtracted(table, u, i) == (Wrap(u - k), k > i && u == table[k - 1]) &&
      (k < |table| ==> u < table[k]) && (k > 0 ==> table[k - 1] <= u)
    decreases |table| - i
  {
    if i < |table| && table[i] < u {
      SubtractedIs(table, u, i + 1);
    }
  }

  /** As many seconds are taken out as the table has entries up to the instant, and the entries are the leap seconds. */
  lemma SubtractedCounts(table: seq<Uint64>, x: Uint64) returns (k: nat)
    requires WellFormed(table)
    ensures k <= |table| && Subtracted(table, x, 0) == (Wrap(x - k), x in table)
    ensures forall i :: 0 <= i < |table| ==> (table[i] <= x <==> i < k)
  {
    SubtractedIs(table, x, 0);
    k := Passed(table, x, 0);
    hide Subtracted, Passed, WellFormed, Wrap;
    forall i | 0 <= i < |table| ensures table[i] <= x <==> i < k {
      if i < k {
        Increasing(table, i, k - 1);
      } else {
        Increasing(table, k, i);
      }
    }
    if x in table {
      var i :| 0 <= i < |table| && table[i] == x;
      assert i < k;
      Increasing(table, i, k - 1);
    }
  }

  lemma {:induction false} AddedBack(table: seq<Uint64>, u: Uint64, k: nat, i: nat)
    requires WellFormed(table) && i <= k <= |table| && (k > 0 ==> table[k - 1] <= u) && (k < |table| ==> u < table[k])
    ensures (k == 0 || u > table[k - 1]) ==> u >= k && Added(table, u - k + i, false, i) == u
    ensures k > 0 && u == table[k - 1] ==>
      u >= k && (if i < k then Added(table, u - k + 1 + i, true, i) == u else Added(table, u, true, k) == u)
    decreases k - i
  {
    if i < k {
      Increasing(table, i, k - 1);
      AddedBack(table, u, k, i + 1);
    }
  }

  /** Leap seconds taken out and counted in again: the same instant. A leap second has been shown as the
      second after the one it follows, and comes back with hit set. */
  lemma AddUndoesSub(table: seq<Uint64>, x: Uint64)
    requires WellFormed(table)
    ensures var (v, hit) := Subtracted(table, x, 0);
      var w := if hit then v + 1 else v;
      w < TWO64 && Added(table, w, hit, 0) == x
    ensures var (v, hit) := Subtracted(table, x, 0);
      hit ==> EPOCH <= v + 1 <= TWO64 - 86400 && (v + 1 - EPOCH) % 86400 == 0
  {
    SubtractedIs(table, x, 0);
    var k := Passed(table, x, 0);
    AddedBack(table, x, k, 0);
  }

  /** Counted in and taken out again: the same second, when it was no leap second. */
  lemma {:induction false} SubUndoesAdd(table: seq<Uint64>, v: Uint64, i: nat)
    requires WellFormed(table) && i <= |table| && v + |table| < TWO64 && (i > 0 ==> table[i - 1] < v + i)
    ensures Subtracted(table, Added(table, Wrap(v + i), false, i), i) == (v, false)
    ensures Added(table, Wrap(v + i), false, i) >= v + i
    decreases |table| - i
  {
    if i < |table| && v + i >= table[i] {
      SubUndoesAdd(table, v, i + 1);
    }
  }
}
