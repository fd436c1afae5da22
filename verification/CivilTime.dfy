/** Instants and civil time: caltime_utc, caltime_shift_offset, caltime_tai, and the way there and back. */
module CivilTime {
  import opened Calendar
  import opened LeapSeconds

  class Caltime {
    const date: Caldate
    var hour: int
    var minute: int
    var second: int
    var offset: int

    constructor ()
      ensures fresh(date)
    {
      date := new Caldate(0, 0, 0);
      hour, minute, second, offset := 0, 0, 0, 0;
    }

    /** Minutes since the origin of the day numbers, in UTC. */
    ghost function Minutes(): int
      reads this, date
    {
      DayNumber(date.Value()) * 1440 + hour * 60 + minute - offset
    }

    /** The instant that the time stands for, without its leap seconds. */
    ghost function Seconds(): int
      reads this, date
    {
      Minutes() * 60 + second
    }

    /** A time as clocks show it; second 60 is for leap seconds. */
    ghost predicate Valid()
      reads this, date
    {
      ValidDate(date.Value()) && 0 <= hour < 24 && 0 <= minute < 60 && 0 <= second <= 60
    }

    /** From an instant to UTC; the result is the day of the week. */
    method Utc(t: Uint64, leapTable: LeapTable) returns (wday: nat)
      modifies this, date
      ensures Valid() && offset == 0 && wday == (DayNumber(date.Value()) + 3) % 7
      ensures var (v, hit) := Subtracted(leapTable.leapsecs, t, 0);
        Seconds() == Civil(v, hit) && (if hit then 1 <= second <= 60 else 0 <= second < 60) &&
        (WellFormed(leapTable.leapsecs) ==> (second == 60 <==> hit))
    {
      hide DayNumber, ValidDate, Subtracted;
      var u0, leap := leapTable.Sub(t);
      AfterSub(leapTable.leapsecs, t);
      var v: int := u0;
      var u: Uint64 := Wrap(v + 58486);
      var s := u % 86400;
      second := s % 60 + if leap then 1 else 0;
      s := s / 60;
      minute := s % 60;
      s := s / 60;
      hour := s;
      var day := u / 86400 - 53375995543064;
      var yday;
      wday, yday := date.FromMjd(day);
      offset := 0;
      SecondsOfDay(u);
      Instant(v, u, day, hour, minute, u % 86400 % 60, leap);
    }

    /** To another zone; the result is the day of the week there. */
    method ShiftOffset(newOffset: int) returns (wday: nat)
      modifies this, date
      ensures ValidDate(date.Value()) && 0 <= hour < 24 && 0 <= minute < 60
      ensures offset == newOffset && second == old(second) && Minutes() == old(Minutes())
      ensures wday == (DayNumber(date.Value()) + 3) % 7
    {
      hide ValidDate;
      ghost var before := Minutes();
      ghost var d0 := date.Value();
      var s := hour * 60 + minute - offset + newOffset;
      minute := Rem(s, 60);
      s := Quot(s, 60);
      if minute < 0 {
        minute := minute + 60;
        s := s - 1;
      }
      hour := Rem(s, 24);
      s := Quot(s, 24);
      if hour < 0 {
        hour := hour + 24;
        s := s - 1;
      }
      offset := newOffset;
      date.day := date.day + s;
      assert DayNumber(date.Value()) == DayNumber(d0) + s;
      hide DayNumber;
      s := date.Mjd();
      var yday;
      wday, yday := date.FromMjd(s);
    }

    /** From a time to the instant. */
    method Tai(leapTable: LeapTable) returns (t: Uint64)
      ensures t == Added(leapTable.leapsecs, Wrap(EPOCH + Seconds()), second == 60, 0)
    {
      hide DayNumber;
      var day := date.Mjd();
      var s := hour * 60 + minute;
      s := (s - offset) * 60 + second;
      t := Wrap(day * 86400 + EPOCH + s);
      t := leapTable.Add(t, second == 60);
    }
  }

  /** A leap second is shown as the second after the one before it. */
  function Shown(v: int, leap: bool): int
  {
    if leap then v + 1 else v
  }

  /** Seconds from the origin of the day numbers, leap seconds not counted; the last instants that 64 bits hold
      come out as the first. */
  function Civil(v: int, leap: bool): int
  {
    Shown(v, leap) - EPOCH - if v + 58486 < TWO64 then 0 else TWO64
  }

  lemma CivilWraps(v: int, leap: bool)
    ensures Wrap(EPOCH + Civil(v, leap)) == Wrap(Shown(v, leap))
    ensures v + 58486 < TWO64 ==> EPOCH + Civil(v, leap) == Shown(v, leap)
  {
  }

  /** A leap second follows the last second of a day. */
  lemma AfterSub(table: seq<Uint64>, t: Uint64)
    ensures WellFormed(table) ==> var (v, hit) := Subtracted(table, t, 0);
      hit ==> Wrap(Shown(v, true) + 58485) % 86400 == 86399
  {
    if WellFormed(table) {
      AddUndoesSub(table, t);
      hide Subtracted;
      var (v, hit) := Subtracted(table, t, 0);
      if hit {
        LastSecond(v);
      }
    }
  }

  lemma LastSecond(v: int)
    requires EPOCH <= v + 1 <= TWO64 - 86400 && (v + 1 - EPOCH) % 86400 == 0
    ensures Wrap(Shown(v, true) + 58485) % 86400 == 86399
  {
    var k := (v + 1 - EPOCH) / 86400;
    assert v + 58486 == 86400 * (k + 53375995543063) + 86399;
  }

  lemma SecondsOfDay(u: Uint64)
    ensures var s := u % 86400;
      s == s / 60 / 60 * 3600 + s / 60 % 60 * 60 + s % 60 && s / 60 / 60 < 24
    ensures u % 86400 == 86399 ==> u % 86400 % 60 == 59
    ensures u == u / 86400 * 86400 + u % 86400
  {
  }

  lemma Instant(v: int, u: Uint64, day: int, hour: int, minute: int, second: int, leap: bool)
    requires 0 <= v < TWO64 && u == Wrap(v + 58486) && day == u / 86400 - 53375995543064
    requires u % 86400 == hour * 3600 + minute * 60 + second
    ensures (day * 1440 + hour * 60 + minute - 0) * 60 + second + (if leap then 1 else 0) == Civil(v, leap)
  {
    var l := if leap then 1 else 0;
    assert EPOCH + ((day * 1440 + hour * 60 + minute - 0) * 60 + second + l) == u - 58486 + l;
    assert u == v + 58486 - if v + 58486 < TWO64 then 0 else TWO64;
  }

  /** An instant, taken to UTC, to any zone and back: the same instant, leap seconds included. */
  method ThereAndBack(t: Uint64, zone: int, leapTable: LeapTable) returns (back: Uint64)
    requires WellFormed(leapTable.leapsecs)
    ensures back == t
  {
    hide WellFormed, Subtracted, Added, DayNumber, ValidDate;
    var ct := new Caltime();
    AddUndoesSub(leapTable.leapsecs, t);
    ghost var (v, hit) := Subtracted(leapTable.leapsecs, t, 0);
    var w := ct.Utc(t, leapTable);
    w := ct.ShiftOffset(zone);
    back := ct.Tai(leapTable);
    CivilWraps(v, hit);
    assert Wrap(EPOCH + ct.Seconds()) == Shown(v, hit) && (ct.second == 60 <==> hit);
  }

  /** Days, hours, minutes and seconds are told apart by their sum. */
  lemma SameClock(d: int, h: int, m: int, s: int, d': int, h': int, m': int, s': int, o: int)
    requires 0 <= h < 24 && 0 <= h' < 24 && 0 <= m < 60 && 0 <= m' < 60 && s == s'
    requires d * 1440 + h * 60 + m - o == d' * 1440 + h' * 60 + m' - o
    ensures d == d' && h == h' && m == m'
  {
  }

  lemma SameSeconds(a: int, s: int, a': int, s': int)
    requires a * 60 + s == a' * 60 + s' && 0 <= s < 60 && 0 <= s' < 60
    ensures a == a' && s == s'
  {
  }

  /** A civil time, to its instant and back to its own zone: the same time, for times that are no leap second
      and instants that 64 bits hold. */
  method BackAndThere(ct: Caltime, leapTable: LeapTable)
    requires WellFormed(leapTable.leapsecs) && ct.Valid() && ct.second < 60
    requires 0 <= EPOCH + ct.Seconds() && EPOCH + ct.Seconds() + |leapTable.leapsecs| + 58486 < TWO64
    modifies ct, ct.date
    ensures ct.date.Value() == old(ct.date.Value()) && ct.offset == old(ct.offset)
    ensures ct.hour == old(ct.hour) && ct.minute == old(ct.minute) && ct.second == old(ct.second)
  {
    hide WellFormed, Subtracted, Added, DayNumber, ValidDate;
    ghost var d, h, m, s, o := ct.date.Value(), ct.hour, ct.minute, ct.second, ct.offset;
    ghost var v := EPOCH + ct.Seconds();
    var t := ct.Tai(leapTable);
    SubUndoesAdd(leapTable.leapsecs, v, 0);
    var zone := ct.offset;
    var w := ct.Utc(t, leapTable);
    CivilWraps(v, false);
    assert EPOCH + ct.Seconds() == v;
    SameSeconds(ct.Minutes(), ct.second, DayNumber(d) * 1440 + h * 60 + m - o, s);
    w := ct.ShiftOffset(zone);
    SameClock(DayNumber(ct.date.Value()), ct.hour, ct.minute, ct.second, DayNumber(d), h, m, s, o);
    DatesDiffer(ct.date.Value(), d);
  }
}
