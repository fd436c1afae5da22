/** FormatDate, DecodeDateString and DecodeTimeZone as loops over the characters. */
module DateText {
  import opened Calendar
  import opened LeapSeconds
  import opened CivilTime
  import opened Digits
  import opened IsoText
  import opened Numerals

  lemma Suffix(s: string, i: nat)
    requires i < |s|
    ensures s[i..][0] == s[i] && s[i..][1..] == s[i + 1..]
  {
  }

  /** Moves over white space. */
  method SkipSpaces(s: string, i: nat) returns (j: nat)
    requires i <= |s|
    ensures i <= j <= |s| && SkipSpace(s[i..]) == s[j..]
  {
    j := i;
    while j < |s| && IsSpace(s[j])
      invariant i <= j <= |s| && SkipSpace(s[i..]) == SkipSpace(s[j..])
    {
      Suffix(s, j);
      j := j + 1;
    }
  }

  lemma OneMoreDigit(s: string, i: nat, j: nat)
    requires i <= j < |s| && AllDigits(s[i..j]) && IsDigit(s[j])
    ensures AllDigits(s[i..j + 1]) && DigitsValue(s[i..j + 1]) == 10 * DigitsValue(s[i..j]) + CharDigit(s[j])
  {
    assert s[i..j + 1] == s[i..j] + [s[j]];
    assert s[i..j + 1][..j - i] == s[i..j];
  }

  lemma AllRead(s: string, i: nat, j: nat)
    requires i < j <= |s| && AllDigits(s[i..j]) && (j < |s| ==> !IsDigit(s[j]))
    ensures Number(s[i..]) == Some((DigitsValue(s[i..j]), s[j..]))
  {
    LeadingIs(s[i..j], s[j..]);
    assert s[i..] == s[i..j] + s[j..];
    assert s[i..][j - i..] == s[j..];
  }

  /** strtol at a digit; without a digit nothing is read. */
  method ReadNumber(s: string, i: nat) returns (ok: bool, v: int, j: nat)
    requires i <= |s|
    ensures i <= j <= |s| && Number(s[i..]) == (if ok then Some((v, s[j..])) else None) && (!ok ==> j == i)
  {
    hide DigitsValue;
    ok, v, j := i < |s| && IsDigit(s[i]), 0, i;
    if !ok {
      return;
    }
    assert s[i..i] == "";
    NoDigits();
    while j < |s| && IsDigit(s[j])
      invariant i <= j <= |s| && AllDigits(s[i..j]) && v == DigitsValue(s[i..j]) && (j == i ==> IsDigit(s[i]))
    {
      OneMoreDigit(s, i, j);
      v := 10 * v + CharDigit(s[j]);
      j := j + 1;
    }
    AllRead(s, i, j);
  }

  method ReadNumberThen(s: string, i: nat, c: char) returns (ok: bool, v: int, j: nat)
    requires i <= |s|
    ensures i <= j <= |s| && NumberThen(s[i..], c) == if ok then Some((v, s[j..])) else None
  {
    hide Number;
    ok, v, j := ReadNumber(s, i);
    if !ok || j >= |s| || s[j] != c {
      ok := false;
      return;
    }
    Suffix(s, j);
    j := j + 1;
  }

  /** strtol in full. */
  method ReadStrtol(s: string, i: nat) returns (v: int, j: nat)
    requires i <= |s|
    ensures i <= j <= |s| && Strtol(s[i..]) == (v, s[j..])
  {
    hide Number, SkipSpace;
    var k := SkipSpaces(s, i);
    var negative := k < |s| && s[k] == '-';
    if k < |s| && (s[k] == '-' || s[k] == '+') {
      Suffix(s, k);
      k := k + 1;
    }
    var ok;
    ok, v, j := ReadNumber(s, k);
    if !ok {
      return 0, i;
    }
    if negative {
      v := -v;
    }
  }

  /** The zone in s from i on. */
  method DecodeTimeZone(s: string, i: nat, zones: map<string, int>) returns (ok: bool, offset: int)
    requires i <= |s|
    ensures ParseZone(s[i..], zones) == if ok then Some(offset) else None
  {
    hide Strtol;
    ok, offset := false, 0;
    if i == |s| {
      return;
    }
    Suffix(s, i);
    if s[i] == '+' || s[i] == '-' {
      if |s| - i != 5 {
        return;
      }
      var num, end := ReadStrtol(s, i + 1);
      if end != |s| {
        return;
      }
      if Quot(num, 100) > 23 || Rem(num, 100) > 59 {
        return;
      }
      offset := Quot(num, 100) * 60 + Rem(num, 100);
      if s[i] == '-' {
        offset := offset * -1;
      }
      return true, offset;
    }
    if s[i..] in zones {
      return true, zones[s[i..]];
    }
  }

  /** What follows the seconds. */
  method DecodeTail(s: string, i: nat, offset0: int, zones: map<string, int>) returns (ok: bool, offset: int)
    requires i <= |s|
    ensures ParseTail(s[i..], offset0, zones) == if ok then Some(offset) else None
  {
    hide SkipSpace, ParseZone, DigitsValue;
    var j := i;
    if i + 1 < |s| && s[i] == '.' && IsDigit(s[i + 1]) {
      Suffix(s, i);
      var digits, frac;
      digits, frac, j := ReadNumber(s, i + 1);
      assert s[i..][1..] == s[i + 1..] && s[i + 1..][|Leading(s[i + 1..])|..] == s[j..];
    }
    var end := SkipSpaces(s, j);
    ok, offset := true, offset0;
    if end == |s| {
      return;
    }
    if end - j > 0 {
      ok, offset := DecodeTimeZone(s, end, zones);
    } else {
      ok := false;
    }
  }

  /** Hours, minutes, seconds and what follows. */
  method DecodeClock(s: string, i: nat, lt: Caltime, offset0: int, zones: map<string, int>) returns (ok: bool)
    requires i <= |s|
    modifies lt
    ensures match ParseClock(s[i..], lt.date.year, lt.date.month, lt.date.day, offset0, zones)
      case None => !ok
      case Some(f) =>
        ok && f.hour == lt.hour && f.minute == lt.minute && f.second == lt.second && f.offset == lt.offset &&
                      f.year == lt.date.year && f.month == lt.date.month && f.day == lt.date.day
  {
    hide NumberThen, Number, ParseTail;
    var j := i;
    ok, lt.hour, j := ReadNumberThen(s, j, ':');
    if !ok {
      return;
    }
    ok, lt.minute, j := ReadNumberThen(s, j, ':');
    if !ok {
      return;
    }
    ok, lt.second, j := ReadNumber(s, j);
    if !ok {
      return;
    }
    ok, lt.offset := DecodeTail(s, j, offset0, zones);
  }

  /** The fields of a text in lt, when it can be read. */
  method DecodeFields(s: string, lt: Caltime, offset0: int, zones: map<string, int>) returns (ok: bool)
    modifies lt, lt.date
    ensures match ParseIso(s, offset0, zones)
      case None => !ok
      case Some(f) =>
        ok && f.hour == lt.hour && f.minute == lt.minute && f.second == lt.second && f.offset == lt.offset &&
                      f.year == lt.date.year && f.month == lt.date.month && f.day == lt.date.day
  {
    hide NumberThen, Number, ParseClock, SkipSpace;
    assert s[0..] == s;
    var i := SkipSpaces(s, 0);
    var date := lt.date;
    ok, date.year, i := ReadNumberThen(s, i, '-');
    if !ok {
      return;
    }
    ok, date.month, i := ReadNumberThen(s, i, '-');
    if !ok {
      return;
    }
    ok, date.day, i := ReadNumber(s, i);
    if !ok || i == |s| || !IsSpace(s[i]) {
      return false;
    }
    Suffix(s, i);
    i := SkipSpaces(s, i + 1);
    ok := DecodeClock(s, i, lt, offset0, zones);
  }

  /** Seconds from the origin of the day numbers, in UTC. */
  ghost function SecondsOf(f: Fields): int
  {
    (DayNumber(Date(f.year, f.month, f.day)) * 1440 + f.hour * 60 + f.minute - f.offset) * 60 + f.second
  }

  /** The instant that fields stand for. */
  ghost function InstantOf(f: Fields, table: seq<Uint64>): Uint64
  {
    Added(table, Wrap(EPOCH + SecondsOf(f)), f.second == 60, 0)
  }

  /** A text as an instant. */
  method DecodeDateString(s: string, offset0: int, zones: map<string, int>, leapTable: LeapTable)
    returns (ok: bool, t: Uint64)
    ensures match ParseIso(s, offset0, zones)
      case None => !ok
      case Some(f) => ok && t == InstantOf(f, leapTable.leapsecs)
  {
    hide ParseIso, DayNumber, Added;
    var lt := new Caltime();
    t := 0;
    ok := DecodeFields(s, lt, offset0, zones);
    if ok {
      t := lt.Tai(leapTable);
    }
  }

  /** The first second of 1970 is 2^62 + 10, before any leap second; later seconds count on from there. */
  lemma EpochIs(h: int, m: int, s: int)
    ensures 0x4000_0000_0000_0000 + 10 == EPOCH + SecondsOf(Fields(1970, 1, 1, 0, 0, 0, 0))
    ensures SecondsOf(Fields(1970, 1, 1, h, m, s, 0)) ==
      SecondsOf(Fields(1970, 1, 1, 0, 0, 0, 0)) + 3600 * h + 60 * m + s
  {
    assert DayNumber(Date(1970, 1, 1)) == 40587;
    hide DayNumber;
  }

  /** The leap second at the end of June 1972, the first of all, and the seconds around it. */
  lemma FirstLeapSecond()
    ensures var x, table := 4611686018506184714, [4611686018506184714];
      x == Wrap((DayNumber(Date(1972, 6, 30)) + 1) * 86400 + EPOCH + 0) && WellFormed(table) &&
      InstantOf(Fields(1972, 6, 30, 23, 59, 59, 0), table) == x - 1 &&
      InstantOf(Fields(1972, 6, 30, 23, 59, 60, 0), table) == x &&
      InstantOf(Fields(1972, 7, 1, 0, 0, 0, 0), table) == x + 1
  {
    hide *;
    var x, table := 4611686018506184714, [4611686018506184714];
    EndOfJune(x, table);
    SecondsAround(x);
    OneEntry(x, x - 1, false);
    OneEntry(x, x, true);
    OneEntry(x, x, false);
  }

  lemma MidYear()
    ensures DayNumber(Date(1972, 6, 30)) == 41498 && DayNumber(Date(1972, 7, 1)) == 41499
  {
  }

  lemma EndOfJune(x: Uint64, table: seq<Uint64>)
    requires x == 4611686018506184714 && table == [x]
    ensures x == Wrap((DayNumber(Date(1972, 6, 30)) + 1) * 86400 + EPOCH + 0) && WellFormed(table)
  {
    hide DayNumber;
    MidYear();
  }

  lemma SecondsAround(x: Uint64)
    requires x == 4611686018506184714
    ensures var a, b, c :=
        Fields(1972, 6, 30, 23, 59, 59, 0), Fields(1972, 6, 30, 23, 59, 60, 0), Fields(1972, 7, 1, 0, 0, 0, 0);
      forall table: seq<Uint64> :: InstantOf(a, table) == Added(table, x - 1, false, 0) &&
        InstantOf(b, table) == Added(table, x, true, 0) && InstantOf(c, table) == Added(table, x, false, 0)
  {
    hide DayNumber, Added;
    MidYear();
  }

  lemma OneEntry(x: Uint64, u: Uint64, hit: bool)
    requires x == 4611686018506184714 && u <= x
    ensures Added([x], u, hit, 0) == if u < x || hit then u else x + 1
  {
  }

  /** The fields are those of the instant t in a zone. */
  ghost predicate Shows(f: Fields, t: Uint64, zone: int, table: seq<Uint64>)
  {
    var (v, hit) := Subtracted(table, t, 0);
    ValidDate(Date(f.year, f.month, f.day)) && 0 <= f.hour < 24 && 0 <= f.minute < 60 &&
    (if hit then 1 <= f.second <= 60 else 0 <= f.second < 60) && f.offset == zone && SecondsOf(f) == Civil(v, hit)
  }

  /** An instant has only one set of fields in a zone. */
  lemma ShowsOne(f: Fields, g: Fields, t: Uint64, zone: int, table: seq<Uint64>)
    requires Shows(f, t, zone, table) && Shows(g, t, zone, table)
    ensures f == g
  {
    hide DayNumber, ValidDate, Subtracted, Civil;
    var (v, hit) := Subtracted(table, t, 0);
    var c, l := Civil(v, hit), if hit then 1 else 0;
    var d, e := DayNumber(Date(f.year, f.month, f.day)), DayNumber(Date(g.year, g.month, g.day));
    SameSeconds(d * 1440 + f.hour * 60 + f.minute - f.offset, f.second - l,
                e * 1440 + g.hour * 60 + g.minute - g.offset, g.second - l);
    SameClock(d, f.hour, f.minute, f.second, e, g.hour, g.minute, g.second, zone);
    DatesDiffer(Date(f.year, f.month, f.day), Date(g.year, g.month, g.day));
  }

  /** The fields of an instant stand for it. */
  lemma ShowsInstant(f: Fields, t: Uint64, zone: int, table: seq<Uint64>)
    requires WellFormed(table) && Shows(f, t, zone, table)
    ensures InstantOf(f, table) == t && (f.second == 60 <==> Subtracted(table, t, 0).1)
  {
    AddUndoesSub(table, t);
    SecondsWhole(f);
    hide DayNumber, ValidDate, Subtracted, WellFormed, Added, SecondsOf, Civil;
    var (v, hit) := Subtracted(table, t, 0);
    CivilWraps(v, hit);
    if hit {
      WholeMinutes(v, SecondsOf(f), f.second);
    }
  }

  lemma SecondsWhole(f: Fields)
    ensures (SecondsOf(f) - f.second) % 60 == 0
  {
    hide DayNumber;
  }

  /** An instant as text. The nine digits of the ticks are printed first and cut off again. */
  method FormatDate(t: Uint64, zone: int, short: bool, ticks: nat, leapTable: LeapTable)
    returns (text: string, ghost f: Fields)
    requires ticks < 1_000_000_000
    ensures Shows(f, t, zone, leapTable.leapsecs) && text == IsoText.IsoText(f, short)
  {
    hide Padded, ZoneText, Subtracted, DayNumber, ValidDate, Civil;
    var lt := new Caltime();
    var w := lt.Utc(t, leapTable);
    w := lt.ShiftOffset(zone);
    f := Fields(lt.date.year, lt.date.month, lt.date.day, lt.hour, lt.minute, lt.second, lt.offset);
    assert lt.date.Value() == Date(f.year, f.month, f.day);
    var buffer0 :=
      Padded(lt.date.year, 4) + ("-" + (Padded(lt.date.month, 2) + ("-" + Padded(lt.date.day, 2)))) +
      (" " + (Padded(lt.hour, 2) + (":" + (Padded(lt.minute, 2) + (":" + Padded(lt.second, 2))))));
    ghost var head := buffer0;
    buffer0 := buffer0 + ("." + Padded(ticks, 9));
    NineDigits(ticks);
    buffer0 := buffer0[..|buffer0| - 9 - 1];
    assert buffer0 == head;
    if short {
      text := buffer0;
      assert ClockText(f) + "" == ClockText(f);
    } else {
      text := buffer0 + (" " + ZoneText(zone));
    }
    assert text == IsoText.IsoText(f, short);
  }

  lemma WholeMinutes(v: int, s: int, second: int)
    requires EPOCH <= v + 1 <= TWO64 - 86400 && (v + 1 - EPOCH) % 86400 == 0 && s == Civil(v, true)
    requires 1 <= second <= 60 && (s - second) % 60 == 0
    ensures second == 60
  {
    var d := (v + 1 - EPOCH) / 86400;
    assert s == v + 1 - EPOCH == 86400 * d;
    var k := (s - second) / 60;
    assert s - second == 60 * k;
    WholeIn(1440 * d - k, second);
  }

  lemma WholeIn(k: int, second: int)
    requires second == 60 * k && 1 <= second <= 60
    ensures second == 60
  {
  }

  lemma NineDigits(n: nat)
    requires n < 1_000_000_000
    ensures |Padded(n, 9)| == 9
  {
    NumeralLength(n, 9);
  }

  /** What FormatDate writes DecodeDateString reads as the same instant, exactly when the local year is not
      negative and the zone, if it is shown, is less than a day. */
  method TextAndBack(t: Uint64, zone: int, short: bool, ticks: nat, zones: map<string, int>, leapTable: LeapTable)
    returns (ok: bool, back: Uint64, ghost f: Fields)
    requires ticks < 1_000_000_000 && WellFormed(leapTable.leapsecs)
    ensures Shows(f, t, zone, leapTable.leapsecs)
    ensures ok <==> f.year >= 0 && (short || -1440 < zone < 1440)
    ensures ok ==> back == t
  {
    hide *;
    var text;
    text, f := FormatDate(t, zone, short, ticks, leapTable);
    ShowsInstant(f, t, zone, leapTable.leapsecs);
    ShowsFields(f, t, zone, leapTable.leapsecs);
    ok, back := DecodeDateString(text, zone, zones, leapTable);
    PositiveDate(Date(f.year, f.month, f.day));
    TextReads(f, short, zone, zones);
    assert short ==> f.(offset := zone) == f;
  }

  lemma ShowsFields(f: Fields, t: Uint64, zone: int, table: seq<Uint64>)
    requires Shows(f, t, zone, table)
    ensures ValidDate(Date(f.year, f.month, f.day)) && 0 <= f.hour && 0 <= f.minute && 0 <= f.second && f.offset == zone
  {
    hide ValidDate, DayNumber, Subtracted, Civil;
  }

  lemma PositiveDate(d: Date)
    requires ValidDate(d)
    ensures d.month >= 0 && d.day >= 0
  {
  }
}
