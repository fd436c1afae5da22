/** Days and dates of the proleptic Gregorian calendar: caldate_mjd, caldate_frommjd, caldate_normalize,
    caldate_easter. */
module Calendar {

  /** Division and remainder as C computes them: towards zero. */
  function Quot(a: int, b: nat): int
    requires b > 0
  {
    if a >= 0 then a / b else 0 - (0 - a) / b
  }

  function Rem(a: int, b: nat): int
    requires b > 0
  {
    if a >= 0 then a % b else 0 - (0 - a) % b
  }

  datatype Date = Date(year: int, month: int, day: int)

  predicate Leap(y: int)
  {
    y % 4 == 0 && (y % 100 != 0 || y % 400 == 0)
  }

  function MonthLength(y: int, m: int): int
    requires 1 <= m <= 12
  {
    if m == 2 then (if Leap(y) then 29 else 28)
    else if m == 4 || m == 6 || m == 9 || m == 11 then 30
    else 31
  }

  predicate ValidDate(d: Date)
  {
    1 <= d.month <= 12 && 1 <= d.day <= MonthLength(d.year, d.month)
  }

  function NextDay(d: Date): (n: Date)
    requires ValidDate(d)
    ensures ValidDate(n)
  {
    if d.day < MonthLength(d.year, d.month) then d.(day := d.day + 1)
    else if d.month < 12 then Date(d.year, d.month + 1, 1)
    else Date(d.year + 1, 1, 1)
  }

  /** Days before month m of a year that begins in March; m counts from March. */
  const MONTAB: seq<nat> := [0, 31, 61, 92, 122, 153, 184, 214, 245, 275, 306, 337]

  /** The year, beginning in March, and the month in it, of any month number. */
  function MarchYear(y: int, month: int): int
  {
    y + (month - 3) / 12
  }

  function MarchMonth(month: int): (m: nat)
    ensures m < 12
  {
    (month - 3) % 12
  }

  /** Days before the March year y, counted from that of year 0. */
  function YearStart(y: int): int
  {
    365 * y + y / 4 - y / 100 + y / 400
  }

  /** The modified Julian day of a date, for any month and day numbers, also overflowing ones. */
  function DayNumber(d: Date): int
  {
    YearStart(MarchYear(d.year, d.month)) + MONTAB[MarchMonth(d.month)] + d.day - 678882
  }

  /** A March year has 366 days when it ends with a leap February. */
  lemma YearLength(y: int)
    ensures YearStart(y + 1) == YearStart(y) + if Leap(y + 1) then 366 else 365
  {
    NextFloor4(y);
    NextFloor100(y);
    NextFloor400(y);
  }

  lemma NextFloor4(y: int)
    ensures (y + 1) / 4 == y / 4 + if (y + 1) % 4 == 0 then 1 else 0
  {
  }

  lemma NextFloor100(y: int)
    ensures (y + 1) / 100 == y / 100 + if (y + 1) % 100 == 0 then 1 else 0
    ensures (y + 1) % 100 == 0 ==> (y + 1) % 4 == 0
  {
  }

  lemma NextFloor400(y: int)
    ensures (y + 1) / 400 == y / 400 + if (y + 1) % 400 == 0 then 1 else 0
    ensures (y + 1) % 400 == 0 ==> (y + 1) % 100 == 0
  {
    var q, r := y / 400, y % 400;
    if r == 399 {
      Floor400(y + 1, q + 1, 0);
      Whole100(y + 1, 4 * (q + 1));
    } else {
      Floor400(y + 1, q, r + 1);
    }
  }

  lemma Floor400(a: int, q: int, r: int)
    requires a == 400 * q + r && 0 <= r < 400
    ensures a / 400 == q && a % 400 == r
  {
  }

  lemma Whole100(a: int, k: int)
    requires a == 100 * k
    ensures a % 100 == 0
  {
  }

  lemma YearsApart(y: int, z: int)
    requires y < z
    ensures YearStart(y + 1) <= YearStart(z)
  {
    assert (y + 1) / 4 <= z / 4;
    Hundreds(y + 1, z);
  }

  lemma Hundreds(y: int, z: int)
    requires y <= z
    ensures z / 100 - y / 100 <= z - y && y / 400 <= z / 400 && y / 4 <= z / 4
  {
  }

  /** A date and its day in the March year. */
  lemma InYear(d: Date)
    requires ValidDate(d)
    ensures var o := MONTAB[MarchMonth(d.month)] + d.day - 1;
      0 <= o < YearStart(MarchYear(d.year, d.month) + 1) - YearStart(MarchYear(d.year, d.month))
    ensures MarchMonth(d.month) < 11 ==> MONTAB[MarchMonth(d.month)] + d.day - 1 < MONTAB[MarchMonth(d.month) + 1]
    ensures MarchMonth(d.month) == if d.month >= 3 then d.month - 3 else d.month + 9
    ensures MarchYear(d.year, d.month) == if d.month >= 3 then d.year else d.year - 1
  {
    YearLength(MarchYear(d.year, d.month));
  }

  /** Day numbers tell valid dates apart. */
  lemma DatesDiffer(a: Date, b: Date)
    requires ValidDate(a) && ValidDate(b) && DayNumber(a) == DayNumber(b)
    ensures a == b
  {
    hide *;
    Placed(a);
    Placed(b);
    var y, z := MarchYear(a.year, a.month), MarchYear(b.year, b.month);
    if y < z {
      YearsApart(y, z);
    } else if z < y {
      YearsApart(z, y);
    }
    var m, n := MarchMonth(a.month), MarchMonth(b.month);
    MonthsApart(m, n);
    MonthsApart(n, m);
    MonthOnce(a.month, b.month);
    SameDate(a, b);
  }

  /** Where a date lies in its March year. */
  lemma Placed(d: Date)
    requires ValidDate(d)
    ensures var y, m := MarchYear(d.year, d.month), MarchMonth(d.month);
      DayNumber(d) == YearStart(y) + MONTAB[m] + d.day - 678882 &&
      MONTAB[m] + d.day - 1 < YearStart(y + 1) - YearStart(y) &&
      d.day >= 1 && MONTAB[m] >= 0 && (m < 11 ==> MONTAB[m] + d.day - 1 < MONTAB[m + 1]) && 1 <= d.month <= 12
    ensures MarchYear(d.year, d.month) == if d.month >= 3 then d.year else d.year - 1
  {
    InYear(d);
    hide YearStart, MarchYear, MarchMonth, MONTAB;
  }

  lemma MonthOnce(a: int, b: int)
    requires 1 <= a <= 12 && 1 <= b <= 12 && MarchMonth(a) == MarchMonth(b)
    ensures a == b
  {
  }

  lemma SameDate(a: Date, b: Date)
    requires a.year == b.year && a.month == b.month && a.day == b.day
    ensures a == b
  {
  }

  lemma MonthsApart(m: nat, n: nat)
    requires m < 12 && n < 12
    ensures m < n ==> MONTAB[m + 1] <= MONTAB[n]
  {
  }

  /** The day after has the next day number. */
  lemma NextDayNumber(d: Date)
    requires ValidDate(d)
    ensures DayNumber(NextDay(d)) == DayNumber(d) + 1
  {
    YearLength(d.year - 1);
    hide YearStart, Leap;
    if d.day < MonthLength(d.year, d.month) {
    } else if d.month == 2 {
      assert MarchYear(d.year, 2) == d.year - 1 && MarchYear(d.year, 3) == d.year;
      assert MarchMonth(2) == 11 && MarchMonth(3) == 0;
    } else if d.month == 12 {
      assert MarchYear(d.year, 12) == d.year == MarchYear(d.year + 1, 1);
      assert MarchMonth(12) == 9 && MarchMonth(1) == 10;
    } else {
      MonthAhead(d.year, d.month);
    }
  }

  lemma MonthAhead(y: int, m: int)
    requires 1 <= m < 12 && m != 2
    ensures MarchYear(y, m + 1) == MarchYear(y, m) && MarchMonth(m + 1) == MarchMonth(m) + 1
    ensures MONTAB[MarchMonth(m + 1)] == MONTAB[MarchMonth(m)] + MonthLength(y, m)
  {
    assert MarchMonth(m) == if m >= 3 then m - 3 else m + 9;
  }

  /** Days since the first of January. */
  function DayOfYear(d: Date): int
  {
    DayNumber(d) - DayNumber(Date(d.year, 1, 1))
  }

  /** The days that the calendar's code counts with a leap day that is not there. */
  predicate CountsLeapDay(d: Date)
  {
    d.month >= 3 && d.year % 100 == 0 && d.year % 400 != 0
  }

  lemma FirstOfFour(y: int, b: int, s: nat, e: nat, d: nat)
    requires y == b * 4 + e && e <= 3 && s == 365 * e + d && d <= 365
    ensures s < 306 <==> y % 4 == 0 && d < 306
  {
    RestOfFour(y, b, e);
  }

  lemma RestOfFour(y: int, b: int, e: nat)
    requires y == b * 4 + e && e <= 3
    ensures y % 4 == e
  {
  }

  /** The day of the year from the day of the March year. */
  lemma YearDayFound(date: Date, start: int, o: nat)
    requires ValidDate(date) && DayNumber(date) == YearStart(start) + o - 678881
    requires date.year == (if date.month >= 3 then start else start + 1) && (date.month >= 3 <==> o < 306)
    ensures DayOfYear(date) ==
      (if o >= 306 then o - 306 else o + 59 + if start % 4 == 0 then 1 else 0) - if CountsLeapDay(date) then 1 else 0
  {
    YearLength(start - 1);
    assert MarchYear(date.year, 1) == date.year - 1 && MarchMonth(1) == 10;
    hide YearStart;
    Centuries(start);
  }

  lemma Centuries(y: int)
    ensures y % 100 == 0 ==> y % 4 == 0
    ensures y % 400 == 0 ==> y % 100 == 0
  {
  }

  /** 1 March 1900 is day 59 of its year, and is given as day 60. */
  lemma MarchOfACentury()
    ensures DayOfYear(Date(1900, 3, 1)) == 59 && CountsLeapDay(Date(1900, 3, 1))
  {
  }

  /** The calendar's origin: 17 November 1858. */
  lemma DayZero()
    ensures ValidDate(Date(1858, 11, 17)) && DayNumber(Date(1858, 11, 17)) == 0
  {
  }

  /** The date of a caller, which the operations overwrite. */
  class Caldate {
    var year: int
    var month: int
    var day: int

    constructor (year: int, month: int, day: int)
      ensures this.year == year && this.month == month && this.day == day
    {
      this.year, this.month, this.day := year, month, day;
    }

    ghost function Value(): Date
      reads this
    {
      Date(year, month, day)
    }

    /** The part of the day number that the year gives, once it is between 0 and 399. */
    static method WithinCentury(y0: nat) returns (d: int)
      requires y0 < 400
      ensures d == YearStart(y0)
    {
      hide YearStart;
      var y := y0;
      ghost var e := y % 4;
      d := 365 * (y % 4);
      y := y / 4;
      ghost var b := y % 25;
      d := d + 1461 * (y % 25);
      y := y / 25;
      assert y0 == 100 * y + 4 * b + e && y <= 3;
      d := d + 36524 * (y % 4);
      YearInside(y0, y, b, e);
    }

    /** The modified Julian day of the date. */
    method Mjd() returns (d: int)
      ensures d == DayNumber(Value())
    {
      hide YearStart;
      d := day - 678882;
      var m := month - 1;
      var y := year;
      d := d + 146097 * Quot(y, 400);
      y := Rem(y, 400);
      ghost var q := Quot(year, 400);
      if m >= 2 {
        m := m - 2;
      } else {
        m := m + 10;
        y := y - 1;
      }
      y := y + Quot(m, 12);
      m := Rem(m, 12);
      if m < 0 {
        m := m + 12;
        y := y - 1;
      }
      MonthIs(month, m, y, year, q);
      d := d + MONTAB[m];
      d := d + 146097 * Quot(y, 400);
      q := q + Quot(y, 400);
      y := Rem(y, 400);
      if y < 0 {
        y := y + 400;
        d := d - 146097;
        q := q - 1;
      }
      var e := WithinCentury(y);
      d := d + e;
      FourCenturies(y, q);
    }

    /** The March year, and the day in it, of day d0 of the four centuries c. */
    static method YearAndDay(c: int, d0: nat) returns (y: int, d: nat, first: bool)
      requires d0 < 146097
      ensures YearStart(y) + d == 146097 * c + d0 && d <= 365 && (d == 365 ==> Leap(y + 1))
      ensures first <==> y % 4 == 0 && d < 306
    {
      hide *;
      y, d := c * 4, d0;
      ghost var a := if d == 146096 then 3 else d / 36524;
      if d == 146096 {
        y := y + 3;
        d := 36524;
      } else {
        y := y + d / 36524;
        d := d % 36524;
      }
      CenturyFound(d0, a, d);
      ghost var r, b := d, d / 1461;
      y := y * 25;
      y := y + d / 1461;
      d := d % 1461;
      FourYearsFound(r, b, d);
      ghost var s := d;
      ghost var e := if d == 1460 then 3 else d / 365;
      y := y * 4;
      first := d < 306;
      if d == 1460 {
        y := y + 3;
        d := 365;
      } else {
        y := y + d / 365;
        d := d % 365;
      }
      OneYearFound(s, e, d);
      YearFound(c, d0, y, d, a, r, b, s, e);
      FirstOfFour(y, (c * 4 + a) * 25 + b, s, e, d);
    }

    /** Month and day of day d0 of a March year that begins y0, and what the month adds to the day of the year. */
    static method MonthAndDay(y0: int, d0: nat) returns (y: int, m: int, d: nat, shift: int)
      requires d0 <= 365
      ensures 1 <= m + 1 <= 12 && MONTAB[MarchMonth(m + 1)] + d == d0
      ensures MarchMonth(m + 1) < 11 ==> d0 < MONTAB[MarchMonth(m + 1) + 1]
      ensures y == if m + 1 >= 3 then y0 else y0 + 1
      ensures if d0 < 306 then m + 1 >= 3 && shift == 59 else m + 1 < 3 && shift == -306
    {
      hide *;
      y, d := y0, d0 * 10;
      m := (d + 5) / 306;
      d := (d + 5) % 306;
      d := d / 10;
      MonthFound(d0, m, d);
      MonthNamed(m);
      if m >= 10 {
        shift := -306;
        y := y + 1;
        m := m - 10;
      } else {
        shift := 59;
        m := m + 2;
      }
    }

    /** Makes the date day d0 of the March year y0; first tells the days from March on of every fourth year. */
    method FromYearAndDay(y0: int, d0: nat, first: bool) returns (yday: int)
      requires d0 <= 365 && (d0 == 365 ==> Leap(y0 + 1)) && (first <==> y0 % 4 == 0 && d0 < 306)
      modifies this
      ensures ValidDate(Value()) && DayNumber(Value()) == YearStart(y0) + d0 - 678881
      ensures yday == DayOfYear(Value()) + if CountsLeapDay(Value()) then 1 else 0
    {
      hide YearStart, ValidDate, DayNumber, MarchMonth, MarchYear, Leap, DayOfYear, CountsLeapDay, MONTAB;
      yday := if first then 1 else 0;
      yday := yday + d0;
      var y, m, d, shift := MonthAndDay(y0, d0);
      yday := yday + shift;
      year := y;
      month := m + 1;
      day := d + 1;
      DateFound(Value(), y0, d0);
      YearDayFound(Value(), y0, d0);
    }

    /** Makes the date that of a modified Julian day; the results are the day of the week, Sunday being 0, and the
        day of the year, which is one too large from March on in a year that only is no leap year as a century. */
    method FromMjd(mjd: int) returns (wday: nat, yday: int)
      modifies this
      ensures ValidDate(Value()) && DayNumber(Value()) == mjd
      ensures wday == (mjd + 3) % 7
      ensures yday == DayOfYear(Value()) + if CountsLeapDay(Value()) then 1 else 0
    {
      hide YearStart, ValidDate, DayNumber, Leap;
      var y := Quot(mjd, 146097);
      var d := Rem(mjd, 146097);
      d := d + 678881;
      while d >= 146097
        invariant d >= 0 && y * 146097 + d - 678881 == mjd
      {
        d := d - 146097;
        y := y + 1;
      }
      wday := (d + 3) % 7;
      Weekday(y, d, mjd);
      var first;
      y, d, first := YearAndDay(y, d);
      yday := FromYearAndDay(y, d, first);
    }

    /** Brings month and day numbers into range. */
    method Normalize()
      modifies this
      ensures ValidDate(Value()) && DayNumber(Value()) == old(DayNumber(Value()))
      ensures old(ValidDate(Value())) ==> Value() == old(Value())
    {
      hide ValidDate, DayNumber;
      ghost var before := Value();
      var d := Mjd();
      var w, yd := FromMjd(d);
      if ValidDate(before) {
        DatesDiffer(before, Value());
      }
    }

    /** The last day that Easter can fall on after the full moon, in days of March. */
    static method WeekAfterMoon(y: int) returns (t: int, n: int)
      ensures y >= 0 ==> 28 <= n <= 56 && n == FullMoon(y) + 7 && t == 210 - (y / 100 + 1) * 3 / 4 % 210
    {
      hide *;
      var c := Quot(y, 100) + 1;
      t := 210 - Rem(Quot(c * 3, 4), 210);
      var j := Rem(y, 19);
      n := 57 - Rem(14 + j * 11 + Quot(c * 8 + 5, 25) + t, 30);
      if n == 56 && j > 10 {
        n := n - 1;
      }
      if n == 57 {
        n := n - 1;
      }
      if y >= 0 {
        MoonAfter(y, c, t, j, n);
      }
    }

    /** Sets month and day to Easter of the year: the first Sunday after the full moon of spring. Before year 0 the
        remainders turn negative, and nothing is promised. */
    method Easter()
      modifies this
      ensures year == old(year)
      ensures year >= 0 ==> ValidDate(Value()) && (DayNumber(Value()) + 3) % 7 == 0
      ensures year >= 0 ==> 1 <= DayNumber(Value()) - DayNumber(Date(year, 3, FullMoon(year))) <= 7
      ensures year >= 0 ==> (month == 3 && day >= 22) || (month == 4 && day <= 25)
    {
      hide ValidDate, DayNumber, FullMoon, Quot, Rem;
      var y := year;
      var t, n := WeekAfterMoon(y);
      ghost var moon := n - 7;
      var w := Rem(Quot(Rem(y, 28) * 5, 4) + t + n + 2, 7);
      n := n - w;
      if y >= 0 {
        SundayAfter(y, t, n, w, moon);
      }
      if n < 32 {
        month, day := 3, n;
      } else {
        month, day := 4, n - 31;
      }
    }
  }

  lemma MonthIs(month: int, m: int, y: int, year: int, q: int)
    requires 0 <= m < 12 && month - 3 == 12 * (y + 400 * q - year) + m
    ensures m == MarchMonth(month) && y + 400 * q == MarchYear(year, month)
  {
  }

  lemma FourCenturies(y: nat, q: int)
    requires y < 400
    ensures YearStart(y + 400 * q) == YearStart(y) + 146097 * q
  {
    assert (y + 400 * q) / 4 == y / 4 + 100 * q;
    assert (y + 400 * q) / 100 == y / 100 + 4 * q;
    assert (y + 400 * q) / 400 == y / 400 + q;
  }

  lemma Weekday(y: int, d: nat, mjd: int)
    requires y * 146097 + d - 678881 == mjd
    ensures (d + 3) % 7 == (mjd + 3) % 7
  {
    Sevens(d + 3, mjd + 3, 20871 * y - 96983);
  }

  lemma Sevens(a: int, b: int, k: int)
    requires b == a + 7 * k
    ensures a % 7 == b % 7
  {
  }

  /** The century, the four years and the year that a day is in. */
  lemma CenturyFound(d0: nat, a: nat, r: nat)
    requires d0 < 146097
    requires a == (if d0 == 146096 then 3 else d0 / 36524) && r == if d0 == 146096 then 36524 else d0 % 36524
    ensures a <= 3 && d0 == 36524 * a + r && r <= 36524 && (r == 36524 ==> a == 3)
  {
  }

  lemma FourYearsFound(r: nat, b: nat, s: nat)
    requires r <= 36524 && b == r / 1461 && s == r % 1461
    ensures b <= 24 && r == 1461 * b + s && s <= 1460 && (b == 24 && s == 1460 ==> r == 36524)
  {
  }

  lemma OneYearFound(s: nat, e: nat, d: nat)
    requires s <= 1460
    requires e == (if s == 1460 then 3 else s / 365) && d == if s == 1460 then 365 else s % 365
    ensures e <= 3 && s == 365 * e + d && d <= 365 && (d == 365 ==> e == 3)
  {
  }

  /** The March year that day d0 of the four centuries c is in, and the day in that year. */
  lemma YearFound(c: int, d0: nat, y: int, d: nat, a: nat, r: nat, b: nat, s: nat, e: nat)
    requires d0 == 36524 * a + r && r == 1461 * b + s && s == 365 * e + d && a <= 3 && b <= 24 && e <= 3 && d <= 365
    requires d == 365 ==> e == 3 && s == 1460
    requires b == 24 && s == 1460 ==> a == 3
    requires y == ((c * 4 + a) * 25 + b) * 4 + e
    ensures YearStart(y) + d == 146097 * c + d0 && (d == 365 ==> Leap(y + 1))
  {
    var z := 100 * a + 4 * b + e;
    YearInside(z, a, b, e);
    FourCenturies(z, c);
    assert y == z + 400 * c;
    if d == 365 {
      LastDay(y, a, b, c);
    }
  }

  lemma LastDay(y: int, a: nat, b: nat, c: int)
    requires a <= 3 && b <= 24 && y == 100 * a + 4 * b + 3 + 400 * c && (b == 24 ==> a == 3)
    ensures Leap(y + 1)
  {
    var z := 100 * a + 4 * b + 4;
    assert y + 1 == z + 400 * c;
    FourHundredOn(z, c);
    SmallYear(a, b);
  }

  lemma FourHundredOn(z: nat, c: int)
    ensures (z + 400 * c) % 4 == z % 4 && (z + 400 * c) % 100 == z % 100 && (z + 400 * c) % 400 == z % 400
  {
    Mod4(z, z + 400 * c, 100 * c);
    Mod100(z, z + 400 * c, 4 * c);
    Mod400(z, z + 400 * c, c);
  }

  lemma Mod4(a: int, b: int, k: int)
    requires b == a + 4 * k
    ensures a % 4 == b % 4
  {
  }

  lemma Mod100(a: int, b: int, k: int)
    requires b == a + 100 * k
    ensures a % 100 == b % 100
  {
  }

  lemma Mod400(a: int, b: int, k: int)
    requires b == a + 400 * k
    ensures a % 400 == b % 400
  {
  }

  lemma SmallYear(a: nat, b: nat)
    requires a <= 3 && b <= 24 && (b == 24 ==> a == 3)
    ensures Leap(100 * a + 4 * b + 4)
  {
    assert b < 24 ==> (100 * a + 4 * b + 4) % 100 == 4 * b + 4;
  }

  lemma YearInside(y: nat, a: nat, b: nat, e: nat)
    requires a <= 3 && b <= 24 && e <= 3 && y == 100 * a + 4 * b + e
    ensures YearStart(y) == 36524 * a + 1461 * b + 365 * e
  {
  }

  /** The month that day o of a March year is in. */
  lemma MonthFound(o: nat, m: nat, d: nat)
    requires o < 366 && m == (o * 10 + 5) / 306 && d == (o * 10 + 5) % 306 / 10
    ensures m < 12 && MONTAB[m] + d == o && (m < 11 ==> o < MONTAB[m + 1]) && (m >= 10 <==> o >= 306)
  {
    assert m <= 11;
  }

  /** Months counted from March by their numbers. */
  lemma MonthNamed(m: nat)
    requires m < 12
    ensures MarchMonth(if m >= 10 then m - 9 else m + 3) == m
  {
  }

  lemma DateFound(date: Date, start: int, o: nat)
    requires o < 366 && (o == 365 ==> Leap(start + 1)) && 1 <= date.month <= 12 && date.day >= 1
    requires var m := MarchMonth(date.month); MONTAB[m] + date.day - 1 == o && (m < 11 ==> o < MONTAB[m + 1])
    requires date.year == if date.month >= 3 then start else start + 1
    ensures ValidDate(date) && DayNumber(date) == YearStart(start) + o - 678881
  {
  }

  /** March n of year y is a Sunday when the sum that Easter's rule makes is divisible by seven. */
  lemma Sunday(y: int, c: int, t: int, n: int)
    requires y >= 0 && c == y / 100 + 1 && t == 210 - c * 3 / 4 % 210 && (y % 28 * 5 / 4 + t + n + 2) % 7 == 0
    ensures (DayNumber(Date(y, 3, n)) + 3) % 7 == 0
    ensures n >= 32 ==> DayNumber(Date(y, 4, n - 31)) == DayNumber(Date(y, 3, n))
  {
    EasterCenturies(y, c, t);
    EasterYears(y);
    hide YearStart;
    assert DayNumber(Date(y, 3, n)) == YearStart(y) + n - 678882;
    assert n >= 32 ==> DayNumber(Date(y, 4, n - 31)) == DayNumber(Date(y, 3, n));
    SundaySum(y, t, n, y % 28 * 5 / 4);
  }

  /** The age of the moon at the turn of the year, as Clavius's tables give it from the year's place in the cycle of
      nineteen years and the corrections of the centuries. */
  function Epact(y: int): nat
  {
    var g, c := y % 19 + 1, y / 100 + 1;
    var e := (11 * g + 20 + ((8 * c + 5) / 25 - 5) - (3 * c / 4 - 12)) % 30;
    if e == 24 || (e == 25 && g > 11) then e + 1 else e
  }

  /** The full moon of spring: the first on or after 21 March, counted in days of March. */
  function FullMoon(y: int): nat
  {
    var e := Epact(y);
    if 44 - e < 21 then 74 - e else 44 - e
  }

  /** The remainders and quotients of numbers that are not negative. */
  lemma Unsigned(a: int, b: nat)
    requires a >= 0 && b > 0
    ensures Quot(a, b) == a / b >= 0 && 0 <= Rem(a, b) == a % b < b
  {
  }

  lemma MoonAfter(y: int, c: int, t: int, j: int, n: int)
    requires y >= 0 && c == Quot(y, 100) + 1 && t == 210 - Rem(Quot(c * 3, 4), 210) && j == Rem(y, 19)
    requires var m := 57 - Rem(14 + j * 11 + Quot(c * 8 + 5, 25) + t, 30);
      n == if m == 57 || (m == 56 && j > 10) then m - 1 else m
    ensures 28 <= n <= 56 && n == FullMoon(y) + 7 && t == 210 - (y / 100 + 1) * 3 / 4 % 210
  {
    hide *;
    Unsigned(y, 100);
    Unsigned(c * 3, 4);
    Unsigned(Quot(c * 3, 4), 210);
    Unsigned(y, 19);
    Unsigned(c * 8 + 5, 25);
    Unsigned(14 + j * 11 + Quot(c * 8 + 5, 25) + t, 30);
    MoonFound(y, c, t, j, n - 7);
  }

  lemma SundayAfter(y: int, t: int, n: int, w: int, moon: int)
    requires y >= 0 && t == 210 - (y / 100 + 1) * 3 / 4 % 210 && moon == FullMoon(y) && 21 <= moon <= 49
    requires w == Rem(Quot(Rem(y, 28) * 5, 4) + t + moon + 7 + 2, 7) && n == moon + 7 - w
    ensures 22 <= n <= 56 && 1 <= n - moon <= 7
    ensures n < 32 ==> ValidDate(Date(y, 3, n)) && (DayNumber(Date(y, 3, n)) + 3) % 7 == 0
    ensures n >= 32 ==> ValidDate(Date(y, 4, n - 31)) && (DayNumber(Date(y, 4, n - 31)) + 3) % 7 == 0
    ensures DayNumber(Date(y, 3, n)) - DayNumber(Date(y, 3, FullMoon(y))) == n - moon
    ensures n >= 32 ==> DayNumber(Date(y, 4, n - 31)) == DayNumber(Date(y, 3, n))
  {
    hide *;
    Unsigned(y, 28);
    Unsigned(Rem(y, 28) * 5, 4);
    SmallRest(y / 100 + 1);
    var a := y % 28 * 5 / 4 + t;
    Unsigned(a + moon + 7 + 2, 7);
    SundaySought(a, n, w);
    Sunday(y, y / 100 + 1, t, n);
    MarchDays(y, n, moon);
    InSpring(y, n);
  }

  lemma SmallRest(c: int)
    ensures 210 - c * 3 / 4 % 210 > 0
  {
  }

  lemma MoonFound(y: int, c: int, t: int, j: int, n: int)
    requires y >= 0 && c == y / 100 + 1 && t == 210 - c * 3 / 4 % 210 && j == y % 19
    requires var m := 57 - (14 + j * 11 + (c * 8 + 5) / 25 + t) % 30;
      n == (if m == 57 || (m == 56 && j > 10) then m - 1 else m) - 7
    ensures n == FullMoon(y)
  {
    var s, l := c * 3 / 4, (c * 8 + 5) / 25;
    Thirties(14 + j * 11 + l + t, 14 + j * 11 + l - s, 7 + s / 210 * 7);
    Thirties(11 * (j + 1) + 20 + (l - 5) - (s - 12), 14 + j * 11 + l - s - 6, 1);
    SixLess(14 + j * 11 + l - s);
  }

  lemma SundaySought(a: int, n: int, w: int)
    requires w == (a + (n + w) + 2) % 7
    ensures (a + n + 2) % 7 == 0
  {
  }

  lemma InSpring(y: int, n: int)
    requires 22 <= n <= 56
    ensures n < 32 ==> ValidDate(Date(y, 3, n))
    ensures n >= 32 ==> ValidDate(Date(y, 4, n - 31))
  {
  }

  lemma MarchDays(y: int, a: int, b: int)
    ensures DayNumber(Date(y, 3, a)) - DayNumber(Date(y, 3, b)) == a - b
  {
  }

  lemma Thirties(a: int, b: int, k: int)
    requires a == b + 30 * k
    ensures a % 30 == b % 30
  {
  }

  lemma SixLess(a: int)
    ensures (a - 6) % 30 == if a % 30 < 6 then a % 30 + 24 else a % 30 - 6
  {
  }

  lemma SevensApart(a: int, b: int) returns (i: int)
    requires a % 7 == b % 7
    ensures b == a + 7 * i
  {
    i := b / 7 - a / 7;
  }

  lemma SundaySum(y: int, t: int, n: int, w: int)
    requires y >= 0 && w % 7 == (y + y / 4) % 7 && t % 7 == (y / 400 - y / 100) % 7 && (w + t + n + 2) % 7 == 0
    ensures (YearStart(y) + n - 678882 + 3) % 7 == 0
  {
    var p, q, r := y / 4, y / 400, y / 100;
    var i := SevensApart(w, y + p);
    var j := SevensApart(t, q - r);
    Sevens(w + t + n + 2, YearStart(y) + n - 678882 + 3, i + j + 52 * y - 96983);
  }

  lemma EasterCenturies(y: int, c: int, t: int)
    requires y >= 0 && c == y / 100 + 1 && t == 210 - c * 3 / 4 % 210
    ensures t % 7 == (y / 400 - y / 100) % 7
  {
    var k := y / 100;
    assert k / 4 == y / 400;
    var x := c * 3 / 4;
    assert x == k - k / 4;
    var z := x / 210;
    assert x == 210 * z + x % 210;
    Sevens(t, k / 4 - k, -30 * z - 30);
  }

  lemma EasterYears(y: int)
    requires y >= 0
    ensures (y % 28 * 5 / 4) % 7 == (y + y / 4) % 7
  {
    var b, a := y % 28, y / 28;
    assert y == 28 * a + b && y / 4 == 7 * a + b / 4;
    assert b * 5 / 4 == b + b / 4;
    Sevens(b + b / 4, y + y / 4, 5 * a);
  }
}
