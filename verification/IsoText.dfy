/** Instants as ISO text, and back: the ISO arms of FormatDate and DecodeDateString, and DecodeTimeZone. */
module IsoText {
  import opened Words
  import opened Calendar
  import opened LeapSeconds
  import opened CivilTime
  import opened Digits
  import opened Numerals

  datatype Option<T> = None | Some(value: T)

  /** The fields that the text shows. */
  datatype Fields = Fields(year: int, month: int, day: int, hour: int, minute: int, second: int, offset: int)

  // ----- writing -----

  /** The zone as a sign and four digits, or more when the offset has more hours than two digits show. */
  function ZoneText(offset: int): string
  {
    var a := if offset < 0 then -offset else offset;
    (if offset < 0 then "-" else "+") + (Padded(a / 60, 2) + Padded(a % 60, 2))
  }

  function ClockText(f: Fields): string
  {
    Padded(f.hour, 2) + (":" + (Padded(f.minute, 2) + (":" + Padded(f.second, 2))))
  }

  function DateText(f: Fields): string
  {
    Padded(f.year, 4) + ("-" + (Padded(f.month, 2) + ("-" + Padded(f.day, 2))))
  }

  /** The text for an instant without ticks; the short format leaves the zone out. */
  function IsoText(f: Fields, short: bool): string
  {
    DateText(f) + (" " + (ClockText(f) + (if short then "" else " " + ZoneText(f.offset))))
  }

  /** Four digits for the years up to 9999, two for each of the other numbers, and the characters between them. */
  lemma ShapeIs(f: Fields, short: bool)
    requires -1000 < f.year < 10000 && 0 < f.month <= 12 && 0 < f.day <= 31
    requires 0 <= f.hour < 24 && 0 <= f.minute < 60 && 0 <= f.second <= 60 && -6000 < f.offset < 6000
    ensures var t := IsoText(f, short);
      |t| == (if short then 19 else 25) && t[4] == t[7] == '-' && t[10] == ' ' && t[13] == t[16] == ':' &&
      (!short ==> t[19] == ' ' && t[20] == if f.offset < 0 then '-' else '+')
  {
    hide *;
    var a := if f.offset < 0 then -f.offset else f.offset;
    Widths();
    PaddedLength(f.year, 4);
    PaddedLength(f.month, 2);
    PaddedLength(f.day, 2);
    PaddedLength(f.hour, 2);
    PaddedLength(f.minute, 2);
    PaddedLength(f.second, 2);
    PaddedLength(a / 60, 2);
    PaddedLength(a % 60, 2);
    ShapeFrom(f, short);
  }

  lemma Widths()
    ensures Pow(10, 1) == 10 && Pow(10, 2) == 100 && Pow(10, 3) == 1000 && Pow(10, 4) == 10000
  {
  }

  lemma ShapeFrom(f: Fields, short: bool)
    requires |Padded(f.year, 4)| == 4 && |Padded(f.month, 2)| == |Padded(f.day, 2)| == 2
    requires |Padded(f.hour, 2)| == |Padded(f.minute, 2)| == |Padded(f.second, 2)| == 2
    requires var a := if f.offset < 0 then -f.offset else f.offset; |Padded(a / 60, 2)| == |Padded(a % 60, 2)| == 2
    ensures var t := IsoText(f, short);
      |t| == (if short then 19 else 25) && t[4] == t[7] == '-' && t[10] == ' ' && t[13] == t[16] == ':' &&
      (!short ==> t[19] == ' ' && t[20] == if f.offset < 0 then '-' else '+')
  {
    hide Padded;
  }

  // ----- reading -----

  /** The digits that a text begins with. */
  function Leading(r: string): (d: string)
    ensures AllDigits(d) && |d| <= |r| && d == r[..|d|]
    ensures |d| < |r| ==> !IsDigit(r[|d|])
  {
    if |r| > 0 && IsDigit(r[0]) then [r[0]] + Leading(r[1..]) else ""
  }

  function SkipSpace(r: string): string
  {
    if |r| > 0 && IsSpace(r[0]) then SkipSpace(r[1..]) else r
  }

  /** A number that begins with a digit, and what follows it. */
  function Number(r: string): Option<(int, string)>
  {
    var d := Leading(r);
    if d == "" then None else Some((DigitsValue(d), r[|d|..]))
  }

  /** A number that must be followed by a given character. */
  function NumberThen(r: string, c: char): Option<(int, string)>
  {
    match Number(r)
    case None => None
    case Some((v, r')) => if |r'| > 0 && r'[0] == c then Some((v, r'[1..])) else None
  }

  /** strtol: spaces and a sign may come first; without digits it reads nothing. */
  function Strtol(r: string): (int, string)
  {
    var t := SkipSpace(r);
    var u := if |t| > 0 && (t[0] == '-' || t[0] == '+') then t[1..] else t;
    match Number(u)
    case None => (0, r)
    case Some((v, r')) => (if |t| > 0 && t[0] == '-' then -v else v, r')
  }

  /** The zone at the end of a text: a sign and four digits, or one of the names in the list. */
  function ParseZone(r: string, zones: map<string, int>): Option<int>
  {
    if r == "" then None
    else if r[0] == '+' || r[0] == '-' then
      if |r| != 5 then None
      else
        var (num, rest) := Strtol(r[1..]);
        if rest != "" || Quot(num, 100) > 23 || Rem(num, 100) > 59 then None
        else
          var v := Quot(num, 100) * 60 + Rem(num, 100);
          Some(if r[0] == '-' then -v else v)
    else if r in zones then Some(zones[r])
    else None
  }

  /** What may follow the seconds: a fraction, spaces, a zone. */
  function ParseTail(r0: string, offset: int, zones: map<string, int>): Option<int>
  {
    var r := if |r0| > 1 && r0[0] == '.' && IsDigit(r0[1]) then r0[1..][|Leading(r0[1..])|..] else r0;
    var t := SkipSpace(r);
    if t == "" then Some(offset) else if t == r then None else ParseZone(t, zones)
  }

  function ParseClock(r: string, y: int, m: int, d: int, offset: int, zones: map<string, int>): Option<Fields>
  {
    match NumberThen(r, ':')
    case None => None
    case Some((h, r1)) =>
      match NumberThen(r1, ':')
      case None => None
      case Some((n, r2)) =>
        match Number(r2)
        case None => None
        case Some((s, r3)) =>
          match ParseTail(r3, offset, zones)
          case None => None
          case Some(o) => Some(Fields(y, m, d, h, n, s, o))
  }

  function ParseIso(text: string, offset: int, zones: map<string, int>): Option<Fields>
  {
    match NumberThen(SkipSpace(text), '-')
    case None => None
    case Some((y, r1)) =>
      match NumberThen(r1, '-')
      case None => None
      case Some((m, r2)) =>
        match Number(r2)
        case None => None
        case Some((d, r3)) =>
          if r3 == "" || !IsSpace(r3[0]) then None else ParseClock(SkipSpace(r3[1..]), y, m, d, offset, zones)
  }

  // ----- there and back -----

  lemma {:induction false} LeadingIs(d: string, r: string)
    requires AllDigits(d) && (r == "" || !IsDigit(r[0]))
    ensures Leading(d + r) == d && (d + r)[|d|..] == r
  {
    if |d| > 0 {
      LeadingIs(d[1..], r);
      assert (d + r)[1..] == d[1..] + r;
    } else {
      assert d + r == r;
    }
  }

  lemma ReadPadded(n: nat, width: nat, r: string)
    requires r == "" || !IsDigit(r[0])
    ensures Number(Padded(n, width) + r) == Some((n, r))
  {
    PaddedValue(n, width);
    LeadingIs(Padded(n, width), r);
  }

  lemma ReadPaddedThen(n: nat, width: nat, c: char, r: string)
    requires !IsDigit(c)
    ensures NumberThen(Padded(n, width) + ([c] + r), c) == Some((n, r))
  {
    ReadPadded(n, width, [c] + r);
    assert ([c] + r)[1..] == r;
  }

  lemma NoSpaceBefore(d: string, r: string)
    requires |d| > 0 && AllDigits(d)
    ensures SkipSpace(d + r) == d + r
  {
    assert (d + r)[0] == d[0];
  }

  /** A zone is read back when its hours are below 24; no other can be. */
  lemma ZoneReads(offset: int, zones: map<string, int>)
    ensures ParseZone(ZoneText(offset), zones) == if -1440 < offset < 1440 then Some(offset) else None
  {
    hide *;
    var h, m := ZoneParts(offset);
    var t := Padded(h, 2) + Padded(m, 2);
    var z := ZoneText(offset);
    TwoDigits(h);
    TwoDigits(m);
    PaddedValue(h, 2);
    PaddedValue(m, 2);
    if |t| == 4 {
      NumbersJoin(Padded(h, 2), Padded(m, 2));
      PlainNumber(t);
      ZoneNumber(z, zones, h, m);
    } else {
      LongZone(z, zones);
    }
  }

  lemma ZoneParts(offset: int) returns (h: nat, m: nat)
    ensures m < 60 && offset == if offset < 0 then -(h * 60 + m) else h * 60 + m
    ensures h < 24 <==> -1440 < offset < 1440
    ensures var z := ZoneText(offset);
      |z| > 0 && z[0] == (if offset < 0 then '-' else '+') && z[1..] == Padded(h, 2) + Padded(m, 2)
  {
    var a := if offset < 0 then -offset else offset;
    h, m := a / 60, a % 60;
    hide Padded;
  }

  lemma PlainNumber(t: string)
    requires |t| > 0 && AllDigits(t)
    ensures Strtol(t) == (DigitsValue(t), "")
  {
    LeadingIs(t, "");
    assert t + "" == t;
    NoSpaceBefore(t, "");
  }

  lemma ZoneNumber(z: string, zones: map<string, int>, h: nat, m: nat)
    requires |z| == 5 && (z[0] == '+' || z[0] == '-') && Strtol(z[1..]) == (100 * h + m, "") && m < 60
    ensures ParseZone(z, zones) == if h < 24 then Some(if z[0] == '-' then -(h * 60 + m) else h * 60 + m) else None
  {
    hide Strtol;
    assert (100 * h + m) / 100 == h && (100 * h + m) % 100 == m;
  }

  lemma LongZone(z: string, zones: map<string, int>)
    requires |z| > 0 && |z| != 5 && (z[0] == '+' || z[0] == '-')
    ensures ParseZone(z, zones) == None
  {
  }

  lemma NumbersJoin(s: string, t: string)
    requires AllDigits(s) && AllDigits(t) && |t| == 2
    ensures AllDigits(s + t) && DigitsValue(s + t) == 100 * DigitsValue(s) + DigitsValue(t)
  {
    assert (s + t)[..|s| + 1] == s + t[..1] && (s + t[..1])[..|s|] == s;
    assert t[..1][..0] == "";
    assert DigitsValue(s + t[..1]) == 10 * DigitsValue(s) + CharDigit(t[0]);
    assert DigitsValue(t[..1]) == CharDigit(t[0]);
  }

  lemma TailReads(f: Fields, short: bool, offset: int, zones: map<string, int>)
    ensures ParseTail(if short then "" else " " + ZoneText(f.offset), offset, zones) ==
            if short then Some(offset) else if -1440 < f.offset < 1440 then Some(f.offset) else None
  {
    if !short {
      ZoneReads(f.offset, zones);
      var z := ZoneText(f.offset);
      assert (" " + z)[1..] == z && (z[0] == '-' || z[0] == '+');
      assert SkipSpace(z) == z;
    }
  }

  lemma ClockReads(f: Fields, short: bool, offset: int, zones: map<string, int>)
    requires f.hour >= 0 && f.minute >= 0 && f.second >= 0
    ensures var t := if short then "" else " " + ZoneText(f.offset);
      ParseClock(ClockText(f) + t, f.year, f.month, f.day, offset, zones) ==
      match ParseTail(t, offset, zones)
      case None => None
      case Some(o) => Some(f.(offset := o))
  {
    hide *;
    var t := if short then "" else " " + ZoneText(f.offset);
    var r2 := Padded(f.second, 2) + t;
    var r1 := Padded(f.minute, 2) + (":" + r2);
    ClockTextIs(f, t);
    SpaceIsNoDigit();
    ReadPaddedThen(f.hour, 2, ':', r1);
    ReadPaddedThen(f.minute, 2, ':', r2);
    ReadPadded(f.second, 2, t);
    ClockUnfolds(ClockText(f) + t, f, offset, zones, r1, r2, t);
  }

  lemma ClockTextIs(f: Fields, t: string)
    ensures ClockText(f) + t == Padded(f.hour, 2) + (":" + (Padded(f.minute, 2) + (":" + (Padded(f.second, 2) + t))))
  {
    hide Padded;
  }

  lemma ClockUnfolds(r: string, f: Fields, offset: int, zones: map<string, int>, r1: string, r2: string, t: string)
    requires NumberThen(r, ':') == Some((f.hour, r1)) && NumberThen(r1, ':') == Some((f.minute, r2))
    requires Number(r2) == Some((f.second, t))
    ensures ParseClock(r, f.year, f.month, f.day, offset, zones) ==
      match ParseTail(t, offset, zones)
      case None => None
      case Some(o) => Some(f.(offset := o))
  {
    hide ParseTail, Number, NumberThen;
  }

  lemma DateUnfolds(text: string, f: Fields, offset: int, zones: map<string, int>, r1: string, r2: string, r3: string)
    requires NumberThen(SkipSpace(text), '-') == Some((f.year, r1)) && NumberThen(r1, '-') == Some((f.month, r2))
    requires Number(r2) == Some((f.day, " " + r3)) && SkipSpace(r3) == r3
    ensures ParseIso(text, offset, zones) == ParseClock(r3, f.year, f.month, f.day, offset, zones)
  {
    hide ParseClock, Number, NumberThen, SkipSpace;
    assert (" " + r3)[1..] == r3;
  }

  /** The text of a time is read back as the time when its year is not negative and its zone below a day; a
      negative year is not read at all, nor a longer zone. */
  lemma TextReads(f: Fields, short: bool, offset: int, zones: map<string, int>)
    requires f.month >= 0 && f.day >= 0 && f.hour >= 0 && f.minute >= 0 && f.second >= 0
    ensures ParseIso(IsoText(f, short), offset, zones) ==
      if f.year < 0 then None
      else if short then Some(f.(offset := offset))
      else if -1440 < f.offset < 1440 then Some(f)
      else None
  {
    var t := if short then "" else " " + ZoneText(f.offset);
    var r3 := ClockText(f) + t;
    var r2 := Padded(f.day, 2) + (" " + r3);
    var r1 := Padded(f.month, 2) + ("-" + r2);
    var text := IsoText(f, short);
    TextIs(f, short, t, r3, r2, r1);
    if f.year < 0 {
      MinusYear(f.year, "-" + r1);
      MinusFirst(text);
    } else {
      hide *;
      PaddedValue(f.year, 4);
      PaddedValue(f.hour, 2);
      NoSpaceBefore(Padded(f.year, 4), "-" + r1);
      NoSpaceBefore(Padded(f.hour, 2), ":" + (Padded(f.minute, 2) + (":" + Padded(f.second, 2))) + t);
      ReadPaddedThen(f.year, 4, '-', r1);
      ReadPaddedThen(f.month, 2, '-', r2);
      SpaceIsNoDigit();
      ReadPadded(f.day, 2, " " + r3);
      DateUnfolds(text, f, offset, zones, r1, r2, r3);
      ClockReads(f, short, offset, zones);
      TailReads(f, short, offset, zones);
    }
  }

  lemma SpaceIsNoDigit()
    ensures !IsDigit(' ') && !IsDigit('-') && !IsDigit(':')
  {
  }

  lemma TextIs(f: Fields, short: bool, t: string, r3: string, r2: string, r1: string)
    requires t == if short then "" else " " + ZoneText(f.offset)
    requires r3 == ClockText(f) + t && r2 == Padded(f.day, 2) + (" " + r3) && r1 == Padded(f.month, 2) + ("-" + r2)
    ensures IsoText(f, short) == Padded(f.year, 4) + ("-" + r1)
    ensures r3 == Padded(f.hour, 2) + (":" + (Padded(f.minute, 2) + (":" + Padded(f.second, 2))) + t)
  {
    hide Padded, ZoneText;
  }

  lemma MinusYear(year: int, r: string)
    requires year < 0
    ensures |Padded(year, 4) + r| > 0 && (Padded(year, 4) + r)[0] == '-'
  {
    assert Padded(year, 4)[0] == '-';
  }

  lemma MinusFirst(text: string)
    requires |text| > 0 && text[0] == '-'
    ensures forall offset: int, zones: map<string, int> :: ParseIso(text, offset, zones) == None
  {
    assert SkipSpace(text) == text && Leading(text) == "";
  }

  /** The first day of the year before year 0 is printed as a text that is not read. */
  lemma YearBeforeZero(offset: int, zones: map<string, int>)
    ensures ParseIso(IsoText(Fields(-1, 1, 1, 0, 0, 0, 0), true), offset, zones) == None
  {
    TextReads(Fields(-1, 1, 1, 0, 0, 0, 0), true, offset, zones);
  }

  /** A zone of a whole day is printed as +2400, which is not read. */
  lemma ZoneOfADay(offset: int, zones: map<string, int>)
    ensures ParseIso(IsoText(Fields(2000, 1, 1, 0, 0, 0, 1440), false), offset, zones) == None
  {
    TextReads(Fields(2000, 1, 1, 0, 0, 0, 1440), false, offset, zones);
  }
}
