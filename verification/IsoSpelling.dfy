/** Dates and times in ISO form in all their spellings: what is read is what was spelled, and nothing else is read. */
module IsoSpelling {
  import opened Calendar
  import opened Digits
  import opened Numerals
  import opened IsoText

  /** What stands behind the seconds: spaces, or spaces and a zone. */
  datatype Ending = NoZone(blank: string) | Zone(blank: string, zone: string) {
    predicate Valid() {
      AllSpaces(blank) && (Zone? ==> blank != "" && zone != "" && !IsSpace(zone[0]))
    }

    function Spelling(): string {
      if Zone? then blank + zone else blank
    }
  }

  /** A date and a time: digits, with spaces in front and between, perhaps a fraction of a second, and the ending. */
  datatype Spelled = Spelled(blank: string, year: string, month: string, day: string, gap: string,
                             hour: string, minute: string, second: string, point: bool, fraction: string, end: Ending) {
    predicate Valid() {
      AllSpaces(blank) && IsNumber(year) && IsNumber(month) && IsNumber(day) && gap != "" && AllSpaces(gap) &&
      IsNumber(hour) && IsNumber(minute) && IsNumber(second) && (point ==> IsNumber(fraction)) && end.Valid()
    }

    function Seconds(): string {
      second + ((if point then "." + fraction else "") + end.Spelling())
    }

    function Clock(): string {
      hour + (":" + (minute + (":" + Seconds())))
    }

    function Spelling(): string {
      blank + (year + ("-" + (month + ("-" + (day + (gap + Clock()))))))
    }

    /** The fields, in a zone. */
    function Fields(offset: int): IsoText.Fields
      requires Valid()
    {
      IsoText.Fields(DigitsValue(year), DigitsValue(month), DigitsValue(day), DigitsValue(hour), DigitsValue(minute),
                     DigitsValue(second), offset)
    }
  }

  predicate IsNumber(d: string)
  {
    d != "" && AllDigits(d)
  }

  lemma NumberReads(d: string, r: string)
    requires IsNumber(d) && (r == "" || !IsDigit(r[0]))
    ensures Number(d + r) == Some((DigitsValue(d), r))
  {
    LeadingIs(d, r);
  }

  lemma NumberThenReads(d: string, c: char, r: string)
    requires IsNumber(d) && !IsDigit(c)
    ensures NumberThen(d + ([c] + r), c) == Some((DigitsValue(d), r))
  {
    NumberReads(d, [c] + r);
    assert ([c] + r)[1..] == r;
    hide Number, DigitsValue;
  }

  lemma {:induction false} SkipsSpaces(b: string, r: string)
    requires AllSpaces(b) && (r == "" || !IsSpace(r[0]))
    ensures SkipSpace(b + r) == r
    decreases |b|
  {
    if b == "" {
      assert b + r == r;
    } else {
      assert (b + r)[0] == b[0] && (b + r)[1..] == b[1..] + r;
      SkipsSpaces(b[1..], r);
    }
  }

  lemma DigitsAreNoSpaces(d: string, r: string)
    requires IsNumber(d)
    ensures d + r != "" && !IsSpace((d + r)[0])
  {
  }

  lemma Separators()
    ensures !IsDigit('-') && !IsDigit(':') && !IsDigit('.') && !IsSpace('.')
    ensures forall c: char :: IsSpace(c) ==> !IsDigit(c) && c != '.'
  {
  }

  // ----- zones -----

  /** The number of four characters that end a zone: spaces, a sign and digits, as strtol takes them. */
  function ZoneNumber(sign: string, digits: string): int
    requires AllDigits(digits)
  {
    var v: int := DigitsValue(digits);
    if sign == "-" then -v else v
  }

  lemma StrtolReads(b: string, sign: string, digits: string)
    requires AllSpaces(b) && IsSign(sign) && IsNumber(digits)
    ensures Strtol(b + (sign + digits)) == (ZoneNumber(sign, digits), "")
  {
    var t := sign + digits;
    assert t[0] == (if sign == "" then digits[0] else sign[0]) && !IsSpace(t[0]);
    SkipsSpaces(b, t);
    assert sign != "" ==> t[1..] == digits;
    assert sign == "" ==> t == digits;
    assert digits + "" == digits;
    NumberReads(digits, "");
    hide Number, SkipSpace, DigitsValue;
  }

  /** A sign and four characters: hours and minutes, refused beyond 23 and 59. */
  lemma SignedZone(c: char, b: string, sign: string, digits: string, zones: map<string, int>)
    requires (c == '+' || c == '-') && AllSpaces(b) && IsSign(sign) && IsNumber(digits)
    ensures ParseZone([c] + (b + (sign + digits)), zones) ==
      var v := ZoneNumber(sign, digits);
      if |b| + |sign| + |digits| == 4 && Quot(v, 100) <= 23 && Rem(v, 100) <= 59 then
        Some(if c == '-' then -(Quot(v, 100) * 60 + Rem(v, 100)) else Quot(v, 100) * 60 + Rem(v, 100))
      else
        None
  {
    var z := [c] + (b + (sign + digits));
    assert z[1..] == b + (sign + digits) && z[0] == c && |z| == 1 + |b| + |sign| + |digits|;
    StrtolReads(b, sign, digits);
    hide Strtol, ZoneNumber, Quot, Rem;
  }

  lemma FourDigits(h: string, m: string)
    requires AllDigits(h) && AllDigits(m) && |h| == |m| == 2
    ensures IsNumber(h + m) && AllDigits(h + m) && ZoneNumber("", h + m) == 100 * DigitsValue(h) + DigitsValue(m)
    ensures DigitsValue(h) < 100 && DigitsValue(m) < 100
  {
    NumbersJoin(h, m);
    DigitsBelow(h);
    DigitsBelow(m);
    assert Words.Pow(10, 2) == 100;
    hide DigitsValue;
  }

  /** A sign, two digits for the hours and two for the minutes: +-(60 h + m), refused beyond 23 and 59. */
  lemma HoursAndMinutes(c: char, h: string, m: string, zones: map<string, int>)
    requires (c == '+' || c == '-') && AllDigits(h) && AllDigits(m) && |h| == |m| == 2
    ensures ParseZone([c] + (h + m), zones) ==
      if DigitsValue(h) <= 23 && DigitsValue(m) <= 59 then
        Some(if c == '-' then -(60 * DigitsValue(h) + DigitsValue(m)) else 60 * DigitsValue(h) + DigitsValue(m))
      else
        None
  {
    hide *;
    FourDigits(h, m);
    NoneInFront(h, m);
    SignedZone(c, "", "", h + m, zones);
    Hundreds(DigitsValue(h), DigitsValue(m));
  }

  lemma NoneInFront(h: string, m: string)
    ensures AllSpaces("") && IsSign("") && "" + ("" + (h + m)) == h + m && |h + m| == |h| + |m|
  {
  }

  lemma Hundreds(h: nat, m: nat)
    requires m < 100
    ensures Quot(100 * h + m, 100) == h && Rem(100 * h + m, 100) == m
    ensures 100 * h + m >= 0
  {
  }

  /** A name: its offset in the list, or a refusal. */
  lemma NamedZone(z: string, zones: map<string, int>)
    requires z != "" && z[0] != '+' && z[0] != '-'
    ensures ParseZone(z, zones) == if z in zones then Some(zones[z]) else None
  {
  }

  /** After the sign of a zone strtol takes another one: +-123 is 83 minutes west. */
  lemma SecondSign(zones: map<string, int>)
    ensures ParseZone("+-123", zones) == Some(-83)
  {
    hide *;
    WestOf();
    SignedZone('+', "", "-", "123", zones);
  }

  lemma WestOf()
    ensures AllSpaces("") && IsSign("-") && IsNumber("123") && ZoneNumber("-", "123") == -123
    ensures ['+'] + ("" + ("-" + "123")) == "+-123" && Quot(-123, 100) == -1 && Rem(-123, 100) == -23
  {
    assert "1"[..0] == "" && "12"[..1] == "1" && "123"[..2] == "12";
    assert DigitsValue("1") == 1;
    assert DigitsValue("12") == 12;
    assert DigitsValue("123") == 123;
  }

  // ----- what is spelled is read -----

  lemma EndingReads(e: Ending, point: bool, fraction: string, offset: int, zones: map<string, int>)
    requires e.Valid() && (point ==> IsNumber(fraction))
    ensures ParseTail((if point then "." + fraction else "") + e.Spelling(), offset, zones) ==
      if e.NoZone? then Some(offset) else ParseZone(e.zone, zones)
  {
    var r0, t := (if point then "." + fraction else "") + e.Spelling(), e.Spelling();
    EndingStarts(e);
    Separators();
    if point {
      assert r0 == "." + (fraction + t) && r0[1..] == fraction + t && r0[1] == fraction[0];
      LeadingIs(fraction, t);
    } else {
      assert r0 == t;
    }
    EndingSkips(e);
    hide Leading, SkipSpace, ParseZone, Ending.Spelling, IsDigit;
    assert SkipSpace(t) == if e.NoZone? then "" else e.zone;
  }

  lemma EndingStarts(e: Ending)
    requires e.Valid()
    ensures e.Spelling() != "" ==> IsSpace(e.Spelling()[0])
  {
  }

  lemma EndingSkips(e: Ending)
    requires e.Valid()
    ensures SkipSpace(e.Spelling()) == if e.NoZone? then "" else e.zone
    ensures e.Zone? ==> e.zone != "" && e.Spelling() != e.zone
  {
    if e.Zone? {
      SkipsSpaces(e.blank, e.zone);
    } else {
      SkipsSpaces(e.blank, "");
      assert e.blank + "" == e.blank;
    }
  }

  lemma SecondsRead(n: Spelled)
    requires n.Valid()
    ensures var t := (if n.point then "." + n.fraction else "") + n.end.Spelling();
      Number(n.Seconds()) == Some((DigitsValue(n.second), t))
  {
    EndingStarts(n.end);
    Separators();
    var t := (if n.point then "." + n.fraction else "") + n.end.Spelling();
    assert t == "" || !IsDigit(t[0]);
    NumberReads(n.second, t);
    hide Number, DigitsValue, Ending.Spelling;
  }

  /** Every spelling of a date and time is read as its numbers, in the zone it names or the default one. */
  lemma SpelledReads(n: Spelled, offset: int, zones: map<string, int>)
    requires n.Valid()
    ensures ParseIso(n.Spelling(), offset, zones) ==
      match (if n.end.NoZone? then Some(offset) else ParseZone(n.end.zone, zones))
      case None => None
      case Some(o) => Some(n.Fields(o))
  {
    hide *;
    ValidParts(n);
    Separators();
    var r3 := n.Clock();
    var r2 := n.day + (n.gap + r3);
    var r1 := n.month + ("-" + r2);
    DateRead(n, r3, r2, r1);
    ClockRead(n, offset, zones);
    DateFrom(n.Spelling(), n, r1, r2, r3, offset, zones);
  }

  lemma ValidParts(n: Spelled)
    requires n.Valid()
    ensures AllSpaces(n.blank) && IsNumber(n.year) && IsNumber(n.month) && IsNumber(n.day) && n.gap != ""
    ensures AllSpaces(n.gap)
    ensures IsNumber(n.hour) && IsNumber(n.minute) && IsNumber(n.second) && (n.point ==> IsNumber(n.fraction))
    ensures n.end.Valid()
    ensures AllDigits(n.year) && AllDigits(n.month) && AllDigits(n.day)
    ensures AllDigits(n.hour) && AllDigits(n.minute) && AllDigits(n.second)
    ensures n.Clock() == n.hour + (":" + (n.minute + (":" + n.Seconds())))
    ensures n.Spelling() == n.blank + (n.year + ("-" + (n.month + ("-" + (n.day + (n.gap + n.Clock()))))))
  {
    hide AllSpaces, AllDigits, Ending.Valid, Spelled.Seconds;
  }

  lemma DateRead(n: Spelled, r3: string, r2: string, r1: string)
    requires n.Valid() && r3 == n.Clock() && r2 == n.day + (n.gap + r3) && r1 == n.month + ("-" + r2)
    ensures NumberThen(SkipSpace(n.Spelling()), '-') == Some((DigitsValue(n.year), r1))
    ensures NumberThen(r1, '-') == Some((DigitsValue(n.month), r2))
    ensures Number(r2) == Some((DigitsValue(n.day), n.gap + r3))
    ensures n.gap + r3 != "" && IsSpace((n.gap + r3)[0]) && SkipSpace((n.gap + r3)[1..]) == r3
  {
    hide *;
    ValidParts(n);
    Separators();
    DigitsAreNoSpaces(n.year, "-" + r1);
    SkipsSpaces(n.blank, n.year + ("-" + r1));
    NumberThenReads(n.year, '-', r1);
    NumberThenReads(n.month, '-', r2);
    DigitsAreNoSpaces(n.hour, ":" + (n.minute + (":" + n.Seconds())));
    GapReads(n.gap, r3);
    NumberReads(n.day, n.gap + r3);
  }

  lemma GapReads(gap: string, r: string)
    requires gap != "" && AllSpaces(gap) && r != "" && !IsSpace(r[0])
    ensures gap + r != "" && IsSpace((gap + r)[0]) && !IsDigit((gap + r)[0]) && SkipSpace((gap + r)[1..]) == r
  {
    assert (gap + r)[1..] == gap[1..] + r;
    SkipsSpaces(gap[1..], r);
  }

  lemma ClockRead(n: Spelled, offset: int, zones: map<string, int>)
    requires n.Valid()
    ensures ParseClock(n.Clock(), DigitsValue(n.year), DigitsValue(n.month), DigitsValue(n.day), offset, zones) ==
      match (if n.end.NoZone? then Some(offset) else ParseZone(n.end.zone, zones))
      case None => None
      case Some(o) => Some(n.Fields(o))
  {
    hide *;
    ValidParts(n);
    Separators();
    var r1 := n.minute + (":" + n.Seconds());
    NumberThenReads(n.hour, ':', r1);
    NumberThenReads(n.minute, ':', n.Seconds());
    SecondsRead(n);
    EndingReads(n.end, n.point, n.fraction, offset, zones);
    ClockFrom(n, r1, (if n.point then "." + n.fraction else "") + n.end.Spelling(), offset, zones);
  }

  lemma ClockFrom(n: Spelled, r1: string, t: string, offset: int, zones: map<string, int>)
    requires n.Valid() && NumberThen(n.Clock(), ':') == Some((DigitsValue(n.hour), r1))
    requires NumberThen(r1, ':') == Some((DigitsValue(n.minute), n.Seconds()))
    requires Number(n.Seconds()) == Some((DigitsValue(n.second), t))
    ensures ParseClock(n.Clock(), DigitsValue(n.year), DigitsValue(n.month), DigitsValue(n.day), offset, zones) ==
      match ParseTail(t, offset, zones)
      case None => None
      case Some(o) => Some(n.Fields(o))
  {
    hide ParseTail, Number, NumberThen, DigitsValue, Spelled.Clock, Spelled.Seconds, AllSpaces, AllDigits, Ending.Valid;
  }

  lemma DateFrom(text: string, n: Spelled, r1: string, r2: string, r3: string, offset: int, zones: map<string, int>)
    requires n.Valid() && NumberThen(SkipSpace(text), '-') == Some((DigitsValue(n.year), r1))
    requires NumberThen(r1, '-') == Some((DigitsValue(n.month), r2))
    requires Number(r2) == Some((DigitsValue(n.day), n.gap + r3))
    requires n.gap + r3 != "" && IsSpace((n.gap + r3)[0]) && SkipSpace((n.gap + r3)[1..]) == r3
    ensures ParseIso(text, offset, zones) ==
      ParseClock(r3, DigitsValue(n.year), DigitsValue(n.month), DigitsValue(n.day), offset, zones)
  {
    hide ParseClock, Number, NumberThen, SkipSpace, DigitsValue, AllSpaces, AllDigits, Ending.Valid, IsSpace;
  }

  // ----- what is read was spelled -----

  lemma NumberFrom(r: string) returns (d: string, r': string)
    requires Number(r) != None
    ensures IsNumber(d) && AllDigits(d) && r == d + r' && (r' == "" || !IsDigit(r'[0]))
    ensures Number(r) == Some((DigitsValue(d), r'))
  {
    d := Leading(r);
    r' := r[|d|..];
    hide DigitsValue;
  }

  lemma NumberThenFrom(r: string, c: char) returns (d: string, r': string)
    requires NumberThen(r, c) != None
    ensures IsNumber(d) && AllDigits(d) && r == d + ([c] + r') && NumberThen(r, c) == Some((DigitsValue(d), r'))
  {
    var t;
    d, t := NumberFrom(r);
    r' := t[1..];
    hide Number, DigitsValue;
  }

  lemma {:induction false} SpacesFrom(r: string) returns (b: string)
    ensures AllSpaces(b) && r == b + SkipSpace(r) && (SkipSpace(r) == "" || !IsSpace(SkipSpace(r)[0]))
    decreases |r|
  {
    if |r| > 0 && IsSpace(r[0]) {
      b := SpacesFrom(r[1..]);
      b := [r[0]] + b;
    } else {
      b := "";
    }
  }

  /** What follows the seconds, when it is read, is a fraction or none, and an ending. */
  lemma TailFrom(r: string, offset: int, zones: map<string, int>) returns (point: bool, fraction: string, e: Ending)
    requires ParseTail(r, offset, zones) != None
    ensures e.Valid() && (point ==> IsNumber(fraction)) && r == (if point then "." + fraction else "") + e.Spelling()
    ensures e.Zone? ==> ParseZone(e.zone, zones) != None
  {
    hide *;
    var t;
    point, fraction, t := FractionFrom(r, offset, zones);
    var b := SpacesFrom(t);
    var z := SkipSpace(t);
    e := if z == "" then NoZone(b) else Zone(b, z);
    EndingIs(e, t, b, z);
  }

  lemma FractionFrom(r: string, offset: int, zones: map<string, int>) returns (point: bool, fraction: string, t: string)
    requires ParseTail(r, offset, zones) != None
    ensures (point ==> IsNumber(fraction)) && r == (if point then "." + fraction else "") + t
    ensures SkipSpace(t) != "" ==> SkipSpace(t) != t && ParseZone(SkipSpace(t), zones) != None
  {
    hide SkipSpace, ParseZone;
    point := |r| > 1 && r[0] == '.' && IsDigit(r[1]);
    fraction := if point then Leading(r[1..]) else "";
    t := if point then r[1..][|fraction|..] else r;
    if point {
      assert r == "." + r[1..] && r[1..] == fraction + t;
    }
  }

  lemma EndingIs(e: Ending, t: string, b: string, z: string)
    requires e == (if z == "" then NoZone(b) else Zone(b, z)) && t == b + z && AllSpaces(b)
    requires z != "" ==> z != t && !IsSpace(z[0])
    ensures e.Valid() && t == e.Spelling()
  {
  }

  lemma ClockHas(r: string, y: int, m: int, d: int, offset: int, zones: map<string, int>)
    requires ParseClock(r, y, m, d, offset, zones) != None
    ensures NumberThen(r, ':') != None
    ensures var r1 := NumberThen(r, ':').value.1;
      NumberThen(r1, ':') != None &&
      var r2 := NumberThen(r1, ':').value.1;
      Number(r2) != None && ParseTail(Number(r2).value.1, offset, zones) != None
  {
    hide ParseTail, Number, NumberThen;
  }

  lemma DateHas(text: string, offset: int, zones: map<string, int>)
    requires ParseIso(text, offset, zones) != None
    ensures NumberThen(SkipSpace(text), '-') != None
    ensures var (y, r1) := NumberThen(SkipSpace(text), '-').value;
      NumberThen(r1, '-') != None &&
      var (m, r2) := NumberThen(r1, '-').value;
      Number(r2) != None &&
      var (d, r3) := Number(r2).value;
      r3 != "" && IsSpace(r3[0]) && ParseClock(SkipSpace(r3[1..]), y, m, d, offset, zones) != None
  {
    hide ParseClock, Number, NumberThen, SkipSpace, IsSpace;
  }

  /** Nothing else is read: a text with a value is a spelling, and its zone has a value. */
  lemma ReadWasSpelled(text: string, offset: int, zones: map<string, int>) returns (n: Spelled)
    requires ParseIso(text, offset, zones) != None
    ensures n.Valid() && text == n.Spelling()
    ensures n.end.Zone? ==> ParseZone(n.end.zone, zones) != None
  {
    hide *;
    DateHas(text, offset, zones);
    var blank := SpacesFrom(text);
    var year, r1 := NumberThenFrom(SkipSpace(text), '-');
    var month, r2 := NumberThenFrom(r1, '-');
    var day, r3 := NumberFrom(r2);
    var rest := SpacesFrom(r3[1..]);
    var r := SkipSpace(r3[1..]);
    ClockHas(r, DigitsValue(year), DigitsValue(month), DigitsValue(day), offset, zones);
    var hour, r4 := NumberThenFrom(r, ':');
    var minute, r5 := NumberThenFrom(r4, ':');
    var second, r6 := NumberFrom(r5);
    var point, fraction, e := TailFrom(r6, offset, zones);
    Joined(r3, rest, r);
    n := Spelled(blank, year, month, day, [r3[0]] + rest, hour, minute, second, point, fraction, e);
    IsSpelled(n, text, r1, r2, r3, r, r4, r5, r6);
  }

  lemma Joined(r3: string, rest: string, r: string)
    requires r3 != "" && IsSpace(r3[0]) && AllSpaces(rest) && r3[1..] == rest + r
    ensures AllSpaces([r3[0]] + rest) && r3 == ([r3[0]] + rest) + r
  {
  }

  lemma IsSpelled(n: Spelled, text: string, r1: string, r2: string, r3: string, r: string, r4: string, r5: string,
                  r6: string)
    requires AllSpaces(n.blank) && IsNumber(n.year) && IsNumber(n.month) && IsNumber(n.day)
    requires n.gap != "" && AllSpaces(n.gap) && IsNumber(n.hour) && IsNumber(n.minute) && IsNumber(n.second)
    requires (n.point ==> IsNumber(n.fraction)) && n.end.Valid()
    requires text == n.blank + (n.year + ("-" + r1)) && r1 == n.month + ("-" + r2) && r2 == n.day + r3
    requires r3 == n.gap + r
    requires r == n.hour + (":" + r4) && r4 == n.minute + (":" + r5) && r5 == n.second + r6
    requires r6 == (if n.point then "." + n.fraction else "") + n.end.Spelling()
    ensures n.Valid() && text == n.Spelling()
  {
    hide AllSpaces, IsNumber, Ending.Valid, Ending.Spelling;
  }

  /** A zone with an offset is a name in the list, or a sign and four characters: spaces, a sign or none, digits. */
  lemma ZoneWasSpelled(z: string, zones: map<string, int>) returns (b: string, sign: string, digits: string)
    requires ParseZone(z, zones) != None && z !in zones
    ensures AllSpaces(b) && IsSign(sign) && IsNumber(digits) && AllDigits(digits) && |z| == 5
    ensures (z[0] == '+' || z[0] == '-')
    ensures z == [z[0]] + (b + (sign + digits))
  {
    hide *;
    ZoneHas(z, zones);
    var r := z[1..];
    b := SpacesFrom(r);
    var t := SkipSpace(r);
    var signed := |t| > 0 && (t[0] == '-' || t[0] == '+');
    sign := if signed then t[..1] else "";
    var u := if signed then t[1..] else t;
    StrtolHas(r, t, u);
    var r';
    digits, r' := NumberFrom(u);
    SignIn(t, sign, u);
    assert digits + "" == digits;
  }

  lemma SignIn(t: string, sign: string, u: string)
    requires sign == if |t| > 0 && (t[0] == '-' || t[0] == '+') then t[..1] else ""
    requires u == if |t| > 0 && (t[0] == '-' || t[0] == '+') then t[1..] else t
    ensures IsSign(sign) && t == sign + u
  {
  }

  lemma ZoneHas(z: string, zones: map<string, int>)
    requires ParseZone(z, zones) != None && z !in zones
    ensures |z| == 5 && (z[0] == '+' || z[0] == '-') && Strtol(z[1..]).1 == ""
  {
    hide Strtol, Quot, Rem;
  }

  lemma StrtolHas(r: string, t: string, u: string)
    requires Strtol(r).1 == "" && r != "" && t == SkipSpace(r)
    requires u == if |t| > 0 && (t[0] == '-' || t[0] == '+') then t[1..] else t
    ensures Number(u) != None && Number(u).value.1 == ""
  {
    hide Number, SkipSpace;
  }
}
