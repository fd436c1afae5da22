/** Decimal literals in all their spellings: what the reader finds is what was spelled, and it finds nothing else. */
module DecimalSpelling {
  import opened Words
  import opened Digits
  import opened Numerals
  import opened DecimalText
  import opened DecimalScanner
  import opened DecimalRoundTrip
  import DecimalMeaning

  /** An exponent part as it is spelled, or none. */
  datatype Power = NoPower | Power(mark: char, sign: string, digits: string) {
    predicate Valid() {
      Power? ==> (mark == 'e' || mark == 'E') && IsSign(sign) && digits != "" && AllDigits(digits)
    }

    function Spelling(): string {
      match this
      case NoPower => ""
      case Power(mark, sign, digits) => [mark] + (sign + digits)
    }

    function Value(): int
      requires Valid()
    {
      match this
      case NoPower => 0
      case Power(mark, sign, digits) =>
        var v: int := DigitsValue(digits);
        if sign == "-" then -v else v
    }

    /** The text behind does not go on with it. */
    predicate EndsBefore(rest: string) {
      if Power? then !IsDigit(At(rest, 0)) else !StartsPower(rest)
    }
  }

  /** An e with a digit behind it or behind its sign. */
  predicate StartsPower(r: string)
  {
    (At(r, 0) == 'e' || At(r, 0) == 'E') && IsDigit(At(r, if At(r, 1) == '+' || At(r, 1) == '-' then 2 else 1))
  }

  /** A literal as it is spelled: spaces, a sign, digits, a point and digits, an exponent part. */
  datatype Spelled = Spelled(blank: string, sign: string, whole: string, point: bool, fraction: string, power: Power) {
    predicate Valid() {
      AllSpaces(blank) && IsSign(sign) && AllDigits(whole) && AllDigits(fraction) && (!point ==> fraction == "") &&
      (whole != "" || fraction != "") && power.Valid()
    }

    function Fraction(): string {
      if point then "." + fraction else ""
    }

    function Unsigned(): string {
      whole + (Fraction() + power.Spelling())
    }

    function Spelling(): string {
      blank + (sign + Unsigned())
    }

    /** The text behind does not go on with it, and it is not a hexadecimal number. */
    predicate EndsBefore(rest: string) {
      power.EndsBefore(rest) && !HexStarts(Unsigned() + rest, 0) &&
      (power.NoPower? ==> !IsDigit(At(rest, 0)) && (!point ==> At(rest, 0) != '.'))
    }
  }

  // ----- what is spelled is read -----

  lemma AtBehind(s: string, i: nat, t: string, k: nat)
    requires i <= |s| && s[i..] == t
    ensures At(s, i + k) == At(t, k)
  {
  }

  lemma Behind(s: string, i: nat, a: string, b: string)
    requires i <= |s| && s[i..] == a + b
    ensures i + |a| <= |s| && s[i + |a|..] == b
  {
    assert s[i..][|a|..] == s[i + |a|..];
  }

  lemma RunEnds(s: string, j: nat, d: string, rest: string)
    requires j <= |s| && s[j..] == d + rest && AllDigits(d) && !IsDigit(At(rest, 0))
    ensures DecimalEnd(s, j) == j + |d| <= |s| && s[j..j + |d|] == d
  {
    Behind(s, j, d, rest);
    AtBehind(s, j + |d|, rest, 0);
    forall k | j <= k < j + |d| ensures IsDigit(s[k]) {
      assert s[k] == s[j..][k - j] == d[k - j];
    }
    DecimalEndIs(s, j, j + |d|);
    assert s[j..j + |d|] == s[j..][..|d|] == d;
  }

  lemma SignStarts(sign: string, digits: string)
    requires IsSign(sign) && digits != "" && AllDigits(digits)
    ensures At(sign + digits, 0) == (if sign == "" then digits[0] else sign[0]) && IsDigit(digits[0])
    ensures digits[0] != '-' && digits[0] != '+' && digits[0] != '.' && !IsSpace(digits[0])
  {
  }

  /** The places of a sign and digits behind an e. */
  lemma PowerPlaces(s: string, i: nat, mark: char, sign: string, digits: string, rest: string)
    requires i <= |s| && s[i..] == [mark] + ((sign + digits) + rest) && IsSign(sign) && digits != ""
    requires AllDigits(digits)
    ensures At(s, i) == mark && (At(s, i + 1) == '-' <==> sign == "-") && (At(s, i + 1) == '+' <==> sign == "+")
    ensures i + 1 + |sign| <= |s| && s[i + 1 + |sign|..] == digits + rest && IsDigit(At(s, i + 1 + |sign|))
  {
    var t := (sign + digits) + rest;
    AtBehind(s, i, [mark] + t, 0);
    AtBehind(s, i, [mark] + t, 1);
    assert [mark] + t == ([mark] + sign) + (digits + rest);
    Behind(s, i, [mark] + sign, digits + rest);
    SignStarts(sign, digits);
    AtBehind(s, i + 1 + |sign|, digits + rest, 0);
  }

  lemma PowerFrom(s: string, i: nat, sign: string, digits: string, j: nat)
    requires i <= |s| && (At(s, i) == 'e' || At(s, i) == 'E') && IsSign(sign) && j == i + 1 + |sign| <= |s|
    requires (At(s, i + 1) == '-' <==> sign == "-") && (At(s, i + 1) == '+' <==> sign == "+") && IsDigit(At(s, j))
    requires AllDigits(digits) && DecimalEnd(s, j) == j + |digits| && s[j..j + |digits|] == digits
    ensures ReadPower(s, i) == (Power('e', sign, digits).Value(), j + |digits|)
  {
    hide DecimalEnd, DigitsValue, IsDigit;
  }

  lemma NoPowerRead(s: string, i: nat, rest: string)
    requires i <= |s| && s[i..] == rest && !StartsPower(rest)
    ensures ReadPower(s, i) == (0, i)
  {
    AtBehind(s, i, rest, 0);
    AtBehind(s, i, rest, 1);
    AtBehind(s, i, rest, 2);
    hide DecimalEnd, DigitsValue, IsDigit, At;
  }

  lemma PowerRead(s: string, i: nat, p: Power, rest: string)
    requires i <= |s| && p.Valid() && s[i..] == p.Spelling() + rest && p.EndsBefore(rest)
    ensures ReadPower(s, i) == (p.Value(), i + |p.Spelling()|)
  {
    hide *;
    PowerParts(p, rest);
    match p {
      case NoPower =>
        NoPowerRead(s, i, rest);
      case Power(mark, sign, digits) =>
        PowerPlaces(s, i, mark, sign, digits, rest);
        RunEnds(s, i + 1 + |sign|, digits, rest);
        PowerFrom(s, i, sign, digits, i + 1 + |sign|);
        SameValue(p);
    }
  }

  lemma PowerParts(p: Power, rest: string)
    requires p.Valid() && p.EndsBefore(rest)
    ensures if p.NoPower? then p.Spelling() + rest == rest && p.Spelling() == "" && p.Value() == 0 && !StartsPower(rest)
            else p.Spelling() + rest == [p.mark] + ((p.sign + p.digits) + rest) && !IsDigit(At(rest, 0)) &&
                 |p.Spelling()| == 1 + |p.sign| + |p.digits|
    ensures p.Power? ==> (p.mark == 'e' || p.mark == 'E') && IsSign(p.sign) && p.digits != "" && AllDigits(p.digits)
  {
    hide IsDigit, At, StartsPower;
    if p.NoPower? {
      assert "" + rest == rest;
    }
  }

  lemma SameValue(p: Power)
    requires p.Valid() && p.Power?
    ensures Power('e', p.sign, p.digits).Valid() && Power('e', p.sign, p.digits).Value() == p.Value()
  {
  }

  lemma {:induction false} SpaceEndIs(s: string, i: nat, r: nat)
    requires i <= r <= |s| && !IsSpace(At(s, r)) && forall j :: i <= j < r ==> IsSpace(s[j])
    ensures SpaceEnd(s, i) == r
    decreases r - i
  {
    if i < r {
      SpaceEndIs(s, i + 1, r);
    }
  }

  lemma SpacesSkipped(s: string, blank: string, t: string)
    requires s == blank + t && AllSpaces(blank) && !IsSpace(At(t, 0))
    ensures SpaceEnd(s, 0) == |blank|
  {
    assert s[0..] == s;
    Behind(s, 0, blank, t);
    AtBehind(s, |blank|, t, 0);
    forall j | 0 <= j < |blank| ensures IsSpace(s[j]) {
      assert s[j] == blank[j];
    }
    SpaceEndIs(s, 0, |blank|);
  }

  /** How a number starts behind its sign. */
  lemma UnsignedStarts(n: Spelled, rest: string)
    requires n.Valid()
    ensures n.Unsigned() != "" && At(n.Unsigned() + rest, 0) == n.Unsigned()[0]
    ensures IsDigit(n.Unsigned()[0]) || n.Unsigned()[0] == '.'
  {
  }

  lemma TailStarts(n: Spelled, rest: string)
    requires n.Valid() && n.EndsBefore(rest)
    ensures !IsDigit(At(n.Fraction() + (n.power.Spelling() + rest), 0))
    ensures n.point <==> At(n.Fraction() + (n.power.Spelling() + rest), 0) == '.'
    ensures !IsDigit(At(n.power.Spelling() + rest, 0))
  {
  }

  lemma UnsignedRead(s: string, p: nat, minus: bool, n: Spelled, rest: string)
    requires p <= |s| && n.Valid() && n.EndsBefore(rest) && s[p..] == n.Unsigned() + rest
    ensures ReadUnsigned(s, p, minus) == Literal(minus, n.whole, n.fraction, n.power.Value(), p + |n.Unsigned()|)
  {
    hide *;
    ValidParts(n, rest);
    var u := n.power.Spelling() + rest;
    var tail := n.Fraction() + u;
    TailStarts(n, rest);
    HexElsewhere(s, p, n.Unsigned() + rest);
    UnsignedIs(n, rest);
    DigitsRead(s, p, n.whole, tail);
    FractionPlaces(s, p + |n.whole|, n, rest);
    UnsignedReads(s, minus, p, n.whole, tail, p + |n.whole|, n.fraction, n.power.Value(), p + |n.Unsigned()|);
  }

  lemma ValidParts(n: Spelled, rest: string)
    requires n.Valid() && n.EndsBefore(rest)
    ensures AllDigits(n.whole) && AllDigits(n.fraction) && (!n.point ==> n.fraction == "") && n.power.Valid()
    ensures |n.whole| + |n.fraction| > 0 && n.power.EndsBefore(rest) && !HexStarts(n.Unsigned() + rest, 0)
  {
    hide Spelled.Unsigned, AllDigits, HexStarts, Power.Valid, Power.EndsBefore;
  }

  lemma UnsignedIs(n: Spelled, rest: string)
    ensures n.Unsigned() + rest == n.whole + (n.Fraction() + (n.power.Spelling() + rest))
    ensures |n.Unsigned()| == |n.whole| + |n.Fraction()| + |n.power.Spelling()|
    ensures n.Fraction() == if n.point then "." + n.fraction else ""
  {
    hide Power.Spelling;
  }

  lemma FractionPlaces(s: string, w: nat, n: Spelled, rest: string)
    requires w <= |s| && n.Valid() && n.EndsBefore(rest) && s[w..] == n.Fraction() + (n.power.Spelling() + rest)
    ensures At(s, w) == '.' <==> n.point
    ensures n.point ==> w + 1 + |n.fraction| <= |s| && DigitRun(s, w + 1) == n.fraction
    ensures n.point ==>
      ReadPower(s, w + 1 + |n.fraction|) == (n.power.Value(), w + |n.Fraction()| + |n.power.Spelling()|)
    ensures !n.point ==> ReadPower(s, w) == (n.power.Value(), w + |n.power.Spelling()|)
  {
    hide *;
    ValidParts(n, rest);
    UnsignedIs(n, rest);
    TailStarts(n, rest);
    var u := n.power.Spelling() + rest;
    AtBehind(s, w, n.Fraction() + u, 0);
    if n.point {
      PointFirst(n.fraction, u);
      BehindPoint(s, w, n.fraction + u);
      DigitsRead(s, w + 1, n.fraction, u);
      PowerRead(s, w + 1 + |n.fraction|, n.power, rest);
    } else {
      NothingFirst(u);
      PowerRead(s, w, n.power, rest);
    }
  }

  lemma PointFirst(f: string, u: string)
    ensures ("." + f) + u == "." + (f + u)
  {
  }

  lemma NothingFirst(u: string)
    ensures "" + u == u
  {
  }

  lemma HexElsewhere(s: string, p: nat, t: string)
    requires p <= |s| && s[p..] == t
    ensures HexStarts(s, p) <==> HexStarts(t, 0)
  {
    AtBehind(s, p, t, 0);
    AtBehind(s, p, t, 1);
  }

  /** Every spelling of a number is read as the number, up to its last character. */
  lemma SpelledReads(n: Spelled, rest: string)
    requires n.Valid() && n.EndsBefore(rest)
    ensures ReadDecimal(n.Spelling() + rest) ==
      Literal(n.sign == "-", n.whole, n.fraction, n.power.Value(), |n.Spelling()|)
  {
    hide *;
    ValidParts(n, rest);
    UnsignedStarts(n, rest);
    SignAndSpaces(n, rest);
    var s := n.Spelling() + rest;
    UnsignedRead(s, |n.blank| + |n.sign|, n.sign == "-", n, rest);
    DecimalFrom(s, |n.blank|, n.sign, |n.blank| + |n.sign|);
  }

  lemma DecimalFrom(s: string, b: nat, sign: string, p: nat)
    requires SpaceEnd(s, 0) == b && IsSign(sign) && p == b + |sign| <= |s|
    requires (At(s, b) == '-' <==> sign == "-") && (At(s, b) == '+' <==> sign == "+")
    ensures ReadDecimal(s) == ReadUnsigned(s, p, sign == "-")
  {
    hide ReadUnsigned, SpaceEnd, At;
  }

  lemma SignAndSpaces(n: Spelled, rest: string)
    requires n.Valid() && n.Unsigned() != "" && (IsDigit(n.Unsigned()[0]) || n.Unsigned()[0] == '.')
    ensures var s, p := n.Spelling() + rest, |n.blank|;
      SpaceEnd(s, 0) == p && (At(s, p) == '-' <==> n.sign == "-") && (At(s, p) == '+' <==> n.sign == "+") &&
      IsSign(n.sign) && p + |n.sign| <= |s| && s[p + |n.sign|..] == n.Unsigned() + rest &&
      |n.Spelling()| == p + |n.sign| + |n.Unsigned()|
  {
    SpellingIs(n, rest);
    hide Spelled.Unsigned, Spelled.Spelling, SpaceEnd, AllDigits, Power.Valid;
    var s, t := n.Spelling() + rest, n.sign + (n.Unsigned() + rest);
    SignFirst(n.sign, n.Unsigned(), rest);
    SpacesSkipped(s, n.blank, t);
    assert s[0..] == s;
    Behind(s, 0, n.blank, t);
    AtBehind(s, |n.blank|, t, 0);
    Behind(s, |n.blank|, n.sign, n.Unsigned() + rest);
  }

  lemma SpellingIs(n: Spelled, rest: string)
    ensures n.Spelling() + rest == n.blank + (n.sign + (n.Unsigned() + rest))
    ensures |n.Spelling()| == |n.blank| + |n.sign| + |n.Unsigned()|
  {
    hide Spelled.Unsigned;
  }

  lemma SignFirst(sign: string, u: string, rest: string)
    requires IsSign(sign) && u != "" && (IsDigit(u[0]) || u[0] == '.')
    ensures var c := At(sign + (u + rest), 0);
      !IsSpace(c) && (c == '-' <==> sign == "-") && (c == '+' <==> sign == "+")
  {
    assert At(sign + (u + rest), 0) == if sign == "" then u[0] else sign[0];
  }

  // ----- what is read was spelled -----

  lemma PowerSpelled(s: string, i: nat) returns (q: Power)
    requires i <= |s|
    ensures q.Valid() && i + |q.Spelling()| <= |s|
    ensures s[i..] == q.Spelling() + s[i + |q.Spelling()|..] && q.EndsBefore(s[i + |q.Spelling()|..])
  {
    hide *;
    if StartsPower(s[i..]) {
      var sign := MarkAndSign(s, i);
      var j := i + 1 + |sign|;
      var k := RunPlaces(s, j);
      q := Power(s[i], sign, s[j..k]);
      PowerJoins(s, i, s[i], sign, j, k);
      PowerStands(q, s[k..]);
    } else {
      q := NoPower;
      PowerStands(q, s[i..]);
      NothingFirst(s[i..]);
    }
  }

  lemma MarkAndSign(s: string, i: nat) returns (sign: string)
    requires i <= |s| && StartsPower(s[i..])
    ensures i + 1 + |sign| <= |s| && (s[i] == 'e' || s[i] == 'E') && IsSign(sign)
    ensures (sign != "" ==> s[i + 1] == sign[0]) && IsDigit(At(s, i + 1 + |sign|))
  {
    AtBehind(s, i, s[i..], 0);
    AtBehind(s, i, s[i..], 1);
    AtBehind(s, i, s[i..], 2);
    sign := if At(s, i + 1) == '-' then "-" else if At(s, i + 1) == '+' then "+" else "";
    hide IsDigit;
  }

  lemma PowerStands(q: Power, rest: string)
    requires if q.NoPower? then !StartsPower(rest)
             else (q.mark == 'e' || q.mark == 'E') && IsSign(q.sign) && q.digits != "" && AllDigits(q.digits) &&
                  !IsDigit(At(rest, 0))
    ensures q.Valid() && q.EndsBefore(rest)
    ensures q.Spelling() == if q.Power? then [q.mark] + (q.sign + q.digits) else ""
  {
    hide IsDigit, StartsPower;
  }

  lemma RunPlaces(s: string, j: nat) returns (k: nat)
    requires IsDigit(At(s, j))
    ensures j < k <= |s| && AllDigits(s[j..k]) && !IsDigit(At(s[k..], 0))
  {
    assert j < |s|;
    k := DecimalEnd(s, j);
    AtBehind(s, k, s[k..], 0);
  }

  lemma PowerJoins(s: string, i: nat, mark: char, sign: string, j: nat, k: nat)
    requires j == i + 1 + |sign| && j < k <= |s| && mark == s[i] && IsSign(sign) && (sign != "" ==> s[i + 1] == sign[0])
    ensures s[i..] == ([mark] + (sign + s[j..k])) + s[k..]
    ensures |[mark] + (sign + s[j..k])| == k - i
  {
    var t := [mark] + (sign + s[j..k]) + s[k..];
    forall m | 0 <= m < |s| - i ensures s[i..][m] == t[m] {
      if 1 <= m < 1 + |sign| {
        assert m == 1 && t[1] == sign[0];
      }
    }
  }

  lemma RunOf(s: string, p: nat) returns (d: string)
    requires p <= |s|
    ensures d == DigitRun(s, p) && AllDigits(d) && p + |d| <= |s| && s[p..] == d + s[p + |d|..]
    ensures !IsDigit(At(s[p + |d|..], 0))
  {
    d := DigitRun(s, p);
    AtBehind(s, p + |d|, s[p + |d|..], 0);
    hide IsDigit, DecimalEnd;
    assert s[p..] == s[p..p + |d|] + s[p + |d|..];
  }

  /** What the reader takes for a number without its sign. */
  lemma UnsignedSpelled(s: string, p: nat, minus: bool, blank: string, sign: string) returns (n: Spelled, end: nat)
    requires p <= |s| && ReadUnsigned(s, p, minus).Literal? && AllSpaces(blank) && IsSign(sign)
    ensures n.Valid() && n.blank == blank && n.sign == sign && end <= |s|
    ensures s[p..] == n.Unsigned() + s[end..] && n.EndsBefore(s[end..])
  {
    hide *;
    UnsignedSplits(s, p, minus);
    var whole := RunOf(s, p);
    var w := p + |whole|;
    var point, fraction, i := PointAndFraction(s, w);
    var q := PowerSpelled(s, i);
    n := Spelled(blank, sign, whole, point, fraction, q);
    end := i + |q.Spelling()|;
    PartsJoin(s, p, n, w, i, end);
    HexElsewhere(s, p, n.Unsigned() + s[end..]);
    EndsAre(s, n, i, end);
  }

  lemma PointAndFraction(s: string, w: nat) returns (point: bool, fraction: string, i: nat)
    requires w <= |s| && !IsDigit(At(s[w..], 0))
    ensures point == (At(s, w) == '.') && AllDigits(fraction) && (!point ==> fraction == "") && w <= i <= |s|
    ensures s[w..] == (if point then "." + fraction else "") + s[i..]
    ensures !IsDigit(At(s[i..], 0)) && (!point ==> At(s[i..], 0) != '.') && (point ==> fraction == DigitRun(s, w + 1))
  {
    hide *;
    point := At(s, w) == '.';
    AtBehind(s, w, s[w..], 0);
    if point {
      PointAt(s, w);
      fraction := RunOf(s, w + 1);
      i := w + 1 + |fraction|;
      PointFirst(fraction, s[i..]);
    } else {
      fraction, i := "", w;
      NoDigitsIn();
      NothingFirst(s[w..]);
    }
  }

  lemma NoDigitsIn()
    ensures AllDigits("")
  {
  }

  lemma UnsignedSplits(s: string, p: nat, minus: bool)
    requires p <= |s| && ReadUnsigned(s, p, minus).Literal?
    ensures var d := DigitRun(s, p);
      !HexStarts(s, p) && p + |d| <= |s| &&
      (d != "" || (At(s, p + |d|) == '.' && p + |d| + 1 <= |s| && DigitRun(s, p + |d| + 1) != ""))
  {
    hide DigitRun, ReadPower;
  }

  lemma PointAt(s: string, w: nat)
    requires At(s, w) == '.'
    ensures w < |s| && s[w..] == "." + s[w + 1..]
  {
  }

  lemma PartsJoin(s: string, p: nat, n: Spelled, w: nat, i: nat, end: nat)
    requires p <= w <= i <= end <= |s| && s[p..] == n.whole + s[w..] && s[i..] == n.power.Spelling() + s[end..]
    requires s[w..] == (if n.point then "." + n.fraction else "") + s[i..]
    ensures s[p..] == n.Unsigned() + s[end..]
  {
    hide *;
    UnsignedIs(n, s[end..]);
  }

  lemma EndsAre(s: string, n: Spelled, i: nat, end: nat)
    requires AllSpaces(n.blank) && IsSign(n.sign) && AllDigits(n.whole) && AllDigits(n.fraction) && n.power.Valid()
    requires (!n.point ==> n.fraction == "") && (n.whole != "" || n.fraction != "")
    requires i <= end <= |s| && s[i..] == n.power.Spelling() + s[end..] && n.power.EndsBefore(s[end..])
    requires !HexStarts(n.Unsigned() + s[end..], 0) && !IsDigit(At(s[i..], 0)) && (!n.point ==> At(s[i..], 0) != '.')
    ensures n.Valid() && n.EndsBefore(s[end..])
  {
    hide HexStarts, Spelled.Unsigned, AllDigits, AllSpaces, IsSign, Power.Valid, Power.EndsBefore, IsDigit;
    if n.power.NoPower? {
      NothingFirst(s[end..]);
    }
  }

  lemma {:induction false} SpacesBefore(s: string, b: nat)
    requires b == SpaceEnd(s, 0)
    ensures b <= |s| && AllSpaces(s[..b]) && s == s[..b] + s[b..]
  {
  }

  /** Whatever is read as a literal was spelled as one: there is no other. */
  lemma ReadIsSpelled(s: string) returns (n: Spelled, rest: string)
    requires ReadDecimal(s).Literal?
    ensures n.Valid() && n.EndsBefore(rest) && s == n.Spelling() + rest
  {
    hide *;
    var b := SpaceEnd(s, 0);
    SpacesBefore(s, b);
    var sign := if At(s, b) == '-' then "-" else if At(s, b) == '+' then "+" else "";
    SignAt(s, b, sign);
    DecimalFrom(s, b, sign, b + |sign|);
    var end;
    n, end := UnsignedSpelled(s, b + |sign|, sign == "-", s[..b], sign);
    rest := s[end..];
    SpellingIs(n, rest);
  }

  lemma SignAt(s: string, b: nat, sign: string)
    requires b <= |s| && sign == if At(s, b) == '-' then "-" else if At(s, b) == '+' then "+" else ""
    ensures IsSign(sign) && b + |sign| <= |s| && s[b..] == sign + s[b + |sign|..]
    ensures (At(s, b) == '-' <==> sign == "-") && (At(s, b) == '+' <==> sign == "+")
  {
  }

  // ----- the scanner -----

  /** The number that is spelled, without its sign. */
  ghost function NumberOf(n: Spelled): real
    requires n.Valid()
  {
    DecimalMeaning.Decimal(DigitsValue(n.whole + n.fraction), n.power.Value() - |n.fraction|)
  }

  /** What the scanner finds in a spelled number: its sign, its end and, if the exponent is not clamped, itself. */
  lemma SpelledFound(n: Spelled, rest: string, r: Scanned)
    requires n.Valid() && n.EndsBefore(rest) && Found(n.Spelling() + rest, r, ReadDecimal(n.Spelling() + rest))
    ensures r.Zero? || r.Number?
    ensures r.minus == (n.sign == "-") && r.end == |n.Spelling()|
    ensures r.Zero? ==> NumberOf(n) == 0.0
    ensures r.Number? ==> AllDigits(Run(n.Spelling() + rest, r.s0, r.nd0, r.nd))
    ensures r.Number? ==>
      (DecimalMeaning.Decimal(DigitsValue(Run(n.Spelling() + rest, r.s0, r.nd0, r.nd)), r.e) == NumberOf(n) <==>
       -LARGEST_EXPONENT <= n.power.Value() <= LARGEST_EXPONENT)
  {
    hide *;
    SpelledReads(n, rest);
    ValidParts(n, rest);
    FoundIs(n, n.Spelling() + rest, r);
    if r.Number? {
      NumberMeans(n.Spelling() + rest, r, ReadDecimal(n.Spelling() + rest));
    }
  }

  lemma FoundIs(n: Spelled, s: string, r: Scanned)
    requires n.Valid() && ReadDecimal(s) == Literal(n.sign == "-", n.whole, n.fraction, n.power.Value(), |n.Spelling()|)
    requires Found(s, r, ReadDecimal(s))
    ensures (r.Zero? || r.Number?) && r.minus == (n.sign == "-") && r.end == |n.Spelling()|
    ensures r.Zero? ==> NumberOf(n) == 0.0
    ensures AllDigits(n.whole + n.fraction) && Magnitude(ReadDecimal(s)) == NumberOf(n)
    ensures ReadDecimal(s).exponent == n.power.Value()
  {
    hide ReadDecimal, Holds, DigitsValue, DecimalMeaning.RPow, Spelled.Spelling, Power.Value;
  }
}
