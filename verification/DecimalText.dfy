/** Decimal floating-point text: what a literal means, and the three layouts in which g__fmt writes a number. */
module DecimalText {
  import opened Words
  import opened Digits
  import opened Numerals
  import DecimalMeaning

  // ----- reading -----

  /** What a text begins with. Hexadecimal numbers and the names of infinity and NaN are left to their own readers. */
  datatype Reading =
    | NoNumber
    | Hexadecimal(minus: bool, at: nat)
    | Letters(minus: bool, at: nat)
    | Literal(minus: bool, whole: string, fraction: string, exponent: int, end: nat)

  /** The first place from i on that holds no white space. */
  function SpaceEnd(s: string, i: nat): (r: nat)
    requires i <= |s|
    ensures i <= r <= |s| && !IsSpace(At(s, r))
    ensures forall j :: i <= j < r ==> IsSpace(s[j])
    decreases |s| - i
  {
    if IsSpace(At(s, i)) then SpaceEnd(s, i + 1) else i
  }

  /** The digits at place i. */
  function DigitRun(s: string, i: nat): (d: string)
    requires i <= |s|
    ensures AllDigits(d) && i + |d| <= |s| && s[i..i + |d|] == d
  {
    s[i..DecimalEnd(s, i)]
  }

  /** An exponent part at i: e, an optional sign and digits. Without digits there is none. */
  function ReadPower(s: string, i: nat): (x: (int, nat))
    requires i <= |s|
    ensures i <= x.1 <= |s|
  {
    if At(s, i) != 'e' && At(s, i) != 'E' then
      (0, i)
    else
      var negative := At(s, i + 1) == '-';
      var j := if negative || At(s, i + 1) == '+' then i + 2 else i + 1;
      if !IsDigit(At(s, j)) then
        (0, i)
      else
        var k := DecimalEnd(s, j);
        var v: int := DigitsValue(s[j..k]);
        (if negative then -v else v, k)
  }

  /** The number without its sign that starts at p. */
  function ReadUnsigned(s: string, p: nat, minus: bool): (r: Reading)
    requires p <= |s|
    ensures r.Literal? ==> AllDigits(r.whole) && AllDigits(r.fraction) && |r.whole| + |r.fraction| > 0
  {
    if HexStarts(s, p) then
      Hexadecimal(minus, p)
    else
      var whole := DigitRun(s, p);
      var w := p + |whole|;
      var point := At(s, w) == '.';
      var fraction := if point then DigitRun(s, w + 1) else "";
      if whole != "" || fraction != "" then
        var x := ReadPower(s, if point then w + 1 + |fraction| else w);
        Literal(minus, whole, fraction, x.0, x.1)
      else if !point && At(s, w) in "iInN" then
        Letters(minus, w)
      else
        NoNumber
  }

  function ReadDecimal(s: string): (r: Reading)
    ensures r.Literal? ==> AllDigits(r.whole) && AllDigits(r.fraction) && |r.whole| + |r.fraction| > 0
  {
    var p := SpaceEnd(s, 0);
    var minus := At(s, p) == '-';
    ReadUnsigned(s, if minus || At(s, p) == '+' then p + 1 else p, minus)
  }

  /** The number that a literal denotes, without its sign. */
  ghost function Magnitude(r: Reading): real
    requires r.Literal? && AllDigits(r.whole + r.fraction)
  {
    DecimalMeaning.Decimal(DigitsValue(r.whole + r.fraction), r.exponent - |r.fraction|)
  }

  // ----- writing -----

  /** The digits are written without an exponent. */
  predicate IsPlain(n: nat, decpt: int)
  {
    -4 < decpt <= n + 5
  }

  function PowerText(x: int): string
  {
    if x < 0 then "e-" + Padded(-x, 2) else "e+" + Padded(x, 2)
  }

  /** Digits with a point after the first decpt of them. */
  function Text(d: string, decpt: int, minus: bool): string
    requires |d| > 0
  {
    (if minus then "-" else "") +
    if !IsPlain(|d|, decpt) then
      d[..1] + ((if |d| > 1 then "." + d[1..] else "") + PowerText(decpt - 1))
    else if decpt <= 0 then
      "." + (Zeros(-decpt) + d)
    else if decpt < |d| then
      d[..decpt] + ("." + d[decpt..])
    else
      d + Zeros(decpt - |d|)
  }

  /** Which layout is chosen, and how long its text is: digits behind a point when none stand before it, among
      them, or zeros behind them; and one digit before the point when an exponent is written. */
  lemma LayoutIs(d: string, decpt: int, minus: bool)
    requires |d| > 0 && AllDigits(d)
    ensures var t, n := Text(d, decpt, minus), if minus then 1 else 0;
      ('e' in t <==> decpt <= -4 || decpt > |d| + 5) && (minus <==> t[0] == '-') &&
      |t| == n + if decpt <= -4 || decpt > |d| + 5 then (if |d| > 1 then |d| + 1 else 1) + |PowerText(decpt - 1)|
                 else if decpt <= 0 then 1 - decpt + |d|
                 else if decpt < |d| then |d| + 1
                 else decpt
    ensures -100 < decpt - 1 < 100 ==> |PowerText(decpt - 1)| == 4
  {
    assert Pow(10, 2) == 100;
    PaddedLength(if decpt < 1 then 1 - decpt else decpt - 1, 2);
    hide Padded, Pow;
  }

  // ----- what is written is read -----

  lemma {:induction false} DigitsConcat(s: string, t: string)
    requires AllDigits(s) && AllDigits(t)
    ensures AllDigits(s + t) && DigitsValue(s + t) == DigitsValue(s) * Pow(10, |t|) + DigitsValue(t)
    decreases |t|
  {
    if |t| == 0 {
      assert s + t == s;
    } else {
      var t', d := t[..|t| - 1], t[|t| - 1];
      DigitsConcat(s, t');
      assert (s + t)[..|s + t| - 1] == s + t';
      MulAssoc(10, DigitsValue(s), Pow(10, |t'|));
      MulAssoc(DigitsValue(s), 10, Pow(10, |t'|));
    }
  }

  lemma ZerosBehind(s: string, n: nat)
    requires AllDigits(s)
    ensures AllDigits(s + Zeros(n)) && DigitsValue(s + Zeros(n)) == DigitsValue(s) * Pow(10, n)
  {
    hide DigitsValue, Zeros, Pow;
    DigitsConcat(s, Zeros(n));
    ZerosValue(n, "");
    assert Zeros(n) + "" == Zeros(n);
    NoDigits();
  }

  lemma PowerReads(s: string, i: nat, x: int)
    requires i <= |s| && s[i..] == PowerText(x)
    ensures ReadPower(s, i) == (x, |s|)
  {
    hide DigitsValue, Padded, DecimalEnd;
    var d := Padded(if x < 0 then -x else x, 2);
    PaddedValue(if x < 0 then -x else x, 2);
    assert s[i..][0] == s[i] == 'e' && s[i..][1] == s[i + 1] && s[i..][2..] == d == s[i + 2..|s|];
    assert s[i + 2] == d[0];
    forall j | i + 2 <= j < |s| ensures IsDigit(s[j]) {
      assert s[j] == d[j - (i + 2)];
    }
    DecimalEndIs(s, i + 2, |s|);
  }

  lemma NoPowerReads(s: string)
    ensures ReadPower(s, |s|) == (0, |s|)
  {
  }

  /** Digits at p with something else behind them. */
  lemma DigitsRead(s: string, p: nat, d: string, tail: string)
    requires p <= |s| && s[p..] == d + tail && AllDigits(d) && !IsDigit(At(tail, 0))
    ensures DigitRun(s, p) == d && p + |d| <= |s| && s[p + |d|..] == tail && At(s, p + |d|) == At(tail, 0)
  {
    hide IsDigit, DecimalEnd;
    assert |s| - p == |d| + |tail|;
    forall j | p <= j < p + |d| ensures IsDigit(s[j]) {
      assert s[j] == s[p..][j - p] == d[j - p];
    }
    assert tail != "" ==> s[p + |d|] == s[p..][|d|] == tail[0];
    DecimalEndIs(s, p, p + |d|);
  }

  lemma PowerStarts(x: int)
    ensures PowerText(x) != "" && PowerText(x)[0] == 'e'
  {
    hide Padded;
  }

  lemma UnsignedReads(s: string, minus: bool, p: nat, whole: string, tail: string, w: nat, fraction: string,
                      x: int, end: nat)
    requires p <= |s| && !HexStarts(s, p)
    requires DigitRun(s, p) == whole && w == p + |whole| && |whole| + |fraction| > 0
    requires At(s, w) == '.' ==> w + 1 + |fraction| <= |s| && DigitRun(s, w + 1) == fraction
    requires At(s, w) == '.' ==> ReadPower(s, w + 1 + |fraction|) == (x, end)
    requires At(s, w) != '.' ==> fraction == "" && ReadPower(s, w) == (x, end)
    ensures ReadUnsigned(s, p, minus) == Literal(minus, whole, fraction, x, end)
  {
    hide DigitRun, ReadPower, At;
  }

  /** What the exponent part of a text is, if it has one. */
  predicate IsPower(power: string, x: int)
  {
    power == if x == 0 then "" else PowerText(x)
  }

  lemma PowerIsRead(s: string, i: nat, power: string, x: int)
    requires i <= |s| && s[i..] == power && IsPower(power, x)
    ensures ReadPower(s, i) == (x, |s|)
  {
    hide ReadPower, PowerText;
    if x == 0 {
      assert i == |s|;
      NoPowerReads(s);
    } else {
      PowerReads(s, i, x);
    }
  }

  lemma PowerEndsDigits(power: string, x: int)
    requires IsPower(power, x)
    ensures At(power, 0) == 'e' || At(power, 0) == '\0'
  {
    PowerStarts(x);
  }

  /** A point and the fraction, if there is one, and the exponent part. */
  predicate IsTail(tail: string, fraction: string, power: string)
  {
    tail == if fraction == "" then power else "." + (fraction + power)
  }

  lemma TailStarts(fraction: string, tail: string, power: string, x: int)
    requires AllDigits(fraction) && IsPower(power, x) && IsTail(tail, fraction, power)
    ensures At(tail, 0) in ".e\0" && !IsDigit(At(tail, 0))
    ensures fraction == "" ==> At(tail, 0) != '.'
    ensures fraction != "" ==> At(tail, 0) == '.'
  {
    PowerEndsDigits(power, x);
  }

  lemma BehindPoint(s: string, w: nat, t: string)
    requires w <= |s| && s[w..] == "." + t
    ensures w + 1 <= |s| && s[w + 1..] == t
  {
    assert s[w..][1..] == s[w + 1..];
  }

  lemma FractionRead(s: string, f: nat, fraction: string, power: string, x: int)
    requires f <= |s| && s[f..] == fraction + power && AllDigits(fraction) && IsPower(power, x)
    ensures f + |fraction| <= |s| && DigitRun(s, f) == fraction && ReadPower(s, f + |fraction|) == (x, |s|)
  {
    NoDigitStarts(power, x);
    hide *;
    DigitsRead(s, f, fraction, power);
    PowerIsRead(s, f + |fraction|, power, x);
  }

  lemma NoDigitStarts(power: string, x: int)
    requires IsPower(power, x)
    ensures !IsDigit(At(power, 0))
  {
    PowerEndsDigits(power, x);
  }

  /** A text of digits, a point and digits, and an exponent, is read as these parts. */
  lemma PartsRead(s: string, minus: bool, p: nat, whole: string, fraction: string, tail: string, power: string, x: int)
    requires AllDigits(whole) && AllDigits(fraction) && |whole| + |fraction| > 0
    requires IsPower(power, x) && IsTail(tail, fraction, power)
    requires p <= |s| && s[p..] == whole + tail
    ensures ReadUnsigned(s, p, minus) == Literal(minus, whole, fraction, x, |s|)
  {
    hide *;
    WholeRead(s, p, whole, fraction, tail, power, x);
    TailRead(s, p + |whole|, fraction, tail, power, x);
    UnsignedReads(s, minus, p, whole, tail, p + |whole|, fraction, x, |s|);
  }

  lemma WholeRead(s: string, p: nat, whole: string, fraction: string, tail: string, power: string, x: int)
    requires AllDigits(whole) && AllDigits(fraction) && IsPower(power, x) && IsTail(tail, fraction, power)
    requires p <= |s| && s[p..] == whole + tail
    ensures DigitRun(s, p) == whole && p + |whole| <= |s| && s[p + |whole|..] == tail
    ensures At(s, p + |whole|) == At(tail, 0)
    ensures !HexStarts(s, p) && (At(tail, 0) == '.' <==> fraction != "")
  {
    TailStarts(fraction, tail, power, x);
    hide *;
    DigitsRead(s, p, whole, tail);
    NotHexadecimal(s, p, whole, tail);
  }

  predicate HexStarts(s: string, p: nat)
  {
    At(s, p) == '0' && (At(s, p + 1) == 'x' || At(s, p + 1) == 'X')
  }

  lemma TailRead(s: string, w: nat, fraction: string, tail: string, power: string, x: int)
    requires AllDigits(fraction) && IsPower(power, x) && w <= |s| && s[w..] == tail && At(s, w) == At(tail, 0)
    requires IsTail(tail, fraction, power)
    requires At(tail, 0) == '.' <==> fraction != ""
    ensures At(s, w) == '.' ==> w + 1 + |fraction| <= |s| && DigitRun(s, w + 1) == fraction
    ensures At(s, w) == '.' ==> ReadPower(s, w + 1 + |fraction|) == (x, |s|)
    ensures At(s, w) != '.' ==> fraction == "" && ReadPower(s, w) == (x, |s|)
  {
    assert fraction == "" ==> tail == power;
    assert fraction != "" ==> tail == "." + (fraction + power);
    hide *;
    if fraction == "" {
      PowerIsRead(s, w, power, x);
    } else {
      BehindPoint(s, w, fraction + power);
      FractionRead(s, w + 1, fraction, power, x);
    }
  }

  lemma NotHexadecimal(s: string, p: nat, whole: string, tail: string)
    requires p <= |s| && s[p..] == whole + tail && AllDigits(whole) && At(tail, 0) in ".e\0"
    ensures !HexStarts(s, p)
  {
    if At(s, p) == '0' {
      assert s[p] == s[p..][0];
      assert p + 1 < |s| ==> s[p + 1] == s[p..][1];
      assert |whole| > 1 ==> IsDigit(whole[1]);
    }
  }

  lemma SignRead(s: string, minus: bool, u: string)
    requires s == (if minus then "-" else "") + u && |u| > 0 && (IsDigit(u[0]) || u[0] == '.')
    ensures var p := if minus then 1 else 0;
      s[p..] == u && ReadDecimal(s) == ReadUnsigned(s, p, minus)
  {
    hide ReadUnsigned;
    assert s[0] == if minus then '-' else u[0];
  }

  /** The parts that Text writes for these digits. */
  ghost predicate Parts(d: string, decpt: int, whole: string, fraction: string, x: int)
    requires AllDigits(d)
  {
    AllDigits(whole) && AllDigits(fraction) && |whole| + |fraction| > 0 &&
    x == (if IsPlain(|d|, decpt) then 0 else decpt - 1) &&
    DecimalMeaning.Decimal(DigitsValue(whole + fraction), x - |fraction|) ==
    DecimalMeaning.Decimal(DigitsValue(d), decpt - |d|)
  }

  lemma PartsOf(d: string, decpt: int) returns (whole: string, fraction: string)
    requires |d| > 0 && AllDigits(d)
    ensures Parts(d, decpt, whole, fraction, if IsPlain(|d|, decpt) then 0 else decpt - 1)
    ensures var power := if IsPlain(|d|, decpt) then "" else PowerText(decpt - 1);
      Text(d, decpt, false) == whole + (if fraction == "" then power else "." + (fraction + power))
  {
    hide DigitsValue, Pow, Zeros, PowerText, DecimalMeaning.Decimal;
    if !IsPlain(|d|, decpt) {
      whole, fraction := d[..1], d[1..];
      assert whole + fraction == d;
      assert "." + (fraction + PowerText(decpt - 1)) == ("." + fraction) + PowerText(decpt - 1);
    } else if decpt <= 0 {
      whole, fraction := "", Zeros(-decpt) + d;
      assert whole + fraction == fraction;
      assert whole + ("." + (fraction + "")) == "." + fraction;
      ZerosValue(-decpt, d);
    } else if decpt < |d| {
      whole, fraction := d[..decpt], d[decpt..];
      assert whole + fraction == d;
      assert fraction + "" == fraction;
    } else {
      whole, fraction := d + Zeros(decpt - |d|), "";
      assert whole + fraction == whole;
      ZerosBehind(d, decpt - |d|);
      DecimalMeaning.DecimalShift(DigitsValue(d), decpt - |d|, 0);
    }
    NoSign(d, decpt);
  }

  lemma NoSign(d: string, decpt: int)
    requires |d| > 0
    ensures Text(d, decpt, true) == "-" + Text(d, decpt, false)
  {
    hide Padded, Zeros;
  }

  /** The text written for a number is read as that number, over its whole length. */
  lemma TextReads(d: string, decpt: int, minus: bool)
    requires |d| > 0 && AllDigits(d)
    ensures var r := ReadDecimal(Text(d, decpt, minus));
      r.Literal? && r.minus == minus && r.end == |Text(d, decpt, minus)| &&
      r.exponent == (if IsPlain(|d|, decpt) then 0 else decpt - 1) &&
      Magnitude(r) == DecimalMeaning.Decimal(DigitsValue(d), decpt - |d|)
  {
    hide DigitsValue, Text, PowerText, Pow, Zeros, DecimalMeaning.Decimal, ReadDecimal, ReadUnsigned;
    var whole, fraction := PartsOf(d, decpt);
    var x := if IsPlain(|d|, decpt) then 0 else decpt - 1;
    var power := if x == 0 then "" else PowerText(x);
    var tail := if fraction == "" then power else "." + (fraction + power);
    var u, s := whole + tail, Text(d, decpt, minus);
    NoSign(d, decpt);
    PowerStarts(x);
    SignRead(s, minus, u);
    PartsRead(s, minus, if minus then 1 else 0, whole, fraction, tail, power, x);
  }
}
