/** Numbers written as decimal text and read back. */
module DecimalRoundTrip {
  import opened Words
  import opened Digits
  import opened Numerals
  import opened Bigints
  import opened DecimalText
  import opened DecimalWriter
  import opened DecimalScanner
  import opened DecimalMeaning

  lemma LargerPower(v: nat, a: int, b: int)
    requires v > 0 && a < b
    ensures Decimal(v, a) < Decimal(v, b)
  {
    hide Pow, RPow;
    RPowGrows(10, a, b);
    RCancel(RPow(10, a), RPow(10, b), v as real);
  }

  /** The power of ten belongs to the number. */
  lemma SamePower(v: nat, a: int, b: int)
    requires v > 0
    ensures Decimal(v, a) == Decimal(v, b) <==> a == b
  {
    hide Decimal;
    if a < b {
      LargerPower(v, a, b);
    } else if b < a {
      LargerPower(v, b, a);
    }
  }

  lemma RunIsPositive(s: string, r: Scanned, x: Reading)
    requires r.Number? && Found(s, r, x)
    ensures DigitsValue(Run(s, r.s0, r.nd0, r.nd)) > 0 && DigitsValue(x.whole + x.fraction) > 0
    ensures 0 <= r.e + |x.fraction| - Clamp(x.exponent)
    ensures DigitsValue(x.whole + x.fraction) ==
      DigitsValue(Run(s, r.s0, r.nd0, r.nd)) * Pow(10, r.e + |x.fraction| - Clamp(x.exponent))
  {
    hide DigitsValue, Run, Nine;
    LeadingDigitBound(Run(s, r.s0, r.nd0, r.nd));
    ShortestDecimal.MulPos(DigitsValue(Run(s, r.s0, r.nd0, r.nd)), Pow(10, r.e + |x.fraction| - Clamp(x.exponent)));
  }

  /** The digits and the power of ten found denote what the text denotes exactly when its exponent is not clamped. */
  lemma NumberMeans(s: string, r: Scanned, x: Reading)
    requires r.Number? && Found(s, r, x)
    ensures AllDigits(Run(s, r.s0, r.nd0, r.nd)) && x.Literal? && AllDigits(x.whole + x.fraction)
    ensures Decimal(DigitsValue(Run(s, r.s0, r.nd0, r.nd)), r.e) == Magnitude(x) <==>
      -LARGEST_EXPONENT <= x.exponent <= LARGEST_EXPONENT
  {
    RunIsPositive(s, r, x);
    hide DigitsValue, Run, Nine, Pow, Decimal;
    var d, f := DigitsValue(Run(s, r.s0, r.nd0, r.nd)), |x.fraction|;
    DecimalShift(d, r.e + f - Clamp(x.exponent), Clamp(x.exponent) - f);
    SamePower(DigitsValue(x.whole + x.fraction), Clamp(x.exponent) - f, x.exponent - f);
  }

  /** Reads a decimal literal: where its digits are, and the integer they spell. */
  method ReadNumber(s: string) returns (r: Scanned, b: Bigint?)
    ensures Found(s, r, ReadDecimal(s)) && (r.Number? <==> b != null)
    ensures b != null ==> fresh(b) && fresh(b.x) && b.Ok()
    ensures b != null ==> AllDigits(Run(s, r.s0, r.nd0, r.nd)) && b.Value() == DigitsValue(Run(s, r.s0, r.nd0, r.nd))
    ensures b != null ==> ReadDecimal(s).Literal? && AllDigits(ReadDecimal(s).whole + ReadDecimal(s).fraction)
    ensures b != null ==> (Decimal(b.Value(), r.e) == Magnitude(ReadDecimal(s)) <==>
      -LARGEST_EXPONENT <= ReadDecimal(s).exponent <= LARGEST_EXPONENT)
  {
    hide ReadDecimal, DigitsValue, Words.Value, Pow, Decimal, Run, Nine;
    r := Scan(s);
    b := null;
    if r.Number? {
      NumberMeans(s, r, ReadDecimal(s));
      b := S2b(s, r.s0, r.nd0, r.nd, r.y);
    }
  }

  /** The exponent survives: it is not written, or it is small enough to be read back. */
  predicate Survives(nd: nat, decpt: int)
  {
    IsPlain(nd, decpt) || -LARGEST_EXPONENT <= decpt - 1 <= LARGEST_EXPONENT
  }

  lemma ZeroMagnitude(v: nat, a: int, w: nat, b: int)
    requires Decimal(v, a) == Decimal(w, b)
    ensures v == 0 <==> w == 0
  {
    hide RPow;
    if v > 0 {
      MulPosReal(v as real, RPow(10, a));
    }
    if w > 0 {
      MulPosReal(w as real, RPow(10, b));
    }
  }

  /** What the scanner finds in the text written for some digits. */
  lemma TextFound(d: string, decpt: int, minus: bool, r: Scanned)
    requires |d| > 0 && AllDigits(d) && Found(Text(d, decpt, minus), r, ReadDecimal(Text(d, decpt, minus)))
    ensures DigitsValue(d) == 0 ==> r == Zero(minus, |Text(d, decpt, minus)|)
    ensures DigitsValue(d) > 0 ==> r.Number? && r.minus == minus && r.end == |Text(d, decpt, minus)|
    ensures r.Number? ==> AllDigits(Run(Text(d, decpt, minus), r.s0, r.nd0, r.nd))
    ensures r.Number? ==>
      var run := Run(Text(d, decpt, minus), r.s0, r.nd0, r.nd);
      Decimal(DigitsValue(run), r.e) == Decimal(DigitsValue(d), decpt - |d|) <==> Survives(|d|, decpt)
  {
    hide ReadDecimal, Text, DigitsValue, Pow, Decimal, Run, Nine;
    var s := Text(d, decpt, minus);
    var x := ReadDecimal(s);
    TextReads(d, decpt, minus);
    ZeroMagnitude(DigitsValue(x.whole + x.fraction), x.exponent - |x.fraction|, DigitsValue(d), decpt - |d|);
    if r.Number? {
      RunIsPositive(s, r, x);
      NumberMeans(s, r, x);
    }
  }

  /** Writes a number and reads the text back. If the text fits its buffer the same number comes back, exactly when
      its exponent is not too large for the reader. */
  method WriteAndRead(b: array<char>, s: array<char>, nd: nat, decpt: int, sign: bool, blen: nat)
    returns (end: int, r: Scanned, v: Bigint?)
    requires b != s && 0 < nd < s.Length && s[nd] == '\0' && AllDigits(s[..nd]) && blen <= b.Length
    modifies b
    ensures end >= 0 <==> nd + 6 <= blen && |Text(s[..nd], decpt, sign)| < blen
    ensures end >= 0 && DigitsValue(s[..nd]) == 0 ==> r == Zero(sign, end)
    ensures end >= 0 && DigitsValue(s[..nd]) > 0 ==> r.Number? && r.minus == sign && r.end == end && v != null && v.Ok()
    ensures end >= 0 && DigitsValue(s[..nd]) > 0 ==>
      (Decimal(v.Value(), r.e) == Decimal(DigitsValue(s[..nd]), decpt - nd) <==> Survives(nd, decpt))
  {
    hide ReadDecimal, Text, DigitsValue, Words.Value, Pow, Decimal, Run, Found;
    end := FormatDecimal(b, s, nd, decpt, sign, blen);
    r, v := Scanned.NoNumber, null;
    if end >= 0 {
      r, v := ReadNumber(b[..end]);
      TextFound(s[..nd], decpt, sign, r);
    }
  }

  const HUGE := "1e+20000"

  lemma HugeText()
    ensures Text("1", 20001, false) == HUGE && AllDigits("1") && DigitsValue("1") == 1
  {
    assert Numeral(2) == "2";
    assert Numeral(20) == "20";
    assert Numeral(200) == "200";
    assert Numeral(2000) == "2000";
    assert Numeral(20000) == "20000";
    assert "1"[..0] == "";
  }

  /** A text for 10^20000 is read as 10^19999. */
  lemma HugeExponent(r: Scanned)
    requires r.Number? && Found(HUGE, r, ReadDecimal(HUGE))
    ensures ReadDecimal(HUGE).Literal? && AllDigits(ReadDecimal(HUGE).whole + ReadDecimal(HUGE).fraction)
    ensures Magnitude(ReadDecimal(HUGE)) == Decimal(1, 20000)
    ensures AllDigits(Run(HUGE, r.s0, r.nd0, r.nd))
    ensures Decimal(DigitsValue(Run(HUGE, r.s0, r.nd0, r.nd)), r.e) != Decimal(1, 20000)
  {
    HugeText();
    DecimalText.TextReads("1", 20001, false);
    hide *;
    NumberMeans(HUGE, r, ReadDecimal(HUGE));
    FarExponent();
  }

  lemma FarExponent()
    ensures !IsPlain(1, 20001) && 20000 > LARGEST_EXPONENT
  {
  }
}
