/** Hexadecimal floating-point text, 0x1.8p-3: what it means, and the scanner of gethex. */
module HexText {
  import opened Words
  import opened Digits
  import opened Numerals

  predicate IsHex(c: char)
  {
    '0' <= c <= '9' || 'a' <= c <= 'f' || 'A' <= c <= 'F'
  }

  predicate AllHex(s: string)
  {
    forall i :: 0 <= i < |s| ==> IsHex(s[i])
  }

  function HexDigit(c: char): (d: nat)
    requires IsHex(c)
    ensures d < 16 && (d == 0 <==> c == '0')
  {
    if c <= '9' then (c - '0') as nat else if c <= 'F' then (c - 'A') as nat + 10 else (c - 'a') as nat + 10
  }

  /** The number that a string of hexadecimal digits spells. */
  function HexValue(s: string): nat
    requires AllHex(s)
  {
    if |s| == 0 then 0 else 16 * HexValue(s[..|s| - 1]) + HexDigit(s[|s| - 1])
  }

  lemma {:induction false} HexValueCons(c: char, t: string)
    requires IsHex(c) && AllHex(t)
    ensures HexValue([c] + t) == HexDigit(c) * Pow(16, |t|) + HexValue(t)
    decreases |t|
  {
    if |t| == 0 {
      assert [c] + t == [c] && [c][..0] == [];
    } else {
      var t', d := t[..|t| - 1], t[|t| - 1];
      HexValueCons(c, t');
      assert ([c] + t)[..|t|] == [c] + t';
      assert Pow(16, |t|) == 16 * Pow(16, |t| - 1);
      MulAssoc(16, HexDigit(c), Pow(16, |t| - 1));
      MulAssoc(HexDigit(c), 16, Pow(16, |t| - 1));
    }
  }

  /** Zeros in front do not count. */
  lemma {:induction false} LeadingZeros(z: string, t: string)
    requires AllHex(t) && forall i :: 0 <= i < |z| ==> z[i] == '0'
    ensures AllHex(z) && AllHex(z + t) && HexValue(z + t) == HexValue(t)
    decreases |z|
  {
    if |z| == 0 {
      assert z + t == t;
    } else {
      LeadingZeros(z[1..], t);
      assert z + t == ['0'] + (z[1..] + t);
      HexValueCons('0', z[1..] + t);
    }
  }

  lemma NoHex()
    ensures HexValue([]) == 0
  {
  }

  lemma LeadingDigit(t: string)
    requires AllHex(t) && |t| > 0 && t[0] != '0'
    ensures HexValue(t) >= Pow(16, |t| - 1) > 0
  {
    assert t == [t[0]] + t[1..];
    HexValueCons(t[0], t[1..]);
    MulMono(Pow(16, |t| - 1), 1, HexDigit(t[0]));
  }

  /** The first place from i on that holds no hexadecimal digit. */
  function HexEnd(s: string, i: nat): (r: nat)
    requires i <= |s|
    ensures i <= r <= |s| && !IsHex(At(s, r))
    ensures forall j :: i <= j < r ==> IsHex(s[j])
    decreases |s| - i
  {
    if IsHex(At(s, i)) then HexEnd(s, i + 1) else i
  }

  lemma {:induction false} HexEndIs(s: string, i: nat, r: nat)
    requires i <= r <= |s| && !IsHex(At(s, r)) && forall j :: i <= j < r ==> IsHex(s[j])
    ensures HexEnd(s, i) == r
    decreases r - i
  {
    if i < r {
      HexEndIs(s, i + 1, r);
    }
  }

  /** The parts of the mantissa that starts at place 2: digits before and after the point, and its end. */
  datatype Mantissa = Mantissa(whole: string, fraction: string, end: nat)

  function ReadMantissa(s: string): (m: Mantissa)
    requires |s| >= 2
    ensures AllHex(m.whole) && AllHex(m.fraction) && 2 <= m.end <= |s|
  {
    var w := HexEnd(s, 2);
    if At(s, w) == '.' then
      var f := HexEnd(s, w + 1);
      Mantissa(s[2..w], s[w + 1..f], f)
    else
      Mantissa(s[2..w], "", w)
  }

  /** An exponent part: p, an optional sign and decimal digits. Without digits there is none. */
  datatype Exponent = Exponent(value: int, big: bool, negative: bool, end: nat)

  function ReadExponent(s: string, i: nat): (x: Exponent)
    requires i <= |s|
    ensures i <= x.end <= |s|
  {
    if At(s, i) != 'p' && At(s, i) != 'P' then
      Exponent(0, false, false, i)
    else
      var negative := At(s, i + 1) == '-';
      var j := if negative || At(s, i + 1) == '+' then i + 2 else i + 1;
      if j > |s| || !IsDigit(At(s, j)) then
        Exponent(0, false, negative, i)
      else
        var k := DecimalEnd(s, j);
        var v: int := DigitsValue(s[j..k]);
        Exponent(if negative then -v else v, DigitsValue(s[j..k - 1]) >= 0x800_0000, negative, k)
  }

  /** t without its points. */
  function Strip(t: string): (r: string)
    ensures |r| <= |t|
  {
    if |t| == 0 then [] else if t[0] == '.' then Strip(t[1..]) else [t[0]] + Strip(t[1..])
  }

  lemma {:induction false} StripHex(t: string)
    requires forall i :: 0 <= i < |t| ==> t[i] == '.' || IsHex(t[i])
    ensures AllHex(Strip(t))
  {
    if |t| > 0 {
      StripHex(t[1..]);
    }
  }

  lemma {:induction false} StripDigits(t: string)
    requires AllHex(t)
    ensures Strip(t) == t
  {
    if |t| > 0 {
      StripDigits(t[1..]);
    }
  }

  lemma {:induction false} StripPoint(t: string, u: string)
    requires AllHex(t) && AllHex(u)
    ensures Strip(t + ['.'] + u) == t + u
  {
    if |t| == 0 {
      assert (t + ['.'] + u)[1..] == u;
      StripDigits(u);
    } else {
      StripPoint(t[1..], u);
      assert (t + ['.'] + u)[1..] == t[1..] + ['.'] + u;
    }
  }

  lemma PointAndZero()
    ensures IsHex('0') && !IsHex('.')
  {
  }

  /** Moves over hexadecimal digits. */
  method SkipHex(s: string, i: nat) returns (r: nat)
    requires i <= |s|
    ensures i <= r <= |s| && r == HexEnd(s, i)
  {
    r := i;
    while IsHex(At(s, r))
      invariant i <= r <= |s|
      invariant forall j :: i <= j < r ==> IsHex(s[j])
      decreases |s| - r
    {
      r := r + 1;
    }
    HexEndIs(s, i, r);
  }

  lemma {:induction false} HexEndPast(s: string, i: nat, j: nat)
    requires i <= j <= |s| && forall k :: i <= k < j ==> IsHex(s[k])
    ensures HexEnd(s, i) == HexEnd(s, j)
    decreases j - i
  {
    if i < j {
      HexEndPast(s, i + 1, j);
    }
  }

  /** The significant digits are at s0..s1, without the zeros in front. */
  ghost predicate Significant(s: string, s0: nat, s1: nat, m: Mantissa)
    requires AllHex(m.whole) && AllHex(m.fraction)
  {
    s0 < s1 <= |s| && IsHex(s[s0]) && s[s0] != '0' &&
    (forall i :: s0 <= i < s1 ==> s[i] == '.' || IsHex(s[i])) &&
    AllHex(Strip(s[s0..s1])) && HexValue(Strip(s[s0..s1])) == HexValue(m.whole + m.fraction)
  }

  lemma HexPlaces(s: string, a: nat, b: nat)
    requires a <= b <= |s|
    ensures AllHex(s[a..b]) <==> forall i :: a <= i < b ==> IsHex(s[i])
  {
    if AllHex(s[a..b]) {
      forall i | a <= i < b ensures IsHex(s[i]) {
        assert s[i] == s[a..b][i - a];
      }
    }
  }

  /** Digits from a non-zero one on, no point before them in the text or a point among them. */
  lemma WholeSignificant(s: string, s0: nat, w: nat, s1: nat)
    requires 2 <= s0 < w <= s1 <= |s| && s[s0] != '0' && forall j :: 2 <= j < s0 ==> s[j] == '0'
    requires forall j :: s0 <= j < w ==> IsHex(s[j])
    requires if At(s, w) == '.' then w < s1 && AllHex(s[w + 1..s1]) else s1 == w
    ensures AllHex(s[2..w])
    ensures var f := if At(s, w) == '.' then s[w + 1..s1] else "";
      Significant(s, s0, s1, Mantissa(s[2..w], f, s1)) && HexValue(s[2..w] + f) > 0
  {
    hide HexValue, Strip, IsHex;
    var f := if At(s, w) == '.' then s[w + 1..s1] else "";
    HexPlaces(s, s0, w);
    Splice(s, 2, s0, w);
    assert s[2..w] + f == s[2..s0] + (s[s0..w] + f);
    if At(s, w) == '.' {
      HexPlaces(s, w + 1, s1);
      assert s[s0..s1] == s[s0..w] + ['.'] + f;
      StripPoint(s[s0..w], f);
    } else {
      assert s[s0..w] + f == s[s0..s1];
      StripDigits(s[s0..s1]);
    }
    LeadingZeros(s[2..s0], s[s0..w] + f);
    assert AllHex(s[2..w]);
    LeadingDigit(s[s0..w] + f);
  }

  /** No digit but zeros before the point. */
  lemma FractionSignificant(s: string, w: nat, s0: nat, s1: nat)
    requires 2 <= w < s0 <= s1 <= |s| && forall j :: 2 <= j < w ==> s[j] == '0'
    requires forall j :: w < j < s0 ==> s[j] == '0'
    requires AllHex(s[s0..s1]) && At(s, s0) != '0'
    ensures AllHex(s[2..w]) && AllHex(s[w + 1..s1])
    ensures s0 < s1 ==> Significant(s, s0, s1, Mantissa(s[2..w], s[w + 1..s1], s1))
    ensures HexValue(s[2..w] + s[w + 1..s1]) == 0 <==> s0 == s1
  {
    hide HexValue, Strip;
    var z, f := s[2..w] + s[w + 1..s0], s[s0..s1];
    LeadingZeros(z, f);
    Splice(s, w + 1, s0, s1);
    assert s[2..w] + s[w + 1..s1] == z + f;
    HexPlaces(s, s0, s1);
    StripDigits(f);
    NoHex();
    if s0 < s1 {
      LeadingDigit(f);
    }
  }

  lemma AllZeros(s: string, w: nat)
    requires 2 <= w <= |s| && forall j :: 2 <= j < w ==> s[j] == '0'
    ensures AllHex(s[2..w]) && HexValue(s[2..w] + "") == 0
  {
    assert s[2..w] + "" == s[2..w] + [];
    LeadingZeros(s[2..w], []);
  }

  /** Scans the mantissa: where its significant digits are, what the point is worth, whether it is zero. */
  method ScanMantissa(s: string) returns (havedig: nat, zret: bool, s0: nat, s1: nat, e: int)
    requires |s| >= 2
    ensures var m := ReadMantissa(s);
      s1 == m.end && (havedig == 0 <==> m.whole == "" && m.fraction == "") &&
      (havedig == 0 ==> s0 == 2) &&
      (zret <==> HexValue(m.whole + m.fraction) == 0) &&
      (!zret ==> e == -4 * |m.fraction| && Significant(s, s0, s1, m))
  {
    hide HexValue, Strip, Significant, IsHex, HexEnd;
    PointAndZero();
    s0 := SkipZeros(s, 2);
    havedig := s0 - 2;
    s1 := s0;
    HexEndPast(s, 2, s0);
    zret, e := false, 0;
    if IsHex(At(s, s1)) {
      havedig := havedig + 1;
      s1 := SkipHex(s, s1);
      ghost var w := s1;
      if At(s, s1) == '.' {
        var decpt := s1 + 1;
        s1 := SkipHex(s, decpt);
        e := -((s1 - decpt) * 4);
      }
      WholeSignificant(s, s0, w, s1);
    } else {
      zret := true;
      HexEndIs(s, s0, s0);
      AllZeros(s, s0);
      if At(s, s1) != '.' {
        return;
      }
      s1 := s1 + 1;
      var decpt := s1;
      if !IsHex(At(s, s1)) {
        HexEndIs(s, s1, s1);
        FractionSignificant(s, s1 - 1, s1, s1);
        return;
      }
      s1 := SkipZeros(s, s1);
      HexEndPast(s, decpt, s1);
      zret := !IsHex(At(s, s1));
      havedig := 1;
      s0 := s1;
      s1 := SkipHex(s, s1);
      e := -((s1 - decpt) * 4);
      FractionSignificant(s, decpt - 1, s0, s1);
    }
  }

  lemma NextDigit(s: string, j: nat, k: nat)
    requires j <= k < |s| && AllDigits(s[j..k + 1])
    ensures AllDigits(s[j..k]) && DigitsValue(s[j..k + 1]) == 10 * DigitsValue(s[j..k]) + CharDigit(s[k])
    ensures DigitsValue(s[j..k]) <= DigitsValue(s[j..k + 1])
  {
    assert s[j..k + 1][..k - j] == s[j..k];
    forall i | 0 <= i < k - j ensures IsDigit(s[j..k][i]) {
      assert s[j..k][i] == s[j..k + 1][i];
    }
  }

  /** The digits of the exponent from j on; big once the digits before the last one reach 2^27. */
  method ScanDigits(s: string, j: nat) returns (e1: int, big: bool, k: nat)
    requires j < |s| && IsDigit(s[j])
    ensures j < k <= |s| && k == DecimalEnd(s, j) && AllDigits(s[j..k]) && AllDigits(s[j..k - 1])
    ensures e1 == DigitsValue(s[j..k]) && (big <==> DigitsValue(s[j..k - 1]) >= 0x800_0000)
  {
    hide DigitsValue;
    big := false;
    e1 := CharDigit(s[j]);
    k := j + 1;
    NextDigit(s, j, j);
    assert s[j..j] == [];
    NoDigits();
    while IsDigit(At(s, k))
      invariant j < k <= |s| && AllDigits(s[j..k]) && AllDigits(s[j..k - 1])
      invariant forall i :: j <= i < k ==> IsDigit(s[i])
      invariant e1 == DigitsValue(s[j..k]) >= DigitsValue(s[j..k - 1])
      invariant big <==> DigitsValue(s[j..k - 1]) >= 0x800_0000
      decreases |s| - k
    {
      // the five high bits of a 32-bit e1; after they have once been set e1 no longer matters
      if e1 >= 0x800_0000 {
        big := true;
      }
      NextDigit(s, j, k);
      e1 := 10 * e1 + CharDigit(s[k]);
      k := k + 1;
    }
    DecimalEndIs(s, j, k);
  }

  /** Scans the exponent part at i, if there is one. */
  method ScanExponent(s: string, i: nat) returns (e1: int, big: bool, esign: bool, end: nat)
    requires i <= |s|
    ensures Exponent(e1, big, esign, end) == ReadExponent(s, i)
  {
    hide DigitsValue;
    e1, big, esign, end := 0, false, false, i;
    if At(s, i) == 'p' || At(s, i) == 'P' {
      var j := i + 1;
      if At(s, j) == '-' {
        esign := true;
        j := j + 1;
      } else if At(s, j) == '+' {
        j := j + 1;
      }
      if !IsDigit(At(s, j)) {
        return;
      }
      e1, big, end := ScanDigits(s, j);
      if esign {
        e1 := -e1;
      }
    }
  }
}
