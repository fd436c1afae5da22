/** Hexadecimal literals in all their spellings, and the digits they are made of. */
module HexSpelling {
  import opened Words
  import opened Digits
  import opened Numerals
  import opened HexText
  import opened DecimalSpelling
  import DecimalMeaning
  import Rounding
  import Gethex

  // ----- the digits -----

  const LOWER := "0123456789abcdef"
  const UPPER := "0123456789ABCDEF"

  /** The digits from 0 to 15 in either case, and no other characters. */
  lemma HexDigitsAre(d: nat)
    requires d < 16
    ensures IsHex(LOWER[d]) && HexDigit(LOWER[d]) == d && IsHex(UPPER[d]) && HexDigit(UPPER[d]) == d
  {
  }

  lemma OnlyHexDigits(c: char)
    ensures IsHex(c) <==> c in LOWER || c in UPPER
  {
    if IsHex(c) {
      var d := HexDigit(c);
      assert c == LOWER[d] || c == UPPER[d];
    }
    assert forall d :: 0 <= d < 16 ==> IsHex(LOWER[d]) && IsHex(UPPER[d]);
  }

  /** n in base 16. */
  function HexNumeral(n: nat, upper: bool): (s: string)
    ensures s != ""
  {
    var c := if upper then UPPER[n % 16] else LOWER[n % 16];
    if n < 16 then [c] else HexNumeral(n / 16, upper) + [c]
  }

  /** A number written in base 16, in either case, is read as the number. */
  lemma {:induction false} HexNumeralValue(n: nat, upper: bool)
    ensures AllHex(HexNumeral(n, upper)) && HexValue(HexNumeral(n, upper)) == n
  {
    HexDigitsAre(n % 16);
    var c := if upper then UPPER[n % 16] else LOWER[n % 16];
    if n < 16 {
      assert [c][..0] == "";
    } else {
      HexNumeralValue(n / 16, upper);
      var t := HexNumeral(n / 16, upper);
      assert (t + [c])[..|t|] == t;
    }
  }

  // ----- literals -----

  /** An exponent part as it is spelled, or none. */
  datatype Binary = NoBinary | Binary(mark: char, sign: string, digits: string) {
    predicate Valid() {
      Binary? ==> (mark == 'p' || mark == 'P') && IsSign(sign) && digits != "" && AllDigits(digits)
    }

    function Spelling(): string {
      match this
      case NoBinary => ""
      case Binary(mark, sign, digits) => [mark] + (sign + digits)
    }

    function Value(): int
      requires Valid()
    {
      match this
      case NoBinary => 0
      case Binary(mark, sign, digits) =>
        var v: int := DigitsValue(digits);
        if sign == "-" then -v else v
    }

    /** The digits before the last one are 2^27 or more. */
    predicate IsBig()
      requires Valid()
    {
      Binary? && DigitsValue(digits[..|digits| - 1]) >= 0x800_0000
    }

    predicate EndsBefore(rest: string) {
      if Binary? then !IsDigit(At(rest, 0)) else !StartsBinary(rest)
    }
  }

  predicate StartsBinary(r: string)
  {
    (At(r, 0) == 'p' || At(r, 0) == 'P') && IsDigit(At(r, if At(r, 1) == '+' || At(r, 1) == '-' then 2 else 1))
  }

  /** Digits, a point and digits, an exponent part. */
  datatype HexSpelled = HexSpelled(whole: string, point: bool, fraction: string, power: Binary) {
    predicate Valid() {
      AllHex(whole) && AllHex(fraction) && (!point ==> fraction == "") && power.Valid()
    }

    function Fraction(): string {
      if point then "." + fraction else ""
    }

    function Mantissa(): string {
      whole + Fraction()
    }

    predicate EndsBefore(rest: string) {
      power.EndsBefore(rest) && (power.NoBinary? ==> !IsHex(At(rest, 0)) && (!point ==> At(rest, 0) != '.'))
    }
  }

  lemma HexRunEnds(s: string, j: nat, d: string, rest: string)
    requires j <= |s| && s[j..] == d + rest && AllHex(d) && !IsHex(At(rest, 0))
    ensures HexEnd(s, j) == j + |d| <= |s| && s[j..j + |d|] == d && s[j + |d|..] == rest
  {
    Behind(s, j, d, rest);
    AtBehind(s, j + |d|, rest, 0);
    hide IsHex, HexEnd;
    forall k | j <= k < j + |d| ensures IsHex(s[k]) {
      assert s[k] == s[j..][k - j] == d[k - j];
    }
    HexEndIs(s, j, j + |d|);
    assert s[j..j + |d|] == s[j..][..|d|] == d;
  }

  lemma MantissaFrom(s: string, w: nat, whole: string, point: bool, fraction: string)
    requires |s| >= 2 && HexEnd(s, 2) == w && s[2..w] == whole && (At(s, w) == '.' <==> point)
    requires point ==>
      w + 1 + |fraction| <= |s| && HexEnd(s, w + 1) == w + 1 + |fraction| && s[w + 1..w + 1 + |fraction|] == fraction
    requires !point ==> fraction == ""
    ensures ReadMantissa(s) == Mantissa(whole, fraction, if point then w + 1 + |fraction| else w)
  {
    hide HexEnd, IsHex;
  }

  lemma BinaryStarts(n: HexSpelled, rest: string)
    requires n.Valid() && n.EndsBefore(rest)
    ensures !IsHex(At(n.power.Spelling() + rest, 0)) && (!n.point ==> At(n.power.Spelling() + rest, 0) != '.')
    ensures n.point ==> n.Fraction() + (n.power.Spelling() + rest) == "." + (n.fraction + (n.power.Spelling() + rest))
    ensures !n.point ==> n.Fraction() + (n.power.Spelling() + rest) == n.power.Spelling() + rest
    ensures !IsHex('.') && At("." + (n.fraction + (n.power.Spelling() + rest)), 0) == '.'
    ensures AllHex(n.whole) && AllHex(n.fraction) && (!n.point ==> n.fraction == "")
  {
  }

  /** The mantissa is read as spelled. */
  lemma MantissaSpelled(s: string, n: HexSpelled, rest: string)
    requires |s| >= 2 && n.Valid() && n.EndsBefore(rest)
    requires s[2..] == n.whole + (n.Fraction() + (n.power.Spelling() + rest))
    ensures ReadMantissa(s) == Mantissa(n.whole, n.fraction, 2 + |n.Mantissa()|)
    ensures 2 + |n.Mantissa()| <= |s| && s[2 + |n.Mantissa()|..] == n.power.Spelling() + rest
  {
    hide *;
    BinaryStarts(n, rest);
    MantissaLength(n);
    var u := n.power.Spelling() + rest;
    var w := 2 + |n.whole|;
    HexRunEnds(s, 2, n.whole, n.Fraction() + u);
    AtBehind(s, w, n.Fraction() + u, 0);
    if n.point {
      BehindDot(s, w, n.fraction + u);
      HexRunEnds(s, w + 1, n.fraction, u);
    }
    MantissaFrom(s, w, n.whole, n.point, n.fraction);
  }

  lemma BehindDot(s: string, w: nat, t: string)
    requires w <= |s| && s[w..] == "." + t
    ensures w + 1 <= |s| && s[w + 1..] == t
  {
    assert s[w..][1..] == s[w + 1..];
  }

  lemma MantissaLength(n: HexSpelled)
    ensures |n.Mantissa()| == |n.whole| + if n.point then 1 + |n.fraction| else 0
  {
  }

  lemma BinaryFrom(s: string, i: nat, sign: string, digits: string, j: nat)
    requires i <= |s| && (At(s, i) == 'p' || At(s, i) == 'P') && IsSign(sign) && j == i + 1 + |sign| <= |s|
    requires (At(s, i + 1) == '-' <==> sign == "-") && (At(s, i + 1) == '+' <==> sign == "+") && IsDigit(At(s, j))
    requires AllDigits(digits) && digits != "" && DecimalEnd(s, j) == j + |digits| && s[j..j + |digits|] == digits
    ensures var q := Binary('p', sign, digits);
      ReadExponent(s, i) == Exponent(q.Value(), q.IsBig(), sign == "-", j + |digits|)
  {
    assert s[j..j + |digits| - 1] == digits[..|digits| - 1];
    hide DecimalEnd, DigitsValue, IsDigit;
  }

  lemma NoBinaryRead(s: string, i: nat, rest: string)
    requires i <= |s| && s[i..] == rest && !StartsBinary(rest)
    ensures var x := ReadExponent(s, i); x.value == 0 && !x.big && x.end == i
  {
    AtBehind(s, i, rest, 0);
    AtBehind(s, i, rest, 1);
    AtBehind(s, i, rest, 2);
    hide DecimalEnd, DigitsValue, IsDigit, At;
  }

  /** The exponent part is read as spelled; a p without digits is none. */
  lemma BinarySpelled(s: string, i: nat, q: Binary, rest: string)
    requires i <= |s| && q.Valid() && s[i..] == q.Spelling() + rest && q.EndsBefore(rest)
    ensures var x := ReadExponent(s, i);
      x.value == q.Value() && x.big == q.IsBig() && x.end == i + |q.Spelling()| &&
      (q.Binary? ==> x.negative == (q.sign == "-"))
  {
    hide *;
    BinaryHas(q, rest);
    match q {
      case NoBinary =>
        NoBinaryRead(s, i, rest);
      case Binary(mark, sign, digits) =>
        PowerPlaces(s, i, mark, sign, digits, rest);
        RunEnds(s, i + 1 + |sign|, digits, rest);
        BinaryFrom(s, i, sign, digits, i + 1 + |sign|);
        SameBinary(q);
    }
  }

  lemma BinaryHas(q: Binary, rest: string)
    requires q.Valid() && q.EndsBefore(rest)
    ensures if q.NoBinary? then
              q.Spelling() + rest == rest && q.Spelling() == "" && q.Value() == 0 && !q.IsBig() && !StartsBinary(rest)
            else q.Spelling() + rest == [q.mark] + ((q.sign + q.digits) + rest) && !IsDigit(At(rest, 0)) &&
                 |q.Spelling()| == 1 + |q.sign| + |q.digits|
    ensures q.Binary? ==> (q.mark == 'p' || q.mark == 'P') && IsSign(q.sign) && q.digits != "" && AllDigits(q.digits)
  {
    hide IsDigit, At, StartsBinary, DigitsValue;
    if q.NoBinary? {
      assert "" + rest == rest;
    }
  }

  lemma SameBinary(q: Binary)
    requires q.Valid() && q.Binary?
    ensures var p := Binary('p', q.sign, q.digits);
      p.Valid() && p.Value() == q.Value() && p.IsBig() == q.IsBig()
  {
    hide DigitsValue;
  }

  lemma PowerStands(n: HexSpelled, rest: string)
    requires n.Valid() && n.EndsBefore(rest)
    ensures AllHex(n.whole) && AllHex(n.fraction) && AllHex(n.whole + n.fraction)
    ensures n.power.Valid() && n.power.EndsBefore(rest)
  {
  }

  /** Every spelling is read as it is meant, and stands for its digits, each one behind the point a sixteenth, times a
      power of two. */
  lemma HexSpelledReads(s: string, n: HexSpelled, rest: string)
    requires |s| >= 2 && n.Valid() && n.EndsBefore(rest)
    requires s[2..] == n.whole + (n.Fraction() + (n.power.Spelling() + rest))
    ensures ReadMantissa(s) == Mantissa(n.whole, n.fraction, 2 + |n.Mantissa()|)
    ensures var x := ReadExponent(s, ReadMantissa(s).end);
      x.value == n.power.Value() && x.big == n.power.IsBig() && x.end == |s| - |rest|
    ensures Gethex.TextReal(s) ==
      Rounding.Multiple(HexValue(n.whole + n.fraction), DecimalMeaning.RPow(2, n.power.Value() - 4 * |n.fraction|))
  {
    hide *;
    PowerStands(n, rest);
    MantissaSpelled(s, n, rest);
    BinarySpelled(s, 2 + |n.Mantissa()|, n.power, rest);
    Gethex.TextIs(s);
  }

  /** A whole number in base 16 behind 0x, in either case, is read as itself. */
  lemma HexNumeralReads(n: nat, upper: bool)
    ensures Gethex.TextReal("0x" + HexNumeral(n, upper)) == n as real
  {
    var t := HexNumeral(n, upper);
    var s := "0x" + t;
    HexNumeralValue(n, upper);
    PlainIs(t);
    HexSpelledReads(s, HexSpelled(t, false, "", NoBinary), "");
    UnitMultiple(n);
  }

  lemma PlainIs(t: string)
    requires AllHex(t)
    ensures var n := HexSpelled(t, false, "", NoBinary);
      n.Valid() && n.EndsBefore("") && ("0x" + t)[2..] == n.whole + (n.Fraction() + (n.power.Spelling() + "")) &&
      t + "" == t && n.power.Value() == 0
  {
  }

  lemma UnitMultiple(n: nat)
    ensures Rounding.Multiple(n, DecimalMeaning.RPow(2, 0)) == n as real
  {
  }

  // ----- every text is spelled so -----

  lemma HexRunOf(s: string, p: nat) returns (d: string)
    requires p <= |s|
    ensures AllHex(d) && p + |d| <= |s| && s[p..] == d + s[p + |d|..] && !IsHex(At(s[p + |d|..], 0))
  {
    var r := HexEnd(s, p);
    d := s[p..r];
    AtBehind(s, r, s[r..], 0);
    hide IsHex, HexEnd;
    assert s[p..] == s[p..r] + s[r..];
  }

  lemma BinaryFound(s: string, i: nat) returns (q: Binary)
    requires i <= |s|
    ensures q.Valid() && i + |q.Spelling()| <= |s|
    ensures s[i..] == q.Spelling() + s[i + |q.Spelling()|..] && q.EndsBefore(s[i + |q.Spelling()|..])
  {
    hide *;
    if StartsBinary(s[i..]) {
      var sign := BinaryMark(s, i);
      var j := i + 1 + |sign|;
      var k := RunPlaces(s, j);
      q := Binary(s[i], sign, s[j..k]);
      PowerJoins(s, i, s[i], sign, j, k);
      BinaryStands(q, s[k..]);
    } else {
      q := NoBinary;
      BinaryStands(q, s[i..]);
      NothingFirst(s[i..]);
    }
  }

  lemma BinaryMark(s: string, i: nat) returns (sign: string)
    requires i <= |s| && StartsBinary(s[i..])
    ensures i + 1 + |sign| <= |s| && (s[i] == 'p' || s[i] == 'P') && IsSign(sign)
    ensures (sign != "" ==> s[i + 1] == sign[0]) && IsDigit(At(s, i + 1 + |sign|))
  {
    AtBehind(s, i, s[i..], 0);
    AtBehind(s, i, s[i..], 1);
    AtBehind(s, i, s[i..], 2);
    sign := if At(s, i + 1) == '-' then "-" else if At(s, i + 1) == '+' then "+" else "";
    hide IsDigit;
  }

  lemma BinaryStands(q: Binary, rest: string)
    requires q.Binary? ==> (q.mark == 'p' || q.mark == 'P') && IsSign(q.sign) && q.digits != "" && AllDigits(q.digits)
    requires if q.Binary? then !IsDigit(At(rest, 0)) else !StartsBinary(rest)
    ensures q.Valid() && q.EndsBefore(rest)
    ensures q.Spelling() == if q.Binary? then [q.mark] + (q.sign + q.digits) else ""
  {
    hide IsDigit, StartsBinary;
  }

  /** Any text is a literal, perhaps without digits, and what follows it. */
  lemma EveryTextIsSpelled(s: string) returns (n: HexSpelled, rest: string)
    requires |s| >= 2
    ensures n.Valid() && n.EndsBefore(rest) && s[2..] == n.whole + (n.Fraction() + (n.power.Spelling() + rest))
  {
    hide *;
    var whole := HexRunOf(s, 2);
    var w := 2 + |whole|;
    var point, fraction, i := At(s, w) == '.', "", w;
    AtBehind(s, w, s[w..], 0);
    if point {
      PointAt(s, w);
      fraction := HexRunOf(s, w + 1);
      i := w + 1 + |fraction|;
      PointFirst(fraction, s[i..]);
    } else {
      NoHexIn();
      NothingFirst(s[i..]);
    }
    var q := BinaryFound(s, i);
    rest := s[i + |q.Spelling()|..];
    n := HexSpelled(whole, point, fraction, q);
    HexStands(n, rest, s[i..]);
  }

  lemma NoHexIn()
    ensures AllHex("")
  {
  }

  lemma HexStands(n: HexSpelled, rest: string, t: string)
    requires AllHex(n.whole) && AllHex(n.fraction) && (!n.point ==> n.fraction == "") && n.power.Valid()
    requires t == n.power.Spelling() + rest && n.power.EndsBefore(rest) && !IsHex(At(t, 0))
    requires (!n.point ==> At(t, 0) != '.')
    ensures n.Valid() && n.EndsBefore(rest) && n.Fraction() == if n.point then "." + n.fraction else ""
  {
    hide AllHex, IsHex, Binary.Valid, Binary.EndsBefore;
    if n.power.NoBinary? {
      NothingFirst(rest);
    }
  }
}
