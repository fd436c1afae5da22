/** Whole numbers as decimal text, plain and padded with zeros, and the places of a zero-terminated string. */
module Numerals {
  import opened Words
  import opened Digits

  function Numeral(n: nat): (s: string)
    ensures |s| > 0 && AllDigits(s)
  {
    if n < 10 then [DigitChar(n)] else Numeral(n / 10) + [DigitChar(n % 10)]
  }

  function Zeros(n: nat): (s: string)
    ensures |s| == n && AllDigits(s)
  {
    if n == 0 then "" else "0" + Zeros(n - 1)
  }

  /** What printf writes for %0wd: zeros up to the width, after the sign. */
  function Padded(n: int, width: nat): string
  {
    var s := Numeral(if n < 0 then -n else n);
    var w := if n < 0 && width > 0 then width - 1 else width;
    (if n < 0 then "-" else "") + (if |s| < w then Zeros(w - |s|) + s else s)
  }

  lemma {:induction false} NumeralValue(n: nat)
    ensures DigitsValue(Numeral(n)) == n
  {
    if n < 10 {
      assert [DigitChar(n)][..0] == "";
    } else {
      NumeralValue(n / 10);
      DigitsSnoc(Numeral(n / 10), n % 10);
    }
  }

  lemma {:induction false} ZerosValue(n: nat, s: string)
    requires AllDigits(s)
    ensures AllDigits(Zeros(n) + s) && DigitsValue(Zeros(n) + s) == DigitsValue(s)
    decreases |s|, n
  {
    if |s| > 0 {
      ZerosValue(n, s[..|s| - 1]);
      assert (Zeros(n) + s)[..n + |s| - 1] == Zeros(n) + s[..|s| - 1];
    } else if n > 0 {
      ZerosValue(n - 1, s);
      assert Zeros(n) + s == "0" + (Zeros(n - 1) + s);
      ZeroFirst(Zeros(n - 1) + s);
    }
  }

  lemma {:induction false} ZeroFirst(s: string)
    requires AllDigits(s)
    ensures AllDigits("0" + s) && DigitsValue("0" + s) == DigitsValue(s)
    decreases |s|
  {
    if |s| == 0 {
      assert ("0" + s)[..0] == "" && "0" + s == "0";
    } else {
      ZeroFirst(s[..|s| - 1]);
      assert ("0" + s)[..|s|] == "0" + s[..|s| - 1];
    }
  }

  lemma PaddedValue(n: nat, width: nat)
    ensures var s := Padded(n, width);
      |s| > 0 && AllDigits(s) && DigitsValue(s) == n && |s| >= width
  {
    hide Numeral, DigitsValue, Zeros;
    NumeralValue(n);
    var s := Numeral(n);
    PaddedIs(n, width);
    if |s| < width {
      ZerosValue(width - |s|, s);
    }
  }

  lemma PaddedIs(n: nat, width: nat)
    ensures Padded(n, width) == if |Numeral(n)| < width then Zeros(width - |Numeral(n)|) + Numeral(n) else Numeral(n)
  {
    hide Numeral, Zeros;
    var s := if |Numeral(n)| < width then Zeros(width - |Numeral(n)|) + Numeral(n) else Numeral(n);
    assert "" + s == s;
  }

  /** Never shorter than the width, nor longer when the number and its sign fit. */
  lemma PaddedLength(n: int, width: nat)
    requires width > 1
    ensures |Padded(n, width)| >= width
    ensures -n < Pow(10, width - 1) && n < Pow(10, width) ==> |Padded(n, width)| == width
  {
    hide Numeral, Zeros, Pow;
    if -n < Pow(10, width - 1) && n < Pow(10, width) {
      NumeralLength(if n < 0 then -n else n, if n < 0 then width - 1 else width);
    }
  }

  /** Two digits for what is below a hundred. */
  lemma TwoDigits(n: nat)
    ensures n < 100 <==> |Padded(n, 2)| == 2
  {
    if n >= 100 {
      assert |Numeral(n)| >= 3 by {
        assert Numeral(n) == Numeral(n / 10) + [DigitChar(n % 10)] && n / 10 >= 10;
        assert Numeral(n / 10) == Numeral(n / 100) + [DigitChar(n / 10 % 10)];
      }
    } else if n >= 10 {
      assert |Numeral(n)| == 2;
    } else {
      assert |Numeral(n)| == 1;
    }
  }

  lemma {:induction false} NumeralLength(n: nat, k: nat)
    requires k > 0 && n < Pow(10, k)
    ensures |Numeral(n)| <= k
  {
    if n >= 10 {
      NumeralLength(n / 10, k - 1);
    }
  }

  // ----- places in a zero-terminated string -----

  /** The byte at place i of a zero-terminated string. */
  function At(s: string, i: nat): char
  {
    if i < |s| then s[i] else '\0'
  }

  predicate IsSpace(c: char)
  {
    c == ' ' || c == '\t' || c == '\n' || c == '\r' || c as int == 11 || c as int == 12
  }

  /** The six characters of white space: tabulator to carriage return, and the space. */
  lemma SpacesAre(c: char)
    ensures IsSpace(c) <==> 9 <= c as int <= 13 || c as int == 32
  {
  }

  predicate AllSpaces(t: string)
  {
    forall i :: 0 <= i < |t| ==> IsSpace(t[i])
  }

  predicate IsSign(t: string)
  {
    t == "" || t == "+" || t == "-"
  }

  function DecimalEnd(s: string, i: nat): (r: nat)
    requires i <= |s|
    ensures i <= r <= |s| && !IsDigit(At(s, r))
    ensures forall j :: i <= j < r ==> IsDigit(s[j])
    decreases |s| - i
  {
    if IsDigit(At(s, i)) then DecimalEnd(s, i + 1) else i
  }

  lemma {:induction false} DecimalEndIs(s: string, i: nat, r: nat)
    requires i <= r <= |s| && !IsDigit(At(s, r)) && forall j :: i <= j < r ==> IsDigit(s[j])
    ensures DecimalEnd(s, i) == r
    decreases r - i
  {
    if i < r {
      DecimalEndIs(s, i + 1, r);
    }
  }

  lemma Splice(s: string, a: nat, b: nat, c: nat)
    requires a <= b <= c <= |s|
    ensures s[a..c] == s[a..b] + s[b..c]
  {
  }

  method SkipZeros(s: string, i: nat) returns (r: nat)
    requires i <= |s|
    ensures i <= r <= |s| && At(s, r) != '0' && forall j :: i <= j < r ==> s[j] == '0'
  {
    r := i;
    while At(s, r) == '0'
      invariant i <= r <= |s|
      invariant forall j :: i <= j < r ==> s[j] == '0'
      decreases |s| - r
    {
      r := r + 1;
    }
  }
}
