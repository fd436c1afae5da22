/** g__fmt: the digits of a number laid out in a buffer of limited size. */
module DecimalWriter {
  import opened Words
  import opened Digits
  import opened Numerals
  import opened DecimalText

  /** As many digits spelling the same number are the same digits. */
  lemma {:induction false} DigitsUnique(s: string, t: string)
    requires AllDigits(s) && AllDigits(t) && |s| == |t| && DigitsValue(s) == DigitsValue(t)
    ensures s == t
    decreases |s|
  {
    if |s| > 0 {
      var s', t' := s[..|s| - 1], t[..|t| - 1];
      var d, e := CharDigit(s[|s| - 1]), CharDigit(t[|t| - 1]);
      LastDigit(DigitsValue(s'), DigitsValue(t'), d, e);
      DigitsUnique(s', t');
      assert s == s' + [DigitChar(d)] && t == t' + [DigitChar(e)];
    }
  }

  lemma LastDigit(a: nat, b: nat, d: nat, e: nat)
    requires 10 * a + d == 10 * b + e && d <= 9 && e <= 9
    ensures a == b && d == e
  {
  }

  /** j is the number of digits, two at least, and k = 10^(j-1). */
  ghost predicate Width(n: nat, j: nat, k: nat)
  {
    j >= 2 && k == Pow(10, j - 1) && n < 10 * k && (j == 2 || k <= n)
  }

  lemma PaddedIsThese(n: nat, j: nat, k: nat, w: string)
    requires Width(n, j, k) && AllDigits(w) && |w| == j && DigitsValue(w) == n
    ensures w == Padded(n, 2)
  {
    PaddedLength(n, j, k);
    PaddedValue(n, 2);
    DigitsUnique(w, Padded(n, 2));
  }

  lemma PaddedLength(n: nat, j: nat, k: nat)
    requires Width(n, j, k)
    ensures |Padded(n, 2)| == j
  {
    hide Numeral, Zeros, DigitsValue, Padded;
    PaddedIs(n, 2);
    NumeralLength(n, j);
    NumeralValue(n);
    DigitsBelow(Numeral(n));
    if j > 2 && |Numeral(n)| < j {
      PowMono(10, |Numeral(n)|, j - 1);
    }
  }

  /** m digits are in w; what is left of n is rest, moved up m places. */
  ghost predicate Peeled(n: nat, w: string, m: nat, k: nat, rest: int)
  {
    AllDigits(w) && |w| == m && 0 <= rest < 10 * k && n * Pow(10, m) == DigitsValue(w) * (10 * k) + rest
  }

  lemma PeelOne(n: nat, w: string, m: nat, k: nat, rest: int)
    requires k > 0 && Peeled(n, w, m, k, rest)
    ensures rest >= 0 && 0 <= rest / k <= 9 && rest - (rest / k) * k >= 0
    ensures Peeled(n, w + [DigitChar(rest / k)], m + 1, k, (rest - (rest / k) * k) * 10)
  {
    var i, v := rest / k, DigitsValue(w);
    DigitBelowTen(rest, k);
    DigitsSnoc(w, i);
    hide DigitsValue;
    assert n * Pow(10, m + 1) == (10 * v + i) * (10 * k) + (rest - i * k) * 10 by {
      PeelAlgebra(n, Pow(10, m), v, k, rest, i);
    }
  }

  lemma DigitBelowTen(rest: nat, k: nat)
    requires k > 0 && rest < 10 * k
    ensures rest / k <= 9 && 0 <= rest - (rest / k) * k < k
  {
  }

  lemma PeelAlgebra(n: nat, p: nat, v: nat, k: nat, rest: nat, i: nat)
    requires n * p == v * (10 * k) + rest
    ensures n * (10 * p) == (10 * v + i) * (10 * k) + (rest - i * k) * 10
  {
    assert n * (10 * p) == 10 * (n * p);
  }

  lemma PeeledAll(n: nat, j: nat, k: nat, w: string, rest: nat)
    requires Width(n, j, k) && Peeled(n, w, j, k, rest)
    ensures w == Padded(n, 2)
  {
    hide DigitsValue, Padded;
    assert Pow(10, j) == 10 * k;
    PeeledWhole(n, DigitsValue(w), 10 * k, rest);
    PaddedIsThese(n, j, k, w);
  }

  lemma PeeledWhole(n: nat, v: nat, K: nat, rest: nat)
    requires n * K == v * K + rest && rest < K
    ensures n == v
  {
    if n > v {
      MulMono(K, v + 1, n);
      Distribute(K, v, 1);
    } else if n < v {
      MulMono(K, n + 1, v);
      Distribute(K, n, 1);
    }
  }

  lemma MoreDigits(n: nat, j: nat, k: nat)
    requires j >= 2 && k == Pow(10, j - 1) && (j == 2 || k <= n) && 10 * k <= n
    ensures 10 * k == Pow(10, j) && 10 * k > k
  {
  }

  /** Writes c at place p. */
  method Put(b: array<char>, p: nat, c: char) returns (p': nat)
    requires p < b.Length
    modifies b
    ensures p' == p + 1 && b[..p'] == old(b[..p]) + [c]
    ensures forall i :: p' <= i < b.Length ==> b[i] == old(b[i])
  {
    b[p] := c;
    p' := p + 1;
  }

  /** The number of digits to write, and the weight of the first. */
  method CountDigits(decpt: nat) returns (j: nat, k: nat)
    ensures Width(decpt, j, k) && k > 0 && j > 0
  {
    j, k := 2, 10;
    while 10 * k <= decpt
      invariant j >= 2 && k == Pow(10, j - 1) > 0 && (j == 2 || k <= decpt)
      decreases decpt - k
    {
      MoreDigits(decpt, j, k);
      j, k := j + 1, 10 * k;
    }
  }

  /** Writes the digits of an exponent, two at least, from place p on; be is the place of the last byte. */
  method WriteExponent(b: array<char>, p0: nat, be: nat, decpt: nat) returns (ok: bool, p: nat)
    requires p0 <= be < b.Length
    modifies b
    ensures ok <==> p0 + |Padded(decpt, 2)| <= be
    ensures ok ==> p == p0 + |Padded(decpt, 2)| && b[..p] == old(b[..p0]) + Padded(decpt, 2)
    ensures forall i :: be + 1 <= i < b.Length ==> b[i] == old(b[i])
  {
    hide Pow, Padded, Peeled, Width;
    var j, k := CountDigits(decpt);
    PaddedLength(decpt, j, k);
    ghost var n, w := j, "";
    var rest: int := decpt;
    p := p0;
    PeelNone(decpt, j, k);
    while true
      invariant 0 < j <= n && p == p0 + (n - j) && p <= b.Length
      invariant Peeled(decpt, w, n - j, k, rest)
      invariant b[..p] == old(b[..p0]) + w
      invariant forall i :: be + 1 <= i < b.Length ==> b[i] == old(b[i])
      decreases j
    {
      PeelOne(decpt, w, n - j, k, rest);
      var i := rest / k;
      if p >= be {
        return false, p;
      }
      p := Put(b, p, DigitChar(i));
      w := w + [DigitChar(i)];
      j := j - 1;
      if j <= 0 {
        break;
      }
      rest := rest - i * k;
      rest := rest * 10;
    }
    PeeledAll(decpt, n, k, w, (rest - (rest / k) * k) * 10);
    ok := true;
  }

  lemma PeelNone(n: nat, j: nat, k: nat)
    requires Width(n, j, k)
    ensures Peeled(n, "", 0, k, n)
  {
  }

  /** Copies the digits from a place on, with the zero byte behind them. */
  method CopyDigits(b: array<char>, p0: nat, s: array<char>, from: nat, nd: nat) returns (p: nat)
    requires b != s && from <= nd < s.Length && s[nd] == '\0' && '\0' !in s[from..nd]
    requires p0 + (nd - from) < b.Length
    modifies b
    ensures p == p0 + (nd - from) && b[..p] == old(b[..p0]) + s[from..nd] && b[p] == '\0'
    ensures forall i :: p + 1 <= i < b.Length ==> b[i] == old(b[i])
  {
    p := p0;
    var j := from;
    while true
      invariant from <= j <= nd && p == p0 + (j - from)
      invariant b[..p] == old(b[..p0]) + s[from..j]
      invariant forall i :: p <= i < b.Length ==> b[i] == old(b[i])
      decreases nd - j
    {
      b[p] := s[j];
      if b[p] == '\0' {
        break;
      }
      assert j < nd && s[from..j + 1] == s[from..j] + [s[j]];
      p, j := p + 1, j + 1;
    }
  }

  /** One zero after another. */
  lemma ZerosJoin(z: string, n: nat)
    ensures n > 0 ==> z + Zeros(n) == (z + ['0']) + Zeros(n - 1)
    ensures n == 0 ==> z + Zeros(n) == z
    ensures "" + Zeros(n) == Zeros(n)
  {
  }

  lemma AppendTo(s: string, z: string, c: char)
    ensures (s + z) + [c] == s + (z + [c])
  {
  }

  /** Writes zeros. */
  method PutZeros(b: array<char>, p0: nat, n: nat) returns (p: nat)
    requires p0 + n <= b.Length
    modifies b
    ensures p == p0 + n && b[..p] == old(b[..p0]) + Zeros(n)
    ensures forall i :: p <= i < b.Length ==> b[i] == old(b[i])
  {
    hide *;
    p := p0;
    var left := n;
    ghost var s, z := b[..p0], "";
    ZerosJoin(z, left);
    while left > 0
      invariant p == p0 + (n - left) && 0 <= left && z + Zeros(left) == Zeros(n)
      invariant b[..p] == s + z
      invariant forall i :: p <= i < b.Length ==> b[i] == old(b[i])
    {
      ZerosJoin(z, left);
      p := Put(b, p, '0');
      AppendTo(s, z, '0');
      z := z + ['0'];
      left := left - 1;
    }
    ZerosJoin(z, 0);
  }

  /** The layout with an exponent. */
  method PutExponential(b: array<char>, p0: nat, be: nat, s: array<char>, nd: nat, decpt: int)
    returns (ok: bool, p: nat)
    requires b != s && 0 < nd < s.Length && s[nd] == '\0' && AllDigits(s[..nd])
    requires p0 + nd + 4 <= be < b.Length && !IsPlain(nd, decpt)
    modifies b
    ensures ok <==> p0 + |Text(s[..nd], decpt, false)| <= be
    ensures ok ==> p == p0 + |Text(s[..nd], decpt, false)| && b[..p] == old(b[..p0]) + Text(s[..nd], decpt, false)
    ensures ok ==> b[p] == '\0'
    ensures forall i :: be + 1 <= i < b.Length ==> b[i] == old(b[i])
  {
    hide *;
    ghost var d, b0 := s[..nd], b[..p0];
    ghost var t;
    p, t := PutMantissa(b, p0, s, nd);
    p := Put(b, p, 'e');
    ghost var sign := "e";
    var x := decpt - 1;
    if x < 0 {
      p := Put(b, p, '-');
      sign := "e-";
      x := -x;
    } else {
      p := Put(b, p, '+');
      sign := "e+";
    }
    assert b[..p] == b0 + (t + sign);
    ExponentialIs(d, decpt, t, sign, Padded(x, 2));
    ok, p := WriteExponent(b, p, be, x);
    if ok {
      assert b[..p] == b0 + (t + sign + Padded(x, 2));
      b[p] := '\0';
    }
  }

  /** Writes the first digit and, behind a point, the others. */
  method PutMantissa(b: array<char>, p0: nat, s: array<char>, nd: nat) returns (p: nat, ghost t: string)
    requires b != s && 0 < nd < s.Length && s[nd] == '\0' && AllDigits(s[..nd])
    requires p0 + nd + 2 <= b.Length
    modifies b
    ensures t == s[..nd][..1] + (if nd > 1 then "." + s[..nd][1..] else "")
    ensures p == p0 + |t| <= p0 + nd + 1 && b[..p] == old(b[..p0]) + t
    ensures forall i :: p0 + nd + 2 <= i < b.Length ==> b[i] == old(b[i])
  {
    ghost var d := s[..nd];
    NoZeroByte(d);
    assert nd > 1 ==> d[1] == s[1] && d[1..] == s[1..nd];
    hide *;
    p := Put(b, p0, s[0]);
    t := d[..1];
    if s[1] != '\0' {
      p := Put(b, p, '.');
      p := CopyDigits(b, p, s, 1, nd);
      t := t + ("." + d[1..]);
    }
  }

  lemma NoZeroByte(d: string)
    requires AllDigits(d)
    ensures '\0' !in d && (forall i :: 0 <= i <= |d| ==> '\0' !in d[i..]) && forall i :: 0 <= i < |d| ==> d[i] != '\0'
  {
  }

  lemma ExponentialIs(d: string, decpt: int, t: string, sign: string, e: string)
    requires |d| > 0 && !IsPlain(|d|, decpt)
    requires t == d[..1] + (if |d| > 1 then "." + d[1..] else "")
    requires sign == (if decpt - 1 < 0 then "e-" else "e+")
    requires e == Padded(if decpt - 1 < 0 then -(decpt - 1) else decpt - 1, 2)
    ensures Text(d, decpt, false) == t + sign + e
  {
    hide Padded;
    assert PowerText(decpt - 1) == sign + e;
  }

  /** The layout of a number below one: a point, zeros, the digits. */
  method PutSmall(b: array<char>, p0: nat, be: nat, s: array<char>, nd: nat, decpt: int) returns (ok: bool, p: nat)
    requires b != s && 0 < nd < s.Length && s[nd] == '\0' && AllDigits(s[..nd])
    requires p0 < be < b.Length && decpt <= 0 && IsPlain(nd, decpt)
    modifies b
    ensures ok <==> p0 + |Text(s[..nd], decpt, false)| <= be
    ensures ok ==> p == p0 + |Text(s[..nd], decpt, false)| && b[..p] == old(b[..p0]) + Text(s[..nd], decpt, false)
    ensures ok ==> b[p] == '\0'
    ensures forall i :: be + 1 <= i < b.Length ==> b[i] == old(b[i])
  {
    ghost var d, b0 := s[..nd], b[..p0];
    NoZeroByte(d);
    assert d[0..] == s[0..nd];
    assert Text(d, decpt, false) == "." + Zeros(-decpt) + d;
    hide *;
    p := Put(b, p0, '.');
    if be < p - decpt + nd {
      return false, p;
    }
    p := PutZeros(b, p, -decpt);
    assert b[..p] == b0 + ("." + Zeros(-decpt));
    p := CopyDigits(b, p, s, 0, nd);
    assert b[..p] == b0 + ("." + Zeros(-decpt) + d);
    ok := true;
  }

  /** What the copying loop has written after i digits: the point goes in when more digits follow it. */
  function Pointed(d: string, decpt: int, i: nat): string
    requires i <= |d|
  {
    if 0 < decpt <= i && decpt < |d| then d[..decpt] + ("." + d[decpt..i]) else d[..i]
  }

  lemma PointedStep(d: string, decpt: int, i: nat)
    requires i < |d|
    ensures Pointed(d, decpt, i + 1) ==
      Pointed(d, decpt, i) + (if decpt == i + 1 && i + 1 < |d| then [d[i], '.'] else [d[i]])
  {
    assert d[..i + 1] == d[..i] + [d[i]];
    if 0 < decpt <= i {
      assert d[decpt..i + 1] == d[decpt..i] + [d[i]];
    }
  }

  /** The digits, with the point among them if it falls there. */
  method PutPointed(b: array<char>, p0: nat, s: array<char>, nd: nat, decpt: int) returns (p: nat, left: int)
    requires b != s && 0 < nd < s.Length && s[nd] == '\0' && AllDigits(s[..nd])
    requires p0 + nd + 2 <= b.Length && decpt > 0
    modifies b
    ensures left == decpt - nd && p == p0 + |Pointed(s[..nd], decpt, nd)| <= p0 + nd + 1
    ensures b[..p] == old(b[..p0]) + Pointed(s[..nd], decpt, nd)
    ensures forall i :: p0 + nd + 2 <= i < b.Length ==> b[i] == old(b[i])
  {
    ghost var d, b0 := s[..nd], b[..p0];
    NoZeroByte(d);
    hide AllDigits;
    p, left := p0, decpt;
    var j := 0;
    while true
      invariant 0 <= j <= nd && left == decpt - j
      invariant p == p0 + |Pointed(d, decpt, j)| <= p0 + j + 1
      invariant b[..p] == b0 + Pointed(d, decpt, j)
      invariant forall i :: p0 + nd + 2 <= i < b.Length ==> b[i] == old(b[i])
      decreases nd - j
    {
      b[p] := s[j];
      if b[p] == '\0' {
        break;
      }
      assert j < nd && s[j] == d[j];
      PointedStep(d, decpt, j);
      hide Pointed;
      p, j := p + 1, j + 1;
      assert b[..p] == b0 + (Pointed(d, decpt, j - 1) + [d[j - 1]]);
      left := left - 1;
      if left == 0 && s[j] != '\0' {
        assert j < nd;
        p := Put(b, p, '.');
        assert b[..p] == b0 + (Pointed(d, decpt, j - 1) + [d[j - 1], '.']);
      } else {
        assert left == 0 ==> j == nd;
      }
    }
  }

  lemma WholeIs(d: string, decpt: int)
    requires |d| > 0 && decpt > 0 && IsPlain(|d|, decpt)
    ensures decpt > |d| ==> Text(d, decpt, false) == Pointed(d, decpt, |d|) + Zeros(decpt - |d|)
    ensures decpt <= |d| ==> Text(d, decpt, false) == Pointed(d, decpt, |d|)
  {
    assert d + Zeros(0) == d;
    hide Zeros;
    assert decpt <= |d| ==> d[decpt..|d|] == d[decpt..];
  }

  /** The layout with the point among or behind the digits. */
  method PutWhole(b: array<char>, p0: nat, be: nat, s: array<char>, nd: nat, decpt: int) returns (ok: bool, p: nat)
    requires b != s && 0 < nd < s.Length && s[nd] == '\0' && AllDigits(s[..nd])
    requires p0 + nd + 1 <= be < b.Length && decpt > 0 && IsPlain(nd, decpt)
    modifies b
    ensures ok <==> p0 + |Text(s[..nd], decpt, false)| <= be
    ensures ok ==> p == p0 + |Text(s[..nd], decpt, false)| && b[..p] == old(b[..p0]) + Text(s[..nd], decpt, false)
    ensures ok ==> b[p] == '\0'
    ensures forall i :: be + 1 <= i < b.Length ==> b[i] == old(b[i])
  {
    ghost var d, b0 := s[..nd], b[..p0];
    WholeIs(d, decpt);
    hide *;
    var left;
    p, left := PutPointed(b, p0, s, nd, decpt);
    ghost var t := Pointed(d, decpt, nd);
    assert b[..p] == b0 + t;
    if p + left > be {
      return false, p;
    }
    if left > 0 {
      p := PutZeros(b, p, left);
      assert b[..p] == b0 + (t + Zeros(left));
    }
    b[p] := '\0';
    ok := true;
  }

  /** Writes the sign and the digits s of a number with its point after decpt of them, and a zero byte, into the
      first blen places of b. The end of the text is returned, or -1 when the buffer is too small. */
  method FormatDecimal(b: array<char>, s: array<char>, nd: nat, decpt: int, sign: bool, blen: nat) returns (end: int)
    requires b != s && 0 < nd < s.Length && s[nd] == '\0' && AllDigits(s[..nd]) && blen <= b.Length
    modifies b
    ensures var t := Text(s[..nd], decpt, sign);
      if nd + 6 <= blen && |t| < blen then end == |t| && b[..end] == t && b[end] == '\0' else end == -1
    ensures forall i :: blen <= i < b.Length ==> b[i] == old(b[i])
  {
    if blen < nd + 6 {
      return -1;
    }
    ghost var d := s[..nd];
    NoSign(d, decpt);
    hide Text, AllDigits;
    var be := blen - 1;
    var p, ok := 0, false;
    if sign {
      p := Put(b, p, '-');
    }
    assert b[..p] == if sign then "-" else "";
    if decpt <= -4 || decpt > nd + 5 {
      ok, p := PutExponential(b, p, be, s, nd, decpt);
    } else if decpt <= 0 {
      ok, p := PutSmall(b, p, be, s, nd, decpt);
    } else {
      ok, p := PutWhole(b, p, be, s, nd, decpt);
    }
    end := if ok then p else -1;
  }
}
