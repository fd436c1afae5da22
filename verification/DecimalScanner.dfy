/** The decimal scanner of strtodg, and the integer that s2b builds from the digits it found. */
module DecimalScanner {
  import opened Words
  import opened Digits
  import opened Numerals
  import opened Bigints
  import opened DecimalText

  /** The largest exponent the scanner keeps. */
  const LARGEST_EXPONENT := 19999

  function Clamp(x: int): int
  {
    if x > LARGEST_EXPONENT then LARGEST_EXPONENT else if x < -LARGEST_EXPONENT then -LARGEST_EXPONENT else x
  }

  /** The number that the first nine digits spell. */
  function Nine(d: string): nat
    requires AllDigits(d)
  {
    DigitsValue(if |d| <= 9 then d else d[..9])
  }

  lemma NineSnoc(d: string, c: char)
    requires AllDigits(d) && IsDigit(c)
    ensures AllDigits(d + [c]) && Nine(d + [c]) == if |d| < 9 then 10 * Nine(d) + CharDigit(c) else Nine(d)
  {
    assert |d| >= 9 ==> (d + [c])[..9] == d[..9];
    assert |d| == 9 ==> d[..9] == d;
    DigitsSnoc(d, CharDigit(c));
  }

  /** nd digits from s0 on, with the point behind the first nd0 of them left out. */
  function Run(s: string, s0: nat, nd0: nat, nd: nat): (d: string)
    requires nd0 <= nd && s0 + nd + (if nd0 < nd then 1 else 0) <= |s|
    ensures |d| == nd
  {
    s[s0..s0 + nd0] + (if nd0 < nd then s[s0 + nd0 + 1..s0 + nd + 1] else "")
  }

  lemma ZerosAre(z: string)
    requires forall i :: 0 <= i < |z| ==> z[i] == '0'
    ensures z == Zeros(|z|)
  {
    if z != "" {
      ZerosAre(z[1..]);
    }
  }

  lemma LeadingZeros(z: string, d: string)
    requires (forall i :: 0 <= i < |z| ==> z[i] == '0') && AllDigits(d)
    ensures AllDigits(z + d) && DigitsValue(z + d) == DigitsValue(d)
  {
    ZerosAre(z);
    ZerosValue(|z|, d);
  }

  lemma TrailingZeros(d: string, n: nat)
    requires n <= |d| && AllDigits(d) && forall i :: n <= i < |d| ==> d[i] == '0'
    ensures DigitsValue(d) == DigitsValue(d[..n]) * Pow(10, |d| - n)
  {
    hide DigitsValue, Pow;
    ZerosAre(d[n..]);
    ZerosBehind(d[..n], |d| - n);
    assert d == d[..n] + d[n..];
  }

  lemma LeadingDigitBound(d: string)
    requires |d| > 0 && AllDigits(d) && d[0] != '0'
    ensures DigitsValue(d) >= Pow(10, |d| - 1) > 0
    decreases |d|
  {
    if |d| > 1 {
      LeadingDigitBound(d[..|d| - 1]);
    }
  }

  /** Moves over the digits before the point; y collects the first nine. */
  method ScanWhole(s: string, p: nat) returns (q: nat, y: nat)
    requires p <= |s|
    ensures q == DecimalEnd(s, p) && AllDigits(s[p..q]) && y == Nine(s[p..q])
  {
    hide Nine;
    q, y := p, 0;
    assert s[p..p] == "";
    NineNone();
    while IsDigit(At(s, q))
      invariant p <= q <= |s| && AllDigits(s[p..q]) && y == Nine(s[p..q])
      invariant forall i :: p <= i < q ==> IsDigit(s[i])
      decreases |s| - q
    {
      NineSnoc(s[p..q], s[q]);
      assert s[p..q + 1] == s[p..q] + [s[q]];
      if q - p < 9 {
        y := 10 * y + CharDigit(s[q]);
      }
      q := q + 1;
    }
    DecimalEndIs(s, p, q);
  }

  lemma NineNone()
    ensures Nine("") == 0
  {
  }

  /** Digits t of which nd are taken and nz zeros wait behind them. */
  ghost predicate Taken(t: string, nd: nat, nz: nat, y: nat)
  {
    nd + nz == |t| && AllDigits(t) && (forall i :: nd <= i < |t| ==> t[i] == '0') && y == Nine(t[..nd])
  }

  lemma TakeZero(t: string, nd: nat, nz: nat, y: nat)
    requires nz > 0 && Taken(t, nd, nz, y)
    ensures Taken(t, nd + 1, nz - 1, if nd < 9 then 10 * y else y)
  {
    NineSnoc(t[..nd], '0');
    assert t[..nd + 1] == t[..nd] + ['0'];
  }

  lemma ZeroWaits(t: string, nd: nat, nz: nat, y: nat)
    requires Taken(t, nd, nz, y)
    ensures Taken(t + ['0'], nd, nz + 1, y)
  {
    assert (t + ['0'])[..nd] == t[..nd];
  }

  lemma TakeDigit(t: string, nd: nat, y: nat, c: char)
    requires Taken(t, nd, 0, y) && IsDigit(c)
    ensures Taken(t + [c], nd + 1, 0, if nd < 9 then 10 * y + CharDigit(c) else y)
  {
    assert t[..nd] == t && (t + [c])[..nd + 1] == t + [c];
    NineSnoc(t, c);
  }

  /** The digits behind the point from i0 on, after the digits t0. Zeros count only once another digit follows. */
  method ScanFraction(s: string, i0: nat, ghost t0: string, nd0: nat, nf0: nat, y0: nat)
    returns (i: nat, nd: nat, nf: nat, nz: nat, y: nat)
    requires i0 <= |s| && Taken(t0, nd0, 0, y0)
    ensures i == DecimalEnd(s, i0) && Taken(t0 + s[i0..i], nd, nz, y)
    ensures nd0 <= nd && nz <= i - i0 && nf == nf0 + (i - i0) - nz
    ensures i > i0 && s[i0] != '0' ==> nd > nd0
  {
    hide Taken;
    i, nd, nf, nz, y := i0, nd0, nf0, 0, y0;
    assert t0 + s[i0..i] == t0;
    while IsDigit(At(s, i))
      invariant i0 <= i <= |s| && Taken(t0 + s[i0..i], nd, nz, y)
      invariant nd0 <= nd && nz <= i - i0 && nf == nf0 + (i - i0) - nz
      invariant i > i0 && s[i0] != '0' ==> nd > nd0
      invariant forall j :: i0 <= j < i ==> IsDigit(s[j])
      decreases |s| - i
    {
      ghost var t := t0 + s[i0..i];
      assert t0 + s[i0..i + 1] == t + [s[i]];
      if s[i] == '0' {
        ZeroWaits(t, nd, nz, y);
        nz := nz + 1;
      } else {
        nf := nf + (nz + 1);
        while nz > 0
          invariant Taken(t, nd, nz, y) && nd0 <= nd
        {
          TakeZero(t, nd, nz, y);
          if nd < 9 {
            y := y * 10;
          }
          nd, nz := nd + 1, nz - 1;
        }
        TakeDigit(t, nd, y, s[i]);
        if nd < 9 {
          y := 10 * y + CharDigit(s[i]);
        }
        nd := nd + 1;
      }
      i := i + 1;
    }
    DecimalEndIs(s, i0, i);
  }

  lemma BigAfterEight(d: string)
    requires AllDigits(d) && |d| > 8 && d[0] != '0'
    ensures DigitsValue(d) > LARGEST_EXPONENT
  {
    hide DigitsValue;
    LeadingDigitBound(d);
    PowMono(10, 8, |d| - 1);
    assert Pow(10, 8) > LARGEST_EXPONENT;
  }

  lemma NextOne(s: string, j: nat, k: nat)
    requires j <= k < |s| && AllDigits(s[j..k]) && IsDigit(s[k])
    ensures AllDigits(s[j..k + 1]) && DigitsValue(s[j..k + 1]) == 10 * DigitsValue(s[j..k]) + CharDigit(s[k])
  {
    assert s[j..k + 1] == s[j..k] + [s[k]];
    DigitsSnoc(s[j..k], CharDigit(s[k]));
  }

  /** The digits of an exponent from j on; what is too large becomes the largest. */
  method ScanPowerDigits(s: string, j: nat) returns (e: nat, k: nat)
    requires j <= |s| && IsDigit(At(s, j))
    ensures k == DecimalEnd(s, j) && AllDigits(s[j..k]) && e == Clamp(DigitsValue(s[j..k]))
  {
    hide DigitsValue;
    k := SkipZeros(s, j);
    LeadingZeros(s[j..k], "");
    NoDigits();
    assert s[j..k] + "" == s[j..k];
    if !IsDigit(At(s, k)) {
      DecimalEndIs(s, j, k);
      return 0, k;
    }
    ghost var z := s[j..k];
    var s1 := k;
    var L := CharDigit(s[k]);
    assert s[s1..s1] == "";
    NextOne(s, s1, s1);
    k := k + 1;
    while IsDigit(At(s, k))
      invariant s1 < k <= |s| && AllDigits(s[s1..k]) && L == DigitsValue(s[s1..k])
      invariant forall i :: j <= i < k ==> IsDigit(s[i])
      decreases |s| - k
    {
      NextOne(s, s1, k);
      L := 10 * L + CharDigit(s[k]);
      k := k + 1;
    }
    DecimalEndIs(s, j, k);
    assert s[j..k] == z + s[s1..k];
    LeadingZeros(z, s[s1..k]);
    if k - s1 > 8 {
      BigAfterEight(s[s1..k]);
    }
    // more than eight digits overflow a 32-bit L, which is then not looked at
    e := if k - s1 > 8 || L > LARGEST_EXPONENT then LARGEST_EXPONENT else L;
  }

  /** The exponent part at i, if there is one. */
  method ScanPower(s: string, i: nat) returns (e: int, end: nat)
    requires i <= |s|
    ensures var x := ReadPower(s, i);
      e == Clamp(x.0) && end == x.1
  {
    hide DigitsValue;
    e, end := 0, i;
    if At(s, i) == 'e' || At(s, i) == 'E' {
      var j, esign := i + 1, false;
      if At(s, j) == '-' {
        esign := true;
        j := j + 1;
      } else if At(s, j) == '+' {
        j := j + 1;
      }
      if IsDigit(At(s, j)) {
        e, end := ScanPowerDigits(s, j);
        if esign {
          e := -e;
        }
      }
    }
  }

  /** The nd digits from s0 on stand for the number that the digits all spell, with f of them behind the point,
      once it is divided by 10^nf. */
  ghost predicate Holds(s: string, s0: nat, nd0: nat, nd: nat, y: nat, all: string, f: nat, nf: int)
  {
    nd0 <= nd && s0 + nd + (if nd0 < nd then 1 else 0) <= |s| && 0 <= nf <= f && AllDigits(all) &&
    var run := Run(s, s0, nd0, nd);
    nd > 0 && AllDigits(run) && run[0] != '0' && y == Nine(run) &&
    DigitsValue(all) == DigitsValue(run) * Pow(10, f - nf)
  }

  lemma HoldsTaken(s: string, s0: nat, nd0: nat, nd: nat, y: nat, z: string, t: string, nz: nat, f: nat, nf: nat)
    requires Taken(t, nd, nz, y) && (forall i :: 0 <= i < |z| ==> z[i] == '0') && nz <= f && nf == f - nz
    requires nd > 0 && t[0] != '0'
    requires nd0 <= nd && s0 + nd + (if nd0 < nd then 1 else 0) <= |s| && Run(s, s0, nd0, nd) == t[..nd]
    ensures Holds(s, s0, nd0, nd, y, z + t, f, nf)
  {
    hide DigitsValue, Nine, Pow;
    LeadingZeros(z, t);
    TrailingZeros(t, nd);
  }

  lemma NothingTaken(z: string, t: string, nz: nat, y: nat)
    requires Taken(t, 0, nz, y) && forall i :: 0 <= i < |z| ==> z[i] == '0'
    ensures AllDigits(z + t) && DigitsValue(z + t) == 0
  {
    LeadingZeros(z, t);
    TrailingZeros(t, 0);
    NoDigits();
    assert t[..0] == "";
  }

  /** The size of a block with a word for every nine digits. */
  method RoomForDigits(nd: nat) returns (k: nat)
    ensures (nd + 8) / 9 <= Pow(2, k)
  {
    var x, y := (nd + 8) / 9, 1;
    k := 0;
    while x > y
      invariant y == Pow(2, k)
      decreases x - y
    {
      RoomDoubles(k);
      y, k := 2 * y, k + 1;
    }
  }

  /** Multiplies in the digits i..n of d, which stand at p. */
  method TakeIn(b0: Bigint, s: string, p: nat, i0: nat, n: nat, ghost d: string) returns (b: Bigint)
    requires i0 <= n <= |d| && AllDigits(d) && p + (n - i0) <= |s| && s[p..p + (n - i0)] == d[i0..n]
    requires b0.Ok() && b0.wds > 0 && b0.Value() == DigitsValue(d[..i0])
    modifies b0, b0.x
    ensures b == b0 || (fresh(b) && fresh(b.x))
    ensures b.Ok() && b.wds > 0 && b.Value() == DigitsValue(d[..n])
  {
    hide DigitsValue, Words.Value, Pow;
    b := b0;
    for i := i0 to n
      invariant b == b0 || (fresh(b) && fresh(b.x))
      invariant b.Ok() && b.wds > 0 && b.Value() == DigitsValue(d[..i])
    {
      ghost var j := i - i0;
      assert s[p + j] == s[p..p + (n - i0)][j] == d[i0..n][j] == d[i];
      OneMore(d, i, s[p + j]);
      b := MultAdd(b, 10, CharDigit(s[p + (i - i0)]));
    }
  }

  /** The integer that the run of digits spells; the number y9 that its first nine spell is known. */
  method S2b(s: string, s0: nat, nd0: nat, nd: nat, y9: nat) returns (b: Bigint)
    requires 0 < nd0 <= nd && s0 + nd + (if nd0 < nd then 1 else 0) <= |s|
    requires AllDigits(Run(s, s0, nd0, nd)) && y9 == Nine(Run(s, s0, nd0, nd))
    ensures fresh(b) && fresh(b.x) && b.Ok() && b.Value() == DigitsValue(Run(s, s0, nd0, nd))
  {
    ghost var d := Run(s, s0, nd0, nd);
    RunPlaces(s, s0, nd0, nd);
    assert d[..nd] == d;
    hide *;
    b := FirstNine(nd, y9, d);
    if nd > 9 {
      b := TakeRest(b, s, s0, nd0, nd, d);
    }
  }

  /** The digits after the ninth: those before the point and those behind it. */
  method TakeRest(b0: Bigint, s: string, s0: nat, nd0: nat, nd: nat, ghost d: string) returns (b: Bigint)
    requires 0 < nd0 <= nd && 9 < nd == |d| && s0 + nd + (if nd0 < nd then 1 else 0) <= |s|
    requires AllDigits(d) && d == Run(s, s0, nd0, nd)
    requires b0.Ok() && b0.wds > 0 && b0.Value() == DigitsValue(d[..9])
    modifies b0, b0.x
    ensures b == b0 || (fresh(b) && fresh(b.x))
    ensures b.Ok() && b.Value() == DigitsValue(d[..nd])
  {
    RunPlaces(s, s0, nd0, nd);
    hide *;
    var i := 9;
    b := b0;
    if 9 < nd0 {
      b := TakeIn(b, s, s0 + 9, 9, nd0, d);
      i := nd0;
    }
    if i < nd {
      // past the point
      b := TakeIn(b, s, s0 + i + 1, i, nd, d);
    }
  }

  /** A number of one word, in a block with a word for every nine of its nd digits. */
  method FirstNine(nd: nat, y9: nat, ghost d: string) returns (b: Bigint)
    requires AllDigits(d) && y9 == Nine(d)
    ensures fresh(b) && fresh(b.x) && b.Ok() && b.wds == 1 && b.Value() == y9
  {
    hide Nine, Words.Value, Pow;
    var k := RoomForDigits(nd);
    b := new Bigint.Balloc(k);
    NineFits(d);
    b.x[0], b.wds := y9, 1;
    ValueOne(b.x[..1]);
  }

  lemma RunPlaces(s: string, s0: nat, nd0: nat, nd: nat)
    requires nd0 <= nd && s0 + nd + (if nd0 < nd then 1 else 0) <= |s| && AllDigits(Run(s, s0, nd0, nd))
    ensures var d := Run(s, s0, nd0, nd);
      (9 < nd0 ==> s[s0 + 9..s0 + nd0] == d[9..nd0]) &&
      (nd0 < nd ==> s[s0 + nd0 + 1..s0 + nd + 1] == d[nd0..nd]) &&
      (nd0 <= 9 < nd ==> s[s0 + 10..s0 + nd + 1] == d[9..nd]) &&
      Nine(d) == DigitsValue(if nd <= 9 then d else d[..9])
  {
  }

  lemma NineFits(d: string)
    requires AllDigits(d)
    ensures Nine(d) < 1_000_000_000
  {
    hide DigitsValue;
    DigitsBelow(if |d| <= 9 then d else d[..9]);
    PowMono(10, if |d| <= 9 then |d| else 9, 9);
    assert Pow(10, 9) == 1_000_000_000;
  }

  lemma OneMore(d: string, i: nat, c: char)
    requires AllDigits(d) && i < |d| && d[i] == c
    ensures IsDigit(c) && DigitsValue(d[..i + 1]) == 10 * DigitsValue(d[..i]) + CharDigit(c)
  {
    assert d[..i + 1] == d[..i] + [c];
    DigitsSnoc(d[..i], CharDigit(c));
  }

  /** The digits behind the point at w, if there is one. */
  function FractionAt(s: string, w: nat): (d: string)
    requires w <= |s|
    ensures AllDigits(d)
  {
    if At(s, w) == '.' then DigitRun(s, w + 1) else ""
  }

  /** What the mantissa at p0 holds, as far as the scanner keeps it. */
  ghost predicate Mantissa(s: string, p0: nat, q: nat, s0: nat, nd0: nat, nd: nat, nf: nat, any: bool, y: nat,
                           point: bool)
    requires p0 <= |s|
  {
    var whole := DigitRun(s, p0);
    var w := p0 + |whole|;
    var fraction := FractionAt(s, w);
    point == (At(s, w) == '.') &&
    q == (if point then w + 1 + |fraction| else w) &&
    (any <==> whole != "" || fraction != "") &&
    AllDigits(whole + fraction) &&
    if nd == 0 then DigitsValue(whole + fraction) == 0
    else any && Holds(s, s0, nd0, nd, y, whole + fraction, |fraction|, nf)
  }

  /** Digits before the point. */
  lemma WholeMantissa(s: string, p0: nat, p: nat, w: nat, q: nat, nd: nat, nf: nat, nz: nat, y: nat)
    requires p0 <= p < w <= q <= |s| && At(s, p) != '0' && forall i :: p0 <= i < p ==> s[i] == '0'
    requires w == DecimalEnd(s, p)
    requires if At(s, w) == '.' then w < q && q == DecimalEnd(s, w + 1) else q == w
    requires var f := if At(s, w) == '.' then s[w + 1..q] else "";
      Taken(s[p..w] + f, nd, nz, y) && nz <= |f| && nf == |f| - nz
    ensures Mantissa(s, p0, q, p, w - p, nd, nf, true, y, At(s, w) == '.')
  {
    hide DigitsValue, Nine, Pow, Taken, Holds, DecimalEnd, DigitRun, FractionAt, Run;
    var f := if At(s, w) == '.' then s[w + 1..q] else "";
    var z, t := s[p0..p], s[p..w] + f;
    WholeParts(s, p0, p, w, q);
    assert (z + s[p..w]) + f == z + t;
    TakenLength(t, nd, nz, y);
    WholeRun(s, p, w, q, f, nd);
    assert forall i :: 0 <= i < |z| ==> z[i] == '0';
    HoldsTaken(s, p, w - p, nd, y, z, t, nz, |f|, nf);
    HoldsDigits(s, p, w - p, nd, y, z + t, |f|, nf);
  }

  lemma WholeParts(s: string, p0: nat, p: nat, w: nat, q: nat)
    requires p0 <= p < w <= q <= |s| && forall i :: p0 <= i < p ==> s[i] == '0'
    requires w == DecimalEnd(s, p) && (At(s, w) == '.' ==> w < q && q == DecimalEnd(s, w + 1))
    ensures DigitRun(s, p0) == s[p0..p] + s[p..w] && p0 + |DigitRun(s, p0)| == w
    ensures FractionAt(s, w) == if At(s, w) == '.' then s[w + 1..q] else ""
  {
    hide DecimalEnd;
    DecimalEndPast(s, p0, p);
    Splice(s, p0, p, w);
  }

  lemma WholeRun(s: string, p: nat, w: nat, q: nat, f: string, nd: nat)
    requires p < w <= q <= |s| && At(s, p) != '0' && w - p <= nd <= w - p + |f|
    requires f == "" || (w < q && f == s[w + 1..q])
    ensures p + nd + (if w - p < nd then 1 else 0) <= |s| && Run(s, p, w - p, nd) == (s[p..w] + f)[..nd]
    ensures (s[p..w] + f)[0] != '0'
  {
  }

  lemma HoldsDigits(s: string, s0: nat, nd0: nat, nd: nat, y: nat, all: string, f: nat, nf: int)
    requires Holds(s, s0, nd0, nd, y, all, f, nf)
    ensures AllDigits(all)
  {
  }

  lemma TakenLength(t: string, nd: nat, nz: nat, y: nat)
    requires Taken(t, nd, nz, y)
    ensures nd + nz == |t| && AllDigits(t)
  {
  }

  lemma {:induction false} DecimalEndPast(s: string, i: nat, j: nat)
    requires i <= j <= |s| && forall k :: i <= k < j ==> IsDigit(s[k])
    ensures DecimalEnd(s, i) == DecimalEnd(s, j)
    decreases j - i
  {
    if i < j {
      DecimalEndPast(s, i + 1, j);
    }
  }

  /** No digit but zeros before the point at w; the first other digit, if there is one, is at s0. */
  lemma FractionMantissa(s: string, p0: nat, w: nat, s0: nat, q: nat, nd: nat, nf: nat, nz: nat, y: nat)
    requires p0 <= w < s0 <= q <= |s| && At(s, w) == '.' && forall i :: p0 <= i < w ==> s[i] == '0'
    requires (forall i :: w < i < s0 ==> s[i] == '0') && At(s, s0) != '0'
    requires q == DecimalEnd(s, s0) && Taken(s[s0..q], nd, nz, y) && nz <= q - s0 && nf == q - (w + 1) - nz
    requires s0 < q ==> nd > 0
    ensures Mantissa(s, p0, q, s0, nd, nd, nf, p0 < w || w + 1 < q, y, true)
  {
    hide DigitsValue, Nine, Pow, Taken, Holds, DecimalEnd, DigitRun, FractionAt;
    FractionParts(s, p0, w, s0, q);
    var z, t := s[p0..w] + s[w + 1..s0], s[s0..q];
    assert s[p0..w] + (s[w + 1..s0] + t) == z + t;
    assert forall i :: 0 <= i < |z| ==> z[i] == '0';
    TakenLength(t, nd, nz, y);
    if nd > 0 {
      FractionRun(s, s0, nd, q);
      HoldsTaken(s, s0, nd, nd, y, z, t, nz, q - (w + 1), nf);
      HoldsDigits(s, s0, nd, nd, y, z + t, q - (w + 1), nf);
    } else {
      NothingTaken(z, t, nz, y);
    }
  }

  lemma FractionParts(s: string, p0: nat, w: nat, s0: nat, q: nat)
    requires p0 <= w < s0 <= q <= |s| && At(s, w) == '.' && forall i :: p0 <= i < w ==> s[i] == '0'
    requires (forall i :: w < i < s0 ==> s[i] == '0') && q == DecimalEnd(s, s0)
    ensures DigitRun(s, p0) == s[p0..w] && FractionAt(s, w) == s[w + 1..s0] + s[s0..q]
  {
    hide DecimalEnd;
    DecimalEndIs(s, p0, w);
    DecimalEndPast(s, w + 1, s0);
    assert DigitRun(s, w + 1) == s[w + 1..q];
    Splice(s, w + 1, s0, q);
  }

  lemma FractionRun(s: string, s0: nat, nd: nat, q: nat)
    requires s0 + nd <= q <= |s| && nd > 0 && At(s, s0) != '0'
    ensures Run(s, s0, nd, nd) == s[s0..q][..nd] && s[s0..q][0] != '0'
  {
  }

  /** Scans the mantissa that starts at p0; the zeros in front of place p are known. */
  method ScanMantissa(s: string, ghost p0: nat, p: nat)
    returns (q: nat, s0: nat, nd0: nat, nd: nat, nf: nat, nz: nat, y: nat, point: bool)
    requires p0 <= p <= |s| && At(s, p) != '0' && forall i :: p0 <= i < p ==> s[i] == '0'
    ensures Mantissa(s, p0, q, s0, nd0, nd, nf, nd > 0 || nz > 0 || p0 < p, y, point)
    ensures nd > 0 ==> nd0 > 0
  {
    hide Mantissa, Taken, DigitsValue, Nine, DigitRun;
    s0, nf, nz := p, 0, 0;
    q, y := ScanWhole(s, p);
    nd := q - p;
    nd0 := nd;
    TakenAll(s[p..q], y);
    var w := q;
    DecimalEndIsLater(s, p);
    point := At(s, q) == '.';
    if !point {
      if nd > 0 {
        assert s[p..w] + "" == s[p..w];
        WholeMantissa(s, p0, p, w, q, nd, nf, nz, y);
      } else {
        NoFraction(s, p0, p, y);
      }
      return;
    }
    q := q + 1;
    if nd == 0 {
      q := SkipZeros(s, q);
      nz := q - (w + 1);
      assert s[q..q] == "" && s[w..w] == "";
      if IsDigit(At(s, q)) {
        NineNone();
        TakenAll("", 0);
        s0 := q;
        nf, nz := nz, 0;
        q, nd, nf, nz, y := ScanFraction(s, q, "", 0, nf, 0);
        assert "" + s[s0..q] == s[s0..q];
        nd0 := nd;
        FractionMantissa(s, p0, w, s0, q, nd, nf, nz, y);
      } else {
        DecimalEndIs(s, q, q);
        FractionMantissa(s, p0, w, q, q, 0, nz, 0, y);
        nf := 0;
        MantissaNothing(s, p0, q, q, 0, nz, p0 < w || w + 1 < q, y, true, s0, nf);
      }
    } else {
      q, nd, nf, nz, y := ScanFraction(s, q, s[p..w], nd, 0, y);
      WholeMantissa(s, p0, p, w, q, nd, nf, nz, y);
    }
  }

  lemma DecimalEndIsLater(s: string, p: nat)
    requires p <= |s|
    ensures p <= DecimalEnd(s, p) <= |s|
  {
  }

  lemma TakenAll(t: string, y: nat)
    requires AllDigits(t) && y == Nine(t)
    ensures Taken(t, |t|, 0, y)
  {
    assert t[..|t|] == t;
  }

  /** Without digits the other parts do not matter. */
  lemma MantissaNothing(s: string, p0: nat, q: nat, s0: nat, nd0: nat, nf: nat, any: bool, y: nat, point: bool,
                        s0': nat, nf': nat)
    requires p0 <= |s| && Mantissa(s, p0, q, s0, nd0, 0, nf, any, y, point)
    ensures Mantissa(s, p0, q, s0', nd0, 0, nf', any, y, point)
  {
  }

  lemma NoFraction(s: string, p0: nat, p: nat, y: nat)
    requires p0 <= p <= |s| && !IsDigit(At(s, p)) && At(s, p) != '.' && forall i :: p0 <= i < p ==> s[i] == '0'
    ensures Mantissa(s, p0, p, p, 0, 0, 0, p0 < p, y, false)
  {
    hide DigitsValue;
    DecimalEndIs(s, p0, p);
    LeadingZeros(s[p0..p], "");
    NoDigits();
  }

  /** What the scanner finds: where the text ends, where the digits are and the power of ten to apply to them. */
  datatype Scanned =
    | NoNumber
    | Hexadecimal(minus: bool, at: nat)
    | Letters(minus: bool, at: nat)
    | Zero(minus: bool, end: nat)
    | Number(minus: bool, end: nat, s0: nat, nd0: nat, nd: nat, y: nat, e: int)

  /** What was found is what the text says, but for the clamping of the exponent. */
  ghost predicate Found(s: string, r: Scanned, x: Reading)
  {
    match r
    case NoNumber => x.NoNumber?
    case Hexadecimal(minus, at) => x == Reading.Hexadecimal(minus, at)
    case Letters(minus, at) => x == Reading.Letters(minus, at)
    case Zero(minus, end) =>
      x.Literal? && x.minus == minus && x.end == end && AllDigits(x.whole + x.fraction) &&
      DigitsValue(x.whole + x.fraction) == 0
    case Number(minus, end, s0, nd0, nd, y, e) =>
      x.Literal? && x.minus == minus && x.end == end && nd0 > 0 &&
      Holds(s, s0, nd0, nd, y, x.whole + x.fraction, |x.fraction|, Clamp(x.exponent) - e)
  }

  /** Signs and spaces. Without anything behind them there is no number. */
  method ScanSign(s: string) returns (ok: bool, p: nat, minus: bool)
    ensures p <= |s| && ReadDecimal(s) == (if ok then ReadUnsigned(s, p, minus) else Reading.NoNumber)
  {
    hide ReadUnsigned;
    minus := false;
    p := 0;
    while IsSpace(At(s, p))
      invariant p <= |s| && SpaceEnd(s, 0) == SpaceEnd(s, p)
      decreases |s| - p
    {
      p := p + 1;
    }
    if At(s, p) == '-' || At(s, p) == '+' {
      minus := At(s, p) == '-';
      p := p + 1;
    }
    ok := At(s, p) != '\0';
    if !ok {
      NothingUnsigned(s, p, minus);
    }
  }

  lemma NothingUnsigned(s: string, p: nat, minus: bool)
    requires p <= |s| && At(s, p) == '\0'
    ensures ReadUnsigned(s, p, minus) == Reading.NoNumber
  {
    DecimalEndIs(s, p, p);
  }

  /** Zeros from p0 to p and then the end of the text. */
  lemma OnlyZeros(s: string, p0: nat, p: nat, minus: bool)
    requires p0 < p <= |s| && At(s, p) == '\0' && forall i :: p0 <= i < p ==> s[i] == '0'
    requires At(s, p0 + 1) != 'x' && At(s, p0 + 1) != 'X'
    ensures Found(s, Scanned.Zero(minus, p), ReadUnsigned(s, p0, minus))
  {
    hide DigitsValue, DecimalEnd;
    DecimalEndIs(s, p0, p);
    assert DigitRun(s, p0) == s[p0..p] && s[p0..p] + "" == s[p0..p];
    LeadingZeros(s[p0..p], "");
    NoDigits();
  }

  /** What the number without its sign is, from the parts found. */
  lemma UnsignedIs(s: string, p0: nat, minus: bool, q: nat, s0: nat, nd0: nat, nd: nat, nf: nat, any: bool, y: nat,
                   point: bool)
    requires p0 <= |s| && !(At(s, p0) == '0' && (At(s, p0 + 1) == 'x' || At(s, p0 + 1) == 'X'))
    requires Mantissa(s, p0, q, s0, nd0, nd, nf, any, y, point)
    ensures q <= |s|
    ensures !any ==>
      ReadUnsigned(s, p0, minus) ==
      (if !point && At(s, q) in "iInN" then Reading.Letters(minus, q) else Reading.NoNumber)
    ensures any ==> var x := ReadUnsigned(s, p0, minus);
      x.Literal? && x.minus == minus && (x.exponent, x.end) == ReadPower(s, q) && AllDigits(x.whole + x.fraction) &&
      if nd == 0 then DigitsValue(x.whole + x.fraction) == 0
      else Holds(s, s0, nd0, nd, y, x.whole + x.fraction, |x.fraction|, nf)
  {
    hide ReadPower, DigitRun, Holds, DigitsValue;
    MantissaEnds(s, p0);
  }

  lemma MantissaEnds(s: string, p0: nat)
    requires p0 <= |s|
    ensures p0 + |DigitRun(s, p0)| <= |s|
    ensures At(s, p0 + |DigitRun(s, p0)|) == '.' ==>
      p0 + |DigitRun(s, p0)| + 1 + |FractionAt(s, p0 + |DigitRun(s, p0)|)| <= |s|
  {
  }

  /** Scans a decimal literal. */
  method Scan(s: string) returns (r: Scanned)
    ensures Found(s, r, ReadDecimal(s))
  {
    hide ReadDecimal, ReadUnsigned, Mantissa, Holds, DigitsValue;
    var ok, p, minus := ScanSign(s);
    if !ok {
      return Scanned.NoNumber;
    }
    var p0 := p;
    if At(s, p) == '0' {
      if At(s, p + 1) == 'x' || At(s, p + 1) == 'X' {
        IsHexadecimal(s, p, minus);
        return Scanned.Hexadecimal(minus, p);
      }
      p := SkipZeros(s, p + 1);
      if At(s, p) == '\0' {
        OnlyZeros(s, p0, p, minus);
        return Zero(minus, p);
      }
    }
    r := ScanNumber(s, p0, p, minus, p > p0);
  }

  lemma IsHexadecimal(s: string, p: nat, minus: bool)
    requires p <= |s| && At(s, p) == '0' && (At(s, p + 1) == 'x' || At(s, p + 1) == 'X')
    ensures ReadUnsigned(s, p, minus) == Reading.Hexadecimal(minus, p)
  {
  }

  /** The mantissa and the exponent of the number that starts at p0; the zeros in front of p have been passed. */
  method ScanNumber(s: string, ghost p0: nat, p: nat, minus: bool, nz0: bool) returns (r: Scanned)
    requires p0 <= p <= |s| && At(s, p) != '0' && forall i :: p0 <= i < p ==> s[i] == '0'
    requires !(At(s, p0) == '0' && (At(s, p0 + 1) == 'x' || At(s, p0 + 1) == 'X')) && (nz0 <==> p0 < p)
    ensures Found(s, r, ReadUnsigned(s, p0, minus))
  {
    hide ReadUnsigned, Mantissa, Holds, DigitsValue, ReadPower;
    var q, s0, nd0, nd, nf, nz, y, point := ScanMantissa(s, p0, p);
    UnsignedIs(s, p0, minus, q, s0, nd0, nd, nf, nd > 0 || nz > 0 || nz0, y, point);
    if (At(s, q) == 'e' || At(s, q) == 'E') && nd == 0 && nz == 0 && !nz0 {
      return Scanned.NoNumber;
    }
    var e, end := ScanPower(s, q);
    NoPower(s, q);
    if nd == 0 {
      if nz > 0 || nz0 {
        return Zero(minus, end);
      }
      return if !point && At(s, end) in "iInN" then Scanned.Letters(minus, end) else Scanned.NoNumber;
    }
    r := Number(minus, end, s0, nd0, nd, y, e - nf);
  }

  lemma NoPower(s: string, q: nat)
    requires q <= |s|
    ensures At(s, q) != 'e' && At(s, q) != 'E' ==> ReadPower(s, q) == (0, q)
  {
  }
}
