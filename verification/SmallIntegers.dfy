/** gdtoa's quick way for small integers: their digits as they are, however far their gaps reach. */
module SmallIntegers {
  import opened Words
  import opened Digits
  import opened DigitLoop
  import opened Mode0
  import opened DecimalMeaning
  import opened PrintedMeaning

  /** After n digits spelling D of d0: d is what is left, ten times over. */
  ghost predicate Left(d0: nat, ds: nat, n: nat, D: nat, d: nat)
  {
    d0 * Pow(10, n) == 10 * D * ds + d && d < 10 * ds
  }

  /** L times ds and a rest. */
  ghost predicate Divided(d: nat, ds: nat, L: nat, r: nat)
  {
    d == ds * L + r && r < ds
  }

  method Divide(d: nat, ds: nat) returns (L: nat, r: nat)
    requires ds > 0
    ensures Divided(d, ds, L, r) && (d >= ds || (d > 0 && r == 0) ==> L > 0)
  {
    L := d / ds;
    r := d - L * ds;
  }

  /** What one more digit L leaves behind; at the last place it is nothing. */
  lemma DigitTaken(d0: nat, k: nat, n: nat, D: nat, d: nat, L: nat, r: nat)
    requires n <= k && Left(d0, Pow(10, k), n, D, d) && Divided(d, Pow(10, k), L, r)
    ensures L <= 9 && (n == k ==> r == 0)
    ensures Left(d0, Pow(10, k), n + 1, 10 * D + L, 10 * r)
    ensures r == 0 ==> d0 == (10 * D + L) * Pow(10, k - n)
  {
    var ds := Pow(10, k);
    TakenAlgebra(d0, ds, n, D, d, L, r);
    hide Pow, Left;
    if n == k {
      NothingLeft(d0, k, 10 * D + L, r);
    }
    if r == 0 {
      WholeIs(d0, k, n, 10 * D + L);
    }
  }

  lemma TakenAlgebra(d0: nat, ds: nat, n: nat, D: nat, d: nat, L: nat, r: nat)
    requires Left(d0, ds, n, D, d) && Divided(d, ds, L, r)
    ensures L <= 9 && d0 * Pow(10, n) == (10 * D + L) * ds + r
    ensures Left(d0, ds, n + 1, 10 * D + L, 10 * r)
  {
    hide Pow;
    OrderLeft(ds, L, r);
    Distribute(ds, 10 * D, L);
    PowUp(n);
    MulAssoc(10, d0, Pow(10, n));
    MulAssoc(d0, 10, Pow(10, n));
    MulAssoc(10, 10 * D + L, ds);
  }

  lemma OrderLeft(ds: nat, L: nat, r: nat)
    requires ds > 0 && ds * L + r < 10 * ds
    ensures L <= 9
  {
    if L >= 10 {
      MulMono(ds, 10, L);
    }
  }

  lemma PowUp(n: nat)
    ensures Pow(10, n + 1) == 10 * Pow(10, n)
  {
  }

  /** Once ds divides 10^n, nothing is left. */
  lemma NothingLeft(d0: nat, k: nat, X: nat, r: nat)
    requires d0 * Pow(10, k) == X * Pow(10, k) + r && r < Pow(10, k)
    ensures r == 0
  {
    hide Pow;
    var p := Pow(10, k);
    Distribute(p, d0, 0 - X);
    assert (d0 - X) * p == r;
    if d0 > X {
      MulMono(p, 1, d0 - X);
    } else if d0 < X {
      MulMono(p, 1, X - d0);
    }
  }

  lemma WholeIs(d0: nat, k: nat, n: nat, X: nat)
    requires n <= k && d0 * Pow(10, n) == X * Pow(10, k)
    ensures d0 == X * Pow(10, k - n)
  {
    PowAdd(10, k - n, n);
    hide Pow;
    MulAssoc(X, Pow(10, k - n), Pow(10, n));
    OrderScales(d0, X * Pow(10, k - n), Pow(10, n));
    OrderScales(X * Pow(10, k - n), d0, Pow(10, n));
  }

  lemma LeftStart(d0: nat, ds: nat)
    requires d0 < 10 * ds
    ensures Left(d0, ds, 0, 0, d0)
  {
  }

  lemma LastDigit(D: nat, L: nat)
    requires 0 < L <= 9
    ensures (10 * D + L) % 10 != 0
  {
  }

  /** The digits of d0, which has k + 1 of them, to s, without zeros at their end. */
  method PutInteger(d0: nat, k: nat, s: array<char>) returns (n: nat)
    requires Pow(10, k) <= d0 < Pow(10, k + 1) && k + 1 < s.Length
    modifies s
    ensures 0 < n <= k + 1 && s[n] == '\0' && AllDigits(s[..n]) && s[0] != '0'
    ensures d0 == DigitsValue(s[..n]) * Pow(10, k + 1 - n) && DigitsValue(s[..n]) % 10 != 0
  {
    hide Pow, Left, DigitsValue, Divided;
    var ds, d := Pow(10, k), d0;
    PowUp(k);
    LeftStart(d0, ds);
    n := 0;
    NoDigits();
    assert s[..n] == [];
    while true
      invariant n <= k && AllDigits(s[..n]) && (if n == 0 then d >= ds else s[0] != '0')
      invariant Left(d0, ds, n, DigitsValue(s[..n]), d) && d > 0
      decreases k - n
    {
      var L, r := Divide(d, ds);
      DigitTaken(d0, k, n, DigitsValue(s[..n]), d, L, r);
      if r == 0 {
        LastDigit(DigitsValue(s[..n]), L);
      }
      n := PutDigit(s, n, L);
      if r == 0 {
        break;
      }
      d := 10 * r;
    }
    ghost var t := s[..n];
    s[n] := '\0';
    assert s[..n] == t;
  }

  // ----- what the digits mean -----

  /** M 10^e is x itself, written without zeros at its end. */
  ghost predicate PrintsExactly(M: nat, e: int, n: nat, x: real, inex: Inexact)
    requires n > 0
  {
    Pow(10, n - 1) <= M < Pow(10, n) && M % 10 != 0 && e >= 0 && Decimal(M, e) == x && inex == Exact
  }

  /** The neighbours of M 10^e with zero for its last digit do not read back. */
  ghost predicate NeighboursOut(M: nat, e: int, lo: real, hi: real, even: bool)
  {
    var below, above := Decimal(M % 10, e), Decimal(10 - M % 10, e);
    if even then below > lo && above > hi else below >= lo && above >= hi
  }

  lemma DecimalSum(a: int, b: int, e: int)
    ensures Decimal(a + b, e) == Decimal(a, e) + Decimal(b, e)
  {
    hide RPow;
    RDistribute(a as real, b as real, RPow(10, e));
  }

  lemma LastPlace(M: nat)
    ensures M == 10 * (M / 10) + M % 10
  {
  }

  /** Every multiple of ten units is as far from M units as the neighbours. */
  lemma GridAside(M: nat, Q: int, e: int)
    ensures Q <= M / 10 <==> Decimal(10 * Q, e) <= Decimal(M, e) - Decimal(M % 10, e)
    ensures Q > M / 10 <==> Decimal(10 * Q, e) >= Decimal(M, e) + Decimal(10 - M % 10, e)
  {
    hide Decimal;
    var q, d := M / 10, M % 10;
    LastPlace(M);
    DecimalSum(10 * q, d, e);
    DecimalSum(M, 10 - d, e);
    DecimalMono(10 * Q, 10 * q, e);
    DecimalMono(10 * q + 10, 10 * Q, e);
  }

  /** A number beyond both neighbours does not read back when they do not. */
  lemma BeyondOut(y: real, M: nat, e: int, x: real, lo: real, hi: real, even: bool)
    requires NeighboursOut(M, e, lo, hi, even)
    requires y <= x - Decimal(M % 10, e) || y >= x + Decimal(10 - M % 10, e)
    ensures !Reads(y, x, lo, hi, even)
  {
    hide Decimal;
  }

  lemma ExactDigits(M: nat, e: int, n: nat, x: real)
    requires n > 1 && PrintsExactly(M, e, n, x, Exact)
    ensures x == Decimal(M, e) && Pow(10, n - 1) <= M
    ensures Pow(10, n - 1) == 10 * Pow(10, n - 2)
  {
    hide Decimal;
  }

  lemma ShorterOut(M: nat, e: int, n: nat, x: real, lo: real, hi: real, even: bool, M': nat, e': int)
    requires n > 1 && PrintsExactly(M, e, n, x, Exact) && NeighboursOut(M, e, lo, hi, even) && M' < Pow(10, n - 1)
    ensures !Reads(Decimal(M', e'), x, lo, hi, even)
  {
    hide *;
    ExactDigits(M, e, n, x);
    if e' > e {
      var f: nat := e' - e - 1;
      DecimalShift(M', f, e + 1);
      TenUnits(M' * Pow(10, f), e);
      GridAside(M, M' * Pow(10, f), e);
    } else {
      FinerBelow(M', e', n - 1, e + n - 1);
      TopUnit(n - 1, e);
      PowUp(n - 2);
      GridAside(M, Pow(10, n - 2), e);
      AtLeastTenth(M, Pow(10, n - 2));
    }
    BeyondOut(Decimal(M', e'), M, e, x, lo, hi, even);
  }

  lemma TenUnits(Q: nat, e: int)
    ensures Decimal(Q, e + 1) == Decimal(10 * Q, e)
  {
    hide Decimal;
    DecimalShift(Q, 1, e);
  }

  lemma TopUnit(f: nat, e: int)
    ensures RPow(10, e + f) == Decimal(Pow(10, f), e) == Decimal(1, e + f)
  {
    hide Pow, RPow;
    DecimalShift(1, f, e);
    assert Decimal(1, e + f) == RPow(10, e + f);
  }

  lemma AtLeastTenth(M: nat, t: nat)
    requires 10 * t <= M
    ensures t <= M / 10
  {
  }

  /** When a neighbour reads back, it is shorter. */
  lemma ShorterIn(M: nat, e: int, n: nat, x: real, lo: real, hi: real, even: bool) returns (M': nat, e': int)
    requires n > 1 && PrintsExactly(M, e, n, x, Exact) && !NeighboursOut(M, e, lo, hi, even) && lo > 0.0 && hi > 0.0
    ensures 0 < M' < Pow(10, n - 1) && Reads(Decimal(M', e'), x, lo, hi, even)
  {
    hide Pow, Decimal, NeighboursOut, Reads;
    var q, d := M / 10, M % 10;
    var t := Pow(10, n - 2);
    PowUp(n - 1);
    PowUp(n - 2);
    AtLeastTenth(M, t);
    LastPlace(M);
    NeighbourReads(M, e, x, lo, hi, even);
    if Reads(x - Decimal(d, e), x, lo, hi, even) {
      M', e' := q, e + 1;
      TenUnits(q, e);
      DecimalSum(10 * q, d, e);
    } else {
      M', e' := q + 1, e + 1;
      TenUnits(q + 1, e);
      DecimalSum(M, 10 - d, e);
      if M' == Pow(10, n - 1) {
        TopUnit(n - 1, e + 1);
        M', e' := 1, e + 1 + (n - 1);
      }
    }
  }

  lemma NeighbourReads(M: nat, e: int, x: real, lo: real, hi: real, even: bool)
    requires !NeighboursOut(M, e, lo, hi, even) && lo > 0.0 && hi > 0.0
    ensures Reads(x - Decimal(M % 10, e), x, lo, hi, even) || Reads(x + Decimal(10 - M % 10, e), x, lo, hi, even)
  {
    Unsigned(M % 10, e);
    Unsigned(10 - M % 10, e);
    hide Decimal;
  }

  lemma Unsigned(d: nat, e: int)
    ensures Decimal(d, e) >= 0.0
    ensures d > 0 && e >= 0 ==> Decimal(d, e) >= 1.0
  {
    hide RPow;
    DecimalMono(0, d, e);
    DecimalMono(1, d, e);
    assert Decimal(0, e) == 0.0 && Decimal(1, e) == RPow(10, e);
    if e > 0 {
      RPowGrows(10, 0, e);
    }
    assert RPow(10, 0) == 1.0 by {
      RPowWhole(10, 0);
    }
  }

  /** The exact digits of a whole number are the shortest text exactly when the neighbours do not read back. */
  lemma ExactShortest(M: nat, e: int, n: nat, x: real, lo: real, hi: real, even: bool)
    requires n > 0 && PrintsExactly(M, e, n, x, Exact) && lo > 0.0 && hi > 0.0
    ensures ShortestReading(M, e, n, x, lo, hi, even) <==> n == 1 || NeighboursOut(M, e, lo, hi, even)
  {
    hide Pow, Decimal, NeighboursOut, PrintsExactly;
    assert Decimal(M, e) == x by {
      IsExact(M, e, n, x);
    }
    if n == 1 {
      assert Pow(10, 0) == 1;
    } else if NeighboursOut(M, e, lo, hi, even) {
      forall M': nat, e': int | 0 < M' < Pow(10, n - 1)
        ensures !Reads(Decimal(M', e'), x, lo, hi, even)
      {
        ShorterOut(M, e, n, x, lo, hi, even, M', e');
      }
    } else {
      var M', e' := ShorterIn(M, e, n, x, lo, hi, even);
    }
  }

  lemma IsExact(M: nat, e: int, n: nat, x: real)
    requires n > 0 && PrintsExactly(M, e, n, x, Exact)
    ensures Decimal(M, e) == x && e >= 0 && 0 < M % 10 < 10
  {
    hide Pow, Decimal;
  }

  /** Between whole numbers closer than the gap is nothing to go wrong: all that the digit loop promises holds. */
  lemma ExactWell(M: nat, e: int, n: nat, x: real, lo: real, hi: real, even: bool)
    requires n > 0 && PrintsExactly(M, e, n, x, Exact) && 0.0 < lo <= hi < 1.0
    ensures PrintsWell(M, e, n, x, lo, hi, even, Exact)
  {
    hide *;
    IsExact(M, e, n, x);
    ExactShortest(M, e, n, x, lo, hi, even);
    FarOut(M, e, lo, hi, even);
    NoneNearer(M, e, n, x, lo, hi, even);
    NextOut(M, e, x, lo, hi, even);
    NamedExact(x, Decimal(M, e));
    OnlyOne(M, e, x, lo, hi, even);
    WellOf(M, e, n, x, lo, hi, even, Exact);
  }

  lemma FarOut(M: nat, e: int, lo: real, hi: real, even: bool)
    requires e >= 0 && 0 < M % 10 < 10 && lo <= hi < 1.0
    ensures NeighboursOut(M, e, lo, hi, even)
  {
    Unsigned(M % 10, e);
    Unsigned(10 - M % 10, e);
    hide Decimal;
  }

  lemma NoneNearer(M: nat, e: int, n: nat, x: real, lo: real, hi: real, even: bool)
    requires Decimal(M, e) == x
    ensures NearestReading(M, e, n, x, lo, hi, even)
  {
    hide Decimal, Reads, Pow;
  }

  lemma OnlyOne(M: nat, e: int, x: real, lo: real, hi: real, even: bool)
    requires Decimal(M, e) == x
    ensures EvenOnTie(M, e, x, lo, hi, even)
  {
    hide Decimal, Reads;
    forall D: nat | D != M
      ensures Distance(Decimal(D, e), x) != Distance(Decimal(M, e), x)
    {
      DecimalMono(D, M, e);
      DecimalMono(M, D, e);
    }
  }

  lemma NextOut(M: nat, e: int, x: real, lo: real, hi: real, even: bool)
    requires Decimal(M, e) == x && e >= 0 && hi < 1.0
    ensures !Misnamed(x, lo, hi, even, e)
  {
    Unsigned(1, e);
    DecimalSum(M, 1, e);
    MisnamedOnly(M, x, lo, hi, even, e);
    hide Decimal, Reads, Misnamed;
  }

  lemma NamedExact(x: real, y: real)
    requires x == y
    ensures SideNamed(Exact, x, y)
  {
  }
}
