/** Rounding a real number to the nearest multiple of a power of two, ties to even, from the bits
    that a shift loses. */
module Rounding {
  import opened Words
  import opened DecimalMeaning

  function Multiple(r: int, p: real): real
  {
    r as real * p
  }

  /** r p is the multiple of p nearest to x; of two equally near ones r is the even one. */
  ghost predicate NearestEven(x: real, r: int, p: real)
  {
    forall X: int :: X != r ==>
      Distance(Multiple(r, p), x) <= Distance(Multiple(X, p), x) &&
      (Distance(Multiple(r, p), x) == Distance(Multiple(X, p), x) ==> r % 2 == 0)
  }

  lemma NearestEvenUnique(x: real, r: int, r': int, p: real)
    requires NearestEven(x, r, p) && NearestEven(x, r', p) && p > 0.0
    ensures r == r'
  {
    hide Multiple;
    if r != r' {
      assert Distance(Multiple(r, p), x) == Distance(Multiple(r', p), x);
      OddBetween(if r < r' then r else r', if r < r' then r' else r, x, p);
      assert false;
    }
  }

  lemma Steps(a: int, b: int, p: real)
    requires p > 0.0
    ensures a < b ==> Multiple(a, p) + p <= Multiple(b, p)
  {
    if a < b {
      assert (a + 1) as real == a as real + 1.0;
      RDistribute(a as real, 1.0, p);
      RealMono((a + 1) as real, b as real, p);
    }
  }

  lemma RealMono(a: real, b: real, p: real)
    requires a <= b && p >= 0.0
    ensures a * p <= b * p
  {
    if p > 0.0 {
      RCancel(a, b, p);
    }
  }

  /** Two even numbers that are equally near have a nearer odd one between them. */
  lemma OddBetween(lo: int, hi: int, x: real, p: real)
    requires p > 0.0 && lo < hi && lo % 2 == hi % 2
    requires Distance(Multiple(lo, p), x) == Distance(Multiple(hi, p), x)
    ensures Distance(Multiple(lo + 1, p), x) < Distance(Multiple(lo, p), x)
  {
    hide Multiple;
    Steps(lo, lo + 1, p);
    Steps(lo + 1, hi, p);
  }

  /** v p is x cut off: nothing is lost (0), less than half (1), half (2) or more than half (3) of p. */
  ghost predicate Held(x: real, v: nat, p: real, lost: nat)
  {
    HeldAt(x, Multiple(v, p), p, lost)
  }

  ghost predicate HeldAt(x: real, vp: real, p: real, lost: nat)
  {
    match lost
    case 0 => x == vp
    case 1 => vp < x < vp + p / 2.0
    case 2 => x == vp + p / 2.0
    case 3 => vp + p / 2.0 < x < vp + p
    case _ => false
  }

  /** Whether to round up: past the half, or at the half with an odd number. */
  predicate RoundsUp(v: nat, lost: nat)
  {
    lost == 3 || (lost == 2 && v % 2 == 1)
  }

  lemma HeldRounds(x: real, v: nat, p: real, lost: nat)
    requires p > 0.0 && Held(x, v, p, lost)
    ensures NearestEven(x, if RoundsUp(v, lost) then v + 1 else v, p)
    ensures RoundsUp(v, lost) ==> Multiple(v + 1, p) > x
    ensures !RoundsUp(v, lost) ==> (if lost == 0 then Multiple(v, p) == x else Multiple(v, p) < x)
  {
    hide Multiple;
    var r: int := if RoundsUp(v, lost) then v + 1 else v;
    Next(v, p);
    forall X: int | X != r
      ensures Distance(Multiple(r, p), x) <= Distance(Multiple(X, p), x)
      ensures Distance(Multiple(r, p), x) == Distance(Multiple(X, p), x) ==> r % 2 == 0
    {
      Steps(X, v, p);
      Steps(v + 1, X, p);
      NearestOf(x, v, p, lost, r, X, Multiple(v, p), Multiple(X, p));
    }
  }

  lemma Next(v: int, p: real)
    ensures Multiple(v + 1, p) == Multiple(v, p) + p
  {
    assert (v + 1) as real == v as real + 1.0;
    RDistribute(v as real, 1.0, p);
  }

  lemma NearestOf(x: real, v: nat, p: real, lost: nat, r: int, X: int, vp: real, Xp: real)
    requires p > 0.0 && HeldAt(x, vp, p, lost) && r == (if RoundsUp(v, lost) then v + 1 else v) && X != r
    requires X < v ==> Xp + p <= vp
    requires X == v ==> Xp == vp
    requires X == v + 1 ==> Xp == vp + p
    requires X > v + 1 ==> vp + p + p <= Xp
    ensures var rp := if r == v then vp else vp + p;
      Distance(rp, x) <= Distance(Xp, x) && (Distance(rp, x) == Distance(Xp, x) ==> r % 2 == 0)
  {
  }

  /** What is lost when v, which already lost something or not, is shifted right by n bits. */
  function Lost(v: nat, n: nat, sticky: bool): (l: nat)
    requires n > 0
    ensures l <= 3
  {
    (if v / Pow(2, n - 1) % 2 == 1 then 2 else 0) + (if sticky || v % Pow(2, n - 1) != 0 then 1 else 0)
  }

  lemma HeldShift(x: real, v: nat, p: real, lost: nat, n: nat)
    requires p > 0.0 && n > 0 && Held(x, v, p, lost)
    ensures Held(x, v / Pow(2, n), Multiple(Pow(2, n), p), Lost(v, n, lost != 0))
  {
    var h := Pow(2, n - 1);
    assert Pow(2, n) == 2 * h;
    hide Pow, Held, Multiple;
    Halves(v, h);
    HeldParts(x, v, p, lost, h, v / (2 * h), v / h % 2, v % h);
  }

  lemma Halves(v: nat, h: nat)
    requires h > 0
    ensures v / (2 * h) >= 0 && v == h * (2 * (v / (2 * h)) + v / h % 2) + v % h
  {
    DivDiv(v, h, 2);
    var d := v / h;
    assert d == 2 * (d / 2) + d % 2;
  }

  lemma HeldParts(x: real, v: nat, p: real, lost: nat, h: nat, q: nat, c: nat, u: nat)
    requires p > 0.0 && Held(x, v, p, lost) && v == h * (2 * q + c) + u && c <= 1 && u < h
    ensures Held(x, q, Multiple(2 * h, p), (if c == 1 then 2 else 0) + (if lost != 0 || u != 0 then 1 else 0))
  {
    hide Multiple;
    var H, U := Multiple(h, p), Multiple(u, p);
    Split3(v, h, q, c, u, p);
    RemainderBelow(u, h, p);
    HeldAlgebra(x, Multiple(v, p), p, lost, Multiple(q, 2.0 * H), c, H, U, u);
    Twice(h, p);
  }

  lemma Twice(h: nat, p: real)
    ensures Multiple(2 * h, p) == 2.0 * Multiple(h, p)
  {
    assert (2 * h) as real == 2.0 * (h as real);
    RAssoc(2.0, h as real, p);
  }

  lemma Split3(v: nat, h: nat, q: nat, c: nat, u: nat, p: real)
    requires v == h * (2 * q + c) + u && c <= 1
    ensures Multiple(v, p) == Multiple(q, 2.0 * Multiple(h, p)) + (c as real) * Multiple(h, p) + Multiple(u, p)
  {
    Distribute(h, 2 * q, c);
    var a, b := h * (2 * q), h * c;
    assert a == (2 * q) * h;
    RealMul(2 * q, h);
    RealMul(2, q);
    RDistribute(a as real, b as real, p);
    RDistribute((a + b) as real, u as real, p);
    assert (a + b) as real == a as real + b as real && v as real == (a + b) as real + u as real;
    RAssoc((2 * q) as real, h as real, p);
    RAssoc(q as real, 2.0, h as real * p);
    assert (2 * q) as real == q as real * 2.0;
    assert c == 0 || c == 1;
  }

  lemma RemainderBelow(u: nat, h: nat, p: real)
    requires u < h && p > 0.0
    ensures 0.0 <= Multiple(u, p) <= Multiple(h, p) - p
    ensures Multiple(u, p) == 0.0 <==> u == 0
  {
    Steps(u, h, p);
    RCancel(0.0, u as real, p);
  }

  lemma HeldAlgebra(x: real, vp: real, p: real, lost: nat, qP: real, c: nat, H: real, U: real, u: nat)
    requires p > 0.0 && HeldAt(x, vp, p, lost) && c <= 1
    requires vp == qP + (c as real) * H + U && 0.0 <= U <= H - p && (U == 0.0 <==> u == 0)
    ensures HeldAt(x, qP, 2.0 * H, (if c == 1 then 2 else 0) + (if lost != 0 || u != 0 then 1 else 0))
  {
    assert (c as real) * H == if c == 1 then H else 0.0;
  }

  /** One more power of two. */
  lemma RPowNext(e: int, n: nat)
    ensures RPow(2, e + n) == Multiple(Pow(2, n), RPow(2, e))
  {
    hide Pow, RPow;
    assert RPow(2, e + n) == Multiple(Pow(2, n), RPow(2, e)) by {
      RPowAdd(2, e, n);
      RPowWhole(2, n);
    }
  }

  lemma RPowOrder(d: int, e: int)
    ensures d < e ==> 2.0 * RPow(2, d) <= RPow(2, e)
    ensures d <= e ==> RPow(2, d) <= RPow(2, e)
  {
    hide RPow;
    if d < e {
      RPowNext(d, e - d);
      PowMono(2, 1, e - d);
      RealMono(2.0, Pow(2, e - d) as real, RPow(2, d));
    }
  }

  /** The same real number with its bits moved up. */
  lemma ShiftedUp(v: nat, e: int, n: nat)
    ensures Multiple(v * Pow(2, n), RPow(2, e - n)) == Multiple(v, RPow(2, e))
  {
    hide Pow, RPow;
    assert (v * Pow(2, n)) as real * RPow(2, e - n) == v as real * RPow(2, e) by {
      RPowNext(e - n, n);
      RealMul(v, Pow(2, n));
      RAssoc(v as real, Pow(2, n) as real, RPow(2, e - n));
    }
  }
}
