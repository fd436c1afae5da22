/** The whole digit loop of gdtoa in mode 0: the shortest decimal in the gap, written to a buffer. */
module Mode0 {
  import opened Words
  import opened Bigints
  import opened Quorems
  import opened ShortestDecimal
  import opened Digits
  import opened DigitLoop

  /** The loop after n digits: they spell D0, and b over S is what is left, ten times over. */
  ghost predicate Progress(g: Gap, n: nat, D0: nat, b: nat, lo: nat, hi: nat)
  {
    g.N * Pow(10, n) == 10 * D0 * g.S + b && b < 10 * g.S &&
    lo == g.lo * Pow(10, n) && hi == g.hi * Pow(10, n) &&
    (n == 0 ==> D0 == 0) && (n > 0 ==> NoneOnGrid(g, n - 1))
  }

  lemma ProgressStart(g: Gap)
    requires g.Valid()
    ensures Progress(g, 0, 0, g.N, g.lo, g.hi)
  {
  }

  lemma TakeDigit(g: Gap, n: nat, D0: nat, b: nat, lo: nat, hi: nat, dig: nat, r: nat)
    requires g.Valid() && Progress(g, n, D0, b, lo, hi)
    requires dig == b / g.S && r == b % g.S
    ensures dig <= 9 && Split(g, n, 10 * D0 + dig, r) && r < g.S && (n == 0 ==> D0 == 0 && dig > 0)
    ensures n > 0 ==> NoneOnGrid(g, n - 1)
  {
    QuotientBelow(b, g.S, 10);
    SplitSum(g.N * Pow(10, n), g.S, D0, dig, r, b);
  }

  lemma SplitSum(v: int, S: nat, D0: nat, dig: nat, r: nat, b: nat)
    requires v == 10 * D0 * S + b && b == S * dig + r
    ensures v == (10 * D0 + dig) * S + r
  {
    Distribute(S, 10 * D0, dig);
  }

  lemma NextDigit(g: Gap, n: nat, D0: nat, b: nat, lo: nat, hi: nat, dig: nat, r: nat)
    requires g.Valid() && Progress(g, n, D0, b, lo, hi)
    requires Split(g, n, 10 * D0 + dig, r) && NoneOnGrid(g, n)
    ensures Progress(g, n + 1, 10 * D0 + dig, 10 * r, 10 * lo, 10 * hi)
  {
    hide NoneOnGrid;
    TenTimes(g.N, Pow(10, n));
    TenTimes(g.lo, Pow(10, n));
    TenTimes(g.hi, Pow(10, n));
    var D := 10 * D0 + dig;
    assert 10 * (D * g.S) == 10 * D * g.S;
  }

  /** A round that goes on leaves room for another: the gap has not yet outgrown S. */
  lemma RoomLeft(g: Gap, n: nat, cap: nat)
    requires cap >= 2 && g.S < 2 * (g.lo * Pow(10, cap - 2))
    requires 2 * (g.lo * Pow(10, n)) <= g.S
    ensures n + 2 < cap
  {
    if cap - 2 <= n {
      PowMono(10, cap - 2, n);
      MulMono(g.lo, Pow(10, cap - 2), Pow(10, n));
    }
  }

  /** X / 10^(n-1) is the decimal printed: in the gap, none shorter, and none on its grid nearer. */
  ghost predicate Shortest(g: Gap, n: nat, X: nat)
    requires g.S > 0 && n > 0
  {
    In(g, X, n - 1) && NoneShorter(g, n) && Nearest(g, n - 1, X)
  }

  lemma ShortestAt(g: Gap, n: nat, X: nat)
    requires g.Valid() && In(g, X, n) && Nearest(g, n, X)
    requires n > 0 ==> NoneOnGrid(g, n - 1)
    ensures Shortest(g, n + 1, X)
  {
    if n > 0 {
      EmptyGridNoneShorter(g, n + 1);
    }
  }

  /** The number on the last digit place as printed: a grown exponent stands for one more zero. */
  function Printed(s: seq<char>, grown: int): nat
    requires AllDigits(s) && grown >= 0
  {
    DigitsValue(s) * Pow(10, grown)
  }

  /** Writes the last digit and the end mark. */
  method EmitLast(s: array<char>, n0: nat, d: nat) returns (n: nat)
    requires n0 + 1 < s.Length && d <= 9
    modifies s
    ensures n == n0 + 1 && s[n] == '\0' && s[..n] == old(s[..n0]) + [DigitChar(d)]
  {
    n := n0;
    s[n] := DigitChar(d);
    n := n + 1;
    s[n] := '\0';
  }

  /** The first digit is a 9 to be rounded up: the text becomes 1 and the exponent grows. */
  method EmitNine(s: array<char>, k0: int) returns (n: nat, k: int)
    requires s.Length >= 2
    modifies s
    ensures n == 1 && k == k0 + 1 && s[n] == '\0' && s[..n] == "1"
  {
    n := 0;
    s[n] := '9';
    n := n + 1;
    DigitsSnoc("", 9);
    assert s[..1] == "" + [DigitChar(9)];
    n, k := RoundOff(s, n, k0);
    s[n] := '\0';
  }

  /** Multiplies what is left and the gaps by ten; mlo and mhi stay one number if they were. */
  method TenfoldGap(mlo0: Bigint, mhi0: Bigint) returns (mlo: Bigint, mhi: Bigint)
    requires mlo0.Ok() && mhi0.Ok() && (mlo0 == mhi0 || mlo0.x != mhi0.x)
    modifies mlo0, mlo0.x, mhi0, mhi0.x
    ensures mlo.Ok() && mhi.Ok() && (mlo == mhi || mlo.x != mhi.x)
    ensures mlo.Value() == 10 * old(mlo0.Value()) && mhi.Value() == 10 * old(mhi0.Value())
    ensures mlo == mlo0 || (fresh(mlo) && fresh(mlo.x))
    ensures mhi == mhi0 || (fresh(mhi) && fresh(mhi.x))
  {
    hide Words.Value, Pow;
    if mlo0 == mhi0 {
      mhi := MultAdd(mhi0, 10, 0);
      mlo := mhi;
    } else {
      mlo := MultAdd(mlo0, 10, 0);
      mhi := MultAdd(mhi0, 10, 0);
    }
  }

  method Tenfold(b0: Bigint, S: Bigint, mlo0: Bigint, mhi0: Bigint) returns (b: Bigint, mlo: Bigint, mhi: Bigint)
    requires Ready(b0, S, mlo0, mhi0) && b0.Value() < S.Value()
    modifies b0, b0.x, mlo0, mlo0.x, mhi0, mhi0.x
    ensures Ready(b, S, mlo, mhi) && S.Value() == old(S.Value())
    ensures b.Value() == 10 * old(b0.Value())
    ensures mlo.Value() == 10 * old(mlo0.Value()) && mhi.Value() == 10 * old(mhi0.Value())
    ensures b == b0 || (fresh(b) && fresh(b.x))
    ensures mlo == mlo0 || (fresh(mlo) && fresh(mlo.x))
    ensures mhi == mhi0 || (fresh(mhi) && fresh(mhi.x))
  {
    hide Words.Value, Pow;
    b := MultAdd(b0, 10, 0);
    mlo, mhi := TenfoldGap(mlo0, mhi0);
  }

  lemma PrintedPlain(s: seq<char>)
    requires AllDigits(s)
    ensures Printed(s, 0) == DigitsValue(s)
  {
  }

  lemma PrintedTen()
    ensures AllDigits("1") && Printed("1", 1) == 10
  {
    assert "1"[..0] == "";
    assert DigitsValue("1") == 1;
  }

  lemma RoundLast(g: Gap, n: nat, D0: nat, b: nat, lo: nat, hi: nat, dig: nat, r: nat, empty: bool,
                  d: nat, inex: Inexact)
    requires Binary(g) && Progress(g, n, D0, b, lo, hi) && dig == b / g.S && r == b % g.S && (empty ==> r == 0)
    requires Judge(dig, r, g.S, lo, hi, g.even, empty) == Last(d, inex)
    ensures d <= 9 && (n == 0 ==> d > 0)
    ensures Shortest(g, n + 1, 10 * D0 + d)
    ensures FlagIs(inex, g, n, 10 * D0 + d)
  {
    hide *;
    BinaryIs(g);
    TakeDigit(g, n, D0, b, lo, hi, dig, r);
    GapsGrown(g, n, D0, b, lo, hi);
    LastDigitOf(D0, dig);
    LastIsNearest(g, n, 10 * D0 + dig, dig, r, empty, d, inex);
    LastFlag(g, n, 10 * D0 + dig, dig, r, empty, d, inex);
    ShortestAt(g, n, 10 * D0 + d);
  }

  lemma BinaryIs(g: Gap)
    requires Binary(g)
    ensures g.Valid() && g.S > 0 && g.hi > 0 && !OddGaps(g) && !TiesAtTen(g)
  {
    hide OddGaps, TiesAtTen;
  }

  lemma GapsGrown(g: Gap, n: nat, D0: nat, b: nat, lo: nat, hi: nat)
    requires Progress(g, n, D0, b, lo, hi)
    ensures lo == g.lo * Pow(10, n) && hi == g.hi * Pow(10, n)
  {
    hide Pow;
  }

  lemma LastDigitOf(D0: nat, dig: nat)
    requires dig <= 9
    ensures (10 * D0 + dig) % 10 == dig
  {
  }

  lemma RoundNine(g: Gap, n: nat, D0: nat, b: nat, lo: nat, hi: nat, dig: nat, r: nat, empty: bool)
    requires Binary(g) && Progress(g, n, D0, b, lo, hi) && dig == b / g.S && r == b % g.S && (empty ==> r == 0)
    requires Judge(dig, r, g.S, lo, hi, g.even, empty) == Nine
    ensures n == 0 && Shortest(g, 1, 10)
    ensures FlagIs(Inexhi, g, 0, 10) && !FlagMisnames(g, 0)
  {
    TakeDigit(g, n, D0, b, lo, hi, dig, r);
    NineComesFirst(g, n, 10 * D0 + dig, dig, r, empty);
    assert Pow(10, 0) == 1;
    NineIsRight(g, dig, dig, r, empty);
  }

  lemma RoundMore(g: Gap, n: nat, D0: nat, b: nat, lo: nat, hi: nat, dig: nat, r: nat, empty: bool, cap: nat)
    requires g.Valid() && Progress(g, n, D0, b, lo, hi) && dig == b / g.S && r == b % g.S && (empty ==> r == 0)
    requires Judge(dig, r, g.S, lo, hi, g.even, empty) == More
    requires cap >= 2 && g.S < 2 * (g.lo * Pow(10, cap - 2))
    ensures Progress(g, n + 1, 10 * D0 + dig, 10 * r, 10 * lo, 10 * hi)
    ensures n + 2 < cap && 0 < lo < g.S && r < g.S && dig <= 9 && (n == 0 ==> dig > 0)
  {
    hide Judge, Split, NoneOnGrid;
    TakeDigit(g, n, D0, b, lo, hi, dig, r);
    MoreMissesGrid(g, n, 10 * D0 + dig, dig, r, empty);
    MulPos(g.lo, Pow(10, n));
    NextDigit(g, n, D0, b, lo, hi, dig, r);
    RoomLeft(g, n, cap);
  }

  lemma LoopStart(b: Bigint, S: Bigint, mlo: Bigint, mhi: Bigint, g: Gap)
    requires Ready(b, S, mlo, mhi) && Binary(g)
    requires b.Value() == g.N && S.Value() == g.S && mlo.Value() == g.lo && mhi.Value() == g.hi
    ensures InLoop(b, S, mlo, mhi, g, 0, 0)
  {
    ProgressStart(g);
  }

  /** What a verdict after n digits spelling D0 says about the decimal printed. */
  ghost predicate VerdictRight(g: Gap, n: nat, D0: nat, v: Verdict)
    requires g.S > 0
  {
    match v
    case Last(d, flag) =>
      d <= 9 && (n == 0 ==> d > 0) && Shortest(g, n + 1, 10 * D0 + d) &&
      FlagIs(flag, g, n, 10 * D0 + d)
    case Nine =>
      n == 0 && Shortest(g, 1, 10) && FlagIs(Inexhi, g, 0, 10) && !FlagMisnames(g, 0)
    case More => true
  }

  /** The numbers of the loop after n digits spelling D0. */
  ghost predicate InLoop(b: Bigint, S: Bigint, mlo: Bigint, mhi: Bigint, g: Gap, n: nat, D0: nat)
    reads b, b.x, S, S.x, mlo, mlo.x, mhi, mhi.x
  {
    Ready(b, S, mlo, mhi) && Binary(g) && S.Value() == g.S &&
    Progress(g, n, D0, b.Value(), mlo.Value(), mhi.Value())
  }

  /** One pass of the loop: a digit, its verdict and, to go on, b and the gaps times ten. */
  method Pass(b0: Bigint, S: Bigint, mlo0: Bigint, mhi0: Bigint, ghost g: Gap, ghost n: nat, ghost D0: nat, cap: nat,
              even: bool)
    returns (dig: nat, v: Verdict, b: Bigint, mlo: Bigint, mhi: Bigint)
    requires InLoop(b0, S, mlo0, mhi0, g, n, D0) && even == g.even
    requires cap >= 2 && g.S < 2 * (g.lo * Pow(10, cap - 2))
    modifies b0, b0.x, mlo0, mlo0.x, mhi0, mhi0.x
    ensures VerdictRight(g, n, D0, v)
    ensures v.More? ==> InLoop(b, S, mlo, mhi, g, n + 1, 10 * D0 + dig)
    ensures v.More? ==> n + 2 < cap && dig <= 9 && (n == 0 ==> dig > 0)
    ensures b == b0 || (fresh(b) && fresh(b.x))
    ensures mlo == mlo0 || (fresh(mlo) && fresh(mlo.x))
    ensures mhi == mhi0 || (fresh(mhi) && fresh(mhi.x))
  {
    hide Words.Value, Pow, Judge, Shortest, Progress, FlagIs, FlagMisnames;
    b, mlo, mhi := b0, mlo0, mhi0;
    ghost var bv, lo, hi := b.Value(), mlo.Value(), mhi.Value();
    dig, v := Round(b, S, mlo, mhi, even);
    ghost var r, empty := b.Value(), b.wds == 0;
    match v {
      case Last(d, flag) =>
        RoundLast(g, n, D0, bv, lo, hi, dig, r, empty, d, flag);
      case Nine =>
        RoundNine(g, n, D0, bv, lo, hi, dig, r, empty);
      case More =>
        RoundMore(g, n, D0, bv, lo, hi, dig, r, empty, cap);
        b, mlo, mhi := Tenfold(b, S, mlo, mhi);
    }
  }

  /** Writes one more digit. */
  method PutDigit(s: array<char>, n0: nat, d: nat) returns (n: nat)
    requires n0 < s.Length && d <= 9 && AllDigits(s[..n0])
    requires if n0 == 0 then d > 0 else s[0] != '0'
    modifies s
    ensures n == n0 + 1 && AllDigits(s[..n]) && s[0] != '0'
    ensures DigitsValue(s[..n]) == 10 * old(DigitsValue(s[..n0])) + d
  {
    DigitsSnoc(s[..n0], d);
    ghost var low := s[..n0];
    s[n0] := DigitChar(d);
    n := n0 + 1;
    assert s[..n] == low + [DigitChar(d)];
  }

  /** What the loop leaves behind: n digits in s and an end mark, the decimal they print, its flag. */
  ghost predicate Written(s: seq<char>, n: nat, grown: int, inex: Inexact, g: Gap)
    requires g.S > 0
  {
    0 < n < |s| && s[n] == '\0' && AllDigits(s[..n]) && s[0] != '0' &&
    (grown == 0 || (grown == 1 && n == 1 && !FlagMisnames(g, 0))) &&
    Shortest(g, n, Printed(s[..n], grown)) &&
    FlagIs(inex, g, n - 1, Printed(s[..n], grown))
  }

  /** Writes what a verdict ends the loop with. */
  method Finish(s: array<char>, n0: nat, v: Verdict, k0: int, ghost g: Gap)
    returns (n: nat, k: int, inex: Inexact)
    requires !v.More? && n0 + 1 < s.Length && AllDigits(s[..n0]) && (n0 > 0 ==> s[0] != '0')
    requires g.S > 0 && VerdictRight(g, n0, DigitsValue(s[..n0]), v)
    modifies s
    ensures Written(s[..], n, k - k0, inex, g)
  {
    hide *;
    ghost var before, D := s[..n0], DigitsValue(s[..n0]);
    VerdictMeans(g, n0, D, v);
    match v {
      case Last(d, flag) =>
        DigitsSnoc(before, d);
        k, inex := k0, flag;
        n := EmitLast(s, n0, d);
        FirstDigit(before, d);
        assert s[0] == s[..n][0];
        PrintedPlain(s[..n]);
      case Nine =>
        inex := Inexhi;
        n, k := EmitNine(s, k0);
        assert s[0] == s[..n][0];
        PrintedTen();
    }
    assert s[..][..n] == s[..n];
    IsWritten(s[..], n, k - k0, inex, g);
  }

  lemma VerdictMeans(g: Gap, n: nat, D0: nat, v: Verdict)
    requires g.S > 0 && VerdictRight(g, n, D0, v) && !v.More?
    ensures match v
      case Last(d, flag) =>
        d <= 9 && (n == 0 ==> d > 0) && Shortest(g, n + 1, 10 * D0 + d) && FlagIs(flag, g, n, 10 * D0 + d)
      case Nine =>
        n == 0 && Shortest(g, 1, 10) && FlagIs(Inexhi, g, 0, 10) && !FlagMisnames(g, 0)
  {
    hide Shortest, FlagIs, FlagMisnames;
  }

  lemma FirstDigit(s: seq<char>, d: nat)
    requires d <= 9 && if |s| == 0 then d > 0 else s[0] != '0'
    ensures (s + [DigitChar(d)])[0] != '0'
  {
  }

  lemma IsWritten(s: seq<char>, n: nat, grown: int, inex: Inexact, g: Gap)
    requires g.S > 0 && 0 < n < |s| && s[n] == '\0' && AllDigits(s[..n]) && s[0] != '0'
    requires grown == 0 || (grown == 1 && n == 1 && !FlagMisnames(g, 0))
    requires Shortest(g, n, Printed(s[..n], grown)) && FlagIs(inex, g, n - 1, Printed(s[..n], grown))
    ensures Written(s, n, grown, inex, g)
  {
  }

  /** b over S lies between 1 and 10. The decimal goes to s, its end marked; k grows by one when the
      text becomes a 1 in front of where its first digit stood. */
  method GenerateDigits(b0: Bigint, S: Bigint, mlo0: Bigint, mhi0: Bigint, even: bool, k0: int, s: array<char>,
                        ghost g: Gap)
    returns (n: nat, k: int, inex: Inexact)
    requires Ready(b0, S, mlo0, mhi0)
    requires g == Gap(b0.Value(), S.Value(), mlo0.Value(), mhi0.Value(), even) && Binary(g)
    requires s.Length >= 2 && g.S < 2 * (g.lo * Pow(10, s.Length - 2))
    modifies b0, b0.x, mlo0, mlo0.x, mhi0, mhi0.x, s
    ensures Written(s[..], n, k - k0, inex, g)
  {
    hide Words.Value, Pow, InLoop, VerdictRight, Written, Ready, DigitsValue;
    var b, mlo, mhi := b0, mlo0, mhi0;
    n := 0;
    LoopStart(b, S, mlo, mhi, g);
    NoDigits();
    assert s[..n] == [];
    while true
      invariant n + 1 < s.Length && AllDigits(s[..n]) && (n > 0 ==> s[0] != '0')
      invariant InLoop(b, S, mlo, mhi, g, n, DigitsValue(s[..n]))
      invariant b == b0 || (fresh(b) && fresh(b.x))
      invariant mlo == mlo0 || (fresh(mlo) && fresh(mlo.x))
      invariant mhi == mhi0 || (fresh(mhi) && fresh(mhi.x))
      decreases s.Length - n
    {
      var dig, v;
      dig, v, b, mlo, mhi := Pass(b, S, mlo, mhi, g, n, DigitsValue(s[..n]), s.Length, even);
      if !v.More? {
        n, k, inex := Finish(s, n, v, k0, g);
        return;
      }
      n := PutDigit(s, n, dig);
    }
  }
}
