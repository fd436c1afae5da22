/** Strings of decimal digits and the carry that rounds one up. */
module Digits {
  import opened Words

  predicate IsDigit(c: char)
  {
    '0' <= c <= '9'
  }

  predicate AllDigits(s: seq<char>)
  {
    forall i :: 0 <= i < |s| ==> IsDigit(s[i])
  }

  function DigitChar(d: nat): (c: char)
    requires d <= 9
    ensures IsDigit(c)
  {
    '0' + d as char
  }

  function CharDigit(c: char): (d: nat)
    requires IsDigit(c)
    ensures d <= 9
  {
    (c - '0') as nat
  }

  /** The ten digits by their values. */
  lemma DecimalDigitsAre(d: nat)
    requires d < 10
    ensures IsDigit("0123456789"[d]) && CharDigit("0123456789"[d]) == d && DigitChar(d) == "0123456789"[d]
  {
  }

  /** The number a string of digits spells. */
  function DigitsValue(s: seq<char>): nat
    requires AllDigits(s)
  {
    if |s| == 0 then 0 else 10 * DigitsValue(s[..|s| - 1]) + CharDigit(s[|s| - 1])
  }

  lemma NoDigits()
    ensures AllDigits([]) && DigitsValue([]) == 0
  {
  }

  lemma DigitsSnoc(s: seq<char>, d: nat)
    requires AllDigits(s) && d <= 9
    ensures AllDigits(s + [DigitChar(d)])
    ensures DigitsValue(s + [DigitChar(d)]) == 10 * DigitsValue(s) + d
  {
    assert (s + [DigitChar(d)])[..|s|] == s;
  }

  lemma {:induction false} DigitsBelow(s: string)
    requires AllDigits(s)
    ensures DigitsValue(s) < Pow(10, |s|)
  {
    if |s| > 0 {
      DigitsBelow(s[..|s| - 1]);
    }
  }

  lemma {:induction false} FirstDigitCounts(s: seq<char>)
    requires AllDigits(s) && |s| > 0 && s[0] != '0'
    ensures Pow(10, |s| - 1) <= DigitsValue(s)
  {
    if |s| > 1 {
      FirstDigitCounts(s[..|s| - 1]);
    }
  }

  lemma {:induction false} Nines(s: seq<char>)
    requires forall i :: 0 <= i < |s| ==> s[i] == '9'
    ensures DigitsValue(s) + 1 == Pow(10, |s|)
  {
    if |s| > 0 {
      Nines(s[..|s| - 1]);
    }
  }

  /** Digits and then nines: the carry runs through the nines. */
  lemma {:induction false} CarryThroughNines(s: seq<char>, n: nat)
    requires n <= |s| && AllDigits(s) && forall i :: n <= i < |s| ==> s[i] == '9'
    ensures DigitsValue(s) + 1 == (DigitsValue(s[..n]) + 1) * Pow(10, |s| - n)
  {
    if n == |s| {
      assert s[..n] == s;
    } else {
      var s' := s[..|s| - 1];
      CarryThroughNines(s', n);
      assert s'[..n] == s[..n];
      TimesTen(DigitsValue(s[..n]) + 1, Pow(10, |s| - 1 - n));
      assert Pow(10, |s| - n) == 10 * Pow(10, |s| - 1 - n);
      assert DigitsValue(s) + 1 == 10 * (DigitsValue(s') + 1);
    }
  }

  lemma TimesTen(a: nat, p: nat)
    ensures 10 * (a * p) == a * (10 * p)
  {
  }

  /** roundoff: adds one to the last of the n digits, in place. Nines are dropped; when all were
      nines a single 1 stays and the exponent grows. */
  method RoundOff(s: array<char>, n0: nat, k0: int) returns (n: nat, k: int)
    requires 0 < n0 <= s.Length && AllDigits(s[..n0])
    modifies s
    ensures 0 < n <= n0 && AllDigits(s[..n])
    ensures if k == k0 then DigitsValue(s[..n]) * Pow(10, n0 - n) == old(DigitsValue(s[..n0])) + 1
      else k == k0 + 1 && n == 1 && s[0] == '1' && old(DigitsValue(s[..n0])) + 1 == Pow(10, n0)
    ensures n < n0 || k != k0 || s[..n0 - 1] == old(s[..n0 - 1])
  {
    hide Pow, DigitsValue;
    n, k := n0, k0;
    while true
      invariant 0 < n <= n0 && k == k0
      invariant s[..n0] == old(s[..n0])
      invariant forall i :: n <= i < n0 ==> s[i] == '9'
      decreases n
    {
      n := n - 1;
      if s[n] != '9' {
        break;
      }
      if n == 0 {
        Nines(s[..n0]);
        s[0] := '1';
        return 1, k + 1;
      }
    }
    ghost var t := s[..n0];
    CarryEnd(t, n);
    s[n] := s[n] + 1 as char;
    n := n + 1;
    assert s[..n] == t[..n - 1] + [t[n - 1] + 1 as char];
  }

  lemma CarryEnd(t: seq<char>, n: nat)
    requires n < |t| && AllDigits(t) && t[n] != '9' && forall i :: n < i < |t| ==> t[i] == '9'
    ensures IsDigit(t[n] + 1 as char) && AllDigits(t[..n] + [t[n] + 1 as char])
    ensures DigitsValue(t[..n] + [t[n] + 1 as char]) * Pow(10, |t| - n - 1) == DigitsValue(t) + 1
  {
    hide Pow, DigitsValue;
    CarryThroughNines(t, n + 1);
    var d := CharDigit(t[n]);
    assert t[n] + 1 as char == DigitChar(d + 1) && t[n] == DigitChar(d);
    assert t[..n + 1] == t[..n] + [DigitChar(d)];
    DigitsSnoc(t[..n], d);
    DigitsSnoc(t[..n], d + 1);
  }
}
