/** bitrv2 and bitrv2conj: the bit-reversal permutation of an array of complex numbers, in place. */
module BitReversal {
  import opened Words
  import opened Complex

  /** The b low bits of j in reverse order. */
  function Rev(b: nat, j: nat): (r: nat)
    ensures r < Pow(2, b)
    decreases b
  {
    if b == 0 then 0 else j % 2 * Pow(2, b - 1) + Rev(b - 1, j / 2)
  }

  /** Reversal swaps the low and the high part of an index and reverses both. */
  lemma {:induction false} RevParts(a: nat, b: nat, x: nat, y: nat)
    requires x < Pow(2, a)
    ensures Rev(a + b, x + Pow(2, a) * y) == Rev(b, y) + Pow(2, b) * Rev(a, x)
    decreases a
  {
    if a > 0 {
      RevParts(a - 1, b, x / 2, y);
      PowAdd(2, a - 1, b);
      RevStep(x, Pow(2, a - 1), y, Pow(2, b), Rev(a - 1, x / 2));
    }
  }

  lemma RevStep(x: nat, p: nat, y: nat, q: nat, r: nat)
    ensures (x + (2 * p) * y) % 2 == x % 2
    ensures (x + (2 * p) * y) / 2 == x / 2 + p * y
    ensures x % 2 * (p * q) + q * r == q * (x % 2 * p + r)
  {
    MulAssoc(2, p, y);
  }

  lemma {:induction false} RevTwice(b: nat, j: nat)
    requires j < Pow(2, b)
    ensures Rev(b, Rev(b, j)) == j
    decreases b
  {
    if b > 0 {
      var d, r := j % 2, Rev(b - 1, j / 2);
      assert Pow(2, b) == 2 * Pow(2, b - 1) && Pow(2, 1) == 2 && Rev(1, d) == d;
      assert Rev(b, j) == r + Pow(2, b - 1) * d;
      hide Pow, Rev;
      RevTwice(b - 1, j / 2);
      RevParts(b - 1, 1, r, d);
    }
  }

  /** One more bit on top of the index. */
  lemma RevGrows(b: nat, j: nat)
    requires j < Pow(2, b)
    ensures Rev(b + 1, j) == 2 * Rev(b, j)
    ensures Rev(b + 1, Pow(2, b) + j) == 2 * Rev(b, j) + 1
  {
    RevParts(b, 1, j, 0);
    RevParts(b, 1, j, 1);
    assert Rev(1, 0) == 0 && Rev(1, 1) == 1 && Pow(2, 1) == 2;
  }

  /** s with entry p where entry Rev(p) was. */
  function Reversed(b: nat, s: seq<C>): (r: seq<C>)
    requires |s| == Pow(2, b)
    ensures |r| == |s|
  {
    seq(|s|, p requires 0 <= p < |s| => s[Rev(b, p)])
  }

  lemma ReversedTwice(b: nat, s: seq<C>)
    requires |s| == Pow(2, b)
    ensures Reversed(b, Reversed(b, s)) == s
  {
    forall p | 0 <= p < |s| ensures Reversed(b, Reversed(b, s))[p] == s[p] {
      RevTwice(b, p);
    }
  }

  /** The index with low part j, middle part c and high part the reversal of k. */
  function Place(h: nat, t: nat, j: nat, c: nat, k: nat): nat
  {
    j + Pow(2, h) * (c + Pow(2, t) * Rev(h, k))
  }

  /** The parts of an index. */
  function Low(h: nat, p: nat): nat
  {
    p % Pow(2, h)
  }

  function Middle(h: nat, t: nat, p: nat): nat
  {
    p / Pow(2, h) % Pow(2, t)
  }

  function High(h: nat, t: nat, p: nat): nat
  {
    Rev(h, p / Pow(2, h) / Pow(2, t))
  }

  lemma PlaceParts(h: nat, t: nat, j: nat, c: nat, k: nat)
    requires j < Pow(2, h) && c < Pow(2, t) && k < Pow(2, h)
    ensures Place(h, t, j, c, k) < Pow(2, h + (t + h))
    ensures Low(h, Place(h, t, j, c, k)) == j && High(h, t, Place(h, t, j, c, k)) == k
    ensures Middle(h, t, Place(h, t, j, c, k)) == c
  {
    RevTwice(h, k);
    PowAdd(2, h, t + h);
    PowAdd(2, t, h);
    hide Pow, Rev;
    var m, q, r := Pow(2, h), Pow(2, t), Rev(h, k);
    QuotientIs(j + m * (c + q * r), m, c + q * r, j);
    QuotientIs(c + q * r, q, r, c);
    Below(c, q, r, m);
    Below(j, m, c + q * r, q * m);
  }

  lemma Below(x: nat, p: nat, y: nat, q: nat)
    requires x < p && y < q
    ensures x + p * y < p * q
  {
    MulMono(p, y + 1, q);
    Distribute(p, y, 1);
  }

  lemma AnyPlace(h: nat, t: nat, p: nat)
    requires p < Pow(2, h + (t + h))
    ensures Low(h, p) < Pow(2, h) && Middle(h, t, p) < Pow(2, t) && High(h, t, p) < Pow(2, h)
    ensures p == Place(h, t, Low(h, p), Middle(h, t, p), High(h, t, p))
  {
    PowAdd(2, h, t + h);
    PowAdd(2, t, h);
    hide *;
    var x, r, y, c := SplitTwice(p, Pow(2, h), Pow(2, t));
    PartsAre(h, t, p, x, r, y, c);
    RevTwice(h, y);
    PlaceIs(h, t, p, r, c, y, Rev(h, y));
  }

  /** p is x times m and r more. */
  ghost predicate Division(p: nat, m: nat, x: nat, r: nat)
  {
    m > 0 && x == p / m && r == p % m
  }

  lemma Divide(p: nat, m: nat) returns (x: nat, r: nat)
    requires m > 0
    ensures Division(p, m, x, r) && p == m * x + r && r < m
  {
    x, r := p / m, p % m;
  }

  lemma SplitTwice(p: nat, m: nat, q: nat) returns (x: nat, r: nat, y: nat, c: nat)
    requires m > 0 && q > 0 && p < m * (q * m)
    ensures Division(p, m, x, r) && Division(x, q, y, c)
    ensures r < m && c < q && y < m && p == r + m * (c + q * y)
  {
    hide Division;
    x, r := Divide(p, m);
    y, c := Divide(x, q);
    SplitParts(p, m, x, r, q, y, c);
  }

  lemma PartsAre(h: nat, t: nat, p: nat, x: nat, r: nat, y: nat, c: nat)
    requires Division(p, Pow(2, h), x, r) && Division(x, Pow(2, t), y, c)
    ensures Low(h, p) == r && Middle(h, t, p) == c && High(h, t, p) == Rev(h, y)
  {
    hide Pow, Rev;
  }

  lemma PlaceIs(h: nat, t: nat, p: nat, j: nat, c: nat, y: nat, k: nat)
    requires Rev(h, k) == y && p == j + Pow(2, h) * (c + Pow(2, t) * y)
    ensures p == Place(h, t, j, c, k)
  {
    hide Pow, Rev;
  }

  lemma SplitParts(p: nat, m: nat, x: nat, r: nat, q: nat, y: nat, c: nat)
    requires p == m * x + r && x == q * y + c && r < m && c < q && p < m * (q * m)
    ensures y < m && p == r + m * (c + q * y)
  {
    Nested(p, m, x, r, q, y, c);
    if x >= q * m {
      MulMono(m, q * m, x);
    }
    if y >= m {
      MulMono(q, m, y);
    }
  }

  lemma Nested(p: nat, m: nat, x: nat, r: nat, q: nat, y: nat, c: nat)
    requires p == m * x + r && x == q * y + c
    ensures p == r + m * (c + q * y)
  {
  }

  /** Reversal changes the low and the high part over and reverses the middle part. */
  lemma PlaceReversed(h: nat, t: nat, j: nat, c: nat, k: nat)
    requires j < Pow(2, h) && c < Pow(2, t) && k < Pow(2, h)
    ensures Rev(h + (t + h), Place(h, t, j, c, k)) == Place(h, t, k, Rev(t, c), j)
  {
    RevParts(h, t + h, j, c + Pow(2, t) * Rev(h, k));
    RevParts(t, h, c, Rev(h, k));
    RevTwice(h, k);
    PowAdd(2, t, h);
    hide Pow, Rev;
    PlaceSum(k, Pow(2, h), Rev(t, c), Pow(2, t), Rev(h, j));
  }

  lemma PlaceSum(k: nat, m: nat, c: nat, q: nat, r: nat)
    ensures k + m * c + (q * m) * r == k + m * (c + q * r)
  {
    Distribute(m, c, q * r);
    MulAssoc(m, q, r);
  }

  /** A number as it is or conjugated. */
  function Turn(conj: bool, z: C): C
  {
    if conj then Conj(z) else z
  }

  /** The entries in done have gone to their reversed places, conjugated if need be; the others are as they were. */
  ghost predicate Mixed(b: nat, conj: bool, s0: seq<C>, s: seq<C>, done: set<nat>)
  {
    |s0| == |s| == Pow(2, b) &&
    (forall p :: p in done ==> p < |s| && Rev(b, p) in done) &&
    forall p: nat :: p < |s| ==> s[p] == if p in done then Turn(conj, s0[Rev(b, p)]) else s0[p]
  }

  lemma MixedSwap(b: nat, conj: bool, s0: seq<C>, s: seq<C>, done: set<nat>, p: nat, q: nat, s': seq<C>)
    requires Mixed(b, conj, s0, s, done) && p < |s| && q == Rev(b, p) && p !in done
    requires s' == s[p := Turn(conj, s[q])][q := Turn(conj, s[p])]
    ensures Mixed(b, conj, s0, s', done + {p, q}) && (p != q ==> q !in done)
  {
    RevTwice(b, p);
  }

  /** Swaps the entries that start at j1 and k1, conjugating both for the backward transform. */
  method Exchange(conj: bool, n: nat, a: array<real>, j1: nat, k1: nat,
                  ghost b: nat, ghost s0: seq<C>, ghost done: set<nat>, ghost p: nat, ghost q: nat)
    requires n <= a.Length && n == 2 * Pow(2, b) && j1 == 2 * p && k1 == 2 * q && p < Pow(2, b)
    requires Mixed(b, conj, s0, Entries(a, n), done) && q == Rev(b, p) && p != q && p !in done
    modifies a
    ensures Mixed(b, conj, s0, Entries(a, n), done + {p, q})
    ensures forall i :: n <= i < a.Length ==> a[i] == old(a[i])
  {
    hide Mixed, Rev, Pow;
    ghost var s := Entries(a, n);
    var xr, xi := a[j1], if conj then -a[j1 + 1] else a[j1 + 1];
    var yr, yi := a[k1], if conj then -a[k1 + 1] else a[k1 + 1];
    a[j1] := yr;
    a[j1 + 1] := yi;
    a[k1] := xr;
    a[k1 + 1] := xi;
    assert Entries(a, n) == s[p := Turn(conj, s[q])][q := Turn(conj, s[p])];
    MixedSwap(b, conj, s0, s, done, p, q, Entries(a, n));
  }

  /** An entry that keeps its place is only conjugated. */
  method Keep(conj: bool, n: nat, a: array<real>, k1: nat,
              ghost b: nat, ghost s0: seq<C>, ghost done: set<nat>, ghost p: nat)
    requires n <= a.Length && n == 2 * Pow(2, b) && k1 == 2 * p && p < Pow(2, b)
    requires Mixed(b, conj, s0, Entries(a, n), done) && p == Rev(b, p) && p !in done
    modifies a
    ensures Mixed(b, conj, s0, Entries(a, n), done + {p, p})
    ensures forall i :: n <= i < a.Length ==> a[i] == old(a[i])
  {
    hide Mixed, Rev, Pow;
    ghost var s := Entries(a, n);
    if conj {
      a[k1 + 1] := -a[k1 + 1];
    }
    assert Entries(a, n) == s[p := Turn(conj, s[p])][p := Turn(conj, s[p])];
    MixedSwap(b, conj, s0, s, done, p, p, Entries(a, n));
  }

  /** ip[off..] holds the reversals of the first m indices, l apart. */
  ghost predicate Indexed(ip: array<nat>, off: nat, l: nat, m: nat, h: nat)
    reads ip
  {
    off + m <= ip.Length && forall j :: 0 <= j < m ==> ip[off + j] == l * Rev(h, j)
  }

  /** The table of reversals, doubled until eight times its length reaches what is left of n:
      ip[j] is l times the reversal of j. */
  method MakeIndex(n: nat, ip: array<nat>, off: nat, ghost e: nat) returns (l: nat, m: nat, ghost h: nat)
    requires n == Pow(2, e) && e >= 1 && off + Pow(2, (e - 1) / 2) <= ip.Length
    modifies ip
    ensures h < e && m == Pow(2, h) && l == Pow(2, e - h) && h <= (e - 1) / 2
    ensures e == 2 * h + 2 || e == 2 * h + 3 || (e == 1 && h == 0)
    ensures Indexed(ip, off, l, m, h)
    ensures forall j :: 0 <= j < off ==> ip[j] == old(ip[j])
  {
    hide Pow, Rev;
    RevZero();
    PowMono(2, 0, (e - 1) / 2);
    ip[off] := 0;
    assert Indexed(ip, off, n, 1, 0);
    hide Indexed;
    l, m, h := n, 1, 0;
    while m * 8 < l
      invariant h < e && m == Pow(2, h) && l == Pow(2, e - h) && h <= (e - 1) / 2
      invariant h == 0 || e >= 2 * h + 2
      invariant Indexed(ip, off, l, m, h)
      invariant forall j :: 0 <= j < off ==> ip[j] == old(ip[j])
      decreases l
    {
      GuardMeans(h, e);
      PowMono(2, h + 1, (e - 1) / 2);
      l := l / 2;
      DoubleIndex(ip, off, l, m, h, h + 1);
      m := 2 * m;
      h := h + 1;
    }
    GuardFails(h, e);
  }

  lemma RevZero()
    ensures Rev(0, 0) == 0 && Pow(2, 0) == 1
  {
  }

  lemma GuardMeans(h: nat, e: nat)
    requires h < e && Pow(2, h) * 8 < Pow(2, e - h)
    ensures 2 * h + 3 < e
    ensures Pow(2, e - h) == 2 * Pow(2, e - h - 1) && Pow(2, h + 1) == 2 * Pow(2, h)
  {
    PowAdd(2, h, 3);
    assert Pow(2, 3) == 8;
    if e - h <= h + 3 {
      PowMono(2, e - h, h + 3);
    }
  }

  lemma GuardFails(h: nat, e: nat)
    requires h < e && Pow(2, h) * 8 >= Pow(2, e - h)
    ensures e <= 2 * h + 3
  {
    PowAdd(2, h, 3);
    assert Pow(2, 3) == 8;
    if h + 3 < e - h {
      PowStrict(2, h + 3, e - h);
    }
  }

  /** The upper half of the table from the lower one. */
  method DoubleIndex(ip: array<nat>, off: nat, l: nat, m: nat, ghost h: nat, ghost h': nat)
    requires off + 2 * m <= ip.Length && m == Pow(2, h) && h' == h + 1 && Indexed(ip, off, 2 * l, m, h)
    modifies ip
    ensures Indexed(ip, off, l, 2 * m, h')
    ensures forall j :: 0 <= j < off ==> ip[j] == old(ip[j])
  {
    hide Pow, Rev;
    for j := 0 to m
      invariant forall i :: 0 <= i < m ==> ip[off + i] == (2 * l) * Rev(h, i)
      invariant forall i :: 0 <= i < j ==> ip[off + m + i] == (2 * l) * Rev(h, i) + l
      invariant forall i :: 0 <= i < off ==> ip[i] == old(ip[i])
    {
      ip[off + (m + j)] := ip[off + j] + l;
    }
    forall j | 0 <= j < 2 * m
      ensures ip[off + j] == l * Rev(h', j)
    {
      var i := if j < m then j else j - m;
      RevGrows(h, i);
      TwiceReversal(l, Rev(h, i));
      assert j >= m ==> ip[off + m + i] == (2 * l) * Rev(h, i) + l;
    }
  }

  lemma TwiceReversal(l: nat, r: nat)
    ensures (2 * l) * r == l * (2 * r) && (2 * l) * r + l == l * (2 * r + 1)
  {
    MulSwap(2, l, 1, r);
    Distribute(l, 2 * r, 1);
  }

  /** The loops have dealt with the index before they come to (k, j). */
  predicate Before(h: nat, t: nat, p: nat, k: nat, j: nat)
  {
    var x, y := Low(h, p), High(h, t, p);
    if x < y then y < k || (y == k && x < j) else x < k || (x == k && y < j)
  }

  function Done(h: nat, t: nat, k: nat, j: nat): set<nat>
  {
    set p: nat | p < Pow(2, h + (t + h)) && Before(h, t, p, k, j)
  }

  /** An index with parts j, c and k, where it goes, and the place in the array it stands for. */
  lemma PlaceFacts(h: nat, t: nat, j: nat, c: nat, k: nat)
    requires j < Pow(2, h) && c < Pow(2, t) && k < Pow(2, h)
    ensures var p := Place(h, t, j, c, k);
      p < Pow(2, h + (t + h)) && Low(h, p) == j && High(h, t, p) == k && Middle(h, t, p) == c &&
      Rev(h + (t + h), p) == Place(h, t, k, Rev(t, c), j) &&
      2 * p == 2 * Place(h, t, j, 0, k) + c * (2 * Pow(2, h))
  {
    hide Pow, Rev, Low, High, Middle, Place;
    PlaceParts(h, t, j, c, k);
    PlaceReversed(h, t, j, c, k);
    MiddleSteps(h, t, j, c, k);
  }

  lemma MiddleSteps(h: nat, t: nat, j: nat, c: nat, k: nat)
    ensures 2 * Place(h, t, j, c, k) == 2 * Place(h, t, j, 0, k) + c * (2 * Pow(2, h))
  {
    hide Pow, Rev;
    Distribute(Pow(2, h), c, Pow(2, t) * Rev(h, k));
    MulSwap(1, c, 2, Pow(2, h));
  }

  /** The same, and of the indices with parts j and k, either way round, those whose middle part, counted
      with j low, is in cs. */
  function Part(h: nat, t: nat, k: nat, j: nat, cs: set<nat>): set<nat>
  {
    set p: nat | p < Pow(2, h + (t + h)) &&
      (Before(h, t, p, k, j) || (Low(h, p) == j && High(h, t, p) == k && Middle(h, t, p) in cs) ||
       (Low(h, p) == k && High(h, t, p) == j && Rev(t, Middle(h, t, p)) in cs))
  }

  lemma PartStarts(h: nat, t: nat, k: nat, j: nat)
    ensures Part(h, t, k, j, {}) == Done(h, t, k, j)
  {
  }

  /** With every middle part, or its reversal on the diagonal, (k, j) is done. */
  lemma PartEnds(h: nat, t: nat, k: nat, j: nat, cs: set<nat>)
    requires j <= k
    requires forall c: nat :: c < Pow(2, t) ==> c in cs || (j == k && Rev(t, c) in cs)
    requires forall c: nat :: c < Pow(2, t) ==> Rev(t, c) in cs || (j == k && c in cs)
    ensures Part(h, t, k, j, cs) == Done(h, t, k, j + 1)
  {
    hide Pow, Rev, Low, High, Middle;
    forall p: nat | p < Pow(2, h + (t + h))
      ensures p in Part(h, t, k, j, cs) <==> p in Done(h, t, k, j + 1)
    {
      AnyPlace(h, t, p);
    }
  }

  lemma PartStep(h: nat, t: nat, k: nat, j: nat, cs: set<nat>, c: nat)
    requires j <= k < Pow(2, h) && c < Pow(2, t) && c !in cs && (j == k ==> Rev(t, c) !in cs)
    ensures Place(h, t, j, c, k) !in Part(h, t, k, j, cs)
    ensures Part(h, t, k, j, cs + {c}) == Part(h, t, k, j, cs) + {Place(h, t, j, c, k), Place(h, t, k, Rev(t, c), j)}
  {
    hide Pow, Rev, Low, High, Middle, Place;
    PlaceFacts(h, t, j, c, k);
    PlaceFacts(h, t, k, Rev(t, c), j);
    RevTwice(t, c);
    forall p: nat | p < Pow(2, h + (t + h))
      ensures p in Part(h, t, k, j, cs + {c}) <==>
        p in Part(h, t, k, j, cs) || p == Place(h, t, j, c, k) || p == Place(h, t, k, Rev(t, c), j)
    {
      AnyPlace(h, t, p);
      RevTwice(t, Middle(h, t, p));
    }
  }

  lemma SamePlace(h: nat, t: nat, j: nat, c: nat, k: nat)
    requires j < Pow(2, h) && c < Pow(2, t) && k < Pow(2, h)
    ensures Place(h, t, j, c, k) == Place(h, t, k, Rev(t, c), j) ==> j == k && Rev(t, c) == c
  {
    hide Pow, Rev, Low, High, Middle, Place;
    PlaceFacts(h, t, j, c, k);
    PlaceFacts(h, t, k, Rev(t, c), j);
  }

  /** Swaps the entries with parts j, c, k and k, reversed c, j. */
  method SwapAt(conj: bool, n: nat, a: array<real>, j1: nat, k1: nat,
                ghost h: nat, ghost t: nat, ghost s0: seq<C>, ghost j: nat, ghost c: nat, ghost k: nat,
                ghost cs: set<nat>)
    requires n <= a.Length && n == 2 * Pow(2, h + (t + h)) && j <= k < Pow(2, h) && c < Pow(2, t) && c !in cs
    requires j == k ==> Rev(t, c) !in cs && Rev(t, c) != c
    requires j1 == 2 * Place(h, t, j, c, k) && k1 == 2 * Place(h, t, k, Rev(t, c), j)
    requires Mixed(h + (t + h), conj, s0, Entries(a, n), Part(h, t, k, j, cs))
    modifies a
    ensures Mixed(h + (t + h), conj, s0, Entries(a, n), Part(h, t, k, j, cs + {c}))
    ensures forall i :: n <= i < a.Length ==> a[i] == old(a[i])
  {
    hide Pow, Rev, Low, High, Middle, Place, Mixed, Part, Entries;
    PlaceFacts(h, t, j, c, k);
    SamePlace(h, t, j, c, k);
    PartStep(h, t, k, j, cs, c);
    Exchange(conj, n, a, j1, k1, h + (t + h), s0, Part(h, t, k, j, cs), Place(h, t, j, c, k),
      Place(h, t, k, Rev(t, c), j));
  }

  /** An entry on the diagonal whose middle part is its own reversal. */
  method KeepAt(conj: bool, n: nat, a: array<real>, k1: nat,
                ghost h: nat, ghost t: nat, ghost s0: seq<C>, ghost c: nat, ghost k: nat, ghost cs: set<nat>)
    requires n <= a.Length && n == 2 * Pow(2, h + (t + h)) && k < Pow(2, h) && c < Pow(2, t) && c !in cs
    requires Rev(t, c) == c
    requires k1 == 2 * Place(h, t, k, c, k)
    requires Mixed(h + (t + h), conj, s0, Entries(a, n), Part(h, t, k, k, cs))
    modifies a
    ensures Mixed(h + (t + h), conj, s0, Entries(a, n), Part(h, t, k, k, cs + {c}))
    ensures forall i :: n <= i < a.Length ==> a[i] == old(a[i])
  {
    hide Pow, Rev, Low, High, Middle, Place, Mixed, Part, Entries;
    PlaceFacts(h, t, k, c, k);
    PartStep(h, t, k, k, cs, c);
    Keep(conj, n, a, k1, h + (t + h), s0, Part(h, t, k, k, cs), Place(h, t, k, c, k));
  }

  lemma RevFour()
    ensures Rev(2, 0) == 0 && Rev(2, 1) == 2 && Rev(2, 2) == 1 && Rev(2, 3) == 3 && Pow(2, 2) == 4
    ensures Rev(1, 0) == 0 && Rev(1, 1) == 1 && Pow(2, 1) == 2
  {
    assert Pow(2, 1) == 2 && Rev(0, 0) == 0 && Rev(0, 1) == 0;
    assert Rev(1, 0) == 0 && Rev(1, 1) == 1;
  }

  /** One off-diagonal step when n is eight times a square: four swaps. */
  method SwapFour(conj: bool, n: nat, a: array<real>, j1_0: nat, k1_0: nat, m2: nat,
                  ghost h: nat, ghost s0: seq<C>, ghost j: nat, ghost k: nat)
    requires n <= a.Length && n == 2 * Pow(2, h + (2 + h)) && m2 == 2 * Pow(2, h) && j < k < Pow(2, h)
    requires j1_0 == 2 * Place(h, 2, j, 0, k) && k1_0 == 2 * Place(h, 2, k, 0, j)
    requires Mixed(h + (2 + h), conj, s0, Entries(a, n), Done(h, 2, k, j))
    modifies a
    ensures Mixed(h + (2 + h), conj, s0, Entries(a, n), Done(h, 2, k, j + 1))
    ensures forall i :: n <= i < a.Length ==> a[i] == old(a[i])
  {
    RevFour();
    hide Pow, Rev, Place, Mixed, Done, Part;
    PartStarts(h, 2, k, j);
    forall c: nat | c < 4
      ensures 2 * Place(h, 2, j, c, k) == j1_0 + c * m2 && 2 * Place(h, 2, k, c, j) == k1_0 + c * m2
    {
      MiddleSteps(h, 2, j, c, k);
      MiddleSteps(h, 2, k, c, j);
    }
    var j1, k1 := j1_0, k1_0;
    SwapAt(conj, n, a, j1, k1, h, 2, s0, j, 0, k, {});
    j1, k1 := j1 + m2, k1 + 2 * m2;
    SwapAt(conj, n, a, j1, k1, h, 2, s0, j, 1, k, {} + {0});
    j1, k1 := j1 + m2, k1 - m2;
    SwapAt(conj, n, a, j1, k1, h, 2, s0, j, 2, k, {} + {0} + {1});
    j1, k1 := j1 + m2, k1 + 2 * m2;
    SwapAt(conj, n, a, j1, k1, h, 2, s0, j, 3, k, {} + {0} + {1} + {2});
    PartEnds(h, 2, k, j, {} + {0} + {1} + {2} + {3});
  }

  /** The diagonal step: the two middle parts 1 and 2 change places, 0 and 3 stay. */
  method DiagonalFour(conj: bool, n: nat, a: array<real>, k1_0: nat, m2: nat, ghost h: nat, ghost s0: seq<C>,
                      ghost k: nat)
    requires n <= a.Length && n == 2 * Pow(2, h + (2 + h)) && m2 == 2 * Pow(2, h) && k < Pow(2, h)
    requires k1_0 == 2 * Place(h, 2, k, 0, k)
    requires Mixed(h + (2 + h), conj, s0, Entries(a, n), Done(h, 2, k, k))
    modifies a
    ensures Mixed(h + (2 + h), conj, s0, Entries(a, n), Done(h, 2, k, k + 1))
    ensures forall i :: n <= i < a.Length ==> a[i] == old(a[i])
  {
    RevFour();
    hide Pow, Rev, Place, Mixed, Done, Part;
    PartStarts(h, 2, k, k);
    forall c: nat | c < 4 ensures 2 * Place(h, 2, k, c, k) == k1_0 + c * m2 {
      MiddleSteps(h, 2, k, c, k);
    }
    var k1 := k1_0;
    KeepAt(conj, n, a, k1, h, 2, s0, 0, k, {});
    var j1 := k1 + m2;
    k1 := j1 + m2;
    SwapAt(conj, n, a, j1, k1, h, 2, s0, k, 1, k, {} + {0});
    k1 := k1 + m2;
    KeepAt(conj, n, a, k1, h, 2, s0, 3, k, {} + {0} + {1});
    PartEnds(h, 2, k, k, {} + {0} + {1} + {3});
  }

  /** One off-diagonal step when n is four times a square: two swaps. */
  method SwapTwo(conj: bool, n: nat, a: array<real>, j1_0: nat, k1_0: nat, m2: nat,
                 ghost h: nat, ghost s0: seq<C>, ghost j: nat, ghost k: nat)
    requires n <= a.Length && n == 2 * Pow(2, h + (1 + h)) && m2 == 2 * Pow(2, h) && j < k < Pow(2, h)
    requires j1_0 == 2 * Place(h, 1, j, 0, k) && k1_0 == 2 * Place(h, 1, k, 0, j)
    requires Mixed(h + (1 + h), conj, s0, Entries(a, n), Done(h, 1, k, j))
    modifies a
    ensures Mixed(h + (1 + h), conj, s0, Entries(a, n), Done(h, 1, k, j + 1))
    ensures forall i :: n <= i < a.Length ==> a[i] == old(a[i])
  {
    RevFour();
    hide Pow, Rev, Place, Mixed, Done, Part;
    PartStarts(h, 1, k, j);
    MiddleSteps(h, 1, j, 1, k);
    MiddleSteps(h, 1, k, 1, j);
    SwapAt(conj, n, a, j1_0, k1_0, h, 1, s0, j, 0, k, {});
    SwapAt(conj, n, a, j1_0 + m2, k1_0 + m2, h, 1, s0, j, 1, k, {} + {0});
    PartEnds(h, 1, k, j, {} + {0} + {1});
  }

  method DiagonalTwo(conj: bool, n: nat, a: array<real>, k1: nat, m2: nat, ghost h: nat, ghost s0: seq<C>, ghost k: nat)
    requires n <= a.Length && n == 2 * Pow(2, h + (1 + h)) && m2 == 2 * Pow(2, h) && k < Pow(2, h)
    requires k1 == 2 * Place(h, 1, k, 0, k)
    requires Mixed(h + (1 + h), conj, s0, Entries(a, n), Done(h, 1, k, k))
    modifies a
    ensures Mixed(h + (1 + h), conj, s0, Entries(a, n), Done(h, 1, k, k + 1))
    ensures forall i :: n <= i < a.Length ==> a[i] == old(a[i])
  {
    RevFour();
    hide Pow, Rev, Place, Mixed, Done, Part;
    PartStarts(h, 1, k, k);
    MiddleSteps(h, 1, k, 1, k);
    KeepAt(conj, n, a, k1, h, 1, s0, 0, k, {});
    KeepAt(conj, n, a, k1 + m2, h, 1, s0, 1, k, {} + {0});
    PartEnds(h, 1, k, k, {} + {0} + {1});
  }

  lemma DoneStarts(h: nat, t: nat, conj: bool, s: seq<C>)
    requires |s| == Pow(2, h + (t + h))
    ensures Mixed(h + (t + h), conj, s, s, Done(h, t, 0, 0))
  {
    assert Done(h, t, 0, 0) == {};
  }

  lemma DoneNext(h: nat, t: nat, k: nat)
    ensures Done(h, t, k, k + 1) == Done(h, t, k + 1, 0)
  {
    hide Pow, Low, High;
  }

  lemma DoneEnds(h: nat, t: nat, conj: bool, s0: seq<C>, s: seq<C>)
    requires |s0| == Pow(2, h + (t + h))
    requires Mixed(h + (t + h), conj, s0, s, Done(h, t, Pow(2, h), 0))
    ensures s == if conj then Conjugates(Reversed(h + (t + h), s0)) else Reversed(h + (t + h), s0)
  {
    hide Pow, Low, High, Middle, Rev;
    var r := if conj then Conjugates(Reversed(h + (t + h), s0)) else Reversed(h + (t + h), s0);
    forall p: nat | p < |s| ensures s[p] == r[p] {
      AnyPlace(h, t, p);
    }
  }

  /** What is read from the index table gives the place of an index in the array. */
  lemma PlaceRead(h: nat, t: nat, j: nat, k: nat, l: nat, ipk: nat)
    requires ipk == l * Rev(h, k) && l == 2 * (Pow(2, t) * Pow(2, h))
    ensures 2 * Place(h, t, j, 0, k) == 2 * j + ipk
  {
    hide Pow, Rev;
    MulAssoc(Pow(2, t), Pow(2, h), Rev(h, k));
    MulAssoc(Pow(2, h), Pow(2, t), Rev(h, k));
    MulAssoc(2, Pow(2, t) * Pow(2, h), Rev(h, k));
  }

  /** The loops for n eight times a square. */
  method SwapByFour(conj: bool, n: nat, ip: array<nat>, off: nat, a: array<real>, l: nat, m: nat, ghost h: nat)
    requires n <= a.Length && n == 2 * Pow(2, h + (2 + h)) && m == Pow(2, h) && l == 8 * m && Indexed(ip, off, l, m, h)
    modifies a
    ensures Entries(a, n) == var r := Reversed(h + (2 + h), old(Entries(a, n))); if conj then Conjugates(r) else r
    ensures forall i :: n <= i < a.Length ==> a[i] == old(a[i])
  {
    RevFour();
    hide Pow, Rev, Place, Mixed, Done, Reversed;
    ghost var b, s0 := h + (2 + h), Entries(a, n);
    DoneStarts(h, 2, conj, s0);
    var m2 := 2 * m;
    for k := 0 to m
      invariant Mixed(b, conj, s0, Entries(a, n), Done(h, 2, k, 0))
      invariant forall i :: n <= i < a.Length ==> a[i] == old(a[i])
    {
      for j := 0 to k
        invariant Mixed(b, conj, s0, Entries(a, n), Done(h, 2, k, j))
        invariant forall i :: n <= i < a.Length ==> a[i] == old(a[i])
      {
        PlaceRead(h, 2, j, k, l, ip[off + k]);
        PlaceRead(h, 2, k, j, l, ip[off + j]);
        SwapFour(conj, n, a, 2 * j + ip[off + k], 2 * k + ip[off + j], m2, h, s0, j, k);
      }
      PlaceRead(h, 2, k, k, l, ip[off + k]);
      DiagonalFour(conj, n, a, 2 * k + ip[off + k], m2, h, s0, k);
      DoneNext(h, 2, k);
    }
    DoneEnds(h, 2, conj, s0, Entries(a, n));
  }

  /** The loops for n four times a square. */
  method SwapByTwo(conj: bool, n: nat, ip: array<nat>, off: nat, a: array<real>, l: nat, m: nat, ghost h: nat)
    requires n <= a.Length && n == 2 * Pow(2, h + (1 + h)) && m == Pow(2, h) && l == 4 * m && Indexed(ip, off, l, m, h)
    modifies a
    ensures Entries(a, n) == var r := Reversed(h + (1 + h), old(Entries(a, n))); if conj then Conjugates(r) else r
    ensures forall i :: n <= i < a.Length ==> a[i] == old(a[i])
  {
    RevFour();
    hide Pow, Rev, Place, Mixed, Done, Reversed;
    ghost var b, s0 := h + (1 + h), Entries(a, n);
    DoneStarts(h, 1, conj, s0);
    var m2 := 2 * m;
    FirstIndex(h, l);
    PlaceRead(h, 1, 0, 0, l, 0);
    DiagonalTwo(conj, n, a, 0, m2, h, s0, 0);
    DoneNext(h, 1, 0);
    for k := 1 to m
      invariant Mixed(b, conj, s0, Entries(a, n), Done(h, 1, k, 0))
      invariant forall i :: n <= i < a.Length ==> a[i] == old(a[i])
    {
      for j := 0 to k
        invariant Mixed(b, conj, s0, Entries(a, n), Done(h, 1, k, j))
        invariant forall i :: n <= i < a.Length ==> a[i] == old(a[i])
      {
        PlaceRead(h, 1, j, k, l, ip[off + k]);
        PlaceRead(h, 1, k, j, l, ip[off + j]);
        SwapTwo(conj, n, a, 2 * j + ip[off + k], 2 * k + ip[off + j], m2, h, s0, j, k);
      }
      PlaceRead(h, 1, k, k, l, ip[off + k]);
      DiagonalTwo(conj, n, a, 2 * k + ip[off + k], m2, h, s0, k);
      DoneNext(h, 1, k);
    }
    DoneEnds(h, 1, conj, s0, Entries(a, n));
  }

  lemma {:induction false} FirstIndex(h: nat, l: nat)
    ensures Rev(h, 0) == 0 && 0 == l * Rev(h, 0)
  {
    if h > 0 {
      FirstIndex(h - 1, l);
    }
  }

  lemma LengthIs(n: nat, e: nat, h: nat, l: nat, m: nat)
    requires (e == 2 * h + 2 || e == 2 * h + 3) && n == Pow(2, e) && m == Pow(2, h) && l == Pow(2, e - h)
    ensures m * 8 == l <==> e == 2 * h + 3
    ensures e == 2 * h + 3 ==> n == 2 * Pow(2, h + (2 + h)) && l == 8 * m
    ensures e == 2 * h + 2 ==> n == 2 * Pow(2, h + (1 + h)) && l == 4 * m
  {
    PowAdd(2, h, 3);
    PowAdd(2, h, 2);
    assert Pow(2, 3) == 8 && Pow(2, 2) == 4;
    assert Pow(2, e) == 2 * Pow(2, e - 1);
    assert e == 2 * h + 3 ==> h + (2 + h) == e - 1;
    assert e == 2 * h + 2 ==> h + (1 + h) == e - 1;
  }

  method BitReverse(conj: bool, n: nat, ip: array<nat>, off: nat, a: array<real>, ghost e: nat)
    requires n == Pow(2, e) && e >= 2 && n <= a.Length && off + Pow(2, (e - 1) / 2) <= ip.Length
    modifies ip, a
    ensures Entries(a, n) == var r := Reversed(e - 1, old(Entries(a, n))); if conj then Conjugates(r) else r
    ensures forall i :: n <= i < a.Length ==> a[i] == old(a[i])
    ensures forall j :: 0 <= j < off ==> ip[j] == old(ip[j])
  {
    hide Pow, Rev, Reversed, Indexed;
    var l, m;
    ghost var h;
    l, m, h := MakeIndex(n, ip, off, e);
    LengthIs(n, e, h, l, m);
    if m * 8 == l {
      SwapByFour(conj, n, ip, off, a, l, m, h);
    } else {
      SwapByTwo(conj, n, ip, off, a, l, m, h);
    }
  }

  /** Moves every complex number to the place whose index is the reversal of its own. */
  method Bitrv2(n: nat, ip: array<nat>, off: nat, a: array<real>, ghost e: nat)
    requires n == Pow(2, e) && e >= 2 && n <= a.Length && off + Pow(2, (e - 1) / 2) <= ip.Length
    modifies ip, a
    ensures Entries(a, n) == Reversed(e - 1, old(Entries(a, n)))
    ensures forall i :: n <= i < a.Length ==> a[i] == old(a[i])
    ensures forall j :: 0 <= j < off ==> ip[j] == old(ip[j])
  {
    BitReverse(false, n, ip, off, a, e);
  }

  /** The same, conjugating every number once. */
  method Bitrv2Conj(n: nat, ip: array<nat>, off: nat, a: array<real>, ghost e: nat)
    requires n == Pow(2, e) && e >= 2 && n <= a.Length && off + Pow(2, (e - 1) / 2) <= ip.Length
    modifies ip, a
    ensures Entries(a, n) == Conjugates(Reversed(e - 1, old(Entries(a, n))))
    ensures forall i :: n <= i < a.Length ==> a[i] == old(a[i])
    ensures forall j :: 0 <= j < off ==> ip[j] == old(ip[j])
  {
    BitReverse(true, n, ip, off, a, e);
  }
}
