/** Two radix-2 stages of the network as one radix-4 pass over all blocks. */
module Passes {
  import opened Words
  import opened Complex
  import opened Dft

  /** The four results of a radix-4 butterfly with factors W1 and W2. */
  function Out0(z0: C, z1: C, z2: C, z3: C): C
  {
    Add(Add(z0, z1), Add(z2, z3))
  }

  function Out1(z0: C, z1: C, z2: C, z3: C, W1: C): C
  {
    Mul(W1, Add(Sub(z0, z1), Mul(I, Sub(z2, z3))))
  }

  function Out2(z0: C, z1: C, z2: C, z3: C, W2: C): C
  {
    Mul(W2, Sub(Add(z0, z1), Add(z2, z3)))
  }

  function Out3(z0: C, z1: C, z2: C, z3: C, W1: C, W2: C): C
  {
    Mul(Mul(W1, W2), Sub(Sub(z0, z1), Mul(I, Sub(z2, z3))))
  }

  function Outs0(q0: seq<C>, q1: seq<C>, q2: seq<C>, q3: seq<C>): (r: seq<C>)
    requires |q0| == |q1| == |q2| == |q3|
    ensures |r| == |q0|
  {
    seq(|q0|, i requires 0 <= i < |q0| => Out0(q0[i], q1[i], q2[i], q3[i]))
  }

  function Outs1(q0: seq<C>, q1: seq<C>, q2: seq<C>, q3: seq<C>, W1: C): (r: seq<C>)
    requires |q0| == |q1| == |q2| == |q3|
    ensures |r| == |q0|
  {
    seq(|q0|, i requires 0 <= i < |q0| => Out1(q0[i], q1[i], q2[i], q3[i], W1))
  }

  function Outs2(q0: seq<C>, q1: seq<C>, q2: seq<C>, q3: seq<C>, W2: C): (r: seq<C>)
    requires |q0| == |q1| == |q2| == |q3|
    ensures |r| == |q0|
  {
    seq(|q0|, i requires 0 <= i < |q0| => Out2(q0[i], q1[i], q2[i], q3[i], W2))
  }

  function Outs3(q0: seq<C>, q1: seq<C>, q2: seq<C>, q3: seq<C>, W1: C, W2: C): (r: seq<C>)
    requires |q0| == |q1| == |q2| == |q3|
    ensures |r| == |q0|
  {
    seq(|q0|, i requires 0 <= i < |q0| => Out3(q0[i], q1[i], q2[i], q3[i], W1, W2))
  }

  /** The butterflies on four quarters. */
  function Quad(q0: seq<C>, q1: seq<C>, q2: seq<C>, q3: seq<C>, W1: C, W2: C): (r: seq<C>)
    requires |q0| == |q1| == |q2| == |q3|
    ensures |r| == 4 * |q0|
  {
    Outs0(q0, q1, q2, q3) + Outs1(q0, q1, q2, q3, W1) + Outs2(q0, q1, q2, q3, W2) + Outs3(q0, q1, q2, q3, W1, W2)
  }

  lemma ButterflyIsTwoStages(z0: C, z1: C, z2: C, z3: C, W1: C, W2: C)
    ensures var w := Mul(I, W1);
      var a0, a1, b0, b1 := Add(z0, z1), Mul(W1, Sub(z0, z1)), Add(z2, z3), Mul(w, Sub(z2, z3));
      Out0(z0, z1, z2, z3) == Add(a0, b0) && Out1(z0, z1, z2, z3, W1) == Add(a1, b1) &&
      Out2(z0, z1, z2, z3, W2) == Mul(W2, Sub(a0, b0)) && Out3(z0, z1, z2, z3, W1, W2) == Mul(W2, Sub(a1, b1))
  {
    hide Mul, Add, Sub;
    var x, y := Sub(z0, z1), Sub(z2, z3);
    MulComm(I, W1);
    CMulAssoc(W1, I, y);
    CDistribute(W1, x, Mul(I, y));
    MulComm(W1, W2);
    CMulAssoc(W2, W1, Sub(x, Mul(I, y)));
  }

  lemma SumsConcat(a: seq<C>, a': seq<C>, b: seq<C>, b': seq<C>, t: C)
    requires |a| == |b| && |a'| == |b'|
    ensures Sums(a + a', b + b') == Sums(a, b) + Sums(a', b')
    ensures Turns(a + a', b + b', t) == Turns(a, b, t) + Turns(a', b', t)
  {
    hide Add, Sub, Mul;
  }

  /** A radix-4 pass is two stages of pairs. */
  lemma QuadIsTwoStages(q0: seq<C>, q1: seq<C>, q2: seq<C>, q3: seq<C>, W1: C, W2: C)
    requires |q0| == |q1| == |q2| == |q3|
    ensures Quad(q0, q1, q2, q3, W1, W2) == Pairwise(Pairwise(q0, q1, W1), Pairwise(q2, q3, Mul(I, W1)), W2)
  {
    var w := Mul(I, W1);
    var s, s', t, t' := Sums(q0, q1), Sums(q2, q3), Turns(q0, q1, W1), Turns(q2, q3, w);
    SumsConcat(s, t, s', t', W2);
    hide Sums, Turns, Mul, Add, Sub, Out0, Out1, Out2, Out3;
    forall i: nat | i < |q0|
      ensures Outs0(q0, q1, q2, q3)[i] == Sums(s, s')[i] && Outs1(q0, q1, q2, q3, W1)[i] == Sums(t, t')[i]
      ensures Outs2(q0, q1, q2, q3, W2)[i] == Turns(s, s', W2)[i]
      ensures Outs3(q0, q1, q2, q3, W1, W2)[i] == Turns(t, t', W2)[i]
    {
      QuadEntry(q0, q1, q2, q3, W1, W2, i);
    }
    assert Outs0(q0, q1, q2, q3) == Sums(s, s') && Outs1(q0, q1, q2, q3, W1) == Sums(t, t');
    assert Outs2(q0, q1, q2, q3, W2) == Turns(s, s', W2) && Outs3(q0, q1, q2, q3, W1, W2) == Turns(t, t', W2);
  }

  lemma QuadEntry(q0: seq<C>, q1: seq<C>, q2: seq<C>, q3: seq<C>, W1: C, W2: C, i: nat)
    requires |q0| == |q1| == |q2| == |q3| && i < |q0|
    ensures var w := Mul(I, W1);
      var s, s', t, t' := Sums(q0, q1), Sums(q2, q3), Turns(q0, q1, W1), Turns(q2, q3, w);
      Out0(q0[i], q1[i], q2[i], q3[i]) == Sums(s, s')[i] && Out1(q0[i], q1[i], q2[i], q3[i], W1) == Sums(t, t')[i] &&
      Out2(q0[i], q1[i], q2[i], q3[i], W2) == Turns(s, s', W2)[i] &&
      Out3(q0[i], q1[i], q2[i], q3[i], W1, W2) == Turns(t, t', W2)[i]
  {
    hide Mul, Add, Sub, Out0, Out1, Out2, Out3;
    ButterflyIsTwoStages(q0[i], q1[i], q2[i], q3[i], W1, W2);
  }

  /** A pass over all blocks of 4h numbers, the first of them block B. */
  function Pass(u: seq<C>, h: nat, s: seq<C>, B: nat): (r: seq<C>)
    requires h > 0
    ensures |r| == |s|
    decreases |s|
  {
    if |s| < 4 * h then s
    else
      Quad(s[..h], s[h..2 * h], s[2 * h..3 * h], s[3 * h..4 * h], Factor(u, 2 * B), Factor(u, B)) +
      Pass(u, h, s[4 * h..], B + 1)
  }

  /** The network on all blocks of 2^k numbers, the first of them block B. */
  function Blocks(u: seq<C>, k: nat, s: seq<C>, B: nat): (r: seq<C>)
    ensures |r| == |s|
    decreases |s|
  {
    if |s| < Pow(2, k) then s
    else Network(u, k, s[..Pow(2, k)], B) + Blocks(u, k, s[Pow(2, k)..], B + 1)
  }

  lemma FactorTurns(u: seq<C>, B: nat)
    requires B == 0 || B < |u|
    ensures Factor(u, 2 * B + 1) == Mul(I, Factor(u, 2 * B))
  {
    hide Mul;
    MulOne(I);
  }

  /** Two stages of the network on one block. */
  lemma TwoStages(u: seq<C>, k: nat, s0: seq<C>, s1: seq<C>, s2: seq<C>, s3: seq<C>, B: nat)
    requires |s0| == |s1| == |s2| == |s3| == Pow(2, k)
    requires Pow(2, k + 1) == 2 * Pow(2, k) && Pow(2, k + 2) == 4 * Pow(2, k)
    requires Factor(u, 2 * B + 1) == Mul(I, Factor(u, 2 * B))
    ensures Network(u, k + 2, (s0 + s1) + (s2 + s3), B) ==
            Quad(Network(u, k, s0, 4 * B), Network(u, k, s1, 4 * B + 1),
                 Network(u, k, s2, 4 * B + 2), Network(u, k, s3, 4 * B + 3), Factor(u, 2 * B), Factor(u, B))
  {
    hide *;
    var n0, n1, n2, n3 := Network(u, k, s0, 4 * B), Network(u, k, s1, 4 * B + 1),
      Network(u, k, s2, 4 * B + 2), Network(u, k, s3, 4 * B + 3);
    assert Network(u, k + 1, s0 + s1, 2 * B) == Pairwise(n0, n1, Factor(u, 2 * B)) by {
      UnfoldNetwork(u, k + 1, s0, s1, 2 * B, k, 4 * B, 4 * B + 1);
    }
    assert Network(u, k + 1, s2 + s3, 2 * B + 1) == Pairwise(n2, n3, Factor(u, 2 * B + 1)) by {
      UnfoldNetwork(u, k + 1, s2, s3, 2 * B + 1, k, 4 * B + 2, 4 * B + 3);
    }
    var l, r := Network(u, k + 1, s0 + s1, 2 * B), Network(u, k + 1, s2 + s3, 2 * B + 1);
    assert Network(u, k + 2, (s0 + s1) + (s2 + s3), B) == Pairwise(l, r, Factor(u, B)) by {
      UnfoldNetwork(u, k + 2, s0 + s1, s2 + s3, B, k + 1, 2 * B, 2 * B + 1);
    }
    Glue(n0, n1, n2, n3, l, r, Factor(u, 2 * B), Factor(u, 2 * B + 1), Factor(u, B));
  }

  lemma Glue(n0: seq<C>, n1: seq<C>, n2: seq<C>, n3: seq<C>, l: seq<C>, r: seq<C>, w: C, w': C, f: C)
    requires |n0| == |n1| == |n2| == |n3| && w' == Mul(I, w)
    requires l == Pairwise(n0, n1, w) && r == Pairwise(n2, n3, w')
    ensures |l| == |r| && Pairwise(l, r, f) == Quad(n0, n1, n2, n3, w, f)
  {
    QuadIsTwoStages(n0, n1, n2, n3, w, f);
  }

  lemma UnfoldNetwork(u: seq<C>, k: nat, l: seq<C>, r: seq<C>, B: nat, k': nat, L: nat, R: nat)
    requires k == k' + 1 && |l| == |r| == Pow(2, k') && L == 2 * B && R == 2 * B + 1
    ensures |l + r| == Pow(2, k)
    ensures Network(u, k, l + r, B) == Pairwise(Network(u, k', l, L), Network(u, k', r, R), Factor(u, B))
  {
    hide Pairwise, Factor;
    assert (l + r)[..|l|] == l && (l + r)[|l|..] == r;
  }

  lemma UnfoldBlocks(u: seq<C>, k: nat, s: seq<C>, t: seq<C>, B: nat)
    requires |s| == Pow(2, k)
    ensures Blocks(u, k, s + t, B) == Network(u, k, s, B) + Blocks(u, k, t, B + 1)
  {
    assert (s + t)[..|s|] == s && (s + t)[|s|..] == t;
  }

  lemma UnfoldPass(u: seq<C>, h: nat, q0: seq<C>, q1: seq<C>, q2: seq<C>, q3: seq<C>, t: seq<C>, B: nat)
    requires h > 0 && |q0| == |q1| == |q2| == |q3| == h
    ensures Pass(u, h, q0 + (q1 + (q2 + (q3 + t))), B) ==
      Quad(q0, q1, q2, q3, Factor(u, 2 * B), Factor(u, B)) + Pass(u, h, t, B + 1)
  {
    hide Quad, Factor;
    var s := q0 + (q1 + (q2 + (q3 + t)));
    assert s[..h] == q0 && s[h..2 * h] == q1 && s[2 * h..3 * h] == q2 && s[3 * h..4 * h] == q3 && s[4 * h..] == t;
  }

  /** The first four blocks. */
  lemma FourBlocks(u: seq<C>, k: nat, s0: seq<C>, s1: seq<C>, s2: seq<C>, s3: seq<C>, t: seq<C>, B: nat)
    requires |s0| == |s1| == |s2| == |s3| == Pow(2, k)
    ensures Blocks(u, k, s0 + (s1 + (s2 + (s3 + t))), 4 * B) ==
      Network(u, k, s0, 4 * B) + (Network(u, k, s1, 4 * B + 1) +
      (Network(u, k, s2, 4 * B + 2) + (Network(u, k, s3, 4 * B + 3) + Blocks(u, k, t, 4 * (B + 1)))))
  {
    hide Blocks, Network, Pow;
    UnfoldBlocks(u, k, s0, s1 + (s2 + (s3 + t)), 4 * B);
    UnfoldBlocks(u, k, s1, s2 + (s3 + t), 4 * B + 1);
    UnfoldBlocks(u, k, s2, s3 + t, 4 * B + 2);
    UnfoldBlocks(u, k, s3, t, 4 * B + 3);
  }

  /** One block of a pass. */
  lemma PassOneBlock(u: seq<C>, k: nat, s0: seq<C>, s1: seq<C>, s2: seq<C>, s3: seq<C>, t: seq<C>, B: nat)
    requires |s0| == |s1| == |s2| == |s3| == Pow(2, k) > 0
    requires Pow(2, k + 1) == 2 * Pow(2, k) && Pow(2, k + 2) == 4 * Pow(2, k)
    requires Factor(u, 2 * B + 1) == Mul(I, Factor(u, 2 * B))
    requires Pass(u, Pow(2, k), Blocks(u, k, t, 4 * (B + 1)), B + 1) == Blocks(u, k + 2, t, B + 1)
    ensures var s := s0 + (s1 + (s2 + (s3 + t)));
      Pass(u, Pow(2, k), Blocks(u, k, s, 4 * B), B) == Blocks(u, k + 2, s, B)
  {
    hide *;
    FourBlocks(u, k, s0, s1, s2, s3, t, B);
    UnfoldPass(u, Pow(2, k), Network(u, k, s0, 4 * B), Network(u, k, s1, 4 * B + 1), Network(u, k, s2, 4 * B + 2),
      Network(u, k, s3, 4 * B + 3), Blocks(u, k, t, 4 * (B + 1)), B);
    TwoStages(u, k, s0, s1, s2, s3, B);
    UnfoldBlocks(u, k + 2, (s0 + s1) + (s2 + s3), t, B);
    assert s0 + (s1 + (s2 + (s3 + t))) == ((s0 + s1) + (s2 + s3)) + t;
  }

  /** A radix-4 pass takes the network two stages on, in every block that the table reaches. */
  lemma {:induction false} PassAdvances(u: seq<C>, k: nat, s: seq<C>, B: nat, n: nat)
    requires |s| == 4 * Pow(2, k) * n && (B + n <= |u| || (B == 0 && n <= 1))
    ensures Pass(u, Pow(2, k), Blocks(u, k, s, 4 * B), B) == Blocks(u, k + 2, s, B)
    decreases n
  {
    hide *;
    var h := Pow(2, k);
    OneBlockLess(h, n);
    if n == 0 {
      NoBlocks(u, k, s, B);
    } else {
      PowerHalves(k + 1);
      PowerHalves(k + 2);
      var t := s[4 * h..];
      if n == 1 {
        NoBlocks(u, k, t, B + 1);
      } else {
        PassAdvances(u, k, t, B + 1, n - 1);
      }
      var s0, s1, s2, s3 := s[..h], s[h..2 * h], s[2 * h..3 * h], s[3 * h..4 * h];
      assert s == s0 + (s1 + (s2 + (s3 + t)));
      FactorTurns(u, B);
      PassOneBlock(u, k, s0, s1, s2, s3, t, B);
    }
  }

  lemma NoBlocks(u: seq<C>, k: nat, t: seq<C>, B: nat)
    requires |t| == 0
    ensures Pass(u, Pow(2, k), Blocks(u, k, t, 4 * B), B) == Blocks(u, k + 2, t, B)
  {
  }

  lemma OneBlockLess(h: nat, n: nat)
    ensures n > 0 ==> 4 * h * n - 4 * h == 4 * h * (n - 1) >= 0
    ensures 4 * h * 0 == 0
  {
    if n > 0 {
      Distribute(4 * h, n - 1, 1);
      MulMono(4 * h, 0, n - 1);
    }
  }

  /** Blocks of one number are the numbers. */
  lemma {:induction false} SingleBlocks(u: seq<C>, s: seq<C>, B: nat)
    ensures Blocks(u, 0, s, B) == s
    decreases |s|
  {
    if |s| > 0 {
      SingleBlocks(u, s[1..], B + 1);
      assert s == s[..1] + s[1..];
    }
  }

  /** One block is the network. */
  lemma WholeBlock(u: seq<C>, k: nat, s: seq<C>)
    requires |s| == Pow(2, k)
    ensures Blocks(u, k, s, 0) == Network(u, k, s, 0)
  {
    UnfoldBlocks(u, k, s, [], 0);
    assert s + [] == s;
  }
}
