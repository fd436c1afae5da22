/** pow5mult and its cache: node i of the list keeps 5^(4 * 2^i). */
module PowersOfFive {
  import opened Words
  import opened Bigints
  import opened Products

  /** The value node i of the cache stands for. */
  function NodePower(i: nat): nat
  {
    Pow(5, 4 * Pow(2, i))
  }

  class PowerCache {
    /** The list p5s, p5s->next, ... made so far. */
    var p5s: seq<Bigint>

    /** The nodes and their words. */
    ghost var Repr: set<object>

    ghost predicate Valid()
      reads this, Repr
    {
      this !in Repr &&
      forall i :: 0 <= i < |p5s| ==>
        p5s[i] in Repr && p5s[i].x in Repr &&
        p5s[i].Ok() && p5s[i].wds > 0 && p5s[i].Value() == NodePower(i)
    }

    constructor ()
      ensures Valid() && p5s == []
    {
      p5s, Repr := [], {};
    }

    /** The node after the nodes made so far, which all stay as they are. */
    method AddNode()
      requires Valid()
      modifies this
      ensures Valid() && fresh(Repr - old(Repr))
      ensures |p5s| == |old(p5s)| + 1 && old(p5s) <= p5s
    {
      hide Pow, Words.Value;
      var n;
      if p5s == [] {
        n := I2B(625);
        FirstNode();
      } else {
        var last := p5s[|p5s| - 1];
        n := Mult(last, last);
        NextNode(|p5s| - 1);
        NonEmpty(n);
      }
      p5s, Repr := p5s + [n], Repr + {n, n.x};
    }

    /** The squaring loop: b times 625^k, node by node. */
    method MultByNodes(b0: Bigint, k0: nat) returns (b: Bigint)
      requires Valid() && b0.Ok() && b0.Value() > 0 && k0 > 0
      requires b0 !in Repr && b0.x !in Repr
      modifies this
      ensures Valid() && fresh(Repr - old(Repr)) && old(p5s) <= p5s
      ensures b == b0 || (fresh(b) && fresh(b.x))
      ensures b !in Repr && b.x !in Repr
      ensures b.Ok() && b.Value() == old(b0.Value()) * Pow(NodePower(0), k0)
    {
      hide Pow, Words.Value, NodePower;
      b := b0;
      ghost var goal := b.Value() * Pow(NodePower(0), k0);
      if p5s == [] {
        AddNode();
      }
      var k, p5 := k0, 0;
      while true
        invariant Valid() && p5 < |p5s| && k > 0
        invariant fresh(Repr - old(Repr)) && old(p5s) <= p5s
        invariant b == b0 || (fresh(b) && fresh(b.x))
        invariant b !in Repr && b.x !in Repr
        invariant b.Ok() && b.Value() > 0
        invariant b.Value() * Pow(NodePower(p5), k) == goal
        decreases k
      {
        Pow5Step(b.Value(), p5, k);
        if k % 2 == 1 {
          NonEmpty(b);
          b := Mult(b, p5s[p5]);
        }
        k := k / 2;
        if k == 0 {
          PowZero(b.Value(), NodePower(p5 + 1));
          break;
        }
        if p5 + 1 == |p5s| {
          AddNode();
        }
        p5 := p5 + 1;
      }
    }

    /** b times 5^k. The number b is given up; the cache only grows. */
    method Pow5Mult(b0: Bigint, k: nat) returns (b: Bigint)
      requires Valid() && b0.Ok() && b0.Value() > 0
      requires b0 !in Repr && b0.x !in Repr
      modifies this, b0, b0.x
      ensures Valid() && fresh(Repr - old(Repr)) && old(p5s) <= p5s
      ensures b == b0 || (fresh(b) && fresh(b.x))
      ensures b !in Repr && b.x !in Repr
      ensures b.Ok() && b.Value() == old(b0.Value()) * Pow(5, k)
    {
      hide Pow, Words.Value, NodePower;
      NonEmpty(b0);
      Pow5Start(b0.Value(), k);
      SmallPowers();
      PowZero(b0.Value() * Pow(5, k % 4), NodePower(0));
      b := b0;
      var i := k % 4;
      if i != 0 {
        b := MultAdd(b, if i == 1 then 5 else if i == 2 then 25 else 125, 0);
      }
      if k / 4 != 0 {
        b := MultByNodes(b, k / 4);
      }
    }
  }

  lemma PowZero(v: int, p: nat)
    ensures v * Pow(p, 0) == v
  {
  }

  lemma SmallPowers()
    ensures Pow(5, 0) == 1 && Pow(5, 1) == 5 && Pow(5, 2) == 25 && Pow(5, 3) == 125
  {
  }

  lemma FirstNode()
    ensures NodePower(0) == 625
  {
    assert Pow(2, 0) == 1;
    assert Pow(5, 4) == 625;
  }

  lemma NextNode(i: nat)
    ensures NodePower(i + 1) == NodePower(i) * NodePower(i) > 0
  {
    PowAdd(5, 4 * Pow(2, i), 4 * Pow(2, i));
  }

  lemma Pow5Start(v: nat, k: nat)
    ensures (v * Pow(5, k % 4)) * Pow(NodePower(0), k / 4) == v * Pow(5, k)
  {
    FirstNode();
    assert Pow(5, 4) == 625;
    PowPow(5, 4, k / 4);
    PowAdd(5, k % 4, 4 * (k / 4));
    MulAssoc(v, Pow(5, k % 4), Pow(625, k / 4));
  }

  /** Squaring the node halves the exponent; an odd exponent takes one factor out. */
  lemma Pow5Step(b: nat, i: nat, k: nat)
    requires k > 0
    ensures k % 2 == 1 ==> (b * NodePower(i)) * Pow(NodePower(i + 1), k / 2) == b * Pow(NodePower(i), k)
    ensures k % 2 == 0 ==> b * Pow(NodePower(i + 1), k / 2) == b * Pow(NodePower(i), k)
    ensures b > 0 ==> b * NodePower(i) > 0
  {
    var p := NodePower(i);
    NextNode(i);
    PowMulBase(p, p, k / 2);
    PowAdd(p, k / 2, k / 2);
    if k % 2 == 1 {
      assert Pow(p, k) == p * Pow(p, k - 1);
      MulAssoc(b, p, Pow(p, k - 1));
    }
  }
}
