/** Integers used as bitsets: or, a single bit, clearing a bit and counting bits, with what they mean for members. */
module Bitset {

  predicate Has(a: nat, i: nat) {
    if i == 0 then a % 2 == 1 else Has(a / 2, i - 1)
  }

  function Or(a: nat, b: nat): nat
    decreases a + b
  {
    if a == 0 && b == 0 then 0 else 2 * Or(a / 2, b / 2) + (if a % 2 == 1 || b % 2 == 1 then 1 else 0)
  }

  /** 1 << u */
  function Bit(u: nat): nat {
    if u == 0 then 1 else 2 * Bit(u - 1)
  }

  /** a & ~(1 << v) */
  function Without(a: nat, v: nat): nat {
    if v == 0 then 2 * (a / 2) else 2 * Without(a / 2, v - 1) + a % 2
  }

  function Count(a: nat): nat {
    if a == 0 then 0 else Count(a / 2) + a % 2
  }

  lemma {:induction false} HasZero(i: nat)
    ensures !Has(0, i)
  {
    if i > 0 {
      HasZero(i - 1);
    }
  }

  lemma {:induction false} HasOr(a: nat, b: nat, i: nat)
    ensures Has(Or(a, b), i) <==> Has(a, i) || Has(b, i)
    decreases i
  {
    if a == 0 && b == 0 {
      HasZero(i);
    } else if i > 0 {
      HasOr(a / 2, b / 2, i - 1);
    }
  }

  lemma {:induction false} HasBit(u: nat, i: nat)
    ensures Has(Bit(u), i) <==> i == u
  {
    if u == 0 {
      if i > 0 { HasZero(i - 1); }
    } else if i > 0 {
      HasBit(u - 1, i - 1);
    }
  }

  lemma {:induction false} HasWithout(a: nat, v: nat, i: nat)
    ensures Has(Without(a, v), i) <==> Has(a, i) && i != v
  {
    if v > 0 && i > 0 {
      HasWithout(a / 2, v - 1, i - 1);
    }
  }

  lemma {:induction false} Shifted(s: set<nat>, t: set<nat>)
    requires forall i: nat :: i in s <==> i > 0 && i - 1 in t
    ensures |s| == |t|
    decreases |t|
  {
    if t == {} {
      assert s == {};
    } else {
      var x :| x in t;
      assert x + 1 in s;
      Shifted(s - {x + 1}, t - {x});
    }
  }

  /** The bits counted are the members. */
  lemma {:induction false} CountMembers(a: nat, s: set<nat>)
    requires forall i: nat :: i in s <==> Has(a, i)
    ensures Count(a) == |s|
  {
    if a == 0 {
      forall i | i in s
        ensures false
      {
        HasZero(i);
      }
      assert s == {};
    } else {
      var t := set i | i in s && i > 0 :: i - 1;
      forall i: nat
        ensures i in t <==> Has(a / 2, i)
      {
        assert i in t <==> i + 1 in s by {
          if i + 1 in s { assert (i + 1) - 1 in t; }
        }
      }
      CountMembers(a / 2, t);
      Shifted(s - {0}, t);
      assert 0 in s <==> a % 2 == 1;
    }
  }
}
