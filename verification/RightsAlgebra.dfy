/** The capability rights bitset (crates/tb-caps-core/src/rights.rs). */
module RightsAlgebra {

  datatype Rights = Rights(bits: bv32) {

    /** Attenuation: the only operation that changes the rights of an existing capability. */
    function Intersect(mask: Rights): Rights {
      Rights(bits & mask.bits)
    }

    predicate IsSubsetOf(sup: Rights) {
      bits & sup.bits == bits
    }
  }

  lemma AndAssociates(x: bv32, y: bv32, z: bv32)
    ensures (x & y) & z == x & (y & z)
  {
  }

  lemma AndIsLower(x: bv32, y: bv32)
    ensures (x & y) & x == x & y && (x & y) & y == x & y
  {
  }

  lemma SubsetIsTransitive(a: Rights, b: Rights, c: Rights)
    requires a.IsSubsetOf(b) && b.IsSubsetOf(c)
    ensures a.IsSubsetOf(c)
  {
    AndAssociates(a.bits, b.bits, c.bits);
  }

  /** Attenuation never amplifies. */
  lemma IntersectIsLower(a: Rights, m: Rights)
    ensures a.Intersect(m).IsSubsetOf(a) && a.Intersect(m).IsSubsetOf(m)
  {
    AndIsLower(a.bits, m.bits);
  }

  /** Attenuation drops no more than the mask demands: it is the greatest lower bound. */
  lemma IntersectIsGreatest(a: Rights, m: Rights, c: Rights)
    requires c.IsSubsetOf(a) && c.IsSubsetOf(m)
    ensures c.IsSubsetOf(a.Intersect(m))
  {
    AndAssociates(c.bits, a.bits, m.bits);
  }

  // ---- Right by right ---------------------------------------------------------------

  function And(x: bv32, y: bv32): bv32 {
    x & y
  }

  function Half(x: bv32): bv32 {
    x >> 1
  }

  predicate Low(x: bv32) {
    x & 1 == 1
  }

  /** Bit `i` of a word. */
  predicate Bit(x: bv32, i: nat)
    decreases i
  {
    if i == 0 then Low(x) else Bit(Half(x), i - 1)
  }

  lemma HalfOfAnd(x: bv32, y: bv32)
    ensures Half(And(x, y)) == And(Half(x), Half(y))
  {
  }

  lemma LowOfAnd(x: bv32, y: bv32)
    ensures Low(And(x, y)) <==> Low(x) && Low(y)
  {
  }

  lemma SameHalves(x: bv32, y: bv32)
    requires Half(x) == Half(y) && (Low(x) <==> Low(y))
    ensures x == y
  {
  }

  lemma HalfIsLess(x: bv32)
    ensures x != 0 ==> Half(x) < x
    ensures x == 0 ==> Half(x) == 0 && !Low(x)
  {
  }

  lemma RightsAreBits(a: Rights, b: Rights)
    ensures a.Intersect(b).bits == And(a.bits, b.bits)
    ensures a.IsSubsetOf(b) <==> And(a.bits, b.bits) == a.bits
  {
  }

  lemma {:induction false} BitOfAnd(x: bv32, y: bv32, i: nat)
    ensures Bit(And(x, y), i) <==> Bit(x, i) && Bit(y, i)
    decreases i
  {
    hide And, Half, Low;
    LowOfAnd(x, y);
    HalfOfAnd(x, y);
    if i > 0 {
      BitOfAnd(Half(x), Half(y), i - 1);
    }
  }

  /** Attenuation leaves exactly the rights that both operands have. */
  lemma IntersectIsBoth(a: Rights, m: Rights, i: nat)
    ensures Bit(a.Intersect(m).bits, i) <==> Bit(a.bits, i) && Bit(m.bits, i)
  {
    hide Bit, Rights.Intersect;
    RightsAreBits(a, m);
    BitOfAnd(a.bits, m.bits, i);
  }

  lemma {:induction false} NoBits(x: bv32, i: nat)
    requires x == 0
    ensures !Bit(x, i)
    decreases i
  {
    hide Half, Low;
    HalfIsLess(x);
    if i > 0 {
      NoBits(Half(x), i - 1);
    }
  }

  lemma {:induction false} SameBits(x: bv32, y: bv32)
    requires forall i: nat :: Bit(x, i) <==> Bit(y, i)
    ensures x == y
    decreases x, y
  {
    hide Half, Low;
    HalfIsLess(x);
    HalfIsLess(y);
    assert Bit(x, 0) <==> Bit(y, 0);
    forall i: nat
      ensures Bit(Half(x), i) <==> Bit(Half(y), i)
    {
      assert Bit(x, i + 1) <==> Bit(y, i + 1);
    }
    if x != 0 || y != 0 {
      SameBits(Half(x), Half(y));
      SameHalves(x, y);
    }
  }

  /** Every bit of `x` is one of `y`. */
  ghost predicate AllIn(x: bv32, y: bv32) {
    forall i: nat :: Bit(x, i) ==> Bit(y, i)
  }

  lemma WithinBits(x: bv32, y: bv32)
    requires AllIn(x, y)
    ensures And(x, y) == x
  {
    hide And, Half, Low;
    forall i: nat
      ensures Bit(And(x, y), i) <==> Bit(x, i)
    {
      BitOfAnd(x, y, i);
    }
    SameBits(And(x, y), x);
  }

  lemma BitsWithin(x: bv32, y: bv32)
    requires And(x, y) == x
    ensures AllIn(x, y)
  {
    hide And, Half, Low;
    forall i: nat | Bit(x, i)
      ensures Bit(y, i)
    {
      BitOfAnd(x, y, i);
    }
  }

  /** A subset has no right that the other lacks. */
  lemma SubsetIff(a: Rights, b: Rights)
    ensures a.IsSubsetOf(b) <==> AllIn(a.bits, b.bits)
  {
    hide And, AllIn, Rights.IsSubsetOf;
    RightsAreBits(a, b);
    if AllIn(a.bits, b.bits) {
      WithinBits(a.bits, b.bits);
    }
    if And(a.bits, b.bits) == a.bits {
      BitsWithin(a.bits, b.bits);
    }
  }
}
