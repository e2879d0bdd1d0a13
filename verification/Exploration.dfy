/** The logging propensities of the shielded epsilon-greedy policy, in thousandths
    (`explore_propensity_q`, crates/tb-encode/src/explore.rs). */
module Exploration {
  import opened Words
  import opened IntMath

  const SCALE := 1000

  /** The share of one non-greedy action, and the whole exploration mass, rounded down. */
  function OtherShare(num: u32, den: u32, m: u32): nat
    requires den > 0 && m > 0
  {
    SCALE * num / (den * m)
  }

  function ExplorationMass(num: u32, den: u32): nat
    requires den > 0
  {
    SCALE * num / den
  }

  function Propensity(num: u32, den: u32, m: u32, greedy: bool): nat {
    if m == 0 then 0
    else if m == 1 then SCALE
    else if den == 0 || num == 0 then (if greedy then SCALE else 0)
    else
      assert den * m > 0;
      var other := OtherShare(num, den, m);
      var mass := ExplorationMass(num, den);
      var chosen := if greedy then Max(SCALE - mass, 0) + other else Max(other, 1);
      Min(chosen, SCALE)
  }

  lemma QuotientBounds(a: nat, b: nat)
    requires b > 0
    ensures b * (a / b) <= a < b * (a / b) + b
  {
  }

  /** Dividing by `den` and then by `m` rounds no differently than dividing once. */
  lemma NestedFloor(a: nat, den: nat, m: nat)
    requires den > 0 && m > 0
    ensures den * m > 0 && a / (den * m) == a / den / m
  {
    ProductsOrdered(den, 0, m);
    QuotientBounds(a, den);
    QuotientBounds(a / den, m);
    QuotientBounds(a, den * m);
    NestedBounds(a, den, m, a / den, a / den / m);
    UniqueQuotient(a, den * m, a / den / m, a / (den * m));
  }

  lemma NestedBounds(a: nat, den: nat, m: nat, q: nat, p: nat)
    requires den > 0 && m > 0
    requires den * q <= a < den * q + den
    requires m * p <= q < m * p + m
    ensures (den * m) * p <= a < (den * m) * p + den * m
  {
    var lo, hi := m * p, m * p + m;
    assert den * lo == (den * m) * p;
    assert den * hi == den * lo + den * m;
    assert den * (q + 1) == den * q + den;
    ProductsOrdered(den, q, lo);
    ProductsOrdered(den, hi, q + 1);
  }

  lemma UniqueQuotient(a: nat, d: nat, p: nat, r: nat)
    requires d > 0 && d * p <= a < d * p + d && d * r <= a < d * r + d
    ensures p == r
  {
    assert d * (p + 1) == d * p + d && d * (r + 1) == d * r + d;
    ProductsOrdered(d, r, p + 1);
    ProductsOrdered(d, p, r + 1);
  }

  /** The propensities exactly. Without a choice it is the whole scale; without a proper epsilon all of
      it is the greedy action's; else every action has its share of the exploration, rounded down, the
      others at least one unit, and the greedy one what exploration leaves besides. */
  lemma PropensityIs(num: u32, den: u32, m: u32) returns (share: nat, mass: nat)
    ensures m == 0 ==> Propensity(num, den, m, true) == Propensity(num, den, m, false) == 0
    ensures m == 1 ==> Propensity(num, den, m, true) == Propensity(num, den, m, false) == 1000
    ensures m > 1 && (den == 0 || num == 0) ==>
              Propensity(num, den, m, true) == 1000 && Propensity(num, den, m, false) == 0
    ensures m > 1 && den > 0 && num > 0 ==>
              && den * mass <= 1000 * num < den * mass + den
              && m * share <= mass < m * share + m
              && Propensity(num, den, m, false) == Min(Max(share, 1), 1000)
              && Propensity(num, den, m, true) == Min(Max(1000 - mass, 0) + share, 1000)
  {
    share, mass := 0, 0;
    if m > 1 && den > 0 && num > 0 {
      mass := ExplorationMass(num, den);
      share := OtherShare(num, den, m);
      NestedFloor(SCALE * num, den, m);
      QuotientBounds(SCALE * num, den);
      QuotientBounds(mass, m);
    }
  }

  /** With a proper epsilon and at least two safe actions every action keeps a positive
      propensity, the greedy one at least as large as the others. */
  lemma EveryActionStaysPossible(num: u32, den: u32, m: u32)
    requires 0 < num < den && m >= 2
    ensures 1 <= Propensity(num, den, m, false) <= Propensity(num, den, m, true) <= SCALE
  {
    NestedFloor(SCALE * num, den, m);
    MassBelowScale(num, den);
    QuotientBounds(ExplorationMass(num, den), m);
    HalfAtMost(ExplorationMass(num, den), m);
  }

  lemma MassBelowScale(num: u32, den: u32)
    requires 0 < num < den
    ensures 0 <= ExplorationMass(num, den) < SCALE
  {
    QuotientBounds(SCALE * num, den);
    ProductsOrdered(den, ExplorationMass(num, den), SCALE);
    assert SCALE * num < den * SCALE;
  }

  lemma HalfAtMost(mass: nat, m: nat)
    requires m >= 2
    ensures mass / m <= mass
  {
    QuotientBounds(mass, m);
    assert m * (mass / m) >= mass / m;
  }

  lemma AtLeastOne(a: nat, b: nat)
    requires a >= b > 0
    ensures a / b >= 1
  {
    QuotientBounds(a, b);
    ProductsOrdered(b, 0, a / b);
  }

  /** The propensities of all actions add up to more than the scale less what rounding to whole
      units can lose; and to no more than the scale if and only if the exploration mass can
      give every non-greedy action its positivity unit. */
  lemma PropensitiesAddUp(num: u32, den: u32, m: u32)
    requires 0 < num < den && m >= 2
    ensures var total := Propensity(num, den, m, true) + (m - 1) * Propensity(num, den, m, false);
            total > SCALE - m && (total <= SCALE <==> ExplorationMass(num, den) >= m - 1)
  {
    var mass, other := ExplorationMass(num, den), OtherShare(num, den, m);
    NestedFloor(SCALE * num, den, m);
    MassBelowScale(num, den);
    QuotientBounds(mass, m);
    HalfAtMost(mass, m);
    EveryActionStaysPossible(num, den, m);
    if mass >= m {
      AtLeastOne(mass, m);
      assert m * other == other + (m - 1) * other;
    } else {
      UniqueQuotient(mass, m, 0, other);
    }
  }

  /** Positivity, for every positive epsilon and every number of safe actions: a propensity is
      never above the scale, and it is zero only for a non-greedy action under an undefined
      epsilon, or for the greedy one when epsilon is at least one and spread over more actions
      than it has thousandths. */
  lemma PositiveIff(num: u32, den: u32, m: u32, greedy: bool)
    requires num > 0 && m >= 1
    ensures 0 <= Propensity(num, den, m, greedy) <= SCALE
    ensures Propensity(num, den, m, greedy) >= 1 <==>
            || m == 1
            || (if den == 0 then greedy else !greedy || num < den || SCALE * num >= den * m)
  {
    if m > 1 && den > 0 {
      ProductsOrdered(den, 0, m);
      QuotientBounds(SCALE * num, den * m);
      QuotientBounds(SCALE * num, den);
      ShareIsPositiveIff(SCALE * num, den * m);
      ShareBelowIff(SCALE * num, den, SCALE);
    }
  }

  lemma ShareIsPositiveIff(a: nat, b: nat)
    requires b > 0
    ensures a / b >= 1 <==> a >= b
  {
    QuotientBounds(a, b);
    if a >= b {
      AtLeastOne(a, b);
    }
  }

  lemma ShareBelowIff(a: nat, b: nat, c: nat)
    requires b > 0
    ensures a / b < c <==> a < b * c
  {
    QuotientBounds(a, b);
    ProductsOrdered(b, c, a / b + 1);
    ProductsOrdered(b, a / b, c);
    assert b * (a / b + 1) == b * (a / b) + b;
  }

  /** An epsilon of one over two thousand actions leaves the greedy action nothing, and an
      undefined epsilon leaves the others nothing. */
  lemma PropensityCanVanish()
    ensures Propensity(1, 1, 2000, true) == 0
    ensures Propensity(1, 0, 2, false) == 0
  {
    PositiveIff(1, 1, 2000, true);
    PositiveIff(1, 0, 2, false);
  }
}
