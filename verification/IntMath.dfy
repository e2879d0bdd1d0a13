/** The integer helpers of the activation gate (crates/tb-encode/src/bakeoff.rs), with the
    saturation of 64- and 128-bit signed words written out. */
module IntMath {

  const I64_MAX := 0x7FFF_FFFF_FFFF_FFFF
  const I64_MIN := -0x8000_0000_0000_0000
  const I128_MAX := 0x7FFF_FFFF_FFFF_FFFF_FFFF_FFFF_FFFF_FFFF
  const I128_MIN := -0x8000_0000_0000_0000_0000_0000_0000_0000

  type i64 = x: int | I64_MIN <= x <= I64_MAX
  type i128 = x: int | I128_MIN <= x <= I128_MAX

  function Max(a: int, b: int): int {
    if a < b then b else a
  }

  function Min(a: int, b: int): int {
    if a < b then a else b
  }

  function Abs(a: int): nat {
    if a < 0 then -a else a
  }

  function Clamp(x: int, lo: int, hi: int): (r: int)
    requires lo <= hi
    ensures lo <= r <= hi
  {
    if x < lo then lo else if x > hi then hi else x
  }

  /** `clamp_i128_to_i64`, and the result of every saturating 64-bit operation. */
  function Sat64(x: int): i64 {
    Clamp(x, I64_MIN, I64_MAX)
  }

  /** The result of a saturating 128-bit operation. */
  function Sat128(x: int): i128 {
    Clamp(x, I128_MIN, I128_MAX)
  }

  // ---- Division ---------------------------------------------------------------

  /** The machine's division, which rounds toward zero. */
  function TruncDiv(a: int, b: int): int
    requires b != 0
  {
    if (a >= 0) == (b > 0) then Abs(a) / Abs(b) else -(Abs(a) / Abs(b))
  }

  function TruncRem(a: int, b: int): int
    requires b != 0
  {
    a - b * TruncDiv(a, b)
  }

  function FloorDiv(num: int, den: int): int {
    if den == 0 then 0 else
    var q, r := TruncDiv(num, den), TruncRem(num, den);
    if r != 0 && (r < 0) != (den < 0) then q - 1 else q
  }

  function CeilDiv(num: int, den: int): int {
    if den == 0 then 0 else
    var q, r := TruncDiv(num, den), TruncRem(num, den);
    if r != 0 && (r < 0) == (den < 0) then q + 1 else q
  }

  lemma TruncRemIsSmall(a: int, b: int)
    requires b != 0
    ensures Abs(TruncRem(a, b)) < Abs(b)
    ensures a >= 0 ==> TruncRem(a, b) >= 0
    ensures a <= 0 ==> TruncRem(a, b) <= 0
  {
    var m: int, n: int := Abs(a), Abs(b);
    assert m == n * (m / n) + m % n;
    assert b * TruncDiv(a, b) == if a >= 0 then n * (m / n) else -(n * (m / n));
  }

  /** Floor division gives the greatest integer not above the exact quotient, for either sign of
      the divisor; a zero divisor gives 0. */
  lemma FloorDivIsFloor(num: int, den: int)
    ensures den > 0 ==> den * FloorDiv(num, den) <= num < den * (FloorDiv(num, den) + 1)
    ensures den < 0 ==> den * (FloorDiv(num, den) + 1) < num <= den * FloorDiv(num, den)
    ensures den == 0 ==> FloorDiv(num, den) == 0
  {
    if den != 0 {
      TruncRemIsSmall(num, den);
    }
  }

  /** Ceiling division gives the least integer not below the exact quotient, for either sign of
      the divisor; a zero divisor gives 0. */
  lemma CeilDivIsCeil(num: int, den: int)
    ensures den > 0 ==> den * (CeilDiv(num, den) - 1) < num <= den * CeilDiv(num, den)
    ensures den < 0 ==> den * CeilDiv(num, den) <= num < den * (CeilDiv(num, den) - 1)
    ensures den == 0 ==> CeilDiv(num, den) == 0
  {
    if den != 0 {
      TruncRemIsSmall(num, den);
    }
  }

  lemma FloorDivBound(num: int, den: int, k: int)
    requires den > 0
    ensures den * k <= num <==> k <= FloorDiv(num, den)
  {
    FloorDivIsFloor(num, den);
    ProductsOrdered(den, k, FloorDiv(num, den) + 1);
    ProductsOrdered(den, FloorDiv(num, den), k);
  }

  lemma CeilDivBound(num: int, den: int, k: int)
    requires den > 0
    ensures num <= den * k <==> CeilDiv(num, den) <= k
  {
    CeilDivIsCeil(num, den);
    ProductsOrdered(den, CeilDiv(num, den) - 1, k);
    ProductsOrdered(den, k, CeilDiv(num, den));
  }

  lemma CeilDivMonotone(a: int, b: int, den: int)
    requires a <= b && den > 0
    ensures CeilDiv(a, den) <= CeilDiv(b, den)
  {
    CeilDivIsCeil(b, den);
    CeilDivBound(a, den, CeilDiv(b, den));
  }

  lemma ProductsOrdered(den: int, p: int, q: int)
    requires den > 0
    ensures p < q <==> den * p < den * q
  {
    if p < q {
      assert den * q == den * p + den * (q - p);
    } else {
      assert den * p == den * q + den * (p - q);
    }
  }

  lemma TruncDivMonotone(a: int, b: int, den: int)
    requires 0 <= a <= b && den > 0
    ensures 0 <= TruncDiv(a, den) <= TruncDiv(b, den)
  {
    var p, q := a / den, b / den;
    assert den * p <= a <= b < den * (q + 1);
    ProductsOrdered(den, p, q + 1);
    assert a / den >= 0;
  }

  // ---- Square root ---------------------------------------------------------------

  /** `s` is the least non-negative number whose square reaches `x`. */
  ghost predicate IsCeilSqrt(s: int, x: int) {
    s >= 0 && x <= s * s && (s > 0 ==> (s - 1) * (s - 1) < x)
  }

  function CeilSqrtFrom(x: int, s: nat): nat
    decreases x - s
  {
    if x <= s * s then s else CeilSqrtFrom(x, s + 1)
  }

  lemma {:induction false} CeilSqrtFromIs(x: int, s: nat)
    requires s > 0 ==> (s - 1) * (s - 1) < x
    ensures IsCeilSqrt(CeilSqrtFrom(x, s), x)
    decreases x - s
  {
    if s * s < x {
      assert s < x;
      CeilSqrtFromIs(x, s + 1);
    }
  }

  /** `isqrt_ceil_i128`: the ceiling square root, capped at the largest 64-bit value. */
  function IsqrtCeil(x: int): int {
    if x <= 0 then 0 else Min(CeilSqrtFrom(x, 0), I64_MAX)
  }

  lemma CeilSqrtUnique(s: int, t: int, x: int)
    requires IsCeilSqrt(s, x) && IsCeilSqrt(t, x)
    ensures s == t
  {
    if t > 0 {
      SquaresOrdered(t - 1, s);
    }
    if s > 0 {
      SquaresOrdered(s - 1, t);
    }
  }

  lemma SquaresOrdered(s: nat, t: nat)
    ensures s < t <==> s * s < t * t
  {
    if s < t {
      assert s * s <= s * t < t * t;
    } else {
      assert t * t <= t * s <= s * s;
    }
  }

  lemma IsqrtCeilIsLeast(x: int)
    ensures 0 <= x <= I64_MAX * I64_MAX ==> IsCeilSqrt(IsqrtCeil(x), x)
    ensures x > I64_MAX * I64_MAX ==> IsqrtCeil(x) == I64_MAX
    ensures IsqrtCeil(x) >= 0
  {
    if x > 0 {
      CeilSqrtFromIs(x, 0);
      var s := CeilSqrtFrom(x, 0);
      if s > I64_MAX {
        SquaresOrdered(I64_MAX, s - 1);
        assert I64_MAX * I64_MAX < x;
      } else {
        SquaresOrdered(I64_MAX, s);
        assert s * s <= I64_MAX * I64_MAX;
      }
    }
  }

  lemma IsqrtCeilMonotone(x: int, y: int)
    requires x <= y
    ensures IsqrtCeil(x) <= IsqrtCeil(y)
  {
    if x > 0 {
      CeilSqrtFromIs(x, 0);
      CeilSqrtFromIs(y, 0);
      var s, t := CeilSqrtFrom(x, 0), CeilSqrtFrom(y, 0);
      if s > 0 {
        SquaresOrdered(s - 1, t);
      }
    }
  }

  const TOP := 0x4000_0000_0000_0000

  function SatMul128(a: int, b: int): i128 {
    Sat128(a * b)
  }

  /** The bit-by-bit computation: find a power of two whose square passes `x`, refine downwards
      to the floor root, and bump to the ceiling. */
  method IsqrtCeilBits(x: i128) returns (s: i64)
    ensures s == IsqrtCeil(x)
  {
    hide IsqrtCeil, Sat64, SatMul128, Pow2, Brackets;
    if x <= 0 {
      NoRoot(x);
      return 0;
    }
    var bit: int := 1;
    ghost var k: nat := 0;
    Pow2Halves(0);
    while SatMul128(bit, bit) <= x && bit < TOP
      invariant k <= 62 && bit == Pow2(k) && 1 <= bit <= TOP
      decreases 62 - k
    {
      Pow2Steps(k);
      bit := bit * 2;
      k := k + 1;
    }
    var res: int := 0;
    var b := bit;
    ghost var w := 2 * bit;
    StartBracket(x, bit);
    while b > 0
      invariant 0 <= b <= TOP && Brackets(x, res, w)
      invariant (b > 0 && w == 2 * b && b == Pow2(k)) || (b == 0 && w == 1)
      decreases b
    {
      var cand := res + b;
      Refine(x, res, b);
      if SatMul128(cand, cand) <= x {
        res := cand;
      }
      w := b;
      b := b / 2;
      Pow2Halves(k);
      k := if k > 0 then k - 1 else 0;
    }
    ghost var root := res;
    if SatMul128(res, res) < x {
      res := res + 1;
    }
    s := Sat64(res);
    FinishRoot(x, root, res);
  }

  lemma NoRoot(x: int)
    requires x <= 0
    ensures IsqrtCeil(x) == 0
  {
  }

  /** The root lies in `res .. res + w`, unless it lies beyond the 64-bit range. */
  ghost predicate Brackets(x: int, res: int, w: int) {
    && 0 <= res && res + w <= 2 * TOP
    && res * res <= x
    && (x < (res + w) * (res + w) || res + w == 2 * TOP)
  }

  lemma StartBracket(x: int, bit: int)
    requires x > 0 && 1 <= bit <= TOP && (x < SatMul128(bit, bit) || bit == TOP)
    ensures Brackets(x, 0, 2 * bit)
  {
    SquareFits(bit);
    SquaresOrdered(bit, 2 * bit);
  }

  /** Testing the bit `b` halves the bracket. */
  lemma Refine(x: int, res: int, b: int)
    requires 0 < b <= TOP && Brackets(x, res, 2 * b)
    ensures if SatMul128(res + b, res + b) <= x then Brackets(x, res + b, b) else Brackets(x, res, b)
  {
    hide Sat128;
    SquareFits(res + b);
  }

  /** The floor root, bumped if its square falls short, is the ceiling root. */
  lemma FinishRoot(x: int, root: int, bumped: int)
    requires x > 0 && Brackets(x, root, 1)
    requires bumped == if SatMul128(root, root) < x then root + 1 else root
    ensures Sat64(bumped) == IsqrtCeil(x)
  {
    SquareFits(root);
    IsqrtCeilIsLeast(x);
    if x <= I64_MAX * I64_MAX {
      if root * root == x && root > 0 {
        SquaresOrdered(root - 1, root);
      }
      assert IsCeilSqrt(bumped, x);
      CeilSqrtUnique(bumped, IsqrtCeil(x), x);
    } else {
      SquaresOrdered(I64_MAX, root + 1);
    }
  }

  lemma SquareFits(s: int)
    requires 0 <= s <= 0x8000_0000_0000_0000
    ensures Sat128(s * s) == s * s
  {
    SquaresOrdered(0x8000_0000_0000_0000, s);
  }

  ghost function Pow2(k: nat): nat {
    if k == 0 then 1 else 2 * Pow2(k - 1)
  }

  lemma Pow2Steps(k: nat)
    requires k <= 62
    ensures Pow2(k + 1) == 2 * Pow2(k)
    ensures k < 62 ==> Pow2(k + 1) <= TOP
    ensures k == 62 ==> Pow2(k) == TOP
  {
    Pow2Of62();
    if k < 62 {
      Pow2Monotone(k + 1, 62);
    }
  }

  lemma Pow2Halves(k: nat)
    ensures if k == 0 then Pow2(k) == 1 && Pow2(k) / 2 == 0 else Pow2(k) / 2 == Pow2(k - 1) && Pow2(k) == 2 * Pow2(k - 1)
    ensures Pow2(k) >= 1
  {
    Pow2Monotone(0, k);
  }

  lemma Pow2Of62()
    ensures Pow2(62) == TOP
  {
    hide Pow2;
    Pow2Of1();
    Pow2Adds(1, 1);
    Pow2Adds(2, 1);
    Pow2Adds(3, 3);
    Pow2Adds(6, 6);
    Pow2Adds(12, 12);
    Pow2Adds(24, 24);
    Pow2Adds(48, 12);
    Pow2Adds(60, 2);
  }

  lemma Pow2Of1()
    ensures Pow2(1) == 2
  {
  }

  lemma {:induction false} Pow2Adds(j: nat, k: nat)
    ensures Pow2(j + k) == Pow2(j) * Pow2(k)
  {
    if k > 0 {
      Pow2Adds(j, k - 1);
      assert Pow2(j + k) == 2 * (Pow2(j) * Pow2(k - 1)) == Pow2(j) * (2 * Pow2(k - 1));
    }
  }

  lemma {:induction false} Pow2Monotone(j: nat, k: nat)
    requires j <= k
    ensures 1 <= Pow2(j) <= Pow2(k) && (j < k ==> Pow2(j) < Pow2(k))
  {
    if k > 0 {
      if j == k {
        Pow2Monotone(j - 1, k - 1);
      } else {
        Pow2Monotone(j, k - 1);
      }
    }
  }
}
