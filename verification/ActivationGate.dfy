/** The activation gate of the learning loop and the estimators it compares
    (crates/tb-encode/src/bakeoff.rs), and why a gate that clears is right. */
module ActivationGate {
  import opened Words
  import opened IntMath
  import opened SmoothnessFloor

  const MIN_RESOLVED_SUPPORT := 1
  const MIN_OVERLAP_MASS := 1

  // ---- Survival labels --------------------------------------------------------------

  datatype SurvivalLabel = Negative | Positive | Censored

  function SatSub(a: nat, b: nat): nat {
    if a < b then 0 else a - b
  }

  predicate TouchInWindow(decision: u64, touch: Option<u64>, w: u64) {
    touch.Some? && touch.value >= decision && SatSub(touch.value, decision) <= w
  }

  function Label(decision: u64, now: u64, touch: Option<u64>, w: u64): SurvivalLabel {
    if TouchInWindow(decision, touch, w) then Negative
    else if SatSub(now, decision) >= w then Positive
    else Censored
  }

  /** The three labels, each exactly: a touch within the window, none and the window over, or none
      yet. */
  lemma LabelIs(decision: u64, now: u64, touch: Option<u64>, w: u64)
    ensures var touched := touch.Some? && decision <= touch.value <= decision + w;
            && (Label(decision, now, touch, w) == Negative <==> touched)
            && (Label(decision, now, touch, w) == Positive <==> !touched && (w == 0 || now >= decision + w))
            && (Label(decision, now, touch, w) == Censored <==> !touched && w > 0 && now < decision + w)
  {
  }

  /** What may be seen later: time moves on, a touch once seen is kept, and a new first touch
      is no older than the earlier look. */
  predicate LaterView(now: u64, touch: Option<u64>, now': u64, touch': Option<u64>) {
    now <= now' && (touch.Some? ==> touch' == touch) && (touch.None? && touch'.Some? ==> touch'.value >= now)
  }

  /** A resolved label is final, whatever may be seen later, exactly when a touch was seen or the
      look came after the last tick of the window; until that tick is over a touch of its own
      tick can still arrive in the window. */
  lemma ResolvedLabelIsFinalIff(decision: u64, now: u64, touch: Option<u64>, w: u64)
    requires Label(decision, now, touch, w) != Censored
    ensures (forall now': u64, touch': Option<u64> :: LaterView(now, touch, now', touch') ==>
               Label(decision, now', touch', w) == Label(decision, now, touch, w))
       <==> touch.Some? || now > decision + w
  {
    if touch.None? && now <= decision + w {
      var late: Option<u64> := Some(if now < decision then decision else now);
      assert LaterView(now, touch, now, late);
      assert Label(decision, now, late, w) == Negative;
    }
  }

  /** A forget decided at tick 100 with window 50, looked at in tick 150 and touched in that
      same tick, flips from correct to wrong. */
  lemma ResolvedLabelCanFlip()
    ensures LaterView(150, None, 151, Some(150))
    ensures Label(100, 150, None, 50) == Positive && Label(100, 151, Some(150), 50) == Negative
  {
  }

  // ---- The empirical lower bound ---------------------------------------------------------

  /** The confidence argument 2/delta, at least 2; a large constant for an undefined delta. */
  function LnArgument(deltaNum: u32, deltaDen: u32): nat {
    if deltaNum == 0 then 0x10_0000 else
    var v := 2 * deltaDen / deltaNum;
    if v < 2 then 2 else v
  }

  /** The integer logarithm used for the penalties; `ln` is the fixed-point logarithm of the
      scoring crate, of which nothing is assumed. */
  function LnCeil(ln: nat -> int, deltaNum: u32, deltaDen: u32): int
    ensures LnCeil(ln, deltaNum, deltaDen) >= 1
  {
    Max(CeilDiv(ln(LnArgument(deltaNum, deltaDen)), 1000), 1)
  }

  /** n * sum_sq - sum^2 with saturation, clamped at zero. */
  function VarianceNumerator(sum: i64, sumSq: i128, n: u32): (v: i128)
    ensures v >= 0
  {
    var v := Sat128(Sat128(n * sumSq) - Sat128(sum * sum));
    if v < 0 then 0 else v
  }

  function VariancePenalty(sum: i64, sumSq: i128, n: u32, lnCeil: int): int
    requires n > 0
  {
    var variance := CeilDiv(VarianceNumerator(sum, sumSq, n), Sat128(n * n));
    IsqrtCeil(Max(TruncDiv(Sat128(Sat128(2 * variance) * lnCeil), Max(n, 1)), 0))
  }

  function RangePenalty(range: i64, n: u32, lnCeil: int): int {
    CeilDiv(Sat128(Sat128(7 * Sat64(Abs(range))) * lnCeil), Sat128(3 * Max(n - 1, 1)))
  }

  function EbLowerBound(sum: i64, sumSq: i128, n: u32, range: i64, deltaNum: u32, deltaDen: u32, lo: i64, ln: nat -> int): i64 {
    if n == 0 then lo else
    var mean := FloorDiv(sum, n);
    if n == 1 then Sat64(mean - Sat64(Abs(range))) else
    var lnCeil := LnCeil(ln, deltaNum, deltaDen);
    var bound := Sat128(Sat128(mean - VariancePenalty(sum, sumSq, n, lnCeil)) - RangePenalty(range, n, lnCeil));
    Sat64(Max(Sat64(bound), lo))
  }

  lemma PenaltiesAreNotNegative(sum: i64, sumSq: i128, n: u32, range: i64, lnCeil: int)
    requires n > 0 && lnCeil >= 1
    ensures VariancePenalty(sum, sumSq, n, lnCeil) >= 0 && RangePenalty(range, n, lnCeil) >= 0
  {
    hide IsqrtCeil, CeilDiv;
    IsqrtCeilIsLeast(Max(TruncDiv(Sat128(Sat128(2 * CeilDiv(VarianceNumerator(sum, sumSq, n), Sat128(n * n))) * lnCeil), Max(n, 1)), 0));
    NonNegativeProduct(7 * Sat64(Abs(range)), lnCeil);
    CeilDivNotNegative(Sat128(Sat128(7 * Sat64(Abs(range))) * lnCeil), Sat128(3 * Max(n - 1, 1)));
  }

  lemma NonNegativeProduct(a: int, b: int)
    requires a >= 0 && b >= 0
    ensures Sat128(Sat128(a) * b) >= 0
  {
    assert Sat128(a) * b >= 0;
  }

  lemma CeilDivNotNegative(num: int, den: int)
    requires num >= 0 && den > 0
    ensures CeilDiv(num, den) >= 0
  {
    CeilDivBound(num, den, -1);
  }

  /** The bound never claims more than the rounded-down mean, or than `lo` if that is more. */
  lemma EbBelowMean(sum: i64, sumSq: i128, n: u32, range: i64, deltaNum: u32, deltaDen: u32, lo: i64, ln: nat -> int)
    requires n > 0
    ensures EbLowerBound(sum, sumSq, n, range, deltaNum, deltaDen, lo, ln) <= Max(FloorDiv(sum, n), lo)
    ensures n > 1 ==> EbLowerBound(sum, sumSq, n, range, deltaNum, deltaDen, lo, ln) >= lo
  {
    hide FloorDiv, VariancePenalty, RangePenalty, LnCeil;
    FloorOfSum(sum, n);
    PenaltiesAreNotNegative(sum, sumSq, n, range, LnCeil(ln, deltaNum, deltaDen));
  }

  lemma FloorOfSum(sum: i64, n: u32)
    requires n > 0
    ensures I64_MIN <= FloorDiv(sum, n) <= I64_MAX
  {
    FloorDivIsFloor(sum, n);
    FloorDivBound(sum, n, I64_MIN);
    assert n * I64_MIN <= I64_MIN;
    FloorDivBound(sum, n, I64_MAX + 1);
    assert n * (I64_MAX + 1) >= I64_MAX + 1;
  }

  /** More spread never raises the bound: for a fixed sum and count it falls as the sum of
      squares grows. */
  lemma EbFallsWithSpread(sum: i64, sumSq: i128, sumSq': i128, n: u32, range: i64, deltaNum: u32, deltaDen: u32, lo: i64, ln: nat -> int)
    requires sumSq <= sumSq'
    ensures EbLowerBound(sum, sumSq', n, range, deltaNum, deltaDen, lo, ln)
         <= EbLowerBound(sum, sumSq, n, range, deltaNum, deltaDen, lo, ln)
  {
    hide FloorDiv, VariancePenalty, RangePenalty, LnCeil;
    if n > 1 {
      VariancePenaltyGrows(sum, sumSq, sumSq', n, LnCeil(ln, deltaNum, deltaDen));
    }
  }

  lemma VariancePenaltyGrows(sum: i64, sumSq: i128, sumSq': i128, n: u32, lnCeil: int)
    requires sumSq <= sumSq' && n > 0 && lnCeil >= 1
    ensures VariancePenalty(sum, sumSq, n, lnCeil) <= VariancePenalty(sum, sumSq', n, lnCeil)
  {
    hide IsqrtCeil, CeilDiv, TruncDiv, VarianceNumerator;
    var v, v' := VarianceNumerator(sum, sumSq, n), VarianceNumerator(sum, sumSq', n);
    VarianceNumeratorGrows(sum, sumSq, sumSq', n);
    var nSq := Sat128(n * n);
    SquareOfCount(n);
    CeilDivMonotone(v, v', nSq);
    CeilDivNotNegative(v, nSq);
    var a, a' := Sat128(2 * CeilDiv(v, nSq)), Sat128(2 * CeilDiv(v', nSq));
    ProductGrows(a, a', lnCeil);
    var x, x' := Sat128(a * lnCeil), Sat128(a' * lnCeil);
    TruncDivMonotone(x, x', n);
    IsqrtCeilMonotone(TruncDiv(x, n), TruncDiv(x', n));
  }

  lemma SquareOfCount(n: u32)
    requires n > 0
    ensures Sat128(n * n) == n * n > 0
  {
    assert 0 < n * n <= TWO32 * TWO32 by {
      SquaresOrdered(TWO32, n);
      SquaresOrdered(0, n);
    }
  }

  lemma ProductGrows(a: int, b: int, c: int)
    requires 0 <= a <= b && c >= 1
    ensures 0 <= Sat128(a * c) <= Sat128(b * c)
  {
    assert 0 <= a * c <= b * c;
  }

  lemma VarianceNumeratorGrows(sum: i64, sumSq: i128, sumSq': i128, n: u32)
    requires sumSq <= sumSq'
    ensures VarianceNumerator(sum, sumSq, n) <= VarianceNumerator(sum, sumSq', n)
  {
    NatProductGrows(n, sumSq, sumSq');
    Sat128Grows(n * sumSq, n * sumSq', sum * sum);
  }

  lemma NatProductGrows(n: nat, a: int, b: int)
    requires a <= b
    ensures n * a <= n * b
  {
  }

  lemma Sat128Grows(a: int, b: int, c: int)
    requires a <= b
    ensures Sat128(Sat128(a) - Sat128(c)) <= Sat128(Sat128(b) - Sat128(c))
  {
  }

  // ---- Rewards ------------------------------------------------------------------------------

  ghost function Sum(rs: seq<int>): int {
    if rs == [] then 0 else rs[0] + Sum(rs[1..])
  }

  ghost function SumSq(rs: seq<int>): int {
    if rs == [] then 0 else rs[0] * rs[0] + SumSq(rs[1..])
  }

  ghost predicate InBand(rs: seq<int>) {
    forall i :: 0 <= i < |rs| ==> Y_LO <= rs[i] <= Y_HI
  }

  /** Sum of squared distances from `x`, from the sufficient statistics. */
  ghost function Spread(q: int, s: int, n: int, x: int): int {
    q - 2 * (x * s) + n * (x * x)
  }

  lemma SpreadStep(r: int, q: int, s: int, n: int, x: int)
    ensures Spread(r * r + q, r + s, n + 1, x) == r * r - 2 * (x * r) + x * x + Spread(q, s, n, x)
  {
    Distribute(x, r, s);
    Distribute(x * x, n, 1);
  }

  lemma SquareOfDifference(r: int, x: int)
    ensures r * r - 2 * (x * r) + x * x == (r - x) * (r - x) >= 0
  {
  }

  lemma {:induction false} SpreadAround(rs: seq<int>, x: int)
    ensures Spread(SumSq(rs), Sum(rs), |rs|, x) >= 0
  {
    hide Spread;
    if rs == [] {
      NoSpread(x);
    } else {
      SpreadAround(rs[1..], x);
      SpreadStep(rs[0], SumSq(rs[1..]), Sum(rs[1..]), |rs| - 1, x);
      SquareOfDifference(rs[0], x);
    }
  }

  lemma NoSpread(x: int)
    ensures Spread(0, 0, 0, x) == 0
  {
  }

  /** The variance numerator of real rewards is never negative (Cauchy-Schwarz), so the clamp
      in the code never fires. */
  lemma {:induction false} VarianceIsNotNegative(rs: seq<int>)
    ensures |rs| * SumSq(rs) - Sum(rs) * Sum(rs) >= 0
  {
    if rs != [] {
      var r, q, s, n := rs[0], SumSq(rs[1..]), Sum(rs[1..]), |rs| - 1;
      VarianceIsNotNegative(rs[1..]);
      SpreadAround(rs[1..], r);
      VarianceStep(n, q, s, r);
    }
  }

  lemma VarianceStep(n: int, q: int, s: int, r: int)
    ensures (n + 1) * (r * r + q) - (r + s) * (r + s) == (n * q - s * s) + Spread(q, s, n, r)
  {
    Distribute(n + 1, r * r, q);
    Distribute(r * r, n, 1);
    Distribute(q, n, 1);
    Distribute(r + s, r, s);
    Distribute(r, r, s);
    Distribute(s, r, s);
  }

  lemma {:induction false} SumsInBand(rs: seq<int>)
    requires InBand(rs)
    ensures |rs| * Y_LO <= Sum(rs) <= |rs| * Y_HI
    ensures 0 <= SumSq(rs) <= |rs| * (Y_HI * Y_HI)
  {
    if rs != [] {
      SumsInBand(rs[1..]);
      SquareInBand(rs[0]);
    }
  }

  lemma SquareInBand(r: int)
    requires Y_LO <= r <= Y_HI
    ensures 0 <= r * r <= Y_HI * Y_HI
  {
    SquaresOrdered(Y_HI, Abs(r));
    assert r * r == Abs(r) * Abs(r);
  }

  /** For rewards in the band neither saturation nor the clamp changes the variance numerator. */
  lemma ClampNeverFires(rs: seq<int>)
    requires InBand(rs) && 0 < |rs| < TWO32
    ensures I64_MIN <= Sum(rs) <= I64_MAX && 0 <= SumSq(rs) <= I128_MAX
    ensures VarianceNumerator(Sum(rs), SumSq(rs), |rs|) == |rs| * SumSq(rs) - Sum(rs) * Sum(rs) >= 0
  {
    hide Sum, SumSq;
    SumsInBand(rs);
    VarianceIsNotNegative(rs);
    var n, q, s := |rs|, SumSq(rs), Sum(rs);
    assert 0 <= n * q <= TWO32 * (TWO32 * (Y_HI * Y_HI)) by {
      assert n * q <= n * (n * (Y_HI * Y_HI)) <= TWO32 * (TWO32 * (Y_HI * Y_HI)) by {
        SquaresOrdered(TWO32, n);
        assert n * (n * (Y_HI * Y_HI)) == (n * n) * (Y_HI * Y_HI);
      }
    }
    assert 0 <= s * s <= n * q;
  }

  // ---- What the bound is -------------------------------------------------------------------------

  /** The bound's ingredients for more than one reward, each the only number that meets its
      inequalities: the mean rounded down; the variance rounded up; twice the variance times `l` over
      n, rounded down; its square root rounded up; and seven ranges times `l` over 3 (n - 1), rounded
      up. */
  ghost predicate Ingredients(rs: seq<int>, l: int, mean: int, v: int, x: int, root: int, p: int) {
    var n, sum := |rs|, Sum(rs);
    && n * mean <= sum < n * mean + n
    && (n * n) * (v - 1) < n * SumSq(rs) - sum * sum <= (n * n) * v
    && n * x <= 2 * v * l < n * x + n
    && IsCeilSqrt(root, x)
    && 3 * (n - 1) * (p - 1) < 7 * 68_000 * l <= 3 * (n - 1) * p
  }

  /** The logarithm, rounded up and at least 1, of 2 / delta, rounded down and at least 2. */
  ghost predicate IsLn(ln: nat -> int, deltaNum: u32, deltaDen: u32, l: int) {
    exists a: nat ::
      && (if deltaNum == 0 then a == 1_048_576
          else a >= 2 && (deltaNum * a <= 2 * deltaDen || a == 2) && 2 * deltaDen < deltaNum * (a + 1))
      && l >= 1 && ln(a) <= 1000 * l && (l > 1 ==> 1000 * (l - 1) < ln(a))
  }

  lemma LnCeilIs(ln: nat -> int, deltaNum: u32, deltaDen: u32)
    ensures IsLn(ln, deltaNum, deltaDen, LnCeil(ln, deltaNum, deltaDen))
  {
    hide CeilDiv;
    var a := LnArgument(deltaNum, deltaDen);
    CeilDivIsCeil(ln(a), 1000);
    if deltaNum > 0 {
      var v := 2 * deltaDen / deltaNum;
      assert deltaNum * v <= 2 * deltaDen < deltaNum * (v + 1);
      NatProductGrows(deltaNum, v + 1, a + 1);
    }
  }

  lemma VarianceIs(rs: seq<int>) returns (v: int)
    requires InBand(rs) && 0 < |rs| < TWO32
    ensures I64_MIN <= Sum(rs) <= I64_MAX && 0 <= SumSq(rs) <= I128_MAX
    ensures v == CeilDiv(VarianceNumerator(Sum(rs), SumSq(rs), |rs|), Sat128(|rs| * |rs|))
    ensures 0 <= v <= Y_HI * Y_HI
    ensures (|rs| * |rs|) * (v - 1) < |rs| * SumSq(rs) - Sum(rs) * Sum(rs) <= (|rs| * |rs|) * v
  {
    hide Sum, SumSq, CeilDiv, VarianceNumerator, Sat128;
    var n, sum, q := |rs|, Sum(rs), SumSq(rs);
    ClampNeverFires(rs);
    SquareOfCount(n);
    SumsInBand(rs);
    var num := n * q - sum * sum;
    v := CeilDiv(num, n * n);
    CeilDivIsCeil(num, n * n);
    CeilDivNotNegative(num, n * n);
    assert num <= (n * n) * (Y_HI * Y_HI) by {
      NatProductGrows(n, q, n * (Y_HI * Y_HI));
      assert n * (n * (Y_HI * Y_HI)) == (n * n) * (Y_HI * Y_HI);
      assert sum * sum >= 0;
    }
    CeilDivBound(num, n * n, Y_HI * Y_HI);
  }

  lemma ProductWithin(a: int, b: int, most: int, times: int)
    requires 0 <= a <= most && 0 <= b <= times
    ensures 0 <= a * b <= most * times
  {
  }

  /** While the logarithm is below 2^64 nothing under the root saturates. */
  lemma InnerIs(v: int, l: int)
    requires 0 <= v <= Y_HI * Y_HI && 1 <= l <= TWO64
    ensures Sat128(Sat128(2 * v) * l) == 2 * v * l && 0 <= 2 * v * l <= 2 * (Y_HI * Y_HI) * TWO64
  {
    ProductWithin(2 * v, l, 2 * (Y_HI * Y_HI), TWO64);
    assert Sat128(2 * v) == 2 * v;
    var y := (2 * v) * l;
    assert Sat128(y) == y;
  }

  lemma RootOf(x: int)
    requires 0 <= x <= 2 * (Y_HI * Y_HI) * TWO64
    ensures IsCeilSqrt(IsqrtCeil(x), x) && 0 <= IsqrtCeil(x) <= I64_MAX
  {
    hide IsqrtCeil;
    IsqrtCeilIsLeast(x);
    RootFits(x);
  }

  lemma RootIs(v: int, l: int, n: u32) returns (x: int, root: int)
    requires 0 <= v <= Y_HI * Y_HI && 1 <= l <= TWO64 && n > 0
    ensures root == IsqrtCeil(Max(TruncDiv(Sat128(Sat128(2 * v) * l), Max(n, 1)), 0))
    ensures n * x <= 2 * v * l < n * x + n && IsCeilSqrt(root, x) && 0 <= root <= I64_MAX
  {
    hide IsqrtCeil, TruncDiv, Sat128, IsCeilSqrt;
    InnerIs(v, l);
    var y := 2 * v * l;
    x := TruncDiv(y, n);
    TruncIsFloor(y, n);
    NatProductGrows(x, 1, n);
    root := IsqrtCeil(x);
    RootOf(x);
  }

  lemma TruncIsFloor(y: int, n: int)
    requires y >= 0 && n > 0
    ensures TruncDiv(y, n) >= 0 && n * TruncDiv(y, n) <= y < n * TruncDiv(y, n) + n
  {
    TruncDivMonotone(0, y, n);
    TruncRemIsSmall(y, n);
  }

  lemma RootFits(x: int)
    ensures 0 <= IsqrtCeil(x) <= I64_MAX
  {
    hide CeilSqrtFrom;
    IsqrtCeilIsLeast(x);
  }

  lemma RangeIs(l: int, n: u32) returns (p: int)
    requires 1 <= l <= TWO64 && n > 1
    ensures p == RangePenalty(Sat64(Y_HI - Y_LO), n, l)
    ensures 3 * (n - 1) * (p - 1) < 7 * 68_000 * l <= 3 * (n - 1) * p && 0 <= p <= 7 * 68_000 * TWO64
  {
    hide CeilDiv;
    assert Sat128(Sat128(7 * Sat64(Abs(Sat64(Y_HI - Y_LO)))) * l) == 7 * 68_000 * l;
    p := CeilDiv(7 * 68_000 * l, 3 * (n - 1));
    CeilDivIsCeil(7 * 68_000 * l, 3 * (n - 1));
    CeilDivNotNegative(7 * 68_000 * l, 3 * (n - 1));
    NatProductGrows(7 * 68_000 * TWO64, 1, 3 * (n - 1));
    CeilDivBound(7 * 68_000 * l, 3 * (n - 1), 7 * 68_000 * TWO64);
  }

  lemma BoundIs(mean: int, root: int, p: int)
    requires I64_MIN <= mean <= I64_MAX && 0 <= root <= I64_MAX && 0 <= p <= 7 * 68_000 * TWO64
    ensures Sat64(Max(Sat64(Sat128(Sat128(mean - root) - p)), Y_LO)) == Max(mean - root - p, Y_LO)
  {
  }

  lemma EbIsSmallLn(rs: seq<int>, deltaNum: u32, deltaDen: u32, ln: nat -> int)
    returns (mean: int, v: int, x: int, root: int, p: int)
    requires InBand(rs) && 1 < |rs| < TWO32 && LnCeil(ln, deltaNum, deltaDen) <= TWO64
    ensures I64_MIN <= Sum(rs) <= I64_MAX && 0 <= SumSq(rs) <= I128_MAX
    ensures Ingredients(rs, LnCeil(ln, deltaNum, deltaDen), mean, v, x, root, p)
    ensures EbLowerBound(Sum(rs), SumSq(rs), |rs|, Sat64(Y_HI - Y_LO), deltaNum, deltaDen, Y_LO, ln)
         == Max(mean - root - p, -34_000)
  {
    hide Sum, SumSq, CeilDiv, FloorDiv, LnCeil, VarianceNumerator, RangePenalty, IsqrtCeil, TruncDiv, IsCeilSqrt, Sat128, Sat64, Max;
    var l, n := LnCeil(ln, deltaNum, deltaDen), |rs|;
    v := VarianceIs(rs);
    x, root := RootIs(v, l, n);
    p := RangeIs(l, n);
    mean := FloorDiv(Sum(rs), n);
    FloorDivIsFloor(Sum(rs), n);
    FloorOfSum(Sum(rs), n);
    BoundIs(mean, root, p);
  }

  /** For huge logarithms the range penalty alone takes the bound to the worst reward. */
  lemma HugeLnIsWorst(sum: i64, sumSq: i128, n: u32, deltaNum: u32, deltaDen: u32, ln: nat -> int)
    requires n > 1 && n * Y_LO <= sum <= n * Y_HI && LnCeil(ln, deltaNum, deltaDen) > TWO64
    ensures EbLowerBound(sum, sumSq, n, Sat64(Y_HI - Y_LO), deltaNum, deltaDen, Y_LO, ln) == Y_LO
  {
    hide FloorDiv, LnCeil, VariancePenalty, RangePenalty, CeilDiv;
    var l, range := LnCeil(ln, deltaNum, deltaDen), Sat64(Y_HI - Y_LO);
    FloorDivBound(sum, n, Y_LO);
    FloorDivBound(sum, n, Y_HI + 1);
    Distribute(n, Y_HI, 1);
    PenaltiesAreNotNegative(sum, sumSq, n, range, l);
    HugePenalty(n, l);
  }

  lemma HugePenalty(n: u32, l: int)
    requires n > 1 && l > TWO64
    ensures RangePenalty(Sat64(Y_HI - Y_LO), n, l) >= TWO32
  {
    hide CeilDiv;
    var top := Sat128(Sat128(7 * Sat64(Abs(Sat64(Y_HI - Y_LO)))) * l);
    NatProductGrows(7 * 68_000, TWO64, l);
    assert top >= 7 * 68_000 * TWO64;
    CeilDivBound(top, 3 * (n - 1), TWO32 - 1);
    NatProductGrows(TWO32 - 1, 3 * (n - 1), 3 * TWO32);
  }

  /** Ingredients exist for any logarithm, and for a huge one they leave less than the worst reward. */
  lemma HugeIngredients(rs: seq<int>, l: int) returns (mean: int, v: int, x: int, root: int, p: int)
    requires InBand(rs) && 1 < |rs| < TWO32 && l > TWO64
    ensures Ingredients(rs, l, mean, v, x, root, p) && mean - root - p <= -34_000
  {
    hide Sum, SumSq, CeilDiv, FloorDiv, TruncDiv, VarianceNumerator;
    var n := |rs|;
    SumsInBand(rs);
    v := VarianceIs(rs);
    mean := FloorDiv(Sum(rs), n);
    FloorDivIsFloor(Sum(rs), n);
    FloorDivBound(Sum(rs), n, Y_HI + 1);
    Distribute(n, Y_HI, 1);
    NatProductGrows(l, 0, 2 * v);
    assert 2 * v * l == l * (2 * v) >= 0;
    x := TruncDiv(2 * v * l, n);
    TruncIsFloor(2 * v * l, n);
    CeilSqrtFromIs(x, 0);
    root := CeilSqrtFrom(x, 0);
    p := CeilDiv(7 * 68_000 * l, 3 * (n - 1));
    CeilDivIsCeil(7 * 68_000 * l, 3 * (n - 1));
    CeilDivBound(7 * 68_000 * l, 3 * (n - 1), 68_000);
    NatProductGrows(68_000, 3 * (n - 1), 3 * TWO32);
  }

  /** The empirical lower bound of in-band rewards, exactly: of more than one it is the mean less the
      two penalties, but no less than the worst reward. */
  lemma EbIs(rs: seq<int>, deltaNum: u32, deltaDen: u32, ln: nat -> int)
    returns (l: int, mean: int, v: int, x: int, root: int, p: int)
    requires InBand(rs) && 1 < |rs| < TWO32
    ensures I64_MIN <= Sum(rs) <= I64_MAX && 0 <= SumSq(rs) <= I128_MAX
    ensures IsLn(ln, deltaNum, deltaDen, l) && Ingredients(rs, l, mean, v, x, root, p)
    ensures EbLowerBound(Sum(rs), SumSq(rs), |rs|, 68_000, deltaNum, deltaDen, -34_000, ln)
         == Max(mean - root - p, -34_000)
  {
    hide Sum, SumSq, LnCeil, Ingredients, EbLowerBound, IsLn, VarianceNumerator;
    ClampNeverFires(rs);
    SumsInBand(rs);
    LnCeilIs(ln, deltaNum, deltaDen);
    l := LnCeil(ln, deltaNum, deltaDen);
    assert Sat64(Y_HI - Y_LO) == 68_000;
    if l <= TWO64 {
      mean, v, x, root, p := EbIsSmallLn(rs, deltaNum, deltaDen, ln);
    } else {
      HugeLnIsWorst(Sum(rs), SumSq(rs), |rs|, deltaNum, deltaDen, ln);
      mean, v, x, root, p := HugeIngredients(rs, l);
    }
  }

  /** Of one reward it is the reward less a whole range; of none it is the floor given. */
  lemma EbOfFew(r: i64, sumSq: i128, deltaNum: u32, deltaDen: u32, lo: i64, ln: nat -> int)
    requires Y_LO <= r <= Y_HI
    ensures EbLowerBound(r, sumSq, 1, 68_000, deltaNum, deltaDen, lo, ln) == r - 68_000
    ensures EbLowerBound(r, sumSq, 0, 68_000, deltaNum, deltaDen, lo, ln) == lo
  {
    hide FloorDiv;
    FloorDivIsFloor(r, 1);
  }

  lemma {:induction false} HalfAndHalf(k: nat)
    ensures var rs := seq(k, _ => 34_000) + seq(k, _ => -34_000);
            |rs| == 2 * k && InBand(rs) && Sum(rs) == 0 && SumSq(rs) == 2 * k * 1_156_000_000
  {
    var a, b := seq(k, _ => 34_000), seq(k, _ => -34_000);
    SumOfSame(a, 34_000);
    SumOfSame(b, -34_000);
    SumOfConcat(a, b);
    SquaresOfSame(a, 34_000);
    SquaresOfSame(b, -34_000);
    SquaresOfConcat(a, b);
  }

  lemma {:induction false} SquaresOfSame(rs: seq<int>, r: int)
    requires forall i :: 0 <= i < |rs| ==> rs[i] == r
    ensures SumSq(rs) == |rs| * (r * r)
  {
    if rs != [] {
      SquaresOfSame(rs[1..], r);
      Distribute(r * r, |rs| - 1, 1);
    }
  }

  lemma {:induction false} SquaresOfConcat(a: seq<int>, b: seq<int>)
    ensures SumSq(a + b) == SumSq(a) + SumSq(b)
  {
    if a == [] {
      assert a + b == b;
    } else {
      assert (a + b)[1..] == a[1..] + b;
      SquaresOfConcat(a[1..], b);
    }
  }

  /** Spread costs: five thousand of the best rewards and as many of the worst, at delta 1/10 and a
      logarithm of 2945 thousandths for 20, leave a bound of -881, of which 833 are for the spread. */
  lemma SpreadCosts(ln: nat -> int)
    requires ln(20) == 2945
    ensures EbLowerBound(0, 10_000 * 1_156_000_000, 10_000, 68_000, 1, 10, -34_000, ln) == -881
  {
    hide Sum, SumSq, EbLowerBound;
    var rs := seq(5000, _ => 34_000) + seq(5000, _ => -34_000);
    HalfAndHalf(5000);
    var l, mean, v, x, root, p := EbIs(rs, 1, 10, ln);
    OnlyIngredients(rs, ln, l, mean, v, x, root, p);
  }

  lemma OnlyIngredients(rs: seq<int>, ln: nat -> int, l: int, mean: int, v: int, x: int, root: int, p: int)
    requires |rs| == 10_000 && Sum(rs) == 0 && SumSq(rs) == 10_000 * 1_156_000_000 && ln(20) == 2945
    requires IsLn(ln, 1, 10, l) && Ingredients(rs, l, mean, v, x, root, p)
    ensures mean == 0 && root == 833 && p == 48
  {
    hide Sum, SumSq;
    assert l == 3 && mean == 0 && v == 1_156_000_000 && x == 693_600;
    SquaresOrdered(833, root);
    SquaresOrdered(root, 833);
    SquaresOrdered(832, root);
    if root > 833 {
      SquaresOrdered(832, root - 1);
      assert 833 * 833 <= (root - 1) * (root - 1) by { SquaresOrdered(root - 1, 833); }
    }
  }

  // ---- The gate ------------------------------------------------------------------------------

  function ValueLowerBound(sum: i64, sumSq: i128, nOverlap: u32, nTotal: u32, grid: Grid, deltaNum: u32, deltaDen: u32, ln: nat -> int): i64 {
    if nTotal == 0 then Y_LO else
    var overlapLb := EbLowerBound(sum, sumSq, nOverlap, Sat64(Y_HI - Y_LO), deltaNum, deltaDen, Y_LO, ln);
    var num := Sat128(Sat128(overlapLb * nOverlap) + Sat128(FloorMean(grid) * SatSub(nTotal, nOverlap)));
    Clamp(Sat64(FloorDiv(num, nTotal)), Y_LO, Y_HI)
  }

  /** The mean over the resolved labels, rounded up; the best reward if there are none. */
  function ResolvedMean(heurSum: i64, nResolved: u32): i64 {
    if nResolved == 0 then Y_HI else Sat64(CeilDiv(heurSum, nResolved))
  }

  function ValueUpperHeuristic(heurSum: i64, nResolved: u32, nTotal: u32): i64 {
    if nTotal == 0 then Y_HI else
    var num := Sat128(Sat128(ResolvedMean(heurSum, nResolved) * nResolved) + Sat128(Y_HI * SatSub(nTotal, nResolved)));
    Clamp(Sat64(CeilDiv(num, nTotal)), Y_LO, Y_HI)
  }

  datatype GateVerdict = Cleared | NotMet | NotEvaluable

  function GateClears(vloKan: i64, vhiHeur: i64, margin: i64, nResolved: u32, overlapMass: u64): GateVerdict {
    if nResolved < MIN_RESOLVED_SUPPORT || overlapMass < MIN_OVERLAP_MASS then NotEvaluable
    else if Sat128(vloKan - vhiHeur) >= margin then Cleared
    else NotMet
  }

  /** When the gate clears, when it refuses, and when there is nothing to judge by. */
  lemma VerdictIs(vloKan: i64, vhiHeur: i64, margin: i64, nResolved: u32, overlapMass: u64)
    ensures var v := GateClears(vloKan, vhiHeur, margin, nResolved, overlapMass);
            && (v == NotEvaluable <==> nResolved == 0 || overlapMass == 0)
            && (v == Cleared <==> nResolved > 0 && overlapMass > 0 && vloKan - vhiHeur >= margin)
            && (v == NotMet <==> nResolved > 0 && overlapMass > 0 && vloKan - vhiHeur < margin)
  {
  }

  ghost function Mean(rs: seq<int>): real
    requires rs != []
  {
    Sum(rs) as real / |rs| as real
  }

  lemma MeanBounds(rs: seq<int>, v: int)
    requires rs != []
    ensures |rs| * v <= Sum(rs) ==> v as real <= Mean(rs)
    ensures Sum(rs) <= |rs| * v ==> Mean(rs) <= v as real
  {
    hide Sum;
    var n, s := |rs| as real, Sum(rs) as real;
    assert (|rs| * v) as real == n * v as real;
    assert Mean(rs) * n == s;
    if |rs| * v <= Sum(rs) {
      QuotientOrder(n, v as real, Mean(rs));
    }
    if Sum(rs) <= |rs| * v {
      QuotientOrder(n, Mean(rs), v as real);
    }
  }

  lemma QuotientOrder(n: real, a: real, b: real)
    requires n > 0.0 && n * a <= n * b
    ensures a <= b
  {
    if a > b {
      ProductOrder(n, a, b);
      assert false;
    }
  }

  lemma ProductOrder(n: real, a: real, b: real)
    requires n > 0.0 && a > b
    ensures n * a > n * b
  {
    assert n * (a - b) > 0.0;
  }

  lemma {:induction false} SumOfConcat(a: seq<int>, b: seq<int>)
    ensures Sum(a + b) == Sum(a) + Sum(b)
  {
    if a == [] {
      assert a + b == b;
    } else {
      assert (a + b)[1..] == a[1..] + b;
      SumOfConcat(a[1..], b);
    }
  }

  /** The rewards of the unexplored decisions, cell by cell. */
  type PerCell = cells: seq<seq<int>> | |cells| == GRID_CELLS witness seq(GRID_CELLS, _ => [])

  ghost function Flatten(cells: PerCell, n: nat): seq<int>
    requires n <= GRID_CELLS
  {
    if n == 0 then [] else Flatten(cells, n - 1) + cells[n - 1]
  }

  /** What each cell's unexplored decisions may earn: within the band, at least the cell's floor. */
  ghost predicate AboveFloors(cells: PerCell, grid: Grid) {
    forall c :: 0 <= c < GRID_CELLS ==>
      InBand(cells[c]) && forall i :: 0 <= i < |cells[c]| ==> cells[c][i] >= CellFloor(grid, c)
  }

  /** How many unexplored decisions fall into each cell. */
  type Counts = ks: seq<nat> | |ks| == GRID_CELLS witness seq(GRID_CELLS, _ => 0)

  ghost function CountsOf(cells: PerCell): (ks: Counts) {
    seq(GRID_CELLS, c requires 0 <= c < GRID_CELLS => |cells[c]|)
  }

  function TotalCount(ks: Counts, n: nat): nat
    requires n <= GRID_CELLS
  {
    if n == 0 then 0 else TotalCount(ks, n - 1) + ks[n - 1]
  }

  /** The floors of the cells, each counted as often as decisions fall into it. */
  function CountedFloor(ks: Counts, grid: Grid, n: nat): int
    requires n <= GRID_CELLS
  {
    if n == 0 then 0 else CountedFloor(ks, grid, n - 1) + ks[n - 1] * CellFloor(grid, n - 1)
  }

  /** The decisions do not fall into the low cells so often that the uniform mean of the floors
      exceeds their own mean floor. */
  predicate FallsFairly(ks: Counts, grid: Grid) {
    CountedFloor(ks, grid, GRID_CELLS) >= TotalCount(ks, GRID_CELLS) * FloorMean(grid)
  }

  /** The explored cell rewards lie in the band. */
  ghost predicate GridInBand(grid: Grid) {
    forall c :: 0 <= c < GRID_CELLS && grid[c].Some? ==> Y_LO <= grid[c].value <= Y_HI
  }

  lemma {:induction false} SumAbove(rs: seq<int>, floor: int)
    requires forall i :: 0 <= i < |rs| ==> rs[i] >= floor
    ensures Sum(rs) >= |rs| * floor
  {
    if rs != [] {
      SumAbove(rs[1..], floor);
    }
  }

  lemma {:induction false} FlattenShape(cells: PerCell, grid: Grid, n: nat)
    requires AboveFloors(cells, grid) && n <= GRID_CELLS
    ensures |Flatten(cells, n)| == TotalCount(CountsOf(cells), n) && InBand(Flatten(cells, n))
  {
    hide CellFloor;
    if n > 0 {
      FlattenShape(cells, grid, n - 1);
    }
  }

  lemma {:induction false} CellsAboveFloors(cells: PerCell, grid: Grid, n: nat)
    requires AboveFloors(cells, grid) && n <= GRID_CELLS
    ensures Sum(Flatten(cells, n)) >= CountedFloor(CountsOf(cells), grid, n)
  {
    hide CellFloor, Sum, AboveFloors;
    if n == 0 {
      EmptySum();
    } else {
      CellsAboveFloors(cells, grid, n - 1);
      CellAboveFloor(cells, grid, n - 1);
      SumOfConcat(Flatten(cells, n - 1), cells[n - 1]);
    }
  }

  lemma CellAboveFloor(cells: PerCell, grid: Grid, c: nat)
    requires AboveFloors(cells, grid) && c < GRID_CELLS
    ensures Sum(cells[c]) >= |cells[c]| * CellFloor(grid, c)
  {
    hide CellFloor, Sum;
    SumAbove(cells[c], CellFloor(grid, c));
  }

  lemma BandFloor(grid: Grid, c: nat)
    requires GridInBand(grid) && c < GRID_CELLS
    ensures Y_LO <= CellFloor(grid, c) <= Y_HI
  {
    BandClaim(grid, c, GRID_CELLS);
  }

  lemma {:induction false} BandClaim(grid: Grid, c: nat, n: nat)
    requires GridInBand(grid) && n <= GRID_CELLS
    ensures BestClaim(grid, c, n).Some? ==> BestClaim(grid, c, n).value <= Y_HI
  {
    if n > 0 {
      BandClaim(grid, c, n - 1);
    }
  }

  /** Every decision earns exactly its cell's floor. */
  ghost function Lowest(ks: Counts, grid: Grid): (cells: PerCell) {
    seq(GRID_CELLS, c requires 0 <= c < GRID_CELLS => seq(ks[c], _ => CellFloor(grid, c)))
  }

  lemma LowestIsAllowed(ks: Counts, grid: Grid)
    requires GridInBand(grid)
    ensures AboveFloors(Lowest(ks, grid), grid) && CountsOf(Lowest(ks, grid)) == ks
  {
    hide CellFloor;
    forall c | 0 <= c < GRID_CELLS
      ensures InBand(Lowest(ks, grid)[c])
    {
      BandFloor(grid, c);
    }
  }

  lemma {:induction false} LowestSum(ks: Counts, grid: Grid, n: nat)
    requires n <= GRID_CELLS
    ensures Sum(Flatten(Lowest(ks, grid), n)) == CountedFloor(ks, grid, n)
  {
    hide CellFloor, Sum;
    if n == 0 {
      EmptySum();
    } else {
      LowestSum(ks, grid, n - 1);
      var cells := Lowest(ks, grid);
      SumOfConcat(Flatten(cells, n - 1), cells[n - 1]);
      SumOfSame(cells[n - 1], CellFloor(grid, n - 1));
    }
  }

  lemma {:induction false} SumOfSame(rs: seq<int>, r: int)
    requires forall i :: 0 <= i < |rs| ==> rs[i] == r
    ensures Sum(rs) == |rs| * r
  {
    if rs != [] {
      SumOfSame(rs[1..], r);
    }
  }

  lemma EmptySum()
    ensures Sum([]) == 0
  {
  }

  lemma Distribute(k: int, a: int, b: int)
    ensures k * (a + b) == k * a + k * b
  {
  }

  /** The weight the code gives to the unexplored decisions: whatever they earn above their
      floors, they sum to at least the floor mean each, if and only if they fall fairly. */
  lemma UnexploredAboveFloorMeanIff(ks: Counts, grid: Grid)
    requires GridInBand(grid)
    ensures (forall cells: PerCell :: CountsOf(cells) == ks && AboveFloors(cells, grid) ==>
               Sum(Flatten(cells, GRID_CELLS)) >= TotalCount(ks, GRID_CELLS) * FloorMean(grid))
       <==> FallsFairly(ks, grid)
  {
    hide CountedFloor, TotalCount, FloorMean, AboveFloors, Flatten, Sum, Lowest, CountsOf;
    forall cells: PerCell | CountsOf(cells) == ks && AboveFloors(cells, grid)
      ensures Sum(Flatten(cells, GRID_CELLS)) >= CountedFloor(ks, grid, GRID_CELLS)
    {
      CellsAboveFloors(cells, grid, GRID_CELLS);
    }
    LowestIsAllowed(ks, grid);
    LowestSum(ks, grid, GRID_CELLS);
  }

  /** Decisions spread evenly over the cells fall fairly. */
  lemma EvenSpreadIsFair(ks: Counts, grid: Grid, k: nat)
    requires forall c :: 0 <= c < GRID_CELLS ==> ks[c] == k
    ensures FallsFairly(ks, grid)
  {
    hide TotalFloor, FloorMean, CountedFloor, TotalCount;
    EvenCounts(ks, grid, k, GRID_CELLS);
    FloorMeanIsFloor(grid);
    NatProductGrows(k, GRID_CELLS * FloorMean(grid), TotalFloor(grid, GRID_CELLS));
  }

  lemma EvenStep(n: int, k: int, total: int, floor: int)
    ensures n * k == (n - 1) * k + k
    ensures k * (total + floor) == k * total + k * floor
  {
  }

  lemma {:induction false} EvenCounts(ks: Counts, grid: Grid, k: nat, n: nat)
    requires n <= GRID_CELLS && forall c :: 0 <= c < GRID_CELLS ==> ks[c] == k
    ensures TotalCount(ks, n) == n * k
    ensures CountedFloor(ks, grid, n) == k * TotalFloor(grid, n)
  {
    hide CellFloor;
    if n > 0 {
      EvenCounts(ks, grid, k, n - 1);
      EvenStep(n, k, TotalFloor(grid, n - 1), CellFloor(grid, n - 1));
    }
  }

  /** The sum of in-band rewards fits the 64-bit sums the estimators take. */
  ghost function BandSum(rs: seq<int>): (s: i64)
    requires InBand(rs) && |rs| < TWO32
    ensures s == Sum(rs)
  {
    SumsInBand(rs);
    Sum(rs)
  }

  lemma ProductFits(a: i64, n: u32)
    ensures Sat128(a * n) == a * n
    ensures -0x8000_0000_0000_0000 * TWO32 <= a * n <= 0x8000_0000_0000_0000 * TWO32
  {
    assert -0x8000_0000_0000_0000 * n <= a * n <= 0x8000_0000_0000_0000 * n;
  }

  lemma EmptySums(rs: seq<int>)
    requires |rs| == 0
    ensures Sum(rs) == 0
  {
  }

  /** The explored part: count times bound is below the sum. */
  lemma EbBelowSum(rs: seq<int>, sumSq: i128, range: i64, deltaNum: u32, deltaDen: u32, ln: nat -> int)
    requires InBand(rs) && |rs| < TWO32
    ensures |rs| * EbLowerBound(BandSum(rs), sumSq, |rs|, range, deltaNum, deltaDen, Y_LO, ln) <= Sum(rs)
  {
    hide EbLowerBound, FloorDiv, Sum;
    var n := |rs|;
    if n == 0 {
      EmptySums(rs);
    } else {
      var lb := EbLowerBound(BandSum(rs), sumSq, n, range, deltaNum, deltaDen, Y_LO, ln);
      EbBelowMean(BandSum(rs), sumSq, n, range, deltaNum, deltaDen, Y_LO, ln);
      SumsInBand(rs);
      FloorDivIsFloor(Sum(rs), n);
      NatProductGrows(n, lb, Max(FloorDiv(Sum(rs), n), Y_LO));
    }
  }

  /** What `V_lower` is computed from: the explored rewards, and how many decisions there are. */
  ghost function LowerValue(explored: seq<int>, sumSq: i128, m: nat, grid: Grid, deltaNum: u32, deltaDen: u32, ln: nat -> int): i64
    requires InBand(explored) && |explored| + m < TWO32
  {
    ValueLowerBound(BandSum(explored), sumSq, |explored|, |explored| + m, grid, deltaNum, deltaDen, ln)
  }

  /** `V_lower` is below the mean of the policy, whatever the unexplored decisions earn above their
      cells' floors, when they fall fairly. */
  lemma ValueLowerIsSound(explored: seq<int>, sumSq: i128, cells: PerCell, grid: Grid, deltaNum: u32, deltaDen: u32, ln: nat -> int)
    requires InBand(explored) && AboveFloors(cells, grid) && FallsFairly(CountsOf(cells), grid)
    requires 0 < |explored| + TotalCount(CountsOf(cells), GRID_CELLS) < TWO32
    ensures var all := explored + Flatten(cells, GRID_CELLS);
            var m := TotalCount(CountsOf(cells), GRID_CELLS);
            |all| == |explored| + m && |all| * LowerValue(explored, sumSq, m, grid, deltaNum, deltaDen, ln) <= Sum(all)
  {
    hide Sum, EbLowerBound, FloorDiv, FloorMean, AboveFloors, Flatten, Sat128, CountsOf, TotalCount, CountedFloor;
    var n, m := |explored|, TotalCount(CountsOf(cells), GRID_CELLS);
    var lb := EbLowerBound(BandSum(explored), sumSq, n, Sat64(Y_HI - Y_LO), deltaNum, deltaDen, Y_LO, ln);
    var unexplored := Flatten(cells, GRID_CELLS);
    CellsAboveFloors(cells, grid, GRID_CELLS);
    FlattenShape(cells, grid, GRID_CELLS);
    EbBelowSum(explored, sumSq, Sat64(Y_HI - Y_LO), deltaNum, deltaDen, ln);
    ProductFits(lb, n);
    ProductFits(FloorMean(grid), m);
    SumFits(lb * n, FloorMean(grid) * m);
    var num := lb * n + FloorMean(grid) * m;
    FloorDivIsFloor(num, n + m);
    SumOfConcat(explored, unexplored);
    SumsInBand(explored);
    SumsInBand(unexplored);
    var v := LowerValue(explored, sumSq, m, grid, deltaNum, deltaDen, ln);
    assert v == Clamp(Sat64(FloorDiv(num, n + m)), Y_LO, Y_HI);
    NatProductGrows(n + m, v, Max(FloorDiv(num, n + m), Y_LO));
    Distribute(Y_LO, n, m);
  }

  lemma FloorMeanInBand(grid: Grid)
    requires GridInBand(grid)
    ensures Y_LO <= FloorMean(grid) <= Y_HI
  {
    hide TotalFloor, FloorMean;
    TotalInBand(grid, GRID_CELLS);
    FloorMeanIsFloor(grid);
  }

  lemma {:induction false} TotalInBand(grid: Grid, n: nat)
    requires GridInBand(grid) && n <= GRID_CELLS
    ensures n * Y_LO <= TotalFloor(grid, n) <= n * Y_HI
  {
    hide CellFloor;
    if n > 0 {
      TotalInBand(grid, n - 1);
      BandFloor(grid, n - 1);
    }
  }

  // ---- Batches -------------------------------------------------------------------------------

  /** The best reward explored in a cell. */
  function Best(rs: seq<int>): (r: int)
    requires rs != []
    ensures r in rs && forall i :: 0 <= i < |rs| ==> rs[i] <= r
  {
    if |rs| == 1 then rs[0]
    else
      var b := Best(rs[1..]);
      assert rs == [rs[0]] + rs[1..];
      if rs[0] > b then rs[0] else b
  }

  ghost predicate CellsInBand(cells: PerCell) {
    forall c :: 0 <= c < GRID_CELLS ==> InBand(cells[c])
  }

  /** The grid the caller fills: per cell the best explored reward, if any. */
  ghost function ExploredGrid(explored: PerCell): (grid: Grid)
    requires CellsInBand(explored)
    ensures GridInBand(grid)
  {
    seq(GRID_CELLS, c requires 0 <= c < GRID_CELLS => if explored[c] == [] then None else Some(Best(explored[c])))
  }

  /** What one evaluation sees: the explored rewards cell by cell, and how many unexplored
      decisions fall into each cell. Grid and sums come from the same explored decisions. */
  datatype Batch = Batch(explored: PerCell, ks: Counts, deltaNum: u32, deltaDen: u32, ln: nat -> int) {

    ghost function Rewards(): seq<int> {
      Flatten(explored, GRID_CELLS)
    }

    ghost function N(): nat {
      |Rewards()|
    }

    function M(): nat {
      TotalCount(ks, GRID_CELLS)
    }

    ghost predicate Valid() {
      CellsInBand(explored) && InBand(Rewards()) && 0 < N() + M() < TWO32
    }

    ghost function Anchors(): (grid: Grid)
      requires Valid()
      ensures GridInBand(grid)
    {
      ExploredGrid(explored)
    }

    ghost function SquareSum(): (q: i128)
      requires Valid()
    {
      SumsInBand(Rewards());
      SquaresFit(Rewards());
      SumSq(Rewards())
    }

    ghost function Eb(): i64
      requires Valid()
    {
      EbLowerBound(BandSum(Rewards()), SquareSum(), N(), Sat64(Y_HI - Y_LO), deltaNum, deltaDen, Y_LO, ln)
    }

    /** `V_lower` of the batch. */
    ghost function Lower(): i64
      requires Valid()
    {
      LowerValue(Rewards(), SquareSum(), M(), Anchors(), deltaNum, deltaDen, ln)
    }

    /** What the unexplored decisions may earn. */
    ghost predicate Allows(cells: PerCell)
      requires Valid()
    {
      CountsOf(cells) == ks && AboveFloors(cells, Anchors())
    }

    /** `V_lower` is below the mean of the policy, whatever the unexplored decisions earn. */
    ghost predicate Sound()
      requires Valid()
    {
      forall cells: PerCell :: Allows(cells) ==> (N() + M()) * Lower() <= Sum(Rewards() + Flatten(cells, GRID_CELLS))
    }

    /** By how much the uniform floor mean overrates the unexplored decisions, taken together. */
    ghost function Deficit(): int
      requires Valid()
    {
      M() * FloorMean(Anchors()) - CountedFloor(ks, Anchors(), GRID_CELLS)
    }

    /** The numerator of `V_lower`, before rounding and clamping. */
    ghost function Weighted(): int
      requires Valid()
    {
      N() * Eb() + M() * FloorMean(Anchors())
    }

    /** What the bound on the explored part and the rounding leave to spare. */
    ghost function Slack(): int
      requires Valid()
    {
      Sum(Rewards()) - N() * Eb() + Weighted() % (N() + M())
    }
  }

  lemma SquaresFit(rs: seq<int>)
    requires InBand(rs) && |rs| < TWO32
    ensures 0 <= SumSq(rs) <= I128_MAX
  {
    hide SumSq, Sum;
    SumsInBand(rs);
    NatProductGrows(Y_HI * Y_HI, |rs|, TWO32);
  }

  /** For every batch: `V_lower` is sound exactly when the unexplored decisions leave it below the
      policy's total even at their floors. */
  lemma LowerIsSoundIff(b: Batch)
    requires b.Valid()
    ensures b.Sound() <==>
            (b.N() + b.M()) * b.Lower() <= Sum(b.Rewards()) + CountedFloor(b.ks, b.Anchors(), GRID_CELLS)
  {
    hide Sum, Batch.Lower, Batch.Rewards, Batch.M, Batch.Anchors, Flatten, AboveFloors, CountsOf, CountedFloor, Lowest;
    var lowest := Lowest(b.ks, b.Anchors());
    LowestOfBatch(b);
    SumOfConcat(b.Rewards(), Flatten(lowest, GRID_CELLS));
    forall cells: PerCell | b.Allows(cells)
      ensures Sum(b.Rewards() + Flatten(cells, GRID_CELLS)) >= Sum(b.Rewards()) + CountedFloor(b.ks, b.Anchors(), GRID_CELLS)
    {
      CellsAboveFloors(cells, b.Anchors(), GRID_CELLS);
      SumOfConcat(b.Rewards(), Flatten(cells, GRID_CELLS));
    }
  }

  lemma LowestOfBatch(b: Batch)
    requires b.Valid()
    ensures b.Allows(Lowest(b.ks, b.Anchors()))
    ensures Sum(Flatten(Lowest(b.ks, b.Anchors()), GRID_CELLS)) == CountedFloor(b.ks, b.Anchors(), GRID_CELLS)
    ensures |Flatten(Lowest(b.ks, b.Anchors()), GRID_CELLS)| == b.M()
  {
    hide Sum, AboveFloors, Flatten, CountsOf, CountedFloor, Lowest, TotalCount;
    LowestIsAllowed(b.ks, b.Anchors());
    LowestSum(b.ks, b.Anchors(), GRID_CELLS);
    FlattenShape(Lowest(b.ks, b.Anchors()), b.Anchors(), GRID_CELLS);
  }

  /** `V_lower` spelled out: the weighted mean, rounded down and kept in the band. */
  lemma LowerIs(b: Batch)
    requires b.Valid()
    ensures b.Lower() == Clamp(FloorDiv(b.Weighted(), b.N() + b.M()), Y_LO, Y_HI)
    ensures b.Weighted() <= (b.N() + b.M()) * Y_HI
    ensures b.N() * b.Eb() <= Sum(b.Rewards())
  {
    hide Sum, EbLowerBound, FloorDiv, FloorMean, Flatten, Sat128, TotalCount, Batch.SquareSum, Batch.Rewards, Batch.Anchors;
    var n, m, f := b.N(), b.M(), FloorMean(b.Anchors());
    var rs := b.Rewards();
    FloorMeanInBand(b.Anchors());
    EbBelowSum(rs, b.SquareSum(), Sat64(Y_HI - Y_LO), b.deltaNum, b.deltaDen, b.ln);
    SumsInBand(rs);
    ProductFits(b.Eb(), n);
    ProductFits(f, m);
    SumFits(b.Eb() * n, f * m);
    NatProductGrows(m, f, Y_HI);
    NatProductGrows(m, Y_LO, f);
    SumBound(n, m, Y_HI);
    InnerFits(b.Weighted(), n + m);
  }

  lemma SumBound(n: int, m: int, y: int)
    ensures n * y + m * y == (n + m) * y
  {
  }

  /** The quotient fits a machine word when it is not above the band. */
  lemma InnerFits(num: int, den: nat)
    requires den > 0 && num <= den * Y_HI
    ensures FloorDiv(num, den) <= Y_HI
    ensures Clamp(Sat64(FloorDiv(num, den)), Y_LO, Y_HI) == Clamp(FloorDiv(num, den), Y_LO, Y_HI)
  {
    hide FloorDiv;
    FloorDivIsFloor(num, den);
    ProductsOrdered(den, Y_HI, FloorDiv(num, den));
  }

  /** For every batch, in terms of what was computed: `V_lower` is sound exactly when it was raised
      to the worst reward, or the deficit of the uniform floor mean stays within the slack. */
  lemma LowerIsSoundIffSlack(b: Batch)
    requires b.Valid()
    ensures b.Sound() <==> b.Weighted() < (b.N() + b.M()) * Y_LO || b.Deficit() <= b.Slack()
  {
    hide Sum, Batch.Sound, Batch.Lower, Batch.Eb, Batch.Rewards, Batch.M, Batch.Anchors, FloorDiv, CountedFloor, FloorMean,
      Batch.Weighted;
    var den := b.N() + b.M();
    LowerIsSoundIff(b);
    LowerIs(b);
    QuotientAndRest(b.Weighted(), den);
    WeightedIs(b);
    if b.Weighted() < den * Y_LO {
      WorstIsSound(b);
      ProductsOrdered(den, FloorDiv(b.Weighted(), den), Y_LO);
    } else {
      FloorDivBound(b.Weighted(), den, Y_LO);
      ProductsOrdered(den, Y_HI, FloorDiv(b.Weighted(), den));
    }
  }

  lemma WeightedIs(b: Batch)
    requires b.Valid()
    ensures b.Weighted() == b.N() * b.Eb() + b.M() * FloorMean(b.Anchors())
  {
  }

  lemma QuotientAndRest(num: int, den: int)
    requires den > 0
    ensures den * FloorDiv(num, den) == num - num % den
    ensures 0 <= num % den < den
  {
    hide FloorDiv;
    FloorDivIsFloor(num, den);
    var q, r := FloorDiv(num, den), num / den;
    assert num == den * r + num % den;
    ProductsOrdered(den, q, r + 1);
    ProductsOrdered(den, r, q + 1);
    Distribute(den, r, 1);
    Distribute(den, q, 1);
  }

  /** No policy earns less than the worst reward each time. */
  lemma WorstIsSound(b: Batch)
    requires b.Valid()
    ensures (b.N() + b.M()) * Y_LO <= Sum(b.Rewards()) + CountedFloor(b.ks, b.Anchors(), GRID_CELLS)
  {
    hide Sum, CountedFloor, TotalCount, Flatten, Batch.Anchors;
    SumsInBand(b.Rewards());
    FloorsAboveWorst(b.ks, b.Anchors(), GRID_CELLS);
    SumBound(b.N(), b.M(), Y_LO);
  }

  lemma {:induction false} FloorsAboveWorst(ks: Counts, grid: Grid, n: nat)
    requires GridInBand(grid) && n <= GRID_CELLS
    ensures CountedFloor(ks, grid, n) >= TotalCount(ks, n) * Y_LO
  {
    hide CellFloor;
    if n > 0 {
      FloorsAboveWorst(ks, grid, n - 1);
      BandFloor(grid, n - 1);
      NatProductGrows(ks[n - 1], Y_LO, CellFloor(grid, n - 1));
      SumBound(TotalCount(ks, n - 1), ks[n - 1], Y_LO);
    }
  }

  /** Unexplored decisions that fall fairly leave no deficit. */
  lemma FairIsSound(b: Batch)
    requires b.Valid() && FallsFairly(b.ks, b.Anchors())
    ensures b.Deficit() <= 0 <= b.Slack() && b.Sound()
  {
    hide Batch.Sound, Batch.Eb, Batch.Rewards, Batch.Anchors, FloorMean, CountedFloor, Sum, Batch.Weighted, TotalCount;
    LowerIs(b);
    QuotientAndRest(b.Weighted(), b.N() + b.M());
    LowerIsSoundIffSlack(b);
  }

  /** The bound on the explored part spares at least what any explored reward is above the worst:
      a batch whose deficit stays within that is sound, however its decisions fall. */
  lemma SmallDeficitIsSound(b: Batch, r: int)
    requires b.Valid() && r in b.Rewards() && b.Deficit() <= r - Y_LO
    ensures b.Sound()
  {
    hide Batch.Sound, Batch.Rewards, Batch.Anchors, FloorMean, CountedFloor, Sum, Batch.Weighted, Batch.SquareSum, EbLowerBound,
      TotalCount, Batch.Deficit;
    EbSpares(b.Rewards(), b.SquareSum(), b.deltaNum, b.deltaDen, b.ln, r);
    QuotientAndRest(b.Weighted(), b.N() + b.M());
    LowerIsSoundIffSlack(b);
  }

  lemma EbSpares(rs: seq<int>, sumSq: i128, deltaNum: u32, deltaDen: u32, ln: nat -> int, r: int)
    requires InBand(rs) && |rs| < TWO32 && r in rs
    ensures var eb := EbLowerBound(BandSum(rs), sumSq, |rs|, Sat64(Y_HI - Y_LO), deltaNum, deltaDen, Y_LO, ln);
            Sum(rs) - |rs| * eb >= r - Y_LO
  {
    hide Sum, FloorDiv, LnCeil, EbLowerBound, RangePenalty;
    var n, sum, lnCeil := |rs|, BandSum(rs), LnCeil(ln, deltaNum, deltaDen);
    SumWithOne(rs, r);
    FloorDivIsFloor(sum, n);
    SumsInBand(rs);
    if n > 1 {
      var range := Sat64(Y_HI - Y_LO);
      var rp, mean := RangePenalty(range, n, lnCeil), FloorDiv(sum, n);
      RangeIsWide(n, lnCeil);
      EbBelowPenalty(sum, sumSq, n, deltaNum, deltaDen, ln);
      SpareByPenalty(n, sum, mean, rp, EbLowerBound(sum, sumSq, n, range, deltaNum, deltaDen, Y_LO, ln));
    } else {
      OneElement(rs, r);
      EbOfOne(r, sumSq, deltaNum, deltaDen, ln);
    }
  }

  lemma SpareByPenalty(n: nat, sum: int, mean: int, rp: int, eb: int)
    requires n * mean <= sum && n * rp >= Y_HI - Y_LO && eb <= Max(mean - rp, Y_LO)
    ensures sum - n * eb >= Y_HI - Y_LO || sum - n * eb >= sum - n * Y_LO
  {
    NatProductGrows(n, eb, Max(mean - rp, Y_LO));
    Distribute(n, mean, -rp);
  }

  lemma EbBelowPenalty(sum: i64, sumSq: i128, n: u32, deltaNum: u32, deltaDen: u32, ln: nat -> int)
    requires n > 1 && n * Y_LO <= sum <= n * Y_HI
    ensures EbLowerBound(sum, sumSq, n, Sat64(Y_HI - Y_LO), deltaNum, deltaDen, Y_LO, ln)
         <= Max(FloorDiv(sum, n) - RangePenalty(Sat64(Y_HI - Y_LO), n, LnCeil(ln, deltaNum, deltaDen)), Y_LO)
  {
    hide FloorDiv, LnCeil, VariancePenalty, RangePenalty;
    FloorDivBound(sum, n, Y_LO);
    FloorDivBound(sum, n, Y_HI + 1);
    Distribute(n, Y_HI, 1);
    PenaltiesAreNotNegative(sum, sumSq, n, Sat64(Y_HI - Y_LO), LnCeil(ln, deltaNum, deltaDen));
  }

  lemma EbOfOne(r: i64, sumSq: i128, deltaNum: u32, deltaDen: u32, ln: nat -> int)
    requires Y_LO <= r <= Y_HI
    ensures EbLowerBound(r, sumSq, 1, Sat64(Y_HI - Y_LO), deltaNum, deltaDen, Y_LO, ln) == r - (Y_HI - Y_LO)
  {
    hide FloorDiv;
    FloorDivIsFloor(r, 1);
  }

  lemma OneElement(rs: seq<int>, r: int)
    requires |rs| == 1 && r in rs
    ensures Sum(rs) == r
  {
    assert rs[1..] == [];
  }

  lemma {:induction false} SumWithOne(rs: seq<int>, r: int)
    requires InBand(rs) && r in rs
    ensures Sum(rs) - |rs| * Y_LO >= r - Y_LO
  {
    if rs[0] == r {
      SumsInBand(rs[1..]);
    } else {
      SumWithOne(rs[1..], r);
    }
  }

  /** All range penalties of a batch together exceed the width of the band. */
  lemma RangeIsWide(n: u32, lnCeil: int)
    requires n > 1 && lnCeil >= 1
    ensures n * RangePenalty(Sat64(Y_HI - Y_LO), n, lnCeil) >= Y_HI - Y_LO
  {
    hide CeilDiv;
    var top := Sat128(Sat128(7 * Sat64(Abs(Sat64(Y_HI - Y_LO)))) * lnCeil);
    NatProductGrows(7 * (Y_HI - Y_LO), 1, lnCeil);
    assert top >= 7 * (Y_HI - Y_LO);
    var rp := RangePenalty(Sat64(Y_HI - Y_LO), n, lnCeil);
    CeilDivIsCeil(top, 3 * (n - 1));
    assert rp == CeilDiv(top, 3 * (n - 1));
    assert 3 * ((n - 1) * rp) >= 7 * (Y_HI - Y_LO);
    assert rp > 0 by {
      CeilDivBound(top, 3 * (n - 1), 0);
    }
    assert n * rp == (n - 1) * rp + rp;
  }

  lemma SumFits(a: int, b: int)
    requires -0x8000_0000_0000_0000 * TWO32 <= a <= 0x8000_0000_0000_0000 * TWO32
    requires -0x8000_0000_0000_0000 * TWO32 <= b <= 0x8000_0000_0000_0000 * TWO32
    ensures Sat128(a + b) == a + b
  {
  }

  /** `V_upper` is above the mean of the heuristic, whatever its unresolved decisions earn
      within the band. */
  lemma ValueUpperIsSound(resolved: seq<int>, unresolved: seq<int>)
    requires InBand(resolved) && InBand(unresolved)
    requires 0 < |resolved| + |unresolved| < TWO32
    ensures var all := resolved + unresolved;
            Sum(all) <= |all| * ValueUpperHeuristic(BandSum(resolved), |resolved|, |all|)
  {
    hide Sum, CeilDiv, Sat128, ResolvedMean;
    var n, m := |resolved|, |unresolved|;
    SumsInBand(resolved);
    SumsInBand(unresolved);
    SumOfConcat(resolved, unresolved);
    var mean := ResolvedMean(BandSum(resolved), n);
    ResolvedMeanIsAbove(resolved);
    ProductFits(mean, n);
    ProductFits(Y_HI, m);
    SumFits(mean * n, Y_HI * m);
    var num := mean * n + Y_HI * m;
    CeilDivIsCeil(num, n + m);
    var v := ValueUpperHeuristic(BandSum(resolved), n, n + m);
    assert v == Clamp(Sat64(CeilDiv(num, n + m)), Y_LO, Y_HI);
    NatProductGrows(n + m, Min(CeilDiv(num, n + m), Y_HI), v);
    Distribute(Y_HI, n, m);
  }

  lemma ResolvedMeanIsAbove(resolved: seq<int>)
    requires InBand(resolved) && |resolved| < TWO32
    ensures Sum(resolved) <= ResolvedMean(BandSum(resolved), |resolved|) * |resolved|
  {
    hide Sum, CeilDiv;
    var n := |resolved|;
    if n == 0 {
      EmptySums(resolved);
    } else {
      SumsInBand(resolved);
      CeilDivBound(Sum(resolved), n, Y_HI);
      CeilDivBound(Sum(resolved), n, Y_LO - 1);
      NatProductGrows(n, Y_LO - 1, Y_LO);
      CeilDivIsCeil(Sum(resolved), n);
      assert n * (Y_LO - 1) == n * Y_LO - n;
    }
  }

  /** `V_upper` exactly: the mean of the resolved labels rounded up, or the best reward without any,
      then weighted with the best reward for the others and rounded up again. */
  lemma UpperIs(resolved: seq<int>, total: u32) returns (mean: int)
    requires InBand(resolved) && |resolved| <= total && total > 0
    ensures var n := |resolved|;
            && (if n == 0 then mean == 34_000 else n * mean - n < Sum(resolved) <= n * mean)
            && var u := ValueUpperHeuristic(BandSum(resolved), n, total);
               && total * u - total < n * mean + 34_000 * (total - n) <= total * u
               && -34_000 <= u <= 34_000
  {
    hide Sum, CeilDiv, Sat128, ResolvedMean;
    var n := |resolved|;
    mean := ResolvedMean(BandSum(resolved), n);
    ResolvedMeanIs(resolved);
    ProductFits(mean, n);
    ProductFits(Y_HI, total - n);
    SumFits(mean * n, Y_HI * (total - n));
    WeightedCeilIs(mean, n, total);
  }

  /** A mean in the band and the best reward, weighted and rounded up, stay in the band. */
  lemma WeightedCeilIs(mean: int, n: nat, total: nat)
    requires Y_LO <= mean <= Y_HI && n <= total && total > 0
    ensures var num := mean * n + Y_HI * (total - n);
            var u := CeilDiv(num, total);
            Y_LO <= u <= Y_HI && total * u - total < num <= total * u && num == n * mean + 34_000 * (total - n)
  {
    hide CeilDiv;
    var num := mean * n + Y_HI * (total - n);
    CeilDivIsCeil(num, total);
    NatProductGrows(n, mean, Y_HI);
    NatProductGrows(n, Y_LO, mean);
    SumBound(n, total - n, Y_HI);
    SumBound(n, total - n, Y_LO);
    NatProductGrows(total - n, Y_LO, Y_HI);
    CeilDivBound(num, total, Y_HI);
    CeilDivBound(num, total, Y_LO - 1);
    Distribute(total, Y_LO, -1);
    Distribute(total, CeilDiv(num, total), -1);
  }

  lemma ResolvedMeanIs(resolved: seq<int>)
    requires InBand(resolved) && |resolved| < TWO32
    ensures var n, mean := |resolved|, ResolvedMean(BandSum(resolved), |resolved|);
            && -34_000 <= mean <= 34_000
            && (if n == 0 then mean == 34_000 else n * mean - n < Sum(resolved) <= n * mean)
  {
    hide Sum, CeilDiv;
    var n := |resolved|;
    if n > 0 {
      SumsInBand(resolved);
      CeilDivBound(Sum(resolved), n, Y_HI);
      CeilDivBound(Sum(resolved), n, Y_LO - 1);
      Distribute(n, Y_LO, -1);
      CeilDivIsCeil(Sum(resolved), n);
      Distribute(n, CeilDiv(Sum(resolved), n), -1);
    }
  }

  /** Without any decisions the bounds are the extremes of the band. */
  lemma NoDecisions(sum: i64, sumSq: i128, n: u32, grid: Grid, deltaNum: u32, deltaDen: u32, ln: nat -> int)
    ensures ValueLowerBound(sum, sumSq, n, 0, grid, deltaNum, deltaDen, ln) == -34_000
    ensures ValueUpperHeuristic(sum, n, 0) == 34_000
  {
  }

  ghost function UpperValue(resolved: seq<int>, total: nat): i64
    requires InBand(resolved) && |resolved| <= total < TWO32
  {
    ValueUpperHeuristic(BandSum(resolved), |resolved|, total)
  }

  /** A gate that clears is right: in exact rationals the mean of the cell policy exceeds the
      mean of the heuristic by at least the margin, for everything the unexplored decisions of
      the policy may earn above their floors and the unresolved ones of the heuristic within the
      band, when the unexplored decisions fall fairly. */
  lemma GateIsSound(explored: seq<int>, sumSq: i128, cells: PerCell, grid: Grid, deltaNum: u32, deltaDen: u32, ln: nat -> int,
                    resolved: seq<int>, unresolved: seq<int>, margin: i64, nResolved: u32, overlapMass: u64)
    requires InBand(explored) && AboveFloors(cells, grid) && FallsFairly(CountsOf(cells), grid)
    requires 0 < |explored| + TotalCount(CountsOf(cells), GRID_CELLS) < TWO32
    requires InBand(resolved) && InBand(unresolved) && 0 < |resolved| + |unresolved| < TWO32
    requires GateClears(LowerValue(explored, sumSq, TotalCount(CountsOf(cells), GRID_CELLS), grid, deltaNum, deltaDen, ln),
                        UpperValue(resolved, |resolved| + |unresolved|), margin, nResolved, overlapMass) == Cleared
    ensures explored + Flatten(cells, GRID_CELLS) != [] && resolved + unresolved != []
    ensures Mean(explored + Flatten(cells, GRID_CELLS)) - Mean(resolved + unresolved) >= margin as real
  {
    hide Sum, AboveFloors, Flatten, LowerValue, ValueUpperHeuristic, Mean, CountsOf, TotalCount, FallsFairly;
    ValueLowerIsSound(explored, sumSq, cells, grid, deltaNum, deltaDen, ln);
    ValueUpperIsSound(resolved, unresolved);
    var policy, heuristic := explored + Flatten(cells, GRID_CELLS), resolved + unresolved;
    MeanBounds(policy, LowerValue(explored, sumSq, TotalCount(CountsOf(cells), GRID_CELLS), grid, deltaNum, deltaDen, ln));
    MeanBounds(heuristic, UpperValue(resolved, |heuristic|));
  }

  /** The gate clears on the batch although the means differ by less than the margin. Overlap
      mass comes from explored decisions only, and support from resolved ones. */
  ghost predicate WrongAt(b: Batch, cells: PerCell, resolved: seq<int>, unresolved: seq<int>, margin: i64, overlapMass: u64)
    requires b.Valid()
  {
    var policy, heuristic := b.Rewards() + Flatten(cells, GRID_CELLS), resolved + unresolved;
    && b.Allows(cells) && InBand(resolved) && InBand(unresolved) && 0 < |heuristic| < TWO32
    && (overlapMass > 0 ==> b.Rewards() != [])
    && GateClears(b.Lower(), UpperValue(resolved, |heuristic|), margin, |resolved|, overlapMass) == Cleared
    && policy != [] && Mean(policy) - Mean(heuristic) < margin as real
  }

  /** The gate never clears wrongly on the batch: for no completion, heuristic, margin or mass. */
  ghost predicate GateNeverWrong(b: Batch)
    requires b.Valid()
  {
    forall cells: PerCell, resolved: seq<int>, unresolved: seq<int>, margin: i64, overlapMass: u64 ::
      !WrongAt(b, cells, resolved, unresolved, margin, overlapMass)
  }

  /** For every batch the gate never clears wrongly if and only if its `V_lower` is sound. */
  lemma GateIsSoundIff(b: Batch)
    requires b.Valid()
    ensures GateNeverWrong(b) <==> b.Sound()
  {
    hide WrongAt, Batch.Sound;
    if b.Sound() {
      forall cells: PerCell, resolved: seq<int>, unresolved: seq<int>, margin: i64, overlapMass: u64
        ensures !WrongAt(b, cells, resolved, unresolved, margin, overlapMass)
      {
        if WrongAt(b, cells, resolved, unresolved, margin, overlapMass) {
          SoundIsNotWrong(b, cells, resolved, unresolved, margin, overlapMass);
        }
      }
    } else {
      UnsoundIsWrong(b);
    }
  }

  lemma SoundIsNotWrong(b: Batch, cells: PerCell, resolved: seq<int>, unresolved: seq<int>, margin: i64, overlapMass: u64)
    requires b.Valid() && b.Sound()
    ensures !WrongAt(b, cells, resolved, unresolved, margin, overlapMass)
  {
    hide Sum, AboveFloors, Flatten, Batch.Lower, Batch.Rewards, ValueUpperHeuristic, Mean, CountsOf, TotalCount, Batch.Anchors;
    if WrongAt(b, cells, resolved, unresolved, margin, overlapMass) {
      var policy, heuristic := b.Rewards() + Flatten(cells, GRID_CELLS), resolved + unresolved;
      FlattenShape(cells, b.Anchors(), GRID_CELLS);
      ValueUpperIsSound(resolved, unresolved);
      MeanBounds(policy, b.Lower());
      MeanBounds(heuristic, UpperValue(resolved, |heuristic|));
    }
  }

  /** With nothing explored every floor is the worst reward, so nothing can be unsound. */
  lemma NothingExploredIsSound(b: Batch)
    requires b.Valid() && b.Rewards() == []
    ensures b.Sound()
  {
    hide Batch.Sound, Batch.Eb, FloorMean, CountedFloor, Sum, Batch.Weighted, TotalCount, FallsFairly, Flatten;
    NothingAnywhere(b.explored, GRID_CELLS);
    EmptyGridIsFair(b.ks, b.Anchors());
    FairIsSound(b);
  }

  lemma {:induction false} NothingAnywhere(cells: PerCell, n: nat)
    requires n <= GRID_CELLS && Flatten(cells, n) == []
    ensures forall c :: 0 <= c < n ==> cells[c] == []
  {
    if n > 0 {
      NothingAnywhere(cells, n - 1);
    }
  }

  lemma EmptyGridIsFair(ks: Counts, grid: Grid)
    requires forall c :: 0 <= c < GRID_CELLS ==> grid[c].None?
    ensures FallsFairly(ks, grid)
  {
    hide CountedFloor, TotalCount, FloorMean, TotalFloor;
    EmptyFloors(ks, grid, GRID_CELLS);
    FloorMeanIsFloor(grid);
    assert FloorMean(grid) == Y_LO;
  }

  lemma {:induction false} EmptyFloors(ks: Counts, grid: Grid, n: nat)
    requires n <= GRID_CELLS && forall c :: 0 <= c < GRID_CELLS ==> grid[c].None?
    ensures TotalFloor(grid, n) == n * Y_LO && CountedFloor(ks, grid, n) == TotalCount(ks, n) * Y_LO
  {
    if n > 0 {
      EmptyFloors(ks, grid, n - 1);
      NoClaim(grid, n - 1, GRID_CELLS);
      SumBound(TotalCount(ks, n - 1), ks[n - 1], Y_LO);
    }
  }

  lemma {:induction false} NoClaim(grid: Grid, c: nat, n: nat)
    requires n <= GRID_CELLS && forall a :: 0 <= a < GRID_CELLS ==> grid[a].None?
    ensures BestClaim(grid, c, n).None?
  {
    if n > 0 {
      NoClaim(grid, c, n - 1);
    }
  }

  /** Against a heuristic that always earns the worst reward. */
  lemma UnsoundIsWrong(b: Batch)
    requires b.Valid() && !b.Sound()
    ensures exists cells: PerCell, margin: i64 :: WrongAt(b, cells, [Y_LO], [], margin, 1)
  {
    hide Sum, AboveFloors, Flatten, Batch.Lower, Batch.Rewards, Mean, CountsOf, TotalCount, UpperValue, Lowest, CountedFloor,
      Batch.Anchors;
    if b.Rewards() == [] {
      NothingExploredIsSound(b);
    }
    LowerIsSoundIff(b);
    LowestOfBatch(b);
    LowerInBand(b);
    var cells := Lowest(b.ks, b.Anchors());
    var policy := b.Rewards() + Flatten(cells, GRID_CELLS);
    SumOfConcat(b.Rewards(), Flatten(cells, GRID_CELLS));
    OneReward(Y_LO);
    assert [Y_LO] + [] == [Y_LO];
    MeanBelow(policy, b.Lower());
    assert WrongAt(b, cells, [Y_LO], [], b.Lower() - Y_LO, 1);
  }

  lemma LowerInBand(b: Batch)
    requires b.Valid()
    ensures Y_LO <= b.Lower() <= Y_HI
  {
    hide Batch.Lower, Batch.Weighted, FloorDiv;
    LowerIs(b);
  }

  lemma OneReward(r: int)
    requires Y_LO <= r <= Y_HI
    ensures InBand([r]) && UpperValue([r], 1) == r && Mean([r]) == r as real
  {
    hide CeilDiv;
    assert [r][1..] == [];
    assert Sum([r]) == r;
    CeilDivIsCeil(r, 1);
  }

  lemma MeanBelow(rs: seq<int>, v: int)
    requires rs != [] && Sum(rs) < |rs| * v
    ensures Mean(rs) < v as real
  {
    hide Sum;
    var n := |rs| as real;
    assert Sum(rs) as real < n * (v as real);
    assert Mean(rs) * n == Sum(rs) as real;
    if Mean(rs) >= v as real {
      ProductOrder(n, v as real, Mean(rs));
    }
  }

  // ---- A gate that clears, and one that clears wrongly -------------------------------------------

  /** The best reward was explored in the first cell and nothing anywhere else. */
  const FIRST_CELL_BEST: Grid := [Some(Y_HI)] + seq(GRID_CELLS - 1, _ => None)

  lemma {:induction false} FirstCellClaim(c: nat, n: nat)
    requires c < GRID_CELLS && 0 < n <= GRID_CELLS
    ensures BestClaim(FIRST_CELL_BEST, c, n) == Some(Y_HI - LIPSCHITZ_L * c)
  {
    if n > 1 {
      FirstCellClaim(c, n - 1);
      assert FIRST_CELL_BEST[n - 1].None?;
    }
  }

  lemma FirstCellFloors()
    ensures forall c :: 0 <= c < GRID_CELLS ==> CellFloor(FIRST_CELL_BEST, c) == Y_HI - LIPSCHITZ_L * c
    ensures FloorMean(FIRST_CELL_BEST) == 33_744
  {
    forall c | 0 <= c < GRID_CELLS
      ensures CellFloor(FIRST_CELL_BEST, c) == Y_HI - LIPSCHITZ_L * c
    {
      FirstCellClaim(c, GRID_CELLS);
    }
    FirstCellTotals(GRID_CELLS);
    assert Triangle(3) == 3 && Triangle(6) == 15 && Triangle(GRID_CELLS) == 36;
    FloorMeanIsFloor(FIRST_CELL_BEST);
  }

  /** 0 + 1 + .. + (n - 1) */
  function Triangle(n: nat): nat {
    if n == 0 then 0 else Triangle(n - 1) + (n - 1)
  }

  lemma {:induction false} FirstCellTotals(n: nat)
    requires n <= GRID_CELLS
    requires forall c :: 0 <= c < GRID_CELLS ==> CellFloor(FIRST_CELL_BEST, c) == Y_HI - LIPSCHITZ_L * c
    ensures TotalFloor(FIRST_CELL_BEST, n) == n * Y_HI - LIPSCHITZ_L * Triangle(n)
  {
    hide CellFloor;
    if n > 0 {
      FirstCellTotals(n - 1);
    }
  }

  /** `k` unexplored decisions in the last cell, each earning its floor. */
  ghost function LastCellOnly(k: nat): PerCell {
    seq(GRID_CELLS - 1, _ => []) + [seq(k, _ => Y_HI - LIPSCHITZ_L * (GRID_CELLS - 1))]
  }

  lemma {:induction false} NothingBeforeLast(k: nat, n: nat)
    requires n < GRID_CELLS
    ensures Flatten(LastCellOnly(k), n) == []
  {
    if n > 0 {
      NothingBeforeLast(k, n - 1);
    }
  }

  lemma LastCellSum(k: nat)
    ensures AboveFloors(LastCellOnly(k), FIRST_CELL_BEST)
    ensures Flatten(LastCellOnly(k), GRID_CELLS) == LastCellOnly(k)[GRID_CELLS - 1]
    ensures Sum(Flatten(LastCellOnly(k), GRID_CELLS)) == k * 33_488
  {
    hide CellFloor, Sum, FloorMean;
    FirstCellFloors();
    NothingBeforeLast(k, GRID_CELLS - 1);
    SumOfSame(LastCellOnly(k)[GRID_CELLS - 1], 33_488);
  }

  /** Two explored best rewards are too few for a bound above the worst one. */
  lemma TwoAreTooFew(deltaNum: u32, deltaDen: u32, ln: nat -> int)
    ensures EbLowerBound(2 * Y_HI, 2 * (Y_HI * Y_HI), 2, Sat64(Y_HI - Y_LO), deltaNum, deltaDen, Y_LO, ln) == Y_LO
  {
    hide VariancePenalty, LnCeil, FloorDiv, CeilDiv;
    var lnCeil := LnCeil(ln, deltaNum, deltaDen);
    var range := Sat64(Y_HI - Y_LO);
    FloorDivIsFloor(2 * Y_HI, 2);
    PenaltiesAreNotNegative(2 * Y_HI, 2 * (Y_HI * Y_HI), 2, range, lnCeil);
    CeilDivBound(Sat128(Sat128(7 * Sat64(Abs(range))) * lnCeil), 3, 2 * Y_HI);
    assert Sat128(Sat128(7 * Sat64(Abs(range))) * lnCeil) > 3 * (2 * Y_HI) by {
      NatProductGrows(7 * (2 * Y_HI), 1, lnCeil);
    }
  }

  /** Two decisions explored in the first cell, both with the best reward, and `k` unexplored ones
      in the last. */
  ghost function CrowdedBatch(k: nat, deltaNum: u32, deltaDen: u32, ln: nat -> int): Batch {
    Batch([[Y_HI, Y_HI]] + seq(GRID_CELLS - 1, _ => []), seq(GRID_CELLS - 1, _ => 0) + [k], deltaNum, deltaDen, ln)
  }

  lemma {:induction false} FirstCellRewards(b: Batch, n: nat)
    requires 0 < n <= GRID_CELLS && b.explored[0] == [Y_HI, Y_HI]
    requires forall c :: 0 < c < GRID_CELLS ==> b.explored[c] == []
    ensures Flatten(b.explored, n) == [Y_HI, Y_HI]
  {
    if n > 1 {
      FirstCellRewards(b, n - 1);
    } else {
      assert Flatten(b.explored, 0) == [];
    }
  }

  lemma {:induction false} NoneBeforeLast(ks: Counts, n: nat)
    requires n < GRID_CELLS && forall c :: 0 <= c < GRID_CELLS - 1 ==> ks[c] == 0
    ensures TotalCount(ks, n) == 0
  {
    if n > 0 {
      NoneBeforeLast(ks, n - 1);
    }
  }

  lemma CrowdedIsValid(k: nat, deltaNum: u32, deltaDen: u32, ln: nat -> int)
    requires k < 1_000_000
    ensures var b := CrowdedBatch(k, deltaNum, deltaDen, ln);
            && b.Rewards() == [Y_HI, Y_HI] && b.M() == k && b.Valid() && b.Anchors() == FIRST_CELL_BEST
            && b.SquareSum() == 2 * (Y_HI * Y_HI) && b.deltaNum == deltaNum && b.deltaDen == deltaDen && b.ln == ln
  {
    hide Flatten, TotalCount;
    var b := CrowdedBatch(k, deltaNum, deltaDen, ln);
    FirstCellRewards(b, GRID_CELLS);
    NoneBeforeLast(b.ks, GRID_CELLS - 1);
    LastCount(b.ks);
    TwoSquares(Y_HI);
  }

  lemma LastCount(ks: Counts)
    ensures TotalCount(ks, GRID_CELLS) == TotalCount(ks, GRID_CELLS - 1) + ks[GRID_CELLS - 1]
  {
  }

  lemma TwoSquares(r: int)
    ensures SumSq([r, r]) == 2 * (r * r) && Sum([r, r]) == 2 * r
  {
    assert [r, r][1..] == [r] && [r][1..] == [];
    assert SumSq([r]) == r * r && Sum([r]) == r;
  }

  /** A thousand such decisions, all at their floor, against a heuristic that earned 33358: the gate
      clears at the shipped margin although the policy is ahead by less. */
  lemma GateClearsWrongly(deltaNum: u32, deltaDen: u32, ln: nat -> int)
    ensures var b := CrowdedBatch(1000, deltaNum, deltaDen, ln);
            b.Valid() && WrongAt(b, LastCellOnly(1000), [33_358], [], 250, 1)
  {
    hide EbLowerBound, FloorDiv, FloorMean, LastCellOnly, Flatten, AboveFloors, UpperValue, Mean, CrowdedBatch, Batch.Rewards,
      Batch.Anchors, Batch.SquareSum, Batch.M, CountsOf, Batch.Lower;
    var b := CrowdedBatch(1000, deltaNum, deltaDen, ln);
    var rest := Flatten(LastCellOnly(1000), GRID_CELLS);
    CrowdedIsValid(1000, deltaNum, deltaDen, ln);
    FirstCellFloors();
    LastCellSum(1000);
    CrowdedCounts(1000, deltaNum, deltaDen, ln);
    TwoSquares(Y_HI);
    TwoAreTooFew(deltaNum, deltaDen, ln);
    SumOfConcat([Y_HI, Y_HI], rest);
    LowerIs(b);
    assert b.Eb() == Y_LO;
    assert b.Weighted() == 2 * Y_LO + 33_744 * 1000;
    FloorDivIsFloor(2 * Y_LO + 33_744 * 1000, 1002);
    assert b.Lower() == 33_608;
    OneReward(33_358);
    assert [33_358] + [] == [33_358];
    MeanBelow([Y_HI, Y_HI] + rest, 33_490);
  }

  lemma CrowdedCounts(k: nat, deltaNum: u32, deltaDen: u32, ln: nat -> int)
    ensures CountsOf(LastCellOnly(k)) == CrowdedBatch(k, deltaNum, deltaDen, ln).ks
    ensures |Flatten(LastCellOnly(k), GRID_CELLS)| == k
  {
    hide Flatten, CellFloor, Sum;
    LastCellSum(k);
  }

  /** One such decision alone does not fall fairly, and yet the gate is never wrong on it. */
  lemma OneIsHarmless(deltaNum: u32, deltaDen: u32, ln: nat -> int)
    ensures var b := CrowdedBatch(1, deltaNum, deltaDen, ln);
            b.Valid() && !FallsFairly(b.ks, b.Anchors()) && b.Sound() && GateNeverWrong(b)
  {
    hide FloorMean, CountedFloor, CellFloor, Batch.Sound, GateNeverWrong, CrowdedBatch, Batch.Rewards, Batch.Anchors, Batch.M,
      TotalCount;
    var b := CrowdedBatch(1, deltaNum, deltaDen, ln);
    CrowdedIsValid(1, deltaNum, deltaDen, ln);
    FirstCellFloors();
    CrowdedFloor(1, deltaNum, deltaDen, ln);
    SmallDeficitIsSound(b, Y_HI);
    GateIsSoundIff(b);
  }

  lemma CrowdedFloor(k: nat, deltaNum: u32, deltaDen: u32, ln: nat -> int)
    ensures var ks := CrowdedBatch(k, deltaNum, deltaDen, ln).ks;
            CountedFloor(ks, FIRST_CELL_BEST, GRID_CELLS) == k * 33_488 && TotalCount(ks, GRID_CELLS) == k
  {
    hide CellFloor, CountedFloor, TotalCount, FloorMean;
    var ks := CrowdedBatch(k, deltaNum, deltaDen, ln).ks;
    FirstCellFloors();
    NoneBeforeLast(ks, GRID_CELLS - 1);
    NoFloorBeforeLast(ks, GRID_CELLS - 1);
    LastCount(ks);
    LastFloor(ks);
  }

  lemma {:induction false} NoFloorBeforeLast(ks: Counts, n: nat)
    requires n < GRID_CELLS && forall c :: 0 <= c < GRID_CELLS - 1 ==> ks[c] == 0
    ensures CountedFloor(ks, FIRST_CELL_BEST, n) == 0
  {
    hide CellFloor;
    if n > 0 {
      NoFloorBeforeLast(ks, n - 1);
    }
  }

  lemma LastFloor(ks: Counts)
    ensures CountedFloor(ks, FIRST_CELL_BEST, GRID_CELLS) ==
            CountedFloor(ks, FIRST_CELL_BEST, GRID_CELLS - 1)
            + ks[GRID_CELLS - 1] * CellFloor(FIRST_CELL_BEST, GRID_CELLS - 1)
  {
    hide CellFloor;
  }

  /** A batch on which the gate clears and is right: one decision explored in each cell with the best
      reward, a thousand unexplored ones in each, a heuristic that earns nothing. */
  lemma GateCanClear(deltaNum: u32, deltaDen: u32, ln: nat -> int)
    ensures var b := EvenBatch(1000, deltaNum, deltaDen, ln);
            b.Valid() && b.Sound() && GateClears(b.Lower(), UpperValue([0], 1), 250, 1, 1) == Cleared
  {
    hide FloorMean, TotalFloor, FallsFairly, Batch.Sound, EvenBatch, Batch.Rewards, Batch.Anchors, Batch.M, UpperValue,
      Batch.Eb, Batch.Lower, FloorDiv;
    var b := EvenBatch(1000, deltaNum, deltaDen, ln);
    EvenIsValid(1000, deltaNum, deltaDen, ln);
    EvenSpreadIsFair(b.ks, b.Anchors(), 1000);
    FairIsSound(b);
    BestEverywhere(b.Anchors(), GRID_CELLS);
    FloorMeanIsFloor(b.Anchors());
    assert FloorMean(b.Anchors()) == Y_HI;
    LowerIs(b);
    EbAboveWorst(b);
    FloorDivBound(b.Weighted(), b.N() + b.M(), 250);
    OneReward(0);
  }

  ghost function EvenBatch(k: nat, deltaNum: u32, deltaDen: u32, ln: nat -> int): Batch {
    Batch(seq(GRID_CELLS, _ => [Y_HI]), seq(GRID_CELLS, _ => k), deltaNum, deltaDen, ln)
  }

  lemma EvenIsValid(k: nat, deltaNum: u32, deltaDen: u32, ln: nat -> int)
    requires k < 1_000_000
    ensures var b := EvenBatch(k, deltaNum, deltaDen, ln);
            && b.Valid() && b.N() == GRID_CELLS && b.M() == GRID_CELLS * k
            && (forall c :: 0 <= c < GRID_CELLS ==> b.ks[c] == k && b.Anchors()[c] == Some(Y_HI))
  {
    hide Flatten, TotalCount, CountedFloor;
    var b := EvenBatch(k, deltaNum, deltaDen, ln);
    OneEach(b.explored, GRID_CELLS);
    EvenCounts(b.ks, seq(GRID_CELLS, _ => None), k, GRID_CELLS);
  }

  lemma {:induction false} OneEach(cells: PerCell, n: nat)
    requires n <= GRID_CELLS && forall c :: 0 <= c < GRID_CELLS ==> cells[c] == [Y_HI]
    ensures |Flatten(cells, n)| == n && InBand(Flatten(cells, n))
  {
    if n > 0 {
      OneEach(cells, n - 1);
    }
  }

  lemma EbAboveWorst(b: Batch)
    requires b.Valid() && b.N() > 1
    ensures b.Eb() >= Y_LO
  {
    hide EbLowerBound, Flatten, Batch.SquareSum;
    EbBelowMean(BandSum(b.Rewards()), b.SquareSum(), b.N(), Sat64(Y_HI - Y_LO), b.deltaNum, b.deltaDen, Y_LO, b.ln);
  }

  lemma {:induction false} BestEverywhere(grid: Grid, n: nat)
    requires n <= GRID_CELLS && forall c :: 0 <= c < GRID_CELLS ==> grid[c] == Some(Y_HI)
    ensures TotalFloor(grid, n) == n * Y_HI
  {
    if n > 0 {
      BestEverywhere(grid, n - 1);
    }
  }
}
