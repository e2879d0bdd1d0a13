/** The Manski and Lipschitz floor over the quantized grid
    (`smoothness_floor_mean`, crates/tb-encode/src/bakeoff.rs). */
module SmoothnessFloor {
  import opened Words
  import opened IntMath

  const Y_LO := -34_000
  const Y_HI := 34_000
  const LIPSCHITZ_L := 64
  const GRID_CELLS := 9

  /** Per grid cell the reward explored there, if any. */
  type Grid = g: seq<Option<i64>> | |g| == GRID_CELLS witness seq(GRID_CELLS, _ => None)

  function Dist(a: int, b: int): nat {
    Abs(a - b)
  }

  /** What the anchor reward `r` allows to claim at a distance. */
  function Candidate(r: i64, dist: nat): i64 {
    Sat64(r - Sat64(LIPSCHITZ_L * dist))
  }

  /** The best claim for cell `c` from the anchors among the first `n` cells. */
  function BestClaim(grid: Grid, c: nat, n: nat): Option<i64>
    requires n <= GRID_CELLS
  {
    if n == 0 then None else
    var best := BestClaim(grid, c, n - 1);
    if grid[n - 1].None? then best else
    var cand := Candidate(grid[n - 1].value, Dist(n - 1, c));
    if best.Some? && best.value >= cand then best else Some(cand)
  }

  /** The floor of cell `c`: its own explored reward, or the best claim, or the worst reward. */
  function CellFloor(grid: Grid, c: nat): i64
    requires c < GRID_CELLS
  {
    if grid[c].Some? then grid[c].value else
    var best := BestClaim(grid, c, GRID_CELLS);
    Max(if best.Some? then best.value else Y_LO, Y_LO)
  }

  function TotalFloor(grid: Grid, n: nat): int
    requires n <= GRID_CELLS
    ensures n * I64_MIN <= TotalFloor(grid, n) <= n * I64_MAX
  {
    if n == 0 then 0 else TotalFloor(grid, n - 1) + CellFloor(grid, n - 1)
  }

  function FloorMean(grid: Grid): i64 {
    Sat64(FloorDiv(TotalFloor(grid, GRID_CELLS), GRID_CELLS))
  }

  /** The two nested sweeps. */
  method SmoothnessFloorMean(grid: Grid) returns (mean: i64)
    ensures mean == FloorMean(grid)
  {
    var total: int := 0;
    var c := 0;
    while c < GRID_CELLS
      invariant 0 <= c <= GRID_CELLS && total == TotalFloor(grid, c)
    {
      var floor: int;
      if grid[c].Some? {
        floor := grid[c].value;
      } else {
        var best: Option<i64> := None;
        var a := 0;
        while a < GRID_CELLS
          invariant 0 <= a <= GRID_CELLS && best == BestClaim(grid, c, a)
        {
          if grid[a].Some? {
            var cand := Candidate(grid[a].value, Dist(a, c));
            best := if best.Some? && best.value >= cand then best else Some(cand);
          }
          a := a + 1;
        }
        floor := Max(if best.Some? then best.value else Y_LO, Y_LO);
      }
      total := Sat128(total + floor);
      c := c + 1;
    }
    mean := Sat64(FloorDiv(total, GRID_CELLS));
  }

  // ---- Soundness and optimality ---------------------------------------------------

  type Rewards = f: seq<int> | |f| == GRID_CELLS witness seq(GRID_CELLS, _ => 0)

  function Total(f: Rewards, n: nat): int
    requires n <= GRID_CELLS
  {
    if n == 0 then 0 else Total(f, n - 1) + f[n - 1]
  }

  /** A reward per cell that the explored data and the smoothness assumption allow. */
  ghost predicate Admissible(f: Rewards, grid: Grid) {
    && (forall c :: 0 <= c < GRID_CELLS ==> f[c] >= Y_LO)
    && (forall a, b :: 0 <= a < GRID_CELLS && 0 <= b < GRID_CELLS ==> f[a] - f[b] <= LIPSCHITZ_L * Dist(a, b))
    && (forall c :: 0 <= c < GRID_CELLS && grid[c].Some? ==> f[c] >= grid[c].value)
  }

  /** The explored rewards lie in the band and do not contradict the smoothness assumption. */
  ghost predicate Consistent(grid: Grid) {
    && (forall c :: 0 <= c < GRID_CELLS && grid[c].Some? ==> Y_LO <= grid[c].value <= Y_HI)
    && (forall a, b :: 0 <= a < GRID_CELLS && 0 <= b < GRID_CELLS && grid[a].Some? && grid[b].Some? ==>
          grid[a].value - grid[b].value <= LIPSCHITZ_L * Dist(a, b))
  }

  lemma {:induction false} ClaimIsSound(f: Rewards, grid: Grid, c: nat, n: nat)
    requires Admissible(f, grid) && c < GRID_CELLS && n <= GRID_CELLS
    ensures BestClaim(grid, c, n).Some? ==> Max(BestClaim(grid, c, n).value, Y_LO) <= f[c]
  {
    if n > 0 {
      ClaimIsSound(f, grid, c, n - 1);
      if grid[n - 1].Some? {
        assert f[n - 1] - f[c] <= LIPSCHITZ_L * Dist(n - 1, c);
      }
    }
  }

  lemma {:induction false} TotalIsSound(f: Rewards, grid: Grid, n: nat)
    requires Admissible(f, grid) && n <= GRID_CELLS
    ensures TotalFloor(grid, n) <= Total(f, n)
  {
    if n > 0 {
      TotalIsSound(f, grid, n - 1);
      ClaimIsSound(f, grid, n - 1, GRID_CELLS);
    }
  }

  /** `dist` from an anchor behaves like a metric, so claims from one anchor differ by at most
      the Lipschitz allowance. */
  lemma ClaimsDiffer(r: i64, a: int, c: int, d: int)
    requires Y_LO <= r <= Y_HI && 0 <= a < GRID_CELLS && 0 <= c < GRID_CELLS && 0 <= d < GRID_CELLS
    ensures Candidate(r, Dist(a, c)) <= Candidate(r, Dist(a, d)) + LIPSCHITZ_L * Dist(c, d)
    ensures Candidate(r, Dist(a, c)) == r - LIPSCHITZ_L * Dist(a, c)
  {
  }

  lemma {:induction false} ClaimIsSmooth(grid: Grid, c: nat, d: nat, n: nat)
    requires Consistent(grid) && c < GRID_CELLS && d < GRID_CELLS && n <= GRID_CELLS
    ensures BestClaim(grid, c, n).Some? <==> BestClaim(grid, d, n).Some?
    ensures BestClaim(grid, c, n).Some? ==>
              BestClaim(grid, c, n).value <= BestClaim(grid, d, n).value + LIPSCHITZ_L * Dist(c, d)
  {
    if n > 0 {
      ClaimIsSmooth(grid, c, d, n - 1);
      if grid[n - 1].Some? {
        ClaimsDiffer(grid[n - 1].value, n - 1, c, d);
      }
    }
  }

  /** No anchor claims more for an explored cell than was found there. */
  lemma {:induction false} ClaimBelowExplored(grid: Grid, c: nat, n: nat)
    requires Consistent(grid) && c < GRID_CELLS && n <= GRID_CELLS && grid[c].Some?
    ensures BestClaim(grid, c, n).Some? ==> BestClaim(grid, c, n).value <= grid[c].value
    ensures n > c ==> BestClaim(grid, c, n) == Some(grid[c].value)
  {
    if n > 0 {
      ClaimBelowExplored(grid, c, n - 1);
      if grid[n - 1].Some? {
        ClaimsDiffer(grid[n - 1].value, n - 1, c, c);
        assert grid[n - 1].value - grid[c].value <= LIPSCHITZ_L * Dist(n - 1, c);
      }
    }
  }

  lemma FloorIsClaim(grid: Grid, c: nat)
    requires Consistent(grid) && c < GRID_CELLS
    ensures CellFloor(grid, c) ==
            Max(if BestClaim(grid, c, GRID_CELLS).Some? then BestClaim(grid, c, GRID_CELLS).value else Y_LO, Y_LO)
  {
    if grid[c].Some? {
      ClaimBelowExplored(grid, c, GRID_CELLS);
    }
  }

  /** The explored rewards lie in the band; nothing is said of their smoothness. */
  ghost predicate InBandGrid(grid: Grid) {
    forall c :: 0 <= c < GRID_CELLS && grid[c].Some? ==> -34_000 <= grid[c].value <= 34_000
  }

  /** What an anchor allows to claim for cell `c`. */
  ghost function AnchorClaim(grid: Grid, a: int, c: nat): int
    requires 0 <= a < GRID_CELLS && grid[a].Some?
  {
    grid[a].value - 64 * if a < c then c - a else a - c
  }

  lemma {:induction false} ClaimIsBest(grid: Grid, c: nat, n: nat)
    requires InBandGrid(grid) && c < GRID_CELLS && n <= GRID_CELLS
    ensures BestClaim(grid, c, n).None? <==> forall a :: 0 <= a < n ==> grid[a].None?
    ensures BestClaim(grid, c, n).Some? ==>
              && (forall a :: 0 <= a < n && grid[a].Some? ==> AnchorClaim(grid, a, c) <= BestClaim(grid, c, n).value)
              && (exists a :: 0 <= a < n && grid[a].Some? && AnchorClaim(grid, a, c) == BestClaim(grid, c, n).value)
  {
    if n > 0 {
      ClaimIsBest(grid, c, n - 1);
      if grid[n - 1].Some? {
        ClaimsDiffer(grid[n - 1].value, n - 1, c, c);
      }
    }
  }

  /** The floor of a cell, for any in-band data: its own reward; or the best that an anchor, less 64
      per cell of distance, can claim, and no less than the worst reward. */
  lemma CellFloorIs(grid: Grid, c: nat)
    requires InBandGrid(grid) && c < GRID_CELLS
    ensures grid[c].Some? ==> CellFloor(grid, c) == grid[c].value
    ensures grid[c].None? ==>
              && CellFloor(grid, c) >= -34_000
              && (forall a :: 0 <= a < GRID_CELLS && grid[a].Some? ==> AnchorClaim(grid, a, c) <= CellFloor(grid, c))
              && (CellFloor(grid, c) == -34_000 ||
                  exists a :: 0 <= a < GRID_CELLS && grid[a].Some? && AnchorClaim(grid, a, c) == CellFloor(grid, c))
  {
    hide BestClaim;
    ClaimIsBest(grid, c, GRID_CELLS);
  }

  /** And the floor mean is that of the nine cells, rounded down. */
  lemma FloorMeanIs(grid: Grid)
    ensures var f := Floors(grid);
            var total := f[0] + f[1] + f[2] + f[3] + f[4] + f[5] + f[6] + f[7] + f[8];
            9 * FloorMean(grid) <= total < 9 * FloorMean(grid) + 9
  {
    hide CellFloor, FloorMean;
    FloorMeanIsFloor(grid);
    TotalStep(grid, 0);
    TotalStep(grid, 1);
    TotalStep(grid, 2);
    TotalStep(grid, 3);
    TotalStep(grid, 4);
    TotalStep(grid, 5);
    TotalStep(grid, 6);
    TotalStep(grid, 7);
    TotalStep(grid, 8);
  }

  lemma TotalStep(grid: Grid, n: nat)
    requires n < GRID_CELLS
    ensures TotalFloor(grid, 0) == 0 && TotalFloor(grid, n + 1) == TotalFloor(grid, n) + Floors(grid)[n]
  {
    hide CellFloor;
  }

  function Floors(grid: Grid): Rewards {
    seq(GRID_CELLS, c requires 0 <= c < GRID_CELLS => CellFloor(grid, c))
  }

  /** For consistent data the floors themselves are an admissible reward: the least one. */
  lemma FloorsAreAdmissible(grid: Grid)
    requires Consistent(grid)
    ensures Admissible(Floors(grid), grid)
  {
    hide BestClaim, CellFloor;
    forall c | 0 <= c < GRID_CELLS
      ensures Floors(grid)[c] >= Y_LO && (grid[c].Some? ==> Floors(grid)[c] == grid[c].value)
    {
      FloorIsClaim(grid, c);
      FloorOfExplored(grid, c);
    }
    forall a, b | 0 <= a < GRID_CELLS && 0 <= b < GRID_CELLS
      ensures Floors(grid)[a] - Floors(grid)[b] <= LIPSCHITZ_L * Dist(a, b)
    {
      FloorIsClaim(grid, a);
      FloorIsClaim(grid, b);
      ClaimIsSmooth(grid, a, b, GRID_CELLS);
    }
  }

  lemma FloorOfExplored(grid: Grid, c: nat)
    requires c < GRID_CELLS
    ensures grid[c].Some? ==> CellFloor(grid, c) == grid[c].value
  {
  }

  lemma {:induction false} TotalOfFloors(grid: Grid, n: nat)
    requires n <= GRID_CELLS
    ensures Total(Floors(grid), n) == TotalFloor(grid, n)
  {
    if n > 0 {
      TotalOfFloors(grid, n - 1);
    }
  }

  /** The floor mean is below the mean of every admissible reward; and no larger integer is,
      when the explored rewards are consistent. */
  lemma FloorMeanIsBest(grid: Grid)
    ensures forall f: Rewards :: Admissible(f, grid) ==> GRID_CELLS * FloorMean(grid) <= Total(f, GRID_CELLS)
    ensures Consistent(grid) ==>
              forall v: int :: (forall f: Rewards :: Admissible(f, grid) ==> GRID_CELLS * v <= Total(f, GRID_CELLS))
                <==> v <= FloorMean(grid)
  {
    hide TotalFloor, Total, Admissible, Consistent, FloorDiv;
    var total := TotalFloor(grid, GRID_CELLS);
    FloorMeanIsFloor(grid);
    forall f: Rewards | Admissible(f, grid)
      ensures total <= Total(f, GRID_CELLS)
    {
      TotalIsSound(f, grid, GRID_CELLS);
    }
    if Consistent(grid) {
      FloorsAreAdmissible(grid);
      TotalOfFloors(grid, GRID_CELLS);
      forall v: int
        ensures (forall f: Rewards :: Admissible(f, grid) ==> GRID_CELLS * v <= Total(f, GRID_CELLS))
            <==> v <= FloorMean(grid)
      {
        if forall f: Rewards :: Admissible(f, grid) ==> GRID_CELLS * v <= Total(f, GRID_CELLS) {
          assert GRID_CELLS * v <= Total(Floors(grid), GRID_CELLS);
        }
      }
    }
  }

  lemma FloorMeanIsFloor(grid: Grid)
    ensures GRID_CELLS * FloorMean(grid) <= TotalFloor(grid, GRID_CELLS) < GRID_CELLS * (FloorMean(grid) + 1)
  {
    var total := TotalFloor(grid, GRID_CELLS);
    FloorDivIsFloor(total, GRID_CELLS);
    assert I64_MIN <= FloorDiv(total, GRID_CELLS) <= I64_MAX;
  }
}
