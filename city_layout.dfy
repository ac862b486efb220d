/**
 The pure part of the city generator: the road test, the x-major order in
 which the sweep visits the grid, the placement records it emits, and the
 reference sweep `Sweep` that `CityBuilding.CityGenerator.GenerateCity` is
 proved against. The lemmas state what the layout promises: one placement per
 cell, in x-major order, a road exactly where the road test holds, and
 building heights drawn from the configured inclusive range.
 */
module CityLayout {

  /** The 32-bit signed integers of the inspector fields. */
  newtype int32 = x: int | -0x8000_0000 <= x < 0x8000_0000

  const Int32Min: int32 := -0x8000_0000
  const Int32Max: int32 := 0x7fff_ffff

  function Abs(a: int): int {
    if a < 0 then -a else a
  }

  /** C#'s `%` on integers: truncated division, so a non-zero remainder has
      the sign of the dividend (Dafny's own `%` is Euclidean). */
  function CsRemainder(a: int, b: int): int
    requires b != 0
  {
    if a >= 0 then a % Abs(b) else -((-a) % Abs(b))
  }

  /** The C# remainder is below the divisor in magnitude, has the sign of the
      dividend, and is zero exactly when the dividend is a multiple of the
      divisor. */
  lemma CsRemainderSpec(a: int, b: int)
    requires b != 0
    ensures a >= 0 ==> 0 <= CsRemainder(a, b) < Abs(b)
    ensures a < 0 ==> -Abs(b) < CsRemainder(a, b) <= 0
    ensures CsRemainder(a, b) == 0 <==> a % b == 0
  {
    var m := Abs(b);
    assert m > 0;
    RemainderOfAbsDivisor(a, b);
    RemainderZeroNegated(a, m);
  }

  /** The road test: a cell is a road when its column or its row index is a
      multiple of the road frequency. A frequency of 0 has no road test: the
      remainder by zero throws. */
  predicate IsRoad(x: int, z: int, freq: int)
    requires freq != 0
  {
    CsRemainder(x, freq) == 0 || CsRemainder(z, freq) == 0
  }

  /** What one cell receives. */
  datatype Placement =
    | Road(x: int, z: int)
    | Building(x: int, z: int, height: int)

  /** The number of cells the sweep visits: none when either dimension is not
      positive, since then one of the two loops never runs. */
  function CellCount(width: int, length: int): (n: nat)
    ensures n > 0 <==> width > 0 && length > 0
    ensures n > 0 ==> n == width * length
  {
    if width <= 0 || length <= 0 then 0 else width * length
  }

  /** The placement for the k-th visited cell, whose column is k / length and
      whose row is k % length, given the height the generator would return. */
  function PlacementAt(k: nat, length: int, freq: int, height: int): Placement
    requires length > 0 && freq != 0
  {
    var x, z := k / length, k % length;
    if IsRoad(x, z, freq) then Road(x, z) else Building(x, z, height)
  }

  /** How many of the placements are buildings, which is also how many values
      the random generator has been asked for. */
  function BuildingCount(s: seq<Placement>): (n: nat)
    ensures n <= |s|
  {
    if s == [] then 0
    else BuildingCount(s[..|s| - 1]) + (if s[|s| - 1].Building? then 1 else 0)
  }

  lemma BuildingCountAppend(s: seq<Placement>, p: Placement)
    ensures BuildingCount(s + [p]) == BuildingCount(s) + (if p.Building? then 1 else 0)
  {
    assert (s + [p])[..|s|] == s;
  }

  /** The placements of the first n visited cells. The generator's k-th value
      `draw(k)` is the height of the k-th building. */
  function SweepPrefix(n: nat, length: int, freq: int, draw: nat -> int32): (s: seq<Placement>)
    requires length > 0 && freq != 0
    ensures |s| == n
  {
    if n == 0 then []
    else
      var done := SweepPrefix(n - 1, length, freq, draw);
      done + [PlacementAt(n - 1, length, freq, draw(BuildingCount(done)) as int)]
  }

  /** The whole sweep over a width × length grid. A frequency of 0 is only
      admissible when there is no cell to test. */
  function Sweep(width: int, length: int, freq: int, draw: nat -> int32): (s: seq<Placement>)
    requires freq != 0 || CellCount(width, length) == 0
    ensures |s| == CellCount(width, length)
  {
    if width <= 0 || length <= 0 then [] else SweepPrefix(width * length, length, freq, draw)
  }

  /** The number of non-road cells among the first n visited cells. */
  function NonRoadCells(n: nat, length: int, freq: int): (c: nat)
    requires length > 0 && freq != 0
    ensures c <= n
  {
    if n == 0 then 0
    else NonRoadCells(n - 1, length, freq) + (if IsRoad((n - 1) / length, (n - 1) % length, freq) then 0 else 1)
  }

  /** One step of the sweep: visiting cell (x, z), step x * length + z,
      appends a road or a building carrying the generator's next value. */
  lemma SweepStep(x: int, z: int, length: int, freq: int, draw: nat -> int32)
    requires x >= 0 && 0 <= z < length && freq != 0
    ensures var done := SweepPrefix(x * length + z, length, freq, draw);
      SweepPrefix(x * length + z + 1, length, freq, draw) ==
        done + [if IsRoad(x, z, freq) then Road(x, z) else Building(x, z, draw(BuildingCount(done)) as int)]
  {
    CellOfIndex(x, z, length);
  }

  /** The placements emitted before the nested sweep visits cell (x, z):
      all rows of columns 0 .. x - 1, then rows 0 .. z - 1 of column x. */
  function SweepUpTo(x: nat, z: nat, length: int, freq: int, draw: nat -> int32): (s: seq<Placement>)
    requires 0 <= z <= length && freq != 0
    decreases x, z
  {
    if z == 0 then
      if x == 0 then [] else SweepUpTo(x - 1, length, length, freq, draw)
    else
      var done := SweepUpTo(x, z - 1, length, freq, draw);
      done + [if IsRoad(x, z - 1, freq) then Road(x, z - 1) else Building(x, z - 1, draw(BuildingCount(done)) as int)]
  }

  /** Before cell (x, z) the nested sweep has visited x * length + z cells. */
  lemma {:induction false} SweepUpToLength(x: nat, z: nat, length: int, freq: int, draw: nat -> int32)
    requires 0 <= z <= length && freq != 0
    ensures |SweepUpTo(x, z, length, freq, draw)| == x * length + z
    decreases x, z
  {
    if z > 0 {
      SweepUpToLength(x, z - 1, length, freq, draw);
    } else if x > 0 {
      SweepUpToLength(x - 1, length, length, freq, draw);
      assert (x - 1) * length + length == x * length;
    }
  }

  /** The nested sweep emits exactly what the flat sweep emits for the same
      number of cells. */
  lemma {:induction false} SweepUpToIsPrefix(x: nat, z: nat, length: int, freq: int, draw: nat -> int32)
    requires 0 <= z <= length && length > 0 && freq != 0
    ensures var s := SweepUpTo(x, z, length, freq, draw);
      s == SweepPrefix(|s|, length, freq, draw)
    decreases x, z
  {
    if z > 0 {
      SweepUpToIsPrefix(x, z - 1, length, freq, draw);
      RowStepIsPrefix(x, z - 1, length, freq, draw);
    } else if x > 0 {
      SweepUpToIsPrefix(x - 1, length, length, freq, draw);
    }
  }

  /** The whole sweep is what the nested loops emit once every column is done. */
  lemma SweepIsNested(width: int, length: int, freq: int, draw: nat -> int32)
    requires width > 0 && length > 0 && freq != 0
    ensures Sweep(width, length, freq, draw) == SweepUpTo(width, 0, length, freq, draw)
  {
    SweepUpToIsPrefix(width, 0, length, freq, draw);
    SweepUpToLength(width, 0, length, freq, draw);
  }

  lemma RowStepIsPrefix(x: nat, z: nat, length: int, freq: int, draw: nat -> int32)
    requires 0 <= z < length && freq != 0
    requires var s := SweepUpTo(x, z, length, freq, draw);
      s == SweepPrefix(|s|, length, freq, draw)
    ensures var s := SweepUpTo(x, z + 1, length, freq, draw);
      s == SweepPrefix(|s|, length, freq, draw)
  {
    SweepUpToLength(x, z, length, freq, draw);
    SweepStep(x, z, length, freq, draw);
  }

  // ---------------------------------------------------------------------
  // The road test

  /** Column 0 and row 0 are always roads, and so is every column and row
      whose index is a multiple of the frequency. */
  lemma {:induction false} MultiplesAreRoads(k: int, z: int, freq: int)
    requires freq != 0
    ensures IsRoad(k * freq, z, freq) && IsRoad(z, k * freq, freq)
  {
    MultipleRemainder(k, freq);
    CsRemainderSpec(k * freq, freq);
  }

  lemma MultipleRemainder(k: int, freq: int)
    requires freq != 0
    ensures (k * freq) % freq == 0
  {
    var m := Abs(freq);
    var q := if freq > 0 then k else -k;
    assert k * freq == q * m + 0;
    DivModUnique(k * freq, m, q, 0);
    RemainderOfAbsDivisor(k * freq, freq);
  }

  /** With frequency 1 (or -1) every cell is a road. */
  lemma FrequencyOneAllRoads(x: int, z: int, freq: int)
    requires freq == 1 || freq == -1
    ensures IsRoad(x, z, freq)
  {
  }

  /** Within the first block (indices below the frequency) only column 0 and
      row 0 are roads; e.g. a 4 × 4 grid with frequency 4 has roads exactly at
      x = 0 and z = 0. */
  lemma FirstBlockRoads(x: int, z: int, freq: int)
    requires 0 <= x < freq && 0 <= z < freq
    ensures IsRoad(x, z, freq) <==> x == 0 || z == 0
  {
    DivModUnique(x, freq, 0, x);
    DivModUnique(z, freq, 0, z);
  }

  /** The road pattern repeats along both axes with period the magnitude of
      the frequency; a negative frequency gives the same roads as its
      magnitude. */
  lemma RoadPeriodic(x: int, z: int, freq: int)
    requires freq != 0
    ensures IsRoad(x + Abs(freq), z, freq) == IsRoad(x, z, freq)
    ensures IsRoad(x, z + Abs(freq), freq) == IsRoad(x, z, freq)
    ensures IsRoad(x, z, -freq) == IsRoad(x, z, freq)
  {
    var m := Abs(freq);
    ShiftRemainder(x, m);
    ShiftRemainder(z, m);
    forall a | a in {x, z, x + m, z + m}
      ensures (CsRemainder(a, freq) == 0) == (a % m == 0) == (CsRemainder(a, -freq) == 0)
    {
      CsRemainderSpec(a, freq);
      CsRemainderSpec(a, -freq);
      RemainderOfAbsDivisor(a, freq);
      RemainderOfAbsDivisor(a, -freq);
    }
  }

  lemma ShiftRemainder(a: int, freq: int)
    requires freq > 0
    ensures (a + freq) % freq == a % freq
  {
    var q, r := a / freq, a % freq;
    assert a + freq == (q + 1) * freq + r;
    DivModUnique(a + freq, freq, q + 1, r);
  }

  // ---------------------------------------------------------------------
  // Cell order

  /** Euclidean division is unique. */
  lemma DivModUnique(a: int, d: int, q: int, r: int)
    requires d > 0 && 0 <= r < d && a == q * d + r
    ensures a / d == q && a % d == r
  {
    var q', r' := a / d, a % d;
    assert (q' - q) * d == r - r';
    MulBeyond(q' - q, d);
  }

  /** A non-zero multiple of d is at least d away from 0. */
  lemma {:induction false} MulBeyond(k: int, d: int)
    requires d > 0
    ensures k >= 1 ==> k * d >= d
    ensures k <= -1 ==> k * d <= -d
    decreases Abs(k)
  {
    if k > 1 {
      MulBeyond(k - 1, d);
      assert k * d == (k - 1) * d + d;
    } else if k < -1 {
      MulBeyond(k + 1, d);
      assert k * d == (k + 1) * d - d;
    }
  }

  /** Dafny's `%` depends only on the magnitude of the divisor. */
  lemma RemainderOfAbsDivisor(a: int, b: int)
    requires b != 0
    ensures a % b == a % Abs(b)
  {
    var q, r := a / b, a % b;
    assert a == q * b + r;
    if b < 0 {
      assert q * b == (-q) * Abs(b);
      DivModUnique(a, Abs(b), -q, r);
    }
  }

  /** A number is a multiple of m exactly when its negation is. */
  lemma RemainderZeroNegated(a: int, m: int)
    requires m > 0
    ensures ((-a) % m == 0) == (a % m == 0)
  {
    var q, q' := a / m, (-a) / m;
    assert a == q * m + a % m;
    assert -a == q' * m + (-a) % m;
    if a % m == 0 {
      assert -a == (-q) * m + 0;
      DivModUnique(-a, m, -q, 0);
    }
    if (-a) % m == 0 {
      assert a == (-q') * m + 0;
      DivModUnique(a, m, -q', 0);
    }
  }

  /** Visiting cell (x, z) is step x * length + z of the sweep. */
  lemma CellOfIndex(x: int, z: int, length: int)
    requires x >= 0 && 0 <= z < length
    ensures (x * length + z) / length == x && (x * length + z) % length == z
  {
    DivModUnique(x * length + z, length, x, z);
  }

  /** Step k of a sweep over width × length cells visits a cell inside the grid. */
  lemma IndexInGrid(k: int, width: int, length: int)
    requires 0 <= k < width * length && length > 0
    ensures 0 <= k / length < width && 0 <= k % length < length
  {
    var q, r := k / length, k % length;
    assert k == q * length + r;
    assert (q - width + 1) * length == q * length - width * length + length;
    MulBeyond(q - width + 1, length);
    MulBeyond(q, length);
  }

  // ---------------------------------------------------------------------
  // The reference sweep

  /** A shorter sweep is a prefix of a longer one: later cells never change
      what was emitted for earlier ones. */
  lemma {:induction false} SweepPrefixExtends(m: nat, n: nat, length: int, freq: int, draw: nat -> int32)
    requires length > 0 && freq != 0 && m <= n
    ensures SweepPrefix(m, length, freq, draw) == SweepPrefix(n, length, freq, draw)[..m]
    decreases n - m
  {
    if m < n {
      SweepPrefixExtends(m, n - 1, length, freq, draw);
      var s := SweepPrefix(n - 1, length, freq, draw);
      assert SweepPrefix(n, length, freq, draw)[..n - 1] == s;
      assert SweepPrefix(n, length, freq, draw)[..m] == s[..m];
    }
  }

  /** The k-th placement of a prefix sweep is the placement of cell k, with
      the height the generator returns for the buildings emitted before it. */
  lemma SweepPrefixAt(n: nat, k: nat, length: int, freq: int, draw: nat -> int32)
    requires length > 0 && freq != 0 && k < n
    ensures var s := SweepPrefix(n, length, freq, draw);
      s[k] == PlacementAt(k, length, freq, draw(BuildingCount(s[..k])) as int)
  {
    var s := SweepPrefix(n, length, freq, draw);
    SweepPrefixExtends(k + 1, n, length, freq, draw);
    SweepPrefixExtends(k, n, length, freq, draw);
    assert s[..k + 1] == SweepPrefix(k + 1, length, freq, draw);
    assert s[..k] == SweepPrefix(k, length, freq, draw);
    assert s[k] == s[..k + 1][k];
  }

  /** The k-th placement of the sweep: its cell is (k / length, k % length),
      inside the grid; it is a road exactly when the road test holds for that
      cell; a building's height is the generator's next value. */
  lemma SweepAt(width: int, length: int, freq: int, draw: nat -> int32, k: int)
    requires freq != 0 && 0 <= k < CellCount(width, length)
    ensures var s := Sweep(width, length, freq, draw);
      && s[k].x == k / length && s[k].z == k % length
      && 0 <= s[k].x < width && 0 <= s[k].z < length
      && (s[k].Road? <==> IsRoad(s[k].x, s[k].z, freq))
      && (s[k].Building? ==> s[k].height == draw(BuildingCount(s[..k])) as int)
  {
    SweepPrefixAt(width * length, k, length, freq, draw);
    IndexInGrid(k, width, length);
  }

  /** Cell (x, z) of the grid is visited exactly at step x * length + z. */
  lemma SweepVisitsCell(width: int, length: int, freq: int, draw: nat -> int32, x: int, z: int)
    requires freq != 0 && 0 <= x < width && 0 <= z < length
    ensures var s := Sweep(width, length, freq, draw);
      && 0 <= x * length + z < |s|
      && s[x * length + z].x == x && s[x * length + z].z == z
      && (s[x * length + z].Road? <==> IsRoad(x, z, freq))
  {
    CellOfIndex(x, z, length);
    MulBeyond(width - x, length);
    assert width * length == x * length + (width - x) * length;
    SweepAt(width, length, freq, draw, x * length + z);
  }

  /** The sweep emits placements in x-major order: all rows of column 0, then
      all rows of column 1, and so on. In particular no cell is visited twice. */
  lemma SweepOrdered(width: int, length: int, freq: int, draw: nat -> int32, i: int, j: int)
    requires freq != 0 && 0 <= i < j < CellCount(width, length)
    ensures var s := Sweep(width, length, freq, draw);
      s[i].x < s[j].x || (s[i].x == s[j].x && s[i].z < s[j].z)
  {
    SweepAt(width, length, freq, draw, i);
    SweepAt(width, length, freq, draw, j);
    IndexOrder(i, j, length);
  }

  /** Consecutive steps visit cells in lexicographic (column, row) order. */
  lemma IndexOrder(i: int, j: int, length: int)
    requires 0 <= i < j && length > 0
    ensures i / length < j / length || (i / length == j / length && i % length < j % length)
  {
    var qi, ri, qj, rj := i / length, i % length, j / length, j % length;
    assert i == qi * length + ri && j == qj * length + rj;
    assert i - j == (qi - qj) * length + ri - rj;
    MulBeyond(qi - qj, length);
  }

  /** Every building draws exactly one value: the number of buildings equals
      the number of non-road cells, and the remaining placements are roads. */
  lemma {:induction false} BuildingsAreNonRoadCells(n: nat, length: int, freq: int, draw: nat -> int32)
    requires length > 0 && freq != 0
    ensures BuildingCount(SweepPrefix(n, length, freq, draw)) == NonRoadCells(n, length, freq)
  {
    if n > 0 {
      var done := SweepPrefix(n - 1, length, freq, draw);
      BuildingsAreNonRoadCells(n - 1, length, freq, draw);
      BuildingCountAppend(done, PlacementAt(n - 1, length, freq, draw(BuildingCount(done)) as int));
    }
  }

  /** The documented contract of the random generator's integer draw
      `Range(lo, hiExclusive)`: a value in [lo, hiExclusive) when the range is
      non-empty, lo itself when both bounds are equal. An inverted range is
      not constrained. */
  ghost predicate DrawsInRange(draw: nat -> int32, lo: int32, hiExclusive: int32)
  {
    forall i: nat ::
      && (lo < hiExclusive ==> lo <= draw(i) < hiExclusive)
      && (lo == hiExclusive ==> draw(i) == lo)
  }

  /** The random generator as the script calls it: `rng(lo, hiExclusive, i)`
      is what `Range(lo, hiExclusive)` returns on the i-th call of one
      regeneration. Its documented contract, for every pair of bounds: */
  ghost predicate RangeContract(rng: (int32, int32, nat) -> int32)
  {
    forall lo: int32, hiExclusive: int32, i: nat ::
      && (lo < hiExclusive ==> lo <= rng(lo, hiExclusive, i) < hiExclusive)
      && (lo == hiExclusive ==> rng(lo, hiExclusive, i) == lo)
  }

  /** The heights the sweep receives when every call passes the same bounds. */
  function DrawStream(rng: (int32, int32, nat) -> int32, lo: int32, hiExclusive: int32): nat -> int32
  {
    (i: nat) => rng(lo, hiExclusive, i)
  }

  /** A generator that honours its contract for every pair of bounds honours
      it for the stream of one pair. */
  lemma RangeContractStream(rng: (int32, int32, nat) -> int32, lo: int32, hiExclusive: int32)
    requires RangeContract(rng)
    ensures DrawsInRange(DrawStream(rng, lo, hiExclusive), lo, hiExclusive)
  {
  }

  /** The exclusive upper bound `max + 1` handed to the draw, computed in
      32-bit arithmetic: Int32.MaxValue + 1 wraps to Int32.MinValue. */
  function UpperExclusive(max: int32): (r: int32)
    ensures r as int == (max as int + 1 + 0x8000_0000) % 0x1_0000_0000 - 0x8000_0000
  {
    if max == Int32Max then Int32Min else max + 1
  }

  /** Every building height lies in [minHeight, maxHeight]: the exclusive
      bound passed to the draw is maxHeight + 1. */
  lemma HeightsWithinBounds(width: int, length: int, freq: int, draw: nat -> int32, minHeight: int32, maxHeight: int32)
    requires freq != 0 || CellCount(width, length) == 0
    requires minHeight <= maxHeight < Int32Max
    requires DrawsInRange(draw, minHeight, UpperExclusive(maxHeight))
    ensures var s := Sweep(width, length, freq, draw);
      forall k :: 0 <= k < |s| && s[k].Building? ==> minHeight as int <= s[k].height <= maxHeight as int
  {
    var s := Sweep(width, length, freq, draw);
    forall k | 0 <= k < |s| && s[k].Building?
      ensures minHeight as int <= s[k].height <= maxHeight as int
    {
      SweepAt(width, length, freq, draw, k);
    }
  }

  /** With minHeight == maxHeight every building has exactly that height. */
  lemma FixedHeight(width: int, length: int, freq: int, draw: nat -> int32, height: int32)
    requires freq != 0 || CellCount(width, length) == 0
    requires height < Int32Max
    requires DrawsInRange(draw, height, UpperExclusive(height))
    ensures var s := Sweep(width, length, freq, draw);
      forall k :: 0 <= k < |s| && s[k].Building? ==> s[k].height == height as int
  {
    HeightsWithinBounds(width, length, freq, draw, height, height);
  }

  /** Column 0 and row 0 of the grid always receive roads. */
  lemma EdgesAreRoads(width: int, length: int, freq: int, draw: nat -> int32, k: int)
    requires freq != 0 && 0 <= k < CellCount(width, length)
    ensures var s := Sweep(width, length, freq, draw);
      s[k].x == 0 || s[k].z == 0 ==> s[k].Road?
  {
    SweepAt(width, length, freq, draw, k);
    MultiplesAreRoads(0, 0, freq);
  }

  /** With frequency 1 every placement is a road and no building is made. */
  lemma {:induction false} FrequencyOneNoBuildings(n: nat, length: int, draw: nat -> int32)
    requires length > 0
    ensures BuildingCount(SweepPrefix(n, length, 1, draw)) == 0
    ensures forall k :: 0 <= k < n ==> SweepPrefix(n, length, 1, draw)[k].Road?
  {
    if n > 0 {
      var done := SweepPrefix(n - 1, length, 1, draw);
      FrequencyOneNoBuildings(n - 1, length, draw);
      FrequencyOneAllRoads((n - 1) / length, (n - 1) % length, 1);
      BuildingCountAppend(done, PlacementAt(n - 1, length, 1, draw(BuildingCount(done)) as int));
    }
  }

  /** A 2 × 2 grid with frequency 2: three roads around one building, which
      takes the generator's first value. */
  lemma SmallGrid(draw: nat -> int32)
    ensures Sweep(2, 2, 2, draw) == [Road(0, 0), Road(0, 1), Road(1, 0), Building(1, 1, draw(0) as int)]
  {
    var s1 := SweepPrefix(1, 2, 2, draw);
    assert s1 == [Road(0, 0)];
    var s2 := SweepPrefix(2, 2, 2, draw);
    assert s2 == [Road(0, 0), Road(0, 1)];
    var s3 := SweepPrefix(3, 2, 2, draw);
    assert s3 == [Road(0, 0), Road(0, 1), Road(1, 0)];
    assert BuildingCount(s3) == 0 by {
      assert s3[..2] == s2 && s2[..1] == s1 && s1[..0] == [];
    }
  }
}
