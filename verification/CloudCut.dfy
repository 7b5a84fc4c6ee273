/** Cutting the fractal pattern into cloud and sky at the elevation that gives the requested
    coverage: convert_to_binary_cloud in climate/climate.cpp. */
module CloudCut {
  import opened CloudGrid

  const SEARCH_TOLERANCE: real := 0.005

  /** The on-screen region is the square of rows and columns first..first + side. */
  datatype Screen = Screen(first: nat, side: nat)

  ghost predicate OnGrid(s: Screen, n: nat) {
    s.side > 0 && s.first + s.side <= n
  }

  predicate Cloudy(v: real, cut: real) {
    v != EMPTY_VALUE && v <= cut
  }

  // ----- coverage --------------------------------------------------------------------

  /** Cloudy cells among the first `k` on-screen cells of a row. */
  ghost function RowCount(row: seq<real>, first: nat, k: nat, cut: real): (c: nat)
    requires first + k <= |row|
    ensures c <= k
  {
    if k == 0 then 0
    else RowCount(row, first, k - 1, cut) + (if Cloudy(row[first + k - 1], cut) then 1 else 0)
  }

  /** Cloudy cells in the first `k` on-screen rows. */
  ghost function Count(p: Picture, s: Screen, k: nat, cut: real): (c: nat)
    requires OnGrid(s, |p|) && k <= s.side
  {
    if k == 0 then 0 else Count(p, s, k - 1, cut) + RowCount(p[s.first + k - 1], s.first, s.side, cut)
  }

  /** A number of cells as a share of the screen. */
  function Share(count: nat, s: Screen): real
    requires s.side > 0
  {
    assert s.side * s.side > 0;
    count as real / (s.side * s.side) as real
  }

  ghost function Coverage(p: Picture, s: Screen, cut: real): real
    requires OnGrid(s, |p|)
  {
    Share(Count(p, s, s.side, cut), s)
  }

  lemma RowCountMonotone(row: seq<real>, first: nat, k: nat, low: real, high: real)
    requires first + k <= |row| && low <= high
    ensures RowCount(row, first, k, low) <= RowCount(row, first, k, high)
  {
    if k > 0 { RowCountMonotone(row, first, k - 1, low, high); }
  }

  lemma CountMonotone(p: Picture, s: Screen, k: nat, low: real, high: real)
    requires OnGrid(s, |p|) && k <= s.side && low <= high
    ensures Count(p, s, k, low) <= Count(p, s, k, high)
  {
    if k > 0 {
      CountMonotone(p, s, k - 1, low, high);
      RowCountMonotone(p[s.first + k - 1], s.first, s.side, low, high);
    }
  }

  lemma CoverageMonotone(p: Picture, s: Screen, low: real, high: real)
    requires OnGrid(s, |p|) && low <= high
    ensures Coverage(p, s, low) <= Coverage(p, s, high)
  {
    CountMonotone(p, s, s.side, low, high);
    var cells := (s.side * s.side) as real;
    assert cells > 0.0;
    Divide(Count(p, s, s.side, low) as real, Count(p, s, s.side, high) as real, cells);
  }

  lemma Divide(x: real, y: real, d: real)
    requires x <= y && d > 0.0
    ensures x / d <= y / d
  {
  }

  /** Raising the cut from `cut` changes no count before it reaches the next cell value. */
  ghost function NextInRow(row: seq<real>, first: nat, k: nat, cut: real, bound: real): (next: real)
    requires first + k <= |row| && cut < bound
    ensures cut < next <= bound
    ensures forall c :: cut <= c < next ==> RowCount(row, first, k, c) == RowCount(row, first, k, cut)
  {
    if k == 0 then bound
    else
      var next := NextInRow(row, first, k - 1, cut, bound);
      if cut < row[first + k - 1] < next then row[first + k - 1] else next
  }

  ghost function NextValue(p: Picture, s: Screen, k: nat, cut: real, bound: real): (next: real)
    requires OnGrid(s, |p|) && k <= s.side && cut < bound
    ensures cut < next <= bound
    ensures forall c :: cut <= c < next ==> Count(p, s, k, c) == Count(p, s, k, cut)
  {
    if k == 0 then bound
    else
      var next := NextValue(p, s, k - 1, cut, bound);
      NextInRow(p[s.first + k - 1], s.first, s.side, cut, next)
  }

  // ----- the bisection ---------------------------------------------------------------

  datatype Verdict = TooHigh | TooLow | InBand

  ghost function Judge(p: Picture, s: Screen, want: real, cut: real): Verdict
    requires OnGrid(s, |p|)
  {
    if Coverage(p, s, cut) > want + SEARCH_TOLERANCE then TooHigh
    else if Coverage(p, s, cut) < want - SEARCH_TOLERANCE then TooLow
    else InBand
  }

  datatype Search = Search(cut: real, step: real, low: real, high: real)

  /** One turn of the do-while loop. */
  ghost function Turn(p: Picture, s: Screen, want: real, b: Search): Search
    requires OnGrid(s, |p|)
  {
    var cut := b.cut + b.step;
    match Judge(p, s, want, cut)
    case TooHigh => Search(cut, (cut - b.low) / -2.0, b.low, cut)
    case TooLow => Search(cut, (b.high - cut) / 2.0, cut, b.high)
    case InBand => b.(cut := cut)
  }

  ghost function Turns(p: Picture, s: Screen, want: real, b: Search, n: nat): Search
    requires OnGrid(s, |p|)
    decreases n
  {
    if n == 0 then b else Turns(p, s, want, Turn(p, s, want, b), n - 1)
  }

  /** The loop, started at the low end of [low, high], ends with its n-th turn. */
  ghost predicate EndsAt(p: Picture, s: Screen, want: real, b: Search, n: nat)
    requires OnGrid(s, |p|)
  {
    && n > 0 && Judge(p, s, want, Turns(p, s, want, b, n).cut) == InBand
    && forall k :: 0 < k < n ==> Judge(p, s, want, Turns(p, s, want, b, k).cut) != InBand
  }

  lemma TurnsLast(p: Picture, s: Screen, want: real, b: Search, n: nat)
    requires OnGrid(s, |p|)
    decreases n
    ensures Turns(p, s, want, b, n + 1) == Turn(p, s, want, Turns(p, s, want, b, n))
  {
    if n > 0 { TurnsLast(p, s, want, Turn(p, s, want, b), n - 1); }
  }

  /** All cuts of an interval of positive width are good, and the search still encloses it. */
  ghost predicate Encloses(p: Picture, s: Screen, want: real, b: Search, x: real, y: real)
    requires OnGrid(s, |p|)
  {
    && x < y && b.low <= x && y <= b.high
    && forall c :: x <= c <= y ==> Judge(p, s, want, c) == InBand
  }

  /** The next cut: the low end at first, the middle of the bracket afterwards. */
  predicate Aimed(b: Search, first: bool) {
    b.cut + b.step == if first then b.low else (b.low + b.high) / 2.0
  }

  /** A turn that does not end the loop keeps the interval enclosed, and halves the bracket
      unless it was the first. */
  lemma TurnNarrows(p: Picture, s: Screen, want: real, b: Search, x: real, y: real, first: bool)
    requires OnGrid(s, |p|) && Encloses(p, s, want, b, x, y) && Aimed(b, first)
    requires Judge(p, s, want, b.cut + b.step) != InBand
    ensures var next := Turn(p, s, want, b);
            && Encloses(p, s, want, next, x, y) && Aimed(next, false)
            && next.high - next.low == if first then b.high - b.low else (b.high - b.low) / 2.0
  {
    var cut := b.cut + b.step;
    if cut < x { CoverageMonotone(p, s, cut, x); }
    else { CoverageMonotone(p, s, y, cut); }
    assert Judge(p, s, want, x) == InBand && Judge(p, s, want, y) == InBand;
  }

  lemma HalvingSteps(width: real, gap: real)
    requires 0.0 < gap <= width
    ensures 0 <= (width / 2.0 / gap).Floor < (width / gap).Floor
  {
    var q := width / gap;
    assert q >= 1.0;
    assert width / 2.0 / gap == q / 2.0;
  }

  /** With such an interval the loop ends. */
  lemma {:induction false} Ends(p: Picture, s: Screen, want: real, b: Search, x: real, y: real, first: bool)
      returns (n: nat)
    requires OnGrid(s, |p|) && Encloses(p, s, want, b, x, y) && Aimed(b, first)
    ensures EndsAt(p, s, want, b, n)
    decreases if first then 1 else 0, ((b.high - b.low) / (y - x)).Floor
  {
    var next := Turn(p, s, want, b);
    if Judge(p, s, want, next.cut) == InBand {
      n := 1;
      assert Turns(p, s, want, b, 1) == next;
    } else {
      TurnNarrows(p, s, want, b, x, y, first);
      HalvingSteps(b.high - b.low, y - x);
      var m := Ends(p, s, want, next, x, y, false);
      n := m + 1;
      forall k | 0 < k < n ensures Judge(p, s, want, Turns(p, s, want, b, k).cut) != InBand {
        assert Turns(p, s, want, b, k) == Turns(p, s, want, next, k - 1);
      }
    }
  }

  /** While no cut below the high end is good, every turn tries a cut that is not. */
  lemma {:induction false} NeverEnds(p: Picture, s: Screen, want: real, b: Search, low: real, high: real, n: nat)
    requires OnGrid(s, |p|) && low <= b.low <= b.high <= high && b.low < high
    requires b.cut + b.step == b.low || b.cut + b.step == (b.low + b.high) / 2.0
    requires forall c :: low <= c < high ==> Judge(p, s, want, c) != InBand
    ensures n > 0 ==> Judge(p, s, want, Turns(p, s, want, b, n).cut) != InBand
    decreases n
  {
    if n > 0 {
      var next := Turn(p, s, want, b);
      if n == 1 { assert Turns(p, s, want, b, 1) == next; }
      else { NeverEnds(p, s, want, next, low, high, n - 1); }
    }
  }

  /** Started on a proper bracket, the loop ends if and only if some cut in it, short of its
      high end, gives a coverage within half a hundredth of the wanted one. */
  lemma BisectionEndsIff(p: Picture, s: Screen, want: real, low: real, high: real)
    requires OnGrid(s, |p|) && low < high
    ensures (exists n :: EndsAt(p, s, want, Search(low, 0.0, low, high), n))
       <==> (exists c :: low <= c < high && want - 0.005 <= Coverage(p, s, c) <= want + 0.005)
  {
    assert forall c :: want - 0.005 <= Coverage(p, s, c) <= want + 0.005 <==> Judge(p, s, want, c) == InBand;
    var b := Search(low, 0.0, low, high);
    if c :| low <= c < high && Judge(p, s, want, c) == InBand {
      var n := GoodCutEnds(p, s, want, low, high, c);
    } else {
      forall n ensures !EndsAt(p, s, want, b, n) {
        if n > 0 { NeverEnds(p, s, want, b, low, high, n); }
      }
    }
  }

  lemma GoodCutEnds(p: Picture, s: Screen, want: real, low: real, high: real, c: real) returns (n: nat)
    requires OnGrid(s, |p|) && low <= c < high && Judge(p, s, want, c) == InBand
    ensures EndsAt(p, s, want, Search(low, 0.0, low, high), n)
  {
    var next := NextValue(p, s, s.side, c, high);
    var y := (c + next) / 2.0;
    n := Ends(p, s, want, Search(low, 0.0, low, high), c, y, true);
  }

  /** A low end already above the band can never be left: the loop does not end. */
  lemma LowEndAboveBandNeverEnds(p: Picture, s: Screen, want: real, low: real, high: real)
    requires OnGrid(s, |p|) && low < high && Judge(p, s, want, low) == TooHigh
    ensures forall n :: !EndsAt(p, s, want, Search(low, 0.0, low, high), n)
  {
    forall c | low <= c < high ensures Coverage(p, s, c) > want + 0.005 { CoverageMonotone(p, s, low, c); }
    BisectionEndsIff(p, s, want, low, high);
  }

  lemma {:induction false} AllInRow(row: seq<real>, first: nat, k: nat, cut: real)
    requires first + k <= |row| && forall c :: first <= c < first + k ==> Cloudy(row[c], cut)
    ensures RowCount(row, first, k, cut) == k
  {
    if k > 0 { AllInRow(row, first, k - 1, cut); }
  }

  lemma {:induction false} AllCounted(p: Picture, s: Screen, k: nat, cut: real)
    requires OnGrid(s, |p|) && k <= s.side
    requires forall r, c :: s.first <= r < s.first + k && s.first <= c < s.first + s.side ==> Cloudy(p[r][c], cut)
    ensures Count(p, s, k, cut) == k * s.side
  {
    if k > 0 {
      AllCounted(p, s, k - 1, cut);
      AllInRow(p[s.first + k - 1], s.first, s.side, cut);
    }
  }

  /** Such a pattern: its raw values are 1 and more, so that the search starts at a cut above all
      normalized values on the screen, which lie between 0 and 1, and all of it is cloudy. */
  lemma HighPatternNeverEnds(p: Picture, s: Screen, want: real, low: real, high: real)
    requires OnGrid(s, |p|) && 1.0 <= low < high && want <= 0.99
    requires forall r, c :: s.first <= r < s.first + s.side && s.first <= c < s.first + s.side ==> 0.0 <= p[r][c] <= 1.0
    ensures forall n :: !EndsAt(p, s, want, Search(low, 0.0, low, high), n)
  {
    AllCounted(p, s, s.side, low);
    assert Coverage(p, s, low) == 1.0;
    LowEndAboveBandNeverEnds(p, s, want, low, high);
  }

  // ----- the algorithm ---------------------------------------------------------------

  method CountCloudy(grid: array2<real>, s: Screen, cut: real) returns (count: nat)
    requires Square(grid) && OnGrid(s, grid.Length0)
    ensures count == Count(Show(grid), s, s.side, cut)
  {
    ghost var p := Show(grid);
    count := 0;
    for i := s.first to s.first + s.side
      invariant count == Count(p, s, i - s.first, cut)
    {
      ghost var above := count;
      for j := s.first to s.first + s.side
        invariant count == above + RowCount(p[i], s.first, j - s.first, cut)
      {
        assert p[i][j] == grid[i, j];
        if grid[i, j] != EMPTY_VALUE && grid[i, j] <= cut { count := count + 1; }
      }
    }
  }

  /** The search for the cut. Any good cut short of the high end is enough for it to end. */
  method FindCut(grid: array2<real>, s: Screen, want: real, low: real, high: real) returns (cut: real, count: nat)
    requires Square(grid) && OnGrid(s, grid.Length0)
    requires exists c :: low <= c < high && Judge(Show(grid), s, want, c) == InBand
    ensures Judge(Show(grid), s, want, cut) == InBand && count == Count(Show(grid), s, s.side, cut)
    ensures exists n :: EndsAt(Show(grid), s, want, Search(low, 0.0, low, high), n)
                     && cut == Turns(Show(grid), s, want, Search(low, 0.0, low, high), n).cut
  {
    ghost var p, b := Show(grid), Search(low, 0.0, low, high);
    ghost var c :| low <= c < high && Judge(p, s, want, c) == InBand;
    ghost var n := GoodCutEnds(p, s, want, low, high, c);
    ghost var k := 0;
    cut := low;
    var step, minCut, maxCut := 0.0, low, high;
    while true
      invariant 0 <= k < n && EndsAt(p, s, want, b, n)
      invariant Search(cut, step, minCut, maxCut) == Turns(p, s, want, b, k)
      decreases n - k
    {
      TurnsLast(p, s, want, b, k);
      cut := cut + step;
      count := CountCloudy(grid, s, cut);
      var coverage := Share(count, s);
      if coverage > want + SEARCH_TOLERANCE {
        maxCut := cut;
        step := (maxCut - minCut) / -2.0;
      } else if coverage < want - SEARCH_TOLERANCE {
        minCut := cut;
        step := (maxCut - minCut) / 2.0;
      }
      k := k + 1;
      if !(coverage < want - SEARCH_TOLERANCE || coverage > want + SEARCH_TOLERANCE) { break; }
    }
    assert k == n;
  }

  /** The range of the filled cells, widened to take in the first on-screen cell. */
  ghost predicate IsRange(p: Picture, first: nat, low: real, high: real)
    requires first < |p|
  {
    && low <= p[first][first] <= high
    && (forall r, c :: InGrid(|p|, r, c) && p[r][c] != EMPTY_VALUE ==> low <= p[r][c] <= high)
    && (low == p[first][first] || exists r, c :: InGrid(|p|, r, c) && p[r][c] != EMPTY_VALUE && p[r][c] == low)
    && (high == p[first][first] || exists r, c :: InGrid(|p|, r, c) && p[r][c] != EMPTY_VALUE && p[r][c] == high)
  }

  method FindRange(grid: array2<real>, first: nat) returns (low: real, high: real)
    requires Square(grid) && first < grid.Length0
    ensures IsRange(Show(grid), first, low, high)
  {
    ghost var p := Show(grid);
    var n := grid.Length0;
    low, high := grid[first, first], grid[first, first];
    for i := 0 to n
      invariant low <= p[first][first] <= high
      invariant forall r, c :: InGrid(n, r, c) && r < i && p[r][c] != EMPTY_VALUE ==> low <= p[r][c] <= high
      invariant low == p[first][first] || exists r, c :: InGrid(n, r, c) && p[r][c] != EMPTY_VALUE && p[r][c] == low
      invariant high == p[first][first] || exists r, c :: InGrid(n, r, c) && p[r][c] != EMPTY_VALUE && p[r][c] == high
    {
      for j := 0 to n
        invariant low <= p[first][first] <= high
        invariant forall r, c :: InGrid(n, r, c) && (r < i || (r == i && c < j)) && p[r][c] != EMPTY_VALUE ==>
            low <= p[r][c] <= high
        invariant low == p[first][first] || exists r, c :: InGrid(n, r, c) && p[r][c] != EMPTY_VALUE && p[r][c] == low
        invariant high == p[first][first] || exists r, c :: InGrid(n, r, c) && p[r][c] != EMPTY_VALUE && p[r][c] == high
      {
        assert InGrid(n, i, j) && p[i][j] == grid[i, j];
        if grid[i, j] != EMPTY_VALUE {
          if grid[i, j] > high { high := grid[i, j]; }
          if grid[i, j] < low { low := grid[i, j]; }
        }
      }
    }
  }

  /** Filled cells are scaled; a cell that has become empty keeps its earlier normalized value. */
  ghost function Normalized(cloud: Picture, was: Picture, low: real, high: real): (now: Picture)
    requires |cloud| == |was| && low < high
    ensures |now| == |was|
    ensures forall r, c {:trigger now[r][c]} :: InGrid(|was|, r, c) ==>
              now[r][c] == if cloud[r][c] != EMPTY_VALUE then (cloud[r][c] - low) / (high - low) else was[r][c]
  {
    seq(|was|, r requires 0 <= r < |was| => seq(|was|, c requires 0 <= c < |was| =>
      if cloud[r][c] != EMPTY_VALUE then (cloud[r][c] - low) / (high - low) else was[r][c]))
  }

  /** Scaling takes the low end of the range to 0 and its high end to 1, and keeps proportions; so filled
      cells lie between. */
  lemma NormalizedInProportion(cloud: Picture, was: Picture, first: nat, low: real, high: real,
                               r: int, c: int, i: int, j: int)
    requires |cloud| == |was| && first < |cloud| && IsRange(cloud, first, low, high) && low < high
    requires InGrid(|was|, r, c) && InGrid(|was|, i, j) && cloud[r][c] != EMPTY_VALUE && cloud[i][j] != EMPTY_VALUE
    ensures var now := Normalized(cloud, was, low, high);
            && 0.0 <= now[r][c] <= 1.0
            && (now[r][c] == 0.0 <==> cloud[r][c] == low) && (now[r][c] == 1.0 <==> cloud[r][c] == high)
            && (now[r][c] - now[i][j]) * (high - low) == cloud[r][c] - cloud[i][j]
  {
    var now := Normalized(cloud, was, low, high);
    ScaledBack(cloud[r][c], low, high);
    ScaledBack(cloud[i][j], low, high);
    Distributes(now[r][c], now[i][j], high - low);
  }

  lemma ScaledBack(v: real, low: real, high: real)
    requires low <= v <= high && low < high
    ensures var x := (v - low) / (high - low);
            0.0 <= x <= 1.0 && x * (high - low) == v - low && (x == 0.0 <==> v == low) && (x == 1.0 <==> v == high)
  {
    var d, x := high - low, (v - low) / (high - low);
    assert x * d == v - low;
  }

  lemma Distributes(x: real, y: real, d: real)
    ensures (x - y) * d == x * d - y * d
  {
  }

  method Normalize(cloud: array2<real>, normalized: array2<real>, low: real, high: real)
    requires Square(cloud) && Square(normalized) && cloud.Length0 == normalized.Length0 && cloud != normalized
    requires low < high
    modifies normalized
    ensures Show(normalized) == Normalized(Show(cloud), old(Show(normalized)), low, high)
  {
    var n := cloud.Length0;
    var range := high - low;
    for i := 0 to n
      invariant forall r, c :: InGrid(n, r, c) ==>
        normalized[r, c] == if r < i && cloud[r, c] != EMPTY_VALUE then (cloud[r, c] - low) / range
                            else old(normalized[r, c])
    {
      for j := 0 to n
        invariant forall r, c :: InGrid(n, r, c) ==>
          normalized[r, c] == if (r < i || (r == i && c < j)) && cloud[r, c] != EMPTY_VALUE
                              then (cloud[r, c] - low) / range else old(normalized[r, c])
      {
        if cloud[i, j] != EMPTY_VALUE { normalized[i, j] := (cloud[i, j] - low) / range; }
      }
    }
    SamePicture(Show(normalized), Normalized(Show(cloud), old(Show(normalized)), low, high));
  }

  const EMPTY_LABEL: int := -999

  function Label(v: real, cut: real): int {
    if v == EMPTY_VALUE then EMPTY_LABEL else if v <= cut then 0 else 1
  }

  /** Cells labelled cloud among the first `k` on-screen cells of row `r`, and in the first `k` rows. */
  ghost function RowClouds(binary: array2<int>, r: nat, first: nat, k: nat): nat
    requires r < binary.Length0 && first + k <= binary.Length1
    reads binary
  {
    if k == 0 then 0 else RowClouds(binary, r, first, k - 1) + (if binary[r, first + k - 1] == 0 then 1 else 0)
  }

  ghost function Clouds(binary: array2<int>, s: Screen, k: nat): nat
    requires s.first + s.side <= binary.Length0 && s.first + s.side <= binary.Length1 && k <= s.side
    reads binary
  {
    if k == 0 then 0 else Clouds(binary, s, k - 1) + RowClouds(binary, s.first + k - 1, s.first, s.side)
  }

  lemma RowCloudsAreCounted(p: Picture, binary: array2<int>, s: Screen, r: nat, k: nat, cut: real)
    requires OnGrid(s, |p|) && binary.Length0 == binary.Length1 == |p| && r < |p| && k <= s.side
    requires forall i, j :: InGrid(|p|, i, j) ==> binary[i, j] == Label(p[i][j], cut)
    ensures RowClouds(binary, r, s.first, k) == RowCount(p[r], s.first, k, cut)
  {
    if k > 0 {
      assert InGrid(|p|, r, s.first + k - 1);
      RowCloudsAreCounted(p, binary, s, r, k - 1, cut);
    }
  }

  /** The on-screen cells labelled 0 are exactly those counted as cloudy at the final cut. */
  lemma CloudsAreCounted(p: Picture, binary: array2<int>, s: Screen, k: nat, cut: real)
    requires OnGrid(s, |p|) && binary.Length0 == binary.Length1 == |p| && k <= s.side
    requires forall i, j :: InGrid(|p|, i, j) ==> binary[i, j] == Label(p[i][j], cut)
    ensures Clouds(binary, s, k) == Count(p, s, k, cut)
  {
    if k > 0 {
      CloudsAreCounted(p, binary, s, k - 1, cut);
      RowCloudsAreCounted(p, binary, s, s.first + k - 1, s.side, cut);
    }
  }

  method LabelCells(normalized: array2<real>, binary: array2<int>, s: Screen, cut: real)
    requires Square(normalized) && OnGrid(s, normalized.Length0) &&
        binary.Length0 == binary.Length1 == normalized.Length0
    modifies binary
    ensures forall r, c :: InGrid(normalized.Length0, r, c) ==> binary[r, c] == Label(normalized[r, c], cut)
    ensures Clouds(binary, s, s.side) == Count(Show(normalized), s, s.side, cut)
  {
    var n := normalized.Length0;
    for i := 0 to n
      invariant forall r, c :: InGrid(n, r, c) && r < i ==> binary[r, c] == Label(normalized[r, c], cut)
    {
      for j := 0 to n
        invariant forall r, c :: InGrid(n, r, c) && (r < i || (r == i && c < j)) ==>
            binary[r, c] == Label(normalized[r, c], cut)
      {
        if normalized[i, j] == EMPTY_VALUE {
          binary[i, j] := -999;
        } else if normalized[i, j] <= cut {
          binary[i, j] := 0;
        } else if normalized[i, j] > cut {
          binary[i, j] := 1;
        }
      }
    }
    CloudsAreCounted(Show(normalized), binary, s, s.side, cut);
  }

  /** The requested coverage: twice the opaque sky cover, below full cover. */
  function Wanted(opaqueSky: real): real {
    if opaqueSky * 2.0 >= 1.0 then 0.99 else opaqueSky * 2.0
  }

  /** What the search needs of the pattern: a proper range, and in it a good cut below its top. */
  ghost predicate Searchable(cloud: Picture, was: Picture, s: Screen, want: real)
    requires OnGrid(s, |cloud|) && |was| == |cloud|
  {
    forall low, high :: IsRange(cloud, s.first, low, high) ==>
      && low < high
      && exists c :: low <= c < high && Judge(Normalized(cloud, was, low, high), s, want, c) == InBand
  }

  /** The whole conversion. The number of on-screen cells labelled cloud is within tolerance of
      the wanted share, and every label is the one the returned cut gives. */
  method ConvertToBinary(cloud: array2<real>, normalized: array2<real>, binary: array2<int>, s: Screen, opaqueSky: real)
    returns (cut: real, ghost low: real, ghost high: real)
    requires Square(cloud) && Square(normalized) && cloud.Length0 == normalized.Length0 && cloud != normalized
    requires binary.Length0 == binary.Length1 == cloud.Length0 && OnGrid(s, cloud.Length0)
    requires Searchable(Show(cloud), Show(normalized), s, Wanted(opaqueSky))
    modifies normalized, binary
    ensures IsRange(Show(cloud), s.first, low, high) && low < high
    ensures Show(normalized) == Normalized(Show(cloud), old(Show(normalized)), low, high)
    ensures forall r, c :: InGrid(cloud.Length0, r, c) ==>
              && (binary[r, c] == 0 <==> normalized[r, c] != EMPTY_VALUE && normalized[r, c] <= cut)
              && (binary[r, c] == 1 <==> normalized[r, c] != EMPTY_VALUE && normalized[r, c] > cut)
              && (binary[r, c] == -999 <==> normalized[r, c] == EMPTY_VALUE)
    ensures var share := Share(Clouds(binary, s, s.side), s);
            && (opaqueSky < 0.5 ==> 2.0 * opaqueSky - 0.005 <= share <= 2.0 * opaqueSky + 0.005)
            && (opaqueSky >= 0.5 ==> 0.985 <= share <= 0.995)
  {
    var want, min, max, count := Wanted(opaqueSky), 0.0, 0.0, 0;
    min, max := FindRange(cloud, s.first);
    low, high := min, max;
    Normalize(cloud, normalized, min, max);
    cut, count := FindCut(normalized, s, want, min, max);
    ghost var p := Show(normalized);
    LabelCells(normalized, binary, s, cut);
    assert Coverage(p, s, cut) == Share(count, s);
  }
}
