/** Filling the cloud pattern by midpoint displacement: build_cloud_pattern and the tiling loop
    of init_cloud_pattern in climate/climate.cpp. */
module CloudFill {
  import opened CloudGrid

  /** The test for an empty cell is `< EMPTY_VALUE * 0.98`. */
  const THRESHOLD: real := EMPTY_VALUE * 0.98

  predicate Filled(v: real) {
    v >= THRESHOLD
  }

  /** A square region of side `size` + 1 with its first corner at (row, col). */
  datatype Tile = Tile(row: nat, col: nat, size: nat)

  ghost predicate Fits(t: Tile, n: nat) {
    t.row + t.size < n && t.col + t.size < n
  }

  predicate InTile(t: Tile, r: int, c: int) {
    t.row <= r <= t.row + t.size && t.col <= c <= t.col + t.size
  }

  ghost predicate FilledAt(p: Picture, r: int, c: int) {
    InGrid(|p|, r, c) && Filled(p[r][c])
  }

  /** Only empty cells of the tile have changed. */
  ghost predicate Changed(was: Picture, now: Picture, t: Tile) {
    && |now| == |was|
    && forall r, c {:trigger now[r][c]} :: InGrid(|was|, r, c) ==>
         now[r][c] == was[r][c] || (InTile(t, r, c) && !Filled(was[r][c]))
  }

  ghost predicate TileFilled(p: Picture, t: Tile) {
    Fits(t, |p|) && forall r, c :: InTile(t, r, c) ==> FilledAt(p, r, c)
  }

  function Pow2(k: nat): (p: nat)
    ensures p >= 1
  {
    if k == 0 then 1 else 2 * Pow2(k - 1)
  }

  /** The number of levels, exact for a power of two. */
  function Log2(n: nat): nat {
    if n < 2 then 0 else 1 + Log2(n / 2)
  }

  lemma Log2OfPow2(k: nat)
    ensures Log2(Pow2(k)) == k
  {
    if k > 0 { Log2OfPow2(k - 1); }
  }

  // ----- the lattice of a tile -------------------------------------------------------

  /** The offset of the i-th lattice line at spacing `h`, counted off as the loops count it. */
  function Offset(h: nat, i: nat): nat {
    if i == 0 then 0 else Offset(h, i - 1) + h
  }

  lemma OffsetMonotone(h: nat, i: nat, j: nat)
    requires i <= j
    ensures Offset(h, i) <= Offset(h, j)
  {
    if i < j { OffsetMonotone(h, i, j - 1); }
  }

  lemma OffsetHalved(h: nat, i: nat)
    ensures Offset(2 * h, i) == Offset(h, 2 * i)
  {
    if i > 0 {
      OffsetHalved(h, i - 1);
      assert Offset(h, 2 * i) == Offset(h, 2 * i - 1) + h == Offset(h, 2 * i - 2) + h + h;
    }
  }

  lemma OffsetOne(i: nat)
    ensures Offset(1, i) == i
  {
    if i > 0 { OffsetOne(i - 1); }
  }

  /** The lattice point (i, j) of spacing `h` is filled. */
  ghost predicate Node(p: Picture, t: Tile, h: nat, i: nat, j: nat) {
    FilledAt(p, t.row + Offset(h, i), t.col + Offset(h, j))
  }

  /** All lattice points of spacing `h` with indices up to `n` are filled. */
  ghost predicate Lattice(p: Picture, t: Tile, h: nat, n: nat) {
    forall i, j :: 0 <= i <= n && 0 <= j <= n ==> Node(p, t, h, i, j)
  }

  /** Half-way through a level: squares of side 2h are taken column by column. Those of the
      first `i` columns, and the first `j` of column `i`, have all their nine points filled. */
  ghost predicate Reached(n: nat, i: nat, j: nat, a: int, b: int) {
    && 0 <= a <= 2 * n && 0 <= b <= 2 * n
    && ((i > 0 && b <= 2 * i) || (j > 0 && b <= 2 * i + 2 && a <= 2 * j))
  }

  ghost predicate Covered(p: Picture, t: Tile, h: nat, n: nat, i: nat, j: nat) {
    forall a, b :: Reached(n, i, j, a, b) ==> Node(p, t, h, a, b)
  }

  lemma LatticeKept(was: Picture, now: Picture, u: Tile, t: Tile, h: nat, n: nat)
    requires Changed(was, now, u) && Lattice(was, t, h, n)
    ensures Lattice(now, t, h, n)
  {
    forall a, b | 0 <= a <= n && 0 <= b <= n ensures Node(now, t, h, a, b) {
      assert Node(was, t, h, a, b);
    }
  }

  /** The corners of the square of the given side with its first corner at (r, c). */
  ghost predicate CornersFilled(p: Picture, r: int, c: int, side: nat) {
    && FilledAt(p, r, c) && FilledAt(p, r, c + side)
    && FilledAt(p, r + side, c) && FilledAt(p, r + side, c + side)
  }

  /** The middle of that square and the middles of its edges. */
  ghost predicate MiddlesFilled(p: Picture, r: int, c: int, side: nat, half: nat) {
    && FilledAt(p, r + half, c + half)
    && FilledAt(p, r + half, c) && FilledAt(p, r, c + half)
    && FilledAt(p, r + half, c + side) && FilledAt(p, r + side, c + half)
  }

  lemma OffsetNext(h: nat, i: nat)
    ensures Offset(h, i + 1) == Offset(h, i) + h
    ensures Offset(h, i + 2) == Offset(h, i) + 2 * h
  {
    assert Offset(h, i + 2) == Offset(h, i + 1) + h;
  }

  lemma SquareNode(p: Picture, t: Tile, h: nat, i: nat, j: nat, a: nat, b: nat)
    requires CornersFilled(p, t.row + Offset(h, 2 * j), t.col + Offset(h, 2 * i), 2 * h)
    requires MiddlesFilled(p, t.row + Offset(h, 2 * j), t.col + Offset(h, 2 * i), 2 * h, h)
    requires 2 * j <= a <= 2 * j + 2 && 2 * i <= b <= 2 * i + 2
    ensures Node(p, t, h, a, b)
  {
    var r, c := t.row + Offset(h, 2 * j), t.col + Offset(h, 2 * i);
    var r1, c1 := t.row + Offset(h, a), t.col + Offset(h, b);
    assert r1 == r || r1 == r + h || r1 == r + 2 * h by { OffsetNext(h, 2 * j); }
    assert c1 == c || c1 == c + h || c1 == c + 2 * h by { OffsetNext(h, 2 * i); }
    assert FilledAt(p, r1, c1);
  }

  /** Filling one more square extends the covered region by it. */
  lemma CoverSquare(was: Picture, now: Picture, u: Tile, t: Tile, h: nat, n: nat, i: nat, j: nat)
    requires Changed(was, now, u) && Covered(was, t, h, n, i, j) && i < n && j < n
    requires CornersFilled(now, t.row + Offset(h, 2 * j), t.col + Offset(h, 2 * i), 2 * h)
    requires MiddlesFilled(now, t.row + Offset(h, 2 * j), t.col + Offset(h, 2 * i), 2 * h, h)
    ensures Covered(now, t, h, n, i, j + 1)
  {
    forall a, b | Reached(n, i, j + 1, a, b) ensures Node(now, t, h, a, b) {
      if Reached(n, i, j, a, b) {
        assert Node(was, t, h, a, b);
      } else {
        SquareNode(now, t, h, i, j, a, b);
      }
    }
  }

  /** A whole column of squares done. */
  lemma NextColumn(p: Picture, t: Tile, h: nat, n: nat, i: nat)
    requires i < n && Covered(p, t, h, n, i, n)
    ensures Covered(p, t, h, n, i + 1, 0)
  {
    forall a, b | Reached(n, i + 1, 0, a, b) ensures Node(p, t, h, a, b) {
      assert Reached(n, i, n, a, b);
    }
  }

  lemma LevelDone(p: Picture, t: Tile, h: nat, n: nat)
    requires n > 0 && Covered(p, t, h, n, n, 0)
    ensures Lattice(p, t, h, 2 * n)
  {
    forall a, b | 0 <= a <= 2 * n && 0 <= b <= 2 * n ensures Node(p, t, h, a, b) {
      assert Reached(n, n, 0, a, b);
    }
  }

  lemma TileDone(p: Picture, t: Tile)
    requires Fits(t, |p|) && Lattice(p, t, 1, t.size)
    ensures TileFilled(p, t)
  {
    forall r, c | InTile(t, r, c) ensures FilledAt(p, r, c) {
      OffsetOne(r - t.row);
      OffsetOne(c - t.col);
      assert Node(p, t, 1, r - t.row, c - t.col);
    }
  }

  /** The corners of the square at column i and row j are lattice points. */
  lemma LatticeSquare(p: Picture, t: Tile, step: nat, n: nat, i: nat, j: nat)
    requires Lattice(p, t, step, n) && i < n && j < n
    ensures CornersFilled(p, t.row + Offset(step, j), t.col + Offset(step, i), step)
  {
    assert Node(p, t, step, j, i) && Node(p, t, step, j, i + 1) && Node(p, t, step, j + 1, i) &&
        Node(p, t, step, j + 1, i + 1);
    NodesAreCorners(p, t, step, i, j);
  }

  lemma NodesAreCorners(p: Picture, t: Tile, step: nat, i: nat, j: nat)
    requires Node(p, t, step, j, i) && Node(p, t, step, j, i + 1) && Node(p, t, step, j + 1, i) &&
        Node(p, t, step, j + 1, i + 1)
    ensures CornersFilled(p, t.row + Offset(step, j), t.col + Offset(step, i), step)
  {
    OffsetNext(step, i);
    OffsetNext(step, j);
  }

  /** That square lies in the tile. */
  lemma SquareInside(t: Tile, step: nat, n: nat, i: nat)
    requires Offset(step, n) == t.size && i < n
    ensures Offset(step, i) + step <= t.size
  {
    OffsetMonotone(step, i + 1, n);
    OffsetNext(step, i);
  }

  lemma CornersAreLattice(p: Picture, t: Tile)
    requires CornersFilled(p, t.row, t.col, t.size)
    ensures Lattice(p, t, t.size, 1)
  {
    assert Offset(t.size, 0) == 0 && Offset(t.size, 1) == t.size;
  }

  lemma ChangesCompose(was: Picture, mid: Picture, now: Picture, t: Tile, u: Tile)
    requires Changed(was, mid, t) && Changed(mid, now, u)
    requires t.row <= u.row && t.col <= u.col && u.row + u.size <= t.row + t.size && u.col + u.size <= t.col + t.size
    ensures Changed(was, now, t)
  {
    assert forall r, c {:trigger now[r][c]} :: InGrid(|was|, r, c) ==> mid[r][c] == mid[r][c];
  }

  // ----- the algorithm ---------------------------------------------------------------

  /** `Changed`, of the grid itself since an earlier moment. */
  twostate predicate Touched(grid: array2<real>, t: Tile)
    requires Square(grid)
    reads grid
  {
    forall r, c {:trigger grid[r, c]} :: InGrid(grid.Length0, r, c) ==>
      grid[r, c] == old(grid[r, c]) || (InTile(t, r, c) && !Filled(old(grid[r, c])))
  }

  /** The source of the random draws. Any value may be drawn; `low` tells whether one has been drawn, so
      far, that a cell counts as empty with. */
  class Noise {
    ghost var low: bool

    constructor ()
      ensures !low
    {
      low := false;
    }

    /** A mean with a random displacement. */
    method Displaced(mean: real) returns (v: real, ghost shift: real)
      modifies this
      ensures v == mean + shift && (low <==> old(low) || !Filled(v))
    {
      var noise: real := *;
      v, shift := mean + noise, noise;
      low := low || !Filled(v);
    }
  }

  /** A cell that is given a value keeps the one it has. */
  function Given(was: real, v: real): real {
    if Filled(was) then was else v
  }

  method FillIfEmpty(grid: array2<real>, r: nat, c: nat, v: real, ghost t: Tile)
    requires Square(grid) && InGrid(grid.Length0, r, c) && InTile(t, r, c)
    modifies grid
    ensures Touched(grid, t) && (Filled(v) ==> Filled(grid[r, c]))
    ensures forall i, j :: InGrid(grid.Length0, i, j) ==>
              grid[i, j] == if i == r && j == c then Given(old(grid[r, c]), v) else old(grid[i, j])
  {
    if grid[r, c] < EMPTY_VALUE * 0.98 {
      grid[r, c] := v;
    }
  }

  /** The random displacements of the middle of a square and of the middles of its edges. */
  datatype Draws = Draws(x: real, a: real, b: real, c: real, d: real)

  /** The middle is the mean of the corners, and the middle of an edge that of its ends and the middle,
      displaced; unless they were filled before. */
  ghost predicate MeansPut(was: Picture, now: Picture, r: nat, c: nat, step: nat, half: nat, draws: Draws)
    requires |now| == |was| && r + step < |was| && c + step < |was| && half <= step
  {
    var c1, c2, c3, c4 := was[r][c], was[r][c + step], was[r + step][c], was[r + step][c + step];
    var x := (c1 + c2 + c3 + c4) / 4.0 + draws.x;
    && now[r + half][c + half] == Given(was[r + half][c + half], x)
    && now[r + half][c] == Given(was[r + half][c], (x + c1 + c3) / 3.0 + draws.a)
    && now[r][c + half] == Given(was[r][c + half], (x + c1 + c2) / 3.0 + draws.b)
    && now[r + half][c + step] == Given(was[r + half][c + step], (x + c2 + c4) / 3.0 + draws.c)
    && now[r + step][c + half] == Given(was[r + step][c + half], (x + c3 + c4) / 3.0 + draws.d)
  }

  /** The midpoints of one square. Unless something low was drawn they are filled. */
  method FillSquare(grid: array2<real>, rng: Noise, r: nat, c: nat, step: nat, half: nat) returns (ghost draws: Draws)
    requires Square(grid) && step == 2 * half && r + step < grid.Length0 && c + step < grid.Length0
    modifies grid, rng
    ensures Changed(old(Show(grid)), Show(grid), Tile(r, c, step)) && (old(rng.low) ==> rng.low)
    ensures !rng.low ==> MiddlesFilled(Show(grid), r, c, step, half)
    ensures half > 0 ==> MeansPut(old(Show(grid)), Show(grid), r, c, step, half, draws)
  {
    var c1, c2 := grid[r, c], grid[r, c + step];
    var c3, c4 := grid[r + step, c], grid[r + step, c + step];
    ghost var dx, da, db, dc, dd;
    var x, ea, eb, ec, ed;
    x, dx := rng.Displaced((c1 + c2 + c3 + c4) / 4.0);
    ea, da := rng.Displaced((x + c1 + c3) / 3.0);
    eb, db := rng.Displaced((x + c1 + c2) / 3.0);
    ec, dc := rng.Displaced((x + c2 + c4) / 3.0);
    ed, dd := rng.Displaced((x + c3 + c4) / 3.0);
    draws := Draws(dx, da, db, dc, dd);
    FillMiddles(grid, r, c, step, half, x, ea, eb, ec, ed);
  }

  method FillMiddles(grid: array2<real>, r: nat, c: nat, step: nat, half: nat,
                     x: real, ea: real, eb: real, ec: real, ed: real)
    requires Square(grid) && step == 2 * half && r + step < grid.Length0 && c + step < grid.Length0
    modifies grid
    ensures Changed(old(Show(grid)), Show(grid), Tile(r, c, step))
    ensures Filled(x) && Filled(ea) && Filled(eb) && Filled(ec) && Filled(ed) ==>
              MiddlesFilled(Show(grid), r, c, step, half)
    ensures half > 0 ==>
              && grid[r + half, c + half] == Given(old(grid[r + half, c + half]), x)
              && grid[r + half, c] == Given(old(grid[r + half, c]), ea)
              && grid[r, c + half] == Given(old(grid[r, c + half]), eb)
              && grid[r + half, c + step] == Given(old(grid[r + half, c + step]), ec)
              && grid[r + step, c + half] == Given(old(grid[r + step, c + half]), ed)
  {
    ghost var t := Tile(r, c, step);
    FillIfEmpty(grid, r + half, c + half, x, t);
    FillIfEmpty(grid, r + half, c, ea, t);
    assert Filled(x) ==> Filled(grid[r + half, c + half]);
    FillIfEmpty(grid, r, c + half, eb, t);
    assert Filled(x) && Filled(ea) ==> Filled(grid[r + half, c + half]) && Filled(grid[r + half, c]);
    FillIfEmpty(grid, r + half, c + step, ec, t);
    assert Filled(x) && Filled(ea) && Filled(eb) ==>
        Filled(grid[r + half, c + half]) && Filled(grid[r + half, c]) && Filled(grid[r, c + half]);
    FillIfEmpty(grid, r + step, c + half, ed, t);
    assert Filled(x) && Filled(ea) && Filled(eb) && Filled(ec) ==>
        Filled(grid[r + half, c + half]) && Filled(grid[r + half, c]) && Filled(grid[r, c + half]) &&
        Filled(grid[r + half, c + step]);
    assert Touched(grid, t);
  }

  /** The state of a level: what was filled stays and nothing outside the tile changes; and unless
      something low was drawn, the squares taken so far are filled. */
  ghost predicate LevelState(was: Picture, now: Picture, t: Tile, half: nat, end: nat, i: nat, j: nat, low: bool) {
    && Changed(was, now, t)
    && (!low ==> Lattice(now, t, 2 * half, end) && Covered(now, t, half, end, i, j))
  }

  method TakeSquare(grid: array2<real>, rng: Noise, r: nat, c: nat, step: nat, half: nat,
                    ghost was: Picture, ghost t: Tile, ghost end: nat, ghost i: nat, ghost j: nat)
    requires Square(grid) && Fits(t, grid.Length0) && step == 2 * half
    requires Offset(step, end) == t.size && i < end && j < end
    requires r == t.row + Offset(step, j) && c == t.col + Offset(step, i)
    requires LevelState(was, Show(grid), t, half, end, i, j, rng.low)
    modifies grid, rng
    ensures old(rng.low) ==> rng.low
    ensures LevelState(was, Show(grid), t, half, end, i, j + 1, rng.low)
  {
    ghost var mid := Show(grid);
    SquareInside(t, step, end, i);
    SquareInside(t, step, end, j);
    ghost var draws := FillSquare(grid, rng, r, c, step, half);
    ghost var now, u := Show(grid), Tile(r, c, step);
    assert Changed(was, now, t) by { ChangesCompose(was, mid, now, t, u); }
    if !rng.low { SquareTaken(mid, now, t, step, half, end, i, j); }
  }

  lemma CornersStay(was: Picture, now: Picture, u: Tile, r: int, c: int, side: nat)
    requires Changed(was, now, u) && CornersFilled(was, r, c, side)
    ensures CornersFilled(now, r, c, side)
  {
  }

  lemma SquareTaken(mid: Picture, now: Picture, t: Tile, step: nat, half: nat, end: nat, i: nat, j: nat)
    requires step == 2 * half && i < end && j < end
    requires Lattice(mid, t, step, end) && Covered(mid, t, half, end, i, j)
    requires var r, c := t.row + Offset(step, j), t.col + Offset(step, i);
             Changed(mid, now, Tile(r, c, step)) && MiddlesFilled(now, r, c, step, half)
    ensures Lattice(now, t, step, end) && Covered(now, t, half, end, i, j + 1)
  {
    var r, c := t.row + Offset(step, j), t.col + Offset(step, i);
    var u := Tile(r, c, step);
    LatticeKept(mid, now, u, t, step, end);
    SquareCovered(mid, now, u, t, step, half, end, i, j);
  }

  lemma SquareCovered(mid: Picture, now: Picture, u: Tile, t: Tile, step: nat, half: nat, end: nat, i: nat, j: nat)
    requires step == 2 * half && i < end && j < end && Changed(mid, now, u)
    requires Lattice(mid, t, step, end) && Covered(mid, t, half, end, i, j)
    requires MiddlesFilled(now, t.row + Offset(step, j), t.col + Offset(step, i), step, half)
    ensures Covered(now, t, half, end, i, j + 1)
  {
    LatticeSquare(mid, t, step, end, i, j);
    CornersStay(mid, now, u, t.row + Offset(step, j), t.col + Offset(step, i), step);
    OffsetHalved(half, i);
    OffsetHalved(half, j);
    CoverSquare(mid, now, u, t, half, end, i, j);
  }

  /** One level: from filled lattice points at spacing `step` to filled ones at half of it, unless
      something low was drawn. */
  method FillLevel(grid: array2<real>, rng: Noise, t: Tile, step: nat, half: nat, end: nat)
    requires Square(grid) && Fits(t, grid.Length0) && step == 2 * half && Offset(step, end) == t.size && end > 0
    requires !rng.low ==> Lattice(Show(grid), t, step, end)
    modifies grid, rng
    ensures Changed(old(Show(grid)), Show(grid), t) && (old(rng.low) ==> rng.low)
    ensures !rng.low ==> Lattice(Show(grid), t, half, 2 * end)
  {
    ghost var was := Show(grid);
    var colStart, rowStart := t.col, t.row;
    var i := 0;
    while i < end
      invariant 0 <= i <= end && colStart == t.col + Offset(step, i) && rowStart == t.row
      invariant LevelState(was, Show(grid), t, half, end, i, 0, rng.low) && (old(rng.low) ==> rng.low)
    {
      var j := 0;
      while j < end
        invariant 0 <= j <= end && rowStart == t.row + Offset(step, j)
        invariant LevelState(was, Show(grid), t, half, end, i, j, rng.low) && (old(rng.low) ==> rng.low)
      {
        TakeSquare(grid, rng, rowStart, colStart, step, half, was, t, end, i, j);
        rowStart := rowStart + step;
        j := j + 1;
      }
      if !rng.low { NextColumn(Show(grid), t, half, end, i); }
      rowStart := t.row;
      colStart := colStart + step;
      i := i + 1;
    }
    if !rng.low { LevelDone(Show(grid), t, half, end); }
  }

  /** A new corner value, drawn only for an empty corner. */
  method SeedCorner(grid: array2<real>, rng: Noise, r: nat, c: nat, ghost t: Tile)
    requires Square(grid) && InGrid(grid.Length0, r, c) && InTile(t, r, c)
    modifies grid, rng
    ensures Touched(grid, t) && (old(rng.low) ==> rng.low) && (!rng.low ==> Filled(grid[r, c]))
  {
    if grid[r, c] < EMPTY_VALUE * 0.98 {
      ghost var shift;
      var seed;
      seed, shift := rng.Displaced(0.0);
      grid[r, c] := seed;
    }
  }

  /** Four corner values, drawn only for empty corners. */
  method SeedCorners(grid: array2<real>, rng: Noise, t: Tile)
    requires Square(grid) && Fits(t, grid.Length0)
    modifies grid, rng
    ensures Changed(old(Show(grid)), Show(grid), t) && (old(rng.low) ==> rng.low)
    ensures !rng.low ==> Lattice(Show(grid), t, t.size, 1)
  {
    SeedCorner(grid, rng, t.row, t.col, t);
    SeedCorner(grid, rng, t.row + t.size, t.col, t);
    SeedCorner(grid, rng, t.row, t.col + t.size, t);
    SeedCorner(grid, rng, t.row + t.size, t.col + t.size, t);
    if !rng.low { CornersAreLattice(Show(grid), t); }
  }

  lemma HalfOfPow2(k: nat)
    requires k > 0
    ensures Pow2(k) == 2 * Pow2(k - 1) && Pow2(k) / 2 == Pow2(k - 1)
  {
  }

  /** A tile of side 2^x: whatever is drawn, no filled cell changes and no cell outside it does; and
      unless something low is drawn, it is filled completely. */
  method BuildPattern(grid: array2<real>, rng: Noise, colMin: nat, colMax: nat, rowMin: nat, rowMax: nat, ghost x: nat)
    requires Square(grid) && rowMax < grid.Length0 && colMax < grid.Length0
    requires colMax - colMin == rowMax - rowMin == Pow2(x)
    modifies grid, rng
    ensures Changed(old(Show(grid)), Show(grid), Tile(rowMin, colMin, colMax - colMin)) && (old(rng.low) ==> rng.low)
    ensures !rng.low ==> TileFilled(Show(grid), Tile(rowMin, colMin, colMax - colMin))
    ensures KeptAbove(old(Show(grid)), Show(grid), -979.02)
    ensures !rng.low ==> AllAbove(Show(grid), rowMin, rowMax, colMin, colMax, -979.02)
  {
    ghost var was := Show(grid);
    var step := colMax - colMin;
    var half := step / 2;
    var levels := Log2(colMax - colMin);
    Log2OfPow2(x);
    var t := Tile(rowMin, colMin, step);
    SeedCorners(grid, rng, t);
    var k, end := 0, 1;
    while k < levels
      invariant 0 <= k <= x && step == Pow2(x - k) && half == step / 2
      invariant end > 0 && Offset(step, end) == t.size
      invariant Changed(was, Show(grid), t) && (old(rng.low) ==> rng.low)
      invariant !rng.low ==> Lattice(Show(grid), t, step, end)
    {
      ghost var mid := Show(grid);
      HalfOfPow2(x - k);
      OffsetHalved(half, end);
      FillLevel(grid, rng, t, step, half, end);
      ChangesCompose(was, mid, Show(grid), t, t);
      step := half;
      half := half / 2;
      end := 2 * end;
      k := k + 1;
    }
    if !rng.low {
      OffsetOne(end);
      TileDone(Show(grid), t);
    }
    InNumbers(was, Show(grid), t);
  }

  /** No value as great as the bound has changed. */
  ghost predicate KeptAbove(was: Picture, now: Picture, bound: real) {
    && |now| == |was|
    && forall r, c {:trigger now[r][c]} :: InGrid(|was|, r, c) && was[r][c] >= bound ==> now[r][c] == was[r][c]
  }

  /** All values of a region are as great as the bound. */
  ghost predicate AllAbove(p: Picture, rowMin: nat, rowMax: nat, colMin: nat, colMax: nat, bound: real) {
    forall r, c {:trigger p[r][c]} :: rowMin <= r <= rowMax && colMin <= c <= colMax ==>
      InGrid(|p|, r, c) && p[r][c] >= bound
  }

  /** What is taken for filled, in numbers: what is not less than 98 hundredths of -999. */
  lemma InNumbers(was: Picture, now: Picture, t: Tile)
    requires Changed(was, now, t)
    ensures KeptAbove(was, now, -979.02)
    ensures TileFilled(now, t) ==> AllAbove(now, t.row, t.row + t.size, t.col, t.col + t.size, -979.02)
  {
    if TileFilled(now, t) {
      forall r, c | InTile(t, r, c) ensures InGrid(|now|, r, c) && now[r][c] >= -979.02 { assert FilledAt(now, r, c); }
    }
  }
}
