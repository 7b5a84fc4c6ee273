/** The tiling loop of init_cloud_pattern in climate/climate.cpp. */
module CloudTiles {
  import opened CloudGrid
  import opened CloudFill

  const CLOUD_TILE_SIZE: nat := 512

  /** The tile at column i and row j of the tiling. */
  function TileAt(i: nat, j: nat): Tile {
    Tile(j * CLOUD_TILE_SIZE, i * CLOUD_TILE_SIZE, CLOUD_TILE_SIZE)
  }

  lemma TileSizeIsPow2()
    ensures Pow2(9) == CLOUD_TILE_SIZE
  {
    assert Pow2(3) == 8 && Pow2(6) == 64 && Pow2(9) == 512;
  }

  /** Every cell filled in one picture is the same in the other. */
  ghost predicate Kept(was: Picture, now: Picture) {
    && |now| == |was|
    && forall r, c {:trigger now[r][c]} :: FilledAt(was, r, c) ==> now[r][c] == was[r][c]
  }

  /** The tiles built before the one at (i, j), with the columns of the tiling outermost. */
  predicate Earlier(n: nat, i: nat, j: nat, a: nat, b: nat) {
    a < n && b < n && (a < i || (a == i && b < j))
  }

  ghost predicate TilesFilled(p: Picture, n: nat, i: nat, j: nat) {
    forall a, b :: Earlier(n, i, j, a, b) ==> TileFilled(p, TileAt(a, b))
  }

  /** The pictures taken after each tile, and the picture now. Nothing filled in one is changed by a
      later tile. */
  ghost predicate Recorded(after: map<(nat, nat), Picture>, now: Picture, n: nat, i: nat, j: nat) {
    && (forall a: nat, b: nat :: Earlier(n, i, j, a, b) ==>
          && (a, b) in after
          && Kept(after[(a, b)], now))
    && (forall a: nat, b: nat, c: nat, d: nat :: Earlier(n, i, j, c, d) && Earlier(n, c, d, a, b) ==>
          Kept(after[(a, b)], after[(c, d)]))
  }

  lemma KeptChanged(was: Picture, mid: Picture, now: Picture, t: Tile)
    requires Kept(was, mid) && Changed(mid, now, t)
    ensures Kept(was, now)
  {
    assert forall r, c {:trigger now[r][c]} :: FilledAt(was, r, c) ==> mid[r][c] == was[r][c];
  }

  lemma RecordNext(after: map<(nat, nat), Picture>, was: Picture, now: Picture, n: nat, i: nat, j: nat)
    requires i < n && j < n && Recorded(after, was, n, i, j)
    requires Changed(was, now, TileAt(i, j))
    ensures Recorded(after[(i, j) := now], now, n, i, j + 1)
  {
    var next := after[(i, j) := now];
    forall a: nat, b: nat | Earlier(n, i, j + 1, a, b)
      ensures (a, b) in next && Kept(next[(a, b)], now)
    {
      if Earlier(n, i, j, a, b) { KeptChanged(after[(a, b)], was, now, TileAt(i, j)); }
    }
    forall a: nat, b: nat, c: nat, d: nat | Earlier(n, i, j + 1, c, d) && Earlier(n, c, d, a, b)
      ensures Kept(next[(a, b)], next[(c, d)])
    {
      assert Earlier(n, i, j, a, b);
      if Earlier(n, i, j, c, d) { assert Kept(after[(a, b)], after[(c, d)]); }
      else { assert (c, d) == (i, j); }
    }
  }

  lemma OneMoreTile(was: Picture, now: Picture, n: nat, i: nat, j: nat)
    requires TilesFilled(was, n, i, j) && Changed(was, now, TileAt(i, j)) && TileFilled(now, TileAt(i, j))
    ensures TilesFilled(now, n, i, j + 1)
  {
    forall a, b | Earlier(n, i, j + 1, a, b) ensures TileFilled(now, TileAt(a, b)) {
      if Earlier(n, i, j, a, b) {
        assert TileFilled(was, TileAt(a, b));
        forall r, c | InTile(TileAt(a, b), r, c) ensures FilledAt(now, r, c) { assert FilledAt(was, r, c); }
      }
    }
  }

  /** The tiles leave no cell out. */
  lemma TilesCover(p: Picture, n: nat)
    requires n > 0 && |p| == n * CLOUD_TILE_SIZE + 1 && TilesFilled(p, n, n, 0)
    ensures forall r, c :: InGrid(|p|, r, c) ==> FilledAt(p, r, c)
  {
    forall r, c | InGrid(|p|, r, c) ensures FilledAt(p, r, c) {
      var b := if r / CLOUD_TILE_SIZE < n then r / CLOUD_TILE_SIZE else n - 1;
      var a := if c / CLOUD_TILE_SIZE < n then c / CLOUD_TILE_SIZE else n - 1;
      assert Earlier(n, n, 0, a, b);
      assert InTile(TileAt(a, b), r, c);
    }
  }

  lemma NextTileColumn(after: map<(nat, nat), Picture>, now: Picture, n: nat, i: nat)
    requires i < n && Recorded(after, now, n, i, n)
    ensures Recorded(after, now, n, i + 1, 0)
    ensures TilesFilled(now, n, i, n) ==> TilesFilled(now, n, i + 1, 0)
  {
    assert forall a: nat, b: nat :: Earlier(n, i + 1, 0, a, b) == Earlier(n, i, n, a, b);
  }

  method ClearPattern(grid: array2<real>)
    requires Square(grid)
    modifies grid
    ensures forall r, c :: InGrid(grid.Length0, r, c) ==> grid[r, c] == EMPTY_VALUE
  {
    var n := grid.Length0;
    for i := 0 to n
      invariant forall r, c :: InGrid(n, r, c) && r < i ==> grid[r, c] == EMPTY_VALUE
    {
      for j := 0 to n
        invariant forall r, c :: InGrid(n, r, c) && (r < i || (r == i && c < j)) ==> grid[r, c] == EMPTY_VALUE
      {
        grid[i, j] := EMPTY_VALUE;
      }
    }
  }

  /** Each tile was filled when it had been built. */
  ghost predicate EachFilled(after: map<(nat, nat), Picture>, n: nat, i: nat, j: nat) {
    forall a: nat, b: nat :: Earlier(n, i, j, a, b) ==> (a, b) in after && TileFilled(after[(a, b)], TileAt(a, b))
  }

  /** The tile at column i and row j of the tiling is built. */
  method BuildTile(grid: array2<real>, rng: Noise, tiles: nat, i: nat, j: nat, ghost was: map<(nat, nat), Picture>)
    returns (ghost after: map<(nat, nat), Picture>)
    requires i < tiles && j < tiles && Square(grid) && grid.Length0 == tiles * CLOUD_TILE_SIZE + 1
    requires Recorded(was, Show(grid), tiles, i, j)
    requires !rng.low ==> TilesFilled(Show(grid), tiles, i, j) && EachFilled(was, tiles, i, j)
    modifies grid, rng
    ensures Recorded(after, Show(grid), tiles, i, j + 1)
    ensures !rng.low ==> TilesFilled(Show(grid), tiles, i, j + 1) && EachFilled(after, tiles, i, j + 1)
  {
    ghost var before := Show(grid);
    TileSizeIsPow2();
    var colMin, colMax := i * CLOUD_TILE_SIZE, (i + 1) * CLOUD_TILE_SIZE;
    var rowMin, rowMax := j * CLOUD_TILE_SIZE, (j + 1) * CLOUD_TILE_SIZE;
    BuildPattern(grid, rng, colMin, colMax, rowMin, rowMax, 9);
    RecordNext(was, before, Show(grid), tiles, i, j);
    if !rng.low { OneMoreTile(before, Show(grid), tiles, i, j); }
    after := was[(i, j) := Show(grid)];
  }

  /** For every tile count, and whatever is drawn, no cell that is filled once a tile is built, shared
      edges included, changes again; and unless something low is drawn, the whole pattern is filled. */
  method InitPattern(grid: array2<real>, rng: Noise, tiles: nat) returns (ghost after: map<(nat, nat), Picture>)
    requires tiles > 0 && Square(grid) && grid.Length0 == tiles * 512 + 1
    modifies grid, rng
    ensures Recorded(after, Show(grid), tiles, tiles, 0)
    ensures !rng.low ==>
              && (forall r, c :: InGrid(grid.Length0, r, c) ==> FilledAt(Show(grid), r, c))
              && forall a: nat, b: nat :: a < tiles && b < tiles ==>
                   (a, b) in after && TileFilled(after[(a, b)], TileAt(a, b))
  {
    ClearPattern(grid);
    after := map[];
    var i := 0;
    while i < tiles
      invariant 0 <= i <= tiles && Recorded(after, Show(grid), tiles, i, 0)
      invariant !rng.low ==> TilesFilled(Show(grid), tiles, i, 0) && EachFilled(after, tiles, i, 0)
    {
      var j := 0;
      while j < tiles
        invariant 0 <= j <= tiles && Recorded(after, Show(grid), tiles, i, j)
        invariant !rng.low ==> TilesFilled(Show(grid), tiles, i, j) && EachFilled(after, tiles, i, j)
      {
        after := BuildTile(grid, rng, tiles, i, j, after);
        j := j + 1;
      }
      NextTileColumn(after, Show(grid), tiles, i);
      i := i + 1;
    }
    if !rng.low { TilesCover(Show(grid), tiles); }
  }
}
