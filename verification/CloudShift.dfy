/** Moving the cloud pattern with the wind: the four in-place sweeps of update_cloud_pattern
    in climate/climate.cpp. */
module CloudShift {
  import opened CloudGrid

  /** What a grid holds once it has been moved by (dr, dc) all at once: every cell has the value
      its source cell had, or is empty when there is no such cell. */
  ghost predicate Translated(was: Picture, now: Picture, dr: int, dc: int) {
    var n := |was|;
    && |now| == n
    && forall r, c :: InGrid(n, r, c) ==>
         now[r][c] == if InGrid(n, r - dr, c - dc) then was[r - dr][c - dc] else EMPTY_VALUE
  }

  /** Does a sweep come to cell (r, c) before it comes to (row, col)? */
  predicate Passed(rowsUp: bool, colsUp: bool, row: int, col: int, r: int, c: int) {
    || (if rowsUp then r < row else row < r)
    || (r == row && (if colsUp then c < col else col < c))
  }

  /** Cell (r, c) when a sweep has come to (row, col): if not yet passed it is as it was; if
      passed it holds what was moved there, or is empty when the cell it should come from does
      not exist or has not been passed either. */
  ghost function Settled(was: Picture, dr: int, dc: int, rowsUp: bool, colsUp: bool,
                         row: int, col: int, r: int, c: int): real
    requires InGrid(|was|, r, c)
  {
    if !Passed(rowsUp, colsUp, row, col, r, c) then was[r][c]
    else if InGrid(|was|, r - dr, c - dc) && Passed(rowsUp, colsUp, row, col, r - dr, c - dc) then was[r - dr][c - dc]
    else EMPTY_VALUE
  }

  ghost predicate Swept(was: Picture, now: Picture, dr: int, dc: int, rowsUp: bool, colsUp: bool, row: int, col: int) {
    && |now| == |was|
    && forall r, c {:trigger Settled(was, dr, dc, rowsUp, colsUp, row, col, r, c)} :: InGrid(|was|, r, c) ==>
         now[r][c] == Settled(was, dr, dc, rowsUp, colsUp, row, col, r, c)
  }

  /** The sweep runs towards the side the pattern leaves by, so a target is always passed before its source. */
  predicate Against(dr: int, dc: int, rowsUp: bool, colsUp: bool) {
    && (dr != 0 || dc != 0)
    && (if rowsUp then dr <= 0 else dr >= 0)
    && (if colsUp then dc <= 0 else dc >= 0)
  }

  /** The body of every sweep, on one cell. */
  ghost function Moved(p: Picture, dr: int, dc: int, row: int, col: int): (q: Picture)
    requires InGrid(|p|, row, col)
    ensures |q| == |p|
  {
    var n := |p|;
    var carried := if InGrid(n, row + dr, col + dc) then Put(p, row + dr, col + dc, p[row][col]) else p;
    Put(carried, row, col, EMPTY_VALUE)
  }

  lemma MovedCell(was: Picture, now: Picture, dr: int, dc: int, rowsUp: bool, colsUp: bool, row: int, col: int,
                  r: int, c: int)
    requires Against(dr, dc, rowsUp, colsUp) && InGrid(|was|, row, col) && InGrid(|was|, r, c)
    requires Swept(was, now, dr, dc, rowsUp, colsUp, row, col)
    ensures var next := if colsUp then col + 1 else col - 1;
            Moved(now, dr, dc, row, col)[r][c] == Settled(was, dr, dc, rowsUp, colsUp, row, next, r, c)
  {
    assert now[r][c] == Settled(was, dr, dc, rowsUp, colsUp, row, col, r, c);
    if r == row && c == col {
    } else if r == row + dr && c == col + dc {
      assert Settled(was, dr, dc, rowsUp, colsUp, row, col, row, col) == was[row][col];
    } else {
      assert Moved(now, dr, dc, row, col)[r][c] == now[r][c];
    }
  }

  /** One cell moved: the sweep has come to the next column. */
  lemma MovedKeepsSwept(was: Picture, now: Picture, dr: int, dc: int, rowsUp: bool, colsUp: bool, row: int, col: int)
    requires Against(dr, dc, rowsUp, colsUp) && InGrid(|was|, row, col)
    requires Swept(was, now, dr, dc, rowsUp, colsUp, row, col)
    ensures Swept(was, Moved(now, dr, dc, row, col), dr, dc, rowsUp, colsUp, row, if colsUp then col + 1 else col - 1)
  {
    forall r, c | InGrid(|was|, r, c)
      ensures Moved(now, dr, dc, row, col)[r][c] ==
              Settled(was, dr, dc, rowsUp, colsUp, row, if colsUp then col + 1 else col - 1, r, c)
    {
      MovedCell(was, now, dr, dc, rowsUp, colsUp, row, col, r, c);
    }
  }

  /** A row finished: the sweep has come to the start of the next row. */
  lemma NextRow(was: Picture, now: Picture, dr: int, dc: int, rowsUp: bool, colsUp: bool, row: int)
    requires 0 <= row < |was|
    requires Swept(was, now, dr, dc, rowsUp, colsUp, row, if colsUp then |was| else -1)
    ensures Swept(was, now, dr, dc, rowsUp, colsUp,
                  if rowsUp then row + 1 else row - 1, if colsUp then 0 else |was| - 1)
  {
    forall r, c | InGrid(|was|, r, c)
      ensures now[r][c] == Settled(was, dr, dc, rowsUp, colsUp,
                                   if rowsUp then row + 1 else row - 1, if colsUp then 0 else |was| - 1, r, c)
    {
      assert now[r][c] == Settled(was, dr, dc, rowsUp, colsUp, row, if colsUp then |was| else -1, r, c);
    }
  }

  /** Before the first cell nothing has moved. */
  lemma SweepStart(was: Picture, dr: int, dc: int, rowsUp: bool, colsUp: bool)
    ensures Swept(was, was, dr, dc, rowsUp, colsUp, if rowsUp then 0 else |was| - 1, if colsUp then 0 else |was| - 1)
  {
  }

  /** After the last row the pattern has been translated. */
  lemma SweepEnd(was: Picture, now: Picture, dr: int, dc: int, rowsUp: bool, colsUp: bool)
    requires Swept(was, now, dr, dc, rowsUp, colsUp, if rowsUp then |was| else -1, if colsUp then 0 else |was| - 1)
    ensures Translated(was, now, dr, dc)
  {
    var row, col := if rowsUp then |was| else -1, if colsUp then 0 else |was| - 1;
    forall r, c | InGrid(|was|, r, c)
      ensures now[r][c] == if InGrid(|was|, r - dr, c - dc) then was[r - dr][c - dc] else EMPTY_VALUE
    {
      assert now[r][c] == Settled(was, dr, dc, rowsUp, colsUp, row, col, r, c);
    }
  }

  /** The cell leaves the grid. */
  method Blank(grid: array2<real>, dr: int, dc: int, row: int, col: int)
    requires Square(grid) && InGrid(grid.Length0, row, col) && !InGrid(grid.Length0, row + dr, col + dc)
    modifies grid
    ensures Show(grid) == Moved(old(Show(grid)), dr, dc, row, col)
  {
    grid[row, col] := EMPTY_VALUE;
    SamePicture(Show(grid), Moved(old(Show(grid)), dr, dc, row, col));
  }

  /** The cell moves to its target. */
  method Carry(grid: array2<real>, dr: int, dc: int, row: int, col: int)
    requires Square(grid) && InGrid(grid.Length0, row, col) && InGrid(grid.Length0, row + dr, col + dc)
    modifies grid
    ensures Show(grid) == Moved(old(Show(grid)), dr, dc, row, col)
  {
    grid[row + dr, col + dc] := grid[row, col];
    grid[row, col] := EMPTY_VALUE;
    SamePicture(Show(grid), Moved(old(Show(grid)), dr, dc, row, col));
  }

  method ShiftNorthEast(grid: array2<real>, dr: int, dc: int)
    requires Square(grid) && Against(dr, dc, false, false)
    modifies grid
    ensures Translated(old(Show(grid)), Show(grid), dr, dc)
  {
    var n := grid.Length0;
    ghost var was := Show(grid);
    SweepStart(was, dr, dc, false, false);
    var row := n - 1;
    while row >= 0
      invariant -1 <= row < n
      invariant Swept(was, Show(grid), dr, dc, false, false, row, n - 1)
    {
      var col := n - 1;
      while col >= 0
        invariant -1 <= col < n
        invariant Swept(was, Show(grid), dr, dc, false, false, row, col)
      {
        ghost var now := Show(grid);
        if row + dr > n - 1 {
          Blank(grid, dr, dc, row, col);
        } else if col + dc > n - 1 {
          Blank(grid, dr, dc, row, col);
        } else {
          Carry(grid, dr, dc, row, col);
        }
        MovedKeepsSwept(was, now, dr, dc, false, false, row, col);
        col := col - 1;
      }
      NextRow(was, Show(grid), dr, dc, false, false, row);
      row := row - 1;
    }
    SweepEnd(was, Show(grid), dr, dc, false, false);
  }

  method ShiftNorthWest(grid: array2<real>, dr: int, dc: int)
    requires Square(grid) && Against(dr, dc, false, true)
    modifies grid
    ensures Translated(old(Show(grid)), Show(grid), dr, dc)
  {
    var n := grid.Length0;
    ghost var was := Show(grid);
    SweepStart(was, dr, dc, false, true);
    var row := n - 1;
    while row >= 0
      invariant -1 <= row < n
      invariant Swept(was, Show(grid), dr, dc, false, true, row, 0)
    {
      var col := 0;
      while col < n
        invariant 0 <= col <= n
        invariant Swept(was, Show(grid), dr, dc, false, true, row, col)
      {
        ghost var now := Show(grid);
        if row + dr > n - 1 {
          Blank(grid, dr, dc, row, col);
        } else if col + dc < 0 {
          Blank(grid, dr, dc, row, col);
        } else {
          Carry(grid, dr, dc, row, col);
        }
        MovedKeepsSwept(was, now, dr, dc, false, true, row, col);
        col := col + 1;
      }
      NextRow(was, Show(grid), dr, dc, false, true, row);
      row := row - 1;
    }
    SweepEnd(was, Show(grid), dr, dc, false, true);
  }

  method ShiftSouthEast(grid: array2<real>, dr: int, dc: int)
    requires Square(grid) && Against(dr, dc, true, false)
    modifies grid
    ensures Translated(old(Show(grid)), Show(grid), dr, dc)
  {
    var n := grid.Length0;
    ghost var was := Show(grid);
    SweepStart(was, dr, dc, true, false);
    var row := 0;
    while row < n
      invariant 0 <= row <= n
      invariant Swept(was, Show(grid), dr, dc, true, false, row, n - 1)
    {
      var col := n - 1;
      while col >= 0
        invariant -1 <= col < n
        invariant Swept(was, Show(grid), dr, dc, true, false, row, col)
      {
        ghost var now := Show(grid);
        if row + dr < 0 {
          Blank(grid, dr, dc, row, col);
        } else if col + dc > n - 1 {
          Blank(grid, dr, dc, row, col);
        } else {
          Carry(grid, dr, dc, row, col);
        }
        MovedKeepsSwept(was, now, dr, dc, true, false, row, col);
        col := col - 1;
      }
      NextRow(was, Show(grid), dr, dc, true, false, row);
      row := row + 1;
    }
    SweepEnd(was, Show(grid), dr, dc, true, false);
  }

  method ShiftSouthWest(grid: array2<real>, dr: int, dc: int)
    requires Square(grid) && Against(dr, dc, true, true)
    modifies grid
    ensures Translated(old(Show(grid)), Show(grid), dr, dc)
  {
    var n := grid.Length0;
    ghost var was := Show(grid);
    SweepStart(was, dr, dc, true, true);
    var row := 0;
    while row < n
      invariant 0 <= row <= n
      invariant Swept(was, Show(grid), dr, dc, true, true, row, 0)
    {
      var col := 0;
      while col < n
        invariant 0 <= col <= n
        invariant Swept(was, Show(grid), dr, dc, true, true, row, col)
      {
        ghost var now := Show(grid);
        if row + dr < 0 {
          Blank(grid, dr, dc, row, col);
        } else if col + dc < 0 {
          Blank(grid, dr, dc, row, col);
        } else {
          Carry(grid, dr, dc, row, col);
        }
        MovedKeepsSwept(was, now, dr, dc, true, true, row, col);
        col := col + 1;
      }
      NextRow(was, Show(grid), dr, dc, true, true, row);
      row := row + 1;
    }
    SweepEnd(was, Show(grid), dr, dc, true, true);
  }

  /** The sweep is chosen by the signs of the shift; a zero shift leaves the pattern alone. */
  method ShiftPattern(grid: array2<real>, dr: int, dc: int)
    requires Square(grid)
    modifies grid
    ensures Translated(old(Show(grid)), Show(grid), dr, dc)
  {
    if dr != 0 || dc != 0 {
      if dr >= 0 && dc >= 0 {
        ShiftNorthEast(grid, dr, dc);
      } else if dr >= 0 && dc <= 0 {
        ShiftNorthWest(grid, dr, dc);
      } else if dr <= 0 && dc >= 0 {
        ShiftSouthEast(grid, dr, dc);
      } else {
        ShiftSouthWest(grid, dr, dc);
      }
    }
  }
}
