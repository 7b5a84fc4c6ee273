/** The square cloud pattern of climate/climate.cpp and its value at one moment. */
module CloudGrid {

  const EMPTY_VALUE: real := -999.0

  predicate InGrid(n: nat, r: int, c: int) {
    0 <= r < n && 0 <= c < n
  }

  ghost predicate Square(grid: array2<real>) {
    grid.Length0 == grid.Length1
  }

  /** A square picture, row by row. */
  type Picture = p: seq<seq<real>> | forall r :: 0 <= r < |p| ==> |p[r]| == |p|

  ghost function Show(grid: array2<real>): (p: Picture)
    requires Square(grid)
    reads grid
    ensures |p| == grid.Length0
    ensures forall r, c {:trigger p[r][c]} :: InGrid(|p|, r, c) ==> p[r][c] == grid[r, c]
  {
    seq(grid.Length0, r requires 0 <= r < grid.Length0 reads grid =>
      seq(grid.Length1, c requires 0 <= c < grid.Length1 reads grid => grid[r, c]))
  }

  ghost function Put(p: Picture, r: int, c: int, v: real): (q: Picture)
    requires InGrid(|p|, r, c)
    ensures |q| == |p|
    ensures forall i, j {:trigger q[i][j]} :: InGrid(|p|, i, j) ==> q[i][j] == if i == r && j == c then v else p[i][j]
  {
    p[r := p[r][c := v]]
  }

  lemma SamePicture(p: Picture, q: Picture)
    requires |p| == |q|
    requires forall r, c {:trigger p[r][c]} {:trigger q[r][c]} :: InGrid(|p|, r, c) ==> p[r][c] == q[r][c]
    ensures p == q
  {
    forall r | 0 <= r < |p| ensures p[r] == q[r] {
      forall c | 0 <= c < |p| ensures p[r][c] == q[r][c] { assert InGrid(|p|, r, c); }
    }
  }
}
