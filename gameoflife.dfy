/** Conway's Game of Life on a square torus: the B3/S23 rule, a synchronous
    generation step, and the batch of cell toggles collected between two
    clock ticks. */
module GameOfLife {
  import opened Helpers
  import opened Collections

  type Grid = seq<seq<bool>>

  /** A click on the cell at `row`, `col`. */
  datatype Click = Click(row: int, col: int)

  /** Every row has as many cells as there are rows (the boards the game
      creates are square, and neighbour columns wrap by the row count). */
  predicate Square(g: Grid) {
    forall i :: 0 <= i < |g| ==> |g[i]| == |g|
  }

  /** Every row has as many cells as the first one. */
  predicate Rectangular(g: Grid) {
    forall i :: 0 <= i < |g| ==> |g[i]| == |g[0]|
  }

  predicate OnGrid(g: Grid, c: Click) {
    0 <= c.row < |g| && 0 <= c.col < |g[c.row]|
  }

  /** Row and column offsets of the eight neighbours: NW, N, NE, W, E, SW, S, SE. */
  const Offsets: seq<(int, int)> := [(-1, -1), (-1, 0), (-1, 1), (0, -1), (0, 1), (1, -1), (1, 0), (1, 1)]

  /** `getNeighbors`: the eight cells around (`row`, `col`) in the order
      NW, N, NE, W, E, SW, S, SE, each index wrapped around the torus. */
  function GetNeighbors(g: Grid, row: int, col: int): (r: seq<bool>)
    requires Square(g) && 0 <= row < |g| && 0 <= col < |g|
    ensures |r| == 8
    ensures forall k :: 0 <= k < 8 ==>
      r[k] == g[(row + Offsets[k].0) % |g|][(col + Offsets[k].1) % |g|]
  {
    var n := |g|;
    ModIdentity(row, n);
    ModIdentity(col, n);
    [ g[Mod(row - 1, n)][Mod(col - 1, n)],
      g[Mod(row - 1, n)][col],
      g[Mod(row - 1, n)][Mod(col + 1, n)],
      g[row][Mod(col - 1, n)],
      g[row][Mod(col + 1, n)],
      g[Mod(row + 1, n)][Mod(col - 1, n)],
      g[Mod(row + 1, n)][col],
      g[Mod(row + 1, n)][Mod(col + 1, n)] ]
  }

  predicate Alive(cell: bool) {
    cell
  }

  /** The number of `true` entries: the length of `filter(alive => alive)`. */
  function CountLive(cells: seq<bool>): (r: nat)
    ensures r <= |cells|
  {
    |Filter(cells, Alive)|
  }

  function LiveNeighbours(g: Grid, row: int, col: int): nat
    requires Square(g) && 0 <= row < |g| && 0 <= col < |g|
  {
    CountLive(GetNeighbors(g, row, col))
  }

  /** `isAlive`: the B3/S23 rule. A live cell survives with two or three
      live neighbours; a dead cell is born with exactly three. */
  function IsAlive(g: Grid, row: int, col: int): (r: bool)
    requires Square(g) && 0 <= row < |g| && 0 <= col < |g|
    ensures g[row][col] ==> (r <==> LiveNeighbours(g, row, col) == 2 || LiveNeighbours(g, row, col) == 3)
    ensures !g[row][col] ==> (r <==> LiveNeighbours(g, row, col) == 3)
  {
    var alive := g[row][col];
    var count := CountLive(GetNeighbors(g, row, col));
    if count < 2 && alive then false
    else if count > 3 && alive then false
    else if count == 3 && !alive then true
    else alive
  }

  /** `evolve`: every cell of the next generation is the rule applied to the
      current grid, so all cells change at once. */
  function Evolve(g: Grid): (r: Grid)
    requires Square(g)
    ensures |r| == |g| && Square(r)
    ensures forall i, j :: 0 <= i < |g| && 0 <= j < |g| ==> r[i][j] == IsAlive(g, i, j)
  {
    seq(|g|, i requires 0 <= i < |g| => seq(|g|, j requires 0 <= j < |g| => IsAlive(g, i, j)))
  }

  /** An empty board stays empty: no dead cell has three live neighbours. */
  lemma EvolveEmpty(g: Grid)
    requires Square(g)
    requires forall i, j :: 0 <= i < |g| && 0 <= j < |g| ==> !g[i][j]
    ensures forall i, j :: 0 <= i < |g| && 0 <= j < |g| ==> !Evolve(g)[i][j]
  {
    forall i, j | 0 <= i < |g| && 0 <= j < |g|
      ensures !Evolve(g)[i][j]
    {
      var ns := GetNeighbors(g, i, j);
      assert forall k :: 0 <= k < 8 ==> !ns[k];
      NoneLive(ns);
    }
  }

  lemma NoneLive(cells: seq<bool>)
    requires forall k :: 0 <= k < |cells| ==> !cells[k]
    ensures CountLive(cells) == 0
  {
    FilterDropsAll(cells, Alive);
  }

  /** The grid with one cell negated. */
  function Toggle(g: Grid, c: Click): (r: Grid)
    requires OnGrid(g, c)
    ensures |r| == |g| && forall i :: 0 <= i < |g| ==> |r[i]| == |g[i]|
    ensures forall i, j :: 0 <= i < |g| && 0 <= j < |g[i]| ==>
      r[i][j] == if i == c.row && j == c.col then !g[i][j] else g[i][j]
  {
    g[c.row := g[c.row][c.col := !g[c.row][c.col]]]
  }

  /** The batch edit of `handleInput` as a fold: each click in turn negates
      its cell. */
  function Edited(g: Grid, clicks: seq<Click>): (r: Grid)
    requires forall k :: 0 <= k < |clicks| ==> OnGrid(g, clicks[k])
    ensures |r| == |g| && forall i :: 0 <= i < |g| ==> |r[i]| == |g[i]|
  {
    if clicks == [] then g
    else
      var last := clicks[|clicks| - 1];
      var before := Edited(g, clicks[..|clicks| - 1]);
      assert OnGrid(g, last);
      Toggle(before, last)
  }

  /** How many clicks name the cell (`row`, `col`). */
  function TimesNamed(clicks: seq<Click>, row: int, col: int): nat {
    if clicks == [] then 0
    else
      var named := if clicks[|clicks| - 1] == Click(row, col) then 1 else 0;
      TimesNamed(clicks[..|clicks| - 1], row, col) + named
  }

  /** After the batch a cell is negated exactly when it was clicked an odd
      number of times; cells never clicked keep their value. */
  lemma {:induction false} EditedParity(g: Grid, clicks: seq<Click>, i: int, j: int)
    requires forall k :: 0 <= k < |clicks| ==> OnGrid(g, clicks[k])
    requires 0 <= i < |g| && 0 <= j < |g[i]|
    ensures Edited(g, clicks)[i][j] == (g[i][j] != (TimesNamed(clicks, i, j) % 2 == 1))
  {
    if clicks != [] {
      EditedParity(g, clicks[..|clicks| - 1], i, j);
    }
  }

  /** The batch edit as the game runs it: copy the grid, negate the clicked
      cells of the copy in place one click at a time, and hand the copy back.
      The grid passed in is a value and is left as it was. */
  method HandleInput(grid: Grid, clicks: seq<Click>) returns (r: Grid)
    requires Rectangular(grid)
    requires forall k :: 0 <= k < |clicks| ==> OnGrid(grid, clicks[k])
    ensures r == Edited(grid, clicks)
  {
    var rows := |grid|;
    var cols := if rows == 0 then 0 else |grid[0]|;
    var a := new bool[rows, cols];
    var i := 0;
    while i < rows
      invariant 0 <= i <= rows
      invariant forall p, q :: 0 <= p < i && 0 <= q < cols ==> a[p, q] == grid[p][q]
    {
      var j := 0;
      while j < cols
        invariant 0 <= j <= cols
        invariant forall p, q :: 0 <= p < i && 0 <= q < cols ==> a[p, q] == grid[p][q]
        invariant forall q :: 0 <= q < j ==> a[i, q] == grid[i][q]
      {
        a[i, j] := grid[i][j];
        j := j + 1;
      }
      i := i + 1;
    }

    var k := 0;
    while k < |clicks|
      invariant 0 <= k <= |clicks|
      invariant forall p, q :: 0 <= p < rows && 0 <= q < cols ==> a[p, q] == Edited(grid, clicks[..k])[p][q]
    {
      var c := clicks[k];
      assert clicks[..k + 1][..k] == clicks[..k];
      a[c.row, c.col] := !a[c.row, c.col];
      k := k + 1;
    }
    assert clicks[..k] == clicks;

    var e := Edited(grid, clicks);
    r := [];
    i := 0;
    while i < rows
      invariant 0 <= i <= rows
      invariant r == e[..i]
    {
      var line := [];
      var j := 0;
      while j < cols
        invariant 0 <= j <= cols
        invariant line == e[i][..j]
      {
        line := line + [a[i, j]];
        j := j + 1;
      }
      assert line == e[i];
      r := r + [line];
      i := i + 1;
    }
  }

  /** One pass of the game's pipeline: a generation, then the clicks
      collected since the last tick. The board stays square and of the same
      size, and a cell ends up as the rule computed it, negated when clicked
      an odd number of times. */
  function Pass(g: Grid, clicks: seq<Click>): (r: Grid)
    requires Square(g)
    requires forall k :: 0 <= k < |clicks| ==> 0 <= clicks[k].row < |g| && 0 <= clicks[k].col < |g|
    ensures |r| == |g| && Square(r)
    ensures forall i, j :: 0 <= i < |g| && 0 <= j < |g| ==>
      r[i][j] == (IsAlive(g, i, j) != (TimesNamed(clicks, i, j) % 2 == 1))
  {
    var next := Evolve(g);
    assert forall k :: 0 <= k < |clicks| ==> OnGrid(next, clicks[k]);
    var r := Edited(next, clicks);
    assert forall i, j :: 0 <= i < |g| && 0 <= j < |g| ==>
      r[i][j] == (IsAlive(g, i, j) != (TimesNamed(clicks, i, j) % 2 == 1)) by {
      forall i, j | 0 <= i < |g| && 0 <= j < |g|
        ensures r[i][j] == (IsAlive(g, i, j) != (TimesNamed(clicks, i, j) % 2 == 1))
      {
        EditedParity(next, clicks, i, j);
      }
    }
    r
  }

  /** The neighbour example of the game's tests. */
  lemma NeighboursExample()
    ensures GetNeighbors([[true, false, true], [false, false, true], [false, true, false]], 1, 1)
      == [true, false, true, false, true, false, true, false]
  {
  }

  /** A live count grows by one exactly when the appended cell is alive. */
  lemma CountLiveSnoc(cells: seq<bool>, c: bool)
    ensures CountLive(cells + [c]) == CountLive(cells) + (if c then 1 else 0)
  {
    assert (cells + [c])[..|cells|] == cells;
  }

  /** Underpopulation, from the game's tests: a live cell with one live
      neighbour dies. */
  lemma UnderpopulationExample()
    ensures !IsAlive([[false, false, false], [false, true, false], [false, true, false]], 1, 1)
  {
    var c: seq<bool> := [];
    CountLiveSnoc(c, false); c := c + [false];
    CountLiveSnoc(c, false); c := c + [false];
    CountLiveSnoc(c, false); c := c + [false];
    CountLiveSnoc(c, false); c := c + [false];
    CountLiveSnoc(c, false); c := c + [false];
    CountLiveSnoc(c, false); c := c + [false];
    CountLiveSnoc(c, true); c := c + [true];
    CountLiveSnoc(c, false); c := c + [false];
    assert GetNeighbors([[false, false, false], [false, true, false], [false, true, false]], 1, 1) == c;
  }

  /** Overpopulation, from the game's tests: a live cell with four live
      neighbours dies. */
  lemma OverpopulationExample()
    ensures !IsAlive([[true, false, false], [true, true, false], [true, true, false]], 1, 1)
  {
    var c: seq<bool> := [];
    CountLiveSnoc(c, true); c := c + [true];
    CountLiveSnoc(c, false); c := c + [false];
    CountLiveSnoc(c, false); c := c + [false];
    CountLiveSnoc(c, true); c := c + [true];
    CountLiveSnoc(c, false); c := c + [false];
    CountLiveSnoc(c, true); c := c + [true];
    CountLiveSnoc(c, true); c := c + [true];
    CountLiveSnoc(c, false); c := c + [false];
    assert GetNeighbors([[true, false, false], [true, true, false], [true, true, false]], 1, 1) == c;
  }

  /** Birth, from the game's tests: a dead cell with three live neighbours
      comes alive. */
  lemma BirthExample()
    ensures IsAlive([[true, false, false], [true, false, false], [true, false, false]], 1, 1)
  {
    var c: seq<bool> := [];
    CountLiveSnoc(c, true); c := c + [true];
    CountLiveSnoc(c, false); c := c + [false];
    CountLiveSnoc(c, false); c := c + [false];
    CountLiveSnoc(c, true); c := c + [true];
    CountLiveSnoc(c, false); c := c + [false];
    CountLiveSnoc(c, true); c := c + [true];
    CountLiveSnoc(c, false); c := c + [false];
    CountLiveSnoc(c, false); c := c + [false];
    assert GetNeighbors([[true, false, false], [true, false, false], [true, false, false]], 1, 1) == c;
  }
}
