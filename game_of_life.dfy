/** Conway's Game of Life on a fixed grid of `height` rows of `width` cells.
    The grid does not wrap: a cell beyond an edge counts as dead. The next
    generation is computed into a fresh grid from the current one alone and
    then replaces it. */
module GameOfLife {

  /** g has h rows of w cells each; g[y][x] is the cell in column x of row y. */
  ghost predicate IsGrid(g: seq<seq<bool>>, w: nat, h: nat) {
    |g| == h && forall y :: 0 <= y < h ==> |g[y]| == w
  }

  /** A grid of h rows of w dead cells. */
  function DeadGrid(w: nat, h: nat): (g: seq<seq<bool>>)
    ensures IsGrid(g, w, h)
    ensures forall y, x :: 0 <= y < h && 0 <= x < w ==> !g[y][x]
  {
    seq(h, _ => seq(w, _ => false))
  }

  /** 1 when (x, y) lies inside the grid and its cell is alive, otherwise 0. */
  function LiveAt(g: seq<seq<bool>>, w: nat, h: nat, x: int, y: int): (r: nat)
    requires IsGrid(g, w, h)
    ensures r <= 1
  {
    if 0 <= x < w && 0 <= y < h && g[y][x] then 1 else 0
  }

  /** The number of live cells among the eight that surround (x, y). */
  function Neighbours(g: seq<seq<bool>>, w: nat, h: nat, x: int, y: int): (n: nat)
    requires IsGrid(g, w, h)
    ensures n <= 8
  {
    LiveAt(g, w, h, x - 1, y - 1) + LiveAt(g, w, h, x, y - 1) + LiveAt(g, w, h, x + 1, y - 1)
    + LiveAt(g, w, h, x - 1, y) + LiveAt(g, w, h, x + 1, y)
    + LiveAt(g, w, h, x - 1, y + 1) + LiveAt(g, w, h, x, y + 1) + LiveAt(g, w, h, x + 1, y + 1)
  }

  /** The fate of a cell, by the four rules of the game: a live cell dies
      with fewer than two live neighbours, lives on with two or three and dies
      with more than three; a dead cell comes alive with exactly three. */
  function Rule(alive: bool, n: nat): (next: bool)
    ensures alive && n < 2 ==> !next
    ensures alive && (n == 2 || n == 3) ==> next
    ensures alive && n > 3 ==> !next
    ensures !alive ==> (next <==> n == 3)
  {
    if alive then n == 2 || n == 3 else n == 3
  }

  /** The state of cell (x, y) in the generation after g. */
  function NextCell(g: seq<seq<bool>>, w: nat, h: nat, x: nat, y: nat): bool
    requires IsGrid(g, w, h) && x < w && y < h
  {
    Rule(g[y][x], Neighbours(g, w, h, x, y))
  }

  /** The next generation: every cell follows Rule, applied to the cell and
      its neighbours in g. */
  function Step(g: seq<seq<bool>>, w: nat, h: nat): (r: seq<seq<bool>>)
    requires IsGrid(g, w, h)
    ensures IsGrid(r, w, h)
  {
    seq(h, y requires 0 <= y < h => seq(w, x requires 0 <= x < w => NextCell(g, w, h, x, y)))
  }

  /** What the scan of the 3 x 3 window around (x, y) adds for offset (dx, dy):
      nothing for the centre, the liveness of the cell there otherwise. */
  function Counted(g: seq<seq<bool>>, w: nat, h: nat, x: int, y: int, dx: int, dy: int): nat
    requires IsGrid(g, w, h)
  {
    if dx == 0 && dy == 0 then 0 else LiveAt(g, w, h, x + dx, y + dy)
  }

  /** The contribution of the first k offsets dx = -1, 0, 1 of window row dy. */
  function RowScan(g: seq<seq<bool>>, w: nat, h: nat, x: int, y: int, dy: int, k: nat): nat
    requires IsGrid(g, w, h) && k <= 3
  {
    if k == 0 then 0 else RowScan(g, w, h, x, y, dy, k - 1) + Counted(g, w, h, x, y, k - 2, dy)
  }

  /** The contribution of the first m window rows dy = -1, 0, 1. */
  function WindowScan(g: seq<seq<bool>>, w: nat, h: nat, x: int, y: int, m: nat): nat
    requires IsGrid(g, w, h) && m <= 3
  {
    if m == 0 then 0 else WindowScan(g, w, h, x, y, m - 1) + RowScan(g, w, h, x, y, m - 2, 3)
  }

  /** The whole scan of the window counts the eight neighbours and not the centre. */
  lemma WindowScanIsNeighbours(g: seq<seq<bool>>, w: nat, h: nat, x: int, y: int)
    requires IsGrid(g, w, h)
    ensures WindowScan(g, w, h, x, y, 3) == Neighbours(g, w, h, x, y)
  {
    forall dy | -1 <= dy <= 1
      ensures RowScan(g, w, h, x, y, dy, 3)
        == Counted(g, w, h, x, y, -1, dy) + Counted(g, w, h, x, y, 0, dy) + Counted(g, w, h, x, y, 1, dy)
    {
      assert RowScan(g, w, h, x, y, dy, 1) == Counted(g, w, h, x, y, -1, dy);
    }
    assert WindowScan(g, w, h, x, y, 1) == RowScan(g, w, h, x, y, -1, 3);
  }

  /** The compact form of the rule: a cell is alive in the next generation
      exactly when it has three live neighbours, or is alive and has two. */
  lemma StepCell(g: seq<seq<bool>>, w: nat, h: nat, x: nat, y: nat)
    requires IsGrid(g, w, h) && x < w && y < h
    ensures Step(g, w, h)[y][x]
      <==> Neighbours(g, w, h, x, y) == 3 || (g[y][x] && Neighbours(g, w, h, x, y) == 2)
  {
  }

  /** Only the eight surrounding cells that lie inside the grid decide the
      neighbour count. */
  lemma NeighboursLocal(g1: seq<seq<bool>>, g2: seq<seq<bool>>, w: nat, h: nat, x: int, y: int)
    requires IsGrid(g1, w, h) && IsGrid(g2, w, h)
    requires forall j, i | 0 <= j < h && 0 <= i < w && Near(i, j, x, y) :: g1[j][i] == g2[j][i]
    ensures Neighbours(g1, w, h, x, y) == Neighbours(g2, w, h, x, y)
  {
    forall i, j | Near(i, j, x, y) ensures LiveAt(g1, w, h, i, j) == LiveAt(g2, w, h, i, j) {
    }
  }

  /** (i, j) is one of the eight cells around (x, y). */
  predicate Near(i: int, j: int, x: int, y: int) {
    -1 <= i - x <= 1 && -1 <= j - y <= 1 && !(i == x && j == y)
  }

  /** No wrap-around: a cell in the leftmost column does not see the rightmost
      column of a grid at least three cells wide, whatever that column holds. */
  lemma EdgeNoWrap(g: seq<seq<bool>>, w: nat, h: nat, y: int, j: nat, v: bool)
    requires IsGrid(g, w, h) && 3 <= w && j < h
    ensures IsGrid(g[j := g[j][w - 1 := v]], w, h)
    ensures Neighbours(g[j := g[j][w - 1 := v]], w, h, 0, y) == Neighbours(g, w, h, 0, y)
  {
    var g2 := g[j := g[j][w - 1 := v]];
    assert IsGrid(g2, w, h);
    forall r, i | 0 <= r < h && 0 <= i < w && Near(i, r, 0, y) ensures g2[r][i] == g[r][i] {
    }
    NeighboursLocal(g2, g, w, h, 0, y);
  }

  /** The next state of a cell depends only on the 3 x 3 block around it in the
      current generation. */
  lemma StepLocal(g1: seq<seq<bool>>, g2: seq<seq<bool>>, w: nat, h: nat, x: nat, y: nat)
    requires IsGrid(g1, w, h) && IsGrid(g2, w, h) && x < w && y < h
    requires g1[y][x] == g2[y][x]
    requires forall j, i | 0 <= j < h && 0 <= i < w && Near(i, j, x, y) :: g1[j][i] == g2[j][i]
    ensures Step(g1, w, h)[y][x] == Step(g2, w, h)[y][x]
  {
    NeighboursLocal(g1, g2, w, h, x, y);
  }

  /** A grid without live cells stays without live cells. */
  lemma DeadStaysDead(w: nat, h: nat)
    ensures Step(DeadGrid(w, h), w, h) == DeadGrid(w, h)
  {
    var d := DeadGrid(w, h);
    var s := Step(d, w, h);
    forall y | 0 <= y < h ensures s[y] == d[y] {
      forall x | 0 <= x < w ensures s[y][x] == d[y][x] {
        assert Neighbours(d, w, h, x, y) == 0;
      }
    }
  }

  /** The game state: the grid and its fixed dimensions. */
  class GameOfLife {
    var grid: seq<seq<bool>>
    const width: nat
    const height: nat

    /** The grid has the dimensions the game was created with. */
    ghost predicate Valid()
      reads this
    {
      IsGrid(grid, width, height)
    }

    /** A game of height rows of width cells, all dead. */
    constructor (width: nat, height: nat)
      ensures Valid() && this.width == width && this.height == height
      ensures grid == DeadGrid(width, height)
    {
      this.width := width;
      this.height := height;
      grid := DeadGrid(width, height);
    }

    /** Makes cell (x, y) alive when it lies inside the grid; coordinates outside
        the grid change nothing. */
    method SetAlive(x: nat, y: nat)
      requires Valid()
      modifies this`grid
      ensures Valid()
      ensures forall j, i | 0 <= j < height && 0 <= i < width ::
        grid[j][i] == (old(grid)[j][i] || (i == x && j == y))
      ensures !(x < width && y < height) ==> grid == old(grid)
    {
      if x < width && y < height {
        grid := grid[y := grid[y][x := true]];
      }
    }

    /** Scans the 3 x 3 window around (x, y), skipping the centre and every
        position that falls outside the grid, and counts the live cells. */
    method CountLiveNeighbors(x: nat, y: nat) returns (liveNeighbors: nat)
      requires Valid()
      ensures liveNeighbors == Neighbours(grid, width, height, x, y)
    {
      liveNeighbors := 0;
      for dy := -1 to 2
        invariant liveNeighbors == WindowScan(grid, width, height, x, y, dy + 1)
      {
        for dx := -1 to 2
          invariant liveNeighbors
            == WindowScan(grid, width, height, x, y, dy + 1) + RowScan(grid, width, height, x, y, dy, dx + 1)
        {
          if dx == 0 && dy == 0 {
            continue;
          }
          // A negative coordinate is where the unsigned subtraction has no result.
          var nx, ny := x + dx, y + dy;
          if 0 <= nx && 0 <= ny {
            if nx < width && ny < height {
              if grid[ny][nx] {
                liveNeighbors := liveNeighbors + 1;
              }
            }
          }
        }
      }
      WindowScanIsNeighbours(grid, width, height, x, y);
    }

    /** Advances the game by one generation. Every new cell is computed from the
        current grid into a separate grid, which then replaces it. */
    method NextGeneration()
      requires Valid()
      modifies this`grid
      ensures Valid()
      ensures grid == Step(old(grid), width, height)
    {
      var nextGrid := DeadGrid(width, height);
      for y := 0 to height
        invariant grid == old(grid)
        invariant IsGrid(nextGrid, width, height)
        invariant forall j, i | 0 <= j < y && 0 <= i < width ::
          nextGrid[j][i] == NextCell(grid, width, height, i, j)
        invariant forall j, i | y <= j < height && 0 <= i < width :: !nextGrid[j][i]
      {
        for x := 0 to width
          invariant grid == old(grid)
          invariant IsGrid(nextGrid, width, height)
          invariant forall j, i | 0 <= j < y && 0 <= i < width ::
            nextGrid[j][i] == NextCell(grid, width, height, i, j)
          invariant forall i | 0 <= i < x ::
            nextGrid[y][i] == NextCell(grid, width, height, i, y)
          invariant forall j, i | y <= j < height && 0 <= i < width && (y < j || x <= i) :: !nextGrid[j][i]
        {
          var liveNeighbors := CountLiveNeighbors(x, y);
          var currentCellIsAlive := grid[y][x];
          if currentCellIsAlive {
            if liveNeighbors == 2 || liveNeighbors == 3 {
              nextGrid := nextGrid[y := nextGrid[y][x := true]];
            }
          } else {
            if liveNeighbors == 3 {
              nextGrid := nextGrid[y := nextGrid[y][x := true]];
            }
          }
        }
      }
      ghost var s := Step(grid, width, height);
      assert forall j | 0 <= j < height :: nextGrid[j] == s[j];
      grid := nextGrid;
    }
  }
}
