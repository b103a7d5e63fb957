/**
 The playing field of the snake game: a square of GridSize x GridSize integer
 cells addressed by (x, z). The vertical coordinate of the 3D scene plays no
 part in the game logic (every comparison in the game looks only at x and z),
 so a cell is just the pair (x, z). This module answers occupancy queries and
 models the rejection-sampling loop that places the food.
 */
module Grid {
  import opened Wrappers

  /** Side length of the square grid. */
  const GridSize: int := 20

  /** A grid position (x, z). */
  type Cell = (int, int)

  predicate InBounds(c: Cell) {
    0 <= c.0 < GridSize && 0 <= c.1 < GridSize
  }

  predicate AllInBounds(cells: seq<Cell>) {
    forall i :: 0 <= i < |cells| ==> InBounds(cells[i])
  }

  /** No cell occurs twice in `cells`. */
  predicate Distinct(cells: seq<Cell>) {
    forall i, j :: 0 <= i < j < |cells| ==> cells[i] != cells[j]
  }

  function Abs(n: int): nat {
    if n < 0 then -n else n
  }

  /** `a` and `b` share a side: their Manhattan distance is 1. */
  predicate Adjacent(a: Cell, b: Cell) {
    Abs(a.0 - b.0) + Abs(a.1 - b.1) == 1
  }

  /** Every segment touches the one after it. */
  predicate Connected(cells: seq<Cell>) {
    forall i :: 0 < i < |cells| ==> Adjacent(cells[i - 1], cells[i])
  }

  /** A cell the food may be placed on: inside the grid and off the snake. */
  predicate FreeCell(snake: seq<Cell>, c: Cell) {
    InBounds(c) && c !in snake
  }

  /**
   The snake's occupancy test: does any segment have the same (x, z) as `c`?
   Coordinates are integers throughout, so rounding them is the identity.
   */
  function Occupied(snake: seq<Cell>, c: Cell): (r: bool)
    ensures r <==> exists i :: 0 <= i < |snake| && snake[i] == c
  {
    if |snake| == 0 then false
    else snake[0] == c || Occupied(snake[1..], c)
  }

  /** A value `Math.random` can return: a real in [0, 1). */
  predicate UnitReal(u: real) {
    0.0 <= u < 1.0
  }

  /**
   One coordinate of a random sample, `Math.floor(u * GridSize)`, with `u`
   and the product taken as exact reals; the rounding of the double-precision
   product is not modelled.
   */
  function Sample(u: real): (r: int)
    requires UnitReal(u)
    ensures 0 <= r < GridSize
    ensures r as real <= u * GridSize as real < r as real + 1.0
  {
    (u * GridSize as real).Floor
  }

  /** The cell produced by one pair of random draws (x first, then z). */
  function Draw(d: (real, real)): (c: Cell)
    requires UnitReal(d.0) && UnitReal(d.1)
    ensures InBounds(c)
  {
    (Sample(d.0), Sample(d.1))
  }

  predicate UnitDraws(draws: seq<(real, real)>) {
    forall i :: 0 <= i < |draws| ==> UnitReal(draws[i].0) && UnitReal(draws[i].1)
  }

  /**
   The food-placement loop: draw cells until one is not occupied by the
   snake. `draws` is the finite stream of values `Math.random` returns; when
   every draw in it lands on the snake the result is `None`, meaning the
   loop has not yet finished (it never finishes when the snake fills the
   grid). `tries` is the number of draws consumed.
   */
  method SpawnFood(snake: seq<Cell>, draws: seq<(real, real)>) returns (food: Option<Cell>, tries: nat)
    requires UnitDraws(draws)
    ensures tries <= |draws|
    ensures food.Some? ==> 0 < tries && food.value == Draw(draws[tries - 1])
    ensures food.Some? ==> FreeCell(snake, food.value)
    ensures food.None? ==> tries == |draws|
    ensures forall j :: 0 <= j < |draws| && j < tries - (if food.Some? then 1 else 0) ==>
              Draw(draws[j]) in snake
  {
    tries := 0;
    while tries < |draws|
      invariant tries <= |draws|
      invariant forall j :: 0 <= j < tries ==> Draw(draws[j]) in snake
    {
      var c := Draw(draws[tries]);
      tries := tries + 1;
      if !Occupied(snake, c) {
        return Some(c), tries;
      }
    }
    return None, tries;
  }

  // ---------------------------------------------------------------------
  // How many cells the snake can cover

  /** The set of cells a sequence mentions. */
  function CellSet(cells: seq<Cell>): set<Cell> {
    set c | c in cells
  }

  /** Every cell of the grid, row by row: index i holds (i % GridSize, i / GridSize). */
  function AllCells(): seq<Cell> {
    seq(GridSize * GridSize, i requires 0 <= i < GridSize * GridSize => (i % GridSize, i / GridSize))
  }

  /** The grid has GridSize * GridSize cells, each listed once, and they are exactly the in-bounds cells. */
  lemma AllCellsEnumeratesGrid()
    ensures |AllCells()| == GridSize * GridSize
    ensures Distinct(AllCells())
    ensures forall c :: c in AllCells() <==> InBounds(c)
  {
    var all := AllCells();
    forall i, j | 0 <= i < j < |all|
      ensures all[i] != all[j]
    {
      assert i == GridSize * (i / GridSize) + i % GridSize;
      assert j == GridSize * (j / GridSize) + j % GridSize;
    }
    forall c | InBounds(c)
      ensures c in all
    {
      var k := c.0 + GridSize * c.1;
      assert k % GridSize == c.0 && k / GridSize == c.1;
      assert all[k] == c;
    }
  }

  lemma {:induction false} SubsetCardinality(a: set<Cell>, b: set<Cell>)
    requires a <= b
    ensures |a| <= |b|
    decreases a
  {
    if a != {} {
      var x :| x in a;
      SubsetCardinality(a - {x}, b - {x});
    }
  }

  /** A sequence mentions at most as many cells as it is long, and exactly that many when they are distinct. */
  lemma {:induction false} CellSetCardinality(cells: seq<Cell>)
    ensures |CellSet(cells)| <= |cells|
    ensures Distinct(cells) ==> |CellSet(cells)| == |cells|
  {
    if cells != [] {
      var rest := cells[1..];
      CellSetCardinality(rest);
      assert CellSet(cells) == {cells[0]} + CellSet(rest);
      if Distinct(cells) {
        assert Distinct(rest);
        assert cells[0] !in rest by {
          forall j | 0 <= j < |rest|
            ensures rest[j] != cells[0]
          {
            assert rest[j] == cells[j + 1];
          }
        }
      }
    }
  }

  /** The in-bounds cells, as a set: there are GridSize * GridSize of them. */
  lemma GridSetCardinality()
    ensures |CellSet(AllCells())| == GridSize * GridSize
    ensures forall c :: c in CellSet(AllCells()) <==> InBounds(c)
  {
    AllCellsEnumeratesGrid();
    CellSetCardinality(AllCells());
  }

  /**
   Pigeonhole for the food-placement loop: a snake of distinct in-bounds
   segments never has more segments than the grid has cells, and it leaves
   a free cell exactly when it is shorter than that.
   */
  lemma FreeCellExistsIff(snake: seq<Cell>)
    requires Distinct(snake) && AllInBounds(snake)
    ensures |snake| <= GridSize * GridSize
    ensures (exists c :: FreeCell(snake, c)) <==> |snake| < GridSize * GridSize
  {
    var body, grid := CellSet(snake), CellSet(AllCells());
    GridSetCardinality();
    CellSetCardinality(snake);
    assert |body| == |snake|;
    assert body <= grid;
    SubsetCardinality(body, grid);
    if c :| FreeCell(snake, c) {
      assert body <= grid - {c};
      SubsetCardinality(body, grid - {c});
    }
    if |snake| < GridSize * GridSize {
      if grid <= body {
        SubsetCardinality(grid, body);
        assert false;
      }
      var c :| c in grid && c !in body;
      assert FreeCell(snake, c);
    }
  }
}
