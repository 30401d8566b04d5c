/**
 * The Sudoku solver of p2/solve.c: validateAllWithSpaces and the in-place
 * fill-and-backtrack search.  The search lists the empty cells of the grid
 * in row-major order, then tries values 1..size in the current empty cell,
 * moving on after every placement the validators accept and stepping back
 * one cell when size itself is rejected.
 *
 * The source rewinds its loop counter and has no evident termination
 * measure, so Solve takes a fuel bound on the number of turns of the search
 * loop and reports OutOfFuel when the bound is reached.
 */
module Solve {
  import opened Validate

  /** validateAllWithSpaces: the conjunction of the three WithSpaces validators. */
  ghost predicate AllValid(grid: array2<int>, n: nat, size: int)
    requires Square(grid, size) && BlockShape(n, size)
    reads grid
  {
    RowsOk(grid, size) && ColsOk(grid, size) && SquaresOk(grid, n, size)
  }

  method ValidateAllWithSpaces(n: int, size: int, grid: array2<int>) returns (r: bool)
    requires Square(grid, size) && BlockShape(n, size)
    ensures r == AllValid(grid, n, size)
  {
    r := ValidateRowsWithSpaces(size, grid);
    if r {
      r := ValidateColsWithSpaces(size, grid);
      if r {
        r := ValidateSquaresWithSpaces(n, size, grid);
      }
    }
  }

  /** Cell a comes before cell b in row-major order. */
  predicate Before(a: (nat, nat), b: (nat, nat))
  {
    a.0 < b.0 || (a.0 == b.0 && a.1 < b.1)
  }

  /** A size x size grid of values. */
  ghost predicate IsGrid(g: seq<seq<int>>, size: int)
  {
    |g| == size && forall i :: 0 <= i < size ==> |g[i]| == size
  }

  /** The grid's cells as values, row by row. */
  ghost function Snapshot(grid: array2<int>): (g: seq<seq<int>>)
    reads grid
    ensures IsGrid(g, grid.Length0) || grid.Length0 != grid.Length1
    ensures |g| == grid.Length0 && forall i :: 0 <= i < |g| ==> |g[i]| == grid.Length1
    ensures forall i, j :: 0 <= i < grid.Length0 && 0 <= j < grid.Length1 ==> g[i][j] == grid[i, j]
  {
    seq(grid.Length0, i requires 0 <= i < grid.Length0 reads grid =>
      seq(grid.Length1, j requires 0 <= j < grid.Length1 reads grid => grid[i, j]))
  }

  /** The empty cells of row i among its first w columns, left to right. */
  ghost function RowEmpties(g: seq<seq<int>>, size: nat, i: nat, w: nat): seq<(nat, nat)>
    requires IsGrid(g, size) && i < size && w <= size
  {
    if w == 0 then [] else RowEmpties(g, size, i, w - 1) + (if g[i][w - 1] == 0 then [(i, w - 1)] else [])
  }

  /** The empty cells of the first `rows` rows in row-major order: the emptyCells list of the source. */
  ghost function Empties(g: seq<seq<int>>, size: nat, rows: nat): seq<(nat, nat)>
    requires IsGrid(g, size) && rows <= size
  {
    if rows == 0 then [] else Empties(g, size, rows - 1) + RowEmpties(g, size, rows - 1, size)
  }

  /** E lists every empty cell of the first `rows` rows of g exactly once, in row-major order. */
  ghost predicate Catalogued(g: seq<seq<int>>, size: nat, rows: nat, E: seq<(nat, nat)>)
    requires IsGrid(g, size) && rows <= size
  {
    (forall t :: 0 <= t < |E| ==> E[t].0 < rows && E[t].1 < size && g[E[t].0][E[t].1] == 0) &&
    (forall t1, t2 :: 0 <= t1 < t2 < |E| ==> Before(E[t1], E[t2])) &&
    (forall i, j :: 0 <= i < rows && 0 <= j < size && g[i][j] == 0 ==> (i, j) in E)
  }

  /** r lists the empty cells among the first w columns of row i exactly once, left to right. */
  ghost predicate RowCatalogued(g: seq<seq<int>>, size: nat, i: nat, w: nat, r: seq<(nat, nat)>)
    requires IsGrid(g, size) && i < size && w <= size
  {
    (forall t :: 0 <= t < |r| ==> r[t].0 == i && r[t].1 < w && g[i][r[t].1] == 0) &&
    (forall t1, t2 :: 0 <= t1 < t2 < |r| ==> r[t1].1 < r[t2].1) &&
    (forall c :: 0 <= c < w && g[i][c] == 0 ==> (i, c) in r)
  }

  lemma {:induction false} RowEmptiesCatalogue(g: seq<seq<int>>, size: nat, i: nat, w: nat)
    requires IsGrid(g, size) && i < size && w <= size
    ensures RowCatalogued(g, size, i, w, RowEmpties(g, size, i, w))
  {
    if w > 0 {
      RowEmptiesCatalogue(g, size, i, w - 1);
      var front := RowEmpties(g, size, i, w - 1);
      var r := RowEmpties(g, size, i, w);
      if g[i][w - 1] == 0 {
        assert r == front + [(i, w - 1)];
        assert r[|front|] == (i, w - 1);
      } else {
        assert r == front;
      }
    }
  }

  /** Appending the catalogue of row `rows` to that of the rows above it. */
  lemma CatalogueJoin(g: seq<seq<int>>, size: nat, rows: nat, front: seq<(nat, nat)>, last: seq<(nat, nat)>)
    requires IsGrid(g, size) && 0 < rows <= size
    requires Catalogued(g, size, rows - 1, front) && RowCatalogued(g, size, rows - 1, size, last)
    ensures Catalogued(g, size, rows, front + last)
  {
    var E := front + last;
    forall t | 0 <= t < |E|
      ensures E[t].0 < rows && E[t].1 < size && g[E[t].0][E[t].1] == 0
    {
      if t < |front| {
        assert E[t] == front[t];
      } else {
        assert E[t] == last[t - |front|];
      }
    }
    forall t1, t2 | 0 <= t1 < t2 < |E|
      ensures Before(E[t1], E[t2])
    {
      if t2 < |front| {
        assert E[t1] == front[t1] && E[t2] == front[t2];
      } else if t1 < |front| {
        assert E[t1] == front[t1] && E[t2] == last[t2 - |front|];
      } else {
        assert E[t1] == last[t1 - |front|] && E[t2] == last[t2 - |front|];
      }
    }
    forall i, j | 0 <= i < rows && 0 <= j < size && g[i][j] == 0
      ensures (i, j) in E
    {
      if i < rows - 1 {
        var t :| 0 <= t < |front| && front[t] == (i, j);
        assert E[t] == (i, j);
      } else {
        var t :| 0 <= t < |last| && last[t] == (i, j);
        assert E[|front| + t] == (i, j);
      }
    }
  }

  /** Empties lists the empty cells of its rows exactly once, in row-major order. */
  lemma {:induction false} EmptiesCatalogue(g: seq<seq<int>>, size: nat, rows: nat)
    requires IsGrid(g, size) && rows <= size
    ensures Catalogued(g, size, rows, Empties(g, size, rows))
  {
    if rows > 0 {
      EmptiesCatalogue(g, size, rows - 1);
      RowEmptiesCatalogue(g, size, rows - 1, size);
      CatalogueJoin(g, size, rows, Empties(g, size, rows - 1), RowEmpties(g, size, rows - 1, size));
    }
  }

  /** A wider prefix of a row has at least as many empty cells. */
  lemma {:induction false} RowEmptiesGrow(g: seq<seq<int>>, size: nat, i: nat, w: nat)
    requires IsGrid(g, size) && i < size && w <= size
    ensures |RowEmpties(g, size, i, w)| <= |RowEmpties(g, size, i, size)|
    decreases size - w
  {
    if w < size {
      RowEmptiesGrow(g, size, i, w + 1);
    }
  }

  /** Later rows only add empty cells. */
  lemma {:induction false} EmptiesPrefix(g: seq<seq<int>>, size: nat, rows: nat)
    requires IsGrid(g, size) && rows <= size
    ensures |Empties(g, size, rows)| <= |Empties(g, size, size)|
    decreases size - rows
  {
    if rows < size {
      EmptiesPrefix(g, size, rows + 1);
    }
  }

  /** The first count pairs of the flat list cells are the first count cells of E. */
  ghost predicate Lists(cells: seq<int>, E: seq<(nat, nat)>, count: nat)
  {
    count <= |E| && 2 * count <= |cells| &&
    forall t :: 0 <= t < count ==> cells[2 * t] == E[t].0 && cells[2 * t + 1] == E[t].1
  }

  /** The counting loop of solve. */
  method CountEmpty(size: nat, grid: array2<int>) returns (numOfEmpty: nat)
    requires Square(grid, size)
    ensures numOfEmpty == |Empties(Snapshot(grid), size, size)|
  {
    ghost var g := Snapshot(grid);
    numOfEmpty := 0;
    for i := 0 to size
      invariant numOfEmpty == |Empties(g, size, i)|
    {
      for j := 0 to size
        invariant numOfEmpty == |Empties(g, size, i)| + |RowEmpties(g, size, i, j)|
      {
        if grid[i, j] == 0 {
          numOfEmpty := numOfEmpty + 1;
        }
      }
    }
  }

  /** The listing loop of solve for row i: its empty cells appended as (row, column) pairs. */
  method ListRow(size: nat, grid: array2<int>, i: nat, emptyCells: array<int>, start: nat, ghost front: seq<(nat, nat)>)
    returns (emptySize: nat)
    requires Square(grid, size) && i < size
    requires start == 2 * |front| && start + 2 * |RowEmpties(Snapshot(grid), size, i, size)| <= emptyCells.Length
    requires Lists(emptyCells[..], front, |front|)
    modifies emptyCells
    ensures emptySize == 2 * |front + RowEmpties(Snapshot(grid), size, i, size)|
    ensures Lists(emptyCells[..], front + RowEmpties(Snapshot(grid), size, i, size), |front + RowEmpties(Snapshot(grid), size, i, size)|)
  {
    ghost var g := Snapshot(grid);
    emptySize := start;
    for j := 0 to size
      invariant emptySize == 2 * (|front| + |RowEmpties(g, size, i, j)|)
      invariant Lists(emptyCells[..], front + RowEmpties(g, size, i, j), |front| + |RowEmpties(g, size, i, j)|)
    {
      ghost var L := front + RowEmpties(g, size, i, j);
      if grid[i, j] == 0 {
        assert front + RowEmpties(g, size, i, j + 1) == L + [(i, j)];
        RowEmptiesGrow(g, size, i, j + 1);
        ghost var before := emptyCells[..];
        emptyCells[emptySize] := i;
        emptyCells[emptySize + 1] := j;
        emptySize := emptySize + 2;
        assert emptyCells[..] == before[2 * |L| := i][2 * |L| + 1 := j];
        ListsAppend(before, L, (i, j));
      } else {
        assert RowEmpties(g, size, i, j + 1) == RowEmpties(g, size, i, j);
      }
    }
  }

  /** Writing the next pair behind the listed ones lists one cell more. */
  lemma ListsAppend(cells: seq<int>, L: seq<(nat, nat)>, x: (nat, nat))
    requires Lists(cells, L, |L|) && 2 * |L| + 2 <= |cells|
    ensures Lists(cells[2 * |L| := x.0][2 * |L| + 1 := x.1], L + [x], |L| + 1)
  {
    var c := cells[2 * |L| := x.0][2 * |L| + 1 := x.1];
    forall t | 0 <= t < |L| + 1
      ensures c[2 * t] == (L + [x])[t].0 && c[2 * t + 1] == (L + [x])[t].1
    {
      if t < |L| {
        assert (L + [x])[t] == L[t];
      }
    }
  }

  /** The listing loop of solve: the empty cells as (row, column) pairs in a flat array. */
  method ListEmpty(size: nat, grid: array2<int>, emptyCells: array<int>)
    requires Square(grid, size) && emptyCells.Length == 2 * |Empties(Snapshot(grid), size, size)|
    modifies emptyCells
    ensures Lists(emptyCells[..], Empties(Snapshot(grid), size, size), |Empties(Snapshot(grid), size, size)|)
  {
    ghost var g := Snapshot(grid);
    var emptySize := 0;
    for i := 0 to size
      invariant emptySize == 2 * |Empties(g, size, i)|
      invariant Lists(emptyCells[..], Empties(g, size, i), |Empties(g, size, i)|)
    {
      assert Empties(g, size, i + 1) == Empties(g, size, i) + RowEmpties(g, size, i, size);
      EmptiesPrefix(g, size, i + 1);
      emptySize := ListRow(size, grid, i, emptyCells, emptySize, Empties(g, size, i));
    }
  }

  /**
   * The state of the search with pos cells of E placed: the cells that were
   * not empty keep their values, the empty ones hold 0..size, and the placed
   * ones hold 1..size.
   */
  ghost predicate SearchState(grid: array2<int>, size: nat, orig: seq<seq<int>>, E: seq<(nat, nat)>, pos: nat)
    requires Square(grid, size) && IsGrid(orig, size)
    reads grid
  {
    pos <= |E| &&
    (forall t :: 0 <= t < |E| ==> E[t].0 < size && E[t].1 < size) &&
    (forall i, j :: 0 <= i < size && 0 <= j < size && orig[i][j] != 0 ==> grid[i, j] == orig[i][j]) &&
    (forall i, j :: 0 <= i < size && 0 <= j < size && orig[i][j] == 0 ==> 0 <= grid[i, j] <= size) &&
    (forall t :: 0 <= t < pos ==> 1 <= grid[E[t].0, E[t].1] <= size)
  }

  /** One write of the search: value v into the current empty cell E[pos]. */
  method Place(size: nat, grid: array2<int>, row: nat, col: nat, v: int,
               ghost orig: seq<seq<int>>, ghost E: seq<(nat, nat)>, ghost pos: nat)
    requires Square(grid, size) && IsGrid(orig, size) && Catalogued(orig, size, size, E)
    requires SearchState(grid, size, orig, E, pos) && pos < |E| && (row, col) == E[pos] && 0 <= v <= size
    modifies grid
    ensures grid[row, col] == v
    ensures forall i, j :: 0 <= i < size && 0 <= j < size && (i, j) != (row, col) ==> grid[i, j] == old(grid[i, j])
    ensures SearchState(grid, size, orig, E, pos)
    ensures 1 <= v ==> SearchState(grid, size, orig, E, pos + 1)
  {
    forall t | 0 <= t < pos
      ensures E[t] != E[pos]
    {
      assert Before(E[t], E[pos]);
    }
    grid[row, col] := v;
  }

  /** When every listed cell is placed, every originally empty cell holds 1..size. */
  lemma AllPlaced(grid: array2<int>, size: nat, orig: seq<seq<int>>, E: seq<(nat, nat)>)
    requires Square(grid, size) && IsGrid(orig, size) && Catalogued(orig, size, size, E)
    requires SearchState(grid, size, orig, E, |E|)
    ensures forall i, j :: 0 <= i < size && 0 <= j < size && orig[i][j] == 0 ==> 1 <= grid[i, j] <= size
  {
    forall i, j | 0 <= i < size && 0 <= j < size && orig[i][j] == 0
      ensures 1 <= grid[i, j] <= size
    {
      assert (i, j) in E;
      var t :| 0 <= t < |E| && E[t] == (i, j);
    }
  }

  /** Before the search: nothing is placed, and the list is empty exactly when the grid has no empty cell. */
  lemma SearchStart(grid: array2<int>, size: nat)
    requires Square(grid, size)
    ensures var orig, E := Snapshot(grid), Empties(Snapshot(grid), size, size);
      IsGrid(orig, size) && Catalogued(orig, size, size, E) && SearchState(grid, size, orig, E, 0) &&
      ((exists i, j :: 0 <= i < size && 0 <= j < size && grid[i, j] == 0) <==> |E| > 0)
  {
    var orig, E := Snapshot(grid), Empties(Snapshot(grid), size, size);
    assert IsGrid(orig, size);
    EmptiesCatalogue(orig, size, size);
    assert SearchState(grid, size, orig, E, 0) by {
      assert forall t :: 0 <= t < |E| ==> E[t].0 < size && E[t].1 < size;
    }
    EmptyIffListed(grid, size, orig, E);
  }

  /** A catalogue of the grid's empty cells is non-empty exactly when the grid has an empty cell. */
  lemma EmptyIffListed(grid: array2<int>, size: nat, orig: seq<seq<int>>, E: seq<(nat, nat)>)
    requires Square(grid, size) && IsGrid(orig, size) && Catalogued(orig, size, size, E)
    requires forall i, j :: 0 <= i < size && 0 <= j < size ==> orig[i][j] == grid[i, j]
    ensures (exists i, j :: 0 <= i < size && 0 <= j < size && grid[i, j] == 0) <==> |E| > 0
  {
    if exists i, j :: 0 <= i < size && 0 <= j < size && grid[i, j] == 0 {
      var i, j :| 0 <= i < size && 0 <= j < size && grid[i, j] == 0;
      assert (i, j) in E;
    }
    if |E| > 0 {
      assert orig[E[0].0][E[0].1] == 0;
    }
  }

  /** What solve reports; OutOfFuel stands for a search that would run on. */
  datatype Outcome = Solved | Unsolvable | OutOfFuel

  /** Writes candidate v into the current empty cell and validates the whole grid. */
  method Try(n: int, size: nat, grid: array2<int>, row: nat, col: nat, v: int,
             ghost orig: seq<seq<int>>, ghost E: seq<(nat, nat)>, ghost pos: nat) returns (valid: bool)
    requires Square(grid, size) && BlockShape(n, size) && IsGrid(orig, size) && Catalogued(orig, size, size, E)
    requires SearchState(grid, size, orig, E, pos) && pos < |E| && (row, col) == E[pos] && 1 <= v <= size
    modifies grid
    ensures grid[row, col] == v
    ensures forall i, j :: 0 <= i < size && 0 <= j < size && (i, j) != (row, col) ==> grid[i, j] == old(grid[i, j])
    ensures valid == AllValid(grid, n, size)
    ensures SearchState(grid, size, orig, E, pos) && SearchState(grid, size, orig, E, pos + 1)
  {
    Place(size, grid, row, col, v, orig, E, pos);
    valid := ValidateAllWithSpaces(n, size, grid);
  }

  /**
   * The search loop of solve over the listed empty cells E.  The source
   * tests numOfEmpty at the top of the turn after the last placement and
   * leaves; here the loop leaves at once after that placement, which is
   * the same run.
   */
  method Backtrack(n: int, size: nat, grid: array2<int>, emptyCells: array<int>, count: nat, fuel: nat,
                   ghost orig: seq<seq<int>>, ghost E: seq<(nat, nat)>) returns (r: Outcome)
    requires Square(grid, size) && BlockShape(n, size) && IsGrid(orig, size) && Catalogued(orig, size, size, E)
    requires SearchState(grid, size, orig, E, 0) && Lists(emptyCells[..], E, |E|) && count == |E|
    modifies grid
    ensures SearchState(grid, size, orig, E, 0)
    ensures |E| == 0 ==> r == Solved
    ensures r == Solved && |E| > 0 ==> AllValid(grid, n, size) && SearchState(grid, size, orig, E, |E|)
  {
    var numOfEmpty := count;
    var index, lastAdded := 0, 0;
    ghost var pos: nat := 0;
    var i := 1;
    var turns := fuel;
    while i <= size
      invariant 0 <= pos < |E| || (pos == 0 && |E| == 0)
      invariant index == 2 * pos && numOfEmpty == |E| - pos
      invariant 1 <= i && (i <= size || size == 0)
      invariant 0 <= lastAdded <= size
      invariant SearchState(grid, size, orig, E, pos)
      decreases turns
    {
      if numOfEmpty == 0 {
        return Solved;
      }
      if turns == 0 {
        return OutOfFuel;
      }
      turns := turns - 1;
      var row, col := emptyCells[index], emptyCells[index + 1];
      assert (row, col) == E[pos];
      var valid := Try(n, size, grid, row, col, i, orig, E, pos);
      if valid {
        index, numOfEmpty, lastAdded := index + 2, numOfEmpty - 1, i;
        pos := pos + 1;
        if numOfEmpty == 0 {
          return Solved;
        }
        i := 0;
      } else if i == size && index != 0 {
        Place(size, grid, row, col, 0, orig, E, pos);
        index, numOfEmpty := index - 2, numOfEmpty + 1;
        pos := pos - 1;
        i := lastAdded;
        if lastAdded >= size {
          return Unsolvable;
        }
      } else if i == size && index == 0 {
        return Unsolvable;
      }
      i := i + 1;
    }
    return Solved;
  }

  /** The counting and listing loops of solve: the empty cells in a fresh flat array of (row, column) pairs. */
  method ListAllEmpty(size: nat, grid: array2<int>) returns (numOfEmpty: nat, emptyCells: array<int>)
    requires Square(grid, size)
    ensures fresh(emptyCells)
    ensures numOfEmpty == |Empties(Snapshot(grid), size, size)|
    ensures Lists(emptyCells[..], Empties(Snapshot(grid), size, size), numOfEmpty)
  {
    numOfEmpty := CountEmpty(size, grid);
    emptyCells := new int[numOfEmpty + numOfEmpty];
    ListEmpty(size, grid, emptyCells);
  }

  method Solve(n: int, size: nat, grid: array2<int>, fuel: nat) returns (r: Outcome)
    requires Square(grid, size) && BlockShape(n, size)
    modifies grid
    // only the cells that were empty are written, and only with 0..size
    ensures forall i, j :: 0 <= i < size && 0 <= j < size && old(grid[i, j]) != 0 ==> grid[i, j] == old(grid[i, j])
    ensures forall i, j :: 0 <= i < size && 0 <= j < size && old(grid[i, j]) == 0 ==> 0 <= grid[i, j] <= size
    // a grid without empty cells is reported solved at once, unvalidated
    ensures (forall i, j :: 0 <= i < size && 0 <= j < size ==> old(grid[i, j]) != 0) ==> r == Solved
    // a solved grid has every empty cell filled and passes all three validators
    ensures r == Solved && (exists i, j :: 0 <= i < size && 0 <= j < size && old(grid[i, j]) == 0) ==>
      AllValid(grid, n, size) &&
      forall i, j :: 0 <= i < size && 0 <= j < size && old(grid[i, j]) == 0 ==> 1 <= grid[i, j] <= size
  {
    ghost var orig := Snapshot(grid);
    ghost var E := Empties(orig, size, size);
    SearchStart(grid, size);
    var numOfEmpty, emptyCells := ListAllEmpty(size, grid);
    r := Backtrack(n, size, grid, emptyCells, numOfEmpty, fuel, orig, E);
    if r == Solved && |E| > 0 {
      AllPlaced(grid, size, orig, E);
    }
  }
}
