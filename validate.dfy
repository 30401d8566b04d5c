/**
 * The Sudoku validators of p2/validate.c.  A grid is a size x size array of
 * ints where 0 is an empty cell.  Every validator only reads the grid; each
 * is proved to return its specification predicate, and the lemmas after it
 * say what that predicate means.
 */
module Validate {
  import opened Arith

  /** The failure test shared by the WithSpaces validators: an equal nonzero pair, or a first entry above size. */
  predicate Clash(x: int, y: int, size: int)
  {
    (x == y && x != 0) || x > size
  }

  /** The failure test of checkArray: an equal pair, or a first entry outside 1..size. */
  predicate Rejects(x: int, y: int, size: int)
  {
    x == y || x < 1 || x > size
  }

  /** checkArray fails on a pair i < j that it rejects. */
  predicate ArrayOk(s: seq<int>, size: int)
  {
    forall i, j :: 0 <= i < j < |s| ==> !Rejects(s[i], s[j], size)
  }

  /** checkArrayWithSpaces fails on a pair i < j that clashes. */
  predicate ArrayWithSpacesOk(s: seq<int>, size: int)
  {
    forall i, j :: 0 <= i < j < |s| ==> !Clash(s[i], s[j], size)
  }

  method CheckArray(size: int, a: array<int>) returns (r: bool)
    requires 0 <= size <= a.Length
    ensures r == ArrayOk(a[..size], size)
  {
    for i := 0 to size
      invariant forall i', j :: 0 <= i' < i && i' < j < size ==> !Rejects(a[i'], a[j], size)
    {
      var lookAt := a[i];
      for j := i + 1 to size
        invariant forall j' :: i < j' < j ==> !Rejects(lookAt, a[j'], size)
      {
        if lookAt == a[j] || lookAt < 1 || lookAt > size {
          assert a[..size][i] == a[i] && a[..size][j] == a[j];
          return false;
        }
      }
    }
    return true;
  }

  method CheckArrayWithSpaces(size: int, a: array<int>) returns (r: bool)
    requires 0 <= size <= a.Length
    ensures r == ArrayWithSpacesOk(a[..size], size)
  {
    for i := 0 to if size >= 1 then size - 1 else 0
      invariant forall i', j :: 0 <= i' < i && i' < j < size ==> !Clash(a[i'], a[j], size)
    {
      var lookAt := a[i];
      for j := i + 1 to size
        invariant forall j' :: i < j' < j ==> !Clash(lookAt, a[j'], size)
      {
        if (lookAt == a[j] && lookAt != 0) || lookAt > size {
          assert a[..size][i] == a[i] && a[..size][j] == a[j];
          return false;
        }
      }
    }
    return true;
  }

  /** Exactly the two rejections checkArray makes: a repeated value, or an entry other than the last outside 1..size. */
  lemma ArrayOkMeaning(s: seq<int>, size: int)
    ensures ArrayOk(s, size) <==>
      (forall i, j :: 0 <= i < j < |s| ==> s[i] != s[j]) && (forall i :: 0 <= i < |s| - 1 ==> 1 <= s[i] <= size)
  {
    if ArrayOk(s, size) {
      forall i | 0 <= i < |s| - 1
        ensures 1 <= s[i] <= size
      {
        assert !Rejects(s[i], s[i + 1], size);
      }
    }
  }

  /** Exactly the rejections of checkArrayWithSpaces: zeros may repeat, negatives pass, and the last entry is never range-checked. */
  lemma ArrayWithSpacesOkMeaning(s: seq<int>, size: int)
    ensures ArrayWithSpacesOk(s, size) <==>
      (forall i, j :: 0 <= i < j < |s| && s[i] != 0 ==> s[i] != s[j]) && (forall i :: 0 <= i < |s| - 1 ==> s[i] <= size)
  {
    if ArrayWithSpacesOk(s, size) {
      forall i | 0 <= i < |s| - 1
        ensures s[i] <= size
      {
        assert !Clash(s[i], s[i + 1], size);
      }
    }
  }

  /** What checkArray accepts, checkArrayWithSpaces accepts too. */
  lemma ArrayOkWithSpaces(s: seq<int>, size: int)
    requires ArrayOk(s, size)
    ensures ArrayWithSpacesOk(s, size)
  {
  }

  /** The last entry is never range-checked: [1, 5] passes checkArray with size 2. */
  lemma LastEntryUnchecked()
    ensures ArrayOk([1, 5], 2)
    ensures ArrayWithSpacesOk([0, 0, -3, 7], 3)
  {
    ArrayOkMeaning([1, 5], 2);
    ArrayWithSpacesOkMeaning([0, 0, -3, 7], 3);
  }

  // ---------------------------------------------------------------------
  // The grid validators

  /** The grid shape every validator assumes. */
  predicate Square(grid: array2<int>, size: int)
  {
    grid.Length0 == size && grid.Length1 == size
  }

  /** validateRowsWithSpaces fails on a row i and columns j < k whose cells clash. */
  ghost predicate RowsOk(grid: array2<int>, size: int)
    requires Square(grid, size)
    reads grid
  {
    forall i, j, k :: 0 <= i < size && 0 <= j < k < size ==> !Clash(grid[i, j], grid[i, k], size)
  }

  /** validateColsWithSpaces fails on a column j and rows i < k whose cells clash. */
  ghost predicate ColsOk(grid: array2<int>, size: int)
    requires Square(grid, size)
    reads grid
  {
    forall i, j, k :: 0 <= i < k < size && 0 <= j < size ==> !Clash(grid[i, j], grid[k, j], size)
  }

  /** The cells grid[k][j..j+w) of row k, left to right. */
  ghost function RowPart(grid: array2<int>, k: nat, j: nat, w: nat): (r: seq<int>)
    requires k < grid.Length0 && j + w <= grid.Length1
    reads grid
    ensures |r| == w
    ensures forall m :: 0 <= m < w ==> r[m] == grid[k, j + m]
  {
    if w == 0 then [] else RowPart(grid, k, j, w - 1) + [grid[k, j + w - 1]]
  }

  /** The first `rows` rows of the n-wide block at (i, j), row by row: what the square loop copies into its buffer. */
  ghost function Block(grid: array2<int>, n: nat, i: nat, j: nat, rows: nat): (r: seq<int>)
    requires i + rows <= grid.Length0 && j + n <= grid.Length1
    reads grid
    ensures |r| == rows * n
  {
    if rows == 0 then [] else Block(grid, n, i, j, rows - 1) + RowPart(grid, i + rows - 1, j, n)
  }

  /** The block sizes the square validator can handle: n divides size and one block fits the size-element buffer. */
  predicate BlockShape(n: int, size: int)
  {
    n >= 1 && size >= 0 && size % n == 0 && n * n <= size
  }

  /**
   * validateSquaresWithSpaces: every n x n block whose corner is at a
   * multiple of n passes checkArrayWithSpaces with the block's own cell
   * count n*n as the bound (equal to size for the shapes the driver uses).
   */
  ghost predicate SquaresOk(grid: array2<int>, n: nat, size: int)
    requires Square(grid, size) && BlockShape(n, size)
    reads grid
  {
    forall i, j :: 0 <= i < size && 0 <= j < size && i % n == 0 && j % n == 0 ==> BlockOk(grid, n, size, i, j)
  }

  method ValidateRowsWithSpaces(size: int, grid: array2<int>) returns (r: bool)
    requires Square(grid, size)
    ensures r == RowsOk(grid, size)
  {
    for i := 0 to size
      invariant forall i', j, k :: 0 <= i' < i && 0 <= j < k < size ==> !Clash(grid[i', j], grid[i', k], size)
    {
      for j := 0 to size
        invariant forall j', k :: 0 <= j' < j && j' < k < size ==> !Clash(grid[i, j'], grid[i, k], size)
      {
        var lookAt := grid[i, j];
        for k := j + 1 to size
          invariant forall k' :: j < k' < k ==> !Clash(lookAt, grid[i, k'], size)
        {
          if (lookAt == grid[i, k] && lookAt != 0) || lookAt > size {
            return false;
          }
        }
      }
    }
    return true;
  }

  method ValidateColsWithSpaces(size: int, grid: array2<int>) returns (r: bool)
    requires Square(grid, size)
    ensures r == ColsOk(grid, size)
  {
    for i := 0 to size
      invariant forall i', j, k :: 0 <= i' < i && i' < k < size && 0 <= j < size ==> !Clash(grid[i', j], grid[k, j], size)
    {
      for j := 0 to size
        invariant forall j', k :: 0 <= j' < j && i < k < size ==> !Clash(grid[i, j'], grid[k, j'], size)
      {
        var lookAt := grid[i, j];
        for k := i + 1 to size
          invariant forall k' :: i < k' < k ==> !Clash(lookAt, grid[k', j], size)
        {
          if (lookAt == grid[k, j] && lookAt != 0) || lookAt > size {
            return false;
          }
        }
      }
    }
    return true;
  }

  /** One more row of width n still fits below `rows` rows. */
  lemma NextRowOffset(r: nat, n: nat, rows: nat)
    requires r < rows
    ensures r * n + n == (r + 1) * n <= rows * n
  {
  }

  /** A block corner at a multiple of n below size leaves room for the whole block, and the next corner is a multiple too. */
  lemma BlockFits(i: int, n: int, size: int)
    requires BlockShape(n, size) && 0 <= i < size && i % n == 0
    ensures i + n <= size && (i + n) % n == 0
  {
    var q, qs := i / n, size / n;
    assert i == q * n && size == qs * n;
    if q >= qs {
      MulMono(qs, q, n);
    }
    MulMono(q + 1, qs, n);
    assert i + n == (q + 1) * n;
    DivUnique(i + n, q + 1, 0, n);
  }

  /** Between two consecutive multiples of n there is no other. */
  lemma NoCornerBetween(i: int, x: int, n: int)
    requires n >= 1 && i % n == 0 && i < x < i + n
    ensures x % n != 0
  {
    var q, qx := i / n, x / n;
    assert i == q * n;
    if x % n == 0 {
      assert x == qx * n;
      if qx <= q {
        MulMono(qx, q, n);
      }
      if q < qx {
        MulMono(q + 1, qx, n);
      }
    }
  }

  /** The copy loop for one row of a block: grid[k][j..j+n) into buf[start..start+n). */
  method CopyRow(grid: array2<int>, n: nat, k: nat, j: nat, buf: array<int>, start: nat)
    requires k < grid.Length0 && j + n <= grid.Length1 && start + n <= buf.Length
    modifies buf
    ensures buf[..start + n] == old(buf[..start]) + RowPart(grid, k, j, n)
  {
    ghost var prefix := buf[..start];
    var convertedSize := start;
    for m := j to j + n
      invariant convertedSize == start + (m - j)
      invariant buf[..convertedSize] == prefix + RowPart(grid, k, j, m - j)
    {
      buf[convertedSize] := grid[k, m];
      convertedSize := convertedSize + 1;
    }
  }

  /** The copy loop for one block: grid[i..i+n)[j..j+n) into buf[0..n*n), row by row. */
  method CopyBlock(grid: array2<int>, n: nat, i: nat, j: nat, buf: array<int>)
    requires i + n <= grid.Length0 && j + n <= grid.Length1 && n * n <= buf.Length
    modifies buf
    ensures buf[..n * n] == Block(grid, n, i, j, n)
  {
    var convertedSize := 0;
    for k := i to i + n
      invariant convertedSize == (k - i) * n
      invariant buf[..convertedSize] == Block(grid, n, i, j, k - i)
    {
      NextRowOffset(k - i, n, n);
      CopyRow(grid, n, k, j, buf, convertedSize);
      convertedSize := convertedSize + n;
    }
  }

  /** The block with corner (i, j) fits and passes checkArrayWithSpaces. */
  ghost predicate BlockOk(grid: array2<int>, n: nat, size: int, i: int, j: int)
    requires Square(grid, size) && BlockShape(n, size)
    reads grid
  {
    0 <= i && 0 <= j && i + n <= size && j + n <= size && ArrayWithSpacesOk(Block(grid, n, i, j, n), n * n)
  }

  method ValidateSquaresWithSpaces(n: int, size: int, grid: array2<int>) returns (r: bool)
    requires Square(grid, size) && BlockShape(n, size)
    ensures r == SquaresOk(grid, n, size)
  {
    var convertedArray := new int[size];
    var i := 0;
    while i < size
      invariant 0 <= i <= size && i % n == 0
      invariant forall i', j :: 0 <= i' < i && 0 <= j < size && i' % n == 0 && j % n == 0 ==> BlockOk(grid, n, size, i', j)
    {
      BlockFits(i, n, size);
      var j := 0;
      while j < size
        invariant 0 <= j <= size && j % n == 0
        invariant forall j' :: 0 <= j' < j && j' % n == 0 ==> BlockOk(grid, n, size, i, j')
      {
        BlockFits(j, n, size);
        CopyBlock(grid, n, i, j, convertedArray);
        var ok := CheckArrayWithSpaces(n * n, convertedArray);
        if !ok {
          assert !BlockOk(grid, n, size, i, j);
          return false;
        }
        forall j' | j < j' < j + n
          ensures j' % n != 0
        {
          NoCornerBetween(j, j', n);
        }
        j := j + n;
      }
      forall i' | i < i' < i + n
        ensures i' % n != 0
      {
        NoCornerBetween(i, i', n);
      }
      i := i + n;
    }
    return true;
  }
}
