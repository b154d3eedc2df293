/** Row-major layout of a dense matrix in a flat buffer: cell (r, c) of a
    matrix with `cols` columns lives at flat position r * cols + c. */
module RowMajor {

  /** Flat position of cell (r, c) in a buffer with `cols` columns. */
  function Offset(r: nat, c: nat, cols: nat): (i: nat)
  {
    r * cols + c
  }

  /** Multiplication by a natural number is monotone. */
  lemma {:induction false} MulMonotone(a: nat, b: nat, k: nat)
    requires a <= b
    ensures a * k <= b * k
  {
    if a < b {
      MulMonotone(a, b - 1, k);
      assert b * k == (b - 1) * k + k;
    }
  }

  /** A cell inside a rows x cols matrix has a flat position inside the buffer. */
  lemma OffsetInBounds(r: nat, c: nat, rows: nat, cols: nat)
    requires r < rows && c < cols
    ensures Offset(r, c, cols) < rows * cols
  {
    assert Offset(r, c, cols) < (r + 1) * cols;
    MulMonotone(r + 1, rows, cols);
  }

  /** Row r and column c can be read back from the flat position. */
  lemma OffsetDivMod(r: nat, c: nat, cols: nat)
    requires c < cols
    ensures Offset(r, c, cols) / cols == r && Offset(r, c, cols) % cols == c
  {
    var i := Offset(r, c, cols);
    var q, s := i / cols, i % cols;
    assert i == q * cols + s && 0 <= s < cols;
    if q < r {
      MulMonotone(q + 1, r, cols);
      assert false;
    } else if r < q {
      MulMonotone(r + 1, q, cols);
      assert false;
    }
  }

  /** Two cells with the same flat position are the same cell. */
  lemma OffsetInjective(r1: nat, c1: nat, r2: nat, c2: nat, cols: nat)
    requires c1 < cols && c2 < cols
    requires Offset(r1, c1, cols) == Offset(r2, c2, cols)
    ensures r1 == r2 && c1 == c2
  {
    OffsetDivMod(r1, c1, cols);
    OffsetDivMod(r2, c2, cols);
  }

  /** Every flat position of a rows x cols buffer is the position of one of its cells. */
  lemma OffsetSplit(i: nat, rows: nat, cols: nat)
    requires i < rows * cols
    ensures 0 < cols && i / cols < rows && i % cols < cols
    ensures Offset(i / cols, i % cols, cols) == i
  {
    if rows <= i / cols {
      MulMonotone(rows, i / cols, cols);
      assert false;
    }
  }

  /** A buffer of n copies of x, as `vec![x; n]` builds it. */
  function Filled(n: nat, x: real): (s: seq<real>)
    ensures |s| == n
    ensures forall i :: 0 <= i < n ==> s[i] == x
  {
    seq(n, _ => x)
  }

  /** Row r ends where row r + 1 begins. */
  lemma RowNext(r: nat, cols: nat)
    ensures Offset(r, cols, cols) == Offset(r + 1, 0, cols)
  {
  }

  /** The end of row r lies inside the buffer. */
  lemma RowEnd(r: nat, rows: nat, cols: nat)
    requires r < rows
    ensures Offset(r, cols, cols) <= rows * cols
  {
    MulMonotone(r + 1, rows, cols);
  }

  /** Row r of a rows x cols buffer: the slice of `cols` cells starting at r * cols. */
  function Row(m: seq<real>, rows: nat, cols: nat, r: nat): (row: seq<real>)
    requires |m| == rows * cols && r < rows
    ensures |row| == cols
  {
    RowEnd(r, rows, cols);
    m[Offset(r, 0, cols)..Offset(r, cols, cols)]
  }

  /** The two-dimensional view of a row-major buffer, one sequence per row. */
  function Grid(m: seq<real>, rows: nat, cols: nat): (g: seq<seq<real>>)
    requires |m| == rows * cols
    ensures |g| == rows
    ensures forall r :: 0 <= r < rows ==> |g[r]| == cols
  {
    seq(rows, r requires 0 <= r < rows => Row(m, rows, cols, r))
  }

  /** Cell (r, c) of the grid is the buffer element at Offset(r, c, cols). */
  lemma GridCell(m: seq<real>, rows: nat, cols: nat, r: nat, c: nat)
    requires |m| == rows * cols
    requires r < rows && c < cols
    ensures Offset(r, c, cols) < |m|
    ensures Grid(m, rows, cols)[r][c] == m[Offset(r, c, cols)]
  {
    RowEnd(r, rows, cols);
    assert Grid(m, rows, cols)[r] == Row(m, rows, cols, r);
  }

  /** Writing flat position Offset(r, c, cols) changes the grid at (r, c) and nowhere else. */
  lemma GridUpdate(m: seq<real>, rows: nat, cols: nat, r: nat, c: nat, v: real)
    requires |m| == rows * cols
    requires r < rows && c < cols
    ensures Offset(r, c, cols) < |m|
    ensures Grid(m[Offset(r, c, cols) := v], rows, cols)
         == Grid(m, rows, cols)[r := Grid(m, rows, cols)[r][c := v]]
  {
    OffsetInBounds(r, c, rows, cols);
    var m' := m[Offset(r, c, cols) := v];
    var g, g' := Grid(m, rows, cols), Grid(m', rows, cols);
    GridCell(m, rows, cols, r, c);
    forall r' | 0 <= r' < rows
      ensures g'[r'] == g[r := g[r][c := v]][r']
    {
      RowEnd(r', rows, cols);
      forall c' | 0 <= c' < cols
        ensures g'[r'][c'] == g[r := g[r][c := v]][r'][c']
      {
        GridCell(m, rows, cols, r', c');
        GridCell(m', rows, cols, r', c');
        if r' == r && c' == c {
        } else {
          if Offset(r', c', cols) == Offset(r, c, cols) {
            OffsetInjective(r', c', r, c, cols);
          }
        }
      }
    }
  }
}
