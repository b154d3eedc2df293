/** What each matrix operation computes, as functions on row-major buffers,
    and the properties of those functions. */
module MatrixSpec {
  import opened RowMajor

  /** The element-wise operators of `add`, `subtract` and `hadamard`. */
  datatype CellOp = Plus | Minus | Times

  function Apply(op: CellOp, x: real, y: real): (z: real)
  {
    match op
    case Plus => x + y
    case Minus => x - y
    case Times => x * y
  }

  /** Two equally long buffers combined position by position. */
  function Cellwise(op: CellOp, a: seq<real>, b: seq<real>): (s: seq<real>)
    requires |a| == |b|
    ensures |s| == |a|
  {
    seq(|a|, i requires 0 <= i < |a| => Apply(op, a[i], b[i]))
  }

  /** Because both operands share one row-major layout, combining the flat
      buffers combines the matrices cell by cell. */
  lemma CellwiseGrid(op: CellOp, a: seq<real>, b: seq<real>, rows: nat, cols: nat, r: nat, c: nat)
    requires |a| == rows * cols && |b| == rows * cols
    requires r < rows && c < cols
    ensures Grid(Cellwise(op, a, b), rows, cols)[r][c]
         == Apply(op, Grid(a, rows, cols)[r][c], Grid(b, rows, cols)[r][c])
  {
    GridCell(a, rows, cols, r, c);
    GridCell(b, rows, cols, r, c);
    GridCell(Cellwise(op, a, b), rows, cols, r, c);
  }

  /** Addition and the Hadamard product do not depend on operand order. */
  lemma CellwiseCommutes(op: CellOp, a: seq<real>, b: seq<real>)
    requires |a| == |b| && op != Minus
    ensures Cellwise(op, a, b) == Cellwise(op, b, a)
  {
  }

  /** Every element divided by the same divisor. */
  function Quotient(a: seq<real>, value: real): (s: seq<real>)
    requires value != 0.0
    ensures |s| == |a|
  {
    seq(|a|, i requires 0 <= i < |a| => a[i] / value)
  }

  /** Dividing by one changes nothing. */
  lemma QuotientByOne(a: seq<real>)
    ensures Quotient(a, 1.0) == a
  {
  }

  /** Dividing by v divides each cell of the two-dimensional view by v. */
  lemma QuotientGrid(a: seq<real>, value: real, rows: nat, cols: nat, r: nat, c: nat)
    requires value != 0.0
    requires |a| == rows * cols && r < rows && c < cols
    ensures Grid(Quotient(a, value), rows, cols)[r][c] == Grid(a, rows, cols)[r][c] / value
  {
    GridCell(a, rows, cols, r, c);
    GridCell(Quotient(a, value), rows, cols, r, c);
  }

  /** Σ_{k < n} a(r, k) * b(k, c) for a rows x inner matrix a and an inner x p
      matrix b, accumulated from k = 0 upward. */
  function RowColSum(a: seq<real>, b: seq<real>, rows: nat, inner: nat, p: nat,
                     r: nat, c: nat, n: nat): (sum: real)
    requires |a| == rows * inner && |b| == inner * p
    requires r < rows && c < p && n <= inner
  {
    if n == 0 then 0.0
    else
      OffsetInBounds(r, n - 1, rows, inner);
      OffsetInBounds(n - 1, c, inner, p);
      RowColSum(a, b, rows, inner, p, r, c, n - 1)
        + a[Offset(r, n - 1, inner)] * b[Offset(n - 1, c, p)]
  }

  /** The matrix product of a rows x inner matrix a and an inner x p matrix b,
      as a rows x p row-major buffer. */
  function MatMul(a: seq<real>, b: seq<real>, rows: nat, inner: nat, p: nat): (m: seq<real>)
    requires |a| == rows * inner && |b| == inner * p
    ensures |m| == rows * p
  {
    seq(rows * p, j requires 0 <= j < rows * p =>
      OffsetSplit(j, rows, p);
      RowColSum(a, b, rows, inner, p, j / p, j % p, inner))
  }

  /** Cell (r, c) of the product is the sum over k of a(r, k) * b(k, c). */
  lemma MatMulCell(a: seq<real>, b: seq<real>, rows: nat, inner: nat, p: nat, r: nat, c: nat)
    requires |a| == rows * inner && |b| == inner * p
    requires r < rows && c < p
    ensures Offset(r, c, p) < rows * p
    ensures MatMul(a, b, rows, inner, p)[Offset(r, c, p)]
         == RowColSum(a, b, rows, inner, p, r, c, inner)
  {
    OffsetInBounds(r, c, rows, p);
    OffsetDivMod(r, c, p);
  }

  /** The first n positions of t already hold their values in s. */
  ghost predicate PrefixAgrees(t: seq<real>, s: seq<real>, n: nat)
  {
    n <= |t| && n <= |s| && forall j :: 0 <= j < n ==> t[j] == s[j]
  }

  /** Writing s[n] at position n extends the agreeing prefix by one. */
  lemma PrefixExtend(t: seq<real>, s: seq<real>, n: nat, v: real)
    requires |t| == |s| && n < |t|
    requires PrefixAgrees(t, s, n) && v == s[n]
    ensures PrefixAgrees(t[n := v], s, n + 1)
  {
  }

  /** Agreement on every position makes the buffers equal. */
  lemma PrefixComplete(t: seq<real>, s: seq<real>)
    requires |t| == |s| && PrefixAgrees(t, s, |t|)
    ensures t == s
  {
  }

  /** Σ_{i < |a|} a[i] * b[i], accumulated from i = 0 upward. */
  function Dot(a: seq<real>, b: seq<real>): (sum: real)
    requires |a| == |b|
  {
    if |a| == 0 then 0.0
    else Dot(a[..|a| - 1], b[..|b| - 1]) + a[|a| - 1] * b[|b| - 1]
  }

  /** The dot product does not depend on operand order. */
  lemma {:induction false} DotSymmetric(a: seq<real>, b: seq<real>)
    requires |a| == |b|
    ensures Dot(a, b) == Dot(b, a)
  {
    if |a| > 0 {
      DotSymmetric(a[..|a| - 1], b[..|b| - 1]);
    }
  }

  /** The transpose of a rows x cols matrix as a cols x rows row-major buffer:
      position j = c * rows + r holds cell (r, c) of the original. */
  function Transposed(m: seq<real>, rows: nat, cols: nat): (t: seq<real>)
    requires |m| == rows * cols
    ensures |t| == |m| == cols * rows
  {
    seq(rows * cols, j requires 0 <= j < rows * cols =>
      OffsetSplit(j, cols, rows);
      OffsetInBounds(j % rows, j / rows, rows, cols);
      m[Offset(j % rows, j / rows, cols)])
  }

  /** Cell (r, c) of the original is cell (c, r) of the transpose. */
  lemma TransposedCell(m: seq<real>, rows: nat, cols: nat, r: nat, c: nat)
    requires |m| == rows * cols
    requires r < rows && c < cols
    ensures Offset(r, c, cols) < |m| && Offset(c, r, rows) < |m|
    ensures Transposed(m, rows, cols)[Offset(c, r, rows)] == m[Offset(r, c, cols)]
  {
    OffsetInBounds(r, c, rows, cols);
    OffsetInBounds(c, r, cols, rows);
    OffsetDivMod(c, r, rows);
  }

  /** The cells of rows before r, and of row r before column c, have been
      copied from m into their transposed positions in t. */
  ghost predicate TransposedUpTo(t: seq<real>, m: seq<real>, rows: nat, cols: nat, r: nat, c: nat)
  {
    forall r': nat, c': nat :: (r' < r && c' < cols) || (r' == r && c' < c) ==>
      Offset(c', r', rows) < |t| && Offset(r', c', cols) < |m|
      && t[Offset(c', r', rows)] == m[Offset(r', c', cols)]
  }

  /** Copying cell (r, c) to its transposed position extends the copied part
      by one cell and leaves the cells already copied in place. */
  lemma TransposeStep(t: seq<real>, m: seq<real>, rows: nat, cols: nat, r: nat, c: nat)
    requires |t| == |m| == rows * cols && r < rows && c < cols
    requires TransposedUpTo(t, m, rows, cols, r, c)
    ensures Offset(c, r, rows) < |t| && Offset(r, c, cols) < |m|
    ensures TransposedUpTo(t[Offset(c, r, rows) := m[Offset(r, c, cols)]], m, rows, cols, r, c + 1)
  {
    OffsetInBounds(r, c, rows, cols);
    OffsetInBounds(c, r, cols, rows);
    var t' := t[Offset(c, r, rows) := m[Offset(r, c, cols)]];
    forall r': nat, c': nat | (r' < r && c' < cols) || (r' == r && c' < c + 1)
      ensures Offset(c', r', rows) < |t'| && Offset(r', c', cols) < |m|
              && t'[Offset(c', r', rows)] == m[Offset(r', c', cols)]
    {
      if r' == r && c' == c {
      } else if Offset(c', r', rows) == Offset(c, r, rows) {
        OffsetInjective(c', r', c, r, rows);
      }
    }
  }

  /** Once every cell has been copied, t is the transpose of m. */
  lemma TransposedComplete(t: seq<real>, m: seq<real>, rows: nat, cols: nat)
    requires |t| == |m| == rows * cols
    requires TransposedUpTo(t, m, rows, cols, rows, 0)
    ensures t == Transposed(m, rows, cols)
  {
    forall j | 0 <= j < |t|
      ensures t[j] == Transposed(m, rows, cols)[j]
    {
      OffsetSplit(j, cols, rows);
      TransposedCell(m, rows, cols, j % rows, j / rows);
    }
  }

  /** The transposing index map (r, c) |-> c * rows + r sends the cells of a
      rows x cols matrix into its buffer, and (j % rows, j / rows) is its
      two-sided inverse: the map is a bijection between cells and positions. */
  lemma TransposeIndexBijective(rows: nat, cols: nat, r: nat, c: nat, j: nat)
    requires r < rows && c < cols && j < rows * cols
    ensures Offset(c, r, rows) < rows * cols
    ensures Offset(c, r, rows) % rows == r && Offset(c, r, rows) / rows == c
    ensures j % rows < rows && j / rows < cols && Offset(j / rows, j % rows, rows) == j
  {
    OffsetInBounds(c, r, cols, rows);
    OffsetDivMod(c, r, rows);
    OffsetSplit(j, cols, rows);
  }

  /** On the two-dimensional view, transposing swaps row and column. */
  lemma TransposedGrid(m: seq<real>, rows: nat, cols: nat, r: nat, c: nat)
    requires |m| == rows * cols
    requires r < rows && c < cols
    ensures Grid(Transposed(m, rows, cols), cols, rows)[c][r] == Grid(m, rows, cols)[r][c]
  {
    TransposedCell(m, rows, cols, r, c);
    GridCell(m, rows, cols, r, c);
    GridCell(Transposed(m, rows, cols), cols, rows, c, r);
  }

  /** Transposing twice restores the buffer. */
  lemma TransposeInvolution(m: seq<real>, rows: nat, cols: nat)
    requires |m| == rows * cols
    ensures Transposed(Transposed(m, rows, cols), cols, rows) == m
  {
    var t := Transposed(m, rows, cols);
    var t2 := Transposed(t, cols, rows);
    forall i | 0 <= i < |m|
      ensures t2[i] == m[i]
    {
      OffsetSplit(i, rows, cols);
      var r, c := i / cols, i % cols;
      TransposedCell(t, cols, rows, c, r);
      TransposedCell(m, rows, cols, r, c);
    }
  }

  /** Uniform matrices: the sum over k of x * y is n * x * y. */
  lemma {:induction false} RowColSumUniform(a: seq<real>, b: seq<real>, rows: nat, inner: nat, p: nat,
                                            r: nat, c: nat, n: nat, x: real, y: real)
    requires |a| == rows * inner && |b| == inner * p
    requires r < rows && c < p && n <= inner
    requires forall i :: 0 <= i < |a| ==> a[i] == x
    requires forall i :: 0 <= i < |b| ==> b[i] == y
    ensures RowColSum(a, b, rows, inner, p, r, c, n) == n as real * x * y
  {
    if n > 0 {
      RowColSumUniform(a, b, rows, inner, p, r, c, n - 1, x, y);
      OffsetInBounds(r, n - 1, rows, inner);
      OffsetInBounds(n - 1, c, inner, p);
      assert a[Offset(r, n - 1, inner)] * b[Offset(n - 1, c, p)] == x * y;
      assert (n - 1) as real * x * y + x * y == n as real * x * y;
    }
  }

  /** The product of a uniform rows x inner matrix of x and a uniform inner x p
      matrix of y is the uniform rows x p matrix of inner * x * y. */
  lemma MatMulUniform(rows: nat, inner: nat, p: nat, x: real, y: real)
    ensures MatMul(Filled(rows * inner, x), Filled(inner * p, y), rows, inner, p)
         == Filled(rows * p, inner as real * x * y)
  {
    var a, b := Filled(rows * inner, x), Filled(inner * p, y);
    var m := MatMul(a, b, rows, inner, p);
    forall j | 0 <= j < rows * p
      ensures m[j] == inner as real * x * y
    {
      OffsetSplit(j, rows, p);
      var r, c := j / p, j % p;
      assert m[j] == RowColSum(a, b, rows, inner, p, r, c, inner);
      RowColSumUniform(a, b, rows, inner, p, r, c, inner, x, y);
    }
    assert |m| == |Filled(rows * p, inner as real * x * y)|;
  }

  /** The dot product of two uniform buffers of length n is n * x * y. */
  lemma {:induction false} DotUniform(n: nat, x: real, y: real)
    ensures Dot(Filled(n, x), Filled(n, y)) == n as real * x * y
  {
    if n > 0 {
      assert Filled(n, x)[..n - 1] == Filled(n - 1, x);
      assert Filled(n, y)[..n - 1] == Filled(n - 1, y);
      DotUniform(n - 1, x, y);
    }
  }

  /** Transposing a uniform matrix leaves its buffer as it is. */
  lemma TransposedUniform(rows: nat, cols: nat, x: real)
    ensures Transposed(Filled(rows * cols, x), rows, cols) == Filled(rows * cols, x)
  {
    var m := Filled(rows * cols, x);
    var t := Transposed(m, rows, cols);
    forall j | 0 <= j < rows * cols
      ensures t[j] == x
    {
      OffsetSplit(j, cols, rows);
      OffsetInBounds(j % rows, j / rows, rows, cols);
    }
  }
}
