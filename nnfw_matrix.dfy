/** The dense matrix: a flat row-major buffer with its row and column counts,
    its construction, cell access and bulk ingestion, and the operation set
    that updates it in place. */
module Matrix {
  import opened DefType
  import opened RowMajor
  import opened MatrixSpec

  class NnfwMatrix {
    var matrix: seq<real>
    var rows: nat
    var cols: nat

    /** The buffer holds exactly one element per cell. */
    ghost predicate Valid()
      reads this
    {
      |matrix| == rows * cols
    }

    /** `new`: a rows x cols matrix with every cell set to `fill`. */
    constructor (rows: nat, cols: nat, fill: real)
      ensures this.rows == rows && this.cols == cols
      ensures matrix == Filled(rows * cols, fill)
      ensures Valid()
    {
      matrix := Filled(rows * cols, fill);
      this.rows := rows;
      this.cols := cols;
    }

    /** `merge_ethernal`: wraps a buffer whose length matches the shape. */
    constructor MergeEthernal(matrix: seq<real>, rows: nat, cols: nat)
      requires |matrix| == rows * cols
      ensures this.matrix == matrix && this.rows == rows && this.cols == cols
      ensures Valid()
    {
      this.matrix := matrix;
      this.rows := rows;
      this.cols := cols;
    }

    /** `retrive`: the element at flat position r * cols + c. The only demand
        is that this position exists in the buffer; inside the shape the
        element read is cell (r, c) of the two-dimensional view. */
    function Retrive(r: nat, c: nat): (x: real)
      reads this
      requires Offset(r, c, cols) < |matrix|
      ensures Valid() && r < rows && c < cols ==> x == Grid(matrix, rows, cols)[r][c]
    {
      assert Valid() && r < rows && c < cols ==>
          matrix[Offset(r, c, cols)] == Grid(matrix, rows, cols)[r][c] by {
        if Valid() && r < rows && c < cols {
          GridCell(matrix, rows, cols, r, c);
        }
      }
      matrix[Offset(r, c, cols)]
    }

    /** `reclaim`: overwrites the element at flat position r * cols + c with
        the converted value, and nothing else. */
    method Reclaim(r: nat, c: nat, value: Def)
      requires Offset(r, c, cols) < |matrix|
      modifies this`matrix
      ensures matrix == old(matrix)[Offset(r, c, cols) := Compact(value)]
      ensures Retrive(r, c) == Compact(value)
      // The frame, spelled out: it follows from the update above.
      ensures forall i :: 0 <= i < |matrix| && i != Offset(r, c, cols) ==> matrix[i] == old(matrix)[i]
      ensures old(Valid()) ==> Valid()
      ensures old(Valid()) && r < rows && c < cols ==>
                Grid(matrix, rows, cols)
                == Grid(old(matrix), rows, cols)[r := Grid(old(matrix), rows, cols)[r][c := Compact(value)]]
    {
      matrix := matrix[Offset(r, c, cols) := Compact(value)];
      if old(Valid()) && r < rows && c < cols {
        GridUpdate(old(matrix), rows, cols, r, c, Compact(value));
      }
    }

    /** `zero_mat`: a raw rows x cols buffer of zeros. */
    static function ZeroMat(rows: nat, cols: nat): (m: seq<real>)
      ensures |m| == rows * cols
      ensures forall i :: 0 <= i < |m| ==> m[i] == 0.0
    {
      Filled(rows * cols, 0.0)
    }

    /** `ones_mat`: a raw rows x cols buffer of ones. */
    static function OnesMat(rows: nat, cols: nat): (m: seq<real>)
      ensures |m| == rows * cols
      ensures forall i :: 0 <= i < |m| ==> m[i] == 1.0
    {
      Filled(rows * cols, 1.0)
    }

    /** The zero buffer is neutral for `add`, the ones buffer for `hadamard`. */
    static lemma NeutralBuffers(m: seq<real>, rows: nat, cols: nat)
      requires |m| == rows * cols
      ensures Cellwise(Plus, m, ZeroMat(rows, cols)) == m
      ensures Cellwise(Times, m, OnesMat(rows, cols)) == m
    {
    }

    /** `compact`: the numeric value of any alternative. An 8- to 32-bit
        integer, and any wider integer of magnitude at most 2^53, becomes
        exactly its value, as `as f64` converts it without loss; a larger
        integer becomes some whole number between its type's bounds, both
        bounds included, which is all that rounding to `f64` keeps; a float
        payload is kept as it is. */
    static function Compact(value: Def): (x: real)
      ensures value.I1? ==> x == value.i8 as real
      ensures value.I2? ==> x == value.i16 as real
      ensures value.I4? ==> x == value.i32 as real
      ensures value.U1? ==> x == value.u8 as real
      ensures value.U2? ==> x == value.u16 as real
      ensures value.U4? ==> x == value.u32 as real
      ensures !IsFloat(value) && -ExactF64Limit <= IntPayload(value) <= ExactF64Limit ==>
                x == IntPayload(value) as real
      ensures !IsFloat(value) ==> x.Floor as real == x && Lo(value) <= x.Floor <= Hi(value)
      ensures value.F4? ==> x == value.f32
      ensures value.F8? ==> x == value.f64
    {
      match value
      case I1(n) => n as real
      case I2(n) => n as real
      case I4(n) => n as real
      case I8(n) => n as real
      case I16(n) => n as real
      case U1(n) => n as real
      case U2(n) => n as real
      case U4(n) => n as real
      case U8(n) => n as real
      case U16(n) => n as real
      case I(n) => n as real
      case U(n) => n as real
      case F4(y) => y
      case F8(y) => y
    }

    /** `claim_matrix`: overwrites the whole buffer, in order, with the
        converted values of `data`; the old contents play no part. */
    method ClaimMatrix(data: seq<Def>)
      requires Valid()
      requires |data| == rows * cols
      modifies this`matrix
      ensures Valid()
      ensures |matrix| == |data|
      ensures forall i :: 0 <= i < |data| ==> matrix[i] == Compact(data[i])
      ensures forall r: nat, c: nat :: r < rows && c < cols ==>
                Offset(r, c, cols) < |matrix| && Retrive(r, c) == Compact(data[Offset(r, c, cols)])
    {
      for index := 0 to |data|
        invariant |matrix| == |data|
        invariant forall i :: 0 <= i < index ==> matrix[i] == Compact(data[i])
      {
        var x := match data[index]
          case I1(n) => n as real
          case I2(n) => n as real
          case I4(n) => n as real
          case I8(n) => n as real
          case I16(n) => n as real
          case U1(n) => n as real
          case U2(n) => n as real
          case U4(n) => n as real
          case U8(n) => n as real
          case U16(n) => n as real
          case I(n) => n as real
          case U(n) => n as real
          case F4(y) => y
          case F8(y) => y;
        matrix := matrix[index := x];
      }
      forall r: nat, c: nat | r < rows && c < cols
        ensures Offset(r, c, cols) < |matrix| && Retrive(r, c) == Compact(data[Offset(r, c, cols)])
      {
        OffsetInBounds(r, c, rows, cols);
      }
    }

    /** `add`: self[i] += another[i] for every i, after checking equal shapes. */
    method Add(another: NnfwMatrix)
      requires another != this
      requires Valid() && another.Valid()
      requires rows == another.rows && cols == another.cols
      modifies this`matrix
      ensures matrix == Cellwise(Plus, old(matrix), another.matrix)
      ensures Valid() && unchanged(another)
    {
      for i := 0 to |matrix|
        invariant |matrix| == |old(matrix)|
        invariant forall j :: 0 <= j < i ==> matrix[j] == old(matrix)[j] + another.matrix[j]
        invariant forall j :: i <= j < |matrix| ==> matrix[j] == old(matrix)[j]
      {
        matrix := matrix[i := matrix[i] + another.matrix[i]];
      }
    }

    /** `subtract`: self[i] -= another[i] for every i, after checking equal shapes. */
    method Subtract(another: NnfwMatrix)
      requires another != this
      requires Valid() && another.Valid()
      requires rows == another.rows && cols == another.cols
      modifies this`matrix
      ensures matrix == Cellwise(Minus, old(matrix), another.matrix)
      ensures Valid() && unchanged(another)
    {
      for i := 0 to |matrix|
        invariant |matrix| == |old(matrix)|
        invariant forall j :: 0 <= j < i ==> matrix[j] == old(matrix)[j] - another.matrix[j]
        invariant forall j :: i <= j < |matrix| ==> matrix[j] == old(matrix)[j]
      {
        matrix := matrix[i := matrix[i] - another.matrix[i]];
      }
    }

    /** `hadamard`: self[i] *= another[i] for every i, after checking equal shapes. */
    method Hadamard(another: NnfwMatrix)
      requires another != this
      requires Valid() && another.Valid()
      requires rows == another.rows && cols == another.cols
      modifies this`matrix
      ensures matrix == Cellwise(Times, old(matrix), another.matrix)
      ensures Valid() && unchanged(another)
    {
      for i := 0 to |matrix|
        invariant |matrix| == |old(matrix)|
        invariant forall j :: 0 <= j < i ==> matrix[j] == old(matrix)[j] * another.matrix[j]
        invariant forall j :: i <= j < |matrix| ==> matrix[j] == old(matrix)[j]
      {
        matrix := matrix[i := matrix[i] * another.matrix[i]];
      }
    }

    /** `divide_scalar`: every element divided by a non-zero value. */
    method DivideScalar(value: real)
      requires value != 0.0
      modifies this`matrix
      ensures matrix == Quotient(old(matrix), value)
      ensures old(Valid()) ==> Valid()
    {
      for i := 0 to |matrix|
        invariant |matrix| == |old(matrix)|
        invariant forall j :: 0 <= j < i ==> matrix[j] == old(matrix)[j] / value
        invariant forall j :: i <= j < |matrix| ==> matrix[j] == old(matrix)[j]
      {
        matrix := matrix[i := matrix[i] / value];
      }
    }

    /** `matmul`: (m x n) . (n x p) -> (m x p). The product is built in a new
        buffer, which then replaces the buffer and the shape together. */
    method Matmul(another: NnfwMatrix)
      requires another != this
      requires cols == another.rows
      requires Valid() && another.Valid()
      modifies this
      ensures rows == old(rows) && cols == another.cols
      ensures matrix == MatMul(old(matrix), another.matrix, old(rows), old(cols), another.cols)
      ensures Valid() && unchanged(another)
    {
      var a, b, inner := matrix, another.matrix, cols;
      var resultRows, resultCols := rows, another.cols;
      ghost var product := MatMul(a, b, resultRows, inner, resultCols);
      var result := Filled(resultRows * resultCols, 0.0);
      for r := 0 to resultRows
        invariant |result| == resultRows * resultCols
        invariant PrefixAgrees(result, product, Offset(r, 0, resultCols))
      {
        for c := 0 to resultCols
          invariant |result| == resultRows * resultCols
          invariant PrefixAgrees(result, product, Offset(r, c, resultCols))
        {
          var sum := 0.0;
          for k := 0 to inner
            invariant sum == RowColSum(a, b, resultRows, inner, resultCols, r, c, k)
          {
            OffsetInBounds(r, k, resultRows, inner);
            OffsetInBounds(k, c, inner, resultCols);
            sum := sum + a[Offset(r, k, inner)] * b[Offset(k, c, resultCols)];
          }
          MatMulCell(a, b, resultRows, inner, resultCols, r, c);
          PrefixExtend(result, product, Offset(r, c, resultCols), sum);
          result := result[Offset(r, c, resultCols) := sum];
        }
        RowNext(r, resultCols);
      }
      PrefixComplete(result, product);
      matrix := result;
      rows := resultRows;
      cols := resultCols;
    }

    /** `dot_product`: Σ_i self[i] * another[i] over two equally shaped
        matrices; neither is changed. */
    method DotProduct(another: NnfwMatrix) returns (sum: real)
      requires rows == another.rows && cols == another.cols
      requires Valid() && another.Valid()
      ensures sum == Dot(matrix, another.matrix)
    {
      sum := 0.0;
      for i := 0 to |matrix|
        invariant sum == Dot(matrix[..i], another.matrix[..i])
      {
        assert matrix[..i + 1][..i] == matrix[..i];
        assert another.matrix[..i + 1][..i] == another.matrix[..i];
        sum := sum + matrix[i] * another.matrix[i];
      }
      assert matrix[..|matrix|] == matrix;
      assert another.matrix[..|matrix|] == another.matrix;
    }

    /** `transpose`: cell (r, c) moves to flat position c * rows + r of a new
        buffer; once the buffer is complete the dimensions are swapped. */
    method Transpose()
      requires Valid()
      modifies this
      ensures rows == old(cols) && cols == old(rows)
      ensures matrix == Transposed(old(matrix), old(rows), old(cols))
      ensures Valid()
    {
      var m, height, width := matrix, rows, cols;
      var result := Filled(height * width, 0.0);
      for r := 0 to height
        invariant |result| == height * width
        invariant TransposedUpTo(result, m, height, width, r, 0)
      {
        for c := 0 to width
          invariant |result| == height * width
          invariant TransposedUpTo(result, m, height, width, r, c)
        {
          TransposeStep(result, m, height, width, r, c);
          result := result[Offset(c, r, height) := m[Offset(r, c, width)]];
        }
      }
      TransposedComplete(result, m, height, width);
      matrix := result;
      rows, cols := width, height;
    }
  }
}
