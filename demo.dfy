/** Client code: the walk-through scenarios of the matrix engine, written
    against the contracts of `NnfwMatrix` alone. Values are exact in real
    arithmetic. */
module Demo {
  import opened DefType
  import opened RowMajor
  import opened MatrixSpec
  import opened Matrix

  /** A 4 x 5 matrix of 3.3 plus a 4 x 5 matrix of 5.7 is a 4 x 5 matrix of 9.0. */
  method AddExample() returns (buffer: seq<real>)
    ensures buffer == Filled(20, 9.0)
  {
    var n := new NnfwMatrix(4, 5, 3.3);
    var m := new NnfwMatrix(4, 5, 5.7);
    n.Add(m);
    buffer := n.matrix;
  }

  /** The same pair subtracted gives a 4 x 5 matrix of -2.4. */
  method SubtractExample() returns (buffer: seq<real>)
    ensures buffer == Filled(20, -2.4)
  {
    var n := new NnfwMatrix(4, 5, 3.3);
    var m := new NnfwMatrix(4, 5, 5.7);
    n.Subtract(m);
    buffer := n.matrix;
  }

  /** A 4 x 5 matrix of 3.3 times a 5 x 5 matrix of 4.5 is a 4 x 5 matrix of
      3.3 * 4.5 * 5 = 74.25. */
  method MatmulExample() returns (buffer: seq<real>, rows: nat, cols: nat)
    ensures rows == 4 && cols == 5
    ensures buffer == Filled(20, 74.25)
  {
    var n := new NnfwMatrix(4, 5, 3.3);
    var m := new NnfwMatrix(5, 5, 4.5);
    n.Matmul(m);
    MatMulUniform(4, 5, 5, 3.3, 4.5);
    buffer, rows, cols := n.matrix, n.rows, n.cols;
  }

  /** Ingesting I2(1), I4(2), U16(3) into a 1 x 3 matrix gives [1.0, 2.0, 3.0]. */
  method IngestionExample() returns (buffer: seq<real>)
    ensures buffer == [1.0, 2.0, 3.0]
  {
    var n := new NnfwMatrix(1, 3, 0.0);
    n.ClaimMatrix([I2(1), I4(2), U16(3)]);
    buffer := n.matrix;
  }

  /** Transposing twice restores both the values and the shape. */
  method TransposeTwice(n: NnfwMatrix)
    requires n.Valid()
    modifies n
    ensures n.matrix == old(n.matrix) && n.rows == old(n.rows) && n.cols == old(n.cols)
    ensures n.Valid()
  {
    n.Transpose();
    n.Transpose();
    TransposeInvolution(old(n.matrix), old(n.rows), old(n.cols));
  }
}
