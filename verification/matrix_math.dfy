/**
 * The dense-matrix utilities of RTFEM's MatrixMath: contraction (deleting one row
 * and one column), transposition and the determinant by cofactor expansion.
 *
 * A matrix carries explicit row and column counts, as the C++ Matrix does, so a
 * 0 x n or n x 0 matrix keeps its shape. Entries are exact integers standing for
 * the source's Float.
 */
module MatrixMath {
  import opened Results

  /** The two exceptions the utilities throw: std::out_of_range and std::invalid_argument. */
  datatype MathError = OutOfRange | InvalidArgument

  /** Row-major storage with its declared dimensions. */
  datatype Dense = Dense(rowCount: nat, columnCount: nat, entries: seq<seq<int>>)

  /** The storage has exactly rowCount rows of columnCount entries each. */
  predicate Shaped(d: Dense) {
    && |d.entries| == d.rowCount
    && forall i :: 0 <= i < |d.entries| ==> |d.entries[i]| == d.columnCount
  }

  type Matrix = d: Dense | Shaped(d) witness Dense(0, 0, [])

  /** A matrix with as many rows as columns. */
  predicate Square(m: Matrix) {
    m.rowCount == m.columnCount
  }

  /** A zero-filled rows x columns starting matrix; the scatter loops overwrite every entry. */
  function Zero(rows: nat, columns: nat): (z: Matrix)
    ensures z.rowCount == rows && z.columnCount == columns
    ensures forall i, j :: 0 <= i < rows && 0 <= j < columns ==> z.entries[i][j] == 0
  {
    Dense(rows, columns, seq(rows, _ => seq(columns, _ => 0)))
  }

  /** Two matrices of the same shape with the same entries are the same matrix. */
  lemma Extensionality(a: Matrix, b: Matrix)
    requires a.rowCount == b.rowCount && a.columnCount == b.columnCount
    requires forall i, j :: 0 <= i < a.rowCount && 0 <= j < a.columnCount ==> a.entries[i][j] == b.entries[i][j]
    ensures a == b
  {
    forall i | 0 <= i < a.rowCount
      ensures a.entries[i] == b.entries[i]
    {
      assert forall j :: 0 <= j < a.columnCount ==> a.entries[i][j] == b.entries[i][j];
    }
    assert a.entries == b.entries;
  }

  /** Position in the original matrix of index k of the contracted one, when index `removed` was deleted. */
  function OriginalIndex(k: nat, removed: nat): nat {
    if k >= removed then k + 1 else k
  }

  /** Position in the contracted matrix of original index k (k != removed): `k > removed ? k - 1 : k`. */
  function ContractedIndex(k: nat, removed: nat): nat {
    if k > removed then k - 1 else k
  }

  /** Contracting an index and mapping it back is the identity, for every index except the removed one. */
  lemma IndexRoundTrip(k: nat, removed: nat)
    ensures ContractedIndex(OriginalIndex(k, removed), removed) == k
    ensures k != removed ==> OriginalIndex(ContractedIndex(k, removed), removed) == k
  {
  }

  /**
   * The matrix with row `row` and column `column` deleted, the rest kept in order.
   * Defined whenever the deleted row and column exist; the C++ function adds the
   * error checks (see Contract).
   */
  function Minor(m: Matrix, row: nat, column: nat): (c: Matrix)
    requires row < m.rowCount && column < m.columnCount
    ensures c.rowCount == m.rowCount - 1 && c.columnCount == m.columnCount - 1
    ensures forall i, j :: 0 <= i < c.rowCount && 0 <= j < c.columnCount ==>
              c.entries[i][j] == m.entries[OriginalIndex(i, row)][OriginalIndex(j, column)]
  {
    Dense(m.rowCount - 1, m.columnCount - 1,
          seq(m.rowCount - 1, i requires 0 <= i < m.rowCount - 1 =>
            seq(m.columnCount - 1, j requires 0 <= j < m.columnCount - 1 =>
              m.entries[OriginalIndex(i, row)][OriginalIndex(j, column)])))
  }

  /**
   * Every entry outside the deleted row and column survives, at the position the C++ loop
   * writes it to; with the dimensions of Minor this accounts for every entry of the result.
   */
  lemma MinorKeepsOtherEntries(m: Matrix, row: nat, column: nat)
    requires row < m.rowCount && column < m.columnCount
    ensures forall i: nat, j: nat :: i < m.rowCount && j < m.columnCount && i != row && j != column ==>
              Minor(m, row, column).entries[ContractedIndex(i, row)][ContractedIndex(j, column)] == m.entries[i][j]
  {
    forall i: nat, j: nat | i < m.rowCount && j < m.columnCount && i != row && j != column
      ensures Minor(m, row, column).entries[ContractedIndex(i, row)][ContractedIndex(j, column)] == m.entries[i][j]
    {
      IndexRoundTrip(i, row);
      IndexRoundTrip(j, column);
    }
  }

  /**
   * MatrixMath::ContractMatrix. The index check comes first and raises OutOfRange;
   * only then does a dimension of 1 raise InvalidArgument; otherwise the minor.
   */
  function Contract(m: Matrix, row: nat, column: nat): (r: Result<Matrix, MathError>)
    ensures r == Failure(OutOfRange) <==> row >= m.rowCount || column >= m.columnCount
    ensures r == Failure(InvalidArgument) <==>
              row < m.rowCount && column < m.columnCount && (m.rowCount == 1 || m.columnCount == 1)
    ensures r.Success? ==> m.rowCount >= 2 && m.columnCount >= 2
    ensures r.Success? ==> r.value.rowCount == m.rowCount - 1 && r.value.columnCount == m.columnCount - 1
    ensures r.Success? ==> r.value == Minor(m, row, column)
  {
    if row >= m.rowCount || column >= m.columnCount then Failure(OutOfRange)
    else if m.rowCount == 1 || m.columnCount == 1 then Failure(InvalidArgument)
    else Success(Minor(m, row, column))
  }

  /**
   * ContractMatrix as the C++ loops compute it: visit every original entry outside the
   * deleted row and column and write it to its contracted position.
   */
  method ContractByScatter(m: Matrix, row: nat, column: nat) returns (r: Result<Matrix, MathError>)
    ensures r == Contract(m, row, column)
  {
    if row >= m.rowCount || column >= m.columnCount {
      return Failure(OutOfRange);
    }
    if m.rowCount == 1 || m.columnCount == 1 {
      return Failure(InvalidArgument);
    }
    var rows, columns := m.rowCount - 1, m.columnCount - 1;
    var out := Zero(rows, columns).entries;
    var i := 0;
    while i < m.rowCount
      invariant 0 <= i <= m.rowCount
      invariant |out| == rows && forall k :: 0 <= k < rows ==> |out[k]| == columns
      invariant forall ci, cj {:trigger out[ci][cj]} :: 0 <= ci < rows && 0 <= cj < columns ==>
                  out[ci][cj] == if OriginalIndex(ci, row) < i
                                 then m.entries[OriginalIndex(ci, row)][OriginalIndex(cj, column)] else 0
    {
      if i != row {
        var j := 0;
        while j < m.columnCount
          invariant 0 <= j <= m.columnCount
          invariant |out| == rows && forall k :: 0 <= k < rows ==> |out[k]| == columns
          invariant forall ci, cj {:trigger out[ci][cj]} :: 0 <= ci < rows && 0 <= cj < columns ==>
                      out[ci][cj] == if OriginalIndex(ci, row) < i
                                        || (OriginalIndex(ci, row) == i && OriginalIndex(cj, column) < j)
                                     then m.entries[OriginalIndex(ci, row)][OriginalIndex(cj, column)] else 0
        {
          if j != column {
            var ci := ContractedIndex(i, row);
            var cj := ContractedIndex(j, column);
            out := out[ci := out[ci][cj := m.entries[i][j]]];
          }
          j := j + 1;
        }
      }
      i := i + 1;
    }
    var c := Dense(rows, columns, out);
    Extensionality(c, Minor(m, row, column));
    return Success(c);
  }

  /** MatrixMath::Transpose: the columns x rows matrix whose entry (j, i) is entry (i, j) of m. */
  function Transpose(m: Matrix): (t: Matrix)
    ensures t.rowCount == m.columnCount && t.columnCount == m.rowCount
    ensures forall i, j :: 0 <= i < m.rowCount && 0 <= j < m.columnCount ==> t.entries[j][i] == m.entries[i][j]
  {
    Dense(m.columnCount, m.rowCount,
          seq(m.columnCount, j requires 0 <= j < m.columnCount =>
            seq(m.rowCount, i requires 0 <= i < m.rowCount => m.entries[i][j])))
  }

  /** Transposing twice gives back the matrix, shape included. */
  lemma TransposeInvolution(m: Matrix)
    ensures Transpose(Transpose(m)) == m
  {
    Extensionality(Transpose(Transpose(m)), m);
  }

  /** Transpose as the C++ loops compute it: write each entry (i, j) to position (j, i). */
  method TransposeByScatter(m: Matrix) returns (t: Matrix)
    ensures t == Transpose(m)
  {
    var out := Zero(m.columnCount, m.rowCount).entries;
    var i := 0;
    while i < m.rowCount
      invariant 0 <= i <= m.rowCount
      invariant |out| == m.columnCount && forall k :: 0 <= k < m.columnCount ==> |out[k]| == m.rowCount
      invariant forall tj, ti {:trigger out[tj][ti]} :: 0 <= tj < m.columnCount && 0 <= ti < m.rowCount ==>
                  out[tj][ti] == if ti < i then m.entries[ti][tj] else 0
    {
      var j := 0;
      while j < m.columnCount
        invariant 0 <= j <= m.columnCount
        invariant |out| == m.columnCount && forall k :: 0 <= k < m.columnCount ==> |out[k]| == m.rowCount
        invariant forall tj, ti {:trigger out[tj][ti]} :: 0 <= tj < m.columnCount && 0 <= ti < m.rowCount ==>
                    out[tj][ti] == if ti < i || (ti == i && tj < j) then m.entries[ti][tj] else 0
      {
        out := out[j := out[j][i := m.entries[i][j]]];
        j := j + 1;
      }
      i := i + 1;
    }
    t := Dense(m.columnCount, m.rowCount, out);
    Extensionality(t, Transpose(m));
  }

  /** Deleting row r and column c, then transposing, is deleting row c and column r of the transpose. */
  lemma MinorTranspose(m: Matrix, row: nat, column: nat)
    requires row < m.rowCount && column < m.columnCount
    ensures Minor(Transpose(m), column, row) == Transpose(Minor(m, row, column))
  {
    Extensionality(Minor(Transpose(m), column, row), Transpose(Minor(m, row, column)));
  }

  /** Contraction commutes with transposition, error cases included. */
  lemma ContractTranspose(m: Matrix, row: nat, column: nat)
    ensures Contract(Transpose(m), column, row).Failure? <==> Contract(m, row, column).Failure?
    ensures Contract(m, row, column).Failure? ==>
              Contract(Transpose(m), column, row).error == Contract(m, row, column).error
    ensures Contract(m, row, column).Success? ==>
              Contract(Transpose(m), column, row).value == Transpose(Contract(m, row, column).value)
  {
    if Contract(m, row, column).Success? {
      MinorTranspose(m, row, column);
    }
  }

  /** The alternating factor of the cofactor expansion: the C++ `even_counter` at step k. */
  function Sign(k: nat): (s: int)
    ensures s == 1 || s == -1
    ensures k > 0 ==> s == -Sign(k - 1)
    ensures s == 1 <==> k % 2 == 0
  {
    if k % 2 == 0 then 1 else -1
  }

  /** Step k of a cofactor expansion: the alternating sign times an entry times the determinant of its minor. */
  function Cofactor(k: nat, entry: int, minor: int): int {
    Sign(k) * entry * minor
  }

  /**
   * The guard of MatrixMath::ComputeDeterminant2 as written (`row_count != 2 && column_count != 2`
   * throws): a matrix passes when EITHER dimension is 2. The caller must supply the four entries
   * the function then reads.
   */
  function Determinant2AsWritten(m: Matrix): (r: Result<int, MathError>)
    requires m.rowCount == 2 || m.columnCount == 2 ==> m.rowCount >= 2 && m.columnCount >= 2
    ensures r.Failure? <==> m.rowCount != 2 && m.columnCount != 2
    ensures r.Failure? ==> r.error == InvalidArgument
    ensures r.Success? ==>
              r.value == m.entries[0][0] * m.entries[1][1] - m.entries[0][1] * m.entries[1][0]
  {
    if m.rowCount != 2 && m.columnCount != 2 then Failure(InvalidArgument)
    else Success(m.entries[0][0] * m.entries[1][1] - m.entries[0][1] * m.entries[1][0])
  }

  /** The as-written guard lets a 2 x 3 matrix through and returns a "determinant" for it. */
  lemma Determinant2AsWrittenAcceptsNonSquare()
    ensures var m: Matrix := Dense(2, 3, [[1, 2, 3], [4, 5, 6]]);
            Determinant2AsWritten(m) == Success(-3) && Determinant2(m) == Failure(InvalidArgument)
  {
  }

  /** ComputeDeterminant2 with the guard its message states: exactly 2 x 2, closed form. */
  function Determinant2(m: Matrix): (r: Result<int, MathError>)
    ensures r.Failure? <==> !(m.rowCount == 2 && m.columnCount == 2)
    ensures r.Failure? ==> r.error == InvalidArgument
    ensures r.Success? ==>
              r.value == m.entries[0][0] * m.entries[1][1] - m.entries[0][1] * m.entries[1][0]
  {
    if m.rowCount != 2 || m.columnCount != 2 then Failure(InvalidArgument)
    else Success(m.entries[0][0] * m.entries[1][1] - m.entries[0][1] * m.entries[1][0])
  }

  /**
   * MatrixMath::ComputeDeterminant. Non-square input raises InvalidArgument; 2 x 2 uses the
   * closed form; otherwise cofactor expansion along row 0. A 1 x 1 matrix has no base case:
   * its expansion contracts it and fails with InvalidArgument. A 0 x 0 matrix expands to 0.
   */
  function Determinant(m: Matrix): (r: Result<int, MathError>)
    ensures r.Failure? <==> !Square(m) || m.rowCount == 1
    ensures r.Failure? ==> r.error == InvalidArgument
    ensures m.rowCount == 0 && m.columnCount == 0 ==> r == Success(0)
    decreases m.rowCount, m.columnCount + 1
  {
    if !Square(m) then Failure(InvalidArgument)
    else if m.rowCount == 2 then Determinant2(m)
    else Expansion(m, m.rowCount)
  }

  /** A 2 x 2 matrix takes the closed-form base case. */
  lemma DeterminantOfTwoByTwo(m: Matrix)
    requires m.rowCount == 2 && m.columnCount == 2
    ensures Determinant(m) == Success(m.entries[0][0] * m.entries[1][1] - m.entries[0][1] * m.entries[1][0])
  {
  }

  /**
   * The first k steps of the expansion loop of ComputeDeterminant: the sum over i < k of
   * Sign(i) * m[0][i] * det(Contract(m, 0, i)), failing at the first step that throws.
   */
  function Expansion(m: Matrix, k: nat): (r: Result<int, MathError>)
    requires Square(m) && k <= m.columnCount
    ensures r.Failure? <==> k > 0 && m.rowCount <= 2
    ensures r.Failure? ==> r.error == InvalidArgument
    decreases m.rowCount, k
  {
    if k == 0 then Success(0)
    else
      var previous :- Expansion(m, k - 1);
      var contracted :- Contract(m, 0, k - 1);
      var minor :- Determinant(contracted);
      Success(previous + Cofactor(k - 1, m.entries[0][k - 1], minor))
  }

  /** One more step of the expansion loop, when the contraction and its determinant succeed. */
  lemma ExpansionNext(m: Matrix, k: nat, previous: int, contracted: Matrix, minor: int)
    requires Square(m) && k < m.columnCount
    requires Expansion(m, k) == Success(previous)
    requires Contract(m, 0, k) == Success(contracted)
    requires Determinant(contracted) == Success(minor)
    ensures Expansion(m, k + 1) == Success(previous + Cofactor(k, m.entries[0][k], minor))
  {
  }

  /**
   * ComputeDeterminant as the C++ loop computes it, with the running `even_counter`
   * and accumulated `determinant`, recursing on each contracted matrix.
   */
  method DeterminantByLoop(m: Matrix) returns (r: Result<int, MathError>)
    ensures r == Determinant(m)
    decreases m.rowCount
  {
    if !Square(m) {
      return Failure(InvalidArgument);
    }
    if m.rowCount == 2 {
      return Determinant2(m);
    }
    var evenCounter := 1;
    var determinant := 0;
    var i := 0;
    while i < m.rowCount
      invariant 0 <= i <= m.rowCount
      invariant evenCounter == Sign(i)
      invariant Expansion(m, i) == Success(determinant)
    {
      var a := m.entries[0][i];
      var contracted := Contract(m, 0, i);
      if contracted.Failure? {
        return Failure(contracted.error);
      }
      // The contracted matrix is square and at least 2 x 2 here, so its determinant exists.
      var minor := DeterminantByLoop(contracted.value);
      ExpansionNext(m, i, determinant, contracted.value, minor.value);
      determinant := determinant + evenCounter * a * minor.value;
      evenCounter := -evenCounter;
      i := i + 1;
    }
    return Success(determinant);
  }
}
