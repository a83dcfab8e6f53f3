/**
 * Laws of the determinant computed by MatrixMath::ComputeDeterminant.
 *
 * `Det` is the textbook Laplace determinant (expansion along row 0, with the
 * empty matrix having determinant 1). ComputeDeterminant agrees with it on every
 * square matrix of size at least 2. Expansion along column 0 gives the same value,
 * and from that the determinant of a transpose equals the determinant.
 */
module DeterminantLaws {
  import opened Results
  import opened MatrixMath

  /** Sum of a sequence, last element peeled off first. */
  function SumSeq(s: seq<int>): int
    decreases |s|
  {
    if |s| == 0 then 0 else SumSeq(s[..|s| - 1]) + s[|s| - 1]
  }

  /** Reference determinant: Laplace expansion along row 0. */
  function Det(m: Matrix): int
    requires Square(m)
    decreases m.rowCount, 1
  {
    if m.rowCount == 0 then 1 else SumSeq(RowTerms(m))
  }

  /** The cofactor terms of row 0: Cofactor(j, m[0][j], Det(minor at (0, j))). */
  function RowTerms(m: Matrix): (t: seq<int>)
    requires Square(m) && m.rowCount >= 1
    ensures |t| == m.rowCount
    decreases m.rowCount, 0
  {
    seq(m.rowCount, j requires 0 <= j < m.rowCount => Cofactor(j, m.entries[0][j], Det(Minor(m, 0, j))))
  }

  /** The cofactor terms of column 0: Cofactor(i, m[i][0], Det(minor at (i, 0))). */
  function ColumnTerms(m: Matrix): (t: seq<int>)
    requires Square(m) && m.rowCount >= 1
    ensures |t| == m.rowCount
  {
    seq(m.rowCount, i requires 0 <= i < m.rowCount => Cofactor(i, m.entries[i][0], Det(Minor(m, i, 0))))
  }

  /** Laplace expansion along column 0. */
  function ColumnDet(m: Matrix): int
    requires Square(m)
  {
    if m.rowCount == 0 then 1 else SumSeq(ColumnTerms(m))
  }

  /** Column j of a rectangular grid of integers. */
  function Column(g: seq<seq<int>>, width: nat, j: nat): (c: seq<int>)
    requires forall i :: 0 <= i < |g| ==> |g[i]| == width
    requires j < width
    ensures |c| == |g| && forall i :: 0 <= i < |g| ==> c[i] == g[i][j]
  {
    seq(|g|, i requires 0 <= i < |g| => g[i][j])
  }

  lemma {:induction false} SumSeqFirst(s: seq<int>)
    requires |s| >= 1
    ensures SumSeq(s) == s[0] + SumSeq(s[1..])
    decreases |s|
  {
    if |s| == 1 {
      assert s[..0] == [];
      assert s[1..] == [];
    } else {
      SumSeqFirst(s[..|s| - 1]);
      assert s[..|s| - 1][1..] == s[1..][..|s| - 2];
    }
  }

  lemma SumSeqPrefix(s: seq<int>, k: nat)
    requires 0 < k <= |s|
    ensures SumSeq(s[..k]) == SumSeq(s[..k - 1]) + s[k - 1]
  {
    assert s[..k][..k - 1] == s[..k - 1];
  }

  lemma {:induction false} SumSeqScale(c: int, s: seq<int>, t: seq<int>)
    requires |t| == |s| && forall i :: 0 <= i < |s| ==> t[i] == c * s[i]
    ensures SumSeq(t) == c * SumSeq(s)
    decreases |s|
  {
    if |s| > 0 {
      SumSeqScale(c, s[..|s| - 1], t[..|t| - 1]);
    }
  }

  lemma {:induction false} SumSeqAdd(s: seq<int>, t: seq<int>, u: seq<int>)
    requires |s| == |t| == |u| && forall i :: 0 <= i < |u| ==> u[i] == s[i] + t[i]
    ensures SumSeq(u) == SumSeq(s) + SumSeq(t)
    decreases |u|
  {
    if |u| > 0 {
      SumSeqAdd(s[..|s| - 1], t[..|t| - 1], u[..|u| - 1]);
    }
  }

  /** Summing a grid row by row or column by column gives the same total. */
  lemma {:induction false} SumSeqSwap(g: seq<seq<int>>, width: nat, rowSums: seq<int>, columnSums: seq<int>)
    requires forall i :: 0 <= i < |g| ==> |g[i]| == width
    requires |rowSums| == |g| && forall i :: 0 <= i < |g| ==> rowSums[i] == SumSeq(g[i])
    requires |columnSums| == width && forall j :: 0 <= j < width ==> columnSums[j] == SumSeq(Column(g, width, j))
    ensures SumSeq(rowSums) == SumSeq(columnSums)
    decreases |g|
  {
    if |g| == 0 {
      SumSeqScale(0, columnSums, columnSums);
    } else {
      var last := |g| - 1;
      var g' := g[..last];
      var columnSums' := seq(width, j requires 0 <= j < width => SumSeq(Column(g', width, j)));
      assert SumSeq(columnSums) == SumSeq(columnSums') + SumSeq(g[last]) by {
        forall j | 0 <= j < width
          ensures columnSums[j] == columnSums'[j] + g[last][j]
        {
          ColumnWithoutLast(g, width, j);
        }
        SumSeqAdd(columnSums', g[last], columnSums);
      }
      assert SumSeq(rowSums) == SumSeq(rowSums[..last]) + SumSeq(g[last]);
      SumSeqSwap(g', width, rowSums[..last], columnSums');
    }
  }

  /** A column sum is the column sum of all rows but the last, plus the last row's entry. */
  lemma ColumnWithoutLast(g: seq<seq<int>>, width: nat, j: nat)
    requires |g| > 0 && forall i :: 0 <= i < |g| ==> |g[i]| == width
    requires j < width
    ensures SumSeq(Column(g, width, j)) == SumSeq(Column(g[..|g| - 1], width, j)) + g[|g| - 1][j]
  {
    assert Column(g, width, j)[..|g| - 1] == Column(g[..|g| - 1], width, j);
  }

  /** Deleting row 0 and column j+1, then row i and column 0, is deleting row i+1 and column 0, then row 0 and column j. */
  lemma MinorsCommute(m: Matrix, i: nat, j: nat)
    requires m.rowCount >= 2 && m.columnCount >= 2
    requires i < m.rowCount - 1 && j < m.columnCount - 1
    ensures Minor(Minor(m, 0, j + 1), i, 0) == Minor(Minor(m, i + 1, 0), 0, j)
  {
    var a := Minor(Minor(m, 0, j + 1), i, 0);
    var b := Minor(Minor(m, i + 1, 0), 0, j);
    forall r, c | 0 <= r < a.rowCount && 0 <= c < a.columnCount
      ensures a.entries[r][c] == b.entries[r][c]
    {
      MinorsCommuteAt(m, i, j, r, c);
    }
    Extensionality(a, b);
  }

  lemma MinorsCommuteAt(m: Matrix, i: nat, j: nat, r: nat, c: nat)
    requires m.rowCount >= 2 && m.columnCount >= 2
    requires i < m.rowCount - 1 && j < m.columnCount - 1
    requires r < m.rowCount - 2 && c < m.columnCount - 2
    ensures Minor(Minor(m, 0, j + 1), i, 0).entries[r][c] == Minor(Minor(m, i + 1, 0), 0, j).entries[r][c]
  {
    RowFirstEntry(m, i, j, r, c);
    ColumnFirstEntry(m, i, j, r, c);
  }

  /** Entry (r, c) after deleting row 0 and column j+1, then row i and column 0. */
  lemma RowFirstEntry(m: Matrix, i: nat, j: nat, r: nat, c: nat)
    requires m.rowCount >= 2 && m.columnCount >= 2
    requires i < m.rowCount - 1 && j < m.columnCount - 1
    requires r < m.rowCount - 2 && c < m.columnCount - 2
    ensures Minor(Minor(m, 0, j + 1), i, 0).entries[r][c] == m.entries[OriginalIndex(r, i) + 1][OriginalIndex(c, j) + 1]
  {
    var top := Minor(m, 0, j + 1);
    var x := OriginalIndex(r, i);
    assert top.entries[x][c + 1] == m.entries[x + 1][OriginalIndex(c, j) + 1] by {
      assert OriginalIndex(x, 0) == x + 1 && OriginalIndex(c + 1, j + 1) == OriginalIndex(c, j) + 1;
      MinorEntry(m, 0, j + 1, x, c + 1);
    }
    assert OriginalIndex(c, 0) == c + 1;
    MinorEntry(top, i, 0, r, c);
  }

  /** Entry (r, c) after deleting row i+1 and column 0, then row 0 and column j. */
  lemma ColumnFirstEntry(m: Matrix, i: nat, j: nat, r: nat, c: nat)
    requires m.rowCount >= 2 && m.columnCount >= 2
    requires i < m.rowCount - 1 && j < m.columnCount - 1
    requires r < m.rowCount - 2 && c < m.columnCount - 2
    ensures Minor(Minor(m, i + 1, 0), 0, j).entries[r][c] == m.entries[OriginalIndex(r, i) + 1][OriginalIndex(c, j) + 1]
  {
    var left := Minor(m, i + 1, 0);
    var y := OriginalIndex(c, j);
    assert left.entries[r + 1][y] == m.entries[OriginalIndex(r, i) + 1][y + 1] by {
      assert OriginalIndex(r + 1, i + 1) == OriginalIndex(r, i) + 1 && OriginalIndex(y, 0) == y + 1;
      MinorEntry(m, i + 1, 0, r + 1, y);
    }
    assert OriginalIndex(r, 0) == r + 1;
    MinorEntry(left, 0, j, r, c);
  }

  lemma MinorEntry(m: Matrix, row: nat, column: nat, i: nat, j: nat)
    requires row < m.rowCount && column < m.columnCount
    requires i < m.rowCount - 1 && j < m.columnCount - 1
    ensures Minor(m, row, column).entries[i][j] == m.entries[OriginalIndex(i, row)][OriginalIndex(j, column)]
  {
  }

  lemma ProductRearrange(si: int, sj: int, x: int, y: int, d: int)
    ensures (-sj) * y * (si * x * d) == (-si) * x * (sj * y * d)
  {
  }

  /** The two-sided cofactor term shared by both expansions, for rows i+1 and columns j+1. */
  function CrossTerm(m: Matrix, i: nat, j: nat): int
    requires Square(m) && m.rowCount >= 2 && i < m.rowCount - 1 && j < m.rowCount - 1
  {
    (-Sign(i)) * m.entries[i + 1][0] * (Sign(j) * m.entries[0][j + 1] * Det(Minor(Minor(m, 0, j + 1), i, 0)))
  }

  /** The grid of all cross terms: row i holds the terms of rows i+1, column j those of column j+1. */
  function CrossGrid(m: Matrix): (g: seq<seq<int>>)
    requires Square(m) && m.rowCount >= 2
    ensures |g| == m.rowCount - 1 && forall i :: 0 <= i < |g| ==> |g[i]| == m.rowCount - 1
  {
    seq(m.rowCount - 1, i requires 0 <= i < m.rowCount - 1 =>
      seq(m.rowCount - 1, j requires 0 <= j < m.rowCount - 1 => CrossTerm(m, i, j)))
  }

  lemma CrossTermOfColumnTerm(m: Matrix, i: nat, j: nat)
    requires Square(m) && m.rowCount >= 2 && i < m.rowCount - 1 && j < m.rowCount - 1
    ensures CrossTerm(m, i, j) == Sign(j + 1) * m.entries[0][j + 1] * ColumnTerms(Minor(m, 0, j + 1))[i]
  {
    var b := Minor(m, 0, j + 1);
    var d := Det(Minor(b, i, 0));
    assert b.entries[i][0] == m.entries[i + 1][0];
    assert ColumnTerms(b)[i] == Sign(i) * m.entries[i + 1][0] * d;
    ProductRearrange(Sign(i), Sign(j), m.entries[i + 1][0], m.entries[0][j + 1], d);
  }

  /** Row term j+1, with its minor expanded along column 0, is column j of the cross grid. */
  lemma RowTermIsCrossColumn(m: Matrix, j: nat)
    requires Square(m) && m.rowCount >= 2 && j < m.rowCount - 1
    requires Det(Minor(m, 0, j + 1)) == ColumnDet(Minor(m, 0, j + 1))
    ensures RowTerms(m)[j + 1] == SumSeq(Column(CrossGrid(m), m.rowCount - 1, j))
  {
    var n := m.rowCount;
    var g := CrossGrid(m);
    var b := Minor(m, 0, j + 1);
    var terms := ColumnTerms(b);
    var column := Column(g, n - 1, j);
    forall i | 0 <= i < n - 1
      ensures column[i] == Sign(j + 1) * m.entries[0][j + 1] * terms[i]
    {
      CrossTermOfColumnTerm(m, i, j);
    }
    SumSeqScale(Sign(j + 1) * m.entries[0][j + 1], terms, column);
    assert RowTerms(m)[j + 1] == Sign(j + 1) * m.entries[0][j + 1] * Det(b);
  }

  lemma CrossTermOfRowTerm(m: Matrix, i: nat, j: nat)
    requires Square(m) && m.rowCount >= 2 && i < m.rowCount - 1 && j < m.rowCount - 1
    ensures CrossTerm(m, i, j) == Sign(i + 1) * m.entries[i + 1][0] * RowTerms(Minor(m, i + 1, 0))[j]
  {
    var c := Minor(m, i + 1, 0);
    assert c.entries[0][j] == m.entries[0][j + 1];
    MinorsCommute(m, i, j);
    assert RowTerms(c)[j] == Sign(j) * m.entries[0][j + 1] * Det(Minor(Minor(m, 0, j + 1), i, 0));
  }

  /** Column term i+1, with its minor expanded along row 0, is row i of the cross grid. */
  lemma ColumnTermIsCrossRow(m: Matrix, i: nat)
    requires Square(m) && m.rowCount >= 2 && i < m.rowCount - 1
    ensures ColumnTerms(m)[i + 1] == SumSeq(CrossGrid(m)[i])
  {
    var n := m.rowCount;
    var g := CrossGrid(m);
    var c := Minor(m, i + 1, 0);
    var terms := RowTerms(c);
    forall j | 0 <= j < n - 1
      ensures g[i][j] == Sign(i + 1) * m.entries[i + 1][0] * terms[j]
    {
      CrossTermOfRowTerm(m, i, j);
    }
    SumSeqScale(Sign(i + 1) * m.entries[i + 1][0], terms, g[i]);
  }

  /** Expanding along row 0 or along column 0 gives the same value. */
  lemma {:induction false} RowExpansionIsColumnExpansion(m: Matrix)
    requires Square(m)
    ensures Det(m) == ColumnDet(m)
    decreases m.rowCount
  {
    var n := m.rowCount;
    if n == 1 {
      assert RowTerms(m) == ColumnTerms(m);
    } else if n >= 2 {
      var row, column := RowTerms(m), ColumnTerms(m);
      assert SumSeq(row[1..]) == SumSeq(column[1..]) by {
        var g := CrossGrid(m);
        forall j | 0 <= j < n - 1
          ensures row[1..][j] == SumSeq(Column(g, n - 1, j))
        {
          RowExpansionIsColumnExpansion(Minor(m, 0, j + 1));
          RowTermIsCrossColumn(m, j);
        }
        forall i | 0 <= i < n - 1
          ensures column[1..][i] == SumSeq(g[i])
        {
          ColumnTermIsCrossRow(m, i);
        }
        SumSeqSwap(g, n - 1, column[1..], row[1..]);
      }
      assert row[0] == column[0];
      assert Det(m) == row[0] + SumSeq(row[1..]) by {
        SumSeqFirst(row);
      }
      assert ColumnDet(m) == column[0] + SumSeq(column[1..]) by {
        SumSeqFirst(column);
      }
    }
  }

  /** The reference determinant is invariant under transposition. */
  lemma {:induction false} DetTranspose(m: Matrix)
    requires Square(m)
    ensures Det(Transpose(m)) == Det(m)
    decreases m.rowCount
  {
    var n := m.rowCount;
    if n > 0 {
      var t := Transpose(m);
      forall j | 0 <= j < n
        ensures RowTerms(t)[j] == ColumnTerms(m)[j]
      {
        MinorTranspose(m, j, 0);
        DetTranspose(Minor(m, j, 0));
      }
      assert RowTerms(t) == ColumnTerms(m);
      RowExpansionIsColumnExpansion(m);
    }
  }

  /** A 1 x 1 matrix has its single entry as reference determinant. */
  lemma DetOfSingleEntry(m: Matrix)
    requires Square(m) && m.rowCount == 1
    ensures Det(m) == m.entries[0][0]
  {
    var terms := RowTerms(m);
    var minor := Minor(m, 0, 0);
    assert Det(minor) == 1;
    assert Sign(0) == 1;
    assert terms[0] == Sign(0) * m.entries[0][0] * Det(minor) == m.entries[0][0];
    assert terms[..0] == [];
    assert Det(m) == SumSeq(terms) == SumSeq(terms[..0]) + terms[0];
  }

  /** ComputeDeterminant computes the textbook determinant of every square matrix of size 2 or more. */
  lemma {:induction false} DeterminantIsReference(m: Matrix)
    requires Square(m) && m.rowCount >= 2
    ensures Determinant(m) == Success(Det(m))
    decreases m.rowCount, m.rowCount + 1
  {
    var terms := RowTerms(m);
    if m.rowCount == 2 {
      var left, right := Minor(m, 0, 0), Minor(m, 0, 1);
      DetOfSingleEntry(left);
      DetOfSingleEntry(right);
      assert left.entries[0][0] == m.entries[1][1];
      assert right.entries[0][0] == m.entries[1][0];
      assert terms[0] == Sign(0) * m.entries[0][0] * Det(left) == m.entries[0][0] * m.entries[1][1];
      assert terms[1] == Sign(1) * m.entries[0][1] * Det(right) == -(m.entries[0][1] * m.entries[1][0]);
      assert terms[..1][..0] == [];
      assert SumSeq(terms[..1]) == terms[0];
      assert Det(m) == SumSeq(terms) == terms[0] + terms[1];
    } else {
      ExpansionIsReference(m, m.rowCount);
      assert terms[..m.rowCount] == terms;
    }
  }

  /** One step of the expansion loop adds the next cofactor term to the running sum. */
  lemma ExpansionStep(m: Matrix, k: nat, terms: seq<int>, minor: int)
    requires Square(m) && m.rowCount >= 3 && 0 < k <= m.rowCount && k <= |terms|
    requires Expansion(m, k - 1) == Success(SumSeq(terms[..k - 1]))
    requires Determinant(Minor(m, 0, k - 1)) == Success(minor)
    requires terms[k - 1] == Cofactor(k - 1, m.entries[0][k - 1], minor)
    ensures Expansion(m, k) == Success(SumSeq(terms[..k]))
  {
    assert Contract(m, 0, k - 1) == Success(Minor(m, 0, k - 1));
    ExpansionNext(m, k - 1, SumSeq(terms[..k - 1]), Minor(m, 0, k - 1), minor);
    SumSeqPrefix(terms, k);
  }

  /** The first k steps of the expansion loop sum the first k reference cofactor terms. */
  lemma {:induction false} ExpansionIsReference(m: Matrix, k: nat)
    requires Square(m) && m.rowCount >= 3 && k <= m.rowCount
    ensures Expansion(m, k) == Success(SumSeq(RowTerms(m)[..k]))
    decreases m.rowCount, k
  {
    if k > 0 {
      ExpansionIsReference(m, k - 1);
      DeterminantIsReference(Minor(m, 0, k - 1));
      ExpansionStep(m, k, RowTerms(m), Det(Minor(m, 0, k - 1)));
    } else {
      assert RowTerms(m)[..0] == [];
    }
  }

  /**
   * Cofactor expansion along row 0 in the source's own terms: for n >= 3 every
   * contraction Contract(m, 0, i) succeeds and has a determinant, and the determinant
   * of m is the alternating sum of m[0][i] times those determinants.
   */
  lemma CofactorExpansion(m: Matrix)
    requires Square(m) && m.rowCount >= 3
    ensures forall i :: 0 <= i < m.rowCount ==>
              Contract(m, 0, i).Success? && Determinant(Contract(m, 0, i).value).Success?
    ensures Determinant(m).Success?
    ensures Determinant(m).value ==
              SumSeq(seq(m.rowCount, i requires 0 <= i < m.rowCount =>
                Cofactor(i, m.entries[0][i], Determinant(Contract(m, 0, i).value).value)))
  {
    DeterminantIsReference(m);
    var sourceTerms := seq(m.rowCount, i requires 0 <= i < m.rowCount =>
                         Cofactor(i, m.entries[0][i], Determinant(Contract(m, 0, i).value).value));
    forall i | 0 <= i < m.rowCount
      ensures sourceTerms[i] == RowTerms(m)[i]
    {
      DeterminantIsReference(Minor(m, 0, i));
    }
    assert sourceTerms == RowTerms(m);
  }

  /** det(M^T) == det(M) for ComputeDeterminant on every matrix, the failing shapes included. */
  lemma DeterminantOfTranspose(m: Matrix)
    ensures Determinant(Transpose(m)) == Determinant(m)
  {
    if Square(m) && m.rowCount >= 2 {
      DeterminantIsReference(m);
      DeterminantIsReference(Transpose(m));
      DetTranspose(m);
    }
  }
}
