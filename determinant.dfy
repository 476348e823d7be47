/**
 * is_square_matrix and determinant in lab2/main.py: the squareness test and
 * the recursive cofactor expansion along the first row.
 */
module Determinant {
  /** Every row of rows has n entries; the loop of is_square_matrix. */
  function AllRowsOfLength(rows: seq<seq<real>>, n: nat): (r: bool)
    ensures r <==> forall i | 0 <= i < |rows| :: |rows[i]| == n
    decreases |rows|
  {
    if rows == [] then true else |rows[0]| == n && AllRowsOfLength(rows[1..], n)
  }

  /** is_square_matrix: false for no rows, otherwise every row as long as there are rows. */
  function IsSquareMatrix(m: seq<seq<real>>): (r: bool)
    ensures r <==> |m| > 0 && forall i | 0 <= i < |m| :: |m[i]| == |m|
  {
    if |m| == 0 then false else AllRowsOfLength(m, |m|)
  }

  /** n rows of n entries each, where n may be 0. */
  predicate Square(m: seq<seq<real>>)
  {
    forall i | 0 <= i < |m| :: |m[i]| == |m|
  }

  /** The matrix without row 0 and column k: [m[i][:k] + m[i][k+1:] for i in range(1, n)]. */
  function Minor(m: seq<seq<real>>, k: nat): (r: seq<seq<real>>)
    requires Square(m) && k < |m|
    ensures |r| == |m| - 1 && Square(r)
    ensures forall i, j | 0 <= i < |r| && 0 <= j < |r| :: r[i][j] == if j < k then m[i + 1][j] else m[i + 1][j + 1]
  {
    seq(|m| - 1, i requires 0 <= i < |m| - 1 => m[i + 1][..k] + m[i + 1][k + 1..])
  }

  /** (-1) ** k * v. */
  function Signed(k: nat, v: real): real
  {
    if k % 2 == 0 then v else -v
  }

  /**
   * determinant: the entry of a 1x1 matrix, ad - bc for a 2x2 one, and the
   * cofactor expansion along row 0 otherwise, which for an empty matrix is
   * the empty sum 0.
   */
  function Det(m: seq<seq<real>>): real
    requires Square(m)
    decreases |m|, 1, 0
  {
    if |m| == 1 then m[0][0]
    else if |m| == 2 then m[0][0] * m[1][1] - m[0][1] * m[1][0]
    else CofactorSum(m, |m|)
  }

  /** The first k terms m[0][j] * (-1) ** j * det(minor j) of the expansion. */
  function CofactorSum(m: seq<seq<real>>, k: nat): real
    requires Square(m) && k <= |m|
    decreases |m|, 0, k
  {
    if k == 0 then 0.0 else CofactorSum(m, k - 1) + Signed(k - 1, m[0][k - 1] * Det(Minor(m, k - 1)))
  }

  /** A minor of a 2x2 matrix is the 1x1 matrix of the other entry of row 1. */
  lemma MinorOfTwo(m: seq<seq<real>>, k: nat)
    requires Square(m) && |m| == 2 && k < 2
    ensures Det(Minor(m, k)) == m[1][1 - k]
  {
    var r := Minor(m, k);
    assert |r| == 1;
    assert r[0][0] == m[1][1 - k];
  }

  /** The closed form for a 2x2 matrix is the general expansion along row 0. */
  lemma DetExpansion(m: seq<seq<real>>)
    requires Square(m) && |m| >= 2
    ensures Det(m) == CofactorSum(m, |m|)
  {
    if |m| == 2 {
      MinorOfTwo(m, 0);
      MinorOfTwo(m, 1);
      assert CofactorSum(m, 1) == m[0][0] * Det(Minor(m, 0));
      assert CofactorSum(m, 2) == CofactorSum(m, 1) - m[0][1] * Det(Minor(m, 1));
    }
  }

  /** An empty matrix falls through the expansion loop: its determinant is the empty sum 0. */
  lemma DetEmpty()
    ensures Det([]) == 0.0
  {
  }

  /** Entries above the diagonal are zero. */
  predicate LowerTriangular(m: seq<seq<real>>)
    requires Square(m)
  {
    forall i, j | 0 <= i < j < |m| :: m[i][j] == 0.0
  }

  /** m[i][i] * m[i + 1][i + 1] * ... * m[n - 1][n - 1]. */
  function DiagonalFrom(m: seq<seq<real>>, i: nat): real
    requires Square(m) && i <= |m|
    decreases |m| - i
  {
    if i == |m| then 1.0 else m[i][i] * DiagonalFrom(m, i + 1)
  }

  lemma {:induction false} DiagonalOfMinor(m: seq<seq<real>>, i: nat)
    requires Square(m) && |m| >= 1 && i <= |m| - 1
    ensures DiagonalFrom(Minor(m, 0), i) == DiagonalFrom(m, i + 1)
    decreases |m| - i
  {
    if i < |m| - 1 {
      DiagonalOfMinor(m, i + 1);
    }
  }

  /** When row 0 is zero past column 0, only the first term of the expansion remains. */
  lemma {:induction false} CofactorSumFirstTerm(m: seq<seq<real>>, k: nat)
    requires Square(m) && 1 <= k <= |m|
    requires forall j | 1 <= j < |m| :: m[0][j] == 0.0
    ensures CofactorSum(m, k) == m[0][0] * Det(Minor(m, 0))
    decreases k
  {
    var t := m[0][k - 1] * Det(Minor(m, k - 1));
    assert CofactorSum(m, k) == CofactorSum(m, k - 1) + Signed(k - 1, t);
    if k > 1 {
      CofactorSumFirstTerm(m, k - 1);
      assert m[0][k - 1] == 0.0 && t == 0.0;
    }
  }

  /** The determinant of a lower triangular matrix is the product of its diagonal. */
  lemma {:induction false} DetLowerTriangular(m: seq<seq<real>>)
    requires Square(m) && |m| >= 1 && LowerTriangular(m)
    ensures Det(m) == DiagonalFrom(m, 0)
    decreases |m|
  {
    if |m| == 1 {
      assert DiagonalFrom(m, 1) == 1.0;
    } else if |m| == 2 {
      assert DiagonalFrom(m, 2) == 1.0;
    } else {
      var r := Minor(m, 0);
      assert LowerTriangular(r);
      DetLowerTriangular(r);
      DiagonalOfMinor(m, 0);
      CofactorSumFirstTerm(m, |m|);
    }
  }

  /** The n x n identity matrix. */
  function Identity(n: nat): (r: seq<seq<real>>)
    ensures |r| == n && Square(r)
  {
    seq(n, i => seq(n, j => if i == j then 1.0 else 0.0))
  }

  lemma {:induction false} DiagonalOfIdentity(n: nat, i: nat)
    requires i <= n
    ensures DiagonalFrom(Identity(n), i) == 1.0
    decreases n - i
  {
    if i < n {
      DiagonalOfIdentity(n, i + 1);
    }
  }

  /** A nonempty identity matrix is not singular. */
  lemma DetIdentity(n: nat)
    requires n >= 1
    ensures Det(Identity(n)) == 1.0
  {
    DetLowerTriangular(Identity(n));
    DiagonalOfIdentity(n, 0);
  }

  lemma {:induction false} CofactorSumZeroRow(m: seq<seq<real>>, k: nat)
    requires Square(m) && k <= |m|
    requires forall j | 0 <= j < |m| :: m[0][j] == 0.0
    ensures CofactorSum(m, k) == 0.0
    decreases k
  {
    if k > 0 {
      CofactorSumZeroRow(m, k - 1);
    }
  }

  /** A matrix whose row 0 is zero is singular. */
  lemma DetZeroFirstRow(m: seq<seq<real>>)
    requires Square(m) && |m| >= 1
    requires forall j | 0 <= j < |m| :: m[0][j] == 0.0
    ensures Det(m) == 0.0
  {
    if |m| == 2 {
      assert m[0][0] == 0.0 && m[0][1] == 0.0;
    } else if |m| >= 3 {
      CofactorSumZeroRow(m, |m|);
    }
  }
}
