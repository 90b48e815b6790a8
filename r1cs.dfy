/** A plain check that a witness satisfies a rank-1 constraint system: for every row i,
    (A_i . z) * (B_i . z) == C_i . z over the integers, matrices stored row-major. */
module R1CS {

  /** The number of constraints (rows) of the hard-coded system. */
  const NUM_CONSTRAINTS: nat := 6

  /** The number of variables (columns) of the hard-coded system. */
  const NUM_VARIABLES: nat := 8

  /** The hard-coded matrices, row-major, written one row of eight per line. */
  const A_MATRIX: seq<int> :=
      [0, 1, 0, 0, 0, 0, 0, 0]
    + [0, 0, 1, 0, 0, 0, 0, 0]
    + [0, 1, 0, 1, 0, 0, 0, 0]
    + [-5, 0, 0, 0, 1, 0, 0, 0]
    + [0, 0, 0, 0, 0, 0, 1, 0]
    + [0, 0, 0, 0, 0, 1, 0, 0]

  const B_MATRIX: seq<int> :=
      [0, 1, 0, 0, 0, 0, 0, 0]
    + [0, 1, 0, 0, 0, 0, 0, 0]
    + [1, 0, 0, 0, 0, 0, 0, 0]
    + [1, 0, 0, 0, 0, 0, 0, 0]
    + [0, 0, 0, 0, 0, 0, 1, 0]
    + [1, 0, 0, 0, 0, 0, 0, 0]

  const C_MATRIX: seq<int> :=
      [0, 0, 1, 0, 0, 0, 0, 0]
    + [0, 0, 0, 1, 0, 0, 0, 0]
    + [0, 0, 0, 0, 1, 0, 0, 0]
    + [0, 0, 0, 0, 0, 1, 0, 0]
    + [0, 0, 0, 0, 0, 0, 0, 1]
    + [0, 0, 0, 0, 0, 0, 0, 1]

  /** The hard-coded witness. */
  const WITNESS: seq<int> := [1, 3, 9, 27, 30, 25, 5, 25]

  /** Row i < m of an m-by-n row-major matrix ends within the matrix: its entries sit at
      i * n + j for j < n. */
  lemma RowEnd(i: nat, m: nat, n: nat)
    requires i < m
    ensures i * n + n <= m * n
  {
    assert i * n + n == (i + 1) * n;
    assert (i + 1) * n <= m * n;
  }

  /** The first k terms of row i of `mat` dotted with z: the sum of mat[i * n + j] * z[j]
      for j < k. */
  function RowDot(mat: seq<int>, z: seq<int>, n: nat, i: nat, k: nat): int
    requires k <= n && k <= |z| && i * n + n <= |mat|
  {
    if k == 0 then 0 else RowDot(mat, z, n, i, k - 1) + mat[i * n + k - 1] * z[k - 1]
  }

  /** Row i of the system holds for z. */
  predicate RowSatisfied(a: seq<int>, b: seq<int>, c: seq<int>, z: seq<int>, n: nat, i: nat)
    requires n <= |z| && i * n + n <= |a| && i * n + n <= |b| && i * n + n <= |c|
  {
    RowDot(a, z, n, i, n) * RowDot(b, z, n, i, n) == RowDot(c, z, n, i, n)
  }

  /** The first i of the m rows hold for z. */
  predicate SatisfiedUpTo(a: seq<int>, b: seq<int>, c: seq<int>, z: seq<int>, m: nat, n: nat, i: nat)
    requires i <= m && n <= |z| && m * n <= |a| && m * n <= |b| && m * n <= |c|
  {
    forall k :: 0 <= k < i ==> (RowEnd(k, m, n); RowSatisfied(a, b, c, z, n, k))
  }

  /** Every one of the m rows holds for z. */
  predicate Satisfied(a: seq<int>, b: seq<int>, c: seq<int>, z: seq<int>, m: nat, n: nat)
    requires n <= |z| && m * n <= |a| && m * n <= |b| && m * n <= |c|
  {
    SatisfiedUpTo(a, b, c, z, m, n, m)
  }

  /** The dot product of row i with z, as the inner loop accumulates it. */
  method RowProducts(a: seq<int>, b: seq<int>, c: seq<int>, z: seq<int>, n: nat, i: nat)
    returns (aiz: int, biz: int, ciz: int)
    requires n <= |z| && i * n + n <= |a| && i * n + n <= |b| && i * n + n <= |c|
    ensures aiz == RowDot(a, z, n, i, n) && biz == RowDot(b, z, n, i, n) && ciz == RowDot(c, z, n, i, n)
  {
    aiz, biz, ciz := 0, 0, 0;
    for j := 0 to n
      invariant aiz == RowDot(a, z, n, i, j)
      invariant biz == RowDot(b, z, n, i, j)
      invariant ciz == RowDot(c, z, n, i, j)
    {
      var index := i * n + j;
      aiz := aiz + a[index] * z[j];
      biz := biz + b[index] * z[j];
      ciz := ciz + c[index] * z[j];
    }
  }

  /** The constraint loop: valid ends true iff every row holds; a failed row clears it and
      nothing sets it again. */
  method CheckR1CS(a: seq<int>, b: seq<int>, c: seq<int>, z: seq<int>, numConstraints: nat, numVariables: nat)
    returns (valid: bool)
    requires numVariables <= |z|
    requires numConstraints * numVariables <= |a| && numConstraints * numVariables <= |b|
    requires numConstraints * numVariables <= |c|
    ensures valid <==> Satisfied(a, b, c, z, numConstraints, numVariables)
  {
    valid := true;
    for i := 0 to numConstraints
      invariant valid <==> SatisfiedUpTo(a, b, c, z, numConstraints, numVariables, i)
    {
      RowEnd(i, numConstraints, numVariables);
      var aiz, biz, ciz := RowProducts(a, b, c, z, numVariables, i);
      if aiz * biz != ciz {
        valid := false;
      }
      assert SatisfiedUpTo(a, b, c, z, numConstraints, numVariables, i + 1)
        <==> SatisfiedUpTo(a, b, c, z, numConstraints, numVariables, i)
             && RowSatisfied(a, b, c, z, numVariables, i);
    }
  }

  /** A row of eight columns, written out term by term. */
  lemma RowDotOfEight(mat: seq<int>, z: seq<int>, i: nat)
    requires 8 <= |z| && i * 8 + 8 <= |mat|
    ensures RowDot(mat, z, 8, i, 8)
         == mat[i * 8] * z[0] + mat[i * 8 + 1] * z[1] + mat[i * 8 + 2] * z[2] + mat[i * 8 + 3] * z[3]
          + mat[i * 8 + 4] * z[4] + mat[i * 8 + 5] * z[5] + mat[i * 8 + 6] * z[6] + mat[i * 8 + 7] * z[7]
  {
    assert RowDot(mat, z, 8, i, 1) == mat[i * 8] * z[0];
    assert RowDot(mat, z, 8, i, 2) == RowDot(mat, z, 8, i, 1) + mat[i * 8 + 1] * z[1];
    assert RowDot(mat, z, 8, i, 3) == RowDot(mat, z, 8, i, 2) + mat[i * 8 + 2] * z[2];
    assert RowDot(mat, z, 8, i, 4) == RowDot(mat, z, 8, i, 3) + mat[i * 8 + 3] * z[3];
    assert RowDot(mat, z, 8, i, 5) == RowDot(mat, z, 8, i, 4) + mat[i * 8 + 4] * z[4];
    assert RowDot(mat, z, 8, i, 6) == RowDot(mat, z, 8, i, 5) + mat[i * 8 + 5] * z[5];
    assert RowDot(mat, z, 8, i, 7) == RowDot(mat, z, 8, i, 6) + mat[i * 8 + 6] * z[6];
  }

  /** Row 0 of the hard-coded system holds for the hard-coded witness. */
  lemma HardCodedRow0()
    ensures RowSatisfied(A_MATRIX, B_MATRIX, C_MATRIX, WITNESS, NUM_VARIABLES, 0)
  {
    RowDotOfEight(A_MATRIX, WITNESS, 0);
    RowDotOfEight(B_MATRIX, WITNESS, 0);
    RowDotOfEight(C_MATRIX, WITNESS, 0);
  }

  /** Row 1 of the hard-coded system holds for the hard-coded witness. */
  lemma HardCodedRow1()
    ensures RowSatisfied(A_MATRIX, B_MATRIX, C_MATRIX, WITNESS, NUM_VARIABLES, 1)
  {
    RowDotOfEight(A_MATRIX, WITNESS, 1);
    RowDotOfEight(B_MATRIX, WITNESS, 1);
    RowDotOfEight(C_MATRIX, WITNESS, 1);
  }

  /** Row 2 of the hard-coded system holds for the hard-coded witness. */
  lemma HardCodedRow2()
    ensures RowSatisfied(A_MATRIX, B_MATRIX, C_MATRIX, WITNESS, NUM_VARIABLES, 2)
  {
    RowDotOfEight(A_MATRIX, WITNESS, 2);
    RowDotOfEight(B_MATRIX, WITNESS, 2);
    RowDotOfEight(C_MATRIX, WITNESS, 2);
  }

  /** Row 3 of the hard-coded system holds for the hard-coded witness. */
  lemma HardCodedRow3()
    ensures RowSatisfied(A_MATRIX, B_MATRIX, C_MATRIX, WITNESS, NUM_VARIABLES, 3)
  {
    RowDotOfEight(A_MATRIX, WITNESS, 3);
    RowDotOfEight(B_MATRIX, WITNESS, 3);
    RowDotOfEight(C_MATRIX, WITNESS, 3);
  }

  /** Row 4 of the hard-coded system holds for the hard-coded witness. */
  lemma HardCodedRow4()
    ensures RowSatisfied(A_MATRIX, B_MATRIX, C_MATRIX, WITNESS, NUM_VARIABLES, 4)
  {
    RowDotOfEight(A_MATRIX, WITNESS, 4);
    RowDotOfEight(B_MATRIX, WITNESS, 4);
    RowDotOfEight(C_MATRIX, WITNESS, 4);
  }

  /** Row 5 of the hard-coded system holds for the hard-coded witness. */
  lemma HardCodedRow5()
    ensures RowSatisfied(A_MATRIX, B_MATRIX, C_MATRIX, WITNESS, NUM_VARIABLES, 5)
  {
    RowDotOfEight(A_MATRIX, WITNESS, 5);
    RowDotOfEight(B_MATRIX, WITNESS, 5);
    RowDotOfEight(C_MATRIX, WITNESS, 5);
  }

  /** The hard-coded witness satisfies all six hard-coded constraints. */
  lemma HardCodedWitnessSatisfies()
    ensures Satisfied(A_MATRIX, B_MATRIX, C_MATRIX, WITNESS, NUM_CONSTRAINTS, NUM_VARIABLES)
  {
    HardCodedRow0();
    HardCodedRow1();
    HardCodedRow2();
    HardCodedRow3();
    HardCodedRow4();
    HardCodedRow5();
  }

  /** VerifyR1CS: checks the hard-coded witness against the hard-coded 6-by-8 system; every
      constraint passes. */
  method VerifyR1CS() returns (valid: bool)
    ensures valid
  {
    valid := CheckR1CS(A_MATRIX, B_MATRIX, C_MATRIX, WITNESS, NUM_CONSTRAINTS, NUM_VARIABLES);
    HardCodedWitnessSatisfies();
  }
}
