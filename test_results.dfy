/**
 * calculate-test-results.js: the 75 raw answers of the questionnaire are folded
 * into the 5x5 category matrix.
 */
module TestResults {
  import opened Types
  import opened Numeric

  /** The first t of the three answers that feed a cell whose first answer is at `base`. */
  function Picks(answers: seq<int>, base: nat, t: nat): int
    requires t <= 3 && base + 10 < |answers|
  {
    if t == 0 then 0 else Picks(answers, base, t - 1) + answers[base + 5 * (t - 1)]
  }

  lemma PicksComplete(answers: seq<int>, i: nat, j: nat)
    requires |answers| >= 75 && i < 5 && j < 5
    ensures Picks(answers, i + 15 * j, 3) == CellSum(answers, i, j)
  {
    var b := i + 15 * j;
    assert Picks(answers, b, 1) == answers[b];
    assert Picks(answers, b, 2) == answers[b] + answers[b + 5];
  }

  /** Cell [i][j] sums the answers at i + 15j, i + 15j + 5 and i + 15j + 10. */
  function CellSum(answers: seq<int>, i: nat, j: nat): int
    requires |answers| >= 75 && i < 5 && j < 5
  {
    answers[i + 15 * j] + answers[i + 15 * j + 5] + answers[i + 15 * j + 10]
  }

  /** The matrix calculateResults returns, as a value. */
  function Reduce(answers: seq<int>): (m: Matrix)
    requires |answers| >= 75
    ensures IsMatrix(m)
  {
    seq(5, i requires 0 <= i < 5 => seq(5, j requires 0 <= j < 5 => CellSum(answers, i, j)))
  }

  /**
   * calculateResults: a zeroed 5x5 buffer is filled row by row; a running index k
   * starts at the row number and advances by 5 after each of the three answers
   * added to each cell.
   */
  method CalculateResults(answers: seq<int>) returns (m: Matrix)
    requires |answers| >= 75
    ensures IsMatrix(m)
    ensures forall i, j :: 0 <= i < 5 && 0 <= j < 5 ==>
      m[i][j] == answers[i + 15 * j] + answers[i + 15 * j + 5] + answers[i + 15 * j + 10]
    ensures m == Reduce(answers)
  {
    var arrSum := new int[5, 5]((_, _) => 0);
    for i := 0 to 5
      invariant forall r, c :: 0 <= r < i && 0 <= c < 5 ==> arrSum[r, c] == CellSum(answers, r, c)
      invariant forall r, c :: i <= r < 5 && 0 <= c < 5 ==> arrSum[r, c] == 0
    {
      var k := i;
      for j := 0 to 5
        invariant k == i + 15 * j
        invariant forall r, c :: 0 <= r < i && 0 <= c < 5 ==> arrSum[r, c] == CellSum(answers, r, c)
        invariant forall c :: 0 <= c < j ==> arrSum[i, c] == CellSum(answers, i, c)
        invariant forall r, c :: i <= r < 5 && 0 <= c < 5 && (r > i || c >= j) ==> arrSum[r, c] == 0
      {
        for t := 0 to 3
          invariant k == i + 15 * j + 5 * t
          invariant arrSum[i, j] == Picks(answers, i + 15 * j, t)
          invariant forall r, c :: 0 <= r < i && 0 <= c < 5 ==> arrSum[r, c] == CellSum(answers, r, c)
          invariant forall c :: 0 <= c < j ==> arrSum[i, c] == CellSum(answers, i, c)
          invariant forall r, c :: i <= r < 5 && 0 <= c < 5 && (r > i || c > j) ==> arrSum[r, c] == 0
        {
          arrSum[i, j] := arrSum[i, j] + answers[k];
          k := k + 5;
        }
        PicksComplete(answers, i, j);
      }
    }
    m := seq(5, r requires 0 <= r < 5 reads arrSum =>
           seq(5, c requires 0 <= c < 5 reads arrSum => arrSum[r, c]));
    forall r | 0 <= r < 5 ensures m[r] == Reduce(answers)[r] {
      assert forall c :: 0 <= c < 5 ==> m[r][c] == Reduce(answers)[r][c];
    }
  }

  /** Sum of all cells, row by row. */
  function MatrixSum(m: Matrix): int
  {
    if m == [] then 0 else MatrixSum(m[..|m| - 1]) + Sum(m[|m| - 1])
  }

  /** The answers at i, i + 5, ..., i + 5(n - 1): those of one row of the matrix. */
  function StrideSum(answers: seq<int>, i: nat, n: nat): int
    requires i < 5 && n <= 15 && |answers| >= 75
  {
    if n == 0 then 0 else StrideSum(answers, i, n - 1) + answers[i + 5 * (n - 1)]
  }

  lemma {:induction false} RowPrefixIsStride(answers: seq<int>, i: nat, j: nat)
    requires |answers| >= 75 && i < 5 && j <= 5
    ensures Sum(Reduce(answers)[i][..j]) == StrideSum(answers, i, 3 * j)
  {
    var row := Reduce(answers)[i];
    if j > 0 {
      RowPrefixIsStride(answers, i, j - 1);
      assert row[..j][..j - 1] == row[..j - 1];
      assert Sum(row[..j]) == Sum(row[..j - 1]) + row[j - 1];
      assert row[j - 1] == CellSum(answers, i, j - 1);
      var n := 3 * (j - 1);
      assert StrideSum(answers, i, n + 1) == StrideSum(answers, i, n) + answers[i + 15 * (j - 1)];
      assert StrideSum(answers, i, n + 2) == StrideSum(answers, i, n + 1) + answers[i + 15 * (j - 1) + 5];
      assert StrideSum(answers, i, n + 3) == StrideSum(answers, i, n + 2) + answers[i + 15 * (j - 1) + 10];
    }
  }

  lemma {:induction false} StridesCoverPrefix(answers: seq<int>, n: nat)
    requires |answers| >= 75 && n <= 15
    ensures StrideSum(answers, 0, n) + StrideSum(answers, 1, n) + StrideSum(answers, 2, n)
          + StrideSum(answers, 3, n) + StrideSum(answers, 4, n) == Sum(answers[..5 * n])
  {
    if n > 0 {
      StridesCoverPrefix(answers, n - 1);
      var b := 5 * (n - 1);
      assert answers[..5 * n] == answers[..b] + answers[b..b + 5];
      SumAppend(answers[..b], answers[b..b + 5]);
      Sum5(answers[b..b + 5]);
    }
  }

  /** Conservation: the 25 cells together hold exactly the sum of the 75 answers. */
  lemma ReduceConservation(answers: seq<int>)
    requires |answers| >= 75
    ensures MatrixSum(Reduce(answers)) == Sum(answers[..75])
  {
    var m := Reduce(answers);
    forall i | 0 <= i < 5 ensures Sum(m[i]) == StrideSum(answers, i, 15) {
      RowPrefixIsStride(answers, i, 5);
      assert m[i][..5] == m[i];
    }
    StridesCoverPrefix(answers, 15);
    assert m[..4][..3] == m[..3] && m[..3][..2] == m[..2] && m[..2][..1] == m[..1] && m[..1][..0] == [];
    assert MatrixSum(m[..1]) == Sum(m[0]);
    assert MatrixSum(m[..2]) == MatrixSum(m[..1]) + Sum(m[1]);
    assert MatrixSum(m[..3]) == MatrixSum(m[..2]) + Sum(m[2]);
    assert MatrixSum(m[..4]) == MatrixSum(m[..3]) + Sum(m[3]);
    assert MatrixSum(m) == MatrixSum(m[..4]) + Sum(m[4]);
  }

  lemma Sum5(s: seq<int>)
    requires |s| == 5
    ensures Sum(s) == s[0] + s[1] + s[2] + s[3] + s[4]
  {
    assert s[..4][..3] == s[..3] && s[..3][..2] == s[..2] && s[..2][..1] == s[..1] && s[..1][..0] == [];
    assert Sum(s[..1]) == s[0];
    assert Sum(s[..2]) == Sum(s[..1]) + s[1];
    assert Sum(s[..3]) == Sum(s[..2]) + s[2];
    assert Sum(s[..4]) == Sum(s[..3]) + s[3];
  }

  /** Every answer index n below 75 feeds exactly one cell, [n mod 5][n div 15], as its ((n div 5) mod 3)-th pick. */
  lemma ReduceCoverage(n: nat, i: nat, j: nat, t: nat)
    requires n < 75 && i < 5 && j < 5 && t < 3
    ensures i + 15 * j + 5 * t == n <==> i == n % 5 && j == n / 15 && t == (n / 5) % 3
  {
    var q := 3 * j + t;
    assert i + 15 * j + 5 * t == i + 5 * q;
    if i + 5 * q == n {
      assert n % 5 == i && n / 5 == q;
      assert q / 3 == j && q % 3 == t;
      assert n / 15 == (n / 5) / 3;
    }
  }

  /** Row i reads only the answers whose index is congruent to i modulo 5. */
  lemma ReduceRowResidue(a: seq<int>, b: seq<int>, i: nat)
    requires |a| >= 75 && |b| >= 75 && i < 5
    requires forall n :: 0 <= n < 75 && n % 5 == i ==> a[n] == b[n]
    ensures Reduce(a)[i] == Reduce(b)[i]
  {
    forall j | 0 <= j < 5 ensures CellSum(a, i, j) == CellSum(b, i, j) {
      var n := i + 15 * j;
      assert n % 5 == i && (n + 5) % 5 == i && (n + 10) % 5 == i;
    }
  }

  /** Answers past index 74 are never read, and 75 zero answers give the zero matrix. */
  lemma ReduceReadsFirst75(a: seq<int>, b: seq<int>)
    requires |a| >= 75 && |b| >= 75 && a[..75] == b[..75]
    ensures Reduce(a) == Reduce(b)
    ensures (forall n :: 0 <= n < 75 ==> a[n] == 0) ==>
      forall i, j :: 0 <= i < 5 && 0 <= j < 5 ==> Reduce(a)[i][j] == 0
  {
    forall i, j | 0 <= i < 5 && 0 <= j < 5 ensures CellSum(a, i, j) == CellSum(b, i, j) {
      assert a[i + 15 * j] == a[..75][i + 15 * j];
      assert b[i + 15 * j] == b[..75][i + 15 * j];
      assert a[i + 15 * j + 5] == a[..75][i + 15 * j + 5];
      assert b[i + 15 * j + 5] == b[..75][i + 15 * j + 5];
      assert a[i + 15 * j + 10] == a[..75][i + 15 * j + 10];
      assert b[i + 15 * j + 10] == b[..75][i + 15 * j + 10];
    }
    forall i | 0 <= i < 5 ensures Reduce(a)[i] == Reduce(b)[i] {
      assert forall j :: 0 <= j < 5 ==> Reduce(a)[i][j] == Reduce(b)[i][j];
    }
  }
}
