/**
  Dense square matrices of counts, as the line-graph builder keeps them: `np.eye`, element
  increments, the sum of all entries and the number of positive entries of a row.
 */
module Matrices {

  type Matrix = seq<seq<nat>>

  /** `m` has `n` rows of `n` entries each. */
  predicate IsSquare<T>(m: seq<seq<T>>, n: nat) {
    |m| == n && forall i | 0 <= i < n :: |m[i]| == n
  }

  /** `np.eye(n, n)`: ones on the diagonal, zeros elsewhere. */
  function Identity(n: nat): (m: Matrix)
    ensures IsSquare(m, n)
    ensures forall i, j | 0 <= i < n && 0 <= j < n :: m[i][j] == (if i == j then 1 else 0)
    ensures MatrixSum(m) == n
  {
    var m := seq(n, i => seq(n, j => if i == j then 1 else 0));
    forall i | 0 <= i < n
      ensures RowSum(m[i]) == 1
    {
      UnitRowSum(m[i], i);
    }
    SumOfUnitRows(m);
    m
  }

  function RowSum(row: seq<nat>): nat {
    if |row| == 0 then 0 else row[0] + RowSum(row[1..])
  }

  function MatrixSum(m: Matrix): nat {
    if |m| == 0 then 0 else RowSum(m[0]) + MatrixSum(m[1..])
  }

  lemma {:induction false} ZeroRowSum(row: seq<nat>)
    requires forall j | 0 <= j < |row| :: row[j] == 0
    ensures RowSum(row) == 0
  {
    if |row| > 0 {
      ZeroRowSum(row[1..]);
    }
  }

  /** A row with a single one and zeros elsewhere sums to one. */
  lemma {:induction false} UnitRowSum(row: seq<nat>, k: nat)
    requires k < |row| && row[k] == 1
    requires forall j | 0 <= j < |row| && j != k :: row[j] == 0
    ensures RowSum(row) == 1
  {
    if k == 0 {
      ZeroRowSum(row[1..]);
    } else {
      UnitRowSum(row[1..], k - 1);
    }
  }

  lemma {:induction false} SumOfUnitRows(m: Matrix)
    requires forall i | 0 <= i < |m| :: RowSum(m[i]) == 1
    ensures MatrixSum(m) == |m|
  {
    if |m| > 0 {
      SumOfUnitRows(m[1..]);
    }
  }

  /** Adding one to an entry of a row adds one to its sum. */
  lemma {:induction false} RowSumIncrement(row: seq<nat>, k: nat)
    requires k < |row|
    ensures RowSum(row[k := row[k] + 1]) == RowSum(row) + 1
  {
    if k > 0 {
      RowSumIncrement(row[1..], k - 1);
      assert row[k := row[k] + 1][1..] == row[1..][k - 1 := row[k] + 1];
    }
  }

  /** Replacing row `a` changes the sum of the matrix by the change of that row's sum. */
  lemma {:induction false} MatrixSumReplaceRow(m: Matrix, a: nat, row: seq<nat>)
    requires a < |m|
    ensures MatrixSum(m[a := row]) + RowSum(m[a]) == MatrixSum(m) + RowSum(row)
  {
    if a > 0 {
      MatrixSumReplaceRow(m[1..], a - 1, row);
      assert m[a := row][1..] == m[1..][a - 1 := row];
    }
  }

  /** `m[a, b] += 1`: one entry grows by one, every other entry keeps its value. */
  function Increment(m: Matrix, a: nat, b: nat): (r: Matrix)
    requires a < |m| && b < |m[a]|
    ensures |r| == |m| && forall x | 0 <= x < |m| :: |r[x]| == |m[x]|
    ensures forall x, y | 0 <= x < |m| && 0 <= y < |m[x]| ::
              r[x][y] == m[x][y] + (if x == a && y == b then 1 else 0)
    ensures MatrixSum(r) == MatrixSum(m) + 1
  {
    var row := m[a][b := m[a][b] + 1];
    RowSumIncrement(m[a], b);
    MatrixSumReplaceRow(m, a, row);
    m[a := row]
  }

  /** The number of positive entries of a row. */
  function CountNonZero(row: seq<nat>): (c: nat)
    ensures c <= |row|
  {
    if |row| == 0 then 0
    else CountNonZero(row[..|row| - 1]) + (if row[|row| - 1] > 0 then 1 else 0)
  }

  /** The columns of a row that hold a positive entry. */
  function NonZeroColumns(row: seq<nat>): set<nat> {
    set j: nat | j < |row| && row[j] > 0
  }

  /** `CountNonZero` is the size of the set of positive columns. */
  lemma {:induction false} CountNonZeroIsCardinality(row: seq<nat>)
    ensures CountNonZero(row) == |NonZeroColumns(row)|
    decreases |row|
  {
    if |row| > 0 {
      var n := |row| - 1;
      var front := row[..n];
      CountNonZeroIsCardinality(front);
      if row[n] > 0 {
        assert NonZeroColumns(row) == NonZeroColumns(front) + {n};
        assert n !in NonZeroColumns(front);
      } else {
        assert NonZeroColumns(row) == NonZeroColumns(front);
      }
    }
  }

  /** A row with a positive entry has a positive count. */
  lemma {:induction false} CountNonZeroPositive(row: seq<nat>, k: nat)
    requires k < |row| && row[k] > 0
    ensures CountNonZero(row) >= 1
    decreases |row|
  {
    var n := |row| - 1;
    if k < n {
      CountNonZeroPositive(row[..n], k);
    }
  }
}
