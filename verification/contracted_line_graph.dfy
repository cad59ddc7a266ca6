/**
  The contracted line graph of a fact list: a predicate-by-predicate matrix that starts as the
  identity and gains one in both mirrored cells for every pair of facts sharing a resource,
  and the TF-IDF matrix filled from it with a symmetric pattern.
 */
module ContractedLineGraph {
  import opened Results
  import opened Matrices
  import GT = GraphTransformer

  type Fact = GT.Fact

  /** `generateClg` indexed the matrix with the predicate of sharing facts `i` and `j`, which lies outside it. */
  datatype ClgError = PredicateOutOfRange(i: nat, j: nat)

  /** Scoring row `row` divided by its count of positive entries, which was zero. */
  datatype TfIdfError = ZeroDivision(row: nat)

  /** `_containSameResource`: the subject or object of one fact is the subject or object of the other. */
  function ContainSameResource(f1: Fact, f2: Fact): (r: bool)
    ensures r <==> {f1.sub, f1.obj} * {f2.sub, f2.obj} != {}
  {
    var r := f1.sub == f2.sub || f1.sub == f2.obj || f1.obj == f2.sub || f1.obj == f2.obj;
    var shared := {f1.sub, f1.obj} * {f2.sub, f2.obj};
    assert r ==> f1.sub in shared || f1.obj in shared;
    assert !r ==> shared == {};
    r
  }

  lemma ContainSameResourceSymmetric(f1: Fact, f2: Fact)
    ensures ContainSameResource(f1, f2) == ContainSameResource(f2, f1)
  {
  }

  /** Which ordered pairs of facts a count selects: every sharing pair, or sharing pairs with given predicates. */
  datatype PairKind = AnySharing | Predicates(first: nat, second: nat)

  predicate Counted(k: PairKind, f1: Fact, f2: Fact) {
    && ContainSameResource(f1, f2)
    && match k
       case AnySharing => true
       case Predicates(a, b) => f1.pred == a && f2.pred == b
  }

  /**
    The number of selected index pairs (i', j'), i' < j', that come at or after (i, j) in the
    scan order of `generateClg`: first (i, j) .. (i, |facts|-1), then every pair with i' > i.
   */
  function PairsFrom(facts: seq<Fact>, k: PairKind, i: nat, j: nat): nat
    requires i < j
    decreases |facts| - i, |facts| - j
  {
    if i + 1 >= |facts| then 0
    else if j >= |facts| then PairsFrom(facts, k, i + 1, i + 2)
    else (if Counted(k, facts[i], facts[j]) then 1 else 0) + PairsFrom(facts, k, i, j + 1)
  }

  /** The number of index pairs i < j whose facts share a resource. */
  function SharingPairs(facts: seq<Fact>): nat {
    PairsFrom(facts, AnySharing, 0, 1)
  }

  /** The number of index pairs i < j sharing a resource where fact i has predicate a and fact j predicate b. */
  function CoOccurrences(facts: seq<Fact>, a: nat, b: nat): nat {
    PairsFrom(facts, Predicates(a, b), 0, 1)
  }

  /** What cell [a, b] of the contracted line graph holds: the identity plus both orientations of the counts. */
  function ClgEntry(facts: seq<Fact>, a: nat, b: nat): nat {
    (if a == b then 1 else 0) + CoOccurrences(facts, a, b) + CoOccurrences(facts, b, a)
  }

  /** `m` is the contracted line graph of `facts` over `p` predicates. */
  ghost predicate IsClg(m: Matrix, facts: seq<Fact>, p: nat) {
    IsSquare(m, p) && forall a, b | 0 <= a < p && 0 <= b < p :: m[a][b] == ClgEntry(facts, a, b)
  }

  /** Every pair of sharing facts has both predicates inside a `p`-by-`p` matrix. */
  ghost predicate PredicatesInRange(facts: seq<Fact>, p: nat) {
    forall i, j | 0 <= i < j < |facts| && ContainSameResource(facts[i], facts[j]) ::
      facts[i].pred < p && facts[j].pred < p
  }

  /**
    Cell by cell, `clg` plus the pairs still to scan from (i, j) on, in both orientations,
    is the final contracted line graph.
   */
  ghost predicate ScannedUpTo(clg: Matrix, facts: seq<Fact>, p: nat, i: nat, j: nat)
    requires i < j
  {
    && IsSquare(clg, p)
    && forall a, b {:trigger ClgEntry(facts, a, b)} | 0 <= a < p && 0 <= b < p ::
         clg[a][b] + PairsFrom(facts, Predicates(a, b), i, j) + PairsFrom(facts, Predicates(b, a), i, j)
           == ClgEntry(facts, a, b)
  }

  /** `clg[a, b] += 1` followed by `clg[b, a] += 1`: a single cell gains two when a == b. */
  function BumpBoth(m: Matrix, p: nat, a: nat, b: nat): (r: Matrix)
    requires IsSquare(m, p) && a < p && b < p
    ensures IsSquare(r, p)
    ensures MatrixSum(r) == MatrixSum(m) + 2
  {
    Increment(Increment(m, a, b), b, a)
  }

  /** Visiting pair (i, j) of the scan, and bumping both mirrored cells when it shares a resource, moves the scan on. */
  lemma VisitPair(clg: Matrix, next: Matrix, facts: seq<Fact>, p: nat, i: nat, j: nat)
    requires i < j < |facts| && ScannedUpTo(clg, facts, p, i, j)
    requires ContainSameResource(facts[i], facts[j]) ==> facts[i].pred < p && facts[j].pred < p
    requires next == if ContainSameResource(facts[i], facts[j])
                     then BumpBoth(clg, p, facts[i].pred, facts[j].pred)
                     else clg
    ensures ScannedUpTo(next, facts, p, i, j + 1)
  {
    var pa, pb := facts[i].pred, facts[j].pred;
    var shares := ContainSameResource(facts[i], facts[j]);
    forall a, b | 0 <= a < p && 0 <= b < p
      ensures next[a][b] + PairsFrom(facts, Predicates(a, b), i, j + 1) + PairsFrom(facts, Predicates(b, a), i, j + 1)
                == ClgEntry(facts, a, b)
    {
      assert PairsFrom(facts, Predicates(a, b), i, j)
        == (if shares && pa == a && pb == b then 1 else 0) + PairsFrom(facts, Predicates(a, b), i, j + 1);
      assert PairsFrom(facts, Predicates(b, a), i, j)
        == (if shares && pa == b && pb == a then 1 else 0) + PairsFrom(facts, Predicates(b, a), i, j + 1);
    }
  }

  /** Every sharing pair the scan visited before (i, j) has both predicates inside the matrix. */
  ghost predicate CheckedBefore(facts: seq<Fact>, p: nat, i: nat, j: nat) {
    forall i', j' {:trigger ContainSameResource(facts[i'], facts[j'])} | 0 <= i' <= i && i' < j' < |facts| && (i' < i || j' < j)
                    && ContainSameResource(facts[i'], facts[j']) ::
      facts[i'].pred < p && facts[j'].pred < p
  }

  /** When the scan is over, the matrix is the contracted line graph and every sharing pair was in range. */
  lemma ScanComplete(clg: Matrix, facts: seq<Fact>, p: nat, i: nat)
    requires |facts| <= i + 1 && ScannedUpTo(clg, facts, p, i, i + 1) && CheckedBefore(facts, p, i, i + 1)
    ensures IsClg(clg, facts, p) && PredicatesInRange(facts, p)
    ensures PairsFrom(facts, AnySharing, i, i + 1) == 0
  {
  }

  /** Once row i of the scan is exhausted, the scan continues at (i + 1, i + 2). */
  lemma NextRow(clg: Matrix, facts: seq<Fact>, p: nat, i: nat)
    requires i + 1 < |facts| && ScannedUpTo(clg, facts, p, i, |facts|)
    ensures ScannedUpTo(clg, facts, p, i + 1, i + 2)
  {
    forall a, b | 0 <= a < p && 0 <= b < p
      ensures clg[a][b] + PairsFrom(facts, Predicates(a, b), i + 1, i + 2) + PairsFrom(facts, Predicates(b, a), i + 1, i + 2)
                == ClgEntry(facts, a, b)
    {
      assert PairsFrom(facts, Predicates(a, b), i, |facts|) == PairsFrom(facts, Predicates(a, b), i + 1, i + 2);
      assert PairsFrom(facts, Predicates(b, a), i, |facts|) == PairsFrom(facts, Predicates(b, a), i + 1, i + 2);
    }
  }

  /**
    `generateClg`: the identity, plus one at [p_i, p_j] and one at [p_j, p_i] for every pair of
    fact indices i < j that share a resource. Fails exactly when such a pair has a predicate
    outside the matrix.
   */
  method GenerateClg(facts: seq<Fact>, p: nat) returns (r: Result<Matrix, ClgError>)
    ensures r.Success? <==> PredicatesInRange(facts, p)
    ensures r.Success? ==> IsClg(r.value, facts, p)
    ensures r.Success? ==> MatrixSum(r.value) == p + 2 * SharingPairs(facts)
    ensures r.Failure? ==> var e := r.error;
              && e.i < e.j < |facts|
              && ContainSameResource(facts[e.i], facts[e.j])
              && (facts[e.i].pred >= p || facts[e.j].pred >= p)
              && CheckedBefore(facts, p, e.i, e.j)
  {
    var clg := Identity(p);
    var i := 0;
    while i + 1 < |facts|
      invariant ScannedUpTo(clg, facts, p, i, i + 1)
      invariant MatrixSum(clg) + 2 * PairsFrom(facts, AnySharing, i, i + 1) == p + 2 * SharingPairs(facts)
      invariant CheckedBefore(facts, p, i, i + 1)
    {
      var row := ScanRow(clg, facts, p, i);
      if row.Failure? {
        return Failure(row.error);
      }
      clg := row.value;
      NextRow(clg, facts, p, i);
      i := i + 1;
    }
    ScanComplete(clg, facts, p, i);
    return Success(clg);
  }

  /**
    The inner loop of `generateClg`: visits the pairs (i, i+1) .. (i, |facts|-1), bumping both
    mirrored cells for each pair that shares a resource.
   */
  method ScanRow(clg: Matrix, facts: seq<Fact>, p: nat, i: nat) returns (r: Result<Matrix, ClgError>)
    requires i + 1 < |facts|
    requires ScannedUpTo(clg, facts, p, i, i + 1) && CheckedBefore(facts, p, i, i + 1)
    ensures r.Success? ==> ScannedUpTo(r.value, facts, p, i, |facts|) && CheckedBefore(facts, p, i, |facts|)
    ensures r.Success? ==> MatrixSum(r.value) + 2 * PairsFrom(facts, AnySharing, i, |facts|)
                             == MatrixSum(clg) + 2 * PairsFrom(facts, AnySharing, i, i + 1)
    ensures r.Failure? ==> var e := r.error;
              && e.i == i && i < e.j < |facts|
              && ContainSameResource(facts[e.i], facts[e.j])
              && (facts[e.i].pred >= p || facts[e.j].pred >= p)
              && CheckedBefore(facts, p, e.i, e.j)
  {
    var m := clg;
    var j := i + 1;
    while j < |facts|
      invariant i + 1 <= j <= |facts|
      invariant ScannedUpTo(m, facts, p, i, j)
      invariant MatrixSum(m) + 2 * PairsFrom(facts, AnySharing, i, j) == MatrixSum(clg) + 2 * PairsFrom(facts, AnySharing, i, i + 1)
      invariant CheckedBefore(facts, p, i, j)
    {
      var fact1 := facts[i];
      var fact2 := facts[j];
      if ContainSameResource(fact1, fact2) && (fact1.pred >= p || fact2.pred >= p) {
        return Failure(PredicateOutOfRange(i, j));
      }
      ghost var before := m;
      if ContainSameResource(fact1, fact2) {
        m := BumpBoth(m, p, fact1.pred, fact2.pred);
      }
      VisitPair(before, m, facts, p, i, j);
      j := j + 1;
    }
    return Success(m);
  }

  /** The contracted line graph is symmetric. */
  lemma ClgSymmetric(m: Matrix, facts: seq<Fact>, p: nat)
    requires IsClg(m, facts, p)
    ensures forall a, b | 0 <= a < p && 0 <= b < p :: m[a][b] == m[b][a]
  {
  }

  /** A diagonal cell holds one plus twice the sharing pairs whose predicates are both that one. */
  lemma ClgDiagonal(m: Matrix, facts: seq<Fact>, p: nat, a: nat)
    requires IsClg(m, facts, p) && a < p
    ensures m[a][a] == 1 + 2 * CoOccurrences(facts, a, a)
    ensures m[a][a] >= 1
  {
  }

  /** With at most one fact there is no pair, and the contracted line graph is the identity. */
  lemma ClgOfAtMostOneFact(m: Matrix, facts: seq<Fact>, p: nat)
    requires IsClg(m, facts, p) && |facts| <= 1
    ensures m == Identity(p)
  {
    var id := Identity(p);
    forall a | 0 <= a < p
      ensures m[a] == id[a]
    {
      assert forall b | 0 <= b < p :: m[a][b] == id[a][b];
    }
  }

  /** `_countCoOccurences(ri)`: how many entries of row `ri` are positive. */
  method CountCoOccurrences(clg: Matrix, p: nat, ri: nat) returns (counter: nat)
    requires IsSquare(clg, p) && ri < p
    ensures counter == CountNonZero(clg[ri])
    ensures counter == |NonZeroColumns(clg[ri])|
  {
    counter := 0;
    var j := 0;
    while j < p
      invariant 0 <= j <= p
      invariant counter == CountNonZero(clg[ri][..j])
    {
      assert clg[ri][..j + 1][..j] == clg[ri][..j];
      if clg[ri][j] > 0 {
        counter := counter + 1;
      }
      j := j + 1;
    }
    assert clg[ri][..p] == clg[ri];
    CountNonZeroIsCardinality(clg[ri]);
  }

  /** In a contracted line graph every row counts between one and `p` positive entries: the divisor is never zero. */
  lemma {:induction false} ClgRowCountBounds(m: Matrix, facts: seq<Fact>, p: nat, ri: nat)
    requires IsClg(m, facts, p) && ri < p
    ensures 1 <= CountNonZero(m[ri]) <= p
  {
    CountNonZeroPositive(m[ri], ri);
  }

  /** Some row that gets scored (it has a column to its right) has no positive entry. */
  ghost predicate HasEmptyScoredRow(clg: Matrix, p: nat)
    requires IsSquare(clg, p)
  {
    exists i | 0 <= i < p - 1 :: CountNonZero(clg[i]) == 0
  }

  /** `_calculateTfIdf(ri, rj)`, with the logarithms left to `score`: it sees [ri, rj], `p` and the row count of `ri`. */
  function PairScore(clg: Matrix, p: nat, score: (nat, nat, nat) -> real, ri: nat, rj: nat): real
    requires IsSquare(clg, p) && ri < p && rj < p
  {
    score(clg[ri][rj], p, CountNonZero(clg[ri]))
  }

  /** Cell [a, b] of the TF-IDF matrix: one on the diagonal, else the score of the pair with the lower index first. */
  function TfIdfEntry(clg: Matrix, p: nat, score: (nat, nat, nat) -> real, a: nat, b: nat): real
    requires IsSquare(clg, p) && a < p && b < p
  {
    if a == b then 1.0
    else if a < b then PairScore(clg, p, score, a, b)
    else PairScore(clg, p, score, b, a)
  }

  /** The TF-IDF matrix after scoring the pairs before (i, j) in scan order; the rest still holds the identity. */
  ghost function PartialTfIdf(clg: Matrix, p: nat, score: (nat, nat, nat) -> real, i: nat, j: nat, a: nat, b: nat): real
    requires IsSquare(clg, p) && a < p && b < p
  {
    var lo := if a < b then a else b;
    var hi := if a < b then b else a;
    if a != b && (lo < i || (lo == i && hi < j)) then TfIdfEntry(clg, p, score, a, b)
    else if a == b then 1.0
    else 0.0
  }

  /** The real-valued `np.eye(n, n)`. */
  function RealIdentity(n: nat): (m: seq<seq<real>>)
    ensures IsSquare(m, n)
    ensures forall i, j | 0 <= i < n && 0 <= j < n :: m[i][j] == (if i == j then 1.0 else 0.0)
  {
    seq(n, i => seq(n, j => if i == j then 1.0 else 0.0))
  }

  /**
    `generateTfIdf`: the identity, with both [i, j] and [j, i] set to the score of (i, j) for
    every i < j. Fails exactly when a scored row has no positive entry (the division by zero).
   */
  method GenerateTfIdf(clg: Matrix, p: nat, score: (nat, nat, nat) -> real)
    returns (r: Result<seq<seq<real>>, TfIdfError>)
    requires IsSquare(clg, p)
    ensures r.Failure? <==> HasEmptyScoredRow(clg, p)
    ensures r.Failure? ==> var row := r.error.row;
              && row < p - 1 && CountNonZero(clg[row]) == 0
              && forall i' | 0 <= i' < row :: CountNonZero(clg[i']) > 0
    ensures r.Success? ==> IsSquare(r.value, p)
    ensures r.Success? ==> forall a, b | 0 <= a < p && 0 <= b < p :: r.value[a][b] == TfIdfEntry(clg, p, score, a, b)
    ensures r.Success? ==> forall a, b | 0 <= a < p && 0 <= b < p :: r.value[a][b] == r.value[b][a]
    ensures r.Success? ==> forall a | 0 <= a < p :: r.value[a][a] == 1.0
  {
    var tfIdf := RealIdentity(p);
    var i := 0;
    while i < p
      invariant 0 <= i <= p
      invariant IsSquare(tfIdf, p)
      invariant forall a, b | 0 <= a < p && 0 <= b < p :: tfIdf[a][b] == PartialTfIdf(clg, p, score, i, i + 1, a, b)
      invariant forall i' | 0 <= i' < i && i' < p - 1 :: CountNonZero(clg[i']) > 0
    {
      var j := i + 1;
      while j < p
        invariant i + 1 <= j <= p
        invariant IsSquare(tfIdf, p)
        invariant forall a, b | 0 <= a < p && 0 <= b < p :: tfIdf[a][b] == PartialTfIdf(clg, p, score, i, j, a, b)
        invariant j > i + 1 ==> CountNonZero(clg[i]) > 0
      {
        var df := CountCoOccurrences(clg, p, i);
        if df == 0 {
          return Failure(ZeroDivision(i));
        }
        var s := score(clg[i][j], p, df);
        tfIdf := tfIdf[i := tfIdf[i][j := s]];
        tfIdf := tfIdf[j := tfIdf[j][i := s]];
        j := j + 1;
      }
      i := i + 1;
    }
    return Success(tfIdf);
  }

  /** Scoring a contracted line graph never divides by zero. */
  lemma ClgHasNoEmptyScoredRow(m: Matrix, facts: seq<Fact>, p: nat)
    requires IsClg(m, facts, p)
    ensures !HasEmptyScoredRow(m, p)
  {
    forall i | 0 <= i < p - 1
      ensures CountNonZero(m[i]) != 0
    {
      ClgRowCountBounds(m, facts, p, i);
    }
  }

  /**
    The facts of `generateAdjacency`, with the relationship count of `getShape` as the number
    of predicates, fit the contracted line graph: `generateClg` cannot fail on them.
   */
  lemma AdjacencyFitsClg(st: GT.Ids, stmts: seq<GT.Statement>)
    requires GT.Valid(st)
    ensures var (ids, facts) := GT.GenerateAdjacency(st, stmts);
            PredicatesInRange(facts, GT.GetShape(ids).2)
  {
    var (ids, facts) := GT.GenerateAdjacency(st, stmts);
    forall i | 0 <= i < |facts|
      ensures facts[i].pred < ids.relIdCount
    {
      assert facts[i] in facts;
    }
  }

  /**
    Facts (A, B, p) and (B, C, p), numbered A = 0, B = 1, C = 2, p = 0, share resource B: the
    diagonal cell of p holds the seed 1 plus 2 for the one sharing pair.
   */
  lemma SharedResourceExample()
    ensures ClgEntry([GT.Fact(0, 1, 0), GT.Fact(1, 2, 0)], 0, 0) == 3
  {
    var facts := [GT.Fact(0, 1, 0), GT.Fact(1, 2, 0)];
    assert PairsFrom(facts, Predicates(0, 0), 0, 2) == 0;
  }
}
