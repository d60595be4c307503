/** `localAlignment` of `local_alignment_algo.py`: Smith-Waterman. Scores never
    drop below zero, a zero cell stops the traceback, and the traceback starts
    from the first cell, in row-major order, holding the highest positive score,
    or from the corner `(0, 0)` when no score is positive. */
module LocalAlign {
  import opened Alignment
  import GlobalAlign

  /** `sM[i][j]`: the best score of an alignment of a suffix of `A[:i]` with a
      suffix of `B[:j]`, or zero. */
  function Score(A: string, B: string, sc: Scoring, i: nat, j: nat): (r: int)
    requires i <= |A| && j <= |B|
    ensures r >= 0
    ensures i == 0 || j == 0 ==> r == 0
    decreases i + j
  {
    if i == 0 || j == 0 then 0
    else
      Max(0, Max(Score(A, B, sc, i - 1, j - 1) + AssignScore(A[i - 1], B[j - 1], sc),
                 Max(Score(A, B, sc, i - 1, j) + sc.gap, Score(A, B, sc, i, j - 1) + sc.gap)))
  }

  /** `cM[i][j]`: `STOP` on the borders and wherever the score is zero, otherwise
      the first of `DIAG`, `UP`, `LEFT` whose value is the score. */
  function CaseAt(A: string, B: string, sc: Scoring, i: nat, j: nat): Tag
    requires i <= |A| && j <= |B|
  {
    if i == 0 || j == 0 then Stop
    else
      var v1 := Score(A, B, sc, i - 1, j - 1) + AssignScore(A[i - 1], B[j - 1], sc);
      var v2 := Score(A, B, sc, i - 1, j) + sc.gap;
      var best := Score(A, B, sc, i, j);
      if best == 0 then Stop else if best == v1 then Diag else if best == v2 then Up else Left
  }

  function ScoreMatrix(A: string, B: string, sc: Scoring): seq<seq<int>>
  {
    seq(|A| + 1, i requires 0 <= i <= |A| => seq(|B| + 1, j requires 0 <= j <= |B| => Score(A, B, sc, i, j)))
  }

  function CaseMatrix(A: string, B: string, sc: Scoring): seq<seq<Tag>>
  {
    seq(|A| + 1, i requires 0 <= i <= |A| => seq(|B| + 1, j requires 0 <= j <= |B| => CaseAt(A, B, sc, i, j)))
  }

  // ---------------------------------------------------------------------------
  // The running maximum

  /** `(max_score, max_i, max_j)` after the filling loop, starting from `st`, has
      visited row `i` up to column `j`: each score that beats the running maximum
      replaces it. */
  function ScanRow(A: string, B: string, sc: Scoring, st: (int, nat, nat), i: nat, j: nat): (int, nat, nat)
    requires i <= |A| && j <= |B|
  {
    if j == 0 then st
    else
      var prev := ScanRow(A, B, sc, st, i, j - 1);
      var s := Score(A, B, sc, i, j);
      if s > prev.0 then (s, i, j) else prev
  }

  /** The running maximum before the first cell of row `i` (`i == |A| + 1`: once
      the whole matrix has been filled). */
  function ScanBefore(A: string, B: string, sc: Scoring, i: nat): (int, nat, nat)
    requires 1 <= i <= |A| + 1
  {
    if i == 1 then (0, 0, 0) else ScanRow(A, B, sc, ScanBefore(A, B, sc, i - 1), i - 1, |B|)
  }

  function ScanAfter(A: string, B: string, sc: Scoring, i: nat, j: nat): (int, nat, nat)
    requires 1 <= i <= |A| && j <= |B|
  {
    ScanRow(A, B, sc, ScanBefore(A, B, sc, i), i, j)
  }

  /** `(max_score, max_i, max_j)` once the whole matrix has been filled. */
  function Best(A: string, B: string, sc: Scoring): (int, nat, nat)
  {
    ScanBefore(A, B, sc, |A| + 1)
  }

  /** Cell `(p, q)` comes before cell `(i, j)` in the order the matrix is filled. */
  predicate Earlier(p: int, q: int, i: int, j: int)
  {
    p < i || (p == i && q < j)
  }

  /** The running maximum is the highest score among the visited cells, held by
      the first visited cell that reaches it; it stays at the corner `(0, 0)`
      while every visited score is zero. */
  lemma {:induction false} ScanIsFirstMax(A: string, B: string, sc: Scoring, i: nat, j: nat)
    requires 1 <= i <= |A| && j <= |B|
    ensures var st := ScanAfter(A, B, sc, i, j);
      && st.1 <= |A| && st.2 <= |B|
      && st.0 == Score(A, B, sc, st.1, st.2)
      && (st.0 == 0 <==> st.1 == 0 && st.2 == 0)
      && (st.0 > 0 ==> 1 <= st.1 && 1 <= st.2 && Earlier(st.1, st.2, i, j + 1))
      && (forall p, q :: 1 <= p <= |A| && 1 <= q <= |B| && Earlier(p, q, i, j + 1) ==> Score(A, B, sc, p, q) <= st.0)
      && (forall p, q :: 1 <= p <= |A| && 1 <= q <= |B| && Earlier(p, q, st.1, st.2) ==> Score(A, B, sc, p, q) < st.0)
    decreases i, j
  {
    if j == 0 {
      if i > 1 {
        assert ScanAfter(A, B, sc, i, j) == ScanAfter(A, B, sc, i - 1, |B|);
        ScanIsFirstMax(A, B, sc, i - 1, |B|);
      }
    } else {
      assert ScanRow(A, B, sc, ScanBefore(A, B, sc, i), i, j - 1) == ScanAfter(A, B, sc, i, j - 1);
      ScanIsFirstMax(A, B, sc, i, j - 1);
    }
  }

  /** The local score is the highest entry of the whole score matrix, and the
      traceback starts from the first cell holding it. */
  lemma BestIsFirstMax(A: string, B: string, sc: Scoring)
    ensures var b := Best(A, B, sc);
      && b.1 <= |A| && b.2 <= |B|
      && b.0 == Score(A, B, sc, b.1, b.2)
      && (b.0 == 0 <==> b.1 == 0 && b.2 == 0)
      && (forall p, q :: 0 <= p <= |A| && 0 <= q <= |B| ==> Score(A, B, sc, p, q) <= b.0)
      && (forall p, q :: 1 <= p <= |A| && 1 <= q <= |B| && Earlier(p, q, b.1, b.2) ==> Score(A, B, sc, p, q) < b.0)
  {
    if |A| > 0 {
      assert Best(A, B, sc) == ScanAfter(A, B, sc, |A|, |B|);
      ScanIsFirstMax(A, B, sc, |A|, |B|);
    }
  }

  // ---------------------------------------------------------------------------
  // The case matrix and the traceback

  /** The case matrix never steps outside, each recorded case is the one the
      score came from, and every `STOP` sits on a zero score. */
  lemma MatricesAgree(A: string, B: string, sc: Scoring)
    ensures ScoresFollowTags(A, B, sc, ScoreMatrix(A, B, sc), CaseMatrix(A, B, sc))
    ensures forall i, j :: 0 <= i <= |A| && 0 <= j <= |B| ==>
      (CaseMatrix(A, B, sc)[i][j] == Stop <==> ScoreMatrix(A, B, sc)[i][j] == 0)
  {
    CasesFit(A, B, sc);
    StepsScore(A, B, sc);
  }

  lemma CasesFit(A: string, B: string, sc: Scoring)
    ensures TagsInBounds(CaseMatrix(A, B, sc), |A|, |B|)
    ensures forall i, j :: 0 <= i <= |A| && 0 <= j <= |B| ==>
      (CaseMatrix(A, B, sc)[i][j] == Stop <==> ScoreMatrix(A, B, sc)[i][j] == 0)
  {
    var S, M := ScoreMatrix(A, B, sc), CaseMatrix(A, B, sc);
    forall i, j | 0 <= i <= |A| && 0 <= j <= |B|
      ensures TagFits(M[i][j], i, j) && (M[i][j] == Stop <==> S[i][j] == 0)
    {
      assert M[i][j] == CaseAt(A, B, sc, i, j) && S[i][j] == Score(A, B, sc, i, j);
      CaseFits(A, B, sc, i, j);
    }
  }

  lemma StepsScore(A: string, B: string, sc: Scoring)
    requires TagsInBounds(CaseMatrix(A, B, sc), |A|, |B|)
    ensures forall i, j :: 0 <= i <= |A| && 0 <= j <= |B| ==>
      StepScore(A, B, sc, ScoreMatrix(A, B, sc), CaseMatrix(A, B, sc), i, j)
  {
    var S, M := ScoreMatrix(A, B, sc), CaseMatrix(A, B, sc);
    forall i, j | 0 <= i <= |A| && 0 <= j <= |B|
      ensures StepScore(A, B, sc, S, M, i, j)
    {
      assert M[i][j] == CaseAt(A, B, sc, i, j) && S[i][j] == Score(A, B, sc, i, j);
      if 0 < i && 0 < j {
        assert S[i - 1][j - 1] == Score(A, B, sc, i - 1, j - 1);
        assert S[i - 1][j] == Score(A, B, sc, i - 1, j);
        assert S[i][j - 1] == Score(A, B, sc, i, j - 1);
        CaseFits(A, B, sc, i, j);
      }
    }
  }

  /** One cell of the case matrix: its step stays inside, it stops exactly on a
      zero score, and the step it records is the one its score came from. */
  lemma CaseFits(A: string, B: string, sc: Scoring, i: nat, j: nat)
    requires i <= |A| && j <= |B|
    ensures TagFits(CaseAt(A, B, sc, i, j), i, j)
    ensures CaseAt(A, B, sc, i, j) == Stop <==> Score(A, B, sc, i, j) == 0
    ensures CaseAt(A, B, sc, i, j) == Diag ==>
      Score(A, B, sc, i, j) == Score(A, B, sc, i - 1, j - 1) + AssignScore(A[i - 1], B[j - 1], sc)
    ensures CaseAt(A, B, sc, i, j) == Up ==> Score(A, B, sc, i, j) == Score(A, B, sc, i - 1, j) + sc.gap
    ensures CaseAt(A, B, sc, i, j) == Left ==> Score(A, B, sc, i, j) == Score(A, B, sc, i, j - 1) + sc.gap
  {
  }

  /** Where the traceback from the best cell stops. */
  function Start(A: string, B: string, sc: Scoring): (e: (nat, nat))
    ensures e.0 <= Best(A, B, sc).1 <= |A| && e.1 <= Best(A, B, sc).2 <= |B|
  {
    BestIsFirstMax(A, B, sc);
    MatricesAgree(A, B, sc);
    TraceEnd(A, B, CaseMatrix(A, B, sc), Best(A, B, sc).1, Best(A, B, sc).2)
  }

  /** The columns the traceback collects from the best cell. */
  function BestCols(A: string, B: string, sc: Scoring): seq<Column>
  {
    BestIsFirstMax(A, B, sc);
    MatricesAgree(A, B, sc);
    TraceCols(A, B, CaseMatrix(A, B, sc), Best(A, B, sc).1, Best(A, B, sc).2)
  }

  /** The traceback from the best cell collects an alignment of `A[i0:max_i]`
      with `B[j0:max_j]` that scores the local score; it is empty exactly when
      the local score is zero. */
  lemma Attained(A: string, B: string, sc: Scoring)
    ensures var b, e, cols := Best(A, B, sc), Start(A, B, sc), BestCols(A, B, sc);
      && ConsumedA(cols) == A[e.0..b.1] && ConsumedB(cols) == B[e.1..b.2]
      && ColumnsScore(cols, sc) == b.0
      && (|cols| == 0 <==> b.0 == 0)
  {
    var S, M := ScoreMatrix(A, B, sc), CaseMatrix(A, B, sc);
    var b := Best(A, B, sc);
    BestIsFirstMax(A, B, sc);
    MatricesAgree(A, B, sc);
    TraceConsumes(A, B, M, b.1, b.2);
    TraceScore(A, B, sc, S, M, b.1, b.2);
    if b.0 == 0 {
      assert M[0][0] == Stop;
    }
  }

  /** With a gap penalty that is not a bonus, no alignment of a suffix of
      `A[:i]` with a suffix of `B[:j]` scores more than `sM[i][j]`. */
  lemma {:induction false} ColumnsOptimal(A: string, B: string, sc: Scoring, cols: seq<Column>, i0: nat, i: nat, j0: nat, j: nat)
    requires sc.gap <= 0
    requires i0 <= i <= |A| && j0 <= j <= |B|
    requires ConsumedA(cols) == A[i0..i] && ConsumedB(cols) == B[j0..j]
    ensures ColumnsScore(cols, sc) <= Score(A, B, sc, i, j)
    decreases |cols|
  {
    if |cols| > 0 {
      var init, last := cols[..|cols| - 1], cols[|cols| - 1];
      match last
      case Both(a, b) =>
        SnocSlice(ConsumedA(init), a, A, i0, i);
        SnocSlice(ConsumedB(init), b, B, j0, j);
        ColumnsOptimal(A, B, sc, init, i0, i - 1, j0, j - 1);
      case OnlyA(a) =>
        SnocSlice(ConsumedA(init), a, A, i0, i);
        assert ConsumedB(init) == B[j0..j];
        ColumnsOptimal(A, B, sc, init, i0, i - 1, j0, j);
      case OnlyB(b) =>
        SnocSlice(ConsumedB(init), b, B, j0, j);
        assert ConsumedA(init) == A[i0..i];
        ColumnsOptimal(A, B, sc, init, i0, i, j0, j - 1);
    }
  }

  /** With a gap penalty that is not a bonus, no alignment of a piece of `A` with
      a piece of `B`, written as three rows, scores more than the local score. */
  lemma LocalOptimal(A: string, B: string, sc: Scoring, x: string, m: string, y: string, i0: nat, i1: nat, j0: nat, j1: nat)
    requires sc.gap <= 0
    requires i0 <= i1 <= |A| && j0 <= j1 <= |B|
    requires IsAlignmentOf(x, m, y, A[i0..i1], B[j0..j1])
    ensures MarkerScore(m, sc) <= Best(A, B, sc).0
  {
    ParseAlignment(x, m, y, A[i0..i1], B[j0..j1], sc);
    ColumnsOptimal(A, B, sc, ColumnsOf(x, y), i0, i1, j0, j1);
    BestIsFirstMax(A, B, sc);
  }

  /** Swapping the sequences transposes the score matrix: `sM[i][j]` for `A`
      against `B` is `sM[j][i]` for `B` against `A`. */
  lemma {:induction false} LocalTranspose(A: string, B: string, sc: Scoring, i: nat, j: nat)
    requires i <= |A| && j <= |B|
    ensures Score(A, B, sc, i, j) == Score(B, A, sc, j, i)
    decreases i + j
  {
    if i > 0 && j > 0 {
      var p, q := i - 1, j - 1;
      LocalTranspose(A, B, sc, p, q);
      LocalTranspose(A, B, sc, p, j);
      LocalTranspose(A, B, sc, i, q);
      TransposeInner(A, B, sc, i, j, p, q);
    }
  }

  /** An inner cell transposes once its three neighbours do (`p` and `q` name the
      previous row and column): the substitution score and the choice among the
      three moves do not depend on the order of the sequences. */
  lemma TransposeInner(A: string, B: string, sc: Scoring, i: nat, j: nat, p: nat, q: nat)
    requires 0 < i <= |A| && 0 < j <= |B| && p == i - 1 && q == j - 1
    requires Score(A, B, sc, p, q) == Score(B, A, sc, q, p)
    requires Score(A, B, sc, p, j) == Score(B, A, sc, j, p)
    requires Score(A, B, sc, i, q) == Score(B, A, sc, q, i)
    ensures Score(A, B, sc, i, j) == Score(B, A, sc, j, i)
  {
    AssignScoreSymmetric(A[p], B[q], sc);
    var d := Score(A, B, sc, p, q) + AssignScore(A[p], B[q], sc);
    var u, l := Score(A, B, sc, p, j) + sc.gap, Score(A, B, sc, i, q) + sc.gap;
    ScoreStep(A, B, sc, i, j, d, u, l);
    ScoreStep(B, A, sc, j, i, d, l, u);
    MaxSwap(d, u, l);
  }

  /** An inner cell of the score matrix is the best of zero and its three moves:
      `d` along the diagonal, `u` from above, `l` from the left. */
  lemma ScoreStep(A: string, B: string, sc: Scoring, i: nat, j: nat, d: int, u: int, l: int)
    requires 0 < i <= |A| && 0 < j <= |B|
    requires d == Score(A, B, sc, i - 1, j - 1) + AssignScore(A[i - 1], B[j - 1], sc)
    requires u == Score(A, B, sc, i - 1, j) + sc.gap && l == Score(A, B, sc, i, j - 1) + sc.gap
    ensures Score(A, B, sc, i, j) == Max(0, Max(d, Max(u, l)))
  {
  }

  /** The local score does not depend on which sequence comes first: both are the
      highest entry of a matrix and of its transpose. */
  lemma LocalSymmetric(A: string, B: string, sc: Scoring)
    ensures Best(A, B, sc).0 == Best(B, A, sc).0
  {
    var ab, ba := Best(A, B, sc), Best(B, A, sc);
    BestIsFirstMax(A, B, sc);
    BestIsFirstMax(B, A, sc);
    LocalTranspose(A, B, sc, ab.1, ab.2);
    LocalTranspose(B, A, sc, ba.1, ba.2);
  }

  /** With a gap penalty that is not a bonus, the local score is at least the
      global score: the global alignment is one of the alignments of pieces. */
  lemma LocalAtLeastGlobal(A: string, B: string, sc: Scoring)
    requires sc.gap <= 0
    ensures GlobalAlign.Score(A, B, sc, |A|, |B|) <= Best(A, B, sc).0
  {
    var cols := TraceCols(A, B, GlobalAlign.CaseMatrix(A, B, sc), |A|, |B|);
    GlobalAlign.Attained(A, B, sc);
    assert A[0..|A|] == A && B[0..|B|] == B;
    ColumnsOptimal(A, B, sc, cols, 0, |A|, 0, |B|);
    BestIsFirstMax(A, B, sc);
  }

  // ---------------------------------------------------------------------------
  // The program

  /** Row `i` of the score matrix and of the case matrix, entry by entry. */
  predicate RowsAre(A: string, B: string, sc: Scoring, i: nat, row: seq<int>, tags: seq<Tag>)
  {
    && i <= |A| && |row| == |B| + 1 && |tags| == |B| + 1
    && forall j :: 0 <= j <= |B| ==> row[j] == Score(A, B, sc, i, j) && tags[j] == CaseAt(A, B, sc, i, j)
  }

  lemma MatricesOfRows(A: string, B: string, sc: Scoring, sM: seq<seq<int>>, cM: seq<seq<Tag>>)
    requires |sM| == |A| + 1 && |cM| == |A| + 1
    requires forall r :: 0 <= r <= |A| ==> RowsAre(A, B, sc, r, sM[r], cM[r])
    ensures sM == ScoreMatrix(A, B, sc) && cM == CaseMatrix(A, B, sc)
  {
    forall r | 0 <= r <= |A|
      ensures sM[r] == ScoreMatrix(A, B, sc)[r] && cM[r] == CaseMatrix(A, B, sc)[r]
    {
      assert RowsAre(A, B, sc, r, sM[r], cM[r]);
    }
  }

  lemma RowStep(A: string, B: string, sc: Scoring, i: nat, j: nat, row: seq<int>, tags: seq<Tag>, best: int, tag: Tag)
    requires i <= |A| && j <= |B| && |row| == j && |tags| == j
    requires forall k :: 0 <= k < j ==> row[k] == Score(A, B, sc, i, k) && tags[k] == CaseAt(A, B, sc, i, k)
    requires best == Score(A, B, sc, i, j) && tag == CaseAt(A, B, sc, i, j)
    ensures forall k :: 0 <= k <= j ==>
      (row + [best])[k] == Score(A, B, sc, i, k) && (tags + [tag])[k] == CaseAt(A, B, sc, i, k)
  {
  }

  /** One more cell of the scan, whose score is `best`. */
  lemma ScanStep(A: string, B: string, sc: Scoring, st: (int, nat, nat), i: nat, j: nat, best: int)
    requires i <= |A| && 1 <= j <= |B| && best == Score(A, B, sc, i, j)
    ensures var before := ScanRow(A, B, sc, st, i, j - 1);
      ScanRow(A, B, sc, st, i, j) == if best > before.0 then (best, i, j) else before
  {
  }

  /** The body of the inner loop: the cell's score from its upper-left, upper and
      left neighbours, and the case recorded for it. */
  function Cell(upLeft: int, up: int, left: int, a: char, b: char, sc: Scoring): (int, Tag)
  {
    var v1 := upLeft + AssignScore(a, b, sc);
    var v2 := up + sc.gap;
    var v3 := left + sc.gap;
    var best := Max(0, Max(v1, Max(v2, v3)));
    if best == 0 then (best, Stop)
    else if best == v1 then (best, Diag)
    else if best == v2 then (best, Up)
    else (best, Left)
  }

  lemma CellIsEntry(A: string, B: string, sc: Scoring, i: nat, j: nat)
    requires 1 <= i <= |A| && 1 <= j <= |B|
    ensures Cell(Score(A, B, sc, i - 1, j - 1), Score(A, B, sc, i - 1, j), Score(A, B, sc, i, j - 1), A[i - 1], B[j - 1], sc)
      == (Score(A, B, sc, i, j), CaseAt(A, B, sc, i, j))
  {
  }

  /** `MATRIX INITIALIZATION` and `MATRIX FILLING`, with the running maximum. */
  method FillMatrices(A: string, B: string, sc: Scoring)
    returns (sM: seq<seq<int>>, cM: seq<seq<Tag>>, maxScore: int, maxI: nat, maxJ: nat)
    ensures sM == ScoreMatrix(A, B, sc) && cM == CaseMatrix(A, B, sc)
    ensures (maxScore, maxI, maxJ) == Best(A, B, sc)
  {
    var m := |A|;
    maxScore, maxI, maxJ := 0, 0, 0;
    sM, cM := InitColumn(A, B, sc);
    var top, topTags := InitRow(A, B, sc);
    sM, cM := sM[0 := top], cM[0 := topTags];
    var i := 1;
    while i <= m
      invariant 1 <= i <= m + 1 && |sM| == m + 1 && |cM| == m + 1
      invariant forall r :: 0 <= r < i ==> RowsAre(A, B, sc, r, sM[r], cM[r])
      invariant forall r :: i <= r <= m ==> sM[r] == [0] && cM[r] == [Stop]
      invariant (maxScore, maxI, maxJ) == ScanBefore(A, B, sc, i)
    {
      var row, tags;
      row, tags, maxScore, maxI, maxJ := FillRow(A, B, sc, i, sM[i - 1], cM[i - 1], maxScore, maxI, maxJ);
      sM := sM[i := row];
      cM := cM[i := tags];
      i := i + 1;
    }
    MatricesOfRows(A, B, sc, sM, cM);
  }

  /** The `for i` loop of `MATRIX INITIALIZATION`: a zero below the corner for
      each symbol of `A`. */
  method InitColumn(A: string, B: string, sc: Scoring) returns (sM: seq<seq<int>>, cM: seq<seq<Tag>>)
    ensures |sM| == |A| + 1 && |cM| == |A| + 1
    ensures forall r :: 0 <= r <= |A| ==> sM[r] == [Score(A, B, sc, r, 0)] && cM[r] == [CaseAt(A, B, sc, r, 0)]
  {
    sM, cM := [[0]], [[Stop]];
    var i := 1;
    while i <= |A|
      invariant 1 <= i <= |A| + 1 && |sM| == i && |cM| == i
      invariant forall r :: 0 <= r < i ==> sM[r] == [0] && cM[r] == [Stop]
    {
      sM := sM + [[0]];
      cM := cM + [[Stop]];
      i := i + 1;
    }
  }

  /** The `for j` loop of `MATRIX INITIALIZATION`: row 0 is all zeros and stops. */
  method InitRow(A: string, B: string, sc: Scoring) returns (top: seq<int>, topTags: seq<Tag>)
    ensures RowsAre(A, B, sc, 0, top, topTags)
  {
    top, topTags := [0], [Stop];
    var j := 1;
    while j <= |B|
      invariant 1 <= j <= |B| + 1 && |top| == j && |topTags| == j
      invariant forall k :: 0 <= k < j ==> top[k] == Score(A, B, sc, 0, k) && topTags[k] == CaseAt(A, B, sc, 0, k)
    {
      RowStep(A, B, sc, 0, j, top, topTags, 0, Stop);
      top := top + [0];
      topTags := topTags + [Stop];
      j := j + 1;
    }
  }

  /** One pass of the inner `for j` loop: row `i` from row `i - 1`, updating the
      running maximum whenever a score beats it. */
  method FillRow(A: string, B: string, sc: Scoring, i: nat, prev: seq<int>, ghost prevTags: seq<Tag>,
                 maxScore0: int, maxI0: nat, maxJ0: nat)
    returns (row: seq<int>, tags: seq<Tag>, maxScore: int, maxI: nat, maxJ: nat)
    requires 1 <= i <= |A|
    requires RowsAre(A, B, sc, i - 1, prev, prevTags)
    ensures RowsAre(A, B, sc, i, row, tags)
    ensures (maxScore, maxI, maxJ) == ScanRow(A, B, sc, (maxScore0, maxI0, maxJ0), i, |B|)
  {
    row, tags := [0], [Stop];
    maxScore, maxI, maxJ := maxScore0, maxI0, maxJ0;
    var done := 0;
    assert ScanRow(A, B, sc, (maxScore0, maxI0, maxJ0), i, 0) == (maxScore0, maxI0, maxJ0);
    while done < |B|
      invariant done <= |B| && |row| == done + 1 && |tags| == done + 1
      invariant forall k :: 0 <= k <= done ==> row[k] == Score(A, B, sc, i, k) && tags[k] == CaseAt(A, B, sc, i, k)
      invariant (maxScore, maxI, maxJ) == ScanRow(A, B, sc, (maxScore0, maxI0, maxJ0), i, done)
    {
      var j := done + 1;
      var cell := Cell(prev[j - 1], prev[j], row[j - 1], A[i - 1], B[j - 1], sc);
      var best, tag := cell.0, cell.1;
      CellIsEntry(A, B, sc, i, j);
      ScanStep(A, B, sc, (maxScore0, maxI0, maxJ0), i, j, best);
      RowStep(A, B, sc, i, j, row, tags, best, tag);
      row := row + [best];
      tags := tags + [tag];
      if best > maxScore {
        maxScore := best;
        maxI, maxJ := i, j;
      }
      done := j;
    }
  }

  /** The three rows `localAlignment` returns. */
  function Rows(A: string, B: string, sc: Scoring): (string, string, string)
  {
    var cols := BestCols(A, B, sc);
    (TopRow(cols), MarkRow(cols), BottomRow(cols))
  }

  /** `localAlignment(A, B, gap_pen, match, mismatch)`: the rows the traceback from
      the first highest cell renders, and that highest score. The score is at
      least zero and at least every entry of the matrix; the rows align a piece
      of `A` with a piece of `B`, their comparison row adds up to the score, they
      are empty exactly when the score is zero, and with a gap penalty that is
      not a bonus no alignment of pieces scores more. */
  method LocalAlignment(A: string, B: string, sc: Scoring) returns (alignment: (string, string, string), score: int)
    ensures alignment == Rows(A, B, sc) && score == Best(A, B, sc).0
    ensures score >= 0
    ensures forall i, j :: 0 <= i <= |A| && 0 <= j <= |B| ==> Score(A, B, sc, i, j) <= score
    ensures MarkerScore(alignment.1, sc) == score
    ensures |alignment.0| == |alignment.1| == |alignment.2|
    ensures |alignment.1| == 0 <==> score == 0
    ensures NoGap(A) && NoGap(B) ==>
      var e, b := Start(A, B, sc), Best(A, B, sc);
      IsAlignmentOf(alignment.0, alignment.1, alignment.2, A[e.0..b.1], B[e.1..b.2])
    ensures sc.gap <= 0 ==>
      forall x, m, y, i0, i1, j0, j1 ::
        (0 <= i0 <= i1 <= |A| && 0 <= j0 <= j1 <= |B| && IsAlignmentOf(x, m, y, A[i0..i1], B[j0..j1])) ==>
          MarkerScore(m, sc) <= score
  {
    var sM, cM, maxScore, maxI, maxJ := FillMatrices(A, B, sc);
    BestIsFirstMax(A, B, sc);
    MatricesAgree(A, B, sc);
    var seqA, seqcomp, seqB := Traceback(A, B, maxI, maxJ, cM);
    alignment := (seqA, seqcomp, seqB);
    score := maxScore;
    RowsAttain(A, B, sc);
    if sc.gap <= 0 {
      BestOverPieces(A, B, sc);
    }
  }

  /** The rows `localAlignment` returns have equal length, add up to the local
      score, are empty exactly when that score is zero, and for gap-free inputs
      align `A[i0:max_i]` with `B[j0:max_j]`. */
  lemma RowsAttain(A: string, B: string, sc: Scoring)
    ensures var rows := Rows(A, B, sc);
      && MarkerScore(rows.1, sc) == Best(A, B, sc).0
      && |rows.0| == |rows.1| == |rows.2|
      && (|rows.1| == 0 <==> Best(A, B, sc).0 == 0)
    ensures NoGap(A) && NoGap(B) ==>
      var e, b, rows := Start(A, B, sc), Best(A, B, sc), Rows(A, B, sc);
      IsAlignmentOf(rows.0, rows.1, rows.2, A[e.0..b.1], B[e.1..b.2])
  {
    var cols := BestCols(A, B, sc);
    Attained(A, B, sc);
    MarkRowScore(cols, sc);
    if NoGap(A) && NoGap(B) {
      var e, b := Start(A, B, sc), Best(A, B, sc);
      assert NoGap(A[e.0..b.1]) && NoGap(B[e.1..b.2]);
      RenderIsAlignment(cols, sc);
    }
  }

  /** With a gap penalty that is not a bonus, the local score bounds the score of
      every alignment of a piece of `A` with a piece of `B`. */
  lemma BestOverPieces(A: string, B: string, sc: Scoring)
    requires sc.gap <= 0
    ensures forall x, m, y, i0, i1, j0, j1 ::
      (0 <= i0 <= i1 <= |A| && 0 <= j0 <= j1 <= |B| && IsAlignmentOf(x, m, y, A[i0..i1], B[j0..j1])) ==>
        MarkerScore(m, sc) <= Best(A, B, sc).0
  {
    forall x, m, y, i0, i1, j0, j1 | 0 <= i0 <= i1 <= |A| && 0 <= j0 <= j1 <= |B| &&
      IsAlignmentOf(x, m, y, A[i0..i1], B[j0..j1])
      ensures MarkerScore(m, sc) <= Best(A, B, sc).0
    {
      LocalOptimal(A, B, sc, x, m, y, i0, i1, j0, j1);
    }
  }
}
