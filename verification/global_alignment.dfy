/** `globalAlignment` of `global_alignment_algo.py`: Needleman-Wunsch. The score
    matrix and the case matrix are given first as a recurrence (the reference
    definition), then as the row-by-row filling the program performs. */
module GlobalAlign {
  import opened Alignment

  /** `sM[i][j]`: the best score of an alignment of `A[:i]` with `B[:j]`. */
  function Score(A: string, B: string, sc: Scoring, i: nat, j: nat): int
    requires i <= |A| && j <= |B|
    decreases i + j
  {
    if i == 0 && j == 0 then 0
    else if i == 0 then Score(A, B, sc, 0, j - 1) + sc.gap
    else if j == 0 then Score(A, B, sc, i - 1, 0) + sc.gap
    else
      Max(Score(A, B, sc, i - 1, j - 1) + AssignScore(A[i - 1], B[j - 1], sc),
          Max(Score(A, B, sc, i - 1, j) + sc.gap, Score(A, B, sc, i, j - 1) + sc.gap))
  }

  /** `cM[i][j]`: `STOP` at the corner, `LEFT` along the first row, `UP` down the
      first column, and inside the first of `DIAG`, `UP`, `LEFT` whose value is
      the maximum. */
  function CaseAt(A: string, B: string, sc: Scoring, i: nat, j: nat): Tag
    requires i <= |A| && j <= |B|
  {
    if i == 0 && j == 0 then Stop
    else if i == 0 then Left
    else if j == 0 then Up
    else
      var v1 := Score(A, B, sc, i - 1, j - 1) + AssignScore(A[i - 1], B[j - 1], sc);
      var v2 := Score(A, B, sc, i - 1, j) + sc.gap;
      var best := Score(A, B, sc, i, j);
      if best == v1 then Diag else if best == v2 then Up else Left
  }

  function ScoreMatrix(A: string, B: string, sc: Scoring): seq<seq<int>>
  {
    seq(|A| + 1, i requires 0 <= i <= |A| => seq(|B| + 1, j requires 0 <= j <= |B| => Score(A, B, sc, i, j)))
  }

  function CaseMatrix(A: string, B: string, sc: Scoring): seq<seq<Tag>>
  {
    seq(|A| + 1, i requires 0 <= i <= |A| => seq(|B| + 1, j requires 0 <= j <= |B| => CaseAt(A, B, sc, i, j)))
  }

  /** The first column holds `i * gap_pen`. */
  lemma {:induction false} FirstColumnScores(A: string, B: string, sc: Scoring, i: nat)
    requires i <= |A|
    ensures Score(A, B, sc, i, 0) == i * sc.gap
  {
    if i > 0 {
      FirstColumnScores(A, B, sc, i - 1);
      assert (i - 1) * sc.gap + sc.gap == i * sc.gap;
    }
  }

  /** The first row holds `j * gap_pen`. */
  lemma {:induction false} FirstRowScores(A: string, B: string, sc: Scoring, j: nat)
    requires j <= |B|
    ensures Score(A, B, sc, 0, j) == j * sc.gap
  {
    if j > 0 {
      FirstRowScores(A, B, sc, j - 1);
      assert (j - 1) * sc.gap + sc.gap == j * sc.gap;
    }
  }

  /** The case matrix never steps outside, only the corner stops the traceback,
      and each recorded case is the one the score came from. */
  lemma MatricesAgree(A: string, B: string, sc: Scoring)
    ensures ScoresFollowTags(A, B, sc, ScoreMatrix(A, B, sc), CaseMatrix(A, B, sc))
    ensures forall i, j :: 0 <= i <= |A| && 0 <= j <= |B| ==>
      (CaseMatrix(A, B, sc)[i][j] == Stop <==> i == 0 && j == 0)
  {
    var S, M := ScoreMatrix(A, B, sc), CaseMatrix(A, B, sc);
    forall i, j | 0 <= i <= |A| && 0 <= j <= |B|
      ensures TagFits(M[i][j], i, j) && (M[i][j] == Stop <==> i == 0 && j == 0)
    {
    }
    forall i, j | 0 <= i <= |A| && 0 <= j <= |B|
      ensures StepScore(A, B, sc, S, M, i, j)
    {
    }
  }

  /** No alignment of `A[:i]` with `B[:j]` scores more than `sM[i][j]`. */
  lemma {:induction false} ColumnsOptimal(A: string, B: string, sc: Scoring, cols: seq<Column>, i: nat, j: nat)
    requires i <= |A| && j <= |B|
    requires ConsumedA(cols) == A[..i] && ConsumedB(cols) == B[..j]
    ensures ColumnsScore(cols, sc) <= Score(A, B, sc, i, j)
    decreases |cols|
  {
    if |cols| > 0 {
      var init, last := cols[..|cols| - 1], cols[|cols| - 1];
      match last
      case Both(a, b) =>
        SnocPrefix(ConsumedA(init), a, A, i);
        SnocPrefix(ConsumedB(init), b, B, j);
        ColumnsOptimal(A, B, sc, init, i - 1, j - 1);
      case OnlyA(a) =>
        SnocPrefix(ConsumedA(init), a, A, i);
        assert ConsumedB(init) == B[..j];
        ColumnsOptimal(A, B, sc, init, i - 1, j);
      case OnlyB(b) =>
        SnocPrefix(ConsumedB(init), b, B, j);
        assert ConsumedA(init) == A[..i];
        ColumnsOptimal(A, B, sc, init, i, j - 1);
    } else {
      assert |A[..i]| == 0 && |B[..j]| == 0;
    }
  }

  /** The traceback from the last cell collects an alignment of all of `A` with
      all of `B` scoring `sM[m][n]`. */
  lemma Attained(A: string, B: string, sc: Scoring)
    ensures var cols := TraceCols(A, B, CaseMatrix(A, B, sc), |A|, |B|);
      && ConsumedA(cols) == A && ConsumedB(cols) == B
      && ColumnsScore(cols, sc) == Score(A, B, sc, |A|, |B|)
  {
    var S, M := ScoreMatrix(A, B, sc), CaseMatrix(A, B, sc);
    MatricesAgree(A, B, sc);
    TraceConsumes(A, B, M, |A|, |B|);
    TraceScore(A, B, sc, S, M, |A|, |B|);
    var e := TraceEnd(A, B, M, |A|, |B|);
    assert e == (0, 0);
    assert A[0..|A|] == A && B[0..|B|] == B;
  }

  /** The global alignment score does not depend on which sequence comes first. */
  lemma GlobalSymmetric(A: string, B: string, sc: Scoring)
    ensures Score(A, B, sc, |A|, |B|) == Score(B, A, sc, |B|, |A|)
  {
    var ab := TraceCols(A, B, CaseMatrix(A, B, sc), |A|, |B|);
    var ba := TraceCols(B, A, CaseMatrix(B, A, sc), |B|, |A|);
    Attained(A, B, sc);
    Attained(B, A, sc);
    SwapKeeps(ab, sc);
    SwapKeeps(ba, sc);
    assert A[..|A|] == A && B[..|B|] == B;
    ColumnsOptimal(B, A, sc, Swap(ab), |B|, |A|);
    ColumnsOptimal(A, B, sc, Swap(ba), |A|, |B|);
  }

  /** The three rows `globalAlignment` returns. */
  function Rows(A: string, B: string, sc: Scoring): (string, string, string)
  {
    var cols := TraceCols(A, B, CaseMatrix(A, B, sc), |A|, |B|);
    (TopRow(cols), MarkRow(cols), BottomRow(cols))
  }

  /** No alignment of `A` with `B`, written as three rows, scores more than the
      global score; the rows `globalAlignment` returns attain it. */
  lemma GlobalOptimal(A: string, B: string, sc: Scoring, x: string, m: string, y: string)
    requires IsAlignmentOf(x, m, y, A, B)
    ensures MarkerScore(m, sc) <= Score(A, B, sc, |A|, |B|)
  {
    ParseAlignment(x, m, y, A, B, sc);
    assert A[..|A|] == A && B[..|B|] == B;
    ColumnsOptimal(A, B, sc, ColumnsOf(x, y), |A|, |B|);
  }

  /** Row `i` of the score matrix and of the case matrix, entry by entry. */
  predicate RowsAre(A: string, B: string, sc: Scoring, i: nat, row: seq<int>, tags: seq<Tag>)
  {
    && i <= |A| && |row| == |B| + 1 && |tags| == |B| + 1
    && forall j :: 0 <= j <= |B| ==> row[j] == Score(A, B, sc, i, j) && tags[j] == CaseAt(A, B, sc, i, j)
  }

  lemma MatricesOfRows(A: string, B: string, sc: Scoring, sM: seq<seq<int>>, cM: seq<seq<Tag>>)
    requires |sM| == |A| + 1 && |cM| == |A| + 1
    requires forall r :: 0 <= r <= |A| ==> RowsAre(A, B, sc, r, sM[r], cM[r])
    ensures sM == ScoreMatrix(A, B, sc) && cM == CaseMatrix(A, B, sc)
  {
    forall r | 0 <= r <= |A|
      ensures sM[r] == ScoreMatrix(A, B, sc)[r] && cM[r] == CaseMatrix(A, B, sc)[r]
    {
      assert RowsAre(A, B, sc, r, sM[r], cM[r]);
    }
  }

  /** `MATRIX INITIALIZATION` and `MATRIX FILLING`. */
  method FillMatrices(A: string, B: string, sc: Scoring) returns (sM: seq<seq<int>>, cM: seq<seq<Tag>>)
    ensures sM == ScoreMatrix(A, B, sc) && cM == CaseMatrix(A, B, sc)
  {
    var m := |A|;
    sM, cM := InitColumn(A, B, sc);
    var top, topTags := InitRow(A, B, sc);
    sM, cM := sM[0 := top], cM[0 := topTags];
    var i := 1;
    while i <= m
      invariant 1 <= i <= m + 1 && |sM| == m + 1 && |cM| == m + 1
      invariant forall r :: 0 <= r < i ==> RowsAre(A, B, sc, r, sM[r], cM[r])
      invariant forall r :: i <= r <= m ==> sM[r] == [Score(A, B, sc, r, 0)] && cM[r] == [CaseAt(A, B, sc, r, 0)]
    {
      var row, tags := FillRow(A, B, sc, i, sM[i - 1], cM[i - 1], sM[i][0]);
      sM := sM[i := row];
      cM := cM[i := tags];
      i := i + 1;
    }
    MatricesOfRows(A, B, sc, sM, cM);
  }

  /** The `for i` loop of `MATRIX INITIALIZATION`: one single-cell row per symbol
      of `A` below the corner, each a gap penalty below the one above it. */
  method InitColumn(A: string, B: string, sc: Scoring) returns (sM: seq<seq<int>>, cM: seq<seq<Tag>>)
    ensures |sM| == |A| + 1 && |cM| == |A| + 1
    ensures forall r :: 0 <= r <= |A| ==> sM[r] == [Score(A, B, sc, r, 0)] && cM[r] == [CaseAt(A, B, sc, r, 0)]
  {
    sM, cM := [[0]], [[Stop]];
    var i := 1;
    while i <= |A|
      invariant 1 <= i <= |A| + 1 && |sM| == i && |cM| == i
      invariant forall r :: 0 <= r < i ==> sM[r] == [r * sc.gap]
      invariant forall r :: 0 <= r < i ==> cM[r] == [if r == 0 then Stop else Up]
    {
      sM := sM + [[sM[i - 1][0] + sc.gap]];
      cM := cM + [[Up]];
      i := i + 1;
    }
    forall r | 0 <= r <= |A|
      ensures sM[r] == [Score(A, B, sc, r, 0)] && cM[r] == [CaseAt(A, B, sc, r, 0)]
    {
      FirstColumnScores(A, B, sc, r);
    }
  }

  /** The `for j` loop of `MATRIX INITIALIZATION`: row 0 extended one gap penalty
      at a time. */
  method InitRow(A: string, B: string, sc: Scoring) returns (top: seq<int>, topTags: seq<Tag>)
    ensures RowsAre(A, B, sc, 0, top, topTags)
  {
    top, topTags := [0], [Stop];
    var j := 1;
    while j <= |B|
      invariant 1 <= j <= |B| + 1 && |top| == j && |topTags| == j
      invariant forall k :: 0 <= k < j ==> top[k] == Score(A, B, sc, 0, k) && topTags[k] == CaseAt(A, B, sc, 0, k)
    {
      RowStep(A, B, sc, 0, j, top, topTags, top[j - 1] + sc.gap, Left);
      top := top + [top[j - 1] + sc.gap];
      topTags := topTags + [Left];
      j := j + 1;
    }
  }

  /** One pass of the inner `for j` loop: row `i` from row `i - 1`. */
  method FillRow(A: string, B: string, sc: Scoring, i: nat, prev: seq<int>, ghost prevTags: seq<Tag>, first: int)
    returns (row: seq<int>, tags: seq<Tag>)
    requires 1 <= i <= |A|
    requires RowsAre(A, B, sc, i - 1, prev, prevTags) && first == Score(A, B, sc, i, 0)
    ensures RowsAre(A, B, sc, i, row, tags)
  {
    row, tags := [first], [Up];
    var j := 1;
    while j <= |B|
      invariant 1 <= j <= |B| + 1 && |row| == j && |tags| == j
      invariant forall k :: 0 <= k < j ==> row[k] == Score(A, B, sc, i, k) && tags[k] == CaseAt(A, B, sc, i, k)
    {
      var v1 := prev[j - 1] + AssignScore(A[i - 1], B[j - 1], sc);
      var v2 := prev[j] + sc.gap;
      var v3 := row[j - 1] + sc.gap;
      var best := Max(v1, Max(v2, v3));
      ghost var tag := CaseAt(A, B, sc, i, j);
      assert best == Score(A, B, sc, i, j);
      RowStep(A, B, sc, i, j, row, tags, best, tag);
      row := row + [best];
      if best == v1 {
        tags := tags + [Diag];
      } else if best == v2 {
        tags := tags + [Up];
      } else {
        assert best == v3;
        tags := tags + [Left];
      }
      assert tags[j] == tag;
      j := j + 1;
    }
  }

  lemma RowStep(A: string, B: string, sc: Scoring, i: nat, j: nat, row: seq<int>, tags: seq<Tag>, best: int, tag: Tag)
    requires i <= |A| && j <= |B| && |row| == j && |tags| == j
    requires forall k :: 0 <= k < j ==> row[k] == Score(A, B, sc, i, k) && tags[k] == CaseAt(A, B, sc, i, k)
    requires best == Score(A, B, sc, i, j) && tag == CaseAt(A, B, sc, i, j)
    ensures forall k :: 0 <= k <= j ==>
      (row + [best])[k] == Score(A, B, sc, i, k) && (tags + [tag])[k] == CaseAt(A, B, sc, i, k)
  {
  }

  /** `globalAlignment(A, B, gap_pen, match, mismatch)`: the rows the traceback
      from the last cell renders, and the score of the last cell. The rows align
      all of `A` with all of `B`, their comparison row adds up to the score, and
      no alignment scores more. */
  method GlobalAlignment(A: string, B: string, sc: Scoring) returns (alignment: (string, string, string), score: int)
    ensures alignment == Rows(A, B, sc) && score == Score(A, B, sc, |A|, |B|)
    ensures MarkerScore(alignment.1, sc) == score
    ensures NoGap(A) && NoGap(B) ==> IsAlignmentOf(alignment.0, alignment.1, alignment.2, A, B)
    ensures forall x, m, y :: IsAlignmentOf(x, m, y, A, B) ==> MarkerScore(m, sc) <= score
  {
    var sM, cM := FillMatrices(A, B, sc);
    MatricesAgree(A, B, sc);
    var seqA, seqcomp, seqB := Traceback(A, B, |A|, |B|, cM);
    alignment := (seqA, seqcomp, seqB);
    score := sM[|A|][|B|];
    RowsAttain(A, B, sc);
    BestOverAll(A, B, sc);
  }

  /** The rows `globalAlignment` returns add up to the global score, and for
      gap-free inputs they are an alignment of all of `A` with all of `B`. */
  lemma RowsAttain(A: string, B: string, sc: Scoring)
    ensures MarkerScore(Rows(A, B, sc).1, sc) == Score(A, B, sc, |A|, |B|)
    ensures NoGap(A) && NoGap(B) ==> IsAlignmentOf(Rows(A, B, sc).0, Rows(A, B, sc).1, Rows(A, B, sc).2, A, B)
  {
    var cols := TraceCols(A, B, CaseMatrix(A, B, sc), |A|, |B|);
    Attained(A, B, sc);
    MarkRowScore(cols, sc);
    if NoGap(A) && NoGap(B) {
      RenderIsAlignment(cols, sc);
    }
  }

  /** The global score bounds the score of every alignment of `A` with `B`. */
  lemma BestOverAll(A: string, B: string, sc: Scoring)
    ensures forall x, m, y :: IsAlignmentOf(x, m, y, A, B) ==> MarkerScore(m, sc) <= Score(A, B, sc, |A|, |B|)
  {
    forall x, m, y | IsAlignmentOf(x, m, y, A, B)
      ensures MarkerScore(m, sc) <= Score(A, B, sc, |A|, |B|)
    {
      GlobalOptimal(A, B, sc, x, m, y);
    }
  }
}
