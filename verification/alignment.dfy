/** What `global_alignment_algo.py` and `local_alignment_algo.py` share: the
    substitution score, the traceback over the case matrix, and the three rows
    of text it renders (first sequence gapped, comparison markers, second
    sequence gapped). An alignment is a list of columns; a column pairs two
    symbols, or one symbol with a gap. */
module Alignment {

  /** The entries of the case matrix: `"STOP"`, `"DIAG"`, `"UP"`, `"LEFT"`. */
  datatype Tag = Stop | Diag | Up | Left

  /** `gap_pen`, `match`, `mismatch`. */
  datatype Scoring = Scoring(gap: int, matchScore: int, mismatchScore: int)

  /** A column of an alignment: `Both(a, b)` lines up a symbol of each sequence
      (a `DIAG` step), `OnlyA(a)` sets a symbol of the first sequence against a
      gap (`UP`), `OnlyB(b)` a symbol of the second against a gap (`LEFT`). */
  datatype Column = Both(a: char, b: char) | OnlyA(a: char) | OnlyB(b: char)

  const GapChar := '-'

  /** `assignScore(a, b, match, mismatch)`. */
  function AssignScore(a: char, b: char, sc: Scoring): int
  {
    if a == b then sc.matchScore else sc.mismatchScore
  }

  /** `max(a, b)`. */
  function Max(a: int, b: int): (r: int)
    ensures r >= a && r >= b && (r == a || r == b)
  {
    if a >= b then a else b
  }

  /** The order of the last two moves does not change the best of them. */
  lemma MaxSwap(d: int, u: int, l: int)
    ensures Max(0, Max(d, Max(u, l))) == Max(0, Max(d, Max(l, u)))
  {
  }

  /** The score does not depend on which sequence a symbol came from. */
  lemma AssignScoreSymmetric(a: char, b: char, sc: Scoring)
    ensures AssignScore(a, b, sc) == AssignScore(b, a, sc)
  {
  }

  // ---------------------------------------------------------------------------
  // Columns and the rows they render

  function ColTop(c: Column): char
  {
    match c
    case Both(a, _) => a
    case OnlyA(a) => a
    case OnlyB(_) => GapChar
  }

  function ColBottom(c: Column): char
  {
    match c
    case Both(_, b) => b
    case OnlyA(_) => GapChar
    case OnlyB(b) => b
  }

  /** `"*"` for two equal symbols, `"|"` for two different ones, `" "` for a gap. */
  function ColMark(c: Column): char
  {
    match c
    case Both(a, b) => if a == b then '*' else '|'
    case _ => ' '
  }

  function ColScore(c: Column, sc: Scoring): int
  {
    match c
    case Both(a, b) => AssignScore(a, b, sc)
    case _ => sc.gap
  }

  /** `seqA`: the first sequence with gaps. */
  function TopRow(cols: seq<Column>): string
  {
    seq(|cols|, k requires 0 <= k < |cols| => ColTop(cols[k]))
  }

  /** `seqcomp`: the comparison markers. */
  function MarkRow(cols: seq<Column>): string
  {
    seq(|cols|, k requires 0 <= k < |cols| => ColMark(cols[k]))
  }

  /** `seqB`: the second sequence with gaps. */
  function BottomRow(cols: seq<Column>): string
  {
    seq(|cols|, k requires 0 <= k < |cols| => ColBottom(cols[k]))
  }

  /** The symbols of the first sequence the columns use, in order. */
  function ConsumedA(cols: seq<Column>): string
  {
    if |cols| == 0 then []
    else ConsumedA(cols[..|cols| - 1]) + (if cols[|cols| - 1].OnlyB? then [] else [cols[|cols| - 1].a])
  }

  /** The symbols of the second sequence the columns use, in order. */
  function ConsumedB(cols: seq<Column>): string
  {
    if |cols| == 0 then []
    else ConsumedB(cols[..|cols| - 1]) + (if cols[|cols| - 1].OnlyA? then [] else [cols[|cols| - 1].b])
  }

  /** The score of an alignment: the sum of its column scores. */
  function ColumnsScore(cols: seq<Column>, sc: Scoring): int
  {
    if |cols| == 0 then 0
    else ColumnsScore(cols[..|cols| - 1], sc) + ColScore(cols[|cols| - 1], sc)
  }

  /** A row with its gap symbols removed. */
  function Degap(s: string): string
  {
    if |s| == 0 then []
    else Degap(s[..|s| - 1]) + (if s[|s| - 1] == GapChar then [] else [s[|s| - 1]])
  }

  /** The score a comparison row stands for: `match` per `"*"`, `mismatch` per
      `"|"`, `gap_pen` per blank. */
  function MarkerScore(m: string, sc: Scoring): int
  {
    if |m| == 0 then 0
    else
      var last := m[|m| - 1];
      MarkerScore(m[..|m| - 1], sc) + (if last == '*' then sc.matchScore else if last == '|' then sc.mismatchScore else sc.gap)
  }

  predicate NoGap(s: string)
  {
    GapChar !in s
  }

  /** Three rows form an alignment of `A` and `B`: equal lengths, the gapped rows
      give back `A` and `B` once the gaps are removed, and each marker tells
      whether its column holds two equal symbols, two different symbols, or one
      symbol and one gap. */
  predicate IsAlignmentOf(x: string, m: string, y: string, A: string, B: string)
  {
    && |x| == |m| == |y|
    && Degap(x) == A && Degap(y) == B
    && forall k :: 0 <= k < |m| ==> MarkFits(x[k], m[k], y[k])
  }

  predicate MarkFits(a: char, mark: char, b: char)
  {
    || (mark == '*' && a == b && a != GapChar)
    || (mark == '|' && a != b && a != GapChar && b != GapChar)
    || (mark == ' ' && (a == GapChar) != (b == GapChar))
  }

  /** No column carries the gap symbol as a sequence symbol. */
  predicate GapFree(cols: seq<Column>)
  {
    forall k :: 0 <= k < |cols| ==> (ColTop(cols[k]) == GapChar ==> cols[k].OnlyB?) && (ColBottom(cols[k]) == GapChar ==> cols[k].OnlyA?)
  }

  lemma {:induction false} ConsumedGapFree(cols: seq<Column>)
    requires NoGap(ConsumedA(cols)) && NoGap(ConsumedB(cols))
    ensures GapFree(cols)
    decreases |cols|
  {
    if |cols| > 0 {
      var init := cols[..|cols| - 1];
      ConsumedGapFree(init);
      assert forall k :: 0 <= k < |init| ==> cols[k] == init[k];
    }
  }

  lemma {:induction false} DegapTop(cols: seq<Column>)
    requires GapFree(cols)
    ensures Degap(TopRow(cols)) == ConsumedA(cols)
    ensures Degap(BottomRow(cols)) == ConsumedB(cols)
    decreases |cols|
  {
    if |cols| > 0 {
      var init := cols[..|cols| - 1];
      assert TopRow(cols)[..|cols| - 1] == TopRow(init);
      assert BottomRow(cols)[..|cols| - 1] == BottomRow(init);
      DegapTop(init);
    }
  }

  lemma {:induction false} MarkRowScore(cols: seq<Column>, sc: Scoring)
    ensures MarkerScore(MarkRow(cols), sc) == ColumnsScore(cols, sc)
    decreases |cols|
  {
    if |cols| > 0 {
      var init := cols[..|cols| - 1];
      assert MarkRow(cols)[..|cols| - 1] == MarkRow(init);
      MarkRowScore(init, sc);
    }
  }

  /** The rows a list of gap-free columns renders are an alignment of the symbols
      they use, and the comparison row alone gives back the score. */
  lemma RenderIsAlignment(cols: seq<Column>, sc: Scoring)
    requires NoGap(ConsumedA(cols)) && NoGap(ConsumedB(cols))
    ensures IsAlignmentOf(TopRow(cols), MarkRow(cols), BottomRow(cols), ConsumedA(cols), ConsumedB(cols))
    ensures MarkerScore(MarkRow(cols), sc) == ColumnsScore(cols, sc)
  {
    ConsumedGapFree(cols);
    DegapTop(cols);
    MarkRowScore(cols, sc);
  }

  /** Reading two gapped rows back into columns. */
  function ColumnsOf(x: string, y: string): (cols: seq<Column>)
    requires |x| == |y|
    ensures |cols| == |x|
  {
    seq(|x|, k requires 0 <= k < |x| =>
      if x[k] == GapChar then OnlyB(y[k]) else if y[k] == GapChar then OnlyA(x[k]) else Both(x[k], y[k]))
  }

  /** Every alignment in rows is the rendering of some columns with the same
      symbols and the same score. */
  lemma ParseAlignment(x: string, m: string, y: string, A: string, B: string, sc: Scoring)
    requires IsAlignmentOf(x, m, y, A, B)
    ensures ConsumedA(ColumnsOf(x, y)) == A && ConsumedB(ColumnsOf(x, y)) == B
    ensures ColumnsScore(ColumnsOf(x, y), sc) == MarkerScore(m, sc)
  {
    ParseConsumes(x, m, y, A, B);
    ParseScore(x, m, y, A, B, sc);
  }

  lemma {:induction false} ParseConsumes(x: string, m: string, y: string, A: string, B: string)
    requires IsAlignmentOf(x, m, y, A, B)
    ensures ConsumedA(ColumnsOf(x, y)) == A && ConsumedB(ColumnsOf(x, y)) == B
    decreases |x|
  {
    if |x| > 0 {
      var n := |x| - 1;
      AlignmentPrefix(x, m, y, A, B);
      ParseConsumes(x[..n], m[..n], y[..n], Degap(x[..n]), Degap(y[..n]));
      ColumnsOfPrefix(x, y);
    }
  }

  lemma {:induction false} ParseScore(x: string, m: string, y: string, A: string, B: string, sc: Scoring)
    requires IsAlignmentOf(x, m, y, A, B)
    ensures ColumnsScore(ColumnsOf(x, y), sc) == MarkerScore(m, sc)
    decreases |x|
  {
    if |x| > 0 {
      var n := |x| - 1;
      AlignmentPrefix(x, m, y, A, B);
      ParseScore(x[..n], m[..n], y[..n], Degap(x[..n]), Degap(y[..n]), sc);
      ColumnsOfPrefix(x, y);
    }
  }

  /** Dropping the last column of an alignment leaves an alignment of what its
      rows still hold. */
  lemma AlignmentPrefix(x: string, m: string, y: string, A: string, B: string)
    requires IsAlignmentOf(x, m, y, A, B) && |x| > 0
    ensures var n := |x| - 1;
      IsAlignmentOf(x[..n], m[..n], y[..n], Degap(x[..n]), Degap(y[..n])) && MarkFits(x[n], m[n], y[n])
  {
    var n := |x| - 1;
    assert MarkFits(x[n], m[n], y[n]);
    forall k | 0 <= k < n
      ensures MarkFits(x[..n][k], m[..n][k], y[..n][k])
    {
      assert MarkFits(x[k], m[k], y[k]);
    }
  }

  lemma ColumnsOfPrefix(x: string, y: string)
    requires |x| == |y| && |x| > 0
    ensures ColumnsOf(x, y)[..|x| - 1] == ColumnsOf(x[..|x| - 1], y[..|x| - 1])
  {
  }

  /** Exchanging the two sequences of every column. */
  function Swap(cols: seq<Column>): (r: seq<Column>)
    ensures |r| == |cols|
  {
    seq(|cols|, k requires 0 <= k < |cols| =>
      match cols[k]
      case Both(a, b) => Both(b, a)
      case OnlyA(a) => OnlyB(a)
      case OnlyB(b) => OnlyA(b))
  }

  lemma {:induction false} SwapKeeps(cols: seq<Column>, sc: Scoring)
    ensures ConsumedA(Swap(cols)) == ConsumedB(cols) && ConsumedB(Swap(cols)) == ConsumedA(cols)
    ensures ColumnsScore(Swap(cols), sc) == ColumnsScore(cols, sc)
    decreases |cols|
  {
    if |cols| > 0 {
      var init := cols[..|cols| - 1];
      assert Swap(cols)[..|cols| - 1] == Swap(init);
      SwapKeeps(init, sc);
      var last := cols[|cols| - 1];
      if last.Both? {
        AssignScoreSymmetric(last.a, last.b, sc);
      }
    }
  }

  lemma SnocPrefix(X: string, a: char, A: string, i: nat)
    requires i <= |A| && X + [a] == A[..i]
    ensures i > 0 && X == A[..i - 1] && a == A[i - 1]
  {
    assert |X| + 1 == i;
    assert A[..i][..i - 1] == A[..i - 1];
  }

  lemma SnocSlice(X: string, a: char, A: string, lo: nat, hi: nat)
    requires lo <= hi <= |A| && X + [a] == A[lo..hi]
    ensures lo < hi && X == A[lo..hi - 1] && a == A[hi - 1]
  {
    assert |X| + 1 == hi - lo;
    assert A[lo..hi][..hi - lo - 1] == A[lo..hi - 1];
  }

  // ---------------------------------------------------------------------------
  // The case matrix and the traceback

  /** Steps that leave the matrix are never recorded: `DIAG` needs a row and a
      column above-left, `UP` a row above, `LEFT` a column to the left. */
  predicate TagFits(t: Tag, i: int, j: int)
  {
    match t
    case Stop => true
    case Diag => i > 0 && j > 0
    case Up => i > 0
    case Left => j > 0
  }

  /** `M` is an `(m+1) x (n+1)` case matrix whose steps stay inside it. */
  predicate TagsInBounds(M: seq<seq<Tag>>, m: nat, n: nat)
  {
    && |M| == m + 1
    && (forall i :: 0 <= i <= m ==> |M[i]| == n + 1)
    && (forall i, j :: 0 <= i <= m && 0 <= j <= n ==> TagFits(M[i][j], i, j))
  }

  /** The scores agree with the cases: each recorded step is the one the score
      came from. */
  predicate ScoresFollowTags(A: string, B: string, sc: Scoring, S: seq<seq<int>>, M: seq<seq<Tag>>)
  {
    && TagsInBounds(M, |A|, |B|)
    && |S| == |A| + 1
    && (forall i :: 0 <= i <= |A| ==> |S[i]| == |B| + 1)
    && (forall i, j :: 0 <= i <= |A| && 0 <= j <= |B| ==> StepScore(A, B, sc, S, M, i, j))
  }

  predicate StepScore(A: string, B: string, sc: Scoring, S: seq<seq<int>>, M: seq<seq<Tag>>, i: int, j: int)
    requires TagsInBounds(M, |A|, |B|) && 0 <= i <= |A| && 0 <= j <= |B|
    requires |S| == |A| + 1 && forall i :: 0 <= i <= |A| ==> |S[i]| == |B| + 1
  {
    match M[i][j]
    case Stop => true
    case Diag => S[i][j] == S[i - 1][j - 1] + AssignScore(A[i - 1], B[j - 1], sc)
    case Up => S[i][j] == S[i - 1][j] + sc.gap
    case Left => S[i][j] == S[i][j - 1] + sc.gap
  }

  /** The columns the traceback collects from cell `(i, j)`, following the cases
      back to the first `STOP`. */
  function TraceCols(A: string, B: string, M: seq<seq<Tag>>, i: nat, j: nat): seq<Column>
    requires TagsInBounds(M, |A|, |B|) && i <= |A| && j <= |B|
    decreases i + j
  {
    match M[i][j]
    case Stop => []
    case Diag => TraceCols(A, B, M, i - 1, j - 1) + [Both(A[i - 1], B[j - 1])]
    case Up => TraceCols(A, B, M, i - 1, j) + [OnlyA(A[i - 1])]
    case Left => TraceCols(A, B, M, i, j - 1) + [OnlyB(B[j - 1])]
  }

  /** The cell where the traceback from `(i, j)` stops. */
  function TraceEnd(A: string, B: string, M: seq<seq<Tag>>, i: nat, j: nat): (e: (nat, nat))
    requires TagsInBounds(M, |A|, |B|) && i <= |A| && j <= |B|
    ensures e.0 <= i && e.1 <= j && M[e.0][e.1] == Stop
    decreases i + j
  {
    match M[i][j]
    case Stop => (i, j)
    case Diag => TraceEnd(A, B, M, i - 1, j - 1)
    case Up => TraceEnd(A, B, M, i - 1, j)
    case Left => TraceEnd(A, B, M, i, j - 1)
  }

  /** The traced columns use exactly the symbols of `A` and `B` between the cell
      where the traceback stops and the cell where it started. */
  lemma {:induction false} TraceConsumes(A: string, B: string, M: seq<seq<Tag>>, i: nat, j: nat)
    requires TagsInBounds(M, |A|, |B|) && i <= |A| && j <= |B|
    ensures var e := TraceEnd(A, B, M, i, j);
      ConsumedA(TraceCols(A, B, M, i, j)) == A[e.0..i] && ConsumedB(TraceCols(A, B, M, i, j)) == B[e.1..j]
    decreases i + j, 1
  {
    match M[i][j]
    case Stop =>
    case Diag => ConsumeStep(A, B, M, i, j, i - 1, j - 1);
    case Up => ConsumeStep(A, B, M, i, j, i - 1, j);
    case Left => ConsumeStep(A, B, M, i, j, i, j - 1);
  }

  /** The column a step of the traceback from `(i, j)` collects. */
  function StepColumn(A: string, B: string, t: Tag, i: nat, j: nat): Column
    requires t != Stop && TagFits(t, i, j) && i <= |A| && j <= |B|
  {
    match t
    case Diag => Both(A[i - 1], B[j - 1])
    case Up => OnlyA(A[i - 1])
    case Left => OnlyB(B[j - 1])
  }

  /** One step of the traceback, from `(i, j)` to `(pi, pj)`, adds the symbols its
      column uses. */
  lemma {:induction false} ConsumeStep(A: string, B: string, M: seq<seq<Tag>>, i: nat, j: nat, pi: nat, pj: nat)
    requires TagsInBounds(M, |A|, |B|) && i <= |A| && j <= |B| && M[i][j] != Stop
    requires pi == (if M[i][j] == Left then i else i - 1) && pj == (if M[i][j] == Up then j else j - 1)
    ensures var e := TraceEnd(A, B, M, i, j);
      ConsumedA(TraceCols(A, B, M, i, j)) == A[e.0..i] && ConsumedB(TraceCols(A, B, M, i, j)) == B[e.1..j]
    decreases i + j, 0
  {
    assert TagFits(M[i][j], i, j);
    var x := StepColumn(A, B, M[i][j], i, j);
    assert TraceCols(A, B, M, i, j) == TraceCols(A, B, M, pi, pj) + [x];
    assert TraceEnd(A, B, M, i, j) == TraceEnd(A, B, M, pi, pj);
    var e := TraceEnd(A, B, M, pi, pj);
    TraceConsumes(A, B, M, pi, pj);
    TakeStep(TraceCols(A, B, M, pi, pj), x);
    if pi < i {
      SliceSnoc(A, e.0, i);
    }
    if pj < j {
      SliceSnoc(B, e.1, j);
    }
  }

  lemma SliceSnoc(s: string, lo: nat, hi: nat)
    requires lo < hi <= |s|
    ensures s[lo..hi] == s[lo..hi - 1] + [s[hi - 1]]
  {
  }

  /** One more column adds its symbols to what the columns consume. */
  lemma TakeStep(cols: seq<Column>, x: Column)
    ensures ConsumedA(cols + [x]) == ConsumedA(cols) + (if x.OnlyB? then [] else [x.a])
    ensures ConsumedB(cols + [x]) == ConsumedB(cols) + (if x.OnlyA? then [] else [x.b])
  {
    assert (cols + [x])[..|cols|] == cols;
  }

  /** When the scores follow the cases, the traced columns score the difference
      between the start cell and the cell where the traceback stops. */
  lemma {:induction false} TraceScore(A: string, B: string, sc: Scoring, S: seq<seq<int>>, M: seq<seq<Tag>>, i: nat, j: nat)
    requires ScoresFollowTags(A, B, sc, S, M) && i <= |A| && j <= |B|
    ensures var e := TraceEnd(A, B, M, i, j);
      ColumnsScore(TraceCols(A, B, M, i, j), sc) == S[i][j] - S[e.0][e.1]
    decreases i + j
  {
    var cols := TraceCols(A, B, M, i, j);
    assert StepScore(A, B, sc, S, M, i, j);
    match M[i][j]
    case Stop =>
    case Diag =>
      TraceScore(A, B, sc, S, M, i - 1, j - 1);
      assert cols[..|cols| - 1] == TraceCols(A, B, M, i - 1, j - 1);
    case Up =>
      TraceScore(A, B, sc, S, M, i - 1, j);
      assert cols[..|cols| - 1] == TraceCols(A, B, M, i - 1, j);
    case Left =>
      TraceScore(A, B, sc, S, M, i, j - 1);
      assert cols[..|cols| - 1] == TraceCols(A, B, M, i, j - 1);
  }

  /** `traceback(A, B, i, j, M)`: walk the case matrix back from `(i, j)` to the
      first `STOP`, prepending one column per step; the three rows are those of
      the traced columns. */
  method Traceback(A: string, B: string, i: nat, j: nat, M: seq<seq<Tag>>)
    returns (seqA: string, seqcomp: string, seqB: string)
    requires TagsInBounds(M, |A|, |B|) && i <= |A| && j <= |B|
    ensures seqA == TopRow(TraceCols(A, B, M, i, j))
    ensures seqcomp == MarkRow(TraceCols(A, B, M, i, j))
    ensures seqB == BottomRow(TraceCols(A, B, M, i, j))
  {
    seqA, seqcomp, seqB := "", "", "";
    var x: nat, y: nat := i, j;
    ghost var acc: seq<Column> := [];
    while M[x][y] != Stop
      invariant x <= i && y <= j
      invariant TraceCols(A, B, M, i, j) == TraceCols(A, B, M, x, y) + acc
      invariant seqA == TopRow(acc) && seqcomp == MarkRow(acc) && seqB == BottomRow(acc)
      decreases x + y
    {
      var col: Column;
      ghost var x0, y0 := x, y;
      if M[x][y] == Diag {
        col := Both(A[x - 1], B[y - 1]);
        seqA := [A[x - 1]] + seqA;
        seqB := [B[y - 1]] + seqB;
        if A[x - 1] == B[y - 1] {
          seqcomp := "*" + seqcomp;
        } else {
          seqcomp := "|" + seqcomp;
        }
        x, y := x - 1, y - 1;
      } else if M[x][y] == Up {
        col := OnlyA(A[x - 1]);
        seqA := [A[x - 1]] + seqA;
        seqB := "-" + seqB;
        seqcomp := " " + seqcomp;
        x := x - 1;
      } else {
        col := OnlyB(B[y - 1]);
        seqA := "-" + seqA;
        seqB := [B[y - 1]] + seqB;
        seqcomp := " " + seqcomp;
        y := y - 1;
      }
      TraceStep(A, B, M, x0, y0, x, y);
      MoveColumn(TraceCols(A, B, M, x, y), col, acc);
      PrependColumn(col, acc);
      acc := [col] + acc;
    }
  }

  /** The traceback from a cell that is not `STOP` collects the traceback from the
      cell its case points to, then that step's column. */
  lemma TraceStep(A: string, B: string, M: seq<seq<Tag>>, i: nat, j: nat, pi: nat, pj: nat)
    requires TagsInBounds(M, |A|, |B|) && i <= |A| && j <= |B| && M[i][j] != Stop
    requires pi == (if M[i][j] == Left then i else i - 1) && pj == (if M[i][j] == Up then j else j - 1)
    ensures TagFits(M[i][j], i, j)
    ensures TraceCols(A, B, M, i, j) == TraceCols(A, B, M, pi, pj) + [StepColumn(A, B, M[i][j], i, j)]
    ensures TraceEnd(A, B, M, i, j) == TraceEnd(A, B, M, pi, pj)
  {
    assert TagFits(M[i][j], i, j);
  }

  lemma MoveColumn(front: seq<Column>, col: Column, acc: seq<Column>)
    ensures (front + [col]) + acc == front + ([col] + acc)
  {
  }

  /** Putting one column in front puts its characters in front of each row. */
  lemma PrependColumn(col: Column, acc: seq<Column>)
    ensures TopRow([col] + acc) == [ColTop(col)] + TopRow(acc)
    ensures MarkRow([col] + acc) == [ColMark(col)] + MarkRow(acc)
    ensures BottomRow([col] + acc) == [ColBottom(col)] + BottomRow(acc)
  {
  }
}
