/** The object layer over the search and alignment cores: a DNA sequence record with
    a bounds-checked slice, a motif finder that reads the two halves of an FM-index
    query, and a pair of sequences that dispatches to the global or the local
    aligner by name. */
module Models {
  import opened Wrappers
  import opened Alignment
  import opened Bwt
  import opened Counting
  import FmIndex
  import GlobalAlign
  import LocalAlign

  /** `DNASequence(seq, ID, description="")`. The fields `sequence`, `id` and `description` are the `seq`, `id` and
      `description` accessors: each returns its constructor argument unchanged.
      `MitochondrialDNA` adds nothing to it and shares this model. */
  datatype DnaSequence = DnaSequence(sequence: string, id: string, description: string := "")

  /** Where a Python slice bound `k` lands in a string of length `n`: a negative
      bound counts from the end and is clamped at 0, a bound past the end is
      clamped at `n`. */
  function SliceBound(k: int, n: nat): (r: nat)
    ensures r <= n
    ensures 0 <= k <= n ==> r == k
    ensures k < 0 ==> r == if -k <= n then n + k else 0
    ensures k > n ==> r == n
  {
    if k < 0 then (if k + n < 0 then 0 else k + n) else if k > n then n else k
  }

  /** Python's `s[start:end]`: empty when the bounds cross. */
  function PySlice(s: string, start: int, end: int): (r: string)
    ensures var lo, hi := SliceBound(start, |s|), SliceBound(end, |s|);
      if lo < hi then r == s[lo..hi] else r == []
  {
    var lo, hi := SliceBound(start, |s|), SliceBound(end, |s|);
    if lo < hi then s[lo..hi] else []
  }

  /** `get_subsequence(start, end)`: a `ValueError` exactly when `start` is negative
      or `end` is past the end of the sequence; otherwise a contiguous piece of the
      sequence, the piece `seq[start..end]` when `start <= end`, and empty when
      `end` is before `start` (a negative `end` counts from the end). */
  function GetSubsequence(d: DnaSequence, start: int, end: int): (r: Result<string>)
    ensures r.Failure? <==> start < 0 || end > |d.sequence|
    ensures r.Failure? ==> r.error.ValueError?
    ensures r.Success? ==>
      var lo := if start < |d.sequence| then start else |d.sequence|;
      lo + |r.value| <= |d.sequence| && r.value == d.sequence[lo..lo + |r.value|]
    ensures r.Success? && 0 <= end ==> r.value == if start <= end then d.sequence[start..end] else []
    ensures r.Success? && end < 0 ==>
      r.value == if start < |d.sequence| + end then d.sequence[start..|d.sequence| + end] else []
  {
    if start < 0 || end > |d.sequence| then
      Failure(ValueError("Subsequence indices out of range"))
    else
      var r := PySlice(d.sequence, start, end);
      Success(r)
  }

  /** `get_length()`: the largest end index `get_subsequence` accepts, at which
      the slice from the start is the whole sequence. */
  function GetLength(d: DnaSequence): (r: nat)
    ensures GetSubsequence(d, 0, r) == Success(d.sequence)
    ensures GetSubsequence(d, 0, r + 1).Failure?
  {
    assert d.sequence[0..|d.sequence|] == d.sequence;
    |d.sequence|
  }

  /** Cutting a sequence at `start` and `end` and putting the pieces back together
      gives the sequence again; the whole range is the whole sequence. */
  lemma SubsequenceSplits(d: DnaSequence, start: int, end: int)
    requires 0 <= start <= end <= GetLength(d)
    ensures GetSubsequence(d, start, end).Success?
    ensures d.sequence[..start] + GetSubsequence(d, start, end).value + d.sequence[end..] == d.sequence
    ensures GetSubsequence(d, 0, GetLength(d)) == Success(d.sequence)
  {
    assert d.sequence == d.sequence[..start] + d.sequence[start..end] + d.sequence[end..];
    assert d.sequence[0..|d.sequence|] == d.sequence;
  }

  /** `MotifFinder(motif_seq)`. */
  datatype MotifFinder = MotifFinder(motif: string)

  /** `count_occurrences(target_seq)`: the count half of `FMIndexQuery(target_seq,
      motif_seq)`, which is the number of places the motif occurs (cyclically) in
      the target with `$` appended. When the motif's last symbol is not in the
      target the query returns `None` and indexing it raises a `TypeError`. */
  method CountOccurrences(f: MotifFinder, target: string) returns (r: Result<nat>)
    requires |target| > 0 && |f.motif| > 0
    ensures r.Failure? <==> f.motif[|f.motif| - 1] !in target
    ensures r.Failure? ==> r.error.TypeError?
    ensures r.Success? ==> r.value == FmIndex.Matches(Normalize(target), f.motif)
  {
    var q := FmIndex.Query(target, f.motif);
    if q.None? {
      return Failure(TypeError("'NoneType' object is not subscriptable"));
    }
    r := Success(q.value.0);
  }

  /** `search_motif(target_seq)`: the offsets half of the same query, in ascending
      order: exactly the offsets where the motif occurs (cyclically) in the target
      with `$` appended, and exactly the plain occurrences when the motif holds no
      `$`. */
  method SearchMotif(f: MotifFinder, target: string) returns (r: Result<seq<int>>)
    requires |target| > 0 && |f.motif| > 0
    ensures r.Failure? <==> f.motif[|f.motif| - 1] !in target
    ensures r.Failure? ==> r.error.TypeError?
    ensures r.Success? ==> FmIndex.Ascending(r.value) && |r.value| == FmIndex.Matches(Normalize(target), f.motif)
    ensures r.Success? ==> forall o :: o in r.value <==>
      0 <= o < |Normalize(target)| && CycPrefix(Normalize(target), o, |f.motif|) == f.motif
    ensures r.Success? && Sentinel !in f.motif ==>
      forall o :: o in r.value <==>
        0 <= o && o + |f.motif| <= |Normalize(target)| && Normalize(target)[o..o + |f.motif|] == f.motif
  {
    var q := FmIndex.Query(target, f.motif);
    if q.None? {
      return Failure(TypeError("'NoneType' object is not subscriptable"));
    }
    r := Success(q.value.1);
  }

  /** The count and the offsets a motif finder reports for the same target agree:
      both fail or neither does, and the count is the number of offsets. */
  method CountAndSearch(f: MotifFinder, target: string) returns (count: Result<nat>, offsets: Result<seq<int>>)
    requires |target| > 0 && |f.motif| > 0
    ensures count.Success? <==> offsets.Success?
    ensures count.Success? ==> count.value == |offsets.value|
  {
    count := CountOccurrences(f, target);
    offsets := SearchMotif(f, target);
  }

  /** `SequenceAlignment(seq1, seq2)`. */
  datatype SequenceAlignment = SequenceAlignment(seq1: string, seq2: string)

  /** The aligner names `align_sequences` and `get_alignment_scores` accept. */
  predicate KnownAlgo(algo: string)
  {
    algo == "global" || algo == "local"
  }

  /** `align_sequences(gap_pen=-2, match=1, mismatch=-1, algo="global")`: the three
      rows of `globalAlignment` or `localAlignment` on the two sequences, and a
      `ValueError` for any other aligner name. The rows have equal length; the
      global rows align the two whole sequences, the local rows a piece of each. */
  method AlignSequences(sa: SequenceAlignment, gapPen: int := -2, matchScore: int := 1, mismatch: int := -1,
                        algo: string := "global")
    returns (r: Result<(string, string, string)>)
    ensures r.Failure? <==> !KnownAlgo(algo)
    ensures r.Failure? ==> r.error.ValueError?
    ensures algo == "global" ==> r == Success(GlobalAlign.Rows(sa.seq1, sa.seq2, Scoring(gapPen, matchScore, mismatch)))
    ensures algo == "local" ==> r == Success(LocalAlign.Rows(sa.seq1, sa.seq2, Scoring(gapPen, matchScore, mismatch)))
    ensures r.Success? ==> |r.value.0| == |r.value.1| == |r.value.2|
    ensures algo == "global" ==> (MarkerScore(r.value.1, Scoring(gapPen, matchScore, mismatch)) ==
      GlobalAlign.Score(sa.seq1, sa.seq2, Scoring(gapPen, matchScore, mismatch), |sa.seq1|, |sa.seq2|))
    ensures algo == "local" ==> (MarkerScore(r.value.1, Scoring(gapPen, matchScore, mismatch)) ==
      LocalAlign.Best(sa.seq1, sa.seq2, Scoring(gapPen, matchScore, mismatch)).0)
    ensures algo == "global" && NoGap(sa.seq1) && NoGap(sa.seq2) ==>
      IsAlignmentOf(r.value.0, r.value.1, r.value.2, sa.seq1, sa.seq2)
  {
    var sc := Scoring(gapPen, matchScore, mismatch);
    if algo == "global" {
      var alignment, _ := GlobalAlign.GlobalAlignment(sa.seq1, sa.seq2, sc);
      r := Success(alignment);
    } else if algo == "local" {
      var alignment, _ := LocalAlign.LocalAlignment(sa.seq1, sa.seq2, sc);
      r := Success(alignment);
    } else {
      r := Failure(ValueError("Unknown alignment algorithm."));
    }
  }

  /** `get_alignment_scores(gap_pen=-2, match=1, mismatch=-1, algo="global")`: the
      score of the same aligner, and a `ValueError` for any other name. The global
      score is the best any alignment of the two sequences reaches; the local
      score is never negative and, when the gap penalty is not a bonus, is the best
      any alignment of a piece of each reaches. */
  method GetAlignmentScores(sa: SequenceAlignment, gapPen: int := -2, matchScore: int := 1, mismatch: int := -1,
                            algo: string := "global")
    returns (r: Result<int>)
    ensures r.Failure? <==> !KnownAlgo(algo)
    ensures r.Failure? ==> r.error.ValueError?
    ensures algo == "global" ==> r == Success(GlobalAlign.Score(sa.seq1, sa.seq2, Scoring(gapPen, matchScore, mismatch), |sa.seq1|, |sa.seq2|))
    ensures algo == "global" ==> forall x, m, y :: IsAlignmentOf(x, m, y, sa.seq1, sa.seq2) ==>
      MarkerScore(m, Scoring(gapPen, matchScore, mismatch)) <= r.value
    ensures algo == "local" ==> r == Success(LocalAlign.Best(sa.seq1, sa.seq2, Scoring(gapPen, matchScore, mismatch)).0)
    ensures algo == "local" ==> r.value >= 0
    ensures algo == "local" && gapPen <= 0 ==>
      forall x, m, y, i0, i1, j0, j1 ::
        (0 <= i0 <= i1 <= |sa.seq1| && 0 <= j0 <= j1 <= |sa.seq2| &&
         IsAlignmentOf(x, m, y, sa.seq1[i0..i1], sa.seq2[j0..j1])) ==>
          MarkerScore(m, Scoring(gapPen, matchScore, mismatch)) <= r.value
  {
    var sc := Scoring(gapPen, matchScore, mismatch);
    if algo == "global" {
      var _, score := GlobalAlign.GlobalAlignment(sa.seq1, sa.seq2, sc);
      r := Success(score);
    } else if algo == "local" {
      var _, score := LocalAlign.LocalAlignment(sa.seq1, sa.seq2, sc);
      r := Success(score);
    } else {
      r := Failure(ValueError("Unknown alignment algorithm."));
    }
  }

  /** The score `get_alignment_scores` reports is what the comparison row of the
      rows `align_sequences` returns for the same arguments adds up to. */
  method AlignWithScore(sa: SequenceAlignment, gapPen: int, matchScore: int, mismatch: int, algo: string)
    returns (alignment: Result<(string, string, string)>, score: Result<int>)
    ensures alignment.Success? <==> score.Success?
    ensures alignment.Success? ==> MarkerScore(alignment.value.1, Scoring(gapPen, matchScore, mismatch)) == score.value
  {
    alignment := AlignSequences(sa, gapPen, matchScore, mismatch, algo);
    score := GetAlignmentScores(sa, gapPen, matchScore, mismatch, algo);
  }

  /** In `GATTACA$` the only offset where `ACA` starts, even reading around the
      end, is 4. */
  lemma GattacaOccurrences()
    ensures Normalize("GATTACA") == "GATTACA$"
    ensures forall o :: 0 <= o < 8 ==> (CycPrefix("GATTACA$", o, 3) == "ACA" <==> o == 4)
    ensures FmIndex.Matches("GATTACA$", "ACA") == 1
  {
    GattacaPrefixes();
    var p := FmIndex.PrefixIs("GATTACA$", "ACA");
    CountSplit(0, 4, 8, p);
    CountSplit(4, 5, 8, p);
    CountNone(0, 4, p);
    CountNone(5, 8, p);
  }

  lemma GattacaPrefixes()
    ensures forall o :: 0 <= o < 8 ==> (CycPrefix("GATTACA$", o, 3) == "ACA" <==> o == 4)
  {
    var T := "GATTACA$";
    forall o | 0 <= o < |T|
      ensures CycPrefix(T, o, 3) == "ACA" <==> o == 4
    {
      assert CycPrefix(T, o, 3) == [T[o], T[Succ(|T|, o)], T[Succ(|T|, Succ(|T|, o))]];
    }
  }

  /** The worked example: in `GATTACA` the motif `ACA` occurs once, at offset 4. */
  method GattacaExample() returns (count: Result<nat>, offsets: Result<seq<int>>)
    ensures count == Success(1) && offsets == Success([4])
  {
    var f, target := MotifFinder("ACA"), "GATTACA";
    GattacaOccurrences();
    assert f.motif[|f.motif| - 1] == 'A' == target[4];
    count := CountOccurrences(f, target);
    offsets := SearchMotif(f, target);
    assert |offsets.value| == 1 && 4 in offsets.value;
    assert offsets.value == [offsets.value[0]];
  }
}
