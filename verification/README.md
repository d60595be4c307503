# DNA toolkit core in Dafny

This project models the computational core of a small DNA-analysis toolkit and proves what it computes. The core has four parts.

- **FM-index motif search** (`fm_index_query.py`). `BWT` appends the end marker `$` when the text does not already end in one. It sorts the rotation offsets by rotation string and reads off the last column. `FMIndexQuery` builds the symbol-count and first-occurrence tables over that column. It then narrows a block of rows by backward search, one pattern symbol at a time, right to left. It returns the number of hits and their text offsets in ascending order. It returns `None` when the pattern's last symbol is absent from the text.
- **Needleman-Wunsch global alignment** (`global_alignment_algo.py`). This is the score matrix, the case matrix of `STOP`/`DIAG`/`UP`/`LEFT` tags (ties broken `DIAG`, then `UP`, then `LEFT`), and the traceback from the last cell. The traceback renders three rows: the first sequence gapped, a comparison row (`*` match, `|` mismatch, blank for a gap), and the second sequence gapped.
- **Smith-Waterman local alignment** (`local_alignment_algo.py`). Scores are floored at zero and a zero cell is tagged `STOP`. The traceback starts from the first cell, in fill order, holding the highest positive score. When no score is positive it starts at the corner `(0, 0)`, because the running maximum is replaced only on a strictly larger score.
- **The object layer** (`models.py`). `DNASequence` has a bounds-checked slice. `MotifFinder` reads either half of an FM-index query. `SequenceAlignment` dispatches to either aligner by name.

Modules, one per concern:

- `Wrappers`: `Option`, `Result` and the two Python exception kinds raised.
- `Lex`: Python's string order.
- `Counting`: counting over index ranges, and permutations.
- `Bwt`: the transform.
- `FmIndex`: the query.
- `Alignment`: scoring, columns, rows and the traceback, shared by both aligners.
- `GlobalAlign` and `LocalAlign`: the two aligners.
- `Models`: the object layer.

How the model is built:

- Each dynamic program has two forms, with proofs that they agree:
  - a recursive reference definition (`Score`, `CaseAt`, and for the local maximum `Best`);
  - the row-by-row filling methods, which carry loop invariants.
- Search correctness is stated through counts:
  - `Lower(T, S)` is the number of offsets whose cyclic reading sorts below `S`;
  - `Matches(T, S)` is the number of cyclic occurrences of `S`;
  - the rows starting with `S` are exactly the block `[Lower, Lower + Matches)` (`FmIndex.RowBlock`);
  - the LF-mapping step turns the block for `S` into the block for `c S`.

## Model

| member | source | states |
|---|---|---|
| Bwt.Normalize | fm_index_query.py:5-6 | The normalised text starts with the caller's text and ends in `$`. It is one symbol longer exactly when the text did not already end in `$`. |
| Bwt.NormalizeIdempotent | fm_index_query.py:5-6 | Normalising an already normalised text changes nothing. |
| Bwt.NormalizeSentinelAtEnd | fm_index_query.py:5-6 | If the caller's text has `$` at most at its end, the normalised text has `$` only at its end. |
| Bwt.PrecedenceHarmless | fm_index_query.py:9 | `T[i-1 % n]`, read with Python's precedence and negative indexing, is the symbol cyclically before offset `i`, for every `n >= 1`. |
| Bwt.SortRotations | fm_index_query.py:8 | The row offsets are a permutation of `0..n-1`, ordered by rotation string `T[i:]+T[:i]`, with equal rotations by offset (the sort is stable). |
| Bwt.SortedRowsUnique | fm_index_query.py:8 | Any two permutations that follow the rotation order are equal, so every stable sort by the rotation key gives the same rows. |
| Bwt.Transform | fm_index_query.py:3-13 | Returns the sorted row offsets and a last column with `L[k] == T[(rot[k]-1) mod n]` over the normalised text. `L` holds the same multiset of symbols as that text. |
| Bwt.BwtUnique | fm_index_query.py:3-13 | The rows and last column returned for a text are the only ones meeting that description. |
| Bwt.LastColumnPermutes | fm_index_query.py:9 | The last column is a rearrangement of the text. |
| FmIndex.SumBelowIsSmaller | fm_index_query.py:19 | For any enumeration order of the distinct symbols, the summed counts of the smaller symbols equal the number of positions of `L` holding a smaller symbol. |
| FmIndex.TablesAgree | fm_index_query.py:18-19 | `char_count` and `char_Fpos` have exactly the symbols of `L` as keys. They map each one to its count and to the number of smaller symbols in `L`. |
| FmIndex.FirstColumn | fm_index_query.py:19 | A row's rotation starts with `c` exactly when the row lies in `[char_Fpos[c], char_Fpos[c] + char_count[c])`. |
| FmIndex.FirstColumnPartition | fm_index_query.py:18-19 | These ranges partition the rows: each row lies in the range of its first symbol, which is in `L`, and in no other range. |
| FmIndex.RowBlock | fm_index_query.py:26-36 | For any string `S`, the rows whose rotation starts with `S` form the contiguous block `[Lower, Lower + Matches)`. The rows before the block are exactly those sorting below `S`. |
| FmIndex.ExtendLeftLower | fm_index_query.py:32-33 | LF-mapping: the block for `c S` begins at `C[c]` plus the rank of `c` in `L` before the block for `S`. |
| FmIndex.ExtendLeftMatches | fm_index_query.py:28-34 | The block for `c S` holds as many rows as the block for `S` has `c` in the last column. |
| FmIndex.StepNarrows | fm_index_query.py:26-36 | A backward step never adds rows. |
| FmIndex.MatchingInterval | fm_index_query.py:28-32 | Filtering a row range by `L[e] == c` keeps as many rows as `c` occurs there. The first row kept has the same rank of `c` as the start of the range. |
| FmIndex.SearchStart | fm_index_query.py:21-22 | When `P[-1]` is in the caller's text, it is in `L`. The initial range is the block of rows starting with `P[-1]`. |
| FmIndex.SearchStep | fm_index_query.py:27-35 | From the block for `P[i+1:]`, one iteration gives one of two results. Either an empty filter result, and `P` has no occurrence. Or the new range `[bottom_index, top_index)`, which is exactly the block for `P[i:]`. |
| FmIndex.BackwardSearch | fm_index_query.py:25-36 | The loop ends in one of two ways. Either it leaves the block of rows starting with `P`, or, when it stops early, it leaves an empty list and `P` has no occurrence. Every row it leaves is in range. |
| FmIndex.SortOffsetsPermutes | fm_index_query.py:37 | Sorting distinct in-range offsets gives an ascending rearrangement of them. |
| FmIndex.SearchFinish | fm_index_query.py:37 | The rows found, mapped to their offsets and sorted, are exactly the cyclic occurrences of `P`. Their number is the number of occurrences. |
| FmIndex.CyclicIsPlain | fm_index_query.py:28-37 | In a text ending in `$`, when `P` holds no `$`, a cyclic occurrence is a plain occurrence `T[o:o+len(P)] == P`, and conversely. A wrap-around match would have to cover the final `$`. |
| FmIndex.Query | fm_index_query.py:15-37 | `None` exactly when `P[-1]` is not in the caller's text. Otherwise a count equal to the number of offsets, with the offsets strictly ascending and exactly the offsets where `P` occurs, cyclically, in the normalised text. When `P` holds no `$`, they are exactly its plain occurrences. |
| Alignment.AssignScoreSymmetric | global_alignment_algo.py:3-7 | The substitution score does not depend on which sequence each symbol came from. |
| Alignment.Traceback | global_alignment_algo.py:9-33 | The loop returns the top, comparison and bottom rows of the columns collected by following the case matrix from `(i, j)` back to the first `STOP`. |
| Alignment.TraceConsumes | global_alignment_algo.py:13-32 | The traced columns use exactly the symbols `A[i0:i]` and `B[j0:j]`, where `(i0, j0)` is the `STOP` cell where the traceback ends. |
| Alignment.TraceScore | global_alignment_algo.py:13-32 | When every tag records where its cell's score came from, the traced columns score the start cell minus the stop cell. |
| Alignment.RenderIsAlignment | global_alignment_algo.py:14-32 | The rendered rows have equal length and degap to the consumed symbols. Each comparison mark is `*`, `|` or blank, according to its column. The comparison row alone gives back the column score. |
| Alignment.ParseAlignment | global_alignment_algo.py:14-32 | Conversely, every three-row alignment of `A` and `B` reads back into columns with the same symbols and the same score. |
| GlobalAlign.FirstColumnScores | global_alignment_algo.py:41-44 | The first column holds `i * gap_pen`. |
| GlobalAlign.FirstRowScores | global_alignment_algo.py:45-48 | The first row holds `j * gap_pen`. |
| GlobalAlign.MatricesAgree | global_alignment_algo.py:38-62 | Every tag points inside the matrix, `(0, 0)` is the only `STOP` cell, and each tag records the candidate its cell's score came from. |
| GlobalAlign.FillRow | global_alignment_algo.py:51-62 | One pass of the inner loop builds row `i` from row `i - 1`. Each entry is the reference score `max(v1, v2, v3)`, and each tag is the first of `DIAG`, `UP`, `LEFT` whose candidate reaches that score. |
| GlobalAlign.FillMatrices | global_alignment_algo.py:36-62 | The initialisation loops and the filling loops build exactly the reference score and case matrices. |
| GlobalAlign.Attained | global_alignment_algo.py:64-65 | The traceback from `(m, n)` collects an alignment of all of `A` with all of `B` that scores `sM[m][n]`. |
| GlobalAlign.GlobalOptimal | global_alignment_algo.py:50-65 | No alignment of `A` with `B` scores more than `sM[m][n]`. |
| GlobalAlign.GlobalSymmetric | global_alignment_algo.py:35-65 | The global score does not depend on the order of the two sequences. |
| GlobalAlign.RowsAttain | global_alignment_algo.py:64-66 | The returned rows add up to `sM[m][n]` and, for gap-free inputs, degap to exactly `A` and `B`. |
| GlobalAlign.BestOverAll | global_alignment_algo.py:50-65 | `sM[m][n]` bounds the score of every alignment of `A` with `B`. |
| GlobalAlign.GlobalAlignment | global_alignment_algo.py:35-66 | Returns the traced rows and `sM[m][n]`. The comparison row sums to the score. For gap-free inputs, the rows are an alignment of all of `A` with all of `B`. No alignment scores more. |
| LocalAlign.ScanIsFirstMax | local_alignment_algo.py:58-60 | After each cell, the running maximum is the highest score seen so far, held by the first visited cell reaching it. It stays at `(0, 0)` while every score is zero. |
| LocalAlign.BestIsFirstMax | local_alignment_algo.py:40-60 | `max_score` is the largest entry of the whole matrix. `(max_i, max_j)` is its first cell in row-major order, or `(0, 0)` when every entry is zero. |
| LocalAlign.MatricesAgree | local_alignment_algo.py:44-68 | Every tag points inside the matrix, and each tag records where its cell's score came from. Every `STOP` sits on a zero score. |
| LocalAlign.FillMatrices | local_alignment_algo.py:36-68 | The loops build exactly the reference matrices and end with the running maximum of the whole matrix. |
| LocalAlign.FillRow | local_alignment_algo.py:52-68 | One row of the fill computes `max(0, v1, v2, v3)` and the `STOP`-on-zero tag. It advances the running maximum only on a strictly larger score. |
| LocalAlign.Attained | local_alignment_algo.py:70-71 | The traceback from the best cell collects an alignment of `A[i0:max_i]` with `B[j0:max_j]` that scores `max_score`. It is empty exactly when `max_score` is zero. |
| LocalAlign.LocalOptimal | local_alignment_algo.py:53-71 | When the gap penalty is not a bonus, no alignment of a piece of `A` with a piece of `B` scores more than `max_score`. |
| LocalAlign.LocalTranspose | local_alignment_algo.py:50-57 | Swapping the sequences transposes the score matrix: `sM[i][j]` for `A` against `B` equals `sM[j][i]` for `B` against `A`, for every gap penalty. |
| LocalAlign.LocalSymmetric | local_alignment_algo.py:35-71 | The local score does not depend on the order of the sequences, for every gap penalty. |
| LocalAlign.LocalAtLeastGlobal | local_alignment_algo.py:53-71 | When the gap penalty is not a bonus, the local score is at least the global score. |
| LocalAlign.RowsAttain | local_alignment_algo.py:70-71 | The returned rows have equal length and add up to `max_score`. They are empty exactly when it is zero. For gap-free inputs they degap to `A[i0:max_i]` and `B[j0:max_j]`. |
| LocalAlign.BestOverPieces | local_alignment_algo.py:53-71 | When the gap penalty is not a bonus, `max_score` bounds every alignment of a piece of `A` with a piece of `B`. |
| LocalAlign.LocalAlignment | local_alignment_algo.py:35-71 | Returns the traced rows and `max_score`. The score is at least zero and at least every matrix entry. The rows have equal length, and their comparison row sums to the score. They are empty exactly when the score is zero. For gap-free inputs they align `A[i0:max_i]` with `B[j0:max_j]`. When the gap penalty is not a bonus, no alignment of pieces scores more. |
| Models.GetSubsequence | models.py:12-15 | A `ValueError` exactly when `start < 0` or `end > len(seq)`. Otherwise a contiguous piece of the sequence: `seq[start:end]` when `start <= end`, empty when the bounds cross, and a negative `end` counts from the end. |
| Models.GetLength | models.py:21-22 | `get_length()` is the largest end index `get_subsequence` accepts from `0`, and the slice up to it is the whole sequence. |
| Models.SubsequenceSplits | models.py:12-22 | Cutting at in-range `start <= end` and putting the three pieces back together gives the sequence again. The range `0..get_length()` gives the whole sequence. |
| Models.CountOccurrences | models.py:46-47 | Fails exactly when the motif's last symbol is absent from the target, by subscripting `None`. Otherwise it returns the number of occurrences of the motif in the normalised target. |
| Models.SearchMotif | models.py:49-50 | Same failure. Otherwise it returns the ascending offsets of exactly the occurrences of the motif, and exactly the plain occurrences when the motif holds no `$`. |
| Models.CountAndSearch | models.py:46-50 | The two queries fail together. Otherwise the count is the number of offsets. |
| Models.GattacaExample | models.py:46-50 | In `GATTACA` the motif `ACA` gives count 1 and offsets `[4]`. |
| Models.AlignSequences | models.py:57-68 | Dispatches with defaults `-2, 1, -1, "global"`. It returns the global or the local rows, and a `ValueError` for any other name. The rows have equal length and their comparison row sums to that aligner's score. The global rows align the whole sequences. |
| Models.GetAlignmentScores | models.py:70-77 | Returns the same aligner's score, and a `ValueError` for any other name. The global score is the best over all alignments. The local score is at least zero and, when the gap penalty is not a bonus, the best over alignments of pieces. |
| Models.AlignWithScore | models.py:57-77 | For the same arguments, the alignment and the score succeed or fail together, and the comparison row of the alignment sums to the score. |

## Left out

- `app.py`, `analysis.py` and `parser.py` are not part of this model. They hold the web layer, plotting, console reporting and file parsing through foreign libraries.
- `get_GC_content` (models.py:17-19) is left out: it computes a floating-point percentage.
- Scoring parameters are integers. The code accepts any Python number, but float arithmetic is not modelled.
- The rotation sort is modelled as an insertion sort on the stable rotation order, not Timsort. `Bwt.SortedRowsUnique` shows that every stable sort gives the same rows.
- `BWT(T)` without offsets (the `DoReturnOffsets=False` branch, fm_index_query.py:12-13) is not modelled separately. It returns the same last column as `Bwt.Transform`.
- Python's set iteration order in `char_Fpos` is a free parameter: `FmIndex.SumBelowIsSmaller` proves the sum is the same for every order.
- Empty text or empty pattern makes the code raise `IndexError` at `T[-1]` or `P[-1]`. `FmIndex.Query`, `Models.CountOccurrences` and `Models.SearchMotif` take non-emptiness as a precondition instead of modelling the crash.
- Search results are stated for cyclic occurrences in the normalised text. Because that text always ends in `$`, they equal plain substring occurrences whenever the pattern holds no `$`. Only a `$` in the pattern can produce a match that wraps around the end, and the model states exactly that.
- When the pattern's last symbol is absent from the text, `FMIndexQuery` returns `None` (fm_index_query.py:21-24), not an empty result. `FmIndex.Query` returns `None` there too.
- A text holding `$` other than at its end is indexed like any other text, not rejected. The model states its cyclic results.
- Both aligners accept empty sequences and return all-gap or empty rows. The model does the same.
- LocalAlign.LocalOptimal assumes the gap penalty is at most zero. With a positive penalty the zero border is not optimal: a run of gaps scores above zero against a zero cell.
- LocalAlign.LocalAtLeastGlobal assumes the same. With a positive penalty it fails: aligning one symbol against nothing scores the penalty globally, but zero locally.
- LocalAlign.BestOverPieces assumes the same, for the same reason.
- LocalAlign.LocalAlignment states local optimality only for a gap penalty at most zero, as above.
- Models.GetAlignmentScores states local optimality only for a gap penalty at most zero, as above.
- Models.AlignSequences states that the rows are an alignment of the inputs only for the global aligner on gap-free inputs. For the local aligner the piece is named through `LocalAlign.LocalAlignment`.
- `MitochondrialDNA` (models.py:37-39) adds nothing to `DNASequence` and shares its model.
- The field accessors `seq`, `id` and `description` (models.py:24-34) are the datatype's fields.
