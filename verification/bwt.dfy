/** The Burrows-Wheeler transform of `fm_index_query.py`: sentinel
    normalisation, the sorted table of rotation offsets, and the last column. */
module Bwt {
  import opened Lex
  import opened Counting

  /** The end-of-text marker appended before indexing. */
  const Sentinel: char := '$'

  /** The text with `$` appended unless it already ends in one. */
  function Normalize(T: string): (r: string)
    requires |T| > 0
    ensures |T| <= |r| <= |T| + 1
    ensures r[..|T|] == T
    ensures r[|r| - 1] == Sentinel
    ensures |r| == |T| <==> T[|T| - 1] == Sentinel
  {
    if T[|T| - 1] != Sentinel then T + [Sentinel] else T
  }

  /** Normalising twice is normalising once. */
  lemma NormalizeIdempotent(T: string)
    requires |T| > 0
    ensures Normalize(Normalize(T)) == Normalize(T)
  {
  }

  /** A text whose only `$`, if any, is its last symbol is normalised into one
      holding exactly one `$`, at the end. */
  lemma NormalizeSentinelAtEnd(T: string)
    requires |T| > 0
    requires forall k :: 0 <= k < |T| - 1 ==> T[k] != Sentinel
    ensures forall k :: 0 <= k < |Normalize(T)| - 1 ==> Normalize(T)[k] != Sentinel
  {
    var r := Normalize(T);
    forall k | 0 <= k < |r| - 1
      ensures r[k] != Sentinel
    {
      assert r[k] == r[..|T|][k];
    }
  }

  /** Python's `s[k]`, where a negative `k` counts from the end. */
  function PyIndex(s: string, k: int): char
    requires -|s| <= k < |s|
  {
    if k < 0 then s[|s| + k] else s[k]
  }

  /** The offset after `j` in a cyclic text of length `n`. */
  function Succ(n: nat, j: nat): (r: nat)
    requires j < n
    ensures r < n
  {
    if j + 1 < n then j + 1 else 0
  }

  /** The offset before `i` in a cyclic text of length `n`. */
  function Prev(n: nat, i: int): (r: nat)
    requires n > 0
    ensures r < n
  {
    (i - 1) % n
  }

  lemma SuccPrev(n: nat, i: nat)
    requires i < n
    ensures Succ(n, Prev(n, i)) == i
    ensures Prev(n, Succ(n, i)) == i
  {
  }

  /** The last column of `fm_index_query.py` reads `T[i-1 % n]`, which Python parses
      as `T[i - (1 % n)]`; with Python's negative indexing it is `T[(i - 1) mod n]`
      for every row offset `i`, including `n == 1`. */
  lemma PrecedenceHarmless(T: string, i: nat)
    requires i < |T|
    ensures PyIndex(T, i - 1 % |T|) == T[Prev(|T|, i)]
  {
  }

  /** The `m` symbols read cyclically from offset `j`. */
  function CycPrefix(T: string, j: nat, m: nat): (r: string)
    requires j < |T|
    ensures |r| == m
    decreases m
  {
    if m == 0 then [] else [T[j]] + CycPrefix(T, Succ(|T|, j), m - 1)
  }

  /** The rotation `T[i:] + T[:i]`. */
  function Rot(T: string, i: nat): string
    requires i <= |T|
  {
    T[i..] + T[..i]
  }

  lemma {:induction false} CycInside(T: string, i: nat, k: nat)
    requires i < |T| && i + k <= |T|
    ensures CycPrefix(T, i, k) == T[i..i + k]
    decreases k
  {
    if k > 1 {
      CycInside(T, i + 1, k - 1);
    }
  }

  lemma {:induction false} CycSplitInside(T: string, i: nat, a: nat, k: nat)
    requires i + a < |T|
    ensures CycPrefix(T, i, a + k) == T[i..i + a] + CycPrefix(T, i + a, k)
    decreases a
  {
    if a > 0 {
      CycSplitInside(T, i + 1, a - 1, k);
    }
  }

  lemma {:induction false} CycFrom(T: string, j: nat, k: nat)
    requires j < |T|
    ensures CycPrefix(T, j, (|T| - j) + k) == T[j..] + CycPrefix(T, 0, k)
    decreases |T| - j
  {
    if j + 1 < |T| {
      CycFrom(T, j + 1, k);
    }
  }

  /** Reading `n` symbols cyclically from `j` spells the rotation at `j`. */
  lemma RotIsCycPrefix(T: string, j: nat)
    requires j < |T|
    ensures CycPrefix(T, j, |T|) == Rot(T, j)
  {
    CycFrom(T, j, j);
    if j > 0 {
      CycInside(T, 0, j);
    }
  }

  /** After a full turn the cyclic reading starts over. */
  lemma CycWrap(T: string, j: nat, k: nat)
    requires j < |T|
    ensures CycPrefix(T, j, |T| + k) == Rot(T, j) + CycPrefix(T, j, k)
  {
    CycFrom(T, j, j + k);
    CycSplitInside(T, 0, j, k);
    assert T[0..j] == T[..j];
  }

  lemma {:induction false} CycTruncate(T: string, j: nat, m: nat, k: nat)
    requires j < |T| && k <= m
    ensures CycPrefix(T, j, m)[..k] == CycPrefix(T, j, k)
    decreases k
  {
    if k > 0 {
      CycTruncate(T, Succ(|T|, j), m - 1, k - 1);
    }
  }

  /** Ordered rotations stay ordered when read cyclically to any length. */
  lemma {:induction false} CycMonotone(T: string, i: nat, j: nat, m: nat)
    requires i < |T| && j < |T|
    requires AtMost(Rot(T, i), Rot(T, j))
    ensures AtMost(CycPrefix(T, i, m), CycPrefix(T, j, m))
    decreases m, 1
  {
    if m <= |T| {
      CycMonotoneShort(T, i, j, m);
    } else {
      CycMonotoneLong(T, i, j, m);
    }
  }

  /** Read to at most one turn, the cyclic readings are prefixes of the rotations. */
  lemma CycMonotoneShort(T: string, i: nat, j: nat, m: nat)
    requires i < |T| && j < |T| && m <= |T|
    requires AtMost(Rot(T, i), Rot(T, j))
    ensures AtMost(CycPrefix(T, i, m), CycPrefix(T, j, m))
  {
    var n := |T|;
    RotIsCycPrefix(T, i);
    RotIsCycPrefix(T, j);
    CycTruncate(T, i, n, m);
    CycTruncate(T, j, n, m);
    AtMostTruncate(Rot(T, i), Rot(T, j), m);
  }

  /** Read past one turn, the cyclic readings are the rotations followed by the
      shorter readings. */
  lemma {:induction false} CycMonotoneLong(T: string, i: nat, j: nat, m: nat)
    requires i < |T| && j < |T| && m > |T|
    requires AtMost(Rot(T, i), Rot(T, j))
    ensures AtMost(CycPrefix(T, i, m), CycPrefix(T, j, m))
    decreases m, 0
  {
    var n := |T|;
    CycWrap(T, i, m - n);
    CycWrap(T, j, m - n);
    if Rot(T, i) == Rot(T, j) {
      CycMonotone(T, i, j, m - n);
      AtMostCommonPrefix(Rot(T, i), CycPrefix(T, i, m - n), CycPrefix(T, j, m - n));
    } else {
      BelowExtend(Rot(T, i), Rot(T, j), CycPrefix(T, i, m - n), CycPrefix(T, j, m - n));
    }
  }

  /** The order `sorted(range(n), key=lambda i: T[i:]+T[:i])` produces: by rotation
      string, and, Python's sort being stable, equal rotations by offset. */
  predicate RotBefore(T: string, i: int, j: int)
  {
    && 0 <= i <= |T| && 0 <= j <= |T|
    && (Below(Rot(T, i), Rot(T, j)) || (Rot(T, i) == Rot(T, j) && i < j))
  }

  lemma RotBeforeIrreflexive(T: string, i: int)
    ensures !RotBefore(T, i, i)
  {
    if 0 <= i <= |T| {
      BelowIrreflexive(Rot(T, i));
    }
  }

  lemma RotBeforeTransitive(T: string, i: int, j: int, k: int)
    requires RotBefore(T, i, j) && RotBefore(T, j, k)
    ensures RotBefore(T, i, k)
  {
    if Below(Rot(T, i), Rot(T, j)) && Below(Rot(T, j), Rot(T, k)) {
      BelowTransitive(Rot(T, i), Rot(T, j), Rot(T, k));
    }
  }

  lemma RotBeforeTotal(T: string, i: int, j: int)
    requires 0 <= i <= |T| && 0 <= j <= |T| && i != j
    ensures RotBefore(T, i, j) || RotBefore(T, j, i)
  {
    BelowTotal(Rot(T, i), Rot(T, j));
  }

  /** Rows listed in the order of their rotations. */
  predicate RowsSorted(T: string, rot: seq<int>)
  {
    forall a, b {:trigger RotBefore(T, rot[a], rot[b])} :: 0 <= a < b < |rot| ==> RotBefore(T, rot[a], rot[b])
  }

  /** The row offsets sorted as `fm_index_query.py` sorts them. */
  method SortRotations(T: string) returns (rot: seq<int>)
    requires |T| > 0
    ensures IsPermutation(rot, |T|)
    ensures RowsSorted(T, rot)
  {
    rot := [];
    var i := 0;
    while i < |T|
      invariant 0 <= i <= |T|
      invariant |rot| == i
      invariant forall k :: 0 <= k < |rot| ==> 0 <= rot[k] < i
      invariant forall x :: 0 <= x < i ==> x in rot
      invariant RowsSorted(T, rot)
    {
      var p := 0;
      while p < |rot| && RotBefore(T, rot[p], i)
        invariant 0 <= p <= |rot|
        invariant forall q :: 0 <= q < p ==> RotBefore(T, rot[q], i)
      {
        p := p + 1;
      }
      InsertKeepsSorted(T, rot, p, i);
      InsertKeepsMembers(rot, p, i);
      rot := rot[..p] + [i] + rot[p..];
      i := i + 1;
    }
    forall a, b | 0 <= a < b < |rot|
      ensures rot[a] != rot[b]
    {
      RotBeforeIrreflexive(T, rot[a]);
    }
  }

  lemma InsertKeepsSorted(T: string, rot: seq<int>, p: nat, i: nat)
    requires i <= |T| && p <= |rot|
    requires forall k :: 0 <= k < |rot| ==> 0 <= rot[k] < i
    requires RowsSorted(T, rot)
    requires forall q :: 0 <= q < p ==> RotBefore(T, rot[q], i)
    requires p < |rot| ==> !RotBefore(T, rot[p], i)
    ensures RowsSorted(T, rot[..p] + [i] + rot[p..])
  {
    var r := rot[..p] + [i] + rot[p..];
    forall q | p <= q < |rot|
      ensures RotBefore(T, i, rot[q])
    {
      RotBeforeTotal(T, rot[p], i);
      if q > p {
        RotBeforeTransitive(T, i, rot[p], rot[q]);
      }
    }
    forall a, b | 0 <= a < b < |r|
      ensures RotBefore(T, r[a], r[b])
    {
      if a < p && b < p {
        assert r[a] == rot[a] && r[b] == rot[b];
      } else if a < p && b == p {
      } else if a < p {
        assert r[a] == rot[a] && r[b] == rot[b - 1];
        RotBeforeTransitive(T, rot[a], i, rot[b - 1]);
      } else if a == p {
        assert r[b] == rot[b - 1];
      } else {
        assert r[a] == rot[a - 1] && r[b] == rot[b - 1];
      }
    }
  }

  lemma InsertKeepsMembers(rot: seq<int>, p: nat, i: int)
    requires p <= |rot|
    ensures forall x :: x in rot ==> x in rot[..p] + [i] + rot[p..]
    ensures i in rot[..p] + [i] + rot[p..]
  {
    var r := rot[..p] + [i] + rot[p..];
    assert r[p] == i;
    forall x | x in rot
      ensures x in r
    {
      var k :| 0 <= k < |rot| && rot[k] == x;
      if k < p { assert r[k] == x; } else { assert r[k + 1] == x; }
    }
  }

  /** The number of offsets whose rotation sorts before that of `x`. */
  function RankOf(T: string, x: int): nat
  {
    Count(0, |T|, y => RotBefore(T, y, x))
  }

  /** In rows sorted by rotation, row `k` holds the offset that has exactly `k`
      offsets sorting before it. */
  lemma SortedPosition(T: string, rot: seq<int>, k: nat)
    requires IsPermutation(rot, |T|) && RowsSorted(T, rot) && k < |T|
    ensures RankOf(T, rot[k]) == k
  {
    var x := rot[k];
    var p := y => RotBefore(T, y, x);
    var below := a => a < k;
    CountPermuted(rot, |T|, p);
    forall a | 0 <= a < |T|
      ensures Via(rot, p)(a) == below(a)
    {
      if a == k {
        RotBeforeIrreflexive(T, x);
      } else if a > k {
        assert RotBefore(T, rot[k], rot[a]);
        if RotBefore(T, rot[a], x) {
          RotBeforeTransitive(T, x, rot[a], x);
          RotBeforeIrreflexive(T, x);
        }
      }
    }
    CountExt(0, |T|, Via(rot, p), below);
    CountSplit(0, k, |T|, below);
    CountAll(0, k, below);
    CountNone(k, |T|, below);
  }

  /** Sorting the rows is deterministic: two orderings of the offsets that both
      follow the rotation order are one and the same, so any stable sort by the
      rotation key yields the rows `SortRotations` yields. */
  lemma SortedRowsUnique(T: string, r1: seq<int>, r2: seq<int>)
    requires IsPermutation(r1, |T|) && RowsSorted(T, r1)
    requires IsPermutation(r2, |T|) && RowsSorted(T, r2)
    ensures r1 == r2
  {
    forall k | 0 <= k < |T|
      ensures r1[k] == r2[k]
    {
      var j := IndexOf(r2, r1[k]);
      SortedPosition(T, r1, k);
      SortedPosition(T, r2, j);
    }
  }

  /** What `BWT(T, True)` returns for the normalised text `T`: the sorted row
      offsets `rot` and the last column `L`, `L[k] == T[(rot[k] - 1) mod n]`. */
  predicate IsBwt(T: string, L: string, rot: seq<int>)
  {
    && |T| > 0
    && IsPermutation(rot, |T|)
    && RowsSorted(T, rot)
    && |L| == |T|
    && forall k :: 0 <= k < |L| ==> L[k] == T[Prev(|T|, rot[k])]
  }

  /** The transform of a text is determined by the text: the rows and the last
      column `BWT` returns are the only ones satisfying `IsBwt`. */
  lemma BwtUnique(T: string, L1: string, r1: seq<int>, L2: string, r2: seq<int>)
    requires IsBwt(T, L1, r1) && IsBwt(T, L2, r2)
    ensures r1 == r2 && L1 == L2
  {
    SortedRowsUnique(T, r1, r2);
  }

  /** `BWT(T, DoReturnOffsets=True)`. */
  method Transform(T: string) returns (L: string, rot: seq<int>)
    requires |T| > 0
    ensures IsBwt(Normalize(T), L, rot)
    ensures multiset(L) == multiset(Normalize(T))
  {
    var text := Normalize(T);
    var n := |text|;
    rot := SortRotations(text);
    // `1 % n` binds tighter than the subtraction, as in the Python expression
    L := seq(n, k requires 0 <= k < n => PyIndex(text, rot[k] - 1 % n));
    forall k | 0 <= k < n
      ensures L[k] == text[Prev(n, rot[k])]
    {
      PrecedenceHarmless(text, rot[k]);
    }
    LastColumnPermutes(text, L, rot);
  }

  /** The offsets `(rot[k] - 1) mod n` of the last column's symbols. */
  function LastOffsets(n: nat, rot: seq<int>): (q: seq<int>)
    requires n > 0
    ensures |q| == |rot|
  {
    seq(|rot|, k requires 0 <= k < |rot| => Prev(n, rot[k]))
  }

  lemma LastOffsetsPermute(n: nat, rot: seq<int>)
    requires n > 0 && IsPermutation(rot, n)
    ensures IsPermutation(LastOffsets(n, rot), n)
  {
    var q := LastOffsets(n, rot);
    forall x | 0 <= x < n
      ensures x in q
    {
      var k := IndexOf(rot, Succ(n, x));
      SuccPrev(n, x);
      assert q[k] == x;
    }
    forall a, b | 0 <= a < b < n
      ensures q[a] != q[b]
    {
      SuccPrev(n, rot[a]);
      SuccPrev(n, rot[b]);
    }
  }

  /** The last column is a rearrangement of the text. */
  lemma LastColumnPermutes(T: string, L: string, rot: seq<int>)
    requires IsBwt(T, L, rot)
    ensures multiset(L) == multiset(T)
  {
    var q := LastOffsets(|T|, rot);
    LastOffsetsPermute(|T|, rot);
    assert L == Permute(T, q);
    PermuteMultiset(T, q);
  }
}
