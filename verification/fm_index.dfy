/** `FMIndexQuery` of `fm_index_query.py`: the count and first-occurrence tables
    over the last column, and backward search by LF-mapping. */
module FmIndex {
  import opened Wrappers
  import opened Lex
  import opened Counting
  import opened Bwt

  /** Index `j` of `s` holds `c`. */
  function IsSym(s: string, c: char): int -> bool
  {
    j => 0 <= j < |s| && s[j] == c
  }

  /** Index `j` of `s` holds a symbol smaller than `c`. */
  function IsSmaller(s: string, c: char): int -> bool
  {
    j => 0 <= j < |s| && s[j] < c
  }

  /** `L[:x].count(c)`. */
  function Rank(L: string, c: char, x: int): nat
  {
    Count(0, x, IsSym(L, c))
  }

  /** `L.count(c)`. */
  function Occ(L: string, c: char): nat
  {
    Count(0, |L|, IsSym(L, c))
  }

  /** The number of symbols of `L` strictly smaller than `c`. */
  function Smaller(L: string, c: char): nat
  {
    Count(0, |L|, IsSmaller(L, c))
  }

  /** `char_count`: every symbol of `L` to its number of occurrences. */
  function CountTable(L: string): map<char, nat>
  {
    map c | c in L :: Occ(L, c)
  }

  /** `char_Fpos`: every symbol of `L` to the summed counts of the smaller symbols,
      the symbols enumerated in order of first appearance. */
  function FirstTable(L: string): map<char, nat>
  {
    map c | c in L :: SumBelow(L, Symbols(L), c)
  }

  /** `sum(char_count[p] for p in keys if p < c)`. */
  function SumBelow(L: string, keys: seq<char>, c: char): nat
  {
    if |keys| == 0 then 0
    else SumBelow(L, keys[..|keys| - 1], c) + (if keys[|keys| - 1] < c then Occ(L, keys[|keys| - 1]) else 0)
  }

  predicate Distinct<T(==)>(s: seq<T>)
  {
    forall a, b :: 0 <= a < b < |s| ==> s[a] != s[b]
  }

  /** `set(L)`, listed once each in order of first appearance. */
  function Symbols(s: string): (r: seq<char>)
    ensures Distinct(r)
    ensures forall x :: x in r <==> x in s
  {
    if |s| == 0 then []
    else
      var r := Symbols(s[..|s| - 1]);
      assert forall x :: x in s <==> x in s[..|s| - 1] || x == s[|s| - 1] by {
        assert s == s[..|s| - 1] + [s[|s| - 1]];
      }
      if s[|s| - 1] in r then r else r + [s[|s| - 1]]
  }

  /** Positions of `L` holding a symbol listed in `keys` and smaller than `c`. */
  function KeyedBelow(L: string, keys: seq<char>, c: char): int -> bool
  {
    j => 0 <= j < |L| && L[j] in keys && L[j] < c
  }

  lemma {:induction false} SumBelowCounts(L: string, keys: seq<char>, c: char)
    requires Distinct(keys)
    ensures SumBelow(L, keys, c) == Count(0, |L|, KeyedBelow(L, keys, c))
    decreases |keys|
  {
    if |keys| == 0 {
      CountNone(0, |L|, KeyedBelow(L, keys, c));
    } else {
      var init, last := keys[..|keys| - 1], keys[|keys| - 1];
      assert keys == init + [last];
      SumBelowCounts(L, init, c);
      if last < c {
        CountUnion(0, |L|, KeyedBelow(L, init, c), IsSym(L, last), KeyedBelow(L, keys, c));
      } else {
        CountExt(0, |L|, KeyedBelow(L, init, c), KeyedBelow(L, keys, c));
      }
    }
  }

  /** However the distinct symbols of `L` are enumerated, `char_Fpos[c]` is the
      number of positions of `L` holding a symbol smaller than `c`. */
  lemma SumBelowIsSmaller(L: string, keys: seq<char>, c: char)
    requires Distinct(keys) && forall x :: x in keys <==> x in L
    ensures SumBelow(L, keys, c) == Smaller(L, c)
  {
    SumBelowCounts(L, keys, c);
    CountExt(0, |L|, KeyedBelow(L, keys, c), IsSmaller(L, c));
  }

  /** The tables of `FMIndexQuery` hold, for each symbol of `L`, its count and the
      number of smaller symbols. */
  lemma TablesAgree(L: string)
    ensures forall c :: c in CountTable(L) <==> c in L
    ensures forall c :: c in FirstTable(L) <==> c in L
    ensures forall c :: c in L ==> CountTable(L)[c] == Occ(L, c) && FirstTable(L)[c] == Smaller(L, c)
  {
    forall c | c in L
      ensures FirstTable(L)[c] == Smaller(L, c)
    {
      SumBelowIsSmaller(L, Symbols(L), c);
    }
  }

  /** `char_Fpos[c]` is the index of the first occurrence of `c` in the first
      column: the rows whose rotation starts with `c` are exactly
      `[char_Fpos[c], char_Fpos[c] + char_count[c])`. */
  lemma FirstColumn(T: string, L: string, rot: seq<int>, c: char)
    requires IsBwt(T, L, rot) && c in L
    ensures forall k :: 0 <= k < |T| ==>
      (T[rot[k]] == c <==> FirstTable(L)[c] <= k < FirstTable(L)[c] + CountTable(L)[c])
  {
    SumBelowIsSmaller(L, Symbols(L), c);
    SymbolBlock(T, L, rot, c);
    RowBlock(T, rot, [c]);
    forall k | 0 <= k < |T|
      ensures CycPrefix(T, rot[k], 1) == [T[rot[k]]]
    {
    }
  }

  /** The ranges `[char_Fpos[c], char_Fpos[c] + char_count[c])` partition the
      rows: each row lies in the range of its own first symbol, which is a symbol
      of `L`, and in no other. */
  lemma FirstColumnPartition(T: string, L: string, rot: seq<int>)
    requires IsBwt(T, L, rot)
    ensures forall k :: 0 <= k < |T| ==> T[rot[k]] in L
    ensures forall k, c :: 0 <= k < |T| && c in L ==>
      (FirstTable(L)[c] <= k < FirstTable(L)[c] + CountTable(L)[c] <==> c == T[rot[k]])
  {
    LastColumnPermutes(T, L, rot);
    forall k | 0 <= k < |T|
      ensures T[rot[k]] in L
    {
      assert T[rot[k]] in multiset(T);
    }
    forall c | c in L
      ensures forall k :: 0 <= k < |T| ==>
        (FirstTable(L)[c] <= k < FirstTable(L)[c] + CountTable(L)[c] <==> c == T[rot[k]])
    {
      FirstColumn(T, L, rot, c);
    }
  }

  /** The rows starting with the symbol `c` come after the rows starting with a
      smaller symbol and are as many as the occurrences of `c`. */
  lemma SymbolBlock(T: string, L: string, rot: seq<int>, c: char)
    requires IsBwt(T, L, rot)
    ensures Lower(T, [c]) == Smaller(L, c) && Matches(T, [c]) == Occ(L, c)
  {
    ExtendLeftLower(T, L, rot, [], c);
    ExtendLeftMatches(T, L, rot, [], c);
    EmptyPattern(T);
    assert [c] + [] == [c];
  }

  /** `[x for x in range(lo, hi)]`. */
  function Interval(lo: int, hi: int): (r: seq<int>)
    requires lo <= hi
    ensures |r| == hi - lo
    ensures forall k :: 0 <= k < |r| ==> r[k] == lo + k
  {
    seq(hi - lo, k => lo + k)
  }

  /** `[e for e in rows if L[e] == c]`. */
  function Matching(L: string, rows: seq<int>, c: char): (r: seq<int>)
    requires forall k :: 0 <= k < |rows| ==> 0 <= rows[k] < |L|
    ensures forall x :: x in r <==> x in rows && 0 <= x < |L| && L[x] == c
    decreases |rows|
  {
    if |rows| == 0 then []
    else (if L[rows[0]] == c then [rows[0]] else []) + Matching(L, rows[1..], c)
  }

  /** Filtering a contiguous range keeps its matches counted, and its first match
      has every earlier row of the range before it holding another symbol. */
  lemma MatchingInterval(L: string, lo: int, hi: int, c: char)
    requires 0 <= lo <= hi <= |L|
    ensures |Matching(L, Interval(lo, hi), c)| == Count(lo, hi, IsSym(L, c))
    ensures var m := Matching(L, Interval(lo, hi), c);
      |m| > 0 ==> lo <= m[0] < hi && L[m[0]] == c && Rank(L, c, m[0]) == Rank(L, c, lo)
  {
    MatchingCount(L, lo, hi, c);
    MatchingFirst(L, lo, hi, c);
  }

  lemma {:induction false} MatchingCount(L: string, lo: int, hi: int, c: char)
    requires 0 <= lo <= hi <= |L|
    ensures |Matching(L, Interval(lo, hi), c)| == Count(lo, hi, IsSym(L, c))
    decreases hi - lo
  {
    if lo < hi {
      assert Interval(lo, hi)[1..] == Interval(lo + 1, hi);
      MatchingCount(L, lo + 1, hi, c);
      CountSplit(lo, lo + 1, hi, IsSym(L, c));
    }
  }

  lemma {:induction false} MatchingFirst(L: string, lo: int, hi: int, c: char)
    requires 0 <= lo <= hi <= |L|
    ensures var m := Matching(L, Interval(lo, hi), c);
      |m| > 0 ==> lo <= m[0] < hi && L[m[0]] == c && Rank(L, c, m[0]) == Rank(L, c, lo)
    decreases hi - lo
  {
    if lo < hi {
      assert Interval(lo, hi)[1..] == Interval(lo + 1, hi);
      MatchingFirst(L, lo + 1, hi, c);
      var m := Matching(L, Interval(lo, hi), c);
      if L[lo] != c && |m| > 0 {
        var rest := Matching(L, Interval(lo + 1, hi), c);
        assert m == rest;
        CountSplit(0, lo, lo + 1, IsSym(L, c));
      }
    }
  }

  /** `sorted(xs)` for offsets `xs` below `n` that are pairwise distinct: the
      ascending list of them. */
  function SortOffsets(xs: seq<int>, n: int): (r: seq<int>)
    ensures Ascending(r)
    ensures forall o :: o in r <==> 0 <= o < n && o in xs
    ensures |r| == Count(0, n, InSeq(xs))
  {
    KeepListed(0, n, xs)
  }

  function InSeq(xs: seq<int>): int -> bool
  {
    j => j in xs
  }

  predicate Ascending(s: seq<int>)
  {
    forall a, b :: 0 <= a < b < |s| ==> s[a] < s[b]
  }

  function KeepListed(lo: int, hi: int, xs: seq<int>): (r: seq<int>)
    ensures Ascending(r)
    ensures forall o :: o in r <==> lo <= o < hi && o in xs
    ensures |r| == Count(lo, hi, InSeq(xs))
    decreases hi - lo
  {
    if hi <= lo then []
    else
      var before := KeepListed(lo, hi - 1, xs);
      assert forall k :: 0 <= k < |before| ==> before[k] in before;
      before + (if hi - 1 in xs then [hi - 1] else [])
  }

  /** `sorted(xs)` for pairwise distinct offsets below `n` reorders `xs`: the result
      is the unique ascending permutation of it. */
  lemma SortOffsetsPermutes(xs: seq<int>, n: int)
    requires Distinct(xs) && forall k :: 0 <= k < |xs| ==> 0 <= xs[k] < n
    ensures multiset(SortOffsets(xs, n)) == multiset(xs)
  {
    var r := SortOffsets(xs, n);
    assert Distinct(r);
    DistinctMultiplicity(r);
    DistinctMultiplicity(xs);
    assert forall x :: multiset(r)[x] == multiset(xs)[x];
  }

  lemma {:induction false} DistinctMultiplicity(s: seq<int>)
    requires Distinct(s)
    ensures forall x :: multiset(s)[x] == if x in s then 1 else 0
  {
    if |s| > 0 {
      assert s == [s[0]] + s[1..];
      DistinctMultiplicity(s[1..]);
    }
  }

  /** The offsets whose rotation, read to the length of `S`, sorts below `S`. */
  function PrefixBelow(T: string, S: string): int -> bool
  {
    j => 0 <= j < |T| && Below(CycPrefix(T, j, |S|), S)
  }

  function PrefixAtMost(T: string, S: string): int -> bool
  {
    j => 0 <= j < |T| && AtMost(CycPrefix(T, j, |S|), S)
  }

  /** The offsets whose rotation starts with `S`: the cyclic occurrences of `S`. */
  function PrefixIs(T: string, S: string): int -> bool
  {
    j => 0 <= j < |T| && CycPrefix(T, j, |S|) == S
  }

  /** The number of rows sorting before every row that starts with `S`. */
  function Lower(T: string, S: string): nat
  {
    Count(0, |T|, PrefixBelow(T, S))
  }

  /** The number of cyclic occurrences of `S` in `T`. */
  function Matches(T: string, S: string): nat
  {
    Count(0, |T|, PrefixIs(T, S))
  }

  /** Rows are ordered by their rotations read cyclically to any length `m`. */
  lemma RowsMonotone(T: string, rot: seq<int>, m: nat)
    requires |T| > 0 && IsPermutation(rot, |T|) && RowsSorted(T, rot)
    ensures forall a, b :: 0 <= a <= b < |T| ==> AtMost(CycPrefix(T, rot[a], m), CycPrefix(T, rot[b], m))
  {
    forall a, b | 0 <= a <= b < |T|
      ensures AtMost(CycPrefix(T, rot[a], m), CycPrefix(T, rot[b], m))
    {
      if a < b {
        assert RotBefore(T, rot[a], rot[b]);
        CycMonotone(T, rot[a], rot[b], m);
      }
    }
  }

  lemma RowsBelow(T: string, rot: seq<int>, S: string)
    requires |T| > 0 && IsPermutation(rot, |T|) && RowsSorted(T, rot)
    ensures forall k :: 0 <= k < |T| ==> (Below(CycPrefix(T, rot[k], |S|), S) <==> k < Lower(T, S))
  {
    var n := |T|;
    var lt := Via(rot, PrefixBelow(T, S));
    RowsMonotone(T, rot, |S|);
    forall a, b | 0 <= a <= b < n && lt(b)
      ensures lt(a)
    {
      if CycPrefix(T, rot[a], |S|) != CycPrefix(T, rot[b], |S|) {
        BelowTransitive(CycPrefix(T, rot[a], |S|), CycPrefix(T, rot[b], |S|), S);
      }
    }
    CountDownClosed(n, lt);
    CountPermuted(rot, n, PrefixBelow(T, S));
    assert Count(0, n, lt) == Lower(T, S);
    forall k | 0 <= k < n
      ensures Below(CycPrefix(T, rot[k], |S|), S) <==> k < Lower(T, S)
    {
      assert lt(k) <==> Below(CycPrefix(T, rot[k], |S|), S);
    }
  }

  lemma RowsAtMost(T: string, rot: seq<int>, S: string)
    requires |T| > 0 && IsPermutation(rot, |T|) && RowsSorted(T, rot)
    ensures forall k :: 0 <= k < |T| ==>
      (AtMost(CycPrefix(T, rot[k], |S|), S) <==> k < Count(0, |T|, PrefixAtMost(T, S)))
  {
    var n := |T|;
    var le := Via(rot, PrefixAtMost(T, S));
    RowsMonotone(T, rot, |S|);
    forall a, b | 0 <= a <= b < n && le(b)
      ensures le(a)
    {
      AtMostTransitive(CycPrefix(T, rot[a], |S|), CycPrefix(T, rot[b], |S|), S);
    }
    CountDownClosed(n, le);
    CountPermuted(rot, n, PrefixAtMost(T, S));
    forall k | 0 <= k < n
      ensures AtMost(CycPrefix(T, rot[k], |S|), S) <==> k < Count(0, n, PrefixAtMost(T, S))
    {
      assert le(k) <==> AtMost(CycPrefix(T, rot[k], |S|), S);
    }
  }

  /** The rows starting with `S` are the contiguous block `[Lower, Lower + Matches)`,
      preceded exactly by the rows sorting below `S`. */
  lemma RowBlock(T: string, rot: seq<int>, S: string)
    requires |T| > 0 && IsPermutation(rot, |T|) && RowsSorted(T, rot)
    ensures Lower(T, S) + Matches(T, S) <= |T|
    ensures forall k :: 0 <= k < |T| ==> (Below(CycPrefix(T, rot[k], |S|), S) <==> k < Lower(T, S))
    ensures forall k :: 0 <= k < |T| ==>
      (CycPrefix(T, rot[k], |S|) == S <==> Lower(T, S) <= k < Lower(T, S) + Matches(T, S))
  {
    RowsBelow(T, rot, S);
    RowsAtMost(T, rot, S);
    BelowIrreflexive(S);
    CountUnion(0, |T|, PrefixBelow(T, S), PrefixIs(T, S), PrefixAtMost(T, S));
  }

  lemma BlockFits(T: string, rot: seq<int>, S: string)
    requires |T| > 0 && IsPermutation(rot, |T|) && RowsSorted(T, rot)
    ensures Lower(T, S) + Matches(T, S) <= |T|
  {
    RowBlock(T, rot, S);
  }

  /** Counting a symbol or the smaller symbols over the last column is counting it
      over the text. */
  lemma SymbolCountsAgree(T: string, L: string, rot: seq<int>, c: char)
    requires IsBwt(T, L, rot)
    ensures Smaller(L, c) == Count(0, |T|, IsSmaller(T, c))
    ensures Occ(L, c) == Count(0, |T|, IsSym(T, c))
  {
    var n := |T|;
    var q := LastOffsets(n, rot);
    LastOffsetsPermute(n, rot);
    CountPermuted(q, n, IsSmaller(T, c));
    CountPermuted(q, n, IsSym(T, c));
    CountExt(0, n, Via(q, IsSmaller(T, c)), IsSmaller(L, c));
    CountExt(0, n, Via(q, IsSym(T, c)), IsSym(L, c));
  }

  /** `Count(0, n, p restricted to [lo, hi))` is `Count(lo, hi, p)`. */
  function Within(p: int -> bool, lo: int, hi: int): int -> bool
  {
    j => lo <= j < hi && p(j)
  }

  lemma CountWithin(n: int, p: int -> bool, lo: int, hi: int)
    requires 0 <= lo <= hi <= n
    ensures Count(0, n, Within(p, lo, hi)) == Count(lo, hi, p)
  {
    CountSplit(0, lo, n, Within(p, lo, hi));
    CountSplit(lo, hi, n, Within(p, lo, hi));
    CountNone(0, lo, Within(p, lo, hi));
    CountNone(hi, n, Within(p, lo, hi));
    CountExt(lo, hi, Within(p, lo, hi), p);
  }

  /** An offset's rotation starts with `c S` (sorts below `c S`) when it holds `c`
      and the next offset's rotation starts with `S` (or it holds a smaller symbol,
      or it holds `c` and the next rotation sorts below `S`). */
  lemma ConsDecompose(T: string, S: string, c: char, j: int)
    requires 0 <= j < |T|
    ensures PrefixBelow(T, [c] + S)(j) <==>
      T[j] < c || (T[j] == c && PrefixBelow(T, S)(Succ(|T|, j)))
    ensures PrefixIs(T, [c] + S)(j) <==> T[j] == c && PrefixIs(T, S)(Succ(|T|, j))
  {
    var rest := CycPrefix(T, Succ(|T|, j), |S|);
    assert CycPrefix(T, j, |S| + 1) == [T[j]] + rest;
    assert ([T[j]] + rest)[1..] == rest;
    assert ([c] + S)[1..] == S;
  }

  /** The first half of the LF-mapping step of backward search: the block of rows
      starting with `c S` begins at `C[c]` plus the rank of `c` in `L` before the
      block of rows starting with `S`. */
  lemma ExtendLeftLower(T: string, L: string, rot: seq<int>, S: string, c: char)
    requires IsBwt(T, L, rot)
    ensures Lower(T, [c] + S) == Smaller(L, c) + Rank(L, c, Lower(T, S))
  {
    var n := |T|;
    var lo := Lower(T, S);
    RowBlock(T, rot, S);
    var q := LastOffsets(n, rot);
    LastOffsetsPermute(n, rot);
    var belowNext := j => 0 <= j < n && T[j] == c && PrefixBelow(T, S)(Succ(n, j));
    forall j | 0 <= j < n
      ensures PrefixBelow(T, [c] + S)(j) <==> IsSmaller(T, c)(j) || belowNext(j)
    {
      ConsDecompose(T, S, c, j);
    }
    CountUnion(0, n, IsSmaller(T, c), belowNext, PrefixBelow(T, [c] + S));
    SymbolCountsAgree(T, L, rot, c);
    // read through the last column's offsets, the next offset is the row's own
    CountPermuted(q, n, belowNext);
    forall k | 0 <= k < n
      ensures Via(q, belowNext)(k) == Within(IsSym(L, c), 0, lo)(k)
    {
      SuccPrev(n, rot[k]);
    }
    CountExt(0, n, Via(q, belowNext), Within(IsSym(L, c), 0, lo));
    CountWithin(n, IsSym(L, c), 0, lo);
  }

  /** The second half of the LF-mapping step: the block of rows starting with `c S`
      holds as many rows as the block starting with `S` has `c` in `L`. */
  lemma ExtendLeftMatches(T: string, L: string, rot: seq<int>, S: string, c: char)
    requires IsBwt(T, L, rot)
    ensures Matches(T, [c] + S) == Count(Lower(T, S), Lower(T, S) + Matches(T, S), IsSym(L, c))
  {
    NextIsCons(T, S, c);
    NextIsBlock(T, L, rot, S, c);
    CountThroughRows(|T|, rot, NextIs(T, S, c), IsSym(L, c), Lower(T, S), Lower(T, S) + Matches(T, S));
  }

  /** A backward step never widens the block: no more rows start with `c S`
      than with `S`. */
  lemma StepNarrows(T: string, L: string, rot: seq<int>, S: string, c: char)
    requires IsBwt(T, L, rot)
    ensures Matches(T, [c] + S) <= Matches(T, S)
  {
    ExtendLeftMatches(T, L, rot, S, c);
  }

  /** A predicate on offsets that, read through the last column's offsets, holds
      exactly on the rows of `[lo, hi)` satisfying `r` is counted by them. */
  lemma CountThroughRows(n: nat, rot: seq<int>, p: int -> bool, r: int -> bool, lo: int, hi: int)
    requires n > 0 && IsPermutation(rot, n) && 0 <= lo <= hi <= n
    requires forall k :: 0 <= k < n ==> Via(LastOffsets(n, rot), p)(k) == Within(r, lo, hi)(k)
    ensures Count(0, n, p) == Count(lo, hi, r)
  {
    var q := LastOffsets(n, rot);
    LastOffsetsPermute(n, rot);
    CountPermuted(q, n, p);
    CountExt(0, n, Via(q, p), Within(r, lo, hi));
    CountWithin(n, r, lo, hi);
  }

  /** Offset `j` holds `c` and the next offset starts a cyclic occurrence of `S`. */
  function NextIs(T: string, S: string, c: char): int -> bool
  {
    j => 0 <= j < |T| && T[j] == c && PrefixIs(T, S)(Succ(|T|, j))
  }

  /** The cyclic occurrences of `c S` are the offsets holding `c` just before an
      occurrence of `S`. */
  lemma NextIsCons(T: string, S: string, c: char)
    ensures Count(0, |T|, NextIs(T, S, c)) == Matches(T, [c] + S)
  {
    forall j | 0 <= j < |T|
      ensures PrefixIs(T, [c] + S)(j) <==> NextIs(T, S, c)(j)
    {
      ConsDecompose(T, S, c, j);
    }
    CountExt(0, |T|, NextIs(T, S, c), PrefixIs(T, [c] + S));
  }

  /** Read through the last column's offsets, "holds `c` before an occurrence of
      `S`" picks the rows of the block of `S` whose last-column symbol is `c`. */
  lemma NextIsBlock(T: string, L: string, rot: seq<int>, S: string, c: char)
    requires IsBwt(T, L, rot)
    ensures Lower(T, S) + Matches(T, S) <= |T|
    ensures forall k :: 0 <= k < |T| ==>
      Via(LastOffsets(|T|, rot), NextIs(T, S, c))(k) == Within(IsSym(L, c), Lower(T, S), Lower(T, S) + Matches(T, S))(k)
  {
    var n := |T|;
    var q := LastOffsets(n, rot);
    RowBlock(T, rot, S);
    forall k | 0 <= k < n
      ensures Via(q, NextIs(T, S, c))(k) == Within(IsSym(L, c), Lower(T, S), Lower(T, S) + Matches(T, S))(k)
    {
      SuccPrev(n, rot[k]);
    }
  }

  /** The empty pattern: no row sorts below it and every row starts with it. */
  lemma EmptyPattern(T: string)
    ensures Lower(T, []) == 0
    ensures Matches(T, []) == |T|
  {
    CountNone(0, |T|, PrefixBelow(T, []));
    CountAll(0, |T|, PrefixIs(T, []));
  }

  /** A cyclic occurrence of `X` carries one of each suffix of `X`. */
  lemma {:induction false} SuffixMatches(T: string, X: string, i: nat)
    requires i <= |X| && Matches(T, X) > 0
    ensures Matches(T, X[i..]) > 0
    decreases i
  {
    if i > 0 {
      CountPositive(0, |T|, PrefixIs(T, X));
      var o :| 0 <= o < |T| && PrefixIs(T, X)(o);
      OccurrenceShifts(T, X, o);
      CountPositive(0, |T|, PrefixIs(T, X[1..]));
      SuffixMatches(T, X[1..], i - 1);
      assert X[1..][i - 1..] == X[i..];
    }
  }

  /** Past the first symbol of an occurrence of `X` starts an occurrence of the
      rest of `X`. */
  lemma OccurrenceShifts(T: string, X: string, o: int)
    requires |X| > 0 && PrefixIs(T, X)(o)
    ensures PrefixIs(T, X[1..])(Succ(|T|, o))
  {
    assert CycPrefix(T, o, |X|) == [T[o]] + CycPrefix(T, Succ(|T|, o), |X| - 1);
  }

  /** In a text ending in `$`, an occurrence of a pattern without `$` never wraps
      around the end (it would have to cover that last `$`): a cyclic occurrence
      is a plain occurrence `T[o:o+|P|] == P`, and conversely. */
  lemma CyclicIsPlain(T: string, P: string, o: nat)
    requires |T| > 0 && T[|T| - 1] == Sentinel
    requires Sentinel !in P
    requires o < |T|
    ensures CycPrefix(T, o, |P|) == P <==> o + |P| <= |T| && T[o..o + |P|] == P
  {
    if o + |P| <= |T| {
      CycInside(T, o, |P|);
    } else {
      var t := |T| - 1 - o;
      CycTruncate(T, o, |P|, t + 1);
      CycInside(T, o, t + 1);
      assert CycPrefix(T, o, |P|)[t] == Sentinel;
    }
  }

  /** The search starts from the block of rows beginning with the last symbol of
      `P`: `[C[c], C[c] + count[c])`. */
  lemma SearchStart(T: string, text: string, L: string, rot: seq<int>, P: string)
    requires |T| > 0 && |P| > 0 && text == Normalize(T) && IsBwt(text, L, rot)
    requires multiset(L) == multiset(text)
    requires P[|P| - 1] in T
    ensures P[|P| - 1] in L
    ensures Lower(text, P[|P| - 1..]) == Smaller(L, P[|P| - 1])
    ensures Matches(text, P[|P| - 1..]) == Occ(L, P[|P| - 1])
    ensures Smaller(L, P[|P| - 1]) + Occ(L, P[|P| - 1]) <= |L|
  {
    var last := P[|P| - 1];
    assert last in multiset(text) by {
      assert T == text[..|T|];
    }
    assert last in multiset(L);
    SymbolBlock(text, L, rot, last);
    assert [last] == P[|P| - 1..];
    BlockFits(text, rot, P[|P| - 1..]);
  }

  /** One backward step of the search, from the block of rows starting with
      `P[i+1:]` to the block starting with `P[i:]`. */
  lemma SearchStep(T: string, L: string, rot: seq<int>, P: string, i: nat, lo: int, hi: int)
    requires IsBwt(T, L, rot) && i < |P|
    requires lo == Lower(T, P[i + 1..]) && hi == lo + Matches(T, P[i + 1..]) && hi <= |L|
    ensures var m := Matching(L, Interval(lo, hi), P[i]);
      && (|m| == 0 ==> Matches(T, P) == 0)
      && (|m| > 0 ==>
        && P[i] in L
        && Lower(T, P[i..]) == Smaller(L, P[i]) + Rank(L, P[i], m[0])
        && Matches(T, P[i..]) == |m|
        && Lower(T, P[i..]) + Matches(T, P[i..]) <= |L|)
  {
    var c := P[i];
    MatchingInterval(L, lo, hi, c);
    var m := Matching(L, Interval(lo, hi), c);
    if |m| == 0 {
      StepToNothing(T, L, rot, P, i, lo, hi);
    } else {
      StepToBlock(T, L, rot, P, i, lo, hi, m[0]);
    }
  }

  /** No row of the block has `P[i]` in the last column: `P` does not occur. */
  lemma StepToNothing(T: string, L: string, rot: seq<int>, P: string, i: nat, lo: int, hi: int)
    requires IsBwt(T, L, rot) && i < |P|
    requires lo == Lower(T, P[i + 1..]) && hi == lo + Matches(T, P[i + 1..])
    requires Count(lo, hi, IsSym(L, P[i])) == 0
    ensures Matches(T, P) == 0
  {
    assert [P[i]] + P[i + 1..] == P[i..];
    ExtendLeftMatches(T, L, rot, P[i + 1..], P[i]);
    SuffixMatchesNone(T, P, i);
  }

  /** Some row of the block has `P[i]` in the last column, the first at `first`:
      the LF-mapping of that row starts the block of rows beginning with `P[i:]`. */
  lemma StepToBlock(T: string, L: string, rot: seq<int>, P: string, i: nat, lo: int, hi: int, first: int)
    requires IsBwt(T, L, rot) && i < |P|
    requires lo == Lower(T, P[i + 1..]) && hi == lo + Matches(T, P[i + 1..])
    requires 0 <= lo <= first < hi <= |L| && L[first] == P[i] && Rank(L, P[i], first) == Rank(L, P[i], lo)
    ensures P[i] in L
    ensures Lower(T, P[i..]) == Smaller(L, P[i]) + Rank(L, P[i], first)
    ensures Matches(T, P[i..]) == Count(lo, hi, IsSym(L, P[i]))
    ensures Lower(T, P[i..]) + Matches(T, P[i..]) <= |L|
  {
    var c := P[i];
    assert [c] + P[i + 1..] == P[i..];
    ExtendLeftLower(T, L, rot, P[i + 1..], c);
    ExtendLeftMatches(T, L, rot, P[i + 1..], c);
    BlockFits(T, rot, P[i..]);
  }

  /** The search's result once every symbol of `P` has been processed, or once the
      block of rows has become empty. */
  lemma SearchFinish(T: string, rot: seq<int>, P: string, rows: seq<int>, hits: seq<int>)
    requires |T| > 0 && IsPermutation(rot, |T|) && RowsSorted(T, rot)
    requires rows == Interval(Lower(T, P), Lower(T, P) + Matches(T, P)) || (rows == [] && Matches(T, P) == 0)
    requires Lower(T, P) + Matches(T, P) <= |T|
    requires |hits| == |rows| && forall k :: 0 <= k < |rows| ==> 0 <= rows[k] < |T| && hits[k] == rot[rows[k]]
    ensures |rows| == Matches(T, P) == |SortOffsets(hits, |T|)|
    ensures forall o :: o in SortOffsets(hits, |T|) <==> 0 <= o < |T| && CycPrefix(T, o, |P|) == P
  {
    if rows == [] && Matches(T, P) == 0 {
      NoOffsets(T, P, hits);
    } else {
      OffsetsOfBlock(T, rot, P, Lower(T, P), Lower(T, P) + Matches(T, P), hits);
    }
    CountExt(0, |T|, InSeq(hits), PrefixIs(T, P));
  }

  lemma NoOffsets(T: string, P: string, hits: seq<int>)
    requires Matches(T, P) == 0 && hits == []
    ensures forall o :: o in hits <==> PrefixIs(T, P)(o)
  {
    CountPositive(0, |T|, PrefixIs(T, P));
  }

  /** For a pattern without `$`, the cyclic occurrences are the plain occurrences
      in the normalised text, whatever the caller's text holds. */
  lemma PlainOccurrences(T: string, P: string, offs: seq<int>)
    requires |T| > 0 && |P| > 0 && Sentinel !in P
    requires forall o :: o in offs <==> 0 <= o < |Normalize(T)| && CycPrefix(Normalize(T), o, |P|) == P
    ensures forall o :: o in offs <==> 0 <= o && o + |P| <= |Normalize(T)| && Normalize(T)[o..o + |P|] == P
  {
    var text := Normalize(T);
    assert text[|text| - 1] == Sentinel;
    CyclicOffsetsArePlain(text, P, offs);
  }

  lemma CyclicOffsetsArePlain(text: string, P: string, offs: seq<int>)
    requires |text| > 0 && text[|text| - 1] == Sentinel && |P| > 0 && Sentinel !in P
    requires forall o :: o in offs <==> 0 <= o < |text| && CycPrefix(text, o, |P|) == P
    ensures forall o :: o in offs <==> 0 <= o && o + |P| <= |text| && text[o..o + |P|] == P
  {
    forall o
      ensures o in offs <==> 0 <= o && o + |P| <= |text| && text[o..o + |P|] == P
    {
      if 0 <= o < |text| {
        CyclicIsPlain(text, P, o);
      }
    }
  }

  /** `FMIndexQuery(T, P)`: `None` when the last symbol of `P` is not in `T`; otherwise
      the number of rows found and their text offsets in ascending order, which are
      exactly the offsets where `P` occurs cyclically in the normalised text. */
  method Query(T: string, P: string) returns (r: Option<(nat, seq<int>)>)
    requires |T| > 0 && |P| > 0
    ensures r.None? <==> P[|P| - 1] !in T
    ensures r.Some? ==> r.value.0 == |r.value.1| == Matches(Normalize(T), P)
    ensures r.Some? ==> Ascending(r.value.1)
    ensures r.Some? ==> forall o :: o in r.value.1 <==>
      0 <= o < |Normalize(T)| && CycPrefix(Normalize(T), o, |P|) == P
    ensures r.Some? && Sentinel !in P ==>
      forall o :: o in r.value.1 <==>
        0 <= o && o + |P| <= |Normalize(T)| && Normalize(T)[o..o + |P|] == P
  {
    var L, offsets := Transform(T);
    ghost var text := Normalize(T);
    var charCount := CountTable(L);
    var charFpos := FirstTable(L);
    if P[|P| - 1] !in T {
      return None;
    }
    TablesAgree(L);
    SearchStart(T, text, L, offsets, P);
    var prefixIndexes := BackwardSearch(text, L, offsets, charCount, charFpos, P);
    var hits := seq(|prefixIndexes|, k requires 0 <= k < |prefixIndexes| => offsets[prefixIndexes[k]]);
    SearchFinish(text, offsets, P, prefixIndexes, hits);
    r := Some((|prefixIndexes|, SortOffsets(hits, |L|)));
    if Sentinel !in P {
      PlainOccurrences(T, P, r.value.1);
    }
  }

  /** The loop of `FMIndexQuery`: starting from the rows beginning with the last
      symbol of `P`, narrow the block one symbol of `P` at a time, right to left,
      and stop early once no row is left. The result is the block of rows starting
      with `P`, or empty when `P` does not occur. */
  method BackwardSearch(ghost text: string, L: string, rot: seq<int>,
                        charCount: map<char, nat>, charFpos: map<char, nat>, P: string)
    returns (prefixIndexes: seq<int>)
    requires IsBwt(text, L, rot) && |P| > 0 && P[|P| - 1] in L
    requires forall c :: c in L ==> c in charCount && c in charFpos
    requires forall c :: c in L ==> charCount[c] == Occ(L, c) && charFpos[c] == Smaller(L, c)
    requires Lower(text, P[|P| - 1..]) == Smaller(L, P[|P| - 1])
    requires Matches(text, P[|P| - 1..]) == Occ(L, P[|P| - 1])
    requires Smaller(L, P[|P| - 1]) + Occ(L, P[|P| - 1]) <= |L|
    ensures Lower(text, P) + Matches(text, P) <= |L|
    ensures || prefixIndexes == Interval(Lower(text, P), Lower(text, P) + Matches(text, P))
            || (prefixIndexes == [] && Matches(text, P) == 0)
    ensures forall k :: 0 <= k < |prefixIndexes| ==> 0 <= prefixIndexes[k] < |L|
  {
    prefixIndexes := Interval(charFpos[P[|P| - 1]], charFpos[P[|P| - 1]] + charCount[P[|P| - 1]]);
    ghost var lo, hi := charFpos[P[|P| - 1]], charFpos[P[|P| - 1]] + charCount[P[|P| - 1]];
    var queryChar := -2;
    while queryChar >= -|P|
      invariant -|P| - 1 <= queryChar <= -2
      invariant lo == Lower(text, P[|P| + queryChar + 1..])
      invariant hi == lo + Matches(text, P[|P| + queryChar + 1..]) && hi <= |L|
      invariant prefixIndexes == Interval(lo, hi)
    {
      var c := P[|P| + queryChar];
      SearchStep(text, L, rot, P, |P| + queryChar, lo, hi);
      prefixIndexes := Matching(L, prefixIndexes, c);
      if |prefixIndexes| == 0 {
        RowBlock(text, rot, P);
        return;
      }
      var bottomRank := Rank(L, c, prefixIndexes[0]);
      var bottomIndex := charFpos[c] + bottomRank;
      var topIndex := bottomIndex + |prefixIndexes|;
      lo, hi := bottomIndex, topIndex;
      prefixIndexes := Interval(bottomIndex, topIndex);
      queryChar := queryChar - 1;
    }
    assert P[|P| + queryChar + 1..] == P;
  }

  lemma SuffixMatchesNone(T: string, P: string, i: nat)
    requires i <= |P| && Matches(T, P[i..]) == 0
    ensures Matches(T, P) == 0
  {
    if Matches(T, P) > 0 {
      SuffixMatches(T, P, i);
    }
  }

  /** The text offsets of the block of rows starting with `P` are the cyclic
      occurrences of `P`. */
  lemma OffsetsOfBlock(T: string, rot: seq<int>, P: string, lo: int, hi: int, hits: seq<int>)
    requires |T| > 0 && IsPermutation(rot, |T|) && RowsSorted(T, rot)
    requires lo == Lower(T, P) && hi == lo + Matches(T, P) && hi <= |T|
    requires |hits| == hi - lo && forall k :: 0 <= k < |hits| ==> hits[k] == rot[lo + k]
    ensures forall o :: o in hits <==> PrefixIs(T, P)(o)
  {
    RowBlock(T, rot, P);
    forall o | PrefixIs(T, P)(o)
      ensures o in hits
    {
      var k := IndexOf(rot, o);
      assert hits[k - lo] == o;
    }
  }
}
