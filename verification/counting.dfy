/** Counting the indices of a range that satisfy a predicate, and permutations
    of `0..n-1`, which leave such counts unchanged. */
module Counting {

  /** The number of `j` in `[lo, hi)` with `p(j)`. */
  function Count(lo: int, hi: int, p: int -> bool): (r: nat)
    ensures r <= if hi <= lo then 0 else hi - lo
    decreases hi - lo
  {
    if hi <= lo then 0 else Count(lo, hi - 1, p) + (if p(hi - 1) then 1 else 0)
  }

  lemma {:induction false} CountSplit(lo: int, mid: int, hi: int, p: int -> bool)
    requires lo <= mid <= hi
    ensures Count(lo, hi, p) == Count(lo, mid, p) + Count(mid, hi, p)
    decreases hi - mid
  {
    if mid < hi {
      CountSplit(lo, mid, hi - 1, p);
    }
  }

  lemma {:induction false} CountExt(lo: int, hi: int, p: int -> bool, q: int -> bool)
    requires forall j :: lo <= j < hi ==> p(j) == q(j)
    ensures Count(lo, hi, p) == Count(lo, hi, q)
    decreases hi - lo
  {
    if lo < hi {
      CountExt(lo, hi - 1, p, q);
    }
  }

  lemma {:induction false} CountMono(lo: int, hi: int, p: int -> bool, q: int -> bool)
    requires forall j :: lo <= j < hi && p(j) ==> q(j)
    ensures Count(lo, hi, p) <= Count(lo, hi, q)
    decreases hi - lo
  {
    if lo < hi {
      CountMono(lo, hi - 1, p, q);
    }
  }

  /** Counting a disjoint union adds the counts. */
  lemma {:induction false} CountUnion(lo: int, hi: int, p: int -> bool, q: int -> bool, r: int -> bool)
    requires forall j :: lo <= j < hi ==> (r(j) <==> p(j) || q(j)) && !(p(j) && q(j))
    ensures Count(lo, hi, r) == Count(lo, hi, p) + Count(lo, hi, q)
    decreases hi - lo
  {
    if lo < hi {
      CountUnion(lo, hi - 1, p, q, r);
    }
  }

  lemma {:induction false} CountAll(lo: int, hi: int, p: int -> bool)
    requires lo <= hi
    requires forall j :: lo <= j < hi ==> p(j)
    ensures Count(lo, hi, p) == hi - lo
    decreases hi - lo
  {
    if lo < hi {
      CountAll(lo, hi - 1, p);
    }
  }

  lemma {:induction false} CountNone(lo: int, hi: int, p: int -> bool)
    requires forall j :: lo <= j < hi ==> !p(j)
    ensures Count(lo, hi, p) == 0
    decreases hi - lo
  {
    if lo < hi {
      CountNone(lo, hi - 1, p);
    }
  }

  /** A count is positive exactly when some index of the range satisfies the predicate. */
  lemma {:induction false} CountPositive(lo: int, hi: int, p: int -> bool)
    ensures Count(lo, hi, p) > 0 <==> exists j :: lo <= j < hi && p(j)
    decreases hi - lo
  {
    if lo < hi {
      CountPositive(lo, hi - 1, p);
    }
  }

  /** A predicate closed downwards on `[0, n)` holds exactly on its first `Count` indices. */
  lemma {:induction false} CountDownClosed(n: nat, p: int -> bool)
    requires forall a, b :: 0 <= a <= b < n && p(b) ==> p(a)
    ensures forall k :: 0 <= k < n ==> (p(k) <==> k < Count(0, n, p))
    decreases n
  {
    if n > 0 {
      if p(n - 1) {
        CountAll(0, n, p);
      } else {
        CountDownClosed(n - 1, p);
      }
    }
  }

  /** `s` lists each of `0..n-1` exactly once. */
  predicate IsPermutation(s: seq<int>, n: nat)
  {
    && |s| == n
    && (forall k :: 0 <= k < |s| ==> 0 <= s[k] < n)
    && (forall x :: 0 <= x < n ==> x in s)
    && (forall a, b :: 0 <= a < b < |s| ==> s[a] != s[b])
  }

  /** `s` read in the order `perm` gives. */
  function Permute<T>(s: seq<T>, perm: seq<int>): (r: seq<T>)
    requires IsPermutation(perm, |s|)
    ensures |r| == |s|
  {
    seq(|perm|, k requires 0 <= k < |perm| => s[perm[k]])
  }

  /** The predicate `p` read through `perm`: index `k` stands for `perm[k]`. */
  function Via(perm: seq<int>, p: int -> bool): int -> bool
  {
    k => 0 <= k < |perm| && p(perm[k])
  }

  /** Reading a sequence through a permutation keeps its multiset of elements. */
  lemma {:induction false} PermuteMultiset<T>(s: seq<T>, perm: seq<int>)
    requires IsPermutation(perm, |s|)
    ensures multiset(Permute(s, perm)) == multiset(s)
    decreases |s|
  {
    var n := |s|;
    if n > 0 {
      var top := n - 1;
      var at := IndexOf(perm, top);
      var rest := perm[..at] + perm[at + 1..];
      RemoveFromPermutation(perm, n, at);
      var s' := s[..n - 1];
      PermuteMultiset(s', rest);
      var ps := Permute(s', rest);
      PermuteRemoved(s, perm, at, rest);
      InsertMultiset(ps, at, s[top]);
      assert s == s' + [s[top]];
    }
  }

  lemma InsertMultiset<T>(s: seq<T>, at: nat, x: T)
    requires at <= |s|
    ensures multiset(s[..at] + [x] + s[at..]) == multiset(s) + multiset{x}
  {
    assert s == s[..at] + s[at..];
  }

  lemma PermuteRemoved<T>(s: seq<T>, perm: seq<int>, at: nat, rest: seq<int>)
    requires |s| > 0 && IsPermutation(perm, |s|) && at < |s| && perm[at] == |s| - 1
    requires rest == perm[..at] + perm[at + 1..] && IsPermutation(rest, |s| - 1)
    ensures Permute(s, perm) == Permute(s[..|s| - 1], rest)[..at] + [s[|s| - 1]] + Permute(s[..|s| - 1], rest)[at..]
  {
    var ps := Permute(s[..|s| - 1], rest);
    var rhs := ps[..at] + [s[|s| - 1]] + ps[at..];
    assert |rhs| == |s|;
    forall k | 0 <= k < |s|
      ensures Permute(s, perm)[k] == rhs[k]
    {
      if k < at {
        assert rest[k] == perm[k];
      } else if k > at {
        assert rest[k - 1] == perm[k];
        assert rhs[k] == ps[k - 1];
      }
    }
  }

  /** The position of `x` in `s`. */
  function IndexOf(s: seq<int>, x: int): (k: nat)
    requires x in s
    ensures k < |s| && s[k] == x
  {
    if s[0] == x then 0 else 1 + IndexOf(s[1..], x)
  }

  /** Dropping the entry `n - 1` from a permutation of `0..n-1` leaves one of `0..n-2`. */
  lemma RemoveFromPermutation(perm: seq<int>, n: nat, at: nat)
    requires IsPermutation(perm, n) && n > 0 && at < n && perm[at] == n - 1
    ensures IsPermutation(perm[..at] + perm[at + 1..], n - 1)
  {
    var rest := perm[..at] + perm[at + 1..];
    assert forall k :: 0 <= k < |rest| ==> rest[k] == if k < at then perm[k] else perm[k + 1];
    forall x | 0 <= x < n - 1
      ensures x in rest
    {
      var k := IndexOf(perm, x);
      if k < at { assert rest[k] == x; } else { assert rest[k - 1] == x; }
    }
  }

  /** Counting through a permutation counts the same indices. */
  lemma CountPermuted(perm: seq<int>, n: nat, p: int -> bool)
    requires IsPermutation(perm, n)
    ensures Count(0, n, Via(perm, p)) == Count(0, n, p)
  {
    var s := seq(n, j => p(j));
    PermuteMultiset(s, perm);
    forall k | 0 <= k < n
      ensures Permute(s, perm)[k] == Via(perm, p)(k)
    {
    }
    assert Permute(s, perm) == seq(n, k => Via(perm, p)(k));
    CountAsMultiset(n, p);
    CountAsMultiset(n, Via(perm, p));
  }

  lemma {:induction false} CountAsMultiset(n: nat, p: int -> bool)
    ensures Count(0, n, p) == multiset(seq(n, j => p(j)))[true]
    decreases n
  {
    if n > 0 {
      CountAsMultiset(n - 1, p);
      assert seq(n, j => p(j)) == seq(n - 1, j => p(j)) + [p(n - 1)];
    }
  }
}
