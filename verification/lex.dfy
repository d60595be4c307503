/** Python's ordering of `str` values: lexicographic by code point, a proper
    prefix sorting before every extension of it. */
module Lex {

  /** `a < b` on Python strings. */
  predicate Below(a: string, b: string)
    decreases |a|
  {
    if |b| == 0 then false
    else if |a| == 0 then true
    else if a[0] != b[0] then a[0] < b[0]
    else Below(a[1..], b[1..])
  }

  /** `a <= b` on Python strings. */
  predicate AtMost(a: string, b: string)
  {
    a == b || Below(a, b)
  }

  lemma BelowIrreflexive(a: string)
    ensures !Below(a, a)
  {
  }

  lemma {:induction false} BelowTransitive(a: string, b: string, c: string)
    requires Below(a, b) && Below(b, c)
    ensures Below(a, c)
    decreases |a|
  {
    if |a| > 0 && a[0] == b[0] && b[0] == c[0] {
      BelowTransitive(a[1..], b[1..], c[1..]);
    }
  }

  lemma AtMostTransitive(a: string, b: string, c: string)
    requires AtMost(a, b) && AtMost(b, c)
    ensures AtMost(a, c)
  {
    if a != b && b != c {
      BelowTransitive(a, b, c);
    }
  }

  lemma {:induction false} BelowTotal(a: string, b: string)
    ensures a == b || Below(a, b) || Below(b, a)
    decreases |a|
  {
    if |a| > 0 && |b| > 0 && a[0] == b[0] {
      BelowTotal(a[1..], b[1..]);
      if a[1..] == b[1..] {
        assert a == [a[0]] + a[1..] && b == [b[0]] + b[1..];
      }
    }
  }

  lemma {:induction false} BelowAsymmetric(a: string, b: string)
    requires Below(a, b)
    ensures !Below(b, a)
    decreases |a|
  {
    if |a| > 0 && a[0] == b[0] {
      BelowAsymmetric(a[1..], b[1..]);
    }
  }

  /** Cutting two equally long strings at the same length keeps their order. */
  lemma {:induction false} AtMostTruncate(a: string, b: string, k: nat)
    requires |a| == |b| && k <= |a| && AtMost(a, b)
    ensures AtMost(a[..k], b[..k])
    decreases k
  {
    if k > 0 && a != b && a[0] == b[0] {
      assert a[1..][..k - 1] == a[..k][1..];
      assert b[1..][..k - 1] == b[..k][1..];
      AtMostTruncate(a[1..], b[1..], k - 1);
      if a[1..][..k - 1] == b[1..][..k - 1] {
        assert a[..k] == [a[0]] + a[1..][..k - 1];
        assert b[..k] == [b[0]] + b[1..][..k - 1];
      }
    }
  }

  /** The first difference of two equally long strings decides any extensions. */
  lemma {:induction false} BelowExtend(a: string, b: string, x: string, y: string)
    requires |a| == |b| && Below(a, b)
    ensures Below(a + x, b + y)
    decreases |a|
  {
    assert (a + x)[1..] == a[1..] + x;
    assert (b + y)[1..] == b[1..] + y;
    if a[0] == b[0] {
      BelowExtend(a[1..], b[1..], x, y);
    }
  }

  /** A common prefix does not change the order. */
  lemma {:induction false} BelowCommonPrefix(p: string, x: string, y: string)
    requires Below(x, y)
    ensures Below(p + x, p + y)
    decreases |p|
  {
    if |p| == 0 {
      assert p + x == x && p + y == y;
    } else {
      assert (p + x)[1..] == p[1..] + x;
      assert (p + y)[1..] == p[1..] + y;
      BelowCommonPrefix(p[1..], x, y);
    }
  }

  lemma AtMostCommonPrefix(p: string, x: string, y: string)
    requires AtMost(x, y)
    ensures AtMost(p + x, p + y)
  {
    if x != y {
      BelowCommonPrefix(p, x, y);
    }
  }
}
