/** Byte strings and the order LMDB and Python's `bytes` put on them.

    LMDB's default key comparison (and its default comparison of duplicate
    values in a `dupsort` table) is memcmp followed by length, which is the
    same lexicographic order Python uses for `bytes`: the first differing byte
    decides, and a proper prefix sorts first. */
module Bytes {

  type uint8 = x: int | 0 <= x < 0x100
  type bytes = seq<uint8>

  /** Strict lexicographic order on byte strings. */
  predicate Less(a: bytes, b: bytes)
    decreases |a|
  {
    |b| > 0 && (|a| == 0 || a[0] < b[0] || (a[0] == b[0] && Less(a[1..], b[1..])))
  }

  predicate LessEq(a: bytes, b: bytes)
  {
    a == b || Less(a, b)
  }

  /** `a` and `b` first differ at a position that lies inside both, and `a`
      has the smaller byte there: whatever is appended to either, `a` sorts
      first. This is the shape every order argument about keys rests on. */
  predicate Precedes(a: bytes, b: bytes)
    decreases |a|
  {
    |a| > 0 && |b| > 0 && (a[0] < b[0] || (a[0] == b[0] && Precedes(a[1..], b[1..])))
  }

  /** Python's slice `k[:n]`: clipped to the length of `k`. */
  function Take(k: bytes, n: nat): (r: bytes)
    ensures |r| == if n < |k| then n else |k|
    ensures r <= k
  {
    if n < |k| then k[..n] else k
  }

  lemma {:induction false} LessIrreflexive(a: bytes)
    ensures !Less(a, a)
    decreases |a|
  {
    if |a| > 0 {
      LessIrreflexive(a[1..]);
    }
  }

  lemma {:induction false} LessAsymmetric(a: bytes, b: bytes)
    requires Less(a, b)
    ensures !Less(b, a)
    decreases |a|
  {
    if |a| > 0 && a[0] == b[0] {
      LessAsymmetric(a[1..], b[1..]);
    }
  }

  lemma {:induction false} LessTransitive(a: bytes, b: bytes, c: bytes)
    requires Less(a, b) && Less(b, c)
    ensures Less(a, c)
    decreases |a|
  {
    if |a| > 0 && a[0] == b[0] && b[0] == c[0] {
      LessTransitive(a[1..], b[1..], c[1..]);
    }
  }

  lemma LessEqTransitive(a: bytes, b: bytes, c: bytes)
    requires LessEq(a, b) && LessEq(b, c)
    ensures LessEq(a, c)
  {
    if a != b && b != c {
      LessTransitive(a, b, c);
    }
  }

  lemma {:induction false} LessTotal(a: bytes, b: bytes)
    ensures a == b || Less(a, b) || Less(b, a)
    decreases |a|
  {
    if |a| > 0 && |b| > 0 && a[0] == b[0] {
      LessTotal(a[1..], b[1..]);
      if a[1..] == b[1..] {
        assert a == [a[0]] + a[1..] && b == [b[0]] + b[1..];
      }
    }
  }

  /** A string sorts no later than any of its extensions. */
  lemma {:induction false} PrefixLessEq(a: bytes, b: bytes)
    requires a <= b
    ensures LessEq(a, b)
    decreases |a|
  {
    if |a| > 0 {
      PrefixLessEq(a[1..], b[1..]);
    } else if |b| > 0 {
      assert Less(a, b);
    }
  }

  lemma {:induction false} PrecedesLess(a: bytes, b: bytes)
    requires Precedes(a, b)
    ensures Less(a, b)
    decreases |a|
  {
    if a[0] == b[0] && !(a[0] < b[0]) {
      PrecedesLess(a[1..], b[1..]);
    }
  }

  lemma PrecedesNotLessEq(a: bytes, b: bytes)
    requires Precedes(a, b)
    ensures !LessEq(b, a)
  {
    PrecedesLess(a, b);
    LessAsymmetric(a, b);
    LessIrreflexive(a);
  }

  /** Appending anything to either side keeps a difference found inside both. */
  lemma {:induction false} PrecedesExtend(a: bytes, b: bytes, x: bytes, y: bytes)
    requires Precedes(a, b)
    ensures Precedes(a + x, b + y)
    decreases |a|
  {
    assert (a + x)[0] == a[0] && (b + y)[0] == b[0];
    if !(a[0] < b[0]) {
      PrecedesExtend(a[1..], b[1..], x, y);
      assert (a + x)[1..] == a[1..] + x;
      assert (b + y)[1..] == b[1..] + y;
    }
  }

  /** A common prefix does not change which side precedes. */
  lemma {:induction false} PrecedesCommonPrefix(p: bytes, a: bytes, b: bytes)
    requires Precedes(a, b)
    ensures Precedes(p + a, p + b)
    decreases |p|
  {
    if |p| > 0 {
      PrecedesCommonPrefix(p[1..], a, b);
      assert (p + a)[1..] == p[1..] + a;
      assert (p + b)[1..] == p[1..] + b;
    } else {
      assert p + a == a && p + b == b;
    }
  }

  lemma {:induction false} PrecedesIrreflexive(a: bytes)
    ensures !Precedes(a, a)
    decreases |a|
  {
    if |a| > 0 {
      PrecedesIrreflexive(a[1..]);
    }
  }

  /** Truncating the left side to at least the right side's length keeps the difference. */
  lemma {:induction false} PrecedesTakeLeft(a: bytes, b: bytes, n: nat)
    requires Precedes(a, b) && n >= |b|
    ensures Precedes(Take(a, n), b)
    decreases |a|
  {
    var t := Take(a, n);
    assert t[0] == a[0];
    if !(a[0] < b[0]) {
      PrecedesTakeLeft(a[1..], b[1..], n - 1);
      assert t[1..] == Take(a[1..], n - 1);
    }
  }

  /** Truncating the right side to at least the left side's length keeps the difference. */
  lemma {:induction false} PrecedesTakeRight(a: bytes, b: bytes, n: nat)
    requires Precedes(a, b) && n >= |a|
    ensures Precedes(a, Take(b, n))
    decreases |a|
  {
    var t := Take(b, n);
    assert t[0] == b[0];
    if !(a[0] < b[0]) {
      PrecedesTakeRight(a[1..], b[1..], n - 1);
      assert t[1..] == Take(b[1..], n - 1);
    }
  }

  /** Truncation to a common length is monotone. */
  lemma {:induction false} TakeMonotone(a: bytes, b: bytes, n: nat)
    requires LessEq(a, b)
    ensures LessEq(Take(a, n), Take(b, n))
    decreases |a|
  {
    if a != b && n > 0 && |a| > 0 {
      var ta, tb := Take(a, n), Take(b, n);
      assert ta[0] == a[0] && tb[0] == b[0];
      if a[0] == b[0] {
        TakeMonotone(a[1..], b[1..], n - 1);
        assert ta[1..] == Take(a[1..], n - 1);
        assert tb[1..] == Take(b[1..], n - 1);
        if ta[1..] == tb[1..] {
          assert ta == [ta[0]] + ta[1..] && tb == [tb[0]] + tb[1..];
        }
      }
    } else if a != b && n > 0 {
      PrefixLessEq(Take(a, n), Take(b, n));
    }
  }

  /** Comparing a key against a bound with `>=` gives the same answer on the
      whole key and on the key cut to the bound's length. */
  lemma BoundTakeIff(bound: bytes, k: bytes)
    ensures LessEq(bound, k) <==> LessEq(bound, Take(k, |bound|))
  {
    var t := Take(k, |bound|);
    PrefixLessEq(t, k);
    if LessEq(bound, t) {
      LessEqTransitive(bound, t, k);
    }
    if !LessEq(bound, t) {
      LessTotal(bound, t);
      TakeLessCut(t, bound, k);
      LessAsymmetric(k, bound);
      LessIrreflexive(k);
    }
  }

  /** If the cut of `k` to `|bound|` sorts below `bound`, so does all of `k`. */
  lemma TakeLessCut(t: bytes, bound: bytes, k: bytes)
    requires t == Take(k, |bound|) && Less(t, bound)
    ensures Less(k, bound)
  {
    if |k| <= |bound| {
      assert t == k;
    } else {
      assert |t| == |bound|;
      PrecedesOfLessSameLength(t, bound);
      PrecedesExtend(t, bound, k[|bound|..], []);
      assert t + k[|bound|..] == k;
      assert bound + [] == bound;
      PrecedesLess(k, bound);
    }
  }

  lemma {:induction false} PrecedesOfLessSameLength(a: bytes, b: bytes)
    requires |a| == |b| && Less(a, b)
    ensures Precedes(a, b)
    decreases |a|
  {
    if a[0] == b[0] {
      PrecedesOfLessSameLength(a[1..], b[1..]);
    }
  }
}
