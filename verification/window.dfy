/** What a stretch of an index table holds, stated in terms of the rows its
    keys were built from: the order facts that make the prefix scans of
    `_getRowsByProp` and `_subrangeRows` (synapse/cores/lmdb.py) find
    exactly the rows they are meant to find. */
module KeyWindows {
  import opened Wrappers
  import opened Bytes
  import opened MsgPack
  import opened LmdbCodec
  import opened SortedIndex

  // ------------------------------------------------ a key against a bound

  /** The key cut to the bound's length sorts below the bound, is the
      bound, or sorts above it. */
  predicate CutBelow(k: bytes, x: bytes)
  {
    Less(Take(k, |x|), x)
  }

  predicate CutAt(k: bytes, x: bytes)
  {
    Take(k, |x|) == x
  }

  predicate CutAbove(k: bytes, x: bytes)
  {
    Less(x, Take(k, |x|))
  }

  /** Exactly one of the three holds. */
  lemma CutTrichotomy(k: bytes, x: bytes)
    ensures CutBelow(k, x) || CutAt(k, x) || CutAbove(k, x)
    ensures !(CutBelow(k, x) && CutAt(k, x))
    ensures !(CutAt(k, x) && CutAbove(k, x))
    ensures !(CutBelow(k, x) && CutAbove(k, x))
  {
    var t := Take(k, |x|);
    LessTotal(t, x);
    LessIrreflexive(x);
    if Less(t, x) {
      LessAsymmetric(t, x);
    }
  }

  /** A key that starts with something preceding the bound is cut below it. */
  lemma CutOfPreceding(y: bytes, t: bytes, x: bytes)
    requires Precedes(y, x)
    ensures CutBelow(y + t, x)
  {
    PrecedesExtend(y, x, t, []);
    assert x + [] == x;
    PrecedesTakeLeft(y + t, x, |x|);
    PrecedesLess(Take(y + t, |x|), x);
  }

  /** A key that starts with something the bound precedes is cut above it. */
  lemma CutOfPreceded(y: bytes, t: bytes, x: bytes)
    requires Precedes(x, y)
    ensures CutAbove(y + t, x)
  {
    PrecedesExtend(x, y, [], t);
    assert x + [] == x;
    PrecedesTakeRight(x, y + t, |x|);
    PrecedesLess(x, Take(y + t, |x|));
  }

  /** A key that extends the bound is cut to the bound. */
  lemma CutOfExtension(x: bytes, t: bytes)
    ensures CutAt(x + t, x)
  {
    if |t| == 0 {
      assert x + t == x;
    } else {
      assert (x + t)[..|x|] == x;
    }
  }

  /** `k >= first` is decided by the cut of `k`. */
  lemma AtLeastByCut(first: bytes, k: bytes)
    ensures LessEq(first, k) <==> CutAt(k, first) || CutAbove(k, first)
  {
    BoundTakeIff(first, k);
  }

  // ---------------------------------------------- values against a bound

  /** The values whose keys sort before the key of the integer `a`:
      non-negative integers keep their order and come first; strings come
      next; negative integers come last, in reverse order. */
  predicate KeyBefore(v: Value, a: int)
  {
    if a >= 0 then v.IntVal? && 0 <= v.i < a
    else !(v.IntVal? && v.i <= a)
  }

  /** A value other than `a` has a key that differs from `a`'s inside both,
      on the side `KeyBefore` says. */
  lemma ValKeySide(c: Codec, v: Value, a: int)
    requires KeyEncodable(v) && -UINT64_LIMIT < a < UINT64_LIMIT
    ensures v != IntVal(a) && KeyBefore(v, a) ==> Precedes(EncValKey(c, v), EncValKey(c, IntVal(a)))
    ensures v != IntVal(a) && !KeyBefore(v, a) ==> Precedes(EncValKey(c, IntVal(a)), EncValKey(c, v))
  {
    var w := IntVal(a);
    if v != w {
      if KindRank(v) < KindRank(w) {
        ValKeyKindOrder(c, v, w);
      } else if KindRank(w) < KindRank(v) {
        ValKeyKindOrder(c, w, v);
      } else if a >= 0 {
        if v.i < a {
          ValKeyOrderNonNegative(c, v.i, a);
        } else {
          ValKeyOrderNonNegative(c, a, v.i);
        }
      } else {
        if v.i < a {
          ValKeyOrderNegative(c, v.i, a);
        } else {
          ValKeyOrderNegative(c, a, v.i);
        }
      }
    }
  }

  /** Where the key `packStr(q) + valKey(v) + t` of an index item lies
      against the bound `packStr(p) + valKey(a)`. */
  lemma KeySide(c: Codec, q: string, v: Value, t: bytes, p: string, a: int)
    requires KeyEncodable(v) && -UINT64_LIMIT < a < UINT64_LIMIT
    ensures var k, x := c.packStr(q) + EncValKey(c, v) + t, c.packStr(p) + EncValKey(c, IntVal(a));
      && (q == p && v == IntVal(a) ==> CutAt(k, x))
      && (q == p && v != IntVal(a) && KeyBefore(v, a) ==> CutBelow(k, x))
      && (q == p && v != IntVal(a) && !KeyBefore(v, a) ==> CutAbove(k, x))
      && (Precedes(c.packStr(q), c.packStr(p)) ==> CutBelow(k, x))
      && (Precedes(c.packStr(p), c.packStr(q)) ==> CutAbove(k, x))
  {
    var pp, qq := c.packStr(p), c.packStr(q);
    var e, ea := EncValKey(c, v), EncValKey(c, IntVal(a));
    var x := pp + ea;
    if q == p {
      PrecedesIrreflexive(pp);
      if v == IntVal(a) {
        assert qq + e + t == x + t;
        CutOfExtension(x, t);
      } else {
        ValKeySide(c, v, a);
        assert qq + e + t == (pp + e) + t;
        if KeyBefore(v, a) {
          PrecedesCommonPrefix(pp, e, ea);
          CutOfPreceding(pp + e, t, x);
        } else {
          PrecedesCommonPrefix(pp, ea, e);
          CutOfPreceded(pp + e, t, x);
        }
      }
    } else {
      if Precedes(qq, pp) {
        PrecedesExtend(qq, pp, e, ea);
        CutOfPreceding(qq + e, t, x);
      }
      if Precedes(pp, qq) {
        PrecedesExtend(pp, qq, ea, e);
        CutOfPreceded(qq + e, t, x);
      }
    }
  }

  // ------------------------------------------------ the range windows

  /** The integer values from `a` up to `b`, `b` itself only when `closed`. */
  predicate InRange(v: Value, a: int, b: int, closed: bool)
  {
    v.IntVal? && a <= v.i && (v.i < b || (closed && v.i == b))
  }

  /** Two different props have packings that differ inside both. */
  lemma PropsApart(c: Codec, q: string, p: string)
    requires SelfDelimiting(c) && q != p
    ensures Precedes(c.packStr(q), c.packStr(p)) || Precedes(c.packStr(p), c.packStr(q))
  {
  }

  /** The forward range of `_subrangeRows` (both ends non-negative): an item
      of the P-V-T index is in it exactly when its row has the prop and an
      integer value in the range. */
  lemma ForwardKeyWindow(c: Codec, q: string, v: Value, t: bytes, p: string, a: int, b: int, closed: bool)
    requires SelfDelimiting(c) && KeyEncodable(v)
    requires 0 <= a < UINT64_LIMIT && 0 <= b < UINT64_LIMIT
    ensures var pp := c.packStr(p);
      InForward(pp + EncValKey(c, IntVal(a)), UpTo(pp + EncValKey(c, IntVal(b)), closed), c.packStr(q) + EncValKey(c, v) + t)
      <==> q == p && InRange(v, a, b, closed)
  {
    var pp := c.packStr(p);
    var first, last := pp + EncValKey(c, IntVal(a)), pp + EncValKey(c, IntVal(b));
    var k := c.packStr(q) + EncValKey(c, v) + t;
    KeySide(c, q, v, t, p, a);
    KeySide(c, q, v, t, p, b);
    CutTrichotomy(k, first);
    CutTrichotomy(k, last);
    AtLeastByCut(first, k);
    if q != p {
      PropsApart(c, q, p);
    }
  }

  /** The backward range of `_subrangeRows` (both ends negative): the same,
      although the walk goes down the table from the key of `a`. */
  lemma BackwardKeyWindow(c: Codec, q: string, v: Value, t: bytes, p: string, a: int, b: int, closed: bool)
    requires SelfDelimiting(c) && KeyEncodable(v)
    requires -UINT64_LIMIT < a < 0 && -UINT64_LIMIT < b < 0
    ensures var pp := c.packStr(p);
      InBackward(pp + EncValKey(c, IntVal(a)), DownTo(pp + EncValKey(c, IntVal(b)), closed), c.packStr(q) + EncValKey(c, v) + t)
      <==> q == p && InRange(v, a, b, closed)
  {
    var pp := c.packStr(p);
    var first, last := pp + EncValKey(c, IntVal(a)), pp + EncValKey(c, IntVal(b));
    var k := c.packStr(q) + EncValKey(c, v) + t;
    KeySide(c, q, v, t, p, a);
    KeySide(c, q, v, t, p, b);
    CutTrichotomy(k, first);
    CutTrichotomy(k, last);
    if q != p {
      PropsApart(c, q, p);
    }
  }

  // ------------------------------------------------ value keys apart

  /** Different value keys differ inside both, so a value key is never a
      proper prefix of another (given a self-delimiting string packing). */
  lemma ValKeysApart(c: Codec, v: Value, w: Value)
    requires SelfDelimiting(c) && KeyEncodable(v) && KeyEncodable(w)
    requires EncValKey(c, v) != EncValKey(c, w)
    ensures Precedes(EncValKey(c, v), EncValKey(c, w)) || Precedes(EncValKey(c, w), EncValKey(c, v))
  {
    if KindRank(v) < KindRank(w) {
      ValKeyKindOrder(c, v, w);
    } else if KindRank(w) < KindRank(v) {
      ValKeyKindOrder(c, w, v);
    } else if v.IntVal? {
      var m, n := v.i, w.i;
      if m >= 0 {
        if m < n {
          ValKeyOrderNonNegative(c, m, n);
        } else {
          ValKeyOrderNonNegative(c, n, m);
        }
      } else {
        if m < n {
          ValKeyOrderNegative(c, m, n);
        } else {
          ValKeyOrderNegative(c, n, m);
        }
      }
    } else {
      StringKeyShape(c, v.s);
      StringKeyShape(c, w.s);
      if |v.s| < LARGE_STRING_SIZE {
        var x, y := c.packStr(v.s), c.packStr(w.s);
        if Precedes(x, y) {
          PrecedesCommonPrefix([0xfe], x, y);
        } else {
          PrecedesCommonPrefix([0xfe], y, x);
        }
      } else {
        var g, h := c.xxh64(v.s), c.xxh64(w.s);
        if g < h {
          PackUnsignedOrder(g, h);
          PrecedesCommonPrefix([0xfd], PackInt(g), PackInt(h));
        } else {
          PackUnsignedOrder(h, g);
          PrecedesCommonPrefix([0xfd], PackInt(h), PackInt(g));
        }
      }
    }
  }

  /** Two different values share a key only when both are long strings
      whose 64-bit digests collide. */
  lemma ValKeyCollision(c: Codec, v: Value, w: Value)
    requires SelfDelimiting(c) && KeyEncodable(v) && KeyEncodable(w)
    ensures v != w && EncValKey(c, v) == EncValKey(c, w) ==>
      && v.StrVal? && w.StrVal?
      && |v.s| >= LARGE_STRING_SIZE && |w.s| >= LARGE_STRING_SIZE
      && c.xxh64(v.s) == c.xxh64(w.s)
  {
    var e, f := EncValKey(c, v), EncValKey(c, w);
    if v != w && KindRank(v) == KindRank(w) {
      if v.IntVal? {
        if v.i >= 0 {
          if v.i < w.i {
            ValKeyOrderNonNegative(c, v.i, w.i);
          } else {
            ValKeyOrderNonNegative(c, w.i, v.i);
          }
        } else {
          if v.i < w.i {
            ValKeyOrderNegative(c, v.i, w.i);
          } else {
            ValKeyOrderNegative(c, w.i, v.i);
          }
        }
        PrecedesIrreflexive(e);
        PrecedesIrreflexive(f);
      } else if |v.s| < LARGE_STRING_SIZE {
        StringKeyShape(c, v.s);
        StringKeyShape(c, w.s);
        var x, y := c.packStr(v.s), c.packStr(w.s);
        if e == f {
          assert x == e[1..] && y == f[1..];
        }
        PrecedesIrreflexive(x);
      } else {
        StringKeyShape(c, v.s);
        StringKeyShape(c, w.s);
        var g, h := c.xxh64(v.s), c.xxh64(w.s);
        if e == f {
          assert PackInt(g) == e[1..] && PackInt(h) == f[1..];
          PackRoundTrip(g);
          PackRoundTrip(h);
        }
      }
    }
  }

  // ------------------------------------------------ the time windows

  /** The packing of `_getRowsByProp`'s lower time bound: nothing when it is
      absent, so that the window starts at the first time of the prefix. */
  function MinTimeEnc(mintime: Option<int>): (b: bytes)
    requires mintime.None? || Packable(mintime.value)
    ensures mintime.None? ==> b == []
    ensures mintime.Some? ==> UnpackInt(b) == Some(mintime.value)
  {
    if mintime.None? then []
    else
      PackRoundTrip(mintime.value);
      PackInt(mintime.value)
  }

  /** The upper time bound: `MAX_INT_VAL` when absent. */
  function MaxTime(maxtime: Option<int>): int
  {
    if maxtime.None? then MAX_INT_VAL else maxtime.value
  }

  /** The times the window of `_getRowsByProp` admits, for non-negative
      bounds: from the lower bound (if any) up to, not including, the upper
      one. Negative times pack with a leading byte above every non-negative
      packing, so they fall past the upper bound. */
  predicate TimeIn(t: int, mintime: Option<int>, maxtime: int)
  {
    0 <= t && (mintime.None? || mintime.value <= t) && t < maxtime
  }

  /** Every negative integer's packing starts with a byte of at least 0xd0. */
  lemma PackNegativeFirstByte(n: int)
    requires INT64_MIN <= n < 0
    ensures |PackInt(n)| >= 1 && PackInt(n)[0] >= 0xd0
  {
  }

  /** A negative time packs above every non-negative one. */
  lemma NegativeTimeAbove(m: int, t: int)
    requires 0 <= m < UINT64_LIMIT && INT64_MIN <= t < 0
    ensures Precedes(PackInt(m), PackInt(t))
  {
    PackUnsignedFirstByte(m);
    PackNegativeFirstByte(t);
  }

  /** Keys `x + packed time` in the window from `x + lower` up to (not
      including) `x + packed maxtime` are those whose time is in range. */
  lemma TimeWindow(x: bytes, mintime: Option<int>, maxtime: int, t: int)
    requires mintime.None? || 0 <= mintime.value < UINT64_LIMIT
    requires 0 <= maxtime < UINT64_LIMIT && Packable(t)
    ensures InForward(x + MinTimeEnc(mintime), Below(x + PackInt(maxtime)), x + PackInt(t))
      <==> TimeIn(t, mintime, maxtime)
  {
    var k, first, last := x + PackInt(t), x + MinTimeEnc(mintime), x + PackInt(maxtime);
    // the upper end
    if t < 0 {
      NegativeTimeAbove(maxtime, t);
      PrecedesCommonPrefix(x, PackInt(maxtime), PackInt(t));
      PrecedesLess(last, k);
    } else if t < maxtime {
      PackUnsignedOrder(t, maxtime);
      PrecedesCommonPrefix(x, PackInt(t), PackInt(maxtime));
      PrecedesNotLessEq(k, last);
    } else if t == maxtime {
      LessIrreflexive(k);
    } else {
      PackUnsignedOrder(maxtime, t);
      PrecedesCommonPrefix(x, PackInt(maxtime), PackInt(t));
      PrecedesLess(last, k);
    }
    // the lower end
    if mintime.None? {
      assert first == x;
      PrefixLessEq(x, k);
    } else if 0 <= t {
      var m := mintime.value;
      if t < m {
        PackUnsignedOrder(t, m);
        PrecedesCommonPrefix(x, PackInt(t), PackInt(m));
        PrecedesNotLessEq(k, first);
      } else if m < t {
        PackUnsignedOrder(m, t);
        PrecedesCommonPrefix(x, PackInt(m), PackInt(t));
        PrecedesLess(first, k);
      }
    }
  }

  /** A key whose prefix differs from the window's prefix inside both lies
      outside the window. */
  lemma OutsideWindow(x: bytes, y: bytes, lo: bytes, hi: bytes, u: bytes)
    requires Precedes(y, x) || Precedes(x, y)
    ensures !InForward(x + lo, Below(x + hi), y + u)
  {
    if Precedes(y, x) {
      PrecedesExtend(y, x, u, lo);
      PrecedesNotLessEq(y + u, x + lo);
    } else {
      PrecedesExtend(x, y, hi, u);
      PrecedesLess(x + hi, y + u);
    }
  }

  /** The P-T window `_getRowsByProp` scans when no value is given: the items
      of rows with the prop and a time in range. */
  lemma PtWindow(c: Codec, q: string, t: int, p: string, mintime: Option<int>, maxtime: int)
    requires SelfDelimiting(c) && Packable(t)
    requires mintime.None? || 0 <= mintime.value < UINT64_LIMIT
    requires 0 <= maxtime < UINT64_LIMIT
    ensures var pp := c.packStr(p);
      InForward(pp + MinTimeEnc(mintime), Below(pp + PackInt(maxtime)), c.packStr(q) + PackInt(t))
      <==> q == p && TimeIn(t, mintime, maxtime)
  {
    if q == p {
      TimeWindow(c.packStr(p), mintime, maxtime, t);
    } else {
      PropsApart(c, q, p);
      OutsideWindow(c.packStr(p), c.packStr(q), MinTimeEnc(mintime), PackInt(maxtime), PackInt(t));
    }
  }

  /** The P-V-T window `_getRowsByProp` scans when a value is given: the
      items of rows with the prop, a value with the same key as the one
      given, and a time in range. */
  lemma PvtWindow(c: Codec, q: string, v: Value, t: int, p: string, valu: Value, mintime: Option<int>, maxtime: int)
    requires SelfDelimiting(c) && KeyEncodable(v) && KeyEncodable(valu) && Packable(t)
    requires mintime.None? || 0 <= mintime.value < UINT64_LIMIT
    requires 0 <= maxtime < UINT64_LIMIT
    ensures var x := c.packStr(p) + EncValKey(c, valu);
      InForward(x + MinTimeEnc(mintime), Below(x + PackInt(maxtime)), c.packStr(q) + EncValKey(c, v) + PackInt(t))
      <==> q == p && EncValKey(c, v) == EncValKey(c, valu) && TimeIn(t, mintime, maxtime)
  {
    var pp, qq := c.packStr(p), c.packStr(q);
    var x, y := pp + EncValKey(c, valu), qq + EncValKey(c, v);
    if q == p && EncValKey(c, v) == EncValKey(c, valu) {
      assert y == x;
      TimeWindow(x, mintime, maxtime, t);
    } else if q == p {
      ValKeysApart(c, v, valu);
      if Precedes(EncValKey(c, v), EncValKey(c, valu)) {
        PrecedesCommonPrefix(pp, EncValKey(c, v), EncValKey(c, valu));
      } else {
        PrecedesCommonPrefix(pp, EncValKey(c, valu), EncValKey(c, v));
      }
      OutsideWindow(x, y, MinTimeEnc(mintime), PackInt(maxtime), PackInt(t));
    } else {
      PropsApart(c, q, p);
      if Precedes(qq, pp) {
        PrecedesExtend(qq, pp, EncValKey(c, v), EncValKey(c, valu));
      } else {
        PrecedesExtend(pp, qq, EncValKey(c, valu), EncValKey(c, v));
      }
      OutsideWindow(x, y, MinTimeEnc(mintime), PackInt(maxtime), PackInt(t));
    }
  }
}
