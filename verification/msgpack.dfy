/** The integer formats of MessagePack, written out byte by byte.

    The row store packs every integer it keys on (timestamps, primary keys,
    integer property values and the value markers) with the MessagePack
    packer, which always picks the shortest format: positive fixint
    0x00-0x7f, negative fixint 0xe0-0xff, and otherwise a type byte
    (0xcc-0xcf unsigned, 0xd0-0xd3 signed) followed by a big-endian body of
    1, 2, 4 or 8 bytes. Integers outside [-2^63, 2^64) raise OverflowError. */
module MsgPack {
  import opened Wrappers
  import opened Bytes

  const INT64_MIN: int := -0x8000_0000_0000_0000
  const UINT64_LIMIT: int := 0x1_0000_0000_0000_0000

  function Pow256(w: nat): (r: nat)
    ensures r >= 1
  {
    if w == 0 then 1 else 0x100 * Pow256(w - 1)
  }

  lemma DivBound(x: nat, w: nat)
    requires w > 0 && x < Pow256(w)
    ensures x / 0x100 < Pow256(w - 1)
  {
  }

  /** Fixed-width big-endian unsigned integer: the body of every multi-byte
      MessagePack integer. */
  function BigEndian(x: nat, width: nat): (b: bytes)
    requires x < Pow256(width)
    ensures |b| == width
    decreases width
  {
    if width == 0 then []
    else
      DivBound(x, width);
      BigEndian(x / 0x100, width - 1) + [x % 0x100]
  }

  function FromBigEndian(b: bytes): nat
  {
    if |b| == 0 then 0 else FromBigEndian(b[..|b| - 1]) * 0x100 + b[|b| - 1]
  }

  lemma {:induction false} BigEndianRoundTrip(x: nat, width: nat)
    requires x < Pow256(width)
    ensures FromBigEndian(BigEndian(x, width)) == x
    decreases width
  {
    if width > 0 {
      DivBound(x, width);
      var b := BigEndian(x, width);
      assert b[..width - 1] == BigEndian(x / 0x100, width - 1);
      BigEndianRoundTrip(x / 0x100, width - 1);
    }
  }

  /** Big-endian order is numeric order: the smaller number's bytes precede. */
  lemma {:induction false} BigEndianOrder(a: nat, b: nat, width: nat)
    requires a < b < Pow256(width)
    ensures Precedes(BigEndian(a, width), BigEndian(b, width))
    decreases width
  {
    DivBound(a, width);
    DivBound(b, width);
    var ha, hb := BigEndian(a / 0x100, width - 1), BigEndian(b / 0x100, width - 1);
    if a / 0x100 == b / 0x100 {
      assert a % 0x100 < b % 0x100;
      assert Precedes([a % 0x100], [b % 0x100]);
      PrecedesCommonPrefix(ha, [a % 0x100], [b % 0x100]);
    } else {
      BigEndianOrder(a / 0x100, b / 0x100, width - 1);
      PrecedesExtend(ha, hb, [a % 0x100], [b % 0x100]);
    }
  }

  /** The integers the packer accepts. */
  predicate Packable(n: int)
  {
    INT64_MIN <= n < UINT64_LIMIT
  }

  /** `msgpack.packb(n)` for an integer `n`. */
  function PackInt(n: int): (b: bytes)
    requires Packable(n)
  {
    if 0 <= n < 0x80 then [n]
    else if -0x20 <= n < 0 then [0x100 + n]
    else if -0x80 <= n < 0 then [0xd0] + BigEndian(n + 0x100, 1)
    else if 0 <= n <= 0xff then [0xcc] + BigEndian(n, 1)
    else if -0x8000 <= n < 0 then [0xd1] + BigEndian(n + 0x1_0000, 2)
    else if 0 <= n <= 0xffff then [0xcd] + BigEndian(n, 2)
    else if -0x8000_0000 <= n < 0 then [0xd2] + BigEndian(n + 0x1_0000_0000, 4)
    else if 0 <= n <= 0xffff_ffff then [0xce] + BigEndian(n, 4)
    else if n < 0 then [0xd3] + BigEndian(n + UINT64_LIMIT, 8)
    else [0xcf] + BigEndian(n, 8)
  }

  /** Two's-complement reading of a `width`-byte body. */
  function Signed(x: nat, width: nat): int
  {
    if 2 * x >= Pow256(width) then x - Pow256(width) else x
  }

  /** `msgpack.unpackb(b)` restricted to integers: the whole of `b` must be
      one integer in any of the integer formats (shortest or not); anything
      else is not an integer encoding. */
  function UnpackInt(b: bytes): Option<int>
  {
    if |b| == 0 then None
    else
      var t: int, body := b[0], b[1..];
      if t < 0x80 && |body| == 0 then Some(t)
      else if t >= 0xe0 && |body| == 0 then Some(t - 0x100)
      else if t == 0xcc && |body| == 1 then Some(FromBigEndian(body))
      else if t == 0xcd && |body| == 2 then Some(FromBigEndian(body))
      else if t == 0xce && |body| == 4 then Some(FromBigEndian(body))
      else if t == 0xcf && |body| == 8 then Some(FromBigEndian(body))
      else if t == 0xd0 && |body| == 1 then Some(Signed(FromBigEndian(body), 1))
      else if t == 0xd1 && |body| == 2 then Some(Signed(FromBigEndian(body), 2))
      else if t == 0xd2 && |body| == 4 then Some(Signed(FromBigEndian(body), 4))
      else if t == 0xd3 && |body| == 8 then Some(Signed(FromBigEndian(body), 8))
      else None
  }

  lemma Pow256Values()
    ensures Pow256(1) == 0x100 && Pow256(2) == 0x1_0000
    ensures Pow256(4) == 0x1_0000_0000 && Pow256(8) == UINT64_LIMIT
  {
    assert Pow256(3) == 0x100_0000;
    assert Pow256(4) == 0x1_0000_0000;
    assert Pow256(6) == 0x1_0000_0000_0000;
    assert Pow256(8) == UINT64_LIMIT;
  }

  /** A type byte followed by a big-endian body reads back as the body's value. */
  lemma UnpackTagged(tag: uint8, x: nat, w: nat)
    requires (tag == 0xcc && w == 1) || (tag == 0xcd && w == 2)
          || (tag == 0xce && w == 4) || (tag == 0xcf && w == 8)
          || (tag == 0xd0 && w == 1) || (tag == 0xd1 && w == 2)
          || (tag == 0xd2 && w == 4) || (tag == 0xd3 && w == 8)
    requires x < Pow256(w)
    ensures UnpackInt([tag] + BigEndian(x, w)) == Some(if tag < 0xd0 then x else Signed(x, w))
  {
    var b := [tag] + BigEndian(x, w);
    assert b[0] == tag && b[1..] == BigEndian(x, w);
    BigEndianRoundTrip(x, w);
  }

  /** Unpacking a packed integer gives the integer back. */
  lemma PackRoundTrip(n: int)
    requires Packable(n)
    ensures UnpackInt(PackInt(n)) == Some(n)
  {
    if n >= 0 {
      PackRoundTripUnsigned(n);
    } else {
      PackRoundTripSigned(n);
    }
  }

  lemma PackRoundTripUnsigned(n: nat)
    requires n < UINT64_LIMIT
    ensures UnpackInt(PackInt(n)) == Some(n)
  {
    Pow256Values();
    if n < 0x80 {
    } else if n <= 0xff {
      UnpackTagged(0xcc, n, 1);
    } else if n <= 0xffff {
      UnpackTagged(0xcd, n, 2);
    } else if n <= 0xffff_ffff {
      UnpackTagged(0xce, n, 4);
    } else {
      UnpackTagged(0xcf, n, 8);
    }
  }

  lemma PackRoundTripSigned(n: int)
    requires INT64_MIN <= n < 0
    ensures UnpackInt(PackInt(n)) == Some(n)
  {
    if -0x20 <= n {
    } else if -0x80 <= n {
      PackSignedShape(n, 0xd0, 1);
    } else if -0x8000 <= n {
      PackSignedShape(n, 0xd1, 2);
    } else if -0x8000_0000 <= n {
      PackSignedShape(n, 0xd2, 4);
    } else {
      PackSignedShape(n, 0xd3, 8);
    }
  }

  /** A negative integer below the negative fixints is packed as the signed
      type byte of the smallest width that holds it, followed by its two's
      complement body, and reads back as itself. */
  lemma PackSignedShape(n: int, tag: uint8, w: nat)
    requires (tag == 0xd0 && w == 1 && -0x80 <= n < -0x20)
          || (tag == 0xd1 && w == 2 && -0x8000 <= n < -0x80)
          || (tag == 0xd2 && w == 4 && -0x8000_0000 <= n < -0x8000)
          || (tag == 0xd3 && w == 8 && INT64_MIN <= n < -0x8000_0000)
    ensures n + Pow256(w) >= 0 && PackInt(n) == [tag] + BigEndian(n + Pow256(w), w)
    ensures UnpackInt(PackInt(n)) == Some(n)
  {
    Pow256Values();
    if w == 1 {
      assert PackInt(n) == [0xd0] + BigEndian(n + 0x100, 1);
    } else if w == 2 {
      assert PackInt(n) == [0xd1] + BigEndian(n + 0x1_0000, 2);
    } else if w == 4 {
      assert PackInt(n) == [0xd2] + BigEndian(n + 0x1_0000_0000, 4);
    } else {
      assert PackInt(n) == [0xd3] + BigEndian(n + UINT64_LIMIT, 8);
    }
    UnpackSigned(tag, n, w);
  }

  /** The two's-complement body of a negative `n` reads back as `n`. */
  lemma UnpackSigned(tag: uint8, n: int, w: nat)
    requires (tag == 0xd0 && w == 1) || (tag == 0xd1 && w == 2)
          || (tag == 0xd2 && w == 4) || (tag == 0xd3 && w == 8)
    requires 2 * n + Pow256(w) >= 0 && n < 0
    ensures n + Pow256(w) >= 0
    ensures UnpackInt([tag] + BigEndian(n + Pow256(w), w)) == Some(n)
  {
    UnpackTagged(tag, n + Pow256(w), w);
  }

  /** Type byte of the format the packer picks for a non-negative integer
      (the value itself for a positive fixint). */
  function UnsignedTag(n: nat): uint8
    requires n < UINT64_LIMIT
  {
    if n < 0x80 then n
    else if n <= 0xff then 0xcc
    else if n <= 0xffff then 0xcd
    else if n <= 0xffff_ffff then 0xce
    else 0xcf
  }

  /** Non-negative integers are packed as their type byte followed by a
      big-endian body (empty for a fixint). */
  lemma PackUnsignedShape(n: nat)
    requires n < UINT64_LIMIT
    ensures PackInt(n)[0] == UnsignedTag(n)
    ensures n >= 0x80 ==> PackInt(n)[1..] == BigEndian(n, |PackInt(n)| - 1)
    ensures n < 0x80 ==> |PackInt(n)| == 1
  {
    Pow256Values();
  }

  /** Every non-negative integer's packing starts with a byte at most 0xcf,
      below the negative fixints 0xe0-0xff used as value markers. */
  lemma PackUnsignedFirstByte(n: nat)
    requires n < UINT64_LIMIT
    ensures |PackInt(n)| >= 1 && PackInt(n)[0] <= 0xcf
  {
    PackUnsignedShape(n);
  }

  /** Packing is order-preserving on the non-negative integers, and the two
      packings already differ inside both of them, so the order survives
      whatever follows in a composite key. */
  lemma PackUnsignedOrder(a: nat, b: nat)
    requires a < b < UINT64_LIMIT
    ensures Precedes(PackInt(a), PackInt(b))
  {
    Pow256Values();
    PackUnsignedShape(a);
    PackUnsignedShape(b);
    var pa, pb := PackInt(a), PackInt(b);
    if UnsignedTag(a) == UnsignedTag(b) {
      assert a >= 0x80;
      var w := |pa| - 1;
      assert |pb| - 1 == w;
      assert b < Pow256(w);
      BigEndianOrder(a, b, w);
      assert pa == [pa[0]] + pa[1..] && pb == [pb[0]] + pb[1..];
      PrecedesCommonPrefix([pa[0]], pa[1..], pb[1..]);
    } else {
      assert UnsignedTag(a) < UnsignedTag(b);
    }
  }
}
