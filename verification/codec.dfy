/** The encodings the LMDB row store (synapse/cores/lmdb.py) uses for keys:
    value keys ordered like the values they encode, idens as raw bytes,
    primary keys as native machine words and, on the value side of every
    index, primary keys as MessagePack integers. */
module LmdbCodec {
  import opened Wrappers
  import opened Bytes
  import opened MsgPack

  /** Largest primary key: `sys.maxsize` on the 64-bit host the model assumes. */
  const MAX_PK: int := 0x7fff_ffff_ffff_ffff
  /** Bytes in a native `size_t`. */
  const MAX_PK_BYTES: nat := 8

  const NEGATIVE_VAL_MARKER: int := -1
  const STRING_VAL_MARKER: int := -2
  const HASH_VAL_MARKER: int := -3

  /** Bytes in a binary iden. */
  const UUID_SIZE: nat := 16
  /** Strings this long or longer are keyed by their hash. */
  const LARGE_STRING_SIZE: nat := 128
  const MAX_PROP_LEN: nat := 350

  const MAX_INT_VAL: int := 0x7fff_ffff_ffff_ffff
  const MIN_INT_VAL: int := -0x8000_0000_0000_0000

  type uint64 = x: int | 0 <= x < 0x1_0000_0000_0000_0000

  /** The one-byte MessagePack packings of the three markers: negative
      fixints, so each is the single byte 0x100 + marker. */
  function MarkerEnc(marker: int): (b: bytes)
    requires marker in {NEGATIVE_VAL_MARKER, STRING_VAL_MARKER, HASH_VAL_MARKER}
    ensures b == [0x100 + marker]
  {
    PackInt(marker)
  }

  /** A property value: the store keeps integers and strings. */
  datatype Value = IntVal(i: int) | StrVal(s: string)

  /** The two serialisers the store calls that this model does not spell
      out: MessagePack's packing of a string and the 64-bit xxHash digest. */
  datatype Codec = Codec(packStr: string -> bytes, xxh64: string -> uint64)

  /** A string packing from which two different strings can always be told
      apart inside both encodings (MessagePack strings carry their length up
      front, so this holds of the real packer). */
  ghost predicate SelfDelimiting(c: Codec)
  {
    forall a: string, b: string {:trigger c.packStr(a), c.packStr(b)} ::
      a != b ==> Precedes(c.packStr(a), c.packStr(b)) || Precedes(c.packStr(b), c.packStr(a))
  }

  /** Values `_enc_val_key` can encode without the packer overflowing. */
  predicate KeyEncodable(v: Value)
  {
    v.IntVal? ==> -UINT64_LIMIT < v.i < UINT64_LIMIT
  }

  /** Values `_enc_val_val` can pack (it packs the value itself). */
  predicate ValuePackable(v: Value)
  {
    v.IntVal? ==> Packable(v.i)
  }

  /** `_enc_val_key`: the index key of a value. The first byte alone tells
      which of the four kinds of value a key belongs to. */
  function EncValKey(c: Codec, v: Value): (k: bytes)
    requires KeyEncodable(v)
    ensures |k| >= 1
    ensures (v.IntVal? && v.i >= 0) <==> k[0] <= 0xcf
    ensures (v.IntVal? && v.i < 0) <==> k[0] == 0xff
    ensures (v.StrVal? && |v.s| < LARGE_STRING_SIZE) <==> k[0] == 0xfe
    ensures (v.StrVal? && |v.s| >= LARGE_STRING_SIZE) <==> k[0] == 0xfd
  {
    match v
    case IntVal(n) =>
      if n >= 0 then
        PackUnsignedFirstByte(n);
        PackInt(n)
      else
        MarkerEnc(NEGATIVE_VAL_MARKER) + PackInt(-n)
    case StrVal(s) =>
      if |s| >= LARGE_STRING_SIZE then MarkerEnc(HASH_VAL_MARKER) + PackInt(c.xxh64(s))
      else MarkerEnc(STRING_VAL_MARKER) + c.packStr(s)
  }

  /** Non-negative integers are keyed by their plain packing, so their keys
      are in integer order. */
  lemma ValKeyOrderNonNegative(c: Codec, a: int, b: int)
    requires 0 <= a < b < UINT64_LIMIT
    ensures Precedes(EncValKey(c, IntVal(a)), EncValKey(c, IntVal(b)))
  {
    PackUnsignedOrder(a, b);
  }

  /** Negative integers are keyed by the marker and their magnitude, so their
      keys are in REVERSE integer order. */
  lemma ValKeyOrderNegative(c: Codec, a: int, b: int)
    requires -UINT64_LIMIT < a < b < 0
    ensures Precedes(EncValKey(c, IntVal(b)), EncValKey(c, IntVal(a)))
  {
    NegativeKeyShape(c, a);
    NegativeKeyShape(c, b);
    PackUnsignedOrder(-b, -a);
    PrecedesCommonPrefix([0xff], PackInt(-b), PackInt(-a));
  }

  /** A negative integer is keyed by the negative marker and the packing of
      its magnitude. */
  lemma NegativeKeyShape(c: Codec, n: int)
    requires -UINT64_LIMIT < n < 0
    ensures EncValKey(c, IntVal(n)) == [0xff] + PackInt(-n)
  {
  }

  /** Every non-negative key sorts below every marker-prefixed key, and among
      the markers hash keys sort below string keys, which sort below negative
      keys. */
  lemma ValKeyKindOrder(c: Codec, v: Value, w: Value)
    requires KeyEncodable(v) && KeyEncodable(w)
    requires KindRank(v) < KindRank(w)
    ensures Precedes(EncValKey(c, v), EncValKey(c, w))
  {
  }

  /** The position of a value's kind in key order. */
  function KindRank(v: Value): nat
  {
    match v
    case IntVal(n) => if n >= 0 then 0 else 3
    case StrVal(s) => if |s| >= LARGE_STRING_SIZE then 1 else 2
  }

  /** Short strings are keyed by the string marker and their packing; long
      ones by the hash marker and the packed digest. */
  lemma StringKeyShape(c: Codec, s: string)
    ensures |s| < LARGE_STRING_SIZE ==> EncValKey(c, StrVal(s)) == [0xfe] + c.packStr(s)
    ensures |s| >= LARGE_STRING_SIZE ==> EncValKey(c, StrVal(s)) == [0xfd] + PackInt(c.xxh64(s))
    ensures EncValKey(c, StrVal(s))[0] != 0xff
  {
  }

  // ---------------------------------------------------------------- idens

  predicate IsHexDigit(ch: char)
  {
    '0' <= ch <= '9' || 'a' <= ch <= 'f' || 'A' <= ch <= 'F'
  }

  predicate IsLowerHex(s: string)
  {
    forall i :: 0 <= i < |s| ==> '0' <= s[i] <= '9' || 'a' <= s[i] <= 'f'
  }

  function HexValue(ch: char): (d: nat)
    requires IsHexDigit(ch)
    ensures d < 16
  {
    if '0' <= ch <= '9' then ch as int - '0' as int
    else if 'a' <= ch <= 'f' then ch as int - 'a' as int + 10
    else ch as int - 'A' as int + 10
  }

  const HEX_DIGITS: string := "0123456789abcdef"

  /** `_enc_iden`, i.e. `unhexlify`: pairs of hex digits (either case) to
      bytes; an odd length or a non-hex character raises. */
  function EncIden(s: string): (r: Option<bytes>)
    ensures r.Some? ==> 2 * |r.value| == |s|
    decreases |s|
  {
    if |s| == 0 then Some([])
    else if |s| == 1 || !IsHexDigit(s[0]) || !IsHexDigit(s[1]) then None
    else
      var rest := EncIden(s[2..]);
      if rest.None? then None
      else Some([HexByteOf(s[0], s[1])] + rest.value)
  }

  function HexByteOf(hi: char, lo: char): uint8
    requires IsHexDigit(hi) && IsHexDigit(lo)
  {
    16 * HexValue(hi) + HexValue(lo)
  }

  /** `unhexlify` succeeds exactly on even-length strings of hex digits. */
  lemma {:induction false} EncIdenDefined(s: string)
    ensures EncIden(s).Some? <==> |s| % 2 == 0 && forall i :: 0 <= i < |s| ==> IsHexDigit(s[i])
    decreases |s|
  {
    if |s| >= 2 {
      EncIdenDefined(s[2..]);
      assert forall i :: 2 <= i < |s| ==> s[i] == s[2..][i - 2];
    }
  }

  /** `_dec_iden`, i.e. `hexlify(...).decode()`: lowercase hex, two digits a byte. */
  function DecIden(b: bytes): (s: string)
    ensures |s| == 2 * |b|
  {
    if |b| == 0 then ""
    else [HEX_DIGITS[b[0] / 16], HEX_DIGITS[b[0] % 16]] + DecIden(b[1..])
  }

  lemma HexDigitRoundTrip(ch: char)
    requires '0' <= ch <= '9' || 'a' <= ch <= 'f'
    ensures HEX_DIGITS[HexValue(ch)] == ch
  {
  }

  lemma HexByte(hi: nat, lo: nat)
    requires hi < 16 && lo < 16
    ensures (16 * hi + lo) / 16 == hi && (16 * hi + lo) % 16 == lo
  {
  }

  lemma EncIdenStep(s: string)
    requires |s| >= 2 && IsHexDigit(s[0]) && IsHexDigit(s[1]) && EncIden(s[2..]).Some?
    ensures EncIden(s) == Some([HexByteOf(s[0], s[1])] + EncIden(s[2..]).value)
  {
  }

  lemma DecIdenStep(b: bytes)
    requires |b| >= 1
    ensures DecIden(b) == [HEX_DIGITS[b[0] / 16], HEX_DIGITS[b[0] % 16]] + DecIden(b[1..])
  {
  }

  /** Decoding a lowercase hex iden's bytes gives the iden back; a
      32-character iden takes exactly the 16 bytes a row keeps for it. */
  lemma {:induction false} IdenRoundTrip(s: string)
    requires |s| % 2 == 0 && IsLowerHex(s)
    ensures EncIden(s).Some?
    ensures DecIden(EncIden(s).value) == s
    ensures |s| == 2 * UUID_SIZE ==> |EncIden(s).value| == UUID_SIZE
    decreases |s|
  {
    if |s| > 0 {
      var t := s[2..];
      assert IsLowerHex(t) by {
        forall i | 0 <= i < |t| ensures '0' <= t[i] <= '9' || 'a' <= t[i] <= 'f' {
          assert t[i] == s[i + 2];
        }
      }
      IdenRoundTrip(t);
      IdenRoundTripStep(s);
    }
  }

  lemma IdenRoundTripStep(s: string)
    requires |s| >= 2 && ('0' <= s[0] <= '9' || 'a' <= s[0] <= 'f') && ('0' <= s[1] <= '9' || 'a' <= s[1] <= 'f')
    requires EncIden(s[2..]).Some? && DecIden(EncIden(s[2..]).value) == s[2..]
    ensures EncIden(s).Some? && DecIden(EncIden(s).value) == s
  {
    var r := EncIden(s[2..]).value;
    EncIdenStep(s);
    DecHexByte(s[0], s[1], r);
    SplitTwo(s);
    calc {
      DecIden(EncIden(s).value);
      DecIden([HexByteOf(s[0], s[1])] + r);
      [s[0], s[1]] + DecIden(r);
      [s[0], s[1]] + s[2..];
      s;
    }
  }

  lemma SplitTwo<T>(s: seq<T>)
    requires |s| >= 2
    ensures s == [s[0], s[1]] + s[2..]
  {
  }

  lemma DecHexByte(h: char, l: char, rest: bytes)
    requires '0' <= h <= '9' || 'a' <= h <= 'f'
    requires '0' <= l <= '9' || 'a' <= l <= 'f'
    ensures DecIden([HexByteOf(h, l)] + rest) == [h, l] + DecIden(rest)
  {
    var x := HexByteOf(h, l);
    HexByte(HexValue(h), HexValue(l));
    HexDigitRoundTrip(h);
    HexDigitRoundTrip(l);
    var b := [x] + rest;
    DecIdenStep(b);
    assert b[1..] == rest;
  }

  /** Hex digits produced by `hexlify` read back as the values they encode. */
  lemma HexDigitsValue(d: nat)
    requires d < 16
    ensures IsHexDigit(HEX_DIGITS[d]) && HexValue(HEX_DIGITS[d]) == d
  {
  }

  /** Any bytes survive a trip through their hex iden. */
  lemma {:induction false} IdenBytesRoundTrip(b: bytes)
    ensures EncIden(DecIden(b)) == Some(b)
    decreases |b|
  {
    if |b| > 0 {
      IdenBytesRoundTrip(b[1..]);
      var hi, lo := b[0] / 16, b[0] % 16;
      HexDigitsValue(hi);
      HexDigitsValue(lo);
      DecIdenStep(b);
      var s := DecIden(b);
      assert s[0] == HEX_DIGITS[hi] && s[1] == HEX_DIGITS[lo];
      assert s[2..] == DecIden(b[1..]);
      EncIdenStep(s);
      assert HexByteOf(s[0], s[1]) == b[0];
      assert b == [b[0]] + b[1..];
    }
  }

  /** `hexlify` output is lowercase hex. */
  lemma {:induction false} DecIdenLowerHex(b: bytes)
    ensures IsLowerHex(DecIden(b))
    decreases |b|
  {
    if |b| > 0 {
      DecIdenLowerHex(b[1..]);
      DecIdenStep(b);
      var s, r := DecIden(b), DecIden(b[1..]);
      forall i | 0 <= i < |s| ensures '0' <= s[i] <= '9' || 'a' <= s[i] <= 'f' {
        if i >= 2 {
          assert s[i] == r[i - 2];
        }
      }
    }
  }

  // --------------------------------------------------------- primary keys

  function LittleEndian(x: nat, width: nat): (b: bytes)
    requires x < Pow256(width)
    ensures |b| == width
    decreases width
  {
    if width == 0 then []
    else
      DivBound(x, width);
      [x % 0x100] + LittleEndian(x / 0x100, width - 1)
  }

  function FromLittleEndian(b: bytes): (x: nat)
    ensures x < Pow256(|b|)
  {
    if |b| == 0 then 0 else b[0] + 0x100 * FromLittleEndian(b[1..])
  }

  /** `_enc_pk_key`: the primary key as a native unsigned `size_t`
      (`struct.pack('@Q', pk)`), which rejects negative and too-large keys. */
  function EncPkKey(pk: uint64): (k: bytes)
    ensures |k| == MAX_PK_BYTES
  {
    Pow256Values();
    LittleEndian(pk, MAX_PK_BYTES)
  }

  /** `_dec_pk_key`: unpacking needs exactly one `size_t` worth of bytes. */
  function DecPkKey(k: bytes): (pk: uint64)
    requires |k| == MAX_PK_BYTES
  {
    Pow256Values();
    FromLittleEndian(k)
  }

  lemma {:induction false} LittleEndianRoundTrip(x: nat, width: nat)
    requires x < Pow256(width)
    ensures FromLittleEndian(LittleEndian(x, width)) == x
    decreases width
  {
    if width > 0 {
      DivBound(x, width);
      LittleEndianRoundTrip(x / 0x100, width - 1);
    }
  }

  lemma {:induction false} LittleEndianOfFrom(b: bytes)
    ensures LittleEndian(FromLittleEndian(b), |b|) == b
    decreases |b|
  {
    if |b| > 0 {
      LittleEndianOfFrom(b[1..]);
    }
  }

  /** Primary keys survive their machine-word encoding in both directions,
      so keying the rows table by the integer is the same as keying it by
      the encoding. */
  lemma PkKeyRoundTrip(pk: uint64, k: bytes)
    requires |k| == MAX_PK_BYTES
    ensures DecPkKey(EncPkKey(pk)) == pk
    ensures EncPkKey(DecPkKey(k)) == k
  {
    Pow256Values();
    LittleEndianRoundTrip(pk, MAX_PK_BYTES);
    LittleEndianOfFrom(k);
  }
}
