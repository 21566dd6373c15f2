/** The part of the Protocol Buffers wire format that the envelope uses:
    "Base 128 Varints" (little-endian groups of seven bits, the high bit of
    each byte set on every byte but the last) and the tag layout of
    "Message Structure" (field number shifted left by three, or-ed with the
    wire type). The functions follow protowire's AppendVarint, SizeVarint,
    ConsumeVarint, EncodeTag and DecodeTag. */
module Varint {
  import opened Numeric

  /** The wire type "LEN" (length-delimited), protowire.BytesType. */
  const BytesType: nat := 2

  // ---------------------------------------------------------------------
  // Encoding
  // ---------------------------------------------------------------------

  /** The minimal varint encoding of `v` (AppendVarint onto an empty slice). */
  function Encode(v: nat): (r: seq<byte>)
    ensures 1 <= |r|
    ensures r[|r| - 1] < 128
    ensures forall i | 0 <= i < |r| - 1 :: r[i] >= 128
    decreases v
  {
    if v < 128 then [v] else [v % 128 + 128] + Encode(v / 128)
  }

  /** The number of significant bits of `v` (math/bits.Len64). */
  function BitLen(v: nat): nat
    decreases v
  {
    if v == 0 then 0 else 1 + BitLen(v / 2)
  }

  /** protowire.SizeVarint: the encoded size, computed from the bit length
      without encoding. */
  function SizeVarint(v: nat): nat
  {
    (9 * BitLen(v) + 64) / 64
  }

  /** A value below 128 has at most seven significant bits. */
  lemma BitLenBelow128(v: nat)
    requires v < 128
    ensures BitLen(v) <= 7
  {
    var a1 := v / 2;
    var a2 := a1 / 2;
    var a3 := a2 / 2;
    var a4 := a3 / 2;
    var a5 := a4 / 2;
    var a6 := a5 / 2;
    assert a6 / 2 == 0;
    assert BitLen(a6) <= 1;
    assert BitLen(a5) <= 2;
    assert BitLen(a4) <= 3;
    assert BitLen(a3) <= 4;
    assert BitLen(a2) <= 5;
    assert BitLen(a1) <= 6;
  }

  /** Seven halvings are one division by 128. */
  lemma BitLenSevenBits(v: nat)
    requires v >= 128
    ensures BitLen(v) == 7 + BitLen(v / 128)
  {
    var a1 := v / 2;
    var a2 := a1 / 2;
    var a3 := a2 / 2;
    var a4 := a3 / 2;
    var a5 := a4 / 2;
    var a6 := a5 / 2;
    assert a2 == v / 4;
    assert a3 == v / 8;
    assert a4 == v / 16;
    assert a5 == v / 32;
    assert a6 == v / 64;
    assert a6 / 2 == v / 128;
    assert a6 >= 2;
    assert BitLen(a6) == 1 + BitLen(v / 128);
    assert BitLen(a5) == 2 + BitLen(v / 128);
    assert BitLen(a4) == 3 + BitLen(v / 128);
    assert BitLen(a3) == 4 + BitLen(v / 128);
    assert BitLen(a2) == 5 + BitLen(v / 128);
    assert BitLen(a1) == 6 + BitLen(v / 128);
  }

  /** Each byte of a varint carries seven bits: `k` bytes hold between
      `7k - 6` and `7k` significant bits (at least one byte even for 0). */
  lemma {:induction false} EncodeBits(v: nat)
    ensures BitLen(v) <= 7 * |Encode(v)|
    ensures v > 0 ==> 7 * |Encode(v)| - 6 <= BitLen(v)
    decreases v
  {
    if v < 128 {
      BitLenBelow128(v);
      assert v > 0 ==> BitLen(v) == 1 + BitLen(v / 2);
    } else {
      BitLenSevenBits(v);
      EncodeBits(v / 128);
    }
  }

  /** SizeVarint's formula is the number of seven-bit groups, for every bit
      length a `uint64` can have. */
  lemma SizeOfBits(b: nat, k: nat)
    requires 1 <= k <= 10
    requires 7 * k - 6 <= b <= 7 * k
    ensures (9 * b + 64) / 64 == k
  {
    assert 64 * k <= 9 * b + 64 < 64 * (k + 1);
  }

  /** A value that needs more than one byte at group `k` leaves, after its
      low seven bits, a value that fits the groups after `k`. */
  lemma ShiftBound(v: nat, k: nat)
    requires k <= 9
    requires 128 <= v < 2 * Pow128(9 - k)
    ensures k < 9
    ensures v / 128 < 2 * Pow128(9 - (k + 1))
  {
    assert k < 9;
    assert Pow128(9 - k) == 128 * Pow128(9 - (k + 1));
  }

  /** The precomputed size agrees with the bytes AppendVarint writes, for
      every `uint64`. */
  lemma EncodeSize(v: nat)
    requires v < 2 * Pow128(9)
    ensures |Encode(v)| == SizeVarint(v)
  {
    EncodeAtMostTen(v, 0);
    EncodeBits(v);
    if v > 0 {
      SizeOfBits(BitLen(v), |Encode(v)|);
    }
  }

  /** A `uint64` never needs more than ten bytes. */
  lemma {:induction false} EncodeAtMostTen(v: nat, k: nat)
    requires k <= 9
    requires v < 2 * Pow128(9 - k)
    ensures |Encode(v)| <= 10 - k
    decreases v
  {
    if v >= 128 {
      ShiftBound(v, k);
      EncodeAtMostTen(v / 128, k + 1);
    }
  }

  // ---------------------------------------------------------------------
  // Decoding
  // ---------------------------------------------------------------------

  /** The three outcomes of protowire.ConsumeVarint: a value and the number of
      bytes it took, a buffer that ends inside the varint, or an eleventh
      significant byte / a tenth byte above 1. */
  datatype Parsed = Ok(value: nat, len: nat) | Truncated | Overflow

  /** ConsumeVarint from the `k`-th byte of a varint on (k = 0 at its start):
      each byte contributes its low seven bits at weight 128^k, the first byte
      below 128 ends it, and the tenth byte (k = 9) may only be 0 or 1. */
  function ConsumeFrom(b: seq<byte>, k: nat): (r: Parsed)
    requires k <= 9
    ensures r.Ok? ==> 1 <= r.len <= |b| && r.len <= 10 - k
    ensures r.Ok? ==> r.value < 2 * Pow128(9 - k)
    decreases 9 - k
  {
    if |b| == 0 then Truncated
    else if k == 9 then (if b[0] < 2 then Ok(b[0], 1) else Overflow)
    else if b[0] < 128 then Ok(b[0], 1)
    else
      match ConsumeFrom(b[1..], k + 1)
      case Ok(v, n) => Ok(b[0] - 128 + 128 * v, n + 1)
      case Truncated => Truncated
      case Overflow => Overflow
  }

  /** protowire.ConsumeVarint: parse one varint at the start of `b`. */
  function Consume(b: seq<byte>): (r: Parsed)
    ensures r.Ok? ==> 1 <= r.len <= |b| && r.len <= 10
    ensures r.Ok? ==> r.value < 0x1_0000_0000_0000_0000
  {
    Pow128Nine();
    ConsumeFrom(b, 0)
  }

  /** Round trip: a varint written for a value that fits the remaining groups
      parses back to that value and consumes exactly its own bytes, whatever
      follows it. */
  lemma {:induction false} ConsumeFromEncode(v: nat, k: nat, rest: seq<byte>)
    requires k <= 9
    requires v < 2 * Pow128(9 - k)
    ensures ConsumeFrom(Encode(v) + rest, k) == Ok(v, |Encode(v)|)
    decreases v
  {
    var b := Encode(v) + rest;
    if v >= 128 {
      ShiftBound(v, k);
      assert b[0] == v % 128 + 128;
      assert b[1..] == Encode(v / 128) + rest;
      ConsumeFromEncode(v / 128, k + 1, rest);
      assert v % 128 + 128 * (v / 128) == v;
    } else {
      assert b[0] == v;
    }
  }

  /** Round trip for every `uint64`. */
  lemma ConsumeEncode(v: uint64, rest: seq<byte>)
    ensures Consume(Encode(v) + rest) == Ok(v, |Encode(v)|)
    ensures |Encode(v)| == SizeVarint(v) <= 10
  {
    Pow128Nine();
    ConsumeFromEncode(v, 0, rest);
    EncodeSize(v);
    EncodeAtMostTen(v, 0);
  }

  /** A first byte below 128 is a whole varint on its own. */
  lemma ConsumeOneByte(b: seq<byte>)
    requires |b| > 0 && b[0] < 128
    ensures Consume(b) == Ok(b[0], 1)
  {
  }

  /** A parse that did not run out of input is decided by the bytes it saw:
      appending more input changes neither a value nor an overflow. */
  lemma {:induction false} ConsumeFromExtend(b: seq<byte>, k: nat, more: seq<byte>)
    requires k <= 9
    requires !ConsumeFrom(b, k).Truncated?
    ensures ConsumeFrom(b + more, k) == ConsumeFrom(b, k)
    decreases 9 - k
  {
    if k < 9 && b[0] >= 128 {
      assert (b + more)[1..] == b[1..] + more;
      ConsumeFromExtend(b[1..], k + 1, more);
    }
  }

  /** Appending input never changes a completed or overflowing parse. */
  lemma ConsumeExtend(b: seq<byte>, more: seq<byte>)
    requires !Consume(b).Truncated?
    ensures Consume(b + more) == Consume(b)
  {
    ConsumeFromExtend(b, 0, more);
  }

  /** A parse runs out of input exactly when every byte seen so far carries the
      continuation bit and fewer than the allowed number of bytes are there. */
  lemma {:induction false} ConsumeFromTruncated(b: seq<byte>, k: nat)
    requires k <= 9
    ensures ConsumeFrom(b, k).Truncated? <==>
              |b| <= 9 - k && forall i | 0 <= i < |b| :: b[i] >= 128
    decreases 9 - k
  {
    if |b| > 0 && k < 9 && b[0] >= 128 {
      ConsumeFromTruncated(b[1..], k + 1);
      assert forall i | 1 <= i < |b| :: b[i] == b[1..][i - 1];
    }
  }

  /** "Truncated" really means "needs more input": one more terminating byte
      always completes the varint. */
  lemma {:induction false} ConsumeFromTruncatedCompletes(b: seq<byte>, k: nat)
    requires k <= 9
    requires ConsumeFrom(b, k).Truncated?
    ensures ConsumeFrom(b + [0], k).Ok?
    ensures ConsumeFrom(b + [0], k).len == |b| + 1
    decreases 9 - k
  {
    if |b| > 0 {
      assert k < 9 && b[0] >= 128;
      assert ConsumeFrom(b[1..], k + 1).Truncated?;
      assert (b + [0])[0] == b[0];
      assert (b + [0])[1..] == b[1..] + [0];
      ConsumeFromTruncatedCompletes(b[1..], k + 1);
    } else {
      assert b + [0] == [0];
    }
  }

  /** Every proper prefix of a minimal varint of a `uint64` is truncated. */
  lemma EncodePrefixTruncated(v: uint64, n: nat)
    requires n < |Encode(v)|
    ensures Consume(Encode(v)[..n]).Truncated?
  {
    EncodeAtMostTen(v, 0) by { Pow128Nine(); }
    var p := Encode(v)[..n];
    assert forall i | 0 <= i < |p| :: p[i] >= 128;
    ConsumeFromTruncated(p, 0);
  }

  // ---------------------------------------------------------------------
  // Tags
  // ---------------------------------------------------------------------

  /** protowire.EncodeTag: `num << 3 | typ`. */
  function EncodeTag(num: nat, typ: nat): nat
    requires typ < 8
  {
    num * 8 + typ
  }

  /** protowire.DecodeTag: field number and wire type of a tag; a field number
      beyond MaxInt32 decodes as (-1, 0). */
  function DecodeTag(x: uint64): (int, int)
  {
    if x / 8 > MaxInt32 then (-1, 0) else (x / 8, x % 8)
  }

  /** Decoding inverts encoding for every representable field number. */
  lemma DecodeEncodeTag(num: nat, typ: nat)
    requires num <= MaxInt32 && typ < 8
    ensures DecodeTag(EncodeTag(num, typ)) == (num, typ)
  {
    var x := num * 8 + typ;
    assert x < 0x1_0000_0000_0000_0000;
    assert x / 8 == num && x % 8 == typ;
  }

  /** Exactly one tag value names field 0 with the LEN wire type. */
  lemma EnvelopeTagUnique(x: uint64)
    ensures DecodeTag(x) == (0, BytesType) <==> x == EncodeTag(0, BytesType)
  {
  }
}
