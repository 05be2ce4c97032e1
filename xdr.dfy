/** The external data representation every decoder reads through
    (RFC 4506): big-endian unsigned and signed integers, opaque data padded
    to a multiple of four bytes (section 4.10) and counted arrays of
    unsigned integers.  Each read is a pure function of the frame's bytes
    and a read position; it either yields a value and the position after
    it, or fails and leaves the position where it was. */
module Xdr {
  import opened Base

  const TWO32: nat := 0x1_0000_0000

  function Pow256(k: nat): (r: nat)
    ensures r >= 1
  {
    if k == 0 then 1 else 256 * Pow256(k - 1)
  }

  /** The unsigned integer that `s` spells in network byte order. */
  function BigEndian(s: seq<byte>): (r: nat)
    ensures r < Pow256(|s|)
  {
    if s == [] then 0 else BigEndian(s[..|s| - 1]) * 256 + s[|s| - 1]
  }

  /** The `k` low-order bytes of `n`, most significant first. */
  function ToBigEndian(n: nat, k: nat): (r: seq<byte>)
    ensures |r| == k
  {
    if k == 0 then [] else ToBigEndian(n / 256, k - 1) + [n % 256]
  }

  lemma {:induction false} BigEndianOfToBigEndian(n: nat, k: nat)
    requires n < Pow256(k)
    ensures BigEndian(ToBigEndian(n, k)) == n
  {
    if k > 0 {
      var q, r := n / 256, n % 256;
      assert n == 256 * q + r;
      assert q < Pow256(k - 1);
      var s, p := ToBigEndian(n, k), ToBigEndian(q, k - 1);
      assert s == p + [r];
      assert s[..k - 1] == p && s[k - 1] == r;
      BigEndianOfToBigEndian(q, k - 1);
      assert BigEndian(s) == BigEndian(p) * 256 + r;
    }
  }

  lemma {:induction false} ToBigEndianOfBigEndian(s: seq<byte>)
    ensures ToBigEndian(BigEndian(s), |s|) == s
  {
    if s != [] {
      var p := s[..|s| - 1];
      ToBigEndianOfBigEndian(p);
      assert BigEndian(s) / 256 == BigEndian(p);
      assert s == p + [s[|s| - 1]];
    }
  }

  /** Sixteen bytes (an IPv6 address) hold exactly 128 bits. */
  lemma Pow256Sixteen()
    ensures Pow256(16) == 0x1_0000_0000_0000_0000_0000_0000_0000_0000
  {
    assert Pow256(1) == 0x100;
    assert Pow256(2) == 0x10000;
    assert Pow256(3) == 0x1000000;
    assert Pow256(4) == 0x100000000;
    assert Pow256(5) == 0x10000000000;
    assert Pow256(6) == 0x1000000000000;
    assert Pow256(7) == 0x100000000000000;
    assert Pow256(8) == 0x10000000000000000;
    assert Pow256(9) == 0x1000000000000000000;
    assert Pow256(10) == 0x100000000000000000000;
    assert Pow256(11) == 0x10000000000000000000000;
    assert Pow256(12) == 0x1000000000000000000000000;
    assert Pow256(13) == 0x100000000000000000000000000;
    assert Pow256(14) == 0x10000000000000000000000000000;
    assert Pow256(15) == 0x1000000000000000000000000000000;
  }

  /** Bytes of padding after an item of `n` bytes. */
  function Pad4(n: nat): (r: nat)
    ensures r < 4 && (n + r) % 4 == 0
  {
    (4 - n % 4) % 4
  }

  /** The outcome of a read at some position: the value, if the read
      succeeded, and the position the cursor is left at. */
  datatype Decoded<+T> = Decoded(result: Option<T>, next: nat)

  /** `e` occurs in `data` starting at `pos`. */
  predicate IsPrefixAt(data: seq<byte>, pos: nat, e: seq<byte>) {
    pos + |e| <= |data| && data[pos..pos + |e|] == e
  }

  lemma PrefixSplit(data: seq<byte>, pos: nat, a: seq<byte>, b: seq<byte>)
    requires IsPrefixAt(data, pos, a + b)
    ensures IsPrefixAt(data, pos, a) && IsPrefixAt(data, pos + |a|, b)
  {
    assert data[pos..pos + |a|] == (a + b)[..|a|];
    assert data[pos + |a|..pos + |a| + |b|] == (a + b)[|a|..];
  }

  /** A `k`-byte unsigned integer. */
  function ReadUint(data: seq<byte>, pos: nat, k: nat): (d: Decoded<nat>)
    ensures d.result.Some? <==> pos + k <= |data|
    ensures d.result.Some? ==> d.next == pos + k && d.result.value < Pow256(k)
    ensures d.result.None? ==> d.next == pos
  {
    if pos + k <= |data| then Decoded(Some(BigEndian(data[pos..pos + k])), pos + k)
    else Decoded(None, pos)
  }

  /** `n` bytes taken verbatim. */
  function ReadBytes(data: seq<byte>, pos: nat, n: nat): (d: Decoded<seq<byte>>)
    ensures d.result.Some? <==> pos + n <= |data|
    ensures d.result.Some? ==> d.next == pos + n && |d.result.value| == n
    ensures d.result.None? ==> d.next == pos
  {
    if pos + n <= |data| then Decoded(Some(data[pos..pos + n]), pos + n)
    else Decoded(None, pos)
  }

  /** XDR unsigned int. */
  function ReadU32(data: seq<byte>, pos: nat): Decoded<nat> {
    ReadUint(data, pos, 4)
  }

  /** Two's-complement reading of a 32-bit word. */
  function Signed32(v: nat): (r: int)
    requires v < TWO32
    ensures -0x8000_0000 <= r < 0x8000_0000
    ensures r % TWO32 == v
  {
    if v >= 0x8000_0000 then v - TWO32 else v
  }

  /** XDR (signed) int. */
  function ReadI32(data: seq<byte>, pos: nat): Decoded<int> {
    var d := ReadU32(data, pos);
    match d.result
    case None => Decoded(None, pos)
    case Some(v) => Decoded(Some(Signed32(v)), d.next)
  }

  /** XDR variable-length opaque: a length, that many bytes, then padding.
      A `maxcount` above zero is the largest length accepted.  The whole
      item is read or nothing is. */
  function ReadOpaque(data: seq<byte>, pos: nat, maxcount: nat): (d: Decoded<seq<byte>>)
    ensures d.result.None? ==> d.next == pos
    ensures d.result.Some? ==>
      var n := |d.result.value|;
      (maxcount == 0 || n <= maxcount) && d.next == pos + 4 + n + Pad4(n) &&
      d.next <= |data| && (d.next - pos) % 4 == 0 &&
      d.result.value == data[pos + 4..pos + 4 + n]
  {
    if pos + 4 > |data| then Decoded(None, pos)
    else
      var n := BigEndian(data[pos..pos + 4]);
      if (maxcount > 0 && n > maxcount) || pos + 4 + n + Pad4(n) > |data| then Decoded(None, pos)
      else Decoded(Some(data[pos + 4..pos + 4 + n]), pos + 4 + n + Pad4(n))
  }

  /** `count` consecutive unsigned ints starting at `pos`. */
  function U32s(data: seq<byte>, pos: nat, count: nat): (r: seq<nat>)
    requires pos + 4 * count <= |data|
    ensures |r| == count
    decreases count
  {
    if count == 0 then [] else [BigEndian(data[pos..pos + 4])] + U32s(data, pos + 4, count - 1)
  }

  lemma U32sUnroll(data: seq<byte>, pos: nat, count: nat)
    requires count > 0 && pos + 4 * count <= |data|
    ensures U32s(data, pos, count) == [BigEndian(data[pos..pos + 4])] + U32s(data, pos + 4, count - 1)
  {
  }

  lemma U32sSnoc(items: seq<nat>, v: nat, rest: seq<nat>)
    ensures items + ([v] + rest) == items + [v] + rest
  {
  }

  /** XDR variable-length array of unsigned ints, with the same `maxcount`
      convention as `ReadOpaque`. */
  function ReadU32Array(data: seq<byte>, pos: nat, maxcount: nat): (d: Decoded<seq<nat>>)
    ensures d.result.None? ==> d.next == pos
    ensures d.result.Some? ==>
      var n := |d.result.value|;
      (maxcount == 0 || n <= maxcount) && d.next == pos + 4 + 4 * n && d.next <= |data|
  {
    if pos + 4 > |data| then Decoded(None, pos)
    else
      var n := BigEndian(data[pos..pos + 4]);
      if (maxcount > 0 && n > maxcount) || pos + 4 + 4 * n > |data| then Decoded(None, pos)
      else Decoded(Some(U32s(data, pos + 4, n)), pos + 4 + 4 * n)
  }

  // Encoders: the inverse direction, used to state the round trips.

  function EncodeU32(n: nat): seq<byte> {
    ToBigEndian(n, 4)
  }

  function EncodeI32(v: int): seq<byte> {
    ToBigEndian(v % TWO32, 4)
  }

  function Zeros(k: nat): (r: seq<byte>)
    ensures |r| == k
  {
    seq(k, _ => 0)
  }

  function EncodeOpaque(b: seq<byte>): seq<byte> {
    EncodeU32(|b|) + b + Zeros(Pad4(|b|))
  }

  function EncodeU32s(xs: seq<nat>): (r: seq<byte>)
    ensures |r| == 4 * |xs|
  {
    if xs == [] then [] else EncodeU32(xs[0]) + EncodeU32s(xs[1..])
  }

  function EncodeU32Array(xs: seq<nat>): seq<byte> {
    EncodeU32(|xs|) + EncodeU32s(xs)
  }

  predicate AllU32(xs: seq<nat>) {
    forall i :: 0 <= i < |xs| ==> xs[i] < TWO32
  }

  lemma ReadU32Of(data: seq<byte>, pos: nat, n: nat)
    requires n < TWO32 && IsPrefixAt(data, pos, EncodeU32(n))
    ensures ReadU32(data, pos) == Decoded(Some(n), pos + 4)
  {
    BigEndianOfToBigEndian(n, 4);
  }

  lemma ReadI32Of(data: seq<byte>, pos: nat, v: int)
    requires -0x8000_0000 <= v < 0x8000_0000 && IsPrefixAt(data, pos, EncodeI32(v))
    ensures ReadI32(data, pos) == Decoded(Some(v), pos + 4)
  {
    BigEndianOfToBigEndian(v % TWO32, 4);
  }

  lemma ReadOpaqueOf(data: seq<byte>, pos: nat, b: seq<byte>, maxcount: nat)
    requires |b| < TWO32 && (maxcount == 0 || |b| <= maxcount)
    requires IsPrefixAt(data, pos, EncodeOpaque(b))
    ensures ReadOpaque(data, pos, maxcount) == Decoded(Some(b), pos + |EncodeOpaque(b)|)
  {
    PrefixSplit(data, pos, EncodeU32(|b|) + b, Zeros(Pad4(|b|)));
    PrefixSplit(data, pos, EncodeU32(|b|), b);
    BigEndianOfToBigEndian(|b|, 4);
  }

  lemma {:induction false} U32sOf(data: seq<byte>, pos: nat, xs: seq<nat>)
    requires AllU32(xs) && IsPrefixAt(data, pos, EncodeU32s(xs))
    ensures U32s(data, pos, |xs|) == xs
    decreases |xs|
  {
    if xs != [] {
      PrefixSplit(data, pos, EncodeU32(xs[0]), EncodeU32s(xs[1..]));
      BigEndianOfToBigEndian(xs[0], 4);
      U32sOf(data, pos + 4, xs[1..]);
    }
  }

  lemma ReadU32ArrayOf(data: seq<byte>, pos: nat, xs: seq<nat>, maxcount: nat)
    requires |xs| < TWO32 && AllU32(xs) && (maxcount == 0 || |xs| <= maxcount)
    requires IsPrefixAt(data, pos, EncodeU32Array(xs))
    ensures ReadU32Array(data, pos, maxcount) == Decoded(Some(xs), pos + 4 + 4 * |xs|)
  {
    PrefixSplit(data, pos, EncodeU32(|xs|), EncodeU32s(xs));
    BigEndianOfToBigEndian(|xs|, 4);
    U32sOf(data, pos + 4, xs);
  }

  lemma Pow256Four()
    ensures Pow256(4) == TWO32
  {
    assert Pow256(2) == 0x10000;
  }

  /** A word that reads is a 32-bit value. */
  lemma ReadU32Fits(data: seq<byte>, pos: nat)
    requires ReadU32(data, pos).result.Some?
    ensures ReadU32(data, pos).result.value < TWO32 && ReadU32(data, pos).next == pos + 4
  {
    Pow256Four();
  }

  /** An opaque that reads has a 32-bit length, and the read consumes
      exactly the size of its encoding. */
  lemma ReadOpaqueFits(data: seq<byte>, pos: nat, maxcount: nat)
    requires ReadOpaque(data, pos, maxcount).result.Some?
    ensures var d := ReadOpaque(data, pos, maxcount);
      |d.result.value| < TWO32 && d.next == pos + |EncodeOpaque(d.result.value)|
  {
    Pow256Four();
    assert |ReadOpaque(data, pos, maxcount).result.value| == BigEndian(data[pos..pos + 4]);
  }

  /** A word that reads is a 32-bit value spelled by exactly those four
      bytes. */
  lemma ReadU32Spans(data: seq<byte>, pos: nat)
    requires ReadU32(data, pos).result.Some?
    ensures var d := ReadU32(data, pos);
      && d.result.value < TWO32 && d.next == pos + 4
      && data[pos..pos + 4] == EncodeU32(d.result.value)
  {
    Pow256Four();
    ToBigEndianOfBigEndian(data[pos..pos + 4]);
  }

  /** An opaque that reads has a 32-bit length, and the read consumes
      exactly the size of its encoding; the length word and the bytes are
      the encoder's, the padding is skipped unread. */
  lemma ReadOpaqueSpans(data: seq<byte>, pos: nat, maxcount: nat)
    requires ReadOpaque(data, pos, maxcount).result.Some?
    ensures var d := ReadOpaque(data, pos, maxcount); var b := d.result.value;
      && |b| < TWO32 && d.next == pos + |EncodeOpaque(b)|
      && data[pos..pos + 4 + |b|] == EncodeU32(|b|) + b
  {
    ReadOpaqueFits(data, pos, maxcount);
    var w := data[pos..pos + 4];
    ToBigEndianOfBigEndian(w);
    var b := ReadOpaque(data, pos, maxcount).result.value;
    assert |b| == BigEndian(w);
    assert data[pos..pos + 4 + |b|] == w + data[pos + 4..pos + 4 + |b|];
  }

  /** `count` words that read are 32-bit values whose encoding is exactly
      the bytes read. */
  lemma {:induction false} U32sSpans(data: seq<byte>, pos: nat, count: nat)
    requires pos + 4 * count <= |data|
    ensures AllU32(U32s(data, pos, count)) && EncodeU32s(U32s(data, pos, count)) == data[pos..pos + 4 * count]
    decreases count
  {
    if count > 0 {
      U32sSpans(data, pos + 4, count - 1);
      Pow256Four();
      ToBigEndianOfBigEndian(data[pos..pos + 4]);
      var xs := U32s(data, pos, count);
      assert xs[1..] == U32s(data, pos + 4, count - 1);
      assert data[pos..pos + 4 * count] == data[pos..pos + 4] + data[pos + 4..pos + 4 * count];
    }
  }

  /** An array that reads has a 32-bit count of 32-bit values, and the
      bytes read are exactly its encoding. */
  lemma ReadU32ArraySpans(data: seq<byte>, pos: nat, maxcount: nat)
    requires ReadU32Array(data, pos, maxcount).result.Some?
    ensures var d := ReadU32Array(data, pos, maxcount); var xs := d.result.value;
      && |xs| < TWO32 && AllU32(xs) && d.next == pos + |EncodeU32Array(xs)|
      && data[pos..d.next] == EncodeU32Array(xs)
  {
    Pow256Four();
    var w := data[pos..pos + 4];
    ToBigEndianOfBigEndian(w);
    var n := BigEndian(w);
    U32sSpans(data, pos + 4, n);
    assert data[pos..pos + 4 + 4 * n] == w + data[pos + 4..pos + 4 + 4 * n];
  }

  /** Length prefix 5 with five payload bytes consumes three bytes of
      padding, twelve in all; length prefix 4 consumes no padding. */
  lemma OpaquePaddingExamples(data: seq<byte>, pos: nat)
    requires pos + 12 <= |data|
    ensures IsPrefixAt(data, pos, EncodeU32(5)) ==> ReadOpaque(data, pos, 0).next == pos + 12
    ensures IsPrefixAt(data, pos, EncodeU32(4)) ==> ReadOpaque(data, pos, 0).next == pos + 8
  {
    BigEndianOfToBigEndian(5, 4);
    BigEndianOfToBigEndian(4, 4);
  }
}
