/**
 * Byte-level primitives of the file format: fixed-width little-endian
 * integers as Python's `struct` module packs and unpacks them, the
 * concatenation of byte chunks, and Python's clamped slicing.
 */
module Encoding {
  import opened Results

  type Byte = x: int | 0 <= x < 256
  type Bytes = seq<Byte>

  const U32_LIMIT: nat := 0x1_0000_0000
  const U64_LIMIT: nat := 0x1_0000_0000_0000_0000
  const I32_MIN: int := -0x8000_0000
  const I32_LIMIT: int := 0x8000_0000

  /** 256^k, the number of values a k-byte field can hold; the bound is a helper for the callers' arithmetic. */
  function Pow256(k: nat): (r: nat)
    ensures r >= 1
  {
    if k == 0 then 1 else 256 * Pow256(k - 1)
  }

  lemma Pow256Widths()
    ensures Pow256(1) == 256 && Pow256(4) == U32_LIMIT && Pow256(8) == U64_LIMIT
  {
  }

  /** The k-byte little-endian encoding of n. */
  function LittleEndian(n: nat, k: nat): (r: Bytes)
    requires n < Pow256(k)
    ensures |r| == k
  {
    if k == 0 then [] else [n % 256] + LittleEndian(n / 256, k - 1)
  }

  /** The unsigned value of a little-endian byte string. */
  function FromLittleEndian(b: Bytes): (n: nat)
    ensures n < Pow256(|b|)
  {
    if b == [] then 0 else b[0] + 256 * FromLittleEndian(b[1..])
  }

  lemma {:induction false} DecodeEncode(n: nat, k: nat)
    requires n < Pow256(k)
    ensures FromLittleEndian(LittleEndian(n, k)) == n
  {
    if k > 0 {
      DecodeEncode(n / 256, k - 1);
    }
  }

  lemma {:induction false} EncodeDecode(b: Bytes)
    ensures LittleEndian(FromLittleEndian(b), |b|) == b
  {
    if b != [] {
      var rest := FromLittleEndian(b[1..]);
      DigitSplit(b[0], rest);
      EncodeDecode(b[1..]);
    }
  }

  lemma DigitSplit(lo: Byte, hi: nat)
    ensures (lo + 256 * hi) % 256 == lo && (lo + 256 * hi) / 256 == hi
  {
  }

  /** `struct.pack` with an unsigned format of k bytes ('<B', '<I', '<Q'): fails outside [0, 256^k). */
  function PackUnsigned(n: int, k: nat): (r: Option<Bytes>)
    ensures r.Some? <==> 0 <= n < Pow256(k)
    ensures r.Some? ==> |r.value| == k && FromLittleEndian(r.value) == n
  {
    if 0 <= n < Pow256(k) then
      DecodeEncode(n, k);
      Some(LittleEndian(n, k))
    else
      None
  }

  /** `struct.unpack('<i', b)`: the two's-complement reading of four bytes. */
  function UnpackInt32(b: Bytes): (n: int)
    requires |b| == 4
    ensures I32_MIN <= n < I32_LIMIT
  {
    Pow256Widths();
    var u := FromLittleEndian(b);
    if u < I32_LIMIT then u else u - U32_LIMIT
  }

  /** `struct.pack('<i', n)`: four little-endian two's-complement bytes; fails outside [-2^31, 2^31). */
  function PackInt32(n: int): (r: Option<Bytes>)
    ensures r.Some? <==> I32_MIN <= n < I32_LIMIT
    ensures r.Some? ==> |r.value| == 4 && UnpackInt32(r.value) == n
  {
    Pow256Widths();
    if I32_MIN <= n < I32_LIMIT then
      var u := if n < 0 then n + U32_LIMIT else n;
      DecodeEncode(u, 4);
      Some(LittleEndian(u, 4))
    else
      None
  }

  /** `struct.pack('<d', x)` for the float x whose IEEE 754 bit pattern is bits: eight little-endian bytes. */
  function PackDouble(bits: nat): (r: Bytes)
    requires bits < U64_LIMIT
    ensures |r| == 8 && FromLittleEndian(r) == bits
  {
    Pow256Widths();
    DecodeEncode(bits, 8);
    LittleEndian(bits, 8)
  }

  /** Every four bytes are the packing of the integer they unpack to. */
  lemma UnpackThenPack(b: Bytes)
    requires |b| == 4
    ensures PackInt32(UnpackInt32(b)) == Some(b)
  {
    Pow256Widths();
    EncodeDecode(b);
  }

  /** The chunks written one after another. */
  function Concat(chunks: seq<Bytes>): Bytes
  {
    if chunks == [] then [] else Concat(chunks[..|chunks| - 1]) + chunks[|chunks| - 1]
  }

  lemma {:induction false} ConcatAppend(a: seq<Bytes>, b: seq<Bytes>)
    ensures Concat(a + b) == Concat(a) + Concat(b)
    decreases |b|
  {
    if b == [] {
      assert a + b == a;
    } else {
      var b' := b[..|b| - 1];
      assert (a + b)[..|a + b| - 1] == a + b';
      ConcatAppend(a, b');
    }
  }

  /** Chunk i occupies the bytes that follow the first i chunks. */
  lemma ConcatSlice(chunks: seq<Bytes>, i: nat)
    requires i < |chunks|
    ensures |Concat(chunks[..i])| + |chunks[i]| <= |Concat(chunks)|
    ensures Concat(chunks)[|Concat(chunks[..i])|..|Concat(chunks[..i])| + |chunks[i]|] == chunks[i]
  {
    assert chunks == chunks[..i] + [chunks[i]] + chunks[i + 1..];
    ConcatAppend(chunks[..i] + [chunks[i]], chunks[i + 1..]);
    ConcatAppend(chunks[..i], [chunks[i]]);
    assert Concat([chunks[i]]) == chunks[i] by {
      var one: seq<Bytes> := [chunks[i]];
      assert one[..0] == [];
    }
  }

  lemma ConcatPrefixLength(chunks: seq<Bytes>, i: nat, j: nat)
    requires i <= j <= |chunks|
    ensures |Concat(chunks[..i])| <= |Concat(chunks[..j])|
  {
    assert chunks[..j] == chunks[..i] + chunks[i..j];
    ConcatAppend(chunks[..i], chunks[i..j]);
  }

  lemma {:induction false} UniformConcatLength(chunks: seq<Bytes>, w: nat)
    requires forall i :: 0 <= i < |chunks| ==> |chunks[i]| == w
    ensures |Concat(chunks)| == w * |chunks|
    decreases |chunks|
  {
    if chunks != [] {
      var n := |chunks|;
      UniformConcatLength(chunks[..n - 1], w);
      assert w * (n - 1) + w == w * n;
    }
  }

  /** Chunks of one width w: chunk i is the bytes [w*i, w*i+w) of the whole. */
  lemma UniformConcatSlice(chunks: seq<Bytes>, w: nat, i: nat)
    requires forall j :: 0 <= j < |chunks| ==> |chunks[j]| == w
    requires i < |chunks|
    ensures w * i + w <= |Concat(chunks)|
    ensures Concat(chunks)[w * i..w * i + w] == chunks[i]
  {
    UniformConcatLength(chunks[..i], w);
    ConcatSlice(chunks, i);
  }

  /** Python's `s[i:j]` for non-negative bounds: both ends are clamped to the length of s. */
  function Slice(s: Bytes, i: nat, j: nat): (r: Bytes)
    ensures i <= j <= |s| ==> r == s[i..j]
    ensures |r| <= |s|
  {
    var lo := if i < |s| then i else |s|;
    var hi := if j < lo then lo else if j < |s| then j else |s|;
    s[lo..hi]
  }
}
