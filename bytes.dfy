/** Bytes, little-endian words and the raw reads the archive readers share. */
module Bytes {

  /** An unsigned 8-bit value, as `ui8` in the source. */
  type byte = b: int | 0 <= b < 256

  const TWO_TO_THE_16: int := 0x1_0000
  const TWO_TO_THE_32: int := 0x1_0000_0000

  /** The smaller of two naturals (`std::min`). */
  function Min(a: nat, b: nat): nat {
    if a <= b then a else b
  }

  /** The little-endian unsigned 16-bit word stored at `s[at..at+2]`. */
  function LeU16(s: seq<byte>, at: nat): (r: nat)
    requires at + 2 <= |s|
    ensures r < TWO_TO_THE_16
    ensures r % 256 == s[at] && r / 256 == s[at + 1]
  {
    var lo: int, hi: int := s[at], s[at + 1];
    lo + 256 * hi
  }

  /** The little-endian unsigned 32-bit word stored at `s[at..at+4]`
      (the source's `read_le_u32` and `SDL_SwapLE32` over a raw read). */
  function LeU32(s: seq<byte>, at: nat): (r: nat)
    requires at + 4 <= |s|
    ensures r < TWO_TO_THE_32
  {
    var b0: int, b1: int, b2: int, b3: int := s[at], s[at + 1], s[at + 2], s[at + 3];
    b0 + 256 * b1 + 0x1_0000 * b2 + 0x100_0000 * b3
  }

  /** The four bytes of `v`, least significant first: the inverse of `LeU32`. */
  function Le32Bytes(v: nat): (r: seq<byte>)
    requires v < TWO_TO_THE_32
    ensures |r| == 4
  {
    [v % 256, (v / 256) % 256, (v / 0x1_0000) % 256, v / 0x100_0000]
  }

  /** Encoding a word and decoding it gives the word back. */
  lemma LeU32OfLe32Bytes(v: nat)
    requires v < TWO_TO_THE_32
    ensures LeU32(Le32Bytes(v), 0) == v
  {
    var b := Le32Bytes(v);
    assert v == v % 256 + 256 * (v / 256);
    assert v / 256 == (v / 256) % 256 + 256 * (v / 0x1_0000);
    assert v / 0x1_0000 == (v / 0x1_0000) % 256 + 256 * (v / 0x100_0000);
  }

  /** Decoding four bytes and encoding the word gives the same four bytes back,
      so `LeU32` is a bijection between 4-byte windows and 32-bit words. */
  lemma Le32BytesOfLeU32(s: seq<byte>, at: nat)
    requires at + 4 <= |s|
    ensures Le32Bytes(LeU32(s, at)) == s[at..at + 4]
  {
    var v := LeU32(s, at);
    var a: int, b: int, c: int, d: int := s[at], s[at + 1], s[at + 2], s[at + 3];
    assert v == a + 256 * (b + 256 * (c + 256 * d));
    assert v % 256 == a && v / 256 == b + 256 * (c + 256 * d);
    assert v / 0x1_0000 == (v / 256) / 256;
    assert (v / 256) % 256 == b && v / 0x1_0000 == c + 256 * d;
    assert v / 0x100_0000 == (v / 0x1_0000) / 256;
    assert (v / 0x1_0000) % 256 == c && v / 0x100_0000 == d;
  }

  /** The text of a fixed-width, NUL-padded name field read as a C string:
      every byte before the first zero byte. A field with no zero byte gives
      all of its bytes. */
  function CString(field: seq<byte>): (r: string)
    ensures |r| <= |field|
    ensures forall k :: 0 <= k < |r| ==> field[k] != 0 && r[k] == field[k] as char
    ensures |r| < |field| ==> field[|r|] == 0
  {
    if field == [] || field[0] == 0 then "" else [field[0] as char] + CString(field[1..])
  }

  /** What a `read` of `count` bytes from position `offset` of the file image
      `img` leaves in a freshly allocated buffer of `count` bytes. Bytes past
      the end of the file are never written by the stream; the model gives
      them the value 0. */
  function ReadAt(img: seq<byte>, offset: nat, count: nat): (r: seq<byte>)
    ensures |r| == count
    ensures offset + count <= |img| ==> r == img[offset..offset + count]
    ensures forall k :: 0 <= k < count && offset + k < |img| ==> r[k] == img[offset + k]
  {
    seq(count, k requires 0 <= k < count => if offset + k < |img| then img[offset + k] else 0)
  }

  /** The concatenation of a sequence of byte blocks, in order. */
  function Flatten(chunks: seq<seq<byte>>): seq<byte>
    decreases |chunks|
  {
    if chunks == [] then [] else Flatten(chunks[..|chunks| - 1]) + chunks[|chunks| - 1]
  }
}
