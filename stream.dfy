/** The ways a decode can end without an image. */
module Failures {

  datatype Error =
    | BadMagic            // the first two bytes are not "BM"; the C calls sysfatal
    | NoMemory            // calloc is asked for a negative (wrapped) size and returns nil
    | TableOverflow       // more than 256 colour-table entries: the C writes past clut[256]
    | NegativeShift       // `1 << bpp` with a negative bpp, undefined in C
    | BadSeek             // an absolute Bseek to a negative offset, whose failure the C ignores
    | Truncated           // the stream ends inside data that must be read
    | OutOfBounds         // an access outside the pixel buffer, which the C does not check
    | Diverges            // the RLE row loop can never finish
    | UnknownColourSpace  // Breadbmp asked for a colour space other than CRGB

  datatype Result<T> = Ok(value: T) | Fail(error: Error)
}

/**
 * The input stream: the file's bytes and a cursor. `Bgetc` is "the byte at
 * the cursor, then advance"; the decoders carry the cursor as a value.
 */
module Stream {

  import opened Bits

  type Byte = b: int | 0 <= b < 256

  /**
   * What `(uint8_t)Bgetc(b)` yields with the cursor at k: the byte there,
   * or 0xFF once the stream is exhausted (Bgetc returns -1, whose low
   * eight bits are all set).
   */
  function ByteAt(data: seq<Byte>, k: int): Byte
  {
    if 0 <= k < |data| then data[k] else 0xFF
  }

  /** What `Bgetc` returns with the cursor at k: the byte there, or -1 once the stream is exhausted. */
  function Getc(data: seq<Byte>, k: int): (v: int)
    ensures -1 <= v < 256
    ensures v == -1 <==> !(0 <= k < |data|)
  {
    if 0 <= k < |data| then data[k] else -1
  }

  /** The int16_t whose two's-complement bit pattern is u. */
  function Int16(u: int): (s: int)
    requires 0 <= u < 0x1_0000
    ensures -0x8000 <= s < 0x8000
    ensures s % 0x1_0000 == u
  {
    if u < 0x8000 then u else u - 0x1_0000
  }

  /** The int32_t whose two's-complement bit pattern is u. */
  function Int32(u: int): (s: int)
    requires 0 <= u < 0x1_0000_0000
    ensures -0x8000_0000 <= s < 0x8000_0000
    ensures s % 0x1_0000_0000 == u
  {
    if u < 0x8000_0000 then u else u - 0x1_0000_0000
  }

  /**
   * r16: two bytes, low byte first, as an int16_t. At the end of the
   * stream the missing bytes read as 0xFF, which is also what the C gets
   * by or-ing -1 into the word.
   */
  function R16(data: seq<Byte>, pos: int): (v: int)
    ensures -0x8000 <= v < 0x8000
    ensures v % 0x100 == ByteAt(data, pos) && (v % 0x1_0000) / 0x100 == ByteAt(data, pos + 1)
    ensures v < 0 <==> ByteAt(data, pos + 1) >= 0x80
  {
    Int16(ByteAt(data, pos) + 0x100 * ByteAt(data, pos + 1))
  }

  /** r32: four bytes, least significant first, as an int32_t. */
  function R32(data: seq<Byte>, pos: int): (v: int)
    ensures -0x8000_0000 <= v < 0x8000_0000
    ensures v % 0x100 == ByteAt(data, pos) && (v % 0x1_0000_0000) / 0x100_0000 == ByteAt(data, pos + 3)
    ensures v < 0 <==> ByteAt(data, pos + 3) >= 0x80
  {
    Int32(ByteAt(data, pos) + 0x100 * ByteAt(data, pos + 1)
          + 0x1_0000 * ByteAt(data, pos + 2) + 0x100_0000 * ByteAt(data, pos + 3))
  }

  /** The two bytes a 16-bit field holding v occupies in the file. */
  function Le16(v: int): (b: seq<Byte>)
    requires -0x8000 <= v < 0x8000
    ensures |b| == 2
  {
    var u := v % 0x1_0000;
    [u % 0x100, u / 0x100]
  }

  /** The four bytes a 32-bit field holding v occupies in the file. */
  function Le32(v: int): (b: seq<Byte>)
    requires -0x8000_0000 <= v < 0x8000_0000
    ensures |b| == 4
  {
    var u := v % 0x1_0000_0000;
    var q1 := u / 0x100;
    var q2 := q1 / 0x100;
    [u % 0x100, q1 % 0x100, q2 % 0x100, q2 / 0x100]
  }

  /** r16 reads back what a 16-bit field was written with. */
  lemma {:induction false} R16OfLe16(data: seq<Byte>, pos: nat, v: int)
    requires -0x8000 <= v < 0x8000
    requires pos + 2 <= |data| && data[pos..pos + 2] == Le16(v)
    ensures R16(data, pos) == v
  {
    assert data[pos] == Le16(v)[0] && data[pos + 1] == Le16(v)[1];
  }

  /** Every pair of bytes is the encoding of the value r16 reads from it. */
  lemma {:induction false} Le16OfR16(data: seq<Byte>, pos: nat)
    requires pos + 2 <= |data|
    ensures Le16(R16(data, pos)) == data[pos..pos + 2]
  {
  }

  /** r32 reads back what a 32-bit field was written with. */
  lemma {:induction false} R32OfLe32(data: seq<Byte>, pos: nat, v: int)
    requires -0x8000_0000 <= v < 0x8000_0000
    requires pos + 4 <= |data| && data[pos..pos + 4] == Le32(v)
    ensures R32(data, pos) == v
  {
    var b := Le32(v);
    assert data[pos] == b[0] && data[pos + 1] == b[1] && data[pos + 2] == b[2] && data[pos + 3] == b[3];
    var u := v % 0x1_0000_0000;
    var q1 := u / 0x100;
    var q2 := q1 / 0x100;
    assert u == 0x100 * q1 + b[0];
    assert q1 == 0x100 * q2 + b[1] as int;
    assert q2 == 0x100 * (b[3] as int) + b[2];
  }

  /** Every four bytes are the encoding of the value r32 reads from them. */
  lemma {:induction false} Le32OfR32(data: seq<Byte>, pos: nat)
    requires pos + 4 <= |data|
    ensures Le32(R32(data, pos)) == data[pos..pos + 4]
  {
    var b0: int, b1: int, b2: int, b3: int := data[pos], data[pos + 1], data[pos + 2], data[pos + 3];
    var u := b0 + 0x100 * b1 + 0x1_0000 * b2 + 0x100_0000 * b3;
    assert R32(data, pos) % 0x1_0000_0000 == u;
    DivModUnique(u, 0x100, b1 + 0x100 * b2 + 0x1_0000 * b3, b0);
    DivModUnique(b1 + 0x100 * b2 + 0x1_0000 * b3, 0x100, b2 + 0x100 * b3, b1);
    DivModUnique(b2 + 0x100 * b3, 0x100, b3, b2);
  }
}
