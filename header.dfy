/**
 * The two headers at the front of a BMP file and the colour table after
 * them: the 14-byte file header, then an info header that is either the
 * 12-byte OS/2 1.x form (16-bit fields) or the Windows form (32-bit
 * fields), then up to 256 four-byte colour entries stored blue, green,
 * red, reserved.
 */
module Header {

  import opened Failures
  import opened Stream
  import opened Bits
  import opened Pixels

  /** "BM" read as a little-endian 16-bit word. */
  const Magic := 0x4d42
  /** The size of the file header on disk. */
  const Filehdrsz := 14
  /** The info-header size that marks the OS/2 1.x layout. */
  const Os2InfoSize := 12

  /** Compression codes of the MS-BMP format. */
  const BmpRgb := 0
  const BmpRle8 := 1
  const BmpRle4 := 2
  const BmpBitfields := 3

  datatype FileHeader = FileHeader(kind: int, size: int, reserved1: int, reserved2: int, offbits: int)

  datatype InfoHeader = InfoHeader(
    size: int, width: int, height: int, planes: int, bpp: int, compression: int,
    imagesize: int, hres: int, vres: int, colours: int, impcolours: int)

  datatype Headers = Headers(file: FileHeader, info: InfoHeader)

  /**
   * The info header that starts at offset 14. Fields the OS/2 layout does
   * not have stay 0, as after the C's memset, and its compression is RGB.
   */
  function ParseInfo(data: seq<Byte>): (i: InfoHeader)
    ensures i.size == R32(data, 14)
    ensures Fits32(i.width) && Fits32(i.height) && Fits16(i.planes) && Fits16(i.bpp) && Fits32(i.compression)
    ensures Fits32(i.imagesize) && Fits32(i.hres) && Fits32(i.vres) && Fits32(i.colours) && Fits32(i.impcolours)
    ensures i.size == Os2InfoSize ==>
              Fits16(i.width) && Fits16(i.height) && i.compression == BmpRgb
              && i.imagesize == 0 && i.hres == 0 && i.vres == 0 && i.colours == 0 && i.impcolours == 0
    ensures i.size != Os2InfoSize ==>
              i.width == R32(data, 18) && i.height == R32(data, 22) && i.bpp == R16(data, 28) && i.compression == R32(data, 30)
  {
    var size := R32(data, 14);
    if size == Os2InfoSize then
      InfoHeader(size, R16(data, 18), R16(data, 20), R16(data, 22), R16(data, 24), BmpRgb, 0, 0, 0, 0, 0)
    else
      InfoHeader(size, R32(data, 18), R32(data, 22), R16(data, 26), R16(data, 28), R32(data, 30),
                 R32(data, 34), R32(data, 38), R32(data, 42), R32(data, 46), R32(data, 50))
  }

  /** The header fields ReadBMP reads, or BadMagic when the file does not start with "BM". */
  function ParseHeaders(data: seq<Byte>): (r: Result<Headers>)
    ensures r.Ok? <==> R16(data, 0) == Magic
    ensures r.Fail? ==> r.error == BadMagic
    ensures r.Ok? ==> r.value.file.kind == Magic
  {
    var kind := R16(data, 0);
    if kind != Magic then Fail(BadMagic)
    else Ok(Headers(FileHeader(kind, R32(data, 2), R16(data, 6), R16(data, 8), R32(data, 10)), ParseInfo(data)))
  }

  // Writing headers back, the partner of parsing.

  predicate Fits16(v: int) { -0x8000 <= v < 0x8000 }
  predicate Fits32(v: int) { -0x8000_0000 <= v < 0x8000_0000 }

  /** Headers a file can hold: every field fits its width, and an OS/2 header has nothing the layout lacks. */
  predicate Encodable(h: Headers)
  {
    var f, i := h.file, h.info;
    f.kind == Magic && Fits32(f.size) && Fits16(f.reserved1) && Fits16(f.reserved2) && Fits32(f.offbits)
    && Fits32(i.size) && Fits16(i.planes) && Fits16(i.bpp)
    && (i.size == Os2InfoSize ==>
          Fits16(i.width) && Fits16(i.height) && i.compression == BmpRgb
          && i.imagesize == 0 && i.hres == 0 && i.vres == 0 && i.colours == 0 && i.impcolours == 0)
    && (i.size != Os2InfoSize ==>
          Fits32(i.width) && Fits32(i.height) && Fits32(i.compression) && Fits32(i.imagesize)
          && Fits32(i.hres) && Fits32(i.vres) && Fits32(i.colours) && Fits32(i.impcolours))
  }

  /** The number of bytes the two headers occupy: 26 for OS/2, 54 for Windows. */
  function HeaderLength(info: InfoHeader): nat
  {
    if info.size == Os2InfoSize then 26 else 54
  }

  function EncodeInfo(i: InfoHeader): (b: seq<Byte>)
    requires Encodable(Headers(FileHeader(Magic, 0, 0, 0, 0), i))
    ensures |b| == HeaderLength(i) - 18
  {
    if i.size == Os2InfoSize then
      Le16(i.width) + (Le16(i.height) + (Le16(i.planes) + Le16(i.bpp)))
    else
      Le32(i.width) + (Le32(i.height) + (Le16(i.planes) + (Le16(i.bpp) + (Le32(i.compression)
      + (Le32(i.imagesize) + (Le32(i.hres) + (Le32(i.vres) + (Le32(i.colours) + Le32(i.impcolours)))))))))
  }

  function EncodeHeaders(h: Headers): (b: seq<Byte>)
    requires Encodable(h)
    ensures |b| == HeaderLength(h.info)
  {
    var f := h.file;
    Le16(f.kind) + (Le32(f.size) + (Le16(f.reserved1) + (Le16(f.reserved2) + (Le32(f.offbits)
    + (Le32(h.info.size) + EncodeInfo(h.info))))))
  }

  /** A 16-bit field at p followed by `tail`: r16 reads it, and `tail` follows. */
  lemma {:induction false} Field16(data: seq<Byte>, p: nat, v: int, tail: seq<Byte>)
    requires Fits16(v)
    requires p + 2 + |tail| <= |data| && data[p..p + 2 + |tail|] == Le16(v) + tail
    ensures R16(data, p) == v
    ensures data[p + 2..p + 2 + |tail|] == tail
  {
    assert data[p..p + 2] == data[p..p + 2 + |tail|][..2];
    R16OfLe16(data, p, v);
    assert data[p + 2..p + 2 + |tail|] == data[p..p + 2 + |tail|][2..];
  }

  /** A 32-bit field at p followed by `tail`: r32 reads it, and `tail` follows. */
  lemma {:induction false} Field32(data: seq<Byte>, p: nat, v: int, tail: seq<Byte>)
    requires Fits32(v)
    requires p + 4 + |tail| <= |data| && data[p..p + 4 + |tail|] == Le32(v) + tail
    ensures R32(data, p) == v
    ensures data[p + 4..p + 4 + |tail|] == tail
  {
    assert data[p..p + 4] == data[p..p + 4 + |tail|][..4];
    R32OfLe32(data, p, v);
    assert data[p + 4..p + 4 + |tail|] == data[p..p + 4 + |tail|][4..];
  }

  lemma {:induction false} ParseOs2Info(data: seq<Byte>, i: InfoHeader)
    requires Encodable(Headers(FileHeader(Magic, 0, 0, 0, 0), i)) && i.size == Os2InfoSize
    requires 26 <= |data| && data[18..26] == EncodeInfo(i)
    ensures data[18..26] == Le16(i.width) + (Le16(i.height) + (Le16(i.planes) + Le16(i.bpp)))
    ensures R16(data, 18) == i.width && R16(data, 20) == i.height
    ensures R16(data, 22) == i.planes && R16(data, 24) == i.bpp
  {
    Field16(data, 18, i.width, Le16(i.height) + (Le16(i.planes) + Le16(i.bpp)));
    Field16(data, 20, i.height, Le16(i.planes) + Le16(i.bpp));
    Field16(data, 22, i.planes, Le16(i.bpp));
    Field16(data, 24, i.bpp, []);
  }

  lemma {:induction false} ParseWindowsInfo(data: seq<Byte>, i: InfoHeader)
    requires Encodable(Headers(FileHeader(Magic, 0, 0, 0, 0), i)) && i.size != Os2InfoSize
    requires 54 <= |data| && data[18..54] == EncodeInfo(i)
    ensures R32(data, 18) == i.width && R32(data, 22) == i.height
    ensures R16(data, 26) == i.planes && R16(data, 28) == i.bpp
    ensures R32(data, 30) == i.compression && R32(data, 34) == i.imagesize
    ensures R32(data, 38) == i.hres && R32(data, 42) == i.vres
    ensures R32(data, 46) == i.colours && R32(data, 50) == i.impcolours
  {
    var t9 := Le32(i.impcolours);
    var t8 := Le32(i.colours) + t9;
    var t7 := Le32(i.vres) + t8;
    var t6 := Le32(i.hres) + t7;
    var t5 := Le32(i.imagesize) + t6;
    var t4 := Le32(i.compression) + t5;
    var t3 := Le16(i.bpp) + t4;
    var t2 := Le16(i.planes) + t3;
    var t1 := Le32(i.height) + t2;
    Field32(data, 18, i.width, t1);
    Field32(data, 22, i.height, t2);
    Field16(data, 26, i.planes, t3);
    Field16(data, 28, i.bpp, t4);
    Field32(data, 30, i.compression, t5);
    Field32(data, 34, i.imagesize, t6);
    Field32(data, 38, i.hres, t7);
    Field32(data, 42, i.vres, t8);
    Field32(data, 46, i.colours, t9);
    Field32(data, 50, i.impcolours, []);
  }

  /** Parsing a file that starts with written headers gives those headers back. */
  lemma {:induction false} ParseEncode(h: Headers, rest: seq<Byte>)
    requires Encodable(h)
    ensures ParseHeaders(EncodeHeaders(h) + rest) == Ok(h)
  {
    var f, i := h.file, h.info;
    var data := EncodeHeaders(h) + rest;
    var n := HeaderLength(i);
    assert data[0..n] == EncodeHeaders(h);
    var t5 := Le32(i.size) + EncodeInfo(i);
    var t4 := Le32(f.offbits) + t5;
    var t3 := Le16(f.reserved2) + t4;
    var t2 := Le16(f.reserved1) + t3;
    var t1 := Le32(f.size) + t2;
    Field16(data, 0, f.kind, t1);
    Field32(data, 2, f.size, t2);
    Field16(data, 6, f.reserved1, t3);
    Field16(data, 8, f.reserved2, t4);
    Field32(data, 10, f.offbits, t5);
    Field32(data, 14, i.size, EncodeInfo(i));
    if i.size == Os2InfoSize {
      ParseOs2Info(data, i);
    } else {
      ParseWindowsInfo(data, i);
    }
  }

  /** The bytes from p to q are the 16-bit field r16 reads at p, then the rest. */
  lemma {:induction false} Split16(data: seq<Byte>, p: nat, q: nat)
    requires p + 2 <= q <= |data|
    ensures data[p..q] == Le16(R16(data, p)) + data[p + 2..q]
  {
    Le16OfR16(data, p);
    assert data[p..q] == data[p..p + 2] + data[p + 2..q];
  }

  /** The bytes from p to q are the 32-bit field r32 reads at p, then the rest. */
  lemma {:induction false} Split32(data: seq<Byte>, p: nat, q: nat)
    requires p + 4 <= q <= |data|
    ensures data[p..q] == Le32(R32(data, p)) + data[p + 4..q]
  {
    Le32OfR32(data, p);
    assert data[p..q] == data[p..p + 4] + data[p + 4..q];
  }

  lemma {:induction false} EncodeOs2Info(data: seq<Byte>)
    requires 26 <= |data|
    ensures data[18..26] == Le16(R16(data, 18)) + (Le16(R16(data, 20)) + (Le16(R16(data, 22)) + Le16(R16(data, 24))))
  {
    Le16OfR16(data, 24);
    Split16(data, 22, 26);
    Split16(data, 20, 26);
    Split16(data, 18, 26);
  }

  lemma {:induction false} EncodeWindowsInfo(data: seq<Byte>, i: InfoHeader)
    requires 54 <= |data| && i == ParseInfo(data) && i.size != Os2InfoSize
    ensures Encodable(Headers(FileHeader(Magic, 0, 0, 0, 0), i))
    ensures data[18..54] == EncodeInfo(i)
  {
    WindowsTail(data);
    Split16(data, 28, 54);
    Split16(data, 26, 54);
    Split32(data, 22, 54);
    Split32(data, 18, 54);
  }

  /** Bytes 30 to 54 of a Windows info header are its six trailing 32-bit fields. */
  lemma {:induction false} WindowsTail(data: seq<Byte>)
    requires 54 <= |data|
    ensures data[30..54] == Le32(R32(data, 30)) + (Le32(R32(data, 34)) + (Le32(R32(data, 38))
      + (Le32(R32(data, 42)) + (Le32(R32(data, 46)) + Le32(R32(data, 50))))))
  {
    Le32OfR32(data, 50);
    Split32(data, 46, 54);
    Split32(data, 42, 54);
    Split32(data, 38, 54);
    Split32(data, 34, 54);
    Split32(data, 30, 54);
  }

  /**
   * Every file whose headers parse, and that is long enough to hold them,
   * starts with exactly the bytes that writing the parsed headers gives.
   */
  lemma {:induction false} EncodeParse(data: seq<Byte>)
    requires ParseHeaders(data).Ok? && HeaderLength(ParseHeaders(data).value.info) <= |data|
    ensures Encodable(ParseHeaders(data).value)
    ensures EncodeHeaders(ParseHeaders(data).value) == data[..HeaderLength(ParseHeaders(data).value.info)]
  {
    var h := ParseHeaders(data).value;
    var n := HeaderLength(h.info);
    if h.info.size == Os2InfoSize {
      EncodeOs2Info(data);
    } else {
      EncodeWindowsInfo(data, h.info);
    }
    assert data[18..n] == EncodeInfo(h.info);
    Split32(data, 14, n);
    Split32(data, 10, n);
    Split16(data, 8, n);
    Split16(data, 6, n);
    Split32(data, 2, n);
    Split16(data, 0, n);
    assert data[..n] == data[0..n];
  }

  // The colour table.

  /**
   * How many colour-table entries ReadBMP loads: the info header's count
   * of important colours when it is not 0, else `1 << bpp`, for fewer than
   * 16 bits per pixel; the three bit masks for 16- and 32-bit BITFIELDS
   * images; none otherwise. A negative bpp shifts by a negative amount.
   */
  function TableCount(info: InfoHeader): (r: Result<int>)
    ensures r.Fail? <==> info.bpp < 0 && info.impcolours == 0
    ensures r.Fail? ==> r.error == NegativeShift
  {
    if info.bpp < 16 then
      if info.impcolours != 0 then Ok(info.impcolours)
      else if info.bpp < 0 then Fail(NegativeShift)
      else Ok(Pow2(info.bpp))
    else if info.compression == BmpBitfields && (info.bpp == 16 || info.bpp == 32) then Ok(3)
    else Ok(0)
  }

  /**
   * A palette image that does not name its important colours gets one
   * entry for every index its pixels can hold, and the table has room
   * for all of them.
   */
  lemma {:induction false} FullPalette(info: InfoHeader)
    requires info.bpp == 1 || info.bpp == 4 || info.bpp == 8
    requires info.impcolours == 0
    ensures TableCount(info) == Ok(Pow2(info.bpp))
    ensures 2 <= Pow2(info.bpp) <= 256
  {
    Pow2Monotone(1, info.bpp);
    Pow2Monotone(info.bpp, 8);
    assert Pow2(8) == 256;
  }

  /**
   * From 9 to 15 bits per pixel without a count of important colours,
   * `1 << bpp` asks for more entries than the 256 the table has.
   */
  lemma {:induction false} WideTableOverflows(info: InfoHeader)
    requires 9 <= info.bpp < 16 && info.impcolours == 0
    ensures TableCount(info).Ok? && TableCount(info).value > 256
  {
    Pow2Monotone(9, info.bpp);
    assert Pow2(9) == 512;
  }

  /** The entry `Bgetc` four times from offset p gives, stored blue, green, red, reserved. */
  function Entry(data: seq<Byte>, p: int): (e: Rgb)
    ensures 0 <= p && p + 4 <= |data| ==> EncodeEntry(e) == data[p..p + 4]
    ensures p >= |data| ==> e == Rgb(0xFF, 0xFF, 0xFF, 0xFF)
  {
    Rgb(ByteAt(data, p), ByteAt(data, p + 1), ByteAt(data, p + 2), ByteAt(data, p + 3))
  }

  /**
   * The table after loading `count` entries from offset `off` over a
   * table that held `stale`: entries past the count keep what they held.
   */
  function Table(data: seq<Byte>, off: int, count: int, stale: seq<Rgb>): (t: seq<Rgb>)
    requires |stale| == 256
    ensures |t| == 256
    ensures forall i :: 0 <= i < 256 && count <= i ==> t[i] == stale[i]
    ensures forall i :: 0 <= i < 256 && i < count && 0 <= off + 4 * i && off + 4 * i + 4 <= |data| ==>
              EncodeEntry(t[i]) == data[off + 4 * i..off + 4 * i + 4]
  {
    seq(256, i requires 0 <= i < 256 => if i < count then Entry(data, off + 4 * i) else stale[i])
  }

  function EncodeEntry(e: Rgb): (b: seq<Byte>)
    ensures |b| == 4
  {
    [e.blue, e.green, e.red, e.alpha]
  }

  /** A colour table as it is written in the file. */
  function EncodePalette(pal: seq<Rgb>): (b: seq<Byte>)
    ensures |b| == 4 * |pal|
  {
    if pal == [] then [] else EncodeEntry(pal[0]) + EncodePalette(pal[1..])
  }

  lemma {:induction false} PaletteAt(pal: seq<Rgb>, i: nat)
    requires i < |pal|
    ensures EncodePalette(pal)[4 * i..4 * i + 4] == EncodeEntry(pal[i])
    decreases i
  {
    var b := EncodePalette(pal);
    assert b == EncodeEntry(pal[0]) + EncodePalette(pal[1..]);
    if i == 0 {
      assert b[..4] == EncodeEntry(pal[0]);
    } else {
      PaletteAt(pal[1..], i - 1);
      assert b[4 * i..4 * i + 4] == EncodePalette(pal[1..])[4 * (i - 1)..4 * (i - 1) + 4];
    }
  }

  /**
   * Loading a written palette gives it back: its entries replace the
   * first ones of the table and the others keep what they held.
   */
  lemma {:induction false} TableOfPalette(data: seq<Byte>, off: nat, pal: seq<Rgb>, stale: seq<Rgb>)
    requires |stale| == 256 && |pal| <= 256
    requires off + 4 * |pal| <= |data| && data[off..off + 4 * |pal|] == EncodePalette(pal)
    ensures Table(data, off, |pal|, stale) == pal + stale[|pal|..]
  {
    var t := Table(data, off, |pal|, stale);
    forall i | 0 <= i < |pal|
      ensures t[i] == pal[i]
    {
      PaletteAt(pal, i);
      var b := EncodePalette(pal);
      var w := data[off..off + 4 * |pal|];
      assert b[4 * i..4 * i + 4] == EncodeEntry(pal[i]);
      assert b[4 * i] == pal[i].blue && b[4 * i + 1] == pal[i].green;
      assert b[4 * i + 2] == pal[i].red && b[4 * i + 3] == pal[i].alpha;
      assert data[off + 4 * i] == w[4 * i];
      assert data[off + 4 * i + 1] == w[4 * i + 1];
      assert data[off + 4 * i + 2] == w[4 * i + 2];
      assert data[off + 4 * i + 3] == w[4 * i + 3];
    }
  }
}
