/**
 * ReadBMP and Breadbmp: parse the headers, load the colour table, pick
 * the decoder by depth and compression, and split the decoded pixels
 * into the red, green and blue planes of a raw image.
 */
module ReadBmp {

  import opened Failures
  import opened Stream
  import opened Bits
  import opened Raster
  import opened Pixels
  import opened Uncompressed
  import opened Rle
  import opened RleEncode
  import opened Header

  /** What ReadBMP hands back: the pixel buffer and the header's width and height. */
  datatype Bitmap = Bitmap(pixels: seq<Rgb>, width: int, height: int)

  /** A buffer of n pixels as calloc returns it. */
  function Blank(n: nat): (s: seq<Rgb>)
    ensures |s| == n && forall j :: 0 <= j < n ==> s[j] == Zero
  {
    seq(n, _ => Zero)
  }

  /** A negative area can only come from a negative width with rows to fill. */
  lemma {:induction false} Area(width: int, height: int)
    requires width * Abs(height) >= 0
    ensures width >= 0 || height == 0
  {
    if width < 0 && height != 0 {
      MulAtLeast(-width, Abs(height));
    }
  }

  /**
   * The colour table after loading `count` entries from just past the
   * info header over a table that held `stale`. More than 256 entries
   * overrun the table. A count of 0 or less reads no entry, whether or not
   * the seek before the loop succeeds. With entries to read, a negative
   * offset makes the seek fail; the C reads on regardless, from a position
   * this model does not know, so the model stops with BadSeek there.
   */
  function LoadTable(data: seq<Byte>, info: InfoHeader, count: int, stale: seq<Rgb>): (r: Result<seq<Rgb>>)
    requires |stale| == 256
    ensures r.Ok? ==> |r.value| == 256
    ensures r.Fail? <==> count > 256 || (0 < count && info.size + Filehdrsz < 0)
    ensures r.Fail? ==> r.error == if count > 256 then TableOverflow else BadSeek
    ensures count <= 0 ==> r == Ok(stale)
    ensures r.Ok? ==> forall i :: 0 <= i < 256 && count <= i ==> r.value[i] == stale[i]
  {
    if count > 256 then Fail(TableOverflow)
    else if count <= 0 then Ok(stale)
    else if info.size + Filehdrsz < 0 then Fail(BadSeek)
    else Ok(Table(data, info.size + Filehdrsz, count, stale))
  }

  /** The pixels the decoder picked by depth and compression leaves in a zeroed buffer. */
  function Dispatch(data: seq<Byte>, info: InfoHeader, pos: nat, clut: seq<Rgb>): (r: Result<seq<Rgb>>)
    requires |clut| == 256 && info.width * Abs(info.height) >= 0
    ensures r.Ok? ==> |r.value| == info.width * Abs(info.height)
  {
    var w, h := info.width, info.height;
    var zero := Blank(w * Abs(h));
    if info.bpp == 1 then
      Ok(Decoded(zero, pos, Stride1(w), w, h, Rows1(data, clut)))
    else if info.bpp == 4 then
      if info.compression == BmpRle4 then Decode(Rle4, data, w, clut, Start(zero, w, h, pos))
      else Ok(Decoded(zero, pos, Stride4(w), w, h, Rows4(data, clut)))
    else if info.bpp == 8 then
      if info.compression == BmpRle8 then Decode(Rle8, data, w, clut, Start(zero, w, h, pos))
      else Ok(Decoded(zero, pos, Stride8(w), w, h, Rows8(data, clut)))
    else if info.bpp == 16 then
      if pos + Abs(h) * Stride16(w) <= |data| then
        Ok(Decoded(zero, pos, Stride16(w), w, h, Rows16(data, clut, info.compression == BmpBitfields)))
      else Fail(Truncated)
    else if info.bpp == 24 then
      Ok(Decoded(zero, pos, Stride24(w), w, h, Rows24(data)))
    else if info.bpp == 32 then
      if pos + Abs(h) * Stride32(w) <= |data| then
        Ok(Decoded(zero, pos, Stride32(w), w, h, Rows32(data, clut, info.compression == BmpBitfields)))
      else Fail(Truncated)
    else
      Ok(zero)
  }

  /**
   * What ReadBMP makes of a file, given what the colour table held
   * before (the C leaves it uninitialised).
   */
  function ReadSpec(data: seq<Byte>, stale: seq<Rgb>): (r: Result<Bitmap>)
    requires |stale| == 256
    ensures R16(data, 0) != Magic ==> r == Fail(BadMagic)
    ensures r.Ok? ==> R16(data, 0) == Magic
    ensures r.Ok? ==> r.value.width == ParseHeaders(data).value.info.width
                      && r.value.height == ParseHeaders(data).value.info.height
    ensures r.Ok? ==> |r.value.pixels| == r.value.width * Abs(r.value.height)
  {
    match ParseHeaders(data)
    case Fail(e) => Fail(e)
    case Ok(h) =>
      match TableCount(h.info)
      case Fail(e) => Fail(e)
      case Ok(count) =>
        match LoadTable(data, h.info, count, stale)
        case Fail(e) => Fail(e)
        case Ok(clut) =>
          var w, ht := h.info.width, h.info.height;
          if w * Abs(ht) < 0 then Fail(NoMemory)
          else if h.file.offbits < 0 then Fail(BadSeek)
          else
            match Dispatch(data, h.info, h.file.offbits, clut)
            case Fail(e) => Fail(e)
            case Ok(px) => Ok(Bitmap(px, w, ht))
  }

  /** The loop that loads the colour table, four `Bgetc`s per entry. */
  method ReadTable(data: seq<Byte>, off: int, count: int, clut: array<Rgb>)
    requires clut.Length == 256 && count <= 256
    modifies clut
    ensures clut[..] == Table(data, off, count, old(clut[..]))
  {
    ghost var stale := clut[..];
    var i := 0;
    var at := off;
    while i < count
      invariant 0 <= i && (i <= count || i == 0)
      invariant at == off + 4 * i
      invariant forall k :: 0 <= k < 256 ==> clut[k] == if k < i then Entry(data, off + 4 * k) else stale[k]
    {
      clut[i] := Rgb(ByteAt(data, at), ByteAt(data, at + 1), ByteAt(data, at + 2), ByteAt(data, at + 3));
      at := at + 4;
      i := i + 1;
    }
    assert forall k :: 0 <= k < 256 ==> clut[..][k] == Table(data, off, count, stale)[k];
  }

  /** ReadBMP: the header, the colour table, the zeroed buffer and the decoder. */
  method ReadBMP(data: seq<Byte>, stale: seq<Rgb>) returns (r: Result<Bitmap>)
    requires |stale| == 256
    ensures r == ReadSpec(data, stale)
  {
    var parsed := ParseHeaders(data);
    if parsed.Fail? {
      return Fail(parsed.error);
    }
    var h := parsed.value;
    var counted := TableCount(h.info);
    if counted.Fail? {
      return Fail(counted.error);
    }
    var count := counted.value;
    if count > 256 {
      return Fail(TableOverflow);
    }
    var clut := new Rgb[256](k requires 0 <= k < 256 => stale[k]);
    assert clut[..] == stale;
    if count > 0 {
      if h.info.size + Filehdrsz < 0 {
        return Fail(BadSeek);
      }
      ReadTable(data, h.info.size + Filehdrsz, count, clut);
    }
    var pal := clut[..];
    assert LoadTable(data, h.info, count, stale) == Ok(pal);
    var width, height := h.info.width, h.info.height;
    var n := width * Abs(height);
    if n < 0 {
      return Fail(NoMemory);
    }
    if h.file.offbits < 0 {
      return Fail(BadSeek);
    }
    var pos: nat := h.file.offbits;
    Area(width, height);
    var buf := new Rgb[n](_ => Zero);
    assert buf[..] == Blank(n);
    var px := Decodes(data, h.info, pos, pal, buf);
    if px.Fail? {
      return Fail(px.error);
    }
    return Ok(Bitmap(buf[..], width, height));
  }

  /** The switch on the depth: runs the decoder Dispatch names over the buffer. */
  method Decodes(data: seq<Byte>, info: InfoHeader, pos: nat, clut: seq<Rgb>, buf: array<Rgb>)
    returns (r: Result<()>)
    requires |clut| == 256 && info.width * Abs(info.height) >= 0
    requires buf.Length == info.width * Abs(info.height) && buf[..] == Blank(buf.Length)
    modifies buf
    ensures Dispatch(data, info, pos, clut) == if r.Ok? then Ok(buf[..]) else Fail(r.error)
  {
    var w, h := info.width, info.height;
    Area(w, h);
    r := Ok(());
    if info.bpp == 1 {
      var _ := Load1T(data, pos, w, h, buf, clut);
    } else if info.bpp == 4 {
      if info.compression == BmpRle4 {
        r := Load4C(data, pos, w, h, buf, clut);
      } else {
        var _ := Load4T(data, pos, w, h, buf, clut);
      }
    } else if info.bpp == 8 {
      if info.compression == BmpRle8 {
        r := Load8C(data, pos, w, h, buf, clut);
      } else {
        var _ := Load8T(data, pos, w, h, buf, clut);
      }
    } else if info.bpp == 16 {
      if pos + Abs(h) * Stride16(w) > |data| {
        return Fail(Truncated);
      }
      var _ := Load16(data, pos, w, h, buf, clut, info.compression == BmpBitfields);
    } else if info.bpp == 24 {
      var _ := Load24T(data, pos, w, h, buf);
    } else if info.bpp == 32 {
      if pos + Abs(h) * Stride32(w) > |data| {
        return Fail(Truncated);
      }
      var _ := Load32(data, pos, w, h, buf, clut, info.compression == BmpBitfields);
    }
  }

  /** ReadSpec succeeds when each of its stages does. */
  lemma {:induction false} ReadSpecOk(data: seq<Byte>, stale: seq<Rgb>, h: Headers, count: int, clut: seq<Rgb>, px: seq<Rgb>)
    requires |stale| == 256 && |clut| == 256
    requires ParseHeaders(data) == Ok(h) && TableCount(h.info) == Ok(count)
    requires LoadTable(data, h.info, count, stale) == Ok(clut)
    requires h.file.offbits >= 0 && h.info.width * Abs(h.info.height) >= 0
    requires Dispatch(data, h.info, h.file.offbits, clut) == Ok(px)
    ensures ReadSpec(data, stale) == Ok(Bitmap(px, h.info.width, h.info.height))
  {
  }

  /**
   * A negative pixel count is the failed allocation, whatever the bitmap
   * offset: the C never reaches its seek to the pixel data.
   */
  lemma {:induction false} ReadSpecNoMemory(data: seq<Byte>, stale: seq<Rgb>, h: Headers, count: int, clut: seq<Rgb>)
    requires |stale| == 256
    requires ParseHeaders(data) == Ok(h) && TableCount(h.info) == Ok(count)
    requires LoadTable(data, h.info, count, stale) == Ok(clut)
    requires h.info.width * Abs(h.info.height) < 0
    ensures ReadSpec(data, stale) == Fail(NoMemory)
  {
  }

  /** A 4-bit RLE4 or 8-bit RLE8 image goes to the run-length decoder, over a zeroed buffer. */
  lemma {:induction false} DispatchRle(mode: Mode, data: seq<Byte>, info: InfoHeader, pos: nat, clut: seq<Rgb>)
    requires |clut| == 256 && info.width * Abs(info.height) >= 0
    requires info.bpp == (if mode == Rle8 then 8 else 4)
    requires info.compression == (if mode == Rle8 then BmpRle8 else BmpRle4)
    ensures Dispatch(data, info, pos, clut)
            == Decode(mode, data, info.width, clut, Start(Blank(info.width * Abs(info.height)), info.width, info.height, pos))
  {
  }

  /**
   * A file that is Windows headers, then a palette naming |pal| important
   * colours, then the pixel data at the offset just past the palette: the
   * headers parse back, the palette replaces the first entries of the
   * table, and the decoder is handed the pixel data.
   */
  lemma {:induction false} PaletteFile(h: Headers, pal: seq<Rgb>, pixels: seq<Byte>, stale: seq<Rgb>)
    requires |stale| == 256 && Encodable(h) && h.info.size == 40 && h.info.bpp < 16
    requires h.info.impcolours == |pal| && 0 < |pal| <= 256
    requires h.file.offbits == 54 + 4 * |pal|
    ensures ParseHeaders(EncodeHeaders(h) + EncodePalette(pal) + pixels) == Ok(h)
    ensures TableCount(h.info) == Ok(|pal|)
    ensures LoadTable(EncodeHeaders(h) + EncodePalette(pal) + pixels, h.info, |pal|, stale)
            == Ok(pal + stale[|pal|..])
    ensures (EncodeHeaders(h) + EncodePalette(pal) + pixels)[h.file.offbits..] == pixels
  {
    var hdr, table := EncodeHeaders(h), EncodePalette(pal);
    var data := hdr + table + pixels;
    assert data == hdr + (table + pixels);
    ParseEncode(h, table + pixels);
    assert data[54..54 + 4 * |pal|] == table;
    TableOfPalette(data, 54, pal, stale);
  }

  /** Pixel data at pos that is the reference encoder's codes for a run-length image dispatches to that image. */
  lemma {:induction false} RleDecodes(mode: Mode, data: seq<Byte>, info: InfoHeader, pos: nat, idx: seq<int>, clut: seq<Rgb>)
    requires |clut| == 256 && info.width > 0 && info.height > 0
    requires info.bpp == (if mode == Rle8 then 8 else 4)
    requires info.compression == (if mode == Rle8 then BmpRle8 else BmpRle4)
    requires ValidIndices(mode, idx) && |idx| == info.width * info.height
    requires pos <= |data| && data[pos..] == Encode(mode, idx, info.width, info.height)
    ensures Dispatch(data, info, pos, clut) == Ok(Image(clut, idx))
  {
    assert info.width * Abs(info.height) == |idx|;
    DecodeEncode(mode, data, pos, idx, info.width, info.height, clut, Blank(|idx|));
    DispatchRle(mode, data, info, pos, clut);
  }

  /**
   * A whole run-length file: the headers, a palette of |pal| colours
   * right after them, and the codes of the reference encoder right after
   * the palette. ReadBMP returns the image the colour indices name, looked
   * up in the palette loaded over the table's earlier contents.
   */
  lemma {:induction false} ReadRleFile(mode: Mode, h: Headers, pal: seq<Rgb>, idx: seq<int>, stale: seq<Rgb>)
    requires |stale| == 256 && Encodable(h) && h.info.size == 40
    requires h.info.bpp == (if mode == Rle8 then 8 else 4)
    requires h.info.compression == (if mode == Rle8 then BmpRle8 else BmpRle4)
    requires h.info.impcolours == |pal| && 0 < |pal| <= 256
    requires h.file.offbits == 54 + 4 * |pal|
    requires h.info.width > 0 && h.info.height > 0
    requires ValidIndices(mode, idx) && |idx| == h.info.width * h.info.height
    ensures ReadSpec(EncodeHeaders(h) + EncodePalette(pal) + Encode(mode, idx, h.info.width, h.info.height), stale)
            == Ok(Bitmap(Image(pal + stale[|pal|..], idx), h.info.width, h.info.height))
  {
    var codes := Encode(mode, idx, h.info.width, h.info.height);
    var data := EncodeHeaders(h) + EncodePalette(pal) + codes;
    PaletteFile(h, pal, codes, stale);
    var clut := pal + stale[|pal|..];
    RleDecodes(mode, data, h.info, h.file.offbits, idx, clut);
    ReadSpecOk(data, stale, h, |pal|, clut, Image(clut, idx));
  }

  // Breadbmp: the channel split.

  /** The colour space a caller asks for; only CRGB is decoded. */
  datatype ColourSpace = CRGB | OtherSpace(code: int)

  datatype Rectangle = Rect(minx: int, miny: int, maxx: int, maxy: int)

  /** The fields of the raw image Breadbmp fills in: one plane of bytes per channel. */
  datatype Rawimage = Rawimage(r: Rectangle, chans: seq<seq<Byte>>, nchans: int, chanlen: int, chandesc: ColourSpace)

  /** Channel c of a pixel: 0 red, 1 green, 2 blue. */
  function Channel(p: Rgb, c: nat): Byte
  {
    if c == 0 then p.red else if c == 1 then p.green else p.blue
  }

  function Plane(px: seq<Rgb>, c: nat): (s: seq<Byte>)
    ensures |s| == |px|
  {
    seq(|px|, k requires 0 <= k < |px| => Channel(px[k], c))
  }

  predicate WellFormed(raw: Rawimage)
  {
    raw.nchans == |raw.chans| && 0 <= raw.chanlen
    && forall c :: 0 <= c < |raw.chans| ==> |raw.chans[c]| == raw.chanlen
  }

  /** Pixel k put back together from the three planes; the planes carry no alpha. */
  function Merge(raw: Rawimage, k: int): Rgb
    requires WellFormed(raw) && raw.nchans == 3 && 0 <= k < raw.chanlen
  {
    Rgb(raw.chans[2][k], raw.chans[1][k], raw.chans[0][k], 0)
  }

  /** width * height, when it is positive, is the whole buffer ReadBMP returned. */
  lemma {:induction false} WholeImage(width: int, height: int)
    requires width * Abs(height) >= 0 && width * height > 0
    ensures height > 0 && width * height == width * Abs(height)
  {
  }

  /**
   * The planes of a decoded bitmap. `calloc(width, height)` fails when the
   * product is negative; when it is 0 the do-while still copies one pixel,
   * past the end of every buffer.
   */
  function Split(bmp: Bitmap): (r: Result<Rawimage>)
    requires |bmp.pixels| == bmp.width * Abs(bmp.height)
    ensures r.Fail? <==> bmp.width * bmp.height <= 0
    ensures r.Fail? ==> r.error == if bmp.width * bmp.height < 0 then NoMemory else OutOfBounds
    ensures r.Ok? ==> WellFormed(r.value) && r.value.nchans == 3 && r.value.chanlen == |bmp.pixels|
    ensures r.Ok? ==> forall k :: 0 <= k < |bmp.pixels| ==> Merge(r.value, k) == bmp.pixels[k].(alpha := 0)
    ensures r.Ok? ==> r.value.r == Rect(0, 0, bmp.width, bmp.height) && r.value.chandesc == CRGB
  {
    var n := bmp.width * bmp.height;
    if n < 0 then Fail(NoMemory)
    else if n == 0 then Fail(OutOfBounds)
    else
      WholeImage(bmp.width, bmp.height);
      var px := bmp.pixels;
      Ok(Rawimage(Rect(0, 0, bmp.width, bmp.height), [Plane(px, 0), Plane(px, 1), Plane(px, 2)], 3, n, CRGB))
  }

  /** What Breadbmp returns for a file and a requested colour space. */
  function BreadSpec(data: seq<Byte>, colourspace: ColourSpace, stale: seq<Rgb>): (r: Result<Rawimage>)
    requires |stale| == 256
    ensures colourspace != CRGB ==> r == Fail(UnknownColourSpace)
    ensures r.Ok? ==> ReadSpec(data, stale).Ok? && Split(ReadSpec(data, stale).value) == r
  {
    if colourspace != CRGB then Fail(UnknownColourSpace)
    else
      match ReadSpec(data, stale)
      case Fail(e) => Fail(e)
      case Ok(bmp) => Split(bmp)
  }

  lemma {:induction false} Negate(a: int, b: int)
    ensures a * -b == -(a * b)
  {
  }

  /**
   * A top-down bitmap (negative height) with pixels decodes, but its
   * planes are never made: `calloc(width, height)` gets the negative
   * height.
   */
  lemma {:induction false} TopDownRejected(bmp: Bitmap)
    requires |bmp.pixels| == bmp.width * Abs(bmp.height) > 0 && bmp.height < 0
    ensures Split(bmp) == Fail(NoMemory)
  {
    Negate(bmp.width, bmp.height);
  }

  /** The do-while that copies every pixel's channels into three fresh planes. */
  method CopyPlanes(px: seq<Rgb>) returns (red: seq<Byte>, green: seq<Byte>, blue: seq<Byte>)
    requires |px| > 0
    ensures red == Plane(px, 0) && green == Plane(px, 1) && blue == Plane(px, 2)
  {
    var n := |px|;
    var r := new Byte[n];
    var g := new Byte[n];
    var b := new Byte[n];
    var s := 0;
    while true
      invariant 0 <= s < n
      invariant forall k :: 0 <= k < s ==> r[k] == px[k].red && g[k] == px[k].green && b[k] == px[k].blue
      decreases n - s
    {
      r[s], g[s], b[s] := px[s].red, px[s].green, px[s].blue;
      s := s + 1;
      if s >= n {
        break;
      }
    }
    red, green, blue := r[..], g[..], b[..];
    assert forall k :: 0 <= k < n ==> red[k] == Plane(px, 0)[k];
    assert forall k :: 0 <= k < n ==> green[k] == Plane(px, 1)[k];
    assert forall k :: 0 <= k < n ==> blue[k] == Plane(px, 2)[k];
  }

  /** Breadbmp: refuse other colour spaces, read the bitmap, copy it plane by plane. */
  method Breadbmp(data: seq<Byte>, colourspace: ColourSpace, stale: seq<Rgb>) returns (r: Result<Rawimage>)
    requires |stale| == 256
    ensures r == BreadSpec(data, colourspace, stale)
  {
    if colourspace != CRGB {
      return Fail(UnknownColourSpace);
    }
    var read := ReadBMP(data, stale);
    if read.Fail? {
      return Fail(read.error);
    }
    var bmp := read.value;
    var n := bmp.width * bmp.height;
    if n < 0 {
      return Fail(NoMemory);
    }
    if n == 0 {
      return Fail(OutOfBounds);
    }
    WholeImage(bmp.width, bmp.height);
    var red, green, blue := CopyPlanes(bmp.pixels);
    r := Ok(Rawimage(Rect(0, 0, bmp.width, bmp.height), [red, green, blue], 3, n, CRGB));
  }
}
