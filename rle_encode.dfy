/**
 * A reference encoder for the two run-length formats and the proof that
 * the decoder inverts it. Each row is cut into codes from its left end:
 * a run code for the longest run starting there (one colour in RLE8, two
 * alternating colours in RLE4), unless that run is shorter than is worth
 * a run and at least three pixels are left, in which case a literal code
 * takes the pixels up to the next run worth coding, followed by its pad.
 * Every row ends with an end-of-line code, and the last row written with
 * end-of-bitmap. Rows are written from the top row of the buffer
 * (height - 1, where the decoder starts) down to a row `last`; the rows
 * below `last` are left to the end-of-bitmap code.
 */
module RleEncode {

  import opened Failures
  import opened Stream
  import opened Bits
  import opened Pixels
  import opened Rle

  /** How many colours a pixel code can name: 256 for RLE8, 16 for RLE4. */
  function Colours(mode: Mode): nat
  {
    match mode
    case Rle8 => 256
    case Rle4 => 16
  }

  predicate ValidIndices(mode: Mode, idx: seq<int>)
  {
    forall j :: 0 <= j < |idx| ==> 0 <= idx[j] < Colours(mode)
  }

  /** The image the colour indices idx stand for. */
  function Image(clut: seq<Rgb>, idx: seq<int>): (img: seq<Rgb>)
    requires |clut| == 256 && forall j :: 0 <= j < |idx| ==> 0 <= idx[j] < 256
    ensures |img| == |idx|
  {
    seq(|idx|, j requires 0 <= j < |idx| => clut[idx[j]])
  }

  /**
   * The buffer after drawing the image from index `from` on over cells0:
   * the cells below `from` keep what they held.
   */
  function Target(clut: seq<Rgb>, idx: seq<int>, cells0: seq<Rgb>, from: int): (t: seq<Rgb>)
    requires |clut| == 256 && |cells0| == |idx| && forall j :: 0 <= j < |idx| ==> 0 <= idx[j] < 256
    ensures |t| == |idx|
  {
    seq(|idx|, j requires 0 <= j < |idx| => if j >= from then clut[idx[j]] else cells0[j])
  }

  // Choosing the codes.

  /** Pixel t of a run whose value byte holds the colours a and b: RLE8 repeats a, RLE4 alternates a and b. */
  function RunColour(mode: Mode, a: int, b: int, t: int): int
  {
    match mode
    case Rle8 => a
    case Rle4 => if t % 2 == 0 then a else b
  }

  /** The value byte of a run of the colours a and b (RLE4 keeps a in the high nibble). */
  function RunByte(mode: Mode, a: int, b: int): Byte
    requires 0 <= a < Colours(mode) && 0 <= b < Colours(mode)
  {
    match mode
    case Rle8 => a
    case Rle4 => 16 * a + b
  }

  /** The shortest run worth a run code; in RLE4 any two pixels make a run, so it takes three. */
  function MinRun(mode: Mode): nat
  {
    match mode
    case Rle8 => 2
    case Rle4 => 3
  }

  /**
   * The run of the colours a, b from index s, known to hold for k pixels,
   * extended as far as it goes: to the end of the row (index end), to 255
   * pixels, or to the first pixel that breaks it.
   */
  function RunLen(mode: Mode, idx: seq<int>, s: nat, end: nat, a: int, b: int, k: nat): (n: nat)
    requires s + k <= end <= |idx| && 1 <= k <= 255
    ensures k <= n <= 255 && s + n <= end
    decreases 255 - k
  {
    if k == 255 || s + k == end || idx[s + k] != RunColour(mode, a, b, k) then k
    else RunLen(mode, idx, s, end, a, b, k + 1)
  }

  /**
   * A run that holds for k pixels extends to one of n pixels that is
   * maximal: it stops only at 255 pixels, at the end of the row, or at a
   * pixel that breaks it.
   */
  lemma {:induction false} RunLenSpec(mode: Mode, idx: seq<int>, s: nat, end: nat, a: int, b: int, k: nat)
    requires s + k <= end <= |idx| && 1 <= k <= 255
    requires forall t :: 0 <= t < k ==> idx[s + t] == RunColour(mode, a, b, t)
    ensures var n := RunLen(mode, idx, s, end, a, b, k);
            && (forall t :: 0 <= t < n ==> idx[s + t] == RunColour(mode, a, b, t))
            && (n == 255 || s + n == end || idx[s + n] != RunColour(mode, a, b, n))
    decreases 255 - k
  {
    if !(k == 255 || s + k == end || idx[s + k] != RunColour(mode, a, b, k)) {
      RunLenSpec(mode, idx, s, end, a, b, k + 1);
    }
  }

  /** The colour after index s in its row, or 0 at the end of the row. */
  function Second(idx: seq<int>, s: nat, end: nat): int
    requires s < end <= |idx|
  {
    if s + 1 < end then idx[s + 1] else 0
  }

  /** The longest run starting at index s: its first colour and, in RLE4, the one after it. */
  function RunFrom(mode: Mode, idx: seq<int>, s: nat, end: nat): (n: nat)
    requires s < end <= |idx|
    ensures 1 <= n <= 255 && s + n <= end
  {
    RunLen(mode, idx, s, end, idx[s], Second(idx, s, end), 1)
  }

  /** A literal from index s, known to be n pixels long, extended up to the next run worth coding. */
  function LiteralLen(mode: Mode, idx: seq<int>, s: nat, end: nat, n: nat): (m: nat)
    requires s + n <= end <= |idx| && 1 <= n <= 255
    ensures n <= m <= 255 && s + m <= end
    decreases 255 - n
  {
    if n == 255 || s + n == end || RunFrom(mode, idx, s + n, end) >= MinRun(mode) then n
    else LiteralLen(mode, idx, s, end, n + 1)
  }

  /** A code's kind and length: a run of n pixels of colours a and b, or a literal of n pixels. */
  datatype Chunk = RunOf(n: nat, a: int, b: int) | LiteralOf(n: nat)

  /** The code written for the pixels from index s on. */
  function Choose(mode: Mode, idx: seq<int>, s: nat, end: nat): (ch: Chunk)
    requires s < end <= |idx|
    ensures 1 <= ch.n <= 255 && s + ch.n <= end
    ensures ch.LiteralOf? ==> 3 <= ch.n
    ensures ch.RunOf? ==> ch.a == idx[s] && ch.b == Second(idx, s, end)
  {
    var k := RunFrom(mode, idx, s, end);
    if k >= MinRun(mode) || end - s < 3 then RunOf(k, idx[s], Second(idx, s, end))
    else LiteralOf(LiteralLen(mode, idx, s, end, 3))
  }

  /** A run code covers a maximal run: it stops only at 255 pixels, at the end of the row or at a pixel that breaks it. */
  lemma {:induction false} ChooseRun(mode: Mode, idx: seq<int>, s: nat, end: nat)
    requires s < end <= |idx|
    ensures var ch := Choose(mode, idx, s, end);
            ch.RunOf? ==> && (forall t :: 0 <= t < ch.n ==> idx[s + t] == RunColour(mode, ch.a, ch.b, t))
                          && (ch.n == 255 || s + ch.n == end || idx[s + ch.n] != RunColour(mode, ch.a, ch.b, ch.n))
  {
    var a, b := idx[s], Second(idx, s, end);
    assert idx[s + 0] == RunColour(mode, a, b, 0);
    RunLenSpec(mode, idx, s, end, a, b, 1);
  }

  /** A literal code is chosen only where no run worth coding starts, and it stops where one does (or at 255 pixels, or at the end of the row). */
  lemma {:induction false} ChooseLiteral(mode: Mode, idx: seq<int>, s: nat, end: nat)
    requires s < end <= |idx|
    ensures var ch := Choose(mode, idx, s, end);
            ch.LiteralOf? ==> && RunFrom(mode, idx, s, end) < MinRun(mode)
                              && (ch.n == 255 || s + ch.n == end || RunFrom(mode, idx, s + ch.n, end) >= MinRun(mode))
  {
    if !(RunFrom(mode, idx, s, end) >= MinRun(mode) || end - s < 3) {
      LiteralLenSpec(mode, idx, s, end, 3);
    }
  }

  lemma {:induction false} LiteralLenSpec(mode: Mode, idx: seq<int>, s: nat, end: nat, n: nat)
    requires s + n <= end <= |idx| && 1 <= n <= 255
    ensures var m := LiteralLen(mode, idx, s, end, n);
            m == 255 || s + m == end || RunFrom(mode, idx, s + m, end) >= MinRun(mode)
    decreases 255 - n
  {
    if !(n == 255 || s + n == end || RunFrom(mode, idx, s + n, end) >= MinRun(mode)) {
      LiteralLenSpec(mode, idx, s, end, n + 1);
    }
  }

  // Chunks: how a row is cut into codes.

  /** The chunk ch fits the pixels from index s on: a run matches their colours, a literal has at least three. */
  predicate ChunkFits(mode: Mode, idx: seq<int>, s: nat, ch: Chunk)
  {
    && 1 <= ch.n <= 255 && s + ch.n <= |idx|
    && match ch
       case RunOf(n, a, b) =>
         && 0 <= a < Colours(mode) && 0 <= b < Colours(mode)
         && forall t :: 0 <= t < n ==> idx[s + t] == RunColour(mode, a, b, t)
       case LiteralOf(n) => 3 <= n
  }

  /** The chunks fit one after the other from index s and end exactly at index end. */
  predicate Covers(mode: Mode, idx: seq<int>, s: nat, end: nat, chunks: seq<Chunk>)
    decreases |chunks|
  {
    if chunks == [] then s == end
    else ChunkFits(mode, idx, s, chunks[0]) && s + chunks[0].n <= end && Covers(mode, idx, s + chunks[0].n, end, chunks[1..])
  }

  /** The chunks the encoder cuts indices s .. end - 1 into. */
  function RowChunks(mode: Mode, idx: seq<int>, s: nat, end: nat): seq<Chunk>
    requires s <= end <= |idx|
    decreases end - s
  {
    if s == end then []
    else [Choose(mode, idx, s, end)] + RowChunks(mode, idx, s + Choose(mode, idx, s, end).n, end)
  }

  /** A chunk that fits at s, followed by chunks covering the rest, covers s .. end - 1. */
  lemma {:induction false} CoversCons(mode: Mode, idx: seq<int>, s: nat, end: nat, ch: Chunk, rest: seq<Chunk>)
    requires ChunkFits(mode, idx, s, ch) && s + ch.n <= end && Covers(mode, idx, s + ch.n, end, rest)
    ensures Covers(mode, idx, s, end, [ch] + rest)
  {
    assert ([ch] + rest)[1..] == rest;
  }

  /** The chunk the encoder chooses at s fits the pixels there. */
  lemma {:induction false} ChooseFits(mode: Mode, idx: seq<int>, s: nat, end: nat)
    requires ValidIndices(mode, idx) && s < end <= |idx|
    ensures ChunkFits(mode, idx, s, Choose(mode, idx, s, end))
  {
    ChooseRun(mode, idx, s, end);
  }

  /** If the encoder's chunks after the one it chooses at s cover the rest of the row, its chunks from s cover the row from s. */
  lemma {:induction false} RowChunksStep(mode: Mode, idx: seq<int>, s: nat, next: nat, end: nat)
    requires ValidIndices(mode, idx) && s < end <= |idx| && next == s + Choose(mode, idx, s, end).n
    requires Covers(mode, idx, next, end, RowChunks(mode, idx, next, end))
    ensures Covers(mode, idx, s, end, RowChunks(mode, idx, s, end))
  {
    ChooseFits(mode, idx, s, end);
    CoversCons(mode, idx, s, end, Choose(mode, idx, s, end), RowChunks(mode, idx, next, end));
  }

  /** The encoder's chunks cover the row exactly. */
  lemma {:induction false} RowChunksCover(mode: Mode, idx: seq<int>, s: nat, end: nat)
    requires ValidIndices(mode, idx) && s <= end <= |idx|
    ensures Covers(mode, idx, s, end, RowChunks(mode, idx, s, end))
    decreases end - s
  {
    if s < end {
      var next := s + Choose(mode, idx, s, end).n;
      RowChunksCover(mode, idx, next, end);
      RowChunksStep(mode, idx, s, next, end);
    }
  }

  // Writing the codes.

  /** The byte holding literal pixels 2m and 2m + 1 of an RLE4 literal of n pixels from index s. */
  function PackedPair(idx: seq<int>, s: nat, n: nat, m: nat): (v: Byte)
    requires ValidIndices(Rle4, idx) && s + n <= |idx| && 2 * m < n
  {
    16 * idx[s + 2 * m] + (if 2 * m + 1 < n then idx[s + 2 * m + 1] else 0)
  }

  /**
   * Byte i of the code of chunk ch at index s: a run's count and colour
   * byte; a literal's escape, count, pixel bytes (one index per byte in
   * RLE8, two per byte in RLE4) and a zero pad byte.
   */
  function CodeByte(mode: Mode, idx: seq<int>, s: nat, ch: Chunk, i: nat): Byte
    requires ValidIndices(mode, idx) && ChunkFits(mode, idx, s, ch) && i < CodeLen(mode, ch)
  {
    match ch
    case RunOf(n, a, b) => if i == 0 then n else RunByte(mode, a, b)
    case LiteralOf(n) =>
      if i == 0 then 0
      else if i == 1 then n
      else
        match mode
        case Rle8 => if i - 2 < n then idx[s + (i - 2)] else 0
        case Rle4 => if i - 2 < (n + 1) / 2 then PackedPair(idx, s, n, i - 2) else 0
  }

  /** The first k bytes of the code of chunk ch at index s. */
  function CodeBytes(mode: Mode, idx: seq<int>, s: nat, ch: Chunk, k: nat): (b: seq<Byte>)
    requires ValidIndices(mode, idx) && ChunkFits(mode, idx, s, ch) && k <= CodeLen(mode, ch)
    ensures |b| == k
  {
    if k == 0 then [] else CodeBytes(mode, idx, s, ch, k - 1) + [CodeByte(mode, idx, s, ch, k - 1)]
  }

  /** The bytes of the chunk ch at index s. */
  function ChunkBytes(mode: Mode, idx: seq<int>, s: nat, ch: Chunk): (b: seq<Byte>)
    requires ValidIndices(mode, idx) && ChunkFits(mode, idx, s, ch)
  {
    CodeBytes(mode, idx, s, ch, CodeLen(mode, ch))
  }

  /** The bytes of the chunks from index s on. */
  function ChunksBytes(mode: Mode, idx: seq<int>, s: nat, end: nat, chunks: seq<Chunk>): (b: seq<Byte>)
    requires ValidIndices(mode, idx) && Covers(mode, idx, s, end, chunks)
    decreases |chunks|
  {
    if chunks == [] then []
    else ChunkBytes(mode, idx, s, chunks[0]) + ChunksBytes(mode, idx, s + chunks[0].n, end, chunks[1..])
  }

  /** The code closing a row: end of bitmap after the last row, end of line after the others. */
  function EndCode(eob: bool): seq<Byte>
  {
    if eob then [0, 1] else [0, 0]
  }

  /** The chunks the encoder cuts the rows from buffer index base down to lo into, top row first. */
  function Tiles(mode: Mode, idx: seq<int>, width: nat, base: int, lo: nat): (t: seq<seq<Chunk>>)
    requires ValidIndices(mode, idx) && width > 0 && base + width <= |idx|
    ensures (t == []) == (base < lo)
    decreases base + width - lo
  {
    if base < lo then []
    else [RowChunks(mode, idx, base, base + width)] + Tiles(mode, idx, width, base - width, lo)
  }

  /** Each of rows is cut into chunks covering exactly its width, the first row starting at buffer index base and each next one a row lower. */
  predicate RowsCover(mode: Mode, idx: seq<int>, width: nat, base: int, rows: seq<seq<Chunk>>)
    decreases |rows|
  {
    rows != [] ==>
      && 0 <= base && base + width <= |idx|
      && Covers(mode, idx, base, base + width, rows[0])
      && RowsCover(mode, idx, width, base - width, rows[1..])
  }

  /** The codes of rows, each row's chunks followed by its closing code. */
  function RowsBytes(mode: Mode, idx: seq<int>, width: nat, base: int, rows: seq<seq<Chunk>>): seq<Byte>
    requires ValidIndices(mode, idx) && RowsCover(mode, idx, width, base, rows)
    decreases |rows|
  {
    if rows == [] then []
    else ChunksBytes(mode, idx, base, base + width, rows[0]) + (EndCode(|rows| == 1) + RowsBytes(mode, idx, width, base - width, rows[1..]))
  }

  /** A first row covered at base, followed by rows covered from a row lower, are rows covered from base. */
  lemma {:induction false} RowsCoverCons(mode: Mode, idx: seq<int>, width: nat, base: int, row: seq<Chunk>, rest: seq<seq<Chunk>>)
    requires 0 <= base && base + width <= |idx| && Covers(mode, idx, base, base + width, row)
    requires RowsCover(mode, idx, width, base - width, rest)
    ensures RowsCover(mode, idx, width, base, [row] + rest)
  {
    assert ([row] + rest)[1..] == rest;
  }

  /** If the encoder's cuts of the rows below base cover them, its cuts from base down cover those rows too. */
  lemma {:induction false} TilesStep(mode: Mode, idx: seq<int>, width: nat, base: int, lo: nat)
    requires ValidIndices(mode, idx) && width > 0 && lo <= base && base + width <= |idx|
    requires RowsCover(mode, idx, width, base - width, Tiles(mode, idx, width, base - width, lo))
    ensures RowsCover(mode, idx, width, base, Tiles(mode, idx, width, base, lo))
  {
    RowChunksCover(mode, idx, base, base + width);
    RowsCoverCons(mode, idx, width, base, RowChunks(mode, idx, base, base + width), Tiles(mode, idx, width, base - width, lo));
  }

  /** The encoder's cuts of the rows from buffer index base down to lo cover those rows. */
  lemma {:induction false} TilesCover(mode: Mode, idx: seq<int>, width: nat, base: int, lo: nat)
    requires ValidIndices(mode, idx) && width > 0 && base + width <= |idx|
    ensures RowsCover(mode, idx, width, base, Tiles(mode, idx, width, base, lo))
    decreases base + width - lo
  {
    if base >= lo {
      TilesCover(mode, idx, width, base - width, lo);
      TilesStep(mode, idx, width, base, lo);
    }
  }

  /** The stream for rows height - 1 down to last of a width x height image stored bottom-up in idx. */
  function EncodeTop(mode: Mode, idx: seq<int>, width: nat, height: nat, last: nat): seq<Byte>
    requires ValidIndices(mode, idx) && width > 0 && |idx| == width * height
  {
    MulMonotone(0, last, width);
    MulPred(height, height - 1, width);
    TilesCover(mode, idx, width, (height - 1) * width, last * width);
    RowsBytes(mode, idx, width, (height - 1) * width, Tiles(mode, idx, width, (height - 1) * width, last * width))
  }

  /** The stream for the whole image. */
  function Encode(mode: Mode, idx: seq<int>, width: nat, height: nat): seq<Byte>
    requires ValidIndices(mode, idx) && width > 0 && |idx| == width * height
  {
    EncodeTop(mode, idx, width, height, 0)
  }

  // Decoding one code.

  /** What decoding the code for the pixels from column ix of row iy does: it draws them and nothing else. */
  ghost predicate Drew(c: Cursor, r: Result<Cursor>, clut: seq<Rgb>, idx: seq<int>, s: nat, n: nat, len: nat)
    requires |clut| == 256 && |c.cells| == |idx| && forall j :: 0 <= j < |idx| ==> 0 <= idx[j] < 256
  {
    && r.Ok? && r.value.ix == c.ix + n && r.value.iy == c.iy && r.value.pos == c.pos + len
    && |r.value.cells| == |c.cells|
    && (forall j :: s <= j < s + n && j < |idx| ==> r.value.cells[j] == clut[idx[j]])
    && (forall j :: 0 <= j < |c.cells| && !(s <= j < s + n) ==> r.value.cells[j] == c.cells[j])
  }

  /** How many bytes the code of chunk ch takes, its escape and pad included. */
  function CodeLen(mode: Mode, ch: Chunk): nat
  {
    match ch
    case RunOf(_, _, _) => 2
    case LiteralOf(n) =>
      match mode
      case Rle8 => 2 + n + Pad8(n)
      case Rle4 => 2 + (n + 1) / 2 + Pad4(n)
  }

  /** The data holds the bytes b from pos on. */
  ghost predicate BytesAt(data: seq<Byte>, pos: nat, b: seq<Byte>)
  {
    pos + |b| <= |data| && data[pos..pos + |b|] == b
  }

  /** Bytes a + b from pos on are a from pos on and b right after them. */
  lemma {:induction false} BytesSplit(data: seq<Byte>, pos: nat, a: seq<Byte>, b: seq<Byte>)
    requires BytesAt(data, pos, a + b)
    ensures BytesAt(data, pos, a) && BytesAt(data, pos + |a|, b)
  {
    forall i | 0 <= i < |a|
      ensures data[pos + i] == a[i]
    {
      assert (a + b)[i] == a[i];
    }
    forall i | 0 <= i < |b|
      ensures data[pos + |a| + i] == b[i]
    {
      assert data[pos + (|a| + i)] == (a + b)[|a| + i];
    }
  }

  /** A suffix of the data equal to b holds b byte by byte. */
  lemma {:induction false} SuffixBytes(data: seq<Byte>, pos: nat, b: seq<Byte>)
    requires pos <= |data| && data[pos..] == b
    ensures BytesAt(data, pos, b)
  {
    forall i | 0 <= i < |b|
      ensures data[pos + i] == b[i]
    {
      assert data[pos + i] == data[pos..][i];
    }
  }

  /**
   * The code of chunk ch, for the pixels from index s on, sits in the data
   * at pos: a run's count and colour byte, or a literal's escape, count and
   * pixel bytes (one index per byte in RLE8, two per byte in RLE4); the
   * pad is not constrained, as the decoder skips it.
   */
  ghost predicate ChunkAt(mode: Mode, data: seq<Byte>, idx: seq<int>, pos: nat, s: nat, ch: Chunk)
  {
    && ValidIndices(mode, idx) && ChunkFits(mode, idx, s, ch)
    && pos + CodeLen(mode, ch) <= |data|
    && match ch
       case RunOf(n, a, b) => data[pos] == n && data[pos + 1] == RunByte(mode, a, b)
       case LiteralOf(n) =>
         && data[pos] == 0 && data[pos + 1] == n
         && match mode
            case Rle8 => forall j :: pos + 2 <= j < pos + 2 + n ==> data[j] == idx[s + (j - (pos + 2))]
            case Rle4 => forall j :: pos + 2 <= j < pos + 2 + (n + 1) / 2 ==> data[j] == PackedPair(idx, s, n, j - (pos + 2))
  }

  /** A chunk's code draws the chunk's pixels and nothing else, and is read whole. */
  lemma {:induction false} ChunkStep(mode: Mode, data: seq<Byte>, width: nat, clut: seq<Rgb>, idx: seq<int>,
                                     c: Cursor, s: nat, ch: Chunk)
    requires |clut| == 256 && |c.cells| == |idx| && Index(c, width) == s && ChunkAt(mode, data, idx, c.pos, s, ch)
    ensures Drew(c, Step(mode, data, width, clut, c), clut, idx, s, ch.n, CodeLen(mode, ch))
  {
    match ch
    case RunOf(n, a, b) =>
      RunStep(mode, data, width, clut, idx, c, s, n, a, b);
    case LiteralOf(n) =>
      match mode
      case Rle8 =>
        Literal8Step(data, width, clut, idx, c, s, n);
      case Rle4 =>
        Literal4Step(data, width, clut, idx, c, s, n);
  }

  /** Byte i of the first k bytes of a chunk's code is CodeByte i. */
  lemma {:induction false} CodeBytesIndex(mode: Mode, idx: seq<int>, s: nat, ch: Chunk, k: nat, i: nat)
    requires ValidIndices(mode, idx) && ChunkFits(mode, idx, s, ch) && i < k <= CodeLen(mode, ch)
    ensures CodeBytes(mode, idx, s, ch, k)[i] == CodeByte(mode, idx, s, ch, i)
    decreases k
  {
    if i < k - 1 {
      CodeBytesIndex(mode, idx, s, ch, k - 1, i);
    }
  }

  /** Colour t of a run byte v of the colours a and b is what the decoder reads from v. */
  lemma {:induction false} RunNibbles(mode: Mode, a: int, b: int, t: int)
    requires 0 <= a < Colours(mode) && 0 <= b < Colours(mode)
    ensures mode == Rle8 ==> RunColour(mode, a, b, t) == RunByte(mode, a, b)
    ensures mode == Rle4 ==>
              RunColour(mode, a, b, t) == if t % 2 == 0 then RunByte(mode, a, b) / 16 else RunByte(mode, a, b) % 16
  {
    if mode == Rle4 {
      DivModUnique(16 * a + b, 16, a, b);
    }
  }

  lemma {:induction false} RunStep(mode: Mode, data: seq<Byte>, width: nat, clut: seq<Rgb>, idx: seq<int>,
                                   c: Cursor, s: nat, n: nat, a: int, b: int)
    requires |clut| == 256 && ValidIndices(mode, idx) && |c.cells| == |idx|
    requires Index(c, width) == s && s + n <= |idx| && 1 <= n <= 255
    requires 0 <= a < Colours(mode) && 0 <= b < Colours(mode)
    requires forall t :: 0 <= t < n ==> idx[s + t] == RunColour(mode, a, b, t)
    requires c.pos + 1 < |data| && data[c.pos] == n && data[c.pos + 1] == RunByte(mode, a, b)
    ensures Drew(c, Step(mode, data, width, clut, c), clut, idx, s, n, 2)
  {
    var r := Step(mode, data, width, clut, c);
    assert r == Run(mode, data, width, clut, c);
    assert r.Ok?;
    forall j | s <= j < s + n
      ensures r.value.cells[j] == clut[idx[j]]
    {
      assert idx[s + (j - s)] == RunColour(mode, a, b, j - s);
      RunNibbles(mode, a, b, j - s);
    }
  }

  /** Where an RLE8 literal of n pixels ends, given what Literal8 promises about it. */
  lemma {:induction false} Literal8Ends(n: nat, d: int)
    requires d % 2 == 0 && 2 + n <= d <= 3 + n
    ensures d == 2 + n + Pad8(n)
  {
    var e := 2 + n + Pad8(n);
    LiteralsAligned(n);
    EvenPlus2(n + Pad8(n), e);
    if d == e + 1 {
      DivModUnique(d, 2, e / 2, 1);
    } else if d == e - 1 {
      DivModUnique(d, 2, e / 2 - 1, 1);
    }
  }

  /** Where an RLE4 literal of n pixels ends, given what Literal4 promises about it. */
  lemma {:induction false} Literal4Ends(n: nat, d: int)
    requires d % 2 == 0 && 2 + (n + 1) / 2 <= d <= 3 + (n + 1) / 2
    ensures d == 2 + (n + 1) / 2 + Pad4(n)
  {
    var e := 2 + (n + 1) / 2 + Pad4(n);
    LiteralsAligned(n);
    EvenPlus2((n + 1) / 2 + Pad4(n), e);
    if d == e + 1 {
      DivModUnique(d, 2, e / 2, 1);
    } else if d == e - 1 {
      DivModUnique(d, 2, e / 2 - 1, 1);
    }
  }

  /** An RLE8 literal whose bytes are the encoder's indices draws exactly those pixels and ends after its pad byte. */
  lemma {:induction false} Literal8Drew(data: seq<Byte>, width: nat, clut: seq<Rgb>, idx: seq<int>,
                                        c: Cursor, s: nat, n: nat)
    requires |clut| == 256 && ValidIndices(Rle8, idx) && |c.cells| == |idx|
    requires Index(c, width) == s && s + n <= |idx| && 3 <= n <= 255 && c.pos + 2 + n <= |data|
    requires forall j :: c.pos + 2 <= j < c.pos + 2 + n ==> data[j] == idx[s + (j - (c.pos + 2))]
    ensures Drew(c, Literal8(data, width, clut, c, n), clut, idx, s, n, 2 + n + Pad8(n))
  {
    var r := Literal8(data, width, clut, c, n);
    Literal8Ends(n, r.value.pos - c.pos);
    forall j | s <= j < s + n
      ensures r.value.cells[j] == clut[idx[j]]
    {
      assert data[c.pos + 2 + (j - s)] == idx[j];
    }
  }

  /** Decoding the escape of an RLE8 literal of the encoder's indices draws them. */
  lemma {:induction false} Literal8Step(data: seq<Byte>, width: nat, clut: seq<Rgb>, idx: seq<int>,
                                        c: Cursor, s: nat, n: nat)
    requires |clut| == 256 && ValidIndices(Rle8, idx) && |c.cells| == |idx|
    requires Index(c, width) == s && s + n <= |idx| && 3 <= n <= 255
    requires c.pos + 2 + n + Pad8(n) <= |data| && data[c.pos] == 0 && data[c.pos + 1] == n
    requires forall j :: c.pos + 2 <= j < c.pos + 2 + n ==> data[j] == idx[s + (j - (c.pos + 2))]
    ensures Drew(c, Step(Rle8, data, width, clut, c), clut, idx, s, n, 2 + n + Pad8(n))
  {
    assert Step(Rle8, data, width, clut, c) == Literal8(data, width, clut, c, n);
    Literal8Drew(data, width, clut, idx, c, s, n);
  }

  /** Pixel t of a packed RLE4 literal is the nibble of byte t / 2 that Nibble picks. */
  lemma {:induction false} PackedNibble(idx: seq<int>, s: nat, n: nat, t: nat)
    requires ValidIndices(Rle4, idx) && s + n <= |idx| && t < n
    ensures Nibble(PackedPair(idx, s, n, t / 2), t) == idx[s + t]
  {
    var m := t / 2;
    var hi := idx[s + 2 * m];
    var lo := if 2 * m + 1 < n then idx[s + 2 * m + 1] else 0;
    DivModUnique(16 * hi + lo, 16, hi, lo);
    DivModUnique(t, 2, m, t % 2);
  }

  /** Pixel j of an RLE4 literal of indices s .. s + n - 1 whose packed bytes follow the escape at pos is index j. */
  lemma {:induction false} PackedBytes(data: seq<Byte>, pos: nat, idx: seq<int>, s: nat, n: nat)
    requires ValidIndices(Rle4, idx) && s + n <= |idx| && pos + 2 + (n + 1) / 2 <= |data|
    requires forall j :: pos + 2 <= j < pos + 2 + (n + 1) / 2 ==> data[j] == PackedPair(idx, s, n, j - (pos + 2))
    ensures forall j :: s <= j < s + n ==> Nibble(ByteAt(data, pos + 2 + (j - s) / 2), j - s) == idx[j]
  {
    forall j | s <= j < s + n
      ensures Nibble(ByteAt(data, pos + 2 + (j - s) / 2), j - s) == idx[j]
    {
      var t := j - s;
      assert data[pos + 2 + t / 2] == PackedPair(idx, s, n, t / 2);
      PackedNibble(idx, s, n, t);
    }
  }

  /** An RLE4 literal whose nibbles are the encoder's indices draws exactly those pixels and ends after its pad byte. */
  lemma {:induction false} Literal4Drew(data: seq<Byte>, width: nat, clut: seq<Rgb>, idx: seq<int>,
                                        c: Cursor, s: nat, n: nat)
    requires |clut| == 256 && ValidIndices(Rle4, idx) && |c.cells| == |idx|
    requires Index(c, width) == s && s + n <= |idx| && 3 <= n <= 255
    requires forall j :: s <= j < s + n ==> Nibble(ByteAt(data, c.pos + 2 + (j - s) / 2), j - s) == idx[j]
    ensures Drew(c, Literal4(data, width, clut, c, n), clut, idx, s, n, 2 + (n + 1) / 2 + Pad4(n))
  {
    var r := Literal4(data, width, clut, c, n);
    Literal4Ends(n, r.value.pos - c.pos);
  }

  /** Decoding the escape of an RLE4 literal of the encoder's packed indices draws them. */
  lemma {:induction false} Literal4Step(data: seq<Byte>, width: nat, clut: seq<Rgb>, idx: seq<int>,
                                        c: Cursor, s: nat, n: nat)
    requires |clut| == 256 && ValidIndices(Rle4, idx) && |c.cells| == |idx|
    requires Index(c, width) == s && s + n <= |idx| && 3 <= n <= 255
    requires c.pos + 2 + (n + 1) / 2 + Pad4(n) <= |data| && data[c.pos] == 0 && data[c.pos + 1] == n
    requires forall j :: c.pos + 2 <= j < c.pos + 2 + (n + 1) / 2 ==> data[j] == PackedPair(idx, s, n, j - (c.pos + 2))
    ensures Drew(c, Step(Rle4, data, width, clut, c), clut, idx, s, n, 2 + (n + 1) / 2 + Pad4(n))
  {
    assert Step(Rle4, data, width, clut, c) == Literal4(data, width, clut, c, n);
    PackedBytes(data, c.pos, idx, s, n);
    Literal4Drew(data, width, clut, idx, c, s, n);
  }

  // Decoding rows.

  /** The buffer cells with the image drawn over indices lo .. hi - 1. */
  function Fill(cells: seq<Rgb>, clut: seq<Rgb>, idx: seq<int>, lo: int, hi: int): (f: seq<Rgb>)
    requires |clut| == 256 && |cells| == |idx| && forall j :: 0 <= j < |idx| ==> 0 <= idx[j] < 256
    ensures |f| == |cells|
  {
    seq(|cells|, j requires 0 <= j < |cells| => if lo <= j < hi then clut[idx[j]] else cells[j])
  }

  lemma {:induction false} FillNothing(cells: seq<Rgb>, clut: seq<Rgb>, idx: seq<int>, s: int)
    requires |clut| == 256 && |cells| == |idx| && forall j :: 0 <= j < |idx| ==> 0 <= idx[j] < 256
    ensures Fill(cells, clut, idx, s, s) == cells
  {
  }

  /** A code that drew indices s .. s + n - 1 leaves the same row to finish as before, from s + n on. */
  lemma {:induction false} FillStep(c: Cursor, next: Cursor, clut: seq<Rgb>, idx: seq<int>, s: nat, n: nat, len: nat, hi: int)
    requires |clut| == 256 && |c.cells| == |idx| && forall j :: 0 <= j < |idx| ==> 0 <= idx[j] < 256
    requires Drew(c, Ok(next), clut, idx, s, n, len) && s + n <= hi
    ensures Fill(next.cells, clut, idx, s + n, hi) == Fill(c.cells, clut, idx, s, hi)
  {
  }

  /**
   * Decode from state c under a name of its own: the row lemmas below
   * relate states through it, so the solver does not unfold Decode into
   * a code step at every state they mention.
   */
  function DecodeFrom(mode: Mode, data: seq<Byte>, width: int, clut: seq<Rgb>, c: Cursor): Result<seq<Rgb>>
    requires |clut| == 256
  {
    Decode(mode, data, width, clut, c)
  }

  /** The codes of chunks covering indices s .. end - 1 sit one after the other in the data from pos on. */
  ghost predicate ChunksAt(mode: Mode, data: seq<Byte>, idx: seq<int>, pos: nat, s: nat, end: nat, chunks: seq<Chunk>)
    decreases |chunks|
  {
    if chunks == [] then s == end
    else
      && ChunkAt(mode, data, idx, pos, s, chunks[0]) && s + chunks[0].n <= end
      && ChunksAt(mode, data, idx, pos + CodeLen(mode, chunks[0]), s + chunks[0].n, end, chunks[1..])
  }

  /** How many bytes the codes of chunks take. */
  function CodesLen(mode: Mode, chunks: seq<Chunk>): nat
    decreases |chunks|
  {
    if chunks == [] then 0 else CodeLen(mode, chunks[0]) + CodesLen(mode, chunks[1..])
  }

  /** Decoding the first chunk's code draws its pixels and leaves the rest of the row's codes next. */
  lemma {:induction false} FirstChunk(mode: Mode, data: seq<Byte>, width: nat, clut: seq<Rgb>, idx: seq<int>,
                                      c: Cursor, s: nat, end: nat, chunks: seq<Chunk>)
    returns (next: Cursor)
    requires |clut| == 256 && ValidIndices(mode, idx) && |c.cells| == |idx|
    requires Index(c, width) == s && c.ix < width && chunks != [] && ChunksAt(mode, data, idx, c.pos, s, end, chunks)
    ensures DecodeFrom(mode, data, width, clut, c) == DecodeFrom(mode, data, width, clut, next)
    ensures next.ix == c.ix + chunks[0].n && next.iy == c.iy && next.pos == c.pos + CodeLen(mode, chunks[0])
    ensures |next.cells| == |idx| && Fill(next.cells, clut, idx, s + chunks[0].n, end) == Fill(c.cells, clut, idx, s, end)
  {
    ChunkStep(mode, data, width, clut, idx, c, s, chunks[0]);
    next := Step(mode, data, width, clut, c).value;
    DecodeStep(mode, data, width, clut, c, next);
    FillStep(c, next, clut, idx, s, chunks[0].n, CodeLen(mode, chunks[0]), end);
  }

  /** The codes after the first of chunks laid out at pos cover the rest of the indices, from where the first code ends. */
  lemma {:induction false} ChunksTail(mode: Mode, data: seq<Byte>, idx: seq<int>, pos: nat, s: nat, end: nat, chunks: seq<Chunk>)
    requires chunks != [] && ChunksAt(mode, data, idx, pos, s, end, chunks)
    ensures ChunksAt(mode, data, idx, pos + CodeLen(mode, chunks[0]), s + chunks[0].n, end, chunks[1..])
    ensures pos + CodeLen(mode, chunks[0]) + CodesLen(mode, chunks[1..]) == pos + CodesLen(mode, chunks)
  {
  }

  /**
   * Decoding the codes of chunks that cover the rest of a row, from
   * buffer index s to the row's end, draws the rest of the row and
   * nothing else: the decode comes to the same outcome as from d, the
   * state at the end of the row with the row drawn and its bytes read.
   */
  lemma {:induction false} RowTrip(mode: Mode, data: seq<Byte>, width: nat, clut: seq<Rgb>, idx: seq<int>,
                                   c: Cursor, s: nat, end: nat, chunks: seq<Chunk>, d: Cursor)
    requires |clut| == 256 && ValidIndices(mode, idx) && |c.cells| == |idx|
    requires Index(c, width) == s && c.ix + (end - s) == width && ChunksAt(mode, data, idx, c.pos, s, end, chunks)
    requires d == Cursor(Fill(c.cells, clut, idx, s, end), width, c.iy, c.pos + CodesLen(mode, chunks))
    ensures DecodeFrom(mode, data, width, clut, c) == DecodeFrom(mode, data, width, clut, d)
    decreases |chunks|
  {
    if chunks == [] {
      FillNothing(c.cells, clut, idx, s);
    } else {
      var next := FirstChunk(mode, data, width, clut, idx, c, s, end, chunks);
      ChunksTail(mode, data, idx, c.pos, s, end, chunks);
      RowTrip(mode, data, width, clut, idx, next, s + chunks[0].n, end, chunks[1..], d);
    }
  }

  /** At the end of row iy + 1, decoding row iy's codes draws row iy and stops before its closing code. */
  lemma {:induction false} RowDrawn(mode: Mode, data: seq<Byte>, width: nat, clut: seq<Rgb>, idx: seq<int>,
                                    c: Cursor, base: nat, chunks: seq<Chunk>)
    requires |clut| == 256 && ValidIndices(mode, idx) && width > 0 && |c.cells| == |idx| && c.ix == width && 0 <= c.iy
    requires base == c.iy * width && ChunksAt(mode, data, idx, c.pos, base, base + width, chunks)
    ensures DecodeFrom(mode, data, width, clut, c)
            == DecodeFrom(mode, data, width, clut, Cursor(Fill(c.cells, clut, idx, base, base + width), width, c.iy, c.pos + CodesLen(mode, chunks)))
  {
    DecodeRestart(mode, data, width, clut, c);
    RowTrip(mode, data, width, clut, idx, c.(ix := 0), base, base + width, chunks,
            Cursor(Fill(c.cells, clut, idx, base, base + width), width, c.iy, c.pos + CodesLen(mode, chunks)));
  }

  /**
   * The decode so far, with the rows from index lo up drawn: cells holds
   * target there and what it held at the start, cells0, below.
   */
  ghost predicate DrawnAbove(cells: seq<Rgb>, cells0: seq<Rgb>, target: seq<Rgb>, lo: int)
  {
    |cells| == |cells0| == |target|
    && forall j :: 0 <= j < |cells| ==> cells[j] == if lo <= j then target[j] else cells0[j]
  }

  /** Drawing row iy on top of the rows above it extends the drawn region down to the row's start. */
  lemma {:induction false} FillRow(cells: seq<Rgb>, cells0: seq<Rgb>, clut: seq<Rgb>, idx: seq<int>, lo: int, base: nat, width: nat)
    requires |clut| == 256 && |cells0| == |idx| && forall j :: 0 <= j < |idx| ==> 0 <= idx[j] < 256
    requires lo <= base && DrawnAbove(cells, cells0, Target(clut, idx, cells0, lo), base + width)
    ensures DrawnAbove(Fill(cells, clut, idx, base, base + width), cells0, Target(clut, idx, cells0, lo), base)
  {
  }

  /** An end-of-line code at the end of a row moves to the next row down; an end-of-bitmap code ends the decode. */
  lemma {:induction false} EndStep(mode: Mode, data: seq<Byte>, width: nat, clut: seq<Rgb>, c: Cursor, eob: bool)
    requires |clut| == 256 && width > 0 && c.ix == width && c.iy >= 0
    requires c.pos + 1 < |data| && data[c.pos] == 0 && data[c.pos + 1] == if eob then 1 else 0
    ensures eob ==> DecodeFrom(mode, data, width, clut, c) == Ok(c.cells)
    ensures !eob ==> DecodeFrom(mode, data, width, clut, c) == DecodeFrom(mode, data, width, clut, Cursor(c.cells, width, c.iy - 1, c.pos + 2))
  {
    DecodeRestart(mode, data, width, clut, c);
    var next := if eob then Cursor(c.cells, width, -1, c.pos + 2) else Cursor(c.cells, width, c.iy - 1, c.pos + 2);
    DecodeStep(mode, data, width, clut, c.(ix := 0), next);
  }

  /** Once everything from the start of row last up is drawn, the buffer is the target. */
  lemma {:induction false} DrawnAll(cells: seq<Rgb>, cells0: seq<Rgb>, clut: seq<Rgb>, idx: seq<int>, lo: int)
    requires |clut| == 256 && |cells0| == |idx| && forall j :: 0 <= j < |idx| ==> 0 <= idx[j] < 256
    requires DrawnAbove(cells, cells0, Target(clut, idx, cells0, lo), lo)
    ensures cells == Target(clut, idx, cells0, lo)
  {
  }

  /** The closing code of a row at p: end of bitmap when eob holds, end of line otherwise. */
  ghost predicate EndAt(data: seq<Byte>, p: nat, eob: bool)
  {
    p + 1 < |data| && data[p] == 0 && data[p + 1] == if eob then 1 else 0
  }

  /**
   * From pos on, the data holds the rows' codes, the first row starting at
   * buffer index base and each next one a row lower: a row's chunks,
   * covering exactly its width, then its closing code, end of bitmap
   * after the last row and end of line after the others.
   */
  ghost predicate RowsAt(mode: Mode, data: seq<Byte>, idx: seq<int>, width: nat, pos: nat, base: int, rows: seq<seq<Chunk>>)
    decreases |rows|
  {
    rows != [] ==>
      && 0 <= base && base + width <= |idx|
      && ChunksAt(mode, data, idx, pos, base, base + width, rows[0])
      && EndAt(data, pos + CodesLen(mode, rows[0]), |rows| == 1)
      && RowsAt(mode, data, idx, width, pos + CodesLen(mode, rows[0]) + 2, base - width, rows[1..])
  }

  /**
   * What holds before row iy of the rows iy down to last is decoded: the
   * data from the cursor on holds the codes of those rows, and the buffer
   * holds the image from the row above on and what it held at the start
   * below that.
   */
  ghost predicate RowsInv(mode: Mode, data: seq<Byte>, width: nat, last: nat, clut: seq<Rgb>,
                          idx: seq<int>, cells0: seq<Rgb>, c: Cursor, base: int, rows: seq<seq<Chunk>>)
  {
    && |clut| == 256 && width > 0 && |cells0| == |idx| && c.ix == width && ValidIndices(mode, idx)
    && |rows| == c.iy - last + 1 >= 1 && base == c.iy * width
    && RowsAt(mode, data, idx, width, c.pos, base, rows)
    && DrawnAbove(c.cells, cells0, Target(clut, idx, cells0, last * width), base + width)
  }

  /**
   * Decoding the codes of rows iy down to last, with the rows above them
   * drawn, finishes the image: rows last and up hold the image and the
   * cells below row last what they held at the start.
   */
  lemma {:induction false} RowsTrip(mode: Mode, data: seq<Byte>, width: nat, last: nat, clut: seq<Rgb>,
                                    idx: seq<int>, cells0: seq<Rgb>, c: Cursor, base: int, rows: seq<seq<Chunk>>)
    requires RowsInv(mode, data, width, last, clut, idx, cells0, c, base, rows)
    ensures DecodeFrom(mode, data, width, clut, c) == Ok(Target(clut, idx, cells0, last * width))
    decreases |rows|
  {
    MulMonotone(0, c.iy, width);
    MulMonotone(last, c.iy, width);
    RowDrawn(mode, data, width, clut, idx, c, base, rows[0]);
    var done := Cursor(Fill(c.cells, clut, idx, base, base + width), width, c.iy, c.pos + CodesLen(mode, rows[0]));
    FillRow(c.cells, cells0, clut, idx, last * width, base, width);
    if |rows| == 1 {
      EndStep(mode, data, width, clut, done, true);
      DrawnAll(done.cells, cells0, clut, idx, last * width);
    } else {
      EndStep(mode, data, width, clut, done, false);
      MulPred(c.iy, c.iy - 1, width);
      RowsTrip(mode, data, width, last, clut, idx, cells0, Cursor(done.cells, width, c.iy - 1, done.pos + 2), base - width, rows[1..]);
    }
  }

  /** Before the first code, with the rows' codes laid out from pos, nothing is drawn yet and the invariant holds. */
  lemma {:induction false} RowsStart(mode: Mode, data: seq<Byte>, width: nat, height: nat, last: nat, clut: seq<Rgb>,
                                     idx: seq<int>, cells: seq<Rgb>, pos: nat, rows: seq<seq<Chunk>>)
    requires |clut| == 256 && ValidIndices(mode, idx) && width > 0 && last < height
    requires |idx| == width * height == |cells| && |rows| == height - last
    requires RowsAt(mode, data, idx, width, pos, (height - 1) * width, rows)
    ensures RowsInv(mode, data, width, last, clut, idx, cells, Start(cells, width, height, pos), (height - 1) * width, rows)
  {
    MulPred(height, height - 1, width);
  }

  /** The rows from base down to lo, when base + width is n rows' width above lo, are n rows. */
  lemma {:induction false} TilesCount(mode: Mode, idx: seq<int>, width: nat, base: int, lo: nat, n: nat)
    requires ValidIndices(mode, idx) && width > 0 && base + width <= |idx| && lo + n * width == base + width
    ensures |Tiles(mode, idx, width, base, lo)| == n
    decreases n
  {
    if n == 0 {
      assert base < lo;
    } else {
      MulMonotone(1, n, width);
      MulPred(n, n - 1, width);
      TilesCount(mode, idx, width, base - width, lo, n - 1);
    }
  }

  /** A chunk's bytes at pos are its code laid out there. */
  lemma {:induction false} ChunkFromBytes(mode: Mode, data: seq<Byte>, idx: seq<int>, pos: nat, s: nat, ch: Chunk)
    requires ValidIndices(mode, idx) && ChunkFits(mode, idx, s, ch) && BytesAt(data, pos, ChunkBytes(mode, idx, s, ch))
    ensures ChunkAt(mode, data, idx, pos, s, ch)
  {
    var len := CodeLen(mode, ch);
    forall i | 0 <= i < len
      ensures data[pos + i] == CodeByte(mode, idx, s, ch, i)
    {
      assert data[pos + i] == data[pos..pos + len][i];
      CodeBytesIndex(mode, idx, s, ch, len, i);
    }
    assert data[pos + 0] == CodeByte(mode, idx, s, ch, 0);
    assert data[pos + 1] == CodeByte(mode, idx, s, ch, 1);
    match ch
    case RunOf(_, _, _) =>
    case LiteralOf(n) =>
      match mode
      case Rle8 =>
        forall j | pos + 2 <= j < pos + 2 + n
          ensures data[j] == idx[s + (j - (pos + 2))]
        {
          assert data[pos + (j - pos)] == CodeByte(mode, idx, s, ch, j - pos);
        }
      case Rle4 =>
        forall j | pos + 2 <= j < pos + 2 + (n + 1) / 2
          ensures data[j] == PackedPair(idx, s, n, j - (pos + 2))
        {
          assert data[pos + (j - pos)] == CodeByte(mode, idx, s, ch, j - pos);
        }
  }

  /** The bytes of a nonempty run of chunks at pos are its first chunk's code there and the others' right after it. */
  lemma {:induction false} ChunksHead(mode: Mode, data: seq<Byte>, idx: seq<int>, pos: nat, s: nat, end: nat, chunks: seq<Chunk>)
    requires ValidIndices(mode, idx) && Covers(mode, idx, s, end, chunks) && chunks != []
    requires BytesAt(data, pos, ChunksBytes(mode, idx, s, end, chunks))
    ensures BytesAt(data, pos, ChunkBytes(mode, idx, s, chunks[0])) && s + chunks[0].n <= end
    ensures Covers(mode, idx, s + chunks[0].n, end, chunks[1..])
    ensures BytesAt(data, pos + CodeLen(mode, chunks[0]), ChunksBytes(mode, idx, s + chunks[0].n, end, chunks[1..]))
  {
    BytesSplit(data, pos, ChunkBytes(mode, idx, s, chunks[0]), ChunksBytes(mode, idx, s + chunks[0].n, end, chunks[1..]));
  }

  /** A first chunk's code at pos followed by the other chunks' codes lays the chunks out at pos. */
  lemma {:induction false} ChunksAtCons(mode: Mode, data: seq<Byte>, idx: seq<int>, pos: nat, s: nat, end: nat, chunks: seq<Chunk>)
    requires chunks != [] && ChunkAt(mode, data, idx, pos, s, chunks[0]) && s + chunks[0].n <= end
    requires ChunksAt(mode, data, idx, pos + CodeLen(mode, chunks[0]), s + chunks[0].n, end, chunks[1..])
    ensures ChunksAt(mode, data, idx, pos, s, end, chunks)
  {
  }

  /** After the first chunk's code, the codes of the other chunks follow, and those chunks cover the rest of the indices. */
  lemma {:induction false} ChunksRest(mode: Mode, data: seq<Byte>, idx: seq<int>, pos: nat, s: nat, end: nat, chunks: seq<Chunk>)
    requires ValidIndices(mode, idx) && Covers(mode, idx, s, end, chunks) && chunks != []
    requires BytesAt(data, pos, ChunksBytes(mode, idx, s, end, chunks))
    ensures Covers(mode, idx, s + chunks[0].n, end, chunks[1..])
    ensures BytesAt(data, pos + CodeLen(mode, chunks[0]), ChunksBytes(mode, idx, s + chunks[0].n, end, chunks[1..]))
  {
    ChunksHead(mode, data, idx, pos, s, end, chunks);
  }

  /** If the codes of chunks are written from pos on and all but the first are laid out after the first, all are laid out at pos. */
  lemma {:induction false} ChunksLaidStep(mode: Mode, data: seq<Byte>, idx: seq<int>, pos: nat, s: nat, end: nat, chunks: seq<Chunk>)
    requires ValidIndices(mode, idx) && Covers(mode, idx, s, end, chunks) && chunks != []
    requires BytesAt(data, pos, ChunksBytes(mode, idx, s, end, chunks))
    requires ChunksAt(mode, data, idx, pos + CodeLen(mode, chunks[0]), s + chunks[0].n, end, chunks[1..])
    ensures ChunksAt(mode, data, idx, pos, s, end, chunks)
  {
    ChunksHead(mode, data, idx, pos, s, end, chunks);
    ChunkFromBytes(mode, data, idx, pos, s, chunks[0]);
    ChunksAtCons(mode, data, idx, pos, s, end, chunks);
  }

  /** The codes of chunks written from pos on are the chunks laid out at pos. */
  lemma {:induction false} ChunksLaid(mode: Mode, data: seq<Byte>, idx: seq<int>, pos: nat, s: nat, end: nat, chunks: seq<Chunk>)
    requires ValidIndices(mode, idx) && Covers(mode, idx, s, end, chunks)
    requires BytesAt(data, pos, ChunksBytes(mode, idx, s, end, chunks))
    ensures ChunksAt(mode, data, idx, pos, s, end, chunks)
    decreases |chunks|
  {
    if chunks != [] {
      ChunksRest(mode, data, idx, pos, s, end, chunks);
      ChunksLaid(mode, data, idx, pos + CodeLen(mode, chunks[0]), s + chunks[0].n, end, chunks[1..]);
      ChunksLaidStep(mode, data, idx, pos, s, end, chunks);
    }
  }

  /** The codes of chunks take CodesLen bytes. */
  lemma {:induction false} ChunksLen(mode: Mode, idx: seq<int>, s: nat, end: nat, chunks: seq<Chunk>)
    requires ValidIndices(mode, idx) && Covers(mode, idx, s, end, chunks)
    ensures |ChunksBytes(mode, idx, s, end, chunks)| == CodesLen(mode, chunks)
    decreases |chunks|
  {
    if chunks != [] {
      ChunksLen(mode, idx, s + chunks[0].n, end, chunks[1..]);
    }
  }

  /** A row's codes, its closing code and the rows after it, from pos on, are each where they belong. */
  lemma {:induction false} RowBytes(data: seq<Byte>, pos: nat, code: seq<Byte>, eob: bool, rest: seq<Byte>)
    requires BytesAt(data, pos, code + (EndCode(eob) + rest))
    ensures BytesAt(data, pos, code) && EndAt(data, pos + |code|, eob) && BytesAt(data, pos + |code| + 2, rest)
  {
    BytesSplit(data, pos, code, EndCode(eob) + rest);
    BytesSplit(data, pos + |code|, EndCode(eob), rest);
    assert data[pos + |code| + 0] == EndCode(eob)[0] && data[pos + |code| + 1] == EndCode(eob)[1];
  }

  /** The codes of a nonempty run of rows at pos are the first row's chunks' codes and closing code there, and the other rows' codes right after. */
  lemma {:induction false} RowsHead(mode: Mode, data: seq<Byte>, idx: seq<int>, width: nat, pos: nat, base: int, rows: seq<seq<Chunk>>)
    returns (next: nat)
    requires ValidIndices(mode, idx) && RowsCover(mode, idx, width, base, rows) && rows != []
    requires BytesAt(data, pos, RowsBytes(mode, idx, width, base, rows))
    ensures next == pos + CodesLen(mode, rows[0]) + 2
    ensures BytesAt(data, pos, ChunksBytes(mode, idx, base, base + width, rows[0])) && EndAt(data, next - 2, |rows| == 1)
    ensures BytesAt(data, next, RowsBytes(mode, idx, width, base - width, rows[1..]))
  {
    var code := ChunksBytes(mode, idx, base, base + width, rows[0]);
    ChunksLen(mode, idx, base, base + width, rows[0]);
    RowBytes(data, pos, code, |rows| == 1, RowsBytes(mode, idx, width, base - width, rows[1..]));
    next := pos + |code| + 2;
  }

  /** Rows whose first row's chunks and closing code are at pos, and the others right after, are laid out at pos. */
  lemma {:induction false} RowsAtCons(mode: Mode, data: seq<Byte>, idx: seq<int>, width: nat, pos: nat, base: int, rows: seq<seq<Chunk>>,
                                      next: nat)
    requires rows != [] && 0 <= base && base + width <= |idx| && next == pos + CodesLen(mode, rows[0]) + 2
    requires ChunksAt(mode, data, idx, pos, base, base + width, rows[0]) && EndAt(data, next - 2, |rows| == 1)
    requires RowsAt(mode, data, idx, width, next, base - width, rows[1..])
    ensures RowsAt(mode, data, idx, width, pos, base, rows)
  {
  }

  /** The codes of rows written from pos on are the rows laid out at pos. */
  lemma {:induction false} RowsLaid(mode: Mode, data: seq<Byte>, idx: seq<int>, width: nat, pos: nat, base: int, rows: seq<seq<Chunk>>)
    requires ValidIndices(mode, idx) && RowsCover(mode, idx, width, base, rows)
    requires BytesAt(data, pos, RowsBytes(mode, idx, width, base, rows))
    ensures RowsAt(mode, data, idx, width, pos, base, rows)
    decreases |rows|
  {
    if rows != [] {
      var next := RowsHead(mode, data, idx, width, pos, base, rows);
      ChunksLaid(mode, data, idx, pos, base, base + width, rows[0]);
      RowsLaid(mode, data, idx, width, next, base - width, rows[1..]);
      RowsAtCons(mode, data, idx, width, pos, base, rows, next);
    }
  }

  /**
   * Decoding a stream that holds rows height - 1 down to last and then an
   * end-of-bitmap code draws those rows and leaves every cell below row
   * last exactly as it was.
   */
  lemma {:induction false} DecodeEncodeTop(mode: Mode, data: seq<Byte>, pos: nat, idx: seq<int>, width: nat, height: nat,
                                           last: nat, clut: seq<Rgb>, cells: seq<Rgb>)
    requires |clut| == 256 && ValidIndices(mode, idx) && width > 0 && last < height
    requires |idx| == width * height == |cells|
    requires pos <= |data| && data[pos..] == EncodeTop(mode, idx, width, height, last)
    ensures Decode(mode, data, width, clut, Start(cells, width, height, pos)) == Ok(Target(clut, idx, cells, last * width))
  {
    MulMonotone(0, last, width);
    var base, lo := (height - 1) * width, last * width;
    MulPred(height, height - 1, width);
    MulSplit(last, height - last, height, width);
    TilesCover(mode, idx, width, base, lo);
    SuffixBytes(data, pos, EncodeTop(mode, idx, width, height, last));
    RowsLaid(mode, data, idx, width, pos, base, Tiles(mode, idx, width, base, lo));
    var rows := Tiles(mode, idx, width, base, lo);
    TilesCount(mode, idx, width, base, lo, height - last);
    RowsStart(mode, data, width, height, last, clut, idx, cells, pos, rows);
    RowsTrip(mode, data, width, last, clut, idx, cells, Start(cells, width, height, pos), base, rows);
  }

  /**
   * The round trip: whatever the buffer held before, decoding a stream
   * whose bytes from pos on are the encoded image leaves exactly the
   * image in it.
   */
  lemma {:induction false} DecodeEncode(mode: Mode, data: seq<Byte>, pos: nat, idx: seq<int>, width: nat, height: nat,
                                        clut: seq<Rgb>, cells: seq<Rgb>)
    requires |clut| == 256 && ValidIndices(mode, idx) && width > 0
    requires |idx| == width * height == |cells|
    requires pos <= |data| && data[pos..] == Encode(mode, idx, width, height)
    ensures Decode(mode, data, width, clut, Start(cells, width, height, pos)) == Ok(Image(clut, idx))
  {
    if height == 0 {
      assert cells == [] == Image(clut, idx);
    } else {
      DecodeEncodeTop(mode, data, pos, idx, width, height, 0, clut, cells);
      assert Target(clut, idx, cells, 0) == Image(clut, idx);
    }
  }
}
