# MS-BMP decoder (readbmp.c), modelled in Dafny

This project models the Microsoft bitmap reader of the Plan 9 / Harvey `jpg`
tools, `sys/src/cmd/jpg/readbmp.c`. The reader has three stages:

1. `ReadBMP` checks the "BM" signature. It then reads the 14-byte file header
   and either the 12-byte OS/2 1.x core header or the 40-byte Windows info
   header.
2. It loads the colour table (palette entries, or the three BI_BITFIELDS
   masks), seeks to the pixel data and runs one of eight decoders:
   - `load_1T`, `load_4T`, `load_8T` and `load_24T` read padded rows;
   - `load_16` and `load_32` read direct or bit-field pixels;
   - `load_4C` and `load_8C` read RLE4 and RLE8 codes.
3. `Breadbmp` splits the decoded `Rgb` buffer into the red, green and blue
   planes of a `Rawimage`.

The input stream is a byte sequence.

- `Bgetc` at position k is `Getc`: the byte, or -1 past the end.
- `Bseek` and the row skips are arithmetic on the position.

Each decoder is an imperative method that writes an `array<Rgb>` in place. Its
contract says the array ends up equal to a pure specification:

- `Raster.Decoded` for the row-oriented formats;
- `Rle.Decode` for the run-length formats.

`ReadBmp.ReadBMP` and `ReadBmp.Breadbmp` are methods proved equal to the
specification functions `ReadSpec` and `BreadSpec`.

Where the C has undefined behaviour, the model returns a `Failures.Error`
instead:

- a write outside the buffer;
- a colour-table overrun;
- a shift by a negative amount;
- an RLE count of -1 read at the end of the stream.

Where the C terminates with `sysfatal`, the model also returns an error. Where
the C would loop forever, the model returns `Diverges`.

The model reproduces the source's quirks as written:

- The 32-bit path puts `c[1]` in the top byte of the pixel word.
- The 16-bit masks are built from the blue and green bytes only.
- The RLE decoders start at row `height - 1` whatever the sign of `height`.
- An RLE row that fills up without an end-of-line code restarts at column 0.
- An unsupported depth yields the zeroed buffer.
- `Breadbmp` sizes its planes with `width * height`.

The modules are:

- `Stream` (`stream.dfy`): bytes, `Getc`, `r16`/`r32` and their little-endian
  inverses. It also holds `Failures`, the error and result types.
- `Bits` (`bits.dfy`): shifts, `&`, bit fields and `msb`.
- `Raster` (`raster.dfy`): the row order given by the sign of `height`, and
  the generic row-by-row fill.
- `Pixels` (`pixels.dfy`): `Rgb`, mask extraction and the 16/32-bit pixel
  words.
- `Uncompressed` (`uncompressed.dfy`): row strides and the six uncompressed
  loaders.
- `Rle` (`rle.dfy`): the RLE code semantics and `load_4C`/`load_8C`.
- `RleEncode` (`rle_encode.dfy`): a reference RLE encoder (maximal runs,
  literals with their pad byte, end-of-line and end-of-bitmap codes) and the
  proof that both RLE decoders invert it.
- `Header` (`header.dfy`): header parsing, a header writer, and the
  colour-table count and layout.
- `ReadBmp` (`readbmp.dfy`): table loading, dispatch, `ReadBMP` and
  `Breadbmp`.

## Model

| member | source | states |
|---|---|---|
| Stream.Getc | sys/src/cmd/jpg/readbmp.c:57-58 | `Bgetc` gives a byte 0..255 inside the stream, and -1 exactly when the position is outside it |
| Stream.Int16 | sys/src/cmd/jpg/readbmp.c:55-59 | the `int16_t` view of a 16-bit pattern lies in [-2^15, 2^15) and is congruent to the pattern modulo 2^16 |
| Stream.Int32 | sys/src/cmd/jpg/readbmp.c:66-72 | the `int32_t` view of a 32-bit pattern lies in [-2^31, 2^31) and is congruent to the pattern modulo 2^32 |
| Stream.R16 | sys/src/cmd/jpg/readbmp.c:52-60 | `r16` gives an `int16_t` whose low byte is the first byte read and whose high byte is the second (0xFF past the end of the stream); it is negative exactly when the second byte has its top bit set |
| Stream.R32 | sys/src/cmd/jpg/readbmp.c:63-73 | `r32` gives an `int32_t` whose low byte is the first byte read and whose top byte is the fourth; it is negative exactly when the fourth byte has its top bit set |
| Stream.R16OfLe16 | sys/src/cmd/jpg/readbmp.c:52-60 | `r16` reads back every signed 16-bit value written little-endian |
| Stream.Le16OfR16 | sys/src/cmd/jpg/readbmp.c:52-60 | writing the value `r16` read gives back the two bytes it read: no byte pattern is lost |
| Stream.R32OfLe32 | sys/src/cmd/jpg/readbmp.c:63-73 | `r32` reads back every signed 32-bit value written little-endian |
| Stream.Le32OfR32 | sys/src/cmd/jpg/readbmp.c:63-73 | writing the value `r32` read gives back the four bytes it read |
| Bits.Msb | sys/src/cmd/jpg/readbmp.c:76-85 | `msb(x)` is 0 iff x is 0, and otherwise the k with 2^(k-1) <= x < 2^k |
| Bits.MsbUnique | sys/src/cmd/jpg/readbmp.c:76-85 | any k with 2^(k-1) <= x < 2^k is `msb(x)`, so the bound determines the result |
| Bits.MsbScan | sys/src/cmd/jpg/readbmp.c:77-85 | the shift-left loop that tests bit 31 returns `msb(x)` for every 32-bit x |
| Bits.MsbExample | sys/src/cmd/jpg/readbmp.c:76-85 | `msb(0xF800) == 16` |
| Bits.MsbOfField | sys/src/cmd/jpg/readbmp.c:411-413 | the highest set bit of a contiguous w-bit mask at bit s is w + s |
| Bits.AndLowMask | sys/src/cmd/jpg/readbmp.c:164-168 | masking with 2^w - 1 keeps x modulo 2^w (the `0xf &` of the nibble reads) |
| Bits.AndShiftedMask | sys/src/cmd/jpg/readbmp.c:336-347 | masking with m << s is shifting right by s, masking with m and shifting back |
| Bits.FieldValue | sys/src/cmd/jpg/readbmp.c:336-347 | `val & mask` for a w-bit field at bit s is the field's value shifted back to bit s |
| Bits.BitOfShifted | sys/src/cmd/jpg/readbmp.c:107-110 | after k left shifts, bit 7 of a byte is its original bit 7 - k |
| Pixels.MaskChannel | sys/src/cmd/jpg/readbmp.c:336-347 | a mask-mode channel, `(uint8)((val & mask) >> (msb(mask) - 8))` or `<<` the negated amount, equals (val & mask) * 256 / 2^msb(mask) |
| Pixels.Word32 | sys/src/cmd/jpg/readbmp.c:419-420 | the assembled pixel word is below 2^32, holds c[0], c[1], c[2] in its low 24 bits and c[1] again in its top byte |
| Pixels.Direct16 | sys/src/cmd/jpg/readbmp.c:350-357 | the direct 16-bit pixel takes its blue, green and red from the 5-bit fields at bits 0, 5 and 10 of the word, each times 8, and keeps the slot's alpha |
| Pixels.Direct32 | sys/src/cmd/jpg/readbmp.c:437-443 | the direct 32-bit pixel is B, G, R = c[0], c[1], c[2], the low 24 bits of the word, and keeps the slot's alpha |
| Pixels.FieldChannel | sys/src/cmd/jpg/readbmp.c:423-434 | with a contiguous w-bit mask (w <= 8) the channel is the field's value placed in the top w bits of the byte |
| Pixels.Direct16Is555 | sys/src/cmd/jpg/readbmp.c:350-357 | the direct 16-bit formulas are mask extraction with the 5-5-5 masks 0x001F, 0x03E0, 0x7C00 |
| Pixels.Blue555 | sys/src/cmd/jpg/readbmp.c:353 | `(c0 << 3) & 0xf8` equals the 0x001F mask channel of the 16-bit word |
| Pixels.Green555 | sys/src/cmd/jpg/readbmp.c:354-355 | `((c1 << 6) + (c0 >> 2)) & 0xf8` equals the 0x03E0 mask channel of the 16-bit word |
| Pixels.Red555 | sys/src/cmd/jpg/readbmp.c:356 | `(c1 << 1) & 0xf8` equals the 0x7C00 mask channel of the 16-bit word |
| Pixels.Direct32Is888 | sys/src/cmd/jpg/readbmp.c:437-443 | the direct 32-bit path is mask extraction with 0xFF, 0xFF00, 0xFF0000 |
| Pixels.Mask16 | sys/src/cmd/jpg/readbmp.c:319-324 | a 16-bit mask is below 2^16, its low byte is the entry's blue byte and its high byte the green one |
| Pixels.Mask16IgnoresRedAlpha | sys/src/cmd/jpg/readbmp.c:319-324 | a 16-bit mask does not depend on its entry's red and alpha bytes |
| Pixels.Mask32 | sys/src/cmd/jpg/readbmp.c:399-410 | a 32-bit mask is below 2^32 and is blue + 2^8 green + 2^16 red + 2^24 alpha of its entry |
| Pixels.Mask32Bytes | sys/src/cmd/jpg/readbmp.c:399-410 | bytes 0 to 3 of a 32-bit mask are its entry's blue, green, red and alpha |
| Pixels.Word32Bytes | sys/src/cmd/jpg/readbmp.c:419-420 | bytes 0, 1 and 2 of the assembled 32-bit word are c[0], c[1] and c[2], and byte 3 is c[1] again |
| Pixels.TopByteReadsByte1 | sys/src/cmd/jpg/readbmp.c:419-420 | a channel masked with 0xFF000000 reads c[1], not c[3] |
| Pixels.MaskShiftExample | sys/src/cmd/jpg/readbmp.c:325-347 | the mask 0xF800 gives shift 8 and maps 0xF800 to 0xF8 |
| Raster.RowMapPermutes | sys/src/cmd/jpg/readbmp.c:94-98 | the file-row to buffer-row map is a bijection on [0, abs(height)), its own inverse |
| Raster.CellInjective | sys/src/cmd/jpg/readbmp.c:94-100 | two distinct (file row, column) pairs never write the same buffer index |
| Raster.CellSurjective | sys/src/cmd/jpg/readbmp.c:94-100 | every index of [0, width * abs(height)) is written by some (file row, column) pair |
| Raster.FlipRows | sys/src/cmd/jpg/readbmp.c:94-98 | with height > 0 buffer row r comes from file row height-1-r, and with a negated height from file row r |
| Raster.StepRow | sys/src/cmd/jpg/readbmp.c:95-100 | after a row of width pixels, `i += step_up` lands on the start of the next file row's buffer row |
| Raster.RowBaseIsRowMap | sys/src/cmd/jpg/readbmp.c:95-100 | the write index at the start of file row t is the mapped row times width |
| Uncompressed.Stride1Aligned | sys/src/cmd/jpg/readbmp.c:91-111 | a 1-bit row takes `padded_width / 8` bytes: a multiple of 4 holding all width bits, less than 4 bytes over |
| Uncompressed.Stride4Aligned | sys/src/cmd/jpg/readbmp.c:119-142 | a 4-bit row takes ceil(width/2) + skip bytes: a multiple of 4, less than 4 bytes over |
| Uncompressed.Stride8Aligned | sys/src/cmd/jpg/readbmp.c:226-237 | an 8-bit row takes width + skip bytes: a multiple of 4, less than 4 bytes over |
| Uncompressed.Stride24Aligned | sys/src/cmd/jpg/readbmp.c:365-380 | a 24-bit row takes 3 * width + skip bytes: a multiple of 4, less than 4 bytes over |
| Uncompressed.BitPixel | sys/src/cmd/jpg/readbmp.c:106-110 | `clut[val & 0x80 ? 1 : 0]` after ix % 8 shifts is the table entry of bit ix of the row, most significant bit first |
| Uncompressed.Pixel4Pair | sys/src/cmd/jpg/readbmp.c:130-140 | byte ix / 2 of a 4-bit row gives pixel ix from its high nibble and pixel ix + 1 from its low nibble |
| Uncompressed.RowPixel1 | sys/src/cmd/jpg/readbmp.c:106-110 | a 1-bit pixel is `clut[0]` or `clut[1]`: column 8k reads bit 7 of byte k of the row and column 8k + 7 reads bit 0 |
| Uncompressed.RowPixel4 | sys/src/cmd/jpg/readbmp.c:130-140 | a 4-bit pixel is one of the first 16 table entries, and `clut[15]` when its byte lies past the end of the stream |
| Uncompressed.RowPixel8 | sys/src/cmd/jpg/readbmp.c:235-236 | an 8-bit pixel is `clut` of byte c of the row, and `clut[255]` past the end of the stream (`Bgetc(b) & 0xff`) |
| Uncompressed.RowPixel24 | sys/src/cmd/jpg/readbmp.c:374-379 | a 24-bit pixel has alpha 0 and blue, green, red equal to the three bytes at 3c |
| Uncompressed.RowPixel16 | sys/src/cmd/jpg/readbmp.c:318-357 | a BI_BITFIELDS pixel has alpha 0, and its blue, green and red are the word c[0] + (c[1] << 8) masked with entries 0, 1 and 2 of the table, each mask being that entry's blue byte plus its green byte shifted by 8, shifted so the mask's top bit lands on bit 7; otherwise the pixel is the 5-5-5 mask extraction of the word, with the slot's alpha kept |
| Uncompressed.Bitfields16IgnoresRedAlpha | sys/src/cmd/jpg/readbmp.c:318-327 | two tables that agree on the blue and green bytes of entries 0 to 2 give every BI_BITFIELDS 16-bit pixel the same value |
| Uncompressed.RowPixel32 | sys/src/cmd/jpg/readbmp.c:398-443 | a BI_BITFIELDS pixel has alpha 0, and its blue, green and red are the assembled word masked with entries 0, 1 and 2 of the table, each mask being that entry's blue, green, red and alpha bytes from least to most significant, shifted so the mask's top bit lands on bit 7; otherwise blue, green and red are the low 24 bits of the assembled word, with the slot's alpha kept |
| Uncompressed.Load1T | sys/src/cmd/jpg/readbmp.c:89-113 | the buffer becomes the 1-bit decoding of the rows in the order the sign of height picks, and the stream advances abs(height) strides |
| Uncompressed.Row1T | sys/src/cmd/jpg/readbmp.c:101-111 | one row: width pixels written from the write index on, nothing else touched, one padded stride read |
| Uncompressed.Load4T | sys/src/cmd/jpg/readbmp.c:117-145 | the buffer becomes the 4-bit decoding (high nibble first) of the rows, and the stream advances abs(height) strides |
| Uncompressed.Row4T | sys/src/cmd/jpg/readbmp.c:129-141 | one row: width pixels written, ceil(width/2) bytes read |
| Uncompressed.Load8T | sys/src/cmd/jpg/readbmp.c:224-240 | the buffer becomes `clut[byte]` for every byte of every row, rows in height order, and the stream advances abs(height) strides |
| Uncompressed.Row8T | sys/src/cmd/jpg/readbmp.c:235-236 | one row: width pixels written, width bytes read |
| Uncompressed.Load24T | sys/src/cmd/jpg/readbmp.c:363-383 | the buffer becomes the B,G,R triples with alpha 0 of every row, and the stream advances abs(height) strides |
| Uncompressed.Row24T | sys/src/cmd/jpg/readbmp.c:374-379 | one row: width pixels written from three bytes each |
| Uncompressed.Load16 | sys/src/cmd/jpg/readbmp.c:307-359 | the buffer becomes the direct 5-5-5 or mask-mode decoding of every 16-bit word, rows unpadded |
| Uncompressed.Row16 | sys/src/cmd/jpg/readbmp.c:329-357 | one row: width pixels written from two bytes each |
| Uncompressed.Load32 | sys/src/cmd/jpg/readbmp.c:387-445 | the buffer becomes the direct or mask-mode decoding of every 32-bit word, rows unpadded |
| Uncompressed.Row32 | sys/src/cmd/jpg/readbmp.c:415-443 | one row: width pixels written from four bytes each |
| Rle.NibbleBits | sys/src/cmd/jpg/readbmp.c:164-168 | `0xf & (v >> 4)` and `0xf & v` are the high and low nibbles that alternate in a run |
| Rle.LiteralsAligned | sys/src/cmd/jpg/readbmp.c:195-198 | a literal and its pad byte (`N & 1` for RLE8, `N & 3` in {1, 2} for RLE4) always take an even number of bytes |
| Rle.Put | sys/src/cmd/jpg/readbmp.c:162-173 | writing a code's pixels succeeds exactly when they fit in the buffer from ix + iy * width, and fails with OutOfBounds otherwise; on success those cells hold the pixels, every other cell is unchanged, ix advances by their count and iy stays |
| Rle.Run | sys/src/cmd/jpg/readbmp.c:160-173 | a run code (count, value byte; load_8C at readbmp.c:255-262) succeeds exactly when its count fits in the buffer from the write index (and, in RLE8, the value byte exists); it paints count pixels, `clut[v]` in RLE8 and the alternating nibbles in RLE4, advances ix by the count and the position by 2, and leaves every other cell unchanged; otherwise Truncated or OutOfBounds |
| Rle.Literal8 | sys/src/cmd/jpg/readbmp.c:281-297 | an RLE8 literal of n pixels succeeds exactly when its n bytes are present and fit in the buffer; it paints `clut[byte]` for each, leaves every other cell unchanged, and ends an even number of bytes on, after the pad byte of an odd n |
| Rle.Literal4 | sys/src/cmd/jpg/readbmp.c:193-214 | an RLE4 literal of n pixels succeeds exactly when it fits in the buffer; pixel k is the nibble of byte k / 2 (high first), other cells are unchanged, and it ends an even number of bytes on, after a pad byte when n & 3 is 1 or 2 |
| Rle.Step | sys/src/cmd/jpg/readbmp.c:158-214 | a successful code consumes at least one byte and keeps the buffer size |
| Rle.Decode | sys/src/cmd/jpg/readbmp.c:155-218 | a successful decode leaves a buffer of the same size |
| Rle.DecodeStep | sys/src/cmd/jpg/readbmp.c:155-157 | while ix < width, decoding is one code followed by decoding from the state it leaves |
| Rle.DecodeRestart | sys/src/cmd/jpg/readbmp.c:250-252 | a row filled without an end-of-line code restarts at column 0 of the same row |
| Rle.EndOfBitmap | sys/src/cmd/jpg/readbmp.c:271-274 | an end-of-bitmap code ends the decode with the buffer as it is: every cell no code painted keeps what it held |
| Rle.Delta | sys/src/cmd/jpg/readbmp.c:275-279 | a delta code paints nothing and moves the cursor dx columns right and dy rows down, then decoding goes on from there |
| Rle.DeltaExample | sys/src/cmd/jpg/readbmp.c:275-279 | in an 8 x 2 RLE8 image, delta (3, 1), a run of two pixels of colour 5 and end-of-bitmap paint cells 3 and 4 of the bottom row and leave the other 14 cells as they were |
| Rle.Run4Pair | sys/src/cmd/jpg/readbmp.c:163-173 | in an RLE4 run, even pixels are `clut[v >> 4]` and odd pixels `clut[v & 0xf]` |
| Rle.Literal4Pair | sys/src/cmd/jpg/readbmp.c:200-211 | in an RLE4 literal, pixel k comes from byte k / 2, high nibble first |
| Rle.PutRun8 | sys/src/cmd/jpg/readbmp.c:257-262 | the run loop writes n copies of `clut[v]` from the base index and nothing else |
| Rle.PutLiteral8 | sys/src/cmd/jpg/readbmp.c:282-293 | the literal loop writes `clut[byte]` for the n bytes that follow and nothing else |
| Rle.PutRun4 | sys/src/cmd/jpg/readbmp.c:162-173 | the run loop writes the n alternating-nibble pixels and nothing else |
| Rle.PutLiteral4 | sys/src/cmd/jpg/readbmp.c:194-211 | the literal loop writes the n nibble pixels of the bytes that follow and nothing else |
| Rle.RunCode8 | sys/src/cmd/jpg/readbmp.c:255-262 | an RLE8 run code leaves exactly the buffer, cursors and position that the code semantics give |
| Rle.RunCode4 | sys/src/cmd/jpg/readbmp.c:160-173 | an RLE4 run code leaves exactly the buffer, cursors and position that the code semantics give |
| Rle.LiteralCode8 | sys/src/cmd/jpg/readbmp.c:281-297 | an RLE8 literal, pad byte included, follows the code semantics |
| Rle.LiteralCode4 | sys/src/cmd/jpg/readbmp.c:193-214 | an RLE4 literal, pad byte included, follows the code semantics |
| Rle.Code8 | sys/src/cmd/jpg/readbmp.c:253-298 | one RLE8 code, escapes 0, 1 and 2 included, follows the code semantics |
| Rle.Code4 | sys/src/cmd/jpg/readbmp.c:158-215 | one RLE4 code, escapes 0, 1 and 2 included, follows the code semantics |
| Rle.Load8C | sys/src/cmd/jpg/readbmp.c:244-303 | the RLE8 decoder succeeds exactly when `Decode` does, and leaves the buffer `Decode` gives |
| Rle.Load4C | sys/src/cmd/jpg/readbmp.c:149-220 | the RLE4 decoder succeeds exactly when `Decode` does, and leaves the buffer `Decode` gives |
| RleEncode.RunLenSpec | sys/src/cmd/jpg/readbmp.c:255-262 | the run the encoder extends stops only at 255 pixels, at the end of the row or at a pixel that breaks its colour pattern |
| RleEncode.ChooseRun | sys/src/cmd/jpg/readbmp.c:160-173 | a run code the encoder picks covers a maximal run: one colour in RLE8, two alternating colours (the nibbles of the value byte) in RLE4 |
| RleEncode.ChooseLiteral | sys/src/cmd/jpg/readbmp.c:281-297 | the encoder picks a literal only where no run worth coding starts, and ends it at 255 pixels, at the end of the row or where such a run starts |
| RleEncode.LiteralLenSpec | sys/src/cmd/jpg/readbmp.c:281-297 | a literal the encoder extends stops at 255 pixels, at the end of the row or where a run worth coding starts |
| RleEncode.RowChunksCover | sys/src/cmd/jpg/readbmp.c:157-217 | the encoder's codes for a row cover its pixels exactly, each code fitting the pixels it stands for |
| RleEncode.TilesCover | sys/src/cmd/jpg/readbmp.c:155-218 | the encoder's codes for the rows from the top one down cover each of those rows |
| RleEncode.RunStep | sys/src/cmd/jpg/readbmp.c:160-173 | decoding a run code of the encoder draws exactly the run's pixels, `clut[idx[j]]`, and reads 2 bytes |
| RleEncode.Literal8Step | sys/src/cmd/jpg/readbmp.c:281-297 | decoding an RLE8 literal of the encoder draws exactly its pixels and reads its bytes and pad byte |
| RleEncode.Literal4Step | sys/src/cmd/jpg/readbmp.c:193-214 | decoding an RLE4 literal of the encoder, two pixels per byte, draws exactly its pixels and reads its bytes and pad byte |
| RleEncode.ChunkStep | sys/src/cmd/jpg/readbmp.c:158-214 | whatever the kind of the encoder's code, decoding it draws that code's pixels, touches no other cell and reads the code whole |
| RleEncode.ChunksLaid | sys/src/cmd/jpg/readbmp.c:157-217 | the bytes the encoder writes for a row are its codes, one after the other |
| RleEncode.RowsLaid | sys/src/cmd/jpg/readbmp.c:155-218 | the bytes the encoder writes for the rows are each row's codes and closing code, one row after the other |
| RleEncode.RowTrip | sys/src/cmd/jpg/readbmp.c:157-217 | decoding the codes of the rest of a row draws the rest of the row and nothing else, and comes to the same outcome as the state at the row's end |
| RleEncode.EndStep | sys/src/cmd/jpg/readbmp.c:267-274 | at the end of a row, end-of-line moves to the row below and end-of-bitmap ends the decode with the buffer as it is |
| RleEncode.RowsTrip | sys/src/cmd/jpg/readbmp.c:250-301 | decoding the codes of rows iy down to last, with the rows above drawn, leaves the image in those rows and every cell below row last as it held at the start |
| RleEncode.DecodeEncodeTop | sys/src/cmd/jpg/readbmp.c:271-274 | a stream that stops with end-of-bitmap after row last decodes to the image from row last up and leaves every cell below it unchanged |
| RleEncode.DecodeEncode | sys/src/cmd/jpg/readbmp.c:244-303 | decoding the reference encoder's bytes (maximal runs, literals with their pad byte, an end-of-line after each row and end-of-bitmap after the last, top row first) gives back the image `clut[idx[j]]` whatever the buffer held, in both modes |
| Header.ParseHeaders | sys/src/cmd/jpg/readbmp.c:457-486 | parsing succeeds iff the first two bytes read 0x4d42 ("BM"), and fails with BadMagic otherwise |
| Header.ParseInfo | sys/src/cmd/jpg/readbmp.c:466-486 | the info header's size is the r32 at offset 14; a 12-byte core header gives 16-bit width and height, BI_RGB and zeros elsewhere (the `memset`); any other size gives width, height, bpp and compression from offsets 18, 22, 28 and 30; every field fits its C type |
| Header.ParseOs2Info | sys/src/cmd/jpg/readbmp.c:469-474 | a 12-byte core header's 16-bit width, height, planes and bpp are read back as written |
| Header.ParseWindowsInfo | sys/src/cmd/jpg/readbmp.c:475-486 | every field of a 40-byte info header is read back as written |
| Header.ParseEncode | sys/src/cmd/jpg/readbmp.c:457-486 | parsing the written headers of any representable header pair, whatever follows them, gives that pair back |
| Header.EncodeParse | sys/src/cmd/jpg/readbmp.c:457-486 | the headers parsed from any long enough "BM" file are representable, and writing them gives back the file's first 26 or 54 bytes |
| Header.TableCount | sys/src/cmd/jpg/readbmp.c:488-497 | the entry count fails (shift by a negative amount) exactly when bpp < 0 and impcolours is 0 |
| Header.FullPalette | sys/src/cmd/jpg/readbmp.c:490-493 | depths 1, 4 and 8 with impcolours 0 load 2^bpp entries, between 2 and 256 |
| Header.WideTableOverflows | sys/src/cmd/jpg/readbmp.c:488-493 | depths 9 to 15 with impcolours 0 ask for more than the 256 slots of the table |
| Header.Entry | sys/src/cmd/jpg/readbmp.c:504-507 | a table entry is the four bytes B, G, R, A at its offset, and 0xFF in every channel past the end of the stream |
| Header.Table | sys/src/cmd/jpg/readbmp.c:499-509 | the table has 256 entries: those below the count are read four bytes each from the table offset, and those from the count on keep the stale stack contents |
| Header.TableOfPalette | sys/src/cmd/jpg/readbmp.c:499-509 | loading n B,G,R,A entries written at the table offset gives exactly those entries, with the rest of the table untouched |
| ReadBmp.LoadTable | sys/src/cmd/jpg/readbmp.c:499-509 | loading fails exactly when the count is over 256 (TableOverflow) or positive with a negative table offset (BadSeek); a count of 0 or less keeps the old table; a loaded table has 256 entries and keeps its old contents from the count on |
| ReadBmp.ReadTable | sys/src/cmd/jpg/readbmp.c:503-508 | the table loop leaves the table the loaded entries give, over its old contents |
| ReadBmp.Dispatch | sys/src/cmd/jpg/readbmp.c:520-547 | whatever decoder runs, a successful result has width * abs(height) pixels |
| ReadBmp.Decodes | sys/src/cmd/jpg/readbmp.c:520-547 | the switch over depth and compression leaves the buffer the selected decoder's specification gives, or its error |
| ReadBmp.ReadSpecNoMemory | sys/src/cmd/jpg/readbmp.c:511-518 | once the table is loaded, a negative width * abs(height) fails with NoMemory, whatever the bitmap offset |
| ReadBmp.ReadSpec | sys/src/cmd/jpg/readbmp.c:449-549 | a file without the signature fails with BadMagic, and a decoded bitmap carries the header's width and height and width * abs(height) pixels |
| ReadBmp.ReadBMP | sys/src/cmd/jpg/readbmp.c:449-549 | the reader returns exactly what `ReadSpec` gives for the file |
| ReadBmp.PaletteFile | sys/src/cmd/jpg/readbmp.c:488-515 | for a written header, palette and pixel data, the reader parses the header back, loads the palette and seeks to the pixel data |
| ReadBmp.ReadRleFile | sys/src/cmd/jpg/readbmp.c:449-549 | a whole RLE4 or RLE8 file built by the writers decodes to the image it encodes |
| ReadBmp.RleDecodes | sys/src/cmd/jpg/readbmp.c:524-535 | a 4- or 8-bit RLE header sends pixel data that is the encoder's codes for an image to the RLE decoder, which gives back that image |
| ReadBmp.Split | sys/src/cmd/jpg/readbmp.c:575-602 | the split fails exactly when width * height <= 0, and otherwise gives 3 planes of width * height bytes whose merge is every pixel with alpha cleared |
| ReadBmp.TopDownRejected | sys/src/cmd/jpg/readbmp.c:579-593 | a top-down bitmap (height < 0) with pixels is never split: its planes cannot be allocated |
| ReadBmp.BreadSpec | sys/src/cmd/jpg/readbmp.c:566-573 | a colour space other than CRGB fails before any decoding, and success means the file decodes and the bitmap splits |
| ReadBmp.CopyPlanes | sys/src/cmd/jpg/readbmp.c:592-602 | the do-while copy fills chans[0], chans[1] and chans[2] with the red, green and blue of every pixel |
| ReadBmp.Breadbmp | sys/src/cmd/jpg/readbmp.c:552-620 | the channel split returns exactly what `BreadSpec` gives |

## Left out

- The `Biobuf` machinery (`Binit`, `Bterm`, buffering) and the `readbmp` wrapper at readbmp.c:622-633 are not modelled. The stream is a byte sequence with a position.
- `calloc` and `free` are not modelled, nor the `Error:` cleanup path in `Breadbmp`. Allocation always succeeds, except for a negative size, which gives NoMemory. A `nil` plane from `calloc(width, height)` with a zero product is not modelled; the do-while then writes past the empty planes, which is OutOfBounds.
- `Rect` and the channel descriptor come from library headers that are not part of this model. They are plain datatypes: `Rect(minx, miny, maxx, maxy)`, and a colour space that is `CRGB` or another code.
- `bmp.h` and `imagefile.h` are not part of this model. The compression codes 0 to 3 follow the BMP format (BI_RGB, BI_RLE8, BI_RLE4, BI_BITFIELDS), and `Filehdrsz` is 14.
- The uninitialised `clut` on the stack is the parameter `stale`, the 256 entries it held before.
- Undefined behaviour in the C becomes an error result rather than a modelled outcome:
  - an RLE write outside the buffer gives OutOfBounds;
  - more than 256 table entries give TableOverflow;
  - `1 << bpp` with a negative bpp gives NegativeShift;
  - an RLE count or RLE8 index of -1 read at the end of the stream gives Truncated.
- ReadBmp.LoadTable, ReadBmp.ReadSpec: a failed `Bseek` is not modelled where its outcome matters. readbmp.c:501 and readbmp.c:515 ignore its result, so after a seek to a negative offset the C reads on from wherever `Biobuf` leaves the stream. The model returns BadSeek in two cases instead of loading a palette or decoding from an unspecified position: a negative table offset with a positive entry count, and a negative bitmap offset with a pixel count of 0 or more. A count of 0 or less reads no entry, so the seek at readbmp.c:501 cannot matter and the old table stays. A negative pixel count fails with NoMemory first.
- `sysfatal` becomes the results BadMagic and NoMemory. The process does not exit.
- An RLE decode whose outer loop cannot end (width <= 0 with rows left) is the result Diverges, not a non-terminating computation.
- Uncompressed.Load16: requires the whole pixel area to be present, because a short `Bread` leaves unspecified bytes in `c[]`. `ReadBmp.Dispatch` fails with Truncated instead of calling it on a short stream.
- Uncompressed.Load32: requires the whole pixel area to be present, for the same reason as Load16.
- The C `int` arithmetic of `ReadBMP` and the loaders is not modelled as 32-bit (`*width * abs(*height)`, `bmih.size + Filehdrsz`, `(height - 1) * width`). The model uses unbounded integers, so header values whose products overflow in C are not reproduced.
