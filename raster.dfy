/**
 * The output raster: width * |height| pixels, row-major, top row first.
 * A BMP stores its rows bottom-up when height > 0 and top-down when
 * height < 0; every uncompressed decoder reads the file rows in order and
 * places file row t at output row RowMap(height, t).
 */
module Raster {

  import opened Bits

  function Abs(x: int): nat
  {
    if x < 0 then -x else x
  }

  /** The output row of file row r, and the file row of output row r. */
  function RowMap(height: int, r: int): int
  {
    if height > 0 then height - 1 - r else r
  }

  /**
   * Output row of buffer index j: how many whole rows of width pixels lie
   * before it. Counted one row at a time; RowColIsDivMod shows it is j / width.
   */
  function RowOf(width: int, j: int): nat
    decreases j
  {
    if width <= 0 || j < width then 0 else 1 + RowOf(width, j - width)
  }

  /** Output column of buffer index j: what is left of j after those rows. */
  function ColOf(width: int, j: int): nat
    decreases j
  {
    if width <= 0 || j < 0 then 0 else if j < width then j else ColOf(width, j - width)
  }

  lemma {:induction false} RowColIsDivMod(width: int, j: int)
    requires width > 0 && j >= 0
    ensures RowOf(width, j) == j / width && ColOf(width, j) == j % width
    decreases j
  {
    if j < width {
      DivModUnique(j, width, 0, j);
    } else {
      RowColIsDivMod(width, j - width);
      var q, r := (j - width) / width, (j - width) % width;
      DivModUnique(j, width, q + 1, r);
    }
  }

  /**
   * Index j has been decoded once the decoder, reading file rows in order,
   * has passed file row t up to column c.
   */
  predicate Before(height: int, width: int, t: int, c: int, j: int)
  {
    var k := RowMap(height, RowOf(width, j));
    k < t || (k == t && ColOf(width, j) < c)
  }

  /** Stream offset of the file row holding buffer index j. */
  function RowStart(pos: int, stride: int, width: int, height: int, j: int): int
  {
    RowPos(pos, stride, RowMap(height, RowOf(width, j)))
  }

  /** RowMap permutes the rows 0 .. |height|-1 and is its own inverse. */
  lemma {:induction false} RowMapPermutes(height: int, r: int)
    requires 0 <= r < Abs(height)
    ensures 0 <= RowMap(height, r) < Abs(height)
    ensures RowMap(height, RowMap(height, r)) == r
  {
  }

  /** Buffer index of file row t, column c, and where that index sits. */
  lemma {:induction false} Cell(height: int, width: int, t: int, c: int)
    requires width > 0 && 0 <= t < Abs(height) && 0 <= c < width
    ensures var i := RowMap(height, t) * width + c;
      0 <= i < Abs(height) * width && RowOf(width, i) == RowMap(height, t) && ColOf(width, i) == c
  {
    var r := RowMap(height, t);
    DivModUnique(r * width + c, width, r, c);
    RowColIsDivMod(width, r * width + c);
    MulMonotone(r + 1, Abs(height), width);
    assert (r + 1) * width == r * width + width;
  }

  /** Index j is determined by its row and column. */
  lemma {:induction false} RowColDetermine(width: int, j: int)
    requires width > 0 && j >= 0
    ensures j == RowOf(width, j) * width + ColOf(width, j)
    ensures RowOf(width, j) >= 0 && 0 <= ColOf(width, j) < width
  {
    RowColIsDivMod(width, j);
  }

  /** Before any file row is read, no index of the buffer is decoded. */
  lemma {:induction false} NoneBefore(height: int, width: int)
    ensures forall j :: 0 <= j < Abs(height) * width ==> !Before(height, width, 0, 0, j)
  {
    forall j | 0 <= j < Abs(height) * width
      ensures !Before(height, width, 0, 0, j)
    {
      if width <= 0 {
        MulMonotone(width, 0, Abs(height));
        assert false;
      }
      CellSurjective(height, width, j);
    }
  }

  /** After all |height| file rows, every index of the buffer is decoded. */
  lemma {:induction false} AllRows(height: int, width: int)
    requires width > 0
    ensures forall j :: 0 <= j < Abs(height) * width ==> Before(height, width, Abs(height), 0, j)
  {
    forall j | 0 <= j < Abs(height) * width
      ensures Before(height, width, Abs(height), 0, j)
    {
      RowColDetermine(width, j);
      var r := RowOf(width, j);
      if r >= Abs(height) {
        MulMonotone(Abs(height), r, width);
        assert false;
      }
      RowMapPermutes(height, r);
    }
  }

  /** Distinct (file row, column) pairs land on distinct indices: no index is written twice. */
  lemma {:induction false} CellInjective(height: int, width: int, t1: int, c1: int, t2: int, c2: int)
    requires width > 0
    requires 0 <= t1 < Abs(height) && 0 <= c1 < width
    requires 0 <= t2 < Abs(height) && 0 <= c2 < width
    requires RowMap(height, t1) * width + c1 == RowMap(height, t2) * width + c2
    ensures t1 == t2 && c1 == c2
  {
    Cell(height, width, t1, c1);
    Cell(height, width, t2, c2);
    RowMapPermutes(height, t1);
    RowMapPermutes(height, t2);
  }

  /** Every index of the buffer is the cell of some (file row, column) pair: none is left out. */
  lemma {:induction false} CellSurjective(height: int, width: int, j: int)
    requires width > 0 && 0 <= j < Abs(height) * width
    ensures var t, c := RowMap(height, RowOf(width, j)), ColOf(width, j);
      0 <= t < Abs(height) && 0 <= c < width && j == RowMap(height, t) * width + c
  {
    RowColDetermine(width, j);
    var r := RowOf(width, j);
    if r >= Abs(height) {
      MulMonotone(Abs(height), r, width);
    }
    RowMapPermutes(height, r);
  }

  /**
   * The decoders' write index: after a file row it has moved on by width
   * and then by step_up (-2 * width bottom-up, 0 top-down), which puts it
   * at the start of the next file row's output row.
   */
  lemma {:induction false} StepRow(height: int, width: int, t: int)
    ensures RowMap(height, t) * width + width + (if height > 0 then -2 * width else 0)
         == RowMap(height, t + 1) * width
  {
    if height > 0 {
      assert (height - 1 - t) * width == (height - 2 - t) * width + width;
    } else {
      assert (t + 1) * width == t * width + width;
    }
  }

  /**
   * The decoders' write index i at the start of file row t: (height - 1) *
   * width for a bottom-up image and 0 for a top-down one, then after each
   * row width further on and step_up (-2 * width or 0) back.
   */
  function RowBase(height: int, width: int, t: nat): int
  {
    if t == 0 then (if height > 0 then (height - 1) * width else 0)
    else RowBase(height, width, t - 1) + width + (if height > 0 then -2 * width else 0)
  }

  /** The stream offset of file row t when every row takes stride bytes. */
  function RowPos(pos: int, stride: int, t: int): int
  {
    if t <= 0 then pos else RowPos(pos, stride, t - 1) + stride
  }

  /** The write index of file row t is the first index of output row RowMap(height, t). */
  lemma {:induction false} RowBaseIsRowMap(height: int, width: int, t: nat)
    ensures RowBase(height, width, t) == RowMap(height, t) * width
  {
    if t > 0 {
      RowBaseIsRowMap(height, width, t - 1);
      StepRow(height, width, t - 1);
    }
  }

  /** File row t starts t strides into the pixel data. */
  lemma {:induction false} RowPosIsOffset(pos: int, stride: int, t: nat)
    ensures RowPos(pos, stride, t) == pos + t * stride
  {
    if t > 0 {
      RowPosIsOffset(pos, stride, t - 1);
      NextOffset(pos, stride, t - 1);
    }
  }

  /**
   * File row t fills the buffer indices [RowBase, RowBase + width): reading
   * it moves Before from row t to row t + 1 over exactly those indices,
   * and index k among them is column k - RowBase of a row that starts at
   * RowPos in the stream.
   */
  lemma {:induction false} RowSpan(pos: int, stride: int, height: int, width: int, t: nat)
    requires width > 0 && t < Abs(height)
    ensures forall j :: 0 <= j ==>
      (Before(height, width, t + 1, 0, j) <==>
       Before(height, width, t, 0, j) || RowBase(height, width, t) <= j < RowBase(height, width, t) + width)
    ensures forall j :: RowBase(height, width, t) <= j < RowBase(height, width, t) + width ==>
      RowStart(pos, stride, width, height, j) == RowPos(pos, stride, t) &&
      ColOf(width, j) == j - RowBase(height, width, t) && !Before(height, width, t, 0, j)
  {
    forall j | 0 <= j
      ensures Before(height, width, t + 1, 0, j) <==>
              Before(height, width, t, 0, j) || RowBase(height, width, t) <= j < RowBase(height, width, t) + width
    {
      RowEntered(height, width, t, j);
    }
    RowCols(pos, stride, height, width, t);
  }

  /** The indices file row t fills are its columns, in order, and none was decoded before it. */
  lemma {:induction false} RowCols(pos: int, stride: int, height: int, width: int, t: nat)
    requires width > 0 && t < Abs(height)
    ensures forall j :: RowBase(height, width, t) <= j < RowBase(height, width, t) + width ==>
      RowStart(pos, stride, width, height, j) == RowPos(pos, stride, t) &&
      ColOf(width, j) == j - RowBase(height, width, t) && !Before(height, width, t, 0, j)
  {
    RowBaseIsRowMap(height, width, t);
    RowMapPermutes(height, t);
    Cell(height, width, t, 0);
    var base := RowBase(height, width, t);
    forall j | base <= j < base + width
      ensures RowOf(width, j) == RowMap(height, t) && ColOf(width, j) == j - base
      ensures !Before(height, width, t, 0, j)
    {
      RowSpanAt(height, width, t, j);
    }
  }

  /** File row t lies inside the buffer. */
  lemma {:induction false} RowBaseInside(height: int, width: int, t: nat)
    requires width >= 0 && t < Abs(height)
    ensures 0 <= RowBase(height, width, t) && RowBase(height, width, t) + width <= Abs(height) * width
  {
    RowBaseIsRowMap(height, width, t);
    RowMapPermutes(height, t);
    var r := RowMap(height, t);
    MulMonotone(0, r, width);
    MulMonotone(r + 1, Abs(height), width);
    assert (r + 1) * width == r * width + width;
  }

  /** Index j is decoded by file row t exactly when it lies in that row's span. */
  lemma {:induction false} RowEntered(height: int, width: int, t: nat, j: int)
    requires width > 0 && t < Abs(height) && 0 <= j
    ensures var base := RowBase(height, width, t);
      Before(height, width, t + 1, 0, j) <==> Before(height, width, t, 0, j) || base <= j < base + width
  {
    RowBaseIsRowMap(height, width, t);
    RowMapPermutes(height, t);
    RowSpanAt(height, width, t, j);
    var k := RowMap(height, RowOf(width, j));
    assert k == t <==> RowOf(width, j) == RowMap(height, t);
  }

  lemma {:induction false} RowSpanAt(height: int, width: int, t: int, j: int)
    requires width > 0 && 0 <= j
    ensures var base := RowMap(height, t) * width;
      (RowOf(width, j) == RowMap(height, t)) <==> (base <= j < base + width)
    ensures var base := RowMap(height, t) * width;
      base <= j < base + width ==> ColOf(width, j) == j - base
  {
    var r := RowMap(height, t);
    RowColDetermine(width, j);
    RowColIsDivMod(width, j);
    if r * width <= j < r * width + width {
      DivModUnique(j, width, r, j - r * width);
    }
  }

  /** The cursor at the start of file row t + 1 is one stride past that of row t. */
  lemma {:induction false} NextOffset(pos: int, stride: int, t: int)
    ensures pos + t * stride + stride == pos + (t + 1) * stride
  {
  }

  /**
   * A bottom-up image (height > 0) and the top-down image with the same
   * rows (height < 0) read output row r from file rows height-1-r and r.
   */
  lemma {:induction false} FlipRows(pos: int, stride: int, width: int, height: int, r: int, c: int)
    requires width > 0 && height > 0 && 0 <= r < height && 0 <= c < width
    ensures RowStart(pos, stride, width, height, r * width + c) == pos + (height - 1 - r) * stride
    ensures RowStart(pos, stride, width, -height, r * width + c) == pos + r * stride
  {
    DivModUnique(r * width + c, width, r, c);
    RowColIsDivMod(width, r * width + c);
    RowPosIsOffset(pos, stride, height - 1 - r);
    RowPosIsOffset(pos, stride, r);
  }

  // A decoder in terms of rp, the pixel it makes of column c of the file
  // row that starts at stream offset row from the value prev the buffer
  // held there before.

  /** The pixel a decoder leaves at buffer index j. */
  function PixelOf<P>(rp: (int, nat, P) -> P, pos: int, stride: int, width: int, height: int, j: int, prev: P): P
  {
    rp(RowStart(pos, stride, width, height, j), ColOf(width, j), prev)
  }

  /** The whole buffer once every file row is decoded, from what it held before. */
  function Decoded<P>(orig: seq<P>, pos: int, stride: int, width: int, height: int, rp: (int, nat, P) -> P): (s: seq<P>)
    ensures |s| == |orig|
  {
    seq(|orig|, j requires 0 <= j < |orig| => PixelOf(rp, pos, stride, width, height, j, orig[j]))
  }

  /**
   * The buffer s after the first t file rows: each index they cover holds
   * its decoded pixel, every other index what it held before (orig).
   */
  ghost predicate Filled<P>(s: seq<P>, orig: seq<P>, pos: int, stride: int, width: int, height: int, t: int,
                      rp: (int, nat, P) -> P)
  {
    |s| == |orig| &&
    forall j :: 0 <= j < |s| ==>
      s[j] == if Before(height, width, t, 0, j) then PixelOf(rp, pos, stride, width, height, j, orig[j]) else orig[j]
  }

  /**
   * The buffer s after the first n pixels of the file row at stream offset
   * row were written from index i0 on, into a buffer that held s0.
   */
  ghost predicate RowFilled<P>(s: seq<P>, s0: seq<P>, i0: int, n: int, row: int, rp: (int, nat, P) -> P)
  {
    |s| == |s0| &&
    forall k :: 0 <= k < |s| ==> s[k] == if i0 <= k < i0 + n then rp(row, k - i0, s0[k]) else s0[k]
  }

  /** Before any row is read, the buffer is as it was. */
  lemma {:induction false} FillStart<P>(s: seq<P>, pos: int, stride: int, width: int, height: int, rp: (int, nat, P) -> P)
    requires |s| == width * Abs(height)
    ensures Filled(s, s, pos, stride, width, height, 0, rp)
  {
    NoneBefore(height, width);
  }

  /** Writing file row t where RowBase and RowPos put it advances Filled by one row. */
  lemma {:induction false} FillRow<P>(s0: seq<P>, s1: seq<P>, orig: seq<P>, pos: int, stride: int, width: int,
                                      height: int, t: nat, rp: (int, nat, P) -> P)
    requires width >= 0 && t < Abs(height) && |orig| == width * Abs(height)
    requires Filled(s0, orig, pos, stride, width, height, t, rp)
    requires RowFilled(s1, s0, RowBase(height, width, t), width, RowPos(pos, stride, t), rp)
    ensures Filled(s1, orig, pos, stride, width, height, t + 1, rp)
  {
    if width > 0 {
      var base := RowBase(height, width, t);
      RowSpan(pos, stride, height, width, t);
      forall j | 0 <= j < |s1|
        ensures s1[j] == if Before(height, width, t + 1, 0, j)
                         then PixelOf(rp, pos, stride, width, height, j, orig[j]) else orig[j]
      {
        if base <= j < base + width {
          assert s0[j] == orig[j];
        }
      }
    }
  }

  /** Once all |height| rows are read, the buffer is the decoded image. */
  lemma {:induction false} FillEnd<P>(s: seq<P>, orig: seq<P>, pos: int, stride: int, width: int, height: int,
                                      rp: (int, nat, P) -> P)
    requires |orig| == width * Abs(height)
    requires Filled(s, orig, pos, stride, width, height, Abs(height), rp)
    ensures s == Decoded(orig, pos, stride, width, height, rp)
  {
    if width > 0 {
      AllRows(height, width);
    } else {
      MulMonotone(width, 0, Abs(height));
    }
  }

  /** Writing the next pixel of a row keeps RowFilled. */
  lemma {:induction false} RowExtend<P>(s: seq<P>, s0: seq<P>, i0: int, n: nat, row: int, rp: (int, nat, P) -> P)
    requires RowFilled(s, s0, i0, n, row, rp) && 0 <= i0 + n < |s|
    ensures RowFilled(s[i0 + n := rp(row, n, s[i0 + n])], s0, i0, n + 1, row, rp)
  {
  }
}
