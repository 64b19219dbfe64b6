/**
 * Pixel values: the Rgb record every decoder produces, and the rules that
 * turn 16- and 32-bit pixel words into channel bytes (fixed layouts and
 * the three-mask BI_BITFIELDS form).
 */
module Pixels {

  import opened Bits
  import opened Stream

  /** One decoded pixel, in the field order of the C struct. */
  datatype Rgb = Rgb(blue: Byte, green: Byte, red: Byte, alpha: Byte)

  /** What calloc leaves in every slot of a fresh pixel buffer. */
  const Zero := Rgb(0, 0, 0, 0)

  /**
   * One channel in mask mode: shift = msb(mask) - 8; the masked word is
   * shifted right by shift, or left by -shift when that is negative, in
   * 32-bit unsigned arithmetic, and cast to uint8_t. The cast never loses
   * bits: the result is the masked value scaled so that the mask's top bit
   * lands on bit 7 of the byte.
   */
  function MaskChannel(val: nat, mask: nat): (c: Byte)
    requires mask < 0x1_0000_0000
    ensures c == Shl(And(val, mask), 8) / Pow2(Msb(mask))
  {
    var k := Msb(mask);
    var x := And(val, mask);
    ScaleToByte(x, k);
    if k >= 8 then Shr(x, k - 8) % 0x100
    else (Shl(x, 8 - k) % 0x1_0000_0000) % 0x100
  }

  /**
   * A value below 2^k, shifted right by k - 8 or left by 8 - k, fits a
   * byte: the 32-bit wrap and the cast to uint8_t lose nothing.
   */
  lemma {:induction false} ScaleToByte(x: nat, k: nat)
    requires x < Pow2(k)
    ensures (if k >= 8 then Shr(x, k - 8) % 0x100 else (Shl(x, 8 - k) % 0x1_0000_0000) % 0x100)
         == Shl(x, 8) / Pow2(k)
  {
    if k >= 8 {
      ScaleDown(x, k);
      SmallMod(Shr(x, k - 8));
    } else {
      ScaleUp(x, k);
      SmallMod(Shl(x, 8 - k));
    }
  }

  lemma {:induction false} SmallMod(y: nat)
    requires y < 0x100
    ensures y % 0x100 == y && (y % 0x1_0000_0000) % 0x100 == y
  {
  }

  lemma {:induction false} ScaleDown(x: nat, k: nat)
    requires 8 <= k && x < Pow2(k)
    ensures Shr(x, k - 8) == Shl(x, 8) / Pow2(k) < 0x100
  {
    var p := Pow2(k - 8);
    assert Pow2(k) == 0x100 * p by {
      Pow2Add(8, k - 8);
      assert Pow2(8) == 0x100;
    }
    var q, r := x / p, x % p;
    assert Shl(x, 8) == q * (0x100 * p) + 0x100 * r by {
      assert Pow2(8) == 0x100;
      Regroup(x, q, p, r);
    }
    DivModUnique(Shl(x, 8), 0x100 * p, q, 0x100 * r);
    if q >= 0x100 {
      MulMonotone(0x100, q, p);
    }
  }

  lemma {:induction false} Regroup(x: int, q: int, p: int, r: int)
    requires x == q * p + r
    ensures x * 0x100 == q * (0x100 * p) + 0x100 * r
  {
  }

  lemma {:induction false} ScaleUp(x: nat, k: nat)
    requires k < 8 && x < Pow2(k)
    ensures Shl(x, 8 - k) == Shl(x, 8) / Pow2(k) < 0x100
  {
    var p := Pow2(8 - k);
    var pk := Pow2(k);
    assert p * pk == 0x100 by {
      Pow2Add(8 - k, k);
      assert Pow2(8) == 0x100;
    }
    assert Shl(x, 8) == (x * p) * pk by {
      Assoc3(x, p, pk);
    }
    DivModUnique(Shl(x, 8), pk, x * p, 0);
    MulMonotone(x + 1, pk, p);
    assert (x + 1) * p == x * p + p;
    assert pk * p == 0x100;
  }

  lemma {:induction false} Assoc3(a: int, b: int, c: int)
    ensures a * (b * c) == (a * b) * c
  {
  }

  /**
   * In mask mode a contiguous field of w <= 8 bits comes out left-aligned
   * in the byte: the field's value shifted left by 8 - w.
   */
  lemma {:induction false} FieldChannel(val: nat, w: nat, s: nat)
    requires 1 <= w <= 8 && FieldMask(w, s) < 0x1_0000_0000
    ensures MaskChannel(val, FieldMask(w, s)) == Shl(Shr(val, s) % Pow2(w), 8 - w)
  {
    MsbOfField(w, s);
    FieldValue(val, w, s);
    var f := Shr(val, s) % Pow2(w);
    var x := Shl(f, s);
    Pow2Add(w, s);
    Pow2Add(8 - w, w);
    assert Pow2(8) == 0x100;
    var big := f * Pow2(8 - w);
    assert Shl(x, 8) == big * Pow2(w + s) by {
      calc {
        Shl(x, 8);
        (f * Pow2(s)) * (Pow2(8 - w) * Pow2(w));
        { Assoc4(f, Pow2(s), Pow2(8 - w), Pow2(w)); }
        (f * Pow2(8 - w)) * (Pow2(w) * Pow2(s));
      }
    }
    DivModUnique(Shl(x, 8), Pow2(w + s), big, 0);
  }

  lemma {:induction false} Assoc4(a: int, b: int, c: int, d: int)
    ensures (a * b) * (c * d) == (a * c) * (d * b)
  {
  }

  /** The pixel mask mode produces; alpha is always cleared. */
  function MaskPixel(val: nat, blueMask: nat, greenMask: nat, redMask: nat): Rgb
    requires blueMask < 0x1_0000_0000 && greenMask < 0x1_0000_0000 && redMask < 0x1_0000_0000
  {
    Rgb(MaskChannel(val, blueMask), MaskChannel(val, greenMask), MaskChannel(val, redMask), 0)
  }

  /** A 16-bit mask built from a colour-table entry: its blue and green bytes only. */
  function Mask16(e: Rgb): (m: nat)
    ensures m < 0x1_0000
    ensures m == e.blue + 0x100 * e.green
    ensures m % 0x100 == e.blue && m / 0x100 == e.green
  {
    SmallPowers();
    DivModUnique(e.blue + 0x100 * e.green, 0x100, e.green, e.blue);
    e.blue + Shl(e.green, 8)
  }

  /** A 32-bit mask built from a colour-table entry, blue byte least significant. */
  function Mask32(e: Rgb): (m: nat)
    ensures m < 0x1_0000_0000
    ensures m == e.blue + 0x100 * e.green + 0x1_0000 * e.red + 0x100_0000 * e.alpha
  {
    SmallPowers();
    e.blue + Shl(e.green, 8) + Shl(e.red, 16) + Shl(e.alpha, 24)
  }

  /** The four bytes of a 32-bit mask, least significant first, are the entry's blue, green, red and alpha. */
  lemma {:induction false} Mask32Bytes(e: Rgb)
    ensures var m := Mask32(e);
      && m % 0x100 == e.blue && m / 0x100 % 0x100 == e.green
      && m / 0x1_0000 % 0x100 == e.red && m / 0x100_0000 == e.alpha
  {
    var m := Mask32(e);
    var b, g, r, a := e.blue as int, e.green as int, e.red as int, e.alpha as int;
    DivModUnique(m, 0x100, g + 0x100 * r + 0x1_0000 * a, b);
    DivModUnique(g + 0x100 * r + 0x1_0000 * a, 0x100, r + 0x100 * a, g);
    DivModUnique(m, 0x1_0000, r + 0x100 * a, b + 0x100 * g);
    DivModUnique(r + 0x100 * a, 0x100, a, r);
    DivModUnique(m, 0x100_0000, a, b + 0x100 * g + 0x1_0000 * r);
  }

  /** A 16-bit mask does not see the red and alpha bytes of its table entry. */
  lemma {:induction false} Mask16IgnoresRedAlpha(e: Rgb, red: Byte, alpha: Byte)
    ensures Mask16(e.(red := red, alpha := alpha)) == Mask16(e)
  {
  }

  /** The 16-bit pixel word: two bytes, low byte first. */
  function Word16(c0: Byte, c1: Byte): nat
  {
    c0 + Shl(c1, 8)
  }

  /**
   * The 32-bit pixel word as the decoder assembles it: bytes 0, 1 and 2 in
   * place, and byte 1 again (not byte 3) in the top eight bits.
   */
  function Word32(c0: Byte, c1: Byte, c2: Byte, c3: Byte): (w: nat)
    ensures w < 0x1_0000_0000
    ensures w % 0x100_0000 == c0 + 0x100 * c1 + 0x1_0000 * c2
    ensures w / 0x100_0000 == c1
  {
    SmallPowers();
    var low := c0 + 0x100 * c1 + 0x1_0000 * c2;
    DivModUnique(low + 0x100_0000 * c1, 0x100_0000, c1, low);
    c0 + Shl(c1, 8) + Shl(c2, 16) + Shl(c1, 24)
  }

  /**
   * The 16-bit pixel without masks: five bits per channel spread to the top
   * of each byte; alpha keeps whatever the buffer held.
   */
  function Direct16(prev: Rgb, c0: Byte, c1: Byte): (r: Rgb)
    ensures r.alpha == prev.alpha
    ensures r.blue == 8 * (Word16(c0, c1) % 32)
    ensures r.green == 8 * (Word16(c0, c1) / 32 % 32)
    ensures r.red == 8 * (Word16(c0, c1) / 1024 % 32)
  {
    var f8 := FieldMask(5, 3);
    assert f8 == 0xF8;
    BlueField(c0, c1);
    GreenField(c0, c1);
    RedField(c0, c1);
    prev.(blue := And(Shl(c0, 3), f8),
          green := And(Shl(c1, 6) + Shr(c0, 2), f8),
          red := And(Shl(c1, 1), f8))
  }

  /**
   * The 32-bit pixel without masks: bytes 0, 1, 2 are blue, green, red;
   * byte 3 is dropped and alpha keeps whatever the buffer held.
   */
  function Direct32(prev: Rgb, c0: Byte, c1: Byte, c2: Byte, c3: Byte): (r: Rgb)
    ensures r.alpha == prev.alpha
    ensures r.blue + 0x100 * r.green + 0x1_0000 * r.red == Word32(c0, c1, c2, c3) % 0x100_0000
  {
    prev.(blue := c0, green := c1, red := c2)
  }

  /** The 5-bit fields of the 16-bit word, as the direct formulas extract them. */
  lemma {:induction false} BlueField(c0: Byte, c1: Byte)
    ensures And(Shl(c0, 3), FieldMask(5, 3)) == 8 * (Word16(c0, c1) % 32)
  {
    var x := Shl(c0, 3);
    FieldValue(x, 5, 3);
    BlueBits(c0, c1);
    ScaleField(Shr(x, 3));
  }

  /** Bits 0 to 4 of the word are the low five bits of c0, which c0 << 3 >> 3 keeps. */
  lemma {:induction false} BlueBits(c0: Byte, c1: Byte)
    ensures Shr(Shl(c0, 3), 3) % 32 == Word16(c0, c1) % 32
  {
    SmallPowers();
    var c0', c1' := c0 as int, c1 as int;
    DivModUnique(c0' * 8, 8, c0', 0);
    DivModUnique(c0' + 0x100 * c1', 32, c0' / 32 + 8 * c1', c0' % 32);
  }

  lemma {:induction false} GreenField(c0: Byte, c1: Byte)
    ensures And(Shl(c1, 6) + Shr(c0, 2), FieldMask(5, 3)) == 8 * (Word16(c0, c1) / 32 % 32)
  {
    var x := Shl(c1, 6) + Shr(c0, 2);
    FieldValue(x, 5, 3);
    GreenBits(c0, c1);
    ScaleField(Shr(x, 3));
  }

  /** Bits 5 to 15 of the word are c1 above the top three bits of c0, as (c1 << 6 | c0 >> 2) >> 3 gives them. */
  lemma {:induction false} GreenBits(c0: Byte, c1: Byte)
    ensures Shr(Shl(c1, 6) + Shr(c0, 2), 3) == Word16(c0, c1) / 32
  {
    SmallPowers();
    var c0', c1' := c0 as int, c1 as int;
    var q, r := c0' / 32, c0' % 32;
    DivModUnique(c0' + 0x100 * c1', 32, q + 8 * c1', r);
    DivModUnique(c0', 4, 8 * q + r / 4, r % 4);
    DivModUnique(c1' * 64 + c0' / 4, 8, 8 * c1' + q, r / 4);
  }

  lemma {:induction false} RedField(c0: Byte, c1: Byte)
    ensures And(Shl(c1, 1), FieldMask(5, 3)) == 8 * (Word16(c0, c1) / 1024 % 32)
  {
    var x := Shl(c1, 1);
    FieldValue(x, 5, 3);
    RedBits(c0, c1);
    ScaleField(Shr(x, 3));
  }

  /** Bits 10 to 15 of the word are the top six bits of c1, which c1 << 1 >> 3 also gives. */
  lemma {:induction false} RedBits(c0: Byte, c1: Byte)
    ensures Shr(Shl(c1, 1), 3) == Word16(c0, c1) / 1024
  {
    SmallPowers();
    var c0', c1' := c0 as int, c1 as int;
    DivModUnique(2 * c1', 8, c1' / 4, 2 * (c1' % 4));
    DivModUnique(c0' + 0x100 * c1', 0x400, c1' / 4, 0x100 * (c1' % 4) + c0');
  }

  /** A five-bit field placed three bits up. */
  lemma {:induction false} ScaleField(y: nat)
    ensures Shl(y % Pow2(5), 3) == 8 * (y % 32)
  {
    SmallPowers();
  }

  lemma {:induction false} SmallPowers()
    ensures Pow2(0) == 1 && Pow2(1) == 2 && Pow2(2) == 4 && Pow2(3) == 8
    ensures Pow2(5) == 32 && Pow2(8) == 0x100 && Pow2(10) == 0x400 && Pow2(11) == 0x800
    ensures Pow2(16) == 0x1_0000 && Pow2(24) == 0x100_0000
  {
    assert Pow2(8) == 0x100;
    assert Pow2(11) == 0x800;
    Pow2Add(8, 8);
    Pow2Add(16, 8);
  }

  /**
   * Without masks a 16-bit pixel is read as X1R5G5B5: exactly what mask
   * mode gives with the masks 0x001F, 0x03E0 and 0x7C00.
   */
  lemma {:induction false} Direct16Is555(prev: Rgb, c0: Byte, c1: Byte)
    ensures FieldMask(5, 0) == 0x001F && FieldMask(5, 5) == 0x03E0 && FieldMask(5, 10) == 0x7C00
    ensures Direct16(prev, c0, c1)
         == MaskPixel(Word16(c0, c1), 0x001F, 0x03E0, 0x7C00).(alpha := prev.alpha)
  {
    SmallPowers();
    Blue555(c0, c1);
    Green555(c0, c1);
    Red555(c0, c1);
  }

  lemma {:induction false} Blue555(c0: Byte, c1: Byte)
    ensures FieldMask(5, 0) == 0x001F
    ensures MaskChannel(Word16(c0, c1), 0x001F) == And(Shl(c0, 3), FieldMask(5, 3))
  {
    SmallPowers();
    var val := Word16(c0, c1);
    var c0': int, c1': int := c0, c1;
    assert val == c0' + 0x100 * c1';
    FieldChannel(val, 5, 0);
    FieldValue(Shl(c0, 3), 5, 3);
    DivModUnique(val, 32, c0' / 32 + 8 * c1', c0' % 32);
    DivModUnique(c0' * 8, 8, c0', 0);
  }

  lemma {:induction false} Green555(c0: Byte, c1: Byte)
    ensures FieldMask(5, 5) == 0x03E0
    ensures MaskChannel(Word16(c0, c1), 0x03E0) == And(Shl(c1, 6) + Shr(c0, 2), FieldMask(5, 3))
  {
    SmallPowers();
    var val := Word16(c0, c1);
    FieldChannel(val, 5, 5);
    FieldValue(Shl(c1, 6) + Shr(c0, 2), 5, 3);
    GreenBits(c0, c1);
  }

  lemma {:induction false} Red555(c0: Byte, c1: Byte)
    ensures FieldMask(5, 10) == 0x7C00
    ensures MaskChannel(Word16(c0, c1), 0x7C00) == And(Shl(c1, 1), FieldMask(5, 3))
  {
    SmallPowers();
    var val := Word16(c0, c1);
    var c0': int, c1': int := c0, c1;
    assert Shr(val, 10) == c1' / 4 by {
      assert val == c0' + 0x100 * c1';
      DivModUnique(val, 0x400, c1' / 4, 0x100 * (c1' % 4) + c0');
    }
    assert Shr(Shl(c1, 1), 3) == c1' / 4 by {
      DivModUnique(2 * c1', 8, c1' / 4, 2 * (c1' % 4));
    }
    FieldChannel(val, 5, 10);
    FieldValue(Shl(c1, 1), 5, 3);
  }

  /** The four bytes of the 32-bit pixel word, as the shifts and masks of mask mode see them. */
  lemma {:induction false} Word32Bytes(c0: Byte, c1: Byte, c2: Byte, c3: Byte)
    ensures Shr(Word32(c0, c1, c2, c3), 0) % 0x100 == c0
    ensures Shr(Word32(c0, c1, c2, c3), 8) % 0x100 == c1
    ensures Shr(Word32(c0, c1, c2, c3), 16) % 0x100 == c2
    ensures Shr(Word32(c0, c1, c2, c3), 24) % 0x100 == c1
  {
    SmallPowers();
    var val := Word32(c0, c1, c2, c3);
    var c0', c1', c2' := c0 as int, c1 as int, c2 as int;
    assert val == c0' + 0x100 * (c1' + 0x100 * (c2' + 0x100 * c1'));
    DivModUnique(val, 0x100, c1' + 0x100 * (c2' + 0x100 * c1'), c0');
    DivModUnique(c1' + 0x100 * (c2' + 0x100 * c1'), 0x100, c2' + 0x100 * c1', c1');
    DivModUnique(val, 0x1_0000, c2' + 0x100 * c1', c0' + 0x100 * c1');
    DivModUnique(c2' + 0x100 * c1', 0x100, c1', c2');
    DivModUnique(val, 0x100_0000, c1', c0' + 0x100 * c1' + 0x1_0000 * c2');
  }

  /**
   * Without masks a 32-bit pixel is read as bytes B, G, R: exactly what
   * mask mode gives with the masks 0xFF, 0xFF00 and 0xFF0000.
   */
  lemma {:induction false} Direct32Is888(prev: Rgb, c0: Byte, c1: Byte, c2: Byte, c3: Byte)
    ensures FieldMask(8, 0) == 0xFF && FieldMask(8, 8) == 0xFF00 && FieldMask(8, 16) == 0xFF_0000
    ensures Direct32(prev, c0, c1, c2, c3)
         == MaskPixel(Word32(c0, c1, c2, c3), 0xFF, 0xFF00, 0xFF_0000).(alpha := prev.alpha)
  {
    SmallPowers();
    var val := Word32(c0, c1, c2, c3);
    Word32Bytes(c0, c1, c2, c3);
    FieldChannel(val, 8, 0);
    FieldChannel(val, 8, 8);
    FieldChannel(val, 8, 16);
  }

  /**
   * A channel whose mask is the top byte of the 32-bit word reads byte 1
   * of the pixel, never byte 3.
   */
  lemma {:induction false} TopByteReadsByte1(c0: Byte, c1: Byte, c2: Byte, c3: Byte)
    ensures FieldMask(8, 24) == 0xFF00_0000
    ensures MaskChannel(Word32(c0, c1, c2, c3), 0xFF00_0000) == c1
  {
    SmallPowers();
    Word32Bytes(c0, c1, c2, c3);
    FieldChannel(Word32(c0, c1, c2, c3), 8, 24);
  }

  /** Mask 0xF800: msb is 16, the word shifts right by 8, the five bits fill the top of the byte. */
  lemma {:induction false} MaskShiftExample()
    ensures Msb(0xF800) - 8 == 8
    ensures MaskChannel(0xF800, 0xF800) == 0xF8
  {
    MsbExample();
    SmallPowers();
    assert FieldMask(5, 11) == 0xF800;
    FieldChannel(0xF800, 5, 11);
    assert Shr(0xF800, 11) == 31;
  }
}
