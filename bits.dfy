/**
 * Integer models of the bit operations the BMP decoder uses on unsigned
 * values: powers of two (`1 << n`), bitwise AND (`&`) and the
 * highest-set-bit search `msb`.
 */
module Bits {

  function Pow2(n: nat): (p: nat)
    ensures p >= 1
  {
    if n == 0 then 1 else 2 * Pow2(n - 1)
  }

  /** `x << s` on an unbounded non-negative integer. */
  function Shl(x: nat, s: nat): nat
  {
    x * Pow2(s)
  }

  /** `x >> s` on a non-negative integer. */
  function Shr(x: nat, s: nat): nat
  {
    var p := Pow2(s);
    assert 0 <= x / p <= x by {
      DivBounds(x, p);
    }
    x / p
  }

  lemma {:induction false} DivBounds(x: nat, p: int)
    requires p >= 1
    ensures 0 <= x / p <= x
  {
    var q, r := x / p, x % p;
    assert x == q * p + r && 0 <= r < p;
    MulSign(q, p);
  }

  lemma {:induction false} MulSign(q: int, p: int)
    requires p >= 1
    ensures q < 0 ==> q * p <= -p
    ensures q > 0 ==> q <= q * p
  {
    if q < 0 {
      MulAtLeast(-q, p);
      assert q * p == -((-q) * p);
    } else if q > 0 {
      MulMonotone(1, p, q);
    }
  }

  lemma {:induction false} Pow2Monotone(a: nat, b: nat)
    requires a <= b
    ensures Pow2(a) <= Pow2(b)
    decreases b
  {
    if a < b {
      Pow2Monotone(a, b - 1);
    }
  }

  lemma {:induction false} Pow2Add(a: nat, b: nat)
    ensures Pow2(a + b) == Pow2(a) * Pow2(b)
    decreases b
  {
    if b > 0 {
      Pow2Add(a, b - 1);
      assert Pow2(a + b) == 2 * Pow2(a + b - 1);
    }
  }

  lemma {:induction false} MulAtLeast(a: int, d: int)
    requires a >= 1 && d > 0
    ensures a * d >= d
    decreases a
  {
    if a > 1 {
      MulAtLeast(a - 1, d);
      assert a * d == (a - 1) * d + d;
    }
  }

  lemma {:induction false} MulMonotone(a: int, b: int, w: int)
    requires a <= b && w >= 0
    ensures a * w <= b * w
  {
    if a < b && w > 0 {
      MulAtLeast(b - a, w);
      assert b * w - a * w == (b - a) * w;
    }
  }

  lemma {:induction false} MulPred(a: int, b: int, w: int)
    requires b == a - 1
    ensures b * w + w == a * w
  {
  }

  lemma {:induction false} MulSplit(a: int, b: int, c: int, w: int)
    requires a + b == c
    ensures a * w + b * w == c * w
  {
  }

  lemma {:induction false} Twice(a: int, p: int)
    ensures a * (2 * p) == 2 * (a * p)
  {
  }

  /** Euclidean division is determined by its quotient and remainder. */
  lemma {:induction false} DivModUnique(n: int, d: int, q: int, r: int)
    requires d > 0 && 0 <= r < d && n == q * d + r
    ensures n / d == q && n % d == r
  {
    var q', r' := n / d, n % d;
    assert n == q' * d + r';
    assert (q' - q) * d == r - r' by {
      assert q' * d - q * d == (q' - q) * d;
    }
    if q' > q {
      MulAtLeast(q' - q, d);
    } else if q' < q {
      assert (q - q') * d == r' - r;
      MulAtLeast(q - q', d);
    }
  }

  /** Halving then dividing by d is dividing by 2d. */
  lemma {:induction false} DivHalf(x: nat, d: nat)
    requires d > 0
    ensures x / 2 / d == x / (2 * d)
    ensures x % (2 * d) == 2 * ((x / 2) % d) + x % 2
  {
    var h := x / 2;
    var q, r := h / d, h % d;
    assert x == q * (2 * d) + (2 * r + x % 2);
    DivModUnique(x, 2 * d, q, 2 * r + x % 2);
  }

  /** `a & b` on non-negative integers, one bit at a time from the least significant end. */
  function And(a: nat, b: nat): (r: nat)
    ensures r <= a && r <= b
    decreases a
  {
    if a == 0 || b == 0 then 0
    else 2 * And(a / 2, b / 2) + (if a % 2 == 1 && b % 2 == 1 then 1 else 0)
  }

  /** Masking with `2^w - 1` keeps the low w bits. */
  lemma {:induction false} AndLowMask(x: nat, w: nat)
    ensures And(x, Pow2(w) - 1) == x % Pow2(w)
    decreases w, 1
  {
    if w == 0 || x == 0 {
      LowMaskBase(x, w);
    } else {
      LowMaskStep(x, w);
    }
  }

  /** The base cases of AndLowMask: an empty mask, or nothing to mask. */
  lemma {:induction false} LowMaskBase(x: nat, w: nat)
    requires w == 0 || x == 0
    ensures And(x, Pow2(w) - 1) == x % Pow2(w)
  {
    if w == 0 {
      assert Pow2(w) == 1;
      assert And(x, 0) == 0 && x % 1 == 0;
    } else {
      assert And(0, Pow2(w) - 1) == 0;
    }
  }

  /** The inductive step of AndLowMask: one more low bit of x survives the wider mask. */
  lemma {:induction false} LowMaskStep(x: nat, w: nat)
    requires x > 0 && w > 0
    ensures And(x, Pow2(w) - 1) == x % Pow2(w)
    decreases w, 0
  {
    var p, h := Pow2(w - 1), x / 2;
    assert Pow2(w) == 2 * p;
    var a := And(h, p - 1);
    assert a == h % p by {
      AndLowMask(h, w - 1);
    }
    assert And(x, 2 * p - 1) == 2 * a + x % 2 by {
      AndOddMask(x, p);
    }
    assert x % (2 * p) == 2 * (h % p) + x % 2 by {
      DivHalf(x, p);
    }
  }

  /** One bit of `x & (2p - 1)`: the low bit of x is kept, the rest is masked with p - 1. */
  lemma {:induction false} AndOddMask(x: nat, p: nat)
    requires x > 0 && p >= 1
    ensures And(x, 2 * p - 1) == 2 * And(x / 2, p - 1) + x % 2
  {
    var m := 2 * p - 1;
    assert m / 2 == p - 1 && m % 2 == 1;
  }

  /** Masking with `m << s` is shifting right by s, masking with m and shifting back. */
  lemma {:induction false} AndEven(x: nat, k: nat)
    ensures And(x, 2 * k) == 2 * And(x / 2, k)
  {
    if x != 0 && k != 0 {
      assert (2 * k) / 2 == k && (2 * k) % 2 == 0;
    }
  }

  lemma {:induction false} AndShiftedMask(x: nat, m: nat, s: nat)
    ensures And(x, Shl(m, s)) == Shl(And(Shr(x, s), m), s)
    decreases s
  {
    if s > 0 {
      AndShiftedMask(x / 2, m, s - 1);
      var p := Pow2(s - 1);
      assert Pow2(s) == 2 * p;
      assert Shl(m, s) == 2 * Shl(m, s - 1) by {
        Twice(m, p);
      }
      assert Shr(x / 2, s - 1) == Shr(x, s) by {
        DivHalf(x, p);
      }
      AndEven(x, Shl(m, s - 1));
      Twice(And(Shr(x, s), m), p);
    } else {
      assert Pow2(s) == 1;
    }
  }

  /** A contiguous field of w bits whose lowest bit is bit s. */
  function FieldMask(w: nat, s: nat): nat
  {
    Shl(Pow2(w) - 1, s)
  }

  /** `x & FieldMask(w, s)` is the field's value, left in place. */
  lemma {:induction false} FieldValue(x: nat, w: nat, s: nat)
    ensures And(x, FieldMask(w, s)) == Shl(Shr(x, s) % Pow2(w), s)
  {
    AndShiftedMask(x, Pow2(w) - 1, s);
    AndLowMask(Shr(x, s), w);
  }

  /**
   * msb(x): the 1-based position of the highest set bit of a 32-bit
   * word, 0 when no bit is set (so msb(0xF800) == 16).
   */
  function Msb(x: nat): (k: nat)
    requires x < 0x1_0000_0000
    ensures (k == 0) <==> (x == 0)
    ensures x > 0 ==> Pow2(k - 1) <= x < Pow2(k)
    decreases x
  {
    if x == 0 then 0 else 1 + Msb(x / 2)
  }

  lemma {:induction false} MsbUnique(x: nat, k: nat)
    requires x < 0x1_0000_0000
    requires k >= 1 && Pow2(k - 1) <= x < Pow2(k)
    ensures Msb(x) == k
  {
    var m := Msb(x);
    if m < k {
      Pow2Monotone(m, k - 1);
    } else if m > k {
      Pow2Monotone(k, m - 1);
    }
  }

  /** The highest set bit of a field mask is the top bit of the field. */
  lemma {:induction false} MsbOfField(w: nat, s: nat)
    requires w >= 1 && FieldMask(w, s) < 0x1_0000_0000
    ensures Msb(FieldMask(w, s)) == w + s
  {
    FieldMaskBounds(w, s);
    MsbUnique(FieldMask(w, s), w + s);
  }

  /** A field mask's top bit is bit w + s - 1. */
  lemma {:induction false} FieldMaskBounds(w: nat, s: nat)
    requires w >= 1
    ensures Pow2(w + s - 1) <= FieldMask(w, s) < Pow2(w + s)
  {
    var a, b := Pow2(w - 1), Pow2(s);
    Pow2Add(w - 1, s);
    Pow2Add(w, s);
    assert Pow2(w) == 2 * a;
    Scale2(a, b);
    MulAtLeast(a, b);
  }

  lemma {:induction false} Scale2(a: int, b: int)
    ensures (2 * a) * b == 2 * (a * b)
    ensures (2 * a - 1) * b == 2 * (a * b) - b
  {
  }

  lemma {:induction false} MsbExample()
    ensures Msb(0xF800) == 16
  {
    assert Pow2(15) == 0x8000 && Pow2(16) == 0x1_0000 by {
      assert Pow2(8) == 256;
      Pow2Add(8, 7);
      Pow2Add(8, 8);
    }
    MsbUnique(0xF800, 16);
  }

  lemma {:induction false} Pow2Word()
    ensures Pow2(31) == 0x8000_0000 && Pow2(32) == 0x1_0000_0000
  {
    assert Pow2(8) == 256;
    Pow2Add(8, 8);
    Pow2Add(16, 15);
    Pow2Add(16, 16);
  }

  /** One round of the scan: the shifted word's top bit says whether bit i - 1 of x is the highest. */
  lemma {:induction false} ScanStep(x: nat, i: nat, y: int)
    requires 1 <= i <= 32 && x < Pow2(i) && y == x * Pow2(32 - i)
    ensures y < 0x1_0000_0000
    ensures y >= 0x8000_0000 ==> x < 0x1_0000_0000 && Msb(x) == i
    ensures y < 0x8000_0000 ==> x < Pow2(i - 1) && y * 2 == x * Pow2(32 - (i - 1))
  {
    Pow2Word();
    var a, p := Pow2(i - 1), Pow2(32 - i);
    assert Pow2(i) == 2 * a;
    Pow2Add(i - 1, 32 - i);
    assert a * p == 0x8000_0000;
    Pow2Monotone(i, 32);
    MulMonotone(x + 1, 2 * a, p);
    MulSucc(x, p);
    Scale2(a, p);
    if y >= 0x8000_0000 {
      if x < a {
        MulMonotone(x + 1, a, p);
      }
      MsbUnique(x, i);
    } else {
      if x >= a {
        MulMonotone(a, x, p);
      }
      assert Pow2(32 - (i - 1)) == 2 * p;
      Twice(x, p);
    }
  }

  lemma {:induction false} MulSucc(x: int, p: int)
    ensures (x + 1) * p == x * p + p
  {
  }

  /**
   * msb as the C computes it: the word is shifted left, 32 bits wide,
   * until its top bit is set, and the count of positions still to go is
   * the answer; a word with no bit set runs the count down to 0.
   */
  method MsbScan(x: nat) returns (i: nat)
    requires x < 0x1_0000_0000
    ensures i == Msb(x)
  {
    Pow2Word();
    var y := x;
    i := 32;
    while i > 0
      invariant i <= 32
      invariant x < Pow2(i)
      invariant y == x * Pow2(32 - i)
      decreases i
    {
      ScanStep(x, i, y);
      if y >= 0x8000_0000 {
        // the top bit of the shifted word is set
        return;
      }
      y := (y * 2) % 0x1_0000_0000;
      i := i - 1;
    }
  }

  /** Scaling dividend and divisor by the same p leaves the quotient alone. */
  lemma {:induction false} DivCancel(b: nat, p: nat, d: nat)
    requires p >= 1 && d >= 1
    ensures (b * p) / (d * p) == b / d
  {
    var q, r := b / d, b % d;
    assert b * p == q * (d * p) + r * p by {
      assert b == q * d + r;
      assert (q * d + r) * p == q * (d * p) + r * p;
    }
    assert r * p < d * p by {
      MulMonotone(r + 1, d, p);
      assert (r + 1) * p == r * p + p;
    }
    DivModUnique(b * p, d * p, q, r * p);
  }

  /**
   * Bit 7 of `b << k`, for k <= 7, is bit 7 - k of b: the 1-bit decoder
   * tests `val & 0x80` and shifts val left once per pixel.
   */
  lemma {:induction false} BitOfShifted(b: nat, k: nat)
    requires k <= 7
    ensures (Shl(b, k) / 0x80) % 2 == Shr(b, 7 - k) % 2
  {
    assert Pow2(7 - k) * Pow2(k) == 0x80 by {
      Pow2Add(7 - k, k);
      assert Pow2(7) == 0x80;
    }
    DivCancel(b, Pow2(k), Pow2(7 - k));
  }

  /** Shifting left once more doubles the value. */
  lemma {:induction false} ShlNext(b: nat, k: nat)
    ensures Shl(b, k) * 2 == Shl(b, k + 1)
  {
    Twice(b, Pow2(k));
  }
}
