/**
 * The framebuffer test pattern of kernel/include/test.h: packing an RGB
 * colour according to the GOP channel masks, and each core painting a
 * 50x50 square in its own colour.
 */
module TestGfx {
  import opened Machine
  import opened Bits

  /**
   * `__builtin_ctz(m)`: the number of trailing zero bits, i.e. the index of
   * the lowest set bit. It is undefined for 0, hence the precondition.
   */
  function Ctz(m: nat): nat
    requires m != 0
  {
    if m % 2 == 1 then 0 else Ctz(m / 2) + 1
  }

  /** Bit `Ctz(m)` of `m` is set and every bit below it is clear; for a 32-bit mask it is below 32. */
  lemma {:induction false} CtzLowestSetBit(m: nat)
    requires m != 0
    ensures m % Pow2(Ctz(m)) == 0 && (m / Pow2(Ctz(m))) % 2 == 1
    ensures Pow2(Ctz(m)) <= m
  {
    if m % 2 == 0 {
      var n := Ctz(m / 2);
      CtzLowestSetBit(m / 2);
      DivDiv(m, 2, Pow2(n));
      assert Pow2(n + 1) == 2 * Pow2(n);
    }
  }

  /** The lowest set bit of a 32-bit value is one of its 32 bits. */
  lemma CtzOf32Bits(m: u32)
    requires m != 0
    ensures Ctz(m) < 32
  {
    CtzLowestSetBit(m);
    if Ctz(m) >= 32 {
      Pow2Monotone(32, Ctz(m));
      Pow2Of32();
      assert false;
    }
  }

  /** An odd value shifted left by `k` has exactly `k` trailing zeros. */
  lemma {:induction false} CtzOfShifted(a: nat, k: nat)
    requires a % 2 == 1
    ensures a * Pow2(k) != 0 && Ctz(a * Pow2(k)) == k
  {
    if k > 0 {
      CtzOfShifted(a, k - 1);
      assert a * Pow2(k) == 2 * (a * Pow2(k - 1));
    }
  }

  lemma Pow2Of16()
    ensures Pow2(0) == 1 && Pow2(8) == 0x100 && Pow2(16) == 0x1_0000
  {
    assert Pow2(8) == 0x100;
  }

  lemma Pow2Of32()
    ensures Pow2(32) == U32_LIMIT
  {
    assert Pow2(8) == 0x100;
    assert Pow2(16) == 0x1_0000;
    assert Pow2(24) == 0x100_0000;
  }

  /** `(uint32_t)c << s`: a 32-bit shift, bits past bit 31 dropped. */
  function Shl32(c: u32, s: nat): u32
  {
    Wrap32(c * Pow2(s))
  }

  /** The masks pack_rgb accepts: all zero (the default layout) or none zero. */
  predicate MasksUsable(rm: u32, gm: u32, bm: u32)
  {
    (rm == 0 && gm == 0 && bm == 0) || (rm != 0 && gm != 0 && bm != 0)
  }

  /**
   * pack_rgb (test.h:9-14): with all masks zero, red, green and blue go to
   * bits 16, 8 and 0; otherwise each channel is shifted to the lowest set
   * bit of its mask; the three are ORed.
   */
  function PackRgb(r: u8, g: u8, b: u8, rm: u32, gm: u32, bm: u32): nat
    requires MasksUsable(rm, gm, bm)
  {
    if rm == 0 && gm == 0 && bm == 0 then
      BitOr(BitOr(Shl32(r, 16), Shl32(g, 8)), b)
    else
      BitOr(BitOr(Shl32(r, Ctz(rm)), Shl32(g, Ctz(gm))), Shl32(b, Ctz(bm)))
  }

  /** Three bytes laid out high to low in the low 24 bits of a pixel. */
  function Bytes3(hi: u8, mid: u8, lo: u8): nat
  {
    hi * 0x1_0000 + mid * 0x100 + lo
  }

  /** The three bytes come back out of their places, and nothing lies above them. */
  lemma Bytes3RoundTrip(hi: u8, mid: u8, lo: u8)
    ensures var p := Bytes3(hi, mid, lo);
      p < 0x100_0000 && p / 0x1_0000 == hi && p / 0x100 % 0x100 == mid && p % 0x100 == lo
  {
    var p := Bytes3(hi, mid, lo);
    DivModUnique(p, 0x1_0000, hi, mid * 0x100 + lo);
    DivModUnique(p, 0x100, hi * 0x100 + mid, lo);
    DivModUnique(hi * 0x100 + mid, 0x100, hi, mid);
  }

  /** The OR of bytes placed at bits 16, 8 and 0 is their sum. */
  lemma OrOfBytes(hi: u8, mid: u8, lo: u8)
    ensures BitOr(BitOr(hi * 0x1_0000, mid * 0x100), lo) == Bytes3(hi, mid, lo)
  {
    assert Pow2(8) == 0x100;
    assert Pow2(16) == 0x1_0000;
    BitOrDisjoint(hi, 16, mid * 0x100);
    assert hi * 0x1_0000 + mid * 0x100 == (hi * 0x100 + mid) * Pow2(8);
    BitOrDisjoint(hi * 0x100 + mid, 8, lo);
  }

  /** With no masks, pack_rgb gives 0x00RRGGBB. */
  lemma DefaultLayout(r: u8, g: u8, b: u8)
    ensures PackRgb(r, g, b, 0, 0, 0) == Bytes3(r, g, b)
  {
    assert Pow2(8) == 0x100;
    assert Pow2(16) == 0x1_0000;
    OrOfBytes(r, g, b);
  }

  /** The masks of the red-high format give the default layout. */
  lemma RgbMasks(r: u8, g: u8, b: u8)
    ensures PackRgb(r, g, b, 0xFF_0000, 0xFF00, 0xFF) == Bytes3(r, g, b)
  {
    Pow2Of16();
    CtzOfShifted(0xFF, 16);
    CtzOfShifted(0xFF, 8);
    CtzOfShifted(0xFF, 0);
    DefaultLayout(r, g, b);
  }

  /** The masks of the blue-high format put blue in the high byte and red in the low one. */
  lemma BgrMasks(r: u8, g: u8, b: u8)
    ensures PackRgb(r, g, b, 0xFF, 0xFF00, 0xFF_0000) == Bytes3(b, g, r)
  {
    Pow2Of16();
    CtzOfShifted(0xFF, 16);
    CtzOfShifted(0xFF, 8);
    CtzOfShifted(0xFF, 0);
    assert Pow2(8) == 0x100;
    assert Pow2(16) == 0x1_0000;
    BitOrCommutes(r, g * 0x100);
    BitOrDisjoint(g, 8, r);
    BitOrCommutes(g * 0x100 + r, b * 0x1_0000);
    BitOrDisjoint(b, 16, g * 0x100 + r);
  }

  // -----------------------------------------------------------------------
  // draw_test_squares_safe
  // -----------------------------------------------------------------------

  /** One colour per core, repeating every four cores (test.h:19). */
  const COLORS: seq<u32> := [0xFF0000, 0x00FF00, 0x0000FF, 0xFFFF00]

  const SQUARE: nat := 50
  const OFFSET_Y: nat := 200

  /** `100 + cpu_id * 100` computed in 64 bits and kept as uint32_t (test.h:23). */
  function OffsetX(cpuId: u64): u32
  {
    Wrap32(Wrap64(100 + cpuId * 100))
  }

  /** Index of the first pixel of row `y` of the square: `(200 + y) * stride + offset_x` in 32 bits. */
  function RowStart(cpuId: u64, stride: u32, y: nat): u32
  {
    Wrap32(Wrap32((OFFSET_Y + y) * stride) + OffsetX(cpuId))
  }

  /** Whether pixel `i` is in one of the first `rows` rows of the square. */
  predicate Painted(cpuId: u64, stride: u32, rows: nat, i: int)
  {
    exists y | 0 <= y < rows :: RowStart(cpuId, stride, y) <= i < RowStart(cpuId, stride, y) + SQUARE
  }

  /** The framebuffer holds every pixel the square writes. */
  predicate SquareFits(cpuId: u64, stride: u32, length: nat)
  {
    forall y | 0 <= y < SQUARE :: RowStart(cpuId, stride, y) + SQUARE <= length
  }

  /**
   * draw_test_squares_safe (test.h:16-31): a NULL framebuffer is left
   * alone; otherwise exactly the 50 rows of 50 pixels of the square get
   * the core's colour and every other pixel keeps its value.
   */
  method DrawTestSquares(cpuId: u64, fb: array?<u32>, stride: u32)
    requires fb != null ==> SquareFits(cpuId, stride, fb.Length)
    modifies fb
    ensures fb != null ==> forall i | 0 <= i < fb.Length ::
      fb[i] == if Painted(cpuId, stride, SQUARE, i) then COLORS[cpuId % 4] else old(fb[i])
  {
    if fb == null {
      return;
    }
    var color := COLORS[cpuId % 4];
    var y := 0;
    while y < SQUARE
      invariant 0 <= y <= SQUARE
      invariant forall i | 0 <= i < fb.Length ::
        fb[i] == if Painted(cpuId, stride, y, i) then color else old(fb[i])
    {
      var row := RowStart(cpuId, stride, y);
      var x := 0;
      while x < SQUARE
        invariant 0 <= x <= SQUARE
        invariant forall i | 0 <= i < fb.Length ::
          fb[i] == if Painted(cpuId, stride, y, i) || row <= i < row + x then color else old(fb[i])
      {
        fb[row + x] := color;
        x := x + 1;
      }
      forall i | 0 <= i < fb.Length
        ensures Painted(cpuId, stride, y + 1, i) <==> Painted(cpuId, stride, y, i) || row <= i < row + SQUARE
      {
        if row <= i < row + SQUARE {
          assert RowStart(cpuId, stride, y) <= i < RowStart(cpuId, stride, y) + SQUARE;
        }
      }
      y := y + 1;
    }
  }

  /** Without wrap-around, row `y` of the square starts at column offset_x of row 200 + y. */
  lemma RowStartNoWrap(cpuId: u64, stride: u32, y: nat)
    requires 100 + cpuId * 100 + SQUARE <= stride
    requires (OFFSET_Y + SQUARE) * stride < U32_LIMIT
    requires y < SQUARE
    ensures RowStart(cpuId, stride, y) == (OFFSET_Y + y) * stride + (100 + cpuId * 100)
    ensures (OFFSET_Y + y) * stride + (100 + cpuId * 100) + SQUARE <= (OFFSET_Y + y + 1) * stride
  {
    var ox := 100 + cpuId * 100;
    var rowBase := (OFFSET_Y + y) * stride;
    assert (OFFSET_Y + y + 1) * stride == rowBase + stride by {
      MulSucc(OFFSET_Y + y, stride);
    }
    MulMonotone(OFFSET_Y + y + 1, OFFSET_Y + SQUARE, stride);
    assert rowBase + ox + SQUARE <= (OFFSET_Y + y + 1) * stride < U32_LIMIT;
    assert OffsetX(cpuId) == ox;
    assert Wrap32(rowBase) == rowBase;
  }

  lemma MulSucc(a: nat, b: nat)
    ensures (a + 1) * b == a * b + b
  {
  }

  lemma MulMonotone(a: nat, b: nat, c: nat)
    requires a <= b
    ensures a * c <= b * c
  {
  }

  /**
   * Where nothing wraps (the square lies inside a row of `stride` pixels
   * and the rows inside 32-bit indices), the painted pixels are exactly
   * rows 200 to 249 and columns `100 + 100 * cpu_id` to 49 beyond.
   */
  lemma PaintedIsTheSquare(cpuId: u64, stride: u32, i: nat)
    requires 100 + cpuId * 100 + SQUARE <= stride
    requires (OFFSET_Y + SQUARE) * stride < U32_LIMIT
    ensures Painted(cpuId, stride, SQUARE, i) <==>
      OFFSET_Y <= i / stride < OFFSET_Y + SQUARE
      && 100 + cpuId * 100 <= i % stride < 100 + cpuId * 100 + SQUARE
  {
    if Painted(cpuId, stride, SQUARE, i) {
      PaintedInSquare(cpuId, stride, i);
    }
    if OFFSET_Y <= i / stride < OFFSET_Y + SQUARE && 100 + cpuId * 100 <= i % stride < 100 + cpuId * 100 + SQUARE {
      SquareIsPainted(cpuId, stride, i);
    }
  }

  lemma PaintedInSquare(cpuId: u64, stride: u32, i: nat)
    requires 100 + cpuId * 100 + SQUARE <= stride
    requires (OFFSET_Y + SQUARE) * stride < U32_LIMIT
    requires Painted(cpuId, stride, SQUARE, i)
    ensures OFFSET_Y <= i / stride < OFFSET_Y + SQUARE
    ensures 100 + cpuId * 100 <= i % stride < 100 + cpuId * 100 + SQUARE
  {
    var y :| 0 <= y < SQUARE && RowStart(cpuId, stride, y) <= i < RowStart(cpuId, stride, y) + SQUARE;
    RowStartNoWrap(cpuId, stride, y);
    DivModUnique(i, stride, OFFSET_Y + y, i - (OFFSET_Y + y) * stride);
  }

  lemma SquareIsPainted(cpuId: u64, stride: u32, i: nat)
    requires 100 + cpuId * 100 + SQUARE <= stride
    requires (OFFSET_Y + SQUARE) * stride < U32_LIMIT
    requires OFFSET_Y <= i / stride < OFFSET_Y + SQUARE
    requires 100 + cpuId * 100 <= i % stride < 100 + cpuId * 100 + SQUARE
    ensures Painted(cpuId, stride, SQUARE, i)
  {
    var y := i / stride - OFFSET_Y;
    RowStartNoWrap(cpuId, stride, y);
    assert i == (OFFSET_Y + y) * stride + i % stride;
    assert RowStart(cpuId, stride, y) <= i < RowStart(cpuId, stride, y) + SQUARE;
  }
}
