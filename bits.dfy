/**
 * Bit-level arithmetic on unbounded naturals: powers of two and bitwise
 * OR, with the facts the pixel packing and the page-table entry
 * composition rely on.
 */
module Bits {
  import opened Machine

  function Pow2(n: nat): (p: nat)
    ensures p >= 1
  {
    if n == 0 then 1 else 2 * Pow2(n - 1)
  }

  /** Bitwise OR of two unsigned values. */
  function BitOr(a: nat, b: nat): nat
    decreases a + b
  {
    if a == 0 then b
    else if b == 0 then a
    else 2 * BitOr(a / 2, b / 2) + (if a % 2 == 1 || b % 2 == 1 then 1 else 0)
  }

  /** OR with a value whose bits all lie below bit `k` is addition. */
  lemma {:induction false} BitOrDisjoint(a: nat, k: nat, b: nat)
    requires b < Pow2(k)
    ensures BitOr(a * Pow2(k), b) == a * Pow2(k) + b
  {
    if k > 0 && a != 0 && b != 0 {
      var x := a * Pow2(k);
      assert x == 2 * (a * Pow2(k - 1));
      assert x / 2 == a * Pow2(k - 1) && x % 2 == 0;
      BitOrDisjoint(a, k - 1, b / 2);
    }
  }

  lemma {:induction false} BitOrCommutes(a: nat, b: nat)
    ensures BitOr(a, b) == BitOr(b, a)
    decreases a + b
  {
    if a != 0 && b != 0 {
      BitOrCommutes(a / 2, b / 2);
    }
  }

  lemma {:induction false} Pow2Monotone(i: nat, j: nat)
    requires i <= j
    ensures Pow2(i) <= Pow2(j)
    decreases j - i
  {
    if i < j {
      Pow2Monotone(i + 1, j);
    }
  }


  lemma {:induction false} Pow2Add(i: nat, j: nat)
    ensures Pow2(i + j) == Pow2(i) * Pow2(j)
  {
    if i > 0 {
      Pow2Add(i - 1, j);
    }
  }

  lemma Pow2Values()
    ensures Pow2(12) == 0x1000 && Pow2(40) == 0x100_0000_0000 && Pow2(64) == U64_LIMIT
  {
    Pow2Small();
    Pow2Add(12, 12);
    Pow2Add(24, 16);
    Pow2Add(40, 24);
  }

  lemma Pow2Small()
    ensures Pow2(12) == 0x1000 && Pow2(16) == 0x1_0000 && Pow2(24) == 0x100_0000
  {
    assert Pow2(4) == 0x10;
    Pow2Add(4, 4);
    Pow2Add(8, 4);
    Pow2Add(8, 8);
    Pow2Add(12, 12);
  }

  /** One step of the definition, stated for every pair of operands, zero included. */
  lemma BitOrStep(a: nat, b: nat)
    ensures BitOr(a, b) == 2 * BitOr(a / 2, b / 2) + (if a % 2 == 1 || b % 2 == 1 then 1 else 0)
  {
    if a == 0 {
      assert BitOr(a / 2, b / 2) == b / 2;
    } else if b == 0 {
      assert BitOr(a / 2, b / 2) == a / 2;
    }
  }

  /** The lowest bit of an OR is set iff it is set in either operand. */
  lemma BitOrOdd(a: nat, b: nat)
    ensures BitOr(a, b) % 2 == 1 <==> a % 2 == 1 || b % 2 == 1
  {
    BitOrStep(a, b);
  }

  /** OR never sets a bit at or above `k` that neither operand has. */
  lemma {:induction false} BitOrBelow(a: nat, b: nat, k: nat)
    requires a < Pow2(k) && b < Pow2(k)
    ensures BitOr(a, b) < Pow2(k)
  {
    BitOrStep(a, b);
    if k > 0 {
      BitOrBelow(a / 2, b / 2, k - 1);
    }
  }

  /** OR of two 64-bit values is a 64-bit value. */
  lemma BitOrBelow64(a: nat, b: nat)
    requires a < U64_LIMIT && b < U64_LIMIT
    ensures BitOr(a, b) < U64_LIMIT
  {
    Pow2Values();
    BitOrBelow(a, b, 64);
  }

  lemma Double(a: nat, h: nat)
    ensures a * (2 * h) == 2 * (a * h) && a * h >= 0
  {
  }

  /** OR works on the bits below `k` and on those above it independently. */
  lemma {:induction false} BitOrSplit(a: nat, r: nat, b: nat, s: nat, k: nat)
    requires r < Pow2(k) && s < Pow2(k)
    ensures BitOr(a * Pow2(k) + r, b * Pow2(k) + s) == BitOr(a, b) * Pow2(k) + BitOr(r, s)
  {
    if k > 0 {
      var half := Pow2(k - 1);
      Double(a, half);
      Double(b, half);
      Double(BitOr(a, b), half);
      var ah: nat, bh: nat := a * half, b * half;
      var x: nat, y: nat := 2 * ah + r, 2 * bh + s;
      assert x / 2 == ah + r / 2 && x % 2 == r % 2;
      assert y / 2 == bh + s / 2 && y % 2 == s % 2;
      BitOrSplit(a, r / 2, b, s / 2, k - 1);
      BitOrStep(x, y);
      BitOrStep(r, s);
    }
  }
}
