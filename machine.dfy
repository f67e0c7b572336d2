/**
 * Machine-level vocabulary shared by every module of the kernel model:
 * fixed-width unsigned integers (modelled as bounded `int`s, with the
 * wrap-around of C's unsigned arithmetic written out), bytes, and the
 * Option type used wherever the C code returns NULL.
 */
module Machine {

  const U8_LIMIT: int := 0x100
  const U16_LIMIT: int := 0x1_0000
  const U32_LIMIT: int := 0x1_0000_0000
  const U64_LIMIT: int := 0x1_0000_0000_0000_0000

  type u8 = x: int | 0 <= x < U8_LIMIT
  type u16 = x: int | 0 <= x < U16_LIMIT
  type u32 = x: int | 0 <= x < U32_LIMIT
  type u64 = x: int | 0 <= x < U64_LIMIT

  /** `(uint64_t)-1`, the all-ones 64-bit value. */
  const U64_MAX: u64 := U64_LIMIT - 1

  /** Page size used by the PMM, the VMM and the loaders. */
  const PAGE_SIZE: int := 4096

  /** C unsigned 64-bit arithmetic: the result is reduced modulo 2^64. */
  function Wrap64(x: int): (r: u64)
    ensures 0 <= x < U64_LIMIT ==> r == x
  {
    x % U64_LIMIT
  }

  /** A value below the modulus is its own remainder. */
  lemma ModBelow(v: nat, m: nat)
    requires v < m
    ensures v % m == v
  {
  }

  /** The conversion to `unsigned char`: the value modulo 2^8. */
  function Wrap8(x: int): (r: u8)
    ensures 0 <= x < U8_LIMIT ==> r == x
  {
    x % U8_LIMIT
  }

  /** C unsigned 32-bit arithmetic (and the truncating cast to uint32_t). */
  function Wrap32(x: int): (r: u32)
    ensures 0 <= x < U32_LIMIT ==> r == x
  {
    x % U32_LIMIT
  }

  /**
   * A byte-addressed view of memory. Reads of memory the C code does not
   * own still return some byte, as they do on the machine.
   */
  type Memory = int -> u8

  /** The `n` bytes at `addr`. */
  function Read(mem: Memory, addr: int, n: nat): (r: seq<u8>)
    ensures |r| == n && forall i | 0 <= i < n :: r[i] == mem(addr + i)
  {
    seq(n, i => mem(addr + i))
  }

  /**
   * Physical memory as the kernel writes it through the higher-half direct
   * map, and as the bootloader writes it through UEFI's identity map.
   */
  class PhysicalMemory {
    var bytes: Memory

    /** `memset(addr, b, n)`. */
    method Fill(addr: int, n: nat, b: u8)
      modifies this
      ensures forall a :: bytes(a) == if addr <= a < addr + n then b else old(bytes)(a)
    {
      var m := bytes;
      bytes := a => if addr <= a < addr + n then b else m(a);
    }

    /** `memcpy(addr, data, |data|)`. */
    method Copy(addr: int, data: seq<u8>)
      modifies this
      ensures forall a :: bytes(a) == if addr <= a < addr + |data| then data[a - addr] else old(bytes)(a)
    {
      var m := bytes;
      bytes := a => if addr <= a < addr + |data| then data[a - addr] else m(a);
    }
  }

  datatype Option<+T> = None | Some(value: T)

  /** A sequence of `n` copies of `x`. */
  function Repeat<T>(x: T, n: nat): (r: seq<T>)
    ensures |r| == n
    ensures forall i | 0 <= i < n :: r[i] == x
  {
    seq(n, _ => x)
  }

  // Euclidean division facts used by the digit and index arithmetic.

  lemma MulAtLeast(k: int, d: int)
    requires k >= 1 && d > 0
    ensures k * d >= d
  {
  }

  lemma DivModUnique(v: int, d: int, q: int, r: int)
    requires d > 0 && 0 <= r < d && v == q * d + r
    ensures v / d == q && v % d == r
  {
    var q0, r0 := v / d, v % d;
    assert v == q0 * d + r0;
    assert q * d - q0 * d == r0 - r;
    assert (q - q0) * d == q * d - q0 * d;
    if q > q0 {
      MulAtLeast(q - q0, d);
    } else if q < q0 {
      MulAtLeast(q0 - q, d);
    }
  }

  /** Dividing by b and then by p is dividing by b * p; the remainders compose. */
  lemma DivDiv(v: nat, b: nat, p: nat)
    requires b >= 1 && p >= 1
    ensures v / b / p == v / (b * p)
    ensures (v / b % p) * b + v % b == v % (b * p)
  {
    var a, c := v / b, v % b;
    var q, s := a / p, a % p;
    assert v == q * (b * p) + (b * s + c);
    assert b * s + c < b * p by {
      MulAtLeast(p - s, b);
      assert (p - s) * b == b * p - b * s;
    }
    DivModUnique(v, b * p, q, b * s + c);
  }

  // Little-endian byte encoding, the layout of every multi-byte field the
  // firmware and the kernel read from memory.

  function Pow256(n: nat): (p: nat)
    ensures p >= 1
  {
    if n == 0 then 1 else 256 * Pow256(n - 1)
  }

  /** The `n` low bytes of `v`, least significant first. */
  function LeBytes(v: nat, n: nat): (r: seq<u8>)
    ensures |r| == n
  {
    if n == 0 then [] else [v % 256] + LeBytes(v / 256, n - 1)
  }

  /** The unsigned value of little-endian bytes. */
  function LeValue(bs: seq<u8>): (v: nat)
    ensures v < Pow256(|bs|)
  {
    if bs == [] then 0 else bs[0] + 256 * LeValue(bs[1..])
  }

  /** Reading back `n` encoded bytes gives `v` modulo 256^n. */
  lemma {:induction false} LeRoundTrip(v: nat, n: nat)
    ensures LeValue(LeBytes(v, n)) == v % Pow256(n)
  {
    if n > 0 {
      assert LeBytes(v, n)[1..] == LeBytes(v / 256, n - 1);
      LeRoundTrip(v / 256, n - 1);
      DivDiv(v, 256, Pow256(n - 1));
    }
  }

  lemma Pow256Values()
    ensures Pow256(2) == U16_LIMIT && Pow256(4) == U32_LIMIT && Pow256(8) == U64_LIMIT
  {
    assert Pow256(1) == 0x100;
    assert Pow256(2) == 0x1_0000;
    assert Pow256(3) == 0x100_0000;
    assert Pow256(4) == 0x1_0000_0000;
    assert Pow256(5) == 0x100_0000_0000;
    assert Pow256(6) == 0x1_0000_0000_0000;
    assert Pow256(7) == 0x100_0000_0000_0000;
  }

  /** Encoding is injective on values that fit in `n` bytes. */
  lemma LeBytesInjective(v: nat, w: nat, n: nat)
    requires v < Pow256(n) && w < Pow256(n) && LeBytes(v, n) == LeBytes(w, n)
    ensures v == w
  {
    LeRoundTrip(v, n);
    LeRoundTrip(w, n);
  }

  /** Subtracting a multiple of the modulus does not change the remainder. */
  lemma ModSubMultiple(x: int, k: int, d: int)
    requires d > 0
    ensures (x - k * d) % d == x % d
  {
    assert x == (x / d) * d + x % d;
    assert x - k * d == (x / d - k) * d + x % d;
    DivModUnique(x - k * d, d, x / d - k, x % d);
  }

  /** Reducing modulo 2^64 between steps of `acc * m + d` gives the same result. */
  lemma Wrap64MulAdd(a: int, m: int, d: int)
    ensures Wrap64(Wrap64(a) * m + d) == Wrap64(a * m + d)
  {
    var q := a / U64_LIMIT;
    assert a == q * U64_LIMIT + Wrap64(a);
    assert Wrap64(a) * m + d == a * m + d - (q * m) * U64_LIMIT;
    ModSubMultiple(a * m + d, q * m, U64_LIMIT);
  }

  /** Reducing modulo 2^64 before an addition gives the same result. */
  lemma Wrap64Add(a: int, d: int)
    ensures Wrap64(Wrap64(a) + d) == Wrap64(a + d)
  {
    var q := a / U64_LIMIT;
    assert Wrap64(a) + d == a + d - q * U64_LIMIT;
    ModSubMultiple(a + d, q, U64_LIMIT);
  }
}
