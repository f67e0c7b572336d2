/**
 * The freestanding C library of the kernel and the boot loader
 * (common/std_funcs.h): byte comparison, fill and copy, and the
 * NUL-terminated string helpers.
 *
 * Memory that a routine only reads is a `seq<u8>` value starting at the
 * pointer it is given; memory it writes is an `array<u8>` with an offset.
 */
module StdFuncs {
  import opened Machine

  // ---------------------------------------------------------------------
  // C strings
  // ---------------------------------------------------------------------

  /** Position of the terminating NUL of the C string at the start of `s`. */
  function CLen(s: seq<u8>): (n: nat)
    requires 0 in s
    ensures n < |s| && s[n] == 0
    ensures forall i | 0 <= i < n :: s[i] != 0
  {
    if s[0] == 0 then 0 else CLen(s[1..]) + 1
  }

  /** The characters of the C string at the start of `s`, without its NUL. */
  function CString(s: seq<u8>): (r: seq<u8>)
    requires 0 in s
    ensures 0 !in r && r + [0] <= s
  {
    s[..CLen(s)]
  }

  /** Any NUL-free prefix followed by a NUL is exactly the C string. */
  lemma CStringOf(s: seq<u8>, n: nat)
    requires n < |s| && s[n] == 0 && forall i | 0 <= i < n :: s[i] != 0
    ensures 0 in s && CLen(s) == n && CString(s) == s[..n]
  {
  }

  // ---------------------------------------------------------------------
  // memcmp
  // ---------------------------------------------------------------------

  /** The first index below `n` where `a` and `b` differ, or `n` if none. */
  function FirstMismatch(a: seq<u8>, b: seq<u8>, n: nat): (k: nat)
    requires n <= |a| && n <= |b|
    ensures k <= n && a[..k] == b[..k]
    ensures k < n ==> a[k] != b[k]
  {
    if n == 0 then 0
    else if a[0] != b[0] then 0
    else
      var k := FirstMismatch(a[1..], b[1..], n - 1);
      assert a[..k + 1] == [a[0]] + a[1..][..k];
      assert b[..k + 1] == [b[0]] + b[1..][..k];
      k + 1
  }

  /**
   * The value memcmp returns: 0 when the first `n` bytes agree, otherwise
   * -1 or 1 according to the first differing byte, compared unsigned.
   */
  function MemcmpSpec(a: seq<u8>, b: seq<u8>, n: nat): (r: int)
    requires n <= |a| && n <= |b|
    ensures r == -1 || r == 0 || r == 1
  {
    var k := FirstMismatch(a, b, n);
    if k == n then 0 else if a[k] < b[k] then -1 else 1
  }

  /** Two indices that both satisfy FirstMismatch's contract coincide. */
  lemma MismatchUnique(a: seq<u8>, b: seq<u8>, n: nat, k1: nat, k2: nat)
    requires k1 <= n && n <= |a| && n <= |b| && a[..k1] == b[..k1] && (k1 < n ==> a[k1] != b[k1])
    requires k2 <= n && a[..k2] == b[..k2] && (k2 < n ==> a[k2] != b[k2])
    ensures k1 == k2
  {
  }

  /** memcmp reports 0 exactly when the compared ranges are equal. */
  lemma MemcmpZeroIff(a: seq<u8>, b: seq<u8>, n: nat)
    requires n <= |a| && n <= |b|
    ensures MemcmpSpec(a, b, n) == 0 <==> a[..n] == b[..n]
  {
    var k := FirstMismatch(a, b, n);
    if a[..n] == b[..n] {
      MismatchUnique(a, b, n, k, n);
    }
  }

  /** Swapping the operands negates memcmp's answer. */
  lemma MemcmpAntisymmetric(a: seq<u8>, b: seq<u8>, n: nat)
    requires n <= |a| && n <= |b|
    ensures MemcmpSpec(b, a, n) == -MemcmpSpec(a, b, n)
  {
    MismatchUnique(a, b, n, FirstMismatch(a, b, n), FirstMismatch(b, a, n));
  }

  /** memcmp (std_funcs.h:7-17): a scan for the first differing byte. */
  method Memcmp(p1: seq<u8>, p2: seq<u8>, n: nat) returns (r: int)
    requires n <= |p1| && n <= |p2|
    ensures r == MemcmpSpec(p1, p2, n)
  {
    var i := 0;
    while i < n
      invariant 0 <= i <= n
      invariant p1[..i] == p2[..i]
    {
      if p1[i] != p2[i] {
        MismatchUnique(p1, p2, n, i, FirstMismatch(p1, p2, n));
        r := if p1[i] < p2[i] then -1 else 1;
        return;
      }
      assert p1[..i + 1] == p1[..i] + [p1[i]];
      assert p2[..i + 1] == p2[..i] + [p2[i]];
      i := i + 1;
    }
    MismatchUnique(p1, p2, n, n, FirstMismatch(p1, p2, n));
    r := 0;
  }

  // ---------------------------------------------------------------------
  // strcmp and strlen
  // ---------------------------------------------------------------------

  /**
   * Where strcmp stops when it has already matched `i` characters: the
   * first index at which `s1` ends or the strings differ.
   */
  function StrcmpStop(s1: seq<u8>, s2: seq<u8>, i: nat): (k: nat)
    requires 0 in s1 && 0 in s2
    requires i <= CLen(s1) && i <= CLen(s2) && s1[..i] == s2[..i]
    ensures i <= k <= CLen(s1) && k <= CLen(s2)
    ensures s1[..k] == s2[..k] && (s1[k] == 0 || s1[k] != s2[k])
    decreases CLen(s1) - i
  {
    if s1[i] == 0 || s1[i] != s2[i] then i
    else
      assert s1[..i + 1] == s1[..i] + [s1[i]];
      assert s2[..i + 1] == s2[..i] + [s2[i]];
      StrcmpStop(s1, s2, i + 1)
  }

  /** The value strcmp returns: the unsigned difference of the bytes where it stops. */
  function StrcmpSpec(s1: seq<u8>, s2: seq<u8>): (r: int)
    requires 0 in s1 && 0 in s2
    ensures -255 <= r <= 255
  {
    var k := StrcmpStop(s1, s2, 0);
    s1[k] as int - s2[k] as int
  }

  /** strcmp reports 0 exactly when the two C strings are equal. */
  lemma StrcmpZeroIff(s1: seq<u8>, s2: seq<u8>)
    requires 0 in s1 && 0 in s2
    ensures StrcmpSpec(s1, s2) == 0 <==> CString(s1) == CString(s2)
  {
    var k := StrcmpStop(s1, s2, 0);
    if s1[k] == s2[k] {
      CStringOf(s1, k);
      CStringOf(s2, k);
    }
    if CString(s1) == CString(s2) {
      var n := CLen(s1);
      assert |CString(s2)| == n;
    }
  }

  /** strcmp (std_funcs.h:40-46). */
  method Strcmp(s1: seq<u8>, s2: seq<u8>) returns (r: int)
    requires 0 in s1 && 0 in s2
    ensures r == StrcmpSpec(s1, s2)
  {
    var i := 0;
    while s1[i] != 0 && s1[i] == s2[i]
      invariant i <= CLen(s1) && i <= CLen(s2) && s1[..i] == s2[..i]
      invariant StrcmpStop(s1, s2, i) == StrcmpStop(s1, s2, 0)
      decreases CLen(s1) - i
    {
      i := i + 1;
    }
    r := s1[i] as int - s2[i] as int;
  }

  /** strlen (std_funcs.h:48-52). */
  method Strlen(s: seq<u8>) returns (len: nat)
    requires 0 in s
    ensures len == |CString(s)|
  {
    len := 0;
    while s[len] != 0
      invariant len <= CLen(s)
      decreases CLen(s) - len
    {
      len := len + 1;
    }
  }

  // ---------------------------------------------------------------------
  // memset, memcpy, strcpy
  // ---------------------------------------------------------------------

  /** memset (std_funcs.h:19-25): `count` bytes of `(unsigned char)ch` from `off`. */
  method Memset(dest: array<u8>, off: nat, ch: int, count: nat)
    requires off + count <= dest.Length
    modifies dest
    ensures dest[..] == old(dest[..off]) + Repeat(Wrap8(ch), count) + old(dest[off + count..])
  {
    var i := 0;
    while i < count
      invariant 0 <= i <= count
      invariant dest[..off] == old(dest[..off])
      invariant dest[off..off + i] == Repeat(Wrap8(ch), i)
      invariant dest[off + i..] == old(dest[off + i..])
    {
      dest[off + i] := Wrap8(ch);
      i := i + 1;
    }
    assert dest[..] == dest[..off] + dest[off..off + count] + dest[off + count..];
  }

  /** memcpy (std_funcs.h:27-32), for non-overlapping buffers. */
  method Memcpy(dest: array<u8>, doff: nat, src: array<u8>, soff: nat, n: nat)
    requires dest != src
    requires doff + n <= dest.Length && soff + n <= src.Length
    modifies dest
    ensures dest[..] == old(dest[..doff]) + src[soff..soff + n] + old(dest[doff + n..])
  {
    var i := 0;
    while i < n
      invariant 0 <= i <= n
      invariant dest[..doff] == old(dest[..doff])
      invariant dest[doff..doff + i] == src[soff..soff + i]
      invariant dest[doff + i..] == old(dest[doff + i..])
    {
      dest[doff + i] := src[soff + i];
      i := i + 1;
    }
    assert dest[..] == dest[..doff] + dest[doff..doff + n] + dest[doff + n..];
  }

  /**
   * strcpy (std_funcs.h:34-38): copies the C string at `src[soff..]`
   * together with its terminating NUL.
   */
  method Strcpy(dest: array<u8>, doff: nat, src: array<u8>, soff: nat)
    requires dest != src && soff <= src.Length && 0 in src[soff..]
    requires doff + CLen(src[soff..]) + 1 <= dest.Length
    modifies dest
    ensures var n := CLen(src[soff..]) + 1;
      dest[..] == old(dest[..doff]) + src[soff..soff + n] + old(dest[doff + n..])
  {
    ghost var len := CLen(src[soff..]);
    var i := 0;
    while true
      invariant 0 <= i <= len
      invariant dest[..doff] == old(dest[..doff])
      invariant dest[doff..doff + i] == src[soff..soff + i]
      invariant dest[doff + i..] == old(dest[doff + i..])
      decreases len - i
    {
      var c := src[soff + i];
      dest[doff + i] := c;
      if c == 0 {
        assert src[soff..][i] == 0;
        assert i == len;
        assert dest[doff..doff + i + 1] == src[soff..soff + i + 1];
        break;
      }
      assert src[soff..][i] != 0;
      i := i + 1;
    }
    assert dest[..] == dest[..doff] + dest[doff..doff + len + 1] + dest[doff + len + 1..];
  }
}
