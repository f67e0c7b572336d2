/**
 * The COM1 console of the kernel (kernel/arch/x86_64/serial.c): `kprint`
 * sends a C string, turning every line feed into carriage return + line
 * feed, and `kprint_hex` sends a 64-bit value as "0x" and sixteen
 * upper-case hexadecimal digits.
 *
 * The UART itself is not modelled: the port is the sequence of bytes
 * written to it so far.
 */
module Serial {
  import opened Machine
  import opened StdFuncs

  const CR: u8 := 13
  const LF: u8 := 10

  // ---------------------------------------------------------------------
  // Line-feed expansion
  // ---------------------------------------------------------------------

  /** What kprint transmits for the characters `s`. */
  function KprintText(s: seq<u8>): (r: seq<u8>)
  {
    if s == [] then []
    else (if s[0] == LF then [CR, LF] else [s[0]]) + KprintText(s[1..])
  }

  /** A receiver's view of the stream: every CR LF pair read back as LF. */
  function CollapseCrLf(t: seq<u8>): (r: seq<u8>)
    ensures |r| <= |t|
  {
    if t == [] then []
    else if |t| >= 2 && t[0] == CR && t[1] == LF then [LF] + CollapseCrLf(t[2..])
    else [t[0]] + CollapseCrLf(t[1..])
  }

  lemma {:induction false} KprintTextNeverStartsWithLf(s: seq<u8>)
    ensures KprintText(s) == [] || KprintText(s)[0] != LF
  {
    if s != [] {
      assert KprintText(s) == (if s[0] == LF then [CR, LF] else [s[0]]) + KprintText(s[1..]);
    }
  }

  /** The expansion is lossless: collapsing CR LF pairs gives back the text. */
  lemma {:induction false} KprintTextRoundTrip(s: seq<u8>)
    ensures CollapseCrLf(KprintText(s)) == s
  {
    if s != [] {
      var rest := KprintText(s[1..]);
      KprintTextRoundTrip(s[1..]);
      KprintTextNeverStartsWithLf(s[1..]);
      if s[0] == LF {
        assert KprintText(s) == [CR, LF] + rest;
        assert ([CR, LF] + rest)[2..] == rest;
      } else {
        assert KprintText(s) == [s[0]] + rest;
        assert ([s[0]] + rest)[1..] == rest;
      }
    }
  }

  /** Every line feed kprint transmits directly follows a carriage return. */
  lemma {:induction false} KprintTextLfAfterCr(s: seq<u8>, i: nat)
    requires i < |KprintText(s)| && KprintText(s)[i] == LF
    ensures i > 0 && KprintText(s)[i - 1] == CR
  {
    var head := if s[0] == LF then [CR, LF] else [s[0]];
    var rest := KprintText(s[1..]);
    assert KprintText(s) == head + rest;
    if i >= |head| {
      assert rest[i - |head|] == LF;
      KprintTextLfAfterCr(s[1..], i - |head|);
    }
  }

  // ---------------------------------------------------------------------
  // Hexadecimal output
  // ---------------------------------------------------------------------

  /** `hex_chars[d]` for the table "0123456789ABCDEF". */
  function HexChar(d: int): (c: u8)
    requires 0 <= d < 16
    ensures (48 <= c <= 57) || (65 <= c <= 70)
  {
    if d < 10 then 48 + d else 55 + d
  }

  /** The digit a receiver reads from an upper-case hexadecimal character. */
  function HexValue(c: u8): (d: int)
    ensures 0 <= d < 16
  {
    if 48 <= c <= 57 then c - 48 else if 65 <= c <= 70 then c - 55 else 0
  }

  function Pow16(n: nat): (p: nat)
    ensures p >= 1
  {
    if n == 0 then 1 else 16 * Pow16(n - 1)
  }

  /** The low `n` hexadecimal digits of `v`, most significant first. */
  function HexDigits(v: nat, n: nat): (r: seq<u8>)
    ensures |r| == n
  {
    if n == 0 then [] else HexDigits(v / 16, n - 1) + [HexChar(v % 16)]
  }

  /** A receiver's reading of a string of hexadecimal digits. */
  function ParseHex(ds: seq<u8>): (v: nat)
  {
    if ds == [] then 0 else ParseHex(ds[..|ds| - 1]) * 16 + HexValue(ds[|ds| - 1])
  }

  /** What kprint_hex transmits for `value`. */
  function HexText(value: u64): (r: seq<u8>)
    ensures |r| == 18
  {
    [48, 120] + HexDigits(value, 16)
  }

  lemma Pow16Of16()
    ensures Pow16(16) == U64_LIMIT
  {
    assert Pow16(1) == 0x10;
    assert Pow16(2) == 0x100;
    assert Pow16(3) == 0x1000;
    assert Pow16(4) == 0x10000;
    assert Pow16(5) == 0x100000;
    assert Pow16(6) == 0x1000000;
    assert Pow16(7) == 0x10000000;
    assert Pow16(8) == 0x100000000;
    assert Pow16(9) == 0x1000000000;
    assert Pow16(10) == 0x10000000000;
    assert Pow16(11) == 0x100000000000;
    assert Pow16(12) == 0x1000000000000;
    assert Pow16(13) == 0x10000000000000;
    assert Pow16(14) == 0x100000000000000;
    assert Pow16(15) == 0x1000000000000000;
    assert Pow16(16) == 0x10000000000000000;
  }

  /** Reading back n digits gives the value modulo 16^n. */
  lemma {:induction false} ParseHexDigits(v: nat, n: nat)
    ensures ParseHex(HexDigits(v, n)) == v % Pow16(n)
  {
    if n > 0 {
      var ds := HexDigits(v, n);
      assert ds[..n - 1] == HexDigits(v / 16, n - 1);
      ParseHexDigits(v / 16, n - 1);
      DivDiv(v, 16, Pow16(n - 1));
    }
  }

  /** The digit at position n-1-i is nibble i of `v`, the one kprint_hex sends for i. */
  lemma {:induction false} HexDigitAt(v: nat, n: nat, i: nat)
    requires i < n
    ensures HexDigits(v, n)[n - 1 - i] == HexChar(v / Pow16(i) % 16)
  {
    if i > 0 {
      HexDigitAt(v / 16, n - 1, i - 1);
      DivDiv(v, 16, Pow16(i - 1));
    }
  }

  /** kprint_hex's output names the value exactly. */
  lemma HexTextRoundTrip(value: u64)
    ensures HexText(value)[..2] == [48, 120]
    ensures ParseHex(HexText(value)[2..]) == value
  {
    assert HexText(value)[2..] == HexDigits(value, 16);
    ParseHexDigits(value, 16);
    Pow16Of16();
    ModBelow(value, Pow16(16));
  }

  // ---------------------------------------------------------------------
  // The port
  // ---------------------------------------------------------------------

  /** The bytes of a NUL-free ASCII literal. */
  function Ascii(s: string): (r: seq<u8>)
    requires forall i | 0 <= i < |s| :: 0 < s[i] as int < 128
    ensures |r| == |s| && 0 !in r
    ensures forall i | 0 <= i < |s| :: r[i] == s[i] as int
  {
    seq(|s|, i requires 0 <= i < |s| => s[i] as int)
  }

  class SerialPort {
    /** Every byte written to COM1, oldest first. */
    var out: seq<u8>

    constructor ()
      ensures out == []
    {
      out := [];
    }

    /** write_serial (serial.c:19-22); the wait for an empty transmitter is not modelled. */
    method WriteSerial(c: u8)
      modifies this
      ensures out == old(out) + [c]
    {
      out := out + [c];
    }

    /** kprint (serial.c:24-29): sends the C string at the start of `s`. */
    method Kprint(s: seq<u8>)
      requires 0 in s
      modifies this
      ensures out == old(out) + KprintText(CString(s))
    {
      var i := 0;
      while s[i] != 0
        invariant i <= CLen(s)
        invariant out == old(out) + KprintText(s[..i])
        decreases CLen(s) - i
      {
        KprintTextSnoc(s[..i], s[i]);
        assert s[..i + 1] == s[..i] + [s[i]];
        if s[i] == LF {
          WriteSerial(CR);
        }
        WriteSerial(s[i]);
        i := i + 1;
      }
    }

    /** kprint of a string literal: its NUL terminates it. */
    method KprintLiteral(s: string)
      requires forall i | 0 <= i < |s| :: 0 < s[i] as int < 128
      modifies this
      ensures out == old(out) + KprintText(Ascii(s))
    {
      var bytes := Ascii(s) + [0];
      CStringOf(bytes, |s|);
      assert bytes[..|s|] == Ascii(s);
      Kprint(bytes);
    }

    /** kprint_hex (serial.c:31-39). */
    method KprintHex(value: u64)
      modifies this
      ensures out == old(out) + HexText(value)
    {
      Kprint([48, 120, 0]);
      assert CString([48, 120, 0]) == [48, 120];
      assert KprintText([48, 120]) == [48, 120];
      ghost var start := |out|;
      var i := 15;
      while i >= 0
        invariant -1 <= i <= 15
        invariant |out| == start + 15 - i
        invariant out[..start] == old(out) + [48, 120]
        invariant forall j | 0 <= j < 15 - i :: out[start + j] == HexDigits(value, 16)[j]
      {
        var nibble := value / Pow16(i) % 16;
        HexDigitAt(value, 16, i);
        WriteSerial(HexChar(nibble));
        i := i - 1;
      }
      assert out[start..] == HexDigits(value, 16);
      assert out == out[..start] + out[start..];
    }
  }

  lemma {:induction false} KprintTextSnoc(s: seq<u8>, c: u8)
    ensures KprintText(s + [c]) == KprintText(s) + (if c == LF then [CR, LF] else [c])
  {
    if s == [] {
      assert [] + [c] == [c];
      assert KprintText([c]) == (if c == LF then [CR, LF] else [c]) + KprintText([]);
    } else {
      assert (s + [c])[1..] == s[1..] + [c];
      KprintTextSnoc(s[1..], c);
    }
  }
}
