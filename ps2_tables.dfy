/**
 * The PS/2 scan code set 2 translation tables
 * (kernel/include/arch/x86_64/drivers/ps2/ps2_kbd.h): two 128-entry byte
 * tables indexed by make code, one for the unshifted and one for the
 * shifted layer. Entries 0x80 and above are the driver's own codes for
 * keys without an ASCII meaning; 0 means "no character".
 *
 * Each table is written as sixteen rows of eight entries, the layout of
 * the C initialisers.
 */
module Ps2Tables {
  import opened Machine

  const KBD_KEY_UP: u8 := 0x80
  const KBD_KEY_DOWN: u8 := 0x81
  const KBD_KEY_LEFT: u8 := 0x82
  const KBD_KEY_RIGHT: u8 := 0x83
  const KBD_KEY_CAPS: u8 := 0x84
  const KBD_KEY_LSHIFT: u8 := 0x85
  const KBD_KEY_RSHIFT: u8 := 0x86
  const KBD_KEY_LCTRL: u8 := 0x87
  const KBD_KEY_LALT: u8 := 0x88

  /** `scancode_set2_lower` (ps2_kbd.h:18-35). */
  function Lower(code: nat): (r: u8)
    requires code < 128
  {
    if code < 8 then [0x00, 0x89, 0x00, 0x8A, 0x8B, 0x8C, 0x8D, 0x96][code - 0]  // 00-07: . 89 . 8A 8B 8C 8D 96
    else if code < 16 then [0x00, 0x97, 0x98, 0x99, 0x9A, 0x09, 0x60, 0x00][code - 8]  // 08-0F: . 97 98 99 9A TAB ` .
    else if code < 24 then [0x00, 0x88, 0x85, 0x00, 0x87, 0x71, 0x31, 0x00][code - 16]  // 10-17: . 88 85 . 87 q 1 .
    else if code < 32 then [0x00, 0x00, 0x7A, 0x73, 0x61, 0x77, 0x32, 0x00][code - 24]  // 18-1F: . . z s a w 2 .
    else if code < 40 then [0x00, 0x63, 0x78, 0x64, 0x65, 0x34, 0x33, 0x00][code - 32]  // 20-27: . c x d e 4 3 .
    else if code < 48 then [0x00, 0x20, 0x76, 0x66, 0x74, 0x72, 0x35, 0x00][code - 40]  // 28-2F: . SP v f t r 5 .
    else if code < 56 then [0x00, 0x6E, 0x62, 0x68, 0x67, 0x79, 0x36, 0x00][code - 48]  // 30-37: . n b h g y 6 .
    else if code < 64 then [0x00, 0x00, 0x6D, 0x6A, 0x75, 0x37, 0x38, 0x00][code - 56]  // 38-3F: . . m j u 7 8 .
    else if code < 72 then [0x00, 0x2C, 0x6B, 0x69, 0x6F, 0x30, 0x39, 0x00][code - 64]  // 40-47: . , k i o 0 9 .
    else if code < 80 then [0x00, 0x2E, 0x2F, 0x6C, 0x3B, 0x70, 0x2D, 0x00][code - 72]  // 48-4F: . . / l ; p - .
    else if code < 88 then [0x00, 0x00, 0x27, 0x00, 0x5B, 0x3D, 0x00, 0x00][code - 80]  // 50-57: . . ' . [ = . .
    else if code < 96 then [0x84, 0x86, 0x0A, 0x5D, 0x00, 0x5C, 0x00, 0x00][code - 88]  // 58-5F: 84 86 LF ] . \ . .
    else if code < 104 then [0x00, 0x00, 0x00, 0x00, 0x00, 0x00, 0x08, 0x00][code - 96]  // 60-67: . . . . . . BS .
    else if code < 112 then [0x00, 0x31, 0x00, 0x34, 0x37, 0x00, 0x00, 0x00][code - 104]  // 68-6F: . 1 . 4 7 . . .
    else if code < 120 then [0x30, 0x2E, 0x32, 0x35, 0x36, 0x38, 0x1B, 0x00][code - 112]  // 70-77: 0 . 2 5 6 8 ESC .
    else [0x9B, 0x2B, 0x33, 0x2D, 0x2A, 0x39, 0x00, 0x00][code - 120]  // 78-7F: 9B + 3 - * 9 . .
  }

  /** `scancode_set2_upper` (ps2_kbd.h:38-55). */
  function Upper(code: nat): (r: u8)
    requires code < 128
  {
    if code < 8 then [0x00, 0x00, 0x00, 0x00, 0x00, 0x00, 0x00, 0x00][code - 0]  // 00-07: . . . . . . . .
    else if code < 16 then [0x00, 0x00, 0x00, 0x00, 0x00, 0x09, 0x7E, 0x00][code - 8]  // 08-0F: . . . . . TAB ~ .
    else if code < 24 then [0x00, 0x00, 0x00, 0x00, 0x00, 0x51, 0x21, 0x00][code - 16]  // 10-17: . . . . . Q ! .
    else if code < 32 then [0x00, 0x00, 0x5A, 0x53, 0x41, 0x57, 0x40, 0x00][code - 24]  // 18-1F: . . Z S A W @ .
    else if code < 40 then [0x00, 0x43, 0x58, 0x44, 0x45, 0x24, 0x23, 0x00][code - 32]  // 20-27: . C X D E $ # .
    else if code < 48 then [0x00, 0x20, 0x56, 0x46, 0x54, 0x52, 0x25, 0x00][code - 40]  // 28-2F: . SP V F T R % .
    else if code < 56 then [0x00, 0x4E, 0x42, 0x48, 0x47, 0x59, 0x5E, 0x00][code - 48]  // 30-37: . N B H G Y ^ .
    else if code < 64 then [0x00, 0x00, 0x4D, 0x4A, 0x55, 0x26, 0x2A, 0x00][code - 56]  // 38-3F: . . M J U & * .
    else if code < 72 then [0x00, 0x3C, 0x4B, 0x49, 0x4F, 0x29, 0x28, 0x00][code - 64]  // 40-47: . < K I O ) ( .
    else if code < 80 then [0x00, 0x3E, 0x3F, 0x4C, 0x3A, 0x50, 0x5F, 0x00][code - 72]  // 48-4F: . > ? L : P _ .
    else if code < 88 then [0x00, 0x00, 0x22, 0x00, 0x7B, 0x2B, 0x00, 0x00][code - 80]  // 50-57: . . " . { + . .
    else if code < 96 then [0x00, 0x00, 0x0A, 0x7D, 0x00, 0x7C, 0x00, 0x00][code - 88]  // 58-5F: . . LF } . | . .
    else if code < 104 then [0x00, 0x00, 0x00, 0x00, 0x00, 0x00, 0x08, 0x00][code - 96]  // 60-67: . . . . . . BS .
    else if code < 112 then [0x00, 0x31, 0x00, 0x34, 0x37, 0x00, 0x00, 0x00][code - 104]  // 68-6F: . 1 . 4 7 . . .
    else if code < 120 then [0x30, 0x2E, 0x32, 0x35, 0x36, 0x38, 0x1B, 0x00][code - 112]  // 70-77: 0 . 2 5 6 8 ESC .
    else [0x00, 0x3D, 0x33, 0x2D, 0x2A, 0x39, 0x00, 0x00][code - 120]  // 78-7F: . = 3 - * 9 . .
  }

  predicate IsLowerLetter(c: int) { 97 <= c <= 122 }
  predicate IsUpperLetter(c: int) { 65 <= c <= 90 }

  /**
   * The two layers agree on letters: a key whose unshifted entry is a
   * lower-case letter has that letter's capital as its shifted entry, and
   * every capital in the shifted layer comes from such a key.
   */
  predicate CaseConsistent(code: nat)
    requires code < 128
  {
    && (IsLowerLetter(Lower(code)) ==> Upper(code) == Lower(code) - 32)
    && (IsUpperLetter(Upper(code)) ==> Lower(code) == Upper(code) + 32)
  }

  lemma CaseConsistentRow0()
    ensures forall code | 0 <= code < 8 :: CaseConsistent(code)
  {
    forall code | 0 <= code < 8
      ensures CaseConsistent(code)
    {
      assert code == 0 || code == 1 || code == 2 || code == 3 || code == 4 || code == 5 || code == 6 || code == 7;
    }
  }

  lemma CaseConsistentRow1()
    ensures forall code | 8 <= code < 16 :: CaseConsistent(code)
  {
    forall code | 8 <= code < 16
      ensures CaseConsistent(code)
    {
      assert code == 8 || code == 9 || code == 10 || code == 11 || code == 12 || code == 13 || code == 14 || code == 15;
    }
  }

  lemma CaseConsistentRow2()
    ensures forall code | 16 <= code < 24 :: CaseConsistent(code)
  {
    forall code | 16 <= code < 24
      ensures CaseConsistent(code)
    {
      assert code == 16 || code == 17 || code == 18 || code == 19 || code == 20 || code == 21 || code == 22 || code == 23;
    }
  }

  lemma CaseConsistentRow3()
    ensures forall code | 24 <= code < 32 :: CaseConsistent(code)
  {
    forall code | 24 <= code < 32
      ensures CaseConsistent(code)
    {
      assert code == 24 || code == 25 || code == 26 || code == 27 || code == 28 || code == 29 || code == 30 || code == 31;
    }
  }

  lemma CaseConsistentRow4()
    ensures forall code | 32 <= code < 40 :: CaseConsistent(code)
  {
    forall code | 32 <= code < 40
      ensures CaseConsistent(code)
    {
      assert code == 32 || code == 33 || code == 34 || code == 35 || code == 36 || code == 37 || code == 38 || code == 39;
    }
  }

  lemma CaseConsistentRow5()
    ensures forall code | 40 <= code < 48 :: CaseConsistent(code)
  {
    forall code | 40 <= code < 48
      ensures CaseConsistent(code)
    {
      assert code == 40 || code == 41 || code == 42 || code == 43 || code == 44 || code == 45 || code == 46 || code == 47;
    }
  }

  lemma CaseConsistentRow6()
    ensures forall code | 48 <= code < 56 :: CaseConsistent(code)
  {
    forall code | 48 <= code < 56
      ensures CaseConsistent(code)
    {
      assert code == 48 || code == 49 || code == 50 || code == 51 || code == 52 || code == 53 || code == 54 || code == 55;
    }
  }

  lemma CaseConsistentRow7()
    ensures forall code | 56 <= code < 64 :: CaseConsistent(code)
  {
    forall code | 56 <= code < 64
      ensures CaseConsistent(code)
    {
      assert code == 56 || code == 57 || code == 58 || code == 59 || code == 60 || code == 61 || code == 62 || code == 63;
    }
  }

  lemma CaseConsistentRow8()
    ensures forall code | 64 <= code < 72 :: CaseConsistent(code)
  {
    forall code | 64 <= code < 72
      ensures CaseConsistent(code)
    {
      assert code == 64 || code == 65 || code == 66 || code == 67 || code == 68 || code == 69 || code == 70 || code == 71;
    }
  }

  lemma CaseConsistentRow9()
    ensures forall code | 72 <= code < 80 :: CaseConsistent(code)
  {
    forall code | 72 <= code < 80
      ensures CaseConsistent(code)
    {
      assert code == 72 || code == 73 || code == 74 || code == 75 || code == 76 || code == 77 || code == 78 || code == 79;
    }
  }

  lemma CaseConsistentRow10()
    ensures forall code | 80 <= code < 88 :: CaseConsistent(code)
  {
    forall code | 80 <= code < 88
      ensures CaseConsistent(code)
    {
      assert code == 80 || code == 81 || code == 82 || code == 83 || code == 84 || code == 85 || code == 86 || code == 87;
    }
  }

  lemma CaseConsistentRow11()
    ensures forall code | 88 <= code < 96 :: CaseConsistent(code)
  {
    forall code | 88 <= code < 96
      ensures CaseConsistent(code)
    {
      assert code == 88 || code == 89 || code == 90 || code == 91 || code == 92 || code == 93 || code == 94 || code == 95;
    }
  }

  lemma CaseConsistentRow12()
    ensures forall code | 96 <= code < 104 :: CaseConsistent(code)
  {
    forall code | 96 <= code < 104
      ensures CaseConsistent(code)
    {
      assert code == 96 || code == 97 || code == 98 || code == 99 || code == 100 || code == 101 || code == 102 || code == 103;
    }
  }

  lemma CaseConsistentRow13()
    ensures forall code | 104 <= code < 112 :: CaseConsistent(code)
  {
    forall code | 104 <= code < 112
      ensures CaseConsistent(code)
    {
      assert code == 104 || code == 105 || code == 106 || code == 107 || code == 108 || code == 109 || code == 110 || code == 111;
    }
  }

  lemma CaseConsistentRow14()
    ensures forall code | 112 <= code < 120 :: CaseConsistent(code)
  {
    forall code | 112 <= code < 120
      ensures CaseConsistent(code)
    {
      assert code == 112 || code == 113 || code == 114 || code == 115 || code == 116 || code == 117 || code == 118 || code == 119;
    }
  }

  lemma CaseConsistentRow15()
    ensures forall code | 120 <= code < 128 :: CaseConsistent(code)
  {
    forall code | 120 <= code < 128
      ensures CaseConsistent(code)
    {
      assert code == 120 || code == 121 || code == 122 || code == 123 || code == 124 || code == 125 || code == 126 || code == 127;
    }
  }

  /** Every key with a lower-case letter has its capital on the shifted layer, and conversely. */
  lemma LettersHaveCapitals()
    ensures forall code | 0 <= code < 128 :: CaseConsistent(code)
  {
    CaseConsistentRow0();
    CaseConsistentRow1();
    CaseConsistentRow2();
    CaseConsistentRow3();
    CaseConsistentRow4();
    CaseConsistentRow5();
    CaseConsistentRow6();
    CaseConsistentRow7();
    CaseConsistentRow8();
    CaseConsistentRow9();
    CaseConsistentRow10();
    CaseConsistentRow11();
    CaseConsistentRow12();
    CaseConsistentRow13();
    CaseConsistentRow14();
    CaseConsistentRow15();
  }
  /** The modifier keys have the driver's special codes in the unshifted layer. */
  lemma ModifierCodes()
    ensures Lower(0x11) == KBD_KEY_LALT && Lower(0x12) == KBD_KEY_LSHIFT
    ensures Lower(0x14) == KBD_KEY_LCTRL && Lower(0x58) == KBD_KEY_CAPS
    ensures Lower(0x59) == KBD_KEY_RSHIFT
  {
  }

  /** Enter, backspace and escape type the same control character on both layers. */
  lemma ControlKeysShared()
    ensures Lower(0x5A) == 0x0A && Upper(0x5A) == 0x0A
    ensures Lower(0x66) == 0x08 && Upper(0x66) == 0x08
    ensures Lower(0x76) == 0x1B && Upper(0x76) == 0x1B
  {
  }

  /**
   * Make codes 0x00-0x0C are function keys: the unshifted layer has the
   * driver's codes 0x89 and above for them (or nothing), the shifted layer
   * nothing at all.
   */
  lemma FunctionKeysUnshiftedOnly()
    ensures forall code | 0 <= code <= 0x0C :: Upper(code) == 0 && (Lower(code) == 0 || Lower(code) >= 0x89)
  {
    forall code | 0 <= code <= 0x0C
      ensures Upper(code) == 0 && (Lower(code) == 0 || Lower(code) >= 0x89)
    {
      assert code == 0 || code == 1 || code == 2 || code == 3 || code == 4 || code == 5 || code == 6
        || code == 7 || code == 8 || code == 9 || code == 10 || code == 11 || code == 12;
    }
  }
}
