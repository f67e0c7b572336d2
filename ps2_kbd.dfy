/**
 * The PS/2 keyboard interrupt handler
 * (kernel/arch/x86_64/drivers/ps2/ps2_kbd.c). The driver keeps four flags
 * between interrupts (caps lock, a pending break prefix, shift held, a
 * pending extended prefix); each interrupt reads one scan code byte,
 * updates the flags, and may print one character on the serial console.
 */
module Ps2Keyboard {
  import opened Machine
  import opened Ps2Tables
  import opened Serial
  import StdFuncs

  const PREFIX_EXTENDED: u8 := 0xE0
  const PREFIX_BREAK: u8 := 0xF0
  const SC_LSHIFT: u8 := 0x12
  const SC_RSHIFT: u8 := 0x59
  const SC_CAPS: u8 := 0x58

  /** The driver's four static flags. */
  datatype KbdState = KbdState(caps: bool, brk: bool, shifted: bool, extended: bool)

  /** The flags after one interrupt, and the character it printed, if any. */
  datatype Reaction = Reaction(state: KbdState, typed: Option<u8>)

  predicate IsShiftCode(sc: u8) { sc == SC_LSHIFT || sc == SC_RSHIFT }

  /** ps2_keyboard_handler (ps2_kbd.c:11-59) for the scan code `sc`. */
  function Handle(s: KbdState, sc: u8): (r: Reaction)
    ensures r.typed.Some? ==> sc < 0x80 && r.typed.value != 0 && !s.brk
    ensures r.state.brk <==> sc == PREFIX_BREAK || (s.brk && sc == PREFIX_EXTENDED)
    ensures r.state.extended <==>
      || sc == PREFIX_EXTENDED
      || (s.extended && (sc == PREFIX_BREAK || (!s.brk && (IsShiftCode(sc) || sc == SC_CAPS))))
    ensures r.state.shifted <==> (!s.brk && IsShiftCode(sc)) || (s.shifted && !(s.brk && IsShiftCode(sc)))
    ensures r.state.caps != s.caps <==> (!s.brk && sc == SC_CAPS)
  {
    if sc == PREFIX_EXTENDED then
      Reaction(s.(extended := true), None)
    else if sc == PREFIX_BREAK then
      Reaction(s.(brk := true), None)
    else if s.brk then
      var released := s.(brk := false, extended := false);
      Reaction(if IsShiftCode(sc) then released.(shifted := false) else released, None)
    else if IsShiftCode(sc) then
      // The shift and caps-lock paths return before the extended flag is cleared.
      Reaction(s.(shifted := true), None)
    else if sc == SC_CAPS then
      Reaction(s.(caps := !s.caps), None)
    else
      var ascii := if sc < 0x80 then (if s.shifted != s.caps then Upper(sc) else Lower(sc)) else 0;
      Reaction(s.(extended := false), if ascii != 0 then Some(ascii) else None)
  }

  /** What the handler sends to the console for a reaction. */
  function Printed(r: Reaction): seq<u8>
  {
    if r.typed.Some? then KprintText([r.typed.value]) else []
  }

  class Ps2Keyboard {
    var isCaps: bool
    var isBreak: bool
    var isShifted: bool
    var isExtended: bool

    function State(): KbdState
      reads this
    {
      KbdState(isCaps, isBreak, isShifted, isExtended)
    }

    /** The flags are statics initialised to 0. */
    constructor ()
      ensures State() == KbdState(false, false, false, false)
    {
      isCaps, isBreak, isShifted, isExtended := false, false, false, false;
    }

    /**
     * ps2_keyboard_handler (ps2_kbd.c:11-59): `scancode` is the byte read
     * from the controller's data port.
     */
    method HandleInterrupt(scancode: u8, console: SerialPort)
      modifies this, console
      ensures State() == Handle(old(State()), scancode).state
      ensures console.out == old(console.out) + Printed(Handle(old(State()), scancode))
    {
      if scancode == PREFIX_EXTENDED {
        isExtended := true;
        return;
      }
      if scancode == PREFIX_BREAK {
        isBreak := true;
        return;
      }
      if isBreak {
        isBreak := false;
        isExtended := false;
        if scancode == SC_LSHIFT || scancode == SC_RSHIFT {
          isShifted := false;
        }
        return;
      }
      if scancode == SC_LSHIFT || scancode == SC_RSHIFT {
        isShifted := true;
        return;
      }
      if scancode == SC_CAPS {
        isCaps := !isCaps;
        return;
      }
      if scancode < 0x80 {
        var useUpper := isShifted != isCaps;
        var ascii := if useUpper then Upper(scancode) else Lower(scancode);
        if ascii != 0 {
          console.Kprint([ascii, 0]);
          assert StdFuncs.CString([ascii, 0]) == [ascii];
        }
      }
      isExtended := false;
    }
  }

  // -----------------------------------------------------------------------
  // Properties of the handler
  // -----------------------------------------------------------------------

  /** A letter key types its lower-case letter exactly when shift and caps lock agree. */
  lemma LetterKeyCase(s: KbdState, sc: u8)
    requires !s.brk && sc < 0x80 && IsLowerLetter(Lower(sc))
    ensures Handle(s, sc).typed == Some(if s.shifted == s.caps then Lower(sc) else Lower(sc) - 32)
  {
    LettersHaveCapitals();
    assert CaseConsistent(sc);
  }

  /** Neither a prefix byte nor any key release ever prints a character. */
  lemma ReleasesAreSilent(s: KbdState, sc: u8)
    requires sc == PREFIX_EXTENDED || sc == PREFIX_BREAK || s.brk
    ensures Handle(s, sc).typed == None
  {
  }

  /** Pressing and releasing a shift key clears shift whatever came before. */
  lemma ShiftPressThenRelease(s: KbdState, key: u8)
    requires IsShiftCode(key) && !s.brk
    ensures var pressed := Handle(s, key).state;
      && pressed.shifted
      && var released := Handle(Handle(pressed, PREFIX_BREAK).state, key).state;
      && !released.shifted && !released.brk && !released.extended
      && released.caps == s.caps
  {
  }

  /** Two caps-lock presses leave caps lock as it was. */
  lemma CapsLockTwice(s: KbdState)
    requires !s.brk
    ensures Handle(Handle(s, SC_CAPS).state, SC_CAPS).state.caps == s.caps
    ensures Handle(s, SC_CAPS).state.caps != s.caps
  {
  }

  /**
   * The extended prefix does not select a different table: what a key
   * prints is the same with and without a preceding 0xE0.
   */
  lemma ExtendedPrefixIgnored(s: KbdState, sc: u8)
    ensures Handle(s.(extended := true), sc).typed == Handle(s.(extended := false), sc).typed
  {
  }

  /**
   * Caps lock switches the whole key to the shifted layer, not only
   * letters: with caps lock on and no shift, the "1" key (make code 0x16)
   * prints '!'.
   */
  lemma CapsLockShiftsDigits(s: KbdState)
    requires s.caps && !s.shifted && !s.brk
    ensures Handle(s, 0x16).typed == Some(33)
  {
  }
}
