/** ps2.c: what each scancode (set 1) does to the modifiers, the 0xE0 prefix and the key queue. */
module Keyboard {
  import opened Words

  const SC_LSHIFT := 0x2A
  const SC_RSHIFT := 0x36
  const SC_CTRL := 0x1D
  const SC_ALT := 0x38
  const SC_CAPSLOCK := 0x3A
  const SC_EXTENDED := 0xE0
  const BREAK := 0x80

  const KEY_UP := 0x100
  const KEY_DOWN := 0x101
  const KEY_LEFT := 0x102
  const KEY_RIGHT := 0x103

  const MOD_LSHIFT: bv8 := 0x01
  const MOD_RSHIFT: bv8 := 0x02
  const MOD_LCTRL: bv8 := 0x04
  const MOD_LALT: bv8 := 0x08
  const MOD_CAPSLOCK: bv8 := 0x10
  const MOD_RCTRL: bv8 := 0x20
  const MOD_RALT: bv8 := 0x40

  // ---------- The key tables ----------

  function Row(keys: string, first: int, sc: int): (c: int)
    requires first <= sc < first + |keys|
    requires forall i :: 0 <= i < |keys| ==> keys[i] as int < 128
    ensures 0 <= c < 128
  {
    keys[sc - first] as int
  }

  /** sc1_unshifted. */
  function Unshifted(sc: int): (c: int)
    ensures 0 <= c < 128
  {
    if 0x02 <= sc <= 0x0E then Row("1234567890-=\U{0008}", 0x02, sc)
    else if 0x10 <= sc <= 0x1C then Row("qwertyuiop[]\n", 0x10, sc)
    else if 0x1E <= sc <= 0x29 then Row("asdfghjkl;'`", 0x1E, sc)
    else if 0x2B <= sc <= 0x35 then Row("\\zxcvbnm,./", 0x2B, sc)
    else if sc == 0x37 then '*' as int
    else if sc == 0x39 then ' ' as int
    else if sc == 0x4A then '-' as int
    else if sc == 0x4E then '+' as int
    else 0
  }

  /** sc1_shifted: no entry for Enter and Backspace. */
  function Shifted(sc: int): (c: int)
    ensures 0 <= c < 128
  {
    if 0x02 <= sc <= 0x0D then Row("!@#$%^&*()_+", 0x02, sc)
    else if 0x10 <= sc <= 0x1B then Row("QWERTYUIOP{}", 0x10, sc)
    else if 0x1E <= sc <= 0x29 then Row("ASDFGHJKL:\"~", 0x1E, sc)
    else if 0x2B <= sc <= 0x35 then Row("|ZXCVBNM<>?", 0x2B, sc)
    else if sc == 0x37 then '*' as int
    else if sc == 0x39 then ' ' as int
    else if sc == 0x4A then '-' as int
    else if sc == 0x4E then '+' as int
    else 0
  }

  predicate IsLetter(sc: int) {
    0x10 <= sc <= 0x19 || 0x1E <= sc <= 0x26 || 0x2C <= sc <= 0x32
  }

  /** On the letter keys, and on no other, Shift turns a lower-case letter into its capital. */
  lemma LettersAreLetters(sc: int)
    requires 0 <= sc < 0x80
    ensures IsLetter(sc) <==> 'a' as int <= Unshifted(sc) <= 'z' as int
  {
  }

  lemma TopRow(i: nat)
    requires i < 10
    ensures "QWERTYUIOP"[i] as int == "qwertyuiop"[i] as int - 32
  {
  }

  lemma HomeRow(i: nat)
    requires i < 9
    ensures "ASDFGHJKL"[i] as int == "asdfghjkl"[i] as int - 32
  {
  }

  lemma BottomRow(i: nat)
    requires i < 7
    ensures "ZXCVBNM"[i] as int == "zxcvbnm"[i] as int - 32
  {
  }

  lemma ShiftCapitalizes(sc: int)
    requires IsLetter(sc)
    ensures Shifted(sc) == Unshifted(sc) - 32
  {
    if sc <= 0x19 {
      TopRow(sc - 0x10);
    } else if sc <= 0x26 {
      HomeRow(sc - 0x1E);
    } else {
      BottomRow(sc - 0x2C);
    }
  }

  // ---------- One scancode ----------

  /** modifier_state and extended_prefix. */
  datatype State = State(mods: bv8, extended: bool)

  predicate On(s: State, mask: bv8) {
    s.mods & mask != 0
  }

  /** update_modifiers. */
  function Pressed(mods: bv8, sc: Byte): bv8 {
    if sc == SC_LSHIFT then mods | MOD_LSHIFT
    else if sc == SC_RSHIFT then mods | MOD_RSHIFT
    else if sc == SC_CTRL then mods | MOD_LCTRL
    else if sc == SC_ALT then mods | MOD_LALT
    else if sc == SC_CAPSLOCK then mods ^ MOD_CAPSLOCK
    else mods
  }

  /** clear_modifiers. */
  function Released(mods: bv8, sc: Byte): bv8 {
    if sc == SC_LSHIFT + BREAK then mods & !MOD_LSHIFT
    else if sc == SC_RSHIFT + BREAK then mods & !MOD_RSHIFT
    else if sc == SC_CTRL + BREAK then mods & !MOD_LCTRL
    else if sc == SC_ALT + BREAK then mods & !MOD_LALT
    else mods
  }

  function ExtendedMods(mods: bv8, sc: Byte): bv8 {
    if sc == SC_CTRL then mods | MOD_RCTRL
    else if sc == SC_ALT then mods | MOD_RALT
    else if sc == SC_CTRL + BREAK then mods & !MOD_RCTRL
    else if sc == SC_ALT + BREAK then mods & !MOD_RALT
    else mods
  }

  function ExtendedKey(sc: Byte): Option<nat> {
    if sc == 0x48 then Some(KEY_UP)
    else if sc == 0x50 then Some(KEY_DOWN)
    else if sc == 0x4B then Some(KEY_LEFT)
    else if sc == 0x4D then Some(KEY_RIGHT)
    else None
  }

  /** The character of a make code; Caps Lock inverts Shift on letters. */
  function Character(sc: Byte, shift: bool, capsLock: bool): (c: Option<nat>)
    requires sc < BREAK
    ensures c.Some? ==> c.value < 128
  {
    var c := if shift != (IsLetter(sc) && capsLock) then Shifted(sc) else Unshifted(sc);
    if c == 0 then None else Some(c)
  }

  predicate Ignored(sc: Byte) {
    sc == 0x00 || sc == 0xE1
  }

  /** keyboard_handler: the next state and the key it publishes, if any. */
  function Handle(s: State, sc: Byte): (State, Option<nat>) {
    if Ignored(sc) then (s, None)
    else if sc == SC_EXTENDED then (s.(extended := true), None)
    else if s.extended then
      (State(ExtendedMods(s.mods, sc), false), if sc < BREAK then ExtendedKey(sc) else None)
    else if sc >= BREAK then (s.(mods := Released(s.mods, sc)), None)
    else
      var s' := s.(mods := Pressed(s.mods, sc));
      (s', Character(sc, On(s', MOD_LSHIFT) || On(s', MOD_RSHIFT), On(s', MOD_CAPSLOCK)))
  }

  function Boot(): State {
    State(0, false)
  }

  // ---------- Whole histories ----------

  function After(h: seq<Byte>): State {
    if h == [] then Boot() else Handle(After(h[..|h| - 1]), h[|h| - 1]).0
  }

  /** The keys published over a history, in order. */
  function Keys(h: seq<Byte>): seq<nat> {
    if h == [] then []
    else
      Keys(h[..|h| - 1]) + match Handle(After(h[..|h| - 1]), h[|h| - 1]).1 case None => [] case Some(k) => [k]
  }

  /** Only ignored bytes lie between byte i and the 0xE0 before it. */
  ghost predicate Prefixed(h: seq<Byte>, i: nat)
    requires i <= |h|
  {
    exists k :: 0 <= k < i && h[k] == 0xE0 && forall j :: k < j < i ==> h[j] == 0x00 || h[j] == 0xE1
  }

  /** Byte i is this code, with or without the 0xE0 prefix. */
  ghost predicate Event(h: seq<Byte>, i: nat, code: int, extended: bool)
    requires i < |h|
  {
    h[i] == code && (Prefixed(h, i) <==> extended)
  }

  /** The key was pressed and has not been released since. */
  ghost predicate Held(h: seq<Byte>, press: int, release: int, extended: bool) {
    exists i :: 0 <= i < |h| && Event(h, i, press, extended)
      && forall j :: i < j < |h| ==> !Event(h, j, release, extended)
  }

  ghost function Presses(h: seq<Byte>, code: int): nat {
    if h == [] then 0
    else Presses(h[..|h| - 1], code) + if Event(h, |h| - 1, code, false) then 1 else 0
  }

  lemma PrefixedShorter(h: seq<Byte>, n: nat, i: nat)
    requires i <= n <= |h|
    ensures Prefixed(h[..n], i) <==> Prefixed(h, i)
  {
    var front := h[..n];
    if k :| 0 <= k < i && h[k] == SC_EXTENDED && forall j :: k < j < i ==> Ignored(h[j]) {
      assert front[k] == SC_EXTENDED && forall j :: k < j < i ==> Ignored(front[j]);
    }
    if k :| 0 <= k < i && front[k] == SC_EXTENDED && forall j :: k < j < i ==> Ignored(front[j]) {
      assert h[k] == SC_EXTENDED && forall j :: k < j < i ==> Ignored(h[j]) by {
        forall j | k < j < i ensures Ignored(h[j]) { assert front[j] == h[j]; }
      }
    }
  }

  lemma PrefixedBy(h: seq<Byte>, i: nat, k: nat)
    requires k < i <= |h| && h[k] == SC_EXTENDED
    requires forall j :: k < j < i ==> Ignored(h[j])
    ensures Prefixed(h, i)
  {
  }

  lemma PrefixedStep(h: seq<Byte>, n: nat)
    requires n < |h|
    ensures Prefixed(h, n + 1) <==> h[n] == SC_EXTENDED || (Ignored(h[n]) && Prefixed(h, n))
  {
    if h[n] == SC_EXTENDED {
      PrefixedBy(h, n + 1, n);
    }
    if Ignored(h[n]) && Prefixed(h, n) {
      var k :| 0 <= k < n && h[k] == SC_EXTENDED && forall j :: k < j < n ==> Ignored(h[j]);
      PrefixedBy(h, n + 1, k);
    }
    if Prefixed(h, n + 1) {
      var k :| 0 <= k < n + 1 && h[k] == SC_EXTENDED && forall j :: k < j < n + 1 ==> Ignored(h[j]);
      if k < n {
        assert Ignored(h[n]);
        PrefixedBy(h, n, k);
      }
    }
  }

  /** extended_prefix says whether the next byte is prefixed. */
  lemma {:induction false} ExtendedMeans(h: seq<Byte>)
    ensures After(h).extended <==> Prefixed(h, |h|)
  {
    if h != [] {
      var n := |h| - 1;
      ExtendedMeans(h[..n]);
      PrefixedShorter(h, n, n);
      PrefixedStep(h, n);
    }
  }

  lemma HeldBy(h: seq<Byte>, i: nat, press: int, release: int, extended: bool)
    requires i < |h| && Event(h, i, press, extended)
    requires forall j :: i < j < |h| ==> !Event(h, j, release, extended)
    ensures Held(h, press, release, extended)
  {
  }

  lemma HeldStep(h: seq<Byte>, press: int, release: int, extended: bool)
    requires h != [] && press != release
    ensures var n := |h| - 1;
      Held(h, press, release, extended) <==>
        Event(h, n, press, extended) || (Held(h[..n], press, release, extended) && !Event(h, n, release, extended))
  {
    hide Prefixed;
    var n := |h| - 1;
    var front := h[..n];
    forall i | 0 <= i < n
      ensures Event(front, i, press, extended) == Event(h, i, press, extended)
      ensures Event(front, i, release, extended) == Event(h, i, release, extended)
    {
      PrefixedShorter(h, n, i);
    }
    if Event(h, n, press, extended) {
      HeldBy(h, n, press, release, extended);
    }
    if Held(front, press, release, extended) && !Event(h, n, release, extended) {
      var i :| 0 <= i < n && Event(front, i, press, extended)
        && forall j :: i < j < n ==> !Event(front, j, release, extended);
      HeldBy(h, i, press, release, extended);
    }
    if Held(h, press, release, extended) {
      var i :| 0 <= i < |h| && Event(h, i, press, extended)
        && forall j :: i < j < |h| ==> !Event(h, j, release, extended);
      if i < n {
        assert !Event(h, n, release, extended);
        HeldBy(front, i, press, release, extended);
      }
    }
  }

  /** The bit, the code and the prefix of each key that is down while held. */
  predicate HoldKey(mask: bv8, code: int, extended: bool) {
    || (mask == MOD_LSHIFT && code == 0x2A && !extended)
    || (mask == MOD_RSHIFT && code == 0x36 && !extended)
    || (mask == MOD_LCTRL && code == 0x1D && !extended)
    || (mask == MOD_LALT && code == 0x38 && !extended)
    || (mask == MOD_RCTRL && code == 0x1D && extended)
    || (mask == MOD_RALT && code == 0x38 && extended)
  }

  lemma HandleBit(s: State, sc: Byte, mask: bv8, code: int, extended: bool)
    requires HoldKey(mask, code, extended)
    ensures On(Handle(s, sc).0, mask) <==>
      (sc == code && s.extended == extended) || (On(s, mask) && !(sc == code + BREAK && s.extended == extended))
  {
  }

  lemma HandleCapsLock(s: State, sc: Byte)
    ensures On(Handle(s, sc).0, MOD_CAPSLOCK) <==> (On(s, MOD_CAPSLOCK) != (sc == SC_CAPSLOCK && !s.extended))
  {
  }

  /** After any history each of the six bits is set exactly while its key is held down. */
  lemma {:induction false} BitMeansHeld(h: seq<Byte>, mask: bv8, code: int, extended: bool)
    requires HoldKey(mask, code, extended)
    ensures On(After(h), mask) <==> Held(h, code, code + BREAK, extended)
  {
    if h != [] {
      var n := |h| - 1;
      BitMeansHeld(h[..n], mask, code, extended);
      HeldStep(h, code, code + BREAK, extended);
      ExtendedMeans(h[..n]);
      PrefixedShorter(h, n, n);
      HandleBit(After(h[..n]), h[n], mask, code, extended);
    }
  }

  /** Caps Lock is on exactly after an odd number of presses. */
  lemma {:induction false} CapsLockMeansOdd(h: seq<Byte>)
    ensures On(After(h), MOD_CAPSLOCK) <==> Presses(h, SC_CAPSLOCK) % 2 == 1
  {
    if h != [] {
      var n := |h| - 1;
      CapsLockMeansOdd(h[..n]);
      ExtendedMeans(h[..n]);
      PrefixedShorter(h, n, n);
      HandleCapsLock(After(h[..n]), h[n]);
    }
  }

  ghost predicate ShiftHeld(h: seq<Byte>) {
    || Held(h, SC_LSHIFT, SC_LSHIFT + BREAK, false)
    || Held(h, SC_RSHIFT, SC_RSHIFT + BREAK, false)
  }

  /** The key the last byte of a history publishes, told from the history alone. */
  lemma KeyMeans(h: seq<Byte>)
    requires h != []
    ensures var n := |h| - 1;
      Handle(After(h[..n]), h[n]).1 ==
        if Ignored(h[n]) || h[n] == SC_EXTENDED || h[n] >= BREAK then None
        else if Prefixed(h, n) then ExtendedKey(h[n])
        else Character(h[n], ShiftHeld(h), Presses(h, SC_CAPSLOCK) % 2 == 1)
  {
    hide Held;
    hide Prefixed;
    hide Presses;
    hide Character;
    hide Pressed;
    hide Released;
    hide ExtendedMods;
    hide ExtendedKey;
    hide On;
    var n := |h| - 1;
    ExtendedMeans(h[..n]);
    PrefixedShorter(h, n, n);
    BitMeansHeld(h, MOD_LSHIFT, SC_LSHIFT, false);
    BitMeansHeld(h, MOD_RSHIFT, SC_RSHIFT, false);
    CapsLockMeansOdd(h);
  }

  // ---------- The keyboard as it is labelled ----------

  /** The two characters on each key of a row, in turn: without Shift, and with it. */
  function OnKey(row: string, i: nat): (char, char)
    requires 2 * i + 1 < |row|
  {
    (row[2 * i], row[2 * i + 1])
  }

  /** What is printed on the key with this code of set 1. */
  function Label(sc: int): Option<(char, char)> {
    if 2 <= sc <= 13 then Some(OnKey("1!2@3#4$5%6^7&8*9(0)-_=+", sc - 2))
    else if 16 <= sc <= 27 then Some(OnKey("qQwWeErRtTyYuUiIoOpP[{]}", sc - 16))
    else if 30 <= sc <= 41 then Some(OnKey("aAsSdDfFgGhHjJkKlL;:'\"`~", sc - 30))
    else if 43 <= sc <= 53 then Some(OnKey("\\|zZxXcCvVbBnNmM,<.>/?", sc - 43))
    else if sc == 55 then Some(('*', '*'))
    else if sc == 57 then Some((' ', ' '))
    else if sc == 74 then Some(('-', '-'))
    else if sc == 78 then Some(('+', '+'))
    else None
  }

  lemma DigitLabels(i: nat)
    requires i < 12
    ensures "1234567890-="[i] == OnKey("1!2@3#4$5%6^7&8*9(0)-_=+", i).0
    ensures "!@#$%^&*()_+"[i] == OnKey("1!2@3#4$5%6^7&8*9(0)-_=+", i).1
    ensures "1234567890-="[i] as int != 0 && "!@#$%^&*()_+"[i] as int != 0
  {
  }

  lemma TopLabels(i: nat)
    requires i < 12
    ensures "qwertyuiop[]"[i] == OnKey("qQwWeErRtTyYuUiIoOpP[{]}", i).0
    ensures "QWERTYUIOP{}"[i] == OnKey("qQwWeErRtTyYuUiIoOpP[{]}", i).1
    ensures "qwertyuiop[]"[i] as int != 0 && "QWERTYUIOP{}"[i] as int != 0
  {
  }

  lemma HomeLabels(i: nat)
    requires i < 12
    ensures "asdfghjkl;'`"[i] == OnKey("aAsSdDfFgGhHjJkKlL;:'\"`~", i).0
    ensures "ASDFGHJKL:\"~"[i] == OnKey("aAsSdDfFgGhHjJkKlL;:'\"`~", i).1
    ensures "asdfghjkl;'`"[i] as int != 0 && "ASDFGHJKL:\"~"[i] as int != 0
  {
  }

  lemma BottomLabels(i: nat)
    requires i < 11
    ensures "\\zxcvbnm,./"[i] == OnKey("\\|zZxXcCvVbBnNmM,<.>/?", i).0
    ensures "|ZXCVBNM<>?"[i] == OnKey("\\|zZxXcCvVbBnNmM,<.>/?", i).1
    ensures "\\zxcvbnm,./"[i] as int != 0 && "|ZXCVBNM<>?"[i] as int != 0
  {
  }

  /** Both characters of a key are those of the tables. */
  predicate Labelled(sc: int)
    requires 0 <= sc < 0x80
  {
    match Label(sc)
    case None => Unshifted(sc) == 0 && Shifted(sc) == 0
    case Some((plain, shifted)) => Unshifted(sc) == plain as int != 0 && Shifted(sc) == shifted as int != 0
  }

  lemma DigitsLabelled(sc: int)
    requires 2 <= sc <= 13
    ensures Labelled(sc)
  {
    DigitLabels(sc - 2);
  }

  lemma TopLabelled(sc: int)
    requires 16 <= sc <= 27
    ensures Labelled(sc)
  {
    TopLabels(sc - 16);
  }

  lemma HomeLabelled(sc: int)
    requires 30 <= sc <= 41
    ensures Labelled(sc)
  {
    HomeLabels(sc - 30);
  }

  lemma BottomLabelled(sc: int)
    requires 43 <= sc <= 53
    ensures Labelled(sc)
  {
    BottomLabels(sc - 43);
  }

  lemma OthersLabelled(sc: int)
    requires 0 <= sc < 0x80 && sc != 0x0E && sc != 0x1C
    requires !(2 <= sc <= 13) && !(16 <= sc <= 27) && !(30 <= sc <= 41) && !(43 <= sc <= 53)
    ensures Labelled(sc)
  {
  }

  lemma LabelsAreTables(sc: int)
    requires 0 <= sc < 0x80 && sc != 0x0E && sc != 0x1C
    ensures Labelled(sc)
  {
    if 2 <= sc <= 13 {
      DigitsLabelled(sc);
    } else if 16 <= sc <= 27 {
      TopLabelled(sc);
    } else if 30 <= sc <= 41 {
      HomeLabelled(sc);
    } else if 43 <= sc <= 53 {
      BottomLabelled(sc);
    } else {
      OthersLabelled(sc);
    }
    hide Labelled;
  }

  /** The arrow behind the prefix 0xE0. */
  function Arrow(sc: Byte): Option<nat> {
    if sc == 0x48 then Some(0x100)
    else if sc == 0x50 then Some(0x101)
    else if sc == 0x4B then Some(0x102)
    else if sc == 0x4D then Some(0x103)
    else None
  }

  /** What a key types: Caps Lock counts for letters only, and Enter and Backspace do nothing with Shift down. */
  function Typed(sc: int, shift: bool, capsLock: bool): Option<nat> {
    if sc == 0x1C then (if shift then None else Some(10))
    else if sc == 0x0E then (if shift then None else Some(8))
    else
      match Label(sc)
      case None => None
      case Some((plain, shifted)) =>
        var upper := if 'a' <= plain <= 'z' then shift != capsLock else shift;
        Some(if upper then shifted as int else plain as int)
  }

  lemma CharacterIsTyped(sc: Byte, shift: bool, capsLock: bool)
    requires sc < 0x80
    ensures Character(sc, shift, capsLock) == Typed(sc, shift, capsLock)
  {
    LettersAreLetters(sc);
    if sc != 0x0E && sc != 0x1C { LabelsAreTables(sc); }
    hide Label;
  }

  /**
   What the last byte of any history types, on the labelled keyboard: Shift is down while either Shift
   key was pressed and not released since, Caps Lock is on after an odd number of presses.
   */
  lemma HistoryTypes(h: seq<Byte>)
    requires h != []
    ensures var n := |h| - 1;
      Handle(After(h[..n]), h[n]).1 ==
        if h[n] == 0 || h[n] == 0xE0 || h[n] == 0xE1 || h[n] >= 0x80 then None
        else if Prefixed(h, n) then Arrow(h[n])
        else Typed(h[n], Held(h, 0x2A, 0xAA, false) || Held(h, 0x36, 0xB6, false), Presses(h, 0x3A) % 2 == 1)
  {
    var n := |h| - 1;
    KeyMeans(h);
    hide Held;
    hide Prefixed;
    hide Presses;
    hide Handle;
    hide Character;
    hide Typed;
    if h[n] < 0x80 { CharacterIsTyped(h[n], ShiftHeld(h), Presses(h, SC_CAPSLOCK) % 2 == 1); }
  }
}
