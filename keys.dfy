// The scancode-to-name table that the capture loop reads. Slot numbers follow
// the Linux input-event key codes (KEY_ESC = 1, KEY_BACKSPACE = 14,
// KEY_SLASH = 53, KEY_SPACE = 57, ...); unassigned slots hold the sentinel UK.
module Keys {

  /** Number of slots in the table; a code at or above it has no entry. */
  const MAX_KEYS: nat := 112

  /** Sentinel name of a slot that no key is assigned to. */
  const UK: string := "<UK>"

  /** Key codes the capture loop cares about, under their Linux names. */
  const KEY_BACKSPACE: nat := 14
  const KEY_SLASH: nat := 53
  const KEY_SPACE: nat := 57

  /** The name stored in slot `code`, one slot per case, in table order. */
  function Entry(code: nat): string
    requires code < MAX_KEYS
  {
    match code
      case 0 => UK  case 1 => "<ESC>"
      case 2 => "1"  case 3 => "2"  case 4 => "3"  case 5 => "4"  case 6 => "5"  case 7 => "6"  case 8 => "7"  case 9 => "8"  case 10 => "9"  case 11 => "0"  case 12 => "-"  case 13 => "="
      case 14 => "<Backspace>"  case 15 => "<Tab>"
      case 16 => "q"  case 17 => "w"  case 18 => "e"  case 19 => "r"  case 20 => "t"  case 21 => "y"  case 22 => "u"  case 23 => "i"  case 24 => "o"  case 25 => "p"
      case 26 => "["  case 27 => "]"  case 28 => "<Enter>"  case 29 => "<LCtrl>"
      case 30 => "a"  case 31 => "s"  case 32 => "d"  case 33 => "f"  case 34 => "g"  case 35 => "h"  case 36 => "j"  case 37 => "k"  case 38 => "l"  case 39 => ";"
      case 40 => "'"  case 41 => "`"  case 42 => "<LShift>"
      case 43 => "\\"  case 44 => "z"  case 45 => "x"  case 46 => "c"  case 47 => "v"  case 48 => "b"  case 49 => "n"  case 50 => "m"  case 51 => ","  case 52 => "."  case 53 => "/"
      case 54 => "<RShift>"
      case 55 => "<KP*>"
      case 56 => "<LAlt>"  case 57 => " "  case 58 => "<CapsLock>"
      case 59 => "<F1>"  case 60 => "<F2>"  case 61 => "<F3>"  case 62 => "<F4>"  case 63 => "<F5>"  case 64 => "<F6>"  case 65 => "<F7>"  case 66 => "<F8>"  case 67 => "<F9>"  case 68 => "<F10>"
      case 69 => "<NumLock>"  case 70 => "<ScrollLock>"
      case 71 => "<KP7>"  case 72 => "<KP8>"  case 73 => "<KP9>"
      case 74 => "<KP->"
      case 75 => "<KP4>"  case 76 => "<KP5>"  case 77 => "<KP6>"
      case 78 => "<KP+>"
      case 79 => "<KP1>"  case 80 => "<KP2>"  case 81 => "<KP3>"  case 82 => "<KP0>"
      case 83 => "<KP.>"
      case 84 => UK  case 85 => UK  case 86 => UK
      case 87 => "<F11>"  case 88 => "<F12>"
      case 89 => UK  case 90 => UK  case 91 => UK  case 92 => UK  case 93 => UK  case 94 => UK  case 95 => UK
      case 96 => "<KPEnter>"  case 97 => "<RCtrl>"  case 98 => "<KP/>"  case 99 => "<SysRq>"  case 100 => "<RAlt>"  case 101 => UK
      case 102 => "<Home>"  case 103 => "<Up>"  case 104 => "<PageUp>"  case 105 => "<Left>"  case 106 => "<Right>"  case 107 => "<End>"  case 108 => "<Down>"
      case 109 => "<PageDown>"  case 110 => "<Insert>"  case 111 => "<Delete>"
  }

  /** The slots in order: slot `code` holds `Entry(code)`. */
  function Table(): (t: seq<string>)
    ensures |t| == MAX_KEYS
  {
    seq(MAX_KEYS, code requires 0 <= code < MAX_KEYS => Entry(code))
  }

  /** The table the capture loop indexes with a key code. */
  const KEY_NAMES: seq<string> := Table()

  /** A bracketed key name such as "<Enter>", "<F1>" or "<UK>". */
  predicate Named(name: string)
  {
    |name| >= 3 && name[0] == '<' && name[|name| - 1] == '>'
  }

  /** Every character of `s` is 7-bit ASCII, so one char is one byte. */
  predicate Ascii(s: string)
  {
    forall j | 0 <= j < |s| :: s[j] < 128 as char
  }

  /** The table has exactly MAX_KEYS slots, so a code indexes it iff it is below MAX_KEYS. */
  lemma TableSize()
    ensures |KEY_NAMES| == MAX_KEYS
  {
  }

  /** Slot 0 and the unassigned slots 84-86, 89-95 and 101 hold UK, and no other slot does. */
  lemma UnknownSlots(code: nat)
    requires code < MAX_KEYS
    ensures KEY_NAMES[code] == UK <==> code in {0, 84, 85, 86, 89, 90, 91, 92, 93, 94, 95, 101}
  {
  }

  /** "/" is the name of KEY_SLASH and of no other slot ("<KP/>" is a different name). */
  lemma SlashOnlyAtKeySlash(code: nat)
    requires code < MAX_KEYS
    ensures KEY_NAMES[code] == "/" <==> code == KEY_SLASH
  {
  }

  /** "<Backspace>" is the name of KEY_BACKSPACE only, and " " the name of KEY_SPACE only. */
  lemma BackspaceAndSpace(code: nat)
    requires code < MAX_KEYS
    ensures KEY_NAMES[code] == "<Backspace>" <==> code == KEY_BACKSPACE
    ensures KEY_NAMES[code] == " " <==> code == KEY_SPACE
  {
  }

  /**
   * A well-formed name is ASCII, so counting chars and counting bytes agree
   * on the buffer, and is either one character or a bracketed name of at
   * least three, never both: the partition behind the "fewer than two
   * characters" test of the capture loop.
   */
  predicate WellFormed(name: string)
  {
    Ascii(name) && (|name| == 1 <==> !Named(name))
  }

  /** Every name in the table is well formed. */
  lemma NamesWellFormed(code: nat)
    requires code < MAX_KEYS
    ensures Ascii(KEY_NAMES[code])
    ensures |KEY_NAMES[code]| == 1 <==> !Named(KEY_NAMES[code])
  {
    if code < 7 {
      WellFormedSlots0To6(code);
    } else if code < 14 {
      WellFormedSlots7To13(code);
    } else if code < 21 {
      WellFormedSlots14To20(code);
    } else if code < 28 {
      WellFormedSlots21To27(code);
    } else if code < 35 {
      WellFormedSlots28To34(code);
    } else if code < 42 {
      WellFormedSlots35To41(code);
    } else if code < 49 {
      WellFormedSlots42To48(code);
    } else if code < 56 {
      WellFormedSlots49To55(code);
    } else if code < 63 {
      WellFormedSlots56To62(code);
    } else if code < 70 {
      WellFormedSlots63To69(code);
    } else if code < 77 {
      WellFormedSlots70To76(code);
    } else if code < 84 {
      WellFormedSlots77To83(code);
    } else if code < 91 {
      WellFormedSlots84To90(code);
    } else if code < 98 {
      WellFormedSlots91To97(code);
    } else if code < 105 {
      WellFormedSlots98To104(code);
    } else {
      WellFormedSlots105To111(code);
    }
  }

  // The check of NamesWellFormed, seven slots of the table at a time.

  lemma WellFormedSlots0To6(code: nat)
    requires code < 7
    ensures WellFormed(Entry(code))
  {
  }

  lemma WellFormedSlots7To13(code: nat)
    requires 7 <= code < 14
    ensures WellFormed(Entry(code))
  {
  }

  lemma WellFormedSlots14To20(code: nat)
    requires 14 <= code < 21
    ensures WellFormed(Entry(code))
  {
  }

  lemma WellFormedSlots21To27(code: nat)
    requires 21 <= code < 28
    ensures WellFormed(Entry(code))
  {
  }

  lemma WellFormedSlots28To34(code: nat)
    requires 28 <= code < 35
    ensures WellFormed(Entry(code))
  {
  }

  lemma WellFormedSlots35To41(code: nat)
    requires 35 <= code < 42
    ensures WellFormed(Entry(code))
  {
  }

  lemma WellFormedSlots42To48(code: nat)
    requires 42 <= code < 49
    ensures WellFormed(Entry(code))
  {
  }

  lemma WellFormedSlots49To55(code: nat)
    requires 49 <= code < 56
    ensures WellFormed(Entry(code))
  {
  }

  lemma WellFormedSlots56To62(code: nat)
    requires 56 <= code < 63
    ensures WellFormed(Entry(code))
  {
  }

  lemma WellFormedSlots63To69(code: nat)
    requires 63 <= code < 70
    ensures WellFormed(Entry(code))
  {
  }

  lemma WellFormedSlots70To76(code: nat)
    requires 70 <= code < 77
    ensures WellFormed(Entry(code))
  {
  }

  lemma WellFormedSlots77To83(code: nat)
    requires 77 <= code < 84
    ensures WellFormed(Entry(code))
  {
  }

  lemma WellFormedSlots84To90(code: nat)
    requires 84 <= code < 91
    ensures WellFormed(Entry(code))
  {
  }

  lemma WellFormedSlots91To97(code: nat)
    requires 91 <= code < 98
    ensures WellFormed(Entry(code))
  {
  }

  lemma WellFormedSlots98To104(code: nat)
    requires 98 <= code < 105
    ensures WellFormed(Entry(code))
  {
  }

  lemma WellFormedSlots105To111(code: nat)
    requires 105 <= code < MAX_KEYS
    ensures WellFormed(Entry(code))
  {
  }
}
