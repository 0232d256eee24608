// What one key-down or one event does to the loop variables of listen_key,
// rule by rule.
module CaptureSteps {
  import opened Keys
  import opened Events
  import opened Capture

  /** The loop starts in a state where its invariant holds. */
  lemma InitSatisfiesInv()
    ensures Inv(Init)
    ensures Init.buf == "" && Init.esc == "" && !Init.started
  {
  }

  /**
   * Events that are not key-downs change nothing and return nothing; the
   * second clause names the cases: another event type, key-up (0) and
   * autorepeat (2).
   */
  lemma OnlyKeyDownsMatter(s: State, e: InputEvent)
    requires Inv(s)
    ensures !IsKeyDown(e) ==> Next(s, e) == (s, Quiet)
    ensures e.kind != EV_KEY || e.value == 0 || e.value == 2 ==> Next(s, e) == (s, Quiet)
  {
  }

  /** A key-down whose code is past the table panics and leaves the variables as they were. */
  lemma CodePastTablePanics(s: State, e: InputEvent)
    requires Inv(s) && IsKeyDown(e)
    ensures Next(s, e).1.OutOfBounds? <==> e.code >= MAX_KEYS
    ensures e.code >= MAX_KEYS ==> Next(s, e) == (s, OutOfBounds(e.code))
  {
  }

  /** Before capture starts no key reaches the buffer and nothing is returned. */
  lemma NothingBufferedBeforeStart(s: State, key: string)
    requires Inv(s) && !s.started
    ensures Feed(s, key).0.buf == ""
    ensures Feed(s, key).1 == None
  {
  }

  /** Capture starts exactly on a "/" that follows a "/". */
  lemma StartsOnSecondSlash(s: State, key: string)
    requires Inv(s) && !s.started
    ensures Feed(s, key).0.started <==> key == "/" && s.esc == "/"
    ensures Feed(s, key).0.started ==> Feed(s, key).0 == State("", "", true)
  {
  }

  /** Any key other than "/" empties the slash run and keeps the started flag. */
  lemma OtherKeyResetsSlashRun(s: State, key: string)
    requires Inv(s) && key != "/"
    ensures Feed(s, key).0.esc == ""
    ensures Feed(s, key).0.started == s.started
    ensures Feed(s, key).1 == None
  {
  }

  /**
   * A command is returned exactly on the second "/" of a stop marker, and it
   * is the buffer without the "/" that the first half appended.
   */
  lemma StopReturnsBufferWithoutSlash(s: State, key: string)
    requires Inv(s)
    ensures Feed(s, key).1.Some? <==> s.started && s.esc == "/" && key == "/"
    ensures Feed(s, key).1.Some? ==> Feed(s, key).1.value + "/" == s.buf && Feed(s, key).0 == Init
  {
  }

  /** While capturing, Backspace removes the last character, or nothing from an empty buffer. */
  lemma BackspaceRemovesOne(s: State)
    requires Inv(s) && s.started
    ensures var b := Feed(s, "<Backspace>").0.buf;
      (|s.buf| > 0 ==> b + [s.buf[|s.buf| - 1]] == s.buf) && (s.buf == "" ==> b == "")
  {
  }

  /**
   * While capturing, a key other than "/" and Backspace is appended when its
   * name is shorter than two characters and otherwise leaves the buffer alone.
   */
  lemma ShortNamesAppend(s: State, key: string)
    requires Inv(s) && s.started && key != "/" && key != "<Backspace>"
    ensures Feed(s, key).0.buf == if |key| < 2 then s.buf + key else s.buf
  {
  }

  /** Every bracketed name in the table other than Backspace leaves the buffer alone. */
  lemma NamedKeysIgnored(s: State, code: nat)
    requires Inv(s) && code < MAX_KEYS && code != KEY_BACKSPACE
    requires Named(KEY_NAMES[code])
    ensures Feed(s, KEY_NAMES[code]).0.buf == s.buf
    ensures Feed(s, KEY_NAMES[code]).1 == None
  {
    SlashOnlyAtKeySlash(code);
    BackspaceAndSpace(code);
    NamesWellFormed(code);
  }

  /** Every single-character name in the table other than "/" is appended while capturing. */
  lemma CharacterKeysAppended(s: State, code: nat)
    requires Inv(s) && s.started && code < MAX_KEYS && code != KEY_SLASH
    requires !Named(KEY_NAMES[code])
    ensures |KEY_NAMES[code]| == 1
    ensures Feed(s, KEY_NAMES[code]).0.buf == s.buf + KEY_NAMES[code]
  {
    SlashOnlyAtKeySlash(code);
    BackspaceAndSpace(code);
    NamesWellFormed(code);
  }

  /** A single "/" followed by another character stays in the command. */
  lemma LoneSlashKept(s: State, key: string)
    requires Inv(s) && s.started && s.esc == ""
    requires key != "/" && key != "<Backspace>" && |key| == 1
    ensures Feed(Feed(s, "/").0, key).0.buf == s.buf + "/" + key
    ensures Feed(Feed(s, "/").0, key).0.esc == ""
  {
  }
}
