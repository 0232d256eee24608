// The keystroke capture machine of listen_key: it watches key-down events,
// starts capturing after a first "//" and returns what was typed when a second
// "//" arrives. The pure functions below specify one key (Feed), one event
// (Next), a run of keys (Run) and a run of events (Listen); the class Capture
// holds the three variables the loop mutates and ListenKey is the loop.
module Capture {
  import opened Keys
  import opened Events

  datatype Option<T> = None | Some(value: T)

  /**
   * The loop's variables: `buf` is the edit buffer, `esc` the run of
   * consecutive "/" seen so far, `started` whether the first "//" was seen.
   */
  datatype State = State(buf: string, esc: string, started: bool)

  /** The variables as listen_key initialises them. */
  const Init: State := State("", "", false)

  /**
   * What holds at the top of every iteration: the slash run is empty or one
   * "/", nothing is buffered before capture starts, and while capturing a
   * pending "/" is also the last character of the buffer, so removing it on
   * the second "/" cannot underflow.
   */
  predicate Inv(s: State)
  {
    (s.esc == "" || s.esc == "/") &&
    (!s.started ==> s.buf == "") &&
    (s.started && s.esc == "/" ==> |s.buf| > 0 && s.buf[|s.buf| - 1] == '/')
  }

  /** The buffer without its last character, or unchanged when it is empty. */
  function DropLast(buf: string): (r: string)
    ensures |buf| > 0 ==> r + [buf[|buf| - 1]] == buf
    ensures |buf| == 0 ==> r == buf
  {
    if |buf| > 0 then buf[..|buf| - 1] else buf
  }

  /**
   * What a non-"/" key does to the buffer while capturing: Backspace removes
   * at most the last character, any other key adds at most one at the end,
   * and a bracketed name other than Backspace changes nothing.
   */
  function Edit(buf: string, key: string): (r: string)
    ensures key == "<Backspace>" ==> r <= buf && |buf| - 1 <= |r|
    ensures key != "<Backspace>" ==> buf <= r && |r| <= |buf| + 1
    ensures key != "<Backspace>" && Named(key) ==> r == buf
  {
    if key == "<Backspace>" then DropLast(buf)
    else if |key| < 2 then buf + key
    else buf
  }

  /**
   * One key-down whose name is `key`: the new variables and, on the second
   * "/" of the stop marker, the returned command. After a return the
   * variables are those of the next call of listen_key.
   */
  function Feed(s: State, key: string): (r: (State, Option<string>))
    requires Inv(s)
    ensures Inv(r.0)
    ensures r.1.Some? ==> r.0 == Init
  {
    if key == "/" then
      var esc := s.esc + "/";
      if esc == "//" then
        if !s.started then (State(s.buf, "", true), None)
        else (Init, Some(s.buf[..|s.buf| - 1]))
      else if s.started then (State(s.buf + key, esc, true), None)
      else (State(s.buf, esc, false), None)
    else
      (State(if s.started then Edit(s.buf, key) else s.buf, "", s.started), None)
  }

  /** What one event produces besides the new variables. */
  datatype Signal = Quiet | Done(command: string) | OutOfBounds(code: u16)

  /**
   * One input event: only a key-down changes anything; its code indexes the
   * table without a bounds check, so a code of MAX_KEYS or more panics.
   */
  function Next(s: State, e: InputEvent): (r: (State, Signal))
    requires Inv(s)
    ensures Inv(r.0)
  {
    if !IsKeyDown(e) then (s, Quiet)
    else if e.code >= MAX_KEYS then (s, OutOfBounds(e.code))
    else
      var fed := Feed(s, KEY_NAMES[e.code]);
      (fed.0, if fed.1.Some? then Done(fed.1.value) else Quiet)
  }

  /** Where a call of listen_key stands after some input. */
  datatype Outcome = Pending(state: State) | Emitted(command: string) | Panicked(code: u16)

  /** Feeding key names one by one, stopping at the first returned command. */
  function Run(s: State, keys: seq<string>): (r: Outcome)
    requires Inv(s)
    ensures r.Pending? ==> Inv(r.state)
    ensures !r.Panicked?
    decreases |keys|
  {
    if keys == [] then Pending(s)
    else
      var fed := Feed(s, keys[0]);
      if fed.1.Some? then Emitted(fed.1.value) else Run(fed.0, keys[1..])
  }

  /** Feeding events one by one, stopping at the first command or panic. */
  function Listen(s: State, events: seq<InputEvent>): (r: Outcome)
    requires Inv(s)
    ensures r.Pending? ==> Inv(r.state)
    ensures r.Panicked? ==> r.code >= MAX_KEYS
    decreases |events|
  {
    if events == [] then Pending(s)
    else
      match Next(s, events[0])
      case (_, Done(command)) => Emitted(command)
      case (_, OutOfBounds(code)) => Panicked(code)
      case (t, Quiet) => Listen(t, events[1..])
  }

  /** The names of the key-down events, in order; there are none exactly when no event is a key-down. */
  function KeysOf(events: seq<InputEvent>): (keys: seq<string>)
    requires forall i :: 0 <= i < |events| && IsKeyDown(events[i]) ==> events[i].code < MAX_KEYS
    ensures keys == [] <==> forall i :: 0 <= i < |events| ==> !IsKeyDown(events[i])
  {
    if events == [] then []
    else if IsKeyDown(events[0]) then [KEY_NAMES[events[0].code]] + KeysOf(events[1..])
    else
      assert forall i :: 0 < i < |events| ==> events[i] == events[1..][i - 1];
      KeysOf(events[1..])
  }

  /** The three loop variables of one call of listen_key. */
  class Capture {
    var buf: string
    var esc: string
    var started: bool

    function Model(): State
      reads this
    {
      State(buf, esc, started)
    }

    ghost predicate Valid()
      reads this
    {
      Inv(Model())
    }

    constructor ()
      ensures Valid() && Model() == Init
    {
      buf, esc, started := "", "", false;
    }

    /** One iteration of the loop, on the event the read produced. */
    method Step(e: InputEvent) returns (signal: Signal)
      requires Valid()
      modifies this
      ensures Valid()
      ensures (Model(), signal) == Next(old(Model()), e)
    {
      signal := Quiet;
      if e.kind == EV_KEY && e.value == KEY_PRESS {
        if e.code >= MAX_KEYS {
          return OutOfBounds(e.code);
        }
        var key := KEY_NAMES[e.code];
        if key == "/" {
          esc := esc + "/";
          if esc == "//" {
            if !started {
              started := true;
              esc := "";
            } else {
              var finalLen := |buf|;
              var command := buf[..finalLen - 1];
              buf, esc, started := "", "", false;
              return Done(command);
            }
          } else if started {
            buf := buf + key;
          }
        } else {
          if started {
            if key == "<Backspace>" {
              var currLen := |buf|;
              if currLen > 0 {
                buf := buf[..currLen - 1];
              }
            } else if |key| < 2 {
              buf := buf + key;
            }
          }
          esc := "";
        }
      }
    }
  }

  /**
   * listen_key on the events the device delivers, in order: the command of
   * the first stop marker, the panic of an out-of-table code, or, when the
   * events run out first, the variables the loop would wait with.
   */
  method ListenKey(events: seq<InputEvent>) returns (r: Outcome)
    ensures r == Listen(Init, events)
  {
    var capture := new Capture();
    var i := 0;
    while i < |events|
      invariant 0 <= i <= |events|
      invariant capture.Valid()
      invariant Listen(Init, events) == Listen(capture.Model(), events[i..])
    {
      assert events[i..][1..] == events[i + 1..];
      var signal := capture.Step(events[i]);
      match signal {
        case Done(command) => return Emitted(command);
        case OutOfBounds(code) => return Panicked(code);
        case Quiet =>
      }
      i := i + 1;
    }
    return Pending(capture.Model());
  }
}
