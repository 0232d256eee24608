// A definition of what listen_key returns that does not mention its loop
// variables: capture starts at the first pair of consecutive "/" key-downs,
// stops at the next pair after it, and the command is the text typed in
// between, with Backspace deleting and bracketed names ignored. The lemmas
// prove that the loop (Run, Listen, ListenKey) returns exactly that.
module CaptureReference {
  import opened Keys
  import opened Events
  import opened Capture

  /** Keys `i` and `i + 1` are both "/". */
  predicate PairAt(keys: seq<string>, i: nat)
    requires i + 1 < |keys|
  {
    keys[i] == "/" && keys[i + 1] == "/"
  }

  /** The position of the first pair of consecutive "/" keys, if any. */
  function FirstPair(keys: seq<string>): (r: Option<nat>)
    ensures r.Some? ==> r.value + 1 < |keys| && PairAt(keys, r.value)
    ensures r.Some? ==> forall i: nat :: i < r.value ==> !PairAt(keys, i)
    ensures r.None? ==> forall i: nat :: i + 1 < |keys| ==> !PairAt(keys, i)
    decreases |keys|
  {
    if |keys| < 2 then None
    else if PairAt(keys, 0) then Some(0)
    else
      var rest := FirstPair(keys[1..]);
      assert forall i: nat :: 0 < i && i + 1 < |keys| ==> PairAt(keys, i) == PairAt(keys[1..], i - 1);
      if rest.None? then None else Some(rest.value + 1)
  }

  /** The text that typing `keys` leaves after `buf`, every key as the capturing loop treats it. */
  function Typed(buf: string, keys: seq<string>): string
    decreases |keys|
  {
    if keys == [] then buf else Typed(Edit(buf, keys[0]), keys[1..])
  }

  /**
   * The command returned for the key-down names `keys`: what is typed
   * between the first "//" and the next "//" after it, or None when the
   * keys contain no such two pairs.
   */
  function Reference(keys: seq<string>): Option<string>
  {
    match FirstPair(keys)
    case None => None
    case Some(i) =>
      var body := keys[i + 2..];
      match FirstPair(body)
      case None => None
      case Some(j) => Some(Typed("", body[..j]))
  }

  /** The pending "/" of the slash run, as a key. */
  function SlashRun(s: State): seq<string>
  {
    if s.esc == "/" then ["/"] else []
  }

  /** The buffer without the pending "/" that a capturing loop appended to it. */
  function Base(s: State): string
  {
    if s.started && s.esc == "/" then DropLast(s.buf) else s.buf
  }

  /** Skipping a first key that does not start a pair moves the first pair one place left. */
  lemma FirstPairSkip(keys: seq<string>)
    requires |keys| > 0
    requires |keys| == 1 || keys[0] != "/" || keys[1] != "/"
    ensures FirstPair(keys).None? <==> FirstPair(keys[1..]).None?
    ensures FirstPair(keys).Some? ==> FirstPair(keys).value == FirstPair(keys[1..]).value + 1
  {
  }

  /** Typing one more key after `keys`. */
  lemma TypedFirst(buf: string, keys: seq<string>, n: nat)
    requires 0 < n <= |keys|
    ensures Typed(buf, keys[..n]) == Typed(Edit(buf, keys[0]), keys[1..][..n - 1])
  {
    assert keys[..n][1..] == keys[1..][..n - 1];
  }

  /**
   * Before capture starts, `r` is what the loop does with `all` (the pending
   * "/" and the keys): with no pair it stays idle; otherwise it behaves as a
   * fresh capturing loop on the keys after the first pair.
   */
  predicate IdleOutcome(r: Outcome, all: seq<string>)
  {
    match FirstPair(all)
    case None => r.Pending? && !r.state.started
    case Some(i) => r == Run(State("", "", true), all[i + 2..])
  }

  /**
   * While capturing after `base` was typed, `r` is what the loop does with
   * `all`: it returns at the first pair, with what is typed before it.
   */
  predicate ActiveOutcome(r: Outcome, base: string, all: seq<string>)
  {
    match FirstPair(all)
    case None => r.Pending?
    case Some(i) => r == Emitted(Typed(base, all[..i]))
  }

  /** IdleOutcome for the loop run from `s`, with the pending "/" of `s` in front of the keys. */
  predicate IdleSpec(s: State, keys: seq<string>)
    requires Inv(s) && !s.started
  {
    IdleOutcome(Run(s, keys), SlashRun(s) + keys)
  }

  /** ActiveOutcome for the loop run from `s`, from what `s` has typed so far. */
  predicate ActiveSpec(s: State, keys: seq<string>)
    requires Inv(s) && s.started
  {
    ActiveOutcome(Run(s, keys), Base(s), SlashRun(s) + keys)
  }

  /** A first key that does not start a pair changes nothing for an idle loop. */
  lemma IdleSkip(r: Outcome, all: seq<string>)
    requires |all| > 0 && (|all| == 1 || all[0] != "/" || all[1] != "/")
    requires IdleOutcome(r, all[1..])
    ensures IdleOutcome(r, all)
  {
    FirstPairSkip(all);
    if FirstPair(all).Some? {
      assert all[FirstPair(all).value + 2..] == all[1..][FirstPair(all[1..]).value + 2..];
    }
  }

  /** A first key that does not start a pair is typed by a capturing loop. */
  lemma ActiveSkip(r: Outcome, base: string, all: seq<string>)
    requires |all| > 0 && (|all| == 1 || all[0] != "/" || all[1] != "/")
    requires ActiveOutcome(r, Edit(base, all[0]), all[1..])
    ensures ActiveOutcome(r, base, all)
  {
    FirstPairSkip(all);
    if FirstPair(all).Some? {
      TypedFirst(base, all, FirstPair(all).value);
    }
  }

  /** Every loop that has not started capturing does what IdleSpec says, by induction on the keys. */
  lemma {:induction false} IdleRun(s: State, keys: seq<string>)
    requires Inv(s) && !s.started
    ensures IdleSpec(s, keys)
    decreases |keys|
  {
    if keys == [] {
      assert SlashRun(s) + keys == SlashRun(s);
    } else if keys[0] == "/" && s.esc == "/" {
      IdleStartMarker(s, keys);
    } else {
      var t := Feed(s, keys[0]).0;
      IdleRun(t, keys[1..]);
      assert Run(s, keys) == Run(t, keys[1..]);
      if keys[0] == "/" {
        assert SlashRun(t) + keys[1..] == SlashRun(s) + keys;
      } else {
        IdleOtherKey(s, keys);
      }
    }
  }

  // The cases of IdleRun and ActiveRun: the second "/" of a marker, a first
  // "/", and any other key.

  lemma IdleStartMarker(s: State, keys: seq<string>)
    requires Inv(s) && !s.started && s.esc == "/"
    requires keys != [] && keys[0] == "/"
    ensures IdleSpec(s, keys)
  {
    var all := SlashRun(s) + keys;
    assert all == ["/"] + keys && PairAt(all, 0);
    assert all[2..] == keys[1..];
    assert Run(s, keys) == Run(State("", "", true), keys[1..]);
  }

  lemma IdleOtherKey(s: State, keys: seq<string>)
    requires Inv(s) && !s.started
    requires keys != [] && keys[0] != "/"
    requires IdleSpec(Feed(s, keys[0]).0, keys[1..])
    requires Run(s, keys) == Run(Feed(s, keys[0]).0, keys[1..])
    ensures IdleSpec(s, keys)
  {
    var r := Run(s, keys);
    assert SlashRun(Feed(s, keys[0]).0) + keys[1..] == keys[1..];
    IdleSkip(r, keys);
    if s.esc == "/" {
      var all := ["/"] + keys;
      assert all[1..] == keys;
      IdleSkip(r, all);
    } else {
      assert SlashRun(s) + keys == keys;
    }
  }

  /** Every capturing loop does what ActiveSpec says, by induction on the keys. */
  lemma {:induction false} ActiveRun(s: State, keys: seq<string>)
    requires Inv(s) && s.started
    ensures ActiveSpec(s, keys)
    decreases |keys|
  {
    if keys == [] {
      assert SlashRun(s) + keys == SlashRun(s);
    } else if keys[0] == "/" && s.esc == "/" {
      ActiveStopMarker(s, keys);
    } else {
      ActiveRun(Feed(s, keys[0]).0, keys[1..]);
      if keys[0] == "/" {
        ActiveFirstSlash(s, keys);
      } else {
        ActiveOtherKey(s, keys);
      }
    }
  }

  lemma ActiveStopMarker(s: State, keys: seq<string>)
    requires Inv(s) && s.started && s.esc == "/"
    requires keys != [] && keys[0] == "/"
    ensures ActiveSpec(s, keys)
  {
    var all := SlashRun(s) + keys;
    assert all == ["/"] + keys && PairAt(all, 0);
    assert Run(s, keys) == Emitted(Base(s));
  }

  lemma ActiveFirstSlash(s: State, keys: seq<string>)
    requires Inv(s) && s.started && s.esc == ""
    requires keys != [] && keys[0] == "/"
    requires ActiveSpec(Feed(s, "/").0, keys[1..])
    ensures ActiveSpec(s, keys)
  {
    var t := State(s.buf + "/", "/", true);
    FirstSlashAppends(s);
    assert Run(s, keys) == Run(t, keys[1..]);
    assert SlashRun(t) + keys[1..] == keys;
    assert Base(s) == s.buf && SlashRun(s) + keys == keys;
  }

  /** While capturing, a first "/" is appended, and the buffer before it is what is typed. */
  lemma FirstSlashAppends(s: State)
    requires Inv(s) && s.started && s.esc == ""
    ensures Feed(s, "/") == (State(s.buf + "/", "/", true), None)
    ensures Base(State(s.buf + "/", "/", true)) == s.buf
  {
    assert (s.buf + "/")[..|s.buf|] == s.buf;
  }

  lemma ActiveOtherKey(s: State, keys: seq<string>)
    requires Inv(s) && s.started
    requires keys != [] && keys[0] != "/"
    requires ActiveSpec(Feed(s, keys[0]).0, keys[1..])
    ensures ActiveSpec(s, keys)
  {
    var r := Run(s, keys);
    var typed := Edit(s.buf, keys[0]);
    assert ActiveOutcome(r, typed, keys[1..]) by {
      var t := State(typed, "", true);
      assert Feed(s, keys[0]) == (t, None);
      assert r == Run(t, keys[1..]);
      assert SlashRun(t) + keys[1..] == keys[1..];
    }
    ActiveSkip(r, s.buf, keys);
    if s.esc == "/" {
      var all := ["/"] + keys;
      assert all[1..] == keys;
      assert Edit(Base(s), "/") == s.buf;
      ActiveSkip(r, Base(s), all);
      assert SlashRun(s) + keys == all;
    } else {
      assert SlashRun(s) + keys == keys;
    }
  }

  /** A loop that has just started capturing returns what is typed before the next "//". */
  lemma CaptureFromStart(body: seq<string>)
    ensures var r := Run(State("", "", true), body);
      (r.Emitted? <==> FirstPair(body).Some?) &&
      (r.Emitted? ==> r.command == Typed("", body[..FirstPair(body).value]))
  {
    var started := State("", "", true);
    assert SlashRun(started) + body == body;
    assert Base(started) == "";
    ActiveRun(started, body);
  }

  /** An idle outcome for the keys is a command exactly when Reference gives one, and the same one. */
  lemma IdleOutcomeIsReference(r: Outcome, keys: seq<string>)
    requires IdleOutcome(r, keys)
    ensures r.Emitted? <==> Reference(keys).Some?
    ensures r.Emitted? ==> r.command == Reference(keys).value
  {
    match FirstPair(keys)
    case None =>
    case Some(i) =>
      CaptureFromStart(keys[i + 2..]);
  }

  /** From its initial variables the loop returns a command exactly when Reference does, and the same one. */
  lemma RunMatchesReference(keys: seq<string>)
    ensures Run(Init, keys).Emitted? <==> Reference(keys).Some?
    ensures Run(Init, keys).Emitted? ==> Run(Init, keys).command == Reference(keys).value
  {
    IdleRun(Init, keys);
    assert SlashRun(Init) + keys == keys;
    IdleOutcomeIsReference(Run(Init, keys), keys);
  }

  /** `name` is the table entry of one of the key-down events. */
  predicate FromKeyDown(name: string, events: seq<InputEvent>)
  {
    exists i :: 0 <= i < |events| && IsKeyDown(events[i]) && events[i].code < MAX_KEYS &&
      name == KEY_NAMES[events[i].code]
  }

  /** Every name KeysOf yields is the table entry of one of the key-down events. */
  lemma {:induction false} KeysOfNames(events: seq<InputEvent>)
    requires forall i :: 0 <= i < |events| && IsKeyDown(events[i]) ==> events[i].code < MAX_KEYS
    ensures forall n :: 0 <= n < |KeysOf(events)| ==> FromKeyDown(KeysOf(events)[n], events)
    decreases |events|
  {
    if events == [] {
      assert KeysOf(events) == [];
    } else {
      var rest := events[1..];
      KeysOfNames(rest);
      var keys := KeysOf(events);
      var offset := if IsKeyDown(events[0]) then 1 else 0;
      assert keys[offset..] == KeysOf(rest);
      forall n | 0 <= n < |keys|
        ensures FromKeyDown(keys[n], events)
      {
        if n < offset {
          assert IsKeyDown(events[0]) && keys[0] == KEY_NAMES[events[0].code];
        } else {
          assert keys[n] == KeysOf(rest)[n - offset];
          var j :| 0 <= j < |rest| && IsKeyDown(rest[j]) && rest[j].code < MAX_KEYS &&
            KeysOf(rest)[n - offset] == KEY_NAMES[rest[j].code];
          assert rest[j] == events[j + 1];
        }
      }
    }
  }

  /** KeysOf of two streams one after the other is the two name sequences one after the other. */
  lemma {:induction false} KeysOfAppend(a: seq<InputEvent>, b: seq<InputEvent>)
    requires forall i :: 0 <= i < |a| && IsKeyDown(a[i]) ==> a[i].code < MAX_KEYS
    requires forall i :: 0 <= i < |b| && IsKeyDown(b[i]) ==> b[i].code < MAX_KEYS
    ensures forall i :: 0 <= i < |a + b| && IsKeyDown((a + b)[i]) ==> (a + b)[i].code < MAX_KEYS
    ensures KeysOf(a + b) == KeysOf(a) + KeysOf(b)
    decreases |a|
  {
    if a == [] {
      assert a + b == b;
    } else {
      assert (a + b)[1..] == a[1..] + b;
      KeysOfAppend(a[1..], b);
    }
  }

  /** On events, the loop is the key loop on the names of the key-downs, as long as every code is in the table. */
  lemma {:induction false} ListenIsRunOnKeyDowns(s: State, events: seq<InputEvent>)
    requires Inv(s)
    requires forall i :: 0 <= i < |events| && IsKeyDown(events[i]) ==> events[i].code < MAX_KEYS
    ensures Listen(s, events) == Run(s, KeysOf(events))
    decreases |events|
  {
    if events != [] {
      var e := events[0];
      ListenIsRunOnKeyDowns(Next(s, e).0, events[1..]);
      if IsKeyDown(e) {
        assert KeysOf(events)[1..] == KeysOf(events[1..]);
      }
    }
  }

  /**
   * Running events is running a prefix and, if the loop is still waiting
   * after it, the rest: once a command or a panic is reached, later events
   * are never read.
   */
  lemma {:induction false} ListenSplit(s: State, events: seq<InputEvent>, k: nat)
    requires Inv(s) && k <= |events|
    ensures var p := Listen(s, events[..k]);
      Listen(s, events) == if p.Pending? then Listen(p.state, events[k..]) else p
    decreases k
  {
    if k == 0 {
      assert events[..k] == [] && events[k..] == events;
    } else {
      assert events[..k][1..] == events[1..][..k - 1];
      assert events[1..][k - 1..] == events[k..];
      var t := Next(s, events[0]).0;
      if Next(s, events[0]).1.Quiet? {
        ListenSplit(t, events[1..], k - 1);
      }
    }
  }

  /**
   * listen_key on a stream whose key-down codes are in the table up to
   * position `k`: when the names up to there contain a start and a stop
   * "//", it returns what was typed between them, whatever follows; when
   * they do not, it is still waiting at `k`, with neither a command nor a
   * panic.
   */
  lemma ListenKeyMatchesReference(events: seq<InputEvent>, k: nat)
    requires k <= |events|
    requires forall i :: 0 <= i < k && IsKeyDown(events[i]) ==> events[i].code < MAX_KEYS
    ensures var r := Reference(KeysOf(events[..k]));
      r.Some? ==> Listen(Init, events) == Emitted(r.value)
    ensures Reference(KeysOf(events[..k])).None? ==> Listen(Init, events[..k]).Pending?
  {
    var prefix := events[..k];
    assert forall i :: 0 <= i < |prefix| ==> prefix[i] == events[i];
    ListenIsRunOnKeyDowns(Init, prefix);
    RunMatchesReference(KeysOf(prefix));
    ListenSplit(Init, events, k);
  }

  /**
   * A key-down past the table panics listen_key when no command was
   * returned before it and every earlier key-down was in the table.
   */
  lemma PanicIsFirstOutOfTable(events: seq<InputEvent>, k: nat)
    requires k < |events| && IsKeyDown(events[k]) && events[k].code >= MAX_KEYS
    requires forall i :: 0 <= i < k && IsKeyDown(events[i]) ==> events[i].code < MAX_KEYS
    requires Reference(KeysOf(events[..k])).None?
    ensures Listen(Init, events) == Panicked(events[k].code)
  {
    ListenKeyMatchesReference(events, k);
    ListenSplit(Init, events, k);
    assert events[k..][0] == events[k];
  }

  /**
   * A panic is the first key-down past the table: every key-down before it
   * is in the table, and the loop is still waiting just before it.
   */
  lemma {:induction false} PanicComesFromAnEvent(s: State, events: seq<InputEvent>)
    requires Inv(s)
    ensures Listen(s, events).Panicked? ==>
      exists k :: 0 <= k < |events| && IsKeyDown(events[k]) && events[k].code == Listen(s, events).code &&
        Listen(s, events[..k]).Pending? &&
        forall i :: 0 <= i < k && IsKeyDown(events[i]) ==> events[i].code < MAX_KEYS
    decreases |events|
  {
    if events != [] && Listen(s, events).Panicked? {
      var r := Listen(s, events);
      if Next(s, events[0]).1.OutOfBounds? {
        assert events[..0] == [];
        assert IsKeyDown(events[0]) && events[0].code == r.code;
      } else {
        var t := Next(s, events[0]).0;
        var rest := events[1..];
        PanicComesFromAnEvent(t, rest);
        var j :| 0 <= j < |rest| && IsKeyDown(rest[j]) && rest[j].code == r.code &&
          Listen(t, rest[..j]).Pending? &&
          forall i :: 0 <= i < j && IsKeyDown(rest[i]) ==> rest[i].code < MAX_KEYS;
        assert events[..j + 1][1..] == rest[..j];
        assert forall i :: 0 < i <= j ==> events[i] == rest[i - 1];
        assert rest[j] == events[j + 1];
      }
    }
  }

  /** Keys that begin with "hello//" have their first pair at position 5. */
  lemma FirstPairAfterHello(keys: seq<string>)
    requires |keys| >= 7 && keys[..7] == ["h", "e", "l", "l", "o", "/", "/"]
    ensures FirstPair(keys) == Some(5)
  {
    assert forall i :: 0 <= i < 7 ==> keys[i] == keys[..7][i];
    assert PairAt(keys, 5);
  }

  /** "hello//" typed from the initial variables only starts capture: the word is dropped. */
  lemma HelloStartsCapture()
    ensures Run(Init, ["h", "e", "l", "l", "o", "/", "/"]) == Pending(State("", "", true))
  {
    var marked := ["h", "e", "l", "l", "o", "/", "/"];
    assert SlashRun(Init) + marked == marked;
    assert marked[..7] == marked;
    FirstPairAfterHello(marked);
    IdleRun(Init, marked);
    assert marked[7..] == [];
  }

  /** Typing "hello" into an empty buffer leaves "hello". */
  lemma TypedHello()
    ensures Typed("", ["h", "e", "l", "l", "o"]) == "hello"
  {
  }

  /** "hello//" typed twice from the initial variables returns "hello". */
  lemma HelloTwice(keys: seq<string>)
    requires keys == ["h", "e", "l", "l", "o", "/", "/", "h", "e", "l", "l", "o", "/", "/"]
    ensures Run(Init, keys) == Emitted("hello")
  {
    var body := keys[7..];
    assert FirstPair(keys) == Some(5) by {
      FirstPairAfterHello(keys);
    }
    assert FirstPair(body) == Some(5) by {
      assert body[..7] == keys[7..];
      FirstPairAfterHello(body);
    }
    assert Typed("", body[..5]) == "hello" by {
      assert body[..5] == ["h", "e", "l", "l", "o"];
      TypedHello();
    }
    assert Reference(keys) == Some("hello");
    RunMatchesReference(keys);
  }
}
