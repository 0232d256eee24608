# Keylogger capture machine

A model of the core of a small Rust keylogger. The program reads raw input
events from a Linux keyboard device, turns each key-down into a key name
through a fixed 112-slot scancode table, and collects a command. Capture
starts after the user types "//" and stops at the next "//". Meanwhile
Backspace deletes one character, single-character names are appended, and
bracketed names such as "<Enter>" are ignored.

Modules:

- `Keys` (keys.dfy) is the scancode table `KEY_NAMES`, with `MAX_KEYS` and the
  sentinel `UK`. Lemmas cover its size, where `UK`, "/", "<Backspace>" and " "
  sit, and the fact that every name is ASCII and either one character or a
  bracketed name of at least three.
- `Events` (events.dfy) is the 24-byte input record as `listen_key` reads it. It
  holds the field layout of `InputEvent` on a 64-bit little-endian host,
  decoding and encoding, and both round trips.
- `Capture` (capture.dfy) is the machine. `Feed` is one key name, `Next` one
  event, `Run` a sequence of names and `Listen` a sequence of events. The class
  `Capture` holds the three variables that `listen_key` mutates, and its `Step`
  method is one iteration of the loop, proved against `Next`. The method
  `ListenKey` is the loop, proved against `Listen`.
- `CaptureSteps` (capture_steps.dfy) states the rules of the machine one key at
  a time.
- `CaptureReference` (capture_reference.dfy) gives an independent definition of
  the returned command, `Reference`. It says: capture starts at the first pair
  of consecutive "/" names and stops at the next pair, and the command is what
  the names typed in between leave in an empty buffer. The lemmas prove that
  the loop returns exactly `Reference` for every sequence of events whose
  key-down codes are in the table up to the stop marker. Events after a
  returned command are never read. A code past the table before any command
  panics, and the panic is always the first such key-down.

The loop invariant `Capture.Inv` is what makes `truncate(final_len - 1)` safe.
It says the slash run is "" or "/", nothing is buffered before capture starts,
and while capturing a pending "/" is also the last character of the buffer.
Every step keeps it (the ensures of `Feed`, `Next` and `Capture.Step`).

## Model

| member | source | states |
|---|---|---|
| Keys.Table | keylogger/src/keys.rs:6-32 | The table of `MAX_KEYS` slots. `Entry` writes one match case per slot, in the order of the source table, and `KEY_NAMES` is the sequence of those entries. |
| Keys.TableSize | keylogger/src/keys.rs:1-6 | The table has exactly MAX_KEYS = 112 slots. |
| Keys.UnknownSlots | keylogger/src/keys.rs:4-29 | A slot holds UK if and only if it is 0, 84-86, 89-95 or 101. |
| Keys.SlashOnlyAtKeySlash | keylogger/src/keys.rs:6-32 | "/" is the name of slot 53 (KEY_SLASH) and of no other slot. |
| Keys.BackspaceAndSpace | keylogger/src/keys.rs:6-32 | "<Backspace>" is only in slot 14 and " " only in slot 57. |
| Keys.NamesWellFormed | keylogger/src/keys.rs:6-32 | Every name is ASCII, and it is one character exactly when it is not a bracketed name of length >= 3. This is the partition the "< 2" test relies on, and character counts equal byte offsets for `truncate`. |
| Events.Decode | keylogger/src/main.rs:63 | The reading of one 24-byte record as an `InputEvent`. Type and code are little-endian. A record is a key-down exactly when its type bytes are 1, 0 and its value bytes are 1, 0, 0, 0. |
| Events.DecodeEncode | keylogger/src/main.rs:124-131 | Decoding the 24 bytes written for an event gives back that event (tv_sec, tv_usec, type, code, value at offsets 0, 8, 16, 18, 20). |
| Events.EncodeDecode | keylogger/src/main.rs:124-131 | Every 24-byte record is the encoding of the event it decodes to, so the decoding loses nothing. |
| Capture.DropLast | keylogger/src/main.rs:89-92 | Removes the last character of a non-empty buffer and leaves an empty one as it is. |
| Capture.Edit | keylogger/src/main.rs:86-95 | While capturing, Backspace removes at most the last character. Any other key leaves the buffer as a prefix of the result and adds at most one character. A bracketed name other than Backspace changes nothing. |
| Capture.Feed | keylogger/src/main.rs:69-98 | One key-down keeps the loop invariant. When a command is returned, the variables are back to their initial values. |
| Capture.Next | keylogger/src/main.rs:66-68 | One event keeps the loop invariant. |
| Capture.Run | keylogger/src/main.rs:55-101 | The loop fed with key names keeps the invariant while it waits, and never panics on names. |
| Capture.KeysOf | keylogger/src/main.rs:66-68 | The names of the key-down events, in order. There are none exactly when no event is a key-down. |
| Capture.Listen | keylogger/src/main.rs:55-101 | Running events keeps the invariant while pending. A panic names a code past the table. |
| Capture.Capture.constructor | keylogger/src/main.rs:49-52 | The three variables start empty, empty and false, which satisfies the invariant. |
| Capture.Capture.Step | keylogger/src/main.rs:55-101 | One loop iteration keeps the invariant. The new variables and the signal are those `Next` gives for the old variables and the event. |
| Capture.ListenKey | keylogger/src/main.rs:47-104 | The loop over the events returns `Listen(Init, events)`: the first command, the panic of an out-of-table code, or the variables it waits with. |
| CaptureSteps.InitSatisfiesInv | keylogger/src/main.rs:49-52 | The initial variables satisfy the invariant. |
| CaptureSteps.OnlyKeyDownsMatter | keylogger/src/main.rs:66-67 | Key-up, autorepeat and non-key events change nothing and return nothing. |
| CaptureSteps.CodePastTablePanics | keylogger/src/main.rs:68 | A key-down panics exactly when its code is MAX_KEYS or more, and leaves the variables unchanged. |
| CaptureSteps.NothingBufferedBeforeStart | keylogger/src/main.rs:82-96 | Before capture starts the buffer stays empty and nothing is returned. |
| CaptureSteps.StartsOnSecondSlash | keylogger/src/main.rs:69-76 | Capture starts exactly on a "/" after a "/", with an empty buffer and slash run. |
| CaptureSteps.OtherKeyResetsSlashRun | keylogger/src/main.rs:85-97 | A non-"/" key empties the slash run, keeps the started flag and returns nothing. |
| CaptureSteps.StopReturnsBufferWithoutSlash | keylogger/src/main.rs:77-80 | A command is returned exactly on the second "/" of a stop marker. It is the buffer minus its trailing "/", and the variables are reset. |
| CaptureSteps.BackspaceRemovesOne | keylogger/src/main.rs:87-92 | While capturing, Backspace removes the last character, or does nothing on an empty buffer. |
| CaptureSteps.ShortNamesAppend | keylogger/src/main.rs:93-95 | While capturing, a name shorter than two characters is appended and any longer name leaves the buffer alone. |
| CaptureSteps.NamedKeysIgnored | keylogger/src/main.rs:86-97 | No bracketed table name other than Backspace changes the buffer or returns anything. |
| CaptureSteps.CharacterKeysAppended | keylogger/src/main.rs:86-97 | While capturing, every one-character table name other than "/" is appended. |
| CaptureSteps.LoneSlashKept | keylogger/src/main.rs:82-97 | A single "/" followed by another character stays in the buffer. |
| CaptureReference.FirstPair | keylogger/src/main.rs:69-71 | Finds the first position of two consecutive "/" names, or reports that there is none. |
| CaptureReference.IdleRun | keylogger/src/main.rs:69-97 | Before capture starts, the loop stays idle until the first "//". From there it behaves as a freshly started capture on the remaining names. |
| CaptureReference.ActiveRun | keylogger/src/main.rs:69-97 | While capturing, the loop returns at the next "//", with what the names before it typed onto the buffer. |
| CaptureReference.CaptureFromStart | keylogger/src/main.rs:77-97 | A capture that has just started returns exactly when another "//" follows, with the text typed before it. |
| CaptureReference.RunMatchesReference | keylogger/src/main.rs:55-101 | From the initial variables, the loop returns a command exactly when `Reference` gives one, and the same command. |
| CaptureReference.KeysOfNames | keylogger/src/main.rs:66-68 | Every name the filter yields is the table entry of one of the key-down events. |
| CaptureReference.KeysOfAppend | keylogger/src/main.rs:66-68 | Filtering two streams in sequence gives the two name sequences in sequence. |
| CaptureReference.ListenIsRunOnKeyDowns | keylogger/src/main.rs:55-101 | On events whose key-down codes are in the table, the loop is the key loop on the names of the key-downs. |
| CaptureReference.ListenSplit | keylogger/src/main.rs:55-101 | Running events is running a prefix and then, only if the loop is still waiting, the rest. Events after a command or a panic are never read. |
| CaptureReference.ListenKeyMatchesReference | keylogger/src/main.rs:47-104 | Take a stream whose key-down codes are in the table up to position k. If the names up to k contain a start and a stop "//", `listen_key` returns what was typed between them, whatever follows. Otherwise it is still waiting at k, with no command and no panic. With k the whole stream, this is an if-and-only-if. |
| CaptureReference.PanicIsFirstOutOfTable | keylogger/src/main.rs:68 | A key-down past the table panics `listen_key` with its code when every earlier key-down is in the table and no command was returned before it. |
| CaptureReference.PanicComesFromAnEvent | keylogger/src/main.rs:68 | A panic comes from the first key-down past the table. Every earlier key-down is in the table, and the loop is still waiting just before it. |
| CaptureReference.HelloStartsCapture | keylogger/src/main.rs:69-76 | "hello//" from the initial variables only starts capture, and the word is dropped. |
| CaptureReference.HelloTwice | keylogger/src/main.rs:47-104 | The names of "hello//hello//" return "hello". |

## Left out

- `main` and `get_device_file` (keylogger/src/main.rs:16-43, 107-121) are left out. They open files, scan `/proc/bus/input/devices` with a regular expression and print, all of which is I/O.
- `device.read` is left out. The events arrive as a sequence. Read errors panic in the source and short reads are ignored there: a short read would leave stale bytes from the previous event in the 24-byte buffer, and this model does not capture that.
- `mem::transmute` is modelled as a field layout, not as reinterpretation of memory. The layout assumes a 64-bit little-endian host with `isize` fields of 8 bytes and no padding.
- The blocking wait is left out. A `Pending` outcome stands for the loop still waiting for more events.
- Capture.Feed: a returned command resets the variables to their initial values. The source returns from `listen_key` instead, and `main` calls it again with fresh variables. The model folds that into one machine.
- Capture.Capture.Step: the string methods `push_str` and `truncate` are modelled as sequence operations on a `string` field. Byte storage, and `truncate`'s panic on a non-character boundary, are not modelled. Every table name is ASCII (Keys.NamesWellFormed), so byte and character counts agree.
- Capture.Feed: the underflow of `final_len - 1` on an empty buffer is not modelled, because the invariant shows it cannot happen.
- keylogger/src/events.rs (calendar calls over the network), keylogger/src/notification.rs (printing) and keylogger/src/parser.rs (a stub around the wall clock) are left out. They are network I/O, output and clock reads. No date or time grammar exists in the source to model.
- Starting capture leaves the buffer as it is rather than clearing it. The model follows the code here. The buffer is provably empty at that point anyway (Capture.Inv).
- The code appends any name with fewer than two characters, not only one-character names. The model keeps "< 2". Since the table has no empty name (Keys.NamesWellFormed), both readings agree on every table entry.
