# dshare: a verified model

dshare shares one machine's mouse, keyboard and clipboard with another over TCP. This project
models its hard core in Dafny and proves what that core keeps over every run:

- **The wire** (`Protocol`, `Utf8`, `Bincode`, `Wire`, `Codec`, `Connection`): the bincode 1.3 payload of every
  `Message`, written out byte by byte; the length-prefixed frame with its 16 MiB cap; the
  streaming decoder over a growing buffer; and one direction of a connection as a FIFO byte
  stream that is delivered in pieces of any size.
- **The sharing session** (`Handshake`, `Startup`, `Capture`, `Session`, `SessionResults`, `Routing`,
  `Client`): the Hello exchange; the hook callbacks with the hotkey and the bounded queue; the server loop that
  looks at the grab flag a second time before it forwards; the client that injects what it
  decodes. `Session` is a step system whose runs are all interleavings of hook callbacks,
  receives, flag tests, byte deliveries and decodes; a step that is not enabled does nothing.
- **Translation** (`Keycode`, `Keyboard`, `Inject`, `Traces`, `Sinks`): what a whole run of hook callbacks does
  to the receiving machine's pointer, wheel, keys and buttons, on Linux and on Windows.
- **Clipboard** (`Clipboard`): the polling watcher against `apply`, statement by statement, for an
  arbitrary hash function; and two connected peers.
- **Peer sessions and layout** (`PeerSession`, `Layout`): the two loops of `PeerSession` between
  bounded channels, and which screen a cursor enters, and where.

What the source does by changing things step by step is a class with methods or a loop here
(`Codec.Decode`, `Capture.HookThread`, `Inject.LinuxInject`, `Clipboard.SharedClipboard`,
`Client.InjectLoop`, `PeerSession.ReadLoop`, ...), each proved against a function of the old state;
the step systems and the lemmas use those same functions, so a change to either side breaks the
other. `Codec.Decode`, `Inject.LinuxInject.Handle` and `Capture.HookThread` are thereby the steps of
the runs in `SessionResults`.

Beside the results over runs, every operation is pinned to what other programs see of it: the wire
format byte by byte, the hook callbacks in the numbers of the Windows messages, the injected events
in the numbers of the kernel, the key tables by the rows of the keyboard.

Two conventions hold throughout. `i32` arithmetic wraps, as in the release profile, which does not
turn overflow checks on. Texts are byte sequences that satisfy the UTF-8 syntax of section 4 of
RFC 3629.

## What turned out not to hold

- `crates/dshare-clipboard/src/lib.rs:69` promises that `apply` does not retrigger a broadcast.
  It can: when the watcher holds or reads another text before the new one is in place, or when
  the write fails. `Clipboard.ApplyEchoes` gives the exact condition for every sequence of
  watcher statements between the two halves of `apply` and for failing writes; for all counts of
  changes and updates `Clipboard.EchoBoundAttained` is a run with the most emissions
  `Clipboard.EchoBound` allows.
- The repository's own README.md says that after the hotkey input is forwarded and swallowed
  locally. Swallowing and forwarding are decided at different times, and neither waits for the
  message to arrive. `Routing.ExactlyOnce` says of every captured event when it has reached exactly
  one of the local applications and the peer, which it has reached once the client has handled
  its message; `Routing.FateIsFinal`, that what is decided stays so. `Routing.MisroutingBound`
  splits the events that reach both or neither into five kinds: the flag changed between callback
  and test, at most 257 per hotkey press (attained, `Routing.MisroutingBoundAttained`); the channel
  refused a swallowed event (`Routing.RefusalsAreUnbounded`: no number of presses bounds these); a
  swallowed event was in the channel when the server loop ended, at most 256 (attained,
  `Routing.LeftBehindAttained`); a swallowed event was on the way to a client that left
  (`Routing.LossesAreUnbounded`: not bounded by presses either); and a swallowed event has no message.
- Layout entries carry an offset along their edge, which suggests several peers on one edge. The
  search takes the first whose edge is crossed and never looks at the extent, so a peer can be
  entered if and only if no earlier one is on its edge and its extent is one `clamp` accepts
  (`Layout.EnteredIfFirstOnItsEdge`); a peer whose extent along the edge is zero or above 2^31 makes
  the check panic (`Layout.FirstCrossedWins`); and an offset so far away that the subtraction wraps
  puts the cursor at the wrong end (`Layout.EntryIsNearest`).
- A move that leaves the range of `i32` is sent as its remainder modulo 2^32. Motion is conserved
  if and only if as many moves leave the range upward as downward (`SessionResults.Displacement`,
  with both cases shown in `SessionResults.WrappedMoves`).
- Two clipboards at rest need not agree (`Clipboard.PeersCanSwap`). They do if and only if neither
  holds a text, or both do and the last emissions of the two did not cross on the way, or hash
  alike (`Clipboard.PeersAgree`). If no peer emits while an update for it is under way, a text that
  was lost to an image, say, is all that can part them (`Clipboard.PeersConverge`).
- The comment in `crates/dshare-input/src/linux.rs:165-167` describes a treatment of `MouseWarp`
  that neither the injector nor `handle_peer` has: the message is ignored.

## Model

| member | source | states |
|---|---|---|
| Bincode.UintIsLittleEndian | crates/dshare-protocol/src/codec.rs:40 | Integers have a fixed width, and byte `i` of an encoded integer has weight 256^i. |
| Utf8.TextsAreEncodings | crates/dshare-protocol/src/lib.rs:18 | A byte sequence passes for a text exactly if it is the encoding of some sequence of Unicode scalar values: no surrogates, no overlong forms, nothing cut off. |
| Wire.WireFormat | crates/dshare-protocol/src/lib.rs:14-72 | The bytes of each of the twelve messages, written out without the encoder: the variant's position in the declaration as four bytes, then the fields in order, little-endian and two's complement, with length prefixes for texts, bytes and the Uuid, one byte for each bool and Option, and the buttons numbered from 0. |
| Bincode.MessageCanonical | crates/dshare-protocol/src/codec.rs:31 | Whatever the parser accepts is exactly the encoding of the message it returns followed by the bytes it left: every tag, length, bool and text is accepted in one form only. |
| Bincode.SerializeRoundTrip | crates/dshare-protocol/src/codec.rs:31-40 | Every message survives serialization and deserialization, whatever bytes follow it. |
| Bincode.CanonicalPayload | crates/dshare-protocol/src/codec.rs:31 | Re-serializing an accepted payload's message gives a prefix of that payload; trailing bytes are tolerated, nothing else. |
| Bincode.DeserializesExactly | crates/dshare-protocol/src/codec.rs:31 | A payload yields a message exactly if it begins with that message's encoding. |
| Bincode.PrefixFree | crates/dshare-protocol/src/lib.rs:14-72 | No message's encoding is a prefix of another's, so serialization is injective and self-delimiting. |
| Codec.LengthRoundTrip | crates/dshare-protocol/src/codec.rs:21 | The header is big-endian, and reading it back gives the length. |
| Codec.OverlongHeader | crates/dshare-protocol/src/codec.rs:21-24 | A header that announces more than 16777216 bytes is rejected at once with its size, whatever has arrived behind it, and nothing is consumed. |
| Codec.IncompleteFrame | crates/dshare-protocol/src/codec.rs:25-28 | A frame within the cap is waited for as long as any of it is missing. |
| Codec.CompleteFrame | crates/dshare-protocol/src/codec.rs:29-32 | A complete frame is consumed whole; it yields its payload's message, or an error that leaves exactly the bytes behind the frame. |
| Codec.HeaderIsLength | crates/dshare-protocol/src/codec.rs:18-21 | Every buffer of at least four bytes is the header of some length and what follows it, so the three laws above cover every buffer. |
| Codec.EncodableIffDecodable | crates/dshare-protocol/src/codec.rs:22-43 | The two ends agree on the cap: the encoder accepts a message if and only if the decoder takes its frame. |
| Codec.Decode | crates/dshare-protocol/src/codec.rs:17-33 | One call returns and leaves in the buffer what the decoding step prescribes, including which bytes an error consumes; an overlong header is an error on the spot; for an incomplete frame it makes room for exactly that frame; whatever length the peer announces, the memory asked for stays within one maximal frame. |
| Codec.EncodeTo | crates/dshare-protocol/src/codec.rs:39-48 | Appends exactly one frame and makes room for it; a message over the cap is rejected with its size and the buffer is unchanged. |
| Codec.FrameReader.Receive | crates/dshare-protocol/src/codec.rs:17-33 | The decode-until-None loop computes the drained prefix; between chunks fewer than 4 + 16 MiB bytes stay buffered, and memory asked for never exceeds one maximal frame. |
| Codec.StepStable | crates/dshare-protocol/src/codec.rs:17-33 | More input never changes a message or an error that was already decided, only what is left behind it. |
| Codec.FrameDecodes | crates/dshare-protocol/src/codec.rs:17-48 | A frame followed by any bytes decodes to its message and leaves those bytes. |
| Codec.DrainAppend | crates/dshare-protocol/src/codec.rs:17-33 | Draining a concatenation is draining the first part and going on with its leftover, or stopping at its error. |
| Codec.ChunkingIndependence | crates/dshare-core/src/session.rs:22-41 | For every stream and every split into chunks, the incremental reader yields the messages, the first error and (without one) the leftover of a single pass over the whole. |
| Codec.StopsHere | crates/dshare-core/src/session.rs:31-38 | Nothing that arrives after the first error changes what was read. |
| Codec.StreamRoundTrip | crates/dshare-protocol/src/codec.rs:17-48 | For every list of messages within the cap and every suffix, decoding their frames gives back that list and continues with exactly the suffix. |
| Codec.TruncatedStream | crates/dshare-protocol/src/codec.rs:18-28 | A stream of frames cut off anywhere decodes, without an error, to a prefix of its messages. |
| Codec.StepAccounts | crates/dshare-protocol/src/codec.rs:18-30 | An accepted frame strictly shrinks the buffer by exactly that frame, whose header announces its payload; asking for more means less than a maximal frame is buffered. |
| Codec.DrainAccounts | crates/dshare-protocol/src/codec.rs:18-30 | What was received is one well-formed frame per message, in order, followed by what is still buffered, with frames defined without reference to the decoder; no frame is shorter than its message's own. |
| Codec.Reencoding | crates/dshare-protocol/src/codec.rs:29-32 | Re-encoding an accepted message never grows its frame, always fits the cap, and decodes to the same message with the same bytes behind it. |
| Connection.WriteInv | crates/dshare-core/src/session.rs:43-50 | Writing keeps the link faithful: the undelivered and undecoded bytes are exactly the encoding of the messages between sender and reader. |
| Connection.DeliverInv | crates/dshare-core/src/session.rs:22-23 | Moving any number of bytes keeps the link faithful and loses no message. |
| Connection.ReadInv | crates/dshare-core/src/session.rs:22-41 | A read either changes nothing or yields exactly the next message that was written; a faithful link never meets a decoding error. |
| Connection.DrainedLink | crates/dshare-core/src/session.rs:22-41 | Once all bytes are delivered and the reader wants more, every message written was read. |
| Handshake.ActInv | crates/dshare/src/main.rs:224-269 | Every action of one side keeps, for both sides, what each has sent, how far it has read and what its phase says about the other. |
| Handshake.RunInv | crates/dshare/src/main.rs:224-269 | That invariant holds in every state of every interleaving of the two sides, with timeouts, disconnects and failed sends anywhere. |
| Handshake.Agreement | crates/dshare/src/main.rs:240-269 | A side reaches its role loop only if the versions are equal, and then the other has not rejected; with different versions only Hellos and refusals are ever sent; the "expected Hello" failure is unreachable. |
| Handshake.ServerStream | crates/dshare/src/main.rs:238-300 | What a server in its loop has sent is its Hello, its acceptance and then exactly what its loop forwarded; before it is in its loop it has forwarded nothing. |
| Handshake.Progress | crates/dshare/src/main.rs:224-269 | No deadlock: without a timeout, disconnect or failed send, some side can take an exchange step until both are through. |
| Handshake.ExchangeEnds | crates/dshare/src/main.rs:224-269 | In every run at most six steps belong to the exchange, and what is still to come is bounded by the rank of the state. |
| Handshake.Outcome | crates/dshare/src/main.rs:240-269 | A failure-free exchange that can go no further ended with both sides ready if the versions are equal and with both rejected if not. |
| Handshake.DecimalIsNotation | crates/dshare/src/main.rs:254-257 | Versions are written in ordinary decimal notation: digits that stand for the number, without leading zeros. |
| Handshake.RefusalNamesBoth | crates/dshare/src/main.rs:250-260 | In every run a refusal says "version mismatch" with the refused side's version first and the refusing side's second. |
| Handshake.FirstMessageDecides | crates/dshare/src/main.rs:240-269 | Whoever the peer is, its first message decides: a Hello leads to readiness and an acceptance if the versions are equal and to rejection and a refusal if not; anything else ends the exchange. |
| Handshake.FailuresCanHappen | crates/dshare/src/main.rs:238-269 | Every wait can end in the timeout or a disconnect and every send in a failure; a refusal that cannot be sent still rejects. |
| Handshake.RoleLoops | crates/dshare/src/main.rs:277-335 | Only a ready server forwards, any message; either ready side takes whatever has arrived. |
| Startup.SessionStarts | crates/dshare/src/main.rs:238-300 | A server that has finished its half of the handshake with a client of the program's version is in the session's initial state: its Hello is a good one, and its stream is that of the session's link followed by what its loop forwarded. |
| Startup.ClientStarts | crates/dshare/src/main.rs:240-266 | The session's client starts to inject on exactly the first messages that make the handshake's client ready, gives up on all others, and injects none of them. |
| Capture.Channel.TrySend | crates/dshare-input/src/windows.rs:214-220 | The bounded channel takes a message exactly when it is open and not full, and is otherwise unchanged. |
| Capture.MouseCallback | crates/dshare-input/src/windows.rs:160-233 | In the numbers of the Windows messages: which mouse events are sent and as what, moves as the distance modulo 2^32 on each axis, buttons by their place in the numbering, the wheel as whole notches with nothing sideways; only a move changes the position, no mouse event the flag. |
| Capture.KeyboardCallback | crates/dshare-input/src/windows.rs:236-292 | The flag changes exactly on a press of 0x47 with Shift, Ctrl and Alt down, which is swallowed and never sent; every other press or release of a mapped key is sent with its code and the modifiers at that moment. |
| Capture.WheelIsSigned | crates/dshare-input/src/windows.rs:205 | The wheel delta is the high word as a signed number, for every delta and every low word. |
| Capture.HookThread.MouseHookProc | crates/dshare-input/src/windows.rs:160-233 | The callback's whole effect: verdict, flag, last position and channel are those of the hook step in the session; it never changes the flag, and a wheel event is queued as vertical notches only. |
| Capture.HookThread.KbdHookProc | crates/dshare-input/src/windows.rs:238-292 | The same for the keyboard; in numbers, the flag flips exactly on Ctrl+Alt+Shift+G, which is swallowed and not queued. |
| Session.HookIsCallback | crates/dshare-input/src/windows.rs:160-292 | A hook step of the session leaves the flag, the last position and the channel exactly as the callbacks of the hook thread do, and swallows the same events. |
| Session.AnythingCanHappen | crates/dshare/src/main.rs:277-335 | Nothing outside the two programs is held back: callbacks at any time, any number of bytes, the client leaving, the loop ending between two messages, the channel open until after that. |
| Capture.CapturedFits | crates/dshare-input/src/windows.rs:170-211 | No captured message can be rejected by the encoder. |
| Capture.NotchError | crates/dshare-input/src/windows.rs:203-210 | The notches are the delta truncated toward zero: off by at most 119, never beyond it, exact for whole notches only. |
| Session.QueueStep | crates/dshare/src/main.rs:279-310 | Every step keeps: what the channel took is, in order, what was tested, what is in hand and what is queued, and the queue holds at most 256. |
| Session.FlagStep | crates/dshare-input/src/windows.rs:251-291 | Every step keeps: the flag, and each verdict of hook and drain, is the parity of the hotkey presses at that moment. |
| Session.LinkStep | crates/dshare/src/main.rs:289-335 | Every step keeps: the wire carries the Hello, the acceptance and the forwarded messages, and the client has handled exactly what it decoded after the Hello; only a timeout, failed acknowledgement or lost connection makes it leave, never a message. |
| Session.MisroutedAfterTest | crates/dshare/src/main.rs:291-300 | A test turns a stale message into a misrouted one and leaves the sum of both unchanged. |
| Session.MisroutedStep | crates/dshare/src/main.rs:291-300 | Every step keeps: tested events that went to both machines or neither, plus stale ones in flight, are at most 257 per toggle. |
| Session.CapturedDelta | crates/dshare-input/src/windows.rs:171-178 | The deltas sent for a move are the distances moved on both axes if and only if neither difference leaves `i32`; otherwise they are off by exactly 2^32, downward or upward. |
| Session.MotionStep | crates/dshare-input/src/windows.rs:171-178 | Every step keeps: all captured deltas, plus 2^32 for each move that wrapped, signed, add up to the cursor's path. |
| SessionResults.RunInv | crates/dshare/src/main.rs:277-335 | All session invariants hold in every state of every run. |
| SessionResults.EndToEndPrefix | crates/dshare/src/main.rs:262-335 | In every reachable state, under every interleaving, cutting of the stream and departure, the client has handled a prefix of the acceptance followed by the forwarded messages; those are captured messages in capture order; no decoding error occurs, and the client is gone only if it timed out, failed to acknowledge or lost the connection. |
| SessionResults.EndToEndComplete | crates/dshare/src/main.rs:289-335 | Once queue, hand, wire and receive buffer are used up, the client has handled every forwarded message and every message the channel took was tested; a client that left early leaves bytes behind. |
| SessionResults.CanComplete | crates/dshare/src/main.rs:277-335 | From every reachable state whose client has not left and whose server loop has not ended with messages in the channel, some continuation uses everything up, so completeness is always within reach. |
| SessionResults.FlagIsParity | crates/dshare-input/src/windows.rs:251-262 | In every run the grab flag is set if and only if the number of hotkey presses is odd. |
| Routing.ExactlyOnce | crates/dshare/src/main.rs:289-334 | When a captured event has reached exactly one of the local applications and the peer, whose client must have handled it: refused by the channel, in flight or on the way, if and only if it was not swallowed; discarded by the server or handled by the client, if and only if an even number of toggles, for instance none, lies between callback and test. |
| Routing.ArrivalIsExact | crates/dshare/src/main.rs:327-334 | The forwarded events the client has handled are exactly the first ones, as many as the messages it has handled without the acknowledgement. |
| Routing.FateIsFinal | crates/dshare/src/main.rs:277-335 | Once a captured event is neither in flight in a running server nor on the way to a client that is there, no continuation of the run changes which machines it has reached. |
| SessionResults.EveryEventAccounted | crates/dshare-input/src/windows.rs:214-220 | Every captured message was dropped at the channel, tested, or is in flight; never two of these, in capture order, at most 257 in flight. |
| Routing.MisroutingBound | crates/dshare/src/main.rs:277-335 | In every run the events that have reached both machines or neither, for good, are those toggled between callback and test, at most 257 per hotkey press; those swallowed and refused by the channel; those swallowed and in the channel when the loop ended, at most 256; those swallowed and on the way to a client that left; and those swallowed without a message, which change nothing the peer sees. Without a hotkey press there are none. |
| Routing.MisroutingBoundAttained | crates/dshare/src/main.rs:277-335 | For every number of hotkey presses there is a completed run in which exactly 257 toggled events per press have reached both machines or neither. |
| Routing.RefusalsAreUnbounded | crates/dshare-input/src/windows.rs:214-232 | With one hotkey press any number of swallowed events can be refused by the full channel, so no bound in presses covers them. |
| Routing.LeftBehindAttained | crates/dshare/src/main.rs:289-339 | In some run the server loop ends with 256 swallowed events in the channel. |
| Routing.LossesAreUnbounded | crates/dshare/src/main.rs:289-300 | With one hotkey press any number of swallowed events can be forwarded to a client that has left, none of them toggled. |
| SessionResults.Displacement | crates/dshare-input/src/windows.rs:171-178 | In every run the motion written to the client's device plus that on the wire, in hand, queued, discarded and dropped is the cursor's last position minus its first, less 2^32 for each net upward wrap; it is that path exactly if and only if the wraps cancel. |
| SessionResults.WrappedMoves | crates/dshare-input/src/windows.rs:174-177 | One move across the whole range breaks conservation by 2^32, and the way back restores it. |
| SessionResults.HandledIsArrived | crates/dshare/src/main.rs:327-334 | In every state the handled messages are the acceptance and those of the first so many forwarded events, all of them once nothing is under way. |
| SessionResults.SessionKeys | crates/dshare-input/src/linux.rs:124-164 | In every state of every session the key, button and wheel events the client's device was given are those of the forwarded events that have arrived, translated and in order; apart from those and motion it was given nothing; and it holds exactly the images of the mapped keys those events leave held. |
| Client.HandleDecoded | crates/dshare/src/main.rs:327-334 | The loop over what is buffered offers the device the events of every decoded message in order, loses those of the writes that fail, whichever they are, and stops at the first decoding error. |
| Client.InjectLoop | crates/dshare/src/main.rs:323-335 | Over any chunking and any schedule of failing writes, the device receives the events of the whole stream's messages whose writes succeed, and the loop ends with the stream's first decoding error, never with a write's. |
| Client.WrittenInFull | crates/dshare-input/src/linux.rs:171-173 | The device receives all events of a list of messages if and only if none of the writes they need fails. |
| Inject.LinuxInject.constructor | crates/dshare-input/src/linux.rs:72-82 | The two loops register exactly the codes 1 to 248 and 0x100 to 0x150. |
| Inject.LinuxInject.Handle | crates/dshare-input/src/linux.rs:105-175 | A message's events are written all together or, when this write fails, not at all; it fails exactly when there is something to write and the device fails this write. |
| Inject.LinuxInNumbers | crates/dshare-input/src/linux.rs:105-170 | The exact events of each message, in order, in the kernel's numbers; none for codes above 65535 and for messages that are not input. |
| Inject.LinuxValues | crates/dshare-input/src/linux.rs:124-164 | No relative event is empty; a key event has the value 1 if its message is a press and 0 if it is a release, never another. |
| Inject.WinInject.SendKey | crates/dshare-input/src/windows.rs:336-371 | The key sent is the one whose press the capture table reports under this code, with its extended and key-up flags; nothing is sent exactly when no key, or only a punctuation key, has this code. |
| Inject.WinInject.Handle | crates/dshare-input/src/windows.rs:416-444 | Exactly the records of the message are sent, none for the messages and buttons Windows does not support. |
| Inject.WindowsInNumbers | crates/dshare-input/src/windows.rs:416-444 | The exact records of each message: unused fields zero, the wheel as 120 times the notches modulo 2^32, keys told from the capture table, none for back, forward and keys without an inverse. |
| Inject.ExtendedKeys | crates/dshare-input/src/windows.rs:374-382 | Among the keys a Windows sink can name, exactly Enter and those with codes above 88, the right-hand modifiers, navigation and Windows keys, carry the extended flag. |
| Keycode.TablesAgree | crates/dshare-input/src/windows.rs:384-412 | Going to evdev and back gives the key itself, or nothing for exactly the eleven punctuation keys; every code is in the registered range. |
| Keycode.VkToEvdevInjective | crates/dshare-protocol/src/keycode.rs:9-116 | No two virtual keys share a code. |
| Keycode.InverseIsExact | crates/dshare-input/src/windows.rs:384-412 | The inject table is exactly the inverse of the capture table without the eleven punctuation keys, in both directions. |
| Keyboard.TablesAreKeyboard | crates/dshare-protocol/src/keycode.rs:9-116 | The capture table is exactly the PC keyboard, numbered row by row from left to right, with virtual keys of letters and digits being their ASCII codes; the inject table is the same without the punctuation keys. |
| Sinks.SinksMoveAlike | crates/dshare-input/src/linux.rs:108-123 | For every list of messages both kinds of sink move by exactly the sum of the deltas. |
| Sinks.CapturedIsOrdinary | crates/dshare-input/src/windows.rs:170-211 | A captured message gives the Linux device nothing but motion, turns of the vertical wheel, and presses and releases of registered keys and of the three buttons. |
| Sinks.SinksScrollAlike | crates/dshare-input/src/windows.rs:433-435 | For every run of callbacks a Linux sink scrolls the whole notches of each wheel event and never sideways, and a Windows sink the same in 120ths; the multiplication never overflows. |
| Sinks.WheelDrift | crates/dshare-input/src/windows.rs:203-210 | Over every run, 120 times the notches differs from the sum of the deltas by at most 119 per wheel event, and by nothing when all deltas are multiples of 120. |
| Sinks.KeysFollow | crates/dshare-input/src/windows.rs:264-275 | For every run a Linux sink sees exactly the source's presses and releases of mapped keys, translated, and a Windows sink exactly those of the keys the inverse table knows. |
| Sinks.HeldImage | crates/dshare-protocol/src/keycode.rs:9-116 | Translating a trace and then computing what is held is the same as computing what is held and translating it, for both tables; this rests on injectivity. |
| Sinks.HeldKeysFollow | crates/dshare-input/src/linux.rs:154-164 | After every run the Linux sink holds exactly the image of the source's held keys, the Windows sink exactly those of them with an inverse entry: never a key the source is not holding. |
| Sinks.ButtonsFollow | crates/dshare-input/src/windows.rs:179-202 | For every run both kinds of sink see exactly the source's button presses and releases, told from the numbering of the Windows messages and the Linux buttons. |
| Clipboard.UpdatesAreAccepted | crates/dshare-clipboard/src/lib.rs:58-78 | What one peer's watcher emits, the other peer's `apply` takes, unchanged. |
| Clipboard.UpdateInBytes | crates/dshare-clipboard/src/lib.rs:58-61 | An update is the whole text under the type text/plain;charset=utf-8, byte for byte. |
| Clipboard.TakenExactly | crates/dshare-clipboard/src/lib.rs:70-78 | A message is taken exactly if it is a clipboard update whose type begins with the five bytes of text/ and whose payload is UTF-8, and its payload is the text. |
| Clipboard.NotTaken | crates/dshare-clipboard/src/lib.rs:70-78 | Any other message changes neither the hash nor the clipboard. |
| Clipboard.AnythingCanHappen | crates/dshare-clipboard/src/lib.rs:39-86 | The clipboard can change at any time, reads, sends and writes can fail, updates can arrive at any time and be written in any order. |
| Clipboard.WatcherPreservesPotential | crates/dshare-clipboard/src/lib.rs:42-64 | Every statement of the watcher leaves emissions made plus emissions owed exactly as they were; only a send whose receiver is gone cancels what was owed. |
| Clipboard.OthersChangePotential | crates/dshare-clipboard/src/lib.rs:70-87 | A local change and each half of an `apply`, successful or not, raise it by at most one. |
| Clipboard.OwedIsEmitted | crates/dshare-clipboard/src/lib.rs:39-66 | The debt is real: left alone, the watcher emits exactly what it owes within two iterations and then is quiet. |
| Clipboard.EchoBound | crates/dshare-clipboard/src/lib.rs:39-87 | With read, compare, hash-set and write interleaved freely and failing freely, a peer emits at most one update, plus one per local change, plus two per applied remote update. |
| Clipboard.EchoBoundAttained | crates/dshare-clipboard/src/lib.rs:69-87 | For all counts of local changes and applied updates some run emits exactly one, plus one per change, plus two per update: the bound is exact everywhere. |
| Clipboard.ApplyEchoes | crates/dshare-clipboard/src/lib.rs:69-87 | With any statements of the watcher between its halves, and whether or not its write succeeds, `apply` adds no echo if and only if a text the watcher held hashes like the applied one and so does the old clipboard text in case the watcher reads in between or the write fails; the second half alone is settled for every state on the way. |
| Clipboard.WatchedBetween | crates/dshare-clipboard/src/lib.rs:41-57 | While the clipboard stays as it is, the watcher emits nothing new if and only if it neither holds nor reads a text with another hash. |
| Clipboard.SharedClipboard.PollOnce | crates/dshare-clipboard/src/lib.rs:41-65 | One locked iteration of the watcher is three watcher steps; it emits the text it read, and only when its hash is new. |
| Clipboard.SharedClipboard.Apply | crates/dshare-clipboard/src/lib.rs:70-87 | The method's whole effect is the two apply steps; other messages, other types and bad UTF-8 change nothing, and a failed write still changes the hash. |
| Clipboard.ApplyKeepsQuiet | crates/dshare-clipboard/src/lib.rs:79-86 | An uninterrupted `apply` leaves an idle watcher nothing to echo if and only if its write succeeds or the old text is absent or hashes alike. |
| Clipboard.PairQuiescence | crates/dshare-clipboard/src/lib.rs:36-87 | In every run of two connected peers each emits at most its own user's changes plus one, whatever it receives: no update circulates. |
| Clipboard.PeersAgree | crates/dshare-clipboard/src/lib.rs:36-87 | Two peers at rest agree if and only if neither clipboard holds a text, or both do and their last emissions did not cross, or hash alike. |
| Clipboard.PeersConverge | crates/dshare-clipboard/src/lib.rs:36-87 | If no peer emits while an update for it is under way, two peers at rest agree if and only if both hold a text or neither does. |
| Clipboard.PeersCanSwap | crates/dshare-clipboard/src/lib.rs:36-87 | Concurrent copies can end with the texts exchanged, nothing in transit and nothing owed. |
| PeerSession.StepKeepsInv | crates/dshare-core/src/session.rs:17-53 | Every step keeps both ends in order: sender side, link and receiver side together hold each accepted message once, or the writer's end keeps it. |
| PeerSession.BackPressure | crates/dshare-core/src/session.rs:20-49 | At most 256 messages wait for the writer, and a sender waits exactly while there are that many or for ever once the writer has ended; a reader waits while the application's channel is full. |
| PeerSession.AnythingCanHappen | crates/dshare-core/src/session.rs:22-50 | Any number of bytes can cross, either loop can be ended from outside at any time, and the application takes messages in order whenever it likes. |
| PeerSession.Fifo | crates/dshare-core/src/session.rs:17-53 | Whatever the chunking, the interleaving and the failures, the application receives a prefix of what the other side accepted. |
| PeerSession.Complete | crates/dshare-core/src/session.rs:17-53 | When neither loop can do anything more, the application has received exactly the accepted messages before the first one the encoder rejects; everything accepted, if and only if there is none. |
| PeerSession.WriteLoop | crates/dshare-core/src/session.rs:43-50 | The loop writes the frames of its messages in order up to the first that does not fit, and fails if and only if there is one. |
| PeerSession.ReadBuffered | crates/dshare-core/src/session.rs:23-40 | The loop hands on the decoded messages in order, as many as the receiver takes, and goes on exactly if there was no error and room for all. |
| PeerSession.ReadLoop | crates/dshare-core/src/session.rs:22-41 | Over any chunking, `inbound` gets the messages of the whole stream in order, up to the first error and to the receiver's room. |
| PeerSession.LoopsAgree | crates/dshare-core/src/session.rs:22-50 | Any chunking of what the write loop wrote is read as exactly the messages it wrote, with nothing left over; they are a prefix of its input. |
| PeerSession.SendablesPrefix | crates/dshare-core/src/session.rs:44-49 | The messages written are the longest prefix the encoder accepts: the next one, if any, does not fit. |
| Layout.FirstCrossedWins | crates/dshare-core/src/layout.rs:60-93 | The answer is decided by the first peer in list order whose edge is crossed, Stay if and only if there is none; it panics exactly when that peer's extent along the edge is zero or above 2^31. |
| Layout.CrossedIsBeyond | crates/dshare-core/src/layout.rs:68-86 | An edge is crossed exactly when the cursor is beyond every pixel of the server's screen on that side. |
| Layout.StayIsOnScreen | crates/dshare-core/src/layout.rs:60-93 | With a peer on every edge, the cursor stays exactly on the pixels of the server's screen. |
| Layout.SecondPeerOnAnEdgeIsUnreachable | crates/dshare-core/src/layout.rs:64-90 | A peer that follows another on the same edge is never entered. |
| Layout.EnteredIfFirstOnItsEdge | crates/dshare-core/src/layout.rs:60-93 | Some cursor enters a peer's screen if and only if no earlier peer is on the same edge and its extent along that edge is between 1 and 2^31. |
| Layout.EntryAcross | crates/dshare-core/src/layout.rs:65-84 | For peers of any size, the coordinate across the edge is the peer's first, or its last modulo 2^32, and the one along it lies within the peer. |
| Layout.EntryIsNearest | crates/dshare-core/src/layout.rs:68-86 | The entry point is on the peer's touching side, inside its screen; it is the nearest one to the cursor if and only if the distance to the offset fits in `i32` or there is only one point. |
| Layout.EntryMatchesPreview | crates/dshare-gui/src/lib.rs:194-211 | One pixel past an edge, beside the peer's screen, the entry point is the same point of the preview's plane as the cursor. |

## Left out

- Operating system calls: installing hooks and the message pump, `SendInput`, `MapVirtualKeyW`, `GetAsyncKeyState`, uinput. A callback's data is a parameter and the records sent or written are lists; a key is sent as its virtual key instead of the scan code Windows maps it to. How Windows moves the cursor when a move is swallowed is not modelled: positions are taken as reported.
- Hook callbacks before the hook thread has stored its sender and flag.
- Tokio, `Framed` and TCP: a connection is a FIFO byte stream delivered in arbitrary pieces, a channel is a bounded queue, a timeout or failure is a step that may happen. What `Framed` does with a partial frame at the end of the stream is not modelled.
- The Hello exchange and the server's `select!` loop are steps of state machines and not loops over a stream, because other tasks and the other machine act between their statements. `handle_peer` on the client is a loop (`Client.InjectLoop`) and also the Decode step of `Session`.
- A message whose send fails: `Session` hands it to the wire, from where it need not be delivered, and stops the server loop. It counts as forwarded and on the way until the client leaves, and then as lost.
- A client whose device refuses a write has handled the message all the same: `Routing` says which messages got to the injector.
- The client's own messages during a session, which the server reads and discards, and several server peers at once: one session is modelled.
- Memory ordering of the grab flag, which is taken to be sequentially consistent, and `set_grabbed`, which nothing calls during a session.
- `Client.InjectLoop` and `PeerSession.ReadLoop` take the chunks the stream arrives in as a parameter; `PeerSession.WriteLoop` takes the messages its channel yields.
- The kinds of bincode error, which are one constructor, and `ProtocolError::Io` and `VersionMismatch`, which the codec never returns.
- The debug build's panics on `i32` overflow, in `crates/dshare-core/src/layout.rs:70` and `crates/dshare-input/src/windows.rs:175`.
- `arboard` and the hash algorithm: the clipboard is a cell, the hash an arbitrary function of the text. That a written text reads back unchanged is assumed in the pair of peers only.
- `crates/dshare-input/src/linux.rs:51-56` (`LinuxCapture::run`), Ping and Pong, and the effect of `EnterScreen`, `LeaveScreen` and `MouseWarp`, none of which the program implements. The messages are part of the codec.
- `PeerScreen`'s identifier and name, which the edge check does not read; the preview's drawing, and its rounding: positions are exact reals instead of `f32`.
- Configuration files, the command line, logging, host name lookup, the settings window, and the input test commands: plumbing.
- SessionResults.Displacement: takes the client's device writes to succeed; with failing writes what the device receives is what `Client.InjectLoop` states.
- SessionResults.SessionKeys: assumes the same.
- Clipboard.PeersAgree: is about polls and applies that do not overlap and writes that succeed, like `Clipboard.PairQuiescence`.
- Layout.EnteredIfFirstOnItsEdge: assumes that the server's sizes are between 1 and 2^31 - 1, because a larger size is negative as `i32` and no longer describes an edge.
- Layout.EntryMatchesPreview: assumes that the server's and the peer's sizes are between 1 and 2^31 - 1, because a larger size is negative as `i32` and no longer describes an edge.
- Layout.EntryIsNearest: assumes the same of the entered peer's size.
