# Verification of the ezsp-spi radio bridge

A Dafny 4.11 model of the daemon that gives a host the Zigbee co-processor (NCP) of a Linksys
WHW03: the ASH-over-TCP bridge, the EZSP-SPI transaction engine under it, the EZSP version
negotiation, and two loops of the Zigbee application. `dafny verify dfyconfig.toml` checks it.

## How it is built

The layers stack the way the program does, each proved against a specification of the one below.

- `Bytes`, `Crc`, `CrcPowers`, `CrcOrder`: bytes and registers are bit-vectors; CRC-16/CCITT-FALSE, its
  loop, the order of its register, and what it detects.
- `Divisors`, `Whitening`: the whitening register, its period, its table and the mask.
- `Ash`: stuffing, the deframer as a decoder without a bound on its buffer, and the reader the smoke
  test uses.
- `Coprocessor`: the NCP as an SPI slave. It takes bytes while selected, answers after some idle
  bytes, and answers 0x02 to the next command if it was clocked past the terminator or released
  before it. What it answers is any function of everything it has heard, so a theorem for all
  firmware covers every NCP, adaptive ones included.
- `Spi`: the port as a class with chip select lines and a bus log; one framed transaction, one
  command with its re-send, and safety over all runs.
- `Ezsp`: the three frame layouts, one EZSP exchange, and the version negotiation.
- `BridgeModel`: the bridge as a state machine over values, with the unbounded deframer, the whole
  history of DATA frames in place of the ring, and a log of events. nHOST_INT is an arbitrary
  function of how often it was read.
- `Ring`, `Bridge`: the bridge as built, a class with the 280 byte buffer, the eight slots and the
  byte counters. Every method ends in the state the model says, through `Valid()`.
- `BridgeRuns`, `Provenance`, `Transparency`, `Callbacks`, `Recovery`, `Handshake`: what holds on every
  run of the event loop, read off the log of events and off what the co-processor heard.
- `Counterexamples`: runs on which a property fails. `Operation`: the class and the port, looped.
- `Zcl`, `Join`: the Read Attributes answer, and the join retry loop.

Time, sockets, GPIO and spidev calls are events or parameters; writes to the client succeed and
are kept in a field. A hardware reset is assumed to clear a pending abort report, and a command
answered with 0x02 counts as heard.

Where the code and its own text differ, the model follows the code. After SUB the comment at
package/ezsp-spi/src/bridge.c:370 says everything to the next FLAG is void, but later bytes are
buffered again; after an overflow the comment at package/ezsp-spi/src/bridge.c:405 says the FLAG
resynchronises, but buffering restarts at once. docs/DESIGN.md:23-25 says an overrun spoils every
following transaction; config.c says the following one, and the slave here does that. The warning
at package/ezsp-spi/src/bridge.c:469-471 and the comment at package/ezsp-spi/src/bridge.c:508 say
that without an interrupt line callbacks are polled on a timer; line 238 returns before any poll, so
they are never polled (`Provenance.NoHintNoPoll`).

Five properties are false as they stand, and are given with an input and their exact condition.

- A client that connects need not be served: when the client it replaces hangs up in the same turn,
  the newcomer is the one dropped. `Counterexamples.NewcomerDropped` is such a run;
  `Transparency.NewcomerSurvivesIff` says exactly when it survives.
- A NAK need not bring back what the client misses: there is no send window, and numbers are modulo 8.
  `Counterexamples.NakUnanswered` is such a run; `Recovery.NakRecovers` says exactly when it does.
- The version in force need not be one that client and co-processor exchanged: of the host frame's
  id the bridge looks at one byte (from version 8 on an id has two), and at none of the answer's id.
  `Counterexamples.UnagreedVersion` and `Counterexamples.AlienVersion` are runs on which that goes wrong;
  `BridgeRuns.AdoptedWithoutExchange` says for exactly which relays it does. The host's own
  negotiation does not look at the answer's id either (`Ezsp.NegotiationMisled`).
- A callback need not reach the client: a poll's answer is taken for noCallbacks by one byte of its
  id. `Counterexamples.CallbackLost` is such a run; `Transparency.PickedIffNoneMisjudged` says for
  exactly which answers forwarding is not what the client is owed.
- An answer to a Read Attributes that is sent need not be complete. It is, for all requests, if and
  only if the host name is at most 27 bytes (`Zcl.CompleteIffShortName`).

## Model

| member | source | states |
|---|---|---|
| `Transparency.BridgeTransparent` | tools/ash-smoketest.py:20-78 | Main result. Whatever went before, a client that connects, survives that turn, and sends CANCEL, RST and any list of EZSP payloads of 1 to 140 bytes under any DATA control bytes, with XON/XOFF inserted anywhere and the stream cut into reads at will, the first of them in the connecting turn or not, has exactly those payloads relayed in order. What its reader decodes and unmasks is a selection of the EZSP frames the co-processor got across since it connected, read off what the co-processor heard: those of 1 to 139 bytes, less polls whose id byte is 7 or missing. That is exactly what the client is owed, by the whole frame id, if and only if no answer to a poll is misjudged |
| `Transparency.UpstreamTransparent` | package/ezsp-spi/src/bridge.c:279-407 | Upstream, for a client that survives the turn it connects in and any frames of its own, ACKs, NAKs, further RSTs and junk control bytes among them: the relays are the unmasked payloads of its DATA frames of the right size after its first RST, in order |
| `Transparency.DownstreamTransparent` | package/ezsp-spi/src/bridge.c:114-131 | Downstream, in every reachable state with a client: the peer's reader turns the bytes written into the frames sent, and the first-time DATA payloads among them are that selection; with the same if-and-only-if |
| `Callbacks.TurnPushes` | docs/DESIGN.md:42-44 | After every turn, a silent one included, that leaves a client connected, ready and with a version, and with an interrupt line: the line was read, a callback polled at once if it was asserted, and so on until the line was released, a poll brought nothing, or 32 polls were made; nothing but polls and the DATA they brought is logged meanwhile. In a silent turn that starts where the turn did |
| `Callbacks.FramePushes` | package/ezsp-spi/src/bridge.c:348-351 | The same after each host frame that brought an answer, before the next frame is read |
| `Callbacks.TurnDrops` | package/ezsp-spi/src/bridge.c:557-572 | Without a new connection: the client is gone after a turn if and only if it hung up or its stream ended, and then that is all the turn does; with no client a turn does nothing |
| `Transparency.NewcomerSurvivesIff` | package/ezsp-spi/src/bridge.c:517-572 | For every state that agrees with its log and every outcome of the poll: a client that connects is still connected after that turn if and only if there was no client before it, or that one did not hang up and the read made in its place did not end the stream; otherwise it is dropped at once |
| `Counterexamples.NewcomerDropped` | package/ezsp-spi/src/bridge.c:557-560 | A run from the start of the loop on which the client just accepted is dropped for the one it replaced, and nothing it sends has any effect |
| `Transparency.PickedIffNoneMisjudged` | package/ezsp-spi/src/bridge.c:222-230 | For all lists of answers: what is forwarded is what is owed (1 to 139 bytes and, in answer to a poll, a full header and an id other than noCallbacks, the whole id read) if and only if none of them has id byte 7 while the rest of its id is not noCallbacks', and from version 8 on none is a four byte runt with another id byte |
| `Transparency.ForwardsIffDue` | package/ezsp-spi/src/bridge.c:222-230 | The same for one answer, byte by byte |
| `Counterexamples.CallbackLost` | package/ezsp-spi/src/bridge.c:226-228 | A run from the start of the loop on which callback 0x0107 of a version 9 co-processor is owed to the client and in none of the payloads the client can read |
| `Transparency.VerbatimOrNothing` | package/ezsp-spi/src/bridge.c:326-351 | The answer to a host frame: of 1 to 139 bytes one first-time DATA frame, right after the relay, carries every byte; of 140 to 255 bytes nothing is sent before the next poll; of an empty or missing one nothing is sent at all |
| `Transparency.PollVerbatimOrNothing` | package/ezsp-spi/src/bridge.c:242-253 | One look for a callback: a poll in the layout in force, and what is forwarded goes out whole as the very next event, or nothing does |
| `Transparency.FeedSettles` | package/ezsp-spi/src/bridge.c:354-407 | Over any bytes from any calm state: exactly the frames the deframer delivers are acted on, and both directions stay in step |
| `Transparency.HostFramesCarry` | tools/ash-smoketest.py:61-67 | RST followed by masked DATA frames carries the payloads it was made from, and every frame fits the deframer |
| `Transparency.PeerSeesFrames` | tools/ash-smoketest.py:29-46 | The bytes written since the connection are the encodings of the frames sent, and the smoke test's reader recovers those frames |
| `Provenance.RepliesSaid` | package/ezsp-spi/src/probe.c:42-70 | On every run, every relay in the log: the co-processor heard its frame right where the relays and resets logged before it end, once, or twice exactly after a reset notification; and a reply is logged if and only if the answer at that position was an EZSP frame, in time and not displaced by an abort report |
| `Provenance.RunAccounted` | package/ezsp-spi/src/bridge.c:153-180 | On every run the co-processor is exactly where the log leaves it: its initial history, then one reset for each reset logged and one command or two for each relay logged, in log order |
| `Provenance.AllSaidIsTaken` | docs/DESIGN.md:38-40 | On every run the replies logged are exactly the EZSP frames the co-processor got across, in order, read off what it heard alone: none invented, lost, repeated or out of place |
| `Provenance.AskExplained` | package/ezsp-spi/src/probe.c:55-67 | One exchange, from any state and with any co-processor: what is heard, what comes back and whether an abort is left pending, in terms of the co-processor's answers only |
| `Provenance.NoHintNoPoll` | package/ezsp-spi/src/bridge.c:238-239 | On every run without an interrupt line no callback is ever polled |
| `Provenance.PollsNumbered` | package/ezsp-spi/src/bridge.c:206-222 | On every run, each poll is read by the co-processor, in the layout in force, as command 0x06 without parameters, and the polls are numbered 0, 1, 2 and so on modulo 256 |
| `BridgeRuns.RunCalm` | package/ezsp-spi/src/bridge.c:452-578 | Every state any run of the event loop reaches agrees with its log, and every event in the log obeys the protocol rules given what came before it |
| `BridgeRuns.NothingBeforeRstack` | docs/DESIGN.md:46-49 | On every run, whatever is sent to a client is RSTACK or comes after an RSTACK to that same client |
| `Handshake.RstAnswered` | tools/ash-smoketest.py:53-57 | From any state of the deframer, the bytes 1A C0 38 BC 7E reset the co-processor, clear the session, and are answered with C1 02 0B 0A 52 7E and nothing else |
| `Handshake.NothingFor` | package/ezsp-spi/src/bridge.c:291-314 | ACKs, control frames other than RST and NAK, DATA before the handshake and DATA of a wrong size do nothing at all |
| `Handshake.OnlyAgainFor` | package/ezsp-spi/src/bridge.c:295-298 | A NAK does nothing but send frames of the history again |
| `Handshake.DataTaken` | package/ezsp-spi/src/bridge.c:310-326 | DATA is accepted, acknowledged with 128 plus the number after its own modulo 8, and relayed unmasked, in that order |
| `Handshake.FeedEncoded` | package/ezsp-spi/src/bridge.c:377-392 | The bytes of one frame, read by an idle deframer, are handled as that frame, once |
| `BridgeRuns.NoPollBeforeVersion` | docs/DESIGN.md:50-52 | On every run, a callback is polled only after a version was taken in this session, in the layout of the last one taken. That version was exchanged (a version command and a version answer by their whole frame ids) if and only if its relay is not mistaken, so always when the client sends no odd command and gets no odd answer |
| `BridgeRuns.NegotiationState` | package/ezsp-spi/src/bridge.c:335-346 | In every reachable state: not negotiated means version 4; negotiated means 4..13 and the last version taken since the last reset or connection, with the same if-and-only-if and the same condition |
| `BridgeRuns.AdoptedWithoutExchange` | package/ezsp-spi/src/bridge.c:335-346 | For every relay: a version exchanged is adopted, and one is adopted without an exchange exactly when the frame has id byte 0, the answer has 4..13 where a version stands, and the rest of the frame's id or the answer's id is not version()'s |
| `BridgeRuns.AllExchangedIff` | package/ezsp-spi/src/bridge.c:335-346 | For every log: all versions taken were exchanged if and only if no relay in it is mistaken |
| `BridgeRuns.VersionKept` | package/ezsp-spi/src/bridge.c:335-346 | Once taken a version stays in force, and every later relay uses its layout, until the session ends or the client sends another frame with id byte 0 |
| `Counterexamples.UnagreedVersion` | package/ezsp-spi/src/bridge.c:335-346 | A run from the start of the loop after which version 5 is in force though no version command was answered with 5: after the negotiation of version 9 the client sent command 0x0100, which the co-processor's own parser does not take for version() |
| `Counterexamples.AlienVersion` | package/ezsp-spi/src/bridge.c:335-346 | A run after which version 7 is in force, taken from an answer with frame id 0x58 |
| `BridgeRuns.FramesNumbered` | package/ezsp-spi/src/bridge.c:106-131 | On every run, a first-time DATA frame carries the count of DATA frames of its session modulo 8 and the number expected next; an ACK carries that number; a retransmission is an earlier frame with only bit 0x08 added; anything else is RSTACK |
| `BridgeRuns.NextIs` | package/ezsp-spi/src/bridge.c:321-322 | The number expected next is one after the last host frame accepted, modulo 8, or 0 when a reset or connection came later or there was none |
| `BridgeRuns.AckThenRelay` | package/ezsp-spi/src/bridge.c:319-326 | On every run, each accepted host frame is followed at once by one ACK with the number after its own, then by its relay, unmasked and whole |
| `BridgeRuns.AcceptedBringsAtMost33` | package/ezsp-spi/src/bridge.c:242-253 | One accepted frame brings at most 33 DATA frames: its reply and 32 callbacks |
| `BridgeRuns.RunNeverAborts` | package/ezsp-spi/src/config.c:11-20 | Against a co-processor that answers within the wait limit no run of the bridge, whatever its clients do, leaves an SPI transaction aborted |
| `BridgeRuns.TurnCalm` | package/ezsp-spi/src/bridge.c:517-574 | One turn of the loop, with a new client, a hang-up, an end of stream or bytes, keeps the invariant |
| `BridgeRuns.HandleCalm` | package/ezsp-spi/src/bridge.c:279-352 | Handling any checked frame keeps the invariant, a NAK or ACK before the handshake included |
| `BridgeRuns.RetransmitCalm` | package/ezsp-spi/src/bridge.c:135-150 | A NAK sends only earlier frames of the session, and none before the handshake |
| `Bridge.AshBridge.constructor` | package/ezsp-spi/src/bridge.c:459-467 | The bridge starts in the model's start state, with an empty ring and the whitening table filled |
| `Bridge.AshBridge.AshSend` | package/ezsp-spi/src/bridge.c:70-104 | Writes exactly the encoding of the frame to the client, or nothing when there is no client or the frame is over 140 bytes |
| `Bridge.AshBridge.AshSendAck` | package/ezsp-spi/src/bridge.c:106-111 | Sends the ACK for the number expected next |
| `Bridge.AshBridge.Store` | package/ezsp-spi/src/bridge.c:126-128 | Overwriting one of eight slots keeps the ring equal to what the whole history leaves in it |
| `Bridge.AshBridge.AshSendData` | package/ezsp-spi/src/bridge.c:114-131 | Numbers, masks, stores and sends a payload; one that does not fit is dropped with nothing changed |
| `Bridge.AshBridge.AshRetransmit` | package/ezsp-spi/src/bridge.c:133-150 | The wrap-around walk over the ring terminates and resends exactly the last min(d, history length) bodies of the unbounded history, in order |
| `Bridge.AshBridge.EzspRelay` | package/ezsp-spi/src/bridge.c:153-180 | Relays a frame of 1 to 145 bytes and returns at most 140 bytes of the frame that came back; other lengths change nothing |
| `Bridge.AshBridge.BuildPoll` | package/ezsp-spi/src/bridge.c:206-220 | Builds the same bytes as the host engine's empty callback command in the layout of the agreed version |
| `Bridge.AshBridge.EzspRelayCallback` | package/ezsp-spi/src/bridge.c:198-231 | One poll; replies with id byte 7 and replies that end before the frame id are not forwarded |
| `Bridge.AshBridge.DrainCallbacks` | package/ezsp-spi/src/bridge.c:233-254 | Polls only for a shaken and negotiated client with an interrupt line, while it is asserted, at most 32 times |
| `Bridge.AshBridge.BridgeReset` | package/ezsp-spi/src/bridge.c:256-276 | Resets the co-processor, empties ring and counters, sends RSTACK, then is ready and not negotiated |
| `Bridge.AshBridge.Sniff` | package/ezsp-spi/src/bridge.c:335-346 | Adopts a byte in 4..13 at the place of a version exactly when the host frame has id byte 0 at the id's place; the rest of the id and the answer's id are not looked at |
| `Bridge.AshBridge.TakeData` | package/ezsp-spi/src/bridge.c:310-352 | A DATA frame is acknowledged, relayed, its version adopted, its reply sent and callbacks drained, in that order |
| `Bridge.AshBridge.HandleFrame` | package/ezsp-spi/src/bridge.c:279-352 | The dispatch on the control byte does what the model's does for every frame |
| `Bridge.AshBridge.Checked` | package/ezsp-spi/src/bridge.c:378-383 | The check at a FLAG accepts exactly the buffers whose CRC matches, of at least three bytes |
| `Bridge.AshBridge.Push` | package/ezsp-spi/src/bridge.c:397-405 | A data byte on the 280 byte buffer is a data byte on the unbounded line; a full buffer is emptied |
| `Bridge.AshBridge.BridgeFeed` | package/ezsp-spi/src/bridge.c:354-407 | The in-place deframer does to the state what the unbounded stream decoder does, for any bytes from any state |
| `Bridge.AshBridge.DropClient` | package/ezsp-spi/src/bridge.c:409-421 | The client is gone and the deframer idle; nothing if there was none |
| `Bridge.AshBridge.AcceptClient` | package/ezsp-spi/src/bridge.c:522-547 | A new client replaces the old one with every session field cleared |
| `Bridge.AshBridge.LoopTurn` | package/ezsp-spi/src/bridge.c:480-575 | One turn of the event loop. What was polled for the client connected when the turn began is done to whoever is connected by then: a newcomer of the same turn is read from in its place, or dropped for its hang-up; unless it was dropped for a hang-up the turn ends with a look for callbacks |
| `Operation.RunBridge` | package/ezsp-spi/src/bridge.c:452-578 | The bridge as built, taken through any list of turns, ends in the state of the model's run; so its client reads exactly the frames sent, and a prompt co-processor is not left aborted |
| `Operation.UsePort` | package/ezsp-spi/src/probe.c:35-70 | The port as built, taken through any list of commands and resets, leaves the co-processor where the model does, never aborted if it is prompt |
| `Bridge.HeldGrows` | package/ezsp-spi/src/bridge.c:402-405 | The buffer after one more data byte: appended below 280, emptied at 280, which is the length modulo 281 |
| `Ring.RingAgrees` | package/ezsp-spi/src/bridge.c:135-150 | Walking the ring from the NAKed number yields exactly the last min(d, history length) bodies, d being how far the number lies behind modulo 8 |
| `Recovery.NakRecovers` | package/ezsp-spi/src/bridge.c:135-150 | On every run: when a client that holds the first m payloads of the session NAKs the next number, the retransmissions it reads carry exactly the payloads it misses if and only if it is at most 7 behind; a multiple of 8 behind it reads nothing |
| `Counterexamples.NakUnanswered` | package/ezsp-spi/src/bridge.c:135-150 | For every multiple of 8, a run after which a client that has missed that many replies gets none of them back |
| `Ring.SlotRecent` | package/ezsp-spi/src/bridge.c:126-128 | The last eight bodies are all still in their slots |
| `Ring.SlotEmpty` | package/ezsp-spi/src/bridge.c:142-144 | A slot whose number was never used is empty and will be skipped |
| `BridgeModel.CtrlFields` | package/ezsp-spi/src/bridge.c:106-122 | The control bytes built are recognised as DATA and ACK and give back their numbers |
| `BridgeModel.RetryFields` | package/ezsp-spi/src/bridge.c:147-148 | The retransmit bit changes neither number nor kind otherwise |
| `BridgeModel.CtrlNumbers` | package/ezsp-spi/src/bridge.c:106-148 | In numbers: 16 times the frame number plus the number expected, 128 plus it for an ACK, and 8 more for a retransmission |
| `BridgeModel.KindRanges` | package/ezsp-spi/src/bridge.c:286-301 | Which control bytes are RST, ACK, NAK, DATA, and none of these |
| `Ash.StuffFrame` | package/ezsp-spi/src/bridge.c:80-101 | The stuffing loop builds exactly the encoding in its 288 byte buffer |
| `Ash.LineReadOff` | package/ezsp-spi/src/bridge.c:361-400 | Where the deframer stands after any stream: the unescaped data bytes since the last FLAG, CANCEL or SUB, and whether the next byte is escaped |
| `Ash.HeldReadOff` | package/ezsp-spi/src/bridge.c:402-405 | With n data bytes since that boundary the buffer holds the last n mod 281 of them |
| `Ash.DeliveryReadOff` | package/ezsp-spi/src/bridge.c:377-392 | A byte delivers a frame exactly when it is a FLAG and those bytes are at least three with a matching CRC |
| `Ash.RunAppend` | package/ezsp-spi/src/bridge.c:354-358 | Reading a then b is reading a followed by b, state and frames alike |
| `Ash.FlowControlIgnored` | package/ezsp-spi/src/bridge.c:361-364 | XON and XOFF may stand anywhere, even inside an escape pair |
| `Ash.EncodeDelivers` | package/ezsp-spi/src/bridge.c:377-392 | An encoded frame of 1 to 278 bytes is delivered exactly once and leaves the deframer idle |
| `Ash.CancelResynchronises` | package/ezsp-spi/src/bridge.c:365-368 | After a CANCEL that holds from any state |
| `Ash.EncodeAllDelivers` | tools/ash-smoketest.py:20-27 | Any list of frames arrives as sent |
| `Ash.NoisyDelivers` | package/ezsp-spi/src/bridge.c:361-364 | Any list of frames arrives as sent with flow control bytes inserted anywhere |
| `Ash.StuffedIsClean` | package/ezsp-spi/src/bridge.c:87-99 | Stuffing at most doubles, and reserved values appear only as escape markers before an unreserved byte |
| `Ash.EncodedIsClean` | package/ezsp-spi/src/bridge.c:72-101 | A frame of at most 140 bytes takes at most 285 on the wire, ends with the one 7E, and holds no 11, 13, 18 or 1A; a 7D is followed by one of the six escaped values |
| `Ash.StuffedByte` | package/ezsp-spi/src/bridge.c:87-99 | Each byte as it is sent: the six reserved values as 7D and a literal second byte, any other as itself |
| `Ash.StepValues` | package/ezsp-spi/src/bridge.c:361-405 | What each byte value does to the deframer and to the peer's reader, and that only 7E delivers |
| `Ash.PeerReads` | tools/ash-smoketest.py:29-46 | The peer's reader, which knows no SUB and no bound, recovers any list of encoded frames |
| `Ash.PeerAgrees` | tools/ash-smoketest.py:36-46 | Without SUB and FLAG the two readers move together |
| `Whitening.RandInit` | package/ezsp-spi/src/bridge.c:20-29 | The table starts 42 21 A8 54 2A, each entry follows from the one before bit by bit, the first 255 are pairwise distinct, and the last equals the first |
| `Whitening.MaskInto` | package/ezsp-spi/src/bridge.c:122-124 | The body is the control byte and the payload, each byte combined with the table's entry of its index |
| `Whitening.Unmask` | package/ezsp-spi/src/bridge.c:316-317 | Unmasking combines each byte with the same entry again |
| `Whitening.MaskInvolution` | tools/ash-smoketest.py:48-48 | Masking twice gives the payload back |
| `Whitening.MaskOfZeros` | tools/ash-smoketest.py:6-10 | Masking zeros shows the start of the table every peer has |
| `Whitening.Period` | package/ezsp-spi/src/bridge.c:22-28 | The register is not back at its start after any number of steps from 1 to 254 |
| `Whitening.RandNonzero` | package/ezsp-spi/src/bridge.c:22-28 | The register never reaches zero, so every payload byte is changed |
| `Crc.AshCrc` | package/ezsp-spi/src/bridge.c:32-47 | The two nested loops compute the CRC of the byte string |
| `Crc.CheckValue` | package/ezsp-spi/src/bridge.c:31-31 | Over the digits 1 to 9 it is 29B1, the check value of CRC-16/CCITT-FALSE |
| `Crc.IntactIffZero` | package/ezsp-spi/src/bridge.c:378-383 | For every length: the check bytes match iff the CRC over body and check bytes is zero |
| `Crc.SealIntact` | package/ezsp-spi/src/bridge.c:80-85 | A body with its CRC appended high byte first passes the check and gives the body back |
| `Crc.AdjacentChangeRejected` | package/ezsp-spi/src/bridge.c:378-388 | For every length: a change confined to one byte or two adjacent bytes, across the body and CRC boundary included, is rejected |
| `Crc.BurstRejected` | package/ezsp-spi/src/bridge.c:378-388 | For every length: a change confined to any 16 consecutive bits, byte aligned or not, is rejected |
| `Crc.OddChangeRejected` | package/ezsp-spi/src/bridge.c:378-388 | For every length: any odd number of flipped bits anywhere is rejected |
| `CrcOrder.TwoFlipsRejected` | package/ezsp-spi/src/bridge.c:378-388 | For every length up to 4095 bytes: any two flipped bits are rejected |
| `CrcOrder.FewFlipsRejected` | package/ezsp-spi/src/bridge.c:378-388 | For every length up to 4095 bytes, so for any the 280 byte buffer holds: any one, two or three flipped bits are rejected |
| `CrcOrder.Order` | package/ezsp-spi/src/bridge.c:40-43 | The bit step from 1 is not back at 1 after any number of steps from 1 to 32766 |
| `CrcOrder.BackAtOne` | package/ezsp-spi/src/bridge.c:40-43 | and it is after 32767 |
| `Crc.PairInjective` | package/ezsp-spi/src/bridge.c:38-44 | From any register two bytes can be told from any other two |
| `Crc.ResidueOfPair` | package/ezsp-spi/src/bridge.c:379-383 | A register is cleared by exactly one pair of bytes, its own halves |
| `Crc.ShiftBitsLinear` | package/ezsp-spi/src/bridge.c:40-43 | The bit step is linear over exclusive or, for any number of steps |
| `Crc.ShiftBitsInjective` | package/ezsp-spi/src/bridge.c:40-43 | and loses nothing |
| `Spi.NeverAborted` | package/ezsp-spi/src/probe.c:35-70 | No run of commands and resets, re-sends included, leaves a prompt co-processor aborted, and the next command of any run gets its own answer, complete |
| `Spi.ExchangeSafe` | package/ezsp-spi/src/probe.c:55-67 | One command with its possible re-send does the same |
| `Spi.AbortIsReportedNext` | package/ezsp-spi/src/config.c:17-20 | A bad end costs the next transaction, which reports 0x02, and only that one |
| `Spi.TransactExact` | package/ezsp-spi/src/spi.c:95-119 | In time and with room, the reply arrives verbatim from index 0 to its terminator |
| `Spi.SpiPort.TxnFramed` | package/ezsp-spi/src/spi.c:58-135 | A whole transaction under either chip select: what is received and how it leaves the co-processor, aborted exactly when the answer starts too late or does not fit; one edge down, every byte inside, one edge up; exactly idle bytes plus reply are clocked after the command; nSSEL_INT ends up released unless a kernel chip select timed out |
| `Spi.SpiPort.WaitStates` | package/ezsp-spi/src/spi.c:77-82 | Clocks idle bytes up to the first byte of the answer, or exactly the limit |
| `Spi.SpiPort.FetchHead` | package/ezsp-spi/src/spi.c:95-110 | From the first byte or two, how many bytes are left |
| `Spi.SpiPort.FetchReply` | package/ezsp-spi/src/spi.c:97-122 | Fetches exactly those, dropping a kernel-driven chip select with the last |
| `Spi.SpiPort.GiveUp` | package/ezsp-spi/src/spi.c:84-92 | A timeout lets go of the bus and leaves the co-processor aborted |
| `Spi.SpiPort.Raw` | package/ezsp-spi/src/spi.c:30-45 | One transfer: the kernel asserts chip select if need be and drops it unless told to keep it |
| `Spi.SpiPort.CsAssert` | package/ezsp-spi/src/spi.c:226-232 | nSSEL and nSSEL_INT go down together |
| `Spi.SpiPort.CsRelease` | package/ezsp-spi/src/spi.c:234-240 | and come up together |
| `Spi.SpiPort.DoCmd` | package/ezsp-spi/src/probe.c:42-70 | A command, re-sent once on the reset notification, with the class of what is left in the buffer |
| `Spi.SpiPort.NcpReset` | package/ezsp-spi/src/board.c:138-168 | A hardware reset clears whatever was pending |
| `Spi.SpiFirstResponse` | package/ezsp-spi/src/spi.c:143-152 | The scan finds the first byte that is not idle, 0x00 counting as a response |
| `Spi.FirstResponse` | package/ezsp-spi/src/spi.c:137-152 | The index is of a non-idle byte with only idle bytes before it, or there is none |
| `Spi.ClassOfReply` | package/ezsp-spi/src/probe.c:21-32 | The class tells frame, reset notification, error and the rest apart, and is never idle for a reply |
| `Spi.DescribesItself` | package/ezsp-spi/src/spi.c:97-110 | Every reply's length follows from its first byte or two |
| `Coprocessor.ListensToCommand` | package/ezsp-spi/src/spi.c:74-75 | A well-formed command clocked in one transfer is heard as that command |
| `Coprocessor.AnswersInOrder` | package/ezsp-spi/src/config.c:11-20 | While it is selected its answer comes out byte by byte |
| `Coprocessor.WireFormat` | package/ezsp-spi/src/spi.c:97-110 | The bytes of a frame reply, an error reply and a single-byte reply, ending with A7 |
| `Coprocessor.OverrunSpoils` | package/ezsp-spi/src/config.c:11-20 | One byte clocked past the terminator while selected spoils the transaction; letting go on it does not |
| `Coprocessor.EarlyReleaseSpoils` | package/ezsp-spi/src/config.c:11-20 | Letting go before it, or inside a command, spoils it too |
| `Coprocessor.SpoiledIsReported` | package/ezsp-spi/src/config.c:17-20 | The next command is then answered 02 00 A7 |
| `Ezsp.HostFrameParses` | package/ezsp-spi/src/ezsp.c:62-102 | In each of the three layouts the co-processor recovers sequence, id and parameters |
| `Ezsp.SmokeTestFrames` | tools/ash-smoketest.py:80-91 | The frames the smoke test sends, byte for byte, in each layout |
| `Ezsp.WrapFormat` | package/ezsp-spi/src/bridge.c:164-168 | The SPI command is FE, the length, the frame and A7 |
| `Ezsp.NextCounts` | package/ezsp-spi/src/ezsp.c:82-82 | Sequence numbers go up by one modulo 256 |
| `Ezsp.NamedFrames` | package/ezsp-spi/src/ezsp.c:62-102 | A frame built for an id is named by its whole id, and a frame the co-processor takes for a command is named so |
| `Ezsp.OpenInverts` | package/ezsp-spi/src/ezsp.c:113-124 | In each layout the host recovers id and payload of a reply, up to the caller's room |
| `Ezsp.EzspHost.Xfer` | package/ezsp-spi/src/ezsp.c:48-125 | One command: the frame sent, the reply taken apart, the sequence number advanced |
| `Ezsp.Build` | package/ezsp-spi/src/ezsp.c:80-102 | The 160 byte command buffer holds exactly the wrapped frame in the version's layout |
| `Ezsp.Converse` | package/ezsp-spi/src/ezsp.c:104-118 | One command through the 260 byte buffer: a frame came back iff the class says so, and it stands at index 2 with its length at 1 |
| `Ezsp.ReadReply` | package/ezsp-spi/src/ezsp.c:113-124 | Reads id and payload at the fixed offsets, or fails on a frame shorter than its header |
| `Ezsp.FixedOffsets` | package/ezsp-spi/src/bridge.c:170-179 | The class byte is at 0, the length at 1 and the frame from 2 on, because nothing idle comes first |
| `Ezsp.AskVerbatim` | package/ezsp-spi/src/bridge.c:170-179 | From a prompt co-processor the frame handed up is exactly the one it sent |
| `Ezsp.AskHonest` | package/ezsp-spi/src/probe.c:55-67 | The command is heard once, or twice after a reset notification, and a frame handed up answers the last of them |
| `Ezsp.EzspHost.PollCallback` | package/ezsp-spi/src/ezsp.c:838-848 | One poll: the id byte of the callback; 0 exactly when no frame came back or its id byte is 7 or 0 |
| `Ezsp.EzspHost.Init` | package/ezsp-spi/src/ezsp.c:128-190 | The negotiation's result, version in force and commands are the model's |
| `Ezsp.NegotiationRequests` | package/ezsp-spi/src/ezsp.c:133-169 | At most two commands are heard, once or twice each; the co-processor reads them in the version 4 layout as id 0 with one version for a parameter: first the one wanted, then, only after a reset, the one just reported |
| `Ezsp.VersionRequestParses` | package/ezsp-spi/src/ezsp.c:130-136 | The request is the four bytes sequence, 0, 0 and the version, and is read as version() for it |
| `Ezsp.NegotiationEcho` | package/ezsp-spi/src/ezsp.c:136-181 | Against a co-processor that says one frame to everything: fewer than three bytes after the header fail at once, any others settle the version on byte 3, above 8 as a failure, in one request or in two with a reset between |
| `Ezsp.NegotiationAgrees` | package/ezsp-spi/src/ezsp.c:147-189 | A version returned is at most 8, in force, the one last asked for, and the byte at the place of a version in the last frame that came back; that frame is an answer to version() if and only if its id byte is 0, which the host does not look at |
| `Ezsp.NegotiationMisled` | package/ezsp-spi/src/ezsp.c:33-46 | An answer with frame id 0x58 from which version 4 is taken |
| `Ezsp.NegotiationConverges` | package/ezsp-spi/src/ezsp.c:143-180 | Against a co-processor that after a reset first gives the reset notification and then answers every command it reads as version(), it converges on the version spoken, and fails exactly when that is above 8 |
| `Ezsp.SpeakerSpeaks` | package/ezsp-spi/src/ezsp.c:150-152 | There is such a co-processor for every version |
| `Zcl.CompleteIffShortName` | package/ezsp-spi/src/zcl.c:249-259 | An answer that is sent holds a record for every id requested, for all requests, if and only if the host name is at most 27 bytes |
| `Zcl.LongLocationDropped` | package/ezsp-spi/src/zcl.c:166-170 | The request on which a longer name is left out although the answer is sent, at exactly 64 bytes |
| `Zcl.NothingDropped` | package/ezsp-spi/src/zcl.c:109-110 | With a short name an answer within 64 bytes left nothing out |
| `Zcl.AnswerReadsBack` | package/ezsp-spi/src/zcl.c:245-251 | The answer parses back into one correct record for each id kept, a subsequence of the ids requested, within 96 bytes |
| `Zcl.KeptSubsequence` | package/ezsp-spi/src/zcl.c:249-251 | Records keep the order of the request |
| `Zcl.AppendAttr` | package/ezsp-spi/src/zcl.c:142-189 | One record is appended whole, or the buffer is unchanged when it does not fit |
| `Zcl.HandleIncoming` | package/ezsp-spi/src/zcl.c:194-251 | Answers exactly the Read Attributes requests for the Basic cluster, over any bytes received |
| `Zcl.AskingFound` | package/ezsp-spi/src/zcl.c:202-251 | A profile-wide Read Attributes for the Basic cluster, under any such frame control, with a manufacturer code or without, is recognised and its ids are read back as sent |
| `Zcl.OnlyAskingFound` | package/ezsp-spi/src/zcl.c:202-243 | Nothing else is recognised: whatever is answered is a profile-wide command 0x00 on cluster 0x0000, in a callback from that sender, with those ids |
| `Zcl.Interview` | package/ezsp-spi/src/zcl.c:147-186 | The records a coordinator's interview brings: manufacturer Linksys, model WHW03V2, build ezsp-spi 0.1, the host name, and the values of the others, byte for byte |
| `Zcl.InterviewRest` | package/ezsp-spi/src/zcl.c:157-163 | Any other attribute is answered as unsupported |
| `Zcl.Endpoint.Send` | package/ezsp-spi/src/zcl.c:102-139 | Over 64 bytes nothing happens at all; otherwise the co-processor reads one sendUnicast that asks to send this payload, with this tag, from and to endpoint 1 of this destination and cluster; the tag is advanced, and success is its status |
| `Zcl.Endpoint.Incoming` | package/ezsp-spi/src/zcl.c:194-260 | An answer is handed over if and only if the message is such a request and its answer is at most 64 bytes; the co-processor is then asked to send that answer to the request's sender; otherwise stack and counters are untouched |
| `Zcl.UnicastReadsBack` | package/ezsp-spi/src/zcl.c:112-133 | A reader of sendUnicast's parameters, words low byte first, gets back destination, cluster, tag and payload, under profile 0104, endpoints 1 and options 0140 |
| `Zcl.SendUnicastAsks` | package/ezsp-spi/src/zcl.c:112-135 | In any layout the co-processor reads command 0x34 with those parameters |
| `Join.JoinNetwork` | package/ezsp-spi/src/zcl.c:444-516 | The loop with its backward jump terminates and does what the recursive reading of it does |
| `Join.AttemptRules` | package/ezsp-spi/src/zcl.c:444-516 | On every run: at most 1 + retries joinNetwork commands, each later one directly after status 0xAD or 0x94, and 0 returned exactly when NETWORK_UP was the last thing seen |
| `Join.AttemptRetries` | package/ezsp-spi/src/zcl.c:486-515 | On every run, at every point: after status 0xAD or 0x94 joinNetwork is issued again if and only if at most retries were issued again before; nothing follows 0xAB, 0x98, 0xAF or a refusal; and failure is reported for a refusal, for one of those, for a lost frame with no retry left, or after all polls of the last attempt settled nothing |
| `Join.AttemptGenuine` | package/ezsp-spi/src/zcl.c:444-475 | Each joinNetwork and each poll of the trace is the co-processor's own, in order |
| `Join.WaitRules` | package/ezsp-spi/src/zcl.c:464-506 | The same from any point of the wait |
| `Join.WaitRetries` | package/ezsp-spi/src/zcl.c:464-506 | The retry rules from any point of the wait |
| `Join.AttemptEnds` | package/ezsp-spi/src/zcl.c:465-494 | A run is at most one joinNetwork and four polls a second for each attempt |

## Left out

- Sockets, poll, accept, GPIO and spidev calls, sleeps and process exit: events and parameters stand for them, and writes to the client are assumed to succeed.
- The extra reading of nHOST_INT that only decides what poll waits for, and the wake handshake before each transaction.
- The control socket, configuration parsing, board detection, scanning, key and policy listing, printing, name tables, report jitter and LuCI: plumbing or single-branch facts.
- Exactly-once delivery of host DATA: the code never compares a frame number with the one expected, so repeated frames are relayed again; ACKs do not prune the ring and there is no send window.
- Join.JoinNetwork: starts at the joinNetwork command; the scan, configuration and security commands before it are not modelled, and the status of a status callback is an input even when its payload is empty.
- Spi.SpiPort.TxnFramed: asks for a receive buffer of at least three bytes, where every caller has 260 or 512, and for a command whose length byte is right; a zero-length command, which no caller sends, is not modelled.
- Ezsp.EzspHost.Xfer: asks for parameters that fit the 160 byte buffer with header and terminator; the source's own guard is looser, and every caller stays far below it.
- Bridge.AshBridge.AshSend: the ioctl and write retry loops are not modelled, so a client whose connection breaks in the middle of a write is seen only as a later hang-up.
- Zcl.Endpoint.Send: the location string is the host name as bytes of at most 31; reading it from the system is not modelled.
- Error detection beyond bursts of 16 bits, three flipped bits and odd numbers of flipped bits.
