# Verified model of the gamepad bridge

A Dafny model of the parts of the repository that carry its safety: the firmware of the USB gamepad bridge
and four small state machines of the desktop applications.

* **Framed byte protocol** (`Bits`, `Crc`, `Protocol`, `Parser`, `Recovery`, `Decoder`). `Parser` is a
  recursive parser over a whole, unbounded stream; `Decoder` is the firmware's incremental decoder with its
  one fixed buffer, proved to compute the same. The checksums are proved to detect what they are there for.
* **Install receipt** (`Receipt`, `ReceiptFlash`). A flash page with two slots whose bits only ever fall and
  whose power may fail after any word or within one. `Receipt` says what an attempt means and proves what
  can be read afterwards; `ReceiptFlash` are the loops of the firmware, proved to do just that.
* **Device session** (`HidQueue`, `RumbleQueue`, `SessionModel`, `BridgeSession` and `SessionSafety`,
  `SessionLog`, `SessionHid`, `SessionRumble`, `SessionTiming`, `SessionWire`, `SessionReceipt`,
  `SessionProgress`, `SessionPayloads`, `SessionHandshake`, `SessionAnswers`, `SessionDelivery`).
  `BridgeSession` is the session object, method by method, each proved to be a step of `SessionModel`. The
  other modules prove what holds over every run of those steps, in terms of a log of everything that left
  the device. The world is arbitrary: the CDC queue accepts or refuses each frame at will, the endpoint
  accepts whenever it likes, the power fails within any receipt write, and the device may be power cycled.
* **Visualizer input mailbox** (`InputMailbox`), **bounded line reader** (`LineProtocol`), **picker event
  mailbox** (`PickerMailbox`) and **app window host** (`AppCenterHost`).

Bytes and machine words are integers of a bounded subset type, and every wrap-around is written out. What
comes from outside is a parameter: clock readings, frames, what the sink accepts, how flash is powered, what
a child process does.

Where the documentation and the code disagree the model follows the code, and says exactly when they part:

* `docs/GAMEPAD_PROTOCOL.md` (lines 35 and 111) gives an Error frame six bytes of payload; the decoder takes
  one exactly if its payload has at least two bytes (`Protocol.ErrorFrameAccepted`).
* `apps/sc-visualizer/src/mailbox.rs` (lines 25 and 26) calls everything but a report a barrier that is never
  discarded, while lines 151 to 168 drop a lifecycle error or search status that repeats the event before it.
  Every barrier is handed on exactly if no event does (`InputMailbox.BarriersLastExactly`).
* The picker mailbox and the generation numbers of the app window host keep their promises up to a bound that
  is part of the code; `PickerMailbox.TerminalsAreDelivered` and
  `AppCenterHost.ForeignRequestsExactlyPastTheBound` say where it lies.

## Model

| member | source | states |
|---|---|---|
| `Decoder.StreamDecoder.Push` | firmware/xiao-nrf52840/src/bridge_protocol.cpp:79-88 | for every buffer content and every chunk: signals emitted and bytes left in the buffer are those of the whole-stream parser on the held bytes followed by the chunk; only a buffer that was already full costs a byte and a `BufferOverflow`, and no call leaves the buffer full |
| `Decoder.StreamDecoder.PushByte` | firmware/xiao-nrf52840/src/bridge_protocol.cpp:80-87 | one byte of a push: the overflow of a full buffer, then exactly what the parser decides |
| `Parser.ChunkingIsInvisible` | firmware/xiao-nrf52840/src/bridge_protocol.cpp:79-157 | however a stream is cut into chunks, the signals and the leftover are those of one parse of the whole stream |
| `Parser.ParseConcat` | firmware/xiao-nrf52840/src/bridge_protocol.cpp:90-157 | parsing a stream is parsing its first part and then what that left over followed by the rest |
| `Parser.HeadIsDecided` | firmware/xiao-nrf52840/src/bridge_protocol.cpp:90-157 | what the beginning of the stream decides is never revised by bytes that arrive later |
| `Parser.ResidueIsShort` | firmware/xiao-nrf52840/src/bridge_protocol.cpp:90-157 | less than one maximal frame (266 bytes) is ever left over, and it decides nothing by itself; so the buffer never overflows |
| `Parser.OnlyAcceptedFrames` | firmware/xiao-nrf52840/src/bridge_protocol.cpp:174-219 | every frame handed over has passed every check (version, exact lengths, hat, reserved axis values), and no overflow is ever reported |
| `Parser.ParseEncoded` | firmware/xiao-nrf52840/src/bridge_protocol.cpp:48-68 | decoding inverts encoding, whatever follows on the stream |
| `Parser.DecodedIsEncoded` | firmware/xiao-nrf52840/src/bridge_protocol.cpp:90-157 | encoding inverts decoding: a frame comes off the head of a stream only if exactly its encoding lies there |
| `Parser.ForeignVersionIsSkipped` | firmware/xiao-nrf52840/src/bridge_protocol.cpp:133-137 | a frame of any other version, with its checksum, is rejected as a whole: nothing in it is taken for a frame |
| `Parser.UnfinishedFrameIsKept` | firmware/xiao-nrf52840/src/bridge_protocol.cpp:111-124 | every beginning of a sealed frame, of any version, is waited for in silence, byte by byte |
| `Parser.OversizeIsSkipped` | firmware/xiao-nrf52840/src/bridge_protocol.cpp:115-120 | a header that announces more than 256 bytes is reported at once, and the search goes on one byte later |
| `Parser.MismatchIsSkipped` | firmware/xiao-nrf52840/src/bridge_protocol.cpp:125-132 | a complete frame with any other checksum than its own is reported, and the search goes on one byte later |
| `Decoder.StreamDecoder.Process` | firmware/xiao-nrf52840/src/bridge_protocol.cpp:90-157 | the in-place loop ends with exactly the signals and residue of the parser on what was held, and with room in the buffer |
| `Decoder.StreamDecoder.TakeCandidate` | firmware/xiao-nrf52840/src/bridge_protocol.cpp:111-156 | one candidate: waits, or signals and drops exactly what the parser does at that head |
| `Decoder.StreamDecoder.FindMagic` | firmware/xiao-nrf52840/src/bridge_protocol.cpp:92-98 | the first magic in the buffer, or that there is none |
| `Decoder.StreamDecoder.DiscardPrefix` | firmware/xiao-nrf52840/src/bridge_protocol.cpp:159-166 | the held bytes without the prefix, moved in place |
| `Decoder.StreamDecoder.Validate` | firmware/xiao-nrf52840/src/bridge_protocol.cpp:174-219 | every branch of the frame checks, the loop over the axes included |
| `Protocol.ErrorFrameAccepted` | docs/GAMEPAD_PROTOCOL.md:111-114 | an error frame is accepted exactly if its payload has two bytes or more, not only the documented six |
| `Protocol.ShortErrorFrameAccepted` | firmware/xiao-nrf52840/src/bridge_protocol.cpp:210-215 | a two-byte error frame is accepted |
| `Recovery.FrameIsFoundBehindGarbage` | docs/GAMEPAD_PROTOCOL.md:156-158 | resynchronisation: with at least 265 bytes behind the garbage and no false checksum in it, the frame is found, at the cost of exactly one error per magic in the garbage |
| `Recovery.GarbageIsSkipped` | firmware/xiao-nrf52840/src/bridge_protocol.cpp:92-131 | garbage of any length yields the list of its candidates' errors, in order, and nothing else |
| `Recovery.OneErrorPerMagic` | firmware/xiao-nrf52840/src/bridge_protocol.cpp:92-131 | the errors of skipped garbage are as many as the magics in it |
| `Recovery.DamagedByteIsRejected` | firmware/xiao-nrf52840/src/bridge_protocol.cpp:125-132 | a frame damaged in one byte other than magic and length is reported as a checksum mismatch and never handed over |
| `Recovery.DamagedPairIsRejected` | firmware/xiao-nrf52840/src/bridge_protocol.cpp:125-132 | the same for any damage within two adjacent covered bytes |
| `Protocol.EncodeFrameInto` | firmware/xiao-nrf52840/src/bridge_protocol.cpp:48-68 | 0 and an untouched buffer exactly when the frame cannot be built; else header, payload and checksum, and nothing behind them changed |
| `Crc.Crc16CcittFalse` | firmware/xiao-nrf52840/src/bridge_protocol.cpp:35-46 | the two nested loops compute the shift-register checksum of the first `length` bytes |
| `Crc.Crc16DetectsByte` | firmware/xiao-nrf52840/src/bridge_protocol.cpp:35-46 | at any length, a change of one byte changes the CRC-16 |
| `Crc.Crc16DetectsPair` | firmware/xiao-nrf52840/src/bridge_protocol.cpp:35-46 | at any length, a change within two adjacent bytes changes the CRC-16 (the bit step is linear and can be undone) |
| `Crc.Crc16Impulse` | firmware/xiao-nrf52840/src/bridge_protocol.cpp:35-46 | two bytes of ones clear the register from its seed, and a single one behind them brings out x^16 + x^12 + x^5 + 1 |
| `Crc.Crc32Ieee` | firmware/xiao-nrf52840/src/install_receipt.cpp:94-103 | the reflected loops compute the shift-register CRC-32 |
| `Crc.Crc32DetectsByte` | firmware/xiao-nrf52840/src/install_receipt.cpp:94-103 | at any length, a change of one byte changes the CRC-32 |
| `Crc.Crc32Impulse` | firmware/xiao-nrf52840/src/install_receipt.cpp:94-103 | the same for the reflected register, its seed, its polynomial and its final complement |
| `Receipt.OnlyCommittedDataIsRead` | firmware/xiao-nrf52840/src/install_receipt.cpp:137-208 | over any attempts with any power failures, within a word too, a pending page reads Recorded exactly when some attempt's commit word came to stand in full, and then that attempt's data; never are two slots valid |
| `Receipt.AttemptOutcome` | firmware/xiao-nrf52840/src/install_receipt.cpp:163-208 | one attempt: other than on a pending page with valid data nothing changes and it fails; otherwise Recorded is read exactly if its commit word stands, with its data to the byte; success implies that; steady power implies success |
| `Receipt.AttemptShape` | firmware/xiao-nrf52840/src/install_receipt.cpp:193-208 | an attempt stays inside the first blank slot, and its commit word is not touched before the nine words of the image all stand |
| `Receipt.SettledPagesStay` | firmware/xiao-nrf52840/src/install_receipt.cpp:163-172 | Recorded and Invalid are absorbing: no attempt changes the page |
| `Receipt.ImageIsValid` | firmware/xiao-nrf52840/src/install_receipt.cpp:115-135 | a slot that holds the image and the commit word validates, and yields exactly the data that was put in |
| `Receipt.SlotIsImage` | firmware/xiao-nrf52840/src/install_receipt.cpp:115-135 | a slot validates to a receipt exactly if its first 40 bytes are the sealed image of it, it is one that may be written, and the commit word stands; only the reserved byte is free |
| `Receipt.DamagedSlotIsRefused` | firmware/xiao-nrf52840/src/install_receipt.cpp:115-135 | a valid slot with any one of its 40 bytes changed is not valid |
| `Receipt.DamagedReceiptIsNotRead` | firmware/xiao-nrf52840/src/install_receipt.cpp:137-161 | a recorded page with one byte of its receipt changed never reads as recorded |
| `Receipt.PageReads` | firmware/xiao-nrf52840/src/install_receipt.cpp:137-161 | what a page reads, from its bytes: header, sealed slots and erased slots |
| `Receipt.SecondChance` | firmware/xiao-nrf52840/src/install_receipt.cpp:137-208 | with both slots erased, no single attempt, however it is cut, makes the page unusable |
| `Receipt.WritableExactly` | firmware/xiao-nrf52840/src/install_receipt.cpp:163-169 | with lasting power exactly the receipts with a positive 63-bit time, a known source and an identifier can be written |
| `Receipt.WordsOnErased` | firmware/xiao-nrf52840/xiao-nrf52840.ino:294-331 | on erased words the words arrive as intended or a failure is reported, and nothing outside them changes |
| `Receipt.WordWriteIsHonest` | firmware/xiao-nrf52840/xiao-nrf52840.ino:294-331 | a word write raises no bit, touches no other byte, tells the truth, and with lasting power succeeds exactly if clearing bits suffices |
| `ReceiptFlash.WriteInstallReceipt` | firmware/xiao-nrf52840/src/install_receipt.cpp:163-208 | the word-by-word method leaves the page, result and power supply that the specification of an attempt says |
| `ReceiptFlash.FlashWriter.WriteWord` | firmware/xiao-nrf52840/xiao-nrf52840.ino:294-331 | one word: unchanged if equal, refused if a bit would have to rise, else programmed as the bitwise and, possibly torn |
| `ReceiptFlash.ReadInstallReceipt` | firmware/xiao-nrf52840/src/install_receipt.cpp:137-161 | the slot scan reads the status that the page specification gives |
| `ReceiptFlash.ValidateInstallReceipt` | firmware/xiao-nrf52840/src/install_receipt.cpp:115-135 | the receipt of a slot exactly when every field, the checksum and the commit word are right |
| `ReceiptFlash.InstallReceiptSlotBlank` | firmware/xiao-nrf52840/src/install_receipt.cpp:105-113 | true exactly when every byte of the slot is erased |
| `ReceiptFlash.InstallIdPresent` | firmware/xiao-nrf52840/src/install_receipt.cpp:51-57 | true exactly when some byte of the identifier is not zero |
| `ReceiptFlash.FirstBlankSlot` | firmware/xiao-nrf52840/src/install_receipt.cpp:173-180 | the first blank slot of a pending page |
| `SessionHid.NoResurrectedInput` | firmware/xiao-nrf52840/src/bridge_session.cpp:235-342 | from a safety event on, over any run, every report the endpoint accepts is neutral or was applied by the session with that event or after it; frames it ignores, not negotiated or busy, license nothing |
| `SessionHid.NeutralComesFirst` | firmware/xiao-nrf52840/src/bridge_session.cpp:302-342 | the next report accepted after a safety event is neutral, unless the last one accepted since the mount already was |
| `SessionHid.HidEvolves` | firmware/xiao-nrf52840/src/bridge_session.cpp:86-342 | for every event of the whole session, the queue moves by one closed form (a safety neutral first, then what the event brings), and the endpoint is given exactly the pending report on acceptance and nothing else ever |
| `SessionHid.TargetIsLatest` | firmware/xiao-nrf52840/src/bridge_session.cpp:319-342 | the queue always heads for the report queued last, and acceptances do not change that |
| `SessionHid.TwoAcceptancesDrain` | firmware/xiao-nrf52840/src/bridge_session.cpp:235-252 | from every reachable state two acceptances leave the endpoint holding the target and nothing queued |
| `SessionLog.NoRepeatedReport` | firmware/xiao-nrf52840/src/bridge_session.cpp:329-338 | between mounts the endpoint never accepts the same report twice in a row |
| `SessionLog.QuietBeforeIrreversible` | firmware/xiao-nrf52840/src/bridge_session.cpp:395-469 | in every run, before each boot loader announcement and each receipt write, the last accepted report since the mount is neutral and the last rumble frame sent is zero |
| `SessionLog.IrreversibleNeedsHandshake` | firmware/xiao-nrf52840/src/bridge_session.cpp:395-469 | only a tick of a negotiated session takes such a step, although neither service asks for the handshake |
| `SessionLog.IdleWithoutHandshake` | firmware/xiao-nrf52840/src/bridge_session.cpp:220-233 | a tick without a handshake changes nothing at all |
| `SessionLog.RequestsExclude` | firmware/xiao-nrf52840/src/bridge_session.cpp:373-439 | the boot loader and the receipt request are never in progress together |
| `SessionLog.ReachableStates` | firmware/xiao-nrf52840/src/bridge_session.cpp:45-583 | every reachable state of a device keeps the state invariant, and its log is orderly and ends as the session believes |
| `SessionSafety.StepKeepsInv` | firmware/xiao-nrf52840/src/bridge_session.cpp:86-583 | every event keeps the state invariant: watchdog armed exactly for a non-neutral target, only a negotiated idle session has one, a missing handshake means a zero still to be sent, requests exclude each other |
| `SessionLog.StepKeepsLog` | firmware/xiao-nrf52840/src/bridge_session.cpp:86-583 | every event keeps the log orderly and the session's picture of endpoint and host true |
| `SessionHandshake.GreetingIsAnswered` | firmware/xiao-nrf52840/src/bridge_session.cpp:111-130 | a greeting is answered, and opens the session, exactly if it offers version 1 and the answer gets through |
| `SessionHandshake.OpenExactly` | firmware/xiao-nrf52840/src/bridge_session.cpp:86-192 | nothing but an answered greeting opens a session; nothing but a reset, a greeting or the third decode error closes it |
| `SessionHandshake.StreakIsCounted` | firmware/xiao-nrf52840/src/bridge_session.cpp:180-185 | in every run the error counter is the number of decode errors since the last frame or reset, up to 255 |
| `SessionHandshake.ThirdErrorCloses` | firmware/xiao-nrf52840/src/bridge_session.cpp:180-192 | in every run a decode error closes the session exactly if it is the third since the last frame or reset |
| `SessionHandshake.FaultIsShown` | firmware/xiao-nrf52840/src/bridge_session.cpp:107-228 | the fault flag: set exactly by the third error and an expired watchdog, cleared exactly by a frame or a reset |
| `SessionHandshake.GapsExactly` | firmware/xiao-nrf52840/src/bridge_session.cpp:277-285 | a frame is unsafe for its number exactly if that is not one more, modulo 2^16, than that of the frame before, whatever came between |
| `SessionHandshake.NumberingRestarts` | firmware/xiao-nrf52840/src/bridge_session.cpp:254-275 | the device numbers its frames from 0 after a disconnection and power, and goes on over a connection |
| `SessionHandshake.InfoIsPaidOnce` | firmware/xiao-nrf52840/src/bridge_session.cpp:344-371 | an answered greeting leaves the device information owed; the first tick that gets a frame through sends it, with what the page reads, and nothing else does |
| `SessionHandshake.InfoIsNotRepeated` | firmware/xiao-nrf52840/src/bridge_session.cpp:344-371 | over any run without a greeting it is sent at most as often as it was owed |
| `SessionHandshake.FirstInput` | firmware/xiao-nrf52840/src/bridge_session.cpp:107-141 | from power on, an answered greeting, a gamepad frame numbered one higher and two acceptances bring the report to the endpoint |
| `SessionAnswers.FramesAreAnswered` | firmware/xiao-nrf52840/src/bridge_session.cpp:132-178 | every frame but a greeting gets exactly its documented answer, at once, in an open session, and none otherwise |
| `SessionAnswers.RequestsExactly` | firmware/xiao-nrf52840/src/bridge_session.cpp:373-439 | which frames start a request, ask for the announcement again, or leave the requests alone |
| `SessionAnswers.TickAnswersReceipt` | firmware/xiao-nrf52840/src/bridge_session.cpp:441-486 | the tick that finds the endpoint served ends a receipt request with the answer that fits what became of it, refusals and failed writes included |
| `SessionAnswers.BootLoaderIsAnnouncedAgain` | firmware/xiao-nrf52840/src/bridge_session.cpp:379-408 | the boot loader, announced already, is announced again to the same request by the next tick |
| `SessionAnswers.AnnouncedOnce` | firmware/xiao-nrf52840/src/bridge_session.cpp:395-408 | a tick announces no boot loader again that is announced already, unless asked |
| `SessionAnswers.OnlyItsAnswerEndsARequest` | firmware/xiao-nrf52840/src/bridge_session.cpp:441-486 | a tick ends a receipt request only by an answer to it that the queue took |
| `SessionAnswers.RequestsEndWithConnection` | firmware/xiao-nrf52840/src/bridge_session.cpp:254-275 | whatever ends the connection ends both requests |
| `SessionAnswers.ReadbackNeverMismatches` | firmware/xiao-nrf52840/src/bridge_session.cpp:459-464 | in no run, torn writes and power cycles included, is a readback mismatch ever reported |
| `SessionTiming.DeadManSwitch` | firmware/xiao-nrf52840/src/bridge_session.cpp:220-228 | right after a tick the target is non-neutral only if that very report arrived less than 100 ms of true time ago; the 32-bit clock may wrap any number of times if ticks are less than 2^32 - 100 ms apart |
| `SessionTiming.WatchdogGuardsTarget` | firmware/xiao-nrf52840/src/bridge_session.cpp:287-305 | in every reachable state the watchdog is armed exactly while the target is not neutral, and then the session is negotiated and idle |
| `SessionDelivery.WatchdogExactly` | firmware/xiao-nrf52840/src/bridge_session.cpp:220-228 | after an applied gamepad frame and any run that applies no other and is not unsafe, a tick makes the device safe exactly if 100 ms have passed, and until then the report stays |
| `SessionTiming.RumbleNeedsLiveSource` | firmware/xiao-nrf52840/src/bridge_session.cpp:525-532 | right after a tick an active rumble is one the host driver itself asked for less than 250 ms of true time ago, however often it was refreshed |
| `SessionRumble.RumbleAtRest` | firmware/xiao-nrf52840/src/bridge_session.cpp:498-570 | in every reachable state lease and refresh are armed exactly for an active rumble; quarantine, no handshake and both request phases keep it at zero |
| `SessionRumble.ForcedZeroComesFirst` | firmware/xiao-nrf52840/src/bridge_session.cpp:307-317 | whatever forces the motors off, the next rumble frame sent, in that event or later in the run, is the zero |
| `SessionRumble.RumbleEvolves` | firmware/xiao-nrf52840/src/bridge_session.cpp:498-570 | for every event of the whole session the rumble state moves by one closed form, and only a tick sends a rumble frame, the pending one |
| `SessionTiming.OnlySourcesDrive` | firmware/xiao-nrf52840/src/bridge_session.cpp:194-218 | the desired rumble becomes active, or active in another way, only by a packet of the driver |
| `SessionDelivery.RumbleIsDelivered` | firmware/xiao-nrf52840/src/bridge_session.cpp:194-570 | an active packet in an open, idle session out of quarantine is what the last rumble frame sent carries two ticks later, through any run in which nothing forces the motors off, no other packet comes, and the host takes the frames |
| `SessionDelivery.PacketIsHeard` | firmware/xiao-nrf52840/src/bridge_session.cpp:194-218 | when a packet counts, and what it changes in each case |
| `SessionDelivery.RefreshExactly` | firmware/xiao-nrf52840/src/bridge_session.cpp:533-540 | a delivered rumble is repeated by a tick exactly if the last transmission is 25 ms old or more |
| `SessionDelivery.LeaseExactly` | firmware/xiao-nrf52840/src/bridge_session.cpp:525-532 | a tick after a packet ends the rumble exactly if 250 ms have passed |
| `SessionDelivery.QuarantineExactly` | firmware/xiao-nrf52840/src/bridge_session.cpp:313-317 | quarantine begins with a connection, a mount and an answered greeting, and ends with a zero packet, 250 ms of quiet, or the connection, and only so |
| `SessionDelivery.QuietEndsQuarantine` | firmware/xiao-nrf52840/src/bridge_session.cpp:520-524 | after 250 ms of quiet the tick that sees them ends the quarantine, and the next packet counts |
| `SessionWire.StreamRoundTrip` | firmware/xiao-nrf52840/src/bridge_session.cpp:572-583 | within one connection the accepted bytes decode, from an empty decoder, to exactly the frames sent, in order, without an error or a leftover, numbered consecutively modulo 2^16 |
| `SessionWire.StepStreams` | firmware/xiao-nrf52840/src/bridge_session.cpp:572-583 | each event appends to the wire exactly the encodings of the frames it logs |
| `SessionReceipt.OneReceiptForEver` | firmware/xiao-nrf52840/src/bridge_session.cpp:410-480 | through any run, power cycles and torn writes included, every acknowledgement ever sent carries the one receipt the page reads, and once one is sent the page never changes |
| `SessionReceipt.RecordedPageAnswers` | firmware/xiao-nrf52840/src/bridge_session.cpp:417-425 | on a recorded page the same receipt is acknowledged again, byte for byte, and any other is answered with a rejection |
| `SessionReceipt.RequestEchoed` | firmware/xiao-nrf52840/src/bridge_session.cpp:471-480 | the acknowledgement of a receipt is byte for byte the payload of the request |
| `SessionReceipt.ReceiptBytesInjective` | firmware/xiao-nrf52840/src/bridge_session.cpp:471-480 | two receipts with the same bytes are the same receipt |
| `HidQueue.LatestWins` | firmware/xiao-nrf52840/src/bridge_session.cpp:319-342 | queueing a report keeps the queue sound and makes that report its target |
| `HidQueue.AcceptanceConverges` | firmware/xiao-nrf52840/src/bridge_session.cpp:235-252 | an acceptance keeps the target, and two drain the queue to it |
| `RumbleQueue.RumbleStaysSound` | firmware/xiao-nrf52840/src/bridge_session.cpp:498-570 | every rumble transition keeps lease and refresh tied to active feedback and a deferred one behind its zero |
| `RumbleQueue.OnlySendingDrains` | firmware/xiao-nrf52840/src/bridge_session.cpp:541-569 | only a transmission empties the queue, and then what was sent is what is desired |
| `SessionProgress.ReceiptIsRecorded` | firmware/xiao-nrf52840/src/bridge_session.cpp:426-469 | a valid receipt requested on a pending page is recorded, and acknowledged with the very payload of the request, by the first tick after the endpoint took the neutral, through any run in between short of a reset, a handshake, a third decode error or a later mount; given a host that takes the frames and lasting power |
| `SessionProgress.BootLoaderIsAnnounced` | firmware/xiao-nrf52840/src/bridge_session.cpp:388-408 | likewise, through any such run, the boot loader is announced with the id of its request |
| `SessionProgress.TickGrants` | firmware/xiao-nrf52840/src/bridge_session.cpp:395-469 | the tick that finds the endpoint served fulfils the request, and the answer is the last thing it sends |
| `SessionPayloads.InputReachesEndpoint` | firmware/xiao-nrf52840/src/bridge_session.cpp:287-342 | input end to end: a report the host encodes is what the decoder hands over, and after two acceptances the endpoint holds just that report, from every reachable negotiated idle state |
| `SessionPayloads.GamepadRoundTrip` | docs/GAMEPAD_PROTOCOL.md:116-132 | a report laid out as documented passes the checks exactly if hat and axes are legal, and is read back field by field; reserved bits and flags are ignored |
| `SessionPayloads.AcceptedIsPlayable` | firmware/xiao-nrf52840/src/bridge_protocol.cpp:180-210 | every gamepad frame the session is handed has a legal hat and no reserved axis value |
| `SessionPayloads.RejectionsAreNamed` | firmware/xiao-nrf52840/src/bridge_protocol.cpp:180-194 | a gamepad payload with a hat beyond 8 is rejected for it, else one with a reserved axis for that |
| `SessionPayloads.LengthsAreDocumented` | docs/GAMEPAD_PROTOCOL.md:21-35 | a frame is rejected for its length exactly as documented, but for the error frame |
| `SessionPayloads.DeviceInfoLayout` | docs/GAMEPAD_PROTOCOL.md:39-70 | format, revision, capabilities, receipt state, receipt and target identity lie at the documented offsets |
| `SessionPayloads.AnswersReadBack` | docs/GAMEPAD_PROTOCOL.md:94-113 | rumble, error and receipt payloads read back, at the documented offsets, as what was put in |
| `BridgeSession.BridgeSession.constructor` | firmware/xiao-nrf52840/src/bridge_session.cpp:45-84 | the power-on state: a safety neutral and a zero rumble are pending |
| `BridgeSession.BridgeSession.OnFrame` | firmware/xiao-nrf52840/src/bridge_session.cpp:107-178 | the whole new state, wire and log of a frame, as the session model says |
| `BridgeSession.BridgeSession.OnHello` | firmware/xiao-nrf52840/src/bridge_session.cpp:111-130 | likewise for the handshake, the send that fails included |
| `BridgeSession.BridgeSession.OnDecodeError` | firmware/xiao-nrf52840/src/bridge_session.cpp:180-192 | likewise; the third error in a row ends the session |
| `BridgeSession.BridgeSession.OnXinputRumble` | firmware/xiao-nrf52840/src/bridge_session.cpp:194-218 | likewise for a rumble packet of the driver |
| `BridgeSession.BridgeSession.OnCdcConnected` | firmware/xiao-nrf52840/src/bridge_session.cpp:86-91 | likewise for a connection |
| `BridgeSession.BridgeSession.OnCdcDisconnected` | firmware/xiao-nrf52840/src/bridge_session.cpp:93-96 | likewise for its end |
| `BridgeSession.BridgeSession.OnHidMounted` | firmware/xiao-nrf52840/src/bridge_session.cpp:98-105 | likewise; the endpoint cache is forgotten |
| `BridgeSession.BridgeSession.Tick` | firmware/xiao-nrf52840/src/bridge_session.cpp:220-233 | likewise: the watchdog and the four services, in their order |
| `BridgeSession.BridgeSession.MarkHidReportSent` | firmware/xiao-nrf52840/src/bridge_session.cpp:235-252 | likewise: the pending report reached the endpoint and the deferred one moves up |
| `BridgeSession.BridgeSession.ResetSession` | firmware/xiao-nrf52840/src/bridge_session.cpp:254-275 | likewise for a reset, with the transmit sequence kept or not |
| `BridgeSession.BridgeSession.CheckSequence` | firmware/xiao-nrf52840/src/bridge_session.cpp:277-285 | likewise: a gap makes the device safe |
| `BridgeSession.BridgeSession.ApplyGamepad` | firmware/xiao-nrf52840/src/bridge_session.cpp:287-300 | likewise: report decoded, watchdog armed exactly if it is not neutral |
| `BridgeSession.BridgeSession.QueueHid` | firmware/xiao-nrf52840/src/bridge_session.cpp:319-342 | in-place queueing is the queue function about which the latest-wins lemmas are |
| `BridgeSession.BridgeSession.QueueRumble` | firmware/xiao-nrf52840/src/bridge_session.cpp:498-514 | in-place queueing is the rumble function about which the soundness lemmas are |
| `BridgeSession.BridgeSession.ForceNeutral` | firmware/xiao-nrf52840/src/bridge_session.cpp:302-305 | the watchdog is off and a neutral is queued |
| `BridgeSession.BridgeSession.ForceRumbleZero` | firmware/xiao-nrf52840/src/bridge_session.cpp:307-311 | lease and refresh are off and a safety zero is queued |
| `BridgeSession.BridgeSession.BeginRumbleQuarantine` | firmware/xiao-nrf52840/src/bridge_session.cpp:313-317 | quarantine runs from now and a safety zero is queued |
| `BridgeSession.BridgeSession.BeginUf2Bootloader` | firmware/xiao-nrf52840/src/bridge_session.cpp:373-393 | the new state and the answer in each case of the request |
| `BridgeSession.BridgeSession.RecordInstallReceipt` | firmware/xiao-nrf52840/src/bridge_session.cpp:410-439 | the new state and the answer in each case of the request |
| `BridgeSession.BridgeSession.ServiceDeviceInfo` | firmware/xiao-nrf52840/src/bridge_session.cpp:344-371 | the device information is sent once, retried until it is accepted |
| `BridgeSession.BridgeSession.ServiceRumble` | firmware/xiao-nrf52840/src/bridge_session.cpp:516-570 | timers, transmission and what is pending afterwards |
| `BridgeSession.BridgeSession.ServiceInstallReceipt` | firmware/xiao-nrf52840/src/bridge_session.cpp:441-469 | write, read back, answer; the page, the wire and the log included |
| `BridgeSession.BridgeSession.ServiceUf2Bootloader` | firmware/xiao-nrf52840/src/bridge_session.cpp:395-408 | announced only when both queues are drained, and again on request |
| `BridgeSession.BridgeSession.SendInstallReceiptRecorded` | firmware/xiao-nrf52840/src/bridge_session.cpp:471-480 | one frame with the request id and the receipt, if the queue takes it |
| `BridgeSession.BridgeSession.SendInstallReceiptError` | firmware/xiao-nrf52840/src/bridge_session.cpp:482-486 | the request ends when the error could be sent |
| `BridgeSession.BridgeSession.SendError` | firmware/xiao-nrf52840/src/bridge_session.cpp:488-496 | one error frame, if the queue takes it |
| `BridgeSession.BridgeSession.SendMessage` | firmware/xiao-nrf52840/src/bridge_session.cpp:572-583 | the encoded frame is appended to the wire and the sequence advances exactly if the queue takes it |
| `InputMailbox.Mailbox.TakeAll` | apps/sc-visualizer/src/mailbox.rs:219-229 | unless it reports an overflow, the drained events have the same runs (mask, first and last sample), malformed reports and barriers, in order, as everything published since the last drain; in any case every barrier but adjacent repeats is there, and the newest event is last |
| `InputMailbox.BarriersLastExactly` | apps/sc-visualizer/src/mailbox.rs:151-168 | the barriers that last are all of them exactly if no event repeats the error or status just before it |
| `InputMailbox.RepeatedStatusIsLost` | apps/sc-visualizer/src/mailbox.rs:163-168 | a search status given twice is handed on once |
| `InputMailbox.OnlyErrorsRepeat` | apps/sc-visualizer/src/mailbox.rs:151-168 | of two equal connection events both last, of two equal errors one |
| `InputMailbox.RepeatsExactly` | apps/sc-visualizer/src/mailbox.rs:151-168 | events that differ, and reports, never count as repeats |
| `InputMailbox.ButtonsAreFourBytes` | apps/sc-visualizer/src/mailbox.rs:122-137 | two valid reports show the same buttons exactly if their bytes 2 to 5 agree |
| `InputMailbox.ValidReports` | apps/sc-visualizer/src/mailbox.rs:122-130 | a report shows buttons exactly if it is one of the two kinds, in full length |
| `InputMailbox.Mailbox.Publish` | apps/sc-visualizer/src/mailbox.rs:140-216 | every publication keeps the queue a faithful stand-in for the history, at most 64 reports, the cached run summary equal to a recomputation, and published = delivered + queued + coalesced + dropped; it overflows exactly when the queue is full and nothing can be merged |
| `InputMailbox.Mailbox.PublishUnderPressure` | apps/sc-visualizer/src/mailbox.rs:185-215 | the three ways out of a full queue, and which of them is taken when |
| `InputMailbox.MustOverflowExactly` | apps/sc-visualizer/src/mailbox.rs:185-215 | a report makes the mailbox overflow exactly if it is full and, with the report, holds no sample between two others of its run |
| `InputMailbox.MiddleSampleIsRedundant` | apps/sc-visualizer/src/mailbox.rs:232-259 | removing a sample between two others of its run leaves the run structure as it is |
| `InputMailbox.FirstSampleStays` | apps/sc-visualizer/src/mailbox.rs:77-105 | a run keeps its first sample while it goes on, and any other report begins a new one |
| `InputMailbox.NewestSampleReplaced` | apps/sc-visualizer/src/mailbox.rs:185-190 | replacing the newest sample of a run that has an older one is the same as adding the new sample |
| `InputMailbox.MiddleGivesWay` | apps/sc-visualizer/src/mailbox.rs:191-198 | removing a middle sample and adding the new report keeps all that is promised |
| `InputMailbox.Overflowed` | apps/sc-visualizer/src/mailbox.rs:199-214 | what is left after an overflow: every barrier, the newest report, and the summary of that |
| `InputMailbox.Mailbox.RedundantReportIndex` | apps/sc-visualizer/src/mailbox.rs:234-259 | the first sample that is the middle of three, or that there is none |
| `InputMailbox.Mailbox.RebuildRun` | apps/sc-visualizer/src/mailbox.rs:261-269 | the loop recomputes the summary of the queue |
| `InputMailbox.RunOfTells` | apps/sc-visualizer/src/mailbox.rs:77-105 | what the two cached masks say of the end of the queue is so |
| `LineProtocol.ReadBoundedLine` | apps/sc-bridge-menu/src/line_protocol.rs:3-32 | for every chunking of the stream: the line, end or error that the whole stream determines, and after a line exactly the bytes behind its newline remain |
| `LineProtocol.LineAtHead` | apps/sc-bridge-menu/src/line_protocol.rs:17-24 | a line is accepted exactly when it and its newline fit the bound |
| `LineProtocol.RefusedAsSoonAsHopeless` | apps/sc-bridge-menu/src/line_protocol.rs:17-27 | bytes without a newline are refused as too long exactly if no bytes behind them could make them a line |
| `LineProtocol.HowItStops` | apps/sc-bridge-menu/src/line_protocol.rs:9-16 | a stream that stops within the bound reports its failure, its end, or the unfinished line |
| `LineProtocol.ReadAllInvertsJoin` | apps/sc-bridge-menu/src/line_protocol.rs:3-32 | reading line by line gives back any newline-free bounded messages that were joined, in order, and then the end |
| `LineProtocol.BufReader.Consume` | apps/sc-bridge-menu/src/line_protocol.rs:17-31 | exactly the counted bytes leave the stream |
| `PickerMailbox.TerminalsAreDelivered` | apps/sc-bridge-menu/src/app_state.rs:199-247 | in every run the queue keeps its shape, and every terminal event published was delivered once and in order or is still queued exactly if no publication pushed a terminal event out of a full queue |
| `PickerMailbox.PublishLosesExactly` | apps/sc-bridge-menu/src/app_state.rs:234-238 | a publication keeps all terminal events exactly unless the queue is full after coalescing and its head is terminal |
| `PickerMailbox.DropsExactly` | apps/sc-bridge-menu/src/app_state.rs:199-247 | over any run a terminal event is dropped exactly if some publication loses one |
| `PickerMailbox.OneDismissalTooMany` | apps/sc-bridge-menu/src/app_state.rs:234-238 | with 33 dismissals in a row the first is lost |
| `PickerMailbox.PublishedIsWellShaped` | apps/sc-bridge-menu/src/app_state.rs:199-240 | terminal events, then visual events without adjacent selections, at most 32, the newest last |
| `PickerMailbox.RunConserves` | apps/sc-bridge-menu/src/app_state.rs:199-247 | through any mix of publications and pops, the terminal events removed and queued are those published |
| `PickerMailbox.SupersededKeepsTerminals` | apps/sc-bridge-menu/src/app_state.rs:206-232 | coalescing takes only visual events |
| `PickerMailbox.VisualsSuperseded` | apps/sc-bridge-menu/src/app_state.rs:206-217 | an event that is not terminal supersedes at most the newest, a selection by a selection or a preparation by the opened picker |
| `PickerMailbox.TerminalSupersedes` | apps/sc-bridge-menu/src/app_state.rs:218-232 | a terminal event supersedes exactly the visual events |
| `PickerMailbox.PickerEventMailbox.Publish` | apps/sc-bridge-menu/src/app_state.rs:199-240 | the in-place steps leave the specified queue, and a wake-up is asked for exactly when it was empty |
| `PickerMailbox.PickerEventMailbox.Pop` | apps/sc-bridge-menu/src/app_state.rs:242-247 | the oldest event, if any |
| `AppCenterHost.SuspensionIsNeverOrphaned` | apps/sc-bridge-menu/src/app_center_host.rs:278-312 | over any run in which its owner does not release it and it is not recovered without a child, the suspension stays with its generation, and no other child is spawned |
| `AppCenterHost.OwnershipIsStable` | apps/sc-bridge-menu/src/app_center_host.rs:278-312 | each single event ends ownership only by that release or that recovery, and spawns nothing meanwhile |
| `AppCenterHost.SuspensionBeginsExactly` | apps/sc-bridge-menu/src/app_center_host.rs:278-290 | while none is owned, a suspension begins exactly with the claim of the present child, and is its |
| `AppCenterHost.ASuspensionLives` | apps/sc-bridge-menu/src/app_center_host.rs:278-312 | a first child claims, releases and claims again; its suspension outlives it until it is recovered |
| `AppCenterHost.ChildLivesExactly` | apps/sc-bridge-menu/src/app_center_host.rs:82-374 | exactly which events lose the child, and when a new one comes to life, with which number |
| `AppCenterHost.LaunchReports` | apps/sc-bridge-menu/src/app_center_host.rs:82-107 | a launch reports a reused window, a new one or an error exactly as it is |
| `AppCenterHost.RequestsQueueExactly` | apps/sc-bridge-menu/src/app_center_host.rs:170-234 | the queue grows exactly by what a live reader hands over, tagged with its session, and a drain empties it |
| `AppCenterHost.OwnerIsLiveOrRecoverable` | apps/sc-bridge-menu/src/app_center_host.rs:278-312 | in every run an owner with a live child is that child's generation |
| `AppCenterHost.DrainYieldsOnlyCurrent` | apps/sc-bridge-menu/src/app_center_host.rs:228-234 | a drain yields only requests of the present child, up to 2^64 - 1 spawns; beyond, of sessions whole counter cycles away too |
| `AppCenterHost.ForeignRequestsExactlyPastTheBound` | apps/sc-bridge-menu/src/app_center_host.rs:142-234 | some run with n spawn attempts yields a request of another session than the present child exactly if n > 2^64 - 1 |
| `AppCenterHost.OldRequestAfterWrap` | apps/sc-bridge-menu/src/app_center_host.rs:142-143 | for every session k, a whole counter cycle later a request of its surviving reader passes for the present child's |
| `AppCenterHost.GenerationsDistinguish` | apps/sc-bridge-menu/src/app_center_host.rs:142-143 | two sessions share a generation number exactly when whole cycles of the counter lie between them |
| `AppCenterHost.StepKeepsInv` | apps/sc-bridge-menu/src/app_center_host.rs:82-413 | every event keeps generation, child, owner and queued requests consistent |
| `AppCenterHost.AppCenterHost.Launch` | apps/sc-bridge-menu/src/app_center_host.rs:82-107 | the new state and result of a launch in each case |
| `AppCenterHost.AppCenterHost.Spawn` | apps/sc-bridge-menu/src/app_center_host.rs:130-226 | the new state and result of a spawn; a generation number is used up in any case |
| `AppCenterHost.AppCenterHost.Drain` | apps/sc-bridge-menu/src/app_center_host.rs:228-234 | the queued requests of the present generation, in order, and an empty queue |
| `AppCenterHost.AppCenterHost.SendCommand` | apps/sc-bridge-menu/src/app_center_host.rs:257-276 | an undeliverable command costs the child |
| `AppCenterHost.AppCenterHost.ClaimSuspension` | apps/sc-bridge-menu/src/app_center_host.rs:278-290 | claimed exactly by the present generation while unowned |
| `AppCenterHost.AppCenterHost.ReleaseSuspension` | apps/sc-bridge-menu/src/app_center_host.rs:292-301 | released exactly by its owner |
| `AppCenterHost.AppCenterHost.CompleteSuspensionRecovery` | apps/sc-bridge-menu/src/app_center_host.rs:303-312 | ownership ends only without a child |
| `AppCenterHost.AppCenterHost.Reap` | apps/sc-bridge-menu/src/app_center_host.rs:319-352 | a child that is gone is discarded, with its requests |
| `AppCenterHost.AppCenterHost.Stop` | apps/sc-bridge-menu/src/app_center_host.rs:354-374 | refused while owned; else the child is gone or let go |
| `AppCenterHost.AppCenterHost.DiscardChild` | apps/sc-bridge-menu/src/app_center_host.rs:384-401 | child, generation and queued requests are dropped |
| `AppCenterHost.AppCenterHost.DetachChild` | apps/sc-bridge-menu/src/app_center_host.rs:403-413 | child and generation are let go |

## Left out

- Session diagnostics: the counters of the session change nothing else and are not kept.
- Session fields: the flags of `BridgeSession` are grouped into five records (link, boot loader, receipt
  request, report queue, rumble), and the pair "queue a neutral, queue a zero" is one method, `MakeSafe`.
- Sink: what the CDC queue answers is an arbitrary sequence of replies; that the bytes then reach the host,
  and the drain before the jump into the boot loader, are not part of this model.
- Reserved button bits and the flags byte of a gamepad state are dropped, as the firmware drops them; axes
  are kept as their 16 bits, since the session only compares and forwards them.
- Decoder callbacks: signals are appended to a sequence; absent callbacks and null data pointers are left out.
- Protocol.EncodeFrameInto: the payload must not overlap the output buffer, which no caller of the firmware does.
- ReceiptFlash.FlashWriter.WriteWord: the flash controller's registers, its timeout and the radio stack check
  are one choice, per attempt, of the word at which an attempt breaks off and of the bits then left unwritten.
- ReceiptFlash: volatile reads, section placement and structure layout; a slot is its 64 bytes in order.
- SessionHid.NoResurrectedInput: reports are told apart by their contents, so a report applied again counts as new.
- InputMailbox: counters do not wrap at 2^64, the lock makes each call one step, and of a raw report only the
  id, the data and the time stamp are kept.
- LineProtocol.ReadBoundedLine: which bytes are left unread after an error is not stated, as the callers give
  the stream up; retries of an interrupted read are the reader's.
- PickerMailbox: the log line of an overflow.
- AppCenterHost: channel capacity, thread joining, JSON encoding and diagnostics; what a child does is an
  arbitrary input, and a reader thread that has ended sends nothing more.
- SessionProgress: how long a host that takes only some of the frames keeps a request waiting; each refused
  frame is offered again on a later tick.
- The gamepad mapping tables, the USB and serial transports, the host side of the protocol in Rust, the updater,
  the profile picker's own states and all user interface code.
