# Verified model of the sentinet robot stack

This project models, in Dafny, the three connected parts of the C and C++ code that carry its
protocol logic, and proves properties of them for all inputs, all runs and all interleavings.

1. **Wire format** (`Bytes`, `Records`, `DataMessages`, `MessageRuns`, `TypedFields`, `SpillRuns`,
   `SpillCauses`, `MessageImages`, `RmtMessages`, `PingMessage`, `WireBytes`, `Checksum`). A data message is
   a 13-byte header followed by records `[size][type code][payload][0]`. `serialize_data` appends records to
   a struct and its byte array, `to_wire` writes the header, `get_data` walks the records by index. The robot messages look their
   payload offsets up once and then load and store through them. Pings are fixed 15-byte packets, of
   which 11 are sent.
2. **Command state** (`KermitKernel`, `KernelHistory`, `VelocitySender`, `ControlClient`, `Serial`). Pings
   open and close a gate, drive messages set velocities through it, a thread without a lock sends the
   velocities to a serial port, and requests are retried over throw-away sockets.
3. **Filters, relays, workers** (`SimpleLocalizer`, `PubSubProxy`, `ServerProxy`, `Workers`, `WorkerAnswers`,
   `Locks`).

Code that works in place is modelled in place: buffers are arrays, structs are classes, the C loops are
loops. Each method is proved against a function on values (`Serialized`, `Lookup`, `Step`, `Updated`,
`Chain`, `ResultOf`, ...), and what the code is for is proved of those functions, in terms that do not
mention them: bytes on the wire (`WireBytes`), C sizes (`TypedFields`), flags in source order
(`KernelHistory`), the calls made before (`WorkerAnswers`), the poll outcomes (`ControlClient`).

## Conventions

- Integers have their C width where it can matter: `byte_length` is a uint32 whose size guard wraps,
  `fields` a uint16 that wraps, the checksum counter an int cut to 16 bits.
- Loads and stores are little-endian (x86_64); `host16` and `host32` are the identity as configured.
  A `float` is its 4-byte pattern, since this code only moves floats.
- `MESSAGE_SIZE` is the length of a buffer's array and `MAX_FIELDS` a parameter; nothing is proved for
  256 and 32 only.
- Memory read through a pointer is a byte string. A read past it, which C leaves undefined, is the
  explicit result `Overrun` of the reader; a copy past it is excluded by the preconditions `HasRoom`
  and `Readable`, which say what the C code asks of its callers without checking it (`StaysInsideIff` and
  `RunnableIff` say what that is in terms of the calls). The word test of `serialize_data` may look up to three bytes past `data[]`, into struct padding that `create_buffer`
  zeroed; those bytes read as zero.
- Sockets, polls, the serial line and the memory behind a string's end are parameters that may be
  anything. A string's allocation is taken to hold at least 14 bytes after its terminator when it is
  decoded as a ping, which is what the 8-byte load at offset 7 reads.

## What was found to be false, and when it holds

- A field of a copied-by-size type whose first word is below 4 takes the 8-byte word path, which moves 8
  bytes for every 4 it counts. The message stays well framed exactly when the surplus is zero
  (`AppendFramesIff`, with `SmallNumberSpills` as a concrete case). What a reader still reaches depends on
  the terminators alone, over every run (`AnyRunLookup`), and a terminator on what was copied: a published
  field is a bad message exactly when some copy left a nonzero byte on the terminator of a field before it
  and no later copy covered that place (`AnyRunFromCalls`, from the calls alone). A field copied in full
  answers for its own terminator only, so a nonzero byte there hides every later field
  (`SpilledTerminator`); one declared wider than its type depends on what earlier copies left behind their
  own sizes (`BrokenBy`). A zero byte on a spill's own terminator is therefore not enough
  (`ZeroBehindIsNotEnough`); it is if no fixed-width type is declared wider than it is
  (`RuledRunReaches`).
- The comment above the size guard of `serialize_data` says that it makes overflows impossible. It keeps
  an append inside every well-framed buffer that accepts it exactly when the append copies at most one byte
  more than it declares (`StaysInsideIff`); `GuardLetsThrough` is a call that passes the guard and does not
  stay inside. `RunnableIff` gives the condition over any run, spills included.
- A field is not always copied out alone: `get_data` writes past the field's size in the destination
  exactly when a fixed-width type was declared too narrow, or when a copied-by-size field of 4 bytes or
  more and the destination both start with a small word (`ReadBackExactly`, with `SmallNumberReadsOn` as a
  concrete case).
- A message that announces `MAX_FIELDS` fields or more is rejected at every index (`ReaderInverts`),
  although the writer accepts and publishes that many (`MaxFieldsReached`).
- `create_camera_msg` looks up three offsets for four floats, so `dt` is stored over the header. The
  header is intact exactly when `dt` has the header's bytes (`HeaderIntactIff`), the header getters work
  exactly when its first byte is 1 (`CameraHeaderIff`), and the fifth field is never `dt` unless `dt` is
  zero (`CameraFifthField`).
- The comment on `STATE_REQUEST` says that codes may be or-ed together; the handler compares the code
  whole, so such a request does nothing (`CombinedCodesAreIgnored`).
- `quit` throws when a worker was stopped before, because cancelling leaves the record in the map
  (`QuitSucceedsIff`, and `QuitAfterCancelThrows` is such a run).
- `subscribe` looks up the topic but stores under the address. It treats topics as meant exactly under the
  condition of `SubscribeAgreesIff`; `SubscribeLooksUpTheWrongKey` has calls that break it both ways.
- Velocity frames can be torn (`TornFrame`). A frame is one command's pair if as many stores of the one
  velocity precede its load as of the other, and only then where the words of different commands differ.
  Where just the loaded `lin` belongs to a single command, it is that command's pair exactly when the
  command's `ang` is the loaded one, and likewise for `ang` (`UntornIff`). No store between the loads, and
  the first load not between a callback's two stores, is enough (`UntornFrame`, with `TornOnlyIf` the other
  way).
- A ping that gets no answer is not read as an ACK, but a reply of one byte can be: the type is then read
  from the memory behind the string. `AckIff` is the exact condition and `FalseAck` the failing input.
- `serialport_read_until` compares a signed `char` with its `uint8_t` delimiter, so a delimiter of 128 or
  more is never recognised (`DelimiterWorksIff`). And it compares its local byte before anything was read
  into it when the first read brings nothing, so a delimiter that the stack happens to hold ends the line
  at once, empty (`StaleByteEndsLine`; `EmptyLineIff` says when). It works as meant on every line, with any
  room and any positive timeout, exactly when the delimiter is below 128 and is not that byte (`WorksIff`).

## Model

| member | source | states |
|---|---|---|
| Records.ParseEncode | src/messages/data_messages.c:158-234 | the record format is uniquely readable: parsing printed records gives the records back |
| Records.EncodeParse | src/messages/data_messages.c:290-311 | whatever parses as records is exactly what printing them produces |
| DataMessages.CopyWords | src/messages/data_messages.c:213-220 | each of the n / 4 word steps moves 8 bytes; the destination is the old one with that stretch of the source |
| DataMessages.CopyBytes | src/messages/data_messages.c:222-226 | the byte loop moves exactly n bytes |
| DataMessages.CopyBySize | src/messages/data_messages.c:207-228 | both paths bring the first n source bytes to the destination, and nothing outside the moved stretch changes |
| DataMessages.CopyRefinesByteLoop | src/messages/data_messages.c:368-386 | the word path agrees with the byte loop on the first n bytes, and everywhere exactly when the surplus was already there |
| DataMessages.WriteRecord | src/messages/data_messages.c:158-232 | size, type, copied payload and terminator are one contiguous overwrite at the append position |
| DataMessages.DataBuffer.SerializeData | src/messages/data_messages.c:137-238 | the whole struct and array after an append: counters advance, bytes are overwritten; a refused append changes nothing |
| DataMessages.DataBuffer.ToWire | src/messages/data_messages.c:392-414 | only the twelve header bytes change, to the struct's fields |
| DataMessages.DataBuffer.constructor | src/messages/data_messages.c:22-37 | a new buffer is all zero but for a published header of length 13 |
| DataMessages.GetData | src/messages/data_messages.c:240-390 | the returned element and error, and the exact bytes copied to the destination, for any memory and any index |
| DataMessages.HeaderGetters | src/messages/data_messages.c:85-124 | the getters in terms of header bytes 6 to 11; a length above MESSAGE_SIZE or another version reads as 0 |
| DataMessages.HeaderBytes | src/messages/data_messages.c:392-414 | the twelve header bytes one by one, and everything behind them unchanged |
| MessageRuns.AppendFramesIff | src/messages/data_messages.c:151-234 | after an append the buffer is framed if and only if the bytes moved beyond the declared size are zero |
| MessageRuns.AppendKeepsFrames | src/messages/data_messages.c:151-234 | an append that spills nothing leaves exactly the old records plus its own, and a zero tail |
| MessageRuns.FramesUnique | src/messages/data_messages.c:151-234 | a framed buffer holds one list of records only |
| MessageRuns.WalkFinds | src/messages/data_messages.c:287-311 | the walk by index lands on the record of that index, whatever follows the records |
| MessageRuns.ReaderInverts | src/messages/data_messages.c:266-336 | every published index yields its record's size, type and payload; every other index is rejected; MAX_FIELDS or more fields make every index fail |
| MessageRuns.PlainFieldReadBack | src/messages/data_messages.c:334-389 | a field not narrower than its type and off the word path is read back whole |
| MessageRuns.ReadBackExactly | src/messages/data_messages.c:334-389 | exactly what is copied of every field found, when that is the field alone, and when it runs past the field's size |
| MessageRuns.WellDeclaredField | src/messages/data_messages.c:170-229 | the writer moves no more than the declared size exactly when the caller's rule is followed (fixed types at least their width, no small first word in copied types of 4 bytes or more); then nothing spills and the field's value is what the caller passed |
| MessageRuns.RunReflects | src/messages/data_messages.c:137-238 | every reachable buffer is framed by its accepted fields, length 13 plus their records, zero after them, with the header of the last to_wire |
| MessageRuns.RunRoundTrip | src/messages/data_messages.c:137-414 | over any run of appends and publishes, get_data returns exactly the published fields and rejects every other index |
| MessageRuns.WellCalledRoundTrip | src/messages/data_messages.c:137-414 | under a rule on the calls alone (fixed types at least their width, no small first word in copied types of 4 bytes or more, a readable source), over every run, the i-th accepted append comes back with its size, type and exactly the bytes it passed once published, and every other index is rejected |
| TypedFields.CSizedRoundTrip | src/messages/data_messages.c:137-414 | over any run that declares INT32, UINT32, FLOAT as four bytes, INT16, BOOL as two, CHAR, INT8, UINT8, BYTE_TYPE as one, and other types freely off the word path, field k is the k-th append that fitted: found at 13 plus the fields before it, with its size and type, and all bytes passed come back; every other index is rejected |
| TypedFields.FramesInNumbers | src/messages/data_messages.c:170-229 | type by type, after an append the message is framed if and only if the bytes of the C object beyond the declared size are zero, or, for types copied by size, the field is under four bytes, starts with a number of at least 4, or is followed by zeros as far as the word path runs on |
| MessageRuns.StaysInsideIff | src/messages/data_messages.c:146-151 | the size guard keeps an accepted append inside the array of every framed buffer exactly when the copy moves at most one byte more than the declared size; a well-declared field moves no more than that size |
| MessageRuns.GuardLetsThrough | src/messages/data_messages.c:146-220 | a concrete append that passes the guard and is copied past the end of the array |
| MessageRuns.SmallNumberReadsOn | src/messages/data_messages.c:368-386 | a concrete published 8-byte field of which get_data copies 16 bytes |
| MessageRuns.AppendStability | src/messages/data_messages.c:151-164 | appending without publishing changes nothing that a reader sees |
| MessageRuns.HeaderReadBack | src/messages/data_messages.c:85-124 | the length and field-count getters return the values of the last to_wire, the struct's own if nothing was appended since |
| MessageRuns.SmallNumberSpills | src/messages/data_messages.c:209-220 | the 64-bit number 1 followed by a nonzero byte is a concrete append that breaks the framing |
| MessageRuns.MaxFieldsReached | src/messages/data_messages.c:266-275 | wherever they fit, MAX_FIELDS fields are accepted and published, and then every index is rejected |
| SpillRuns.AnyRunLookup | src/messages/data_messages.c:137-390 | over every run, spills included, a published field is found in its place with its size, type and bytes if every terminator before it is intact, and is a bad message otherwise |
| SpillRuns.WrittenIs | src/messages/data_messages.c:158-232 | the terminator an append leaves: zero after an exact copy, the copy's own next byte after a longer one, the old byte after a shorter one |
| SpillRuns.AfterSpill | src/messages/data_messages.c:213-232 | after a spill and any further calls, later fields are all rejected if the byte on its own terminator is nonzero; if it is zero, a later field is reached exactly when the terminators between are intact |
| SpillRuns.SpilledTerminator | src/messages/data_messages.c:302-308 | from create_buffer on, a nonzero byte spilled on a terminator makes get_data reject every later published field, whatever is appended and published after it |
| SpillCauses.RunnableIff | src/messages/data_messages.c:146-234 | whether a run stays inside its objects, and then every byte behind the header and the announced field count, are computed from the calls alone |
| SpillCauses.BrokenIff | src/messages/data_messages.c:158-232 | at the end of a run a terminator is nonzero exactly when some copy left a nonzero byte there and no later one reached it |
| SpillCauses.BrokenBy | src/messages/data_messages.c:170-232 | field by field: copied exactly, the terminator is intact; copied longer, its own next byte decides; declared wider, it is intact if and only if no nonzero surplus byte of an earlier copy lies there |
| SpillCauses.AnyRunFromCalls | src/messages/data_messages.c:137-390 | over every run, get_data's result and the bytes it copies are computed from the calls; a published field is a bad message if and only if a copy broke the terminator of a field before it |
| SpillCauses.RuledRunReaches | src/messages/data_messages.c:137-390 | if no fixed-width type is declared wider than it is and the byte behind every declared size is zero, every terminator is intact and no published field is a bad message, spills or not |
| SpillCauses.ZeroBehindIsNotEnough | src/messages/data_messages.c:209-232 | a run whose spill leaves its own terminator zero and breaks that of the next field, declared wider than its type, so that the third is rejected |
| MessageImages.StoreRewritesPayload | src/messages/rmt_messages.c:31-39 | a store through a cached offset rewrites that record's payload in the whole buffer and nothing else |
| MessageImages.CachedOffsetRefinesWalk | src/messages/rmt_messages.c:20-47 | the cached offset is the one the walk finds, and both give the same value, on any memory that starts with the message |
| MessageImages.OnlyPayloadsDiffer | src/messages/rmt_messages.c:121-136 | two messages of the same type codes agree on header, sizes, codes and terminators |
| MessageImages.MessageLoads | src/messages/rmt_messages.c:138-147 | the first byte_length bytes are enough to load every field |
| MessageImages.HeaderIntactIff | src/messages/rmt_messages.c:218-224 | storing a word at offset 0 leaves a data packet's header if and only if the word is that header's start |
| RmtMessages.CmdVel.constructor | src/messages/rmt_messages.c:9-29 | the message is built, published and its two offsets cached |
| RmtMessages.CmdVel.ToWire | src/messages/rmt_messages.c:31-39 | the whole buffer becomes the message that carries lin and ang |
| RmtMessages.CmdVel.FromWire | src/messages/rmt_messages.c:41-47 | lin and ang become the words at the cached offsets |
| RmtMessages.CmdVelCarried | src/messages/rmt_messages.c:31-47 | what one side stores the other loads, from byte_length bytes on, by offset and by walk alike |
| RmtMessages.PathState.ToWire | src/messages/rmt_messages.c:121-136 | the whole buffer becomes the message that carries the five state words |
| RmtMessages.PathState.FromWire | src/messages/rmt_messages.c:138-147 | the five state words become the words at the cached offsets |
| RmtMessages.SensorMsg.FromWire | src/messages/rmt_messages.c:291-304 | the message type is recognised, or -1 with the type unchanged |
| RmtMessages.TeensySensorArray.ToWire | src/messages/rmt_messages.c:177-191 | the whole buffer becomes the message that carries the type, v, w and dt |
| RmtMessages.TeensySensorArray.FromWire | src/messages/rmt_messages.c:193-207 | the fields are loaded exactly when the type matches, otherwise -1 and unchanged |
| RmtMessages.CameraMsg.ToWire | src/messages/rmt_messages.c:211-227 | type, x, y and theta reach their payloads and dt the first four header bytes |
| RmtMessages.CameraMsg.FromWire | src/messages/rmt_messages.c:229-244 | x, y, theta and dt are loaded from where they were stored exactly when the type matches |
| RmtMessages.CameraHeaderIff | src/messages/rmt_messages.c:246-273 | the header getters read a camera message correctly exactly when dt's first byte is 1 |
| RmtMessages.CameraFifthField | src/messages/rmt_messages.c:255-272 | the walk's fifth field equals dt exactly when dt is zero |
| WireBytes.CmdVelBytes | src/messages/rmt_messages.c:9-39 | the 27 bytes of a cmd_vel message, written out |
| WireBytes.TeensyBytes | src/messages/rmt_messages.c:151-191 | the 41 bytes of a teensy message, written out |
| WireBytes.CameraBytes | src/messages/rmt_messages.c:211-289 | the 48 bytes of a camera message, written out, with dt over the header |
| WireBytes.PathBytes | src/messages/pipe/Simple_Localizer.cpp:45-58 | the 48 bytes that the localizer sends, written out |
| WireBytes.PingBytes | src/messages/ping_message.c:85-112 | the bytes of a ping packet, little-endian field by field |
| WireBytes.DecodedBytes | src/messages/ping_message.c:29-83 | the getters in terms of the memory's bytes: nothing of a foreign version, types above 8 read as 0 |
| PingMessage.ToWirePing | src/messages/ping_message.c:85-111 | the packet is the little-endian layout of the fields; a null buffer is EINVAL |
| PingMessage.SerializeFromPing | src/messages/ping_message.c:113-133 | the fields become what the version-switched getters read; null arguments are EINVAL and change nothing |
| PingMessage.TruncatedPing | src/messages/ping_message.c:29-83 | eleven transmitted bytes fix type, code, checksum and the low half of the excess; the high half is whatever memory follows |
| PingMessage.WholePing | src/messages/ping_message.c:85-133 | decoding a whole encoded packet gives it back |
| Checksum.CreateChecksum | src/messages/checksum.c:15-29 | the nested loops count the set bits of the whole buffer, modulo 2^16 |
| Checksum.ValidateChecksum | src/messages/checksum.c:32-36 | valid exactly when the given checksum is the bit count modulo 2^16 |
| Checksum.CountConcat | src/messages/checksum.c:15-29 | the count is additive over concatenation |
| Checksum.CountPermuted | src/messages/checksum.c:15-29 | the count does not change when bytes are reordered |
| Checksum.DetectedIff | src/messages/checksum.c:32-36 | a corruption passes exactly when as many bits were raised as lowered, modulo 2^16 |
| Checksum.SingleBitDetected | src/messages/checksum.c:32-36 | every single-bit error in any buffer is detected |
| SimpleLocalizer.Localizer.Convert | src/messages/pipe/Simple_Localizer.cpp:22-61 | the state is updated by the message's type word, the string becomes the encoded new state, the result is 1 for type word 1, 2 for 2, and otherwise -1 with the state unchanged |
| SimpleLocalizer.DecodedEffect | src/messages/pipe/Simple_Localizer.cpp:29-43 | decoding what a sender encoded changes the state by what the sender meant and returns its type; a message whose type word is neither 1 nor 2 changes nothing and returns -1 |
| SimpleLocalizer.LatestWins | src/messages/pipe/Simple_Localizer.cpp:22-76 | after any run the pose is the latest camera message's and the velocities the latest teensy message's, zero if none |
| SimpleLocalizer.OutputDecodes | src/messages/pipe/Simple_Localizer.cpp:45-58 | any reader of the output gets the state back, by walk and by cached offset |
| SimpleLocalizer.StreamDecodes | src/messages/pipe/Simple_Localizer.cpp:22-76 | what any reader decodes from the k-th output is the latest camera pose and the latest teensy velocities among the first k + 1 messages |
| SimpleLocalizer.Filter | src/messages/pipe/Simple_Localizer.cpp:22-61 | run over a stream, the k-th output encodes the state after k + 1 messages |
| KermitKernel.Kernel.RobotPingHandler | src/kernel/KermitKernel.cpp:117-146 | the reply is a plain ACK and the gate and velocities change as the request's verdict says |
| KermitKernel.Kernel.MoveToMineHandler | src/kernel/KermitKernel.cpp:199-215 | combined flags are settled by overwrite order |
| KermitKernel.Kernel.CleanExitHandler | src/kernel/KermitKernel.cpp:253-266 | combined flags are settled by overwrite order |
| KermitKernel.Kernel.DriveMessageSubscribeCallback | src/kernel/KermitKernel.cpp:39-68 | the velocities become the message's through an open gate and zero through a closed one |
| KermitKernel.Kernel.LocalizerCmdGetData | src/kernel/KermitKernel.cpp:70-91 | what is published is the teensy message of the measured values that the localizer's filter decodes |
| KernelHistory.OpensIff | src/kernel/KermitKernel.cpp:199-266 | exactly which requests enable driving |
| KernelHistory.ClosesIff | src/kernel/KermitKernel.cpp:148-266 | exactly which requests disable driving |
| KernelHistory.GateIsLastAssignment | src/kernel/KermitKernel.cpp:117-266 | for every code, state and excess: the gate becomes the value of the last assignment in source order whose flag is set, unchanged if none is; the velocities change for STOP_EVERYTHING alone, to zero |
| KernelHistory.GateIsLastVerdict | src/kernel/KermitKernel.cpp:117-266 | after any history receiving_cvels holds exactly when the last decisive ping was an enabling one |
| KernelHistory.CombinedCodesAreIgnored | src/kernel/KermitKernel.cpp:122-144 | a code can change some state with some excess exactly when it is one of the seven |
| KernelHistory.VelocityProvenance | src/kernel/KermitKernel.cpp:39-68 | the stored velocities are always the contribution of the latest cmd_vel or STOP_EVERYTHING |
| KernelHistory.OneDriveAfterCloseStops | src/kernel/KermitKernel.cpp:39-68 | after a closing ping and no enabling one since, a single cmd_vel leaves the robot at zero with the gate closed |
| KernelHistory.MovingNeedsOpenThenDrive | src/kernel/KermitKernel.cpp:39-68 | from standstill with a closed gate, only an enabling ping followed by a cmd_vel moves the robot, at that cmd_vel's velocity |
| KernelHistory.TransmittedBytesDecide | src/control/RMTControlClient.cpp:76-113 | the eleven transmitted bytes alone decide the handler's effect |
| VelocitySender.RefinesKernel | src/kernel/KermitNetworkInterface.cpp:133-139 | store by store, with the sender in between, the callbacks do what the atomic state machine does |
| VelocitySender.FrameComponents | src/kernel/KermitNetworkInterface.cpp:75-84 | no frame carries anything but zero and components of delivered cmd_vels, in any interleaving |
| VelocitySender.QuietAfterStop | src/kernel/KermitNetworkInterface.cpp:75-84 | a frame whose loads follow a completed STOP_EVERYTHING and precede the next enabling ping carries (0, 0) |
| VelocitySender.QuietAfterClose | src/kernel/KermitNetworkInterface.cpp:75-84 | after any closing ping and one finished velocity callback, every frame loaded before the next enabling ping carries (0, 0) |
| VelocitySender.EverySendHasLoads | src/kernel/KermitNetworkInterface.cpp:76-79 | every frame has one load of each velocity since the frame before it |
| VelocitySender.FrameSources | src/kernel/KermitNetworkInterface.cpp:76-79 | a frame's words are those of the commands whose stores came last before its two loads |
| VelocitySender.UntornIff | src/kernel/KermitNetworkInterface.cpp:76-79 | a frame is one command's pair if equally many stores of both velocities precede its loads, only then where the words of different commands differ, and, where the loaded lin (or ang) belongs to one command only, exactly when that command's ang (or lin) is the loaded one |
| VelocitySender.UntornFrame | src/kernel/KermitNetworkInterface.cpp:76-79 | with no store between the loads, and the first not between two stores, the frame is the pair in memory, the atomic kernel's own when no callback is in progress |
| VelocitySender.TornOnlyIf | src/kernel/KermitNetworkInterface.cpp:76-79 | a frame of two commands had its second component stored between the loads, or its first load between a callback's stores |
| VelocitySender.TornFrame | src/kernel/KermitNetworkInterface.cpp:76-79 | a run in which one frame mixes two cmd_vels |
| ControlClient.Client.ConcurrentRequest | src/control/ZMQControlClient.cpp:295-347 | for every pattern of polls: it ends, sends and polls equally often and at most three times, misuses no socket, returns the reply to the first attempt that gets one, or "No response", and leaves a fresh client |
| ControlClient.Client.Request | src/control/ZMQControlClient.cpp:120-129 | with no client the reply is empty; otherwise that of the first answered attempt, or "No response", and the client stays usable |
| ControlClient.OutcomeIs | src/control/ZMQControlClient.cpp:307-347 | whichever attempt is answered, that answer is the outcome and no attempt follows; "No response" after three without one |
| ControlClient.NeverBroken | src/control/ZMQControlClient.cpp:307-338 | a log that ends in a sound socket never sent twice without a receive at any point |
| ControlClient.RmtControlClient.PingEndpoint | src/control/RMTControlClient.cpp:34-65 | eleven bytes are sent and the result is the decoding of the memory of whichever reply came, all zero without one |
| ControlClient.RmtControlClient.PingServerCallback | src/control/RMTControlClient.cpp:76-113 | once its handler is registered the kernel makes the step of whatever ping the string decodes to, otherwise none, and the reply carries the callback's answer or the default ACK |
| ControlClient.RmtControlClient.RegisterPingFunc | src/control/RMTControlClient.cpp:116-129 | the first registration of a type wins |
| ControlClient.AckIff | src/control/RMTControlClient.cpp:48-65 | without a reply the result is the all-zero ping; its type is ACK if and only if a version-1 reply came whose third byte is ACK, or which is one byte long with ACK in the memory behind its terminator |
| ControlClient.FalseAck | src/control/RMTControlClient.cpp:48-65 | a one-byte reply that is read as an ACK |
| ControlClient.PingThereAndBack | src/control/RMTControlClient.cpp:34-113 | over both truncated strings the kernel does what the whole ping asked and the sender reads back an ACK |
| ControlClient.RetriedPingAcked | src/control/ZMQControlClient.cpp:307-347 | a ping is acknowledged whichever of the three attempts the server's reply answers |
| ServerProxy.Relay | src/messages/pipe/ZMQServerProxy.cpp:57-66 | one pass of the loop moves exactly one whole message, parts and more-flags unchanged |
| ServerProxy.Proxy.Spin | src/messages/pipe/ZMQServerProxy.cpp:46-79 | a spin forwards at most one message in each direction and leaves the rest waiting |
| ServerProxy.Conservation | src/messages/pipe/ZMQServerProxy.cpp:46-79 | over any run the sent frames are those of the first messages that arrived, cut between messages, and the rest still waits |
| ServerProxy.SpinsDeliver | src/messages/pipe/ZMQServerProxy.cpp:54-79 | no spin idles while a message waits: m spins deliver m messages, or all there are |
| PubSubProxy.Proxy.Spin | src/messages/pipe/ZMQPubSubProxy.cpp:48-76 | one message out for each in, topic unchanged, payload the in-order fold of the filters or untouched while a filter is added |
| PubSubProxy.ChainOrder | src/messages/pipe/ZMQPubSubProxy.cpp:59-61 | filter k sees what the filters before it made of the message, once and with its own state, and the last one's output is sent |
| PubSubProxy.Pipeline | src/messages/pipe/ZMQPubSubProxy.cpp:59-61 | interleaving stateful filters message by message equals running the stream through one part of the chain and then the other |
| PubSubProxy.Drain | src/messages/pipe/ProxyInterface.cpp:73-96 | over a whole run the outputs are one for one, in order, with their topics |
| Workers.ThreadSpace.Launch | include/scpp/control/ZMQControlClient.hpp:203-215 | create_socket hands an existing record back, so a worker starts exactly when the key is new and the second get_future of a record throws |
| Workers.ThreadSpace.SubscribeTo | src/control/ZMQControlClient.cpp:180-208 | it throws exactly on a new topic at a used address, leaving that record with a socket no thread owns and all others alone |
| Workers.SubscribeAgreesIff | src/control/ZMQControlClient.cpp:185-192 | after any run the registry's keys are the subscribed addresses, and a call refuses exactly the subscribed topics if and only if the topic is subscribed just when it is an address, and a new topic's address is unused |
| Workers.ThreadSpace.CancelWorker | src/control/ZMQControlClient.cpp:210-221 | signal and join once, throw the second time, and keep the record |
| Workers.ThreadSpace.QuitAll | src/control/ZMQControlClient.cpp:26-39 | quit signals and joins every worker, in any map order, or throws with the earlier registries stopped, the failing one partly and the later ones untouched |
| Workers.KeysAreRegistered | src/control/ZMQControlClient.cpp:71-271 | a registry's keys are those of all start calls, and the addresses of subscriptions to topics that were no subscribed address; nothing is ever lost, cancelled or not |
| WorkerAnswers.StartAnswers | src/control/ZMQControlClient.cpp:71-256 | after any run, serve, bind_server, request and publish answer true exactly if no earlier call started that key, cancelled or not |
| WorkerAnswers.CancelAnswers | src/control/ZMQControlClient.cpp:99-280 | the cancels answer false exactly if no earlier call named the key, and throw exactly if it was cancelled or quit after it was named |
| WorkerAnswers.SubscribeAnswers | src/control/ZMQControlClient.cpp:180-208 | subscribe answers false exactly if the topic is an address subscribed before, and throws exactly if only the address is |
| WorkerAnswers.QuitAnswers | src/control/ZMQControlClient.cpp:26-39 | quit throws exactly if some key was cancelled or quit after it was named |
| WorkerAnswers.WorkersAre | src/control/ZMQControlClient.cpp:26-280 | there is one worker for every key named, signalled and joined once if it was ended and never otherwise |
| Workers.QuitSucceedsIff | src/control/ZMQControlClient.cpp:26-39 | quit succeeds after a run exactly when nothing was stopped before |
| Workers.QuitAfterCancelThrows | src/control/ZMQControlClient.cpp:26-39 | starting a client, cancelling it and quitting is an accepted run whose quit throws |
| Workers.QuitStopsEachOnce | src/control/ZMQControlClient.cpp:26-39 | one quit after accepted starts finds exactly the workers those calls registered, each never signalled or joined before, and signals and joins each once |
| Locks.MutualExclusion | src/control/NetworkPatterns.cpp:84-93 | in every reachable state of any number of threads at most one holds the callback mutex and at most one the guard |
| Locks.NoDeadlock | src/control/NetworkPatterns.cpp:171-180 | whenever a thread is busy some busy thread can step |
| Locks.StepUsesWork | src/control/NetworkPatterns.cpp:84-93 | every step of every schedule uses up one unit of the remaining work |
| Locks.EveryoneFinishes | src/kernel/KermitNetworkInterface.cpp:133-152 | from every reachable state the remaining work drains and every thread is idle again |
| Serial.Port.SerialportRead | src/kernel/serial.c:140-162 | when it succeeds, fails or times out, on which read, and the exact buffer: a read that brings nothing leaves a gap |
| Serial.Port.SerialportReadUntil | src/kernel/serial.c:165-194 | the loop with its signed comparison ends on every line, with the return value, position and whole buffer of the recursive definition |
| Serial.UntilCall | src/kernel/serial.c:165-194 | the stored bytes are the received ones without gaps; a delimiter below 128 occurs only last, one of 128 or more never stops the loop |
| Serial.StopReasons | src/kernel/serial.c:172-190 | for a delimiter below 128 and a positive timeout, a call that leaves room in the buffer returns a line if and only if the delimiter is stored last, or nothing is stored because the first read brought nothing and the uninitialised byte was the delimiter |
| Serial.EmptyLineIff | src/kernel/serial.c:172-190 | exactly when an empty line is returned with room and time left, for every delimiter |
| Serial.DelimiterWorksIff | src/kernel/serial.c:172-190 | for every delimiter of 128 or more a concrete line on which it is stored before the last byte; below 128 it is not |
| Serial.StaleByteEndsLine | src/kernel/serial.c:172-190 | a silent line is returned as an empty one after its first read when the uninitialised byte is the delimiter |
| Serial.WorksIff | src/kernel/serial.c:165-194 | on all lines, with any room and positive timeout, every returned line is full or ends at its first delimiter, if and only if the delimiter is below 128 and differs from the uninitialised byte |
| Serial.TeensyDevice.SendDrive | src/kernel/serial.c:221-246 | the frame is 'd', the two words, newline, zero |
| Serial.TeensyDevice.ReadTeensyResponse | src/kernel/serial.c:248-276 | the outputs change exactly on seventeen bytes in a row that start with 'r', and then to its four floats |

## Left out

- ZeroMQ, termios, OpenCV, AprilTag and wiiuse calls: foreign code, seen here as queues, poll outcomes and read outcomes.
- Real time (periods, sleeps, linger): no property needs it; thread steps are untimed.
- Tearing of a single float: a 4-byte aligned load or store is one step, as on x86_64.
- `get_opcode_impl` and `get_checksum_impl`: the first returns 0 for every defined opcode; the header theorems cover version, length and field count.
- `teensy_msg`: its second field is declared two bytes for a 4-byte float; `AppendFramesIff` says what such a declaration does.
- The word path's reads past a short source (`*sourcel` for fields below four bytes): they cannot change the result.
- `create_buffer` and the message functions on null structs (the process exits or the behaviour is undefined).
- `ping_server_callback`'s INVALID_REQUEST branch: a string's address is never null, so it cannot be reached.
- Workers: runs end at the first call that throws; what that call leaves behind is in the methods' contracts.
- KermitKernel.Kernel: the constructor does not start its server thread or register its ping handler; `PingServerCallback` says what happens with and without the registration.
- Locks: the registration lock of `register_ping_func` is taken alone, during construction only, and is not in the thread model.
- PubSubProxy.Proxy: filters are total functions of their state and the message; the localizer's own preconditions on string length are stated in `SimpleLocalizer`.
- `wiimote.cpp` and `clamp`/`zero_rounding`: a velocity ramp in floats; easy members beside these.
- One-shot `publish`, `PipeInterface`, `ProxyInterface` pause and kill, the bit-swapping and size helpers of `data.c`, logging and command lines: glue, or unused on the message path.
