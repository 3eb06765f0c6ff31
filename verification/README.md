# A verified model of the voice and device servers

A Dafny model of the parts of this repository whose correctness is not visible from reading one
function, with proofs of what those parts are for. `dafny verify dfyconfig.toml` checks all of it.

## What is modelled

**CRC32C** (`Crc32cTables`, `Crc32cBits`, `Crc32c`). The four literal tables, the table steps and the
four loops of `Extend`. The method equals a one-bit-at-a-time shift register for every buffer, start
value and start address; the register is in turn the long division by the Castagnoli polynomial that
section 12.1 of RFC 3720 prescribes. The tables are not taken on trust: all 1024 literals are proved
to be 8, 16, 24 and 32 shifts of their index. On top of that: the error-detection promise.

**Times and the push-message timer queue** (`UTimes`, `TimerQueue`, `Conversation`, `ConversationRuns`). 32-bit times with
their wrap-around and the uncarried full second; the deadline multimap and the index into it as a
class; and the whole request/reply conversation of the dispatcher - handlers, device replies, the timer
thread with its sleeping and waking, shutdown, a clock that may jump - as a state machine that
interleaves at every release of the queue's lock and at every send. `Conversation.Apply` is the step
function (`dispatcher.cc:274-293`, `444-552`, `566-670`; `push_msg_timer_queue.cc:50-186`).
`SetPhase`, `Due`, `Answered` and the `req` tag of a reply are bookkeeping the program does not have;
the invariants connect it to the queue and to what is written to the sockets.

**The configuration file** (`Strings`, `ConfigFile`, `ConfigLines`, `ConfigExact`, `ConfigRoundTrip`,
`ConfigLastLine`, `ConfigMarkers`, `ConfigLaws`). `operator>>` with its read-ahead over a `std::istream`'s end-of-file and
fail bits, `operator<<`, and `Trim`. The reader is shown to work line by line, the maps that survive writing
and reading are characterised exactly, and with plain markers they are just the ones the reader produces.

**Wire integers and TLV messages** (`Coding`, `Tlv`, `Framing`, `FramingProofs`). Fixed-width and
variable-length integers, the packers, the header parse of `HandleMsg`, and the frame splitter with its
real fixed buffer, stale bytes included. `Framing.Pass` is one run of the parse loop and
`Framing.Callback` one read callback; the methods of `Framing.Connection` are proved to compute them,
and `FramingProofs` says what they mean for whole streams.

**Connection hand-off** (`ConnQueue`, `HandOff`). The intrusive linked queues and free list on the heap,
with every item in exactly one place; and the interleaving of the dispatching thread with the workers
over the notify pipes as a state machine (`HandOff.Apply`; `worker_threads.cc:124-155` and `352-374`).
`ConnQueue.Items.Dispatch` and `ConnQueue.Items.Process` do to the connections waiting in the heap queues what
the state machine does to its sequences.

**CRLF framing** (`Crlf`). `SplitData`, `JoinListByDelimiter` and the read callback that uses
`find_last_of`.

**The voice channel table** (`VoiceChannel`). The client map and the device multimap.

`Machine` holds the integer widths and an option type. Unsigned 32-bit arithmetic is written as
arithmetic modulo 2^32; the CRC works on bit vectors.

## Where the code does something else than one would expect

These are consequences of the code as it stands. The model follows the code and the lemmas named here
say exactly when it does what is wanted.

- `normalize` tests with `>`, so 1000000000 nanoseconds is a normalized value. Adding and subtracting
  returns the first time exactly when such a full second was not added to (`UTimes.PlusThenMinus`).
- An id already in use is refused by `events_` but not by `schedule_`, the assertion being compiled out
  (`voice_server/makefile:21`). `TimerQueue.AddKeepsValid` says that the two stay in step exactly for an
  unused id. The counter provides one until it wraps: `Conversation.ShortRunsAreLegal`.
- A client's reply has the request's own type unless a device answers with the other kind of message,
  which nothing checks (`Conversation.AtMostOneOwnReply`, `Conversation.OtherTypeOccurs`).
- The heartbeat reply declares 32 of its 36 bytes (`Tlv.PackHeartBeatRespMsg`). The start-send and
  send-voice replies carry their code in the length field, so they parse exactly for code 0
  (`Tlv.RespWithoutLength`).
- The `continue` at `voice_server/src/worker.cc:152` goes round the parse loop without reading. A
  message whose body has not arrived in full is never waited for (`FramingProofs.PassSpins`).
- With 8 to 11 bytes received, the missing bytes of the length field are read as those of the last
  message handled, or as 0 before the first. So the first 8 bytes of a connection close it, and 9 bytes can
  (`FramingProofs.PartExits`, `FramingProofs.FirstBytes`). A full buffer that ends 9 bytes into a message
  can lose the connection (`FramingProofs.CallbackExact`).
- `find_last_of("\r\n")` finds either character. A callback loses nothing exactly when no lone one of
  them follows the last pair (`Crlf.LosslessExactly`, `Crlf.CutPairLosesLine`), and a stream of messages
  exactly when no chunk both completes a line and ends inside a pair (`Crlf.MessagesArrive`).
- A device that reconnects leaves its earlier entry in front, so the pair has to hang up once for every
  entry (`VoiceChannel.ConnectSpec`, `VoiceChannel.HangUpsNeeded`).
- A continuation line that ends a configuration file without a newline is taken twice
  (`ConfigLastLine.FinalNewlineMatters`).
- The constructor takes any markers, and which maps survive depends on them: `ConfigExact.RoundTripExactly`,
  `ConfigRoundTrip.BlankMarkerRoundTrip` and `ConfigMarkers` say which. With a plain delimiter and comment
  marker every file that was read does (`ConfigRoundTrip.RewritingIsHarmless`); with a comment marker that begins with
  a blank not every one (`ConfigMarkers.WhiteMarkerLoses`).

## Model

| member | source | states |
|---|---|---|
| `Crc32c.Extend` | voice_server/util/crc32c.cc:278-321 | For every start value, buffer and start address the four loops return the bit-serial CRC32C |
| `Crc32c.Step1Feeds` | voice_server/util/crc32c.cc:283-286 | One table step on a byte is eight steps of the shift register |
| `Crc32c.Step4IsFourStep1` | voice_server/util/crc32c.cc:287-294 | One step over all four tables is four single-byte steps |
| `Crc32cTables.Table0IsShifts` | voice_server/util/crc32c.cc:8-73 | Every literal of the first table is its index after 8 register shifts under 0x82f63b78 |
| `Crc32cTables.Table1IsShifts` | voice_server/util/crc32c.cc:74-139 | Every literal of the second table is its index after 16 shifts |
| `Crc32cTables.Table2IsShifts` | voice_server/util/crc32c.cc:140-205 | Every literal of the third table is its index after 24 shifts |
| `Crc32cTables.Table3IsShifts` | voice_server/util/crc32c.cc:206-271 | Every literal of the fourth table is its index after 32 shifts |
| `Crc32c.CrcIsComplementedRemainder` | voice_server/util/crc32c.h:15-18 | The CRC of a message is the complement of the remainder of the polynomial division of section 12.1 of RFC 3720, bit by bit |
| `Crc32cBits.FeedDivides` | voice_server/util/crc32c.cc:283-286 | For any register and message, the register ends holding the remainder of the dividend modulo the Castagnoli polynomial |
| `Crc32cBits.PolyIsG` | voice_server/util/crc32c.cc:8-73 | The constant behind the tables has exactly the coefficients of the Castagnoli polynomial |
| `Crc32cBits.CrcOfConcatenation` | voice_server/util/crc32c.h:10-13 | Extending the CRC of one string by another gives the CRC of their concatenation |
| `Crc32cBits.FeedIsLinear` | voice_server/util/crc32c.cc:283-294 | The update is linear over exclusive or in register and message together |
| `Crc32cBits.FeedIsInjective` | voice_server/util/crc32c.cc:283-321 | For any fixed data different registers stay different |
| `Crc32cBits.BurstIsSeen` | voice_server/util/crc32c.cc:283-321 | Messages that differ, and only within 32 consecutive bits, end in different registers |
| `Crc32cBits.FourByteWindowIsSeen` | voice_server/util/crc32c.cc:278-321 | Messages that differ, and only within four consecutive bytes, have different CRCs |
| `Crc32c.MaskRoundTrip` | voice_server/util/crc32c.h:27-36 | Mask and Unmask are inverse to each other on all 32-bit values |
| `Crc32c.MaskRotates` | voice_server/util/crc32c.h:20-30 | Masking is rotating right by 15 places, done one place at a time, and adding 0xa282ead8 |
| `UTimes.TimeCell.constructor` | voice_server/util/utime.h:33-33 | A time made from seconds and nanoseconds is normal, and the same time unless the seconds wrap |
| `UTimes.TimeCell.NormalizeInPlace` | voice_server/util/utime.h:22-29 | The time becomes normal and keeps its total, less 2^32 seconds exactly if carrying wraps the seconds |
| `UTimes.NormalizeSpec` | voice_server/util/utime.h:22-29 | For every argument the result is normal, has the same total up to a wrap of the seconds, and is the argument exactly if that was normal |
| `UTimes.TimeCell.PlusAssign` | voice_server/util/utime.h:46-53 | The assigning addition leaves what the free addition returns |
| `UTimes.TimeCell.MinusAssign` | voice_server/util/utime.h:66-72 | The assigning subtraction borrows, but does not normalize |
| `UTimes.PlusCarries` | voice_server/util/utime.h:81-84 | The sum of normalized times is normalized, and carries 0, 1 or 2 seconds |
| `UTimes.PlusIsExact` | voice_server/util/utime.h:81-84 | Addition preserves total nanoseconds exactly when the seconds do not overflow |
| `UTimes.MinusIsExact` | voice_server/util/utime.h:86-90 | The difference of normalized times is normalized, and is the difference of their totals exactly when the second is not after the first |
| `UTimes.PlusThenMinus` | voice_server/util/utime.h:81-90 | (a+b)-b is a exactly when a is not a full uncarried second with something added to its nanoseconds |
| `UTimes.MinusFormsAgree` | voice_server/util/utime.h:66-90 | The assigning and the free subtraction never differ on normalized times; on others they agree exactly when the two nanosecond counts are at most a second apart |
| `UTimes.LessIsStrictTotal` | voice_server/util/utime.h:92-115 | The order is irreflexive, transitive, total and asymmetric on all times |
| `UTimes.LessFollowsTotal` | voice_server/util/utime.h:97-100 | On normalized times the order follows total nanoseconds; ties are only the two readings of a full second |
| `TimerQueue.PushMsgTimerQueue.constructor` | voice_server/src/push_msg_timer_queue.cc:36-40 | The queue starts empty, in step and not stopped |
| `TimerQueue.PushMsgTimerQueue.AddEventAt` | voice_server/src/push_msg_timer_queue.cc:60-76 | Adds exactly this context under this deadline, keeps map and multimap in step exactly for an unused id, and signals exactly when the deadline is before all others |
| `TimerQueue.PushMsgTimerQueue.CancelEvent` | voice_server/src/push_msg_timer_queue.cc:78-103 | Removes exactly the context with that id, or nothing, and keeps both containers in step |
| `TimerQueue.PushMsgTimerQueue.GetAndCancelEvent` | voice_server/src/push_msg_timer_queue.cc:105-127 | Returns the context held under the id and removes it, or reports that there is none |
| `TimerQueue.PushMsgTimerQueue.Shutdown` | voice_server/src/push_msg_timer_queue.cc:134-143 | Sets the stop flag and nothing else, and signals |
| `TimerQueue.PushMsgTimerQueue.RunStretch` | voice_server/src/push_msg_timer_queue.cc:152-177 | Completes exactly if something is due, and then an earliest context and it alone; with none due leaves exactly if told to stop, and otherwise sleeps until the earliest deadline held, or without bound on an empty queue |
| `TimerQueue.StretchSpec` | voice_server/src/push_msg_timer_queue.cc:152-177 | The same of the step as a function, as the runs use it |
| `TimerQueue.AddKeepsValid` | voice_server/src/push_msg_timer_queue.cc:60-76 | The one-to-one correspondence survives an addition exactly when the id is the context's own and unused |
| `TimerQueue.AddHolds` | voice_server/src/push_msg_timer_queue.cc:65-66 | An addition adds the given context and loses none |
| `TimerQueue.CancelSpec` | voice_server/src/push_msg_timer_queue.cc:84-103 | Cancelling keeps the correspondence and removes exactly the contexts with that id |
| `TimerQueue.LookupSpec` | voice_server/src/push_msg_timer_queue.cc:110-122 | A lookup finds the context with that id, and nothing only if none is held |
| `TimerQueue.PopSpec` | voice_server/src/push_msg_timer_queue.cc:154-163 | What the timer takes is an earliest context, and erasing by its own id is cancelling it |
| `TimerQueue.FirstIsEarliest` | voice_server/src/push_msg_timer_queue.cc:66-73 | The test that triggers the signal is true exactly for a deadline before all others |
| `TimerQueue.HeldOnce` | voice_server/src/push_msg_timer_queue.cc:47-48 | No two held contexts have one message id, and the index finds each |
| `Conversation.StepOk` | voice_server/src/push_msg_timer_queue.cc:60-186 | Every step of handlers, devices, timer thread, clock and shutdown keeps the whole invariant |
| `Conversation.AlwaysInv` | voice_server/src/push_msg_timer_queue.cc:60-186 | The invariant holds in every state of every run |
| `Conversation.AlwaysCorrespond` | voice_server/src/push_msg_timer_queue.cc:60-186 | In every run map and multimap correspond one to one and hold exactly the contexts of the requests waited for |
| `Conversation.NoLostWakeUp` | voice_server/src/push_msg_timer_queue.cc:134-177 | Whenever the timer thread sleeps unsignalled, no stop is pending and it wakes at or before every deadline; without bound only if the queue is empty |
| `Conversation.AddKeepsSleep` | voice_server/src/push_msg_timer_queue.cc:66-75 | Signalling only for a new first entry loses no wake-up |
| `Conversation.OneFate` | voice_server/src/push_msg_timer_queue.cc:84-163 | From any moment a request waits to any later one: it still waits, or left the queue once - cancelled, answered by the device, or timed out at its own deadline - with exactly one reply once answered |
| `Conversation.NoneBeforeDeadline` | voice_server/src/push_msg_timer_queue.cc:151-167 | No context is completed before the clock has shown a time at or after its deadline |
| `Conversation.AtMostOneOwnReply` | voice_server/src/dispatcher.cc:444-670 | In every interleaving each request gets at most one reply, on its own socket with its own message id |
| `Conversation.OtherTypeOccurs` | voice_server/src/dispatcher.cc:640-661 | Any forwarded request can be answered with the other request's type: the run that does it |
| `Conversation.RunAdvances` | voice_server/src/dispatcher.cc:274-293 | Over any run a request keeps its identity and its context, and only moves forward through its phases |
| `ConversationRuns.OutcomeTellsHistory` | voice_server/src/dispatcher.cc:274-293 | In every run a request's outcome is an error exactly if it was refused or its send failed, its message is out exactly if a send succeeded, and it is filed exactly if its event was added |
| `ConversationRuns.RefusedForGood` | voice_server/src/dispatcher.cc:281-286 | A request refused, or whose forward failed, is answered with the error and never with anything else |
| `ConversationRuns.RequestsAreArrivals` | voice_server/src/dispatcher.cc:444-498 | In every run the requests are the arrivals, in order, each with its own message id, socket and kind |
| `ConversationRuns.CancelTakesOne` | voice_server/src/push_msg_timer_queue.cc:84-103 | Cancelling takes exactly the context waiting under the id out, unanswered; under any other id it changes nothing |
| `ConversationRuns.StoppedExactly` | voice_server/src/push_msg_timer_queue.cc:134-187 | In every run the queue is stopped exactly by a shutdown, and the timer thread has left only if it is |
| `ConversationRuns.SignalsExactly` | voice_server/src/push_msg_timer_queue.cc:66-75 | An added event signals the sleeping thread exactly if it is due before all others; a shutdown always does |
| `ConversationRuns.RunTimerSpec` | voice_server/src/push_msg_timer_queue.cc:149-177 | What the timer thread does when it runs: leave, complete an earliest due context and it alone, or sleep until the earliest deadline - and exactly when |
| `ConversationRuns.FinishSpec` | voice_server/src/push_msg_timer_queue.cc:165-168 | Completing writes the timeout reply from the context, answers its request, and keeps the clock reading of the round |
| `ConversationRuns.TimeoutsWereShown` | voice_server/src/push_msg_timer_queue.cc:151-163 | A request times out only on a reading the clock showed during the run, at or after its own deadline |
| `ConversationRuns.DueIsCompleted` | voice_server/src/push_msg_timer_queue.cc:145-180 | Progress: from every reachable sleeping state, waking completes everything due by the clock with its timeout reply, leaves everything else waiting, and sleeps again |
| `ConversationRuns.NothingIsStuck` | voice_server/src/push_msg_timer_queue.cc:145-186 | In every reachable state the timer thread, unless it has left, and every unanswered request can go on |
| `Conversation.ForwardedIsFresh` | voice_server/src/dispatcher.cc:288-288 | The id under which a forwarded message is filed is not in the index, as the compiled-out assertion demands |
| `Conversation.DeviceReplyTakesOne` | voice_server/src/dispatcher.cc:523-552 | A device reply - late, early or repeated - takes exactly the context waiting under its id out of the queue and makes that request's reply due; under any other id it changes nothing |
| `Conversation.ShortRunsAreLegal` | voice_server/src/dispatcher.cc:435-436 | Every run that forwards fewer than 2^32 messages meets the guard on message ids by itself |
| `Strings.TrimSpec` | voice_server/util/config.cc:41-47 | Trimming removes white space from both ends, all of it and nothing else |
| `Strings.TrimIs` | voice_server/util/config.cc:41-47 | White space around a trimmed string is exactly what trimming removes |
| `ConfigLaws.TrimTakesSix` | voice_server/util/config.cc:41-47 | Trimming takes exactly blanks, newlines, tabs, vertical tabs, returns and form feeds off both ends |
| `ConfigLaws.OneEntryRead` | voice_server/util/config.cc:81-134 | With the markers a configuration starts with, blanks key blanks = blanks value blanks, with or without # and a comment, is read as that key and value |
| `ConfigLaws.ValueGoesOn` | voice_server/util/config.cc:109-128 | A value goes on over the next line behind a newline; of a comment line in between only the blanks before the marker are taken in |
| `ConfigLaws.LaterEntriesWin` | voice_server/util/config.cc:131-133 | Two files one behind the other are read as both, later entries over earlier ones with the same key |
| `ConfigLaws.ReadFromAdds` | voice_server/util/config.cc:70-138 | Reading adds to the entries already there, and what is read stands over them |
| `ConfigFile.Config.constructor` | voice_server/util/config.cc:24-28 | A new configuration is empty, with = and # as its markers |
| `ConfigFile.Config.JoinLines` | voice_server/util/config.cc:109-128 | The read-ahead loop ends and joins exactly the lines of one value |
| `ConfigFile.Config.ReadFrom` | voice_server/util/config.cc:70-138 | The reader ends on every input, by a measure over stream state, text left and pending line, with the map its lines spell |
| `ConfigFile.Config.WriteTo` | voice_server/util/config.cc:50-61 | The writer prints one entry after the other in the map's order |
| `ConfigMarkers.PrintSingle` | voice_server/util/config.cc:57-58 | An entry is printed as key, blank, =, blank, value, newline |
| `ConfigRoundTrip.RoundTrip` | voice_server/util/config.cc:50-138 | With markers that hold no white space this is so exactly when keys and values, told alone, are ones the format can carry |
| `ConfigRoundTrip.BlankMarkerRoundTrip` | voice_server/util/config.cc:50-138 | With a comment marker that is a blank and a word it is so exactly when, besides, the word begins neither the delimiter nor any value |
| `ConfigRoundTrip.WriteThenRead` | voice_server/util/config.cc:50-138 | Writing one configuration and reading it into an empty one gives equal contents exactly when they are such |
| `ConfigRoundTrip.ReadAllNormal` | voice_server/util/config.cc:70-138 | Whatever the input, all the reader ever stores is such keys and values, for all markers that are not empty, hold no newline and do not end in white space |
| `ConfigRoundTrip.RewritingIsHarmless` | voice_server/util/config.cc:50-138 | Whatever file was read, writing it out and reading it again changes nothing |
| `ConfigLines.ReaderByLines` | voice_server/util/config.cc:70-138 | For every file whose lines end in a newline and every delimiter but the empty one, the reader with its read-ahead stores one entry per line with a key, in order, and nothing else |
| `ConfigExact.EventsWeight` | voice_server/util/config.cc:95-133 | The entries stored have no more marks - characters that are not white, and newlines - than the file, and as many only if every line is part of an entry and no comment holds any |
| `ConfigExact.RoundTripExactly` | voice_server/util/config.cc:50-138 | For every delimiter of one line and every comment marker that is more than blanks, a map comes back exactly when each entry is trimmed, with a key of one line, and none of its printed lines has a comment, an earlier delimiter, a second key or nothing on it |
| `ConfigExact.CarriedComesBack` | voice_server/util/config.cc:50-138 | That such a map comes back needs nothing of the comment marker |
| `ConfigRoundTrip.ReadValueGrows` | voice_server/util/config.cc:110-128 | A value put together from any lines has no comment in it and only non-blank, delimiter-free continuation lines |
| `ConfigLastLine.FinalNewlineMatters` | voice_server/util/config.cc:70-138 | For every file and every delimiter but the empty one: a newline at the end changes the map read exactly when the last line has no key, has more than a comment, and follows a line with a key with no blank line between |
| `ConfigLastLine.LastLineWithoutNewline` | voice_server/util/config.cc:110-128 | In the read-ahead loop such a line is joined in once with its newline and twice without |
| `ConfigMarkers.EmptyCommentRoundTrip` | voice_server/util/config.cc:95-96 | With an empty comment marker exactly one map comes back: the empty one, or an empty entry if the delimiter is empty too |
| `ConfigMarkers.EmptyDelimiterRoundTrip` | voice_server/util/config.cc:98-104 | With an empty delimiter a map comes back exactly when it is one entry under the empty key, of one trimmed line in which, printed, no comment begins |
| `ConfigMarkers.NewlineDelimiterRoundTrip` | voice_server/util/config.cc:98-100 | With a newline in the delimiter only the empty map comes back |
| `ConfigMarkers.WhiteMarkerLoses` | voice_server/util/config.cc:95-96 | The condition on blank markers does fail: for every key, a value read from a file and lost by writing it |
| `Coding.Fixed32Digit` | voice_server/util/coding.cc:9-18 | Byte k on the wire is digit k of the value to base 256, least significant first |
| `Coding.Fixed32RoundTrip` | voice_server/util/coding.h:62-74 | A 32-bit value encoded anywhere in a buffer decodes to itself |
| `Coding.Fixed32Back` | voice_server/util/coding.cc:9-18 | Encoding a decoded word gives its four bytes back |
| `Coding.Fixed64Bytes` | voice_server/util/coding.cc:20-33 | Each of the eight bytes is its place of the value, least significant first |
| `Coding.Fixed64RoundTrip` | voice_server/util/coding.h:76-87 | A 64-bit value encoded anywhere in a buffer decodes to itself |
| `Coding.ByteString.PutFixed32` | voice_server/util/coding.cc:35-39 | Appends the four bytes of the value and changes nothing before them |
| `Coding.EncodeVarint32` | voice_server/util/coding.cc:47-73 | The five-way form writes the same bytes as the 64-bit loop, in place, and returns the position behind them |
| `Coding.EncodeVarint64` | voice_server/util/coding.cc:81-90 | The loop writes the base-128 encoding in place and returns the position behind it |
| `Coding.VarintFitsTen` | voice_server/util/coding.cc:92-96 | No 64-bit value needs more than the ten bytes provided for its encoding |
| `Coding.VarintLength` | voice_server/util/coding.cc:103-110 | The length is that of the encoding |
| `Coding.VarintDigit` | voice_server/util/coding.cc:81-90 | Byte k of an encoding holds the low seven bits of the value shifted right 7*k places and whether more follow, and the last place is not empty |
| `Coding.Varint32Exactly` | voice_server/util/coding.cc:112-129 | For any bytes a value is read exactly if one of the first five announces no more, and it is their seven-bit digits, cut to 32 bits |
| `Coding.GetVarint32PtrFallback` | voice_server/util/coding.cc:112-129 | Reads the varint that ends within five bytes and the data, cut to 32 bits, or reports none |
| `Coding.GetVarint32Ptr` | voice_server/util/coding.h:93-104 | The one-byte shortcut changes nothing about that |
| `Coding.Varint32RoundTrip` | voice_server/util/coding.cc:112-129 | Every 32-bit value comes back with the exact end, whatever stands around its encoding |
| `Coding.Varint32Prefix` | voice_server/util/coding.cc:112-129 | Every strict prefix of an encoding is reported as no value |
| `Coding.VarintCanonical` | voice_server/util/coding.cc:112-129 | The bytes read are the encoding of the value exactly when they do not end in a padding zero |
| `Coding.ListRoundTrip` | voice_server/util/coding.cc:47-129 | A concatenated list of encodings decodes to the list |
| `Tlv.EncodeCommonTlv` | voice_server/src/dispatcher.cc:245-254 | Appends the length field and the message id field |
| `Tlv.EncodeRet` | voice_server/src/dispatcher.cc:256-261 | Appends a command whose value is the code as an unsigned word |
| `Tlv.PackStartSendPushMsg` | voice_server/src/dispatcher.cc:431-442 | Appends one well-formed message without a value, under the next message id |
| `Tlv.PackSendVoicePushMsg` | voice_server/src/dispatcher.cc:554-564 | Appends one well-formed message that carries the payload, its declared length its true one |
| `Tlv.PackClientBuildVcRespMsg` | voice_server/src/dispatcher.cc:355-361 | Appends one well-formed message that carries the code |
| `Tlv.EncodeRespMsg` | voice_server/src/push_msg_timer_queue.cc:6-26 | Appends one well-formed message with the context's id and type and the timeout code |
| `Tlv.StartSendBytes` | voice_server/src/dispatcher.cc:431-442 | The pushed start-send message byte by byte |
| `Tlv.SendVoiceBytes` | voice_server/src/dispatcher.cc:554-564 | The pushed voice message byte by byte |
| `Tlv.ReplyBytes` | voice_server/src/dispatcher.cc:245-261 | A reply with a code byte by byte, with the types of the replies |
| `Tlv.ParseInvertsBody` | voice_server/src/dispatcher.cc:160-190 | For bodies of every length, and whatever lies behind them, the header parse accepts exactly the bodies of well-formed messages and returns what they were made of |
| `Tlv.MessageRoundTrip` | voice_server/src/dispatcher.cc:160-190 | Declared length is true length, and cutting a packed message out of a stream and parsing it gives back id, command and value |
| `Tlv.PackHeartBeatRespMsg` | voice_server/src/dispatcher.cc:295-301 | Declares 32 bytes and appends 36 |
| `Tlv.PackRespWithoutLength` | voice_server/src/dispatcher.cc:511-521 | Appends a message of 32 bytes in which the code takes the place of the value's length |
| `Tlv.RespWithoutLength` | voice_server/src/dispatcher.cc:628-638 | Such a reply passes the header parse exactly when the code is 0, and then carries no value |
| `Framing.Connection.constructor` | voice_server/src/worker.cc:366-367 | A new connection has received nothing and its buffer is zeroed |
| `Framing.Connection.Fill` | voice_server/src/worker.cc:78-90 | However the reads are sized, the buffer takes what is available as far as it has room, and never overflows |
| `Framing.Connection.ParsePass` | voice_server/src/worker.cc:125-176 | The parse loop in place: hands over bodies, moves the rest to the front, ends as the specification says |
| `Framing.Connection.ReadCallback` | voice_server/src/worker.cc:76-181 | Fills and parses until the parse loop stops asking for more, and keeps the invariant on the stale bytes of the length field; ends in every case but the spin |
| `Framing.CallbackKeepsSound` | voice_server/src/worker.cc:76-181 | As far as the length field is not received, its place holds the last handled message's length, or 0 before the first |
| `FramingProofs.PassUpTo` | voice_server/src/worker.cc:125-176 | k whole messages and a part, of any length, of one more: exactly k bodies are handed over, the part is left in front, and how the loop ends follows from three lengths |
| `FramingProofs.PassExact` | voice_server/src/worker.cc:125-176 | k whole messages and less than a header: exactly k bodies are handed over, in order, and the tail is left in front |
| `FramingProofs.PassRejects` | voice_server/src/worker.cc:157-163 | The first message the dispatcher rejects is the last one handed over, and the connection closes |
| `FramingProofs.PassSpins` | voice_server/src/worker.cc:147-153 | A message whose body is not complete, in a buffer not full, makes the loop spin after the messages before it |
| `FramingProofs.FullPassProgresses` | voice_server/src/worker.cc:136-175 | A pass over a full buffer hands over a message, closes, or meets a declared length below 12 |
| `FramingProofs.PassConserves` | voice_server/src/worker.cc:125-176 | For any bytes at all, what a pass hands over are frames cut off the front, and it keeps what is behind them |
| `FramingProofs.FramedUnique` | voice_server/src/worker.cc:136-157 | Framing is uniquely decodable |
| `FramingProofs.CallbackConserves` | voice_server/src/worker.cc:76-181 | The same over a whole callback with any number of refills |
| `FramingProofs.CallbackExact` | voice_server/src/worker.cc:76-181 | Whole messages and an unfinished part, of any total length: one callback hands them all over and keeps the part, unless and only unless a full buffer ends 9 bytes into a message behind one shorter than 256 with a low length byte below 10, which loses the connection |
| `FramingProofs.NotAlwaysSmooth` | voice_server/src/worker.cc:136-153 | There are messages that end a full buffer so |
| `FramingProofs.OnlyMessagesSent` | voice_server/src/worker.cc:64-184 | For any messages sent and any chunking over any number of callbacks, the bodies handed over are a prefix of those sent |
| `FramingProofs.AllMessagesHandled` | voice_server/src/worker.cc:64-184 | If each callback's data completes messages and leaves less than a header, all messages of the connection are handed over in order and the last tail is kept |
| `FramingProofs.PartExits` | voice_server/src/worker.cc:128-153 | Part of a message with room left: the connection closes only at 8 bytes before any message, or at 9 with a mixed length that is not allowed; at 10 or more it spins |
| `FramingProofs.FirstBytes` | voice_server/src/worker.cc:128-153 | On a new connection the first 8 bytes of every message close it, 9 do so exactly for a low length byte below 8, 10 or more never |
| `FramingProofs.PassWaitsExactly` | voice_server/src/worker.cc:125-176 | With room in the buffer, and for any bytes, the loop returns to wait exactly on accepted messages followed by less than a header |
| `FramingProofs.CallbackWaitsExactly` | voice_server/src/worker.cc:76-181 | The same for a whole callback, for any bytes and any number of refills |
| `FramingProofs.ConnectionWaitsExactly` | voice_server/src/worker.cc:64-184 | The same for all callbacks of a connection |
| `ConnQueue.Queue.constructor` | deviceOnline/src/worker_threads.cc:397-403 | A queue starts empty |
| `ConnQueue.Queue.Push` | deviceOnline/src/worker_threads.cc:446-458 | The linked list refines a sequence: pushing appends the item |
| `ConnQueue.Queue.Pop` | deviceOnline/src/worker_threads.cc:464-479 | Popping takes the first item off, or reports null for an empty queue |
| `ConnQueue.NewBatch` | deviceOnline/src/worker_threads.cc:423-432 | 64 new items, all but the first and last chained to the next |
| `ConnQueue.FreeList.Take` | deviceOnline/src/worker_threads.cc:412-418 | Takes the first free item, or none |
| `ConnQueue.FreeList.AddBatch` | deviceOnline/src/worker_threads.cc:423-438 | Puts 63 new items in front of whatever the free list has become, acyclic as before, and returns the 64th |
| `ConnQueue.FreeList.Put` | deviceOnline/src/worker_threads.cc:484-490 | Puts an item in front of the free list |
| `ConnQueue.Items.ItemNew` | deviceOnline/src/worker_threads.cc:408-441 | Returns an item no list holds and no thread held; allocates only from an empty free list |
| `ConnQueue.Items.ItemFree` | deviceOnline/src/worker_threads.cc:484-490 | A held item moves to the free list; every other item stays where it is |
| `ConnQueue.Items.Enqueue` | deviceOnline/src/worker_threads.cc:366-366 | A held item moves to the end of one worker's queue; the other lists and all items' data stay |
| `ConnQueue.Items.Dequeue` | deviceOnline/src/worker_threads.cc:139-140 | The first item of one worker's queue becomes held; the other lists stay |
| `ConnQueue.Items.Dispatch` | deviceOnline/src/worker_threads.cc:352-366 | Puts the connection at the end of the next worker's queue, round robin, on an item that was free or new; every other connection waits where it did |
| `ConnQueue.Items.Process` | deviceOnline/src/worker_threads.cc:138-154 | Hands over the first connection that waits for the worker, sets its item free, and leaves all others waiting as they did |
| `ConnQueue.ChainedInFront` | deviceOnline/src/worker_threads.cc:431-436 | Linking the batch's last item to the free list keeps it one acyclic chain |
| `HandOff.StepOk` | deviceOnline/src/worker_threads.cc:124-374 | Every step of the dispatching thread and the workers keeps queue length and pipe bytes accounted for |
| `HandOff.PopsFindAConnection` | deviceOnline/src/worker_threads.cc:132-142 | In every run, failed writes included, bytes in a pipe never outnumber the queue, so no notified pop finds it empty |
| `HandOff.DeliveredInTurn` | deviceOnline/src/worker_threads.cc:352-374 | In every run connection k*n+w goes to worker w, once, as its k-th, and is with it or still in its queue |
| `HandOff.BytesAccounted` | deviceOnline/src/worker_threads.cc:124-142 | In every run, per worker: bytes in the pipe are those written and not read, missed notifications are the failed writes, each byte read is acted on once, and each action delivers one connection |
| `HandOff.AllDelivered` | deviceOnline/src/worker_threads.cc:124-374 | If no write failed, a worker with nothing to read has been given all its share |
| `HandOff.WorkerCatchesUp` | deviceOnline/src/worker_threads.cc:124-154 | Left to itself, a worker takes up every connection it was notified of, in order |
| `HandOff.NothingIsStuck` | deviceOnline/src/worker_threads.cc:124-374 | The dispatching thread can always go on, and so can a worker with a byte to read |
| `HandOff.LeftBehindByFailedWrites` | deviceOnline/src/worker_threads.cc:368-373 | When a worker has nothing to read, exactly as many of its connections are undelivered as notifications failed |
| `Crlf.SplitData` | public/utils.h:64-75 | The loop returns the pieces in front of each delimiter |
| `Crlf.JoinListByDelimiter` | public/utils.h:100-109 | The loop puts the delimiter behind every element |
| `Crlf.JoinOfSplit` | public/utils.h:64-109 | Joining a split and adding what was left returns the string, for every delimiter |
| `Crlf.SplitIsFree` | public/utils.h:64-75 | Neither the pieces nor what is left contain the delimiter |
| `Crlf.SplitOfJoin` | public/utils.h:64-109 | Splitting a join at CRLF returns the list exactly when no element contains a CRLF |
| `Crlf.Conn.ReadCallback` | deviceOnline/src/worker_threads.cc:219-264 | Takes as much as fits, hands over the lines and keeps what follows the last line character |
| `Crlf.Conn.DropFront` | deviceOnline/src/worker_threads.cc:260-262 | Moving the rest to the front drops exactly the bytes before it |
| `Crlf.TakeFills` | deviceOnline/src/worker_threads.cc:225-225 | A read takes all that is there, or as much as the buffer has room for |
| `Crlf.ProcessSpec` | deviceOnline/src/worker_threads.cc:247-263 | For any bytes with a CRLF in them the lines are the split, and what is kept is all behind the last carriage return or line feed |
| `Crlf.NoPairNoLines` | deviceOnline/src/worker_threads.cc:247-248 | Without one nothing is handed over and all is kept |
| `Crlf.LosslessExactly` | deviceOnline/src/worker_threads.cc:248-263 | Lines and kept bytes make up the input exactly when no lone carriage return or line feed follows the last CRLF |
| `Crlf.CutPairLosesLine` | deviceOnline/src/worker_threads.cc:260-262 | A pair cut in two behind a complete line costs the line in front of the cut |
| `Crlf.CallbacksSplitTheStream` | deviceOnline/src/worker_threads.cc:219-264 | For any stream and any chunking, all callbacks together split the whole stream and keep what follows its last CRLF exactly if no callback that meets a CRLF meets a lone line character behind the last one |
| `Crlf.TornExactly` | deviceOnline/src/worker_threads.cc:225-262 | In a stream whose line characters come in pairs that is so exactly if no chunk both completes a line and ends inside a pair |
| `Crlf.ChunksAreReadable` | deviceOnline/src/worker_threads.cc:225-227 | However data arrives, the chunks read fit the buffer and are the stream up to what stays unread |
| `Crlf.MessagesArrive` | deviceOnline/src/worker_threads.cc:219-264 | Messages without line characters are handed over exactly, in order, if and only if no chunk both completes a line and ends inside a pair |
| `VoiceChannel.VoiceChannelManager.ConnectByClient` | voice_server/src/voice_channel.cc:4-23 | Replaces the client's entry and touches no device |
| `VoiceChannel.VoiceChannelManager.ConnectByDev` | voice_server/src/voice_channel.cc:25-49 | Adds the entry behind the device's others, also behind an earlier one of the pair, whose connection is the one freed |
| `VoiceChannel.VoiceChannelManager.DisconnectByClient` | voice_server/src/voice_channel.cc:51-89 | Drops the client's entry for this device and the first entry of the pair |
| `VoiceChannel.VoiceChannelManager.DisconnectByDev` | voice_server/src/voice_channel.cc:91-129 | Does so in the other order |
| `VoiceChannel.VoiceChannelManager.RouteClientToDev` | voice_server/src/voice_channel.cc:131-174 | Returns the first entry's descriptor, or which of the two sides is missing |
| `VoiceChannel.DisconnectIsSymmetric` | voice_server/src/voice_channel.cc:51-129 | Both disconnects have the same effect on both maps |
| `VoiceChannel.DisconnectSpec` | voice_server/src/voice_channel.cc:51-174 | Afterwards the pair has no route and every other pair the route it had |
| `VoiceChannel.ConnectSpec` | voice_server/src/voice_channel.cc:4-174 | Connecting both sides in either order routes the client to the device - to the new descriptor exactly when no earlier entry has another |
| `VoiceChannel.ConnectKeepsOthers` | voice_server/src/voice_channel.cc:4-174 | Connecting a pair changes no other client's route |
| `VoiceChannel.OneErasureClears` | voice_server/src/voice_channel.cc:71-85 | Erasing the first entry of a pair leaves none exactly when there were no two |
| `VoiceChannel.HangUpsNeeded` | voice_server/src/voice_channel.cc:51-174 | For every table, a client that comes back after n disconnects finds no device exactly when the device had left at most n entries for it |
| `VoiceChannel.OneDisconnectClears` | voice_server/src/voice_channel.cc:51-174 | So one disconnect clears the pair exactly when no two of the device's entries are the client's |
| `VoiceChannel.ReconnectNeedsTwoDisconnects` | voice_server/src/voice_channel.cc:35-45 | After a device reconnects, one disconnect leaves its newer entry behind |

## Left out

- libevent, sockets, pthread primitives, logging, HTTP, hiredis and libjson: foreign calls. What they
  return - whether a send succeeds, what the clock shows, how much a read brings, what a handler
  answers - is arbitrary in the model.
- The numeric error codes: public/error_code.h is not part of this model; the timeout code is a
  parameter.
- Conversation: whether a reply reaches the socket is not tracked, only that it is written once; the
  return code in it, scheduling (that the timer thread is ever given time to run), and contexts leaked when a
  forward fails are not modelled. Nothing in the repository calls `Start`, so the timer thread is taken
  as started. `CancelEvent` has no caller in the dispatcher but is a step of the model. Routing failures
  are a free choice of the handler.
- `Conversation.Enabled`: a forwarded message does not take an id that is still in use.
  `Conversation.ShortRunsAreLegal` shows that this restricts nothing before 2^32 forwards.
- UTimes: a time is passed by value in the source, so it is a value here, with `UTimes.TimeCell` for the
  operators that assign. The overload of `+=` for `double` is not modelled; deadlines are arbitrary times.
- `ConfigExact.RoundTripExactly`: a comment marker that is not empty but all blanks. That the condition
  suffices is proved for it too (`ConfigExact.CarriedComesBack`), that it is needed is not.
- `ConfigLastLine.FinalNewlineMatters`: an empty delimiter, with which every line has a key.
- `ConfigRoundTrip.ReadAllNormal`, and `ConfigRoundTrip.ReadValueGrows` with it: markers that are empty, end in
  white space or hold a newline. `ConfigExact` and `ConfigMarkers` say what comes back with those.
- Config: the iteration order of the map is a parameter. Opening files, exceptions and the typed `Read`
  functions are not modelled. `Trim` is a function, the source erases in place.
- CRC: the buffer is a sequence and its address a number; the tables are rows of eight literals.
- Coding: `GetVarint64Ptr` and the length-prefixed slices, which the source comments out; `PutVarint32`,
  `PutVarint64` and `PutFixed64`, which only append; the big-endian branches, which write the same bytes.
- Tlv: `HandleMsg` reads five words without a length test, so bytes beyond a short body are a parameter.
  A length that agrees with such a body only modulo 2^32 ends the parse as Outside. The handlers' parses of
  a command's value and the choice of a handler are not modelled.
- `Tlv.PackSendVoicePushMsg`: presumes a payload whose message length fits 32 bits; any payload that came
  in through the 10240-byte buffer does.
- Framing: declared lengths from 8 to 11 behind as many received bytes, whose body length underflows, end
  the model's pass as Overrun.
  What happens to a closed connection's memory is not modelled. The JSON branch of the callback is left
  out; it is the CRLF framing of the device server with a refill loop.
- ConnQueue: each stretch under a lock is one method; the interleaving of queues and pipes is in
  `HandOff`, that of two threads in the free list is that `TakeFree` and `AddBatch` are separate. The
  free list of connection objects, `conn_new` and a failing allocation are left out.
- Crlf: the token check is never due, since connections start verified, and is left out, as is what the
  logic layer does with a line.
- VoiceChannel: the lifetime of the bufferevents, beyond which entry's is freed on reconnect. That the
  dispatcher passes an empty device id to `RouteClientToDev` is outside this module.
- Code that repeats what is modelled: userOnline/src/worker_threads.cc, public/config_file.h,
  voice_server/include/utils.h and the other copies of utime.h.
