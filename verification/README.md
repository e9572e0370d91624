# Verified models of the aquaOne firmware

A Dafny 4.11 project beside the aquaOne repository. It models five parts of the firmware and proves
what they promise. Each imperative source class is a Dafny class whose methods are proved against
functions of its fields; the theorems are about those functions and hold for every input, every run
and every interleaving.

1. **Firmware upload of the Doser** (`Multipart*`, `HttpStreaming`, `UploadBridge`, `OtaApplication`, `Upload*`,
   `BridgeSafety`). `MultipartSpec` gives the multipart body twice, as a byte automaton and as a
   grammar, and `MultipartHeaderGrammar` does so for the header block; `MultipartParser` is the
   streaming parser with its carry buffer. `UploadSystem` is the HTTPD task (receive loop, parser
   events, route) and the application task around the one-slot bridge, as a state machine over
   atomic steps: every locked section of the bridge is one step, the tasks interleave freely, every
   timeout may or may not fire, and the flash authority, the restart scheduler and the synchronizer
   answer arbitrarily. `UploadRelease` and `UploadResponses` say what becomes of every request.
2. **Crash-safe configuration** (`Crc32`, `LittleEndian`, `Storage*`, `Config*`). Two slots with
   modular generations over a key-value backend, and the lifecycle that loads, migrates, validates,
   applies and persists. The backend's reads are faithful. A failed or interrupted write leaves the
   old blob or one that neither reader accepts; a power cut may also leave the complete new blob.
3. **Startup runtime** (`Startup*`, `ApplicationRuntime`, `RuntimeState`). Plan validation, the eight
   phase passes, the safety gate, and fail-closed behaviour afterwards.
4. **Calendar and clocks** (`Calendar`, `ClockTime`, `WarsawTime`, `MillisClock`, `NtpService`,
   `NetworkService`). Day numbers over all integers, weekday and summer time, and services driven by
   a wrapping 32-bit counter against the same services on a true 64-bit clock.
5. **Byte parsers** (`BasicAuth`, `CloseReason`, `FormBody`, `FormDecoding`), each with an exact specification.

Places where a property fails are stated as equivalences: a plain save on a store whose newest record
is of another format can hit that record (`TargetSpares`, with a store where it does in
`PlainSaveHitsOlderFormat`); adding seconds loses 2^32 of them when the 32-bit sum overflows, and every
conversion loses 65536 years at the end of year 65535 (`AddSecondsMoves`, `AddOneSecond`, `AddMinutes`,
`ConvertUtcToWarsaw`, with inputs in `FailingSums`; `Now` can reach neither); the weekday is wrong in January
and February of the year 0 (`ZellerExact`); a payload that contains a delimiter does not survive the
round trip (`RoundTrip`); an observation gap of a full counter cycle is lost (`ObservationExact`).

Run `dafny verify dfyconfig.toml`.

## Model

| member | source | states |
|---|---|---|
| UploadTheorems.EndToEnd | aquaOneDoser/src/DoserNativeOtaRoute.cpp:100-208 | In every interleaving of the two tasks and for every way of reading the body: a 200 means the body is one well-framed form, and the bytes written to flash between a begin and its successful end are exactly its payload, in order, as many as X-Firmware-Size says, with nothing done to the flash since |
| UploadTheorems.RunInv | aquaOneDoser/src/DoserNativeOtaRoute.cpp:44-228 | Every state of every run satisfies the joint invariant of bridge, application, HTTPD task, parser, flash and response |
| UploadTheorems.StepKeeps | aquaOneDoser/src/DoserNativeOtaRoute.cpp:44-228 | Each of the 25 atomic steps of the two tasks keeps that invariant |
| UploadTheorems.SessionDiscipline | aquaOneDoser/src/DoserOtaApplication.cpp:22-115 | On every run no flash call is out of order: write, end and abort only while an update is open, begin only while none is, end only when received equals expected; every successful begin is closed by exactly one successful end or abort, but for the one open exactly while receiving; and the OTA guard is on exactly outside Idle |
| UploadTheorems.CanceledIsReleased | aquaOneDoser/src/DoserOtaApplication.cpp:117-143 | A processOne call that begins on a canceled session not awaiting restart has released it when the call is over; with a call under way when the cancellation came, that is within two calls |
| UploadRelease.EndedIsCanceled | aquaOneDoser/src/DoserNativeOtaRoute.cpp:163-228 | In every run, when no request is under way, an open session has been canceled, or its flash is finalized and awaits the restart |
| UploadRelease.EndedIsReleased | aquaOneDoser/src/DoserOtaApplication.cpp:117-143 | After a request has ended, however it ended, any later processOne call is over only with the session released, unless the flash was finalized |
| UploadResponses.ResponseExact | aquaOneDoser/src/DoserNativeOtaRoute.cpp:98-228 | Each response has exactly one kind of cause and each cause its response: 200 the successful end, 408 the deadlines, 409 and 413 and 500 the application and the taken session, 400 a malformed form or size, 503 the bridge |
| UploadResponses.ResponseStands | aquaOneDoser/src/DoserNativeOtaRoute.cpp:98-228 | Within a request the first response stands |
| UploadResponses.SuccessArms | aquaOneDoser/src/DoserNativeOtaRoute.cpp:183-208 | After a success that was sent, the restart is asked for and the bridge is ready to take that command; after one that was not, the request is over |
| UploadResponses.CommittedExact | aquaOneDoser/src/DoserNativeOtaRoute.cpp:183-208 | In every run the route counts as committed exactly when it has answered 200 |
| UploadResponses.RestartScheduled | aquaOneDoser/src/DoserOtaApplication.cpp:145-149 | In every run the restart is scheduled exactly if, since the end that finalized the flash, the session asked for it or 30 seconds passed, and the scheduler took it |
| UploadAdmission.StartRequest | aquaOneDoser/src/DoserNativeOtaRoute.cpp:44-94 | A request is taken exactly when the bridge is idle, the headers declare a boundary and a size, there is room, and the length fits a form around the firmware; each refusal has its status |
| UploadTheorems.DoomEndsInRelease | aquaOneDoser/src/DoserOtaApplication.cpp:117-143 | While such a call runs the session can stop being canceled-and-active only by being released |
| UploadTheorems.FinalizedTrace | aquaOneDoser/src/DoserOtaApplication.cpp:86-101 | A finalized flash comes from a begin, exactly the writes since, and a successful end, with nothing closing it in between |
| UploadTheorems.OpenTrace | aquaOneDoser/src/DoserOtaApplication.cpp:56-84 | An open update comes from one begin and exactly the writes since |
| UploadProgress.UploadCanSucceed | aquaOneDoser/src/DoserNativeOtaRoute.cpp:44-208 | Every body of the form grammar with the announced sizes has a run that is answered 200 |
| UploadProgress.FeedIsModelled | aquaOneDoser/src/DoserMultipartFirmwareParser.cpp:153-236 | Whatever its sink refuses, what a feed sends is the head of a log that the route model delivers event by event, and all of it when the feed succeeds |
| UploadProgress.RoundGoes | aquaOneDoser/src/DoserNativeOtaRoute.cpp:100-140 | An undisturbed command is submitted, taken, executed, completed and answered |
| HttpStreaming.ReceiveStream | aquaOneCore/src/Web/HttpStreamingReceive.cpp:7-76 | The handler gets the bytes of the reads handed over, in order and nothing else; log and result follow from what socket, transport and handler did: complete, aborted with the reason that the failing read or the refusing transport gives, or stopped at the event the handler refused |
| HttpStreaming.AllWellIsComplete | aquaOneCore/src/Web/HttpStreamingReceive.cpp:34-75 | When every wanted read is in range, the transport accepts and the handler continues, the request is complete and the whole body was handed over |
| UploadStreaming.EventIsModelled | aquaOneDoser/src/DoserNativeOtaRoute.cpp:212-229 | Whenever the HTTPD task of the system reads on, the next event of the receive loop, data, end or abort, is an enabled action of it, and after that it has received what the loop handed over |
| UploadSteps.ReadDelivers | aquaOneDoser/src/DoserMultipartFirmwareParser.cpp:205-236 | Reading one more piece sets free exactly the payload that the longer body has beyond the shorter |
| UploadSteps.RunExecutes | aquaOneDoser/src/DoserOtaApplication.cpp:43-115 | The command that runs is the one HTTPD waits for, on the bytes HTTPD submitted |
| UploadInvariant.InitHolds | aquaOneDoser/src/StreamingUploadBridge.cpp:6-32 | The initial state satisfies the invariant |
| BridgeSafety.SubmitExact | aquaOneDoser/src/StreamingUploadBridge.cpp:73-88 | Exactly which commands are accepted, and what acceptance does; a refusal changes nothing |
| BridgeSafety.SessionExact | aquaOneDoser/src/StreamingUploadBridge.cpp:6-71 | Exactly when a session is admitted, canceled and released, and what that does |
| BridgeSafety.WaitExact | aquaOneDoser/src/StreamingUploadBridge.cpp:90-116 | Exactly when a wait gets a result, waits on, is refused, and when giving up cancels the session |
| BridgeSafety.SlotExact | aquaOneDoser/src/StreamingUploadBridge.cpp:118-145 | Exactly when a command is taken and completed, and where its result goes |
| BridgeSafety.AnyCalls | aquaOneDoser/src/StreamingUploadBridge.cpp:6-145 | Over any sequence of bridge calls by anyone: generations are handed out in increasing order and never twice, and each accepted command is taken and completed at most once |
| BridgeSafety.LedgerKept | aquaOneDoser/src/StreamingUploadBridge.cpp:6-145 | Each single call keeps that ledger |
| BridgeSafety.CallKeepsBridge | aquaOneDoser/src/StreamingUploadBridge.cpp:6-145 | Each single call keeps: a queued or processing slot belongs to the active session, and a signal is only pending on a completed or free slot |
| BridgeSafety.SlotFrozen | aquaOneDoser/src/StreamingUploadBridge.cpp:73-145 | Between take and complete neither the command nor the data buffer changes, whoever calls |
| BridgeSafety.OwnResult | aquaOneDoser/src/StreamingUploadBridge.cpp:90-116 | After any sequence of bridge calls by anyone, a wait hands out a result only when every accepted command is completed, it is that of the last of them, and it is handed out once |
| UploadAnswers.AnswerIsOwn | aquaOneDoser/src/DoserNativeOtaRoute.cpp:100-140 | In every run an answered waiter gets the result of its own last command: the one it submitted, nothing else submitted since, taken and executed by the application task on the submitted bytes, and completed with this result; then the slot is free |
| UploadAnswers.SignalFindsResult | aquaOneDoser/src/StreamingUploadBridge.cpp:90-116 | In every run a signalled wake finds the slot Completed, and it stays so until the waiter looks |
| UploadAnswers.SignalUsedUp | aquaOneDoser/src/StreamingUploadBridge.cpp:90-116 | In every run the signal of a signalled wake is used up |
| UploadBridge.StreamingUploadBridge.AdmitSession | aquaOneDoser/src/StreamingUploadBridge.cpp:6-20 | Admission changes the object exactly as the atomic step says; a generation is handed out only on acceptance |
| UploadBridge.StreamingUploadBridge.Cancel | aquaOneDoser/src/StreamingUploadBridge.cpp:45-51 | A cancellation touches only the session it names |
| UploadBridge.StreamingUploadBridge.ReleaseSession | aquaOneDoser/src/StreamingUploadBridge.cpp:60-71 | A session is released only by its generation and only while the slot is neither queued nor processing |
| UploadBridge.StreamingUploadBridge.SubmitCommand | aquaOneDoser/src/StreamingUploadBridge.cpp:73-88 | The buffer takes the bytes and the slot is queued exactly when the command is well formed, current and the slot free |
| UploadBridge.StreamingUploadBridge.BeginWait | aquaOneDoser/src/StreamingUploadBridge.cpp:90-100 | The first locked section of a wait, as the atomic step says |
| UploadBridge.StreamingUploadBridge.EndWait | aquaOneDoser/src/StreamingUploadBridge.cpp:104-116 | The second locked section: without a result the waiter detaches and cancels |
| UploadBridge.StreamingUploadBridge.TakeCommand | aquaOneDoser/src/StreamingUploadBridge.cpp:118-128 | Only a queued command is taken, and then it is processing |
| UploadBridge.StreamingUploadBridge.CompleteCommand | aquaOneDoser/src/StreamingUploadBridge.cpp:130-145 | Only the command being processed is completed; with no waiter the slot is freed |
| OtaApplication.PerformKeeps | aquaOneDoser/src/DoserOtaApplication.cpp:43-115 | Every command, with any answers of the authority, keeps fields, guard and flash in agreement |
| OtaApplication.StartAnswer | aquaOneDoser/src/DoserOtaApplication.cpp:45-73 | Exactly when a start is accepted, and what each refusal answers; pumps and flash are touched only when nothing speaks against it beforehand |
| OtaApplication.ChunkAnswer | aquaOneDoser/src/DoserOtaApplication.cpp:81-97 | Exactly when a chunk is written and accepted, and what each refusal answers |
| OtaApplication.EndAnswer | aquaOneDoser/src/DoserOtaApplication.cpp:98-114 | Exactly when the flash is asked to end, and what the answer is; the time of a successful end is remembered |
| OtaApplication.ArmAnswer | aquaOneDoser/src/DoserOtaApplication.cpp:72-79 | Arming succeeds exactly when the restart of this finalized session is scheduled, canceled or not |
| OtaApplication.WatchdogExact | aquaOneDoser/src/DoserOtaApplication.cpp:145-149 | The watchdog schedules the restart exactly from 30 seconds after the flash was finalized on, unless it is scheduled, on the wrapping counter |
| OtaApplication.StartKeeps | aquaOneDoser/src/DoserOtaApplication.cpp:46-70 | A successful start opens the flash for the announced size; a failing one leaves it closed and the guard off |
| OtaApplication.ChunkKeeps | aquaOneDoser/src/DoserOtaApplication.cpp:72-84 | A successful chunk appends its bytes to the open update; any failure closes it |
| OtaApplication.EndKeeps | aquaOneDoser/src/DoserOtaApplication.cpp:86-101 | A successful end finalizes exactly the received bytes, and only when they are as many as expected |
| OtaApplication.CleanupCloses | aquaOneDoser/src/DoserOtaApplication.cpp:22-33 | Cleanup from any state aborts exactly what is open and returns to Idle |
| OtaApplication.Discipline | aquaOneDoser/src/DoserOtaApplication.cpp:22-115 | While nothing is misused, every write, end and abort finds an open update and every begin finds none |
| OtaApplication.DoserOtaApplication.Handle | aquaOneDoser/src/DoserOtaApplication.cpp:43-115 | The object changes and calls the authority exactly as the atomic step says |
| OtaApplication.DoserOtaApplication.CleanupSession | aquaOneDoser/src/DoserOtaApplication.cpp:22-33 | The object form of cleanup |
| OtaApplication.DoserOtaApplication.ServiceRestartWatchdog | aquaOneDoser/src/DoserOtaApplication.cpp:145-149 | The restart is scheduled once the finalized update has waited 30 s on the wrapping clock |
| MultipartParser.DoserMultipartFirmwareParser.Begin | aquaOneDoser/src/DoserMultipartFirmwareParser.cpp:73-94 | Begin accepts boundaries of 1 to 70 bytes and starts at the opening delimiter |
| MultipartParser.DoserMultipartFirmwareParser.Feed | aquaOneDoser/src/DoserMultipartFirmwareParser.cpp:205-236 | From any state a feed behaves as the byte-at-a-time automaton: its phase, its payload, one Start before any data, data pieces of 1 to 1024 bytes, and it stops at the first refusal |
| MultipartParser.DoserMultipartFirmwareParser.FeedData | aquaOneDoser/src/DoserMultipartFirmwareParser.cpp:169-203 | Scanning carry and chunk at once delivers the payload up to the first place a delimiter could start and keeps the rest as carry |
| MultipartParser.DoserMultipartFirmwareParser.EmitRange | aquaOneDoser/src/DoserMultipartFirmwareParser.cpp:153-167 | A stretch of carry and chunk is delivered in order, in pieces of at most 1024 bytes |
| MultipartParser.DoserMultipartFirmwareParser.FindDelimiter | aquaOneDoser/src/DoserMultipartFirmwareParser.cpp:169-190 | The search over carry and chunk finds the first place compatible with a delimiter |
| MultipartParser.DoserMultipartFirmwareParser.FeedByte | aquaOneDoser/src/DoserMultipartFirmwareParser.cpp:207-235 | One byte outside the data moves the fields as the automaton moves |
| MultipartParser.DoserMultipartFirmwareParser.ParseHeaders | aquaOneDoser/src/DoserMultipartFirmwareParser.cpp:96-151 | The in-place header scan accepts exactly the blocks of the specification, with their file name |
| MultipartParser.DoserMultipartFirmwareParser.Finish | aquaOneDoser/src/DoserMultipartFirmwareParser.cpp:238-249 | The body ends successfully exactly once, after the closing delimiter and nothing or CRLF |
| MultipartParser.ReceiveBody | aquaOneCore/src/Web/HttpStreamingReceive.cpp:34-65 | Fed in any pieces, the parser accepts exactly when the whole body parses and nothing is refused; what it delivered is then the payload, and otherwise a head of what the body sets free |
| MultipartSpec.ChunkIndependence | aquaOneDoser/src/DoserMultipartFirmwareParser.cpp:205-236 | Two ways of cutting the same body give the same phase, start and payload |
| MultipartSpec.ChunksAreBody | aquaOneDoser/src/DoserMultipartFirmwareParser.cpp:205-236 | Feeding pieces is feeding their concatenation |
| MultipartSpec.ConsumeConcat | aquaOneDoser/src/DoserMultipartFirmwareParser.cpp:205-236 | The automaton can be stopped and resumed anywhere |
| MultipartSpec.ConsumeData | aquaOneDoser/src/DoserMultipartFirmwareParser.cpp:169-203 | Whole-chunk scanning with a carry refines the byte-at-a-time automaton |
| MultipartSpec.ConsumeReachable | aquaOneDoser/src/DoserMultipartFirmwareParser.cpp:169-236 | The carry never outgrows a proper head of a delimiter, the header block never its limit |
| MultipartSpec.NeverRestarts | aquaOneDoser/src/DoserMultipartFirmwareParser.cpp:153-236 | The data starts at most once |
| MultipartSpec.ParserExact | aquaOneDoser/src/DoserMultipartFirmwareParser.cpp:73-249 | Accepted bodies are exactly: opening delimiter, accepted header block, payload, closing delimiter with no delimiter starting earlier, then nothing or CRLF |
| MultipartSpec.FramedParses | aquaOneDoser/src/DoserMultipartFirmwareParser.cpp:73-249 | Every framed body is accepted with its payload |
| MultipartSpec.ParsesFramed | aquaOneDoser/src/DoserMultipartFirmwareParser.cpp:73-249 | Every accepted body is framed around its payload |
| MultipartSpec.ScanFindsPayload | aquaOneDoser/src/DoserMultipartFirmwareParser.cpp:169-203 | The scan stops right after the payload if and only if no delimiter starts inside it |
| MultipartSpec.FramingOverhead | aquaOneDoser/src/DoserMultipartFirmwareParser.cpp:68-71 | The framing of every accepted body costs at most the 664 bytes the Content-Length check allows |
| MultipartRoundTrip.RoundTrip | aquaOneDoser/src/DoserMultipartFirmwareParser.cpp:73-249 | Encoding a payload and parsing it returns the payload exactly when no delimiter starts in it before its end |
| MultipartRoundTrip.DelimiterFreePayload | aquaOneDoser/src/DoserMultipartFirmwareParser.cpp:169-203 | For a boundary without CR that condition says: no complete delimiter occurs inside the payload |
| MultipartRoundTrip.Rfc2046RoundTrip | aquaOneDoser/src/DoserMultipartFirmwareParser.cpp:73-249 | A payload free of CRLF "--" boundary (section 5.1.1 of RFC 2046) survives the round trip |
| MultipartRoundTrip.BrowserBlockAccepted | aquaOneDoser/src/DoserMultipartFirmwareParser.cpp:96-151 | The header block a browser sends for the form is accepted, for every valid file name |
| MultipartHeaderGrammar.HeaderBlockExact | aquaOneDoser/src/DoserMultipartFirmwareParser.cpp:96-151 | Without the parser: an accepted header block is at most 512 bytes of CRLF-terminated lines, one disposition line with the file name and at most one type line, in either order, then the empty line |
| MultipartHeaderGrammar.BlockExact | aquaOneDoser/src/DoserMultipartFirmwareParser.cpp:96-151 | The header parser accepts exactly the texts that begin with such lines, with the file name of their disposition line |
| MultipartHeaderGrammar.DispositionExact | aquaOneDoser/src/DoserMultipartFirmwareParser.cpp:109-139 | A disposition line is accepted exactly when it says form-data and its rest is the two quoted parameters |
| MultipartHeaderGrammar.ParametersExact | aquaOneDoser/src/DoserMultipartFirmwareParser.cpp:111-139 | The parameter loop accepts exactly one name with value firmware and one valid file name, in either order, any spaces behind the semicolons, and nothing else |
| MultipartRoundTrip.NoStraddle | aquaOneDoser/src/DoserMultipartFirmwareParser.cpp:169-203 | A delimiter that starts in a payload and ends behind it cannot exist when the boundary has no CR |
| MultipartRequest.ParseContentType | aquaOneDoser/src/DoserMultipartFirmwareParser.cpp:26-50 | The loop finds exactly the declared boundary, quoted or not |
| MultipartRequest.DeclaredExact | aquaOneDoser/src/DoserMultipartFirmwareParser.cpp:26-50 | The boundary found is the one of a grammar: the form-data type, a semicolon, blanks, boundary=, and a valid boundary, bare or quoted, in at most 127 bytes |
| MultipartRequest.ValidBoundaryCrFree | aquaOneDoser/src/DoserMultipartFirmwareParser.cpp:26-50 | An accepted boundary holds no CR |
| MultipartRequest.ParseFirmwareSize | aquaOneDoser/src/DoserMultipartFirmwareParser.cpp:52-66 | The digits are accepted exactly when their value is between 1 and 2^32 - 1 |
| Crc32.ShiftByte | aquaOneCore/src/Config/Crc32.cpp:15-18 | Eight masked shifts are eight steps of the reflected polynomial division |
| Crc32.ComputeCrc | aquaOneCore/src/Config/Crc32.cpp:6-23 | The nested loops compute the checksum of the specification |
| Crc32.CheckValue | aquaOneCore/src/Config/Crc32.cpp:6-23 | The checksum of 123456789 is the check value CBF43926 |
| Crc32.RegisterLinear | aquaOneCore/src/Config/Crc32.cpp:13-20 | The register is linear in start value and message together, for messages of any length |
| Crc32.CrcDifference | aquaOneCore/src/Config/Crc32.cpp:6-23 | The checksums of two messages differ by the plain remainder of their difference |
| Crc32.CrcAffine | aquaOneCore/src/Config/Crc32.cpp:6-23 | The checksum of the XOR of three messages is the XOR of theirs |
| Crc32.Undetected | aquaOneCore/src/Config/Crc32.cpp:6-23 | Damage goes unnoticed exactly when its difference pattern has remainder zero |
| Crc32.BurstDetected | aquaOneCore/src/Config/Crc32.cpp:6-23 | Any change confined to four consecutive bytes changes the checksum |
| Crc32.SealedIffResidue | aquaOneCore/src/Config/Crc32.cpp:6-23 | Message and stored checksum match exactly when dividing both together leaves one fixed remainder |
| Crc32.SealDetectsBurst | aquaOneCore/src/Config/StorageService.cpp:518-528 | No four-byte change turns a sealed header into another sealed one, even across the end of the covered bytes |
| Crc32.ChecksumBurst | aquaOneCore/src/Config/Crc32.cpp:6-23 | The same as a number: a four-byte change always changes the stored checksum |
| StorageRecord.RawExact | aquaOneCore/src/Config/StorageService.cpp:479-564 | The raw reader accepts exactly the encodings of records whose fields fit and returns the record; so one blob per record and decode inverts encode |
| StorageRecord.CurrentExact | aquaOneCore/src/Config/StorageService.cpp:394-477 | The typed reader accepts exactly the raw records of its own schema, size and validator |
| StorageRecord.DamageRejected | aquaOneCore/src/Config/StorageService.cpp:394-564 | A change confined to four consecutive bytes anywhere in a stored record makes both readers reject it |
| LittleEndian.NumberOfDigits | aquaOneCore/src/Config/StorageService.cpp:634-665 | Reading a written integer returns it |
| LittleEndian.DigitsOfNumber | aquaOneCore/src/Config/StorageService.cpp:634-665 | Writing a read integer returns its bytes |
| StorageRegister.LatestIsSuccessor | aquaOneCore/src/Config/StorageService.cpp:626-632 | Of two neighbouring generations the later one is selected, across the wrap at 2^32 |
| StorageRegister.TypedSelection | aquaOneCore/src/Config/StorageService.cpp:566-599 | The typed reader selects the newest record when it is of its format, and otherwise at most its predecessor |
| StorageRegister.BaseIsNewest | aquaOneCore/src/Config/StorageService.cpp:199-253 | A grounded save builds on the newest record |
| StorageRegister.TargetSpares | aquaOneCore/src/Config/StorageService.cpp:235-253 | A save spares the record it would fall back to exactly when it builds on it, or that record sits in slot B with nothing else readable |
| StorageRegister.PlainSaveHitsOlderFormat | aquaOneCore/src/Config/StorageService.cpp:235-253 | A store where it does not: one record of an older format in slot A is what a plain save of newer software writes over |
| StorageRegister.WriteBeside | aquaOneCore/src/Config/StorageService.cpp:241-305 | After a complete write the new record is the newest; after a torn one the old one still is; and the slots stay neighbours |
| StorageHistory.SaveEffect | aquaOneCore/src/Config/StorageService.cpp:184-330 | A save that reports success has stored its payload, a failing one has changed nothing that a load would see, NoChange has written nothing, and the fallback record is never touched |
| StorageHistory.SaveService | aquaOneCore/src/Config/StorageService.cpp:184-330 | A save leaves status fields and raw base describing what the store holds |
| StorageHistory.SaveExact | aquaOneCore/src/Config/StorageService.cpp:199-330 | Each result of a save has exactly one cause: not open, invalid, unchanged content, a complete write, or a torn write told apart by its length; and a success carries the next generation, the first one 1 |
| StorageHistory.NoChangeExact | aquaOneCore/src/Config/StorageService.cpp:216-232 | Nothing is written exactly when the newest record already has this schema and payload |
| StorageHistory.BeginExact | aquaOneCore/src/Config/StorageService.cpp:33-58 | begin succeeds exactly with proper sizes and names over a backend that is or can be opened |
| StorageHistory.SuccessReadsBack | aquaOneCore/src/Config/StorageService.cpp:285-330 | Whatever becomes of a write, success is reported only when the record reads back as it was to be written |
| StorageHistory.LoadExact | aquaOneCore/src/Config/StorageService.cpp:60-89 | A load returns something exactly when the service is open and sees a record, and reports which |
| StorageHistory.StatusMeans | aquaOneCore/src/Config/StorageService.cpp:566-632 | The status fields name the record a load would return, or that there is none |
| StorageHistory.WriteEffect | aquaOneCore/src/Config/StorageService.cpp:254-330 | Write and verification succeed exactly when the write completed |
| StorageHistory.StepKeeps | aquaOneCore/src/Config/StorageService.cpp:33-330 | Every operation and power cut keeps the slots neighbours and moves the register as its caller may expect |
| StorageHistory.CrashAtomicRegister | aquaOneCore/src/Config/StorageService.cpp:33-330 | For every sequence of starts, loads, saves, failed writes, and restarts and power cuts at any moment, the store holds the last completed content, or where a cut hit a save the old or the new one; two readable slots always differ by one generation modulo 2^32 |
| StorageHistory.SingleFormatRun | aquaOneCore/src/Config/StorageService.cpp:33-330 | Software that keeps one format may always save, and load returns what the register permits |
| StorageHistory.RawLoadReturns | aquaOneCore/src/Config/StorageService.cpp:91-163 | loadLatestRaw returns the stored content, and from then on raw saves build on it |
| StorageHistory.RawLoadExact | aquaOneCore/src/Config/StorageService.cpp:91-163 | The raw load answers Empty exactly for an untouched store and NoValidRecord exactly for one in which something is stored and nothing can be read |
| StorageHistory.BasedKeeps | aquaOneCore/src/Config/StorageService.cpp:165-182 | That stays so however many later saves fail |
| StorageHistory.LoadReturns | aquaOneCore/src/Config/StorageService.cpp:60-89 | load returns the stored payload when the newest record is of its format, and the status agrees |
| StorageService.StorageService.Begin | aquaOneCore/src/Config/StorageService.cpp:33-58 | begin, with its configuration checks, as the state function says |
| StorageService.StorageService.Load | aquaOneCore/src/Config/StorageService.cpp:60-89 | load as the state function says |
| StorageService.StorageService.LoadLatestRaw | aquaOneCore/src/Config/StorageService.cpp:91-163 | loadLatestRaw as the state function says |
| StorageService.StorageService.SaveCurrentRaw | aquaOneCore/src/Config/StorageService.cpp:165-182 | saveCurrentRaw as the state function says, with the raw base counting for this save only |
| StorageService.StorageService.Save | aquaOneCore/src/Config/StorageService.cpp:184-330 | save as the state function says: new fields, new blobs, result |
| StorageService.StorageService.Write | aquaOneCore/src/Config/StorageService.cpp:254-330 | Record assembly, write and verification as the state function says |
| StorageService.StorageService.BuildRecord | aquaOneCore/src/Config/StorageService.cpp:254-294 | The record assembled field by field in the buffer is the encoding of its fields and payload |
| StorageService.StorageService.ReadSlot | aquaOneCore/src/Config/StorageService.cpp:394-477 | The typed reader over the buffer is the decoding function |
| StorageService.StorageService.ReadRawSlot | aquaOneCore/src/Config/StorageService.cpp:479-564 | The raw reader over the buffer is the decoding function |
| StorageService.StorageService.SelectLatest | aquaOneCore/src/Config/StorageService.cpp:566-599 | Selection over the two slots as the function says |
| StorageService.StorageService.RefreshStatus | aquaOneCore/src/Config/StorageService.cpp:613-624 | The status fields become those of the record a load would return |
| StorageService.StorageService.ReadUint32 | aquaOneCore/src/Config/StorageService.cpp:641-647 | Four buffer bytes read as the little-endian number |
| StorageService.StorageService.WriteUint32 | aquaOneCore/src/Config/StorageService.cpp:657-665 | Exactly four buffer bytes are replaced, by the digits of the number |
| ConfigModel.OverlapExact | aquaOneCore/src/Config/ConfigLifecycle.cpp:56-66 | The overlap test is exact: two nonempty ranges overlap when they share an address |
| ConfigModel.ValidPlanExact | aquaOneCore/src/Config/ConfigLifecycle.cpp:88-118 | A plan is valid exactly when its three buffers are nonempty and share no address |
| ConfigTheorems.MigrationComposes | aquaOneCore/src/Config/ConfigLifecycle.cpp:172-239 | Decoding and migrating in two swapped buffers is the composition of the steps, defined exactly for versions that are not newer and at most the allowed steps away |
| ConfigTheorems.LoopFollowsComposition | aquaOneCore/src/Config/ConfigLifecycle.cpp:199-238 | Each turn of the loop holds the composition of the steps so far |
| ConfigTheorems.PersistEffect | aquaOneCore/src/Config/ConfigLifecycle.cpp:284-299 | A persist that reports success has stored the encoding at the current version, any other has changed nothing |
| ConfigTheorems.StartupKeeps | aquaOneCore/src/Config/ConfigLifecycle.cpp:388-484 | Startup keeps the lifecycle invariant |
| ConfigTheorems.UpdateKeeps | aquaOneCore/src/Config/ConfigLifecycle.cpp:486-582 | Update keeps the lifecycle invariant |
| ConfigTheorems.DefaultsKeep | aquaOneCore/src/Config/ConfigLifecycle.cpp:327-386 | Falling back to defaults keeps the lifecycle invariant |
| ConfigTheorems.LifeRunKeeps | aquaOneCore/src/Config/ConfigLifecycle.cpp:388-582 | Over any sequence of startups, updates and power cuts: what is active was validated, and whenever desired and active are said to agree the newest record leads to the active configuration |
| ConfigTheorems.OnlyValidatedBecomesActive | aquaOneCore/src/Config/ConfigLifecycle.cpp:301-325 | Only a candidate that passed every validator and was applied becomes active; in an update only after it was stored |
| ConfigTheorems.UpdateStoresFirst | aquaOneCore/src/Config/ConfigLifecycle.cpp:521-582 | What an update stores does not depend on whether it can be applied, and what it activates is what it stored; with a restart or recovery pending the store leads to the candidate |
| ConfigOutcomes.DamagedStart | aquaOneCore/src/Config/ConfigLifecycle.cpp:388-484 | A startup never writes a damaged store: without the option it asks for recovery with nothing activated, with it valid defaults become active and recovery is asked for |
| ConfigOutcomes.FirstStart | aquaOneCore/src/Config/ConfigLifecycle.cpp:388-484 | The first startup activates valid defaults, and reports DefaultsApplied exactly when they can be stored and the write completes; the store then holds them |
| ConfigOutcomes.UnusableRecord | aquaOneCore/src/Config/ConfigLifecycle.cpp:388-484 | A stored record that is too large, of a newer version, not migratable, invalid or not applicable activates and writes nothing, and the result says which |
| ConfigOutcomes.MigratedExact | aquaOneCore/src/Config/ConfigLifecycle.cpp:388-484 | A startup on an old record activates the migrated configuration, and reports Migrated exactly when it could store it |
| ConfigOutcomes.PersistExact | aquaOneCore/src/Config/ConfigLifecycle.cpp:266-299 | Persisting succeeds exactly when the configuration encodes to what the storage format takes and the write completes or is not needed |
| ConfigOutcomes.PersistAnswer | aquaOneCore/src/Config/ConfigLifecycle.cpp:284-299 | Each persistence result has exactly one cause |
| ConfigOutcomes.LifeVersions | aquaOneCore/src/Config/ConfigLifecycle.cpp:388-582 | Over any sequence of startups, updates, cuts and restarts the version fields say what is active and what is stored, and a configuration counts as aligned only while the store holds the current version |
| ConfigOutcomes.AcceptedUpdate | aquaOneCore/src/Config/ConfigLifecycle.cpp:486-582 | A stored update becomes active exactly when it may run without a restart and can be applied; the status says which; an update that cannot be stored changes nothing |
| ConfigOutcomes.RefusedUpdate | aquaOneCore/src/Config/ConfigLifecycle.cpp:486-582 | A proposal that does not decode or validate changes neither store nor active configuration |
| ConfigTheorems.CurrentRecordStarts | aquaOneCore/src/Config/ConfigLifecycle.cpp:414-469 | A stored record of the current version is what every fresh startup activates, without a write |
| ConfigTheorems.MigrationIsDurable | aquaOneCore/src/Config/ConfigLifecycle.cpp:465-484 | After a startup that reports Migrated any fresh startup succeeds from the stored record with the same configuration and writes nothing |
| ConfigTheorems.MigrationRetry | aquaOneCore/src/Config/ConfigLifecycle.cpp:471-479 | When the supply fails during the migrated write, a retry on a fresh instance reaches the same configuration |
| ConfigLifecycle.ConfigLifecycle.DecodeToCandidate | aquaOneCore/src/Config/ConfigLifecycle.cpp:172-239 | The loop that swaps the two candidate buffers leaves the migrated candidate in the buffer it returns |
| ConfigLifecycle.ConfigLifecycle.PersistCandidate | aquaOneCore/src/Config/ConfigLifecycle.cpp:266-299 | Encoding into the raw buffer and saving, as the state function says |
| ConfigLifecycle.ConfigLifecycle.UseDefaults | aquaOneCore/src/Config/ConfigLifecycle.cpp:327-386 | useDefaults as the state function says |
| ConfigLifecycle.ConfigLifecycle.Startup | aquaOneCore/src/Config/ConfigLifecycle.cpp:388-484 | startup as the state function says |
| ConfigLifecycle.ConfigLifecycle.Update | aquaOneCore/src/Config/ConfigLifecycle.cpp:486-582 | update as the state function says |
| Calendar.CivilThenDays | aquaOneCore/src/Time/ResilientTimeService.cpp:8-30 | Every integer converts to a valid date and back to itself |
| Calendar.DaysThenCivil | aquaOneCore/src/Time/ResilientTimeService.cpp:8-30 | Every valid date converts to a number and back to itself |
| Calendar.CountsDays | aquaOneCore/src/Time/ResilientTimeService.cpp:8-15 | The day number is zero on 1970-01-01 and grows by one with every next day of the calendar |
| Calendar.EarlierIsSmaller | aquaOneCore/src/Time/ResilientTimeService.cpp:8-15 | Day numbers are strictly monotone |
| Calendar.YearRecovered | aquaOneCore/src/Time/ResilientTimeService.cpp:21-25 | The year of the era is recovered from the day of the era |
| Calendar.ClosedForm | aquaOneCore/src/Time/ResilientTimeService.cpp:8-15 | The era arithmetic with truncating division is the floor-division sum of days |
| ClockTime.AddSecondsMoves | aquaOneCore/src/Time/ResilientTimeService.cpp:32-58 | addSeconds moves the epoch count by exactly n if and only if the 32-bit sum does not overflow and the year stays within 16 bits; an overflow alone costs 2^32 seconds |
| ClockTime.FailingSums | aquaOneCore/src/Time/ResilientTimeService.cpp:32-58 | One second after the last second of year 65535, and 2^32 - 1 seconds after a noon, addSeconds shows a wrong instant |
| ClockTime.ResilientTimeService.Now | aquaOneCore/src/Time/ResilientTimeService.cpp:147-156 | However the millisecond counter wrapped, now shows the cached time plus the whole seconds elapsed |
| ClockTime.ResilientTimeService.SyncUtc | aquaOneCore/src/Time/ResilientTimeService.cpp:202-221 | Only a valid UTC time replaces the cache |
| ClockTime.EpochInjective | aquaOneCore/src/Time/ResilientTimeService.cpp:32-58 | An instant has one proper rendering |
| ClockTime.AgreesWithAddSeconds | aquaOneCore/src/Time/ResilientTimeService.cpp:32-58 | Any proper time n seconds later is the one addSeconds shows |
| ClockTime.AddOneSecond | aquaOneCore/src/Time/RtcService.cpp:80-111 | The carry from seconds to years gives a proper time, one second later if and only if the year stays within 16 bits |
| ClockTime.AddMinutes | aquaOneCore/src/Time/EuropeWarsawTimeService.cpp:115-152 | Carrying whole days one at a time gives a proper time, later by exactly the minutes added if and only if the sum of minutes and the year stay within 16 bits |
| WarsawTime.ZellerExact | aquaOneCore/src/Time/EuropeWarsawTimeService.cpp:34-58 | Zeller's weekday is (day number + 4) mod 7 for every valid date if and only if it is not January or February of the year 0, where the 16-bit year wraps |
| WarsawTime.LastSundayExact | aquaOneCore/src/Time/EuropeWarsawTimeService.cpp:60-71 | lastSunday is the one Sunday among the last seven days of the month |
| WarsawTime.DstInterval | aquaOneCore/src/Time/EuropeWarsawTimeService.cpp:73-113 | Summer time holds exactly from 01:00 UTC on the last Sunday of March up to 01:00 UTC on the last Sunday of October |
| WarsawTime.ConvertUtcToWarsaw | aquaOneCore/src/Time/EuropeWarsawTimeService.cpp:203-218 | Warsaw time is the instant plus two hours inside that interval and one hour outside, if and only if the year stays within 16 bits |
| StartupModel.CheckNamespace | aquaOneCore/src/System/Startup.cpp:30-49 | The scan with its segment-start flag accepts exactly the well-formed namespaces |
| StartupTheorems.PlanErrorExact | aquaOneCore/src/System/ApplicationRuntime.cpp:255-441 | Validation finds nothing exactly when ids are present and distinct, phases ordinary and sorted, requirements legal and storage consistent |
| StartupTheorems.PlanComplaintIsTrue | aquaOneCore/src/System/ApplicationRuntime.cpp:255-441 | What validation reports is so: the participant it names is the first defective one and has the defect named |
| StartupTheorems.EarlyErrorExact | aquaOneCore/src/System/ApplicationRuntime.cpp:218-242 | Startup is refused before any callback exactly when the early safe outputs have no callback or no name, and the record says which |
| StartupTheorems.PassesAreOneWalk | aquaOneCore/src/System/ApplicationRuntime.cpp:124-136 | The phase-filtered passes are one left-to-right walk with the safety gate between DOMAIN_INIT and NETWORK_INIT |
| StartupTheorems.PhaseIsStretch | aquaOneCore/src/System/ApplicationRuntime.cpp:443-459 | A pass for one phase is the walk over the stretch of participants of that phase |
| StartupTheorems.CutExact | aquaOneCore/src/System/ApplicationRuntime.cpp:443-459 | In a sorted plan the participants before a phase are a head of the plan |
| StartupTrace.StartIsOneWalk | aquaOneCore/src/System/ApplicationRuntime.cpp:109-137 | A startup on a valid plan is one walk over early safe outputs, participants and gate |
| StartupTrace.StartTrace | aquaOneCore/src/System/ApplicationRuntime.cpp:109-137 | The callbacks made are none without early safe outputs, only those on an invalid plan, else exactly the schedule up to the first fatal failure, each once; and startup succeeds exactly when nothing was fatal |
| StartupTrace.StartFailures | aquaOneCore/src/System/Startup.cpp:251-262 | The failures counted are exactly the optional failures among the callbacks made, in order |
| StartupTrace.LockedBeforeGate | aquaOneCore/src/System/ApplicationRuntime.cpp:461-475 | After every number of callbacks the outputs are clear exactly when the gate has been called and nothing was fatal |
| StartupTrace.LockedThroughout | aquaOneCore/src/System/ApplicationRuntime.cpp:109-145 | In every state of a startup on any plan, valid or not, between any two callbacks of the phase passes, the outputs are clear exactly when the gate has been called and nothing was fatal, and only if the gate plainly succeeded |
| StartupTrace.FailedStartStaysClosed | aquaOneCore/src/System/ApplicationRuntime.cpp:109-216 | After a failed start, whatever handoffs, refreshes and maintenance requests follow, the runtime is in error, faulty and locked |
| StartupTrace.StartEnds | aquaOneCore/src/System/ApplicationRuntime.cpp:581-611 | A startup ends running, clear and degraded exactly by optional failures; or in error, faulty and locked |
| StartupTrace.WalkEffect | aquaOneCore/src/System/ApplicationRuntime.cpp:477-534 | A walk makes exactly the callbacks up to the first fatal one and records exactly the tolerated failures |
| StartupTrace.CallEffect | aquaOneCore/src/System/ApplicationRuntime.cpp:477-579 | What one callback adds to trace, failures and status |
| StartupTrace.VerdictExact | aquaOneCore/src/System/ApplicationRuntime.cpp:477-579 | A special callback stops startup unless it plainly succeeded; a participant by a broken contract, a required one by anything but success; and exactly valid failures of others are tolerated |
| StartupTrace.CodeExact | aquaOneCore/src/System/Startup.cpp:9-69 | A code is valid exactly when its owner is tokens joined by dots and its local part a token |
| StartupTrace.StartComplains | aquaOneCore/src/System/ApplicationRuntime.cpp:477-603 | On a valid plan the fatal record says which callback stopped the startup, and why |
| ApplicationRuntime.StartupReport.AddOptionalFailure | aquaOneCore/src/System/Startup.cpp:251-262 | Every optional failure is counted; stored are the first ones up to the capacity |
| ApplicationRuntime.StartupReport.Truncated | aquaOneCore/src/System/Startup.cpp:237-239 | Truncation is reported exactly when more failed than fit |
| ApplicationRuntime.ApplicationRuntime.CheckParticipant | aquaOneCore/src/System/ApplicationRuntime.cpp:322-438 | The checks of one participant, in their order |
| ApplicationRuntime.ApplicationRuntime.ValidateFullPlan | aquaOneCore/src/System/ApplicationRuntime.cpp:255-441 | Validation as the function says: the first complaint fails the startup |
| ApplicationRuntime.ApplicationRuntime.ExecutePhase | aquaOneCore/src/System/ApplicationRuntime.cpp:443-459 | One pass as the function says |
| ApplicationRuntime.ApplicationRuntime.ExecuteSafetyGate | aquaOneCore/src/System/ApplicationRuntime.cpp:461-475 | The gate as the function says |
| ApplicationRuntime.ApplicationRuntime.CallParticipant | aquaOneCore/src/System/ApplicationRuntime.cpp:477-534 | A participant's result as the function says |
| ApplicationRuntime.ApplicationRuntime.Fail | aquaOneCore/src/System/ApplicationRuntime.cpp:581-603 | A fatal failure locks the status, is recorded with the current phase, and completes the report |
| ApplicationRuntime.ApplicationRuntime.Start | aquaOneCore/src/System/ApplicationRuntime.cpp:109-137 | start as the function says, once: a second call changes nothing |
| ApplicationRuntime.ApplicationRuntime.HandoffRuntimeState | aquaOneCore/src/System/ApplicationRuntime.cpp:147-167 | The handoff as the state machine says: refused activation leaves error, fault and locked |
| ApplicationRuntime.ApplicationRuntime.RequestMaintenanceTransition | aquaOneCore/src/System/ApplicationRuntime.cpp:173-216 | The maintenance transition as the state machine says |
| RuntimeState.HandoffIsConservative | aquaOneCore/src/System/RuntimeStateCoordinator.cpp:112-132 | An accepted handoff never improves the health and never unlocks the safety that startup ended with |
| RuntimeState.HandoffExact | aquaOneCore/src/System/RuntimeStateCoordinator.cpp:112-132 | A handoff is accepted exactly after a successful startup, by a free coordinator with valid providers that report nothing better than startup found; a refused activation fails closed |
| RuntimeState.TransitionAnswers | aquaOneCore/src/System/ApplicationRuntime.cpp:173-216 | Each answer to a maintenance request has exactly one cause, and the participant is asked only at the other end of the transition |
| RuntimeState.TransitionMoves | aquaOneCore/src/System/ApplicationRuntime.cpp:173-216 | A maintenance request moves the operational state exactly when it completes, fails closed when the participant fails, and otherwise changes nothing |
| RuntimeState.ClosedForever | aquaOneCore/src/System/ApplicationRuntime.cpp:147-216 | Once startup failed, a handoff was refused by activation or a maintenance step failed, every later state is error, fault and locked |
| RuntimeState.FailureCloses | aquaOneCore/src/System/ApplicationRuntime.cpp:147-216 | Each of these three failures leads to that state |
| RuntimeState.AggregateExact | aquaOneCore/src/System/RuntimeStateCoordinator.cpp:134-173 | Aggregation succeeds exactly on valid contributions and gives the worst health, and locked when anyone locks |
| RuntimeState.AggregateUnique | aquaOneCore/src/System/RuntimeStateCoordinator.cpp:134-173 | Only one pair satisfies that |
| RuntimeState.RefreshPublishes | aquaOneCore/src/System/RuntimeStateCoordinator.cpp:85-102 | A refresh publishes the aggregate, or fault and locked when latched or invalid |
| RuntimeState.RefreshExact | aquaOneCore/src/System/RuntimeStateCoordinator.cpp:85-102 | A refresh answers Inactive exactly without an owner, Refreshed exactly with valid providers, and touches health and safety only |
| RuntimeState.RuntimeStateCoordinator.Aggregate | aquaOneCore/src/System/RuntimeStateCoordinator.cpp:134-173 | The two loops compute the aggregate |
| RuntimeState.RuntimeStateCoordinator.Refresh | aquaOneCore/src/System/RuntimeStateCoordinator.cpp:85-102 | refresh writes the borrowed status as the state machine says |
| RuntimeState.RuntimeStateCoordinator.LatchRuntimeFailure | aquaOneCore/src/System/RuntimeStateCoordinator.cpp:104-110 | The latch is set for good and the borrowed status made faulty and locked |
| RuntimeState.RuntimeStateCoordinator.Activate | aquaOneCore/src/System/RuntimeStateCoordinator.cpp:112-132 | Activation takes the status over exactly when it is not better than startup found it |
| BasicAuth.VerifyHttpBasicAuthorization | aquaOneCore/src/Web/HttpBasicAuth.cpp:22-74 | Within the length limits a header is accepted exactly when it is the scheme in any case, one space, and the canonical base64 of user, colon, password, with no colon in the user |
| BasicAuth.Base64Exact | aquaOneCore/src/Web/HttpBasicAuth.cpp:40-58 | Exactly one text decodes to given bytes: their canonical encoding |
| BasicAuth.GroupExact | aquaOneCore/src/Web/HttpBasicAuth.cpp:40-58 | A group of four characters decodes to some bytes exactly when it is their canonical encoding, padding only at the end and over zero bits |
| BasicAuth.KnownEncodings | aquaOneCore/src/Web/HttpBasicAuth.cpp:40-58 | Known encodings, with both special digits and every length of padding (section 10 of RFC 4648) |
| BasicAuth.DecodeInto | aquaOneCore/src/Web/HttpBasicAuth.cpp:32-58 | The decoding loop never overruns its 189 bytes and holds the decoded bytes |
| BasicAuth.CompareCredentials | aquaOneCore/src/Web/HttpBasicAuth.cpp:59-74 | Split at the first colon and comparison decide equality with user, colon, password for colon-free users |
| CloseReason.ValidCloseReason | aquaOneCore/src/Web/WebSocketControlFrames.h:23-50 | The scan accepts exactly the texts that split into recognised characters |
| CloseReason.ValidExact | aquaOneCore/src/Web/WebSocketControlFrames.h:23-50 | Accepted are exactly the concatenations of encodings of Unicode scalar values (section 4 of RFC 3629) |
| CloseReason.DecompositionUnique | aquaOneCore/src/Web/WebSocketControlFrames.h:23-50 | Every accepted text has exactly one such decomposition |
| CloseReason.FirstIsEncoded | aquaOneCore/src/Web/WebSocketControlFrames.h:26-47 | A recognised character is the encoding of a scalar value |
| CloseReason.CloseEchoed | aquaOneCore/src/Web/WebSocketControlFrames.h:52-79 | A close frame is echoed exactly when it is whole, short, and empty or a permitted code followed by encoded Unicode text |
| CloseReason.ControlExact | aquaOneCore/src/Web/WebSocketControlFrames.h:65-83 | Every control frame is answered as it should: pings by pongs with their payload, well-formed closes by themselves, and the result says whether the reply was sent |
| FormBody.ValidateFieldSet | aquaOneHydro/src/web/HydroWebProtocol.cpp:75-103 | The loops with the set of seen fields compute the check of the specification |
| FormBody.AcceptedBody | aquaOneHydro/src/web/HydroWebProtocol.cpp:75-103 | Accepted bodies are exactly those of key-value pairs that name only known fields, none twice, and every field that is not optional |
| FormBody.FindValue | aquaOneHydro/src/web/HydroWebProtocol.cpp:130-150 | The lookup returns the value of the first segment with the key |
| FormBody.LookupExact | aquaOneHydro/src/web/HydroWebProtocol.cpp:130-150 | The lookup finds a value exactly when some segment is the key, an equals sign and that value, and no segment before it sets the key |
| FormBody.LookupOnly | aquaOneHydro/src/web/HydroWebProtocol.cpp:130-150 | In an accepted body that is the only segment with the key |
| FormBody.ValidEncoding | aquaOneHydro/src/web/HydroWebProtocol.cpp:41-60 | The scan accepts exactly nonempty NUL-free bodies with whole, hexadecimal, non-NUL escapes |
| FormBody.Decode | aquaOneHydro/src/web/HydroWebProtocol.cpp:105-128 | Decoding succeeds exactly when the text decodes and fits with its terminator, and then holds the decoded bytes |
| FormDecoding.DecodedExact | aquaOneHydro/src/web/HydroWebProtocol.cpp:105-128 | A text decodes to a value exactly when it is made of pieces that spell its bytes: the byte itself, a plus for a space, or an escape in hexadecimal digits of either case for any byte but NUL |
| FormDecoding.EncodingExact | aquaOneHydro/src/web/HydroWebProtocol.cpp:41-60 | A body is well encoded exactly when it holds no NUL and spells some value |
| FormBody.PrintedBodyParses | aquaOneHydro/src/web/HydroWebProtocol.cpp:41-165 | Percent-encoding any NUL-free values, in any field order and with any choice of plain bytes, gives an accepted body in which every key finds its value and every value decodes to the one printed |
| FormBody.SegmentsOfJoin | aquaOneHydro/src/web/HydroWebProtocol.cpp:80-98 | Splitting at ampersands undoes joining with them |
| FormBody.EscapeDecodes | aquaOneHydro/src/web/HydroWebProtocol.cpp:105-128 | Decoding undoes escaping |
| MillisClock.ObservationExact | aquaOneCore/src/Time/NtpService.cpp:137-151 | An observation keeps the extended clock at a constant offset from true time if and only if less than one 2^32 ms cycle has passed |
| MillisClock.LegacyMillisClock.Observe | aquaOneCore/src/Time/NtpService.cpp:137-145 | The object form of an observation |
| NtpService.LegacyClockRefines | aquaOneCore/src/Time/NtpService.cpp:137-494 | When every operation comes less than 2^32 ms after the last observation, the service on the wrapping counter answers, requests, times out and falls due exactly as on a true 64-bit clock, and so do due and age questions asked at any time in between |
| NtpService.StepShifts | aquaOneCore/src/Time/NtpService.cpp:199-494 | Each operation behaves the same at two times that differ by a constant |
| NtpService.NtpService.Begin | aquaOneCore/src/Time/NtpService.cpp:185-253 | begin as the state function says, on either clock |
| NtpService.NtpService.RequestSync | aquaOneCore/src/Time/NtpService.cpp:269-308 | requestSyncAt as the state function says |
| NtpService.NtpService.RequestPeriodicSync | aquaOneCore/src/Time/NtpService.cpp:310-327 | requestPeriodicSync as the state function says |
| NtpService.NtpService.Update | aquaOneCore/src/Time/NtpService.cpp:329-398 | update as the state function says, including its requests to backend and clock chip |
| NtpService.NtpService.TakeReceivedUtc | aquaOneCore/src/Time/NtpService.cpp:420-428 | A received time is handed over once |
| NtpService.RunCoherent | aquaOneCore/src/Time/NtpService.cpp:199-494 | After any run of operations the backend has been left running exactly if an attempt is in progress |
| NtpService.AttemptEnds | aquaOneCore/src/Time/NtpService.cpp:343-398 | An update ends an attempt exactly when the network is gone, the timeout is reached or the backend answers; only a valid answer in time counts as a fetch, and the backend is not asked after the timeout |
| NtpService.FetchExact | aquaOneCore/src/Time/NtpService.cpp:343-398 | An attempt that ends counts as fetched exactly when a valid time arrived in time, and hands that time over; as synchronised exactly when the clock chip took it too, at age zero |
| NtpService.ChipSetExact | aquaOneCore/src/Time/NtpService.cpp:372-390 | The clock chip is set exactly when a time was fetched and it is to be set, and to that time |
| NtpService.TakenOnce | aquaOneCore/src/Time/NtpService.cpp:420-428 | A received time is handed over exactly once |
| NtpService.RequestExact | aquaOneCore/src/Time/NtpService.cpp:269-308 | A request starts an attempt exactly when the service is idle, the network up and the backend starts; one that cannot start counts as failed |
| NtpService.PeriodicExact | aquaOneCore/src/Time/NtpService.cpp:310-327 | A periodic request acts exactly when one is due |
| NtpService.BeginExact | aquaOneCore/src/Time/NtpService.cpp:199-253 | A begin stops what runs and forgets every result, and succeeds exactly on a valid configuration |
| NtpService.DueAfterAttempt | aquaOneCore/src/Time/NtpService.cpp:440-494 | After an attempt that ended, successful or not, the next periodic one is due exactly one interval later |
| NetworkService.ReconnectsAreSpaced | aquaOneCore/src/Network/NetworkService.cpp:319-375 | In every run two attempts to reconnect are at least the shortest configured wait apart |
| NetworkService.ReconnectWaits | aquaOneCore/src/Network/NetworkService.cpp:319-375 | Only an initialised, disconnected station with automatic reconnect tries again, not before its wait is over, and the wait then starts anew |
| NetworkService.ReconnectExact | aquaOneCore/src/Network/NetworkService.cpp:319-375 | Exactly when an update tries to reconnect, and which wait it begins otherwise |
| NetworkService.ReconnectsInTime | aquaOneCore/src/Network/NetworkService.cpp:319-375 | A station that stays disconnected is reconnected at the first update one wait or more after it was first seen so, and not before |
| NetworkService.ConnectedExact | aquaOneCore/src/Network/NetworkService.cpp:151-195 | What an update shows of a connected or connecting station: uptime counts from the first update that saw it connected |
| NetworkService.UptimeExact | aquaOneCore/src/Network/NetworkService.cpp:249-268 | Over any updates the uptime counts from the update that first saw the unbroken connection |
| NetworkService.DownUnlessConnected | aquaOneCore/src/Network/NetworkService.cpp:180-268 | After an update that did not see the connection the station is not up and its uptime is zero |
| NetworkService.BeginExact | aquaOneCore/src/Network/NetworkService.cpp:56-142 | A begin starts from nothing and is accepted exactly on a valid configuration whose radio, access point and station start |
| NetworkService.LegacyClockRefines | aquaOneCore/src/Network/NetworkService.cpp:30-44 | The same for the station connection, begun again any number of times: timeouts, reconnects, reconnect count, and uptime questions at any time in between |
| NetworkService.UpdateShifts | aquaOneCore/src/Network/NetworkService.cpp:151-195 | An update behaves the same at two times that differ by a constant |
| NetworkService.NetworkService.Update | aquaOneCore/src/Network/NetworkService.cpp:144-195 | update as the state function says, on either clock |
| NetworkService.NetworkService.ObserveDisconnected | aquaOneCore/src/Network/NetworkService.cpp:319-375 | observeDisconnected as the state function says |

## Left out

- The route: `DoserNativeOtaRoute` is modelled on values, as program counter steps of the HTTPD task, because its point is the interleaving with the application task inside each of its calls; update in place of the route object is not modelled. The receive loop appears there as the steps that read a piece or abort, and on its own as a method over a handler and a socket (`HttpStreaming`); `EventIsModelled` says that those steps cover its events.
- Interleaving inside a locked section, and failing locks: every locked section is atomic and every lock succeeds.
- Parser buffers: file name and header block are sequences; the carry is an array, as in the source.
- The unreachable guard of the parser against a carry longer than its buffer is not written out; the invariant shows the carry always fits.
- StorageHistory.CrashAtomicRegister: assumes faithful reads and saves that build on the newest record (`Grounded`), which `SingleFormatRun` and `RawLoadReturns` with `BasedKeeps` establish for the two ways the source saves.
- StorageService.StorageService.Load: the failure branch after a second, different read of the same slot is not modelled, because reads are faithful.
- Storage payload pointers: overlap of the payload with the record buffer cannot be expressed with sequences.
- Null pointers and missing mandatory callbacks of the configuration plan: references are never null here; `validPlan` keeps its capacity and overlap checks.
- Adapter callbacks of the configuration lifecycle are functions; whether `apply` succeeds is a parameter of each call.
- ConfigTheorems.MigrationIsDurable: assumes that decode inverts encode at the current version and that a decoded candidate fits candidate buffer A.
- Re-entrant calls of `start` from inside a callback: callbacks are answers, not code.
- Lifetime and ownership of borrowed providers: their contributions are parameters of each refresh.
- ResilientTimeService: probe scheduling, failure and recovery counters, and the readings of the clock chip are left out; only the cache and `now` are modelled.
- NtpService: server names are one validity flag, and the age query with a 32-bit result is given in full width.
- NetworkService: SSIDs, addresses, signal strength and the access point state are left out; `begin` is a function of the answers of the radio.
- HTTP bytes, authentication prompts, response texts, logging and diagnostics: only the response code and the single-response rule are kept.
- Numeric parsing of the settings values (`parseFloat`, `strtoul`) is left out.
- Hardware adapters, HTML, JSON, MQTT, the web bridges, schedulers and the other aquaOne products: not part of this model.
