# The protected message path of the RC server, verified

This project models the message path of an RC server that speaks the OPEN Alliance TC18
Remote Control Protocol (specification v0.5.1_RC, over IEEE 1722), and the state machines
that guard it. A payload is cut into numbered segments, packed into ACF frames, protected by
a CRC32 trailer, reassembled per request stream, checked, and dispatched to an endpoint.

`dafny verify dfyconfig.toml` checks everything.

| file | what it models |
|---|---|
| `Fragment`, `ReassemblyRuns` | the planner, the in-place reassembler with its growable buffer, and what whole runs of it keep |
| `Acf`, `AnyAcf` | the packed header, padding, ABB and GBB frames |
| `Crc`, `CrcDetection`, `E2e` | the CRC32 register and its meaning as division over GF(2), what it detects; wrapping and unwrapping |
| `SequenceNumbers`, `FaultTracker` | per-stream sequence checking and the latched stream faults |
| `EndpointTable` | the stream-scoped endpoint table |
| `ServerSteps`, `Server` | the two protected dispatch entry points and the plain one, as steps on values and as methods of a class that owns the table, the reassemblers and the tracker |
| `ServerRuns`, `ServerFaults`, `ServerVerdicts`, `EndToEnd` | safety over every run, the fault latch, what decides each answer, and delivery from a sender's payload to the endpoint |
| `Can`, `CanEndToEnd` | CAN frames in one or more messages, and a fragmented CAN request sent through the server |
| `RegisterBlock`, `SpiRegisters`, `CanRegisters` | EP_func register blocks written through render, patch and parse |
| `LoanPool`, `Iseled`, `Debounce`, `Lifecycle`, `Loopback` | the buffer pool, the ISELED symbol code, the debounce filter, the lifecycle machine, the loopback ring and presentation-time extension |
| `Octets`, `Wrappers`, `Counting` | octets, integer casts, big-endian encodings, optional values and results, counting |

Code that works in place is a class or an array method here, proved against a step function
on values; what the program promises is then proved of those step functions and of their runs.

## Results that are not what one might expect

Each comes with an input and an exact condition.

* The planner adds two `size_t` values before dividing, and when that sum wraps it refuses payloads
  that two segments could carry: `Fragment.PlanRefusesExactlyWhen`,
  `Fragment.WrappedSumRefusesTwoSegments`.
* A frame with fewer than three real octets can lose its pad field to the trailer and is then not
  returned by unwrapping; frames of the ACF encoders have at least eight: `E2e.RoundTripExactlyWhen`,
  `E2e.ShortFrameIsLost`.
* Attaching another tracker releases a latched stream without a reset, and the plain entry point
  does not look at the latch: `ServerFaults.LatchHoldsExactlyWhen`,
  `ServerFaults.LatchGatesProtectedCalls`.
* Replacing the request-stream table does not empty the reassemblers, so another stream can complete
  a message when its slot is moved while busy: `ServerRuns.HeldFromServedExactlyWhen`, `EndToEnd.MovedSlotCompletesForeignMessage`.
* The CAN decoder keeps eight bits of the 12-bit segment number; the cap of 256 segments is what
  makes the round trip hold: `Can.NarrowedMessageCompletesExactlyWhen`.
* An SPI channel whose mode or polarity is outside its enumeration is normalised by any
  configuration write: `SpiRegisters.ParseOfRenderExactlyWhen`, `SpiRegisters.WriteKeeps`,
  `SpiRegisters.UndefinedModeIsNormalised`.
* Near either end of the 64-bit range the extended timestamp wraps and is not close to the reference:
  `Loopback.ExtensionIsClosest`, `Loopback.ExtensionWrapsAtZero`.
* Destroying the pool leaves exactly the buffers of live loans unfreed:
  `LoanPool.DestroyFreesAllExactlyWhen`, `LoanPool.LiveLoanIsLeaked`.

In two places the code differs from its own headers; the model follows the code.

* The header of `rcp_lifecycle_check_rcp_cfg` says that only `has_stream_assoc` decides which
  endpoints bind a stream; the code also asks that the endpoint is in use:
  `Lifecycle.DocumentedRuleExactlyWhen`, `Lifecycle.UnusedEndpointIsDocumentedOnly`.
* The header of the debounce filter says that, except on the very first call, a change is a difference
  between the returned value and the one before; the code does not report a first settling on true by a
  later call either: `Debounce.FlagAsPromisedExactlyWhen`, `Debounce.FirstSettlingIsNotFlagged`.

## Model

| member | source | states |
|---|---|---|
| Fragment.PlanCountIsCeiling | src/fragment.c:26-40 | a plan has the fewest segments that can carry the payload, at most 4097 |
| Fragment.PlanRefusesExactlyWhen | src/fragment.c:26-40 | a non-empty payload has no plan exactly when fragmentation is off, 4097 segments are too few, or the `size_t` sum wraps |
| Fragment.WrappedSumRefusesTwoSegments | src/fragment.c:26-40 | a payload two segments could carry but the wrapped sum refuses |
| Fragment.Plan | src/fragment.c:45-82 | the verdict, and on success exactly the planned segments and nothing else of the array; on failure the array is untouched |
| Fragment.FillSegments | src/fragment.c:62-82 | the filling loop stores exactly the planned segments and leaves the rest of the array alone |
| Fragment.PlanTilesPayload | src/fragment.c:45-82 | segments tile the payload without gap or overlap, each non-empty and within the limit, numbered by position, only the last with ms clear |
| Fragment.PlanVerdictMeans | src/fragment.c:45-60 | DISABLED exactly for a payload without fragmentation, TOO_MANY exactly when 4097 segments are too few or the sum wraps, and OK only with the fewest segments that carry the payload |
| Fragment.Reassembler.Feed | src/fragment.c:158-192 | the in-place feed is the step of the specification on contents, capacity, expected number and collecting flag |
| Fragment.Reassembler.Append | src/fragment.c:130-156 | growth and copy append exactly the payload; a failed allocation changes nothing |
| Fragment.Reassembler.Reset | src/fragment.c:111-118 | back to empty, the bound kept |
| ReassemblyRuns.ReassemblerRun | src/fragment.c:130-192 | after any feeds, rejected ones included: contents are the accepted payloads, current intermediates are numbered 0,1,2,... mod 65536, length within the bound, length <= capacity <= 2 * length, and all growing together moved no more octets than the capacity, as a block without room beside the old one can only grow in place |
| ReassemblyRuns.AcceptedExactlyWhenNext | src/fragment.c:158-192 | a fragment is accepted exactly when it is the next of the observed message, fits and its growth is granted; a rejected one changes nothing, and the error says which of these failed, in the code's order |
| ReassemblyRuns.PlanThenReassemble | src/fragment.c:26-192 | feeding the planned fragments in order answers CONTINUE until a final COMPLETE and yields the payload |
| Acf.UnpackPack | src/acf.c:48-119 | every header field comes back cut to its own width, whatever the others held |
| Acf.PackedHeaderIsTable4Word | src/acf.c:48-81 | the eight octets are the 64-bit word of Table 4 in network order, reserved bits zero |
| Acf.EncodeAbb | src/acf.c:362-398 | the in-place encoder produces the specified frame, or nothing exactly when the payload does not fit |
| Acf.EncodeGbb | src/acf.c:438-482 | the same for GBB, with a zeroed timestamp when untimed |
| Acf.AbbLayout | src/acf.c:362-398 | a frame is the quadlets its length field says; the payload follows the header, and as many zero octets as the pad field says, at most three, follow it |
| Acf.GbbLayout | src/acf.c:438-482 | the same with the timestamp ahead of the payload, eight zero octets when untimed |
| Acf.AbbDecodesExactlyWhen | src/acf.c:400-430 | decoding succeeds on exactly the octets that hold a message of that type with room for header and padding, and returns header and payload; which error means what |
| Acf.GbbDecodesExactlyWhen | src/acf.c:484-512 | the same for GBB with its timestamp |
| Acf.DecodeEncodedAbb | src/acf.c:362-430 | decoding an encoded ABB frame, also with octets behind it, returns its fields and payload |
| Acf.DecodeEncodedGbb | src/acf.c:438-512 | the same for GBB, with its timestamp |
| Crc.Crc32IsComplementedRemainder | src/e2e.c:46-71 | a value is what the reflected octet loop computes exactly when it is the complemented remainder of the bit-mirrored message divided by the generator 0x1F4ACFB13 |
| Crc.ComputeCrc32 | src/e2e.c:64-71 | the two loops compute that checksum |
| Crc.ReversedGenerator | src/e2e.c:46-62 | the constant of the loop is the generator read backwards, with a constant term |
| CrcDetection.BurstChangesCrc32 | src/e2e.c:46-71 | any two equal-length messages that differ only inside 32 consecutive bits have different checksums |
| CrcDetection.FourOctetsChangeCrc32 | src/e2e.c:46-71 | in particular messages that differ inside four consecutive octets |
| CrcDetection.ChecksumKeepsParity | src/e2e.c:46-71 | the checksum has as many set bits as the message, modulo two |
| CrcDetection.OddErrorChangesCrc32 | src/e2e.c:46-71 | so an odd number of flipped bits, wherever they are, changes it |
| CrcDetection.FourOctetsGiveAnyChecksum | src/e2e.c:46-71 | whatever stands before and after, four consecutive octets give any checksum in exactly one way |
| E2e.ComputeCrc | src/e2e.c:124-150 | the running computation is the checksum of header span and covered octets |
| E2e.ComputeFragmentedCrc | src/e2e.c:379-406 | the same over the first header and the reassembled payload |
| E2e.SpanLayout | src/e2e.c:124-150 | what precedes the covered octets in a checksum reads back as subtype, octet 1, tu bit, stream identifier and timestamp |
| E2e.OneFieldApartRejected | src/e2e.c:277-339 | a frame accepted under some header values is a CRC mismatch under others that differ in the first three, in one half of the stream identifier, or in the timestamp |
| E2e.AdaptBack | src/e2e.c:164-180 | adapting the length field back restores the frame |
| E2e.AdaptInPlace | src/e2e.c:164-180 | in place, only the length field changes, and nothing when the new length does not fit |
| E2e.AdaptedExactlyWhen | src/e2e.c:164-180 | a length is adapted exactly when the field is there and the new value fits nine bits; then it reads back and no other bit changes |
| E2e.Wrap | src/e2e.c:200-272 | builds real octets with the length raised, trailer, pad octets, or nothing exactly when that is impossible |
| E2e.Unwrap | src/e2e.c:277-339 | verdict and stripped frame of the specification, for every input |
| E2e.WrappedLayout | src/e2e.c:200-272 | which frames can be wrapped; then the trailer stands between real and pad octets and is the checksum of header values and lengthened real octets |
| E2e.AcceptedExactlyWhen | src/e2e.c:277-339 | SHORT_FRAME exactly without room for pad octets and trailer; OK exactly when the four octets ahead of the padding are the checksum of header values and everything before them; what is returned leaves those four out |
| E2e.RoundTripExactlyWhen | src/e2e.c:200-339 | unwrapping what was wrapped returns the frame under all header values exactly when three real octets precede the trailer |
| E2e.PadFieldUnder | src/e2e.c:108-119 | under one trailer the pad field is read back exactly then or when the trailer happens to repeat it |
| E2e.ShortFrameIsLost | src/e2e.c:200-339 | a frame of two real octets that, whatever the other header values, is not returned under some timestamp |
| E2e.AcfShapedSurvives | src/e2e.c:200-339 | an ACF frame can be wrapped exactly when it has fewer than 0x1FF quadlets, and then unwrapping is byte-identical |
| E2e.ProtectedAbbDecodes | src/e2e.c:200-339 | wrap, unwrap, decode returns the ABB fields and payload |
| E2e.ProtectedGbbDecodes | src/e2e.c:200-339 | the same for GBB |
| E2e.BurstRejected | src/e2e.c:277-339 | two receptions with one trailer that differ in at most 32 consecutive covered bits, header values included, are never both accepted |
| E2e.OddErrorRejected | src/e2e.c:277-339 | nor are two that differ in an odd number of bits of header values, covered octets and trailer, wherever those are |
| E2e.CorruptionRejected | src/e2e.c:277-339 | corruption of up to four consecutive covered octets that leaves the pad bits alone is a CRC mismatch |
| E2e.TrailerChangeRejected | src/e2e.c:277-339 | so is any change to the trailer alone |
| E2e.TimestampMattersForTscfOnly | src/e2e.c:344-368 | under another timestamp an NTSCF frame is accepted and a TSCF frame rejected |
| E2e.FramedValuesMatter | src/e2e.c:344-368 | octet 1 matters under both framings, the tu bit under TSCF only |
| SequenceNumbers.SeqTracker.Evaluate | src/e2e.c:516-553 | the tracker in place is the step of the specification |
| SequenceNumbers.NoReplayWithinWindow | src/e2e.c:516-553 | accepted numbers of any run lift to increasing naturals with steps 1..127; a number recurs only after an advance of at least 256 |
| SequenceNumbers.LaterNumberAcceptedExactlyWhen | src/e2e.c:516-553 | accepted exactly when 1..127 ahead modulo 256, a discontinuity exactly when not the next; a rejected call changes nothing |
| SequenceNumbers.PatientSenderNeverRejected | src/e2e.c:516-553 | a sender that loses at most 126 in a row is never rejected, and discontinuity is reported exactly after a loss |
| SequenceNumbers.JudgedAgainstLastAccepted | src/e2e.c:516-553 | after any receptions with the switches set anyhow, a number is judged against the last accepted one: accepted unless enforced and not 1..127 ahead, discontinuous unless the next, safe state exactly on an enabled discontinuity |
| FaultTracker.Tracker.OnCrcError | src/e2e.c:634-649 | the 16-slot table refines a map: latch, start tracking, or refuse when full |
| FaultTracker.Tracker.IsFaulted | src/e2e.c:651-663 | the scan answers the map's latch, false for unknown streams |
| FaultTracker.Tracker.Reset | src/e2e.c:665-671 | clears that stream's latch and keeps it tracked |
| FaultTracker.FaultRun | src/e2e.c:600-671 | over every run: at most 16 streams, none forgotten, and a stream is faulted exactly when its own events latched it |
| FaultTracker.TracksErrorStreams | src/e2e.c:634-671 | over every run of a new tracker the tracked streams are ones with a CRC error, as many as 16 slots hold; an error is recorded exactly when its stream is tracked |
| EndpointTable.ReachableIsConsistent | src/mock.c:688-979 | in every reachable table two slots of one bus are both stream-scoped to different streams; the counts equal the slots in use and the capacity is 12 times that |
| EndpointTable.LookupIsUnambiguous | src/mock.c:732-744 | at most one slot matches a (stream, bus) address, whatever the scan order |
| EndpointTable.RemoveUndoesAdd | src/mock.c:766-942 | removing what was just added restores the table |
| EndpointTable.LookupAfterAdd | src/mock.c:766-872 | a new endpoint takes the requests of its bus, of its stream only if scoped, with the given type and switch and no protection; no other lookup changes |
| EndpointTable.LookupAfterRemove | src/mock.c:904-942 | the lookups that met the removed endpoint meet none, all others are as before |
| EndpointTable.SwitchesExactlyWhen | src/mock.c:1063-1110 | over every run each protection switch is on exactly when some operation turned that one on for the endpoint and none since turned it off or removed the endpoint |
| EndpointTable.SetFlagAnswers | src/mock.c:1063-1110 | setting a switch changes that switch of the endpoint found and nothing else, and answers whether one was found |
| EndpointTable.ApplyOfView | src/mock.c:948-979 | applying the viewed configuration is the identity |
| EndpointTable.ViewOfApply | src/mock.c:948-979 | and what is applied is what is viewed |
| EndpointTable.ApplyTouchesRowsOnly | src/mock.c:964-979 | applying rows changes nothing but the generic rows |
| EndpointTable.ApplyAnswers | src/mock.c:964-979 | rows are applied exactly when there is one for each endpoint; then they are what is viewed, else nothing changes |
| EndpointTable.Table.AddEndpoint | src/mock.c:766-872 | the scan-and-fill in place is the step of the specification and keeps consistency |
| EndpointTable.Table.RemoveEndpoint | src/mock.c:904-942 | the same for removal |
| EndpointTable.Table.SetEndpointFlag | src/mock.c:1063-1110 | the same for the two protection switches |
| EndpointTable.Table.GenericCfgView | src/mock.c:948-961 | writes the first rows that fit and answers how many there are |
| EndpointTable.Table.ApplyGenericCfg | src/mock.c:964-979 | all rows or, on a count mismatch, none |
| Server.MockServer.constructor | src/mock.c:284-330 | a new server: empty table, empty reassemblers with the default bound, nothing latched |
| Server.MockServer.DispatchE2e | src/mock.c:1892-2038 | the method on tables, tracker and log is the single-frame step of the state machine |
| Server.MockServer.DispatchE2eFragment | src/mock.c:2175-2504 | the method on per-stream reassemblers is the fragment step, for intermediate and final fragments and every refusal |
| Server.MockServer.SetRequestStreamCfg | src/mock.c:444-470 | replaces the stream table, or nothing when it is too long |
| Server.MockServer.Dispatch | src/mock.c:1762-1777 | the plain entry point kicks the watchdog and hands the request on, whatever latch or checksum |
| Server.MockServer.SetStreamFaultTracker | src/mock.c:1124-1128 | attaches another tracker, or none, and with it other latches |
| Server.MockServer.ResetStreamFault | src/e2e.c:665-671 | a reset on the attached tracker clears that stream's latch and nothing else |
| ServerRuns.SlotsHoldObserved | src/mock.c:2237-2434 | over every run each stream's slot holds exactly the payloads observed as accepted since it was last emptied, and nothing between messages |
| ServerRuns.ReassembledDispatchIsChecked | src/mock.c:2264-2504 | after any run, a final fragment leads to a dispatch exactly when it decodes, fits, carries the checksum over the first header and all observed payloads, and one frame can carry the message; then exactly that message is dispatched |
| ServerRuns.BurstInFragmentsRejected | src/mock.c:2264-2504 | a message whose header and payloads differ from the checksummed ones inside 32 consecutive bits ends in CRC_ERROR with nothing dispatched |
| ServerRuns.OddErrorInFragmentsRejected | src/mock.c:2264-2504 | so does one that differs from what was sent, trailer and header values included, in an odd number of bits |
| ServerRuns.OneFieldApartInFragmentsRejected | src/mock.c:2264-2504 | so does one sealed under header values one field apart, such as another timestamp |
| ServerVerdicts.CompleteFrameVerdict | src/mock.c:1937-2038 | a complete frame to an endpoint that asks for checksums, through either entry point: what precedes the trailer is handed on exactly when the trailer is the checksum of it and the call's header values; else CRC_ERROR with code POCI_FAILURE and nothing handed on |
| ServerVerdicts.UnprotectedPassesThrough | src/mock.c:1937-1953 | every other endpoint gets each frame as it came |
| ServerVerdicts.PlainHandsOn | src/mock.c:1762-1777 | so does every endpoint through the plain entry point: one kick, one request with all its addressing, one broadcast on overflow |
| ServerVerdicts.ShortFragmentRejected | src/mock.c:2200-2236 | the fragment entry point rejects a frame without a header |
| ServerVerdicts.DamagedFrameNotHandedOn | src/mock.c:1953-2038 | a frame sealed under header values one field apart, or damaged by a burst of 32 bits or an odd number of flips, ends in CRC_ERROR with nothing handed on |
| ServerVerdicts.IntermediateVerdict | src/mock.c:2237-2280 | over every run an intermediate is pending exactly when it decodes, has the next number of the observed message and fits, else rejected; no answer, nothing handed on |
| ServerRuns.HeldFromServedExactlyWhen | src/mock.c:444-460 | at every point of a run a slot holds payloads only of the stream it then serves, exactly when the application never gives the slot to another stream, or to none, while a message is being collected in it |
| ServerFaults.CallLatchesExactlyWhen | src/mock.c:1953-2027 | a call latches its stream exactly on a CRC error with enforcement and room in the tracker, and never touches another stream |
| ServerFaults.LatchHoldsExactlyWhen | src/mock.c:1124-1128 | over every run from a latched stream the latch is in force throughout exactly when the stream is never reset and no tracker without its latch is attached |
| ServerFaults.LatchGatesProtectedCalls | src/mock.c:1916-1934 | meanwhile every protected call of the stream is answered STREAM_FAULTED, and exactly its plain calls reach an endpoint |
| ServerFaults.LatchedExactlyWhen | src/mock.c:1916-2027 | after any run from an unlatched stream it is latched exactly when some enforced CRC error of its own, with room in the tracker, or an attached tracker latched it, and neither a reset nor another tracker released it since |
| ServerFaults.SafeStateExactlyWhen | src/mock.c:1603-1618 | for all three entry points: the status bit is set exactly on a CRC error of an enforcing endpoint of a configured stream, and the safe state is broadcast, last and once, exactly then or when a request handed on overflows storage on a stream that asks for it |
| EndToEnd.ErrorFrameDecodes | src/acf.c:298-313 | the error answer decodes to its transaction number, bus and error code, marked as an error response |
| EndToEnd.LastFrameReads | src/e2e.c:164-180 | the sealed last fragment gives its trailer, header and payload back |
| EndToEnd.BystanderKeeps | src/mock.c:2175-2504 | calls of other streams, and anything the application does that leaves the slot serving this one, leave a message under way where it was |
| EndToEnd.IntermediatesPending | src/mock.c:2237-2280 | every fragment but the last is answered FRAGMENT_PENDING and the slot holds the prefix sent so far |
| EndToEnd.FragmentedRequestDelivered | src/mock.c:2175-2504 | a planned, encoded and sealed payload sent in order, with any such bystanders in between, is dispatched once, re-encoded under the last header and decodable to the payload, or rejected when one frame cannot carry it; the slot is empty again |
| EndToEnd.MovedSlotCompletesForeignMessage | src/mock.c:444-460 | a slot moved to another stream in the middle of a message lets that stream complete it: the whole payload is dispatched in its name |
| EndToEnd.RequestDecodes | src/mock.c:2475-2501 | the dispatched request exists exactly when the payload fits a frame, and decodes to it |
| EndToEnd.SingleRequestDelivered | src/mock.c:1937-2038 | a request encoded, wrapped and sent as one frame is handed on as exactly the encoded frame, which decodes to the payload |
| EndToEnd.SingleRequestCanBeWrapped | src/e2e.c:200-272 | every request that leaves room for the trailer can be wrapped |
| Can.DecodeBuilt | src/ep_can.c:251-321 | decoding a built payload returns format, identifier, XL header and data |
| Can.BuildDecoded | src/ep_can.c:770-796 | whatever decodes to a frame of legal length is the octets built from it |
| Can.BuildPayload | src/ep_can.c:311-321 | prefix then data in the caller's buffer, the rest untouched |
| Can.FrameLayout | src/ep_can.c:251-321 | which frames are legal, and their octets: format, identifier, XL fields, data |
| Can.DecodeRefusalMeans | src/ep_can.c:770-796 | each decode error says what the octets lack |
| Can.FragmentCountMeans | src/ep_can.c:598-640 | a frame is cut exactly when it is legal and 256 messages can carry it, into the fewest that can |
| Can.EncodeFragmented | src/ep_can.c:622-690 | stores one message per planned slice, or nothing at all exactly when the frame or cut is refused or the first slice does not fit a message |
| Can.NarrowedMessageCompletesExactlyWhen | src/ep_can.c:715-750 | fragments reported with the narrowed number are reassembled exactly when there are at most 256 intermediates |
| Can.DecodeSegment | src/ep_can.c:697-765 | each message decodes to its piece for a receiver of the transmitted bus number and to WRONG_BUS for any other |
| Can.DecodeOfEncoded | src/ep_can.c:697-765 | a message with any header: wrong bus first, then an event, else its fields, a timestamp only where marked valid |
| Can.BadTypeExactlyWhen | src/ep_can.c:697-765 | BAD_MSG_TYPE exactly for a whole header of neither type |
| Can.MessageDirection | src/ep_can.c:420-690 | requests travel as writes, responses as reads marked as a response, neither as an error |
| Can.OtherBusTakesNothing | src/ep_can.c:755-756 | a receiver of another bus takes none of the messages |
| Can.FragmentedRoundTrip | src/ep_can.c:598-796 | messages of a request or a timed or untimed response, decoded and fed in order, reassemble to the same frame, with transaction number and timestamp |
| CanEndToEnd.PlainFramesAreSegments | src/ep_can.c:420-470 | the request encoder's messages are the plain fragments of the end-to-end sender |
| CanEndToEnd.CanRequestDelivered | src/mock.c:2175-2504 | a fragmented CAN request through the server, with bystanders, becomes one request that decodes to the frame, or is rejected when one message cannot carry it |
| SpiRegisters.RenderOfParse | src/ep_spi.c:238-322 | what is rendered after adopting an image is its writable bits over the unchanged rest |
| SpiRegisters.ParseOfRenderExactlyWhen | src/ep_spi.c:238-322 | a configuration is read back exactly when every channel has a defined mode and polarity |
| SpiRegisters.RegisterAddresses | src/ep_spi.c:238-322 | a write at each register's address sets its field of its channel and nothing else |
| SpiRegisters.PrefixAddresses | src/ep_spi.c:238-262 | length and channel count are read-only, the common switches and the status where they should be |
| SpiRegisters.OptionBits | src/ep_spi.c:42-64 | each bit of the options octet is one switch, the lowest two the clock mode |
| SpiRegisters.WriteIsMemoryWrite | src/ep_spi.c:357-393 | after a write the image differs only in addressed, writable bits |
| SpiRegisters.RunIsMemory | src/ep_spi.c:357-393 | over every run of write requests, refused ones included, the block is plain memory that took the accepted writes in order, and the configuration is what it describes, or the old one if none was accepted |
| SpiRegisters.AdjacentWritesCombine | src/ep_spi.c:357-393 | writing d1 then d2 behind it equals writing d1 + d2 |
| SpiRegisters.RepeatedWriteChangesNothing | src/ep_spi.c:357-393 | repeating a write changes nothing |
| SpiRegisters.WriteKeeps | src/ep_spi.c:282-322 | fields without a register keep their value; an unaddressed channel keeps all of its fields exactly when the wire can express it |
| SpiRegisters.UndefinedModeIsNormalised | src/ep_spi.c:282-322 | a channel of mode 7 becomes mode 0 by a write to the options octet |
| SpiRegisters.ReadOnlyExactlyWhenUnmasked | src/ep_spi.c:331-339 | the skipped offsets are exactly those without a writable bit |
| Octets.WordOfHalves | src/ep_spi.c:14-24 | the 16-bit encoding is in the order of the 32-bit one |
| RegisterBlock.WriteAcceptedExactlyWhen | src/ep_spi.c:357-370 | a write request is accepted exactly when it is a 16-bit address and at least one octet that stay inside the block |
| RegisterBlock.CommonBits | src/ep_spi.c:238-262 | each bit of the two common octets is one switch |
| SpiRegisters.Registers.RenderRegisters | src/ep_spi.c:238-279 | the rendering loop produces the block image |
| SpiRegisters.Registers.ParseRegisters | src/ep_spi.c:289-322 | the parsing loop adopts every register and nothing else |
| SpiRegisters.Registers.ApplyReconfig | src/ep_spi.c:357-393 | the patched write in place is the step of the specification, refusals included |
| CanRegisters.RenderOfParse | src/ep_can.c:837-886 | what is rendered after adopting an image is its writable bits over the unchanged rest |
| CanRegisters.ParseOfRender | src/ep_can.c:837-886 | every configuration is read back |
| CanRegisters.RegisterAddresses | src/ep_can.c:837-886 | a write at each register's address sets its field and nothing else, elsewhere it sets nothing |
| CanRegisters.WriteIsMemoryWrite | src/ep_can.c:916-945 | after a write the image differs only in addressed, writable bits, and the configuration is what it describes |
| CanRegisters.RunIsMemory | src/ep_can.c:916-945 | over every run of write requests, refused ones included, the block is plain memory that took the accepted writes in order, and the configuration is what it describes |
| CanRegisters.AdjacentWritesCombine | src/ep_can.c:916-945 | two adjacent writes are one |
| CanRegisters.RepeatedWriteChangesNothing | src/ep_can.c:916-945 | repeating a write changes nothing |
| CanRegisters.WriteKeeps | src/ep_can.c:871-886 | unregistered fields and unaddressed registers keep their value |
| CanRegisters.Registers.ApplyReconfig | src/ep_can.c:916-945 | the patched write in place is the step of the specification |
| LoanPool.RunConserves | src/loan.c:63-151 | over every run each buffer ever allocated is in exactly one place: free list, one live loan, or freed; the free list never exceeds 64 |
| LoanPool.NothingShared | src/loan.c:63-96 | no two live loans share a buffer, and none is also free or freed |
| LoanPool.SecondReturnIsNoOp | src/loan.c:12-19 | a returned loan stays returned and a second return changes nothing |
| LoanPool.AcquireMeans | src/loan.c:102-151 | a free-listed buffer is reused whenever one is large enough, the first such; else a new one of the size asked for; when a request succeeds |
| LoanPool.ReturnMeans | src/loan.c:63-96 | a returned buffer is available again unless 64 are |
| LoanPool.SteadyRunAllocatesAtMostPeak | src/loan.c:63-151 | over any run with requests of one size, at most `peak` loans out and no failure, no more than `peak` buffers are ever allocated and none is freed |
| LoanPool.DestroyFreesAllExactlyWhen | src/loan.c:154-168 | destroying frees every buffer exactly when no loan is out |
| LoanPool.LiveLoanIsLeaked | src/loan.c:154-168 | one loan out whose buffer destroying does not free |
| LoanPool.Pool.Acquire | src/loan.c:102-151 | first fit in place: a zeroed payload of the size asked for, in a large enough buffer, with every live loan's payload untouched |
| LoanPool.Loan.Return | src/loan.c:12-19 | the release function gives the buffer back once, to the free list or freed when that is full |
| LoanPool.Release | src/loan.c:22-28 | the same for a loan, nothing for a null one |
| LoanPool.Pool.Append | src/loan.c:63-76 | appends one entry, or refuses exactly when the list is full |
| LoanPool.Pool.Destroy | src/loan.c:154-168 | every free-listed buffer is freed |
| Iseled.SymbolDecodesExactlyWhen | src/ep_iseled.c:41-62 | a symbol decodes to a nibble exactly when its five bits are that nibble's encoding |
| Iseled.DecodesExactlyWhenEncoded | src/ep_iseled.c:419-470 | decoding returns data if and only if the symbols' five bits are the encoding of that data, with or without CRC |
| Iseled.FrameLayout | src/ep_iseled.c:74-98 | high nibble first, each in a symbol of even parity, the CRC octet last |
| Iseled.RefusalMeans | src/ep_iseled.c:419-470 | each error says what is wrong with the symbols, in the code's order |
| Iseled.Crc8IsLinear | src/ep_iseled.c:104-126 | the CRC8 is linear, and of a nibble the product with x^2 + x + 1 |
| Iseled.DecodeEncoded | src/ep_iseled.c:74-98 | encode then decode returns the data |
| Iseled.OddFlipRejected | src/ep_iseled.c:51-62 | flipping an odd number of the five bits of any symbol is BAD_SYMBOL |
| Iseled.NeighbourDamageRejected | src/ep_iseled.c:419-470 | with the CRC on, any damage confined to two neighbouring symbols, of one octet or across two, is rejected |
| Iseled.Popcount4 | src/ep_iseled.c:28-38 | the loop counts the set bits of the low nibble |
| Iseled.ComputeCrc8 | src/ep_iseled.c:104-126 | the loops compute the CRC8 |
| Iseled.EncodeBitframe | src/ep_iseled.c:74-98 | the encoding loop produces the frame |
| Iseled.DecodeBitframe | src/ep_iseled.c:419-470 | the decoding loop decides as specified, every error included |
| Debounce.Filter.Sample | src/ep_gpio.c:218-262 | the filter in place is the step of the specification |
| Debounce.FlagAsPromisedExactlyWhen | include/rcp/ep_gpio.h:403-411 | except on the very first call the change flag says whether the returned value differs from the one before, exactly when this is the first call or the sample does not make the filter settle for the first time, on true |
| Debounce.FirstSettlingIsNotFlagged | include/rcp/ep_gpio.h:403-411 | two samples of true with n two: true is returned after false, unflagged |
| Debounce.SettledIsLastWindow | src/ep_gpio.c:232-261 | the settled value is the reading of the last n equal samples in a row, none exactly when there never were any |
| Debounce.FilterRefinesTrace | src/ep_gpio.c:218-262 | for fixed n >= 1 the output is that reading, false if none, and a change is flagged exactly when it flips, despite the 8-bit counter |
| Debounce.ChangesAreRare | src/ep_gpio.c:218-262 | k samples report at most k / n changes, one fewer once settled |
| Debounce.UnfilteredWhenZero | src/ep_gpio.c:222-230 | with n zero the output is the last sample and changes are differing neighbours |
| Lifecycle.CheckHwCfg | src/lifecycle.c:22-40 | the loop decides the quantified hardware rule |
| Lifecycle.RequestStreamsConsistent | src/lifecycle.c:49-96 | the nested loops decide the quantified stream rule |
| Lifecycle.CheckRcpCfg | src/lifecycle.c:103-119 | the check decides the quantified RCP rule |
| Lifecycle.DocumentedRuleExactlyWhen | include/rcp/lifecycle.h:273-282 | the code's rule implies the header's, and for a snapshot that meets the header's they agree exactly when no configured stream is named by unused endpoints only |
| Lifecycle.UnusedEndpointIsDocumentedOnly | include/rcp/lifecycle.h:273-282 | a snapshot the header accepts and the code refuses |
| Lifecycle.Machine.Transition | src/lifecycle.c:131-251 | the transition through the state field is the step of the specification, every refusal included |
| Lifecycle.AcceptedExactlyWhen | src/lifecycle.c:131-251 | which requests are accepted, by arrow, authorization, snapshot and idleness; others leave the state alone |
| Lifecycle.RefusalMeans | src/lifecycle.c:131-251 | each refusal in terms of what would be accepted instead: never, for another writer, once idle, with another snapshot |
| Lifecycle.HardwareExactlyWhen | src/lifecycle.c:131-251 | a run of a new server ends outside HW_UNCONFIGURED exactly when some request configured the hardware with a plausible snapshot and no authorized idle reset followed |
| Lifecycle.ConfiguredExactlyWhen | src/lifecycle.c:131-251 | a run of a new server ends in RCP_CONFIGURED exactly when some authorized request entered from HW_CONFIGURED with a plausible snapshot and no idle call of the root client, or of a valid association to HW_CONFIGURED, left since |
| Lifecycle.ConfiguredIsLocked | src/lifecycle.c:376-452 | over every run without such a call the state and the W* field keep their value, whoever writes |
| Lifecycle.ConfiguredOnlyWhenPlausible | src/lifecycle.c:131-251 | such a run passed the hardware rule with some snapshot, and its W* field has the value of that entry |
| Lifecycle.WriteErrorMeans | src/lifecycle.c:455-475 | LOCKED exactly when no writer whatsoever could write, UNAUTHORIZED exactly when some other could |
| Lifecycle.WPlusErrorMeans | src/lifecycle.c:478-508 | the same for a field with a lock of its own, which is a W* field while unlocked |
| Lifecycle.WritableExactlyWhen | src/lifecycle.c:376-452 | who may write which kind of field in which state |
| Loopback.Ring.Send | src/avtp.c:331-356 | the ring in place appends to a bounded queue, or refuses when closed or full |
| Loopback.Ring.Recv | src/avtp.c:360-398 | takes the oldest frame, or leaves the queue alone when the buffer is too small or nothing is queued |
| Loopback.FifoConserves | src/avtp.c:331-409 | over every interleaving delivered frames followed by queued ones are the accepted ones in order, within capacity; once closed nothing is accepted |
| Loopback.SendAnswers | src/avtp.c:331-356 | after any run a send is CLOSED exactly after a close, else accepted exactly while fewer than the capacity are accepted and not delivered, else BUSY |
| Loopback.RecvAnswers | src/avtp.c:360-398 | after any run a receive gets the oldest accepted and undelivered frame if its buffer holds it; the other answers say why not |
| Loopback.ClosedQueueDrains | src/avtp.c:375-379 | after close the queue still drains in order before receivers are told CLOSED |
| Loopback.BusyReceivesLoseNothing | src/avtp.c:381-387 | leaving the receives into too small a buffer out of any run changes neither the queue nor what was accepted or delivered |
| Loopback.ExtensionIsClosest | src/avtp.c:249-265 | the result has the wire's low 32 bits; it is a closest 64-bit instant with them, and within half a period of the reference, exactly when such an instant is within half a period |
| Loopback.ExtensionWrapsAtZero | src/avtp.c:249-265 | at reference zero the closest instant would be negative and the result wraps |

## Left out

- The request scheduler, sequencers and chaining behind the plain dispatcher, the watchdog keeper and the safe-state actuator: what is handed to them is an event in the server's log, and whether a request overflows storage on a stream that asks for the safe state then is part of the call. Safe states they enter for other causes are not in the log.
- The `_tscf` variants of the dispatch functions, which repeat these with three more arguments, and the suppression of responses after the plain dispatcher answered.
- Allocation failure outside the reassembler and the pool: allocation is assumed to succeed there; the server's own reassemblers are fed with it succeeding.
- The handler and queue of an endpoint slot, which the protected dispatch does not read.
- Server.MockServer.constructor: does not model the lifecycle state, the register maps and the default row of the EP-id table, which the protected dispatch does not read.
- Server.MockServer.SetRequestStreamCfg: does not model the capacity register it also sets, nor the other fields of a request-stream row.
- Contents of the AVTPDU header beyond subtype, stream and timestamp on the dispatch path, for which the server passes fixed placeholders.
- Mutexes and condition variables: every critical section is one atomic step; waiting in the loopback receive is not modelled, only what happens when it ends.
- Lifecycle.Machine.Transition: does not model a state octet outside the three defined values, because no modelled operation produces one.
- rcp_lifecycle_should_accept: one flat decision per state, with no property beyond its own branches.
- Loopback.ExtensionIsClosest: models the mask and the bitwise or of the timestamp as the remainder and sum they are, because the operands do not overlap.
- WakeUp and ADC register blocks: reading back clears bits or loses width there, so a write is not a memory write.
- The I2C, LIN, MDIO, UART and PWM codecs: they repeat the ACF round trip.
- Sockets, mDNS, clocks, threads, the bridges, the CLI and configuration parsing.
