/** The protected dispatch of the server (`src/mock.c`) as a state machine.

    The request scheduler behind the plain dispatcher, the watchdog keeper and the safe-state
    actuator are not part of this model: what is handed to them is an event appended to the
    log, and the one answer of the scheduler that matters here is part of the call. */
module ServerSteps {
  import opened Octets
  import opened Wrappers
  import opened Acf
  import opened AnyAcf
  import opened E2e
  import opened Fragment
  import opened EndpointTable
  import opened FaultTracker

  const MAX_REQUEST_STREAMS: nat := 64
  const DEFAULT_MAX_TOTAL_LEN: nat := 65536

  const ERROR_REQUEST_REJECTED: byte := 11
  const ERROR_POCI_FAILURE: byte := 12

  /** One call of a dispatch entry point. `overflow` says that a request it hands to the
      endpoint would be dropped for storage overflow on a stream that asks for the safe state
      then. */
  datatype Call = Call(
    busId: bv16, subtype: byte, msgType: byte, timeSync: bool, streamId: StreamId, timestamp: bv32,
    frame: seq<byte>, overflow: bool)

  datatype Event =
    | Kick(streamId: StreamId)
    | PlainDispatch(busId: bv16, subtype: byte, msgType: byte, timeSync: bool, streamId: StreamId,
                    request: seq<byte>)
    | BroadcastSafeState(streamIndex: nat)

  /** `PlainAnswer` stands for whatever the plain dispatcher answered. */
  datatype Outcome = PlainAnswer | StreamFaulted | CrcError | Rejected | FragmentPending

  datatype Response = NoResponse | PlainResponse | ErrorResponse(frame: seq<byte>)

  datatype ServerState = ServerState(
    slots: seq<EndpointTable.Slot>,
    streams: seq<StreamId>,
    reasm: seq<ReasmState>,
    firstHeader: seq<seq<byte>>,
    crcBlocked: seq<bool>,
    faults: Option<Faults>,
    watchdog: bool,
    log: seq<Event>)

  /** Well-sized tables. */
  ghost predicate Sized(s: ServerState) {
    && |s.streams| <= MAX_REQUEST_STREAMS
    && |s.reasm| == |s.firstHeader| == |s.crcBlocked| == MAX_REQUEST_STREAMS
  }

  /** A server as created. */
  function NewServer(watchdog: bool): ServerState {
    ServerState(
      Empty().slots, [], seq(MAX_REQUEST_STREAMS, _ => Fresh(DEFAULT_MAX_TOTAL_LEN)),
      seq(MAX_REQUEST_STREAMS, _ => []), seq(MAX_REQUEST_STREAMS, _ => false), None, watchdog, [])
  }

  lemma NewServerIsSized(watchdog: bool)
    ensures var s := NewServer(watchdog);
            && Sized(s) && s.slots == Empty().slots && s.streams == [] && s.faults == None
            && s.watchdog == watchdog && s.log == []
            && (forall k :: 0 <= k < MAX_REQUEST_STREAMS ==>
                  s.reasm[k] == Fresh(65536) && s.firstHeader[k] == [] && !s.crcBlocked[k])
  {}

  // --- Small pieces ------------------------------------------------------------

  function Logged(s: ServerState, e: Event): ServerState {
    s.(log := s.log + [e])
  }

  function Kicked(s: ServerState, streamId: StreamId): ServerState {
    if s.watchdog then Logged(s, Kick(streamId)) else s
  }

  predicate Blocked(s: ServerState, streamId: StreamId) {
    s.faults.Some? && IsFaultedIn(s.faults.value, streamId)
  }

  function ResolveFrom(streams: seq<StreamId>, streamId: StreamId, from: nat): (index: nat)
    ensures index != 0 ==> from < index <= |streams| && streams[index - 1] == streamId
    ensures index == 0 ==> forall i :: from <= i < |streams| ==> streams[i] != streamId
    decreases |streams| - from
  {
    if from >= |streams| then 0
    else if streams[from] == streamId then from + 1
    else ResolveFrom(streams, streamId, from + 1)
  }

  /** The 1-based request-stream slot of a stream, or 0. */
  function ResolveIndex(streams: seq<StreamId>, streamId: StreamId): nat {
    ResolveFrom(streams, streamId, 0)
  }

  function ErrorFrame(busId: bv16, transactionNum: byte, code: byte): seq<byte> {
    AbbFrame(ZERO_HEADER.(busId := busId, transactionNum := transactionNum, op := OP_NONE, rsp := 1, err := 1),
             [code]).value
  }

  /** The error answered to a frame long enough to carry a transaction number. */
  function ErrorTo(call: Call, code: byte): Response {
    if |call.frame| < ABB_HEADER_LEN then NoResponse
    else ErrorResponse(ErrorFrame(call.busId, UnpackHeader(call.frame).transactionNum, code))
  }

  /** A request handed to the plain dispatcher. */
  function PlainEvent(call: Call, request: seq<byte>): Event {
    PlainDispatch(call.busId, call.subtype, call.msgType, call.timeSync, call.streamId, request)
  }

  /** The safe state of a stream whose request overflowed the endpoint's storage. */
  function OverflowEvents(s: ServerState, call: Call): seq<Event> {
    var index := ResolveIndex(s.streams, call.streamId);
    if call.overflow && index != 0 then [BroadcastSafeState(index)] else []
  }

  function Dispatched(s: ServerState, call: Call, request: seq<byte>): ServerState {
    s.(log := s.log + [PlainEvent(call, request)] + OverflowEvents(s, call))
  }

  /** `rcp_mock_server_dispatch`, which looks at neither latch nor checksum. */
  function PlainStep(s: ServerState, call: Call): ServerState {
    Dispatched(Kicked(s, call.streamId), call, call.frame)
  }

  /** The consequences of a CRC failure: the stream's latch, its status bit, the safe state. */
  function CrcFailed(s: ServerState, streamId: StreamId, index: nat, enforce: bool): ServerState
    requires index <= |s.crcBlocked|
  {
    var s1 := match s.faults
              case None => s
              case Some(m) => s.(faults := Some(OnCrcErrorStep(m, streamId, enforce).0));
    var s2 := if index == 0 || !enforce then s1 else s1.(crcBlocked := s1.crcBlocked[index - 1 := true]);
    if index == 0 || !enforce then s2 else Logged(s2, BroadcastSafeState(index))
  }

  /** The checksum context of a single protected frame. */
  function FrameContext(call: Call): Context {
    FramedContext(call.streamId, call.subtype == SUBTYPE_NTSCF, 0, false, call.timestamp)
  }

  /** The checksum context of a fragmented message. */
  function MessageContext(call: Call): Context {
    Context(call.subtype, 0, false, call.streamId, if call.subtype == SUBTYPE_NTSCF then 0 else call.timestamp)
  }

  // --- Single frames ------------------------------------------------------------------

  /** `rcp_mock_server_dispatch_e2e`. */
  function E2eStep(s: ServerState, call: Call): (ServerState, Outcome, Response)
    requires Sized(s)
  {
    var s1 := Kicked(s, call.streamId);
    if Blocked(s1, call.streamId) then (s1, StreamFaulted, ErrorTo(call, ERROR_POCI_FAILURE))
    else
      var at := Find(s1.slots, OnStream(call.streamId, call.busId));
      if at.None? || !s1.slots[at.value].reqCrcEnable then
        (Dispatched(s1, call, call.frame), PlainAnswer, PlainResponse)
      else
        var (verdict, body) := Unwrapped(FrameContext(call), call.frame);
        if verdict == E2eOk then (Dispatched(s1, call, body), PlainAnswer, PlainResponse)
        else
          (CrcFailed(s1, call.streamId, ResolveIndex(s1.streams, call.streamId), s1.slots[at.value].rxEnforceE2e),
           Outcome.CrcError,
           if verdict == E2eCrcMismatch then ErrorTo(call, ERROR_POCI_FAILURE) else NoResponse)
  }

  // --- Fragments -------------------------------------------------------------------------

  function ResetReasm(s: ServerState, k: nat): ServerState
    requires k < |s.reasm|
  {
    s.(reasm := s.reasm[k := Fresh(s.reasm[k].maxTotal)])
  }

  /** Emptying a slot forgets what was just fed to it. */
  lemma ResetForgetsFeed(s: ServerState, k: nat, f: WireFragment)
    requires k < |s.reasm|
    ensures ResetReasm(s.(reasm := s.reasm[k := FeedStep(s.reasm[k], f).0]), k) == ResetReasm(s, k)
  {
    hide FeedStep;
    FeedKeepsBound(s.reasm[k], f);
    assert s.reasm[k := FeedStep(s.reasm[k], f).0][k := Fresh(s.reasm[k].maxTotal)]
        == s.reasm[k := Fresh(s.reasm[k].maxTotal)];
  }

  function Refused(s: ServerState): (ServerState, Outcome, Response) {
    (s, Rejected, NoResponse)
  }

  /** A fragment with ms set, for request-stream slot `k`. */
  function IntermediateStep(s: ServerState, k: nat, call: Call): (ServerState, Outcome, Response)
    requires Sized(s) && k < MAX_REQUEST_STREAMS && |call.frame| >= ABB_HEADER_LEN
  {
    match DecodeAny(call.msgType, call.frame)
    case Err(_) => Refused(s)
    case Ok((_, payload)) =>
      DecodedFrameHoldsHeader(call.msgType, call.frame);
      var s1 := if s.reasm[k].collecting then s
                else s.(firstHeader := s.firstHeader[k := call.frame[..HeaderLen(call.msgType)]]);
      var (r, result) := FeedStep(s1.reasm[k], WireFragment(true, SegmentNum(call.frame), payload, true));
      if result == Continue then (s1.(reasm := s1.reasm[k := r]), FragmentPending, NoResponse)
      else Refused(ResetReasm(s1, k))
  }

  function SegmentNum(frame: seq<byte>): uint16
    requires |frame| >= ABB_HEADER_LEN
  {
    FieldOfValue(UnpackHeader(frame).rss);
    FieldValue(UnpackHeader(frame).rss)
  }

  /** The final fragment of a message that slot `k` is collecting. */
  function FinalStep(s: ServerState, k: nat, call: Call, enforce: bool): (ServerState, Outcome, Response)
    requires Sized(s) && k < MAX_REQUEST_STREAMS
  {
    if PadOctets(call.frame) + CRC_LEN > |call.frame| then Refused(ResetReasm(s, k))
    else
      match DecodeAny(call.msgType, Body(call.frame))
      case Err(_) => Refused(ResetReasm(s, k))
      case Ok((h, payload)) =>
        var (r, result) := FeedStep(s.reasm[k], WireFragment(false, 0, payload, true));
        if result != Complete then Refused(ResetReasm(s, k))
        else Finished(s.(reasm := s.reasm[k := r]), k, call, enforce, Trailer(call.frame), h)
  }

  /** A whole message in slot `k`: checked against the trailer, then dispatched if one frame
      can carry it. The slot is emptied whatever comes of it. */
  function Finished(s: ServerState, k: nat, call: Call, enforce: bool, trailer: bv32, h: AnyHeader)
    : (ServerState, Outcome, Response)
    requires Sized(s) && k < MAX_REQUEST_STREAMS
  {
    var message := s.reasm[k].content;
    if trailer != FragmentedCrc(MessageContext(call), s.firstHeader[k], message) then
      (ResetReasm(CrcFailed(s, call.streamId, k + 1, enforce), k), Outcome.CrcError,
       ErrorResponse(ErrorFrame(call.busId, h.Info().transactionNum, ERROR_POCI_FAILURE)))
    else
      match EncodeAny(h, message)
      case None => (ResetReasm(s, k), Rejected,
                    ErrorResponse(ErrorFrame(call.busId, h.Info().transactionNum, ERROR_REQUEST_REJECTED)))
      case Some(request) => (Dispatched(ResetReasm(s, k), call, request), PlainAnswer, PlainResponse)
  }

  predicate MsSet(frame: seq<byte>)
    requires |frame| >= ABB_HEADER_LEN
  {
    UnpackHeader(frame).ms != 0
  }

  /** `rcp_mock_server_dispatch_e2e_fragment`. */
  function FragmentStep(s: ServerState, call: Call): (ServerState, Outcome, Response)
    requires Sized(s)
  {
    var s1 := Kicked(s, call.streamId);
    if Blocked(s1, call.streamId) then (s1, StreamFaulted, ErrorTo(call, ERROR_POCI_FAILURE))
    else
      var at := Find(s1.slots, OnStream(call.streamId, call.busId));
      if at.None? || !s1.slots[at.value].reqCrcEnable then
        (Dispatched(s1, call, call.frame), PlainAnswer, PlainResponse)
      else if |call.frame| < ABB_HEADER_LEN then Refused(s1)
      else
        var index := ResolveIndex(s1.streams, call.streamId);
        if index == 0 then E2eStep(s1, call)
        else if MsSet(call.frame) then IntermediateStep(s1, index - 1, call)
        else if !s1.reasm[index - 1].collecting then E2eStep(s1, call)
        else FinalStep(s1, index - 1, call, s1.slots[at.value].rxEnforceE2e)
  }
}
