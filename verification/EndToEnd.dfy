/** From a sender's payload to the endpoint: plan, encode, seal, reassemble, check, decode. */
module EndToEnd {
  import opened Octets
  import opened Wrappers
  import opened Acf
  import opened AnyAcf
  import opened E2e
  import opened Fragment
  import opened EndpointTable
  import opened FaultTracker
  import opened ServerSteps
  import opened ServerFaults
  import opened ServerRuns
  import opened ServerVerdicts
  import Runs = ReassemblyRuns

  // --- What the server peeks at -------------------------------------------------------

  lemma TruncatedFields(msgType: byte, msgLength: bv16, h: Header)
    ensures Truncated(msgType, msgLength, h).ms == h.ms & 0x1
    ensures Truncated(msgType, msgLength, h).rss == h.rss & 0xFFF
  {}

  lemma PeekPadded(msgType: byte, headerLen: nat, h: Header, payloadLen: nat, rest: seq<byte>)
    requires headerLen + payloadLen <= MAX_QUADLETS * 4 && msgType <= 0x7F
    ensures var u := UnpackHeader(PaddedHeader(msgType, headerLen, h, payloadLen) + rest);
            u.ms == h.ms & 0x1 && u.rss == h.rss & 0xFFF
  {
    hide UnpackHeader; hide PaddedHeader; hide Truncated; hide FieldValue; hide OctetValue; hide Quadlets; hide PadLen;
    UnpackPaddedHeader(msgType, headerLen, h, payloadLen, rest);
    var u := UnpackHeader(PaddedHeader(msgType, headerLen, h, payloadLen) + rest);
    TruncatedFields(msgType, u.msgLength, h.(pad := u.pad));
  }

  lemma PeekAbb(h: Header, payload: seq<byte>)
    requires |payload| <= ABB_MAX_PAYLOAD
    ensures AbbFrame(h, payload).Some?
    ensures var u := UnpackHeader(AbbFrame(h, payload).value);
            u.ms == h.ms & 0x1 && u.rss == h.rss & 0xFFF
  {
    hide UnpackHeader; hide PaddedHeader; hide PadLen;
    var tail := payload + Zeros(PadLen(ABB_HEADER_LEN + |payload|));
    PeekPadded(MSG_TYPE_ABB, ABB_HEADER_LEN, h, |payload|, tail);
    assert AbbFrame(h, payload).value == PaddedHeader(MSG_TYPE_ABB, ABB_HEADER_LEN, h, |payload|) + tail;
  }

  lemma PeekGbb(h: GbbHeader, payload: seq<byte>)
    requires |payload| <= GBB_MAX_PAYLOAD
    ensures GbbFrame(h, payload).Some?
    ensures var u := UnpackHeader(GbbFrame(h, payload).value);
            u.ms == h.info.ms & 0x1 && u.rss == h.info.rss & 0xFFF
  {
    hide UnpackHeader; hide PaddedHeader; hide PadLen; hide PutU64;
    var tail := PutU64(WireTimestamp(h)) + (payload + Zeros(PadLen(GBB_HEADER_LEN + |payload|)));
    PeekPadded(MSG_TYPE_GBB, GBB_HEADER_LEN, h.info, |payload|, tail);
    assert GbbFrame(h, payload).value == PaddedHeader(MSG_TYPE_GBB, GBB_HEADER_LEN, h.info, |payload|) + tail;
  }

  /** The fields the server peeks at before decoding. */
  lemma PeekEncoded(h: AnyHeader, payload: seq<byte>)
    requires |payload| <= MaxPayload(h)
    ensures EncodeAny(h, payload).Some?
    ensures var frame := EncodeAny(h, payload).value;
            && AcfShaped(frame)
            && UnpackHeader(frame).ms == h.Info().ms & 0x1
            && UnpackHeader(frame).rss == h.Info().rss & 0xFFF
            && |frame| == HeaderLen(TypeOf(h)) + |payload| + PadLen(HeaderLen(TypeOf(h)) + |payload|)
  {
    hide UnpackHeader; hide PutU64; hide AcfShaped; hide PadLen; hide PaddedHeader;
    match h
    case AbbInfo(abb) =>
      PeekAbb(abb, payload);
      AbbIsAcfShaped(abb, payload);
    case GbbInfo(gbb) =>
      PeekGbb(gbb, payload);
      GbbIsAcfShaped(gbb, payload);
  }

  // --- The sender --------------------------------------------------------------------

  /** A fragmented request: its header, payload and cut, and how it is addressed. */
  datatype Message = Message(
    header: AnyHeader, payload: seq<byte>, maxFragment: nat, n: nat,
    busId: bv16, subtype: byte, timeSync: bool, streamId: StreamId, timestamp: bv32, overflow: bool)

  /** The planner cuts it into at least two segments, each of which fits an ACF frame, the
      last one with room for the trailer. */
  ghost predicate Fragmented(m: Message) {
    && IsPlan(|m.payload|, m.maxFragment, m.n)
    && m.n >= 2
    && m.maxFragment <= MaxPayload(m.header)
    && HeaderLen(TypeOf(m.header)) + |Runs.PlannedSlice(m.payload, m.maxFragment, m.n, m.n - 1)|
       <= (MAX_QUADLETS - 1) * 4
  }

  function WithInfo(h: AnyHeader, info: Header): AnyHeader {
    match h
    case AbbInfo(_) => AbbInfo(info)
    case GbbInfo(gbb) => GbbInfo(gbb.(info := info))
  }

  /** Fragment `i` carries its number; the final one keeps the field's ordinary meaning. */
  function FragmentHeader(m: Message, i: nat): AnyHeader
    requires m.n <= MAX_INTERMEDIATE_SEGMENTS + 1
  {
    WithInfo(m.header,
      if i + 1 < m.n then m.header.Info().(ms := 1, rss := Field(i)) else m.header.Info().(ms := 0))
  }

  lemma SliceFits(m: Message, i: nat)
    requires Fragmented(m) && i < m.n
    ensures |Runs.PlannedSlice(m.payload, m.maxFragment, m.n, i)| <= MaxPayload(m.header)
  {
    Runs.PlannedFragmentFields(m.payload, m.maxFragment, m.n, i);
  }

  /** The ACF frame of fragment `i`, without protection. */
  ghost function PlainFrame(m: Message, i: nat): seq<byte>
    requires Fragmented(m) && i < m.n
  {
    SliceFits(m, i);
    EncodableExactlyWhen(FragmentHeader(m, i), Runs.PlannedSlice(m.payload, m.maxFragment, m.n, i));
    EncodeAny(FragmentHeader(m, i), Runs.PlannedSlice(m.payload, m.maxFragment, m.n, i)).value
  }

  ghost function FirstHeader(m: Message): seq<byte>
    requires Fragmented(m)
  {
    PlainFrameShape(m, 0);
    PlainFrame(m, 0)[..HeaderLen(TypeOf(m.header))]
  }

  lemma PlainFrameShape(m: Message, i: nat)
    requires Fragmented(m) && i < m.n
    ensures var frame := PlainFrame(m, i);
            && AcfShaped(frame)
            && HeaderLen(TypeOf(m.header)) <= |frame|
            && UnpackHeader(frame).ms == (if i + 1 < m.n then 1 else 0)
            && (i + 1 < m.n ==> UnpackHeader(frame).rss == Field(i))
  {
    hide UnpackHeader; hide AcfShaped; hide PadLen; hide EncodeAny; hide Field; hide FieldValue;
    SliceFits(m, i);
    PeekEncoded(FragmentHeader(m, i), Runs.PlannedSlice(m.payload, m.maxFragment, m.n, i));
    if i + 1 < m.n {
      ValueOfField(i);
      LowTwelveBits(Field(i));
    }
  }

  lemma LowTwelveBits(v: bv16)
    requires v <= 0xFFF
    ensures v & 0xFFF == v
  {}

  ghost function CallFor(m: Message, frame: seq<byte>): Call {
    Call(m.busId, m.subtype, TypeOf(m.header), m.timeSync, m.streamId, m.timestamp, frame, m.overflow)
  }

  /** The checksum of the message: the first fragment's header and the whole payload. */
  ghost function MessageCrc(m: Message): bv32
    requires Fragmented(m)
  {
    FragmentedCrc(SenderContext(m), FirstHeader(m), m.payload)
  }

  /** The header values a sender protects: an NTSCF header has no timestamp. */
  function SenderContext(m: Message): Context {
    Context(m.subtype, 0, false, m.streamId, if m.subtype == SUBTYPE_NTSCF then 0 else m.timestamp)
  }

  lemma LastFrameCanBeSealed(m: Message)
    requires Fragmented(m)
    ensures var frame := PlainFrame(m, m.n - 1);
            && Lengthened(frame).Some?
            && RealOctets(frame) >= ABB_HEADER_LEN
  {
    hide AcfShaped; hide UnpackHeader; hide EncodeAny; hide Lengthened; hide PadOctets;
    var slice := Runs.PlannedSlice(m.payload, m.maxFragment, m.n, m.n - 1);
    PlainFrameShape(m, m.n - 1);
    SliceFits(m, m.n - 1);
    PeekEncoded(FragmentHeader(m, m.n - 1), slice);
    SealableWhenShort(PlainFrame(m, m.n - 1));
    EncodedHeaderIsReal(FragmentHeader(m, m.n - 1), slice);
  }

  lemma SealableWhenShort(frame: seq<byte>)
    requires AcfShaped(frame) && |frame| / 4 < MAX_QUADLETS
    ensures Lengthened(frame).Some?
  {
    hide PadOctets; hide LengthField; hide FieldValue; hide LengthHigh; hide LowOctet; hide Field;
    assert frame[..RealOctets(frame)][0] == frame[0];
    assert frame[..RealOctets(frame)][1] == frame[1];
  }

  /** The pad octets of an encoded frame never reach into its header. */
  lemma EncodedHeaderIsReal(h: AnyHeader, payload: seq<byte>)
    requires |payload| <= MaxPayload(h)
    ensures EncodeAny(h, payload).Some?
    ensures RealOctets(EncodeAny(h, payload).value) == HeaderLen(TypeOf(h)) + |payload|
  {
    hide PaddedHeader; hide PutU64; hide PadOctets; hide AcfShaped;
    match h
    case AbbInfo(abb) => AbbIsAcfShaped(abb, payload);
    case GbbInfo(gbb) => GbbIsAcfShaped(gbb, payload);
  }

  ghost function SealedLast(m: Message): seq<byte>
    requires Fragmented(m)
  {
    hide PlainFrame; hide Lengthened; hide Fragmented; hide MessageCrc;
    CutOf(m);
    LastFrameCanBeSealed(m);
    Sealed(PlainFrame(m, m.n - 1), MessageCrc(m))
  }

  lemma CutOf(m: Message)
    requires Fragmented(m)
    ensures IsPlan(|m.payload|, m.maxFragment, m.n) && m.n >= 2
  {}

  /** What travels as fragment `i`: the last frame is one quadlet longer and carries the
      checksum ahead of its pad octets. */
  ghost function SentFrame(m: Message, i: nat): seq<byte>
    requires Fragmented(m) && i < m.n
  {
    if i + 1 < m.n then PlainFrame(m, i) else SealedLast(m)
  }

  ghost function SentCall(m: Message, i: nat): Call
    requires Fragmented(m) && i < m.n
  {
    CallFor(m, SentFrame(m, i))
  }

  // --- The receiver --------------------------------------------------------------------

  /** The server reassembles this stream's messages for a protected endpoint in slot `k`. */
  ghost predicate Serves(s: ServerState, m: Message, k: nat) {
    var at := Find(s.slots, OnStream(m.streamId, m.busId));
    && Sized(s)
    && k < MAX_REQUEST_STREAMS
    && !Blocked(s, m.streamId)
    && at.Some? && s.slots[at.value].reqCrcEnable
    && ResolveIndex(s.streams, m.streamId) == k + 1
  }

  lemma ServedIsSized(s: ServerState, m: Message, k: nat)
    requires Serves(s, m, k)
    ensures Sized(s) && k < MAX_REQUEST_STREAMS
  {
    hide Find; hide ResolveIndex;
  }

  /** What else may happen while message `m` is under way: anything on other streams, and
      anything the application does that leaves slot `k` serving this stream, unlatched. */
  predicate Bystander(op: Op, m: Message, k: nat) {
    match op
    case SingleFrame(call) => call.streamId != m.streamId
    case OneFragment(call) => call.streamId != m.streamId
    case Plain(call) => call.streamId != m.streamId
    case ResetFault(_) => true
    case AttachTracker(faults) => faults.None? || !IsFaultedIn(faults.value, m.streamId)
    case Configure(slots, streams) =>
      var at := Find(slots, OnStream(m.streamId, m.busId));
      && |streams| <= MAX_REQUEST_STREAMS
      && at.Some? && slots[at.value].reqCrcEnable
      && ResolveIndex(streams, m.streamId) == k + 1
  }

  /** What happens ahead of each fragment. */
  ghost predicate Bystanders(gaps: seq<seq<Op>>, m: Message, k: nat) {
    && |gaps| == m.n
    && forall i :: 0 <= i < |gaps| ==> AllBystanders(gaps[i], m, k)
  }

  ghost predicate AllBystanders(ops: seq<Op>, m: Message, k: nat) {
    forall op :: op in ops ==> Bystander(op, m, k)
  }

  /** The server after the first `i` fragments and what came ahead of them. */
  ghost function After(s: ServerState, m: Message, k: nat, gaps: seq<seq<Op>>, i: nat): (after: ServerState)
    requires Sized(s) && Fragmented(m) && Bystanders(gaps, m, k) && i <= m.n
    ensures Sized(after)
    decreases i, 0
  {
    if i == 0 then s
    else
      ServerRunsSizes(Before(s, m, k, gaps, i - 1), SentCall(m, i - 1));
      FragmentStep(Before(s, m, k, gaps, i - 1), SentCall(m, i - 1)).0
  }

  /** The server that fragment `i` meets. */
  ghost function Before(s: ServerState, m: Message, k: nat, gaps: seq<seq<Op>>, i: nat): (before: ServerState)
    requires Sized(s) && Fragmented(m) && Bystanders(gaps, m, k) && i < m.n
    ensures Sized(before)
    decreases i, 1
  {
    BystandersAreValid(gaps[i], m, k);
    ServerRuns.Run(After(s, m, k, gaps, i), gaps[i])
  }

  lemma BystandersAreValid(ops: seq<Op>, m: Message, k: nat)
    requires AllBystanders(ops, m, k)
    ensures forall op :: op in ops ==> ValidOp(op)
  {
    hide Find; hide ResolveIndex;
  }

  lemma ServerRunsSizes(s: ServerState, call: Call)
    requires Sized(s)
    ensures Sized(FragmentStep(s, call).0)
  {
    ServerRuns.FragmentLeavesOthers(s, call);
  }

  ghost function AnswerTo(s: ServerState, m: Message, k: nat, gaps: seq<seq<Op>>, i: nat): (Outcome, Response)
    requires Sized(s) && Fragmented(m) && Bystanders(gaps, m, k) && i < m.n
  {
    var step := FragmentStep(Before(s, m, k, gaps, i), SentCall(m, i));
    (step.1, step.2)
  }

  /** After `i` intermediates: the stream is still served, the prefix is held, the first
      header remembered, and no request of the stream was handed on. */
  ghost predicate Midway(s: ServerState, t: ServerState, m: Message, k: nat, i: nat)
    requires Fragmented(m) && i < m.n
  {
    && Sized(s) && Serves(t, m, k)
    && RequestsOf(t.log, m.streamId) == RequestsOf(s.log, m.streamId)
    && Runs.HoldsPrefix(s.reasm[k], t.reasm[k], m.payload, m.maxFragment, i)
    && (i > 0 ==> t.firstHeader[k] == FirstHeader(m))
  }

  lemma IntermediateReaches(t: ServerState, m: Message, k: nat, i: nat)
    requires Fragmented(m) && i + 1 < m.n && Serves(t, m, k)
    ensures |SentFrame(m, i)| >= ABB_HEADER_LEN
    ensures FragmentStep(t, SentCall(m, i)) == IntermediateStep(Kicked(t, m.streamId), k, SentCall(m, i))
  {
    hide UnpackHeader; hide IntermediateStep; hide FinalStep; hide E2eStep; hide Find; hide PlainFrame; hide RequestsOf;
    hide Fragmented; hide FieldValue; hide LengthField;
    PlainFrameShape(m, i);
    ServerRuns.ReachingStep(t, SentCall(m, i), k);
  }

  lemma SegmentNumOfSent(m: Message, i: nat)
    requires Fragmented(m) && i + 1 < m.n
    ensures |SentFrame(m, i)| >= ABB_HEADER_LEN && SegmentNum(SentFrame(m, i)) == i
  {
    hide UnpackHeader; hide PlainFrame; hide Field; hide FieldValue; hide LengthField; hide EncodeAny;
    PlainFrameShape(m, i);
    ValueOfField(i);
  }

  lemma DecodeSent(m: Message, i: nat)
    requires Fragmented(m) && i < m.n
    ensures |Runs.PlannedSlice(m.payload, m.maxFragment, m.n, i)| <= MaxPayload(FragmentHeader(m, i))
    ensures DecodeAny(TypeOf(m.header), PlainFrame(m, i))
            == Ok((Received(FragmentHeader(m, i), |Runs.PlannedSlice(m.payload, m.maxFragment, m.n, i)|),
                   Runs.PlannedSlice(m.payload, m.maxFragment, m.n, i)))
  {
    hide DecodeAny; hide EncodeAny; hide Received;
    SliceFits(m, i);
    DecodeEncodedAny(FragmentHeader(m, i), Runs.PlannedSlice(m.payload, m.maxFragment, m.n, i));
  }

  /** One intermediate fragment: pending, and one more slice held. */
  lemma IntermediateAdvances(s: ServerState, t: ServerState, m: Message, k: nat, i: nat)
    requires Fragmented(m) && i + 1 < m.n && Midway(s, t, m, k, i)
    requires |s.reasm[k].content| + |m.payload| <= s.reasm[k].maxTotal
    ensures var (after, outcome, response) := FragmentStep(t, SentCall(m, i));
            && outcome == FragmentPending && response == NoResponse
            && Midway(s, after, m, k, i + 1)
  {
    hide UnpackHeader; hide PlainFrame; hide FeedStep; hide DecodeAny; hide RequestsOf; hide FragmentStep;
    hide SegmentNum; hide FirstHeader; hide Find; hide ResolveIndex; hide IsFaultedIn;
    IntermediateReaches(t, m, k, i);
    SegmentNumOfSent(m, i);
    DecodeSent(m, i);
    KickIsNoRequest(t, m.streamId, m.streamId);
    PlainFrameShape(m, i);
    Runs.PlannedFragmentFields(m.payload, m.maxFragment, m.n, i);
    Runs.FeedPlannedFragment(s.reasm[k], t.reasm[k], m.payload, m.maxFragment, m.n, i);
    FirstHeaderOf(m);
  }

  lemma FirstHeaderOf(m: Message)
    requires Fragmented(m)
    ensures HeaderLen(TypeOf(m.header)) <= |PlainFrame(m, 0)|
    ensures FirstHeader(m) == PlainFrame(m, 0)[..HeaderLen(TypeOf(m.header))]
  {
    PlainFrameShape(m, 0);
  }

  /** Calls of other streams go to other slots. */
  lemma OtherStreamElsewhere(t: ServerState, call: Call, m: Message, k: nat)
    requires Serves(t, m, k) && call.streamId != m.streamId
    ensures !ServerRuns.Reaches(t, call, k)
  {
    hide Find;
  }

  /** Nor do they latch this one or hand on its requests. */
  lemma OtherStreamKeeps(t: ServerState, fragmented: bool, call: Call, streamId: StreamId)
    requires Sized(t) && call.streamId != streamId
    ensures var after := Answered(t, fragmented, call).0;
            && Blocked(after, streamId) == Blocked(t, streamId)
            && RequestsOf(after.log, streamId) == RequestsOf(t.log, streamId)
            && after.slots == t.slots && after.streams == t.streams
  {
    hide FragmentStep; hide E2eStep; hide Enforces; hide RequestsOf;
    E2eEffect(t, call);
    FragmentEffect(t, call);
    NoNewRequests(t.log, Answered(t, fragmented, call).0.log, streamId);
    ServerRuns.ConfigurationKept(t, call);
  }

  /** So a message under way is where it was after anything a bystander does. */
  lemma BystanderKeeps(s: ServerState, t: ServerState, m: Message, k: nat, i: nat, op: Op)
    requires Fragmented(m) && i < m.n && Midway(s, t, m, k, i) && Bystander(op, m, k)
    ensures Midway(s, ServerRuns.Apply(t, op), m, k, i)
  {
    hide FragmentStep; hide E2eStep; hide RequestsOf; hide Find; hide ResolveIndex; hide Fragmented; hide FirstHeader;
    hide Dispatched; hide IsFaultedIn; hide ResetStep;
    match op
    case SingleFrame(call) =>
      OtherStreamElsewhere(t, call, m, k);
      ServerRuns.OtherStepsLeaveSlot(t, op, k);
      OtherStreamKeeps(t, false, call, m.streamId);
    case OneFragment(call) =>
      OtherStreamElsewhere(t, call, m, k);
      ServerRuns.OtherStepsLeaveSlot(t, op, k);
      OtherStreamKeeps(t, true, call, m.streamId);
    case Plain(call) =>
      KickIsNoRequest(t, call.streamId, m.streamId);
      DispatchAddsRequest(Kicked(t, call.streamId), call, call.frame, m.streamId);
      PlainKeepsRest(t, call);
    case ResetFault(streamId) =>
      ResetNeverLatches(t, streamId, m.streamId);
    case _ =>
  }

  lemma PlainKeepsRest(t: ServerState, call: Call)
    ensures PlainStep(t, call) == t.(log := PlainStep(t, call).log)
  {
    hide ResolveIndex;
  }

  lemma ResetNeverLatches(t: ServerState, streamId: StreamId, other: StreamId)
    requires Sized(t) && !Blocked(t, other)
    ensures !Blocked(ServerRuns.Apply(t, ResetFault(streamId)), other)
  {}

  lemma {:induction false} BystandersKeep(s: ServerState, t: ServerState, m: Message, k: nat, i: nat, ops: seq<Op>)
    requires Fragmented(m) && i < m.n && Midway(s, t, m, k, i) && AllBystanders(ops, m, k)
    ensures forall op :: op in ops ==> ValidOp(op)
    ensures Midway(s, ServerRuns.Run(t, ops), m, k, i)
  {
    BystandersAreValid(ops, m, k);
    if ops != [] {
      hide Midway; hide Bystander; hide Fragmented; hide Apply;
      BystandersKeep(s, t, m, k, i, ops[..|ops| - 1]);
      assert ops[|ops| - 1] in ops;
      BystanderKeeps(s, ServerRuns.Run(t, ops[..|ops| - 1]), m, k, i, ops[|ops| - 1]);
    }
  }

  lemma MidwayAtStart(s: ServerState, m: Message, k: nat)
    requires Fragmented(m) && Serves(s, m, k) && !s.reasm[k].collecting
    ensures Midway(s, s, m, k, 0)
  {
    hide RequestsOf; hide FirstHeader; hide Find;
    assert s.reasm[k].content + m.payload[..0] == s.reasm[k].content;
  }

  lemma {:induction false} IntermediatesPending(s: ServerState, m: Message, k: nat, gaps: seq<seq<Op>>, i: nat)
    requires Fragmented(m) && i < m.n && Serves(s, m, k) && Bystanders(gaps, m, k)
    requires !s.reasm[k].collecting && |s.reasm[k].content| + |m.payload| <= s.reasm[k].maxTotal
    ensures Midway(s, Before(s, m, k, gaps, i), m, k, i)
    ensures forall j :: 0 <= j < i ==> AnswerTo(s, m, k, gaps, j) == (FragmentPending, NoResponse)
  {
    hide SentCall; hide FragmentStep; hide RequestsOf; hide FirstHeader; hide Fragmented; hide Find; hide Midway;
    hide Serves; hide AllBystanders;
    ServedIsSized(s, m, k);
    if i == 0 {
      MidwayAtStart(s, m, k);
    } else {
      IntermediatesPending(s, m, k, gaps, i - 1);
      IntermediateAdvances(s, Before(s, m, k, gaps, i - 1), m, k, i - 1);
    }
    BystandersKeep(s, After(s, m, k, gaps, i), m, k, i, gaps[i]);
  }

  lemma MsOfSealed(frame: seq<byte>, crc: bv32)
    requires Lengthened(frame).Some? && RealOctets(frame) >= ABB_HEADER_LEN
    ensures |Sealed(frame, crc)| >= ABB_HEADER_LEN
    ensures UnpackHeader(Sealed(frame, crc)).ms == UnpackHeader(frame).ms
    ensures PadOctets(Sealed(frame, crc)) == PadOctets(frame)
  {
    hide Lengthened; hide PutU32; hide Sealed; hide PadField; hide OctetValue;
    SealedLayout(frame, crc);
    MsIsInOctet6(frame, Sealed(frame, crc));
  }

  lemma MsIsInOctet6(frame: seq<byte>, frame': seq<byte>)
    requires |frame| >= ABB_HEADER_LEN && |frame'| >= ABB_HEADER_LEN && frame'[6] == frame[6]
    ensures UnpackHeader(frame').ms == UnpackHeader(frame).ms
  {}

  /** The last frame as the server sees it. */
  lemma LastFrameReads(m: Message)
    requires Fragmented(m)
    ensures var last := PlainFrame(m, m.n - 1);
            var sent := SentFrame(m, m.n - 1);
            && |sent| >= ABB_HEADER_LEN && !MsSet(sent)
            && PadOctets(sent) + CRC_LEN <= |sent|
            && Trailer(sent) == MessageCrc(m)
            && Body(sent) == last
  {
    hide UnpackHeader; hide PlainFrame; hide Lengthened; hide Sealed; hide PadOctets; hide Trailer; hide Body;
    hide AcfShaped; hide MessageCrc;
    var last := PlainFrame(m, m.n - 1);
    PlainFrameShape(m, m.n - 1);
    LastFrameCanBeSealed(m);
    MsOfSealed(last, MessageCrc(m));
    SealedReads(last, MessageCrc(m));
  }

  lemma FinalReaches(t: ServerState, m: Message, k: nat)
    requires Fragmented(m) && Serves(t, m, k)
    ensures FragmentStep(t, SentCall(m, m.n - 1))
            == if t.reasm[k].collecting
               then FinalStep(Kicked(t, m.streamId), k, SentCall(m, m.n - 1),
                              t.slots[Find(t.slots, OnStream(m.streamId, m.busId)).value].rxEnforceE2e)
               else E2eStep(Kicked(t, m.streamId), SentCall(m, m.n - 1))
  {
    hide MsSet; hide IntermediateStep; hide FinalStep; hide E2eStep; hide Find; hide SentFrame; hide RequestsOf;
    hide FragmentStep; hide Fragmented; hide ResolveIndex; hide Kicked; hide IsPlan; hide Offset;
    CutOf(m);
    LastFrameReads(m);
    ServerRuns.ReachingStep(t, SentCall(m, m.n - 1), k);
  }

  /** The header the server decodes from the last fragment. */
  ghost function LastReceived(m: Message): AnyHeader
    requires Fragmented(m)
  {
    SliceFits(m, m.n - 1);
    Received(FragmentHeader(m, m.n - 1), |Runs.PlannedSlice(m.payload, m.maxFragment, m.n, m.n - 1)|)
  }

  /** The original payload under the last fragment's header. */
  ghost function Request(m: Message): Option<seq<byte>>
    requires Fragmented(m)
  {
    EncodeAny(LastReceived(m), m.payload)
  }

  lemma RequestDecodes(m: Message)
    requires Fragmented(m)
    ensures Request(m).Some? <==> |m.payload| <= MaxPayload(m.header)
    ensures Request(m).Some? ==>
              DecodeAny(TypeOf(m.header), Request(m).value) == Ok((Received(LastReceived(m), |m.payload|), m.payload))
  {
    hide DecodeAny; hide EncodeAny; hide Fragmented;
    EncodableExactlyWhen(LastReceived(m), m.payload);
    if |m.payload| <= MaxPayload(m.header) {
      DecodeEncodedAny(LastReceived(m), m.payload);
    }
  }

  /** What the last fragment of message `m` must lead to. */
  ghost predicate Delivered(t: ServerState, after: ServerState, outcome: Outcome, response: Response, m: Message)
    requires Fragmented(m)
  {
    match Request(m)
    case Some(request) =>
      && outcome == PlainAnswer
      && after.log == Dispatched(t, SentCall(m, m.n - 1), request).log
    case None =>
      && outcome == Rejected
      && response == ErrorResponse(
           ErrorFrame(m.busId, LastReceived(m).Info().transactionNum, ERROR_REQUEST_REJECTED))
      && after.log == t.log
  }

  lemma FinalDelivers(t: ServerState, m: Message, k: nat, enforce: bool, r: ReasmState)
    requires Fragmented(m) && Sized(t) && k < MAX_REQUEST_STREAMS
    requires t.firstHeader[k] == FirstHeader(m)
    requires FeedStep(t.reasm[k], Runs.PlannedFragment(m.payload, m.maxFragment, m.n, m.n - 1)) == (r, Complete)
    requires r.content == m.payload
    ensures var (after, outcome, response) := FinalStep(t, k, SentCall(m, m.n - 1), enforce);
            && Delivered(t, after, outcome, response, m)
            && |after.reasm| == |t.reasm| && after.reasm[k] == Fresh(t.reasm[k].maxTotal)
  {
    hide DecodeAny; hide FeedStep; hide ErrorFrame; hide EncodeAny; hide FragmentedCrc; hide PadOctets; hide Body;
    hide Trailer; hide SentFrame; hide PlainFrame; hide Received; hide FirstHeader; hide Fragmented;
    CutOf(m);
    LastFrameReads(m);
    DecodeSent(m, m.n - 1);
    LastPlannedFragment(m);
    FeedKeepsBound(t.reasm[k], Runs.PlannedFragment(m.payload, m.maxFragment, m.n, m.n - 1));
  }

  lemma LastPlannedFragment(m: Message)
    requires Fragmented(m)
    ensures Runs.PlannedFragment(m.payload, m.maxFragment, m.n, m.n - 1)
            == WireFragment(false, 0, Runs.PlannedSlice(m.payload, m.maxFragment, m.n, m.n - 1), true)
  {}

  /** The last fragment of a message under way. */
  lemma LastFragmentDelivers(s: ServerState, t: ServerState, m: Message, k: nat)
    requires Fragmented(m) && Midway(s, t, m, k, m.n - 1)
    requires s.reasm[k].content == [] && |m.payload| <= s.reasm[k].maxTotal
    ensures var (after, outcome, response) := FragmentStep(t, SentCall(m, m.n - 1));
            && Sized(after) && after.reasm[k] == Fresh(s.reasm[k].maxTotal)
            && (|m.payload| <= MaxPayload(m.header) ==>
                  && outcome == PlainAnswer
                  && Request(m).Some?
                  && RequestsOf(after.log, m.streamId) == RequestsOf(s.log, m.streamId)
                       + [PlainDispatch(m.busId, m.subtype, TypeOf(m.header), m.timeSync, m.streamId, Request(m).value)]
                  && DecodeAny(TypeOf(m.header), Request(m).value)
                     == Ok((Received(LastReceived(m), |m.payload|), m.payload)))
            && (|m.payload| > MaxPayload(m.header) ==>
                  && outcome == Rejected
                  && response == ErrorResponse(
                       ErrorFrame(m.busId, LastReceived(m).Info().transactionNum, ERROR_REQUEST_REJECTED))
                  && RequestsOf(after.log, m.streamId) == RequestsOf(s.log, m.streamId))
  {
    hide DecodeAny; hide FragmentStep; hide ErrorFrame; hide EncodeAny; hide SentCall; hide FeedStep; hide Request;
    hide Received; hide FirstHeader; hide Fragmented; hide Find; hide FinalStep; hide E2eStep; hide RequestsOf;
    hide Blocked; hide IsPlan; hide Offset; hide Dispatched; hide ResolveIndex;
    CutOf(m);
    FinalReaches(t, m, k);
    Runs.FeedPlannedFragment(s.reasm[k], t.reasm[k], m.payload, m.maxFragment, m.n, m.n - 1);
    var (r, _) := FeedStep(t.reasm[k], Runs.PlannedFragment(m.payload, m.maxFragment, m.n, m.n - 1));
    assert [] + m.payload == m.payload;
    FinalDelivers(Kicked(t, m.streamId), m, k,
      t.slots[Find(t.slots, OnStream(m.streamId, m.busId)).value].rxEnforceE2e, r);
    KickIsNoRequest(t, m.streamId, m.streamId);
    RequestDecodes(m);
    ServerRunsSizes(t, SentCall(m, m.n - 1));
    if Request(m).Some? {
      DispatchAddsRequest(Kicked(t, m.streamId), SentCall(m, m.n - 1), Request(m).value, m.streamId);
      SentEvent(m, Request(m).value);
    }
  }

  /** A fragmented request sent in order to a server whose slot for the stream is empty and
      large enough, whatever else other streams and the application do in between: every
      fragment but the last is answered FRAGMENT_PENDING; the last makes the server dispatch
      exactly one request of the stream, the original payload re-encoded under the last
      fragment's header, from which the payload decodes; or, when one frame cannot carry it,
      reject it and dispatch nothing. Either way the slot is empty again. */
  lemma FragmentedRequestDelivered(s: ServerState, m: Message, k: nat, gaps: seq<seq<Op>>)
    requires Fragmented(m) && Serves(s, m, k) && Bystanders(gaps, m, k)
    requires s.reasm[k] == Fresh(s.reasm[k].maxTotal) && |m.payload| <= s.reasm[k].maxTotal
    ensures forall i :: 0 <= i < m.n - 1 ==> AnswerTo(s, m, k, gaps, i) == (FragmentPending, NoResponse)
    ensures var final := After(s, m, k, gaps, m.n);
            var (outcome, response) := AnswerTo(s, m, k, gaps, m.n - 1);
            && final.reasm[k] == Fresh(s.reasm[k].maxTotal)
            && (|m.payload| <= MaxPayload(m.header) ==>
                  && outcome == PlainAnswer
                  && Request(m).Some?
                  && RequestsOf(final.log, m.streamId) == RequestsOf(s.log, m.streamId)
                       + [PlainDispatch(m.busId, m.subtype, TypeOf(m.header), m.timeSync, m.streamId, Request(m).value)]
                  && DecodeAny(TypeOf(m.header), Request(m).value)
                     == Ok((Received(LastReceived(m), |m.payload|), m.payload)))
            && (|m.payload| > MaxPayload(m.header) ==>
                  && outcome == Rejected
                  && response == ErrorResponse(
                       ErrorFrame(m.busId, LastReceived(m).Info().transactionNum, ERROR_REQUEST_REJECTED))
                  && RequestsOf(final.log, m.streamId) == RequestsOf(s.log, m.streamId))
  {
    hide DecodeAny; hide FragmentStep; hide ErrorFrame; hide EncodeAny; hide SentCall; hide Request; hide Received;
    hide Fragmented; hide RequestsOf; hide Midway; hide Before; hide Bystanders; hide Serves;
    CutOf(m);
    ServedIsSized(s, m, k);
    IntermediatesPending(s, m, k, gaps, m.n - 1);
    LastFragmentDelivers(s, Before(s, m, k, gaps, m.n - 1), m, k);
  }

  /** The reassemblers know slots, not streams. When the application moves slot `k` to another
      stream while all but the last fragment of a message are held, a last fragment of that
      other stream, sealed for it, completes the message: the whole payload is dispatched in
      its name, although it sent no more than the last slice. */
  lemma MovedSlotCompletesForeignMessage(
      s: ServerState, m: Message, k: nat, gaps: seq<seq<Op>>, streams: seq<StreamId>, other: StreamId)
    requires Fragmented(m) && Serves(s, m, k) && Bystanders(gaps, m, k)
    requires s.reasm[k] == Fresh(s.reasm[k].maxTotal) && |m.payload| <= s.reasm[k].maxTotal
    requires other != m.streamId && |m.payload| <= MaxPayload(m.header)
    requires ValidOp(Configure(s.slots, streams))
    requires var moved := Apply(Before(s, m, k, gaps, m.n - 1), Configure(s.slots, streams));
             Serves(moved, m.(streamId := other), k)
    ensures Fragmented(m.(streamId := other))
    ensures var moved := Apply(Before(s, m, k, gaps, m.n - 1), Configure(s.slots, streams));
            var foreign := m.(streamId := other);
            var (after, outcome, _) := FragmentStep(moved, SentCall(foreign, m.n - 1));
            && outcome == PlainAnswer
            && Request(foreign).Some?
            && RequestsOf(after.log, other) == RequestsOf(moved.log, other)
                 + [PlainDispatch(m.busId, m.subtype, TypeOf(m.header), m.timeSync, other, Request(foreign).value)]
            && DecodeAny(TypeOf(m.header), Request(foreign).value).Ok?
            && DecodeAny(TypeOf(m.header), Request(foreign).value).value.1 == m.payload
  {
    hide DecodeAny; hide FragmentStep; hide EncodeAny; hide SentCall; hide Request; hide Received;
    hide RequestsOf; hide Before; hide Bystanders; hide Find; hide ResolveIndex; hide FirstHeader; hide IsFaultedIn;
    IntermediatesPending(s, m, k, gaps, m.n - 1);
    var foreign := m.(streamId := other);
    var moved := Apply(Before(s, m, k, gaps, m.n - 1), Configure(s.slots, streams));
    SameFirstHeader(m, other);
    var base := moved.(reasm := s.reasm);
    LastFragmentDelivers(base, moved, foreign, k);
  }

  lemma SameFirstHeader(m: Message, other: StreamId)
    requires Fragmented(m)
    ensures Fragmented(m.(streamId := other)) && FirstHeader(m.(streamId := other)) == FirstHeader(m)
  {
    hide EncodeAny;
  }

  lemma SentEvent(m: Message, request: seq<byte>)
    requires Fragmented(m)
    ensures PlainEvent(SentCall(m, m.n - 1), request)
            == PlainDispatch(m.busId, m.subtype, TypeOf(m.header), m.timeSync, m.streamId, request)
    ensures SentCall(m, m.n - 1).streamId == m.streamId
  {}

  // --- Unfragmented requests ----------------------------------------------------------

  /** A request encoded, wrapped under its own header values and sent as one frame, through
      either entry point: exactly the encoded frame is handed on, and it decodes to the
      payload. */
  lemma SingleRequestDelivered(s: ServerState, fragmented: bool, call: Call, h: AnyHeader, payload: seq<byte>)
    requires HeaderLen(TypeOf(h)) + |payload| <= (MAX_QUADLETS - 1) * 4
    requires Sized(s) && !Blocked(s, call.streamId) && AsksForCrc(s, call) && call.msgType == TypeOf(h)
    requires fragmented ==> IsWholeFrame(s, call)
    requires EncodeAny(h, payload).Some?
    requires Wrapped(FrameValues(call), EncodeAny(h, payload).value) == Some(call.frame)
    ensures var (after, outcome, response) := Answered(s, fragmented, call);
            && outcome == PlainAnswer && response == PlainResponse
            && HandsOn(s, call, if fragmented then 2 else 1, EncodeAny(h, payload).value, after)
    ensures |payload| <= MaxPayload(h)
    ensures DecodeAny(call.msgType, EncodeAny(h, payload).value) == Ok((Received(h, |payload|), payload))
  {
    hide EncodeAny; hide DecodeAny; hide Received; hide Answered; hide HandsOn; hide CarriesCrc; hide AsksForCrc;
    hide Wrapped; hide Unwrapped; hide AcfShaped; hide UnpackHeader; hide FrameValues; hide IsWholeFrame;
    EncodableExactlyWhen(h, payload);
    PeekEncoded(h, payload);
    AcfShapedSurvives(FrameValues(call), EncodeAny(h, payload).value);
    AcceptedCarriesCrc(call);
    CompleteFrameVerdict(s, fragmented, call);
    DecodeEncodedAny(h, payload);
  }

  /** Every such request can be wrapped. */
  lemma SingleRequestCanBeWrapped(ctx: Context, h: AnyHeader, payload: seq<byte>)
    requires HeaderLen(TypeOf(h)) + |payload| <= (MAX_QUADLETS - 1) * 4
    ensures EncodeAny(h, payload).Some? && Wrapped(ctx, EncodeAny(h, payload).value).Some?
  {
    hide EncodeAny; hide Wrapped; hide Unwrapped; hide AcfShaped; hide UnpackHeader;
    PeekEncoded(h, payload);
    AcfShapedSurvives(ctx, EncodeAny(h, payload).value);
  }

  // --- Error answers ----------------------------------------------------------------

  lemma ErrorFields(msgLength: bv16, pad: byte, busId: bv16, transactionNum: byte)
    ensures var h := ZERO_HEADER.(busId := busId, transactionNum := transactionNum, op := OP_NONE, rsp := 1, err := 1,
                                  pad := pad);
            var t := Truncated(MSG_TYPE_ABB, msgLength, h);
            t.err == 1 && t.rsp == 1 && t.transactionNum == transactionNum && t.busId == busId & 0x7FF && t.evt == 0
  {}

  /** The peer of a refused request decodes its transaction number and the error code. */
  lemma ErrorFrameDecodes(busId: bv16, transactionNum: byte, code: byte)
    ensures var decoded := DecodeAbb(ErrorFrame(busId, transactionNum, code));
            && decoded.Ok?
            && decoded.value.1 == [code]
            && decoded.value.0.err == 1 && decoded.value.0.rsp == 1
            && decoded.value.0.transactionNum == transactionNum && decoded.value.0.busId == busId & 0x7FF
  {
    hide PaddedHeader; hide DecodeAbb; hide Truncated; hide Field; hide Octet; hide Quadlets; hide PadLen;
    var h := ZERO_HEADER.(busId := busId, transactionNum := transactionNum, op := OP_NONE, rsp := 1, err := 1);
    DecodeEncodedAbb(h, [code], []);
    assert ErrorFrame(busId, transactionNum, code) + [] == ErrorFrame(busId, transactionNum, code);
    QuadletsBound(ABB_HEADER_LEN, 1);
    ErrorFields(Field(Quadlets(ABB_HEADER_LEN, 1)), Octet(PadLen(ABB_HEADER_LEN + 1)), busId, transactionNum);
  }
}
