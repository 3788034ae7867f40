/** Safety of the server over whole runs: what a fragmented dispatch implies, and what a
    latched stream fault blocks. */
module ServerRuns {
  import opened Octets
  import opened Wrappers
  import opened Acf
  import opened Crc
  import opened CrcDetection
  import opened AnyAcf
  import opened E2e
  import opened Fragment
  import opened EndpointTable
  import opened FaultTracker
  import opened ServerSteps

  /** What may happen to a server: calls of its three dispatch entry points; and its
      application resets a fault latch, attaches another tracker or none, or replaces the
      endpoint and request-stream tables by any others. */
  datatype Op =
    | SingleFrame(call: Call)
    | OneFragment(call: Call)
    | Plain(call: Call)
    | ResetFault(streamId: StreamId)
    | AttachTracker(faults: Option<Faults>)
    | Configure(slots: seq<EndpointTable.Slot>, streams: seq<StreamId>)

  ghost predicate ValidOp(op: Op) {
    op.Configure? ==> |op.streams| <= MAX_REQUEST_STREAMS
  }

  function Apply(s: ServerState, op: Op): ServerState
    requires Sized(s)
  {
    match op
    case SingleFrame(call) => E2eStep(s, call).0
    case OneFragment(call) => FragmentStep(s, call).0
    case Plain(call) => PlainStep(s, call)
    case ResetFault(streamId) =>
      if s.faults.None? then s else s.(faults := Some(ResetStep(s.faults.value, streamId)))
    case AttachTracker(faults) => s.(faults := faults)
    case Configure(slots, streams) => s.(slots := slots, streams := streams)
  }

  /** The call is for a protected endpoint of an unfaulted stream that request-stream slot
      `k` serves, and carries a whole header. */
  predicate Reaches(s: ServerState, call: Call, k: nat) {
    var at := Find(s.slots, OnStream(call.streamId, call.busId));
    && !Blocked(s, call.streamId)
    && at.Some? && s.slots[at.value].reqCrcEnable
    && |call.frame| >= ABB_HEADER_LEN
    && ResolveIndex(s.streams, call.streamId) == k + 1
  }

  /** Two states that agree on request-stream slot `k`. */
  ghost predicate SameSlot(s: ServerState, s': ServerState, k: nat)
    requires Sized(s) && Sized(s') && k < MAX_REQUEST_STREAMS
  {
    s.reasm[k] == s'.reasm[k] && s.firstHeader[k] == s'.firstHeader[k]
  }

  lemma ResolvedIndexFits(s: ServerState, streamId: StreamId)
    requires Sized(s)
    ensures ResolveIndex(s.streams, streamId) <= MAX_REQUEST_STREAMS
  {}

  lemma ConfigurationKept(t: ServerState, call: Call)
    requires Sized(t)
    ensures E2eStep(t, call).0.slots == t.slots && E2eStep(t, call).0.streams == t.streams
    ensures FragmentStep(t, call).0.slots == t.slots && FragmentStep(t, call).0.streams == t.streams
  {
    hide Find; hide Unwrapped; hide ErrorTo; hide OnCrcErrorStep; hide ResolveIndex; hide OverflowEvents;
    E2eKeepsConfiguration(t, call);
    var s1 := Kicked(t, call.streamId);
    E2eKeepsConfiguration(s1, call);
    var index := ResolveIndex(s1.streams, call.streamId);
    ResolvedIndexFits(s1, call.streamId);
    hide E2eStep; hide IntermediateStep; hide FinalStep;
    if index != 0 {
      SlotStepsKeepConfiguration(s1, index - 1, call);
    }
  }

  lemma E2eKeepsConfiguration(t: ServerState, call: Call)
    requires Sized(t)
    ensures E2eStep(t, call).0.slots == t.slots && E2eStep(t, call).0.streams == t.streams
  {
    hide Find; hide Unwrapped; hide ErrorTo; hide OnCrcErrorStep; hide ResolveIndex; hide OverflowEvents;
    ResolvedIndexFits(t, call.streamId);
  }

  lemma SlotStepsKeepConfiguration(t: ServerState, k: nat, call: Call)
    requires Sized(t) && k < MAX_REQUEST_STREAMS
    ensures forall enforce ::
              var after := FinalStep(t, k, call, enforce).0; after.slots == t.slots && after.streams == t.streams
    ensures |call.frame| >= ABB_HEADER_LEN ==>
              var after := IntermediateStep(t, k, call).0; after.slots == t.slots && after.streams == t.streams
  {
    hide DecodeAny; hide FeedStep; hide PadOctets; hide Body; hide Trailer; hide UnpackHeader; hide SegmentNum;
    hide FragmentedCrc; hide EncodeAny; hide ErrorFrame; hide OnCrcErrorStep; hide OverflowEvents; hide HeaderLen;
  }

  lemma E2eLeavesSlots(s: ServerState, call: Call)
    requires Sized(s)
    ensures var after := E2eStep(s, call).0;
            Sized(after) && after.reasm == s.reasm && after.firstHeader == s.firstHeader
  {
    hide Unwrapped; hide Find; hide ErrorTo;
  }

  lemma IntermediateLeavesOthers(s: ServerState, j: nat, call: Call)
    requires Sized(s) && j < MAX_REQUEST_STREAMS && |call.frame| >= ABB_HEADER_LEN
    ensures var after := IntermediateStep(s, j, call).0;
            Sized(after) && forall k :: 0 <= k < MAX_REQUEST_STREAMS && k != j ==> SameSlot(s, after, k)
  {
    hide DecodeAny; hide UnpackHeader; hide FieldValue; hide FeedStep;
  }

  lemma FinalLeavesOthers(s: ServerState, j: nat, call: Call, enforce: bool)
    requires Sized(s) && j < MAX_REQUEST_STREAMS
    ensures var after := FinalStep(s, j, call, enforce).0;
            Sized(after) && forall k :: 0 <= k < MAX_REQUEST_STREAMS && k != j ==> SameSlot(s, after, k)
  {
    hide DecodeAny; hide FeedStep; hide ErrorFrame; hide EncodeAny; hide FragmentedCrc; hide PadOctets; hide Body;
    hide Trailer;
  }

  lemma FragmentLeavesOthers(s: ServerState, call: Call)
    requires Sized(s)
    ensures var after := FragmentStep(s, call).0;
            Sized(after) && forall k :: 0 <= k < MAX_REQUEST_STREAMS && !Reaches(s, call, k) ==> SameSlot(s, after, k)
  {
    hide IntermediateStep; hide FinalStep; hide E2eStep; hide Find; hide ErrorTo; hide UnpackHeader;
    var s1 := Kicked(s, call.streamId);
    E2eLeavesSlots(s1, call);
    var at := Find(s1.slots, OnStream(call.streamId, call.busId));
    var index := ResolveIndex(s1.streams, call.streamId);
    if !Blocked(s1, call.streamId) && at.Some? && s1.slots[at.value].reqCrcEnable
       && |call.frame| >= ABB_HEADER_LEN && index != 0 {
      IntermediateLeavesOthers(s1, index - 1, call);
      FinalLeavesOthers(s1, index - 1, call, s1.slots[at.value].rxEnforceE2e);
      assert Reaches(s, call, index - 1);
      forall k | 0 <= k < MAX_REQUEST_STREAMS && k != index - 1
        ensures SameSlot(s, FragmentStep(s, call).0, k)
      {
        assert SameSlot(s1, FragmentStep(s, call).0, k);
      }
    } else {
      assert FragmentStep(s, call).0.reasm == s.reasm;
    }
  }

  lemma ApplyKeepsSizes(s: ServerState, op: Op)
    requires Sized(s) && ValidOp(op)
    ensures Sized(Apply(s, op))
  {
    hide E2eStep; hide FragmentStep;
    match op
    case SingleFrame(call) => E2eLeavesSlots(s, call);
    case OneFragment(call) => FragmentLeavesOthers(s, call);
    case _ =>
  }

  ghost function Run(s: ServerState, ops: seq<Op>): (r: ServerState)
    requires Sized(s) && forall op :: op in ops ==> ValidOp(op)
    ensures Sized(r)
  {
    if ops == [] then s
    else
      var before := Run(s, ops[..|ops| - 1]);
      ApplyKeepsSizes(before, ops[|ops| - 1]);
      Apply(before, ops[|ops| - 1])
  }

  // --- Reassembly: what is dispatched was checked ------------------------------------

  /** What an observer of the calls and answers knows of slot `k`: the first fragment's
      header octets and the payloads accepted since the slot was last emptied. */
  datatype Collected = Collected(header: seq<byte>, payloads: seq<seq<byte>>)

  const NOTHING := Collected([], [])

  function Observe(h: Collected, s: ServerState, op: Op, k: nat): Collected
    requires Sized(s)
  {
    if !op.OneFragment? || !Reaches(s, op.call, k) then h
    else if !MsSet(op.call.frame) then NOTHING
    else
      match DecodeAny(op.call.msgType, op.call.frame)
      case Err(_) => h
      case Ok((_, payload)) =>
        if FragmentStep(s, op.call).1 != FragmentPending then NOTHING
        else
          DecodedFrameHoldsHeader(op.call.msgType, op.call.frame);
          Collected(if h.payloads == [] then op.call.frame[..HeaderLen(op.call.msgType)] else h.header,
                    h.payloads + [payload])
  }

  ghost function Observed(s: ServerState, ops: seq<Op>, k: nat): Collected
    requires Sized(s) && forall op :: op in ops ==> ValidOp(op)
  {
    if ops == [] then NOTHING
    else
      var front := ops[..|ops| - 1];
      Observe(Observed(s, front, k), Run(s, front), ops[|ops| - 1], k)
  }

  /** Slot `k` holds exactly what was observed, and nothing at all between messages. */
  ghost predicate Holds(s: ServerState, k: nat, h: Collected)
    requires k < |s.reasm| && k < |s.firstHeader|
  {
    var r := s.reasm[k];
    && r.content == Concat(h.payloads)
    && r.collecting == (h.payloads != [])
    && (r.collecting ==> s.firstHeader[k] == h.header && r.expected == U16(|h.payloads|))
    && (!r.collecting ==> r == Fresh(r.maxTotal))
  }

  /** A server as created: every reassembler empty, whatever its bound. */
  ghost predicate Created(s: ServerState) {
    && Sized(s)
    && forall k :: 0 <= k < MAX_REQUEST_STREAMS ==> s.reasm[k] == Fresh(s.reasm[k].maxTotal)
  }

  /** Calls that do not reach slot `k` leave its reassembler and header alone. */
  lemma OtherStepsLeaveSlot(s: ServerState, op: Op, k: nat)
    requires Sized(s) && ValidOp(op) && k < MAX_REQUEST_STREAMS
    requires !(op.OneFragment? && Reaches(s, op.call, k))
    ensures Sized(Apply(s, op)) && SameSlot(s, Apply(s, op), k)
  {
    hide E2eStep; hide FragmentStep; hide Reaches;
    match op
    case SingleFrame(call) => E2eLeavesSlots(s, call);
    case OneFragment(call) => FragmentLeavesOthers(s, call);
    case _ =>
  }

  /** A call that reaches slot `k` acts on it as one of the two fragment steps, or is a
      complete frame while nothing is being collected. */
  lemma ReachingStep(s: ServerState, call: Call, k: nat)
    requires Sized(s) && k < MAX_REQUEST_STREAMS && Reaches(s, call, k)
    ensures var s1 := Kicked(s, call.streamId);
            var enforce := s.slots[Find(s.slots, OnStream(call.streamId, call.busId)).value].rxEnforceE2e;
            FragmentStep(s, call) ==
              if MsSet(call.frame) then IntermediateStep(s1, k, call)
              else if s.reasm[k].collecting then FinalStep(s1, k, call, enforce)
              else E2eStep(s1, call)
  {
    hide Unwrapped; hide IntermediateStep; hide FinalStep; hide E2eStep; hide Find; hide ErrorTo; hide UnpackHeader;
  }

  lemma IntermediateHolds(s: ServerState, k: nat, call: Call, h: Collected)
    requires Sized(s) && k < MAX_REQUEST_STREAMS && |call.frame| >= ABB_HEADER_LEN
    requires DecodeAny(call.msgType, call.frame).Ok? && Holds(s, k, h)
    ensures var (after, outcome, _) := IntermediateStep(s, k, call);
            var payload := DecodeAny(call.msgType, call.frame).value.1;
            && Sized(after)
            && HeaderLen(call.msgType) <= |call.frame|
            && (outcome == FragmentPending ==>
                  Holds(after, k, Collected(
                    if h.payloads == [] then call.frame[..HeaderLen(call.msgType)] else h.header,
                    h.payloads + [payload])))
            && (outcome != FragmentPending ==> Holds(after, k, NOTHING))
  {
    hide DecodeAny; hide UnpackHeader; hide FieldValue; hide FeedStep; hide SegmentNum; hide HeaderLen;
    DecodedFrameHoldsHeader(call.msgType, call.frame);
    var payload := DecodeAny(call.msgType, call.frame).value.1;
    FeedIntermediate(s.reasm[k], h.payloads, WireFragment(true, SegmentNum(call.frame), payload, true));
  }

  /** What an accepted intermediate does to a reassembler that holds `payloads`. */
  lemma FeedIntermediate(r: ReasmState, payloads: seq<seq<byte>>, f: WireFragment)
    requires f.ms && r.content == Concat(payloads) && r.collecting == (payloads != [])
    requires r.collecting ==> r.expected == U16(|payloads|)
    ensures var (after, result) := FeedStep(r, f);
            && after.maxTotal == r.maxTotal
            && (result == Continue ==>
                  && after.content == Concat(payloads + [f.payload]) && after.collecting
                  && after.expected == U16(|payloads| + 1))
  {
    hide Concat; hide NeedsGrowth; hide GrownCap; hide U16;
    ConcatSnoc(payloads, f.payload);
    NextU16(|payloads|);
  }

  lemma FinalHolds(s: ServerState, k: nat, call: Call, enforce: bool)
    requires Sized(s) && k < MAX_REQUEST_STREAMS
    ensures var after := FinalStep(s, k, call, enforce).0;
            Sized(after) && Holds(after, k, NOTHING)
  {
    hide DecodeAny; hide FeedStep; hide ErrorFrame; hide EncodeAny; hide FragmentedCrc; hide PadOctets; hide Body;
    hide Trailer;
  }

  lemma HoldsDependsOnSlot(s: ServerState, s': ServerState, k: nat, h: Collected)
    requires k < |s.reasm| && k < |s.firstHeader| && k < |s'.reasm| && k < |s'.firstHeader|
    requires s.reasm[k] == s'.reasm[k] && s.firstHeader[k] == s'.firstHeader[k] && Holds(s, k, h)
    ensures Holds(s', k, h)
  {}

  lemma StepHolds(s: ServerState, op: Op, k: nat, h: Collected)
    requires Sized(s) && ValidOp(op) && k < MAX_REQUEST_STREAMS && Holds(s, k, h)
    ensures Sized(Apply(s, op)) && Holds(Apply(s, op), k, Observe(h, s, op, k))
  {
    hide Holds; hide Reaches; hide FragmentStep; hide E2eStep; hide IntermediateStep; hide FinalStep;
    hide DecodeAny; hide UnpackHeader; hide Find;
    ApplyKeepsSizes(s, op);
    if op.OneFragment? && Reaches(s, op.call, k) {
      ReachingFragmentHolds(s, op.call, k, h);
    } else {
      OtherStepsLeaveSlot(s, op, k);
      HoldsDependsOnSlot(s, Apply(s, op), k, h);
    }
  }

  lemma CollectingIsObserved(s: ServerState, k: nat, h: Collected)
    requires k < |s.reasm| && k < |s.firstHeader| && Holds(s, k, h)
    ensures s.reasm[k].collecting == (h.payloads != [])
    ensures !s.reasm[k].collecting ==> Holds(s, k, NOTHING)
  {}

  lemma ReachingFragmentHolds(s: ServerState, call: Call, k: nat, h: Collected)
    requires Sized(s) && k < MAX_REQUEST_STREAMS && Holds(s, k, h) && Reaches(s, call, k)
    ensures var after := FragmentStep(s, call).0;
            Sized(after) && Holds(after, k, Observe(h, s, OneFragment(call), k))
  {
    hide Holds; hide FragmentStep; hide E2eStep; hide IntermediateStep; hide FinalStep;
    hide DecodeAny; hide UnpackHeader; hide Find;
    var s1 := Kicked(s, call.streamId);
    HoldsDependsOnSlot(s, s1, k, h);
    ReachingStep(s, call, k);
    CollectingIsObserved(s, k, h);
    if MsSet(call.frame) {
      if DecodeAny(call.msgType, call.frame).Ok? {
        IntermediateHolds(s1, k, call, h);
      } else {
        UndecodableIsRefused(s1, k, call);
      }
    } else if s.reasm[k].collecting {
      var enforce := s.slots[Find(s.slots, OnStream(call.streamId, call.busId)).value].rxEnforceE2e;
      FinalHolds(s1, k, call, enforce);
    } else {
      E2eLeavesSlots(s1, call);
      HoldsDependsOnSlot(s1, E2eStep(s1, call).0, k, NOTHING) by {
        CollectingIsObserved(s1, k, h);
      }
    }
  }

  lemma UndecodableIsRefused(s: ServerState, k: nat, call: Call)
    requires Sized(s) && k < MAX_REQUEST_STREAMS && |call.frame| >= ABB_HEADER_LEN
    requires DecodeAny(call.msgType, call.frame).Err?
    ensures IntermediateStep(s, k, call) == Refused(s)
  {}

  /** Over every run, every request-stream slot holds exactly the payloads observed to be
      accepted since it was last emptied, and is empty while no message is collected. */
  lemma {:induction false} SlotsHoldObserved(s: ServerState, ops: seq<Op>, k: nat)
    requires Created(s) && (forall op :: op in ops ==> ValidOp(op)) && k < MAX_REQUEST_STREAMS
    ensures Holds(Run(s, ops), k, Observed(s, ops, k))
  {
    hide Observe; hide Apply;
    if ops != [] {
      var front := ops[..|ops| - 1];
      SlotsHoldObserved(s, front, k);
      StepHolds(Run(s, front), ops[|ops| - 1], k, Observed(s, front, k));
    }
  }

  /** Nothing was handed to the plain dispatcher. */
  ghost predicate NoNewDispatch(s: ServerState, after: ServerState) {
    && s.log <= after.log
    && forall i :: |s.log| <= i < |after.log| ==> !after.log[i].PlainDispatch?
  }

  lemma NoDispatchSinceKick(s: ServerState, streamId: StreamId, after: ServerState)
    requires NoNewDispatch(Kicked(s, streamId), after)
    ensures NoNewDispatch(s, after)
  {}

  /** The header values that a fragmented message protects: an NTSCF header has no timestamp. */
  function MessageValues(call: Call): Context {
    Context(call.subtype, 0, false, call.streamId, if call.subtype == 0x82 then 0 else call.timestamp)
  }

  /** The final fragment of a message that was being collected after any run. It is
      dispatched exactly when it decodes, the message fits, its trailer equals the checksum
      over header values, first header and all the payloads observed, and one frame can carry
      the message; and then precisely that message is dispatched. A wrong checksum is answered
      with POCI_FAILURE, a message too long for one frame with REQUEST_REJECTED. */
  lemma ReassembledDispatchIsChecked(s: ServerState, ops: seq<Op>, call: Call, k: nat)
    requires Created(s) && (forall op :: op in ops ==> ValidOp(op)) && k < MAX_REQUEST_STREAMS
    requires Reaches(Run(s, ops), call, k) && !MsSet(call.frame) && Observed(s, ops, k).payloads != []
    ensures var before := Run(s, ops);
            var h := Observed(s, ops, k);
            var (after, outcome, response) := FragmentStep(before, call);
            var decoded := DecodeAny(call.msgType, Body(call.frame));
            && (outcome == PlainAnswer <==>
                  && decoded.Ok?
                  && var message := Concat(h.payloads + [decoded.value.1]);
                     && |message| <= before.reasm[k].maxTotal
                     && Trailer(call.frame) == FragmentedCrc(MessageValues(call), h.header, message)
                     && EncodeAny(decoded.value.0, message).Some?)
            && (outcome == PlainAnswer ==>
                  after.log == Dispatched(Kicked(before, call.streamId), call,
                                 EncodeAny(decoded.value.0, Concat(h.payloads + [decoded.value.1])).value).log)
            && (outcome == Outcome.CrcError <==>
                  && decoded.Ok?
                  && var message := Concat(h.payloads + [decoded.value.1]);
                     && |message| <= before.reasm[k].maxTotal
                     && Trailer(call.frame) != FragmentedCrc(MessageValues(call), h.header, message))
            && (outcome != PlainAnswer ==>
                  && (outcome == Rejected || outcome == Outcome.CrcError)
                  && NoNewDispatch(before, after))
            && (outcome == PlainAnswer ==> response == PlainResponse)
            && (outcome == Outcome.CrcError ==> response == ErrorCode(call, decoded.value.0, 12))
            && (outcome == Rejected ==>
                  response == if decoded.Ok? && |Concat(h.payloads + [decoded.value.1])| <= before.reasm[k].maxTotal
                              then ErrorCode(call, decoded.value.0, 11) else NoResponse)
  {
    var before := Run(s, ops);
    var h := Observed(s, ops, k);
    SlotsHoldObserved(s, ops, k);
    ReachingStep(before, call, k);
    var enforce := before.slots[Find(before.slots, OnStream(call.streamId, call.busId)).value].rxEnforceE2e;
    WholeHeaderHoldsTrailer(call.frame);
    FinalVerdict(Kicked(before, call.streamId), k, call, enforce, h);
    if FragmentStep(before, call).1 != PlainAnswer {
      NoDispatchSinceKick(before, call.streamId, FragmentStep(before, call).0);
    }
  }

  /** An error answer to a request with header `h`. */
  function ErrorCode(call: Call, h: AnyHeader, code: byte): Response {
    ErrorResponse(ErrorFrame(call.busId, h.Info().transactionNum, code))
  }

  lemma WholeHeaderHoldsTrailer(frame: seq<byte>)
    requires |frame| >= ABB_HEADER_LEN
    ensures PadOctets(frame) + CRC_LEN <= |frame|
  {}

  lemma FinalVerdict(s: ServerState, k: nat, call: Call, enforce: bool, h: Collected)
    requires Sized(s) && k < MAX_REQUEST_STREAMS && Holds(s, k, h) && h.payloads != []
    requires PadOctets(call.frame) + CRC_LEN <= |call.frame|
    ensures var (after, outcome, response) := FinalStep(s, k, call, enforce);
            var decoded := DecodeAny(call.msgType, Body(call.frame));
            && (outcome == PlainAnswer <==>
                  && decoded.Ok?
                  && var message := Concat(h.payloads + [decoded.value.1]);
                     && |message| <= s.reasm[k].maxTotal
                     && Trailer(call.frame) == FragmentedCrc(MessageValues(call), h.header, message)
                     && EncodeAny(decoded.value.0, message).Some?)
            && (outcome == PlainAnswer ==>
                  after.log == Dispatched(s, call,
                                 EncodeAny(decoded.value.0, Concat(h.payloads + [decoded.value.1])).value).log)
            && (outcome == Outcome.CrcError <==>
                  && decoded.Ok?
                  && var message := Concat(h.payloads + [decoded.value.1]);
                     && |message| <= s.reasm[k].maxTotal
                     && Trailer(call.frame) != FragmentedCrc(MessageValues(call), h.header, message))
            && (outcome != PlainAnswer ==>
                  && (outcome == Rejected || outcome == Outcome.CrcError)
                  && NoNewDispatch(s, after))
            && (outcome == PlainAnswer ==> response == PlainResponse)
            && (outcome == Outcome.CrcError ==> response == ErrorCode(call, decoded.value.0, 12))
            && (outcome == Rejected ==>
                  response == if decoded.Ok? && |Concat(h.payloads + [decoded.value.1])| <= s.reasm[k].maxTotal
                              then ErrorCode(call, decoded.value.0, 11) else NoResponse)
  {
    hide DecodeAny; hide ErrorFrame; hide EncodeAny; hide FragmentedCrc; hide PadOctets; hide Body; hide Trailer;
    hide Concat; hide CrcFailed;
    var decoded := DecodeAny(call.msgType, Body(call.frame));
    if decoded.Ok? {
      ConcatSnoc(h.payloads, decoded.value.1);
      FeedFinal(s.reasm[k], decoded.value.1);
      var fed := FeedStep(s.reasm[k], WireFragment(false, 0, decoded.value.1, true)).0;
      CrcFailedDispatchesNothing(s.(reasm := s.reasm[k := fed]), call.streamId, k + 1, enforce);
    }
  }

  lemma CrcFailedDispatchesNothing(s: ServerState, streamId: StreamId, index: nat, enforce: bool)
    requires index <= |s.crcBlocked|
    ensures NoNewDispatch(s, CrcFailed(s, streamId, index, enforce))
  {
    hide OnCrcErrorStep;
  }

  lemma FeedFinal(r: ReasmState, payload: seq<byte>)
    requires r.collecting
    ensures var (after, result) := FeedStep(r, WireFragment(false, 0, payload, true));
            && (result == Complete <==> |r.content + payload| <= r.maxTotal)
            && (result == Complete ==> after.content == r.content + payload)
  {}

  /** A message whose fragments decode and fit, under a trailer made for another message: if
      the two checksummed octet strings are of one length and differ, but only inside 32
      consecutive bits, wherever in the fragments those lie, the answer is CRC_ERROR and
      nothing is dispatched. */
  lemma BurstInFragmentsRejected(
      s: ServerState, ops: seq<Op>, call: Call, k: nat, header: seq<byte>, message: seq<byte>, first: nat)
    requires Created(s) && (forall op :: op in ops ==> ValidOp(op)) && k < MAX_REQUEST_STREAMS
    requires Reaches(Run(s, ops), call, k) && !MsSet(call.frame) && Observed(s, ops, k).payloads != []
    requires DecodeAny(call.msgType, Body(call.frame)).Ok?
    requires var got := Concat(Observed(s, ops, k).payloads + [DecodeAny(call.msgType, Body(call.frame)).value.1]);
             && |got| <= Run(s, ops).reasm[k].maxTotal
             && OneBurst(Observed(s, ops, k).header + got, header + message, first)
    requires Trailer(call.frame) == FragmentedCrc(MessageValues(call), header, message)
    ensures var (after, outcome, _) := FragmentStep(Run(s, ops), call);
            outcome == Outcome.CrcError && NoNewDispatch(Run(s, ops), after)
  {
    hide DecodeAny; hide Body; hide Trailer; hide FragmentedCrc; hide Concat; hide Observed; hide Run;
    hide FragmentStep; hide OneBurst; hide EncodeAny; hide MsSet; hide Dispatched; hide Find;
    WholeHeaderHoldsTrailer(call.frame);
    var got := Concat(Observed(s, ops, k).payloads + [DecodeAny(call.msgType, Body(call.frame)).value.1]);
    BurstChangesMessageCrc(MessageValues(call), Observed(s, ops, k).header, got, header, message, first);
    ReassembledDispatchIsChecked(s, ops, call, k);
  }

  /** A message sealed under header values one field apart from the received ones, a TSCF one
      with another timestamp for instance: CRC_ERROR, and nothing is dispatched. */
  lemma OneFieldApartInFragmentsRejected(s: ServerState, ops: seq<Op>, call: Call, k: nat, ctx: Context)
    requires Created(s) && (forall op :: op in ops ==> ValidOp(op)) && k < MAX_REQUEST_STREAMS
    requires Reaches(Run(s, ops), call, k) && !MsSet(call.frame) && Observed(s, ops, k).payloads != []
    requires DecodeAny(call.msgType, Body(call.frame)).Ok?
    requires OneFieldApart(ctx, MessageValues(call))
    requires var got := Concat(Observed(s, ops, k).payloads + [DecodeAny(call.msgType, Body(call.frame)).value.1]);
             && |got| <= Run(s, ops).reasm[k].maxTotal
             && Trailer(call.frame) == FragmentedCrc(ctx, Observed(s, ops, k).header, got)
    ensures var (after, outcome, _) := FragmentStep(Run(s, ops), call);
            outcome == Outcome.CrcError && NoNewDispatch(Run(s, ops), after)
  {
    hide DecodeAny; hide Body; hide Trailer; hide Crc32; hide Span; hide Concat; hide Observed; hide Run;
    hide FragmentStep; hide OneFieldApart; hide EncodeAny; hide MsSet; hide Dispatched; hide Find; hide MessageValues;
    WholeHeaderHoldsTrailer(call.frame);
    var got := Concat(Observed(s, ops, k).payloads + [DecodeAny(call.msgType, Body(call.frame)).value.1]);
    OneFieldChangesCrc(ctx, MessageValues(call), Observed(s, ops, k).header + got);
    ReassembledDispatchIsChecked(s, ops, call, k);
  }

  /** Octet strings of one length that differ, but only inside 32 consecutive bits. */
  ghost predicate OneBurst(a: seq<byte>, b: seq<byte>, first: nat) {
    && |a| == |b| && a != b
    && forall i :: 0 <= i < 8 * |a| && !(first <= i < first + 32) ==> MessageBits(a)[i] == MessageBits(b)[i]
  }

  lemma BurstChangesMessageCrc(ctx: Context, header: seq<byte>, message: seq<byte>, header': seq<byte>,
                               message': seq<byte>, first: nat)
    requires OneBurst(header + message, header' + message', first)
    ensures FragmentedCrc(ctx, header, message) != FragmentedCrc(ctx, header', message')
  {
    hide Crc32; hide MessageBits; hide Span;
    var a, b := header + message, header' + message';
    MessageBitsConcat(Span(ctx), a);
    MessageBitsConcat(Span(ctx), b);
    assert (Span(ctx) + a)[|Span(ctx)|..] == a && (Span(ctx) + b)[|Span(ctx)|..] == b;
    BurstChangesCrc32(Span(ctx) + a, Span(ctx) + b, 8 * |Span(ctx)| + first);
  }

  /** A message whose fragments decode and fit, when header values, header, payloads and
      trailer together differ from what was sent in an odd number of bits, wherever those
      are: the answer is CRC_ERROR and nothing is dispatched. */
  lemma OddErrorInFragmentsRejected(
      s: ServerState, ops: seq<Op>, call: Call, k: nat, ctx: Context, header: seq<byte>, message: seq<byte>)
    requires Created(s) && (forall op :: op in ops ==> ValidOp(op)) && k < MAX_REQUEST_STREAMS
    requires Reaches(Run(s, ops), call, k) && !MsSet(call.frame) && Observed(s, ops, k).payloads != []
    requires DecodeAny(call.msgType, Body(call.frame)).Ok?
    requires var got := Concat(Observed(s, ops, k).payloads + [DecodeAny(call.msgType, Body(call.frame)).value.1]);
             && |got| <= Run(s, ops).reasm[k].maxTotal
             && OddError(SealedMessage(MessageValues(call), Observed(s, ops, k).header, got, Trailer(call.frame)),
                         SealedMessage(ctx, header, message, FragmentedCrc(ctx, header, message)))
    ensures var (after, outcome, _) := FragmentStep(Run(s, ops), call);
            outcome == Outcome.CrcError && NoNewDispatch(Run(s, ops), after)
  {
    hide DecodeAny; hide Body; hide Trailer; hide FragmentedCrc; hide Concat; hide Observed; hide Run;
    hide FragmentStep; hide OddError; hide EncodeAny; hide MsSet; hide Dispatched; hide Find; hide SealedMessage;
    WholeHeaderHoldsTrailer(call.frame);
    var got := Concat(Observed(s, ops, k).payloads + [DecodeAny(call.msgType, Body(call.frame)).value.1]);
    OddErrorChangesTrailer(MessageValues(call), Observed(s, ops, k).header, got, Trailer(call.frame),
                           ctx, header, message);
    ReassembledDispatchIsChecked(s, ops, call, k);
  }

  /** All that a checksum of a fragmented message protects, and the checksum. */
  function SealedMessage(ctx: Context, header: seq<byte>, message: seq<byte>, crc: bv32): seq<byte> {
    Span(ctx) + (header + message) + PutU32(crc)
  }

  lemma OddErrorChangesTrailer(ctx: Context, header: seq<byte>, message: seq<byte>, trailer: bv32,
                               ctx': Context, header': seq<byte>, message': seq<byte>)
    requires OddError(SealedMessage(ctx, header, message, trailer),
                      SealedMessage(ctx', header', message', FragmentedCrc(ctx', header', message')))
    ensures trailer != FragmentedCrc(ctx, header, message)
  {
    hide Crc32; hide MessageBits; hide Span; hide Odd; hide OddError; hide PutU32;
    var b := SealedMessage(ctx', header', message', FragmentedCrc(ctx', header', message'));
    OddErrorChangesParity(SealedMessage(ctx, header, message, trailer), b);
    MessageWithChecksumIsEven(Span(ctx) + (header + message));
    MessageWithChecksumIsEven(Span(ctx') + (header' + message'));
  }

  // --- Whose payloads a slot holds ------------------------------------------------------

  /** The streams that sent the payloads slot `k` holds. */
  ghost function Senders(s: ServerState, ops: seq<Op>, k: nat): seq<StreamId>
    requires Sized(s) && forall op :: op in ops ==> ValidOp(op)
  {
    if ops == [] then []
    else
      var front := ops[..|ops| - 1];
      NextSenders(Senders(s, front, k), Run(s, front), ops[|ops| - 1], k)
  }

  function NextSenders(senders: seq<StreamId>, s: ServerState, op: Op, k: nat): seq<StreamId>
    requires Sized(s)
  {
    if !op.OneFragment? || !Reaches(s, op.call, k) then senders
    else if !MsSet(op.call.frame) then []
    else if DecodeAny(op.call.msgType, op.call.frame).Err? then senders
    else if FragmentStep(s, op.call).1 != FragmentPending then []
    else senders + [op.call.streamId]
  }

  lemma {:induction false} OneSenderPerPayload(s: ServerState, ops: seq<Op>, k: nat)
    requires Sized(s) && (forall op :: op in ops ==> ValidOp(op)) && k < MAX_REQUEST_STREAMS
    ensures |Senders(s, ops, k)| == |Observed(s, ops, k).payloads|
  {
    hide DecodeAny; hide FragmentStep; hide MsSet; hide Find; hide Blocked; hide Apply;
    if ops != [] {
      OneSenderPerPayload(s, ops[..|ops| - 1], k);
    }
  }

  /** The stream served by slot `k` sent all of these. */
  ghost predicate AllServed(s: ServerState, senders: seq<StreamId>, k: nat) {
    forall i :: 0 <= i < |senders| ==> k < |s.streams| && senders[i] == s.streams[k]
  }

  /** Replaces the request-stream table, gives slot `k` to another stream or to none, and does
      so while a message is being collected in it. */
  ghost predicate MovesBusySlot(s: ServerState, op: Op, k: nat)
    requires k < |s.reasm|
  {
    && op.Configure? && s.reasm[k].collecting
    && (k < |s.streams| && k < |op.streams| ==> op.streams[k] != s.streams[k])
  }

  lemma NextSendersServed(s: ServerState, op: Op, k: nat, senders: seq<StreamId>)
    requires Sized(s) && ValidOp(op) && k < MAX_REQUEST_STREAMS
    requires AllServed(s, senders, k) && (s.reasm[k].collecting <==> senders != [])
    ensures AllServed(Apply(s, op), NextSenders(senders, s, op, k), k) <==> !MovesBusySlot(s, op, k)
  {
    if op.Configure? {
      ConfigureServed(s, op, k, senders);
    } else {
      hide Apply; hide NextSenders; hide Reaches; hide AllServed;
      ApplyKeepsStreams(s, op);
      NextSendersAre(senders, s, op, k);
      StillServed(s, Apply(s, op), senders, k);
    }
  }

  lemma StillServed(s: ServerState, after: ServerState, senders: seq<StreamId>, k: nat)
    requires AllServed(s, senders, k) && after.streams == s.streams
    ensures AllServed(after, senders, k) && AllServed(after, [], k)
    ensures k < |s.streams| ==> AllServed(after, senders + [s.streams[k]], k)
  {}

  lemma NextSendersAre(senders: seq<StreamId>, s: ServerState, op: Op, k: nat)
    requires Sized(s)
    ensures var next := NextSenders(senders, s, op, k);
            next == senders || next == []
            || (k < |s.streams| && next == senders + [s.streams[k]])
  {
    hide DecodeAny; hide FragmentStep; hide MsSet; hide Reaches;
    if op.OneFragment? && Reaches(s, op.call, k) {
      ServedSender(s, op.call, k);
    }
  }

  lemma ConfigureServed(s: ServerState, op: Op, k: nat, senders: seq<StreamId>)
    requires op.Configure? && Sized(s) && k < MAX_REQUEST_STREAMS
    requires AllServed(s, senders, k) && (s.reasm[k].collecting <==> senders != [])
    ensures AllServed(Apply(s, op), senders, k) <==> !MovesBusySlot(s, op, k)
  {
    if senders != [] {
      var first := senders[0];
      assert k < |s.streams| && first == s.streams[k];
    }
  }

  lemma ApplyKeepsStreams(s: ServerState, op: Op)
    requires Sized(s) && !op.Configure?
    ensures Apply(s, op).streams == s.streams
  {
    hide FragmentStep; hide E2eStep; hide PlainStep;
    match op
    case SingleFrame(call) => ConfigurationKept(s, call);
    case OneFragment(call) => ConfigurationKept(s, call);
    case Plain(call) => PlainKeepsStreams(s, call);
    case _ =>
  }

  lemma PlainKeepsStreams(s: ServerState, call: Call)
    ensures PlainStep(s, call).streams == s.streams
  {
    hide ResolveIndex; hide OverflowEvents;
  }

  lemma ServedSender(s: ServerState, call: Call, k: nat)
    requires Reaches(s, call, k)
    ensures k < |s.streams| && s.streams[k] == call.streamId
  {
    hide Find; hide Blocked;
  }

  ghost predicate ServedAfter(s: ServerState, ops: seq<Op>, k: nat)
    requires Sized(s) && forall op :: op in ops ==> ValidOp(op)
  {
    AllServed(Run(s, ops), Senders(s, ops, k), k)
  }

  lemma ServedStep(s: ServerState, ops: seq<Op>, k: nat)
    requires Created(s) && (forall op :: op in ops ==> ValidOp(op)) && k < MAX_REQUEST_STREAMS && ops != []
    requires ServedAfter(s, ops[..|ops| - 1], k)
    ensures ServedAfter(s, ops, k) <==> !MovesBusySlot(Run(s, ops[..|ops| - 1]), ops[|ops| - 1], k)
  {
    hide AllServed; hide MovesBusySlot; hide Apply; hide NextSenders; hide Holds; hide Observe;
    var front, last := ops[..|ops| - 1], ops[|ops| - 1];
    SlotsHoldObserved(s, front, k);
    CollectingIsObserved(Run(s, front), k, Observed(s, front, k));
    OneSenderPerPayload(s, front, k);
    NextSendersServed(Run(s, front), last, k, Senders(s, front, k));
  }

  lemma NothingHeld(s: ServerState, k: nat)
    requires Sized(s)
    ensures ServedAfter(s, [], k)
  {}

  /** Replacing the request-stream table does not empty the reassemblers. At every point of a
      run slot `k` holds payloads of the stream it then serves only, exactly when the
      application never moves the slot while a message is being collected in it. */
  lemma {:induction false} HeldFromServedExactlyWhen(s: ServerState, ops: seq<Op>, k: nat)
    requires Created(s) && (forall op :: op in ops ==> ValidOp(op)) && k < MAX_REQUEST_STREAMS
    ensures (forall i :: 0 <= i <= |ops| ==> ServedAfter(s, ops[..i], k))
            <==> (forall i :: 0 <= i < |ops| ==> !MovesBusySlot(Run(s, ops[..i]), ops[i], k))
  {
    hide ServedAfter; hide MovesBusySlot; hide Run; hide ValidOp;
    if ops == [] {
      NothingHeld(s, k);
      assert ops[..0] == [];
    } else {
      var n := |ops| - 1;
      var front := ops[..n];
      HeldFromServedExactlyWhen(s, front, k);
      forall i | 0 <= i <= n
        ensures ops[..i] == front[..i]
      {}
      assert front[..n] == front && ops[..n + 1] == ops;
      if ServedAfter(s, front, k) {
        ServedStep(s, ops, k);
      }
    }
  }
}
