/** What decides the answer to a protected call, and what a wrong checksum keeps away from
    the endpoints. */
module ServerVerdicts {
  import opened Octets
  import opened Wrappers
  import opened Acf
  import opened Crc
  import opened CrcDetection
  import opened AnyAcf
  import opened E2e
  import opened Fragment
  import opened EndpointTable
  import opened FaultTracker
  import opened ServerSteps
  import opened ServerRuns
  import opened ServerFaults

  /** The slot a call addresses is there and asks for checksums. */
  predicate AsksForCrc(s: ServerState, call: Call) {
    exists i :: 0 <= i < |s.slots| && Addresses(s.slots, call, i) && s.slots[i].reqCrcEnable
  }

  /** Slot `i` is the first of its bus that takes requests of the stream. */
  predicate Addresses(slots: seq<EndpointTable.Slot>, call: Call, i: nat)
    requires i < |slots|
  {
    && Takes(slots[i], call)
    && forall j :: 0 <= j < i ==> !Takes(slots[j], call)
  }

  predicate Takes(slot: EndpointTable.Slot, call: Call) {
    slot.inUse && slot.busId == call.busId && (slot.streamScoped ==> slot.streamId == call.streamId)
  }

  lemma AsksExactlyWhenFound(s: ServerState, call: Call)
    ensures var at := Find(s.slots, OnStream(call.streamId, call.busId));
            AsksForCrc(s, call) <==> at.Some? && s.slots[at.value].reqCrcEnable
  {
    var sel := OnStream(call.streamId, call.busId);
    var at := Find(s.slots, sel);
    assert forall i :: 0 <= i < |s.slots| ==> Takes(s.slots[i], call) == Selects(sel, s.slots[i]);
    if at.Some? {
      assert Addresses(s.slots, call, at.value);
    }
  }

  /** The header values protected with a request; the code passes fixed ones for octet 1 and
      the timestamp-uncertain bit. */
  function FrameValues(call: Call): Context {
    if call.subtype == 0x82 then Context(0x82, 0, false, call.streamId, 0)
    else Context(0x05, 0, false, call.streamId, call.timestamp)
  }

  /** How many octets precede the trailer. */
  function Ahead(frame: seq<byte>): int {
    |frame| - 4 - PadOctets(frame)
  }

  /** The trailer is the checksum of header values and the octets ahead of it. */
  predicate CarriesCrc(call: Call) {
    var n := Ahead(call.frame);
    n >= 0 && GetU32(call.frame[n..n + 4]) == Crc32(Span(FrameValues(call)) + call.frame[..n])
  }

  function Kicks(s: ServerState, streamId: StreamId, n: nat): seq<Event> {
    if s.watchdog then seq(n, _ => Kick(streamId)) else []
  }

  /** The watchdog kicked `n` times, one request handed on, nothing else. */
  ghost predicate HandsOn(s: ServerState, call: Call, n: nat, request: seq<byte>, after: ServerState) {
    var index := ResolveIndex(s.streams, call.streamId);
    after == s.(log :=
      s.log + Kicks(s, call.streamId, n)
      + [PlainDispatch(call.busId, call.subtype, call.msgType, call.timeSync, call.streamId, request)]
      + if call.overflow && index != 0 then [BroadcastSafeState(index)] else [])
  }

  /** The fragment entry point treats the call as a complete frame: its stream has no
      request-stream slot, or it is no intermediate and nothing is being collected. */
  ghost predicate IsWholeFrame(s: ServerState, call: Call)
    requires Sized(s)
  {
    var index := ResolveIndex(s.streams, call.streamId);
    |call.frame| >= ABB_HEADER_LEN
    && (index == 0 || (!MsSet(call.frame) && (ResolvedIndexFits(s, call.streamId); !s.reasm[index - 1].collecting)))
  }

  lemma KickedTwice(s: ServerState, streamId: StreamId)
    ensures Kicked(s, streamId) == s.(log := s.log + Kicks(s, streamId, 1))
    ensures Kicked(Kicked(s, streamId), streamId) == s.(log := s.log + Kicks(s, streamId, 2))
  {
    if s.watchdog {
      assert s.log + [Kick(streamId)] + [Kick(streamId)] == s.log + Kicks(s, streamId, 2);
    }
  }

  lemma DispatchedHandsOn(s: ServerState, call: Call, n: nat, request: seq<byte>, t: ServerState)
    requires t == s.(log := s.log + Kicks(s, call.streamId, n))
    ensures HandsOn(s, call, n, request, Dispatched(t, call, request))
  {
    hide ResolveIndex; hide Kicks;
  }

  lemma KicksHandNothingOn(s: ServerState, streamId: StreamId, n: nat, t: ServerState, after: ServerState)
    requires t == s.(log := s.log + Kicks(s, streamId, n)) && NoNewDispatch(t, after)
    ensures NoNewDispatch(s, after)
  {}

  /** The step after its kick, for a stream that is not latched and an endpoint that asks. */
  lemma UnwrapDecides(t: ServerState, s: ServerState, call: Call, n: nat)
    requires Sized(s) && !Blocked(s, call.streamId) && AsksForCrc(s, call)
    requires Kicked(t, call.streamId) == s.(log := s.log + Kicks(s, call.streamId, n)) && Sized(t)
    ensures var (after, outcome, response) := E2eStep(t, call);
            && outcome == (if CarriesCrc(call) then PlainAnswer else Outcome.CrcError)
            && (CarriesCrc(call) ==>
                  && HandsOn(s, call, n, Unwrapped(FrameValues(call), call.frame).1, after)
                  && response == PlainResponse)
            && (!CarriesCrc(call) ==>
                  && NoNewDispatch(s, after)
                  && response == (if |call.frame| >= 8 then ErrorResponse(ErrorFrame(call.busId, call.frame[5], 12))
                                  else NoResponse))
  {
    hide Unwrapped; hide ErrorFrame; hide Crc32; hide PadOctets; hide Span; hide GetU32; hide Dispatched; hide HandsOn;
    hide CrcFailed; hide NoNewDispatch; hide Find; hide AsksForCrc; hide ResolveIndex; hide Kicks; hide IsFaultedIn;
    hide UnpackHeader;
    var s1 := Kicked(t, call.streamId);
    AsksExactlyWhenFound(s1, call);
    SameAddressing(s, s1, call);
    AcceptedExactlyWhen(FrameValues(call), call.frame);
    TransactionOctet(call.frame);
    DispatchedHandsOn(s, call, n, Unwrapped(FrameValues(call), call.frame).1, s1);
    if !CarriesCrc(call) {
      var at := Find(s1.slots, OnStream(call.streamId, call.busId));
      var index := ResolveIndex(s1.streams, call.streamId);
      ResolvedIndexFits(s1, call.streamId);
      CrcFailedDispatchesNothing(s1, call.streamId, index, s1.slots[at.value].rxEnforceE2e);
      KicksHandNothingOn(s, call.streamId, n, s1, E2eStep(t, call).0);
    }
  }

  lemma SameAddressing(s: ServerState, t: ServerState, call: Call)
    requires t.slots == s.slots
    ensures AsksForCrc(t, call) == AsksForCrc(s, call)
  {}

  lemma TransactionOctet(frame: seq<byte>)
    ensures |frame| >= 8 ==> UnpackHeader(frame).transactionNum == frame[5]
  {}

  /** A complete frame to an endpoint that asks for checksums, through either entry point, on a
      stream that is not latched: what precedes the trailer is handed on, its length lowered
      again, exactly when the trailer is its checksum. Otherwise nothing is handed on; the
      answer is CRC_ERROR, with code POCI_FAILURE unless the frame is too short for a
      transaction number. */
  lemma CompleteFrameVerdict(s: ServerState, fragmented: bool, call: Call)
    requires Sized(s) && !Blocked(s, call.streamId) && AsksForCrc(s, call)
    requires fragmented ==> IsWholeFrame(s, call)
    ensures var (after, outcome, response) := Answered(s, fragmented, call);
            && outcome == (if CarriesCrc(call) then PlainAnswer else Outcome.CrcError)
            && (CarriesCrc(call) ==>
                  && HandsOn(s, call, if fragmented then 2 else 1, Unwrapped(FrameValues(call), call.frame).1, after)
                  && response == PlainResponse)
            && (!CarriesCrc(call) ==>
                  && NoNewDispatch(s, after)
                  && response == (if |call.frame| >= 8 then ErrorResponse(ErrorFrame(call.busId, call.frame[5], 12))
                                  else NoResponse))
  {
    hide E2eStep; hide Unwrapped; hide ErrorFrame; hide CarriesCrc; hide HandsOn; hide NoNewDispatch; hide AsksForCrc;
    hide Kicks; hide Find; hide IsFaultedIn; hide IntermediateStep; hide FinalStep; hide UnpackHeader;
    KickedTwice(s, call.streamId);
    if fragmented {
      AsksExactlyWhenFound(s, call);
      UnwrapDecides(Kicked(s, call.streamId), s, call, 2);
    } else {
      UnwrapDecides(s, s, call, 1);
    }
  }

  /** An unknown endpoint, or one that does not ask, gets every frame as it came. */
  lemma UnprotectedPassesThrough(s: ServerState, fragmented: bool, call: Call)
    requires Sized(s) && !Blocked(s, call.streamId) && !AsksForCrc(s, call)
    ensures var (after, outcome, response) := Answered(s, fragmented, call);
            HandsOn(s, call, 1, call.frame, after) && outcome == PlainAnswer && response == PlainResponse
  {
    hide Unwrapped; hide ErrorFrame; hide HandsOn; hide AsksForCrc; hide Dispatched; hide Kicks;
    hide Find; hide IsFaultedIn; hide IntermediateStep; hide FinalStep; hide UnpackHeader; hide CrcFailed;
    KickedTwice(s, call.streamId);
    AsksExactlyWhenFound(s, call);
    DispatchedHandsOn(s, call, 1, call.frame, Kicked(s, call.streamId));
  }

  /** And the plain entry point hands every frame on, latched or not. */
  lemma PlainHandsOn(s: ServerState, call: Call)
    ensures HandsOn(s, call, 1, call.frame, PlainStep(s, call))
  {
    hide HandsOn; hide Dispatched; hide Kicks;
    KickedTwice(s, call.streamId);
    DispatchedHandsOn(s, call, 1, call.frame, Kicked(s, call.streamId));
  }

  /** The fragment entry point refuses what does not hold a header. */
  lemma ShortFragmentRejected(s: ServerState, call: Call)
    requires Sized(s) && !Blocked(s, call.streamId) && AsksForCrc(s, call) && |call.frame| < 8
    ensures FragmentStep(s, call) == (s.(log := s.log + Kicks(s, call.streamId, 1)), Rejected, NoResponse)
  {
    hide E2eStep; hide AsksForCrc; hide Kicks; hide Find; hide IsFaultedIn; hide IntermediateStep; hide FinalStep;
    KickedTwice(s, call.streamId);
    AsksExactlyWhenFound(s, call);
  }

  // --- Damage in transit ---------------------------------------------------------------

  lemma AcceptedCarriesCrc(call: Call)
    ensures Accepted(FrameValues(call), call.frame) <==> CarriesCrc(call)
  {
    hide Unwrapped; hide Crc32; hide Span; hide GetU32; hide PadOctets;
    AcceptedExactlyWhen(FrameValues(call), call.frame);
  }

  /** What a sealed frame may suffer: header values one field apart from the sealed ones; or,
      length and pad field kept, a burst of at most 32 bits ahead of the trailer, or an odd
      number of flipped bits anywhere from the header values to the trailer. */
  ghost predicate Damaged(ctx: Context, sent: seq<byte>, ctx': Context, got: seq<byte>)
    requires Accepted(ctx, sent)
  {
    || (got == sent && OneFieldApart(ctx, ctx'))
    || (|got| == |sent| && PadOctets(got) == PadOctets(sent)
        && (|| (Trailer(got) == Trailer(sent)
                && exists first: nat ::
                     OneBurst(Span(ctx) + sent[..RealLen(sent)], Span(ctx') + got[..RealLen(sent)], first))
            || OddError(Checked(ctx, sent), Checked(ctx', got))))
  }

  lemma DamagedIsRejected(ctx: Context, sent: seq<byte>, ctx': Context, got: seq<byte>)
    requires Accepted(ctx, sent) && Damaged(ctx, sent, ctx', got)
    ensures !Accepted(ctx', got)
  {
    hide MessageBits; hide PadOctets; hide Trailer; hide Span; hide Checked; hide OddError; hide Body; hide FrameCrc;
    hide OneFieldApart;
    if got == sent && OneFieldApart(ctx, ctx') {
      OneFieldApartRejected(ctx, ctx', sent);
    } else if OddError(Checked(ctx, sent), Checked(ctx', got)) {
      OddErrorRejected(ctx, sent, ctx', got);
    } else {
      var first: nat :| OneBurst(Span(ctx) + sent[..RealLen(sent)], Span(ctx') + got[..RealLen(sent)], first);
      BurstRejected(ctx, sent, ctx', got, first);
    }
  }

  /** No damaged frame reaches an endpoint that asks for checksums. */
  lemma DamagedFrameNotHandedOn(s: ServerState, fragmented: bool, call: Call, ctx: Context, sent: seq<byte>)
    requires Sized(s) && !Blocked(s, call.streamId) && AsksForCrc(s, call)
    requires fragmented ==> IsWholeFrame(s, call)
    requires Accepted(ctx, sent) && Damaged(ctx, sent, FrameValues(call), call.frame)
    ensures var (after, outcome, _) := Answered(s, fragmented, call);
            outcome == Outcome.CrcError && NoNewDispatch(s, after)
  {
    hide Damaged; hide Unwrapped; hide CarriesCrc; hide AsksForCrc; hide Answered; hide HandsOn; hide NoNewDispatch;
    DamagedIsRejected(ctx, sent, FrameValues(call), call.frame);
    AcceptedCarriesCrc(call);
    CompleteFrameVerdict(s, fragmented, call);
  }

  // --- Fragments -------------------------------------------------------------------------

  /** An intermediate fragment after any run: pending exactly when it decodes, carries the next
      number of the message observed so far, and fits; otherwise rejected. Nothing is answered
      and nothing handed on. */
  lemma IntermediateVerdict(s: ServerState, ops: seq<Op>, call: Call, k: nat)
    requires Created(s) && (forall op :: op in ops ==> ValidOp(op)) && k < MAX_REQUEST_STREAMS
    requires Reaches(Run(s, ops), call, k) && MsSet(call.frame)
    ensures var before, h := Run(s, ops), Observed(s, ops, k);
            var (after, outcome, response) := FragmentStep(before, call);
            var decoded := DecodeAny(call.msgType, call.frame);
            && (outcome == FragmentPending <==>
                  && decoded.Ok?
                  && SegmentNum(call.frame) == |h.payloads| % 0x1_0000
                  && |Concat(h.payloads)| + |decoded.value.1| <= before.reasm[k].maxTotal)
            && (outcome == FragmentPending || outcome == Rejected)
            && response == NoResponse
            && after.log == before.log + Kicks(before, call.streamId, 1)
  {
    hide Run; hide Observed; hide FragmentStep; hide Reaches; hide DecodeAny; hide IntermediateStep; hide Kicks;
    hide SegmentNum; hide Concat; hide MsSet;
    var before := Run(s, ops);
    ReachesHeader(before, call, k);
    SlotsHoldObserved(s, ops, k);
    ReachingStep(before, call, k);
    KickedTwice(before, call.streamId);
    IntermediateDecides(Kicked(before, call.streamId), k, call, Observed(s, ops, k));
  }

  lemma ReachesHeader(s: ServerState, call: Call, k: nat)
    requires Reaches(s, call, k)
    ensures |call.frame| >= ABB_HEADER_LEN
  {}

  lemma IntermediateDecides(s: ServerState, k: nat, call: Call, h: Collected)
    requires Sized(s) && k < MAX_REQUEST_STREAMS && |call.frame| >= ABB_HEADER_LEN && Holds(s, k, h)
    ensures var (after, outcome, response) := IntermediateStep(s, k, call);
            var decoded := DecodeAny(call.msgType, call.frame);
            && (outcome == FragmentPending <==>
                  && decoded.Ok?
                  && SegmentNum(call.frame) == |h.payloads| % 0x1_0000
                  && |Concat(h.payloads)| + |decoded.value.1| <= s.reasm[k].maxTotal)
            && (outcome == FragmentPending || outcome == Rejected)
            && response == NoResponse
            && after.log == s.log
  {
    hide DecodeAny; hide UnpackHeader; hide FieldValue; hide SegmentNum; hide HeaderLen; hide Concat; hide NeedsGrowth;
    hide GrownCap;
    if DecodeAny(call.msgType, call.frame).Ok? {
      DecodedFrameHoldsHeader(call.msgType, call.frame);
    }
  }
}
