/** The stream-fault latch over runs of the server. */
module ServerFaults {
  import opened Octets
  import opened Wrappers
  import opened Acf
  import opened AnyAcf
  import opened E2e
  import opened Fragment
  import opened EndpointTable
  import opened FaultTracker
  import opened ServerSteps
  import opened ServerRuns

  /** Both dispatch entry points. */
  function Answered(s: ServerState, fragmented: bool, call: Call): (ServerState, Outcome, Response)
    requires Sized(s)
  {
    if fragmented then FragmentStep(s, call) else E2eStep(s, call)
  }

  /** The switch of the endpoint a call addresses. */
  function Enforces(s: ServerState, call: Call): bool {
    var at := Find(s.slots, OnStream(call.streamId, call.busId));
    at.Some? && s.slots[at.value].rxEnforceE2e
  }

  /** What one call does to the fault table and the log. */
  ghost predicate Effect(s: ServerState, call: Call, after: ServerState, outcome: Outcome) {
    && after.faults == (if outcome == Outcome.CrcError && s.faults.Some?
                        then Some(OnCrcErrorStep(s.faults.value, call.streamId, Enforces(s, call)).0)
                        else s.faults)
    && s.log <= after.log
    && (forall i :: |s.log| <= i < |after.log| && after.log[i].PlainDispatch? ==>
          outcome == PlainAnswer && after.log[i].streamId == call.streamId)
  }

  lemma E2eEffect(s: ServerState, call: Call)
    requires Sized(s)
    ensures Effect(s, call, E2eStep(s, call).0, E2eStep(s, call).1)
  {
    hide Unwrapped; hide Find; hide ErrorTo; hide Blocked; hide Effect; hide Dispatched; hide CrcFailed;
    hide ResolveIndex;
    var s1 := Kicked(s, call.streamId);
    var at := Find(s1.slots, OnStream(call.streamId, call.busId));
    var index := ResolveIndex(s1.streams, call.streamId);
    ResolvedIndexFits(s1, call.streamId);
    NothingEffect(s1, call);
    DispatchedEffect(s1, call, call.frame);
    DispatchedEffect(s1, call, Unwrapped(FrameContext(call), call.frame).1);
    if at.Some? {
      CrcFailedEffect(s1, call, index);
    }
    EffectAfterKick(s, call, E2eStep(s, call).0, E2eStep(s, call).1);
  }

  lemma NothingEffect(s: ServerState, call: Call)
    ensures Effect(s, call, s, StreamFaulted)
  {
    hide Enforces;
  }

  lemma DispatchedEffect(s: ServerState, call: Call, request: seq<byte>)
    ensures Effect(s, call, Dispatched(s, call, request), PlainAnswer)
  {
    hide Enforces;
  }

  lemma CrcFailedEffect(s: ServerState, call: Call, index: nat)
    requires index <= |s.crcBlocked|
    ensures Effect(s, call, CrcFailed(s, call.streamId, index, Enforces(s, call)), Outcome.CrcError)
  {
    hide Enforces; hide OnCrcErrorStep;
  }

  lemma FinalEffect(s: ServerState, k: nat, call: Call)
    requires Sized(s) && k < MAX_REQUEST_STREAMS
    ensures var (after, outcome, _) := FinalStep(s, k, call, Enforces(s, call));
            Effect(s, call, after, outcome)
  {
    hide DecodeAny; hide FeedStep; hide ErrorFrame; hide EncodeAny; hide FragmentedCrc; hide PadOctets; hide Body;
    hide Trailer; hide Enforces; hide OnCrcErrorStep;
  }

  lemma IntermediateEffect(s: ServerState, k: nat, call: Call)
    requires Sized(s) && k < MAX_REQUEST_STREAMS && |call.frame| >= ABB_HEADER_LEN
    ensures var (after, outcome, _) := IntermediateStep(s, k, call);
            Effect(s, call, after, outcome) && outcome != Outcome.CrcError
  {
    hide DecodeAny; hide UnpackHeader; hide FieldValue; hide FeedStep; hide Enforces;
  }

  lemma EffectAfterKick(s: ServerState, call: Call, after: ServerState, outcome: Outcome)
    requires Effect(Kicked(s, call.streamId), call, after, outcome)
    ensures Effect(s, call, after, outcome)
  {}

  lemma FragmentEffect(s: ServerState, call: Call)
    requires Sized(s)
    ensures Effect(s, call, FragmentStep(s, call).0, FragmentStep(s, call).1)
  {
    hide IntermediateStep; hide FinalStep; hide E2eStep; hide Find; hide ErrorTo; hide UnpackHeader;
    hide IsFaultedIn; hide OnCrcErrorStep; hide Effect;
    var s1 := Kicked(s, call.streamId);
    var at := Find(s1.slots, OnStream(call.streamId, call.busId));
    var (after, outcome, _) := FragmentStep(s, call);
    var index := ResolveIndex(s1.streams, call.streamId);
    if Blocked(s1, call.streamId) || at.None? || !s1.slots[at.value].reqCrcEnable || |call.frame| < ABB_HEADER_LEN {
      PlainEffect(s1, call);
    } else if index == 0 {
      E2eEffect(s1, call);
    } else {
      IntermediateEffect(s1, index - 1, call);
      FinalEffect(s1, index - 1, call);
      E2eEffect(s1, call);
    }
    EffectAfterKick(s, call, after, outcome);
  }

  lemma PlainEffect(s: ServerState, call: Call)
    ensures Effect(s, call, s, StreamFaulted)
    ensures Effect(s, call, s, Rejected)
    ensures Effect(s, call, Dispatched(s, call, call.frame), PlainAnswer)
  {
    hide OnCrcErrorStep;
  }

  /** A CRC error latches its stream exactly when the endpoint enforces and the tracker knows
      the stream or has room for it; no other answer latches, and no other stream changes. */
  lemma CallLatchesExactlyWhen(s: ServerState, fragmented: bool, call: Call, other: StreamId)
    requires Sized(s) && !Blocked(s, call.streamId)
    ensures var (after, outcome, _) := Answered(s, fragmented, call);
            && (Blocked(after, call.streamId) <==>
                  && outcome == Outcome.CrcError
                  && Enforces(s, call)
                  && s.faults.Some?
                  && (call.streamId in s.faults.value || |s.faults.value| < MAX_STREAMS))
            && (other != call.streamId ==> Blocked(after, other) == Blocked(s, other))
  {
    hide FragmentStep; hide E2eStep; hide Enforces;
    E2eEffect(s, call);
    FragmentEffect(s, call);
  }

  /** A call on a blocked stream reaches no endpoint: it only kicks the watchdog. */
  lemma BlockedCallIsRefused(s: ServerState, fragmented: bool, call: Call)
    requires Sized(s) && Blocked(s, call.streamId)
    ensures Answered(s, fragmented, call)
            == (Kicked(s, call.streamId), StreamFaulted, ErrorTo(call, ERROR_POCI_FAILURE))
  {
    hide Unwrapped; hide Find; hide ErrorTo; hide IntermediateStep; hide FinalStep;
  }

  // --- Status bits and the safe state ------------------------------------------------

  /** The stream's CRC status bit is set exactly on a CRC error of an enforcing endpoint whose
      stream has a request-stream slot. The safe state is broadcast, last and once, exactly
      then and when a request handed on overflows such a stream that asks for it. */
  ghost predicate Consequences(s: ServerState, call: Call, after: ServerState, outcome: Outcome)
    requires Sized(s)
  {
    var index := ResolveIndex(s.streams, call.streamId);
    var fails := outcome == Outcome.CrcError && Enforces(s, call) && index != 0;
    var overflows := outcome == PlainAnswer && call.overflow && index != 0;
    && after.crcBlocked == (if fails then s.crcBlocked[index - 1 := true] else s.crcBlocked)
    && s.log <= after.log
    && (forall i :: |s.log| <= i < |after.log| ==>
          (after.log[i].BroadcastSafeState? <==> (fails || overflows) && i == |after.log| - 1))
    && (fails || overflows ==>
          |s.log| < |after.log| && after.log[|after.log| - 1] == BroadcastSafeState(index))
  }

  lemma CrcFailedConsequences(s: ServerState, call: Call)
    requires Sized(s)
    ensures var index := ResolveIndex(s.streams, call.streamId);
            Consequences(s, call, CrcFailed(s, call.streamId, index, Enforces(s, call)), Outcome.CrcError)
  {
    hide OnCrcErrorStep; hide Enforces; hide ResolveIndex;
    ResolvedIndexFits(s, call.streamId);
  }

  lemma RefusalConsequences(s: ServerState, call: Call, outcome: Outcome)
    requires Sized(s) && outcome != Outcome.CrcError && outcome != PlainAnswer
    ensures Consequences(s, call, s, outcome)
  {
    hide Enforces; hide ResolveIndex;
  }

  lemma DispatchConsequences(s: ServerState, call: Call, request: seq<byte>)
    requires Sized(s)
    ensures Consequences(s, call, Dispatched(s, call, request), PlainAnswer)
  {
    hide Enforces; hide ResolveIndex;
  }

  lemma SlotsDoNotMatter(s: ServerState, s': ServerState, call: Call, after: ServerState, after': ServerState,
                         outcome: Outcome)
    requires Sized(s) && Sized(s') && Consequences(s, call, after, outcome)
    requires s'.crcBlocked == s.crcBlocked && s'.log == s.log && s'.streams == s.streams && s'.slots == s.slots
    requires after'.crcBlocked == after.crcBlocked && after'.log == after.log
    ensures Consequences(s', call, after', outcome)
  {
    hide ResolveIndex; hide Find;
  }

  lemma ConsequencesAfterKick(s: ServerState, call: Call, after: ServerState, outcome: Outcome)
    requires Sized(s) && Consequences(Kicked(s, call.streamId), call, after, outcome)
    ensures Consequences(s, call, after, outcome)
  {
    hide ResolveIndex; hide Find;
  }

  lemma E2eConsequences(s: ServerState, call: Call)
    requires Sized(s)
    ensures Consequences(s, call, E2eStep(s, call).0, E2eStep(s, call).1)
  {
    hide Unwrapped; hide ErrorTo; hide CrcFailed; hide Consequences; hide ResolveIndex; hide Dispatched; hide Find;
    var s1 := Kicked(s, call.streamId);
    var outcome := E2eStep(s, call).1;
    if outcome == Outcome.CrcError {
      CrcFailedConsequences(s1, call);
    } else if outcome == PlainAnswer {
      DispatchConsequences(s1, call, call.frame);
      DispatchConsequences(s1, call, Unwrapped(FrameContext(call), call.frame).1);
    } else {
      RefusalConsequences(s1, call, outcome);
    }
    ConsequencesAfterKick(s, call, E2eStep(s, call).0, outcome);
  }

  lemma FinishedConsequences(s: ServerState, k: nat, call: Call, r: ReasmState, trailer: bv32, h: AnyHeader)
    requires Sized(s) && k < MAX_REQUEST_STREAMS && ResolveIndex(s.streams, call.streamId) == k + 1
    ensures var t := s.(reasm := s.reasm[k := r]);
            var (after, outcome, _) := Finished(t, k, call, Enforces(s, call), trailer, h);
            Consequences(s, call, after, outcome)
  {
    hide FragmentedCrc; hide EncodeAny; hide ErrorFrame; hide CrcFailed; hide Consequences; hide ResolveIndex;
    hide Dispatched;
    var t := s.(reasm := s.reasm[k := r]);
    var (after, outcome, _) := Finished(t, k, call, Enforces(s, call), trailer, h);
    if outcome == Outcome.CrcError {
      CrcFailedConsequences(t, call);
      SlotsDoNotMatter(t, s, call, CrcFailed(t, call.streamId, k + 1, Enforces(s, call)), after, outcome);
    } else {
      var u := ResetReasm(t, k);
      if outcome == PlainAnswer {
        DispatchConsequences(u, call, EncodeAny(h, t.reasm[k].content).value);
      } else {
        RefusalConsequences(u, call, outcome);
      }
      SlotsDoNotMatter(u, s, call, after, after, outcome);
    }
  }

  lemma FragmentSlotConsequences(s: ServerState, k: nat, call: Call)
    requires Sized(s) && k < MAX_REQUEST_STREAMS && ResolveIndex(s.streams, call.streamId) == k + 1
    ensures var (after, outcome, _) := FinalStep(s, k, call, Enforces(s, call));
            Consequences(s, call, after, outcome)
    ensures |call.frame| >= ABB_HEADER_LEN ==>
              var (after, outcome, _) := IntermediateStep(s, k, call);
              Consequences(s, call, after, outcome)
  {
    hide DecodeAny; hide FeedStep; hide Finished; hide PadOctets; hide Body; hide Trailer; hide Consequences;
    hide ResolveIndex; hide UnpackHeader; hide SegmentNum; hide HeaderLen; hide Enforces;
    var (after, outcome, _) := FinalStep(s, k, call, Enforces(s, call));
    if PadOctets(call.frame) + CRC_LEN <= |call.frame| && DecodeAny(call.msgType, Body(call.frame)).Ok? {
      var (h, payload) := DecodeAny(call.msgType, Body(call.frame)).value;
      FinishedConsequences(s, k, call, FeedStep(s.reasm[k], WireFragment(false, 0, payload, true)).0,
                           Trailer(call.frame), h);
    }
    RefusalConsequences(s, call, Rejected);
    SlotsDoNotMatter(s, s, call, s, ResetReasm(s, k), Rejected);
    if |call.frame| >= ABB_HEADER_LEN {
      var (after', outcome', _) := IntermediateStep(s, k, call);
      RefusalConsequences(s, call, outcome');
      SlotsDoNotMatter(s, s, call, s, after', outcome');
    }
  }

  /** All three entry points, for every call. */
  lemma SafeStateExactlyWhen(s: ServerState, fragmented: bool, call: Call)
    requires Sized(s)
    ensures Consequences(s, call, Answered(s, fragmented, call).0, Answered(s, fragmented, call).1)
    ensures Consequences(s, call, PlainStep(s, call), PlainAnswer)
  {
    hide IntermediateStep; hide FinalStep; hide E2eStep; hide ErrorTo; hide UnpackHeader; hide Find;
    hide Consequences; hide Dispatched; hide ResolveIndex;
    E2eConsequences(s, call);
    var s1 := Kicked(s, call.streamId);
    DispatchConsequences(s1, call, call.frame);
    ConsequencesAfterKick(s, call, PlainStep(s, call), PlainAnswer);
    if fragmented {
      var (after, outcome, _) := FragmentStep(s, call);
      var index := ResolveIndex(s1.streams, call.streamId);
      ResolvedIndexFits(s1, call.streamId);
      E2eConsequences(s1, call);
      if index != 0 {
        FragmentSlotConsequences(s1, index - 1, call);
      }
      RefusalConsequences(s1, call, StreamFaulted);
      RefusalConsequences(s1, call, Rejected);
      ConsequencesAfterKick(s, call, after, outcome);
    }
  }

  // --- What a latch blocks ---------------------------------------------------------------

  /** The requests of one stream that reached the plain dispatcher. */
  function RequestsOf(log: seq<Event>, streamId: StreamId): seq<Event> {
    if log == [] then []
    else
      var n := |log| - 1;
      RequestsOf(log[..n], streamId)
      + if log[n].PlainDispatch? && log[n].streamId == streamId then [log[n]] else []
  }

  lemma {:induction false} NoNewRequests(log: seq<Event>, log': seq<Event>, streamId: StreamId)
    requires log <= log'
    requires forall i :: |log| <= i < |log'| && log'[i].PlainDispatch? ==> log'[i].streamId != streamId
    ensures RequestsOf(log', streamId) == RequestsOf(log, streamId)
    decreases |log'|
  {
    if log' != log {
      var n := |log'| - 1;
      assert log <= log'[..n];
      NoNewRequests(log, log'[..n], streamId);
    }
  }

  lemma KickIsNoRequest(s: ServerState, streamId: StreamId, other: StreamId)
    ensures RequestsOf(Kicked(s, streamId).log, other) == RequestsOf(s.log, other)
  {}

  /** Handing a request on adds it to its stream's requests and to no other's. */
  lemma DispatchAddsRequest(s: ServerState, call: Call, request: seq<byte>, streamId: StreamId)
    ensures RequestsOf(Dispatched(s, call, request).log, streamId)
            == RequestsOf(s.log, streamId) + if call.streamId == streamId then [PlainEvent(call, request)] else []
  {
    hide ResolveIndex;
    var log := s.log + [PlainEvent(call, request)];
    assert log[..|s.log|] == s.log;
    var log' := log + OverflowEvents(s, call);
    if OverflowEvents(s, call) != [] {
      assert log'[..|log|] == log;
    } else {
      assert log' == log;
    }
  }

  /** The application gives up the latch: it resets the stream, or attaches a tracker that
      does not latch it, or none. */
  predicate Releases(op: Op, streamId: StreamId) {
    || op == ResetFault(streamId)
    || (op.AttachTracker? && (op.faults.None? || !IsFaultedIn(op.faults.value, streamId)))
  }

  /** The requests a stream sent through the plain entry point. */
  function PlainRequests(ops: seq<Op>, streamId: StreamId): seq<Event> {
    if ops == [] then []
    else
      var op := ops[|ops| - 1];
      PlainRequests(ops[..|ops| - 1], streamId)
      + if op.Plain? && op.call.streamId == streamId then [PlainEvent(op.call, op.call.frame)] else []
  }

  predicate Protected(op: Op) {
    op.SingleFrame? || op.OneFragment?
  }

  /** A protected call of the stream is answered STREAM_FAULTED. */
  ghost predicate Refuses(s: ServerState, op: Op, streamId: StreamId)
    requires Sized(s)
  {
    Protected(op) && op.call.streamId == streamId ==>
      Answered(s, op.OneFragment?, op.call)
      == (Kicked(s, streamId), StreamFaulted, ErrorTo(op.call, ERROR_POCI_FAILURE))
  }

  lemma LatchedStep(s: ServerState, op: Op, streamId: StreamId)
    requires Sized(s) && ValidOp(op) && Blocked(s, streamId)
    ensures Blocked(Apply(s, op), streamId) <==> !Releases(op, streamId)
    ensures Refuses(s, op, streamId)
    ensures RequestsOf(Apply(s, op).log, streamId)
            == RequestsOf(s.log, streamId)
               + if op.Plain? && op.call.streamId == streamId then [PlainEvent(op.call, op.call.frame)] else []
  {
    hide FragmentStep; hide E2eStep; hide Enforces; hide RequestsOf; hide ErrorTo; hide Dispatched;
    match op
    case SingleFrame(call) =>
      E2eEffect(s, call);
      if call.streamId == streamId { BlockedCallIsRefused(s, false, call); }
      NoNewRequests(s.log, Apply(s, op).log, streamId);
    case OneFragment(call) =>
      FragmentEffect(s, call);
      if call.streamId == streamId { BlockedCallIsRefused(s, true, call); }
      NoNewRequests(s.log, Apply(s, op).log, streamId);
    case Plain(call) =>
      KickIsNoRequest(s, call.streamId, streamId);
      DispatchAddsRequest(Kicked(s, call.streamId), call, call.frame, streamId);
      DispatchedKeepsFaults(Kicked(s, call.streamId), call, call.frame);
    case _ =>
  }

  lemma DispatchedKeepsFaults(s: ServerState, call: Call, request: seq<byte>)
    ensures Dispatched(s, call, request).faults == s.faults
  {}

  /** Over every run from a latched stream: the latch is in force all along exactly when the
      application never gives it up, whatever else happens. */
  lemma {:induction false} LatchHoldsExactlyWhen(s: ServerState, ops: seq<Op>, streamId: StreamId)
    requires Sized(s) && (forall op :: op in ops ==> ValidOp(op)) && Blocked(s, streamId)
    ensures (forall i :: 0 <= i <= |ops| ==> Blocked(Run(s, ops[..i]), streamId))
            <==> forall op :: op in ops ==> !Releases(op, streamId)
  {
    hide Apply; hide Blocked; hide Releases; hide Run; hide ValidOp;
    if ops == [] {
      assert ops[..0] == [];
      RunOfNothing(s);
    } else {
      var n := |ops| - 1;
      var front, last := ops[..n], ops[n];
      LatchHoldsExactlyWhen(s, front, streamId);
      forall i | 0 <= i <= n
        ensures ops[..i] == front[..i]
      {}
      assert front[..n] == front && ops[..n + 1] == ops;
      assert ops == front + [last];
      RunOfSnoc(s, ops);
      if Blocked(Run(s, front), streamId) {
        LatchedStep(Run(s, front), last, streamId);
      }
    }
  }

  lemma RunOfNothing(s: ServerState)
    requires Sized(s)
    ensures Run(s, []) == s
  {}

  lemma RunOfSnoc(s: ServerState, ops: seq<Op>)
    requires Sized(s) && (forall op :: op in ops ==> ValidOp(op)) && ops != []
    ensures Run(s, ops) == Apply(Run(s, ops[..|ops| - 1]), ops[|ops| - 1])
  {
    hide Apply;
  }

  lemma {:induction false} LatchedRequests(s: ServerState, ops: seq<Op>, streamId: StreamId)
    requires Sized(s) && (forall op :: op in ops ==> ValidOp(op)) && Blocked(s, streamId)
    requires forall op :: op in ops ==> !Releases(op, streamId)
    ensures Blocked(Run(s, ops), streamId)
    ensures RequestsOf(Run(s, ops).log, streamId) == RequestsOf(s.log, streamId) + PlainRequests(ops, streamId)
  {
    hide Apply; hide Blocked; hide Releases; hide RequestsOf; hide Refuses;
    if ops == [] {
      assert RequestsOf(s.log, streamId) + [] == RequestsOf(s.log, streamId);
    } else {
      var front, last := ops[..|ops| - 1], ops[|ops| - 1];
      assert last in ops;
      LatchedRequests(s, front, streamId);
      LatchedStep(Run(s, front), last, streamId);
    }
  }

  /** As long as it is: every protected call of the stream is answered STREAM_FAULTED, and of
      its requests exactly those sent through the plain entry point, which does not look at
      the latch, reach an endpoint. */
  lemma LatchGatesProtectedCalls(s: ServerState, ops: seq<Op>, streamId: StreamId)
    requires Sized(s) && (forall op :: op in ops ==> ValidOp(op)) && Blocked(s, streamId)
    requires forall op :: op in ops ==> !Releases(op, streamId)
    ensures Blocked(Run(s, ops), streamId)
    ensures forall i :: 0 <= i < |ops| ==> Refuses(Run(s, ops[..i]), ops[i], streamId)
    ensures RequestsOf(Run(s, ops).log, streamId) == RequestsOf(s.log, streamId) + PlainRequests(ops, streamId)
  {
    hide Apply; hide Blocked; hide Releases; hide RequestsOf; hide Refuses; hide Run; hide PlainRequests;
    LatchedRequests(s, ops, streamId);
    forall i | 0 <= i < |ops|
      ensures Refuses(Run(s, ops[..i]), ops[i], streamId)
    {
      LatchedRequests(s, ops[..i], streamId);
      LatchedStep(Run(s, ops[..i]), ops[i], streamId);
    }
  }

  /** The op puts a latch of the stream in force: a protected call of it that ends in a CRC
      error at an enforcing endpoint while the tracker knows it or has room, or a tracker
      attached with the latch. */
  predicate Latches(s: ServerState, op: Op, streamId: StreamId)
    requires Sized(s)
  {
    match op
    case SingleFrame(call) => call.streamId == streamId && CallLatches(s, false, call)
    case OneFragment(call) => call.streamId == streamId && CallLatches(s, true, call)
    case AttachTracker(faults) => faults.Some? && IsFaultedIn(faults.value, streamId)
    case _ => false
  }

  predicate CallLatches(s: ServerState, fragmented: bool, call: Call)
    requires Sized(s)
  {
    && Answered(s, fragmented, call).1 == Outcome.CrcError
    && Enforces(s, call)
    && s.faults.Some?
    && (call.streamId in s.faults.value || |s.faults.value| < MAX_STREAMS)
  }

  lemma UnlatchedStep(s: ServerState, op: Op, streamId: StreamId)
    requires Sized(s) && ValidOp(op) && !Blocked(s, streamId)
    ensures Blocked(Apply(s, op), streamId) <==> Latches(s, op, streamId)
  {
    hide FragmentStep; hide E2eStep; hide Enforces; hide Dispatched;
    match op
    case SingleFrame(call) => OneCallLatches(s, false, call, streamId);
    case OneFragment(call) => OneCallLatches(s, true, call, streamId);
    case Plain(call) => DispatchedKeepsFaults(Kicked(s, call.streamId), call, call.frame);
    case _ =>
  }

  lemma OneCallLatches(s: ServerState, fragmented: bool, call: Call, streamId: StreamId)
    requires Sized(s) && !Blocked(s, streamId)
    ensures Blocked(Answered(s, fragmented, call).0, streamId)
            <==> call.streamId == streamId && CallLatches(s, fragmented, call)
  {
    hide Answered; hide Enforces; hide Blocked;
    if Blocked(s, call.streamId) {
      BlockedCallIsRefused(s, fragmented, call);
      KickKeepsFaults(s, call.streamId, streamId);
    } else {
      CallLatchesExactlyWhen(s, fragmented, call, streamId);
    }
  }

  lemma KickKeepsFaults(s: ServerState, kicked: StreamId, streamId: StreamId)
    ensures Blocked(Kicked(s, kicked), streamId) == Blocked(s, streamId)
  {}

  lemma LatchingDoesNotRelease(s: ServerState, op: Op, streamId: StreamId)
    requires Sized(s)
    ensures Latches(s, op, streamId) ==> !Releases(op, streamId)
  {
    hide CallLatches;
  }

  /** Op `i` of the run latched the stream, and nothing released it since. */
  ghost predicate LatchedSince(s: ServerState, ops: seq<Op>, i: nat, streamId: StreamId)
    requires Sized(s) && forall op :: op in ops ==> ValidOp(op)
  {
    && i < |ops|
    && Latches(Run(s, ops[..i]), ops[i], streamId)
    && forall j :: i < j < |ops| ==> !Releases(ops[j], streamId)
  }

  ghost predicate EverLatched(s: ServerState, ops: seq<Op>, streamId: StreamId)
    requires Sized(s) && forall op :: op in ops ==> ValidOp(op)
  {
    exists i: nat :: LatchedSince(s, ops, i, streamId)
  }

  lemma EverLatchedSnoc(s: ServerState, ops: seq<Op>, streamId: StreamId)
    requires Sized(s) && (forall op :: op in ops ==> ValidOp(op)) && ops != []
    ensures var front, last := ops[..|ops| - 1], ops[|ops| - 1];
            EverLatched(s, ops, streamId)
            <==> Latches(Run(s, front), last, streamId)
                 || (EverLatched(s, front, streamId) && !Releases(last, streamId))
  {
    hide Latches; hide Releases; hide Run; hide ValidOp;
    var n := |ops| - 1;
    var front, last := ops[..n], ops[n];
    if Latches(Run(s, front), last, streamId) {
      assert LatchedSince(s, ops, n, streamId);
    }
    if EverLatched(s, front, streamId) && !Releases(last, streamId) {
      var i: nat :| LatchedSince(s, front, i, streamId);
      assert front[..i] == ops[..i];
      assert LatchedSince(s, ops, i, streamId);
    }
    if EverLatched(s, ops, streamId) {
      var i: nat :| LatchedSince(s, ops, i, streamId);
      assert i < n ==> front[..i] == ops[..i] && LatchedSince(s, front, i, streamId);
    }
  }

  /** After any run from an unlatched stream its protected calls are refused exactly when some
      op latched it and nothing released it since. */
  lemma {:induction false} LatchedExactlyWhen(s: ServerState, ops: seq<Op>, streamId: StreamId)
    requires Sized(s) && (forall op :: op in ops ==> ValidOp(op)) && !Blocked(s, streamId)
    ensures Blocked(Run(s, ops), streamId) <==> exists i: nat :: LatchedSince(s, ops, i, streamId)
  {
    hide Apply; hide Blocked; hide Releases; hide Run; hide ValidOp; hide Latches; hide LatchedSince;
    if ops == [] {
      RunOfNothing(s);
      NothingLatched(s, streamId);
    } else {
      var front, last := ops[..|ops| - 1], ops[|ops| - 1];
      assert forall op :: op in front ==> op in ops;
      LatchedExactlyWhen(s, front, streamId);
      RunOfSnoc(s, ops);
      EverLatchedSnoc(s, ops, streamId);
      LatchingDoesNotRelease(Run(s, front), last, streamId);
      if Blocked(Run(s, front), streamId) {
        LatchedStep(Run(s, front), last, streamId);
      } else {
        UnlatchedStep(Run(s, front), last, streamId);
      }
      assert EverLatched(s, front, streamId) <==> exists i: nat :: LatchedSince(s, front, i, streamId);
      assert EverLatched(s, ops, streamId) <==> exists i: nat :: LatchedSince(s, ops, i, streamId);
    }
  }

  lemma NothingLatched(s: ServerState, streamId: StreamId)
    requires Sized(s)
    ensures !EverLatched(s, [], streamId)
  {}
}
