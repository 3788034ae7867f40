/** The server double in place (`src/mock.c`): its tables, reassemblers and latches, and the
    protected dispatch entry points, each proved to be its step of the state machine. */
module Server {
  import opened Octets
  import opened Wrappers
  import opened Acf
  import opened AnyAcf
  import opened E2e
  import opened Fragment
  import opened EndpointTable
  import opened FaultTracker
  import opened ServerSteps
  import ServerRuns

  class MockServer {
    const table: Table
    var streams: seq<StreamId>
    const reasm: array<Reassembler>
    const firstHeader: array<seq<byte>>
    const crcBlocked: array<bool>
    var tracker: Tracker?
    var watchdog: bool
    var log: seq<Event>

    ghost var model: ServerState
    ghost var Repr: set<object>

    /** The server's own objects, the reassemblers apart. */
    ghost function Parts(): set<object>
      reads this
    {
      {this, table, table.slots, reasm, firstHeader, crcBlocked}
      + if tracker == null then {} else {tracker, tracker.slots}
    }

    /** What the server is made of; no two reassemblers share anything. */
    ghost predicate Owned()
      reads this, Repr
    {
      && Parts() <= Repr
      && reasm.Length == firstHeader.Length == crcBlocked.Length == MAX_REQUEST_STREAMS
      && (forall i :: 0 <= i < reasm.Length ==>
            reasm[i] in Repr && reasm[i].Repr() <= Repr && reasm[i].Repr() !! Parts())
      && (forall i, j :: 0 <= i < j < reasm.Length ==> reasm[i].Repr() !! reasm[j].Repr())
    }

    /** Every reassembler is sound and is what the model says. */
    ghost predicate SlotsMatch()
      requires Owned()
      reads this, Repr
    {
      && |model.reasm| == MAX_REQUEST_STREAMS
      && forall i :: 0 <= i < reasm.Length ==> reasm[i].Valid() && model.reasm[i] == reasm[i].State()
    }

    ghost predicate Valid()
      reads this, Repr
      ensures Valid() ==> Sized(model)
    {
      && Owned()
      && table.Valid()
      && |streams| <= MAX_REQUEST_STREAMS
      && (tracker != null ==> tracker.Valid())
      && SlotsMatch()
      && model.slots == table.slots[..]
      && model.streams == streams
      && model.firstHeader == firstHeader[..]
      && model.crcBlocked == crcBlocked[..]
      && model.faults == (if tracker == null then None else Some(tracker.model))
      && model.watchdog == watchdog
      && model.log == log
    }

    constructor (watchdog: bool)
      ensures Valid() && fresh(Repr)
      ensures model == NewServer(watchdog)
    {
      hide Valid; hide Owned; hide Consistent; hide Empty; hide NewServer; hide Reassembler.State;
      hide Reassembler.Valid; hide Table.Valid; hide Fresh;
      var table := new Table();
      var created, objects := MockServer.NewReassemblers();
      this.table := table;
      streams := [];
      reasm := created;
      firstHeader := new seq<byte>[MAX_REQUEST_STREAMS](_ => []);
      crcBlocked := new bool[MAX_REQUEST_STREAMS](_ => false);
      tracker := null;
      this.watchdog := watchdog;
      log := [];
      model := NewServer(watchdog);
      new;
      Repr := Parts() + objects;
      NewIsValid(objects);
    }

    /** The parts of a new server make a valid one. */
    lemma NewIsValid(objects: set<object>)
      requires table.Valid() && table.slots[..] == Empty().slots
      requires streams == [] && tracker == null && log == [] && model == NewServer(watchdog)
      requires Repr == Parts() + objects && Parts() !! objects
      requires reasm.Length == firstHeader.Length == crcBlocked.Length == MAX_REQUEST_STREAMS
      requires forall i :: 0 <= i < reasm.Length ==> firstHeader[i] == [] && !crcBlocked[i]
      requires forall i :: 0 <= i < reasm.Length ==> reasm[i] in objects
      requires forall i :: 0 <= i < reasm.Length ==>
        reasm[i].Valid() && reasm[i].buf == null && reasm[i].State() == Fresh(DEFAULT_MAX_TOTAL_LEN)
      requires forall i, j :: 0 <= i < j < reasm.Length ==> reasm[i] != reasm[j]
      ensures Valid()
    {
      hide Consistent; hide Empty; hide NewServer; hide Reassembler.State; hide Reassembler.Valid; hide Table.Valid;
      hide Fresh; hide Sized;
      NewServerIsSized(watchdog);
      assert Owned();
      assert model.crcBlocked == crcBlocked[..];
    }

    static method NewReassemblers() returns (slots: array<Reassembler>, ghost objects: set<object>)
      ensures fresh(slots) && slots.Length == MAX_REQUEST_STREAMS && fresh(objects) && slots !in objects
      ensures forall i :: 0 <= i < slots.Length ==> slots[i] in objects
      ensures forall i :: 0 <= i < slots.Length ==>
        slots[i].Valid() && slots[i].buf == null && slots[i].State() == Fresh(DEFAULT_MAX_TOTAL_LEN)
      ensures forall i, j :: 0 <= i < j < slots.Length ==> slots[i] != slots[j]
    {
      var first := new Reassembler(DEFAULT_MAX_TOTAL_LEN);
      slots := new Reassembler[MAX_REQUEST_STREAMS](_ => first);
      objects := {first};
      var k := 1;
      while k < MAX_REQUEST_STREAMS
        invariant 1 <= k <= MAX_REQUEST_STREAMS
        invariant fresh(slots) && fresh(objects) && slots !in objects
        invariant forall i :: 0 <= i < k ==> slots[i] in objects
        invariant forall i :: 0 <= i < k ==>
          slots[i].Valid() && slots[i].buf == null && slots[i].State() == Fresh(DEFAULT_MAX_TOTAL_LEN)
        invariant forall i, j :: 0 <= i < j < k ==> slots[i] != slots[j]
      {
        var next := new Reassembler(DEFAULT_MAX_TOTAL_LEN);
        slots[k] := next;
        objects := objects + {next};
        k := k + 1;
      }
    }

    /** The objects of a tracker. */
    static ghost function TrackerParts(t: Tracker?): set<object> {
      if t == null then {} else {t, t.slots}
    }

    /** What a server reads in a tracker. */
    static ghost function FaultsOf(t: Tracker?): Option<Faults>
      reads t
    {
      if t == null then None else Some(t.model)
    }

    /** Attaches the caller's fault tracker, or none, in place of the one attached before. */
    method SetStreamFaultTracker(t: Tracker?)
      requires Valid()
      requires t != null ==> t.Valid() && (t == tracker || TrackerParts(t) !! Repr)
      modifies this
      ensures Valid() && tracker == t
      ensures Repr == old(Repr) - TrackerParts(old(tracker)) + TrackerParts(t)
      ensures model == ServerRuns.Apply(old(model), ServerRuns.AttachTracker(FaultsOf(t)))
    {
      hide Valid; hide Tracker.Valid;
      Repr := Repr - TrackerParts(tracker) + TrackerParts(t);
      tracker := t;
      model := model.(faults := FaultsOf(t));
      TrackerReplaced(t);
    }

    /** Nothing else of the server depends on which tracker is attached. */
    twostate lemma TrackerReplaced(t: Tracker?)
      requires old(Valid())
      requires t != null ==> t.Valid() && (t == old(tracker) || TrackerParts(t) !! old(Repr))
      requires forall o: object :: o in old(Repr) && o != this ==> unchanged(o)
      requires streams == old(streams) && watchdog == old(watchdog) && log == old(log) && tracker == t
      requires Repr == old(Repr) - TrackerParts(old(tracker)) + TrackerParts(t)
      requires model == old(model).(faults := FaultsOf(t))
      ensures Valid()
    {
      hide Consistent; hide Represents; hide Reassembler.State; hide Reassembler.Valid; hide Sized; hide Table.Valid;
      hide Tracker.Valid;
      assert Owned();
      assert SlotsMatch();
    }

    method SetRequestStreamCfg(ids: seq<StreamId>) returns (ok: bool)
      requires Valid()
      modifies this
      ensures Valid() && Repr == old(Repr)
      ensures ok == (|ids| <= MAX_REQUEST_STREAMS)
      ensures model == if ok then old(model).(streams := ids) else old(model)
    {
      hide Consistent; hide Represents;
      if |ids| > MAX_REQUEST_STREAMS {
        return false;
      }
      streams := ids;
      model := model.(streams := ids);
      return true;
    }

    // --- The endpoint table and the fault latch ------------------------------------------

    method AddEndpoint(scope: Option<StreamId>, busId: bv16, epType: byte, epEnable: bool) returns (rc: TableError)
      requires Valid()
      modifies this, table, table.slots
      ensures Valid() && Repr == old(Repr)
      ensures (table.State(), rc) == AddStep(old(table.State()), scope, busId, epType, epEnable)
      ensures model == old(model).(slots := table.State().slots)
    {
      hide Consistent; hide Represents; hide AddStep; hide Reassembler.State; hide Reassembler.Valid;
      rc := table.AddEndpoint(scope, busId, epType, epEnable);
      model := model.(slots := table.slots[..]);
    }

    method RemoveEndpoint(scope: Option<StreamId>, busId: bv16) returns (removed: bool)
      requires Valid()
      modifies this, table, table.slots
      ensures Valid() && Repr == old(Repr)
      ensures (table.State(), removed) == RemoveStep(old(table.State()), scope, busId)
      ensures model == old(model).(slots := table.State().slots)
    {
      hide Consistent; hide Represents; hide RemoveStep; hide Reassembler.State; hide Reassembler.Valid;
      removed := table.RemoveEndpoint(scope, busId);
      model := model.(slots := table.slots[..]);
    }

    method SetEndpointFlag(scope: Option<StreamId>, busId: bv16, flag: Flag, value: bool) returns (found: bool)
      requires Valid()
      modifies this, table, table.slots
      ensures Valid() && Repr == old(Repr)
      ensures (table.State(), found) == SetFlagStep(old(table.State()), scope, busId, flag, value)
      ensures model == old(model).(slots := table.State().slots)
    {
      hide Consistent; hide Represents; hide SetFlagStep; hide Reassembler.State; hide Reassembler.Valid;
      found := table.SetEndpointFlag(scope, busId, flag, value);
      model := model.(slots := table.slots[..]);
    }

    /** The application resets a latch on the tracker it attached. */
    method ResetStreamFault(streamId: StreamId)
      requires Valid()
      modifies Repr
      ensures Valid() && Repr == old(Repr)
      ensures model == ServerRuns.Apply(old(model), ServerRuns.ResetFault(streamId))
    {
      hide Consistent; hide Represents; hide ResetStep; hide Reassembler.State; hide Reassembler.Valid;
      if tracker != null {
        tracker.Reset(streamId);
        model := model.(faults := Some(tracker.model));
      }
    }

    // --- Small pieces ----------------------------------------------------------------

    method Note(e: Event)
      requires Valid()
      modifies this
      ensures Valid() && Repr == old(Repr) && model == Logged(old(model), e)
      ensures tracker == old(tracker)
    {
      log := log + [e];
      model := Logged(model, e);
    }

    method Kick(streamId: StreamId)
      requires Valid()
      modifies this
      ensures Valid() && Repr == old(Repr) && model == Kicked(old(model), streamId)
    {
      if watchdog {
        Note(Event.Kick(streamId));
      }
    }

    method StreamIsBlocked(streamId: StreamId) returns (blocked: bool)
      requires Valid()
      ensures blocked == Blocked(model, streamId)
    {
      if tracker == null {
        return false;
      }
      blocked := tracker.IsFaulted(streamId);
    }

    method Resolve(streamId: StreamId) returns (index: nat)
      requires Valid()
      ensures index == ResolveIndex(model.streams, streamId)
    {
      var i := 0;
      while i < |streams|
        invariant 0 <= i <= |streams|
        invariant ResolveIndex(streams, streamId) == ResolveFrom(streams, streamId, i)
      {
        if streams[i] == streamId {
          return i + 1;
        }
        i := i + 1;
      }
      return 0;
    }

    method DispatchPlain(call: Call, request: seq<byte>)
      requires Valid()
      modifies this
      ensures Valid() && Repr == old(Repr) && model == Dispatched(old(model), call, request)
    {
      hide Valid;
      Note(PlainEvent(call, request));
      if call.overflow {
        var index := Resolve(call.streamId);
        if index != 0 {
          Note(BroadcastSafeState(index));
        }
      }
    }

    /** `rcp_mock_server_dispatch`. */
    method Dispatch(call: Call)
      requires Valid()
      modifies this
      ensures Valid() && Repr == old(Repr) && model == PlainStep(old(model), call)
    {
      hide Valid; hide Dispatched;
      Kick(call.streamId);
      DispatchPlain(call, call.frame);
    }

    method LatchFault(streamId: StreamId, enforce: bool)
      requires Valid()
      modifies Repr
      ensures Valid() && Repr == old(Repr)
      ensures model == match old(model).faults
                       case None => old(model)
                       case Some(m) => old(model).(faults := Some(OnCrcErrorStep(m, streamId, enforce).0))
    {
      hide OnCrcErrorStep; hide Represents; hide Consistent;
      if tracker != null {
        var _ := tracker.OnCrcError(streamId, enforce);
        model := model.(faults := Some(tracker.model));
      }
    }

    method BlockStream(index: nat)
      requires Valid() && 0 < index <= MAX_REQUEST_STREAMS
      modifies this, crcBlocked
      ensures Valid() && Repr == old(Repr)
      ensures model == old(model).(crcBlocked := old(model).crcBlocked[index - 1 := true])
    {
      crcBlocked[index - 1] := true;
      model := model.(crcBlocked := model.crcBlocked[index - 1 := true]);
    }

    /** The three consequences of a CRC failure. */
    method NoteCrcFailure(streamId: StreamId, index: nat, enforce: bool)
      requires Valid() && index <= MAX_REQUEST_STREAMS
      modifies Repr
      ensures Valid() && Repr == old(Repr)
      ensures model == CrcFailed(old(model), streamId, index, enforce)
    {
      hide Valid; hide Owned; hide OnCrcErrorStep;
      ValidOwns();
      LatchFault(streamId, enforce);
      ValidOwns();
      if index != 0 && enforce {
        BlockStream(index);
        ValidOwns();
        Note(BroadcastSafeState(index));
      }
    }

    /** Feeds slot `k` in place. */
    method FeedSlot(k: nat, f: WireFragment) returns (result: FeedResult)
      requires Valid() && k < MAX_REQUEST_STREAMS
      modifies Repr
      ensures Valid() && fresh(Repr - old(Repr))
      ensures var (r, verdict) := FeedStep(old(model).reasm[k], f);
              model == old(model).(reasm := old(model).reasm[k := r]) && result == verdict
    {
      hide Valid; hide Owned; hide SlotsMatch; hide FeedStep; hide Reassembler.State; hide Reassembler.Valid;
      SlotOwned(k);
      result := reasm[k].Feed(f);
      Repr := Repr + reasm[k].Repr();
      model := model.(reasm := model.reasm[k := reasm[k].State()]);
      SlotReplaced(k);
    }

    lemma SlotOwned(k: nat)
      requires Valid() && k < MAX_REQUEST_STREAMS
      ensures reasm.Length == MAX_REQUEST_STREAMS && Sized(model)
      ensures this in Repr && reasm[k] in Repr && reasm[k].Repr() <= Repr && reasm[k].Repr() !! Parts()
      ensures reasm[k].Valid() && reasm[k].State() == model.reasm[k]
    {
      hide Consistent; hide Reassembler.State; hide Reassembler.Valid; hide Represents;
    }

    /** A reassembler that worked within its own objects and fresh ones left the rest alone. */
    twostate lemma SlotReplaced(k: nat)
      requires old(Valid()) && k < MAX_REQUEST_STREAMS
      requires forall o: object :: o in old(Repr) && o !in old(reasm[k].Repr()) && o != this ==> unchanged(o)
      requires streams == old(streams) && tracker == old(tracker) && watchdog == old(watchdog) && log == old(log)
      requires reasm[k].Valid() && fresh(reasm[k].Repr() - old(reasm[k].Repr()))
      requires Repr == old(Repr) + reasm[k].Repr()
      requires old(Sized(model)) && model == old(model).(reasm := old(model.reasm)[k := reasm[k].State()])
      ensures Valid()
    {
      hide Consistent; hide Reassembler.State; hide Reassembler.Valid; hide Represents; hide Sized;
      assert Owned();
      assert SlotsMatch();
    }

    method ResetSlot(k: nat)
      requires Valid() && k < MAX_REQUEST_STREAMS
      modifies Repr
      ensures Valid() && Repr == old(Repr)
      ensures model == ResetReasm(old(model), k)
    {
      hide Consistent; hide Reassembler.State; hide Reassembler.Valid; hide Represents;
      reasm[k].Reset();
      model := model.(reasm := model.reasm[k := reasm[k].State()]);
    }

    method RecordHeader(k: nat, header: seq<byte>)
      requires Valid() && k < MAX_REQUEST_STREAMS
      modifies this, firstHeader
      ensures Valid() && Repr == old(Repr)
      ensures model == old(model).(firstHeader := old(model).firstHeader[k := header])
    {
      hide Consistent; hide Reassembler.State; hide Reassembler.Valid; hide Represents;
      firstHeader[k] := header;
      model := model.(firstHeader := model.firstHeader[k := header]);
    }

    /** The addressed endpoint, found by stream and bus. */
    method FindEndpoint(call: Call) returns (at: Option<nat>, protected: bool, enforce: bool)
      requires Valid()
      ensures at == Find(model.slots, OnStream(call.streamId, call.busId))
      ensures protected == (at.Some? && model.slots[at.value].reqCrcEnable)
      ensures protected ==> enforce == model.slots[at.value].rxEnforceE2e
    {
      hide Consistent; hide Find; hide Reassembler.State; hide Reassembler.Valid; hide Represents;
      at := table.FindSlot(OnStream(call.streamId, call.busId));
      protected := at.Some? && table.slots[at.value].reqCrcEnable;
      enforce := at.Some? && table.slots[at.value].rxEnforceE2e;
    }

    /** `rcp_mock_server_dispatch_e2e`. */
    method DispatchE2e(call: Call) returns (outcome: Outcome, response: Response)
      requires Valid()
      modifies Repr
      ensures Valid() && Repr == old(Repr)
      ensures (model, outcome, response) == E2eStep(old(model), call)
    {
      hide Valid; hide Find; hide Blocked; hide ErrorTo; hide Unwrapped; hide CrcFailed; hide Kicked; hide Dispatched;
      ValidOwns();
      Kick(call.streamId);
      ValidOwns();
      var blocked := StreamIsBlocked(call.streamId);
      if blocked {
        return StreamFaulted, ErrorTo(call, ERROR_POCI_FAILURE);
      }
      var at, protected, enforce := FindEndpoint(call);
      if !protected {
        DispatchPlain(call, call.frame);
        return PlainAnswer, PlainResponse;
      }
      var verdict, body := Unwrap(FrameContext(call), call.frame);
      if verdict != E2eOk {
        var index := Resolve(call.streamId);
        NoteCrcFailure(call.streamId, index, enforce);
        return Outcome.CrcError, if verdict == E2eCrcMismatch then ErrorTo(call, ERROR_POCI_FAILURE) else NoResponse;
      }
      DispatchPlain(call, body[..]);
      return PlainAnswer, PlainResponse;
    }

    /** `rcp_mock_server_dispatch_e2e_fragment`. */
    method DispatchE2eFragment(call: Call) returns (outcome: Outcome, response: Response)
      requires Valid()
      modifies Repr
      ensures Valid() && fresh(Repr - old(Repr))
      ensures (model, outcome, response) == FragmentStep(old(model), call)
    {
      hide Valid; hide Find; hide Blocked; hide ErrorTo; hide E2eStep; hide IntermediateStep; hide FinalStep;
      hide Kicked; hide Dispatched; hide UnpackHeader;
      ValidOwns();
      Kick(call.streamId);
      ValidOwns();
      var blocked := StreamIsBlocked(call.streamId);
      if blocked {
        return StreamFaulted, ErrorTo(call, ERROR_POCI_FAILURE);
      }
      var at, protected, enforce := FindEndpoint(call);
      if !protected {
        DispatchPlain(call, call.frame);
        return PlainAnswer, PlainResponse;
      }
      if |call.frame| < ABB_HEADER_LEN {
        return Rejected, NoResponse;
      }
      var index := Resolve(call.streamId);
      if index == 0 {
        outcome, response := DispatchE2e(call);
      } else if MsSet(call.frame) {
        outcome, response := Intermediate(index - 1, call);
      } else {
        var collecting := IsCollecting(index - 1);
        if !collecting {
          outcome, response := DispatchE2e(call);
        } else {
          outcome, response := Final(index - 1, call, enforce);
        }
      }
    }

    method IsCollecting(k: nat) returns (collecting: bool)
      requires Valid() && k < MAX_REQUEST_STREAMS
      ensures collecting == model.reasm[k].collecting
    {
      hide Consistent; hide Reassembler.Valid; hide Represents;
      collecting := reasm[k].collecting;
    }

    /** A fragment with ms set. */
    method Intermediate(k: nat, call: Call) returns (outcome: Outcome, response: Response)
      requires Valid() && k < MAX_REQUEST_STREAMS && |call.frame| >= ABB_HEADER_LEN
      modifies Repr
      ensures Valid() && fresh(Repr - old(Repr))
      ensures (model, outcome, response) == IntermediateStep(old(model), k, call)
    {
      hide Valid; hide DecodeAny; hide UnpackHeader; hide FeedStep; hide SegmentNum; hide HeaderLen;
      ValidOwns();
      var decoded := DecodeAny(call.msgType, call.frame);
      if decoded.Err? {
        return Rejected, NoResponse;
      }
      DecodedFrameHoldsHeader(call.msgType, call.frame);
      var collecting := IsCollecting(k);
      if !collecting {
        RecordHeader(k, call.frame[..HeaderLen(call.msgType)]);
      }
      ValidOwns();
      ResetForgetsFeed(model, k, WireFragment(true, SegmentNum(call.frame), decoded.value.1, true));
      var result := FeedSlot(k, WireFragment(true, SegmentNum(call.frame), decoded.value.1, true));
      ValidOwns();
      if result != Continue {
        ResetSlot(k);
        return Rejected, NoResponse;
      }
      return FragmentPending, NoResponse;
    }

    /** The final fragment of a message being collected. */
    method Final(k: nat, call: Call, enforce: bool) returns (outcome: Outcome, response: Response)
      requires Valid() && k < MAX_REQUEST_STREAMS
      modifies Repr
      ensures Valid() && fresh(Repr - old(Repr))
      ensures (model, outcome, response) == FinalStep(old(model), k, call, enforce)
    {
      hide Valid; hide DecodeAny; hide FeedStep; hide PadOctets; hide Body; hide Trailer; hide EncodeAny;
      hide ErrorFrame; hide FragmentedCrc; hide Dispatched; hide CrcFailed; hide Unwrapped;
      ValidOwns();
      if PadOctets(call.frame) + CRC_LEN > |call.frame| {
        ResetSlot(k);
        return Rejected, NoResponse;
      }
      var got := Trailer(call.frame);
      UnwrappedBody(FrameContext(call), call.frame);
      var _, body := Unwrap(FrameContext(call), call.frame);
      var decoded := DecodeAny(call.msgType, body[..]);
      if decoded.Err? {
        ResetSlot(k);
        return Rejected, NoResponse;
      }
      ResetForgetsFeed(model, k, WireFragment(false, 0, decoded.value.1, true));
      var result := FeedSlot(k, WireFragment(false, 0, decoded.value.1, true));
      ValidOwns();
      if result != Complete {
        ResetSlot(k);
        return Rejected, NoResponse;
      }
      outcome, response := FinishMessage(k, call, enforce, got, decoded.value.0);
    }

    method FinishMessage(k: nat, call: Call, enforce: bool, got: bv32, h: AnyHeader)
      returns (outcome: Outcome, response: Response)
      requires Valid() && k < MAX_REQUEST_STREAMS
      modifies Repr
      ensures Valid() && Repr == old(Repr)
      ensures (model, outcome, response) == Finished(old(model), k, call, enforce, got, h)
    {
      hide Valid; hide EncodeAny; hide ErrorFrame; hide FragmentedCrc; hide Dispatched; hide CrcFailed;
      ValidOwns();
      var message, header := Collected(k);
      var want := ComputeFragmentedCrc(MessageContext(call), header, message);
      if got != want {
        NoteCrcFailure(call.streamId, k + 1, enforce);
        ValidOwns();
        ResetSlot(k);
        return Outcome.CrcError, ErrorResponse(ErrorFrame(call.busId, h.Info().transactionNum, ERROR_POCI_FAILURE));
      }
      var encoded := EncodeEither(h, message);
      ResetSlot(k);
      ValidOwns();
      if encoded == null {
        return Rejected, ErrorResponse(ErrorFrame(call.busId, h.Info().transactionNum, ERROR_REQUEST_REJECTED));
      }
      DispatchPlain(call, encoded[..]);
      return PlainAnswer, PlainResponse;
    }

    method Collected(k: nat) returns (message: seq<byte>, header: seq<byte>)
      requires Valid() && k < MAX_REQUEST_STREAMS
      ensures message == model.reasm[k].content && header == model.firstHeader[k]
    {
      hide Consistent; hide Reassembler.Valid; hide Represents;
      message := reasm[k].Get();
      header := firstHeader[k];
    }

    lemma ValidOwns()
      requires Valid()
      ensures this in Repr && crcBlocked in Repr && firstHeader in Repr && Sized(model)
    {}
  }
}
