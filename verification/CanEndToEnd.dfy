/** A fragmented CAN frame request (`src/ep_can.c`) sent to the server (`src/mock.c`). */
module CanEndToEnd {
  import opened Octets
  import opened Wrappers
  import opened Acf
  import opened AnyAcf
  import opened Fragment
  import opened ServerSteps
  import opened ServerFaults
  import opened ServerRuns
  import opened EndToEnd
  import opened Can
  import Runs = ReassemblyRuns

  /** How a request is addressed. */
  datatype Address = Address(
    busId: bv16, subtype: byte, timeSync: bool, streamId: StreamId, timestamp: bv32, transactionNum: byte,
    overflow: bool)

  ghost function CanMessage(f: CanFrame, a: Address, maxFragment: size): Message
    requires Encodable(f)
  {
    Message(MessageHeader(FrameRequest, a.busId, a.transactionNum, 0, 0), Combined(f), maxFragment,
            FragmentCount(f, maxFragment), a.busId, a.subtype, a.timeSync, a.streamId, a.timestamp,
            a.overflow)
  }

  /** What the end-to-end sender encodes is what the CAN encoder produces. */
  lemma PlainFramesAreSegments(f: CanFrame, a: Address, maxFragment: size, i: nat)
    requires Encodable(f) && Fragmented(CanMessage(f, a, maxFragment)) && i < FragmentCount(f, maxFragment)
    ensures IsPlan(|Combined(f)|, maxFragment, FragmentCount(f, maxFragment))
    ensures SegmentMessage(FrameRequest, a.busId, a.transactionNum, Combined(f), maxFragment,
                           FragmentCount(f, maxFragment), i)
            == Some(PlainFrame(CanMessage(f, a, maxFragment), i))
  {
    hide Encodable; hide FragmentCount; hide Combined; hide EncodeAny; hide Offset; hide Runs.PlannedSlice;
    var m := CanMessage(f, a, maxFragment);
    SliceFits(m, i);
    EncodableExactlyWhen(FragmentHeader(m, i), Runs.PlannedSlice(m.payload, m.maxFragment, m.n, i));
    SegmentHeaderOf(f, a, maxFragment, i);
  }

  lemma SegmentHeaderOf(f: CanFrame, a: Address, maxFragment: size, i: nat)
    requires Encodable(f) && i < FragmentCount(f, maxFragment)
    requires IsPlan(|Combined(f)|, maxFragment, FragmentCount(f, maxFragment))
    ensures SegmentHeader(FrameRequest, a.busId, a.transactionNum,
                          PlannedSegment(|Combined(f)|, maxFragment, FragmentCount(f, maxFragment), i))
            == FragmentHeader(CanMessage(f, a, maxFragment), i)
  {
    hide Encodable; hide FragmentCount; hide Combined; hide Offset; hide Field;
  }

  /** A CAN frame cut into at least two messages, the last one sealed with the fragmented
      checksum, reaches the endpoint as one request whose payload decodes to the very frame,
      whenever one message can carry it; otherwise, as for a long CAN XL frame, the server
      rejects it and dispatches nothing. */
  lemma CanRequestDelivered(
      s: ServerState, f: CanFrame, a: Address, maxFragment: size, k: nat, gaps: seq<seq<Op>>)
    requires Encodable(f)
    requires Fragmented(CanMessage(f, a, maxFragment)) && Serves(s, CanMessage(f, a, maxFragment), k)
    requires Bystanders(gaps, CanMessage(f, a, maxFragment), k)
    requires s.reasm[k] == Fresh(s.reasm[k].maxTotal) && |Combined(f)| <= s.reasm[k].maxTotal
    ensures var m := CanMessage(f, a, maxFragment);
            var final := After(s, m, k, gaps, m.n);
            var (outcome, _) := AnswerTo(s, m, k, gaps, m.n - 1);
            && (forall i :: 0 <= i < m.n - 1 ==> AnswerTo(s, m, k, gaps, i) == (FragmentPending, NoResponse))
            && outcome == (if |Combined(f)| <= ABB_MAX_PAYLOAD then PlainAnswer else Rejected)
            && if outcome == Rejected then RequestsOf(final.log, a.streamId) == RequestsOf(s.log, a.streamId)
               else exists request ::
                      && RequestsOf(final.log, a.streamId) == RequestsOf(s.log, a.streamId)
                           + [PlainDispatch(a.busId, a.subtype, MSG_TYPE_ABB, a.timeSync, a.streamId, request)]
                      && DecodesTo(request, f)
  {
    hide Encodable; hide FragmentCount; hide Combined; hide Fragmented; hide Serves; hide AnswerTo; hide After;
    hide RequestsOf; hide Request; hide DecodeAny; hide Received; hide DecodeCombined;
    var m := CanMessage(f, a, maxFragment);
    FragmentedRequestDelivered(s, m, k, gaps);
    DecodeBuilt(f);
    if |Combined(f)| <= ABB_MAX_PAYLOAD {
      assert DecodesTo(Request(m).value, f);
    }
  }

  /** The request is an ABB message whose payload is the frame. */
  ghost predicate DecodesTo(request: seq<byte>, f: CanFrame) {
    && DecodeAny(MSG_TYPE_ABB, request).Ok?
    && DecodeCombined(DecodeAny(MSG_TYPE_ABB, request).value.1) == Ok(f)
  }
}
