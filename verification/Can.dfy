/** CAN frames carried in ACF messages, fragmented when they are too long for one
    (`src/ep_can.c`; section 13.7.11, Figure 39 and Table 57 of the specification). */
module Can {
  import opened Octets
  import opened Wrappers
  import opened Acf
  import opened AnyAcf
  import opened Fragment
  import Runs = ReassemblyRuns

  // --- Frames ----------------------------------------------------------------------

  /** A Table 57 code; 6 and 7 are reserved. */
  type Format = byte

  const FORMAT_CBFF: Format := 0
  const FORMAT_CEFF: Format := 1
  const FORMAT_FBFF: Format := 2
  const FORMAT_FEFF: Format := 3
  const FORMAT_XL_CLASSICAL_PL: Format := 4
  const FORMAT_XL_NEW_PL: Format := 5

  const CLASSICAL_MAX_DATA_LEN: nat := 8
  const FD_MAX_DATA_LEN: nat := 64
  const XL_MAX_DATA_LEN: nat := 2048
  const XL_MAX_ENCODED_LEN: nat := 4 + 6 + XL_MAX_DATA_LEN
  const MAX_FRAGMENT_SEGMENTS: nat := 256

  datatype XlHeader = XlHeader(sdt: byte, vcid: byte, af: bv32)

  datatype CanFrame = CanFrame(format: Format, id: bv32, xl: Option<XlHeader>, data: seq<byte>)

  datatype CanError = CanShortFrame | CanBadMsgType | WrongBus | BadFrameFormat | BadEvt | BadArbitrationId

  predicate FormatValid(format: Format) {
    format <= FORMAT_XL_NEW_PL
  }

  predicate IsXl(format: Format) {
    format == FORMAT_XL_CLASSICAL_PL || format == FORMAT_XL_NEW_PL
  }

  predicate HasExtendedId(format: Format) {
    format == FORMAT_CEFF || format == FORMAT_FEFF
  }

  predicate IdValid(format: Format, id: bv32) {
    FormatValid(format) && id <= if HasExtendedId(format) then 0x1FFF_FFFF else 0x7FF
  }

  function MaxDataLen(format: Format): nat {
    if format <= FORMAT_CEFF then CLASSICAL_MAX_DATA_LEN
    else if format <= FORMAT_FEFF then FD_MAX_DATA_LEN
    else if FormatValid(format) then XL_MAX_DATA_LEN
    else 0
  }

  /** `encode_preconditions_ok`. */
  predicate Encodable(f: CanFrame) {
    && FormatValid(f.format)
    && IdValid(f.format, f.id)
    && |f.data| <= MaxDataLen(f.format)
    && (f.xl.Some? <==> IsXl(f.format))
  }

  // --- Layout -------------------------------------------------------------------------

  function PrefixLen(format: Format): nat {
    if IsXl(format) then 10 else 4
  }

  /** Format in the top three bits, identifier in the other 29. */
  function Quadlet(format: Format, id: bv32): bv32 {
    ((format as bv32) << 29) | (id & 0x1FFF_FFFF)
  }

  function FormatOf(quadlet: bv32): Format {
    ((quadlet >> 29) & 0x7) as byte
  }

  function IdOf(quadlet: bv32): bv32 {
    quadlet & 0x1FFF_FFFF
  }

  function Prefix(f: CanFrame): (p: seq<byte>)
    requires Encodable(f)
    ensures |p| == PrefixLen(f.format)
  {
    PutU32(Quadlet(f.format, f.id))
    + if f.xl.Some? then [f.xl.value.sdt, f.xl.value.vcid] + PutU32(f.xl.value.af) else []
  }

  /** The octets a message carries for a frame. */
  function Combined(f: CanFrame): (c: seq<byte>)
    requires Encodable(f)
    ensures 4 <= |c| <= XL_MAX_ENCODED_LEN
  {
    Prefix(f) + f.data
  }

  method BuildPayload(f: CanFrame, out: array<byte>) returns (len: nat)
    requires Encodable(f) && out.Length == XL_MAX_ENCODED_LEN
    modifies out
    ensures len <= out.Length && out[..len] == Combined(f)
    ensures out[len..] == old(out[len..])
  {
    hide PutU32; hide Quadlet; hide Encodable; hide MaxDataLen;
    var combined := Combined(f);
    var prefix := Prefix(f);
    forall i | 0 <= i < |prefix| {
      out[i] := prefix[i];
    }
    assert out[..|prefix|] == prefix;
    forall i | 0 <= i < |f.data| {
      out[|prefix| + i] := f.data[i];
    }
    len := |prefix| + |f.data|;
    assert out[..len] == prefix + f.data;
  }

  /** `rcp_ep_can_decode_reassembled_frame_response`. */
  function DecodeCombined(b: seq<byte>): Result<CanFrame, CanError> {
    if |b| < 4 then Err(CanShortFrame)
    else
      var format := FormatOf(GetU32(b));
      if !FormatValid(format) then Err(BadFrameFormat)
      else if |b| < PrefixLen(format) then Err(CanShortFrame)
      else
        var id := IdOf(GetU32(b));
        if !IdValid(format, id) then Err(BadArbitrationId)
        else
          var xl := if IsXl(format) then Some(XlHeader(b[4], b[5], GetU32(b[6..]))) else None;
          Ok(CanFrame(format, id, xl, b[PrefixLen(format)..]))
  }

  lemma QuadletFields(format: Format, id: bv32)
    requires IdValid(format, id)
    ensures FormatOf(Quadlet(format, id)) == format && IdOf(Quadlet(format, id)) == id
  {}

  lemma FieldsOfQuadlet(quadlet: bv32)
    ensures Quadlet(FormatOf(quadlet), IdOf(quadlet)) == quadlet
  {}

  lemma PrefixReads(f: CanFrame, rest: seq<byte>)
    requires Encodable(f)
    ensures var b := Prefix(f) + rest;
            && GetU32(b) == Quadlet(f.format, f.id)
            && b[PrefixLen(f.format)..] == rest
            && (f.xl.Some? ==> f.xl.value == XlHeader(b[4], b[5], GetU32(b[6..])))
  {
    hide PutU32; hide GetU32; hide Quadlet; hide Encodable;
    var q := PutU32(Quadlet(f.format, f.id));
    var b := Prefix(f) + rest;
    assert b == q + b[4..];
    GetPutU32(Quadlet(f.format, f.id));
    GetU32ReadsPrefix(q, b[4..]);
    if f.xl.Some? {
      var af := PutU32(f.xl.value.af);
      assert b[6..] == af + rest;
      GetPutU32(f.xl.value.af);
      GetU32ReadsPrefix(af, rest);
    }
  }

  /** Decoding what was built returns the frame. */
  lemma DecodeBuilt(f: CanFrame)
    requires Encodable(f)
    ensures DecodeCombined(Combined(f)) == Ok(f)
  {
    hide PutU32; hide GetU32; hide Quadlet; hide FormatOf; hide IdOf; hide Prefix; hide IdValid;
    PrefixReads(f, f.data);
    QuadletFields(f.format, f.id);
  }

  /** And whatever decodes to a frame of legal length is what building that frame gives. */
  lemma BuildDecoded(b: seq<byte>)
    requires DecodeCombined(b).Ok?
    ensures var f := DecodeCombined(b).value;
            && (Encodable(f) <==> |f.data| <= MaxDataLen(f.format))
            && (Encodable(f) ==> Combined(f) == b)
  {
    hide PutU32; hide GetU32; hide Quadlet; hide FormatOf; hide IdOf; hide IdValid;
    FieldsOfQuadlet(GetU32(b));
    PutGetU32(b[..4]);
    GetU32ReadsPrefix(b[..4], b[4..]);
    assert b[..4] + b[4..] == b;
    var f := DecodeCombined(b).value;
    if IsXl(f.format) {
      PutGetU32(b[6..10]);
      GetU32ReadsPrefix(b[6..10], b[10..]);
      assert b[6..10] + b[10..] == b[6..];
      assert b == b[..4] + ([b[4], b[5]] + b[6..10]) + b[10..];
    }
  }

  function TopFormat(b: seq<byte>): Format
    requires |b| >= 4
  {
    b[0] >> 5
  }

  function Identifier(b: seq<byte>): bv32
    requires |b| >= 4
  {
    (((b[0] & 0x1F) as bv32) << 24) | ((b[1] as bv32) << 16) | ((b[2] as bv32) << 8) | (b[3] as bv32)
  }

  lemma FirstQuadlet(b: seq<byte>)
    requires |b| >= 4
    ensures FormatOf(GetU32(b)) == TopFormat(b) && IdOf(GetU32(b)) == Identifier(b)
  {}

  /** Figure 39 and Table 57: which frames there are, and their octets. Format in the top three
      bits, identifier in the other 29; behind them for CAN XL the SDT, the VCID and the
      acceptance field; then the data. */
  lemma FrameLayout(f: CanFrame)
    ensures Encodable(f) <==>
              && f.format <= 5
              && f.id <= (if f.format == 1 || f.format == 3 then 0x1FFF_FFFF else 0x7FF)
              && |f.data| <= (if f.format <= 1 then 8 else if f.format <= 3 then 64 else 2048)
              && (f.xl.Some? <==> f.format >= 4)
    ensures Encodable(f) ==>
              var c, n := Combined(f), if f.format >= 4 then 10 else 4;
              && TopFormat(c) == f.format && Identifier(c) == f.id
              && |c| == n + |f.data| && c[n..] == f.data
              && (f.xl.Some? ==> f.xl.value == XlHeader(c[4], c[5], GetU32(c[6..10])))
  {
    FrameLimits(f);
    if Encodable(f) {
      hide PutU32; hide GetU32; hide Quadlet; hide Encodable; hide FormatOf; hide IdOf; hide Prefix; hide IdValid;
      PrefixReads(f, f.data);
      QuadletFields(f.format, f.id);
      FirstQuadlet(Combined(f));
      if f.xl.Some? {
        assert Combined(f)[6..] == Combined(f)[6..10] + Combined(f)[10..];
        GetU32ReadsPrefix(Combined(f)[6..10], Combined(f)[10..]);
      }
    }
  }

  lemma FrameLimits(f: CanFrame)
    ensures Encodable(f) <==>
              && f.format <= 5
              && f.id <= (if f.format == 1 || f.format == 3 then 0x1FFF_FFFF else 0x7FF)
              && |f.data| <= (if f.format <= 1 then 8 else if f.format <= 3 then 64 else 2048)
              && (f.xl.Some? <==> f.format >= 4)
    ensures Encodable(f) ==> IdValid(f.format, f.id) && PrefixLen(f.format) == if f.format >= 4 then 10 else 4
  {}

  /** What octets that do not decode lack. */
  lemma DecodeRefusalMeans(b: seq<byte>)
    ensures var result := DecodeCombined(b);
            && (result == Err(CanShortFrame) <==> |b| < 4 || (4 <= TopFormat(b) <= 5 && |b| < 10))
            && (result == Err(BadFrameFormat) <==> |b| >= 4 && TopFormat(b) >= 6)
            && (result == Err(BadArbitrationId) <==>
                  && |b| >= 4 && (TopFormat(b) <= 3 || (TopFormat(b) <= 5 && |b| >= 10))
                  && TopFormat(b) != 1 && TopFormat(b) != 3 && Identifier(b) > 0x7FF)
            && (result.Err? ==>
                  result.error == CanShortFrame || result.error == BadFrameFormat || result.error == BadArbitrationId)
  {
    if |b| >= 4 {
      FirstQuadlet(b);
      IdentifierFits(b);
      hide FormatOf; hide IdOf; hide GetU32; hide TopFormat; hide Identifier;
    }
  }

  lemma IdentifierFits(b: seq<byte>)
    requires |b| >= 4
    ensures Identifier(b) <= 0x1FFF_FFFF && TopFormat(b) <= 7
  {}

  // --- Fragmenting ------------------------------------------------------------------

  /** The number of messages, or 0 when the frame or the cut is refused. */
  function FragmentCount(f: CanFrame, maxFragment: size): nat {
    if !Encodable(f) then 0
    else
      var count := PlanCount(|Combined(f)|, maxFragment);
      if count > MAX_FRAGMENT_SEGMENTS then 0 else count
  }

  /** A frame is cut exactly when it is legal and 256 messages can carry it; then into the
      fewest that can. */
  lemma FragmentCountMeans(f: CanFrame, maxFragment: size)
    ensures FragmentCount(f, maxFragment) != 0 <==> Encodable(f) && |Combined(f)| <= 256 * maxFragment
    ensures var n := FragmentCount(f, maxFragment);
            n != 0 ==> (n - 1) * maxFragment < |Combined(f)| <= n * maxFragment
  {
    hide Encodable; hide PlanCount; hide Combined;
    if Encodable(f) {
      var len := |Combined(f)|;
      PlanRefusesExactlyWhen(len, maxFragment);
      var n := PlanCount(len, maxFragment);
      if n != 0 {
        PlanCountIsCeiling(len, maxFragment);
        if n <= 256 {
          MulMonotone(n, 256, maxFragment);
        } else {
          MulMonotone(256, n - 1, maxFragment);
        }
      }
    }
  }

  /** A request is never timed. */
  datatype Kind = FrameRequest | FrameResponse(timestamp: Option<bv64>)

  function MessageHeader(kind: Kind, busId: bv16, transactionNum: byte, ms: byte, segmentNum: bv16): AnyHeader {
    var h := ZERO_HEADER.(busId := busId, transactionNum := transactionNum, ms := ms, rss := segmentNum);
    match kind
    case FrameRequest => AbbInfo(h.(op := OP_WRITE))
    case FrameResponse(None) => AbbInfo(h.(op := OP_READ, rsp := 1))
    case FrameResponse(Some(timestamp)) =>
      GbbInfo(GbbHeader(h.(op := OP_READ, rsp := 1, mtv := MTV_VALID), timestamp))
  }

  function SegmentHeader(kind: Kind, busId: bv16, transactionNum: byte, segment: Segment): AnyHeader {
    if segment.ms then MessageHeader(kind, busId, transactionNum, 1, Field(segment.segmentNum))
    else MessageHeader(kind, busId, transactionNum, 0, 0)
  }

  /** The message for segment `i` of a cut into `n`. */
  function SegmentMessage(kind: Kind, busId: bv16, transactionNum: byte, combined: seq<byte>, maxFragment: nat, n: nat,
                          i: nat): Option<seq<byte>>
    requires IsPlan(|combined|, maxFragment, n) && i < n
  {
    EncodeAny(SegmentHeader(kind, busId, transactionNum, PlannedSegment(|combined|, maxFragment, n, i)),
              Runs.PlannedSlice(combined, maxFragment, n, i))
  }

  function Capacity(kind: Kind): nat {
    if kind.FrameResponse? && kind.timestamp.Some? then GBB_MAX_PAYLOAD else ABB_MAX_PAYLOAD
  }

  lemma CapacityOfHeader(kind: Kind, busId: bv16, transactionNum: byte, segment: Segment)
    ensures MaxPayload(SegmentHeader(kind, busId, transactionNum, segment)) == Capacity(kind)
  {}

  /** The cut is accepted and its longest slice, the first, fits a message. */
  predicate Sendable(kind: Kind, f: CanFrame, maxFragment: size) {
    && FragmentCount(f, maxFragment) != 0
    && (|Combined(f)| <= Capacity(kind) || maxFragment <= Capacity(kind))
  }

  lemma CountIsPlan(f: CanFrame, maxFragment: size)
    requires FragmentCount(f, maxFragment) != 0
    ensures IsPlan(|Combined(f)|, maxFragment, FragmentCount(f, maxFragment))
    ensures FragmentCount(f, maxFragment) <= MAX_FRAGMENT_SEGMENTS
  {
    hide Encodable; hide PlanCount; hide IsPlan;
    PlanCountIsPlan(|Combined(f)|, maxFragment);
  }

  /** Slices never get longer, so either all of them fit or already the first does not. */
  lemma SliceFitsExactlyWhen(kind: Kind, f: CanFrame, maxFragment: size, n: nat, i: nat)
    requires n == FragmentCount(f, maxFragment) && n != 0 && IsPlan(|Combined(f)|, maxFragment, n) && i < n
    ensures |Runs.PlannedSlice(Combined(f), maxFragment, n, 0)| <= Capacity(kind) <==> Sendable(kind, f, maxFragment)
    ensures |Runs.PlannedSlice(Combined(f), maxFragment, n, i)| <= |Runs.PlannedSlice(Combined(f), maxFragment, n, 0)|
  {
    hide Encodable; hide PlanCount; hide Combined; hide IsXl;
    Runs.PlannedFragmentFields(Combined(f), maxFragment, n, 0);
    Runs.PlannedFragmentFields(Combined(f), maxFragment, n, i);
    OffsetsInRange(|Combined(f)|, maxFragment, n, i);
    assert Offset(maxFragment, n) == Offset(maxFragment, n - 1) + maxFragment;
  }

  lemma MessageExists(kind: Kind, busId: bv16, transactionNum: byte, f: CanFrame, maxFragment: size, n: nat, i: nat)
    requires n == FragmentCount(f, maxFragment) && n != 0 && IsPlan(|Combined(f)|, maxFragment, n) && i < n
    ensures var message := SegmentMessage(kind, busId, transactionNum, Combined(f), maxFragment, n, i);
            && (Sendable(kind, f, maxFragment) ==> message.Some?)
            && (message.Some? && i == 0 ==> Sendable(kind, f, maxFragment))
  {
    hide Encodable; hide PlanCount; hide EncodeAny; hide SegmentHeader; hide Runs.PlannedSlice; hide Combined;
    hide Sendable; hide PlannedSegment; hide IsPlan;
    CapacityOfHeader(kind, busId, transactionNum, PlannedSegment(|Combined(f)|, maxFragment, n, i));
    EncodableExactlyWhen(SegmentHeader(kind, busId, transactionNum, PlannedSegment(|Combined(f)|, maxFragment, n, i)),
                         Runs.PlannedSlice(Combined(f), maxFragment, n, i));
    SliceFitsExactlyWhen(kind, f, maxFragment, n, i);
  }

  /** The fragmented encoders, for requests and responses. Nothing is stored unless every
      slice fits a message. */
  method EncodeFragmented(kind: Kind, busId: bv16, f: CanFrame, transactionNum: byte, maxFragment: size,
                          out: array<seq<byte>>) returns (count: nat)
    requires FragmentCount(f, maxFragment) <= out.Length
    modifies out
    ensures count == if Sendable(kind, f, maxFragment) then FragmentCount(f, maxFragment) else 0
    ensures count != 0 ==>
              && AreMessages(kind, busId, transactionNum, f, maxFragment, out[..count])
              && out[count..] == old(out[count..])
    ensures count == 0 ==> out[..] == old(out[..])
  {
    hide Encodable; hide PlanCount; hide FragmentCount; hide IsPlan; hide EncodeAny; hide SegmentHeader;
    hide Runs.PlannedSlice; hide PlannedSegment; hide Combined; hide Sendable;
    var n := FragmentCount(f, maxFragment);
    CountFacts(f, maxFragment);
    if n == 0 {
      NothingSendable(kind, f, maxFragment);
      return 0;
    }
    CountIsPlan(f, maxFragment);
    var combined := new byte[XL_MAX_ENCODED_LEN];
    var len := BuildPayload(f, combined);
    var segments := new Segment[MAX_FRAGMENT_SEGMENTS];
    var rc := Plan(len, maxFragment, segments, n);
    assert rc == PlanOk;
    var i := 0;
    while i < n
      invariant 0 <= i <= n
      invariant i > 0 ==> Sendable(kind, f, maxFragment)
      invariant forall k :: 0 <= k < i ==>
        Some(out[k]) == SegmentMessage(kind, busId, transactionNum, Combined(f), maxFragment, n, k)
      invariant out[i..] == old(out[i..])
      invariant segments[..n] == PlannedSegments(len, maxFragment, n) && combined[..len] == Combined(f)
    {
      var segment := segments[i];
      assert segment == segments[..n][i] == PlannedSegment(len, maxFragment, n, i);
      PlannedSliceIs(Combined(f), maxFragment, n, i);
      var slice := combined[..len][segment.offset..segment.offset + segment.len];
      var frame := EncodeEither(SegmentHeader(kind, busId, transactionNum, segment), slice);
      MessageExists(kind, busId, transactionNum, f, maxFragment, n, i);
      if frame == null {
        return 0;
      }
      out[i] := frame[..];
      i := i + 1;
    }
    return n;
  }

  ghost predicate AreMessages(kind: Kind, busId: bv16, transactionNum: byte, f: CanFrame, maxFragment: size,
                              frames: seq<seq<byte>>)
  {
    var n := FragmentCount(f, maxFragment);
    && n != 0 && |frames| == n
    && (CountIsPlan(f, maxFragment);
        forall k :: 0 <= k < n ==>
          Some(frames[k]) == SegmentMessage(kind, busId, transactionNum, Combined(f), maxFragment, n, k))
  }

  lemma CountFacts(f: CanFrame, maxFragment: size)
    ensures FragmentCount(f, maxFragment) != 0 ==>
              Encodable(f) && PlanCount(|Combined(f)|, maxFragment) == FragmentCount(f, maxFragment)
  {}

  lemma NothingSendable(kind: Kind, f: CanFrame, maxFragment: size)
    requires FragmentCount(f, maxFragment) == 0
    ensures !Sendable(kind, f, maxFragment)
  {}

  lemma PlannedSliceIs(payload: seq<byte>, maxFragment: nat, n: nat, i: nat)
    requires IsPlan(|payload|, maxFragment, n) && i < n
    ensures var segment := PlannedSegment(|payload|, maxFragment, n, i);
            && segment.offset + segment.len <= |payload|
            && Runs.PlannedSlice(payload, maxFragment, n, i) == payload[segment.offset..segment.offset + segment.len]
  {
    hide IsPlan;
    OffsetsInRange(|payload|, maxFragment, n, i);
  }

  // --- One received message -----------------------------------------------------------

  datatype Piece = Piece(
    ms: bool, segmentNum: uint16, payload: seq<byte>, timed: bool, timestamp: bv64, transactionNum: byte)

  /** The decoder keeps eight bits of the number. */
  function Narrow(segmentNum: bv16): uint16 {
    OctetOfValue(LowOctet(segmentNum));
    OctetValue(LowOctet(segmentNum))
  }

  /** `rcp_ep_can_decode_frame_response_fragment`. */
  function DecodeFragment(b: seq<byte>, expectedBus: bv16): Result<Piece, CanError> {
    if |b| < 1 then Err(CanShortFrame)
    else
      match DecodeAny(b[0] >> 1, b)
      case Err(ShortFrame) => Err(CanShortFrame)
      case Err(BadMsgType) => Err(CanBadMsgType)
      case Ok((header, payload)) => ReceivedFrom(header, payload, expectedBus)
  }

  function ReceivedFrom(header: AnyHeader, payload: seq<byte>, expectedBus: bv16): Result<Piece, CanError> {
    var h := header.Info();
    if h.busId != expectedBus then Err(WrongBus)
    else if h.evt & 0x7 != 0 then Err(BadEvt)
    else
      var timed := header.GbbInfo? && h.mtv == MTV_VALID;
      Ok(Piece(h.ms != 0, Narrow(h.rss), payload, timed, if timed then header.gbb.timestamp else 0,
                  h.transactionNum))
  }

  lemma NarrowNext(x: bv16)
    requires x < 0xFFF
    ensures Narrow(x + 1) == if Narrow(x) == 0xFF then 0 else Narrow(x) + 1
  {}

  lemma NarrowZero()
    ensures Narrow(0) == 0 && Field(0) == 0
  {}

  lemma {:induction false} NarrowIsModulo(i: nat)
    requires i < 0x1000
    ensures Narrow(Field(i)) == i % 0x100
  {
    hide Narrow; hide Field; hide FieldValue;
    NarrowZero();
    if i > 0 {
      NarrowIsModulo(i - 1);
      var x := Field(i - 1);
      ValueOfField(i - 1);
      LargestField();
      FieldOfValue(x + 1);
      FieldBelow(x, i - 1);
      NextField(x);
      NarrowNext(x);
    }
  }

  lemma FieldBelow(x: bv16, i: nat)
    requires FieldValue(x) == i < 0xFFF
    ensures x < 0xFFF
  {}

  /** A planned fragment as this decoder reports it. */
  function Narrowed(f: WireFragment): WireFragment
    requires f.segmentNum < 0x1000
  {
    f.(segmentNum := Narrow(Field(f.segmentNum)))
  }

  function Planned(payload: seq<byte>, maxFragment: size): seq<WireFragment>
    requires |payload| < SIZE_MODULUS && PlanCount(|payload|, maxFragment) != 0
  {
    PlanCountIsPlan(|payload|, maxFragment);
    Runs.PlannedFragments(payload, maxFragment, PlanCount(|payload|, maxFragment))
  }

  ghost predicate IsNarrowed(fragments: seq<WireFragment>, narrowed: seq<WireFragment>) {
    && |narrowed| == |fragments|
    && forall i :: 0 <= i < |fragments| ==> fragments[i].segmentNum < 0x1000 && narrowed[i] == Narrowed(fragments[i])
  }

  lemma NarrowedFragment(f: WireFragment)
    requires f.segmentNum < 0x1000
    ensures f.segmentNum < 0x100 ==> Narrowed(f) == f
    ensures f.segmentNum == 0x100 ==> Narrowed(f) == f.(segmentNum := 0)
  {
    NarrowIsModulo(f.segmentNum);
  }

  /** Why the sender's cap matters. A message cut into any number of fragments, each reported
      with its narrowed number, is reassembled exactly when it has at most 256 intermediates. */
  lemma NarrowedMessageCompletesExactlyWhen(
      s: ReasmState, payload: seq<byte>, maxFragment: size, narrowed: seq<WireFragment>)
    requires |payload| < SIZE_MODULUS && PlanCount(|payload|, maxFragment) != 0
    requires !s.collecting && |s.content| + |payload| <= s.maxTotal
    requires IsNarrowed(Planned(payload, maxFragment), narrowed)
    ensures (forall i :: 0 <= i < |narrowed| ==> Runs.ResultAt(s, narrowed, i).Accepted())
            <==> PlanCount(|payload|, maxFragment) - 1 <= MAX_FRAGMENT_SEGMENTS
  {
    hide PlanCount; hide IsPlan; hide FeedStep; hide Narrowed; hide Runs.PlannedFragment; hide Runs.Run;
    PlanCountIsPlan(|payload|, maxFragment);
    var n := PlanCount(|payload|, maxFragment);
    var fragments := Planned(payload, maxFragment);
    forall i | 0 <= i < n && i <= 0x100
      ensures i < 0x100 || i == n - 1 ==> narrowed[i] == fragments[i]
      ensures i == 0x100 < n - 1 ==>
                narrowed[i].ms && narrowed[i].segmentNum == 0
    {
      NumberOfPlanned(payload, maxFragment, n, i);
      NarrowedFragment(fragments[i]);
    }
    if n - 1 <= MAX_FRAGMENT_SEGMENTS {
      assert narrowed == fragments;
      Runs.PlanThenReassemble(s, payload, maxFragment);
    } else {
      assert narrowed[..256] == fragments[..256];
      Runs.AfterIntermediates(s, payload, maxFragment, n, 256);
      OutOfOrder(Runs.Run(s, narrowed[..256]), narrowed[256]);
      assert !Runs.ResultAt(s, narrowed, 256).Accepted();
    }
  }

  lemma NumberOfPlanned(payload: seq<byte>, maxFragment: nat, n: nat, i: nat)
    requires IsPlan(|payload|, maxFragment, n) && i < n && i < 0x1_0000
    ensures var f := Runs.PlannedFragment(payload, maxFragment, n, i);
            if i + 1 < n then f.ms && f.segmentNum == i else f.segmentNum == 0
  {
    Runs.PlannedFragmentFields(payload, maxFragment, n, i);
  }

  lemma OutOfOrder(r: ReasmState, f: WireFragment)
    requires r.collecting && r.expected == 256 && f.ms && f.segmentNum == 0
    ensures FeedStep(r, f) == (r, ErrOutOfOrder)
  {}

  lemma WireFields(msgType: byte, msgLength: bv16, h: Header)
    requires h.ms <= 1 && h.rss <= 0xFFF && h.mtv <= 1 && h.evt == 0
    ensures var t := Truncated(msgType, msgLength, h);
            && t.busId == h.busId & 0x7FF && t.evt == 0 && t.ms == h.ms && t.rss == h.rss && t.mtv == h.mtv
            && t.transactionNum == h.transactionNum
  {}

  lemma ReceivedInfo(h: AnyHeader, payloadLen: nat)
    requires payloadLen <= MaxPayload(h)
    requires h.Info().ms <= 1 && h.Info().rss <= 0xFFF && h.Info().mtv <= 1 && h.Info().evt == 0
    ensures var u := Received(h, payloadLen).Info();
            && u.busId == h.Info().busId & 0x7FF && u.evt == 0 && u.ms == h.Info().ms && u.rss == h.Info().rss
            && u.transactionNum == h.Info().transactionNum
            && Received(h, payloadLen).GbbInfo? == h.GbbInfo?
            && (h.GbbInfo? ==> u.mtv == h.Info().mtv && Received(h, payloadLen).gbb.timestamp == WireTimestamp(h.gbb))
  {
    hide Truncated; hide Octet; hide Field; hide Quadlets; hide PadLen;
    var headerLen := if h.GbbInfo? then GBB_HEADER_LEN else ABB_HEADER_LEN;
    QuadletsBound(headerLen, payloadLen);
    WireFields(TypeOf(h), Field(Quadlets(headerLen, payloadLen)),
               h.Info().(pad := Octet(PadLen(headerLen + payloadLen))));
  }

  lemma SentFields(kind: Kind, busId: bv16, transactionNum: byte, ms: byte, segmentNum: bv16)
    ensures var sent := MessageHeader(kind, busId, transactionNum, ms, segmentNum);
            && sent.Info().busId == busId && sent.Info().evt == 0 && sent.Info().ms == ms
            && sent.Info().rss == segmentNum && sent.Info().transactionNum == transactionNum
            && sent.Info().mtv <= 1
            && sent.GbbInfo? == (kind.FrameResponse? && kind.timestamp.Some?)
            && MaxPayload(sent) == Capacity(kind)
            && (sent.GbbInfo? ==> sent.Info().mtv == MTV_VALID && WireTimestamp(sent.gbb) == kind.timestamp.value)
  {}

  lemma ReceivedFields(kind: Kind, busId: bv16, transactionNum: byte, ms: byte, segmentNum: bv16, payloadLen: nat)
    requires ms <= 1 && segmentNum <= 0xFFF && payloadLen <= Capacity(kind)
    ensures var sent := MessageHeader(kind, busId, transactionNum, ms, segmentNum);
            && payloadLen <= MaxPayload(sent)
            && var h := Received(sent, payloadLen);
               && h.Info().busId == busId & 0x7FF
               && h.Info().evt == 0
               && h.Info().ms == ms
               && h.Info().rss == segmentNum
               && h.Info().transactionNum == transactionNum
               && h.GbbInfo? == (kind.FrameResponse? && kind.timestamp.Some?)
               && (h.GbbInfo? ==> h.Info().mtv == MTV_VALID && h.gbb.timestamp == kind.timestamp.value)
  {
    hide Received; hide MessageHeader; hide TypeOf; hide WireTimestamp;
    SentFields(kind, busId, transactionNum, ms, segmentNum);
    ReceivedInfo(MessageHeader(kind, busId, transactionNum, ms, segmentNum), payloadLen);
  }

  function Timestamp(kind: Kind): bv64 {
    if kind.FrameResponse? && kind.timestamp.Some? then kind.timestamp.value else 0
  }

  /** Piece `i` as the receiver should see it. */
  function SentPiece(kind: Kind, transactionNum: byte, combined: seq<byte>, maxFragment: nat, n: nat, i: nat): Piece
    requires IsPlan(|combined|, maxFragment, n) && i < n
  {
    var segment := PlannedSegment(|combined|, maxFragment, n, i);
    Piece(segment.ms, segment.segmentNum, Runs.PlannedSlice(combined, maxFragment, n, i),
          kind.FrameResponse? && kind.timestamp.Some?, Timestamp(kind), transactionNum)
  }

  lemma TypeOctetOf(h: AnyHeader, b: seq<byte>)
    requires DecodeAny(TypeOf(h), b).Ok?
    ensures |b| >= ABB_HEADER_LEN && b[0] >> 1 == TypeOf(h)
  {
    hide UnpackHeader; hide FieldValue; hide OctetValue;
  }

  /** A receiver expecting the bus number that went on the wire gets every piece back; any
      other is told the bus is wrong. */
  lemma DecodeSegment(kind: Kind, busId: bv16, transactionNum: byte, combined: seq<byte>, maxFragment: nat, n: nat,
                      i: nat, expectedBus: bv16)
    requires IsPlan(|combined|, maxFragment, n) && i < n <= MAX_FRAGMENT_SEGMENTS
    requires SegmentMessage(kind, busId, transactionNum, combined, maxFragment, n, i).Some?
    ensures DecodeFragment(SegmentMessage(kind, busId, transactionNum, combined, maxFragment, n, i).value, expectedBus)
            == if expectedBus == busId & 0x7FF then Ok(SentPiece(kind, transactionNum, combined, maxFragment, n, i))
               else Err(WrongBus)
  {
    hide EncodeAny; hide DecodeAny; hide Received; hide Runs.PlannedSlice; hide Narrow; hide Field; hide FieldValue;
    hide MessageHeader; hide IsPlan; hide MaxPayload; hide Capacity; hide TypeOf; hide Offset;
    var segment := PlannedSegment(|combined|, maxFragment, n, i);
    var slice := Runs.PlannedSlice(combined, maxFragment, n, i);
    var h := SegmentHeader(kind, busId, transactionNum, segment);
    EncodableExactlyWhen(h, slice);
    CapacityOfHeader(kind, busId, transactionNum, segment);
    DecodeEncodedAny(h, slice);
    TypeOctetOf(h, EncodeAny(h, slice).value);
    SegmentNumberSent(|combined|, maxFragment, n, i);
    NarrowZero();
    if segment.ms {
      ReceivedFields(kind, busId, transactionNum, 1, Field(segment.segmentNum), |slice|);
      NarrowIsModulo(segment.segmentNum);
    } else {
      ReceivedFields(kind, busId, transactionNum, 0, 0, |slice|);
    }
  }

  lemma SegmentNumberSent(payloadLen: nat, maxFragment: nat, n: nat, i: nat)
    requires IsPlan(payloadLen, maxFragment, n) && i < n <= MAX_FRAGMENT_SEGMENTS
    ensures var segment := PlannedSegment(payloadLen, maxFragment, n, i);
            && segment.segmentNum < 0x100
            && (!segment.ms ==> segment.segmentNum == 0)
            && Field(segment.segmentNum) <= 0xFFF
  {
    hide Field; hide FieldValue; hide U16; hide IsPlan; hide Offset;
    U16Keeps(i);
    ValueOfField(PlannedSegment(payloadLen, maxFragment, n, i).segmentNum);
  }

  // --- The round trip -------------------------------------------------------------------

  function AsFed(piece: Piece): WireFragment {
    WireFragment(piece.ms, piece.segmentNum, piece.payload, true)
  }

  /** What the receiver of the messages feeds its reassembler. */
  ghost function FedFrom(frames: seq<seq<byte>>, expectedBus: bv16): seq<WireFragment>
    requires forall i :: 0 <= i < |frames| ==> DecodeFragment(frames[i], expectedBus).Ok?
  {
    seq(|frames|, i requires 0 <= i < |frames| => AsFed(DecodeFragment(frames[i], expectedBus).value))
  }

  lemma ReceivedPieces(kind: Kind, busId: bv16, f: CanFrame, transactionNum: byte, maxFragment: size,
                       frames: seq<seq<byte>>, n: nat)
    requires AreMessages(kind, busId, transactionNum, f, maxFragment, frames)
    requires n == FragmentCount(f, maxFragment) && IsPlan(|Combined(f)|, maxFragment, n) && n <= MAX_FRAGMENT_SEGMENTS
    ensures forall i :: 0 <= i < |frames| ==>
              DecodeFragment(frames[i], busId & 0x7FF)
              == Ok(SentPiece(kind, transactionNum, Combined(f), maxFragment, n, i))
    ensures FedFrom(frames, busId & 0x7FF) == Runs.PlannedFragments(Combined(f), maxFragment, n)
  {
    hide Encodable; hide PlanCount; hide FragmentCount; hide IsPlan; hide SegmentMessage; hide Combined;
    hide DecodeFragment; hide PlannedSegment; hide Runs.PlannedSlice;
    CountFacts(f, maxFragment);
    forall i | 0 <= i < |frames|
      ensures DecodeFragment(frames[i], busId & 0x7FF)
              == Ok(SentPiece(kind, transactionNum, Combined(f), maxFragment, n, i))
    {
      assert Some(frames[i]) == SegmentMessage(kind, busId, transactionNum, Combined(f), maxFragment, n, i);
      DecodeSegment(kind, busId, transactionNum, Combined(f), maxFragment, n, i, busId & 0x7FF);
    }
  }

  /** The messages of a fragmented frame, decoded in order and fed to an empty reassembler
      with room for it: each decodes with its transaction number and timestamp; each but the
      last is answered CONTINUE, the last COMPLETE; and what was reassembled decodes to the
      same format, identifier, XL header and data. */
  lemma FragmentedRoundTrip(kind: Kind, busId: bv16, f: CanFrame, transactionNum: byte, maxFragment: size,
                            frames: seq<seq<byte>>, maxTotal: nat)
    requires AreMessages(kind, busId, transactionNum, f, maxFragment, frames)
    requires Encodable(f) && |Combined(f)| <= maxTotal
    ensures forall i :: 0 <= i < |frames| ==>
              var piece := DecodeFragment(frames[i], busId & 0x7FF);
              && piece.Ok?
              && piece.value.timed == (kind.FrameResponse? && kind.timestamp.Some?)
              && piece.value.timestamp == Timestamp(kind)
              && piece.value.transactionNum == transactionNum
    ensures var fed := FedFrom(frames, busId & 0x7FF);
            && (forall i :: 0 <= i < |fed| ==>
                  Runs.ResultAt(Fresh(maxTotal), fed, i) == if i == |frames| - 1 then Complete else Continue)
            && DecodeCombined(Runs.Run(Fresh(maxTotal), fed).content) == Ok(f)
  {
    hide Encodable; hide PlanCount; hide FragmentCount; hide IsPlan; hide SegmentMessage; hide Combined;
    hide DecodeFragment; hide Runs.Run; hide Runs.ResultAt; hide DecodeCombined;
    var n := FragmentCount(f, maxFragment);
    CountIsPlan(f, maxFragment);
    ReceivedPieces(kind, busId, f, transactionNum, maxFragment, frames, n);
    Runs.RunOfPlan(Fresh(maxTotal), Combined(f), maxFragment, n);
    DecodeBuilt(f);
  }

  /** And a receiver of any other bus takes none of them. */
  lemma OtherBusTakesNothing(kind: Kind, busId: bv16, f: CanFrame, transactionNum: byte, maxFragment: size,
                             frames: seq<seq<byte>>, otherBus: bv16, i: nat)
    requires AreMessages(kind, busId, transactionNum, f, maxFragment, frames) && i < |frames|
    requires otherBus != busId & 0x7FF
    ensures DecodeFragment(frames[i], otherBus) == Err(WrongBus)
  {
    hide Encodable; hide PlanCount; hide FragmentCount; hide IsPlan; hide SegmentMessage; hide Combined;
    hide DecodeFragment;
    var n := FragmentCount(f, maxFragment);
    CountIsPlan(f, maxFragment);
    CountFacts(f, maxFragment);
    assert Some(frames[i]) == SegmentMessage(kind, busId, transactionNum, Combined(f), maxFragment, n, i);
    DecodeSegment(kind, busId, transactionNum, Combined(f), maxFragment, n, i, otherBus);
  }

  // --- Messages of any header ----------------------------------------------------------

  /** What a receiver makes of a message, whatever its header: the wrong bus is noticed first,
      then an event; a timestamp counts only where it is marked valid. */
  lemma DecodeOfEncoded(h: AnyHeader, payload: seq<byte>, expectedBus: bv16)
    requires |payload| <= MaxPayload(h)
    ensures EncodeAny(h, payload).Some?
    ensures var i := h.Info();
            var timed := h.GbbInfo? && i.mtv & 1 == 1;
            DecodeFragment(EncodeAny(h, payload).value, expectedBus)
            == if i.busId & 0x7FF != expectedBus then Err(WrongBus)
               else if i.evt & 7 != 0 then Err(BadEvt)
               else Ok(Piece(i.ms & 1 == 1, Narrow(i.rss & 0xFFF), payload, timed,
                             if timed then h.gbb.timestamp else 0, i.transactionNum))
  {
    hide EncodeAny; hide DecodeAny; hide Received; hide Narrow;
    DecodeEncodedAny(h, payload);
    TypeOctetOf(h, EncodeAny(h, payload).value);
    ReceivedInfoFields(h, |payload|);
    EventBits(h.Info().evt);
    OneBit(h.Info().ms);
    OneBit(h.Info().mtv);
  }

  lemma EventBits(evt: byte)
    ensures (evt & 0xF) & 0x7 == evt & 7
  {}

  lemma OneBit(x: byte)
    ensures (x & 0x1 != 0) == (x & 1 == 1)
  {}

  lemma ReceivedInfoFields(h: AnyHeader, payloadLen: nat)
    requires payloadLen <= MaxPayload(h)
    ensures var u, i := Received(h, payloadLen).Info(), h.Info();
            && u.busId == i.busId & 0x7FF && u.evt == i.evt & 0xF && u.ms == i.ms & 0x1 && u.rss == i.rss & 0xFFF
            && u.transactionNum == i.transactionNum && u.rsp == i.rsp & 0x1 && u.err == i.err & 0x1
            && u.op == WireOp(i.op)
            && Received(h, payloadLen).GbbInfo? == h.GbbInfo?
            && (h.GbbInfo? ==>
                  u.mtv == i.mtv & 0x1
                  && (i.mtv & 1 == 1 ==> Received(h, payloadLen).gbb.timestamp == h.gbb.timestamp))
  {
    hide Quadlets; hide Field; hide Octet; hide PadLen; hide Truncated;
    QuadletsBound(HeaderLen(TypeOf(h)), payloadLen);
    var len := Field(Quadlets(HeaderLen(TypeOf(h)), payloadLen));
    var pad := Octet(PadLen(HeaderLen(TypeOf(h)) + payloadLen));
    InfoOfTruncated(TypeOf(h), len, h.Info().(pad := pad));
    ValidIsTimed(h.Info().mtv);
  }

  lemma ValidIsTimed(mtv: byte)
    ensures mtv & 1 == 1 ==> mtv != MTV_UNTIMED
  {}

  lemma InfoOfTruncated(msgType: byte, msgLength: bv16, h: Header)
    ensures var u := Truncated(msgType, msgLength, h);
            && u.busId == h.busId & 0x7FF && u.evt == h.evt & 0xF && u.ms == h.ms & 0x1 && u.rss == h.rss & 0xFFF
            && u.transactionNum == h.transactionNum && u.rsp == h.rsp & 0x1 && u.err == h.err & 0x1
            && u.op == WireOp(h.op) && u.mtv == h.mtv & 0x1
  {}

  /** A message of another type is told apart from one that is too short. */
  lemma BadTypeExactlyWhen(b: seq<byte>, expectedBus: bv16)
    ensures DecodeFragment(b, expectedBus) == Err(CanBadMsgType) <==>
              |b| >= 8 && b[0] >> 1 != 0x0D && b[0] >> 1 != 0x0E
  {
    hide FieldValue; hide OctetValue; hide GetU64; hide Narrow;
    AbbDecodesExactlyWhen(b);
    GbbDecodesExactlyWhen(b);
    if |b| >= 8 {
      TypeIsUnpacked(b);
    }
    hide DecodeAbb; hide DecodeGbb; hide UnpackHeader;
  }

  lemma TypeIsUnpacked(b: seq<byte>)
    requires |b| >= 8
    ensures UnpackHeader(b).msgType == b[0] >> 1
  {}

  lemma HeaderDirection(kind: Kind, busId: bv16, transactionNum: byte, ms: byte, segmentNum: bv16)
    ensures var h := MessageHeader(kind, busId, transactionNum, ms, segmentNum);
            && h.Info().op == (if kind.FrameRequest? then OP_WRITE else OP_READ)
            && h.Info().rsp == (if kind.FrameRequest? then 0 else 1)
            && h.Info().err == 0
            && h.GbbInfo? == (kind.FrameResponse? && kind.timestamp.Some?)
  {}

  lemma BitsAndOperations()
    ensures (0 as byte) & 0x1 == 0 && (1 as byte) & 0x1 == 1
    ensures WireOp(OP_WRITE) == OP_WRITE && WireOp(OP_READ) == OP_READ
  {}

  /** Requests travel as writes, responses as reads marked as a response; neither as an error. */
  lemma MessageDirection(kind: Kind, busId: bv16, transactionNum: byte, combined: seq<byte>, maxFragment: nat, n: nat,
                         i: nat)
    requires IsPlan(|combined|, maxFragment, n) && i < n
    requires SegmentMessage(kind, busId, transactionNum, combined, maxFragment, n, i).Some?
    ensures var message := SegmentMessage(kind, busId, transactionNum, combined, maxFragment, n, i).value;
            var timed := kind.FrameResponse? && kind.timestamp.Some?;
            var decoded := DecodeAny(if timed then 0x0D else 0x0E, message);
            && decoded.Ok?
            && var h := decoded.value.0.Info();
               && h.op == (if kind.FrameRequest? then OP_WRITE else OP_READ)
               && h.rsp == (if kind.FrameRequest? then 0 else 1)
               && h.err == 0
  {
    hide EncodeAny; hide DecodeAny; hide Received; hide Runs.PlannedSlice; hide IsPlan; hide PlannedSegment;
    hide MessageHeader; hide WireOp; hide MaxPayload; hide Field;
    var segment := PlannedSegment(|combined|, maxFragment, n, i);
    var slice := Runs.PlannedSlice(combined, maxFragment, n, i);
    var h := SegmentHeader(kind, busId, transactionNum, segment);
    HeaderDirection(kind, busId, transactionNum, if segment.ms then 1 else 0,
                    if segment.ms then Field(segment.segmentNum) else 0);
    BitsAndOperations();
    EncodableExactlyWhen(h, slice);
    DecodeEncodedAny(h, slice);
    ReceivedInfoFields(h, |slice|);
  }
}
