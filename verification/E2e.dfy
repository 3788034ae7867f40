/** End-to-end protection (`src/e2e.c`): the CRC32 trailer of section 13.6 (Figures 20 and
    21) of the OPEN Alliance TC18 Remote Control Protocol specification, placed between the
    real payload and its pad octets. */
module E2e {
  import opened Octets
  import opened Wrappers
  import opened Acf
  import opened Crc
  import opened CrcDetection

  const CRC_LEN: nat := 4
  const SUBTYPE_TSCF: byte := 0x05
  const SUBTYPE_NTSCF: byte := 0x82

  /** The AVTPDU header values that enter the checksum. */
  datatype Context = Context(subtype: byte, octet1: byte, tu: bool, streamId: StreamId, timestamp: bv32)

  datatype E2eResult = E2eOk | E2eShortFrame | E2eCrcMismatch

  // --- Checksums ----------------------------------------------------------------

  function Span(ctx: Context): (s: seq<byte>)
    ensures |s| == 15
  {
    [ctx.subtype, ctx.octet1, if ctx.tu then 1 else 0] + PutU64(ctx.streamId.bits) + PutU32(ctx.timestamp)
  }

  function FrameCrc(ctx: Context, covered: seq<byte>): bv32 {
    Crc32(Span(ctx) + covered)
  }

  /** The checksum of a fragmented message: the first fragment's header, then every payload. */
  function FragmentedCrc(ctx: Context, firstHeader: seq<byte>, reassembled: seq<byte>): bv32 {
    Crc32(Span(ctx) + (firstHeader + reassembled))
  }

  /** What enters a checksum first (Figures 20 and 21): the subtype, octet 1, the
      timestamp-uncertain bit, and stream identifier and timestamp in network order. */
  lemma SpanLayout(ctx: Context)
    ensures Span(ctx)[0] == ctx.subtype && Span(ctx)[1] == ctx.octet1 && Span(ctx)[2] == (if ctx.tu then 1 else 0)
    ensures GetU64(Span(ctx)[3..11]) == ctx.streamId.bits && GetU32(Span(ctx)[11..15]) == ctx.timestamp
  {
    hide PutU64; hide GetU64; hide PutU32; hide GetU32;
    GetPutU64(ctx.streamId.bits);
    GetPutU32(ctx.timestamp);
    assert Span(ctx)[3..11] == PutU64(ctx.streamId.bits);
    assert Span(ctx)[11..15] == PutU32(ctx.timestamp);
  }

  method ComputeCrc(ctx: Context, covered: seq<byte>) returns (crc: bv32)
    ensures crc == FrameCrc(ctx, covered)
  {
    hide Absorb; hide PutU64; hide PutU32;
    var fixed := [ctx.subtype, ctx.octet1, if ctx.tu then 1 else 0];
    crc := AbsorbLoop(AllOnes(), fixed);
    crc := AbsorbLoop(crc, PutU64(ctx.streamId.bits));
    crc := AbsorbLoop(crc, PutU32(ctx.timestamp));
    crc := AbsorbLoop(crc, covered);
    AbsorbConcat(AllOnes(), fixed, PutU64(ctx.streamId.bits));
    AbsorbConcat(AllOnes(), fixed + PutU64(ctx.streamId.bits), PutU32(ctx.timestamp));
    AbsorbConcat(AllOnes(), Span(ctx), covered);
    crc := Xor(crc, AllOnes());
  }

  method ComputeFragmentedCrc(ctx: Context, firstHeader: seq<byte>, reassembled: seq<byte>) returns (crc: bv32)
    ensures crc == FragmentedCrc(ctx, firstHeader, reassembled)
  {
    hide Absorb; hide PutU64; hide PutU32;
    var fixed := [ctx.subtype, ctx.octet1, if ctx.tu then 1 else 0];
    crc := AbsorbLoop(AllOnes(), fixed);
    crc := AbsorbLoop(crc, PutU64(ctx.streamId.bits));
    crc := AbsorbLoop(crc, PutU32(ctx.timestamp));
    crc := AbsorbLoop(crc, firstHeader);
    crc := AbsorbLoop(crc, reassembled);
    AbsorbConcat(AllOnes(), fixed, PutU64(ctx.streamId.bits));
    AbsorbConcat(AllOnes(), fixed + PutU64(ctx.streamId.bits), PutU32(ctx.timestamp));
    AbsorbConcat(AllOnes(), Span(ctx), firstHeader);
    AbsorbConcat(AllOnes(), Span(ctx) + firstHeader, reassembled);
    assert Span(ctx) + firstHeader + reassembled == Span(ctx) + (firstHeader + reassembled);
    crc := Xor(crc, AllOnes());
  }

  // --- The length and pad fields, by offset ---------------------------------------

  function PadField(octet2: byte): byte {
    (octet2 >> 6) & 0x3
  }

  function PadOctets(frame: seq<byte>): (pad: nat)
    ensures pad < 4 && pad <= |frame|
  {
    if |frame| < 3 then 0 else PadFieldBound(frame[2]); OctetValue(PadField(frame[2]))
  }

  lemma PadFieldBound(octet2: byte)
    ensures OctetValue(PadField(octet2)) < 4
  {}

  function LengthField(octet0: byte, octet1: byte): bv16 {
    (((octet0 & 0x1) as bv16) << 8) | (octet1 as bv16)
  }

  /** Octet 0 with the top bit of a new length; the message type is kept. */
  function LengthHigh(octet0: byte, length: bv16): byte {
    (octet0 & 0xFE) | (((length >> 8) & 0x1) as byte)
  }

  function AdaptLength(frame: seq<byte>, delta: int): (adapted: Option<seq<byte>>)
    ensures adapted.Some? ==> |adapted.value| == |frame| && |frame| >= 2 && adapted.value[2..] == frame[2..]
  {
    if |frame| < 2 then None
    else
      var adapted := FieldValue(LengthField(frame[0], frame[1])) + delta;
      if adapted < 0 || adapted > 0x1FF then None
      else Some([LengthHigh(frame[0], Field(adapted)), LowOctet(Field(adapted))] + frame[2..])
  }

  method AdaptInPlace(frame: array<byte>, frameLen: nat, delta: int) returns (ok: bool)
    requires frameLen <= frame.Length
    modifies frame
    ensures ok == AdaptLength(old(frame[..frameLen]), delta).Some?
    ensures ok ==> frame[..frameLen] == AdaptLength(old(frame[..frameLen]), delta).value
    ensures ok ==> frame[frameLen..] == old(frame[frameLen..])
    ensures !ok ==> frame[..] == old(frame[..])
  {
    hide LengthField; hide LengthHigh; hide LowOctet; hide FieldValue; hide Field;
    if frameLen < 2 {
      return false;
    }
    var adapted := FieldValue(LengthField(frame[0], frame[1])) + delta;
    if adapted < 0 || adapted > 0x1FF {
      return false;
    }
    frame[0], frame[1] := LengthHigh(frame[0], Field(adapted)), LowOctet(Field(adapted));
    return true;
  }

  lemma LengthReadsBack(octet0: byte, length: bv16)
    requires length <= 0x1FF
    ensures LengthField(LengthHigh(octet0, length), LowOctet(length)) == length
  {}

  lemma LengthRestores(octet0: byte, octet1: byte, length: bv16)
    ensures LengthHigh(LengthHigh(octet0, length), LengthField(octet0, octet1)) == octet0
    ensures LowOctet(LengthField(octet0, octet1)) == octet1
  {}

  lemma LengthFieldBound(octet0: byte, octet1: byte)
    ensures LengthField(octet0, octet1) <= 0x1FF
    ensures FieldValue(LengthField(octet0, octet1)) <= 0x1FF
  {}

  lemma FieldBound(n: nat)
    requires n <= 0x1FF
    ensures Field(n) <= 0x1FF
  {}

  /** A length is adapted exactly when the frame has the field and the new length fits its
      nine bits; then the field holds the new length, and no other bit changes. */
  lemma AdaptedExactlyWhen(frame: seq<byte>, delta: int)
    ensures AdaptLength(frame, delta).Some? <==>
              |frame| >= 2 && 0 <= FieldValue(LengthField(frame[0], frame[1])) + delta <= 0x1FF
    ensures AdaptLength(frame, delta).Some? ==>
              var adapted := AdaptLength(frame, delta).value;
              && |adapted| == |frame| && adapted[2..] == frame[2..] && adapted[0] >> 1 == frame[0] >> 1
              && FieldValue(LengthField(adapted[0], adapted[1])) == FieldValue(LengthField(frame[0], frame[1])) + delta
  {
    hide LengthField; hide LengthHigh; hide LowOctet; hide FieldValue; hide Field;
    if AdaptLength(frame, delta).Some? {
      var adapted := FieldValue(LengthField(frame[0], frame[1])) + delta;
      FieldBound(adapted);
      ValueOfField(adapted);
      LengthReadsBack(frame[0], Field(adapted));
      TypeBitsKept(frame[0], Field(adapted));
    }
  }

  lemma TypeBitsKept(octet0: byte, length: bv16)
    ensures LengthHigh(octet0, length) >> 1 == octet0 >> 1
  {}

  /** Adapting the length back restores the frame. */
  lemma AdaptBack(frame: seq<byte>, delta: int)
    requires AdaptLength(frame, delta).Some?
    ensures AdaptLength(AdaptLength(frame, delta).value, -delta) == Some(frame)
  {
    hide LengthField; hide LengthHigh; hide LowOctet; hide FieldValue; hide Field;
    var field := LengthField(frame[0], frame[1]);
    var adapted := FieldValue(field) + delta;
    FieldBound(adapted);
    ValueOfField(adapted);
    LengthReadsBack(frame[0], Field(adapted));
    LengthFieldBound(frame[0], frame[1]);
    FieldOfValue(field);
    LengthRestores(frame[0], frame[1], Field(adapted));
    assert frame == [frame[0], frame[1]] + frame[2..];
  }

  // --- Wrap and unwrap -----------------------------------------------------------------

  /** The real octets with their length raised by one quadlet. */
  function Lengthened(frame: seq<byte>): Option<seq<byte>> {
    AdaptLength(frame[..RealOctets(frame)], 1)
  }

  /** The octets ahead of the padding. */
  function RealOctets(frame: seq<byte>): (n: nat)
    ensures n <= |frame|
  {
    |frame| - PadOctets(frame)
  }

  /** Real octets, trailer, pad octets. */
  function Sealed(frame: seq<byte>, crc: bv32): seq<byte>
    requires Lengthened(frame).Some?
  {
    Lengthened(frame).value + PutU32(crc) + frame[RealOctets(frame)..]
  }

  /** The protected frame. */
  function Wrapped(ctx: Context, frame: seq<byte>): Option<seq<byte>> {
    if |frame| % 4 != 0 || Lengthened(frame).None? then None
    else Some(Sealed(frame, FrameCrc(ctx, Lengthened(frame).value)))
  }

  /** The octets of a protected frame that the checksum covers. */
  function RealLen(frame: seq<byte>): nat
    requires PadOctets(frame) + CRC_LEN <= |frame|
  {
    |frame| - CRC_LEN - PadOctets(frame)
  }

  function Trailer(frame: seq<byte>): bv32
    requires PadOctets(frame) + CRC_LEN <= |frame|
  {
    GetU32(frame[RealLen(frame)..])
  }

  /** The frame without its trailer, its length lowered again when it has the field. */
  function Body(frame: seq<byte>): seq<byte>
    requires PadOctets(frame) + CRC_LEN <= |frame|
  {
    var realLen := RealLen(frame);
    (match AdaptLength(frame[..realLen], -1)
     case None => frame[..realLen]
     case Some(data) => data) + frame[realLen + CRC_LEN..]
  }

  function Unwrapped(ctx: Context, frame: seq<byte>): (E2eResult, seq<byte>) {
    if |frame| < CRC_LEN || PadOctets(frame) + CRC_LEN > |frame| then (E2eShortFrame, [])
    else
      (if Trailer(frame) == FrameCrc(ctx, frame[..RealLen(frame)]) then E2eOk else E2eCrcMismatch, Body(frame))
  }

  /** Unwrapping strips the frame whatever the checksum says. */
  lemma UnwrappedBody(ctx: Context, frame: seq<byte>)
    requires PadOctets(frame) + CRC_LEN <= |frame|
    ensures Unwrapped(ctx, frame).1 == Body(frame) && Unwrapped(ctx, frame).0 != E2eShortFrame
  {
    hide PadOctets; hide Trailer; hide FrameCrc; hide Body;
  }

  method Wrap(ctx: Context, frame: seq<byte>) returns (out: array?<byte>)
    ensures out == null <==> Wrapped(ctx, frame).None?
    ensures out != null ==> fresh(out) && out[..] == Wrapped(ctx, frame).value
  {
    hide FrameCrc; hide PadOctets; hide PutU32; hide AdaptLength;
    if |frame| % 4 != 0 {
      return null;
    }
    var realLen := RealOctets(frame);
    var data := new byte[|frame| + CRC_LEN];
    forall i | 0 <= i < realLen {
      data[i] := frame[i];
    }
    assert data[..realLen] == frame[..realLen];
    var ok := AdaptInPlace(data, realLen, 1);
    if !ok {
      return null;
    }
    ghost var adapted := data[..realLen];
    var crc := ComputeCrc(ctx, data[..realLen]);
    StoreU32(data, realLen, crc);
    assert data[..][..realLen + CRC_LEN] == adapted + PutU32(crc);
    CopyTail(data, realLen + CRC_LEN, frame[realLen..]);
    return data;
  }

  method CopyTail(data: array<byte>, at: nat, tail: seq<byte>)
    requires at + |tail| == data.Length
    modifies data
    ensures data[..] == old(data[..at]) + tail
  {
    forall i | at <= i < data.Length {
      data[i] := tail[i - at];
    }
  }

  method Unwrap(ctx: Context, frame: seq<byte>) returns (result: E2eResult, out: array<byte>)
    ensures (result, out[..]) == Unwrapped(ctx, frame)
    ensures fresh(out)
  {
    hide FrameCrc; hide PadField; hide OctetValue; hide GetU32; hide AdaptLength;
    if |frame| < CRC_LEN {
      out := new byte[0];
      assert out[..] == [];
      return E2eShortFrame, out;
    }
    var pad := PadOctets(frame);
    if pad + CRC_LEN > |frame| {
      out := new byte[0];
      assert out[..] == [];
      return E2eShortFrame, out;
    }
    var realLen := |frame| - CRC_LEN - pad;
    var got := GetU32(frame[realLen..]);
    var want := ComputeCrc(ctx, frame[..realLen]);
    out := new byte[realLen + pad];
    forall i | 0 <= i < realLen + pad {
      out[i] := if i < realLen then frame[i] else frame[i + CRC_LEN];
    }
    assert out[..realLen] == frame[..realLen];
    assert out[realLen..] == frame[realLen + CRC_LEN..];
    var adapted := AdaptInPlace(out, realLen, -1);
    assert out[..] == out[..realLen] + out[realLen..];
    result := if got == want then E2eOk else E2eCrcMismatch;
  }

  // --- Wrap then unwrap ------------------------------------------------------------------

  /** The parts of a sealed frame, by position. */
  lemma SealedLayout(frame: seq<byte>, crc: bv32)
    requires Lengthened(frame).Some?
    ensures var w := Sealed(frame, crc);
            var realLen := RealOctets(frame);
            && |w| == |frame| + CRC_LEN
            && w[..realLen] == Lengthened(frame).value
            && w[realLen..] == PutU32(crc) + frame[realLen..]
            && w[realLen + CRC_LEN..] == frame[realLen..]
            && (forall i :: 2 <= i < realLen ==> w[i] == frame[i])
  {
    hide PutU32; hide AdaptLength; hide PadOctets;
    var realLen := RealOctets(frame);
    var data := Lengthened(frame).value;
    forall i | 2 <= i < realLen
      ensures data[i] == frame[i]
    {
      assert data[i] == data[2..][i - 2] == frame[..realLen][2..][i - 2];
    }
  }

  /** A frame can be protected exactly when it is a whole number of quadlets and its length
      field is there and can count one more. On the wire the trailer then stands behind the
      real octets and ahead of the pad octets, in network order, and is the checksum of header
      values and real octets, their length raised; nothing else changes. */
  lemma WrappedLayout(ctx: Context, frame: seq<byte>)
    ensures Wrapped(ctx, frame).Some? <==>
              && |frame| % 4 == 0 && RealOctets(frame) >= 2
              && FieldValue(LengthField(frame[0], frame[1])) < 0x1FF
    ensures Wrapped(ctx, frame).Some? ==>
              var w, n := Wrapped(ctx, frame).value, RealOctets(frame);
              && |w| == |frame| + 4
              && FieldValue(LengthField(w[0], w[1])) == FieldValue(LengthField(frame[0], frame[1])) + 1
              && w[0] >> 1 == frame[0] >> 1
              && w[2..n] == frame[2..n]
              && GetU32(w[n..n + 4]) == Crc32(Span(ctx) + w[..n])
              && w[n + 4..] == frame[n..]
  {
    hide PutU32; hide GetU32; hide Crc32; hide AdaptLength; hide PadOctets; hide LengthField; hide FieldValue;
    var n := RealOctets(frame);
    AdaptedExactlyWhen(frame[..n], 1);
    if |frame| % 4 == 0 && Lengthened(frame).Some? {
      var crc := FrameCrc(ctx, Lengthened(frame).value);
      var w := Sealed(frame, crc);
      LayoutOfSealed(frame, crc);
      GetPutU32(crc);
      assert w[0] == w[..n][0] && w[1] == w[..n][1] && frame[0] == frame[..n][0] && frame[1] == frame[..n][1];
      assert w[2..n] == w[..n][2..] == frame[..n][2..] == frame[2..n];
    }
  }

  lemma LayoutOfSealed(frame: seq<byte>, crc: bv32)
    requires Lengthened(frame).Some?
    ensures var w, n := Sealed(frame, crc), RealOctets(frame);
            && |w| == |frame| + 4 && w[..n] == Lengthened(frame).value
            && w[n..n + 4] == PutU32(crc) && w[n + 4..] == frame[n..]
  {
    hide PutU32; hide AdaptLength; hide PadOctets;
  }

  /** A reception is too short exactly when it cannot hold pad octets and trailer, and otherwise
      accepted exactly when the four octets ahead of the padding are the checksum of header
      values and everything before them. Those four octets are left out of what is returned. */
  lemma AcceptedExactlyWhen(ctx: Context, frame: seq<byte>)
    ensures var n := |frame| - 4 - PadOctets(frame);
            && (Unwrapped(ctx, frame).0 == E2eShortFrame <==> n < 0)
            && (Unwrapped(ctx, frame).0 == E2eOk <==>
                  n >= 0 && GetU32(frame[n..n + 4]) == Crc32(Span(ctx) + frame[..n]))
            && (n >= 0 ==>
                  var body := Unwrapped(ctx, frame).1;
                  && |body| == |frame| - 4 && body[n..] == frame[n + 4..]
                  && (n >= 2 ==> body[2..n] == frame[2..n] && body[0] >> 1 == frame[0] >> 1)
                  && (n >= 2 && FieldValue(LengthField(frame[0], frame[1])) > 0 ==>
                        FieldValue(LengthField(body[0], body[1])) == FieldValue(LengthField(frame[0], frame[1])) - 1))
  {
    hide GetU32; hide Crc32; hide AdaptLength; hide PadOctets; hide LengthField; hide FieldValue;
    var n := |frame| - 4 - PadOctets(frame);
    if n >= 0 {
      var t := frame[n..];
      assert t == t[..4] + t[4..] && t[..4] == frame[n..n + 4];
      GetU32ReadsPrefix(t[..4], t[4..]);
      BodyLayout(frame);
    }
  }

  lemma BodyLayout(frame: seq<byte>)
    requires PadOctets(frame) + CRC_LEN <= |frame|
    ensures var n, body := RealLen(frame), Body(frame);
            && |body| == |frame| - 4 && body[n..] == frame[n + 4..]
            && (n >= 2 ==> body[2..n] == frame[2..n] && body[0] >> 1 == frame[0] >> 1)
            && (n >= 2 && FieldValue(LengthField(frame[0], frame[1])) > 0 ==>
                  FieldValue(LengthField(body[0], body[1])) == FieldValue(LengthField(frame[0], frame[1])) - 1)
  {
    hide AdaptLength; hide PadOctets; hide LengthField; hide FieldValue;
    var n, body := RealLen(frame), Body(frame);
    var covered := frame[..n];
    AdaptedExactlyWhen(covered, -1);
    if n >= 2 {
      LengthFieldBound(frame[0], frame[1]);
      assert covered[0] == frame[0] && covered[1] == frame[1];
      assert body[..n][2..] == covered[2..];
      assert body[2..n] == body[..n][2..];
      assert body[0] == body[..n][0] && body[1] == body[..n][1];
    }
  }

  /** For one trailer, the pad field is read back exactly when three real octets precede it or
      it happens to repeat the field. */
  lemma PadFieldUnder(frame: seq<byte>, crc: bv32)
    requires |frame| >= 3 && Lengthened(frame).Some?
    ensures PadOctets(Sealed(frame, crc)) == PadOctets(frame) <==>
              RealOctets(frame) >= 3 || OctetValue(PadField(PutU32(crc)[0])) == PadOctets(frame)
  {
    hide PutU32; hide AdaptLength; hide PadField; hide OctetValue;
    SealedLayout(frame, crc);
    LengthenedHasPad(frame);
    var realLen := RealOctets(frame);
    var w := Sealed(frame, crc);
    if realLen < 3 {
      assert w[2] == w[realLen..][2 - realLen];
    }
  }

  /** A sealed frame whose pad field survived gives its trailer and its body back. */
  lemma SealedReads(frame: seq<byte>, crc: bv32)
    requires Lengthened(frame).Some?
    requires PadOctets(Sealed(frame, crc)) == PadOctets(frame)
    ensures var w := Sealed(frame, crc);
            && PadOctets(w) + CRC_LEN <= |w|
            && RealLen(w) == RealOctets(frame)
            && Trailer(w) == crc
            && Body(w) == frame
  {
    hide PutU32; hide GetU32; hide AdaptLength; hide PadField; hide OctetValue;
    SealedLayout(frame, crc);
    var realLen := RealOctets(frame);
    AdaptBack(frame[..realLen], 1);
    GetPutU32(crc);
    GetU32ReadsPrefix(PutU32(crc), frame[realLen..]);
    assert frame == frame[..realLen] + frame[realLen..];
  }

  /** Wrap, then unwrap: byte-identical, whenever the pad field is read back. */
  lemma UnwrapWrapped(ctx: Context, frame: seq<byte>)
    requires Wrapped(ctx, frame).Some?
    requires PadOctets(Wrapped(ctx, frame).value) == PadOctets(frame)
    ensures Unwrapped(ctx, Wrapped(ctx, frame).value) == (E2eOk, frame)
  {
    hide FrameCrc; hide Sealed; hide Body; hide Trailer; hide AdaptLength; hide PadField; hide OctetValue;
    var crc := FrameCrc(ctx, Lengthened(frame).value);
    LengthenedHasPad(frame);
    SealedReads(frame, crc);
    SealedLayout(frame, crc);
  }

  lemma LengthenedHasPad(frame: seq<byte>)
    requires Lengthened(frame).Some?
    ensures RealOctets(frame) >= 2
  {
    hide FieldValue; hide Field; hide PadField; hide OctetValue;
  }

  /** Whatever the other header values, some timestamp makes the checksum of these octets
      any value at all. */
  lemma TimestampGivesAnyChecksum(ctx: Context, covered: seq<byte>, target: bv32) returns (timestamp: bv32)
    ensures FrameCrc(ctx.(timestamp := timestamp), covered) == target
  {
    hide Crc32; hide PutU32; hide PutU64;
    var fixed := [ctx.subtype, ctx.octet1, if ctx.tu then 1 else 0] + PutU64(ctx.streamId.bits);
    timestamp := FourOctetsGiveAnyChecksum(fixed, covered, target);
    assert Span(ctx.(timestamp := timestamp)) + covered == fixed + PutU32(timestamp) + covered;
  }

  /** A frame of two real octets, under a trailer of zeros: its third octet is not returned. */
  lemma ZeroTrailerLosesOctet(frame: seq<byte>)
    requires |frame| >= 3 && Lengthened(frame).Some? && RealOctets(frame) < 3
    ensures var w := Sealed(frame, 0);
            PadOctets(w) + CRC_LEN <= |w| && Body(w) != frame
  {
    hide PutU32; hide AdaptLength; hide PadField; hide OctetValue;
    SealedLayout(frame, 0);
    LengthenedHasPad(frame);
    PadFieldUnder(frame, 0);
    ZeroPadField();
    var w := Sealed(frame, 0);
    assert w[2] == w[2..][0] == PutU32(0)[0];
    assert PadOctets(w) == 0;
    assert w[..RealLen(w)][2] == w[2];
    if AdaptLength(w[..RealLen(w)], -1).Some? {
      assert AdaptLength(w[..RealLen(w)], -1).value[2..][0] == w[..RealLen(w)][2..][0];
    }
    assert Body(w)[2] == w[2];
  }

  lemma ZeroPadField()
    ensures OctetValue(PadField(PutU32(0)[0])) == 0
  {}

  /** Wrap then unwrap, over the trailers that are really computed: the frame comes back under
      all header values exactly when three real octets precede the trailer. Otherwise each
      choice of the other header values has a timestamp under which it does not. */
  lemma RoundTripExactlyWhen(frame: seq<byte>)
    requires |frame| % 4 == 0 && Lengthened(frame).Some?
    ensures (forall ctx :: Unwrapped(ctx, Wrapped(ctx, frame).value) == (E2eOk, frame)) <==> RealOctets(frame) >= 3
  {
    hide FrameCrc; hide Sealed; hide Unwrapped; hide PadOctets; hide AdaptLength;
    LengthenedHasPad(frame);
    if RealOctets(frame) >= 3 {
      forall ctx
        ensures Unwrapped(ctx, Wrapped(ctx, frame).value) == (E2eOk, frame)
      {
        PadFieldUnder(frame, FrameCrc(ctx, Lengthened(frame).value));
        UnwrapWrapped(ctx, frame);
      }
    } else {
      var ctx := SomeContextLosesFrame(Context(0, 0, false, StreamId(0), 0), frame);
      assert Unwrapped(ctx, Wrapped(ctx, frame).value) != (E2eOk, frame);
    }
  }

  lemma SomeContextLosesFrame(ctx: Context, frame: seq<byte>) returns (ctx': Context)
    requires |frame| >= 3 && |frame| % 4 == 0 && Lengthened(frame).Some? && RealOctets(frame) < 3
    ensures ctx' == ctx.(timestamp := ctx'.timestamp)
    ensures Unwrapped(ctx', Wrapped(ctx', frame).value).1 != frame
  {
    hide FrameCrc; hide Sealed; hide Unwrapped; hide PadOctets; hide AdaptLength; hide Body;
    var timestamp := TimestampGivesAnyChecksum(ctx, Lengthened(frame).value, 0);
    ctx' := ctx.(timestamp := timestamp);
    ZeroTrailerLosesOctet(frame);
    UnwrappedBody(ctx', Sealed(frame, 0));
  }

  /** Two real octets and two pad octets: for all other header values there is a timestamp
      under which unwrapping the wrapped frame does not return it. */
  lemma ShortFrameIsLost(ctx: Context) returns (ctx': Context)
    ensures ctx' == ctx.(timestamp := ctx'.timestamp)
    ensures var frame := [0x1C, 1, 0x80, 0];
            && Wrapped(ctx', frame).Some?
            && Unwrapped(ctx', Wrapped(ctx', frame).value).1 != frame
  {
    hide FrameCrc; hide Sealed; hide Unwrapped;
    var frame: seq<byte> := [0x1C, 1, 0x80, 0];
    assert PadOctets(frame) == 2 && RealOctets(frame) == 2;
    ShortLengthened(frame);
    ctx' := SomeContextLosesFrame(ctx, frame);
  }

  lemma ShortLengthened(frame: seq<byte>)
    requires frame == [0x1C, 1, 0x80, 0]
    ensures Lengthened(frame).Some?
  {}

  // --- Frames of the ACF encoders ------------------------------------------------------------

  /** What section 13.6 asks of a frame handed to `Wrap`. */
  ghost predicate AcfShaped(frame: seq<byte>) {
    && |frame| % 4 == 0
    && |frame| >= ABB_HEADER_LEN
    && |frame| / 4 <= MAX_QUADLETS
    && FieldValue(LengthField(frame[0], frame[1])) == |frame| / 4
  }

  lemma LengthFieldIsUnpacked(frame: seq<byte>)
    requires |frame| >= ABB_HEADER_LEN
    ensures LengthField(frame[0], frame[1]) == UnpackHeader(frame).msgLength
    ensures PadField(frame[2]) == UnpackHeader(frame).pad
  {}

  lemma PaddedHeaderIsAcfShaped(msgType: byte, headerLen: nat, h: Header, payload: seq<byte>, rest: seq<byte>)
    requires msgType <= 0x7F && headerLen >= ABB_HEADER_LEN && headerLen + |payload| <= MAX_QUADLETS * 4
    requires |rest| == headerLen - ABB_HEADER_LEN + |payload| + PadLen(headerLen + |payload|)
    ensures AcfShaped(PaddedHeader(msgType, headerLen, h, |payload|) + rest)
    ensures PadOctets(PaddedHeader(msgType, headerLen, h, |payload|) + rest) == PadLen(headerLen + |payload|)
  {
    hide LengthField; hide PadField; hide FieldValue; hide OctetValue; hide PaddedHeader; hide UnpackHeader;
    hide Truncated;
    var frame := PaddedHeader(msgType, headerLen, h, |payload|) + rest;
    UnpackPaddedHeader(msgType, headerLen, h, |payload|, rest);
    LengthFieldIsUnpacked(frame);
    QuadletsBound(headerLen, |payload|);
  }

  lemma AbbIsAcfShaped(h: Header, payload: seq<byte>)
    requires AbbFrame(h, payload).Some?
    ensures AcfShaped(AbbFrame(h, payload).value)
    ensures PadOctets(AbbFrame(h, payload).value) == PadLen(ABB_HEADER_LEN + |payload|)
  {
    hide AcfShaped; hide PaddedHeader; hide PadOctets; hide PadLen;
    var rest := payload + Zeros(PadLen(ABB_HEADER_LEN + |payload|));
    PaddedHeaderIsAcfShaped(MSG_TYPE_ABB, ABB_HEADER_LEN, h, payload, rest);
    assert AbbFrame(h, payload).value == PaddedHeader(MSG_TYPE_ABB, ABB_HEADER_LEN, h, |payload|) + rest;
  }

  lemma GbbIsAcfShaped(h: GbbHeader, payload: seq<byte>)
    requires GbbFrame(h, payload).Some?
    ensures AcfShaped(GbbFrame(h, payload).value)
    ensures PadOctets(GbbFrame(h, payload).value) == PadLen(GBB_HEADER_LEN + |payload|)
  {
    hide AcfShaped; hide PaddedHeader; hide PadOctets; hide PadLen; hide PutU64;
    var rest := PutU64(WireTimestamp(h)) + (payload + Zeros(PadLen(GBB_HEADER_LEN + |payload|)));
    PaddedHeaderIsAcfShaped(MSG_TYPE_GBB, GBB_HEADER_LEN, h.info, payload, rest);
    assert GbbFrame(h, payload).value == PaddedHeader(MSG_TYPE_GBB, GBB_HEADER_LEN, h.info, |payload|) + rest;
  }

  /** An encoded frame can be protected exactly when it leaves room for the trailer's
      quadlet, and then unwrapping returns it octet for octet. */
  lemma AcfShapedSurvives(ctx: Context, frame: seq<byte>)
    requires AcfShaped(frame)
    ensures Wrapped(ctx, frame).Some? <==> |frame| / 4 < MAX_QUADLETS
    ensures Wrapped(ctx, frame).Some? ==> Unwrapped(ctx, Wrapped(ctx, frame).value) == (E2eOk, frame)
  {
    hide FrameCrc; hide PadOctets; hide LengthField; hide FieldValue; hide Unwrapped; hide Sealed;
    assert frame[..RealOctets(frame)][0] == frame[0];
    assert frame[..RealOctets(frame)][1] == frame[1];
    if Wrapped(ctx, frame).Some? {
      PadFieldUnder(frame, FrameCrc(ctx, Lengthened(frame).value));
      UnwrapWrapped(ctx, frame);
    }
  }

  /** Protect, unwrap, decode: an ABB message comes back with its fields and payload. */
  lemma ProtectedAbbDecodes(ctx: Context, h: Header, payload: seq<byte>)
    requires ABB_HEADER_LEN + |payload| <= (MAX_QUADLETS - 1) * 4
    ensures var w := Wrapped(ctx, AbbFrame(h, payload).value);
            && w.Some?
            && Unwrapped(ctx, w.value).0 == E2eOk
            && DecodeAbb(Unwrapped(ctx, w.value).1) == Ok((AbbReceived(h, |payload|), payload))
  {
    hide AcfShaped; hide Unwrapped; hide Wrapped; hide DecodeAbb; hide AbbReceived; hide PaddedHeader;
    var frame := AbbFrame(h, payload).value;
    AbbIsAcfShaped(h, payload);
    AcfShapedSurvives(ctx, frame);
    DecodeEncodedAbb(h, payload, []);
    assert frame + [] == frame;
  }

  lemma ProtectedGbbDecodes(ctx: Context, h: GbbHeader, payload: seq<byte>)
    requires GBB_HEADER_LEN + |payload| <= (MAX_QUADLETS - 1) * 4
    ensures var w := Wrapped(ctx, GbbFrame(h, payload).value);
            && w.Some?
            && Unwrapped(ctx, w.value).0 == E2eOk
            && DecodeGbb(Unwrapped(ctx, w.value).1) == Ok((GbbReceived(h, |payload|), payload))
  {
    hide AcfShaped; hide Unwrapped; hide Wrapped; hide DecodeGbb; hide GbbReceived; hide PaddedHeader; hide PutU64;
    var frame := GbbFrame(h, payload).value;
    GbbIsAcfShaped(h, payload);
    AcfShapedSurvives(ctx, frame);
    DecodeEncodedGbb(h, payload, []);
    assert frame + [] == frame;
  }

  // --- What a receiver detects -----------------------------------------------------------------

  ghost predicate Accepted(ctx: Context, frame: seq<byte>) {
    Unwrapped(ctx, frame).0 == E2eOk
  }

  /** Two receptions with the same trailer whose covered octets, AVTPDU header values
      included, differ only inside a window of 32 bits: at most one is accepted. */
  lemma BurstRejected(ctx: Context, frame: seq<byte>, ctx': Context, frame': seq<byte>, first: nat)
    requires Accepted(ctx, frame) && |frame'| == |frame| && PadOctets(frame') == PadOctets(frame)
    requires Trailer(frame') == Trailer(frame)
    requires var a := Span(ctx) + frame[..RealLen(frame)];
             var b := Span(ctx') + frame'[..RealLen(frame)];
             && a != b
             && forall i :: 0 <= i < 8 * |a| && !(first <= i < first + 32) ==> MessageBits(a)[i] == MessageBits(b)[i]
    ensures Unwrapped(ctx', frame').0 == E2eCrcMismatch
  {
    hide MessageBits; hide Crc32; hide PadField; hide OctetValue; hide PutU32; hide PutU64; hide GetU32; hide Body;
    BurstChangesCrc32(Span(ctx) + frame[..RealLen(frame)], Span(ctx') + frame'[..RealLen(frame)], first);
  }

  /** The header values that are checksummed, the covered octets and the trailer. */
  function Checked(ctx: Context, frame: seq<byte>): seq<byte>
    requires PadOctets(frame) + CRC_LEN <= |frame|
  {
    Span(ctx) + frame[..RealLen(frame) + CRC_LEN]
  }

  /** An accepted reception has an even number of set bits in them. */
  lemma AcceptedIsEven(ctx: Context, frame: seq<byte>)
    requires Accepted(ctx, frame)
    ensures !Odd(MessageBits(Checked(ctx, frame)))
  {
    hide MessageBits; hide Crc32; hide PadField; hide OctetValue; hide PutU32; hide PutU64; hide GetU32; hide Body;
    hide Odd;
    var realLen := RealLen(frame);
    var t := frame[realLen..];
    GetU32ReadsPrefix(t[..4], t[4..]);
    assert t == t[..4] + t[4..];
    PutGetU32(t[..4]);
    var data := Span(ctx) + frame[..realLen];
    assert Checked(ctx, frame) == data + PutU32(Trailer(frame));
    MessageWithChecksumIsEven(data);
  }

  /** Two receptions that differ in an odd number of bits, in the header values, the covered
      octets and the trailer, wherever those bits are: at most one is accepted. */
  lemma OddErrorRejected(ctx: Context, frame: seq<byte>, ctx': Context, frame': seq<byte>)
    requires Accepted(ctx, frame) && |frame'| == |frame| && PadOctets(frame') == PadOctets(frame)
    requires OddError(Checked(ctx, frame), Checked(ctx', frame'))
    ensures Unwrapped(ctx', frame').0 == E2eCrcMismatch
  {
    hide MessageBits; hide PadField; hide OctetValue; hide Trailer; hide Body; hide Odd; hide OddError; hide FrameCrc;
    OddErrorChangesParity(Checked(ctx, frame), Checked(ctx', frame'));
    AcceptedIsEven(ctx, frame);
    if Accepted(ctx', frame') {
      AcceptedIsEven(ctx', frame');
    }
  }

  /** Corrupting up to four consecutive covered octets, the pad field apart, is detected. */
  lemma CorruptionRejected(ctx: Context, before: seq<byte>, x: seq<byte>, y: seq<byte>, after: seq<byte>)
    requires |x| == |y| <= 4 && x != y
    requires Accepted(ctx, before + x + after)
    requires |before + x| <= RealLen(before + x + after)
    requires PadOctets(before + y + after) == PadOctets(before + x + after)
    ensures Unwrapped(ctx, before + y + after).0 == E2eCrcMismatch
  {
    hide Crc32; hide PadField; hide OctetValue; hide PutU32; hide PutU64; hide GetU32; hide Body; hide Span;
    hide PadOctets;
    var frame, frame' := before + x + after, before + y + after;
    var realLen := RealLen(frame);
    var covered := after[..realLen - |before| - |x|];
    assert frame[..realLen] == before + x + covered;
    assert frame'[..realLen] == before + y + covered;
    assert frame[realLen..] == frame'[realLen..];
    assert Span(ctx) + frame[..realLen] == (Span(ctx) + before) + x + covered;
    assert Span(ctx) + frame'[..realLen] == (Span(ctx) + before) + y + covered;
    FourOctetsChangeCrc32(Span(ctx) + before, x, y, covered);
  }

  /** Any change to the trailer alone is detected. */
  lemma TrailerChangeRejected(ctx: Context, frame: seq<byte>, frame': seq<byte>)
    requires Accepted(ctx, frame) && |frame'| == |frame| && PadOctets(frame') == PadOctets(frame)
    requires frame'[..RealLen(frame)] == frame[..RealLen(frame)]
    requires frame'[RealLen(frame)..][..4] != frame[RealLen(frame)..][..4]
    ensures Unwrapped(ctx, frame').0 == E2eCrcMismatch
  {
    hide FrameCrc; hide PadField; hide OctetValue; hide PutU32; hide GetU32; hide Body;
    var t, t' := frame[RealLen(frame)..], frame'[RealLen(frame)..];
    GetU32ReadsPrefix(t[..4], t[4..]);
    GetU32ReadsPrefix(t'[..4], t'[4..]);
    assert t == t[..4] + t[4..] && t' == t'[..4] + t'[4..];
    PutGetU32(t[..4]);
    PutGetU32(t'[..4]);
  }

  function HighHalf(v: bv64): bv32 {
    (v >> 32) as bv32
  }

  function LowHalf(v: bv64): bv32 {
    (v & 0xFFFF_FFFF) as bv32
  }

  lemma HalvesDetermine(v: bv64, u: bv64)
    requires HighHalf(v) == HighHalf(u) && LowHalf(v) == LowHalf(u)
    ensures v == u
  {}

  lemma PutHalves(v: bv64)
    ensures PutU64(v) == PutU32(HighHalf(v)) + PutU32(LowHalf(v))
  {
    PutHigh(v);
    PutLow(v);
    hide PutU64; hide PutU32; hide HighHalf; hide LowHalf;
    assert PutU64(v) == PutU64(v)[..4] + PutU64(v)[4..];
  }

  lemma OctetsOfHigh(v: bv64)
    ensures (v >> 56) as byte == (HighHalf(v) >> 24) as byte
    ensures ((v >> 48) & 0xFF) as byte == ((HighHalf(v) >> 16) & 0xFF) as byte
    ensures ((v >> 40) & 0xFF) as byte == ((HighHalf(v) >> 8) & 0xFF) as byte
    ensures ((v >> 32) & 0xFF) as byte == (HighHalf(v) & 0xFF) as byte
  {}

  lemma OctetsOfLow(v: bv64)
    ensures ((v >> 24) & 0xFF) as byte == (LowHalf(v) >> 24) as byte
    ensures ((v >> 16) & 0xFF) as byte == ((LowHalf(v) >> 16) & 0xFF) as byte
    ensures ((v >> 8) & 0xFF) as byte == ((LowHalf(v) >> 8) & 0xFF) as byte
    ensures (v & 0xFF) as byte == (LowHalf(v) & 0xFF) as byte
  {}

  lemma PutHigh(v: bv64)
    ensures PutU64(v)[..4] == PutU32(HighHalf(v))
  {
    OctetsOfHigh(v);
    hide HighHalf;
  }

  lemma PutLow(v: bv64)
    ensures PutU64(v)[4..] == PutU32(LowHalf(v))
  {
    OctetsOfLow(v);
    hide LowHalf;
  }

  /** Different header values, the difference confined to the first three of them, or to one
      half of the stream identifier, or to the timestamp. */
  predicate OneFieldApart(a: Context, b: Context) {
    && a != b
    && (|| a == b.(subtype := a.subtype, octet1 := a.octet1, tu := a.tu)
        || a == b.(timestamp := a.timestamp)
        || (a == b.(streamId := a.streamId)
            && (HighHalf(a.streamId.bits) == HighHalf(b.streamId.bits)
                || LowHalf(a.streamId.bits) == LowHalf(b.streamId.bits))))
  }

  /** The octets of the span: the first three values, the two halves of the identifier, the
      timestamp. */
  lemma SpanParts(ctx: Context)
    ensures Span(ctx) == Fixed(ctx) + PutU32(HighHalf(ctx.streamId.bits)) + PutU32(LowHalf(ctx.streamId.bits))
                         + PutU32(ctx.timestamp)
  {
    hide PutU32; hide PutU64; hide HighHalf; hide LowHalf;
    PutHalves(ctx.streamId.bits);
  }

  function Fixed(ctx: Context): (fixed: seq<byte>)
    ensures |fixed| == 3
  {
    [ctx.subtype, ctx.octet1, if ctx.tu then 1 else 0]
  }

  lemma FixedDetermines(a: Context, b: Context)
    requires Fixed(a) == Fixed(b)
    ensures a.subtype == b.subtype && a.octet1 == b.octet1 && a.tu == b.tu
  {
    assert Fixed(a)[0] == Fixed(b)[0] && Fixed(a)[1] == Fixed(b)[1] && Fixed(a)[2] == Fixed(b)[2];
  }

  lemma Regrouped(fixed: seq<byte>, high: seq<byte>, low: seq<byte>, time: seq<byte>, covered: seq<byte>)
    ensures var all := fixed + high + low + time + covered;
            && all == [] + fixed + (high + low + time + covered)
            && all == fixed + high + (low + time + covered)
            && all == (fixed + high) + low + (time + covered)
  {}

  /** Changing one of the parts changes the checksum. */
  lemma PartChangesCrc(fixed: seq<byte>, high: seq<byte>, low: seq<byte>, time: seq<byte>, covered: seq<byte>,
                       fixed': seq<byte>, high': seq<byte>, low': seq<byte>, time': seq<byte>)
    requires |fixed| == |fixed'| == 3 && |high| == |high'| == |low| == |low'| == |time| == |time'| == 4
    requires || (fixed != fixed' && high == high' && low == low' && time == time')
             || (fixed == fixed' && high != high' && low == low' && time == time')
             || (fixed == fixed' && high == high' && low != low' && time == time')
             || (fixed == fixed' && high == high' && low == low' && time != time')
    ensures Crc32(fixed + high + low + time + covered) != Crc32(fixed' + high' + low' + time' + covered)
  {
    hide Crc32;
    Regrouped(fixed, high, low, time, covered);
    Regrouped(fixed', high', low', time', covered);
    if fixed != fixed' {
      FourOctetsChangeCrc32([], fixed, fixed', high + low + time + covered);
    } else if high != high' {
      FourOctetsChangeCrc32(fixed, high, high', low + time + covered);
    } else if low != low' {
      FourOctetsChangeCrc32(fixed + high, low, low', time + covered);
    } else {
      FourOctetsChangeCrc32(fixed + high + low, time, time', covered);
    }
  }

  lemma OnePartDiffers(a: Context, b: Context)
    requires OneFieldApart(a, b)
    ensures var fixed, high := Fixed(a) == Fixed(b), HighHalf(a.streamId.bits) == HighHalf(b.streamId.bits);
            var low, time := LowHalf(a.streamId.bits) == LowHalf(b.streamId.bits), a.timestamp == b.timestamp;
            || (!fixed && high && low && time) || (fixed && !high && low && time)
            || (fixed && high && !low && time) || (fixed && high && low && !time)
  {
    hide HighHalf; hide LowHalf; hide Fixed;
    if a.subtype == b.subtype && a.octet1 == b.octet1 && a.tu == b.tu {
      FixedAgree(a, b);
    }
    if Fixed(a) == Fixed(b) {
      FixedDetermines(a, b);
    }
    if a == b.(streamId := a.streamId) && HighHalf(a.streamId.bits) == HighHalf(b.streamId.bits) {
      StreamsDiffer(a, b);
    }
  }

  lemma OneFieldChangesCrc(a: Context, b: Context, covered: seq<byte>)
    requires OneFieldApart(a, b)
    ensures Crc32(Span(a) + covered) != Crc32(Span(b) + covered)
  {
    hide Crc32; hide PutU32; hide HighHalf; hide LowHalf; hide Span; hide Fixed; hide OneFieldApart;
    SpanParts(a);
    SpanParts(b);
    OnePartDiffers(a, b);
    PutU32Separates(HighHalf(a.streamId.bits), HighHalf(b.streamId.bits));
    PutU32Separates(LowHalf(a.streamId.bits), LowHalf(b.streamId.bits));
    PutU32Separates(a.timestamp, b.timestamp);
    PartChangesCrc(Fixed(a), PutU32(HighHalf(a.streamId.bits)), PutU32(LowHalf(a.streamId.bits)), PutU32(a.timestamp),
                   covered, Fixed(b), PutU32(HighHalf(b.streamId.bits)), PutU32(LowHalf(b.streamId.bits)),
                   PutU32(b.timestamp));
  }

  lemma FixedAgree(a: Context, b: Context)
    requires a.subtype == b.subtype && a.octet1 == b.octet1 && a.tu == b.tu
    ensures Fixed(a) == Fixed(b)
  {}

  lemma StreamsDiffer(a: Context, b: Context)
    requires a != b && a == b.(streamId := a.streamId)
    requires HighHalf(a.streamId.bits) == HighHalf(b.streamId.bits)
    ensures LowHalf(a.streamId.bits) != LowHalf(b.streamId.bits)
  {
    hide HighHalf; hide LowHalf;
    if LowHalf(a.streamId.bits) == LowHalf(b.streamId.bits) {
      HalvesDetermine(a.streamId.bits, b.streamId.bits);
    }
  }

  lemma PutU32Separates(a: bv32, b: bv32)
    ensures PutU32(a) == PutU32(b) <==> a == b
  {
    if PutU32(a) == PutU32(b) {
      PutU32Determines(a, b);
    }
  }

  /** A frame accepted under some header values is rejected under others one field apart. */
  lemma OneFieldApartRejected(ctx: Context, ctx': Context, frame: seq<byte>)
    requires Accepted(ctx, frame) && OneFieldApart(ctx, ctx')
    ensures Unwrapped(ctx', frame).0 == E2eCrcMismatch
  {
    hide Crc32; hide PadField; hide OctetValue; hide Span; hide GetU32; hide Body; hide OneFieldApart;
    OneFieldChangesCrc(ctx, ctx', frame[..RealLen(frame)]);
  }

  // --- Framing: NTSCF has no timestamp -----------------------------------------------------------

  function FramedContext(streamId: StreamId, isNtscf: bool, octet1: byte, tu: bool, timestamp: bv32): Context {
    if isNtscf then Context(SUBTYPE_NTSCF, octet1, false, streamId, 0)
    else Context(SUBTYPE_TSCF, octet1, tu, streamId, timestamp)
  }

  lemma PutU32Determines(a: bv32, b: bv32)
    requires PutU32(a) == PutU32(b)
    ensures a == b
  {
    GetPutU32(a);
    GetPutU32(b);
  }

  /** Received under another timestamp, a protected frame is accepted when NTSCF-framed and
      rejected when TSCF-framed. */
  lemma TimestampMattersForTscfOnly(
      streamId: StreamId, isNtscf: bool, octet1: byte, tu: bool, timestamp: bv32, timestamp': bv32, frame: seq<byte>)
    requires AcfShaped(frame) && |frame| / 4 < MAX_QUADLETS
    ensures var ctx := FramedContext(streamId, isNtscf, octet1, tu, timestamp);
            var ctx' := FramedContext(streamId, isNtscf, octet1, tu, timestamp');
            && Wrapped(ctx, frame).Some?
            && Unwrapped(ctx', Wrapped(ctx, frame).value).0
               == if isNtscf || timestamp' == timestamp then E2eOk else E2eCrcMismatch
  {
    hide Crc32; hide AcfShaped; hide Wrapped; hide Body; hide PutU32; hide PutU64; hide PadOctets; hide GetU32;
    var ctx := FramedContext(streamId, isNtscf, octet1, tu, timestamp);
    var ctx' := FramedContext(streamId, isNtscf, octet1, tu, timestamp');
    AcfShapedSurvives(ctx, frame);
    if !isNtscf && timestamp' != timestamp {
      var w := Wrapped(ctx, frame).value;
      var covered := w[..RealLen(w)];
      var fixed := [ctx.subtype, ctx.octet1, if ctx.tu then 1 else 0] + PutU64(streamId.bits);
      if PutU32(timestamp) == PutU32(timestamp') {
        PutU32Determines(timestamp, timestamp');
      }
      assert Span(ctx) + covered == fixed + PutU32(timestamp) + covered;
      assert Span(ctx') + covered == fixed + PutU32(timestamp') + covered;
      FourOctetsChangeCrc32(fixed, PutU32(timestamp), PutU32(timestamp'), covered);
    }
  }

  /** So do octet 1, and the timestamp-uncertain bit when TSCF-framed. */
  lemma FramedValuesMatter(
      streamId: StreamId, isNtscf: bool, octet1: byte, tu: bool, timestamp: bv32, octet1': byte, tu': bool,
      frame: seq<byte>)
    requires AcfShaped(frame) && |frame| / 4 < MAX_QUADLETS
    ensures var ctx := FramedContext(streamId, isNtscf, octet1, tu, timestamp);
            var ctx' := FramedContext(streamId, isNtscf, octet1', tu', timestamp);
            && Wrapped(ctx, frame).Some?
            && Unwrapped(ctx', Wrapped(ctx, frame).value).0
               == if octet1' == octet1 && (isNtscf || tu' == tu) then E2eOk else E2eCrcMismatch
  {
    hide AcfShaped; hide Wrapped; hide Unwrapped;
    var ctx := FramedContext(streamId, isNtscf, octet1, tu, timestamp);
    var ctx' := FramedContext(streamId, isNtscf, octet1', tu', timestamp);
    AcfShapedSurvives(ctx, frame);
    if ctx != ctx' {
      OneFieldApartRejected(ctx, ctx', Wrapped(ctx, frame).value);
    }
  }
}
