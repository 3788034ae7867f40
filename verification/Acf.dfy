/** The ACF message codec (`src/acf.c`): the packed 8-octet header, quadlet padding and
    the ABB and GBB frames of section 11 (Figure 7, Table 4) of the OPEN Alliance TC18
    Remote Control Protocol specification. */
module Acf {
  import opened Octets
  import opened Wrappers

  const MSG_TYPE_ABB: byte := 0x0E
  const MSG_TYPE_GBB: byte := 0x0D
  const ABB_HEADER_LEN: nat := 8
  const GBB_HEADER_LEN: nat := 16
  const MAX_QUADLETS: nat := 0x1FF
  const ABB_MAX_PAYLOAD: nat := MAX_QUADLETS * 4 - ABB_HEADER_LEN
  const GBB_MAX_PAYLOAD: nat := MAX_QUADLETS * 4 - GBB_HEADER_LEN

  const MTV_UNTIMED: byte := 0
  const MTV_VALID: byte := 1
  const OP_NONE: byte := 0
  const OP_WRITE: byte := 1
  const OP_READ: byte := 2

  /** `byte_message_info`. */
  datatype Header = Header(
    msgType: byte, msgLength: bv16, pad: byte, mtv: byte, busId: bv16, evt: byte, hs: byte, cs: byte,
    transactionNum: byte, op: byte, rsp: byte, err: byte, ms: byte, rss: bv16)

  const ZERO_HEADER := Header(0, 0, 0, 0, 0, 0, 0, 0, 0, 0, 0, 0, 0, 0)

  datatype GbbHeader = GbbHeader(info: Header, timestamp: bv64)

  datatype AcfError = ShortFrame | BadMsgType

  // --- Header packing --------------------------------------------------------

  function OpBit(op: byte): byte {
    if op == OP_READ then 0 else 1
  }

  /** An operation as a peer reads it back: NONE travels as WRITE. */
  function WireOp(op: byte): byte {
    if op == OP_READ then OP_READ else OP_WRITE
  }

  function TypeOctet(msgType: byte, msgLength: bv16): byte {
    (msgType << 1) | (((msgLength >> 8) & 0x1) as byte)
  }

  /** Bits 4:3 are reserved. */
  function PadOctet(h: Header): byte {
    ((h.pad & 0x3) << 6) | ((h.mtv & 0x1) << 5) | (((h.busId >> 8) & 0x7) as byte)
  }

  /** Bits 3:2 are reserved. */
  function EventOctet(h: Header): byte {
    ((h.evt & 0xF) << 4) | ((h.hs & 0x1) << 1) | (h.cs & 0x1)
  }

  function OperationOctet(h: Header): byte {
    (OpBit(h.op) << 7) | ((h.rsp & 0x1) << 6) | ((h.err & 0x1) << 5) | ((h.ms & 0x1) << 4)
    | (((h.rss >> 8) & 0xF) as byte)
  }

  function LowOctet(v: bv16): byte {
    (v & 0xFF) as byte
  }

  function PackHeader(msgType: byte, msgLength: bv16, h: Header): (out: seq<byte>)
    ensures |out| == ABB_HEADER_LEN
  {
    [TypeOctet(msgType, msgLength), LowOctet(msgLength), PadOctet(h), LowOctet(h.busId),
     EventOctet(h), h.transactionNum, OperationOctet(h), LowOctet(h.rss)]
  }

  function UnpackHeader(p: seq<byte>): Header
    requires |p| >= ABB_HEADER_LEN
  {
    Header(
      p[0] >> 1,
      (((p[0] & 0x1) as bv16) << 8) | (p[1] as bv16),
      (p[2] >> 6) & 0x3,
      (p[2] >> 5) & 0x1,
      (((p[2] & 0x7) as bv16) << 8) | (p[3] as bv16),
      (p[4] >> 4) & 0xF,
      (p[4] >> 1) & 0x1,
      p[4] & 0x1,
      p[5],
      if (p[6] >> 7) & 0x1 == 1 then OP_WRITE else OP_READ,
      (p[6] >> 6) & 0x1,
      (p[6] >> 5) & 0x1,
      (p[6] >> 4) & 0x1,
      (((p[6] & 0xF) as bv16) << 8) | (p[7] as bv16))
  }

  /** The header fields as they fit on the wire. */
  function Truncated(msgType: byte, msgLength: bv16, h: Header): Header {
    Header(msgType & 0x7F, msgLength & 0x1FF, h.pad & 0x3, h.mtv & 0x1, h.busId & 0x7FF, h.evt & 0xF,
           h.hs & 0x1, h.cs & 0x1, h.transactionNum, WireOp(h.op), h.rsp & 0x1, h.err & 0x1, h.ms & 0x1,
           h.rss & 0xFFF)
  }

  /** Every field comes back, each cut to its own width, whatever the others held. */
  lemma UnpackPack(msgType: byte, msgLength: bv16, h: Header)
    ensures UnpackHeader(PackHeader(msgType, msgLength, h)) == Truncated(msgType, msgLength, h)
  {}

  /** Table 4: the fields in wire order, most significant first, as one 64-bit word. */
  function HeaderWord(h: Header): bv64 {
    ((h.msgType as bv64) << 57) | ((h.msgLength as bv64) << 48)
    | ((h.pad as bv64) << 46) | ((h.mtv as bv64) << 45) | ((h.busId as bv64) << 32)
    | ((h.evt as bv64) << 28) | ((h.hs as bv64) << 25) | ((h.cs as bv64) << 24)
    | ((h.transactionNum as bv64) << 16)
    | ((if h.op == 2 then 0 else 1) << 15) | ((h.rsp as bv64) << 14) | ((h.err as bv64) << 13)
    | ((h.ms as bv64) << 12) | (h.rss as bv64)
  }

  /** The eight octets are the Table 4 word in network order, reserved bits zero. */
  lemma PackedHeaderIsTable4Word(msgType: byte, msgLength: bv16, h: Header)
    ensures GetU64(PackHeader(msgType, msgLength, h)) == HeaderWord(Truncated(msgType, msgLength, h))
  {}

  method WriteHeader(out: array<byte>, msgType: byte, msgLength: bv16, h: Header)
    requires out.Length >= ABB_HEADER_LEN
    modifies out
    ensures out[..ABB_HEADER_LEN] == PackHeader(msgType, msgLength, h)
    ensures out[ABB_HEADER_LEN..] == old(out[ABB_HEADER_LEN..])
  {
    hide PackHeader;
    var packed := PackHeader(msgType, msgLength, h);
    forall i | 0 <= i < ABB_HEADER_LEN {
      out[i] := packed[i];
    }
  }

  // --- Padding -----------------------------------------------------------------

  function PadLen(unpaddedLen: nat): (pad: nat)
    ensures pad < 4 && (unpaddedLen + pad) % 4 == 0
  {
    (4 - unpaddedLen % 4) % 4
  }

  function Quadlets(headerLen: nat, payloadLen: nat): nat {
    (headerLen + payloadLen + PadLen(headerLen + payloadLen)) / 4
  }

  lemma QuadletsBound(headerLen: nat, payloadLen: nat)
    requires headerLen + payloadLen <= MAX_QUADLETS * 4
    ensures Quadlets(headerLen, payloadLen) <= MAX_QUADLETS
    ensures Quadlets(headerLen, payloadLen) * 4 == headerLen + payloadLen + PadLen(headerLen + payloadLen)
  {}

  // --- Frames --------------------------------------------------------------------

  function PaddedHeader(msgType: byte, headerLen: nat, h: Header, payloadLen: nat): (out: seq<byte>)
    requires headerLen + payloadLen <= MAX_QUADLETS * 4
    ensures |out| == ABB_HEADER_LEN
  {
    QuadletsBound(headerLen, payloadLen);
    PackHeader(msgType, Field(Quadlets(headerLen, payloadLen)),
               h.(pad := Octet(PadLen(headerLen + payloadLen))))
  }

  /** The ABB frame, or None when the payload cannot be expressed in one frame. */
  function AbbFrame(h: Header, payload: seq<byte>): Option<seq<byte>> {
    if |payload| > ABB_MAX_PAYLOAD then None
    else Some(PaddedHeader(MSG_TYPE_ABB, ABB_HEADER_LEN, h, |payload|)
              + payload + Zeros(PadLen(ABB_HEADER_LEN + |payload|)))
  }

  /** An untimed message carries a zeroed timestamp region. */
  function WireTimestamp(h: GbbHeader): bv64 {
    if h.info.mtv == MTV_UNTIMED then 0 else h.timestamp
  }

  function GbbFrame(h: GbbHeader, payload: seq<byte>): Option<seq<byte>> {
    if |payload| > GBB_MAX_PAYLOAD then None
    else Some(PaddedHeader(MSG_TYPE_GBB, GBB_HEADER_LEN, h.info, |payload|) + PutU64(WireTimestamp(h))
              + payload + Zeros(PadLen(GBB_HEADER_LEN + |payload|)))
  }

  method EncodeAbb(h: Header, payload: seq<byte>) returns (frame: array?<byte>)
    ensures frame == null <==> AbbFrame(h, payload).None?
    ensures frame != null ==> fresh(frame) && frame[..] == AbbFrame(h, payload).value
  {
    if |payload| > ABB_MAX_PAYLOAD {
      return null;
    }
    var unpadded := ABB_HEADER_LEN + |payload|;
    var pad := PadLen(unpadded);
    var total := unpadded + pad;
    var quadlets := total / 4;
    if quadlets > MAX_QUADLETS {
      return null;
    }
    var b := new byte[total];
    WriteHeader(b, MSG_TYPE_ABB, Field(quadlets), h.(pad := Octet(pad)));
    CopyPadded(b, ABB_HEADER_LEN, payload);
    return b;
  }

  method EncodeGbb(h: GbbHeader, payload: seq<byte>) returns (frame: array?<byte>)
    ensures frame == null <==> GbbFrame(h, payload).None?
    ensures frame != null ==> fresh(frame) && frame[..] == GbbFrame(h, payload).value
  {
    if |payload| > GBB_MAX_PAYLOAD {
      return null;
    }
    var unpadded := GBB_HEADER_LEN + |payload|;
    var pad := PadLen(unpadded);
    var total := unpadded + pad;
    var quadlets := total / 4;
    if quadlets > MAX_QUADLETS {
      return null;
    }
    hide PackHeader; hide PutU64;
    var b := new byte[total];
    WriteHeader(b, MSG_TYPE_GBB, Field(quadlets), h.info.(pad := Octet(pad)));
    ghost var header := b[..ABB_HEADER_LEN];
    StoreU64(b, ABB_HEADER_LEN, if h.info.mtv == MTV_UNTIMED then 0 else h.timestamp);
    assert b[..][..GBB_HEADER_LEN] == header + PutU64(WireTimestamp(h));
    CopyPadded(b, GBB_HEADER_LEN, payload);
    return b;
  }

  /** Places the payload after the header and zeroes the rest of the frame. */
  method CopyPadded(b: array<byte>, headerLen: nat, payload: seq<byte>)
    requires headerLen + |payload| <= b.Length
    modifies b
    ensures b[..] == old(b[..headerLen]) + payload + Zeros(b.Length - headerLen - |payload|)
  {
    forall i | headerLen <= i < b.Length {
      b[i] := if i - headerLen < |payload| then payload[i - headerLen] else 0;
    }
  }

  // --- Decoding --------------------------------------------------------------------

  function DecodeAbb(b: seq<byte>): Result<(Header, seq<byte>), AcfError> {
    if |b| < ABB_HEADER_LEN then Err(ShortFrame)
    else if b[0] >> 1 != MSG_TYPE_ABB then Err(BadMsgType)
    else
      var h := UnpackHeader(b);
      var total := FieldValue(h.msgLength) * 4;
      if total < ABB_HEADER_LEN || |b| < total then Err(ShortFrame)
      else
        var bodyLen := total - ABB_HEADER_LEN;
        if OctetValue(h.pad) > bodyLen then Err(ShortFrame)
        else Ok((h.(mtv := MTV_UNTIMED), b[ABB_HEADER_LEN..ABB_HEADER_LEN + bodyLen - OctetValue(h.pad)]))
  }

  function DecodeGbb(b: seq<byte>): Result<(GbbHeader, seq<byte>), AcfError> {
    if |b| < GBB_HEADER_LEN then Err(ShortFrame)
    else if b[0] >> 1 != MSG_TYPE_GBB then Err(BadMsgType)
    else
      var h := UnpackHeader(b);
      var total := FieldValue(h.msgLength) * 4;
      if total < GBB_HEADER_LEN || |b| < total then Err(ShortFrame)
      else
        var bodyLen := total - GBB_HEADER_LEN;
        if OctetValue(h.pad) > bodyLen then Err(ShortFrame)
        else Ok((GbbHeader(h, GetU64(b[ABB_HEADER_LEN..])),
                 b[GBB_HEADER_LEN..GBB_HEADER_LEN + bodyLen - OctetValue(h.pad)]))
  }

  lemma NatOfPad(pad: nat)
    requires pad < 4
    ensures OctetValue(Octet(pad)) == pad && Octet(pad) & 0x3 == Octet(pad)
  {}

  lemma UnpackReadsPrefix(p: seq<byte>, rest: seq<byte>)
    requires |p| >= ABB_HEADER_LEN
    ensures UnpackHeader(p + rest) == UnpackHeader(p)
    ensures (p + rest)[0] == p[0]
  {}

  lemma TypeFieldHolds(msgType: byte, msgLength: bv16, h: Header)
    requires msgType <= 0x7F
    ensures PackHeader(msgType, msgLength, h)[0] >> 1 == msgType
  {}

  /** The leading octets of a padded frame unpack to the expected fields. */
  lemma UnpackPaddedHeader(msgType: byte, headerLen: nat, h: Header, payloadLen: nat, rest: seq<byte>)
    requires headerLen + payloadLen <= MAX_QUADLETS * 4 && msgType <= 0x7F
    ensures var frame := PaddedHeader(msgType, headerLen, h, payloadLen) + rest;
            var u := UnpackHeader(frame);
            && frame[0] >> 1 == msgType
            && FieldValue(u.msgLength) == Quadlets(headerLen, payloadLen)
            && OctetValue(u.pad) == PadLen(headerLen + payloadLen)
            && u == Truncated(msgType, u.msgLength, h.(pad := u.pad))
  {
    hide PackHeader; hide UnpackHeader; hide Field; hide FieldValue; hide Octet; hide OctetValue;
    var q, pad := Quadlets(headerLen, payloadLen), PadLen(headerLen + payloadLen);
    QuadletsBound(headerLen, payloadLen);
    ValueOfField(q);
    NatOfPad(pad);
    LengthFieldHolds(q);
    UnpackPack(msgType, Field(q), h.(pad := Octet(pad)));
    TypeFieldHolds(msgType, Field(q), h.(pad := Octet(pad)));
    UnpackReadsPrefix(PaddedHeader(msgType, headerLen, h, payloadLen), rest);
  }

  lemma LengthFieldHolds(q: nat)
    requires q <= MAX_QUADLETS
    ensures Field(q) & 0x1FF == Field(q)
  {}

  /** What a peer's decoder reports for an ABB message. */
  function AbbReceived(h: Header, payloadLen: nat): Header
    requires payloadLen <= ABB_MAX_PAYLOAD
  {
    QuadletsBound(ABB_HEADER_LEN, payloadLen);
    Truncated(MSG_TYPE_ABB, Field(Quadlets(ABB_HEADER_LEN, payloadLen)),
              h.(pad := Octet(PadLen(ABB_HEADER_LEN + payloadLen)))).(mtv := MTV_UNTIMED)
  }

  /** What a peer's decoder reports for a GBB message. */
  function GbbReceived(h: GbbHeader, payloadLen: nat): GbbHeader
    requires payloadLen <= GBB_MAX_PAYLOAD
  {
    QuadletsBound(GBB_HEADER_LEN, payloadLen);
    GbbHeader(Truncated(MSG_TYPE_GBB, Field(Quadlets(GBB_HEADER_LEN, payloadLen)),
                        h.info.(pad := Octet(PadLen(GBB_HEADER_LEN + payloadLen)))),
              WireTimestamp(h))
  }

  lemma DecodeAbbReads(b: seq<byte>, payloadLen: nat, pad: nat)
    requires |b| >= ABB_HEADER_LEN + payloadLen + pad
    requires b[0] >> 1 == MSG_TYPE_ABB
    requires FieldValue(UnpackHeader(b).msgLength) * 4 == ABB_HEADER_LEN + payloadLen + pad
    requires OctetValue(UnpackHeader(b).pad) == pad
    ensures DecodeAbb(b) == Ok((UnpackHeader(b).(mtv := MTV_UNTIMED), b[ABB_HEADER_LEN..ABB_HEADER_LEN + payloadLen]))
  {
    hide UnpackHeader; hide FieldValue; hide OctetValue;
  }

  lemma DecodeGbbReads(b: seq<byte>, payloadLen: nat, pad: nat)
    requires |b| >= GBB_HEADER_LEN + payloadLen + pad
    requires b[0] >> 1 == MSG_TYPE_GBB
    requires FieldValue(UnpackHeader(b).msgLength) * 4 == GBB_HEADER_LEN + payloadLen + pad
    requires OctetValue(UnpackHeader(b).pad) == pad
    ensures DecodeGbb(b) == Ok((GbbHeader(UnpackHeader(b), GetU64(b[ABB_HEADER_LEN..])),
                                b[GBB_HEADER_LEN..GBB_HEADER_LEN + payloadLen]))
  {
    hide UnpackHeader; hide GetU64; hide FieldValue; hide OctetValue;
  }

  /** Decoding an encoded frame returns its fields and payload, also when more octets
      follow it in the same PDU. */
  lemma DecodeEncodedAbb(h: Header, payload: seq<byte>, rest: seq<byte>)
    requires |payload| <= ABB_MAX_PAYLOAD
    ensures DecodeAbb(AbbFrame(h, payload).value + rest) == Ok((AbbReceived(h, |payload|), payload))
  {
    hide PaddedHeader; hide UnpackHeader; hide PadLen; hide DecodeAbb; hide Quadlets;
    hide FieldValue; hide OctetValue;
    var pad := PadLen(ABB_HEADER_LEN + |payload|);
    var header := PaddedHeader(MSG_TYPE_ABB, ABB_HEADER_LEN, h, |payload|);
    var b := AbbFrame(h, payload).value + rest;
    assert b == header + (payload + Zeros(pad) + rest);
    assert b[ABB_HEADER_LEN..ABB_HEADER_LEN + |payload|] == payload;
    UnpackPaddedHeader(MSG_TYPE_ABB, ABB_HEADER_LEN, h, |payload|, payload + Zeros(pad) + rest);
    QuadletsBound(ABB_HEADER_LEN, |payload|);
    DecodeAbbReads(b, |payload|, pad);
    AbbReceivedIsUnpacked(h, |payload|, UnpackHeader(b));
  }

  lemma AbbReceivedIsUnpacked(h: Header, payloadLen: nat, u: Header)
    requires payloadLen <= ABB_MAX_PAYLOAD
    requires FieldValue(u.msgLength) == Quadlets(ABB_HEADER_LEN, payloadLen)
    requires OctetValue(u.pad) == PadLen(ABB_HEADER_LEN + payloadLen)
    requires u == Truncated(MSG_TYPE_ABB, u.msgLength, h.(pad := u.pad))
    ensures u.(mtv := MTV_UNTIMED) == AbbReceived(h, payloadLen)
  {
    hide Quadlets; hide PadLen; hide Truncated;
    hide Field; hide FieldValue; hide Octet; hide OctetValue;
    QuadletsBound(ABB_HEADER_LEN, payloadLen);
    FieldOfValue(u.msgLength);
    OctetOfValue(u.pad);
  }

  lemma GbbReceivedIsUnpacked(h: GbbHeader, payloadLen: nat, u: Header)
    requires payloadLen <= GBB_MAX_PAYLOAD
    requires FieldValue(u.msgLength) == Quadlets(GBB_HEADER_LEN, payloadLen)
    requires OctetValue(u.pad) == PadLen(GBB_HEADER_LEN + payloadLen)
    requires u == Truncated(MSG_TYPE_GBB, u.msgLength, h.info.(pad := u.pad))
    ensures u == GbbReceived(h, payloadLen).info
  {
    hide Quadlets; hide PadLen; hide Truncated;
    hide Field; hide FieldValue; hide Octet; hide OctetValue;
    QuadletsBound(GBB_HEADER_LEN, payloadLen);
    FieldOfValue(u.msgLength);
    OctetOfValue(u.pad);
  }

  lemma GbbFrameLayout(h: GbbHeader, payload: seq<byte>, rest: seq<byte>)
    requires |payload| <= GBB_MAX_PAYLOAD
    ensures GbbFrame(h, payload).Some?
    ensures var pad := PadLen(GBB_HEADER_LEN + |payload|);
            var b := GbbFrame(h, payload).value + rest;
            var body := payload + Zeros(pad) + rest;
            && |b| == GBB_HEADER_LEN + |payload| + pad + |rest|
            && b == PaddedHeader(MSG_TYPE_GBB, GBB_HEADER_LEN, h.info, |payload|) + (PutU64(WireTimestamp(h)) + body)
            && b[ABB_HEADER_LEN..] == PutU64(WireTimestamp(h)) + body
            && b[GBB_HEADER_LEN..GBB_HEADER_LEN + |payload|] == payload
  {
    hide PaddedHeader; hide PutU64; hide PadLen;
    var header, ts := PaddedHeader(MSG_TYPE_GBB, GBB_HEADER_LEN, h.info, |payload|), PutU64(WireTimestamp(h));
    var body := payload + Zeros(PadLen(GBB_HEADER_LEN + |payload|)) + rest;
    var b := GbbFrame(h, payload).value + rest;
    assert b == header + ts + body;
    assert header + ts + body == header + (ts + body);
  }

  lemma DecodeEncodedGbb(h: GbbHeader, payload: seq<byte>, rest: seq<byte>)
    requires |payload| <= GBB_MAX_PAYLOAD
    ensures DecodeGbb(GbbFrame(h, payload).value + rest) == Ok((GbbReceived(h, |payload|), payload))
  {
    hide PaddedHeader; hide UnpackHeader; hide PadLen; hide GetU64; hide PutU64; hide DecodeGbb; hide Quadlets;
    hide FieldValue; hide OctetValue; hide GbbFrame; hide Truncated;
    var pad := PadLen(GBB_HEADER_LEN + |payload|);
    var ts := PutU64(WireTimestamp(h));
    var body := payload + Zeros(pad) + rest;
    GbbFrameLayout(h, payload, rest);
    var b := GbbFrame(h, payload).value + rest;
    UnpackPaddedHeader(MSG_TYPE_GBB, GBB_HEADER_LEN, h.info, |payload|, ts + body);
    QuadletsBound(GBB_HEADER_LEN, |payload|);
    DecodeGbbReads(b, |payload|, pad);
    GbbReceivedIsUnpacked(h, |payload|, UnpackHeader(b));
    GetU64ReadsPrefix(ts, body);
    GetPutU64(WireTimestamp(h));
  }

  // --- Layout on the wire ------------------------------------------------------------------

  /** A frame is whole quadlets, as many as its length field says; the payload follows the
      header, and at most three zero octets, as many as the pad field says, follow it. */
  lemma AbbLayout(h: Header, payload: seq<byte>)
    ensures AbbFrame(h, payload).Some? <==> |payload| <= 0x1FF * 4 - 8
    ensures AbbFrame(h, payload).Some? ==>
              var frame := AbbFrame(h, payload).value;
              var u := UnpackHeader(frame);
              && u.msgType == 0x0E
              && |frame| == 4 * FieldValue(u.msgLength) == 8 + |payload| + OctetValue(u.pad) && OctetValue(u.pad) < 4
              && frame[8..8 + |payload|] == payload
              && (forall i :: 8 + |payload| <= i < |frame| ==> frame[i] == 0)
  {
    hide PaddedHeader; hide UnpackHeader; hide PadLen; hide Quadlets; hide FieldValue; hide OctetValue;
    if |payload| <= ABB_MAX_PAYLOAD {
      var rest := payload + Zeros(PadLen(ABB_HEADER_LEN + |payload|));
      UnpackPaddedHeader(MSG_TYPE_ABB, ABB_HEADER_LEN, h, |payload|, rest);
      QuadletsBound(ABB_HEADER_LEN, |payload|);
      TypeKept(MSG_TYPE_ABB);
      assert AbbFrame(h, payload).value == PaddedHeader(MSG_TYPE_ABB, ABB_HEADER_LEN, h, |payload|) + rest;
    }
  }

  lemma TypeKept(msgType: byte)
    requires msgType <= 0x7F
    ensures msgType & 0x7F == msgType
  {}

  /** The same with the timestamp ahead of the payload: eight zero octets when the message is
      untimed, the timestamp in network order when not. */
  lemma GbbLayout(h: GbbHeader, payload: seq<byte>)
    ensures GbbFrame(h, payload).Some? <==> |payload| <= 0x1FF * 4 - 16
    ensures GbbFrame(h, payload).Some? ==>
              var frame := GbbFrame(h, payload).value;
              var u := UnpackHeader(frame);
              && u.msgType == 0x0D
              && |frame| == 4 * FieldValue(u.msgLength) == 16 + |payload| + OctetValue(u.pad) && OctetValue(u.pad) < 4
              && GetU64(frame[8..16]) == (if h.info.mtv == 0 then 0 else h.timestamp)
              && frame[16..16 + |payload|] == payload
              && (forall i :: 16 + |payload| <= i < |frame| ==> frame[i] == 0)
  {
    hide PaddedHeader; hide UnpackHeader; hide PadLen; hide Quadlets; hide FieldValue; hide OctetValue; hide PutU64;
    hide GetU64;
    if |payload| <= GBB_MAX_PAYLOAD {
      var pad := Zeros(PadLen(GBB_HEADER_LEN + |payload|));
      var rest := PutU64(WireTimestamp(h)) + (payload + pad);
      UnpackPaddedHeader(MSG_TYPE_GBB, GBB_HEADER_LEN, h.info, |payload|, rest);
      QuadletsBound(GBB_HEADER_LEN, |payload|);
      TypeKept(MSG_TYPE_GBB);
      GetPutU64(WireTimestamp(h));
      var frame := GbbFrame(h, payload).value;
      assert frame == PaddedHeader(MSG_TYPE_GBB, GBB_HEADER_LEN, h.info, |payload|) + rest;
      assert frame[8..16] == PutU64(WireTimestamp(h));
    }
  }

  /** Which octets are a message of type `msgType` with a header of `headerLen` octets: they hold
      the length the header claims, and that has room for header and padding. */
  predicate HoldsMessage(b: seq<byte>, msgType: byte, headerLen: nat) {
    && |b| >= headerLen >= 8
    && UnpackHeader(b).msgType == msgType
    && headerLen + OctetValue(UnpackHeader(b).pad) <= 4 * FieldValue(UnpackHeader(b).msgLength) <= |b|
  }

  /** Decoding succeeds on exactly those, and returns the header and what stands between it and
      the padding. BAD_MSG_TYPE says that a header is there, of another type. */
  lemma AbbDecodesExactlyWhen(b: seq<byte>)
    ensures DecodeAbb(b).Ok? <==> HoldsMessage(b, 0x0E, 8)
    ensures DecodeAbb(b).Ok? ==>
              var u := UnpackHeader(b);
              DecodeAbb(b).value == (u.(mtv := 0), b[8..4 * FieldValue(u.msgLength) - OctetValue(u.pad)])
    ensures DecodeAbb(b) == Err(BadMsgType) <==> |b| >= 8 && UnpackHeader(b).msgType != 0x0E
  {
    hide FieldValue; hide OctetValue;
  }

  lemma GbbDecodesExactlyWhen(b: seq<byte>)
    ensures DecodeGbb(b).Ok? <==> HoldsMessage(b, 0x0D, 16)
    ensures DecodeGbb(b).Ok? ==>
              var u := UnpackHeader(b);
              DecodeGbb(b).value
              == (GbbHeader(u, GetU64(b[8..16])), b[16..4 * FieldValue(u.msgLength) - OctetValue(u.pad)])
    ensures DecodeGbb(b) == Err(BadMsgType) <==> |b| >= 16 && UnpackHeader(b).msgType != 0x0D
  {
    hide FieldValue; hide OctetValue; hide GetU64;
    if |b| >= 16 {
      assert b[8..] == b[8..16] + b[16..];
      GetU64ReadsPrefix(b[8..16], b[16..]);
    }
  }
}
