/** A message of either ACF variant (`src/acf.c`), as the code that accepts both treats it. */
module AnyAcf {
  import opened Octets
  import opened Wrappers
  import opened Acf

  datatype AnyHeader = AbbInfo(abb: Header) | GbbInfo(gbb: GbbHeader)
  {
    function Info(): Header {
      if AbbInfo? then abb else gbb.info
    }
  }

  function DecodeAny(msgType: byte, frame: seq<byte>): Result<(AnyHeader, seq<byte>), AcfError> {
    if msgType == MSG_TYPE_GBB then
      match DecodeGbb(frame)
      case Err(e) => Err(e)
      case Ok(v) => Ok((GbbInfo(v.0), v.1))
    else
      match DecodeAbb(frame)
      case Err(e) => Err(e)
      case Ok(v) => Ok((AbbInfo(v.0), v.1))
  }

  function EncodeAny(h: AnyHeader, payload: seq<byte>): Option<seq<byte>> {
    match h
    case AbbInfo(abb) => AbbFrame(abb, payload)
    case GbbInfo(gbb) => GbbFrame(gbb, payload)
  }

  function HeaderLen(msgType: byte): nat {
    if msgType == MSG_TYPE_GBB then GBB_HEADER_LEN else ABB_HEADER_LEN
  }

  lemma DecodedFrameHoldsHeader(msgType: byte, frame: seq<byte>)
    requires DecodeAny(msgType, frame).Ok?
    ensures HeaderLen(msgType) <= |frame|
  {
    hide UnpackHeader; hide FieldValue; hide OctetValue;
  }

  function TypeOf(h: AnyHeader): byte {
    if h.GbbInfo? then MSG_TYPE_GBB else MSG_TYPE_ABB
  }

  function MaxPayload(h: AnyHeader): nat {
    if h.GbbInfo? then GBB_MAX_PAYLOAD else ABB_MAX_PAYLOAD
  }

  /** The header a peer decodes. */
  function Received(h: AnyHeader, payloadLen: nat): AnyHeader
    requires payloadLen <= MaxPayload(h)
  {
    match h
    case AbbInfo(abb) => AbbInfo(AbbReceived(abb, payloadLen))
    case GbbInfo(gbb) => GbbInfo(GbbReceived(gbb, payloadLen))
  }

  lemma EncodableExactlyWhen(h: AnyHeader, payload: seq<byte>)
    ensures EncodeAny(h, payload).Some? <==> |payload| <= MaxPayload(h)
  {
    hide PaddedHeader;
  }

  lemma DecodeEncodedAny(h: AnyHeader, payload: seq<byte>)
    requires |payload| <= MaxPayload(h)
    ensures EncodeAny(h, payload).Some?
    ensures DecodeAny(TypeOf(h), EncodeAny(h, payload).value) == Ok((Received(h, |payload|), payload))
  {
    hide PaddedHeader; hide DecodeAbb; hide DecodeGbb; hide PutU64; hide AbbReceived; hide GbbReceived;
    var frame := EncodeAny(h, payload).value;
    assert frame + [] == frame;
    match h
    case AbbInfo(abb) => DecodeEncodedAbb(abb, payload, []);
    case GbbInfo(gbb) => DecodeEncodedGbb(gbb, payload, []);
  }

  method EncodeEither(h: AnyHeader, payload: seq<byte>) returns (frame: array?<byte>)
    ensures frame == null <==> EncodeAny(h, payload).None?
    ensures frame != null ==> fresh(frame) && frame[..] == EncodeAny(h, payload).value
  {
    hide AbbFrame; hide GbbFrame;
    match h
    case AbbInfo(abb) => frame := EncodeAbb(abb, payload);
    case GbbInfo(gbb) => frame := EncodeGbb(gbb, payload);
  }
}
