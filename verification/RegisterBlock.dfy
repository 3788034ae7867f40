/** What the endpoints' EP_func register blocks share: masked memory writes (section 12.7.1
    of the specification) and the Table 35 common octets. */
module RegisterBlock {
  import opened Octets

  /** For each octet of a block, the bits a write can change. */
  type Mask = seq<byte>

  function Merged(old_: byte, new_: byte, writable: byte): byte {
    (old_ & !writable) | (new_ & writable)
  }

  /** The image after writing `data` at `at` as to memory, except for unwritable bits. */
  function Written(image: seq<byte>, mask: Mask, at: nat, data: seq<byte>): (after: seq<byte>)
    requires at + |data| <= |image| == |mask|
    ensures |after| == |image|
  {
    seq(|image|, i requires 0 <= i < |image| =>
      if at <= i < at + |data| then Merged(image[i], data[i - at], mask[i]) else image[i])
  }

  lemma MergedAgain(x: byte, y: byte, m: byte)
    ensures Merged(Merged(x, y, m), y, m) == Merged(x, y, m)
  {}

  lemma MergedWithItself(x: byte, m: byte)
    ensures Merged(x, x, m) == x
  {}

  lemma MergedByWholeOctets(x: byte, y: byte)
    ensures Merged(x, y, 0) == x && Merged(x, y, 0xFF) == y
  {}

  /** One write of two pieces is two writes. */
  lemma WriteSplits(image: seq<byte>, mask: Mask, at: nat, d1: seq<byte>, d2: seq<byte>)
    requires at + |d1| + |d2| <= |image| == |mask|
    ensures Written(Written(image, mask, at, d1), mask, at + |d1|, d2) == Written(image, mask, at, d1 + d2)
  {
    hide Merged;
  }

  /** A part of the image that holds the whole write, or none of it. */
  lemma PartOfWritten(image: seq<byte>, mask: Mask, at: nat, data: seq<byte>, from: nat, to: nat)
    requires at + |data| <= |image| == |mask| && from <= to <= |image|
    ensures from <= at && at + |data| <= to ==>
              Written(image, mask, at, data)[from..to] == Written(image[from..to], mask[from..to], at - from, data)
    ensures at + |data| <= from || to <= at ==> Written(image, mask, at, data)[from..to] == image[from..to]
  {
    hide Merged;
  }

  lemma WriteIsIdempotent(image: seq<byte>, mask: Mask, at: nat, data: seq<byte>)
    requires at + |data| <= |image| == |mask|
    ensures Written(Written(image, mask, at, data), mask, at, data) == Written(image, mask, at, data)
  {
    hide Merged;
    forall i | at <= i < at + |data|
      ensures Merged(Merged(image[i], data[i - at], mask[i]), data[i - at], mask[i])
              == Merged(image[i], data[i - at], mask[i])
    {
      MergedAgain(image[i], data[i - at], mask[i]);
    }
  }

  /** The block image as the code patches it: whole octets, read-only ones skipped. */
  function Patched(image: seq<byte>, mask: Mask, at: nat, data: seq<byte>): (after: seq<byte>)
    requires at + |data| <= |image| == |mask|
    ensures |after| == |image|
  {
    seq(|image|, i requires 0 <= i < |image| =>
      if at <= i < at + |data| && mask[i] != 0 then data[i - at] else image[i])
  }

  /** Adopting the writable bits of a patched image is the masked write. */
  lemma PatchThenMask(image: seq<byte>, mask: Mask, at: nat, data: seq<byte>)
    requires at + |data| <= |image| == |mask|
    ensures Written(image, mask, 0, Patched(image, mask, at, data)) == Written(image, mask, at, data)
  {
    hide Merged;
    forall i | 0 <= i < |image|
      ensures Written(image, mask, 0, Patched(image, mask, at, data))[i] == Written(image, mask, at, data)[i]
    {
      MergedWithItself(image[i], mask[i]);
      MergedByWholeOctets(image[i], if at <= i < at + |data| then data[i - at] else 0);
    }
  }

  /** Writes the octets, skipping read-only registers: those without a writable bit. */
  method PatchBlock(block: array<byte>, ghost mask: Mask, readOnly: nat -> bool, start: nat, data: seq<byte>)
    requires block.Length == |mask| && start + |data| <= |mask|
    requires forall addr: nat :: addr < |mask| ==> (readOnly(addr) <==> mask[addr] == 0)
    modifies block
    ensures block[..] == Patched(old(block[..]), mask, start, data)
  {
    var i := 0;
    while i < |data|
      invariant 0 <= i <= |data|
      invariant forall k :: 0 <= k < |mask| ==>
        block[k] == if start <= k < start + i && mask[k] != 0 then data[k - start] else old(block[k])
    {
      if !readOnly(start + i) {
        block[start + i] := data[i];
      }
      i := i + 1;
    }
  }

  datatype WriteResult = WriteOk | WriteShort | WriteOutOfRange

  const ADDRESS_LEN: nat := 2

  function StartAddress(payload: seq<byte>): nat
    requires |payload| >= ADDRESS_LEN
  {
    FieldValue(GetU16(payload))
  }

  /** What becomes of a write to a block of `blockLen` octets. */
  function WriteVerdict(payload: seq<byte>, blockLen: nat): WriteResult {
    if |payload| <= ADDRESS_LEN then WriteShort
    else if StartAddress(payload) + |payload| - ADDRESS_LEN > blockLen then WriteOutOfRange
    else WriteOk
  }

  /** A request is accepted exactly when it is a 16-bit address and at least one octet of data
      that stays inside the block; below three octets it is too short. */
  lemma WriteAcceptedExactlyWhen(payload: seq<byte>, blockLen: nat)
    ensures WriteVerdict(payload, blockLen) == WriteOk <==>
              exists address, data ::
                IsWrite(payload, address, data) && data != [] && FieldValue(address) + |data| <= blockLen
    ensures WriteVerdict(payload, blockLen) == WriteShort <==> |payload| < 3
    ensures WriteVerdict(payload, blockLen) == WriteOk ==>
              IsWrite(payload, Field(StartAddress(payload)), payload[2..])
  {
    hide GetU16; hide PutU16; hide FieldValue; hide Field;
    if |payload| >= 2 {
      PutGetU16(payload[..2]);
      GetU16ReadsPrefix(payload[..2], payload[2..]);
      assert payload == payload[..2] + payload[2..];
      assert IsWrite(payload, GetU16(payload), payload[2..]);
      FieldOfValue(GetU16(payload));
    }
    forall address, data | IsWrite(payload, address, data)
      ensures GetU16(payload) == address && payload[2..] == data
    {
      GetPutU16(address);
      GetU16ReadsPrefix(PutU16(address), data);
    }
  }

  ghost predicate IsWrite(payload: seq<byte>, address: bv16, data: seq<byte>) {
    payload == PutU16(address) + data
  }

  /** Plain memory with unwritable bits, after the accepted writes among the payloads, in order. */
  function Memory(image: seq<byte>, mask: Mask, payloads: seq<seq<byte>>): (after: seq<byte>)
    requires |image| == |mask|
    ensures |after| == |image|
  {
    if payloads == [] then image
    else
      var before, payload := Memory(image, mask, payloads[..|payloads| - 1]), payloads[|payloads| - 1];
      if WriteVerdict(payload, |image|) != WriteOk then before
      else Written(before, mask, StartAddress(payload), payload[ADDRESS_LEN..])
  }

  /** Some write among the payloads is accepted. */
  predicate AnyWritten(payloads: seq<seq<byte>>, blockLen: nat) {
    exists i :: 0 <= i < |payloads| && WriteVerdict(payloads[i], blockLen) == WriteOk
  }

  lemma NothingWritten(blockLen: nat)
    ensures !AnyWritten([], blockLen)
  {}

  lemma AnyWrittenSnoc(payloads: seq<seq<byte>>, blockLen: nat)
    requires payloads != []
    ensures var n := |payloads| - 1;
            AnyWritten(payloads, blockLen)
            <==> AnyWritten(payloads[..n], blockLen) || WriteVerdict(payloads[n], blockLen) == WriteOk
  {
    hide WriteVerdict;
    var n := |payloads| - 1;
    if AnyWritten(payloads[..n], blockLen) {
      var i :| 0 <= i < n && WriteVerdict(payloads[..n][i], blockLen) == WriteOk;
      assert payloads[i] == payloads[..n][i];
    }
    if AnyWritten(payloads, blockLen) {
      var i :| 0 <= i < |payloads| && WriteVerdict(payloads[i], blockLen) == WriteOk;
      assert i < n ==> payloads[..n][i] == payloads[i];
    }
  }

  /** `rcp_regmap_ep_functional_cfg_t`. */
  datatype Common = Common(
    enable: bool, clearReqStorage: bool, reqCrcEnable: bool, responseTsEnable: bool, suppressResponse: bool)

  const ENABLE_MASK: byte := 0x11
  const OPTIONS_MASK: byte := 0x89

  function EnableOctet(c: Common): byte {
    (if c.enable then 0x01 else 0) | (if c.clearReqStorage then 0x10 else 0)
  }

  function OptionsOctet(c: Common): byte {
    (if c.reqCrcEnable then 0x01 else 0) | (if c.responseTsEnable then 0x08 else 0)
    | (if c.suppressResponse then 0x80 else 0)
  }

  function CommonFrom(enable: byte, options: byte): Common {
    Common(enable & 0x01 != 0, enable & 0x10 != 0, options & 0x01 != 0, options & 0x08 != 0, options & 0x80 != 0)
  }

  /** Table 35: each bit of the two octets is one switch. */
  lemma CommonBits(enable: byte, options: byte)
    ensures var c := CommonFrom(enable, options);
            && (c.enable <==> enable & 1 == 1) && (c.clearReqStorage <==> enable & 16 == 16)
            && (c.reqCrcEnable <==> options & 1 == 1) && (c.responseTsEnable <==> options & 8 == 8)
            && (c.suppressResponse <==> options & 128 == 128)
  {}

  lemma CommonOfOctets(c: Common)
    ensures CommonFrom(EnableOctet(c), OptionsOctet(c)) == c
  {}

  lemma OctetsOfCommon(c: Common, enable: byte, options: byte)
    ensures EnableOctet(CommonFrom(enable, options)) == Merged(EnableOctet(c), enable, ENABLE_MASK)
    ensures OptionsOctet(CommonFrom(enable, options)) == Merged(OptionsOctet(c), options, OPTIONS_MASK)
  {}
}
