/** The CAN endpoint's EP_func register block (`src/ep_can.c`; Table 56 of the
    specification). */
module CanRegisters {
  import opened Octets
  import opened RegisterBlock

  const BLOCK_LEN: nat := 36
  const UNDECOMPOSED_START: nat := 8
  const UNDECOMPOSED_LEN: nat := 20

  datatype BitTiming = BitTiming(prescaler: bv32, propSeg: bv16, phaseSeg1: bv16, phaseSeg2: bv16, syncJumpWidth: byte)

  datatype XlFilter = XlFilter(id: bv32, mask: bv32, enable: bool)

  /** The fields without a register. */
  datatype Provisioning = Provisioning(
    arbitration: BitTiming, fdData: BitTiming, xlData: BitTiming, delayCompEnable: bool, delayCompOffset: byte,
    execDelayClkDivider: bv32, xlFilters: seq<XlFilter>, xlNewPlProvisioned: bool)

  datatype CanConfig = CanConfig(
    common: Common, epStatus: bv16, status: bv32, fifoStatus: bv32, provisioning: Provisioning)

  // --- Render and parse ------------------------------------------------------------

  function Head(cfg: CanConfig): (image: seq<byte>)
    ensures |image| == UNDECOMPOSED_START
  {
    [36, 0, EnableOctet(cfg.common), OptionsOctet(cfg.common), 0, 0] + PutU16(cfg.epStatus)
  }

  function Tail(cfg: CanConfig): (image: seq<byte>)
    ensures |image| == 8
  {
    PutU32(cfg.status) + PutU32(cfg.fifoStatus)
  }

  /** The block as a reader sees it; the span not decomposed into registers reads zero. */
  function Render(cfg: CanConfig): (image: seq<byte>)
    ensures |image| == BLOCK_LEN
  {
    Head(cfg) + Zeros(UNDECOMPOSED_LEN) + Tail(cfg)
  }

  const HEAD_MASK: Mask := [0, 0, ENABLE_MASK, OPTIONS_MASK, 0, 0, 0xFF, 0xFF]

  function BlockMask(): (mask: Mask)
    ensures |mask| == BLOCK_LEN
  {
    HEAD_MASK + Zeros(UNDECOMPOSED_LEN) + [0xFF, 0xFF, 0xFF, 0xFF, 0xFF, 0xFF, 0xFF, 0xFF]
  }

  /** The configuration after adopting a block image. */
  function Parse(cfg: CanConfig, image: seq<byte>): CanConfig
    requires |image| == BLOCK_LEN
  {
    cfg.(common := CommonFrom(image[2], image[3]), epStatus := GetU16(image[6..8]),
         status := GetU32(image[28..32]), fifoStatus := GetU32(image[32..36]))
  }

  lemma HeadOfParse(cfg: CanConfig, image: seq<byte>)
    requires |image| == BLOCK_LEN
    ensures Head(Parse(cfg, image)) == Written(Head(cfg), HEAD_MASK, 0, image[..8])
  {
    hide EnableOctet; hide OptionsOctet; hide CommonFrom; hide PutU16; hide GetU16; hide GetU32; hide Merged;
    OctetsOfCommon(cfg.common, image[2], image[3]);
    PutGetU16(image[6..8]);
    var before := Head(cfg);
    forall i | 0 <= i < 8
      ensures Merged(before[i], image[i], 0) == before[i] && Merged(before[i], image[i], 0xFF) == image[i]
    {
      MergedByWholeOctets(before[i], image[i]);
    }
  }

  lemma TailOfParse(cfg: CanConfig, image: seq<byte>)
    requires |image| == BLOCK_LEN
    ensures Tail(Parse(cfg, image)) == image[28..]
  {
    hide PutU32; hide GetU32; hide GetU16; hide CommonFrom;
    PutGetU32(image[28..32]);
    PutGetU32(image[32..36]);
    assert image[28..] == image[28..32] + image[32..36];
  }

  /** What is rendered after adopting an image: its writable bits, the rest unchanged. */
  lemma RenderOfParse(cfg: CanConfig, image: seq<byte>)
    requires |image| == BLOCK_LEN
    ensures Render(Parse(cfg, image)) == Written(Render(cfg), BlockMask(), 0, image)
  {
    hide Parse; hide Head; hide Tail; hide Merged;
    HeadOfParse(cfg, image);
    TailOfParse(cfg, image);
    var before, after := Render(cfg), Render(Parse(cfg, image));
    forall i | 0 <= i < BLOCK_LEN
      ensures after[i] == Merged(before[i], image[i], BlockMask()[i])
    {
      MergedByWholeOctets(before[i], image[i]);
      if i < 8 {
        assert after[i] == Written(Head(cfg), HEAD_MASK, 0, image[..8])[i];
      }
    }
  }

  /** Every configuration is read back. */
  lemma ParseOfRender(cfg: CanConfig)
    ensures Parse(cfg, Render(cfg)) == cfg
  {
    hide EnableOctet; hide OptionsOctet; hide CommonFrom; hide PutU16; hide GetU16; hide PutU32; hide GetU32;
    CommonOfOctets(cfg.common);
    GetPutU16(cfg.epStatus);
    GetPutU32(cfg.status);
    GetPutU32(cfg.fifoStatus);
    var image := Render(cfg);
    assert image[6..8] == PutU16(cfg.epStatus);
    assert image[28..32] == PutU32(cfg.status);
    assert image[32..36] == PutU32(cfg.fifoStatus);
  }

  /** Adopting an image leaves no trace of an earlier one. */
  lemma ParseOverwrites(cfg: CanConfig, image1: seq<byte>, image2: seq<byte>)
    requires |image1| == |image2| == BLOCK_LEN
    ensures Parse(Parse(cfg, image1), image2) == Parse(cfg, image2)
  {}

  // --- Configuration writes ------------------------------------------------------------

  /** `rcp_ep_can_apply_reconfig`. */
  function ApplyStep(cfg: CanConfig, payload: seq<byte>): (CanConfig, WriteResult) {
    var verdict := WriteVerdict(payload, BLOCK_LEN);
    if verdict != WriteOk then (cfg, verdict)
    else (WriteAt(cfg, StartAddress(payload), payload[ADDRESS_LEN..]), WriteOk)
  }

  function WriteAt(cfg: CanConfig, at: nat, data: seq<byte>): CanConfig
    requires at + |data| <= BLOCK_LEN
  {
    Parse(cfg, Patched(Render(cfg), BlockMask(), at, data))
  }

  /** The image after a write is the image written as memory: only addressed octets differ,
      and only in their writable bits. The configuration is the one that image describes. */
  lemma WriteIsMemoryWrite(cfg: CanConfig, at: nat, data: seq<byte>)
    requires at + |data| <= BLOCK_LEN
    ensures Render(WriteAt(cfg, at, data)) == Written(Render(cfg), BlockMask(), at, data)
    ensures WriteAt(cfg, at, data) == Parse(cfg, Written(Render(cfg), BlockMask(), at, data))
  {
    hide Render; hide Parse; hide BlockMask; hide Written; hide Patched;
    var patched := Patched(Render(cfg), BlockMask(), at, data);
    RenderOfParse(cfg, patched);
    PatchThenMask(Render(cfg), BlockMask(), at, data);
    ParseOfRender(WriteAt(cfg, at, data));
    ParseOverwrites(cfg, patched, Render(WriteAt(cfg, at, data)));
  }

  lemma WriteAfterWrite(cfg: CanConfig, at1: nat, data1: seq<byte>, at2: nat, data2: seq<byte>)
    requires at1 + |data1| <= BLOCK_LEN && at2 + |data2| <= BLOCK_LEN
    ensures WriteAt(WriteAt(cfg, at1, data1), at2, data2)
            == Parse(cfg, Written(Written(Render(cfg), BlockMask(), at1, data1), BlockMask(), at2, data2))
  {
    hide Render; hide Parse; hide BlockMask; hide Written; hide Patched;
    WriteIsMemoryWrite(WriteAt(cfg, at1, data1), at2, data2);
    WriteIsMemoryWrite(cfg, at1, data1);
    ParseOverwrites(cfg, Patched(Render(cfg), BlockMask(), at1, data1),
                    Written(Written(Render(cfg), BlockMask(), at1, data1), BlockMask(), at2, data2));
  }

  /** Two adjacent writes are one. */
  lemma AdjacentWritesCombine(cfg: CanConfig, at: nat, data1: seq<byte>, data2: seq<byte>)
    requires at + |data1| + |data2| <= BLOCK_LEN
    ensures WriteAt(WriteAt(cfg, at, data1), at + |data1|, data2) == WriteAt(cfg, at, data1 + data2)
  {
    hide WriteAt; hide Render; hide Parse; hide BlockMask; hide Written;
    WriteAfterWrite(cfg, at, data1, at + |data1|, data2);
    WriteSplits(Render(cfg), BlockMask(), at, data1, data2);
    WriteIsMemoryWrite(cfg, at, data1 + data2);
  }

  /** Repeating a write changes nothing. */
  lemma RepeatedWriteChangesNothing(cfg: CanConfig, at: nat, data: seq<byte>)
    requires at + |data| <= BLOCK_LEN
    ensures WriteAt(WriteAt(cfg, at, data), at, data) == WriteAt(cfg, at, data)
  {
    hide WriteAt; hide Render; hide Parse; hide BlockMask; hide Written;
    WriteAfterWrite(cfg, at, data, at, data);
    WriteIsIdempotent(Render(cfg), BlockMask(), at, data);
    WriteIsMemoryWrite(cfg, at, data);
  }

  /** Fields without a register keep their value, and so does every register that no octet
      of the write addresses. */
  lemma WriteKeeps(cfg: CanConfig, at: nat, data: seq<byte>)
    requires at + |data| <= BLOCK_LEN
    ensures var after := WriteAt(cfg, at, data);
            && after.provisioning == cfg.provisioning
            && (at + |data| <= 2 || 4 <= at ==> after.common == cfg.common)
            && (at + |data| <= 6 || 8 <= at ==> after.epStatus == cfg.epStatus)
            && (at + |data| <= 28 || 32 <= at ==> after.status == cfg.status)
            && (at + |data| <= 32 ==> after.fifoStatus == cfg.fifoStatus)
  {
    hide CommonFrom; hide GetU16; hide GetU32; hide Render; hide BlockMask;
    var image := Render(cfg);
    var patched := Patched(image, BlockMask(), at, data);
    ParseOfRender(cfg);
    if at + |data| <= 6 || 8 <= at { assert patched[6..8] == image[6..8]; }
    if at + |data| <= 28 || 32 <= at { assert patched[28..32] == image[28..32]; }
    if at + |data| <= 32 { assert patched[32..36] == image[32..36]; }
  }

  /** The configuration after any write requests, in order. */
  function Run(cfg: CanConfig, payloads: seq<seq<byte>>): CanConfig {
    if payloads == [] then cfg
    else ApplyStep(Run(cfg, payloads[..|payloads| - 1]), payloads[|payloads| - 1]).0
  }

  /** Over every run of write requests, refused ones included: the block is plain memory to
      which the accepted writes were made, and the configuration is what it describes. Each
      request is answered by its place in the 36 octets alone. */
  lemma {:induction false} RunIsMemory(cfg: CanConfig, payloads: seq<seq<byte>>, next: seq<byte>)
    ensures var memory := Memory(Render(cfg), BlockMask(), payloads);
            Render(Run(cfg, payloads)) == memory && Run(cfg, payloads) == Parse(cfg, memory)
    ensures ApplyStep(Run(cfg, payloads), next).1 == WriteVerdict(next, 36)
  {
    hide Render; hide Parse; hide BlockMask; hide WriteAt; hide Written;
    if payloads == [] {
      ParseOfRender(cfg);
    } else {
      var front, payload := payloads[..|payloads| - 1], payloads[|payloads| - 1];
      RunIsMemory(cfg, front, payload);
      if WriteVerdict(payload, BLOCK_LEN) == WriteOk {
        WriteIsMemoryWrite(Run(cfg, front), StartAddress(payload), payload[ADDRESS_LEN..]);
        ParseOverwrites(cfg, Memory(Render(cfg), BlockMask(), front), Memory(Render(cfg), BlockMask(), payloads));
      }
    }
  }

  /** Each register is where Table 56 has it: writing it sets its field and nothing else, and
      the octets that no field has take nothing. */
  lemma RegisterAddresses(cfg: CanConfig, enable: byte, options: byte, w: bv16, v: bv32, at: nat, data: seq<byte>)
    ensures WriteAt(cfg, 2, [enable, options]) == cfg.(common := CommonFrom(enable, options))
    ensures WriteAt(cfg, 6, PutU16(w)) == cfg.(epStatus := w)
    ensures WriteAt(cfg, 28, PutU32(v)) == cfg.(status := v)
    ensures WriteAt(cfg, 32, PutU32(v)) == cfg.(fifoStatus := v)
    ensures at + |data| <= 2 || (4 <= at && at + |data| <= 6) || (8 <= at && at + |data| <= 28) ==>
              WriteAt(cfg, at, data) == cfg
  {
    hide Render; hide PutU16; hide PutU32; hide GetU16; hide GetU32; hide CommonFrom; hide WriteAt;
    FieldRegisters(cfg, w, v);
    CommonRegister(cfg, enable, options);
    if at + |data| <= 2 || (4 <= at && at + |data| <= 6) || (8 <= at && at + |data| <= 28) {
      NothingThere(cfg, at, data);
    }
  }

  lemma CommonRegister(cfg: CanConfig, enable: byte, options: byte)
    ensures WriteAt(cfg, 2, [enable, options]) == cfg.(common := CommonFrom(enable, options))
  {
    hide Render; hide GetU16; hide GetU32; hide CommonFrom; hide ENABLE_MASK; hide OPTIONS_MASK; hide BlockMask;
    var patched := Patched(Render(cfg), BlockMask(), 2, [enable, options]);
    CommonIsWritable();
    ParseOfRender(cfg);
    assert patched[6..8] == Render(cfg)[6..8];
    assert patched[28..32] == Render(cfg)[28..32] && patched[32..36] == Render(cfg)[32..36];
  }

  lemma CommonIsWritable()
    ensures BlockMask()[2] != 0 && BlockMask()[3] != 0
  {}

  lemma FieldRegisters(cfg: CanConfig, w: bv16, v: bv32)
    ensures WriteAt(cfg, 6, PutU16(w)) == cfg.(epStatus := w)
    ensures WriteAt(cfg, 28, PutU32(v)) == cfg.(status := v)
    ensures WriteAt(cfg, 32, PutU32(v)) == cfg.(fifoStatus := v)
  {
    hide Render; hide GetU16; hide GetU32; hide CommonFrom; hide BlockMask; hide PutU16; hide PutU32;
    FieldsAreWritable();
    ParseOfRender(cfg);
    GetPutU16(w);
    GetPutU32(v);
    var image := Render(cfg);
    var a := Patched(image, BlockMask(), 6, PutU16(w));
    assert a[6..8] == PutU16(w) && a[28..32] == image[28..32] && a[32..36] == image[32..36];
    var b := Patched(image, BlockMask(), 28, PutU32(v));
    assert b[6..8] == image[6..8] && b[28..32] == PutU32(v) && b[32..36] == image[32..36];
    var c := Patched(image, BlockMask(), 32, PutU32(v));
    assert c[6..8] == image[6..8] && c[28..32] == image[28..32] && c[32..36] == PutU32(v);
  }

  lemma FieldsAreWritable()
    ensures forall i :: 6 <= i < 8 || 28 <= i < 36 ==> BlockMask()[i] != 0
  {}

  lemma NothingThere(cfg: CanConfig, at: nat, data: seq<byte>)
    requires at + |data| <= 2 || (4 <= at && at + |data| <= 6) || (8 <= at && at + |data| <= 28)
    ensures WriteAt(cfg, at, data) == cfg
  {
    hide Render; hide Parse;
    var patched := Patched(Render(cfg), BlockMask(), at, data);
    assert forall i :: at <= i < at + |data| ==> BlockMask()[i] == 0;
    assert patched == Render(cfg);
    ParseOfRender(cfg);
  }

  // --- In place ----------------------------------------------------------------------

  /** `can_reg_offset_read_only`. */
  predicate RegOffsetReadOnly(addr: nat) {
    || addr == 0 || addr == 1 || 4 <= addr < 6
    || UNDECOMPOSED_START <= addr < UNDECOMPOSED_START + UNDECOMPOSED_LEN
  }

  lemma ReadOnlyExactlyWhenUnmasked(addr: nat)
    requires addr < BLOCK_LEN
    ensures RegOffsetReadOnly(addr) <==> BlockMask()[addr] == 0
  {}

  class Registers {
    var common: Common
    var epStatus: bv16
    var status: bv32
    var fifoStatus: bv32
    var provisioning: Provisioning

    ghost function Value(): CanConfig
      reads this
    {
      CanConfig(common, epStatus, status, fifoStatus, provisioning)
    }

    constructor (provisioning: Provisioning)
      ensures Value() == CanConfig(Common(false, false, false, false, false), 0, 0, 0, provisioning)
    {
      common := Common(false, false, false, false, false);
      epStatus, status, fifoStatus := 0, 0, 0;
      this.provisioning := provisioning;
    }

    method RenderRegisters(out: array<byte>)
      requires out.Length == BLOCK_LEN
      modifies out
      ensures out[..] == Render(Value())
    {
      hide EnableOctet; hide OptionsOctet; hide PutU16; hide PutU32;
      out[0], out[1] := 36, 0;
      out[2], out[3] := EnableOctet(common), OptionsOctet(common);
      var word := PutU16(epStatus);
      out[4], out[5], out[6], out[7] := 0, 0, word[0], word[1];
      assert out[..8] == Head(Value());
      forall i | UNDECOMPOSED_START <= i < UNDECOMPOSED_START + UNDECOMPOSED_LEN {
        out[i] := 0;
      }
      assert out[..28] == Head(Value()) + Zeros(UNDECOMPOSED_LEN);
      StoreU32(out, 28, status);
      StoreU32(out, 32, fifoStatus);
    }

    method ParseRegisters(image: array<byte>)
      requires image.Length == BLOCK_LEN
      modifies this
      ensures Value() == Parse(old(Value()), image[..])
    {
      hide CommonFrom; hide GetU16; hide GetU32;
      var block := image[..];
      common := CommonFrom(block[2], block[3]);
      epStatus := GetU16(block[6..8]);
      status := GetU32(block[28..32]);
      fifoStatus := GetU32(block[32..36]);
    }

    /** `rcp_ep_can_apply_reconfig`. */
    method ApplyReconfig(payload: seq<byte>) returns (result: WriteResult)
      modifies this
      ensures (Value(), result) == ApplyStep(old(Value()), payload)
    {
      hide Parse; hide Render; hide BlockMask; hide GetU16; hide FieldValue;
      if |payload| <= ADDRESS_LEN {
        return WriteShort;
      }
      var start := StartAddress(payload);
      var data := payload[ADDRESS_LEN..];
      if start + |data| > BLOCK_LEN {
        return WriteOutOfRange;
      }
      var block := new byte[BLOCK_LEN];
      RenderRegisters(block);
      forall addr: nat | addr < BLOCK_LEN
        ensures RegOffsetReadOnly(addr) <==> BlockMask()[addr] == 0
      {
        ReadOnlyExactlyWhenUnmasked(addr);
      }
      PatchBlock(block, BlockMask(), RegOffsetReadOnly, start, data);
      ParseRegisters(block);
      return WriteOk;
    }
  }
}
