/** The SPI endpoint's EP_func register block (`src/ep_spi.c`; Tables 39 and 42 of the
    specification), written in place through render, patch and parse. */
module SpiRegisters {
  import opened Octets
  import opened RegisterBlock

  const CHANNELS: nat := 6
  const CHANNEL_BASE: nat := 6
  const CHANNEL_SPAN: nat := 8
  const BLOCK_LEN: nat := 54

  const MODE_0: byte := 0
  const MODE_1: byte := 1
  const MODE_2: byte := 2
  const MODE_3: byte := 3
  const CS_ACTIVE_LOW: byte := 0
  const CS_ACTIVE_HIGH: byte := 1

  /** The fields up to `interTransferDelay`, mode and chip-select polarity apart, have no
      register. */
  datatype Channel = Channel(
    mode: byte, csPolarity: byte, bitOrder: byte, trigger: byte,
    clockDivider: bv32, interByteDelay: bv32, interTransferDelay: bv32,
    baudRate: bv16, useCommonCs: bool, csLeadtime: byte, csTrailtime: byte, bitsMax: byte, pauseMin: byte,
    deassertCsPause: bool)

  const ZERO_CHANNEL := Channel(0, 0, 0, 0, 0, 0, 0, 0, false, 0, 0, 0, 0, false)

  datatype Config = Config(common: Common, channels: seq<Channel>, epStatus: bv16)

  type SpiConfig = c: Config | |c.channels| == CHANNELS
    witness Config(Common(false, false, false, false, false),
                   [ZERO_CHANNEL, ZERO_CHANNEL, ZERO_CHANNEL, ZERO_CHANNEL, ZERO_CHANNEL, ZERO_CHANNEL], 0)

  // --- One channel ---------------------------------------------------------------

  predicate Cpol(mode: byte) {
    mode == MODE_2 || mode == MODE_3
  }

  predicate Cpha(mode: byte) {
    mode == MODE_1 || mode == MODE_3
  }

  function ModeFromBits(cpol: bool, cpha: bool): byte {
    if !cpol && !cpha then MODE_0 else if !cpol then MODE_1 else if !cpha then MODE_2 else MODE_3
  }

  function CfgOctet(ch: Channel): byte {
    (if Cpol(ch.mode) then 0x01 else 0) | (if Cpha(ch.mode) then 0x02 else 0)
    | (if ch.csPolarity == CS_ACTIVE_HIGH then 0x04 else 0) | (if ch.useCommonCs then 0x08 else 0)
    | (if ch.deassertCsPause then 0x10 else 0)
  }

  function ChannelImage(ch: Channel): (image: seq<byte>)
    ensures |image| == CHANNEL_SPAN
  {
    PutU16(ch.baudRate) + [CfgOctet(ch), ch.csLeadtime, ch.csTrailtime, ch.bitsMax, ch.pauseMin, 0]
  }

  const CHANNEL_MASK: Mask := [0xFF, 0xFF, 0x1F, 0xFF, 0xFF, 0xFF, 0xFF, 0]

  function WithCfg(ch: Channel, cfg: byte): Channel {
    ch.(mode := ModeFromBits(cfg & 0x01 != 0, cfg & 0x02 != 0),
        csPolarity := if cfg & 0x04 != 0 then CS_ACTIVE_HIGH else CS_ACTIVE_LOW,
        useCommonCs := cfg & 0x08 != 0,
        deassertCsPause := cfg & 0x10 != 0)
  }

  function ParseChannel(ch: Channel, image: seq<byte>): Channel
    requires |image| == CHANNEL_SPAN
  {
    WithCfg(ch, image[2]).(
      baudRate := GetU16(image), csLeadtime := image[3], csTrailtime := image[4], bitsMax := image[5],
      pauseMin := image[6])
  }

  /** The wire can express the channel's mode and polarity. */
  predicate CanonicalChannel(ch: Channel) {
    ch.mode <= MODE_3 && ch.csPolarity <= CS_ACTIVE_HIGH
  }

  lemma CfgReadsBack(ch: Channel)
    ensures WithCfg(ch, CfgOctet(ch)) == ch <==> CanonicalChannel(ch)
  {}

  lemma CfgOfWritten(ch: Channel, cfg: byte)
    ensures CfgOctet(WithCfg(ch, cfg)) == Merged(CfgOctet(ch), cfg, 0x1F)
    ensures CanonicalChannel(WithCfg(ch, cfg))
  {}

  lemma CfgIgnoresOthers(ch: Channel, ch': Channel)
    requires ch.mode == ch'.mode && ch.csPolarity == ch'.csPolarity && ch.useCommonCs == ch'.useCommonCs
    requires ch.deassertCsPause == ch'.deassertCsPause
    ensures CfgOctet(ch) == CfgOctet(ch')
  {
    hide Cpol; hide Cpha;
  }

  lemma ChannelReadsBack(ch: Channel)
    ensures ParseChannel(ch, ChannelImage(ch)) == ch <==> CanonicalChannel(ch)
  {
    hide CfgOctet; hide WithCfg; hide PutU16; hide GetU16;
    CfgReadsBack(ch);
    var image := ChannelImage(ch);
    assert image == PutU16(ch.baudRate) + image[2..];
    GetPutU16(ch.baudRate);
    GetU16ReadsPrefix(PutU16(ch.baudRate), image[2..]);
    WithCfgFields(ch, CfgOctet(ch));
  }

  lemma WithCfgFields(ch: Channel, cfg: byte)
    ensures var c := WithCfg(ch, cfg);
            c == ch.(mode := c.mode, csPolarity := c.csPolarity, useCommonCs := c.useCommonCs,
                     deassertCsPause := c.deassertCsPause)
  {
    hide ModeFromBits;
  }

  lemma ImageOfParsed(ch: Channel, image: seq<byte>)
    requires |image| == CHANNEL_SPAN
    ensures ChannelImage(ParseChannel(ch, image))
            == image[..2] + [Merged(CfgOctet(ch), image[2], 0x1F), image[3], image[4], image[5], image[6], 0]
    ensures CanonicalChannel(ParseChannel(ch, image))
  {
    hide CfgOctet; hide WithCfg; hide PutU16; hide GetU16; hide Merged;
    CfgOfWritten(ch, image[2]);
    CfgIgnoresOthers(ParseChannel(ch, image), WithCfg(ch, image[2]));
    PutGetU16(image[..2]);
    GetU16ReadsPrefix(image[..2], image[2..]);
    assert image[..2] + image[2..] == image;
  }

  lemma ChannelOfWritten(ch: Channel, image: seq<byte>)
    requires |image| == CHANNEL_SPAN
    ensures ChannelImage(ParseChannel(ch, image)) == Written(ChannelImage(ch), CHANNEL_MASK, 0, image)
    ensures CanonicalChannel(ParseChannel(ch, image))
  {
    hide CfgOctet; hide ParseChannel; hide PutU16; hide Merged; hide CanonicalChannel;
    ImageOfParsed(ch, image);
    var before := ChannelImage(ch);
    forall i | 0 <= i < CHANNEL_SPAN
      ensures Merged(before[i], image[i], 0xFF) == image[i] && Merged(before[i], image[i], 0) == before[i]
    {
      MergedByWholeOctets(before[i], image[i]);
    }
  }

  lemma ParseChannelOverwrites(ch: Channel, image1: seq<byte>, image2: seq<byte>)
    requires |image1| == |image2| == CHANNEL_SPAN
    ensures ParseChannel(ParseChannel(ch, image1), image2) == ParseChannel(ch, image2)
  {
    hide GetU16; hide ModeFromBits;
  }

  // --- The block -----------------------------------------------------------------

  function Prefix(cfg: SpiConfig): (image: seq<byte>)
    ensures |image| == CHANNEL_BASE
  {
    [54, 5, EnableOctet(cfg.common), OptionsOctet(cfg.common)] + PutU16(cfg.epStatus)
  }

  const PREFIX_MASK: Mask := [0, 0, ENABLE_MASK, OPTIONS_MASK, 0xFF, 0xFF]

  function ChannelAt(i: nat): (c: nat)
    requires CHANNEL_BASE <= i < BLOCK_LEN
    ensures c < CHANNELS
  {
    (i - CHANNEL_BASE) / CHANNEL_SPAN
  }

  function RegisterAt(i: nat): (r: nat)
    requires CHANNEL_BASE <= i
    ensures r < CHANNEL_SPAN
  {
    (i - CHANNEL_BASE) % CHANNEL_SPAN
  }

  function OctetAt(cfg: SpiConfig, i: nat): byte
    requires i < BLOCK_LEN
  {
    if i < CHANNEL_BASE then Prefix(cfg)[i] else ChannelImage(cfg.channels[ChannelAt(i)])[RegisterAt(i)]
  }

  /** The block as a reader sees it. */
  function Render(cfg: SpiConfig): (image: seq<byte>)
    ensures |image| == BLOCK_LEN
  {
    seq(BLOCK_LEN, i requires 0 <= i < BLOCK_LEN => OctetAt(cfg, i))
  }

  function MaskAt(i: nat): byte {
    if i < CHANNEL_BASE then PREFIX_MASK[i] else CHANNEL_MASK[RegisterAt(i)]
  }

  function BlockMask(): (mask: Mask)
    ensures |mask| == BLOCK_LEN
  {
    seq(BLOCK_LEN, i requires 0 <= i < BLOCK_LEN => MaskAt(i))
  }

  function ChannelSlice(image: seq<byte>, c: nat): (slice: seq<byte>)
    requires |image| == BLOCK_LEN && c < CHANNELS
    ensures |slice| == CHANNEL_SPAN
  {
    image[CHANNEL_BASE + c * CHANNEL_SPAN..CHANNEL_BASE + (c + 1) * CHANNEL_SPAN]
  }

  /** The configuration after adopting a block image. */
  function Parse(cfg: SpiConfig, image: seq<byte>): SpiConfig
    requires |image| == BLOCK_LEN
  {
    Config(CommonFrom(image[2], image[3]),
           seq(CHANNELS, c requires 0 <= c < CHANNELS => ParseChannel(cfg.channels[c], ChannelSlice(image, c))),
           GetU16(image[4..6]))
  }

  /** The wire can express every channel. */
  predicate Canonical(cfg: SpiConfig) {
    forall c :: 0 <= c < CHANNELS ==> CanonicalChannel(cfg.channels[c])
  }

  lemma PrefixOfParse(cfg: SpiConfig, image: seq<byte>, i: nat)
    requires |image| == BLOCK_LEN && i < CHANNEL_BASE
    ensures Prefix(Parse(cfg, image))[i] == Merged(Prefix(cfg)[i], image[i], PREFIX_MASK[i])
  {
    hide EnableOctet; hide OptionsOctet; hide CommonFrom; hide PutU16; hide GetU16; hide Merged; hide ParseChannel;
    OctetsOfCommon(cfg.common, image[2], image[3]);
    PutGetU16(image[4..6]);
    MergedByWholeOctets(Prefix(cfg)[i], image[i]);
  }

  /** What is rendered after adopting an image: its writable bits, the rest unchanged. */
  lemma RenderOfParse(cfg: SpiConfig, image: seq<byte>)
    requires |image| == BLOCK_LEN
    ensures Render(Parse(cfg, image)) == Written(Render(cfg), BlockMask(), 0, image)
  {
    hide Prefix; hide ChannelImage; hide ParseChannel; hide Merged; hide PREFIX_MASK; hide CHANNEL_MASK;
    forall i | 0 <= i < BLOCK_LEN
      ensures OctetAt(Parse(cfg, image), i) == Merged(OctetAt(cfg, i), image[i], MaskAt(i))
    {
      if i < CHANNEL_BASE {
        PrefixOfParse(cfg, image, i);
      } else {
        ChannelOfWritten(cfg.channels[ChannelAt(i)], ChannelSlice(image, ChannelAt(i)));
        assert ChannelSlice(image, ChannelAt(i))[RegisterAt(i)] == image[i];
      }
    }
  }

  lemma ParsedIsCanonical(cfg: SpiConfig, image: seq<byte>)
    requires |image| == BLOCK_LEN
    ensures Canonical(Parse(cfg, image))
  {
    hide ParseChannel; hide CanonicalChannel; hide ChannelImage; hide Merged;
    forall c | 0 <= c < CHANNELS
      ensures CanonicalChannel(Parse(cfg, image).channels[c])
    {
      ChannelOfWritten(cfg.channels[c], ChannelSlice(image, c));
    }
  }

  lemma SliceOfRender(cfg: SpiConfig, c: nat)
    requires c < CHANNELS
    ensures ChannelSlice(Render(cfg), c) == ChannelImage(cfg.channels[c])
  {
    hide Prefix; hide ChannelImage;
    forall r | 0 <= r < CHANNEL_SPAN
      ensures ChannelSlice(Render(cfg), c)[r] == ChannelImage(cfg.channels[c])[r]
    {
      var i := CHANNEL_BASE + c * CHANNEL_SPAN + r;
      assert ChannelAt(i) == c && RegisterAt(i) == r;
    }
  }

  /** A configuration is read back exactly when the wire can express it. */
  lemma ParseOfRenderExactlyWhen(cfg: SpiConfig)
    ensures Parse(cfg, Render(cfg)) == cfg <==> Canonical(cfg)
  {
    hide ParseChannel; hide CanonicalChannel; hide ChannelImage; hide ChannelSlice; hide Render;
    ParsePrefix(cfg);
    forall c | 0 <= c < CHANNELS
      ensures ParseChannel(cfg.channels[c], ChannelSlice(Render(cfg), c)) == cfg.channels[c]
              <==> CanonicalChannel(cfg.channels[c])
    {
      SliceOfRender(cfg, c);
      ChannelReadsBack(cfg.channels[c]);
    }
    var parsed := Parse(cfg, Render(cfg));
    if Canonical(cfg) {
      assert parsed.channels == cfg.channels;
    } else {
      var c :| 0 <= c < CHANNELS && !CanonicalChannel(cfg.channels[c]);
      assert parsed.channels[c] != cfg.channels[c];
    }
  }

  lemma ParsePrefix(cfg: SpiConfig)
    ensures Parse(cfg, Render(cfg)).common == cfg.common
    ensures Parse(cfg, Render(cfg)).epStatus == cfg.epStatus
  {
    hide ParseChannel; hide ChannelImage; hide EnableOctet; hide OptionsOctet; hide CommonFrom; hide PutU16;
    hide GetU16;
    var image := Render(cfg);
    CommonOfOctets(cfg.common);
    GetPutU16(cfg.epStatus);
    assert image[4..6] == PutU16(cfg.epStatus);
  }

  /** Adopting an image leaves no trace of an earlier one. */
  lemma ParseOverwrites(cfg: SpiConfig, image1: seq<byte>, image2: seq<byte>)
    requires |image1| == |image2| == BLOCK_LEN
    ensures Parse(Parse(cfg, image1), image2) == Parse(cfg, image2)
  {
    hide ParseChannel; hide ChannelSlice;
    forall c | 0 <= c < CHANNELS
      ensures ParseChannel(ParseChannel(cfg.channels[c], ChannelSlice(image1, c)), ChannelSlice(image2, c))
              == ParseChannel(cfg.channels[c], ChannelSlice(image2, c))
    {
      ParseChannelOverwrites(cfg.channels[c], ChannelSlice(image1, c), ChannelSlice(image2, c));
    }
    assert Parse(Parse(cfg, image1), image2).channels == Parse(cfg, image2).channels;
  }

  // --- Configuration writes ---------------------------------------------------------

  /** `rcp_ep_spi_apply_reconfig`. */
  function ApplyStep(cfg: SpiConfig, payload: seq<byte>): (SpiConfig, WriteResult) {
    var verdict := WriteVerdict(payload, BLOCK_LEN);
    if verdict != WriteOk then (cfg, verdict)
    else (WriteAt(cfg, StartAddress(payload), payload[ADDRESS_LEN..]), WriteOk)
  }

  function WriteAt(cfg: SpiConfig, at: nat, data: seq<byte>): SpiConfig
    requires at + |data| <= BLOCK_LEN
  {
    Parse(cfg, Patched(Render(cfg), BlockMask(), at, data))
  }

  /** The image after a write is the image written as memory: only addressed octets differ,
      and only in their writable bits. */
  lemma WriteIsMemoryWrite(cfg: SpiConfig, at: nat, data: seq<byte>)
    requires at + |data| <= BLOCK_LEN
    ensures Render(WriteAt(cfg, at, data)) == Written(Render(cfg), BlockMask(), at, data)
  {
    hide Render; hide Parse; hide BlockMask; hide Written; hide Patched;
    RenderOfParse(cfg, Patched(Render(cfg), BlockMask(), at, data));
    PatchThenMask(Render(cfg), BlockMask(), at, data);
  }

  /** And the configuration after it is the one that image describes. */
  lemma WriteAdoptsImage(cfg: SpiConfig, at: nat, data: seq<byte>)
    requires at + |data| <= BLOCK_LEN
    ensures WriteAt(cfg, at, data) == Parse(cfg, Written(Render(cfg), BlockMask(), at, data))
  {
    hide Render; hide Parse; hide BlockMask; hide Written; hide Patched; hide Canonical;
    var patched := Patched(Render(cfg), BlockMask(), at, data);
    ParsedIsCanonical(cfg, patched);
    ParseOfRenderExactlyWhen(WriteAt(cfg, at, data));
    WriteIsMemoryWrite(cfg, at, data);
    ParseOverwrites(cfg, patched, Render(WriteAt(cfg, at, data)));
  }

  lemma WriteAfterWrite(cfg: SpiConfig, at1: nat, data1: seq<byte>, at2: nat, data2: seq<byte>)
    requires at1 + |data1| <= BLOCK_LEN && at2 + |data2| <= BLOCK_LEN
    ensures WriteAt(WriteAt(cfg, at1, data1), at2, data2)
            == Parse(cfg, Written(Written(Render(cfg), BlockMask(), at1, data1), BlockMask(), at2, data2))
  {
    hide Render; hide Parse; hide BlockMask; hide Written; hide Patched;
    WriteAdoptsImage(WriteAt(cfg, at1, data1), at2, data2);
    WriteIsMemoryWrite(cfg, at1, data1);
    ParseOverwrites(cfg, Patched(Render(cfg), BlockMask(), at1, data1),
                    Written(Written(Render(cfg), BlockMask(), at1, data1), BlockMask(), at2, data2));
  }

  /** Two adjacent writes are one. */
  lemma AdjacentWritesCombine(cfg: SpiConfig, at: nat, data1: seq<byte>, data2: seq<byte>)
    requires at + |data1| + |data2| <= BLOCK_LEN
    ensures WriteAt(WriteAt(cfg, at, data1), at + |data1|, data2) == WriteAt(cfg, at, data1 + data2)
  {
    hide WriteAt; hide Render; hide Parse; hide BlockMask; hide Written;
    WriteAfterWrite(cfg, at, data1, at + |data1|, data2);
    WriteSplits(Render(cfg), BlockMask(), at, data1, data2);
    WriteAdoptsImage(cfg, at, data1 + data2);
  }

  /** Repeating a write changes nothing. */
  lemma RepeatedWriteChangesNothing(cfg: SpiConfig, at: nat, data: seq<byte>)
    requires at + |data| <= BLOCK_LEN
    ensures WriteAt(WriteAt(cfg, at, data), at, data) == WriteAt(cfg, at, data)
  {
    hide WriteAt; hide Render; hide Parse; hide BlockMask; hide Written;
    WriteAfterWrite(cfg, at, data, at, data);
    WriteIsIdempotent(Render(cfg), BlockMask(), at, data);
    WriteAdoptsImage(cfg, at, data);
  }

  /** Fields without a register keep their value through every write, and so do whole
      channels that no octet of the write addresses, if the wire can express them: one that
      holds a mode or a polarity outside the enumeration is normalised by any write. */
  lemma WriteKeeps(cfg: SpiConfig, at: nat, data: seq<byte>, c: nat)
    requires at + |data| <= BLOCK_LEN && c < CHANNELS
    ensures var before, after := cfg.channels[c], WriteAt(cfg, at, data).channels[c];
            && after.bitOrder == before.bitOrder && after.trigger == before.trigger
            && after.clockDivider == before.clockDivider
            && after.interByteDelay == before.interByteDelay
            && after.interTransferDelay == before.interTransferDelay
            && (at + |data| <= CHANNEL_BASE + c * CHANNEL_SPAN || CHANNEL_BASE + (c + 1) * CHANNEL_SPAN <= at ==>
                  (after == before <==> CanonicalChannel(before)))
  {
    hide Render; hide ChannelImage; hide BlockMask; hide CanonicalChannel; hide GetU16; hide ModeFromBits;
    hide ParseChannel;
    var patched := Patched(Render(cfg), BlockMask(), at, data);
    ParseKeepsUnregistered(cfg.channels[c], ChannelSlice(patched, c));
    if at + |data| <= CHANNEL_BASE + c * CHANNEL_SPAN || CHANNEL_BASE + (c + 1) * CHANNEL_SPAN <= at {
      assert ChannelSlice(patched, c) == ChannelSlice(Render(cfg), c);
      SliceOfRender(cfg, c);
      ChannelReadsBack(cfg.channels[c]);
    }
  }

  /** A channel of mode 7 becomes mode 0 by a write that addresses the options octet only. */
  lemma UndefinedModeIsNormalised(cfg: SpiConfig)
    requires cfg.channels[0].mode == 7
    ensures WriteAt(cfg, 3, [0]).channels[0].mode == MODE_0
    ensures WriteAt(cfg, 3, [0]) != cfg
  {
    hide BlockMask; hide GetU16; hide Render; hide ChannelImage;
    var patched := Patched(Render(cfg), BlockMask(), 3, [0]);
    assert ChannelSlice(patched, 0) == ChannelSlice(Render(cfg), 0);
    SliceOfRender(cfg, 0);
    ModeSevenRendersAsZero(cfg.channels[0]);
  }

  lemma ModeSevenRendersAsZero(ch: Channel)
    requires ch.mode == 7
    ensures ParseChannel(ch, ChannelImage(ch)).mode == MODE_0
  {
    hide GetU16; hide PutU16;
  }

  lemma ParseKeepsUnregistered(ch: Channel, image: seq<byte>)
    requires |image| == CHANNEL_SPAN
    ensures var after := ParseChannel(ch, image);
            && after.bitOrder == ch.bitOrder && after.trigger == ch.trigger && after.clockDivider == ch.clockDivider
            && after.interByteDelay == ch.interByteDelay && after.interTransferDelay == ch.interTransferDelay
  {
    hide GetU16; hide ModeFromBits;
  }

  /** The configuration after any write requests, in order. */
  function Run(cfg: SpiConfig, payloads: seq<seq<byte>>): SpiConfig {
    if payloads == [] then cfg
    else ApplyStep(Run(cfg, payloads[..|payloads| - 1]), payloads[|payloads| - 1]).0
  }

  /** Over every run of write requests, refused ones included: the block is plain memory to
      which the accepted writes were made, and the configuration is what it describes, or
      the old one if none was accepted. Each request is answered by its place in the 54
      octets alone. */
  lemma {:induction false} RunIsMemory(cfg: SpiConfig, payloads: seq<seq<byte>>, next: seq<byte>)
    ensures var memory := Memory(Render(cfg), BlockMask(), payloads);
            && Render(Run(cfg, payloads)) == memory
            && Run(cfg, payloads) == if AnyWritten(payloads, BLOCK_LEN) then Parse(cfg, memory) else cfg
    ensures ApplyStep(Run(cfg, payloads), next).1 == WriteVerdict(next, 54)
  {
    hide Render; hide Parse; hide BlockMask; hide WriteAt; hide Written; hide AnyWritten;
    if payloads == [] {
      NothingWritten(BLOCK_LEN);
    } else {
      var front, payload := payloads[..|payloads| - 1], payloads[|payloads| - 1];
      RunIsMemory(cfg, front, payload);
      AnyWrittenSnoc(payloads, BLOCK_LEN);
      if WriteVerdict(payload, BLOCK_LEN) == WriteOk {
        WriteIsMemoryWrite(Run(cfg, front), StartAddress(payload), payload[ADDRESS_LEN..]);
        WriteAdoptsImage(Run(cfg, front), StartAddress(payload), payload[ADDRESS_LEN..]);
        ParseOverwrites(cfg, Memory(Render(cfg), BlockMask(), front), Memory(Render(cfg), BlockMask(), payloads));
      }
    }
  }

  // --- Where the registers are ----------------------------------------------------------

  /** A write inside one channel's registers is a write to its image. */
  lemma WriteChannel(cfg: SpiConfig, c: nat, r: nat, data: seq<byte>)
    requires Canonical(cfg) && c < CHANNELS && r + |data| <= CHANNEL_SPAN
    ensures CHANNEL_BASE + c * CHANNEL_SPAN + r + |data| <= BLOCK_LEN
    ensures WriteAt(cfg, CHANNEL_BASE + c * CHANNEL_SPAN + r, data)
            == cfg.(channels := cfg.channels[c :=
                 ParseChannel(cfg.channels[c], Written(ChannelImage(cfg.channels[c]), CHANNEL_MASK, r, data))])
  {
    hide Render; hide ChannelImage; hide ParseChannel; hide BlockMask; hide CanonicalChannel; hide WriteAt;
    hide Written;
    hide ChannelSlice;
    var at := CHANNEL_BASE + c * CHANNEL_SPAN + r;
    var image := Written(Render(cfg), BlockMask(), at, data);
    WriteAdoptsImage(cfg, at, data);
    forall k | 0 <= k < CHANNELS
      ensures ParseChannel(cfg.channels[k], ChannelSlice(image, k))
              == if k == c
                 then ParseChannel(cfg.channels[c], Written(ChannelImage(cfg.channels[c]), CHANNEL_MASK, r, data))
                 else cfg.channels[k]
    {
      SliceOfWritten(cfg, c, r, data, k);
      ChannelReadsBack(cfg.channels[k]);
    }
    PrefixOfWritten(cfg, at, data);
    ParsePrefix(cfg);
    var want := cfg.channels[c :=
      ParseChannel(cfg.channels[c], Written(ChannelImage(cfg.channels[c]), CHANNEL_MASK, r, data))];
    assert Parse(cfg, image).channels == want;
  }

  lemma SliceOfWritten(cfg: SpiConfig, c: nat, r: nat, data: seq<byte>, k: nat)
    requires c < CHANNELS && k < CHANNELS && r + |data| <= CHANNEL_SPAN
    ensures var at := CHANNEL_BASE + c * CHANNEL_SPAN + r;
            && at + |data| <= BLOCK_LEN
            && ChannelSlice(Written(Render(cfg), BlockMask(), at, data), k)
               == if k == c then Written(ChannelImage(cfg.channels[c]), CHANNEL_MASK, r, data)
                  else ChannelImage(cfg.channels[k])
  {
    hide Render; hide ChannelImage; hide Written; hide BlockMask;
    SliceOfRender(cfg, k);
    MaskOfChannel(k);
    var from := CHANNEL_BASE + k * CHANNEL_SPAN;
    PartOfWritten(Render(cfg), BlockMask(), CHANNEL_BASE + c * CHANNEL_SPAN + r, data, from, from + CHANNEL_SPAN);
  }

  lemma RegisterOf(k: nat, i: nat)
    requires k < CHANNELS && i < CHANNEL_SPAN
    ensures CHANNEL_BASE + k * CHANNEL_SPAN + i < BLOCK_LEN && RegisterAt(CHANNEL_BASE + k * CHANNEL_SPAN + i) == i
  {}

  lemma MaskOfChannel(k: nat)
    requires k < CHANNELS
    ensures ChannelSlice(BlockMask(), k) == CHANNEL_MASK
  {
    hide RegisterAt;
    forall i | 0 <= i < CHANNEL_SPAN
      ensures ChannelSlice(BlockMask(), k)[i] == CHANNEL_MASK[i]
    {
      var j := CHANNEL_BASE + k * CHANNEL_SPAN + i;
      RegisterOf(k, i);
      assert ChannelSlice(BlockMask(), k)[i] == BlockMask()[j] == MaskAt(j);
    }
  }

  lemma PrefixOfWritten(cfg: SpiConfig, at: nat, data: seq<byte>)
    requires CHANNEL_BASE <= at && at + |data| <= BLOCK_LEN
    ensures var image := Written(Render(cfg), BlockMask(), at, data);
            image[2] == Render(cfg)[2] && image[3] == Render(cfg)[3] && image[4..6] == Render(cfg)[4..6]
  {
    hide Render; hide BlockMask; hide Merged;
  }

  /** Each register is where Table 42 has it: writing it sets its field of its channel, and
      nothing else. */
  lemma RegisterAddresses(cfg: SpiConfig, c: nat, v: byte, w: bv16)
    requires Canonical(cfg) && c < 6
    ensures var ch := cfg.channels[c];
            && WriteAt(cfg, 6 + 8 * c, PutU16(w)) == WithChannel(cfg, c, ch.(baudRate := w))
            && WriteAt(cfg, 8 + 8 * c, [v]) == WithChannel(cfg, c, WithCfg(ch, v))
            && WriteAt(cfg, 9 + 8 * c, [v]) == WithChannel(cfg, c, ch.(csLeadtime := v))
            && WriteAt(cfg, 10 + 8 * c, [v]) == WithChannel(cfg, c, ch.(csTrailtime := v))
            && WriteAt(cfg, 11 + 8 * c, [v]) == WithChannel(cfg, c, ch.(bitsMax := v))
            && WriteAt(cfg, 12 + 8 * c, [v]) == WithChannel(cfg, c, ch.(pauseMin := v))
            && WriteAt(cfg, 13 + 8 * c, [v]) == cfg
  {
    hide WriteAt; hide ParseChannel; hide ChannelImage; hide Written; hide PutU16; hide WithCfg; hide CHANNEL_MASK;
    hide CanonicalChannel;
    var ch := cfg.channels[c];
    WriteChannel(cfg, c, 0, PutU16(w));
    WriteChannel(cfg, c, 2, [v]);
    WriteChannel(cfg, c, 3, [v]);
    WriteChannel(cfg, c, 4, [v]);
    WriteChannel(cfg, c, 5, [v]);
    WriteChannel(cfg, c, 6, [v]);
    WriteChannel(cfg, c, 7, [v]);
    BaudRegister(ch, w);
    CfgRegister(ch, v);
    OctetRegisters(ch, v);
    assert cfg.channels[c := ch] == cfg.channels;
  }

  function WithChannel(cfg: SpiConfig, c: nat, ch: Channel): SpiConfig
    requires c < CHANNELS
  {
    cfg.(channels := cfg.channels[c := ch])
  }

  lemma BaudRegister(ch: Channel, w: bv16)
    requires CanonicalChannel(ch)
    ensures ParseChannel(ch, Written(ChannelImage(ch), CHANNEL_MASK, 0, PutU16(w))) == ch.(baudRate := w)
  {
    hide PutU16; hide GetU16; hide CfgOctet; hide WithCfg; hide Merged;
    var image := ChannelImage(ch);
    var written := Written(image, CHANNEL_MASK, 0, PutU16(w));
    MergedByWholeOctets(image[0], PutU16(w)[0]);
    MergedByWholeOctets(image[1], PutU16(w)[1]);
    assert written == PutU16(w) + written[2..];
    GetPutU16(w);
    GetU16ReadsPrefix(PutU16(w), written[2..]);
    CfgReadsBack(ch);
    WithCfgFields(ch, CfgOctet(ch));
  }

  lemma CfgRegister(ch: Channel, v: byte)
    requires CanonicalChannel(ch)
    ensures ParseChannel(ch, Written(ChannelImage(ch), CHANNEL_MASK, 2, [v])) == WithCfg(ch, v)
  {
    hide PutU16; hide GetU16; hide CfgOctet; hide WithCfg; hide Merged;
    var image := ChannelImage(ch);
    var written := Written(image, CHANNEL_MASK, 2, [v]);
    assert written == PutU16(ch.baudRate) + written[2..];
    GetPutU16(ch.baudRate);
    GetU16ReadsPrefix(PutU16(ch.baudRate), written[2..]);
    CfgOctetIsSmall(ch);
    MaskedCfg(ch, image[2], v);
    WithCfgFields(ch, written[2]);
    WithCfgFields(ch, v);
  }

  lemma CfgOctetIsSmall(ch: Channel)
    ensures CfgOctet(ch) & 0xE0 == 0
  {}

  lemma MaskedCfg(ch: Channel, old_: byte, v: byte)
    requires old_ & 0xE0 == 0
    ensures WithCfg(ch, Merged(old_, v, 0x1F)) == WithCfg(ch, v)
  {}

  lemma OctetRegisters(ch: Channel, v: byte)
    requires CanonicalChannel(ch)
    ensures ParseChannel(ch, Written(ChannelImage(ch), CHANNEL_MASK, 3, [v])) == ch.(csLeadtime := v)
    ensures ParseChannel(ch, Written(ChannelImage(ch), CHANNEL_MASK, 4, [v])) == ch.(csTrailtime := v)
    ensures ParseChannel(ch, Written(ChannelImage(ch), CHANNEL_MASK, 5, [v])) == ch.(bitsMax := v)
    ensures ParseChannel(ch, Written(ChannelImage(ch), CHANNEL_MASK, 6, [v])) == ch.(pauseMin := v)
    ensures ParseChannel(ch, Written(ChannelImage(ch), CHANNEL_MASK, 7, [v])) == ch
  {
    hide Written; hide ChannelImage; hide ParseChannel; hide CanonicalChannel;
    OneOctetParses(ch, 3, v);
    OneOctetParses(ch, 4, v);
    OneOctetParses(ch, 5, v);
    OneOctetParses(ch, 6, v);
    OneOctetParses(ch, 7, v);
  }

  lemma ImageWithOctet(ch: Channel, r: nat, v: byte)
    requires 3 <= r < 8
    ensures Written(ChannelImage(ch), CHANNEL_MASK, r, [v]) == ChannelImage(ch)[r := if r < 7 then v else 0]
  {
    hide PutU16; hide CfgOctet; hide Merged;
    MergedByWholeOctets(ChannelImage(ch)[r], v);
  }

  lemma OneOctetParses(ch: Channel, r: nat, v: byte)
    requires CanonicalChannel(ch) && 3 <= r < 8
    ensures ParseChannel(ch, Written(ChannelImage(ch), CHANNEL_MASK, r, [v]))
            == ch.(csLeadtime := if r == 3 then v else ch.csLeadtime,
                   csTrailtime := if r == 4 then v else ch.csTrailtime,
                   bitsMax := if r == 5 then v else ch.bitsMax, pauseMin := if r == 6 then v else ch.pauseMin)
  {
    hide PutU16; hide CfgOctet; hide Written; hide ParseChannel; hide ChannelImage; hide CanonicalChannel;
    ImageWithOctet(ch, r, v);
    ImageOctets(ch);
    ParseBehindOptions(ch, ChannelImage(ch)[r := if r < 7 then v else 0]);
  }

  lemma ImageOctets(ch: Channel)
    ensures var image := ChannelImage(ch);
            && image[0] == PutU16(ch.baudRate)[0] && image[1] == PutU16(ch.baudRate)[1] && image[2] == CfgOctet(ch)
            && image[3] == ch.csLeadtime && image[4] == ch.csTrailtime && image[5] == ch.bitsMax
            && image[6] == ch.pauseMin
  {
    hide PutU16; hide CfgOctet;
  }

  /** An image that starts with the channel's own baud rate and options. */
  lemma ParseBehindOptions(ch: Channel, image: seq<byte>)
    requires CanonicalChannel(ch) && |image| == CHANNEL_SPAN
    requires image[0] == PutU16(ch.baudRate)[0] && image[1] == PutU16(ch.baudRate)[1] && image[2] == CfgOctet(ch)
    ensures ParseChannel(ch, image)
            == ch.(csLeadtime := image[3], csTrailtime := image[4], bitsMax := image[5], pauseMin := image[6])
  {
    hide PutU16; hide GetU16; hide CfgOctet; hide WithCfg;
    assert image == PutU16(ch.baudRate) + image[2..];
    GetPutU16(ch.baudRate);
    GetU16ReadsPrefix(PutU16(ch.baudRate), image[2..]);
    CfgReadsBack(ch);
    WithCfgFields(ch, CfgOctet(ch));
  }

  /** The block starts with its length, the channel count less one, the common switches and the
      endpoint status; the first two take no writes. */
  lemma PrefixAddresses(cfg: SpiConfig, enable: byte, options: byte, w: bv16, v: byte)
    requires Canonical(cfg)
    ensures Render(cfg)[0] == 54 && Render(cfg)[1] == 5
    ensures WriteAt(cfg, 0, [v, v]) == cfg
    ensures WriteAt(cfg, 2, [enable, options]) == cfg.(common := CommonFrom(enable, options))
    ensures WriteAt(cfg, 4, PutU16(w)) == cfg.(epStatus := w)
  {
    hide PutU16; hide GetU16; hide CommonFrom; hide ParseChannel; hide ChannelImage; hide Canonical;
    hide ENABLE_MASK; hide OPTIONS_MASK; hide EnableOctet; hide OptionsOctet;
    ParseOfRenderExactlyWhen(cfg);
    PrefixIsWritable();
    GetPutU16(w);
    PrefixPatched(cfg, 0, [v, v]);
    PrefixPatched(cfg, 2, [enable, options]);
    PrefixPatched(cfg, 4, PutU16(w));
    hide Render; hide BlockMask;
    var image := Render(cfg);
    assert Patched(image, BlockMask(), 2, [enable, options])[4..6] == image[4..6];
    assert Patched(image, BlockMask(), 4, PutU16(w))[4..6] == PutU16(w);
    assert Patched(image, BlockMask(), 0, [v, v]) == image;
  }

  lemma PrefixIsWritable()
    ensures forall i :: 0 <= i < 6 ==> (BlockMask()[i] != 0 <==> i >= 2)
  {}

  /** A write to the prefix leaves the channels alone. */
  lemma PrefixPatched(cfg: SpiConfig, at: nat, data: seq<byte>)
    requires Canonical(cfg) && at + |data| <= 6
    ensures Parse(cfg, Patched(Render(cfg), BlockMask(), at, data)).channels == cfg.channels
  {
    hide Render; hide BlockMask; hide ParseChannel; hide CommonFrom; hide GetU16;
    var patched := Patched(Render(cfg), BlockMask(), at, data);
    ParseOfRenderExactlyWhen(cfg);
    forall c | 0 <= c < CHANNELS
      ensures ChannelSlice(patched, c) == ChannelSlice(Render(cfg), c)
    {}
    assert Parse(cfg, Render(cfg)).channels == cfg.channels;
    assert Parse(cfg, patched).channels == Parse(cfg, Render(cfg)).channels;
  }

  /** Each bit of the options octet is one switch; the lowest two name the clock mode. */
  lemma OptionBits(ch: Channel, v: byte)
    ensures var after := WithCfg(ch, v);
            && after.mode == (if v & 3 == 0 then 0 else if v & 3 == 1 then 2 else if v & 3 == 2 then 1 else 3)
            && (after.csPolarity == 1 <==> v & 4 == 4) && (after.csPolarity == 0 <==> v & 4 == 0)
            && (after.useCommonCs <==> v & 8 == 8) && (after.deassertCsPause <==> v & 16 == 16)
  {}

  // --- In place ---------------------------------------------------------------------

  /** `reg_offset_read_only`. */
  predicate RegOffsetReadOnly(addr: nat) {
    addr == 0 || addr == 1 || (addr >= CHANNEL_BASE && (addr - CHANNEL_BASE) % CHANNEL_SPAN == 7)
  }

  lemma ReadOnlyExactlyWhenUnmasked(addr: nat)
    requires addr < BLOCK_LEN
    ensures RegOffsetReadOnly(addr) <==> BlockMask()[addr] == 0
  {}

  class Registers {
    var common: Common
    const channels: array<Channel>
    var epStatus: bv16

    ghost predicate Valid() {
      channels.Length == CHANNELS
    }

    ghost function Value(): SpiConfig
      requires Valid()
      reads this, channels
    {
      Config(common, channels[..], epStatus)
    }

    constructor ()
      ensures Valid() && fresh(channels)
      ensures Value() == Config(Common(false, false, false, false, false), seq(CHANNELS, _ => ZERO_CHANNEL), 0)
    {
      common, epStatus := Common(false, false, false, false, false), 0;
      channels := new Channel[CHANNELS](_ => ZERO_CHANNEL);
    }

    method RenderRegisters(out: array<byte>)
      requires Valid() && out.Length == BLOCK_LEN
      modifies out
      ensures out[..] == Render(Value())
    {
      hide ChannelImage; hide EnableOctet; hide OptionsOctet; hide PutU16;
      var status := PutU16(epStatus);
      out[0], out[1] := 54, 5;
      out[2], out[3] := EnableOctet(common), OptionsOctet(common);
      out[4], out[5] := status[0], status[1];
      var c := 0;
      while c < CHANNELS
        invariant 0 <= c <= CHANNELS
        invariant forall i :: 0 <= i < CHANNEL_BASE + c * CHANNEL_SPAN ==> out[i] == OctetAt(Value(), i)
      {
        var base := CHANNEL_BASE + c * CHANNEL_SPAN;
        StoreChannel(out, base, channels[c]);
        forall i | base <= i < base + CHANNEL_SPAN
          ensures out[i] == OctetAt(Value(), i)
        {
          assert ChannelAt(i) == c && RegisterAt(i) == i - base;
          assert out[i] == out[base..base + CHANNEL_SPAN][i - base];
        }
        c := c + 1;
      }
    }

    method ParseRegisters(image: array<byte>)
      requires Valid() && image.Length == BLOCK_LEN
      modifies this, channels
      ensures Value() == Parse(old(Value()), image[..])
    {
      hide ParseChannel; hide CommonFrom; hide GetU16;
      ghost var before := Value();
      common := CommonFrom(image[2], image[3]);
      epStatus := GetU16(image[4..6]);
      assert image[4..6] == image[..][4..6];
      var c := 0;
      while c < CHANNELS
        invariant 0 <= c <= CHANNELS
        invariant forall k :: 0 <= k < c ==> channels[k] == ParseChannel(before.channels[k], ChannelSlice(image[..], k))
        invariant forall k :: c <= k < CHANNELS ==> channels[k] == before.channels[k]
        invariant common == CommonFrom(image[2], image[3]) && epStatus == GetU16(image[4..6])
      {
        channels[c] := ParseChannel(channels[c], ChannelSlice(image[..], c));
        c := c + 1;
      }
      assert Value().channels == Parse(before, image[..]).channels;
    }

    /** `rcp_ep_spi_apply_reconfig`. */
    method ApplyReconfig(payload: seq<byte>) returns (result: WriteResult)
      requires Valid()
      modifies this, channels
      ensures (Value(), result) == ApplyStep(old(Value()), payload)
    {
      hide Parse; hide Render; hide BlockMask; hide RegOffsetReadOnly; hide GetU16; hide FieldValue;
      if |payload| <= ADDRESS_LEN {
        return WriteShort;
      }
      var start := StartAddress(payload);
      var data := payload[ADDRESS_LEN..];
      if start + |data| > BLOCK_LEN {
        return WriteOutOfRange;
      }
      var block := new byte[BLOCK_LEN];
      RenderRegisters(block);
      forall addr: nat | addr < BLOCK_LEN
        ensures RegOffsetReadOnly(addr) <==> BlockMask()[addr] == 0
      {
        ReadOnlyExactlyWhenUnmasked(addr);
      }
      PatchBlock(block, BlockMask(), RegOffsetReadOnly, start, data);
      ParseRegisters(block);
      return WriteOk;
    }
  }

  method StoreChannel(out: array<byte>, base: nat, ch: Channel)
    requires base + CHANNEL_SPAN <= out.Length
    modifies out
    ensures out[base..base + CHANNEL_SPAN] == ChannelImage(ch)
    ensures forall i :: 0 <= i < out.Length && !(base <= i < base + CHANNEL_SPAN) ==> out[i] == old(out[i])
  {
    hide ChannelImage;
    var image := ChannelImage(ch);
    forall i | 0 <= i < CHANNEL_SPAN {
      out[base + i] := image[i];
    }
  }
}
