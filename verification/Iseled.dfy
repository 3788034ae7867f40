/** The ISELED symbol code (`src/ep_iseled.c`): every octet as two 5-bit symbols with a parity
    bit each, optionally closed by a CRC8. */
module Iseled {
  import opened Octets
  import opened Wrappers

  datatype IseledError = OddSymbolCount | IseledShortFrame | BadSymbol | CrcMismatch

  // --- Symbols -------------------------------------------------------------------

  /** The number of set bits among the low four. */
  function Ones4(v: byte): byte {
    (v & 1) + ((v >> 1) & 1) + ((v >> 2) & 1) + ((v >> 3) & 1)
  }

  /** The parity of the low four bits. */
  function Parity4(v: byte): byte {
    Ones4(v) & 1
  }

  /** The parity of the low five bits. */
  function Parity5(v: byte): byte {
    (v ^ (v >> 1) ^ (v >> 2) ^ (v >> 3) ^ (v >> 4)) & 1
  }

  /** `count` and the bits still in `v` make `total`. */
  predicate Counted(count: byte, v: byte, total: byte) {
    v <= 0x0F && count + Ones4(v) == total
  }

  method Popcount4(nibble: byte) returns (count: byte)
    ensures count == Ones4(nibble)
  {
    hide Ones4; hide Counted;
    var v := nibble & 0x0F;
    count := 0;
    NothingCounted(nibble);
    while v != 0
      invariant Counted(count, v, Ones4(nibble))
      decreases v
    {
      CountStep(count, v, Ones4(nibble));
      count := count + (v & 1);
      v := v >> 1;
    }
    AllCounted(count, Ones4(nibble));
  }

  lemma NothingCounted(nibble: byte)
    ensures Counted(0, nibble & 0x0F, Ones4(nibble))
  {}

  lemma CountStep(count: byte, v: byte, total: byte)
    requires Counted(count, v, total) && v != 0
    ensures v >> 1 < v && Counted(count + (v & 1), v >> 1, total)
  {}

  lemma AllCounted(count: byte, total: byte)
    requires Counted(count, 0, total)
    ensures count == total
  {}

  function SymbolEncode(nibble: byte): byte {
    (Parity4(nibble & 0x0F) << 4) | (nibble & 0x0F)
  }

  function SymbolDecode(symbol: byte): Option<byte> {
    if (symbol >> 4) & 1 != Parity4(symbol & 0x0F) then None else Some(symbol & 0x0F)
  }

  /** A symbol decodes exactly when its five bits are the encoding of some nibble. */
  lemma SymbolDecodesExactlyWhen(symbol: byte, nibble: byte)
    requires nibble <= 0x0F
    ensures SymbolDecode(symbol) == Some(nibble) <==> symbol & 0x1F == SymbolEncode(nibble)
  {}

  /** That is, when an even number of them is set. */
  lemma EvenSymbolsDecode(symbol: byte)
    ensures SymbolDecode(symbol).Some? <==> Parity5(symbol) == 0
    ensures SymbolDecode(symbol).Some? ==> SymbolDecode(symbol).value <= 0x0F
  {}

  lemma ParityOfFlip(symbol: byte, flip: byte)
    ensures Parity5(symbol ^ flip) == Parity5(symbol) ^ Parity5(flip)
    ensures Parity5(symbol) == 0 || Parity5(symbol) == 1
  {}

  // --- CRC8 --------------------------------------------------------------------------

  const POLY: byte := 0x07

  function Xor8(a: byte, b: byte): byte {
    a ^ b
  }

  function Twice(crc: byte): byte {
    crc << 1
  }

  predicate TopBit(crc: byte) {
    crc & 0x80 != 0
  }

  function OneShift(crc: byte): byte {
    Xor8(Twice(crc), if TopBit(crc) then POLY else 0)
  }

  function Shifts(crc: byte, n: nat): byte {
    if n == 0 then crc else OneShift(Shifts(crc, n - 1))
  }

  function Crc8Update(crc: byte, b: byte): byte {
    Shifts(Xor8(crc, b), 8)
  }

  function Crc8From(crc: byte, data: seq<byte>): byte {
    if data == [] then crc else Crc8Update(Crc8From(crc, data[..|data| - 1]), data[|data| - 1])
  }

  function Crc8(data: seq<byte>): byte {
    Crc8From(0, data)
  }

  method UpdateCrc8(crc0: byte, b: byte) returns (crc: byte)
    ensures crc == Crc8Update(crc0, b)
  {
    crc := crc0 ^ b;
    var i := 0;
    while i < 8
      invariant 0 <= i <= 8 && crc == Shifts(Xor8(crc0, b), i)
    {
      XorZero(Twice(crc));
      crc := if crc & 0x80 != 0 then (crc << 1) ^ POLY else crc << 1;
      i := i + 1;
    }
  }

  method ComputeCrc8(data: seq<byte>) returns (crc: byte)
    ensures crc == Crc8(data)
  {
    crc := 0;
    var i := 0;
    while i < |data|
      invariant 0 <= i <= |data| && crc == Crc8(data[..i])
    {
      assert data[..i + 1][..i] == data[..i];
      crc := UpdateCrc8(crc, data[i]);
      i := i + 1;
    }
    assert data[..i] == data;
  }

  lemma XorZero(a: byte)
    ensures Xor8(a, 0) == a && Xor8(0, a) == a && Xor8(a, a) == 0
  {}

  lemma XorCommutes(a: byte, b: byte)
    ensures Xor8(a, b) == Xor8(b, a)
  {}

  lemma XorAssociates(a: byte, b: byte, c: byte)
    ensures Xor8(Xor8(a, b), c) == Xor8(a, Xor8(b, c))
  {}

  lemma TwiceIsLinear(a: byte, b: byte)
    ensures Twice(Xor8(a, b)) == Xor8(Twice(a), Twice(b))
  {}

  lemma TopBitOfXor(a: byte, b: byte)
    ensures TopBit(Xor8(a, b)) == (TopBit(a) != TopBit(b))
  {}

  lemma OneShiftIsLinear(a: byte, b: byte)
    ensures OneShift(Xor8(a, b)) == Xor8(OneShift(a), OneShift(b))
  {
    hide Xor8; hide Twice; hide TopBit;
    TwiceIsLinear(a, b);
    TopBitOfXor(a, b);
    var fa, fb: byte := if TopBit(a) then POLY else 0, if TopBit(b) then POLY else 0;
    XorPairs(Twice(a), Twice(b), fa, fb);
    XorZero(fa);
    XorZero(fb);
  }

  lemma OneShiftOfZero(a: byte)
    ensures OneShift(a) == 0 <==> a == 0
  {}

  lemma {:induction false} ShiftsAreLinear(a: byte, b: byte, n: nat)
    ensures Shifts(Xor8(a, b), n) == Xor8(Shifts(a, n), Shifts(b, n))
  {
    hide OneShift; hide Xor8;
    if n > 0 {
      ShiftsAreLinear(a, b, n - 1);
      OneShiftIsLinear(Shifts(a, n - 1), Shifts(b, n - 1));
    }
  }

  lemma {:induction false} ShiftsOfZero(a: byte, n: nat)
    ensures Shifts(a, n) == 0 <==> a == 0
  {
    hide OneShift;
    if n > 0 {
      ShiftsOfZero(a, n - 1);
      OneShiftOfZero(Shifts(a, n - 1));
    }
  }

  lemma XorIsZero(a: byte, b: byte)
    ensures Xor8(a, b) == 0 <==> a == b
  {}

  lemma XorPairs(a: byte, b: byte, c: byte, d: byte)
    ensures Xor8(Xor8(a, c), Xor8(b, d)) == Xor8(Xor8(a, b), Xor8(c, d))
  {
    hide Xor8;
    XorAssociates(a, c, Xor8(b, d));
    XorAssociates(c, b, d);
    XorCommutes(c, b);
    XorAssociates(b, c, d);
    XorAssociates(a, b, Xor8(c, d));
  }

  /** The difference of two updates is the shifted difference of what went in. */
  lemma UpdateDifference(crc1: byte, b1: byte, crc2: byte, b2: byte)
    ensures Xor8(Crc8Update(crc1, b1), Crc8Update(crc2, b2)) == Shifts(Xor8(Xor8(crc1, crc2), Xor8(b1, b2)), 8)
  {
    hide Xor8; hide Shifts;
    ShiftsAreLinear(Xor8(crc1, b1), Xor8(crc2, b2), 8);
    XorPairs(crc1, crc2, b1, b2);
  }

  /** Different states stay different under the same octets. */
  lemma {:induction false} CrcSeparates(crc1: byte, crc2: byte, data: seq<byte>)
    requires crc1 != crc2
    ensures Crc8From(crc1, data) != Crc8From(crc2, data)
  {
    hide Xor8; hide Shifts; hide Crc8Update;
    if data != [] {
      var front, b := data[..|data| - 1], data[|data| - 1];
      CrcSeparates(crc1, crc2, front);
      SameOctetSeparates(Crc8From(crc1, front), Crc8From(crc2, front), b);
    }
  }

  lemma SameOctetSeparates(crc1: byte, crc2: byte, b: byte)
    requires crc1 != crc2
    ensures Crc8Update(crc1, b) != Crc8Update(crc2, b)
  {
    hide Shifts; hide Xor8; hide Crc8Update;
    UpdateDifference(crc1, b, crc2, b);
    XorIsZero(b, b);
    XorIsZero(crc1, crc2);
    XorIsZero(Xor8(crc1, crc2), 0);
    ShiftsOfZero(Xor8(Xor8(crc1, crc2), 0), 8);
    XorIsZero(Crc8Update(crc1, b), Crc8Update(crc2, b));
  }

  lemma {:induction false} CrcOfConcat(crc: byte, a: seq<byte>, b: seq<byte>)
    ensures Crc8From(crc, a + b) == Crc8From(Crc8From(crc, a), b)
  {
    hide Crc8Update;
    if b == [] {
      assert a + b == a;
    } else {
      assert (a + b)[..|a + b| - 1] == a + b[..|b| - 1];
      CrcOfConcat(crc, a, b[..|b| - 1]);
    }
  }

  /** The CRC octet is right exactly when the checksum over everything is zero. */
  lemma ClosedExactlyWhenZero(data: seq<byte>, crc: byte)
    ensures Crc8(data + [crc]) == 0 <==> Crc8(data) == crc
  {
    hide Shifts; hide Xor8;
    assert (data + [crc])[..|data|] == data;
    XorIsZero(Crc8(data), crc);
    ShiftsOfZero(Xor8(Crc8(data), crc), 8);
  }

  // --- What the CRC8 tells apart ------------------------------------------------------

  lemma ShiftOnce(a: byte, n: nat)
    ensures Shifts(a, n + 1) == OneShift(Shifts(a, n))
  {}

  lemma NoShifts(a: byte)
    ensures Shifts(a, 0) == a
  {}

  lemma FourShiftsOfNibble(e: byte)
    requires e <= 0x0F
    ensures Shifts(e, 4) == e << 4
  {
    hide Shifts;
    NoShifts(e);
    ShiftOnce(e, 0);
    ShiftOnce(e, 1);
    ShiftOnce(e, 2);
    ShiftOnce(e, 3);
    FourSteps(e);
  }

  lemma FourSteps(e: byte)
    requires e <= 0x0F
    ensures OneShift(OneShift(OneShift(OneShift(e)))) == e << 4
  {}

  lemma EightShiftsOfNibble(e: byte)
    requires e <= 0x0F
    ensures Shifts(e, 8) == Product(e)
  {
    hide Shifts; hide Product;
    FourShiftsOfNibble(e);
    ShiftOnce(e, 4);
    ShiftOnce(e, 5);
    ShiftOnce(e, 6);
    ShiftOnce(e, 7);
    FourMoreSteps(e);
  }

  /** A nibble times the CRC polynomial's low part, without carries. */
  function Product(e: byte): byte {
    e ^ (e << 1) ^ (e << 2)
  }

  lemma FourMoreSteps(e: byte)
    requires e <= 0x0F
    ensures OneShift(OneShift(OneShift(OneShift(e << 4)))) == Product(e)
  {}

  lemma LowNibbleOfProduct(e: byte)
    requires e <= 0x0F && Product(e) & 0x0F == 0
    ensures e == 0
  {}

  /** Octets that differ only in the low nibble of one and the high nibble of the next. */
  predicate NibbleBurst(x: byte, y: byte, x': byte, y': byte) {
    Xor8(x, x') <= 0x0F && Xor8(y, y') & 0x0F == 0
  }

  lemma OctetChangeDetected(crc: byte, x: byte, x': byte, rest: seq<byte>)
    requires x != x'
    ensures Crc8From(Crc8Update(crc, x), rest) != Crc8From(Crc8Update(crc, x'), rest)
  {
    hide Xor8; hide Shifts; hide Crc8Update; hide Crc8From;
    UpdateDifference(crc, x, crc, x');
    XorZero(crc);
    XorZero(Xor8(x, x'));
    XorIsZero(x, x');
    ShiftsOfZero(Xor8(x, x'), 8);
    XorIsZero(Crc8Update(crc, x), Crc8Update(crc, x'));
    CrcSeparates(Crc8Update(crc, x), Crc8Update(crc, x'), rest);
  }

  lemma NibbleBurstDetected(crc: byte, x: byte, y: byte, x': byte, y': byte, rest: seq<byte>)
    requires NibbleBurst(x, y, x', y') && (x != x' || y != y')
    ensures Crc8From(Crc8Update(Crc8Update(crc, x), y), rest) != Crc8From(Crc8Update(Crc8Update(crc, x'), y'), rest)
  {
    hide Xor8; hide Shifts; hide Crc8Update; hide Crc8From; hide Product;
    if x == x' {
      OctetChangeDetected(Crc8Update(crc, x), y, y', rest);
    } else {
      var d, d' := Crc8Update(crc, x), Crc8Update(crc, x');
      UpdateDifference(crc, x, crc, x');
      XorZero(crc);
      XorZero(Xor8(x, x'));
      XorIsZero(x, x');
      EightShiftsOfNibble(Xor8(x, x'));
      if Xor8(d, d') == Xor8(y, y') {
        LowNibbleOfProduct(Xor8(x, x'));
        assert false;
      }
      UpdateDifference(d, y, d', y');
      XorIsZero(Xor8(d, d'), Xor8(y, y'));
      ShiftsOfZero(Xor8(Xor8(d, d'), Xor8(y, y')), 8);
      XorIsZero(Crc8Update(d, y), Crc8Update(d', y'));
      CrcSeparates(Crc8Update(d, y), Crc8Update(d', y'), rest);
    }
  }

  // --- Bit frames -------------------------------------------------------------------------

  function High(octet: byte): byte {
    (octet >> 4) & 0x0F
  }

  function Low(octet: byte): byte {
    octet & 0x0F
  }

  function Joined(high: byte, low: byte): byte {
    (high << 4) | low
  }

  /** The data, and behind it the CRC octet if one is asked for. */
  function Content(data: seq<byte>, withCrc: bool): seq<byte> {
    if withCrc then data + [Crc8(data)] else data
  }

  function SymbolAt(content: seq<byte>, k: nat): byte
    requires k / 2 < |content|
  {
    SymbolEncode(if k % 2 == 0 then High(content[k / 2]) else Low(content[k / 2]))
  }

  function Symbols(content: seq<byte>): (symbols: seq<byte>)
    ensures |symbols| == 2 * |content|
  {
    seq(2 * |content|, k requires 0 <= k < 2 * |content| => SymbolAt(content, k))
  }

  /** `rcp_ep_iseled_encode_bitframe`. */
  function EncodeFrame(data: seq<byte>, withCrc: bool): seq<byte> {
    Symbols(Content(data, withCrc))
  }

  /** The five bits of every symbol. */
  function Masked(symbols: seq<byte>): (masked: seq<byte>)
    ensures |masked| == |symbols|
  {
    seq(|symbols|, k requires 0 <= k < |symbols| => symbols[k] & 0x1F)
  }

  predicate AllDecode(symbols: seq<byte>) {
    forall k :: 0 <= k < |symbols| ==> SymbolDecode(symbols[k]).Some?
  }

  function OctetAt(symbols: seq<byte>, i: nat): byte
    requires 2 * i + 1 < |symbols| && AllDecode(symbols)
  {
    Joined(SymbolDecode(symbols[2 * i]).value, SymbolDecode(symbols[2 * i + 1]).value)
  }

  function FrameOctets(symbols: seq<byte>): (octets: seq<byte>)
    requires AllDecode(symbols)
    ensures |octets| == |symbols| / 2
  {
    seq(|symbols| / 2, i requires 0 <= i < |symbols| / 2 => OctetAt(symbols, i))
  }

  /** `rcp_ep_iseled_decode_bitframe`. */
  function DecodeFrame(symbols: seq<byte>, withCrc: bool): Result<seq<byte>, IseledError> {
    if |symbols| % 2 != 0 then Err(OddSymbolCount)
    else if withCrc && |symbols| == 0 then Err(IseledShortFrame)
    else if !AllDecode(symbols) then Err(BadSymbol)
    else
      var octets := FrameOctets(symbols);
      if !withCrc then Ok(octets)
      else
        var n := |octets| - 1;
        if octets[n] != Crc8(octets[..n]) then Err(CrcMismatch) else Ok(octets[..n])
  }

  lemma JoinSplits(octet: byte, high: byte, low: byte)
    requires high <= 0x0F && low <= 0x0F
    ensures Joined(high, low) == octet <==> high == High(octet) && low == Low(octet)
    ensures High(octet) <= 0x0F && Low(octet) <= 0x0F
  {}

  lemma NibblesBounded(octet: byte)
    ensures High(octet) <= 0x0F && Low(octet) <= 0x0F
  {}

  lemma OctetOfPair(symbols: seq<byte>, content: seq<byte>, i: nat)
    requires |symbols| == 2 * |content| && i < |content|
    requires SymbolDecode(symbols[2 * i]).Some? && SymbolDecode(symbols[2 * i + 1]).Some?
    ensures Joined(SymbolDecode(symbols[2 * i]).value, SymbolDecode(symbols[2 * i + 1]).value) == content[i] <==>
              && symbols[2 * i] & 0x1F == SymbolAt(content, 2 * i)
              && symbols[2 * i + 1] & 0x1F == SymbolAt(content, 2 * i + 1)
  {
    hide SymbolDecode; hide SymbolEncode; hide Joined; hide High; hide Low;
    var high, low := SymbolDecode(symbols[2 * i]).value, SymbolDecode(symbols[2 * i + 1]).value;
    EvenSymbolsDecode(symbols[2 * i]);
    EvenSymbolsDecode(symbols[2 * i + 1]);
    NibblesBounded(content[i]);
    SymbolDecodesExactlyWhen(symbols[2 * i], High(content[i]));
    SymbolDecodesExactlyWhen(symbols[2 * i + 1], Low(content[i]));
    JoinSplits(content[i], high, low);
  }

  lemma EncodedSymbolDecodes(symbol: byte, content: seq<byte>, k: nat)
    requires k / 2 < |content| && symbol & 0x1F == SymbolAt(content, k)
    ensures SymbolDecode(symbol).Some?
  {
    hide SymbolDecode; hide SymbolEncode; hide High; hide Low;
    NibblesBounded(content[k / 2]);
    SymbolDecodesExactlyWhen(symbol, High(content[k / 2]));
    SymbolDecodesExactlyWhen(symbol, Low(content[k / 2]));
  }

  /** Symbols decode to octets exactly when, bit for bit, they are those octets' symbols. */
  lemma OctetsExactlyWhenSymbols(symbols: seq<byte>, content: seq<byte>)
    requires |symbols| == 2 * |content|
    ensures AllDecode(symbols) && FrameOctets(symbols) == content <==> Masked(symbols) == Symbols(content)
  {
    hide SymbolDecode; hide SymbolAt; hide Joined;
    if AllDecode(symbols) && FrameOctets(symbols) == content {
      forall k | 0 <= k < |symbols|
        ensures Masked(symbols)[k] == Symbols(content)[k]
      {
        OctetOfPair(symbols, content, k / 2);
        assert FrameOctets(symbols)[k / 2] == OctetAt(symbols, k / 2);
      }
    }
    if Masked(symbols) == Symbols(content) {
      forall k | 0 <= k < |symbols|
        ensures SymbolDecode(symbols[k]).Some?
      {
        assert Masked(symbols)[k] == Symbols(content)[k];
        EncodedSymbolDecodes(symbols[k], content, k);
      }
      forall i | 0 <= i < |content|
        ensures FrameOctets(symbols)[i] == content[i]
      {
        assert Masked(symbols)[2 * i] == Symbols(content)[2 * i];
        assert Masked(symbols)[2 * i + 1] == Symbols(content)[2 * i + 1];
        OctetOfPair(symbols, content, i);
      }
    }
  }

  /** Decoding accepts exactly the encoder's frames, whatever the three unused bits of each
      symbol hold: it returns `data` if and only if the symbols are the encoding of `data`. */
  lemma DecodesExactlyWhenEncoded(symbols: seq<byte>, withCrc: bool, data: seq<byte>)
    ensures DecodeFrame(symbols, withCrc) == Ok(data) <==> Masked(symbols) == EncodeFrame(data, withCrc)
  {
    hide AllDecode; hide FrameOctets; hide Masked; hide Symbols; hide Crc8;
    var content := Content(data, withCrc);
    assert |Masked(symbols)| == |symbols| && |Symbols(content)| == 2 * |content|;
    if |symbols| == 2 * |content| {
      OctetsExactlyWhenSymbols(symbols, content);
      if AllDecode(symbols) && withCrc {
        var octets := FrameOctets(symbols);
        assert octets == octets[..|octets| - 1] + [octets[|octets| - 1]];
      }
    }
  }

  lemma MaskedSymbols(content: seq<byte>)
    ensures Masked(Symbols(content)) == Symbols(content)
  {
    hide SymbolEncode; hide High; hide Low;
    forall k | 0 <= k < 2 * |content|
      ensures SymbolAt(content, k) & 0x1F == SymbolAt(content, k)
    {
      SymbolFits(High(content[k / 2]));
      SymbolFits(Low(content[k / 2]));
    }
  }

  lemma SymbolFits(nibble: byte)
    ensures SymbolEncode(nibble) & 0x1F == SymbolEncode(nibble)
  {}

  /** The frame on the wire: the high nibble of each octet ahead of its low one, in the low four
      bits of a symbol, the fifth making the number of set bits even; the CRC octet, if any,
      last. */
  lemma FrameLayout(data: seq<byte>, withCrc: bool)
    ensures var symbols := EncodeFrame(data, withCrc);
            && |symbols| == 2 * (|data| + if withCrc then 1 else 0)
            && (forall k :: 0 <= k < |symbols| ==> symbols[k] <= 0x1F && Parity5(symbols[k]) == 0)
            && (forall i :: 0 <= i < |data| ==>
                  symbols[2 * i] & 0x0F == data[i] >> 4 && symbols[2 * i + 1] & 0x0F == data[i] & 0x0F)
            && (withCrc ==>
                  && symbols[2 * |data|] & 0x0F == Crc8(data) >> 4
                  && symbols[2 * |data| + 1] & 0x0F == Crc8(data) & 0x0F)
  {
    hide SymbolEncode; hide Parity5; hide High; hide Low; hide Crc8;
    var content := Content(data, withCrc);
    var symbols := EncodeFrame(data, withCrc);
    forall k | 0 <= k < |symbols|
      ensures symbols[k] <= 0x1F && Parity5(symbols[k]) == 0
      ensures symbols[k] & 0x0F == if k % 2 == 0 then content[k / 2] >> 4 else content[k / 2] & 0x0F
    {
      assert symbols[k] == SymbolAt(content, k);
      SymbolOfNibble(High(content[k / 2]));
      SymbolOfNibble(Low(content[k / 2]));
      NibblesAre(content[k / 2]);
    }
    forall i | 0 <= i < |content|
      ensures symbols[2 * i] & 0x0F == content[i] >> 4 && symbols[2 * i + 1] & 0x0F == content[i] & 0x0F
    {
      assert 2 * i < |symbols| && 2 * i + 1 < |symbols|;
    }
  }

  lemma SymbolOfNibble(nibble: byte)
    ensures SymbolEncode(nibble) <= 0x1F && Parity5(SymbolEncode(nibble)) == 0
    ensures SymbolEncode(nibble) & 0x0F == nibble & 0x0F
  {}

  lemma NibblesAre(octet: byte)
    ensures High(octet) & 0x0F == octet >> 4 && Low(octet) & 0x0F == octet & 0x0F
  {}

  /** What a refusal says, and in which order the causes are looked for. */
  lemma RefusalMeans(symbols: seq<byte>, withCrc: bool)
    ensures var result := DecodeFrame(symbols, withCrc);
            var odd := |symbols| % 2 == 1;
            var damaged := exists k :: 0 <= k < |symbols| && Parity5(symbols[k]) == 1;
            && (result == Err(OddSymbolCount) <==> odd)
            && (result == Err(IseledShortFrame) <==> withCrc && symbols == [])
            && (result == Err(BadSymbol) <==> !odd && damaged)
            && (result == Err(CrcMismatch) <==>
                  withCrc && symbols != [] && !odd && !damaged
                  && forall data :: Masked(symbols) != EncodeFrame(data, true))
  {
    hide SymbolDecode; hide Parity5; hide Masked; hide EncodeFrame; hide Crc8; hide OctetAt;
    forall k | 0 <= k < |symbols|
      ensures SymbolDecode(symbols[k]).Some? <==> Parity5(symbols[k]) != 1
    {
      EvenSymbolsDecode(symbols[k]);
      ParityIsBit(symbols[k]);
    }
    forall data
      ensures DecodeFrame(symbols, true) == Ok(data) <==> Masked(symbols) == EncodeFrame(data, true)
    {
      DecodesExactlyWhenEncoded(symbols, true, data);
    }
  }

  lemma ParityIsBit(symbol: byte)
    ensures Parity5(symbol) == 0 || Parity5(symbol) == 1
  {}

  function XorAll(a: seq<byte>, b: seq<byte>): (c: seq<byte>)
    requires |a| == |b|
    ensures |c| == |a|
  {
    seq(|a|, i requires 0 <= i < |a| => Xor8(a[i], b[i]))
  }

  /** The checksum is linear, as one that starts from zero is, and of a nibble it is the
      nibble times x^2 + x + 1. */
  lemma {:induction false} Crc8IsLinear(a: seq<byte>, b: seq<byte>, nibble: byte)
    requires |a| == |b| && nibble <= 0x0F
    ensures Crc8(XorAll(a, b)) == Xor8(Crc8(a), Crc8(b))
    ensures Crc8([nibble]) == nibble ^ (nibble << 1) ^ (nibble << 2)
  {
    LinearFrom(a, b);
    hide Shifts; hide Xor8;
    XorZero(nibble);
    EightShiftsOfNibble(nibble);
    CrcOfSnoc([], nibble);
    assert [] + [nibble] == [nibble];
  }

  lemma {:induction false} LinearFrom(a: seq<byte>, b: seq<byte>)
    requires |a| == |b|
    ensures Crc8(XorAll(a, b)) == Xor8(Crc8(a), Crc8(b))
  {
    hide Shifts; hide Xor8; hide Crc8Update;
    if a == [] {
      XorZero(0);
    } else {
      var n := |a| - 1;
      LinearFrom(a[..n], b[..n]);
      assert XorAll(a, b)[..n] == XorAll(a[..n], b[..n]);
      UpdateIsLinear(Crc8(a[..n]), a[n], Crc8(b[..n]), b[n]);
    }
  }

  lemma UpdateIsLinear(crc1: byte, b1: byte, crc2: byte, b2: byte)
    ensures Crc8Update(Xor8(crc1, crc2), Xor8(b1, b2)) == Xor8(Crc8Update(crc1, b1), Crc8Update(crc2, b2))
  {
    hide Shifts; hide Xor8;
    UpdateDifference(crc1, b1, crc2, b2);
  }

  /** So encoding, then decoding, returns the data, with or without the CRC. */
  lemma DecodeEncoded(data: seq<byte>, withCrc: bool)
    ensures DecodeFrame(EncodeFrame(data, withCrc), withCrc) == Ok(data)
  {
    hide DecodeFrame; hide Symbols; hide Masked;
    MaskedSymbols(Content(data, withCrc));
    DecodesExactlyWhenEncoded(EncodeFrame(data, withCrc), withCrc, data);
  }

  /** Flipping an odd number of the five bits of one symbol of a good frame is rejected. */
  lemma OddFlipRejected(symbols: seq<byte>, withCrc: bool, k: nat, flip: byte)
    requires DecodeFrame(symbols, withCrc).Ok? && k < |symbols| && Parity5(flip) == 1
    ensures DecodeFrame(symbols[k := symbols[k] ^ flip], withCrc) == Err(BadSymbol)
  {
    hide SymbolDecode; hide Parity5; hide Crc8; hide FrameOctets;
    var flipped := symbols[k := symbols[k] ^ flip];
    EvenSymbolsDecode(symbols[k]);
    EvenSymbolsDecode(flipped[k]);
    ParityOfFlip(symbols[k], flip);
    ZeroXorOne();
  }

  lemma ZeroXorOne()
    ensures (0 as byte) ^ 1 == 1
  {}

  /** A good frame closed by a CRC has checksum zero over everything. */
  lemma GoodFrameIsClosed(symbols: seq<byte>)
    requires |symbols| % 2 == 0 && |symbols| > 0 && AllDecode(symbols)
    ensures DecodeFrame(symbols, true).Ok? <==> Crc8(FrameOctets(symbols)) == 0
    ensures !DecodeFrame(symbols, true).Ok? ==> DecodeFrame(symbols, true) == Err(CrcMismatch)
  {
    hide FrameOctets; hide Crc8; hide AllDecode;
    var octets := FrameOctets(symbols);
    var n := |octets| - 1;
    ClosedExactlyWhenZero(octets[..n], octets[n]);
    assert octets == octets[..n] + [octets[n]];
  }

  // --- Damage to neighbouring symbols ------------------------------------------------------

  lemma SameBitsDecode(a: byte, b: byte)
    requires a & 0x1F == b & 0x1F
    ensures SymbolDecode(a) == SymbolDecode(b)
  {}

  lemma CrcOfSplit(octets: seq<byte>, i: nat)
    requires i < |octets|
    ensures Crc8(octets) == Crc8From(Crc8Update(Crc8(octets[..i]), octets[i]), octets[i + 1..])
  {
    hide Crc8Update;
    assert octets[..i + 1][..i] == octets[..i];
    assert octets == octets[..i + 1] + octets[i + 1..];
    CrcOfConcat(0, octets[..i + 1], octets[i + 1..]);
  }

  lemma CrcOfSplitPair(octets: seq<byte>, i: nat)
    requires i + 1 < |octets|
    ensures Crc8(octets)
            == Crc8From(Crc8Update(Crc8Update(Crc8(octets[..i]), octets[i]), octets[i + 1]), octets[i + 2..])
  {
    hide Crc8Update; hide Crc8From;
    CrcOfSplit(octets, i + 1);
    CrcOfSnoc(octets[..i], octets[i]);
    assert octets[..i + 1] == octets[..i] + [octets[i]];
  }

  lemma CrcOfSnoc(octets: seq<byte>, b: byte)
    ensures Crc8(octets + [b]) == Crc8Update(Crc8(octets), b)
  {
    hide Crc8Update;
    assert (octets + [b])[..|octets|] == octets;
  }

  lemma SamePrefix(a: seq<byte>, b: seq<byte>, i: nat, j: nat)
    requires |a| == |b| && i <= j <= |a|
    requires forall k :: 0 <= k < |a| && !(i <= k < j) ==> a[k] == b[k]
    ensures a[..i] == b[..i] && a[j..] == b[j..]
  {}

  lemma LowChange(high: byte, low: byte, low': byte)
    requires low <= 0x0F && low' <= 0x0F
    ensures Xor8(Joined(high, low), Joined(high, low')) <= 0x0F
  {}

  lemma HighChange(high: byte, high': byte, low: byte)
    ensures Xor8(Joined(high, low), Joined(high', low)) & 0x0F == 0
  {}

  ghost predicate SameExceptPair(symbols: seq<byte>, symbols': seq<byte>, k: nat) {
    && |symbols'| == |symbols|
    && forall j :: 0 <= j < |symbols| && j != k && j != k + 1 ==> symbols[j] & 0x1F == symbols'[j] & 0x1F
  }

  lemma OctetsElsewhere(symbols: seq<byte>, symbols': seq<byte>, k: nat, i: nat)
    requires AllDecode(symbols) && AllDecode(symbols') && SameExceptPair(symbols, symbols', k) && i < |symbols| / 2
    requires i != k / 2 && i != (k + 1) / 2
    ensures FrameOctets(symbols)[i] == FrameOctets(symbols')[i]
  {
    hide SymbolDecode; hide Joined;
    SameBitsDecode(symbols[2 * i], symbols'[2 * i]);
    SameBitsDecode(symbols[2 * i + 1], symbols'[2 * i + 1]);
  }

  lemma PairIsBurst(symbols: seq<byte>, symbols': seq<byte>, k: nat)
    requires AllDecode(symbols) && AllDecode(symbols') && SameExceptPair(symbols, symbols', k)
    requires k % 2 == 1 && k + 2 < |symbols| && |symbols| % 2 == 0
    ensures k / 2 + 1 < |symbols| / 2
    ensures var o, o' := FrameOctets(symbols), FrameOctets(symbols');
            NibbleBurst(o[k / 2], o[k / 2 + 1], o'[k / 2], o'[k / 2 + 1])
  {
    hide SymbolDecode; hide Joined; hide Xor8;
    var i := k / 2;
    SameBitsDecode(symbols[2 * i], symbols'[2 * i]);
    SameBitsDecode(symbols[2 * i + 3], symbols'[2 * i + 3]);
    EvenSymbolsDecode(symbols[2 * i + 1]);
    EvenSymbolsDecode(symbols'[2 * i + 1]);
    assert FrameOctets(symbols)[i] == OctetAt(symbols, i) && FrameOctets(symbols')[i] == OctetAt(symbols', i);
    assert FrameOctets(symbols)[i + 1] == OctetAt(symbols, i + 1);
    assert FrameOctets(symbols')[i + 1] == OctetAt(symbols', i + 1);
    LowChange(SymbolDecode(symbols[2 * i]).value, SymbolDecode(symbols[2 * i + 1]).value,
              SymbolDecode(symbols'[2 * i + 1]).value);
    HighChange(SymbolDecode(symbols[2 * i + 2]).value, SymbolDecode(symbols'[2 * i + 2]).value,
               SymbolDecode(symbols[2 * i + 3]).value);
  }

  lemma CrcTellsApart(symbols: seq<byte>, symbols': seq<byte>, k: nat)
    requires AllDecode(symbols) && AllDecode(symbols') && SameExceptPair(symbols, symbols', k)
    requires k + 1 < |symbols| && |symbols| % 2 == 0 && FrameOctets(symbols) != FrameOctets(symbols')
    ensures Crc8(FrameOctets(symbols)) != Crc8(FrameOctets(symbols'))
  {
    hide AllDecode; hide FrameOctets; hide SameExceptPair; hide Crc8; hide Crc8From; hide Crc8Update; hide NibbleBurst;
    var o, o', i := FrameOctets(symbols), FrameOctets(symbols'), k / 2;
    var j := (k + 1) / 2 + 1;
    SameLength(symbols, symbols', k);
    forall m | 0 <= m < |o| && !(i <= m < j)
      ensures o[m] == o'[m]
    {
      OctetsElsewhere(symbols, symbols', k, m);
    }
    SamePrefix(o, o', i, j);
    if k % 2 == 0 {
      CrcOfSplit(o, i);
      CrcOfSplit(o', i);
      OctetChangeDetected(Crc8(o[..i]), o[i], o'[i], o[j..]);
    } else {
      PairIsBurst(symbols, symbols', k);
      CrcOfSplitPair(o, i);
      CrcOfSplitPair(o', i);
      NibbleBurstDetected(Crc8(o[..i]), o[i], o[i + 1], o'[i], o'[i + 1], o[j..]);
    }
  }

  lemma SameLength(symbols: seq<byte>, symbols': seq<byte>, k: nat)
    requires SameExceptPair(symbols, symbols', k)
    ensures |symbols'| == |symbols|
  {}

  /** With the CRC on, any damage to one symbol or to two neighbouring ones, whether of one
      octet or across two, is rejected. */
  lemma NeighbourDamageRejected(symbols: seq<byte>, symbols': seq<byte>, k: nat)
    requires DecodeFrame(symbols, true).Ok? && k + 1 < |symbols|
    requires SameExceptPair(symbols, symbols', k) && Masked(symbols) != Masked(symbols')
    ensures DecodeFrame(symbols', true) in {Err(BadSymbol), Err(CrcMismatch)}
  {
    hide AllDecode; hide FrameOctets; hide SameExceptPair; hide Crc8; hide Masked; hide Symbols;
    SameLength(symbols, symbols', k);
    if AllDecode(symbols') {
      OctetsExactlyWhenSymbols(symbols, FrameOctets(symbols));
      OctetsExactlyWhenSymbols(symbols', FrameOctets(symbols'));
      CrcTellsApart(symbols, symbols', k);
      GoodFrameIsClosed(symbols);
      GoodFrameIsClosed(symbols');
    }
  }

  // --- In place ---------------------------------------------------------------------------------

  method EncodeBitframe(data: seq<byte>, appendCrc: bool) returns (frame: array<byte>)
    ensures fresh(frame) && frame[..] == EncodeFrame(data, appendCrc)
  {
    hide SymbolEncode; hide High; hide Low; hide Crc8;
    var contentLen := |data| + if appendCrc then 1 else 0;
    frame := new byte[contentLen * 2];
    var crc := 0;
    if appendCrc {
      crc := ComputeCrc8(data);
    }
    ghost var content := Content(data, appendCrc);
    var i := 0;
    while i < contentLen
      invariant 0 <= i <= contentLen
      invariant forall k :: 0 <= k < 2 * i ==> frame[k] == SymbolAt(content, k)
    {
      var octet := if i < |data| then data[i] else crc;
      assert octet == content[i];
      frame[2 * i] := SymbolEncode(High(octet));
      frame[2 * i + 1] := SymbolEncode(Low(octet));
      i := i + 1;
    }
  }

  method DecodeBitframe(symbols: seq<byte>, expectCrc: bool) returns (result: Result<seq<byte>, IseledError>)
    ensures result == DecodeFrame(symbols, expectCrc)
  {
    hide SymbolDecode; hide Joined; hide Crc8;
    if |symbols| % 2 != 0 {
      return Err(OddSymbolCount);
    }
    var count := |symbols| / 2;
    if expectCrc && count == 0 {
      return Err(IseledShortFrame);
    }
    var octets := new byte[count];
    var i := 0;
    while i < count
      invariant 0 <= i <= count
      invariant forall k :: 0 <= k < 2 * i ==> SymbolDecode(symbols[k]).Some?
      invariant forall k :: 0 <= k < i ==>
        octets[k] == Joined(SymbolDecode(symbols[2 * k]).value, SymbolDecode(symbols[2 * k + 1]).value)
    {
      var high := SymbolDecode(symbols[2 * i]);
      var low := SymbolDecode(symbols[2 * i + 1]);
      if high.None? || low.None? {
        return Err(BadSymbol);
      }
      octets[i] := Joined(high.value, low.value);
      i := i + 1;
    }
    assert octets[..] == FrameOctets(symbols);
    if expectCrc {
      var want := ComputeCrc8(octets[..count - 1]);
      if octets[count - 1] != want {
        return Err(CrcMismatch);
      }
      return Ok(octets[..count - 1]);
    }
    return Ok(octets[..]);
  }
}
