/** The reflected CRC32 of the end-to-end protection (`src/e2e.c`), as a register and as
    polynomial division over GF(2).

    A polynomial is the sequence of its coefficients, highest power first. The reflected
    register holds the coefficient of x^31 in bit 0, so reading it from bit 0 upwards gives
    the coefficients in this order, and an octet enters the message bit 0 first. */
module Crc {
  import opened Octets

  /** 0xF4ACFB13 bit-reversed. */
  const RPOLY: bv32 := 0xC8DF352F
  const POLY: bv32 := 0xF4ACFB13

  // --- The register ----------------------------------------------------------

  function LowBit(v: bv32): bool {
    v & 1 != 0
  }

  function Half(v: bv32): bv32 {
    v >> 1
  }

  function Step(crc: bv32): bv32 {
    if LowBit(crc) then Half(crc) ^ RPOLY else Half(crc)
  }

  function Steps(crc: bv32, n: nat): bv32
    decreases n
  {
    if n == 0 then crc else Steps(Step(crc), n - 1)
  }

  function Update(crc: bv32, b: byte): bv32 {
    Steps(crc ^ (b as bv32), 8)
  }

  /** The running register after the octets of `data`. */
  function Absorb(crc: bv32, data: seq<byte>): bv32 {
    if data == [] then crc else Update(Absorb(crc, data[..|data| - 1]), data[|data| - 1])
  }

  /** The starting register, and the final complement. */
  function AllOnes(): bv32 {
    0xFFFF_FFFF
  }

  function Xor(a: bv32, b: bv32): bv32 {
    a ^ b
  }

  function Crc32(data: seq<byte>): bv32 {
    Xor(Absorb(AllOnes(), data), AllOnes())
  }

  method UpdateLoop(crc: bv32, b: byte) returns (r: bv32)
    ensures r == Update(crc, b)
  {
    r := crc ^ (b as bv32);
    ghost var start := r;
    var i := 0;
    while i < 8
      invariant 0 <= i <= 8
      invariant Steps(r, 8 - i) == Steps(start, 8)
    {
      r := if r & 1 != 0 then (r >> 1) ^ RPOLY else r >> 1;
      i := i + 1;
    }
  }

  method AbsorbLoop(crc: bv32, data: seq<byte>) returns (r: bv32)
    ensures r == Absorb(crc, data)
  {
    r := crc;
    var i := 0;
    while i < |data|
      invariant 0 <= i <= |data|
      invariant r == Absorb(crc, data[..i])
    {
      r := UpdateLoop(r, data[i]);
      assert data[..i + 1][..i] == data[..i];
      i := i + 1;
    }
    assert data[..|data|] == data;
  }

  method ComputeCrc32(data: seq<byte>) returns (crc: bv32)
    ensures crc == Crc32(data)
  {
    crc := AbsorbLoop(0xFFFF_FFFF, data);
    crc := crc ^ 0xFFFF_FFFF;
  }

  lemma {:induction false} AbsorbConcat(crc: bv32, a: seq<byte>, b: seq<byte>)
    ensures Absorb(crc, a + b) == Absorb(Absorb(crc, a), b)
  {
    if b == [] {
      assert a + b == a;
    } else {
      assert (a + b)[..|a + b| - 1] == a + b[..|b| - 1];
      AbsorbConcat(crc, a, b[..|b| - 1]);
    }
  }

  // --- Polynomials -------------------------------------------------------------

  type poly = seq<bool>

  /** The low `n` bits, bit 0 first. */
  function LowBits(v: bv32, n: nat): (p: poly)
    ensures |p| == n
    decreases n
  {
    if n == 0 then [] else [LowBit(v)] + LowBits(Half(v), n - 1)
  }

  /** The low `n` bits, bit 0 last. */
  function HighBitsFirst(v: bv32, n: nat): (p: poly)
    ensures |p| == n
    decreases n
  {
    if n == 0 then [] else HighBitsFirst(Half(v), n - 1) + [LowBit(v)]
  }

  function OctetBits(b: byte): (p: poly)
    ensures |p| == 8
  {
    LowBits(b as bv32, 8)
  }

  function MessageBits(data: seq<byte>): (p: poly)
    ensures |p| == 8 * |data|
  {
    if data == [] then [] else MessageBits(data[..|data| - 1]) + OctetBits(data[|data| - 1])
  }

  /** Coefficient-wise sum; the shorter operand is aligned with the leading terms. */
  function Add(p: poly, q: poly): (r: poly)
    requires |p| >= |q|
    ensures |r| == |p|
  {
    seq(|p|, i requires 0 <= i < |p| => if i < |q| then p[i] != q[i] else p[i])
  }

  function ZeroPoly(n: nat): (p: poly)
    ensures |p| == n
  {
    seq(n, _ => false)
  }

  /** The generator x^32 + ... , its 33 coefficients. */
  function Generator(): poly {
    [true] + Tail()
  }

  /** Schoolbook division by the generator: while the dividend is longer than a
      remainder, cancel its leading term and move on. */
  function Remainder(dividend: poly): (r: poly)
    requires |dividend| >= 32
    ensures |r| == 32
    decreases |dividend|
  {
    if |dividend| == 32 then dividend
    else if dividend[0] then Remainder(Add(dividend, Generator())[1..])
    else Remainder(dividend[1..])
  }

  // --- The register as a polynomial ------------------------------------------------

  function Shift(v: bv32, n: nat): bv32
    decreases n
  {
    if n == 0 then v else Shift(Half(v), n - 1)
  }

  lemma {:induction false} ShiftShift(v: bv32, m: nat, n: nat)
    ensures Shift(v, m + n) == Shift(Shift(v, m), n)
    decreases m
  {
    hide Half;
    if m > 0 {
      ShiftShift(Half(v), m - 1, n);
    }
  }

  function DownFour(v: bv32): bv32 {
    v >> 4
  }

  function DownEight(v: bv32): bv32 {
    v >> 8
  }

  lemma HalvesAreDownFour(v: bv32)
    ensures Half(Half(Half(Half(v)))) == DownFour(v)
  {}

  lemma FoursAreDownEight(v: bv32)
    ensures DownFour(DownFour(v)) == DownEight(v)
  {}

  lemma EightsAreZero(v: bv32)
    ensures DownEight(DownEight(DownEight(DownEight(v)))) == 0
  {}

  lemma ShiftBy4(v: bv32)
    ensures Shift(v, 4) == DownFour(v)
  {
    hide Half; hide DownFour;
    HalvesAreDownFour(v);
    assert Shift(v, 4) == Shift(Half(Half(v)), 2);
  }

  lemma ShiftBy8(v: bv32)
    ensures Shift(v, 8) == DownEight(v)
  {
    hide Shift; hide DownFour; hide DownEight;
    ShiftShift(v, 4, 4);
    ShiftBy4(v);
    ShiftBy4(DownFour(v));
    FoursAreDownEight(v);
  }

  lemma ShiftBy32(v: bv32)
    ensures Shift(v, 32) == 0
  {
    hide Shift; hide DownEight;
    var v1 := DownEight(v);
    var v2 := DownEight(v1);
    ShiftShift(v, 8, 24);
    ShiftShift(v1, 8, 16);
    ShiftShift(v2, 8, 8);
    ShiftBy8(v);
    ShiftBy8(v1);
    ShiftBy8(v2);
    ShiftBy8(DownEight(v2));
    EightsAreZero(v);
  }

  lemma {:induction false} LowBitsSplit(v: bv32, m: nat, n: nat)
    ensures LowBits(v, m + n) == LowBits(v, m) + LowBits(Shift(v, m), n)
    decreases m
  {
    hide Half; hide LowBit;
    if m > 0 {
      LowBitsSplit(Half(v), m - 1, n);
    }
  }

  lemma XorOfParts(a: bv32, b: bv32)
    ensures Half(Xor(a, b)) == Xor(Half(a), Half(b))
    ensures LowBit(Xor(a, b)) == (LowBit(a) != LowBit(b))
  {}

  lemma AddCons(x: bool, p: poly, y: bool, q: poly)
    requires |p| >= |q|
    ensures Add([x] + p, [y] + q) == [x != y] + Add(p, q)
  {}

  lemma {:induction false} LowBitsOfXor(a: bv32, b: bv32, n: nat)
    ensures LowBits(Xor(a, b), n) == Add(LowBits(a, n), LowBits(b, n))
    decreases n
  {
    hide Half; hide LowBit; hide Add; hide Xor;
    if n == 0 {
      AddNothing();
    } else {
      LowBitsOfXor(Half(a), Half(b), n - 1);
      XorOfParts(a, b);
      AddCons(LowBit(a), LowBits(Half(a), n - 1), LowBit(b), LowBits(Half(b), n - 1));
    }
  }

  lemma AddNothing()
    ensures Add([], []) == []
  {}

  lemma PartsDetermine(a: bv32, b: bv32)
    requires Half(a) == Half(b) && LowBit(a) == LowBit(b)
    ensures a == b
  {}

  lemma {:induction false} LowBitsDetermine(a: bv32, b: bv32, n: nat)
    requires LowBits(a, n) == LowBits(b, n) && Shift(a, n) == Shift(b, n)
    ensures a == b
    decreases n
  {
    hide Half; hide LowBit;
    if n > 0 {
      assert LowBits(a, n)[0] == LowBits(b, n)[0];
      assert LowBits(a, n)[1..] == LowBits(Half(a), n - 1);
      assert LowBits(b, n)[1..] == LowBits(Half(b), n - 1);
      LowBitsDetermine(Half(a), Half(b), n - 1);
      PartsDetermine(a, b);
    }
  }

  /** The coefficients of a register value; distinct values have distinct ones. */
  function Coefficients(crc: bv32): (p: poly)
    ensures |p| == 32
  {
    LowBits(crc, 32)
  }

  lemma CoefficientsDetermine(a: bv32, b: bv32)
    requires Coefficients(a) == Coefficients(b)
    ensures a == b
  {
    ShiftBy32(a);
    ShiftBy32(b);
    LowBitsDetermine(a, b, 32);
  }

  lemma LowBitsCons(v: bv32, n: nat)
    ensures LowBits(v, n + 1) == [LowBit(v)] + LowBits(Half(v), n)
  {}

  lemma NoBitsInZero()
    ensures LowBits(0, 1) == [false]
  {}

  lemma CoefficientsOfHalf(v: bv32)
    ensures Coefficients(Half(v)) == Coefficients(v)[1..] + [false]
  {
    LowBitsSplit(v, 32, 1);
    LowBitsCons(v, 32);
    ShiftBy32(v);
    NoBitsInZero();
    hide LowBits; hide Shift; hide Half; hide LowBit;
    assert [LowBit(v)] + LowBits(Half(v), 32) == LowBits(v, 32) + [false];
    assert ([LowBit(v)] + LowBits(Half(v), 32))[1..] == LowBits(Half(v), 32);
    assert (LowBits(v, 32) + [false])[1..] == LowBits(v, 32)[1..] + [false];
  }

  /** The generator without its leading term. */
  function Tail(): (p: poly)
    ensures |p| == 32
  {
    HighBitsFirst(POLY, 32)
  }

  // --- The reversed generator -------------------------------------------------------

  lemma LowBitsAreTests(v: bv32)
    ensures LowBit(v) == (v & 1 != 0) && LowBit(Half(v)) == (v & 2 != 0)
    ensures LowBit(Half(Half(v))) == (v & 4 != 0) && LowBit(Half(Half(Half(v)))) == (v & 8 != 0)
  {}

  lemma LowFourBits(v: bv32)
    ensures LowBits(v, 4) == [v & 1 != 0, v & 2 != 0, v & 4 != 0, v & 8 != 0]
  {
    LowBitsAreTests(v);
    LowBitsCons(v, 3);
    LowBitsCons(Half(v), 2);
    LowBitsCons(Half(Half(v)), 1);
    LowBitsCons(Half(Half(Half(v))), 0);
    hide LowBit; hide Half; hide LowBits;
    NoLowBits(Half(Half(Half(Half(v)))));
    assert LowBits(v, 4)
        == [LowBit(v)] + ([LowBit(Half(v))] + ([LowBit(Half(Half(v)))] + [LowBit(Half(Half(Half(v))))]));
  }

  lemma NoLowBits(v: bv32)
    ensures LowBits(v, 0) == []
  {}

  lemma DownFourTests(v: bv32)
    ensures (DownFour(v) & 1 != 0) == (v & 16 != 0) && (DownFour(v) & 2 != 0) == (v & 32 != 0)
    ensures (DownFour(v) & 4 != 0) == (v & 64 != 0) && (DownFour(v) & 8 != 0) == (v & 128 != 0)
  {}

  lemma LowEightBits(v: bv32)
    ensures LowBits(v, 8) == [v & 1 != 0, v & 2 != 0, v & 4 != 0, v & 8 != 0,
                              v & 16 != 0, v & 32 != 0, v & 64 != 0, v & 128 != 0]
  {
    hide LowBits; hide Shift; hide DownFour;
    LowBitsSplit(v, 4, 4);
    ShiftBy4(v);
    LowFourBits(v);
    LowFourBits(DownFour(v));
    DownFourTests(v);
  }

  lemma {:induction false} HighBitsFirstReverses(v: bv32, n: nat, i: nat)
    requires i < n
    ensures HighBitsFirst(v, n)[n - 1 - i] == LowBits(v, n)[i]
    decreases n
  {
    hide Half; hide LowBit;
    if i > 0 {
      HighBitsFirstReverses(Half(v), n - 1, i - 1);
    }
  }

  lemma LowBitsInFour(v: bv32, v1: bv32, v2: bv32, v3: bv32)
    requires Shift(v, 8) == v1 && Shift(v1, 8) == v2 && Shift(v2, 8) == v3
    ensures LowBits(v, 32) == LowBits(v, 8) + LowBits(v1, 8) + LowBits(v2, 8) + LowBits(v3, 8)
  {
    hide LowBits; hide Shift;
    LowBitsSplit(v, 8, 24);
    LowBitsSplit(v1, 8, 16);
    LowBitsSplit(v2, 8, 8);
  }

  lemma OctetsOfReversed()
    ensures Shift(0xC8DF_352F, 8) == 0xC8_DF35 && Shift(0xC8_DF35, 8) == 0xC8DF && Shift(0xC8DF, 8) == 0xC8
  {
    hide Shift;
    ShiftBy8(0xC8DF_352F);
    ShiftBy8(0xC8_DF35);
    ShiftBy8(0xC8DF);
  }

  lemma OctetsOfGenerator()
    ensures Shift(0xF4AC_FB13, 8) == 0xF4_ACFB && Shift(0xF4_ACFB, 8) == 0xF4AC && Shift(0xF4AC, 8) == 0xF4
  {
    hide Shift;
    ShiftBy8(0xF4AC_FB13);
    ShiftBy8(0xF4_ACFB);
    ShiftBy8(0xF4AC);
  }

  lemma GeneratorOctetBits()
    ensures LowBits(0xF4AC_FB13, 8) == [true, true, false, false, true, false, false, false]
    ensures LowBits(0xF4_ACFB, 8) == [true, true, false, true, true, true, true, true]
    ensures LowBits(0xF4AC, 8) == [false, false, true, true, false, true, false, true]
    ensures LowBits(0xF4, 8) == [false, false, true, false, true, true, true, true]
  {
    hide LowBits;
    LowEightBits(0xF4AC_FB13);
    LowEightBits(0xF4_ACFB);
    LowEightBits(0xF4AC);
    LowEightBits(0xF4);
  }

  lemma ReversedOctetBits()
    ensures LowBits(0xC8, 8) == [false, false, false, true, false, false, true, true]
    ensures LowBits(0xC8DF, 8) == [true, true, true, true, true, false, true, true]
    ensures LowBits(0xC8_DF35, 8) == [true, false, true, false, true, true, false, false]
    ensures LowBits(0xC8DF_352F, 8) == [true, true, true, true, false, true, false, false]
  {
    hide LowBits;
    LowEightBits(0xC8DF_352F);
    LowEightBits(0xC8_DF35);
    LowEightBits(0xC8DF);
    LowEightBits(0xC8);
  }

  /** The constant of the reflected loop is the generator read backwards. */
  lemma ReversedGenerator()
    ensures Coefficients(RPOLY) == Tail()
    ensures Tail()[31]
  {
    hide LowBits; hide HighBitsFirst; hide Shift;
    OctetsOfReversed();
    OctetsOfGenerator();
    LowBitsInFour(0xC8DF_352F, 0xC8_DF35, 0xC8DF, 0xC8);
    LowBitsInFour(0xF4AC_FB13, 0xF4_ACFB, 0xF4AC, 0xF4);
    GeneratorOctetBits();
    ReversedOctetBits();
    forall i | 0 <= i < 32
      ensures Coefficients(RPOLY)[i] == HighBitsFirst(POLY, 32)[i]
    {
      HighBitsFirstReverses(POLY, 32, 31 - i);
    }
    HighBitsFirstReverses(POLY, 32, 0);
  }

  // --- Division, one message bit at a time ---------------------------------------------

  /** The register step on coefficients: drop the leading one, cancelling it. */
  function PolyStep(r: poly): (p: poly)
    requires |r| == 32
    ensures |p| == 32
  {
    var shifted := r[1..] + [false];
    if r[0] then Add(shifted, Tail()) else shifted
  }

  /** The register after the message bits `m`. */
  function PolyRegister(r: poly, m: poly): (p: poly)
    requires |r| == 32
    ensures |p| == 32
    decreases |m|
  {
    if m == [] then r else PolyRegister(PolyStep(Add(r, [m[0]])), m[1..])
  }

  lemma StepIsPolyStep(crc: bv32)
    ensures Coefficients(Step(crc)) == PolyStep(Coefficients(crc))
  {
    hide Half; hide LowBit; hide LowBits; hide Tail;
    CoefficientsOfHalf(crc);
    LowBitsOfXor(Half(crc), RPOLY, 32);
    ReversedGenerator();
    LowBitsCons(crc, 31);
  }

  lemma AddThenStep(r: poly, m: poly)
    requires |r| == 32 && 0 < |m| <= 32
    ensures PolyStep(Add(r, m)) == Add(PolyStep(Add(r, [m[0]])), m[1..])
  {
    hide Tail;
  }

  function PolySteps(r: poly, n: nat): (p: poly)
    requires |r| == 32
    ensures |p| == 32
    decreases n
  {
    if n == 0 then r else PolySteps(PolyStep(r), n - 1)
  }

  /** Adding up to 32 message bits at once and stepping is adding them one by one. */
  lemma {:induction false} StepsArePolyRegister(r: poly, m: poly)
    requires |r| == 32 && |m| <= 32
    ensures PolySteps(Add(r, m), |m|) == PolyRegister(r, m)
    decreases |m|
  {
    hide PolyStep; hide Add;
    if m == [] {
      AddEmpty(r);
    } else {
      AddThenStep(r, m);
      StepsArePolyRegister(PolyStep(Add(r, [m[0]])), m[1..]);
    }
  }

  lemma AddEmpty(r: poly)
    ensures Add(r, []) == r
  {}

  lemma {:induction false} StepsArePolySteps(crc: bv32, n: nat)
    ensures Coefficients(Steps(crc, n)) == PolySteps(Coefficients(crc), n)
    decreases n
  {
    hide Step; hide PolyStep; hide Coefficients;
    if n > 0 {
      StepIsPolyStep(crc);
      StepsArePolySteps(Step(crc), n - 1);
    }
  }

  function Wide(b: byte): bv32 {
    b as bv32
  }

  lemma HighBitsOfOctetAreZero(b: byte)
    ensures Shift(Wide(b), 8) == 0
  {
    ShiftBy8(Wide(b));
  }

  lemma {:induction false} LowBitsOfZero(n: nat)
    ensures LowBits(0, n) == ZeroPoly(n)
  {
    if n > 0 {
      LowBitsOfZero(n - 1);
    }
  }

  lemma OctetCoefficients(b: byte)
    ensures LowBits(Wide(b), 32) == OctetBits(b) + ZeroPoly(24)
  {
    hide LowBits; hide Shift;
    LowBitsSplit(Wide(b), 8, 24);
    HighBitsOfOctetAreZero(b);
    LowBitsOfZero(24);
  }

  lemma AddPadded(r: poly, m: poly)
    requires |r| == 32 && |m| == 8
    ensures Add(r, m + ZeroPoly(24)) == Add(r, m)
  {}

  lemma UpdateIsPolyRegister(crc: bv32, b: byte)
    ensures Coefficients(Update(crc, b)) == PolyRegister(Coefficients(crc), OctetBits(b))
  {
    hide Steps; hide PolySteps; hide PolyRegister; hide LowBits; hide Add; hide OctetBits;
    StepsArePolySteps(crc ^ (b as bv32), 8);
    LowBitsOfXor(crc, Wide(b), 32);
    OctetCoefficients(b);
    AddPadded(Coefficients(crc), OctetBits(b));
    StepsArePolyRegister(Coefficients(crc), OctetBits(b));
  }

  lemma {:induction false} PolyRegisterConcat(r: poly, a: poly, b: poly)
    requires |r| == 32
    ensures PolyRegister(r, a + b) == PolyRegister(PolyRegister(r, a), b)
    decreases |a|
  {
    hide PolyStep; hide Add;
    if a == [] {
      assert a + b == b;
    } else {
      assert (a + b)[1..] == a[1..] + b;
      PolyRegisterConcat(PolyStep(Add(r, [a[0]])), a[1..], b);
    }
  }

  lemma {:induction false} AbsorbIsPolyRegister(crc: bv32, data: seq<byte>)
    ensures Coefficients(Absorb(crc, data)) == PolyRegister(Coefficients(crc), MessageBits(data))
  {
    hide Update; hide PolyRegister; hide Coefficients; hide OctetBits;
    if data == [] {
      RegisterOfNothing(Coefficients(crc));
    } else {
      var front, last := data[..|data| - 1], data[|data| - 1];
      AbsorbIsPolyRegister(crc, front);
      UpdateIsPolyRegister(Absorb(crc, front), last);
      PolyRegisterConcat(Coefficients(crc), MessageBits(front), OctetBits(last));
    }
  }

  lemma RegisterOfNothing(r: poly)
    requires |r| == 32
    ensures PolyRegister(r, []) == r
  {}

  /** The dividend of a message with a starting register: the message times x^32, the
      register added to its leading terms. */
  function Dividend(r: poly, m: poly): poly
    requires |r| == 32
  {
    Add(m + ZeroPoly(32), r)
  }

  lemma DividendStep(r: poly, m: poly)
    requires |r| == 32 && m != []
    ensures var d := Dividend(r, m);
            Dividend(PolyStep(Add(r, [m[0]])), m[1..]) == if d[0] then Add(d, Generator())[1..] else d[1..]
  {
    hide Tail;
    var d := Dividend(r, m);
    var next := Dividend(PolyStep(Add(r, [m[0]])), m[1..]);
    var want := if d[0] then Add(d, Generator())[1..] else d[1..];
    assert |next| == |want|;
    forall i | 0 <= i < |next|
      ensures next[i] == want[i]
    {}
  }

  /** The register holds the remainder of the schoolbook division. */
  lemma {:induction false} RegisterIsRemainder(r: poly, m: poly)
    requires |r| == 32
    ensures PolyRegister(r, m) == Remainder(Dividend(r, m))
    decreases |m|
  {
    hide PolyStep; hide Generator;
    if m == [] {
      assert Dividend(r, m) == r;
    } else {
      DividendStep(r, m);
      RegisterIsRemainder(PolyStep(Add(r, [m[0]])), m[1..]);
    }
  }

  function Ones(): (p: poly)
    ensures |p| == 32
  {
    seq(32, _ => true)
  }

  lemma OctetsOfOnes()
    ensures Shift(0xFFFF_FFFF, 8) == 0xFF_FFFF && Shift(0xFF_FFFF, 8) == 0xFFFF && Shift(0xFFFF, 8) == 0xFF
  {
    hide Shift;
    ShiftBy8(0xFFFF_FFFF);
    ShiftBy8(0xFF_FFFF);
    ShiftBy8(0xFFFF);
  }

  lemma OnesOctetBits()
    ensures LowBits(0xFFFF_FFFF, 8) == LowBits(0xFF_FFFF, 8) == LowBits(0xFFFF, 8) == LowBits(0xFF, 8)
            == [true, true, true, true, true, true, true, true]
  {
    hide LowBits;
    LowEightBits(0xFFFF_FFFF);
    LowEightBits(0xFF_FFFF);
    LowEightBits(0xFFFF);
    LowEightBits(0xFF);
  }

  lemma CoefficientsOfOnes()
    ensures Coefficients(AllOnes()) == Ones()
  {
    hide LowBits; hide Shift;
    OctetsOfOnes();
    OnesOctetBits();
    LowBitsInFour(0xFFFF_FFFF, 0xFF_FFFF, 0xFFFF, 0xFF);
  }

  /** A value is the checksum exactly when it is the complement of the remainder left by
      dividing the message, bit 0 of each octet first and its first 32 coefficients
      complemented, times x^32, by the generator 0x1F4ACFB13. */
  lemma Crc32IsComplementedRemainder(data: seq<byte>, crc: bv32)
    ensures crc == Crc32(data) <==>
              Coefficients(crc) == Add(Remainder(Dividend(Ones(), MessageBits(data))), Ones())
  {
    hide Absorb; hide LowBits; hide Remainder; hide PolyRegister; hide Add; hide MessageBits;
    hide AllOnes; hide Xor; hide Dividend;
    CoefficientsOfOnes();
    AbsorbIsPolyRegister(AllOnes(), data);
    RegisterIsRemainder(Ones(), MessageBits(data));
    LowBitsOfXor(Absorb(AllOnes(), data), AllOnes(), 32);
    if Coefficients(crc) == Coefficients(Crc32(data)) {
      CoefficientsDetermine(crc, Crc32(data));
    }
  }
}
