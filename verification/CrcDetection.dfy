/** What the CRC32 detects: bursts of up to 32 bits and odd numbers of flipped bits; and that
    every value is the checksum of some message. */
module CrcDetection {
  import opened Octets
  import opened Counting
  import opened Crc

  // --- Burst errors -----------------------------------------------------------------------

  /** Coefficient `i` of the next register. */
  lemma PolyStepAt(w: poly, i: nat)
    requires |w| == 32 && i < 32
    ensures PolyStep(w)[i] == ((if i < 31 then w[i + 1] else false) != (w[0] && Tail()[i]))
  {
    hide Tail;
  }

  lemma PolyStepInjective(w: poly, v: poly)
    requires |w| == |v| == 32 && PolyStep(w) == PolyStep(v)
    ensures w == v
  {
    hide PolyStep; hide Tail;
    LastCoefficient(w);
    LastCoefficient(v);
    forall i | 1 <= i < 32
      ensures w[i] == v[i]
    {
      PolyStepAt(w, i - 1);
      PolyStepAt(v, i - 1);
    }
  }

  lemma LastCoefficient(w: poly)
    requires |w| == 32
    ensures PolyStep(w)[31] == w[0]
  {
    hide PolyStep; hide Tail; hide Coefficients;
    ReversedGenerator();
    PolyStepAt(w, 31);
  }

  lemma AddBitInjective(r: poly, s: poly, x: bool)
    requires |r| == |s| == 32 && Add(r, [x]) == Add(s, [x])
    ensures r == s
  {
    forall i | 0 <= i < 32
      ensures r[i] == s[i]
    {
      assert Add(r, [x])[i] == Add(s, [x])[i];
    }
  }

  /** No suffix can hide a difference between two registers. */
  lemma {:induction false} PolyRegisterInjective(r: poly, s: poly, m: poly)
    requires |r| == |s| == 32 && PolyRegister(r, m) == PolyRegister(s, m)
    ensures r == s
    decreases |m|
  {
    hide PolyStep; hide Add;
    if m != [] {
      PolyRegisterInjective(PolyStep(Add(r, [m[0]])), PolyStep(Add(s, [m[0]])), m[1..]);
      PolyStepInjective(Add(r, [m[0]]), Add(s, [m[0]]));
      AddBitInjective(r, s, m[0]);
    }
  }

  /** Registers whose coefficients agree from the n-th on. */
  predicate AgreeFrom(r: poly, s: poly, n: nat)
    requires |r| == |s| == 32
  {
    forall i :: n <= i < 32 ==> r[i] == s[i]
  }

  lemma StepBackwards(w: poly, v: poly, n: nat)
    requires |w| == |v| == 32 && 0 < n <= 32
    requires AgreeFrom(PolyStep(w), PolyStep(v), n - 1)
    ensures w[0] == v[0] && AgreeFrom(w, v, n)
  {
    hide PolyStep; hide Tail;
    LastCoefficient(w);
    LastCoefficient(v);
    forall i | n <= i < 32
      ensures w[i] == v[i]
    {
      PolyStepAt(w, i - 1);
      PolyStepAt(v, i - 1);
    }
  }

  lemma AddBitAgrees(r: poly, s: poly, x: bool, y: bool, n: nat)
    requires |r| == |s| == 32 && 0 < n && AgreeFrom(Add(r, [x]), Add(s, [y]), n)
    ensures AgreeFrom(r, s, n)
  {
    forall i | n <= i < 32
      ensures r[i] == s[i]
    {
      assert Add(r, [x])[i] == Add(s, [y])[i];
    }
  }

  /** Reading backwards from equal registers: the windows `x` and `y` can only have led
      there from registers that differ in their first |x| coefficients, and from the same
      register only if they are the same window. */
  lemma {:induction false} WindowBackwards(r: poly, s: poly, x: poly, y: poly)
    requires |r| == |s| == 32 && |x| == |y| <= 32
    requires PolyRegister(r, x) == PolyRegister(s, y)
    ensures AgreeFrom(r, s, |x|)
    ensures r == s ==> x == y
    decreases |x|
  {
    hide PolyStep; hide Add;
    if x != [] {
      var w, v := Add(r, [x[0]]), Add(s, [y[0]]);
      WindowBackwards(PolyStep(w), PolyStep(v), x[1..], y[1..]);
      StepBackwards(w, v, |x|);
      AddBitAgrees(r, s, x[0], y[0], |x|);
      if r == s {
        FirstBitOfSum(r, x[0], y[0]);
        assert x == [x[0]] + x[1..] && y == [y[0]] + y[1..];
      }
    }
  }

  lemma FirstBitOfSum(r: poly, x: bool, y: bool)
    requires |r| == 32 && Add(r, [x])[0] == Add(r, [y])[0]
    ensures x == y
  {}

  /** Two bit strings that differ only inside a window of 32 bits leave different registers. */
  lemma WindowSeparates(r: poly, before: poly, x: poly, y: poly, after: poly)
    requires |r| == 32 && |x| == |y| <= 32 && x != y
    ensures PolyRegister(r, before + x + after) != PolyRegister(r, before + y + after)
  {
    hide PolyRegister;
    PolyRegisterConcat(r, before + x, after);
    PolyRegisterConcat(r, before + y, after);
    PolyRegisterConcat(r, before, x);
    PolyRegisterConcat(r, before, y);
    var s := PolyRegister(r, before);
    if PolyRegister(r, before + x + after) == PolyRegister(r, before + y + after) {
      PolyRegisterInjective(PolyRegister(s, x), PolyRegister(s, y), after);
      WindowBackwards(s, s, x, y);
    }
  }

  lemma OctetBitsDetermine(a: byte, b: byte)
    requires OctetBits(a) == OctetBits(b)
    ensures a == b
  {
    hide LowBits; hide Shift;
    HighBitsOfOctetAreZero(a);
    HighBitsOfOctetAreZero(b);
    LowBitsDetermine(Wide(a), Wide(b), 8);
  }

  lemma {:induction false} MessageBitsDetermine(a: seq<byte>, b: seq<byte>)
    requires |a| == |b| && MessageBits(a) == MessageBits(b)
    ensures a == b
  {
    hide OctetBits;
    if a != [] {
      var n := |a| - 1;
      assert MessageBits(a)[..8 * n] == MessageBits(a[..n]);
      assert MessageBits(b)[..8 * n] == MessageBits(b[..n]);
      assert MessageBits(a)[8 * n..] == OctetBits(a[n]);
      assert MessageBits(b)[8 * n..] == OctetBits(b[n]);
      MessageBitsDetermine(a[..n], b[..n]);
      OctetBitsDetermine(a[n], b[n]);
      assert a == a[..n] + [a[n]] && b == b[..n] + [b[n]];
    }
  }

  /** Cuts two bit strings at a window outside of which they agree. */
  lemma CutAtWindow(p: poly, q: poly, first: nat) returns (before: poly, x: poly, y: poly, after: poly)
    requires |p| == |q| && p != q
    requires forall i :: 0 <= i < |p| && !(first <= i < first + 32) ==> p[i] == q[i]
    ensures |x| == |y| <= 32 && x != y
    ensures p == before + x + after && q == before + y + after
  {
    assert first <= |p|;
    var to := if first + 32 <= |p| then first + 32 else |p|;
    before, x, y, after := p[..first], p[first..to], q[first..to], p[to..];
    assert q[..first] == before && q[to..] == after;
    assert p == before + x + after;
    assert q == before + y + after;
  }

  /** Every burst error of at most 32 bits, wherever it starts, changes the checksum. */
  lemma BurstChangesCrc32(a: seq<byte>, b: seq<byte>, first: nat)
    requires |a| == |b| && a != b
    requires forall i :: 0 <= i < 8 * |a| && !(first <= i < first + 32) ==> MessageBits(a)[i] == MessageBits(b)[i]
    ensures Crc32(a) != Crc32(b)
  {
    hide Absorb; hide LowBits; hide PolyRegister; hide MessageBits; hide AllOnes; hide Xor;
    if MessageBits(a) == MessageBits(b) {
      MessageBitsDetermine(a, b);
    }
    var before, x, y, after := CutAtWindow(MessageBits(a), MessageBits(b), first);
    WindowSeparates(Ones(), before, x, y, after);
    CoefficientsOfOnes();
    AbsorbIsPolyRegister(AllOnes(), a);
    AbsorbIsPolyRegister(AllOnes(), b);
    XorInjective(Absorb(AllOnes(), a), Absorb(AllOnes(), b), AllOnes());
  }

  lemma XorInjective(c: bv32, d: bv32, m: bv32)
    ensures Xor(c, m) == Xor(d, m) ==> c == d
  {}

  lemma {:induction false} MessageBitsConcat(a: seq<byte>, b: seq<byte>)
    ensures MessageBits(a + b) == MessageBits(a) + MessageBits(b)
  {
    hide OctetBits;
    if b == [] {
      assert a + b == a;
    } else {
      var n := |b| - 1;
      assert (a + b)[..|a| + n] == a + b[..n];
      MessageBitsConcat(a, b[..n]);
    }
  }

  /** In particular, octet strings that differ only inside four consecutive octets. */
  lemma FourOctetsChangeCrc32(before: seq<byte>, x: seq<byte>, y: seq<byte>, after: seq<byte>)
    requires |x| == |y| <= 4 && x != y
    ensures Crc32(before + x + after) != Crc32(before + y + after)
  {
    hide MessageBits; hide Crc32;
    MessageBitsConcat(before + x, after);
    MessageBitsConcat(before + y, after);
    MessageBitsConcat(before, x);
    MessageBitsConcat(before, y);
    var a, b := before + x + after, before + y + after;
    assert a[|before|..|before| + |x|] == x && b[|before|..|before| + |y|] == y;
    assert a != b;
    BurstChangesCrc32(a, b, 8 * |before|);
  }

  // --- Odd errors ---------------------------------------------------------------------------

  function IsSet(x: bool): bool {
    x
  }

  /** An odd number of coefficients is set. */
  predicate Odd(p: poly) {
    Count(p, IsSet) % 2 == 1
  }

  lemma OddSnoc(p: poly, x: bool)
    ensures Odd(p + [x]) == (Odd(p) != x)
  {
    CountSnoc(p, x, IsSet);
  }

  lemma OddOfNothing()
    ensures !Odd([])
  {}

  lemma {:induction false} OddConcat(p: poly, q: poly)
    ensures Odd(p + q) == (Odd(p) != Odd(q))
  {
    hide Odd;
    if q == [] {
      OddOfNothing();
      assert p + q == p;
    } else {
      var n := |q| - 1;
      OddConcat(p, q[..n]);
      OddSnoc(p + q[..n], q[n]);
      OddSnoc(q[..n], q[n]);
      assert q == q[..n] + [q[n]];
      assert p + q == p + q[..n] + [q[n]];
    }
  }

  lemma OddCons(x: bool, p: poly)
    ensures Odd([x] + p) == (x != Odd(p))
  {
    hide Odd;
    OddOfNothing();
    OddSnoc([], x);
    OddConcat([x], p);
    assert [] + [x] == [x];
  }

  lemma {:induction false} OddAdd(p: poly, q: poly)
    requires |p| >= |q|
    ensures Odd(Add(p, q)) == (Odd(p) != Odd(q))
    decreases |p|
  {
    hide Odd;
    OddOfNothing();
    if q == [] {
      assert Add(p, q) == p;
    } else {
      OddAdd(p[1..], q[1..]);
      AddCons(p[0], p[1..], q[0], q[1..]);
      OddCons(p[0], p[1..]);
      OddCons(q[0], q[1..]);
      OddCons(p[0] != q[0], Add(p[1..], q[1..]));
      assert p == [p[0]] + p[1..] && q == [q[0]] + q[1..];
    }
  }

  lemma OddOctet(p: poly)
    requires |p| == 8
    ensures Odd(p) == (p[0] != (p[1] != (p[2] != (p[3] != (p[4] != (p[5] != (p[6] != p[7])))))))
  {
    hide Odd;
    OddOfNothing();
    forall i | 0 <= i < 8
      ensures Odd(p[i..]) == (p[i] != Odd(p[i + 1..]))
    {
      assert p[i..] == [p[i]] + p[i + 1..];
      OddCons(p[i], p[i + 1..]);
    }
    assert p[0..] == p && p[8..] == [];
  }

  /** The generator has 20 terms, its leading one included. */
  lemma OddTail()
    ensures Odd(Tail())
  {
    hide LowBits; hide Odd; hide Tail; hide Shift;
    var a, b, c, d := LowBits(0xC8DF_352F, 8), LowBits(0xC8_DF35, 8), LowBits(0xC8DF, 8), LowBits(0xC8, 8);
    ReversedGenerator();
    OctetsOfReversed();
    LowBitsInFour(0xC8DF_352F, 0xC8_DF35, 0xC8DF, 0xC8);
    ReversedOctetBits();
    OddInFour(a, b, c, d);
    OddOctet(a);
    OddOctet(b);
    OddOctet(c);
    OddOctet(d);
  }

  lemma OddInFour(a: poly, b: poly, c: poly, d: poly)
    requires |a| == |b| == |c| == |d| == 8
    ensures Odd(a + b + c + d) == (Odd(a) != (Odd(b) != (Odd(c) != Odd(d))))
  {
    hide Odd;
    OddConcat(a, b);
    OddConcat(a + b, c);
    OddConcat(a + b + c, d);
  }

  lemma OddStep(r: poly)
    requires |r| == 32
    ensures Odd(PolyStep(r)) == Odd(r)
  {
    hide Odd; hide Tail; hide Add;
    var shifted := r[1..] + [false];
    OddSnoc(r[1..], false);
    OddCons(r[0], r[1..]);
    assert r == [r[0]] + r[1..];
    OddTail();
    OddAdd(shifted, Tail());
  }

  lemma {:induction false} OddRegister(r: poly, m: poly)
    requires |r| == 32
    ensures Odd(PolyRegister(r, m)) == (Odd(r) != Odd(m))
    decreases |m|
  {
    hide Odd; hide PolyStep; hide Add;
    OddOfNothing();
    if m != [] {
      OddRegister(PolyStep(Add(r, [m[0]])), m[1..]);
      OddStep(Add(r, [m[0]]));
      OddAdd(r, [m[0]]);
      OddCons(m[0], []);
      OddCons(m[0], m[1..]);
      assert m == [m[0]] + m[1..] && [m[0]] + [] == [m[0]];
    }
  }

  lemma OddOnes()
    ensures !Odd(Ones())
  {
    hide Odd;
    var eight := [true, true, true, true, true, true, true, true];
    OddOctet(eight);
    OddInFour(eight, eight, eight, eight);
    assert Ones() == eight + eight + eight + eight;
  }

  /** The checksum has as many set bits as the message, modulo two. */
  lemma ChecksumKeepsParity(data: seq<byte>)
    ensures Odd(Coefficients(Crc32(data))) == Odd(MessageBits(data))
  {
    hide Absorb; hide LowBits; hide PolyRegister; hide Add; hide MessageBits; hide Odd; hide Coefficients; hide Xor;
    hide AllOnes;
    CoefficientsOfOnes();
    OddOnes();
    AbsorbIsPolyRegister(AllOnes(), data);
    OddRegister(Ones(), MessageBits(data));
    CoefficientsOfXor(Absorb(AllOnes(), data), AllOnes());
    OddAdd(Coefficients(Absorb(AllOnes(), data)), Ones());
  }

  lemma CoefficientsOfXor(a: bv32, b: bv32)
    ensures Coefficients(Xor(a, b)) == Add(Coefficients(a), Coefficients(b))
  {
    LowBitsOfXor(a, b, 32);
  }

  /** Octet strings of one length that differ in an odd number of bits. */
  predicate OddError(a: seq<byte>, b: seq<byte>) {
    |a| == |b| && Odd(Add(MessageBits(a), MessageBits(b)))
  }

  lemma OddErrorChangesParity(a: seq<byte>, b: seq<byte>)
    requires OddError(a, b)
    ensures Odd(MessageBits(a)) != Odd(MessageBits(b))
  {
    hide MessageBits; hide Odd; hide Add;
    OddAdd(MessageBits(a), MessageBits(b));
  }

  /** Flipping an odd number of bits, wherever they are, changes the checksum. */
  lemma OddErrorChangesCrc32(a: seq<byte>, b: seq<byte>)
    requires OddError(a, b)
    ensures Crc32(a) != Crc32(b)
  {
    hide Crc32; hide MessageBits; hide Odd; hide Coefficients; hide OddError;
    OddErrorChangesParity(a, b);
    ChecksumKeepsParity(a);
    ChecksumKeepsParity(b);
  }

  // --- Every checksum is reached --------------------------------------------------------------

  function HighBit(v: bv32): bool {
    v & 0x8000_0000 != 0
  }

  function Twice(v: bv32, low: bool): bv32 {
    if low then (v << 1) | 1 else v << 1
  }

  lemma HalfOfTwice(v: bv32, low: bool)
    requires !HighBit(v)
    ensures Half(Twice(v, low)) == v && LowBit(Twice(v, low)) == low
  {}

  lemma HighBitOfSum(v: bv32)
    ensures HighBit(Xor(v, RPOLY)) == !HighBit(v)
  {}

  /** The register one step before. */
  function StepBack(crc: bv32): bv32 {
    if HighBit(crc) then Twice(Xor(crc, RPOLY), true) else Twice(crc, false)
  }

  lemma StepOfStepBack(crc: bv32)
    ensures Step(StepBack(crc)) == crc
  {
    hide HighBit; hide Twice; hide Half; hide LowBit; hide Xor;
    if HighBit(crc) {
      HighBitOfSum(crc);
      HalfOfTwice(Xor(crc, RPOLY), true);
      XorTwice(crc, RPOLY);
      StepOfOdd(StepBack(crc));
    } else {
      HalfOfTwice(crc, false);
    }
  }

  lemma StepOfOdd(v: bv32)
    requires LowBit(v)
    ensures Step(v) == Xor(Half(v), RPOLY)
  {}

  function StepsBack(crc: bv32, n: nat): bv32 {
    if n == 0 then crc else StepBack(StepsBack(crc, n - 1))
  }

  lemma {:induction false} StepsOfStepsBack(crc: bv32, n: nat)
    ensures Steps(StepsBack(crc, n), n) == crc
  {
    hide Step; hide StepBack;
    if n > 0 {
      StepOfStepBack(StepsBack(crc, n - 1));
      StepsOfStepsBack(crc, n - 1);
    }
  }

  lemma XorTwice(a: bv32, b: bv32)
    ensures Xor(Xor(a, b), b) == a && Xor(a, Xor(a, b)) == b
  {}

  lemma UpdateIsSteps(crc: bv32, b: byte)
    ensures Update(crc, b) == Steps(Xor(crc, Wide(b)), 8)
  {
    hide Steps;
  }

  /** The starting register from which `data` leads to `target`. */
  lemma {:induction false} RegisterBefore(target: bv32, data: seq<byte>) returns (crc: bv32)
    ensures Absorb(crc, data) == target
    decreases |data|
  {
    hide Update; hide Steps; hide StepsBack; hide Xor; hide Wide;
    if data == [] {
      crc := target;
    } else {
      var front, last := data[..|data| - 1], data[|data| - 1];
      var u := StepsBack(target, 8);
      crc := RegisterBefore(Xor(u, Wide(last)), front);
      UpdateIsSteps(Xor(u, Wide(last)), last);
      XorTwice(u, Wide(last));
      StepsOfStepsBack(target, 8);
    }
  }

  function LowByte(v: bv32): byte {
    (v & 0xFF) as byte
  }

  lemma LowByteTests(v: bv32)
    ensures var b := Wide(LowByte(v));
            && b & 1 == v & 1 && b & 2 == v & 2 && b & 4 == v & 4 && b & 8 == v & 8
            && b & 16 == v & 16 && b & 32 == v & 32 && b & 64 == v & 64 && b & 128 == v & 128
  {}

  lemma LowByteBits(v: bv32)
    ensures OctetBits(LowByte(v)) == LowBits(v, 8)
  {
    hide LowBits; hide LowByte;
    LowEightBits(v);
    LowEightBits(Wide(LowByte(v)));
    LowByteTests(v);
  }

  lemma MessageBitsOfFour(a: byte, b: byte, c: byte, d: byte)
    ensures MessageBits([a, b, c, d]) == OctetBits(a) + OctetBits(b) + OctetBits(c) + OctetBits(d)
  {
    hide OctetBits;
    assert [a, b, c, d][..3] == [a, b, c] && [a, b, c][..2] == [a, b] && [a, b][..1] == [a] && [a][..0] == [];
    assert MessageBits([a]) == OctetBits(a);
    assert MessageBits([a, b]) == OctetBits(a) + OctetBits(b);
    assert MessageBits([a, b, c]) == OctetBits(a) + OctetBits(b) + OctetBits(c);
  }

  /** Four octets with these coefficients, sent as a number. */
  lemma NumberWithBits(x: bv32) returns (v: bv32)
    ensures MessageBits(PutU32(v)) == Coefficients(x)
  {
    hide LowBits; hide Shift; hide LowByte; hide DownEight; hide OctetBits; hide MessageBits; hide PutU32; hide GetU32;
    var x1 := DownEight(x);
    var x2 := DownEight(x1);
    var x3 := DownEight(x2);
    ShiftBy8(x);
    ShiftBy8(x1);
    ShiftBy8(x2);
    LowBitsInFour(x, x1, x2, x3);
    LowByteBits(x);
    LowByteBits(x1);
    LowByteBits(x2);
    LowByteBits(x3);
    var octets := [LowByte(x), LowByte(x1), LowByte(x2), LowByte(x3)];
    MessageBitsOfFour(LowByte(x), LowByte(x1), LowByte(x2), LowByte(x3));
    PutGetU32(octets);
    v := GetU32(octets);
  }

  /** Absorbing those four octets is adding them all at once and stepping. */
  lemma AbsorbNumber(crc: bv32, x: bv32, v: bv32)
    requires MessageBits(PutU32(v)) == Coefficients(x)
    ensures Absorb(crc, PutU32(v)) == Steps(Xor(crc, x), 32)
  {
    hide Absorb; hide Steps; hide Xor; hide LowBits; hide MessageBits; hide PutU32; hide PolyRegister; hide PolySteps;
    hide Coefficients; hide Add;
    AbsorbIsPolyRegister(crc, PutU32(v));
    StepsArePolyRegister(Coefficients(crc), Coefficients(x));
    CoefficientsOfXor(crc, x);
    StepsArePolySteps(Xor(crc, x), 32);
    CoefficientsDetermine(Absorb(crc, PutU32(v)), Steps(Xor(crc, x), 32));
  }

  /** Whatever stands before and after, four consecutive octets give any checksum, in exactly
      one way. */
  lemma FourOctetsGiveAnyChecksum(before: seq<byte>, after: seq<byte>, target: bv32) returns (v: bv32)
    ensures Crc32(before + PutU32(v) + after) == target
    ensures forall u :: Crc32(before + PutU32(u) + after) == target ==> u == v
  {
    hide Absorb; hide Steps; hide StepsBack; hide Xor; hide MessageBits; hide PutU32; hide Coefficients; hide AllOnes;
    var start := Absorb(AllOnes(), before);
    var middle := RegisterBefore(Xor(target, AllOnes()), after);
    var u := StepsBack(middle, 32);
    v := NumberWithBits(Xor(start, u));
    AbsorbNumber(start, Xor(start, u), v);
    XorTwice(start, u);
    StepsOfStepsBack(middle, 32);
    AbsorbConcat(AllOnes(), before + PutU32(v), after);
    AbsorbConcat(AllOnes(), before, PutU32(v));
    XorTwice(target, AllOnes());
    forall u | Crc32(before + PutU32(u) + after) == target
      ensures u == v
    {
      GetPutU32(u);
      GetPutU32(v);
      if u != v {
        FourOctetsChangeCrc32(before, PutU32(u), PutU32(v), after);
      }
    }
  }

  lemma PutInOctets(v: bv32)
    ensures PutU32(v) == [LowByte(DownEight(DownEight(DownEight(v)))), LowByte(DownEight(DownEight(v))),
                          LowByte(DownEight(v)), LowByte(v)]
  {}

  /** A trailer has as many set bits as the checksum it carries, modulo two. */
  lemma OddTrailer(v: bv32)
    ensures Odd(MessageBits(PutU32(v))) == Odd(Coefficients(v))
  {
    hide LowBits; hide Shift; hide LowByte; hide DownEight; hide OctetBits; hide MessageBits; hide PutU32; hide Odd;
    var v1 := DownEight(v);
    var v2 := DownEight(v1);
    var v3 := DownEight(v2);
    ShiftBy8(v);
    ShiftBy8(v1);
    ShiftBy8(v2);
    LowBitsInFour(v, v1, v2, v3);
    LowByteBits(v);
    LowByteBits(v1);
    LowByteBits(v2);
    LowByteBits(v3);
    PutInOctets(v);
    MessageBitsOfFour(LowByte(v3), LowByte(v2), LowByte(v1), LowByte(v));
    OddInFour(LowBits(v, 8), LowBits(v1, 8), LowBits(v2, 8), LowBits(v3, 8));
    OddInFour(LowBits(v3, 8), LowBits(v2, 8), LowBits(v1, 8), LowBits(v, 8));
  }

  /** A message followed by its checksum always has an even number of set bits. */
  lemma MessageWithChecksumIsEven(data: seq<byte>)
    ensures !Odd(MessageBits(data + PutU32(Crc32(data))))
  {
    hide Crc32; hide MessageBits; hide PutU32; hide Odd; hide Coefficients;
    ChecksumKeepsParity(data);
    OddTrailer(Crc32(data));
    MessageBitsConcat(data, PutU32(Crc32(data)));
    OddConcat(MessageBits(data), MessageBits(PutU32(Crc32(data))));
  }
}
