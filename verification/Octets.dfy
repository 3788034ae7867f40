/** Octets, big-endian integers, and the integer casts of the modelled code.

    An octet is a `bv8`; the register-sized unsigned integers of the program are
    the bit vectors of the same width, so masks and shifts read as they do there. */
module Octets {

  type byte = bv8

  /** An IEEE 1722 stream identifier. */
  datatype StreamId = StreamId(bits: bv64)

  // --- Casts ---------------------------------------------------------------

  type uint16 = n: int | 0 <= n < 0x1_0000

  /** The cast `(uint16_t)n` of a size: truncation modulo 2^16. */
  function U16(n: nat): uint16 {
    n % 0x1_0000
  }

  lemma U16Keeps(n: uint16)
    ensures U16(n) == n
  {}

  lemma NextU16(n: nat)
    ensures U16(0) == 0 && U16(1) == 1 && U16(U16(n) + 1) == U16(n + 1)
  {}

  /** The value of a header field. Kept apart from the arithmetic that uses it. */
  function FieldValue(x: bv16): nat {
    x as nat
  }

  /** A size as a header field. */
  function Field(n: nat): bv16
    requires n < 0x1_0000
  {
    n as bv16
  }

  function OctetValue(x: byte): nat {
    x as nat
  }

  function Octet(n: nat): byte
    requires n < 0x100
  {
    n as byte
  }

  lemma NextField(x: bv16)
    requires x < 0xFFF
    ensures FieldValue(x + 1) == FieldValue(x) + 1
  {}

  lemma FieldOfValue(x: bv16)
    ensures FieldValue(x) < 0x1_0000 && Field(FieldValue(x)) == x
  {}

  lemma LargestField()
    ensures FieldValue(0xFFF) == 0xFFF && FieldValue(0) == 0 && Field(0) == 0
  {}

  /** A value of at most twelve bits survives the trip through a header field. */
  lemma {:induction false} ValueOfField(n: nat)
    requires n < 0x1000
    ensures FieldValue(Field(n)) == n && Field(n) <= 0xFFF
  {
    hide FieldValue; hide Field;
    LargestField();
    if n > 0 {
      ValueOfField(n - 1);
      var x := Field(n - 1);
      NextField(x);
      FieldOfValue(x + 1);
    }
  }

  lemma OctetOfValue(x: byte)
    ensures OctetValue(x) < 0x100 && Octet(OctetValue(x)) == x
  {}

  // --- Big-endian encodings --------------------------------------------------

  function PutU16(v: bv16): (p: seq<byte>)
    ensures |p| == 2
  {
    [(v >> 8) as byte, (v & 0xFF) as byte]
  }

  function GetU16(p: seq<byte>): bv16
    requires |p| >= 2
  {
    ((p[0] as bv16) << 8) | (p[1] as bv16)
  }

  function PutU32(v: bv32): (p: seq<byte>)
    ensures |p| == 4
  {
    [(v >> 24) as byte, ((v >> 16) & 0xFF) as byte, ((v >> 8) & 0xFF) as byte, (v & 0xFF) as byte]
  }

  function GetU32(p: seq<byte>): bv32
    requires |p| >= 4
  {
    ((p[0] as bv32) << 24) | ((p[1] as bv32) << 16) | ((p[2] as bv32) << 8) | (p[3] as bv32)
  }

  function PutU64(v: bv64): (p: seq<byte>)
    ensures |p| == 8
  {
    [(v >> 56) as byte, ((v >> 48) & 0xFF) as byte, ((v >> 40) & 0xFF) as byte, ((v >> 32) & 0xFF) as byte,
     ((v >> 24) & 0xFF) as byte, ((v >> 16) & 0xFF) as byte, ((v >> 8) & 0xFF) as byte, (v & 0xFF) as byte]
  }

  function GetU64(p: seq<byte>): bv64
    requires |p| >= 8
  {
    ((p[0] as bv64) << 56) | ((p[1] as bv64) << 48) | ((p[2] as bv64) << 40) | ((p[3] as bv64) << 32)
    | ((p[4] as bv64) << 24) | ((p[5] as bv64) << 16) | ((p[6] as bv64) << 8) | (p[7] as bv64)
  }

  /** The encodings of different widths agree. */
  lemma WordOfHalves(p: seq<byte>)
    requires |p| == 4
    ensures GetU32(p) == ((GetU16(p[..2]) as bv32) << 16) | (GetU16(p[2..]) as bv32)
  {}

  lemma GetPutU16(v: bv16)
    ensures GetU16(PutU16(v)) == v
  {}

  lemma PutGetU16(p: seq<byte>)
    requires |p| == 2
    ensures PutU16(GetU16(p)) == p
  {}

  lemma GetPutU32(v: bv32)
    ensures GetU32(PutU32(v)) == v
  {}

  lemma PutGetU32(p: seq<byte>)
    requires |p| == 4
    ensures PutU32(GetU32(p)) == p
  {}

  lemma GetPutU64(v: bv64)
    ensures GetU64(PutU64(v)) == v
  {}

  lemma GetU16ReadsPrefix(p: seq<byte>, rest: seq<byte>)
    requires |p| >= 2
    ensures GetU16(p + rest) == GetU16(p)
  {}

  lemma GetU32ReadsPrefix(p: seq<byte>, rest: seq<byte>)
    requires |p| >= 4
    ensures GetU32(p + rest) == GetU32(p)
  {}

  lemma GetU64ReadsPrefix(p: seq<byte>, rest: seq<byte>)
    requires |p| >= 8
    ensures GetU64(p + rest) == GetU64(p)
  {}

  method StoreU64(out: array<byte>, at: nat, v: bv64)
    requires at + 8 <= out.Length
    modifies out
    ensures out[..] == old(out[..at]) + PutU64(v) + old(out[at + 8..])
  {
    var octets := PutU64(v);
    forall i | 0 <= i < 8 {
      out[at + i] := octets[i];
    }
  }

  method StoreU32(out: array<byte>, at: nat, v: bv32)
    requires at + 4 <= out.Length
    modifies out
    ensures out[..] == old(out[..at]) + PutU32(v) + old(out[at + 4..])
  {
    var octets := PutU32(v);
    forall i | 0 <= i < 4 {
      out[at + i] := octets[i];
    }
  }

  // --- Octet strings ---------------------------------------------------------

  /** The parts one after another. */
  function Concat(parts: seq<seq<byte>>): seq<byte> {
    if parts == [] then [] else Concat(parts[..|parts| - 1]) + parts[|parts| - 1]
  }

  lemma ConcatSnoc(parts: seq<seq<byte>>, part: seq<byte>)
    ensures Concat(parts + [part]) == Concat(parts) + part
  {
    assert (parts + [part])[..|parts|] == parts;
  }

  function Zeros(n: nat): (z: seq<byte>)
    ensures |z| == n && forall i :: 0 <= i < n ==> z[i] == 0
  {
    seq(n, _ => 0)
  }
}
