/** The fragment planner and the reassembler (`src/fragment.c`). */
module Fragment {
  import opened Octets

  // --- Planning ------------------------------------------------------------

  const SIZE_MODULUS: nat := 0x1_0000_0000_0000_0000
  type size = n: int | 0 <= n < SIZE_MODULUS

  const MAX_INTERMEDIATE_SEGMENTS: nat := 4096

  datatype Segment = Segment(offset: nat, len: nat, ms: bool, segmentNum: uint16)

  datatype PlanResult = PlanOk | Disabled | TooManySegments | BadSegmentCount

  /** A result of `size_t` arithmetic. */
  function Size(n: int): size {
    n % SIZE_MODULUS
  }

  /** Unsigned division, rounded down. */
  function Quotient(n: nat, m: nat): (q: nat)
    requires m > 0
  {
    n / m
  }

  /** The number of segments, or 0 when there is no plan. `size_t` sums wrap. */
  function PlanCount(payloadLen: size, maxFragment: size): nat {
    if payloadLen == 0 then 1
    else if maxFragment == 0 then 0
    else if payloadLen <= maxFragment then 1
    else
      var count := Quotient(Size(payloadLen + maxFragment - 1), maxFragment);
      var intermediate := Size(count - 1);
      if intermediate > MAX_INTERMEDIATE_SEGMENTS then 0 else count
  }

  /** The sum inside `PlanCount` exceeds `size_t`. */
  predicate SumWraps(payloadLen: size, maxFragment: size) {
    payloadLen > maxFragment && payloadLen + maxFragment - 1 >= SIZE_MODULUS
  }

  lemma ModOfOneWrap(sum: nat, modulus: nat)
    requires modulus <= sum < 2 * modulus
    ensures sum % modulus == sum - modulus
  {
    assert sum == 1 * modulus + (sum - modulus);
  }

  lemma CountOfWrappedSumIsZero(payloadLen: size, maxFragment: size)
    requires 0 < maxFragment && SumWraps(payloadLen, maxFragment)
    ensures PlanCount(payloadLen, maxFragment) == 0
  {
    ModOfOneWrap(payloadLen + maxFragment - 1, SIZE_MODULUS);
  }

  lemma CeilingDivision(p: nat, m: nat, n: nat)
    requires 0 < m && n == Quotient(p + m - 1, m)
    ensures (n - 1) * m < p <= n * m
  {
    assert p + m - 1 == n * m + (p + m - 1) % m;
    assert (n - 1) * m == n * m - m;
  }

  /** A plan, when there is one, has the fewest segments that can carry the payload. */
  lemma PlanCountIsCeiling(payloadLen: size, maxFragment: size)
    requires 0 < payloadLen
    requires PlanCount(payloadLen, maxFragment) != 0
    ensures var n := PlanCount(payloadLen, maxFragment);
            0 < maxFragment && n <= MAX_INTERMEDIATE_SEGMENTS + 1
            && (n - 1) * maxFragment < payloadLen <= n * maxFragment
  {
    if payloadLen > maxFragment {
      PositiveFragment(payloadLen, maxFragment);
      hide PlanCount;
      if SumWraps(payloadLen, maxFragment) {
        CountOfWrappedSumIsZero(payloadLen, maxFragment);
      }
      var n := Quotient(payloadLen + maxFragment - 1, maxFragment);
      CountIsQuotient(payloadLen, maxFragment, n);
      CeilingDivision(payloadLen, maxFragment, n);
    }
  }

  lemma PositiveFragment(payloadLen: size, maxFragment: size)
    requires payloadLen > maxFragment && PlanCount(payloadLen, maxFragment) != 0
    ensures maxFragment > 0
  {}

  /** Exactly when a payload is refused. Besides fragmentation being off and the
      segment numbers running out, the wrapped sum refuses payloads that 4097
      segments could carry. */
  lemma PlanRefusesExactlyWhen(payloadLen: size, maxFragment: size)
    ensures PlanCount(payloadLen, maxFragment) == 0 <==>
              && payloadLen > 0
              && (|| maxFragment == 0
                  || payloadLen > (MAX_INTERMEDIATE_SEGMENTS + 1) * maxFragment
                  || SumWraps(payloadLen, maxFragment))
  {
    if payloadLen > maxFragment > 0 {
      if SumWraps(payloadLen, maxFragment) {
        CountOfWrappedSumIsZero(payloadLen, maxFragment);
      } else {
        CountWithoutWrap(payloadLen, maxFragment);
      }
    }
  }

  lemma CountWithoutWrap(payloadLen: size, maxFragment: size)
    requires payloadLen > maxFragment > 0 && !SumWraps(payloadLen, maxFragment)
    ensures PlanCount(payloadLen, maxFragment) == 0 <==>
              payloadLen > (MAX_INTERMEDIATE_SEGMENTS + 1) * maxFragment
  {
    hide PlanCount;
    var n := Quotient(payloadLen + maxFragment - 1, maxFragment);
    CountIsQuotient(payloadLen, maxFragment, n);
    CeilingDivision(payloadLen, maxFragment, n);
    if n - 1 > MAX_INTERMEDIATE_SEGMENTS {
      MulMonotone(MAX_INTERMEDIATE_SEGMENTS + 1, n - 1, maxFragment);
    } else {
      MulMonotone(n, MAX_INTERMEDIATE_SEGMENTS + 1, maxFragment);
    }
  }

  lemma CountIsQuotient(payloadLen: size, maxFragment: size, n: nat)
    requires payloadLen > maxFragment > 0 && !SumWraps(payloadLen, maxFragment)
    requires n == Quotient(payloadLen + maxFragment - 1, maxFragment)
    ensures 1 <= n < SIZE_MODULUS
    ensures PlanCount(payloadLen, maxFragment) == if n - 1 > MAX_INTERMEDIATE_SEGMENTS then 0 else n
  {
    hide Size; hide Quotient;
    var sum := payloadLen + maxFragment - 1;
    QuotientBounds(sum, maxFragment);
    SizeKeeps(sum);
    SizeKeeps(n - 1);
  }

  lemma SizeKeeps(n: size)
    ensures Size(n) == n
  {}

  lemma QuotientBounds(sum: nat, m: nat)
    requires 0 < m <= sum
    ensures 1 <= Quotient(sum, m) <= sum
  {
    assert sum == sum / m * m + sum % m;
    MulMonotone(1, m, sum / m);
  }

  lemma MulMonotone(a: nat, b: nat, m: nat)
    requires a <= b
    ensures a * m <= b * m
  {}

  /** Half the address space in fragments of half the address space: two segments
      would do, but the wrapped sum leaves no plan. */
  lemma WrappedSumRefusesTwoSegments()
    ensures var half: size := SIZE_MODULUS / 2;
            PlanCount(half + 1, half) == 0 && half + 1 <= 2 * half
  {
    var half: size := SIZE_MODULUS / 2;
    CountOfWrappedSumIsZero(half + 1, half);
  }

  /** The offset reached by `i` steps of `maxFragment`. */
  function Offset(maxFragment: nat, i: nat): nat {
    if i == 0 then 0 else Offset(maxFragment, i - 1) + maxFragment
  }

  lemma {:induction false} OffsetIsProduct(maxFragment: nat, i: nat)
    ensures Offset(maxFragment, i) == i * maxFragment
  {
    if i > 0 {
      OffsetIsProduct(maxFragment, i - 1);
      assert i * maxFragment == (i - 1) * maxFragment + maxFragment;
    }
  }

  lemma {:induction false} OffsetMonotone(maxFragment: nat, i: nat, j: nat)
    requires i <= j
    ensures Offset(maxFragment, i) <= Offset(maxFragment, j)
  {
    if i < j {
      OffsetMonotone(maxFragment, i, j - 1);
    }
  }

  /** `n` segments of at most `maxFragment` carry the payload, and no fewer do. */
  predicate IsPlan(payloadLen: nat, maxFragment: nat, n: nat) {
    && 1 <= n <= MAX_INTERMEDIATE_SEGMENTS + 1
    && (n > 1 ==> Offset(maxFragment, n - 1) < payloadLen)
    && (n > 1 ==> payloadLen <= Offset(maxFragment, n) && 0 < maxFragment)
    && (n == 1 ==> payloadLen == 0 || payloadLen <= maxFragment)
  }

  lemma PlanCountIsPlan(payloadLen: size, maxFragment: size)
    ensures var n := PlanCount(payloadLen, maxFragment);
            n != 0 ==> IsPlan(payloadLen, maxFragment, n)
  {
    var n := PlanCount(payloadLen, maxFragment);
    if n != 0 && payloadLen > 0 {
      PlanCountIsCeiling(payloadLen, maxFragment);
      OffsetIsProduct(maxFragment, n - 1);
      OffsetIsProduct(maxFragment, n);
    }
  }

  lemma OffsetsInRange(payloadLen: nat, maxFragment: nat, n: nat, i: nat)
    requires IsPlan(payloadLen, maxFragment, n) && i < n
    ensures Offset(maxFragment, i) <= payloadLen
    ensures i + 1 < n ==> Offset(maxFragment, i + 1) < payloadLen
  {
    OffsetMonotone(maxFragment, i, n - 1);
    if i + 1 < n {
      OffsetMonotone(maxFragment, i + 1, n - 1);
    }
  }

  /** Segment `i` of a plan of `n`. */
  function PlannedSegment(payloadLen: nat, maxFragment: nat, n: nat, i: nat): Segment
    requires IsPlan(payloadLen, maxFragment, n) && i < n
  {
    OffsetsInRange(payloadLen, maxFragment, n, i);
    var off := Offset(maxFragment, i);
    if i + 1 < n then Segment(off, maxFragment, true, U16(i))
    else Segment(off, payloadLen - off, false, 0)
  }

  function PlannedSegments(payloadLen: nat, maxFragment: nat, n: nat): seq<Segment>
    requires IsPlan(payloadLen, maxFragment, n)
  {
    seq(n, i requires 0 <= i < n => PlannedSegment(payloadLen, maxFragment, n, i))
  }

  function PlanVerdict(payloadLen: size, maxFragment: size, segmentCount: nat): PlanResult {
    var expected := PlanCount(payloadLen, maxFragment);
    if expected == 0 then if maxFragment == 0 then Disabled else TooManySegments
    else if segmentCount != expected then BadSegmentCount
    else PlanOk
  }

  /** What the planner answers, payload and limits alone deciding whether there is a plan. */
  lemma PlanVerdictMeans(payloadLen: size, maxFragment: size, segmentCount: nat)
    ensures var verdict := PlanVerdict(payloadLen, maxFragment, segmentCount);
            var tooMany := payloadLen > 4097 * maxFragment || SumWraps(payloadLen, maxFragment);
            && (verdict == Disabled <==> payloadLen > 0 && maxFragment == 0)
            && (verdict == TooManySegments <==> payloadLen > 0 && maxFragment > 0 && tooMany)
            && (verdict == PlanOk ==>
                  segmentCount >= 1 && (segmentCount - 1) * maxFragment <= payloadLen
                  && (payloadLen > 0 ==>
                        (segmentCount - 1) * maxFragment < payloadLen <= segmentCount * maxFragment))
  {
    hide PlanCount; hide SumWraps;
    PlanRefusesExactlyWhen(payloadLen, maxFragment);
    var n := PlanCount(payloadLen, maxFragment);
    if n != 0 && payloadLen > 0 {
      PlanCountIsCeiling(payloadLen, maxFragment);
    }
    if payloadLen == 0 {
      NothingInOne(maxFragment);
    }
  }

  lemma NothingInOne(maxFragment: size)
    ensures PlanCount(0, maxFragment) == 1
  {}

  method FillSegments(payloadLen: size, maxFragment: size, out: array<Segment>, expected: nat)
    requires 1 < expected <= out.Length && IsPlan(payloadLen, maxFragment, expected)
    modifies out
    ensures out[..expected] == PlannedSegments(payloadLen, maxFragment, expected)
    ensures out[expected..] == old(out[expected..])
  {
    var off := 0;
    var i := 0;
    while i + 1 < expected
      invariant 0 <= i < expected
      invariant off == Offset(maxFragment, i)
      invariant forall k :: 0 <= k < i ==> out[k] == PlannedSegment(payloadLen, maxFragment, expected, k)
      invariant out[expected..] == old(out[expected..])
    {
      out[i] := Segment(off, maxFragment, true, U16(i));
      off := off + maxFragment;
      i := i + 1;
    }
    OffsetsInRange(payloadLen, maxFragment, expected, expected - 1);
    out[expected - 1] := Segment(off, payloadLen - off, false, 0);
  }

  method Plan(payloadLen: size, maxFragment: size, out: array<Segment>, segmentCount: nat)
    returns (rc: PlanResult)
    requires segmentCount <= out.Length
    modifies out
    ensures rc == PlanVerdict(payloadLen, maxFragment, segmentCount)
    ensures rc == PlanOk ==>
              && IsPlan(payloadLen, maxFragment, segmentCount)
              && out[..segmentCount] == PlannedSegments(payloadLen, maxFragment, segmentCount)
              && out[segmentCount..] == old(out[segmentCount..])
    ensures rc != PlanOk ==> out[..] == old(out[..])
  {
    var expected := PlanCount(payloadLen, maxFragment);
    PlanCountIsPlan(payloadLen, maxFragment);
    if expected == 0 {
      return if maxFragment == 0 then Disabled else TooManySegments;
    }
    if segmentCount != expected {
      return BadSegmentCount;
    }
    if expected == 1 {
      out[0] := Segment(0, payloadLen, false, 0);
      return PlanOk;
    }
    FillSegments(payloadLen, maxFragment, out, expected);
    return PlanOk;
  }

  /** The segments tile the payload: no gap, no overlap, none over the limit, all
      numbered by position, and only the last one final. */
  lemma PlanTilesPayload(payloadLen: nat, maxFragment: nat, n: nat)
    requires IsPlan(payloadLen, maxFragment, n)
    ensures var segs := PlannedSegments(payloadLen, maxFragment, n);
            && segs[0].offset == 0
            && segs[n - 1].offset + segs[n - 1].len == payloadLen
            && (forall i :: 0 <= i < n - 1 ==> segs[i + 1].offset == segs[i].offset + segs[i].len)
            && (forall i :: 0 <= i < n ==> segs[i].ms == (i < n - 1))
            && (payloadLen > 0 ==> forall i :: 0 <= i < n ==> 0 < segs[i].len <= maxFragment)
            && (forall i :: 0 <= i < n - 1 ==> segs[i].segmentNum == i) && segs[n - 1].segmentNum == 0
  {
    forall i | 0 <= i < n
      ensures payloadLen > 0 ==> 0 < PlannedSegment(payloadLen, maxFragment, n, i).len <= maxFragment
    {
      OffsetsInRange(payloadLen, maxFragment, n, i);
      assert Offset(maxFragment, n) == Offset(maxFragment, n - 1) + maxFragment;
    }
  }

  // --- Reassembly ----------------------------------------------------------

  datatype ReasmState = ReasmState(
    collecting: bool, expected: uint16, content: seq<byte>, cap: nat, maxTotal: nat)

  datatype FeedResult = Continue | Complete | ErrOutOfOrder | ErrTooLarge | ErrAlloc
  {
    predicate Accepted() {
      Continue? || Complete?
    }
  }

  /** One fragment offered to the reassembler. `allocOk` says whether the allocator
      would grant a larger buffer if this fragment needs one. */
  datatype WireFragment = WireFragment(ms: bool, segmentNum: uint16, payload: seq<byte>, allocOk: bool)

  function Fresh(maxTotal: nat): ReasmState {
    ReasmState(false, 0, [], 0, maxTotal)
  }

  predicate NeedsGrowth(s: ReasmState, extra: nat) {
    extra > 0 && |s.content| + extra > s.cap
  }

  /** Doubling is done in `size_t`; a wrapped double is too small and so is replaced. */
  function GrownCap(s: ReasmState, extra: nat): nat {
    var doubled := if s.cap == 0 then extra else Size(s.cap * 2);
    if doubled < |s.content| + extra then |s.content| + extra else doubled
  }

  function Appended(s: ReasmState, payload: seq<byte>): ReasmState {
    s.(content := s.content + payload,
       cap := if NeedsGrowth(s, |payload|) then GrownCap(s, |payload|) else s.cap)
  }

  predicate AllocFails(s: ReasmState, f: WireFragment) {
    NeedsGrowth(s, |f.payload|) && !f.allocOk
  }

  /** One call of `rcp_fragment_reassembler_feed`. */
  function FeedStep(s: ReasmState, f: WireFragment): (ReasmState, FeedResult)
  {
    var tooLarge := |s.content| + |f.payload| > s.maxTotal;
    if !s.collecting then
      if tooLarge then (s, ErrTooLarge)
      else if !f.ms then
        if AllocFails(s, f) then (s, ErrAlloc) else (Appended(s, f.payload), Complete)
      else if f.segmentNum != 0 then (s, ErrOutOfOrder)
      else if AllocFails(s, f) then (s, ErrAlloc)
      else (Appended(s, f.payload).(collecting := true, expected := 1), Continue)
    else if f.ms && f.segmentNum != s.expected then (s, ErrOutOfOrder)
    else if tooLarge then (s, ErrTooLarge)
    else if AllocFails(s, f) then (s, ErrAlloc)
    else if f.ms then (Appended(s, f.payload).(expected := U16(s.expected + 1)), Continue)
    else (Appended(s, f.payload).(collecting := false), Complete)
  }

  lemma FeedKeepsBound(s: ReasmState, f: WireFragment)
    ensures FeedStep(s, f).0.maxTotal == s.maxTotal
  {}

  /** The in-place reassembler with its growable buffer. */
  class Reassembler {
    var collecting: bool
    var expectedSegmentNum: uint16
    var buf: array?<byte>
    var len: nat
    var cap: nat
    var maxTotalLen: nat

    ghost predicate Valid()
      reads this
    {
      && (buf == null <==> cap == 0)
      && (buf != null ==> buf.Length == cap)
      && len <= cap
      && len <= maxTotalLen
    }

    ghost function Repr(): set<object>
      reads this
    {
      {this} + if buf == null then {} else {buf}
    }

    ghost function State(): ReasmState
      requires Valid()
      reads this, buf
    {
      ReasmState(collecting, expectedSegmentNum, if buf == null then [] else buf[..len], cap, maxTotalLen)
    }

    constructor (maxTotalLen: nat)
      ensures Valid() && State() == Fresh(maxTotalLen)
      ensures fresh(Repr())
    {
      collecting, expectedSegmentNum := false, 0;
      buf, len, cap := null, 0, 0;
      this.maxTotalLen := maxTotalLen;
    }

    method Reset()
      requires Valid()
      modifies this
      ensures Valid() && State() == Fresh(old(State()).maxTotal)
      ensures Repr() == {this}
    {
      collecting, expectedSegmentNum := false, 0;
      buf, len, cap := null, 0, 0;
    }

    /** A larger buffer that starts with what is held. */
    method Grown(newCap: nat) returns (grown: array<byte>)
      requires Valid() && len <= newCap
      ensures fresh(grown) && grown.Length == newCap && grown[..len] == State().content
    {
      grown := new byte[newCap];
      if buf != null {
        forall i | 0 <= i < len {
          grown[i] := buf[i];
        }
      }
    }

    /** Grows the buffer when needed and copies the octets in; on allocation failure
        nothing changes. */
    method Append(payload: seq<byte>, allocOk: bool) returns (ok: bool)
      requires Valid() && len + |payload| <= maxTotalLen
      modifies this, buf
      ensures Valid() && fresh(Repr() - old(Repr()))
      ensures ok == !(NeedsGrowth(old(State()), |payload|) && !allocOk)
      ensures State() == if ok then Appended(old(State()), payload) else old(State())
    {
      ghost var before := State();
      if |payload| == 0 {
        assert before.content + payload == before.content;
        return true;
      }
      if len + |payload| > cap {
        var newCap := if cap == 0 then |payload| else Size(cap * 2);
        if newCap < len + |payload| {
          newCap := len + |payload|;
        }
        if !allocOk {
          return false;
        }
        var grown := Grown(newCap);
        buf, cap := grown, newCap;
        assert buf[..len] == before.content;
      }
      forall i | 0 <= i < |payload| {
        buf[len + i] := payload[i];
      }
      len := len + |payload|;
      assert buf[..len] == before.content + payload;
      return true;
    }

    method Feed(f: WireFragment) returns (result: FeedResult)
      requires Valid()
      modifies this, buf
      ensures Valid() && fresh(Repr() - old(Repr()))
      ensures (State(), result) == FeedStep(old(State()), f)
    {
      var ok: bool;
      if !collecting {
        if |f.payload| > maxTotalLen - len {
          return ErrTooLarge;
        }
        if !f.ms {
          ok := Append(f.payload, f.allocOk);
          return if ok then Complete else ErrAlloc;
        }
        if f.segmentNum != 0 {
          return ErrOutOfOrder;
        }
        ok := Append(f.payload, f.allocOk);
        if !ok {
          return ErrAlloc;
        }
        collecting, expectedSegmentNum := true, 1;
        return Continue;
      }
      if f.ms && f.segmentNum != expectedSegmentNum {
        return ErrOutOfOrder;
      }
      if |f.payload| > maxTotalLen - len {
        return ErrTooLarge;
      }
      ok := Append(f.payload, f.allocOk);
      if !ok {
        return ErrAlloc;
      }
      if f.ms {
        expectedSegmentNum := U16(expectedSegmentNum + 1);
        return Continue;
      }
      collecting := false;
      return Complete;
    }

    method Get() returns (payload: seq<byte>)
      requires Valid()
      ensures payload == State().content
    {
      payload := if buf == null then [] else buf[..len];
    }
  }
}
