/** What whole runs of the reassembler keep, and that it undoes the planner. */
module ReassemblyRuns {
  import opened Octets
  import opened Fragment

  /** The state after offering the fragments in order, accepted or not. */
  function Run(s: ReasmState, fragments: seq<WireFragment>): ReasmState {
    if fragments == [] then s
    else FeedStep(Run(s, fragments[..|fragments| - 1]), fragments[|fragments| - 1]).0
  }

  /** The answer to fragment `i` of the run. */
  function ResultAt(s: ReasmState, fragments: seq<WireFragment>, i: nat): FeedResult
    requires i < |fragments|
  {
    FeedStep(Run(s, fragments[..i]), fragments[i]).1
  }

  lemma RunOfNext(s: ReasmState, fragments: seq<WireFragment>, i: nat)
    requires i < |fragments|
    ensures Run(s, fragments[..i + 1]) == FeedStep(Run(s, fragments[..i]), fragments[i]).0
  {
    assert fragments[..i + 1][..i] == fragments[..i];
  }

  /** What an observer of the answers knows: the accepted payloads, the numbers of the
      intermediates accepted since the last completion, and the octets that growing the
      buffer had to move. */
  datatype History = History(accepted: seq<seq<byte>>, current: seq<uint16>, moved: nat)

  function Observe(h: History, s: ReasmState, f: WireFragment): History {
    match FeedStep(s, f).1
    case Continue => History(h.accepted + [f.payload], h.current + [f.segmentNum], h.moved + GrowthMoves(s, f))
    case Complete => History(h.accepted + [f.payload], [], h.moved + GrowthMoves(s, f))
    case _ => h
  }

  function Observed(s: ReasmState, fragments: seq<WireFragment>): History {
    if fragments == [] then History([], [], 0)
    else
      var front := fragments[..|fragments| - 1];
      Observe(Observed(s, front), Run(s, front), fragments[|fragments| - 1])
  }

  /** Growing may move the whole old allocation, if the grown one has room beside it in the
      address space; otherwise it can only be granted in place. */
  function GrowthMoves(s: ReasmState, f: WireFragment): nat {
    if NeedsGrowth(s, |f.payload|) && s.cap + GrownCap(s, |f.payload|) <= SIZE_MODULUS then s.cap else 0
  }

  ghost predicate RunKeeps(maxTotal: nat, s: ReasmState, h: History) {
    && s.maxTotal == maxTotal
    && s.content == Concat(h.accepted)
    && (s.collecting <==> h.current != [])
    && (s.collecting ==> s.expected == U16(|h.current|))
    && (forall i :: 0 <= i < |h.current| ==> h.current[i] == U16(i))
    && |s.content| <= maxTotal
    && |s.content| <= s.cap <= 2 * |s.content|
    && h.moved <= s.cap
  }

  /** A block that has room beside the old one is at least twice as large: where the doubling
      wraps, the two together exceed the address space. */
  lemma GrownCapBounds(s: ReasmState, extra: nat)
    requires NeedsGrowth(s, extra) && |s.content| <= s.cap <= 2 * |s.content|
    ensures |s.content| + extra <= GrownCap(s, extra) <= 2 * (|s.content| + extra)
    ensures s.cap + GrownCap(s, extra) <= SIZE_MODULUS ==> GrownCap(s, extra) >= 2 * s.cap
  {}

  lemma FeedKeeps(maxTotal: nat, s: ReasmState, h: History, f: WireFragment)
    requires RunKeeps(maxTotal, s, h)
    ensures RunKeeps(maxTotal, FeedStep(s, f).0, Observe(h, s, f))
  {
    hide GrownCap; hide Concat; hide U16;
    ConcatSnoc(h.accepted, f.payload);
    if NeedsGrowth(s, |f.payload|) {
      GrownCapBounds(s, |f.payload|);
    }
    if FeedStep(s, f).1.Accepted() {
      NextU16(|h.current|);
      assert |s.content + f.payload| == |s.content| + |f.payload|;
    }
  }

  /** After any fragments whatsoever, rejected ones included. */
  lemma {:induction false} ReassemblerRun(maxTotal: nat, fragments: seq<WireFragment>)
    ensures RunKeeps(maxTotal, Run(Fresh(maxTotal), fragments), Observed(Fresh(maxTotal), fragments))
  {
    if fragments != [] {
      var front, f := fragments[..|fragments| - 1], fragments[|fragments| - 1];
      ReassemblerRun(maxTotal, front);
      FeedKeeps(maxTotal, Run(Fresh(maxTotal), front), Observed(Fresh(maxTotal), front), f);
    }
  }

  /** A fragment is accepted exactly when it is the next one of the message observed so
      far, fits, and any growth it needs is granted; a rejected one changes nothing. Being out
      of order is reported ahead of not fitting inside a message, behind it at its start. */
  lemma AcceptedExactlyWhenNext(maxTotal: nat, fragments: seq<WireFragment>, f: WireFragment)
    ensures var s := Run(Fresh(maxTotal), fragments);
            var h := Observed(Fresh(maxTotal), fragments);
            var (after, result) := FeedStep(s, f);
            && (result.Accepted() <==>
                  && (f.ms ==> f.segmentNum == U16(|h.current|))
                  && |Concat(h.accepted)| + |f.payload| <= maxTotal
                  && !AllocFails(s, f))
            && (result.Accepted() ==> result == if f.ms then Continue else Complete)
            && (!result.Accepted() ==> after == s)
            && var inOrder := f.ms ==> f.segmentNum == U16(|h.current|);
               var fits := |Concat(h.accepted)| + |f.payload| <= maxTotal;
               && (result == ErrOutOfOrder <==> !inOrder && (h.current != [] || fits))
               && (result == ErrTooLarge <==> !fits && (h.current == [] || inOrder))
               && (result == ErrAlloc <==> inOrder && fits && AllocFails(s, f))
  {
    hide NeedsGrowth; hide GrownCap; hide Concat;
    ReassemblerRun(maxTotal, fragments);
  }

  // --- Plan, then reassemble -------------------------------------------------

  function Slice(payload: seq<byte>, segment: Segment): seq<byte>
    requires segment.offset + segment.len <= |payload|
  {
    payload[segment.offset..segment.offset + segment.len]
  }

  function PlannedSlice(payload: seq<byte>, maxFragment: nat, n: nat, i: nat): seq<byte>
    requires IsPlan(|payload|, maxFragment, n) && i < n
  {
    OffsetsInRange(|payload|, maxFragment, n, i);
    Slice(payload, PlannedSegment(|payload|, maxFragment, n, i))
  }

  function PlannedFragment(payload: seq<byte>, maxFragment: nat, n: nat, i: nat): WireFragment
    requires IsPlan(|payload|, maxFragment, n) && i < n
  {
    var segment := PlannedSegment(|payload|, maxFragment, n, i);
    WireFragment(segment.ms, segment.segmentNum, PlannedSlice(payload, maxFragment, n, i), true)
  }

  function PlannedFragments(payload: seq<byte>, maxFragment: nat, n: nat): seq<WireFragment>
    requires IsPlan(|payload|, maxFragment, n)
  {
    seq(n, i requires 0 <= i < n => PlannedFragment(payload, maxFragment, n, i))
  }

  /** What the reassembler holds once `i` intermediates of a message were accepted. */
  ghost predicate HoldsPrefix(s: ReasmState, r: ReasmState, payload: seq<byte>, maxFragment: nat, i: nat) {
    && Offset(maxFragment, i) <= |payload|
    && r.content == s.content + payload[..Offset(maxFragment, i)]
    && r.collecting == (i > 0)
    && (i > 0 ==> r.expected == U16(i))
    && r.maxTotal == s.maxTotal
  }

  lemma PlannedFragmentFields(payload: seq<byte>, maxFragment: nat, n: nat, i: nat)
    requires IsPlan(|payload|, maxFragment, n) && i < n
    ensures Offset(maxFragment, i) <= |payload|
    ensures i + 1 < n ==>
              && Offset(maxFragment, i + 1) <= |payload|
              && PlannedFragment(payload, maxFragment, n, i)
                 == WireFragment(true, i, payload[Offset(maxFragment, i)..Offset(maxFragment, i + 1)], true)
    ensures i + 1 == n ==>
              PlannedFragment(payload, maxFragment, n, i)
              == WireFragment(false, 0, payload[Offset(maxFragment, i)..], true)
  {
    OffsetsInRange(|payload|, maxFragment, n, i);
  }

  lemma ExtendPrefix(before: seq<byte>, payload: seq<byte>, from: nat, to: nat)
    requires from <= to <= |payload|
    ensures before + payload[..from] + payload[from..to] == before + payload[..to]
  {
    assert payload[..from] + payload[from..to] == payload[..to];
  }

  /** The next fragment of the current message, when it fits and memory suffices. */
  lemma FeedNext(r: ReasmState, f: WireFragment)
    requires f.allocOk && |r.content| + |f.payload| <= r.maxTotal
    requires f.ms ==> f.segmentNum == if r.collecting then r.expected else 0
    ensures var (after, result) := FeedStep(r, f);
            && result == (if f.ms then Continue else Complete)
            && after.content == r.content + f.payload
            && after.collecting == f.ms
            && (f.ms ==> after.expected == if r.collecting then U16(r.expected + 1) else 1)
            && after.maxTotal == r.maxTotal
  {}

  /** Feeding planned fragment `i` to a reassembler that holds the prefix before it. */
  lemma FeedPlannedFragment(s: ReasmState, r: ReasmState, payload: seq<byte>, maxFragment: nat, n: nat, i: nat)
    requires IsPlan(|payload|, maxFragment, n) && i < n
    requires |s.content| + |payload| <= s.maxTotal
    requires HoldsPrefix(s, r, payload, maxFragment, i)
    ensures var (after, result) := FeedStep(r, PlannedFragment(payload, maxFragment, n, i));
            if i + 1 < n then result == Continue && HoldsPrefix(s, after, payload, maxFragment, i + 1)
            else result == Complete && !after.collecting && after.content == s.content + payload
  {
    PlannedFragmentFields(payload, maxFragment, n, i);
    var f := PlannedFragment(payload, maxFragment, n, i);
    var to := if i + 1 < n then Offset(maxFragment, i + 1) else |payload|;
    assert payload[..|payload|] == payload;
    ExtendPrefix(s.content, payload, Offset(maxFragment, i), to);
    FeedNext(r, f);
  }

  lemma {:induction false} AfterIntermediates(
      s: ReasmState, payload: seq<byte>, maxFragment: nat, n: nat, i: nat)
    requires IsPlan(|payload|, maxFragment, n) && i < n
    requires !s.collecting && |s.content| + |payload| <= s.maxTotal
    ensures HoldsPrefix(s, Run(s, PlannedFragments(payload, maxFragment, n)[..i]), payload, maxFragment, i)
    ensures forall k :: 0 <= k < i ==> ResultAt(s, PlannedFragments(payload, maxFragment, n), k) == Continue
  {
    hide FeedStep; hide PlannedFragment; hide IsPlan;
    var fragments := PlannedFragments(payload, maxFragment, n);
    if i == 0 {
      assert fragments[..0] == [];
    } else {
      AfterIntermediates(s, payload, maxFragment, n, i - 1);
      RunOfNext(s, fragments, i - 1);
      FeedPlannedFragment(s, Run(s, fragments[..i - 1]), payload, maxFragment, n, i - 1);
    }
  }

  /** Feeding the planned fragments in order answers CONTINUE until a final COMPLETE, and
      appends exactly the payload: after a reset the buffer is the payload. */
  lemma PlanThenReassemble(s: ReasmState, payload: seq<byte>, maxFragment: size)
    requires |payload| < SIZE_MODULUS && PlanCount(|payload|, maxFragment) != 0
    requires !s.collecting && |s.content| + |payload| <= s.maxTotal
    ensures var n := PlanCount(|payload|, maxFragment);
            && IsPlan(|payload|, maxFragment, n)
            && var fragments := PlannedFragments(payload, maxFragment, n);
               var r := Run(s, fragments);
               && (forall k :: 0 <= k < n ==>
                     ResultAt(s, fragments, k) == if k == n - 1 then Complete else Continue)
               && !r.collecting
               && r.content == s.content + payload
               && (r.content == payload <==> s.content == [])
  {
    PlanCountIsPlan(|payload|, maxFragment);
    RunOfPlan(s, payload, maxFragment, PlanCount(|payload|, maxFragment));
  }

  lemma RunOfPlan(s: ReasmState, payload: seq<byte>, maxFragment: nat, n: nat)
    requires IsPlan(|payload|, maxFragment, n)
    requires !s.collecting && |s.content| + |payload| <= s.maxTotal
    ensures var fragments := PlannedFragments(payload, maxFragment, n);
            var r := Run(s, fragments);
            && (forall k :: 0 <= k < n ==>
                  ResultAt(s, fragments, k) == if k == n - 1 then Complete else Continue)
            && !r.collecting
            && r.content == s.content + payload
            && (r.content == payload <==> s.content == [])
  {
    hide FeedStep; hide PlannedFragment; hide Offset;
    var fragments := PlannedFragments(payload, maxFragment, n);
    AfterIntermediates(s, payload, maxFragment, n, n - 1);
    RunOfNext(s, fragments, n - 1);
    assert fragments[..n] == fragments;
    FeedPlannedFragment(s, Run(s, fragments[..n - 1]), payload, maxFragment, n, n - 1);
    assert |s.content + payload| == |s.content| + |payload|;
  }
}
