/** The GPIO debounce filter (`src/ep_gpio.c`). */
module Debounce {
  import opened Wrappers

  /** An 8-bit counter. */
  type count8 = n: int | 0 <= n <= 0xFF

  datatype FilterState = FilterState(
    hasSettled: bool, settled: bool, hasCandidate: bool, candidate: bool, count: count8)

  const NEW_FILTER := FilterState(false, false, false, false, 0)

  /** One sample, counted: a differing one starts a new run. */
  function Counted(s: FilterState, raw: bool): FilterState {
    if !s.hasCandidate || s.candidate != raw then s.(hasCandidate := true, candidate := raw, count := 1)
    else if s.count < 0xFF then s.(count := s.count + 1)
    else s
  }

  /** `rcp_ep_gpio_debounce_sample`: the new state and whether the settled value changed. */
  function SampleStep(s: FilterState, raw: bool, n: count8): (FilterState, bool) {
    if n == 0 then
      (s.(hasCandidate := false, hasSettled := true, settled := raw), s.hasSettled && s.settled != raw)
    else
      var s1 := Counted(s, raw);
      if s1.count >= n && (!s1.hasSettled || s1.settled != s1.candidate) then
        (s1.(hasSettled := true, settled := s1.candidate), s1.hasSettled)
      else (s1, false)
  }

  /** The value a caller sees. */
  function Output(s: FilterState): bool {
    s.hasSettled && s.settled
  }

  class Filter {
    var hasSettled: bool
    var settledValue: bool
    var hasCandidate: bool
    var candidateValue: bool
    var consecutiveCount: count8

    ghost function State(): FilterState
      reads this
    {
      FilterState(hasSettled, settledValue, hasCandidate, candidateValue, consecutiveCount)
    }

    constructor ()
      ensures State() == NEW_FILTER
    {
      hasSettled, settledValue, hasCandidate, candidateValue, consecutiveCount := false, false, false, false, 0;
    }

    method Sample(raw: bool, n: count8) returns (value: bool, changed: bool)
      modifies this
      ensures (State(), changed) == SampleStep(old(State()), raw, n)
      ensures value == Output(State())
    {
      var prevSettled := hasSettled && settledValue;
      if n == 0 {
        hasCandidate := false;
        changed := hasSettled && prevSettled != raw;
        hasSettled := true;
        settledValue := raw;
        return settledValue, changed;
      }
      if !hasCandidate || candidateValue != raw {
        hasCandidate, candidateValue, consecutiveCount := true, raw, 1;
      } else if consecutiveCount < 0xFF {
        consecutiveCount := consecutiveCount + 1;
      }
      changed := false;
      if consecutiveCount >= n && (!hasSettled || settledValue != candidateValue) {
        changed := hasSettled;
        hasSettled := true;
        settledValue := candidateValue;
      }
      value := if hasSettled then settledValue else false;
    }
  }

  // --- The change flag against its documented meaning ---------------------------------
  //
  // The header promises that the flag says whether the returned value differs from the
  // value returned before, and is false on the very first call.

  predicate FlagAsPromised(s: FilterState, raw: bool, n: count8) {
    var (after, changed) := SampleStep(s, raw, n);
    changed <==> s != NEW_FILTER && Output(after) != Output(s)
  }

  /** A new filter is one that was never called. */
  lemma CalledIsNotNew(s: FilterState, raw: bool, n: count8)
    ensures SampleStep(s, raw, n).0 != NEW_FILTER
  {}

  /** A first settling on true: until then false was returned, and no change is flagged. */
  predicate SettlesFirstOnTrue(s: FilterState, raw: bool, n: count8) {
    !s.hasSettled && raw && (n == 0 || Counted(s, raw).count >= n)
  }

  /** For every state and sample, the flag is as promised exactly when this is the very first
      call or does not make the filter settle for the first time, on true. No later call finds
      the filter as new. */
  lemma FlagAsPromisedExactlyWhen(s: FilterState, raw: bool, n: count8)
    ensures FlagAsPromised(s, raw, n) <==> s == NEW_FILTER || !SettlesFirstOnTrue(s, raw, n)
    ensures SampleStep(s, raw, n).0 != NEW_FILTER
  {
    CalledIsNotNew(s, raw, n);
    hide SampleStep;
    SampleCases(s, raw, n);
  }

  lemma SampleCases(s: FilterState, raw: bool, n: count8)
    ensures var (after, changed) := SampleStep(s, raw, n);
            var settles := n == 0 || Counted(s, raw).count >= n;
            && after.hasSettled == (s.hasSettled || settles)
            && (settles ==> after.settled == raw)
            && (!settles ==> after.settled == s.settled && !changed)
            && (settles ==> (changed <==> s.hasSettled && s.settled != raw))
  {}

  /** Two samples of true with n two: the second call returns true after false, unflagged. */
  lemma FirstSettlingIsNotFlagged()
    ensures var s := SampleStep(NEW_FILTER, true, 2).0;
            var (after, changed) := SampleStep(s, true, 2);
            !Output(s) && Output(after) && !changed && !FlagAsPromised(s, true, 2)
  {}

  // --- What a trace means -------------------------------------------------------------

  /** `n` samples ending at `end` that all read `v`. */
  ghost predicate Window(samples: seq<bool>, n: nat, end: nat, v: bool) {
    && n <= end <= |samples|
    && forall i :: end - n <= i < end ==> samples[i] == v
  }

  /** The last window of `n` equal samples reads `v`. */
  ghost predicate LastWindowReads(samples: seq<bool>, n: nat, v: bool) {
    exists end: nat :: Window(samples, n, end, v) && NoLaterWindow(samples, n, end, !v)
  }

  ghost predicate NoLaterWindow(samples: seq<bool>, n: nat, end: nat, v: bool) {
    forall later: nat :: later > end ==> !Window(samples, n, later, v)
  }

  /** How many samples at the end are equal. */
  function TrailingRun(samples: seq<bool>): (run: nat)
    ensures run <= |samples|
  {
    if |samples| <= 1 then |samples|
    else if samples[|samples| - 1] != samples[|samples| - 2] then 1
    else TrailingRun(samples[..|samples| - 1]) + 1
  }

  /** The settled value after the samples, if any window was ever complete. */
  function Settled(samples: seq<bool>, n: nat): Option<bool>
    requires n >= 1
  {
    if samples == [] then None
    else if TrailingRun(samples) >= n then Some(samples[|samples| - 1])
    else Settled(samples[..|samples| - 1], n)
  }

  lemma {:induction false} TrailingRunIsEqual(samples: seq<bool>, n: nat)
    requires n >= 1 && samples != []
    ensures TrailingRun(samples) >= n <==> Window(samples, n, |samples|, samples[|samples| - 1])
  {
    var last := |samples| - 1;
    if last > 0 {
      var front := samples[..last];
      if n == 1 {
        RunIsPositive(samples);
      } else {
        TrailingRunIsEqual(front, n - 1);
        if samples[last] == samples[last - 1] {
          if Window(samples, n, |samples|, samples[last]) {
            assert Window(front, n - 1, last, front[last - 1]);
          }
        } else if n <= |samples| {
          assert samples[last - 1] != samples[last];
        }
      }
    }
  }

  lemma RunIsPositive(samples: seq<bool>)
    requires samples != []
    ensures TrailingRun(samples) >= 1
  {}

  lemma WindowInFront(samples: seq<bool>, n: nat, end: nat, v: bool)
    requires samples != [] && end < |samples|
    ensures Window(samples, n, end, v) <==> Window(samples[..|samples| - 1], n, end, v)
  {}

  lemma OnlyLastReading(samples: seq<bool>, n: nat, v: bool)
    requires n >= 1 && samples != [] && v != samples[|samples| - 1]
    ensures !Window(samples, n, |samples|, v)
  {
    assert |samples| - n <= |samples| - 1 < |samples|;
  }

  /** `Settled` is the reading of the last window, and None exactly when there is none. */
  lemma {:induction false} SettledIsLastWindow(samples: seq<bool>, n: nat, v: bool)
    requires n >= 1
    ensures Settled(samples, n) == Some(v) <==> LastWindowReads(samples, n, v)
  {
    hide TrailingRun;
    if samples != [] {
      var last := |samples| - 1;
      var front := samples[..last];
      SettledIsLastWindow(front, n, v);
      TrailingRunIsEqual(samples, n);
      OnlyLastReading(samples, n, !samples[last]);
      forall end: nat, w: bool | end < |samples|
        ensures Window(samples, n, end, w) <==> Window(front, n, end, w)
      {
        WindowInFront(samples, n, end, w);
      }
      if TrailingRun(samples) >= n {
        WholeTrailingWindow(samples, n, v);
      } else {
        ShorterSameLast(samples, front, n, v);
      }
    }
  }

  lemma WholeTrailingWindow(samples: seq<bool>, n: nat, v: bool)
    requires n >= 1 && samples != [] && Window(samples, n, |samples|, samples[|samples| - 1])
    ensures LastWindowReads(samples, n, v) <==> v == samples[|samples| - 1]
  {
    var last := samples[|samples| - 1];
    OnlyLastReading(samples, n, !last);
    assert NoLaterWindow(samples, n, |samples|, !last);
  }

  lemma ShorterSameLast(samples: seq<bool>, front: seq<bool>, n: nat, v: bool)
    requires |samples| == |front| + 1
    requires !Window(samples, n, |samples|, true) && !Window(samples, n, |samples|, false)
    requires forall end: nat, w: bool :: end < |samples| ==> (Window(samples, n, end, w) <==> Window(front, n, end, w))
    ensures LastWindowReads(samples, n, v) <==> LastWindowReads(front, n, v)
  {
    forall end: nat, w: bool
      ensures Window(samples, n, end, w) <==> Window(front, n, end, w)
    {
      if end == |samples| { NoWindowBeyond(front, n, end, w); }
      if end > |samples| {
        NoWindowBeyond(front, n, end, w);
        NoWindowBeyond(samples, n, end, w);
      }
    }
    hide Window;
    if LastWindowReads(samples, n, v) {
      var end: nat :| Window(samples, n, end, v) && NoLaterWindow(samples, n, end, !v);
      assert NoLaterWindow(front, n, end, !v) && Window(front, n, end, v);
    }
    if LastWindowReads(front, n, v) {
      var end: nat :| Window(front, n, end, v) && NoLaterWindow(front, n, end, !v);
      assert NoLaterWindow(samples, n, end, !v) && Window(samples, n, end, v);
    }
  }

  lemma NoWindowBeyond(samples: seq<bool>, n: nat, end: nat, v: bool)
    requires end > |samples|
    ensures !Window(samples, n, end, v)
  {}

  // --- The filter refines it ------------------------------------------------------------

  function Run(samples: seq<bool>, n: count8): FilterState {
    if samples == [] then NEW_FILTER
    else SampleStep(Run(samples[..|samples| - 1], n), samples[|samples| - 1], n).0
  }

  /** Whether the last sample of the trace was reported as a change. */
  function Flagged(samples: seq<bool>, n: count8): bool {
    samples != [] && SampleStep(Run(samples[..|samples| - 1], n), samples[|samples| - 1], n).1
  }

  /** How many samples of the trace were. */
  function Changes(samples: seq<bool>, n: count8): nat {
    if samples == [] then 0
    else Changes(samples[..|samples| - 1], n) + if Flagged(samples, n) then 1 else 0
  }

  ghost predicate Tracks(s: FilterState, samples: seq<bool>, n: count8)
    requires n >= 1
  {
    && s.hasSettled == Settled(samples, n).Some?
    && (s.hasSettled ==> s.settled == Settled(samples, n).value)
    && s.hasCandidate == (samples != [])
    && (s.hasCandidate ==> s.candidate == samples[|samples| - 1])
    && s.count == if TrailingRun(samples) <= 0xFF then TrailingRun(samples) else 0xFF
  }

  lemma TracksNext(s: FilterState, samples: seq<bool>, raw: bool, n: count8)
    requires n >= 1 && Tracks(s, samples, n)
    ensures var (after, changed) := SampleStep(s, raw, n);
            && Tracks(after, samples + [raw], n)
            && (changed <==>
                  && Settled(samples, n).Some?
                  && Settled(samples + [raw], n) == Some(!Settled(samples, n).value))
  {
    hide TrailingRun; hide Settled;
    RunNext(samples, raw);
    SettledNext(samples, raw, n);
    NoRun();
  }

  lemma NoRun()
    ensures TrailingRun([]) == 0 && forall n: nat :: n >= 1 ==> Settled([], n) == None
  {}

  lemma RunNext(samples: seq<bool>, raw: bool)
    ensures TrailingRun(samples + [raw])
            == if samples != [] && samples[|samples| - 1] == raw then TrailingRun(samples) + 1 else 1
  {
    assert (samples + [raw])[..|samples|] == samples;
  }

  lemma SettledNext(samples: seq<bool>, raw: bool, n: nat)
    requires n >= 1
    ensures Settled(samples + [raw], n)
            == if TrailingRun(samples + [raw]) >= n then Some(raw) else Settled(samples, n)
  {
    hide TrailingRun;
    assert (samples + [raw])[..|samples|] == samples;
  }

  lemma {:induction false} FilterTracks(samples: seq<bool>, n: count8)
    requires n >= 1
    ensures Tracks(Run(samples, n), samples, n)
    ensures samples != [] ==>
              var before := Settled(samples[..|samples| - 1], n);
              (Flagged(samples, n) <==> before.Some? && Settled(samples, n) == Some(!before.value))
  {
    if samples == [] {
      NoRun();
    } else {
      hide SampleStep; hide Settled; hide TrailingRun; hide Tracks;
      var front, raw := samples[..|samples| - 1], samples[|samples| - 1];
      FilterTracks(front, n);
      TracksNext(Run(front, n), front, raw, n);
      assert samples == front + [raw];
    }
  }

  /** For every trace and every fixed `n` of at least one, the counter's eight bits
      notwithstanding: the output is the reading of the last complete window, false if there
      is none; and a sample is reported as a change exactly when that reading flips, the first
      one never. */
  lemma FilterRefinesTrace(samples: seq<bool>, n: count8)
    requires n >= 1
    ensures Run(samples, n).hasSettled <==> LastWindowReads(samples, n, true) || LastWindowReads(samples, n, false)
    ensures Output(Run(samples, n)) <==> LastWindowReads(samples, n, true)
    ensures samples != [] ==>
              var front := samples[..|samples| - 1];
              (Flagged(samples, n) <==>
                 exists v :: LastWindowReads(front, n, v) && LastWindowReads(samples, n, !v))
  {
    hide LastWindowReads; hide Settled; hide TrailingRun; hide Run; hide Flagged;
    FilterTracks(samples, n);
    SettledIsLastWindow(samples, n, true);
    SettledIsLastWindow(samples, n, false);
    if samples != [] {
      SettledIsLastWindow(samples[..|samples| - 1], n, true);
      SettledIsLastWindow(samples[..|samples| - 1], n, false);
    }
  }

  /** Samples spent so far on a run that differs from the settled value. */
  function Pending(samples: seq<bool>, n: nat): nat
    requires n >= 1
  {
    if samples == [] || Settled(samples, n) == Some(samples[|samples| - 1]) then 0 else TrailingRun(samples)
  }

  /** Every change, and the first settling, used up `n` samples of its own: so `k` samples
      report at most `k / n` changes, and one fewer once the filter has settled. */
  lemma ChangesAreRare(samples: seq<bool>, n: count8)
    requires n >= 1
    ensures Changes(samples, n) <= |samples| / n
    ensures Settled(samples, n).Some? ==> Changes(samples, n) + 1 <= |samples| / n
  {
    hide Settled; hide Changes; hide Pending;
    WindowsCovered(samples, n);
    var c, k := Changes(samples, n), |samples|;
    NoWindows(n);
    OneMoreWindow(n, c);
    AtMostQuotient(n, c, k);
    AtMostQuotient(n, c + 1, k);
  }

  lemma AtMostQuotient(n: nat, c: nat, k: nat)
    requires n >= 1
    ensures n * c <= k ==> c <= k / n
  {
    var q, r := k / n, k % n;
    assert k == n * q + r;
    if n * c <= k {
      FitsQuotient(n, q, r, c);
    }
  }

  lemma FitsQuotient(n: nat, q: nat, r: nat, c: nat)
    requires r < n && n * c <= n * q + r
    ensures c <= q
  {
    if c > q {
      ProductGrows(n, q + 1, c);
      OneMoreWindow(n, q);
      assert false;
    }
  }

  lemma ProductGrows(n: nat, a: nat, b: nat)
    requires a <= b
    ensures n * a <= n * b
  {}

  lemma {:induction false} WindowsCovered(samples: seq<bool>, n: count8)
    requires n >= 1
    ensures Covers(n, |samples|, Changes(samples, n), Settled(samples, n), Pending(samples, n))
  {
    hide Settled; hide TrailingRun; hide Flagged; hide Run;
    if samples == [] {
      NoRun();
    } else {
      hide Pending; hide Covers; hide Tracks;
      var front, raw := samples[..|samples| - 1], samples[|samples| - 1];
      WindowsCovered(front, n);
      FilterTracks(samples, n);
      PendingNext(front, raw, n);
      assert samples == front + [raw];
      RareNext(n, |front|, Changes(front, n), Settled(front, n), Settled(samples, n), Pending(front, n),
               Pending(samples, n), Flagged(samples, n));
    }
  }

  /** The count of samples covers the windows used up so far and the run in progress. */
  ghost predicate Covers(n: nat, k: nat, changes: nat, settled: Option<bool>, pending: nat) {
    if settled.None? then changes == 0 && pending <= k else n * (changes + 1) + pending <= k
  }

  lemma RareNext(n: nat, k: nat, changes: nat, before: Option<bool>, after: Option<bool>, pending: nat,
                 pending': nat, flagged: bool)
    requires Covers(n, k, changes, before, pending)
    requires if after == before then pending' <= pending + 1 else after.Some? && pending' == 0 && n <= pending + 1
    requires flagged <==> before.Some? && after == Some(!before.value)
    ensures Covers(n, k + 1, if flagged then changes + 1 else changes, after, pending')
  {
    OneMoreWindow(n, changes + 1);
    OneMoreWindow(n, 0);
    NoWindows(n);
  }

  lemma NoWindows(n: nat)
    ensures n * 0 == 0
  {}

  lemma OneMoreWindow(n: nat, c: nat)
    ensures n * (c + 1) == n * c + n
  {}

  lemma PendingNext(front: seq<bool>, raw: bool, n: nat)
    requires n >= 1
    ensures var samples := front + [raw];
            && (Settled(samples, n) == Settled(front, n) ==> Pending(samples, n) <= Pending(front, n) + 1)
            && (Settled(samples, n) != Settled(front, n) ==>
                  && Settled(samples, n) == Some(raw) && Pending(samples, n) == 0
                  && n <= TrailingRun(samples) <= Pending(front, n) + 1)
  {
    hide TrailingRun; hide Settled;
    RunNext(front, raw);
    SettledNext(front, raw, n);
    NoRun();
    RunIsPositive(front + [raw]);
    if front != [] {
      RunIsPositive(front);
      UnsettledRunIsShort(front, n);
    }
  }

  /** A run in progress that reads something other than the settled value is short. */
  lemma UnsettledRunIsShort(samples: seq<bool>, n: nat)
    requires n >= 1 && samples != []
    ensures Settled(samples, n) == Some(samples[|samples| - 1]) || TrailingRun(samples) < n
  {}

  /** With `n` zero there is no filter: the output is the last sample and a change is
      reported exactly when two neighbouring samples differ. */
  lemma {:induction false} UnfilteredWhenZero(samples: seq<bool>)
    requires samples != []
    ensures Run(samples, 0).hasSettled && Output(Run(samples, 0)) == samples[|samples| - 1]
    ensures Flagged(samples, 0) <==> |samples| >= 2 && samples[|samples| - 2] != samples[|samples| - 1]
  {
    if |samples| >= 2 {
      UnfilteredWhenZero(samples[..|samples| - 1]);
    }
  }
}
