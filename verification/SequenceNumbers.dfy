/** Per-stream sequence-number checking (`src/e2e.c`), serial-number arithmetic in the sense
    of section 3.2 of RFC 1982 on 8-bit numbers. */
module SequenceNumbers {

  type uint8 = n: int | 0 <= n < 256

  datatype SeqState = SeqState(hasPrev: bool, prev: uint8)

  datatype SeqResult = SeqResult(accept: bool, discontinuity: bool, enterSafeState: bool)

  const INITIAL := SeqState(false, 0)

  function ForwardDistance(from: uint8, to: uint8): uint8 {
    (to - from) % 256
  }

  function EvaluateStep(s: SeqState, enforce: bool, safestateEnable: bool, number: uint8): (SeqState, SeqResult) {
    if !s.hasPrev then (SeqState(true, number), SeqResult(true, false, false))
    else
      var distance := ForwardDistance(s.prev, number);
      var accept := !enforce || 1 <= distance <= 127;
      var discontinuity := distance != 1;
      (if accept then s.(prev := number) else s,
       SeqResult(accept, discontinuity, discontinuity && safestateEnable))
  }

  class SeqTracker {
    var hasPrev: bool
    var prevSeq: uint8

    ghost function State(): SeqState
      reads this
    {
      SeqState(hasPrev, prevSeq)
    }

    constructor ()
      ensures State() == INITIAL
    {
      hasPrev, prevSeq := false, 0;
    }

    method Evaluate(enforce: bool, safestateEnable: bool, number: uint8) returns (r: SeqResult)
      modifies this
      ensures (State(), r) == EvaluateStep(old(State()), enforce, safestateEnable, number)
    {
      if !hasPrev {
        hasPrev, prevSeq := true, number;
        return SeqResult(true, false, false);
      }
      var distance := (number - prevSeq) % 256;
      var accept := !enforce || (distance >= 1 && distance <= 127);
      var discontinuity := distance != 1;
      r := SeqResult(accept, discontinuity, discontinuity && safestateEnable);
      if accept {
        prevSeq := number;
      }
    }
  }

  // --- Runs with enforcement on ----------------------------------------------------

  /** One received number and the safe-state switch in force when it arrived. */
  datatype Arrival = Arrival(number: uint8, safestateEnable: bool)

  function Run(arrivals: seq<Arrival>): SeqState {
    if arrivals == [] then INITIAL
    else
      var last := arrivals[|arrivals| - 1];
      EvaluateStep(Run(arrivals[..|arrivals| - 1]), true, last.safestateEnable, last.number).0
  }

  function Outcome(arrivals: seq<Arrival>, i: nat): SeqResult
    requires i < |arrivals|
  {
    EvaluateStep(Run(arrivals[..i]), true, arrivals[i].safestateEnable, arrivals[i].number).1
  }

  /** The accepted numbers, in order. */
  function AcceptedNumbers(arrivals: seq<Arrival>): seq<uint8> {
    if arrivals == [] then []
    else
      var n := |arrivals| - 1;
      var before := AcceptedNumbers(arrivals[..n]);
      if EvaluateStep(Run(arrivals[..n]), true, arrivals[n].safestateEnable, arrivals[n].number).1.accept
      then before + [arrivals[n].number] else before
  }

  /** A natural sequence number as it travels. */
  function Wire(sent: nat): uint8 {
    sent % 256
  }

  /** The next natural: as far forward as the wire numbers are apart. */
  function LiftNext(before: seq<nat>, from: uint8, to: uint8): (lifted: seq<nat>)
    requires before != []
    ensures |lifted| == |before| + 1
  {
    before + [before[|before| - 1] + ForwardDistance(from, to)]
  }

  /** Unwraps 8-bit numbers to naturals: each moves forward by its distance. */
  function Lift(numbers: seq<uint8>): (lifted: seq<nat>)
    ensures |lifted| == |numbers|
  {
    var n := |numbers| - 1;
    if |numbers| == 0 then []
    else if |numbers| == 1 then [numbers[0]]
    else LiftNext(Lift(numbers[..n]), numbers[n - 1], numbers[n])
  }

  /** A step of 1 to 127 after position `i`. */
  ghost predicate Advances(numbers: seq<nat>, i: nat)
    requires i + 1 < |numbers|
  {
    numbers[i] < numbers[i + 1] <= numbers[i] + 127
  }

  ghost predicate IsUnwrapping(numbers: seq<uint8>, lifted: seq<nat>) {
    && |lifted| == |numbers|
    && (forall i :: 0 <= i < |lifted| ==> Wire(lifted[i]) == numbers[i])
    && (forall i :: 0 <= i < |lifted| - 1 ==> Advances(lifted, i))
  }

  lemma DistanceAdvances(lifted: nat, from: uint8, to: uint8)
    requires Wire(lifted) == from
    ensures Wire(lifted + ForwardDistance(from, to)) == to
  {}

  lemma LiftSnoc(numbers: seq<uint8>, number: uint8)
    ensures Lift(numbers + [number])
            == if numbers == [] then [number] else LiftNext(Lift(numbers), numbers[|numbers| - 1], number)
  {
    hide LiftNext;
    assert (numbers + [number])[..|numbers|] == numbers;
  }

  lemma UnwrappingSnoc(numbers: seq<uint8>, lifted: seq<nat>, number: uint8, next: nat)
    requires IsUnwrapping(numbers, lifted) && Wire(next) == number
    requires lifted != [] ==> lifted[|lifted| - 1] < next <= lifted[|lifted| - 1] + 127
    ensures IsUnwrapping(numbers + [number], lifted + [next])
  {
    hide Wire;
    forall i | 0 <= i < |lifted|
      ensures Advances(lifted + [next], i)
    {
      if i < |lifted| - 1 {
        assert Advances(lifted, i);
      }
    }
  }

  lemma FirstUnwraps(number: uint8)
    ensures IsUnwrapping([] + [number], [number])
  {}

  lemma LastUnwraps(numbers: seq<uint8>, lifted: seq<nat>)
    requires IsUnwrapping(numbers, lifted) && numbers != []
    ensures |lifted| == |numbers| && Wire(lifted[|numbers| - 1]) == numbers[|numbers| - 1]
  {}

  lemma UnwrappingGrows(numbers: seq<uint8>, number: uint8)
    requires IsUnwrapping(numbers, Lift(numbers))
    requires numbers != [] ==> 1 <= ForwardDistance(numbers[|numbers| - 1], number) <= 127
    ensures IsUnwrapping(numbers + [number], Lift(numbers + [number]))
  {
    hide Lift; hide IsUnwrapping; hide Wire; hide ForwardDistance;
    LiftSnoc(numbers, number);
    if numbers == [] {
      FirstUnwraps(number);
    } else {
      var n := |numbers| - 1;
      LastUnwraps(numbers, Lift(numbers));
      DistanceAdvances(Lift(numbers)[n], numbers[n], number);
      UnwrappingSnoc(numbers, Lift(numbers), number, Lift(numbers)[n] + ForwardDistance(numbers[n], number));
    }
  }

  lemma {:induction false} AcceptedUnwrap(arrivals: seq<Arrival>)
    ensures var accepted := AcceptedNumbers(arrivals);
            var s := Run(arrivals);
            && IsUnwrapping(accepted, Lift(accepted))
            && s.hasPrev == (accepted != [])
            && (accepted != [] ==> s.prev == accepted[|accepted| - 1])
  {
    hide ForwardDistance; hide Lift; hide IsUnwrapping;
    if arrivals != [] {
      var n := |arrivals| - 1;
      AcceptedUnwrap(arrivals[..n]);
      if AcceptedNumbers(arrivals) != AcceptedNumbers(arrivals[..n]) {
        UnwrappingGrows(AcceptedNumbers(arrivals[..n]), arrivals[n].number);
      }
    } else {
      NothingUnwraps();
    }
  }

  lemma NothingUnwraps()
    ensures IsUnwrapping([], Lift([]))
  {}

  lemma {:induction false} UnwrappingIncreases(numbers: seq<uint8>, lifted: seq<nat>, i: nat, j: nat)
    requires IsUnwrapping(numbers, lifted) && i < j < |lifted|
    ensures lifted[i] < lifted[j]
    decreases j
  {
    assert Advances(lifted, j - 1);
    if i < j - 1 {
      UnwrappingIncreases(numbers, lifted, i, j - 1);
    }
  }

  /** Whatever arrives, the accepted numbers unwrap to strictly increasing naturals with steps
      of 1 to 127; a number is accepted again only after the stream advanced by 256 or more. */
  lemma NoReplayWithinWindow(arrivals: seq<Arrival>, i: nat, j: nat)
    requires i < j < |AcceptedNumbers(arrivals)|
    ensures var accepted := AcceptedNumbers(arrivals);
            var lifted := Lift(accepted);
            && IsUnwrapping(accepted, lifted)
            && lifted[i] < lifted[j]
            && (accepted[i] == accepted[j] ==> lifted[j] - lifted[i] >= 256)
  {
    hide Lift; hide AcceptedNumbers;
    var accepted := AcceptedNumbers(arrivals);
    AcceptedUnwrap(arrivals);
    UnwrappingIncreases(accepted, Lift(accepted), i, j);
  }

  // --- What a sender sees ------------------------------------------------------------

  /** After a number was accepted, a later one of the same sender is accepted exactly when
      it is 1 to 127 ahead of it modulo 256; a rejected one leaves the tracker alone. */
  lemma LaterNumberAcceptedExactlyWhen(last: nat, next: nat, safestateEnable: bool)
    requires last <= next
    ensures var s := SeqState(true, Wire(last));
            var (after, r) := EvaluateStep(s, true, safestateEnable, Wire(next));
            && (r.accept <==> 1 <= (next - last) % 256 <= 127)
            && (r.discontinuity <==> (next - last) % 256 != 1)
            && after == (if r.accept then SeqState(true, Wire(next)) else s)
  {
    assert ForwardDistance(Wire(last), Wire(next)) == (next - last) % 256;
  }

  /** The numbers that arrive, in order, of a sender that counts up by one. */
  ghost predicate LosesAtMost126(sent: seq<nat>) {
    forall i :: 0 <= i < |sent| - 1 ==> Advances(sent, i)
  }

  function Delivered(sent: seq<nat>, safestateEnable: bool): (arrivals: seq<Arrival>)
    ensures |arrivals| == |sent|
  {
    seq(|sent|, i requires 0 <= i < |sent| => Arrival(Wire(sent[i]), safestateEnable))
  }

  lemma {:induction false} StateAfterDelivery(sent: seq<nat>, safestateEnable: bool, n: nat)
    requires n <= |sent|
    requires LosesAtMost126(sent)
    ensures Run(Delivered(sent, safestateEnable)[..n])
            == if n == 0 then INITIAL else SeqState(true, Wire(sent[n - 1]))
  {
    if n > 0 {
      hide ForwardDistance; hide Wire;
      StateAfterDelivery(sent, safestateEnable, n - 1);
      assert Delivered(sent, safestateEnable)[..n][..n - 1] == Delivered(sent, safestateEnable)[..n - 1];
      if n > 1 {
        assert Advances(sent, n - 2);
        LaterNumberAcceptedExactlyWhen(sent[n - 2], sent[n - 1], safestateEnable);
      }
    }
  }

  /** A sender that numbers its requests consecutively and never loses more than 126 in a
      row is never rejected, and is told of a discontinuity exactly when it lost some. */
  lemma PatientSenderNeverRejected(sent: seq<nat>, safestateEnable: bool, i: nat)
    requires LosesAtMost126(sent)
    requires i < |sent|
    ensures var r := Outcome(Delivered(sent, safestateEnable), i);
            && r.accept
            && (r.discontinuity <==> i > 0 && sent[i] != sent[i - 1] + 1)
  {
    StateAfterDelivery(sent, safestateEnable, i);
    if i > 0 {
      assert Advances(sent, i - 1);
      LaterNumberAcceptedExactlyWhen(sent[i - 1], sent[i], safestateEnable);
    }
  }

  // --- Without enforcement, and the safe state --------------------------------------------

  /** One received number, and the switches in force when it arrived. */
  datatype Reception = Reception(number: uint8, enforce: bool, safestateEnable: bool)

  function RunMixed(receptions: seq<Reception>): SeqState {
    if receptions == [] then INITIAL
    else
      var r := receptions[|receptions| - 1];
      EvaluateStep(RunMixed(receptions[..|receptions| - 1]), r.enforce, r.safestateEnable, r.number).0
  }

  function MixedOutcome(receptions: seq<Reception>, i: nat): SeqResult
    requires i < |receptions|
  {
    EvaluateStep(RunMixed(receptions[..i]), receptions[i].enforce, receptions[i].safestateEnable,
                 receptions[i].number).1
  }

  /** Reception `i` is the last one accepted. */
  ghost predicate LastAccepted(receptions: seq<Reception>, i: nat) {
    && i < |receptions|
    && MixedOutcome(receptions, i).accept
    && forall k :: i < k < |receptions| ==> !MixedOutcome(receptions, k).accept
  }

  lemma EvaluateTracks(s: SeqState, r: Reception)
    ensures var (after, result) := EvaluateStep(s, r.enforce, r.safestateEnable, r.number);
            after.hasPrev && (if result.accept then after.prev == r.number else s.hasPrev && after == s)
  {
    hide ForwardDistance;
  }

  lemma {:induction false} TracksLastAccepted(receptions: seq<Reception>) returns (i: int)
    ensures RunMixed(receptions).hasPrev <==> receptions != []
    ensures receptions != [] ==>
              i >= 0 && LastAccepted(receptions, i) && RunMixed(receptions).prev == receptions[i].number
    decreases |receptions|
  {
    i := -1;
    if receptions != [] {
      var n := |receptions| - 1;
      var front := receptions[..n];
      i := TracksLastAccepted(front);
      forall k: nat | k < n
        ensures MixedOutcome(front, k) == MixedOutcome(receptions, k)
      {
        assert front[..k] == receptions[..k];
      }
      EvaluateTracks(RunMixed(front), receptions[n]);
      hide EvaluateStep;
      if MixedOutcome(receptions, n).accept {
        i := n;
      }
    }
  }

  lemma OneLastAccepted(receptions: seq<Reception>, i: nat, j: nat)
    requires LastAccepted(receptions, i) && LastAccepted(receptions, j)
    ensures i == j
  {
    hide MixedOutcome;
  }

  /** After any receptions, whatever was enforced then: the first number is accepted and raises
      nothing. Each later one is judged against the last accepted: it is accepted unless
      enforcement is on and it is not 1 to 127 ahead; it is a discontinuity unless it is the
      very next; and the safe state is entered exactly on a discontinuity while that is
      enabled. */
  lemma JudgedAgainstLastAccepted(receptions: seq<Reception>, next: Reception, i: nat)
    ensures var r := EvaluateStep(RunMixed(receptions), next.enforce, next.safestateEnable, next.number).1;
            && (receptions == [] ==> r == SeqResult(true, false, false))
            && (LastAccepted(receptions, i) ==>
                  var ahead := (next.number - receptions[i].number) % 256;
                  && (r.accept <==> !next.enforce || 1 <= ahead <= 127)
                  && (r.discontinuity <==> ahead != 1)
                  && (r.enterSafeState <==> r.discontinuity && next.safestateEnable))
  {
    var last := TracksLastAccepted(receptions);
    if LastAccepted(receptions, i) {
      OneLastAccepted(receptions, i, last);
    }
    hide LastAccepted; hide RunMixed;
  }
}
