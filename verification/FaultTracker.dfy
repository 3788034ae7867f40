/** The latched per-stream faults (`src/e2e.c`): a table of at most 16 streams. */
module FaultTracker {

  import opened Counting
  import opened Octets

  const MAX_STREAMS: nat := 16

  /** The faults as a map from tracked stream to its latch. */
  type Faults = map<StreamId, bool>

  function OnCrcErrorStep(m: Faults, streamId: StreamId, enforce: bool): (Faults, bool) {
    if streamId in m then (m[streamId := m[streamId] || enforce], true)
    else if |m| < MAX_STREAMS then (m[streamId := enforce], true)
    else (m, false)
  }

  predicate IsFaultedIn(m: Faults, streamId: StreamId) {
    streamId in m && m[streamId]
  }

  function ResetStep(m: Faults, streamId: StreamId): Faults {
    if streamId in m then m[streamId := false] else m
  }

  datatype Slot = Slot(used: bool, streamId: StreamId, faulted: bool)

  const UNUSED := Slot(false, StreamId(0), false)

  predicate IsUsed(slot: Slot) {
    slot.used
  }

  ghost predicate HoldsEntry(slots: seq<Slot>, k: StreamId) {
    exists i :: 0 <= i < |slots| && slots[i].used && slots[i].streamId == k
  }

  /** The table represents the map: used slots have distinct keys and are its entries. */
  ghost predicate Represents(slots: seq<Slot>, m: Faults) {
    && |slots| == MAX_STREAMS
    && (forall i :: 0 <= i < |slots| && slots[i].used ==>
          slots[i].streamId in m && m[slots[i].streamId] == slots[i].faulted)
    && (forall k :: k in m ==> HoldsEntry(slots, k))
    && (forall i, j :: 0 <= i < j < |slots| && slots[i].used && slots[j].used ==>
          slots[i].streamId != slots[j].streamId)
    && |m| == Count(slots, IsUsed)
  }

  lemma SizeAfterUpdate(m: Faults, k: StreamId, faulted: bool)
    ensures |m[k := faulted]| == if k in m then |m| else |m| + 1
  {
    var m' := m[k := faulted];
    if k in m {
      assert m'.Keys == m.Keys;
    } else {
      assert m'.Keys == m.Keys + {k};
    }
  }

  lemma EntriesAfterWrite(slots: seq<Slot>, i: nat, slot: Slot, k: StreamId)
    requires i < |slots| && (slots[i].used ==> slot.streamId == slots[i].streamId) && slot.used
    requires HoldsEntry(slots, k) || k == slot.streamId
    ensures HoldsEntry(slots[i := slot], k)
  {
    var slots' := slots[i := slot];
    if k == slot.streamId {
      assert slots'[i].used && slots'[i].streamId == k;
    } else {
      var j :| 0 <= j < |slots| && slots[j].used && slots[j].streamId == k;
      assert slots'[j].used && slots'[j].streamId == k;
    }
  }

  /** Writing the entry of a tracked stream, or a free slot for an untracked one. */
  lemma RepresentsAfterWrite(slots: seq<Slot>, m: Faults, i: nat, k: StreamId, faulted: bool)
    requires Represents(slots, m) && i < |slots|
    requires if k in m then slots[i].used && slots[i].streamId == k else !slots[i].used
    ensures Represents(slots[i := Slot(true, k, faulted)], m[k := faulted])
  {
    hide Count; hide HoldsEntry;
    var slot := Slot(true, k, faulted);
    var m' := m[k := faulted];
    CountUpdate(slots, i, slot, IsUsed);
    SizeAfterUpdate(m, k, faulted);
    forall k' | k' in m'
      ensures HoldsEntry(slots[i := slot], k')
    {
      EntriesAfterWrite(slots, i, slot, k');
    }
  }

  class Tracker {
    const slots: array<Slot>
    ghost var model: Faults

    ghost predicate Valid()
      reads this, slots
    {
      Represents(slots[..], model)
    }

    constructor ()
      ensures Valid() && model == map[] && fresh(slots)
    {
      slots := new Slot[MAX_STREAMS](_ => UNUSED);
      model := map[];
      new;
      CountNone(slots[..], IsUsed);
    }

    method Find(streamId: StreamId) returns (at: int)
      requires Valid()
      ensures at < 0 <==> streamId !in model
      ensures at >= 0 ==> at < slots.Length && slots[at].used && slots[at].streamId == streamId
    {
      at := 0;
      while at < MAX_STREAMS
        invariant 0 <= at <= MAX_STREAMS
        invariant forall i :: 0 <= i < at ==> !(slots[..][i].used && slots[..][i].streamId == streamId)
      {
        if slots[at].used && slots[at].streamId == streamId {
          assert slots[..][at] == slots[at];
          return;
        }
        at := at + 1;
      }
      at := -1;
    }

    method FindFree() returns (at: int)
      requires Valid()
      ensures at < 0 <==> |model| == MAX_STREAMS
      ensures at >= 0 ==> at < slots.Length && !slots[at].used
    {
      at := 0;
      while at < MAX_STREAMS
        invariant 0 <= at <= MAX_STREAMS
        invariant forall i :: 0 <= i < at ==> slots[..][i].used
      {
        if !slots[at].used {
          CountBelow(slots[..], at, IsUsed);
          return;
        }
        at := at + 1;
      }
      CountAll(slots[..], IsUsed);
      at := -1;
    }

    method OnCrcError(streamId: StreamId, enforce: bool) returns (recorded: bool)
      requires Valid()
      modifies this, slots
      ensures Valid()
      ensures (model, recorded) == OnCrcErrorStep(old(model), streamId, enforce)
    {
      hide Count; hide Represents;
      assert |slots[..]| == MAX_STREAMS by { RepresentsLength(slots[..], model); }
      var at := Find(streamId);
      ghost var before := slots[..];
      if at < 0 {
        at := FindFree();
        if at < 0 {
          return false;
        }
        SizeBound(slots[..], model);
        slots[at] := Slot(true, streamId, enforce);
        assert slots[..] == before[at := Slot(true, streamId, enforce)];
        RepresentsAfterWrite(before, model, at, streamId, enforce);
        model := model[streamId := enforce];
        return true;
      }
      EntryOf(before, model, at);
      var faulted := slots[at].faulted || enforce;
      slots[at] := slots[at].(faulted := faulted);
      assert slots[..] == before[at := Slot(true, streamId, faulted)];
      RepresentsAfterWrite(before, model, at, streamId, faulted);
      model := model[streamId := faulted];
      return true;
    }

    method IsFaulted(streamId: StreamId) returns (faulted: bool)
      requires Valid()
      ensures faulted == IsFaultedIn(model, streamId)
    {
      var at := Find(streamId);
      if at >= 0 {
        EntryOf(slots[..], model, at);
        return slots[at].faulted;
      }
      return false;
    }

    method Reset(streamId: StreamId)
      requires Valid()
      modifies this, slots
      ensures Valid()
      ensures model == ResetStep(old(model), streamId)
    {
      hide Count; hide Represents;
      assert |slots[..]| == MAX_STREAMS by { RepresentsLength(slots[..], model); }
      var at := Find(streamId);
      if at >= 0 {
        ghost var before := slots[..];
        slots[at] := slots[at].(faulted := false);
        assert slots[..] == before[at := Slot(true, streamId, false)];
        RepresentsAfterWrite(before, model, at, streamId, false);
        model := model[streamId := false];
      }
    }
  }

  lemma RepresentsLength(slots: seq<Slot>, m: Faults)
    requires Represents(slots, m)
    ensures |slots| == MAX_STREAMS
  {}

  lemma SizeBound(slots: seq<Slot>, m: Faults)
    requires Represents(slots, m)
    ensures |m| <= MAX_STREAMS
  {
  }

  lemma EntryOf(slots: seq<Slot>, m: Faults, i: nat)
    requires Represents(slots, m) && i < |slots| && slots[i].used
    ensures slots[i].streamId in m && m[slots[i].streamId] == slots[i].faulted
  {}

  // --- Runs -------------------------------------------------------------------------

  datatype FaultEvent = CrcError(streamId: StreamId, enforce: bool) | Reset(streamId: StreamId)

  function ApplyEvent(m: Faults, e: FaultEvent): Faults {
    match e
    case CrcError(streamId, enforce) => OnCrcErrorStep(m, streamId, enforce).0
    case Reset(streamId) => ResetStep(m, streamId)
  }

  function RunEvents(m: Faults, events: seq<FaultEvent>): Faults {
    if events == [] then m else ApplyEvent(RunEvents(m, events[..|events| - 1]), events[|events| - 1])
  }

  /** A stream is latched by the events iff, since its last reset, an enforced CRC error
      hit it while it was tracked or there was room to track it. */
  function Latched(m: Faults, events: seq<FaultEvent>, streamId: StreamId): bool {
    if events == [] then IsFaultedIn(m, streamId)
    else
      var front, last := events[..|events| - 1], events[|events| - 1];
      if last.streamId != streamId then Latched(m, front, streamId)
      else if last.Reset? then false
      else
        var before := RunEvents(m, front);
        Latched(m, front, streamId) || (last.enforce && (streamId in before || |before| < MAX_STREAMS))
  }

  /** Over every run: at most 16 streams, none ever forgotten, and a stream is faulted
      exactly when its own events latched it: other streams never matter to it except by
      using up the table. */
  lemma {:induction false} FaultRun(m: Faults, events: seq<FaultEvent>, streamId: StreamId)
    requires |m| <= MAX_STREAMS
    ensures var after := RunEvents(m, events);
            && |after| <= MAX_STREAMS
            && m.Keys <= after.Keys
            && IsFaultedIn(after, streamId) == Latched(m, events, streamId)
  {
    if events != [] {
      var front, last := events[..|events| - 1], events[|events| - 1];
      FaultRun(m, front, streamId);
      KeysAfter(RunEvents(m, front), last);
      OneEvent(RunEvents(m, front), last, streamId);
    }
  }

  lemma OneEvent(m: Faults, e: FaultEvent, streamId: StreamId)
    ensures IsFaultedIn(ApplyEvent(m, e), streamId) ==
              if e.streamId != streamId then IsFaultedIn(m, streamId)
              else if e.Reset? then false
              else IsFaultedIn(m, streamId) || (e.enforce && (streamId in m || |m| < MAX_STREAMS))
  {}

  lemma KeysAfter(m: Faults, e: FaultEvent)
    requires |m| <= MAX_STREAMS
    ensures m.Keys <= ApplyEvent(m, e).Keys && |ApplyEvent(m, e)| <= MAX_STREAMS
  {
    if e.streamId in m {
      assert ApplyEvent(m, e).Keys == m.Keys;
      assert |ApplyEvent(m, e)| == |m|;
    }
  }

  /** The streams that had a CRC error, enforced or not. */
  function ErrorStreams(events: seq<FaultEvent>): set<StreamId> {
    if events == [] then {}
    else
      var last := events[|events| - 1];
      ErrorStreams(events[..|events| - 1]) + if last.CrcError? then {last.streamId} else {}
  }

  /** Over every run of a new tracker: the streams tracked are streams that had an error, and as
      many of them as the table has room for, resets or not. An error is recorded exactly when
      its stream is tracked afterwards. */
  lemma {:induction false} TracksErrorStreams(events: seq<FaultEvent>, streamId: StreamId, enforce: bool)
    ensures var tracked := RunEvents(map[], events);
            && tracked.Keys <= ErrorStreams(events)
            && |tracked.Keys| == (if |ErrorStreams(events)| <= 16 then |ErrorStreams(events)| else 16)
            && var (after, recorded) := OnCrcErrorStep(tracked, streamId, enforce);
               recorded == (streamId in after)
  {
    hide OnCrcErrorStep;
    if events != [] {
      hide ApplyEvent;
      var front, last := events[..|events| - 1], events[|events| - 1];
      TracksErrorStreams(front, streamId, enforce);
      var before, errors := RunEvents(map[], front), ErrorStreams(front);
      KeysOfNext(before, last);
      if before.Keys != errors {
        SubsetIsSmaller(before.Keys, errors);
      }
      if last.CrcError? {
        SizeWith(before.Keys, last.streamId);
        SizeWith(errors, last.streamId);
      }
    }
    RecordedExactlyWhen(RunEvents(map[], events), streamId, enforce);
  }

  lemma SizeWith(a: set<StreamId>, x: StreamId)
    ensures |a + {x}| == if x in a then |a| else |a| + 1
  {
    if x in a {
      assert a + {x} == a;
    }
  }

  lemma RecordedExactlyWhen(m: Faults, streamId: StreamId, enforce: bool)
    ensures var (after, recorded) := OnCrcErrorStep(m, streamId, enforce); recorded <==> streamId in after
  {}

  lemma SubsetIsSmaller(a: set<StreamId>, b: set<StreamId>)
    requires a <= b && a != b
    ensures |a| < |b|
  {
    assert |b - a| == |b| - |a|;
    var x :| x in b && x !in a;
    assert x in b - a;
  }

  lemma KeysOfNext(m: Faults, e: FaultEvent)
    ensures ApplyEvent(m, e).Keys
            == if e.CrcError? && (e.streamId in m || |m.Keys| < 16) then m.Keys + {e.streamId} else m.Keys
  {
    assert |m| == |m.Keys|;
  }
}
