/** The in-process transport (`src/avtp.c`): a ring of frames behind a mutex, each critical
    section one step; and the extension of 32-bit presentation times. */
module Loopback {
  import opened Octets
  import opened Wrappers

  // --- The bounded FIFO ------------------------------------------------------------

  datatype Status = RcpOk | Closed | Busy | Timeout

  datatype Fifo = Fifo(queue: seq<seq<byte>>, capacity: nat, closed: bool)

  function NewFifo(capacity: nat): Fifo {
    Fifo([], if capacity == 0 then 1 else capacity, false)
  }

  function SendStep(s: Fifo, frame: seq<byte>): (Fifo, Status) {
    if s.closed then (s, Closed)
    else if |s.queue| >= s.capacity then (s, Busy)
    else (s.(queue := s.queue + [frame]), RcpOk)
  }

  /** Receiving into `bufferLen` octets, once the wait is over. */
  function RecvStep(s: Fifo, bufferLen: nat): (Fifo, Status, seq<byte>) {
    if s.queue == [] then (s, if s.closed then Closed else Timeout, [])
    else if |s.queue[0]| > bufferLen then (s, Busy, [])
    else (s.(queue := s.queue[1..]), RcpOk, s.queue[0])
  }

  // --- The ring in place --------------------------------------------------------------

  /** The slot `i` places after `head`. */
  function SlotAt(head: nat, capacity: nat, i: nat): (at: nat)
    requires head < capacity && i <= capacity
    ensures at == if head + i < capacity then head + i else head + i - capacity
  {
    WrapOnce(head + i, capacity);
    (head + i) % capacity
  }

  /** The frames in a ring, oldest first. */
  function Queued(slots: seq<seq<byte>>, head: nat, count: nat): (queue: seq<seq<byte>>)
    requires head < |slots| && count <= |slots|
    ensures |queue| == count
  {
    seq(count, i requires 0 <= i < count => slots[SlotAt(head, |slots|, i)])
  }

  class Ring {
    const items: array<seq<byte>>
    var head: nat
    var count: nat
    var closed: bool

    ghost predicate Valid()
      reads this
    {
      0 < items.Length && head < items.Length && count <= items.Length
    }

    ghost function State(): Fifo
      requires Valid()
      reads this, items
    {
      Fifo(Queued(items[..], head, count), items.Length, closed)
    }

    constructor (capacity: nat)
      ensures Valid() && State() == NewFifo(capacity) && fresh(items)
    {
      items := new seq<byte>[if capacity == 0 then 1 else capacity](_ => []);
      head, count, closed := 0, 0, false;
    }

    method Send(frame: seq<byte>) returns (status: Status)
      requires Valid()
      modifies this, items
      ensures Valid() && (State(), status) == SendStep(old(State()), frame)
    {
      if closed {
        return Closed;
      }
      if count >= items.Length {
        return Busy;
      }
      ghost var before := State().queue;
      items[SlotAt(head, items.Length, count)] := frame;
      count := count + 1;
      assert State().queue == before + [frame];
      return RcpOk;
    }

    method Recv(bufferLen: nat) returns (status: Status, frame: seq<byte>)
      requires Valid()
      modifies this, items
      ensures Valid() && (State(), status, frame) == RecvStep(old(State()), bufferLen)
    {
      if count == 0 {
        return if closed then Closed else Timeout, [];
      }
      ghost var before := State().queue;
      frame := items[head];
      assert frame == before[0];
      if |frame| > bufferLen {
        return Busy, [];
      }
      items[head] := [];
      head := SlotAt(head, items.Length, 1);
      count := count - 1;
      assert State().queue == before[1..];
      return RcpOk, frame;
    }

    method Close()
      requires Valid()
      modifies this
      ensures Valid() && State() == old(State()).(closed := true)
    {
      closed := true;
    }
  }

  lemma WrapOnce(n: nat, m: nat)
    requires 0 < m && n < 2 * m
    ensures n % m == if n < m then n else n - m
  {
    if n >= m {
      assert n == 1 * m + (n - m);
    }
  }

  // --- Runs -----------------------------------------------------------------------------

  datatype Op = Send(frame: seq<byte>) | Recv(bufferLen: nat) | Close

  function Apply(s: Fifo, op: Op): Fifo {
    match op
    case Send(frame) => SendStep(s, frame).0
    case Recv(bufferLen) => RecvStep(s, bufferLen).0
    case Close => s.(closed := true)
  }

  function Run(s: Fifo, ops: seq<Op>): Fifo {
    if ops == [] then s else Apply(Run(s, ops[..|ops| - 1]), ops[|ops| - 1])
  }

  /** The frames of the sends that were answered OK, in order. */
  function Accepted(s: Fifo, ops: seq<Op>): seq<seq<byte>> {
    if ops == [] then []
    else
      var front, op := ops[..|ops| - 1], ops[|ops| - 1];
      Accepted(s, front)
      + if op.Send? && SendStep(Run(s, front), op.frame).1 == RcpOk then [op.frame] else []
  }

  /** The frames handed to receivers, in order. */
  function Delivered(s: Fifo, ops: seq<Op>): seq<seq<byte>> {
    if ops == [] then []
    else
      var front, op := ops[..|ops| - 1], ops[|ops| - 1];
      Delivered(s, front)
      + if op.Recv? && RecvStep(Run(s, front), op.bufferLen).1 == RcpOk then [RecvStep(Run(s, front), op.bufferLen).2]
        else []
  }

  /** Over every interleaving: nothing is lost, duplicated, reordered or made up, the queue
      never exceeds the capacity, and it stays closed once closed. */
  lemma {:induction false} FifoConserves(s: Fifo, ops: seq<Op>)
    requires |s.queue| <= s.capacity
    ensures var after := Run(s, ops);
            && Delivered(s, ops) + after.queue == s.queue + Accepted(s, ops)
            && |after.queue| <= after.capacity == s.capacity
            && (s.closed ==> after.closed && Accepted(s, ops) == [])
  {
    if ops == [] {
      assert Delivered(s, ops) + s.queue == s.queue + Accepted(s, ops);
    } else {
      var front, op := ops[..|ops| - 1], ops[|ops| - 1];
      FifoConserves(s, front);
      StepConserves(Run(s, front), op, Delivered(s, front), s.queue + Accepted(s, front));
      AppendLast(s.queue, Accepted(s, front), if op.Send? then op.frame else []);
      AppendLast([], Delivered(s, front), []);
    }
  }

  lemma AppendLast(a: seq<seq<byte>>, b: seq<seq<byte>>, last: seq<byte>)
    ensures a + b + [last] == a + (b + [last])
    ensures b + [] == b
  {}

  lemma StepConserves(s: Fifo, op: Op, delivered: seq<seq<byte>>, accepted: seq<seq<byte>>)
    requires delivered + s.queue == accepted
    ensures var sent := op.Send? && SendStep(s, op.frame).1 == RcpOk;
            var got := op.Recv? && RecvStep(s, op.bufferLen).1 == RcpOk;
            (if got then delivered + [RecvStep(s, op.bufferLen).2] else delivered) + Apply(s, op).queue
            == if sent then accepted + [op.frame] else accepted
  {
    match op
    case Send(frame) => assert delivered + (s.queue + [frame]) == accepted + [frame];
    case Recv(bufferLen) =>
      if s.queue != [] {
        assert delivered + [s.queue[0]] + s.queue[1..] == delivered + s.queue;
      }
    case Close =>
  }

  /** The run without the receives that found their buffer too small. */
  function WithoutBusy(s: Fifo, ops: seq<Op>): seq<Op> {
    if ops == [] then []
    else
      var front, op := ops[..|ops| - 1], ops[|ops| - 1];
      WithoutBusy(s, front)
      + if op.Recv? && RecvStep(Run(s, front), op.bufferLen).1 == Busy then [] else [op]
  }

  /** Leaving them out of any run changes neither what is queued nor what was accepted or
      delivered: a buffer too small loses nothing. */
  lemma {:induction false} BusyReceivesLoseNothing(s: Fifo, ops: seq<Op>)
    ensures Run(s, WithoutBusy(s, ops)) == Run(s, ops)
    ensures Delivered(s, WithoutBusy(s, ops)) == Delivered(s, ops)
    ensures Accepted(s, WithoutBusy(s, ops)) == Accepted(s, ops)
  {
    if ops != [] {
      hide Run; hide Delivered; hide Accepted; hide Apply; hide SendStep; hide RecvStep;
      var front, op := ops[..|ops| - 1], ops[|ops| - 1];
      var kept := WithoutBusy(s, front);
      BusyReceivesLoseNothing(s, front);
      assert ops == front + [op];
      if op.Recv? && RecvStep(Run(s, front), op.bufferLen).1 == Busy {
        BusyChangesNothing(s, front, op.bufferLen);
        assert WithoutBusy(s, ops) == kept;
      } else {
        RunsAgreeFurther(s, kept, front, op);
        assert WithoutBusy(s, ops) == kept + [op];
      }
    }
  }

  lemma BusyChangesNothing(s: Fifo, ops: seq<Op>, bufferLen: nat)
    requires RecvStep(Run(s, ops), bufferLen).1 == Busy
    ensures Run(s, ops + [Recv(bufferLen)]) == Run(s, ops)
    ensures Delivered(s, ops + [Recv(bufferLen)]) == Delivered(s, ops)
    ensures Accepted(s, ops + [Recv(bufferLen)]) == Accepted(s, ops)
  {
    assert (ops + [Recv(bufferLen)])[..|ops|] == ops;
  }

  /** Two runs that agree still agree after one more operation. */
  lemma RunsAgreeFurther(s: Fifo, a: seq<Op>, b: seq<Op>, op: Op)
    requires Run(s, a) == Run(s, b) && Delivered(s, a) == Delivered(s, b) && Accepted(s, a) == Accepted(s, b)
    ensures Run(s, a + [op]) == Run(s, b + [op])
    ensures Delivered(s, a + [op]) == Delivered(s, b + [op])
    ensures Accepted(s, a + [op]) == Accepted(s, b + [op])
  {
    hide Apply; hide SendStep; hide RecvStep;
    assert (a + [op])[..|a|] == a && (b + [op])[..|b|] == b;
  }

  function Receives(n: nat, bufferLen: nat): seq<Op> {
    seq(n, _ => Recv(bufferLen))
  }

  /** After close, whatever is queued still drains, in order, before receivers are told the
      transport is closed. */
  lemma {:induction false} ClosedQueueDrains(s: Fifo, bufferLen: nat, n: nat)
    requires s.closed && n <= |s.queue| && forall i :: 0 <= i < |s.queue| ==> |s.queue[i]| <= bufferLen
    ensures Run(s, Receives(n, bufferLen)) == s.(queue := s.queue[n..])
    ensures Delivered(s, Receives(n, bufferLen)) == s.queue[..n]
    ensures n == |s.queue| ==> RecvStep(Run(s, Receives(n, bufferLen)), bufferLen).1 == Closed
  {
    if n > 0 {
      ClosedQueueDrains(s, bufferLen, n - 1);
      var before := Receives(n - 1, bufferLen);
      assert Receives(n, bufferLen)[..n - 1] == before;
      OldestIsDelivered(Run(s, before), bufferLen);
      hide Apply; hide RecvStep;
      assert s.queue[n - 1..][1..] == s.queue[n..];
      assert s.queue[..n] == s.queue[..n - 1] + [s.queue[n - 1]];
    }
    if n == |s.queue| {
      assert Run(s, Receives(n, bufferLen)).queue == [];
    }
  }

  lemma OldestIsDelivered(s: Fifo, bufferLen: nat)
    requires s.queue != [] && |s.queue[0]| <= bufferLen
    ensures RecvStep(s, bufferLen) == (s.(queue := s.queue[1..]), RcpOk, s.queue[0])
    ensures Apply(s, Recv(bufferLen)) == s.(queue := s.queue[1..])
  {}

  lemma {:induction false} ClosedExactlyWhen(capacity: nat, ops: seq<Op>)
    ensures Run(NewFifo(capacity), ops).closed <==> Close in ops
  {
    if ops != [] {
      var front, op := ops[..|ops| - 1], ops[|ops| - 1];
      ClosedExactlyWhen(capacity, front);
      assert ops == front + [op];
    }
  }

  /** After any run of a new transport: a send is told CLOSED exactly once there was a close; else
      it is accepted exactly while fewer frames are accepted and not yet delivered than the
      transport holds, at least one; else BUSY. */
  lemma SendAnswers(capacity: nat, ops: seq<Op>, frame: seq<byte>)
    ensures var s := NewFifo(capacity);
            var held := |Accepted(s, ops)| - |Delivered(s, ops)|;
            SendStep(Run(s, ops), frame).1
            == if Close in ops then Closed
               else if held < capacity || held == 0 then RcpOk
               else Busy
  {
    var s := NewFifo(capacity);
    FifoConserves(s, ops);
    ClosedExactlyWhen(capacity, ops);
    hide Run; hide Accepted; hide Delivered;
    assert |Delivered(s, ops) + Run(s, ops).queue| == |Accepted(s, ops)|;
  }

  /** And a receive gets the oldest frame accepted and not yet delivered if its buffer holds it,
      and is told BUSY if not; when there is none, CLOSED after a close, else the wait ends in
      TIMEOUT. */
  lemma RecvAnswers(capacity: nat, ops: seq<Op>, bufferLen: nat)
    ensures var s := NewFifo(capacity);
            var n := |Delivered(s, ops)|;
            var (_, status, frame) := RecvStep(Run(s, ops), bufferLen);
            (status, frame)
            == if n < |Accepted(s, ops)| then
                 if |Accepted(s, ops)[n]| <= bufferLen then (RcpOk, Accepted(s, ops)[n]) else (Busy, [])
               else (if Close in ops then Closed else Timeout, [])
  {
    var s := NewFifo(capacity);
    FifoConserves(s, ops);
    ClosedExactlyWhen(capacity, ops);
    hide Run; hide Accepted; hide Delivered;
    var queue := Run(s, ops).queue;
    assert |Delivered(s, ops) + queue| == |Accepted(s, ops)|;
    if queue != [] {
      assert (Delivered(s, ops) + queue)[|Delivered(s, ops)|] == queue[0];
    }
  }

  // --- Presentation times ----------------------------------------------------------------

  const PERIOD: nat := 0x1_0000_0000
  const HALF: nat := 0x8000_0000
  const WORD: nat := 0x1_0000_0000_0000_0000

  type uint32 = n: int | 0 <= n < PERIOD
  type uint64 = n: int | 0 <= n < WORD

  /** `rcp_avtp_extend_timestamp`; 64-bit sums wrap. */
  function ExtendTimestamp(wire: uint32, reference: uint64): uint64 {
    var candidate := reference - reference % PERIOD + wire;
    if candidate > reference && candidate - reference > HALF then (candidate - PERIOD) % WORD
    else if candidate < reference && reference - candidate > HALF then (candidate + PERIOD) % WORD
    else candidate
  }

  /** The closest instant with these low bits would lie before zero, or beyond 64 bits. */
  predicate OutOfReach(wire: uint32, reference: uint64) {
    || wire > reference + HALF
    || (reference >= WORD - PERIOD && reference - (WORD - PERIOD) > wire + HALF)
  }

  predicate Near(t: int, reference: int) {
    0 - HALF <= t - reference <= HALF
  }

  function Distance(t: int, reference: int): nat {
    if t < reference then reference - t else t - reference
  }

  /** `t` carries the wire's low bits, and no 64-bit instant that does is closer. */
  ghost predicate IsClosest(t: uint64, wire: uint32, reference: uint64) {
    && t % PERIOD == wire
    && forall u: uint64 :: u % PERIOD == wire ==> Distance(t, reference) <= Distance(u, reference)
  }

  /** The candidate the code starts from, and which of its neighbours it moves to. */
  lemma ExtensionCases(wire: uint32, reference: uint64)
    ensures var t := ExtendTimestamp(wire, reference);
            && t % PERIOD == wire
            && (Near(t, reference) <==> !OutOfReach(wire, reference))
            && (OutOfReach(wire, reference) ==>
                  if wire > reference + HALF then t == WORD - PERIOD + wire else t == wire)
  {
    var q := reference / PERIOD;
    assert reference == q * PERIOD + reference % PERIOD;
    var candidate := q * PERIOD + wire;
    LowPart(q, wire);
    WrapsOnce(candidate - PERIOD);
    WrapsOnce(candidate + PERIOD);
    if candidate > reference && candidate - reference > HALF {
      if q == 0 {
        LowPart(WORD / PERIOD - 1, wire);
      } else {
        LowPart(q - 1, wire);
      }
    } else if candidate < reference && reference - candidate > HALF {
      if q == WORD / PERIOD - 1 {
        LowPart(0, wire);
      } else {
        LowPart(q + 1, wire);
      }
    }
  }

  lemma LowPart(q: nat, wire: uint32)
    ensures (q * PERIOD + wire) % PERIOD == wire
  {}

  lemma WrapsOnce(n: int)
    requires 0 <= n + PERIOD && n < WORD + PERIOD
    ensures n % WORD == if n < 0 then n + WORD else if n >= WORD then n - WORD else n
  {}

  /** Instants with the same low bits are whole periods apart. */
  lemma WholePeriodsApart(t: uint64, u: uint64)
    requires t % PERIOD == u % PERIOD
    ensures t == u || t - u >= PERIOD || u - t >= PERIOD
  {
    assert t == t / PERIOD * PERIOD + t % PERIOD;
    assert u == u / PERIOD * PERIOD + u % PERIOD;
  }

  /** Out of reach, the nearest instant there is stands at the end the result is not at. */
  lemma NothingNearOutOfReach(wire: uint32, reference: uint64, u: uint64)
    requires OutOfReach(wire, reference) && u % PERIOD == wire
    ensures !Near(u, reference)
    ensures if wire > reference + HALF then wire <= u else u <= WORD - PERIOD + wire
  {
    assert u == u / PERIOD * PERIOD + wire;
  }

  /** The result always has the wire's low 32 bits. It is a closest 64-bit instant with them,
      and lies within half a period of the reference, exactly when some such instant does,
      which a caller can see from `OutOfReach`; in particular for every reference at least half
      a period away from either end. */
  lemma ExtensionIsClosest(wire: uint32, reference: uint64)
    ensures var t := ExtendTimestamp(wire, reference);
            && t % PERIOD == wire
            && (IsClosest(t, wire, reference) <==> !OutOfReach(wire, reference))
            && (Near(t, reference) <==> !OutOfReach(wire, reference))
    ensures (exists u: uint64 :: u % PERIOD == wire && Near(u, reference)) <==> !OutOfReach(wire, reference)
    ensures HALF <= reference <= WORD - HALF ==> !OutOfReach(wire, reference)
  {
    var t := ExtendTimestamp(wire, reference);
    ExtensionCases(wire, reference);
    hide ExtendTimestamp;
    if OutOfReach(wire, reference) {
      forall u: uint64 | u % PERIOD == wire
        ensures !Near(u, reference)
      {
        NothingNearOutOfReach(wire, reference, u);
      }
      var nearest: uint64 := if wire > reference + HALF then wire else WORD - PERIOD + wire;
      LowPart(0, wire);
      LowPart(WORD / PERIOD - 1, wire);
      assert nearest % PERIOD == wire && Distance(nearest, reference) < Distance(t, reference);
    } else {
      forall u: uint64 | u % PERIOD == wire
        ensures Distance(t, reference) <= Distance(u, reference)
      {
        WholePeriodsApart(t, u);
      }
    }
  }

  /** At the very start of time the closest instant would be negative: the result wraps to the
      far end instead. */
  lemma ExtensionWrapsAtZero()
    ensures ExtendTimestamp(0xFFFF_FFFF, 0) == WORD - 1
    ensures !IsClosest(ExtendTimestamp(0xFFFF_FFFF, 0), 0xFFFF_FFFF, 0)
  {
    ExtensionIsClosest(0xFFFF_FFFF, 0);
  }
}
