/** The pool that payload buffers are borrowed from (`src/loan.c`). */
module LoanPool {
  import opened Counting
  import opened Octets
  import opened Wrappers

  const MAX_ENTRIES: nat := 64

  // --- The pool as values --------------------------------------------------------
  //
  // Buffers and loans are numbered in the order they are created.

  datatype Entry = Entry(buffer: nat, cap: nat)

  /** `out` until the loan is returned. */
  datatype LoanState = LoanState(entry: Entry, len: nat, out: bool)

  /** `created` holds the capacity of every buffer ever allocated. */
  datatype PoolState = PoolState(free: seq<Entry>, loans: seq<LoanState>, freed: set<nat>, created: seq<nat>)

  const NEW_POOL := PoolState([], [], {}, [])

  function FirstFit(free: seq<Entry>, size: nat, from: nat): (at: Option<nat>)
    ensures at.Some? ==> from <= at.value < |free| && free[at.value].cap >= size
    ensures at.Some? ==> forall i :: from <= i < at.value ==> free[i].cap < size
    ensures at.None? ==> forall i :: from <= i < |free| ==> free[i].cap < size
    decreases |free| - from
  {
    if from >= |free| then None
    else if free[from].cap >= size then Some(from)
    else FirstFit(free, size, from + 1)
  }

  /** The last entry takes the place of the one removed. */
  function Removed(free: seq<Entry>, at: nat): seq<Entry>
    requires at < |free|
  {
    free[at := free[|free| - 1]][..|free| - 1]
  }

  /** The buffer a request gets and the pool without it; nothing when a new buffer is needed
      and cannot be allocated. */
  function Taken(s: PoolState, size: nat, dataOk: bool): (Option<Entry>, PoolState) {
    var at := FirstFit(s.free, size, 0);
    if at.Some? then (Some(s.free[at.value]), s.(free := Removed(s.free, at.value)))
    else if !dataOk then (None, s)
    else (Some(Entry(|s.created|, size)), s.(created := s.created + [size]))
  }

  /** `rcp_loan_pool_acquire`. `dataOk` and `loanOk` say whether a new buffer and the loan
      itself can be allocated; without the latter the buffer is freed. */
  function AcquireStep(s: PoolState, size: nat, dataOk: bool, loanOk: bool): (PoolState, bool) {
    var (entry, s1) := Taken(s, size, dataOk);
    if entry.None? then (s1, false)
    else if !loanOk then (s1.(freed := s1.freed + {entry.value.buffer}), false)
    else (s1.(loans := s1.loans + [LoanState(entry.value, size, true)]), true)
  }

  /** `rcp_loan_return`. */
  function ReturnStep(s: PoolState, k: nat): PoolState
    requires k < |s.loans|
  {
    if !s.loans[k].out then s
    else GivenBack(s.(loans := s.loans[k := s.loans[k].(out := false)]), s.loans[k].entry)
  }

  /** Back to the free list, or freed when that is full. */
  function GivenBack(s: PoolState, entry: Entry): PoolState {
    if |s.free| == MAX_ENTRIES then s.(freed := s.freed + {entry.buffer})
    else s.(free := s.free + [entry])
  }

  /** `rcp_loan_pool_destroy`. */
  function DestroyStep(s: PoolState): PoolState {
    s.(free := [], freed := s.freed + set e | e in s.free :: e.buffer)
  }

  // --- Conservation -----------------------------------------------------------------

  function HasBuffer(b: nat): Entry -> bool {
    (e: Entry) => e.buffer == b
  }

  predicate Holds(loan: LoanState, b: nat) {
    loan.out && loan.entry.buffer == b
  }

  function HoldsBuffer(b: nat): LoanState -> bool {
    (loan: LoanState) => Holds(loan, b)
  }

  /** In how many places buffer `b` is. */
  function Places(s: PoolState, b: nat): nat {
    Count(s.free, HasBuffer(b)) + Count(s.loans, HoldsBuffer(b)) + if b in s.freed then 1 else 0
  }

  ghost predicate Fits(e: Entry, created: seq<nat>) {
    e.buffer < |created| && e.cap == created[e.buffer]
  }

  /** Every buffer is in exactly one place; every record of a buffer knows its capacity. */
  ghost predicate Conserved(s: PoolState) {
    && |s.free| <= MAX_ENTRIES
    && (forall b: nat :: Places(s, b) == if b < |s.created| then 1 else 0)
    && (forall i :: 0 <= i < |s.free| ==> Fits(s.free[i], s.created))
    && (forall k :: 0 <= k < |s.loans| ==> Fits(s.loans[k].entry, s.created) && s.loans[k].len <= s.loans[k].entry.cap)
  }

  lemma CountRemoved(free: seq<Entry>, at: nat, b: nat)
    requires at < |free|
    ensures Count(Removed(free, at), HasBuffer(b)) == Count(free, HasBuffer(b)) - if free[at].buffer == b then 1 else 0
  {
    hide Count; hide Removed; hide HasBuffer;
    var last := free[|free| - 1];
    HasBufferMeans(free[at], b);
    HasBufferMeans(last, b);
    LastReplaces(free, at);
    CountUpdate(free, at, last, HasBuffer(b));
    CountSnoc(Removed(free, at), last, HasBuffer(b));
  }

  lemma HasBufferMeans(e: Entry, b: nat)
    ensures HasBuffer(b)(e) == (e.buffer == b)
  {}

  lemma LastReplaces(free: seq<Entry>, at: nat)
    requires at < |free|
    ensures Removed(free, at) + [free[|free| - 1]] == free[at := free[|free| - 1]]
  {}

  /** No buffer is with two live loans, twice on the free list, or in two kinds of place. */
  lemma NothingShared(s: PoolState)
    requires Conserved(s)
    ensures forall i, j :: 0 <= i < j < |s.loans| && s.loans[i].out && s.loans[j].out ==>
              s.loans[i].entry.buffer != s.loans[j].entry.buffer
    ensures forall i, j :: 0 <= i < j < |s.free| ==> s.free[i].buffer != s.free[j].buffer
    ensures forall i, k :: 0 <= i < |s.free| && 0 <= k < |s.loans| && s.loans[k].out ==>
              s.free[i].buffer != s.loans[k].entry.buffer && s.loans[k].entry.buffer !in s.freed
  {
    hide Count;
    forall i, j | 0 <= i < j < |s.loans| && s.loans[i].out && s.loans[j].out
      ensures s.loans[i].entry.buffer != s.loans[j].entry.buffer
    {
      assert Places(s, s.loans[i].entry.buffer) <= 1;
      if s.loans[i].entry.buffer == s.loans[j].entry.buffer {
        CountTwice(s.loans, i, j, HoldsBuffer(s.loans[i].entry.buffer));
      }
    }
    forall i, j | 0 <= i < j < |s.free|
      ensures s.free[i].buffer != s.free[j].buffer
    {
      assert Places(s, s.free[i].buffer) <= 1;
      if s.free[i].buffer == s.free[j].buffer {
        CountTwice(s.free, i, j, HasBuffer(s.free[i].buffer));
      }
    }
    forall i, k | 0 <= i < |s.free| && 0 <= k < |s.loans| && s.loans[k].out
      ensures s.free[i].buffer != s.loans[k].entry.buffer && s.loans[k].entry.buffer !in s.freed
    {
      assert Places(s, s.loans[k].entry.buffer) <= 1;
      CountAt(s.loans, k, HoldsBuffer(s.loans[k].entry.buffer));
      CountAt(s.free, i, HasBuffer(s.free[i].buffer));
    }
  }

  /** What taking a buffer leaves, place by place. */
  lemma TakenPlaces(s: PoolState, size: nat, dataOk: bool, b: nat)
    requires Conserved(s)
    ensures var (entry, s1) := Taken(s, size, dataOk);
            && s1.loans == s.loans && s1.freed == s.freed
            && (entry.None? ==> s1 == s)
            && (entry.Some? ==>
                  && Fits(entry.value, s1.created) && size <= entry.value.cap
                  && Places(s1, b) + (if b == entry.value.buffer then 1 else 0)
                     == if b < |s1.created| then 1 else 0)
  {
    hide Count;
    var at := FirstFit(s.free, size, 0);
    if at.Some? {
      CountRemoved(s.free, at.value, b);
    }
    assert Places(s, b) == if b < |s.created| then 1 else 0;
  }

  lemma TakenKeepsRecords(s: PoolState, size: nat, dataOk: bool)
    requires Conserved(s)
    ensures var (_, s1) := Taken(s, size, dataOk);
            && |s1.free| <= MAX_ENTRIES
            && (forall i :: 0 <= i < |s1.free| ==> Fits(s1.free[i], s1.created))
            && (forall k :: 0 <= k < |s1.loans| ==>
                  Fits(s1.loans[k].entry, s1.created) && s1.loans[k].len <= s1.loans[k].entry.cap)
  {
    hide Places;
  }

  lemma AcquireConserves(s: PoolState, size: nat, dataOk: bool, loanOk: bool)
    requires Conserved(s)
    ensures Conserved(AcquireStep(s, size, dataOk, loanOk).0)
  {
    hide Count; hide Taken; hide Fits;
    var after := AcquireStep(s, size, dataOk, loanOk).0;
    var (entry, s1) := Taken(s, size, dataOk);
    TakenKeepsRecords(s, size, dataOk);
    TakenPlaces(s, size, dataOk, 0);
    forall b: nat
      ensures Places(after, b) == if b < |after.created| then 1 else 0
    {
      TakenPlaces(s, size, dataOk, b);
      if entry.Some? {
        CountSnoc(s1.loans, LoanState(entry.value, size, true), HoldsBuffer(b));
      }
    }
  }

  lemma ReturnConserves(s: PoolState, k: nat)
    requires Conserved(s) && k < |s.loans|
    ensures Conserved(ReturnStep(s, k))
  {
    hide Count; hide Fits;
    var after := ReturnStep(s, k);
    if s.loans[k].out {
      forall b: nat
        ensures Places(after, b) == if b < |after.created| then 1 else 0
      {
        assert Places(s, b) == if b < |s.created| then 1 else 0;
        CountUpdate(s.loans, k, s.loans[k].(out := false), HoldsBuffer(b));
        CountSnoc(s.free, s.loans[k].entry, HasBuffer(b));
      }
    }
  }

  // --- Runs -----------------------------------------------------------------------------

  datatype PoolOp = Acquire(size: nat, dataOk: bool, loanOk: bool) | Return(loan: nat)

  /** A loan that does not exist is a null one: returning it does nothing. */
  function Apply(s: PoolState, op: PoolOp): PoolState {
    match op
    case Acquire(size, dataOk, loanOk) => AcquireStep(s, size, dataOk, loanOk).0
    case Return(k) => if k < |s.loans| then ReturnStep(s, k) else s
  }

  function Run(ops: seq<PoolOp>): PoolState {
    if ops == [] then NEW_POOL else Apply(Run(ops[..|ops| - 1]), ops[|ops| - 1])
  }

  /** Over every run: each buffer ever allocated is in exactly one place, and the free list
      never exceeds its array. */
  lemma {:induction false} RunConserves(ops: seq<PoolOp>)
    ensures Conserved(Run(ops))
  {
    if ops != [] {
      var before, op := Run(ops[..|ops| - 1]), ops[|ops| - 1];
      RunConserves(ops[..|ops| - 1]);
      match op
      case Acquire(size, dataOk, loanOk) => AcquireConserves(before, size, dataOk, loanOk);
      case Return(k) => if k < |before.loans| { ReturnConserves(before, k); }
    }
  }

  /** Once returned, a loan stays returned, and returning it again changes nothing. */
  lemma {:induction false} SecondReturnIsNoOp(s: PoolState, k: nat, ops: seq<PoolOp>)
    requires k < |s.loans|
    ensures var later := RunFrom(ReturnStep(s, k), ops);
            && k < |later.loans| && !later.loans[k].out
            && ReturnStep(later, k) == later
  {
    if ops != [] {
      SecondReturnIsNoOp(s, k, ops[..|ops| - 1]);
      hide Taken; hide GivenBack;
      TakenKeepsLoans(RunFrom(ReturnStep(s, k), ops[..|ops| - 1]), ops[|ops| - 1], k);
    }
  }

  function RunFrom(s: PoolState, ops: seq<PoolOp>): PoolState {
    if ops == [] then s else Apply(RunFrom(s, ops[..|ops| - 1]), ops[|ops| - 1])
  }

  lemma TakenKeepsLoans(s: PoolState, op: PoolOp, k: nat)
    requires k < |s.loans| && !s.loans[k].out
    ensures k < |Apply(s, op).loans| && !Apply(s, op).loans[k].out
  {
    hide FirstFit;
  }

  /** Destroying the pool frees every buffer ever allocated exactly when no loan is still
      out. */
  lemma DestroyFreesAllExactlyWhen(ops: seq<PoolOp>)
    ensures var s := Run(ops);
            (forall b :: 0 <= b < |s.created| ==> b in DestroyStep(s).freed)
            <==> (forall k :: 0 <= k < |s.loans| ==> !s.loans[k].out)
  {
    hide Count;
    RunConserves(ops);
    var s := Run(ops);
    NothingShared(s);
    if forall k :: 0 <= k < |s.loans| ==> !s.loans[k].out {
      forall b | 0 <= b < |s.created|
        ensures b in DestroyStep(s).freed
      {
        CountNone(s.loans, HoldsBuffer(b));
        assert Places(s, b) == 1;
        if b !in s.freed {
          var i := CountWitness(s.free, HasBuffer(b));
          assert s.free[i] in s.free;
        }
      }
    } else {
      var k :| 0 <= k < |s.loans| && s.loans[k].out;
      assert Fits(s.loans[k].entry, s.created);
      LiveIsNotFree(s, k);
    }
  }

  /** One loan out: its buffer is not freed. */
  lemma LiveLoanIsLeaked()
    ensures var s := Run([Acquire(1, true, true)]);
            |s.created| == 1 && 0 !in DestroyStep(s).freed
  {
    var ops := [Acquire(1, true, true)];
    assert ops[..0] == [];
    assert Run(ops) == AcquireStep(NEW_POOL, 1, true, true).0;
  }

  lemma LiveIsNotFree(s: PoolState, k: nat)
    requires Conserved(s) && k < |s.loans| && s.loans[k].out
    ensures s.loans[k].entry.buffer !in DestroyStep(s).freed
  {
    hide Count;
    CountAt(s.loans, k, HoldsBuffer(s.loans[k].entry.buffer));
    var b := s.loans[k].entry.buffer;
    assert Places(s, b) <= 1;
    forall e | e in s.free
      ensures e.buffer != b
    {
      var i :| 0 <= i < |s.free| && s.free[i] == e;
      CountAt(s.free, i, HasBuffer(s.free[i].buffer));
    }
  }

  // --- Reuse ----------------------------------------------------------------------------

  predicate IsOut(loan: LoanState) {
    loan.out
  }

  /** How many loans are out. */
  function Out(s: PoolState): nat {
    Count(s.loans, IsOut)
  }

  /** Which buffer an accepted request gets: one from the free list whenever one there is large
      enough, the first such; else a new one of exactly the size asked for. Refusals lose
      nothing but the buffer that no loan could be allocated for. */
  lemma AcquireMeans(s: PoolState, size: nat, dataOk: bool, loanOk: bool)
    ensures var (after, ok) := AcquireStep(s, size, dataOk, loanOk);
            var fits := exists i :: 0 <= i < |s.free| && s.free[i].cap >= size;
            && (ok <==> loanOk && (fits || dataOk))
            && (ok ==>
                  && |after.loans| == |s.loans| + 1 && after.loans[..|s.loans|] == s.loans
                  && var loan := after.loans[|s.loans|];
                     && loan.out && loan.len == size && after.freed == s.freed
                     && (fits ==>
                           && after.created == s.created && |after.free| == |s.free| - 1
                           && (exists i :: 0 <= i < |s.free| && s.free[i] == loan.entry && loan.entry.cap >= size
                                           && forall j :: 0 <= j < i ==> s.free[j].cap < size))
                     && (!fits ==>
                           && after.free == s.free && after.created == s.created + [size]
                           && loan.entry == Entry(|s.created|, size)))
            && (!ok ==> after.loans == s.loans)
            && (!fits && !dataOk ==> after == s)
  {
    var at := FirstFit(s.free, size, 0);
    if at.Some? {
      assert s.free[at.value].cap >= size;
    }
  }

  /** A returned loan's buffer is available again, unless the free list is full. */
  lemma ReturnMeans(s: PoolState, k: nat)
    requires k < |s.loans| && s.loans[k].out
    ensures var after := ReturnStep(s, k);
            && after.loans == s.loans[k := after.loans[k]] && !after.loans[k].out && after.created == s.created
            && (|s.free| != 64 ==> after.free == s.free + [s.loans[k].entry] && after.freed == s.freed)
            && (|s.free| == 64 ==> after.free == s.free && after.freed == s.freed + {s.loans[k].entry.buffer})
  {}

  /** All requests ask for one size, none fails, and at most `peak` loans are out at once. */
  ghost predicate Steady(ops: seq<PoolOp>, size: nat, peak: nat) {
    && (forall i :: 0 <= i < |ops| && ops[i].Acquire? ==> ops[i] == Acquire(size, true, true))
    && (forall i :: 0 <= i <= |ops| ==> Out(Run(ops[..i])) <= peak)
  }

  /** Every buffer there is has this size and is on the free list or out. */
  ghost predicate Circulates(s: PoolState, size: nat, peak: nat) {
    && (forall i :: 0 <= i < |s.free| ==> s.free[i].cap == size)
    && (forall k :: 0 <= k < |s.loans| ==> s.loans[k].entry.cap == size)
    && s.freed == {}
    && |s.free| + Out(s) == |s.created| <= peak
  }

  lemma CirculatesAfter(s: PoolState, op: PoolOp, size: nat, peak: nat)
    requires Circulates(s, size, peak) && peak <= 64
    requires op.Acquire? ==> op == Acquire(size, true, true)
    requires Out(Apply(s, op)) <= peak
    ensures Circulates(Apply(s, op), size, peak)
  {
    hide Count;
    match op
    case Acquire(_, _, _) =>
      hide AcquireStep;
      AcquireMeans(s, size, true, true);
      var after := AcquireStep(s, size, true, true).0;
      CountSnoc(s.loans, after.loans[|s.loans|], IsOut);
      assert after.loans == s.loans + [after.loans[|s.loans|]];
      if s.free != [] {
        assert s.free[0].cap >= size;
        FreeAfterAcquire(s, size);
      }
    case Return(k) =>
      if k < |s.loans| && s.loans[k].out {
        CountUpdate(s.loans, k, s.loans[k].(out := false), IsOut);
        CountAt(s.loans, k, IsOut);
      }
  }

  lemma FreeAfterAcquire(s: PoolState, size: nat)
    ensures var after := AcquireStep(s, size, true, true).0;
            forall i :: 0 <= i < |after.free| ==> after.free[i] in s.free
  {}

  /** Reuse over whole runs: under a steady load with at most `peak` loans out at once, no more
      than `peak` buffers are ever allocated, however long the run, and none is freed. */
  lemma {:induction false} SteadyRunAllocatesAtMostPeak(ops: seq<PoolOp>, size: nat, peak: nat)
    requires Steady(ops, size, peak) && peak <= 64
    ensures |Run(ops).created| <= peak && Run(ops).freed == {}
    ensures Circulates(Run(ops), size, peak)
  {
    if ops != [] {
      var n := |ops| - 1;
      var front := ops[..n];
      SteadyPrefix(ops, size, peak);
      SteadyRunAllocatesAtMostPeak(front, size, peak);
      assert ops[..|ops|] == ops;
      hide Circulates; hide Apply;
      CirculatesAfter(Run(front), ops[n], size, peak);
      CirculatesMeans(Run(ops), size, peak);
    }
  }

  lemma CirculatesMeans(s: PoolState, size: nat, peak: nat)
    requires Circulates(s, size, peak)
    ensures |s.created| <= peak && s.freed == {}
  {}

  lemma SteadyPrefix(ops: seq<PoolOp>, size: nat, peak: nat)
    requires Steady(ops, size, peak) && ops != []
    ensures Steady(ops[..|ops| - 1], size, peak)
  {
    hide Run; hide Out;
    var front := ops[..|ops| - 1];
    forall i | 0 <= i <= |front|
      ensures Out(Run(front[..i])) <= peak
    {
      assert front[..i] == ops[..i];
    }
  }

  // --- The pool in place -------------------------------------------------------------------

  datatype PoolEntry = PoolEntry(data: array?<byte>, cap: nat)

  /** `pending` while `release_fn` is set. */
  class Loan {
    const pool: Pool
    const data: array<byte>
    const cap: nat
    const len: nat
    var pending: bool
    ghost const id: nat

    constructor (pool: Pool, data: array<byte>, cap: nat, len: nat, ghost id: nat)
      ensures this.pool == pool && this.data == data && this.cap == cap && this.len == len && this.id == id
      ensures pending
    {
      this.pool, this.data, this.cap, this.len, this.id := pool, data, cap, len, id;
      pending := true;
    }

    /** `rcp_loan_return`: the release function runs once. */
    method Return()
      requires pool.Valid() && id < |pool.loans| && pool.loans[id] == this
      modifies this, pool, pool.entries
      ensures pool.Valid() && pool.loans == old(pool.loans) && pool.buffers == old(pool.buffers)
      ensures pool.model == ReturnStep(old(pool.model), id)
    {
      hide Conserved; hide Fits;
      ReturnConserves(pool.model, id);
      if pending {
        ghost var state := pool.model.loans[id];
        var kept := pool.Append(data, cap, state.entry);
        pool.GiveBack(id, state, kept);
        pending := false;
      }
    }
  }

  /** `rcp_loan_release`; a null loan is ignored. */
  method Release(loan: Loan?)
    requires loan != null ==> loan.pool.Valid() && loan.id < |loan.pool.loans| && loan.pool.loans[loan.id] == loan
    modifies loan, if loan == null then {} else {loan.pool, loan.pool.entries}
    ensures loan != null ==> loan.pool.Valid() && loan.pool.model == ReturnStep(old(loan.pool.model), loan.id)
  {
    if loan != null {
      loan.Return();
    }
  }

  class Pool {
    const entries: array<PoolEntry>
    var entriesLen: nat

    ghost var model: PoolState
    ghost var buffers: seq<array<byte>>
    ghost var loans: seq<Loan>

    /** The buffers are distinct and as large as recorded. */
    ghost predicate BuffersValid()
      reads this
    {
      && |buffers| == |model.created|
      && (forall b :: 0 <= b < |buffers| ==> buffers[b].Length >= model.created[b])
      && (forall b, c :: 0 <= b < c < |buffers| ==> buffers[b] != buffers[c])
    }

    ghost predicate EntriesValid()
      reads this, entries
    {
      && entries.Length == MAX_ENTRIES && entriesLen == |model.free| <= MAX_ENTRIES
      && (forall b :: 0 <= b < |buffers| ==> buffers[b] as object != entries as object)
      && forall i :: 0 <= i < entriesLen ==>
           model.free[i].buffer < |buffers| && entries[i] == PoolEntry(buffers[model.free[i].buffer], model.free[i].cap)
    }

    ghost predicate Lent(loan: Loan, id: nat, state: LoanState)
      reads this, loan
    {
      && loan.pool == this && loan.id == id && loan.pending == state.out && loan.len == state.len
      && loan.cap == state.entry.cap && state.entry.buffer < |buffers| && loan.data == buffers[state.entry.buffer]
    }

    ghost predicate LoansValid()
      reads this, loans
    {
      && |loans| == |model.loans|
      && forall k :: 0 <= k < |loans| ==> Lent(loans[k], k, model.loans[k])
    }

    /** The objects are the ones the model speaks of. */
    ghost predicate Linked()
      reads this, entries, loans
    {
      BuffersValid() && EntriesValid() && LoansValid()
    }

    ghost predicate Valid()
      reads this, entries, loans
    {
      Conserved(model) && Linked()
    }

    ghost function FreeBuffers(): set<array<byte>>
      requires Linked()
      reads this, entries, loans
    {
      set i | 0 <= i < |model.free| :: buffers[model.free[i].buffer]
    }

    constructor ()
      ensures Valid() && fresh(entries) && model == NEW_POOL && loans == []
    {
      entries := new PoolEntry[MAX_ENTRIES](_ => PoolEntry(null, 0));
      entriesLen := 0;
      model, buffers, loans := NEW_POOL, [], [];
    }

    /** The first fit, taken off the free list. */
    method TakeFirstFit(size: nat) returns (data: array?<byte>, cap: nat)
      requires Linked()
      modifies this, entries
      ensures Linked() && buffers == old(buffers) && loans == old(loans)
      ensures var at := FirstFit(old(model).free, size, 0);
              if at.None? then data == null && model == old(model)
              else IsEntry(data, cap, old(model).free[at.value])
                   && model == old(model).(free := Removed(old(model).free, at.value))
    {
      hide BuffersValid; hide LoansValid;
      var i := 0;
      while i < entriesLen
        invariant 0 <= i <= entriesLen
        invariant FirstFit(model.free, size, 0) == FirstFit(model.free, size, i)
      {
        if entries[i].cap >= size {
          data, cap := entries[i].data, entries[i].cap;
          RemoveEntry(i);
          return;
        }
        i := i + 1;
      }
      return null, 0;
    }

    ghost predicate IsEntry(data: array?<byte>, cap: nat, e: Entry)
      reads this
    {
      e.buffer < |buffers| && data == buffers[e.buffer] && cap == e.cap
    }

    method RemoveEntry(i: nat)
      requires Linked() && i < entriesLen
      modifies this, entries
      ensures Linked() && buffers == old(buffers) && loans == old(loans)
      ensures model == old(model).(free := Removed(old(model).free, i))
    {
      hide Fits;
      entries[i] := entries[entriesLen - 1];
      entriesLen := entriesLen - 1;
      model := model.(free := Removed(model.free, i));
    }

    /** A zeroed buffer, from the free list or newly allocated. */
    method ObtainBuffer(size: nat, dataOk: bool) returns (data: array?<byte>, cap: nat)
      requires Valid()
      modifies this, entries, FreeBuffers()
      ensures Linked() && loans == old(loans) && old(buffers) <= buffers
      ensures var (entry, s1) := Taken(old(model), size, dataOk);
              && model == s1
              && (data == null <==> entry.None?)
              && (data != null ==>
                    && IsEntry(data, cap, entry.value) && size <= data.Length
                    && forall i :: 0 <= i < size ==> data[i] == 0)
      ensures OthersUntouched(old(FreeBuffers()))
    {
      hide Fits; hide Linked; hide Count; hide Removed; hide FreeBuffers;
      FitLeavesRoom(model, size);
      FreeBuffersAre();
      data, cap := TakeFirstFit(size);
      if data != null {
        Zero(data, size);
      } else if dataOk {
        data := new byte[if size > 0 then size else 1](_ => 0);
        cap := size;
        AddBuffer(data, size);
      }
    }

    /** Every buffer outside the set keeps its contents. */
    twostate predicate OthersUntouched(changed: set<array<byte>>)
      reads this, buffers
    {
      && old(buffers) <= buffers
      && forall b :: 0 <= b < |old(buffers)| && old(buffers)[b] !in changed ==> buffers[b][..] == old(buffers[b][..])
    }

    lemma FreeBuffersAre()
      requires Valid()
      ensures |buffers| == |model.created| && |model.free| == entriesLen
      ensures forall b :: 0 <= b < |buffers| ==> buffers[b] as object != entries as object
      ensures forall b :: 0 <= b < |buffers| ==> buffers[b].Length >= model.created[b]
      ensures forall i :: 0 <= i < |model.free| ==>
        model.free[i].buffer < |buffers| && buffers[model.free[i].buffer] in FreeBuffers()
    {
      hide Places;
    }

    /** Contents are not part of what links the pool. */
    method Zero(data: array<byte>, size: nat)
      requires Linked() && data in buffers && size <= data.Length
      modifies data
      ensures Linked() && forall i :: 0 <= i < size ==> data[i] == 0
    {
      forall i | 0 <= i < size {
        data[i] := 0;
      }
    }

    /** Records a newly allocated buffer. */
    ghost method AddBuffer(data: array<byte>, size: nat)
      requires Linked() && data !in buffers && data as object != entries as object && data.Length >= size
      modifies this
      ensures Linked() && loans == old(loans) && buffers == old(buffers) + [data]
      ensures model == old(model).(created := old(model).created + [size])
    {
      buffers := buffers + [data];
      model := model.(created := model.created + [size]);
    }

    lemma LiveIsOutsideFree()
      requires Valid()
      ensures |loans| == |model.loans|
      ensures forall k :: 0 <= k < |loans| && model.loans[k].out ==>
        loans[k].data in buffers && loans[k].data !in FreeBuffers()
    {
      hide Count; hide Places;
      NothingShared(model);
      forall k | 0 <= k < |loans| && model.loans[k].out
        ensures loans[k].data in buffers && loans[k].data !in FreeBuffers()
      {
        assert Lent(loans[k], k, model.loans[k]);
        assert Fits(model.loans[k].entry, model.created);
        forall i | 0 <= i < |model.free|
          ensures buffers[model.free[i].buffer] != loans[k].data
        {
          assert Fits(model.free[i], model.created);
        }
      }
    }

    /** `rcp_loan_pool_acquire`. */
    method Acquire(size: nat, dataOk: bool, loanOk: bool) returns (loan: Loan?)
      requires Valid()
      modifies this, entries, FreeBuffers()
      ensures Valid()
      ensures (model, loan != null) == AcquireStep(old(model), size, dataOk, loanOk)
      ensures loan != null ==>
                && fresh(loan) && loans == old(loans) + [loan]
                && loan.len == size <= loan.data.Length && forall i :: 0 <= i < size ==> loan.data[i] == 0
      ensures loan == null ==> loans == old(loans)
      ensures forall k :: 0 <= k < |old(loans)| && old(model).loans[k].out ==>
                old(loans)[k].data[..] == old(loans[k].data[..])
    {
      hide Fits; hide Linked; hide Count; hide FreeBuffers; hide Taken; hide Conserved;
      AcquireConserves(model, size, dataOk, loanOk);
      LiveIsOutsideFree();
      ghost var entry := Taken(model, size, dataOk).0;
      var data, cap := ObtainBuffer(size, dataOk);
      if data == null {
        return null;
      }
      if !loanOk {
        FreeBuffer(entry.value);
        return null;
      }
      loan := new Loan(this, data, cap, size, |loans|);
      AddLoan(loan, entry.value);
    }

    /** `pool_append`. */
    method Append(data: array<byte>, cap: nat, ghost entry: Entry) returns (kept: bool)
      requires BuffersValid() && EntriesValid() && IsEntry(data, cap, entry)
      modifies this, entries
      ensures BuffersValid() && EntriesValid() && loans == old(loans) && buffers == old(buffers)
      ensures kept == (|old(model).free| < MAX_ENTRIES)
      ensures model == if kept then old(model).(free := old(model).free + [entry]) else old(model)
    {
      if entriesLen == MAX_ENTRIES {
        return false;
      }
      entries[entriesLen] := PoolEntry(data, cap);
      entriesLen := entriesLen + 1;
      model := model.(free := model.free + [entry]);
      return true;
    }

    /** Records that loan `id` is no longer out, and what became of its buffer. */
    ghost method GiveBack(id: nat, state: LoanState, kept: bool)
      requires BuffersValid() && EntriesValid() && id < |model.loans|
      modifies this`model
      ensures BuffersValid() && EntriesValid()
      ensures model == old(model).(
        loans := old(model).loans[id := state.(out := false)],
        freed := if kept then old(model).freed else old(model).freed + {state.entry.buffer})
    {
      model := model.(loans := model.loans[id := state.(out := false)],
                      freed := if kept then model.freed else model.freed + {state.entry.buffer});
    }

    /** `rcp_loan_pool_destroy`. */
    method Destroy()
      requires Valid()
      modifies this, entries
      ensures model == DestroyStep(old(model))
      ensures forall i :: 0 <= i < |old(model).free| ==> entries[i].data == null
    {
      hide Conserved;
      var i := 0;
      while i < entriesLen
        invariant 0 <= i <= entriesLen == |old(model).free| <= entries.Length && model == old(model)
        invariant forall k :: 0 <= k < i ==> entries[k].data == null
      {
        entries[i] := entries[i].(data := null);
        i := i + 1;
      }
      model := DestroyStep(model);
    }

    ghost method FreeBuffer(entry: Entry)
      requires Linked()
      modifies this`model
      ensures Linked() && model == old(model).(freed := old(model).freed + {entry.buffer})
    {
      model := model.(freed := model.freed + {entry.buffer});
    }

    ghost method AddLoan(loan: Loan, entry: Entry)
      requires Linked() && loan !in loans && Lent(loan, |loans|, LoanState(entry, loan.len, true))
      modifies this
      ensures Linked() && loans == old(loans) + [loan] && buffers == old(buffers)
      ensures model == old(model).(loans := old(model).loans + [LoanState(entry, loan.len, true)])
    {
      loans := loans + [loan];
      model := model.(loans := model.loans + [LoanState(entry, loan.len, true)]);
    }
  }

  lemma FitLeavesRoom(s: PoolState, size: nat)
    requires Conserved(s)
    ensures var at := FirstFit(s.free, size, 0);
            at.Some? ==> s.free[at.value].buffer < |s.created| && size <= s.created[s.free[at.value].buffer]
  {
    hide Places;
  }
}
