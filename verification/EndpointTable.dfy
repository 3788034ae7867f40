/** The stream-scoped endpoint table of the server (`src/mock.c`). */
module EndpointTable {
  import opened Counting
  import opened Octets
  import opened Wrappers

  const MAX_ENDPOINTS: nat := 64

  /** Octets of one row of the EP config register section. */
  const CFG_ROW_LEN: nat := 12

  datatype GenericCfg = GenericCfg(
    epType: byte, epUsed: bool, delayTime: bv32, reqStorageSize: bv32, description: bv32,
    txBufferSize: bv16, rxBufferSize: bv16)

  datatype Slot = Slot(
    inUse: bool, busId: bv16, streamScoped: bool, streamId: StreamId, generic: GenericCfg,
    epEnable: bool, reqCrcEnable: bool, rxEnforceE2e: bool)

  const UNUSED := Slot(false, 0, false, StreamId(0), GenericCfg(0, false, 0, 0, 0, 0, 0), false, false, false)

  /** What a scan of the table looks for. */
  datatype Selector = Free | OnBus(busId: bv16) | OnStream(streamId: StreamId, busId: bv16)

  predicate Selects(sel: Selector, slot: Slot) {
    match sel
    case Free => !slot.inUse
    case OnBus(busId) => slot.inUse && slot.busId == busId
    case OnStream(streamId, busId) =>
      slot.inUse && slot.busId == busId && (!slot.streamScoped || slot.streamId == streamId)
  }

  /** The first selected slot at or after `from`. */
  function FindFrom(slots: seq<Slot>, sel: Selector, from: nat): (at: Option<nat>)
    ensures at.Some? ==> from <= at.value < |slots| && Selects(sel, slots[at.value])
    ensures at.Some? ==> forall i :: from <= i < at.value ==> !Selects(sel, slots[i])
    ensures at.None? ==> forall i :: from <= i < |slots| ==> !Selects(sel, slots[i])
    decreases |slots| - from
  {
    if from >= |slots| then None
    else if Selects(sel, slots[from]) then Some(from)
    else FindFrom(slots, sel, from + 1)
  }

  function Find(slots: seq<Slot>, sel: Selector): (at: Option<nat>)
    ensures at.Some? ==> at.value < |slots| && Selects(sel, slots[at.value])
    ensures at.Some? ==> forall i :: 0 <= i < at.value ==> !Selects(sel, slots[i])
    ensures at.None? ==> forall i :: 0 <= i < |slots| ==> !Selects(sel, slots[i])
  {
    FindFrom(slots, sel, 0)
  }

  predicate InUse(slot: Slot) {
    slot.inUse
  }

  datatype TableState = TableState(slots: seq<Slot>, count: nat, svrEpCount: nat, cfgCapacity: nat)

  datatype TableError = TableOk | DuplicateBusId | CapacityExhausted

  /** Registration without a stream, or scoped to one. */
  function SelectorFor(scope: Option<StreamId>, busId: bv16): Selector {
    match scope case None => OnBus(busId) case Some(streamId) => OnStream(streamId, busId)
  }

  function NewSlot(scope: Option<StreamId>, busId: bv16, epType: byte, epEnable: bool): Slot {
    Slot(true, busId, scope.Some?, if scope.Some? then scope.value else StreamId(0),
         GenericCfg(epType, true, 0, 0, 0, 0, 0), epEnable, false, false)
  }

  function WithCount(slots: seq<Slot>, count: nat): TableState {
    TableState(slots, count, count, count * CFG_ROW_LEN)
  }

  function AddStep(t: TableState, scope: Option<StreamId>, busId: bv16, epType: byte, epEnable: bool)
    : (TableState, TableError)
  {
    if Find(t.slots, SelectorFor(scope, busId)).Some? then (t, DuplicateBusId)
    else if t.count >= MAX_ENDPOINTS then (t, CapacityExhausted)
    else match Find(t.slots, Free)
      case None => (t, CapacityExhausted)
      case Some(i) => (WithCount(t.slots[i := NewSlot(scope, busId, epType, epEnable)], t.count + 1), TableOk)
  }

  function RemoveStep(t: TableState, scope: Option<StreamId>, busId: bv16): (TableState, bool) {
    match Find(t.slots, SelectorFor(scope, busId))
    case None => (t, false)
    case Some(i) => (WithCount(t.slots[i := UNUSED], if t.count > 0 then t.count - 1 else 0), true)
  }

  /** The two protection switches of an endpoint. */
  datatype Flag = ReqCrcEnable | RxEnforceE2e

  function WithFlag(slot: Slot, flag: Flag, value: bool): Slot {
    match flag
    case ReqCrcEnable => slot.(reqCrcEnable := value)
    case RxEnforceE2e => slot.(rxEnforceE2e := value)
  }

  function SetFlagStep(t: TableState, scope: Option<StreamId>, busId: bv16, flag: Flag, value: bool)
    : (TableState, bool)
  {
    match Find(t.slots, SelectorFor(scope, busId))
    case None => (t, false)
    case Some(i) => (t.(slots := t.slots[i := WithFlag(t.slots[i], flag, value)]), true)
  }

  // --- The generic configuration, viewed and applied --------------------------------

  /** The rows of the slots in use, in table order. */
  function View(slots: seq<Slot>): (rows: seq<GenericCfg>)
    ensures |rows| == Count(slots, InUse)
  {
    if slots == [] then []
    else
      var n := |slots| - 1;
      View(slots[..n]) + if slots[n].inUse then [slots[n].generic] else []
  }

  /** Row `r` goes to the r-th slot in use. */
  function Applied(slots: seq<Slot>, rows: seq<GenericCfg>): (applied: seq<Slot>)
    requires |rows| == Count(slots, InUse)
    ensures |applied| == |slots|
  {
    if slots == [] then []
    else
      var n := |slots| - 1;
      if slots[n].inUse then
        Applied(slots[..n], rows[..|rows| - 1]) + [slots[n].(generic := rows[|rows| - 1])]
      else Applied(slots[..n], rows) + [slots[n]]
  }

  function ApplyStep(t: TableState, rows: seq<GenericCfg>): (TableState, bool)
  {
    if |rows| != t.count || t.count != Count(t.slots, InUse) then (t, false)
    else (t.(slots := Applied(t.slots, rows)), true)
  }

  /** Applying the viewed configuration changes nothing. */
  lemma {:induction false} ApplyOfView(slots: seq<Slot>)
    ensures Applied(slots, View(slots)) == slots
  {
    if slots != [] {
      var n := |slots| - 1;
      ApplyOfView(slots[..n]);
      if slots[n].inUse {
        assert View(slots)[..|View(slots)| - 1] == View(slots[..n]);
      } else {
        assert View(slots) == View(slots[..n]);
      }
      assert slots == slots[..n] + [slots[n]];
    }
  }

  lemma AppliedSnoc(slots: seq<Slot>, rows: seq<GenericCfg>, slot: Slot, row: GenericCfg)
    requires |rows| == Count(slots, InUse)
    ensures Count(slots + [slot], InUse) == Count(slots, InUse) + if slot.inUse then 1 else 0
    ensures slot.inUse ==> Applied(slots + [slot], rows + [row]) == Applied(slots, rows) + [slot.(generic := row)]
    ensures !slot.inUse ==> Applied(slots + [slot], rows) == Applied(slots, rows) + [slot]
  {
    assert (slots + [slot])[..|slots|] == slots;
    assert (rows + [row])[..|rows|] == rows;
  }

  lemma ViewSnoc(slots: seq<Slot>, slot: Slot)
    ensures View(slots + [slot]) == View(slots) + if slot.inUse then [slot.generic] else []
  {
    assert (slots + [slot])[..|slots|] == slots;
  }

  lemma ViewEmpty(slots: seq<Slot>)
    requires slots == []
    ensures View(slots) == []
  {}

  /** `out` with as many of the rows as fit written over its start. */
  function Overlaid(out: seq<GenericCfg>, rows: seq<GenericCfg>): (overlaid: seq<GenericCfg>)
    ensures |overlaid| == |out|
  {
    if |rows| <= |out| then rows + out[|rows|..] else rows[..|out|]
  }

  lemma OverlaidSnoc(out: seq<GenericCfg>, slots: seq<Slot>, i: nat)
    requires i < |slots|
    ensures var rows, next := View(slots[..i]), View(slots[..i + 1]);
            && |next| == |rows| + (if slots[i].inUse then 1 else 0)
            && Overlaid(out, next)
            == if slots[i].inUse && |rows| < |out|
               then Overlaid(out, rows)[|rows| := slots[i].generic]
               else Overlaid(out, rows)
  {
    hide View; hide Count;
    ViewSnoc(slots[..i], slots[i]);
    assert slots[..i] + [slots[i]] == slots[..i + 1];
  }

  lemma OverlaidParts(out: seq<GenericCfg>, rows: seq<GenericCfg>)
    ensures var n := if |rows| < |out| then |rows| else |out|;
            Overlaid(out, rows)[..n] == rows[..n] && Overlaid(out, rows)[n..] == out[n..]
    ensures Overlaid(out, []) == out
  {}

  /** Viewing after an apply returns the applied rows. */
  lemma {:induction false} ViewOfApply(slots: seq<Slot>, rows: seq<GenericCfg>)
    requires |rows| == Count(slots, InUse)
    ensures View(Applied(slots, rows)) == rows
  {
    if slots != [] {
      var n, m := |slots| - 1, |rows| - 1;
      if slots[n].inUse {
        ViewOfApply(slots[..n], rows[..m]);
        ViewSnoc(Applied(slots[..n], rows[..m]), slots[n].(generic := rows[m]));
      } else {
        ViewOfApply(slots[..n], rows);
        ViewSnoc(Applied(slots[..n], rows), slots[n]);
      }
    }
  }

  /** An apply changes nothing but the rows of the slots in use. */
  lemma {:induction false} ApplyTouchesRowsOnly(slots: seq<Slot>, rows: seq<GenericCfg>, i: nat)
    requires |rows| == Count(slots, InUse) && i < |slots|
    ensures Applied(slots, rows)[i] == slots[i].(generic := Applied(slots, rows)[i].generic)
    ensures !slots[i].inUse ==> Applied(slots, rows)[i] == slots[i]
  {
    var n := |slots| - 1;
    if i < n {
      ApplyTouchesRowsOnly(slots[..n], if slots[n].inUse then rows[..|rows| - 1] else rows, i);
    }
  }

  // --- What every reachable table keeps -----------------------------------------------

  ghost predicate DistinctAddresses(slots: seq<Slot>) {
    forall i, j :: 0 <= i < j < |slots| && slots[i].inUse && slots[j].inUse && slots[i].busId == slots[j].busId ==>
      slots[i].streamScoped && slots[j].streamScoped && slots[i].streamId != slots[j].streamId
  }

  ghost predicate Consistent(t: TableState) {
    && |t.slots| == MAX_ENDPOINTS
    && DistinctAddresses(t.slots)
    && (forall i :: 0 <= i < |t.slots| && !t.slots[i].inUse ==> t.slots[i] == UNUSED)
    && t.count == t.svrEpCount == Count(t.slots, InUse)
    && t.cfgCapacity == t.count * CFG_ROW_LEN
  }

  function Empty(): TableState {
    TableState(seq(MAX_ENDPOINTS, _ => UNUSED), 0, 0, 0)
  }

  lemma FullExactlyWhen(slots: seq<Slot>)
    ensures Count(slots, InUse) == |slots| <==> Find(slots, Free).None?
  {
    var free := Find(slots, Free);
    if free.None? {
      assert forall i :: 0 <= i < |slots| ==> !Selects(Free, slots[i]);
      CountAll(slots, InUse);
    } else {
      CountBelow(slots, free.value, InUse);
    }
  }

  /** A slot whose address no other slot carries can be written without a clash. */
  lemma AddressesAfterAdd(slots: seq<Slot>, i: nat, scope: Option<StreamId>, busId: bv16, slot: Slot)
    requires DistinctAddresses(slots) && i < |slots| && !slots[i].inUse
    requires forall j :: 0 <= j < |slots| ==> !Selects(SelectorFor(scope, busId), slots[j])
    requires slot.busId == busId && slot.streamScoped == scope.Some? && (scope.Some? ==> slot.streamId == scope.value)
    ensures DistinctAddresses(slots[i := slot])
  {
    forall j | 0 <= j < |slots| && j != i && slots[j].inUse && slots[j].busId == busId
      ensures slots[j].streamScoped && slot.streamScoped && slots[j].streamId != slot.streamId
    {
      assert !Selects(SelectorFor(scope, busId), slots[j]);
    }
  }

  lemma AddKeeps(t: TableState, scope: Option<StreamId>, busId: bv16, epType: byte, epEnable: bool)
    requires Consistent(t)
    ensures Consistent(AddStep(t, scope, busId, epType, epEnable).0)
    ensures AddStep(t, scope, busId, epType, epEnable).1 ==
              if exists j :: 0 <= j < |t.slots| && Selects(SelectorFor(scope, busId), t.slots[j]) then DuplicateBusId
              else if t.count == MAX_ENDPOINTS then CapacityExhausted
              else TableOk
  {
    hide Count; hide SelectorFor;
    FullExactlyWhen(t.slots);
    var (after, rc) := AddStep(t, scope, busId, epType, epEnable);
    if rc == TableOk {
      var i := Find(t.slots, Free).value;
      var slot := NewSlot(scope, busId, epType, epEnable);
      CountUpdate(t.slots, i, slot, InUse);
      AddressesAfterAdd(t.slots, i, scope, busId, slot);
    }
  }

  lemma RemoveKeeps(t: TableState, scope: Option<StreamId>, busId: bv16)
    requires Consistent(t)
    ensures Consistent(RemoveStep(t, scope, busId).0)
  {
    hide Count;
    var at := Find(t.slots, SelectorFor(scope, busId));
    if at.Some? {
      CountUpdate(t.slots, at.value, UNUSED, InUse);
      CountAt(t.slots, at.value, InUse);
    }
  }

  lemma SetFlagKeeps(t: TableState, scope: Option<StreamId>, busId: bv16, flag: Flag, value: bool)
    requires Consistent(t)
    ensures Consistent(SetFlagStep(t, scope, busId, flag, value).0)
  {
    hide Count;
    var at := Find(t.slots, SelectorFor(scope, busId));
    if at.Some? {
      var i := at.value;
      CountUpdate(t.slots, i, WithFlag(t.slots[i], flag, value), InUse);
    }
  }

  lemma {:induction false} InUseCountOfApplied(slots: seq<Slot>, rows: seq<GenericCfg>)
    requires |rows| == Count(slots, InUse)
    ensures Count(Applied(slots, rows), InUse) == Count(slots, InUse)
  {
    ViewOfApply(slots, rows);
    assert |View(Applied(slots, rows))| == Count(Applied(slots, rows), InUse);
  }

  lemma ApplyKeeps(t: TableState, rows: seq<GenericCfg>)
    requires Consistent(t)
    ensures Consistent(ApplyStep(t, rows).0)
  {
    hide Count; hide Applied;
    if |rows| == t.count {
      InUseCountOfApplied(t.slots, rows);
      forall i | 0 <= i < |t.slots|
        ensures Applied(t.slots, rows)[i] == t.slots[i].(generic := Applied(t.slots, rows)[i].generic)
        ensures !t.slots[i].inUse ==> Applied(t.slots, rows)[i] == t.slots[i]
      {
        ApplyTouchesRowsOnly(t.slots, rows, i);
      }
    }
  }

  datatype TableOp =
    | Add(scope: Option<StreamId>, busId: bv16, epType: byte, epEnable: bool)
    | Remove(scope: Option<StreamId>, busId: bv16)
    | SetFlag(scope: Option<StreamId>, busId: bv16, flag: Flag, value: bool)
    | ApplyCfg(rows: seq<GenericCfg>)

  function TableStep(t: TableState, op: TableOp): TableState {
    match op
    case Add(scope, busId, epType, epEnable) => AddStep(t, scope, busId, epType, epEnable).0
    case Remove(scope, busId) => RemoveStep(t, scope, busId).0
    case SetFlag(scope, busId, flag, value) => SetFlagStep(t, scope, busId, flag, value).0
    case ApplyCfg(rows) => ApplyStep(t, rows).0
  }

  function RunTable(ops: seq<TableOp>): TableState {
    if ops == [] then Empty() else TableStep(RunTable(ops[..|ops| - 1]), ops[|ops| - 1])
  }

  /** Every table any sequence of operations reaches is consistent: two slots in use on the
      same bus are scoped to different streams, and the three counts agree with the slots. */
  lemma {:induction false} ReachableIsConsistent(ops: seq<TableOp>)
    ensures Consistent(RunTable(ops))
  {
    if ops == [] {
      CountNone(Empty().slots, InUse);
    } else {
      var before := RunTable(ops[..|ops| - 1]);
      ReachableIsConsistent(ops[..|ops| - 1]);
      match ops[|ops| - 1]
      case Add(scope, busId, epType, epEnable) => AddKeeps(before, scope, busId, epType, epEnable);
      case Remove(scope, busId) => RemoveKeeps(before, scope, busId);
      case SetFlag(scope, busId, flag, value) => SetFlagKeeps(before, scope, busId, flag, value);
      case ApplyCfg(rows) => ApplyKeeps(before, rows);
    }
  }

  /** So a request's address selects at most one slot, whatever order a scan takes: any
      selected slot is the one the scan finds. */
  lemma LookupIsUnambiguous(t: TableState, streamId: StreamId, busId: bv16, i: nat)
    requires Consistent(t) && i < |t.slots| && Selects(OnStream(streamId, busId), t.slots[i])
    ensures Find(t.slots, OnStream(streamId, busId)) == Some(i)
  {
    var at := Find(t.slots, OnStream(streamId, busId));
    assert at.Some? && at.value <= i;
  }

  /** Removing what was just added restores the table. */
  lemma RemoveUndoesAdd(t: TableState, scope: Option<StreamId>, busId: bv16, epType: byte, epEnable: bool)
    requires Consistent(t)
    requires AddStep(t, scope, busId, epType, epEnable).1 == TableOk
    ensures RemoveStep(AddStep(t, scope, busId, epType, epEnable).0, scope, busId) == (t, true)
  {
    hide Count;
    var added := AddStep(t, scope, busId, epType, epEnable).0;
    var i := Find(t.slots, Free).value;
    var sel := SelectorFor(scope, busId);
    assert forall j :: 0 <= j < |t.slots| && j != i ==> added.slots[j] == t.slots[j] && !Selects(sel, t.slots[j]);
    assert Selects(sel, added.slots[i]);
    assert Find(added.slots, sel) == Some(i);
    assert added.slots[i := UNUSED] == t.slots;
  }

  /** A configuration is applied exactly when it has one row for each endpoint; then it is what
      is viewed, and nothing but rows changed. Otherwise nothing did. */
  lemma ApplyAnswers(t: TableState, rows: seq<GenericCfg>, i: nat)
    requires Consistent(t) && i < |t.slots|
    ensures var (after, applied) := ApplyStep(t, rows);
            && (applied <==> |rows| == Count(t.slots, InUse))
            && (applied ==>
                  && View(after.slots) == rows && after == t.(slots := after.slots)
                  && |after.slots| == |t.slots|
                  && after.slots[i] == t.slots[i].(generic := after.slots[i].generic))
            && (!applied ==> after == t)
  {
    hide View; hide Applied; hide Count; hide DistinctAddresses;
    if |rows| == Count(t.slots, InUse) {
      ViewOfApply(t.slots, rows);
      ApplyTouchesRowsOnly(t.slots, rows, i);
    }
  }

  // --- What a request meets after each operation ----------------------------------------

  /** The endpoint that takes a request of the stream on the bus. */
  function Looked(slots: seq<Slot>, streamId: StreamId, busId: bv16): Option<Slot> {
    var at := Find(slots, OnStream(streamId, busId));
    if at.None? then None else Some(slots[at.value])
  }

  /** A registered endpoint takes the requests of its bus, of its own stream only if scoped to
      one; it has the given type and switch, no protection, and an otherwise empty
      configuration. No other lookup changes. */
  lemma LookupAfterAdd(t: TableState, scope: Option<StreamId>, busId: bv16, epType: byte, epEnable: bool,
                       streamId: StreamId, bus: bv16)
    requires Consistent(t) && AddStep(t, scope, busId, epType, epEnable).1 == TableOk
    ensures Looked(AddStep(t, scope, busId, epType, epEnable).0.slots, streamId, bus)
            == if bus == busId && (scope == None || scope == Some(streamId))
               then Some(Slot(true, busId, scope.Some?, if scope.Some? then streamId else StreamId(0),
                              GenericCfg(epType, true, 0, 0, 0, 0, 0), epEnable, false, false))
               else Looked(t.slots, streamId, bus)
  {
    hide Count; hide DistinctAddresses;
    AddKeeps(t, scope, busId, epType, epEnable);
    var after := AddStep(t, scope, busId, epType, epEnable).0;
    var i := Find(t.slots, Free).value;
    var sel := OnStream(streamId, bus);
    assert Selects(sel, after.slots[i]) <==> bus == busId && (scope == None || scope == Some(streamId));
    assert forall j :: 0 <= j < |t.slots| && j != i ==> after.slots[j] == t.slots[j];
    if Selects(sel, after.slots[i]) {
      LookupIsUnambiguous(after, streamId, bus, i);
    } else {
      OtherLookupKept(t, after, streamId, bus, i);
    }
  }

  /** A slot that a lookup selects neither before nor after does not matter to it. */
  lemma OtherLookupKept(t: TableState, after: TableState, streamId: StreamId, bus: bv16, i: nat)
    requires Consistent(t) && Consistent(after)
    requires i < |t.slots| && forall j :: 0 <= j < |t.slots| && j != i ==> after.slots[j] == t.slots[j]
    requires !Selects(OnStream(streamId, bus), t.slots[i]) && !Selects(OnStream(streamId, bus), after.slots[i])
    ensures Looked(after.slots, streamId, bus) == Looked(t.slots, streamId, bus)
  {
    hide Count; hide DistinctAddresses;
    var at := Find(t.slots, OnStream(streamId, bus));
    if at.Some? {
      assert after.slots[at.value] == t.slots[at.value];
      LookupIsUnambiguous(after, streamId, bus, at.value);
    }
  }

  /** Removing takes out the endpoint found; the lookups that met it now meet none, all others
      are as before. Nothing is removed exactly when nothing is found. */
  lemma LookupAfterRemove(t: TableState, scope: Option<StreamId>, busId: bv16, streamId: StreamId, bus: bv16)
    requires Consistent(t)
    ensures var (after, removed) := RemoveStep(t, scope, busId);
            var at := Find(t.slots, SelectorFor(scope, busId));
            && removed == at.Some?
            && (!removed ==> after == t)
            && (removed ==>
                  Looked(after.slots, streamId, bus)
                  == if Find(t.slots, OnStream(streamId, bus)) == at then None else Looked(t.slots, streamId, bus))
  {
    hide Count; hide DistinctAddresses;
    RemoveKeeps(t, scope, busId);
    var (after, removed) := RemoveStep(t, scope, busId);
    var at := Find(t.slots, SelectorFor(scope, busId));
    var sel := OnStream(streamId, bus);
    if removed {
      var i := at.value;
      assert forall j :: 0 <= j < |t.slots| && j != i ==> after.slots[j] == t.slots[j];
      if Selects(sel, t.slots[i]) {
        LookupIsUnambiguous(t, streamId, bus, i);
        OnlyOneSelected(t, streamId, bus, i);
      } else {
        OtherLookupKept(t, after, streamId, bus, i);
      }
    }
  }

  lemma OnlyOneSelected(t: TableState, streamId: StreamId, bus: bv16, i: nat)
    requires Consistent(t) && i < |t.slots| && Selects(OnStream(streamId, bus), t.slots[i])
    ensures forall j :: 0 <= j < |t.slots| && j != i ==> !Selects(OnStream(streamId, bus), t.slots[j])
  {
    forall j | 0 <= j < |t.slots| && j != i
      ensures !Selects(OnStream(streamId, bus), t.slots[j])
    {
      if Selects(OnStream(streamId, bus), t.slots[j]) {
        LookupIsUnambiguous(t, streamId, bus, i);
        LookupIsUnambiguous(t, streamId, bus, j);
      }
    }
  }

  // --- The protection switches over runs ---------------------------------------------------

  predicate Enabled(slot: Slot, flag: Flag) {
    match flag
    case ReqCrcEnable => slot.reqCrcEnable
    case RxEnforceE2e => slot.rxEnforceE2e
  }

  /** The operation sets the switch of the endpoint in slot `i`. */
  predicate Sets(t: TableState, op: TableOp, i: nat, flag: Flag, value: bool) {
    op.SetFlag? && op.flag == flag && op.value == value
    && Find(t.slots, SelectorFor(op.scope, op.busId)) == Some(i)
  }

  /** The operation clears it, or removes the endpoint. */
  predicate Clears(t: TableState, op: TableOp, i: nat, flag: Flag) {
    || Sets(t, op, i, flag, false)
    || (op.Remove? && Find(t.slots, SelectorFor(op.scope, op.busId)) == Some(i))
  }

  lemma SwitchStep(t: TableState, op: TableOp, i: nat, flag: Flag)
    requires Consistent(t) && i < |t.slots|
    ensures i < |TableStep(t, op).slots|
    ensures Enabled(TableStep(t, op).slots[i], flag)
            <==> Sets(t, op, i, flag, true) || (Enabled(t.slots[i], flag) && !Clears(t, op, i, flag))
  {
    hide Count; hide DistinctAddresses; hide Applied;
    if op.ApplyCfg? && |op.rows| == t.count {
      ApplyTouchesRowsOnly(t.slots, op.rows, i);
    }
  }

  /** Op `j` of the run enabled the switch of the endpoint in slot `i`; since then nothing
      cleared it. */
  ghost predicate EnabledSince(ops: seq<TableOp>, j: nat, i: nat, flag: Flag) {
    && j < |ops|
    && Sets(RunTable(ops[..j]), ops[j], i, flag, true)
    && forall k :: j < k < |ops| ==> !Clears(RunTable(ops[..k]), ops[k], i, flag)
  }

  ghost predicate EverEnabled(ops: seq<TableOp>, i: nat, flag: Flag) {
    exists j: nat :: EnabledSince(ops, j, i, flag)
  }

  lemma EverEnabledSnoc(ops: seq<TableOp>, i: nat, flag: Flag)
    requires ops != []
    ensures var front, last := ops[..|ops| - 1], ops[|ops| - 1];
            EverEnabled(ops, i, flag)
            <==> Sets(RunTable(front), last, i, flag, true)
                 || (EverEnabled(front, i, flag) && !Clears(RunTable(front), last, i, flag))
  {
    hide Sets; hide Clears; hide RunTable;
    var n := |ops| - 1;
    var front, last := ops[..n], ops[n];
    forall k | 0 <= k <= n
      ensures ops[..k] == front[..k]
    {}
    if Sets(RunTable(front), last, i, flag, true) {
      assert EnabledSince(ops, n, i, flag);
    }
    if EverEnabled(front, i, flag) && !Clears(RunTable(front), last, i, flag) {
      var j: nat :| EnabledSince(front, j, i, flag);
      assert EnabledSince(ops, j, i, flag);
    }
    if EverEnabled(ops, i, flag) {
      var j: nat :| EnabledSince(ops, j, i, flag);
      assert j < n ==> EnabledSince(front, j, i, flag);
    }
  }

  /** In every reachable table a protection switch is on exactly when some operation turned that
      switch on for the endpoint in the slot, and none since turned it off or removed the
      endpoint. */
  lemma {:induction false} SwitchesExactlyWhen(ops: seq<TableOp>, i: nat)
    requires i < MAX_ENDPOINTS
    ensures i < |RunTable(ops).slots|
    ensures RunTable(ops).slots[i].reqCrcEnable <==> exists j: nat :: EnabledSince(ops, j, i, ReqCrcEnable)
    ensures RunTable(ops).slots[i].rxEnforceE2e <==> exists j: nat :: EnabledSince(ops, j, i, RxEnforceE2e)
  {
    SwitchExactlyWhen(ops, i, ReqCrcEnable);
    SwitchExactlyWhen(ops, i, RxEnforceE2e);
  }

  lemma {:induction false} SwitchExactlyWhen(ops: seq<TableOp>, i: nat, flag: Flag)
    requires i < MAX_ENDPOINTS
    ensures i < |RunTable(ops).slots|
    ensures Enabled(RunTable(ops).slots[i], flag) <==> EverEnabled(ops, i, flag)
  {
    hide EverEnabled; hide TableStep; hide Sets; hide Clears;
    if ops == [] {
      NeverEnabled(i, flag);
    } else {
      var front, last := ops[..|ops| - 1], ops[|ops| - 1];
      SwitchExactlyWhen(front, i, flag);
      ReachableIsConsistent(front);
      SwitchStep(RunTable(front), last, i, flag);
      EverEnabledSnoc(ops, i, flag);
    }
  }

  lemma NeverEnabled(i: nat, flag: Flag)
    ensures !EverEnabled([], i, flag)
  {}

  /** Setting a switch changes that switch of the endpoint found, and answers whether one was. */
  lemma SetFlagAnswers(t: TableState, scope: Option<StreamId>, busId: bv16, flag: Flag, value: bool)
    ensures var (after, found) := SetFlagStep(t, scope, busId, flag, value);
            && (found <==> exists i :: 0 <= i < |t.slots| && Selects(SelectorFor(scope, busId), t.slots[i]))
            && (!found ==> after == t)
            && (found ==>
                  var i := Find(t.slots, SelectorFor(scope, busId)).value;
                  after == t.(slots := t.slots[i :=
                    if flag == ReqCrcEnable then t.slots[i].(reqCrcEnable := value)
                    else t.slots[i].(rxEnforceE2e := value)]))
  {}

  // --- The table in place ----------------------------------------------------------------

  class Table {
    const slots: array<Slot>
    var endpointCount: nat
    var svrEpCount: nat
    var svrEpGenericCfgCapacity: nat

    ghost function State(): TableState
      reads this, slots
    {
      TableState(slots[..], endpointCount, svrEpCount, svrEpGenericCfgCapacity)
    }

    ghost predicate Valid()
      reads this, slots
    {
      Consistent(State())
    }

    constructor ()
      ensures Valid() && State() == Empty() && fresh(slots)
    {
      slots := new Slot[MAX_ENDPOINTS](_ => UNUSED);
      endpointCount, svrEpCount, svrEpGenericCfgCapacity := 0, 0, 0;
      new;
      assert slots[..] == Empty().slots;
      CountNone(slots[..], InUse);
    }

    method FindSlot(sel: Selector) returns (at: Option<nat>)
      ensures at == Find(slots[..], sel)
      ensures at.Some? ==> at.value < slots.Length
    {
      var i := 0;
      while i < slots.Length
        invariant 0 <= i <= slots.Length
        invariant Find(slots[..], sel) == FindFrom(slots[..], sel, i)
      {
        if Selects(sel, slots[i]) {
          return Some(i);
        }
        i := i + 1;
      }
      return None;
    }

    method SetCount(count: nat)
      modifies this
      ensures State() == WithCount(slots[..], count)
    {
      endpointCount := count;
      svrEpCount := count;
      svrEpGenericCfgCapacity := count * CFG_ROW_LEN;
    }

    method AddEndpoint(scope: Option<StreamId>, busId: bv16, epType: byte, epEnable: bool) returns (rc: TableError)
      requires Valid()
      modifies this, slots
      ensures Valid()
      ensures (State(), rc) == AddStep(old(State()), scope, busId, epType, epEnable)
    {
      AddKeeps(State(), scope, busId, epType, epEnable);
      hide Consistent;
      var taken := FindSlot(SelectorFor(scope, busId));
      if taken.Some? {
        return DuplicateBusId;
      }
      if endpointCount >= MAX_ENDPOINTS {
        return CapacityExhausted;
      }
      var free := FindSlot(Free);
      if free.None? {
        return CapacityExhausted;
      }
      slots[free.value] := NewSlot(scope, busId, epType, epEnable);
      SetCount(endpointCount + 1);
      return TableOk;
    }

    method RemoveEndpoint(scope: Option<StreamId>, busId: bv16) returns (removed: bool)
      requires Valid()
      modifies this, slots
      ensures Valid()
      ensures (State(), removed) == RemoveStep(old(State()), scope, busId)
    {
      RemoveKeeps(State(), scope, busId);
      hide Consistent;
      var at := FindSlot(SelectorFor(scope, busId));
      if at.None? {
        return false;
      }
      CountIsPositive(State(), at.value);
      slots[at.value] := UNUSED;
      SetCount(endpointCount - 1);
      return true;
    }

    method SetEndpointFlag(scope: Option<StreamId>, busId: bv16, flag: Flag, value: bool) returns (found: bool)
      requires Valid()
      modifies this, slots
      ensures Valid()
      ensures (State(), found) == SetFlagStep(old(State()), scope, busId, flag, value)
    {
      SetFlagKeeps(State(), scope, busId, flag, value);
      hide Consistent;
      var at := FindSlot(SelectorFor(scope, busId));
      if at.None? {
        return false;
      }
      slots[at.value] := WithFlag(slots[at.value], flag, value);
      return true;
    }

    /** Fills `out` with the rows that fit and answers how many there are. */
    method GenericCfgView(out: array<GenericCfg>) returns (count: nat)
      requires Valid()
      modifies out
      ensures count == |View(slots[..])|
      ensures var n := if count < out.Length then count else out.Length;
              out[..n] == View(slots[..])[..n] && out[n..] == old(out[n..])
    {
      CountIsInUse(State());
      hide View; hide Count; hide Consistent; hide Overlaid;
      ghost var before, all := out[..], slots[..];
      OverlaidParts(before, View(all));
      var written := 0;
      var i := 0;
      ViewEmpty(all[..0]);
      while i < slots.Length
        invariant 0 <= i <= slots.Length
        invariant written == |View(all[..i])|
        invariant out[..] == Overlaid(before, View(all[..i]))
      {
        OverlaidSnoc(before, all, i);
        if slots[i].inUse {
          if written < out.Length {
            out[written] := slots[i].generic;
          }
          written := written + 1;
        }
        i := i + 1;
      }
      assert all[..i] == all;
      count := endpointCount;
    }

    method ApplyGenericCfg(rows: seq<GenericCfg>) returns (applied: bool)
      requires Valid()
      modifies this, slots
      ensures Valid()
      ensures (State(), applied) == ApplyStep(old(State()), rows)
    {
      ApplyKeeps(State(), rows);
      CountIsInUse(State());
      hide Consistent; hide Applied; hide Count;
      if |rows| != endpointCount {
        return false;
      }
      FillRows(rows);
      return true;
    }

    method FillRows(rows: seq<GenericCfg>)
      requires |rows| == Count(slots[..], InUse)
      modifies slots
      ensures slots[..] == Applied(old(slots[..]), rows)
    {
      hide Applied; hide Count;
      ghost var before := slots[..];
      var taken := 0;
      var i := 0;
      NothingApplied(rows);
      while i < slots.Length && taken < |rows|
        invariant 0 <= i <= slots.Length
        invariant taken == Count(before[..i], InUse) <= |rows| == Count(before, InUse)
        invariant slots[..i] == Applied(before[..i], rows[..taken])
        invariant slots[i..] == before[i..]
      {
        AppliedNext(before, rows, i);
        assert slots[i] == before[i];
        if slots[i].inUse {
          slots[i] := slots[i].(generic := rows[taken]);
          taken := taken + 1;
        }
        i := i + 1;
      }
      AppliedTail(before, rows, i);
      assert before[..|before|] == before;
      assert rows[..taken] == rows;
      assert slots[..] == slots[..i] + slots[i..];
    }
  }

  lemma NothingApplied(rows: seq<GenericCfg>)
    ensures Count([], InUse) == 0 && Applied([], rows[..0]) == []
  {}

  lemma AppliedNext(slots: seq<Slot>, rows: seq<GenericCfg>, i: nat)
    requires i < |slots| && |rows| == Count(slots, InUse)
    ensures var taken := Count(slots[..i], InUse);
            var inUse := slots[i].inUse;
            && Count(slots[..i + 1], InUse) == (if inUse then taken + 1 else taken)
            && Count(slots[..i + 1], InUse) <= |rows|
            && Applied(slots[..i + 1], rows[..Count(slots[..i + 1], InUse)])
               == Applied(slots[..i], rows[..taken]) + [if inUse then slots[i].(generic := rows[taken]) else slots[i]]
  {
    hide Applied; hide Count;
    var taken := Count(slots[..i], InUse);
    assert slots[..i + 1] == slots[..i] + [slots[i]];
    CountPrefix(slots, i + 1, InUse);
    CountSnoc(slots[..i], slots[i], InUse);
    if slots[i].inUse {
      AppliedSnoc(slots[..i], rows[..taken], slots[i], rows[taken]);
      assert rows[..taken + 1] == rows[..taken] + [rows[taken]];
    } else {
      AppliedSnoc(slots[..i], rows[..taken], slots[i], slots[i].generic);
    }
  }

  lemma CountIsInUse(t: TableState)
    requires Consistent(t)
    ensures t.count == Count(t.slots, InUse)
  {}

  lemma CountIsPositive(t: TableState, i: nat)
    requires Consistent(t) && i < |t.slots| && t.slots[i].inUse
    ensures t.count > 0
  {
    CountAt(t.slots, i, InUse);
  }

  /** Once every row is placed, the remaining slots are all unused. */
  lemma {:induction false} AppliedTail(slots: seq<Slot>, rows: seq<GenericCfg>, i: nat)
    requires i <= |slots| && |rows| == Count(slots, InUse)
    requires i == |slots| || Count(slots[..i], InUse) == |rows|
    ensures Count(slots[..i], InUse) == |rows|
    ensures Applied(slots, rows) == Applied(slots[..i], rows) + slots[i..]
  {
    if i == |slots| {
      assert slots[..i] == slots;
    } else {
      var n := |slots| - 1;
      assert slots[..n][..i] == slots[..i];
      CountPrefix(slots[..n], i, InUse);
      AppliedTail(slots[..n], rows, i);
      assert slots[i..] == slots[..n][i..] + [slots[n]];
    }
  }
}
