/** The server lifecycle (`src/lifecycle.c`; section 12.3.1 and Figure 17 of the
    specification): plausibility of a configuration, transitions, and register locking. */
module Lifecycle {
  import opened Wrappers

  datatype State = HwUnconfigured | HwConfigured | RcpConfigured

  datatype Verdict = Accepted | HwCfgInconsistent | RcpCfgInconsistent | InvalidTransition | Unauthorized | EpsNotIdle

  datatype Endpoint = Endpoint(
    used: bool, pinMapped: bool, hasRequestStream: bool, hasStreamAssoc: bool, requestStreamIndex: nat)

  datatype RequestStream = RequestStream(configured: bool, hasResponseStream: bool, responseStreamIndex: nat)

  datatype Snapshot = Snapshot(endpoints: seq<Endpoint>, streams: seq<RequestStream>, responseStreamCount: nat)

  /** `rcp_lifecycle_writer_ctx_t`. */
  datatype Writer = Writer(
    rootClientEp0: bool, owningStream: bool, nonUnicastFrame: bool, discoveryStream: bool,
    validStreamAssociation: bool)

  // --- Plausibility ------------------------------------------------------------------

  ghost predicate HwPlausible(snap: Snapshot) {
    forall e :: e in snap.endpoints && e.used ==> e.pinMapped && e.hasRequestStream
  }

  /** Some endpoint in use is associated with request stream `i`. */
  ghost predicate Bound(snap: Snapshot, i: nat) {
    exists e :: e in snap.endpoints && e.used && e.hasStreamAssoc && e.requestStreamIndex == i
  }

  ghost predicate StreamPlausible(snap: Snapshot, i: nat)
    requires i < |snap.streams|
  {
    snap.streams[i].configured ==>
      && snap.streams[i].hasResponseStream
      && snap.streams[i].responseStreamIndex < snap.responseStreamCount
      && Bound(snap, i)
  }

  ghost predicate RcpPlausible(snap: Snapshot) {
    && (forall e :: e in snap.endpoints && e.used ==> e.hasStreamAssoc)
    && (forall i :: 0 <= i < |snap.streams| ==> StreamPlausible(snap, i))
  }

  /** The header names every endpoint with a stream association, used or not. */
  ghost predicate Named(snap: Snapshot, i: nat) {
    exists e :: e in snap.endpoints && e.hasStreamAssoc && e.requestStreamIndex == i
  }

  /** The rule as the header states it. */
  ghost predicate DocumentedRcpPlausible(snap: Snapshot) {
    && (forall e :: e in snap.endpoints && e.used ==> e.hasStreamAssoc)
    && (forall i :: 0 <= i < |snap.streams| && snap.streams[i].configured ==>
          && snap.streams[i].hasResponseStream
          && snap.streams[i].responseStreamIndex < snap.responseStreamCount
          && Named(snap, i))
  }

  /** No configured stream is named by unused endpoints only. */
  ghost predicate NoStreamNamedByUnusedOnly(snap: Snapshot) {
    forall i :: 0 <= i < |snap.streams| && snap.streams[i].configured && Named(snap, i) ==> Bound(snap, i)
  }

  /** The code is stricter than its header, and for a snapshot that meets the header's rule
      they agree exactly when no configured stream is named by unused endpoints only. */
  lemma DocumentedRuleExactlyWhen(snap: Snapshot)
    ensures RcpPlausible(snap) ==> DocumentedRcpPlausible(snap)
    ensures DocumentedRcpPlausible(snap) ==> (RcpPlausible(snap) <==> NoStreamNamedByUnusedOnly(snap))
    ensures (RcpPlausible(snap) <==> DocumentedRcpPlausible(snap))
            <==> (DocumentedRcpPlausible(snap) ==> NoStreamNamedByUnusedOnly(snap))
  {
    hide Bound; hide Named;
    forall i | 0 <= i < |snap.streams|
      ensures Bound(snap, i) ==> Named(snap, i)
    {
      BoundIsNamed(snap, i);
    }
    if RcpPlausible(snap) {
      forall i | 0 <= i < |snap.streams| && snap.streams[i].configured
        ensures StreamPlausible(snap, i) && Named(snap, i)
      {
        assert StreamPlausible(snap, i);
      }
    }
  }

  lemma BoundIsNamed(snap: Snapshot, i: nat)
    ensures Bound(snap, i) ==> Named(snap, i)
  {}

  /** One configured stream, named by one unused endpoint. */
  lemma UnusedEndpointIsDocumentedOnly()
    ensures var snap := Snapshot([Endpoint(false, false, false, true, 0)], [RequestStream(true, true, 0)], 1);
            DocumentedRcpPlausible(snap) && !RcpPlausible(snap)
  {
    var e := Endpoint(false, false, false, true, 0);
    var snap := Snapshot([e], [RequestStream(true, true, 0)], 1);
    assert e in snap.endpoints && Named(snap, 0);
    assert !Bound(snap, 0);
    assert !StreamPlausible(snap, 0);
  }

  /** The loops decide the rules; a missing snapshot is inconsistent. */
  method CheckHwCfg(snap: Option<Snapshot>) returns (verdict: Verdict)
    ensures verdict == if snap.Some? && HwPlausible(snap.value) then Accepted else HwCfgInconsistent
  {
    if snap.None? {
      return HwCfgInconsistent;
    }
    var i := 0;
    while i < |snap.value.endpoints|
      invariant 0 <= i <= |snap.value.endpoints|
      invariant forall k :: 0 <= k < i ==>
        var e := snap.value.endpoints[k]; e.used ==> e.pinMapped && e.hasRequestStream
    {
      var ep := snap.value.endpoints[i];
      if ep.used && (!ep.pinMapped || !ep.hasRequestStream) {
        return HwCfgInconsistent;
      }
      i := i + 1;
    }
    return Accepted;
  }

  method HasBoundEndpoint(snap: Snapshot, i: nat) returns (bound: bool)
    ensures bound == Bound(snap, i)
  {
    var j := 0;
    while j < |snap.endpoints|
      invariant 0 <= j <= |snap.endpoints|
      invariant forall k :: 0 <= k < j ==>
        var e := snap.endpoints[k]; !(e.used && e.hasStreamAssoc && e.requestStreamIndex == i)
    {
      var ep := snap.endpoints[j];
      if ep.used && ep.hasStreamAssoc && ep.requestStreamIndex == i {
        return true;
      }
      j := j + 1;
    }
    return false;
  }

  method RequestStreamsConsistent(snap: Snapshot) returns (consistent: bool)
    ensures consistent <==> forall i :: 0 <= i < |snap.streams| ==> StreamPlausible(snap, i)
  {
    var i := 0;
    while i < |snap.streams|
      invariant 0 <= i <= |snap.streams|
      invariant forall k :: 0 <= k < i ==> StreamPlausible(snap, k)
    {
      var rs := snap.streams[i];
      if rs.configured {
        if !rs.hasResponseStream || rs.responseStreamIndex >= snap.responseStreamCount {
          assert !StreamPlausible(snap, i);
          return false;
        }
        var bound := HasBoundEndpoint(snap, i);
        if !bound {
          assert !StreamPlausible(snap, i);
          return false;
        }
      }
      i := i + 1;
    }
    return true;
  }

  method CheckRcpCfg(snap: Option<Snapshot>) returns (verdict: Verdict)
    ensures verdict == if snap.Some? && RcpPlausible(snap.value) then Accepted else RcpCfgInconsistent
  {
    if snap.None? {
      return RcpCfgInconsistent;
    }
    var i := 0;
    while i < |snap.value.endpoints|
      invariant 0 <= i <= |snap.value.endpoints|
      invariant forall k :: 0 <= k < i ==> var e := snap.value.endpoints[k]; e.used ==> e.hasStreamAssoc
    {
      var ep := snap.value.endpoints[i];
      if ep.used && !ep.hasStreamAssoc {
        return RcpCfgInconsistent;
      }
      i := i + 1;
    }
    var consistent := RequestStreamsConsistent(snap.value);
    return if consistent then Accepted else RcpCfgInconsistent;
  }

  // --- Transitions --------------------------------------------------------------------

  predicate Authorized(w: Writer) {
    w.discoveryStream || w.rootClientEp0 || w.validStreamAssociation
  }

  /** `rcp_lifecycle_transition`. */
  ghost function TransitionStep(from: State, target: State, snap: Option<Snapshot>, w: Writer, othersIdle: bool)
    : (State, Verdict)
  {
    if target == from then (from, Accepted)
    else if from.HwUnconfigured? && target.HwConfigured? then
      if snap.Some? && HwPlausible(snap.value) then (target, Accepted) else (from, HwCfgInconsistent)
    else if from.HwConfigured? && target.RcpConfigured? then
      if !Authorized(w) then (from, Unauthorized)
      else if snap.Some? && RcpPlausible(snap.value) then (target, Accepted)
      else (from, RcpCfgInconsistent)
    else if from.RcpConfigured? && target.HwConfigured? then
      if !w.rootClientEp0 && !w.validStreamAssociation then (from, Unauthorized)
      else if !othersIdle then (from, EpsNotIdle)
      else (target, Accepted)
    else if from.HwConfigured? && target.HwUnconfigured? then
      if !Authorized(w) then (from, Unauthorized) else if !othersIdle then (from, EpsNotIdle) else (target, Accepted)
    else if from.RcpConfigured? && target.HwUnconfigured? then
      if !w.rootClientEp0 then (from, Unauthorized) else if !othersIdle then (from, EpsNotIdle) else (target, Accepted)
    else (from, InvalidTransition)
  }

  ghost predicate Accepts(from: State, target: State, snap: Option<Snapshot>, w: Writer, othersIdle: bool) {
    TransitionStep(from, target, snap, w, othersIdle).1 == Accepted
  }

  /** Staying is always accepted. Configuring the hardware takes a plausible snapshot and no
      authorization. Every arrow back takes idle endpoints; RCP_CONFIGURED is left for
      HW_UNCONFIGURED by the root client only. Whoever is accepted gets the target, all others
      leave the state alone. */
  lemma AcceptedExactlyWhen(from: State, target: State, snap: Option<Snapshot>, w: Writer, othersIdle: bool)
    ensures Accepts(from, target, snap, w, othersIdle) <==>
              || target == from
              || (from == HwUnconfigured && target == HwConfigured && snap.Some? && HwPlausible(snap.value))
              || (from == HwConfigured && target == RcpConfigured && snap.Some? && RcpPlausible(snap.value)
                  && (w.rootClientEp0 || w.discoveryStream || w.validStreamAssociation))
              || (othersIdle && from == HwConfigured && target == HwUnconfigured
                  && (w.rootClientEp0 || w.discoveryStream || w.validStreamAssociation))
              || (othersIdle && from == RcpConfigured && target == HwUnconfigured && w.rootClientEp0)
              || (othersIdle && from == RcpConfigured && target == HwConfigured
                  && (w.rootClientEp0 || w.validStreamAssociation))
    ensures TransitionStep(from, target, snap, w, othersIdle).0
            == if Accepts(from, target, snap, w, othersIdle) then target else from
  {
    hide HwPlausible; hide RcpPlausible;
  }

  lemma EmptyIsPlausible()
    ensures var empty := Snapshot([], [], 0); HwPlausible(empty) && RcpPlausible(empty)
  {}

  /** What a refusal says. INVALID_TRANSITION: no request with this target would ever be accepted
      here. UNAUTHORIZED: none of this writer. EPS_NOT_IDLE: the very same one would be, were the
      others idle. Inconsistent: it would be with another snapshot. */
  lemma RefusalMeans(from: State, target: State, snap: Option<Snapshot>, w: Writer, othersIdle: bool)
    ensures var verdict := TransitionStep(from, target, snap, w, othersIdle).1;
            && (verdict == InvalidTransition <==> forall s, w', idle :: !Accepts(from, target, s, w', idle))
            && (verdict == Unauthorized <==>
                  && (exists s, w', idle :: Accepts(from, target, s, w', idle))
                  && (forall s, idle :: !Accepts(from, target, s, w, idle)))
            && (verdict == EpsNotIdle <==>
                  !Accepts(from, target, snap, w, othersIdle) && Accepts(from, target, snap, w, true))
            && (verdict == HwCfgInconsistent || verdict == RcpCfgInconsistent <==>
                  !Accepts(from, target, snap, w, othersIdle) && exists s :: Accepts(from, target, s, w, othersIdle))
            && (verdict == HwCfgInconsistent ==> target == HwConfigured)
            && (verdict == RcpCfgInconsistent ==> target == RcpConfigured)
  {
    hide HwPlausible; hide RcpPlausible;
    EmptyIsPlausible();
    var empty, root := Some(Snapshot([], [], 0)), Writer(true, false, false, false, false);
    var best := Accepts(from, target, empty, root, true);
    var mine := Accepts(from, target, empty, w, true);
    var other := Accepts(from, target, empty, w, othersIdle);
  }

  class Machine {
    var state: State

    constructor ()
      ensures state == HwUnconfigured
    {
      state := HwUnconfigured;
    }

    method Transition(target: State, snap: Option<Snapshot>, w: Writer, othersIdle: bool) returns (verdict: Verdict)
      modifies this
      ensures (state, verdict) == TransitionStep(old(state), target, snap, w, othersIdle)
    {
      hide HwPlausible; hide RcpPlausible;
      var from := state;
      var authorized := w.discoveryStream || w.rootClientEp0 || w.validStreamAssociation;
      if target == from {
        return Accepted;
      }
      if from.HwUnconfigured? && target.HwConfigured? {
        verdict := CheckHwCfg(snap);
        if verdict != Accepted {
          return;
        }
        state := target;
        return;
      }
      if from.HwConfigured? && target.RcpConfigured? {
        if !authorized {
          return Unauthorized;
        }
        verdict := CheckRcpCfg(snap);
        if verdict != Accepted {
          return;
        }
        state := target;
        return;
      }
      if from.RcpConfigured? && target.HwConfigured? {
        if !w.rootClientEp0 && !w.validStreamAssociation {
          return Unauthorized;
        }
        if !othersIdle {
          return EpsNotIdle;
        }
        state := target;
        return Accepted;
      }
      if target.HwUnconfigured? && from.HwConfigured? {
        if !authorized {
          return Unauthorized;
        }
        if !othersIdle {
          return EpsNotIdle;
        }
        state := target;
        return Accepted;
      }
      if target.HwUnconfigured? && from.RcpConfigured? {
        if !w.rootClientEp0 {
          return Unauthorized;
        }
        if !othersIdle {
          return EpsNotIdle;
        }
        state := target;
        return Accepted;
      }
      return InvalidTransition;
    }
  }

  // --- Register locking -----------------------------------------------------------------

  datatype FieldKind = HwGeneric | FunctionalW | FunctionalWStar | ReadOnly

  datatype WriteError = NoError | LockedMemAccess | UnauthorizedAccess

  /** `rcp_lifecycle_field_writable`. */
  predicate FieldWritable(state: State, kind: FieldKind, w: Writer) {
    var authorized := w.rootClientEp0 || w.owningStream;
    var writable :=
      match kind
      case HwGeneric => state.HwUnconfigured? && w.discoveryStream
      case FunctionalW =>
        (match state
         case HwUnconfigured => false
         case RcpConfigured => authorized
         case HwConfigured => authorized || w.discoveryStream)
      case FunctionalWStar =>
        (match state
         case RcpConfigured => false
         case HwConfigured => authorized || w.discoveryStream
         case HwUnconfigured => true)
      case ReadOnly => false;
    writable && !w.nonUnicastFrame
  }

  /** The most privileged writer; the code leaves its last field unset. */
  function BestWriter(unset: bool): Writer {
    Writer(true, true, false, true, unset)
  }

  /** `rcp_lifecycle_field_write_error`. */
  function FieldWriteError(state: State, kind: FieldKind, w: Writer, unset: bool): WriteError {
    if FieldWritable(state, kind, w) then NoError
    else if !FieldWritable(state, kind, BestWriter(unset)) then LockedMemAccess
    else UnauthorizedAccess
  }

  /** LOCKED means no writer whatsoever could write, UNAUTHORIZED that some other could. */
  lemma WriteErrorMeans(state: State, kind: FieldKind, w: Writer, unset: bool)
    ensures var e := FieldWriteError(state, kind, w, unset);
            && (e == NoError <==> FieldWritable(state, kind, w))
            && (e == LockedMemAccess <==> forall other :: !FieldWritable(state, kind, other))
            && (e == UnauthorizedAccess <==>
                  !FieldWritable(state, kind, w) && exists other :: FieldWritable(state, kind, other))
  {
    forall other | FieldWritable(state, kind, other)
      ensures FieldWritable(state, kind, BestWriter(unset))
    {}
  }

  /** Who may write what, when: nobody by a frame that is not unicast, and never a read-only
      field. The hardware section while it is unconfigured, by discovery. W and W* fields alike
      in HW_CONFIGURED by anyone authorized or by discovery; in RCP_CONFIGURED only W fields and
      not by discovery; in HW_UNCONFIGURED only W* fields, by anyone. */
  lemma WritableExactlyWhen(state: State, w: Writer)
    ensures var known := w.rootClientEp0 || w.owningStream;
            && !FieldWritable(state, ReadOnly, w)
            && (FieldWritable(state, HwGeneric, w) <==>
                  state == HwUnconfigured && w.discoveryStream && !w.nonUnicastFrame)
            && (FieldWritable(state, FunctionalW, w) <==>
                  && !w.nonUnicastFrame
                  && ((state == HwConfigured && (known || w.discoveryStream)) || (state == RcpConfigured && known)))
            && (FieldWritable(state, FunctionalWStar, w) <==>
                  && !w.nonUnicastFrame
                  && (state == HwUnconfigured || (state == HwConfigured && (known || w.discoveryStream))))
  {}

  /** `rcp_lifecycle_field_writable_w_plus`. */
  predicate FieldWritableWPlus(state: State, w: Writer, locked: bool) {
    !locked && FieldWritable(state, FunctionalWStar, w)
  }

  function FieldWriteErrorWPlus(state: State, w: Writer, locked: bool, unset: bool): WriteError {
    if FieldWritableWPlus(state, w, locked) then NoError
    else if locked then LockedMemAccess
    else if !FieldWritableWPlus(state, BestWriter(unset), false) then LockedMemAccess
    else UnauthorizedAccess
  }

  /** The same for a field with a lock of its own, which is a W* field while unlocked. */
  lemma WPlusErrorMeans(state: State, w: Writer, locked: bool, unset: bool)
    ensures var e := FieldWriteErrorWPlus(state, w, locked, unset);
            && (e == NoError <==> FieldWritableWPlus(state, w, locked))
            && (e == LockedMemAccess <==> forall other :: !FieldWritableWPlus(state, other, locked))
            && e == if locked then LockedMemAccess else FieldWriteError(state, FunctionalWStar, w, unset)
  {
    forall other | FieldWritableWPlus(state, other, locked)
      ensures FieldWritableWPlus(state, BestWriter(unset), false)
    {}
  }

  // --- Runs ------------------------------------------------------------------------------

  /** A server and one of its W* fields. */
  datatype Node = Node(state: State, wStar: int)

  const NEW_NODE := Node(HwUnconfigured, 0)

  datatype Op =
    | Request(target: State, snap: Option<Snapshot>, writer: Writer, othersIdle: bool)
    | Write(writer: Writer, value: int)

  ghost function Apply(node: Node, op: Op): Node {
    match op
    case Request(target, snap, w, idle) => node.(state := TransitionStep(node.state, target, snap, w, idle).0)
    case Write(w, value) => if FieldWritable(node.state, FunctionalWStar, w) then node.(wStar := value) else node
  }

  ghost function Run(node: Node, ops: seq<Op>): Node {
    if ops == [] then node else Apply(Run(node, ops[..|ops| - 1]), ops[|ops| - 1])
  }

  /** RCP_CONFIGURED is entered exactly by an authorized request from HW_CONFIGURED with a
      plausible snapshot. */
  ghost predicate Enters(node: Node, op: Op) {
    && node.state.HwConfigured?
    && op.Request? && op.target.RcpConfigured? && Authorized(op.writer)
    && op.snap.Some? && RcpPlausible(op.snap.value)
  }

  /** It is left exactly by an idle request: to either configuration state by the root
      client, or to HW_CONFIGURED by a valid stream association; never by discovery alone. */
  ghost predicate Leaves(op: Op) {
    && op.Request? && op.othersIdle && !op.target.RcpConfigured?
    && (op.writer.rootClientEp0 || (op.target.HwConfigured? && op.writer.validStreamAssociation))
  }

  lemma EntersExactlyWhen(node: Node, op: Op)
    requires !node.state.RcpConfigured?
    ensures Apply(node, op).state.RcpConfigured? <==> Enters(node, op)
  {
    hide RcpPlausible; hide HwPlausible;
  }

  lemma LeavesExactlyWhen(node: Node, op: Op)
    requires node.state.RcpConfigured?
    ensures !Apply(node, op).state.RcpConfigured? <==> Leaves(op)
    ensures Apply(node, op).wStar == node.wStar
  {
    hide RcpPlausible; hide HwPlausible;
  }

  /** From RCP_CONFIGURED, over every run without such a request: the server stays there and
      the W* field keeps its value, whoever writes. */
  lemma {:induction false} ConfiguredIsLocked(node: Node, ops: seq<Op>)
    requires node.state.RcpConfigured? && forall op :: op in ops ==> !Leaves(op)
    ensures Run(node, ops) == node
  {
    if ops != [] {
      ConfiguredIsLocked(node, ops[..|ops| - 1]);
      assert ops[|ops| - 1] in ops;
      hide Leaves;
      LeavesExactlyWhen(node, ops[|ops| - 1]);
    }
  }

  /** The configuration that op `i` of the run installed has been in force ever since. */
  ghost predicate InForceSince(ops: seq<Op>, i: nat) {
    && i < |ops|
    && Enters(Run(NEW_NODE, ops[..i]), ops[i])
    && forall k :: i < k < |ops| ==> !Leaves(ops[k])
  }

  lemma {:induction false} HwConfiguredWasPlausible(ops: seq<Op>)
    requires !Run(NEW_NODE, ops).state.HwUnconfigured?
    ensures exists i :: 0 <= i < |ops| && ops[i].Request? && ops[i].snap.Some? && HwPlausible(ops[i].snap.value)
  {
    var front, op := ops[..|ops| - 1], ops[|ops| - 1];
    if !Run(NEW_NODE, front).state.HwUnconfigured? {
      HwConfiguredWasPlausible(front);
      var i :| 0 <= i < |front| && front[i].Request? && front[i].snap.Some? && HwPlausible(front[i].snap.value);
      assert ops[i] == front[i];
    } else {
      assert op.Request? && op.snap.Some? && HwPlausible(op.snap.value);
    }
  }

  lemma EntryIndex(ops: seq<Op>) returns (i: nat)
    requires Run(NEW_NODE, ops).state.RcpConfigured?
    ensures InForceSince(ops, i)
    ensures Run(NEW_NODE, ops).wStar == Run(NEW_NODE, ops[..i]).wStar
    decreases |ops|
  {
    hide Enters; hide Leaves; hide Apply;
    var front, op := ops[..|ops| - 1], ops[|ops| - 1];
    if Run(NEW_NODE, front).state.RcpConfigured? {
      i := EntryIndex(front);
      LeavesExactlyWhen(Run(NEW_NODE, front), op);
      assert front[..i] == ops[..i];
      forall k | i < k < |ops|
        ensures !Leaves(ops[k])
      {
        if k < |front| { assert front[k] == ops[k]; }
      }
    } else {
      i := |ops| - 1;
      EntersExactlyWhen(Run(NEW_NODE, front), op);
      EnteringKeepsField(Run(NEW_NODE, front), op);
    }
  }

  lemma EnteringKeepsField(node: Node, op: Op)
    requires Enters(node, op)
    ensures Apply(node, op).wStar == node.wStar
  {}

  /** An entry that nothing left since is still in force. */
  lemma EntryHolds(ops: seq<Op>, i: nat)
    requires InForceSince(ops, i)
    ensures Run(NEW_NODE, ops).state.RcpConfigured?
    decreases |ops|
  {
    hide Leaves; hide Apply;
    var front, op := ops[..|ops| - 1], ops[|ops| - 1];
    if i < |front| {
      assert front[..i] == ops[..i];
      assert front[i] == ops[i];
      forall k | i < k < |front|
        ensures !Leaves(front[k])
      {
        assert front[k] == ops[k];
      }
      EntryHolds(front, i);
      LeavesExactlyWhen(Run(NEW_NODE, front), op);
    } else {
      assert ops[..i] == front;
      EntersExactlyWhen(Run(NEW_NODE, front), op);
    }
  }

  /** A run of a new server ends in RCP_CONFIGURED exactly when some authorized request entered
      with a plausible snapshot and nothing left since. */
  lemma ConfiguredExactlyWhen(ops: seq<Op>)
    ensures Run(NEW_NODE, ops).state.RcpConfigured? <==> exists i: nat :: InForceSince(ops, i)
  {
    hide InForceSince;
    if Run(NEW_NODE, ops).state.RcpConfigured? {
      var i := EntryIndex(ops);
    }
    forall i: nat | InForceSince(ops, i)
      ensures Run(NEW_NODE, ops).state.RcpConfigured?
    {
      EntryHolds(ops, i);
    }
  }

  /** Over every run of a new server that ends in RCP_CONFIGURED: some snapshot met the
      hardware rule, some request entered with one that meets the RCP rule and nothing left
      since, and the W* field still has the value it had on entry. */
  lemma ConfiguredOnlyWhenPlausible(ops: seq<Op>)
    requires Run(NEW_NODE, ops).state.RcpConfigured?
    ensures exists i: nat :: InForceSince(ops, i) && Run(NEW_NODE, ops).wStar == Run(NEW_NODE, ops[..i]).wStar
    ensures exists i :: 0 <= i < |ops| && ops[i].Request? && ops[i].snap.Some? && HwPlausible(ops[i].snap.value)
  {
    HwConfiguredWasPlausible(ops);
    hide InForceSince; hide HwPlausible;
    var i := EntryIndex(ops);
  }

  // --- In and out of HW_UNCONFIGURED -----------------------------------------------------

  /** The hardware is configured. */
  ghost predicate Configures(node: Node, op: Op) {
    && node.state == HwUnconfigured
    && op.Request? && op.target == HwConfigured && op.snap.Some? && HwPlausible(op.snap.value)
  }

  /** The server is reset to HW_UNCONFIGURED, all others idle: by anyone authorized from
      HW_CONFIGURED, by the root client from RCP_CONFIGURED. */
  ghost predicate Resets(node: Node, op: Op) {
    && op.Request? && op.target == HwUnconfigured && op.othersIdle
    && (|| (node.state == HwConfigured && Authorized(op.writer))
        || (node.state == RcpConfigured && op.writer.rootClientEp0))
  }

  lemma HardwareStep(node: Node, op: Op)
    ensures Apply(node, op).state != HwUnconfigured <==>
              Configures(node, op) || (node.state != HwUnconfigured && !Resets(node, op))
  {
    hide HwPlausible; hide RcpPlausible;
  }

  /** Op `i` of the run configured the hardware, and nothing reset it since. */
  ghost predicate HardwareSince(ops: seq<Op>, i: nat) {
    && i < |ops|
    && Configures(Run(NEW_NODE, ops[..i]), ops[i])
    && forall k :: i < k < |ops| ==> !Resets(Run(NEW_NODE, ops[..k]), ops[k])
  }

  ghost predicate HardwareConfigured(ops: seq<Op>) {
    exists i: nat :: HardwareSince(ops, i)
  }

  lemma HardwareSnoc(ops: seq<Op>)
    requires ops != []
    ensures var front, last := ops[..|ops| - 1], ops[|ops| - 1];
            HardwareConfigured(ops) <==>
              Configures(Run(NEW_NODE, front), last)
              || (HardwareConfigured(front) && !Resets(Run(NEW_NODE, front), last))
  {
    hide Configures; hide Resets; hide Run;
    var n := |ops| - 1;
    var front, last := ops[..n], ops[n];
    forall k | 0 <= k <= n
      ensures ops[..k] == front[..k]
    {}
    if Configures(Run(NEW_NODE, front), last) {
      assert HardwareSince(ops, n);
    }
    if HardwareConfigured(front) && !Resets(Run(NEW_NODE, front), last) {
      var i: nat :| HardwareSince(front, i);
      assert HardwareSince(ops, i);
    }
    if HardwareConfigured(ops) {
      var i: nat :| HardwareSince(ops, i);
      assert i < n ==> HardwareSince(front, i);
    }
  }

  /** A run of a new server ends outside HW_UNCONFIGURED exactly when some request configured
      the hardware with a plausible snapshot and nothing reset it since. */
  lemma {:induction false} HardwareExactlyWhen(ops: seq<Op>)
    ensures Run(NEW_NODE, ops).state != HwUnconfigured <==> exists i: nat :: HardwareSince(ops, i)
  {
    hide HardwareSince; hide Configures; hide Resets; hide Apply;
    if ops == [] {
      NoHardwareYet();
    } else {
      var front, last := ops[..|ops| - 1], ops[|ops| - 1];
      HardwareExactlyWhen(front);
      HardwareSnoc(ops);
      HardwareStep(Run(NEW_NODE, front), last);
      assert HardwareConfigured(front) <==> exists i: nat :: HardwareSince(front, i);
      assert HardwareConfigured(ops) <==> exists i: nat :: HardwareSince(ops, i);
    }
  }

  lemma NoHardwareYet()
    ensures !HardwareConfigured([])
  {}
}
