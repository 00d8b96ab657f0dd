/**
 The receive/close protocol as a step system: one receiver thread, one controller thread, the shared
 list lock, the callback lock, and the fields they protect. A step is what a thread does between two
 points where the other thread can interfere.
 */
module Protocol {
  import opened Common
  import S = SocketState

  datatype Outcome = Delivered | Fails(error: S.Error)

  /** Where the receiver is; the names say what it does next. */
  datatype Receiver =
    | RIdle
    | RLockLists
    | RLockCallback
    | RCheckClosed
    | RCheckBound
    | RPoll(next: nat, received: bool)
    | RHandle(device: nat)
    | RUnlockCallback(any: bool)
    | RDeadline
    | RWait
    | RUnwindCallback(outcome: Outcome)
    | RUnwindLists(outcome: Outcome)

  datatype Close =
    | LockShared | LockCallback | SetClosed | CloseHandle(next: nat) | UnlockCallback | UnlockShared
    | LockExclusive | ClearDevices | ClearEvents | ClearReassemblies | UnlockExclusive | Unbind

  datatype Bind =
    | TakeLists | OpenNext | PushEvent(handle: nat) | PushReassembly(handle: nat)
    | SetBound | ClearClosed | SetFilter(next: nat) | ReleaseLists

  /** The controller is in close, in bind, or in a call that changes the filters only. */
  datatype Controller = CIdle | Closing(close: Close) | Binding(bind: Bind) | Filtering(next: nat)

  datatype Owner = Nobody | TheReceiver | TheController

  datatype Locks = Locks(receiverShares: bool, controllerShares: bool, controllerExcludes: bool, callback: Owner)

  /**
   The socket's fields, and the driver's handles: those created, those of them still open, and those that
   carry the filter of the present configuration.
   */
  datatype Shared = Shared(closed: bool, bound: bool, devices: seq<nat>, events: seq<nat>, reassemblies: seq<nat>,
                           open: set<nat>, created: nat, filtered: set<nat>)

  /** pcap_next_ex: NotActivated only comes from a handle that is not open. */
  datatype Answer = NoPacket | Packet | Fault | NotActivated

  /**
   The history of receive calls, which no branch reads. The `started` fields are what the latest call
   found; `pass` are the answers in the latest pass over the devices.
   */
  datatype History = History(calls: nat, delivered: nat, last: Option<Outcome>,
                             startedBound: bool, startedClosed: bool, startedDelivered: nat, pass: seq<Answer>)

  datatype State = State(r: Receiver, c: Controller, l: Locks, f: Shared, h: History)

  const START := State(RIdle, CIdle, Locks(false, false, false, Nobody),
                       Shared(false, false, [], [], [], {}, 0, {}), History(0, 0, None, false, false, 0, []))

  datatype Action =
    | Receive
    | Go
    | PollAnswer(answer: Answer)
    | Handled(accepted: bool)
    | DeadlinePassed(passed: bool)
    | Wake(timedOut: bool)
    | CallClose | CallBind | CallConfigure
    | Control
    | OpenDevice
    | EndOpening(ok: bool)

  predicate IsReceiverAction(a: Action) {
    a.Receive? || a.Go? || a.PollAnswer? || a.Handled? || a.DeadlinePassed? || a.Wake?
  }

  // The receiver

  /** Steps of the receiver that depend on locks and flags only. */
  function Advance(s: State): Option<State> {
    match s.r
    case RLockLists =>
      if s.l.controllerExcludes then None else Some(s.(r := RLockCallback, l := s.l.(receiverShares := true)))
    case RLockCallback =>
      if s.l.callback != Nobody then None else Some(s.(r := RCheckClosed, l := s.l.(callback := TheReceiver)))
    case RCheckClosed => Some(s.(r := if s.f.closed then RUnwindCallback(Fails(S.SocketClosed)) else RCheckBound))
    case RCheckBound =>
      Some(s.(r := if s.f.bound then RPoll(0, false) else RUnwindCallback(Fails(S.NotBound)), h := s.h.(pass := [])))
    case RPoll(i, received) => if i < |s.f.devices| then None else Some(s.(r := RUnlockCallback(received)))
    case RUnlockCallback(any) =>
      Some(s.(r := if any then RLockCallback else RDeadline, l := s.l.(callback := Nobody)))
    case RUnwindCallback(o) => Some(s.(r := RUnwindLists(o), l := s.l.(callback := Nobody)))
    case RUnwindLists(o) =>
      Some(s.(r := RIdle, l := s.l.(receiverShares := false), h := s.h.(last := Some(o))))
    case _ => None
  }

  function ReceiverStep(s: State, a: Action): Option<State> {
    match a
    case Receive =>
      // Documented discipline: no receive call while another thread binds.
      if !s.r.RIdle? || s.c.Binding? then None
      else
        Some(s.(r := RLockLists,
                h := s.h.(calls := s.h.calls + 1, startedBound := s.f.bound, startedClosed := s.f.closed,
                          startedDelivered := s.h.delivered)))
    case Go => Advance(s)
    case PollAnswer(answer) =>
      if !s.r.RPoll? || |s.f.devices| <= s.r.next then None
      else if answer.NotActivated? && s.f.devices[s.r.next] in s.f.open then None
      else Some(s.(h := s.h.(pass := s.h.pass + [answer]),
                   r := match answer
                        case NoPacket => RPoll(s.r.next + 1, s.r.received)
                        case Packet => RHandle(s.r.next)
                        case Fault => RUnwindCallback(Fails(S.GenericError))
                        case NotActivated => RUnwindCallback(Fails(S.NotBound))))
    case Handled(accepted) =>
      if !s.r.RHandle? then None
      else if accepted then Some(s.(r := RUnwindCallback(Delivered), h := s.h.(delivered := s.h.delivered + 1)))
      else Some(s.(r := RPoll(s.r.device + 1, true)))
    case DeadlinePassed(passed) =>
      if !s.r.RDeadline? then None else Some(s.(r := if passed then RUnwindLists(Fails(S.Timeout)) else RWait))
    case Wake(timedOut) =>
      if !s.r.RWait? then None else Some(s.(r := if timedOut then RUnwindLists(Fails(S.Timeout)) else RLockCallback))
    case _ => None
  }

  // The controller

  function CloseStep(s: State, k: Close): Option<State> {
    match k
    case LockShared => Some(s.(c := Closing(LockCallback), l := s.l.(controllerShares := true)))
    case LockCallback =>
      if s.l.callback != Nobody then None else Some(s.(c := Closing(SetClosed), l := s.l.(callback := TheController)))
    case SetClosed => Some(s.(c := Closing(CloseHandle(0)), f := s.f.(closed := true)))
    case CloseHandle(i) =>
      if i < |s.f.devices|
      then Some(s.(c := Closing(CloseHandle(i + 1)), f := s.f.(open := s.f.open - {s.f.devices[i]})))
      else Some(s.(c := Closing(UnlockCallback)))
    case UnlockCallback => Some(s.(c := Closing(UnlockShared), l := s.l.(callback := Nobody)))
    case UnlockShared => Some(s.(c := Closing(LockExclusive), l := s.l.(controllerShares := false)))
    case LockExclusive =>
      if s.l.receiverShares then None else Some(s.(c := Closing(ClearDevices), l := s.l.(controllerExcludes := true)))
    case ClearDevices => Some(s.(c := Closing(ClearEvents), f := s.f.(devices := [])))
    case ClearEvents => Some(s.(c := Closing(ClearReassemblies), f := s.f.(events := [])))
    case ClearReassemblies => Some(s.(c := Closing(UnlockExclusive), f := s.f.(reassemblies := [])))
    case UnlockExclusive => Some(s.(c := Closing(Unbind), l := s.l.(controllerExcludes := false)))
    case Unbind => Some(s.(c := CIdle, f := s.f.(bound := false)))
  }

  /** Install the filter on the i-th device; without a bound address there is no filter to install. */
  function WithFilter(f: Shared, i: nat): Shared
    requires i < |f.devices|
  {
    if f.bound then f.(filtered := f.filtered + {f.devices[i]}) else f
  }

  function BindStep(s: State, k: Bind): Option<State> {
    match k
    case TakeLists =>
      if s.l.receiverShares then None else Some(s.(c := Binding(OpenNext), l := s.l.(controllerExcludes := true)))
    case OpenNext => None
    case PushEvent(h) => Some(s.(c := Binding(PushReassembly(h)), f := s.f.(events := s.f.events + [h])))
    case PushReassembly(h) => Some(s.(c := Binding(OpenNext), f := s.f.(reassemblies := s.f.reassemblies + [h])))
    case SetBound => Some(s.(c := Binding(ClearClosed), f := s.f.(bound := true, filtered := {})))
    case ClearClosed => Some(s.(c := Binding(SetFilter(0)), f := s.f.(closed := false)))
    case SetFilter(i) =>
      if i < |s.f.devices| then Some(s.(c := Binding(SetFilter(i + 1)), f := WithFilter(s.f, i)))
      else Some(s.(c := Binding(ReleaseLists)))
    case ReleaseLists => Some(s.(c := CIdle, l := s.l.(controllerExcludes := false)))
  }

  function ControllerStep(s: State, a: Action): Option<State> {
    match a
    case CallClose => if s.c.CIdle? then Some(s.(c := Closing(LockShared))) else None
    case CallBind =>
      // Documented discipline: no bind during a receive call. A bound socket refuses before any lock.
      if s.c.CIdle? && s.r.RIdle? && !s.f.bound then Some(s.(c := Binding(TakeLists))) else None
    case CallConfigure => if s.c.CIdle? then Some(s.(c := Filtering(0), f := s.f.(filtered := {}))) else None
    case Control =>
      (match s.c
       case CIdle => None
       case Closing(k) => CloseStep(s, k)
       case Binding(k) => BindStep(s, k)
       case Filtering(i) =>
         if i < |s.f.devices| then Some(s.(c := Filtering(i + 1), f := WithFilter(s.f, i))) else Some(s.(c := CIdle)))
    case OpenDevice =>
      if s.c != Binding(OpenNext) then None
      else Some(s.(c := Binding(PushEvent(s.f.created)),
                   f := s.f.(devices := s.f.devices + [s.f.created], open := s.f.open + {s.f.created},
                             created := s.f.created + 1)))
    case EndOpening(ok) =>
      if s.c != Binding(OpenNext) then None else Some(s.(c := Binding(if ok then SetBound else ReleaseLists)))
    case _ => None
  }

  /** One interleaved step; None when the action cannot be taken. */
  function Step(s: State, a: Action): Option<State> {
    if IsReceiverAction(a) then ReceiverStep(s, a) else ControllerStep(s, a)
  }

  // The inductive invariant

  /** The outcome of the call is settled; only locks remain to be released. */
  predicate Decided(r: Receiver) {
    r.RUnwindCallback? || r.RUnwindLists?
  }

  predicate HoldsLists(r: Receiver) {
    !r.RIdle? && !r.RLockLists?
  }

  predicate HoldsCallback(r: Receiver) {
    r.RCheckClosed? || r.RCheckBound? || r.RPoll? || r.RHandle? || r.RUnlockCallback? || r.RUnwindCallback?
  }

  predicate ClosingHandles(c: Controller) {
    c.Closing? && (c.close.SetClosed? || c.close.CloseHandle? || c.close.UnlockCallback?)
  }

  predicate SharesLists(c: Controller) {
    c.Closing? && (c.close.LockCallback? || ClosingHandles(c) || c.close.UnlockShared?)
  }

  predicate ExcludesOthers(c: Controller) {
    || (c.Closing? && (c.close.ClearDevices? || c.close.ClearEvents? || c.close.ClearReassemblies? || c.close.UnlockExclusive?))
    || (c.Binding? && !c.bind.TakeLists?)
  }

  /** The close in progress has set the closed flag. */
  predicate FlagSet(c: Controller) {
    c.Closing? && !c.close.LockShared? && !c.close.LockCallback? && !c.close.SetClosed?
  }

  /** The handles of the listed devices may be closed: close has begun to release them and not yet cleared the list. */
  predicate Releasing(c: Controller) {
    c.Closing? && (c.close.CloseHandle? || c.close.UnlockCallback? || c.close.UnlockShared? || c.close.LockExclusive?
                   || c.close.ClearDevices?)
  }

  predicate LocksOk(r: Receiver, c: Controller, l: Locks) {
    && l.receiverShares == HoldsLists(r)
    && l.controllerShares == SharesLists(c)
    && l.controllerExcludes == ExcludesOthers(c)
    && (l.callback == TheReceiver <==> HoldsCallback(r))
    && (l.callback == TheController <==> ClosingHandles(c))
    && !(l.receiverShares && l.controllerExcludes)
    && (c.Binding? ==> r.RIdle?)
  }

  predicate OpenFrom(f: Shared, k: nat) {
    forall i | k <= i < |f.devices| :: f.devices[i] in f.open
  }

  predicate AllOpen(f: Shared) {
    OpenFrom(f, 0)
  }

  predicate ClosedUpTo(f: Shared, k: nat) {
    forall i | 0 <= i < k && i < |f.devices| :: f.devices[i] !in f.open
  }

  /** Exactly the listed handles are open, but while close releases them. */
  predicate HandlesOk(c: Controller, f: Shared) {
    && Distinct(f.devices)
    && (forall h | h in f.devices :: h < f.created)
    && (forall h | h in f.open :: h in f.devices)
    && (if !Releasing(c) then AllOpen(f)
        else if c.close.CloseHandle? then
          c.close.next <= |f.devices| && OpenFrom(f, c.close.next) && ClosedUpTo(f, c.close.next)
        else f.open == {})
  }

  predicate ListsOk(c: Controller, f: Shared) {
    if c == Closing(ClearEvents) then f.devices == [] && f.events == f.reassemblies
    else if c == Closing(ClearReassemblies) then f.devices == [] == f.events
    else if c == Closing(UnlockExclusive) || c == Closing(Unbind) then f.devices == f.events == f.reassemblies == []
    else if c.Binding? && c.bind.PushEvent? then f.devices == f.events + [c.bind.handle] && f.events == f.reassemblies
    else if c.Binding? && c.bind.PushReassembly? then f.devices == f.events == f.reassemblies + [c.bind.handle]
    else f.devices == f.events == f.reassemblies
  }

  predicate FlagsOk(c: Controller, f: Shared) {
    && (FlagSet(c) ==> f.closed)
    && (f.closed && f.bound ==> FlagSet(c) || c == Binding(ClearClosed))
    && (c.Binding? && !c.bind.ClearClosed? && !c.bind.SetFilter? && !c.bind.ReleaseLists? ==> !f.bound)
  }

  predicate ReceiverOk(r: Receiver, f: Shared) {
    && (r.RPoll? || r.RHandle? || r.RUnlockCallback? || r.RCheckBound? ==> !f.closed)
    && (r.RPoll? || r.RHandle? || r.RUnlockCallback? ==> f.bound)
    && (r.RPoll? ==> r.next <= |f.devices|)
    && (r.RHandle? ==> r.device < |f.devices|)
    && (r.RUnwindCallback? && f.closed ==> r.outcome == Fails(S.SocketClosed))
  }

  /** A call that finds the socket unbound began when it was neither bound nor closed. */
  predicate HistoryOk(r: Receiver, f: Shared, h: History) {
    && (!r.RIdle? && (h.startedBound || h.startedClosed) ==> f.bound || f.closed)
    && (Decided(r) && r.outcome == Fails(S.NotBound) ==> !h.startedBound && !h.startedClosed)
    && (r.RIdle? && h.last == Some(Fails(S.NotBound)) ==> !h.startedBound && !h.startedClosed)
  }

  predicate FilteredUpTo(f: Shared, k: nat) {
    k <= |f.devices| && forall i | 0 <= i < k :: f.devices[i] in f.filtered
  }

  /** Between calls every listed device of a bound socket carries the present filter; within one, those already visited. */
  predicate FiltersOk(c: Controller, f: Shared) {
    && (c.CIdle? && f.bound ==> FilteredUpTo(f, |f.devices|))
    && (c.Filtering? ==> c.next <= |f.devices| && (f.bound ==> FilteredUpTo(f, c.next)))
    && (c.Binding? && c.bind.SetFilter? ==> f.bound && FilteredUpTo(f, c.bind.next))
    && (c.Binding? && c.bind.ClearClosed? ==> f.bound)
    && (c.Binding? && c.bind.ReleaseLists? && f.bound ==> FilteredUpTo(f, |f.devices|))
  }

  predicate Clean(pass: seq<Answer>) {
    forall i | 0 <= i < |pass| :: pass[i] == NoPacket || pass[i] == Packet
  }

  /** A pass that goes on has had no error and remembers packets; a wait follows a whole pass without any. */
  predicate PassOk(r: Receiver, f: Shared, h: History) {
    && (r.RPoll? ==> |h.pass| == r.next && Clean(h.pass) && (r.received <==> Packet in h.pass))
    && (r.RHandle? ==> |h.pass| == r.device + 1 && Clean(h.pass) && h.pass[r.device] == Packet)
    && (r.RUnlockCallback? ==> |h.pass| == |f.devices| && Clean(h.pass) && (r.any <==> Packet in h.pass))
    && (r.RDeadline? || r.RWait? ==> |h.pass| == |f.devices| && Clean(h.pass) && Packet !in h.pass)
  }

  /** A call counts one delivery exactly when its outcome is one. */
  predicate DeliveryOk(r: Receiver, h: History) {
    if Decided(r) then h.delivered == h.startedDelivered + (if r.outcome.Delivered? then 1 else 0)
    else if !r.RIdle? then h.delivered == h.startedDelivered
    else h.last.Some? ==> h.delivered == h.startedDelivered + (if h.last.value.Delivered? then 1 else 0)
  }

  predicate Inv(s: State) {
    && LocksOk(s.r, s.c, s.l)
    && HandlesOk(s.c, s.f)
    && ListsOk(s.c, s.f)
    && FlagsOk(s.c, s.f)
    && ReceiverOk(s.r, s.f)
    && HistoryOk(s.r, s.f, s.h)
    && PassOk(s.r, s.f, s.h)
    && DeliveryOk(s.r, s.h)
    && FiltersOk(s.c, s.f)
  }

  // Every step keeps it, one part at a time

  lemma ReceiverFrame(s: State, a: Action)
    requires IsReceiverAction(a) && Step(s, a).Some?
    ensures Step(s, a).value.c == s.c && Step(s, a).value.f == s.f
  {
  }

  lemma ReceiverKeepsLocks(s: State, a: Action)
    requires LocksOk(s.r, s.c, s.l) && IsReceiverAction(a) && Step(s, a).Some?
    ensures var t := Step(s, a).value; LocksOk(t.r, t.c, t.l)
  {
  }

  lemma ReceiverKeepsReceiver(s: State, a: Action)
    requires Inv(s) && IsReceiverAction(a) && Step(s, a).Some?
    ensures var t := Step(s, a).value; ReceiverOk(t.r, t.f)
  {
  }

  lemma ReceiverKeepsHistory(s: State, a: Action)
    requires Inv(s) && IsReceiverAction(a) && Step(s, a).Some?
    ensures var t := Step(s, a).value; HistoryOk(t.r, t.f, t.h)
  {
  }

  lemma ReceiverKeepsPass(s: State, a: Action)
    requires PassOk(s.r, s.f, s.h) && ReceiverOk(s.r, s.f) && IsReceiverAction(a) && Step(s, a).Some?
    ensures var t := Step(s, a).value; PassOk(t.r, t.f, t.h)
  {
    if a.PollAnswer? {
      assert Packet in s.h.pass + [a.answer] <==> Packet in s.h.pass || a.answer == Packet;
    }
  }

  lemma ReceiverKeepsDelivery(s: State, a: Action)
    requires DeliveryOk(s.r, s.h) && IsReceiverAction(a) && Step(s, a).Some?
    ensures var t := Step(s, a).value; DeliveryOk(t.r, t.h)
  {
  }

  lemma ControllerKeepsFilters(s: State, a: Action)
    requires FlagsOk(s.c, s.f) && FiltersOk(s.c, s.f) && !IsReceiverAction(a) && Step(s, a).Some?
    ensures var t := Step(s, a).value; FiltersOk(t.c, t.f)
  {
  }

  lemma ControllerKeepsPass(s: State, a: Action)
    requires LocksOk(s.r, s.c, s.l) && PassOk(s.r, s.f, s.h) && !IsReceiverAction(a) && Step(s, a).Some?
    ensures var t := Step(s, a).value; PassOk(t.r, t.f, t.h)
  {
    ControllerFrame(s, a);
  }

  lemma ControllerFrame(s: State, a: Action)
    requires !IsReceiverAction(a) && Step(s, a).Some?
    ensures Step(s, a).value.r == s.r && Step(s, a).value.h == s.h
    ensures LocksOk(s.r, s.c, s.l) && HoldsLists(s.r) ==> Step(s, a).value.f.devices == s.f.devices
  {
  }

  lemma ControllerKeepsLocks(s: State, a: Action)
    requires LocksOk(s.r, s.c, s.l) && !IsReceiverAction(a) && Step(s, a).Some?
    ensures var t := Step(s, a).value; LocksOk(t.r, t.c, t.l)
  {
  }

  lemma ControllerKeepsFlags(s: State, a: Action)
    requires FlagsOk(s.c, s.f) && !IsReceiverAction(a) && Step(s, a).Some?
    ensures var t := Step(s, a).value; FlagsOk(t.c, t.f)
  {
  }

  lemma ControllerKeepsLists(s: State, a: Action)
    requires ListsOk(s.c, s.f) && !IsReceiverAction(a) && Step(s, a).Some?
    ensures var t := Step(s, a).value; ListsOk(t.c, t.f)
  {
  }

  lemma ReleaseKeepsHandles(c: Controller, f: Shared)
    requires HandlesOk(c, f) && c.Closing? && c.close.CloseHandle? && c.close.next < |f.devices|
    ensures HandlesOk(Closing(CloseHandle(c.close.next + 1)), f.(open := f.open - {f.devices[c.close.next]}))
  {
  }

  lemma OpeningKeepsHandles(c: Controller, f: Shared, d: Controller)
    requires HandlesOk(c, f) && !Releasing(c) && !Releasing(d)
    ensures HandlesOk(d, f.(devices := f.devices + [f.created], open := f.open + {f.created}, created := f.created + 1))
  {
  }

  lemma AllReleased(c: Controller, f: Shared)
    requires HandlesOk(c, f) && c.Closing? && c.close.CloseHandle? && |f.devices| <= c.close.next
    ensures f.open == {}
  {
  }

  predicate SameHandles(f: Shared, g: Shared) {
    f.devices == g.devices && f.open == g.open && f.created == g.created
  }

  /** The list is cleared only when everything on it has been released. */
  lemma OtherStepsFrame(s: State, a: Action)
    requires !IsReceiverAction(a) && Step(s, a).Some? && !a.OpenDevice?
    requires !(a.Control? && s.c.Closing? && s.c.close.CloseHandle?)
    ensures var t := Step(s, a).value;
      || (SameHandles(s.f, t.f) && Releasing(s.c) == Releasing(t.c) && (t.c.Closing? ==> !t.c.close.CloseHandle?))
      || (SameHandles(s.f, t.f) && !Releasing(s.c) && t.c == Closing(CloseHandle(0)))
      || (s.c == Closing(ClearDevices) && t.c == Closing(ClearEvents) && t.f == s.f.(devices := []))
  {
  }

  lemma OtherStepsKeepHandles(s: State, a: Action)
    requires HandlesOk(s.c, s.f) && !IsReceiverAction(a) && Step(s, a).Some? && !a.OpenDevice?
    requires !(a.Control? && s.c.Closing? && s.c.close.CloseHandle?)
    ensures var t := Step(s, a).value; HandlesOk(t.c, t.f)
  {
    OtherStepsFrame(s, a);
  }

  lemma ControllerKeepsHandles(s: State, a: Action)
    requires HandlesOk(s.c, s.f) && !IsReceiverAction(a) && Step(s, a).Some?
    ensures var t := Step(s, a).value; HandlesOk(t.c, t.f)
  {
    if a.OpenDevice? {
      OpeningKeepsHandles(s.c, s.f, Step(s, a).value.c);
    } else if a.Control? && s.c.Closing? && s.c.close.CloseHandle? {
      if s.c.close.next < |s.f.devices| {
        ReleaseKeepsHandles(s.c, s.f);
      } else {
        AllReleased(s.c, s.f);
      }
    } else {
      OtherStepsKeepHandles(s, a);
    }
  }

  lemma ControllerKeepsReceiver(s: State, a: Action)
    requires Inv(s) && !IsReceiverAction(a) && Step(s, a).Some?
    ensures var t := Step(s, a).value; ReceiverOk(t.r, t.f) && HistoryOk(t.r, t.f, t.h)
  {
  }

  lemma StepKeepsInv(s: State, a: Action)
    requires Inv(s) && Step(s, a).Some?
    ensures Inv(Step(s, a).value)
  {
    if IsReceiverAction(a) {
      ReceiverFrame(s, a);
      ReceiverKeepsLocks(s, a);
      ReceiverKeepsReceiver(s, a);
      ReceiverKeepsHistory(s, a);
      ReceiverKeepsPass(s, a);
      ReceiverKeepsDelivery(s, a);
    } else {
      ControllerKeepsLocks(s, a);
      ControllerKeepsFlags(s, a);
      ControllerKeepsLists(s, a);
      ControllerKeepsHandles(s, a);
      ControllerKeepsReceiver(s, a);
      ControllerKeepsPass(s, a);
      ControllerKeepsFilters(s, a);
      ControllerFrame(s, a);
    }
  }

  // Runs

  function Run(s: State, run: seq<Action>): Option<State>
    decreases |run|
  {
    if run == [] then Some(s)
    else match Step(s, run[0])
      case None => None
      case Some(t) => Run(t, run[1..])
  }

  lemma {:induction false} RunKeepsInv(s: State, run: seq<Action>)
    requires Inv(s) && Run(s, run).Some?
    ensures Inv(Run(s, run).value)
    decreases |run|
  {
    if run != [] {
      StepKeepsInv(s, run[0]);
      RunKeepsInv(Step(s, run[0]).value, run[1..]);
    }
  }

  // No handle is used after its release

  /** What the threads do with handles and lists in the next step. */
  predicate Safe(s: State) {
    // The receiver polls, or reads a packet of, a listed device that is open.
    && (s.r.RPoll? || s.r.RHandle? ==> AllOpen(s.f))
    && (s.r.RHandle? ==> s.r.device < |s.f.devices|)
    // It waits for the events of the devices it has polled.
    && (s.r.RDeadline? || s.r.RWait? ==> s.f.devices == s.f.events == s.f.reassemblies)
    // It waits only after a whole pass has found every device empty.
    && (s.r.RDeadline? || s.r.RWait? ==>
          |s.h.pass| == |s.f.devices| && forall i | 0 <= i < |s.h.pass| :: s.h.pass[i] == NoPacket)
    // close releases open handles only, never the same one twice.
    && (s.c.Closing? && s.c.close.CloseHandle? && s.c.close.next < |s.f.devices| ==> s.f.devices[s.c.close.next] in s.f.open)
    // Filters are installed on open handles only.
    && (s.c.Filtering? || (s.c.Binding? && s.c.bind.SetFilter?) ==> AllOpen(s.f))
    // At rest every listed device of a bound socket carries the filter of the present configuration.
    && (s.c.CIdle? && s.f.bound ==> forall i | 0 <= i < |s.f.devices| :: s.f.devices[i] in s.f.filtered)
    // At rest the open handles are those of the list, each once; after a close there are none.
    && (s.c.CIdle? ==> s.f.open == Members(s.f.devices) && Distinct(s.f.devices) && s.f.devices == s.f.events == s.f.reassemblies)
    && (s.c == Closing(Unbind) ==> s.f.open == {} && s.f.devices == s.f.events == s.f.reassemblies == [])
    // Bound and closed never hold together at rest.
    && (s.c.CIdle? ==> !(s.f.bound && s.f.closed))
  }

  lemma InvIsSafe(s: State)
    requires Inv(s)
    ensures Safe(s)
  {
  }

  lemma ReachableIsSafe(run: seq<Action>)
    requires Run(START, run).Some?
    ensures Safe(Run(START, run).value)
  {
    RunKeepsInv(START, run);
    InvIsSafe(Run(START, run).value);
  }

  // Every created handle is open or has been released exactly once

  function Released(s: State, a: Action): Option<nat> {
    if a.Control? && s.c.Closing? && s.c.close.CloseHandle? && s.c.close.next < |s.f.devices|
    then Some(s.f.devices[s.c.close.next])
    else None
  }

  /** How often a run calls pcap_close on a handle. */
  function Releases(s: State, run: seq<Action>, handle: nat): nat
    requires Run(s, run).Some?
    decreases |run|
  {
    if run == [] then 0
    else (if Released(s, run[0]) == Some(handle) then 1 else 0) + Releases(Step(s, run[0]).value, run[1..], handle)
  }

  predicate IsGone(f: Shared, handle: nat) {
    handle < f.created && handle !in f.open
  }

  lemma ReleaseStep(s: State, a: Action, handle: nat)
    requires Inv(s) && Step(s, a).Some?
    ensures var t := Step(s, a).value;
      IsGone(t.f, handle) <==> IsGone(s.f, handle) || Released(s, a) == Some(handle)
    ensures Released(s, a) == Some(handle) ==> !IsGone(s.f, handle)
  {
  }

  lemma {:induction false} ReleasedAtMostOnce(s: State, run: seq<Action>, handle: nat)
    requires Inv(s) && Run(s, run).Some?
    ensures Releases(s, run, handle) ==
      (if IsGone(Run(s, run).value.f, handle) then 1 else 0) - (if IsGone(s.f, handle) then 1 else 0)
    decreases |run|
  {
    if run != [] {
      StepKeepsInv(s, run[0]);
      ReleaseStep(s, run[0], handle);
      ReleasedAtMostOnce(Step(s, run[0]).value, run[1..], handle);
    }
  }

  /** At rest every handle ever created is in the list once and open, or has been released exactly once. */
  lemma HandlesConserved(run: seq<Action>, handle: nat)
    requires Run(START, run).Some?
    requires var t := Run(START, run).value; t.c.CIdle? && handle < t.f.created
    ensures Distinct(Run(START, run).value.f.devices)
    ensures Releases(START, run, handle) == if handle in Run(START, run).value.f.devices then 0 else 1
  {
    ReachableIsSafe(run);
    ReleasedAtMostOnce(START, run, handle);
  }

  // Within one receive call

  predicate SameLists(f: Shared, g: Shared) {
    f.devices == g.devices && f.events == g.events && f.reassemblies == g.reassemblies
  }

  lemma {:induction false} CallsNeverDecrease(s: State, run: seq<Action>)
    requires Run(s, run).Some?
    ensures var t := Run(s, run).value;
      s.h.calls <= t.h.calls && (s.r.RIdle? && t.h.calls == s.h.calls ==> t.r.RIdle? && t.h == s.h)
    decreases |run|
  {
    if run != [] {
      CallsNeverDecrease(Step(s, run[0]).value, run[1..]);
    }
  }

  lemma SharedListsStay(s: State, a: Action)
    requires Inv(s) && HoldsLists(s.r) && Step(s, a).Some?
    ensures var t := Step(s, a).value; SameLists(s.f, t.f) && (t.r.RIdle? || HoldsLists(t.r))
  {
  }

  /** From taking the list lock to the return of the call the three lists are the same, whatever the controller does. */
  lemma {:induction false} ListsStayForTheCall(s: State, run: seq<Action>)
    requires Inv(s) && HoldsLists(s.r) && Run(s, run).Some?
    requires var t := Run(s, run).value; t.h.calls == s.h.calls && !t.r.RIdle?
    ensures SameLists(s.f, Run(s, run).value.f)
    decreases |run|
  {
    if run != [] {
      var next := Step(s, run[0]).value;
      StepKeepsInv(s, run[0]);
      SharedListsStay(s, run[0]);
      CallsNeverDecrease(s, run[..1]);
      CallsNeverDecrease(next, run[1..]);
      ListsStayForTheCall(next, run[1..]);
    }
  }

  // After the closed flag is set

  /** How a call can still end once the socket is closed: only a wait already begun can run out first. */
  function Fate(r: Receiver): set<Outcome> {
    if r.RUnwindCallback? || r.RUnwindLists? then {r.outcome}
    else if r.RDeadline? || r.RWait? then {Fails(S.SocketClosed), Fails(S.Timeout)}
    else {Fails(S.SocketClosed)}
  }

  /** An upper bound on the steps of a call that remain once the socket is closed. */
  function Rank(r: Receiver): nat {
    match r
    case RIdle => 0
    case RUnwindLists(_) => 1
    case RUnwindCallback(_) => 2
    case RCheckClosed => 3
    case RLockCallback => 4
    case RLockLists => 5
    case RWait => 5
    case RDeadline => 6
    case _ => 7
  }

  function ReceiverSteps(run: seq<Action>): nat {
    if run == [] then 0 else (if IsReceiverAction(run[0]) then 1 else 0) + ReceiverSteps(run[1..])
  }

  lemma ClosedStep(s: State, a: Action)
    requires Inv(s) && s.f.closed && !s.r.RIdle? && Step(s, a).Some?
    ensures var t := Step(s, a).value;
      && t.f.closed && t.h.calls == s.h.calls && t.h.delivered == s.h.delivered
      && (if t.r.RIdle? then t.h.last.Some? && t.h.last.value in Fate(s.r) else Fate(t.r) <= Fate(s.r))
      && (if IsReceiverAction(a) then Rank(t.r) < Rank(s.r) else t.r == s.r)
  {
  }

  /**
   Once the closed flag is set, a receive call delivers nothing more, makes at most six more steps, and
   ends with SOCKET_CLOSED, or with TIMEOUT if it was past the check; never with NOT_BOUND unless that
   had been decided before.
   */
  lemma {:induction false} ClosedCallEnds(s: State, run: seq<Action>)
    requires Inv(s) && s.f.closed && !s.r.RIdle? && Run(s, run).Some? && Run(s, run).value.h.calls == s.h.calls
    ensures var t := Run(s, run).value;
      && t.h.delivered == s.h.delivered
      && (if t.r.RIdle? then t.h.last.Some? && t.h.last.value in Fate(s.r) else t.f.closed)
      && ReceiverSteps(run) + Rank(t.r) <= Rank(s.r)
    decreases |run|
  {
    if run != [] {
      var next := Step(s, run[0]).value;
      StepKeepsInv(s, run[0]);
      ClosedStep(s, run[0]);
      if next.r.RIdle? {
        CallsNeverDecrease(next, run[1..]);
        IdleTakesNoSteps(next, run[1..]);
      } else {
        ClosedCallEnds(next, run[1..]);
      }
    }
  }

  lemma {:induction false} IdleTakesNoSteps(s: State, run: seq<Action>)
    requires s.r.RIdle? && Run(s, run).Some? && Run(s, run).value.h.calls == s.h.calls
    ensures ReceiverSteps(run) == 0
    decreases |run|
  {
    if run != [] {
      var next := Step(s, run[0]).value;
      CallsNeverDecrease(s, run[..1]);
      CallsNeverDecrease(next, run[1..]);
      IdleTakesNoSteps(next, run[1..]);
    }
  }

  /** NOT_BOUND is only ever the answer to a call that began on a socket neither bound nor closed. */
  lemma NotBoundMeansNeverBound(run: seq<Action>)
    requires Run(START, run).Some?
    requires var t := Run(START, run).value; t.r.RIdle? && t.h.last == Some(Fails(S.NotBound))
    ensures var t := Run(START, run).value; !t.h.startedBound && !t.h.startedClosed
  {
    RunKeepsInv(START, run);
  }

  predicate ClosedDown(f: Shared, created: nat) {
    f.closed && !f.bound && f.devices == f.events == f.reassemblies == [] && f.open == {} && f.created == created
  }

  // close does under every interleaving what it does alone

  predicate IsControllerCall(a: Action) {
    a.CallClose? || a.CallBind? || a.CallConfigure?
  }

  lemma CloseProceeds(s: State, a: Action)
    requires Inv(s) && Step(s, a).Some? && !IsControllerCall(a)
    ensures var t := Step(s, a).value;
      && (s.c.CIdle? ==> t.c.CIdle? && t.f == s.f)
      && (s.c.Closing? ==> t.f.created == s.f.created)
      && (s.c.Closing? ==> t.c.Closing? || (t.c.CIdle? && ClosedDown(t.f, s.f.created)))
  {
  }

  lemma {:induction false} CloseEffect(s: State, run: seq<Action>)
    requires Inv(s) && (s.c.Closing? || (s.c.CIdle? && ClosedDown(s.f, s.f.created)))
    requires Run(s, run).Some? && (forall a | a in run :: !IsControllerCall(a))
    ensures var t := Run(s, run).value;
      t.c.Closing? || (t.c.CIdle? && ClosedDown(t.f, s.f.created))
    decreases |run|
  {
    if run != [] {
      var next := Step(s, run[0]).value;
      StepKeepsInv(s, run[0]);
      CloseProceeds(s, run[0]);
      CloseEffect(next, run[1..]);
    }
  }

  // Neither thread waits for ever

  /** The steps a thread in a call can take whatever the environment answers. */
  predicate ReceiverCanMove(s: State) {
    Step(s, Go).Some? || Step(s, PollAnswer(NoPacket)).Some? || Step(s, Handled(false)).Some?
    || Step(s, DeadlinePassed(false)).Some? || Step(s, Wake(false)).Some?
  }

  predicate ControllerCanMove(s: State) {
    Step(s, Control).Some? || Step(s, EndOpening(false)).Some?
  }

  /** A thread in a call can move, or waits for a lock that the other one holds and the other one can move. */
  lemma DeadlockFree(s: State)
    requires Inv(s)
    ensures !s.r.RIdle? ==> ReceiverCanMove(s) || ((s.l.controllerExcludes || s.l.callback.TheController?) && ControllerCanMove(s))
    ensures !s.c.CIdle? ==> ControllerCanMove(s) || ((s.l.receiverShares || s.l.callback.TheReceiver?) && ReceiverCanMove(s))
  {
  }

  lemma ReachableNeverStuck(run: seq<Action>)
    requires Run(START, run).Some?
    ensures var t := Run(START, run).value; !t.r.RIdle? || !t.c.CIdle? ==> ReceiverCanMove(t) || ControllerCanMove(t)
  {
    RunKeepsInv(START, run);
    DeadlockFree(Run(START, run).value);
  }

  /** Before it has been granted the exclusive lock, close waits for the current receive call at most, which is able to end. */
  lemma {:induction false} CloserGetsTheLock(s: State) returns (run: seq<Action>)
    requires Inv(s) && s.c == Closing(LockExclusive)
    ensures |run| <= Rank(s.r) && (forall a | a in run :: IsReceiverAction(a))
    ensures Run(s, run).Some? && Step(Run(s, run).value, Control).Some?
    decreases Rank(s.r)
  {
    if Step(s, Control).Some? {
      run := [];
    } else {
      var a := if s.r.RDeadline? then DeadlinePassed(false) else if s.r.RWait? then Wake(false) else Go;
      StepKeepsInv(s, a);
      ClosedStep(s, a);
      ReceiverFrame(s, a);
      var rest := CloserGetsTheLock(Step(s, a).value);
      run := [a] + rest;
    }
  }

  lemma {:induction false} ReceiverRunFrame(s: State, run: seq<Action>)
    requires Run(s, run).Some? && (forall a | a in run :: IsReceiverAction(a))
    ensures Run(s, run).value.c == s.c
    decreases |run|
  {
    if run != [] {
      ReceiverFrame(s, run[0]);
      ReceiverRunFrame(Step(s, run[0]).value, run[1..]);
    }
  }

  lemma {:induction false} ReceiverStepsAll(run: seq<Action>)
    requires forall a | a in run :: IsReceiverAction(a)
    ensures ReceiverSteps(run) == |run|
  {
    if run != [] {
      ReceiverStepsAll(run[1..]);
    }
  }

  /** However the receive call goes on, close can take the lock when the call has returned, and that is within its rank in steps. */
  lemma EveryRunFreesTheLock(s: State, run: seq<Action>)
    requires Inv(s) && s.c == Closing(LockExclusive) && Run(s, run).Some?
    requires (forall a | a in run :: IsReceiverAction(a)) && Run(s, run).value.h.calls == s.h.calls
    ensures |run| <= Rank(s.r)
    ensures |run| == Rank(s.r) || Run(s, run).value.r.RIdle? ==> Step(Run(s, run).value, Control).Some?
  {
    RunKeepsInv(s, run);
    ReceiverRunFrame(s, run);
    ReceiverStepsAll(run);
    if s.r.RIdle? {
      CallsNeverDecrease(s, run);
      IdleTakesNoSteps(s, run);
    } else {
      ClosedCallEnds(s, run);
    }
  }
}
