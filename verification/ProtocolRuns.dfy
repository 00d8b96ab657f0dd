/** What whole calls of the step system achieve: binds, receive calls, and that each of them can be made and go through. */
module ProtocolRuns {
  import opened Common
  import opened Protocol
  import S = SocketState

  lemma {:induction false} RunConcat(s: State, a: seq<Action>, b: seq<Action>)
    requires Run(s, a).Some?
    ensures Run(s, a + b) == Run(Run(s, a).value, b)
    decreases |a|
  {
    if a == [] {
      assert a + b == b;
    } else {
      assert (a + b)[1..] == a[1..] + b;
      RunConcat(Step(s, a[0]).value, a[1..], b);
    }
  }

  /** At most one action longer. */
  lemma {:induction false} RunThen(s: State, run: seq<Action>, a: Action)
    requires Run(s, run).Some?
    ensures Run(s, run + [a]) == Step(Run(s, run).value, a)
  {
    RunConcat(s, run, [a]);
    var t := Run(s, run).value;
    assert [a][1..] == [];
    if Step(t, a).Some? {
      assert Run(Step(t, a).value, []) == Step(t, a);
    }
  }

  /**
   Which calls can be made: the documented discipline, and a bind is refused before any lock on a bound
   socket. A new configuration begins with no handle carrying its filter.
   */
  lemma CallsAccepted(s: State)
    ensures Step(s, CallConfigure).Some? ==> Step(s, CallConfigure).value.f == s.f.(filtered := {})
    ensures Step(s, Receive).Some? <==> s.r.RIdle? && !s.c.Binding?
    ensures Step(s, CallClose).Some? <==> s.c.CIdle?
    ensures Step(s, CallConfigure).Some? <==> s.c.CIdle?
    ensures Step(s, CallBind).Some? <==> s.c.CIdle? && s.r.RIdle? && !s.f.bound
  {
  }

  // What a bind does

  /** The handles with numbers from n to m, in order of creation. */
  function Created(n: nat, m: nat): (r: seq<nat>)
    requires n <= m
    ensures |r| == m - n
  {
    seq(m - n, i requires 0 <= i < m - n => n + i)
  }

  lemma CreatedMore(n: nat, k: nat, m: nat)
    requires n <= k <= m
    ensures Created(n, m) == Created(n, k) + Created(k, m)
  {
  }

  lemma ListChain(devices: seq<nat>, n: nat, k: nat, m: nat)
    requires n <= k <= m
    ensures devices + Created(n, k) + Created(k, m) == devices + Created(n, m)
  {
    CreatedMore(n, k, m);
  }

  function Opens(run: seq<Action>): nat {
    if run == [] then 0 else (if run[0].OpenDevice? then 1 else 0) + Opens(run[1..])
  }

  lemma {:induction false} OpensConcat(a: seq<Action>, b: seq<Action>)
    ensures Opens(a + b) == Opens(a) + Opens(b)
    decreases |a|
  {
    if a == [] {
      assert a + b == b;
    } else {
      assert (a + b)[1..] == a[1..] + b;
      OpensConcat(a[1..], b);
    }
  }

  predicate StillOpening(k: Bind) {
    k.TakeLists? || k.OpenNext? || k.PushEvent? || k.PushReassembly?
  }

  /** The flags a bind in progress ends with, if the rest of the run makes no other call. */
  function FinalFlags(s: State, run: seq<Action>): (bool, bool) {
    if s.c.Binding? && (s.c.bind.SetBound? || (StillOpening(s.c.bind) && EndOpening(true) in run)) then (true, false)
    else if s.c.Binding? && s.c.bind.ClearClosed? then (s.f.bound, false)
    else (s.f.bound, s.f.closed)
  }

  lemma BindStepEffect(s: State, a: Action)
    requires Inv(s) && s.c.Binding? && Step(s, a).Some?
    ensures var t := Step(s, a).value;
      && (t.c.Binding? || (t.c.CIdle? && t.f == s.f))
      && t.f.created == s.f.created + (if a.OpenDevice? then 1 else 0)
      && t.f.devices == s.f.devices + Created(s.f.created, t.f.created)
      && (a.OpenDevice? || a.EndOpening? ==> s.c == Binding(OpenNext))
      && (StillOpening(s.c.bind) && !a.EndOpening? ==> t.c.Binding? && StillOpening(t.c.bind))
      && (!StillOpening(s.c.bind) && t.c.Binding? ==> !StillOpening(t.c.bind))
  {
  }

  lemma FlagsStep(s: State, a: Action)
    requires Inv(s) && s.c.Binding? && Step(s, a).Some?
    ensures var t := Step(s, a).value;
      && (StillOpening(s.c.bind) && !a.EndOpening? ==> t.f.bound == s.f.bound && t.f.closed == s.f.closed)
      && (a.EndOpening? ==> t.f.bound == s.f.bound && t.f.closed == s.f.closed
                            && t.c == Binding(if a.ok then SetBound else ReleaseLists))
      && (!StillOpening(s.c.bind) ==> FinalFlags(t, []) == FinalFlags(s, []))
  {
  }

  lemma RestingStep(s: State, a: Action)
    requires s.c.CIdle? && Step(s, a).Some? && !IsControllerCall(a)
    ensures Step(s, a).value.c.CIdle? && Step(s, a).value.f == s.f && !a.OpenDevice? && !a.EndOpening?
    ensures s.f.devices == s.f.devices + Created(s.f.created, s.f.created)
  {
  }

  lemma {:induction false} OpeningIsOver(s: State, run: seq<Action>)
    requires Inv(s) && (s.c.CIdle? || (s.c.Binding? && !StillOpening(s.c.bind)))
    requires Run(s, run).Some? && (forall a | a in run :: !IsControllerCall(a))
    ensures forall a | a in run :: !a.OpenDevice? && !a.EndOpening?
    decreases |run|
  {
    if run != [] {
      StepKeepsInv(s, run[0]);
      if s.c.CIdle? {
        RestingStep(s, run[0]);
      } else {
        BindStepEffect(s, run[0]);
      }
      OpeningIsOver(Step(s, run[0]).value, run[1..]);
      assert run == [run[0]] + run[1..];
    }
  }

  lemma {:induction false} BindLists(s: State, run: seq<Action>)
    requires Inv(s) && (s.c.Binding? || s.c.CIdle?) && Run(s, run).Some? && (forall a | a in run :: !IsControllerCall(a))
    ensures var t := Run(s, run).value;
      && (t.c.Binding? || t.c.CIdle?)
      && t.f.created == s.f.created + Opens(run)
      && t.f.devices == s.f.devices + Created(s.f.created, t.f.created)
    decreases |run|
  {
    if run != [] {
      var next := Step(s, run[0]).value;
      StepKeepsInv(s, run[0]);
      if s.c.CIdle? {
        RestingStep(s, run[0]);
      } else {
        BindStepEffect(s, run[0]);
      }
      BindLists(next, run[1..]);
      ListChain(s.f.devices, s.f.created, next.f.created, Run(s, run).value.f.created);
    }
  }

  lemma {:induction false} BindFlags(s: State, run: seq<Action>)
    requires Inv(s) && (s.c.Binding? || s.c.CIdle?) && Run(s, run).Some? && (forall a | a in run :: !IsControllerCall(a))
    requires Run(s, run).value.c.CIdle?
    ensures var t := Run(s, run).value; (t.f.bound, t.f.closed) == FinalFlags(s, run)
    decreases |run|
  {
    if run != [] {
      var next, rest := Step(s, run[0]).value, run[1..];
      StepKeepsInv(s, run[0]);
      BindFlagsStep(s, run[0], rest);
      BindFlags(next, rest);
    }
  }

  lemma {:induction false} BindFlagsStep(s: State, a: Action, rest: seq<Action>)
    requires Inv(s) && (s.c.Binding? || s.c.CIdle?) && Step(s, a).Some? && !IsControllerCall(a)
    requires Run(Step(s, a).value, rest).Some? && (forall b | b in rest :: !IsControllerCall(b))
    ensures forall run | run != [] && run[0] == a && run[1..] == rest :: FinalFlags(s, run) == FinalFlags(Step(s, a).value, rest)
    ensures Step(s, a).value.c.Binding? || Step(s, a).value.c.CIdle?
  {
    var next := Step(s, a).value;
    StepKeepsInv(s, a);
    if s.c.CIdle? {
      RestingStep(s, a);
    } else {
      BindStepEffect(s, a);
      FlagsStep(s, a);
      if !StillOpening(s.c.bind) || a.EndOpening? {
        OpeningIsOver(next, rest);
      }
    }
    forall run | run != [] && run[0] == a && run[1..] == rest
      ensures FinalFlags(s, run) == FinalFlags(next, rest)
    {
      assert run == [a] + rest;
    }
  }

  /**
   A bind that has returned, under every interleaving: after a successful opening the socket is bound and
   not closed, otherwise both flags are as before; in both cases every adapter opened has a new handle,
   which is listed behind the others and open.
   */
  lemma BindEffect(s: State, run: seq<Action>)
    requires Inv(s) && s.c == Binding(TakeLists) && Run(s, run).Some? && Run(s, run).value.c.CIdle?
    requires forall a | a in run :: !IsControllerCall(a)
    ensures var t := Run(s, run).value;
      && (if EndOpening(true) in run then t.f.bound && !t.f.closed
          else t.f.bound == s.f.bound && t.f.closed == s.f.closed)
      && t.f.created == s.f.created + Opens(run)
      && t.f.devices == s.f.devices + Created(s.f.created, t.f.created)
      && t.f.open == Members(t.f.devices)
      && (t.f.bound ==> forall i | 0 <= i < |t.f.devices| :: t.f.devices[i] in t.f.filtered)
  {
    RunKeepsInv(s, run);
    InvIsSafe(Run(s, run).value);
    BindLists(s, run);
    BindFlags(s, run);
  }

  /**
   A call that only changes filters leaves flags, lists and handles alone, under every interleaving, and
   when it has returned every listed device of a bound socket carries the new filter.
   */
  lemma {:induction false} ConfigureEffect(s: State, run: seq<Action>)
    requires Inv(s) && (s.c.Filtering? || s.c.CIdle?)
    requires Run(s, run).Some? && (forall a | a in run :: !IsControllerCall(a))
    ensures var t := Run(s, run).value;
      && t.f == s.f.(filtered := t.f.filtered) && (t.c.Filtering? || t.c.CIdle?)
      && (t.c.CIdle? && t.f.bound ==> forall i | 0 <= i < |t.f.devices| :: t.f.devices[i] in t.f.filtered)
    decreases |run|
  {
    if run != [] {
      StepKeepsInv(s, run[0]);
      ConfigureStep(s, run[0]);
      ConfigureEffect(Step(s, run[0]).value, run[1..]);
    }
  }

  lemma ConfigureStep(s: State, a: Action)
    requires (s.c.Filtering? || s.c.CIdle?) && Step(s, a).Some? && !IsControllerCall(a)
    ensures var t := Step(s, a).value; t.f == s.f.(filtered := t.f.filtered) && (t.c.Filtering? || t.c.CIdle?)
  {
  }

  // How a receive call ends

  /** Answers of the environment that settle the outcome of a call. */
  function Verdict(a: Action): Option<Outcome> {
    if a == Handled(true) then Some(Delivered)
    else if a == PollAnswer(Fault) then Some(Fails(S.GenericError))
    else if a == DeadlinePassed(true) || a == Wake(true) then Some(Fails(S.Timeout))
    else None
  }

  function FirstVerdict(run: seq<Action>): Option<Outcome> {
    if run == [] then None else if Verdict(run[0]).Some? then Verdict(run[0]) else FirstVerdict(run[1..])
  }

  lemma VerdictStep(s: State, a: Action)
    requires Inv(s) && !s.r.RIdle? && Step(s, a).Some?
    ensures var t := Step(s, a).value;
      && t.h.calls == s.h.calls
      && (Verdict(a).Some? ==> !Decided(s.r) && Decided(t.r) && t.r.outcome == Verdict(a).value)
      && (Decided(s.r) ==> if t.r.RIdle? then t.h.last == Some(s.r.outcome) else Decided(t.r) && t.r.outcome == s.r.outcome)
      && (!Decided(s.r) ==> !t.r.RIdle?)
      && (!Decided(s.r) && Decided(t.r) && Verdict(a).None? ==>
            (t.r.outcome == Fails(S.SocketClosed) && s.f.closed)
            || (t.r.outcome == Fails(S.NotBound) && !s.f.closed && !s.f.bound))
  {
  }

  lemma IdleStep(s: State, a: Action)
    requires s.r.RIdle? && Step(s, a).Some?
    ensures Verdict(a).None? && (a.Receive? ==> Step(s, a).value.h.calls == s.h.calls + 1)
    ensures !a.Receive? ==> Step(s, a).value.r.RIdle? && Step(s, a).value.h == s.h
  {
  }

  lemma {:induction false} SettledCallEnds(s: State, run: seq<Action>)
    requires Inv(s) && (Decided(s.r) || s.r.RIdle?) && Run(s, run).Some?
    requires var t := Run(s, run).value; t.h.calls == s.h.calls && t.r.RIdle?
    ensures FirstVerdict(run) == None
    ensures Run(s, run).value.h.last == if s.r.RIdle? then s.h.last else Some(s.r.outcome)
    decreases |run|
  {
    if run != [] {
      StepKeepsInv(s, run[0]);
      CallsNeverDecrease(Step(s, run[0]).value, run[1..]);
      if s.r.RIdle? {
        IdleStep(s, run[0]);
      } else {
        VerdictStep(s, run[0]);
      }
      SettledCallEnds(Step(s, run[0]).value, run[1..]);
    }
  }

  /**
   Under every interleaving a receive call ends with the first thing that settles it: a datagram, an error
   of the driver, or a timeout; if none does, with SOCKET_CLOSED or NOT_BOUND.
   */
  lemma {:induction false} CallOutcome(s: State, run: seq<Action>)
    requires Inv(s) && !s.r.RIdle? && !Decided(s.r) && Run(s, run).Some?
    requires var t := Run(s, run).value; t.h.calls == s.h.calls && t.r.RIdle?
    ensures var t := Run(s, run).value;
      if FirstVerdict(run).Some? then t.h.last == FirstVerdict(run)
      else t.h.last == Some(Fails(S.SocketClosed)) || t.h.last == Some(Fails(S.NotBound))
    decreases |run|
  {
    assert run != [];
    var next := Step(s, run[0]).value;
    StepKeepsInv(s, run[0]);
    VerdictStep(s, run[0]);
    if Decided(next.r) {
      SettledCallEnds(next, run[1..]);
    } else {
      CallOutcome(next, run[1..]);
    }
  }

  /** It counts as a delivery iff it ends with a datagram. */
  lemma CallDelivery(s: State, run: seq<Action>)
    requires Inv(s) && !s.r.RIdle? && !Decided(s.r) && Run(s, run).Some?
    requires var t := Run(s, run).value; t.h.calls == s.h.calls && t.r.RIdle?
    ensures var t := Run(s, run).value; t.h.delivered == s.h.delivered + (if t.h.last == Some(Delivered) then 1 else 0)
  {
    RunKeepsInv(s, run);
    StartedStays(s, run);
    CallOutcome(s, run);
  }

  lemma {:induction false} StartedStays(s: State, run: seq<Action>)
    requires Run(s, run).Some? && Run(s, run).value.h.calls == s.h.calls
    ensures Run(s, run).value.h.startedDelivered == s.h.startedDelivered
    decreases |run|
  {
    if run != [] {
      CallsNeverDecrease(s, run[..1]);
      CallsNeverDecrease(Step(s, run[0]).value, run[1..]);
      StartedStep(s, run[0]);
      StartedStays(Step(s, run[0]).value, run[1..]);
    }
  }

  lemma StartedStep(s: State, a: Action)
    requires Step(s, a).Some? && Step(s, a).value.h.calls == s.h.calls
    ensures Step(s, a).value.h.startedDelivered == s.h.startedDelivered
  {
  }

  /** After a whole pass the receiver goes on to the deadline iff every device was empty; with any packet it polls again. */
  lemma PassDecidesToWait(s: State)
    requires Inv(s) && s.r.RUnlockCallback?
    ensures Step(s, Go).Some?
    ensures var t := Step(s, Go).value;
      if forall i | 0 <= i < |s.h.pass| :: s.h.pass[i] == NoPacket then t.r.RDeadline? else t.r.RLockCallback?
  {
    if Packet !in s.h.pass {
      assert forall i | 0 <= i < |s.h.pass| :: s.h.pass[i] != Packet;
    }
  }

  // That binding and receiving are possible

  lemma {:induction false} AllFoundEmptySoFar(s: State, n: nat) returns (run: seq<Action>)
    requires s.r.RPoll? && s.r.next + n <= |s.f.devices|
    ensures Run(s, run).Some? && (forall a | a in run :: IsReceiverAction(a))
    ensures var t := Run(s, run).value;
      && t == s.(r := t.r, h := t.h) && t.r == RPoll(s.r.next + n, s.r.received)
      && t.h == s.h.(pass := t.h.pass)
    decreases n
  {
    if n == 0 {
      run := [];
    } else {
      var next := Step(s, PollAnswer(NoPacket)).value;
      var rest := AllFoundEmptySoFar(next, n - 1);
      run := [PollAnswer(NoPacket)] + rest;
    }
  }

  /** From a resting bound state the receiver gets to polling the first device. */
  lemma PollingBegins(s: State)
    requires Inv(s) && s.r.RIdle? && s.c.CIdle? && s.f.bound
    ensures var t := Run(s, [Receive, Go, Go, Go, Go]);
      t.Some? && t.value.r == RPoll(0, false) && t.value.f == s.f && t.value.c.CIdle?
      && t.value.h.calls == s.h.calls + 1 && t.value.h.delivered == s.h.delivered
  {
    var a := Step(s, Receive).value;
    var b := Step(a, Go).value;
    var c := Step(b, Go).value;
    var d := Step(c, Go).value;
    var e := Step(d, Go).value;
    RunsTo(s, Receive, [Go, Go, Go, Go]);
    RunsTo(a, Go, [Go, Go, Go]);
    RunsTo(b, Go, [Go, Go]);
    RunsTo(c, Go, [Go]);
    RunsTo(d, Go, []);
  }

  lemma RunsTo(s: State, a: Action, rest: seq<Action>)
    requires Step(s, a).Some?
    ensures Run(s, [a] + rest) == Run(Step(s, a).value, rest)
  {
    assert ([a] + rest)[1..] == rest;
  }

  lemma DeliveryEnds(s: State)
    requires s.r.RHandle?
    ensures var t := Run(s, [Handled(true), Go, Go]);
      t.Some? && t.value.r.RIdle? && t.value.c == s.c && t.value.f == s.f && t.value.h.last == Some(Delivered)
      && t.value.h.calls == s.h.calls && t.value.h.delivered == s.h.delivered + 1
  {
    var a := Step(s, Handled(true)).value;
    var b := Step(a, Go).value;
    RunsTo(s, Handled(true), [Go, Go]);
    RunsTo(a, Go, [Go]);
    RunsTo(b, Go, []);
  }

  /** Every device of a resting bound socket can be the one that a call polls and returns a datagram from. */
  lemma DatagramCanBeReceived(s: State, i: nat) returns (before: seq<Action>, after: seq<Action>)
    requires Inv(s) && s.r.RIdle? && s.c.CIdle? && s.f.bound && i < |s.f.devices|
    ensures forall a | a in before + after :: IsReceiverAction(a)
    ensures Run(s, before).Some? && Run(s, before).value.r == RHandle(i) && Run(s, before).value.f == s.f
    ensures var t := Run(s, before + after);
      && t.Some? && t.value.r.RIdle? && t.value.c.CIdle? && t.value.f == s.f
      && t.value.h.last == Some(Delivered)
      && t.value.h.calls == s.h.calls + 1 && t.value.h.delivered == s.h.delivered + 1
  {
    var start := [Receive, Go, Go, Go, Go];
    PollingBegins(s);
    var polling := Run(s, start).value;
    var empties := AllFoundEmptySoFar(polling, i);
    RunConcat(s, start, empties);
    var there := Run(polling, empties).value;
    before := start + empties + [PollAnswer(Packet)];
    RunThen(s, start + empties, PollAnswer(Packet));
    var handling := Step(there, PollAnswer(Packet)).value;
    after := [Handled(true), Go, Go];
    RunConcat(s, before, after);
    DeliveryEnds(handling);
  }

  /** From a resting bound state a call can time out after one pass. */
  lemma TimeoutCanBeAnswered(s: State) returns (run: seq<Action>)
    requires Inv(s) && s.r.RIdle? && s.c.CIdle? && s.f.bound
    ensures (forall a | a in run :: IsReceiverAction(a)) && Run(s, run).Some?
    ensures var t := Run(s, run).value;
      t.r.RIdle? && t.f == s.f && t.h.last == Some(Fails(S.Timeout)) && t.h.calls == s.h.calls + 1
  {
    var start := [Receive, Go, Go, Go, Go];
    PollingBegins(s);
    var polling := Run(s, start).value;
    var empties := AllFoundEmptySoFar(polling, |s.f.devices|);
    RunConcat(s, start, empties);
    TimeoutEnds(Run(polling, empties).value);
    run := start + empties + [Go, Go, DeadlinePassed(true), Go];
    RunConcat(s, start + empties, [Go, Go, DeadlinePassed(true), Go]);
  }

  lemma TimeoutEnds(s: State)
    requires s.r == RPoll(|s.f.devices|, false)
    ensures var t := Run(s, [Go, Go, DeadlinePassed(true), Go]);
      t.Some? && t.value.r.RIdle? && t.value.f == s.f && t.value.h.last == Some(Fails(S.Timeout))
      && t.value.h.calls == s.h.calls
  {
    var a := Step(s, Go).value;
    var b := Step(a, Go).value;
    var c := Step(b, DeadlinePassed(true)).value;
    RunsTo(s, Go, [Go, DeadlinePassed(true), Go]);
    RunsTo(a, Go, [DeadlinePassed(true), Go]);
    RunsTo(b, DeadlinePassed(true), [Go]);
    RunsTo(c, Go, []);
  }

  lemma {:induction false} DevicesCanBeOpened(s: State, n: nat) returns (run: seq<Action>)
    requires s.c == Binding(OpenNext)
    ensures Run(s, run).Some? && Opens(run) == n && (forall a | a in run :: !IsControllerCall(a) && !a.EndOpening?)
    ensures var t := Run(s, run).value; t.c == Binding(OpenNext) && t.r == s.r && t.h == s.h
    decreases n
  {
    if n == 0 {
      run := [];
    } else {
      var a := Step(s, OpenDevice).value;
      var b := Step(a, Control).value;
      var next := Step(b, Control).value;
      var rest := DevicesCanBeOpened(next, n - 1);
      run := [OpenDevice] + ([Control] + ([Control] + rest));
      OpensConcat([OpenDevice], [Control] + ([Control] + rest));
      OpensConcat([Control], [Control] + rest);
      OpensConcat([Control], rest);
      RunsTo(s, OpenDevice, [Control] + ([Control] + rest));
      RunsTo(a, Control, [Control] + rest);
      RunsTo(b, Control, rest);
    }
  }

  lemma {:induction false} FiltersCanBeSet(s: State) returns (run: seq<Action>)
    requires s.c.Binding? && s.c.bind.SetFilter? && s.c.bind.next <= |s.f.devices|
    ensures Run(s, run).Some? && Opens(run) == 0 && (forall a | a in run :: a.Control?)
    ensures var t := Run(s, run).value; t.c.CIdle? && t.r == s.r && t.h == s.h
    decreases |s.f.devices| - s.c.bind.next
  {
    var next := Step(s, Control).value;
    if s.c.bind.next < |s.f.devices| {
      var rest := FiltersCanBeSet(next);
      run := [Control] + rest;
      RunsTo(s, Control, rest);
    } else {
      run := [Control] + [Control];
      RunsTo(s, Control, [Control]);
      RunsTo(next, Control, []);
    }
  }

  /** From any resting unbound state a bind that opens n adapters can go through. */
  lemma BindCanSucceed(s: State, n: nat) returns (run: seq<Action>)
    requires Inv(s) && s.r.RIdle? && s.c.CIdle? && !s.f.bound
    ensures Run(s, [CallBind] + run).Some?
    ensures var t := Run(s, [CallBind] + run).value;
      && t.c.CIdle? && t.r.RIdle? && t.f.bound && !t.f.closed
      && |t.f.devices| == |s.f.devices| + n
  {
    var called := Step(s, CallBind).value;
    var taken := Step(called, Control).value;
    var opening := DevicesCanBeOpened(taken, n);
    var withDevices := Run(taken, opening).value;
    var ending := Step(withDevices, EndOpening(true)).value;
    var marked := Step(ending, Control).value;
    var cleared := Step(marked, Control).value;
    var setting := FiltersCanBeSet(cleared);
    var tail := [EndOpening(true)] + ([Control] + ([Control] + setting));
    RunsTo(withDevices, EndOpening(true), [Control] + ([Control] + setting));
    RunsTo(ending, Control, [Control] + setting);
    RunsTo(marked, Control, setting);
    RunConcat(taken, opening, tail);
    run := [Control] + (opening + tail);
    RunsTo(called, Control, opening + tail);
    RunsTo(s, CallBind, run);
    StepKeepsInv(s, CallBind);
    BindCounts(opening, tail, setting);
    BindEffect(called, run);
  }

  lemma BindCounts(opening: seq<Action>, tail: seq<Action>, setting: seq<Action>)
    requires tail == [EndOpening(true)] + ([Control] + ([Control] + setting))
    requires forall a | a in setting :: a.Control?
    requires forall a | a in opening :: !IsControllerCall(a)
    ensures var run := [Control] + (opening + tail);
      && Opens(run) == Opens(opening) + Opens(setting)
      && EndOpening(true) in run && (forall a | a in run :: !IsControllerCall(a))
  {
    OpensConcat([Control], opening + tail);
    OpensConcat(opening, tail);
    OpensConcat([EndOpening(true)], [Control] + ([Control] + setting));
    OpensConcat([Control], [Control] + setting);
    OpensConcat([Control], setting);
    assert Opens([Control]) == 0 && Opens([EndOpening(true)]) == 0 by {
      assert [Control][1..] == [] && [EndOpening(true)][1..] == [];
    }
  }

  /** So for every number of adapters and each of them some run from the start polls it and returns a datagram from it. */
  lemma ReceivingIsReachable(n: nat, i: nat) returns (run: seq<Action>, polled: nat)
    requires i < n
    ensures Run(START, run).Some? && polled <= |run|
    ensures Run(START, run[..polled]).Some? && Run(START, run[..polled]).value.r == RHandle(i)
    ensures Run(START, run).value.r.RIdle? && Run(START, run).value.h.last == Some(Delivered)
  {
    var binding := BindCanSucceed(START, n);
    var first := [CallBind] + binding;
    RunKeepsInv(START, first);
    var bound := Run(START, first).value;
    var before, after := DatagramCanBeReceived(bound, i);
    RunConcat(START, first, before + after);
    RunConcat(START, first, before);
    run, polled := first + (before + after), |first + before|;
    assert run[..polled] == first + before;
  }
}
