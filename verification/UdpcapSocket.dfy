/** The socket object: configuration calls and the receive loop, updated in place. */
module UdpcapSockets {
  import opened Common
  import opened HostAddresses
  import opened Packets
  import opened Npcaps
  import opened WaitArithmetic
  import G = FilterGenerator
  import H = PacketHandler
  import PcapFilter
  import R = Reassembly
  import S = SocketState

  /** A frame claimed from a device, with everything its handling depended on. */
  datatype Claim = Claim(frame: Frame, args: H.CallArgs, order: seq<int>, stamp: R.Stamp)

  /** What handling a device's claims one after another does and delivers. */
  ghost function Replay(c: R.Config, log: seq<Claim>): (R.State, seq<H.Delivery>)
    decreases |log|
  {
    if log == [] then (R.EMPTY, [])
    else
      var (st, out) := Replay(c, log[..|log| - 1]);
      var last := log[|log| - 1];
      var (st', d) := H.Handle(c, st, last.args, last.frame, last.order, last.stamp);
      (st', out + H.Reported(d))
  }

  ghost function Frames(log: seq<Claim>): seq<Frame> {
    seq(|log|, i requires 0 <= i < |log| => log[i].frame)
  }

  lemma {:induction false} ReplayInSync(c: R.Config, log: seq<Claim>)
    requires 0 < c.capacity
    ensures R.Sync(c, Replay(c, log).0)
    decreases |log|
  {
    if log == [] {
      R.EmptyInSync(c);
    } else {
      ReplayInSync(c, log[..|log| - 1]);
      var st, last := Replay(c, log[..|log| - 1]).0, log[|log| - 1];
      R.ProcessPacketKeepsSync(c, st, last.frame, last.order, last.stamp);
    }
  }

  lemma FramesMore(log: seq<Claim>, a: Claim)
    ensures Frames(log + [a]) == Frames(log) + [a.frame]
  {
  }

  lemma ReplayMore(c: R.Config, log: seq<Claim>, a: Claim)
    ensures var (st, out) := Replay(c, log);
      var (st', d) := H.Handle(c, st, a.args, a.frame, a.order, a.stamp);
      Replay(c, log + [a]) == (st', out + H.Reported(d))
  {
  }

  /** What handling each claim of a log delivers. */
  ghost function Outputs(c: R.Config, log: seq<Claim>): (r: seq<Option<H.Delivery>>)
    ensures |r| == |log|
    decreases |log|
  {
    if log == [] then []
    else
      var before, last := log[..|log| - 1], log[|log| - 1];
      Outputs(c, before) + [H.Handle(c, Replay(c, before).0, last.args, last.frame, last.order, last.stamp).1]
  }

  function Accepted(outputs: seq<Option<H.Delivery>>): seq<H.Delivery> {
    if outputs == [] then []
    else Accepted(outputs[..|outputs| - 1]) + H.Reported(outputs[|outputs| - 1])
  }

  /** The deliveries of a log are the outputs of its claims, in order. */
  lemma {:induction false} ReplayAccepts(c: R.Config, log: seq<Claim>)
    ensures Replay(c, log).1 == Accepted(Outputs(c, log))
    decreases |log|
  {
    if log != [] {
      ReplayAccepts(c, log[..|log| - 1]);
      assert Outputs(c, log)[..|log| - 1] == Outputs(c, log[..|log| - 1]);
    }
  }

  lemma {:induction false} OutputsOfPrefix(c: R.Config, log: seq<Claim>, longer: seq<Claim>)
    requires log <= longer
    ensures Outputs(c, log) <= Outputs(c, longer)
    decreases |longer|
  {
    if |log| < |longer| {
      OutputsOfPrefix(c, log, longer[..|longer| - 1]);
    } else {
      assert log == longer;
    }
  }

  lemma {:induction false} AcceptedGrow(outputs: seq<Option<H.Delivery>>, longer: seq<Option<H.Delivery>>)
    requires outputs <= longer
    ensures Accepted(outputs) <= Accepted(longer)
    decreases |longer|
  {
    if |outputs| < |longer| {
      AcceptedGrow(outputs, longer[..|longer| - 1]);
    } else {
      assert outputs == longer;
    }
  }

  /** None of the outputs from the n-th on is a datagram. */
  ghost predicate NoneFrom(outputs: seq<Option<H.Delivery>>, n: nat) {
    forall k | n <= k < |outputs| :: outputs[k].None?
  }

  /** Exactly one of them is, namely `d`. */
  ghost predicate OneFrom(outputs: seq<Option<H.Delivery>>, n: nat, d: H.Delivery) {
    exists k | n <= k < |outputs| ::
      outputs[k] == Some(d) && forall j | n <= j < |outputs| && j != k :: outputs[j].None?
  }

  lemma {:induction false} SameAccepted(outputs: seq<Option<H.Delivery>>, longer: seq<Option<H.Delivery>>)
    requires outputs <= longer && Accepted(outputs) == Accepted(longer)
    ensures NoneFrom(longer, |outputs|)
    decreases |longer|
  {
    if |outputs| < |longer| {
      AcceptedGrow(outputs, longer[..|longer| - 1]);
      SameAccepted(outputs, longer[..|longer| - 1]);
    }
  }

  lemma SameLast(a: seq<H.Delivery>, b: seq<H.Delivery>, d: H.Delivery, e: H.Delivery)
    requires a <= b && b + [e] == a + [d]
    ensures a == b && d == e
  {
    assert |b| == |a|;
    assert (b + [e])[|a|] == (a + [d])[|a|];
  }

  lemma OneFromShorter(longer: seq<Option<H.Delivery>>, n: nat, m: nat, d: H.Delivery)
    requires n <= m == |longer| - 1
    requires if longer[m].Some? then longer[m] == Some(d) && NoneFrom(longer[..m], n) else OneFrom(longer[..m], n, d)
    ensures OneFrom(longer, n, d)
  {
    var k: nat := m;
    if longer[m].None? {
      k :| n <= k < m && longer[..m][k] == Some(d) && forall j | n <= j < m && j != k :: longer[..m][j].None?;
    }
    assert forall j | n <= j < m :: longer[..m][j] == longer[j];
    assert longer[k] == Some(d);
  }

  lemma {:induction false} OneMoreAccepted(outputs: seq<Option<H.Delivery>>, longer: seq<Option<H.Delivery>>, d: H.Delivery)
    requires outputs <= longer && Accepted(longer) == Accepted(outputs) + [d]
    ensures OneFrom(longer, |outputs|, d)
    decreases |longer|
  {
    assert longer[..|outputs|] == outputs && longer[..|longer|] == longer;
    assert |outputs| < |longer|;
    var n := |longer| - 1;
    AcceptedGrow(outputs, longer[..n]);
    if longer[n].Some? {
      SameLast(Accepted(outputs), Accepted(longer[..n]), d, longer[n].value);
      SameAccepted(outputs, longer[..n]);
    } else {
      OneMoreAccepted(outputs, longer[..n], d);
    }
    OneFromShorter(longer, |outputs|, n, d);
  }

  /**
   What a log and its continuation say about the claims in between: without a new delivery none of them
   has yielded a datagram, and with one exactly one of them has.
   */
  lemma CallsConsumeWhatTheyDeliver(c: R.Config, log: seq<Claim>, longer: seq<Claim>)
    requires log <= longer
    ensures Replay(c, log).1 == Replay(c, longer).1 ==> NoneFrom(Outputs(c, longer), |log|)
    ensures forall d | Replay(c, longer).1 == Replay(c, log).1 + [d] :: OneFrom(Outputs(c, longer), |log|, d)
  {
    ReplayAccepts(c, log);
    ReplayAccepts(c, longer);
    OutputsOfPrefix(c, log, longer);
    if Replay(c, log).1 == Replay(c, longer).1 {
      SameAccepted(Outputs(c, log), Outputs(c, longer));
    }
    forall d | Replay(c, longer).1 == Replay(c, log).1 + [d]
      ensures OneFrom(Outputs(c, longer), |log|, d)
    {
      OneMoreAccepted(Outputs(c, log), Outputs(c, longer), d);
    }
  }

  /** The claims of each device are the frames the driver handed over for it, in order. */
  ghost predicate FramesOk(devices: seq<S.PcapDev>, claimed: seq<seq<Frame>>, claims: seq<seq<Claim>>)
    requires |claims| == |devices|
  {
    forall i | 0 <= i < |devices| ::
      devices[i].handle < |claimed| && claimed[devices[i].handle] == Frames(claims[i])
  }

  /** Each device's reassembly state and deliveries are what handling its claims amounts to. */
  ghost predicate ReplaysOk(c: R.Config, states: seq<R.State>, claims: seq<seq<Claim>>, delivered: seq<seq<H.Delivery>>)
    requires |claims| == |delivered| == |states|
  {
    forall i {:trigger Replay(c, claims[i])} | 0 <= i < |claims| :: Replay(c, claims[i]) == (states[i], delivered[i])
  }

  /** Every sweep of the log walks the index as it was, once over each entry. */
  ghost predicate Walked(c: R.Config, log: seq<Claim>)
    decreases |log|
  {
    log != [] ==>
      var before, last := log[..|log| - 1], log[|log| - 1];
      Walked(c, before) && Distinct(last.order) && Members(last.order) == Replay(c, before).0.index.Keys
  }

  ghost predicate WalksOk(c: R.Config, claims: seq<seq<Claim>>) {
    forall i {:trigger Walked(c, claims[i])} | 0 <= i < |claims| :: Walked(c, claims[i])
  }

  /**
   Conservation, device by device: the claims are the frames the driver handed over, in order, and the
   deliveries are exactly the outputs of handling them.
   */
  ghost predicate LogOk(c: R.Config, devices: seq<S.PcapDev>, states: seq<R.State>, claimed: seq<seq<Frame>>,
                        claims: seq<seq<Claim>>, delivered: seq<seq<H.Delivery>>) {
    && |claims| == |delivered| == |states| == |devices|
    && S.HandlesDiffer(devices)
    && ReplaysOk(c, states, claims, delivered)
    && WalksOk(c, claims)
    && FramesOk(devices, claimed, claims)
  }

  lemma FramesAfterOpen(devices: seq<S.PcapDev>, claimed: seq<seq<Frame>>, claims: seq<seq<Claim>>, device: S.PcapDev)
    requires |claims| == |devices| && FramesOk(devices, claimed, claims)
    ensures FramesOk(devices, claimed + [[]], claims)
    ensures device.handle == |claimed| ==> FramesOk(devices + [device], claimed + [[]], claims + [[]])
  {
    assert Frames([]) == [];
    assert forall i | 0 <= i < |devices| :: (claims + [[]])[i] == claims[i];
  }

  lemma ReplaysAfterOpen(c: R.Config, states: seq<R.State>, claims: seq<seq<Claim>>, delivered: seq<seq<H.Delivery>>)
    requires |claims| == |delivered| == |states| && ReplaysOk(c, states, claims, delivered)
    ensures ReplaysOk(c, states + [R.EMPTY], claims + [[]], delivered + [[]])
  {
    assert forall i | 0 <= i < |claims| :: (claims + [[]])[i] == claims[i];
  }

  lemma {:induction false} WalksAfterOpen(c: R.Config, claims: seq<seq<Claim>>)
    requires WalksOk(c, claims)
    ensures WalksOk(c, claims + [[]])
  {
    forall i | 0 <= i < |claims + [[]]|
      ensures Walked(c, (claims + [[]])[i])
    {
      if i < |claims| {
        assert Walked(c, claims[i]);
      }
    }
  }

  lemma LogOkAfterOpen(c: R.Config, devices: seq<S.PcapDev>, states: seq<R.State>, claimed: seq<seq<Frame>>,
                       claims: seq<seq<Claim>>, delivered: seq<seq<H.Delivery>>, device: S.PcapDev)
    requires LogOk(c, devices, states, claimed, claims, delivered)
    ensures LogOk(c, devices, states, claimed + [[]], claims, delivered)
    ensures device.handle == |claimed| ==>
              LogOk(c, devices + [device], states + [R.EMPTY], claimed + [[]], claims + [[]], delivered + [[]])
  {
    FramesAfterOpen(devices, claimed, claims, device);
    ReplaysAfterOpen(c, states, claims, delivered);
    WalksAfterOpen(c, claims);
  }

  ghost function AddDelivery(delivered: seq<seq<H.Delivery>>, i: nat, d: Option<H.Delivery>): seq<seq<H.Delivery>>
    requires i < |delivered|
  {
    if d.Some? then delivered[i := delivered[i] + [d.value]] else delivered
  }

  lemma FramesAfterClaim(devices: seq<S.PcapDev>, claimed: seq<seq<Frame>>, claims: seq<seq<Claim>>, i: nat, a: Claim)
    requires |claims| == |devices| && S.HandlesDiffer(devices) && FramesOk(devices, claimed, claims)
    requires i < |devices| && devices[i].handle < |claimed|
    ensures var h := devices[i].handle;
      FramesOk(devices, claimed[h := claimed[h] + [a.frame]], claims[i := claims[i] + [a]])
  {
    var h := devices[i].handle;
    var claimed' := claimed[h := claimed[h] + [a.frame]];
    var claims' := claims[i := claims[i] + [a]];
    forall j | 0 <= j < |devices|
      ensures devices[j].handle < |claimed'| && claimed'[devices[j].handle] == Frames(claims'[j])
    {
      assert claimed[devices[j].handle] == Frames(claims[j]);
      if j == i {
        FramesMore(claims[i], a);
      } else {
        assert devices[j].handle != h;
      }
    }
  }

  lemma ReplaysAfterClaim(c: R.Config, states: seq<R.State>, claims: seq<seq<Claim>>, delivered: seq<seq<H.Delivery>>,
                          i: nat, a: Claim)
    requires |claims| == |delivered| == |states| && i < |claims| && ReplaysOk(c, states, claims, delivered)
    ensures var (st, d) := H.Handle(c, states[i], a.args, a.frame, a.order, a.stamp);
      ReplaysOk(c, states[i := st], claims[i := claims[i] + [a]], AddDelivery(delivered, i, d))
  {
    assert Replay(c, claims[i]) == (states[i], delivered[i]);
    ReplayMore(c, claims[i], a);
    var (st, d) := H.Handle(c, states[i], a.args, a.frame, a.order, a.stamp);
    assert delivered[i] + H.Reported(d) == AddDelivery(delivered, i, d)[i];
    var claims' := claims[i := claims[i] + [a]];
    forall j | 0 <= j < |claims'|
      ensures Replay(c, claims'[j]) == (states[i := st][j], AddDelivery(delivered, i, d)[j])
    {
      if j != i {
        assert Replay(c, claims[j]) == (states[j], delivered[j]);
      }
    }
  }

  lemma {:induction false} WalksAfterClaim(c: R.Config, claims: seq<seq<Claim>>, i: nat, a: Claim)
    requires WalksOk(c, claims) && i < |claims|
    requires Distinct(a.order) && Members(a.order) == Replay(c, claims[i]).0.index.Keys
    ensures WalksOk(c, claims[i := claims[i] + [a]])
  {
    var claims' := claims[i := claims[i] + [a]];
    forall j | 0 <= j < |claims'|
      ensures Walked(c, claims'[j])
    {
      assert Walked(c, claims[j]);
      if j == i {
        assert claims'[j][..|claims[i]|] == claims[i];
      }
    }
  }

  lemma LogOkAfterClaim(c: R.Config, devices: seq<S.PcapDev>, states: seq<R.State>, claimed: seq<seq<Frame>>,
                        claims: seq<seq<Claim>>, delivered: seq<seq<H.Delivery>>, i: nat, a: Claim)
    requires LogOk(c, devices, states, claimed, claims, delivered) && i < |devices| && devices[i].handle < |claimed|
    requires Distinct(a.order) && Members(a.order) == states[i].index.Keys
    ensures var (st, d) := H.Handle(c, states[i], a.args, a.frame, a.order, a.stamp); var h := devices[i].handle;
      LogOk(c, devices, states[i := st], claimed[h := claimed[h] + [a.frame]],
            claims[i := claims[i] + [a]], AddDelivery(delivered, i, d))
  {
    FramesAfterClaim(devices, claimed, claims, i, a);
    ReplaysAfterClaim(c, states, claims, delivered, i, a);
    assert Replay(c, claims[i]) == (states[i], delivered[i]);
    WalksAfterClaim(c, claims, i, a);
  }

  lemma StateInSync(c: R.Config, states: seq<R.State>, claims: seq<seq<Claim>>, delivered: seq<seq<H.Delivery>>, i: nat)
    requires 0 < c.capacity && |claims| == |delivered| == |states| && i < |claims| && ReplaysOk(c, states, claims, delivered)
    ensures R.Sync(c, states[i])
  {
    assert Replay(c, claims[i]) == (states[i], delivered[i]);
    ReplayInSync(c, claims[i]);
  }

  lemma LastReturned(claimed: seq<seq<Frame>>, h: nat)
    requires h < |claimed| && claimed[h] != []
    ensures var all := claimed[h]; var before := claimed[h := all[..|all| - 1]];
      before[h := before[h] + [all[|all| - 1]]] == claimed
  {
    var all := claimed[h];
    assert all == all[..|all| - 1] + [all[|all| - 1]];
  }

  /** What polling one device amounts to. */
  datatype Attempt = Empty | Dropped | Delivered(delivery: H.Delivery) | Broken(error: S.Error)

  /** The error a call ends with after an answer of the driver; None for the answers that do not end it. */
  function PollError(code: int): Option<S.Error> {
    if code == 0 || code == 1 then None
    else if code == PCAP_ERROR_NOT_ACTIVATED then Some(S.NotBound)
    else Some(S.GenericError)
  }

  ghost predicate Answers(a: Attempt, code: int) {
    match a
    case Empty => code == 0
    case Dropped => code == 1
    case Delivered(_) => code == 1
    case Broken(e) => PollError(code) == Some(e)
  }

  /** How a receive call ends. */
  datatype Result = Result(error: S.Error, delivery: Option<H.Delivery>)

  /** `longer` continues `log` by claims made with these arguments, at times between `since` and `until`. */
  ghost predicate Continues(log: seq<Claim>, longer: seq<Claim>, args: H.CallArgs, since: int, until: int) {
    && log <= longer
    && forall k | |log| <= k < |longer| ::
         longer[k].args == args && since <= longer[k].stamp.swept <= longer[k].stamp.recorded <= until
  }

  /** So does every log, device by device. */
  ghost predicate Grown(before: seq<seq<Claim>>, after: seq<seq<Claim>>, args: H.CallArgs, since: int, until: int) {
    |before| == |after| && forall i | 0 <= i < |before| :: Continues(before[i], after[i], args, since, until)
  }

  lemma GrownOn(a: seq<seq<Claim>>, b: seq<seq<Claim>>, c: seq<seq<Claim>>, args: H.CallArgs, s: int, t: int, u: int)
    requires Grown(a, b, args, s, t) && Grown(b, c, args, t, u) && s <= t <= u
    ensures Grown(a, c, args, s, u)
  {
    forall i | 0 <= i < |a|
      ensures Continues(a[i], c[i], args, s, u)
    {
      assert Continues(a[i], b[i], args, s, t) && Continues(b[i], c[i], args, t, u);
    }
  }

  /** Of the frames claimed in between, exactly one has yielded a datagram, on device `from`; or none has, if there is none. */
  ghost predicate Consumed(c: R.Config, before: seq<seq<Claim>>, after: seq<seq<Claim>>, from: nat, d: Option<H.Delivery>)
    requires |before| == |after| && (d.Some? ==> from < |after|)
  {
    && (forall i | 0 <= i < |after| && (d.None? || i != from) :: NoneFrom(Outputs(c, after[i]), |before[i]|))
    && (d.Some? ==> OneFrom(Outputs(c, after[from]), |before[from]|, d.value))
  }

  lemma BooksShowConsumed(c: R.Config, states: seq<R.State>, claims: seq<seq<Claim>>, delivered: seq<seq<H.Delivery>>,
                          states': seq<R.State>, claims': seq<seq<Claim>>, from: nat, d: Option<H.Delivery>,
                          args: H.CallArgs, since: int, until: int)
    requires |claims| == |delivered| == |states| && ReplaysOk(c, states, claims, delivered)
    requires Grown(claims, claims', args, since, until) && |states'| == |claims| && (d.Some? ==> from < |delivered|)
    requires ReplaysOk(c, states', claims', if d.Some? then AddDelivery(delivered, from, d) else delivered)
    ensures Consumed(c, claims, claims', from, d)
  {
    var delivered' := if d.Some? then AddDelivery(delivered, from, d) else delivered;
    forall i | 0 <= i < |claims'|
      ensures delivered'[i] == delivered[i] ==> NoneFrom(Outputs(c, claims'[i]), |claims[i]|)
      ensures forall e | delivered'[i] == delivered[i] + [e] :: OneFrom(Outputs(c, claims'[i]), |claims[i]|, e)
    {
      assert Replay(c, claims[i]) == (states[i], delivered[i]);
      assert Replay(c, claims'[i]) == (states'[i], delivered'[i]);
      assert Continues(claims[i], claims'[i], args, since, until);
      CallsConsumeWhatTheyDeliver(c, claims[i], claims'[i]);
    }
  }

  /** The frame is the reason for the delivery: it carries the datagram, or completes it. */
  ghost predicate Delivers(args: H.CallArgs, f: Frame, d: H.Delivery) {
    f.net.IPv4? && exists udp: UdpLayer ::
      udp.targetPort == args.boundPort
      && H.Expected(args, f.net.ip4.source, udp) == [d]
      && (f.net.ip4.IsFragment() || H.Carries(f, udp))
  }

  /**
   What a call makes of the frames it claims: an unfragmented datagram for the bound port is what the call
   returns, and whatever it returns is a datagram for the bound port that a claimed frame carries or completes.
   */
  ghost predicate Answered(before: seq<seq<Claim>>, after: seq<seq<Claim>>, args: H.CallArgs, from: nat, d: Option<H.Delivery>)
    requires |before| == |after| && (d.Some? ==> from < |after|)
  {
    && (forall i, k, udp: UdpLayer {:trigger H.Carries(after[i][k].frame, udp)} |
          0 <= i < |after| && |before[i]| <= k < |after[i]| && H.Carries(after[i][k].frame, udp)
          && udp.targetPort == args.boundPort ::
          i == from && H.Reported(d) == H.Expected(args, after[i][k].frame.net.ip4.source, udp))
    && (d.Some? ==> exists k | |before[from]| <= k < |after[from]| :: Delivers(args, after[from][k].frame, d.value))
  }

  lemma {:induction false} OutputLast(c: R.Config, log: seq<Claim>)
    requires log != []
    ensures var n := |log| - 1; var a := log[n];
      Outputs(c, log)[n] == H.Handle(c, Replay(c, log[..n]).0, a.args, a.frame, a.order, a.stamp).1
  {
  }

  lemma {:induction false} OutputAt(c: R.Config, log: seq<Claim>, k: nat)
    requires k < |log|
    ensures var a := log[k];
      Outputs(c, log)[k] == H.Handle(c, Replay(c, log[..k]).0, a.args, a.frame, a.order, a.stamp).1
  {
    var upTo := log[..k+1];
    OutputsOfPrefix(c, upTo, log);
    OutputLast(c, upTo);
    assert upTo[..k] == log[..k] && upTo[k] == log[k];
    assert Outputs(c, log)[k] == Outputs(c, upTo)[k];
  }

  lemma {:induction false} CarriedIsOutput(c: R.Config, log: seq<Claim>, k: nat, udp: UdpLayer)
    requires k < |log| && H.Carries(log[k].frame, udp)
    ensures H.Reported(Outputs(c, log)[k]) == H.Expected(log[k].args, log[k].frame.net.ip4.source, udp)
  {
    var a := log[k];
    OutputAt(c, log, k);
    H.SentIsDelivered(c, Replay(c, log[..k]).0, a.args, a.frame, udp, a.order, a.stamp);
  }

  lemma {:induction false} OutputIsCarried(c: R.Config, log: seq<Claim>, k: nat)
    requires k < |log| && Outputs(c, log)[k].Some?
    ensures Delivers(log[k].args, log[k].frame, Outputs(c, log)[k].value)
  {
    var a := log[k];
    OutputAt(c, log, k);
    H.HandleDelivers(c, Replay(c, log[..k]).0, a.args, a.frame, a.order, a.stamp);
  }

  lemma {:induction false} CallAnswers(c: R.Config, before: seq<seq<Claim>>, after: seq<seq<Claim>>, args: H.CallArgs,
                                       since: int, until: int, from: nat, d: Option<H.Delivery>)
    requires Grown(before, after, args, since, until) && (d.Some? ==> from < |after|)
    requires Consumed(c, before, after, from, d)
    ensures Answered(before, after, args, from, d)
  {
    forall i, k, udp: UdpLayer | 0 <= i < |after| && |before[i]| <= k < |after[i]| && H.Carries(after[i][k].frame, udp)
                                 && udp.targetPort == args.boundPort
      ensures i == from && H.Reported(d) == H.Expected(args, after[i][k].frame.net.ip4.source, udp)
    {
      assert Continues(before[i], after[i], args, since, until);
      CarriedIsOutput(c, after[i], k, udp);
      assert Outputs(c, after[i])[k].Some?;
    }
    if d.Some? {
      var k :| |before[from]| <= k < |after[from]| && Outputs(c, after[from])[k] == Some(d.value);
      assert Continues(before[from], after[from], args, since, until);
      OutputIsCarried(c, after[from], k);
    }
  }

  /** The answers of a pass in which every device was empty. */
  ghost function EmptyPolls(devices: seq<S.PcapDev>): seq<(nat, int)> {
    seq(|devices|, i requires 0 <= i < |devices| => (devices[i].handle, 0))
  }

  /** Polls of the first devices of the list, one each and in order, with their answers. */
  ghost function Asked(devices: seq<S.PcapDev>, codes: seq<int>): seq<(nat, int)>
    requires |codes| <= |devices|
  {
    seq(|codes|, i requires 0 <= i < |codes| => (devices[i].handle, codes[i]))
  }

  lemma AskedMore(devices: seq<S.PcapDev>, codes: seq<int>, code: int)
    requires |codes| < |devices|
    ensures Asked(devices, codes + [code]) == Asked(devices, codes) + [(devices[|codes|].handle, code)]
  {
  }

  lemma AskedEndsWith(before: seq<(nat, int)>, devices: seq<S.PcapDev>, codes: seq<int>)
    requires |codes| <= |devices|
    ensures codes != [] ==> Asked(devices, codes)[|codes| - 1].1 == codes[|codes| - 1]
    ensures |codes| == |devices| && (forall k | 0 <= k < |codes| :: codes[k] == 0) ==>
              var polls := before + Asked(devices, codes); polls[|polls| - |devices|..] == EmptyPolls(devices)
  {
    var polls := before + Asked(devices, codes);
    if |codes| == |devices| && (forall k | 0 <= k < |codes| :: codes[k] == 0) {
      assert Asked(devices, codes) == EmptyPolls(devices);
      assert polls[|before|..] == Asked(devices, codes);
    }
  }

  /** A pass ends early with the first datagram or error; else it has asked all devices. */
  ghost predicate PassEnds(end: Option<Result>, receivedAny: bool, devices: nat, codes: seq<int>) {
    match end
    case None =>
      && |codes| == devices
      && (forall k | 0 <= k < |codes| :: codes[k] == 0 || codes[k] == 1)
      && (receivedAny <==> 1 in codes)
    case Some(result) =>
      && codes != []
      && (forall k | 0 <= k < |codes| - 1 :: codes[k] == 0 || codes[k] == 1)
      && var last := codes[|codes| - 1];
         if result.delivery.Some? then result.error == S.OK && last == 1 else PollError(last) == Some(result.error)
  }

  function EndOf(a: Attempt): Option<Result> {
    match a
    case Delivered(d) => Some(Result(S.OK, Some(d)))
    case Broken(e) => Some(Result(e, None))
    case _ => None
  }

  lemma PassGoesOn(receivedAny: bool, codes: seq<int>, a: Attempt, code: int)
    requires PassEnds(None, receivedAny, |codes|, codes) && Answers(a, code)
    ensures PassEnds(EndOf(a), receivedAny || a.Dropped?, |codes| + 1, codes + [code])
  {
  }

  function TimeLeft(until: int, now: int): nat {
    if now < until then until - now else 0
  }

  class UdpcapSocket {
    const isValid: bool
    const npcap: Npcap
    const config: R.Config

    var boundState: bool
    var boundAddress: HostAddress
    var boundPort: Uint16
    var multicastGroups: seq<HostAddress>
    var multicastLoopbackEnabled: bool
    var pcapDevicesClosed: bool
    var pcapDevices: seq<S.PcapDev>
    var pcapWin32Handles: seq<nat>
    var pcapDevicesIpReassembly: seq<R.State>

    /** Per listed device: the frames claimed since it was opened, and the datagrams delivered. */
    ghost var claims: seq<seq<Claim>>
    ghost var delivered: seq<seq<H.Delivery>>

    ghost function Abs(): S.Socket
      reads this, npcap
    {
      S.Socket(isValid, boundState, boundAddress, boundPort, multicastGroups, multicastLoopbackEnabled, pcapDevicesClosed,
               pcapDevices, pcapWin32Handles, pcapDevicesIpReassembly, npcap.handles)
    }

    ghost predicate Logged()
      reads this, npcap
    {
      && npcap.Valid()
      && 0 < config.capacity
      && S.Wired(Abs())
      && LogOk(config, pcapDevices, pcapDevicesIpReassembly, npcap.claimed, claims, delivered)
    }

    constructor (isValid: bool, npcap: Npcap, config: R.Config)
      requires npcap.Valid() && npcap.handles == [] && 0 < config.capacity
      ensures Logged() && Abs() == S.Initial(isValid)
    {
      this.isValid, this.npcap, this.config := isValid, npcap, config;
      boundState, boundAddress, boundPort := false, INVALID, 0;
      multicastGroups, multicastLoopbackEnabled, pcapDevicesClosed := [], true, false;
      pcapDevices, pcapWin32Handles, pcapDevicesIpReassembly := [], [], [];
      claims, delivered := [], [];
    }

    // bind

    /** The part of openPcapDevice_nolock after a successful activation: one entry more on each list. */
    method AddDevice(handle: S.Handle)
      requires Logged()
      modifies this`pcapDevices, this`pcapWin32Handles, this`pcapDevicesIpReassembly, this`claims, this`delivered
      modifies npcap`handles, npcap`queues, npcap`captured, npcap`claimed
      ensures Logged()
      ensures npcap.handles == old(npcap.handles) + [handle]
      ensures pcapDevices == old(pcapDevices) + [S.PcapDev(old(|npcap.handles|), handle.loopback, handle.name)]
      ensures pcapWin32Handles == old(pcapWin32Handles) + [old(|npcap.handles|)]
      ensures pcapDevicesIpReassembly == old(pcapDevicesIpReassembly) + [R.EMPTY]
    {
      var device := S.PcapDev(|npcap.handles|, handle.loopback, handle.name);
      LogOkAfterOpen(config, pcapDevices, pcapDevicesIpReassembly, npcap.claimed, claims, delivered, device);
      npcap.Create(handle);
      pcapDevices := pcapDevices + [device];
      pcapWin32Handles := pcapWin32Handles + [device.handle];
      pcapDevicesIpReassembly := pcapDevicesIpReassembly + [R.EMPTY];
      claims, delivered := claims + [[]], delivered + [[]];
    }

    method OpenPcapDevice(m: S.Machine, name: string) returns (ok: bool)
      requires Logged()
      modifies this`pcapDevices, this`pcapWin32Handles, this`pcapDevicesIpReassembly, this`claims, this`delivered
      modifies npcap`handles, npcap`queues, npcap`captured, npcap`claimed
      ensures Logged() && (Abs(), ok) == S.OpenDevice(old(Abs()), m, name)
    {
      ghost var device := S.PcapDev(|npcap.handles|, m.isLoopback(name), name);
      LogOkAfterOpen(config, pcapDevices, pcapDevicesIpReassembly, npcap.claimed, claims, delivered, device);
      match m.open(name) {
        case CreateFails =>
          return false;
        case ActivateFails =>
          var h := |npcap.handles|;
          npcap.Create(S.Handle(name, m.isLoopback(name), None, false, None, 0));
          npcap.CloseHandle(h);
          assert npcap.handles == old(npcap.handles) + [S.Handle(name, m.isLoopback(name), None, false, None, 1)];
          return false;
        case Opens(mac, refuses) =>
          AddDevice(S.Handle(name, m.isLoopback(name), mac, refuses, None, 0));
          return true;
      }
    }

    method OpenAllPcapDevices(m: S.Machine)
      requires Logged()
      modifies this`pcapDevices, this`pcapWin32Handles, this`pcapDevicesIpReassembly, this`claims, this`delivered
      modifies npcap`handles, npcap`queues, npcap`captured, npcap`claimed
      ensures Logged() && Abs() == S.OpenAll(old(Abs()), m, m.all)
    {
      var i := 0;
      assert m.all[0..] == m.all;
      while i < |m.all|
        invariant i <= |m.all|
        invariant Logged() && S.OpenAll(Abs(), m, m.all[i..]) == S.OpenAll(old(Abs()), m, m.all)
      {
        assert m.all[i..][1..] == m.all[i+1..];
        var ok := OpenPcapDevice(m, m.all[i]);
        i := i + 1;
      }
    }

    /** The three ways a bind opens devices. Devices opened before a failure stay open and listed. */
    method OpenDevicesFor(m: S.Machine, address: HostAddress) returns (ok: bool)
      requires Logged()
      modifies this`pcapDevices, this`pcapWin32Handles, this`pcapDevicesIpReassembly, this`claims, this`delivered
      modifies npcap`handles, npcap`queues, npcap`captured, npcap`claimed
      ensures Logged() && (Abs(), ok) == S.OpenFor(old(Abs()), m, address)
    {
      if address.IsLoopback() {
        ok := OpenPcapDevice(m, m.loopbackName);
      } else if address == ANY {
        if m.all == [] {
          return false;
        }
        OpenAllPcapDevices(m);
        ok := true;
      } else {
        var device := m.byIp(address);
        if device.None? {
          return false;
        }
        ok := OpenPcapDevice(m, device.value);
        if ok {
          ok := OpenPcapDevice(m, m.loopbackName);
        }
      }
    }

    method SetBound(address: HostAddress, port: Uint16)
      requires Logged()
      modifies this`boundAddress, this`boundPort, this`boundState, this`pcapDevicesClosed
      ensures Logged() && Abs() == old(Abs()).(address := address, port := port, bound := true, closed := false)
    {
      boundAddress := address;
      boundPort := port;
      boundState := true;
      pcapDevicesClosed := false;
    }

    method Bind(m: S.Machine, address: HostAddress, port: Uint16) returns (ok: bool)
      requires Logged()
      modifies this`pcapDevices, this`pcapWin32Handles, this`pcapDevicesIpReassembly, this`claims, this`delivered
      modifies this`boundAddress, this`boundPort, this`boundState, this`pcapDevicesClosed
      modifies npcap`handles, npcap`queues, npcap`captured, npcap`claimed
      ensures Logged() && (Abs(), ok) == S.Bind(old(Abs()), m, address, port)
    {
      if !isValid || boundState || !address.valid {
        return false;
      }
      ok := OpenDevicesFor(m, address);
      if ok {
        SetBound(address, port);
        UpdateAllCaptureFilters();
      }
    }

    // Filters

    method UpdateCaptureFilter(i: nat, ghost program: Option<seq<PcapFilter.Token>>)
      requires S.Wired(Abs()) && i < |pcapDevices| && program == S.Compile(S.FilterFor(Abs(), i))
      modifies npcap`handles
      ensures npcap.handles == S.Install(old(npcap.handles), pcapDevices[i].handle, program)
    {
      var device := pcapDevices[i];
      var text := G.CreateFilterString(
        G.Config(boundAddress, boundPort, multicastGroups, multicastLoopbackEnabled),
        G.Device(device.loopback, npcap.handles[device.handle].mac));
      assert text == S.FilterFor(Abs(), i);
      npcap.SetFilter(device.handle, S.Compile(text));
    }

    /** One turn of the loop over the devices; `before` is the state the loop started in. */
    method UpdateNextCaptureFilter(ghost before: S.Socket, ghost programs: seq<Option<seq<PcapFilter.Token>>>, i: nat)
      requires S.Wired(before) && i < |before.devices| && S.ArePrograms(before, programs)
      requires Abs() == before.(handles := S.InstallAll(before.handles, before.devices, programs, i))
      modifies npcap`handles
      ensures npcap.handles == S.InstallAll(before.handles, before.devices, programs, i + 1)
    {
      S.ProgramUnchanged(before, programs, i, i);
      UpdateCaptureFilter(i, programs[i]);
    }

    method UpdateEachCaptureFilter(ghost before: S.Socket, ghost programs: seq<Option<seq<PcapFilter.Token>>>)
      requires S.Wired(before) && before == Abs() && S.ArePrograms(before, programs)
      modifies npcap`handles
      ensures npcap.handles == S.InstallAll(before.handles, before.devices, programs, |before.devices|)
    {
      var i := 0;
      while i < |pcapDevices|
        invariant i <= |pcapDevices|
        invariant npcap.handles == S.InstallAll(before.handles, before.devices, programs, i)
      {
        UpdateNextCaptureFilter(before, programs, i);
        i := i + 1;
      }
    }

    method UpdateAllCaptureFilters()
      requires Logged()
      modifies npcap`handles
      ensures Logged() && Abs() == S.UpdateFilters(old(Abs()))
    {
      UpdateEachCaptureFilter(Abs(), S.Programs(Abs()));
    }

    // Multicast

    method JoinMulticastGroup(g: HostAddress) returns (ok: bool)
      requires Logged()
      modifies this`multicastGroups, npcap`handles
      ensures Logged() && (Abs(), ok) == S.Join(old(Abs()), g)
    {
      if !isValid || !g.valid || !g.IsMulticast() || !boundState {
        return false;
      }
      if Contains(multicastGroups, g) {
        return false;
      }
      multicastGroups := Insert(multicastGroups, g);
      UpdateAllCaptureFilters();
      return true;
    }

    method LeaveMulticastGroup(g: HostAddress) returns (ok: bool)
      requires Logged()
      modifies this`multicastGroups, npcap`handles
      ensures Logged() && (Abs(), ok) == S.Leave(old(Abs()), g)
    {
      if !isValid || !g.valid || !Contains(multicastGroups, g) {
        return false;
      }
      multicastGroups := Erase(multicastGroups, g);
      UpdateAllCaptureFilters();
      return true;
    }

    method SetMulticastLoopbackEnabled(enabled: bool)
      requires Logged()
      modifies this`multicastLoopbackEnabled, npcap`handles
      ensures Logged() && Abs() == S.SetLoopback(old(Abs()), enabled)
    {
      if multicastLoopbackEnabled == enabled {
        return;
      }
      multicastLoopbackEnabled := enabled;
      UpdateAllCaptureFilters();
    }

    // close

    method CloseEachHandle()
      requires S.Wired(Abs())
      modifies npcap`handles
      ensures npcap.handles == S.CloseHandles(old(npcap.handles), pcapDevices, |pcapDevices|)
    {
      var i := 0;
      while i < |pcapDevices|
        invariant i <= |pcapDevices|
        invariant npcap.handles == S.CloseHandles(old(npcap.handles), pcapDevices, i)
      {
        npcap.CloseHandle(pcapDevices[i].handle);
        i := i + 1;
      }
    }

    method ClearLists()
      modifies this`pcapDevices, this`pcapWin32Handles, this`pcapDevicesIpReassembly, this`claims, this`delivered
      ensures pcapDevices == [] && pcapWin32Handles == [] && pcapDevicesIpReassembly == [] && claims == [] && delivered == []
    {
      pcapDevices, pcapWin32Handles, pcapDevicesIpReassembly := [], [], [];
      claims, delivered := [], [];
    }

    method ResetBound()
      modifies this`boundState, this`boundPort, this`boundAddress
      ensures !boundState && boundPort == 0 && boundAddress == INVALID
    {
      boundState := false;
      boundPort := 0;
      boundAddress := INVALID;
    }

    /** Close the handles under the flag, clear the lists, and only then reset the bound fields. */
    method Close()
      requires Logged()
      modifies this`pcapDevicesClosed, this`pcapDevices, this`pcapWin32Handles, this`pcapDevicesIpReassembly
      modifies this`claims, this`delivered, this`boundState, this`boundPort, this`boundAddress, npcap`handles
      ensures Logged() && Abs() == S.Close(old(Abs()))
    {
      pcapDevicesClosed := true;
      CloseEachHandle();
      ClearLists();
      ResetBound();
      S.CloseResult(old(Abs()), Abs());
    }

    // receiveDatagram

    /** Claim at most one frame from a device and handle it on the device's own reassembly state. */
    method PollDevice(i: nat, args: H.CallArgs) returns (a: Attempt)
      requires Logged() && i < |pcapDevices|
      modifies this`pcapDevicesIpReassembly, this`claims, this`delivered
      modifies npcap`queues, npcap`agenda, npcap`captured, npcap`claimed, npcap`clock, npcap`polls
      ensures Logged() && |pcapDevicesIpReassembly| == old(|pcapDevicesIpReassembly|)
      ensures Grown(old(claims), claims, args, old(npcap.clock), npcap.clock)
      ensures delivered == if a.Delivered? then old(delivered)[i := old(delivered)[i] + [a.delivery]] else old(delivered)
      // One poll, and the answer decides.
      ensures exists code :: npcap.polls == old(npcap.polls) + [(pcapDevices[i].handle, code)] && Answers(a, code)
      ensures npcap.signals == old(npcap.signals) && old(npcap.clock) <= npcap.clock
      ensures npcap.PacketsLeft() <= old(npcap.PacketsLeft())
      ensures a.Dropped? ==> npcap.PacketsLeft() < old(npcap.PacketsLeft())
    {
      var h := pcapDevices[i].handle;
      var code, frame := npcap.NextEx(h);
      if code == 1 {
        var d := HandleClaim(i, args, frame.value);
        a := if d.Some? then Delivered(d.value) else Dropped;
      } else if code == 0 {
        a := Empty;
      } else if code == PCAP_ERROR_NOT_ACTIVATED {
        a := Broken(S.NotBound);
      } else {
        a := Broken(S.GenericError);
      }
    }

    /** Handle a claimed frame on the device's own reassembly state; `before` are the claims without it. */
    method Record(i: nat, claim: Claim, ghost before: seq<seq<Frame>>) returns (d: Option<H.Delivery>)
      requires i < |pcapDevices| && pcapDevices[i].handle < |before|
      requires LogOk(config, pcapDevices, pcapDevicesIpReassembly, before, claims, delivered)
      requires Distinct(claim.order) && Members(claim.order) == pcapDevicesIpReassembly[i].index.Keys
      modifies this`pcapDevicesIpReassembly, this`claims, this`delivered
      ensures var h := pcapDevices[i].handle;
        LogOk(config, pcapDevices, pcapDevicesIpReassembly, before[h := before[h] + [claim.frame]], claims, delivered)
      ensures |pcapDevicesIpReassembly| == old(|pcapDevicesIpReassembly|)
      ensures claims == old(claims)[i := old(claims)[i] + [claim]]
      ensures delivered == AddDelivery(old(delivered), i, d)
    {
      LogOkAfterClaim(config, pcapDevices, pcapDevicesIpReassembly, before, claims, delivered, i, claim);
      var (state, delivery) :=
        H.Handle(config, pcapDevicesIpReassembly[i], claim.args, claim.frame, claim.order, claim.stamp);
      pcapDevicesIpReassembly := pcapDevicesIpReassembly[i := state];
      claims := claims[i := claims[i] + [claim]];
      delivered := AddDelivery(delivered, i, delivery);
      d := delivery;
    }

    /** The handler's readings of the clock and of the container, then the handling itself. */
    method HandleClaim(i: nat, args: H.CallArgs, frame: Frame) returns (d: Option<H.Delivery>)
      requires npcap.Valid() && 0 < config.capacity && S.Wired(Abs()) && i < |pcapDevices|
      requires npcap.claimed[pcapDevices[i].handle] != []
      requires var h := pcapDevices[i].handle; var all := npcap.claimed[h];
        all[|all| - 1] == frame
        && LogOk(config, pcapDevices, pcapDevicesIpReassembly, npcap.claimed[h := all[..|all| - 1]], claims, delivered)
      modifies this`pcapDevicesIpReassembly, this`claims, this`delivered
      modifies npcap`queues, npcap`agenda, npcap`captured, npcap`clock
      ensures Logged() && npcap.Flowed()
      ensures |pcapDevicesIpReassembly| == old(|pcapDevicesIpReassembly|)
      ensures Grown(old(claims), claims, args, old(npcap.clock), npcap.clock)
      ensures delivered == AddDelivery(old(delivered), i, d)
    {
      ghost var h := pcapDevices[i].handle;
      ghost var all := npcap.claimed[h];
      ghost var before := npcap.claimed[h := all[..|all| - 1]];
      var swept := npcap.Now();
      var recorded := npcap.Now();
      StateInSync(config, pcapDevicesIpReassembly, claims, delivered, i);
      LastReturned(npcap.claimed, h);
      var order := npcap.IterationOrder(pcapDevicesIpReassembly[i].store.recent);
      d := Record(i, Claim(frame, args, order, R.Stamp(swept, recorded)), before);
    }

    /** The last pass found every device empty. */
    ghost predicate AllFoundEmpty()
      reads this, npcap
    {
      |pcapDevices| <= |npcap.polls| && npcap.polls[|npcap.polls| - |pcapDevices|..] == EmptyPolls(pcapDevices)
    }

    /** The last answer of the driver is the reason for this result. */
    ghost predicate LastPollDecides(result: Result)
      reads npcap
    {
      && npcap.polls != []
      && var code := npcap.polls[|npcap.polls| - 1].1;
         if code == 1 then result.error == S.OK && result.delivery.Some?
         else PollError(code) == Some(result.error) && result.delivery.None?
    }

    lemma PassDecides(before: seq<(nat, int)>, end: Option<Result>, receivedAny: bool, codes: seq<int>)
      requires |codes| <= |pcapDevices| && npcap.polls == before + Asked(pcapDevices, codes)
      requires PassEnds(end, receivedAny, |pcapDevices|, codes)
      ensures if end.Some? then end.value.error != S.Timeout && LastPollDecides(end.value) else receivedAny || AllFoundEmpty()
    {
      AskedEndsWith(before, pcapDevices, codes);
      if end.Some? {
        assert npcap.polls[|npcap.polls| - 1] == Asked(pcapDevices, codes)[|codes| - 1];
      }
    }

    /** The loop body of a pass: poll the i-th device, whose predecessors have answered `codes`. */
    method PollNext(args: H.CallArgs, anyBefore: bool, ghost codes: seq<int>, i: nat)
      returns (receivedAny: bool, end: Option<Result>, ghost more: seq<int>)
      requires Logged() && i == |codes| < |pcapDevices| && PassEnds(None, anyBefore, i, codes)
      modifies this`pcapDevicesIpReassembly, this`claims, this`delivered
      modifies npcap`queues, npcap`agenda, npcap`captured, npcap`claimed, npcap`clock, npcap`polls
      ensures Logged() && |pcapDevicesIpReassembly| == old(|pcapDevicesIpReassembly|) && Grown(old(claims), claims, args, old(npcap.clock), npcap.clock)
      ensures |more| == i + 1 && PassEnds(end, receivedAny, i + 1, more) && (anyBefore ==> receivedAny)
      ensures forall before | old(npcap.polls) == before + Asked(pcapDevices, codes) ::
                npcap.polls == before + Asked(pcapDevices, more)
      ensures delivered == if end.Some? then AddDelivery(old(delivered), i, end.value.delivery) else old(delivered)
      ensures npcap.signals == old(npcap.signals) && old(npcap.clock) <= npcap.clock
      ensures npcap.PacketsLeft() <= old(npcap.PacketsLeft())
      ensures end.None? && receivedAny && !anyBefore ==> npcap.PacketsLeft() < old(npcap.PacketsLeft())
    {
      var a := PollDevice(i, args);
      ghost var code :| npcap.polls == old(npcap.polls) + [(pcapDevices[i].handle, code)] && Answers(a, code);
      AskedMore(pcapDevices, codes, code);
      PassGoesOn(anyBefore, codes, a, code);
      receivedAny, end, more := anyBefore || a.Dropped? || a.Delivered?, EndOf(a), codes + [code];
    }

    /**
     One pass over all devices: ends the call with a datagram or an error, or tells whether any frame
     was received at all.
     */
    method PollPass(args: H.CallArgs) returns (receivedAny: bool, end: Option<Result>, ghost from: nat, ghost codes: seq<int>)
      requires Logged()
      modifies this`pcapDevicesIpReassembly, this`claims, this`delivered
      modifies npcap`queues, npcap`agenda, npcap`captured, npcap`claimed, npcap`clock, npcap`polls
      ensures Logged() && |pcapDevicesIpReassembly| == old(|pcapDevicesIpReassembly|)
      ensures Grown(old(claims), claims, args, old(npcap.clock), npcap.clock)
      ensures |codes| <= |pcapDevices| && npcap.polls == old(npcap.polls) + Asked(pcapDevices, codes)
      ensures PassEnds(end, receivedAny, |pcapDevices|, codes)
      ensures if end.Some? && end.value.delivery.Some?
              then from < |old(delivered)| && delivered == AddDelivery(old(delivered), from, end.value.delivery)
              else delivered == old(delivered)
      ensures npcap.signals == old(npcap.signals) && old(npcap.clock) <= npcap.clock
      ensures npcap.PacketsLeft() <= old(npcap.PacketsLeft())
      ensures end.None? && receivedAny ==> npcap.PacketsLeft() < old(npcap.PacketsLeft())
    {
      receivedAny, end, from, codes := false, None, 0, [];
      var i := 0;
      while i < |pcapDevices|
        invariant i <= |pcapDevices| && |codes| == i && end.None?
        invariant Logged() && |pcapDevicesIpReassembly| == old(|pcapDevicesIpReassembly|)
        invariant Grown(old(claims), claims, args, old(npcap.clock), npcap.clock) && delivered == old(delivered)
        invariant npcap.polls == old(npcap.polls) + Asked(pcapDevices, codes)
        invariant PassEnds(None, receivedAny, i, codes)
        invariant npcap.signals == old(npcap.signals) && old(npcap.clock) <= npcap.clock
        invariant npcap.PacketsLeft() <= old(npcap.PacketsLeft())
        invariant receivedAny ==> npcap.PacketsLeft() < old(npcap.PacketsLeft())
      {
        ghost var claimsBefore, clockBefore := claims, npcap.clock;
        receivedAny, end, codes := PollNext(args, receivedAny, codes, i);
        GrownOn(old(claims), claimsBefore, claims, args, old(npcap.clock), clockBefore, npcap.clock);
        if end.Some? {
          from := i;
          return;
        }
        i := i + 1;
      }
    }

    /** A wait as the source asks for it: on the events of the listed devices, for the time left until the deadline. */
    ghost predicate Asks(w: WaitRecord, timeoutMs: int, waitUntil: int)
      reads this
    {
      && w.handles == Min(|pcapWin32Handles|, MAXIMUM_WAIT_OBJECTS)
      && w.since < waitUntil
      && w.ms == if timeoutMs < 0 then INFINITE else WaitMillis(waitUntil - w.since)
    }

    /** `waits` continues `before` by such waits, none of which has run out. */
    ghost predicate Waited(before: seq<WaitRecord>, timeoutMs: int, waitUntil: int, waits: seq<WaitRecord>)
      reads this
    {
      && before <= waits
      && forall k | |before| <= k < |waits| ::
           Asks(waits[k], timeoutMs, waitUntil) && Classify(waits[k].answer, waits[k].handles) != TimedOut
    }

    /** What a timeout means: the deadline has been reached, or the latest wait has run out. */
    ghost predicate RunOut(before: seq<WaitRecord>, timeoutMs: int, waitUntil: int)
      reads this, npcap
    {
      || (Waited(before, timeoutMs, waitUntil, npcap.waits) && waitUntil <= npcap.clock)
      || (npcap.waits != [] && var w := npcap.waits[|npcap.waits| - 1];
          && Waited(before, timeoutMs, waitUntil, npcap.waits[..|npcap.waits| - 1])
          && Asks(w, timeoutMs, waitUntil) && Classify(w.answer, w.handles) == TimedOut)
    }

    /** The deadline was `waitUntil`; a timeout now is less than a millisecond early, or not early at all. */
    ghost predicate TimeoutDue(timeoutMs: int, waitUntil: int)
      reads npcap
    {
      if timeoutMs < 0 then waitUntil <= npcap.clock
      else timeoutMs <= TWO_POW_32 - 2 ==> waitUntil - npcap.clock < NANOS_PER_MILLI
    }

    /** The wait at the end of a pass without data; tells whether the call has timed out. */
    method WaitForData(ghost before: seq<WaitRecord>, timeoutMs: int, waitUntil: int) returns (timedOut: bool)
      requires Logged() && Waited(before, timeoutMs, waitUntil, npcap.waits)
      requires 0 <= timeoutMs ==> waitUntil - npcap.clock <= timeoutMs * NANOS_PER_MILLI
      modifies npcap`queues, npcap`agenda, npcap`captured, npcap`clock, npcap`signals, npcap`waits
      ensures Logged() && npcap.polls == old(npcap.polls)
      ensures npcap.PacketsLeft() <= old(npcap.PacketsLeft()) && npcap.signals <= old(npcap.signals)
      ensures old(npcap.clock) <= npcap.clock
      ensures if timedOut then RunOut(before, timeoutMs, waitUntil) else Waited(before, timeoutMs, waitUntil, npcap.waits)
      ensures timedOut ==> TimeoutDue(timeoutMs, waitUntil)
      ensures timedOut || npcap.signals < old(npcap.signals)
           || TimeLeft(waitUntil, npcap.clock) < TimeLeft(waitUntil, old(npcap.clock))
    {
      var now := npcap.Now();
      if now >= waitUntil {
        return true;
      }
      var ms: Uint32 := if timeoutMs < 0 then INFINITE else WaitMillis(waitUntil - now);
      var n := Min(|pcapWin32Handles|, MAXIMUM_WAIT_OBJECTS);
      var r := npcap.Wait(n, ms);
      WaitReachesDeadlineIff(waitUntil - now);
      match Classify(r, n) {
        // Everything but a timeout makes another turn; an abandoned wait has only set the error variable.
        case TimedOut => timedOut := true;
        case _ => timedOut := false;
      }
      assert npcap.waits[..|npcap.waits| - 1] == old(npcap.waits);
    }

    /** Why a call ends that has passed the checks. */
    ghost predicate Justified(result: Result, before: seq<WaitRecord>, timeoutMs: int, waitUntil: int)
      reads this, npcap
    {
      if result.error == S.Timeout then
        && result.delivery.None?
        && AllFoundEmpty() && TimeoutDue(timeoutMs, waitUntil) && RunOut(before, timeoutMs, waitUntil)
      else
        LastPollDecides(result) && Waited(before, timeoutMs, waitUntil, npcap.waits)
    }

    /**
     A pass and the wait that may follow. What does not end the call has used up a frame, a notification,
     or time.
     */
    method PollAndWait(args: H.CallArgs, ghost before: seq<WaitRecord>, timeoutMs: int, waitUntil: int)
      returns (end: Option<Result>, ghost from: nat)
      requires Logged() && (0 <= timeoutMs ==> waitUntil - npcap.clock <= timeoutMs * NANOS_PER_MILLI)
      requires Waited(before, timeoutMs, waitUntil, npcap.waits)
      modifies this`pcapDevicesIpReassembly, this`claims, this`delivered
      modifies npcap`queues, npcap`agenda, npcap`captured, npcap`claimed, npcap`clock, npcap`polls, npcap`signals, npcap`waits
      ensures Logged() && |pcapDevicesIpReassembly| == old(|pcapDevicesIpReassembly|)
      ensures Grown(old(claims), claims, args, old(npcap.clock), npcap.clock) && old(npcap.clock) <= npcap.clock
      ensures if end.Some? && end.value.delivery.Some?
              then from < |old(delivered)| && delivered == AddDelivery(old(delivered), from, end.value.delivery)
              else delivered == old(delivered)
      ensures if end.Some? then Justified(end.value, before, timeoutMs, waitUntil)
              else Waited(before, timeoutMs, waitUntil, npcap.waits)
      ensures end.Some? || npcap.PacketsLeft() < old(npcap.PacketsLeft())
           || (npcap.PacketsLeft() == old(npcap.PacketsLeft()) && npcap.signals < old(npcap.signals))
           || (npcap.PacketsLeft() == old(npcap.PacketsLeft()) && npcap.signals == old(npcap.signals)
               && TimeLeft(waitUntil, npcap.clock) < TimeLeft(waitUntil, old(npcap.clock)))
    {
      var receivedAny;
      ghost var codes;
      receivedAny, end, from, codes := PollPass(args);
      PassDecides(old(npcap.polls), end, receivedAny, codes);
      if end.None? && !receivedAny {
        var timedOut := WaitForData(before, timeoutMs, waitUntil);
        if timedOut {
          return Some(Result(S.Timeout, None)), 0;
        }
      }
    }

    /** One turn of the receive loop: the checks under the callback lock come first. */
    method ReceiveTurn(args: H.CallArgs, ghost start: seq<seq<Claim>>, ghost since: int, ghost before: seq<WaitRecord>,
                       timeoutMs: int, waitUntil: int)
      returns (end: Option<Result>, ghost from: nat)
      requires Logged() && (0 <= timeoutMs ==> waitUntil - npcap.clock <= timeoutMs * NANOS_PER_MILLI)
      requires Waited(before, timeoutMs, waitUntil, npcap.waits)
      requires Grown(start, claims, args, since, npcap.clock) && since <= npcap.clock
      modifies this`pcapDevicesIpReassembly, this`claims, this`delivered
      modifies npcap`queues, npcap`agenda, npcap`captured, npcap`claimed, npcap`clock, npcap`polls, npcap`signals, npcap`waits
      ensures Logged() && |pcapDevicesIpReassembly| == old(|pcapDevicesIpReassembly|)
      ensures Grown(start, claims, args, since, npcap.clock) && old(npcap.clock) <= npcap.clock
      ensures if end.Some? && end.value.delivery.Some?
              then from < |old(delivered)| && delivered == AddDelivery(old(delivered), from, end.value.delivery)
              else delivered == old(delivered)
      ensures if pcapDevicesClosed || !boundState
              then claims == old(claims) && npcap.polls == old(npcap.polls) && npcap.waits == old(npcap.waits)
                   && end == Some(Result(if pcapDevicesClosed then S.SocketClosed else S.NotBound, None))
              else if end.Some? then Justified(end.value, before, timeoutMs, waitUntil)
              else Waited(before, timeoutMs, waitUntil, npcap.waits)
      ensures end.Some? || npcap.PacketsLeft() < old(npcap.PacketsLeft())
           || (npcap.PacketsLeft() == old(npcap.PacketsLeft()) && npcap.signals < old(npcap.signals))
           || (npcap.PacketsLeft() == old(npcap.PacketsLeft()) && npcap.signals == old(npcap.signals)
               && TimeLeft(waitUntil, npcap.clock) < TimeLeft(waitUntil, old(npcap.clock)))
    {
      ghost var claimsBefore, clockBefore := claims, npcap.clock;
      if pcapDevicesClosed {
        return Some(Result(S.SocketClosed, None)), 0;
      }
      if !boundState {
        return Some(Result(S.NotBound, None)), 0;
      }
      end, from := PollAndWait(args, before, timeoutMs, waitUntil);
      GrownOn(start, claimsBefore, claims, args, since, clockBefore, npcap.clock);
    }

    /** The receive loop. */
    method ReceiveUntilEnd(args: H.CallArgs, timeoutMs: int, waitUntil: int) returns (result: Result, ghost from: nat)
      requires Logged() && (0 <= timeoutMs ==> waitUntil - npcap.clock <= timeoutMs * NANOS_PER_MILLI)
      modifies this`pcapDevicesIpReassembly, this`claims, this`delivered
      modifies npcap`queues, npcap`agenda, npcap`captured, npcap`claimed, npcap`clock, npcap`polls, npcap`signals, npcap`waits
      ensures Logged() && |pcapDevicesIpReassembly| == old(|pcapDevicesIpReassembly|)
      ensures Grown(old(claims), claims, args, old(npcap.clock), npcap.clock) && old(npcap.clock) <= npcap.clock
      ensures if result.delivery.Some?
              then from < |old(delivered)| && delivered == AddDelivery(old(delivered), from, result.delivery)
              else delivered == old(delivered)
      ensures if pcapDevicesClosed || !boundState
              then claims == old(claims) && npcap.polls == old(npcap.polls) && npcap.waits == old(npcap.waits)
                   && result == Result(if pcapDevicesClosed then S.SocketClosed else S.NotBound, None)
              else Justified(result, old(npcap.waits), timeoutMs, waitUntil)
    {
      var end: Option<Result> := None;
      from := 0;
      while end.None?
        invariant Logged() && |pcapDevicesIpReassembly| == old(|pcapDevicesIpReassembly|)
        invariant Grown(old(claims), claims, args, old(npcap.clock), npcap.clock) && old(npcap.clock) <= npcap.clock
        invariant if end.Some? && end.value.delivery.Some?
                  then from < |old(delivered)| && delivered == AddDelivery(old(delivered), from, end.value.delivery)
                  else delivered == old(delivered)
        invariant if pcapDevicesClosed || !boundState
                  then (end.Some? ==> end.value == Result(if pcapDevicesClosed then S.SocketClosed else S.NotBound, None))
                       && claims == old(claims) && npcap.polls == old(npcap.polls) && npcap.waits == old(npcap.waits)
                  else if end.Some? then Justified(end.value, old(npcap.waits), timeoutMs, waitUntil)
                  else Waited(old(npcap.waits), timeoutMs, waitUntil, npcap.waits)
        decreases end.None?, npcap.PacketsLeft(), npcap.signals, TimeLeft(waitUntil, npcap.clock)
      {
        end, from := ReceiveTurn(args, old(claims), old(npcap.clock), old(npcap.waits), timeoutMs, waitUntil);
      }
      result := end.value;
    }

    lemma CallShows(args: H.CallArgs, states: seq<R.State>, before: seq<seq<Claim>>, reported: seq<seq<H.Delivery>>,
                    since: int, from: nat, d: Option<H.Delivery>)
      requires Logged() && |before| == |reported| == |states| && ReplaysOk(config, states, before, reported)
      requires Grown(before, claims, args, since, npcap.clock) && (d.Some? ==> from < |reported|)
      requires delivered == if d.Some? then AddDelivery(reported, from, d) else reported
      ensures Consumed(config, before, claims, from, d) && Answered(before, claims, args, from, d)
    {
      BooksShowConsumed(config, states, before, reported, pcapDevicesIpReassembly, claims, from, d, args, since, npcap.clock);
      CallAnswers(config, before, claims, args, since, npcap.clock, from, d);
    }

    /** The loop, and what the books say about it. */
    method ReceiveAndAccount(args: H.CallArgs, timeoutMs: int, waitUntil: int) returns (result: Result, ghost from: nat)
      requires Logged() && (0 <= timeoutMs ==> waitUntil - npcap.clock <= timeoutMs * NANOS_PER_MILLI)
      modifies this`pcapDevicesIpReassembly, this`claims, this`delivered
      modifies npcap`queues, npcap`agenda, npcap`captured, npcap`claimed, npcap`clock, npcap`polls, npcap`signals, npcap`waits
      ensures Logged() && |pcapDevicesIpReassembly| == old(|pcapDevicesIpReassembly|)
      ensures Grown(old(claims), claims, args, old(npcap.clock), npcap.clock) && old(npcap.clock) <= npcap.clock
      ensures if result.delivery.Some?
              then from < |old(delivered)| && delivered == AddDelivery(old(delivered), from, result.delivery)
              else delivered == old(delivered)
      ensures if pcapDevicesClosed || !boundState
              then claims == old(claims) && npcap.polls == old(npcap.polls) && npcap.waits == old(npcap.waits)
                   && result == Result(if pcapDevicesClosed then S.SocketClosed else S.NotBound, None)
              else Justified(result, old(npcap.waits), timeoutMs, waitUntil)
      ensures Consumed(config, old(claims), claims, from, result.delivery)
      ensures Answered(old(claims), claims, args, from, result.delivery)
    {
      result, from := ReceiveUntilEnd(args, timeoutMs, waitUntil);
      CallShows(args, old(pcapDevicesIpReassembly), old(claims), old(delivered), old(npcap.clock), from, result.delivery);
    }

    method ReceiveDatagram(bufferSize: nat, timeoutMs: int, wantAddress: bool, wantPort: bool)
      returns (result: Result, ghost from: nat, ghost waitUntil: int)
      requires Logged()
      modifies this`pcapDevicesIpReassembly, this`claims, this`delivered
      modifies npcap`queues, npcap`agenda, npcap`captured, npcap`claimed, npcap`clock, npcap`polls, npcap`signals, npcap`waits
      // The call is one step of the configuration model, and keeps the books.
      ensures Logged() && Abs() == S.Receive(old(Abs()), pcapDevicesIpReassembly)
      // All frames are handled for this caller and the bound port, at times within the call.
      ensures Grown(old(claims), claims, H.CallArgs(bufferSize, wantAddress, wantPort, boundPort), old(npcap.clock), npcap.clock)
      // A datagram is reported exactly when one was added to the log, and only then is the error OK.
      ensures result.error == S.OK <==> result.delivery.Some?
      ensures if result.delivery.Some?
              then from < |old(delivered)| && delivered == AddDelivery(old(delivered), from, result.delivery)
              else delivered == old(delivered)
      // The frames claimed meanwhile have yielded that datagram and no other; it is for the bound port, and none for it is lost.
      ensures Consumed(config, old(claims), claims, from, result.delivery)
      ensures Answered(old(claims), claims, H.CallArgs(bufferSize, wantAddress, wantPort, boundPort), from, result.delivery)
      // Without permission to receive, nothing is touched; else the driver's answers decide.
      ensures if S.EntryError(old(Abs())).Some?
              then result == Result(S.EntryError(old(Abs())).value, None) && claims == old(claims)
                   && npcap.polls == old(npcap.polls) && npcap.waits == old(npcap.waits)
              else Justified(result, old(npcap.waits), timeoutMs, waitUntil)
      // The driver's answers: 1 is a frame, 0 is none, and of the errors only "not activated" is reported as NOT_BOUND.
      ensures S.EntryError(old(Abs())).None? && result.error != S.Timeout ==>
                npcap.polls != [] && var code := npcap.polls[|npcap.polls| - 1].1;
                && (result.error == S.OK <==> code == 1)
                && (result.error == S.NotBound <==> code == PCAP_ERROR_NOT_ACTIVATED)
                && (result.error == S.GenericError <==> code != 0 && code != 1 && code != PCAP_ERROR_NOT_ACTIVATED)
      ensures old(npcap.clock) <= npcap.clock && WaitUntil(old(npcap.clock), timeoutMs) <= waitUntil
      // A timeout is not early.
      ensures result.error == S.Timeout && 0 <= timeoutMs <= TWO_POW_32 - 2 ==>
                old(npcap.clock) + (timeoutMs - 1) * NANOS_PER_MILLI < npcap.clock
      ensures result.error == S.Timeout && timeoutMs < 0 ==> TIME_MAX <= npcap.clock
    {
      var start := npcap.Now();
      var until := WaitUntil(start, timeoutMs);
      waitUntil := until;
      ghost var args := H.CallArgs(bufferSize, wantAddress, wantPort, boundPort);
      if !isValid {
        CallShows(args, old(pcapDevicesIpReassembly), old(claims), old(delivered), old(npcap.clock), 0, None);
        return Result(S.NpcapNotInitialized, None), 0, until;
      }
      result, from := ReceiveAndAccount(H.CallArgs(bufferSize, wantAddress, wantPort, boundPort), timeoutMs, until);
      GrownOn(old(claims), old(claims), claims, args, old(npcap.clock), start, npcap.clock);
    }
  }
}
