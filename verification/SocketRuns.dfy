/** What the socket's fields, adapters and installed filters are after any run of calls, told by the calls alone. */
module SocketRuns {
  import opened Common
  import opened HostAddresses
  import opened Packets
  import opened SocketState
  import F = FilterGenerator
  import P = PcapFilter

  // Adapters

  /** Everything about a handle but its filter and whether it is closed. */
  predicate SameAdapter(g: Handle, h: Handle) {
    g.name == h.name && g.loopback == h.loopback && g.mac == h.mac && g.refuses == h.refuses
  }

  predicate AdaptersKept(s: Socket, r: Socket) {
    |s.handles| <= |r.handles| && forall h | 0 <= h < |s.handles| :: SameAdapter(s.handles[h], r.handles[h])
  }

  /** The i-th device is the adapter the machine has under the device's name. */
  predicate FromMachine(s: Socket, m: Machine, i: nat)
    requires i < |s.devices|
  {
    var d := s.devices[i];
    && d.handle < |s.handles|
    && d.loopback == m.isLoopback(d.name)
    && s.handles[d.handle].name == d.name
    && s.handles[d.handle].loopback == m.isLoopback(d.name)
    && m.open(d.name) == Opens(s.handles[d.handle].mac, s.handles[d.handle].refuses)
  }

  /** `r` comes from `s` by opening adapters of the machine: nothing old has changed, and what is new is as the machine says. */
  predicate Extends(s: Socket, r: Socket, m: Machine) {
    && AdaptersKept(s, r)
    && s.devices <= r.devices
    && forall i | |s.devices| <= i < |r.devices| :: FromMachine(r, m, i)
  }

  lemma ExtendsTransitive(s: Socket, r: Socket, t: Socket, m: Machine)
    requires Extends(s, r, m) && Extends(r, t, m)
    ensures Extends(s, t, m)
  {
    forall i | |s.devices| <= i < |t.devices|
      ensures FromMachine(t, m, i)
    {
      if i < |r.devices| {
        assert FromMachine(r, m, i) && t.devices[i] == r.devices[i];
        assert SameAdapter(r.handles[r.devices[i].handle], t.handles[r.devices[i].handle]);
      }
    }
    forall h | 0 <= h < |s.handles|
      ensures SameAdapter(s.handles[h], t.handles[h])
    {
      assert SameAdapter(s.handles[h], r.handles[h]) && SameAdapter(r.handles[h], t.handles[h]);
    }
  }

  lemma OpenDeviceExtends(s: Socket, m: Machine, name: string)
    requires Wired(s)
    ensures Extends(s, OpenDevice(s, m, name).0, m)
  {
  }

  lemma {:induction false} OpenAllExtends(s: Socket, m: Machine, names: seq<string>)
    requires Wired(s)
    ensures Extends(s, OpenAll(s, m, names), m)
    decreases |names|
  {
    if names != [] {
      var r := OpenDevice(s, m, names[0]).0;
      OpenDeviceExtends(s, m, names[0]);
      OpenAllExtends(r, m, names[1..]);
      ExtendsTransitive(s, r, OpenAll(s, m, names), m);
    }
  }

  lemma OpenForExtends(s: Socket, m: Machine, address: HostAddress)
    requires Wired(s)
    ensures Extends(s, OpenFor(s, m, address).0, m)
  {
    if address.IsLoopback() {
      OpenDeviceExtends(s, m, m.loopbackName);
    } else if address == ANY {
      OpenAllExtends(s, m, m.all);
    } else if m.byIp(address).Some? {
      var name := m.byIp(address).value;
      var r := OpenDevice(s, m, name).0;
      OpenDeviceExtends(s, m, name);
      OpenDeviceExtends(r, m, m.loopbackName);
      ExtendsTransitive(s, r, OpenDevice(r, m, m.loopbackName).0, m);
    }
  }

  lemma FiltersExtend(s: Socket, r: Socket, m: Machine)
    requires SameButFilters(s, r)
    ensures Extends(s, r, m)
  {
  }

  lemma ExtendsAlike(s: Socket, r: Socket, t: Socket, m: Machine)
    requires Extends(s, r, m) && t.devices == r.devices && t.handles == r.handles
    ensures Extends(s, t, m)
  {
    assert forall i | |s.devices| <= i < |r.devices| :: FromMachine(r, m, i) ==> FromMachine(t, m, i);
  }

  /** A bind lists adapters as the machine has them, and leaves those already listed as they are. */
  lemma BindAdapters(s: Socket, m: Machine, address: HostAddress, port: Uint16)
    requires Wired(s)
    ensures Extends(s, Bind(s, m, address, port).0, m)
  {
    if s.valid && !s.bound && address.valid {
      OpenForExtends(s, m, address);
      var (s', ok) := OpenFor(s, m, address);
      if ok {
        var b := s'.(address := address, port := port, bound := true, closed := false);
        ExtendsAlike(s, s', b, m);
        FiltersExtend(b, UpdateFilters(b), m);
        ExtendsTransitive(s, b, UpdateFilters(b), m);
      }
    }
  }

  // The handles a bind creates, also for adapters that cannot be activated

  function HandleNames(handles: seq<Handle>): (r: seq<string>)
    ensures |r| == |handles|
  {
    seq(|handles|, i requires 0 <= i < |handles| => handles[i].name)
  }

  /** Adapters of the list for which the driver creates a handle. */
  function Creatable(m: Machine, names: seq<string>): seq<string> {
    if names == [] then []
    else (if m.open(names[0]).CreateFails? then [] else [names[0]]) + Creatable(m, names[1..])
  }

  /** The same, when the first adapter that cannot be opened is the last one tried. */
  function CreatableUpToFailure(m: Machine, names: seq<string>): seq<string> {
    if names == [] || m.open(names[0]).CreateFails? then []
    else [names[0]] + if CanOpen(m, names[0]) then CreatableUpToFailure(m, names[1..]) else []
  }

  function Tried(m: Machine, address: HostAddress): seq<string> {
    if address == ANY then Creatable(m, Wanted(m, address)) else CreatableUpToFailure(m, Wanted(m, address))
  }

  lemma OpenDeviceHandles(s: Socket, m: Machine, name: string)
    requires Wired(s)
    ensures HandleNames(OpenDevice(s, m, name).0.handles)
         == HandleNames(s.handles) + (if m.open(name).CreateFails? then [] else [name])
  {
  }

  lemma {:induction false} OpenAllHandles(s: Socket, m: Machine, names: seq<string>)
    requires Wired(s)
    ensures HandleNames(OpenAll(s, m, names).handles) == HandleNames(s.handles) + Creatable(m, names)
    decreases |names|
  {
    if names != [] {
      OpenDeviceHandles(s, m, names[0]);
      OpenAllHandles(OpenDevice(s, m, names[0]).0, m, names[1..]);
    }
  }

  lemma {:induction false} OpenForHandles(s: Socket, m: Machine, address: HostAddress)
    requires Wired(s)
    ensures HandleNames(OpenFor(s, m, address).0.handles) == HandleNames(s.handles) + Tried(m, address)
  {
    var loopback := m.loopbackName;
    assert CreatableUpToFailure(m, [loopback]) == if m.open(loopback).CreateFails? then [] else [loopback] by {
      assert CreatableUpToFailure(m, [loopback][1..]) == [];
    }
    if address.IsLoopback() {
      OpenDeviceHandles(s, m, loopback);
    } else if address == ANY {
      OpenAllHandles(s, m, m.all);
    } else if m.byIp(address).Some? {
      var name := m.byIp(address).value;
      assert [name, loopback][1..] == [loopback];
      OpenDeviceHandles(s, m, name);
      OpenDeviceNames(s, m, name);
      OpenDeviceHandles(OpenDevice(s, m, name).0, m, loopback);
    }
  }

  /** A bind creates one handle for each adapter it tries and the driver knows; those not listed are closed again. */
  lemma BindHandles(s: Socket, m: Machine, address: HostAddress, port: Uint16)
    requires Inv(s)
    ensures var (r, ok) := Bind(s, m, address, port); var tries := s.valid && !s.bound && address.valid;
      && HandleNames(r.handles) == HandleNames(s.handles) + (if tries then Tried(m, address) else [])
      && forall h | |s.handles| <= h < |r.handles| :: r.handles[h].closes == if Listed(r, h) then 0 else 1
  {
    BindKeepsInv(s, m, address, port);
    if s.valid && !s.bound && address.valid {
      OpenForHandles(s, m, address);
      var (s', ok) := OpenFor(s, m, address);
      if ok {
        var b := s'.(address := address, port := port, bound := true, closed := false);
        assert HandleNames(UpdateFilters(b).handles) == HandleNames(s'.handles);
      }
    } else {
      assert HandleNames(s.handles) + [] == HandleNames(s.handles);
    }
  }

  lemma FiltersKeepAdapters(s: Socket, xs: seq<HostAddress>, enabled: bool)
    requires Wired(s)
    ensures var s' := s.(groups := xs, loopbackEnabled := enabled);
      Wired(s') && AdaptersKept(s, UpdateFilters(s')) && UpdateFilters(s').devices == s.devices
  {
  }

  lemma CloseKeepsAdapters(s: Socket)
    requires Wired(s)
    ensures AdaptersKept(s, Close(s))
  {
  }

  lemma JoinAndLeaveKeepAdapters(s: Socket, g: HostAddress)
    requires Wired(s)
    ensures AdaptersKept(s, Join(s, g).0) && Join(s, g).0.devices == s.devices
    ensures AdaptersKept(s, Leave(s, g).0) && Leave(s, g).0.devices == s.devices
  {
    FiltersKeepAdapters(s, Insert(s.groups, g), s.loopbackEnabled);
    FiltersKeepAdapters(s, Erase(s.groups, g), s.loopbackEnabled);
  }

  lemma ApplyKeepsAdapters(s: Socket, op: Op)
    requires Wired(s)
    ensures AdaptersKept(s, Apply(s, op).0)
    ensures !op.DoClose? ==> s.devices <= Apply(s, op).0.devices
  {
    match op
    case DoBind(m, address, port) => BindAdapters(s, m, address, port);
    case DoClose => CloseKeepsAdapters(s);
    case DoJoin(g) => JoinAndLeaveKeepAdapters(s, g);
    case DoLeave(g) => JoinAndLeaveKeepAdapters(s, g);
    case DoSetLoopback(enabled) => FiltersKeepAdapters(s, s.groups, enabled);
    case DoReceive(_) =>
  }

  /** Over any run the driver's handles keep their adapters, and until a close the listed devices stay listed, in place. */
  lemma {:induction false} AdaptersStay(s: Socket, ops: seq<Op>)
    requires Inv(s)
    ensures AdaptersKept(s, Exec(s, ops))
    ensures (forall op | op in ops :: !op.DoClose?) ==> s.devices <= Exec(s, ops).devices
    decreases |ops|
  {
    if ops != [] {
      var r := Apply(s, ops[0]).0;
      ApplyKeepsInv(s, ops[0]);
      ApplyKeepsAdapters(s, ops[0]);
      AdaptersStay(r, ops[1..]);
      forall h | 0 <= h < |s.handles|
        ensures SameAdapter(s.handles[h], Exec(s, ops).handles[h])
      {
        assert SameAdapter(s.handles[h], r.handles[h]);
      }
    }
  }

  // The loopback flag

  lemma SetLoopbackReport(s: Socket, enabled: bool)
    requires Wired(s)
    ensures var r := SetLoopback(s, enabled);
      && r.loopbackEnabled == enabled
      && r == s.(loopbackEnabled := enabled, handles := r.handles)
      && AdaptersKept(s, r) && |r.handles| == |s.handles|
  {
  }

  /** The argument of the latest call, or what the flag was before. */
  function LoopbackAfter(enabled: bool, ops: seq<Op>): bool
    decreases |ops|
  {
    if ops == [] then enabled
    else LoopbackAfter(if ops[0].DoSetLoopback? then ops[0].enabled else enabled, ops[1..])
  }

  lemma ApplyFollowsLoopback(s: Socket, op: Op)
    requires Inv(s)
    ensures Apply(s, op).0.loopbackEnabled == if op.DoSetLoopback? then op.enabled else s.loopbackEnabled
  {
    match op
    case DoBind(m, address, port) => BindReport(s, m, address, port);
    case DoSetLoopback(enabled) => SetLoopbackReport(s, enabled);
    case _ =>
  }

  lemma {:induction false} LoopbackIsHistory(s: Socket, ops: seq<Op>)
    requires Inv(s)
    ensures Exec(s, ops).loopbackEnabled == LoopbackAfter(s.loopbackEnabled, ops)
    decreases |ops|
  {
    if ops != [] {
      ApplyKeepsInv(s, ops[0]);
      ApplyFollowsLoopback(s, ops[0]);
      LoopbackIsHistory(Apply(s, ops[0]).0, ops[1..]);
    }
  }

  // Address and port

  datatype Binding = Binding(address: HostAddress, port: Uint16)

  /** The arguments of the latest successful bind, unless a close came later. */
  ghost function BindingAfter(binding: Binding, ops: seq<Op>, reports: seq<bool>): Binding
    requires |reports| == |ops|
    decreases |ops|
  {
    if ops == [] then binding
    else
      var next := if ops[0].DoClose? then Binding(INVALID, 0)
                  else if ops[0].DoBind? && reports[0] then Binding(ops[0].address, ops[0].port)
                  else binding;
      BindingAfter(next, ops[1..], reports[1..])
  }

  lemma ApplyFollowsBinding(s: Socket, op: Op)
    requires Inv(s)
    ensures var (r, ok) := Apply(s, op);
      Binding(r.address, r.port) == if op.DoClose? then Binding(INVALID, 0)
                                    else if op.DoBind? && ok then Binding(op.address, op.port)
                                    else Binding(s.address, s.port)
  {
    match op
    case DoBind(m, address, port) => BindReport(s, m, address, port);
    case _ =>
  }

  lemma {:induction false} BindingIsHistory(s: Socket, ops: seq<Op>)
    requires Inv(s)
    ensures var r := Exec(s, ops);
      Binding(r.address, r.port) == BindingAfter(Binding(s.address, s.port), ops, Reports(s, ops))
    decreases |ops|
  {
    if ops != [] {
      ApplyKeepsInv(s, ops[0]);
      ApplyFollowsBinding(s, ops[0]);
      var r := Apply(s, ops[0]).0;
      BindingIsHistory(r, ops[1..]);
      assert Reports(s, ops)[1..] == Reports(r, ops[1..]);
    }
  }

  // Installed filters

  /** A text that is a filter, and that admits a frame, under either precedence rule, iff the rule for these fields does. */
  ghost predicate Means(text: seq<P.Token>, address: HostAddress, port: Uint16, groups: seq<HostAddress>, enabled: bool,
                        loopback: bool, mac: Option<Mac>) {
    && P.Parse(text).Some?
    && forall pr: P.Precedence, f: Frame, top: Octet {:trigger P.MeansExpr(pr, P.Parse(text).value, f, top)} | 239 <= top ::
         P.MeansExpr(pr, P.Parse(text).value, f, top)
         <==> F.Admits(F.Config(address, port, groups, enabled), F.Device(loopback, mac), f, top)
  }

  /** The filter installed on the i-th device means the acceptance rule for the socket's fields. */
  ghost predicate Accepts(s: Socket, i: nat)
    requires i < |s.devices| && s.devices[i].handle < |s.handles|
  {
    var d, h := s.devices[i], s.handles[s.devices[i].handle];
    h.refuses || (h.filter.Some? && Means(h.filter.value, s.address, s.port, s.groups, s.loopbackEnabled, d.loopback, h.mac))
  }

  lemma FilteredAccepts(s: Socket, i: nat)
    requires Inv(s) && s.bound && i < |s.devices|
    ensures Accepts(s, i)
  {
    var d, h := s.devices[i], s.handles[s.devices[i].handle];
    assert Filtered(s, i);
    var c, v := ConfigOf(s), F.Device(d.loopback, h.mac);
    F.ParsesIffAddressValid(c, v);
    if !h.refuses {
      forall pr: P.Precedence, f: Frame, top: Octet | 239 <= top
        ensures P.MeansExpr(pr, P.Parse(F.FilterText(c, v)).value, f, top) <==> F.Admits(c, v, f, top)
      {
        F.TextMeansAdmits(pr, c, v, f, top);
      }
    }
  }

  /**
   After any run, in a bound state: the address, port, groups and flag of the acceptance rule are those
   the calls have set, and the filter on every listed device that takes filters means that rule.
   */
  lemma FiltersAcceptForHistory(valid: bool, ops: seq<Op>)
    requires Exec(Initial(valid), ops).bound
    ensures var s := Exec(Initial(valid), ops);
      && Wired(s)
      && (forall i | 0 <= i < |s.devices| :: Accepts(s, i))
      && Binding(s.address, s.port) == BindingAfter(Binding(INVALID, 0), ops, Reports(Initial(valid), ops))
      && Members(s.groups) == JoinedAfter({}, ops, Reports(Initial(valid), ops))
      && s.loopbackEnabled == LoopbackAfter(true, ops)
  {
    var s := Exec(Initial(valid), ops);
    BindingIsHistory(Initial(valid), ops);
    MembershipIsHistory(Initial(valid), ops);
    LoopbackIsHistory(Initial(valid), ops);
    assert Members(Initial(valid).groups) == {};
    forall i | 0 <= i < |s.devices|
      ensures Accepts(s, i)
    {
      FilteredAccepts(s, i);
    }
  }
}
