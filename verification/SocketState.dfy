/** The socket's configuration calls as functions on its state, and what every run of them keeps. */
module SocketState {
  import opened Common
  import opened HostAddresses
  import opened Packets
  import opened FilterGenerator
  import PcapFilter
  import R = Reassembly

  datatype Error = OK | GenericError | NpcapNotInitialized | NotBound | Timeout | SocketClosed

  /** A handle the driver has created; `closes` counts the calls to pcap_close, `refuses` that it rejects every filter. */
  datatype Handle = Handle(name: string, loopback: bool, mac: Option<Mac>, refuses: bool,
                           filter: Option<seq<PcapFilter.Token>>, closes: nat)

  datatype PcapDev = PcapDev(handle: nat, loopback: bool, name: string)

  /** `handles` belongs to the driver and only grows; all other fields belong to the socket. */
  datatype Socket = Socket(
    valid: bool, bound: bool, address: HostAddress, port: Uint16,
    groups: seq<HostAddress>, loopbackEnabled: bool, closed: bool,
    devices: seq<PcapDev>, events: seq<nat>, reassemblies: seq<R.State>,
    handles: seq<Handle>)

  function Initial(valid: bool): Socket {
    Socket(valid, false, INVALID, 0, [], true, false, [], [], [], [])
  }

  datatype OpenOutcome = CreateFails | ActivateFails | Opens(mac: Option<Mac>, refuses: bool)

  /** The machine a bind call finds. */
  datatype Machine = Machine(
    all: seq<string>,
    byIp: HostAddress -> Option<string>,
    loopbackName: string,
    isLoopback: string -> bool,
    open: string -> OpenOutcome)

  // Filters

  function ConfigOf(s: Socket): Config {
    Config(s.address, s.port, s.groups, s.loopbackEnabled)
  }

  /** Every listed device names an existing handle. */
  predicate Wired(s: Socket) {
    forall i | 0 <= i < |s.devices| :: s.devices[i].handle < |s.handles|
  }

  function FilterFor(s: Socket, i: nat): seq<PcapFilter.Token>
    requires Wired(s) && i < |s.devices|
  {
    FilterText(ConfigOf(s), Device(s.devices[i].loopback, s.handles[s.devices[i].handle].mac))
  }

  /** Two states that differ at most in installed filters. */
  predicate SameButFilters(s: Socket, r: Socket) {
    && r == s.(handles := r.handles)
    && |r.handles| == |s.handles|
    && forall h | 0 <= h < |s.handles| :: r.handles[h] == s.handles[h].(filter := r.handles[h].filter)
  }

  /** pcap_compile, as far as its result matters: a program for a text that is a filter. */
  function Compile(text: seq<PcapFilter.Token>): Option<seq<PcapFilter.Token>> {
    if PcapFilter.Parse(text).Some? then Some(text) else None
  }

  /** The programs of all devices under the current configuration. */
  function Programs(s: Socket): (r: seq<Option<seq<PcapFilter.Token>>>)
    requires Wired(s)
    ensures |r| == |s.devices|
  {
    seq(|s.devices|, i requires 0 <= i < |s.devices| => Compile(FilterFor(s, i)))
  }

  /** Install a compiled program; a failure of either step leaves the old filter in place. */
  function Install(handles: seq<Handle>, h: nat, program: Option<seq<PcapFilter.Token>>): (r: seq<Handle>)
    requires h < |handles|
    ensures |r| == |handles|
    ensures forall g | 0 <= g < |r| :: r[g] == handles[g].(filter := r[g].filter)
  {
    if program.None? || handles[h].refuses then handles
    else handles[h := handles[h].(filter := program)]
  }

  /** The loop over the first n devices. */
  function InstallAll(handles: seq<Handle>, devices: seq<PcapDev>, programs: seq<Option<seq<PcapFilter.Token>>>, n: nat)
    : (r: seq<Handle>)
    requires n <= |devices| == |programs| && forall i | 0 <= i < |devices| :: devices[i].handle < |handles|
    ensures |r| == |handles|
    ensures forall g | 0 <= g < |r| :: r[g] == handles[g].(filter := r[g].filter)
  {
    if n == 0 then handles
    else Install(InstallAll(handles, devices, programs, n - 1), devices[n-1].handle, programs[n-1])
  }

  /** updateAllCaptureFilters */
  function UpdateFilters(s: Socket): (r: Socket)
    requires Wired(s)
    ensures Wired(r) && SameButFilters(s, r)
  {
    s.(handles := InstallAll(s.handles, s.devices, Programs(s), |s.devices|))
  }

  // bind

  /** openPcapDevice_nolock */
  function OpenDevice(s: Socket, m: Machine, name: string): (r: (Socket, bool))
    requires Wired(s)
    ensures Wired(r.0)
  {
    match m.open(name)
    case CreateFails => (s, false)
    case ActivateFails =>
      (s.(handles := s.handles + [Handle(name, m.isLoopback(name), None, false, None, 1)]), false)
    case Opens(mac, refuses) =>
      (s.(handles := s.handles + [Handle(name, m.isLoopback(name), mac, refuses, None, 0)],
          devices := s.devices + [PcapDev(|s.handles|, m.isLoopback(name), name)],
          events := s.events + [|s.handles|],
          reassemblies := s.reassemblies + [R.EMPTY]), true)
  }

  function OpenAll(s: Socket, m: Machine, names: seq<string>): (r: Socket)
    requires Wired(s)
    ensures Wired(r)
    decreases |names|
  {
    if names == [] then s else OpenAll(OpenDevice(s, m, names[0]).0, m, names[1..])
  }

  function Commit(s: Socket, address: HostAddress, port: Uint16): Socket
    requires Wired(s)
  {
    var s' := s.(address := address, port := port, bound := true, closed := false);
    UpdateFilters(s')
  }

  /** The devices a bind opens: the socket with them, and whether the bind goes on. */
  function OpenFor(s: Socket, m: Machine, address: HostAddress): (r: (Socket, bool))
    requires Wired(s)
    ensures Wired(r.0)
  {
    if address.IsLoopback() then OpenDevice(s, m, m.loopbackName)
    else if address == ANY then
      if m.all == [] then (s, false) else (OpenAll(s, m, m.all), true)
    else match m.byIp(address)
      case None => (s, false)
      case Some(name) =>
        var (s', ok) := OpenDevice(s, m, name);
        if ok then OpenDevice(s', m, m.loopbackName) else (s', false)
  }

  function Bind(s: Socket, m: Machine, address: HostAddress, port: Uint16): (Socket, bool)
    requires Wired(s)
  {
    if !s.valid || s.bound || !address.valid then (s, false)
    else
      var (s', ok) := OpenFor(s, m, address);
      if ok then (Commit(s', address, port), true) else (s', false)
  }

  // close

  /** pcap_close on the handles of the first n devices. */
  function CloseHandles(handles: seq<Handle>, devices: seq<PcapDev>, n: nat): (r: seq<Handle>)
    requires n <= |devices| && forall i | 0 <= i < |devices| :: devices[i].handle < |handles|
    ensures |r| == |handles|
    ensures forall g | 0 <= g < |r| :: r[g] == handles[g].(closes := r[g].closes)
  {
    if n == 0 then handles
    else
      var r := CloseHandles(handles, devices, n - 1);
      var h := devices[n-1].handle;
      r[h := r[h].(closes := r[h].closes + 1)]
  }

  function Close(s: Socket): Socket
    requires Wired(s)
  {
    s.(closed := true, handles := CloseHandles(s.handles, s.devices, |s.devices|),
       devices := [], events := [], reassemblies := [],
       bound := false, port := 0, address := INVALID)
  }

  lemma CloseResult(s: Socket, r: Socket)
    requires Wired(s) && r.handles == CloseHandles(s.handles, s.devices, |s.devices|)
    requires r.valid == s.valid && r.groups == s.groups && r.loopbackEnabled == s.loopbackEnabled
    requires r.closed && !r.bound && r.port == 0 && r.address == INVALID
    requires r.devices == [] && r.events == [] && r.reassemblies == []
    ensures r == Close(s)
  {
  }

  // Multicast

  function Join(s: Socket, g: HostAddress): (Socket, bool)
    requires Wired(s)
  {
    if !s.valid || !g.valid || !g.IsMulticast() || !s.bound || Contains(s.groups, g) then (s, false)
    else
      var s' := s.(groups := Insert(s.groups, g));
      (UpdateFilters(s'), true)
  }

  function Leave(s: Socket, g: HostAddress): (Socket, bool)
    requires Wired(s)
  {
    if !s.valid || !g.valid || !Contains(s.groups, g) then (s, false)
    else
      var s' := s.(groups := Erase(s.groups, g));
      (UpdateFilters(s'), true)
  }

  function SetLoopback(s: Socket, enabled: bool): Socket
    requires Wired(s)
  {
    if s.loopbackEnabled == enabled then s
    else
      var s' := s.(loopbackEnabled := enabled);
      UpdateFilters(s')
  }

  /** The first checks of a receive call, in the order they are made. */
  function EntryError(s: Socket): Option<Error> {
    if !s.valid then Some(NpcapNotInitialized)
    else if s.closed then Some(SocketClosed)
    else if !s.bound then Some(NotBound)
    else None
  }

  // What holds at rest

  ghost predicate Aligned(s: Socket) {
    && |s.events| == |s.reassemblies| == |s.devices|
    && (forall i | 0 <= i < |s.devices| :: s.events[i] == s.devices[i].handle)
  }

  predicate Listed(s: Socket, h: nat) {
    exists i | 0 <= i < |s.devices| :: s.devices[i].handle == h
  }

  ghost predicate HandlesDiffer(devices: seq<PcapDev>) {
    forall i, j | 0 <= i < j < |devices| :: devices[i].handle != devices[j].handle
  }

  /** Every handle ever created is listed once and open, or not listed and closed exactly once. */
  ghost predicate Conserved(s: Socket) {
    && Wired(s)
    && HandlesDiffer(s.devices)
    && (forall h | 0 <= h < |s.handles| :: s.handles[h].closes == if Listed(s, h) then 0 else 1)
    && (forall i | 0 <= i < |s.devices| :: s.devices[i].loopback == s.handles[s.devices[i].handle].loopback)
  }

  ghost predicate GroupsOk(s: Socket) {
    Ascending(s.groups) && forall i | 0 <= i < |s.groups| :: s.groups[i].IsMulticast()
  }

  ghost predicate ModesOk(s: Socket) {
    if s.bound then s.address.valid && !s.closed else s.address == INVALID && s.port == 0
  }

  /** The i-th device carries the filter of the current configuration, unless its driver refuses filters. */
  ghost predicate Filtered(s: Socket, i: nat)
    requires Wired(s) && i < |s.devices|
  {
    var handle := s.handles[s.devices[i].handle];
    handle.refuses || handle.filter == Some(FilterFor(s, i))
  }

  ghost predicate Inv(s: Socket) {
    && Aligned(s)
    && Conserved(s)
    && GroupsOk(s)
    && ModesOk(s)
    && (s.bound ==> forall i | 0 <= i < |s.devices| :: Filtered(s, i))
  }

  // Filters agree with the configuration

  lemma SameButFiltersKeeps(s: Socket, r: Socket)
    requires Conserved(s) && SameButFilters(s, r)
    ensures Conserved(r)
  {
  }

  /** `programs` are the compiled filters of all devices of `s`. */
  ghost predicate ArePrograms(s: Socket, programs: seq<Option<seq<PcapFilter.Token>>>)
    requires Wired(s)
  {
    && |programs| == |s.devices|
    && forall i {:trigger FilterFor(s, i)} | 0 <= i < |s.devices| :: programs[i] == Compile(FilterFor(s, i))
  }

  lemma ProgramUnchanged(s: Socket, programs: seq<Option<seq<PcapFilter.Token>>>, n: nat, i: nat)
    requires Wired(s) && ArePrograms(s, programs) && i < |s.devices| && n <= |s.devices|
    ensures var r := s.(handles := InstallAll(s.handles, s.devices, programs, n));
      Wired(r) && Compile(FilterFor(r, i)) == programs[i]
  {
  }

  lemma SameFilterFor(s: Socket, r: Socket, i: nat)
    requires Wired(s) && Wired(r) && SameButFilters(s, r) && i < |s.devices|
    ensures FilterFor(r, i) == FilterFor(s, i)
  {
  }

  lemma ProgramFor(s: Socket, i: nat)
    requires Wired(s) && i < |s.devices| && GroupsOk(s)
    ensures PcapFilter.Parse(FilterFor(s, i)).Some? <==> s.address.valid
    ensures Programs(s)[i] == if s.address.valid then Some(FilterFor(s, i)) else None
  {
    ParsesIffAddressValid(ConfigOf(s), Device(s.devices[i].loopback, s.handles[s.devices[i].handle].mac));
  }

  lemma {:induction false} InstallAllInstalls(
      handles: seq<Handle>, devices: seq<PcapDev>, programs: seq<Option<seq<PcapFilter.Token>>>, n: nat, i: nat)
    requires i < n <= |devices| == |programs| && forall k | 0 <= k < |devices| :: devices[k].handle < |handles|
    requires HandlesDiffer(devices) && programs[i].Some?
    ensures var h := InstallAll(handles, devices, programs, n)[devices[i].handle]; h.refuses || h.filter == programs[i]
    decreases n
  {
    if i < n - 1 {
      InstallAllInstalls(handles, devices, programs, n - 1, i);
      assert devices[i].handle != devices[n-1].handle;
    }
  }

  lemma {:induction false} InstallNothing(
      handles: seq<Handle>, devices: seq<PcapDev>, programs: seq<Option<seq<PcapFilter.Token>>>, n: nat)
    requires n <= |devices| == |programs| && forall k | 0 <= k < |devices| :: devices[k].handle < |handles|
    requires forall k | 0 <= k < |programs| :: programs[k].None?
    ensures InstallAll(handles, devices, programs, n) == handles
  {
    if n > 0 {
      InstallNothing(handles, devices, programs, n - 1);
    }
  }

  lemma BoundFiltersInstalled(s: Socket, i: nat)
    requires Conserved(s) && i < |s.devices| && s.address.valid && GroupsOk(s)
    ensures Filtered(UpdateFilters(s), i)
  {
    ProgramFor(s, i);
    InstallAllInstalls(s.handles, s.devices, Programs(s), |s.devices|, i);
    SameFilterFor(s, UpdateFilters(s), i);
  }

  /** Without a bound address the generator's text is rejected, so no filter is touched. */
  lemma UnboundLeavesFilters(s: Socket)
    requires Wired(s) && !s.address.valid && GroupsOk(s)
    ensures UpdateFilters(s) == s
  {
    forall k | 0 <= k < |s.devices|
      ensures Programs(s)[k].None?
    {
      ProgramFor(s, k);
    }
    InstallNothing(s.handles, s.devices, Programs(s), |s.devices|);
  }

  /** Reconfiguring the filters keeps everything that holds at rest, bound or not. */
  lemma UpdateAllKeepsInv(s: Socket)
    requires Aligned(s) && Conserved(s) && GroupsOk(s) && ModesOk(s)
    ensures Inv(UpdateFilters(s))
  {
    SameButFiltersKeeps(s, UpdateFilters(s));
    if s.bound {
      forall i | 0 <= i < |s.devices|
        ensures Filtered(UpdateFilters(s), i)
      {
        BoundFiltersInstalled(s, i);
      }
    } else {
      UnboundLeavesFilters(s);
    }
  }

  // Handles are conserved

  /** What holds while a bind is opening devices: the socket is still unbound. */
  ghost predicate Opening(s: Socket) {
    Aligned(s) && Conserved(s) && GroupsOk(s) && !s.bound && ModesOk(s)
  }

  lemma ListedAfterAppend(s: Socket, d: PcapDev, r: Socket, h: nat)
    requires r.devices == s.devices + [d]
    ensures Listed(r, h) <==> Listed(s, h) || h == d.handle
  {
    assert r.devices[|s.devices|] == d;
    if Listed(s, h) {
      var i :| 0 <= i < |s.devices| && s.devices[i].handle == h;
      assert r.devices[i].handle == h;
    }
  }

  lemma UnlistedHandleAppended(s: Socket, h: Handle)
    requires Opening(s) && h.closes == 1
    ensures Opening(s.(handles := s.handles + [h]))
  {
  }

  lemma ListedHandleAppended(s: Socket, h: Handle, name: string)
    requires Opening(s) && h.closes == 0
    ensures Opening(s.(handles := s.handles + [h],
                       devices := s.devices + [PcapDev(|s.handles|, h.loopback, name)],
                       events := s.events + [|s.handles|],
                       reassemblies := s.reassemblies + [R.EMPTY]))
  {
    var d := PcapDev(|s.handles|, h.loopback, name);
    var r := s.(handles := s.handles + [h], devices := s.devices + [d],
                events := s.events + [|s.handles|], reassemblies := s.reassemblies + [R.EMPTY]);
    forall g | 0 <= g < |r.handles|
      ensures r.handles[g].closes == if Listed(r, g) then 0 else 1
    {
      ListedAfterAppend(s, d, r, g);
      assert !Listed(s, |s.handles|);
    }
  }

  lemma OpenDeviceKeeps(s: Socket, m: Machine, name: string)
    requires Opening(s)
    ensures Opening(OpenDevice(s, m, name).0)
  {
    match m.open(name)
    case CreateFails =>
    case ActivateFails => UnlistedHandleAppended(s, Handle(name, m.isLoopback(name), None, false, None, 1));
    case Opens(mac, refuses) => ListedHandleAppended(s, Handle(name, m.isLoopback(name), mac, refuses, None, 0), name);
  }

  /** Opening devices changes the three lists and the driver's handles only. */
  predicate OnlyDevicesDiffer(s: Socket, r: Socket) {
    r == s.(handles := r.handles, devices := r.devices, events := r.events, reassemblies := r.reassemblies)
  }

  lemma OpenDeviceFrame(s: Socket, m: Machine, name: string)
    requires Wired(s)
    ensures OnlyDevicesDiffer(s, OpenDevice(s, m, name).0)
  {
  }

  lemma {:induction false} OpenAllFrame(s: Socket, m: Machine, names: seq<string>)
    requires Wired(s)
    ensures OnlyDevicesDiffer(s, OpenAll(s, m, names))
    decreases |names|
  {
    if names != [] {
      OpenDeviceFrame(s, m, names[0]);
      OpenAllFrame(OpenDevice(s, m, names[0]).0, m, names[1..]);
    }
  }

  lemma OpenForFrame(s: Socket, m: Machine, address: HostAddress)
    requires Wired(s)
    ensures OnlyDevicesDiffer(s, OpenFor(s, m, address).0)
  {
    if address.IsLoopback() {
      OpenDeviceFrame(s, m, m.loopbackName);
    } else if address == ANY {
      OpenAllFrame(s, m, m.all);
    } else if m.byIp(address).Some? {
      OpenDeviceFrame(s, m, m.byIp(address).value);
      OpenDeviceFrame(OpenDevice(s, m, m.byIp(address).value).0, m, m.loopbackName);
    }
  }

  lemma {:induction false} OpenAllKeeps(s: Socket, m: Machine, names: seq<string>)
    requires Opening(s)
    ensures Opening(OpenAll(s, m, names))
    decreases |names|
  {
    if names != [] {
      OpenDeviceKeeps(s, m, names[0]);
      OpenAllKeeps(OpenDevice(s, m, names[0]).0, m, names[1..]);
    }
  }

  lemma OpenForKeeps(s: Socket, m: Machine, address: HostAddress)
    requires Opening(s)
    ensures Opening(OpenFor(s, m, address).0) && OnlyDevicesDiffer(s, OpenFor(s, m, address).0)
  {
    OpenForFrame(s, m, address);
    if address.IsLoopback() {
      OpenDeviceKeeps(s, m, m.loopbackName);
    } else if address == ANY {
      OpenAllKeeps(s, m, m.all);
    } else if m.byIp(address).Some? {
      OpenDeviceKeeps(s, m, m.byIp(address).value);
      OpenDeviceKeeps(OpenDevice(s, m, m.byIp(address).value).0, m, m.loopbackName);
    }
  }

  lemma BindKeepsInv(s: Socket, m: Machine, address: HostAddress, port: Uint16)
    requires Inv(s)
    ensures Inv(Bind(s, m, address, port).0)
  {
    if s.valid && !s.bound && address.valid {
      OpenForKeeps(s, m, address);
      var (s', ok) := OpenFor(s, m, address);
      if ok {
        var b := s'.(address := address, port := port, bound := true, closed := false);
        assert forall h | 0 <= h < |b.handles| :: Listed(b, h) == Listed(s', h);
        UpdateAllKeepsInv(b);
      }
    }
  }

  // What a bind opens, and when it succeeds

  function Names(devices: seq<PcapDev>): (r: seq<string>)
    ensures |r| == |devices|
  {
    seq(|devices|, i requires 0 <= i < |devices| => devices[i].name)
  }

  predicate CanOpen(m: Machine, name: string) {
    m.open(name).Opens?
  }

  /** The adapters an address stands for, in the order they are opened. */
  function Wanted(m: Machine, address: HostAddress): seq<string> {
    if address.IsLoopback() then [m.loopbackName]
    else if address == ANY then m.all
    else match m.byIp(address)
      case None => []
      case Some(name) => [name, m.loopbackName]
  }

  function Openable(m: Machine, names: seq<string>): seq<string> {
    if names == [] then []
    else (if CanOpen(m, names[0]) then [names[0]] else []) + Openable(m, names[1..])
  }

  function UpToFailure(m: Machine, names: seq<string>): seq<string> {
    if names == [] || !CanOpen(m, names[0]) then [] else [names[0]] + UpToFailure(m, names[1..])
  }

  /** Only a bind to Any goes on after an adapter that cannot be opened. */
  function Opened(m: Machine, address: HostAddress): seq<string> {
    if address == ANY then Openable(m, Wanted(m, address)) else UpToFailure(m, Wanted(m, address))
  }

  lemma OpenDeviceNames(s: Socket, m: Machine, name: string)
    requires Wired(s)
    ensures OpenDevice(s, m, name).1 == CanOpen(m, name)
    ensures Names(OpenDevice(s, m, name).0.devices) == Names(s.devices) + (if CanOpen(m, name) then [name] else [])
  {
  }

  lemma {:induction false} OpenAllNames(s: Socket, m: Machine, names: seq<string>)
    requires Wired(s)
    ensures Names(OpenAll(s, m, names).devices) == Names(s.devices) + Openable(m, names)
    decreases |names|
  {
    if names != [] {
      OpenDeviceNames(s, m, names[0]);
      OpenAllNames(OpenDevice(s, m, names[0]).0, m, names[1..]);
    }
  }

  lemma {:induction false} OpenForNames(s: Socket, m: Machine, address: HostAddress)
    requires Wired(s)
    ensures Names(OpenFor(s, m, address).0.devices) == Names(s.devices) + Opened(m, address)
    ensures OpenFor(s, m, address).1 <==>
              Wanted(m, address) != [] && (address == ANY || forall name | name in Wanted(m, address) :: CanOpen(m, name))
  {
    var loopback := m.loopbackName;
    assert UpToFailure(m, [loopback]) == if CanOpen(m, loopback) then [loopback] else [] by {
      assert UpToFailure(m, [loopback][1..]) == [];
    }
    if address.IsLoopback() {
      OpenDeviceNames(s, m, loopback);
    } else if address == ANY {
      OpenAllNames(s, m, m.all);
    } else if m.byIp(address).Some? {
      var name := m.byIp(address).value;
      assert [name, loopback][1..] == [loopback];
      OpenDeviceNames(s, m, name);
      OpenDeviceNames(OpenDevice(s, m, name).0, m, loopback);
    }
  }

  /**
   A bind succeeds exactly on a valid, unbound socket for a valid address whose adapters exist and, but
   for Any, can all be opened. The listed devices grow by those that were opened, also when it fails.
   */
  lemma BindReport(s: Socket, m: Machine, address: HostAddress, port: Uint16)
    requires Inv(s)
    ensures var (r, ok) := Bind(s, m, address, port); var tries := s.valid && !s.bound && address.valid;
      && (ok <==> tries && Wanted(m, address) != []
                  && (address == ANY || forall name | name in Wanted(m, address) :: CanOpen(m, name)))
      && Names(r.devices) == Names(s.devices) + (if tries then Opened(m, address) else [])
      && (if ok then r.bound && !r.closed && r.address == address && r.port == port
          else OnlyDevicesDiffer(s, r))
      && r.groups == s.groups && r.loopbackEnabled == s.loopbackEnabled
  {
    if s.valid && !s.bound && address.valid {
      OpenForNames(s, m, address);
      OpenForFrame(s, m, address);
    } else {
      assert Names(s.devices) + [] == Names(s.devices);
    }
  }

  predicate ListedBefore(s: Socket, n: nat, h: nat)
    requires n <= |s.devices|
  {
    exists i | 0 <= i < n :: s.devices[i].handle == h
  }

  lemma ListedStep(s: Socket, n: nat, h: nat)
    requires 0 < n <= |s.devices|
    ensures ListedBefore(s, n, h) <==> ListedBefore(s, n - 1, h) || s.devices[n-1].handle == h
  {
  }

  lemma {:induction false} CloseHandlesCounts(s: Socket, n: nat, h: nat)
    requires Conserved(s) && n <= |s.devices| && h < |s.handles|
    ensures CloseHandles(s.handles, s.devices, n)[h].closes == s.handles[h].closes + if ListedBefore(s, n, h) then 1 else 0
  {
    if n > 0 {
      CloseHandlesCounts(s, n - 1, h);
      ListedStep(s, n, h);
      assert s.devices[n-1].handle == h ==> !ListedBefore(s, n - 1, h);
    }
  }

  /** After close every handle ever created has been closed exactly once, however often close has run before. */
  lemma CloseClosesAll(s: Socket)
    requires Inv(s)
    ensures Inv(Close(s))
    ensures forall h | 0 <= h < |Close(s).handles| :: Close(s).handles[h].closes == 1
    ensures Close(s).groups == s.groups
  {
    forall h | 0 <= h < |s.handles|
      ensures Close(s).handles[h].closes == 1 && !Listed(Close(s), h)
    {
      CloseHandlesCounts(s, |s.devices|, h);
      assert Listed(s, h) <==> ListedBefore(s, |s.devices|, h);
    }
  }

  // Multicast calls

  lemma MembersMulticast(s: Socket, xs: seq<HostAddress>)
    requires Ascending(xs) && forall g | g in Members(xs) :: g.IsMulticast()
    ensures GroupsOk(s.(groups := xs))
  {
  }

  lemma RegroupedKeeps(s: Socket, xs: seq<HostAddress>)
    requires Inv(s) && Ascending(xs) && forall g | g in Members(xs) :: g.IsMulticast()
    ensures var s' := s.(groups := xs); Inv(UpdateFilters(s'))
  {
    var s' := s.(groups := xs);
    MembersMulticast(s, xs);
    assert forall h | 0 <= h < |s.handles| :: Listed(s', h) == Listed(s, h);
    UpdateAllKeepsInv(s');
  }

  lemma MembersAreMulticast(s: Socket)
    requires GroupsOk(s)
    ensures forall g | g in Members(s.groups) :: g.IsMulticast()
  {
  }

  /** Joining succeeds exactly for a multicast address that is not yet a member of a bound, valid socket. */
  lemma JoinReport(s: Socket, g: HostAddress)
    requires Inv(s)
    ensures Join(s, g).1 <==> s.valid && g.IsMulticast() && s.bound && g !in s.groups
    ensures Members(Join(s, g).0.groups) == if Join(s, g).1 then Members(s.groups) + {g} else Members(s.groups)
  {
    if g.valid {
      ContainsRefinesMembership(s.groups, g);
      InsertRefinesUnion(s.groups, g);
    }
  }

  lemma JoinKeepsInv(s: Socket, g: HostAddress)
    requires Inv(s)
    ensures Inv(Join(s, g).0)
  {
    if Join(s, g).1 {
      InsertRefinesUnion(s.groups, g);
      MembersAreMulticast(s);
      RegroupedKeeps(s, Insert(s.groups, g));
    }
  }

  /** Leaving succeeds exactly for members, bound or not. */
  lemma LeaveReport(s: Socket, g: HostAddress)
    requires Inv(s)
    ensures Leave(s, g).1 <==> s.valid && g in s.groups
    ensures Members(Leave(s, g).0.groups) == if Leave(s, g).1 then Members(s.groups) - {g} else Members(s.groups)
  {
    if g.valid {
      ContainsRefinesMembership(s.groups, g);
      EraseRefinesDifference(s.groups, g);
    } else {
      assert g !in s.groups;
    }
  }

  lemma LeaveKeepsInv(s: Socket, g: HostAddress)
    requires Inv(s)
    ensures Inv(Leave(s, g).0)
  {
    if Leave(s, g).1 {
      EraseRefinesDifference(s.groups, g);
      MembersAreMulticast(s);
      RegroupedKeeps(s, Erase(s.groups, g));
    }
  }

  lemma SetLoopbackKeepsInv(s: Socket, enabled: bool)
    requires Inv(s)
    ensures Inv(SetLoopback(s, enabled))
  {
    var s' := s.(loopbackEnabled := enabled);
    assert forall h | 0 <= h < |s.handles| :: Listed(s', h) == Listed(s, h);
    UpdateAllKeepsInv(s');
  }

  lemma ReceiveKeepsInv(s: Socket, reassemblies: seq<R.State>)
    requires Inv(s)
    ensures Inv(Receive(s, reassemblies))
  {
    var r := Receive(s, reassemblies);
    assert forall h | 0 <= h < |s.handles| :: Listed(r, h) == Listed(s, h);
    forall i | s.bound && 0 <= i < |s.devices|
      ensures Filtered(r, i)
    {
      assert Filtered(s, i);
      assert ConfigOf(r) == ConfigOf(s);
    }
  }

  // Runs

  datatype Op =
    | DoBind(machine: Machine, address: HostAddress, port: Uint16)
    | DoClose
    | DoJoin(group: HostAddress)
    | DoLeave(group: HostAddress)
    | DoSetLoopback(enabled: bool)
    | DoReceive(reassemblies: seq<R.State>)

  /** A receive call touches the reassembly states of the listed devices and nothing else. */
  function Receive(s: Socket, reassemblies: seq<R.State>): Socket {
    if |reassemblies| == |s.reassemblies| then s.(reassemblies := reassemblies) else s
  }

  /** The state after a call and what the call reports; calls without a result count as successful. */
  function Apply(s: Socket, op: Op): (Socket, bool)
    requires Wired(s)
  {
    match op
    case DoBind(m, address, port) => Bind(s, m, address, port)
    case DoClose => (Close(s), true)
    case DoJoin(g) => Join(s, g)
    case DoLeave(g) => Leave(s, g)
    case DoSetLoopback(enabled) => (SetLoopback(s, enabled), true)
    case DoReceive(reassemblies) => (Receive(s, reassemblies), true)
  }

  lemma ApplyKeepsInv(s: Socket, op: Op)
    requires Inv(s)
    ensures Inv(Apply(s, op).0)
  {
    match op
    case DoBind(m, address, port) => BindKeepsInv(s, m, address, port);
    case DoClose => CloseClosesAll(s);
    case DoJoin(g) => JoinKeepsInv(s, g);
    case DoLeave(g) => LeaveKeepsInv(s, g);
    case DoSetLoopback(enabled) => SetLoopbackKeepsInv(s, enabled);
    case DoReceive(reassemblies) => ReceiveKeepsInv(s, reassemblies);
  }

  /** A run: the states it goes through are those of its prefixes. */
  ghost function Exec(s: Socket, ops: seq<Op>): (r: Socket)
    requires Inv(s)
    ensures Inv(r)
    decreases |ops|
  {
    if ops == [] then s
    else
      ApplyKeepsInv(s, ops[0]);
      Exec(Apply(s, ops[0]).0, ops[1..])
  }

  /** What the calls of a run report. */
  ghost function Reports(s: Socket, ops: seq<Op>): (r: seq<bool>)
    requires Inv(s)
    ensures |r| == |ops|
    decreases |ops|
  {
    if ops == [] then []
    else
      ApplyKeepsInv(s, ops[0]);
      [Apply(s, ops[0]).1] + Reports(Apply(s, ops[0]).0, ops[1..])
  }

  /**
   Over every run of successful, partly failing and repeated calls: each handle the driver created is
   listed once and open or closed exactly once, the three lists are aligned, and every listed device of
   a bound socket carries a filter that can be compiled and was generated from the current configuration.
   */
  lemma RunsConserveAndFilter(valid: bool, ops: seq<Op>)
    ensures Inv(Initial(valid))
    ensures var s := Exec(Initial(valid), ops);
      && Conserved(s) && Aligned(s)
      && (s.bound ==> forall i | 0 <= i < |s.devices| ::
            Filtered(s, i) && PcapFilter.Parse(FilterFor(s, i)).Some?)
  {
    var s := Exec(Initial(valid), ops);
    if s.bound {
      forall i | 0 <= i < |s.devices|
        ensures PcapFilter.Parse(FilterFor(s, i)).Some?
      {
        ProgramFor(s, i);
      }
    }
  }

  // History

  /** The latest of the successful binds and the closes. */
  datatype Phase = NeverBound | LastBound | LastClosed

  ghost function PhaseAfter(phase: Phase, ops: seq<Op>, reports: seq<bool>): Phase
    requires |reports| == |ops|
    decreases |ops|
  {
    if ops == [] then phase
    else
      var next := if ops[0].DoClose? then LastClosed
                  else if ops[0].DoBind? && reports[0] then LastBound
                  else phase;
      PhaseAfter(next, ops[1..], reports[1..])
  }

  ghost predicate InPhase(s: Socket, phase: Phase) {
    && (s.bound <==> phase == LastBound)
    && (s.closed <==> phase == LastClosed)
  }

  lemma ApplyFollowsPhase(s: Socket, op: Op, phase: Phase)
    requires Inv(s) && InPhase(s, phase)
    ensures InPhase(Apply(s, op).0,
                    if op.DoClose? then LastClosed else if op.DoBind? && Apply(s, op).1 then LastBound else phase)
    ensures Apply(s, op).0.valid == s.valid
  {
    if op.DoBind? && s.valid && !s.bound && op.address.valid {
      OpenForKeeps(s, op.machine, op.address);
    }
  }

  lemma {:induction false} RunFollowsPhase(s: Socket, ops: seq<Op>, phase: Phase)
    requires Inv(s) && InPhase(s, phase)
    ensures InPhase(Exec(s, ops), PhaseAfter(phase, ops, Reports(s, ops)))
    ensures Exec(s, ops).valid == s.valid
    decreases |ops|
  {
    if ops != [] {
      ApplyKeepsInv(s, ops[0]);
      ApplyFollowsPhase(s, ops[0], phase);
      var s' := Apply(s, ops[0]).0;
      var next := if ops[0].DoClose? then LastClosed
                  else if ops[0].DoBind? && Apply(s, ops[0]).1 then LastBound else phase;
      RunFollowsPhase(s', ops[1..], next);
      assert Reports(s, ops)[1..] == Reports(s', ops[1..]);
    }
  }

  /** The error a receive call starts with depends on the latest successful bind or close only; an invalid socket has its own. */
  lemma EntryErrorIsHistory(valid: bool, ops: seq<Op>)
    ensures Inv(Initial(valid))
    ensures EntryError(Exec(Initial(valid), ops))
         == if !valid then Some(NpcapNotInitialized)
            else match PhaseAfter(NeverBound, ops, Reports(Initial(valid), ops))
              case NeverBound => Some(NotBound)
              case LastBound => None
              case LastClosed => Some(SocketClosed)
  {
    RunFollowsPhase(Initial(valid), ops, NeverBound);
  }

  /** Successful joins minus successful leaves. */
  ghost function JoinedAfter(joined: set<HostAddress>, ops: seq<Op>, reports: seq<bool>): set<HostAddress>
    requires |reports| == |ops|
    decreases |ops|
  {
    if ops == [] then joined
    else
      var next := if ops[0].DoJoin? && reports[0] then joined + {ops[0].group}
                  else if ops[0].DoLeave? && reports[0] then joined - {ops[0].group}
                  else joined;
      JoinedAfter(next, ops[1..], reports[1..])
  }

  lemma ApplyFollowsMembership(s: Socket, op: Op)
    requires Inv(s)
    ensures Members(Apply(s, op).0.groups)
         == if op.DoJoin? && Apply(s, op).1 then Members(s.groups) + {op.group}
            else if op.DoLeave? && Apply(s, op).1 then Members(s.groups) - {op.group}
            else Members(s.groups)
  {
    match op
    case DoBind(m, address, _) =>
      if s.valid && !s.bound && address.valid {
        OpenForKeeps(s, m, address);
      }
    case DoClose => CloseClosesAll(s);
    case DoJoin(g) => JoinReport(s, g);
    case DoLeave(g) => LeaveReport(s, g);
    case _ =>
  }

  /** Membership after any run, across closes and later binds; members are valid multicast addresses. */
  lemma {:induction false} MembershipIsHistory(s: Socket, ops: seq<Op>)
    requires Inv(s)
    ensures Members(Exec(s, ops).groups) == JoinedAfter(Members(s.groups), ops, Reports(s, ops))
    ensures forall g | g in Exec(s, ops).groups :: g.IsMulticast()
    decreases |ops|
  {
    if ops != [] {
      ApplyKeepsInv(s, ops[0]);
      ApplyFollowsMembership(s, ops[0]);
      var s' := Apply(s, ops[0]).0;
      MembershipIsHistory(s', ops[1..]);
      assert Reports(s, ops)[1..] == Reports(s', ops[1..]);
    }
  }
}
