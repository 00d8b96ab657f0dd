/** From a captured frame to the caller's buffers: the packet handler and the argument record it fills in. */
module PacketHandler {
  import opened Common
  import opened HostAddresses
  import opened Packets
  import opened Reassembly
  import opened Fragmentation
  import PcapFilter
  import FilterGenerator
  import IpReassemblies

  /** What a receive call passes in; the two `want` flags tell whether the pointers are non-null. */
  datatype CallArgs = CallArgs(bufferSize: nat, wantAddress: bool, wantPort: bool, boundPort: Uint16)

  /** What a successful call reports. */
  datatype Delivery = Delivery(bytes: seq<Octet>, source: Option<HostAddress>, sourcePort: Option<Uint16>)

  function Fill(args: CallArgs, ip: Ip4, udp: UdpLayer): Option<Delivery> {
    if udp.targetPort != args.boundPort then None
    else Some(Delivery(
      udp.payload[..Min(args.bufferSize, |udp.payload|)],
      if args.wantAddress then Some(HostAddress(true, ip.source)) else None,
      if args.wantPort then Some(udp.sourcePort) else None))
  }

  /** Both layers have to be there. */
  function FillFrom(args: CallArgs, f: Frame): Option<Delivery> {
    if f.net.IPv4? then
      match ParseUdp(f.net.ip4.protocol, f.net.ip4.data)
      case None => None
      case Some(udp) => Fill(args, f.net.ip4, udp)
    else None
  }

  /** The packet handler on the device's own reassembly state. */
  function Handle(c: Config, st: State, args: CallArgs, f: Frame, order: seq<int>, stamp: Stamp): (State, Option<Delivery>) {
    if !f.net.IPv4? then (st, None)
    else if f.net.ip4.IsFragment() then
      var (st', o) := ProcessPacket(c, st, f, order, stamp);
      (st', if o.packet.Some? then FillFrom(args, o.packet.value) else None)
    else (st, FillFrom(args, f))
  }

  // The same, in place

  class CallbackArgs {
    const buffer: array<Octet>
    const args: CallArgs
    var bytesCopied: nat
    var success: bool
    var sourceAddress: HostAddress
    var sourcePort: Uint16

    constructor (buffer: array<Octet>, args: CallArgs, sourceAddress: HostAddress, sourcePort: Uint16)
      requires args.bufferSize <= buffer.Length
      ensures this.buffer == buffer && this.args == args && !success && bytesCopied == 0
      ensures this.sourceAddress == sourceAddress && this.sourcePort == sourcePort
    {
      this.buffer, this.args := buffer, args;
      bytesCopied, success := 0, false;
      this.sourceAddress, this.sourcePort := sourceAddress, sourcePort;
    }

    /** The record says `d` (nothing, for None) and the rest of the caller's memory is as it was. */
    twostate predicate Reports(d: Option<Delivery>)
      reads this, buffer
    {
      match d
      case None => unchanged(this) && unchanged(buffer)
      case Some(d) =>
        && success
        && bytesCopied == |d.bytes| <= buffer.Length
        && buffer[..|d.bytes|] == d.bytes
        && buffer[|d.bytes|..] == old(buffer[|d.bytes|..])
        && sourceAddress == (if d.source.Some? then d.source.value else old(sourceAddress))
        && sourcePort == (if d.sourcePort.Some? then d.sourcePort.value else old(sourcePort))
    }

    method FillCallbackArgs(ip: Ip4, udp: UdpLayer)
      requires args.bufferSize <= buffer.Length
      modifies this, buffer
      ensures Reports(Fill(args, ip, udp))
    {
      if udp.targetPort == args.boundPort {
        if args.wantAddress {
          sourceAddress := HostAddress(true, ip.source);
        }
        if args.wantPort {
          sourcePort := udp.sourcePort;
        }
        var n := Min(args.bufferSize, |udp.payload|);
        forall i | 0 <= i < n {
          buffer[i] := udp.payload[i];
        }
        bytesCopied := n;
        success := true;
      }
    }

    method PacketHandlerRawPtr(reassembly: IpReassemblies.IpReassembly, f: Frame, order: seq<int>, stamp: Stamp)
      requires args.bufferSize <= buffer.Length && reassembly.Valid()
      modifies this, buffer, reassembly`timestamps, reassembly.engine`entries, reassembly.engine`recent
      ensures reassembly.Valid()
      ensures var (st', d) := Handle(reassembly.config, old(reassembly.Abs()), args, f, order, stamp);
        reassembly.Abs() == st' && Reports(d)
    {
      if f.net.IPv4? {
        if f.net.ip4.IsFragment() {
          var o := reassembly.ProcessPacket(f, order, stamp);
          if o.packet.Some? && o.packet.value.net.IPv4? {
            var ip := o.packet.value.net.ip4;
            var udp := ParseUdp(ip.protocol, ip.data);
            if udp.Some? {
              FillCallbackArgs(ip, udp.value);
            }
          }
        } else {
          var udp := ParseUdp(f.net.ip4.protocol, f.net.ip4.data);
          if udp.Some? {
            FillCallbackArgs(f.net.ip4, udp.value);
          }
        }
      }
    }
  }

  // Filter and handler together

  /** What a caller bound to `cfg.port` should get of unfragmented traffic. */
  predicate AddressedToUs(cfg: FilterGenerator.Config, d: FilterGenerator.Device, f: Frame, top: Octet) {
    && f.net.IPv4?
    && FilterGenerator.NotOwnTraffic(d, f)
    && (FilterGenerator.UnicastAdmitted(cfg, f.net.ip4.target, top)
        || FilterGenerator.MulticastAdmitted(cfg, d, f.net.ip4.target))
    && ParseUdp(f.net.ip4.protocol, f.net.ip4.data).Some?
    && ParseUdp(f.net.ip4.protocol, f.net.ip4.data).value.targetPort == cfg.port
  }

  /**
   The filter also admits the bound port as a source port, and the handler checks only the target port:
   together they pass exactly the unfragmented datagrams addressed to the socket.
   */
  lemma UnfragmentedDeliveredIff(
      cfg: FilterGenerator.Config, d: FilterGenerator.Device, f: Frame, top: Octet,
      c: Config, st: State, args: CallArgs, order: seq<int>, stamp: Stamp)
    requires !(f.net.IPv4? && f.net.ip4.IsFragment())
    requires args.boundPort == cfg.port
    ensures (FilterGenerator.Admits(cfg, d, f, top) && Handle(c, st, args, f, order, stamp).1.Some?)
        <==> AddressedToUs(cfg, d, f, top)
    ensures Handle(c, st, args, f, order, stamp).0 == st
  {
  }

  /** The key section 3.2 of RFC 791 asks for: the protocol takes part. */
  function FullKey(ip: Ip4): (Uint16, Uint32, Uint32, Octet) {
    (ip.id, ip.source, ip.target, ip.protocol)
  }

  /** Among frames the generated filter admits, leaving the protocol out of the key confuses no two datagrams. */
  lemma KeyDistinguishesAdmitted(cfg: FilterGenerator.Config, d: FilterGenerator.Device, top: Octet, c: Config, f: Frame, g: Frame)
    requires FilterGenerator.Admits(cfg, d, f, top) && FilterGenerator.Admits(cfg, d, g, top)
    requires c.hash(GetPacketKey(f).value) == c.hash(GetPacketKey(g).value) ==> GetPacketKey(f) == GetPacketKey(g)
    ensures HashOf(c, f) == HashOf(c, g) <==> FullKey(f.net.ip4) == FullKey(g.net.ip4)
  {
  }

  /** Without the filter it would: fragments of different protocols with one key. */
  lemma KeyConfusesUnfiltered()
    ensures exists f: Frame, g: Frame ::
              (f.net.IPv4? && g.net.IPv4?
               && GetPacketKey(f) == GetPacketKey(g) && FullKey(f.net.ip4) != FullKey(g.net.ip4))
  {
    var f := Frame(None, IPv4(Ip4(7, 1, 2, UDP, false, false, true, 0, [])));
    var g := Frame(None, IPv4(Ip4(7, 1, 2, 6, false, false, true, 0, [])));
    assert GetPacketKey(f) == GetPacketKey(g) && FullKey(f.net.ip4) != FullKey(g.net.ip4);
  }

  // Fragmentation is transparent to the caller

  function Reported(d: Option<Delivery>): seq<Delivery> {
    if d.Some? then [d.value] else []
  }

  /** What the calls handling our fragments deliver, other frames being handled in between. */
  ghost function Deliveries(c: Config, st: State, p: Flight, slots: seq<Slot>, args: CallArgs): seq<Delivery>
    requires InFlight(p) && forall s | s in slots && s.Ours? :: s.part + 1 < |p.cuts|
    decreases |slots|
  {
    if slots == [] then []
    else
      var a := ArrivalOf(p, slots[0]);
      var (st', d) := Handle(c, st, args, a.frame, a.order, a.stamp);
      (if slots[0].Ours? then Reported(d) else []) + Deliveries(c, st', p, slots[1..], args)
  }

  /** Frames that the handler passes on to the reassembly. */
  predicate Reaches(s: Slot) {
    s.Ours? || (s.arrival.frame.net.IPv4? && s.arrival.frame.net.ip4.IsFragment())
  }

  function Reaching(slots: seq<Slot>): (r: seq<Slot>)
    ensures forall s | s in r :: s in slots
  {
    if slots == [] then []
    else
      assert slots == [slots[0]] + slots[1..];
      (if Reaches(slots[0]) then [slots[0]] else []) + Reaching(slots[1..])
  }

  lemma {:induction false} EachOnceReaching(slots: seq<Slot>, missing: set<nat>)
    ensures EachOnce(Reaching(slots), missing) <==> EachOnce(slots, missing)
    decreases |slots|
  {
    if slots != [] {
      EachOnceReaching(slots[1..], MissingAfter(slots[0], missing));
      if Reaches(slots[0]) {
        assert Reaching(slots)[1..] == Reaching(slots[1..]);
      } else {
        assert Reaching(slots) == Reaching(slots[1..]);
      }
    }
  }

  function FillAll(args: CallArgs, fs: seq<Frame>): seq<Delivery> {
    if fs == [] then [] else Reported(FillFrom(args, fs[0])) + FillAll(args, fs[1..])
  }

  lemma FillMore(args: CallArgs, f: Option<Frame>, fs: seq<Frame>)
    ensures FillAll(args, (if f.Some? then [f.value] else []) + fs)
         == Reported(if f.Some? then FillFrom(args, f.value) else None) + FillAll(args, fs)
  {
    if f.Some? {
      assert ([f.value] + fs)[1..] == fs;
    } else {
      assert [] + fs == fs;
    }
  }

  lemma {:induction false} DeliveriesFollowHandedOut(c: Config, st: State, p: Flight, slots: seq<Slot>, args: CallArgs)
    requires InFlight(p) && forall s | s in slots && s.Ours? :: s.part + 1 < |p.cuts|
    ensures Deliveries(c, st, p, slots, args) == FillAll(args, HandedOut(c, st, p, Reaching(slots)))
    decreases |slots|
  {
    if slots != [] {
      var s, a := slots[0], ArrivalOf(p, slots[0]);
      DeliveriesFollowHandedOut(c, Handle(c, st, args, a.frame, a.order, a.stamp).0, p, slots[1..], args);
      if Reaches(s) {
        assert Reaching(slots)[1..] == Reaching(slots[1..]);
        var (st', o) := ProcessPacket(c, st, a.frame, a.order, a.stamp);
        FillMore(args, if s.Ours? then o.packet else None, HandedOut(c, st', p, Reaching(slots[1..])));
      } else {
        assert Reaching(slots) == Reaching(slots[1..]);
      }
    }
  }

  /**
   Fragments of a datagram, in any order and among other frames, deliver exactly what the unfragmented
   datagram would have delivered in one step: once, or not at all if it is not for the bound port.
   */
  lemma FragmentationTransparent(c: Config, st: State, p: Flight, slots: seq<Slot>, args: CallArgs, order: seq<int>, stamp: Stamp)
    requires Sync(c, st) && 0 < c.capacity && InFlight(p) && HashOf(c, p.frame) !in st.index
    requires Undisturbed(c, p, Reaching(slots))
    ensures forall s | s in slots && s.Ours? :: s.part + 1 < |p.cuts|
    ensures Deliveries(c, st, p, slots, args)
         == Reported(Handle(c, st, args, p.frame, order, stamp).1)
  {
    EachOnceReaching(slots, PartsOf(p));
    EachOncePartsExist(slots, PartsOf(p));
    FragmentsComeOutWhole(c, st, p, Reaching(slots));
    DeliveriesFollowHandedOut(c, st, p, slots, args);
    assert FillAll(args, []) == [];
  }

  // From the sender's datagram to the receiver's buffers

  /** What a caller should get of a datagram sent from `source`: nothing unless it is for the bound port. */
  function Expected(args: CallArgs, source: Uint32, udp: UdpLayer): seq<Delivery> {
    if udp.targetPort != args.boundPort then []
    else
      [Delivery(if |udp.payload| <= args.bufferSize then udp.payload else udp.payload[..args.bufferSize],
                if args.wantAddress then Some(HostAddress(true, source)) else None,
                if args.wantPort then Some(udp.sourcePort) else None)]
  }

  ghost predicate Carries(f: Frame, udp: UdpLayer) {
    && f.net.IPv4? && !f.net.ip4.IsFragment() && f.net.ip4.protocol == UDP
    && exists length: Uint16, checksum: Uint16 :: f.net.ip4.data == UdpBytes(udp, length, checksum)
  }

  lemma SentIsDelivered(c: Config, st: State, args: CallArgs, f: Frame, udp: UdpLayer, order: seq<int>, stamp: Stamp)
    requires Carries(f, udp)
    ensures Handle(c, st, args, f, order, stamp).0 == st
    ensures Reported(Handle(c, st, args, f, order, stamp).1) == Expected(args, f.net.ip4.source, udp)
  {
    var length: Uint16, checksum: Uint16 :| f.net.ip4.data == UdpBytes(udp, length, checksum);
    UdpRoundTrip(udp, length, checksum);
    assert udp.payload[..|udp.payload|] == udp.payload;
    assert Handle(c, st, args, f, order, stamp).1 == Fill(args, f.net.ip4, udp);
  }

  lemma FilledAsExpected(args: CallArgs, ip: Ip4, udp: UdpLayer)
    ensures Reported(Fill(args, ip, udp)) == Expected(args, ip.source, udp)
  {
    assert udp.payload[..|udp.payload|] == udp.payload;
  }

  /** Only a reassembly that is complete hands a fragment on, as a packet with the header of the fragment. */
  lemma ReassembledFrom(c: Config, st: State, f: Frame, order: seq<int>, stamp: Stamp)
    requires f.net.IPv4? && f.net.ip4.IsFragment()
    ensures var o := ProcessPacket(c, st, f, order, stamp).1;
      o.packet.Some? ==> o.packet.value.net.IPv4? && o.packet.value.net.ip4.source == f.net.ip4.source
  {
    FollowEngineCases(c, Sweep(c, st, order, stamp.swept), f, stamp);
  }

  /** Whatever handling a frame delivers is a datagram for the bound port, from the sender of the frame. */
  lemma HandleDelivers(c: Config, st: State, args: CallArgs, f: Frame, order: seq<int>, stamp: Stamp)
    requires Handle(c, st, args, f, order, stamp).1.Some?
    ensures f.net.IPv4?
    ensures exists udp: UdpLayer ::
      udp.targetPort == args.boundPort
      && Expected(args, f.net.ip4.source, udp) == [Handle(c, st, args, f, order, stamp).1.value]
      && (f.net.ip4.IsFragment() || Carries(f, udp))
  {
    if f.net.ip4.IsFragment() {
      ReassembledFrom(c, st, f, order, stamp);
      var ip := ProcessPacket(c, st, f, order, stamp).1.packet.value.net.ip4;
      FilledAsExpected(args, ip, ParseUdp(ip.protocol, ip.data).value);
    } else {
      var udp := ParseUdp(f.net.ip4.protocol, f.net.ip4.data).value;
      FilledAsExpected(args, f.net.ip4, udp);
      UdpParsesIffEncoded(f.net.ip4.protocol, f.net.ip4.data, udp);
      assert Carries(f, udp);
    }
  }

  /** A datagram sent in fragments reaches the caller as it was sent: payload, source address and source port, once. */
  lemma SentInFragmentsIsDelivered(c: Config, st: State, p: Flight, slots: seq<Slot>, args: CallArgs, udp: UdpLayer)
    requires Sync(c, st) && 0 < c.capacity && InFlight(p) && HashOf(c, p.frame) !in st.index
    requires Undisturbed(c, p, Reaching(slots)) && Carries(p.frame, udp)
    ensures forall s | s in slots && s.Ours? :: s.part + 1 < |p.cuts|
    ensures Deliveries(c, st, p, slots, args) == Expected(args, p.frame.net.ip4.source, udp)
  {
    FragmentationTransparent(c, st, p, slots, args, [], Stamp(0, 0));
    SentIsDelivered(c, st, args, p.frame, udp, [], Stamp(0, 0));
  }
}
