/** From socket configuration to capture-filter text, and what that text means. */
module FilterGenerator {
  import opened Common
  import opened HostAddresses
  import opened Packets
  import opened PcapFilter

  /** The socket fields the generator reads. */
  datatype Config = Config(address: HostAddress, port: Uint16, groups: seq<HostAddress>, loopbackEnabled: bool)

  /** The device facts the generator reads; `mac` is None when the driver reports none. */
  datatype Device = Device(loopback: bool, mac: Option<Mac>)

  const FRAGMENT_MASK := 0x3fff

  // The emitted text

  /** toString() of an invalid address is empty. */
  function AddressText(a: HostAddress): seq<Token> {
    if a.valid then [Address(a.ipv4)] else []
  }

  predicate ExcludesOwnMac(d: Device) {
    !d.loopback && d.mac.Some?
  }

  predicate SpecificAddress(c: Config) {
    c.address != ANY && c.address != BROADCAST
  }

  predicate AdmitsGroups(c: Config, d: Device) {
    c.groups != [] && (!d.loopback || c.loopbackEnabled)
  }

  function OwnMacText(d: Device): seq<Token> {
    if ExcludesOwnMac(d) then [Not, Ether, Src, MacAddress(d.mac.value), And] else []
  }

  const FLAGS_TEXT :=
    [Ip, LBracket, Number(6), Colon, Number(2), RBracket, Ampersand, Number(FRAGMENT_MASK), NotEqual, Number(0)]

  function PortText(port: Uint16): seq<Token> {
    [LParen, Udp, Port, Number(port), Or, LParen] + FLAGS_TEXT + [RParen, RParen]
  }

  function UnicastText(c: Config): seq<Token> {
    [LParen, LParen, Not, Ip, Multicast, RParen]
    + (if SpecificAddress(c) then [And, LParen, Ip, Dst] + AddressText(c.address) + [RParen] else [])
    + [RParen]
  }

  function GroupsText(groups: seq<HostAddress>): seq<Token>
    requires groups != []
  {
    [Dst] + AddressText(groups[0]) + MoreGroupsText(groups[1..])
  }

  function MoreGroupsText(groups: seq<HostAddress>): seq<Token> {
    if groups == [] then [] else [Or, Dst] + AddressText(groups[0]) + MoreGroupsText(groups[1..])
  }

  function MulticastText(c: Config, d: Device): seq<Token> {
    if AdmitsGroups(c, d)
    then [Or, LParen, Ip, Multicast, And, LParen] + GroupsText(c.groups) + [RParen, RParen]
    else []
  }

  function DestinationText(c: Config, d: Device): seq<Token> {
    [LParen] + UnicastText(c) + MulticastText(c, d) + [RParen]
  }

  function FilterText(c: Config, d: Device): seq<Token> {
    OwnMacText(d) + [Ip, And, Udp, And] + PortText(c.port) + [And] + DestinationText(c, d)
  }

  /** The generator: text appended piece by piece, one loop over the groups. */
  method CreateFilterString(c: Config, d: Device) returns (ss: seq<Token>)
    ensures ss == FilterText(c, d)
    ensures c.address.valid && (forall g | g in c.groups :: g.valid) ==> ss == PrintExpr(FilterExpr(c, d))
    ensures Parse(ss).Some? && (forall g | g in c.groups :: g.valid) ==> c.address.valid
  {
    ss := [];
    if !d.loopback {
      if d.mac.Some? {
        ss := ss + [Not, Ether, Src, MacAddress(d.mac.value)];
        ss := ss + [And];
      }
    }
    ss := ss + [Ip, And, Udp];
    ss := ss + ([And] + PortText(c.port));
    ghost var head := OwnMacText(d) + [Ip, And, Udp, And] + PortText(c.port) + [And];
    ss := ss + [And];
    assert ss == head;
    ss := AppendDestination(ss, c, d);
    assert ss == FilterText(c, d);
    FilterTextCases(c, d);
  }

  method AppendDestination(prefix: seq<Token>, c: Config, d: Device) returns (ss: seq<Token>)
    ensures ss == prefix + DestinationText(c, d)
  {
    ss := prefix + [LParen];
    ss := ss + [LParen, LParen, Not, Ip, Multicast, RParen];
    if SpecificAddress(c) {
      ss := ss + ([And, LParen, Ip, Dst] + AddressText(c.address) + [RParen]);
    }
    ss := ss + [RParen];
    assert ss == prefix + ([LParen] + UnicastText(c));
    ss := AppendMulticast(ss, c, d);
    ss := ss + [RParen];
  }

  method AppendMulticast(prefix: seq<Token>, c: Config, d: Device) returns (ss: seq<Token>)
    ensures ss == prefix + MulticastText(c, d)
  {
    ss := prefix;
    if AdmitsGroups(c, d) {
      ss := ss + [Or, LParen, Ip, Multicast, And, LParen];
      ghost var base := ss;
      var i := 0;
      while i < |c.groups|
        invariant i <= |c.groups|
        invariant if i == 0 then ss == base else ss + MoreGroupsText(c.groups[i..]) == base + GroupsText(c.groups)
      {
        ss := AppendGroup(ss, c.groups, i, base);
        i := i + 1;
      }
      assert ss == base + GroupsText(c.groups) by {
        assert MoreGroupsText([]) == [];
      }
      ss := ss + [RParen, RParen];
    }
  }

  /** Body of the group loop: the separator before every group but the first. */
  method AppendGroup(prefix: seq<Token>, groups: seq<HostAddress>, i: nat, ghost base: seq<Token>) returns (ss: seq<Token>)
    requires i < |groups|
    requires if i == 0 then prefix == base else prefix + MoreGroupsText(groups[i..]) == base + GroupsText(groups)
    ensures ss + MoreGroupsText(groups[i+1..]) == base + GroupsText(groups)
  {
    ss := prefix;
    if i != 0 {
      ss := ss + [Or];
    }
    ss := ss + ([Dst] + AddressText(groups[i]));
    assert groups[i..][1..] == groups[i+1..];
    ghost var tail := [Dst] + AddressText(groups[i]) + MoreGroupsText(groups[i+1..]);
    if i == 0 {
      assert GroupsText(groups) == tail;
      assert ss + MoreGroupsText(groups[i+1..]) == base + tail;
    } else {
      assert MoreGroupsText(groups[i..]) == [Or] + tail;
      assert ss + MoreGroupsText(groups[i+1..]) == prefix + ([Or] + tail);
    }
  }

  lemma FilterTextCases(c: Config, d: Device)
    ensures c.address.valid && (forall g | g in c.groups :: g.valid) ==> FilterText(c, d) == PrintExpr(FilterExpr(c, d))
    ensures Parse(FilterText(c, d)).Some? && (forall g | g in c.groups :: g.valid) ==> c.address.valid
  {
    if forall g | g in c.groups :: g.valid {
      if c.address.valid {
        TextIsPrinted(c, d);
      } else {
        InvalidAddressFails(c, d);
      }
    }
  }

  // The filter as a syntax tree

  function PortTerm(port: Uint16): Term {
    Pair(Atom(UdpPort(port)), Disj, Single(Atom(FlagsField(FRAGMENT_MASK, 0))))
  }

  const NOT_MULTICAST := Single(Negation(Atom(IpMulticast)))

  function UnicastTerm(c: Config): Term {
    if SpecificAddress(c)
    then Pair(NOT_MULTICAST, Conj, Single(Atom(IpDestination(c.address.ipv4))))
    else Single(NOT_MULTICAST)
  }

  function MoreGroups(groups: seq<HostAddress>): Tail {
    if groups == [] then End else Link(Disj, Atom(Destination(groups[0].ipv4)), MoreGroups(groups[1..]))
  }

  function AnyGroup(groups: seq<HostAddress>): Expr
    requires groups != []
  {
    Chain(Atom(Destination(groups[0].ipv4)), MoreGroups(groups[1..]))
  }

  function MulticastTerm(groups: seq<HostAddress>): Term
    requires groups != []
  {
    Pair(Atom(IpMulticast), Conj, Group(AnyGroup(groups)))
  }

  function DestinationTerm(c: Config, d: Device): Term {
    if AdmitsGroups(c, d) then Pair(UnicastTerm(c), Disj, MulticastTerm(c.groups)) else Single(UnicastTerm(c))
  }

  function FilterTail(c: Config, d: Device): Tail {
    Link(Conj, Atom(IsUdp), Link(Conj, PortTerm(c.port), Link(Conj, DestinationTerm(c, d), End)))
  }

  /** The MAC part, if any, and `ip` before a tail. */
  function HeadExpr(d: Device, tl: Tail): Expr {
    if ExcludesOwnMac(d)
    then Chain(Negation(Atom(EtherSource(d.mac.value))), Link(Conj, Atom(IsIp), tl))
    else Chain(Atom(IsIp), tl)
  }

  function FilterExpr(c: Config, d: Device): Expr {
    HeadExpr(d, FilterTail(c, d))
  }

  lemma {:induction false} JoinedText(t: Term, a: seq<Token>, op: Connective, u: Term, b: seq<Token>)
    requires a == PrintTerm(t) && b == PrintTerm(u)
    ensures [LParen] + a + ([PrintConnective(op)] + b) + [RParen] == PrintTerm(Pair(t, op, u))
  {
    PrintPair(t, op, u);
  }

  lemma PortBrackets(port: Uint16, inner: seq<Token>)
    ensures [LParen, Udp, Port, Number(port), Or, LParen] + inner + [RParen, RParen]
         == [LParen] + [Udp, Port, Number(port)] + ([Or] + ([LParen] + inner + [RParen])) + [RParen]
  {
  }

  lemma {:induction false} PortTextIsPrinted(port: Uint16)
    ensures PortText(port) == PrintTerm(PortTerm(port))
  {
    var flags := Atom(FlagsField(FRAGMENT_MASK, 0));
    PrintSingle(flags);
    assert PrintTerm(flags) == FLAGS_TEXT;
    JoinedText(Atom(UdpPort(port)), [Udp, Port, Number(port)], Disj, Single(flags), [LParen] + FLAGS_TEXT + [RParen]);
    PortBrackets(port, FLAGS_TEXT);
  }

  lemma NotMulticastIsPrinted()
    ensures PrintTerm(NOT_MULTICAST) == [LParen, Not, Ip, Multicast, RParen]
  {
  }

  lemma UnicastTextIsPrinted(c: Config)
    requires c.address.valid
    ensures UnicastText(c) == PrintTerm(UnicastTerm(c))
  {
    NotMulticastIsPrinted();
    if SpecificAddress(c) {
      var here := Atom(IpDestination(c.address.ipv4));
      assert PrintTerm(here) == [Ip, Dst, Address(c.address.ipv4)];
      PrintSingle(here);
      PrintPair(NOT_MULTICAST, Conj, Single(here));
    } else {
      PrintSingle(NOT_MULTICAST);
    }
  }

  lemma GroupLink(address: seq<Token>, more: seq<Token>)
    ensures [Or, Dst] + address + more == [Or] + ([Dst] + address) + more
  {
    assert [Or, Dst] == [Or] + [Dst];
  }

  lemma {:induction false} MoreGroupsTextIsPrinted(groups: seq<HostAddress>)
    requires forall g | g in groups :: g.valid
    ensures MoreGroupsText(groups) == PrintTail(MoreGroups(groups))
  {
    if groups != [] {
      MoreGroupsTextIsPrinted(groups[1..]);
      var first := Atom(Destination(groups[0].ipv4));
      assert PrintTerm(first) == [Dst] + AddressText(groups[0]);
      GroupLink(AddressText(groups[0]), MoreGroupsText(groups[1..]));
    }
  }

  lemma Brackets(inner: seq<Token>)
    ensures [LParen, Ip, Multicast, And, LParen] + inner + [RParen, RParen]
         == [LParen] + [Ip, Multicast] + ([And] + ([LParen] + inner + [RParen])) + [RParen]
  {
  }

  lemma {:induction false} AnyGroupIsPrinted(groups: seq<HostAddress>)
    requires groups != [] && (forall g | g in groups :: g.valid)
    ensures PrintTerm(Group(AnyGroup(groups))) == [LParen] + GroupsText(groups) + [RParen]
  {
    MoreGroupsTextIsPrinted(groups[1..]);
    assert PrintTerm(Atom(Destination(groups[0].ipv4))) == [Dst] + AddressText(groups[0]);
    assert PrintExpr(AnyGroup(groups)) == GroupsText(groups);
  }

  lemma {:induction false} MulticastTextIsPrinted(groups: seq<HostAddress>)
    requires groups != [] && (forall g | g in groups :: g.valid)
    ensures [LParen, Ip, Multicast, And, LParen] + GroupsText(groups) + [RParen, RParen] == PrintTerm(MulticastTerm(groups))
  {
    AnyGroupIsPrinted(groups);
    JoinedText(Atom(IpMulticast), [Ip, Multicast], Conj, Group(AnyGroup(groups)), [LParen] + GroupsText(groups) + [RParen]);
    Brackets(GroupsText(groups));
  }

  lemma {:induction false} DestinationTextIsPrinted(c: Config, d: Device)
    requires c.address.valid && (forall g | g in c.groups :: g.valid)
    ensures DestinationText(c, d) == PrintTerm(DestinationTerm(c, d))
  {
    UnicastTextIsPrinted(c);
    if AdmitsGroups(c, d) {
      MulticastTextIsPrinted(c.groups);
      var groups := [LParen, Ip, Multicast, And, LParen] + GroupsText(c.groups) + [RParen, RParen];
      JoinedText(UnicastTerm(c), UnicastText(c), Disj, MulticastTerm(c.groups), groups);
      assert MulticastText(c, d) == [Or] + groups;
    } else {
      PrintSingle(UnicastTerm(c));
    }
  }

  /** Tail of the filter up to the destination part, which is the only part that can be malformed. */
  function PortTail(port: Uint16, next: Tail): Tail {
    Link(Conj, Atom(IsUdp), Link(Conj, PortTerm(port), next))
  }

  lemma {:induction false} PortTailIsPrinted(port: Uint16, next: Tail)
    ensures PrintTail(PortTail(port, next)) == [And, Udp, And] + PortText(port) + PrintTail(next)
  {
    PortTextIsPrinted(port);
    assert PrintTail(Link(Conj, PortTerm(port), next)) == [And] + PortText(port) + PrintTail(next);
    assert PrintTerm(Atom(IsUdp)) == [Udp];
  }

  lemma {:induction false} HeadIsPrinted(d: Device, tl: Tail)
    ensures OwnMacText(d) + [Ip] + PrintTail(tl) == PrintExpr(HeadExpr(d, tl))
  {
    assert PrintTerm(Atom(IsIp)) == [Ip];
    if ExcludesOwnMac(d) {
      var own := Atom(EtherSource(d.mac.value));
      assert PrintTerm(own) == [Ether, Src, MacAddress(d.mac.value)];
      assert PrintTerm(Negation(own)) == [Not, Ether, Src, MacAddress(d.mac.value)];
      assert PrintTail(Link(Conj, Atom(IsIp), tl)) == [And] + [Ip] + PrintTail(tl);
    }
  }

  /** The text and the tree are the same filter. */
  lemma {:induction false} TextIsPrinted(c: Config, d: Device)
    requires c.address.valid && (forall g | g in c.groups :: g.valid)
    ensures FilterText(c, d) == PrintExpr(FilterExpr(c, d))
  {
    DestinationTextIsPrinted(c, d);
    PrintLast(Conj, DestinationTerm(c, d));
    PortTailIsPrinted(c.port, Link(Conj, DestinationTerm(c, d), End));
    HeadIsPrinted(d, FilterTail(c, d));
    SplitFilterText(c, d);
  }

  lemma SplitText(own: seq<Token>, port: seq<Token>, destination: seq<Token>)
    ensures own + [Ip, And, Udp, And] + port + [And] + destination
         == own + [Ip] + ([And, Udp, And] + port + ([And] + destination))
    ensures own + [Ip, And, Udp, And] + port + [And] + destination
         == own + [Ip] + ([And, Udp, And] + port) + ([And] + destination)
  {
    assert [Ip, And, Udp, And] == [Ip] + [And, Udp, And];
  }

  lemma SplitFilterText(c: Config, d: Device)
    ensures FilterText(c, d) == OwnMacText(d) + [Ip] + ([And, Udp, And] + PortText(c.port) + ([And] + DestinationText(c, d)))
    ensures FilterText(c, d) == OwnMacText(d) + [Ip] + ([And, Udp, And] + PortText(c.port)) + ([And] + DestinationText(c, d))
  {
    SplitText(OwnMacText(d), PortText(c.port), DestinationText(c, d));
  }

  // When the text is a filter at all

  lemma {:induction false} FailureSpreads(tl: Tail, k: seq<Token>)
    requires Boundary(k) && ParseTail(k).Fail?
    ensures ParseTail(PrintTail(tl) + k).Fail? && Boundary(PrintTail(tl) + k)
    decreases tl
  {
    match tl
    case End => assert PrintTail(tl) + k == k;
    case Link(op, t, next) =>
      FailureSpreads(next, k);
      ParsePrintedTerm(t, PrintTail(next) + k);
      ParseLink(op, PrintTerm(t) + (PrintTail(next) + k));
      Reassociate([PrintConnective(op)], PrintTerm(t), PrintTail(next), k);
  }

  lemma ParseIpDstNeedsAddress(s: seq<Token>)
    requires |s| >= 3 && s[0] == Ip && s[1] == Dst && !s[2].Address?
    ensures ParseTerm(s).Fail?
  {
  }

  lemma OpenGroupFails(s: seq<Token>)
    requires ParseExpr(s).Fail?
    ensures ParseTerm([LParen] + s).Fail? && ParseExpr([LParen] + s).Fail?
  {
  }

  lemma AddressPartFails(more: seq<Token>)
    ensures ParseTail([And] + ([LParen] + ([Ip, Dst, RParen] + more))).Fail?
  {
    var here := [Ip, Dst, RParen] + more;
    ParseIpDstNeedsAddress(here);
    OpenGroupFails(here);
    ParseLink(Conj, [LParen] + here);
  }

  lemma {:induction false} NotMulticastThenFails(rest: seq<Token>)
    requires Boundary(rest) && ParseTail(rest).Fail?
    ensures ParseExpr(PrintTerm(NOT_MULTICAST) + rest).Fail?
  {
    ParsePrintedTerm(NOT_MULTICAST, rest);
  }

  /** `ip dst` without an address cannot be parsed, whatever follows. */
  lemma {:induction false} MissingAddressFails(more: seq<Token>)
    ensures ParseTerm([LParen, LParen, LParen, Not, Ip, Multicast, RParen, And, LParen, Ip, Dst, RParen] + more).Fail?
  {
    var rest := [And] + ([LParen] + ([Ip, Dst, RParen] + more));
    AddressPartFails(more);
    NotMulticastThenFails(rest);
    var unicast := PrintTerm(NOT_MULTICAST) + rest;
    OpenGroupFails(unicast);
    OpenGroupFails([LParen] + unicast);
    NotMulticastIsPrinted();
    MissingAddressShape(more);
  }

  lemma MissingAddressShape(more: seq<Token>)
    ensures [LParen] + ([LParen] + ([LParen, Not, Ip, Multicast, RParen] + ([And] + ([LParen] + ([Ip, Dst, RParen] + more)))))
         == [LParen, LParen, LParen, Not, Ip, Multicast, RParen, And, LParen, Ip, Dst, RParen] + more
  {
  }

  lemma {:induction false} FailureSpreadsToExpr(e: Expr, k: seq<Token>)
    requires Boundary(k) && ParseTail(k).Fail?
    ensures ParseExpr(PrintExpr(e) + k).Fail?
  {
    FailureSpreads(e.rest, k);
    ParsePrintedTerm(e.first, PrintTail(e.rest) + k);
    Reassociate(PrintTerm(e.first), PrintTail(e.rest), [], k);
  }

  lemma MissingAddressText(c: Config, multicast: seq<Token>)
    requires !c.address.valid
    ensures [LParen] + UnicastText(c) + multicast + [RParen]
         == [LParen, LParen, LParen, Not, Ip, Multicast, RParen, And, LParen, Ip, Dst, RParen]
            + ([RParen] + multicast + [RParen])
  {
    assert UnicastText(c) == [LParen, LParen, Not, Ip, Multicast, RParen, And, LParen, Ip, Dst, RParen, RParen];
  }

  lemma {:induction false} DestinationFails(c: Config, d: Device)
    requires !c.address.valid
    ensures ParseTail([And] + DestinationText(c, d)).Fail?
  {
    MissingAddressText(c, MulticastText(c, d));
    MissingAddressFails([RParen] + MulticastText(c, d) + [RParen]);
    ParseLink(Conj, DestinationText(c, d));
  }

  lemma {:induction false} InvalidAddressFails(c: Config, d: Device)
    requires !c.address.valid
    ensures Parse(FilterText(c, d)).None?
  {
    DestinationFails(c, d);
    PortTailIsPrinted(c.port, End);
    assert PrintTail(End) == [];
    var body := PortTail(c.port, End);
    HeadIsPrinted(d, body);
    assert PrintTail(body) == [And, Udp, And] + PortText(c.port);
    SplitFilterText(c, d);
    FailureSpreadsToExpr(HeadExpr(d, body), [And] + DestinationText(c, d));
  }

  /** The emitted text is a filter exactly when the bound address is valid. */
  lemma {:induction false} ParsesIffAddressValid(c: Config, d: Device)
    requires forall g | g in c.groups :: g.valid
    ensures Parse(FilterText(c, d)).Some? <==> c.address.valid
    ensures c.address.valid ==> Parse(FilterText(c, d)) == Some(FilterExpr(c, d))
  {
    if c.address.valid {
      TextIsPrinted(c, d);
      ParseAfterPrint(FilterExpr(c, d));
    } else {
      InvalidAddressFails(c, d);
    }
  }

  // What the filter admits

  /** Own traffic is rejected by MAC, which only non-loopback devices with a known MAC can do. */
  predicate NotOwnTraffic(d: Device, f: Frame) {
    !d.loopback && d.mac.Some? ==> f.etherSource != d.mac
  }

  predicate UnicastAdmitted(c: Config, target: Uint32, top: Octet) {
    !MulticastTarget(target, top) && (c.address == ANY || c.address == BROADCAST || target == c.address.ipv4)
  }

  predicate MulticastAdmitted(c: Config, d: Device, target: Uint32) {
    && (d.loopback ==> c.loopbackEnabled)
    && exists g | g in c.groups :: target == g.ipv4
  }

  /** The acceptance rule the generated filter has to implement. */
  predicate Admits(c: Config, d: Device, f: Frame, top: Octet) {
    && NotOwnTraffic(d, f)
    && f.net.IPv4?
    && f.net.ip4.protocol == UDP
    && (HasUdpPort(f, c.port) || f.net.ip4.IsFragment())
    && (UnicastAdmitted(c, f.net.ip4.target, top) || MulticastAdmitted(c, d, f.net.ip4.target))
  }

  lemma {:induction false} MoreGroupsMeans(pr: Precedence, acc: bool, groups: seq<HostAddress>, f: Frame, top: Octet)
    requires f.net.IPv4?
    ensures MeansTail(pr, acc, MoreGroups(groups), f, top) <==> acc || exists g | g in groups :: f.net.ip4.target == g.ipv4
    decreases groups
  {
    if groups != [] {
      var v := f.net.ip4.target == groups[0].ipv4;
      assert MeansTerm(pr, Atom(Destination(groups[0].ipv4)), f, top) == v;
      MoreGroupsMeans(pr, acc || v, groups[1..], f, top);
      MoreGroupsMeans(pr, v, groups[1..], f, top);
    }
  }

  lemma {:induction false} PortTermMeans(pr: Precedence, port: Uint16, f: Frame, top: Octet)
    requires f.net.IPv4?
    ensures MeansTerm(pr, PortTerm(port), f, top) <==> HasUdpPort(f, port) || f.net.ip4.IsFragment()
  {
    FragmentMask(f.net.ip4);
    var flags := Atom(FlagsField(FRAGMENT_MASK, 0));
    MeansSingle(pr, flags, f, top);
    MeansPair(pr, Atom(UdpPort(port)), Disj, Single(flags), f, top);
  }

  lemma {:induction false} UnicastTermMeans(pr: Precedence, c: Config, f: Frame, top: Octet)
    requires f.net.IPv4?
    ensures MeansTerm(pr, UnicastTerm(c), f, top) <==> UnicastAdmitted(c, f.net.ip4.target, top)
  {
    assert MeansTerm(pr, Negation(Atom(IpMulticast)), f, top) == !MulticastTarget(f.net.ip4.target, top);
    MeansSingle(pr, Negation(Atom(IpMulticast)), f, top);
    if SpecificAddress(c) {
      var here := Atom(IpDestination(c.address.ipv4));
      MeansSingle(pr, here, f, top);
      MeansPair(pr, NOT_MULTICAST, Conj, Single(here), f, top);
    } else {
      MeansSingle(pr, NOT_MULTICAST, f, top);
    }
  }

  lemma {:induction false} MulticastTermMeans(pr: Precedence, groups: seq<HostAddress>, f: Frame, top: Octet)
    requires groups != [] && (forall g | g in groups :: g.IsMulticast()) && 239 <= top && f.net.IPv4?
    ensures MeansTerm(pr, MulticastTerm(groups), f, top) <==> exists g | g in groups :: f.net.ip4.target == g.ipv4
  {
    var v := f.net.ip4.target == groups[0].ipv4;
    MoreGroupsMeans(pr, v, groups[1..], f, top);
    assert MeansTerm(pr, Atom(Destination(groups[0].ipv4)), f, top) == v;
    assert MeansExpr(pr, AnyGroup(groups), f, top) == MeansTail(pr, v, MoreGroups(groups[1..]), f, top);
    assert MeansTerm(pr, Group(AnyGroup(groups)), f, top) == MeansExpr(pr, AnyGroup(groups), f, top);
    MeansPair(pr, Atom(IpMulticast), Conj, Group(AnyGroup(groups)), f, top);
  }

  lemma {:induction false} DestinationTermMeans(pr: Precedence, c: Config, d: Device, f: Frame, top: Octet)
    requires (forall g | g in c.groups :: g.IsMulticast()) && 239 <= top && f.net.IPv4?
    ensures MeansTerm(pr, DestinationTerm(c, d), f, top)
        <==> UnicastAdmitted(c, f.net.ip4.target, top) || MulticastAdmitted(c, d, f.net.ip4.target)
  {
    UnicastTermMeans(pr, c, f, top);
    if AdmitsGroups(c, d) {
      MulticastTermMeans(pr, c.groups, f, top);
      MeansPair(pr, UnicastTerm(c), Disj, MulticastTerm(c.groups), f, top);
    } else {
      MeansSingle(pr, UnicastTerm(c), f, top);
    }
  }

  lemma {:induction false} FilterTailMeans(pr: Precedence, acc: bool, c: Config, d: Device, f: Frame, top: Octet)
    ensures MeansTail(pr, acc, FilterTail(c, d), f, top)
        == (acc && MeansTerm(pr, Atom(IsUdp), f, top)
            && MeansTerm(pr, PortTerm(c.port), f, top) && MeansTerm(pr, DestinationTerm(c, d), f, top))
  {
    var destination := Link(Conj, DestinationTerm(c, d), End);
    var port := Link(Conj, PortTerm(c.port), destination);
    var udp := acc && MeansTerm(pr, Atom(IsUdp), f, top);
    MeansConjunct(pr, acc, Atom(IsUdp), port, f, top);
    MeansConjunct(pr, udp, PortTerm(c.port), destination, f, top);
    MeansConjunct(pr, udp && MeansTerm(pr, PortTerm(c.port), f, top), DestinationTerm(c, d), End, f, top);
  }

  /** For every configuration, device and frame, and under both precedence rules, the filter means the acceptance rule. */
  lemma {:induction false} FilterMeansAdmits(pr: Precedence, c: Config, d: Device, f: Frame, top: Octet)
    requires (forall g | g in c.groups :: g.IsMulticast()) && 239 <= top
    ensures MeansExpr(pr, FilterExpr(c, d), f, top) <==> Admits(c, d, f, top)
  {
    var ip := Atom(IsIp);
    if f.net.IPv4? {
      PortTermMeans(pr, c.port, f, top);
      DestinationTermMeans(pr, c, d, f, top);
    }
    FilterTailMeans(pr, f.net.IPv4?, c, d, f, top);
    assert MeansTerm(pr, ip, f, top) == f.net.IPv4?;
    if ExcludesOwnMac(d) {
      var own := Negation(Atom(EtherSource(d.mac.value)));
      assert MeansTerm(pr, own, f, top) == NotOwnTraffic(d, f);
      MeansConjunct(pr, NotOwnTraffic(d, f), ip, FilterTail(c, d), f, top);
      FilterTailMeans(pr, NotOwnTraffic(d, f) && f.net.IPv4?, c, d, f, top);
    }
  }

  /** End to end: the text a driver compiles admits exactly the frames of the acceptance rule. */
  lemma TextMeansAdmits(pr: Precedence, c: Config, d: Device, f: Frame, top: Octet)
    requires c.address.valid && (forall g | g in c.groups :: g.IsMulticast()) && 239 <= top
    ensures Parse(FilterText(c, d)).Some?
    ensures MeansExpr(pr, Parse(FilterText(c, d)).value, f, top) <==> Admits(c, d, f, top)
  {
    ParsesIffAddressValid(c, d);
    FilterMeansAdmits(pr, c, d, f, top);
  }
}
