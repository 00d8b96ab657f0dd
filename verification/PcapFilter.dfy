/**
 The pcap-filter language, as far as the socket uses it: tokens, concrete syntax, printer,
 parser, and the meaning of a filter on a frame. Addresses and MACs are single tokens.
 */
module PcapFilter {
  import opened Common
  import opened Packets

  datatype Token =
    | Not | And | Or | LParen | RParen
    | Ether | Src | Dst | Ip | Udp | Port | Multicast
    | LBracket | RBracket | Colon | Ampersand | NotEqual
    | MacAddress(mac: Mac) | Address(address: Uint32) | Number(number: nat)

  datatype Primitive =
    | EtherSource(mac: Mac)
    | IsIp
    | IsUdp
    | UdpPort(port: nat)
    | FlagsField(mask: nat, value: nat)
    | IpMulticast
    | IpDestination(address: Uint32)
    | Destination(address: Uint32)

  datatype Connective = Conj | Disj

  /** Concrete syntax: operands joined by connectives, without committing to a precedence of `and` over `or`. */
  datatype Expr = Chain(first: Term, rest: Tail)
  datatype Term = Atom(prim: Primitive) | Negation(inner: Term) | Group(body: Expr)
  datatype Tail = End | Link(op: Connective, operand: Term, next: Tail)

  // Printer

  function PrintPrimitive(p: Primitive): seq<Token> {
    match p
    case EtherSource(m) => [Ether, Src, MacAddress(m)]
    case IsIp => [Ip]
    case IsUdp => [Udp]
    case UdpPort(n) => [Udp, Port, Number(n)]
    case FlagsField(mask, value) =>
      [Ip, LBracket, Number(6), Colon, Number(2), RBracket, Ampersand, Number(mask), NotEqual, Number(value)]
    case IpMulticast => [Ip, Multicast]
    case IpDestination(a) => [Ip, Dst, Address(a)]
    case Destination(a) => [Dst, Address(a)]
  }

  function PrintConnective(op: Connective): Token {
    if op == Conj then And else Or
  }

  function PrintExpr(e: Expr): seq<Token>
    decreases e
  {
    PrintTerm(e.first) + PrintTail(e.rest)
  }

  function PrintTerm(t: Term): seq<Token>
    decreases t
  {
    match t
    case Atom(p) => PrintPrimitive(p)
    case Negation(inner) => [Not] + PrintTerm(inner)
    case Group(body) => [LParen] + PrintExpr(body) + [RParen]
  }

  function PrintTail(tl: Tail): seq<Token>
    decreases tl
  {
    match tl
    case End => []
    case Link(op, t, next) => [PrintConnective(op)] + PrintTerm(t) + PrintTail(next)
  }

  // Parser

  datatype Parsed<+T> = Fail | Ok(value: T, rest: seq<Token>)

  function ParsePrimitive(ts: seq<Token>): (r: Parsed<Primitive>)
    ensures r.Ok? ==> |r.rest| < |ts|
  {
    if ts == [] then Fail
    else match ts[0]
      case Ether =>
        if |ts| >= 3 && ts[1] == Src && ts[2].MacAddress? then Ok(EtherSource(ts[2].mac), ts[3..]) else Fail
      case Udp =>
        if |ts| >= 2 && ts[1] == Port then
          if |ts| >= 3 && ts[2].Number? then Ok(UdpPort(ts[2].number), ts[3..]) else Fail
        else Ok(IsUdp, ts[1..])
      case Ip => ParseIp(ts)
      case Dst =>
        if |ts| >= 2 && ts[1].Address? then Ok(Destination(ts[1].address), ts[2..]) else Fail
      case _ => Fail
  }

  function ParseIp(ts: seq<Token>): (r: Parsed<Primitive>)
    requires ts != []
    ensures r.Ok? ==> |r.rest| < |ts|
  {
    if |ts| == 1 then Ok(IsIp, [])
    else match ts[1]
      case Multicast => Ok(IpMulticast, ts[2..])
      case Dst =>
        if |ts| >= 3 && ts[2].Address? then Ok(IpDestination(ts[2].address), ts[3..]) else Fail
      case LBracket =>
        if |ts| >= 10
          && ts[2] == Number(6) && ts[3] == Colon && ts[4] == Number(2) && ts[5] == RBracket && ts[6] == Ampersand
          && ts[7].Number? && ts[8] == NotEqual && ts[9].Number?
        then Ok(FlagsField(ts[7].number, ts[9].number), ts[10..])
        else Fail
      case _ => Ok(IsIp, ts[1..])
  }

  function ParseTerm(ts: seq<Token>): (r: Parsed<Term>)
    ensures r.Ok? ==> |r.rest| < |ts|
    decreases |ts|, 0
  {
    if ts == [] then Fail
    else if ts[0] == Not then
      match ParseTerm(ts[1..])
      case Fail => Fail
      case Ok(t, rest) => Ok(Negation(t), rest)
    else if ts[0] == LParen then
      match ParseExpr(ts[1..])
      case Fail => Fail
      case Ok(e, rest) => if rest != [] && rest[0] == RParen then Ok(Group(e), rest[1..]) else Fail
    else
      match ParsePrimitive(ts)
      case Fail => Fail
      case Ok(p, rest) => Ok(Atom(p), rest)
  }

  function ParseExpr(ts: seq<Token>): (r: Parsed<Expr>)
    ensures r.Ok? ==> |r.rest| < |ts|
    decreases |ts|, 2
  {
    match ParseTerm(ts)
    case Fail => Fail
    case Ok(t, rest) =>
      match ParseTail(rest)
      case Fail => Fail
      case Ok(tl, rest') => Ok(Chain(t, tl), rest')
  }

  function ParseTail(ts: seq<Token>): (r: Parsed<Tail>)
    ensures r.Ok? ==> |r.rest| <= |ts|
    decreases |ts|, 1
  {
    if ts == [] || (ts[0] != And && ts[0] != Or) then Ok(End, ts)
    else
      match ParseTerm(ts[1..])
      case Fail => Fail
      case Ok(t, rest) =>
        match ParseTail(rest)
        case Fail => Fail
        case Ok(tl, rest') => Ok(Link(if ts[0] == And then Conj else Disj, t, tl), rest')
  }

  /** A whole filter text. */
  function Parse(ts: seq<Token>): Option<Expr> {
    match ParseExpr(ts)
    case Fail => None
    case Ok(e, rest) => if rest == [] then Some(e) else None
  }

  // Meaning

  /** Whether the ports of an IP payload can be read: not in a later fragment, and not beyond the data. */
  predicate PortsVisible(protocol: Octet, offset: nat, data: seq<Octet>) {
    protocol == UDP && offset == 0 && |data| >= 4
  }

  predicate HasUdpPort(f: Frame, port: nat) {
    match f.net
    case IPv4(ip) => PortsVisible(ip.protocol, ip.offset, ip.data) && PortAmong(ip.data, port)
    case IPv6(ip) => ip.fragment.None? && PortsVisible(ip.protocol, 0, ip.data) && PortAmong(ip.data, port)
    case _ => false
  }

  predicate PortAmong(data: seq<Octet>, port: nat)
    requires |data| >= 4
  {
    BigEndian(data[0], data[1]) == port || BigEndian(data[2], data[3]) == port
  }

  /**
   `ip multicast` tests the first octet of the destination. The manual promises 224..239; compiled
   filters are known to accept a larger upper bound, so `top` stays a parameter.
   */
  predicate MulticastTarget(target: Uint32, top: Octet) {
    224 <= target % 0x100 <= top
  }

  predicate Holds(p: Primitive, f: Frame, top: Octet) {
    match p
    case EtherSource(m) => f.etherSource == Some(m)
    case IsIp => f.net.IPv4?
    case IsUdp => (f.net.IPv4? && f.net.ip4.protocol == UDP) || (f.net.IPv6? && f.net.ip6.protocol == UDP)
    case UdpPort(n) => HasUdpPort(f, n)
    case FlagsField(mask, value) => f.net.IPv4? && BitAnd(FlagsWord(f.net.ip4), mask) != value
    case IpMulticast => f.net.IPv4? && MulticastTarget(f.net.ip4.target, top)
    case IpDestination(a) => f.net.IPv4? && f.net.ip4.target == a
    case Destination(a) => (f.net.IPv4? && f.net.ip4.target == a) || (f.net.Arp? && f.net.arpTarget == a)
  }

  /** Equal: one precedence level, left associative, as the manual says. AndTighter: `and` before `or`. */
  datatype Precedence = Equal | AndTighter

  predicate MeansExpr(pr: Precedence, e: Expr, f: Frame, top: Octet)
    decreases e
  {
    var v := MeansTerm(pr, e.first, f, top);
    match pr
    case Equal => FromLeft(v, e.rest, f, top)
    case AndTighter => RunsOfAnd(v, e.rest, f, top)
  }

  predicate MeansTerm(pr: Precedence, t: Term, f: Frame, top: Octet)
    decreases t
  {
    match t
    case Atom(p) => Holds(p, f, top)
    case Negation(inner) => !MeansTerm(pr, inner, f, top)
    case Group(body) => MeansExpr(pr, body, f, top)
  }

  /** Value of a chain whose operands so far have value `acc`, one precedence level. */
  predicate FromLeft(acc: bool, tl: Tail, f: Frame, top: Octet)
    decreases tl
  {
    match tl
    case End => acc
    case Link(Conj, t, next) => FromLeft(acc && MeansTerm(Equal, t, f, top), next, f, top)
    case Link(Disj, t, next) => FromLeft(acc || MeansTerm(Equal, t, f, top), next, f, top)
  }

  /** Value of a chain whose current run of `and` has value `acc`, two precedence levels. */
  predicate RunsOfAnd(acc: bool, tl: Tail, f: Frame, top: Octet)
    decreases tl
  {
    match tl
    case End => acc
    case Link(Conj, t, next) => RunsOfAnd(acc && MeansTerm(AndTighter, t, f, top), next, f, top)
    case Link(Disj, t, next) => acc || RunsOfAnd(MeansTerm(AndTighter, t, f, top), next, f, top)
  }

  /** Value of a chain whose operands so far have value `acc`, under either rule. */
  predicate MeansTail(pr: Precedence, acc: bool, tl: Tail, f: Frame, top: Octet) {
    match pr
    case Equal => FromLeft(acc, tl, f, top)
    case AndTighter => RunsOfAnd(acc, tl, f, top)
  }

  // Parenthesised groups of one and of two operands

  function Single(t: Term): Term {
    Group(Chain(t, End))
  }

  function Pair(t: Term, op: Connective, u: Term): Term {
    Group(Chain(t, Link(op, u, End)))
  }

  lemma {:induction false} PrintLast(op: Connective, t: Term)
    ensures PrintTail(Link(op, t, End)) == [PrintConnective(op)] + PrintTerm(t)
  {
  }

  lemma {:induction false} PrintSingle(t: Term)
    ensures PrintTerm(Single(t)) == [LParen] + PrintTerm(t) + [RParen]
  {
    assert PrintTail(End) == [];
    assert PrintExpr(Chain(t, End)) == PrintTerm(t);
  }

  lemma {:induction false} PrintPair(t: Term, op: Connective, u: Term)
    ensures PrintTerm(Pair(t, op, u)) == [LParen] + PrintTerm(t) + [PrintConnective(op)] + PrintTerm(u) + [RParen]
  {
    PrintLast(op, u);
    assert PrintExpr(Chain(t, Link(op, u, End))) == PrintTerm(t) + ([PrintConnective(op)] + PrintTerm(u));
  }

  lemma {:induction false} MeansSingle(pr: Precedence, t: Term, f: Frame, top: Octet)
    ensures MeansTerm(pr, Single(t), f, top) == MeansTerm(pr, t, f, top)
  {
    assert MeansTail(pr, MeansTerm(pr, t, f, top), End, f, top) == MeansTerm(pr, t, f, top);
    assert MeansExpr(pr, Chain(t, End), f, top) == MeansTail(pr, MeansTerm(pr, t, f, top), End, f, top);
  }

  lemma {:induction false} MeansPair(pr: Precedence, t: Term, op: Connective, u: Term, f: Frame, top: Octet)
    ensures MeansTerm(pr, Pair(t, op, u), f, top)
        == if op == Conj then MeansTerm(pr, t, f, top) && MeansTerm(pr, u, f, top)
                         else MeansTerm(pr, t, f, top) || MeansTerm(pr, u, f, top)
  {
    var v, w := MeansTerm(pr, t, f, top), MeansTerm(pr, u, f, top);
    var both := if op == Conj then v && w else v || w;
    match pr {
      case Equal =>
        assert FromLeft(both, End, f, top) == both;
        assert FromLeft(v, Link(op, u, End), f, top) == FromLeft(both, End, f, top);
      case AndTighter =>
        assert RunsOfAnd(v && w, End, f, top) == (v && w) && RunsOfAnd(w, End, f, top) == w;
        assert op == Conj ==> RunsOfAnd(v, Link(op, u, End), f, top) == RunsOfAnd(v && w, End, f, top);
        assert op == Disj ==> RunsOfAnd(v, Link(op, u, End), f, top) == (v || RunsOfAnd(w, End, f, top));
    }
    assert MeansExpr(pr, Chain(t, Link(op, u, End)), f, top) == MeansTail(pr, v, Link(op, u, End), f, top);
  }

  lemma {:induction false} MeansConjunct(pr: Precedence, acc: bool, t: Term, next: Tail, f: Frame, top: Octet)
    ensures MeansTail(pr, acc, Link(Conj, t, next), f, top)
         == MeansTail(pr, acc && MeansTerm(pr, t, f, top), next, f, top)
  {
  }

  // Printing, then parsing

  predicate Boundary(k: seq<Token>) {
    k == [] || k[0] in {And, Or, RParen}
  }

  predicate Closed(k: seq<Token>) {
    k == [] || k[0] == RParen
  }

  lemma ParsePrintedIp(p: Primitive, k: seq<Token>)
    requires Boundary(k)
    requires p.IsIp? || p.IpMulticast? || p.IpDestination? || p.FlagsField?
    ensures ParseIp(PrintPrimitive(p) + k) == Ok(p, k)
  {
    var ts := PrintPrimitive(p) + k;
    assert ts[|PrintPrimitive(p)|..] == k;
  }

  lemma ParsePrintedPrimitive(p: Primitive, k: seq<Token>)
    requires Boundary(k)
    ensures ParseTerm(PrintPrimitive(p) + k) == Ok(Atom(p), k)
  {
    var ts := PrintPrimitive(p) + k;
    if p.IsIp? || p.IpMulticast? || p.IpDestination? || p.FlagsField? {
      ParsePrintedIp(p, k);
    } else {
      assert ts[|PrintPrimitive(p)|..] == k;
    }
    assert ParsePrimitive(ts) == Ok(p, k);
  }

  // One step of the parser on a text whose first token is known.

  lemma ParseNot(s: seq<Token>)
    requires ParseTerm(s).Ok?
    ensures ParseTerm([Not] + s) == Ok(Negation(ParseTerm(s).value), ParseTerm(s).rest)
  {
  }

  lemma ParseGroup(s: seq<Token>, k: seq<Token>)
    requires ParseExpr(s).Ok? && ParseExpr(s).rest == [RParen] + k
    ensures ParseTerm([LParen] + s) == Ok(Group(ParseExpr(s).value), k)
  {
  }

  lemma ParseLink(op: Connective, s: seq<Token>)
    ensures ParseTail([PrintConnective(op)] + s) ==
            match ParseTerm(s)
            case Fail => Fail
            case Ok(t, rest) =>
              match ParseTail(rest)
              case Fail => Fail
              case Ok(tl, rest') => Ok(Link(op, t, tl), rest')
  {
  }

  lemma Reassociate(a: seq<Token>, b: seq<Token>, c: seq<Token>, k: seq<Token>)
    ensures a + b + c + k == a + (b + (c + k))
    ensures a + b + k == a + (b + k)
  {
  }

  lemma {:induction false} ParsePrintedTerm(t: Term, k: seq<Token>)
    requires Boundary(k)
    ensures ParseTerm(PrintTerm(t) + k) == Ok(t, k)
    decreases t
  {
    match t
    case Atom(p) => ParsePrintedPrimitive(p, k);
    case Negation(inner) =>
      ParsePrintedTerm(inner, k);
      ParseNot(PrintTerm(inner) + k);
      Reassociate([Not], PrintTerm(inner), [], k);
    case Group(body) =>
      ParsePrintedExpr(body, [RParen] + k);
      ParseGroup(PrintExpr(body) + ([RParen] + k), k);
      Reassociate([LParen], PrintExpr(body), [RParen], k);
  }

  lemma {:induction false} ParsePrintedExpr(e: Expr, k: seq<Token>)
    requires Closed(k)
    ensures ParseExpr(PrintExpr(e) + k) == Ok(e, k)
    decreases e
  {
    ParsePrintedTail(e.rest, k);
    ParsePrintedTerm(e.first, PrintTail(e.rest) + k);
    Reassociate(PrintTerm(e.first), PrintTail(e.rest), [], k);
  }

  lemma {:induction false} ParsePrintedTail(tl: Tail, k: seq<Token>)
    requires Closed(k)
    ensures ParseTail(PrintTail(tl) + k) == Ok(tl, k)
    ensures Boundary(PrintTail(tl) + k)
    decreases tl
  {
    match tl
    case End => assert PrintTail(tl) + k == k;
    case Link(op, t, next) =>
      ParsePrintedTail(next, k);
      ParsePrintedTerm(t, PrintTail(next) + k);
      ParseLink(op, PrintTerm(t) + (PrintTail(next) + k));
      Reassociate([PrintConnective(op)], PrintTerm(t), PrintTail(next), k);
  }

  /** Every filter is recovered from its text. */
  lemma ParseAfterPrint(e: Expr)
    ensures Parse(PrintExpr(e)) == Some(e)
  {
    ParsePrintedExpr(e, []);
    assert PrintExpr(e) + [] == PrintExpr(e);
  }

  // Parsing, then printing

  lemma ParsedIpPrints(ts: seq<Token>)
    requires ts != [] && ts[0] == Ip && ParseIp(ts).Ok?
    ensures ts == PrintPrimitive(ParseIp(ts).value) + ParseIp(ts).rest
  {
  }

  lemma ParsedPrimitivePrints(ts: seq<Token>)
    requires ParsePrimitive(ts).Ok?
    ensures ts == PrintPrimitive(ParsePrimitive(ts).value) + ParsePrimitive(ts).rest
  {
    if ts[0] == Ip {
      ParsedIpPrints(ts);
    } else {
      var n := |PrintPrimitive(ParsePrimitive(ts).value)|;
      assert ts[..n] == PrintPrimitive(ParsePrimitive(ts).value);
      assert ts == ts[..n] + ts[n..];
    }
  }

  lemma {:induction false} ParsedTermPrints(ts: seq<Token>)
    requires ParseTerm(ts).Ok?
    ensures ts == PrintTerm(ParseTerm(ts).value) + ParseTerm(ts).rest
    decreases |ts|, 0
  {
    var rest := ParseTerm(ts).rest;
    if ts[0] == Not {
      ParsedTermPrints(ts[1..]);
      Reassociate([Not], PrintTerm(ParseTerm(ts[1..]).value), [], rest);
      assert ts == [Not] + ts[1..];
    } else if ts[0] == LParen {
      ParsedExprPrints(ts[1..]);
      var body, after := ParseExpr(ts[1..]).value, ParseExpr(ts[1..]).rest;
      Reassociate([LParen], PrintExpr(body), [RParen], rest);
      assert after == [RParen] + rest;
      assert ts == [LParen] + ts[1..];
    } else {
      ParsedPrimitivePrints(ts);
    }
  }

  lemma {:induction false} ParsedExprPrints(ts: seq<Token>)
    requires ParseExpr(ts).Ok?
    ensures ts == PrintExpr(ParseExpr(ts).value) + ParseExpr(ts).rest
    decreases |ts|, 2
  {
    ParsedTermPrints(ts);
    ParsedTailPrints(ParseTerm(ts).rest);
    var e := ParseExpr(ts).value;
    Reassociate(PrintTerm(e.first), PrintTail(e.rest), [], ParseExpr(ts).rest);
  }

  lemma {:induction false} ParsedTailPrints(ts: seq<Token>)
    requires ParseTail(ts).Ok?
    ensures ts == PrintTail(ParseTail(ts).value) + ParseTail(ts).rest
    decreases |ts|, 1
  {
    if ts != [] && (ts[0] == And || ts[0] == Or) {
      ParsedTermPrints(ts[1..]);
      ParsedTailPrints(ParseTerm(ts[1..]).rest);
      var tl := ParseTail(ts).value;
      Reassociate([ts[0]], PrintTerm(tl.operand), PrintTail(tl.next), ParseTail(ts).rest);
      assert ts == [ts[0]] + ts[1..];
    } else {
      assert PrintTail(End) == [];
    }
  }

  /** A text is a filter exactly when it is the printed form of one, so no two texts mean one syntax tree. */
  lemma {:induction false} ParsesIffPrinted(ts: seq<Token>, e: Expr)
    ensures Parse(ts) == Some(e) <==> ts == PrintExpr(e)
  {
    if Parse(ts) == Some(e) {
      ParsedExprPrints(ts);
    }
    ParseAfterPrint(e);
  }

  // Precedence

  predicate AllLinks(op: Connective, tl: Tail)
    decreases tl
  {
    tl.Link? ==> tl.op == op && UnmixedTerm(tl.operand) && AllLinks(op, tl.next)
  }

  /** No chain, at any depth, uses both connectives. */
  predicate Unmixed(e: Expr)
    decreases e
  {
    UnmixedTerm(e.first) && (AllLinks(Conj, e.rest) || AllLinks(Disj, e.rest))
  }

  predicate UnmixedTerm(t: Term)
    decreases t
  {
    match t
    case Atom(_) => true
    case Negation(inner) => UnmixedTerm(inner)
    case Group(body) => Unmixed(body)
  }

  lemma {:induction false} PrecedenceIrrelevantTail(op: Connective, acc: bool, tl: Tail, f: Frame, top: Octet)
    requires AllLinks(op, tl)
    ensures FromLeft(acc, tl, f, top) == RunsOfAnd(acc, tl, f, top)
    ensures op == Disj ==> FromLeft(acc, tl, f, top) == (acc || FromLeft(false, tl, f, top))
    decreases tl, 0
  {
    if tl.Link? {
      PrecedenceIrrelevantTerm(tl.operand, f, top);
      var v := MeansTerm(Equal, tl.operand, f, top);
      PrecedenceIrrelevantTail(op, acc && v, tl.next, f, top);
      PrecedenceIrrelevantTail(op, acc || v, tl.next, f, top);
      PrecedenceIrrelevantTail(op, v, tl.next, f, top);
    }
  }

  lemma {:induction false} PrecedenceIrrelevantTerm(t: Term, f: Frame, top: Octet)
    requires UnmixedTerm(t)
    ensures MeansTerm(Equal, t, f, top) == MeansTerm(AndTighter, t, f, top)
    decreases t, 1
  {
    match t
    case Atom(_) =>
    case Negation(inner) => PrecedenceIrrelevantTerm(inner, f, top);
    case Group(body) => PrecedenceIrrelevant(body, f, top);
  }

  /** Without mixed chains both precedence rules give a filter the same meaning on every frame. */
  lemma {:induction false} PrecedenceIrrelevant(e: Expr, f: Frame, top: Octet)
    requires Unmixed(e)
    ensures MeansExpr(Equal, e, f, top) == MeansExpr(AndTighter, e, f, top)
    decreases e, 2
  {
    PrecedenceIrrelevantTerm(e.first, f, top);
    var op := if AllLinks(Conj, e.rest) then Conj else Disj;
    PrecedenceIrrelevantTail(op, MeansTerm(Equal, e.first, f, top), e.rest, f, top);
  }

  /** In a mixed chain the precedence rule does matter. */
  lemma PrecedenceMattersWhenMixed()
    ensures exists e: Expr, f: Frame :: !Unmixed(e) && MeansExpr(Equal, e, f, 239) != MeansExpr(AndTighter, e, f, 239)
  {
    var e := Chain(Atom(IsIp), Link(Disj, Atom(IsIp), Link(Conj, Atom(IsUdp), End)));
    var f := Frame(None, IPv4(Ip4(0, 0, 0, 0, false, false, false, 0, [])));
    assert !AllLinks(Conj, e.rest);
    assert !AllLinks(Disj, e.rest) by {
      assert !AllLinks(Disj, e.rest.next);
    }
    var last := Link(Conj, Atom(IsUdp), End);
    assert FromLeft(true, last, f, 239) == FromLeft(false, End, f, 239) == false;
    assert FromLeft(true, e.rest, f, 239) == FromLeft(true, last, f, 239);
    assert MeansExpr(Equal, e, f, 239) == false;
    assert MeansExpr(AndTighter, e, f, 239) == true;
  }
}
