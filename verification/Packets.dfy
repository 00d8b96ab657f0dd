/** Captured frames as the driver, the packet filter and the packet parser see them. */
module Packets {
  import opened Common

  type Mac = x: int | 0 <= x < 0x1_0000_0000_0000

  const UDP: Octet := 17

  /** An IPv4 packet; `offset` counts units of eight octets, `data` is the IP payload. */
  datatype Ip4 = Ip4(
    id: Uint16,
    source: Uint32,
    target: Uint32,
    protocol: Octet,
    reserved: bool,
    dontFragment: bool,
    moreFragments: bool,
    offset: Fragment13,
    data: seq<Octet>)
  {
    predicate IsFragment() {
      moreFragments || offset != 0
    }
  }

  type Fragment13 = x: int | 0 <= x < 0x2000

  datatype Ip6Fragment = Ip6Fragment(id: Uint32, moreFragments: bool, offset: Fragment13)

  datatype Ip6 = Ip6(source: nat, target: nat, protocol: Octet, fragment: Option<Ip6Fragment>, data: seq<Octet>)

  datatype Network = IPv4(ip4: Ip4) | IPv6(ip6: Ip6) | Arp(arpTarget: Uint32) | OtherNetwork

  /** Frames captured on the loopback device carry no ethernet header. */
  datatype Frame = Frame(etherSource: Option<Mac>, net: Network)

  datatype UdpLayer = UdpLayer(sourcePort: Uint16, targetPort: Uint16, payload: seq<Octet>)

  const UDP_HEADER_SIZE := 8

  function BigEndian(high: Octet, low: Octet): Uint16 {
    0x100 * (high as int) + low
  }

  /** The UDP layer of an IP payload; there is none when the header does not fit. */
  function ParseUdp(protocol: Octet, data: seq<Octet>): Option<UdpLayer> {
    if protocol != UDP || |data| < UDP_HEADER_SIZE then None
    else Some(UdpLayer(BigEndian(data[0], data[1]), BigEndian(data[2], data[3]), data[UDP_HEADER_SIZE..]))
  }

  /** A UDP datagram as a sender puts it on the wire; `length` and `checksum` are never looked at. */
  function UdpBytes(udp: UdpLayer, length: Uint16, checksum: Uint16): seq<Octet> {
    [High(udp.sourcePort), Low(udp.sourcePort), High(udp.targetPort), Low(udp.targetPort),
     High(length), Low(length), High(checksum), Low(checksum)] + udp.payload
  }

  function High(x: Uint16): Octet {
    x / 0x100
  }

  function Low(x: Uint16): Octet {
    x % 0x100
  }

  lemma UdpRoundTrip(udp: UdpLayer, length: Uint16, checksum: Uint16)
    ensures ParseUdp(UDP, UdpBytes(udp, length, checksum)) == Some(udp)
  {
  }

  lemma OctetsOfWord(high: Octet, low: Octet)
    ensures High(BigEndian(high, low)) == high && Low(BigEndian(high, low)) == low
  {
  }

  lemma Reencoded(data: seq<Octet>, udp: UdpLayer)
    requires ParseUdp(UDP, data) == Some(udp)
    ensures data == UdpBytes(udp, BigEndian(data[4], data[5]), BigEndian(data[6], data[7]))
  {
    OctetsOfWord(data[0], data[1]);
    OctetsOfWord(data[2], data[3]);
    OctetsOfWord(data[4], data[5]);
    OctetsOfWord(data[6], data[7]);
    assert data == [data[0], data[1], data[2], data[3], data[4], data[5], data[6], data[7]] + data[UDP_HEADER_SIZE..];
  }

  /** A payload has a UDP layer iff it is an encoded UDP datagram, and then it is the encoded one. */
  lemma UdpParsesIffEncoded(protocol: Octet, data: seq<Octet>, udp: UdpLayer)
    ensures ParseUdp(protocol, data) == Some(udp) <==>
              protocol == UDP && exists length: Uint16, checksum: Uint16 :: data == UdpBytes(udp, length, checksum)
  {
    if ParseUdp(protocol, data) == Some(udp) {
      Reencoded(data, udp);
    }
    if protocol == UDP && exists length: Uint16, checksum: Uint16 :: data == UdpBytes(udp, length, checksum) {
      var length: Uint16, checksum: Uint16 :| data == UdpBytes(udp, length, checksum);
      UdpRoundTrip(udp, length, checksum);
    }
  }

  function OctetBit(b: bool, weight: nat): nat {
    if b then weight else 0
  }

  /** The 16-bit word at offset 6 of the IPv4 header: three flags and the fragment offset. */
  function FlagsWord(ip: Ip4): Uint16 {
    OctetBit(ip.reserved, 0x8000) + OctetBit(ip.dontFragment, 0x4000) + OctetBit(ip.moreFragments, 0x2000) + ip.offset
  }

  // Bitwise conjunction on numbers, bit by bit.

  function BitAnd(a: nat, b: nat): nat {
    if a == 0 || b == 0 then 0 else (a % 2) * (b % 2) + 2 * BitAnd(a / 2, b / 2)
  }

  function Pow2(k: nat): (p: nat)
    ensures p > 0
  {
    if k == 0 then 1 else 2 * Pow2(k - 1)
  }

  /** A mask of the k low bits keeps the remainder modulo 2^k. */
  lemma {:induction false} LowMaskIsRemainder(a: nat, k: nat)
    ensures BitAnd(a, Pow2(k) - 1) == a % Pow2(k)
    decreases k
  {
    if k > 0 {
      var p := Pow2(k - 1);
      LowMaskIsRemainder(a / 2, k - 1);
      MaskStep(a, p);
      assert Pow2(k) == 2 * p;
    }
  }

  lemma {:induction false} MaskStep(a: nat, p: nat)
    requires p > 0 && BitAnd(a / 2, p - 1) == (a / 2) % p
    ensures BitAnd(a, 2 * p - 1) == a % (2 * p)
  {
    HalfRemainder(a, p);
    OddMask(a, p - 1);
  }

  lemma {:induction false} OddMask(a: nat, m: nat)
    ensures BitAnd(a, 2 * m + 1) == a % 2 + 2 * BitAnd(a / 2, m)
  {
  }

  lemma HalfRemainder(a: nat, p: nat)
    requires p > 0
    ensures a % (2 * p) == a % 2 + 2 * ((a / 2) % p)
  {
    var q, r := (a / 2) / p, (a / 2) % p;
    assert a / 2 == p * q + r;
    assert 2 * (p * q) == (2 * p) * q;
    RemainderUnique(a, 2 * p, q, a % 2 + 2 * r);
  }

  lemma RemainderUnique(a: nat, m: nat, q: nat, r: nat)
    requires a == m * q + r && r < m
    ensures a % m == r
  {
    var d := a / m;
    assert a == m * d + a % m;
    if d < q {
      MulMonotone(m, d + 1, q);
    } else if d > q {
      MulMonotone(m, q + 1, d);
    }
  }

  lemma MulMonotone(m: nat, x: nat, y: nat)
    requires x <= y
    ensures m * x <= m * y
  {
  }

  /** Section 3.1 of RFC 791: the mask 0x3fff tests "more fragments" and the fragment offset together. */
  lemma FragmentMask(ip: Ip4)
    ensures BitAnd(FlagsWord(ip), 0x3fff) != 0 <==> ip.IsFragment()
  {
    assert Pow2(14) == 0x4000 by {
      assert Pow2(7) == 128;
    }
    LowMaskIsRemainder(FlagsWord(ip), 14);
    var high := OctetBit(ip.reserved, 2) + OctetBit(ip.dontFragment, 1);
    RemainderUnique(FlagsWord(ip), 0x4000, high, OctetBit(ip.moreFragments, 0x2000) + ip.offset);
  }
}
