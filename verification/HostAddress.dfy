/** Host addresses, their order, and the ordered container built on that order. */
module HostAddresses {
  import opened Common

  /** `ipv4` holds the four octets in network order, so the first octet is the low byte. */
  datatype HostAddress = HostAddress(valid: bool, ipv4: Uint32) {

    function FirstOctet(): Octet {
      ipv4 % 0x100
    }

    predicate IsLoopback() {
      valid && FirstOctet() == 127
    }

    predicate IsMulticast() {
      valid && 224 <= FirstOctet() <= 239
    }

    /** operator< : never true when an invalid address takes part. */
    predicate Less(other: HostAddress) {
      valid && other.valid && ipv4 < other.ipv4
    }
  }

  const INVALID := HostAddress(false, 0)
  const ANY := HostAddress(true, 0)
  const BROADCAST := HostAddress(true, 0xFFFF_FFFF)

  /** The address written a.b.c.d */
  function Dotted(a: Octet, b: Octet, c: Octet, d: Octet): HostAddress {
    HostAddress(true, a + 0x100 * b + 0x1_0000 * c + 0x100_0000 * d)
  }

  lemma FirstOctetOfDotted(a: Octet, b: Octet, c: Octet, d: Octet)
    ensures Dotted(a, b, c, d).FirstOctet() == a
  {
    var rest := b + 0x100 * c + 0x1_0000 * d;
    assert Dotted(a, b, c, d).ipv4 == a + 0x100 * rest;
  }

  /** Loopback is 127.x.x.x, multicast is 224.x.x.x to 239.x.x.x. */
  lemma ClassesByFirstOctet(a: Octet, b: Octet, c: Octet, d: Octet)
    ensures Dotted(a, b, c, d).IsLoopback() <==> a == 127
    ensures Dotted(a, b, c, d).IsMulticast() <==> 224 <= a <= 239
  {
    FirstOctetOfDotted(a, b, c, d);
  }

  /** Any is 0.0.0.0, broadcast is 255.255.255.255. */
  lemma SpecialAddresses(a: Octet, b: Octet, c: Octet, d: Octet)
    ensures Dotted(a, b, c, d) == ANY <==> a == 0 && b == 0 && c == 0 && d == 0
    ensures Dotted(a, b, c, d) == BROADCAST <==> a == 255 && b == 255 && c == 255 && d == 255
  {
  }

  lemma InvalidHasNoClass(x: HostAddress)
    requires !x.valid
    ensures !x.IsLoopback() && !x.IsMulticast() && x != ANY && x != BROADCAST
  {
  }

  /** Every valid address can be written that way. */
  lemma EveryAddressIsDotted(x: HostAddress) returns (a: Octet, b: Octet, c: Octet, d: Octet)
    requires x.valid
    ensures x == Dotted(a, b, c, d)
  {
    var afterA: nat := x.ipv4 / 0x100;
    var afterB: nat := afterA / 0x100;
    a, b, c, d := x.ipv4 % 0x100, afterA % 0x100, afterB % 0x100, afterB / 0x100;
  }

  /** An ordered container knows only the order: two keys are one key when neither is less. */
  predicate Equivalent(a: HostAddress, b: HostAddress) {
    !a.Less(b) && !b.Less(a)
  }

  /** The key equivalence of the container agrees with operator== for exactly the valid keys. */
  lemma EquivalenceIsEqualityIffValid(a: HostAddress)
    ensures (forall b: HostAddress | b.valid :: Equivalent(a, b) <==> a == b) <==> a.valid
  {
    if !a.valid {
      assert Equivalent(a, ANY) && a != ANY;
    }
  }

  lemma LessIsStrictTotalOrder(a: HostAddress, b: HostAddress, c: HostAddress)
    requires a.valid && b.valid && c.valid
    ensures !a.Less(a)
    ensures a.Less(b) ==> !b.Less(a)
    ensures a.Less(b) && b.Less(c) ==> a.Less(c)
    ensures a != b ==> a.Less(b) || b.Less(a)
  {
  }

  // The ordered container: strictly ascending valid keys, searched by the order alone.

  predicate Ascending(xs: seq<HostAddress>) {
    && (forall i | 0 <= i < |xs| :: xs[i].valid)
    && (forall i, j | 0 <= i < j < |xs| :: xs[i].Less(xs[j]))
  }

  /** Position of the first key that is not less than `x`. */
  function LowerBound(xs: seq<HostAddress>, x: HostAddress): (k: nat)
    ensures k <= |xs|
    ensures forall i | 0 <= i < k :: xs[i].Less(x)
    ensures k < |xs| ==> !xs[k].Less(x)
  {
    if xs == [] || !xs[0].Less(x) then 0 else 1 + LowerBound(xs[1..], x)
  }

  /** find(x) != end() */
  predicate Contains(xs: seq<HostAddress>, x: HostAddress) {
    var k := LowerBound(xs, x);
    k < |xs| && !x.Less(xs[k])
  }

  /** emplace(x) */
  function Insert(xs: seq<HostAddress>, x: HostAddress): seq<HostAddress> {
    var k := LowerBound(xs, x);
    if Contains(xs, x) then xs else xs[..k] + [x] + xs[k..]
  }

  /** erase(find(x)) */
  function Erase(xs: seq<HostAddress>, x: HostAddress): seq<HostAddress> {
    var k := LowerBound(xs, x);
    if Contains(xs, x) then xs[..k] + xs[k+1..] else xs
  }

  lemma AboveBound(xs: seq<HostAddress>, x: HostAddress, j: nat)
    requires Ascending(xs) && x.valid && LowerBound(xs, x) <= j < |xs|
    ensures if Contains(xs, x) && j == LowerBound(xs, x) then xs[j] == x else x.Less(xs[j])
  {
    var k := LowerBound(xs, x);
    assert xs[k].valid && !xs[k].Less(x);
    if j > k {
      assert xs[k].Less(xs[j]);
    }
  }

  lemma AscendingSlices(xs: seq<HostAddress>, k: nat)
    requires Ascending(xs) && k <= |xs|
    ensures Ascending(xs[..k]) && Ascending(xs[k..]) && xs == xs[..k] + xs[k..]
  {
  }

  /** Around a key: the smaller keys, the key itself if it is there, and the larger keys. */
  lemma SplitAround(xs: seq<HostAddress>, x: HostAddress) returns (low: seq<HostAddress>, high: seq<HostAddress>)
    requires Ascending(xs) && x.valid
    ensures xs == if Contains(xs, x) then low + [x] + high else low + high
    ensures Insert(xs, x) == low + [x] + high
    ensures Erase(xs, x) == low + high
    ensures Ascending(low) && Ascending(high)
    ensures forall i | 0 <= i < |low| :: low[i].Less(x)
    ensures forall i | 0 <= i < |high| :: x.Less(high[i])
  {
    var k := LowerBound(xs, x);
    var next := if Contains(xs, x) then k + 1 else k;
    low, high := xs[..k], xs[next..];
    AscendingSlices(xs, k);
    AscendingSlices(xs, next);
    if Contains(xs, x) {
      AboveBound(xs, x, k);
      assert xs[..next] == low + [x];
    }
    HighAbove(xs, x, next);
  }

  lemma HighAbove(xs: seq<HostAddress>, x: HostAddress, next: nat)
    requires Ascending(xs) && x.valid
    requires next == LowerBound(xs, x) + if Contains(xs, x) then 1 else 0
    ensures next <= |xs| && forall i | 0 <= i < |xs[next..]| :: x.Less(xs[next..][i])
  {
    forall i | 0 <= i < |xs[next..]|
      ensures x.Less(xs[next..][i])
    {
      AboveBound(xs, x, next + i);
    }
  }

  lemma AscendingConcat(a: seq<HostAddress>, b: seq<HostAddress>)
    requires Ascending(a) && Ascending(b)
    requires forall i, j | 0 <= i < |a| && 0 <= j < |b| :: a[i].Less(b[j])
    ensures Ascending(a + b)
  {
  }

  lemma AscendingAround(a: seq<HostAddress>, x: HostAddress, b: seq<HostAddress>)
    requires Ascending(a) && Ascending(b) && x.valid
    requires forall i | 0 <= i < |a| :: a[i].Less(x)
    requires forall i | 0 <= i < |b| :: x.Less(b[i])
    ensures Ascending(a + b) && Ascending(a + [x] + b)
    ensures x !in a && x !in b
  {
    AscendingConcat(a, b);
    AscendingConcat([x], b);
    AscendingConcat(a, [x] + b);
    assert a + [x] + b == a + ([x] + b);
  }

  lemma MembersAround(a: seq<HostAddress>, x: HostAddress, b: seq<HostAddress>)
    ensures Members(a + b) == Members(a) + Members(b)
    ensures Members(a + [x] + b) == Members(a) + {x} + Members(b)
  {
  }

  lemma ContainsRefinesMembership(xs: seq<HostAddress>, x: HostAddress)
    requires Ascending(xs) && x.valid
    ensures Contains(xs, x) <==> x in xs
  {
    var low, high := SplitAround(xs, x);
    AscendingAround(low, x, high);
  }

  lemma InsertRefinesUnion(xs: seq<HostAddress>, x: HostAddress)
    requires Ascending(xs) && x.valid
    ensures Ascending(Insert(xs, x))
    ensures Members(Insert(xs, x)) == Members(xs) + {x}
  {
    var low, high := SplitAround(xs, x);
    AscendingAround(low, x, high);
    MembersAround(low, x, high);
  }

  lemma EraseRefinesDifference(xs: seq<HostAddress>, x: HostAddress)
    requires Ascending(xs) && x.valid
    ensures Ascending(Erase(xs, x))
    ensures Members(Erase(xs, x)) == Members(xs) - {x}
  {
    var low, high := SplitAround(xs, x);
    AscendingAround(low, x, high);
    MembersAround(low, x, high);
  }
}
