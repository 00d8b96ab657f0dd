/**
 Bookkeeping of IP reassembly as a function on values: a timestamp index beside an LRU-bounded
 fragment store. The store stands in for the fragment engine and keeps its documented contract:
 fragments of one packet are collected under the hash of the packet key, a complete packet is handed
 out and forgotten, a malformed fragment is ignored, and the least recently used packet is evicted,
 with a call back to the owner, when a new packet does not fit.
 */
module Reassembly {
  import opened Common
  import opened Packets

  datatype PacketKey =
    | V4Key(id: Uint16, source: Uint32, target: Uint32)
    | V6Key(fragmentId: Uint32, source6: nat, target6: nat)

  /** getPacketKey: the protocol is not part of an IPv4 key. */
  function GetPacketKey(f: Frame): Option<PacketKey> {
    match f.net
    case IPv4(ip) => Some(V4Key(ip.id, ip.source, ip.target))
    case IPv6(ip) =>
      if ip.fragment.Some? then Some(V6Key(ip.fragment.value.id, ip.source, ip.target)) else None
    case _ => None
  }

  /** `hash` is the hash value of a packet key; distinct keys may share one. */
  datatype Config = Config(maxAge: nat, capacity: nat, hash: PacketKey -> int)

  datatype Piece = Piece(data: seq<Octet>, last: bool)

  /** When a buffered fragment was seen: time of the sweep before it, and time recorded in the index. */
  datatype Stamp = Stamp(swept: int, recorded: int)

  /** `stamps` is an audit trail: no branch reads it. */
  datatype Entry = Entry(key: PacketKey, pieces: map<nat, Piece>, stamps: seq<Stamp>)

  /** `recent` lists the hashes of the entries, most recently used first. */
  datatype Store = Store(entries: map<int, Entry>, recent: seq<int>)

  datatype Timestamped = Timestamped(key: PacketKey, time: int)

  datatype State = State(index: map<int, Timestamped>, store: Store)

  const EMPTY := State(map[], Store(map[], []))

  datatype Status = NonIp | NonFragment | FirstFragment | MiddleFragment | OutOfOrder | Malformed | Reassembled

  datatype Outcome = Outcome(status: Status, packet: Option<Frame>, stamps: seq<Stamp>)

  predicate IsFragment(f: Frame) {
    match f.net
    case IPv4(ip) => ip.IsFragment()
    case IPv6(ip) => ip.fragment.Some?
    case _ => false
  }

  function OffsetOf(f: Frame): nat
    requires IsFragment(f)
  {
    8 * (if f.net.IPv4? then f.net.ip4.offset else f.net.ip6.fragment.value.offset)
  }

  function PieceOf(f: Frame): Piece
    requires IsFragment(f)
  {
    if f.net.IPv4? then Piece(f.net.ip4.data, !f.net.ip4.moreFragments)
    else Piece(f.net.ip6.data, !f.net.ip6.fragment.value.moreFragments)
  }

  /** Hash under which a fragment is collected. */
  function HashOf(c: Config, f: Frame): int
    requires GetPacketKey(f).Some?
  {
    c.hash(GetPacketKey(f).value)
  }

  /** The unfragmented packet with the header of `f`. */
  function Whole(f: Frame, data: seq<Octet>): Frame
    requires IsFragment(f)
  {
    if f.net.IPv4? then f.(net := IPv4(f.net.ip4.(moreFragments := false, offset := 0, data := data)))
    else f.(net := IPv6(f.net.ip6.(fragment := None, data := data)))
  }

  /** The data from offset `at` on, once every piece up to the last one is there. */
  function Assemble(pieces: map<nat, Piece>, at: nat): Option<seq<Octet>>
    decreases |pieces|
  {
    if at !in pieces then None
    else if pieces[at].last then Some(pieces[at].data)
    else
      RemovingShrinks(pieces, at);
      match Assemble(pieces - {at}, at + |pieces[at].data|)
      case None => None
      case Some(more) => Some(pieces[at].data + more)
  }

  lemma RemovingShrinks(pieces: map<nat, Piece>, at: nat)
    requires at in pieces
    ensures |pieces - {at}| < |pieces|
  {
  }

  // The store and its owner

  function Without(hs: seq<int>, gone: set<int>): (r: seq<int>)
    ensures |r| <= |hs|
    ensures forall h :: h in r <==> h in hs && h !in gone
  {
    if hs == [] then []
    else
      assert hs == [hs[0]] + hs[1..];
      if hs[0] in gone then Without(hs[1..], gone) else [hs[0]] + Without(hs[1..], gone)
  }

  /** removePacket */
  function Remove(s: Store, h: int): Store {
    Store(s.entries - {h}, Without(s.recent, {h}))
  }

  function Touch(s: Store, h: int): Store {
    s.(recent := [h] + Without(s.recent, {h}))
  }

  /** The owner's reaction to an eviction. */
  function OnFragmentsClean(c: Config, index: map<int, Timestamped>, key: PacketKey): map<int, Timestamped> {
    index - {c.hash(key)}
  }

  /** A packet not seen before: evict and call back if there is no room, then insert. */
  function Admit(c: Config, st: State, h: int, key: PacketKey): State {
    var blank := Entry(key, map[], []);
    var n := |st.store.recent|;
    if 0 < n && c.capacity <= n && st.store.recent[n-1] in st.store.entries then
      var victim := st.store.recent[n-1];
      State(OnFragmentsClean(c, st.index, st.store.entries[victim].key),
            Store((st.store.entries - {victim})[h := blank], [h] + st.store.recent[..n-1]))
    else
      State(st.index, Store(st.store.entries[h := blank], [h] + st.store.recent))
  }

  function AddPiece(e: Entry, f: Frame, stamp: Stamp): Entry
    requires IsFragment(f)
  {
    var at := OffsetOf(f);
    Entry(e.key, if at in e.pieces then e.pieces else e.pieces[at := PieceOf(f)], e.stamps + [stamp])
  }

  /** State in which the engine has an entry for the packet of `f`. */
  function Located(c: Config, st: State, f: Frame): (r: State)
    requires IsFragment(f)
    ensures HashOf(c, f) in r.store.entries
  {
    var h := HashOf(c, f);
    if h in st.store.entries then st.(store := Touch(st.store, h))
    else Admit(c, st, h, GetPacketKey(f).value)
  }

  /** processPacket of the engine, including the effect of its call back on the index. */
  function EngineProcess(c: Config, st: State, f: Frame, stamp: Stamp): (State, Outcome) {
    if GetPacketKey(f).None? && !f.net.IPv6? then (st, Outcome(NonIp, Some(f), []))
    else if !IsFragment(f) then (st, Outcome(NonFragment, Some(f), []))
    else if PieceOf(f).data == [] then (st, Outcome(Malformed, None, []))
    else
      var h := HashOf(c, f);
      var located := Located(c, st, f);
      var e := AddPiece(located.store.entries[h], f, stamp);
      match Assemble(e.pieces, 0)
      case Some(data) =>
        (State(located.index, Remove(located.store, h)), Outcome(Reassembled, Some(Whole(f, data)), e.stamps))
      case None =>
        var status := if OffsetOf(f) == 0 then FirstFragment else if 0 in e.pieces then MiddleFragment else OutOfOrder;
        (State(located.index, located.store.(entries := located.store.entries[h := e])), Outcome(status, None, []))
  }

  // The owner

  predicate Expired(c: Config, st: State, h: int, now: int) {
    h in st.index && st.index[h].time < now - c.maxAge
  }

  /** Remove one index entry, and the stored packet that the key of this entry names. */
  function Drop(c: Config, st: State, h: int): State
    requires h in st.index
  {
    State(st.index - {h}, Remove(st.store, c.hash(st.index[h].key)))
  }

  /**
   removeOldPackages over the container's iteration order. The iterator is advanced by the erase and
   again by the loop header, so the entry after an erased one is not looked at; advancing past the end
   stops the loop.
   */
  function Sweep(c: Config, st: State, order: seq<int>, now: int): State
    decreases |order|
  {
    if order == [] then st
    else if Expired(c, st, order[0], now) then
      Sweep(c, Drop(c, st, order[0]), if |order| == 1 then [] else order[2..], now)
    else Sweep(c, st, order[1..], now)
  }

  predicate Buffered(s: Status) {
    s == FirstFragment || s == MiddleFragment || s == OutOfOrder
  }

  function UpdateTimestamp(c: Config, index: map<int, Timestamped>, key: PacketKey, now: int): map<int, Timestamped> {
    var h := c.hash(key);
    index[h := Timestamped(if h in index then index[h].key else key, now)]
  }

  /** processPacket after the sweep: hand the fragment to the engine, then follow its status in the index. */
  function FollowEngine(c: Config, swept: State, f: Frame, stamp: Stamp): (State, Outcome) {
    var (st', o) := EngineProcess(c, swept, f, stamp);
    if o.status == Reassembled && GetPacketKey(f).Some? then
      (st'.(index := st'.index - {HashOf(c, f)}), o)
    else if Buffered(o.status) && GetPacketKey(f).Some? then
      (st'.(index := UpdateTimestamp(c, st'.index, GetPacketKey(f).value, stamp.recorded)), o)
    else (st', o)
  }

  function ProcessPacket(c: Config, st: State, f: Frame, order: seq<int>, stamp: Stamp): (State, Outcome) {
    FollowEngine(c, Sweep(c, st, order, stamp.swept), f, stamp)
  }

  predicate Collected(f: Frame) {
    IsFragment(f) && PieceOf(f).data != []
  }

  /** The three ways through processPacket after the sweep. */
  lemma FollowEngineCases(c: Config, swept: State, f: Frame, stamp: Stamp)
    ensures !Collected(f) ==> FollowEngine(c, swept, f, stamp).0 == swept && FollowEngine(c, swept, f, stamp).1.stamps == []
    ensures FollowEngine(c, swept, f, stamp).1.status == Reassembled ==> Collected(f)
    ensures Collected(f) ==>
      var h, key, located := HashOf(c, f), GetPacketKey(f).value, Located(c, swept, f);
      var e := AddPiece(located.store.entries[h], f, stamp);
      var (st', o) := FollowEngine(c, swept, f, stamp);
      match Assemble(e.pieces, 0)
      case Some(data) =>
        && st' == State(located.index - {h}, Remove(located.store, h))
        && o == Outcome(Reassembled, Some(Whole(f, data)), e.stamps)
      case None =>
        && st' == State(UpdateTimestamp(c, located.index, key, stamp.recorded),
                        located.store.(entries := located.store.entries[h := e]))
        && o.packet == None && o.stamps == [] && Buffered(o.status)
  {
  }

  /** Two fragments of one IP version have one key iff identification, source and destination agree. */
  lemma KeyIdentifies(f: Frame, g: Frame)
    requires IsFragment(f) && IsFragment(g)
    ensures GetPacketKey(f).Some? && GetPacketKey(g).Some?
    ensures GetPacketKey(f) == GetPacketKey(g) <==>
              || (f.net.IPv4? && g.net.IPv4? && f.net.ip4.id == g.net.ip4.id
                  && f.net.ip4.source == g.net.ip4.source && f.net.ip4.target == g.net.ip4.target)
              || (f.net.IPv6? && g.net.IPv6? && f.net.ip6.fragment.value.id == g.net.ip6.fragment.value.id
                  && f.net.ip6.source == g.net.ip6.source && f.net.ip6.target == g.net.ip6.target)
  {
  }

  /** The documented contract of the engine: which status it answers, and what it returns with it. */
  lemma EngineContract(c: Config, st: State, f: Frame, stamp: Stamp)
    ensures var (st', o) := EngineProcess(c, st, f, stamp); var isIp := f.net.IPv4? || f.net.IPv6?;
      // What is no fragment comes back as it is.
      && (o.status == NonIp <==> !isIp)
      && (o.status == NonFragment <==> isIp && !IsFragment(f))
      && (!IsFragment(f) ==> st' == st && o.packet == Some(f))
      // A malformed fragment is ignored; any other is buffered, or completes a packet that is then returned.
      && (o.status == Malformed <==> IsFragment(f) && PieceOf(f).data == [])
      && (o.status == Malformed ==> st' == st && o.packet.None?)
      && (Buffered(o.status) ==> o.packet.None? && HashOf(c, f) in st'.store.entries)
      && (o.status == Reassembled ==> o.packet.Some? && !IsFragment(o.packet.value) && HashOf(c, f) !in st'.store.entries)
      // Buffered fragments are told apart by where they stand.
      && (o.status == FirstFragment ==> OffsetOf(f) == 0)
      && (o.status == MiddleFragment || o.status == OutOfOrder ==>
            OffsetOf(f) != 0 && (o.status == MiddleFragment <==> 0 in st'.store.entries[HashOf(c, f)].pieces))
  {
  }

  // Agreement of index and store

  ghost predicate StoreOk(c: Config, s: Store) {
    && Distinct(s.recent)
    && Members(s.recent) == s.entries.Keys
    && |s.recent| <= c.capacity
    && (forall h | h in s.entries :: c.hash(s.entries[h].key) == h)
  }

  /** Index and store hold the same hashes under the same keys, and every key hashes to its slot. */
  ghost predicate Sync(c: Config, st: State) {
    && StoreOk(c, st.store)
    && st.index.Keys == st.store.entries.Keys
    && (forall h | h in st.index :: st.index[h].key == st.store.entries[h].key)
  }

  lemma {:induction false} WithoutKeepsDistinct(hs: seq<int>, gone: set<int>)
    requires Distinct(hs)
    ensures Distinct(Without(hs, gone))
  {
    if hs != [] {
      WithoutKeepsDistinct(hs[1..], gone);
      var r := Without(hs[1..], gone);
      assert hs[0] !in hs[1..];
      assert hs[0] !in r;
    }
  }

  lemma RemoveKeepsStoreOk(c: Config, s: Store, h: int)
    requires StoreOk(c, s)
    ensures StoreOk(c, Remove(s, h))
  {
    WithoutKeepsDistinct(s.recent, {h});
    assert Members(Without(s.recent, {h})) == Members(s.recent) - {h};
  }

  lemma DropKeepsSync(c: Config, st: State, h: int)
    requires Sync(c, st) && h in st.index
    ensures Sync(c, Drop(c, st, h))
  {
    RemoveKeepsStoreOk(c, st.store, h);
  }

  lemma {:induction false} SweepKeepsSync(c: Config, st: State, order: seq<int>, now: int)
    requires Sync(c, st)
    ensures Sync(c, Sweep(c, st, order, now))
    decreases |order|
  {
    if order != [] {
      if Expired(c, st, order[0], now) {
        DropKeepsSync(c, st, order[0]);
        SweepKeepsSync(c, Drop(c, st, order[0]), if |order| == 1 then [] else order[2..], now);
      } else {
        SweepKeepsSync(c, st, order[1..], now);
      }
    }
  }

  lemma TouchKeepsStoreOk(c: Config, s: Store, h: int)
    requires StoreOk(c, s) && h in s.entries
    ensures StoreOk(c, Touch(s, h))
  {
    WithoutKeepsDistinct(s.recent, {h});
    DistinctSize(s.recent);
    DistinctSize(Without(s.recent, {h}));
    assert Members(Without(s.recent, {h})) == Members(s.recent) - {h};
    assert Members(Touch(s, h).recent) == {h} + (Members(s.recent) - {h});
    assert |Members(s.recent) - {h}| == |Members(s.recent)| - 1;
  }

  /** The state after the least recently used packet has been evicted and the owner called. */
  lemma EvictionKeepsSync(c: Config, st: State)
    requires Sync(c, st) && st.store.recent != []
    ensures var n := |st.store.recent|; var victim := st.store.recent[n-1];
      && victim in st.store.entries && c.hash(st.store.entries[victim].key) == victim
      && Sync(c, State(st.index - {victim}, Store(st.store.entries - {victim}, st.store.recent[..n-1])))
  {
    var recent, n := st.store.recent, |st.store.recent|;
    var victim := recent[n-1];
    assert victim in Members(recent);
    assert recent == recent[..n-1] + [victim];
    assert victim !in recent[..n-1];
    assert Members(recent[..n-1]) == Members(recent) - {victim};
  }

  lemma InsertionKeepsStoreOk(c: Config, s: Store, h: int, key: PacketKey)
    requires StoreOk(c, s) && h !in s.entries && c.hash(key) == h && |s.recent| < c.capacity
    ensures StoreOk(c, Store(s.entries[h := Entry(key, map[], [])], [h] + s.recent))
  {
    FreshHead(h, s.recent);
  }

  lemma AdmitKeepsStoreOk(c: Config, st: State, h: int, key: PacketKey)
    requires Sync(c, st) && h !in st.store.entries && c.hash(key) == h && 0 < c.capacity
    ensures var st' := Admit(c, st, h, key);
      && StoreOk(c, st'.store)
      && st'.store.entries.Keys == st'.index.Keys + {h}
      && h !in st'.index
      && st'.store.entries[h].key == key
      && (forall g | g in st'.index :: st'.index[g].key == st'.store.entries[g].key)
  {
    var n := |st.store.recent|;
    if c.capacity <= n {
      EvictionKeepsSync(c, st);
      var victim := st.store.recent[n-1];
      InsertionKeepsStoreOk(c, Store(st.store.entries - {victim}, st.store.recent[..n-1]), h, key);
    } else {
      InsertionKeepsStoreOk(c, st.store, h, key);
    }
  }

  lemma FreshHead(h: int, hs: seq<int>)
    requires Distinct(hs) && h !in Members(hs)
    ensures Distinct([h] + hs) && Members([h] + hs) == Members(hs) + {h}
  {
  }

  /** While the engine works on the packet under hash `h`, its store may be ahead of the index by that hash only. */
  ghost predicate Ahead(c: Config, st: State, h: int, key: PacketKey) {
    && StoreOk(c, st.store)
    && st.store.entries.Keys == st.index.Keys + {h}
    && (h !in st.index ==> st.store.entries[h].key == key)
    && (forall g | g in st.index :: st.index[g].key == st.store.entries[g].key)
  }

  lemma LocatedIsAhead(c: Config, st: State, f: Frame)
    requires Sync(c, st) && IsFragment(f) && 0 < c.capacity
    ensures Ahead(c, Located(c, st, f), HashOf(c, f), GetPacketKey(f).value)
  {
    var h := HashOf(c, f);
    if h in st.store.entries {
      TouchKeepsStoreOk(c, st.store, h);
    } else {
      AdmitKeepsStoreOk(c, st, h, GetPacketKey(f).value);
    }
  }

  lemma StoringKeepsAhead(c: Config, st: State, h: int, key: PacketKey, e: Entry)
    requires Ahead(c, st, h, key) && e.key == st.store.entries[h].key
    ensures Ahead(c, st.(store := st.store.(entries := st.store.entries[h := e])), h, key)
  {
  }

  lemma ForgettingCatchesUp(c: Config, st: State, h: int, key: PacketKey)
    requires Ahead(c, st, h, key)
    ensures Sync(c, State(st.index - {h}, Remove(st.store, h)))
  {
    RemoveKeepsStoreOk(c, st.store, h);
  }

  lemma TimestampCatchesUp(c: Config, st: State, key: PacketKey, now: int)
    requires Ahead(c, st, c.hash(key), key)
    ensures Sync(c, st.(index := UpdateTimestamp(c, st.index, key, now)))
  {
  }

  /** One packet, with any sweep order, any eviction and any sharing of hashes, keeps index and store in agreement. */
  lemma ProcessPacketKeepsSync(c: Config, st: State, f: Frame, order: seq<int>, stamp: Stamp)
    requires Sync(c, st) && 0 < c.capacity
    ensures Sync(c, ProcessPacket(c, st, f, order, stamp).0)
  {
    SweepKeepsSync(c, st, order, stamp.swept);
    var swept := Sweep(c, st, order, stamp.swept);
    FollowEngineCases(c, swept, f, stamp);
    if Collected(f) {
      var h, key, located := HashOf(c, f), GetPacketKey(f).value, Located(c, swept, f);
      LocatedIsAhead(c, swept, f);
      var e := AddPiece(located.store.entries[h], f, stamp);
      if Assemble(e.pieces, 0).Some? {
        ForgettingCatchesUp(c, located, h, key);
      } else {
        var stored := located.(store := located.store.(entries := located.store.entries[h := e]));
        StoringKeepsAhead(c, located, h, key, e);
        TimestampCatchesUp(c, stored, key, stamp.recorded);
      }
    }
  }

  // Runs

  datatype Arrival = Arrival(frame: Frame, order: seq<int>, stamp: Stamp)

  function Run(c: Config, st: State, arrivals: seq<Arrival>): State
    decreases |arrivals|
  {
    if arrivals == [] then st
    else Run(c, ProcessPacket(c, st, arrivals[0].frame, arrivals[0].order, arrivals[0].stamp).0, arrivals[1..])
  }

  /** At every return from processPacket, over every run, the index and the store agree. */
  lemma {:induction false} RunKeepsSync(c: Config, st: State, arrivals: seq<Arrival>)
    requires Sync(c, st) && 0 < c.capacity
    ensures forall n | 0 <= n <= |arrivals| :: Sync(c, Run(c, st, arrivals[..n]))
    decreases |arrivals|
  {
    if arrivals != [] {
      var a := arrivals[0];
      var st' := ProcessPacket(c, st, a.frame, a.order, a.stamp).0;
      ProcessPacketKeepsSync(c, st, a.frame, a.order, a.stamp);
      RunKeepsSync(c, st', arrivals[1..]);
      forall n | 0 <= n <= |arrivals|
        ensures Sync(c, Run(c, st, arrivals[..n]))
      {
        if n > 0 {
          assert arrivals[..n][1..] == arrivals[1..][..n-1];
        }
      }
    }
  }

  lemma EmptyInSync(c: Config)
    ensures Sync(c, EMPTY)
  {
  }
}
