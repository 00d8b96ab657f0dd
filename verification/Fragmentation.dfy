/** A fragmented packet, in any order and interleaved with other traffic, comes out once and whole. */
module Fragmentation {
  import opened Common
  import opened Packets
  import opened Reassembly

  /** Where a packet of `length` octets is cut: ascending, on eight-octet boundaries, into at least two parts. */
  ghost predicate Cuts(cuts: seq<nat>, length: nat) {
    && 3 <= |cuts|
    && cuts[0] == 0
    && cuts[|cuts| - 1] == length
    && (forall i, j | 0 <= i < j < |cuts| :: cuts[i] < cuts[j])
    && (forall i | 0 <= i < |cuts| - 1 :: cuts[i] % 8 == 0 && cuts[i] / 8 < 0x2000)
  }

  /** An unfragmented IPv4 frame together with the places where it is cut. */
  ghost predicate Cut(f: Frame, cuts: seq<nat>) {
    f.net.IPv4? && !f.net.ip4.IsFragment() && Cuts(cuts, |f.net.ip4.data|)
  }

  function Part(f: Frame, cuts: seq<nat>, i: nat): Piece
    requires f.net.IPv4? && i + 1 < |cuts| && cuts[i] <= cuts[i+1] <= |f.net.ip4.data|
  {
    Piece(f.net.ip4.data[cuts[i]..cuts[i+1]], i + 2 == |cuts|)
  }

  lemma CutsInside(cuts: seq<nat>, length: nat, i: nat)
    requires Cuts(cuts, length) && i + 1 < |cuts|
    ensures cuts[i] < cuts[i+1] <= length
  {
  }

  /** The i-th fragment of a cut frame. */
  ghost function FragmentOf(f: Frame, cuts: seq<nat>, i: nat): (r: Frame)
    requires Cut(f, cuts) && i + 1 < |cuts|
    ensures Collected(r) && OffsetOf(r) == cuts[i]
    ensures cuts[i] <= cuts[i+1] <= |f.net.ip4.data| && PieceOf(r) == Part(f, cuts, i)
    ensures GetPacketKey(r) == GetPacketKey(f)
    ensures Whole(r, f.net.ip4.data) == f
  {
    CutsInside(cuts, |f.net.ip4.data|, i);
    var part := Part(f, cuts, i);
    f.(net := IPv4(f.net.ip4.(moreFragments := !part.last, offset := cuts[i] / 8, data := part.data)))
  }

  /** From the k-th part on, exactly the parts that are not missing have been collected. */
  ghost predicate Holding(pieces: map<nat, Piece>, f: Frame, cuts: seq<nat>, k: nat, missing: set<nat>)
    requires Cut(f, cuts)
  {
    forall i | k <= i < |cuts| - 1 ::
      CutsInside(cuts, |f.net.ip4.data|, i);
      if i in missing then cuts[i] !in pieces else cuts[i] in pieces && pieces[cuts[i]] == Part(f, cuts, i)
  }

  ghost predicate MissingFrom(missing: set<nat>, k: nat, n: nat) {
    exists i | k <= i < n :: i in missing
  }

  /** Assembly succeeds exactly when no part is missing, and then yields the original data. */
  lemma {:induction false} AssembleParts(pieces: map<nat, Piece>, f: Frame, cuts: seq<nat>, k: nat, missing: set<nat>)
    requires Cut(f, cuts) && k < |cuts| - 1 && Holding(pieces, f, cuts, k, missing)
    ensures cuts[k] <= |f.net.ip4.data|
    ensures Assemble(pieces, cuts[k])
         == if MissingFrom(missing, k, |cuts| - 1) then None else Some(f.net.ip4.data[cuts[k]..])
    decreases |cuts| - k
  {
    var data := f.net.ip4.data;
    CutsInside(cuts, |data|, k);
    if k in missing {
      assert MissingFrom(missing, k, |cuts| - 1);
    } else if k + 2 == |cuts| {
      assert pieces[cuts[k]] == Part(f, cuts, k);
      assert data[cuts[k]..cuts[k+1]] == data[cuts[k]..];
    } else {
      assert pieces[cuts[k]] == Part(f, cuts, k);
      var rest := pieces - {cuts[k]};
      assert Holding(rest, f, cuts, k + 1, missing);
      AssembleParts(rest, f, cuts, k + 1, missing);
      assert MissingFrom(missing, k, |cuts| - 1) <==> MissingFrom(missing, k + 1, |cuts| - 1);
      assert data[cuts[k]..cuts[k+1]] + data[cuts[k+1]..] == data[cuts[k]..];
    }
  }

  // What one step does to the entry under a given hash

  // What other traffic leaves alone

  /** The entry under `h`, in index and store, is the same in both states. */
  ghost predicate SameAt(a: State, b: State, h: int) {
    && (h in a.index <==> h in b.index)
    && (h in a.index ==> a.index[h] == b.index[h])
    && (h in a.store.entries <==> h in b.store.entries)
    && (h in a.store.entries ==> a.store.entries[h] == b.store.entries[h])
  }

  /** At most `k` hashes have been used more recently than `h`. */
  ghost predicate Near(recent: seq<int>, h: int, k: nat) {
    exists i | 0 <= i < |recent| :: i <= k && recent[i] == h
  }

  lemma {:induction false} NearWithout(hs: seq<int>, gone: set<int>, h: int, k: nat)
    requires Near(hs, h, k) && h !in gone
    ensures Near(Without(hs, gone), h, k)
  {
    var rest := Without(hs[1..], gone);
    if hs[0] == h {
      assert Without(hs, gone)[0] == h;
    } else {
      var i :| 0 <= i < |hs| && i <= k && hs[i] == h;
      assert hs[1..][i-1] == h;
      NearWithout(hs[1..], gone, h, k - 1);
      if hs[0] !in gone {
        NearAfterHead(hs[0], rest, h, k - 1);
      }
    }
  }

  lemma NearAfterHead(g: int, hs: seq<int>, h: int, k: nat)
    requires Near(hs, h, k)
    ensures Near([g] + hs, h, k + 1)
  {
    var i :| 0 <= i < |hs| && i <= k && hs[i] == h;
    assert ([g] + hs)[i+1] == h;
  }

  lemma NearSurvivesEviction(hs: seq<int>, h: int, k: nat)
    requires Near(hs, h, k) && Distinct(hs) && k + 1 < |hs|
    ensures hs[|hs|-1] != h && Near(hs[..|hs|-1], h, k)
  {
    var i :| 0 <= i < |hs| && i <= k && hs[i] == h;
    assert hs[..|hs|-1][i] == h;
  }

  lemma {:induction false} SweepSpares(c: Config, st: State, order: seq<int>, now: int, h: int, k: nat)
    requires Sync(c, st) && !Expired(c, st, h, now)
    ensures SameAt(st, Sweep(c, st, order, now), h)
    ensures Near(st.store.recent, h, k) ==> Near(Sweep(c, st, order, now).store.recent, h, k)
    decreases |order|
  {
    if order != [] {
      if Expired(c, st, order[0], now) {
        var dropped := Drop(c, st, order[0]);
        DropKeepsSync(c, st, order[0]);
        assert c.hash(st.index[order[0]].key) == order[0];
        assert SameAt(st, dropped, h);
        if Near(st.store.recent, h, k) {
          NearWithout(st.store.recent, {order[0]}, h, k);
        }
        SweepSpares(c, dropped, if |order| == 1 then [] else order[2..], now, h, k);
      } else {
        SweepSpares(c, st, order[1..], now, h, k);
      }
    }
  }

  lemma AdmitSpares(c: Config, st: State, g: int, key: PacketKey, h: int, k: nat)
    requires Sync(c, st) && g != h && Near(st.store.recent, h, k) && k + 1 < c.capacity
    ensures SameAt(st, Admit(c, st, g, key), h) && Near(Admit(c, st, g, key).store.recent, h, k + 1)
  {
    var recent, n := st.store.recent, |st.store.recent|;
    if c.capacity <= n {
      NearSurvivesEviction(recent, h, k);
      assert recent[n-1] in Members(recent);
      NearAfterHead(g, recent[..n-1], h, k);
    } else {
      NearAfterHead(g, recent, h, k);
    }
  }

  lemma LocatedSpares(c: Config, st: State, f: Frame, h: int, k: nat)
    requires Sync(c, st) && IsFragment(f) && HashOf(c, f) != h && Near(st.store.recent, h, k) && k + 1 < c.capacity
    ensures SameAt(st, Located(c, st, f), h) && Near(Located(c, st, f).store.recent, h, k + 1)
  {
    var g := HashOf(c, f);
    if g in st.store.entries {
      NearWithout(st.store.recent, {g}, h, k);
      NearAfterHead(g, Without(st.store.recent, {g}), h, k);
    } else {
      AdmitSpares(c, st, g, GetPacketKey(f).value, h, k);
    }
  }

  lemma FollowSpares(c: Config, st: State, f: Frame, stamp: Stamp, h: int, k: nat)
    requires Sync(c, st) && Near(st.store.recent, h, k)
    requires Collected(f) ==> HashOf(c, f) != h && k + 1 < c.capacity
    ensures var st' := FollowEngine(c, st, f, stamp).0;
      SameAt(st, st', h) && Near(st'.store.recent, h, if Collected(f) then k + 1 else k)
  {
    FollowEngineCases(c, st, f, stamp);
    if Collected(f) {
      LocatedSpares(c, st, f, h, k);
      NearWithout(Located(c, st, f).store.recent, {HashOf(c, f)}, h, k + 1);
    }
  }

  /** Traffic under other hashes leaves an unexpired entry alone unless too many of them have been used since. */
  lemma OthersSpare(c: Config, st: State, a: Arrival, h: int, k: nat)
    requires Sync(c, st) && Near(st.store.recent, h, k) && !Expired(c, st, h, a.stamp.swept)
    requires Collected(a.frame) ==> HashOf(c, a.frame) != h && k + 1 < c.capacity
    ensures var st' := ProcessPacket(c, st, a.frame, a.order, a.stamp).0;
      SameAt(st, st', h) && Near(st'.store.recent, h, if Collected(a.frame) then k + 1 else k)
  {
    SweepKeepsSync(c, st, a.order, a.stamp.swept);
    SweepSpares(c, st, a.order, a.stamp.swept, h, k);
    FollowSpares(c, Sweep(c, st, a.order, a.stamp.swept), a.frame, a.stamp, h, k);
  }

  lemma FollowLeavesOut(c: Config, st: State, f: Frame, stamp: Stamp, h: int)
    requires Sync(c, st) && h !in st.index && (Collected(f) ==> HashOf(c, f) != h)
    ensures h !in FollowEngine(c, st, f, stamp).0.index
  {
    FollowEngineCases(c, st, f, stamp);
  }

  /** Traffic under other hashes begins no entry under this one. */
  lemma OthersLeaveOut(c: Config, st: State, a: Arrival, h: int)
    requires Sync(c, st) && h !in st.index && (Collected(a.frame) ==> HashOf(c, a.frame) != h)
    ensures h !in ProcessPacket(c, st, a.frame, a.order, a.stamp).0.index
  {
    SweepKeepsSync(c, st, a.order, a.stamp.swept);
    SweepSpares(c, st, a.order, a.stamp.swept, h, 0);
    FollowLeavesOut(c, Sweep(c, st, a.order, a.stamp.swept), a.frame, a.stamp, h);
  }

  // The packet of interest along a run

  /** A packet in flight: its frame and its cuts. */
  datatype Flight = Flight(frame: Frame, cuts: seq<nat>)

  ghost predicate InFlight(p: Flight) {
    Cut(p.frame, p.cuts)
  }

  function AllParts(n: nat): (r: set<nat>)
    ensures forall i: nat :: i in r <==> i < n
  {
    if n == 0 then {} else AllParts(n - 1) + {n - 1}
  }

  function PartsOf(p: Flight): set<nat> {
    AllParts(if p.cuts == [] then 0 else |p.cuts| - 1)
  }

  /** Some parts have arrived, and some are missing. */
  predicate Underway(p: Flight, missing: set<nat>) {
    missing != {} && missing != PartsOf(p)
  }

  /**
   The state has collected exactly the parts that are not missing, the latest at time `last`, and at most
   `others` other packets have been used since; nothing is stored before the first part and after the last.
   */
  ghost predicate Carrying(c: Config, st: State, p: Flight, missing: set<nat>, last: int, others: nat)
    requires InFlight(p)
  {
    var h := HashOf(c, p.frame);
    if !Underway(p, missing) then h !in st.index
    else
      && h in st.index
      && st.index[h].time == last
      && h in st.store.entries
      && Holding(st.store.entries[h].pieces, p.frame, p.cuts, 0, missing)
      && Near(st.store.recent, h, others)
  }

  datatype Slot = Ours(part: nat, order: seq<int>, stamp: Stamp) | Other(arrival: Arrival)

  ghost function ArrivalOf(p: Flight, s: Slot): Arrival
    requires InFlight(p) && (s.Ours? ==> s.part + 1 < |p.cuts|)
  {
    match s
    case Ours(i, order, stamp) => Arrival(FragmentOf(p.frame, p.cuts, i), order, stamp)
    case Other(a) => a
  }

  function StampOf(s: Slot): Stamp {
    if s.Ours? then s.stamp else s.arrival.stamp
  }

  function MissingAfter(s: Slot, missing: set<nat>): set<nat> {
    if s.Ours? then missing - {s.part} else missing
  }

  /** Every missing part arrives exactly once, in any order, among other frames. */
  ghost predicate EachOnce(slots: seq<Slot>, missing: set<nat>)
    decreases |slots|
  {
    if slots == [] then missing == {}
    else (slots[0].Ours? ==> slots[0].part in missing) && EachOnce(slots[1..], MissingAfter(slots[0], missing))
  }

  /** No other frame of the run is collected under the hash of the packet. */
  ghost predicate HashUnshared(c: Config, p: Flight, slots: seq<Slot>)
    requires InFlight(p)
  {
    forall s | s in slots && s.Other? && Collected(s.arrival.frame) :: HashOf(c, s.arrival.frame) != HashOf(c, p.frame)
  }

  /** While the packet is underway, every sweep comes within the maximum age of the latest part, recorded at `last`. */
  ghost predicate Timely(c: Config, p: Flight, slots: seq<Slot>, missing: set<nat>, last: int)
    decreases |slots|
  {
    slots != [] ==>
      && (Underway(p, missing) ==> StampOf(slots[0]).swept <= last + c.maxAge)
      && Timely(c, p, slots[1..], MissingAfter(slots[0], missing), if slots[0].Ours? then slots[0].stamp.recorded else last)
  }

  /** How many other fragments have been collected since the latest part. */
  function OthersAfter(s: Slot, others: nat): nat {
    if s.Ours? then 0 else if Collected(s.arrival.frame) then others + 1 else others
  }

  /** While the packet is underway, fewer other fragments than the store has slots are collected between two of its parts. */
  ghost predicate NotCrowdedOut(c: Config, p: Flight, slots: seq<Slot>, missing: set<nat>, others: nat)
    decreases |slots|
  {
    slots != [] ==>
      var k := OthersAfter(slots[0], others);
      && (Underway(p, missing) ==> k < c.capacity)
      && NotCrowdedOut(c, p, slots[1..], MissingAfter(slots[0], missing), k)
  }

  /** The packets handed out when one of our fragments is processed. */
  ghost function HandedOut(c: Config, st: State, p: Flight, slots: seq<Slot>): seq<Frame>
    requires InFlight(p) && forall s | s in slots && s.Ours? :: s.part + 1 < |p.cuts|
    decreases |slots|
  {
    if slots == [] then []
    else
      var a := ArrivalOf(p, slots[0]);
      var (st', o) := ProcessPacket(c, st, a.frame, a.order, a.stamp);
      (if slots[0].Ours? && o.packet.Some? then [o.packet.value] else []) + HandedOut(c, st', p, slots[1..])
  }

  lemma {:induction false} EachOncePartsExist(slots: seq<Slot>, missing: set<nat>)
    requires EachOnce(slots, missing)
    ensures forall s | s in slots && s.Ours? :: s.part in missing
    decreases |slots|
  {
    if slots != [] {
      EachOncePartsExist(slots[1..], MissingAfter(slots[0], missing));
      assert slots == [slots[0]] + slots[1..];
    }
  }

  lemma LocatedHolds(c: Config, st: State, p: Flight, missing: set<nat>, last: int, others: nat, i: nat, stamp: Stamp)
    returns (e: Entry)
    requires Sync(c, st) && 0 < c.capacity && InFlight(p)
    requires Carrying(c, st, p, missing, last, others) && i in missing && missing <= PartsOf(p)
    ensures var g, h := FragmentOf(p.frame, p.cuts, i), HashOf(c, p.frame);
      && e == AddPiece(Located(c, st, g).store.entries[h], g, stamp)
      && Holding(e.pieces, p.frame, p.cuts, 0, missing - {i})
      && Near(Located(c, st, g).store.recent, h, 0)
  {
    var g, h := FragmentOf(p.frame, p.cuts, i), HashOf(c, p.frame);
    var located := Located(c, st, g);
    var entry := located.store.entries[h];
    assert Holding(entry.pieces, p.frame, p.cuts, 0, missing);
    AddingPart(entry, p.frame, p.cuts, missing, i, stamp);
    assert located.store.recent[0] == h;
    e := AddPiece(entry, g, stamp);
  }

  lemma StillMissing(missing: set<nat>, i: nat, n: nat)
    requires i in missing && missing <= AllParts(n)
    ensures MissingFrom(missing - {i}, 0, n) <==> missing != {i}
    ensures missing == {i} <==> missing - {i} == {}
    ensures missing - {i} != AllParts(n)
  {
    if missing != {i} {
      var j :| j in missing && j != i;
      assert j in missing - {i};
    }
    assert i in AllParts(n);
  }

  lemma AddingPart(e: Entry, f: Frame, cuts: seq<nat>, missing: set<nat>, i: nat, stamp: Stamp)
    requires Cut(f, cuts) && i in missing && i + 1 < |cuts|
    requires Holding(e.pieces, f, cuts, 0, missing)
    ensures Holding(AddPiece(e, FragmentOf(f, cuts, i), stamp).pieces, f, cuts, 0, missing - {i})
  {
  }

  /** One of our fragments after the sweep: handed out whole if it was the last one missing. */
  lemma OurStepAfterSweep(c: Config, st: State, p: Flight, missing: set<nat>, last: int, others: nat, i: nat, stamp: Stamp)
    requires Sync(c, st) && 0 < c.capacity && InFlight(p)
    requires Carrying(c, st, p, missing, last, others) && i in missing && missing <= PartsOf(p)
    ensures var (st', o) := FollowEngine(c, st, FragmentOf(p.frame, p.cuts, i), stamp);
      && Carrying(c, st', p, missing - {i}, stamp.recorded, 0)
      && o.packet == (if missing == {i} then Some(p.frame) else None)
  {
    var f, cuts := p.frame, p.cuts;
    var g := FragmentOf(f, cuts, i);
    LocatedIsAhead(c, st, g);
    var e := LocatedHolds(c, st, p, missing, last, others, i, stamp);
    FollowEngineCases(c, st, g, stamp);
    AssembleParts(e.pieces, f, cuts, 0, missing - {i});
    assert f.net.ip4.data[0..] == f.net.ip4.data;
    StillMissing(missing, i, |cuts| - 1);
  }

  lemma NotExpired(c: Config, st: State, p: Flight, missing: set<nat>, last: int, others: nat, now: int)
    requires InFlight(p) && Carrying(c, st, p, missing, last, others)
    requires Underway(p, missing) ==> now <= last + c.maxAge
    ensures !Expired(c, st, HashOf(c, p.frame), now)
  {
  }

  lemma OurStep(c: Config, st: State, p: Flight, missing: set<nat>, last: int, others: nat, s: Slot)
    requires Sync(c, st) && 0 < c.capacity && InFlight(p) && missing <= PartsOf(p)
    requires Carrying(c, st, p, missing, last, others) && s.Ours? && s.part in missing
    requires Underway(p, missing) ==> s.stamp.swept <= last + c.maxAge
    ensures var (st', o) := ProcessPacket(c, st, ArrivalOf(p, s).frame, s.order, s.stamp);
      && Carrying(c, st', p, missing - {s.part}, s.stamp.recorded, 0)
      && o.packet == (if missing == {s.part} then Some(p.frame) else None)
  {
    var h := HashOf(c, p.frame);
    NotExpired(c, st, p, missing, last, others, s.stamp.swept);
    SweepKeepsSync(c, st, s.order, s.stamp.swept);
    SweepSpares(c, st, s.order, s.stamp.swept, h, others);
    OurStepAfterSweep(c, Sweep(c, st, s.order, s.stamp.swept), p, missing, last, others, s.part, s.stamp);
  }

  lemma OtherStep(c: Config, st: State, p: Flight, missing: set<nat>, last: int, others: nat, s: Slot)
    requires Sync(c, st) && InFlight(p) && Carrying(c, st, p, missing, last, others) && s.Other?
    requires Collected(s.arrival.frame) ==> HashOf(c, s.arrival.frame) != HashOf(c, p.frame)
    requires Underway(p, missing) ==> s.arrival.stamp.swept <= last + c.maxAge && OthersAfter(s, others) < c.capacity
    ensures var a := s.arrival;
      Carrying(c, ProcessPacket(c, st, a.frame, a.order, a.stamp).0, p, missing, last, OthersAfter(s, others))
  {
    if Underway(p, missing) {
      NotExpired(c, st, p, missing, last, others, s.arrival.stamp.swept);
      OthersSpare(c, st, s.arrival, HashOf(c, p.frame), others);
    } else {
      OthersLeaveOut(c, st, s.arrival, HashOf(c, p.frame));
    }
  }

  lemma {:induction false} HandedOutOnce(
      c: Config, st: State, p: Flight, slots: seq<Slot>, missing: set<nat>, last: int, others: nat)
    requires Sync(c, st) && 0 < c.capacity && InFlight(p) && missing <= PartsOf(p)
    requires Carrying(c, st, p, missing, last, others) && EachOnce(slots, missing) && HashUnshared(c, p, slots)
    requires Timely(c, p, slots, missing, last) && NotCrowdedOut(c, p, slots, missing, others)
    ensures forall s | s in slots && s.Ours? :: s.part + 1 < |p.cuts|
    ensures HandedOut(c, st, p, slots) == if missing == {} then [] else [p.frame]
    decreases |slots|
  {
    EachOncePartsExist(slots, missing);
    if slots != [] {
      var s := slots[0];
      var a := ArrivalOf(p, s);
      var st' := ProcessPacket(c, st, a.frame, a.order, a.stamp).0;
      ProcessPacketKeepsSync(c, st, a.frame, a.order, a.stamp);
      if s.Ours? {
        OurStep(c, st, p, missing, last, others, s);
        HandedOutOnce(c, st', p, slots[1..], missing - {s.part}, s.stamp.recorded, 0);
      } else {
        OtherStep(c, st, p, missing, last, others, s);
        HandedOutOnce(c, st', p, slots[1..], missing, last, OthersAfter(s, others));
      }
    }
  }

  /** What it takes: every part once, no gap beyond the maximum age, and no eviction in between. */
  ghost predicate Undisturbed(c: Config, p: Flight, slots: seq<Slot>)
    requires InFlight(p)
  {
    && EachOnce(slots, PartsOf(p))
    && HashUnshared(c, p, slots)
    && Timely(c, p, slots, PartsOf(p), 0)
    && NotCrowdedOut(c, p, slots, PartsOf(p), 0)
  }

  /** Fragments in any order, interleaved with other frames: the original frame is handed out exactly once. */
  lemma FragmentsComeOutWhole(c: Config, st: State, p: Flight, slots: seq<Slot>)
    requires Sync(c, st) && 0 < c.capacity && InFlight(p) && HashOf(c, p.frame) !in st.index
    requires Undisturbed(c, p, slots)
    ensures forall s | s in slots && s.Ours? :: s.part + 1 < |p.cuts|
    ensures HandedOut(c, st, p, slots) == [p.frame]
  {
    assert 0 in PartsOf(p);
    HandedOutOnce(c, st, p, slots, PartsOf(p), 0, 0);
  }
}
