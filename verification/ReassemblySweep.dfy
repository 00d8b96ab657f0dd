/** What the expiry sweep removes, how often it misses, and how old a joined fragment can be. */
module ReassemblySweep {
  import opened Common
  import opened Packets
  import opened Reassembly

  ghost predicate Enumerates(order: seq<int>, keys: set<int>) {
    Distinct(order) && Members(order) == keys
  }

  ghost function ExpiredSet(c: Config, st: State, now: int): set<int> {
    set h | h in st.index && Expired(c, st, h, now)
  }

  function RemoveAll(st: State, gone: set<int>): State {
    State(st.index - gone, Store(st.store.entries - gone, Without(st.store.recent, gone)))
  }

  /** The loop with a single advance: what the sweep was meant to be. */
  function IntendedSweep(c: Config, st: State, order: seq<int>, now: int): State
    decreases |order|
  {
    if order == [] then st
    else IntendedSweep(c, if Expired(c, st, order[0], now) then Drop(c, st, order[0]) else st, order[1..], now)
  }

  // The loop, reduced to which positions of the iteration order it erases

  ghost function Erased(order: seq<int>, expired: set<int>): set<int>
    decreases |order|
  {
    if order == [] then {}
    else if order[0] in expired then {order[0]} + Erased(if |order| == 1 then [] else order[2..], expired)
    else Erased(order[1..], expired)
  }

  lemma {:induction false} ErasedAmong(order: seq<int>, expired: set<int>)
    ensures Erased(order, expired) <= expired
    ensures Erased(order, expired) <= Members(order)
    decreases |order|
  {
    if order != [] {
      if order[0] in expired {
        ErasedAmong(if |order| == 1 then [] else order[2..], expired);
      } else {
        ErasedAmong(order[1..], expired);
      }
    }
  }

  lemma {:induction false} ErasedIgnores(order: seq<int>, expired: set<int>, other: int)
    requires other !in order
    ensures Erased(order, expired - {other}) == Erased(order, expired)
    decreases |order|
  {
    if order != [] {
      if order[0] in expired {
        ErasedIgnores(if |order| == 1 then [] else order[2..], expired, other);
      } else {
        ErasedIgnores(order[1..], expired, other);
      }
    }
  }

  lemma {:induction false} WithoutTwice(hs: seq<int>, a: set<int>, b: set<int>)
    ensures Without(Without(hs, a), b) == Without(hs, a + b)
  {
    if hs != [] {
      WithoutTwice(hs[1..], a, b);
      var r := Without(hs[1..], a);
      if hs[0] !in a {
        assert ([hs[0]] + r)[1..] == r;
      }
    }
  }

  lemma {:induction false} WithoutNothing(hs: seq<int>)
    ensures Without(hs, {}) == hs
  {
    if hs != [] {
      WithoutNothing(hs[1..]);
    }
  }

  lemma RemoveAllTwice(st: State, a: set<int>, b: set<int>)
    ensures RemoveAll(RemoveAll(st, a), b) == RemoveAll(st, a + b)
  {
    WithoutTwice(st.store.recent, a, b);
    assert st.index - a - b == st.index - (a + b);
    assert st.store.entries - a - b == st.store.entries - (a + b);
  }

  lemma RemoveNothing(st: State)
    ensures RemoveAll(st, {}) == st
  {
    WithoutNothing(st.store.recent);
    assert st.index - {} == st.index;
    assert st.store.entries - {} == st.store.entries;
  }

  /** The sweep as written removes, from index and store alike, exactly the erased positions. */
  lemma {:induction false} SweepErases(c: Config, st: State, order: seq<int>, now: int)
    requires Sync(c, st) && Distinct(order)
    ensures Sweep(c, st, order, now) == RemoveAll(st, Erased(order, ExpiredSet(c, st, now)))
    decreases |order|
  {
    var expired := ExpiredSet(c, st, now);
    if order == [] {
      RemoveNothing(st);
    } else if Expired(c, st, order[0], now) {
      var h, rest := order[0], if |order| == 1 then [] else order[2..];
      DropRemoves(c, st, h, now);
      SweepErases(c, Drop(c, st, h), rest, now);
      ErasedIgnores(rest, expired, h);
      RemoveAllTwice(st, {h}, Erased(rest, expired));
    } else {
      SweepErases(c, st, order[1..], now);
    }
  }

  lemma DropRemoves(c: Config, st: State, h: int, now: int)
    requires Sync(c, st) && Expired(c, st, h, now)
    ensures Drop(c, st, h) == RemoveAll(st, {h}) && Sync(c, Drop(c, st, h))
    ensures ExpiredSet(c, Drop(c, st, h), now) == ExpiredSet(c, st, now) - {h}
  {
    DropKeepsSync(c, st, h);
  }

  lemma ExpiredAmong(order: seq<int>, expired: set<int>)
    requires order != []
    ensures expired * Members(order) ==
            if order[0] in expired then {order[0]} + (expired - {order[0]}) * Members(order[1..])
            else expired * Members(order[1..])
  {
    assert Members(order) == {order[0]} + Members(order[1..]);
  }

  lemma {:induction false} IntendedSweepAmong(c: Config, st: State, order: seq<int>, now: int)
    requires Sync(c, st)
    ensures IntendedSweep(c, st, order, now) == RemoveAll(st, ExpiredSet(c, st, now) * Members(order))
    decreases |order|
  {
    var expired := ExpiredSet(c, st, now);
    if order == [] {
      RemoveNothing(st);
      assert expired * Members(order) == {};
    } else {
      ExpiredAmong(order, expired);
      if Expired(c, st, order[0], now) {
        DropRemoves(c, st, order[0], now);
        IntendedSweepAmong(c, Drop(c, st, order[0]), order[1..], now);
        RemoveAllTwice(st, {order[0]}, (expired - {order[0]}) * Members(order[1..]));
      } else {
        IntendedSweepAmong(c, st, order[1..], now);
      }
    }
  }

  /** The intended loop removes every expired entry from both structures, and no other. */
  lemma IntendedSweepRemovesExpired(c: Config, st: State, order: seq<int>, now: int)
    requires Sync(c, st) && Enumerates(order, st.index.Keys)
    ensures IntendedSweep(c, st, order, now) == RemoveAll(st, ExpiredSet(c, st, now))
  {
    IntendedSweepAmong(c, st, order, now);
    assert ExpiredSet(c, st, now) * Members(order) == ExpiredSet(c, st, now);
  }

  // When the loop misses nothing

  /** A condition on the container before the call: no two neighbours in iteration order have both expired. */
  ghost predicate NoExpiredNeighbours(order: seq<int>, expired: set<int>) {
    forall i | 0 <= i < |order| - 1 :: order[i] in expired ==> order[i+1] !in expired
  }

  lemma {:induction false} ErasesAllIff(order: seq<int>, expired: set<int>)
    requires Distinct(order)
    ensures Erased(order, expired) == expired * Members(order) <==> NoExpiredNeighbours(order, expired)
    decreases |order|
  {
    if order == [] {
    } else if order[0] !in expired {
      ErasesAllIff(order[1..], expired);
      assert expired * Members(order) == expired * Members(order[1..]);
      NeighboursOfTail(order, expired);
    } else if |order| == 1 {
      assert Erased([], expired) == {};
      assert expired * Members(order) == {order[0]};
    } else {
      var rest := order[2..];
      ErasesAllIff(rest, expired);
      ErasedAmong(rest, expired);
      assert order[0] !in rest && order[1] !in rest;
      assert Members(order) == {order[0], order[1]} + Members(rest);
      if order[1] in expired {
        assert order[1] !in Erased(order, expired);
        assert !NoExpiredNeighbours(order, expired);
      } else {
        NeighboursOfTail(order, expired);
        NeighboursOfTail(order[1..], expired);
        assert order[1..][1..] == rest;
        SameWithHead(Erased(rest, expired), expired * Members(rest), order[0]);
        assert expired * Members(order) == {order[0]} + expired * Members(rest);
      }
    }
  }

  lemma SameWithHead(a: set<int>, b: set<int>, h: int)
    requires h !in a && h !in b
    ensures {h} + a == {h} + b <==> a == b
  {
  }

  lemma NeighboursOfTail(order: seq<int>, expired: set<int>)
    requires order != []
    ensures NoExpiredNeighbours(order, expired) <==>
              (|order| >= 2 && order[0] in expired ==> order[1] !in expired) && NoExpiredNeighbours(order[1..], expired)
  {
  }

  /** The sweep as written is the intended sweep exactly when no two neighbours have both expired. */
  lemma SweepCompleteIff(c: Config, st: State, order: seq<int>, now: int)
    requires Sync(c, st) && Enumerates(order, st.index.Keys)
    ensures Sweep(c, st, order, now) == IntendedSweep(c, st, order, now)
        <==> NoExpiredNeighbours(order, ExpiredSet(c, st, now))
  {
    var expired := ExpiredSet(c, st, now);
    var erased := Erased(order, expired);
    SweepErases(c, st, order, now);
    IntendedSweepRemovesExpired(c, st, order, now);
    ErasesAllIff(order, expired);
    ErasedAmong(order, expired);
    assert expired * Members(order) == expired;
    if RemoveAll(st, erased) == RemoveAll(st, expired) {
      forall h | h in expired
        ensures h in erased
      {
        assert h !in st.index - expired;
      }
    }
  }

  // How much one sweep, and several sweeps, achieve

  lemma {:induction false} ErasesHalf(order: seq<int>, expired: set<int>)
    requires Distinct(order)
    ensures |expired * Members(order)| <= 2 * |Erased(order, expired)|
    decreases |order|
  {
    if order == [] {
      assert expired * Members(order) == {};
    } else if order[0] !in expired {
      ErasesHalf(order[1..], expired);
      assert expired * Members(order) == expired * Members(order[1..]);
    } else {
      var rest := if |order| == 1 then [] else order[2..];
      ErasesHalf(rest, expired);
      ErasedAmong(rest, expired);
      assert order[0] !in rest;
      TwoMoreAtMost(order, rest, expired);
      assert |{order[0]} + Erased(rest, expired)| == 1 + |Erased(rest, expired)|;
    }
  }

  lemma TwoMoreAtMost(order: seq<int>, rest: seq<int>, expired: set<int>)
    requires order != [] && rest == if |order| == 1 then [] else order[2..]
    ensures |expired * Members(order)| <= 2 + |expired * Members(rest)|
  {
    var second := order[if |order| == 1 then 0 else 1];
    var seen := {order[0], second};
    var later := expired * Members(rest);
    assert expired * Members(order) <= seen + later by {
      forall h | h in order
        ensures h in seen || h in rest
      {
        var i :| 0 <= i < |order| && order[i] == h;
        assert i >= 2 ==> rest[i-2] == h;
      }
    }
    SubsetSize(expired * Members(order), seen + later);
    assert |seen + later| == |seen| + |later - seen|;
    SubsetSize(later - seen, later);
    SubsetSize({second} - {order[0]}, {second});
    assert seen == {order[0]} + ({second} - {order[0]});
  }

  lemma SubsetSize(a: set<int>, b: set<int>)
    requires a <= b
    ensures |a| <= |b|
  {
    assert b == a + (b - a);
  }

  lemma RemoveAllKeepsSync(c: Config, st: State, gone: set<int>)
    requires Sync(c, st)
    ensures Sync(c, RemoveAll(st, gone))
  {
    WithoutKeepsDistinct(st.store.recent, gone);
    assert Members(Without(st.store.recent, gone)) == Members(st.store.recent) - gone;
  }

  lemma ExpiredAfterRemoval(c: Config, st: State, gone: set<int>, now: int)
    ensures ExpiredSet(c, RemoveAll(st, gone), now) == ExpiredSet(c, st, now) - gone
  {
  }

  /** One sweep as written: only expired entries leave, and at least half of them do. */
  lemma SweepHalves(c: Config, st: State, order: seq<int>, now: int)
    requires Sync(c, st) && Enumerates(order, st.index.Keys)
    ensures Sweep(c, st, order, now) == RemoveAll(st, Erased(order, ExpiredSet(c, st, now)))
    ensures Erased(order, ExpiredSet(c, st, now)) <= ExpiredSet(c, st, now)
    ensures 2 * |ExpiredSet(c, Sweep(c, st, order, now), now)| <= |ExpiredSet(c, st, now)|
  {
    var expired := ExpiredSet(c, st, now);
    var erased := Erased(order, expired);
    SweepErases(c, st, order, now);
    ErasedAmong(order, expired);
    ErasesHalf(order, expired);
    assert expired * Members(order) == expired;
    ExpiredAfterRemoval(c, st, erased, now);
    assert |expired - erased| == |expired| - |erased|;
  }

  function Sweeps(c: Config, st: State, orders: seq<seq<int>>, now: int): State
    decreases |orders|
  {
    if orders == [] then st else Sweeps(c, Sweep(c, st, orders[0], now), orders[1..], now)
  }

  /** Every pass walks the container as the previous pass left it, in whatever order it then has. */
  ghost predicate WalksContainer(c: Config, st: State, orders: seq<seq<int>>, now: int)
    decreases |orders|
  {
    orders != [] ==>
      Enumerates(orders[0], st.index.Keys) && WalksContainer(c, Sweep(c, st, orders[0], now), orders[1..], now)
  }

  /** Several sweeps remove some set of entries that had expired, and keep index and store in agreement. */
  lemma {:induction false} SweepsRemoveExpired(c: Config, st: State, orders: seq<seq<int>>, now: int)
    returns (gone: set<int>)
    requires Sync(c, st) && WalksContainer(c, st, orders, now)
    ensures gone <= ExpiredSet(c, st, now) && Sweeps(c, st, orders, now) == RemoveAll(st, gone)
    ensures Sync(c, Sweeps(c, st, orders, now))
    decreases |orders|
  {
    if orders == [] {
      RemoveNothing(st);
      gone := {};
    } else {
      SweepKeepsSync(c, st, orders[0], now);
      SweepHalves(c, st, orders[0], now);
      var more := SweepsRemoveExpired(c, Sweep(c, st, orders[0], now), orders[1..], now);
      var first := Erased(orders[0], ExpiredSet(c, st, now));
      RemoveAllTwice(st, first, more);
      gone := first + more;
    }
  }

  lemma {:induction false} SweepsConverge(c: Config, st: State, orders: seq<seq<int>>, now: int)
    requires Sync(c, st) && WalksContainer(c, st, orders, now)
    ensures |ExpiredSet(c, Sweeps(c, st, orders, now), now)| * Pow2(|orders|) <= |ExpiredSet(c, st, now)|
    decreases |orders|
  {
    if orders != [] {
      var next := Sweep(c, st, orders[0], now);
      SweepKeepsSync(c, st, orders[0], now);
      SweepHalves(c, st, orders[0], now);
      SweepsConverge(c, next, orders[1..], now);
      DoubleBound(|ExpiredSet(c, Sweeps(c, st, orders, now), now)|, Pow2(|orders| - 1),
                  |ExpiredSet(c, next, now)|, |ExpiredSet(c, st, now)|);
    }
  }

  lemma DoubleBound(x: nat, p: nat, n: nat, m: nat)
    requires x * p <= n && 2 * n <= m
    ensures x * (2 * p) <= m
  {
  }

  /** Logarithmically many sweeps at one time do what the intended sweep does in one. */
  lemma SweepsClearAll(c: Config, st: State, orders: seq<seq<int>>, order: seq<int>, now: int)
    requires Sync(c, st) && WalksContainer(c, st, orders, now) && Enumerates(order, st.index.Keys)
    requires |ExpiredSet(c, st, now)| < Pow2(|orders|)
    ensures Sweeps(c, st, orders, now) == IntendedSweep(c, st, order, now)
  {
    IntendedSweepRemovesExpired(c, st, order, now);
    SweepsConverge(c, st, orders, now);
    var gone := SweepsRemoveExpired(c, st, orders, now);
    ZeroIfSmall(|ExpiredSet(c, Sweeps(c, st, orders, now), now)|, Pow2(|orders|));
    NoneLeft(c, st, gone, now);
  }

  lemma ZeroIfSmall(x: nat, p: nat)
    requires x * p < p
    ensures x == 0
  {
  }

  lemma NoneLeft(c: Config, st: State, gone: set<int>, now: int)
    requires gone <= ExpiredSet(c, st, now) && ExpiredSet(c, RemoveAll(st, gone), now) == {}
    ensures gone == ExpiredSet(c, st, now)
  {
    forall h | h in ExpiredSet(c, st, now)
      ensures h in gone
    {
      assert h !in ExpiredSet(c, RemoveAll(st, gone), now);
    }
  }

  // Ages of joined fragments

  /** No two consecutively buffered fragments are further apart than the maximum age. */
  ghost predicate Prompt(c: Config, stamps: seq<Stamp>) {
    forall i | 0 <= i < |stamps| - 1 :: stamps[i+1].swept - stamps[i].recorded <= c.maxAge
  }

  lemma PromptExtensionIff(c: Config, stamps: seq<Stamp>, s: Stamp)
    ensures Prompt(c, stamps + [s]) <==>
              Prompt(c, stamps) && (stamps != [] ==> s.swept - stamps[|stamps| - 1].recorded <= c.maxAge)
  {
    var longer, n := stamps + [s], |stamps|;
    assert forall i | 0 <= i < n :: longer[i] == stamps[i];
    if Prompt(c, longer) {
      forall i | 0 <= i < n - 1
        ensures stamps[i+1].swept - stamps[i].recorded <= c.maxAge
      {
        assert longer[i+1].swept - longer[i].recorded <= c.maxAge;
      }
      assert n > 0 ==> longer[n-1+1].swept - longer[n-1].recorded <= c.maxAge;
    }
  }

  /** The index time of an entry is the time at which its last fragment was recorded. */
  ghost predicate Dated(st: State) {
    forall h | h in st.index :: h in st.store.entries && DatedEntry(st.store.entries[h], st.index[h].time)
  }

  ghost predicate DatedEntry(e: Entry, time: int) {
    e.stamps != [] && e.stamps[|e.stamps| - 1].recorded == time
  }

  /** Every hash but `h` that is still indexed has the entry and the index time it had before. */
  ghost predicate UntouchedBut(st: State, st': State, h: int) {
    forall g | g in st'.index && g != h ::
      && g in st.index && st'.index[g] == st.index[g]
      && g in st.store.entries && g in st'.store.entries && st'.store.entries[g] == st.store.entries[g]
  }

  /** The fragments already collected when one more arrives after the sweep. */
  ghost function Earlier(left: State, h: int): seq<Stamp> {
    if h in left.index && h in left.store.entries then left.store.entries[h].stamps else []
  }

  lemma LocatedUntouched(c: Config, left: State, f: Frame)
    requires Sync(c, left) && IsFragment(f) && 0 < c.capacity
    ensures var h, located := HashOf(c, f), Located(c, left, f);
      UntouchedBut(left, located, h) && located.store.entries[h].stamps == Earlier(left, h)
  {
    LocatedIsAhead(c, left, f);
  }

  /** What one packet after the sweep means for the stamps: its own entry grows by one, or is handed out grown by one. */
  lemma FollowedStamps(c: Config, left: State, f: Frame, s: Stamp)
    requires Sync(c, left) && 0 < c.capacity
    ensures var (st', o) := FollowEngine(c, left, f, s);
      if !Collected(f) then st' == left && o.status != Reassembled
      else
        var h := HashOf(c, f);
        && UntouchedBut(left, st', h)
        && (if o.status == Reassembled then h !in st'.index && o.stamps == Earlier(left, h) + [s]
            else h in st'.index && st'.index[h].time == s.recorded
                 && h in st'.store.entries && st'.store.entries[h].stamps == Earlier(left, h) + [s])
  {
    FollowEngineCases(c, left, f, s);
    if Collected(f) {
      LocatedUntouched(c, left, f);
    }
  }

  lemma FollowedKeepsDated(c: Config, left: State, f: Frame, s: Stamp)
    requires Sync(c, left) && Dated(left) && 0 < c.capacity
    ensures Sync(c, FollowEngine(c, left, f, s).0) && Dated(FollowEngine(c, left, f, s).0)
  {
    FollowedStamps(c, left, f, s);
    ProcessPacketKeepsSync(c, left, f, [], s);
  }

  lemma RemoveAllKeepsDated(st: State, gone: set<int>)
    requires Dated(st)
    ensures Dated(RemoveAll(st, gone))
  {
  }

  // With the intended sweep

  ghost predicate PromptState(c: Config, st: State) {
    Dated(st) && forall h | h in st.index :: Prompt(c, st.store.entries[h].stamps)
  }

  lemma IntendedIsPrompt(c: Config, st: State, order: seq<int>, now: int)
    requires Sync(c, st) && PromptState(c, st) && Enumerates(order, st.index.Keys)
    ensures var left := IntendedSweep(c, st, order, now);
      && Sync(c, left) && PromptState(c, left)
      && forall h | h in left.index :: now - left.index[h].time <= c.maxAge
  {
    IntendedSweepRemovesExpired(c, st, order, now);
    RemoveAllKeepsSync(c, st, ExpiredSet(c, st, now));
    RemoveAllKeepsDated(st, ExpiredSet(c, st, now));
  }

  lemma EarlierIsPrompt(c: Config, left: State, h: int, s: Stamp)
    requires PromptState(c, left) && (h in left.index ==> s.swept - left.index[h].time <= c.maxAge)
    ensures Prompt(c, Earlier(left, h) + [s])
  {
    PromptExtensionIff(c, Earlier(left, h), s);
  }

  lemma FollowedIsPrompt(c: Config, left: State, f: Frame, s: Stamp)
    requires Sync(c, left) && PromptState(c, left) && 0 < c.capacity
    requires forall h | h in left.index :: s.swept - left.index[h].time <= c.maxAge
    ensures var (st', o) := FollowEngine(c, left, f, s);
      PromptState(c, st') && (o.status == Reassembled ==> Prompt(c, o.stamps))
  {
    FollowedStamps(c, left, f, s);
    FollowedKeepsDated(c, left, f, s);
    if Collected(f) {
      EarlierIsPrompt(c, left, HashOf(c, f), s);
    }
  }

  /** What a run hands out when every sweep is the intended one. */
  function IntendedOutcomes(c: Config, st: State, arrivals: seq<Arrival>): seq<Outcome>
    decreases |arrivals|
  {
    if arrivals == [] then []
    else
      var a := arrivals[0];
      var (st', o) := FollowEngine(c, IntendedSweep(c, st, a.order, a.stamp.swept), a.frame, a.stamp);
      [o] + IntendedOutcomes(c, st', arrivals[1..])
  }

  /** Every intended sweep of the run walks the container as it then is. */
  ghost predicate IntendedWalks(c: Config, st: State, arrivals: seq<Arrival>)
    decreases |arrivals|
  {
    arrivals != [] ==>
      var a := arrivals[0];
      && Enumerates(a.order, st.index.Keys)
      && IntendedWalks(c, FollowEngine(c, IntendedSweep(c, st, a.order, a.stamp.swept), a.frame, a.stamp).0, arrivals[1..])
  }

  /** With the intended sweep no packet handed out joins fragments further apart than the maximum age, over every run. */
  lemma {:induction false} IntendedRunIsPrompt(c: Config, st: State, arrivals: seq<Arrival>)
    requires Sync(c, st) && PromptState(c, st) && 0 < c.capacity && IntendedWalks(c, st, arrivals)
    ensures forall o | o in IntendedOutcomes(c, st, arrivals) && o.status == Reassembled :: Prompt(c, o.stamps)
    decreases |arrivals|
  {
    if arrivals != [] {
      var a := arrivals[0];
      var left := IntendedSweep(c, st, a.order, a.stamp.swept);
      IntendedIsPrompt(c, st, a.order, a.stamp.swept);
      FollowedIsPrompt(c, left, a.frame, a.stamp);
      FollowedKeepsDated(c, left, a.frame, a.stamp);
      IntendedRunIsPrompt(c, FollowEngine(c, left, a.frame, a.stamp).0, arrivals[1..]);
    }
  }

  function Outcomes(c: Config, st: State, arrivals: seq<Arrival>): seq<Outcome>
    decreases |arrivals|
  {
    if arrivals == [] then []
    else
      var (st', o) := ProcessPacket(c, st, arrivals[0].frame, arrivals[0].order, arrivals[0].stamp);
      [o] + Outcomes(c, st', arrivals[1..])
  }

  ghost predicate CompleteSweeps(c: Config, st: State, arrivals: seq<Arrival>)
    decreases |arrivals|
  {
    arrivals != [] ==>
      var a := arrivals[0];
      && Enumerates(a.order, st.index.Keys)
      && NoExpiredNeighbours(a.order, ExpiredSet(c, st, a.stamp.swept))
      && CompleteSweeps(c, ProcessPacket(c, st, a.frame, a.order, a.stamp).0, arrivals[1..])
  }

  /** The sweep as written gives such a run as long as it never meets two expired neighbours. */
  lemma {:induction false} CompleteSweepsAreIntended(c: Config, st: State, arrivals: seq<Arrival>)
    requires Sync(c, st) && 0 < c.capacity && CompleteSweeps(c, st, arrivals)
    ensures IntendedWalks(c, st, arrivals) && Outcomes(c, st, arrivals) == IntendedOutcomes(c, st, arrivals)
    decreases |arrivals|
  {
    if arrivals != [] {
      var a := arrivals[0];
      SweepCompleteIff(c, st, a.order, a.stamp.swept);
      ProcessPacketKeepsSync(c, st, a.frame, a.order, a.stamp);
      CompleteSweepsAreIntended(c, ProcessPacket(c, st, a.frame, a.order, a.stamp).0, arrivals[1..]);
    }
  }

  // With the sweep as written

  /** The entry under `h` has expired and the sweep of this arrival, starting in `st`, skips it. */
  ghost predicate Skipped(c: Config, st: State, a: Arrival, h: int) {
    var expired := ExpiredSet(c, st, a.stamp.swept);
    h in expired && h !in Erased(a.order, expired)
  }

  /** After the sweep of this arrival there is an entry under `h`. */
  ghost predicate Survives(c: Config, st: State, a: Arrival, h: int) {
    h in st.index && h !in Erased(a.order, ExpiredSet(c, st, a.stamp.swept))
  }

  lemma SweptFacts(c: Config, st: State, a: Arrival, h: int)
    requires Sync(c, st) && Dated(st) && Distinct(a.order)
    ensures var left := Sweep(c, st, a.order, a.stamp.swept);
      && Sync(c, left) && Dated(left) && UntouchedBut(st, left, h)
      && (h in left.index <==> Survives(c, st, a, h))
      && (h in left.index ==> left.index[h] == st.index[h] && left.store.entries[h] == st.store.entries[h])
  {
    var erased := Erased(a.order, ExpiredSet(c, st, a.stamp.swept));
    SweepErases(c, st, a.order, a.stamp.swept);
    RemoveAllKeepsSync(c, st, erased);
    RemoveAllKeepsDated(st, erased);
  }

  /** Adding the fragment of this arrival to what is collected under its hash: is the result prompt? */
  lemma JoinedPromptIff(c: Config, st: State, a: Arrival, h: int)
    requires Sync(c, st) && Dated(st) && Distinct(a.order)
    ensures Prompt(c, Earlier(Sweep(c, st, a.order, a.stamp.swept), h) + [a.stamp]) <==>
              (Survives(c, st, a, h) ==> Prompt(c, st.store.entries[h].stamps) && !Skipped(c, st, a, h))
  {
    SweptFacts(c, st, a, h);
    PromptExtensionIff(c, Earlier(Sweep(c, st, a.order, a.stamp.swept), h), a.stamp);
  }

  /**
   One packet, judged by the state before the call: the packet handed out respects the maximum age iff
   its entry is not one that survives the sweep and is either not prompt already or has expired.
   */
  lemma HandedOutPromptIff(c: Config, st: State, a: Arrival)
    requires Sync(c, st) && Dated(st) && 0 < c.capacity && Distinct(a.order)
    requires ProcessPacket(c, st, a.frame, a.order, a.stamp).1.status == Reassembled
    ensures Collected(a.frame)
    ensures var h := HashOf(c, a.frame);
      Prompt(c, ProcessPacket(c, st, a.frame, a.order, a.stamp).1.stamps) <==>
        (Survives(c, st, a, h) ==> Prompt(c, st.store.entries[h].stamps) && !Skipped(c, st, a, h))
  {
    SweepKeepsSync(c, st, a.order, a.stamp.swept);
    FollowedStamps(c, Sweep(c, st, a.order, a.stamp.swept), a.frame, a.stamp);
    JoinedPromptIff(c, st, a, HashOf(c, a.frame));
  }

  /** Over a run: going back to the fragment that began the entry under `h`, some fragment has met it expired and skipped. */
  ghost predicate MetSkipped(c: Config, arrivals: seq<Arrival>, h: int)
    decreases |arrivals|
  {
    if arrivals == [] then false
    else
      var before, a := arrivals[..|arrivals| - 1], arrivals[|arrivals| - 1];
      var st := Run(c, EMPTY, before);
      if !Collected(a.frame) || HashOf(c, a.frame) != h then MetSkipped(c, before, h)
      else Survives(c, st, a, h) && (Skipped(c, st, a, h) || MetSkipped(c, before, h))
  }

  lemma {:induction false} RunMore(c: Config, st: State, arrivals: seq<Arrival>, a: Arrival)
    ensures Run(c, st, arrivals + [a]) == ProcessPacket(c, Run(c, st, arrivals), a.frame, a.order, a.stamp).0
    decreases |arrivals|
  {
    if arrivals == [] {
      assert Run(c, Run(c, st, [a]), []) == Run(c, st, [a]);
      assert [a][1..] == [];
    } else {
      RunMore(c, ProcessPacket(c, st, arrivals[0].frame, arrivals[0].order, arrivals[0].stamp).0, arrivals[1..], a);
      assert (arrivals + [a])[1..] == arrivals[1..] + [a];
    }
  }

  ghost predicate DistinctOrders(arrivals: seq<Arrival>) {
    forall i | 0 <= i < |arrivals| :: Distinct(arrivals[i].order)
  }

  /** The entries of `st` that are prompt are those whose fragments in the run have not met a skipped entry. */
  ghost predicate PromptUnlessMet(c: Config, st: State, arrivals: seq<Arrival>) {
    && Sync(c, st) && Dated(st)
    && forall h | h in st.index :: Prompt(c, st.store.entries[h].stamps) <==> !MetSkipped(c, arrivals, h)
  }

  lemma StillPromptIff(c: Config, st: State, before: seq<Arrival>, a: Arrival, h: int)
    requires 0 < c.capacity && Distinct(a.order) && st == Run(c, EMPTY, before) && PromptUnlessMet(c, st, before)
    requires h in ProcessPacket(c, st, a.frame, a.order, a.stamp).0.index
    ensures var st' := ProcessPacket(c, st, a.frame, a.order, a.stamp).0;
      h in st'.store.entries && (Prompt(c, st'.store.entries[h].stamps) <==> !MetSkipped(c, before + [a], h))
  {
    var left := Sweep(c, st, a.order, a.stamp.swept);
    SweptFacts(c, st, a, h);
    FollowedStamps(c, left, a.frame, a.stamp);
    assert (before + [a])[..|before|] == before;
    if Collected(a.frame) && HashOf(c, a.frame) == h {
      JoinedPromptIff(c, st, a, h);
    } else {
      assert MetSkipped(c, before + [a], h) == MetSkipped(c, before, h);
    }
  }

  lemma OneMoreArrival(c: Config, st: State, before: seq<Arrival>, a: Arrival)
    requires 0 < c.capacity && Distinct(a.order) && st == Run(c, EMPTY, before) && PromptUnlessMet(c, st, before)
    ensures PromptUnlessMet(c, ProcessPacket(c, st, a.frame, a.order, a.stamp).0, before + [a])
  {
    var st' := ProcessPacket(c, st, a.frame, a.order, a.stamp).0;
    SweptFacts(c, st, a, 0);
    FollowedKeepsDated(c, Sweep(c, st, a.order, a.stamp.swept), a.frame, a.stamp);
    forall h | h in st'.index
      ensures Prompt(c, st'.store.entries[h].stamps) <==> !MetSkipped(c, before + [a], h)
    {
      StillPromptIff(c, st, before, a, h);
    }
  }

  lemma {:induction false} RunPromptUnlessMet(c: Config, arrivals: seq<Arrival>)
    requires 0 < c.capacity && DistinctOrders(arrivals)
    ensures PromptUnlessMet(c, Run(c, EMPTY, arrivals), arrivals)
    decreases |arrivals|
  {
    if arrivals == [] {
      EmptyInSync(c);
    } else {
      var before, a := arrivals[..|arrivals| - 1], arrivals[|arrivals| - 1];
      assert arrivals == before + [a];
      RunPromptUnlessMet(c, before);
      RunMore(c, EMPTY, before, a);
      OneMoreArrival(c, Run(c, EMPTY, before), before, a);
    }
  }

  /**
   With the sweep as written, over every run from the start: a packet handed out joins only fragments
   within the maximum age of each other iff none of its fragments has met its entry expired and skipped.
   */
  lemma HandedOutPromptOverRuns(c: Config, before: seq<Arrival>, a: Arrival)
    requires 0 < c.capacity && DistinctOrders(before) && Distinct(a.order)
    requires ProcessPacket(c, Run(c, EMPTY, before), a.frame, a.order, a.stamp).1.status == Reassembled
    ensures Collected(a.frame)
    ensures Prompt(c, ProcessPacket(c, Run(c, EMPTY, before), a.frame, a.order, a.stamp).1.stamps)
        <==> !MetSkipped(c, before + [a], HashOf(c, a.frame))
  {
    RunPromptUnlessMet(c, before);
    HandedOutPromptIff(c, Run(c, EMPTY, before), a);
    assert (before + [a])[..|before|] == before;
  }

  // The written sweep can miss: a concrete state

  function IdOf(k: PacketKey): int {
    if k.V4Key? then k.id else -1
  }

  function FragmentFrame(id: Uint16, offset: Fragment13, more: bool): Frame {
    Frame(None, IPv4(Ip4(id, 1, 2, UDP, false, false, more, offset, EIGHT)))
  }

  const EIGHT: seq<Octet> := [1, 2, 3, 4, 5, 6, 7, 8]

  const SMALL := Config(5, 10, IdOf)
  const FIRST := Arrival(FragmentFrame(1, 0, true), [], Stamp(0, 0))
  const SECOND := Arrival(FragmentFrame(2, 0, true), [1], Stamp(0, 0))
  const LATE := Arrival(FragmentFrame(2, 1, false), [1, 2], Stamp(100, 100))

  function FirstHalf(id: Uint16): Entry {
    Entry(V4Key(id, 1, 2), map[0 := Piece(EIGHT, false)], [Stamp(0, 0)])
  }

  const FIRST_SEEN := Timestamped(V4Key(1, 1, 2), 0)
  const ONE_HALF := State(map[1 := FIRST_SEEN], Store(map[1 := FirstHalf(1)], [1]))
  const TWO_HALVES := State(map[1 := FIRST_SEEN, 2 := Timestamped(V4Key(2, 1, 2), 0)],
                            Store(map[1 := FirstHalf(1), 2 := FirstHalf(2)], [2, 1]))

  lemma HalfIsKept(id: Uint16)
    ensures Assemble(FirstHalf(id).pieces, 0).None?
  {
    assert Assemble(FirstHalf(id).pieces - {0}, 8).None?;
  }

  lemma FirstIsStored()
    ensures ProcessPacket(SMALL, EMPTY, FIRST.frame, [], Stamp(0, 0)).0 == ONE_HALF
  {
    HalfIsKept(1);
    FollowEngineCases(SMALL, EMPTY, FIRST.frame, Stamp(0, 0));
    assert AddPiece(Entry(V4Key(1, 1, 2), map[], []), FIRST.frame, Stamp(0, 0)) == FirstHalf(1);
  }

  lemma SecondIsStored()
    ensures ProcessPacket(SMALL, ONE_HALF, SECOND.frame, [1], Stamp(0, 0)).0 == TWO_HALVES
  {
    HalfIsKept(2);
    assert Sweep(SMALL, ONE_HALF, [1], 0) == ONE_HALF;
    FollowEngineCases(SMALL, ONE_HALF, SECOND.frame, Stamp(0, 0));
    assert AddPiece(Entry(V4Key(2, 1, 2), map[], []), SECOND.frame, Stamp(0, 0)) == FirstHalf(2);
  }

  lemma TwoHalvesReached()
    ensures Run(SMALL, EMPTY, [FIRST, SECOND]) == TWO_HALVES
  {
    FirstIsStored();
    SecondIsStored();
    assert [FIRST, SECOND][1..] == [SECOND];
    assert Run(SMALL, ONE_HALF, [SECOND]) == Run(SMALL, TWO_HALVES, []);
  }

  lemma HalvesMakeAWhole()
    ensures Assemble(map[0 := Piece(EIGHT, false), 8 := Piece(EIGHT, true)], 0).Some?
  {
    var pieces := map[0 := Piece(EIGHT, false), 8 := Piece(EIGHT, true)];
    assert Assemble(pieces - {0}, 8) == Some(EIGHT);
  }

  lemma FirstIsErased()
    ensures Erased([1, 2], {1, 2}) == {1}
    ensures ExpiredSet(SMALL, TWO_HALVES, 100) == {1, 2}
  {
  }

  lemma LateCompletes(left: State)
    requires left == RemoveAll(TWO_HALVES, {1})
    ensures FollowEngine(SMALL, left, LATE.frame, LATE.stamp).1.status == Reassembled
  {
    FollowEngineCases(SMALL, left, LATE.frame, LATE.stamp);
    assert HashOf(SMALL, LATE.frame) == 2;
    assert Located(SMALL, left, LATE.frame).store.entries[2] == FirstHalf(2);
    assert AddPiece(FirstHalf(2), LATE.frame, LATE.stamp).pieces == map[0 := Piece(EIGHT, false), 8 := Piece(EIGHT, true)];
    HalvesMakeAWhole();
  }

  lemma LateIsSkipped()
    ensures Skipped(SMALL, TWO_HALVES, LATE, 2) && Survives(SMALL, TWO_HALVES, LATE, 2)
    ensures Sweep(SMALL, TWO_HALVES, LATE.order, 100) == RemoveAll(TWO_HALVES, {1})
    ensures Sync(SMALL, TWO_HALVES) && Dated(TWO_HALVES) && Enumerates(LATE.order, TWO_HALVES.index.Keys)
  {
    TwoHalvesReached();
    RunPromptUnlessMet(SMALL, [FIRST, SECOND]);
    FirstIsErased();
    SweepErases(SMALL, TWO_HALVES, LATE.order, 100);
    assert Members([1, 2]) == {1, 2};
  }

  /**
   A run from the start: two first halves grow stale side by side in iteration order. The sweep skips the
   second one, and its other half, a hundred ticks later, is joined to it.
   */
  lemma StaleFragmentJoined()
    ensures var st := Run(SMALL, EMPTY, [FIRST, SECOND]);
      && Enumerates(LATE.order, st.index.Keys)
      && ProcessPacket(SMALL, st, LATE.frame, LATE.order, LATE.stamp).1.status == Reassembled
      && !Prompt(SMALL, ProcessPacket(SMALL, st, LATE.frame, LATE.order, LATE.stamp).1.stamps)
  {
    TwoHalvesReached();
    LateIsSkipped();
    LateCompletes(Sweep(SMALL, TWO_HALVES, LATE.order, 100));
    assert HashOf(SMALL, LATE.frame) == 2;
    HandedOutPromptIff(SMALL, TWO_HALVES, LATE);
  }
}
