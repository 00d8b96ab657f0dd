/** The reassembly objects: the fragment engine and the owner it calls back, updated in place. */
module IpReassemblies {
  import opened Common
  import opened Packets
  import opened Reassembly

  /** What an iterator at position `i` has still to visit; nothing once it has been advanced past the end. */
  function From(order: seq<int>, i: nat): seq<int> {
    if i < |order| then order[i..] else []
  }

  /** One turn of the expiry loop: an erase takes the iterator two positions on. */
  lemma {:induction false} SweepAt(c: Config, st: State, order: seq<int>, i: nat, now: int)
    requires i < |order|
    ensures Sweep(c, st, From(order, i), now) ==
            if Expired(c, st, order[i], now) then Sweep(c, Drop(c, st, order[i]), From(order, i + 2), now)
            else Sweep(c, st, From(order, i + 1), now)
  {
    var rest := order[i..];
    assert rest[1..] == From(order, i + 1);
    assert (if |rest| == 1 then [] else rest[2..]) == From(order, i + 2);
  }

  /** The fragment engine. It knows its owner only as the cookie of the clean-up call back. */
  class FragmentEngine {
    const config: Config
    var entries: map<int, Entry>
    var recent: seq<int>
    var cookie: IpReassembly?

    constructor (config: Config)
      ensures this.config == config && entries == map[] && recent == [] && cookie == null
    {
      this.config := config;
      entries, recent, cookie := map[], [], null;
    }

    ghost function Contents(): Store
      reads this
    {
      Store(entries, recent)
    }

    /** removePacket: no call back. */
    method RemovePacket(key: PacketKey)
      modifies this`entries, this`recent
      ensures Contents() == Remove(old(Contents()), config.hash(key))
    {
      var h := config.hash(key);
      entries := entries - {h};
      recent := Without(recent, {h});
    }

    /** Make room for a new packet and insert it; the owner is called while the new packet is not yet in the store. */
    method AddNewPacket(h: int, key: PacketKey)
      requires cookie != null && cookie.engine == this && cookie.config == config
      requires StoreOk(config, Contents()) && 0 < config.capacity
      modifies this`entries, this`recent, cookie`timestamps
      ensures cookie.Abs() == Admit(config, old(cookie.Abs()), h, key)
    {
      var n := |recent|;
      if config.capacity <= n {
        assert recent[n-1] in Members(recent);
        var victim := recent[n-1];
        var victimKey := entries[victim].key;
        recent := recent[..n-1];
        entries := entries - {victim};
        cookie.OnFragmentsCleanCallback(victimKey);
      }
      entries := entries[h := Entry(key, map[], [])];
      recent := [h] + recent;
    }

    method ProcessPacket(f: Frame, stamp: Stamp) returns (o: Outcome)
      requires cookie != null && cookie.engine == this && cookie.config == config
      requires StoreOk(config, Contents()) && 0 < config.capacity
      modifies this`entries, this`recent, cookie`timestamps
      ensures (cookie.Abs(), o) == EngineProcess(config, old(cookie.Abs()), f, stamp)
    {
      var key := GetPacketKey(f);
      if key.None? && !f.net.IPv6? {
        return Outcome(NonIp, Some(f), []);
      }
      if !IsFragment(f) {
        return Outcome(NonFragment, Some(f), []);
      }
      if PieceOf(f).data == [] {
        return Outcome(Malformed, None, []);
      }
      var h := HashOf(config, f);
      if h in entries {
        recent := [h] + Without(recent, {h});
      } else {
        AddNewPacket(h, key.value);
      }
      assert cookie.Abs() == Located(config, old(cookie.Abs()), f);
      var e := AddPiece(entries[h], f, stamp);
      var whole := Assemble(e.pieces, 0);
      if whole.Some? {
        entries := entries - {h};
        recent := Without(recent, {h});
        return Outcome(Reassembled, Some(Whole(f, whole.value)), e.stamps);
      }
      entries := entries[h := e];
      var status := if OffsetOf(f) == 0 then FirstFragment else if 0 in e.pieces then MiddleFragment else OutOfOrder;
      return Outcome(status, None, []);
    }
  }

  /** The owner: the timestamp index, and the engine it shares its keys with. */
  class IpReassembly {
    const config: Config
    const engine: FragmentEngine
    var timestamps: map<int, Timestamped>

    ghost function Abs(): State
      reads this, engine
    {
      State(timestamps, engine.Contents())
    }

    ghost predicate Valid()
      reads this, engine
    {
      && engine.cookie == this
      && engine.config == config
      && 0 < config.capacity
      && Sync(config, Abs())
    }

    constructor (config: Config)
      requires 0 < config.capacity
      ensures Valid() && fresh(engine)
      ensures this.config == config && Abs() == EMPTY
    {
      this.config := config;
      engine := new FragmentEngine(config);
      timestamps := map[];
      new;
      engine.cookie := this;
      EmptyInSync(config);
    }

    /** Called by the engine in the middle of its own work. */
    method OnFragmentsCleanCallback(key: PacketKey)
      modifies this`timestamps
      ensures timestamps == OnFragmentsClean(config, old(timestamps), key)
    {
      var h := config.hash(key);
      if h in timestamps {
        timestamps := timestamps - {h};
      } else {
        assert timestamps - {h} == timestamps;
      }
    }

    /** removePacket on the engine, then the erase. */
    method EraseExpired(h: int)
      requires Valid() && h in timestamps
      modifies this`timestamps, engine`entries, engine`recent
      ensures Valid() && Abs() == Drop(config, old(Abs()), h)
    {
      DropKeepsSync(config, Abs(), h);
      engine.RemovePacket(timestamps[h].key);
      timestamps := timestamps - {h};
    }

    /** Body of the expiry loop at iterator `i`: an erase already advances the iterator once. */
    method VisitEntry(order: seq<int>, i: nat, now: int) returns (j: nat)
      requires Valid() && i < |order|
      modifies this`timestamps, engine`entries, engine`recent
      ensures Valid() && i <= j
      ensures Sweep(config, Abs(), From(order, j + 1), now) == Sweep(config, old(Abs()), From(order, i), now)
    {
      SweepAt(config, Abs(), order, i, now);
      j := i;
      if order[i] in timestamps && timestamps[order[i]].time < now - config.maxAge {
        EraseExpired(order[i]);
        j := j + 1;
      }
    }

    /**
     The expiry loop over `order`, the iteration order the container has at the time. `i` is the
     iterator: it advances at the erase and again at the loop header.
     */
    method RemoveOldPackages(order: seq<int>, now: int)
      requires Valid()
      modifies this`timestamps, engine`entries, engine`recent
      ensures Valid()
      ensures Abs() == Sweep(config, old(Abs()), order, now)
    {
      var i := 0;
      assert From(order, 0) == order;
      while i < |order|
        invariant Valid()
        invariant Sweep(config, Abs(), From(order, i), now) == Sweep(config, old(Abs()), order, now)
      {
        i := VisitEntry(order, i, now);
        i := i + 1;
      }
    }

    method RemovePackageFromTimestampMap(key: PacketKey)
      modifies this`timestamps
      ensures timestamps == old(timestamps) - {config.hash(key)}
    {
      timestamps := timestamps - {config.hash(key)};
    }

    method UpdatePackageInTimestampMap(key: PacketKey, now: int)
      modifies this`timestamps
      ensures timestamps == UpdateTimestamp(config, old(timestamps), key, now)
    {
      var h := config.hash(key);
      if h in timestamps {
        timestamps := timestamps[h := timestamps[h].(time := now)];
      } else {
        timestamps := timestamps[h := Timestamped(key, now)];
      }
    }

    /** `stamp` holds the two readings of the clock: before the sweep and after the engine. */
    method ProcessPacket(f: Frame, order: seq<int>, stamp: Stamp) returns (o: Outcome)
      requires Valid()
      modifies this`timestamps, engine`entries, engine`recent
      ensures Valid()
      ensures (Abs(), o) == Reassembly.ProcessPacket(config, old(Abs()), f, order, stamp)
    {
      ProcessPacketKeepsSync(config, Abs(), f, order, stamp);
      RemoveOldPackages(order, stamp.swept);
      o := engine.ProcessPacket(f, stamp);
      if o.status == Reassembled {
        RemovePackageFromTimestampMap(GetPacketKey(f).value);
      } else if o.status == FirstFragment || o.status == MiddleFragment || o.status == OutOfOrder {
        UpdatePackageInTimestampMap(GetPacketKey(f).value, stamp.recorded);
      }
    }

    method GetCurrentCapacity() returns (n: nat)
      requires Valid()
      ensures n == |timestamps| <= config.capacity
    {
      n := |engine.entries|;
      DistinctSize(engine.recent);
      assert timestamps.Keys == engine.entries.Keys;
      assert |timestamps.Keys| == |timestamps| && |engine.entries.Keys| == |engine.entries|;
    }
  }
}
