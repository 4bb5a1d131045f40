/**
 * A time-bounded cache from a source IP address to the destination port
 * last seen for it. Every entry carries an absolute deadline in int64
 * nanoseconds; readers treat an entry whose deadline has passed as absent,
 * and only a sweep (or a flush) removes entries physically.
 *
 * Time is an explicit parameter of every operation instead of a clock read.
 * The background sweeper becomes "a call to DeleteExpired(now) may happen
 * between any two operations"; the lemmas at the end of the module say what
 * such a call can and cannot change.
 */
module Cache {
  import opened Packets

  const INT64_MIN: int := -0x8000_0000_0000_0000
  const INT64_MAX: int := 0x7fff_ffff_ffff_ffff

  predicate IsInt64(x: int) {
    INT64_MIN <= x <= INT64_MAX
  }

  /** A cached port together with its absolute deadline (Unix nanoseconds). */
  datatype PortObject = PortObject(port: string, expiration: int)

  /** The table: source IP -> cached port and deadline. */
  type Table = map<string, PortObject>

  /** The (port, found) pair that Get answers. */
  datatype Lookup = Lookup(port: string, found: bool)

  /**
   * An entry has expired once the clock is strictly past its deadline:
   * at now == expiration it is still live.
   */
  predicate Expired(e: PortObject, now: int) {
    now > e.expiration
  }

  /** Every deadline stored in the table is an int64 value. */
  predicate DeadlinesFitInt64(table: Table) {
    forall k :: k in table ==> IsInt64(table[k].expiration)
  }

  /**
   * Get: the lookup that treats an expired entry exactly like a missing one.
   * It is a function of the table, so it cannot change it.
   */
  function Get(table: Table, ip: string, now: int): (r: Lookup)
    ensures r.found <==> ip in table && now <= table[ip].expiration
    ensures r.found ==> r.port == table[ip].port
    ensures !r.found ==> r == Lookup("", false)
  {
    if ip !in table then
      Lookup("", false)
    else if Expired(table[ip], now) then
      Lookup("", false)
    else
      Lookup(table[ip].port, true)
  }

  /** InspectCache: raw presence of a key, whatever its deadline. */
  function InspectCache(table: Table, ip: string): (r: bool)
    ensures r <==> ip in table
  {
    ip in table
  }

  /**
   * The entries that are still live at `now`, each with its PortObject
   * unchanged. This is both what GetIPTable returns and what the table
   * holds after a sweep at `now`.
   */
  function LiveEntries(table: Table, now: int): (live: Table)
    ensures live.Keys <= table.Keys
    ensures forall k :: k in live ==> live[k] == table[k]
    ensures forall k :: k in table ==> (k in live <==> now <= table[k].expiration)
  {
    map k | k in table && !Expired(table[k], now) :: table[k]
  }

  /**
   * The table after Set: `lookupNow` is the clock reading of the lookup that
   * decides whether the key is already live, `insertNow` the reading from
   * which the new deadline is computed.
   */
  function SetTable(table: Table, packet: Packet, lookupNow: int, insertNow: int,
                    defaultExpiration: int): (r: Table)
    ensures r.Keys == table.Keys + {packet.fromIP}
    ensures forall k :: k in table && k != packet.fromIP ==> r[k] == table[k]
    ensures Get(table, packet.fromIP, lookupNow).found ==> r == table
    ensures !Get(table, packet.fromIP, lookupNow).found ==>
              r[packet.fromIP] == PortObject(packet.toPort, insertNow + defaultExpiration)
  {
    if Get(table, packet.fromIP, lookupNow).found then
      table
    else
      table[packet.fromIP := PortObject(packet.toPort, insertNow + defaultExpiration)]
  }

  class IPCache {
    /** Duration (nanoseconds) added to the clock to give a new entry its deadline. */
    var defaultExpiration: int
    /** The table of entries, keyed by source IP. */
    var ipTable: Table
    /** Period (nanoseconds) of the background sweep; kept, not used by the model. */
    var tickInterval: int

    /** The int64 ranges of the fields. */
    ghost predicate Valid()
      reads this
    {
      IsInt64(defaultExpiration) && IsInt64(tickInterval) && DeadlinesFitInt64(ipTable)
    }

    /** NewIPCache, when not preloading from a file: an empty table. */
    constructor (defaultExpiration: int, tickInterval: int)
      requires IsInt64(defaultExpiration) && IsInt64(tickInterval)
      ensures Valid()
      ensures this.defaultExpiration == defaultExpiration
      ensures this.tickInterval == tickInterval
      ensures ipTable == map[]
    {
      this.defaultExpiration := defaultExpiration;
      this.ipTable := map[];
      this.tickInterval := tickInterval;
    }

    /**
     * Set: record packet.toPort for packet.fromIP unless that key is live at
     * `lookupNow`; an existing live entry keeps its port and its deadline.
     */
    method Set(packet: Packet, lookupNow: int, insertNow: int)
      requires Valid()
      requires IsInt64(insertNow + defaultExpiration)
      modifies this`ipTable
      ensures Valid()
      ensures ipTable == SetTable(old(ipTable), packet, lookupNow, insertNow, defaultExpiration)
      ensures old(Get(ipTable, packet.fromIP, lookupNow)).found ==> ipTable == old(ipTable)
      ensures !old(Get(ipTable, packet.fromIP, lookupNow)).found ==>
                ipTable == old(ipTable)[packet.fromIP := PortObject(packet.toPort, insertNow + defaultExpiration)]
    {
      var lookup := Get(ipTable, packet.fromIP, lookupNow);
      if lookup.found {
        return;
      }
      var e := insertNow + defaultExpiration;
      ipTable := ipTable[packet.fromIP := PortObject(packet.toPort, e)];
    }

    /**
     * GetIPTable: a new map holding exactly the entries live at `now`, with
     * their PortObjects as stored. The cache itself is not changed.
     */
    method GetIPTable(now: int) returns (snapshot: Table)
      ensures snapshot.Keys <= ipTable.Keys
      ensures forall k :: k in ipTable ==> (k in snapshot <==> !Expired(ipTable[k], now))
      ensures forall k :: k in snapshot ==> snapshot[k] == ipTable[k]
      ensures snapshot == LiveEntries(ipTable, now)
    {
      snapshot := map[];
      var pending := ipTable.Keys;
      while pending != {}
        invariant pending <= ipTable.Keys
        invariant forall k :: k in snapshot <==> k in ipTable && k !in pending && !Expired(ipTable[k], now)
        invariant forall k :: k in snapshot ==> snapshot[k] == ipTable[k]
        decreases pending
      {
        var k :| k in pending;
        if !Expired(ipTable[k], now) {
          snapshot := snapshot[k := ipTable[k]];
        }
        pending := pending - {k};
      }
    }

    /** FlushIPCache: replace the table with an empty one. */
    method FlushIPCache()
      requires Valid()
      modifies this`ipTable
      ensures Valid()
      ensures ipTable == map[]
      ensures forall ip, now :: !Get(ipTable, ip, now).found && !InspectCache(ipTable, ip)
    {
      ipTable := map[];
    }

    /**
     * deleteExpired: walk the table and delete every entry that has expired
     * at `now`; every other entry stays as it was.
     */
    method DeleteExpired(now: int)
      requires Valid()
      modifies this`ipTable
      ensures Valid()
      ensures ipTable == LiveEntries(old(ipTable), now)
      ensures forall k :: InspectCache(ipTable, k) == Get(ipTable, k, now).found
      ensures forall k :: Get(ipTable, k, now) == old(Get(ipTable, k, now))
    {
      var pending := ipTable.Keys;
      while pending != {}
        invariant pending <= old(ipTable).Keys
        invariant forall k :: k in ipTable <==>
                    k in old(ipTable) && (k in pending || !Expired(old(ipTable)[k], now))
        invariant forall k :: k in ipTable ==> ipTable[k] == old(ipTable)[k]
        decreases pending
      {
        var k :| k in pending;
        if Expired(ipTable[k], now) {
          ipTable := ipTable - {k};
        }
        pending := pending - {k};
      }
      assert ipTable == LiveEntries(old(ipTable), now);
      forall k ensures Get(ipTable, k, now) == old(Get(ipTable, k, now)) {
        SweepPreservesGet(old(ipTable), now, now, k);
      }
    }
  }

  /** A key is in the snapshot at `now` exactly when Get finds it at `now`, with the same port. */
  lemma LiveEntriesAgreesWithGet(table: Table, now: int, ip: string)
    ensures ip in LiveEntries(table, now) <==> Get(table, ip, now).found
    ensures Get(table, ip, now).found ==> LiveEntries(table, now)[ip].port == Get(table, ip, now).port
  {
  }

  /**
   * A sweep at time `sweepNow` never changes what Get answers at a time
   * `now` that is not earlier: whatever it deleted was already invisible.
   */
  lemma SweepPreservesGet(table: Table, sweepNow: int, now: int, ip: string)
    requires sweepNow <= now
    ensures Get(LiveEntries(table, sweepNow), ip, now) == Get(table, ip, now)
  {
  }

  /**
   * Sweeps compose: a sweep at `sweepNow` followed by one at a time `now`
   * that is not earlier leaves what a single sweep at `now` leaves. With
   * sweepNow == now this is idempotence.
   */
  lemma SweepsCompose(table: Table, sweepNow: int, now: int)
    requires sweepNow <= now
    ensures LiveEntries(LiveEntries(table, sweepNow), now) == LiveEntries(table, now)
  {
    var once, twice := LiveEntries(table, now), LiveEntries(LiveEntries(table, sweepNow), now);
    assert once.Keys == twice.Keys;
  }

  /** Running the sweep twice at the same time is the same as running it once. */
  lemma SweepIdempotent(table: Table, now: int)
    ensures LiveEntries(LiveEntries(table, now), now) == LiveEntries(table, now)
  {
    SweepsCompose(table, now, now);
  }

  /** After a sweep at `now`, raw presence and Get's answer at `now` coincide. */
  lemma SweptInspectAgreesWithGet(table: Table, now: int, ip: string)
    ensures InspectCache(LiveEntries(table, now), ip) == Get(table, ip, now).found
  {
  }

  /** An entry past its deadline is physically gone after a sweep. */
  lemma SweepReclaimsExpired(table: Table, now: int, ip: string)
    requires ip in table && Expired(table[ip], now)
    ensures !InspectCache(LiveEntries(table, now), ip)
  {
  }

  /** No refresh: when the key is live at the lookup, Set leaves the whole table as it was. */
  lemma SetKeepsLiveEntry(table: Table, packet: Packet, lookupNow: int, insertNow: int, d: int)
    requires Get(table, packet.fromIP, lookupNow).found
    ensures SetTable(table, packet, lookupNow, insertNow, d) == table
  {
  }

  /**
   * When the key is missing or expired at the lookup, Set stores the packet's
   * destination port with deadline insertNow + d and touches no other key.
   */
  lemma SetStoresNewEntry(table: Table, packet: Packet, lookupNow: int, insertNow: int, d: int)
    requires !Get(table, packet.fromIP, lookupNow).found
    ensures var after := SetTable(table, packet, lookupNow, insertNow, d);
      && packet.fromIP in after
      && after[packet.fromIP] == PortObject(packet.toPort, insertNow + d)
      && after.Keys == table.Keys + {packet.fromIP}
      && forall k :: k in table && k != packet.fromIP ==> after[k] == table[k]
  {
  }

  /**
   * Expiration after a fresh Set: Get finds the new port at every time up to
   * and including insertNow + d, and nothing at any later time.
   */
  lemma GetAfterSet(table: Table, packet: Packet, lookupNow: int, insertNow: int, d: int, now: int)
    requires !Get(table, packet.fromIP, lookupNow).found
    ensures Get(SetTable(table, packet, lookupNow, insertNow, d), packet.fromIP, now)
            == if now <= insertNow + d then Lookup(packet.toPort, true) else Lookup("", false)
  {
  }

  /** Set never changes what Get answers for any other key, at any time. */
  lemma SetLeavesOtherKeys(table: Table, packet: Packet, lookupNow: int, insertNow: int, d: int,
                           ip: string, now: int)
    requires ip != packet.fromIP
    ensures Get(SetTable(table, packet, lookupNow, insertNow, d), ip, now) == Get(table, ip, now)
  {
  }

  /**
   * First writer wins: once a Set has stored `first`, a second Set for the
   * same source IP whose lookup falls within the stored lifetime changes
   * nothing, so Get keeps answering first.toPort until the first deadline.
   */
  lemma FirstWriterWins(table: Table, first: Packet, second: Packet, d: int,
                        lookup1: int, insert1: int, lookup2: int, insert2: int, now: int)
    requires second.fromIP == first.fromIP
    requires !Get(table, first.fromIP, lookup1).found
    requires lookup2 <= insert1 + d
    ensures var once := SetTable(table, first, lookup1, insert1, d);
      SetTable(once, second, lookup2, insert2, d) == once
    ensures now <= insert1 + d ==>
      Get(SetTable(SetTable(table, first, lookup1, insert1, d), second, lookup2, insert2, d),
          first.fromIP, now) == Lookup(first.toPort, true)
  {
    var once := SetTable(table, first, lookup1, insert1, d);
    GetAfterSet(table, first, lookup1, insert1, d, lookup2);
    SetKeepsLiveEntry(once, second, lookup2, insert2, d);
    GetAfterSet(table, first, lookup1, insert1, d, now);
  }

  /**
   * A sweep slipped in before a Set, at a time not later than the Set's
   * lookup, is invisible to every later Get: the Set makes the same decision
   * and every key answers the same.
   */
  lemma SweepBeforeSetInvisible(table: Table, sweepNow: int, packet: Packet,
                                lookupNow: int, insertNow: int, d: int, ip: string, now: int)
    requires sweepNow <= lookupNow && sweepNow <= now
    ensures Get(SetTable(LiveEntries(table, sweepNow), packet, lookupNow, insertNow, d), ip, now)
            == Get(SetTable(table, packet, lookupNow, insertNow, d), ip, now)
  {
    SweepPreservesGet(table, sweepNow, lookupNow, packet.fromIP);
    if ip != packet.fromIP {
      SetLeavesOtherKeys(LiveEntries(table, sweepNow), packet, lookupNow, insertNow, d, ip, now);
      SetLeavesOtherKeys(table, packet, lookupNow, insertNow, d, ip, now);
      SweepPreservesGet(table, sweepNow, now, ip);
    } else if Get(table, packet.fromIP, lookupNow).found {
      SweepPreservesGet(table, sweepNow, now, ip);
    }
  }

}
