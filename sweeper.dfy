/**
 * The background sweeper, seen from the callers' side. The goroutine that
 * calls deleteExpired on every tick is replaced by sweeps that may fall
 * between any two operations of a run. The theorem of this module is that
 * such sweeps never change what Get answers, whatever their cadence, as
 * long as no Set lookup and no final query reads the clock earlier than a
 * sweep that came before it.
 */
module Sweeper {
  import opened Packets
  import opened Cache

  /** One operation on the cache table, with its clock readings. */
  datatype Op =
    | SetOp(packet: Packet, lookupNow: int, insertNow: int)
    | Sweep(now: int)
    | Flush

  /** The table after one operation; d is the cache's default expiration. */
  function Apply(table: Table, op: Op, d: int): Table
  {
    match op
    case SetOp(p, lookupNow, insertNow) => SetTable(table, p, lookupNow, insertNow, d)
    case Sweep(now) => LiveEntries(table, now)
    case Flush => map[]
  }

  /** The table after a run of operations, applied in order. */
  function Run(table: Table, ops: seq<Op>, d: int): Table
    decreases |ops|
  {
    if ops == [] then table else Run(Apply(table, ops[0], d), ops[1..], d)
  }

  /** The same run with every sweep taken out. */
  function WithoutSweeps(ops: seq<Op>): (r: seq<Op>)
    ensures |r| <= |ops|
    ensures forall i :: 0 <= i < |r| ==> !r[i].Sweep?
  {
    if ops == [] then []
    else if ops[0].Sweep? then WithoutSweeps(ops[1..])
    else [ops[0]] + WithoutSweeps(ops[1..])
  }

  /**
   * No reading follows a later sweep: every Set lookup, and the final query
   * time `until`, is no earlier than `bound` and than the reading of every
   * sweep before it. Sweeps themselves may read a stale clock (deleteExpired
   * reads the clock before it takes the lock), and Set lookups need not be
   * ordered among themselves.
   */
  predicate ReadingsAfterSweeps(ops: seq<Op>, bound: int, until: int)
    decreases |ops|
  {
    if ops == [] then bound <= until
    else match ops[0]
      case SetOp(_, lookupNow, _) => bound <= lookupNow && ReadingsAfterSweeps(ops[1..], bound, until)
      case Sweep(now) => ReadingsAfterSweeps(ops[1..], if now < bound then bound else now, until)
      case Flush => ReadingsAfterSweeps(ops[1..], bound, until)
  }

  /**
   * `swept` is `table` with some entries removed, each of which had already
   * expired before time `bound`.
   */
  predicate SweptBefore(swept: Table, table: Table, bound: int)
  {
    && swept.Keys <= table.Keys
    && (forall k :: k in swept ==> swept[k] == table[k])
    && (forall k :: k in table && k !in swept ==> table[k].expiration < bound)
  }

  /** Tables related by SweptBefore answer every Get at or after the bound alike. */
  lemma SweptBeforeAgreesOnGet(swept: Table, table: Table, bound: int, ip: string, now: int)
    requires SweptBefore(swept, table, bound) && bound <= now
    ensures Get(swept, ip, now) == Get(table, ip, now)
  {
  }

  /**
   * The induction behind the theorem: a run with sweeps, started from a
   * table swept before `from`, answers Get like the same run without sweeps
   * started from the unswept table.
   */
  lemma {:induction false} SweepsInvisibleFrom(swept: Table, table: Table, ops: seq<Op>,
                                               d: int, from: int, until: int, ip: string)
    requires SweptBefore(swept, table, from)
    requires ReadingsAfterSweeps(ops, from, until)
    ensures Get(Run(swept, ops, d), ip, until) == Get(Run(table, WithoutSweeps(ops), d), ip, until)
    decreases |ops|
  {
    if ops == [] {
      SweptBeforeAgreesOnGet(swept, table, from, ip, until);
    } else {
      var rest := ops[1..];
      match ops[0]
      case SetOp(p, lookupNow, insertNow) =>
        SweptBeforeAgreesOnGet(swept, table, from, p.fromIP, lookupNow);
        var swept', table' := SetTable(swept, p, lookupNow, insertNow, d),
                              SetTable(table, p, lookupNow, insertNow, d);
        assert SweptBefore(swept', table', from);
        assert WithoutSweeps(ops) == [ops[0]] + WithoutSweeps(rest);
        assert ([ops[0]] + WithoutSweeps(rest))[1..] == WithoutSweeps(rest);
        SweepsInvisibleFrom(swept', table', rest, d, from, until, ip);
      case Sweep(now) =>
        var bound := if now < from then from else now;
        assert SweptBefore(LiveEntries(swept, now), table, bound);
        SweepsInvisibleFrom(LiveEntries(swept, now), table, rest, d, bound, until, ip);
      case Flush =>
        assert WithoutSweeps(ops) == [ops[0]] + WithoutSweeps(rest);
        assert ([ops[0]] + WithoutSweeps(rest))[1..] == WithoutSweeps(rest);
        SweepsInvisibleFrom(map[], map[], rest, d, from, until, ip);
    }
  }

  /**
   * Get never depends on sweep cadence: in any run where no Set lookup and
   * not the final query reads the clock earlier than a sweep before it, the
   * sweeps can be removed without changing what Get answers at the end, for
   * any key.
   */
  lemma SweepsNeverChangeGet(table: Table, ops: seq<Op>, d: int, start: int, now: int, ip: string)
    requires ReadingsAfterSweeps(ops, start, now)
    ensures Get(Run(table, ops, d), ip, now) == Get(Run(table, WithoutSweeps(ops), d), ip, now)
  {
    SweepsInvisibleFrom(table, table, ops, d, start, now, ip);
  }

  /**
   * The hypothesis above is needed. The source reads wall-clock Unix
   * nanoseconds, which can step back. A sweep at 20 removes an entry with
   * deadline 10; a Set whose lookup reads 5 then stores a new port, and a
   * Get at 8 sees it. Without the sweep, the old entry is still live at 5
   * and 8, so Set changes nothing and Get answers the old port.
   */
  lemma ClockStepBackMakesSweepVisible()
    ensures var table := map["k" := PortObject("1", 10)];
      var ops := [Sweep(20), SetOp(Packet("k", "", "", "2"), 5, 5)];
      && Get(Run(table, ops, 100), "k", 8) == Lookup("2", true)
      && Get(Run(table, WithoutSweeps(ops), 100), "k", 8) == Lookup("1", true)
  {
    var table := map["k" := PortObject("1", 10)];
    var setOp := SetOp(Packet("k", "", "", "2"), 5, 5);
    var ops := [Sweep(20), setOp];
    assert LiveEntries(table, 20) == map[];
    assert ops[1..] == [setOp];
    assert WithoutSweeps(ops) == [setOp] by {
      assert WithoutSweeps(ops[1..][1..]) == [];
    }
    assert [setOp][1..] == [];
  }
}
