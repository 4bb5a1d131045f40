/**
 * Clients of the cache, with explicit clock readings. SetThenGet,
 * SetThenExpire and SetThenFlush replay TestCache, TestCacheExpiration and
 * TestCacheFlush of ipcache_test.go (PacketCapture(5) builds a cache with a
 * 5-minute expiration and a 6-minute tick); DuplicateSetThenSweep shows the
 * no-refresh rule and a sweep. Each one is proved from the contracts of the
 * cache's operations alone.
 */
module CacheScenarios {
  import opened Packets
  import opened Cache

  const Dummy := Packet("0.0.0.0", "1.1.1.1", "22", "22")

  /** A freshly set key is found right away (TestCache). */
  method SetThenGet() {
    var c := new IPCache(300_000_000_000, 360_000_000_000);
    c.Set(Dummy, 100, 100);
    assert Get(c.ipTable, "0.0.0.0", 100) == Lookup("22", true);
  }

  /**
   * With a one-microsecond lifetime the entry is still found at exactly its
   * deadline and gone one nanosecond later (TestCacheExpiration).
   */
  method SetThenExpire() {
    var c := new IPCache(1_000, 2_000);
    c.Set(Dummy, 0, 0);
    assert Get(c.ipTable, "0.0.0.0", 1_000).found;
    assert !Get(c.ipTable, "0.0.0.0", 1_001).found;
    assert InspectCache(c.ipTable, "0.0.0.0");
  }

  /** After a flush the key is neither found nor present (TestCacheFlush). */
  method SetThenFlush() {
    var c := new IPCache(300_000_000_000, 360_000_000_000);
    c.Set(Dummy, 0, 0);
    c.FlushIPCache();
    assert !Get(c.ipTable, "0.0.0.0", 0).found;
  }

  /**
   * Not a test of the source: a second Set for the same source IP within the
   * first entry's lifetime keeps the first port and deadline, and a sweep
   * after the deadline removes the entry.
   */
  method DuplicateSetThenSweep() {
    var c := new IPCache(1_000_000_000, 2_000_000_000);
    c.Set(Packet("10.0.0.1", "10.0.0.2", "5000", "443"), 0, 0);
    c.Set(Packet("10.0.0.1", "10.0.0.3", "5001", "80"), 500, 500);
    assert Get(c.ipTable, "10.0.0.1", 1_000_000_000) == Lookup("443", true);
    assert !Get(c.ipTable, "10.0.0.1", 1_100_000_000).found;
    assert InspectCache(c.ipTable, "10.0.0.1");
    c.DeleteExpired(3_100_000_000);
    assert !InspectCache(c.ipTable, "10.0.0.1");
  }
}
