# goPacCap IP cache, modelled in Dafny

goPacCap captures packets and remembers, for each source IP address it has
seen, the destination port of the packet that first recorded it. The memory
is `IPCache`: a map from a source IP string to a `PortObject{Port,
Expiration}`, where `Expiration` is an absolute deadline in int64 Unix
nanoseconds. Readers treat an entry whose deadline has passed as absent. A
background goroutine periodically sweeps the map and deletes the expired
entries.

This project models that cache:

- `packet.dfy`, module `Packets`: the four-string `Packet` record that the
  capture side hands to `Set` (`FromIP` becomes the key, `ToPort` the value).
- `ipcache.dfy`, module `Cache`: `PortObject`, the lookups `Get` and
  `InspectCache` as functions of the table, `LiveEntries` (the live part of
  a table, which is both what `GetIPTable` returns and what a sweep leaves),
  and the class `IPCache` with the fields `defaultExpiration`, `ipTable` and
  `tickInterval` and the methods `Set`, `GetIPTable`, `FlushIPCache` and
  `DeleteExpired` (the source's `deleteExpired`). The lemmas after the class
  state what the operations promise taken together.
- `sweeper.dfy`, module `Sweeper`: the background sweep, seen from the
  callers' side. A run is a sequence of operations (`Set`, sweep, flush),
  each with its clock readings. Its theorem is that sweeps placed anywhere in
  a run never change what `Get` answers, provided no `Set` lookup and no
  final query reads the clock earlier than a sweep that came before it. A
  sweep may itself read a stale clock, as `deleteExpired` does when a `Set`
  runs between its clock read and its lock (ipcache.go:174-177). The
  source's wall clock does not guarantee the remaining hypothesis, and
  `ClockStepBackMakesSweepVisible` shows what happens when it fails.
- `scenarios.dfy`, module `CacheScenarios`: client methods with explicit
  clock readings. `SetThenGet`, `SetThenExpire` and `SetThenFlush` replay
  `TestCache`, `TestCacheExpiration` and `TestCacheFlush` of
  `ipcache_test.go`, with the 5-minute expiration and 6-minute tick that
  `PacketCapture(5)` configures. `DuplicateSetThenSweep` replays no test; it
  shows the no-refresh rule and a sweep. The methods carry no contract of
  their own; each assertion in them is proved from the operations'
  contracts.

Modelling decisions:

- Time is an explicit `int` parameter (`now`) of every operation instead of
  a call to `time.Now()`.
- `Set` reads the clock twice: once inside `Get` (`ipcache.go:46`) and once
  for the deadline (`ipcache.go:51`). The model keeps both readings as
  `lookupNow` and `insertNow`. It requires no order between them.
- An entry is expired when `now > Expiration` (strict, ipcache.go:72, 89,
  179). At `now == Expiration` it is still live, and `GetAfterSet` and
  `LiveEntries` include the deadline.
- Integers are unbounded. `IPCache.Valid()` says that `defaultExpiration`,
  `tickInterval` and every stored deadline fit in int64. `Set` requires that
  `insertNow + defaultExpiration` fits in int64. Go's `UnixNano` has no
  defined value outside that range, so the overflow is excluded rather than
  modelled.
- The background sweeper becomes "a call to `DeleteExpired(now)` may happen
  between any two operations". `SweepPreservesGet`, `SweepsCompose` and
  `SweepBeforeSetInvisible` state what such a call can and cannot change.
- The model is sequential, so the `sync.RWMutex` is dropped.
- Dafny maps are values, so the map that `GetIPTable` returns never aliases
  the table. Later changes to the cache cannot show through it.

## Model

| member | source | states |
|---|---|---|
| `Cache.Get` | ipcache.go:64-80 | found exactly when the IP is a key and `now <= Expiration`, with the stored port; otherwise `("", false)`, so an expired unswept entry answers like a missing one |
| `Cache.InspectCache` | ipcache.go:108-114 | true exactly when the IP is a key of the table, whatever its deadline |
| `Cache.LiveEntries` | ipcache.go:86-93 | a sub-map of the table holding exactly the keys with `now <= Expiration`, each with its stored `PortObject` |
| `Cache.SetTable` | ipcache.go:44-59 | the table after `Set`: unchanged when the key is live at `lookupNow`, otherwise updated at `fromIP` to `{toPort, insertNow + d}`; either way the key set gains `fromIP` only and every other entry is unchanged |
| `Cache.IPCache.constructor` | ipcache.go:135-151 | the non-preloading `NewIPCache`: empty table, the given expiration and tick interval |
| `Cache.IPCache.Set` | ipcache.go:44-60 | if the key is live at the lookup time, the table is unchanged (no refresh); otherwise the key maps to `{ToPort, insertNow + DefaultExpiration}` and the rest of the table is as before; deadlines stay int64 |
| `Cache.IPCache.GetIPTable` | ipcache.go:84-96 | returns a new map whose keys are exactly the table keys live at `now`, each with an identical `PortObject`, a subset of the table, and changes nothing |
| `Cache.IPCache.FlushIPCache` | ipcache.go:99-103 | afterwards the table is empty, so `Get` and `InspectCache` find nothing for any key at any time |
| `Cache.IPCache.DeleteExpired` | ipcache.go:172-184 | the table becomes exactly its entries live at `now`; afterwards `InspectCache` agrees with `Get`'s found flag at `now`, and `Get` at `now` answers as before for every key |
| `Cache.LiveEntriesAgreesWithGet` | ipcache.go:84-96 | a key is in the snapshot at `now` exactly when `Get` finds it at `now`, with the same port |
| `Cache.SweepPreservesGet` | ipcache.go:172-184 | a sweep at time `s` never changes what `Get` answers at any time `t >= s` |
| `Cache.SweepsCompose` | ipcache.go:172-184 | a sweep at `s` followed by a sweep at `t >= s` leaves the same table as one sweep at `t` |
| `Cache.SweepIdempotent` | ipcache.go:172-184 | running the sweep twice at the same time is the same as running it once |
| `Cache.SweptInspectAgreesWithGet` | ipcache.go:178-181 | after a sweep at `now`, raw presence of a key equals `Get`'s found flag at `now` on the table before the sweep |
| `Cache.SweepReclaimsExpired` | ipcache.go:179-180 | an entry past its deadline is physically absent after a sweep |
| `Cache.SetKeepsLiveEntry` | ipcache.go:44-49 | when `Get` finds the key at the lookup time, `Set` leaves the whole table unchanged, port and deadline included |
| `Cache.SetStoresNewEntry` | ipcache.go:50-59 | when the key is missing or expired, `Set` adds exactly that key, mapped to `{ToPort, insertNow + DefaultExpiration}`, and every other entry is unchanged |
| `Cache.GetAfterSet` | ipcache.go:51-58 | after a fresh `Set`, `Get` finds `ToPort` at every time up to and including `insertNow + DefaultExpiration` and nothing at any later time |
| `Cache.SetLeavesOtherKeys` | ipcache.go:55-58 | `Set` never changes what `Get` answers for any other key, at any time |
| `Cache.FirstWriterWins` | ipcache.go:44-59 | a second `Set` for the same IP inside the first entry's lifetime changes nothing, and `Get` keeps returning the first port until the first deadline |
| `Cache.SweepBeforeSetInvisible` | ipcache.go:186-196 | a background sweep at a time no later than a `Set`'s lookup does not change what any later `Get` answers after that `Set` |
| `Sweeper.SweepsInvisibleFrom` | ipcache.go:186-196 | induction over a run: a run that starts from a table whose missing entries all expired before `from`, and in which no `Set` lookup or final query reads the clock earlier than `from` or than an earlier sweep, answers `Get` like the same run without its sweeps started from the unswept table |
| `Sweeper.SweepsNeverChangeGet` | ipcache.go:186-196 | in any run where no `Set` lookup and no final query reads the clock earlier than a sweep before it (sweeps themselves may read a stale clock), removing every sweep leaves `Get`'s final answer unchanged for every key; so the tick interval does not matter as long as the clock does not step back |
| `Sweeper.ClockStepBackMakesSweepVisible` | ipcache.go:172-184 | when the clock steps back behind a sweep, the sweep is visible: a table `{k: ("1", 10)}` after a sweep at 20 and a `Set` of port "2" looking up at 5 answers `("2", true)` at 8, but `("1", true)` without the sweep |

## Left out

- Sweeper.SweepsNeverChangeGet: assumes that no `Set` lookup and no `Get` reads the clock earlier than a sweep that came before it. The source reads wall-clock time through `time.Now().UnixNano()` (ipcache.go:51, 72, 89, 174), which drops Go's monotonic reading and can step back. In that case a sweep can change what `Get` answers, as `ClockStepBackMakesSweepVisible` shows.

- `run`, `runManager` and the ticker (ipcache.go:186-202): this is the background goroutine. It is modelled only as explicit `DeleteExpired(now)` calls that may come between operations. `tickInterval` is stored but not used. Go's `time.NewTicker` panics on a non-positive interval, and that panic is not modelled.
- `sync.RWMutex` locking: the model is sequential. In the source, `Set` releases the read lock after its lookup and only then takes the write lock. So two concurrent `Set`s for the same new key can both insert, and the later write wins. The sequential model does not show that race.
- `InspectCache` reads the map without taking the lock. This is a data race in the source; the sequential model does not capture it.
- `SaveIPCache`, `loadIPCache` and the `readCache` branch of `NewIPCache` (ipcache.go:117-128, 139-141, 157-169): file I/O through the external `encoding/gob` codec, and `loadIPCache` exits the process through `log.Fatal`.
- Everything in packetcapture.go except the `Packet` record: the capture functions wrap the external gopacket/pcap library and a Go channel. `Packet.String` is a one-line format call. It prints `FromIP:ToIP` and `FromPort:ToPort`, not address:port pairs, and it has a stray `}`. It is not modelled.
- paccap/packetcapture.go and example/main.go: a prototype and a demo driver, outside the cache.
- Cache.IPCache.Set: deadline overflow is excluded by a requires (`insertNow + defaultExpiration` must fit in int64), not modelled as Go's wrap-around.
