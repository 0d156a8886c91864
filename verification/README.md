# Ignite segmentation plugin — a Dafny model

This project models the decision logic of an Apache Ignite plugin that
detects network segmentation (a partition of the cluster). Two parts are
modelled.

- `ReachableSegmentationResolver` (`reachable_resolver.dfy`, module
  `ReachableSegmentation`). It probes every configured host through a
  network interface. It records each outcome in a `LinkedHashMap` that lives
  as long as the resolver. It logs an alert for every unreachable entry, then
  judges the segment by a consistency policy: ONE, QUORUM or ALL.
  - The resolver is a class. Its fields and setters are those of the Java
    class.
  - The map is the pair `reachableMap`/`mapOrder`. Its value is a
    `LinkedMaps.LinkedMap` (`linked_map.dfy`): the entries plus the insertion
    order.
  - The network probe is an oracle. `probes[i]` says what the JDK calls do
    for the i-th host of the list.
- `SegmentationProcessor.isValidSegment` (`segmentation_processor.dfy`,
  module `SegmentationProcessing`). It folds the verdicts of all configured
  resolvers with `valid = valid && r.isValidSegment()`. An `Exception`
  counts as `false`. `answers[i]` says what the i-th resolver returns or throws if
  it is called. The method returns:
  - the verdict;
  - the positions of the resolvers actually called;
  - the info lines logged.

`outcomes.dfy` (module `Outcomes`) holds `Option` (a reference that may be
null), `Fault` (the unchecked exceptions that escape) and `Result` (a return
value or an exception).

Java's `int` fields (`timeout`, `ttl`) are the newtype `int32`.

## Behaviour that differs from what one might expect

The model follows the code in each of these cases.

- **The map persists.** One might expect the reachability map to be built
  fresh on every call. The code never clears the `reachableMap` field
  (ReachableSegmentationResolver.java:82, :91), so entries from earlier calls
  and from removed hosts stay in it. They still take part in the warnings and
  the verdict. See `StaleEntryBlocksAll`.
- **The processor short-circuits.** One might expect every resolver to be invoked
  even after a failure. The Java `&&` at SegmentationProcessor.java:58 skips
  every resolver after the first one that returns false or throws. See
  `SegmentationProcessing.IsValidSegment` (`invoked`) and
  `SkippedMeansInvalid`.
- **Missing or empty host list.** One might expect a missing or empty host
  list to raise a configuration error.
  - In the code, an empty list is no error. No host is probed, and the
    verdict is taken over the existing map with a host count of 0.
  - A list that was never set (null) throws a `NullPointerException` from the
    loop at :87.
- **Probe failures.** One might expect every probe failure to be absorbed.
  `checkReachability` catches only `IOException` (:134). Two other failures
  escape `isValidSegment`:
  - `NetworkInterface.getByName` returns null for an unknown interface name,
    and the call to `isUp()` then throws a `NullPointerException`.
  - `isReachable` rejects a negative `ttl` or `timeout` with an
    `IllegalArgumentException`.

  A third failure, in `warnAllUnreachable`, also escapes: logging through a
  logger that `init` never set throws a `NullPointerException` as soon as
  there is an unreachable entry.
- **Duplicate hosts.** A host listed twice is one map key but counts twice
  in the QUORUM denominator (:145). See `DuplicateHostsBlockQuorum`.

## Model

| member | source | states |
|---|---|---|
| ReachableSegmentation.CheckReachability | src/main/java/com/github/bpark/ignite/plugins/segmentation/ReachableSegmentationResolver.java:124-139 | The probe throws exactly when the interface is missing (NullPointerException) or when isReachable gets a negative ttl or timeout (IllegalArgumentException). It yields true exactly when the echo is answered with valid arguments. A down interface or an IOException reads as false. |
| ReachableSegmentation.FirstFault | src/main/java/com/github/bpark/ignite/plugins/segmentation/ReachableSegmentationResolver.java:87-92 | The position where the probe loop stops: every earlier probe returns normally, and the probe at that position (if any) throws. |
| ReachableSegmentation.AnyMatch | src/main/java/com/github/bpark/ignite/plugins/segmentation/ReachableSegmentationResolver.java:143 | `anyMatch(i -> i)` is true iff some value is true. |
| ReachableSegmentation.AllMatch | src/main/java/com/github/bpark/ignite/plugins/segmentation/ReachableSegmentationResolver.java:144 | `allMatch(i -> i)` is true iff every value is true; the empty stream gives true. |
| ReachableSegmentation.CountTrue | src/main/java/com/github/bpark/ignite/plugins/segmentation/ReachableSegmentationResolver.java:145 | `filter(i -> i).count()` is at most the number of values. It is 0 iff no value is true, and it equals the number of values iff all are true. |
| ReachableSegmentation.Evaluate | src/main/java/com/github/bpark/ignite/plugins/segmentation/ReachableSegmentationResolver.java:141-147 | ONE: true iff some value is true. ALL: true iff all values are true. QUORUM: true iff twice the count of true values exceeds the host-list size, which is the same as count > size / 2 in integer division. |
| ReachableSegmentation.FalseKeysAlong | src/main/java/com/github/bpark/ignite/plugins/segmentation/ReachableSegmentationResolver.java:150-151 | The filter keeps exactly the keys mapped to false, and each of them only once when the keys are distinct. |
| ReachableSegmentation.UnreachableHosts | src/main/java/com/github/bpark/ignite/plugins/segmentation/ReachableSegmentationResolver.java:149-153 | The hosts warned about are exactly the map's keys whose value is false, each once. |
| ReachableSegmentation.CountAlong | src/main/java/com/github/bpark/ignite/plugins/segmentation/ReachableSegmentationResolver.java:145 | Counting true values along distinct keys equals the number of distinct keys mapped to true. |
| ReachableSegmentation.TrueCount | src/main/java/com/github/bpark/ignite/plugins/segmentation/ReachableSegmentationResolver.java:145 | The count of true values in `values()` is the number of map keys recorded as reachable. |
| ReachableSegmentation.OneMeansSomeReachable | src/main/java/com/github/bpark/ignite/plugins/segmentation/ReachableSegmentationResolver.java:143 | With ONE, the verdict is true iff some host in the map is recorded as reachable. |
| ReachableSegmentation.AllMeansEveryReachable | src/main/java/com/github/bpark/ignite/plugins/segmentation/ReachableSegmentationResolver.java:144 | With ALL, the verdict is true iff every host in the map is recorded as reachable; an empty map gives true. |
| ReachableSegmentation.QuorumMeansStrictMajority | src/main/java/com/github/bpark/ignite/plugins/segmentation/ReachableSegmentationResolver.java:145 | With QUORUM, the verdict is true iff more than size / 2 (integer division) of the map's keys are reachable, i.e. at least size / 2 + 1: 3 hosts need 2, 4 hosts need 3. |
| ReachableSegmentation.VerdictIgnoresOrder | src/main/java/com/github/bpark/ignite/plugins/segmentation/ReachableSegmentationResolver.java:141-147 | The verdict depends only on the map's entries, not on their insertion order. |
| ReachableSegmentation.FreshRunCountsReachableHosts | src/main/java/com/github/bpark/ignite/plugins/segmentation/ReachableSegmentationResolver.java:85-98 | On a first call over distinct hosts where no probe throws, the map lists the hosts in list order. The verdict is then the policy applied to the number of hosts reached: at least one, all, or more than half. |
| ReachableSegmentation.StaleEntryBlocksAll | src/main/java/com/github/bpark/ignite/plugins/segmentation/ReachableSegmentationResolver.java:82-92 | An unreachable entry left from an earlier call, for a host no longer in the list, makes every later ALL verdict false. |
| ReachableSegmentation.DuplicateHostsBlockQuorum | src/main/java/com/github/bpark/ignite/plugins/segmentation/ReachableSegmentationResolver.java:87-92 | With hosts [a, a, a, b] all reachable, QUORUM fails: at most two keys are reachable, and 2 > 4 / 2 is false. |
| ReachableSegmentation.EveryAnswerPassesAll | src/main/java/com/github/bpark/ignite/plugins/segmentation/ReachableSegmentationResolver.java:82-92 | When every entry already in the map is reachable and every probed host answers, ALL (:144) passes after the call, even though the map was not cleared. |
| LinkedMaps.Empty | src/main/java/com/github/bpark/ignite/plugins/segmentation/ReachableSegmentationResolver.java:82 | A new LinkedHashMap has no entries. |
| LinkedMaps.Put | src/main/java/com/github/bpark/ignite/plugins/segmentation/ReachableSegmentationResolver.java:91 | `put` maps the key to the value and keeps every other key and its value. The map stays well formed: each key appears once in the iteration order. |
| LinkedMaps.ValuesAlong | src/main/java/com/github/bpark/ignite/plugins/segmentation/ReachableSegmentationResolver.java:143-145 | The values met along a key sequence, one per key, in key order. |
| LinkedMaps.Values | src/main/java/com/github/bpark/ignite/plugins/segmentation/ReachableSegmentationResolver.java:143-145 | `values()` yields the value of each key, in iteration order. |
| LinkedMaps.Record | src/main/java/com/github/bpark/ignite/plugins/segmentation/ReachableSegmentationResolver.java:87-92 | The repeated `put`s of the probe loop keep the map well formed. |
| LinkedMaps.RecordPrefix | src/main/java/com/github/bpark/ignite/plugins/segmentation/ReachableSegmentationResolver.java:87-92 | One more loop iteration is one more `put`, after the earlier ones. |
| LinkedMaps.RecordFrame | src/main/java/com/github/bpark/ignite/plugins/segmentation/ReachableSegmentationResolver.java:82-92 | The loop removes no key. A key not in the current host list keeps its old value. The earlier iteration order stays in front. |
| LinkedMaps.RecordKeys | src/main/java/com/github/bpark/ignite/plugins/segmentation/ReachableSegmentationResolver.java:82-92 | Starting from any map, including one left by earlier calls, the loop adds no key except the probed hosts. |
| LinkedMaps.RecordAllTrue | src/main/java/com/github/bpark/ignite/plugins/segmentation/ReachableSegmentationResolver.java:82-92 | If every old entry and every probe outcome is true, every entry of the map is true after the loop. |
| LinkedMaps.RecordLastWins | src/main/java/com/github/bpark/ignite/plugins/segmentation/ReachableSegmentationResolver.java:87-92 | After the loop, every probed host is a key mapped to its outcome from this call. For a repeated host, the outcome of its last occurrence wins. |
| LinkedMaps.RecordFreshOrder | src/main/java/com/github/bpark/ignite/plugins/segmentation/ReachableSegmentationResolver.java:82-92 | From an empty map, distinct hosts are iterated in list order. |
| LinkedMaps.RecordFresh | src/main/java/com/github/bpark/ignite/plugins/segmentation/ReachableSegmentationResolver.java:82-92 | From an empty map with distinct hosts, `values()` is exactly the list of probe outcomes, in list order. |
| ReachableSegmentation.ReachableSegmentationResolver.constructor | src/main/java/com/github/bpark/ignite/plugins/segmentation/ReachableSegmentationResolver.java:64-82 | The defaults: interface "eth0", timeout 200, ttl 0, consistency QUORUM. There is no host list and no logger, and the map is empty. |
| ReachableSegmentation.ReachableSegmentationResolver.SetTopologyHosts | src/main/java/com/github/bpark/ignite/plugins/segmentation/ReachableSegmentationResolver.java:100-102 | Sets the host list; no other field changes. |
| ReachableSegmentation.ReachableSegmentationResolver.SetNetworkInterface | src/main/java/com/github/bpark/ignite/plugins/segmentation/ReachableSegmentationResolver.java:104-106 | Sets the interface name; no other field changes. |
| ReachableSegmentation.ReachableSegmentationResolver.SetTimeout | src/main/java/com/github/bpark/ignite/plugins/segmentation/ReachableSegmentationResolver.java:108-110 | Sets the timeout; no other field changes. |
| ReachableSegmentation.ReachableSegmentationResolver.SetTtl | src/main/java/com/github/bpark/ignite/plugins/segmentation/ReachableSegmentationResolver.java:112-114 | Sets the ttl; no other field changes. |
| ReachableSegmentation.ReachableSegmentationResolver.SetConsistency | src/main/java/com/github/bpark/ignite/plugins/segmentation/ReachableSegmentationResolver.java:116-118 | Sets the policy; no other field changes. |
| ReachableSegmentation.ReachableSegmentationResolver.Init | src/main/java/com/github/bpark/ignite/plugins/segmentation/ReachableSegmentationResolver.java:120-122 | After init the resolver has a logger. |
| ReachableSegmentation.ReachableSegmentationResolver.PutReachability | src/main/java/com/github/bpark/ignite/plugins/segmentation/ReachableSegmentationResolver.java:91 | `reachableMap.put` updates the field as `LinkedMaps.Put` and keeps it well formed. |
| ReachableSegmentation.ReachableSegmentationResolver.WarnAllUnreachable | src/main/java/com/github/bpark/ignite/plugins/segmentation/ReachableSegmentationResolver.java:149-153 | Appends one alert per unreachable map entry to the log. Without a logger, any unreachable entry throws a NullPointerException and nothing is logged. |
| ReachableSegmentation.ReachableSegmentationResolver.ProbeAll | src/main/java/com/github/bpark/ignite/plugins/segmentation/ReachableSegmentationResolver.java:87-92 | The probe loop. The map becomes the old map with the outcomes of the hosts before the first throwing probe put in list order. It returns that probe's exception, or none when every probe returns. |
| ReachableSegmentation.ReachableSegmentationResolver.IsValidSegment | src/main/java/com/github/bpark/ignite/plugins/segmentation/ReachableSegmentationResolver.java:85-98 | A null host list throws a NullPointerException and changes nothing. A throwing probe propagates its exception, with the earlier outcomes recorded and nothing logged. Otherwise every host is recorded, the unreachable entries are warned about, and the verdict is `Evaluate` over the whole map's values with the host-list size. |
| SegmentationProcessing.Accumulate | src/main/java/com/github/bpark/ignite/plugins/segmentation/SegmentationProcessor.java:56-62 | The accumulated verdict only goes from true to false, never back. It ends true iff it starts true and every remaining resolver returns true without throwing. |
| SegmentationProcessing.InvokedCount | src/main/java/com/github/bpark/ignite/plugins/segmentation/SegmentationProcessor.java:58 | The number of resolvers called: all of them, or those up to and including the first that returns false or throws. |
| SegmentationProcessing.SkippedMeansInvalid | src/main/java/com/github/bpark/ignite/plugins/segmentation/SegmentationProcessor.java:56-62 | A true verdict means every resolver was called. A skipped resolver means the verdict is false. |
| SegmentationProcessing.InvokedCountPrefix | src/main/java/com/github/bpark/ignite/plugins/segmentation/SegmentationProcessor.java:58 | A loop iteration calls its resolver exactly when all the earlier resolvers passed. |
| SegmentationProcessing.IsValidSegment | src/main/java/com/github/bpark/ignite/plugins/segmentation/SegmentationProcessor.java:52-69 | The verdict is true iff every resolver returns true without throwing; with no resolvers it is true. The resolvers called are positions 0, 1, ... in order, up to and including the first failure. The notice "Network segmentation detected!" is logged once iff the verdict is false. |

## Left out

- Real network probing. `NetworkInterface.getByName`, `isUp`,
  `InetAddress.getByName` and `isReachable` are operating-system I/O. Each
  probe is an oracle value (`Probe`), given one per position of the host
  list, so a repeated host may answer differently each time. The timeout and
  ttl matter only through the negative-argument check.
- Loggers. The resolver's logger is a flag (`hasLogger`, set by `Init`) plus
  the list of error lines logged (`alerts`). The processor's info lines are
  returned as a sequence. The Ignite kernel context that supplies the loggers
  is not part of this model.
- The `SegmentationProcessor` constructor (SegmentationProcessor.java:38-49).
  It reads the Ignite configuration and uses reflection to call `init`. The
  processor model takes the resolvers' behaviour as `answers`, one per
  element of the array in order. Because the constructor already iterates
  over the array, a null array is not modelled.
- A `java.lang.Error` thrown by a resolver (for example a
  `StackOverflowError`). The catch clause at SegmentationProcessor.java:59
  catches only `Exception`, so an `Error` would propagate out of
  `isValidSegment` and no notice would be logged. `Answer.Threw` stands for an
  `Exception` only, and the model has no answer for an `Error`.
- Other `SegmentationResolver` implementations. Only what their
  `isValidSegment` returns or throws is modelled (`Answer`).
- SegmentationPluginProvider.java: plugin registration plumbing, not part of
  this model.
- Null arguments to the setters (a null host element, a null interface name,
  a null consistency policy). The model's types exclude them. A null policy
  would make `evaluate`'s switch throw.
- `setTopologyHosts` stores the caller's list by reference. The model copies
  the value, so a later change to the caller's list is not seen.
- ReachableSegmentation.UnreachableHosts: the order of the warnings (map
  iteration order) is stated only by `FalseKeysAlong`'s definition, not as
  an `ensures` clause.
- Concurrency: the code has none, and none is modelled.
