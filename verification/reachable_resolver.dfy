/**
 * ReachableSegmentationResolver: probes every configured host, records each
 * outcome in a LinkedHashMap that lives as long as the resolver, warns about
 * every unreachable entry and judges the segment by a consistency policy.
 */
module ReachableSegmentation {
  import opened Outcomes
  import opened LinkedMaps

  /** How many probed hosts must answer for the segment to be valid. */
  datatype Consistency = ONE | QUORUM | ALL

  /** Java's int. */
  newtype int32 = x: int | -0x8000_0000 <= x < 0x8000_0000

  const DEFAULT_TIMEOUT: int32 := 200
  const DEFAULT_TTL: int32 := 0
  const DEFAULT_NETWORK_INTERFACE: string := "eth0"
  const ALERT_PREFIX: string := "Segmentation Alert: detected unreachable host: "

  /**
   * What the network does during one probe of one host through the configured
   * interface: the JDK calls NetworkInterface.getByName, isUp,
   * InetAddress.getByName and isReachable, abstracted to their outcome.
   */
  datatype Probe =
    | NoSuchInterface          // getByName returns null
    | InterfaceLookupFailed    // getByName or isUp throws a SocketException
    | InterfaceDown            // isUp returns false
    | UnknownHost              // InetAddress.getByName throws an UnknownHostException
    | Echo(answered: bool)     // isReachable returns
    | EchoFailed               // isReachable throws an IOException

  /** True when the probe gets as far as calling isReachable. */
  predicate CallsIsReachable(p: Probe) {
    p.Echo? || p.EchoFailed?
  }

  /**
   * checkReachability: an IOException or a down interface reads as unreachable;
   * a missing interface (null) and a negative ttl or timeout (rejected by
   * isReachable before probing) throw, and the exception is not caught.
   */
  function CheckReachability(p: Probe, ttl: int32, timeout: int32): (r: Result<bool>)
    ensures r.Err? <==> p.NoSuchInterface? || (CallsIsReachable(p) && (ttl < 0 || timeout < 0))
    ensures r.Err? && p.NoSuchInterface? ==> r.fault == NullPointer
    ensures r.Err? && !p.NoSuchInterface? ==> r.fault == IllegalArgument
    ensures r == Ok(true) <==> p == Echo(true) && ttl >= 0 && timeout >= 0
  {
    match p
    case NoSuchInterface => Err(NullPointer)
    case InterfaceLookupFailed => Ok(false)
    case InterfaceDown => Ok(false)
    case UnknownHost => Ok(false)
    case Echo(answered) =>
      if ttl < 0 || timeout < 0 then Err(IllegalArgument) else Ok(answered)
    case EchoFailed =>
      if ttl < 0 || timeout < 0 then Err(IllegalArgument) else Ok(false)
  }

  /** The reachability recorded for each probe, when none of them throws. */
  function ProbeResults(probes: seq<Probe>, ttl: int32, timeout: int32): seq<bool> {
    seq(|probes|, i requires 0 <= i < |probes| => CheckReachability(probes[i], ttl, timeout) == Ok(true))
  }

  /** The position of the first probe that throws, or the number of probes when none does. */
  function FirstFault(probes: seq<Probe>, ttl: int32, timeout: int32): (k: nat)
    ensures k <= |probes|
    ensures forall j :: 0 <= j < k ==> CheckReachability(probes[j], ttl, timeout).Ok?
    ensures k < |probes| ==> CheckReachability(probes[k], ttl, timeout).Err?
  {
    if probes == [] then 0
    else if CheckReachability(probes[0], ttl, timeout).Err? then 0
    else 1 + FirstFault(probes[1..], ttl, timeout)
  }

  // ----- The stream operations of evaluate() over values() -----

  /** values().stream().anyMatch(i -> i) */
  function AnyMatch(vs: seq<bool>): (r: bool)
    ensures r <==> exists i :: 0 <= i < |vs| && vs[i]
  {
    if vs == [] then false else vs[0] || AnyMatch(vs[1..])
  }

  /** values().stream().allMatch(i -> i) */
  function AllMatch(vs: seq<bool>): (r: bool)
    ensures r <==> forall i :: 0 <= i < |vs| ==> vs[i]
  {
    if vs == [] then true else vs[0] && AllMatch(vs[1..])
  }

  /** values().stream().filter(i -> i).count() */
  function CountTrue(vs: seq<bool>): (r: nat)
    ensures r <= |vs|
    ensures r == 0 <==> forall i :: 0 <= i < |vs| ==> !vs[i]
    ensures r == |vs| <==> forall i :: 0 <= i < |vs| ==> vs[i]
  {
    if vs == [] then 0 else (if vs[0] then 1 else 0) + CountTrue(vs[1..])
  }

  /** evaluate(): the verdict of a consistency policy over the map's values and the host-list size. */
  function Evaluate(c: Consistency, vs: seq<bool>, hostCount: nat): (r: bool)
    ensures c == ONE ==> (r <==> exists i :: 0 <= i < |vs| && vs[i])
    ensures c == ALL ==> (r <==> forall i :: 0 <= i < |vs| ==> vs[i])
    ensures c == QUORUM ==> (r <==> 2 * CountTrue(vs) > hostCount)
  {
    match c
    case ONE => AnyMatch(vs)
    case ALL => AllMatch(vs)
    case QUORUM => CountTrue(vs) > hostCount / 2
  }

  /**
   * The policies stated on the number of reachable hosts alone: at least
   * one, every one, or more than half.
   */
  predicate PolicyHolds(c: Consistency, reachable: nat, hostCount: nat) {
    match c
    case ONE => reachable >= 1
    case ALL => reachable == hostCount
    case QUORUM => reachable > hostCount / 2
  }

  /** The entrySet() filter of warnAllUnreachable, over `keys` in order. */
  function FalseKeysAlong(keys: seq<string>, m: map<string, bool>): (r: seq<string>)
    requires forall k :: k in keys ==> k in m
    ensures forall i :: 0 <= i < |r| ==> r[i] in keys && !m[r[i]]
    ensures forall i :: 0 <= i < |keys| && !m[keys[i]] ==> keys[i] in r
    ensures Distinct(keys) ==> Distinct(r)
    decreases |keys|
  {
    if keys == [] then []
    else
      var n := |keys| - 1;
      var init := keys[..n];
      assert forall k :: k in init ==> k in keys;
      var front := FalseKeysAlong(init, m);
      assert forall i :: 0 <= i < n ==> init[i] == keys[i];
      if m[keys[n]] then front
      else
        assert Distinct(keys) ==> keys[n] !in front by {
          if Distinct(keys) {
            forall i | 0 <= i < |front| ensures front[i] != keys[n] {
              var j :| 0 <= j < n && init[j] == front[i];
            }
          }
        }
        front + [keys[n]]
  }

  /** The hosts warned about: every key mapped to false, each once, in iteration order. */
  function UnreachableHosts(t: LinkedMap<string>): (r: seq<string>)
    requires t.WellFormed()
    ensures forall i :: 0 <= i < |r| ==> r[i] in t.entries && !t.entries[r[i]]
    ensures forall k :: k in t.entries && !t.entries[k] ==> k in r
    ensures Distinct(r)
  {
    var r := FalseKeysAlong(t.order, t.entries);
    assert forall k :: k in t.entries && !t.entries[k] ==> k in r by {
      forall k | k in t.entries && !t.entries[k] ensures k in r {
        var i :| 0 <= i < |t.order| && t.order[i] == k;
      }
    }
    r
  }

  /** The log lines written for the unreachable hosts. */
  function AlertLines(hosts: seq<string>): seq<string> {
    seq(|hosts|, i requires 0 <= i < |hosts| => ALERT_PREFIX + hosts[i])
  }

  // ----- What the verdict means for the map -----

  /** Counting true values along distinct keys counts the distinct keys mapped to true. */
  lemma {:induction false} CountAlong(keys: seq<string>, m: map<string, bool>)
    requires Distinct(keys)
    requires forall k :: k in keys ==> k in m
    ensures CountTrue(ValuesAlong(keys, m)) == |TrueKeysAlong(keys, m)|
  {
    if keys != [] {
      var rest := keys[1..];
      DistinctTail(keys);
      InCons(keys);
      CountAlong(rest, m);
      ValuesAlongCons(keys, m);
      var head: set<string> := if m[keys[0]] then {keys[0]} else {};
      assert TrueKeysAlong(keys, m) == head + TrueKeysAlong(rest, m);
      assert head !! TrueKeysAlong(rest, m);
    }
  }

  /** The count of true values is the number of hosts in the map recorded as reachable. */
  lemma TrueCount(t: LinkedMap<string>)
    requires t.WellFormed()
    ensures CountTrue(Values(t)) == |TrueKeys(t.entries)|
  {
    CountAlong(t.order, t.entries);
    assert TrueKeysAlong(t.order, t.entries) == TrueKeys(t.entries);
  }

  /** ONE holds iff some host in the map is recorded as reachable. */
  lemma OneMeansSomeReachable(t: LinkedMap<string>, hostCount: nat)
    requires t.WellFormed()
    ensures Evaluate(ONE, Values(t), hostCount) <==> exists k :: k in t.entries && t.entries[k]
  {
  }

  /** ALL holds iff every host in the map is recorded as reachable; an empty map passes. */
  lemma AllMeansEveryReachable(t: LinkedMap<string>, hostCount: nat)
    requires t.WellFormed()
    ensures Evaluate(ALL, Values(t), hostCount) <==> forall k :: k in t.entries ==> t.entries[k]
    ensures t.entries == map[] ==> Evaluate(ALL, Values(t), hostCount)
  {
  }

  /**
   * QUORUM holds iff more than hostCount / 2 (integer division) of the hosts
   * in the map are recorded as reachable: 3 hosts need 2, 4 hosts need 3.
   */
  lemma QuorumMeansStrictMajority(t: LinkedMap<string>, hostCount: nat)
    requires t.WellFormed()
    ensures Evaluate(QUORUM, Values(t), hostCount) <==> |TrueKeys(t.entries)| > hostCount / 2
    ensures Evaluate(QUORUM, Values(t), hostCount) <==> |TrueKeys(t.entries)| >= hostCount / 2 + 1
  {
    TrueCount(t);
  }

  /** The verdict depends on the map's contents, not on the order in which its keys were inserted. */
  lemma VerdictIgnoresOrder(c: Consistency, t: LinkedMap<string>, u: LinkedMap<string>, hostCount: nat)
    requires t.WellFormed() && u.WellFormed()
    requires t.entries == u.entries
    ensures Evaluate(c, Values(t), hostCount) == Evaluate(c, Values(u), hostCount)
  {
    match c
    case ONE =>
      OneMeansSomeReachable(t, hostCount);
      OneMeansSomeReachable(u, hostCount);
    case ALL =>
      AllMeansEveryReachable(t, hostCount);
      AllMeansEveryReachable(u, hostCount);
    case QUORUM =>
      QuorumMeansStrictMajority(t, hostCount);
      QuorumMeansStrictMajority(u, hostCount);
  }

  /**
   * On a first call over distinct hosts where no probe throws, the map holds
   * one entry per host, in list order, and the verdict depends only on how
   * many hosts were reached.
   */
  lemma FreshRunCountsReachableHosts(c: Consistency, hosts: seq<string>, probes: seq<Probe>, ttl: int32, timeout: int32)
    requires Distinct(hosts) && |probes| == |hosts|
    requires FirstFault(probes, ttl, timeout) == |hosts|
    ensures Record(Empty(), hosts, ProbeResults(probes, ttl, timeout)).order == hosts
    ensures Evaluate(c, Values(Record(Empty(), hosts, ProbeResults(probes, ttl, timeout))), |hosts|)
            == PolicyHolds(c, CountTrue(ProbeResults(probes, ttl, timeout)), |hosts|)
  {
    var outcomes := ProbeResults(probes, ttl, timeout);
    RecordFresh(hosts, outcomes);
  }

  /**
   * A host that was unreachable on an earlier call and is no longer in the
   * host list stays in the map, so ALL can never pass again.
   */
  lemma StaleEntryBlocksAll(t: LinkedMap<string>, hosts: seq<string>, outcomes: seq<bool>, gone: string, hostCount: nat)
    requires t.WellFormed() && |hosts| == |outcomes|
    requires gone in t.entries && !t.entries[gone] && gone !in hosts
    ensures !Evaluate(ALL, Values(Record(t, hosts, outcomes)), hostCount)
  {
    RecordFrame(t, hosts, outcomes);
    AllMeansEveryReachable(Record(t, hosts, outcomes), hostCount);
  }

  /**
   * Duplicate hosts collapse to one key but still count in the list size:
   * with hosts [a, a, a, b] every host answers and QUORUM still fails
   * (at most 2 reachable keys, and 2 > 4 / 2 is false).
   */
  lemma DuplicateHostsBlockQuorum(a: string, b: string)
    ensures !Evaluate(QUORUM, Values(Record(Empty(), [a, a, a, b], [true, true, true, true])), 4)
  {
    var hosts := [a, a, a, b];
    var vals := [true, true, true, true];
    FreshKeysAmong(hosts, vals, a, b);
    TwoKeysFailQuorumOfFour(Record(Empty(), hosts, vals), a, b);
  }

  /** A map with no key but a and b cannot reach a quorum of four hosts. */
  lemma TwoKeysFailQuorumOfFour(t: LinkedMap<string>, a: string, b: string)
    requires t.WellFormed()
    requires forall k :: k in t.entries ==> k == a || k == b
    ensures !Evaluate(QUORUM, Values(t), 4)
  {
    var withA: set<string> := if a in TrueKeys(t.entries) then {a} else {};
    var withB: set<string> := if b in TrueKeys(t.entries) then {b} else {};
    assert TrueKeys(t.entries) == withA + withB;
    assert |withA + withB| <= |withA| + |withB|;
    QuorumMeansStrictMajority(t, 4);
  }

  /** Starting from an empty map, recording only the hosts a and b leaves no other key. */
  lemma FreshKeysAmong(hosts: seq<string>, vals: seq<bool>, a: string, b: string)
    requires |hosts| == |vals|
    requires forall i :: 0 <= i < |hosts| ==> hosts[i] == a || hosts[i] == b
    ensures forall k :: k in Record(Empty(), hosts, vals).entries ==> k == a || k == b
  {
    RecordKeys(Empty(), hosts, vals);
    forall k | k in Record(Empty(), hosts, vals).entries ensures k == a || k == b {
      var j :| 0 <= j < |hosts| && hosts[j] == k;
    }
  }

  /**
   * When every stale entry of the map is reachable and every probed host
   * answers, ALL passes: the loop adds no key but the probed hosts.
   */
  lemma EveryAnswerPassesAll(t: LinkedMap<string>, hosts: seq<string>, outcomes: seq<bool>, hostCount: nat)
    requires t.WellFormed() && |hosts| == |outcomes|
    requires forall k :: k in t.entries ==> t.entries[k]
    requires forall i :: 0 <= i < |outcomes| ==> outcomes[i]
    ensures Evaluate(ALL, Values(Record(t, hosts, outcomes)), hostCount)
  {
    RecordAllTrue(t, hosts, outcomes);
    AllMeansEveryReachable(Record(t, hosts, outcomes), hostCount);
  }

  // ----- The resolver object -----

  class ReachableSegmentationResolver {
    var networkInterface: string
    var timeout: int32
    var ttl: int32
    var topologyHosts: Option<seq<string>>
    var consistency: Consistency
    /** Whether init has given the resolver a logger; without one, logging throws. */
    var hasLogger: bool
    /** reachableMap: never cleared, so it also holds the hosts of earlier calls. */
    var reachableMap: map<string, bool>
    /** The iteration order of reachableMap. */
    var mapOrder: seq<string>
    /** The error lines logged so far. */
    var alerts: seq<string>

    function Table(): LinkedMap<string>
      reads this`reachableMap, this`mapOrder
    {
      LinkedMap(mapOrder, reachableMap)
    }

    predicate Valid()
      reads this`reachableMap, this`mapOrder
    {
      Table().WellFormed()
    }

    /** A resolver with the documented defaults, no host list and an empty map. */
    constructor ()
      ensures Valid()
      ensures networkInterface == DEFAULT_NETWORK_INTERFACE
      ensures timeout == DEFAULT_TIMEOUT && ttl == DEFAULT_TTL
      ensures consistency == QUORUM
      ensures topologyHosts == None && !hasLogger
      ensures reachableMap == map[] && mapOrder == [] && alerts == []
    {
      networkInterface := DEFAULT_NETWORK_INTERFACE;
      timeout := DEFAULT_TIMEOUT;
      ttl := DEFAULT_TTL;
      topologyHosts := None;
      consistency := QUORUM;
      hasLogger := false;
      reachableMap := map[];
      mapOrder := [];
      alerts := [];
    }

    method SetTopologyHosts(hosts: seq<string>)
      modifies this`topologyHosts
      ensures topologyHosts == Some(hosts)
    {
      topologyHosts := Some(hosts);
    }

    method SetNetworkInterface(name: string)
      modifies this`networkInterface
      ensures networkInterface == name
    {
      networkInterface := name;
    }

    method SetTimeout(millis: int32)
      modifies this`timeout
      ensures timeout == millis
    {
      timeout := millis;
    }

    method SetTtl(hops: int32)
      modifies this`ttl
      ensures ttl == hops
    {
      ttl := hops;
    }

    method SetConsistency(policy: Consistency)
      modifies this`consistency
      ensures consistency == policy
    {
      consistency := policy;
    }

    /** init: obtains the logger from the kernel context. */
    method Init()
      modifies this`hasLogger
      ensures hasLogger
    {
      hasLogger := true;
    }

    /** reachableMap.put(host, reachable) */
    method PutReachability(host: string, reachable: bool)
      requires Valid()
      modifies this`reachableMap, this`mapOrder
      ensures Valid()
      ensures Table() == LinkedMaps.Put(old(Table()), host, reachable)
    {
      if host !in reachableMap {
        mapOrder := mapOrder + [host];
      }
      reachableMap := reachableMap[host := reachable];
    }

    /**
     * warnAllUnreachable: one error line per key mapped to false, in map
     * order. Without a logger the first such line throws a NullPointerException
     * and nothing is logged.
     */
    method WarnAllUnreachable() returns (thrown: Option<Fault>)
      requires Valid()
      modifies this`alerts
      ensures var unreachable := UnreachableHosts(Table());
        if !hasLogger && unreachable != [] then
          thrown == Some(NullPointer) && alerts == old(alerts)
        else
          thrown == None && alerts == old(alerts) + AlertLines(unreachable)
    {
      var unreachable := UnreachableHosts(Table());
      if !hasLogger && unreachable != [] {
        return Some(NullPointer);
      }
      alerts := alerts + AlertLines(unreachable);
      thrown := None;
    }

    /**
     * The loop of isValidSegment: probes[i] is what the network does when
     * hosts[i] is probed. Hosts are probed in list order and each outcome is
     * put into the map as it comes; an exception from a probe ends the loop
     * with the earlier outcomes already recorded, and is returned.
     */
    method ProbeAll(hosts: seq<string>, probes: seq<Probe>) returns (thrown: Option<Fault>)
      requires Valid()
      requires |probes| == |hosts|
      modifies this`reachableMap, this`mapOrder
      ensures Valid()
      ensures var k := FirstFault(probes, ttl, timeout);
        Table() == Record(old(Table()), hosts[..k], ProbeResults(probes, ttl, timeout)[..k])
      ensures thrown.None? <==> FirstFault(probes, ttl, timeout) == |hosts|
      ensures thrown.Some? ==>
        Err(thrown.value) == CheckReachability(probes[FirstFault(probes, ttl, timeout)], ttl, timeout)
    {
      var hops, millis := ttl, timeout;
      ghost var start := Table();
      ghost var outcomes := ProbeResults(probes, hops, millis);
      var i := 0;
      while i < |hosts|
        invariant 0 <= i <= |hosts|
        invariant i <= FirstFault(probes, hops, millis)
        invariant Table() == Record(start, hosts[..i], outcomes[..i])
      {
        var reachable := CheckReachability(probes[i], hops, millis);
        if reachable.Err? {
          assert FirstFault(probes, hops, millis) == i;
          assert Table() == Record(start, hosts[..i], outcomes[..i]);
          return Some(reachable.fault);
        }
        PutReachability(hosts[i], reachable.value);
        RecordPrefix(start, hosts, outcomes, i);
        i := i + 1;
      }
      assert FirstFault(probes, hops, millis) == i;
      assert Table() == Record(start, hosts[..i], outcomes[..i]);
      thrown := None;
    }

    /**
     * isValidSegment: probes[i] is what the network does when the i-th host of
     * the list is probed. A missing host list throws a NullPointerException.
     * Otherwise every host is probed and recorded (see ProbeAll); when no probe
     * throws, every unreachable entry of the map is warned about and the
     * consistency policy judges the values of the whole map.
     */
    method IsValidSegment(probes: seq<Probe>) returns (r: Result<bool>)
      requires Valid()
      requires topologyHosts.Some? ==> |probes| == |topologyHosts.value|
      modifies this`reachableMap, this`mapOrder, this`alerts
      ensures Valid()
      ensures topologyHosts.None? ==>
        r == Err(NullPointer) && Table() == old(Table()) && alerts == old(alerts)
      ensures topologyHosts.Some? ==>
        Table() == Record(old(Table()), topologyHosts.value[..FirstFault(probes, ttl, timeout)],
                          ProbeResults(probes, ttl, timeout)[..FirstFault(probes, ttl, timeout)])
      ensures topologyHosts.Some? && FirstFault(probes, ttl, timeout) < |probes| ==>
        r == CheckReachability(probes[FirstFault(probes, ttl, timeout)], ttl, timeout) && alerts == old(alerts)
      ensures topologyHosts.Some? && FirstFault(probes, ttl, timeout) == |probes| ==>
        if !hasLogger && UnreachableHosts(Table()) != [] then
          r == Err(NullPointer) && alerts == old(alerts)
        else
          && alerts == old(alerts) + AlertLines(UnreachableHosts(Table()))
          && r == Ok(Evaluate(consistency, Values(Table()), |probes|))
    {
      if topologyHosts.None? {
        return Err(NullPointer);
      }
      ghost var before := Table();
      var failure := ProbeAll(topologyHosts.value, probes);
      ghost var k := FirstFault(probes, ttl, timeout);
      ghost var recorded := Table();
      assert recorded == Record(before, topologyHosts.value[..k], ProbeResults(probes, ttl, timeout)[..k]);
      if failure.Some? {
        return Err(failure.value);
      }
      var thrown := WarnAllUnreachable();
      assert Table() == recorded;
      if thrown.Some? {
        return Err(thrown.value);
      }
      r := Ok(Evaluate(consistency, Values(Table()), |topologyHosts.value|));
    }
  }
}
