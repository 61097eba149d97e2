/**
  One tick of the TCP gateway's liveness sweep: every registered address
  whose last-activity record is more than ten seconds old is shut down and
  dropped from the registry, and its session-index entries are cleaned up
  when the shutdown succeeds.

  The registry is the set of registered addresses, the liveness records are
  a string-to-string map, and the shutdown outcome is the set `failures`
  of addresses whose shutdown returns an error. The source reads the clock
  afresh for each address it visits; `clock(a)` is the reading taken while
  visiting `a`.
 */
module LivenessSweep {
  import opened Wrappers
  import opened Decimal
  import opened Ascii
  import opened SessionIndex

  /** Seconds of silence after which a connection is stale. */
  const STALE_AFTER: int := 10

  const LIVENESS_PREFIX: string := "tcp:last:"

  /** `tcp:last:` followed by the address with every ':' replaced by '@'. */
  function LivenessKey(address: string): (k: string)
    ensures |k| == |LIVENESS_PREFIX| + |address|
    ensures k[..|LIVENESS_PREFIX|] == LIVENESS_PREFIX
    ensures ':' !in k[|LIVENESS_PREFIX|..]
    ensures k[|LIVENESS_PREFIX|..] == ReplaceChar(address, ':', '@')
  {
    var k := LIVENESS_PREFIX + ReplaceChar(address, ':', '@');
    assert k[|LIVENESS_PREFIX|..] == ReplaceChar(address, ':', '@');
    k
  }

  /** Socket addresses never contain '@', so on them the key determines the address. */
  lemma LivenessKeyInjective(a: string, b: string)
    requires '@' !in a && '@' !in b
    ensures LivenessKey(a) == LivenessKey(b) <==> a == b
  {
    if LivenessKey(a) == LivenessKey(b) {
      assert ReplaceChar(a, ':', '@') == LivenessKey(a)[|LIVENESS_PREFIX|..];
      assert ReplaceChar(b, ':', '@') == LivenessKey(b)[|LIVENESS_PREFIX|..];
      ReplaceCharRoundTrip(a, ':', '@');
      ReplaceCharRoundTrip(b, ':', '@');
    }
  }

  /** The parsed last-activity timestamp, when the record exists and parses. */
  function LastActive(liveness: map<string, string>, address: string): (r: Option<I64>)
    ensures LivenessKey(address) !in liveness ==> r.None?
    ensures LivenessKey(address) in liveness ==> r == ParseI64(liveness[LivenessKey(address)])
  {
    var key := LivenessKey(address);
    if key in liveness then ParseI64(liveness[key]) else None
  }

  /** A timestamp stored in decimal under an address's liveness key reads back unchanged. */
  lemma LastActiveReadsWritten(liveness: map<string, string>, address: string, t: I64)
    ensures LastActive(liveness[LivenessKey(address) := IntToString(t)], address) == Some(t)
  {
    ParseI64RoundTrip(t);
  }

  /** Writing another address's record leaves this address's timestamp as it was. */
  lemma LastActiveIgnoresOtherAddresses(liveness: map<string, string>, address: string, other: string, v: string)
    requires '@' !in address && '@' !in other && address != other
    ensures LastActive(liveness[LivenessKey(other) := v], address) == LastActive(liveness, address)
  {
    LivenessKeyInjective(address, other);
  }

  /** The address's record exists, parses, and is more than ten seconds old. */
  predicate IsStale(liveness: map<string, string>, now: I64, address: string)
    ensures IsStale(liveness, now, address) ==> LastActive(liveness, address).Some?
  {
    match LastActive(liveness, address)
    case None => false
    case Some(last) => now - last > STALE_AFTER
  }

  /** The addresses the sweep marks for removal. */
  function Marked(registry: set<string>, liveness: map<string, string>, clock: string -> I64): set<string> {
    set a | a in registry && IsStale(liveness, clock(a), a)
  }

  /** The devices the address-to-device map assigns to the given addresses. */
  function DevicesOf(byAddress: map<string, string>, addresses: set<string>): set<string> {
    set a | a in addresses && a in byAddress :: byAddress[a]
  }

  /** `cleanup_connection` for every address of a set, in one step. */
  function CleanupAll(store: HashStore, node: string, addresses: set<string>): HashStore {
    var byAddress := HashAt(store, AddressToDeviceKey(node));
    DeleteFields(DeleteFields(store, DeviceToAddressKey(node), DevicesOf(byAddress, addresses)), AddressToDeviceKey(node), addresses)
  }

  /** Cleaning no address leaves the store as it was. */
  lemma CleanupAllNothing(store: HashStore, node: string)
    ensures CleanupAll(store, node, {}) == store
  {
    IndexKeysDistinct(node, node);
    var byAddress := HashAt(store, AddressToDeviceKey(node));
    assert DevicesOf(byAddress, {}) == {};
    forall key | key in store
      ensures store[key := store[key] - {}] == store
    {
      assert store[key] - {} == store[key];
    }
  }

  datatype SweepResult = SweepResult(registry: set<string>, store: HashStore)

  /**
    One sweep: the stale addresses leave the registry, and those whose
    shutdown succeeded are cleaned out of the node's session index.
   */
  function Sweep(registry: set<string>, liveness: map<string, string>, clock: string -> I64, failures: set<string>, store: HashStore, node: string)
    : (r: SweepResult)
    ensures r.registry <= registry
    ensures forall a :: a in registry ==> (a in r.registry <==> !IsStale(liveness, clock(a), a))
    ensures var byAddress := HashAt(store, AddressToDeviceKey(node));
            forall a :: a in byAddress ==>
              (a in HashAt(r.store, AddressToDeviceKey(node)) <==> !(a in registry && IsStale(liveness, clock(a), a) && a !in failures))
    ensures var cleaned := Marked(registry, liveness, clock) - failures;
            var byAddress := HashAt(store, AddressToDeviceKey(node));
            && HashAt(r.store, AddressToDeviceKey(node)) == byAddress - cleaned
            && HashAt(r.store, DeviceToAddressKey(node)) == HashAt(store, DeviceToAddressKey(node)) - DevicesOf(byAddress, cleaned)
    ensures forall k :: k != AddressToDeviceKey(node) && k != DeviceToAddressKey(node) ==> HashAt(r.store, k) == HashAt(store, k)
  {
    IndexKeysDistinct(node, node);
    var marked := Marked(registry, liveness, clock);
    SweepResult(registry - marked, CleanupAll(store, node, marked - failures))
  }

  /** Cleaning one more address is the same as cleaning the enlarged set at once. */
  lemma CleanupAllStep(store: HashStore, node: string, done: set<string>, address: string)
    requires address !in done
    ensures CleanupConnection(CleanupAll(store, node, done), node, address) == CleanupAll(store, node, done + {address})
  {
    IndexKeysDistinct(node, node);
    var fk, rk := AddressToDeviceKey(node), DeviceToAddressKey(node);
    var byAddress := HashAt(store, fk);
    if address in byAddress {
      assert DevicesOf(byAddress, done + {address}) == DevicesOf(byAddress, done) + {byAddress[address]};
      if rk in store {
        assert store[rk] - DevicesOf(byAddress, done) - {byAddress[address]} == store[rk] - DevicesOf(byAddress, done + {address});
      }
      assert byAddress - done - {address} == byAddress - (done + {address});
    } else {
      assert DevicesOf(byAddress, done + {address}) == DevicesOf(byAddress, done);
      if fk in store {
        assert store[fk] - done == store[fk] - (done + {address});
      }
    }
  }

  /** Visiting one more address adds it to the marked set exactly when it is stale. */
  lemma MarkedStep(visited: set<string>, liveness: map<string, string>, clock: string -> I64, address: string)
    requires address !in visited
    ensures Marked(visited + {address}, liveness, clock)
         == Marked(visited, liveness, clock) + (if IsStale(liveness, clock(address), address) then {address} else {})
  {
  }

  /** Marking a stale address cleans it up exactly when its shutdown succeeded. */
  lemma VisitStale(store: HashStore, node: string, disconnected: set<string>, failures: set<string>, address: string)
    requires address !in disconnected
    ensures var before := CleanupAll(store, node, disconnected - failures);
            var after := if address !in failures then CleanupConnection(before, node, address) else before;
            after == CleanupAll(store, node, (disconnected + {address}) - failures)
  {
    if address !in failures {
      CleanupAllStep(store, node, disconnected - failures, address);
      assert (disconnected + {address}) - failures == (disconnected - failures) + {address};
    } else {
      assert (disconnected + {address}) - failures == disconnected - failures;
    }
  }

  /** One visit of the sweep keeps the marked set and the cleaned store in step with the visited set. */
  lemma VisitStep(store: HashStore, node: string, visited: set<string>, liveness: map<string, string>, clock: string -> I64, failures: set<string>, address: string)
    requires address !in visited
    ensures var stale := IsStale(liveness, clock(address), address);
            var marked := Marked(visited, liveness, clock);
            var before := CleanupAll(store, node, marked - failures);
            && Marked(visited + {address}, liveness, clock) == (if stale then marked + {address} else marked)
            && (if stale && address !in failures then CleanupConnection(before, node, address) else before)
               == CleanupAll(store, node, Marked(visited + {address}, liveness, clock) - failures)
  {
    MarkedStep(visited, liveness, clock, address);
    if IsStale(liveness, clock(address), address) {
      VisitStale(store, node, Marked(visited, liveness, clock), failures, address);
    }
  }

  /**
    The sweep as the gateway runs it: the registry is visited in an
    arbitrary order, the clock is read at each visit, marked addresses are
    collected, and they are removed only after the visit. Given the clock
    readings, the outcome is `Sweep` whatever the order.
   */
  method SweepLoop(registry: set<string>, liveness: map<string, string>, clock: string -> I64, failures: set<string>, store: HashStore, node: string)
    returns (registry': set<string>, store': HashStore)
    ensures SweepResult(registry', store') == Sweep(registry, liveness, clock, failures, store, node)
  {
    var pending, visited := registry, {};
    var disconnected: set<string> := {};
    store' := store;
    CleanupAllNothing(store, node);
    assert disconnected - failures == {};
    while pending != {}
      invariant pending !! visited && pending + visited == registry
      invariant disconnected == Marked(visited, liveness, clock)
      invariant store' == CleanupAll(store, node, disconnected - failures)
      decreases |pending|
    {
      var address :| address in pending;
      VisitStep(store, node, visited, liveness, clock, failures, address);
      var now := clock(address);
      if IsStale(liveness, now, address) {
        if address !in failures {
          store' := CleanupConnection(store', node, address);
        }
        disconnected := disconnected + {address};
      }
      pending, visited := pending - {address}, visited + {address};
    }
    registry' := registry - disconnected;
  }

  /** A sweep keeps the node's two session maps mutually inverse. */
  lemma SweepPreservesInverse(registry: set<string>, liveness: map<string, string>, clock: string -> I64, failures: set<string>, store: HashStore, node: string)
    requires IndexConsistent(store, node)
    ensures IndexConsistent(Sweep(registry, liveness, clock, failures, store, node).store, node)
  {
    IndexKeysDistinct(node, node);
    var byAddress, byDevice := HashAt(store, AddressToDeviceKey(node)), HashAt(store, DeviceToAddressKey(node));
    var cleaned := Marked(registry, liveness, clock) - failures;
    var gone := DevicesOf(byAddress, cleaned);
    var r := Sweep(registry, liveness, clock, failures, store, node).store;
    assert HashAt(r, AddressToDeviceKey(node)) == byAddress - cleaned;
    assert HashAt(r, DeviceToAddressKey(node)) == byDevice - gone;
  }

  /** A record refreshed at most ten seconds ago keeps its connection; exactly ten is kept too. */
  lemma RecentConnectionKept(registry: set<string>, liveness: map<string, string>, clock: string -> I64, failures: set<string>, store: HashStore, node: string, address: string)
    requires address in registry
    requires LastActive(liveness, address).Some? && clock(address) - LastActive(liveness, address).value <= STALE_AFTER
    ensures address in Sweep(registry, liveness, clock, failures, store, node).registry
  {
  }

  /** A missing or unparsable record never evicts: the address stays registered and indexed. */
  lemma UnknownActivityKept(registry: set<string>, liveness: map<string, string>, clock: string -> I64, failures: set<string>, store: HashStore, node: string, address: string)
    requires address in registry
    requires LivenessKey(address) !in liveness || ParseI64(liveness[LivenessKey(address)]).None?
    ensures var r := Sweep(registry, liveness, clock, failures, store, node);
            && address in r.registry
            && (address in HashAt(store, AddressToDeviceKey(node)) ==> address in HashAt(r.store, AddressToDeviceKey(node)))
  {
  }

  /** A stale address whose shutdown fails leaves the registry but keeps its index entries. */
  lemma FailedShutdownKeepsIndex(registry: set<string>, liveness: map<string, string>, clock: string -> I64, failures: set<string>, store: HashStore, node: string, address: string)
    requires address in registry && IsStale(liveness, clock(address), address) && address in failures
    requires IndexConsistent(store, node) && address in HashAt(store, AddressToDeviceKey(node))
    ensures var r := Sweep(registry, liveness, clock, failures, store, node);
            var device := HashAt(store, AddressToDeviceKey(node))[address];
            && address !in r.registry
            && address in HashAt(r.store, AddressToDeviceKey(node))
            && device in HashAt(r.store, DeviceToAddressKey(node))
  {
    SweepPreservesInverse(registry, liveness, clock, failures, store, node);
  }

  /** Sweeping an empty registry changes nothing. */
  lemma EmptyRegistryIsNoOp(liveness: map<string, string>, clock: string -> I64, failures: set<string>, store: HashStore, node: string)
    ensures Sweep({}, liveness, clock, failures, store, node) == SweepResult({}, store)
  {
    assert Marked({}, liveness, clock) - failures == {};
    CleanupAllNothing(store, node);
  }

  // ---------------------------------------------------------------- the i64 difference

  /** The staleness test as a release build computes it: `now - last` wraps around in 64 bits. */
  predicate IsStaleAsWritten(liveness: map<string, string>, now: I64, address: string)
    ensures IsStaleAsWritten(liveness, now, address) ==> LastActive(liveness, address).Some?
  {
    match LastActive(liveness, address)
    case None => false
    case Some(last) => WrapI64(now - last) > STALE_AFTER
  }

  /** Whenever the difference fits in an `i64`, the two tests agree. */
  lemma AsWrittenAgreesWithoutOverflow(liveness: map<string, string>, now: I64, address: string)
    requires LastActive(liveness, address).Some?
    requires I64_MIN <= now - LastActive(liveness, address).value <= I64_MAX
    ensures IsStaleAsWritten(liveness, now, address) <==> IsStale(liveness, now, address)
  {
  }

  /**
    A record holding `i64::MIN` ("-9223372036854775808") is older than any
    non-negative clock reading, yet the wrapped difference is negative, so
    the test as written never evicts it.
   */
  lemma WrappedDifferenceMissesStale(now: I64, address: string)
    requires now >= 0
    ensures var liveness := map[LivenessKey(address) := IntToString(I64_MIN)];
            && LastActive(liveness, address) == Some(I64_MIN)
            && IsStale(liveness, now, address)
            && !IsStaleAsWritten(liveness, now, address)
  {
    ParseI64RoundTrip(I64_MIN);
    var wide := now - I64_MIN;
    assert wide - I64_MIN == now + 0x1_0000_0000_0000_0000;
    assert (wide - I64_MIN) % 0x1_0000_0000_0000_0000 == now;
    assert WrapI64(wide) == now + I64_MIN;
  }

  /**
    The wrapped test is not monotone in time: a record of `i64::MIN` is
    stale at clock reading -1 and no longer stale one second later.
   */
  lemma WrappedTestIsNotMonotone(address: string)
    ensures var liveness := map[LivenessKey(address) := IntToString(I64_MIN)];
            && IsStaleAsWritten(liveness, -1, address)
            && !IsStaleAsWritten(liveness, 0, address)
  {
    ParseI64RoundTrip(I64_MIN);
    assert WrapI64(-1 - I64_MIN) == -1 - I64_MIN;
    assert (0 - I64_MIN - I64_MIN) % 0x1_0000_0000_0000_0000 == 0;
    assert WrapI64(0 - I64_MIN) == I64_MIN;
  }

  /** With the exact difference, staleness only grows with time, unlike the wrapped test. */
  lemma StaleIsMonotone(liveness: map<string, string>, now: I64, later: I64, address: string)
    requires now <= later && IsStale(liveness, now, address)
    ensures IsStale(liveness, later, address)
  {
  }
}
