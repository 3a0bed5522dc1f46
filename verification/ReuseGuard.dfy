/** Protection against reusing a source identifier while late responses may arrive
    (crates/nodenet-protocols/src/correlation.rs, `CorrelationReuseGuard`). */
module ReuseGuard {
  import opened Wire

  const MAX_CORRELATION_LEASES: nat := 262144

  datatype LeaseKey = LeaseKey(family: Byte, protocol: Byte, sourceIdentifier: U16)

  datatype LeaseState = Outstanding | Grace(reusableAt: U64)

  datatype GuardError =
    | InvalidCapacity
    | UnsupportedProtocol
    | Conflict
    | CapacityExhausted
    | NotOutstanding
    | DeadlineOverflow

  /** The fields of a probe identity the guard looks at. */
  datatype Identity = Identity(family: Byte, protocol: Byte, sourcePort: U16, icmpIdentifier: U16)

  /** `CorrelationLeaseKey::for_probe`. */
  function KeyFor(id: Identity): Option<LeaseKey> {
    if id.protocol == 6 || id.protocol == 17 then Some(LeaseKey(id.family, id.protocol, id.sourcePort))
    else if id.protocol == 1 || id.protocol == 58 then Some(LeaseKey(id.family, id.protocol, id.icmpIdentifier))
    else None
  }

  type Leases = map<LeaseKey, LeaseState>

  predicate Expired(s: LeaseState, now: U64) { s.Grace? && now >= s.reusableAt }

  function Pruned(e: Leases, now: U64): Leases {
    map k | k in e && !Expired(e[k], now) :: e[k]
  }

  /** A guard as a value, and what its operations do to it. */
  datatype Guard = Guard(entries: Leases, capacity: nat, grace: U64)

  datatype Event =
    | Reserve(identity: Identity, now: U64)
    | Complete(key: LeaseKey, now: U64)
    | Prune(now: U64)

  datatype Outcome = Outcome(guard: Guard, error: Option<GuardError>)

  function Step(g: Guard, e: Event): Outcome {
    match e
    case Reserve(identity, now) =>
      var left := g.(entries := Pruned(g.entries, now));
      (match KeyFor(identity)
       case None => Outcome(left, Some(UnsupportedProtocol))
       case Some(key) =>
         if key in left.entries then Outcome(left, Some(Conflict))
         else if |left.entries| == g.capacity then Outcome(left, Some(CapacityExhausted))
         else Outcome(left.(entries := left.entries[key := Outstanding]), None))
    case Complete(key, now) =>
      if key !in g.entries || g.entries[key] != Outstanding then Outcome(g, Some(NotOutstanding))
      else if now + g.grace > 0xffff_ffff_ffff_ffff then Outcome(g, Some(DeadlineOverflow))
      else Outcome(g.(entries := g.entries[key := Grace(now + g.grace)]), None)
    case Prune(now) => Outcome(g.(entries := Pruned(g.entries, now)), None)
  }

  /** The mutable guard of the source. */
  class CorrelationReuseGuard {
    var entries: Leases
    const capacity: nat
    const grace: U64

    function State(): Guard
      reads this
    {
      Guard(entries, capacity, grace)
    }

    constructor (capacity: nat, grace: U64)
      requires 0 < capacity <= MAX_CORRELATION_LEASES
      ensures State() == Guard(map[], capacity, grace)
    {
      entries := map[];
      this.capacity, this.grace := capacity, grace;
    }

    /** `new` refuses zero and excessive capacities. */
    static method Create(capacity: nat, grace: U64) returns (r: Result<CorrelationReuseGuard, GuardError>)
      ensures r.Ok? <==> 0 < capacity <= MAX_CORRELATION_LEASES
      ensures r.Ok? ==> fresh(r.value) && r.value.State() == Guard(map[], capacity, grace)
      ensures r.Err? ==> r.error == InvalidCapacity
    {
      if capacity == 0 || capacity > MAX_CORRELATION_LEASES { return Err(InvalidCapacity); }
      var guard := new CorrelationReuseGuard(capacity, grace);
      r := Ok(guard);
    }

    /** Removes the expired entries one by one. */
    method PruneExpired(now: U64)
      modifies this`entries
      ensures State() == Step(old(State()), Prune(now)).guard
    {
      var left := entries.Keys;
      while left != {}
        invariant left <= old(entries).Keys
        invariant forall k :: k in entries <==> k in old(entries) && (k in left || !Expired(old(entries)[k], now))
        invariant forall k :: k in entries ==> entries[k] == old(entries)[k]
        decreases |left|
      {
        var k :| k in left;
        left := left - {k};
        if Expired(entries[k], now) { entries := entries - {k}; }
      }
    }

    method ReserveKey(identity: Identity, now: U64) returns (r: Result<LeaseKey, GuardError>)
      modifies this`entries
      ensures var o := Step(old(State()), Reserve(identity, now));
              && State() == o.guard
              && r == (if o.error.Some? then Err(o.error.value) else Ok(KeyFor(identity).value))
    {
      PruneExpired(now);
      var key := KeyFor(identity);
      if key.None? { return Err(UnsupportedProtocol); }
      if key.value in entries { return Err(Conflict); }
      if |entries| == capacity { return Err(CapacityExhausted); }
      entries := entries[key.value := Outstanding];
      r := Ok(key.value);
    }

    method CompleteKey(key: LeaseKey, now: U64) returns (e: Option<GuardError>)
      modifies this`entries
      ensures var o := Step(old(State()), Complete(key, now)); State() == o.guard && e == o.error
    {
      if key !in entries || entries[key] != Outstanding { return Some(NotOutstanding); }
      var reusableAt := now + grace;
      if reusableAt > 0xffff_ffff_ffff_ffff { return Some(DeadlineOverflow); }
      entries := entries[key := Grace(reusableAt)];
      e := None;
    }
  }

  // ---------------------------------------------------------------------------------------
  // Whole runs.

  /** The guard after the first `n` events. */
  function After(g: Guard, events: seq<Event>, n: nat): Guard
    requires n <= |events|
  {
    if n == 0 then g else Step(After(g, events, n - 1), events[n - 1]).guard
  }

  predicate Succeeds(g: Guard, events: seq<Event>, i: nat)
    requires i < |events|
  {
    Step(After(g, events, i), events[i]).error.None?
  }

  /** Event `i` successfully reserves `key`. */
  predicate Reserves(g: Guard, events: seq<Event>, i: nat, key: LeaseKey)
    requires i < |events|
  {
    events[i].Reserve? && KeyFor(events[i].identity) == Some(key) && Succeeds(g, events, i)
  }

  /** Event `i` successfully completes `key`. */
  predicate Completes(g: Guard, events: seq<Event>, i: nat, key: LeaseKey)
    requires i < |events|
  {
    events[i].Complete? && events[i].key == key && Succeeds(g, events, i)
  }

  predicate Monotone(events: seq<Event>) {
    forall i, j :: 0 <= i < j < |events| ==> events[i].now <= events[j].now
  }

  lemma ConfigurationStays(g: Guard, events: seq<Event>, n: nat)
    requires n <= |events|
    ensures After(g, events, n).capacity == g.capacity && After(g, events, n).grace == g.grace
  {
    if n > 0 { ConfigurationStays(g, events, n - 1); }
  }

  lemma PrunedSize(e: Leases, now: U64)
    ensures |Pruned(e, now)| <= |e|
  {
    var p := Pruned(e, now);
    assert p.Keys <= e.Keys;
    SubsetSize(p.Keys, e.Keys);
    assert |p| == |p.Keys| && |e| == |e.Keys|;
  }

  lemma {:induction false} SubsetSize<T>(a: set<T>, b: set<T>)
    requires a <= b
    ensures |a| <= |b|
    decreases a
  {
    if a != {} {
      var x :| x in a;
      SubsetSize(a - {x}, b - {x});
    }
  }

  lemma CapacityStep(g: Guard, e: Event)
    requires |g.entries| <= g.capacity
    ensures |Step(g, e).guard.entries| <= g.capacity
  {
    match e
    case Reserve(_, now) => PrunedSize(g.entries, now);
    case Prune(now) => PrunedSize(g.entries, now);
    case Complete(key, now) =>
      if Step(g, e).error.None? {
        assert Step(g, e).guard.entries.Keys == g.entries.Keys;
        assert |Step(g, e).guard.entries| == |g.entries.Keys|;
      }
  }

  /** The table never exceeds its capacity. */
  lemma {:induction false} CapacityKept(g: Guard, events: seq<Event>, n: nat)
    requires n <= |events| && |g.entries| <= g.capacity
    ensures |After(g, events, n).entries| <= g.capacity
    decreases n
  {
    hide Step;
    if n > 0 {
      CapacityKept(g, events, n - 1);
      ConfigurationStays(g, events, n - 1);
      CapacityStep(After(g, events, n - 1), events[n - 1]);
    }
  }

  /** An outstanding lease leaves the table only by its completion. */
  lemma OutstandingStays(g: Guard, e: Event, key: LeaseKey)
    requires key in g.entries && g.entries[key] == Outstanding
    ensures var o := Step(g, e);
            && key in o.guard.entries
            && (o.guard.entries[key] == Outstanding || (e.Complete? && e.key == key && o.error.None?))
  {
  }

  /** Where a key stands after it was reserved at `i` and not reserved again before `n`: still outstanding,
      or completed at `m` and in grace, or let go by an event at or after the end of its grace. */
  ghost predicate Standing(g: Guard, events: seq<Event>, i: nat, n: nat, key: LeaseKey) {
    n <= |events| &&
    var entries := After(g, events, n).entries;
    || (key in entries && entries[key] == Outstanding)
    || exists m :: i < m < n && Released(g, events, m, n, key)
  }

  ghost predicate Released(g: Guard, events: seq<Event>, m: nat, n: nat, key: LeaseKey) {
    m < n <= |events| && Completes(g, events, m, key) &&
    var entries, end := After(g, events, n).entries, events[m].now + g.grace;
    if key in entries then entries[key].Grace? && entries[key].reusableAt == end
    else exists p :: m < p < n && events[p].now >= end
  }

  lemma ReleasedStep(g: Guard, events: seq<Event>, m: nat, n: nat, key: LeaseKey)
    requires n < |events| && Released(g, events, m, n, key) && !Reserves(g, events, n, key)
    ensures Released(g, events, m, n + 1, key)
  {
    var before, after := After(g, events, n), After(g, events, n + 1);
    if key in before.entries {
      if key !in after.entries {
        assert Expired(before.entries[key], events[n].now);
      }
    } else {
      var p :| m < p < n && events[p].now >= events[m].now + g.grace;
      assert m < p < n + 1;
    }
  }

  lemma {:induction false} StandingKept(g: Guard, events: seq<Event>, i: nat, n: nat, key: LeaseKey)
    requires i < n <= |events| && Reserves(g, events, i, key)
    requires forall j :: i < j < n ==> !Reserves(g, events, j, key)
    ensures Standing(g, events, i, n, key)
    decreases n
  {
    if n > i + 1 {
      StandingKept(g, events, i, n - 1, key);
      var before := After(g, events, n - 1);
      if key in before.entries && before.entries[key] == Outstanding {
        OutstandingStays(before, events[n - 1], key);
        if After(g, events, n).entries[key] != Outstanding {
          ConfigurationStays(g, events, n - 1);
          assert Released(g, events, n - 1, n, key);
        }
      } else {
        var m :| i < m < n - 1 && Released(g, events, m, n - 1, key);
        ReleasedStep(g, events, m, n - 1, key);
      }
    }
  }

  /** The last successful reservation of `key` before `j`. */
  lemma {:induction false} LastReserve(g: Guard, events: seq<Event>, i: nat, j: nat, key: LeaseKey) returns (l: nat)
    requires i < j <= |events| && Reserves(g, events, i, key)
    ensures i <= l < j && Reserves(g, events, l, key) && forall n :: l < n < j ==> !Reserves(g, events, n, key)
    decreases j
  {
    hide Reserves;
    if Reserves(g, events, j - 1, key) { return j - 1; }
    l := LastReserve(g, events, i, j - 1, key);
  }

  /** Lease reuse safety: in every run with nondecreasing time, two successful reservations of one key are
      separated by a successful completion whose grace has passed at the second reservation. */
  lemma ReuseSafe(g: Guard, events: seq<Event>, i: nat, j: nat, key: LeaseKey)
    requires Monotone(events) && i < j < |events|
    requires Reserves(g, events, i, key) && Reserves(g, events, j, key)
    ensures exists m :: i < m < j && Completes(g, events, m, key) && events[j].now >= events[m].now + g.grace
  {
    var l := LastReserve(g, events, i, j, key);
    StandingKept(g, events, l, j, key);
    var m := CompletionBefore(g, events, l, j, key);
    assert i < m < j && Completes(g, events, m, key) && events[j].now >= events[m].now + g.grace;
  }

  lemma CompletionBefore(g: Guard, events: seq<Event>, l: nat, j: nat, key: LeaseKey) returns (m: nat)
    requires Monotone(events) && l < j < |events| && Standing(g, events, l, j, key) && Reserves(g, events, j, key)
    ensures l < m < j && Completes(g, events, m, key) && events[j].now >= events[m].now + g.grace
  {
    var entries := After(g, events, j).entries;
    assert key !in Pruned(entries, events[j].now);
    m :| l < m < j && Released(g, events, m, j, key);
    if key !in entries {
      var p :| m < p < j && events[p].now >= events[m].now + g.grace;
      assert events[p].now <= events[j].now;
    }
  }

  // ---------------------------------------------------------------------------------------
  // When a reservation is granted.

  predicate Supported(protocol: Byte) { protocol in {1, 6, 17, 58} }

  /** What identifies a probe of a supported protocol: its source port, or its echo identifier. */
  function KeyOf(id: Identity): LeaseKey {
    LeaseKey(id.family, id.protocol, if id.protocol in {6, 17} then id.sourcePort else id.icmpIdentifier)
  }

  /** A lease blocks its key while it is outstanding and until its grace is over. */
  predicate Blocks(g: Guard, key: LeaseKey, now: U64) {
    key in g.entries && (g.entries[key] == Outstanding || now < g.entries[key].reusableAt)
  }

  ghost function Blocked(g: Guard, now: U64): set<LeaseKey> {
    set k | k in g.entries && Blocks(g, k, now)
  }

  lemma PrunedBlocks(g: Guard, now: U64)
    ensures Pruned(g.entries, now).Keys == Blocked(g, now) && |Pruned(g.entries, now)| == |Blocked(g, now)|
  {
    var p := Pruned(g.entries, now);
    assert p.Keys == Blocked(g, now);
    assert |p| == |p.Keys|;
  }

  /** A reservation is granted exactly if the protocol is supported, no lease blocks the key and there is room among the
      leases that still block. Each refusal has its own reason, and every lease that blocks stays as it was. */
  lemma ReserveExact(g: Guard, id: Identity, now: U64)
    ensures var o, key := Step(g, Reserve(id, now)), KeyOf(id);
            var free := Supported(id.protocol) && !Blocks(g, key, now);
            && (o.error.None? <==> free && |Blocked(g, now)| != g.capacity)
            && (o.error == Some(UnsupportedProtocol) <==> !Supported(id.protocol))
            && (o.error == Some(Conflict) <==> Supported(id.protocol) && Blocks(g, key, now))
            && (o.error == Some(CapacityExhausted) <==> free && |Blocked(g, now)| == g.capacity)
            && o.guard.entries.Keys == (if o.error.None? then Blocked(g, now) + {key} else Blocked(g, now))
            && (forall k :: k in Blocked(g, now) ==> o.guard.entries[k] == g.entries[k])
            && (o.error.None? ==> o.guard.entries[key] == Outstanding)
  {
    PrunedBlocks(g, now);
  }

  /** A completion is accepted exactly for an outstanding lease whose grace ends within the clock's range. It blocks the
      key until then. */
  lemma CompleteExact(g: Guard, key: LeaseKey, now: U64, later: U64)
    ensures var o, outstanding := Step(g, Complete(key, now)), key in g.entries && g.entries[key] == Outstanding;
            && (o.error.None? <==> outstanding && now + g.grace <= 0xffff_ffff_ffff_ffff)
            && (o.error == Some(NotOutstanding) <==> !outstanding)
            && (o.error == Some(DeadlineOverflow) <==> outstanding && now + g.grace > 0xffff_ffff_ffff_ffff)
            && (o.error.None? ==> (Blocks(o.guard, key, later) <==> later < now + g.grace))
            && (forall k :: k != key ==> (Blocks(o.guard, k, later) <==> Blocks(g, k, later)))
            && (o.error.Some? ==> o.guard == g)
  {
  }
}
