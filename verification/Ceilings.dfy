/** When a table change is refused, and the ceilings no accepted change can pass
    (crates/nodenet-linux-context/src/normalize.rs). */
module Ceilings {
  import opened Wire
  import opened SnapshotErrors
  import opened Records
  import opened Tables
  import opened Normalize

  function Sum(sizes: seq<nat>): nat {
    if sizes == [] then 0 else sizes[0] + Sum(sizes[1..])
  }

  lemma {:induction false} SumAppend(a: seq<nat>, b: seq<nat>)
    ensures Sum(a + b) == Sum(a) + Sum(b)
  {
    if a == [] {
      assert a + b == b;
    } else {
      SumAppend(a[1..], b);
      assert (a + b)[1..] == a[1..] + b;
    }
  }

  /** Unknown attributes that may be copied on top of `total` bytes. */
  predicate Copyable(sizes: seq<nat>, total: nat) {
    && (forall i :: 0 <= i < |sizes| ==> sizes[i] <= MAX_UNKNOWN_ATTRIBUTE_BYTES)
    && (sizes == [] || total + Sum(sizes) <= MAX_SNAPSHOT_UNKNOWN_BYTES)
  }

  lemma {:induction false} CopyExact(sizes: seq<nat>, total: nat)
    ensures CopyUnknown(sizes, total).Ok? <==> Copyable(sizes, total)
    ensures CopyUnknown(sizes, total).Ok? ==> CopyUnknown(sizes, total).value == total + Sum(sizes)
  {
    if sizes != [] {
      CopyExact(sizes[1..], total + sizes[0]);
      assert forall i :: 0 < i < |sizes| ==> sizes[i] == sizes[1..][i - 1];
      assert sizes[1..] == [] ==> Sum(sizes[1..]) == 0;
    }
  }

  lemma {:induction false} TotalExact(sizes: seq<nat>, total: nat)
    ensures Total(sizes, total).Ok? <==> sizes == [] || total + Sum(sizes) <= MAX_SNAPSHOT_UNKNOWN_BYTES
    ensures Total(sizes, total).Ok? ==> Total(sizes, total).value == total + Sum(sizes)
  {
    if sizes != [] {
      TotalExact(sizes[1..], total + sizes[0]);
      assert sizes[1..] == [] ==> Sum(sizes[1..]) == 0;
    }
  }

  // ---------------------------------------------------------------------------------------
  // Identities.

  /** Which fields tell two records of a table apart. */
  lemma IdentitiesExact(i: Interface, j: Interface, a: Address, b: Address, r: Route, s: Route, n: Neighbor,
      m: Neighbor)
    ensures KeyOfLink(i) == KeyOfLink(j) <==> i.index == j.index
    ensures KeyOfAddress(a) == KeyOfAddress(b) <==>
            (a.interfaceIndex, a.family, a.prefixLength, a.address, a.local)
            == (b.interfaceIndex, b.family, b.prefixLength, b.address, b.local)
    ensures KeyOfRoute(r) == KeyOfRoute(s) <==>
            && r.family == s.family && r.destinationPrefixLength == s.destinationPrefixLength
            && r.sourcePrefixLength == s.sourcePrefixLength && r.destination == s.destination && r.source == s.source
            && r.table == s.table && r.routeType == s.routeType && r.protocol == s.protocol && r.priority == s.priority
    ensures KeyOfNeighbor(n) == KeyOfNeighbor(m) <==>
            (n.family, n.interfaceIndex, n.destination) == (m.family, m.interfaceIndex, m.destination)
  {
  }

  // ---------------------------------------------------------------------------------------
  // One change.

  /** A dump reply is stored exactly if it is a new record with copyable attributes and its table has room.
      Links and addresses do not advance the count of copied bytes. */
  lemma PushExact(p: Parts, m: Message)
    ensures PushMessage(p, m).Ok? <==>
            match m
            case NewLink(Ok(r)) => Copyable(r.unknown, 0) && |p.interfaces| != MAX_INTERFACES
            case NewAddress(Ok(r)) => Copyable(r.unknown, 0) && |p.addresses| != MAX_ADDRESSES
            case NewRoute(Ok(r)) => Copyable(r.unknown, p.unknownBytes) && |p.routes| != MAX_ROUTES
            case NewRule(Ok(r)) => Copyable(r.unknown, p.unknownBytes) && |p.rules| != MAX_RULES
            case NewNeighbor(Ok(r)) => Copyable(r.unknown, p.unknownBytes) && |p.neighbors| != MAX_NEIGHBORS
            case _ => false
    ensures PushMessage(p, m).Ok? ==>
              PushMessage(p, m).value ==
              match m
              case NewLink(Ok(r)) => p.(interfaces := p.interfaces + [r])
              case NewAddress(Ok(r)) => p.(addresses := p.addresses + [r])
              case NewRoute(Ok(r)) => p.(routes := p.routes + [r], unknownBytes := p.unknownBytes + Sum(r.unknown))
              case NewRule(Ok(r)) => p.(rules := p.rules + [r], unknownBytes := p.unknownBytes + Sum(r.unknown))
              case NewNeighbor(Ok(r)) =>
                p.(neighbors := p.neighbors + [r], unknownBytes := p.unknownBytes + Sum(r.unknown))
              case _ => p
  {
    hide CopyUnknown, Copyable, Sum;
    match m
    case NewLink(Ok(r)) => CopyExact(r.unknown, 0);
    case NewAddress(Ok(r)) => CopyExact(r.unknown, 0);
    case NewRoute(Ok(r)) => CopyExact(r.unknown, p.unknownBytes);
    case NewRule(Ok(r)) => CopyExact(r.unknown, p.unknownBytes);
    case NewNeighbor(Ok(r)) => CopyExact(r.unknown, p.unknownBytes);
    case _ =>
  }

  /** A notification is applied exactly if its record has copyable attributes and, when it adds, its table has
      room once the record of the same identity is gone. The deletion of a link names only its index. */
  lemma ChangeExact(p: Parts, m: Message)
    ensures Change(p, m).Ok? <==>
            match m
            case NewLink(Ok(r)) =>
              Copyable(r.unknown, p.unknownBytes) && |Retain(p.interfaces, KeyOfLink, KeyOfLink(r))| != MAX_INTERFACES
            case NewAddress(Ok(r)) =>
              && Copyable(r.unknown, p.unknownBytes)
              && |Retain(p.addresses, KeyOfAddress, KeyOfAddress(r))| != MAX_ADDRESSES
            case NewRoute(Ok(r)) =>
              Copyable(r.unknown, 0) && |Retain(p.routes, KeyOfRoute, KeyOfRoute(r))| != MAX_ROUTES
            case NewRule(Ok(r)) => Copyable(r.unknown, 0) && |RetainRules(p.rules, r)| != MAX_RULES
            case NewNeighbor(Ok(r)) =>
              Copyable(r.unknown, 0) && |Retain(p.neighbors, KeyOfNeighbor, KeyOfNeighbor(r))| != MAX_NEIGHBORS
            case DelLink(_) => true
            case DelAddress(Ok(r)) => Copyable(r.unknown, 0)
            case DelRoute(Ok(r)) => Copyable(r.unknown, 0)
            case DelRule(Ok(r)) => Copyable(r.unknown, 0)
            case DelNeighbor(Ok(r)) => Copyable(r.unknown, 0)
            case _ => false
  {
    hide CopyUnknown, Copyable, Retain, RetainRules;
    match m
    case NewLink(Ok(r)) => CopyExact(r.unknown, p.unknownBytes);
    case NewAddress(Ok(r)) => CopyExact(r.unknown, p.unknownBytes);
    case NewRoute(Ok(r)) => CopyExact(r.unknown, 0);
    case NewRule(Ok(r)) => CopyExact(r.unknown, 0);
    case NewNeighbor(Ok(r)) => CopyExact(r.unknown, 0);
    case DelAddress(Ok(r)) => CopyExact(r.unknown, 0);
    case DelRoute(Ok(r)) => CopyExact(r.unknown, 0);
    case DelRule(Ok(r)) => CopyExact(r.unknown, 0);
    case DelNeighbor(Ok(r)) => CopyExact(r.unknown, 0);
    case _ =>
  }

  // ---------------------------------------------------------------------------------------
  // What every run of changes keeps.

  predicate RoomKept(p: Parts) {
    && |p.interfaces| <= MAX_INTERFACES && |p.addresses| <= MAX_ADDRESSES && |p.routes| <= MAX_ROUTES
    && |p.rules| <= MAX_RULES && |p.neighbors| <= MAX_NEIGHBORS
  }

  lemma {:induction false} RetainShorter<T, K>(s: seq<T>, key: T -> K, k: K)
    ensures |Retain(s, key, k)| <= |s|
  {
    if s != [] { RetainShorter(s[..|s| - 1], key, k); }
  }

  lemma {:induction false} RetainRulesShorter(s: seq<Rule>, r: Rule)
    ensures |RetainRules(s, r)| <= |s|
  {
    if s != [] { RetainRulesShorter(s[..|s| - 1], r); }
  }

  lemma ChangeKeepsRoom(p: Parts, m: Message)
    requires RoomKept(p) && Change(p, m).Ok?
    ensures RoomKept(Change(p, m).value)
  {
    hide CopyUnknown, Retain, RetainRules;
    match m
    case NewLink(Ok(r)) => RetainShorter(p.interfaces, KeyOfLink, KeyOfLink(r));
    case DelLink(i) => RetainShorter(p.interfaces, KeyOfLink, LinkKey(i));
    case NewAddress(Ok(r)) => RetainShorter(p.addresses, KeyOfAddress, KeyOfAddress(r));
    case DelAddress(Ok(r)) => RetainShorter(p.addresses, KeyOfAddress, KeyOfAddress(r));
    case NewRoute(Ok(r)) => RetainShorter(p.routes, KeyOfRoute, KeyOfRoute(r));
    case DelRoute(Ok(r)) => RetainShorter(p.routes, KeyOfRoute, KeyOfRoute(r));
    case NewRule(Ok(r)) => RetainRulesShorter(p.rules, r);
    case DelRule(Ok(r)) => RetainRulesShorter(p.rules, r);
    case NewNeighbor(Ok(r)) => RetainShorter(p.neighbors, KeyOfNeighbor, KeyOfNeighbor(r));
    case DelNeighbor(Ok(r)) => RetainShorter(p.neighbors, KeyOfNeighbor, KeyOfNeighbor(r));
    case _ =>
  }

  function LinkBytes(s: seq<Interface>): nat { if s == [] then 0 else Sum(s[0].unknown) + LinkBytes(s[1..]) }
  function AddressBytes(s: seq<Address>): nat { if s == [] then 0 else Sum(s[0].unknown) + AddressBytes(s[1..]) }
  function RouteBytes(s: seq<Route>): nat { if s == [] then 0 else Sum(s[0].unknown) + RouteBytes(s[1..]) }
  function RuleBytes(s: seq<Rule>): nat { if s == [] then 0 else Sum(s[0].unknown) + RuleBytes(s[1..]) }
  function NeighborBytes(s: seq<Neighbor>): nat { if s == [] then 0 else Sum(s[0].unknown) + NeighborBytes(s[1..]) }

  /** The unknown bytes the tables hold. */
  function Held(p: Parts): nat {
    LinkBytes(p.interfaces) + AddressBytes(p.addresses) + RouteBytes(p.routes) + RuleBytes(p.rules)
    + NeighborBytes(p.neighbors)
  }

  lemma {:induction false} SumConcat<T>(s: seq<T>, f: T -> seq<nat>, bytes: seq<T> -> nat)
    requires bytes([]) == 0
    requires forall t: seq<T> :: t != [] ==> bytes(t) == Sum(f(t[0])) + bytes(t[1..])
    ensures Sum(Concat(s, f)) == bytes(s)
  {
    if s != [] {
      SumConcat(s[1..], f, bytes);
      SumAppend(f(s[0]), Concat(s[1..], f));
    }
  }

  lemma HeldExact(p: Parts)
    ensures Sum(UnknownSizes(p)) == Held(p)
  {
    hide Sum, Concat;
    var l, a := Concat(p.interfaces, UnknownOfLink), Concat(p.addresses, UnknownOfAddress);
    var r, u := Concat(p.routes, UnknownOfRoute), Concat(p.rules, UnknownOfRule);
    var n := Concat(p.neighbors, UnknownOfNeighbor);
    SumAppend(l + a + r + u, n);
    SumAppend(l + a + r, u);
    SumAppend(l + a, r);
    SumAppend(l, a);
    SumConcat(p.interfaces, UnknownOfLink, LinkBytes);
    SumConcat(p.addresses, UnknownOfAddress, AddressBytes);
    SumConcat(p.routes, UnknownOfRoute, RouteBytes);
    SumConcat(p.rules, UnknownOfRule, RuleBytes);
    SumConcat(p.neighbors, UnknownOfNeighbor, NeighborBytes);
  }

  /** Recounting accepts exactly tables within the ceiling for unknown bytes, and counts what they hold. */
  lemma RecountExact(p: Parts)
    ensures Recount(p).Ok? <==> Held(p) <= MAX_SNAPSHOT_UNKNOWN_BYTES
    ensures Recount(p).Ok? ==> Recount(p).value == p.(unknownBytes := Held(p))
  {
    hide UnknownSizes, Held;
    TotalExact(UnknownSizes(p), 0);
    HeldExact(p);
    SumNothing();
  }

  /** Whatever is replayed, no table grows past its ceiling, and the unknown bytes held are counted exactly and
      stay within theirs. */
  lemma {:induction false} ReplayWithinCeilings(p: Parts, ms: seq<Message>)
    requires RoomKept(p) && ApplyAll(p, ms).Ok?
    ensures var q := ApplyAll(p, ms).value;
            && RoomKept(q)
            && (ms != [] ==> q.unknownBytes == Held(q) <= MAX_SNAPSHOT_UNKNOWN_BYTES)
    decreases |ms|
  {
    hide Change, RoomKept, Recount, Held;
    if ms == [] { return; }
    ChangeKeepsRoom(p, ms[0]);
    var changed, q := Change(p, ms[0]).value, ApplyOne(p, ms[0]).value;
    RecountExact(changed);
    SameRoom(changed, q);
    ReplayWithinCeilings(q, ms[1..]);
  }

  lemma SameRoom(p: Parts, q: Parts)
    requires q == p.(unknownBytes := q.unknownBytes)
    ensures RoomKept(p) == RoomKept(q) && Held(p) == Held(q)
  {
  }

  lemma {:induction false} DumpWithinCeilings(p: Parts, ms: seq<Message>)
    requires RoomKept(p) && p.unknownBytes <= MAX_SNAPSHOT_UNKNOWN_BYTES && PushAll(p, ms).Ok?
    ensures RoomKept(PushAll(p, ms).value) && PushAll(p, ms).value.unknownBytes <= MAX_SNAPSHOT_UNKNOWN_BYTES
    decreases |ms|
  {
    hide PushMessage;
    if ms == [] { return; }
    PushExact(p, ms[0]);
    SumNothing();
    DumpWithinCeilings(PushMessage(p, ms[0]).value, ms[1..]);
  }

  lemma SumNothing()
    ensures Sum([]) == 0
  {
  }
}
