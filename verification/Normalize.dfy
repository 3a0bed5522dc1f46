/** Building, updating and closing the normalized tables (crates/nodenet-linux-context/src/normalize.rs). */
module Normalize {
  import opened Wire
  import opened SnapshotErrors
  import opened Records
  import opened Tables

  const MAX_INTERFACES: nat := 4096
  const MAX_ADDRESSES: nat := 16384
  const MAX_ROUTES: nat := 65536
  const MAX_RULES: nat := 65536
  const MAX_NEIGHBORS: nat := 65536
  const MAX_UNKNOWN_ATTRIBUTE_BYTES: nat := 4096
  const MAX_SNAPSHOT_UNKNOWN_BYTES: nat := 8 * 1048576

  /** The contents of a `NormalizedParts` value. */
  datatype Parts = Parts(
    interfaces: seq<Interface>,
    addresses: seq<Address>,
    routes: seq<Route>,
    rules: seq<Rule>,
    neighbors: seq<Neighbor>,
    unknownBytes: nat)

  const NoParts := Parts([], [], [], [], [], 0)

  /** Copying unknown attributes of the given sizes on top of `total` bytes. */
  function CopyUnknown(sizes: seq<nat>, total: nat): Result<nat, SnapshotError> {
    if sizes == [] then Ok(total)
    else if sizes[0] > MAX_UNKNOWN_ATTRIBUTE_BYTES then
      Err(LimitExceeded(UnknownAttributeBytes, sizes[0], MAX_UNKNOWN_ATTRIBUTE_BYTES))
    else if total + sizes[0] > MAX_SNAPSHOT_UNKNOWN_BYTES then
      Err(LimitExceeded(SnapshotUnknownBytes, total + sizes[0], MAX_SNAPSHOT_UNKNOWN_BYTES))
    else CopyUnknown(sizes[1..], total + sizes[0])
  }

  /** A normalized record together with the advanced unknown-byte counter. */
  function Admit<T>(message: Result<T, SnapshotError>, unknown: T -> seq<nat>, total: nat)
    : Result<(T, nat), SnapshotError>
  {
    match message
    case Err(e) => Err(e)
    case Ok(record) =>
      match CopyUnknown(unknown(record), total)
      case Err(e) => Err(e)
      case Ok(bytes) => Ok((record, bytes))
  }

  function PushBounded<T>(s: seq<T>, x: T, maximum: nat, resource: SnapshotResource): Result<seq<T>, SnapshotError> {
    if |s| == maximum then Err(LimitExceeded(resource, |s| + 1, maximum)) else Ok(s + [x])
  }

  /** Retain the records of other identities, then push. */
  function Replace<T>(s: seq<T>, key: T -> Key, x: T, maximum: nat, resource: SnapshotResource)
    : Result<seq<T>, SnapshotError>
  {
    PushBounded(Retain(s, key, key(x)), x, maximum, resource)
  }

  function RetainRules(s: seq<Rule>, r: Rule): seq<Rule> {
    if s == [] then []
    else
      var init, last := s[..|s| - 1], s[|s| - 1];
      RetainRules(init, r) + if SameRule(last, r) then [] else [last]
  }

  /** One dump reply (`push_messages`): links and addresses are charged to a throwaway counter. */
  function PushMessage(p: Parts, m: Message): Result<Parts, SnapshotError> {
    match m
    case NewLink(link) =>
      (match Admit(link, UnknownOfLink, 0)
       case Err(e) => Err(e)
       case Ok((record, _)) =>
         match PushBounded(p.interfaces, record, MAX_INTERFACES, Interfaces)
         case Err(e) => Err(e)
         case Ok(s) => Ok(p.(interfaces := s)))
    case NewAddress(address) =>
      (match Admit(address, UnknownOfAddress, 0)
       case Err(e) => Err(e)
       case Ok((record, _)) =>
         match PushBounded(p.addresses, record, MAX_ADDRESSES, Addresses)
         case Err(e) => Err(e)
         case Ok(s) => Ok(p.(addresses := s)))
    case NewRoute(route) =>
      (match Admit(route, UnknownOfRoute, p.unknownBytes)
       case Err(e) => Err(e)
       case Ok((record, bytes)) =>
         match PushBounded(p.routes, record, MAX_ROUTES, Routes)
         case Err(e) => Err(e)
         case Ok(s) => Ok(p.(routes := s, unknownBytes := bytes)))
    case NewRule(rule) =>
      (match Admit(rule, UnknownOfRule, p.unknownBytes)
       case Err(e) => Err(e)
       case Ok((record, bytes)) =>
         match PushBounded(p.rules, record, MAX_RULES, Rules)
         case Err(e) => Err(e)
         case Ok(s) => Ok(p.(rules := s, unknownBytes := bytes)))
    case NewNeighbor(neighbor) =>
      (match Admit(neighbor, UnknownOfNeighbor, p.unknownBytes)
       case Err(e) => Err(e)
       case Ok((record, bytes)) =>
         match PushBounded(p.neighbors, record, MAX_NEIGHBORS, Neighbors)
         case Err(e) => Err(e)
         case Ok(s) => Ok(p.(neighbors := s, unknownBytes := bytes)))
    case _ => Err(MakeIncomplete(UnexpectedMessage))
  }

  function PushAll(p: Parts, ms: seq<Message>): Result<Parts, SnapshotError>
    decreases |ms|
  {
    if ms == [] then Ok(p)
    else
      match PushMessage(p, ms[0])
      case Err(e) => Err(e)
      case Ok(q) => PushAll(q, ms[1..])
  }

  /** The table change of one notification, before the unknown bytes are counted again. */
  function Change(p: Parts, m: Message): Result<Parts, SnapshotError> {
    match m
    case NewLink(link) =>
      (match Admit(link, UnknownOfLink, p.unknownBytes)
       case Err(e) => Err(e)
       case Ok((record, _)) =>
         match Replace(p.interfaces, KeyOfLink, record, MAX_INTERFACES, Interfaces)
         case Err(e) => Err(e)
         case Ok(s) => Ok(p.(interfaces := s)))
    case DelLink(index) => Ok(p.(interfaces := Retain(p.interfaces, KeyOfLink, LinkKey(index))))
    case NewAddress(address) =>
      (match Admit(address, UnknownOfAddress, p.unknownBytes)
       case Err(e) => Err(e)
       case Ok((record, _)) =>
         match Replace(p.addresses, KeyOfAddress, record, MAX_ADDRESSES, Addresses)
         case Err(e) => Err(e)
         case Ok(s) => Ok(p.(addresses := s)))
    case DelAddress(address) =>
      (match Admit(address, UnknownOfAddress, 0)
       case Err(e) => Err(e)
       case Ok((record, _)) => Ok(p.(addresses := Retain(p.addresses, KeyOfAddress, KeyOfAddress(record)))))
    case NewRoute(route) =>
      (match Admit(route, UnknownOfRoute, 0)
       case Err(e) => Err(e)
       case Ok((record, _)) =>
         match Replace(p.routes, KeyOfRoute, record, MAX_ROUTES, Routes)
         case Err(e) => Err(e)
         case Ok(s) => Ok(p.(routes := s)))
    case DelRoute(route) =>
      (match Admit(route, UnknownOfRoute, 0)
       case Err(e) => Err(e)
       case Ok((record, _)) => Ok(p.(routes := Retain(p.routes, KeyOfRoute, KeyOfRoute(record)))))
    case NewRule(rule) =>
      (match Admit(rule, UnknownOfRule, 0)
       case Err(e) => Err(e)
       case Ok((record, _)) =>
         match PushBounded(RetainRules(p.rules, record), record, MAX_RULES, Rules)
         case Err(e) => Err(e)
         case Ok(s) => Ok(p.(rules := s)))
    case DelRule(rule) =>
      (match Admit(rule, UnknownOfRule, 0)
       case Err(e) => Err(e)
       case Ok((record, _)) => Ok(p.(rules := RetainRules(p.rules, record))))
    case NewNeighbor(neighbor) =>
      (match Admit(neighbor, UnknownOfNeighbor, 0)
       case Err(e) => Err(e)
       case Ok((record, _)) =>
         match Replace(p.neighbors, KeyOfNeighbor, record, MAX_NEIGHBORS, Neighbors)
         case Err(e) => Err(e)
         case Ok(s) => Ok(p.(neighbors := s)))
    case DelNeighbor(neighbor) =>
      (match Admit(neighbor, UnknownOfNeighbor, 0)
       case Err(e) => Err(e)
       case Ok((record, _)) => Ok(p.(neighbors := Retain(p.neighbors, KeyOfNeighbor, KeyOfNeighbor(record)))))
    case OtherMessage => Err(MakeIncomplete(UnexpectedMessage))
  }

  function Concat<T, U>(s: seq<T>, f: T -> seq<U>): seq<U> {
    if s == [] then [] else f(s[0]) + Concat(s[1..], f)
  }

  function UnknownSizes(p: Parts): seq<nat> {
    Concat(p.interfaces, UnknownOfLink) + Concat(p.addresses, UnknownOfAddress) + Concat(p.routes, UnknownOfRoute)
    + Concat(p.rules, UnknownOfRule) + Concat(p.neighbors, UnknownOfNeighbor)
  }

  /** Running total of the sizes, failing as soon as the snapshot ceiling is passed. */
  function Total(sizes: seq<nat>, total: nat): Result<nat, SnapshotError> {
    if sizes == [] then Ok(total)
    else if total + sizes[0] > MAX_SNAPSHOT_UNKNOWN_BYTES then
      Err(LimitExceeded(SnapshotUnknownBytes, total + sizes[0], MAX_SNAPSHOT_UNKNOWN_BYTES))
    else Total(sizes[1..], total + sizes[0])
  }

  /** `recompute_unknown_bytes`. */
  function Recount(p: Parts): Result<Parts, SnapshotError> {
    match Total(UnknownSizes(p), 0)
    case Err(e) => Err(e)
    case Ok(bytes) => Ok(p.(unknownBytes := bytes))
  }

  function ApplyOne(p: Parts, m: Message): Result<Parts, SnapshotError> {
    match Change(p, m)
    case Err(e) => Err(e)
    case Ok(q) => Recount(q)
  }

  /** `apply_notifications`. */
  function ApplyAll(p: Parts, ms: seq<Message>): Result<Parts, SnapshotError>
    decreases |ms|
  {
    if ms == [] then Ok(p)
    else
      match ApplyOne(p, ms[0])
      case Err(e) => Err(e)
      case Ok(q) => ApplyAll(q, ms[1..])
  }

  function Messages(ns: seq<BufferedNotification>): (ms: seq<Message>)
    ensures |ms| == |ns| && forall i :: 0 <= i < |ns| ==> ms[i] == ns[i].message
  {
    seq(|ns|, i requires 0 <= i < |ns| => ns[i].message)
  }

  // ---------------------------------------------------------------------------------------
  // Closing the tables: sort, then every interface reference must resolve.

  function OptionList(o: Option<U32>): seq<U32> { if o.None? then [] else [o.value] }

  /** A link in another namespace, or a link to itself, is not checked. */
  function RefsOfLink(r: Interface): seq<U32> {
    OptionList(r.controller) + if r.linkNetns.None? && r.link != Some(r.index) then OptionList(r.link) else []
  }

  function RefsOfAddress(r: Address): seq<U32> { [r.interfaceIndex] }
  function RefsOfRoute(r: Route): seq<U32> { OptionList(r.input) + OptionList(r.output) + r.hops }
  function RefsOfNeighbor(r: Neighbor): seq<U32> { [r.interfaceIndex] }

  function Sorted(p: Parts): Parts {
    Parts(Sort(p.interfaces, FlatLink), Sort(p.addresses, FlatAddress), Sort(p.routes, FlatRoute),
          Sort(p.rules, FlatRule), Sort(p.neighbors, FlatNeighbor), p.unknownBytes)
  }

  function References(p: Parts): seq<U32> {
    Concat(p.interfaces, RefsOfLink) + Concat(p.addresses, RefsOfAddress) + Concat(p.routes, RefsOfRoute)
    + Concat(p.neighbors, RefsOfNeighbor)
  }

  function Indices(p: Parts): set<U32> {
    set r | r in p.interfaces :: r.index
  }

  function FirstDangling(refs: seq<U32>, indices: set<U32>): Option<U32> {
    if refs == [] then None
    else if refs[0] !in indices then Some(refs[0])
    else FirstDangling(refs[1..], indices)
  }

  /** `finish`. */
  function Finish(p: Parts): Result<Parts, SnapshotError> {
    var q := Sorted(p);
    match FirstDangling(References(q), Indices(q))
    case Some(index) => Err(MakeIncomplete(DisappearingInterface(index)))
    case None => Ok(q)
  }

  lemma {:induction false} DanglingAppend(a: seq<U32>, b: seq<U32>, indices: set<U32>)
    ensures FirstDangling(a + b, indices) ==
            if FirstDangling(a, indices).Some? then FirstDangling(a, indices) else FirstDangling(b, indices)
  {
    if a == [] {
      assert a + b == b;
    } else {
      assert (a + b)[1..] == a[1..] + b;
      DanglingAppend(a[1..], b, indices);
    }
  }

  lemma {:induction false} DanglingExact(refs: seq<U32>, indices: set<U32>)
    ensures FirstDangling(refs, indices).None? <==> forall i :: i in refs ==> i in indices
    ensures var d := FirstDangling(refs, indices); d.Some? ==> d.value in refs && d.value !in indices
  {
    if refs != [] {
      DanglingExact(refs[1..], indices);
      assert refs == [refs[0]] + refs[1..];
    }
  }

  // ---------------------------------------------------------------------------------------
  // The tables as the mutable object of the source.

  class NormalizedParts {
    var interfaces: seq<Interface>
    var addresses: seq<Address>
    var routes: seq<Route>
    var rules: seq<Rule>
    var neighbors: seq<Neighbor>
    var unknownBytes: nat

    function State(): Parts
      reads this
    {
      Parts(interfaces, addresses, routes, rules, neighbors, unknownBytes)
    }

    constructor ()
      ensures State() == NoParts
    {
      interfaces, addresses, routes, rules, neighbors, unknownBytes := [], [], [], [], [], 0;
    }

    /** The tables of a published snapshot. */
    constructor FromTables(p: Parts)
      ensures State() == p
    {
      interfaces, addresses, routes := p.interfaces, p.addresses, p.routes;
      rules, neighbors, unknownBytes := p.rules, p.neighbors, p.unknownBytes;
    }

    method PushOne(m: Message) returns (e: Option<SnapshotError>)
      modifies this
      ensures match PushMessage(old(State()), m)
              case Err(error) => e == Some(error)
              case Ok(p) => e.None? && State() == p
    {
      hide Retain, RetainRules, CopyUnknown;
      e := None;
      match m
      case NewLink(link) =>
        var record := Admit(link, UnknownOfLink, 0);
        if record.Err? { return Some(record.error); }
        if |interfaces| == MAX_INTERFACES { return Some(LimitExceeded(Interfaces, |interfaces| + 1, MAX_INTERFACES)); }
        interfaces := interfaces + [record.value.0];
      case NewAddress(address) =>
        var record := Admit(address, UnknownOfAddress, 0);
        if record.Err? { return Some(record.error); }
        if |addresses| == MAX_ADDRESSES { return Some(LimitExceeded(Addresses, |addresses| + 1, MAX_ADDRESSES)); }
        addresses := addresses + [record.value.0];
      case NewRoute(route) =>
        var record := Admit(route, UnknownOfRoute, unknownBytes);
        if record.Err? { return Some(record.error); }
        unknownBytes := record.value.1;
        if |routes| == MAX_ROUTES { return Some(LimitExceeded(Routes, |routes| + 1, MAX_ROUTES)); }
        routes := routes + [record.value.0];
      case NewRule(rule) =>
        var record := Admit(rule, UnknownOfRule, unknownBytes);
        if record.Err? { return Some(record.error); }
        unknownBytes := record.value.1;
        if |rules| == MAX_RULES { return Some(LimitExceeded(Rules, |rules| + 1, MAX_RULES)); }
        rules := rules + [record.value.0];
      case NewNeighbor(neighbor) =>
        var record := Admit(neighbor, UnknownOfNeighbor, unknownBytes);
        if record.Err? { return Some(record.error); }
        unknownBytes := record.value.1;
        if |neighbors| == MAX_NEIGHBORS { return Some(LimitExceeded(Neighbors, |neighbors| + 1, MAX_NEIGHBORS)); }
        neighbors := neighbors + [record.value.0];
      case _ =>
        return Some(MakeIncomplete(UnexpectedMessage));
    }

    method PushMessages(ms: seq<Message>) returns (e: Option<SnapshotError>)
      modifies this
      ensures match PushAll(old(State()), ms)
              case Err(error) => e == Some(error)
              case Ok(p) => e.None? && State() == p
    {
      var i := 0;
      assert ms[0..] == ms;
      while i < |ms|
        invariant 0 <= i <= |ms|
        invariant PushAll(State(), ms[i..]) == PushAll(old(State()), ms)
      {
        assert ms[i..][1..] == ms[i + 1..];
        e := PushOne(ms[i]);
        if e.Some? { return; }
        i := i + 1;
      }
      e := None;
    }

    /** Removal of a deleted identity, or replacement by a new record under its identity. */
    method ChangeOne(m: Message) returns (e: Option<SnapshotError>)
      modifies this
      ensures match Change(old(State()), m)
              case Err(error) => e == Some(error)
              case Ok(p) => e.None? && State() == p
    {
      hide Retain, RetainRules, CopyUnknown;
      e := None;
      match m
      case NewLink(link) =>
        var record := Admit(link, UnknownOfLink, unknownBytes);
        if record.Err? { return Some(record.error); }
        interfaces := Retain(interfaces, KeyOfLink, KeyOfLink(record.value.0));
        if |interfaces| == MAX_INTERFACES { return Some(LimitExceeded(Interfaces, |interfaces| + 1, MAX_INTERFACES)); }
        interfaces := interfaces + [record.value.0];
      case DelLink(index) =>
        interfaces := Retain(interfaces, KeyOfLink, LinkKey(index));
      case NewAddress(address) =>
        var record := Admit(address, UnknownOfAddress, unknownBytes);
        if record.Err? { return Some(record.error); }
        addresses := Retain(addresses, KeyOfAddress, KeyOfAddress(record.value.0));
        if |addresses| == MAX_ADDRESSES { return Some(LimitExceeded(Addresses, |addresses| + 1, MAX_ADDRESSES)); }
        addresses := addresses + [record.value.0];
      case DelAddress(address) =>
        var record := Admit(address, UnknownOfAddress, 0);
        if record.Err? { return Some(record.error); }
        addresses := Retain(addresses, KeyOfAddress, KeyOfAddress(record.value.0));
      case NewRoute(route) =>
        var record := Admit(route, UnknownOfRoute, 0);
        if record.Err? { return Some(record.error); }
        routes := Retain(routes, KeyOfRoute, KeyOfRoute(record.value.0));
        if |routes| == MAX_ROUTES { return Some(LimitExceeded(Routes, |routes| + 1, MAX_ROUTES)); }
        routes := routes + [record.value.0];
      case DelRoute(route) =>
        var record := Admit(route, UnknownOfRoute, 0);
        if record.Err? { return Some(record.error); }
        routes := Retain(routes, KeyOfRoute, KeyOfRoute(record.value.0));
      case NewRule(rule) =>
        var record := Admit(rule, UnknownOfRule, 0);
        if record.Err? { return Some(record.error); }
        rules := RetainRules(rules, record.value.0);
        if |rules| == MAX_RULES { return Some(LimitExceeded(Rules, |rules| + 1, MAX_RULES)); }
        rules := rules + [record.value.0];
      case DelRule(rule) =>
        var record := Admit(rule, UnknownOfRule, 0);
        if record.Err? { return Some(record.error); }
        rules := RetainRules(rules, record.value.0);
      case NewNeighbor(neighbor) =>
        var record := Admit(neighbor, UnknownOfNeighbor, 0);
        if record.Err? { return Some(record.error); }
        neighbors := Retain(neighbors, KeyOfNeighbor, KeyOfNeighbor(record.value.0));
        if |neighbors| == MAX_NEIGHBORS { return Some(LimitExceeded(Neighbors, |neighbors| + 1, MAX_NEIGHBORS)); }
        neighbors := neighbors + [record.value.0];
      case DelNeighbor(neighbor) =>
        var record := Admit(neighbor, UnknownOfNeighbor, 0);
        if record.Err? { return Some(record.error); }
        neighbors := Retain(neighbors, KeyOfNeighbor, KeyOfNeighbor(record.value.0));
      case OtherMessage =>
        return Some(MakeIncomplete(UnexpectedMessage));
    }

    method RecomputeUnknownBytes() returns (e: Option<SnapshotError>)
      modifies this`unknownBytes
      ensures match Recount(old(State()))
              case Err(error) => e == Some(error)
              case Ok(p) => e.None? && State() == p
    {
      var sizes := UnknownSizes(State());
      var total: nat, i := 0, 0;
      assert sizes[0..] == sizes;
      while i < |sizes|
        invariant 0 <= i <= |sizes|
        invariant Total(sizes[i..], total) == Total(sizes, 0)
      {
        assert sizes[i..][1..] == sizes[i + 1..];
        total := total + sizes[i];
        if total > MAX_SNAPSHOT_UNKNOWN_BYTES {
          return Some(LimitExceeded(SnapshotUnknownBytes, total, MAX_SNAPSHOT_UNKNOWN_BYTES));
        }
        i := i + 1;
      }
      unknownBytes := total;
      e := None;
    }

    method ApplyNotifications(ms: seq<Message>) returns (e: Option<SnapshotError>)
      modifies this
      ensures match ApplyAll(old(State()), ms)
              case Err(error) => e == Some(error)
              case Ok(p) => e.None? && State() == p
    {
      hide Change, Recount;
      var i := 0;
      assert ms[0..] == ms;
      while i < |ms|
        invariant 0 <= i <= |ms|
        invariant ApplyAll(State(), ms[i..]) == ApplyAll(old(State()), ms)
      {
        assert ms[i..][1..] == ms[i + 1..];
        e := ChangeOne(ms[i]);
        if e.Some? { return; }
        e := RecomputeUnknownBytes();
        if e.Some? { return; }
        i := i + 1;
      }
      e := None;
    }

    method CloseTables() returns (e: Option<SnapshotError>)
      modifies this
      ensures match Finish(old(State()))
              case Err(error) => e == Some(error)
              case Ok(p) => e.None? && State() == p
    {
      hide Concat, FirstDangling, Sort;
      interfaces := Sort(interfaces, FlatLink);
      addresses := Sort(addresses, FlatAddress);
      routes := Sort(routes, FlatRoute);
      rules := Sort(rules, FlatRule);
      neighbors := Sort(neighbors, FlatNeighbor);
      var indices := Indices(State());
      ghost var l, a, r, n := Concat(interfaces, RefsOfLink), Concat(addresses, RefsOfAddress),
        Concat(routes, RefsOfRoute), Concat(neighbors, RefsOfNeighbor);
      DanglingAppend(l, a, indices);
      DanglingAppend(l + a, r, indices);
      DanglingAppend(l + a + r, n, indices);
      var dangling := ValidateReferences(interfaces, RefsOfLink, indices);
      if dangling.None? { dangling := ValidateReferences(addresses, RefsOfAddress, indices); }
      if dangling.None? { dangling := ValidateReferences(routes, RefsOfRoute, indices); }
      if dangling.None? { dangling := ValidateReferences(neighbors, RefsOfNeighbor, indices); }
      e := if dangling.None? then None else Some(MakeIncomplete(DisappearingInterface(dangling.value)));
    }
  }

  /** Every interface reference of one table, record by record. */
  method ValidateReferences<T>(records: seq<T>, refs: T -> seq<U32>, indices: set<U32>) returns (dangling: Option<U32>)
    ensures dangling == FirstDangling(Concat(records, refs), indices)
  {
    assert records[0..] == records;
    for i := 0 to |records|
      invariant FirstDangling(Concat(records[i..], refs), indices) == FirstDangling(Concat(records, refs), indices)
    {
      var needed := refs(records[i]);
      assert records[i..][1..] == records[i + 1..];
      DanglingAppend(needed, Concat(records[i + 1..], refs), indices);
      assert needed[0..] == needed;
      for j := 0 to |needed|
        invariant FirstDangling(needed[j..], indices) == FirstDangling(needed, indices)
      {
        assert needed[j..][1..] == needed[j + 1..];
        if needed[j] !in indices { return Some(needed[j]); }
      }
    }
    dangling := None;
  }
}
