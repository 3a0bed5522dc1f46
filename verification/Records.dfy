/** Normalized records, their identities and the decoded route-netlink messages that carry them
    (crates/nodenet-linux-context/src/types.rs and normalize.rs).

    A record keeps the fields the cache logic reads. An optional IP address is the number of its place
    in the derived order, zero standing for an absent one. `unknown` lists the sizes of the unknown
    attributes that were copied and `detail` stands for all remaining fields, flattened to integers. */
module Records {
  import opened Wire
  import opened SnapshotErrors

  datatype Family = Inet | Inet6

  datatype Interface = Interface(
    index: U32,
    controller: Option<U32>,
    link: Option<U32>,
    linkNetns: Option<int>,
    unknown: seq<nat>,
    detail: seq<int>)

  datatype Address = Address(
    interfaceIndex: U32,
    family: Family,
    prefixLength: Byte,
    scope: Byte,
    flags: U32,
    address: nat,
    local: nat,
    unknown: seq<nat>,
    detail: seq<int>)

  datatype Route = Route(
    family: Family,
    destinationPrefixLength: Byte,
    sourcePrefixLength: Byte,
    destination: nat,
    source: nat,
    table: U32,
    routeType: Byte,
    scope: Byte,
    protocol: Byte,
    priority: Option<U32>,
    input: Option<U32>,
    output: Option<U32>,
    hops: seq<U32>,
    unknown: seq<nat>,
    detail: seq<int>)

  datatype Rule = Rule(
    family: Family,
    destinationPrefixLength: Byte,
    sourcePrefixLength: Byte,
    destination: nat,
    source: nat,
    table: U32,
    action: Byte,
    priority: Option<U32>,
    unknown: seq<nat>,
    detail: seq<int>)

  datatype Neighbor = Neighbor(
    family: Family,
    interfaceIndex: U32,
    destination: nat,
    unknown: seq<nat>,
    detail: seq<int>)

  /** A decoded message with the outcome of normalizing its attributes. */
  datatype Message =
    | NewLink(newLink: Result<Interface, SnapshotError>)
    | DelLink(index: U32)
    | NewAddress(newAddress: Result<Address, SnapshotError>)
    | DelAddress(delAddress: Result<Address, SnapshotError>)
    | NewRoute(newRoute: Result<Route, SnapshotError>)
    | DelRoute(delRoute: Result<Route, SnapshotError>)
    | NewRule(newRule: Result<Rule, SnapshotError>)
    | DelRule(delRule: Result<Rule, SnapshotError>)
    | NewNeighbor(newNeighbor: Result<Neighbor, SnapshotError>)
    | DelNeighbor(delNeighbor: Result<Neighbor, SnapshotError>)
    | OtherMessage

  datatype BufferedNotification = BufferedNotification(message: Message, bytes: nat)

  // ---------------------------------------------------------------------------------------
  // Identities: what the `same_*` predicates compare.

  datatype Key =
    | LinkKey(index: U32)
    | AddressKey(interfaceIndex: U32, family: Family, prefixLength: Byte, address: nat, local: nat)
    | RouteKey(family: Family, destinationPrefixLength: Byte, sourcePrefixLength: Byte, destination: nat,
               source: nat, table: U32, routeType: Byte, protocol: Byte, priority: Option<U32>)
    | NeighborKey(family: Family, interfaceIndex: U32, destination: nat)

  datatype Entity =
    | LinkEntity(link: Interface)
    | AddressEntity(address: Address)
    | RouteEntity(route: Route)
    | NeighborEntity(neighbor: Neighbor)

  function KeyOfLink(r: Interface): Key { LinkKey(r.index) }

  function KeyOfAddress(r: Address): Key {
    AddressKey(r.interfaceIndex, r.family, r.prefixLength, r.address, r.local)
  }

  function KeyOfRoute(r: Route): Key {
    RouteKey(r.family, r.destinationPrefixLength, r.sourcePrefixLength, r.destination, r.source, r.table,
             r.routeType, r.protocol, r.priority)
  }

  function KeyOfNeighbor(r: Neighbor): Key { NeighborKey(r.family, r.interfaceIndex, r.destination) }

  function WrapLink(r: Interface): Entity { LinkEntity(r) }
  function WrapAddress(r: Address): Entity { AddressEntity(r) }
  function WrapRoute(r: Route): Entity { RouteEntity(r) }
  function WrapNeighbor(r: Neighbor): Entity { NeighborEntity(r) }

  function UnknownOfLink(r: Interface): seq<nat> { r.unknown }
  function UnknownOfAddress(r: Address): seq<nat> { r.unknown }
  function UnknownOfRoute(r: Route): seq<nat> { r.unknown }
  function UnknownOfRule(r: Rule): seq<nat> { r.unknown }
  function UnknownOfNeighbor(r: Neighbor): seq<nat> { r.unknown }

  /** `same_rule`: by priority when both rules carry one, by selector otherwise. */
  predicate SameRule(l: Rule, r: Rule) {
    l.family == r.family
    && if l.priority.Some? && r.priority.Some? then l.priority == r.priority else SameSelector(l, r)
  }

  predicate SameSelector(l: Rule, r: Rule) {
    && l.destinationPrefixLength == r.destinationPrefixLength
    && l.sourcePrefixLength == r.sourcePrefixLength
    && l.destination == r.destination
    && l.source == r.source
    && l.table == r.table
    && l.action == r.action
  }

  // ---------------------------------------------------------------------------------------
  // Flattened fields, whose lexicographic order sorts a table.

  function FlatFamily(f: Family): int { if f.Inet? then 2 else 10 }

  /** Absent before present, then by value. */
  function FlatOption(o: Option<int>): (s: seq<int>)
    ensures |s| == 2
  {
    if o.None? then [0, 0] else [1, o.value]
  }

  function FlatLink(r: Interface): seq<int> {
    [r.index] + FlatOption(r.controller) + FlatOption(r.link) + FlatOption(r.linkNetns) + [|r.unknown|] + r.unknown
        + r.detail
  }

  function FlatAddress(r: Address): seq<int> {
    [r.interfaceIndex, FlatFamily(r.family), r.prefixLength, r.scope, r.flags, r.address, r.local, |r.unknown|]
        + r.unknown + r.detail
  }

  function FlatRoute(r: Route): seq<int> {
    [FlatFamily(r.family), r.destinationPrefixLength, r.sourcePrefixLength, r.destination, r.source, r.table,
     r.routeType, r.scope, r.protocol] + FlatOption(r.priority) + FlatOption(r.input) + FlatOption(r.output)
    + [|r.hops|, |r.unknown|] + r.hops + r.unknown + r.detail
  }

  function FlatRule(r: Rule): seq<int> {
    [FlatFamily(r.family), r.destinationPrefixLength, r.sourcePrefixLength, r.destination, r.source, r.table,
     r.action] + FlatOption(r.priority) + [|r.unknown|] + r.unknown + r.detail
  }

  function FlatNeighbor(r: Neighbor): seq<int> {
    [FlatFamily(r.family), r.interfaceIndex, r.destination, |r.unknown|] + r.unknown + r.detail
  }
}
