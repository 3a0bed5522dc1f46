/** The automaton that watches the order of IPv6 extension headers
    (crates/nodenet-protocols/src/ipv6.rs, `ExtensionOrder`). */
module ExtensionOrder {
  import opened Wire

  const HOP_BY_HOP: Byte := 0
  const ROUTING: Byte := 43
  const FRAGMENT: Byte := 44
  const AUTHENTICATION: Byte := 51
  const DESTINATION_OPTIONS: Byte := 60

  predicate IsExtension(protocol: Byte) {
    protocol == HOP_BY_HOP || protocol == ROUTING || protocol == FRAGMENT || protocol == AUTHENTICATION
    || protocol == DESTINATION_OPTIONS
  }

  /** The conformance bits of a parsed packet. */
  datatype Issue =
    | HopByHopNotFirst
    | DuplicateHopByHop
    | DuplicateRouting
    | DuplicateFragment
    | DuplicateAuthentication
    | TooManyDestinationOptions
    | NonCanonicalOrder
    | NoNextHeaderData

  type Issues = set<Issue>

  const CANONICAL: Issues := {}

  function Insert(issues: Issues, condition: bool, issue: Issue): Issues {
    if condition then issues + {issue} else issues
  }

  datatype Order = Order(
    issues: Issues,
    stage: nat,
    hopByHop: nat,
    routing: nat,
    fragment: nat,
    authentication: nat,
    destinationOptions: nat)

  const START := Order(CANONICAL, 0, 0, 0, 0, 0, 0)

  function Max(a: nat, b: nat): nat { if a < b then b else a }

  /** `observe`. */
  function Observe(o: Order, protocol: Byte, index: nat): Order {
    if protocol == HOP_BY_HOP then
      o.(hopByHop := o.hopByHop + 1,
         issues := Insert(Insert(Insert(o.issues, index != 0, HopByHopNotFirst),
                                 o.hopByHop > 0, DuplicateHopByHop),
                          o.stage != 0, NonCanonicalOrder))
    else if protocol == DESTINATION_OPTIONS then
      o.(destinationOptions := o.destinationOptions + 1,
         issues := Insert(Insert(o.issues, o.destinationOptions > 1, TooManyDestinationOptions),
                          o.destinationOptions > 0 && o.routing == 0, NonCanonicalOrder),
         stage := if o.destinationOptions == 0 && o.stage <= 1 then 1 else 5)
    else if protocol == ROUTING then
      o.(routing := o.routing + 1,
         issues := Insert(Insert(o.issues, o.routing > 0, DuplicateRouting), o.stage > 1, NonCanonicalOrder),
         stage := Max(o.stage, 2))
    else if protocol == FRAGMENT then
      o.(fragment := o.fragment + 1,
         issues := Insert(Insert(Insert(o.issues, o.fragment > 0, DuplicateFragment),
                                 o.destinationOptions > 0 && o.routing == 0, NonCanonicalOrder),
                          o.stage > 2, NonCanonicalOrder),
         stage := Max(o.stage, 3))
    else if protocol == AUTHENTICATION then
      o.(authentication := o.authentication + 1,
         issues := Insert(Insert(Insert(o.issues, o.authentication > 0, DuplicateAuthentication),
                                 o.destinationOptions > 0 && o.routing == 0, NonCanonicalOrder),
                          o.stage > 3, NonCanonicalOrder),
         stage := Max(o.stage, 4))
    else o
  }

  /** The automaton after a whole chain. */
  function Watch(protocols: seq<Byte>): Order {
    if protocols == [] then START
    else
      var n := |protocols| - 1;
      Observe(Watch(protocols[..n]), protocols[n], n)
  }

  /** The mutable observer of the source. */
  class OrderWatcher {
    var issues: Issues
    var stage: nat
    var hopByHop: nat
    var routing: nat
    var fragment: nat
    var authentication: nat
    var destinationOptions: nat

    function State(): Order
      reads this
    {
      Order(issues, stage, hopByHop, routing, fragment, authentication, destinationOptions)
    }

    constructor ()
      ensures State() == START
    {
      issues, stage, hopByHop, routing, fragment, authentication, destinationOptions := CANONICAL, 0, 0, 0, 0, 0, 0;
    }

    method ObserveHopByHop(index: nat)
      modifies this
      ensures State() == Observe(old(State()), HOP_BY_HOP, index)
    {
      hopByHop := hopByHop + 1;
      issues := Insert(issues, index != 0, HopByHopNotFirst);
      issues := Insert(issues, hopByHop > 1, DuplicateHopByHop);
      issues := Insert(issues, stage != 0, NonCanonicalOrder);
    }

    method ObserveDestinationOptions(index: nat)
      modifies this
      ensures State() == Observe(old(State()), DESTINATION_OPTIONS, index)
    {
      destinationOptions := destinationOptions + 1;
      issues := Insert(issues, destinationOptions > 2, TooManyDestinationOptions);
      if destinationOptions == 1 {
        stage := if stage <= 1 then 1 else 5;
      } else {
        issues := Insert(issues, routing == 0, NonCanonicalOrder);
        stage := 5;
      }
    }

    method ObserveRouting(index: nat)
      modifies this
      ensures State() == Observe(old(State()), ROUTING, index)
    {
      routing := routing + 1;
      issues := Insert(issues, routing > 1, DuplicateRouting);
      issues := Insert(issues, stage > 1, NonCanonicalOrder);
      stage := Max(stage, 2);
    }

    method ObserveFragment(index: nat)
      modifies this
      ensures State() == Observe(old(State()), FRAGMENT, index)
    {
      fragment := fragment + 1;
      issues := Insert(issues, fragment > 1, DuplicateFragment);
      issues := Insert(issues, destinationOptions > 0 && routing == 0, NonCanonicalOrder);
      issues := Insert(issues, stage > 2, NonCanonicalOrder);
      stage := Max(stage, 3);
    }

    method ObserveAuthentication(index: nat)
      modifies this
      ensures State() == Observe(old(State()), AUTHENTICATION, index)
    {
      authentication := authentication + 1;
      issues := Insert(issues, authentication > 1, DuplicateAuthentication);
      issues := Insert(issues, destinationOptions > 0 && routing == 0, NonCanonicalOrder);
      issues := Insert(issues, stage > 3, NonCanonicalOrder);
      stage := Max(stage, 4);
    }

    method ObserveHeader(protocol: Byte, index: nat)
      modifies this
      ensures State() == Observe(old(State()), protocol, index)
    {
      if protocol == HOP_BY_HOP {
        ObserveHopByHop(index);
      } else if protocol == DESTINATION_OPTIONS {
        ObserveDestinationOptions(index);
      } else if protocol == ROUTING {
        ObserveRouting(index);
      } else if protocol == FRAGMENT {
        ObserveFragment(index);
      } else if protocol == AUTHENTICATION {
        ObserveAuthentication(index);
      }
    }
  }

  // ---------------------------------------------------------------------------------------
  // The orders without an issue.

  /** How often each header occurs at each of its places. */
  datatype Layout = Layout(hopByHop: nat, early: nat, routing: nat, fragment: nat, authentication: nat, late: nat)

  /** At most one of each but destination options; these at most twice, early only in front of a routing
      header and at most once there, and at most one altogether without a routing header. */
  predicate Legal(l: Layout) {
    && l.hopByHop <= 1 && l.early <= l.routing <= 1 && l.fragment <= 1 && l.authentication <= 1
    && l.early + l.late <= 1 + l.routing
  }

  function Size(l: Layout): nat {
    l.hopByHop + l.early + l.routing + l.fragment + l.authentication + l.late
  }

  function Repeat(b: Byte, n: nat): (s: seq<Byte>)
    ensures |s| == n
  {
    seq(n, _ => b)
  }

  function Front(l: Layout): seq<Byte> {
    Repeat(HOP_BY_HOP, l.hopByHop) + Repeat(DESTINATION_OPTIONS, l.early) + Repeat(ROUTING, l.routing)
  }

  function Back(l: Layout): (s: seq<Byte>)
    ensures |s| == l.fragment + l.authentication + l.late
  {
    Repeat(FRAGMENT, l.fragment) + Repeat(AUTHENTICATION, l.authentication) + Repeat(DESTINATION_OPTIONS, l.late)
  }

  /** Hop-by-hop, destination options, routing, fragment, authentication, destination options. */
  function Expand(l: Layout): (s: seq<Byte>)
    ensures |s| == Size(l)
  {
    Front(l) + Back(l)
  }

  /** The automaton's state at the end of a legal layout. */
  function StateOf(l: Layout): Order {
    Order(CANONICAL,
          if l.late > 0 then (if l.routing + l.fragment + l.authentication == 0 then 1 else 5)
          else if l.authentication > 0 then 4 else if l.fragment > 0 then 3 else if l.routing > 0 then 2 else 0,
          l.hopByHop, l.routing, l.fragment, l.authentication, l.early + l.late)
  }

  /** The layout without its last header. */
  function Shorter(l: Layout): Layout
    requires Legal(l) && Size(l) > 0
  {
    if l.late > 0 then l.(late := l.late - 1)
    else if l.authentication > 0 then l.(authentication := 0)
    else if l.fragment > 0 then l.(fragment := 0)
    else if l.routing > 0 then l.(routing := 0, early := 0, late := l.early)
    else l.(hopByHop := 0)
  }

  function Last(l: Layout): Byte {
    if l.late > 0 then DESTINATION_OPTIONS
    else if l.authentication > 0 then AUTHENTICATION
    else if l.fragment > 0 then FRAGMENT
    else if l.routing > 0 then ROUTING
    else HOP_BY_HOP
  }

  lemma RoutingLast(l: Layout)
    requires Legal(l) && l.routing == 1 && l.fragment + l.authentication + l.late == 0
    ensures Expand(l) == Expand(Shorter(l)) + [ROUTING]
  {
    hide Repeat;
    RepeatNone(FRAGMENT);
    RepeatNone(AUTHENTICATION);
    RepeatNone(DESTINATION_OPTIONS);
    RepeatNone(ROUTING);
    RepeatMore(ROUTING, 0);
    var h, d := Repeat(HOP_BY_HOP, l.hopByHop), Repeat(DESTINATION_OPTIONS, l.early);
    assert Front(l) == h + d + [ROUTING] && Back(l) == [];
    assert Front(Shorter(l)) == h && Back(Shorter(l)) == d;
  }

  lemma HopByHopLast(l: Layout)
    requires l == Layout(1, 0, 0, 0, 0, 0)
    ensures Expand(l) == Expand(l.(hopByHop := 0)) + [HOP_BY_HOP]
  {
    assert Expand(l) == [HOP_BY_HOP];
  }

  lemma FrontShorter(l: Layout)
    requires Legal(l) && Size(l) > 0 && l.fragment + l.authentication + l.late == 0
    ensures Expand(l) == Expand(Shorter(l)) + [Last(l)]
  {
    hide Expand;
    if l.routing > 0 { RoutingLast(l); } else { HopByHopLast(l); }
  }

  lemma BackShorter(l: Layout)
    requires Legal(l) && l.fragment + l.authentication + l.late > 0
    ensures Back(l) == Back(Shorter(l)) + [Last(l)]
  {
    hide Repeat;
    RepeatNone(FRAGMENT);
    RepeatNone(AUTHENTICATION);
    RepeatNone(DESTINATION_OPTIONS);
    if l.late > 0 {
      RepeatMore(DESTINATION_OPTIONS, l.late - 1);
    } else if l.authentication > 0 {
      RepeatMore(AUTHENTICATION, 0);
    } else {
      RepeatMore(FRAGMENT, 0);
    }
  }

  lemma ShorterExpands(l: Layout)
    requires Legal(l) && Size(l) > 0
    ensures Legal(Shorter(l)) && Expand(l) == Expand(Shorter(l)) + [Last(l)]
  {
    hide Back, Repeat;
    if l.fragment + l.authentication + l.late > 0 {
      BackShorter(l);
    } else {
      FrontShorter(l);
    }
  }

  lemma RepeatNone(b: Byte)
    ensures Repeat(b, 0) == []
  {
  }

  lemma RepeatMore(b: Byte, n: nat)
    ensures Repeat(b, n + 1) == Repeat(b, n) + [b]
  {
  }

  lemma LateObserved(l: Layout)
    requires Legal(l) && l.late > 0
    ensures Observe(StateOf(Shorter(l)), DESTINATION_OPTIONS, Size(Shorter(l))) == StateOf(l)
  {
  }

  lemma AuthenticationObserved(l: Layout)
    requires Legal(l) && l.late == 0 && l.authentication > 0
    ensures Observe(StateOf(Shorter(l)), AUTHENTICATION, Size(Shorter(l))) == StateOf(l)
  {
  }

  lemma FragmentObserved(l: Layout)
    requires Legal(l) && l.late + l.authentication == 0 && l.fragment > 0
    ensures Observe(StateOf(Shorter(l)), FRAGMENT, Size(Shorter(l))) == StateOf(l)
  {
  }

  lemma FrontObserved(l: Layout)
    requires Legal(l) && l.late + l.authentication + l.fragment == 0 && Size(l) > 0
    ensures Observe(StateOf(Shorter(l)), Last(l), Size(Shorter(l))) == StateOf(l)
  {
  }

  lemma ShorterObserved(l: Layout)
    requires Legal(l) && Size(l) > 0
    ensures Observe(StateOf(Shorter(l)), Last(l), Size(Shorter(l))) == StateOf(l)
  {
    hide Observe, StateOf;
    if l.late > 0 {
      LateObserved(l);
    } else if l.authentication > 0 {
      AuthenticationObserved(l);
    } else if l.fragment > 0 {
      FragmentObserved(l);
    } else {
      FrontObserved(l);
    }
  }

  lemma {:induction false} LayoutWatched(l: Layout)
    requires Legal(l)
    ensures Watch(Expand(l)) == StateOf(l)
    decreases Size(l)
  {
    hide Observe, StateOf, Shorter, Last, Expand;
    if Size(l) == 0 {
      EmptyLayout(l);
    } else {
      ShorterExpands(l);
      ShorterObserved(l);
      LayoutWatched(Shorter(l));
      assert Expand(l)[..|Expand(l)| - 1] == Expand(Shorter(l));
    }
  }

  lemma EmptyLayout(l: Layout)
    requires Size(l) == 0
    ensures StateOf(l) == START
  {
  }

  /** Issues are never withdrawn. */
  lemma IssuesStay(o: Order, protocol: Byte, index: nat)
    ensures Observe(o, protocol, index).issues == CANONICAL ==> o.issues == CANONICAL
  {
  }

  /** A header without an issue extends the layout. */
  function Longer(l: Layout, protocol: Byte): Layout {
    if protocol == HOP_BY_HOP then l.(hopByHop := 1)
    else if protocol == DESTINATION_OPTIONS then l.(late := l.late + 1)
    else if protocol == ROUTING then l.(routing := 1, early := l.late, late := 0)
    else if protocol == FRAGMENT then l.(fragment := 1)
    else l.(authentication := 1)
  }

  lemma LayoutExtended(l: Layout, protocol: Byte)
    requires Legal(l) && IsExtension(protocol) && Observe(StateOf(l), protocol, Size(l)).issues == CANONICAL
    ensures Legal(Longer(l, protocol)) && Expand(Longer(l, protocol)) == Expand(l) + [protocol]
  {
    hide Observe, StateOf, Expand;
    NothingAfter(l, protocol);
    var m := Longer(l, protocol);
    assert Legal(m) && Shorter(m) == l && Last(m) == protocol;
    ShorterExpands(m);
  }

  /** What the automaton has not seen when it accepts a header. */
  lemma NothingAfter(l: Layout, protocol: Byte)
    requires Legal(l) && IsExtension(protocol) && Observe(StateOf(l), protocol, Size(l)).issues == CANONICAL
    ensures protocol == HOP_BY_HOP ==> Size(l) == 0
    ensures protocol == ROUTING ==> l.routing + l.fragment + l.authentication + l.early == 0
    ensures protocol == FRAGMENT ==> l.fragment + l.authentication + l.late == 0
    ensures protocol == AUTHENTICATION ==> l.authentication + l.late == 0
    ensures protocol == DESTINATION_OPTIONS ==> l.early + l.late <= l.routing
  {
  }

  ghost predicate InOrder(protocols: seq<Byte>) {
    exists l :: Legal(l) && Expand(l) == protocols
  }

  /** The automaton reports no issue exactly on the chains of a legal layout. */
  lemma {:induction false} OrderExact(protocols: seq<Byte>)
    requires forall i :: 0 <= i < |protocols| ==> IsExtension(protocols[i])
    ensures Watch(protocols).issues == CANONICAL <==> InOrder(protocols)
    decreases |protocols|
  {
    hide Legal, Observe, StateOf, Longer;
    if InOrder(protocols) {
      var l :| Legal(l) && Expand(l) == protocols;
      LayoutWatched(l);
      NoIssues(l);
    }
    if protocols == [] {
      EmptyInOrder();
    } else if Watch(protocols).issues == CANONICAL {
      var n := |protocols| - 1;
      IssuesStay(Watch(protocols[..n]), protocols[n], n);
      OrderExact(protocols[..n]);
      var l :| Legal(l) && Expand(l) == protocols[..n];
      LayoutWatched(l);
      LayoutExtended(l, protocols[n]);
      assert protocols == protocols[..n] + [protocols[n]];
    }
  }

  lemma NoIssues(l: Layout)
    ensures StateOf(l).issues == CANONICAL
  {
  }

  lemma EmptyInOrder()
    ensures InOrder([])
  {
    assert Legal(Layout(0, 0, 0, 0, 0, 0)) && Expand(Layout(0, 0, 0, 0, 0, 0)) == [];
  }
}
