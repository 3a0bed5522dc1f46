/** Whole Neighbor Discovery packets: context rules, builder, parser and their round trip
    (crates/nodenet-protocols/src/ndp.rs; section 4 of RFC 4861). */
module NdpPacket {
  import opened Wire
  import opened Packet
  import opened Buffers
  import opened Ndp
  import C = Checksum

  const MAX_ICMPV6_MESSAGE_BYTES: nat := 65535
  const ICMPV6_PROTOCOL: Byte := 58
  const ALL_NODES: Bytes := [0xff, 2, 0, 0, 0, 0, 0, 0, 0, 0, 0, 0, 0, 0, 0, 1]
  const ALL_ROUTERS: Bytes := [0xff, 2, 0, 0, 0, 0, 0, 0, 0, 0, 0, 0, 0, 0, 0, 2]

  datatype NdpContext = NdpContext(source: Bytes, destination: Bytes, hopLimit: Byte)

  predicate Addressed(c: NdpContext) { |c.source| == 16 && |c.destination| == 16 }

  predicate Unspecified(a: Bytes) { AllZero(a) }

  predicate Multicast(a: Bytes) { |a| > 0 && a[0] == 0xff }

  predicate LinkLocal(a: Bytes) { |a| > 1 && a[0] == 0xfe && a[1] / 64 == 2 }

  predicate InvalidTarget(a: Bytes) { Unspecified(a) || Multicast(a) }

  function SolicitedNode(target: Bytes): Bytes
    requires |target| == 16
  {
    [0xff, 2, 0, 0, 0, 0, 0, 0, 0, 0, 0, 1, 0xff] + target[13..]
  }

  // ---------------------------------------------------------------------------------------
  // Placement of options.

  predicate Allowed(m: NdpMessage, o: NdpOption) {
    match o
    case SourceLinkLayerAddress(_) => m.RouterSolicitation? || m.RouterAdvertisement? || m.NeighborSolicitation?
    case TargetLinkLayerAddress(_) => m.NeighborAdvertisement? || m.Redirect?
    case PrefixInformation(_, _, _, _, _, _) => m.RouterAdvertisement?
    case Mtu(_) => m.RouterAdvertisement?
    case RedirectedHeader(_) => m.Redirect?
    case UnknownOption(_, _) => true
  }

  predicate ParsedAllowed(m: NdpMessage, o: ParsedOption) {
    match o
    case ParsedSource(_) => m.RouterSolicitation? || m.RouterAdvertisement? || m.NeighborSolicitation?
    case ParsedTarget(_) => m.NeighborAdvertisement? || m.Redirect?
    case ParsedPrefix(_, _, _, _, _) => m.RouterAdvertisement?
    case ParsedMtu(_) => m.RouterAdvertisement?
    case ParsedRedirected(_) => m.Redirect?
    case ParsedUnknown(_, _) => true
  }

  /** How often the options occur that may occur once. */
  datatype Tally = Tally(source: nat, target: nat, mtu: nat)

  predicate Single(t: Tally) { t.source <= 1 && t.target <= 1 && t.mtu <= 1 }

  function Count(os: seq<NdpOption>): Tally {
    if os == [] then Tally(0, 0, 0)
    else
      var t := Count(os[..|os| - 1]);
      match os[|os| - 1]
      case SourceLinkLayerAddress(_) => t.(source := t.source + 1)
      case TargetLinkLayerAddress(_) => t.(target := t.target + 1)
      case Mtu(_) => t.(mtu := t.mtu + 1)
      case _ => t
  }

  function ParsedCount(os: seq<ParsedOption>): Tally {
    if os == [] then Tally(0, 0, 0)
    else
      var t := ParsedCount(os[..|os| - 1]);
      match os[|os| - 1]
      case ParsedSource(_) => t.(source := t.source + 1)
      case ParsedTarget(_) => t.(target := t.target + 1)
      case ParsedMtu(_) => t.(mtu := t.mtu + 1)
      case _ => t
  }

  /** The first option that is not allowed or whose lifetimes are not ordered. */
  function Misplaced(m: NdpMessage, os: seq<NdpOption>): Option<BuildError> {
    if os == [] then None
    else
      match Misplaced(m, os[..|os| - 1])
      case Some(e) => Some(e)
      case None =>
        var o := os[|os| - 1];
        if !Allowed(m, o) then Some(InvalidValue(OptionKind))
        else if !LifetimesOrdered(o) then Some(InvalidValue(OptionLength))
        else None
  }

  /** `validate_option_placement`. */
  function Placement(m: NdpMessage, os: seq<NdpOption>): Option<BuildError> {
    if Misplaced(m, os).Some? then Misplaced(m, os)
    else if !Single(Count(os)) then Some(InvalidValue(OptionKind))
    else None
  }

  method ValidatePlacement(m: NdpMessage, os: seq<NdpOption>) returns (e: Option<BuildError>)
    ensures e == Placement(m, os)
  {
    hide Allowed, LifetimesOrdered;
    var tally := Tally(0, 0, 0);
    for i := 0 to |os|
      invariant Misplaced(m, os[..i]).None? && tally == Count(os[..i])
    {
      var o := os[i];
      assert os[..i + 1][..i] == os[..i];
      MisplacedStays(m, os, i + 1);
      if !Allowed(m, o) { return Some(InvalidValue(OptionKind)); }
      match o {
        case SourceLinkLayerAddress(_) => tally := tally.(source := tally.source + 1);
        case TargetLinkLayerAddress(_) => tally := tally.(target := tally.target + 1);
        case Mtu(_) => tally := tally.(mtu := tally.mtu + 1);
        case _ =>
      }
      if !LifetimesOrdered(o) { return Some(InvalidValue(OptionLength)); }
    }
    assert os[..|os|] == os;
    e := if Single(tally) then None else Some(InvalidValue(OptionKind));
  }

  lemma {:induction false} MisplacedStays(m: NdpMessage, os: seq<NdpOption>, n: nat)
    requires n <= |os|
    ensures Misplaced(m, os[..n]).Some? ==> Misplaced(m, os) == Misplaced(m, os[..n])
    decreases |os|
  {
    hide Allowed, LifetimesOrdered;
    if n == |os| {
      assert os[..n] == os;
    } else {
      MisplacedStays(m, os[..|os| - 1], n);
      assert os[..|os| - 1][..n] == os[..n];
    }
  }

  predicate HasSource(os: seq<NdpOption>) { exists i :: 0 <= i < |os| && os[i].SourceLinkLayerAddress? }

  /** The addressing rules of `validate_context`, given whether a source link-layer address is present. */
  predicate Addressing(c: NdpContext, m: NdpMessage, hasSource: bool)
    requires WellTyped(m)
  {
    match m
    case RouterSolicitation =>
      c.destination == ALL_ROUTERS && (Unspecified(c.source) || !Multicast(c.source))
          && !(Unspecified(c.source) && hasSource)
    case RouterAdvertisement(_, _, _, preference, _, _, _) =>
      -1 <= preference <= 1 && LinkLocal(c.source) && !Unspecified(c.destination)
          && (Multicast(c.destination) ==> c.destination == ALL_NODES)
    case NeighborSolicitation(target) =>
      && !InvalidTarget(target)
      && (if Unspecified(c.source) then c.destination == SolicitedNode(target) && !hasSource
          else !Multicast(c.source) && (c.destination == target || c.destination == SolicitedNode(target)))
    case NeighborAdvertisement(_, solicited, _, target) =>
      && !InvalidTarget(target) && !Unspecified(c.source) && !Multicast(c.source)
      && !Unspecified(c.destination) && !(Multicast(c.destination) && solicited)
    case Redirect(target, destination) =>
      && LinkLocal(c.source) && !Unspecified(c.destination) && !Multicast(c.destination)
      && !InvalidTarget(destination) && (LinkLocal(target) || target == destination)
  }

  /** `validate_context`. */
  function ValidateContext(c: NdpContext, m: NdpMessage, os: seq<NdpOption>): Option<BuildError>
    requires WellTyped(m)
  {
    if c.hopLimit != 255 then Some(InvalidValue(HopLimit))
    else if Placement(m, os).Some? then Placement(m, os)
    else if !Addressing(c, m, HasSource(os)) then Some(InvalidValue(SourceAddress))
    else None
  }

  // ---------------------------------------------------------------------------------------
  // The builder.

  datatype Builder = Builder(context: NdpContext, message: NdpMessage, options: seq<NdpOption>)

  predicate BuilderTyped(b: Builder) {
    Addressed(b.context) && WellTyped(b.message) && forall i :: 0 <= i < |b.options| ==> Typed(b.options[i])
  }

  /** The option bytes, or the first option that has no length. */
  function OptionTotal(os: seq<NdpOption>): Result<nat, BuildError> {
    if os == [] then Ok(0)
    else
      match OptionTotal(os[..|os| - 1])
      case Err(e) => Err(e)
      case Ok(t) =>
        match RequiredLength(os[|os| - 1])
        case Err(e) => Err(e)
        case Ok(n) => Ok(t + n)
  }

  /** `required_length`. */
  function Validate(b: Builder): Result<nat, BuildError>
    requires WellTyped(b.message)
  {
    if ValidateContext(b.context, b.message, b.options).Some?
        then Err(ValidateContext(b.context, b.message, b.options).value)
    else if |b.options| > MAX_NDP_OPTION_COUNT then Err(LengthExceedsLimit)
    else
      match OptionTotal(b.options)
      case Err(e) => Err(e)
      case Ok(n) =>
        if n > MAX_NDP_OPTION_BYTES then Err(LengthExceedsLimit)
        else if MessageLength(b.message) + n > MAX_ICMPV6_MESSAGE_BYTES then Err(LengthExceedsLimit)
        else Ok(MessageLength(b.message) + n)
  }

  lemma {:induction false} TotalExact(os: seq<NdpOption>)
    requires (forall i :: 0 <= i < |os| ==> Typed(os[i])) && OptionTotal(os).Ok?
    ensures AllSendable(os) && |AllBytes(os)| == OptionTotal(os).value
    decreases |os|
  {
    hide RequiredLength, OptionBytes, Typed;
    if os != [] {
      var init, last := os[..|os| - 1], os[|os| - 1];
      TotalExact(init);
      assert os == init + [last];
      BytesSnoc(init, last);
      LengthOf(last);
    }
  }

  lemma LengthOf(o: NdpOption)
    requires Sendable(o)
    ensures |OptionBytes(o)| == RequiredLength(o).value
  {
  }

  lemma {:induction false} BytesSnoc(os: seq<NdpOption>, o: NdpOption)
    requires AllSendable(os) && Sendable(o)
    ensures AllBytes(os + [o]) == AllBytes(os) + OptionBytes(o)
    decreases |os|
  {
    hide OptionBytes, Sendable;
    if os == [] {
      assert (os + [o])[1..] == [];
    } else {
      BytesSnoc(os[1..], o);
      assert (os + [o])[1..] == os[1..] + [o];
    }
  }

  lemma {:induction false} PlacedOrdered(m: NdpMessage, os: seq<NdpOption>)
    requires Misplaced(m, os).None?
    ensures AllOrdered(os) && forall i :: 0 <= i < |os| ==> Allowed(m, os[i])
    decreases |os|
  {
    hide Allowed, LifetimesOrdered;
    if os != [] {
      PlacedOrdered(m, os[..|os| - 1]);
      assert os == os[..|os| - 1] + [os[|os| - 1]];
    }
  }

  function ContextOf(c: NdpContext): C.Context { C.Ipv6(c.source, c.destination) }

  function Clear(b: Builder): (s: Bytes)
    requires BuilderTyped(b) && Validate(b).Ok?
    ensures |s| == Validate(b).value && |s| >= 8
  {
    TotalExact(b.options);
    MessageBytes(b.message) + AllBytes(b.options)
  }

  function ChecksumField(b: Builder): U16
    requires BuilderTyped(b) && Validate(b).Ok?
  {
    C.FieldValue(C.PseudoHeader(ContextOf(b.context), ICMPV6_PROTOCOL, |Clear(b)|) + Clear(b), false)
  }

  function Build(b: Builder): (s: Bytes)
    requires BuilderTyped(b) && Validate(b).Ok?
    ensures |s| == Validate(b).value
  {
    WithWord(Clear(b), 2, ChecksumField(b))
  }

  // ---------------------------------------------------------------------------------------
  // The parser.

  datatype Conformance = Conformance(reservedZero: bool, preferenceAssigned: bool, single: bool, allowed: bool,
      lifetimesOrdered: bool)

  const CANONICAL := Conformance(true, true, true, true, true)

  datatype Parsed = Parsed(checksum: U16, message: NdpMessage, options: seq<ParsedOption>, conformance: Conformance)

  predicate AllAllowed(m: NdpMessage, os: seq<ParsedOption>) {
    forall i :: 0 <= i < |os| ==> ParsedAllowed(m, os[i])
  }

  /** `parse_ndp_message`. */
  function Parse(input: Bytes, c: NdpContext): Result<Parsed, ParseError>
    requires Addressed(c)
  {
    if |input| > MAX_ICMPV6_MESSAGE_BYTES then Err(LimitExceeded)
    else if c.hopLimit != 255 then Err(Malformed(HopLimit))
    else if |input| < 8 then Err(Truncated)
    else if input[1] != 0 then Err(Malformed(Code))
    else if C.TransportChecksum(ContextOf(c), ICMPV6_PROTOCOL, input) != Some(0)
        then Err(Malformed(Field.TransportChecksum))
    else
      match ParseFixed(input)
      case Err(e) => Err(e)
      case Ok(f) =>
        var rest := input[MessageLength(f.message)..];
        if |rest| > MAX_NDP_OPTION_BYTES then Err(LimitExceeded)
        else
          match ParseOptions(rest, Decoded([], f.reservedZero, true))
          case Err(e) => Err(e)
          case Ok(d) =>
            var tally := ParsedCount(d.options);
            if !Addressing(c, f.message, f.message.RouterSolicitation? && tally.source != 0) then
              Err(Malformed(SourceAddress))
            else
              Ok(Parsed(U16At(input, 2), f.message, d.options,
                        Conformance(d.reservedZero, f.preferenceAssigned, Single(tally),
                            AllAllowed(f.message, d.options), d.lifetimesOrdered)))
  }

  lemma {:induction false} CountSeen(os: seq<NdpOption>)
    requires AllSendable(os)
    ensures ParsedCount(AllSeen(os)) == Count(os)
    decreases |os|
  {
    hide Sendable;
    if os != [] {
      CountSeen(os[..|os| - 1]);
      assert AllSeen(os)[..|os| - 1] == AllSeen(os[..|os| - 1]);
    }
  }

  lemma {:induction false} CountSource(os: seq<NdpOption>)
    ensures Count(os).source > 0 ==> HasSource(os)
    decreases |os|
  {
    if os != [] {
      CountSource(os[..|os| - 1]);
      if os[|os| - 1].SourceLinkLayerAddress? {
        assert HasSource(os);
      } else if HasSource(os[..|os| - 1]) {
        var i :| 0 <= i < |os| - 1 && os[..|os| - 1][i].SourceLinkLayerAddress?;
        assert os[i].SourceLinkLayerAddress?;
      }
    }
  }

  lemma SeenAllowed(m: NdpMessage, os: seq<NdpOption>)
    requires AllSendable(os) && forall i :: 0 <= i < |os| ==> Allowed(m, os[i])
    ensures AllAllowed(m, AllSeen(os))
  {
  }

  lemma BuildParts(b: Builder)
    requires BuilderTyped(b) && Validate(b).Ok?
    ensures var s, n := Build(b), MessageLength(b.message);
            && AllSendable(b.options) && Agrees(b.message, s) && s[1] == 0 && U16At(s, 2) == ChecksumField(b)
            && s[n..] == AllBytes(b.options)
  {
    hide Be16, U16At, MessageBytes, AllBytes, ChecksumField, ValidateContext, OptionTotal;
    TotalExact(b.options);
    var s, c, n := Build(b), Clear(b), MessageLength(b.message);
    var m := MessageBytes(b.message);
    assert c[..n] == m && c[n..] == AllBytes(b.options);
    assert s[..2] == c[..2] && s[4..] == c[4..] && s[n..] == c[n..];
    forall i | 0 <= i < n && i != 2 && i != 3 ensures s[i] == m[i] {
      assert s[i] == c[i] == c[..n][i];
    }
    SecondByte(b.message);
    U16Here(s, 2, ChecksumField(b));
  }

  lemma ChecksumWritten(b: Builder)
    requires BuilderTyped(b) && Validate(b).Ok?
    ensures C.TransportChecksum(ContextOf(b.context), ICMPV6_PROTOCOL, Build(b)) == Some(0)
  {
    hide C.Checksum, C.TransportChecksum, MessageBytes, AllBytes, ValidateContext, OptionTotal;
    TotalExact(b.options);
    var c := Clear(b);
    assert c[2] == MessageBytes(b.message)[2] == 0 && c[3] == MessageBytes(b.message)[3] == 0;
    C.TransportWrittenValidates(ContextOf(b.context), ICMPV6_PROTOCOL, c, 2, false);
  }

  lemma SecondByte(m: NdpMessage)
    requires WellTyped(m)
    ensures MessageBytes(m)[1] == 0
  {
  }

  /** What the builder's checks leave for the parser to find. */
  lemma ValidFacts(b: Builder)
    requires BuilderTyped(b) && Validate(b).Ok?
    ensures AllSendable(b.options) && |b.options| <= MAX_NDP_OPTION_COUNT
        && |AllBytes(b.options)| <= MAX_NDP_OPTION_BYTES
    ensures b.context.hopLimit == 255 && Misplaced(b.message, b.options).None? && Single(Count(b.options))
    ensures Addressing(b.context, b.message, HasSource(b.options)) && 8 <= Validate(b).value <= MAX_ICMPV6_MESSAGE_BYTES
  {
    hide Misplaced, Count, OptionTotal, Addressing;
    TotalExact(b.options);
  }

  lemma AddressingWithout(c: NdpContext, m: NdpMessage, had: bool, has: bool)
    requires WellTyped(m) && Addressing(c, m, had) && (has ==> had)
    ensures Addressing(c, m, has) && (m.RouterAdvertisement? ==> -1 <= m.preference <= 1)
  {
    hide SolicitedNode;
  }

  /** Every packet the builder accepts parses to the same message, to its options up to the zero padding of
      unknown and redirected-header bodies, and with canonical conformance. */
  lemma BuildParse(b: Builder)
    requires BuilderTyped(b) && Validate(b).Ok?
    ensures AllSendable(b.options)
    ensures Parse(Build(b), b.context) == Ok(Parsed(ChecksumField(b), b.message, AllSeen(b.options), CANONICAL))
  {
    hide U16At, Build, C.TransportChecksum, ChecksumField, ParseOptions, ParseFixed, AllBytes, AllSeen, MessageBytes,
        Agrees;
    hide Count, ParsedCount, Allowed, AllAllowed, Validate, Addressing, Misplaced, HasSource;
    ValidFacts(b);
    BuildParts(b);
    ChecksumWritten(b);
    PlacedOrdered(b.message, b.options);
    CountSeen(b.options);
    CountSource(b.options);
    SeenAllowed(b.message, b.options);
    AddressingWithout(b.context, b.message, HasSource(b.options),
                      b.message.RouterSolicitation? && Count(b.options).source != 0);
    MessageRead(b.message, Build(b));
    OptionsRead(b.options, Decoded([], true, true));
    assert [] + AllSeen(b.options) == AllSeen(b.options);
  }

  // ---------------------------------------------------------------------------------------
  // The loops of the source.

  /** `required_length`. */
  method ValidatePacket(b: Builder) returns (r: Result<nat, BuildError>)
    requires WellTyped(b.message)
    ensures r == Validate(b)
  {
    hide Placement, Addressing, RequiredLength;
    if b.context.hopLimit != 255 { return Err(InvalidValue(HopLimit)); }
    var placed := ValidatePlacement(b.message, b.options);
    if placed.Some? { return Err(placed.value); }
    var hasSource := FindSource(b.options);
    if !Addressing(b.context, b.message, hasSource) { return Err(InvalidValue(SourceAddress)); }
    if |b.options| > MAX_NDP_OPTION_COUNT { return Err(LengthExceedsLimit); }
    var total: nat := 0;
    for i := 0 to |b.options|
      invariant OptionTotal(b.options[..i]) == Ok(total)
    {
      assert b.options[..i + 1][..i] == b.options[..i];
      TotalStops(b.options, i + 1);
      var n := RequiredLength(b.options[i]);
      if n.Err? { return Err(n.error); }
      total := total + n.value;
    }
    assert b.options[..|b.options|] == b.options;
    if total > MAX_NDP_OPTION_BYTES { return Err(LengthExceedsLimit); }
    if MessageLength(b.message) + total > MAX_ICMPV6_MESSAGE_BYTES { return Err(LengthExceedsLimit); }
    r := Ok(MessageLength(b.message) + total);
  }

  lemma {:induction false} TotalStops(os: seq<NdpOption>, n: nat)
    requires n <= |os|
    ensures OptionTotal(os[..n]).Err? ==> OptionTotal(os) == OptionTotal(os[..n])
    decreases |os|
  {
    hide RequiredLength;
    if n == |os| {
      assert os[..n] == os;
    } else {
      TotalStops(os[..|os| - 1], n);
      assert os[..|os| - 1][..n] == os[..n];
    }
  }

  method FindSource(os: seq<NdpOption>) returns (found: bool)
    ensures found == HasSource(os)
  {
    for i := 0 to |os|
      invariant forall j :: 0 <= j < i ==> !os[j].SourceLinkLayerAddress?
    {
      if os[i].SourceLinkLayerAddress? { return true; }
    }
    found := false;
  }

  /** The options behind the message, over zeros. */
  method WriteOptions(os: seq<NdpOption>, start: nat, output: array<Byte>, ghost original: Bytes, ghost head: Bytes)
    requires AllSendable(os) && |head| == start
    requires Written(output, original, head + Zeros(|AllBytes(os)|))
    modifies output
    ensures Written(output, original, head + AllBytes(os))
  {
    hide Written, OptionBytes, Sendable, Zeros, AllBytes;
    var offset := start;
    ghost var done: Bytes, left := [], |AllBytes(os)|;
    assert os[0..] == os;
    assert head + done + Zeros(left) == head + Zeros(|AllBytes(os)|) && [] + AllBytes(os) == AllBytes(os);
    for i := 0 to |os|
      invariant offset == start + |done| && left == |AllBytes(os[i..])| && done + AllBytes(os[i..]) == AllBytes(os)
      invariant Written(output, original, head + done + Zeros(left))
    {
      var bytes := OptionBytes(os[i]);
      FirstOption(os, i);
      PutAt(output, offset, bytes, original, head + done + Zeros(left));
      PatchZeros(head + done, bytes, left);
      assert head + done + bytes == head + (done + bytes);
      assert done + (bytes + AllBytes(os[i + 1..])) == done + bytes + AllBytes(os[i + 1..]);
      done := done + bytes;
      left := left - |bytes|;
      offset := offset + |bytes|;
    }
    NothingLeft(os);
    assert done == AllBytes(os) && head + done + [] == head + done;
  }

  lemma FirstOption(os: seq<NdpOption>, i: nat)
    requires i < |os| && AllSendable(os)
    ensures AllBytes(os[i..]) == OptionBytes(os[i]) + AllBytes(os[i + 1..])
  {
    assert os[i..][0] == os[i] && os[i..][1..] == os[i + 1..];
  }

  lemma NothingLeft(os: seq<NdpOption>)
    ensures AllBytes(os[|os|..]) == [] && Zeros(0) == []
  {
  }

  /** `write_into`: the packet and nothing else, or an error and nothing at all. Behind the first write no
      option lacks a length and the checksum always exists, so those error exits are never taken. */
  method WriteInto(b: Builder, output: array<Byte>) returns (r: Result<nat, BuildError>)
    requires BuilderTyped(b)
    modifies output
    ensures r.Err? ==> output[..] == old(output[..])
    ensures Validate(b).Err? ==> r == Err(Validate(b).error)
    ensures Validate(b).Ok? ==> (r.Ok? <==> |Build(b)| <= output.Length)
    ensures r.Ok? ==> r.value == |Build(b)| && output[..] == Build(b) + old(output[..])[r.value..]
  {
    hide C.Checksum, Be16, Validate, Clear;
    var validated := ValidatePacket(b);
    if validated.Err? { return Err(validated.error); }
    var required := validated.value;
    if output.Length < required { return Err(BufferTooSmall(required, output.Length)); }
    ValidFacts(b);
    ghost var original := output[..];
    Encode(b, output, original);
    ghost var clear := Clear(b);
    assert clear + [] == clear;
    WrittenPrefix(output, original, clear, []);
    var checksum := C.ComputeTransportChecksum(ContextOf(b.context), ICMPV6_PROTOCOL, output[..required]);
    assert checksum.Some?;
    PutWord(output, 2, checksum.value, original, clear);
    r := Ok(required);
  }

  method Encode(b: Builder, output: array<Byte>, ghost original: Bytes)
    requires BuilderTyped(b) && Validate(b).Ok? && Written(output, original, []) && Validate(b).value <= output.Length
    modifies output
    ensures Written(output, original, Clear(b))
  {
    hide Written, MessageBytes, AllBytes, Zeros, ValidateContext, OptionTotal;
    TotalExact(b.options);
    ghost var size := |AllBytes(b.options)|;
    var n := MessageLength(b.message);
    PutNext(output, 0, MessageBytes(b.message), original, []);
    ghost var head := MessageBytes(b.message);
    assert [] + head == head;
    var total := SizeOf(b.options);
    PutNext(output, n, Zeros(total), original, head);
    WriteOptions(b.options, n, output, original, head);
  }

  method SizeOf(os: seq<NdpOption>) returns (total: nat)
    requires AllSendable(os)
    ensures total == |AllBytes(os)|
  {
    hide OptionBytes, Sendable, AllBytes;
    total := 0;
    assert os[0..] == os;
    for i := 0 to |os|
      invariant total + |AllBytes(os[i..])| == |AllBytes(os)|
    {
      FirstOption(os, i);
      LengthOf(os[i]);
      total := total + |OptionBytes(os[i])|;
    }
    NothingLeft(os);
  }

  /** `parse_options`. */
  method ParseOptionList(input: Bytes, reservedZero: bool) returns (r: Result<Decoded, ParseError>)
    ensures r == ParseOptions(input, Decoded([], reservedZero, true))
  {
    hide OptionOfKind;
    var offset: nat, d := 0, Decoded([], reservedZero, true);
    assert input[0..] == input;
    while offset < |input|
      invariant offset <= |input|
      invariant ParseOptions(input[offset..], d) == ParseOptions(input, Decoded([], reservedZero, true))
    {
      ghost var left := input[offset..];
      if |input| - offset < 2 { return Err(Truncated); }
      if input[offset + 1] == 0 { return Err(Malformed(OptionLength)); }
      var end := offset + Pair(0, input[offset + 1]) * 8;
      if end > |input| { return Err(Truncated); }
      if |d.options| == MAX_NDP_OPTION_COUNT { return Err(LimitExceeded); }
      assert left[..end - offset] == input[offset..end] && left[end - offset..] == input[end..];
      var option := OptionOfKind(input[offset], input[offset..end]);
      if option.Err? { return Err(option.error); }
      var o := option.value;
      d := Decoded(d.options + [o.option], d.reservedZero && o.reservedZero, d.lifetimesOrdered && o.lifetimesOrdered);
      offset := end;
    }
    r := Ok(d);
  }
}
