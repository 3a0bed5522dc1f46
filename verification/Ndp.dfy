/** Neighbor Discovery messages and options on the wire
    (crates/nodenet-protocols/src/ndp.rs; section 4 of RFC 4861). */
module Ndp {
  import opened Wire
  import opened Packet

  const MAX_NDP_OPTION_COUNT: nat := 64
  const MAX_NDP_OPTION_BYTES: nat := 4096

  // ---------------------------------------------------------------------------------------
  // Options.

  datatype NdpOption =
    | SourceLinkLayerAddress(address: Bytes)
    | TargetLinkLayerAddress(address: Bytes)
    | PrefixInformation(prefixLength: Byte, onLink: bool, autonomous: bool, validLifetime: U32, preferredLifetime: U32,
        prefix: Bytes)
    | RedirectedHeader(quote: Bytes)
    | Mtu(mtu: U32)
    | UnknownOption(kind: Byte, body: Bytes)

  /** Addresses have their octets by type. */
  predicate Typed(o: NdpOption) {
    match o
    case SourceLinkLayerAddress(address) => |address| == 6
    case TargetLinkLayerAddress(address) => |address| == 6
    case PrefixInformation(_, _, _, _, _, prefix) => |prefix| == 16
    case _ => true
  }

  datatype ParsedOption =
    | ParsedSource(address: Bytes)
    | ParsedTarget(address: Bytes)
    | ParsedPrefix(prefixLength: Byte, flags: Byte, validLifetime: U32, preferredLifetime: U32, prefix: Bytes)
    | ParsedRedirected(quote: Bytes)
    | ParsedMtu(mtu: U32)
    | ParsedUnknown(kind: Byte, body: Bytes)

  /** The smallest multiple of eight that is at least `n`. */
  function Rounded(n: nat): (m: nat)
    ensures n <= m < n + 8 && m % 8 == 0
  {
    n + 7 - (n + 7) % 8
  }

  function Length(o: NdpOption): nat {
    match o
    case PrefixInformation(_, _, _, _, _, _) => 32
    case RedirectedHeader(quote) => Rounded(8 + |quote|)
    case UnknownOption(_, body) => Rounded(2 + |body|)
    case _ => 8
  }

  /** `NdpOption::required_length`. */
  function RequiredLength(o: NdpOption): Result<nat, BuildError> {
    if o.UnknownOption? && o.kind <= 5 then Err(InvalidValue(OptionKind))
    else if Length(o) > 2040 then Err(LengthExceedsLimit)
    else Ok(Length(o))
  }

  predicate Sendable(o: NdpOption) { Typed(o) && RequiredLength(o).Ok? }

  function Bit(b: bool, weight: nat): nat { if b then weight else 0 }

  function PrefixFlags(o: NdpOption): Byte
    requires o.PrefixInformation?
  {
    Bit(o.onLink, 128) + Bit(o.autonomous, 64)
  }

  /** `write_option`. */
  function OptionBytes(o: NdpOption): (s: Bytes)
    requires Sendable(o)
    ensures |s| == Length(o) && |s| % 8 == 0 && 8 <= |s| <= 2040
  {
    match o
    case SourceLinkLayerAddress(address) => [1, 1] + address
    case TargetLinkLayerAddress(address) => [2, 1] + address
    case PrefixInformation(prefixLength, _, _, valid, preferred, prefix) =>
      [3, 4, prefixLength, PrefixFlags(o)] + Be32(valid) + Be32(preferred) + [0, 0, 0, 0] + prefix
    case RedirectedHeader(quote) => [4, Length(o) / 8, 0, 0, 0, 0, 0, 0] + quote + Zeros(Length(o) - 8 - |quote|)
    case Mtu(mtu) => [5, 1, 0, 0] + Be32(mtu)
    case UnknownOption(kind, body) => [kind, Length(o) / 8] + body + Zeros(Length(o) - 2 - |body|)
  }

  /** What a printed option parses to: bodies of unknown and redirected-header options keep their padding. */
  function Seen(o: NdpOption): ParsedOption
    requires Sendable(o)
  {
    match o
    case SourceLinkLayerAddress(address) => ParsedSource(address)
    case TargetLinkLayerAddress(address) => ParsedTarget(address)
    case PrefixInformation(prefixLength, _, _, valid, preferred, prefix) =>
      ParsedPrefix(prefixLength, PrefixFlags(o), valid, preferred, prefix)
    case RedirectedHeader(quote) => ParsedRedirected(quote + Zeros(Length(o) - 8 - |quote|))
    case Mtu(mtu) => ParsedMtu(mtu)
    case UnknownOption(kind, body) => ParsedUnknown(kind, body + Zeros(Length(o) - 2 - |body|))
  }

  /** An option, its length, and whether its reserved bytes are zero and its lifetimes ordered. */
  datatype ReadOption = ReadOption(option: ParsedOption, length: nat, reservedZero: bool, lifetimesOrdered: bool)

  function OptionOfKind(kind: Byte, whole: Bytes): Result<ReadOption, ParseError>
    requires |whole| >= 8
  {
    var length, body := |whole|, whole[2..];
    if kind == 1 then Ok(ReadOption(ParsedSource(body), length, true, true))
    else if kind == 2 then Ok(ReadOption(ParsedTarget(body), length, true, true))
    else if kind == 3 && length == 32 then
      var valid, preferred := U32At(whole, 4), U32At(whole, 8);
      Ok(ReadOption(ParsedPrefix(whole[2], whole[3], valid, preferred, whole[16..32]), length, AllZero(whole[12..16]),
          preferred <= valid))
    else if kind == 4 then Ok(ReadOption(ParsedRedirected(whole[8..]), length, AllZero(whole[2..8]), true))
    else if kind == 5 && length == 8 then Ok(ReadOption(ParsedMtu(U32At(whole, 4)), length, AllZero(whole[2..4]), true))
    else if kind == 3 || kind == 5 then Err(Malformed(OptionLength))
    else Ok(ReadOption(ParsedUnknown(kind, body), length, true, true))
  }

  datatype Decoded = Decoded(options: seq<ParsedOption>, reservedZero: bool, lifetimesOrdered: bool)

  /** The option loop on what is left. */
  function ParseOptions(input: Bytes, d: Decoded): Result<Decoded, ParseError>
    decreases |input|
  {
    if input == [] then Ok(d)
    else if |input| < 2 then Err(Truncated)
    else if input[1] == 0 then Err(Malformed(OptionLength))
    else
      var length := Pair(0, input[1]) * 8;
      if length > |input| then Err(Truncated)
      else if |d.options| == MAX_NDP_OPTION_COUNT then Err(LimitExceeded)
      else
        match OptionOfKind(input[0], input[..length])
        case Err(e) => Err(e)
        case Ok(r) =>
          ParseOptions(input[length..], Decoded(d.options + [r.option], d.reservedZero && r.reservedZero,
                                                d.lifetimesOrdered && r.lifetimesOrdered))
  }

  predicate LifetimesOrdered(o: NdpOption) { o.PrefixInformation? ==> o.preferredLifetime <= o.validLifetime }

  lemma PrefixRead(o: NdpOption)
    requires Sendable(o) && o.PrefixInformation?
    ensures OptionOfKind(3, OptionBytes(o)) == Ok(ReadOption(Seen(o), 32, true, LifetimesOrdered(o)))
  {
    hide Be32, U32At, PrefixFlags;
    var s := OptionBytes(o);
    U32Here(s, 4, o.validLifetime);
    U32Here(s, 8, o.preferredLifetime);
    assert s[12..16] == [0, 0, 0, 0] && s[16..32] == o.prefix;
  }

  lemma MtuRead(o: NdpOption)
    requires Sendable(o) && o.Mtu?
    ensures OptionOfKind(5, OptionBytes(o)) == Ok(ReadOption(Seen(o), 8, true, true))
  {
    hide Be32, U32At;
    var s := OptionBytes(o);
    U32Here(s, 4, o.mtu);
  }

  lemma RedirectedRead(o: NdpOption)
    requires Sendable(o) && o.RedirectedHeader?
    ensures OptionOfKind(4, OptionBytes(o)) == Ok(ReadOption(Seen(o), Length(o), true, true))
  {
    hide Zeros;
    var s := OptionBytes(o);
    assert s[2..8] == [0, 0, 0, 0, 0, 0];
    assert s[8..] == o.quote + Zeros(Length(o) - 8 - |o.quote|);
  }

  /** One option printed and read. */
  lemma OptionRead(o: NdpOption)
    requires Sendable(o)
    ensures var s := OptionBytes(o);
            s[1] == Length(o) / 8 && OptionOfKind(s[0], s)
                == Ok(ReadOption(Seen(o), Length(o), true, LifetimesOrdered(o)))
  {
    hide Zeros, Be32, U32At;
    var s := OptionBytes(o);
    match o
    case PrefixInformation(_, _, _, _, _, _) => PrefixRead(o);
    case Mtu(_) => MtuRead(o);
    case RedirectedHeader(_) => RedirectedRead(o);
    case SourceLinkLayerAddress(address) => assert s[2..] == address;
    case TargetLinkLayerAddress(address) => assert s[2..] == address;
    case UnknownOption(_, body) => assert s[2..] == body + Zeros(Length(o) - 2 - |body|);
  }

  predicate AllSendable(os: seq<NdpOption>) {
    forall i :: 0 <= i < |os| ==> Sendable(os[i])
  }

  function AllBytes(os: seq<NdpOption>): Bytes
    requires AllSendable(os)
  {
    if os == [] then [] else OptionBytes(os[0]) + AllBytes(os[1..])
  }

  function AllSeen(os: seq<NdpOption>): (ps: seq<ParsedOption>)
    requires AllSendable(os)
    ensures |ps| == |os| && forall i :: 0 <= i < |os| ==> ps[i] == Seen(os[i])
  {
    seq(|os|, i requires 0 <= i < |os| => Seen(os[i]))
  }

  predicate AllOrdered(os: seq<NdpOption>) {
    forall i :: 0 <= i < |os| ==> LifetimesOrdered(os[i])
  }

  lemma OptionStep(o: NdpOption, rest: Bytes, d: Decoded)
    requires Sendable(o) && |d.options| < MAX_NDP_OPTION_COUNT
    ensures ParseOptions(OptionBytes(o) + rest, d)
            == ParseOptions(rest, Decoded(d.options + [Seen(o)], d.reservedZero,
                                          d.lifetimesOrdered && LifetimesOrdered(o)))
  {
    hide OptionBytes, OptionOfKind, Seen, Length;
    var s := OptionBytes(o);
    var input := s + rest;
    OptionRead(o);
    assert input[0] == s[0] && input[1] == s[1];
    assert input[..|s|] == s && input[|s|..] == rest;
    assert Pair(0, input[1]) * 8 == |s|;
  }

  /** A printed option list parses to what each option is seen as. */
  lemma {:induction false} OptionsRead(os: seq<NdpOption>, d: Decoded)
    requires AllSendable(os) && |d.options| + |os| <= MAX_NDP_OPTION_COUNT && AllOrdered(os)
    ensures ParseOptions(AllBytes(os), d) == Ok(Decoded(d.options + AllSeen(os), d.reservedZero, d.lifetimesOrdered))
    decreases |os|
  {
    hide Sendable, OptionBytes, Seen, LifetimesOrdered, AllSeen, ParseOptions;
    AllSeenParts(os);
    if os == [] {
      NoOptions(d);
      assert d.options + [] == d.options;
    } else {
      var o, tail := os[0], os[1..];
      OptionStep(o, AllBytes(tail), d);
      OptionsRead(tail, Decoded(d.options + [Seen(o)], d.reservedZero, d.lifetimesOrdered));
      assert d.options + [Seen(o)] + AllSeen(tail) == d.options + ([Seen(o)] + AllSeen(tail));
    }
  }

  lemma AllSeenParts(os: seq<NdpOption>)
    requires AllSendable(os)
    ensures os == [] ==> AllSeen(os) == []
    ensures os != [] ==> AllSeen(os) == [Seen(os[0])] + AllSeen(os[1..])
  {
    hide Seen, Sendable;
  }

  lemma NoOptions(d: Decoded)
    ensures ParseOptions([], d) == Ok(d)
  {
  }

  // ---------------------------------------------------------------------------------------
  // Messages.

  datatype NdpMessage =
    | RouterSolicitation
    | RouterAdvertisement(currentHopLimit: Byte, managed: bool, otherConfiguration: bool, preference: int,
        routerLifetime: U16, reachableTime: U32, retransmitTimer: U32)
    | NeighborSolicitation(target: Bytes)
    | NeighborAdvertisement(router: bool, solicited: bool, overrideFlag: bool, target: Bytes)
    | Redirect(target: Bytes, destination: Bytes)

  predicate WellTyped(m: NdpMessage) {
    match m
    case NeighborSolicitation(target) => |target| == 16
    case NeighborAdvertisement(_, _, _, target) => |target| == 16
    case Redirect(target, destination) => |target| == 16 && |destination| == 16
    case _ => true
  }

  function MessageLength(m: NdpMessage): nat {
    match m
    case RouterSolicitation => 8
    case RouterAdvertisement(_, _, _, _, _, _, _) => 16
    case Redirect(_, _) => 40
    case _ => 24
  }

  function EncodePreference(p: int): nat { if p == 1 then 1 else if p == -1 then 3 else 0 }

  function DecodePreference(n: nat): Option<int> {
    if n == 0 then Some(0) else if n == 1 then Some(1) else if n == 3 then Some(-1) else None
  }

  function RouterFlags(m: NdpMessage): Byte
    requires m.RouterAdvertisement?
  {
    Bit(m.managed, 128) + Bit(m.otherConfiguration, 64) + EncodePreference(m.preference) * 8
  }

  function NeighborFlags(m: NdpMessage): Byte
    requires m.NeighborAdvertisement?
  {
    Bit(m.router, 128) + Bit(m.solicited, 64) + Bit(m.overrideFlag, 32)
  }

  /** `write_message` over zeros. */
  function MessageBytes(m: NdpMessage): (s: Bytes)
    requires WellTyped(m)
    ensures |s| == MessageLength(m) && s[2] == 0 && s[3] == 0
  {
    match m
    case RouterSolicitation => [133, 0, 0, 0, 0, 0, 0, 0]
    case RouterAdvertisement(hops, _, _, _, lifetime, reachable, retransmit) =>
      [134, 0, 0, 0, hops, RouterFlags(m)] + Be16(lifetime) + Be32(reachable) + Be32(retransmit)
    case NeighborSolicitation(target) => [135, 0, 0, 0, 0, 0, 0, 0] + target
    case NeighborAdvertisement(_, _, _, target) => [136, 0, 0, 0, NeighborFlags(m), 0, 0, 0] + target
    case Redirect(target, destination) => [137, 0, 0, 0, 0, 0, 0, 0] + target + destination
  }

  /** A message and whether its reserved bits are zero and its preference assigned. */
  datatype ReadMessage = ReadMessage(message: NdpMessage, reservedZero: bool, preferenceAssigned: bool)

  function ParseFixed(input: Bytes): (r: Result<ReadMessage, ParseError>)
    requires |input| >= 8
    ensures r.Ok? ==> MessageLength(r.value.message) <= |input| && WellTyped(r.value.message)
  {
    if input[0] == 133 then Ok(ReadMessage(RouterSolicitation, AllZero(input[4..8]), true))
    else if input[0] == 134 then
      if |input| < 16 then Err(Truncated)
      else
        var flags := input[5];
        var preference := DecodePreference(flags / 8 % 4);
        Ok(ReadMessage(RouterAdvertisement(input[4], flags / 128 == 1, flags / 64 % 2 == 1,
                                           if preference.None? then 0 else preference.value,
                                           U16At(input, 6), U32At(input, 8), U32At(input, 12)),
                       flags / 32 % 2 == 0 && flags % 8 == 0, preference.Some?))
    else if input[0] == 135 then
      if |input| < 24 then Err(Truncated)
          else Ok(ReadMessage(NeighborSolicitation(input[8..24]), AllZero(input[4..8]), true))
    else if input[0] == 136 then
      if |input| < 24 then Err(Truncated)
      else
        var flags := input[4];
        Ok(ReadMessage(NeighborAdvertisement(flags / 128 == 1, flags / 64 % 2 == 1, flags / 32 % 2 == 1, input[8..24]),
                       flags % 32 == 0 && AllZero(input[5..8]), true))
    else if input[0] == 137 then
      if |input| < 40 then Err(Truncated)
          else Ok(ReadMessage(Redirect(input[8..24], input[24..40]), AllZero(input[4..8]), true))
    else Err(Malformed(OtherField))
  }

  lemma RouterFlagsRead(m: NdpMessage)
    requires m.RouterAdvertisement? && -1 <= m.preference <= 1
    ensures var f := RouterFlags(m);
            && (f / 128 == 1) == m.managed && (f / 64 % 2 == 1) == m.otherConfiguration
            && DecodePreference(f / 8 % 4) == Some(m.preference) && f / 32 % 2 == 0 && f % 8 == 0
  {
  }

  lemma NeighborFlagsRead(m: NdpMessage)
    requires m.NeighborAdvertisement?
    ensures var f := NeighborFlags(m);
            && (f / 128 == 1) == m.router && (f / 64 % 2 == 1) == m.solicited && (f / 32 % 2 == 1) == m.overrideFlag
                && f % 32 == 0
  {
  }

  /** The input agrees with the printed message everywhere but in the checksum field. */
  ghost predicate Agrees(m: NdpMessage, input: Bytes)
    requires WellTyped(m)
  {
    && MessageLength(m) <= |input|
    && forall i :: 0 <= i < MessageLength(m) && i != 2 && i != 3 ==> input[i] == MessageBytes(m)[i]
  }

  lemma AgreesSlice(m: NdpMessage, input: Bytes, i: nat, j: nat)
    requires WellTyped(m) && Agrees(m, input) && 4 <= i <= j <= MessageLength(m)
    ensures input[i..j] == MessageBytes(m)[i..j]
  {
  }

  lemma RouterAdvertisementRead(m: NdpMessage, input: Bytes)
    requires m.RouterAdvertisement? && -1 <= m.preference <= 1 && Agrees(m, input)
    ensures ParseFixed(input) == Ok(ReadMessage(m, true, true))
  {
    hide Be16, Be32, U16At, U32At, RouterFlags, DecodePreference;
    var s := MessageBytes(m);
    RouterFlagsRead(m);
    AgreesSlice(m, input, 6, 8);
    AgreesSlice(m, input, 8, 12);
    AgreesSlice(m, input, 12, 16);
    assert s[0] == 134 && s[4] == m.currentHopLimit && s[5] == RouterFlags(m);
    assert s[6..8] == Be16(m.routerLifetime) && s[8..12] == Be32(m.reachableTime)
        && s[12..16] == Be32(m.retransmitTimer);
    U16Here(input, 6, m.routerLifetime);
    U32Here(input, 8, m.reachableTime);
    U32Here(input, 12, m.retransmitTimer);
  }

  lemma NeighborRead(m: NdpMessage, input: Bytes)
    requires (m.NeighborSolicitation? || m.NeighborAdvertisement?) && WellTyped(m) && Agrees(m, input)
    ensures ParseFixed(input) == Ok(ReadMessage(m, true, true))
  {
    hide NeighborFlags;
    var s := MessageBytes(m);
    AgreesSlice(m, input, 8, 24);
    AgreesSlice(m, input, 4, 8);
    AgreesSlice(m, input, 5, 8);
    assert s[8..24] == m.target;
    if m.NeighborAdvertisement? {
      NeighborFlagsRead(m);
      assert s[0] == 136 && s[4] == NeighborFlags(m) && s[5..8] == [0, 0, 0];
    } else {
      assert s[0] == 135 && s[4..8] == [0, 0, 0, 0];
    }
  }

  /** Checksum and options do not disturb the fixed fields. */
  lemma MessageRead(m: NdpMessage, input: Bytes)
    requires WellTyped(m) && (m.RouterAdvertisement? ==> -1 <= m.preference <= 1) && Agrees(m, input)
    ensures ParseFixed(input) == Ok(ReadMessage(m, true, true))
  {
    match m
    case RouterAdvertisement(_, _, _, _, _, _, _) => RouterAdvertisementRead(m, input);
    case RouterSolicitation => AgreesSlice(m, input, 4, 8);
    case Redirect(target, destination) =>
      var s := MessageBytes(m);
      AgreesSlice(m, input, 4, 8);
      AgreesSlice(m, input, 8, 24);
      AgreesSlice(m, input, 24, 40);
      assert s[0] == 137 && s[4..8] == [0, 0, 0, 0] && s[8..24] == target && s[24..40] == destination;
    case _ => NeighborRead(m, input);
  }
}
