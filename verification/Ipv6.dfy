/** IPv6 packets with bounded extension chains: builder and parser
    (crates/nodenet-protocols/src/ipv6.rs; section 4 of RFC 8200). */
module Ipv6 {
  import opened Wire
  import opened Packet
  import E = ExtensionOrder

  const IPV6_HEADER_LENGTH: nat := 40
  const MAX_EXTENSION_HEADER_COUNT: nat := 8
  const MAX_EXTENSION_BYTES: nat := 2048
  const MAX_FRAGMENT_OFFSET: U16 := 0x1fff

  datatype Extension =
    | HopByHopOptions(options: Bytes)
    | Routing(routingType: Byte, segmentsLeft: Byte, data: Bytes)
    | Fragment(offsetUnits: U16, moreFragments: bool, identification: U32)
    | DestinationOptions(options: Bytes)
    | Authentication(securityParametersIndex: U32, sequenceNumber: U32, authenticationData: Bytes)

  function Protocol(e: Extension): (p: Byte)
    ensures E.IsExtension(p)
  {
    match e
    case HopByHopOptions(_) => E.HOP_BY_HOP
    case Routing(_, _, _) => E.ROUTING
    case Fragment(_, _, _) => E.FRAGMENT
    case DestinationOptions(_) => E.DESTINATION_OPTIONS
    case Authentication(_, _, _) => E.AUTHENTICATION
  }

  /** A sequence of one-byte pads and options with a length byte. */
  predicate OptionsValid(options: Bytes)
    decreases |options|
  {
    options == []
    || (if options[0] == 0 then OptionsValid(options[1..])
        else |options| >= 2 && 2 + options[1] <= |options| && OptionsValid(options[2 + options[1]..]))
  }

  method ValidateOptions(options: Bytes) returns (valid: bool)
    ensures valid == OptionsValid(options)
  {
    var offset: nat := 0;
    assert options[0..] == options;
    while offset < |options|
      invariant offset <= |options|
      invariant OptionsValid(options[offset..]) == OptionsValid(options)
    {
      var left := options[offset..];
      if options[offset] == 0 {
        assert left[1..] == options[offset + 1..];
        offset := offset + 1;
      } else {
        if offset + 1 >= |options| { return false; }
        var end := offset + 2 + options[offset + 1];
        if end > |options| { return false; }
        assert left[2 + left[1]..] == options[end..];
        offset := end;
      }
    }
    valid := true;
  }

  /** Length of the encoded header. */
  function Length(e: Extension): nat {
    match e
    case HopByHopOptions(options) => |options| + 2
    case DestinationOptions(options) => |options| + 2
    case Routing(_, _, data) => |data| + 4
    case Fragment(_, _, _) => 8
    case Authentication(_, _, data) => |data| + 12
  }

  /** What the builder demands of one extension; the field it complains about otherwise. */
  function Fault(e: Extension): Option<Field> {
    match e
    case HopByHopOptions(options) =>
      if |options| < 6 || Length(e) % 8 != 0 || !OptionsValid(options) then Some(OptionLength) else None
    case DestinationOptions(options) =>
      if |options| < 6 || Length(e) % 8 != 0 || !OptionsValid(options) then Some(OptionLength) else None
    case Routing(_, _, data) => if Length(e) < 8 || Length(e) % 8 != 0 then Some(ExtensionLength) else None
    case Fragment(offset, _, _) => if offset > MAX_FRAGMENT_OFFSET then Some(FragmentOffset) else None
    case Authentication(_, _, data) => if |data| % 4 != 0 || Length(e) > 1028 then Some(ExtensionLength) else None
  }

  predicate Sound(e: Extension) { Fault(e).None? && Length(e) <= MAX_EXTENSION_BYTES }

  /** Offset and flag in one field, the reserved bits between them clear. */
  function FragmentField(offset: U16, more: bool): U16
    requires offset <= MAX_FRAGMENT_OFFSET
  {
    offset * 8 + (if more then 1 else 0)
  }

  lemma FragmentFieldParts(offset: U16, more: bool)
    requires offset <= MAX_FRAGMENT_OFFSET
    ensures var f := FragmentField(offset, more); f / 8 == offset && (f / 2) % 4 == 0 && (f % 2 == 1) == more
  {
  }

  lemma FragmentFieldWhole(f: U16)
    requires (f / 2) % 4 == 0
    ensures FragmentField(f / 8, f % 2 == 1) == f
  {
  }

  function ExtensionBytes(e: Extension, next: Byte): (s: Bytes)
    requires Sound(e)
    ensures |s| == Length(e) >= 8
  {
    match e
    case HopByHopOptions(options) => [next, Length(e) / 8 - 1] + options
    case DestinationOptions(options) => [next, Length(e) / 8 - 1] + options
    case Routing(routingType, segmentsLeft, data) => [next, Length(e) / 8 - 1, routingType, segmentsLeft] + data
    case Fragment(offset, more, identification) =>
      [next, 0] + Be16(FragmentField(offset, more)) + Be32(identification)
    case Authentication(spi, sequence, data) =>
      [next, Length(e) / 4 - 2, 0, 0] + Be32(spi) + Be32(sequence) + data
  }

  datatype ParsedExtension = ParsedExtension(extension: Extension, next: Byte, length: nat)

  function ParseOptions(protocol: Byte, input: Bytes): Result<ParsedExtension, ParseError>
    requires |input| >= 2
  {
    var length := Pair(0, input[1]) * 8 + 8;
    if |input| < length then Err(Truncated)
    else
      var options := input[2..length];
      if !OptionsValid(options) then Err(Malformed(OptionLength))
      else
        var parsed := if protocol == E.HOP_BY_HOP then HopByHopOptions(options) else DestinationOptions(options);
        Ok(ParsedExtension(parsed, input[0], length))
  }

  function ParseRouting(input: Bytes): Result<ParsedExtension, ParseError>
    requires |input| >= 2
  {
    var length := Pair(0, input[1]) * 8 + 8;
    if |input| < length then Err(Truncated)
    else Ok(ParsedExtension(Routing(input[2], input[3], input[4..length]), input[0], length))
  }

  function ParseFragment(input: Bytes): Result<ParsedExtension, ParseError>
    requires |input| >= 8
  {
    var field := U16At(input, 2);
    if input[1] != 0 || (field / 2) % 4 != 0 then Err(Malformed(Flags))
    else Ok(ParsedExtension(Fragment(field / 8, field % 2 == 1, U32At(input, 4)), input[0], 8))
  }

  function ParseAuthentication(input: Bytes): Result<ParsedExtension, ParseError>
    requires |input| >= 2
  {
    var length := Pair(0, input[1]) * 4 + 8;
    if length < 12 then Err(Malformed(ExtensionLength))
    else if |input| < length then Err(Truncated)
    else if input[2] != 0 || input[3] != 0 then Err(Malformed(Flags))
    else Ok(ParsedExtension(Authentication(U32At(input, 4), U32At(input, 8), input[12..length]), input[0], length))
  }

  /** `parse_extension`. */
  function ParseExtension(protocol: Byte, input: Bytes): Result<ParsedExtension, ParseError>
    requires E.IsExtension(protocol)
  {
    if |input| < (if protocol == E.FRAGMENT then 8 else 2) then Err(Truncated)
    else if protocol == E.HOP_BY_HOP || protocol == E.DESTINATION_OPTIONS then ParseOptions(protocol, input)
    else if protocol == E.ROUTING then ParseRouting(input)
    else if protocol == E.FRAGMENT then ParseFragment(input)
    else ParseAuthentication(input)
  }

  lemma OptionsRoundTrip(e: Extension, next: Byte, rest: Bytes)
    requires Sound(e) && (e.HopByHopOptions? || e.DestinationOptions?)
    ensures ParseOptions(Protocol(e), ExtensionBytes(e, next) + rest) == Ok(ParsedExtension(e, next, Length(e)))
  {
    hide OptionsValid;
    var s := ExtensionBytes(e, next) + rest;
    assert s[0] == next && s[1] == Length(e) / 8 - 1;
    assert s[2..Length(e)] == e.options;
  }

  lemma RoutingRoundTrip(e: Extension, next: Byte, rest: Bytes)
    requires Sound(e) && e.Routing?
    ensures ParseRouting(ExtensionBytes(e, next) + rest) == Ok(ParsedExtension(e, next, Length(e)))
  {
    var s := ExtensionBytes(e, next) + rest;
    assert s[0] == next && s[1] == Length(e) / 8 - 1 && s[2] == e.routingType && s[3] == e.segmentsLeft;
    assert s[4..Length(e)] == e.data;
  }

  lemma FragmentRoundTrip(e: Extension, next: Byte, rest: Bytes)
    requires Sound(e) && e.Fragment?
    ensures ParseFragment(ExtensionBytes(e, next) + rest) == Ok(ParsedExtension(e, next, 8))
  {
    hide Be16, Be32, U16At, U32At, FragmentField;
    var s := ExtensionBytes(e, next) + rest;
    assert s[0] == next && s[1] == 0;
    FragmentFieldParts(e.offsetUnits, e.moreFragments);
    U16Here(s, 2, FragmentField(e.offsetUnits, e.moreFragments));
    U32Here(s, 4, e.identification);
  }

  lemma AuthenticationRoundTrip(e: Extension, next: Byte, rest: Bytes)
    requires Sound(e) && e.Authentication?
    ensures ParseAuthentication(ExtensionBytes(e, next) + rest) == Ok(ParsedExtension(e, next, Length(e)))
  {
    hide Be32, U32At;
    var s := ExtensionBytes(e, next) + rest;
    assert s[0] == next && s[1] == Length(e) / 4 - 2 && s[2] == 0 && s[3] == 0;
    assert s[12..Length(e)] == e.authenticationData;
    U32Here(s, 4, e.securityParametersIndex);
    U32Here(s, 8, e.sequenceNumber);
  }

  /** One header printed and parsed. */
  lemma ExtensionRoundTrip(e: Extension, next: Byte, rest: Bytes)
    requires Sound(e)
    ensures ParseExtension(Protocol(e), ExtensionBytes(e, next) + rest) == Ok(ParsedExtension(e, next, Length(e)))
  {
    hide ParseOptions, ParseRouting, ParseFragment, ParseAuthentication, ExtensionBytes, Fault;
    match e
    case Routing(_, _, _) => RoutingRoundTrip(e, next, rest);
    case Fragment(_, _, _) => FragmentRoundTrip(e, next, rest);
    case Authentication(_, _, _) => AuthenticationRoundTrip(e, next, rest);
    case _ => OptionsRoundTrip(e, next, rest);
  }

  /** A parsed header is sound and prints to the bytes it came from. */
  ghost predicate Rebuilt(protocol: Byte, input: Bytes, p: ParsedExtension) {
    && Sound(p.extension) && Protocol(p.extension) == protocol && p.length == Length(p.extension) <= |input|
    && ExtensionBytes(p.extension, p.next) == input[..p.length]
  }

  lemma OptionsRebuilt(protocol: Byte, input: Bytes)
    requires |input| >= 2 && ParseOptions(protocol, input).Ok?
    requires protocol == E.HOP_BY_HOP || protocol == E.DESTINATION_OPTIONS
    ensures Rebuilt(protocol, input, ParseOptions(protocol, input).value)
  {
    hide OptionsValid;
  }

  lemma RoutingRebuilt(input: Bytes)
    requires |input| >= 2 && ParseRouting(input).Ok?
    ensures Rebuilt(E.ROUTING, input, ParseRouting(input).value)
  {
  }

  lemma FragmentRebuilt(input: Bytes)
    requires |input| >= 8 && ParseFragment(input).Ok?
    ensures Rebuilt(E.FRAGMENT, input, ParseFragment(input).value)
  {
    hide Be16, Be32, U16At, U32At, FragmentField;
    FragmentFieldWhole(U16At(input, 2));
    Be16Inverse(input, 2);
    Be32Inverse(input, 4);
  }

  lemma AuthenticationRebuilt(input: Bytes)
    requires |input| >= 2 && ParseAuthentication(input).Ok?
    ensures Rebuilt(E.AUTHENTICATION, input, ParseAuthentication(input).value)
  {
    hide Be32, U32At;
    Be32Inverse(input, 4);
    Be32Inverse(input, 8);
  }

  /** One header parsed and printed: nothing in it is lost. */
  lemma ExtensionRebuilt(protocol: Byte, input: Bytes)
    requires E.IsExtension(protocol) && ParseExtension(protocol, input).Ok?
    ensures Rebuilt(protocol, input, ParseExtension(protocol, input).value)
  {
    hide Rebuilt, ParseOptions, ParseRouting, ParseFragment, ParseAuthentication;
    if protocol == E.ROUTING {
      RoutingRebuilt(input);
    } else if protocol == E.FRAGMENT {
      FragmentRebuilt(input);
    } else if protocol == E.AUTHENTICATION {
      AuthenticationRebuilt(input);
    } else {
      OptionsRebuilt(protocol, input);
    }
  }
}
