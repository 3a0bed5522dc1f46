/** Echo messages of both address families, as they are built
    (crates/nodenet-protocols/src/icmpv4.rs, icmpv6.rs). */
module Echo {
  import opened Wire
  import opened Packet
  import C = Checksum

  const MAX_ICMPV4_MESSAGE_BYTES: nat := 65515
  const MAX_ICMPV6_MESSAGE_BYTES: nat := 65535
  const ICMPV4_PROTOCOL: Byte := 1
  const ICMPV6_PROTOCOL: Byte := 58

  datatype Builder =
    | Echo4(request: bool, identifier: U16, sequence: U16, payload: Bytes)
    | Echo6(context: C.Context, request: bool, identifier: U16, sequence: U16, payload: Bytes)

  function ProtocolOf(b: Builder): Byte { if b.Echo4? then ICMPV4_PROTOCOL else ICMPV6_PROTOCOL }

  function MessageType(b: Builder): Byte {
    if b.Echo4? then (if b.request then 8 else 0) else (if b.request then 128 else 129)
  }

  /** `required_length`. */
  function Validate(b: Builder): Option<BuildError> {
    if b.Echo6? && !b.context.Ipv6? then Some(InvalidValue(OtherField))
    else if 8 + |b.payload| > (if b.Echo4? then MAX_ICMPV4_MESSAGE_BYTES else MAX_ICMPV6_MESSAGE_BYTES) then
      Some(LengthExceedsLimit)
    else None
  }

  /** The message with its checksum field clear. */
  function Clear(b: Builder): (s: Bytes)
    ensures |s| == 8 + |b.payload|
  {
    [MessageType(b), 0, 0, 0] + Be16(b.identifier) + Be16(b.sequence) + b.payload
  }

  /** ICMPv4 sums the message alone, ICMPv6 its pseudo-header too. */
  function ChecksumField(b: Builder): U16
    requires Validate(b).None?
  {
    var before := if b.Echo4? then [] else C.PseudoHeader(b.context, ICMPV6_PROTOCOL, 8 + |b.payload|);
    C.FieldValue(before + Clear(b), false)
  }

  function Build(b: Builder): (s: Bytes)
    requires Validate(b).None?
    ensures |s| == 8 + |b.payload|
  {
    WithWord(Clear(b), 2, ChecksumField(b))
  }

  lemma BuildFields(b: Builder)
    requires Validate(b).None?
    ensures var s := Build(b);
            && s[0] == MessageType(b) && s[1] == 0 && s[8..] == b.payload
            && U16At(s, 4) == b.identifier && U16At(s, 6) == b.sequence
  {
    hide Be16, U16At, ChecksumField;
    var s, c := Build(b), Clear(b);
    assert c[4..6] == Be16(b.identifier) && c[6..8] == Be16(b.sequence);
    assert s[4..6] == c[4..6] && s[6..8] == c[6..8];
    U16Here(s, 4, b.identifier);
    U16Here(s, 6, b.sequence);
  }

  /** Every message that is built validates. */
  lemma BuildValidates(b: Builder)
    requires Validate(b).None? && (b.Echo6? ==> C.WellFormed(b.context))
    ensures if b.Echo4? then C.Validates(Build(b))
            else C.TransportChecksum(b.context, ICMPV6_PROTOCOL, Build(b)) == Some(0)
  {
    hide C.Checksum, C.TransportChecksum, C.FieldValue, Be16, C.Validates, C.PseudoHeader;
    assert Clear(b)[2] == 0 && Clear(b)[3] == 0;
    if b.Echo4? {
      assert [] + Clear(b) == Clear(b);
      C.WrittenValidates(Clear(b), 2, false);
    } else {
      C.TransportWrittenValidates(b.context, ICMPV6_PROTOCOL, Clear(b), 2, false);
    }
  }
}
