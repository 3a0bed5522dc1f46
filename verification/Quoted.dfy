/** ICMP quotes of possibly truncated packets, and recognising one's own probe in them
    (crates/nodenet-protocols/src/quoted.rs, correlation.rs). */
module Quoted {
  import opened Wire
  import opened Packet
  import V4 = Ipv4
  import V6 = Ipv6Packet
  import B6 = Ipv6Builder

  datatype IpAddress = Address4(octets: Bytes) | Address6(octets: Bytes)

  datatype QuotedTransport =
    | QuotedTcp(sourcePort: U16, destinationPort: U16, sequenceNumber: U32, acknowledgmentNumber: Option<U32>,
        flags: Option<U16>, bytes: Bytes)
    | QuotedUdp(sourcePort: U16, destinationPort: U16, declaredLength: U16, checksum: U16, payloadPrefix: Bytes)
    | QuotedEcho(messageType: Byte, identifier: U16, sequence: U16, payloadPrefix: Bytes)
    | InsufficientTransport(protocol: Byte, bytes: Bytes, required: nat)
    | LaterFragment(protocol: Byte, bytes: Bytes)
    | Opaque(protocol: Byte, bytes: Bytes)

  datatype QuotedPacket = QuotedPacket(
    source: IpAddress,
    destination: IpAddress,
    protocol: Byte,
    fragment: FragmentState,
    complete: bool,
    transport: QuotedTransport)

  predicate IsEcho(protocol: Byte, messageType: Byte) {
    (protocol == 1 && (messageType == 0 || messageType == 8))
        || (protocol == 58 && (messageType == 128 || messageType == 129))
  }

  /** `classify_quote`. */
  function ClassifyQuote(protocol: Byte, bytes: Bytes, fragment: FragmentState): QuotedTransport {
    if fragment.NonFirst? then LaterFragment(protocol, bytes)
    else if protocol == 6 && |bytes| >= 8 then
      QuotedTcp(U16At(bytes, 0), U16At(bytes, 2), U32At(bytes, 4),
                if |bytes| >= 12 then Some(U32At(bytes, 8)) else None,
                if |bytes| >= 14 then Some(Pair(bytes[12] % 2, bytes[13])) else None, bytes)
    else if protocol == 17 && |bytes| >= 8 then
      QuotedUdp(U16At(bytes, 0), U16At(bytes, 2), U16At(bytes, 4), U16At(bytes, 6), bytes[8..])
    else if (protocol == 1 || protocol == 58) && |bytes| >= 8 && IsEcho(protocol, bytes[0]) && bytes[1] == 0 then
      QuotedEcho(bytes[0], U16At(bytes, 4), U16At(bytes, 6), bytes[8..])
    else if protocol == 6 || protocol == 17 || protocol == 1
        || protocol == 58 then InsufficientTransport(protocol, bytes, 8)
    else Opaque(protocol, bytes)
  }

  /** What both address families have in common, with the length of the headers in front of the payload. */
  datatype Network = Network(
    source: IpAddress,
    destination: IpAddress,
    protocol: Byte,
    fragment: FragmentState,
    complete: bool,
    headers: nat,
    payload: Bytes)

  function Read(input: Bytes, mode: ParseMode): Result<Network, ParseError> {
    if input == [] then Err(Truncated)
    else if input[0] / 16 == 4 then
      match V4.Parse(input, mode)
      case Err(e) => Err(e)
      case Ok(p) =>
        Ok(Network(Address4(p.source), Address4(p.destination), p.protocol, p.fragment, p.complete, 20 + |p.options|,
            p.payload))
    else if input[0] / 16 == 6 then
      match V6.Parse(input, mode)
      case Err(e) => Err(e)
      case Ok(p) =>
        var (protocol, bytes) := Terminal(p.upperLayer);
        Ok(Network(Address6(p.fixed.source), Address6(p.fixed.destination), protocol, p.fragment, p.complete,
                   40 + p.extensionBytes, bytes))
    else Err(Unsupported(Version))
  }

  /** `parse_quoted_ip_packet`. */
  function ParseQuoted(input: Bytes): Result<QuotedPacket, ParseError> {
    match Read(input, CompatibleIcmpQuote)
    case Err(e) => Err(e)
    case Ok(n) => Ok(QuotedPacket(n.source, n.destination, n.protocol, n.fragment, n.complete,
        ClassifyQuote(n.protocol, n.payload, n.fragment)))
  }

  /** The network layer of a strictly valid packet cut anywhere after its headers. */
  lemma ReadTruncated(input: Bytes, k: nat)
    requires Read(input, Strict).Ok? && Read(input, Strict).value.headers <= k <= |input|
    ensures var n, cut := Read(input, Strict).value, Read(input[..k], CompatibleIcmpQuote);
            cut.Ok? && cut.value == n.(complete := cut.value.complete,
                payload := n.payload[..Min(k - n.headers, |n.payload|)])
  {
    hide V4.Parse, V6.Parse;
    var n := Read(input, Strict).value;
    if input[0] / 16 == 4 {
      Length4(input);
      V4.Truncation(input, k);
    } else {
      Length6(input);
      B6.Truncation(input, k);
    }
    assert input[..k][0] == input[0];
  }

  lemma Length4(input: Bytes)
    requires V4.Parse(input, Strict).Ok?
    ensures 20 + |V4.Parse(input, Strict).value.options| == V4.HeaderLength(input) >= 20
  {
    hide V4.Options, V4.FlagsOf, V4.C.Validates;
  }

  lemma Length6(input: Bytes)
    requires V6.Parse(input, Strict).Ok?
    ensures |input| >= 40
  {
    hide V6.ParseChain, V6.FixedAt;
  }

  // ---------------------------------------------------------------------------------------
  // Correlation.

  datatype ProbeIdentity = ProbeIdentity(
    protocol: Byte,
    source: IpAddress,
    destination: IpAddress,
    sourcePort: U16,
    destinationPort: U16,
    icmpIdentifier: U16,
    icmpSequence: U16)

  /** The 32-byte output of the keyed hash for one probe; how it is derived is not modelled. */
  datatype Token = Token(bytes: Bytes)

  predicate WellFormed(t: Token) { |t.bytes| == 32 }

  function TcpSequence(t: Token): U32
    requires WellFormed(t)
  {
    U32At(t.bytes, 0)
  }

  datatype EvidenceStrength = TruncatedQuote | StrongTcpSequence32 | StrongPayload128

  datatype CorrelationRejection = TupleMismatch | ProtocolMismatch | TokenMismatch | FragmentedQuote | InsufficientQuote

  /** `classify_payload_prefix`. */
  function ClassifyPayloadPrefix(prefix: Bytes, t: Token): Result<EvidenceStrength, CorrelationRejection>
    requires WellFormed(t)
  {
    if |prefix| < 16 then Ok(TruncatedQuote)
    else if prefix[..16] != t.bytes[..16] then Err(TokenMismatch)
    else Ok(StrongPayload128)
  }

  /** `classify_quoted_response`. */
  function ClassifyQuotedResponse(expected: ProbeIdentity, quote: QuotedPacket, t: Token)
    : Result<EvidenceStrength, CorrelationRejection>
    requires WellFormed(t)
  {
    if quote.source != expected.source || quote.destination != expected.destination then Err(TupleMismatch)
    else if quote.protocol != expected.protocol then Err(ProtocolMismatch)
    else
      match quote.transport
      case QuotedTcp(sourcePort, destinationPort, sequence, _, _, _) =>
        if sourcePort != expected.sourcePort || destinationPort != expected.destinationPort then Err(TupleMismatch)
        else if sequence != TcpSequence(t) then Err(TokenMismatch)
        else Ok(StrongTcpSequence32)
      case QuotedUdp(sourcePort, destinationPort, _, _, prefix) =>
        if sourcePort != expected.sourcePort || destinationPort != expected.destinationPort then Err(TupleMismatch)
        else ClassifyPayloadPrefix(prefix, t)
      case QuotedEcho(_, identifier, sequence, prefix) =>
        if identifier != expected.icmpIdentifier || sequence != expected.icmpSequence then Err(TupleMismatch)
        else ClassifyPayloadPrefix(prefix, t)
      case LaterFragment(_, _) => Err(FragmentedQuote)
      case InsufficientTransport(_, _, _) => Err(InsufficientQuote)
      case Opaque(_, _) => Err(ProtocolMismatch)
  }

  /** A packet as a probe of this identity: right addresses and protocol, first of its fragments if any, and
      a transport header that carries the token where its protocol keeps it. */
  predicate IsProbe(n: Network, id: ProbeIdentity, t: Token)
    requires WellFormed(t)
  {
    && n.source == id.source && n.destination == id.destination && n.protocol == id.protocol && !n.fragment.NonFirst?
    && |n.payload| >= 8
    && (if n.protocol == 6 || n.protocol == 17 then
          U16At(n.payload, 0) == id.sourcePort && U16At(n.payload, 2) == id.destinationPort
        else
          && IsEcho(n.protocol, n.payload[0]) && n.payload[1] == 0
          && U16At(n.payload, 4) == id.icmpIdentifier && U16At(n.payload, 6) == id.icmpSequence)
    && (if n.protocol == 6 then U32At(n.payload, 4) == TcpSequence(t)
        else |n.payload| >= 24 && n.payload[8..24] == t.bytes[..16])
  }

  /** How a probe is recognised by the first `m` bytes of its transport. */
  function Recognition(protocol: Byte, m: nat): Result<EvidenceStrength, CorrelationRejection> {
    if m < 8 then Err(InsufficientQuote)
    else if protocol == 6 then Ok(StrongTcpSequence32)
    else if m < 24 then Ok(TruncatedQuote)
    else Ok(StrongPayload128)
  }

  lemma ProbePrefix(n: Network, id: ProbeIdentity, t: Token, m: nat)
    requires WellFormed(t) && IsProbe(n, id, t) && m <= |n.payload|
    ensures var prefix := n.payload[..m];
            ClassifyQuotedResponse(id, QuotedPacket(n.source, n.destination, n.protocol, n.fragment, true,
                ClassifyQuote(n.protocol, prefix, n.fragment)), t)
            == Recognition(n.protocol, m)
  {
    var prefix := n.payload[..m];
    if m >= 8 {
      assert prefix[0..2] == n.payload[0..2] && prefix[2..4] == n.payload[2..4];
      assert prefix[4..6] == n.payload[4..6] && prefix[6..8] == n.payload[6..8] && prefix[4..8] == n.payload[4..8];
    }
    if m >= 24 {
      assert prefix[8..][..16] == n.payload[8..24];
    }
  }

  /** Quote recognition under any truncation: wherever a router cuts a probe behind its IP headers, what is
      left is read as the same packet, and the probe is recognised as soon as eight transport bytes are
      there; with sixteen bytes of UDP or echo payload the token is proven. Fewer bytes are reported as too few. */
  lemma QuoteRecognised(input: Bytes, k: nat, id: ProbeIdentity, t: Token)
    requires WellFormed(t) && Read(input, Strict).Ok? && IsProbe(Read(input, Strict).value, id, t)
    requires Read(input, Strict).value.headers <= k <= |input|
    ensures var n := Read(input, Strict).value;
            && ParseQuoted(input[..k]).Ok?
            && ClassifyQuotedResponse(id, ParseQuoted(input[..k]).value, t)
               == Recognition(id.protocol, Min(k - n.headers, |n.payload|))
  {
    hide Read, ClassifyQuote, ClassifyPayloadPrefix;
    var n := Read(input, Strict).value;
    ReadTruncated(input, k);
    ProbePrefix(n, id, t, Min(k - n.headers, |n.payload|));
  }

  // ---------------------------------------------------------------------------------------
  // What each verdict proves about the bytes that were quoted.

  predicate SameHosts(n: Network, id: ProbeIdentity) { n.source == id.source && n.destination == id.destination }

  predicate Ported(protocol: Byte) { protocol == 6 || protocol == 17 }

  /** An echo request or reply of either address family, with code zero. */
  predicate EchoHeader(protocol: Byte, b: Bytes) {
    && |b| >= 8 && b[1] == 0
    && ((protocol == 1 && (b[0] == 0 || b[0] == 8)) || (protocol == 58 && (b[0] == 128 || b[0] == 129)))
  }

  /** The transport starts with the numbers of the probe: ports, or echo identifier and sequence. */
  predicate SameNumbers(protocol: Byte, b: Bytes, id: ProbeIdentity)
    requires |b| >= 8
  {
    if Ported(protocol) then b[0..2] == Be16(id.sourcePort) && b[2..4] == Be16(id.destinationPort)
    else b[4..6] == Be16(id.icmpIdentifier) && b[6..8] == Be16(id.icmpSequence)
  }

  /** The probe is addressed as expected, is no later fragment, and its transport header is there. */
  predicate Usable(n: Network, id: ProbeIdentity) {
    && SameHosts(n, id) && n.protocol == id.protocol && !n.fragment.NonFirst?
    && ((Ported(n.protocol) && |n.payload| >= 8) || EchoHeader(n.protocol, n.payload))
  }

  lemma SequenceBytes(b: Bytes, t: Token)
    requires |b| >= 8 && WellFormed(t)
    ensures U32At(b, 4) == TcpSequence(t) <==> b[4..8] == t.bytes[..4]
  {
    hide U32At, Be32;
    Be32Inverse(b, 4);
    Be32Inverse(t.bytes, 0);
    assert t.bytes[0..4] == t.bytes[..4];
    if b[4..8] == t.bytes[..4] { U32Here(b, 4, TcpSequence(t)); }
  }

  lemma NumbersRead(protocol: Byte, b: Bytes, id: ProbeIdentity)
    requires |b| >= 8
    ensures SameNumbers(protocol, b, id) <==>
            if Ported(protocol) then U16At(b, 0) == id.sourcePort && U16At(b, 2) == id.destinationPort
            else U16At(b, 4) == id.icmpIdentifier && U16At(b, 6) == id.icmpSequence
  {
    hide U16At, Be16;
    Word16(b, 0, id.sourcePort);
    Word16(b, 2, id.destinationPort);
    Word16(b, 4, id.icmpIdentifier);
    Word16(b, 6, id.icmpSequence);
  }

  /** Each verdict on a quote, and each refusal, is given exactly when the quoted bytes bear it out. Evidence is
      called strong only if the quote carries the token: four bytes as the sequence number of TCP, sixteen bytes at
      the front of a UDP or echo payload. */
  lemma EvidenceExact(input: Bytes, id: ProbeIdentity, t: Token)
    requires WellFormed(t)
    ensures ParseQuoted(input).Ok? <==> Read(input, CompatibleIcmpQuote).Ok?
    ensures ParseQuoted(input).Ok? ==>
              Judged(Read(input, CompatibleIcmpQuote).value, id, t,
                     ClassifyQuotedResponse(id, ParseQuoted(input).value, t))
  {
    hide Read, ClassifyQuote, ClassifyQuotedResponse, Judged;
    if ParseQuoted(input).Ok? { VerdictExact(Read(input, CompatibleIcmpQuote).value, id, t); }
  }

  predicate Judged(n: Network, id: ProbeIdentity, t: Token, r: Result<EvidenceStrength, CorrelationRejection>)
    requires WellFormed(t)
  {
    var b, quoted := n.payload, Usable(n, id) && SameNumbers(n.protocol, n.payload, id);
    && (r == Ok(StrongTcpSequence32) <==> quoted && n.protocol == 6 && b[4..8] == t.bytes[..4])
    && (r == Ok(StrongPayload128) <==> quoted && n.protocol != 6 && |b| >= 24 && b[8..24] == t.bytes[..16])
    && (r == Ok(TruncatedQuote) <==> quoted && n.protocol != 6 && |b| < 24)
    && (r == Err(TokenMismatch) <==>
        && quoted
        && if n.protocol == 6 then b[4..8] != t.bytes[..4] else |b| >= 24 && b[8..24] != t.bytes[..16])
    && (r == Err(TupleMismatch) <==> !SameHosts(n, id) || (Usable(n, id) && !SameNumbers(n.protocol, b, id)))
    && (r == Err(ProtocolMismatch) <==>
        && SameHosts(n, id)
        && (n.protocol != id.protocol || (!n.fragment.NonFirst? && n.protocol !in {1, 6, 17, 58})))
    && (r == Err(FragmentedQuote) <==> SameHosts(n, id) && n.protocol == id.protocol && n.fragment.NonFirst?)
    && (r == Err(InsufficientQuote) <==>
        && SameHosts(n, id) && n.protocol == id.protocol && !n.fragment.NonFirst? && n.protocol in {1, 6, 17, 58}
        && !Usable(n, id))
  }

  lemma VerdictExact(n: Network, id: ProbeIdentity, t: Token)
    requires WellFormed(t)
    ensures Judged(n, id, t, ClassifyQuotedResponse(id, QuotedPacket(n.source, n.destination, n.protocol, n.fragment,
                n.complete, ClassifyQuote(n.protocol, n.payload, n.fragment)), t))
  {
    hide U16At, U32At, SameNumbers, TcpSequence;
    var b := n.payload;
    if |b| >= 8 {
      NumbersRead(n.protocol, b, id);
      SequenceBytes(b, t);
    }
    if |b| >= 24 { assert b[8..][..16] == b[8..24]; }
  }
}
