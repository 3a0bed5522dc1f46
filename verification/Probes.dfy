/** From building a probe to recognising it in any quote: the builders, the quote parser and the
    correlation rules together (crates/nodenet-protocols/src/tcp.rs, udp.rs, icmpv4.rs, icmpv6.rs,
    ipv4.rs, ipv6.rs, quoted.rs, correlation.rs). */
module Probes {
  import opened Wire
  import opened Packet
  import opened Quoted
  import T = TcpSegment
  import U = Udp
  import E = Echo
  import V4 = Ipv4
  import V6 = Ipv6Packet
  import B6 = Ipv6Builder

  datatype Probe = TcpProbe(segment: T.Builder) | UdpProbe(datagram: U.Builder) | EchoProbe(message: E.Builder)

  predicate Buildable(p: Probe) {
    match p
    case TcpProbe(segment) => T.Typed(segment) && T.Validate(segment).Ok?
    case UdpProbe(datagram) => U.Validate(datagram).None?
    case EchoProbe(message) => E.Validate(message).None?
  }

  function TransportBytes(p: Probe): Bytes
    requires Buildable(p)
  {
    match p
    case TcpProbe(segment) => T.Build(segment)
    case UdpProbe(datagram) => U.Build(datagram)
    case EchoProbe(message) => E.Build(message)
  }

  function ProtocolOf(p: Probe): Byte {
    match p
    case TcpProbe(_) => 6
    case UdpProbe(_) => 17
    case EchoProbe(message) => E.ProtocolOf(message)
  }

  /** The probe has the identity's ports, or its identifier and sequence number, and carries the token: TCP as its
      sequence number, UDP and echo as the first sixteen bytes of their payload. */
  predicate Carries(p: Probe, id: ProbeIdentity, t: Token)
    requires WellFormed(t)
  {
    && id.protocol == ProtocolOf(p)
    && match p
       case TcpProbe(s) => s.sourcePort == id.sourcePort && s.destinationPort == id.destinationPort
           && s.sequenceNumber == TcpSequence(t)
       case UdpProbe(d) =>
           d.sourcePort == id.sourcePort && d.destinationPort == id.destinationPort
           && t.bytes[..16] <= d.payload
       case EchoProbe(e) =>
           e.identifier == id.icmpIdentifier && e.sequence == id.icmpSequence && t.bytes[..16] <= e.payload
  }

  lemma ProbeBytes(p: Probe, id: ProbeIdentity, t: Token, n: Network)
    requires WellFormed(t) && Buildable(p) && Carries(p, id, t)
    requires n.source == id.source && n.destination == id.destination && n.protocol == id.protocol
    requires !n.fragment.NonFirst? && n.payload == TransportBytes(p)
    ensures IsProbe(n, id, t)
  {
    hide T.Validate, T.Build, U.Build, E.Build, U16At, U32At;
    match p
    case TcpProbe(s) => T.BuildFields(s); T.BuildParts(s);
    case UdpProbe(d) =>
      U.BuildFields(d);
      assert n.payload[8..24] == n.payload[8..][..16] == d.payload[..16];
    case EchoProbe(e) =>
      E.BuildFields(e);
      assert n.payload[8..24] == n.payload[8..][..16] == e.payload[..16];
  }

  /** Any probe the builders accept, sent in any IPv4 packet they accept that does not start beyond the first
      fragment, is recognised from any quote of it. */
  lemma Ipv4ProbeRecognised(ip: V4.Builder, p: Probe, id: ProbeIdentity, t: Token, k: nat)
    requires WellFormed(t) && Buildable(p) && Carries(p, id, t)
    requires V4.Addressed(ip) && V4.Validate(ip).None? && ip.fragmentOffset == 0
    requires ip.payload == TransportBytes(p) && ip.protocol == id.protocol
    requires id.source == Address4(ip.source) && id.destination == Address4(ip.destination)
    requires 20 + |ip.options| <= k <= |V4.Build(ip)|
    ensures var quote := V4.Build(ip)[..k];
            && ParseQuoted(quote).Ok?
            && ClassifyQuotedResponse(id, ParseQuoted(quote).value, t)
                == Recognition(id.protocol, k - 20 - |ip.options|)
  {
    hide V4.Parse, V4.Validate, V4.Build, ParseQuoted, ClassifyQuotedResponse, IsProbe, TransportBytes, Carries,
        Buildable;
    var input := V4.Build(ip);
    V4.BuildParse(ip);
    Version4(ip);
    var n := Read(input, Strict).value;
    ProbeBytes(p, id, t, n);
    QuoteRecognised(input, k, id, t);
  }

  lemma Version4(ip: V4.Builder)
    requires V4.Addressed(ip) && V4.Validate(ip).None?
    ensures |V4.Build(ip)| == 20 + |ip.options| + |ip.payload| && V4.Build(ip)[0] / 16 == 4
  {
    hide V4.Options;
    V4.HeaderFields(ip);
  }

  /** The same behind any accepted IPv6 extension chain without a non-first fragment. */
  lemma Ipv6ProbeRecognised(ip: B6.Builder, p: Probe, id: ProbeIdentity, t: Token, k: nat)
    requires WellFormed(t) && Buildable(p) && Carries(p, id, t)
    requires B6.Addressed(ip) && B6.Validate(ip).Ok? && !V6.FragmentOf(ip.extensions).NonFirst?
    requires ip.payload == TransportBytes(p) && ip.upper == id.protocol
    requires id.source == Address6(ip.source) && id.destination == Address6(ip.destination)
    requires 40 + V6.LengthSum(ip.extensions) <= k <= |B6.Build(ip)|
    ensures var quote := B6.Build(ip)[..k];
            && ParseQuoted(quote).Ok?
            && ClassifyQuotedResponse(id, ParseQuoted(quote).value, t)
                == Recognition(id.protocol, k - 40 - V6.LengthSum(ip.extensions))
  {
    hide V6.Parse, B6.Validate, B6.Build, ParseQuoted, ClassifyQuotedResponse, IsProbe, TransportBytes, Buildable,
        V6.FragmentOf, V6.LengthSum;
    var input := B6.Build(ip);
    B6.BuildParse(ip);
    Version6(ip);
    var n := Read(input, Strict).value;
    ProbeBytes(p, id, t, n);
    QuoteRecognised(input, k, id, t);
  }

  lemma Version6(ip: B6.Builder)
    requires B6.Addressed(ip) && B6.Validate(ip).Ok?
    ensures |B6.Build(ip)| == 40 + V6.LengthSum(ip.extensions) + |ip.payload| && B6.Build(ip)[0] / 16 == 6
  {
    hide B6.Validate, V6.ChainBytes, V6.FixedBytes, V6.LengthSum;
    B6.ValidReadable(ip);
    B6.ValidLimits(ip);
    var a := B6.AnatomyOf(ip);
    var rest := V6.ChainBytes(ip.extensions, ip.upper) + ip.payload;
    assert B6.Build(ip) == V6.FixedBytes(a.fixed, V6.Head(ip.extensions, ip.upper)) + rest;
    V6.FixedRoundTrip(a.fixed, V6.Head(ip.extensions, ip.upper), rest);
  }
}
