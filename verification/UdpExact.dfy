/** Exactly which UDP datagrams the parser accepts, and that each of them is one the builder writes
    (crates/nodenet-protocols/src/udp.rs; RFC 768). */
module UdpExact {
  import opened Wire
  import opened Packet
  import opened Udp
  import C = Checksum

  /** Header, payload of the declared length and whatever follows. Zero in the checksum field says that there is none,
      which IPv6 does not allow; any other value must be right. */
  predicate Represents(input: Bytes, c: C.Context, p: Parsed) {
    && |input| == 8 + |p.payload| + |p.trailing| <= 0xffff
    && input[0..2] == Be16(p.sourcePort) && input[2..4] == Be16(p.destinationPort)
    && input[4..6] == Be16(8 + |p.payload|) && input[6..8] == Be16(p.checksum)
    && input[8..8 + |p.payload|] == p.payload && input[8 + |p.payload|..] == p.trailing
    && p.status == (if p.checksum == 0 then NotPresentIpv4 else Valid)
    && if p.checksum == 0 then c.Ipv4? else C.Balanced(c, UDP_PROTOCOL, input[..8 + |p.payload|])
  }

  lemma ParseExact(input: Bytes, c: C.Context, p: Parsed)
    ensures Parse(input, c) == Ok(p) <==> Represents(input, c, p)
  {
    hide Be16, U16At, C.TransportChecksum, C.Balanced;
    if |input| >= 8 {
      Word16(input, 0, U16At(input, 0));
      Word16(input, 2, U16At(input, 2));
      Word16(input, 4, U16At(input, 4));
      Word16(input, 6, U16At(input, 6));
      if U16At(input, 4) <= |input| { C.BalancedExact(c, UDP_PROTOCOL, input[..U16At(input, 4)]); }
      if 8 + |p.payload| <= 0xffff {
        Word16(input, 0, p.sourcePort);
        Word16(input, 2, p.destinationPort);
        Word16(input, 4, 8 + |p.payload|);
        Word16(input, 6, p.checksum);
      }
    }
  }

  function BuilderOf(c: C.Context, p: Parsed): Builder {
    Builder(c, if p.checksum == 0 then OmitIpv4 else Compute, p.sourcePort, p.destinationPort, p.payload)
  }

  /** Every datagram that is accepted is built again byte for byte, with what followed it. */
  lemma ParseBuild(input: Bytes, c: C.Context)
    requires C.WellFormed(c) && Parse(input, c).Ok?
    ensures var p := Parse(input, c).value;
            Validate(BuilderOf(c, p)).None? && Build(BuilderOf(c, p)) + p.trailing == input
  {
    hide Parse, Be16, C.TransportChecksum, C.FieldValue, C.PseudoHeader, C.Balanced;
    var p := Parse(input, c).value;
    ParseExact(input, c, p);
    var b, n := BuilderOf(c, p), 8 + |p.payload|;
    var clear := Clear(b);
    assert input == input[..n] + p.trailing;
    assert input[..n] == input[0..2] + input[2..4] + input[4..6] + input[6..8] + input[8..n];
    assert clear[6] == 0 && clear[7] == 0;
    assert WithWord(clear, 6, p.checksum)
        == Be16(p.sourcePort) + Be16(p.destinationPort) + Be16(n) + Be16(p.checksum) + p.payload;
    if p.checksum != 0 {
      C.BalancedExact(c, UDP_PROTOCOL, input[..n]);
      C.TransportFieldUnique(c, UDP_PROTOCOL, clear, 6, p.checksum);
    }
  }
}
