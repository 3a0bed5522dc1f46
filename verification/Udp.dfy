/** UDP datagrams and their zero-checksum rule (crates/nodenet-protocols/src/udp.rs; RFC 768). */
module Udp {
  import opened Wire
  import opened Packet
  import opened Buffers
  import C = Checksum

  const UDP_HEADER_LENGTH: nat := 8
  const UDP_PROTOCOL: Byte := 17

  datatype ChecksumMode = Compute | OmitIpv4

  datatype Builder = Builder(context: C.Context, mode: ChecksumMode, sourcePort: U16, destinationPort: U16,
      payload: Bytes)

  datatype ChecksumStatus = Valid | NotPresentIpv4

  datatype Parsed = Parsed(sourcePort: U16, destinationPort: U16, checksum: U16, status: ChecksumStatus,
      payload: Bytes, trailing: Bytes)

  /** `required_length`. */
  function Validate(b: Builder): Option<BuildError> {
    if b.mode.OmitIpv4? && b.context.Ipv6? then Some(InvalidValue(Field.TransportChecksum))
    else if UDP_HEADER_LENGTH + |b.payload| > 0xffff then Some(LengthExceedsLimit)
    else None
  }

  /** The datagram with its checksum field clear. */
  function Clear(b: Builder): (s: Bytes)
    requires Validate(b).None?
    ensures |s| == 8 + |b.payload|
  {
    Be16(b.sourcePort) + Be16(b.destinationPort) + Be16(8 + |b.payload|) + [0, 0] + b.payload
  }

  /** The transmitted checksum: all ones stands for a computed zero, zero for none. */
  function Field16(b: Builder): U16
    requires Validate(b).None?
  {
    if b.mode.OmitIpv4? then 0 else C.FieldValue(C.PseudoHeader(b.context, UDP_PROTOCOL, 8 + |b.payload|) + Clear(b),
        true)
  }

  function Build(b: Builder): (s: Bytes)
    requires Validate(b).None?
    ensures |s| == 8 + |b.payload|
  {
    WithWord(Clear(b), 6, Field16(b))
  }

  /** `parse_udp_datagram`. */
  function Parse(input: Bytes, context: C.Context): Result<Parsed, ParseError> {
    if |input| > 0xffff then Err(LimitExceeded)
    else if |input| < UDP_HEADER_LENGTH then Err(Truncated)
    else
      var declared, checksum := U16At(input, 4), U16At(input, 6);
      if declared < UDP_HEADER_LENGTH then Err(Malformed(PacketLength))
      else if |input| < declared then Err(Truncated)
      else if checksum == 0 && context.Ipv6? then Err(Malformed(Field.TransportChecksum))
      else if checksum != 0 && C.TransportChecksum(context, UDP_PROTOCOL, input[..declared]) != Some(0) then
        Err(Malformed(Field.TransportChecksum))
      else
        Ok(Parsed(U16At(input, 0), U16At(input, 2), checksum, if checksum == 0 then NotPresentIpv4 else Valid,
                  input[8..declared], input[declared..]))
  }

  lemma BuildFields(b: Builder)
    requires Validate(b).None?
    ensures var s := Build(b);
            && U16At(s, 0) == b.sourcePort && U16At(s, 2) == b.destinationPort && U16At(s, 4) == 8 + |b.payload|
            && U16At(s, 6) == Field16(b) && s[8..] == b.payload
  {
    hide Be16, U16At, Field16;
    var s, c := Build(b), Clear(b);
    assert c[2..4] == Be16(b.destinationPort) && c[4..6] == Be16(8 + |b.payload|);
    assert s[2..4] == c[2..4] && s[4..6] == c[4..6];
    U16Here(s, 0, b.sourcePort);
    U16Here(s, 2, b.destinationPort);
    U16Here(s, 4, 8 + |b.payload|);
    U16Here(s, 6, Field16(b));
  }

  /** Every datagram the builder accepts parses back to its ports and payload. A computed checksum is never
      sent as zero, so zero on the wire always means that none was sent. */
  lemma BuildParse(b: Builder, trailing: Bytes)
    requires C.WellFormed(b.context) && Validate(b).None? && 8 + |b.payload| + |trailing| <= 0xffff
    ensures Parse(Build(b) + trailing, b.context)
            == Ok(Parsed(b.sourcePort, b.destinationPort, Field16(b), if b.mode.Compute? then Valid else NotPresentIpv4,
                         b.payload, trailing))
    ensures Field16(b) == 0 <==> b.mode.OmitIpv4?
  {
    hide U16At, Build, C.Checksum, C.TransportChecksum, C.FieldValue;
    BuildFields(b);
    var s, whole := Build(b), Build(b) + trailing;
    if b.mode.Compute? { ChecksumWritten(b); }
    assert whole[..8 + |b.payload|] == s;
    assert whole[8..8 + |b.payload|] == b.payload && whole[8 + |b.payload|..] == trailing;
    Prefix16(s, trailing, 0);
    Prefix16(s, trailing, 2);
    Prefix16(s, trailing, 4);
    Prefix16(s, trailing, 6);
  }

  lemma Prefix16(s: Bytes, t: Bytes, i: nat)
    requires i + 2 <= |s|
    ensures U16At(s + t, i) == U16At(s, i)
  {
    assert (s + t)[i..i + 2] == s[i..i + 2];
  }

  lemma ChecksumWritten(b: Builder)
    requires C.WellFormed(b.context) && Validate(b).None? && b.mode.Compute?
    ensures Field16(b) != 0 && C.TransportChecksum(b.context, UDP_PROTOCOL, Build(b)) == Some(0)
  {
    hide C.Checksum, C.TransportChecksum;
    var c := Clear(b);
    assert c[6] == 0 && c[7] == 0;
    C.TransportWrittenValidates(b.context, UDP_PROTOCOL, c, 6, true);
  }

  /** `write_into`: the datagram and nothing else, or an error and nothing at all. The error exit behind the
      first write is never taken, because an accepted length always fits the pseudo-header. */
  method WriteInto(b: Builder, output: array<Byte>) returns (r: Result<nat, BuildError>)
    modifies output
    ensures r.Err? ==> output[..] == old(output[..])
    ensures Validate(b).Some? ==> r == Err(Validate(b).value)
    ensures Validate(b).None? ==> (r.Ok? <==> |Build(b)| <= output.Length)
    ensures r.Ok? ==> r.value == |Build(b)| && output[..] == Build(b) + old(output[..])[r.value..]
  {
    hide C.Checksum, Be16;
    if b.mode == OmitIpv4 && b.context.Ipv6? { return Err(InvalidValue(Field.TransportChecksum)); }
    var required := UDP_HEADER_LENGTH + |b.payload|;
    if required > 0xffff { return Err(LengthExceedsLimit); }
    if output.Length < required { return Err(BufferTooSmall(required, output.Length)); }
    ghost var original := output[..];
    WriteClear(b, output, original);
    ghost var clear := Clear(b);
    if b.mode == Compute {
      assert clear + [] == clear;
      WrittenPrefix(output, original, clear, []);
      var checksum := C.ComputeTransportChecksum(b.context, UDP_PROTOCOL, output[..required]);
      assert checksum.Some?;
      var transmitted := if checksum.value == 0 then 0xffff else checksum.value;
      PutWord(output, 6, transmitted, original, clear);
    } else {
      assert WithWord(clear, 6, 0) == clear by { ClearWord(b); }
    }
    r := Ok(required);
  }

  lemma ClearWord(b: Builder)
    requires Validate(b).None?
    ensures WithWord(Clear(b), 6, 0) == Clear(b)
  {
    hide Be16;
    Be16Zero();
  }

  method WriteClear(b: Builder, output: array<Byte>, ghost original: Bytes)
    requires Validate(b).None? && Written(output, original, []) && 8 + |b.payload| <= output.Length
    modifies output
    ensures Written(output, original, Clear(b))
  {
    hide Be16, Written;
    var from, till, length := Be16(b.sourcePort), Be16(b.destinationPort), Be16(8 + |b.payload|);
    PutNext(output, 0, from, original, []);
    PutNext(output, 2, till, original, [] + from);
    PutNext(output, 4, length, original, [] + from + till);
    PutNext(output, 6, [0, 0], original, [] + from + till + length);
    PutNext(output, 8, b.payload, original, [] + from + till + length + [0, 0]);
    assert [] + from + till + length + [0, 0] + b.payload == Clear(b);
  }
}
