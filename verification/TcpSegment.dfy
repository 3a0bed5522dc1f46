/** Whole TCP segments: builder, parser, their round trip, and the loops of the source
    (crates/nodenet-protocols/src/tcp.rs; section 3.1 of RFC 9293). */
module TcpSegment {
  import opened Wire
  import opened Packet
  import opened Buffers
  import opened Tcp
  import C = Checksum

  datatype Builder = Builder(
    context: C.Context,
    sourcePort: U16,
    destinationPort: U16,
    sequenceNumber: U32,
    acknowledgmentNumber: U32,
    flags: U16,
    windowSize: U16,
    urgentPointer: U16,
    options: seq<TcpOption>,
    payload: Bytes)

  /** The builder's flag type holds nine bits and its option type has no end-of-list. */
  predicate Typed(b: Builder) {
    b.flags <= 0x1ff && (forall i :: 0 <= i < |b.options| ==> !b.options[i].EndOfList?) && C.WellFormed(b.context)
  }

  /** `validate_options`: the padded length. */
  function OptionsLength(os: seq<TcpOption>): Result<nat, BuildError> {
    if |os| > MAX_TCP_OPTION_COUNT then Err(InvalidValue(OptionLength))
    else
      match FirstFault(os)
      case Some(field) => Err(InvalidValue(field))
      case None => if Align4(LengthSum(os)) > MAX_TCP_OPTION_BYTES then Err(InvalidValue(OptionLength))
          else Ok(Align4(LengthSum(os)))
  }

  function FirstFault(os: seq<TcpOption>): Option<Field> {
    if os == [] then None else if Fault(os[0]).Some? then Fault(os[0]) else FirstFault(os[1..])
  }

  /** `required_length`: the header length. */
  function Validate(b: Builder): Result<nat, BuildError> {
    match OptionsLength(b.options)
    case Err(e) => Err(e)
    case Ok(length) =>
      if (b.flags / 32) % 2 == 0 && b.urgentPointer != 0 then Err(InvalidValue(UrgentPointer))
      else if 20 + length + |b.payload| > 0xffff then Err(LengthExceedsLimit)
      else Ok(20 + length)
  }

  lemma {:induction false} FaultlessExact(os: seq<TcpOption>)
    requires forall i :: 0 <= i < |os| ==> !os[i].EndOfList?
    ensures FirstFault(os).None? <==> AllSendable(os)
    decreases |os|
  {
    hide Fault;
    if os != [] {
      FaultlessExact(os[1..]);
      assert os == [os[0]] + os[1..];
    }
  }

  function PaddingOf(os: seq<TcpOption>): nat { Align4(LengthSum(os)) - LengthSum(os) }

  /** The fixed header, its checksum field clear. */
  function Fixed(b: Builder, header: nat): (s: Bytes)
    requires Typed(b) && 20 <= header <= 60
    ensures |s| == 20
  {
    Be16(b.sourcePort) + Be16(b.destinationPort) + Be32(b.sequenceNumber) + Be32(b.acknowledgmentNumber)
    + [header / 4 * 16 + b.flags / 256, b.flags % 256] + Be16(b.windowSize) + [0, 0] + Be16(b.urgentPointer)
  }

  function Clear(b: Builder): (s: Bytes)
    requires Typed(b) && Validate(b).Ok?
    ensures |s| == Validate(b).value + |b.payload|
  {
    FaultlessExact(b.options);
    Fixed(b, Validate(b).value) + AllBytes(b.options) + Zeros(PaddingOf(b.options)) + b.payload
  }

  function ChecksumField(b: Builder): U16
    requires Typed(b) && Validate(b).Ok?
  {
    C.FieldValue(C.PseudoHeader(b.context, TCP_PROTOCOL, |Clear(b)|) + Clear(b), false)
  }

  function Build(b: Builder): (s: Bytes)
    requires Typed(b) && Validate(b).Ok?
    ensures |s| == Validate(b).value + |b.payload|
  {
    WithWord(Clear(b), 16, ChecksumField(b))
  }

  // ---------------------------------------------------------------------------------------
  // The parser.

  datatype Parsed = Parsed(
    sourcePort: U16,
    destinationPort: U16,
    sequenceNumber: U32,
    acknowledgmentNumber: U32,
    flags: U16,
    reservedBits: nat,
    windowSize: U16,
    checksum: U16,
    urgentPointer: U16,
    options: seq<TcpOption>,
    payload: Bytes,
    zeroPadding: bool,
    modestScale: bool)

  function Conclude(input: Bytes, header: nat, d: Decoded): Parsed
    requires 20 <= header <= |input|
  {
    Parsed(U16At(input, 0), U16At(input, 2), U32At(input, 4), U32At(input, 8), Pair(input[12] % 2, input[13]),
           input[12] / 2 % 8, U16At(input, 14), U16At(input, 16), U16At(input, 18), d.options, input[header..],
           d.zeroPadding, d.modestScale)
  }

  /** `parse_tcp_segment`. */
  function Parse(input: Bytes, context: C.Context): Result<Parsed, ParseError> {
    if |input| > 0xffff then Err(LimitExceeded)
    else if |input| < 20 then Err(Truncated)
    else
      var header := input[12] / 16 * 4;
      if header < 20 then Err(Malformed(HeaderLength))
      else if |input| < header then Err(Truncated)
      else if C.TransportChecksum(context, TCP_PROTOCOL, input) != Some(0) then Err(Malformed(Field.TransportChecksum))
      else
        match ParseOptions(input[20..header], [], true)
        case Err(e) => Err(e)
        case Ok(d) => Ok(Conclude(input, header, d))
  }

  lemma FixedFields(b: Builder, header: nat)
    requires Typed(b) && 20 <= header <= 60 && header % 4 == 0
    ensures var s := Fixed(b, header);
            && s[0..2] == Be16(b.sourcePort) && s[2..4] == Be16(b.destinationPort) && s[4..8] == Be32(b.sequenceNumber)
            && s[8..12] == Be32(b.acknowledgmentNumber) && s[12] == header / 4 * 16 + b.flags / 256
                && s[13] == b.flags % 256
            && s[14..16] == Be16(b.windowSize) && s[16] == 0 && s[17] == 0 && s[18..20] == Be16(b.urgentPointer)
  {
    hide Be16, Be32;
  }

  /** Everything but the checksum field is as written. */
  lemma BuildParts(b: Builder)
    requires Typed(b) && Validate(b).Ok?
    ensures var s, h := Build(b), Validate(b).value;
            && 20 <= h <= 60 && h % 4 == 0 && AllSendable(b.options)
            && s[..16] == Fixed(b, h)[..16] && s[16..18] == Be16(ChecksumField(b)) && s[18..20] == Fixed(b, h)[18..20]
            && s[20..h] == AllBytes(b.options) + Zeros(PaddingOf(b.options)) && s[h..] == b.payload
  {
    hide Be16, Fixed, AllBytes, ChecksumField, Zeros, FirstFault;
    FaultlessExact(b.options);
    var s, c, h := Build(b), Clear(b), Validate(b).value;
    assert c[..16] == Fixed(b, h)[..16] && c[18..20] == Fixed(b, h)[18..20];
    assert c[20..h] == AllBytes(b.options) + Zeros(PaddingOf(b.options)) && c[h..] == b.payload;
    assert s[..16] == c[..16] && s[18..] == c[18..];
    assert s[18..20] == c[18..20] && s[20..h] == c[20..h] && s[h..] == c[h..];
  }

  lemma BuildFields(b: Builder)
    requires Typed(b) && Validate(b).Ok?
    ensures var s, h := Build(b), Validate(b).value;
            && U16At(s, 0) == b.sourcePort && U16At(s, 2) == b.destinationPort && U32At(s, 4) == b.sequenceNumber
            && U32At(s, 8) == b.acknowledgmentNumber && s[12] == h / 4 * 16 + b.flags / 256 && s[13] == b.flags % 256
            && U16At(s, 14) == b.windowSize && U16At(s, 16) == ChecksumField(b) && U16At(s, 18) == b.urgentPointer
  {
    hide Be16, Be32, U16At, U32At, Fixed, Build, Validate;
    BuildParts(b);
    var s, h := Build(b), Validate(b).value;
    var f := Fixed(b, h);
    FixedFields(b, h);
    SamePrefix(s, f, 0, 2);
    SamePrefix(s, f, 2, 4);
    SamePrefix(s, f, 4, 8);
    SamePrefix(s, f, 8, 12);
    SamePrefix(s, f, 14, 16);
    assert s[12] == s[..16][12] && s[13] == s[..16][13];
    U16Here(s, 0, b.sourcePort);
    U16Here(s, 2, b.destinationPort);
    U32Here(s, 4, b.sequenceNumber);
    U32Here(s, 8, b.acknowledgmentNumber);
    U16Here(s, 14, b.windowSize);
    U16Here(s, 16, ChecksumField(b));
    U16Here(s, 18, b.urgentPointer);
  }

  lemma SamePrefix(s: Bytes, t: Bytes, i: nat, j: nat)
    requires i <= j <= 16 <= |s| && 16 <= |t| && s[..16] == t[..16]
    ensures s[i..j] == t[i..j]
  {
    forall k | i <= k < j ensures s[k] == t[k] {
      assert s[..16][k] == t[..16][k];
    }
  }

  lemma ChecksumWritten(b: Builder)
    requires Typed(b) && Validate(b).Ok?
    ensures C.TransportChecksum(b.context, TCP_PROTOCOL, Build(b)) == Some(0)
  {
    hide C.Checksum, C.TransportChecksum, Fixed, AllBytes, FirstFault, Be16;
    var c := Clear(b);
    FaultlessExact(b.options);
    FixedFields(b, Validate(b).value);
    assert c[16] == 0 && c[17] == 0;
    C.TransportWrittenValidates(b.context, TCP_PROTOCOL, c, 16, false);
  }

  lemma PaddingNeeded(os: seq<TcpOption>)
    ensures PaddingOf(os) == 0 <==> LengthSum(os) % 4 == 0
  {
  }

  /** Every segment the builder accepts parses back to the same header, payload and option list, followed by
      exactly one end-of-list if and only if padding was needed, with canonical conformance. */
  lemma BuildParse(b: Builder)
    requires Typed(b) && Validate(b).Ok?
    ensures Parse(Build(b), b.context)
            == Ok(Parsed(b.sourcePort, b.destinationPort, b.sequenceNumber, b.acknowledgmentNumber, b.flags, 0,
                         b.windowSize, ChecksumField(b), b.urgentPointer, b.options + Terminator(PaddingOf(b.options)),
                         b.payload, true, true))
    ensures PaddingOf(b.options) == 0 <==> LengthSum(b.options) % 4 == 0
  {
    hide U16At, U32At, Be16, Be32, Build, Fixed, C.TransportChecksum, PaddingOf;
    hide ChecksumField, ParseOptions, AllBytes, FirstFault, Zeros;
    BuildParts(b);
    BuildFields(b);
    ChecksumWritten(b);
    OffsetByte(Validate(b).value, b.flags);
    PaddingNeeded(b.options);
    OptionsRoundTrip(b.options, PaddingOf(b.options), []);
    assert [] + b.options == b.options;
  }

  lemma OffsetByte(header: nat, flags: U16)
    requires 20 <= header <= 60 && header % 4 == 0 && flags <= 0x1ff
    ensures var b: int := header / 4 * 16 + flags / 256;
            b / 16 * 4 == header && b % 2 == flags / 256 && b / 2 % 8 == 0 && Pair(flags / 256, flags % 256) == flags
  {
  }

  // ---------------------------------------------------------------------------------------
  // The loops of the source.

  /** `parse_options`. */
  method ParseOptionList(input: Bytes) returns (r: Result<Decoded, ParseError>)
    ensures r == ParseOptions(input, [], true)
  {
    hide ParseOption;
    var cursor: nat, options, modest := 0, [], true;
    assert input[0..] == input;
    while cursor < |input|
      invariant cursor <= |input| && |options| <= MAX_TCP_OPTION_COUNT
      invariant ParseOptions(input[cursor..], options, modest) == ParseOptions(input, [], true)
    {
      var left := input[cursor..];
      var kind := input[cursor];
      if kind == 0 {
        if |options| == MAX_TCP_OPTION_COUNT { return Err(LimitExceeded); }
        var zero := IsZero(left[1..]);
        return Ok(Decoded(options + [EndOfList], zero, modest));
      }
      if kind == 1 {
        if |options| == MAX_TCP_OPTION_COUNT { return Err(LimitExceeded); }
        assert left[1..] == input[cursor + 1..];
        options := options + [NoOperation];
        cursor := cursor + 1;
      } else {
        OptionWithin(left);
        var parsed := ParseOption(left);
        if parsed.Err? { return Err(parsed.error); }
        var p := parsed.value;
        if |options| == MAX_TCP_OPTION_COUNT { return Err(LimitExceeded); }
        assert left[p.length..] == input[cursor + p.length..];
        if p.option.WindowScale? && p.option.shift > 14 { modest := false; }
        options := options + [p.option];
        cursor := cursor + p.length;
      }
    }
    r := Ok(Decoded(options, true, modest));
  }

  lemma OptionWithin(input: Bytes)
    requires input != []
    ensures ParseOption(input).Ok? ==> 2 <= ParseOption(input).value.length <= |input|
  {
    hide Blocks;
  }

  /** `validate_options`. */
  method ValidateOptions(os: seq<TcpOption>) returns (r: Result<nat, BuildError>)
    ensures r == OptionsLength(os)
  {
    hide Fault, Length;
    if |os| > MAX_TCP_OPTION_COUNT { return Err(InvalidValue(OptionLength)); }
    var length: nat := 0;
    assert os[0..] == os;
    for i := 0 to |os|
      invariant FirstFault(os[i..]) == FirstFault(os) && length + LengthSum(os[i..]) == LengthSum(os)
    {
      assert os[i..][0] == os[i] && os[i..][1..] == os[i + 1..];
      if Fault(os[i]).Some? { return Err(InvalidValue(Fault(os[i]).value)); }
      length := length + Length(os[i]);
    }
    var padded := (length + 3) / 4 * 4;
    if padded > MAX_TCP_OPTION_BYTES { return Err(InvalidValue(OptionLength)); }
    r := Ok(padded);
  }

  /** The option loop of `encode_tcp`: over a cleared area, one option behind the other. */
  method WriteOptions(os: seq<TcpOption>, area: nat, output: array<Byte>, ghost original: Bytes, ghost fixed: Bytes)
    requires AllSendable(os) && |fixed| == 20 && LengthSum(os) <= area
    requires Written(output, original, fixed + Zeros(area))
    modifies output
    ensures Written(output, original, fixed + AllBytes(os) + Zeros(area - LengthSum(os)))
  {
    hide Written, OptionBytes, Sendable, Length, Zeros, AllBytes;
    var cursor: nat := 20;
    ghost var left := area;
    ghost var done: Bytes := [];
    assert os[0..] == os;
    assert fixed + done + Zeros(left) == fixed + Zeros(area);
    for i := 0 to |os|
      invariant cursor == 20 + |done| && |done| + LengthSum(os[i..]) == LengthSum(os) && |done| + left == area
      invariant done + AllBytes(os[i..]) == AllBytes(os)
      invariant Written(output, original, fixed + done + Zeros(left))
    {
      var o := os[i];
      assert os[i..][0] == o && os[i..][1..] == os[i + 1..];
      FirstOption(os[i..]);
      PutAt(output, cursor, OptionBytes(o), original, fixed + done + Zeros(left));
      PatchZeros(fixed + done, OptionBytes(o), left);
      assert fixed + (done + OptionBytes(o)) == fixed + done + OptionBytes(o);
      done := done + OptionBytes(o);
      left := left - Length(o);
      cursor := cursor + Length(o);
    }
    NoOptions();
    assert os[|os|..] == [] && done + [] == done;
  }

  lemma FirstOption(os: seq<TcpOption>)
    requires os != [] && AllSendable(os)
    ensures AllBytes(os) == OptionBytes(os[0]) + AllBytes(os[1..])
        && LengthSum(os) == Length(os[0]) + LengthSum(os[1..])
  {
  }

  lemma NoOptions()
    ensures AllBytes([]) == [] && LengthSum([]) == 0
  {
  }

  /** `write_into`: the segment and nothing else, or an error and nothing at all. The error exit behind the
      first write is never taken, because an accepted length always fits the pseudo-header. */
  method WriteInto(b: Builder, output: array<Byte>) returns (r: Result<nat, BuildError>)
    requires Typed(b)
    modifies output
    ensures r.Err? ==> output[..] == old(output[..])
    ensures Validate(b).Err? ==> r == Err(Validate(b).error)
    ensures Validate(b).Ok? ==> (r.Ok? <==> |Build(b)| <= output.Length)
    ensures r.Ok? ==> r.value == |Build(b)| && output[..] == Build(b) + old(output[..])[r.value..]
  {
    hide C.Checksum, Be16, OptionsLength, Clear;
    var options := ValidateOptions(b.options);
    if options.Err? { return Err(options.error); }
    if (b.flags / 32) % 2 == 0 && b.urgentPointer != 0 { return Err(InvalidValue(UrgentPointer)); }
    var required := 20 + options.value + |b.payload|;
    if required > 0xffff { return Err(LengthExceedsLimit); }
    if output.Length < required { return Err(BufferTooSmall(required, output.Length)); }
    ghost var original := output[..];
    Encode(b, options.value, output, original);
    ghost var clear := Clear(b);
    assert clear + [] == clear;
    WrittenPrefix(output, original, clear, []);
    var checksum := C.ComputeTransportChecksum(b.context, TCP_PROTOCOL, output[..required]);
    assert checksum.Some?;
    PutWord(output, 16, checksum.value, original, clear);
    r := Ok(required);
  }

  /** `encode_tcp`. */
  method Encode(b: Builder, area: nat, output: array<Byte>, ghost original: Bytes)
    requires Typed(b) && Validate(b).Ok? && area == Validate(b).value - 20
    requires Written(output, original, []) && 20 + area + |b.payload| <= output.Length
    modifies output
    ensures Written(output, original, Clear(b))
  {
    hide Written, Fixed, AllBytes, Zeros, FirstFault;
    FaultlessExact(b.options);
    ghost var fixed := Fixed(b, 20 + area);
    PutNext(output, 0, Fixed(b, 20 + area), original, []);
    assert [] + fixed == fixed;
    PutNext(output, 20, Zeros(area), original, fixed);
    WriteOptions(b.options, area, output, original, fixed);
    ghost var header := fixed + AllBytes(b.options) + Zeros(area - LengthSum(b.options));
    PutNext(output, 20 + area, b.payload, original, header);
  }
}
