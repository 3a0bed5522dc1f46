/** IPv4 packets: builder, checksum-validating parser and truncation
    (crates/nodenet-protocols/src/ipv4.rs; section 3.1 of RFC 791). */
module Ipv4 {
  import opened Wire
  import opened Packet
  import opened Buffers
  import C = Checksum

  const MIN_HEADER_LENGTH: nat := 20
  const MAX_FRAGMENT_OFFSET: U16 := 0x1fff

  // ---------------------------------------------------------------------------------------
  // Options.

  /** Whether the padding behind an end-of-list is zero, or an error. */
  function Options(options: Bytes): Result<bool, ParseError>
    decreases |options|
  {
    if options == [] then Ok(true)
    else if options[0] == 0 then Ok(AllZero(options[1..]))
    else if options[0] == 1 then Options(options[1..])
    else if |options| < 2 || options[1] < 2 || options[1] > |options| then Err(Malformed(OptionLength))
    else Options(options[options[1]..])
  }

  /** `validate_ipv4_options`. */
  method ValidateOptions(options: Bytes) returns (r: Result<bool, ParseError>)
    ensures r == Options(options)
  {
    var offset: nat := 0;
    assert options[0..] == options;
    while offset < |options|
      invariant offset <= |options|
      invariant Options(options[offset..]) == Options(options)
    {
      var left := options[offset..];
      if options[offset] == 0 {
        var zero := IsZero(left[1..]);
        return Ok(zero);
      } else if options[offset] == 1 {
        assert left[1..] == options[offset + 1..];
        offset := offset + 1;
      } else {
        if offset + 1 >= |options| { return Err(Malformed(OptionLength)); }
        var length := options[offset + 1];
        if length < 2 || offset + length > |options| { return Err(Malformed(OptionLength)); }
        assert left[length..] == options[offset + length..];
        offset := offset + length;
      }
    }
    r := Ok(true);
  }

  // ---------------------------------------------------------------------------------------
  // The header fields that share a byte or a word.

  datatype Fragmentation = Fragmentation(reserved: bool, dontFragment: bool, moreFragments: bool, offset: U16)

  function Bit(b: bool): nat { if b then 1 else 0 }

  function FlagsField(f: Fragmentation): U16
    requires f.offset <= MAX_FRAGMENT_OFFSET
  {
    Bit(f.reserved) * 0x8000 + Bit(f.dontFragment) * 0x4000 + Bit(f.moreFragments) * 0x2000 + f.offset
  }

  function FlagsOf(field: U16): (f: Fragmentation)
    ensures f.offset <= MAX_FRAGMENT_OFFSET
  {
    Fragmentation(field / 0x8000 == 1, (field / 0x4000) % 2 == 1, (field / 0x2000) % 2 == 1, field % 0x2000)
  }

  lemma FlagsRoundTrip(f: Fragmentation)
    requires f.offset <= MAX_FRAGMENT_OFFSET
    ensures FlagsOf(FlagsField(f)) == f
  {
  }

  function FragmentOf(f: Fragmentation): FragmentState {
    if f.offset != 0 then NonFirst(f.offset, f.moreFragments)
    else if f.moreFragments then First(true) else Unfragmented
  }

  // ---------------------------------------------------------------------------------------
  // The parser.

  datatype Parsed = Parsed(
    dscp: Byte,
    ecn: Byte,
    identification: U16,
    flags: Fragmentation,
    timeToLive: Byte,
    protocol: Byte,
    source: Bytes,
    destination: Bytes,
    options: Bytes,
    payload: Bytes,
    trailing: Bytes,
    declared: nat,
    complete: bool,
    fragment: FragmentState,
    upperLayer: UpperLayerState,
    zeroPadding: bool)

  predicate Canonical(p: Parsed) { !p.flags.reserved && p.zeroPadding }

  function HeaderLength(input: Bytes): nat
    requires |input| >= MIN_HEADER_LENGTH
  {
    input[0] % 16 * 4
  }

  function Conclude(input: Bytes, zeroPadding: bool): Parsed
    requires |input| >= MIN_HEADER_LENGTH && MIN_HEADER_LENGTH <= HeaderLength(input) <= |input|
    requires HeaderLength(input) <= U16At(input, 2)
  {
    var header, declared := HeaderLength(input), U16At(input, 2);
    var payload := input[header..Min(|input|, declared)];
    var flags := FlagsOf(U16At(input, 6));
    Parsed(input[1] / 4, input[1] % 4, U16At(input, 4), flags, input[8], input[9], input[12..16], input[16..20],
           input[20..header], payload, if |input| >= declared then input[declared..] else [],
           declared, |input| >= declared,
           FragmentOf(flags), ClassifyUpperLayer(input[9], payload, FragmentOf(flags), false), zeroPadding)
  }

  /** `parse_ipv4_packet`. */
  function Parse(input: Bytes, mode: ParseMode): Result<Parsed, ParseError> {
    if |input| > MAX_IP_PACKET_LENGTH then Err(LimitExceeded)
    else if |input| < MIN_HEADER_LENGTH then Err(Truncated)
    else if input[0] / 16 != 4 then Err(Malformed(Version))
    else if HeaderLength(input) < MIN_HEADER_LENGTH then Err(Malformed(Field.HeaderLength))
    else if |input| < HeaderLength(input) then Err(Truncated)
    else if U16At(input, 2) < HeaderLength(input) then Err(Malformed(PacketLength))
    else if |input| < U16At(input, 2) && mode.Strict? then Err(Truncated)
    else if !C.Validates(input[..HeaderLength(input)]) then Err(Malformed(HeaderChecksum))
    else
      match Options(input[20..HeaderLength(input)])
      case Err(e) => Err(e)
      case Ok(zeroPadding) =>
        var flags := FlagsOf(U16At(input, 6));
        if flags.dontFragment && (flags.moreFragments || flags.offset != 0) then Err(Malformed(Flags))
        else if flags.moreFragments && (U16At(input, 2) - HeaderLength(input)) % 8 != 0
            then Err(Malformed(PayloadLength))
        else Ok(Conclude(input, zeroPadding))
  }

  /** The same checks, with the checksum accumulated and the options walked. */
  method ParsePacket(input: Bytes, mode: ParseMode) returns (r: Result<Parsed, ParseError>)
    ensures r == Parse(input, mode)
  {
    hide Options, FlagsOf, ClassifyUpperLayer, C.WordSum;
    if |input| > MAX_IP_PACKET_LENGTH { return Err(LimitExceeded); }
    if |input| < MIN_HEADER_LENGTH { return Err(Truncated); }
    if input[0] / 16 != 4 { return Err(Malformed(Version)); }
    var header := HeaderLength(input);
    if header < MIN_HEADER_LENGTH { return Err(Malformed(Field.HeaderLength)); }
    if |input| < header { return Err(Truncated); }
    var declared := U16At(input, 2);
    if declared < header { return Err(Malformed(PacketLength)); }
    if |input| < declared && mode == Strict { return Err(Truncated); }
    var checksum := C.ComputeInternetChecksum(input[..header]);
    if checksum != 0 { return Err(Malformed(HeaderChecksum)); }
    var options := ValidateOptions(input[20..header]);
    if options.Err? { return Err(options.error); }
    var flags := FlagsOf(U16At(input, 6));
    if flags.dontFragment && (flags.moreFragments || flags.offset != 0) { return Err(Malformed(Flags)); }
    if flags.moreFragments && (declared - header) % 8 != 0 { return Err(Malformed(PayloadLength)); }
    r := Ok(Conclude(input, options.value));
  }

  // ---------------------------------------------------------------------------------------
  // The builder.

  datatype Builder = Builder(
    dscp: Byte,
    ecn: Byte,
    identification: U16,
    dontFragment: bool,
    moreFragments: bool,
    fragmentOffset: U16,
    timeToLive: Byte,
    protocol: Byte,
    source: Bytes,
    destination: Bytes,
    options: Bytes,
    payload: Bytes)

  predicate Addressed(b: Builder) { |b.source| == 4 && |b.destination| == 4 }

  /** `validate`. */
  function Validate(b: Builder): Option<BuildError> {
    if b.dscp > 0x3f || b.ecn > 3 then Some(InvalidValue(OtherField))
    else if |b.options| > 40 || |b.options| % 4 != 0
        || Options(b.options) != Ok(true) then Some(InvalidValue(OptionLength))
    else if b.fragmentOffset > MAX_FRAGMENT_OFFSET then Some(InvalidValue(FragmentOffset))
    else if b.dontFragment && (b.moreFragments || b.fragmentOffset != 0) then Some(InvalidValue(Flags))
    else if b.moreFragments && |b.payload| % 8 != 0 then Some(InvalidValue(PayloadLength))
    else if 20 + |b.options| + |b.payload| > 0xffff then Some(LengthExceedsLimit)
    else None
  }

  function FlagsFor(b: Builder): Fragmentation
  {
    Fragmentation(false, b.dontFragment, b.moreFragments, b.fragmentOffset)
  }

  /** Everything before the addresses, the checksum field still clear. */
  function Leading(b: Builder): (s: Bytes)
    requires Addressed(b) && Validate(b).None?
    ensures |s| == 12
  {
    [0x40 + (20 + |b.options|) / 4, b.dscp * 4 + b.ecn] + Be16(20 + |b.options| + |b.payload|) + Be16(b.identification)
    + Be16(FlagsField(FlagsFor(b))) + [b.timeToLive, b.protocol, 0, 0]
  }

  function ClearHeader(b: Builder): (s: Bytes)
    requires Addressed(b) && Validate(b).None?
    ensures |s| == 20 + |b.options|
  {
    Leading(b) + b.source + b.destination + b.options
  }

  function Header(b: Builder): (s: Bytes)
    requires Addressed(b) && Validate(b).None?
    ensures |s| == 20 + |b.options|
  {
    WithWord(ClearHeader(b), 10, C.Checksum(ClearHeader(b)))
  }

  function Build(b: Builder): Bytes
    requires Addressed(b) && Validate(b).None?
  {
    Header(b) + b.payload
  }

  /** The header fields are where the parser looks for them. */
  lemma HeaderFields(b: Builder)
    requires Addressed(b) && Validate(b).None?
    ensures var s := Build(b);
            && s[0] == 0x40 + (20 + |b.options|) / 4 && s[1] == b.dscp * 4 + b.ecn
            && U16At(s, 2) == 20 + |b.options| + |b.payload| && U16At(s, 4) == b.identification
            && U16At(s, 6) == FlagsField(FlagsFor(b)) && s[8] == b.timeToLive && s[9] == b.protocol
            && s[12..16] == b.source && s[16..20] == b.destination && s[20..20 + |b.options|] == b.options
  {
    hide Be16, U16At, Options, C.Checksum, FlagsField, WithWord;
    ClearFields(b);
    var s, h, c := Build(b), Header(b), ClearHeader(b);
    Patched(c, C.Checksum(c));
    assert s[..|h|] == h;
    assert s[2..4] == c[2..4] && s[4..6] == c[4..6] && s[6..8] == c[6..8];
    U16Here(s, 2, 20 + |b.options| + |b.payload|);
    U16Here(s, 4, b.identification);
    U16Here(s, 6, FlagsField(FlagsFor(b)));
    assert s[12..16] == c[12..16] && s[16..20] == c[16..20] && s[20..20 + |b.options|] == c[20..20 + |b.options|];
  }

  lemma Patched(c: Bytes, word: U16)
    requires |c| >= 20
    ensures var h := WithWord(c, 10, word);
            h[..10] == c[..10] && h[12..] == c[12..]
  {
  }

  lemma LeadingFields(b: Builder)
    requires Addressed(b) && Validate(b).None?
    ensures var s := Leading(b);
            && s[0] == 0x40 + (20 + |b.options|) / 4 && s[1] == b.dscp * 4 + b.ecn
            && s[2..4] == Be16(20 + |b.options| + |b.payload|) && s[4..6] == Be16(b.identification)
            && s[6..8] == Be16(FlagsField(FlagsFor(b))) && s[8] == b.timeToLive && s[9] == b.protocol
            && s[10] == 0 && s[11] == 0
  {
    hide Be16, Options, FlagsField;
  }

  lemma ClearFields(b: Builder)
    requires Addressed(b) && Validate(b).None?
    ensures var s := ClearHeader(b);
            && s[0] == 0x40 + (20 + |b.options|) / 4 && s[1] == b.dscp * 4 + b.ecn
            && s[2..4] == Be16(20 + |b.options| + |b.payload|) && s[4..6] == Be16(b.identification)
            && s[6..8] == Be16(FlagsField(FlagsFor(b))) && s[8] == b.timeToLive && s[9] == b.protocol
            && s[10] == 0 && s[11] == 0
            && s[12..16] == b.source && s[16..20] == b.destination && s[20..20 + |b.options|] == b.options
  {
    hide Be16, Options, FlagsField, Leading;
    LeadingFields(b);
    var s, l := ClearHeader(b), Leading(b);
    assert s[2..4] == l[2..4] && s[4..6] == l[4..6] && s[6..8] == l[6..8];
    assert s[12..16] == b.source;
    assert s[16..20] == b.destination;
    assert s[20..20 + |b.options|] == b.options;
  }

  lemma HeaderValidates(b: Builder)
    requires Addressed(b) && Validate(b).None?
    ensures C.Validates(Build(b)[..20 + |b.options|])
  {
    hide C.Checksum, WithWord, Options;
    ClearFields(b);
    C.WrittenValidates(ClearHeader(b), 10, false);
    assert Build(b)[..20 + |b.options|] == Header(b);
  }

  /** Every packet the builder accepts parses strictly back to its fields, options and payload. */
  lemma BuildParse(b: Builder)
    requires Addressed(b) && Validate(b).None?
    ensures Parse(Build(b), Strict).Ok?
    ensures var p := Parse(Build(b), Strict).value;
            && p.dscp == b.dscp && p.ecn == b.ecn && p.identification == b.identification && p.flags == FlagsFor(b)
            && p.timeToLive == b.timeToLive && p.protocol == b.protocol && p.source == b.source
            && p.destination == b.destination && p.options == b.options && p.payload == b.payload
            && p.trailing == [] && p.complete && Canonical(p) && p.fragment == FragmentOf(FlagsFor(b))
            && p.upperLayer == ClassifyUpperLayer(b.protocol, b.payload, FragmentOf(FlagsFor(b)), false)
  {
    hide U16At, Options, FlagsField, FlagsOf, C.Validates, Header, ClassifyUpperLayer;
    HeaderFields(b);
    HeaderValidates(b);
    FlagsRoundTrip(FlagsFor(b));
    var s := Build(b);
    assert HeaderLength(s) == 20 + |b.options|;
    assert s[20 + |b.options|..|s|] == b.payload;
  }

  /** `encode_ipv4`: every field, the payload, and the checksum of what the header then holds. */
  method Encode(b: Builder, output: array<Byte>, ghost original: Bytes)
    requires Addressed(b) && Validate(b).None? && Written(output, original, []) && |Build(b)| <= output.Length
    modifies output
    ensures Written(output, original, Build(b))
  {
    hide Written, Leading, Options, C.Checksum, WithWord;
    var header := 20 + |b.options|;
    PutNext(output, 0, Leading(b), original, []);
    PutNext(output, 12, b.source, original, [] + Leading(b));
    PutNext(output, 16, b.destination, original, [] + Leading(b) + b.source);
    PutNext(output, 20, b.options, original, [] + Leading(b) + b.source + b.destination);
    assert [] + Leading(b) + b.source + b.destination + b.options == ClearHeader(b);
    PutNext(output, header, b.payload, original, ClearHeader(b));
    assert output[..header] == ClearHeader(b) by { WrittenPrefix(output, original, ClearHeader(b), b.payload); }
    var checksum := C.ComputeInternetChecksum(output[..header]);
    PutWord(output, 10, checksum, original, ClearHeader(b) + b.payload);
    PatchInside(ClearHeader(b), b.payload, 10, checksum);
  }

  /** `write_into`: the packet and nothing else, or an error and nothing at all. */
  method WriteInto(b: Builder, output: array<Byte>) returns (r: Result<nat, BuildError>)
    requires Addressed(b)
    modifies output
    ensures r.Err? ==> output[..] == old(output[..])
    ensures Validate(b).Some? ==> r == Err(Validate(b).value)
    ensures Validate(b).None? ==> (r.Ok? <==> |Build(b)| <= output.Length)
    ensures r.Ok? ==> r.value == |Build(b)| && output[..] == Build(b) + old(output[..])[r.value..]
  {
    hide Options, Header;
    if b.dscp > 0x3f || b.ecn > 3 { return Err(InvalidValue(OtherField)); }
    var options := ValidateOptions(b.options);
    if |b.options| > 40 || |b.options| % 4 != 0 || options != Ok(true) { return Err(InvalidValue(OptionLength)); }
    if b.fragmentOffset > MAX_FRAGMENT_OFFSET { return Err(InvalidValue(FragmentOffset)); }
    if b.dontFragment && (b.moreFragments || b.fragmentOffset != 0) { return Err(InvalidValue(Flags)); }
    if b.moreFragments && |b.payload| % 8 != 0 { return Err(InvalidValue(PayloadLength)); }
    var required := 20 + |b.options| + |b.payload|;
    if required > 0xffff { return Err(LengthExceedsLimit); }
    if output.Length < required { return Err(BufferTooSmall(required, output.Length)); }
    Encode(b, output, output[..]);
    r := Ok(required);
  }

  // ---------------------------------------------------------------------------------------
  // Truncation.

  lemma CutHeader(input: Bytes, k: nat)
    requires |input| >= MIN_HEADER_LENGTH && MIN_HEADER_LENGTH <= HeaderLength(input) <= k <= |input|
    ensures var cut, h := input[..k], HeaderLength(input);
            && HeaderLength(cut) == h && cut[0] == input[0] && cut[1] == input[1] && cut[8] == input[8]
                && cut[9] == input[9]
            && U16At(cut, 2) == U16At(input, 2) && U16At(cut, 4) == U16At(input, 4) && U16At(cut, 6) == U16At(input, 6)
            && cut[..h] == input[..h] && cut[20..h] == input[20..h]
            && cut[12..16] == input[12..16] && cut[16..20] == input[16..20]
  {
    var cut := input[..k];
    assert cut[2..4] == input[2..4] && cut[4..6] == input[4..6] && cut[6..8] == input[6..8];
  }

  lemma CutPayload(input: Bytes, k: nat, h: nat, declared: nat)
    requires h <= k <= |input| && h <= declared <= |input|
    ensures input[..k][h..Min(k, declared)] == input[h..declared][..Min(k - h, declared - h)]
  {
  }

  /** Cutting a strictly valid packet anywhere after its header keeps every header field, and the payload
      becomes a prefix. */
  lemma Truncation(input: Bytes, k: nat)
    requires Parse(input, Strict).Ok? && HeaderLength(input) <= k <= |input|
    ensures Parse(input[..k], CompatibleIcmpQuote).Ok?
    ensures var p, q := Parse(input, Strict).value, Parse(input[..k], CompatibleIcmpQuote).value;
            && q == p.(payload := q.payload, trailing := q.trailing, complete := q.complete, upperLayer := q.upperLayer)
            && q.payload == p.payload[..Min(k - HeaderLength(input), |p.payload|)]
            && q.upperLayer == ClassifyUpperLayer(p.protocol, q.payload, p.fragment, false)
            && q.complete == (k >= p.declared)
  {
    hide Options, FlagsOf, C.Validates, ClassifyUpperLayer, FragmentOf, U16At, HeaderLength;
    CutHeader(input, k);
    CutPayload(input, k, HeaderLength(input), U16At(input, 2));
  }
}
