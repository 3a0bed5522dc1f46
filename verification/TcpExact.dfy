/** Exactly which TCP segments the parser accepts, and which of them the builder writes
    (crates/nodenet-protocols/src/tcp.rs; section 3.1 of RFC 9293, section 3 of RFC 2018). */
module TcpExact {
  import opened Wire
  import opened Packet
  import opened Tcp
  import opened TcpSegment
  import C = Checksum

  // ---------------------------------------------------------------------------------------
  // Options.

  /** One option and its bytes. All but the one-byte ones hold their length. */
  predicate OnWire(t: Bytes, o: TcpOption) {
    match o
    case EndOfList => false
    case NoOperation => t == [1]
    case MaximumSegmentSize(size) => |t| == 4 && t[0] == 2 && t[1] == 4 && t[2..4] == Be16(size)
    case WindowScale(shift) => t == [3, 3, shift]
    case SackPermitted => t == [4, 2]
    case Sack(blocks) => 10 <= |t| <= 255 && t[0] == 5 && t[1] == |t| && t[2..] == BlockBytes(blocks)
    case Timestamp(value, echo) =>
      |t| == 10 && t[0] == 8 && t[1] == 10 && t[2..6] == Be32(value) && t[6..10] == Be32(echo)
    case UnknownOption(kind, data) =>
      2 <= |t| <= 255 && t[0] == kind && (kind > 5 && kind != 8) && t[1] == |t| && t[2..] == data
  }

  predicate AllOnWire(tiles: seq<Bytes>, os: seq<TcpOption>) {
    |tiles| == |os| && forall i :: 0 <= i < |tiles| ==> OnWire(tiles[i], os[i])
  }

  predicate Modest(os: seq<TcpOption>) {
    forall i :: 0 <= i < |os| ==> !(os[i].WindowScale? && os[i].shift > 14)
  }

  /** The listed options up to a zero byte, if there is one; behind it is padding. */
  predicate Area(input: Bytes, tiles: seq<Bytes>, listed: seq<TcpOption>, tail: Bytes) {
    input == Join(tiles) + tail && AllOnWire(tiles, listed) && (tail != [] ==> tail[0] == 0)
  }

  lemma {:induction false} BlocksBack(data: Bytes)
    requires |data| % 8 == 0
    ensures BlockBytes(Blocks(data)) == data
    decreases |data|
  {
    hide Be32, U32At;
    if |data| >= 8 {
      Be32Inverse(data, 0);
      Be32Inverse(data, 4);
      BlocksBack(data[8..]);
      assert data == data[0..4] + data[4..8] + data[8..];
      var rest := Blocks(data[8..]);
      assert ([SackBlock(U32At(data, 0), U32At(data, 4))] + rest)[1..] == rest;
    }
  }

  /** An option with a length byte at the front is read exactly as it stands on the wire. */
  lemma OptionSound(input: Bytes)
    requires input != [] && input[0] > 1 && ParseOption(input).Ok?
    ensures var p := ParseOption(input).value;
            && 2 <= p.length <= |input| && OnWire(input[..p.length], p.option)
            && !p.option.EndOfList? && !p.option.NoOperation?
  {
    hide Be16, Be32, U16At, U32At, Blocks, BlockBytes;
    var length := input[1];
    var t, data := input[..length], input[2..length];
    assert t[2..] == data && t[0] == input[0] && t[1] == input[1];
    if input[0] == 2 && length == 4 {
      Word16(data, 0, U16At(data, 0));
      assert t[2..4] == data[0..2];
    } else if input[0] == 3 && length == 3 {
      assert t == [3, 3, data[0]];
    } else if input[0] == 4 && length == 2 {
      assert t == [4, 2];
    } else if input[0] == 5 && length >= 10 && (length - 2) % 8 == 0 {
      BlocksBack(data);
    } else if input[0] == 8 && length == 10 {
      Word32(data, 0, U32At(data, 0));
      Word32(data, 4, U32At(data, 4));
      assert t[2..6] == data[0..4] && t[6..10] == data[4..8];
    }
  }

  lemma OptionComplete(t: Bytes, o: TcpOption, rest: Bytes)
    requires OnWire(t, o) && !o.NoOperation?
    ensures |t| >= 2 && t[0] > 1 && ParseOption(t + rest) == Ok(ParsedOption(o, |t|))
  {
    hide Be16, Be32, U16At, U32At, Blocks, BlockBytes;
    var s := t + rest;
    assert s[0] == t[0] && s[1] == t[1] && t[1] == |t|;
    var data := s[2..|t|];
    assert data == t[2..];
    match o
    case MaximumSegmentSize(size) =>
      assert data[0..2] == t[2..4];
      Word16(data, 0, size);
    case Sack(blocks) =>
      BlocksRoundTrip(blocks);
      BlockLength(blocks);
    case Timestamp(value, echo) =>
      assert data[0..4] == t[2..6] && data[4..8] == t[6..10];
      Word32(data, 0, value);
      Word32(data, 4, echo);
    case _ =>
  }

  lemma BlockLength(blocks: seq<SackBlock>)
    ensures |BlockBytes(blocks)| == |blocks| * 8
  {
  }

  /** The loop on one more option. */
  lemma LoopStep(t: Bytes, o: TcpOption, left: Bytes, seen: seq<TcpOption>, modest: bool)
    requires OnWire(t, o) && |seen| < MAX_TCP_OPTION_COUNT
    ensures t != []
    ensures ParseOptions(t + left, seen, modest)
            == ParseOptions(left, seen + [o], modest && !(o.WindowScale? && o.shift > 14))
  {
    hide ParseOption;
    var input := t + left;
    if o.NoOperation? {
      assert input[1..] == left;
    } else {
      OptionComplete(t, o, left);
      assert input[0] == t[0] && input[|t|..] == left;
    }
  }

  lemma ModestParts(o: TcpOption, os: seq<TcpOption>)
    ensures Modest([o] + os) <==> !(o.WindowScale? && o.shift > 14) && Modest(os)
  {
    var all := [o] + os;
    assert all[0] == o;
    assert forall i :: 0 < i < |all| ==> all[i] == os[i - 1];
    assert forall i :: 0 <= i < |os| ==> os[i] == all[i + 1];
  }

  lemma WireParts(t: Bytes, tiles: seq<Bytes>, o: TcpOption, os: seq<TcpOption>)
    ensures AllOnWire([t] + tiles, [o] + os) <==> OnWire(t, o) && AllOnWire(tiles, os)
  {
    hide OnWire;
    var ts, all := [t] + tiles, [o] + os;
    assert ts[0] == t && all[0] == o;
    assert forall i :: 0 < i < |ts| ==> ts[i] == tiles[i - 1];
    assert forall i :: 0 < i < |all| ==> all[i] == os[i - 1];
    assert forall i :: 0 <= i < |tiles| ==> tiles[i] == ts[i + 1];
    assert forall i :: 0 <= i < |os| ==> os[i] == all[i + 1];
  }

  lemma {:induction false} LoopComplete(tiles: seq<Bytes>, os: seq<TcpOption>, tail: Bytes, seen: seq<TcpOption>,
      modest: bool)
    requires AllOnWire(tiles, os) && (tail != [] ==> tail[0] == 0)
    requires |seen| + |os| + |Terminator(|tail|)| <= MAX_TCP_OPTION_COUNT
    ensures ParseOptions(Join(tiles) + tail, seen, modest)
            == Ok(Decoded(seen + os + Terminator(|tail|), tail == [] || AllZero(tail[1..]), modest && Modest(os)))
    decreases |tiles|
  {
    hide OnWire, AllZero;
    if tiles == [] {
      assert Join(tiles) + tail == tail && seen + os == seen;
      if tail == [] { assert seen + [] == seen; }
    } else {
      hide ParseOptions, AllOnWire, Modest;
      var t, o := tiles[0], os[0];
      assert tiles == [t] + tiles[1..] && os == [o] + os[1..];
      WireParts(t, tiles[1..], o, os[1..]);
      var left := Join(tiles[1..]) + tail;
      assert Join(tiles) + tail == t + left;
      LoopStep(t, o, left, seen, modest);
      LoopComplete(tiles[1..], os[1..], tail, seen + [o], modest && !(o.WindowScale? && o.shift > 14));
      ModestParts(o, os[1..]);
      assert seen + [o] + os[1..] == seen + os;
    }
  }

  /** What an accepted row of options looks like at its head. */
  lemma LoopHead(input: Bytes, seen: seq<TcpOption>, modest: bool) returns (t: Bytes, o: TcpOption)
    requires ParseOptions(input, seen, modest).Ok? && |seen| <= MAX_TCP_OPTION_COUNT && input != [] && input[0] != 0
    ensures |seen| < MAX_TCP_OPTION_COUNT && 0 < |t| <= |input| && t == input[..|t|] && OnWire(t, o)
    ensures ParseOptions(input, seen, modest)
            == ParseOptions(input[|t|..], seen + [o], modest && !(o.WindowScale? && o.shift > 14))
  {
    hide ParseOption, OnWire;
    if input[0] == 1 {
      t, o := input[..1], NoOperation;
      NoOperationOnWire(t);
    } else {
      OptionSound(input);
      t, o := input[..ParseOption(input).value.length], ParseOption(input).value.option;
    }
  }

  lemma {:induction false} LoopSound(input: Bytes, seen: seq<TcpOption>, modest: bool)
    returns (tiles: seq<Bytes>, os: seq<TcpOption>, tail: Bytes)
    requires ParseOptions(input, seen, modest).Ok? && |seen| <= MAX_TCP_OPTION_COUNT
    ensures Area(input, tiles, os, tail) && |seen| + |os| + |Terminator(|tail|)| <= MAX_TCP_OPTION_COUNT
    decreases |input|
  {
    hide OnWire, ParseOption, AllZero;
    if input == [] {
      return [], [], [];
    } else if input[0] == 0 {
      assert Join([]) + input == input;
      return [], [], input;
    }
    hide ParseOptions, AllOnWire, Join;
    var t, o := LoopHead(input, seen, modest);
    var left := input[|t|..];
    var more, rest;
    more, rest, tail := LoopSound(left, seen + [o], modest && !(o.WindowScale? && o.shift > 14));
    tiles, os := [t] + more, [o] + rest;
    WireParts(t, more, o, rest);
    JoinParts(t, more);
    assert input == t + left;
  }

  lemma NoOperationOnWire(t: Bytes)
    requires |t| == 1 && t[0] == 1
    ensures OnWire(t, NoOperation)
  {
  }

  // ---------------------------------------------------------------------------------------
  // Segments.

  /** A segment of whole words of header and a payload, with a valid checksum and well-formed options. Flags are the
      low nine bits of the thirteenth and fourteenth byte, between them and the offset are three reserved bits. */
  predicate Represents(input: Bytes, c: C.Context, tiles: seq<Bytes>, listed: seq<TcpOption>, tail: Bytes, p: Parsed) {
    && 20 <= |input| <= 0xffff && |input| >= 20 + |Join(tiles) + tail|
    && var header := 20 + |Join(tiles) + tail|;
    && header % 4 == 0 && header <= 60 && p.reservedBits < 8 && p.flags < 512
    && input[12] == header / 4 * 16 + p.reservedBits * 2 + p.flags / 256 && input[13] == p.flags % 256
    && input[0..2] == Be16(p.sourcePort) && input[2..4] == Be16(p.destinationPort)
    && input[4..8] == Be32(p.sequenceNumber) && input[8..12] == Be32(p.acknowledgmentNumber)
    && input[14..16] == Be16(p.windowSize) && input[16..18] == Be16(p.checksum)
    && input[18..20] == Be16(p.urgentPointer) && C.Balanced(c, 6, input)
    && Area(input[20..header], tiles, listed, tail) && input[header..] == p.payload
    && p.options == listed + Terminator(|tail|)
    && p.zeroPadding == (tail == [] || AllZero(tail[1..])) && p.modestScale == Modest(listed)
  }

  lemma OffsetBits(b: Byte, d: Byte, header: nat, reserved: nat, flags: nat)
    requires header % 4 == 0 && 20 <= header <= 60 && reserved < 8 && flags < 512
    requires b == header / 4 * 16 + reserved * 2 + flags / 256 && d == flags % 256
    ensures b / 16 * 4 == header && b / 2 % 8 == reserved && flags == Pair(b % 2, d)
  {
    var high := flags / 256;
    assert b == header / 4 * 16 + (reserved * 2 + high) && reserved * 2 + high < 16;
    assert b / 16 == header / 4;
    assert b / 2 == header / 4 * 8 + reserved;
  }

  lemma OffsetBack(b: Byte, d: Byte)
    ensures var header, reserved, flags := b / 16 * 4, b / 2 % 8, Pair(b % 2, d);
            && header % 4 == 0 && header <= 60 && reserved < 8 && flags < 512
            && b == header / 4 * 16 + reserved * 2 + flags / 256 && d == flags % 256
  {
    var flags := Pair(b % 2, d);
    assert flags / 256 == b % 2 && flags % 256 == d;
    assert b == b / 16 * 16 + b / 2 % 8 * 2 + b % 2;
  }

  lemma FieldsRead(input: Bytes, p: Parsed)
    requires |input| >= 20
    ensures && input[0..2] == Be16(p.sourcePort) && input[2..4] == Be16(p.destinationPort)
            && input[4..8] == Be32(p.sequenceNumber) && input[8..12] == Be32(p.acknowledgmentNumber)
            && input[14..16] == Be16(p.windowSize) && input[16..18] == Be16(p.checksum)
            && input[18..20] == Be16(p.urgentPointer) <==>
            && p.sourcePort == U16At(input, 0) && p.destinationPort == U16At(input, 2)
            && p.sequenceNumber == U32At(input, 4) && p.acknowledgmentNumber == U32At(input, 8)
            && p.windowSize == U16At(input, 14) && p.checksum == U16At(input, 16) && p.urgentPointer == U16At(input, 18)
  {
    hide Be16, Be32, U16At, U32At;
    Word16(input, 0, p.sourcePort);
    Word16(input, 2, p.destinationPort);
    Word32(input, 4, p.sequenceNumber);
    Word32(input, 8, p.acknowledgmentNumber);
    Word16(input, 14, p.windowSize);
    Word16(input, 16, p.checksum);
    Word16(input, 18, p.urgentPointer);
  }

  lemma {:induction false} OptionsShort(tiles: seq<Bytes>, os: seq<TcpOption>)
    requires AllOnWire(tiles, os)
    ensures |tiles| == |os| <= |Join(tiles)|
    decreases |tiles|
  {
    hide Be16, Be32, BlockBytes;
    if tiles != [] {
      assert OnWire(tiles[0], os[0]);
      OptionsShort(tiles[1..], os[1..]);
    }
  }

  lemma ParseComplete(input: Bytes, c: C.Context, tiles: seq<Bytes>, listed: seq<TcpOption>, tail: Bytes, p: Parsed)
    requires Represents(input, c, tiles, listed, tail, p)
    ensures Parse(input, c) == Ok(p)
  {
    hide Be16, Be32, U16At, U32At, C.Balanced, C.TransportChecksum, AllZero, Modest, AllOnWire, ParseOptions, Join;
    var header := 20 + |Join(tiles) + tail|;
    C.BalancedExact(c, TCP_PROTOCOL, input);
    OffsetBits(input[12], input[13], header, p.reservedBits, p.flags);
    FieldsRead(input, p);
    OptionsShort(tiles, listed);
    LoopComplete(tiles, listed, tail, [], true);
    assert [] + listed == listed;
  }

  lemma ParseSound(input: Bytes, c: C.Context) returns (tiles: seq<Bytes>, listed: seq<TcpOption>, tail: Bytes)
    requires Parse(input, c).Ok?
    ensures Represents(input, c, tiles, listed, tail, Parse(input, c).value)
  {
    hide Be16, Be32, U16At, U32At, C.Balanced, C.TransportChecksum, AllZero, Modest, AllOnWire, ParseOptions, Join;
    var p, header := Parse(input, c).value, input[12] / 16 * 4;
    C.BalancedExact(c, TCP_PROTOCOL, input);
    OffsetBack(input[12], input[13]);
    FieldsRead(input, p);
    tiles, listed, tail := LoopSound(input[20..header], [], true);
    LoopComplete(tiles, listed, tail, [], true);
    assert [] + listed == listed;
  }

  /** The parser gives exactly the reading that the bytes bear out, and none other. */
  lemma ParseExact(input: Bytes, c: C.Context, p: Parsed)
    ensures Parse(input, c) == Ok(p) <==> exists tiles, listed, tail :: Represents(input, c, tiles, listed, tail, p)
  {
    hide Parse, Represents;
    if Parse(input, c) == Ok(p) { var tiles, listed, tail := ParseSound(input, c); }
    forall tiles, listed, tail | Represents(input, c, tiles, listed, tail, p) ensures Parse(input, c) == Ok(p) {
      ParseComplete(input, c, tiles, listed, tail, p);
    }
  }

  // ---------------------------------------------------------------------------------------
  // Parse, then build.

  function BuilderOf(c: C.Context, p: Parsed, listed: seq<TcpOption>): Builder {
    Builder(c, p.sourcePort, p.destinationPort, p.sequenceNumber, p.acknowledgmentNumber, p.flags, p.windowSize,
            p.urgentPointer, listed, p.payload)
  }

  lemma OptionRebuilt(t: Bytes, o: TcpOption)
    requires OnWire(t, o) && Sendable(o)
    ensures t == OptionBytes(o)
  {
    hide Be16, Be32, BlockBytes;
    match o
    case MaximumSegmentSize(size) => assert t == [t[0], t[1]] + t[2..4];
    case Sack(blocks) => assert t == [t[0], t[1]] + t[2..];
    case Timestamp(value, echo) => assert t == [t[0], t[1]] + t[2..6] + t[6..10];
    case UnknownOption(_, data) => assert t == [t[0], t[1]] + t[2..];
    case _ =>
  }

  lemma {:induction false} OptionsRebuilt(tiles: seq<Bytes>, os: seq<TcpOption>)
    requires AllOnWire(tiles, os) && AllSendable(os)
    ensures Join(tiles) == AllBytes(os)
    decreases |os|
  {
    hide OnWire, Sendable, OptionBytes;
    if os != [] {
      OptionRebuilt(tiles[0], os[0]);
      OptionsRebuilt(tiles[1..], os[1..]);
    }
  }

  /** Within forty bytes every option that is read, but for a large window scale, can be sent. */
  lemma OptionSendable(t: Bytes, o: TcpOption)
    requires OnWire(t, o) && |t| <= 40 && !(o.WindowScale? && o.shift > 14)
    ensures Sendable(o)
  {
    hide Be16, Be32, BlockBytes;
    if o.Sack? {
      BlockLength(o.blocks);
      assert |t[2..]| == |o.blocks| * 8;
    }
  }

  lemma {:induction false} TileLength(tiles: seq<Bytes>, i: nat)
    requires i < |tiles|
    ensures |tiles[i]| <= |Join(tiles)|
    decreases |tiles|
  {
    if i > 0 { TileLength(tiles[1..], i - 1); }
  }

  lemma OptionsSendable(tiles: seq<Bytes>, os: seq<TcpOption>)
    requires AllOnWire(tiles, os) && |Join(tiles)| <= 40 && Modest(os)
    ensures AllSendable(os)
  {
    hide OnWire, Sendable, Join;
    forall i | 0 <= i < |os| ensures Sendable(os[i]) {
      TileLength(tiles, i);
      OptionSendable(tiles[i], os[i]);
    }
  }

  lemma AlignedPadding(n: nat, padding: nat)
    requires padding < 4 && (n + padding) % 4 == 0
    ensures Align4(n) == n + padding
  {
  }

  lemma TailZeros(tail: Bytes)
    requires tail != [] && tail[0] == 0 && AllZero(tail[1..])
    ensures tail == Zeros(|tail|)
  {
    forall i | 0 <= i < |tail| ensures tail[i] == 0 {
      if i > 0 { assert tail[i] == tail[1..][i - 1]; }
    }
  }

  /** What a builder can send: reserved bits clear, a modest window scale, an urgent pointer only with its flag, and no
      more padding than alignment needs, all of it zero. */
  predicate Plain(p: Parsed, tail: Bytes) {
    && p.reservedBits == 0 && p.modestScale && p.zeroPadding && |tail| < 4
    && (p.flags / 32 % 2 == 0 ==> p.urgentPointer == 0)
  }

  lemma RebuildValid(input: Bytes, c: C.Context, tiles: seq<Bytes>, listed: seq<TcpOption>, tail: Bytes, p: Parsed)
    requires C.WellFormed(c) && Represents(input, c, tiles, listed, tail, p) && Plain(p, tail)
    ensures var b := BuilderOf(c, p, listed);
            && Typed(b) && Validate(b) == Ok(20 + |Join(tiles) + tail|) && AllSendable(listed)
            && Join(tiles) == AllBytes(listed) && tail == Zeros(PaddingOf(listed))
  {
    hide Be16, Be32, C.Balanced, AllZero, Modest, AllOnWire, Join, AllBytes, FirstFault, LengthSum, Zeros, Align4;
    OptionsSendable(tiles, listed);
    OptionsRebuilt(tiles, listed);
    OptionsShort(tiles, listed);
    AlignedPadding(LengthSum(listed), |tail|);
    NoEnd(listed);
    FaultlessExact(listed);
    if tail != [] { TailZeros(tail); } else { NoZeros(); }
  }

  lemma NoZeros()
    ensures Zeros(0) == []
  {
  }

  lemma NoEnd(os: seq<TcpOption>)
    requires AllSendable(os)
    ensures forall i :: 0 <= i < |os| ==> !os[i].EndOfList?
  {
  }

  /** The input is what the builder writes before the checksum, with the checksum it came with. */
  lemma ClearIs(input: Bytes, c: C.Context, tiles: seq<Bytes>, listed: seq<TcpOption>, tail: Bytes, p: Parsed)
    requires C.WellFormed(c) && Represents(input, c, tiles, listed, tail, p) && Plain(p, tail)
    requires var b := BuilderOf(c, p, listed); Typed(b) && Validate(b) == Ok(20 + |Join(tiles) + tail|)
    requires AllSendable(listed) && Join(tiles) == AllBytes(listed) && tail == Zeros(PaddingOf(listed))
    ensures var clear := Clear(BuilderOf(c, p, listed));
            |clear| == |input| && clear[16] == 0 && clear[17] == 0 && input == WithWord(clear, 16, p.checksum)
  {
    hide Be16, Be32, C.Balanced, Validate, AllBytes, Join, Zeros, PaddingOf, Modest, AllZero, AllOnWire, Typed;
    var b, header := BuilderOf(c, p, listed), 20 + |Join(tiles) + tail|;
    var clear, options := Clear(b), Join(tiles) + tail;
    TypedFlags(b);
    var fixed := Fixed(b, header);
    assert clear == fixed + AllBytes(listed) + Zeros(PaddingOf(listed)) + p.payload;
    assert clear == fixed + options + p.payload;
    assert input == input[..20] + input[20..header] + input[header..];
    FixedIs(input, c, tiles, listed, tail, p);
    assert input[..20] == WithWord(fixed, 16, p.checksum);
    assert WithWord(clear, 16, p.checksum) == WithWord(fixed, 16, p.checksum) + options + p.payload;
  }

  lemma TypedFlags(b: Builder)
    requires Typed(b)
    ensures b.flags <= 0x1ff
  {
  }

  lemma FixedIs(input: Bytes, c: C.Context, tiles: seq<Bytes>, listed: seq<TcpOption>, tail: Bytes, p: Parsed)
    requires Represents(input, c, tiles, listed, tail, p) && p.reservedBits == 0 && Typed(BuilderOf(c, p, listed))
    ensures var header := 20 + |Join(tiles) + tail|;
            var fixed := Fixed(BuilderOf(c, p, listed), header);
            fixed[16] == 0 && fixed[17] == 0 && input[..20] == WithWord(fixed, 16, p.checksum)
  {
    hide Be16, Be32, C.Balanced, Join, Modest, AllZero, AllOnWire, Area;
    assert input[..20] == input[0..2] + input[2..4] + input[4..8] + input[8..12] + [input[12], input[13]]
                          + input[14..16] + input[16..18] + input[18..20];
  }

  /** A plain segment is rebuilt byte for byte, but for a checksum field of all ones where the builder writes zero. */
  lemma ParseBuild(input: Bytes, c: C.Context, tiles: seq<Bytes>, listed: seq<TcpOption>, tail: Bytes)
    requires C.WellFormed(c) && Parse(input, c).Ok? && Represents(input, c, tiles, listed, tail, Parse(input, c).value)
    requires Plain(Parse(input, c).value, tail)
    ensures var b := BuilderOf(c, Parse(input, c).value, listed);
            && Typed(b) && Validate(b).Ok?
            && (Build(b) == input || (input[16..18] == [0xff, 0xff] && ChecksumField(b) == 0
                                      && Build(b) == WithWord(input, 16, 0)))
  {
    hide Parse, Be16, C.TransportChecksum, C.FieldValue, C.PseudoHeader, C.Balanced, Validate, Typed, Area, Clear;
    var p := Parse(input, c).value;
    var b := BuilderOf(c, p, listed);
    RebuildValid(input, c, tiles, listed, tail, p);
    ClearIs(input, c, tiles, listed, tail, p);
    C.BalancedExact(c, TCP_PROTOCOL, input);
    SegmentFits(c, |input|);
    C.TransportFieldUnique(c, TCP_PROTOCOL, Clear(b), 16, p.checksum);
    if p.checksum != ChecksumField(b) {
      Be16Pair(0xff, 0xff);
      assert WithWord(input, 16, 0) == WithWord(Clear(b), 16, 0);
    }
  }

  lemma SegmentFits(c: C.Context, n: nat)
    requires n <= 0xffff
    ensures C.Representable(c, n)
  {
  }
}
