/** TCP segments and their options (crates/nodenet-protocols/src/tcp.rs; section 3.1 of RFC 9293,
    section 3 of RFC 2018). */
module Tcp {
  import opened Wire
  import opened Packet

  const MAX_TCP_OPTION_COUNT: nat := 40
  const MAX_TCP_OPTION_BYTES: nat := 40
  const TCP_PROTOCOL: Byte := 6

  datatype SackBlock = SackBlock(leftEdge: U32, rightEdge: U32)

  /** `EndOfList` is only ever parsed; the builder has no such option. */
  datatype TcpOption =
    | EndOfList
    | NoOperation
    | MaximumSegmentSize(size: U16)
    | WindowScale(shift: Byte)
    | SackPermitted
    | Sack(blocks: seq<SackBlock>)
    | Timestamp(value: U32, echoReply: U32)
    | UnknownOption(kind: Byte, data: Bytes)

  predicate Assigned(kind: Byte) { kind <= 5 || kind == 8 }

  /** What the builder objects to. */
  function Fault(o: TcpOption): Option<Field> {
    match o
    case WindowScale(shift) => if shift > 14 then Some(OptionLength) else None
    case Sack(blocks) => if blocks == [] || |blocks| > 4 then Some(OptionLength) else None
    case UnknownOption(kind, data) => if Assigned(kind) || |data| > 253 then Some(OptionKind) else None
    case _ => None
  }

  predicate Sendable(o: TcpOption) { !o.EndOfList? && Fault(o).None? }

  function Length(o: TcpOption): nat {
    match o
    case EndOfList => 1
    case NoOperation => 1
    case MaximumSegmentSize(_) => 4
    case WindowScale(_) => 3
    case SackPermitted => 2
    case Sack(blocks) => 2 + |blocks| * 8
    case Timestamp(_, _) => 10
    case UnknownOption(_, data) => |data| + 2
  }

  function BlockBytes(blocks: seq<SackBlock>): (s: Bytes)
    ensures |s| == |blocks| * 8
  {
    if blocks == [] then [] else Be32(blocks[0].leftEdge) + Be32(blocks[0].rightEdge) + BlockBytes(blocks[1..])
  }

  /** Whole eight-byte intervals. */
  function Blocks(data: Bytes): seq<SackBlock> {
    if |data| < 8 then [] else [SackBlock(U32At(data, 0), U32At(data, 4))] + Blocks(data[8..])
  }

  lemma {:induction false} BlocksRoundTrip(blocks: seq<SackBlock>)
    ensures Blocks(BlockBytes(blocks)) == blocks
    decreases |blocks|
  {
    hide Be32, U32At;
    if blocks != [] {
      var s := BlockBytes(blocks);
      U32Here(s, 0, blocks[0].leftEdge);
      U32Here(s, 4, blocks[0].rightEdge);
      assert s[8..] == BlockBytes(blocks[1..]);
      BlocksRoundTrip(blocks[1..]);
    }
  }

  function OptionBytes(o: TcpOption): (s: Bytes)
    requires Sendable(o)
    ensures |s| == Length(o) && s != []
  {
    match o
    case NoOperation => [1]
    case MaximumSegmentSize(size) => [2, 4] + Be16(size)
    case WindowScale(shift) => [3, 3, shift]
    case SackPermitted => [4, 2]
    case Sack(blocks) => [5, Length(o)] + BlockBytes(blocks)
    case Timestamp(value, echoReply) => [8, 10] + Be32(value) + Be32(echoReply)
    case UnknownOption(kind, data) => [kind, Length(o)] + data
  }

  datatype ParsedOption = ParsedOption(option: TcpOption, length: nat)

  /** One option with a length byte. */
  function ParseOption(input: Bytes): Result<ParsedOption, ParseError>
    requires input != []
  {
    if |input| < 2 || input[1] < 2 || input[1] > |input| then Err(Malformed(OptionLength))
    else
      var kind, length := input[0], input[1];
      var data := input[2..length];
      if kind == 2 && length == 4 then Ok(ParsedOption(MaximumSegmentSize(U16At(data, 0)), length))
      else if kind == 3 && length == 3 then Ok(ParsedOption(WindowScale(data[0]), length))
      else if kind == 4 && length == 2 then Ok(ParsedOption(SackPermitted, length))
      else if kind == 5 && length >= 10 && (length - 2) % 8 == 0 then Ok(ParsedOption(Sack(Blocks(data)), length))
      else if kind == 8 && length == 10 then Ok(ParsedOption(Timestamp(U32At(data, 0), U32At(data, 4)), length))
      else if Assigned(kind) then Err(Malformed(OptionLength))
      else Ok(ParsedOption(UnknownOption(kind, data), length))
  }

  /** Decoded options and the conformance of their padding and window scale. */
  datatype Decoded = Decoded(options: seq<TcpOption>, zeroPadding: bool, modestScale: bool)

  /** The option loop on what is left, with the options stored so far. */
  function ParseOptions(input: Bytes, seen: seq<TcpOption>, modest: bool): Result<Decoded, ParseError>
    decreases |input|
  {
    if input == [] then Ok(Decoded(seen, true, modest))
    else if input[0] == 0 then
      if |seen| == MAX_TCP_OPTION_COUNT then Err(LimitExceeded)
      else Ok(Decoded(seen + [EndOfList], AllZero(input[1..]), modest))
    else if input[0] == 1 then
      if |seen| == MAX_TCP_OPTION_COUNT then Err(LimitExceeded)
      else ParseOptions(input[1..], seen + [NoOperation], modest)
    else
      match ParseOption(input)
      case Err(e) => Err(e)
      case Ok(p) =>
        if |seen| == MAX_TCP_OPTION_COUNT then Err(LimitExceeded)
        else ParseOptions(input[p.length..], seen + [p.option],
                          modest && !(p.option.WindowScale? && p.option.shift > 14))
  }

  /** The forty-entry store never overflows: every entry takes at least one of at most forty bytes. */
  lemma {:induction false} StoreNeverOverflows(input: Bytes, seen: seq<TcpOption>, modest: bool)
    requires |seen| + |input| <= MAX_TCP_OPTION_COUNT
    ensures ParseOptions(input, seen, modest) != Err(LimitExceeded)
    ensures ParseOptions(input, seen, modest).Ok?
        ==> |ParseOptions(input, seen, modest).value.options| <= MAX_TCP_OPTION_COUNT
    decreases |input|
  {
    hide Blocks;
    if input == [] || input[0] == 0 {
    } else if input[0] == 1 {
      StoreNeverOverflows(input[1..], seen + [NoOperation], modest);
    } else if ParseOption(input).Ok? {
      var p := ParseOption(input).value;
      StoreNeverOverflows(input[p.length..], seen + [p.option],
                          modest && !(p.option.WindowScale? && p.option.shift > 14));
    }
  }

  /** One option with a length byte, printed and parsed. */
  lemma OptionRoundTrip(o: TcpOption, rest: Bytes)
    requires Sendable(o) && !o.NoOperation?
    ensures ParseOption(OptionBytes(o) + rest) == Ok(ParsedOption(o, Length(o)))
  {
    hide Blocks, BlockBytes, Be16, Be32, U16At, U32At;
    var s := OptionBytes(o) + rest;
    var data := s[2..Length(o)];
    assert s[1] == Length(o);
    match o
    case MaximumSegmentSize(size) =>
      assert data == Be16(size);
      U16Here(data, 0, size);
    case Sack(blocks) =>
      assert data == BlockBytes(blocks);
      BlocksRoundTrip(blocks);
    case Timestamp(value, echoReply) =>
      assert data == Be32(value) + Be32(echoReply);
      U32Here(data, 0, value);
      U32Here(data, 4, echoReply);
    case UnknownOption(_, d) => assert data == d;
    case _ =>
  }

  function LengthSum(os: seq<TcpOption>): nat {
    if os == [] then 0 else Length(os[0]) + LengthSum(os[1..])
  }

  predicate AllSendable(os: seq<TcpOption>) {
    forall i :: 0 <= i < |os| ==> Sendable(os[i])
  }

  function AllBytes(os: seq<TcpOption>): (s: Bytes)
    requires AllSendable(os)
    ensures |s| == LengthSum(os)
  {
    if os == [] then [] else OptionBytes(os[0]) + AllBytes(os[1..])
  }

  function Terminator(padding: nat): seq<TcpOption> { if padding == 0 then [] else [EndOfList] }

  /** One more option, whichever it is. */
  lemma OptionStep(o: TcpOption, rest: Bytes, seen: seq<TcpOption>)
    requires Sendable(o) && Length(o) <= 255 && |seen| < MAX_TCP_OPTION_COUNT
    ensures ParseOptions(OptionBytes(o) + rest, seen, true) == ParseOptions(rest, seen + [o], true)
  {
    hide Blocks, BlockBytes, Be16, Be32, ParseOption;
    var s := OptionBytes(o) + rest;
    assert s[Length(o)..] == rest;
    if !o.NoOperation? {
      OptionRoundTrip(o, rest);
      OptionKindAbove(o, rest);
    }
  }

  lemma OptionKindAbove(o: TcpOption, rest: Bytes)
    requires Sendable(o) && !o.NoOperation?
    ensures (OptionBytes(o) + rest)[0] > 1
  {
  }

  /** A printed option list with zero padding parses to itself, and to one end-of-list exactly if padded. */
  lemma {:induction false} OptionsRoundTrip(os: seq<TcpOption>, padding: nat, seen: seq<TcpOption>)
    requires AllSendable(os) && |seen| + LengthSum(os) + padding <= MAX_TCP_OPTION_BYTES
    ensures ParseOptions(AllBytes(os) + Zeros(padding), seen, true)
        == Ok(Decoded(seen + os + Terminator(padding), true, true))
    decreases |os|
  {
    hide Sendable, OptionBytes, Length;
    if os == [] {
      assert AllBytes(os) + Zeros(padding) == Zeros(padding) && seen + os == seen;
      Padding(padding, seen);
    } else {
      var o, tail := os[0], os[1..];
      var rest := AllBytes(tail) + Zeros(padding);
      assert AllBytes(os) + Zeros(padding) == OptionBytes(o) + rest;
      SomeByte(o);
      OptionStep(o, rest, seen);
      OptionsRoundTrip(tail, padding, seen + [o]);
      assert seen + [o] + tail == seen + os;
    }
  }

  lemma SomeByte(o: TcpOption)
    ensures Length(o) >= 1
  {
  }

  lemma Padding(padding: nat, seen: seq<TcpOption>)
    requires |seen| + padding <= MAX_TCP_OPTION_COUNT
    ensures ParseOptions(Zeros(padding), seen, true) == Ok(Decoded(seen + Terminator(padding), true, true))
  {
    if padding == 0 {
      assert Zeros(0) == [] && seen + Terminator(0) == seen;
    }
  }
}
