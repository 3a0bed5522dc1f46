/** Whole IPv6 packets: what the parser accepts, what the builder writes, and that they are inverse
    (crates/nodenet-protocols/src/ipv6.rs; section 4 of RFC 8200). */
module Ipv6Packet {
  import opened Wire
  import opened Packet
  import opened Ipv6
  import E = ExtensionOrder

  // ---------------------------------------------------------------------------------------
  // Chains of extensions.

  function Head(exts: seq<Extension>, upper: Byte): Byte {
    if exts == [] then upper else Protocol(exts[0])
  }

  predicate AllSound(exts: seq<Extension>) {
    forall i :: 0 <= i < |exts| ==> Sound(exts[i])
  }

  function LengthSum(exts: seq<Extension>): nat {
    if exts == [] then 0 else Length(exts[0]) + LengthSum(exts[1..])
  }

  function ChainBytes(exts: seq<Extension>, upper: Byte): (s: Bytes)
    requires AllSound(exts)
    ensures |s| == LengthSum(exts)
  {
    if exts == [] then [] else ExtensionBytes(exts[0], Head(exts[1..], upper)) + ChainBytes(exts[1..], upper)
  }

  predicate Ends(e: Extension) { e.Fragment? && e.offsetUnits != 0 }

  /** Chains the parser reads to their end: a non-first fragment can only be the last header, and only it
      may be followed by an extension number. */
  predicate Readable(exts: seq<Extension>, upper: Byte) {
    && AllSound(exts)
    && (forall i :: 0 <= i < |exts| - 1 ==> !Ends(exts[i]))
    && (E.IsExtension(upper) ==> exts != [] && Ends(exts[|exts| - 1]))
  }

  datatype Chain = Chain(extensions: seq<Extension>, next: Byte, bytes: nat, rest: Bytes)

  /** The extension loop of the parser on what is left of the packet. */
  function ParseChain(input: Bytes, protocol: Byte, seen: seq<Extension>, bytes: nat): Result<Chain, ParseError>
    decreases |input|
  {
    if !E.IsExtension(protocol) then Ok(Chain(seen, protocol, bytes, input))
    else if |seen| == MAX_EXTENSION_HEADER_COUNT then Err(LimitExceeded)
    else
      match ParseExtension(protocol, input)
      case Err(e) => Err(e)
      case Ok(p) =>
        if bytes + p.length > MAX_EXTENSION_BYTES then Err(LimitExceeded)
        else
          ExtensionRebuilt(protocol, input);
          var left, now := input[p.length..], seen + [p.extension];
          if Ends(p.extension) then Ok(Chain(now, p.next, bytes + p.length, left))
          else ParseChain(left, p.next, now, bytes + p.length)
  }

  lemma ParseStep(e: Extension, next: Byte, left: Bytes, seen: seq<Extension>, bytes: nat)
    requires Sound(e) && |seen| < MAX_EXTENSION_HEADER_COUNT && bytes + Length(e) <= MAX_EXTENSION_BYTES
    ensures ParseChain(ExtensionBytes(e, next) + left, Protocol(e), seen, bytes)
            == if Ends(e) then Ok(Chain(seen + [e], next, bytes + Length(e), left))
               else ParseChain(left, next, seen + [e], bytes + Length(e))
  {
    hide Fault, ParseExtension, ExtensionBytes;
    ExtensionRoundTrip(e, next, left);
    assert (ExtensionBytes(e, next) + left)[Length(e)..] == left;
  }

  /** A readable chain is read to its end. */
  lemma {:induction false} ChainRoundTrip(exts: seq<Extension>, upper: Byte, rest: Bytes, seen: seq<Extension>,
      bytes: nat)
    requires Readable(exts, upper) && |seen| + |exts| <= MAX_EXTENSION_HEADER_COUNT
    requires bytes + LengthSum(exts) <= MAX_EXTENSION_BYTES
    requires exts == [] ==> !E.IsExtension(upper)
    ensures ParseChain(ChainBytes(exts, upper) + rest, Head(exts, upper), seen, bytes)
            == Ok(Chain(seen + exts, upper, bytes + LengthSum(exts), rest))
    decreases |exts|
  {
    hide Sound, ParseExtension, ExtensionBytes, Length, Ends;
    if exts == [] {
      assert ChainBytes(exts, upper) + rest == rest && seen + exts == seen;
    } else {
      var e, tail := exts[0], exts[1..];
      var next, left := Head(tail, upper), ChainBytes(tail, upper) + rest;
      assert ChainBytes(exts, upper) + rest == ExtensionBytes(e, next) + left;
      ParseStep(e, next, left, seen, bytes);
      assert seen + [e] + tail == seen + exts;
      if Ends(e) {
        assert tail == [];
        assert left == rest && seen + exts == seen + [e] && LengthSum(exts) == Length(e);
      } else {
        ChainRoundTrip(tail, upper, rest, seen + [e], bytes + Length(e));
      }
    }
  }

  /** Whatever the loop accepts is a readable chain followed by the rest. */
  lemma {:induction false} ChainRebuilt(input: Bytes, protocol: Byte, seen: seq<Extension>, bytes: nat)
    returns (exts: seq<Extension>)
    requires ParseChain(input, protocol, seen, bytes).Ok?
    requires |seen| <= MAX_EXTENSION_HEADER_COUNT && bytes <= MAX_EXTENSION_BYTES
    ensures var c := ParseChain(input, protocol, seen, bytes).value;
            && c.extensions == seen + exts && Readable(exts, c.next) && Head(exts, c.next) == protocol
            && input == ChainBytes(exts, c.next) + c.rest && c.bytes == bytes + LengthSum(exts)
            && |c.extensions| <= MAX_EXTENSION_HEADER_COUNT && c.bytes <= MAX_EXTENSION_BYTES
    decreases |input|
  {
    hide Sound, ParseExtension, ExtensionBytes, Length, Ends, Readable, Head, LengthSum, ChainBytes, ParseChain;
    if !E.IsExtension(protocol) {
      ChainStops(input, protocol, seen, bytes);
      NoChain(protocol);
      return [];
    }
    ChainGoesOn(input, protocol, seen, bytes);
    var p := ParseExtension(protocol, input).value;
    var left, now := input[p.length..], seen + [p.extension];
    var next := ParseChain(input, protocol, seen, bytes).value.next;
    NoChain(p.next);
    if Ends(p.extension) {
      exts := [p.extension];
      ChainPrepend(p.extension, [], next);
      assert [p.extension] + [] == exts;
    } else {
      var tail := ChainRebuilt(left, p.next, now, bytes + p.length);
      exts := [p.extension] + tail;
      ChainPrepend(p.extension, tail, next);
      assert now + tail == seen + exts;
    }
    assert input == input[..p.length] + left;
  }

  lemma ChainStops(input: Bytes, protocol: Byte, seen: seq<Extension>, bytes: nat)
    requires !E.IsExtension(protocol)
    ensures ParseChain(input, protocol, seen, bytes) == Ok(Chain(seen, protocol, bytes, input))
  {
  }

  /** One more header of an accepted chain. */
  lemma ChainGoesOn(input: Bytes, protocol: Byte, seen: seq<Extension>, bytes: nat)
    requires E.IsExtension(protocol) && |seen| <= MAX_EXTENSION_HEADER_COUNT
        && ParseChain(input, protocol, seen, bytes).Ok?
    ensures ParseExtension(protocol, input).Ok?
    ensures var p := ParseExtension(protocol, input).value;
            && Sound(p.extension) && Protocol(p.extension) == protocol && 0 < p.length == Length(p.extension) <= |input|
            && ExtensionBytes(p.extension, p.next) == input[..p.length]
            && |seen| < MAX_EXTENSION_HEADER_COUNT && bytes + p.length <= MAX_EXTENSION_BYTES
            && ParseChain(input, protocol, seen, bytes)
               == if Ends(p.extension) then Ok(Chain(seen + [p.extension], p.next, bytes + p.length, input[p.length..]))
                  else ParseChain(input[p.length..], p.next, seen + [p.extension], bytes + p.length)
  {
    hide ParseExtension, ExtensionBytes, Fault, Ends;
    ExtensionRebuilt(protocol, input);
    SomeLength(ParseExtension(protocol, input).value.extension);
  }

  lemma SomeLength(e: Extension)
    ensures Length(e) > 0
  {
  }

  lemma NoChain(upper: Byte)
    ensures Head([], upper) == upper && LengthSum([]) == 0 && ChainBytes([], upper) == []
    ensures !E.IsExtension(upper) ==> Readable([], upper)
  {
  }

  lemma ChainPrepend(e: Extension, tail: seq<Extension>, upper: Byte)
    requires Sound(e) && (Ends(e) ==> tail == []) && (!Ends(e) ==> Readable(tail, upper))
    ensures var exts := [e] + tail;
            && Readable(exts, upper) && Head(exts, upper) == Protocol(e)
                && LengthSum(exts) == Length(e) + LengthSum(tail)
            && ChainBytes(exts, upper) == ExtensionBytes(e, Head(tail, upper)) + ChainBytes(tail, upper)
  {
    hide Sound, ExtensionBytes, Length, Ends;
    var exts := [e] + tail;
    assert exts[1..] == tail;
  }

  // ---------------------------------------------------------------------------------------
  // Fragments.

  /** The state left by the last fragment header. */
  function FragmentOf(exts: seq<Extension>): FragmentState {
    if exts == [] then Unfragmented
    else
      var n := |exts| - 1;
      match exts[n]
      case Fragment(offset, more, _) => if offset == 0 then First(more) else NonFirst(offset, more)
      case _ => FragmentOf(exts[..n])
  }

  /** Header bytes behind the last fragment header. */
  function AfterFragment(exts: seq<Extension>): nat {
    if exts == [] || exts[|exts| - 1].Fragment? then 0
    else AfterFragment(exts[..|exts| - 1]) + Length(exts[|exts| - 1])
  }

  function Protocols(exts: seq<Extension>): (ps: seq<Byte>)
    ensures |ps| == |exts| && forall i :: 0 <= i < |ps| ==> E.IsExtension(ps[i])
  {
    seq(|exts|, i requires 0 <= i < |exts| => Protocol(exts[i]))
  }

  // ---------------------------------------------------------------------------------------
  // The fixed header.

  datatype Fixed = Fixed(trafficClass: Byte, flowLabel: U32, declared: U16, hopLimit: Byte, source: Bytes,
      destination: Bytes)

  predicate WellFormed(f: Fixed) {
    f.flowLabel <= 0xf_ffff && |f.source| == 16 && |f.destination| == 16
  }

  function FirstWord(trafficClass: Byte, flowLabel: U32): U32
    requires flowLabel <= 0xf_ffff
  {
    6 * 0x1000_0000 + trafficClass * 0x10_0000 + flowLabel
  }

  function FixedBytes(f: Fixed, first: Byte): (s: Bytes)
    requires WellFormed(f)
    ensures |s| == IPV6_HEADER_LENGTH
  {
    Be32(FirstWord(f.trafficClass, f.flowLabel)) + Be16(f.declared) + [first, f.hopLimit] + f.source + f.destination
  }

  function FixedAt(input: Bytes): Fixed
    requires |input| >= IPV6_HEADER_LENGTH
  {
    var word := U32At(input, 0);
    Fixed((word / 0x10_0000) % 0x100, word % 0x10_0000, U16At(input, 4), input[7], input[8..24], input[24..40])
  }

  lemma FirstWordParts(trafficClass: Byte, flowLabel: U32)
    requires flowLabel <= 0xf_ffff
    ensures var w := FirstWord(trafficClass, flowLabel);
            (w / 0x10_0000) % 0x100 == trafficClass && w % 0x10_0000 == flowLabel && w / 0x1000_0000 == 6
  {
    var w := FirstWord(trafficClass, flowLabel);
    assert w == (0x600 + trafficClass) * 0x10_0000 + flowLabel;
    assert w / 0x10_0000 == 0x600 + trafficClass;
  }

  lemma FirstWordWhole(w: U32)
    requires w / 0x1000_0000 == 6
    ensures FirstWord((w / 0x10_0000) % 0x100, w % 0x10_0000) == w
  {
    assert w / 0x10_0000 == 0x600 + (w / 0x10_0000) % 0x100;
  }

  /** The version nibble is the top of the first word. */
  lemma VersionNibble(input: Bytes)
    requires |input| >= 4
    ensures input[0] / 16 == U32At(input, 0) / 0x1000_0000
  {
    hide U16At, U32At;
    var hi := Pair(input[0], input[1]);
    BigPair(input, 0);
    BigQuad(input, 0);
    assert U32At(input, 0) / 0x1_0000 == hi by { QuadSplit(U16At(input, 0), U16At(input, 2)); }
    assert hi / 0x1000 == input[0] / 16;
  }

  lemma FixedRoundTrip(f: Fixed, first: Byte, rest: Bytes)
    requires WellFormed(f)
    ensures var s := FixedBytes(f, first) + rest;
            FixedAt(s) == f && s[6] == first && s[0] / 16 == 6
  {
    hide Be16, Be32, U16At, U32At, FirstWord;
    var s := FixedBytes(f, first) + rest;
    U32Here(s, 0, FirstWord(f.trafficClass, f.flowLabel));
    U16Here(s, 4, f.declared);
    FirstWordParts(f.trafficClass, f.flowLabel);
    VersionNibble(s);
    assert s[8..24] == f.source && s[24..40] == f.destination;
  }

  lemma FixedRebuilt(input: Bytes)
    requires |input| >= IPV6_HEADER_LENGTH && input[0] / 16 == 6
    ensures WellFormed(FixedAt(input)) && FixedBytes(FixedAt(input), input[6]) == input[..40]
  {
    hide Be16, Be32, U16At, U32At, FirstWord;
    VersionNibble(input);
    FirstWordWhole(U32At(input, 0));
    Be32Inverse(input, 0);
    Be16Inverse(input, 4);
  }

  // ---------------------------------------------------------------------------------------
  // The parser.

  datatype Parsed = Parsed(
    fixed: Fixed,
    firstNextHeader: Byte,
    extensions: seq<Extension>,
    extensionBytes: nat,
    fragment: FragmentState,
    upperLayer: UpperLayerState,
    trailing: Bytes,
    complete: bool,
    conformance: E.Issues)

  /** The record of a packet that has been read. */
  function Conclude(f: Fixed, c: Chain, first: Byte, trailing: Bytes, complete: bool): Parsed {
    var fragment := FragmentOf(c.extensions);
    var upper := ClassifyUpperLayer(c.next, c.rest, fragment, true);
    Parsed(f, first, c.extensions, c.bytes, fragment, upper, trailing, complete,
           E.Insert(E.Watch(Protocols(c.extensions)).issues,
                    upper.NoNextHeader? && upper.trailing != [], E.NoNextHeaderData))
  }

  /** `parse_ipv6_packet`. */
  function Parse(input: Bytes, mode: ParseMode): Result<Parsed, ParseError> {
    if |input| > MAX_IP_PACKET_LENGTH then Err(LimitExceeded)
    else if |input| < IPV6_HEADER_LENGTH then Err(Truncated)
    else if input[0] / 16 != 6 then Err(Malformed(Version))
    else
      var f := FixedAt(input);
      if f.declared == 0 && input[6] == E.HOP_BY_HOP then Err(Unsupported(PayloadLength))
      else
        var declaredEnd := IPV6_HEADER_LENGTH + f.declared;
        var complete := |input| >= declaredEnd;
        if !complete && mode.Strict? then Err(Truncated)
        else
          match ParseChain(input[40..Min(|input|, declaredEnd)], input[6], [], 0)
          case Err(e) => Err(e)
          case Ok(c) =>
            if MoreFragments(FragmentOf(c.extensions))
                && (f.declared - (c.bytes - AfterFragment(c.extensions))) % 8 != 0 then
              Err(Malformed(PayloadLength))
            else Ok(Conclude(f, c, input[6], if complete then input[declaredEnd..] else [], complete))
  }

  /** Everything a packet on the wire consists of: fixed header, readable chain, upper-layer bytes that are
      present, and bytes beyond the declared end. */
  datatype Anatomy = Anatomy(fixed: Fixed, extensions: seq<Extension>, upper: Byte, payload: Bytes, trailing: Bytes)

  function Print(a: Anatomy): Bytes
    requires WellFormed(a.fixed) && AllSound(a.extensions)
  {
    FixedBytes(a.fixed, Head(a.extensions, a.upper)) + ChainBytes(a.extensions, a.upper) + a.payload + a.trailing
  }

  /** Whether all declared bytes are present. */
  predicate Whole(a: Anatomy) { LengthSum(a.extensions) + |a.payload| == a.fixed.declared }

  /** The packets the parser accepts, described from the sender's side. */
  predicate Acceptable(a: Anatomy, mode: ParseMode) {
    && WellFormed(a.fixed) && Readable(a.extensions, a.upper)
    && |a.extensions| <= MAX_EXTENSION_HEADER_COUNT && LengthSum(a.extensions) <= MAX_EXTENSION_BYTES
    && IPV6_HEADER_LENGTH + LengthSum(a.extensions) + |a.payload| + |a.trailing| <= MAX_IP_PACKET_LENGTH
    && !(a.fixed.declared == 0 && Head(a.extensions, a.upper) == E.HOP_BY_HOP)
    && (Whole(a) || (mode.CompatibleIcmpQuote? && LengthSum(a.extensions) + |a.payload| < a.fixed.declared
        && a.trailing == []))
    && (MoreFragments(FragmentOf(a.extensions)) ==>
          (a.fixed.declared - (LengthSum(a.extensions) - AfterFragment(a.extensions))) % 8 == 0)
  }

  function Meaning(a: Anatomy): Parsed {
    Conclude(a.fixed, Chain(a.extensions, a.upper, LengthSum(a.extensions), a.payload), Head(a.extensions, a.upper),
             a.trailing, Whole(a))
  }

  lemma PrintParts(a: Anatomy)
    requires WellFormed(a.fixed) && AllSound(a.extensions)
    requires Whole(a) || (LengthSum(a.extensions) + |a.payload| < a.fixed.declared && a.trailing == [])
    ensures var s := Print(a);
            var end := IPV6_HEADER_LENGTH + a.fixed.declared;
            && |s| == IPV6_HEADER_LENGTH + LengthSum(a.extensions) + |a.payload| + |a.trailing|
            && s[40..Min(|s|, end)] == ChainBytes(a.extensions, a.upper) + a.payload
            && Whole(a) == (|s| >= end) && (|s| >= end ==> s[end..] == a.trailing)
  {
    hide ChainBytes, FixedBytes, LengthSum;
  }

  /** Printing an acceptable packet and parsing it gives back exactly its parts. */
  lemma ParsePrinted(a: Anatomy, mode: ParseMode)
    requires Acceptable(a, mode)
    ensures Parse(Print(a), mode) == Ok(Meaning(a))
  {
    hide ChainBytes, FixedBytes, LengthSum, ParseChain, FixedAt, FragmentOf, AfterFragment, Conclude, Head;
    var s := Print(a);
    var chain := ChainBytes(a.extensions, a.upper);
    var first := Head(a.extensions, a.upper);
    PrintParts(a);
    assert s == FixedBytes(a.fixed, first) + (chain + a.payload + a.trailing);
    FixedRoundTrip(a.fixed, first, chain + a.payload + a.trailing);
    ChainRoundTrip(a.extensions, a.upper, a.payload, [], 0);
    assert [] + a.extensions == a.extensions;
  }

  /** Every accepted input is the print of an acceptable packet with that meaning. */
  lemma PrintParsed(input: Bytes, mode: ParseMode) returns (a: Anatomy)
    requires Parse(input, mode).Ok?
    ensures Acceptable(a, mode) && Print(a) == input && Meaning(a) == Parse(input, mode).value
  {
    hide FixedBytes, FixedAt, FragmentOf, AfterFragment, Conclude, ParseChain, ChainBytes, LengthSum, Sound, Ends, Head;
    FixedRebuilt(input);
    var f := FixedAt(input);
    var end := IPV6_HEADER_LENGTH + f.declared;
    var available := input[40..Min(|input|, end)];
    var c := ParseChain(available, input[6], [], 0).value;
    var exts := ChainRebuilt(available, input[6], [], 0);
    assert c.extensions == exts;
    var trailing := if |input| >= end then input[end..] else [];
    a := Anatomy(f, exts, c.next, c.rest, trailing);
    assert input == input[..40] + available + trailing;
  }
}
