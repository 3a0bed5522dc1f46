/** Where the fields of an IPv6 header and of its extension headers stand on the wire
    (crates/nodenet-protocols/src/ipv6.rs; sections 3 and 4 of RFC 8200, section 2 of RFC 4302). */
module Ipv6Layout {
  import opened Wire
  import opened Packet
  import opened Ipv6
  import opened Ipv6Packet
  import E = ExtensionOrder

  // ---------------------------------------------------------------------------------------
  // Options.

  /** One option: a single pad, or a type and the length of the data behind it. */
  predicate OptionTile(t: Bytes) { t == [0] || (2 <= |t| <= 257 && t[0] != 0 && t[1] == |t| - 2) }

  ghost predicate Tiled(options: Bytes) {
    exists tiles :: Join(tiles) == options && forall i :: 0 <= i < |tiles| ==> OptionTile(tiles[i])
  }

  lemma {:induction false} TilesValid(tiles: seq<Bytes>)
    requires forall i :: 0 <= i < |tiles| ==> OptionTile(tiles[i])
    ensures OptionsValid(Join(tiles))
  {
    if tiles != [] {
      var t, rest, options := tiles[0], Join(tiles[1..]), Join(tiles);
      assert OptionTile(t);
      TilesValid(tiles[1..]);
      assert options[0] == t[0] && options[|t|..] == rest;
      if |t| > 1 { assert options[1] == t[1]; }
    }
  }

  lemma {:induction false} ValidTiles(options: Bytes) returns (tiles: seq<Bytes>)
    requires OptionsValid(options)
    ensures Join(tiles) == options && forall i :: 0 <= i < |tiles| ==> OptionTile(tiles[i])
    decreases |options|
  {
    if options == [] { return []; }
    var n := if options[0] == 0 then 1 else 2 + Pair(0, options[1]);
    var t := options[..n];
    var more := ValidTiles(options[n..]);
    tiles := [t] + more;
    assert t[0] == options[0];
    if n > 1 { assert t[1] == options[1]; }
    assert OptionTile(t) && tiles[1..] == more;
    assert options == t + options[n..];
  }

  /** An option area is accepted exactly if it is tiled by options. */
  lemma OptionsExact(options: Bytes)
    ensures OptionsValid(options) <==> Tiled(options)
  {
    if OptionsValid(options) { var tiles := ValidTiles(options); }
    forall tiles | Join(tiles) == options && forall i :: 0 <= i < |tiles| ==> OptionTile(tiles[i])
      ensures OptionsValid(options)
    {
      TilesValid(tiles);
    }
  }

  // ---------------------------------------------------------------------------------------
  // Extension headers.

  /** An extension header of this protocol number at the front of the input, field by field. */
  ghost predicate Shows(protocol: Byte, input: Bytes, p: ParsedExtension) {
    && 8 <= p.length <= |input| && p.next == input[0]
    && match p.extension
       case HopByHopOptions(options) =>
         protocol == 0 && p.length == 8 + Pair(0, input[1]) * 8 && options == input[2..p.length] && Tiled(options)
       case DestinationOptions(options) =>
         protocol == 60 && p.length == 8 + Pair(0, input[1]) * 8 && options == input[2..p.length] && Tiled(options)
       case Routing(routingType, segmentsLeft, data) =>
         && protocol == 43 && p.length == 8 + Pair(0, input[1]) * 8
         && routingType == input[2] && segmentsLeft == input[3] && data == input[4..p.length]
       case Fragment(offset, more, identification) =>
         && protocol == 44 && p.length == 8 && input[1] == 0
         && offset == Pair(input[2], input[3]) / 8 && input[3] / 2 % 4 == 0 && more == (input[3] % 2 == 1)
         && input[4..8] == Be32(identification)
       case Authentication(index, sequence, data) =>
         && protocol == 51 && p.length == 8 + Pair(0, input[1]) * 4 && p.length >= 12 && input[2..4] == [0, 0]
         && input[4..8] == Be32(index) && input[8..12] == Be32(sequence) && data == input[12..p.length]
  }

  lemma FragmentBits(input: Bytes)
    requires |input| >= 8
    ensures var field := U16At(input, 2);
            && field == Pair(input[2], input[3]) && field / 2 % 4 == input[3] / 2 % 4 && field % 2 == input[3] % 2
  {
    hide U16At;
    BigPair(input, 2);
  }

  /** An extension header is read exactly as it stands on the wire. */
  lemma ExtensionExact(protocol: Byte, input: Bytes, p: ParsedExtension)
    requires E.IsExtension(protocol)
    ensures ParseExtension(protocol, input) == Ok(p) <==> Shows(protocol, input, p)
  {
    hide Be32, U16At, U32At, OptionsValid, Tiled;
    if |input| >= 8 {
      FragmentBits(input);
      Word32(input, 4, U32At(input, 4));
      if |input| >= 12 { Word32(input, 8, U32At(input, 8)); }
      match p.extension
      case HopByHopOptions(options) => OptionsExact(options);
      case DestinationOptions(options) => OptionsExact(options);
      case Fragment(_, _, identification) => Word32(input, 4, identification);
      case Authentication(index, sequence, _) =>
        Word32(input, 4, index);
        if |input| >= 12 { Word32(input, 8, sequence); }
      case Routing(_, _, _) =>
    }
    if ParseExtension(protocol, input).Ok? {
      var q := ParseExtension(protocol, input).value.extension;
      if q.HopByHopOptions? || q.DestinationOptions? { OptionsExact(q.options); }
    }
  }

  // ---------------------------------------------------------------------------------------
  // The fixed header.

  /** Four bits of version, eight of traffic class, twenty of flow label, then the whole bytes. */
  lemma FixedExact(input: Bytes)
    requires |input| >= 40
    ensures var f := FixedAt(input);
            && f.trafficClass == input[0] % 16 * 16 + input[1] / 16
            && f.flowLabel == Pair(0, input[1] % 16) * 0x1_0000 + Pair(input[2], input[3])
            && input[4..6] == Be16(f.declared) && f.hopLimit == input[7]
            && f.source == input[8..24] && f.destination == input[24..40]
  {
    hide U16At, U32At, Be16;
    Word16(input, 4, U16At(input, 4));
    BigPair(input, 0);
    BigPair(input, 2);
    BigQuad(input, 0);
    FirstWordBits(input[0], input[1], Pair(input[2], input[3]));
  }

  lemma FirstWordBits(a: Byte, b: Byte, low: U16)
    ensures var w := Quad(Pair(a, b), low);
            && w / 0x10_0000 % 0x100 == a % 16 * 16 + b / 16
            && w % 0x10_0000 == Pair(0, b % 16) * 0x1_0000 + low
  {
    var hi := Pair(a, b);
    assert hi / 16 == Pair(0, a) * 16 + b / 16 && hi % 16 == b % 16;
    assert Quad(hi, low) == hi / 16 * 0x10_0000 + (hi % 16 * 0x1_0000 + low);
    assert Quad(hi, low) / 0x10_0000 == hi / 16;
  }
}
