/** Exactly which IPv4 packets the parser accepts, and which of them the builder writes
    (crates/nodenet-protocols/src/ipv4.rs; section 3.1 of RFC 791). */
module Ipv4Exact {
  import opened Wire
  import opened Packet
  import opened Ipv4
  import C = Checksum

  // ---------------------------------------------------------------------------------------
  // Options.

  /** One option: a no-operation, or a kind and a length that counts all its bytes. */
  predicate OptionTile(t: Bytes) {
    t == [1] || (2 <= |t| <= 255 && t[0] > 1 && t[1] == |t|)
  }

  /** The options up to a zero byte, if there is one; behind it is padding. */
  predicate Area(options: Bytes, tiles: seq<Bytes>, tail: Bytes) {
    && options == Join(tiles) + tail && (forall i :: 0 <= i < |tiles| ==> OptionTile(tiles[i]))
    && (tail != [] ==> tail[0] == 0)
  }

  predicate ZeroTail(tail: Bytes) { tail == [] || AllZero(tail[1..]) }

  lemma {:induction false} AreaComplete(tiles: seq<Bytes>, tail: Bytes)
    requires Area(Join(tiles) + tail, tiles, tail)
    ensures Options(Join(tiles) + tail) == Ok(ZeroTail(tail))
    decreases |tiles|
  {
    hide AllZero;
    if tiles == [] {
      assert Join(tiles) + tail == tail;
    } else {
      var t, left := tiles[0], Join(tiles[1..]) + tail;
      assert OptionTile(t);
      var options := Join(tiles) + tail;
      assert options == t + left && options[|t|..] == left && options[0] == t[0];
      if |t| > 1 { assert options[1] == t[1]; }
      AreaComplete(tiles[1..], tail);
    }
  }

  lemma {:induction false} AreaSound(options: Bytes) returns (tiles: seq<Bytes>, tail: Bytes)
    requires Options(options).Ok?
    ensures Area(options, tiles, tail)
    decreases |options|
  {
    hide AllZero;
    if options == [] || options[0] == 0 {
      assert Join([]) + options == options;
      return [], options;
    }
    var n := if options[0] == 1 then 1 else options[1];
    var t, left := options[..n], options[n..];
    var more;
    more, tail := AreaSound(left);
    tiles := [t] + more;
    assert t[0] == options[0];
    if n > 1 { assert t[1] == options[1]; }
    assert OptionTile(t) && tiles[1..] == more;
    assert options == t + left && Join(tiles) == t + Join(more);
  }

  /** An option area is accepted exactly if it is tiled by options. */
  lemma OptionsExact(options: Bytes, zero: bool)
    ensures Options(options) == Ok(zero) <==>
            exists tiles, tail :: Area(options, tiles, tail) && zero == ZeroTail(tail)
  {
    hide Options, Area, ZeroTail;
    if Options(options).Ok? {
      var tiles, tail := AreaSound(options);
      AreaIs(options, tiles, tail);
      assert Area(options, tiles, tail) && Options(options) == Ok(ZeroTail(tail));
    }
    forall tiles, tail | Area(options, tiles, tail) ensures Options(options) == Ok(ZeroTail(tail)) {
      AreaIs(options, tiles, tail);
    }
  }

  lemma AreaIs(options: Bytes, tiles: seq<Bytes>, tail: Bytes)
    requires Area(options, tiles, tail)
    ensures Options(options) == Ok(ZeroTail(tail))
  {
    hide Options, OptionTile, Join, ZeroTail;
    AreaComplete(tiles, tail);
  }

  // ---------------------------------------------------------------------------------------
  // Packets.

  /** A header of whole words with a valid checksum and well-formed options, a payload that ends where the total length
      says or where a quote was cut, and bytes beyond it. A fragment may not forbid fragmenting, and all but the last
      carry whole units of eight bytes. */
  ghost predicate Represents(input: Bytes, mode: ParseMode, p: Parsed) {
    && |p.options| <= 40 && |p.options| % 4 == 0
    && var header := 20 + |p.options|;
    && |input| == header + |p.payload| + |p.trailing| <= 65575
    && p.dscp < 64 && p.ecn < 4 && p.flags.offset <= 0x1fff && header <= p.declared <= 0xffff
    && input[0] == 0x40 + header / 4 && input[1] == p.dscp * 4 + p.ecn
    && input[2..4] == Be16(p.declared) && input[4..6] == Be16(p.identification)
    && FlagBits(input[6], input[7], p.flags) && input[8] == p.timeToLive && input[9] == p.protocol
    && input[12..16] == p.source && input[16..20] == p.destination && input[20..header] == p.options
    && input[header..header + |p.payload|] == p.payload && input[header + |p.payload|..] == p.trailing
    && (if p.complete then header + |p.payload| == p.declared
        else mode.CompatibleIcmpQuote? && p.trailing == [] && header + |p.payload| < p.declared)
    && C.WordSum(input[..header]) > 0 && C.WordSum(input[..header]) % 0xffff == 0
    && (exists tiles, tail :: Area(p.options, tiles, tail) && p.zeroPadding == ZeroTail(tail))
    && !(p.flags.dontFragment && (p.flags.moreFragments || p.flags.offset != 0))
    && (p.flags.moreFragments ==> (p.declared - header) % 8 == 0)
    && p.fragment == FragmentOf(p.flags) && p.upperLayer == ClassifyUpperLayer(p.protocol, p.payload, p.fragment, false)
  }

  /** A reserved bit, two flags, and thirteen bits of offset. */
  predicate FlagBits(high: Byte, low: Byte, f: Fragmentation) {
    && f.reserved == (high >= 128) && f.dontFragment == (high / 64 % 2 == 1) && f.moreFragments == (high / 32 % 2 == 1)
    && f.offset == Pair(high % 32, low)
  }

  lemma FlagsRead(input: Bytes, f: Fragmentation)
    requires |input| >= 8
    ensures FlagBits(input[6], input[7], f) <==> FlagsOf(U16At(input, 6)) == f
  {
    hide U16At;
    BigPair(input, 6);
    var high, low := input[6], input[7];
    var field := Pair(high, low);
    assert field / 0x8000 == high / 128 && field / 0x4000 == high / 64 && field / 0x2000 == high / 32;
    assert field % 0x2000 == Pair(high % 32, low);
  }

  lemma FlagsBack(field: U16)
    ensures FlagsField(FlagsOf(field)) == field
  {
  }

  lemma OffsetBound(field: U16)
    ensures FlagsOf(field).offset <= 0x1fff
  {
  }

  lemma HeaderByte(b: Byte, n: nat)
    requires n % 4 == 0 && n <= 40
    ensures b == 0x40 + (20 + n) / 4 <==> b / 16 == 4 && b % 16 * 4 == 20 + n
  {
  }

  lemma ServiceByte(b: Byte, dscp: Byte, ecn: Byte)
    ensures dscp < 64 && ecn < 4 && b == dscp * 4 + ecn <==> dscp == b / 4 && ecn == b % 4
  {
  }

  lemma ParseComplete(input: Bytes, mode: ParseMode, p: Parsed)
    requires Represents(input, mode, p)
    ensures Parse(input, mode) == Ok(p)
  {
    hide Be16, U16At, Options, Area, C.WordSum, C.Validates, ClassifyUpperLayer, FlagsOf, FlagBits, FragmentOf;
    hide ZeroTail;
    var header := 20 + |p.options|;
    HeaderByte(input[0], |p.options|);
    ServiceByte(input[1], p.dscp, p.ecn);
    Word16(input, 2, p.declared);
    Word16(input, 4, p.identification);
    FlagsRead(input, p.flags);
    C.ValidatesExact(input[..header]);
    OptionsExact(p.options, p.zeroPadding);
  }

  lemma ParseSound(input: Bytes, mode: ParseMode)
    requires Parse(input, mode).Ok?
    ensures Represents(input, mode, Parse(input, mode).value)
  {
    hide Be16, U16At, Options, Area, C.WordSum, C.Validates, ClassifyUpperLayer, FlagsOf, FlagBits, FragmentOf;
    hide ZeroTail;
    var p := Parse(input, mode).value;
    var header := input[0] % 16 * 4;
    HeaderByte(input[0], header - 20);
    ServiceByte(input[1], p.dscp, p.ecn);
    Word16(input, 2, U16At(input, 2));
    Word16(input, 4, U16At(input, 4));
    FlagsRead(input, p.flags);
    OffsetBound(U16At(input, 6));
    C.ValidatesExact(input[..header]);
    OptionsExact(p.options, p.zeroPadding);
  }

  /** The parser gives exactly the reading that the bytes bear out, and none other. */
  lemma ParseExact(input: Bytes, mode: ParseMode, p: Parsed)
    ensures Parse(input, mode) == Ok(p) <==> Represents(input, mode, p)
  {
    hide Parse, Represents;
    if Parse(input, mode) == Ok(p) { ParseSound(input, mode); }
    if Represents(input, mode, p) { ParseComplete(input, mode, p); }
  }

  // ---------------------------------------------------------------------------------------
  // Parse, then build.

  function BuilderOf(p: Parsed): Builder {
    Builder(p.dscp, p.ecn, p.identification, p.flags.dontFragment, p.flags.moreFragments, p.flags.offset, p.timeToLive,
            p.protocol, p.source, p.destination, p.options, p.payload)
  }

  lemma RebuildValid(input: Bytes, mode: ParseMode, p: Parsed)
    requires Represents(input, mode, p) && p.complete && Canonical(p)
    ensures Addressed(BuilderOf(p)) && Validate(BuilderOf(p)).None? && FlagsFor(BuilderOf(p)) == p.flags
  {
    hide Be16, Options, Area, C.WordSum, ClassifyUpperLayer, FlagsField, FragmentOf, ZeroTail;
    OptionsExact(p.options, true);
  }

  /** A complete canonical packet is rebuilt byte for byte up to its declared end, but for a checksum field of all ones
      where the builder writes zero. */
  lemma ParseBuild(input: Bytes, mode: ParseMode)
    requires Parse(input, mode).Ok? && Parse(input, mode).value.complete && Canonical(Parse(input, mode).value)
    ensures var p := Parse(input, mode).value;
            var b := BuilderOf(p);
            && Addressed(b) && Validate(b).None? && p.declared <= |input|
            && (Build(b) == input[..p.declared]
                || (input[10..12] == [0xff, 0xff] && Build(b) == WithWord(input[..p.declared], 10, 0)))
  {
    hide Parse, Represents, Be16, C.WordSum, C.Checksum, Validate, FlagsField, C.Validates, Canonical;
    var p := Parse(input, mode).value;
    var b := BuilderOf(p);
    ParseSound(input, mode);
    RebuildValid(input, mode, p);
    HeaderIs(input, mode, p);
    var header, clear, word := 20 + |p.options|, ClearHeader(b), U16At(input, 10);
    C.FieldUnique(clear, 10, word);
    Word16(input, 10, word);
    assert input[..p.declared] == input[..header] + p.payload;
    if word != C.Checksum(clear) {
      Be16Pair(0xff, 0xff);
      assert WithWord(input[..p.declared], 10, 0) == WithWord(input[..header], 10, 0) + p.payload;
      assert WithWord(input[..header], 10, 0) == WithWord(clear, 10, 0);
    }
  }

  /** The header is what the builder writes before the checksum, with the checksum it came with. */
  lemma HeaderIs(input: Bytes, mode: ParseMode, p: Parsed)
    requires Represents(input, mode, p) && p.complete && Addressed(BuilderOf(p)) && Validate(BuilderOf(p)).None?
    requires FlagsFor(BuilderOf(p)) == p.flags
    ensures var header, clear := 20 + |p.options|, ClearHeader(BuilderOf(p));
            && header <= p.declared <= |input| && clear[10] == 0 && clear[11] == 0
            && input[header..p.declared] == p.payload
            && input[..header] == WithWord(clear, 10, U16At(input, 10)) && C.Validates(input[..header])
  {
    hide Be16, U16At, Options, Area, C.WordSum, C.Validates, ClassifyUpperLayer, FlagsField, FragmentOf, ZeroTail;
    hide Validate, FlagsOf, FlagBits;
    FlagsRead(input, p.flags);
    FlagsBack(U16At(input, 6));
    Word16(input, 6, U16At(input, 6));
    var header, clear := 20 + |p.options|, ClearHeader(BuilderOf(p));
    ClearFields(BuilderOf(p));
    C.ValidatesExact(input[..header]);
    Word16(input, 10, U16At(input, 10));
    SameTen(input, clear);
    SameEight(input, clear);
    Cut(input[..header]);
    Cut(clear);
    assert input[..header][..10] == input[..10] && input[..header][10..12] == input[10..12];
    assert input[..header][12..20] == input[12..20] && input[..header][20..] == input[20..header];
    assert clear[20..] == clear[20..header];
    assert clear[12..] == clear[12..20] + clear[20..];
  }

  lemma SameTen(s: Bytes, t: Bytes)
    requires |s| >= 20 && |t| >= 20 && s[0] == t[0] && s[1] == t[1] && s[2..4] == t[2..4] && s[4..6] == t[4..6]
    requires s[6..8] == t[6..8] && s[8] == t[8] && s[9] == t[9]
    ensures s[..10] == t[..10]
  {
    FirstTen(s);
    FirstTen(t);
  }

  lemma SameEight(s: Bytes, t: Bytes)
    requires |s| >= 20 && |t| >= 20 && s[12..16] == t[12..16] && s[16..20] == t[16..20]
    ensures s[12..20] == t[12..20]
  {
    assert s[12..20] == s[12..16] + s[16..20] && t[12..20] == t[12..16] + t[16..20];
  }

  lemma FirstTen(s: Bytes)
    requires |s| >= 20
    ensures s[..10] == [s[0], s[1]] + s[2..4] + s[4..6] + s[6..8] + [s[8], s[9]]
  {
  }

  lemma Cut(s: Bytes)
    requires |s| >= 20
    ensures s == s[..10] + s[10..12] + s[12..20] + s[20..]
  {
  }
}
