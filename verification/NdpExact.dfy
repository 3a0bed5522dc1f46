/** Exactly which Neighbor Discovery packets the parser accepts and what it says of them, on the bytes
    (crates/nodenet-protocols/src/ndp.rs; sections 4, 6.1 and 7.1 of RFC 4861, section 2.2 of RFC 4191). */
module NdpExact {
  import opened Wire
  import opened Packet
  import opened Ndp
  import opened NdpPacket
  import C = Checksum

  // ---------------------------------------------------------------------------------------
  // Options.

  /** One option and its bytes. */
  predicate OnWire(t: Bytes, o: ParsedOption) {
    && |t| >= 8 && |t| % 8 == 0 && t[1] == |t| / 8
    && match o
       case ParsedSource(address) => t[0] == 1 && t[2..] == address
       case ParsedTarget(address) => t[0] == 2 && t[2..] == address
       case ParsedPrefix(prefixLength, flags, valid, preferred, prefix) =>
         && t[0] == 3 && |t| == 32 && t[2] == prefixLength && t[3] == flags
         && t[4..8] == Be32(valid) && t[8..12] == Be32(preferred) && t[16..] == prefix
       case ParsedRedirected(quote) => t[0] == 4 && t[8..] == quote
       case ParsedMtu(mtu) => t[0] == 5 && |t| == 8 && t[4..8] == Be32(mtu)
       case ParsedUnknown(kind, body) => t[0] == kind && (kind == 0 || kind > 5) && t[2..] == body
  }

  /** The bytes of an option that mean nothing are zero. */
  predicate OptionReserved(t: Bytes)
    requires |t| >= 8
  {
    match t[0]
    case 3 => |t| >= 16 && t[12..16] == [0, 0, 0, 0]
    case 4 => t[2..8] == [0, 0, 0, 0, 0, 0]
    case 5 => t[2..4] == [0, 0]
    case _ => true
  }

  predicate OptionOrdered(o: ParsedOption) { o.ParsedPrefix? ==> o.preferredLifetime <= o.validLifetime }

  predicate AllOnWire(tiles: seq<Bytes>, os: seq<ParsedOption>) {
    |tiles| == |os| && forall i :: 0 <= i < |tiles| ==> OnWire(tiles[i], os[i])
  }

  predicate AllReserved(tiles: seq<Bytes>) {
    forall i :: 0 <= i < |tiles| ==> |tiles[i]| >= 8 && OptionReserved(tiles[i])
  }

  predicate AllOptionsOrdered(os: seq<ParsedOption>) { forall i :: 0 <= i < |os| ==> OptionOrdered(os[i]) }

  lemma ZeroBytes(s: Bytes)
    ensures |s| == 2 ==> (AllZero(s) <==> s == [0, 0])
    ensures |s| == 3 ==> (AllZero(s) <==> s == [0, 0, 0])
    ensures |s| == 4 ==> (AllZero(s) <==> s == [0, 0, 0, 0])
    ensures |s| == 6 ==> (AllZero(s) <==> s == [0, 0, 0, 0, 0, 0])
  {
  }

  /** One option is read exactly as it stands on the wire. */
  lemma OptionExact(t: Bytes, o: ParsedOption)
    requires |t| >= 8 && |t| % 8 == 0 && t[1] == |t| / 8
    ensures OnWire(t, o) <==> OptionOfKind(t[0], t).Ok? && OptionOfKind(t[0], t).value.option == o
    ensures OnWire(t, o) ==> OptionOfKind(t[0], t) == Ok(ReadOption(o, |t|, OptionReserved(t), OptionOrdered(o)))
  {
    hide Be32, U32At, AllZero;
    Word32(t, 4, U32At(t, 4));
    ZeroBytes(t[2..8]);
    ZeroBytes(t[2..4]);
    if |t| == 32 {
      Word32(t, 8, U32At(t, 8));
      ZeroBytes(t[12..16]);
      assert t[16..32] == t[16..];
    }
    match o
    case ParsedPrefix(_, _, valid, preferred, _) =>
      if |t| == 32 {
        Word32(t, 4, valid);
        Word32(t, 8, preferred);
      }
    case ParsedMtu(mtu) => Word32(t, 4, mtu);
    case _ =>
  }

  /** The loop on one more option. */
  lemma LoopStep(t: Bytes, left: Bytes, o: ParsedOption, d: Decoded)
    requires OnWire(t, o) && |d.options| < MAX_NDP_OPTION_COUNT
    ensures ParseOptions(t + left, d)
            == ParseOptions(left, Decoded(d.options + [o], d.reservedZero && OptionReserved(t),
                                          d.lifetimesOrdered && OptionOrdered(o)))
  {
    hide OnWire, OptionOfKind, OptionReserved, OptionOrdered;
    WireLength(t, o);
    OptionExact(t, o);
    var input := t + left;
    assert input[0] == t[0] && input[1] == t[1];
    assert input[..|t|] == t && input[|t|..] == left;
    assert Pair(0, input[1]) * 8 == |t|;
  }

  lemma WireLength(t: Bytes, o: ParsedOption)
    requires OnWire(t, o)
    ensures |t| >= 8 && |t| % 8 == 0 && t[1] == |t| / 8
  {
  }

  /** Options on the wire are read one by one. */
  lemma {:induction false} OptionsComplete(tiles: seq<Bytes>, os: seq<ParsedOption>, d: Decoded)
    requires AllOnWire(tiles, os) && |d.options| + |os| <= MAX_NDP_OPTION_COUNT
    ensures ParseOptions(Join(tiles), d)
            == Ok(Decoded(d.options + os, d.reservedZero && AllReserved(tiles),
                          d.lifetimesOrdered && AllOptionsOrdered(os)))
    decreases |os|
  {
    hide OnWire, OptionReserved, OptionOrdered, ParseOptions;
    if os == [] {
      NoOptions(d);
      assert d.options + os == d.options;
    } else {
      var t, o := tiles[0], os[0];
      WireLength(t, o);
      assert tiles == [t] + tiles[1..] && os == [o] + os[1..];
      LoopStep(t, Join(tiles[1..]), o, d);
      var next := Decoded(d.options + [o], d.reservedZero && OptionReserved(t), d.lifetimesOrdered && OptionOrdered(o));
      OptionsComplete(tiles[1..], os[1..], next);
      assert d.options + [o] + os[1..] == d.options + os;
      ReservedParts(tiles);
      OrderedParts(os);
    }
  }

  lemma ReservedParts(tiles: seq<Bytes>)
    requires tiles != [] && |tiles[0]| >= 8
    ensures AllReserved(tiles) <==> OptionReserved(tiles[0]) && AllReserved(tiles[1..])
  {
    hide OptionReserved;
    assert forall i :: 0 < i < |tiles| ==> tiles[i] == tiles[1..][i - 1];
  }

  lemma OrderedParts(os: seq<ParsedOption>)
    requires os != []
    ensures AllOptionsOrdered(os) <==> OptionOrdered(os[0]) && AllOptionsOrdered(os[1..])
  {
    hide OptionOrdered;
    assert forall i :: 0 < i < |os| ==> os[i] == os[1..][i - 1];
  }

  /** Whatever the loop accepts is a row of options on the wire. */
  lemma {:induction false} OptionsSound(input: Bytes, d: Decoded) returns (tiles: seq<Bytes>, os: seq<ParsedOption>)
    requires ParseOptions(input, d).Ok? && |d.options| <= MAX_NDP_OPTION_COUNT
    ensures Join(tiles) == input && AllOnWire(tiles, os) && |d.options| + |os| <= MAX_NDP_OPTION_COUNT
    ensures ParseOptions(input, d).value.options == d.options + os
    decreases |input|
  {
    hide OnWire, OptionOfKind, ParseOptions, Join;
    if input == [] {
      NoOptions(d);
      assert d.options + [] == d.options;
      JoinNothing();
      return [], [];
    }
    LoopHead(input, d);
    var length := Pair(0, input[1]) * 8;
    var t, left := input[..length], input[length..];
    var r := OptionOfKind(t[0], t).value;
    OptionExact(t, r.option);
    var next := Decoded(d.options + [r.option], d.reservedZero && r.reservedZero,
                        d.lifetimesOrdered && r.lifetimesOrdered);
    var more, rest := OptionsSound(left, next);
    tiles, os := [t] + more, [r.option] + rest;
    JoinParts(t, more);
    assert next.options + rest == d.options + os;
  }

  lemma JoinNothing()
    ensures Join([]) == []
  {
  }

  /** What an accepted row of options looks like at its head. */
  lemma LoopHead(input: Bytes, d: Decoded)
    requires ParseOptions(input, d).Ok? && |d.options| <= MAX_NDP_OPTION_COUNT && input != []
    ensures |input| >= 2 && 8 <= Pair(0, input[1]) * 8 <= |input| && |d.options| < MAX_NDP_OPTION_COUNT
    ensures var length := Pair(0, input[1]) * 8;
            var t := input[..length];
            && t[0] == input[0] && |t| % 8 == 0 && t[1] == |t| / 8 && OptionOfKind(t[0], t).Ok?
            && var r := OptionOfKind(t[0], t).value;
            ParseOptions(input, d)
            == ParseOptions(input[length..], Decoded(d.options + [r.option], d.reservedZero && r.reservedZero,
                                                     d.lifetimesOrdered && r.lifetimesOrdered))
  {
    hide OptionOfKind;
  }

  // ---------------------------------------------------------------------------------------
  // Fixed fields.

  /** What router preference two bits stand for; the reserved value counts as medium. */
  predicate PreferenceOf(bits: nat, preference: int) {
    (bits == 0 && preference == 0) || (bits == 1 && preference == 1) || (bits == 2 && preference == 0)
    || (bits == 3 && preference == -1)
  }

  /** A message and its fixed fields. */
  predicate FixedOnWire(input: Bytes, m: NdpMessage) {
    && |input| >= MessageLength(m)
    && match m
       case RouterSolicitation => input[0] == 133
       case RouterAdvertisement(hops, managed, other, preference, lifetime, reachable, retransmit) =>
         && input[0] == 134 && input[4] == hops && managed == (input[5] >= 128) && other == (input[5] / 64 % 2 == 1)
         && PreferenceOf(input[5] / 8 % 4, preference)
         && input[6..8] == Be16(lifetime) && input[8..12] == Be32(reachable) && input[12..16] == Be32(retransmit)
       case NeighborSolicitation(target) => input[0] == 135 && input[8..24] == target
       case NeighborAdvertisement(router, solicited, override, target) =>
         && input[0] == 136 && router == (input[4] >= 128) && solicited == (input[4] / 64 % 2 == 1)
         && override == (input[4] / 32 % 2 == 1) && input[8..24] == target
       case Redirect(target, destination) =>
         input[0] == 137 && input[8..24] == target && input[24..40] == destination
  }

  /** The bits of the fixed fields that mean nothing are zero. */
  predicate FixedReserved(input: Bytes)
    requires |input| >= 8
  {
    match input[0]
    case 134 => input[5] / 32 % 2 == 0 && input[5] % 8 == 0
    case 136 => input[4] % 32 == 0 && input[5..8] == [0, 0, 0]
    case _ => input[4..8] == [0, 0, 0, 0]
  }

  predicate PreferenceAssigned(input: Bytes)
    requires |input| >= 8
  {
    input[0] == 134 ==> input[5] / 8 % 4 != 2
  }

  lemma FixedExact(input: Bytes, m: NdpMessage)
    requires |input| >= 8
    ensures FixedOnWire(input, m) <==> ParseFixed(input).Ok? && ParseFixed(input).value.message == m
    ensures FixedOnWire(input, m) ==>
              ParseFixed(input) == Ok(ReadMessage(m, FixedReserved(input), PreferenceAssigned(input)))
  {
    hide Be16, Be32, U16At, U32At, AllZero;
    ZeroBytes(input[4..8]);
    ZeroBytes(input[5..8]);
    if |input| >= 16 {
      Word16(input, 6, U16At(input, 6));
      Word32(input, 8, U32At(input, 8));
      Word32(input, 12, U32At(input, 12));
    }
    if m.RouterAdvertisement? && |input| >= 16 {
      Word16(input, 6, m.routerLifetime);
      Word32(input, 8, m.reachableTime);
      Word32(input, 12, m.retransmitTimer);
    }
  }

  // ---------------------------------------------------------------------------------------
  // Addresses.

  predicate IsUnspecified(a: Bytes) { a == Zeros(16) }

  /** fe80::/10. */
  predicate IsLinkLocal(a: Bytes) { |a| == 16 && a[0] == 0xfe && 0x80 <= a[1] <= 0xbf }

  predicate IsMulticast(a: Bytes) { |a| == 16 && a[0] == 0xff }

  predicate IsUnicast(a: Bytes) { |a| == 16 && !IsUnspecified(a) && !IsMulticast(a) }

  /** ff02::1:ff00:0/104 with the last three octets of the target. */
  predicate IsSolicitedNode(a: Bytes, target: Bytes) {
    && |a| == 16 && |target| == 16 && a[0] == 0xff && a[1] == 2 && a[2..11] == Zeros(9)
    && a[11] == 1 && a[12] == 0xff && a[13..] == target[13..]
  }

  /** The validity rules of sections 6.1.1, 6.1.2, 7.1.1, 7.1.2 and 8.1 of RFC 4861 that concern addresses,
      with those of its section 4 on where each message is sent. `strict` adds that a neighbor solicitation from the
      unspecified address carries no source link-layer address. */
  predicate Legal(c: NdpContext, m: NdpMessage, hasSource: bool, strict: bool) {
    match m
    case RouterSolicitation =>
      && c.destination == ALL_ROUTERS && (IsUnspecified(c.source) || IsUnicast(c.source))
      && (hasSource ==> !IsUnspecified(c.source))
    case RouterAdvertisement(_, _, _, _, _, _, _) =>
      IsLinkLocal(c.source) && (IsUnicast(c.destination) || c.destination == ALL_NODES)
    case NeighborSolicitation(target) =>
      && IsUnicast(target) && (IsUnspecified(c.source) || IsUnicast(c.source))
      && (IsSolicitedNode(c.destination, target) || (c.destination == target && !IsUnspecified(c.source)))
      && (strict && IsUnspecified(c.source) ==> !hasSource)
    case NeighborAdvertisement(_, solicited, _, target) =>
      && IsUnicast(target) && IsUnicast(c.source)
      && (IsUnicast(c.destination) || (IsMulticast(c.destination) && !solicited))
    case Redirect(target, destination) =>
      && IsLinkLocal(c.source) && IsUnicast(c.destination) && IsUnicast(destination)
      && (IsLinkLocal(target) || target == destination)
  }

  lemma UnspecifiedExact(a: Bytes)
    requires |a| == 16
    ensures Unspecified(a) <==> IsUnspecified(a)
    ensures a[0] == 0xff ==> !Unspecified(a)
  {
  }

  lemma SolicitedExact(a: Bytes, target: Bytes)
    requires |a| == 16 && |target| == 16
    ensures a == SolicitedNode(target) <==> IsSolicitedNode(a, target)
  {
    var s := SolicitedNode(target);
    assert s[2..11] == Zeros(9) && s[13..] == target[13..];
    if IsSolicitedNode(a, target) {
      assert a == a[..2] + a[2..11] + a[11..13] + a[13..];
      assert s == s[..2] + s[2..11] + s[11..13] + s[13..];
    }
  }

  lemma LegalExact(c: NdpContext, m: NdpMessage, hasSource: bool)
    requires Addressed(c) && WellTyped(m) && (m.RouterAdvertisement? ==> -1 <= m.preference <= 1)
    ensures Addressing(c, m, hasSource) <==> Legal(c, m, hasSource, true)
    ensures Addressing(c, m, m.RouterSolicitation? && hasSource) <==> Legal(c, m, hasSource, false)
  {
    hide AllZero, Zeros, SolicitedNode, IsSolicitedNode;
    UnspecifiedExact(c.source);
    UnspecifiedExact(c.destination);
    match m
    case NeighborSolicitation(target) =>
      UnspecifiedExact(target);
      SolicitedExact(c.destination, target);
    case NeighborAdvertisement(_, _, _, target) => UnspecifiedExact(target);
    case Redirect(target, destination) => UnspecifiedExact(destination);
    case _ =>
  }

  // ---------------------------------------------------------------------------------------
  // Packets.

  /** The kind of option may accompany the type of message. */
  predicate KindAllowed(messageType: Byte, kind: Byte) {
    match kind
    case 1 => messageType in {133, 134, 135}
    case 2 => messageType in {136, 137}
    case 3 => messageType == 134
    case 4 => messageType == 137
    case 5 => messageType == 134
    case _ => true
  }

  predicate AllKindsAllowed(messageType: Byte, tiles: seq<Bytes>) {
    forall i :: 0 <= i < |tiles| ==> |tiles[i]| >= 8 && KindAllowed(messageType, tiles[i][0])
  }

  /** No two options of a kind that may occur once. */
  predicate NoneTwice(tiles: seq<Bytes>) {
    forall i, j :: 0 <= i < j < |tiles| && |tiles[i]| >= 8 && |tiles[j]| >= 8 && tiles[i][0] == tiles[j][0] ==>
      tiles[i][0] !in {1, 2, 5}
  }

  predicate SomeSource(tiles: seq<Bytes>) { exists i :: 0 <= i < |tiles| && |tiles[i]| >= 8 && tiles[i][0] == 1 }

  /** How often a kind occurs. */
  function Occurrences(tiles: seq<Bytes>, kind: Byte): nat {
    if tiles == [] then 0
    else
      var n := |tiles| - 1;
      Occurrences(tiles[..n], kind) + if |tiles[n]| >= 8 && tiles[n][0] == kind then 1 else 0
  }

  lemma {:induction false} TallyExact(tiles: seq<Bytes>, os: seq<ParsedOption>)
    requires AllOnWire(tiles, os)
    ensures ParsedCount(os) == Tally(Occurrences(tiles, 1), Occurrences(tiles, 2), Occurrences(tiles, 5))
    decreases |os|
  {
    hide Be32;
    if os != [] {
      var n := |os| - 1;
      TallyExact(tiles[..n], os[..n]);
      assert OnWire(tiles[n], os[n]);
    }
  }

  lemma {:induction false} OccursSome(tiles: seq<Bytes>, kind: Byte)
    ensures Occurrences(tiles, kind) > 0 <==> exists i :: 0 <= i < |tiles| && |tiles[i]| >= 8 && tiles[i][0] == kind
    decreases |tiles|
  {
    if tiles != [] {
      var n := |tiles| - 1;
      OccursSome(tiles[..n], kind);
      assert forall i :: 0 <= i < n ==> tiles[..n][i] == tiles[i];
    }
  }

  lemma {:induction false} OccursTwice(tiles: seq<Bytes>, kind: Byte)
    ensures Occurrences(tiles, kind) <= 1 <==>
            forall i, j :: 0 <= i < j < |tiles| && |tiles[i]| >= 8 && |tiles[j]| >= 8 && tiles[i][0] == kind ==>
              tiles[j][0] != kind
    decreases |tiles|
  {
    if tiles != [] {
      var n := |tiles| - 1;
      OccursTwice(tiles[..n], kind);
      OccursSome(tiles[..n], kind);
      assert forall i :: 0 <= i < n ==> tiles[..n][i] == tiles[i];
    }
  }

  lemma SinglesExact(tiles: seq<Bytes>, os: seq<ParsedOption>)
    requires AllOnWire(tiles, os)
    ensures Single(ParsedCount(os)) <==> NoneTwice(tiles)
    ensures ParsedCount(os).source != 0 <==> SomeSource(tiles)
  {
    hide OnWire, Occurrences, ParsedCount;
    TallyExact(tiles, os);
    OccursTwice(tiles, 1);
    OccursTwice(tiles, 2);
    OccursTwice(tiles, 5);
    OccursSome(tiles, 1);
  }

  lemma AllowedExact(input: Bytes, m: NdpMessage, tiles: seq<Bytes>, os: seq<ParsedOption>)
    requires FixedOnWire(input, m) && AllOnWire(tiles, os)
    ensures AllAllowed(m, os) <==> AllKindsAllowed(input[0], tiles)
  {
    hide Be32, Be16, PreferenceOf;
    forall i | 0 <= i < |os| ensures ParsedAllowed(m, os[i]) <==> KindAllowed(input[0], tiles[i][0]) {
      assert OnWire(tiles[i], os[i]);
    }
  }

  /** A packet that crossed no router, with code zero, a valid checksum, the fixed fields of its message and, behind
      them, a bounded row of options, between addresses it may travel between. Each remark on its conformance holds
      exactly when its rule does. */
  predicate Represents(input: Bytes, c: NdpContext, tiles: seq<Bytes>, p: Parsed) {
    && 8 <= |input| <= 65535 && c.hopLimit == 255 && input[1] == 0
    && C.Balanced(C.Ipv6(c.source, c.destination), 58, input)
    && input[2..4] == Be16(p.checksum)
    && FixedOnWire(input, p.message) && input[MessageLength(p.message)..] == Join(tiles)
    && AllOnWire(tiles, p.options) && |tiles| <= 64 && |Join(tiles)| <= 4096
    && Legal(c, p.message, SomeSource(tiles), false)
    && p.conformance.reservedZero == (FixedReserved(input) && AllReserved(tiles))
    && p.conformance.preferenceAssigned == PreferenceAssigned(input)
    && p.conformance.single == NoneTwice(tiles)
    && p.conformance.allowed == AllKindsAllowed(input[0], tiles)
    && p.conformance.lifetimesOrdered == AllOptionsOrdered(p.options)
  }

  lemma FixedTyped(input: Bytes, m: NdpMessage)
    requires FixedOnWire(input, m)
    ensures WellTyped(m) && 8 <= MessageLength(m) <= |input| && (m.RouterAdvertisement? ==> -1 <= m.preference <= 1)
  {
    hide Be16, Be32;
  }

  /** What passes the checks of the parser. */
  lemma ParseGives(input: Bytes, c: NdpContext, f: ReadMessage, d: Decoded)
    requires Addressed(c) && 8 <= |input| <= 65535 && c.hopLimit == 255 && input[1] == 0
    requires C.TransportChecksum(ContextOf(c), ICMPV6_PROTOCOL, input) == Some(0)
    requires ParseFixed(input) == Ok(f) && |input[MessageLength(f.message)..]| <= 4096
    requires ParseOptions(input[MessageLength(f.message)..], Decoded([], f.reservedZero, true)) == Ok(d)
    requires Addressing(c, f.message, f.message.RouterSolicitation? && ParsedCount(d.options).source != 0)
    ensures Parse(input, c)
            == Ok(Parsed(U16At(input, 2), f.message, d.options,
                         Conformance(d.reservedZero, f.preferenceAssigned, Single(ParsedCount(d.options)),
                                     AllAllowed(f.message, d.options), d.lifetimesOrdered)))
  {
    hide ParseFixed, ParseOptions, C.TransportChecksum, Addressing, ParsedCount, AllAllowed, U16At;
  }

  lemma ParseComplete(input: Bytes, c: NdpContext, tiles: seq<Bytes>, p: Parsed)
    requires Addressed(c) && Represents(input, c, tiles, p)
    ensures Parse(input, c) == Ok(p)
  {
    hide Be16, U16At, ParseFixed, ParseOptions, FixedOnWire, OnWire, OptionReserved, OptionOrdered, FixedReserved;
    hide C.TransportChecksum, C.Balanced, Legal, Addressing, ParsedCount, ParsedAllowed, KindAllowed;
    hide NoneTwice, SomeSource, AllReserved, AllOptionsOrdered, AllKindsAllowed, Parse, AllAllowed, AllOnWire;
    C.BalancedExact(ContextOf(c), ICMPV6_PROTOCOL, input);
    FixedExact(input, p.message);
    FixedTyped(input, p.message);
    Word16(input, 2, p.checksum);
    TilesCount(tiles, p.options);
    OptionsComplete(tiles, p.options, Decoded([], FixedReserved(input), true));
    assert [] + p.options == p.options;
    SinglesExact(tiles, p.options);
    AllowedExact(input, p.message, tiles, p.options);
    LegalExact(c, p.message, SomeSource(tiles));
    ParseGives(input, c, ReadMessage(p.message, FixedReserved(input), PreferenceAssigned(input)),
               Decoded(p.options, p.conformance.reservedZero, p.conformance.lifetimesOrdered));
  }

  /** What the checks of the parser leave. */
  lemma ParseParts(input: Bytes, c: NdpContext)
    requires Addressed(c) && Parse(input, c).Ok?
    ensures 8 <= |input| <= 65535 && c.hopLimit == 255 && input[1] == 0
    ensures C.TransportChecksum(ContextOf(c), ICMPV6_PROTOCOL, input) == Some(0)
    ensures ParseFixed(input).Ok? && |input[MessageLength(ParseFixed(input).value.message)..]| <= 4096
    ensures var f := ParseFixed(input).value;
            var d := ParseOptions(input[MessageLength(f.message)..], Decoded([], f.reservedZero, true));
            && d.Ok?
            && Addressing(c, f.message, f.message.RouterSolicitation? && ParsedCount(d.value.options).source != 0)
            && Parse(input, c).value
               == Parsed(U16At(input, 2), f.message, d.value.options,
                         Conformance(d.value.reservedZero, f.preferenceAssigned, Single(ParsedCount(d.value.options)),
                                     AllAllowed(f.message, d.value.options), d.value.lifetimesOrdered))
  {
    hide ParseFixed, ParseOptions, C.TransportChecksum, Addressing, ParsedCount, AllAllowed, U16At;
  }

  lemma ParseSound(input: Bytes, c: NdpContext) returns (tiles: seq<Bytes>)
    requires Addressed(c) && Parse(input, c).Ok?
    ensures Represents(input, c, tiles, Parse(input, c).value)
  {
    hide Be16, U16At, ParseFixed, ParseOptions, FixedOnWire, OnWire, OptionReserved, OptionOrdered, FixedReserved;
    hide C.TransportChecksum, C.Balanced, Legal, Addressing, ParsedCount, ParsedAllowed, KindAllowed;
    hide NoneTwice, SomeSource, AllReserved, AllOptionsOrdered, AllKindsAllowed, Parse, AllAllowed;
    ParseParts(input, c);
    var p := Parse(input, c).value;
    C.BalancedExact(ContextOf(c), ICMPV6_PROTOCOL, input);
    FixedExact(input, p.message);
    FixedTyped(input, p.message);
    Word16(input, 2, p.checksum);
    var d := Decoded([], FixedReserved(input), true);
    var os;
    tiles, os := OptionsSound(input[MessageLength(p.message)..], d);
    assert [] + os == os;
    OptionsComplete(tiles, os, d);
    SinglesExact(tiles, os);
    AllowedExact(input, p.message, tiles, os);
    LegalExact(c, p.message, SomeSource(tiles));
  }

  /** The parser gives exactly the reading that the bytes and the addresses bear out, and none other. */
  lemma ParseExact(input: Bytes, c: NdpContext, p: Parsed)
    requires Addressed(c)
    ensures Parse(input, c) == Ok(p) <==> exists tiles :: Represents(input, c, tiles, p)
  {
    hide Parse, Represents;
    if Parse(input, c) == Ok(p) { var tiles := ParseSound(input, c); }
    forall tiles | Represents(input, c, tiles, p) ensures Parse(input, c) == Ok(p) {
      ParseComplete(input, c, tiles, p);
    }
  }

  /** A packet without a remark agrees with what the builder would print, outside the checksum. */
  lemma CanonicalAgrees(input: Bytes, m: NdpMessage)
    requires FixedOnWire(input, m) && input[1] == 0 && FixedReserved(input) && PreferenceAssigned(input)
    ensures WellTyped(m) && Agrees(m, input)
  {
    hide Agrees, MessageBytes;
    FixedTyped(input, m);
    match m
    case RouterAdvertisement(_, _, _, _, _, _, _) => RouterAgrees(input, m);
    case NeighborAdvertisement(_, _, _, target) => NeighborAgrees(input, m);
    case _ => PlainAgrees(input, m);
  }

  /** Agreement, piece by piece. */
  lemma AgreesFrom(input: Bytes, m: NdpMessage)
    requires WellTyped(m) && 8 <= MessageLength(m) <= |input| && input[1] == 0 == MessageBytes(m)[1]
    requires input[0] == MessageBytes(m)[0] && input[4..MessageLength(m)] == MessageBytes(m)[4..]
    ensures Agrees(m, input)
  {
    hide MessageBytes;
    var n, s := MessageLength(m), MessageBytes(m);
    forall i | 0 <= i < n && i != 2 && i != 3 ensures input[i] == s[i] {
      if i >= 4 { assert input[4..n][i - 4] == s[4..][i - 4]; }
    }
  }

  lemma PlainAgrees(input: Bytes, m: NdpMessage)
    requires (m.RouterSolicitation? || m.NeighborSolicitation? || m.Redirect?) && WellTyped(m) && FixedOnWire(input, m)
    requires input[1] == 0 && FixedReserved(input)
    ensures Agrees(m, input)
  {
    hide Agrees;
    var s := MessageBytes(m);
    if m.RouterSolicitation? {
      assert s[4..] == [0, 0, 0, 0];
    } else if m.NeighborSolicitation? {
      assert s[4..] == [0, 0, 0, 0] + m.target;
      assert input[4..24] == input[4..8] + input[8..24];
    } else {
      assert s[4..] == [0, 0, 0, 0] + m.target + m.destination;
      assert input[4..40] == input[4..8] + input[8..24] + input[24..40];
    }
    AgreesFrom(input, m);
  }

  lemma RouterAgrees(input: Bytes, m: NdpMessage)
    requires m.RouterAdvertisement? && FixedOnWire(input, m) && input[1] == 0
    requires FixedReserved(input) && PreferenceAssigned(input)
    ensures Agrees(m, input)
  {
    hide Be16, Be32, RouterFlags, PreferenceOf, Agrees;
    RouterFlagsBack(m, input[5]);
    var s := MessageBytes(m);
    assert s[4..] == [m.currentHopLimit, RouterFlags(m)] + Be16(m.routerLifetime) + Be32(m.reachableTime)
                     + Be32(m.retransmitTimer);
    assert input[4..16] == [input[4], input[5]] + input[6..8] + input[8..12] + input[12..16];
    AgreesFrom(input, m);
  }

  lemma NeighborAgrees(input: Bytes, m: NdpMessage)
    requires m.NeighborAdvertisement? && WellTyped(m) && FixedOnWire(input, m) && input[1] == 0 && FixedReserved(input)
    ensures Agrees(m, input)
  {
    hide NeighborFlags, Agrees;
    NeighborFlagsBack(m, input[4]);
    var s := MessageBytes(m);
    assert s[4..] == [NeighborFlags(m), 0, 0, 0] + m.target;
    assert input[4..24] == [input[4]] + input[5..8] + input[8..24];
    AgreesFrom(input, m);
  }

  lemma RouterFlagsBack(m: NdpMessage, f: Byte)
    requires m.RouterAdvertisement? && m.managed == (f >= 128) && m.otherConfiguration == (f / 64 % 2 == 1)
    requires PreferenceOf(f / 8 % 4, m.preference) && f / 8 % 4 != 2 && f / 32 % 2 == 0 && f % 8 == 0
    ensures f == RouterFlags(m)
  {
  }

  lemma NeighborFlagsBack(m: NdpMessage, f: Byte)
    requires m.NeighborAdvertisement? && m.router == (f >= 128) && m.solicited == (f / 64 % 2 == 1)
    requires m.overrideFlag == (f / 32 % 2 == 1) && f % 32 == 0
    ensures f == NeighborFlags(m)
  {
  }

  // ---------------------------------------------------------------------------------------
  // Parse, then build.

  lemma OptionRebuilt(t: Bytes, o: NdpOption)
    requires Sendable(o) && OnWire(t, Seen(o)) && OptionReserved(t)
    ensures t == OptionBytes(o)
  {
    hide Be32, Zeros, PrefixFlags;
    match o
    case PrefixInformation(_, _, _, _, _, _) => PrefixRebuilt(t, o);
    case RedirectedHeader(quote) => assert t == [t[0], t[1]] + t[2..8] + t[8..];
    case Mtu(mtu) => assert t == [t[0], t[1]] + t[2..4] + t[4..8];
    case _ => assert t == [t[0], t[1]] + t[2..];
  }

  lemma PrefixRebuilt(t: Bytes, o: NdpOption)
    requires o.PrefixInformation? && Sendable(o) && OnWire(t, Seen(o)) && OptionReserved(t)
    ensures t == OptionBytes(o)
  {
    hide Be32, PrefixFlags;
    assert t == [t[0], t[1], t[2], t[3]] + t[4..8] + t[8..12] + t[12..16] + t[16..];
  }

  lemma {:induction false} OptionsRebuilt(tiles: seq<Bytes>, os: seq<NdpOption>)
    requires AllSendable(os) && AllOnWire(tiles, AllSeen(os)) && AllReserved(tiles)
    ensures Join(tiles) == AllBytes(os)
    decreases |os|
  {
    hide OnWire, Seen, OptionBytes, OptionReserved, Sendable;
    if os != [] {
      OptionRebuilt(tiles[0], os[0]);
      AllSeenParts(os);
      assert AllSeen(os)[1..] == AllSeen(os[1..]);
      OptionsRebuilt(tiles[1..], os[1..]);
    }
  }

  lemma {:induction false} TotalGiven(os: seq<NdpOption>)
    requires AllSendable(os)
    ensures OptionTotal(os) == Ok(|AllBytes(os)|)
    decreases |os|
  {
    hide OptionBytes, RequiredLength, Typed;
    if os != [] {
      var init, last := os[..|os| - 1], os[|os| - 1];
      TotalGiven(init);
      assert os == init + [last];
      BytesSnoc(init, last);
      LengthOf(last);
    } else {
      NoBytes();
    }
  }

  lemma NoBytes()
    ensures AllSendable([]) && AllBytes([]) == []
  {
  }

  lemma {:induction false} WellPlaced(m: NdpMessage, os: seq<NdpOption>)
    requires AllSendable(os) && AllAllowed(m, AllSeen(os)) && AllOptionsOrdered(AllSeen(os))
    ensures Misplaced(m, os).None?
    decreases |os|
  {
    hide RequiredLength, Typed;
    if os != [] {
      var n := |os| - 1;
      assert AllSeen(os)[..n] == AllSeen(os[..n]);
      assert forall i :: 0 <= i < n ==> AllSeen(os[..n])[i] == AllSeen(os)[i];
      WellPlaced(m, os[..n]);
      assert ParsedAllowed(m, AllSeen(os)[n]) && OptionOrdered(AllSeen(os)[n]);
    }
  }

  lemma SourceSeen(tiles: seq<Bytes>, os: seq<NdpOption>)
    requires AllSendable(os) && AllOnWire(tiles, AllSeen(os))
    ensures HasSource(os) <==> SomeSource(tiles)
  {
    hide Be32, Zeros, RequiredLength, Typed;
    forall i | 0 <= i < |os| ensures os[i].SourceLinkLayerAddress? <==> |tiles[i]| >= 8 && tiles[i][0] == 1 {
      assert OnWire(tiles[i], AllSeen(os)[i]);
    }
  }

  lemma RebuildValid(input: Bytes, c: NdpContext, tiles: seq<Bytes>, p: Parsed, os: seq<NdpOption>)
    requires Addressed(c) && Represents(input, c, tiles, p) && p.conformance == CANONICAL
    requires AllSendable(os) && AllSeen(os) == p.options && Legal(c, p.message, SomeSource(tiles), true)
    ensures var b := Builder(c, p.message, os); BuilderTyped(b) && Validate(b) == Ok(|input|)
  {
    hide FixedOnWire, OnWire, Be16, C.Balanced, Legal, Addressing, AllSeen, RequiredLength, Typed;
    hide FixedReserved, OptionReserved, Count, ParsedCount, Misplaced, OptionTotal, Join, AllBytes, KindAllowed;
    hide NoneTwice, SomeSource, AllAllowed, AllKindsAllowed, AllOptionsOrdered, HasSource, AllOnWire;
    FixedTyped(input, p.message);
    OptionsRebuilt(tiles, os);
    TotalGiven(os);
    AllowedExact(input, p.message, tiles, p.options);
    WellPlaced(p.message, os);
    SinglesExact(tiles, p.options);
    CountSeen(os);
    SourceSeen(tiles, os);
    LegalExact(c, p.message, SomeSource(tiles));
    TilesCount(tiles, p.options);
    SendableTyped(os);
    assert |input| == MessageLength(p.message) + |Join(tiles)|;
  }

  lemma TilesCount(tiles: seq<Bytes>, os: seq<ParsedOption>)
    requires AllOnWire(tiles, os)
    ensures |tiles| == |os|
  {
  }

  lemma SendableTyped(os: seq<NdpOption>)
    requires AllSendable(os)
    ensures (forall i :: 0 <= i < |os| ==> Typed(os[i])) && |AllSeen(os)| == |os|
  {
  }

  /** A canonical packet of sendable options that keeps every address rule is rebuilt byte for byte, but for a checksum
      field of all ones where the builder writes zero. */
  lemma ParseBuild(input: Bytes, c: NdpContext, tiles: seq<Bytes>, os: seq<NdpOption>)
    requires Addressed(c) && Parse(input, c).Ok? && Represents(input, c, tiles, Parse(input, c).value)
    requires Parse(input, c).value.conformance == CANONICAL
    requires AllSendable(os) && AllSeen(os) == Parse(input, c).value.options
    requires Legal(c, Parse(input, c).value.message, SomeSource(tiles), true)
    ensures var b := Builder(c, Parse(input, c).value.message, os);
            && BuilderTyped(b) && Validate(b).Ok?
            && (Build(b) == input || (input[2..4] == [0xff, 0xff] && ChecksumField(b) == 0
                                      && Build(b) == WithWord(input, 2, 0)))
  {
    hide Parse, Legal, C.Balanced, C.PseudoHeader, Validate, Be16, AllSeen, Sendable, C.TransportChecksum, C.FieldValue;
    hide FixedOnWire, AllOnWire, FixedReserved, AllReserved, NoneTwice, AllKindsAllowed, AllOptionsOrdered, SomeSource;
    var p := Parse(input, c).value;
    var b := Builder(c, p.message, os);
    RebuildValid(input, c, tiles, p, os);
    ClearIs(input, c, tiles, p, os);
    C.BalancedExact(ContextOf(c), ICMPV6_PROTOCOL, input);
    var clear := Clear(b);
    C.TransportFieldUnique(ContextOf(c), ICMPV6_PROTOCOL, clear, 2, p.checksum);
    if p.checksum != ChecksumField(b) {
      Be16Pair(0xff, 0xff);
      assert WithWord(input, 2, 0) == WithWord(clear, 2, 0);
    }
  }

  /** The input is what the builder writes before the checksum, with the checksum it came with. */
  lemma ClearIs(input: Bytes, c: NdpContext, tiles: seq<Bytes>, p: Parsed, os: seq<NdpOption>)
    requires Addressed(c) && Represents(input, c, tiles, p) && p.conformance == CANONICAL
    requires AllSendable(os) && AllSeen(os) == p.options
    requires var b := Builder(c, p.message, os); BuilderTyped(b) && Validate(b).Ok?
    ensures var clear := Clear(Builder(c, p.message, os));
            clear[2] == 0 && clear[3] == 0 && |clear| == |input| && input == WithWord(clear, 2, p.checksum)
  {
    hide Validate, Be16, AllSeen, Sendable, MessageBytes, AllBytes, Join, C.Balanced, Legal, OnWire;
    hide FixedOnWire, FixedReserved, OptionReserved;
    FixedTyped(input, p.message);
    OptionsRebuilt(tiles, os);
    CanonicalAgrees(input, p.message);
    var m, n := MessageBytes(p.message), MessageLength(p.message);
    var clear := Clear(Builder(c, p.message, os));
    assert clear == m + AllBytes(os) && input[n..] == AllBytes(os);
    forall i | 0 <= i < |input| && i != 2 && i != 3 ensures input[i] == clear[i] {
      if i >= n { assert input[i] == input[n..][i - n]; }
    }
    assert WithWord(clear, 2, p.checksum)[2..4] == Be16(p.checksum);
    assert input == input[..2] + input[2..4] + input[4..];
    assert input[..2] == clear[..2] && input[4..] == clear[4..];
  }

  // ---------------------------------------------------------------------------------------
  // Where the parser is laxer than section 7.1.1 of RFC 4861.

  /** Accepted packets keep every address rule exactly if they are no neighbor solicitation from the unspecified address
      with a source link-layer address. */
  lemma StrictExact(input: Bytes, c: NdpContext, tiles: seq<Bytes>)
    requires Addressed(c) && Parse(input, c).Ok? && Represents(input, c, tiles, Parse(input, c).value)
    ensures Legal(c, Parse(input, c).value.message, SomeSource(tiles), true) <==>
            !(Parse(input, c).value.message.NeighborSolicitation? && IsUnspecified(c.source) && SomeSource(tiles))
  {
    hide Parse, C.Balanced, Be16, FixedOnWire, AllOnWire, FixedReserved, AllReserved, NoneTwice;
    hide AllKindsAllowed, AllOptionsOrdered, SomeSource, IsSolicitedNode, IsUnicast, Zeros;
  }

  function LaxContext(target: Bytes): NdpContext
    requires |target| == 16
  {
    NdpContext(Zeros(16), SolicitedNode(target), 255)
  }

  const LAX_OPTION: Bytes := [1, 1, 2, 0, 0, 0, 0, 1]

  function LaxPacket(target: Bytes): (s: Bytes)
    requires |target| == 16
    ensures |s| == 32
  {
    var clear := MessageBytes(NeighborSolicitation(target)) + LAX_OPTION;
    WithWord(clear, 2, C.FieldValue(C.PseudoHeader(ContextOf(LaxContext(target)), ICMPV6_PROTOCOL, 32) + clear, false))
  }

  lemma LaxChecksum(target: Bytes)
    requires |target| == 16
    ensures C.TransportChecksum(ContextOf(LaxContext(target)), ICMPV6_PROTOCOL, LaxPacket(target)) == Some(0)
  {
    hide C.TransportChecksum, C.FieldValue, C.PseudoHeader, Be16, Zeros;
    var clear := MessageBytes(NeighborSolicitation(target)) + LAX_OPTION;
    assert clear[2] == 0 && clear[3] == 0;
    C.TransportWrittenValidates(ContextOf(LaxContext(target)), ICMPV6_PROTOCOL, clear, 2, false);
  }

  lemma LaxBytes(target: Bytes)
    requires |target| == 16
    ensures var s := LaxPacket(target);
            && s[0] == 135 && s[1] == 0 && s[4..8] == [0, 0, 0, 0] && s[8..24] == target && s[24..] == LAX_OPTION
  {
    hide C.FieldValue, C.PseudoHeader, Be16, LaxContext;
    var clear := MessageBytes(NeighborSolicitation(target)) + LAX_OPTION;
    var s := LaxPacket(target);
    assert s[..2] == clear[..2] && s[4..] == clear[4..];
    assert clear == [135, 0, 0, 0, 0, 0, 0, 0] + target + LAX_OPTION;
    assert s[4..8] == clear[4..8] && s[8..24] == clear[8..24] && s[24..] == clear[24..];
  }

  /** Such a solicitation for any unicast target is accepted, without a remark. */
  lemma LaxAccepted(target: Bytes)
    requires IsUnicast(target)
    ensures var c, tiles := LaxContext(target), [LAX_OPTION];
            && Addressed(c) && Parse(LaxPacket(target), c).Ok?
            && Parse(LaxPacket(target), c).value.conformance == CANONICAL
            && Represents(LaxPacket(target), c, tiles, Parse(LaxPacket(target), c).value)
            && !Legal(c, Parse(LaxPacket(target), c).value.message, SomeSource(tiles), true)
  {
    hide LaxPacket, C.TransportChecksum, C.Balanced, Be16, U16At, Parse, Zeros;
    var c, s, t := LaxContext(target), LaxPacket(target), LAX_OPTION;
    var o := ParsedSource(t[2..]);
    LaxChecksum(target);
    LaxBytes(target);
    C.BalancedExact(ContextOf(c), ICMPV6_PROTOCOL, s);
    Be16Inverse(s, 2);
    assert [t][1..] == [] && Join([]) == [];
    assert Join([t]) == t + [] == t;
    assert OnWire(t, o);
    SolicitedExact(c.destination, target);
    assert [t][0][0] == 1;
    var p := Parsed(U16At(s, 2), NeighborSolicitation(target), [o], CANONICAL);
    assert Represents(s, c, [t], p);
    ParseComplete(s, c, [t], p);
  }
}
