/** The IPv6 builder, its round trips with the parser, truncation, and the loops of the source
    (crates/nodenet-protocols/src/ipv6.rs). */
module Ipv6Builder {
  import opened Wire
  import opened Packet
  import opened Ipv6
  import opened Ipv6Packet
  import E = ExtensionOrder

  datatype Builder = Builder(
    trafficClass: Byte,
    flowLabel: U32,
    hopLimit: Byte,
    source: Bytes,
    destination: Bytes,
    extensions: seq<Extension>,
    upper: Byte,
    payload: Bytes)

  /** Addresses have sixteen octets by type. */
  predicate Addressed(b: Builder) { |b.source| == 16 && |b.destination| == 16 }

  /** The extension bytes, checked header by header. */
  function Total(exts: seq<Extension>): Result<nat, BuildError> {
    if exts == [] then Ok(0)
    else
      var last := exts[|exts| - 1];
      match Total(exts[..|exts| - 1])
      case Err(e) => Err(e)
      case Ok(t) =>
        if Fault(last).Some? then Err(InvalidValue(Fault(last).value))
        else if t + Length(last) > MAX_EXTENSION_BYTES then Err(InvalidValue(ExtensionLength))
        else Ok(t + Length(last))
  }

  /** `validate`. */
  function Validate(b: Builder): Result<nat, BuildError> {
    if b.flowLabel > 0xf_ffff then Err(InvalidValue(FlowLabel))
    else if |b.extensions| > MAX_EXTENSION_HEADER_COUNT then Err(InvalidValue(ExtensionLength))
    else
      match Total(b.extensions)
      case Err(e) => Err(e)
      case Ok(total) =>
        var fragment := FragmentOf(b.extensions);
        if E.Watch(Protocols(b.extensions)).issues != E.CANONICAL then Err(InvalidValue(Field.ExtensionOrder))
        else if b.upper == 59 && b.payload != [] then Err(InvalidValue(PayloadLength))
        else if fragment.NonFirst? && !b.extensions[|b.extensions| - 1].Fragment?
            then Err(InvalidValue(Field.ExtensionOrder))
        else if MoreFragments(fragment) && (AfterFragment(b.extensions) + |b.payload|) % 8 != 0 then
          Err(InvalidValue(PayloadLength))
        else if total + |b.payload| > 0xffff then Err(LengthExceedsLimit)
        else Ok(total)
  }

  function AnatomyOf(b: Builder): Anatomy
    requires LengthSum(b.extensions) + |b.payload| <= 0xffff
  {
    Anatomy(Fixed(b.trafficClass, b.flowLabel, LengthSum(b.extensions) + |b.payload|, b.hopLimit, b.source,
        b.destination),
            b.extensions, b.upper, b.payload, [])
  }

  lemma {:induction false} LengthSumSnoc(exts: seq<Extension>)
    requires exts != []
    ensures LengthSum(exts) == LengthSum(exts[..|exts| - 1]) + Length(exts[|exts| - 1])
    decreases |exts|
  {
    if |exts| == 1 {
      assert exts[1..] == [] && exts[..0] == [];
    } else {
      LengthSumSnoc(exts[1..]);
      assert exts[1..][..|exts| - 2] == exts[..|exts| - 1][1..];
    }
  }

  /** The running total succeeds exactly on sound headers within the limit. */
  lemma {:induction false} TotalExact(exts: seq<Extension>)
    ensures Total(exts).Ok? <==> AllSound(exts) && LengthSum(exts) <= MAX_EXTENSION_BYTES
    ensures Total(exts).Ok? ==> Total(exts).value == LengthSum(exts)
    decreases |exts|
  {
    hide Fault, Length;
    if exts != [] {
      var init := exts[..|exts| - 1];
      TotalExact(init);
      LengthSumSnoc(exts);
      assert exts == init + [exts[|exts| - 1]];
    }
  }

  lemma {:induction false} AfterFragmentBound(exts: seq<Extension>)
    ensures AfterFragment(exts) <= LengthSum(exts)
    decreases |exts|
  {
    if exts != [] {
      LengthSumSnoc(exts);
      AfterFragmentBound(exts[..|exts| - 1]);
    }
  }

  // ---------------------------------------------------------------------------------------
  // At most one fragment header.

  lemma {:induction false} WatchFragment(ps: seq<Byte>)
    ensures E.FRAGMENT in ps ==> E.Watch(ps).fragment > 0
    decreases |ps|
  {
    if ps != [] {
      WatchFragment(ps[..|ps| - 1]);
      assert ps == ps[..|ps| - 1] + [ps[|ps| - 1]];
    }
  }

  lemma CanonicalPrefix(exts: seq<Extension>)
    requires exts != [] && E.Watch(Protocols(exts)).issues == E.CANONICAL
    ensures E.Watch(Protocols(exts[..|exts| - 1])).issues == E.CANONICAL
    ensures exts[|exts| - 1].Fragment? ==> forall i :: 0 <= i < |exts| - 1 ==> !exts[i].Fragment?
  {
    var n := |exts| - 1;
    var ps := Protocols(exts);
    assert ps[..n] == Protocols(exts[..n]);
    E.IssuesStay(E.Watch(ps[..n]), ps[n], n);
    if exts[n].Fragment? {
      WatchFragment(ps[..n]);
      assert E.DuplicateFragment !in E.Watch(ps).issues;
      forall i | 0 <= i < n ensures !exts[i].Fragment? {
        assert ps[..n][i] == Protocol(exts[i]);
      }
    }
  }

  /** In a canonical chain, a non-first fragment decides the fragment state. */
  lemma {:induction false} EndDecides(exts: seq<Extension>, i: nat)
    requires i < |exts| && Ends(exts[i]) && E.Watch(Protocols(exts)).issues == E.CANONICAL
    ensures FragmentOf(exts).NonFirst? && (exts[|exts| - 1].Fragment? ==> i == |exts| - 1)
    decreases |exts|
  {
    hide E.Watch, Protocols;
    CanonicalPrefix(exts);
    if i < |exts| - 1 { EndDecides(exts[..|exts| - 1], i); }
  }

  /** Where a non-first fragment state comes from. */
  lemma {:induction false} EndSource(exts: seq<Extension>) returns (i: nat)
    requires FragmentOf(exts).NonFirst?
    ensures i < |exts| && Ends(exts[i]) && forall j :: i < j < |exts| ==> !exts[j].Fragment?
    decreases |exts|
  {
    if exts[|exts| - 1].Fragment? {
      i := |exts| - 1;
    } else {
      i := EndSource(exts[..|exts| - 1]);
    }
  }

  // ---------------------------------------------------------------------------------------
  // Build, then parse.

  /** Whether a parser can tell the upper layer from one more extension header. */
  predicate Unambiguous(b: Builder) {
    !E.IsExtension(b.upper) || (b.extensions != [] && Ends(b.extensions[|b.extensions| - 1]))
  }

  lemma ValidReadable(b: Builder)
    requires Validate(b).Ok?
    ensures AllSound(b.extensions) && Validate(b).value == LengthSum(b.extensions) <= MAX_EXTENSION_BYTES
    ensures forall i :: 0 <= i < |b.extensions| - 1 ==> !Ends(b.extensions[i])
  {
    hide E.Watch, Protocols, Total, Sound, LengthSum;
    TotalExact(b.extensions);
    forall i | 0 <= i < |b.extensions| - 1 ensures !Ends(b.extensions[i]) {
      if Ends(b.extensions[i]) { EndDecides(b.extensions, i); }
    }
  }

  lemma BuiltAcceptable(b: Builder)
    requires Addressed(b) && Validate(b).Ok? && Unambiguous(b)
    ensures LengthSum(b.extensions) + |b.payload| <= 0xffff && Acceptable(AnatomyOf(b), Strict)
  {
    hide E.Watch, Protocols, Total, Sound, FragmentOf, AfterFragment;
    ValidReadable(b);
    AfterFragmentBound(b.extensions);
    if b.extensions != [] { SomeBytes(b.extensions); }
  }

  lemma SomeBytes(exts: seq<Extension>)
    requires exts != []
    ensures LengthSum(exts) > 0
  {
  }

  function Build(b: Builder): (s: Bytes)
    requires Addressed(b) && Validate(b).Ok?
  {
    ValidReadable(b);
    Print(AnatomyOf(b))
  }

  /** Every packet the builder accepts parses strictly back to its own fields, extension list and payload,
      with canonical conformance, when its upper layer cannot be taken for an extension. */
  lemma BuildParse(b: Builder)
    requires Addressed(b) && Validate(b).Ok? && Unambiguous(b)
    ensures Parse(Build(b), Strict).Ok?
    ensures var p := Parse(Build(b), Strict).value;
            && p.fixed == Fixed(b.trafficClass, b.flowLabel, LengthSum(b.extensions) + |b.payload|, b.hopLimit,
                b.source, b.destination)
            && p.extensions == b.extensions && p.extensionBytes == LengthSum(b.extensions)
            && p.fragment == FragmentOf(b.extensions) && Terminal(p.upperLayer) == (b.upper, b.payload)
            && p.trailing == [] && p.complete && p.conformance == E.CANONICAL
  {
    hide Acceptable, Print, FragmentOf, AfterFragment, E.Watch, Protocols, Total;
    ValidReadable(b);
    BuiltAcceptable(b);
    ParsePrinted(AnatomyOf(b), Strict);
    TerminalExact(b.upper, b.payload, FragmentOf(b.extensions));
  }

  /** Otherwise the parser reads on into the payload. */
  lemma {:induction false} ChainContinues(exts: seq<Extension>, upper: Byte, rest: Bytes, seen: seq<Extension>,
      bytes: nat)
    requires AllSound(exts) && (forall i :: 0 <= i < |exts| ==> !Ends(exts[i]))
    requires |seen| + |exts| <= MAX_EXTENSION_HEADER_COUNT && bytes + LengthSum(exts) <= MAX_EXTENSION_BYTES
    ensures ParseChain(ChainBytes(exts, upper) + rest, Head(exts, upper), seen, bytes)
            == ParseChain(rest, upper, seen + exts, bytes + LengthSum(exts))
    decreases |exts|
  {
    hide Sound, ParseExtension, ExtensionBytes, Length, Ends, ParseChain;
    if exts == [] {
      assert ChainBytes(exts, upper) + rest == rest && seen + exts == seen;
    } else {
      var e, tail := exts[0], exts[1..];
      var next, left := Head(tail, upper), ChainBytes(tail, upper) + rest;
      assert ChainBytes(exts, upper) + rest == ExtensionBytes(e, next) + left;
      ParseStep(e, next, left, seen, bytes);
      assert seen + [e] + tail == seen + exts;
      ChainContinues(tail, upper, rest, seen + [e], bytes + Length(e));
    }
  }

  /** What strict parsing reads of a built packet. */
  lemma BuiltChain(b: Builder)
    requires Addressed(b) && Validate(b).Ok? && Parse(Build(b), Strict).Ok?
    ensures AllSound(b.extensions)
    ensures var c := ParseChain(ChainBytes(b.extensions, b.upper) + b.payload, Head(b.extensions, b.upper), [], 0);
            c.Ok? && c.value.extensions == Parse(Build(b), Strict).value.extensions
  {
    hide Validate, E.Watch, Protocols, FragmentOf, AfterFragment, Print, FixedAt, Sound, LengthSum, ChainBytes;
    hide ParseChain, ClassifyUpperLayer, Head;
    ValidReadable(b);
    ValidLimits(b);
    var a := AnatomyOf(b);
    PrintParts(a);
    PrintedFixed(a);
  }

  lemma AmbiguousReadsMore(b: Builder)
    requires Addressed(b) && Validate(b).Ok? && !Unambiguous(b) && Parse(Build(b), Strict).Ok?
    ensures |Parse(Build(b), Strict).value.extensions| > |b.extensions|
  {
    hide Validate, Parse, Build, Sound, LengthSum, ChainBytes, ParseChain, Head;
    ValidReadable(b);
    ValidLimits(b);
    BuiltChain(b);
    ChainContinues(b.extensions, b.upper, b.payload, [], 0);
    assert [] + b.extensions == b.extensions;
    var more := ChainRebuilt(b.payload, b.upper, b.extensions, LengthSum(b.extensions));
    ReadsMore(b, more);
  }

  lemma ValidLimits(b: Builder)
    requires Validate(b).Ok?
    ensures |b.extensions| <= MAX_EXTENSION_HEADER_COUNT && b.flowLabel <= 0xf_ffff
    ensures LengthSum(b.extensions) + |b.payload| <= 0xffff
  {
    hide E.Watch, Protocols, FragmentOf, AfterFragment;
    TotalExact(b.extensions);
  }

  /** The round trip holds exactly for unambiguous packets: for any other, strict parsing fails or finds
      more extension headers than were built. */
  lemma BuildParseExact(b: Builder)
    requires Addressed(b) && Validate(b).Ok?
    ensures Unambiguous(b) <==> Parse(Build(b), Strict).Ok? && Parse(Build(b), Strict).value.extensions == b.extensions
    ensures !Unambiguous(b) && Parse(Build(b), Strict).Ok?
        ==> |Parse(Build(b), Strict).value.extensions| > |b.extensions|
  {
    hide Validate, Parse, Build;
    if Unambiguous(b) {
      BuildParse(b);
    } else if Parse(Build(b), Strict).Ok? {
      AmbiguousReadsMore(b);
    }
  }

  const UNSPECIFIED: Bytes := Zeros(16)

  /** An accepted builder that is ambiguous: it names destination options as the upper layer of no bytes. */
  lemma AmbiguousPacket()
    ensures var b := Builder(0, 0, 64, UNSPECIFIED, UNSPECIFIED, [], E.DESTINATION_OPTIONS, []);
            && Addressed(b) && Validate(b).Ok? && !Unambiguous(b)
            && !(Parse(Build(b), Strict).Ok? && Parse(Build(b), Strict).value.extensions == b.extensions)
  {
    hide Parse, Build;
    var b := Builder(0, 0, 64, UNSPECIFIED, UNSPECIFIED, [], E.DESTINATION_OPTIONS, []);
    assert Protocols(b.extensions) == [];
    assert Validate(b) == Ok(0);
    BuildParseExact(b);
  }

  lemma PrintedFixed(a: Anatomy)
    requires WellFormed(a.fixed) && AllSound(a.extensions)
    ensures FixedAt(Print(a)) == a.fixed && Print(a)[6] == Head(a.extensions, a.upper)
  {
    hide ChainBytes, FixedBytes, FixedAt;
    var first, rest := Head(a.extensions, a.upper), ChainBytes(a.extensions, a.upper) + a.payload + a.trailing;
    assert Print(a) == FixedBytes(a.fixed, first) + rest;
    FixedRoundTrip(a.fixed, first, rest);
  }

  lemma ReadsMore(b: Builder, more: seq<Extension>)
    requires ParseChain(b.payload, b.upper, b.extensions, LengthSum(b.extensions)).Ok? && E.IsExtension(b.upper)
    requires var c := ParseChain(b.payload, b.upper, b.extensions, LengthSum(b.extensions)).value;
             c.extensions == b.extensions + more && Readable(more, c.next) && Head(more, c.next) == b.upper
    ensures more != []
  {
  }

  // ---------------------------------------------------------------------------------------
  // Parse, then build.

  /** The builder for what was parsed. */
  function BuilderOf(p: Parsed): Builder {
    var (upper, payload) := Terminal(p.upperLayer);
    Builder(p.fixed.trafficClass, p.fixed.flowLabel, p.fixed.hopLimit, p.fixed.source, p.fixed.destination,
            p.extensions, upper, payload)
  }

  lemma MeaningParts(a: Anatomy)
    ensures Terminal(Meaning(a).upperLayer) == (a.upper, a.payload) && Meaning(a).fragment == FragmentOf(a.extensions)
    ensures Meaning(a).conformance == E.CANONICAL ==>
              && E.Watch(Protocols(a.extensions)).issues == E.CANONICAL
              && (a.upper == 59 && a.payload != [] ==> FragmentOf(a.extensions).NonFirst?)
  {
    hide E.Watch, Protocols, FragmentOf;
    TerminalExact(a.upper, a.payload, FragmentOf(a.extensions));
    var upper := ClassifyUpperLayer(a.upper, a.payload, FragmentOf(a.extensions), true);
    if upper.NoNextHeader? && upper.trailing != [] {
      assert E.NoNextHeaderData in Meaning(a).conformance;
    }
  }

  lemma RebuildValid(a: Anatomy)
    requires Acceptable(a, Strict) && E.Watch(Protocols(a.extensions)).issues == E.CANONICAL
    ensures var b := BuilderOf(Meaning(a));
            Validate(b).Ok? <==> !(a.upper == 59 && a.payload != [])
  {
    hide E.Watch, Protocols, FragmentOf, AfterFragment, Sound, Total;
    MeaningParts(a);
    TotalExact(a.extensions);
    AfterFragmentBound(a.extensions);
    if FragmentOf(a.extensions).NonFirst? { var i := EndSource(a.extensions); }
  }

  /** Every strictly accepted canonical input is rebuilt byte for byte up to its declared end. The one
      exception: a non-first fragment whose next header says there is none but which carries bytes. */
  lemma ParseBuild(input: Bytes)
    requires Parse(input, Strict).Ok? && Parse(input, Strict).value.conformance == E.CANONICAL
    ensures var p := Parse(input, Strict).value;
            var b := BuilderOf(p);
            && Addressed(b)
            && (Validate(b).Ok? <==> !(p.fragment.NonFirst? && b.upper == 59 && b.payload != []))
            && (Validate(b).Ok? ==> 40 + p.fixed.declared <= |input| && Build(b) == input[..40 + p.fixed.declared])
  {
    hide E.Watch, Protocols, FragmentOf, AfterFragment, Sound, Validate, Parse, Readable, ChainBytes, LengthSum,
        FixedBytes;
    var a := PrintParsed(input, Strict);
    MeaningParts(a);
    RebuildValid(a);
    var b := BuilderOf(Meaning(a));
    if Validate(b).Ok? {
      AcceptableSound(a);
      PrintCut(a);
      assert AnatomyOf(b) == a.(trailing := []);
    }
  }

  /** A packet of the excepted family: the second fragment of something without a next header. */
  lemma HeadlessFragment()
    ensures var a := Anatomy(Fixed(0, 0, 9, 64, UNSPECIFIED, UNSPECIFIED), [Fragment(1, false, 0)], 59, [0], []);
            && Acceptable(a, Strict) && Parse(Print(a), Strict) == Ok(Meaning(a))
            && Meaning(a).conformance == E.CANONICAL && Validate(BuilderOf(Meaning(a))).Err?
  {
    hide Parse;
    var a := Anatomy(Fixed(0, 0, 9, 64, UNSPECIFIED, UNSPECIFIED), [Fragment(1, false, 0)], 59, [0], []);
    assert a.extensions[1..] == [] && a.extensions[..0] == [];
    assert LengthSum(a.extensions) == 8;
    ParsePrinted(a, Strict);
    var ps := Protocols(a.extensions);
    assert ps == [E.FRAGMENT] && ps[..0] == [];
    assert E.Watch(ps).issues == E.CANONICAL;
    RebuildValid(a);
    MeaningParts(a);
  }

  lemma PrintCut(a: Anatomy)
    requires WellFormed(a.fixed) && AllSound(a.extensions) && Whole(a)
    ensures 40 + a.fixed.declared <= |Print(a)| && Print(a.(trailing := [])) == Print(a)[..40 + a.fixed.declared]
  {
    hide ChainBytes, FixedBytes, LengthSum;
  }

  // ---------------------------------------------------------------------------------------
  // Truncation.

  function Cut(a: Anatomy, k: nat): Anatomy
    requires IPV6_HEADER_LENGTH + LengthSum(a.extensions) <= k
  {
    var end := IPV6_HEADER_LENGTH + LengthSum(a.extensions) + |a.payload|;
    if k < end then a.(payload := a.payload[..k - IPV6_HEADER_LENGTH - LengthSum(a.extensions)], trailing := [])
    else a.(trailing := a.trailing[..Min(k - end, |a.trailing|)])
  }

  lemma CutPrint(a: Anatomy, k: nat)
    requires WellFormed(a.fixed) && AllSound(a.extensions)
    requires IPV6_HEADER_LENGTH + LengthSum(a.extensions) <= k <= |Print(a)|
    ensures Print(Cut(a, k)) == Print(a)[..k]
  {
    hide ChainBytes, FixedBytes, LengthSum;
  }

  lemma CutAcceptable(a: Anatomy, k: nat)
    requires Acceptable(a, Strict) && IPV6_HEADER_LENGTH + LengthSum(a.extensions) <= k
    ensures Acceptable(Cut(a, k), CompatibleIcmpQuote)
  {
    hide FragmentOf, AfterFragment, Readable, LengthSum;
  }

  /** `q` has every header, extension and fragment field of `p`, and its upper-layer bytes are the prefix of
      those of `p` within the first `k` bytes. */
  predicate CutOff(p: Parsed, q: Parsed, k: nat)
    requires IPV6_HEADER_LENGTH + p.extensionBytes <= k
  {
    var (protocol, payload) := Terminal(p.upperLayer);
    && q.fixed == p.fixed && q.firstNextHeader == p.firstNextHeader && q.extensions == p.extensions
    && q.extensionBytes == p.extensionBytes && q.fragment == p.fragment
    && Terminal(q.upperLayer) == (protocol, payload[..Min(k - IPV6_HEADER_LENGTH - p.extensionBytes, |payload|)])
    && q.complete == (k >= IPV6_HEADER_LENGTH + p.fixed.declared)
  }

  lemma CutMeaning(a: Anatomy, k: nat)
    requires Acceptable(a, Strict) && IPV6_HEADER_LENGTH + LengthSum(a.extensions) <= k
    ensures CutOff(Meaning(a), Meaning(Cut(a, k)), k)
  {
    hide FragmentOf, LengthSum, E.Watch, Protocols, ClassifyUpperLayer, Terminal, Readable, AfterFragment;
    MeaningParts(a);
    MeaningParts(Cut(a, k));
    assert a.payload[..|a.payload|] == a.payload;
  }

  /** Cutting a strictly valid packet anywhere after its headers loses nothing but upper-layer bytes. */
  lemma Truncation(input: Bytes, k: nat)
    requires Parse(input, Strict).Ok? && IPV6_HEADER_LENGTH + Parse(input, Strict).value.extensionBytes <= k <= |input|
    ensures Parse(input[..k], CompatibleIcmpQuote).Ok?
    ensures CutOff(Parse(input, Strict).value, Parse(input[..k], CompatibleIcmpQuote).value, k)
  {
    hide Acceptable, Print, Parse, LengthSum, CutOff, Cut;
    var a := PrintParsed(input, Strict);
    AcceptableSound(a);
    CutPrint(a, k);
    CutAcceptable(a, k);
    ParsePrinted(Cut(a, k), CompatibleIcmpQuote);
    CutMeaning(a, k);
  }

  lemma AcceptableSound(a: Anatomy)
    requires Acceptable(a, Strict)
    ensures WellFormed(a.fixed) && AllSound(a.extensions)
  {
  }
}
