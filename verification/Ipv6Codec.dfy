/** The loops and buffer writes of the IPv6 codec, against its specification
    (crates/nodenet-protocols/src/ipv6.rs). */
module Ipv6Codec {
  import opened Wire
  import opened Packet
  import opened Buffers
  import opened Ipv6
  import opened Ipv6Packet
  import opened Ipv6Builder
  import E = ExtensionOrder

  // ---------------------------------------------------------------------------------------
  // The parser.

  /** The chain function at a cursor. */
  lemma ChainAt(available: Bytes, cursor: nat, protocol: Byte, seen: seq<Extension>, bytes: nat)
    requires cursor <= |available| && E.IsExtension(protocol) && |seen| < MAX_EXTENSION_HEADER_COUNT
    ensures var left := available[cursor..];
            match ParseExtension(protocol, left)
            case Err(e) => ParseChain(left, protocol, seen, bytes) == Err(e)
            case Ok(p) =>
              && cursor + p.length <= |available|
              && (bytes + p.length > MAX_EXTENSION_BYTES
                  ==> ParseChain(left, protocol, seen, bytes) == Err(LimitExceeded))
              && (bytes + p.length <= MAX_EXTENSION_BYTES ==>
                    ParseChain(left, protocol, seen, bytes)
                    == if Ends(p.extension) then
                         Ok(Chain(seen + [p.extension], p.next, bytes + p.length, available[cursor + p.length..]))
                       else ParseChain(available[cursor + p.length..], p.next, seen + [p.extension], bytes + p.length))
  {
    hide ParseExtension, Ends;
    var left := available[cursor..];
    if ParseExtension(protocol, left).Ok? {
      ExtensionRebuilt(protocol, left);
      var p := ParseExtension(protocol, left).value;
      assert left[p.length..] == available[cursor + p.length..];
    }
  }

  lemma FragmentSnoc(seen: seq<Extension>, e: Extension)
    ensures FragmentOf(seen + [e]) == if e.Fragment?
        then (if e.offsetUnits == 0 then First(e.moreFragments) else NonFirst(e.offsetUnits, e.moreFragments))
                                      else FragmentOf(seen)
    ensures AfterFragment(seen + [e]) == if e.Fragment? then 0 else AfterFragment(seen) + Length(e)
  {
    assert (seen + [e])[..|seen|] == seen;
  }

  lemma WatchSnoc(seen: seq<Extension>, e: Extension)
    ensures E.Watch(Protocols(seen + [e])) == E.Observe(E.Watch(Protocols(seen)), Protocol(e), |seen|)
  {
    var ps := Protocols(seen + [e]);
    assert ps[..|seen|] == Protocols(seen);
  }

  /** What the loop has found: the chain, and the three things it keeps track of on the way. */
  datatype Walk = Walk(chain: Chain, fragment: FragmentState, fragmentStart: Option<nat>, issues: E.Issues)

  /** The extension loop, with its cursor into the bytes that are present. */
  method WalkChain(available: Bytes, first: Byte) returns (r: Result<Walk, ParseError>)
    ensures match ParseChain(available, first, [], 0)
            case Err(e) => r == Err(e)
            case Ok(c) =>
              && r.Ok? && r.value.chain == c
              && r.value.fragment == FragmentOf(c.extensions)
              && r.value.issues == E.Watch(Protocols(c.extensions)).issues
              && (r.value.fragment.Unfragmented? <==> r.value.fragmentStart.None?)
              && (r.value.fragmentStart.Some?
                  ==> r.value.fragmentStart.value == IPV6_HEADER_LENGTH + c.bytes - AfterFragment(c.extensions))
  {
    hide ParseExtension, ParseChain, FragmentOf, AfterFragment, E.Watch, E.Observe, Protocols;
    var cursor: nat, next, bytes: nat := 0, first, 0;
    var seen: seq<Extension> := [];
    var fragment, fragmentStart: Option<nat> := Unfragmented, None;
    var order := new E.OrderWatcher();
    WatchNothing();
    assert available[0..] == available;
    while E.IsExtension(next)
      invariant cursor == bytes <= |available| && |seen| <= MAX_EXTENSION_HEADER_COUNT
      invariant ParseChain(available[cursor..], next, seen, bytes) == ParseChain(available, first, [], 0)
      invariant order.State() == E.Watch(Protocols(seen)) && fragment == FragmentOf(seen)
      invariant fragment.Unfragmented? <==> fragmentStart.None?
      invariant fragmentStart.Some? ==> fragmentStart.value == IPV6_HEADER_LENGTH + bytes - AfterFragment(seen)
      decreases |available| - cursor
    {
      if |seen| == MAX_EXTENSION_HEADER_COUNT {
        ChainFull(available[cursor..], next, seen, bytes);
        return Err(LimitExceeded);
      }
      order.ObserveHeader(next, |seen|);
      ChainAt(available, cursor, next, seen, bytes);
      var parsed := ParseExtension(next, available[cursor..]);
      if parsed.Err? { return Err(parsed.error); }
      var p := parsed.value;
      if bytes + p.length > MAX_EXTENSION_BYTES { return Err(LimitExceeded); }
      ExtensionRebuilt(next, available[cursor..]);
      WatchSnoc(seen, p.extension);
      FragmentSnoc(seen, p.extension);
      bytes := bytes + p.length;
      seen := seen + [p.extension];
      cursor := cursor + p.length;
      next := p.next;
      if p.extension.Fragment? {
        fragmentStart := Some(IPV6_HEADER_LENGTH + cursor);
        fragment := if p.extension.offsetUnits == 0 then First(p.extension.moreFragments)
                    else NonFirst(p.extension.offsetUnits, p.extension.moreFragments);
        if p.extension.offsetUnits != 0 {
          return Ok(Walk(Chain(seen, next, bytes, available[cursor..]), fragment, fragmentStart, order.issues));
        }
      }
    }
    ChainStops(available[cursor..], next, seen, bytes);
    r := Ok(Walk(Chain(seen, next, bytes, available[cursor..]), fragment, fragmentStart, order.issues));
  }

  lemma WatchNothing()
    ensures E.Watch(Protocols([])) == E.START && FragmentOf([]) == Unfragmented && AfterFragment([]) == 0
  {
  }

  lemma ChainFull(left: Bytes, next: Byte, seen: seq<Extension>, bytes: nat)
    requires E.IsExtension(next) && |seen| == MAX_EXTENSION_HEADER_COUNT
    ensures ParseChain(left, next, seen, bytes) == Err(LimitExceeded)
  {
  }

  /** `parse_ipv6_packet`. */
  method ParsePacket(input: Bytes, mode: ParseMode) returns (r: Result<Parsed, ParseError>)
    ensures r == Parse(input, mode)
  {
    hide ParseChain, FragmentOf, AfterFragment, E.Watch, Protocols, FixedAt, ClassifyUpperLayer;
    if |input| > MAX_IP_PACKET_LENGTH { return Err(LimitExceeded); }
    if |input| < IPV6_HEADER_LENGTH { return Err(Truncated); }
    if input[0] / 16 != 6 { return Err(Malformed(Version)); }
    var f := FixedAt(input);
    if f.declared == 0 && input[6] == E.HOP_BY_HOP { return Err(Unsupported(PayloadLength)); }
    var declaredEnd := IPV6_HEADER_LENGTH + f.declared;
    var complete := |input| >= declaredEnd;
    if !complete && mode == Strict { return Err(Truncated); }
    var walked := WalkChain(input[IPV6_HEADER_LENGTH..Min(|input|, declaredEnd)], input[6]);
    if walked.Err? { return Err(walked.error); }
    var w := walked.value;
    if MoreFragments(w.fragment) && (declaredEnd - w.fragmentStart.value) % 8 != 0 {
      return Err(Malformed(PayloadLength));
    }
    var conformance := w.issues;
    var upper := ClassifyUpperLayer(w.chain.next, w.chain.rest, w.fragment, true);
    if upper.NoNextHeader? && upper.trailing != [] { conformance := conformance + {E.NoNextHeaderData}; }
    var trailing := if complete then input[declaredEnd..] else [];
    r := Ok(Parsed(f, input[6], w.chain.extensions, w.chain.bytes, w.fragment, upper, trailing, complete, conformance));
  }

  // ---------------------------------------------------------------------------------------
  // The builder.

  /** What one pass over the extensions finds out. */
  datatype Survey = Survey(bytes: nat, before: nat, fragment: FragmentState, last: Option<nat>, issues: E.Issues)

  ghost predicate Surveyed(exts: seq<Extension>, s: Survey) {
    && s.fragment == FragmentOf(exts) && s.bytes - s.before == AfterFragment(exts)
    && (s.fragment.Unfragmented? <==> s.last.None?)
    && (s.last.Some? ==> s.last.value < |exts| && (exts[|exts| - 1].Fragment? <==> s.last.value == |exts| - 1))
  }

  lemma SurveySnoc(exts: seq<Extension>, s: Survey, e: Extension)
    requires Surveyed(exts, s)
    ensures var bytes := s.bytes + Length(e);
            Surveyed(exts + [e],
                     if e.Fragment? then
                       Survey(bytes, bytes,
                              if e.offsetUnits == 0 then First(e.moreFragments)
                              else NonFirst(e.offsetUnits, e.moreFragments),
                              Some(|exts|), s.issues)
                     else s.(bytes := bytes))
  {
    hide FragmentOf, AfterFragment;
    FragmentSnoc(exts, e);
  }

  method SurveyExtensions(exts: seq<Extension>) returns (r: Result<Survey, BuildError>)
    ensures match Total(exts)
            case Err(e) => r == Err(e)
            case Ok(t) =>
                r.Ok? && r.value.bytes == t && Surveyed(exts, r.value)
                && r.value.issues == E.Watch(Protocols(exts)).issues
  {
    hide Fault, Length, E.Watch, E.Observe, Protocols, Surveyed, Total;
    var order := new E.OrderWatcher();
    var s := Survey(0, 0, Unfragmented, None, E.CANONICAL);
    SurveyStart(s);
    assert exts[..0] == [];
    for i := 0 to |exts|
      invariant Total(exts[..i]) == Ok(s.bytes) && Surveyed(exts[..i], s)
      invariant order.State() == E.Watch(Protocols(exts[..i]))
    {
      var e := exts[i];
      assert exts[..i + 1] == exts[..i] + [e];
      WatchSnoc(exts[..i], e);
      SurveySnoc(exts[..i], s, e);
      TotalStops(exts, i);
      order.ObserveHeader(Protocol(e), i);
      if Fault(e).Some? { return Err(InvalidValue(Fault(e).value)); }
      var bytes := s.bytes + Length(e);
      if bytes > MAX_EXTENSION_BYTES { return Err(InvalidValue(ExtensionLength)); }
      if e.Fragment? {
        var fragment := if e.offsetUnits == 0 then First(e.moreFragments) else NonFirst(e.offsetUnits, e.moreFragments);
        s := Survey(bytes, bytes, fragment, Some(i), s.issues);
      } else {
        s := s.(bytes := bytes);
      }
    }
    assert exts[..|exts|] == exts;
    SurveyIssues(exts, s, order.issues);
    r := Ok(s.(issues := order.issues));
  }

  lemma SurveyStart(s: Survey)
    requires s == Survey(0, 0, Unfragmented, None, E.CANONICAL)
    ensures Surveyed([], s) && Total([]) == Ok(0) && E.Watch(Protocols([])) == E.START
  {
    hide FragmentOf, AfterFragment, E.Watch, Protocols;
    WatchNothing();
  }

  lemma SurveyIssues(exts: seq<Extension>, s: Survey, issues: E.Issues)
    requires Surveyed(exts, s)
    ensures Surveyed(exts, s.(issues := issues))
  {
  }

  /** `validate`: one pass over the extensions, then the checks on the whole. */
  method ValidatePacket(b: Builder) returns (r: Result<nat, BuildError>)
    ensures r == Validate(b)
  {
    hide FragmentOf, AfterFragment, E.Watch, Protocols, Total;
    if b.flowLabel > 0xf_ffff { return Err(InvalidValue(FlowLabel)); }
    if |b.extensions| > MAX_EXTENSION_HEADER_COUNT { return Err(InvalidValue(ExtensionLength)); }
    var surveyed := SurveyExtensions(b.extensions);
    if surveyed.Err? { return Err(surveyed.error); }
    var s := surveyed.value;
    if s.issues != E.CANONICAL { return Err(InvalidValue(Field.ExtensionOrder)); }
    if b.upper == 59 && b.payload != [] { return Err(InvalidValue(PayloadLength)); }
    if s.last.Some? {
      if s.fragment.NonFirst? && s.last.value + 1 != |b.extensions| { return Err(InvalidValue(Field.ExtensionOrder)); }
      if MoreFragments(s.fragment) && (s.bytes - s.before + |b.payload|) % 8 != 0 {
        return Err(InvalidValue(PayloadLength));
      }
    }
    if s.bytes + |b.payload| > 0xffff { return Err(LengthExceedsLimit); }
    r := Ok(s.bytes);
  }

  /** An error in a prefix is the error of the whole. */
  lemma {:induction false} TotalStops(exts: seq<Extension>, i: nat)
    requires i < |exts| && Total(exts[..i]).Ok?
    ensures var t := Total(exts[..i]).value;
            && (Fault(exts[i]).Some? ==> Total(exts) == Err(InvalidValue(Fault(exts[i]).value)))
            && (Fault(exts[i]).None? && t + Length(exts[i]) > MAX_EXTENSION_BYTES
                ==> Total(exts) == Err(InvalidValue(ExtensionLength)))
            && (Fault(exts[i]).None? && t + Length(exts[i]) <= MAX_EXTENSION_BYTES
                ==> Total(exts[..i + 1]) == Ok(t + Length(exts[i])))
    decreases |exts|
  {
    hide Fault, Length;
    assert exts[..i + 1][..i] == exts[..i];
    if i == |exts| - 1 {
      assert exts[..i + 1] == exts;
    } else {
      var init := exts[..|exts| - 1];
      assert init[..i] == exts[..i];
      TotalStops(init, i);
    }
  }

  /** Leading bytes, then a body. */
  method PutTwo(output: array<Byte>, offset: nat, start: Bytes, body: Bytes, ghost original: Bytes, ghost done: Bytes)
    requires Written(output, original, done) && offset == |done| && offset + |start| + |body| <= output.Length
    modifies output
    ensures Written(output, original, done + (start + body))
  {
    hide Written;
    PutNext(output, offset, start, original, done);
    PutNext(output, offset + |start|, body, original, done + start);
    assert done + start + body == done + (start + body);
  }

  method WriteFragment(e: Extension, next: Byte, output: array<Byte>, offset: nat, ghost original: Bytes,
      ghost done: Bytes)
    requires e.Fragment? && Sound(e) && Written(output, original, done) && offset == |done|
        && offset + 8 <= output.Length
    modifies output
    ensures Written(output, original, done + ExtensionBytes(e, next))
  {
    hide Written, Be16, Be32, FragmentField;
    var start: Bytes, field := [next, 0], Be16(FragmentField(e.offsetUnits, e.moreFragments));
    PutTwo(output, offset, start, field, original, done);
    PutNext(output, offset + 4, Be32(e.identification), original, done + (start + field));
    assert done + (start + field) + Be32(e.identification) == done + ExtensionBytes(e, next);
  }

  method WriteAuthentication(e: Extension, next: Byte, output: array<Byte>, offset: nat, ghost original: Bytes,
      ghost done: Bytes)
    requires e.Authentication? && Sound(e) && Written(output, original, done) && offset == |done|
    requires offset + Length(e) <= output.Length
    modifies output
    ensures Written(output, original, done + ExtensionBytes(e, next))
  {
    hide Written, Be32;
    var start: Bytes, spi := [next, Length(e) / 4 - 2, 0, 0], Be32(e.securityParametersIndex);
    var sequence, data := Be32(e.sequenceNumber), e.authenticationData;
    PutTwo(output, offset, start, spi, original, done);
    PutTwo(output, offset + 8, sequence, data, original, done + (start + spi));
    assert done + (start + spi) + (sequence + data) == done + ExtensionBytes(e, next);
  }

  /** `encode_extension`. */
  method WriteExtension(e: Extension, next: Byte, output: array<Byte>, offset: nat, ghost original: Bytes,
      ghost done: Bytes)
    returns (length: nat)
    requires Sound(e) && Written(output, original, done) && offset == |done| && offset + Length(e) <= output.Length
    modifies output
    ensures length == Length(e) && Written(output, original, done + ExtensionBytes(e, next))
  {
    hide Written, OptionsValid, Be16, Be32, FragmentField;
    length := Length(e);
    match e {
      case HopByHopOptions(options) => PutTwo(output, offset, [next, length / 8 - 1], options, original, done);
      case DestinationOptions(options) => PutTwo(output, offset, [next, length / 8 - 1], options, original, done);
      case Routing(routingType, segmentsLeft, data) =>
        PutTwo(output, offset, [next, length / 8 - 1, routingType, segmentsLeft], data, original, done);
      case Fragment(_, _, _) => WriteFragment(e, next, output, offset, original, done);
      case Authentication(_, _, _) => WriteAuthentication(e, next, output, offset, original, done);
    }
  }

  /** The fixed header, field by field. */
  method WriteFixed(f: Fixed, first: Byte, output: array<Byte>, ghost original: Bytes)
    requires WellFormed(f) && Written(output, original, []) && IPV6_HEADER_LENGTH <= output.Length
    modifies output
    ensures Written(output, original, FixedBytes(f, first))
  {
    hide Written, Be16, Be32, FirstWord;
    var word, declared := Be32(FirstWord(f.trafficClass, f.flowLabel)), Be16(f.declared);
    PutNext(output, 0, word, original, []);
    PutNext(output, 4, declared, original, [] + word);
    PutNext(output, 6, [first, f.hopLimit], original, [] + word + declared);
    PutNext(output, 8, f.source, original, [] + word + declared + [first, f.hopLimit]);
    PutNext(output, 24, f.destination, original, [] + word + declared + [first, f.hopLimit] + f.source);
    assert [] + word + declared + [first, f.hopLimit] + f.source + f.destination == FixedBytes(f, first);
  }

  /** Every extension, each naming the header behind it. */
  method WriteChain(exts: seq<Extension>, upper: Byte, output: array<Byte>, offset: nat, ghost original: Bytes,
      ghost done: Bytes)
    returns (end: nat)
    requires AllSound(exts) && Written(output, original, done) && offset == |done|
    requires offset + LengthSum(exts) <= output.Length
    modifies output
    ensures end == offset + LengthSum(exts) && Written(output, original, done + ChainBytes(exts, upper))
  {
    hide Written, ExtensionBytes, Sound, Length;
    end := offset;
    ghost var written: Bytes := [];
    assert exts[0..] == exts && done + written == done;
    for i := 0 to |exts|
      invariant Written(output, original, done + written) && end == offset + |written|
      invariant written + ChainBytes(exts[i..], upper) == ChainBytes(exts, upper)
    {
      var e, tail := exts[i], exts[i + 1..];
      assert exts[i..][0] == e && exts[i..][1..] == tail;
      var next := Head(tail, upper);
      var length := WriteExtension(e, next, output, end, original, done + written);
      assert done + written + ExtensionBytes(e, next) == done + (written + ExtensionBytes(e, next));
      written := written + ExtensionBytes(e, next);
      end := end + length;
    }
    assert written == ChainBytes(exts, upper);
  }

  /** `encode_ipv6`, given a validated packet and room for it. */
  method Encode(b: Builder, output: array<Byte>, ghost original: Bytes)
    requires Addressed(b) && Validate(b).Ok? && Written(output, original, []) && |Build(b)| <= output.Length
    modifies output
    ensures Written(output, original, Build(b))
  {
    hide Written, Validate, FixedBytes, ChainBytes, LengthSum, Sound;
    ValidReadable(b);
    ValidLimits(b);
    PrintParts(AnatomyOf(b));
    var total := SumLengths(b.extensions);
    var f := Fixed(b.trafficClass, b.flowLabel, total + |b.payload|, b.hopLimit, b.source, b.destination);
    var first := Head(b.extensions, b.upper);
    WriteFixed(f, first, output, original);
    ghost var start, chain := FixedBytes(f, first), ChainBytes(b.extensions, b.upper);
    var offset := WriteChain(b.extensions, b.upper, output, IPV6_HEADER_LENGTH, original, start);
    PutNext(output, offset, b.payload, original, start + chain);
    assert start + chain + b.payload == Build(b);
  }

  method SumLengths(exts: seq<Extension>) returns (total: nat)
    ensures total == LengthSum(exts)
  {
    total := 0;
    assert exts[..0] == [];
    for i := 0 to |exts|
      invariant total == LengthSum(exts[..i])
    {
      LengthSumSnoc(exts[..i + 1]);
      assert exts[..i + 1][..i] == exts[..i];
      total := total + Length(exts[i]);
    }
    assert exts[..|exts|] == exts;
  }

  /** `write_into`: the packet and nothing else, or an error and nothing at all. */
  method WriteInto(b: Builder, output: array<Byte>) returns (r: Result<nat, BuildError>)
    requires Addressed(b)
    modifies output
    ensures r.Err? ==> output[..] == old(output[..])
    ensures Validate(b).Err? ==> r == Err(Validate(b).error)
    ensures Validate(b).Ok? ==> (r.Ok? <==> |Build(b)| <= output.Length)
    ensures Validate(b).Ok? && r.Err? ==> r.error == BufferTooSmall(|Build(b)|, output.Length)
    ensures r.Ok? ==> r.value == |Build(b)| && output[..] == Build(b) + old(output[..])[r.value..]
  {
    hide Validate, Print, LengthSum;
    var validated := ValidatePacket(b);
    if validated.Err? { return Err(validated.error); }
    ValidReadable(b);
    ValidLimits(b);
    PrintParts(AnatomyOf(b));
    var required := IPV6_HEADER_LENGTH + validated.value + |b.payload|;
    if output.Length < required { return Err(BufferTooSmall(required, output.Length)); }
    Encode(b, output, output[..]);
    r := Ok(required);
  }
}
