/** Validation of route-netlink attribute trees (crates/nodenet-linux-context/src/preflight.rs),
    proved against a printer for attribute forests. */
module Preflight {
  import opened Wire
  import opened SnapshotErrors

  datatype DumpKind = Link | Address | Route | Rule | Neighbor

  const NETLINK_HEADER_LENGTH: nat := 16
  const MAX_ATTRIBUTES_PER_MESSAGE: nat := 256
  const MAX_NESTED_ATTRIBUTE_DEPTH: nat := 8
  const MAX_STRING_ATTRIBUTE_BYTES: nat := 256
  const MAX_MULTIPATH_NEXT_HOPS: nat := 64

  function ResponseType(kind: DumpKind): U16 {
    match kind
    case Link => 16
    case Address => 20
    case Route => 24
    case Neighbor => 28
    case Rule => 32
  }

  function FromNotificationType(messageType: U16): Option<DumpKind> {
    match messageType
    case 16 => Some(Link)
    case 17 => Some(Link)
    case 20 => Some(Address)
    case 21 => Some(Address)
    case 24 => Some(Route)
    case 25 => Some(Route)
    case 28 => Some(Neighbor)
    case 29 => Some(Neighbor)
    case 32 => Some(Rule)
    case 33 => Some(Rule)
    case _ => None
  }

  function FixedHeaderLength(kind: DumpKind): nat {
    match kind
    case Link => 16
    case Address => 8
    case _ => 12
  }

  predicate IsStringAttribute(message: DumpKind, kind: U16) {
    match message
    case Link => kind in {3, 6, 20, 38, 56, 57}
    case Address => kind == 3
    case Rule => kind == 3 || kind == 17
    case Route => false
    case Neighbor => false
  }

  /** The two top bits of the raw type are flags; bit 15 marks a nested value. */
  function TypeOf(raw: U16): U16 { raw % 0x4000 }

  predicate NestedFlag(raw: U16) { raw >= 0x8000 }

  predicate IsMultipath(message: DumpKind, raw: U16) { message == Route && TypeOf(raw) == 9 }

  predicate IsNested(message: DumpKind, raw: U16) {
    !IsMultipath(message, raw) && (NestedFlag(raw) || (message == Route && TypeOf(raw) == 8))
  }

  // ---------------------------------------------------------------------------------------
  // Reference: attribute forests and their wire form.

  /** A sequence of attributes, each with its alignment padding. */
  datatype Forest = Empty | Attribute(length: U16, raw: U16, body: Body, padding: Bytes, rest: Forest)

  datatype Body = Opaque(value: Bytes) | Nest(children: Forest) | Paths(hops: Hops)

  /** Next hops of a multipath route: six bytes of fixed fields follow each length. */
  datatype Hops = NoHops | Hop(length: U16, fields: Bytes, children: Forest, padding: Bytes, rest: Hops)

  function Ne16(v: U16): (b: Bytes)
    ensures |b| == 2 && NativeU16At(b, 0) == v
  {
    var b := [v % 0x100, v / 0x100];
    assert b[0..2] == b;
    LittlePair(b);
    b
  }

  function PrintBody(b: Body): Bytes {
    match b
    case Opaque(value) => value
    case Nest(children) => Print(children)
    case Paths(hops) => PrintHops(hops)
  }

  function Print(f: Forest): Bytes {
    match f
    case Empty => []
    case Attribute(length, raw, body, padding, rest) =>
      Ne16(length) + Ne16(raw) + PrintBody(body) + padding + Print(rest)
  }

  function PrintHops(h: Hops): Bytes {
    match h
    case NoHops => []
    case Hop(length, fields, children, padding, rest) =>
      Ne16(length) + fields + Print(children) + padding + PrintHops(rest)
  }

  /** Every value has the form its type calls for, fits its 16-bit length and is padded to four bytes. */
  predicate WellTyped(f: Forest, message: DumpKind)
    decreases f
  {
    match f
    case Empty => true
    case Attribute(length, raw, body, padding, rest) =>
      && BodyTyped(raw, body, message)
      && length == 4 + |PrintBody(body)|
      && |padding| == Align4(length) - length
      && WellTyped(rest, message)
  }

  predicate BodyTyped(raw: U16, body: Body, message: DumpKind)
    decreases body
  {
    match body
    case Opaque(_) => !IsMultipath(message, raw) && !IsNested(message, raw)
    case Nest(children) => IsNested(message, raw) && WellTyped(children, message)
    case Paths(hops) => IsMultipath(message, raw) && HopsTyped(hops)
  }

  predicate HopsTyped(h: Hops)
    decreases h
  {
    match h
    case NoHops => true
    case Hop(length, fields, children, padding, rest) =>
      && |fields| == 6
      && WellTyped(children, Route)
      && length == 8 + |Print(children)|
      && |padding| == Align4(length) - length
      && HopsTyped(rest)
  }

  /** Number of attributes in a forest, at every level. */
  function Size(f: Forest): nat {
    match f
    case Empty => 0
    case Attribute(_, _, body, _, rest) => 1 + BodySize(body) + Size(rest)
  }

  function BodySize(b: Body): nat {
    match b
    case Opaque(_) => 0
    case Nest(children) => Size(children)
    case Paths(hops) => HopsSize(hops)
  }

  function HopsSize(h: Hops): nat {
    match h
    case NoHops => 0
    case Hop(_, _, children, _, rest) => Size(children) + HopsSize(rest)
  }

  function HopCount(h: Hops): nat {
    match h
    case NoHops => 0
    case Hop(_, _, _, _, rest) => 1 + HopCount(rest)
  }

  /** Depth, string and next-hop ceilings, for a forest whose attributes sit at level `depth`. */
  predicate WithinLimits(f: Forest, message: DumpKind, depth: nat)
    decreases f
  {
    && depth <= MAX_NESTED_ATTRIBUTE_DEPTH
    && match f
       case Empty => true
       case Attribute(_, raw, body, _, rest) =>
         && (IsStringAttribute(message, TypeOf(raw)) ==> |PrintBody(body)| <= MAX_STRING_ATTRIBUTE_BYTES)
         && BodyWithin(body, message, depth)
         && WithinLimits(rest, message, depth)
  }

  predicate BodyWithin(b: Body, message: DumpKind, depth: nat)
    decreases b
  {
    match b
    case Opaque(_) => true
    case Nest(children) => WithinLimits(children, message, depth + 1)
    case Paths(hops) => HopCount(hops) <= MAX_MULTIPATH_NEXT_HOPS && HopsWithin(hops, depth + 1)
  }

  predicate HopsWithin(h: Hops, depth: nat)
    decreases h
  {
    match h
    case NoHops => true
    case Hop(_, _, children, _, rest) => WithinLimits(children, Route, depth) && HopsWithin(rest, depth)
  }

  // ---------------------------------------------------------------------------------------
  // The validator as a function on what is left of the input.

  /** Outcome of `validate_attributes`: the advanced attribute counter or the failure. */
  function Attributes(input: Bytes, message: DumpKind, depth: nat, count: nat): (r: Result<nat, SnapshotError>)
    ensures r.Err? ==> r.error.Decode? || r.error.LimitExceeded?
    decreases |input|, 2
  {
    if depth > MAX_NESTED_ATTRIBUTE_DEPTH then
      Err(LimitExceeded(AttributeDepth, depth, MAX_NESTED_ATTRIBUTE_DEPTH))
    else
      AttributeList(input, message, depth, count)
  }

  function AttributeList(input: Bytes, message: DumpKind, depth: nat, count: nat): (r: Result<nat, SnapshotError>)
    ensures r.Err? ==> r.error.Decode? || r.error.LimitExceeded?
    decreases |input|, 1
  {
    if input == [] then Ok(count)
    else if |input| < 4 then Err(Decode)
    else
      var length := NativeU16At(input, 0);
      if length < 4 || length > |input| then Err(Decode)
      else if count + 1 > MAX_ATTRIBUTES_PER_MESSAGE then
        Err(LimitExceeded(MessageAttributes, count + 1, MAX_ATTRIBUTES_PER_MESSAGE))
      else
        var raw := NativeU16At(input, 2);
        var value := input[4..length];
        if IsStringAttribute(message, TypeOf(raw)) && |value| > MAX_STRING_ATTRIBUTE_BYTES then
          Err(LimitExceeded(StringBytes, |value|, MAX_STRING_ATTRIBUTE_BYTES))
        else
          match AttributeValue(value, raw, message, depth, count + 1)
          case Err(e) => Err(e)
          case Ok(counted) =>
            if Align4(length) > |input| then Err(Decode)
            else AttributeList(input[Align4(length)..], message, depth, counted)
  }

  function AttributeValue(value: Bytes, raw: U16, message: DumpKind, depth: nat, count: nat)
    : (r: Result<nat, SnapshotError>)
    ensures r.Err? ==> r.error.Decode? || r.error.LimitExceeded?
    decreases |value|, 3
  {
    if IsMultipath(message, raw) then MultipathList(value, depth + 1, count, 0)
    else if IsNested(message, raw) then Attributes(value, message, depth + 1, count)
    else Ok(count)
  }

  function MultipathList(input: Bytes, depth: nat, count: nat, hops: nat): (r: Result<nat, SnapshotError>)
    ensures r.Err? ==> r.error.Decode? || r.error.LimitExceeded?
    decreases |input|, 0
  {
    if input == [] then Ok(count)
    else if |input| < 8 then Err(Decode)
    else
      var length := NativeU16At(input, 0);
      if length < 8 || length > |input| then Err(Decode)
      else if hops + 1 > MAX_MULTIPATH_NEXT_HOPS then
        Err(LimitExceeded(MultipathNextHops, hops + 1, MAX_MULTIPATH_NEXT_HOPS))
      else
        match Attributes(input[8..length], Route, depth, count)
        case Err(e) => Err(e)
        case Ok(counted) =>
          if Align4(length) > |input| then Err(Decode)
          else MultipathList(input[Align4(length)..], depth, counted, hops + 1)
  }

  /** `validate_inner_message`. */
  function InnerMessage(message: Bytes, kind: DumpKind): (r: Result<nat, SnapshotError>)
    ensures r.Err? ==> r.error.Decode? || r.error.LimitExceeded?
  {
    var offset := NETLINK_HEADER_LENGTH + FixedHeaderLength(kind);
    if |message| < offset then Err(Decode)
    else Attributes(message[offset..], kind, 0, 0)
  }

  // ---------------------------------------------------------------------------------------
  // Exactness: the validator accepts the printed forests within its limits and nothing else.

  /** `f` is an attribute forest of this message kind, within every ceiling, that prints as `input`. */
  predicate Describes(f: Forest, input: Bytes, message: DumpKind, depth: nat, count: nat) {
    Print(f) == input && WellTyped(f, message) && WithinLimits(f, message, depth)
    && count + Size(f) <= MAX_ATTRIBUTES_PER_MESSAGE
  }

  /** The head attribute of a printed forest, as the validator slices it. */
  lemma PrintedHead(f: Forest, message: DumpKind)
    requires f.Attribute? && WellTyped(f, message)
    ensures var s := Print(f);
            && |s| >= Align4(f.length)
            && NativeU16At(s, 0) == f.length && NativeU16At(s, 2) == f.raw
            && s[4..f.length] == PrintBody(f.body) && s[Align4(f.length)..] == Print(f.rest)
  {
    hide Ne16, NativeU16At, Align4, PrintBody;
    FivePieces(Ne16(f.length), Ne16(f.raw), PrintBody(f.body), f.padding, Print(f.rest));
    Ne16Here(Print(f), 0, f.length);
    Ne16Here(Print(f), 2, f.raw);
  }

  lemma FivePieces(a: Bytes, b: Bytes, c: Bytes, d: Bytes, e: Bytes)
    ensures var s, n := a + b + c + d + e, |a| + |b|;
            && s[0..|a|] == a && s[|a|..n] == b && s[n..n + |c|] == c && s[n + |c| + |d|..] == e
  {
  }

  lemma Ne16Here(s: Bytes, i: nat, v: U16)
    requires i + 2 <= |s| && s[i..i + 2] == Ne16(v)
    ensures NativeU16At(s, i) == v
  {
    hide LittleEndian, Ne16;
    assert Ne16(v)[0..2] == Ne16(v);
  }

  lemma PrintedHop(h: Hops)
    requires h.Hop? && HopsTyped(h)
    ensures var s := PrintHops(h);
            && |s| >= Align4(h.length)
            && NativeU16At(s, 0) == h.length
            && s[8..h.length] == Print(h.children) && s[Align4(h.length)..] == PrintHops(h.rest)
  {
    hide Ne16, NativeU16At, Align4, Print;
    FivePieces(Ne16(h.length), h.fields, Print(h.children), h.padding, PrintHops(h.rest));
    Ne16Here(PrintHops(h), 0, h.length);
  }

  /** One step of the validator on a printed forest whose head value is accepted. */
  lemma HeadStep(f: Forest, message: DumpKind, depth: nat, count: nat, counted: nat)
    requires f.Attribute? && WellTyped(f, message) && count < MAX_ATTRIBUTES_PER_MESSAGE
    requires IsStringAttribute(message, TypeOf(f.raw)) ==> |PrintBody(f.body)| <= MAX_STRING_ATTRIBUTE_BYTES
    requires AttributeValue(PrintBody(f.body), f.raw, message, depth, count + 1) == Ok(counted)
    ensures AttributeList(Print(f), message, depth, count) == AttributeList(Print(f.rest), message, depth, counted)
  {
    PrintedHead(f, message);
  }

  lemma HopStep(h: Hops, depth: nat, count: nat, hops: nat, counted: nat)
    requires h.Hop? && HopsTyped(h) && hops < MAX_MULTIPATH_NEXT_HOPS
    requires Attributes(Print(h.children), Route, depth, count) == Ok(counted)
    ensures MultipathList(PrintHops(h), depth, count, hops)
        == MultipathList(PrintHops(h.rest), depth, counted, hops + 1)
  {
    PrintedHop(h);
  }

  lemma EmptyAccepted(message: DumpKind, depth: nat, count: nat)
    ensures Print(Empty) == [] && AttributeList([], message, depth, count) == Ok(count)
  {
  }

  lemma NoHopsAccepted(depth: nat, count: nat, hops: nat)
    ensures PrintHops(NoHops) == [] && MultipathList([], depth, count, hops) == Ok(count)
  {
  }

  /** Completeness: every forest within the limits is accepted, and the counter grows by its size. */
  lemma {:induction false} ForestAccepted(f: Forest, message: DumpKind, depth: nat, count: nat)
    requires WellTyped(f, message) && WithinLimits(f, message, depth) && count + Size(f) <= MAX_ATTRIBUTES_PER_MESSAGE
    ensures Attributes(Print(f), message, depth, count) == Ok(count + Size(f))
    decreases f
  {
    hide AttributeList, AttributeValue, Print, PrintBody, BodyTyped, BodyWithin, BodySize, Align4;
    EmptyAccepted(message, depth, count);
    if f.Empty? { return; }
    var counted := count + 1 + BodySize(f.body);
    BodyAccepted(f.body, f.raw, message, depth, count + 1);
    HeadStep(f, message, depth, count, counted);
    ForestAccepted(f.rest, message, depth, counted);
  }

  lemma {:induction false} BodyAccepted(b: Body, raw: U16, message: DumpKind, depth: nat, count: nat)
    requires BodyTyped(raw, b, message) && BodyWithin(b, message, depth)
    requires count + BodySize(b) <= MAX_ATTRIBUTES_PER_MESSAGE
    ensures AttributeValue(PrintBody(b), raw, message, depth, count) == Ok(count + BodySize(b))
    decreases b
  {
    hide AttributeList, MultipathList, Print, PrintHops, WellTyped, HopsTyped, WithinLimits, HopsWithin, Size, HopsSize;
    match b
    case Opaque(_) =>
    case Nest(children) => ForestAccepted(children, message, depth + 1, count);
    case Paths(hops) => HopsAccepted(hops, depth + 1, count, 0);
  }

  lemma {:induction false} HopsAccepted(h: Hops, depth: nat, count: nat, hops: nat)
    requires HopsTyped(h) && HopsWithin(h, depth)
    requires count + HopsSize(h) <= MAX_ATTRIBUTES_PER_MESSAGE && hops + HopCount(h) <= MAX_MULTIPATH_NEXT_HOPS
    ensures MultipathList(PrintHops(h), depth, count, hops) == Ok(count + HopsSize(h))
    decreases h
  {
    hide AttributeList, MultipathList, Attributes, Print, PrintHops, WellTyped, WithinLimits, Size, Align4;
    NoHopsAccepted(depth, count, hops);
    if h.NoHops? { return; }
    var counted := count + Size(h.children);
    ForestAccepted(h.children, Route, depth, count);
    HopStep(h, depth, count, hops, counted);
    HopsAccepted(h.rest, depth, counted, hops + 1);
  }

  lemma Ne16Inverse(s: Bytes, i: nat)
    requires i + 2 <= |s|
    ensures Ne16(NativeU16At(s, i)) == s[i..i + 2]
  {
    LittlePair(s[i..i + 2]);
  }

  /** Cutting an input at the length it starts with and printing the pieces gives it back. */
  lemma Reassemble(input: Bytes, header: nat)
    requires 2 <= |input| && 2 <= header <= NativeU16At(input, 0) && Align4(NativeU16At(input, 0)) <= |input|
    ensures var n := NativeU16At(input, 0);
            input == Ne16(n) + input[2..header] + input[header..n] + input[n..Align4(n)] + input[Align4(n)..]
  {
    Ne16Inverse(input, 0);
  }

  /** What an accepted nonempty input looks like at its head. */
  lemma AcceptedHead(input: Bytes, message: DumpKind, depth: nat, count: nat)
    requires input != [] && AttributeList(input, message, depth, count).Ok?
    ensures 4 <= |input| && 4 <= NativeU16At(input, 0) && Align4(NativeU16At(input, 0)) <= |input|
    ensures count < MAX_ATTRIBUTES_PER_MESSAGE
    ensures var length, raw := NativeU16At(input, 0), NativeU16At(input, 2);
            var value := AttributeValue(input[4..length], raw, message, depth, count + 1);
            && (IsStringAttribute(message, TypeOf(raw)) ==> length - 4 <= MAX_STRING_ATTRIBUTE_BYTES)
            && value.Ok?
            && AttributeList(input, message, depth, count)
                == AttributeList(input[Align4(length)..], message, depth, value.value)
  {
  }

  lemma AcceptedHopHead(input: Bytes, depth: nat, count: nat, hops: nat)
    requires input != [] && MultipathList(input, depth, count, hops).Ok?
    ensures 8 <= |input| && 8 <= NativeU16At(input, 0) && Align4(NativeU16At(input, 0)) <= |input|
    ensures hops < MAX_MULTIPATH_NEXT_HOPS
    ensures var length := NativeU16At(input, 0);
            var value := Attributes(input[8..length], Route, depth, count);
            && value.Ok?
            && MultipathList(input, depth, count, hops)
                == MultipathList(input[Align4(length)..], depth, value.value, hops + 1)
  {
  }

  /** Putting a head attribute back in front of a printed forest. */
  lemma AttachHead(input: Bytes, body: Body, rest: Forest)
    requires |input| >= 4 && 4 <= NativeU16At(input, 0) && Align4(NativeU16At(input, 0)) <= |input|
    requires PrintBody(body) == input[4..NativeU16At(input, 0)]
    requires Print(rest) == input[Align4(NativeU16At(input, 0))..]
    ensures var n := NativeU16At(input, 0);
            Print(Attribute(n, NativeU16At(input, 2), body, input[n..Align4(n)], rest)) == input
  {
    Reassemble(input, 4);
    Ne16Inverse(input, 2);
  }

  lemma AttachHop(input: Bytes, children: Forest, rest: Hops)
    requires |input| >= 8 && 8 <= NativeU16At(input, 0) && Align4(NativeU16At(input, 0)) <= |input|
    requires Print(children) == input[8..NativeU16At(input, 0)]
    requires PrintHops(rest) == input[Align4(NativeU16At(input, 0))..]
    ensures var n := NativeU16At(input, 0);
            PrintHops(Hop(n, input[2..8], children, input[n..Align4(n)], rest)) == input
  {
    Reassemble(input, 8);
  }

  /** Soundness: whatever is accepted is the printed form of a forest within the limits. */
  lemma {:induction false} AcceptedForest(input: Bytes, message: DumpKind, depth: nat, count: nat) returns (f: Forest)
    requires count <= MAX_ATTRIBUTES_PER_MESSAGE && Attributes(input, message, depth, count).Ok?
    ensures Describes(f, input, message, depth, count)
    ensures Attributes(input, message, depth, count) == Ok(count + Size(f))
    decreases |input|, 1
  {
    hide AttributeList, MultipathList, AttributeValue, Print, PrintBody, BodyTyped, BodyWithin, BodySize, Align4;
    EmptyAccepted(message, depth, count);
    if input == [] { return Empty; }
    AcceptedHead(input, message, depth, count);
    var length, raw := NativeU16At(input, 0), NativeU16At(input, 2);
    var value, left := input[4..length], input[Align4(length)..];
    var body := AcceptedBody(value, raw, message, depth, count + 1);
    var rest := AcceptedForest(left, message, depth, count + 1 + BodySize(body));
    AttachHead(input, body, rest);
    f := Attribute(length, raw, body, input[length..Align4(length)], rest);
  }

  lemma {:induction false} AcceptedBody(value: Bytes, raw: U16, message: DumpKind, depth: nat, count: nat)
    returns (b: Body)
    requires count <= MAX_ATTRIBUTES_PER_MESSAGE && AttributeValue(value, raw, message, depth, count).Ok?
    ensures PrintBody(b) == value && BodyTyped(raw, b, message) && BodyWithin(b, message, depth)
    ensures count + BodySize(b) <= MAX_ATTRIBUTES_PER_MESSAGE
    ensures AttributeValue(value, raw, message, depth, count) == Ok(count + BodySize(b))
    decreases |value|, 2
  {
    hide AttributeList, MultipathList, Print, PrintHops, WellTyped, HopsTyped, WithinLimits, HopsWithin, Size, HopsSize;
    if IsMultipath(message, raw) {
      var hops := AcceptedHops(value, depth + 1, count, 0);
      return Paths(hops);
    }
    if IsNested(message, raw) {
      var children := AcceptedForest(value, message, depth + 1, count);
      return Nest(children);
    }
    return Opaque(value);
  }

  lemma {:induction false} AcceptedHops(input: Bytes, depth: nat, count: nat, hops: nat) returns (h: Hops)
    requires count <= MAX_ATTRIBUTES_PER_MESSAGE && MultipathList(input, depth, count, hops).Ok?
    requires hops <= MAX_MULTIPATH_NEXT_HOPS
    ensures PrintHops(h) == input && HopsTyped(h) && HopsWithin(h, depth)
    ensures count + HopsSize(h) <= MAX_ATTRIBUTES_PER_MESSAGE && hops + HopCount(h) <= MAX_MULTIPATH_NEXT_HOPS
    ensures MultipathList(input, depth, count, hops) == Ok(count + HopsSize(h))
    decreases |input|, 0
  {
    hide AttributeList, MultipathList, Attributes, Print, PrintHops, WellTyped, WithinLimits, Size, Align4;
    NoHopsAccepted(depth, count, hops);
    if input == [] { return NoHops; }
    AcceptedHopHead(input, depth, count, hops);
    var length := NativeU16At(input, 0);
    var value, left := input[8..length], input[Align4(length)..];
    var children := AcceptedForest(value, Route, depth, count);
    var rest := AcceptedHops(left, depth, count + Size(children), hops + 1);
    AttachHop(input, children, rest);
    h := Hop(length, input[2..8], children, input[length..Align4(length)], rest);
  }

  /** The validator accepts a message exactly when its attributes are the printed form of a forest of
      depth at most 8 with at most 256 attributes, at most 64 hops per multipath and bounded strings;
      the counter it returns is then the size of every such forest. */
  lemma PreflightExact(message: Bytes, kind: DumpKind)
    ensures var offset := NETLINK_HEADER_LENGTH + FixedHeaderLength(kind);
            && (InnerMessage(message, kind).Ok? <==>
                |message| >= offset && exists f :: Describes(f, message[offset..], kind, 0, 0))
            && (|message| >= offset ==>
                forall f :: Describes(f, message[offset..], kind, 0, 0) ==> InnerMessage(message, kind) == Ok(Size(f)))
  {
    var offset := NETLINK_HEADER_LENGTH + FixedHeaderLength(kind);
    if |message| >= offset {
      var input := message[offset..];
      if InnerMessage(message, kind).Ok? {
        var f := AcceptedForest(input, kind, 0, 0);
      }
      forall f | Describes(f, input, kind, 0, 0)
        ensures InnerMessage(message, kind) == Ok(Size(f))
      {
        ForestAccepted(f, kind, 0, 0);
      }
    }
  }

  // ---------------------------------------------------------------------------------------
  // The validator as it is written: offset loops and mutual recursion threading one counter.

  /** The list function on the input from `offset` on, one attribute at a time. */
  lemma AttributeAt(input: Bytes, offset: nat, message: DumpKind, depth: nat, count: nat)
    requires offset <= |input|
    ensures AttributeList(input[offset..], message, depth, count) ==
            if offset == |input| then Ok(count)
            else if |input| - offset < 4 then Err(Decode)
            else
              var length, raw := NativeU16At(input, offset), NativeU16At(input, offset + 2);
              if length < 4 || offset + length > |input| then Err(Decode)
              else if count + 1 > MAX_ATTRIBUTES_PER_MESSAGE then
                Err(LimitExceeded(MessageAttributes, count + 1, MAX_ATTRIBUTES_PER_MESSAGE))
              else
                var value := input[offset + 4..offset + length];
                if IsStringAttribute(message, TypeOf(raw)) && |value| > MAX_STRING_ATTRIBUTE_BYTES then
                  Err(LimitExceeded(StringBytes, |value|, MAX_STRING_ATTRIBUTE_BYTES))
                else
                  match AttributeValue(value, raw, message, depth, count + 1)
                  case Err(e) => Err(e)
                  case Ok(counted) =>
                    if offset + Align4(length) > |input| then Err(Decode)
                    else AttributeList(input[offset + Align4(length)..], message, depth, counted)
  {
    hide AttributeValue, MultipathList, Attributes, Align4;
    var left := input[offset..];
    if |left| >= 4 {
      var length := NativeU16At(left, 0);
      assert left[0..2] == input[offset..offset + 2] && left[2..4] == input[offset + 2..offset + 4];
      if 4 <= length <= |left| {
        assert left[4..length] == input[offset + 4..offset + length];
        if Align4(length) <= |left| {
          assert left[Align4(length)..] == input[offset + Align4(length)..];
        }
      }
    }
  }

  lemma HopAt(input: Bytes, offset: nat, depth: nat, count: nat, hops: nat)
    requires offset <= |input|
    ensures MultipathList(input[offset..], depth, count, hops) ==
            if offset == |input| then Ok(count)
            else if |input| - offset < 8 then Err(Decode)
            else
              var length := NativeU16At(input, offset);
              if length < 8 || offset + length > |input| then Err(Decode)
              else if hops + 1 > MAX_MULTIPATH_NEXT_HOPS then
                Err(LimitExceeded(MultipathNextHops, hops + 1, MAX_MULTIPATH_NEXT_HOPS))
              else
                match Attributes(input[offset + 8..offset + length], Route, depth, count)
                case Err(e) => Err(e)
                case Ok(counted) =>
                  if offset + Align4(length) > |input| then Err(Decode)
                  else MultipathList(input[offset + Align4(length)..], depth, counted, hops + 1)
  {
    hide AttributeValue, AttributeList, Attributes, Align4;
    var left := input[offset..];
    if |left| >= 8 {
      var length := NativeU16At(left, 0);
      assert left[0..2] == input[offset..offset + 2];
      if 8 <= length <= |left| {
        assert left[8..length] == input[offset + 8..offset + length];
        if Align4(length) <= |left| {
          assert left[Align4(length)..] == input[offset + Align4(length)..];
        }
      }
    }
  }

  method ValidateAttributes(input: Bytes, message: DumpKind, depth: nat, count: nat)
    returns (r: Result<nat, SnapshotError>)
    ensures r == Attributes(input, message, depth, count)
    decreases |input|, 1
  {
    hide AttributeList, MultipathList, Align4;
    if depth > MAX_NESTED_ATTRIBUTE_DEPTH {
      return Err(LimitExceeded(AttributeDepth, depth, MAX_NESTED_ATTRIBUTE_DEPTH));
    }
    var offset: nat, counted: nat := 0, count;
    assert input[0..] == input;
    while offset < |input|
      invariant 0 <= offset <= |input|
      invariant AttributeList(input[offset..], message, depth, counted) == Attributes(input, message, depth, count)
    {
      AttributeAt(input, offset, message, depth, counted);
      if |input| - offset < 4 { return Err(Decode); }
      var length := NativeU16At(input, offset);
      if length < 4 { return Err(Decode); }
      var end := offset + length;
      if end > |input| { return Err(Decode); }
      counted := counted + 1;
      if counted > MAX_ATTRIBUTES_PER_MESSAGE {
        return Err(LimitExceeded(MessageAttributes, counted, MAX_ATTRIBUTES_PER_MESSAGE));
      }
      var raw := NativeU16At(input, offset + 2);
      var value := input[offset + 4..end];
      if IsStringAttribute(message, TypeOf(raw)) && |value| > MAX_STRING_ATTRIBUTE_BYTES {
        return Err(LimitExceeded(StringBytes, |value|, MAX_STRING_ATTRIBUTE_BYTES));
      }
      if message == Route && TypeOf(raw) == 9 {
        var v := ValidateMultipath(value, depth + 1, counted);
        if v.Err? { return v; }
        counted := v.value;
      } else if NestedFlag(raw) || (message == Route && TypeOf(raw) == 8) {
        var v := ValidateAttributes(value, message, depth + 1, counted);
        if v.Err? { return v; }
        counted := v.value;
      }
      if offset + Align4(length) > |input| { return Err(Decode); }
      offset := offset + Align4(length);
    }
    AttributeAt(input, offset, message, depth, counted);
    r := Ok(counted);
  }

  method ValidateMultipath(input: Bytes, depth: nat, count: nat) returns (r: Result<nat, SnapshotError>)
    ensures r == MultipathList(input, depth, count, 0)
    decreases |input|, 2
  {
    hide AttributeList, MultipathList, Attributes, Align4;
    var offset: nat, counted: nat, hops: nat := 0, count, 0;
    assert input[0..] == input;
    while offset < |input|
      invariant 0 <= offset <= |input|
      invariant MultipathList(input[offset..], depth, counted, hops) == MultipathList(input, depth, count, 0)
    {
      HopAt(input, offset, depth, counted, hops);
      if |input| - offset < 8 { return Err(Decode); }
      var length := NativeU16At(input, offset);
      if length < 8 { return Err(Decode); }
      var end := offset + length;
      if end > |input| { return Err(Decode); }
      hops := hops + 1;
      if hops > MAX_MULTIPATH_NEXT_HOPS {
        return Err(LimitExceeded(MultipathNextHops, hops, MAX_MULTIPATH_NEXT_HOPS));
      }
      var v := ValidateAttributes(input[offset + 8..end], Route, depth, counted);
      if v.Err? { return v; }
      counted := v.value;
      if offset + Align4(length) > |input| { return Err(Decode); }
      offset := offset + Align4(length);
    }
    HopAt(input, offset, depth, counted, hops);
    r := Ok(counted);
  }

  method ValidateInnerMessage(message: Bytes, kind: DumpKind) returns (r: Result<nat, SnapshotError>)
    ensures r == InnerMessage(message, kind)
  {
    var offset := NETLINK_HEADER_LENGTH + FixedHeaderLength(kind);
    if |message| < offset { return Err(Decode); }
    r := ValidateAttributes(message[offset..], kind, 0, 0);
  }
}
