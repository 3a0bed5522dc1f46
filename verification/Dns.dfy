/** DNS names with compression pointers, and discovery queries
    (crates/nodenet-protocols/src/discovery_dns.rs; section 4.1.4 of RFC 1035). */
module Dns {
  import opened Wire

  const MAX_MESSAGE_BYTES: nat := 9000
  const MAX_RECORDS: nat := 1024
  const MAX_JUMPS: nat := 32
  const MAX_NAME_BYTES: nat := 255

  datatype DnsError =
    | Truncated
    | MessageTooLarge
    | TooManyRecords
    | InvalidLabel
    | NameTooLong
    | CompressionLoop
    | TooManyPointers
    | InvalidRecordLength

  function Lower(b: Byte): Byte { if 65 <= b <= 90 then b + 32 else b }

  function Lowered(s: Bytes): (r: Bytes)
    ensures |r| == |s|
  {
    seq(|s|, i requires 0 <= i < |s| => Lower(s[i]))
  }

  /** The fourteen-bit offset in a pointer. */
  function Target(input: Bytes, cursor: nat): nat
    requires cursor + 2 <= |input|
  {
    Pair(input[cursor] % 64, input[cursor + 1])
  }

  // ---------------------------------------------------------------------------------------
  // What a name at a position means.

  /** How a name is read: labels and jumps, in order, to the terminal zero. */
  datatype Path = End | Label(rest: Path) | Jump(rest: Path)

  /** The name at `cursor` is read along `path`. */
  predicate Derives(input: Bytes, cursor: nat, path: Path)
    decreases path
  {
    cursor < |input| &&
    match path
    case End => input[cursor] == 0
    case Label(rest) => 1 <= input[cursor] <= 63 && Derives(input, cursor + 1 + input[cursor], rest)
    case Jump(rest) => input[cursor] >= 0xc0 && cursor + 2 <= |input| && Derives(input, Target(input, cursor), rest)
  }

  /** The pointer-free, lower-cased wire form of the name. */
  function Name(input: Bytes, cursor: nat, path: Path): Bytes
    requires Derives(input, cursor, path)
    decreases path
  {
    match path
    case End => [0]
    case Label(rest) =>
      StartsInside(input, cursor + 1 + input[cursor], rest);
      var end := cursor + 1 + input[cursor];
      [input[cursor]] + Lowered(input[cursor + 1..end]) + Name(input, end, rest)
    case Jump(rest) => Name(input, Target(input, cursor), rest)
  }

  lemma StartsInside(input: Bytes, cursor: nat, path: Path)
    requires Derives(input, cursor, path)
    ensures cursor < |input|
  {
  }

  function Jumps(path: Path): nat {
    match path
    case End => 0
    case Label(rest) => Jumps(rest)
    case Jump(rest) => 1 + Jumps(rest)
  }

  function Size(path: Path): nat {
    match path
    case End => 0
    case Label(rest) => 1 + Size(rest)
    case Jump(rest) => 1 + Size(rest)
  }

  /** The bytes the name occupies where it stands: up to its end or its first pointer. */
  function Span(input: Bytes, cursor: nat): nat
    decreases |input| - cursor
  {
    if cursor >= |input| then 0
    else if input[cursor] >= 0xc0 then 2
    else if input[cursor] == 0 then 1
    else 1 + input[cursor] + Span(input, cursor + 1 + input[cursor])
  }

  /** A position is read along one path at most. */
  lemma {:induction false} PathUnique(input: Bytes, cursor: nat, p: Path, q: Path)
    requires Derives(input, cursor, p) && Derives(input, cursor, q)
    ensures p == q
    decreases p
  {
    match p
    case End =>
    case Label(rest) => PathUnique(input, cursor + 1 + input[cursor], rest, q.rest);
    case Jump(rest) => PathUnique(input, Target(input, cursor), rest, q.rest);
  }

  /** The positions jumped to. */
  function Targets(input: Bytes, cursor: nat, path: Path): seq<nat>
    requires Derives(input, cursor, path)
    decreases path
  {
    match path
    case End => []
    case Label(rest) => Targets(input, cursor + 1 + input[cursor], rest)
    case Jump(rest) => [Target(input, cursor)] + Targets(input, Target(input, cursor), rest)
  }

  /** From every position jumped to, strictly less is left to read. */
  lemma {:induction false} TargetsDescend(input: Bytes, cursor: nat, path: Path, t: nat) returns (q: Path)
    requires Derives(input, cursor, path) && t in Targets(input, cursor, path)
    ensures Derives(input, t, q) && Size(q) < Size(path)
    decreases path
  {
    match path
    case Label(rest) => q := TargetsDescend(input, cursor + 1 + input[cursor], rest, t);
    case Jump(rest) =>
      if t == Target(input, cursor) {
        q := rest;
      } else {
        q := TargetsDescend(input, Target(input, cursor), rest, t);
      }
  }

  predicate NoneTwice(s: seq<nat>) {
    forall i, j :: 0 <= i < j < |s| ==> s[i] != s[j]
  }

  /** A name that can be read at all never jumps to the same position twice. */
  lemma {:induction false} TargetsDistinct(input: Bytes, cursor: nat, path: Path)
    requires Derives(input, cursor, path)
    ensures NoneTwice(Targets(input, cursor, path))
    decreases path
  {
    match path
    case End =>
    case Label(rest) => TargetsDistinct(input, cursor + 1 + input[cursor], rest);
    case Jump(rest) =>
      var t := Target(input, cursor);
      TargetsDistinct(input, t, rest);
      NotAmongLater(input, t, rest);
  }

  lemma NotAmongLater(input: Bytes, t: nat, rest: Path)
    requires Derives(input, t, rest)
    ensures t !in Targets(input, t, rest)
  {
    if t in Targets(input, t, rest) {
      var q := TargetsDescend(input, t, rest, t);
      PathUnique(input, t, q, rest);
    }
  }

  // ---------------------------------------------------------------------------------------
  // The decoder.

  /** The decoding loop from `cursor`, with the pointers followed and the bytes collected so far. */
  function Walk(input: Bytes, cursor: nat, visited: seq<nat>, wire: Bytes): Result<Bytes, DnsError>
    requires |visited| <= MAX_JUMPS
    decreases MAX_JUMPS - |visited|, |input| - cursor
  {
    if cursor >= |input| then Err(Truncated)
    else if input[cursor] >= 0xc0 then
      if cursor + 2 > |input| then Err(Truncated)
      else if Target(input, cursor) >= |input| || Target(input, cursor) in visited then Err(CompressionLoop)
      else if |visited| == MAX_JUMPS then Err(TooManyPointers)
      else Walk(input, Target(input, cursor), visited + [Target(input, cursor)], wire)
    else if input[cursor] >= 64 then Err(InvalidLabel)
    else if input[cursor] == 0 then Ok(wire + [0])
    else
      var end := cursor + 1 + input[cursor];
      if end > |input| then Err(Truncated)
      else if |wire| + input[cursor] + 2 > MAX_NAME_BYTES then Err(NameTooLong)
      else Walk(input, end, visited, wire + [input[cursor]] + Lowered(input[cursor + 1..end]))
  }

  datatype Decoded = Decoded(wire: Bytes, consumed: nat)

  /** `decode_name`. */
  function Decode(input: Bytes, start: nat): Result<Decoded, DnsError> {
    match Walk(input, start, [], [])
    case Err(e) => Err(e)
    case Ok(wire) => Ok(Decoded(wire, Span(input, start)))
  }

  /** The loop of the source. */
  method DecodeName(input: Bytes, start: nat) returns (r: Result<Decoded, DnsError>)
    ensures r == Decode(input, start)
  {
    if start >= |input| { return Err(Truncated); }
    var cursor: nat, consumed: nat, jumped := start, 0, false;
    var visited: seq<nat>, wire: Bytes := [], [];
    while true
      invariant |visited| <= MAX_JUMPS && (jumped <==> visited != [])
      invariant Walk(input, cursor, visited, wire) == Walk(input, start, [], [])
      invariant consumed + (if jumped then 0 else Span(input, cursor)) == Span(input, start)
      decreases MAX_JUMPS - |visited|, |input| - cursor
    {
      if cursor >= |input| { return Err(Truncated); }
      var first := input[cursor];
      if first >= 0xc0 {
        if cursor + 1 >= |input| { return Err(Truncated); }
        if !jumped { consumed := consumed + 2; }
        var pointer := Target(input, cursor);
        if pointer >= |input| || pointer in visited { return Err(CompressionLoop); }
        if |visited| + 1 > MAX_JUMPS { return Err(TooManyPointers); }
        visited := visited + [pointer];
        cursor, jumped := pointer, true;
      } else {
        if first >= 64 { return Err(InvalidLabel); }
        if !jumped { consumed := consumed + 1; }
        if first == 0 { return Ok(Decoded(wire + [0], consumed)); }
        var end := cursor + 1 + first;
        if end > |input| { return Err(Truncated); }
        if |wire| + first + 2 > MAX_NAME_BYTES { return Err(NameTooLong); }
        wire := wire + [first] + Lowered(input[cursor + 1..end]);
        if !jumped { consumed := consumed + first; }
        cursor := end;
      }
    }
  }

  predicate Disjoint(visited: seq<nat>, targets: seq<nat>) {
    forall t :: t in targets ==> t !in visited
  }

  lemma FirstTarget(visited: seq<nat>, t: nat, later: seq<nat>)
    requires NoneTwice([t] + later) && Disjoint(visited, [t] + later)
    ensures NoneTwice(later) && Disjoint(visited + [t], later) && t !in visited
  {
    var all := [t] + later;
    assert all[0] == t && all[1..] == later && t in all;
    forall x | x in later ensures x != t && x !in visited {
      var i :| 0 <= i < |later| && later[i] == x;
      assert all[i + 1] == x && x in all;
    }
    forall i, j | 0 <= i < j < |later| ensures later[i] != later[j] {
      assert all[i + 1] != all[j + 1];
    }
  }

  /** Whatever can be read within the limits is decoded to its meaning. */
  lemma {:induction false} WalkComplete(input: Bytes, cursor: nat, path: Path, visited: seq<nat>, wire: Bytes)
    requires Derives(input, cursor, path) && |visited| + Jumps(path) <= MAX_JUMPS
    requires NoneTwice(Targets(input, cursor, path)) && Disjoint(visited, Targets(input, cursor, path))
    requires |wire| + |Name(input, cursor, path)| <= MAX_NAME_BYTES
    ensures Walk(input, cursor, visited, wire) == Ok(wire + Name(input, cursor, path))
    decreases path
  {
    hide Target;
    match path
    case End =>
    case Label(rest) =>
      var end := cursor + 1 + input[cursor];
      StartsInside(input, end, rest);
      NameNotEmpty(input, end, rest);
      var piece := [input[cursor]] + Lowered(input[cursor + 1..end]);
      WalkComplete(input, end, rest, visited, wire + piece);
      assert wire + [input[cursor]] + Lowered(input[cursor + 1..end]) == wire + piece;
      assert wire + piece + Name(input, end, rest) == wire + Name(input, cursor, path);
    case Jump(rest) =>
      var t := Target(input, cursor);
      StartsInside(input, t, rest);
      FirstTarget(visited, t, Targets(input, t, rest));
      WalkComplete(input, t, rest, visited + [t], wire);
  }

  lemma NameNotEmpty(input: Bytes, cursor: nat, path: Path)
    requires Derives(input, cursor, path)
    ensures |Name(input, cursor, path)| >= 1
    decreases path
  {
  }

  /** Whatever is decoded can be read within the limits. */
  lemma {:induction false} WalkSound(input: Bytes, cursor: nat, visited: seq<nat>, wire: Bytes) returns (path: Path)
    requires |visited| <= MAX_JUMPS && |wire| < MAX_NAME_BYTES && Walk(input, cursor, visited, wire).Ok?
    ensures Derives(input, cursor, path) && |visited| + Jumps(path) <= MAX_JUMPS
    ensures |wire| + |Name(input, cursor, path)| <= MAX_NAME_BYTES
    ensures Walk(input, cursor, visited, wire) == Ok(wire + Name(input, cursor, path))
    decreases MAX_JUMPS - |visited|, |input| - cursor
  {
    hide Target;
    if input[cursor] >= 0xc0 {
      var t := Target(input, cursor);
      var rest := WalkSound(input, t, visited + [t], wire);
      path := Jump(rest);
    } else if input[cursor] == 0 {
      path := End;
    } else {
      var end := cursor + 1 + input[cursor];
      var piece := [input[cursor]] + Lowered(input[cursor + 1..end]);
      assert wire + [input[cursor]] + Lowered(input[cursor + 1..end]) == wire + piece;
      var rest := WalkSound(input, end, visited, wire + piece);
      path := Label(rest);
      assert wire + piece + Name(input, end, rest) == wire + Name(input, cursor, path);
    }
  }

  /** Decompression refines the pointer-following meaning: a name is accepted exactly when it can be read at
      all, with at most 32 jumps and at most 255 bytes, and the result is then its meaning. */
  lemma DecodeExact(input: Bytes, start: nat)
    ensures Decode(input, start).Ok? <==>
            exists path :: Derives(input, start, path) && Jumps(path) <= MAX_JUMPS
                && |Name(input, start, path)| <= MAX_NAME_BYTES
    ensures forall path :: Derives(input, start, path) && Decode(input, start).Ok? ==>
              Decode(input, start).value.wire == Name(input, start, path)
  {
    hide Walk;
    if Decode(input, start).Ok? {
      var p := WalkSound(input, start, [], []);
      assert Jumps(p) <= MAX_JUMPS && |Name(input, start, p)| <= MAX_NAME_BYTES;
      forall path | Derives(input, start, path) ensures Decode(input, start).value.wire == Name(input, start, path) {
        PathUnique(input, start, p, path);
      }
    }
    forall path | Derives(input, start, path) && Jumps(path) <= MAX_JUMPS
        && |Name(input, start, path)| <= MAX_NAME_BYTES
      ensures Decode(input, start).Ok?
    {
      TargetsDistinct(input, start, path);
      WalkComplete(input, start, path, [], []);
    }
  }

  /** The bytes a name occupies are inside the message. */
  lemma {:induction false} SpanInside(input: Bytes, cursor: nat, path: Path)
    requires Derives(input, cursor, path)
    ensures 1 <= Span(input, cursor) && cursor + Span(input, cursor) <= |input|
    decreases path
  {
    if path.Label? { SpanInside(input, cursor + 1 + input[cursor], path.rest); }
  }

  lemma ConsumedInside(input: Bytes, start: nat)
    requires Decode(input, start).Ok?
    ensures start + Decode(input, start).value.consumed <= |input|
  {
    hide Walk, Span;
    var path := WalkSound(input, start, [], []);
    SpanInside(input, start, path);
  }

  // ---------------------------------------------------------------------------------------
  // Printed names.

  predicate WellFormed(labels: seq<Bytes>) {
    forall i :: 0 <= i < |labels| ==> 1 <= |labels[i]| <= 63
  }

  function Print(labels: seq<Bytes>): (s: Bytes)
    requires WellFormed(labels)
  {
    if labels == [] then [0] else [|labels[0]|] + labels[0] + Print(labels[1..])
  }

  function LoweredLabels(labels: seq<Bytes>): (r: seq<Bytes>)
    requires WellFormed(labels)
    ensures |r| == |labels| && WellFormed(r)
  {
    seq(|labels|, i requires 0 <= i < |labels| => Lowered(labels[i]))
  }

  function Straight(n: nat): Path { if n == 0 then End else Label(Straight(n - 1)) }

  lemma {:induction false} StraightJumps(n: nat)
    ensures Jumps(Straight(n)) == 0
  {
    if n > 0 { StraightJumps(n - 1); }
  }

  /** One printed label in front of a name that can be read. */
  lemma LabelDerives(input: Bytes, cursor: nat, first: Bytes, rest: Path)
    requires 1 <= |first| <= 63 && cursor + 1 + |first| <= |input| && input[cursor] == |first|
    requires input[cursor + 1..cursor + 1 + |first|] == first && Derives(input, cursor + 1 + |first|, rest)
    ensures Derives(input, cursor, Label(rest))
    ensures Name(input, cursor, Label(rest)) == [|first|] + Lowered(first) + Name(input, cursor + 1 + |first|, rest)
    ensures Span(input, cursor) == 1 + |first| + Span(input, cursor + 1 + |first|)
  {
    hide Lowered;
  }

  lemma PrintFirst(labels: seq<Bytes>)
    requires labels != [] && WellFormed(labels)
    ensures Print(labels) == [|labels[0]|] + labels[0] + Print(labels[1..])
  {
  }

  lemma PrintedEnd(pre: Bytes, post: Bytes)
    ensures var input := pre + Print([]) + post;
            Derives(input, |pre|, End) && Name(input, |pre|, End) == Print(LoweredLabels([])) && Span(input, |pre|) == 1
  {
    assert (pre + Print([]) + post)[|pre|] == 0;
  }

  /** Where the first of several printed labels stands. */
  lemma FirstLabelAt(pre: Bytes, first: Bytes, tail: Bytes, post: Bytes)
    requires 1 <= |first| <= 63
    ensures var input := pre + ([|first|] + first + tail) + post;
            && input == (pre + ([|first|] + first)) + tail + post
            && input[|pre|] == |first| && input[|pre| + 1..|pre| + 1 + |first|] == first
  {
  }

  /** A printed name is read label by label wherever it stands. */
  lemma {:induction false} PrintedDerives(pre: Bytes, labels: seq<Bytes>, post: Bytes)
    requires WellFormed(labels)
    ensures var input, path := pre + Print(labels) + post, Straight(|labels|);
            && Derives(input, |pre|, path) && Name(input, |pre|, path) == Print(LoweredLabels(labels))
            && Span(input, |pre|) == |Print(labels)|
    decreases |labels|
  {
    hide Print, Lowered, Derives, Name, Span, LoweredLabels;
    var input := pre + Print(labels) + post;
    if labels == [] {
      PrintedEnd(pre, post);
      RootLength();
    } else {
      var first, tail := labels[0], labels[1..];
      PrintFirst(labels);
      FirstLabelAt(pre, first, Print(tail), post);
      PrintedDerives(pre + ([|first|] + first), tail, post);
      LabelDerives(input, |pre|, first, Straight(|tail|));
      LoweredFirst(labels);
    }
  }

  lemma RootLength()
    ensures Print([]) == [0]
  {
  }

  lemma LoweredFirst(labels: seq<Bytes>)
    requires labels != [] && WellFormed(labels)
    ensures Print(LoweredLabels(labels)) == [|labels[0]|] + Lowered(labels[0]) + Print(LoweredLabels(labels[1..]))
  {
    assert LoweredLabels(labels)[1..] == LoweredLabels(labels[1..]);
  }

  lemma {:induction false} PrintLength(labels: seq<Bytes>)
    requires WellFormed(labels)
    ensures |Print(LoweredLabels(labels))| == |Print(labels)|
    decreases |labels|
  {
    if labels != [] {
      PrintLength(labels[1..]);
      assert LoweredLabels(labels)[1..] == LoweredLabels(labels[1..]);
    }
  }

  /** Decoding a printed name gives its lower-cased form, wherever it stands. */
  lemma DecodePrinted(pre: Bytes, labels: seq<Bytes>, post: Bytes)
    requires WellFormed(labels) && |Print(labels)| <= MAX_NAME_BYTES
    ensures Decode(pre + Print(labels) + post, |pre|) == Ok(Decoded(Print(LoweredLabels(labels)), |Print(labels)|))
  {
    hide Walk, Span, Print, Name, Derives;
    var input := pre + Print(labels) + post;
    var path := Straight(|labels|);
    PrintedDerives(pre, labels, post);
    PrintLength(labels);
    StraightJumps(|labels|);
    TargetsDistinct(input, |pre|, path);
    WalkComplete(input, |pre|, path, [], []);
    assert [] + Print(LoweredLabels(labels)) == Print(LoweredLabels(labels));
  }

  /** The labels of a derivation, lower-cased. */
  function LabelsOf(input: Bytes, cursor: nat, path: Path): (labels: seq<Bytes>)
    requires Derives(input, cursor, path)
    ensures WellFormed(labels)
    decreases path
  {
    match path
    case End => []
    case Label(rest) =>
      StartsInside(input, cursor + 1 + input[cursor], rest);
      var end := cursor + 1 + input[cursor];
      [Lowered(input[cursor + 1..end])] + LabelsOf(input, end, rest)
    case Jump(rest) => LabelsOf(input, Target(input, cursor), rest)
  }

  lemma {:induction false} NameIsPrint(input: Bytes, cursor: nat, path: Path)
    requires Derives(input, cursor, path)
    ensures Name(input, cursor, path) == Print(LabelsOf(input, cursor, path))
    ensures LoweredLabels(LabelsOf(input, cursor, path)) == LabelsOf(input, cursor, path)
    decreases path
  {
    match path
    case End =>
    case Label(rest) =>
      var end := cursor + 1 + input[cursor];
      StartsInside(input, end, rest);
      NameIsPrint(input, end, rest);
      var labels := LabelsOf(input, cursor, path);
      assert labels[1..] == LabelsOf(input, end, rest);
      LoweredTwice(input[cursor + 1..end]);
      assert LoweredLabels(labels)[0] == labels[0];
      assert LoweredLabels(labels)[1..] == LoweredLabels(labels[1..]);
    case Jump(rest) => NameIsPrint(input, Target(input, cursor), rest);
  }

  lemma LoweredTwice(s: Bytes)
    ensures Lowered(Lowered(s)) == Lowered(s)
  {
  }

  /** A decoded name is pointer-free and lower-case, and decodes to itself. */
  lemma DecodeIdempotent(input: Bytes, start: nat)
    requires Decode(input, start).Ok?
    ensures var wire := Decode(input, start).value.wire;
            |wire| <= MAX_NAME_BYTES && Decode(wire, 0) == Ok(Decoded(wire, |wire|))
  {
    hide Walk, Span, Print, Name, Derives;
    var path := WalkSound(input, start, [], []);
    var wire := Decode(input, start).value.wire;
    assert [] + Name(input, start, path) == Name(input, start, path);
    NameIsPrint(input, start, path);
    var labels := LabelsOf(input, start, path);
    DecodePrinted([], labels, []);
    assert [] + Print(labels) + [] == wire;
  }

  // ---------------------------------------------------------------------------------------
  // Queries.

  /** The labels between full stops. */
  function Split(name: Bytes): (labels: seq<Bytes>)
    ensures |labels| >= 1
  {
    if name == [] then [[]]
    else
      var rest := Split(name[1..]);
      if name[0] == 46 then [[]] + rest else [[name[0]] + rest[0]] + rest[1..]
  }

  /** The labels with full stops between them. */
  function Join(labels: seq<Bytes>): Bytes {
    if labels == [] then [] else if |labels| == 1 then labels[0] else labels[0] + [46] + Join(labels[1..])
  }

  /** Splitting loses nothing, and no label contains a full stop. */
  lemma {:induction false} SplitExact(name: Bytes)
    ensures Join(Split(name)) == name && forall i :: 0 <= i < |Split(name)| ==> 46 !in Split(name)[i]
    decreases |name|
  {
    if name != [] {
      SplitExact(name[1..]);
      var rest, labels := Split(name[1..]), Split(name);
      assert name == [name[0]] + name[1..];
      if name[0] == 46 {
        assert labels[1..] == rest;
      } else {
        assert labels[1..] == rest[1..] && labels[0] == [name[0]] + rest[0];
        if |rest| > 1 { assert Join(labels) == [name[0]] + rest[0] + [46] + Join(rest[1..]); }
      }
    }
  }

  function WithoutDot(name: Bytes): Bytes {
    if name != [] && name[|name| - 1] == 46 then name[..|name| - 1] else name
  }

  /** The labels of a presentation name: none for the root. */
  function LabelsFor(name: Bytes): seq<Bytes> {
    if WithoutDot(name) == [] then [] else Split(WithoutDot(name))
  }

  /** `encode_name` on the bytes of the name's text. */
  function EncodeName(name: Bytes): Result<Bytes, DnsError> {
    var labels := LabelsFor(name);
    if !WellFormed(labels) then Err(InvalidLabel)
    else if |Print(labels)| > MAX_NAME_BYTES then Err(NameTooLong)
    else Ok(Print(labels))
  }

  /** The loop over the labels. */
  method EncodeLabels(name: Bytes) returns (r: Result<Bytes, DnsError>)
    ensures r == EncodeName(name)
  {
    hide Print, Split;
    var labels := LabelsFor(name);
    var output: Bytes := [];
    assert labels[0..] == labels;
    assert WellFormed(labels) ==> output + Print(labels) == Print(labels);
    for i := 0 to |labels|
      invariant forall j :: 0 <= j < i ==> 1 <= |labels[j]| <= 63
      invariant WellFormed(labels) ==> output + Print(labels[i..]) == Print(labels)
    {
      if |labels[i]| == 0 || |labels[i]| > 63 { return Err(InvalidLabel); }
      assert labels[i..][0] == labels[i] && labels[i..][1..] == labels[i + 1..];
      if WellFormed(labels) {
        PrintFirst(labels[i..]);
        assert output + ([|labels[i]|] + labels[i] + Print(labels[i + 1..]))
            == output + [|labels[i]|] + labels[i] + Print(labels[i + 1..]);
      }
      output := output + [|labels[i]|] + labels[i];
    }
    assert labels[|labels|..] == [];
    RootLength();
    output := output + [0];
    if |output| > MAX_NAME_BYTES { return Err(NameTooLong); }
    r := Ok(output);
  }

  function QueryClass(unicast: bool): U16 { if unicast then 0x8001 else 1 }

  function QueryHead(id: U16): (s: Bytes)
    ensures |s| == 12
  {
    Be16(id) + Be16(0) + Be16(1) + Be16(0) + Be16(0) + Be16(0)
  }

  /** `build_discovery_dns_query`. */
  function BuildQuery(id: U16, name: Bytes, queryType: U16, unicast: bool): Result<Bytes, DnsError> {
    match EncodeName(name)
    case Err(e) => Err(e)
    case Ok(wire) =>
      if 12 + |wire| + 4 > 512 then Err(MessageTooLarge)
      else Ok(QueryHead(id) + wire + Be16(queryType) + Be16(QueryClass(unicast)))
  }

  datatype Question = Question(wire: Bytes, queryType: U16, queryClass: U16, unicast: bool)

  /** The questions from `offset` on, and where they end. */
  function ParseQuestions(input: Bytes, offset: nat, count: nat): Result<(seq<Question>, nat), DnsError>
    decreases count
  {
    if count == 0 then Ok(([], offset))
    else
      match Decode(input, offset)
      case Err(e) => Err(e)
      case Ok(d) =>
        var next := offset + d.consumed;
        if next + 4 > |input| then Err(Truncated)
        else
          var class_ := U16At(input, next + 2);
          var q := Question(d.wire, U16At(input, next), class_ % 0x8000, class_ / 0x8000 == 1);
          match ParseQuestions(input, next + 4, count - 1)
          case Err(e) => Err(e)
          case Ok((rest, end)) => Ok(([q] + rest, end))
  }

  datatype Message<R> = Message(id: U16, flags: U16, questions: seq<Question>, records: seq<R>)

  /** How resource records are read from an offset is left open. */
  type Records<!R> = (Bytes, nat, nat) -> Result<(seq<R>, nat), DnsError>

  /** `parse_discovery_dns_message`, given a reader for its resource records. */
  function ParseMessage<R>(input: Bytes, records: Records<R>): Result<Message<R>, DnsError> {
    if |input| > MAX_MESSAGE_BYTES then Err(MessageTooLarge)
    else if |input| < 12 then Err(Truncated)
    else
      var asked, others := U16At(input, 4), U16At(input, 6) + U16At(input, 8) + U16At(input, 10);
      if asked + others > MAX_RECORDS then Err(TooManyRecords)
      else
        match ParseQuestions(input, 12, asked)
        case Err(e) => Err(e)
        case Ok((questions, offset)) =>
          match records(input, offset, others)
          case Err(e) => Err(e)
          case Ok((rs, end)) =>
            if end != |input| then Err(InvalidRecordLength)
            else Ok(Message(U16At(input, 0), U16At(input, 2), questions, rs))
  }

  /** Every built query parses back to the same id, type, unicast bit and name, whatever reads the records. */
  lemma QueryRoundTrip<R>(id: U16, name: Bytes, queryType: U16, unicast: bool, records: Records<R>)
    requires BuildQuery(id, name, queryType, unicast).Ok?
    requires forall input: Bytes, offset: nat :: records(input, offset, 0) == Ok(([], offset))
    ensures ParseMessage(BuildQuery(id, name, queryType, unicast).value, records)
            == Ok(Message(id, 0, [Question(Print(LoweredLabels(LabelsFor(name))), queryType, 1, unicast)], []))
  {
    hide Be16, U16At, Print, LabelsFor, Walk;
    var labels, input := LabelsFor(name), BuildQuery(id, name, queryType, unicast).value;
    var wire := Print(labels);
    HeadFields(input, id);
    QuestionParsed(id, labels, queryType, unicast, input);
  }

  lemma HeadFields(input: Bytes, id: U16)
    requires |input| >= 12 && input[..12] == QueryHead(id)
    ensures U16At(input, 0) == id && U16At(input, 2) == 0 && U16At(input, 4) == 1
    ensures U16At(input, 6) == 0 && U16At(input, 8) == 0 && U16At(input, 10) == 0
  {
    hide Be16, U16At;
    var head := QueryHead(id);
    assert forall i :: 0 <= i < 12 ==> input[i] == input[..12][i] == head[i];
    U16Here(input, 0, id);
    U16Here(input, 2, 0);
    U16Here(input, 4, 1);
    U16Here(input, 6, 0);
    U16Here(input, 8, 0);
    U16Here(input, 10, 0);
  }

  lemma TailFields(head: Bytes, a: U16, b: U16)
    ensures var input := head + Be16(a) + Be16(b);
            U16At(input, |head|) == a && U16At(input, |head| + 2) == b
  {
    hide Be16, U16At;
    var input := head + Be16(a) + Be16(b);
    U16Here(input, |head|, a);
    U16Here(input, |head| + 2, b);
  }

  lemma QuestionParsed(id: U16, labels: seq<Bytes>, queryType: U16, unicast: bool, input: Bytes)
    requires WellFormed(labels) && |Print(labels)| <= MAX_NAME_BYTES
    requires input == QueryHead(id) + Print(labels) + Be16(queryType) + Be16(QueryClass(unicast))
    ensures ParseQuestions(input, 12, 1)
        == Ok(([Question(Print(LoweredLabels(labels)), queryType, 1, unicast)], |input|))
  {
    hide Be16, U16At, Print, Walk, QueryHead, Decode;
    var tail := Be16(queryType) + Be16(QueryClass(unicast));
    assert input == QueryHead(id) + Print(labels) + tail;
    DecodePrinted(QueryHead(id), labels, tail);
    TailFields(QueryHead(id) + Print(labels), queryType, QueryClass(unicast));
    var q := Question(Print(LoweredLabels(labels)), queryType, 1, unicast);
    assert ParseQuestions(input, |input|, 0) == Ok(([], |input|));
    assert [q] + [] == [q];
  }

  // ---------------------------------------------------------------------------------------
  // Which names can be encoded.

  /** The text of a name: its labels between full stops, perhaps with one at the end. The root is an empty text or a
      full stop. */
  predicate Presents(labels: seq<Bytes>, name: Bytes) {
    && WellFormed(labels) && (forall i :: 0 <= i < |labels| ==> 46 !in labels[i])
    && (name == Join(labels) || name == Join(labels) + [46])
  }

  lemma {:induction false} SplitLabel(first: Bytes, rest: Bytes)
    requires 46 !in first
    ensures Split(first) == [first] && Split(first + [46] + rest) == [first] + Split(rest)
    decreases |first|
  {
    var whole := first + [46] + rest;
    if first == [] {
      assert whole[0] == 46 && whole[1..] == rest;
      assert [[]] + Split(rest) == [first] + Split(rest);
    } else {
      SplitLabel(first[1..], rest);
      assert whole[0] == first[0] && whole[1..] == first[1..] + [46] + rest;
      assert [first[0]] + first[1..] == first;
      assert ([first[1..]] + Split(rest))[1..] == Split(rest) && [first[1..]][1..] == [];
    }
  }

  lemma {:induction false} SplitJoined(labels: seq<Bytes>)
    requires labels != [] && forall i :: 0 <= i < |labels| ==> 46 !in labels[i]
    ensures Split(Join(labels)) == labels
    decreases |labels|
  {
    hide Split;
    if |labels| == 1 {
      SplitLabel(labels[0], []);
    } else {
      SplitLabel(labels[0], Join(labels[1..]));
      SplitJoined(labels[1..]);
      assert labels == [labels[0]] + labels[1..];
    }
  }

  lemma {:induction false} LastByte(labels: seq<Bytes>)
    requires labels != [] && WellFormed(labels) && forall i :: 0 <= i < |labels| ==> 46 !in labels[i]
    ensures Join(labels) != [] && Join(labels)[|Join(labels)| - 1] != 46
    decreases |labels|
  {
    if |labels| > 1 { LastByte(labels[1..]); } else { assert labels[0][|labels[0]| - 1] in labels[0]; }
  }

  lemma PresentedLabels(labels: seq<Bytes>, name: Bytes)
    requires Presents(labels, name)
    ensures LabelsFor(name) == labels
  {
    hide Split, Join;
    if labels == [] {
      JoinNothing();
    } else {
      LastByte(labels);
      SplitJoined(labels);
      assert (Join(labels) + [46])[..|Join(labels)|] == Join(labels);
    }
  }

  lemma JoinNothing()
    ensures Join([]) == []
  {
  }

  lemma LabelsPresent(name: Bytes)
    requires WellFormed(LabelsFor(name))
    ensures Presents(LabelsFor(name), name)
  {
    hide Split, Join;
    JoinNothing();
    var text := WithoutDot(name);
    SplitExact(text);
    if name != [] && name[|name| - 1] == 46 { assert name == text + [46]; }
  }

  /** A name is encoded exactly if its labels have 1 to 63 bytes each and take at most 255 bytes together. */
  lemma EncodeExact(name: Bytes, wire: Bytes)
    ensures EncodeName(name) == Ok(wire) <==>
            exists labels :: Presents(labels, name) && |Print(labels)| <= 255 && wire == Print(labels)
  {
    hide Print, Presents, LabelsFor;
    if EncodeName(name) == Ok(wire) {
      LabelsPresent(name);
      var labels := LabelsFor(name);
      WellPresented(labels, name);
      assert Presents(labels, name) && |Print(labels)| <= 255 && wire == Print(labels);
    }
    forall labels | Presents(labels, name)
      ensures WellFormed(labels) && LabelsFor(name) == labels
    {
      WellPresented(labels, name);
      PresentedLabels(labels, name);
    }
  }

  lemma WellPresented(labels: seq<Bytes>, name: Bytes)
    requires Presents(labels, name)
    ensures WellFormed(labels)
  {
  }

  /** A query can be built for every name that can be encoded; it is never too large. */
  lemma BuildExact(id: U16, name: Bytes, queryType: U16, unicast: bool)
    ensures BuildQuery(id, name, queryType, unicast).Ok? <==> EncodeName(name).Ok?
  {
    hide Print, LabelsFor;
  }

  // ---------------------------------------------------------------------------------------
  // Which messages are accepted.

  /** Questions one after the other: a name, a type, and a class whose top bit asks for a unicast answer. */
  ghost predicate Lists(input: Bytes, offset: nat, qs: seq<Question>, end: nat)
    decreases |qs|
  {
    if qs == [] then end == offset
    else
      Decode(input, offset).Ok? &&
      var d := Decode(input, offset).value;
      var next := offset + d.consumed;
      && next + 4 <= |input| && qs[0].wire == d.wire && input[next..next + 2] == Be16(qs[0].queryType)
      && qs[0].unicast == (input[next + 2] >= 128) && qs[0].queryClass == Pair(input[next + 2] % 128, input[next + 3])
      && Lists(input, next + 4, qs[1..], end)
  }

  lemma ClassBits(input: Bytes, i: nat)
    requires i + 2 <= |input|
    ensures U16At(input, i) % 0x8000 == Pair(input[i] % 128, input[i + 1])
    ensures U16At(input, i) / 0x8000 == 1 <==> input[i] >= 128
  {
    hide U16At;
    BigPair(input, i);
    var high, low := input[i], input[i + 1];
    assert Pair(high, low) == high / 128 * 0x8000 + Pair(high % 128, low);
  }

  lemma {:induction false} QuestionsExact(input: Bytes, offset: nat, count: nat, qs: seq<Question>, end: nat)
    ensures ParseQuestions(input, offset, count) == Ok((qs, end)) <==> |qs| == count && Lists(input, offset, qs, end)
    decreases count
  {
    hide Decode, U16At, Be16;
    if count > 0 && Decode(input, offset).Ok? {
      var next := offset + Decode(input, offset).value.consumed;
      if next + 4 <= |input| {
        ClassBits(input, next + 2);
        if qs != [] {
          Word16(input, next, qs[0].queryType);
          QuestionsExact(input, next + 4, count - 1, qs[1..], end);
          assert qs == [qs[0]] + qs[1..];
        }
        var rest := ParseQuestions(input, next + 4, count - 1);
        if rest.Ok? {
          var q := Question(Decode(input, offset).value.wire, U16At(input, next), U16At(input, next + 2) % 0x8000,
                            U16At(input, next + 2) / 0x8000 == 1);
          assert ([q] + rest.value.0)[1..] == rest.value.0;
        }
      }
    }
  }

  /** A message is accepted exactly if it is bounded in bytes and records, its header counts the questions that follow,
      and the records behind them, as many as it says, end with the message. */
  ghost predicate Represents<R(!new)>(input: Bytes, records: Records<R>, m: Message<R>) {
    && 12 <= |input| <= 9000 && input[0..2] == Be16(m.id) && input[2..4] == Be16(m.flags)
    && |m.questions| <= 0xffff && input[4..6] == Be16(|m.questions|)
    && var others := U16At(input, 6) + U16At(input, 8) + U16At(input, 10);
    && |m.questions| + others <= 1024
    && exists end: nat :: Lists(input, 12, m.questions, end) && records(input, end, others) == Ok((m.records, |input|))
  }

  lemma MessageExact<R(!new)>(input: Bytes, records: Records<R>, m: Message<R>)
    ensures ParseMessage(input, records) == Ok(m) <==> Represents(input, records, m)
  {
    hide U16At, Be16, ParseQuestions, Lists;
    if |input| >= 12 {
      Word16(input, 0, m.id);
      Word16(input, 2, m.flags);
      if |m.questions| <= 0xffff { Word16(input, 4, |m.questions|); }
      var asked := U16At(input, 4);
      if ParseQuestions(input, 12, asked).Ok? {
        var (qs, end) := ParseQuestions(input, 12, asked).value;
        QuestionsExact(input, 12, asked, qs, end);
      }
      forall end: nat | Lists(input, 12, m.questions, end) && |m.questions| == asked
        ensures ParseQuestions(input, 12, asked) == Ok((m.questions, end))
      {
        QuestionsExact(input, 12, asked, m.questions, end);
      }
    }
  }
}
