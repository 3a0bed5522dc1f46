/** Bounded UDP request plans (crates/nodenet-protocols/src/udp_request.rs). */
module UdpRequest {
  import opened Wire
  import opened Patching

  const MAX_UDP_REQUEST_BYTES: nat := 4096
  const MAX_UDP_REQUEST_PATCHES: nat := 8

  datatype FieldKind = U16BigEndian | U32BigEndian | U64BigEndian | FixedBytes(length: U16)

  datatype PatchValue = Value16(v16: U16) | Value32(v32: U32) | Value64(v64: U64) | ValueBytes(bytes: Bytes)

  function Width(k: FieldKind): nat {
    match k
    case U16BigEndian => 2
    case U32BigEndian => 4
    case U64BigEndian => 8
    case FixedBytes(length) => length
  }

  datatype PatchField = PatchField(offset: U16, kind: FieldKind)

  datatype RequestPatch = RequestPatch(index: nat, value: PatchValue)

  datatype PlanError =
    | TemplateTooLarge
    | TooManyPatchFields
    | EmptyPatchField
    | PatchOutOfBounds
    | OverlappingPatchFields
    | UnknownPatchField(index: nat)
    | DuplicatePatchField(index: nat)
    | PatchValueMismatch(index: nat)
    | BufferTooSmall

  function Encoded(v: PatchValue): Bytes {
    match v
    case Value16(n) => Be16(n)
    case Value32(n) => Be32(n)
    case Value64(n) => Be32(n / 0x1_0000_0000) + Be32(n % 0x1_0000_0000)
    case ValueBytes(bytes) => bytes
  }

  predicate Matches(k: FieldKind, v: PatchValue) {
    match v
    case Value16(_) => k.U16BigEndian?
    case Value32(_) => k.U32BigEndian?
    case Value64(_) => k.U64BigEndian?
    case ValueBytes(bytes) => k.FixedBytes? && |bytes| == k.length
  }

  lemma MatchingWidth(k: FieldKind, v: PatchValue)
    requires Matches(k, v)
    ensures |Encoded(v)| == Width(k)
  {
  }

  function Spans(fs: seq<PatchField>): (spans: seq<Span>)
    ensures |spans| == |fs| && forall i :: 0 <= i < |fs| ==> spans[i] == Span(fs[i].offset, Width(fs[i].kind))
  {
    seq(|fs|, i requires 0 <= i < |fs| => Span(fs[i].offset, Width(fs[i].kind)))
  }

  function Writes(ps: seq<RequestPatch>): (ws: seq<Write>)
    ensures |ws| == |ps| && forall i :: 0 <= i < |ps| ==> ws[i] == Write(ps[i].index, Encoded(ps[i].value))
  {
    seq(|ps|, i requires 0 <= i < |ps| => Write(ps[i].index, Encoded(ps[i].value)))
  }

  /** A template within its limits whose fields are nonempty, in bounds and apart. */
  predicate Plannable(bytes: Bytes, fields: seq<PatchField>) {
    && |bytes| <= MAX_UDP_REQUEST_BYTES && |fields| <= MAX_UDP_REQUEST_PATCHES
    && (forall i :: 0 <= i < |fields| ==> Width(fields[i].kind) > 0)
    && AllInside(Spans(fields), |bytes|) && Apart(Spans(fields))
  }

  predicate Acceptable(fields: seq<PatchField>, ps: seq<RequestPatch>) {
    && (forall i :: 0 <= i < |ps| ==> ps[i].index < |fields| && Matches(fields[ps[i].index].kind, ps[i].value))
    && (forall i, j :: 0 <= i < j < |ps| ==> ps[i].index != ps[j].index)
  }

  class UdpRequestPlan {
    const bytes: Bytes
    const fields: seq<PatchField>

    ghost predicate Valid() { Plannable(bytes, fields) }

    constructor (bytes: Bytes, fields: seq<PatchField>)
      ensures this.bytes == bytes && this.fields == fields
    {
      this.bytes, this.fields := bytes, fields;
    }

    /** `new`. */
    static method Create(bytes: Bytes, fields: seq<PatchField>) returns (r: Result<UdpRequestPlan, PlanError>)
      ensures r.Ok? <==> Plannable(bytes, fields)
      ensures r.Ok? ==> r.value.bytes == bytes && r.value.fields == fields
    {
      if |bytes| > MAX_UDP_REQUEST_BYTES { return Err(TemplateTooLarge); }
      if |fields| > MAX_UDP_REQUEST_PATCHES { return Err(TooManyPatchFields); }
      var spans := Spans(fields);
      for i := 0 to |fields|
        invariant forall j :: 0 <= j < i ==> Width(fields[j].kind) > 0
        invariant AllInside(spans[..i], |bytes|) && Apart(spans[..i])
      {
        if Width(fields[i].kind) == 0 { return Err(EmptyPatchField); }
        if spans[i].offset + spans[i].length > |bytes| { return Err(PatchOutOfBounds); }
        for prior := 0 to i
          invariant forall j :: 0 <= j < prior ==> !Overlap(spans[i], spans[j])
        {
          if Overlap(spans[i], spans[prior]) { return Err(OverlappingPatchFields); }
        }
      }
      assert spans[..|fields|] == spans;
      var plan := new UdpRequestPlan(bytes, fields);
      r := Ok(plan);
    }

    /** `validate_patches`. */
    method ValidatePatches(patches: seq<RequestPatch>) returns (e: Option<PlanError>)
      requires Valid()
      ensures e.None? <==> Acceptable(fields, patches)
    {
      hide Matches;
      if |patches| > |fields| {
        TooMany(fields, patches);
        return Some(TooManyPatchFields);
      }
      var seen := new bool[MAX_UDP_REQUEST_PATCHES](_ => false);
      for i := 0 to |patches|
        invariant Acceptable(fields, patches[..i])
        invariant forall k :: 0 <= k < seen.Length ==> (seen[k] <==> exists j :: 0 <= j < i && patches[j].index == k)
      {
        var p := patches[i];
        if p.index >= |fields| { return Some(UnknownPatchField(p.index)); }
        if seen[p.index] { return Some(DuplicatePatchField(p.index)); }
        seen[p.index] := true;
        if !Matches(fields[p.index].kind, p.value) { return Some(PatchValueMismatch(p.index)); }
      }
      assert patches[..|patches|] == patches;
      e := None;
    }

    /** `instantiate_into`. */
    method InstantiateInto(output: array<Byte>, patches: seq<RequestPatch>) returns (r: Result<nat, PlanError>)
      requires Valid()
      modifies output
      ensures r.Ok? <==> Acceptable(fields, patches) && |bytes| <= output.Length
      ensures r.Err? ==> output[..] == old(output[..])
      ensures r.Ok? ==> r.value == |bytes| && Sound(Spans(fields), Writes(patches))
                        && output[..] == Apply(bytes, Spans(fields), Writes(patches)) + old(output[..])[|bytes|..]
    {
      var e := ValidatePatches(patches);
      if e.Some? { return Err(e.value); }
      if output.Length < |bytes| { return Err(BufferTooSmall); }
      SoundWrites(fields, patches);
      Instantiate(bytes, Spans(fields), Writes(patches), output);
      r := Ok(|bytes|);
    }
  }

  lemma SoundWrites(fs: seq<PatchField>, ps: seq<RequestPatch>)
    requires Acceptable(fs, ps)
    ensures Sound(Spans(fs), Writes(ps))
  {
    forall i | 0 <= i < |ps| ensures |Encoded(ps[i].value)| == Width(fs[ps[i].index].kind) {
      MatchingWidth(fs[ps[i].index].kind, ps[i].value);
    }
  }

  lemma TooMany(fs: seq<PatchField>, ps: seq<RequestPatch>)
    requires |ps| > |fs|
    ensures !Acceptable(fs, ps)
  {
    if forall i :: 0 <= i < |ps| ==> ps[i].index < |fs| {
      var indices := seq(|ps|, i requires 0 <= i < |ps| => ps[i].index);
      var i, j := Pigeonhole(indices, |fs|);
      assert ps[i].index == indices[i] == indices[j] == ps[j].index;
    }
  }
}
