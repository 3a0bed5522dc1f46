/** Frame templates (crates/nodenet-protocols/src/template.rs). */
module Template {
  import opened Wire
  import opened Packet
  import opened Patching

  const MAX_TEMPLATE_PATCH_DESCRIPTORS: nat := 32

  datatype PacketKind = Ip | Ethernet

  function MaximumLength(k: PacketKind): nat { if k.Ip? then MAX_IP_PACKET_LENGTH else 65597 }

  datatype PatchKind =
    | DestinationMac
    | SourceMac
    | SourceIpv4
    | DestinationIpv4
    | SourceIpv6
    | DestinationIpv6
    | Ipv4TotalLength
    | Ipv4Identification
    | Ipv4HeaderChecksum
    | Ipv6PayloadLength
    | Ipv6FragmentIdentification
    | TokenBytes

  function FixedLength(k: PatchKind): Option<nat> {
    match k
    case DestinationMac => Some(6)
    case SourceMac => Some(6)
    case SourceIpv4 => Some(4)
    case DestinationIpv4 => Some(4)
    case Ipv6FragmentIdentification => Some(4)
    case SourceIpv6 => Some(16)
    case DestinationIpv6 => Some(16)
    case TokenBytes => None
    case _ => Some(2)
  }

  datatype Descriptor = Descriptor(kind: PatchKind, span: Span)

  /** What `PatchDescriptor::new` guarantees of every descriptor: its width. */
  predicate WellFormed(d: Descriptor) {
    match FixedLength(d.kind)
    case Some(n) => d.span.length == n
    case None => 1 <= d.span.length <= 32
  }

  method NewDescriptor(kind: PatchKind, offset: nat, length: nat, templateLength: nat)
    returns (r: Result<Descriptor, BuildError>)
    ensures r.Ok? <==> offset + length <= templateLength && WellFormed(Descriptor(kind, Span(offset, length)))
    ensures r.Ok? ==> r.value == Descriptor(kind, Span(offset, length))
  {
    if offset + length > templateLength { return Err(InvalidValue(OtherField)); }
    match FixedLength(kind) {
      case Some(expected) => if length != expected { return Err(InvalidValue(OtherField)); }
      case None => if length == 0 || length > 32 { return Err(InvalidValue(OtherField)); }
    }
    r := Ok(Descriptor(kind, Span(offset, length)));
  }

  datatype PatchValue =
    | MacValue(octets: Bytes)
    | Ipv4Value(octets: Bytes)
    | Ipv6Value(octets: Bytes)
    | U16Value(word: U16)
    | U32Value(long: U32)
    | BytesValue(bytes: Bytes)

  /** Address values have their octets by type. */
  predicate Typed(v: PatchValue) {
    match v
    case MacValue(octets) => |octets| == 6
    case Ipv4Value(octets) => |octets| == 4
    case Ipv6Value(octets) => |octets| == 16
    case _ => true
  }

  function Encoded(v: PatchValue): Bytes {
    match v
    case MacValue(octets) => octets
    case Ipv4Value(octets) => octets
    case Ipv6Value(octets) => octets
    case U16Value(word) => Be16(word)
    case U32Value(long) => Be32(long)
    case BytesValue(bytes) => bytes
  }

  /** `patch_matches`. */
  predicate Matches(d: Descriptor, v: PatchValue) {
    match v
    case MacValue(_) => d.kind.DestinationMac? || d.kind.SourceMac?
    case Ipv4Value(_) => d.kind.SourceIpv4? || d.kind.DestinationIpv4?
    case Ipv6Value(_) => d.kind.SourceIpv6? || d.kind.DestinationIpv6?
    case U16Value(_) => d.kind.Ipv4TotalLength? || d.kind.Ipv4Identification? || d.kind.Ipv4HeaderChecksum?
        || d.kind.Ipv6PayloadLength?
    case U32Value(_) => d.kind.Ipv6FragmentIdentification?
    case BytesValue(bytes) => d.kind.TokenBytes? && |bytes| == d.span.length
  }

  /** A matching value is exactly as wide as its descriptor. */
  lemma MatchingWidth(d: Descriptor, v: PatchValue)
    requires WellFormed(d) && Typed(v) && Matches(d, v)
    ensures |Encoded(v)| == d.span.length
  {
  }

  datatype TemplatePatch = TemplatePatch(index: nat, value: PatchValue)

  function Spans(ds: seq<Descriptor>): (spans: seq<Span>)
    ensures |spans| == |ds| && forall i :: 0 <= i < |ds| ==> spans[i] == ds[i].span
  {
    seq(|ds|, i requires 0 <= i < |ds| => ds[i].span)
  }

  function Writes(ps: seq<TemplatePatch>): (ws: seq<Write>)
    ensures |ws| == |ps| && forall i :: 0 <= i < |ps| ==> ws[i] == Write(ps[i].index, Encoded(ps[i].value))
  {
    seq(|ps|, i requires 0 <= i < |ps| => Write(ps[i].index, Encoded(ps[i].value)))
  }

  /** Known descriptors, matching values, no descriptor twice. */
  predicate Acceptable(ds: seq<Descriptor>, ps: seq<TemplatePatch>) {
    && (forall i :: 0 <= i < |ps| ==> ps[i].index < |ds| && Matches(ds[ps[i].index], ps[i].value))
    && (forall i, j :: 0 <= i < j < |ps| ==> ps[i].index != ps[j].index)
  }

  class FrameTemplate {
    const bytes: Bytes
    const kind: PacketKind
    const descriptors: seq<Descriptor>

    ghost predicate Valid() {
      && |descriptors| <= MAX_TEMPLATE_PATCH_DESCRIPTORS && |bytes| <= MaximumLength(kind)
      && AllInside(Spans(descriptors), |bytes|) && Apart(Spans(descriptors))
      && (forall i :: 0 <= i < |descriptors| ==> WellFormed(descriptors[i]))
    }

    constructor (bytes: Bytes, kind: PacketKind, descriptors: seq<Descriptor>)
      ensures this.bytes == bytes && this.kind == kind && this.descriptors == descriptors
    {
      this.bytes, this.kind, this.descriptors := bytes, kind, descriptors;
    }

    /** `new`. */
    static method Create(bytes: Bytes, kind: PacketKind, descriptors: seq<Descriptor>)
      returns (r: Result<FrameTemplate, BuildError>)
      requires forall i :: 0 <= i < |descriptors| ==> WellFormed(descriptors[i])
      ensures r.Ok? <==> && |bytes| <= MaximumLength(kind) && |descriptors| <= MAX_TEMPLATE_PATCH_DESCRIPTORS
                         && AllInside(Spans(descriptors), |bytes|) && Apart(Spans(descriptors))
      ensures r.Ok? ==> r.value.Valid() && r.value.bytes == bytes && r.value.descriptors == descriptors
    {
      if |bytes| > MaximumLength(kind) { return Err(LengthExceedsLimit); }
      if |descriptors| > MAX_TEMPLATE_PATCH_DESCRIPTORS { return Err(InvalidValue(OtherField)); }
      var inside, apart := CheckSpans(Spans(descriptors), |bytes|);
      if !inside || !apart { return Err(InvalidValue(OtherField)); }
      var template := new FrameTemplate(bytes, kind, descriptors);
      r := Ok(template);
    }

    /** `validate_patches`. More patches than descriptors would have to repeat one. */
    method ValidatePatches(patches: seq<TemplatePatch>) returns (ok: bool)
      requires Valid()
      ensures ok <==> Acceptable(descriptors, patches)
    {
      hide Matches, WellFormed;
      if |patches| > |descriptors| {
        TooMany(descriptors, patches);
        return false;
      }
      var seen := new bool[MAX_TEMPLATE_PATCH_DESCRIPTORS](_ => false);
      for i := 0 to |patches|
        invariant Acceptable(descriptors, patches[..i])
        invariant forall k :: 0 <= k < seen.Length ==> (seen[k] <==> exists j :: 0 <= j < i && patches[j].index == k)
      {
        var p := patches[i];
        if p.index >= |descriptors| { return false; }
        if seen[p.index] || !Matches(descriptors[p.index], p.value) { return false; }
        seen[p.index] := true;
      }
      assert patches[..|patches|] == patches;
      ok := true;
    }

    /** `instantiate_into`: the template with its patched spans and nothing else, or an error and nothing at all. */
    method InstantiateInto(output: array<Byte>, patches: seq<TemplatePatch>) returns (r: Result<nat, BuildError>)
      requires Valid() && forall i :: 0 <= i < |patches| ==> Typed(patches[i].value)
      modifies output
      ensures r.Ok? <==> Acceptable(descriptors, patches) && |bytes| <= output.Length
      ensures r.Err? ==> output[..] == old(output[..])
      ensures r.Ok? ==> r.value == |bytes| && Patching.Sound(Spans(descriptors), Writes(patches))
                        && output[..] == Apply(bytes, Spans(descriptors), Writes(patches)) + old(output[..])[|bytes|..]
    {
      var ok := ValidatePatches(patches);
      if !ok { return Err(InvalidValue(OtherField)); }
      if output.Length < |bytes| { return Err(BufferTooSmall(|bytes|, output.Length)); }
      SoundWrites(descriptors, patches);
      Instantiate(bytes, Spans(descriptors), Writes(patches), output);
      r := Ok(|bytes|);
    }
  }

  lemma SoundWrites(ds: seq<Descriptor>, ps: seq<TemplatePatch>)
    requires Acceptable(ds, ps) && (forall i :: 0 <= i < |ds| ==> WellFormed(ds[i]))
    requires forall i :: 0 <= i < |ps| ==> Typed(ps[i].value)
    ensures Patching.Sound(Spans(ds), Writes(ps))
  {
    forall i | 0 <= i < |ps| ensures |Encoded(ps[i].value)| == ds[ps[i].index].span.length {
      MatchingWidth(ds[ps[i].index], ps[i].value);
    }
  }

  lemma TooMany(ds: seq<Descriptor>, ps: seq<TemplatePatch>)
    requires |ps| > |ds|
    ensures !Acceptable(ds, ps)
  {
    if forall i :: 0 <= i < |ps| ==> ps[i].index < |ds| {
      var indices := seq(|ps|, i requires 0 <= i < |ps| => ps[i].index);
      var i, j := Pigeonhole(indices, |ds|);
      assert ps[i].index == indices[i] == indices[j] == ps[j].index;
    }
  }
}
