/** Disjoint spans of a template and writes into them: the common core of frame templates and request plans
    (crates/nodenet-protocols/src/template.rs, udp_request.rs). */
module Patching {
  import opened Wire
  import opened Buffers

  datatype Span = Span(offset: nat, length: nat)

  predicate Covers(s: Span, i: int) { s.offset <= i < s.offset + s.length }

  predicate Inside(s: Span, limit: nat) { s.offset + s.length <= limit }

  /** The source's overlap test. */
  predicate Overlap(s: Span, t: Span) { s.offset < t.offset + t.length && t.offset < s.offset + s.length }

  predicate AllInside(spans: seq<Span>, limit: nat) {
    forall i :: 0 <= i < |spans| ==> Inside(spans[i], limit)
  }

  predicate Apart(spans: seq<Span>) {
    forall i, j :: 0 <= i < j < |spans| ==> !Overlap(spans[j], spans[i])
  }

  /** For nonempty spans the overlap test says exactly that some position is covered twice. */
  lemma OverlapExact(s: Span, t: Span)
    requires s.length > 0 && t.length > 0
    ensures Overlap(s, t) <==> exists i :: Covers(s, i) && Covers(t, i)
  {
    if Overlap(s, t) {
      var i := if s.offset < t.offset then t.offset else s.offset;
      assert Covers(s, i) && Covers(t, i);
    }
  }

  /** Checks every span against the limit and against every earlier one. */
  method CheckSpans(spans: seq<Span>, limit: nat) returns (inside: bool, apart: bool)
    ensures inside && apart <==> AllInside(spans, limit) && Apart(spans)
    ensures !inside ==> !AllInside(spans, limit)
    ensures inside && !apart ==> !Apart(spans)
  {
    for index := 0 to |spans|
      invariant AllInside(spans[..index], limit) && Apart(spans[..index])
    {
      if spans[index].offset + spans[index].length > limit { return false, true; }
      for prior := 0 to index
        invariant forall j :: 0 <= j < prior ==> !Overlap(spans[index], spans[j])
      {
        if Overlap(spans[index], spans[prior]) { return true, false; }
      }
    }
    assert spans[..|spans|] == spans;
    inside, apart := true, true;
  }

  // ---------------------------------------------------------------------------------------
  // Writes.

  datatype Write = Write(index: nat, bytes: Bytes)

  /** Each write fills one span, and no span is written twice. */
  predicate Sound(spans: seq<Span>, ws: seq<Write>) {
    && (forall i :: 0 <= i < |ws| ==> ws[i].index < |spans| && |ws[i].bytes| == spans[ws[i].index].length)
    && (forall i, j :: 0 <= i < j < |ws| ==> ws[i].index != ws[j].index)
  }

  /** The writes in order, each over what the earlier ones left. */
  function Apply(template: Bytes, spans: seq<Span>, ws: seq<Write>): (r: Bytes)
    requires AllInside(spans, |template|) && Sound(spans, ws)
    ensures |r| == |template|
  {
    if ws == [] then template
    else
      var last := ws[|ws| - 1];
      Patch(Apply(template, spans, ws[..|ws| - 1]), spans[last.index].offset, last.bytes)
  }

  /** Outside every written span the template is unchanged. */
  lemma {:induction false} ApplyOutside(template: Bytes, spans: seq<Span>, ws: seq<Write>, p: nat)
    requires AllInside(spans, |template|) && Sound(spans, ws) && p < |template|
    requires forall i :: 0 <= i < |ws| ==> !Covers(spans[ws[i].index], p)
    ensures Apply(template, spans, ws)[p] == template[p]
    decreases |ws|
  {
    if ws != [] { ApplyOutside(template, spans, ws[..|ws| - 1], p); }
  }

  /** Inside a written span stands the value written there, whatever else is written. */
  lemma {:induction false} ApplyInside(template: Bytes, spans: seq<Span>, ws: seq<Write>, k: nat, p: nat)
    requires AllInside(spans, |template|) && Apart(spans) && Sound(spans, ws)
    requires k < |ws| && Covers(spans[ws[k].index], p)
    ensures p < |template| && Apply(template, spans, ws)[p] == ws[k].bytes[p - spans[ws[k].index].offset]
    decreases |ws|
  {
    if k < |ws| - 1 {
      ApplyInside(template, spans, ws[..|ws| - 1], k, p);
      var mine, last := ws[k].index, ws[|ws| - 1].index;
      assert !Covers(spans[last], p) by { NotBoth(spans, mine, last, p); }
    }
  }

  lemma NotBoth(spans: seq<Span>, a: nat, b: nat, p: nat)
    requires Apart(spans) && a < |spans| && b < |spans| && a != b && Covers(spans[a], p)
    ensures !Covers(spans[b], p)
  {
    if a < b { assert !Overlap(spans[b], spans[a]); } else { assert !Overlap(spans[a], spans[b]); }
  }

  /** The result does not depend on the order of the writes. */
  lemma OrderIrrelevant(template: Bytes, spans: seq<Span>, vs: seq<Write>, ws: seq<Write>)
    requires AllInside(spans, |template|) && Apart(spans) && Sound(spans, vs) && Sound(spans, ws)
    requires multiset(vs) == multiset(ws)
    ensures Apply(template, spans, vs) == Apply(template, spans, ws)
  {
    forall p | 0 <= p < |template| ensures Apply(template, spans, vs)[p] == Apply(template, spans, ws)[p] {
      SameAt(template, spans, vs, ws, p);
    }
  }

  lemma SameAt(template: Bytes, spans: seq<Span>, vs: seq<Write>, ws: seq<Write>, p: nat)
    requires AllInside(spans, |template|) && Apart(spans) && Sound(spans, vs) && Sound(spans, ws)
    requires multiset(vs) == multiset(ws) && p < |template|
    ensures Apply(template, spans, vs)[p] == Apply(template, spans, ws)[p]
  {
    if i :| 0 <= i < |vs| && Covers(spans[vs[i].index], p) {
      assert vs[i] in multiset(vs);
      assert vs[i] in multiset(ws);
      var j :| 0 <= j < |ws| && ws[j] == vs[i];
      ApplyInside(template, spans, vs, i, p);
      ApplyInside(template, spans, ws, j, p);
    } else {
      forall j | 0 <= j < |ws| ensures !Covers(spans[ws[j].index], p) {
        assert ws[j] in multiset(ws);
        assert ws[j] in multiset(vs);
      }
      ApplyOutside(template, spans, vs, p);
      ApplyOutside(template, spans, ws, p);
    }
  }

  /** The copy and the patch loop, in place. */
  method Instantiate(template: Bytes, spans: seq<Span>, ws: seq<Write>, output: array<Byte>)
    requires AllInside(spans, |template|) && Sound(spans, ws) && |template| <= output.Length
    modifies output
    ensures output[..] == Apply(template, spans, ws) + old(output[..])[|template|..]
  {
    ghost var original := output[..];
    PutNext(output, 0, template, original, []);
    assert [] + template == template;
    for i := 0 to |ws|
      invariant Written(output, original, Apply(template, spans, ws[..i]))
    {
      assert ws[..i + 1][..i] == ws[..i];
      PutAt(output, spans[ws[i].index].offset, ws[i].bytes, original, Apply(template, spans, ws[..i]));
    }
    assert ws[..|ws|] == ws;
  }

  /** More numbers below `n` than `n`: two are equal. */
  lemma {:induction false} Pigeonhole(s: seq<nat>, n: nat) returns (i: nat, j: nat)
    requires |s| > n && forall k :: 0 <= k < |s| ==> s[k] < n
    ensures i < j < |s| && s[i] == s[j]
    decreases n
  {
    assert s[0] < n;
    if k :| 0 <= k < |s| && s[k] == n - 1 {
      if l :| k < l < |s| && s[l] == n - 1 { return k, l; }
      if l :| 0 <= l < k && s[l] == n - 1 { return l, k; }
      var t := s[..k] + s[k + 1..];
      assert forall m :: 0 <= m < |t| ==> t[m] == s[if m < k then m else m + 1];
      var a, b := Pigeonhole(t, n - 1);
      i, j := if a < k then a else a + 1, if b < k then b else b + 1;
    } else {
      i, j := Pigeonhole(s, n - 1);
    }
  }
}
