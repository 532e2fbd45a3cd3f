/** The Builder's two tables (spans and containment links) and the facts
    about them that the build phases keep: every recorded span reproduces its
    string, every link is a rising occurrence, and the counting measures used
    for the buffer bound and for termination. */
module Tables {
  import opened Types
  import opened Containment

  /** Slicing `buf` at `sp` gives back `w`. */
  predicate SpanHolds(buf: Bytes, sp: Span, w: Bytes) {
    sp.length == |w| && sp.offset + sp.length <= |buf| && buf[sp.offset..sp.offset + sp.length] == w
  }

  /** Every span recorded so far reproduces its input string. */
  predicate SpansSound(vec: seq<Bytes>, buf: Bytes, spans: seq<Option<Span>>) {
    |spans| == |vec| &&
    forall j :: 0 <= j < |spans| && spans[j].Some? ==> SpanHolds(buf, spans[j].value, vec[j])
  }

  /** A link of string `p` is an occurrence inside a string ranked above `p`. */
  predicate LinkHolds(vec: seq<Bytes>, p: nat, l: Link)
    requires p < |vec|
  {
    l.container < |vec| && l.container != p && Occurs(vec[p], vec[l.container], l.offset) &&
    Rises(vec, p, l.container)
  }

  predicate LinksSound(vec: seq<Bytes>, contained: seq<Option<Link>>) {
    |contained| == |vec| &&
    forall p :: 0 <= p < |contained| && contained[p].Some? ==> LinkHolds(vec, p, contained[p].value)
  }

  /** Sum of the lengths of the strings `j < k` that have a span. */
  function PlacedLen(vec: seq<Bytes>, spans: seq<Option<Span>>, k: nat): (r: nat)
    requires k <= |vec| && |spans| == |vec|
    ensures r <= TotalLen(vec, k)
  {
    if k == 0 then 0
    else PlacedLen(vec, spans, k - 1) + (if spans[k - 1].Some? then |vec[k - 1]| else 0)
  }

  /** Sum of the lengths of the strings `j < k`: naive concatenation. */
  function TotalLen(vec: seq<Bytes>, k: nat): nat
    requires k <= |vec|
  {
    if k == 0 then 0 else TotalLen(vec, k - 1) + |vec[k - 1]|
  }

  /** Giving an unplaced string a span adds its length to the placed sum. */
  lemma {:induction false} PlacedLenSet(vec: seq<Bytes>, spans: seq<Option<Span>>, j: nat, sp: Span, k: nat)
    requires k <= |vec| && |spans| == |vec| && j < |spans| && spans[j].None?
    ensures PlacedLen(vec, spans[j := Some(sp)], k) == PlacedLen(vec, spans, k) + (if j < k then |vec[j]| else 0)
  {
    if k > 0 {
      PlacedLenSet(vec, spans, j, sp, k - 1);
    }
  }

  /** Number of strings `j < k` without a span. */
  function NoneCount(spans: seq<Option<Span>>, k: nat): (r: nat)
    requires k <= |spans|
    ensures r == 0 <==> forall j :: 0 <= j < k ==> spans[j].Some?
    ensures r <= k
  {
    if k == 0 then 0
    else NoneCount(spans, k - 1) + (if spans[k - 1].None? then 1 else 0)
  }

  /** Filling in spans never adds unplaced strings, and filling one in where
      there was none strictly lowers the count. */
  lemma {:induction false} NoneCountShrinks(a: seq<Option<Span>>, b: seq<Option<Span>>, j: nat, k: nat)
    requires |a| == |b| && k <= |a|
    requires forall i :: 0 <= i < k && a[i].Some? ==> b[i].Some?
    ensures NoneCount(b, k) <= NoneCount(a, k)
    ensures j < k && a[j].None? && b[j].Some? ==> NoneCount(b, k) < NoneCount(a, k)
  {
    if k > 0 {
      NoneCountShrinks(a, b, j, k - 1);
    }
  }

  /** Giving an unplaced string a span lowers the count by exactly one when
      the string is among the first `k`. */
  lemma {:induction false} NoneCountSet(a: seq<Option<Span>>, j: nat, sp: Span, k: nat)
    requires j < |a| && a[j].None? && k <= |a|
    ensures NoneCount(a[j := Some(sp)], k) == NoneCount(a, k) - (if j < k then 1 else 0)
  {
    if k > 0 {
      NoneCountSet(a, j, sp, k - 1);
    }
  }

  /** String `j` has no span, is linked, and its container already has one:
      the resolution loop can place it now. */
  predicate Resolvable(contained: seq<Option<Link>>, spans: seq<Option<Span>>, j: nat) {
    j < |spans| && j < |contained| && spans[j].None? && contained[j].Some? &&
    contained[j].value.container < |spans| && spans[contained[j].value.container].Some?
  }

  /** While some string lacks a span, following the (rising) links from it
      reaches one whose container is placed. This is why each pass of the
      resolution loop makes progress. */
  lemma {:induction false} ChainReachesResolved(vec: seq<Bytes>, contained: seq<Option<Link>>, spans: seq<Option<Span>>, i: nat)
    requires LinksSound(vec, contained) && |spans| == |vec|
    requires forall j :: 0 <= j < |vec| ==> |vec[j]| <= MaxStringLen
    requires forall j :: 0 <= j < |vec| && contained[j].None? ==> spans[j].Some?
    requires i < |vec| && spans[i].None?
    ensures exists j :: 0 <= j < |vec| && Resolvable(contained, spans, j)
    decreases MaxStringLen - |vec[i]|, i
  {
    var c := contained[i].value.container;
    assert LinkHolds(vec, i, contained[i].value);
    if spans[c].Some? {
      assert Resolvable(contained, spans, i);
    } else {
      ChainReachesResolved(vec, contained, spans, c);
    }
  }

  /** A slice of a slice is a slice of the whole. */
  lemma NestedSlice(buf: Bytes, a: nat, w: Bytes, s: nat, v: Bytes)
    requires a + |w| <= |buf| && buf[a..a + |w|] == w
    requires s + |v| <= |w| && w[s..s + |v|] == v
    ensures buf[a + s..a + s + |v|] == v
  {
    assert forall x :: 0 <= x < |v| ==> buf[a + s + x] == w[s + x] == v[x];
  }

  /** Appending to the buffer keeps every recorded span valid. */
  lemma AppendKeepsSpans(vec: seq<Bytes>, buf: Bytes, spans: seq<Option<Span>>, tail: Bytes)
    requires SpansSound(vec, buf, spans)
    ensures SpansSound(vec, buf + tail, spans)
  {
    forall j | 0 <= j < |spans| && spans[j].Some?
      ensures SpanHolds(buf + tail, spans[j].value, vec[j])
    {
      var sp := spans[j].value;
      assert (buf + tail)[sp.offset..sp.offset + sp.length] == buf[sp.offset..sp.offset + sp.length];
    }
  }

  /** Recording a span that reproduces string `j` keeps every span valid. */
  lemma SetKeepsSpans(vec: seq<Bytes>, buf: Bytes, spans: seq<Option<Span>>, j: nat, sp: Span)
    requires SpansSound(vec, buf, spans) && j < |spans| && SpanHolds(buf, sp, vec[j])
    ensures SpansSound(vec, buf, spans[j := Some(sp)])
  {
    var spans' := spans[j := Some(sp)];
    forall k | 0 <= k < |spans'| && spans'[k].Some?
      ensures SpanHolds(buf, spans'[k].value, vec[k])
    {
      if k != j {
        assert spans'[k] == spans[k];
      }
    }
  }

  /** String `j` got its span from its container: same length as the string,
      offset = the container's offset + the link's offset. */
  ghost predicate Inherits(vec: seq<Bytes>, contained: seq<Option<Link>>, spans: seq<Option<Span>>, j: nat) {
    j < |vec| && j < |contained| && j < |spans| && contained[j].Some? &&
    var l := contained[j].value;
    l.container < |spans| && spans[l.container].Some? &&
    spans[j] == Some(Span(spans[l.container].value.offset + l.offset, |vec[j]|))
  }

  /** With the source's link rule, a string whose first container is a
      later equal copy and that copy record each other as container. After
      phases 2 and 3 exactly the uncontained strings are placed, so neither
      of the two is. While neither is placed, neither is resolvable and the
      guard of the resolution loop (some span missing) holds. The loop only
      places resolvable strings, so that state lasts for ever. */
  lemma AsWrittenCycleStuck(vec: seq<Bytes>, contained: seq<Option<Link>>, spans: seq<Option<Span>>, p: nat)
    requires |contained| == |vec| && |spans| == |vec| && p < |vec|
    requires forall q :: 0 <= q < |vec| ==> contained[q] == FirstLink(vec, q, AsWritten)
    requires LaterCopyAmong(vec, p, |vec|)
    ensures var c := FirstLink(vec, p, AsWritten).value.container;
      c < |vec| && c != p && contained[p].Some? && contained[c].Some? &&
      ((forall j :: 0 <= j < |vec| ==> (spans[j].Some? <==> contained[j].None?)) ==> spans[p].None? && spans[c].None?)
    ensures var c := FirstLink(vec, p, AsWritten).value.container;
      c < |vec| && spans[p].None? && spans[c].None? ==>
        !Resolvable(contained, spans, p) && !Resolvable(contained, spans, c) && NoneCount(spans, |spans|) > 0
  {
    AsWrittenLaterCopyCycle(vec, p);
  }
}
