/** The `Builder`: it owns the input strings and the two tables the build
    fills in place (`contained_in` and `spans`), plus the shared buffer
    `index_string`; `build_only` runs the four phases, `build` freezes the
    result into a `SubStr`, `verify` re-slices every string. */
module Building {
  import opened Types
  import opened Text
  import opened Containment
  import opened Tables
  import opened Chaining
  import opened Packed

  /** The greatest byte length among the strings; `None` for no strings. */
  function MaxLen(vec: seq<Bytes>): (r: Option<nat>)
    ensures r.None? <==> vec == []
    ensures r.Some? ==> forall i :: 0 <= i < |vec| ==> |vec[i]| <= r.value
    ensures r.Some? ==> exists i :: 0 <= i < |vec| && |vec[i]| == r.value
  {
    if vec == [] then None
    else
      match MaxLen(vec[1..])
      case None => Some(|vec[0]|)
      case Some(m) =>
        assert exists i :: 1 <= i < |vec| && |vec[i]| == m by {
          var i :| 0 <= i < |vec[1..]| && |vec[1..][i]| == m;
          assert |vec[i + 1]| == m;
        }
        Some(if m < |vec[0]| then |vec[0]| else m)
  }

  /** Every span unwrapped, in order. */
  function Unwrapped(spans: seq<Option<Span>>): (r: seq<Span>)
    requires forall i :: 0 <= i < |spans| ==> spans[i].Some?
    ensures |r| == |spans|
    ensures forall i :: 0 <= i < |r| ==> spans[i] == Some(r[i])
  {
    if spans == [] then [] else [spans[0].value] + Unwrapped(spans[1..])
  }

  /** What phases 2 and 3 keep: sound spans, only uncontained strings
      placed, and a buffer no longer than the strings placed. */
  ghost predicate Packing(vec: seq<Bytes>, contained: seq<Option<Link>>, buf: Bytes, spans: seq<Option<Span>>) {
    |contained| == |vec| && SpansSound(vec, buf, spans) &&
    (forall j :: 0 <= j < |vec| && spans[j].Some? ==> contained[j].None?) &&
    |buf| <= PlacedLen(vec, spans, |vec|)
  }

  /** Appending `tail` and giving the unplaced, uncontained string `j` a span
      that the new buffer reproduces keeps the packing invariant and lowers
      the number of unplaced strings, provided `tail` is no longer than the
      string. */
  lemma PlaceStep(vec: seq<Bytes>, contained: seq<Option<Link>>, buf: Bytes, spans: seq<Option<Span>>,
                  j: nat, sp: Span, tail: Bytes)
    requires Packing(vec, contained, buf, spans)
    requires j < |vec| && spans[j].None? && contained[j].None? && |tail| <= |vec[j]|
    requires SpanHolds(buf + tail, sp, vec[j])
    ensures Packing(vec, contained, buf + tail, spans[j := Some(sp)])
    ensures NoneCount(spans[j := Some(sp)], |spans|) < NoneCount(spans, |spans|)
  {
    var spans' := spans[j := Some(sp)];
    PlacedLenSet(vec, spans, j, sp, |vec|);
    AppendKeepsSpans(vec, buf, spans, tail);
    SetKeepsSpans(vec, buf + tail, spans, j, sp);
    forall k | 0 <= k < |vec| && spans'[k].Some?
      ensures contained[k].None?
    {
      if k != j {
        assert spans'[k] == spans[k];
      }
    }
    NoneCountShrinks(spans, spans', j, |spans|);
  }

  /** A prefix of the buffer stays one when the buffer grows at its end. */
  lemma PrefixGrows(a: Bytes, b: Bytes, tail: Bytes)
    requires a <= b
    ensures a <= b + tail
  {
    assert (b + tail)[..|a|] == b[..|a|];
  }

  /** A string appended whole is reproduced by the span starting at the old
      end of the buffer. */
  lemma AppendWhole(buf: Bytes, w: Bytes)
    ensures SpanHolds(buf + w, Span(|buf|, |w|), w)
  {
    assert (buf + w)[|buf|..|buf| + |w|] == w;
  }

  /** The successor's span, reaching back over the part it shares with the
      string placed last, reproduces it once its tail is appended. */
  lemma ChainSpan(vec: seq<Bytes>, buf: Bytes, last: nat, n: NextStr)
    requires last < |vec| && |vec[last]| <= |buf| && SpanHolds(buf, Span(|buf| - |vec[last]|, |vec[last]|), vec[last])
    requires n.index < |vec| && 0 < Overlap(vec, n) < |vec[last]|
    requires vec[n.index] == vec[last][|vec[last]| - Overlap(vec, n)..] + n.tail
    requires n.position + Overlap(vec, n) == |buf|
    ensures SpanHolds(buf + n.tail, Span(n.position, |vec[n.index]|), vec[n.index])
  {
    ChainStepHolds(buf, vec[last], vec[n.index], n.tail, Overlap(vec, n));
  }

  /** The buffer half of a chaining step: with the successor's span recorded
      and its tail appended, the packing invariant survives and one fewer
      string is unplaced. */
  lemma ChainPlace(vec: seq<Bytes>, contained: seq<Option<Link>>, buf: Bytes, spans: seq<Option<Span>>,
                   b: map<Bytes, seq<nat>>, last: nat, n: NextStr)
    requires Packing(vec, contained, buf, spans)
    requires last < |vec| && |vec[last]| <= |buf| && spans[last] == Some(Span(|buf| - |vec[last]|, |vec[last]|))
    requires ChosenNext(vec, contained, spans, b, last, |buf|, n)
    ensures n.index < |vec| && spans[n.index].None? && |n.tail| < |vec[n.index]|
    ensures n.position + |vec[n.index]| == |buf + n.tail|
    ensures Packing(vec, contained, buf + n.tail, spans[n.index := Some(Span(n.position, |vec[n.index]|))])
    ensures NoneCount(spans[n.index := Some(Span(n.position, |vec[n.index]|))], |spans|) < NoneCount(spans, |spans|)
  {
    ChosenFacts(vec, contained, spans, b, last, |buf|, n);
    assert SpanHolds(buf, spans[last].value, vec[last]);
    ChainSpan(vec, buf, last, n);
    PlaceStep(vec, contained, buf, spans, n.index, Span(n.position, |vec[n.index]|), n.tail);
  }

  /** The bookkeeping of the chaining loop started at string `index` from
      spans `start`, with the buffer `end` bytes long: spans present at the
      start are kept, `index` is placed, and the copy of string `last` ends
      the buffer. */
  ghost predicate ChainInv(vec: seq<Bytes>, spans: seq<Option<Span>>, start: seq<Option<Span>>,
                           index: nat, first: nat, last: nat, end: nat) {
    |spans| == |vec| && |start| == |vec| &&
    (forall j :: 0 <= j < |vec| && start[j].Some? ==> spans[j] == start[j]) &&
    index < |vec| && spans[index] == Some(Span(first, |vec[index]|)) &&
    last < |vec| && |vec[last]| <= end && spans[last] == Some(Span(end - |vec[last]|, |vec[last]|))
  }

  /** The table half of a chaining step: recording the span of the
      unplaced successor, which ends the buffer at `end`, keeps the spans
      recorded before and makes the successor the last string. */
  lemma ChainKeep(vec: seq<Bytes>, spans: seq<Option<Span>>, start: seq<Option<Span>>,
                  index: nat, first: nat, last: nat, end: nat, next: nat, sp: Span, end': nat)
    requires ChainInv(vec, spans, start, index, first, last, end)
    requires next < |vec| && spans[next].None?
    requires sp.length == |vec[next]| && sp.offset + sp.length == end'
    ensures ChainInv(vec, spans[next := Some(sp)], start, index, first, next, end')
  {
    var spans' := spans[next := Some(sp)];
    forall j | 0 <= j < |vec| && start[j].Some?
      ensures spans'[j] == start[j]
    {
      assert spans[j] == start[j];
    }
  }

  /** The saving of a chain started from spans `start` on a buffer `base`
      bytes long: `chained` successors have been placed after the first
      string, and the buffer has grown by at least `chained` bytes less than
      the lengths of the strings placed, one byte or more saved per
      successor. */
  ghost predicate ChainSaving(vec: seq<Bytes>, start: seq<Option<Span>>, spans: seq<Option<Span>>,
                              base: nat, buf: Bytes, chained: nat) {
    |start| == |vec| && |spans| == |vec| &&
    chained + 1 == NoneCount(start, |vec|) - NoneCount(spans, |vec|) &&
    |buf| + chained <= base + PlacedLen(vec, spans, |vec|) - PlacedLen(vec, start, |vec|)
  }

  /** Placing the first string of the chain whole starts the saving at 0. */
  lemma ChainSavingStart(vec: seq<Bytes>, start: seq<Option<Span>>, base: nat, buf: Bytes, j: nat, sp: Span)
    requires |start| == |vec| && j < |vec| && start[j].None? && |buf| == base + |vec[j]|
    ensures ChainSaving(vec, start, start[j := Some(sp)], base, buf, 0)
  {
    PlacedLenSet(vec, start, j, sp, |vec|);
    NoneCountSet(start, j, sp, |vec|);
  }

  /** Placing a successor by appending a tail shorter than it saves one
      more byte. */
  lemma ChainSavingStep(vec: seq<Bytes>, start: seq<Option<Span>>, spans: seq<Option<Span>>,
                        base: nat, buf: Bytes, chained: nat, j: nat, sp: Span, tail: Bytes)
    requires ChainSaving(vec, start, spans, base, buf, chained)
    requires j < |vec| && spans[j].None? && |tail| < |vec[j]|
    ensures ChainSaving(vec, start, spans[j := Some(sp)], base, buf + tail, chained + 1)
  {
    PlacedLenSet(vec, spans, j, sp, |vec|);
    NoneCountSet(spans, j, sp, |vec|);
  }

  /** What the resolution loop keeps, relative to the spans `orig` it
      started from: sound spans, every uncontained string placed, spans of
      `orig` kept, every string placed since inheriting from its container,
      and the buffer no longer than the strings placed. */
  ghost predicate Resolution(vec: seq<Bytes>, contained: seq<Option<Link>>, buf: Bytes,
                             spans: seq<Option<Span>>, orig: seq<Option<Span>>) {
    SpansSound(vec, buf, spans) && |contained| == |vec| && |orig| == |vec| &&
    (forall j :: 0 <= j < |vec| && contained[j].None? ==> spans[j].Some?) &&
    (forall j :: 0 <= j < |vec| && orig[j].Some? ==> spans[j] == orig[j]) &&
    (forall j :: 0 <= j < |vec| && orig[j].None? && spans[j].Some? ==> Inherits(vec, contained, spans, j)) &&
    |buf| <= PlacedLen(vec, spans, |vec|)
  }

  /** Resolving the unplaced string `i` from its placed container keeps the
      resolution invariant: the span reproduces `i` because a slice of the
      container's slice is a slice of the buffer, and earlier resolutions
      stay valid because their containers already had spans, so none of them
      is `i`. */
  lemma ResolveStep(vec: seq<Bytes>, contained: seq<Option<Link>>, buf: Bytes,
                    spans: seq<Option<Span>>, orig: seq<Option<Span>>, i: nat, sp: Span)
    requires LinksSound(vec, contained) && Resolution(vec, contained, buf, spans, orig)
    requires Resolvable(contained, spans, i)
    requires sp == Span(spans[contained[i].value.container].value.offset + contained[i].value.offset, |vec[i]|)
    ensures Resolution(vec, contained, buf, spans[i := Some(sp)], orig)
  {
    InheritedSpanHolds(vec, contained, buf, spans, i, sp);
    SetKeepsSpans(vec, buf, spans, i, sp);
    PlacedLenSet(vec, spans, i, sp, |vec|);
    InheritsKept(vec, contained, spans, orig, i, sp);
  }

  /** The span inherited from a placed container reproduces the string: a
      slice of the container's slice is a slice of the buffer. */
  lemma InheritedSpanHolds(vec: seq<Bytes>, contained: seq<Option<Link>>, buf: Bytes,
                           spans: seq<Option<Span>>, i: nat, sp: Span)
    requires LinksSound(vec, contained) && SpansSound(vec, buf, spans)
    requires Resolvable(contained, spans, i)
    requires sp == Span(spans[contained[i].value.container].value.offset + contained[i].value.offset, |vec[i]|)
    ensures SpanHolds(buf, sp, vec[i])
  {
    var l := contained[i].value;
    var cs := spans[l.container].value;
    assert LinkHolds(vec, i, l);
    assert SpanHolds(buf, cs, vec[l.container]);
    NestedSlice(buf, cs.offset, vec[l.container], l.offset, vec[i]);
  }

  /** Resolving `i` keeps every earlier resolution an inheritance: their
      containers were placed, so none of them is the unplaced `i`. */
  lemma InheritsKept(vec: seq<Bytes>, contained: seq<Option<Link>>, spans: seq<Option<Span>>,
                     orig: seq<Option<Span>>, i: nat, sp: Span)
    requires |spans| == |vec| && |orig| == |vec| && |contained| == |vec|
    requires forall j :: 0 <= j < |vec| && orig[j].None? && spans[j].Some? ==> Inherits(vec, contained, spans, j)
    requires Resolvable(contained, spans, i)
    requires sp == Span(spans[contained[i].value.container].value.offset + contained[i].value.offset, |vec[i]|)
    ensures forall j :: 0 <= j < |vec| && orig[j].None? && spans[i := Some(sp)][j].Some? ==>
              Inherits(vec, contained, spans[i := Some(sp)], j)
  {
    var spans' := spans[i := Some(sp)];
    assert Inherits(vec, contained, spans', i);
    forall j | 0 <= j < |vec| && orig[j].None? && spans'[j].Some?
      ensures Inherits(vec, contained, spans', j)
    {
      if j != i {
        assert Inherits(vec, contained, spans, j);
      }
    }
  }

  /** The state of one sweep that started from spans `start` and has
      visited the strings below `i`: the resolution invariant holds, spans of
      `start` are kept, and every visited string that was resolvable at the
      start is placed. */
  ghost predicate SweepInv(vec: seq<Bytes>, contained: seq<Option<Link>>, buf: Bytes,
                           spans: seq<Option<Span>>, orig: seq<Option<Span>>, start: seq<Option<Span>>, i: nat) {
    Resolution(vec, contained, buf, spans, orig) && |start| == |vec| &&
    (forall j :: 0 <= j < |vec| && start[j].Some? ==> spans[j] == start[j]) &&
    (forall j :: 0 <= j < i && Resolvable(contained, start, j) ==> spans[j].Some?)
  }

  /** The sweep resolves string `i`. */
  lemma SweepResolve(vec: seq<Bytes>, contained: seq<Option<Link>>, buf: Bytes,
                     spans: seq<Option<Span>>, orig: seq<Option<Span>>, start: seq<Option<Span>>, i: nat, sp: Span)
    requires LinksSound(vec, contained) && SweepInv(vec, contained, buf, spans, orig, start, i)
    requires Resolvable(contained, spans, i)
    requires sp == Span(spans[contained[i].value.container].value.offset + contained[i].value.offset, |vec[i]|)
    ensures SweepInv(vec, contained, buf, spans[i := Some(sp)], orig, start, i + 1)
  {
    ResolveStep(vec, contained, buf, spans, orig, i, sp);
  }

  /** The sweep passes over string `i`, which it cannot resolve now; then
      it was not resolvable at the start either, or it is already placed. */
  lemma SweepSkip(vec: seq<Bytes>, contained: seq<Option<Link>>, buf: Bytes,
                  spans: seq<Option<Span>>, orig: seq<Option<Span>>, start: seq<Option<Span>>, i: nat)
    requires SweepInv(vec, contained, buf, spans, orig, start, i)
    requires i < |vec| && !Resolvable(contained, spans, i)
    ensures SweepInv(vec, contained, buf, spans, orig, start, i + 1)
  {
    if Resolvable(contained, start, i) {
      assert spans[contained[i].value.container] == start[contained[i].value.container];
    }
  }

  class Builder {
    const vec: seq<Bytes>
    var containedIn: seq<Option<Link>>
    var indexString: Bytes
    var spans: seq<Option<Span>>
    var build: bool

    /** Nothing has been computed yet. */
    ghost predicate Initial()
      reads this
    {
      |containedIn| == |vec| && |spans| == |vec| && indexString == [] &&
      (forall i :: 0 <= i < |containedIn| ==> containedIn[i].None?) &&
      (forall i :: 0 <= i < |spans| ==> spans[i].None?)
    }

    /** The builder's invariant: strings fit a `u8` length, every link is a
        rising occurrence, every span reproduces its string, the buffer is no
        longer than the strings placed so far; fresh until built, and once
        built every string has a span. */
    ghost predicate Valid()
      reads this
    {
      (forall i :: 0 <= i < |vec| ==> |vec[i]| <= MaxStringLen) &&
      LinksSound(vec, containedIn) && SpansSound(vec, indexString, spans) &&
      |indexString| <= PlacedLen(vec, spans, |vec|) &&
      (!build ==> Initial()) &&
      (build ==> forall i :: 0 <= i < |spans| ==> spans[i].Some?)
    }

    /** Both tables sized to the input and empty, the buffer empty. */
    constructor (vec: seq<Bytes>)
      requires forall i :: 0 <= i < |vec| ==> |vec[i]| <= MaxStringLen
      ensures this.vec == vec && !build && Initial() && Valid()
    {
      this.vec := vec;
      containedIn := seq(|vec|, _ => None);
      spans := seq(|vec|, _ => None);
      indexString := [];
      build := false;
    }

    /** `from_iter`: refuses an empty input (no maximum length) and any
        string longer than 255 bytes, reporting the greatest length. */
    static method FromIter(vec: seq<Bytes>) returns (r: Result<Builder>)
      ensures vec == [] ==> r == Err(NoMaxStringLen)
      ensures vec != [] && MaxLen(vec).value > MaxStringLen ==> r == Err(StringTooLong(MaxLen(vec).value))
      ensures r.Ok? <==> vec != [] && forall i :: 0 <= i < |vec| ==> |vec[i]| <= MaxStringLen
      ensures r.Ok? ==> fresh(r.value) && r.value.vec == vec && !r.value.build && r.value.Initial() && r.value.Valid()
    {
      match MaxLen(vec) {
        case None =>
          r := Err(NoMaxStringLen);
        case Some(m) =>
          if m > MaxStringLen {
            r := Err(StringTooLong(m));
          } else {
            var b := new Builder(vec);
            r := Ok(b);
          }
      }
    }

    /** `try_from`: as `from_iter`, for an input the source requires to be
        non-empty (it unwraps the maximum). */
    static method TryFrom(vec: seq<Bytes>) returns (r: Result<Builder>)
      requires vec != []
      ensures MaxLen(vec).value > MaxStringLen ==> r == Err(StringTooLong(MaxLen(vec).value))
      ensures r.Ok? <==> forall i :: 0 <= i < |vec| ==> |vec[i]| <= MaxStringLen
      ensures r.Ok? ==> fresh(r.value) && r.value.vec == vec && !r.value.build && r.value.Initial() && r.value.Valid()
    {
      var m := MaxLen(vec).value;
      if m > MaxStringLen {
        r := Err(StringTooLong(m));
      } else {
        var b := new Builder(vec);
        r := Ok(b);
      }
    }

    /** Phase 1, `find_substrings`: each text in id order, then each pattern
        it admits that has no link yet gets the leftmost occurrence. A string
        that already had a link keeps it; the others end up with the first
        admitted container. */
    method FindSubstrings()
      requires |containedIn| == |vec|
      modifies this`containedIn
      ensures |containedIn| == |vec|
      ensures forall p :: 0 <= p < |vec| ==>
        containedIn[p] == (if old(containedIn[p]).Some? then old(containedIn[p]) else FirstLink(vec, p, Ranked))
    {
      for t := 0 to |vec|
        invariant |containedIn| == |vec|
        invariant forall p :: 0 <= p < |vec| ==>
          containedIn[p] == (if old(containedIn[p]).Some? then old(containedIn[p]) else LinkAmong(vec, p, t, Ranked))
      {
        for p := 0 to |vec|
          invariant |containedIn| == |vec|
          invariant forall q :: 0 <= q < |vec| ==>
            containedIn[q] == (if old(containedIn[q]).Some? then old(containedIn[q])
                               else LinkAmong(vec, q, if q < p then t + 1 else t, Ranked))
        {
          if Admits(Ranked, vec, p, t) && containedIn[p].None? {
            match Leftmost(vec[p], vec[t]) {
              case Some(s) =>
                containedIn := containedIn[p := Some(Link(t, s))];
              case None =>
            }
          }
        }
      }
    }
  
    /** The prefix index of `find_partial_substrings`: for each uncontained
        string, in id order, its prefix of `k` characters for `k` from 1 for
        as long as a proper split exists, each mapped to the ids that begin
        with it. */
    method MakeBeginnings() returns (b: map<Bytes, seq<nat>>)
      requires |containedIn| == |vec|
      ensures BeginningsSound(vec, containedIn, b) && BeginningsComplete(vec, containedIn, b)
    {
      b := map[];
      BeginningsStart(vec, containedIn);
      for i := 0 to |vec|
        invariant BeginningsUpTo(vec, containedIn, b, i, 0)
      {
        if containedIn[i].None? {
          var s := vec[i];
          BeginningsEnterId(vec, containedIn, b, i);
          var k := 1;
          while k < |s|
            invariant 1 <= k
            invariant BeginningsUpTo(vec, containedIn, b, i, StartOr(s, k))
          {
            match SplitAfterChar(s, k) {
              case Some((begin, _)) =>
                assert begin == s[..CharStarts(s)[k]];
                BeginningsPush(vec, containedIn, b, i, k, begin);
                b := b[begin := (if begin in b then b[begin] else []) + [i]];
              case None =>
            }
            k := k + 1;
          }
          BeginningsLeaveId(vec, containedIn, b, i, StartOr(s, k));
        } else {
          BeginningsLeaveId(vec, containedIn, b, i, 0);
        }
      }
      BeginningsFinish(vec, containedIn, b);
    }

    /** Phase 2, `find_partial_substrings`: every uncontained string without
        a span starts a chain (see `PlaceChain`). Afterwards exactly the
        uncontained strings have spans, each of which reproduces its
        string. */
    method FindPartialSubstrings()
      requires |containedIn| == |vec| && |spans| == |vec|
      requires indexString == [] && forall j :: 0 <= j < |spans| ==> spans[j].None?
      modifies this`spans, this`indexString
      ensures SpansSound(vec, indexString, spans)
      ensures forall j :: 0 <= j < |vec| ==> (spans[j].Some? <==> containedIn[j].None?)
      ensures |indexString| <= PlacedLen(vec, spans, |vec|)
    {
      var contained := containedIn;
      var beginnings := MakeBeginnings();
      for i := 0 to |vec|
        invariant Packing(vec, contained, indexString, spans)
        invariant forall j :: 0 <= j < i && contained[j].None? ==> spans[j].Some?
      {
        if contained[i].None? && spans[i].None? {
          ghost var _, _ := PlaceChain(contained, beginnings, i);
        }
      }
    }

    /** The body of phase 2 for string `index`: append it whole, then, for as
        long as `find_next_string` finds a successor of the string last
        placed, record the successor's span (reaching back over the shared
        part) and append only its tail. Spans already recorded stay. The
        `chained` successors each save at least one byte: the buffer grows
        by at most the lengths of the strings placed minus `chained`. */
    method PlaceChain(contained: seq<Option<Link>>, beginnings: map<Bytes, seq<nat>>, index: nat)
      returns (ghost last: nat, ghost chained: nat)
      requires Packing(vec, contained, indexString, spans) && BeginningsSound(vec, contained, beginnings)
      requires index < |vec| && contained[index].None? && spans[index].None?
      modifies this`spans, this`indexString
      ensures Packing(vec, contained, indexString, spans)
      ensures forall j :: 0 <= j < |vec| && old(spans[j]).Some? ==> spans[j] == old(spans[j])
      ensures old(indexString) + vec[index] <= indexString
      ensures spans[index] == Some(Span(|old(indexString)|, |vec[index]|))
      ensures last < |vec| && |vec[last]| <= |indexString|
      ensures spans[last] == Some(Span(|indexString| - |vec[last]|, |vec[last]|))
      ensures FindNextString(vec, contained, spans, beginnings, last, |indexString|).None?
      ensures chained + 1 == NoneCount(old(spans), |vec|) - NoneCount(spans, |vec|)
      ensures |indexString| + chained <= |old(indexString)| + PlacedLen(vec, spans, |vec|) - PlacedLen(vec, old(spans), |vec|)
    {
      ghost var start := spans;
      var position := |indexString|;
      ghost var first := position;
      var cur: nat := index;
      assert (indexString + vec[index])[position..position + |vec[index]|] == vec[index];
      PlaceStep(vec, contained, indexString, spans, index, Span(position, |vec[index]|), vec[index]);
      ChainSavingStart(vec, spans, position, indexString + vec[index], index, Span(position, |vec[index]|));
      spans := spans[index := Some(Span(position, |vec[index]|))];
      indexString := indexString + vec[index];
      position := position + |vec[index]|;
      ghost var head := indexString;
      chained := 0;
      var next := FindNextString(vec, contained, spans, beginnings, cur, position);
      while next.Some?
        invariant Packing(vec, contained, indexString, spans)
        invariant ChainInv(vec, spans, start, index, first, cur, |indexString|)
        invariant position == |indexString|
        invariant head <= indexString
        invariant ChainSaving(vec, start, spans, first, indexString, chained)
        invariant next == FindNextString(vec, contained, spans, beginnings, cur, position)
        decreases NoneCount(spans, |spans|)
      {
        var n := next.value;
        ChainPlace(vec, contained, indexString, spans, beginnings, cur, n);
        ChainKeep(vec, spans, start, index, first, cur, |indexString|, n.index, Span(n.position, |vec[n.index]|), |indexString + n.tail|);
        PrefixGrows(head, indexString, n.tail);
        ChainSavingStep(vec, start, spans, first, indexString, chained, n.index, Span(n.position, |vec[n.index]|), n.tail);
        chained := chained + 1;
        spans := spans[n.index := Some(Span(n.position, |vec[n.index]|))];
        indexString := indexString + n.tail;
        cur := n.index;
        position := n.position + |vec[n.index]|;
        next := FindNextString(vec, contained, spans, beginnings, cur, position);
      }
      last := cur;
    }

    /** Phase 3, `join_loose_strings`: every uncontained string still
        without a span is appended whole, in id order. The buffer only grows
        at its end, spans recorded before stay, and if phase 2 already placed
        every uncontained string nothing changes. */
    method JoinLooseStrings()
      requires Packing(vec, containedIn, indexString, spans)
      modifies this`spans, this`indexString
      ensures Packing(vec, containedIn, indexString, spans)
      ensures forall j :: 0 <= j < |vec| ==> (spans[j].Some? <==> containedIn[j].None?)
      ensures forall j :: 0 <= j < |vec| && old(spans[j]).Some? ==> spans[j] == old(spans[j])
      ensures old(indexString) <= indexString
      ensures (forall j :: 0 <= j < |vec| && containedIn[j].None? ==> old(spans[j]).Some?) ==>
                indexString == old(indexString) && spans == old(spans)
    {
      ghost var covered := forall j :: 0 <= j < |vec| && containedIn[j].None? ==> spans[j].Some?;
      for i := 0 to |vec|
        invariant Packing(vec, containedIn, indexString, spans)
        invariant forall j :: 0 <= j < i && containedIn[j].None? ==> spans[j].Some?
        invariant forall j :: 0 <= j < |vec| && old(spans[j]).Some? ==> spans[j] == old(spans[j])
        invariant old(indexString) <= indexString
        invariant covered ==> indexString == old(indexString) && spans == old(spans)
      {
        if containedIn[i].None? && spans[i].None? {
          var position := |indexString|;
          AppendWhole(indexString, vec[i]);
          PlaceStep(vec, containedIn, indexString, spans, i, Span(position, |vec[i]|), vec[i]);
          spans := spans[i := Some(Span(position, |vec[i]|))];
          indexString := indexString + vec[i];
        }
      }
    }

    /** Phase 4, `join_substrings`: while some string lacks a span, sweep
        over the linked strings (`Sweep`). Every sweep places at least one
        string because links rise, so the loop ends with every string placed,
        each contained one inheriting its span from its container; the buffer
        is not touched. */
    method JoinSubstrings()
      requires LinksSound(vec, containedIn) && SpansSound(vec, indexString, spans)
      requires forall j :: 0 <= j < |vec| ==> |vec[j]| <= MaxStringLen
      requires forall j :: 0 <= j < |vec| && containedIn[j].None? ==> spans[j].Some?
      requires |indexString| <= PlacedLen(vec, spans, |vec|)
      modifies this`spans
      ensures SpansSound(vec, indexString, spans)
      ensures forall j :: 0 <= j < |vec| ==> spans[j].Some?
      ensures forall j :: 0 <= j < |vec| && old(spans[j]).Some? ==> spans[j] == old(spans[j])
      ensures forall j :: 0 <= j < |vec| && old(spans[j]).None? ==> Inherits(vec, containedIn, spans, j)
      ensures |indexString| <= PlacedLen(vec, spans, |vec|)
    {
      ghost var orig := spans;
      while NoneCount(spans, |spans|) > 0
        invariant Resolution(vec, containedIn, indexString, spans, orig)
        decreases NoneCount(spans, |spans|)
      {
        ghost var before := spans;
        ghost var i0 :| 0 <= i0 < |vec| && spans[i0].None?;
        ChainReachesResolved(vec, containedIn, spans, i0);
        ghost var w :| 0 <= w < |vec| && Resolvable(containedIn, spans, w);
        Sweep(orig);
        NoneCountShrinks(before, spans, w, |spans|);
      }
    }

    /** One pass of the loop of `join_substrings`: the linked strings in id
        order; each without a span whose container has one (possibly given
        earlier in the same pass) gets the container's offset plus the link's
        offset. Spans present before stay, and every string resolvable at the
        start of the pass is placed by its end. */
    method Sweep(ghost orig: seq<Option<Span>>)
      requires LinksSound(vec, containedIn) && Resolution(vec, containedIn, indexString, spans, orig)
      modifies this`spans
      ensures Resolution(vec, containedIn, indexString, spans, orig)
      ensures forall j :: 0 <= j < |vec| && old(spans[j]).Some? ==> spans[j] == old(spans[j])
      ensures forall j :: 0 <= j < |vec| && Resolvable(containedIn, old(spans), j) ==> spans[j].Some?
    {
      ghost var start := spans;
      for i := 0 to |vec|
        invariant SweepInv(vec, containedIn, indexString, spans, orig, start, i)
      {
        if containedIn[i].Some? && spans[i].None? {
          var l := containedIn[i].value;
          assert LinkHolds(vec, i, l);
          if spans[l.container].Some? {
            var sp := Span(spans[l.container].value.offset + l.offset, |vec[i]|);
            SweepResolve(vec, containedIn, indexString, spans, orig, start, i, sp);
            spans := spans[i := Some(sp)];
          } else {
            SweepSkip(vec, containedIn, indexString, spans, orig, start, i);
          }
        } else {
          SweepSkip(vec, containedIn, indexString, spans, orig, start, i);
        }
      }
    }

    /** `build_only`: nothing to do once built; otherwise the four phases in
        order. Afterwards every string has the ranked first link, which is
        the source's link exactly when the source's link does not go to a
        later equal copy of the string. Every string has a span that
        reproduces it, each contained one inheriting its span from its
        container, and the buffer is no longer than the sum of the placed
        strings. */
    method BuildOnly()
      requires Valid()
      modifies this`containedIn, this`spans, this`indexString, this`build
      ensures Valid() && build
      ensures old(build) ==> containedIn == old(containedIn) && spans == old(spans) && indexString == old(indexString)
      ensures !old(build) ==> forall p :: 0 <= p < |vec| ==> containedIn[p] == FirstLink(vec, p, Ranked)
      ensures !old(build) ==> forall p :: 0 <= p < |vec| ==>
                (containedIn[p] == FirstLink(vec, p, AsWritten) <==> !LaterCopyAmong(vec, p, |vec|))
      ensures !old(build) ==> forall j :: 0 <= j < |vec| && containedIn[j].Some? ==> Inherits(vec, containedIn, spans, j)
    {
      if build {
        return;
      }
      FindSubstrings();
      forall p | 0 <= p < |vec|
        ensures containedIn[p] == FirstLink(vec, p, AsWritten) <==> !LaterCopyAmong(vec, p, |vec|)
      {
        RulesAgreeUnlessLaterCopy(vec, p, |vec|);
      }
      forall p | 0 <= p < |vec| && containedIn[p].Some?
        ensures LinkHolds(vec, p, containedIn[p].value)
      {
        RankedLinkRises(vec, p);
      }
      FindPartialSubstrings();
      JoinLooseStrings();
      JoinSubstrings();
      build := true;
    }

    /** `build`: builds if needed and freezes the result. Every string comes
        back from `get` at its own index, and the shared buffer is never
        longer than the strings laid end to end. */
    method Build() returns (r: SubStr)
      requires Valid()
      modifies this`containedIn, this`spans, this`indexString, this`build
      ensures Valid() && build
      ensures r.WellFormed() && r.Len() == |vec|
      ensures forall i :: 0 <= i < |vec| ==> r.Get(i) == Some(vec[i])
      ensures r.storage == indexString && r.StorageLen() <= TotalLen(vec, |vec|)
      ensures forall i :: 0 <= i < |vec| ==> spans[i] == Some(r.spans[i])
    {
      if !build {
        BuildOnly();
      }
      r := SubStr(Unwrapped(spans), indexString);
      forall i | 0 <= i < |vec|
        ensures SpanHolds(indexString, r.spans[i], vec[i])
      {
        assert SpanHolds(indexString, spans[i].value, vec[i]);
      }
    }

    /** `verify`: builds if needed, then re-slices every placed string from
        the buffer. The answer is exactly whether every slice matches, and on
        a valid builder it is always `true`. */
    method Verify() returns (ok: bool)
      requires Valid()
      modifies this`containedIn, this`spans, this`indexString, this`build
      ensures Valid() && build
      ensures ok <==> forall i :: 0 <= i < |vec| && spans[i].Some? ==>
        indexString[spans[i].value.offset..spans[i].value.offset + spans[i].value.length] == vec[i]
      ensures ok
    {
      if !build {
        BuildOnly();
      }
      ok := true;
      var i := 0;
      while i < |vec| && ok
        invariant 0 <= i <= |vec|
        invariant ok <==> forall j :: 0 <= j < i && spans[j].Some? ==>
          indexString[spans[j].value.offset..spans[j].value.offset + spans[j].value.length] == vec[j]
      {
        if spans[i].Some? {
          var sp := spans[i].value;
          ok := vec[i] == indexString[sp.offset..sp.offset + sp.length];
        }
        i := i + 1;
      }
    }
  }
}
