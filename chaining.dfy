/** Phase 2 of the build, `find_partial_substrings`: the prefix index
    (`beginnings`) and the successor search `find_next_string`. */
module Chaining {
  import opened Types
  import opened Text

  /** `key` is what `split_after_char(s, k).0` yields for some proper split:
      non-empty, shorter than `s`, a prefix of `s` ending at a char boundary. */
  predicate IsProperCharPrefix(key: Bytes, s: Bytes) {
    0 < |key| < |s| && key == s[..|key|] && IsCharBoundary(s, |key|)
  }

  /** The ids listed under `key` are uncontained strings that begin with
      `key`, in strictly ascending order, and there is at least one. */
  ghost predicate OwnersSound(vec: seq<Bytes>, contained: seq<Option<Link>>, key: Bytes, ids: seq<nat>) {
    |ids| > 0 &&
    (forall q :: 0 <= q < |ids| ==>
       ids[q] < |vec| && ids[q] < |contained| && contained[ids[q]].None? && IsProperCharPrefix(key, vec[ids[q]])) &&
    (forall q, q' :: 0 <= q < q' < |ids| ==> ids[q] < ids[q'])
  }

  ghost predicate BeginningsSound(vec: seq<Bytes>, contained: seq<Option<Link>>, b: map<Bytes, seq<nat>>) {
    forall key :: key in b ==> OwnersSound(vec, contained, key, b[key])
  }

  /** Every uncontained string is listed under each of its proper prefixes. */
  ghost predicate BeginningsComplete(vec: seq<Bytes>, contained: seq<Option<Link>>, b: map<Bytes, seq<nat>>) {
    forall j, key :: 0 <= j < |vec| && j < |contained| && contained[j].None? && IsProperCharPrefix(key, vec[j]) ==>
      key in b && j in b[key]
  }

  /** The state of the prefix index while it is being built: ids below `i`
      are done, and id `i` is done for its prefixes shorter than `lim` bytes. */
  ghost predicate BeginningsUpTo(vec: seq<Bytes>, contained: seq<Option<Link>>, b: map<Bytes, seq<nat>>, i: nat, lim: nat) {
    i <= |vec| && |contained| == |vec| &&
    (forall key :: key in b ==>
       (OwnersSound(vec, contained, key, b[key]) &&
        forall q :: 0 <= q < |b[key]| ==> b[key][q] < i || (b[key][q] == i && |key| < lim))) &&
    (forall j, key ::
       (0 <= j < |vec| && contained[j].None? && IsProperCharPrefix(key, vec[j]) &&
        (j < i || (j == i && |key| < lim))) ==> key in b && j in b[key])
  }

  lemma BeginningsStart(vec: seq<Bytes>, contained: seq<Option<Link>>)
    requires |contained| == |vec|
    ensures BeginningsUpTo(vec, contained, map[], 0, 0)
  {
  }

  /** Starting on the prefixes of string `i`: none is shorter than its first character. */
  lemma BeginningsEnterId(vec: seq<Bytes>, contained: seq<Option<Link>>, b: map<Bytes, seq<nat>>, i: nat)
    requires BeginningsUpTo(vec, contained, b, i, 0) && i < |vec|
    ensures BeginningsUpTo(vec, contained, b, i, StartOr(vec[i], 1))
  {
    ProperBoundariesAfterFirstChar(vec[i]);
  }

  /** Pushing `i` under its prefix of `k` characters extends the done part to
      the prefixes shorter than the next character start. */
  lemma {:induction false} BeginningsPush(vec: seq<Bytes>, contained: seq<Option<Link>>, b: map<Bytes, seq<nat>>, i: nat, k: nat, begin: Bytes)
    requires i < |vec| && i < |contained| && contained[i].None? && 1 <= k < |CharStarts(vec[i])|
    requires BeginningsUpTo(vec, contained, b, i, StartOr(vec[i], k))
    requires begin == vec[i][..CharStarts(vec[i])[k]]
    ensures BeginningsUpTo(vec, contained, b[begin := (if begin in b then b[begin] else []) + [i]], i, StartOr(vec[i], k + 1))
  {
    var s := vec[i];
    var cs := CharStarts(s);
    NoStartBetween(s, k);
    assert cs[0] < cs[k];
    assert IsProperCharPrefix(begin, s);
    var b' := b[begin := (if begin in b then b[begin] else []) + [i]];
    forall key | key in b'
      ensures OwnersSound(vec, contained, key, b'[key])
      ensures forall q :: 0 <= q < |b'[key]| ==> b'[key][q] < i || (b'[key][q] == i && |key| < StartOr(s, k + 1))
    {
      if key == begin && begin in b {
        var old_ := b[begin];
        assert forall q :: 0 <= q < |old_| ==> old_[q] < i;
      }
    }
    forall j, key | 0 <= j < |vec| && contained[j].None? && IsProperCharPrefix(key, vec[j]) &&
        (j < i || (j == i && |key| < StartOr(s, k + 1)))
      ensures key in b' && j in b'[key]
    {
      if j == i && |key| >= StartOr(s, k) {
        assert |key| == cs[k];
        assert key == begin;
      }
    }
  }

  /** String `i` done with all its prefixes: move on to `i + 1`. */
  lemma BeginningsLeaveId(vec: seq<Bytes>, contained: seq<Option<Link>>, b: map<Bytes, seq<nat>>, i: nat, lim: nat)
    requires i < |vec| && BeginningsUpTo(vec, contained, b, i, lim)
    requires contained[i].Some? || lim >= |vec[i]|
    ensures BeginningsUpTo(vec, contained, b, i + 1, 0)
  {
  }

  lemma BeginningsFinish(vec: seq<Bytes>, contained: seq<Option<Link>>, b: map<Bytes, seq<nat>>)
    requires BeginningsUpTo(vec, contained, b, |vec|, 0)
    ensures BeginningsSound(vec, contained, b) && BeginningsComplete(vec, contained, b)
  {
  }

  /** The result of `find_next_string`: the successor's id, its start in the
      buffer, and the part of it not already in the buffer. */
  datatype NextStr = NextStr(index: nat, position: nat, tail: Bytes)

  /** Every id in `ids` has a span. */
  predicate AllPlaced(ids: seq<nat>, spans: seq<Option<Span>>) {
    forall q :: 0 <= q < |ids| ==> ids[q] < |spans| && spans[ids[q]].Some?
  }

  /** The position in `ids` (from `q` on) of the first id without a span. */
  function FirstUnplacedFrom(ids: seq<nat>, spans: seq<Option<Span>>, q: nat): (r: Option<nat>)
    requires q <= |ids|
    requires forall x :: 0 <= x < |ids| ==> ids[x] < |spans|
    ensures r.Some? ==> q <= r.value < |ids| && spans[ids[r.value]].None?
    ensures forall x :: q <= x < |ids| && (r.None? || x < r.value) ==> spans[ids[x]].Some?
    decreases |ids| - q
  {
    if q == |ids| then None
    else if spans[ids[q]].None? then Some(q)
    else FirstUnplacedFrom(ids, spans, q + 1)
  }

  /** Every id listed in `ids` below `x` has a span. */
  predicate PlacedBelow(ids: seq<nat>, spans: seq<Option<Span>>, x: nat) {
    forall q :: 0 <= q < |ids| && ids[q] < x ==> ids[q] < |spans| && spans[ids[q]].Some?
  }

  /** Every proper suffix of `s` starting at a char boundary in `[lo, hi)`
      that is a key of `b` lists only placed ids. */
  ghost predicate SuffixesPlaced(s: Bytes, b: map<Bytes, seq<nat>>, spans: seq<Option<Span>>, lo: nat, hi: int) {
    forall j :: lo <= j < hi && j <= |s| && IsCharBoundary(s, j) && s[j..] in b ==> AllPlaced(b[s[j..]], spans)
  }

  /** How many bytes of the successor are shared with its predecessor. */
  function Overlap(vec: seq<Bytes>, n: NextStr): int
    requires n.index < |vec|
  {
    |vec[n.index]| - |n.tail|
  }

  /** `n` is a valid successor of string `index` whose copy ends at `position`:
      an unplaced, uncontained string listed under a proper suffix `end` of
      `vec[index]`, `vec[n.index] == end + n.tail` with a non-empty tail, it
      starts `|end|` bytes before `position`, and it is the lowest unplaced
      id listed under `end`. */
  ghost predicate ChosenNext(vec: seq<Bytes>, contained: seq<Option<Link>>, spans: seq<Option<Span>>,
                             b: map<Bytes, seq<nat>>, index: nat, position: nat, n: NextStr)
    requires index < |vec| && |spans| == |vec| && |contained| == |vec|
  {
    var s := vec[index];
    n.index < |vec| && spans[n.index].None? && contained[n.index].None? &&
    0 < |n.tail| < |vec[n.index]| &&
    var ov := Overlap(vec, n);
    ov < |s| && IsCharBoundary(s, |s| - ov) &&
    vec[n.index] == s[|s| - ov..] + n.tail && n.position + ov == position &&
    s[|s| - ov..] in b && n.index in b[s[|s| - ov..]] && PlacedBelow(b[s[|s| - ov..]], spans, n.index)
  }

  /** What a chosen successor gives the chaining loop: a string without a
      span or a link that is a non-empty part of the end of `vec[index]`
      followed by a non-empty tail, starting that part's length before
      `position`. */
  lemma ChosenFacts(vec: seq<Bytes>, contained: seq<Option<Link>>, spans: seq<Option<Span>>,
                    b: map<Bytes, seq<nat>>, index: nat, position: nat, n: NextStr)
    requires index < |vec| && |spans| == |vec| && |contained| == |vec|
    requires ChosenNext(vec, contained, spans, b, index, position, n)
    ensures n.index < |vec| && spans[n.index].None? && contained[n.index].None?
    ensures 0 < Overlap(vec, n) < |vec[index]| && 0 < |n.tail| < |vec[n.index]|
    ensures vec[n.index] == vec[index][|vec[index]| - Overlap(vec, n)..] + n.tail
    ensures n.position + Overlap(vec, n) == position
  {
  }

  /** What split point `k` of `find_next_string` looks at: the suffix that
      starts at the `k`-th character start. */
  lemma SplitSuffix(s: Bytes, k: nat, begin: Bytes, end: Bytes)
    requires 1 <= k && SplitAfterChar(s, k) == Some((begin, end))
    ensures k < |CharStarts(s)| && StartOr(s, k) == CharStarts(s)[k]
    ensures 0 < StartOr(s, k) < |s| && IsCharBoundary(s, StartOr(s, k)) && end == s[StartOr(s, k)..]
  {
    var cs := CharStarts(s);
    assert cs[0] < cs[k];
  }

  /** Split point `k` gave nothing: the suffixes checked from `k` on are
      those checked from `k + 1` on plus the one at the `k`-th start. */
  lemma ScanSkip(s: Bytes, b: map<Bytes, seq<nat>>, spans: seq<Option<Span>>, k: nat, hi: int)
    requires 1 <= k < |s| && hi <= |s|
    requires SuffixesPlaced(s, b, spans, StartOr(s, k + 1), hi)
    requires k < |CharStarts(s)| && s[StartOr(s, k)..] in b ==> AllPlaced(b[s[StartOr(s, k)..]], spans)
    ensures SuffixesPlaced(s, b, spans, StartOr(s, k), hi)
  {
    if k < |CharStarts(s)| {
      NoStartBetween(s, k);
    }
  }

  /** The first unplaced id listed under the `k`-th suffix is a valid,
      lowest-id successor. */
  lemma PickIsChosen(vec: seq<Bytes>, contained: seq<Option<Link>>, spans: seq<Option<Span>>,
                     b: map<Bytes, seq<nat>>, index: nat, position: nat, k: nat, end: Bytes, q: nat)
    requires index < |vec| && |spans| == |vec| && |contained| == |vec|
    requires BeginningsSound(vec, contained, b)
    requires |vec[index]| <= position
    requires 1 <= k < |CharStarts(vec[index])| && StartOr(vec[index], k) == CharStarts(vec[index])[k]
    requires 0 < StartOr(vec[index], k) && IsCharBoundary(vec[index], StartOr(vec[index], k))
    requires end == vec[index][StartOr(vec[index], k)..] && end in b
    requires forall x :: 0 <= x < |b[end]| ==> b[end][x] < |spans|
    requires FirstUnplacedFrom(b[end], spans, 0) == Some(q)
    ensures q < |b[end]| && |end| < |vec[b[end][q]]|
    ensures var n := NextStr(b[end][q], position - |end|, vec[b[end][q]][|end|..]);
      ChosenNext(vec, contained, spans, b, index, position, n) && Overlap(vec, n) == |end|
  {
    var ids := b[end];
    assert OwnersSound(vec, contained, end, ids);
    var next := ids[q];
    assert IsProperCharPrefix(end, vec[next]);
    assert vec[next] == end + vec[next][|end|..];
    assert forall x :: 0 <= x < |ids| && ids[x] < next ==> x < q;
  }

  /** The loop of `find_next_string` from split point `k` on. */
  function ScanSuffixes(vec: seq<Bytes>, contained: seq<Option<Link>>, spans: seq<Option<Span>>,
                        b: map<Bytes, seq<nat>>, index: nat, position: nat, k: nat): (r: Option<NextStr>)
    requires index < |vec| && |spans| == |vec| && |contained| == |vec|
    requires BeginningsSound(vec, contained, b)
    requires |vec[index]| <= position && 1 <= k
    ensures r.Some? ==> ChosenNext(vec, contained, spans, b, index, position, r.value)
    ensures r.Some? ==> SuffixesPlaced(vec[index], b, spans, StartOr(vec[index], k), |vec[index]| - Overlap(vec, r.value))
    ensures r.None? ==> SuffixesPlaced(vec[index], b, spans, StartOr(vec[index], k), |vec[index]|)
    decreases |vec[index]| - k
  {
    var s := vec[index];
    if k >= |s| then None
    else
      match SplitAfterChar(s, k)
      case None =>
        var r := ScanSuffixes(vec, contained, spans, b, index, position, k + 1);
        ScanSkip(s, b, spans, k, if r.Some? then |s| - Overlap(vec, r.value) else |s|);
        r
      case Some((begin, end)) =>
        SplitSuffix(s, k, begin, end);
        assert end in b ==> OwnersSound(vec, contained, end, b[end]);
        if end in b && FirstUnplacedFrom(b[end], spans, 0).Some? then
          var q := FirstUnplacedFrom(b[end], spans, 0).value;
          PickIsChosen(vec, contained, spans, b, index, position, k, end, q);
          Some(NextStr(b[end][q], position - |end|, vec[b[end][q]][|end|..]))
        else
          var r := ScanSuffixes(vec, contained, spans, b, index, position, k + 1);
          ScanSkip(s, b, spans, k, if r.Some? then |s| - Overlap(vec, r.value) else |s|);
          r
  }

  /** `find_next_string`: split points are tried from 1 up, so the longest
      proper char-boundary suffix of `vec[index]` that is a key of the
      prefix index and lists an unplaced string wins; under that suffix, the
      lowest unplaced id wins. `None` means every proper char-boundary
      suffix that is a key of the prefix index lists only placed strings.
      The index holds only uncontained strings, so no unplaced uncontained
      string begins with such a suffix. */
  function FindNextString(vec: seq<Bytes>, contained: seq<Option<Link>>, spans: seq<Option<Span>>,
                          b: map<Bytes, seq<nat>>, index: nat, position: nat): (r: Option<NextStr>)
    requires index < |vec| && |spans| == |vec| && |contained| == |vec|
    requires BeginningsSound(vec, contained, b)
    requires |vec[index]| <= position
    ensures r.Some? ==> ChosenNext(vec, contained, spans, b, index, position, r.value)
    ensures r.Some? ==> SuffixesPlaced(vec[index], b, spans, 1, |vec[index]| - Overlap(vec, r.value))
    ensures r.None? ==> SuffixesPlaced(vec[index], b, spans, 1, |vec[index]|)
  {
    ProperBoundariesAfterFirstChar(vec[index]);
    ScanSuffixes(vec, contained, spans, b, index, position, 1)
  }

  /** After a successor is chained, its span reproduces it: the shared part
      is the end of the previous string, already at the end of the buffer. */
  lemma ChainStepHolds(buf: Bytes, s: Bytes, w: Bytes, tail: Bytes, ov: nat)
    requires |s| <= |buf| && buf[|buf| - |s|..|buf|] == s
    requires 0 < ov <= |s| && w == s[|s| - ov..] + tail
    ensures |buf| - ov + |w| == |buf + tail|
    ensures (buf + tail)[|buf| - ov..|buf| - ov + |w|] == w
  {
    assert buf[|buf| - |s|..] == buf[|buf| - |s|..|buf|];
    assert (buf + tail)[|buf| - ov..] == buf[|buf| - ov..] + tail;
    assert buf[|buf| - ov..] == s[|s| - ov..];
  }
}
