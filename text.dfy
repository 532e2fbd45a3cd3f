/** Character boundaries of UTF-8 byte strings and `split_after_char`. */
module Text {
  import opened Types

  /** A UTF-8 continuation byte (`10xxxxxx`). */
  predicate IsContinuation(b: uint8) {
    0x80 <= b < 0xC0
  }

  /** Rust's `str::is_char_boundary`: true at 0 and at the length, false
      beyond the length, and otherwise true unless the byte there continues
      a multi-byte character. */
  predicate IsCharBoundary(s: Bytes, i: nat) {
    i == 0 || i == |s| || (i < |s| && !IsContinuation(s[i]))
  }

  /** The byte indices in `[i, |s|)` at which a character starts, ascending. */
  function CharStartsFrom(s: Bytes, i: nat): (r: seq<nat>)
    requires i <= |s|
    ensures |r| <= |s| - i
    ensures forall m :: 0 <= m < |r| ==> i <= r[m] < |s| && IsCharBoundary(s, r[m])
    ensures forall m, m' :: 0 <= m < m' < |r| ==> r[m] < r[m']
    ensures forall j :: i <= j < |s| && IsCharBoundary(s, j) ==> j in r
    decreases |s| - i
  {
    if i == |s| then []
    else (if IsCharBoundary(s, i) then [i] else []) + CharStartsFrom(s, i + 1)
  }

  /** What `s.char_indices()` enumerates: the start of every character. */
  function CharStarts(s: Bytes): (r: seq<nat>)
    ensures |r| <= |s|
    ensures |s| > 0 ==> |r| > 0 && r[0] == 0
  {
    var r := CharStartsFrom(s, 0);
    if |s| > 0 then assert 0 in r; r else r
  }

  /** The byte index of the `k`-th character start, or the length when `s`
      has no more than `k` characters. */
  function StartOr(s: Bytes, k: nat): nat {
    var cs := CharStarts(s);
    if k < |cs| then cs[k] else |s|
  }

  /** A boundary strictly after the `k`-th character start is no earlier than
      the next one: there is no character start between two consecutive ones. */
  lemma {:induction false} NextStartGap(s: Bytes, k: nat, j: nat)
    requires k < |CharStarts(s)|
    requires CharStarts(s)[k] < j < |s| && IsCharBoundary(s, j)
    ensures StartOr(s, k + 1) <= j
  {
    var cs := CharStarts(s);
    assert j in cs;
    var m :| 0 <= m < |cs| && cs[m] == j;
    assert k < m;
  }

  /** Every boundary strictly inside `s` is at or after its second character start. */
  lemma ProperBoundariesAfterFirstChar(s: Bytes)
    ensures forall j :: 0 < j < |s| && IsCharBoundary(s, j) ==> StartOr(s, 1) <= j
  {
    forall j | 0 < j < |s| && IsCharBoundary(s, j)
      ensures StartOr(s, 1) <= j
    {
      NextStartGap(s, 0, j);
    }
  }

  /** The quantified form of NextStartGap, and the fact that the next start
      lies beyond the current one. */
  lemma NoStartBetween(s: Bytes, k: nat)
    requires k < |CharStarts(s)|
    ensures CharStarts(s)[k] < StartOr(s, k + 1)
    ensures forall j :: CharStarts(s)[k] < j < |s| && IsCharBoundary(s, j) ==> StartOr(s, k + 1) <= j
  {
    forall j | CharStarts(s)[k] < j < |s| && IsCharBoundary(s, j)
      ensures StartOr(s, k + 1) <= j
    {
      NextStartGap(s, k, j);
    }
  }

  /** Only a proof helper: regrouping a concatenation, stated apart from
      any character-boundary fact so that `PrefixCharStarts` stays cheap. */
  lemma ConcatAssoc(x: seq<nat>, y: seq<nat>, z: seq<nat>)
    ensures (x + y) + z == x + (y + z)
  {
  }

  /** The character starts of a prefix followed by those of the rest are the
      character starts of the whole. */
  lemma {:induction false} PrefixCharStarts(s: Bytes, c: nat, i: nat)
    requires i <= c <= |s|
    ensures CharStartsFrom(s[..c], i) + CharStartsFrom(s, c) == CharStartsFrom(s, i)
    decreases c - i
  {
    if i < c {
      PrefixCharStarts(s, c, i + 1);
      assert IsCharBoundary(s[..c], i) == IsCharBoundary(s, i);
      var head: seq<nat> := if IsCharBoundary(s, i) then [i] else [];
      ConcatAssoc(head, CharStartsFrom(s[..c], i + 1), CharStartsFrom(s, c));
    }
  }

  /** The prefix ending at the `k`-th character start has exactly `k` characters. */
  lemma CharCountOfPrefix(s: Bytes, k: nat)
    requires k < |CharStarts(s)|
    ensures |CharStarts(s[..CharStarts(s)[k]])| == k
  {
    var cs := CharStarts(s);
    var c := cs[k];
    PrefixCharStarts(s, c, 0);
    var a := CharStarts(s[..c]);
    var b := CharStartsFrom(s, c);
    assert cs == a + b;
    assert c in b;
    var m :| 0 <= m < |b| && b[m] == c;
    assert b[0] <= b[m];
    assert cs[|a|] == b[0] == c;
    assert forall q :: 0 <= q < |a| ==> cs[q] == a[q] < c;
  }

  /** `split_after_char(s, k)`: split `s` after its first `k` characters;
      `None` when `k` is 0 or when `s` has no more than `k` characters. */
  function SplitAfterChar(s: Bytes, k: nat): (r: Option<(Bytes, Bytes)>)
    ensures r.None? <==> (k == 0 || k >= |CharStarts(s)|)
    ensures r.Some? ==> r.value.0 + r.value.1 == s
    ensures r.Some? ==> |CharStarts(r.value.0)| == k
    ensures r.Some? ==> 0 < |r.value.0| < |s| && IsCharBoundary(s, |r.value.0|)
    ensures r.Some? ==> |r.value.0| == CharStarts(s)[k]
  {
    if k == 0 then None
    else
      var cs := CharStarts(s);
      if k < |cs| then
        CharCountOfPrefix(s, k);
        assert cs[0] < cs[k];
        assert s[..cs[k]] + s[cs[k]..] == s;
        Some((s[..cs[k]], s[cs[k]..]))
      else None
  }
}
