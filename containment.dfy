/** Phase 1 of the build, `find_substrings`: which strings occur verbatim
    inside another input string, and where.

    The multi-pattern automaton of the source is replaced by a naive
    leftmost-occurrence search. Only matches of pattern `p` touch the link of
    `p`, and the automaton reports one pattern's matches inside one text from
    left to right, so the outcome is fixed by two choices made here: the first
    text (in ascending id order) that admits `p` wins, at the leftmost offset
    where `p` occurs in it. */
module Containment {
  import opened Types

  /** `pat` occurs in `text` starting at byte `s`. */
  predicate Occurs(pat: Bytes, text: Bytes, s: nat) {
    s + |pat| <= |text| && text[s..s + |pat|] == pat
  }

  /** The leftmost occurrence of `pat` in `text` at or after `from`. */
  function LeftmostFrom(pat: Bytes, text: Bytes, from: nat): (r: Option<nat>)
    ensures r.Some? ==> from <= r.value && Occurs(pat, text, r.value)
    ensures forall x :: from <= x && (r.None? || x < r.value) ==> !Occurs(pat, text, x)
    decreases |text| - from
  {
    if from + |pat| > |text| then None
    else if text[from..from + |pat|] == pat then Some(from)
    else LeftmostFrom(pat, text, from + 1)
  }

  function Leftmost(pat: Bytes, text: Bytes): Option<nat> {
    LeftmostFrom(pat, text, 0)
  }

  /** Which texts may hold the link of a pattern. `AsWritten` is the source's
      test (any other id); `Ranked` also refuses a later, equal copy of the
      pattern, so that equal strings do not link to each other. */
  datatype Rule = AsWritten | Ranked

  predicate Admits(rule: Rule, vec: seq<Bytes>, p: nat, t: nat)
    requires p < |vec| && t < |vec|
  {
    t != p && (rule == Ranked ==> !(vec[t] == vec[p] && p < t))
  }

  /** The link that scanning texts `0 .. t-1` in order records for pattern `p`
      when it had none: the first admitted text containing `p`, at the leftmost
      occurrence. */
  function LinkAmong(vec: seq<Bytes>, p: nat, t: nat, rule: Rule): (r: Option<Link>)
    requires p < |vec| && t <= |vec|
    ensures r.Some? ==> r.value.container < t && Admits(rule, vec, p, r.value.container)
    ensures r.Some? ==> Leftmost(vec[p], vec[r.value.container]) == Some(r.value.offset)
    ensures r.Some? ==> forall c :: 0 <= c < r.value.container && Admits(rule, vec, p, c) ==>
                          Leftmost(vec[p], vec[c]).None?
    ensures r.None? ==> forall c :: 0 <= c < t && Admits(rule, vec, p, c) ==>
                          Leftmost(vec[p], vec[c]).None?
  {
    if t == 0 then None
    else
      var prev := LinkAmong(vec, p, t - 1, rule);
      if prev.Some? then prev
      else if Admits(rule, vec, p, t - 1) then
        match Leftmost(vec[p], vec[t - 1])
        case Some(s) => Some(Link(t - 1, s))
        case None => None
      else None
  }

  /** The link `find_substrings` gives pattern `p` (over all texts). */
  function FirstLink(vec: seq<Bytes>, p: nat, rule: Rule): Option<Link>
    requires p < |vec|
  {
    LinkAmong(vec, p, |vec|, rule)
  }

  /** `p` gets a link exactly when it occurs in some admitted text. */
  lemma LinkIffContained(vec: seq<Bytes>, p: nat, rule: Rule)
    requires p < |vec|
    ensures FirstLink(vec, p, rule).Some? <==>
      exists c, x :: 0 <= c < |vec| && Admits(rule, vec, p, c) && Occurs(vec[p], vec[c], x)
  {
    var r := FirstLink(vec, p, rule);
    if r.Some? {
      assert Admits(rule, vec, p, r.value.container) && Occurs(vec[p], vec[r.value.container], r.value.offset);
    } else {
      forall c, x | 0 <= c < |vec| && Admits(rule, vec, p, c)
        ensures !Occurs(vec[p], vec[c], x)
      {
        assert Leftmost(vec[p], vec[c]).None?;
      }
    }
  }

  /** The container of a link is above its pattern in the order "longer
      first, then lower id first". */
  predicate Rises(vec: seq<Bytes>, p: nat, c: nat)
    requires p < |vec| && c < |vec|
  {
    |vec[p]| < |vec[c]| || (|vec[p]| == |vec[c]| && c < p)
  }

  /** Under the ranked rule every link rises, so links form no cycle. */
  lemma RankedLinkRises(vec: seq<Bytes>, p: nat)
    requires p < |vec|
    requires FirstLink(vec, p, Ranked).Some?
    ensures FirstLink(vec, p, Ranked).value.container < |vec|
    ensures Rises(vec, p, FirstLink(vec, p, Ranked).value.container)
  {
    var l := FirstLink(vec, p, Ranked).value;
    var c := l.container;
    assert Occurs(vec[p], vec[c], l.offset);
    if |vec[p]| == |vec[c]| {
      assert l.offset == 0;
      assert vec[c][0..|vec[c]|] == vec[c];
      assert vec[c] == vec[p];
    }
  }

  /** As written, two equal strings with nothing else to contain them record
      each other as container: a cycle. */
  lemma AsWrittenEqualPairCycle(w: Bytes)
    ensures FirstLink([w, w], 0, AsWritten) == Some(Link(1, 0))
    ensures FirstLink([w, w], 1, AsWritten) == Some(Link(0, 0))
  {
    assert w[0..|w|] == w;
    assert Leftmost(w, w) == Some(0);
  }

  /** Under the ranked rule the second copy links to the first, which stays
      unlinked. */
  lemma RankedEqualPairAcyclic(w: Bytes)
    ensures FirstLink([w, w], 0, Ranked).None?
    ensures FirstLink([w, w], 1, Ranked) == Some(Link(0, 0))
  {
    assert w[0..|w|] == w;
    assert Leftmost(w, w) == Some(0);
  }

  /** An occurrence in a text of the same length is the whole text. */
  lemma OccursSameLength(pat: Bytes, text: Bytes, s: nat)
    requires Occurs(pat, text, s)
    ensures |pat| == |text| ==> s == 0 && pat == text
  {
    if |pat| == |text| {
      assert text[0..|text|] == text;
    }
  }

  /** On pairwise-distinct inputs the two rules admit the same texts, so
      they record the same links. */
  lemma {:induction false} LinkAmongAgree(vec: seq<Bytes>, p: nat, t: nat)
    requires p < |vec| && t <= |vec|
    requires forall i, j :: 0 <= i < j < |vec| ==> vec[i] != vec[j]
    ensures LinkAmong(vec, p, t, AsWritten) == LinkAmong(vec, p, t, Ranked)
  {
    if t > 0 {
      LinkAmongAgree(vec, p, t - 1);
      assert Admits(AsWritten, vec, p, t - 1) == Admits(Ranked, vec, p, t - 1);
    }
  }

  /** On pairwise-distinct inputs the ranked rule changes nothing, and every
      link points to a strictly longer string: following links strictly
      increases the length, so resolution ends. */
  lemma DistinctInputsLinkLonger(vec: seq<Bytes>, p: nat)
    requires p < |vec|
    requires forall i, j :: 0 <= i < j < |vec| ==> vec[i] != vec[j]
    ensures FirstLink(vec, p, AsWritten) == FirstLink(vec, p, Ranked)
    ensures FirstLink(vec, p, AsWritten).Some? ==>
      FirstLink(vec, p, AsWritten).value.container < |vec| &&
      |vec[p]| < |vec[FirstLink(vec, p, AsWritten).value.container]|
  {
    LinkAmongAgree(vec, p, |vec|);
    var r := FirstLink(vec, p, Ranked);
    if r.Some? {
      var c := r.value.container;
      RankedLinkRises(vec, p);
      OccursSameLength(vec[p], vec[c], r.value.offset);
      assert vec[p] != vec[c] by {
        assert c < p ==> vec[c] != vec[p];
        assert p < c ==> vec[p] != vec[c];
      }
    }
  }

  /** As the source writes it, the first container of `p` among texts
      `0 .. t-1` is a later, equal copy of `p`. */
  predicate LaterCopyAmong(vec: seq<Bytes>, p: nat, t: nat)
    requires p < |vec| && t <= |vec|
  {
    var r := LinkAmong(vec, p, t, AsWritten);
    r.Some? && p < r.value.container && vec[r.value.container] == vec[p]
  }

  /** Once a link is recorded, scanning further texts keeps it. */
  lemma {:induction false} LinkAmongKept(vec: seq<Bytes>, p: nat, t: nat, t': nat, rule: Rule)
    requires p < |vec| && t <= t' <= |vec| && LinkAmong(vec, p, t, rule).Some?
    ensures LinkAmong(vec, p, t', rule) == LinkAmong(vec, p, t, rule)
    decreases t' - t
  {
    if t < t' {
      LinkAmongKept(vec, p, t, t' - 1, rule);
    }
  }

  /** The two rules record the same link for `p` exactly when the source's
      link does not go to a later equal copy: that is the only text the
      ranked rule refuses and the source accepts. */
  lemma {:induction false} RulesAgreeUnlessLaterCopy(vec: seq<Bytes>, p: nat, t: nat)
    requires p < |vec| && t <= |vec|
    ensures LinkAmong(vec, p, t, AsWritten) == LinkAmong(vec, p, t, Ranked) <==> !LaterCopyAmong(vec, p, t)
  {
    if t > 0 {
      RulesAgreeUnlessLaterCopy(vec, p, t - 1);
      if vec[t - 1] == vec[p] {
        assert vec[p][0..|vec[p]|] == vec[p];
        assert Leftmost(vec[p], vec[t - 1]) == Some(0);
      }
    }
  }

  /** With the source's rule, a string whose first container is a later
      equal copy and that copy link to each other, both at offset 0. */
  lemma AsWrittenLaterCopyCycle(vec: seq<Bytes>, p: nat)
    requires p < |vec| && LaterCopyAmong(vec, p, |vec|)
    ensures FirstLink(vec, p, AsWritten).value.container < |vec|
    ensures var c := FirstLink(vec, p, AsWritten).value.container;
      FirstLink(vec, p, AsWritten) == Some(Link(c, 0)) && FirstLink(vec, c, AsWritten) == Some(Link(p, 0))
  {
    var l := FirstLink(vec, p, AsWritten).value;
    var c := l.container;
    OccursSameLength(vec[p], vec[c], l.offset);
    assert vec[p][0..|vec[p]|] == vec[p];
    var below := LinkAmong(vec, c, p, AsWritten);
    if below.Some? {
      var d := below.value.container;
      assert Occurs(vec[c], vec[d], below.value.offset);
      assert Admits(AsWritten, vec, p, d);
      assert false;
    }
    assert LinkAmong(vec, c, p + 1, AsWritten) == Some(Link(p, 0));
    LinkAmongKept(vec, c, p + 1, |vec|, AsWritten);
  }

  /** In `["ab", "a", "a"]` both copies of `"a"` link to `"ab"`, which is
      scanned first, so holding a string twice does not by itself make the
      source's links cyclic. */
  lemma AsWrittenOuterContainer()
    ensures FirstLink([[97, 98], [97], [97]], 1, AsWritten) == Some(Link(0, 0))
    ensures FirstLink([[97, 98], [97], [97]], 2, AsWritten) == Some(Link(0, 0))
    ensures !LaterCopyAmong([[97, 98], [97], [97]], 1, 3)
  {
    var vec: seq<Bytes> := [[97, 98], [97], [97]];
    assert vec[0][0..1] == vec[1];
    assert Leftmost(vec[1], vec[0]) == Some(0);
    assert Leftmost(vec[2], vec[0]) == Some(0);
    LinkAmongKept(vec, 1, 1, 3, AsWritten);
    LinkAmongKept(vec, 2, 1, 3, AsWritten);
  }
}
