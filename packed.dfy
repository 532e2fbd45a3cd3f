/** The frozen result of a build: `SubStr`, one shared buffer plus one span
    per string, and its cursor `Iter`. */
module Packed {
  import opened Types
  import opened Text

  /** The outcome of an expression that may panic. */
  datatype Outcome<+T> = Panic | Done(value: T)

  datatype SubStr = SubStr(spans: seq<Span>, storage: Bytes) {

    /** Every span lies inside the buffer; slicing outside it would panic. */
    predicate WellFormed() {
      forall i :: 0 <= i < |spans| ==> spans[i].offset + spans[i].length <= |storage|
    }

    /** `len`: the number of strings, one per span. */
    function Len(): (r: nat)
      ensures r == |spans|
    {
      |spans|
    }

    /** `storage_len`: the byte length of the shared buffer. */
    function StorageLen(): (r: nat)
      ensures r == |storage|
    {
      |storage|
    }

    /** `is_empty`. */
    function IsEmpty(): (r: bool)
      ensures r <==> Len() == 0
    {
      |spans| == 0
    }

    /** `get` as the source writes it. `then_some` receives its argument
        already evaluated, so `spans[index]` is read before the range test
        can decide, and every index from `Len()` on panics instead of giving
        `None`. Slicing a `str` also panics when either end of the span is
        not a char boundary. */
    function GetAsWritten(index: nat): (r: Outcome<Option<Bytes>>)
      requires WellFormed()
      ensures r.Panic? <==>
                (index >= Len() ||
                 !IsCharBoundary(storage, spans[index].offset) ||
                 !IsCharBoundary(storage, spans[index].offset + spans[index].length))
      ensures r.Done? ==> r.value == Get(index)
    {
      if index < |spans| then
        var a := spans[index].offset;
        var b := spans[index].offset + spans[index].length;
        if IsCharBoundary(storage, a) && IsCharBoundary(storage, b) then
          var arg := storage[a..b];
          Done(if index < |spans| then Some(arg) else None)
        else Panic
      else Panic
    }

    /** `get`: the string at `index`, absent exactly for indices from `Len()` on. */
    function Get(index: nat): (r: Option<Bytes>)
      requires WellFormed()
      ensures r.None? <==> index >= Len()
      ensures r.Some? ==> |r.value| == spans[index].length
      ensures r.Some? ==> r.value == storage[spans[index].offset..spans[index].offset + spans[index].length]
    {
      if index < |spans| then
        Some(storage[spans[index].offset..spans[index].offset + spans[index].length])
      else None
    }

    /** `before`: the buffer bytes in front of string `index`, about `len` of
        them: the slice ends where the string starts and begins at the greatest
        char boundary at or below `max(0, start - len)`. */
    method Before(index: nat, len: nat) returns (r: Option<Bytes>)
      requires WellFormed()
      ensures r.None? <==> index >= Len()
      ensures r.Some? ==>
        var pos := spans[index].offset;
        var lo := if pos < len then 0 else pos - len;
        |r.value| <= pos &&
        var start := pos - |r.value|;
        start <= lo && IsCharBoundary(storage, start) &&
        (forall j: nat :: start < j <= lo ==> !IsCharBoundary(storage, j)) &&
        r.value == storage[start..pos]
    {
      if index < |spans| {
        var position := spans[index].offset;
        var lo: nat := if position < len then 0 else position - len;
        var start: nat := lo;
        while !IsCharBoundary(storage, start)
          invariant start <= lo
          invariant forall j: nat :: start < j <= lo ==> !IsCharBoundary(storage, j)
          decreases start
        {
          start := start - 1;
        }
        r := Some(storage[start..position]);
      } else {
        r := None;
      }
    }

    /** `after`: the buffer bytes behind string `index`, about `len` of them:
        the slice begins where the string ends and ends at the least char
        boundary at or above `min(|storage|, end + len)`. */
    method After(index: nat, len: nat) returns (r: Option<Bytes>)
      requires WellFormed()
      ensures r.None? <==> index >= Len()
      ensures r.Some? ==>
        var stop := spans[index].offset + spans[index].length;
        var hi := if |storage| <= stop + len then |storage| else stop + len;
        var end := stop + |r.value|;
        hi <= end <= |storage| && IsCharBoundary(storage, end) &&
        (forall j: nat :: hi <= j < end ==> !IsCharBoundary(storage, j)) &&
        r.value == storage[stop..end]
    {
      if index < |spans| {
        var position := spans[index].offset;
        var length := spans[index].length;
        var hi := if |storage| <= position + length + len then |storage| else position + length + len;
        var end := hi;
        while !IsCharBoundary(storage, end)
          invariant hi <= end <= |storage|
          invariant forall j: nat :: hi <= j < end ==> !IsCharBoundary(storage, j)
          decreases |storage| - end
        {
          end := end + 1;
        }
        r := Some(storage[position + length..end]);
      } else {
        r := None;
      }
    }
  }

  /** A span that cuts a character: the table satisfies `WellFormed`, but
      as written `get(0)` panics where `Get` returns the byte `0xC3`. */
  lemma GetSplitCharPanics()
    ensures SubStr([Span(0, 1)], [0xC3, 0xA9]).WellFormed()
    ensures SubStr([Span(0, 1)], [0xC3, 0xA9]).GetAsWritten(0).Panic?
    ensures SubStr([Span(0, 1)], [0xC3, 0xA9]).Get(0) == Some([0xC3])
  {
    var t := SubStr([Span(0, 1)], [0xC3, 0xA9]);
    assert !IsCharBoundary(t.storage, 1);
    assert t.storage[0..1] == [0xC3];
  }

  /** `get(len())` panics as written, where the documented behaviour is `None`. */
  lemma GetPastEndPanics(s: SubStr)
    requires s.WellFormed()
    ensures s.GetAsWritten(s.Len()).Panic? && s.Get(s.Len()).None?
  {
  }

  /** The cursor returned by `SubStr::iter`. */
  class Iter {
    const vec: SubStr
    var currentItem: nat

    /** `iter()`: a cursor at the first string. */
    constructor (vec: SubStr)
      ensures this.vec == vec && currentItem == 0
    {
      this.vec := vec;
      currentItem := 0;
    }

    /** `next`: the string under the cursor, then one step on; `None` once
        every string has been produced, and the cursor stays there. */
    method Next() returns (r: Option<Bytes>)
      requires vec.WellFormed()
      modifies this
      ensures old(currentItem) < vec.Len() ==> currentItem == old(currentItem) + 1 && r == vec.Get(old(currentItem))
      ensures old(currentItem) >= vec.Len() ==> currentItem == old(currentItem) && r.None?
    {
      if currentItem < vec.Len() {
        currentItem := currentItem + 1;
        r := vec.Get(currentItem - 1);
      } else {
        r := None;
      }
    }
  }

  /** Draining a fresh cursor yields `get(0) .. get(len - 1)` in order and
      then `None`. */
  method Collect(s: SubStr) returns (items: seq<Bytes>)
    requires s.WellFormed()
    ensures |items| == s.Len()
    ensures forall i :: 0 <= i < |items| ==> s.Get(i) == Some(items[i])
  {
    var it := new Iter(s);
    items := [];
    var x := it.Next();
    while x.Some?
      invariant it.vec == s && |items| <= s.Len()
      invariant x.Some? <==> |items| < s.Len()
      invariant x.Some? ==> x == s.Get(|items|)
      invariant it.currentItem == |items| + (if x.Some? then 1 else 0)
      invariant forall i :: 0 <= i < |items| ==> s.Get(i) == Some(items[i])
      decreases s.Len() - |items|
    {
      items := items + [x.value];
      x := it.Next();
    }
  }
}
