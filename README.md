# substr — a packed string table, modelled in Dafny

The `substr` crate stores many short strings in one shared byte buffer. It
also keeps, per string, an `(offset, length)` span into that buffer. The
`Builder` saves space in four phases, run by `build_only`:

1. `find_substrings` records, for every string that occurs inside another
   input string, a link `(container, offset)`.
2. `find_partial_substrings` appends each uncontained string to the buffer.
   It then chains successors whose beginning equals an end of the string
   just placed, appending only each successor's tail.
3. `join_loose_strings` appends whatever uncontained string is still
   unplaced.
4. `join_substrings` gives every contained string the span of its
   container, shifted by the link's offset.

`build` freezes the result into a read-only `SubStr`, which offers `get`,
`len`, `storage_len`, `is_empty`, the context windows `before`/`after` and
an iterator.

The model follows the source's form:

- **Text and splitting.** Strings are byte sequences (`seq<uint8>`).
  Character boundaries use Rust's rule on UTF-8 bytes. `split_after_char`
  and `find_next_string` are functions.
- **The builder.** `Builder` is a class whose fields (`containedIn`,
  `indexString`, `spans`, `build`) its phase methods update in place.
  `before`/`after` and `Iter::next` are methods with the source's loops.
- **End-to-end result.** After `build`, every string comes back from `get`
  at its own index. The buffer is never longer than the strings laid end to
  end. `verify` always answers `true`.
- **Corrected link rule.** The model uses one correction, described under
  Findings. An equal copy of a string may only link to an earlier copy.
  Every link then rises in the order "longer first, then lower id first".
  That order is the termination argument for phase 4.

Files:

- `types.dfy`: bytes, `Option`/`Result`, spans, links, errors.
- `text.dfy`: char boundaries, `split_after_char`.
- `containment.dfy`: phase 1 as a specification.
- `tables.dfy`: invariants of the span and link tables.
- `chaining.dfy`: the prefix index and `find_next_string`.
- `packed.dfy`: `SubStr` and `Iter`.
- `builder.dfy`: the `Builder` class.

### Chaining order

`find_next_string` (src/lib.rs:333) tries split points `1, 2, …`, and
split point `k` drops the first `k` characters. So the first suffix tried
is the longest proper one, and the longest overlap with a successor wins.

`Chaining.FindNextString` states the resulting choice:

- Every proper suffix that starts before the chosen one lists only placed
  strings.
- Under the chosen suffix, every lower-id string is placed.

## Model

| member | source | states |
|---|---|---|
| Text.CharStartsFrom | src/lib.rs:428 | the character starts from `i` on: all boundaries in `[i, |s|)`, strictly ascending, and no others |
| Text.CharStarts | src/lib.rs:428 | what `char_indices` enumerates; a non-empty string's first character starts at 0 |
| Text.CharCountOfPrefix | src/lib.rs:428-429 | the prefix ending at the `k`-th character start has exactly `k` characters |
| Text.SplitAfterChar | src/lib.rs:423-432 | `None` exactly when `k == 0` or the string has no more than `k` characters; otherwise the two parts concatenate to the string, the first has exactly `k` characters, is non-empty and proper, and ends at a char boundary |
| Containment.LeftmostFrom | src/lib.rs:264-266 | the leftmost occurrence of a pattern at or after `from`: it occurs there, and nowhere between `from` and it (nowhere at all when `None`) |
| Containment.LinkAmong | src/lib.rs:263-270 | the link left after scanning texts `0..t-1` in order: the container was admitted (another id) and holds the pattern at the leftmost offset; no earlier admitted text contains the pattern, and none at all when `None` |
| Containment.LinkIffContained | src/lib.rs:263-270 | a string gets a link exactly when it occurs in some admitted text (for the source's rule: in some string with a different id) |
| Containment.RankedLinkRises | src/lib.rs:267-268 | under the corrected rule every link points to a string that is longer, or equally long with a lower id |
| Containment.AsWrittenEqualPairCycle | src/lib.rs:267-268 | under the source's rule the two equal strings of `[w, w]` record each other as container |
| Containment.RankedEqualPairAcyclic | src/lib.rs:267-268 | under the corrected rule the first copy of `[w, w]` stays unlinked and the second links to it at offset 0 |
| Containment.OccursSameLength | src/lib.rs:264 | an occurrence in a text of the same length is the whole text at offset 0 |
| Containment.LinkAmongAgree | src/lib.rs:267 | on pairwise-distinct inputs the source's rule and the corrected rule record identical links |
| Containment.DistinctInputsLinkLonger | src/lib.rs:366-382 | on pairwise-distinct inputs the correction changes nothing and every link points to a strictly longer string |
| Containment.LinkAmongKept | src/lib.rs:267-268 | once a pattern has a link, scanning further texts leaves it unchanged (the `is_none()` test) |
| Containment.RulesAgreeUnlessLaterCopy | src/lib.rs:267-268 | the corrected rule records the source's link for a pattern exactly when the source's link does not go to a later equal copy of it |
| Containment.AsWrittenLaterCopyCycle | src/lib.rs:263-270 | under the source's rule, a string whose first container is a later equal copy and that copy record each other as container, both at offset 0 |
| Containment.AsWrittenOuterContainer | src/lib.rs:263-270 | in `["ab", "a", "a"]` both copies of `"a"` link to `"ab"`, so no cycle arises there |
| Tables.PlacedLen | src/lib.rs:314-322 | the summed length of the placed strings never exceeds that of all strings |
| Tables.PlacedLenSet | src/lib.rs:314 | placing an unplaced string adds exactly its length to the placed sum |
| Tables.NoneCount | src/lib.rs:367 | the loop guard of `join_substrings`: the count is 0 exactly when every span is present |
| Tables.NoneCountShrinks | src/lib.rs:367 | filling in spans never raises the count of missing spans, and filling one missing span lowers it |
| Tables.NoneCountSet | src/lib.rs:318-319 | filling one missing span lowers the count of missing spans by exactly one |
| Tables.ChainReachesResolved | src/lib.rs:367-381 | while a span is missing, some linked string without a span has a placed container (links rise, so following them from any unplaced string reaches one) |
| Tables.NestedSlice | src/lib.rs:376-378 | a slice of the container's slice is a slice of the buffer |
| Tables.AppendKeepsSpans | src/lib.rs:315 | appending to the buffer keeps every recorded span valid |
| Tables.SetKeepsSpans | src/lib.rs:318-319 | recording a span that reproduces its string keeps every span valid |
| Tables.AsWrittenCycleStuck | src/lib.rs:366-382 | with the source's links, the two strings of such a cycle are contained; after phases 2 and 3 (exactly the uncontained strings placed) neither has a span; while neither has one, neither is resolvable and the loop guard holds |
| Chaining.BeginningsStart | src/lib.rs:281 | the empty prefix index is a valid starting state |
| Chaining.BeginningsEnterId | src/lib.rs:288 | no proper prefix is shorter than the first character |
| Chaining.BeginningsPush | src/lib.rs:288-294 | pushing an id under its `k`-character prefix keeps the index sound and extends its completeness to the prefixes shorter than the next character start |
| Chaining.BeginningsLeaveId | src/lib.rs:282-287 | a contained id, or one whose prefixes are all pushed, is finished |
| Chaining.BeginningsFinish | src/lib.rs:281-296 | the finished index is sound and complete |
| Chaining.FirstUnplacedFrom | src/lib.rs:336-338 | the first listed id without a span; every id listed before it is placed |
| Chaining.SplitSuffix | src/lib.rs:334 | split point `k` yields the suffix starting at the `k`-th character start, a proper boundary |
| Chaining.ScanSkip | src/lib.rs:333-335 | a split point that yields no candidate extends the set of suffixes known to list only placed ids |
| Chaining.PickIsChosen | src/lib.rs:336-344 | the first unplaced id under a suffix is a valid successor: it begins with that suffix, has a non-empty tail, and starts `|end|` bytes before `position` |
| Chaining.ScanSuffixes | src/lib.rs:333-350 | from split point `k` on: a valid lowest-id successor whose suffix is the longest one with an unplaced owner, or `None` when every such suffix lists only placed ids |
| Chaining.FindNextString | src/lib.rs:327-351 | returns `vec[next] == end + tail` with `end` a proper suffix at a char boundary, a non-empty tail and position `position - |end|`; the successor is unplaced and uncontained, every longer candidate suffix and every lower id under `end` is placed; `None` means every proper char-boundary suffix that is a key of the prefix index lists only placed strings, so no unplaced uncontained string begins with one (contained strings are not in the index) |
| Chaining.ChosenFacts | src/lib.rs:339-344 | what a chosen successor gives the chaining loop: unplaced, uncontained, overlap strictly inside both strings |
| Chaining.ChainStepHolds | src/lib.rs:317-322 | the successor's span `(position - |end|, |vec[next]|)` reproduces it once its tail is appended |
| Packed.SubStr.Len | src/lib.rs:44-46 | the number of strings is the number of spans |
| Packed.SubStr.StorageLen | src/lib.rs:49-51 | the byte length of the shared buffer |
| Packed.SubStr.IsEmpty | src/lib.rs:54-56 | true exactly when there are no strings |
| Packed.SubStr.GetAsWritten | src/lib.rs:60-65 | as written: a panic exactly when `index >= len()` (the argument of `then_some` indexes `spans[index]` first) or when either end of the span is not a char boundary (`str` slicing); otherwise the same slice as `Get` |
| Packed.GetSplitCharPanics | src/lib.rs:62-63 | a well-formed table whose span `(0, 1)` cuts the two-byte character `é`: as written `get(0)` panics, while `Get(0)` returns the byte `0xC3` |
| Packed.GetPastEndPanics | src/lib.rs:61-63 | `get(len())` panics as written, while the documented result is `None` |
| Packed.SubStr.Get | src/lib.rs:58-65 | as documented: `None` exactly for `index >= len()`; otherwise the slice at the string's span |
| Packed.SubStr.Before | src/lib.rs:76-87 | `None` exactly for an out-of-range index; otherwise a slice that ends at the span's start and begins at the greatest char boundary at or below `max(0, start - len)` |
| Packed.SubStr.After | src/lib.rs:90-106 | `None` exactly for an out-of-range index; otherwise a slice that begins at the span's end and ends at the least char boundary at or above `min(|buffer|, end + len)` |
| Packed.Iter.constructor | src/lib.rs:68-73 | a cursor over the collection at item 0 |
| Packed.Iter.Next | src/lib.rs:117-124 | the item under the cursor followed by one step on, or `None` (cursor unchanged) past the end |
| Packed.Collect | src/lib.rs:114-124 | draining a fresh iterator yields `get(0) .. get(len - 1)` in order |
| Building.MaxLen | src/lib.rs:179-183 | `None` exactly for no strings; otherwise the greatest byte length, attained by some string |
| Building.Unwrapped | src/lib.rs:239 | unwrapping every span keeps their order and values |
| Building.PlaceStep | src/lib.rs:314-322 | appending and recording one uncontained string's span keeps sound spans, places only uncontained strings, bounds the buffer by the placed lengths, and lowers the count of unplaced strings |
| Building.AppendWhole | src/lib.rs:314-315 | a string appended whole is reproduced by the span starting at the old buffer end |
| Building.ChainSpan | src/lib.rs:317-322 | the successor's span, starting `overlap` bytes before the buffer end, reproduces the successor once its tail is appended |
| Building.ChainPlace | src/lib.rs:317-322 | one chaining step keeps that packing invariant, ends the buffer with the successor, and lowers the count of unplaced strings |
| Building.ChainSavingStart | src/lib.rs:314-316 | placing the first string of a chain whole starts it with one string placed and no byte saved |
| Building.ChainSavingStep | src/lib.rs:318-320 | placing a successor by appending a tail shorter than it counts one more chained string and saves at least one more byte |
| Building.ChainKeep | src/lib.rs:318-322 | one chaining step keeps earlier spans and makes the successor the string that ends the buffer |
| Building.InheritedSpanHolds | src/lib.rs:375-378 | the span inherited from a placed container (its offset plus the link offset, the string's length) reproduces the string |
| Building.InheritsKept | src/lib.rs:375-379 | resolving one string keeps every earlier resolution an inheritance from its container |
| Building.ResolveStep | src/lib.rs:375-379 | resolving a string from its placed container gives a span that reproduces it and keeps earlier resolutions valid |
| Building.SweepResolve | src/lib.rs:375-379 | the sweep's invariant survives resolving string `i` |
| Building.SweepSkip | src/lib.rs:375-376 | the sweep's invariant survives passing over a string it cannot resolve |
| Building.Builder.constructor | src/lib.rs:188-195 | a fresh builder: one empty link and one empty span per string, empty buffer, not built |
| Building.Builder.FromIter | src/lib.rs:172-196 | `Err(NoMaxStringLen)` for no strings, `Err(StringTooLong(m))` when the greatest length `m` exceeds 255, otherwise a fresh builder |
| Building.Builder.TryFrom | src/lib.rs:151-164 | for a non-empty input: `Err(StringTooLong(m))` when the greatest length exceeds 255, otherwise a fresh builder |
| Building.Builder.FindSubstrings | src/lib.rs:261-272 | existing links are never overwritten; every other string gets the first admitted container at the leftmost offset |
| Building.Builder.MakeBeginnings | src/lib.rs:281-296 | the prefix index lists, under each key, exactly the uncontained strings having it as a proper char-boundary prefix, in ascending id order |
| Building.Builder.FindPartialSubstrings | src/lib.rs:276-325 | afterwards exactly the uncontained strings have spans, every span reproduces its string, and the buffer is no longer than the placed strings' summed length |
| Building.Builder.PlaceChain | src/lib.rs:310-323 | one chain keeps the packing invariant and never rewrites a span; it appends its first string whole at the old buffer end and gives it that span; the buffer only grows at its end; it stops only when `find_next_string` finds no successor of the string last placed, whose copy ends the buffer; the loop ends because each step places an unplaced string; the `chained` successors it places beyond the first string save a byte each, so the buffer grows by at most the summed length of the strings placed minus `chained` |
| Building.Builder.JoinLooseStrings | src/lib.rs:355-362 | afterwards exactly the uncontained strings have spans; the buffer only grows at its end; spans already there stay; when every uncontained string was placed, nothing changes |
| Building.Builder.Sweep | src/lib.rs:368-381 | one pass never rewrites a span, keeps every span sound, and places every string that was resolvable when it began |
| Building.Builder.JoinSubstrings | src/lib.rs:366-383 | terminates with every span present and sound; spans present before stay; each newly placed string has its container's offset plus the link offset and its own length |
| Building.Builder.BuildOnly | src/lib.rs:202-231 | a second call changes nothing; a first call leaves every string with its first ranked link, which equals the source's link exactly when that does not go to a later equal copy; every span present and reproducing its string; contained strings inheriting from their containers |
| Building.Builder.Build | src/lib.rs:233-241 | the result holds one span per string, `get(i)` returns input `i` for every `i`, and `storage_len()` is at most the summed input length |
| Building.Builder.Verify | src/lib.rs:244-257 | the answer is `true` exactly when every placed string's slice equals the string, and it is always `true` |

## Left out

- **Aho-Corasick.** The multi-pattern automaton of `find_substrings` is a
  foreign library. It is replaced by a leftmost-occurrence search.
  - Only pattern `p`'s matches touch `p`'s link, and they are reported
    left to right, so the links do not depend on the order among patterns.
  - `Building.Builder.FindSubstrings` therefore loops over texts and then
    patterns.
- Building.Builder.FindSubstrings: uses the corrected link rule, which
  refuses a later equal copy as container (see Findings). It records the
  source's link for every string whose source link does not go to a later
  equal copy (`Containment.RulesAgreeUnlessLaterCopy`). That holds for every
  string of a duplicate-free input (`Containment.LinkAmongAgree`).
- **Debug output.** Console output (`println!`, `print!`, `debug`), the
  `silent` flag and `debug_messages` are I/O with no effect on the result.
- Building.Builder.Verify: the source prints a debug message before
  returning `false`; the model only stops at the first mismatch.
- **Derives and serialisation.** Serde derives, `Clone`/`Default` derives
  and feature gating are serialisation or boilerplate.
- **Error variants.** `Io`, `Utf8Error` and `TryFromSliceError`, the
  `From` derive and the `Display`/`Error` impls are never raised by the
  algorithm.
- **Result wrappers.** `build_only`, `build` and `verify` always return
  `Ok`, so the model returns their payloads directly.
  - `build` consumes the builder; the model calls it on the builder.
- Building.Builder.TryFrom: for an empty vector the source panics in
  `unwrap`; the model requires a non-empty input.
- Packed.SubStr.After: `position + length + len` is `usize` arithmetic in
  the source, which overflows for `len` near 2^64 (a panic with overflow
  checks, otherwise a wrapped end and a panicking slice); the model's `len`
  is an unbounded natural and never overflows.
- **String ids.** Ids are cast with `as u32` in `find_substrings` and when
  filling the prefix index (src/lib.rs:268, 293); inputs of 2^32 or more
  strings, where the casts truncate, are not modelled.
- **Integer widths.** Spans are `(u32, u8)`, link offsets `u8`, and the
  buffer arithmetic `container_pos + start` is `u32`. The model uses
  unbounded naturals: string lengths are bounded by 255 through the
  builder's invariant, and buffers of 4 GiB or more are not modelled.
- **UTF-8.** `String` validity is not modelled.
  - Char boundaries follow Rust's rule on bytes: 0, the length, or any
    non-continuation byte.
  - `Packed.SubStr.WellFormed` only keeps every span inside the buffer.
    Every built `SubStr` satisfies it. It does not rule out a span end
    that is not a char boundary. The fields of `SubStr` are public, so
    such a table can be written by hand. The model does not prove that a
    `SubStr` built from valid UTF-8 never has one.
- Packed.SubStr.Get: a span end that is not a char boundary makes the
  source's `str` slice panic; the model returns the bytes
  (`Packed.GetSplitCharPanics`; `Packed.SubStr.GetAsWritten` models the
  panic).
- Packed.SubStr.Before: when the span's offset is not a char boundary, the
  source's slice `[start..position]` panics; the model returns the bytes.
- Packed.SubStr.After: when the span's end is not a char boundary, the
  source's slice `[position + length..end]` panics; the model returns the
  bytes.
- **Buffer compression.** Only the bound
  `storage_len() <= sum of lengths` is proved. The model does not prove
  the claim that the bound is strict whenever a containment or overlap
  exists, nor that the buffer holds no byte no span covers.
- **Prefix index.** The map's iteration order plays no role (only lookups
  are made), so `HashMap` is a Dafny `map`. The index is built by its own
  method, `Building.Builder.MakeBeginnings`; in the source it is inline in
  `find_partial_substrings`.

## Findings

| source | as written | input that shows it | evidently intended | confidence | as-written member | corrected member |
|---|---|---|---|---|---|---|
| src/lib.rs:267 | `find_substrings` accepts any container with a different id. When the first container of a string, in id order, is a later equal copy of it, the two record each other as container. Neither is ever placed in phases 2 and 3, and the `while` of `join_substrings` (src/lib.rs:367) never ends | `["a", "a"]` or `["a", "b", "a"]` (not `["ab", "a", "a"]`, where both copies link to `"ab"`) | an equal copy links only to an earlier copy, so every link rises to a longer string or an equal one with a lower id, and resolution terminates with every string placed | not executed; medium: it relies on the automaton reporting both ids of a duplicated pattern | Tables.AsWrittenCycleStuck | Building.Builder.JoinSubstrings |
| src/lib.rs:61-63 | `get` passes the slice at `spans[index]` to `then_some`, which evaluates it before the range test, so an out-of-range index panics | `get(len())`, e.g. `get(0)` on an empty table | `None` for an index from `len()` on, as the doc comment of `get` (src/lib.rs:58-59) says | not executed; high: Rust evaluates method arguments before the call | Packed.GetPastEndPanics | Packed.SubStr.Get |

`Containment.AsWrittenEqualPairCycle` exhibits the cycle for `[w, w]`,
`Containment.AsWrittenLaterCopyCycle` for every input with such a string,
and `Containment.AsWrittenOuterContainer` shows an input with a duplicate
and no cycle. Two
lemmas show the corrected rule:

- `Containment.RankedEqualPairAcyclic` shows what the corrected rule
  records for `[w, w]`.
- `Containment.RankedLinkRises` proves the rising order on which the
  termination of `Building.Builder.JoinSubstrings` rests.
