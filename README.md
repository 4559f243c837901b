# State specs and icon-font code state lists

This project models the state-resolution core of the IconFontView library.

- `StateSet` (Java, static utilities) matches *state specs* against *state sets*.
  - A state set is an array of view-state resource ids.
  - A state spec is an array of signed ids: a positive id must be present in the set, and a negative id names a state that must be absent.
  - In both arrays, a `0` ends the meaningful part.
  - It also searches a list of specs for an attribute, trims arrays, and precomputes a table from 10-bit view-flag masks to drawable-state sets.
- `IconFontCodeStateList` (Kotlin class) holds parallel `states` and `codes` arrays and a cached default code.
  - It returns the code of the first entry whose spec matches a state set.
  - It answers whether it is stateful, whether it mentions the focused state, and whether it references a given state.

Files:

- `Jvm.dfy` (module `Jvm`): Java/Kotlin semantics the code relies on.
  - The nullable reference `Option` and the exceptions the code throws, as `Result`.
  - 32-bit `int` as the subset type `Int32`.
  - Java's wrapping unary minus `Neg`, where `-MIN_VALUE == MIN_VALUE`.
  - Kotlin's `Int.inv()` as `Inv`, which is `-x - 1`.
- `StateSet.dfy` (module `StateSet`): the matching methods, proved against the predicates `SpecMatches` and `SpecMatchesState`. Also:
  - `containsAttribute`, proved against `Mentions` over `NonNullPrefix`.
  - `trimStateSet`.
  - The static initializer, with its two loops as `OrderedIdsOf` and `MaskStatesOf`/`BuildViewStateSets`.
  - The class `ViewStateSets`, which holds `VIEW_STATE_SETS` and serves `get`.
- `IconFontCodeStateList.dfy` (module `CodeStateList`): the class `IconFontCodeStateList`, with `states`, `codes` and `defaultCode` as fields that its constructors and `OnCodeChanged` assign. Its methods are proved against `FirstMatch`, `CodeForState`, `DefaultCodeOf` and `HasStateIn`.
  - `inflate` is modelled over the items a parser would yield: each item is an optional `code` and a list of (name resource, boolean) attributes.

Model and specification disagree in places, and the model follows the code:

- Matching stops at the first `0` in a spec or set, not only at the end of the array.
- `hasState` tests `state.inv()`, not the negation.
- Absent `code` attributes become `""` (the permissive variant).
- `inflate` turns every attribute of an `<item>` into a spec entry, not only the unrecognized ones. Its own `code` attribute is included, and it reads as false, so it becomes `-code`. An item's `attributes` must therefore list the `code` attribute too. Such an item never has an empty spec, which matters for the default code and `isStateful`.
- `containsAttribute` stops at the first null spec. A Kotlin table never holds one, so for `hasFocusStateSpecified` this is the whole table (`NonNullPrefixOfTable`).

## Model

| member | source | states |
|---|---|---|
| Jvm.Neg | iconfontview/src/main/java/com/dongxiawu/uikit/StateSet.java:158 | Java negation: equals `-x` except at `MIN_VALUE`, and `x + Neg(x)` is 0 modulo 2^32 |
| Jvm.Inv | iconfontview/src/main/java/com/android/dongxiawu/uikit/IconFontCodeStateList.kt:120 | `inv()` never returns its argument and flips its sign |
| Jvm.NegIsNotInv | iconfontview/src/main/java/com/android/dongxiawu/uikit/IconFontCodeStateList.kt:66-120 | the complement that `hasState` tests is never the negation that `inflate` writes |
| StateSet.Prefix | iconfontview/src/main/java/com/dongxiawu/uikit/StateSet.java:146-172 | the meaningful part of a spec or set is a prefix, has no `0`, and stops at a `0` or at the end |
| StateSet.IsWildCard | iconfontview/src/main/java/com/dongxiawu/uikit/StateSet.java:129-131 | `isWildCard` holds exactly when the meaningful part is empty |
| StateSet.StateSetMatches | iconfontview/src/main/java/com/dongxiawu/uikit/StateSet.java:140-191 | with a null set, true iff the spec is null or a wildcard; otherwise true iff each spec entry before its `0` holds in the set's part before its `0`: a positive entry must occur, and a negative `s` must not have `-s` |
| StateSet.StateMatches | iconfontview/src/main/java/com/dongxiawu/uikit/StateSet.java:200-221 | single-state overload: true iff every positive entry before the `0` equals the state and no negative entry's negation equals it |
| StateSet.SingleStateIsSingletonSet | iconfontview/src/main/java/com/dongxiawu/uikit/StateSet.java:200-221 | matching one state is matching the one-element set holding it |
| StateSet.WildCardMatchesEverySet | iconfontview/src/main/java/com/dongxiawu/uikit/StateSet.java:144-151 | a wildcard spec, empty included, matches every non-null set |
| StateSet.MatchesEverySetOnlyIfWildCard | iconfontview/src/main/java/com/dongxiawu/uikit/StateSet.java:114-131 | a spec that is not a wildcard fails on some state set |
| StateSet.NothingMatchesOnlyProhibitions | iconfontview/src/main/java/com/dongxiawu/uikit/StateSet.java:114-122 | `WILD_CARD` matches `NOTHING`; a spec matches `NOTHING` iff its meaningful entries are all negative |
| StateSet.NonNullPrefix | iconfontview/src/main/java/com/dongxiawu/uikit/StateSet.java:233-236 | the specs scanned are those before the first null one |
| StateSet.ContainsAttribute | iconfontview/src/main/java/com/dongxiawu/uikit/StateSet.java:231-245 | false for a null list; otherwise true iff some spec before the first null one has an entry equal to `attr` or whose negation is `attr` |
| StateSet.TrimStateSet | iconfontview/src/main/java/com/dongxiawu/uikit/StateSet.java:247-255 | same array when the length is already `newSize`, else a fresh array of length `newSize` holding the first `newSize` elements |
| StateSet.AndPow2 | iconfontview/src/main/java/com/dongxiawu/uikit/StateSet.java:94 | `(m & (1 << k)) != 0` iff bit `k` of `m` is set |
| StateSet.BitCountIsLowBitCount | iconfontview/src/main/java/com/dongxiawu/uikit/StateSet.java:90 | below `1 << n`, `Integer.bitCount` counts the set bits among bits `0..n-1` |
| StateSet.FlagsArePowersOfTwo | iconfontview/src/main/java/com/dongxiawu/uikit/StateSet.java:14-32 | the ten view flags are `1 << 0` … `1 << 9`, and the table has `1 << 10` entries |
| StateSet.OrderedIdsFrom | iconfontview/src/main/java/com/dongxiawu/uikit/StateSet.java:77-85 | pair `k` of `orderedIds` is what the scan of `VIEW_STATE_IDS` leaves for drawable state `k`: its last pair with that id, or `(0, 0)` |
| StateSet.OrderedIdsAsWritten | iconfontview/src/main/java/com/dongxiawu/uikit/StateSet.java:44-85 | the scan puts the pairs in drawable-state order, with HOVERED carrying flag `1 << 9` and DRAG_HOVERED flag `1 << 7` |
| StateSet.OrderedIdsOf | iconfontview/src/main/java/com/dongxiawu/uikit/StateSet.java:76-85 | the first initializer loop fills `orderedIds` with exactly that ordered table |
| StateSet.OrderedIdsFacts | iconfontview/src/main/java/com/dongxiawu/uikit/StateSet.java:44-55 | the flags are non-negative, and the ids are the drawable states in increasing order |
| StateSet.FlagBits | iconfontview/src/main/java/com/dongxiawu/uikit/StateSet.java:57-68 | each pair of the ordered table carries a distinct single bit |
| StateSet.CollectMembers | iconfontview/src/main/java/com/dongxiawu/uikit/StateSet.java:93-97 | an id is collected iff some pair holding it has a flag that meets the mask |
| StateSet.CollectIncreasing | iconfontview/src/main/java/com/dongxiawu/uikit/StateSet.java:93-97 | increasing ids in the table stay strictly increasing in every entry |
| StateSet.CollectSize | iconfontview/src/main/java/com/dongxiawu/uikit/StateSet.java:93-97 | with single-bit flags, one id is collected per flag bit of the mask |
| StateSet.FlagBitsCoverLowBits | iconfontview/src/main/java/com/dongxiawu/uikit/StateSet.java:87-90 | the flag bits are bits 0 to 9, each once |
| StateSet.ViewStateSetSize | iconfontview/src/main/java/com/dongxiawu/uikit/StateSet.java:89-97 | for `mask < 1024` the entry has exactly `bitCount(mask)` elements, so `set` is filled completely |
| StateSet.ViewStateSetFacts | iconfontview/src/main/java/com/dongxiawu/uikit/StateSet.java:87-99 | every entry is strictly increasing and holds only drawable states; drawable state `j` is present iff the mask has pair `j`'s flag bit |
| StateSet.OneFlagSelectsItsPair | iconfontview/src/main/java/com/dongxiawu/uikit/StateSet.java:93-97 | with distinct single-bit flags, a one-flag mask selects exactly the id paired with that flag |
| StateSet.HoverFlagsCrossed | iconfontview/src/main/java/com/dongxiawu/uikit/StateSet.java:65-67 | as written, `get(VIEW_STATE_HOVERED)` is `[VALUE_STATE_DRAG_HOVERED]` and `get(VIEW_STATE_DRAG_HOVERED)` is `[VALUE_STATE_HOVERED]` |
| StateSet.OrderedIdsIntended | iconfontview/src/main/java/com/dongxiawu/uikit/StateSet.java:57-68 | the same scan of the same-name pairing gives the ordered table with HOVERED on `1 << 7` and DRAG_HOVERED on `1 << 9` |
| StateSet.SingleFlagsIntended | iconfontview/src/main/java/com/dongxiawu/uikit/StateSet.java:57-68 | with the same-name pairing, each single flag `1 << k` selects the drawable state of its own name |
| StateSet.MaskStatesOf | iconfontview/src/main/java/com/dongxiawu/uikit/StateSet.java:90-98 | one pass of the second loop yields the entry for its mask |
| StateSet.BuildViewStateSets | iconfontview/src/main/java/com/dongxiawu/uikit/StateSet.java:87-99 | the second loop fills all `1 << NUM_BITS` entries, entry `mask` being the state set of `mask` |
| StateSet.ViewStateSets.constructor | iconfontview/src/main/java/com/dongxiawu/uikit/StateSet.java:70-99 | the static initializer leaves the table valid: 1024 entries, each the state set of its index |
| StateSet.ViewStateSets.Get | iconfontview/src/main/java/com/dongxiawu/uikit/StateSet.java:103-108 | `mask >= 1024` throws `IllegalArgumentException("Invalid state set mask")`, a negative mask throws `ArrayIndexOutOfBounds`, and otherwise it returns the state set of the mask |
| CodeStateList.ItemSpecs | iconfontview/src/main/java/com/android/dongxiawu/uikit/IconFontCodeStateList.kt:72-78 | one spec per item, in document order |
| CodeStateList.ItemCodes | iconfontview/src/main/java/com/android/dongxiawu/uikit/IconFontCodeStateList.kt:56-77 | one code per item, in document order, `""` for an item without `code` |
| CodeStateList.BuildStateSpec | iconfontview/src/main/java/com/android/dongxiawu/uikit/IconFontCodeStateList.kt:60-68 | the spec has one entry per attribute, in attribute order: the id when the value is true, its negation when false |
| CodeStateList.EntryAdmits | iconfontview/src/main/java/com/android/dongxiawu/uikit/IconFontCodeStateList.kt:64-66 | for a positive id, an attribute's entry holds in a set iff the attribute's value says whether the id is present |
| CodeStateList.ItemSpecMeaning | iconfontview/src/main/java/com/android/dongxiawu/uikit/IconFontCodeStateList.kt:60-68 | with positive ids, an item matches a set iff every attribute's value says whether its state is in the set |
| CodeStateList.LastEmptySpec | iconfontview/src/main/java/com/android/dongxiawu/uikit/IconFontCodeStateList.kt:138-143 | the last index `1 <= i < hi` with an empty spec, or none |
| CodeStateList.DefaultCodeRule | iconfontview/src/main/java/com/android/dongxiawu/uikit/IconFontCodeStateList.kt:131-146 | the default is null for an empty table; else the code of the last entry at index 1 or above with an empty spec; else `codes[0]` |
| CodeStateList.InflateDefaultStep | iconfontview/src/main/java/com/android/dongxiawu/uikit/IconFontCodeStateList.kt:69-71 | an item's code becomes `inflate`'s default when it is the first item or its spec is empty |
| CodeStateList.InflateDefaultAgrees | iconfontview/src/main/java/com/android/dongxiawu/uikit/IconFontCodeStateList.kt:69-79 | the default `inflate` computes equals the one `onCodeChanged` then recomputes |
| CodeStateList.FirstMatchFrom | iconfontview/src/main/java/com/android/dongxiawu/uikit/IconFontCodeStateList.kt:91-96 | the lowest matching index at or after `i`, with no match before it, or none when nothing matches |
| CodeStateList.FirstMatchIs | iconfontview/src/main/java/com/android/dongxiawu/uikit/IconFontCodeStateList.kt:91-96 | an index that matches, with no match before it, is the first match |
| CodeStateList.CodeForStateIgnoresLaterEntries | iconfontview/src/main/java/com/android/dongxiawu/uikit/IconFontCodeStateList.kt:90-98 | once a table has a match, appending entries does not change the code returned |
| CodeStateList.NonNullPrefixOfTable | iconfontview/src/main/java/com/android/dongxiawu/uikit/IconFontCodeStateList.kt:86-88 | `containsAttribute` scans the whole of such a table |
| CodeStateList.HasStateMissesForbiddenState | iconfontview/src/main/java/com/android/dongxiawu/uikit/IconFontCodeStateList.kt:100-126 | as written, a table whose spec forbids ENABLED (entry `-ENABLED`) does not count as referencing ENABLED |
| CodeStateList.ForbiddenStateNeverFound | iconfontview/src/main/java/com/android/dongxiawu/uikit/IconFontCodeStateList.kt:63-120 | as written, for every positive id `r`, an item whose attribute `r` is false is not reported by `hasState(r)`; the corrected test reports it |
| CodeStateList.HasStateFalsePositive | iconfontview/src/main/java/com/android/dongxiawu/uikit/IconFontCodeStateList.kt:113-126 | as written, the table `[[-VALUE_STATE_ENABLED]]` is reported as referencing `VALUE_STATE_WINDOW_FOCUSED`; the corrected test does not report it |
| CodeStateList.ItemAttributesAreReferences | iconfontview/src/main/java/com/android/dongxiawu/uikit/IconFontCodeStateList.kt:104-107 | with negation instead of complement, every attribute of every inflated item is a reference |
| CodeStateList.ReferencesStateIsMentions | iconfontview/src/main/java/com/android/dongxiawu/uikit/IconFontCodeStateList.kt:104-107 | the corrected reference test is `containsAttribute`'s test applied to every spec |
| CodeStateList.IconFontCodeStateList.constructor | iconfontview/src/main/java/com/android/dongxiawu/uikit/IconFontCodeStateList.kt:31-35 | keeps both tables unchanged and caches the default `onCodeChanged` computes |
| CodeStateList.IconFontCodeStateList.Inflate | iconfontview/src/main/java/com/android/dongxiawu/uikit/IconFontCodeStateList.kt:41-80 | the tables are the items' specs and codes in order, and the cached default is the one `onCodeChanged` computes |
| CodeStateList.IconFontCodeStateList.OnCodeChanged | iconfontview/src/main/java/com/android/dongxiawu/uikit/IconFontCodeStateList.kt:131-146 | sets only `defaultCode`, to the default rule's value |
| CodeStateList.IconFontCodeStateList.IsStateful | iconfontview/src/main/java/com/android/dongxiawu/uikit/IconFontCodeStateList.kt:82-84 | when it is false and the table is not empty, the first entry matches every state set |
| CodeStateList.StatefulYetConstant | iconfontview/src/main/java/com/android/dongxiawu/uikit/IconFontCodeStateList.kt:82-84 | the converse fails: with the table `[[0]]` the list is stateful, yet its first entry matches every state set |
| CodeStateList.IconFontCodeStateList.HasFocusStateSpecified | iconfontview/src/main/java/com/android/dongxiawu/uikit/IconFontCodeStateList.kt:86-88 | true iff some spec has an entry equal to `VALUE_STATE_FOCUSED` or whose negation is that id |
| CodeStateList.IconFontCodeStateList.GetCodeForState | iconfontview/src/main/java/com/android/dongxiawu/uikit/IconFontCodeStateList.kt:90-98 | returns `codes[i]` for the first matching entry `i`, or the caller's default when none matches |
| CodeStateList.IconFontCodeStateList.HasState | iconfontview/src/main/java/com/android/dongxiawu/uikit/IconFontCodeStateList.kt:113-126 | true iff some element of some spec, zeros and everything after them included, equals `state` or `state.inv()` |
| CodeStateList.IconFontCodeStateList.GetDefaultString | iconfontview/src/main/java/com/android/dongxiawu/uikit/IconFontCodeStateList.kt:148-150 | the cached default is the default rule's value, and is null iff the table is empty |
| CodeStateList.IconFontCodeStateList.ValueOf | iconfontview/src/main/java/com/android/dongxiawu/uikit/IconFontCodeStateList.kt:163-165 | a new valid list with one empty spec and the one code; it is not stateful and its default string is that code |
| CodeStateList.ValueOfShowsItsCode | iconfontview/src/main/java/com/android/dongxiawu/uikit/IconFontCodeStateList.kt:154-165 | that table defaults to its code and shows its code for every state set |
| CodeStateList.SelectedThenWildcard | iconfontview/src/main/java/com/android/dongxiawu/uikit/IconFontCodeStateList.kt:90-146 | the table `[SELECTED] → star_filled, [] → star_outline` shows `star_filled` when selected, `star_outline` otherwise, and defaults to `star_outline` |
| CodeStateList.SelectedShowsFilled | iconfontview/src/main/java/com/android/dongxiawu/uikit/IconFontCodeStateList.kt:90-98 | every state set holding SELECTED shows `star_filled` |
| CodeStateList.EnabledPressedTable | iconfontview/src/main/java/com/android/dongxiawu/uikit/IconFontCodeStateList.kt:90-98 | `[ENABLED, -PRESSED] → v1, [-ENABLED] → v2, [] → v3` shows `v1` for `[ENABLED]`, `v2` for the empty set, and `v3` for `[ENABLED, PRESSED]` |
| CodeStateList.EnabledPressedAll | iconfontview/src/main/java/com/android/dongxiawu/uikit/IconFontCodeStateList.kt:90-98 | on every state set, that table shows `v2` without ENABLED, `v3` exactly when ENABLED and PRESSED are both present, and `v1` otherwise |
| CodeStateList.EnabledPressedFirstMatch | iconfontview/src/main/java/com/android/dongxiawu/uikit/IconFontCodeStateList.kt:91-96 | on that table, the loop stops at entry 1 without ENABLED, at entry 2 with ENABLED and PRESSED, and at entry 0 otherwise |

## Left out

- XML traversal is not modelled. This covers the pull-parser loop of `inflate` (depth and END_TAG bookkeeping, skipping non-`item` tags), `createFromXml`, `createFromXmlInner`, and their `XmlPullParserException`s. It is foreign library I/O. `Inflate` takes the items the parser would yield.
- `Resources.getSystem().obtainAttributes`, `recycle` and the `AttributeSet` accessors are not modelled; each item arrives with its optional code and its (name resource, boolean) attributes.
- The private no-argument constructor and the `lateinit` fields are not modelled separately. `createFromXmlInner` followed by `inflate` is the single constructor `Inflate`.
- `IconFontView.kt` and `MainActivity.kt` are left out: canvas drawing, fonts, typeface singletons and click handlers are UI plumbing.
- Both `ComplexString.kt` abstract classes are left out. Their only logic is the default `isStateful()` returning `false`, which `IconFontCodeStateList` overrides. `IsStateful` and `GetDefaultString` are plain members of the class.
- The constants `TAG`, `TAG_SELECTOR` and `TAG_ITEM` are left out, because only the XML code uses them.
- The static initializer's length check cannot fail on these tables. The constructor of `ViewStateSets` asserts it instead of modelling the `IllegalStateException`.
- Tables are stored as values (`seq`), not shared arrays:
  - `get` in Java returns the shared `VIEW_STATE_SETS` row.
  - The Kotlin constructor keeps the caller's arrays.
  - So changes a caller makes through those references are not modelled.
- StateSet.StateSetMatches: a null spec with a non-null set throws `NullPointerException` in Java. The precondition excludes it, and there is no caller that passes one.
- StateSet.TrimStateSet: a `newSize` outside `0..states.length` throws in `System.arraycopy` or `new int[]`. The precondition excludes it.
- CodeStateList.IconFontCodeStateList.constructor: with fewer codes than specs, `onCodeChanged` and `getCodeForState` can index past `codes`. The precondition `|codes| >= |states|` excludes that.
- CodeStateList.IconFontCodeStateList.GetCodeForState: the same precondition, so the `ArrayIndexOutOfBoundsException` is not modelled.
- StateSet.ViewStateSets.Get: the table is modelled as the object `ViewStateSets` that the static initializer builds once, not as static state.
- The masks of the table are non-negative, so `&` is modelled on non-negative ints only (`And`).
- Class instances are not shared between threads in the source; concurrency is not modelled.

## Findings

| source | as written | input that shows it | evidently intended | confidence | as-written member | corrected member |
|---|---|---|---|---|---|---|
| iconfontview/src/main/java/com/dongxiawu/uikit/StateSet.java:65-67 | `VALUE_STATE_DRAG_HOVERED` is paired with `VIEW_STATE_HOVERED`, and `VALUE_STATE_HOVERED` with `VIEW_STATE_DRAG_HOVERED` | `get(VIEW_STATE_HOVERED)` (mask 128) returns `[0x01010369]`, the drag-hovered id | every resource id paired with the flag of the same name, so mask 128 yields `[0x01010367]` | medium, not executed | StateSet.HoverFlagsCrossed | StateSet.SingleFlagsIntended |
| iconfontview/src/main/java/com/android/dongxiawu/uikit/IconFontCodeStateList.kt:120 | `hasState` compares entries with `state` and `state.inv()` (`-s - 1`), but this class's `inflate` writes a forbidden state as `-s` (line 66) | a spec `[-0x0101009e]` from an item whose enabled attribute is false: `hasState(0x0101009e)` returns false, and `hasState(0x0101009d)` (WINDOW_FOCUSED) returns true, because `inv(0x0101009d) == -0x0101009e` | the doc comment (lines 104-107) counts any negative reference, and writes one as `~`. This class's `inflate` writes one as `-s`, so for its own specs the test is against `-state`, as `containsAttribute` makes (StateSet.java:238) | medium, not executed | CodeStateList.ForbiddenStateNeverFound | CodeStateList.ReferencesStateIsMentions |

The classes keep the behaviour as written. `ViewStateSets.Get` serves the source's pairing, and `IconFontCodeStateList.HasState` uses the complement. The corrected definitions sit beside them:

- `IntendedViewStateSet` over `INTENDED_ORDERED_IDS`;
- `ReferencesState`, together with `ItemAttributesAreReferences`.
