# Macro-expansion offset translation in intellij-rust

This project models how the Rust plugin for IntelliJ translates positions between a
macro call and its expansion, and proves properties of that model.

Each expanded macro call owns an in-memory *expansion file*. Every expansion file is
placed in one shared integer offset space at the call's `expansionFileStartOffset`. A
call's *range map* is a sequence of `MappedTextRange(srcOffset, dstOffset, length)`
units. Each unit says that `length` characters at `srcOffset` of the call body reappear
at `dstOffset` of the expansion file.

The model covers these pieces:

- **Offset translation and call chains** (`RsExpandedElement.kt`):
  - offsets are mapped expansion → body and body → expansion;
  - ranges are mapped recursively through enclosing calls, with a strict single-result variant;
  - the locator functions walk outwards along the chain of calls that expand into calls;
  - the expansion-element finders go inwards;
  - the logical parent (`getContextImpl`) of an element that lives in an expansion is resolved.
- **Type-hint collector** (`RsInlayTypeHintsProvider.kt`):
  - the collector walks a file and, up to a depth limit, the expansions of its macro calls;
  - it emits a type hint for each binding that survives its filter;
  - it places each hint with its own range translator, `findOriginalOffset`. That translator climbs nested expansions and refuses any ambiguous mapping.

Modules:

- `Wrappers` and `Seqs` (`wrappers.dfy`): `Option`, and Kotlin's `filter` with its lemmas.
- `TextRanges` (`text_range.dfy`): IntelliJ's `TextRange` and `MappedTextRange`.
  - `contains(offset)` is half-open.
  - `contains(range)` is closed at both ends.
  - `intersects` accepts ranges that only touch.
  - `isEmpty` is `start >= end`.
- `RangeMaps` (`range_map.dfy`): the three range-map lookups the core calls.
- `MacroModel` (`macro_model.dfy`): the snapshot the core reads.
  - Calls are kept in one table and named by index.
  - A call written inside an expansion names that expansion's call, which must come earlier in the table. This is what makes every call chain finite.
- `ExpandedElement` (`expanded_element.dfy`): the translators and locators of `RsExpandedElement.kt`.
- `ExpansionContext` (`expansion_context.dfy`): `getContextImpl` and the stored context, as a class with a mutable field.
- `InlayTypeHints` (`inlay_type_hints.dfy`): `findOriginalOffset` and the collector.
  - The collector is a class whose methods append to its `hints` sequence.
  - Each method is proved equal to a specification function.

`RangeMap.kt` is not part of this model. Its lookups are defined in `RangeMaps` after the
containment-and-shift pattern written out at
`src/main/kotlin/org/rust/ide/hints/type/RsInlayTypeHintsProvider.kt:284-287`:

- **Expansion → body:** a single unit whose destination holds the offset, shifted by that unit.
- **Body → expansion:** every unit whose source holds the offset.
- **Range mapping:** one piece per unit whose destination meets the range.

## Model

| member | source | states |
|---|---|---|
| ExpansionContext.ExpandedPsiElement.GetContextImpl | src/main/kotlin/org/rust/lang/core/macros/RsExpandedElement.kt:29-42 | A stored context always wins. Without one, when the parent is not a file, index access is forbidden or the project is dumb, the result is the stub parent. The result is absent only when there is neither a stored context nor a parent. |
| ExpansionContext.ExpandedPsiElement.GetContextFollowsPrecedence | src/main/kotlin/org/rust/lang/core/macros/RsExpandedElement.kt:29-42 | The context is the first present entry of the fixed order: stored context, macro-call context, including module of an `include!`d file, stub parent. The two index lookups are empty unless the parent is a file, index access is allowed and the project is not dumb. |
| ExpansionContext.FirstPresent | src/main/kotlin/org/rust/lang/core/macros/RsExpandedElement.kt:30-41 | The chain of early returns: the result is present iff some candidate is, and it is the first present candidate. |
| ExpansionContext.ExpandedPsiElement.SetExpandedElementContext | src/main/kotlin/org/rust/lang/core/macros/RsExpandedElement.kt:52-54 | Stores the context in the element. |
| ExpansionContext.ExpandedPsiElement.SetContext | src/main/kotlin/org/rust/lang/core/macros/RsExpandedElement.kt:46-49 | After the call, the element's context is the given one, whatever the indices or the dumb flag say. |
| ExpandedElement.ExpandedFromRecursively | src/main/kotlin/org/rust/lang/core/macros/RsExpandedElement.kt:72-80 | The loop that follows `expandedFrom` returns exactly `FindMacroCallExpandedFrom`: nothing for an element outside any expansion, otherwise the outermost call of the chain. |
| MacroModel.ExpandedFromNonRecursive | src/main/kotlin/org/rust/lang/core/macros/RsExpandedElement.kt:113-118 | Absent exactly for a real file. Otherwise it is the call whose expansion file is the given file. |
| ExpandedElement.FindMacroCallExpandedFrom | src/main/kotlin/org/rust/lang/core/macros/RsExpandedElement.kt:98-101 | Absent exactly for an element of a real file. Otherwise it is a call written in a real file. |
| ExpandedElement.FindMacroCallExpandedFromIsLastOfChain | src/main/kotlin/org/rust/lang/core/macros/RsExpandedElement.kt:98-101 | The recursion returns the last, outermost call of the chain of enclosing calls. |
| ExpandedElement.CalculateMacroExpansionDepth | src/main/kotlin/org/rust/lang/core/macros/RsExpandedElement.kt:103-111 | The counting loop returns the length of the call chain: 0 outside any expansion, otherwise the number of hops to a real file. |
| ExpandedElement.ToBodyRelativeOffset | src/main/kotlin/org/rust/lang/core/macros/RsExpandedElement.kt:303-310 | Present iff the call has a body range that holds the offset. The result is non-negative, below the body length, and equals the offset minus the body start. |
| ExpandedElement.FromBodyRelativeOffset | src/main/kotlin/org/rust/lang/core/macros/RsExpandedElement.kt:312-317 | Present iff the call has a body range. The result is the relative offset plus the body start and never passes the body end (the `check` is the requires). |
| ExpandedElement.BodyRelativeRoundTrip | src/main/kotlin/org/rust/lang/core/macros/RsExpandedElement.kt:303-317 | The two conversions are inverse on offsets inside the body, in both directions. |
| ExpandedElement.MapOffsetFromExpansionToCallBodyRelative | src/main/kotlin/org/rust/lang/core/macros/RsExpandedElement.kt:206-210 | Nothing without an expansion. Otherwise the file offset is subtracted first, and the result exists iff exactly one unit's destination holds that file-relative offset. The result lies in that unit's source, at the same distance from the source start as the file-relative offset from the destination start. |
| ExpandedElement.MapOffsetFromExpansionToCallBody | src/main/kotlin/org/rust/lang/core/macros/RsExpandedElement.kt:201-204 | Present iff the relative mapping succeeds and the call has a body. The result then lies inside the body. |
| ExpandedElement.MapOffsetFromCallBodyToExpansion | src/main/kotlin/org/rust/lang/core/macros/RsExpandedElement.kt:292-301 | Absent iff the offset is outside the body. Otherwise there is one result per unit whose source holds the body-relative offset, in the units' order. Each result is that unit's destination start plus the offset's distance from its source start, plus the file offset. A repeated token gives several results. |
| ExpandedElement.ExpansionToCallBodyRoundTrip | src/main/kotlin/org/rust/lang/core/macros/RsExpandedElement.kt:201-210 | Mapping an expansion offset to the body and back yields a list that holds the original offset. |
| ExpandedElement.CallBodyToExpansionRoundTrip | src/main/kotlin/org/rust/lang/core/macros/RsExpandedElement.kt:292-301 | Each expansion image of a body offset maps back to that body offset when destination units do not overlap. |
| ExpandedElement.ExpansionOffsetBackToBody | src/main/kotlin/org/rust/lang/core/macros/RsExpandedElement.kt:201-210 | A range-map hit inside the body, after the file offset is subtracted, gives exactly that hit plus the body start. |
| ExpandedElement.FindMacroCallAndOffsetExpandedFromNonRecursive | src/main/kotlin/org/rust/lang/core/macros/RsExpandedElement.kt:195-199 | Present iff the anchor is in an expansion file and its offset maps into the producing call's body. The pair is that call and exactly the offset the translator gives, which lies in the call's body. |
| ExpandedElement.FindMacroCallAndOffsetExpandedFromUnchecked | src/main/kotlin/org/rust/lang/core/macros/RsExpandedElement.kt:190-193 | Present iff the first hop succeeds. The result is a call on the chain with an offset inside its body, and one more hop from there fails. Its offset is exactly what the hop-by-hop climb from the anchor gives when stopped at that call (`ClimbTo`). |
| ExpandedElement.FindElementAt | src/main/kotlin/org/rust/lang/core/macros/RsExpandedElement.kt:186-187 | A found leaf belongs to the given file and holds the offset. Nothing is found only when no leaf of that file holds the offset. |
| ExpandedElement.FindElementExpandedFrom | src/main/kotlin/org/rust/lang/core/macros/RsExpandedElement.kt:179-188 | A result starts exactly at the offset the outward climb ends on, in the file of a call on the chain. In strict mode it is never itself inside an expansion. When the climb succeeds, the result is present exactly when the leaf found at that offset starts there (and, in strict mode, is outside any expansion), and it is that leaf. |
| ExpandedElement.FindMacroCallFromWhichLeafIsExpanded | src/main/kotlin/org/rust/lang/core/macros/RsExpandedElement.kt:222-225 | Absent iff the first hop fails. Otherwise it is a call on the chain of the element's file. Whenever the non-strict element lookup finds a leaf, a call is found and the leaf lies in the file that call is written in. |
| ExpandedElement.LeavesStartingAt | src/main/kotlin/org/rust/lang/core/macros/RsExpandedElement.kt:286-289 | Only leaves of the expansion file that start exactly at one of the mapped offsets are kept. Every offset whose leaf starts exactly there contributes that leaf. |
| ExpandedElement.FindExpansionElementsNonRecursive | src/main/kotlin/org/rust/lang/core/macros/RsExpandedElement.kt:275-290 | Absent iff there is no enclosing argument call, the call is not expanded, or the offset lies outside its body. Each result is a leaf of that call's expansion starting at one of its images. Conversely, every image whose found leaf starts exactly there contributes that leaf. |
| ExpandedElement.FindExpansionElements | src/main/kotlin/org/rust/lang/core/macros/RsExpandedElement.kt:265-270 | Absent iff the one-level lookup is absent. Every result expands no further. Every direct image that expands no further is kept as itself, and every final leaf of a direct image that does expand is kept. |
| ExpandedElement.FlattenExpansionElements | src/main/kotlin/org/rust/lang/core/macros/RsExpandedElement.kt:267-269 | The `flatMap` returns only leaves with no further expansion. It keeps each such input leaf as itself, and it keeps every final leaf of each input leaf that expands. |
| ExpandedElement.ExpansionElementsInsideCall | src/main/kotlin/org/rust/lang/core/macros/RsExpandedElement.kt:265-270 | Every element found lies, possibly through nested expansions, inside the expansion of the call whose argument held the element. |
| ExpandedElement.FlattenInsideCall | src/main/kotlin/org/rust/lang/core/macros/RsExpandedElement.kt:267-269 | Flattening keeps every element inside the expansion of the given call. |
| ExpandedElement.FindExpansionElementOrSelf | src/main/kotlin/org/rust/lang/core/macros/RsExpandedElement.kt:272-273 | The single expansion element when there is exactly one, otherwise the element itself. |
| ExpandedElement.MapThroughCall | src/main/kotlin/org/rust/lang/core/macros/RsExpandedElement.kt:350-353 | One level: nothing without a body. Each piece is non-empty, lies inside the mapped range on the destination side, and lies inside the call body on the source side. |
| ExpandedElement.MapRangeFromExpansionToCallBodyMapped | src/main/kotlin/org/rust/lang/core/macros/RsExpandedElement.kt:345-358 | Empty when the range starts before the expansion file (the early `emptyList()`). The per-piece facts are `MappedPieceBounds`; soundness and coverage are `MappedRangeIsSound` and `MappedRangeCovers`. |
| ExpandedElement.ThroughParentIndex | src/main/kotlin/org/rust/lang/core/macros/RsExpandedElement.kt:355-358 | Every range of the `flatMap` through the parent call is some piece the parent step makes of one of the given ranges. |
| ExpandedElement.ThroughParentIncludes | src/main/kotlin/org/rust/lang/core/macros/RsExpandedElement.kt:355-358 | Conversely, every piece the parent step makes of one of the given ranges is in the `flatMap`. |
| ExpandedElement.PieceFromParent | src/main/kotlin/org/rust/lang/core/macros/RsExpandedElement.kt:352-358 | For a call written in an expansion, every piece comes from the parent step on one of this call's one-level pieces. |
| ExpandedElement.ParentPieceIsKept | src/main/kotlin/org/rust/lang/core/macros/RsExpandedElement.kt:351-358 | For a call written in an expansion and a range starting inside its file, every parent piece of a one-level piece is kept. |
| ExpandedElement.MappedPieceBounds | src/main/kotlin/org/rust/lang/core/macros/RsExpandedElement.kt:345-358 | Every piece is non-empty, inside the tracked original range on the destination side, and inside the body of the outermost call on the source side. |
| ExpandedElement.OutermostCallOfNested | src/main/kotlin/org/rust/lang/core/macros/RsExpandedElement.kt:354-357 | A nested call and its parent call have the same outermost call. |
| ExpandedElement.MapRangeFromExpansionToCallBody | src/main/kotlin/org/rust/lang/core/macros/RsExpandedElement.kt:328-343 | Empty without an expansion. Every result is non-empty, no longer than the input, and inside the outermost call's body. |
| ExpandedElement.MapRangeFromExpansionToCallBodyStrict | src/main/kotlin/org/rust/lang/core/macros/RsExpandedElement.kt:324-326 | Present iff the non-strict mapping yields exactly one range of the input's length, and it is that range. It lies in the outermost call's body. |
| ExpandedElement.MapThroughCallIsSound | src/main/kotlin/org/rust/lang/core/macros/RsExpandedElement.kt:350-353 | Every character of a mapped piece is where the offset translator sends the matching expansion character. |
| ExpandedElement.MapThroughCallPiece | src/main/kotlin/org/rust/lang/core/macros/RsExpandedElement.kt:319-322 | Each one-level piece is a range-map piece moved into the body by `fromBodyRelativeRange`, and that piece fits inside the body. |
| ExpandedElement.MapRangeOneLevelIsSound | src/main/kotlin/org/rust/lang/core/macros/RsExpandedElement.kt:338-353 | For a call in a real file, the range mapper and the offset mapper agree character by character. |
| ExpandedElement.ClimbToOutermost | src/main/kotlin/org/rust/lang/core/macros/RsExpandedElement.kt:190-199 | The offset carried outwards hop by hop. A success needs the first hop to map. |
| ExpandedElement.ClimbTo | src/main/kotlin/org/rust/lang/core/macros/RsExpandedElement.kt:190-199 | The climb stopped at call `d`. A result needs `d` on the chain, and it lies in `d`'s body. Stopping at the starting call is one offset translation. |
| ExpandedElement.ClimbToOutermostIsClimbTo | src/main/kotlin/org/rust/lang/core/macros/RsExpandedElement.kt:190-199 | Stopping at the outermost call of the chain is the whole climb. |
| ExpandedElement.ClimbEndsInOutermostBody | src/main/kotlin/org/rust/lang/core/macros/RsExpandedElement.kt:190-199 | A successful climb ends inside the body of the outermost call of the chain. |
| ExpandedElement.ClimbAgreesWithLocator | src/main/kotlin/org/rust/lang/core/macros/RsExpandedElement.kt:190-199 | A climb that reaches the outermost call gives exactly that call and offset from the element locator's recursive hops. |
| ExpandedElement.ClimbStep | src/main/kotlin/org/rust/lang/core/macros/RsExpandedElement.kt:190-193 | From a call written in an expansion, the climb continues from the offset mapped into the parent's expansion. |
| ExpandedElement.MapThroughCallCovers | src/main/kotlin/org/rust/lang/core/macros/RsExpandedElement.kt:350-353 | An offset of the range that the offset translator maps lies in a one-level piece, at its place in the original range and at its translated offset. |
| ExpandedElement.MappedRangeIsSound | src/main/kotlin/org/rust/lang/core/macros/RsExpandedElement.kt:345-358 | Soundness through every enclosing call: each offset of each piece, read back at its place in the range, climbs to the matching offset of the piece's source (disjoint destinations assumed). |
| ExpandedElement.ParentStepIsSound | src/main/kotlin/org/rust/lang/core/macros/RsExpandedElement.kt:354-358 | The same soundness for a call written in an expansion, through the parent's `flatMap`. |
| ExpandedElement.ParentStepPiece | src/main/kotlin/org/rust/lang/core/macros/RsExpandedElement.kt:354-358 | A piece made by the parent step comes from a one-level piece of this call: the offset maps through this call to the matching offset of that one-level piece, which the parent step maps to the piece. |
| ExpandedElement.MappedRangeCovers | src/main/kotlin/org/rust/lang/core/macros/RsExpandedElement.kt:345-358 | Coverage through every enclosing call: each offset of a range that starts inside the expansion file and climbs to the outermost body lies in some piece, at its place and at the offset it climbs to. |
| ExpandedElement.MapRangeIsSound | src/main/kotlin/org/rust/lang/core/macros/RsExpandedElement.kt:333-343 | Every offset of every translated range is where the climb takes some offset of the input range. |
| ExpandedElement.MapRangeCovers | src/main/kotlin/org/rust/lang/core/macros/RsExpandedElement.kt:333-343 | Every offset of the input range that climbs to the outermost body lands in some translated range. |
| RangeMaps.MapOffsetFromExpansionToCallBody | src/main/kotlin/org/rust/lang/core/macros/RsExpandedElement.kt:209 | Present iff exactly one unit's destination holds the offset. The result keeps the offset's distance from that unit's start. |
| RangeMaps.MapOffsetFromCallBodyToExpansion | src/main/kotlin/org/rust/lang/core/macros/RsExpandedElement.kt:299 | One result per unit whose source holds the offset, each at the same distance from that unit's destination start. |
| RangeMaps.MapOffsetWithinUnit | src/main/kotlin/org/rust/lang/core/macros/RsExpandedElement.kt:209 | With disjoint destinations, an offset in a unit's destination maps by that unit's shift. |
| RangeMaps.OverlappingDestinationsRejected | src/main/kotlin/org/rust/lang/core/macros/RsExpandedElement.kt:209 | Two units whose destinations both hold the offset make the lookup fail. |
| RangeMaps.EveryCopyIsFound | src/main/kotlin/org/rust/lang/core/macros/RsExpandedElement.kt:299 | Every unit whose source holds the offset contributes its image. |
| RangeMaps.RoundTripFromExpansion | src/main/kotlin/org/rust/lang/core/macros/RsExpandedElement.kt:209 | Expansion → body → expansion yields a list holding the starting offset. |
| RangeMaps.RoundTripFromCallBody | src/main/kotlin/org/rust/lang/core/macros/RsExpandedElement.kt:299 | With disjoint destinations, body → expansion → body returns the starting offset for every image. |
| RangeMaps.DstIntersection | src/main/kotlin/org/rust/lang/core/macros/RsExpandedElement.kt:352 | The piece of a unit that meets the range is non-empty, inside the range, and a sub-span of the unit. It holds every offset that unit and range share, and it is absent only when they share none. |
| RangeMaps.MapTextRangeFromExpansionToCallBody | src/main/kotlin/org/rust/lang/core/macros/RsExpandedElement.kt:352 | No more pieces than units, each non-empty and inside the range. |
| RangeMaps.PieceHasUnit | src/main/kotlin/org/rust/lang/core/macros/RsExpandedElement.kt:352 | Every piece is a sub-span of some unit of the map. |
| RangeMaps.PiecesCover | src/main/kotlin/org/rust/lang/core/macros/RsExpandedElement.kt:352 | Every offset of the range that a unit maps lies in a piece cut from that unit. |
| RangeMaps.MapMappedTextRangeFromExpansionToCallBody | src/main/kotlin/org/rust/lang/core/macros/RsExpandedElement.kt:352 | No more pieces than units, each non-empty and inside the destination range being mapped. |
| RangeMaps.MappedPieceHasUnit | src/main/kotlin/org/rust/lang/core/macros/RsExpandedElement.kt:352 | Every piece's source lies inside some unit's source. |
| RangeMaps.MappedPiecesCover | src/main/kotlin/org/rust/lang/core/macros/RsExpandedElement.kt:352 | An offset of the range being mapped that a unit maps is carried by a piece: at its place in the original range, at that unit's image in the body, with that unit's shift. |
| RangeMaps.PieceIsSound | src/main/kotlin/org/rust/lang/core/macros/RsExpandedElement.kt:352 | Range mapping agrees with offset mapping at every offset of every piece. |
| RangeMaps.MappedPieceIsSound | src/main/kotlin/org/rust/lang/core/macros/RsExpandedElement.kt:352 | The same agreement for the composed (mapped-range) form. |
| Seqs.Filter | src/main/kotlin/org/rust/ide/hints/type/RsInlayTypeHintsProvider.kt:285-287 | Keeps exactly the elements that satisfy the predicate, and no more than the input. |
| Seqs.FilterSingle | src/main/kotlin/org/rust/ide/hints/type/RsInlayTypeHintsProvider.kt:285 | When exactly one position satisfies the predicate, the filter is that element alone. |
| Seqs.FilterNone | src/main/kotlin/org/rust/ide/hints/type/RsInlayTypeHintsProvider.kt:285 | When no position satisfies the predicate, the filter is empty. |
| Seqs.FilterTwo | src/main/kotlin/org/rust/ide/hints/type/RsInlayTypeHintsProvider.kt:285-287 | Two satisfying positions give a filter of at least two elements, so neither `singleOrNull` nor `count == 1` accepts. |
| InlayTypeHints.SingleDstCover | src/main/kotlin/org/rust/ide/hints/type/RsInlayTypeHintsProvider.kt:285 | Present iff exactly one unit's destination contains the range, and it is such a unit. |
| InlayTypeHints.FindOriginalStep | src/main/kotlin/org/rust/ide/hints/type/RsInlayTypeHintsProvider.kt:275-289 | Succeeds iff the file is an expansion file whose call has an expansion and a body, the offset maps, exactly one unit covers the file-relative range, and exactly one unit's source meets the range moved by that unit. `offset1` is then the core translator's image of `offset2`. `range1` is the file-relative range shifted by the covering unit and moved to the body, and lies in the body. When `range2` holds `offset2`, `range1` holds `offset1`. |
| InlayTypeHints.ClimbIsConsistent | src/main/kotlin/org/rust/ide/hints/type/RsInlayTypeHintsProvider.kt:281-288 | Shifting by the covering unit keeps the range in the body. The offset computed here, the range-map hit plus the body start, equals the core translator's. |
| InlayTypeHints.StepIntoCall | src/main/kotlin/org/rust/ide/hints/type/RsInlayTypeHintsProvider.kt:277-289 | The level once the producing call is known: the same success condition and the same `offset1`/`range1` facts as `FindOriginalStep`, stated on that call. |
| InlayTypeHints.CoveringUnitCarriesOffset | src/main/kotlin/org/rust/ide/hints/type/RsInlayTypeHintsProvider.kt:284-290 | When `range2` holds `offset2`, the covering unit is the single unit holding the offset, so `range1` holds `offset1` (the second `testAssert`). |
| InlayTypeHints.AmbiguousCoverRejected | src/main/kotlin/org/rust/ide/hints/type/RsInlayTypeHintsProvider.kt:285-286 | Two units whose destinations both contain the range make the level fail. |
| InlayTypeHints.FindOriginalOffsetFrom | src/main/kotlin/org/rust/ide/hints/type/RsInlayTypeHintsProvider.kt:275-296 | Fails when the level fails. When the level reaches a call written in the original file, the result is that level's offset. Any result lies in the body of a call on the chain of the anchor's file, and that call is written in the original file. |
| InlayTypeHints.FindOriginalOffsetAgreesWithLocator | src/main/kotlin/org/rust/ide/hints/type/RsInlayTypeHintsProvider.kt:291-295 | When the original file is a real file, the climb ends at the same offset as the element locator's own climb (`findMacroCallAndOffsetExpandedFromUnchecked`), in a call of the original file. |
| InlayTypeHints.FindOriginalOffset | src/main/kotlin/org/rust/ide/hints/type/RsInlayTypeHintsProvider.kt:254-260 | An anchor already in the original file gives its end offset unchanged. Otherwise there is no result without an enclosing statement, closure or arm. With one, the result is exactly the climb from the anchor's end offset and that range. A result lies in the body of a call of the original file on the anchor's chain. |
| InlayTypeHints.UnambiguousLevelIsPlaced | src/main/kotlin/org/rust/ide/hints/type/RsInlayTypeHintsProvider.kt:254-296 | An anchor in the expansion of a call written in the original file, with one unit holding its offset, one unit covering its range and one unit meeting the moved range, is placed: at its end offset carried into the call body. |
| InlayTypeHints.BindingHint | src/main/kotlin/org/rust/ide/hints/type/RsInlayTypeHintsProvider.kt:206-212 | At most one hint, and none iff the binding cannot be placed or does not survive `cfg` expansion. A hint sits at the placed offset. |
| InlayTypeHints.BindingsHints | src/main/kotlin/org/rust/ide/hints/type/RsInlayTypeHintsProvider.kt:197-203 | At most one hint per binding, each for one of the given bindings. No hint for a `_`-prefixed name, a constant-like binding or an unknown type, and every hint is placed by `FindOriginalOffset`. |
| InlayTypeHints.BindingsHintsFollowBindings | src/main/kotlin/org/rust/ide/hints/type/RsInlayTypeHintsProvider.kt:197-203 | The hints follow the bindings' order: the hint positions map to strictly increasing binding positions, and each hint is for the binding at its position. |
| InlayTypeHints.EveryEligibleBindingIsHinted | src/main/kotlin/org/rust/ide/hints/type/RsInlayTypeHintsProvider.kt:197-212 | Conversely, every binding that passes the filter, survives expansion and can be placed gets its hint. |
| InlayTypeHints.PatHintsComplete | src/main/kotlin/org/rust/ide/hints/type/RsInlayTypeHintsProvider.kt:194-212 | Unless the pattern is suppressed as obvious, every binding of it that passes the filter, survives `cfg` and can be placed gets its hint in `PatHints`. |
| InlayTypeHints.PatHints | src/main/kotlin/org/rust/ide/hints/type/RsInlayTypeHintsProvider.kt:194-204 | No hints for an obvious pattern (a plain identifier bound to a struct literal or enum variant) unless obvious types are shown. Every hint passes the filter. |
| InlayTypeHints.IsObvious | src/main/kotlin/org/rust/ide/hints/type/RsInlayTypeHintsProvider.kt:241-245 | For a struct or enum-variant declaration, obvious iff the pattern is a plain identifier. For any other declaration, or none, never obvious. |
| InlayTypeHints.PassesBindingFilter | src/main/kotlin/org/rust/ide/hints/type/RsInlayTypeHintsProvider.kt:197-203 | A `_`-prefixed name, a constant-like binding or an unknown type each reject the binding. A binding with none of them passes. |
| InlayTypeHints.OptPatHints | src/main/kotlin/org/rust/ide/hints/type/RsInlayTypeHintsProvider.kt:135-140 | A missing pattern gives no hints. |
| InlayTypeHints.ArmsHints | src/main/kotlin/org/rust/ide/hints/type/RsInlayTypeHintsProvider.kt:142-146 | The hints of all `match` arms, each passing the filter. |
| InlayTypeHints.ParamsHints | src/main/kotlin/org/rust/ide/hints/type/RsInlayTypeHintsProvider.kt:180-184 | The hints of the closure parameters, each passing the filter. |
| InlayTypeHints.VariableHints | src/main/kotlin/org/rust/ide/hints/type/RsInlayTypeHintsProvider.kt:126-148 | A `let` with a written type gives no hints. Every hint passes the filter. |
| InlayTypeHints.LambdaHints | src/main/kotlin/org/rust/ide/hints/type/RsInlayTypeHintsProvider.kt:177-185 | Only closures give hints, and every hint passes the filter. |
| InlayTypeHints.IteratorHints | src/main/kotlin/org/rust/ide/hints/type/RsInlayTypeHintsProvider.kt:187-192 | Only `for` loops give hints, and every hint passes the filter. |
| InlayTypeHints.ElementHints | src/main/kotlin/org/rust/ide/hints/type/RsInlayTypeHintsProvider.kt:105-113 | The enabled presenters' hints, each passing the filter. |
| InlayTypeHints.NodeHints | src/main/kotlin/org/rust/ide/hints/type/RsInlayTypeHintsProvider.kt:97-114 | A non-Rust element gives no hints. Every hint passes the filter. |
| InlayTypeHints.CallHints | src/main/kotlin/org/rust/ide/hints/type/RsInlayTypeHintsProvider.kt:116-124 | No hints at or beyond the recursion limit, for an unexpanded call, or for a present empty body. Every hint passes the filter. |
| InlayTypeHints.NodesHints | src/main/kotlin/org/rust/ide/hints/type/RsInlayTypeHintsProvider.kt:120-123 | The hints of a pre-order traversal, each passing the filter. |
| InlayTypeHints.ExpandedCallIsTraversed | src/main/kotlin/org/rust/ide/hints/type/RsInlayTypeHintsProvider.kt:117-123 | Below the limit, an expanded call whose body range is missing or non-empty is traversed exactly one level deeper. A missing body range does not stop it. |
| InlayTypeHints.TypeHintsCollector.Collect | src/main/kotlin/org/rust/ide/hints/type/RsInlayTypeHintsProvider.kt:91-95 | Always continues the traversal. Adds nothing in dumb mode; otherwise adds the element's hints from depth 0, each passing the filter. |
| InlayTypeHints.TypeHintsCollector.DoCollect | src/main/kotlin/org/rust/ide/hints/type/RsInlayTypeHintsProvider.kt:97-114 | Appends exactly the element's hints. |
| InlayTypeHints.TypeHintsCollector.ProcessMacroCall | src/main/kotlin/org/rust/ide/hints/type/RsInlayTypeHintsProvider.kt:116-124 | The loop over the traversal appends exactly the call's hints (depth limit and skips included). |
| InlayTypeHints.TypeHintsCollector.PresentVariable | src/main/kotlin/org/rust/ide/hints/type/RsInlayTypeHintsProvider.kt:126-148 | Appends exactly the variable hints. |
| InlayTypeHints.TypeHintsCollector.PresentLambda | src/main/kotlin/org/rust/ide/hints/type/RsInlayTypeHintsProvider.kt:177-185 | Appends exactly the closure-parameter hints. |
| InlayTypeHints.TypeHintsCollector.PresentIterator | src/main/kotlin/org/rust/ide/hints/type/RsInlayTypeHintsProvider.kt:187-192 | Appends exactly the `for`-pattern hints. |
| InlayTypeHints.TypeHintsCollector.PresentTypeForPat | src/main/kotlin/org/rust/ide/hints/type/RsInlayTypeHintsProvider.kt:194-204 | The loop over bindings appends exactly `PatHints`. |
| InlayTypeHints.TypeHintsCollector.PresentTypeForBinding | src/main/kotlin/org/rust/ide/hints/type/RsInlayTypeHintsProvider.kt:206-212 | Appends exactly `BindingHint`. |
| InlayTypeHints.TypeHintsCollector.constructor | src/main/kotlin/org/rust/ide/hints/type/RsInlayTypeHintsProvider.kt:87-89 | A collector over the given environment starts with no hints. |

## Left out

- The PSI tree, stub ancestors, the macro expansion manager and user-data keys are abstracted:
  - a file is a `FileId`;
  - an element is a leaf record or an element id;
  - a call's expansion is a range map plus the pre-order node list of its expansion file;
  - `findElementAt` is a lookup in a leaf table.
- MacroModel.ExpandedFromNonRecursive: `findMacroCallExpandedFromNonRecursive` walks the stub ancestors and returns the first `expandedFrom` the macro expansion manager knows. The model takes instead the call that produced the element's file. So an element is never treated as outside the expansion it lies in, and whether it is a top-level expanded element is not modelled.
- `DumbService`, `RsIncludeMacroIndex` and the macro-call context lookup are inputs (`ContextEnv`, `dumb`).
- `setRsFileContext` and `inheritCachedDataFrom` (cache propagation to the containing file) are not modelled.
- `RangeMap.kt` and IntelliJ's `TextRange` are not part of this model. Their semantics are defined here as described above.
- `DEFAULT_RECURSION_LIMIT` (`org/rust/lang/core/resolve`) is not part of this model; its value is taken as 128.
- ExpandedElement.ExpandedFromRecursively: `expandedFrom` is the manager's lookup for the element itself, null for an element that a macro did not produce directly. The model replaces it by the call that produced the element's file, the same choice as above.
- `expandedFromSequence`, `includedFrom`, `expandedOrIncludedFrom`, `isExpandedFromMacro`, `cameFromMacroCall` and `findNavigationTargetIfMacroExpansion` are not modelled. Each combines the lookups above with `include!` handling or navigation.
- `findMacroCallFromWhichLeafIsExpanded` uses the element's start offset; the stub offset of an `RsPath` is not distinguished.
- Type inference (`binding.type`, `TyUnknown`) becomes a boolean per binding. Name resolution (`isConstantLike`) and `existsAfterExpansion` are booleans too.
- Presentation factories, the disable action and `InlayHintsSink` are left out. A hint is its offset and binding, and the sink is the `hints` sequence.
- `presentTypePlaceholders` (hints for `_` inside a written type) is not modelled: it needs type unification. `showForPlaceholders` is kept as a setting only.
- `testAssert { range2.contains(offset2) }`: the model does not require it of callers. The conditional postcondition of `FindOriginalStep` states that the second `testAssert` holds whenever the first does.
- ExpandedElement.MapRangeOneLevelIsSound: the one-level form is stated for a call written in a real file. The multi-level form is `MappedRangeIsSound`.
- ExpandedElement.MappedRangeIsSound: assumes every range map keeps destination units apart (`RangeMapsDisjoint`). With overlapping destinations the offset translator gives up while the range translator still yields pieces.
- ExpandedElement.MappedRangeCovers: assumes the range starts inside the expansion file, as the early `emptyList()` at RsExpandedElement.kt:351 requires. It also assumes every nested call's body starts inside its parent's expansion file (`BodiesInParentFiles`).
- InlayTypeHints.FindOriginalOffsetAgreesWithLocator: stated only when the original file is a real file, which is the case the provider uses.
- MacroModel.WellFormed: every unit's source range must lie inside its call body (`CallWellFormed`). This is stronger than the `check(elementOffset <= macroRange.endOffset)` at RsExpandedElement.kt:315, so the `IllegalStateException` paths of `fromBodyRelativeOffset` and `toBodyRelativeOffset` are not modelled.
- Offsets are unbounded `int`s, not Kotlin's 32-bit `Int`; overflow in offset arithmetic is not modelled.
