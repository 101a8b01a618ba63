/**
 * The type-hint collector of the inlay-hints provider.
 *
 * The collector visits the elements of a file and, recursively, the expansions of the
 * macro calls it meets, up to a fixed nesting depth. For each binding of a `let`, a
 * closure parameter or a `for` pattern it emits a type hint at an offset of the original
 * file. Bindings inside expansions are placed with their own range translator
 * (`FindOriginalOffset`), which climbs the chain of calls and refuses ambiguous mappings.
 */
module InlayTypeHints {
  import opened Wrappers
  import opened Seqs
  import opened TextRanges
  import opened RangeMaps
  import opened MacroModel
  import ExpandedElement

  /** The macro recursion limit shared with name resolution. */
  const DefaultRecursionLimit: nat := 128

  // ---------------------------------------------------------------------------
  // Placing a hint: findOriginalOffset
  // ---------------------------------------------------------------------------

  /**
   * The element a hint is anchored to: its file, its end offset, and the text range of
   * the nearest enclosing statement, closure or match arm (absent when there is none).
   */
  datatype Anchor = Anchor(file: FileId, endOffset: int, enclosingRange: Option<TextRange>)

  /** Kotlin's `ranges.singleOrNull { it.dstRange.contains(range) }`. */
  function SingleDstCover(rm: RangeMap, range: TextRange): (r: Option<MappedTextRange>)
    ensures r.Some? <==> |Filter(rm, DstCovers(range))| == 1
    ensures r.Some? ==> exists i :: 0 <= i < |rm| && rm[i] == r.value && rm[i].DstRange().ContainsRange(range)
  {
    var hits := Filter(rm, DstCovers(range));
    if |hits| == 1 then
      assert hits[0] in hits;
      assert hits[0] in rm;
      Some(hits[0])
    else None
  }

  /** One level of the climb: the call reached, and the offset and range carried into its body. */
  datatype Climb = Climb(call: nat, offset1: int, range1: TextRange)

  /**
   * One level of `findOriginalOffset`: from `offset2`/`range2` in file `f` to the body of
   * the call that produced `f`. Fails unless the offset maps, exactly one unit's
   * destination covers the range, and exactly one unit's source meets the moved range.
   */
  function FindOriginalStep(w: World, f: FileId, offset2: int, range2: TextRange): (r: Option<Climb>)
    requires WellFormed(w) && FileOk(w, f)
    ensures r.Some? <==>
      && f.ExpansionFile?
      && var call := w.calls[f.call];
         && call.expansion.MacroExpansion? && call.bodyTextRange.Some?
         && RangeMaps.MapOffsetFromExpansionToCallBody(call.expansion.ranges, offset2 - call.expansionFileStartOffset).Some?
         && var adjusted := range2.ShiftLeft(call.expansionFileStartOffset);
            && SingleDstCover(call.expansion.ranges, adjusted).Some?
            && var u := SingleDstCover(call.expansion.ranges, adjusted).value;
               |Filter(call.expansion.ranges, SrcMeets(adjusted.ShiftRight(u.srcOffset - u.dstOffset)))| == 1
    ensures r.Some? ==> f.ExpansionFile? && r.value.call == f.call
    ensures r.Some? ==>
      var call := w.calls[f.call];
      && call.expansion.MacroExpansion? && call.bodyTextRange.Some?
      && |Filter(call.expansion.ranges, DstCovers(range2.ShiftLeft(call.expansionFileStartOffset)))| == 1
      && |Filter(call.expansion.ranges, SrcMeets(r.value.range1.ShiftLeft(call.bodyTextRange.value.startOffset)))| == 1
      && call.bodyTextRange.value.ContainsRange(r.value.range1)
      && ExpandedElement.MapOffsetFromExpansionToCallBody(call, offset2) == Some(r.value.offset1)
    ensures r.Some? ==>
      var call := w.calls[f.call];
      var adjusted := range2.ShiftLeft(call.expansionFileStartOffset);
      && SingleDstCover(call.expansion.ranges, adjusted).Some?
      && var u := SingleDstCover(call.expansion.ranges, adjusted).value;
         r.value.range1 == adjusted.ShiftRight(u.srcOffset - u.dstOffset).ShiftRight(call.bodyTextRange.value.startOffset)
    ensures r.Some? && range2.Contains(offset2) ==> r.value.range1.Contains(r.value.offset1)
  {
    match ExpandedFromNonRecursive(f)
    case None => None
    case Some(c) =>
      assert CallWellFormed(w.calls[c]);
      StepIntoCall(c, w.calls[c], offset2, range2)
  }

  /** The level of `FindOriginalStep` once the call `c` that produced the file is known. */
  function StepIntoCall(c: nat, call: MacroCall, offset2: int, range2: TextRange): (r: Option<Climb>)
    requires CallWellFormed(call)
    ensures r.Some? <==>
      && call.expansion.MacroExpansion? && call.bodyTextRange.Some?
      && RangeMaps.MapOffsetFromExpansionToCallBody(call.expansion.ranges, offset2 - call.expansionFileStartOffset).Some?
      && var adjusted := range2.ShiftLeft(call.expansionFileStartOffset);
         && SingleDstCover(call.expansion.ranges, adjusted).Some?
         && var u := SingleDstCover(call.expansion.ranges, adjusted).value;
            |Filter(call.expansion.ranges, SrcMeets(adjusted.ShiftRight(u.srcOffset - u.dstOffset)))| == 1
    ensures r.Some? ==> r.value.call == c
    ensures r.Some? ==>
      && call.expansion.MacroExpansion? && call.bodyTextRange.Some?
      && |Filter(call.expansion.ranges, DstCovers(range2.ShiftLeft(call.expansionFileStartOffset)))| == 1
      && |Filter(call.expansion.ranges, SrcMeets(r.value.range1.ShiftLeft(call.bodyTextRange.value.startOffset)))| == 1
      && call.bodyTextRange.value.ContainsRange(r.value.range1)
      && ExpandedElement.MapOffsetFromExpansionToCallBody(call, offset2) == Some(r.value.offset1)
    ensures r.Some? ==>
      var adjusted := range2.ShiftLeft(call.expansionFileStartOffset);
      && SingleDstCover(call.expansion.ranges, adjusted).Some?
      && var u := SingleDstCover(call.expansion.ranges, adjusted).value;
         r.value.range1 == adjusted.ShiftRight(u.srcOffset - u.dstOffset).ShiftRight(call.bodyTextRange.value.startOffset)
    ensures r.Some? && range2.Contains(offset2) ==> r.value.range1.Contains(r.value.offset1)
  {
    match call.expansion
    case NotExpanded => None
    case MacroExpansion(ranges, _) =>
      var fileOffset := call.expansionFileStartOffset;
      match call.bodyTextRange
      case None => None
      case Some(body) =>
        match RangeMaps.MapOffsetFromExpansionToCallBody(ranges, offset2 - fileOffset)
        case None => None
        case Some(rel) =>
          var offset1 := rel + body.startOffset;
          var range2Adjusted := range2.ShiftLeft(fileOffset);
          match SingleDstCover(ranges, range2Adjusted)
          case None => None
          case Some(u) =>
            var rangeBodyRelative1 := range2Adjusted.ShiftRight(u.srcOffset - u.dstOffset);
            if |Filter(ranges, SrcMeets(rangeBodyRelative1))| != 1 then None
            else
              var range1 := rangeBodyRelative1.ShiftRight(body.startOffset);
              assert range1.ShiftLeft(body.startOffset) == rangeBodyRelative1;
              ClimbIsConsistent(call, offset2, range2, u, rel);
              CoveringUnitCarriesOffset(call, offset2, range2, u, rel);
              Some(Climb(c, offset1, range1))
  }

  /** The facts behind one level: the covering unit keeps the moved range inside the body. */
  lemma ClimbIsConsistent(call: MacroCall, offset2: int, range2: TextRange, u: MappedTextRange, rel: int)
    requires CallWellFormed(call) && call.expansion.MacroExpansion? && call.bodyTextRange.Some?
    requires var adjusted := range2.ShiftLeft(call.expansionFileStartOffset);
      exists i :: 0 <= i < |call.expansion.ranges| && call.expansion.ranges[i] == u && u.DstRange().ContainsRange(adjusted)
    requires RangeMaps.MapOffsetFromExpansionToCallBody(call.expansion.ranges, offset2 - call.expansionFileStartOffset) == Some(rel)
    ensures var body := call.bodyTextRange.value;
      body.ContainsRange(range2.ShiftLeft(call.expansionFileStartOffset).ShiftRight(u.srcOffset - u.dstOffset).ShiftRight(body.startOffset))
    ensures ExpandedElement.MapOffsetFromExpansionToCallBody(call, offset2) == Some(rel + call.bodyTextRange.value.startOffset)
  {
    var ranges := call.expansion.ranges;
    var z := offset2 - call.expansionFileStartOffset;
    var i :| 0 <= i < |ranges| && ranges[i] == u && u.DstRange().ContainsRange(range2.ShiftLeft(call.expansionFileStartOffset));
    var j :| 0 <= j < |ranges| && ranges[j].DstRange().Contains(z) && ranges[j].SrcRange().Contains(rel)
             && rel - ranges[j].srcOffset == z - ranges[j].dstOffset;
    assert 0 <= rel < call.bodyTextRange.value.Length();
    ExpandedElement.ExpansionOffsetBackToBody(call, offset2, z, rel);
  }

  /** When `range2` holds `offset2`, the unit holding the offset is the covering unit, so the moved range holds the moved offset. */
  lemma CoveringUnitCarriesOffset(call: MacroCall, offset2: int, range2: TextRange, u: MappedTextRange, rel: int)
    requires CallWellFormed(call) && call.expansion.MacroExpansion? && call.bodyTextRange.Some?
    requires var adjusted := range2.ShiftLeft(call.expansionFileStartOffset);
      exists i :: 0 <= i < |call.expansion.ranges| && call.expansion.ranges[i] == u && u.DstRange().ContainsRange(adjusted)
    requires RangeMaps.MapOffsetFromExpansionToCallBody(call.expansion.ranges, offset2 - call.expansionFileStartOffset) == Some(rel)
    ensures range2.Contains(offset2) ==>
      range2.ShiftLeft(call.expansionFileStartOffset).ShiftRight(u.srcOffset - u.dstOffset)
        .ShiftRight(call.bodyTextRange.value.startOffset).Contains(rel + call.bodyTextRange.value.startOffset)
  {
    var ranges := call.expansion.ranges;
    var z := offset2 - call.expansionFileStartOffset;
    var i :| 0 <= i < |ranges| && ranges[i] == u && u.DstRange().ContainsRange(range2.ShiftLeft(call.expansionFileStartOffset));
    var j :| 0 <= j < |ranges| && ranges[j].DstRange().Contains(z) && ranges[j].SrcRange().Contains(rel)
             && rel - ranges[j].srcOffset == z - ranges[j].dstOffset;
    if range2.Contains(offset2) {
      assert u.DstRange().Contains(z);
      if i != j {
        if i < j {
          OverlappingDestinationsRejected(ranges, i, j, z);
        } else {
          OverlappingDestinationsRejected(ranges, j, i, z);
        }
      }
    }
  }

  /**
   * The second `findOriginalOffset`: climbs from `offset2`/`range2` in file `f` through
   * enclosing calls until a call written in `originalFile` is reached. The result is an
   * offset in the body of that call, which is on the chain of `f`.
   */
  function FindOriginalOffsetFrom(w: World, f: FileId, offset2: int, range2: TextRange, originalFile: FileId)
    : (r: Option<int>)
    requires WellFormed(w) && FileOk(w, f)
    ensures r.Some? ==>
      exists c :: c in Chain(w, f) && w.calls[c].file == originalFile
               && w.calls[c].bodyTextRange.Some? && w.calls[c].bodyTextRange.value.Contains(r.value)
    ensures FindOriginalStep(w, f, offset2, range2).None? ==> r.None?
    ensures var step := FindOriginalStep(w, f, offset2, range2);
      step.Some? && w.calls[step.value.call].file == originalFile ==> r == Some(step.value.offset1)
    decreases FileRank(f)
  {
    match FindOriginalStep(w, f, offset2, range2)
    case None => None
    case Some(step) =>
      var parentFile := w.calls[step.call].file;
      assert ParentBefore(w.calls[step.call], step.call);
      if parentFile == originalFile then Some(step.offset1)
      else
        var r := FindOriginalOffsetFrom(w, parentFile, step.offset1, step.range1, originalFile);
        assert r.Some? ==>
          exists c :: c in Chain(w, f) && w.calls[c].file == originalFile
                   && w.calls[c].bodyTextRange.Some? && w.calls[c].bodyTextRange.value.Contains(r.value) by {
          if r.Some? {
            var c :| c in Chain(w, parentFile) && w.calls[c].file == originalFile
                     && w.calls[c].bodyTextRange.Some? && w.calls[c].bodyTextRange.value.Contains(r.value);
            assert Chain(w, f) == [f.call] + Chain(w, parentFile);
          }
        }
        r
  }

  /**
   * When the original file is a real file, the climb ends where the element locator's
   * own climb ends: the same offset, in the body of a call written in that file.
   */
  lemma {:induction false} FindOriginalOffsetAgreesWithLocator(
    w: World, f: FileId, offset2: int, range2: TextRange, originalFile: FileId)
    requires WellFormed(w) && FileOk(w, f) && originalFile.SourceFile?
    requires FindOriginalOffsetFrom(w, f, offset2, range2, originalFile).Some?
    ensures var m := ExpandedElement.FindMacroCallAndOffsetExpandedFromUnchecked(w, f, offset2);
      && m.Some? && m.value.absoluteOffset == FindOriginalOffsetFrom(w, f, offset2, range2, originalFile).value
      && w.calls[m.value.call].file == originalFile
    decreases FileRank(f)
  {
    var step := FindOriginalStep(w, f, offset2, range2).value;
    var parentFile := w.calls[step.call].file;
    assert ParentBefore(w.calls[step.call], step.call);
    assert ExpandedElement.FindMacroCallAndOffsetExpandedFromNonRecursive(w, f, offset2)
      == Some(ExpandedElement.MacroCallAndOffset(step.call, step.offset1));
    if parentFile == originalFile {
      assert ExpandedElement.FindMacroCallAndOffsetExpandedFromNonRecursive(w, parentFile, step.offset1).None?;
    } else {
      FindOriginalOffsetAgreesWithLocator(w, parentFile, step.offset1, step.range1, originalFile);
    }
  }

  /** Two units whose destinations both cover the range make the level fail. */
  lemma AmbiguousCoverRejected(w: World, f: FileId, offset2: int, range2: TextRange, i: nat, j: nat)
    requires WellFormed(w) && FileOk(w, f) && f.ExpansionFile? && w.calls[f.call].expansion.MacroExpansion?
    requires var call := w.calls[f.call];
      var adjusted := range2.ShiftLeft(call.expansionFileStartOffset);
      i < j < |call.expansion.ranges|
      && call.expansion.ranges[i].DstRange().ContainsRange(adjusted)
      && call.expansion.ranges[j].DstRange().ContainsRange(adjusted)
    ensures FindOriginalStep(w, f, offset2, range2).None?
  {
    var call := w.calls[f.call];
    FilterTwo(call.expansion.ranges, DstCovers(range2.ShiftLeft(call.expansionFileStartOffset)), i, j);
  }

  /**
   * The first `findOriginalOffset`: an anchor already in the original file gives its end
   * offset; otherwise the climb starts from the enclosing statement, closure or arm.
   */
  function FindOriginalOffset(w: World, anchor: Anchor, originalFile: FileId): (r: Option<int>)
    requires WellFormed(w) && FileOk(w, anchor.file)
    ensures anchor.file == originalFile ==> r == Some(anchor.endOffset)
    ensures anchor.file != originalFile && anchor.enclosingRange.None? ==> r.None?
    ensures anchor.file != originalFile && anchor.enclosingRange.Some? ==>
      r == FindOriginalOffsetFrom(w, anchor.file, anchor.endOffset, anchor.enclosingRange.value, originalFile)
    ensures anchor.file != originalFile && r.Some? ==>
      && anchor.enclosingRange.Some?
      && exists c :: c in Chain(w, anchor.file) && w.calls[c].file == originalFile
                  && w.calls[c].bodyTextRange.Some? && w.calls[c].bodyTextRange.value.Contains(r.value)
  {
    if anchor.file == originalFile then Some(anchor.endOffset)
    else
      match anchor.enclosingRange
      case None => None
      case Some(parentRange) => FindOriginalOffsetFrom(w, anchor.file, anchor.endOffset, parentRange, originalFile)
  }

  /**
   * An anchor in the expansion of a call written in the original file is placed whenever
   * the single level is unambiguous: at its end offset carried into the call body.
   */
  lemma UnambiguousLevelIsPlaced(w: World, anchor: Anchor, originalFile: FileId)
    requires WellFormed(w) && FileOk(w, anchor.file) && anchor.file.ExpansionFile?
    requires w.calls[anchor.file.call].file == originalFile && anchor.enclosingRange.Some?
    requires var call := w.calls[anchor.file.call];
      && call.expansion.MacroExpansion? && call.bodyTextRange.Some?
      && |RangeMaps.DstUnits(call.expansion.ranges, anchor.endOffset - call.expansionFileStartOffset)| == 1
      && var adjusted := anchor.enclosingRange.value.ShiftLeft(call.expansionFileStartOffset);
         && |Filter(call.expansion.ranges, DstCovers(adjusted))| == 1
         && var u := SingleDstCover(call.expansion.ranges, adjusted).value;
            |Filter(call.expansion.ranges, SrcMeets(adjusted.ShiftRight(u.srcOffset - u.dstOffset)))| == 1
    ensures FindOriginalOffset(w, anchor, originalFile).Some?
    ensures FindOriginalOffset(w, anchor, originalFile)
      == ExpandedElement.MapOffsetFromExpansionToCallBody(w.calls[anchor.file.call], anchor.endOffset)
  {
    assert ParentBefore(w.calls[anchor.file.call], anchor.file.call);
  }

  // ---------------------------------------------------------------------------
  // What the collector sees
  // ---------------------------------------------------------------------------

  datatype Settings = Settings(
    showForVariables: bool,
    showForLambdas: bool,
    showForIterators: bool,
    showForPlaceholders: bool,
    showObviousTypes: bool)

  const DefaultSettings := Settings(true, true, true, true, false)

  /** What the initializer expression of a pattern resolves to, as far as `isObvious` asks. */
  datatype Declaration = StructItem | EnumVariant | OtherDeclaration

  /**
   * A binding of a pattern: its name, whether it resolves to a constant-like item, whether
   * its inferred type is unknown, whether it survives `cfg` expansion, and its anchor.
   */
  datatype Binding = Binding(
    name: string,
    isConstantLike: bool,
    typeUnknown: bool,
    existsAfterExpansion: bool,
    anchor: Anchor)

  /** A pattern: whether it is a plain identifier pattern, and its bindings in order. */
  datatype Pat = Pat(isIdent: bool, bindings: seq<Binding>)

  datatype LambdaParam = LambdaParam(hasTypeReference: bool, pat: Option<Pat>)

  /** The Rust elements the collector reacts to; everything else is `OtherElement`. */
  datatype RsElementKind =
    | LetDecl(hasTypeReference: bool, letPat: Option<Pat>, letDeclaration: Option<Declaration>)
    | LetExpr(condPat: Option<Pat>, condDeclaration: Option<Declaration>)
    | MatchExpr(arms: seq<Pat>, scrutineeDeclaration: Option<Declaration>)
    | LambdaExpr(params: seq<LambdaParam>)
    | ForExpr(forPat: Option<Pat>)
    | OtherElement

  datatype TypeHint = TypeHint(offset: int, binding: Binding)

  /** The snapshot, the kinds of the Rust elements by id, the settings and the file being annotated. */
  datatype HintEnv = HintEnv(w: World, kinds: map<nat, RsElementKind>, settings: Settings, originalFile: FileId)

  function KindOf(env: HintEnv, id: nat): RsElementKind {
    if id in env.kinds then env.kinds[id] else OtherElement
  }

  predicate PatOk(w: World, pat: Pat) {
    forall i :: 0 <= i < |pat.bindings| ==> FileOk(w, pat.bindings[i].anchor.file)
  }

  predicate OptPatOk(w: World, pat: Option<Pat>) {
    pat.Some? ==> PatOk(w, pat.value)
  }

  predicate KindOk(w: World, kind: RsElementKind) {
    match kind
    case LetDecl(_, pat, _) => OptPatOk(w, pat)
    case LetExpr(pat, _) => OptPatOk(w, pat)
    case MatchExpr(arms, _) => forall i :: 0 <= i < |arms| ==> PatOk(w, arms[i])
    case LambdaExpr(params) => forall i :: 0 <= i < |params| ==> OptPatOk(w, params[i].pat)
    case ForExpr(pat) => OptPatOk(w, pat)
    case OtherElement => true
  }

  predicate EnvOk(env: HintEnv) {
    WellFormed(env.w) && forall id :: id in env.kinds ==> KindOk(env.w, env.kinds[id])
  }

  predicate NodeOk(w: World, node: PsiNode) {
    node.MacroCallNode? ==> node.call < |w.calls|
  }

  // ---------------------------------------------------------------------------
  // Which bindings get a hint
  // ---------------------------------------------------------------------------

  /** `isObvious`: a struct literal or enum variant bound to a plain identifier pattern. */
  predicate IsObvious(pat: Pat, declaration: Option<Declaration>): (r: bool)
    ensures declaration.Some? && (declaration.value.StructItem? || declaration.value.EnumVariant?) ==> (r <==> pat.isIdent)
    ensures declaration.None? || !(declaration.value.StructItem? || declaration.value.EnumVariant?) ==> !r
  {
    match declaration
    case Some(StructItem) => pat.isIdent
    case Some(EnumVariant) => pat.isIdent
    case _ => false
  }

  predicate StartsWithUnderscore(name: string) {
    |name| > 0 && name[0] == '_'
  }

  /** The filter of `presentTypeForPat`: no `_`-prefixed name, no constant, a known type. */
  predicate PassesBindingFilter(b: Binding): (r: bool)
    ensures StartsWithUnderscore(b.name) || b.isConstantLike || b.typeUnknown ==> !r
    ensures r || StartsWithUnderscore(b.name) || b.isConstantLike || b.typeUnknown
  {
    if StartsWithUnderscore(b.name) then false
    else if b.isConstantLike then false
    else !b.typeUnknown
  }

  /** What every emitted hint satisfies: a filtered binding, kept by `cfg`, placed by `FindOriginalOffset`. */
  predicate HintAllowed(env: HintEnv, h: TypeHint)
    requires WellFormed(env.w)
  {
    && PassesBindingFilter(h.binding) && h.binding.existsAfterExpansion
    && FileOk(env.w, h.binding.anchor.file)
    && FindOriginalOffset(env.w, h.binding.anchor, env.originalFile) == Some(h.offset)
  }

  predicate AllAllowed(env: HintEnv, hints: seq<TypeHint>)
    requires WellFormed(env.w)
  {
    forall k :: 0 <= k < |hints| ==> HintAllowed(env, hints[k])
  }

  /** `presentTypeForBinding`: the hint, if the binding can be placed and survives `cfg`. */
  function BindingHint(env: HintEnv, b: Binding): (r: seq<TypeHint>)
    requires WellFormed(env.w) && FileOk(env.w, b.anchor.file) && PassesBindingFilter(b)
    ensures |r| <= 1 && AllAllowed(env, r)
    ensures r == [] <==>
      FindOriginalOffset(env.w, b.anchor, env.originalFile).None? || !b.existsAfterExpansion
  {
    match FindOriginalOffset(env.w, b.anchor, env.originalFile)
    case None => []
    case Some(offset) => if !b.existsAfterExpansion then [] else [TypeHint(offset, b)]
  }

  /** The hints for the first bindings of a pattern, in order (the loop of `presentTypeForPat`). */
  function BindingsHints(env: HintEnv, bs: seq<Binding>): (r: seq<TypeHint>)
    requires WellFormed(env.w) && forall i :: 0 <= i < |bs| ==> FileOk(env.w, bs[i].anchor.file)
    ensures |r| <= |bs| && AllAllowed(env, r)
    ensures forall k :: 0 <= k < |r| ==> r[k].binding in bs
  {
    if bs == [] then []
    else
      var last := bs[|bs| - 1];
      BindingsHints(env, bs[..|bs| - 1]) + (if PassesBindingFilter(last) then BindingHint(env, last) else [])
  }

  /** One more binding: the prefix's hints gain that binding's hint when it passes the filter. */
  lemma BindingsHintsStep(env: HintEnv, bs: seq<Binding>, i: nat)
    requires WellFormed(env.w) && forall j :: 0 <= j < |bs| ==> FileOk(env.w, bs[j].anchor.file)
    requires i < |bs|
    ensures BindingsHints(env, bs[..i + 1])
      == BindingsHints(env, bs[..i]) + (if PassesBindingFilter(bs[i]) then BindingHint(env, bs[i]) else [])
  {
    assert bs[..i + 1][..i] == bs[..i];
  }

  /**
   * The hints follow the bindings: the `k`-th hint is for binding `idx[k]`, and the
   * indices strictly increase, so hints keep the bindings' order and never repeat one.
   */
  lemma {:induction false} BindingsHintsFollowBindings(env: HintEnv, bs: seq<Binding>) returns (idx: seq<nat>)
    requires WellFormed(env.w) && forall i :: 0 <= i < |bs| ==> FileOk(env.w, bs[i].anchor.file)
    ensures |idx| == |BindingsHints(env, bs)|
    ensures forall k :: 0 <= k < |idx| ==> idx[k] < |bs| && BindingsHints(env, bs)[k].binding == bs[idx[k]]
    ensures forall k, l :: 0 <= k < l < |idx| ==> idx[k] < idx[l]
  {
    if bs == [] {
      idx := [];
    } else {
      var init := bs[..|bs| - 1];
      var last := bs[|bs| - 1];
      var idx0 := BindingsHintsFollowBindings(env, init);
      var tail := if PassesBindingFilter(last) then BindingHint(env, last) else [];
      assert BindingsHints(env, bs) == BindingsHints(env, init) + tail;
      idx := idx0 + (if |tail| == 1 then [|bs| - 1] else []);
      forall k | 0 <= k < |idx0| ensures idx[k] < |bs| && BindingsHints(env, bs)[k].binding == bs[idx[k]] {
        assert init[idx0[k]] == bs[idx0[k]];
      }
    }
  }

  /** `presentTypeForPat`: nothing for an obvious pattern unless obvious types are shown. */
  function PatHints(env: HintEnv, pat: Pat, declaration: Option<Declaration>): (r: seq<TypeHint>)
    requires WellFormed(env.w) && PatOk(env.w, pat)
    ensures AllAllowed(env, r)
    ensures !env.settings.showObviousTypes && IsObvious(pat, declaration) ==> r == []
  {
    if !env.settings.showObviousTypes && IsObvious(pat, declaration) then []
    else BindingsHints(env, pat.bindings)
  }

  function OptPatHints(env: HintEnv, pat: Option<Pat>, declaration: Option<Declaration>): (r: seq<TypeHint>)
    requires WellFormed(env.w) && OptPatOk(env.w, pat)
    ensures AllAllowed(env, r)
    ensures pat.None? ==> r == []
  {
    match pat
    case None => []
    case Some(p) => PatHints(env, p, declaration)
  }

  /** The arms of a `match`, each against the scrutinee's declaration. */
  function ArmsHints(env: HintEnv, arms: seq<Pat>, declaration: Option<Declaration>): (r: seq<TypeHint>)
    requires WellFormed(env.w) && forall i :: 0 <= i < |arms| ==> PatOk(env.w, arms[i])
    ensures AllAllowed(env, r)
  {
    if arms == [] then []
    else ArmsHints(env, arms[..|arms| - 1], declaration) + PatHints(env, arms[|arms| - 1], declaration)
  }

  /** The closure parameters without a written type. */
  function ParamsHints(env: HintEnv, params: seq<LambdaParam>): (r: seq<TypeHint>)
    requires WellFormed(env.w) && forall i :: 0 <= i < |params| ==> OptPatOk(env.w, params[i].pat)
    ensures AllAllowed(env, r)
  {
    if params == [] then []
    else
      var last := params[|params| - 1];
      ParamsHints(env, params[..|params| - 1]) + (if last.hasTypeReference then [] else OptPatHints(env, last.pat, None))
  }

  /** One more arm: the prefix's hints gain that arm's hints. */
  lemma ArmsHintsStep(env: HintEnv, arms: seq<Pat>, declaration: Option<Declaration>, i: nat)
    requires WellFormed(env.w) && forall j :: 0 <= j < |arms| ==> PatOk(env.w, arms[j])
    requires i < |arms|
    ensures ArmsHints(env, arms[..i + 1], declaration) == ArmsHints(env, arms[..i], declaration) + PatHints(env, arms[i], declaration)
  {
    assert arms[..i + 1][..i] == arms[..i];
  }

  /** One more parameter: the prefix's hints gain its hints unless its type is written. */
  lemma ParamsHintsStep(env: HintEnv, params: seq<LambdaParam>, i: nat)
    requires WellFormed(env.w) && forall j :: 0 <= j < |params| ==> OptPatOk(env.w, params[j].pat)
    requires i < |params|
    ensures ParamsHints(env, params[..i + 1])
      == ParamsHints(env, params[..i]) + (if params[i].hasTypeReference then [] else OptPatHints(env, params[i].pat, None))
  {
    assert params[..i + 1][..i] == params[..i];
  }

  /** `presentVariable`: `let` without a written type, `if let`/`while let`, and `match` arms. */
  function VariableHints(env: HintEnv, kind: RsElementKind): (r: seq<TypeHint>)
    requires WellFormed(env.w) && KindOk(env.w, kind)
    ensures AllAllowed(env, r)
    ensures kind.LetDecl? && kind.hasTypeReference ==> r == []
  {
    match kind
    case LetDecl(hasTypeReference, pat, declaration) => if hasTypeReference then [] else OptPatHints(env, pat, declaration)
    case LetExpr(pat, declaration) => OptPatHints(env, pat, declaration)
    case MatchExpr(arms, declaration) => ArmsHints(env, arms, declaration)
    case _ => []
  }

  function LambdaHints(env: HintEnv, kind: RsElementKind): (r: seq<TypeHint>)
    requires WellFormed(env.w) && KindOk(env.w, kind)
    ensures AllAllowed(env, r)
    ensures !kind.LambdaExpr? ==> r == []
  {
    if kind.LambdaExpr? then ParamsHints(env, kind.params) else []
  }

  function IteratorHints(env: HintEnv, kind: RsElementKind): (r: seq<TypeHint>)
    requires WellFormed(env.w) && KindOk(env.w, kind)
    ensures AllAllowed(env, r)
    ensures !kind.ForExpr? ==> r == []
  {
    if kind.ForExpr? then OptPatHints(env, kind.forPat, None) else []
  }

  /** The hints of one Rust element that is not a macro call, presenter by presenter. */
  function ElementHints(env: HintEnv, kind: RsElementKind): (r: seq<TypeHint>)
    requires WellFormed(env.w) && KindOk(env.w, kind)
    ensures AllAllowed(env, r)
  {
    (if env.settings.showForVariables then VariableHints(env, kind) else [])
    + (if env.settings.showForLambdas then LambdaHints(env, kind) else [])
    + (if env.settings.showForIterators then IteratorHints(env, kind) else [])
  }

  // ---------------------------------------------------------------------------
  // The traversal
  // ---------------------------------------------------------------------------

  /** `doCollect`: a macro call is descended into, another Rust element presented, the rest ignored. */
  function NodeHints(env: HintEnv, node: PsiNode, depth: nat): (r: seq<TypeHint>)
    requires EnvOk(env) && NodeOk(env.w, node) && depth <= DefaultRecursionLimit
    ensures AllAllowed(env, r)
    ensures node.NonRsNode? ==> r == []
    decreases DefaultRecursionLimit - depth, 1, 0
  {
    match node
    case NonRsNode => []
    case MacroCallNode(c) => CallHints(env, c, depth)
    case RsNode(id) =>
      assert KindOk(env.w, KindOf(env, id));
      ElementHints(env, KindOf(env, id))
  }

  /**
   * `processMacroCall`: nothing at or beyond the depth limit, for a call without an
   * expansion, or for a call whose body range is present and empty; otherwise every
   * node of the expansion in pre-order, one level deeper.
   */
  function CallHints(env: HintEnv, c: nat, depth: nat): (r: seq<TypeHint>)
    requires EnvOk(env) && c < |env.w.calls| && depth <= DefaultRecursionLimit
    ensures AllAllowed(env, r)
    ensures depth >= DefaultRecursionLimit ==> r == []
    ensures env.w.calls[c].expansion.NotExpanded? ==> r == []
    ensures var body := env.w.calls[c].bodyTextRange; body.Some? && body.value.IsEmpty() ==> r == []
    decreases DefaultRecursionLimit - depth, 0, 0
  {
    var call := env.w.calls[c];
    if depth >= DefaultRecursionLimit then []
    else if call.expansion.NotExpanded? then []
    else if call.bodyTextRange.Some? && call.bodyTextRange.value.IsEmpty() then []
    else
      assert NodesOk(call, |env.w.calls|);
      NodesHints(env, call.expansion.preOrder, depth + 1)
  }

  /** The nodes of a traversal, in order. */
  function NodesHints(env: HintEnv, nodes: seq<PsiNode>, depth: nat): (r: seq<TypeHint>)
    requires EnvOk(env) && depth <= DefaultRecursionLimit
    requires forall i :: 0 <= i < |nodes| && nodes[i].MacroCallNode? ==> nodes[i].call < |env.w.calls|
    ensures AllAllowed(env, r)
    decreases DefaultRecursionLimit - depth, 2, |nodes|
  {
    if nodes == [] then []
    else NodesHints(env, nodes[..|nodes| - 1], depth) + NodeHints(env, nodes[|nodes| - 1], depth)
  }

  /** One more node: the prefix's hints gain that node's hints. */
  lemma NodesHintsStep(env: HintEnv, nodes: seq<PsiNode>, depth: nat, i: nat)
    requires EnvOk(env) && depth <= DefaultRecursionLimit
    requires forall j :: 0 <= j < |nodes| && nodes[j].MacroCallNode? ==> nodes[j].call < |env.w.calls|
    requires i < |nodes|
    ensures NodesHints(env, nodes[..i + 1], depth) == NodesHints(env, nodes[..i], depth) + NodeHints(env, nodes[i], depth)
  {
    assert nodes[..i + 1][..i] == nodes[..i];
  }

  /**
   * Below the limit, an expanded call whose body range is absent or non-empty is descended
   * into, one level deeper: a missing body range does not stop the traversal.
   */
  lemma ExpandedCallIsTraversed(env: HintEnv, c: nat, depth: nat)
    requires EnvOk(env) && c < |env.w.calls| && depth < DefaultRecursionLimit
    requires env.w.calls[c].expansion.MacroExpansion?
    requires env.w.calls[c].bodyTextRange.None? || !env.w.calls[c].bodyTextRange.value.IsEmpty()
    ensures NodesOk(env.w.calls[c], |env.w.calls|)
    ensures CallHints(env, c, depth) == NodesHints(env, env.w.calls[c].expansion.preOrder, depth + 1)
  {
    assert NodesOk(env.w.calls[c], |env.w.calls|);
  }

  /** Every binding that passes the filters gets its hint, unless the whole pattern is obvious. */
  lemma {:induction false} EveryEligibleBindingIsHinted(env: HintEnv, bs: seq<Binding>, i: nat, offset: int)
    requires WellFormed(env.w) && forall k :: 0 <= k < |bs| ==> FileOk(env.w, bs[k].anchor.file)
    requires i < |bs| && PassesBindingFilter(bs[i]) && bs[i].existsAfterExpansion
    requires FindOriginalOffset(env.w, bs[i].anchor, env.originalFile) == Some(offset)
    ensures TypeHint(offset, bs[i]) in BindingsHints(env, bs)
  {
    var last := bs[|bs| - 1];
    var prefix := bs[..|bs| - 1];
    var rest := if PassesBindingFilter(last) then BindingHint(env, last) else [];
    assert BindingsHints(env, bs) == BindingsHints(env, prefix) + rest;
    if i == |bs| - 1 {
      assert rest == [TypeHint(offset, bs[i])];
    } else {
      assert prefix[i] == bs[i];
      EveryEligibleBindingIsHinted(env, prefix, i, offset);
    }
  }

  /**
   * Unless the pattern is suppressed as obvious, every binding of it that passes the
   * filter, survives `cfg` and can be placed gets its hint.
   */
  lemma PatHintsComplete(env: HintEnv, pat: Pat, declaration: Option<Declaration>)
    requires WellFormed(env.w) && PatOk(env.w, pat)
    requires env.settings.showObviousTypes || !IsObvious(pat, declaration)
    ensures forall i :: 0 <= i < |pat.bindings| && PassesBindingFilter(pat.bindings[i])
                        && pat.bindings[i].existsAfterExpansion
                        && FindOriginalOffset(env.w, pat.bindings[i].anchor, env.originalFile).Some? ==>
      TypeHint(FindOriginalOffset(env.w, pat.bindings[i].anchor, env.originalFile).value, pat.bindings[i])
        in PatHints(env, pat, declaration)
  {
    forall i | 0 <= i < |pat.bindings| && PassesBindingFilter(pat.bindings[i])
               && pat.bindings[i].existsAfterExpansion
               && FindOriginalOffset(env.w, pat.bindings[i].anchor, env.originalFile).Some?
      ensures TypeHint(FindOriginalOffset(env.w, pat.bindings[i].anchor, env.originalFile).value, pat.bindings[i])
        in PatHints(env, pat, declaration)
    {
      EveryEligibleBindingIsHinted(env, pat.bindings, i,
        FindOriginalOffset(env.w, pat.bindings[i].anchor, env.originalFile).value);
    }
  }

  // ---------------------------------------------------------------------------
  // The collector
  // ---------------------------------------------------------------------------

  lemma AppendAssociative(a: seq<TypeHint>, b: seq<TypeHint>, c: seq<TypeHint>)
    ensures a + b + c == a + (b + c)
  {
  }

  /** The collector for one file: its environment, whether indices are unavailable, and the sink. */
  class TypeHintsCollector {
    const env: HintEnv
    const dumb: bool
    var hints: seq<TypeHint>

    constructor(env: HintEnv, dumb: bool)
      ensures this.env == env && this.dumb == dumb && hints == []
    {
      this.env := env;
      this.dumb := dumb;
      hints := [];
    }

    /** `collect`: in dumb mode nothing is collected; the traversal always continues. */
    method Collect(node: PsiNode) returns (continueTraversal: bool)
      requires EnvOk(env) && NodeOk(env.w, node)
      modifies this
      ensures continueTraversal
      ensures hints == old(hints) + (if dumb then [] else NodeHints(env, node, 0))
      ensures AllAllowed(env, hints[|old(hints)|..])
    {
      if !dumb {
        DoCollect(node, 0);
      }
      continueTraversal := true;
    }

    method DoCollect(node: PsiNode, depth: nat)
      requires EnvOk(env) && NodeOk(env.w, node) && depth <= DefaultRecursionLimit
      modifies this
      ensures hints == old(hints) + NodeHints(env, node, depth)
      decreases DefaultRecursionLimit - depth, 1
    {
      match node {
        case NonRsNode =>
        case MacroCallNode(c) =>
          ProcessMacroCall(c, depth);
        case RsNode(id) =>
          var kind := KindOf(env, id);
          assert KindOk(env.w, kind);
          ghost var variables := if env.settings.showForVariables then VariableHints(env, kind) else [];
          ghost var lambdas := if env.settings.showForLambdas then LambdaHints(env, kind) else [];
          ghost var iterators := if env.settings.showForIterators then IteratorHints(env, kind) else [];
          if env.settings.showForVariables {
            PresentVariable(kind);
          }
          assert hints == old(hints) + variables;
          if env.settings.showForLambdas {
            PresentLambda(kind);
          }
          assert hints == old(hints) + variables + lambdas;
          if env.settings.showForIterators {
            PresentIterator(kind);
          }
          assert hints == old(hints) + variables + lambdas + iterators;
          AppendAssociative(old(hints), variables, lambdas);
          AppendAssociative(old(hints), variables + lambdas, iterators);
      }
    }

    method ProcessMacroCall(c: nat, depth: nat)
      requires EnvOk(env) && c < |env.w.calls| && depth <= DefaultRecursionLimit
      modifies this
      ensures hints == old(hints) + CallHints(env, c, depth)
      decreases DefaultRecursionLimit - depth, 0
    {
      var call := env.w.calls[c];
      if depth >= DefaultRecursionLimit {
        return;
      }
      if call.expansion.NotExpanded? {
        return;
      }
      if call.bodyTextRange.Some? && call.bodyTextRange.value.IsEmpty() {
        return;
      }
      assert NodesOk(call, |env.w.calls|);
      var nodes := call.expansion.preOrder;
      for i := 0 to |nodes|
        invariant hints == old(hints) + NodesHints(env, nodes[..i], depth + 1)
      {
        NodesHintsStep(env, nodes, depth + 1, i);
        DoCollect(nodes[i], depth + 1);
        AppendAssociative(old(hints), NodesHints(env, nodes[..i], depth + 1), NodeHints(env, nodes[i], depth + 1));
      }
      assert nodes[..|nodes|] == nodes;
    }

    method PresentVariable(kind: RsElementKind)
      requires WellFormed(env.w) && KindOk(env.w, kind)
      modifies this
      ensures hints == old(hints) + VariableHints(env, kind)
    {
      match kind {
        case LetDecl(hasTypeReference, pat, declaration) =>
          if !hasTypeReference && pat.Some? {
            PresentTypeForPat(pat.value, declaration);
          }
        case LetExpr(pat, declaration) =>
          if pat.Some? {
            PresentTypeForPat(pat.value, declaration);
          }
        case MatchExpr(arms, declaration) =>
          for i := 0 to |arms|
            invariant hints == old(hints) + ArmsHints(env, arms[..i], declaration)
          {
            ArmsHintsStep(env, arms, declaration, i);
            PresentTypeForPat(arms[i], declaration);
            AppendAssociative(old(hints), ArmsHints(env, arms[..i], declaration), PatHints(env, arms[i], declaration));
          }
          assert arms[..|arms|] == arms;
        case _ =>
      }
    }

    method PresentLambda(kind: RsElementKind)
      requires WellFormed(env.w) && KindOk(env.w, kind)
      modifies this
      ensures hints == old(hints) + LambdaHints(env, kind)
    {
      if !kind.LambdaExpr? {
        return;
      }
      var params := kind.params;
      for i := 0 to |params|
        invariant hints == old(hints) + ParamsHints(env, params[..i])
      {
        ParamsHintsStep(env, params, i);
        if !params[i].hasTypeReference && params[i].pat.Some? {
          PresentTypeForPat(params[i].pat.value, None);
        }
        AppendAssociative(old(hints), ParamsHints(env, params[..i]),
          if params[i].hasTypeReference then [] else OptPatHints(env, params[i].pat, None));
      }
      assert params[..|params|] == params;
    }

    method PresentIterator(kind: RsElementKind)
      requires WellFormed(env.w) && KindOk(env.w, kind)
      modifies this
      ensures hints == old(hints) + IteratorHints(env, kind)
    {
      if kind.ForExpr? && kind.forPat.Some? {
        PresentTypeForPat(kind.forPat.value, None);
      }
    }

    /** `presentTypeForPat`: the filtered bindings of `pat`, in order. */
    method PresentTypeForPat(pat: Pat, declaration: Option<Declaration>)
      requires WellFormed(env.w) && PatOk(env.w, pat)
      modifies this
      ensures hints == old(hints) + PatHints(env, pat, declaration)
    {
      if !env.settings.showObviousTypes && IsObvious(pat, declaration) {
        return;
      }
      var bindings := pat.bindings;
      for i := 0 to |bindings|
        invariant hints == old(hints) + BindingsHints(env, bindings[..i])
      {
        BindingsHintsStep(env, bindings, i);
        var binding := bindings[i];
        if StartsWithUnderscore(binding.name) {
          continue;
        }
        if binding.isConstantLike {
          continue;
        }
        if binding.typeUnknown {
          continue;
        }
        PresentTypeForBinding(binding);
      }
      assert bindings[..|bindings|] == bindings;
    }

    method PresentTypeForBinding(binding: Binding)
      requires WellFormed(env.w) && FileOk(env.w, binding.anchor.file) && PassesBindingFilter(binding)
      modifies this
      ensures hints == old(hints) + BindingHint(env, binding)
    {
      var offset := FindOriginalOffset(env.w, binding.anchor, env.originalFile);
      if offset.None? {
        return;
      }
      if !binding.existsAfterExpansion {
        return;
      }
      hints := hints + [TypeHint(offset.value, binding)];
    }
  }
}
