/**
 * Locating the macro call an element was expanded from, and translating offsets and
 * ranges between an expansion file and the body of the call that produced it.
 */
module ExpandedElement {
  import opened Wrappers
  import opened Seqs
  import opened TextRanges
  import opened RangeMaps
  import opened MacroModel

  // ---------------------------------------------------------------------------
  // Call-chain locator
  // ---------------------------------------------------------------------------

  /** The outermost call of the chain that produced file `f`; `None` for a real file. */
  function FindMacroCallExpandedFrom(w: World, f: FileId): (r: Option<nat>)
    requires WellFormed(w) && FileOk(w, f)
    ensures r.None? <==> f.SourceFile?
    ensures r.Some? ==> r.value < |w.calls| && w.calls[r.value].file.SourceFile?
    decreases FileRank(f)
  {
    match ExpandedFromNonRecursive(f)
    case None => None
    case Some(found) =>
      match FindMacroCallExpandedFrom(w, w.calls[found].file)
      case Some(outer) => Some(outer)
      case None => Some(found)
  }

  /** The call found is the last hop of the chain. */
  lemma {:induction false} FindMacroCallExpandedFromIsLastOfChain(w: World, f: FileId)
    requires WellFormed(w) && FileOk(w, f)
    ensures var chain := Chain(w, f);
      FindMacroCallExpandedFrom(w, f) == if chain == [] then None else Some(chain[|chain| - 1])
    decreases FileRank(f)
  {
    if f.ExpansionFile? {
      FindMacroCallExpandedFromIsLastOfChain(w, w.calls[f.call].file);
    }
  }

  /** The number of calls between file `f` and a real file: 0 for a real file. */
  method CalculateMacroExpansionDepth(w: World, f: FileId) returns (depth: nat)
    requires WellFormed(w) && FileOk(w, f)
    ensures depth == |Chain(w, f)|
  {
    if f.SourceFile? {
      return 0;
    }
    var macroCall: nat := f.call;
    var counter := 1;
    while true
      invariant macroCall < |w.calls|
      invariant counter + |Chain(w, w.calls[macroCall].file)| == |Chain(w, f)|
      decreases macroCall
    {
      match ExpandedFromNonRecursive(w.calls[macroCall].file)
      case None =>
        break;
      case Some(parent) =>
        assert ParentBefore(w.calls[macroCall], macroCall);
        macroCall := parent;
        counter := counter + 1;
    }
    return counter;
  }

  /** The outermost call, found by an explicit walk from the directly producing call. */
  method ExpandedFromRecursively(w: World, f: FileId) returns (r: Option<nat>)
    requires WellFormed(w) && FileOk(w, f)
    ensures r == FindMacroCallExpandedFrom(w, f)
  {
    if f.SourceFile? {
      return None;
    }
    var call: nat := f.call;
    while true
      invariant call < |w.calls|
      invariant FindMacroCallExpandedFrom(w, f) == FindMacroCallExpandedFrom(w, ExpansionFile(call))
      decreases call
    {
      match ExpandedFromNonRecursive(w.calls[call].file)
      case None =>
        break;
      case Some(parent) =>
        assert ParentBefore(w.calls[call], call);
        call := parent;
    }
    return Some(call);
  }

  // ---------------------------------------------------------------------------
  // Body-relative offsets
  // ---------------------------------------------------------------------------

  /** Absolute offset to an offset relative to the start of the call body. */
  function ToBodyRelativeOffset(call: MacroCall, offset: int): (r: Option<int>)
    ensures r.Some? <==> call.bodyTextRange.Some? && call.bodyTextRange.value.Contains(offset)
    ensures r.Some? ==>
      0 <= r.value < call.bodyTextRange.value.Length() && r.value + call.bodyTextRange.value.startOffset == offset
  {
    match call.bodyTextRange
    case None => None
    case Some(body) =>
      if !body.Contains(offset) then None else Some(offset - body.startOffset)
  }

  /** Body-relative offset back to an absolute offset; `fromBodyRelativeOffset` checks it stays in the body. */
  function FromBodyRelativeOffset(call: MacroCall, relOffset: int): (r: Option<int>)
    requires call.bodyTextRange.Some? ==>
      relOffset + call.bodyTextRange.value.startOffset <= call.bodyTextRange.value.endOffset
    ensures r.Some? <==> call.bodyTextRange.Some?
    ensures r.Some? ==>
      r.value - call.bodyTextRange.value.startOffset == relOffset && r.value <= call.bodyTextRange.value.endOffset
  {
    match call.bodyTextRange
    case None => None
    case Some(body) => Some(relOffset + body.startOffset)
  }

  /** The two conversions undo each other on the offsets of the body. */
  lemma BodyRelativeRoundTrip(call: MacroCall, offset: int, relOffset: int)
    requires call.bodyTextRange.Some?
    ensures ToBodyRelativeOffset(call, offset).Some? ==>
      FromBodyRelativeOffset(call, ToBodyRelativeOffset(call, offset).value) == Some(offset)
    ensures 0 <= relOffset < call.bodyTextRange.value.Length() ==>
      ToBodyRelativeOffset(call, FromBodyRelativeOffset(call, relOffset).value) == Some(relOffset)
  {
  }

  // ---------------------------------------------------------------------------
  // Offset translation
  // ---------------------------------------------------------------------------

  /** Expansion offset (shared offset space) to a body-relative offset of the call. */
  function MapOffsetFromExpansionToCallBodyRelative(call: MacroCall, offset: int): (r: Option<int>)
    ensures r.Some? <==>
      call.expansion.MacroExpansion? && |DstUnits(call.expansion.ranges, offset - call.expansionFileStartOffset)| == 1
    ensures r.Some? ==>
      exists i :: 0 <= i < |call.expansion.ranges|
               && call.expansion.ranges[i].DstRange().Contains(offset - call.expansionFileStartOffset)
               && call.expansion.ranges[i].SrcRange().Contains(r.value)
               && r.value - call.expansion.ranges[i].srcOffset
                  == offset - call.expansionFileStartOffset - call.expansion.ranges[i].dstOffset
  {
    match call.expansion
    case NotExpanded => None
    case MacroExpansion(ranges, _) =>
      RangeMaps.MapOffsetFromExpansionToCallBody(ranges, offset - call.expansionFileStartOffset)
  }

  /** Expansion offset to an absolute offset inside the call body. */
  function MapOffsetFromExpansionToCallBody(call: MacroCall, offset: int): (r: Option<int>)
    requires CallWellFormed(call)
    ensures r.Some? <==> call.bodyTextRange.Some? && MapOffsetFromExpansionToCallBodyRelative(call, offset).Some?
    ensures r.Some? ==> call.bodyTextRange.value.Contains(r.value)
  {
    match MapOffsetFromExpansionToCallBodyRelative(call, offset)
    case None => None
    case Some(rel) => FromBodyRelativeOffset(call, rel)
  }

  /**
   * Absolute body offset to every offset of the expansion it was copied to. `None` for
   * an offset outside the body; otherwise one result per unit whose source holds it.
   */
  function MapOffsetFromCallBodyToExpansion(call: MacroCall, expansion: MacroExpansion, absOffsetInCallBody: int)
    : (r: Option<seq<int>>)
    requires expansion.MacroExpansion?
    ensures r.None? <==> ToBodyRelativeOffset(call, absOffsetInCallBody).None?
    ensures r.Some? ==>
      var rel := ToBodyRelativeOffset(call, absOffsetInCallBody).value;
      && |r.value| == |SrcUnits(expansion.ranges, rel)|
      && forall k :: 0 <= k < |r.value| ==>
           var u := SrcUnits(expansion.ranges, rel)[k];
           u in expansion.ranges && u.SrcRange().Contains(rel)
           && u.DstRange().Contains(r.value[k] - call.expansionFileStartOffset)
           && r.value[k] == u.dstOffset + (rel - u.srcOffset) + call.expansionFileStartOffset
  {
    match ToBodyRelativeOffset(call, absOffsetInCallBody)
    case None => None
    case Some(rel) =>
      var offsets := RangeMaps.MapOffsetFromCallBodyToExpansion(expansion.ranges, rel);
      Some(seq(|offsets|, k requires 0 <= k < |offsets| => offsets[k] + call.expansionFileStartOffset))
  }

  /** An expansion offset that maps into the body is among the images of that body offset. */
  lemma ExpansionToCallBodyRoundTrip(call: MacroCall, offset: int)
    requires CallWellFormed(call) && MapOffsetFromExpansionToCallBody(call, offset).Some?
    ensures var back := MapOffsetFromCallBodyToExpansion(call, call.expansion,
                                                          MapOffsetFromExpansionToCallBody(call, offset).value);
      back.Some? && offset in back.value
  {
    var ranges := call.expansion.ranges;
    var fileOffset := call.expansionFileStartOffset;
    var rel := MapOffsetFromExpansionToCallBodyRelative(call, offset).value;
    var a := MapOffsetFromExpansionToCallBody(call, offset).value;
    assert ToBodyRelativeOffset(call, a) == Some(rel);
    RoundTripFromExpansion(ranges, offset - fileOffset);
    var fwd := RangeMaps.MapOffsetFromCallBodyToExpansion(ranges, rel);
    var k :| 0 <= k < |fwd| && fwd[k] == offset - fileOffset;
    var back := MapOffsetFromCallBodyToExpansion(call, call.expansion, a).value;
    assert back[k] == offset;
  }

  /** With disjoint destinations, every image of a body offset maps back to it. */
  lemma CallBodyToExpansionRoundTrip(call: MacroCall, absOffset: int, k: nat)
    requires CallWellFormed(call) && call.expansion.MacroExpansion? && DstDisjoint(call.expansion.ranges)
    requires var images := MapOffsetFromCallBodyToExpansion(call, call.expansion, absOffset);
      images.Some? && k < |images.value|
    ensures var y := MapOffsetFromCallBodyToExpansion(call, call.expansion, absOffset).value[k];
      MapOffsetFromExpansionToCallBody(call, y) == Some(absOffset)
  {
    var ranges := call.expansion.ranges;
    var rel := absOffset - call.bodyTextRange.value.startOffset;
    assert ToBodyRelativeOffset(call, absOffset) == Some(rel);
    var fwd := RangeMaps.MapOffsetFromCallBodyToExpansion(ranges, rel);
    var y := MapOffsetFromCallBodyToExpansion(call, call.expansion, absOffset).value[k];
    var z := y - call.expansionFileStartOffset;
    assert z == fwd[k] && z in fwd;
    RoundTripFromCallBody(ranges, rel, z);
    ExpansionOffsetBackToBody(call, y, z, rel);
  }

  /** A body-relative hit of the range map becomes the absolute offset in the body. */
  lemma ExpansionOffsetBackToBody(call: MacroCall, y: int, z: int, rel: int)
    requires CallWellFormed(call) && call.expansion.MacroExpansion? && call.bodyTextRange.Some?
    requires 0 <= rel < call.bodyTextRange.value.Length() && z == y - call.expansionFileStartOffset
    requires RangeMaps.MapOffsetFromExpansionToCallBody(call.expansion.ranges, z) == Some(rel)
    ensures MapOffsetFromExpansionToCallBody(call, y) == Some(rel + call.bodyTextRange.value.startOffset)
  {
    assert MapOffsetFromExpansionToCallBodyRelative(call, y) == Some(rel);
  }

  // ---------------------------------------------------------------------------
  // Element locator
  // ---------------------------------------------------------------------------

  datatype MacroCallAndOffset = MacroCallAndOffset(call: nat, absoluteOffset: int)

  /** One hop: the call that produced `anchorFile` and the offset mapped into its body. */
  function FindMacroCallAndOffsetExpandedFromNonRecursive(w: World, anchorFile: FileId, startOffset: int)
    : (r: Option<MacroCallAndOffset>)
    requires WellFormed(w) && FileOk(w, anchorFile)
    ensures r.Some? <==>
      anchorFile.ExpansionFile? && MapOffsetFromExpansionToCallBody(w.calls[anchorFile.call], startOffset).Some?
    ensures r.Some? ==>
      && r.value.call == anchorFile.call
      && r.value.absoluteOffset == MapOffsetFromExpansionToCallBody(w.calls[anchorFile.call], startOffset).value
      && w.calls[r.value.call].bodyTextRange.Some?
      && w.calls[r.value.call].bodyTextRange.value.Contains(r.value.absoluteOffset)
  {
    match ExpandedFromNonRecursive(anchorFile)
    case None => None
    case Some(call) =>
      match MapOffsetFromExpansionToCallBody(w.calls[call], startOffset)
      case None => None
      case Some(mappedOffset) => Some(MacroCallAndOffset(call, mappedOffset))
  }

  /**
   * Hops outwards as long as the offset keeps mapping. The call reached is on the
   * chain of `anchorFile`, the offset lies in its body, and one more hop would fail.
   */
  function FindMacroCallAndOffsetExpandedFromUnchecked(w: World, anchorFile: FileId, startOffset: int)
    : (r: Option<MacroCallAndOffset>)
    requires WellFormed(w) && FileOk(w, anchorFile)
    ensures r.Some? <==> FindMacroCallAndOffsetExpandedFromNonRecursive(w, anchorFile, startOffset).Some?
    ensures r.Some? ==>
      && r.value.call in Chain(w, anchorFile)
      && w.calls[r.value.call].bodyTextRange.Some?
      && w.calls[r.value.call].bodyTextRange.value.Contains(r.value.absoluteOffset)
      && FindMacroCallAndOffsetExpandedFromNonRecursive(w, w.calls[r.value.call].file, r.value.absoluteOffset).None?
    ensures r.Some? ==>
      anchorFile.ExpansionFile? && ClimbTo(w, anchorFile.call, startOffset, r.value.call) == Some(r.value.absoluteOffset)
    decreases FileRank(anchorFile)
  {
    match FindMacroCallAndOffsetExpandedFromNonRecursive(w, anchorFile, startOffset)
    case None => None
    case Some(mapped) =>
      match FindMacroCallAndOffsetExpandedFromUnchecked(w, w.calls[mapped.call].file, mapped.absoluteOffset)
      case Some(outer) =>
        ChainBelow(w, w.calls[mapped.call].file, outer.call);
        Some(outer)
      case None => Some(mapped)
  }

  /** The leaf of file `f` whose text holds `offset` (the first one, if several do). */
  function FindElementAt(leaves: seq<Element>, f: FileId, offset: int): (r: Option<Element>)
    ensures r.Some? ==>
      r.value in leaves && r.value.file == f && r.value.startOffset <= offset < r.value.endOffset
    ensures r.None? ==>
      forall i :: 0 <= i < |leaves| ==> !(leaves[i].file == f && leaves[i].startOffset <= offset < leaves[i].endOffset)
  {
    if leaves == [] then None
    else if leaves[0].file == f && leaves[0].startOffset <= offset < leaves[0].endOffset then Some(leaves[0])
    else FindElementAt(leaves[1..], f, offset)
  }

  /**
   * The leaf of the call body that the first token of `e` was expanded from. The leaf
   * must start exactly at the mapped offset; when `strict`, it must also lie outside
   * any expansion.
   */
  function FindElementExpandedFrom(w: World, e: Element, strict: bool): (r: Option<Element>)
    requires WellFormed(w) && FileOk(w, e.file)
    ensures r.Some? ==> r.value in w.leaves
    ensures r.Some? ==>
      var m := FindMacroCallAndOffsetExpandedFromUnchecked(w, e.file, e.startOffset);
      && m.Some? && m.value.absoluteOffset == r.value.startOffset
      && m.value.call in Chain(w, e.file) && r.value.file == w.calls[m.value.call].file
    ensures strict && r.Some? ==> r.value.file.SourceFile?
    ensures var m := FindMacroCallAndOffsetExpandedFromUnchecked(w, e.file, e.startOffset);
      m.Some? ==>
        var leaf := FindElementAt(w.leaves, w.calls[m.value.call].file, m.value.absoluteOffset);
        && (r.Some? <==> leaf.Some? && leaf.value.startOffset == m.value.absoluteOffset
                         && !(strict && leaf.value.file.ExpansionFile?))
        && (r.Some? ==> r == leaf)
  {
    match FindMacroCallAndOffsetExpandedFromUnchecked(w, e.file, e.startOffset)
    case None => None
    case Some(m) =>
      match FindElementAt(w.leaves, w.calls[m.call].file, m.absoluteOffset)
      case None => None
      case Some(leaf) =>
        if leaf.startOffset != m.absoluteOffset then None
        else if strict && ExpandedFromNonRecursive(leaf.file).Some? then None
        else Some(leaf)
  }

  /** The call from which the first token of `e` is expanded, climbing as far as mapping goes. */
  function FindMacroCallFromWhichLeafIsExpanded(w: World, e: Element): (r: Option<nat>)
    requires WellFormed(w) && FileOk(w, e.file)
    ensures r.Some? ==> r.value in Chain(w, e.file)
    ensures r.None? <==> FindMacroCallAndOffsetExpandedFromNonRecursive(w, e.file, e.startOffset).None?
    ensures FindElementExpandedFrom(w, e, false).Some? ==>
      r.Some? && FindElementExpandedFrom(w, e, false).value.file == w.calls[r.value].file
  {
    match FindMacroCallAndOffsetExpandedFromUnchecked(w, e.file, e.startOffset)
    case None => None
    case Some(m) => Some(m.call)
  }

  // ---------------------------------------------------------------------------
  // From a call body into its expansion
  // ---------------------------------------------------------------------------

  function ArgumentRank(w: World, e: Element): nat
    requires ElementOk(w, e)
  {
    if e.argumentOf.Some? then |w.calls| - e.argumentOf.value else 0
  }

  /** Kotlin's `mapNotNull { findElementAt(it)?.takeIf { it.startOffset == offset } }`. */
  function LeavesStartingAt(leaves: seq<Element>, f: FileId, offsets: seq<int>): (r: seq<Element>)
    ensures forall x :: x in r ==> x in leaves && x.file == f && x.startOffset in offsets
    ensures forall i :: 0 <= i < |offsets| && FindElementAt(leaves, f, offsets[i]).Some?
                        && FindElementAt(leaves, f, offsets[i]).value.startOffset == offsets[i] ==>
      FindElementAt(leaves, f, offsets[i]).value in r
  {
    if offsets == [] then []
    else
      var head := match FindElementAt(leaves, f, offsets[0])
        case Some(leaf) => if leaf.startOffset == offsets[0] then [leaf] else []
        case None => [];
      head + LeavesStartingAt(leaves, f, offsets[1..])
  }

  /**
   * The leaves of the expansion that the leaf `e` of a call body was copied to. `None`
   * when `e` is in no call body, the call has no expansion, or `e` is outside the body.
   */
  function FindExpansionElementsNonRecursive(w: World, e: Element): (r: Option<seq<Element>>)
    requires WellFormed(w) && ElementOk(w, e)
    ensures r.None? <==>
      || e.argumentOf.None?
      || w.calls[e.argumentOf.value].expansion.NotExpanded?
      || ToBodyRelativeOffset(w.calls[e.argumentOf.value], e.startOffset).None?
    ensures r.Some? ==>
      forall x :: x in r.value ==>
        && x in w.leaves && x.file == ExpansionFile(e.argumentOf.value)
        && ElementOk(w, x) && ArgumentRank(w, x) < ArgumentRank(w, e)
        && x.startOffset in MapOffsetFromCallBodyToExpansion(
             w.calls[e.argumentOf.value], w.calls[e.argumentOf.value].expansion, e.startOffset).value
    ensures r.Some? ==>
      var c := e.argumentOf.value;
      var offsets := MapOffsetFromCallBodyToExpansion(w.calls[c], w.calls[c].expansion, e.startOffset).value;
      forall i :: 0 <= i < |offsets| && FindElementAt(w.leaves, ExpansionFile(c), offsets[i]).Some?
                  && FindElementAt(w.leaves, ExpansionFile(c), offsets[i]).value.startOffset == offsets[i] ==>
        FindElementAt(w.leaves, ExpansionFile(c), offsets[i]).value in r.value
  {
    match e.argumentOf
    case None => None
    case Some(c) =>
      if w.calls[c].expansion.NotExpanded? then None
      else
        match MapOffsetFromCallBodyToExpansion(w.calls[c], w.calls[c].expansion, e.startOffset)
        case None => None
        case Some(offsets) =>
          var r := LeavesStartingAt(w.leaves, ExpansionFile(c), offsets);
          assert forall x :: x in r ==> ArgumentRank(w, x) < ArgumentRank(w, e) by {
            forall x | x in r ensures ArgumentRank(w, x) < ArgumentRank(w, e) {
              assert ElementOk(w, x);
              if x.argumentOf.Some? {
                assert ParentBefore(w.calls[x.argumentOf.value], x.argumentOf.value);
              }
            }
          }
          Some(r)
  }

  /**
   * The final leaves the leaf `e` of a call body becomes, following nested expansions.
   * Every leaf returned has no further expansion.
   */
  function FindExpansionElements(w: World, e: Element): (r: Option<seq<Element>>)
    requires WellFormed(w) && ElementOk(w, e)
    ensures r.None? <==> FindExpansionElementsNonRecursive(w, e).None?
    ensures r.Some? ==> forall x :: x in r.value ==> x in w.leaves && FindExpansionElementsNonRecursive(w, x).None?
    ensures r.Some? ==>
      forall m :: m in FindExpansionElementsNonRecursive(w, e).value && FindExpansionElementsNonRecursive(w, m).None?
        ==> m in r.value
    ensures r.Some? ==>
      forall m, x ::
        m in FindExpansionElementsNonRecursive(w, e).value && FindExpansionElements(w, m).Some?
        && x in FindExpansionElements(w, m).value
        ==> x in r.value
    decreases ArgumentRank(w, e), 1, 0
  {
    match FindExpansionElementsNonRecursive(w, e)
    case None => None
    case Some(mapped) => Some(FlattenExpansionElements(w, mapped, ArgumentRank(w, e)))
  }

  /** Kotlin's `flatMap { it.findExpansionElements() ?: listOf(it) }`. */
  function FlattenExpansionElements(w: World, mapped: seq<Element>, bound: nat): (r: seq<Element>)
    requires WellFormed(w)
    requires forall m :: m in mapped ==> m in w.leaves && ArgumentRank(w, m) < bound
    ensures forall x :: x in r ==> x in w.leaves && FindExpansionElementsNonRecursive(w, x).None?
    ensures forall m :: m in mapped && FindExpansionElementsNonRecursive(w, m).None? ==> m in r
    ensures forall m, x ::
      m in mapped && FindExpansionElements(w, m).Some? && x in FindExpansionElements(w, m).value ==> x in r
    decreases bound, 0, |mapped|
  {
    if mapped == [] then []
    else
      var head := match FindExpansionElements(w, mapped[0])
        case Some(xs) => xs
        case None => [mapped[0]];
      head + FlattenExpansionElements(w, mapped[1..], bound)
  }

  /** Every final leaf lies, through nested expansions, inside the expansion of `e`'s call. */
  lemma {:induction false} ExpansionElementsInsideCall(w: World, e: Element)
    requires WellFormed(w) && ElementOk(w, e) && FindExpansionElements(w, e).Some?
    ensures forall x :: x in FindExpansionElements(w, e).value ==>
      FileOk(w, x.file) && e.argumentOf.value in Chain(w, x.file)
    decreases ArgumentRank(w, e), 1, 0
  {
    var c := e.argumentOf.value;
    var mapped := FindExpansionElementsNonRecursive(w, e).value;
    FlattenInsideCall(w, mapped, ArgumentRank(w, e), c);
  }

  lemma {:induction false} FlattenInsideCall(w: World, mapped: seq<Element>, bound: nat, c: nat)
    requires WellFormed(w)
    requires forall m :: m in mapped ==>
      m in w.leaves && ArgumentRank(w, m) < bound && FileOk(w, m.file) && c in Chain(w, m.file)
    ensures forall x :: x in FlattenExpansionElements(w, mapped, bound) ==> FileOk(w, x.file) && c in Chain(w, x.file)
    decreases bound, 0, |mapped|
  {
    if mapped != [] {
      var m := mapped[0];
      assert m in mapped;
      match FindExpansionElements(w, m) {
        case Some(xs) =>
          ExpansionElementsInsideCall(w, m);
          var d := m.argumentOf.value;
          forall x | x in xs ensures c in Chain(w, x.file) {
            ChainThrough(w, x.file, d, c);
          }
        case None =>
      }
      FlattenInsideCall(w, mapped[1..], bound, c);
    }
  }

  /** The single final leaf of `e`, or `e` itself when there is not exactly one. */
  function FindExpansionElementOrSelf(w: World, e: Element): (r: Element)
    requires WellFormed(w) && ElementOk(w, e)
    ensures var found := FindExpansionElements(w, e);
      if found.Some? && |found.value| == 1 then r == found.value[0] && r in w.leaves else r == e
  {
    match FindExpansionElements(w, e)
    case Some(xs) => if |xs| == 1 then xs[0] else e
    case None => e
  }

  // ---------------------------------------------------------------------------
  // Range translation
  // ---------------------------------------------------------------------------

  /** The outermost call of the chain that `c` belongs to (`c` itself if written in a real file). */
  function OutermostCall(w: World, c: nat): (r: nat)
    requires WellFormed(w) && c < |w.calls|
    ensures r < |w.calls| && w.calls[r].file.SourceFile?
  {
    FindMacroCallExpandedFrom(w, w.calls[c].file).GetOr(c)
  }

  predicate InOutermostBody(w: World, c: nat, range: TextRange)
    requires WellFormed(w) && c < |w.calls|
  {
    var body := w.calls[OutermostCall(w, c)].bodyTextRange;
    body.Some? && body.value.ContainsRange(range)
  }

  /**
   * One call's step of range translation: the range-map lookup, then each piece carried
   * back to absolute offsets of the call body (all dropped when the call has no body).
   * Every piece lies inside the call body and inside the tracked original range.
   */
  function MapThroughCall(call: MacroCall, range: MappedTextRange): (r: seq<MappedTextRange>)
    requires CallWellFormed(call) && call.expansion.MacroExpansion?
    ensures call.bodyTextRange.None? ==> r == []
    ensures forall k :: 0 <= k < |r| ==>
      && r[k].length > 0 && range.DstRange().ContainsRange(r[k].DstRange())
      && call.bodyTextRange.Some? && call.bodyTextRange.value.ContainsRange(r[k].SrcRange())
  {
    match call.bodyTextRange
    case None => []
    case Some(body) =>
      var ranges := call.expansion.ranges;
      var pieces := MapMappedTextRangeFromExpansionToCallBody(ranges, range.SrcShiftLeft(call.expansionFileStartOffset));
      assert forall k :: 0 <= k < |pieces| ==> 0 <= pieces[k].srcOffset && pieces[k].SrcEndOffset() <= body.Length() by {
        forall k | 0 <= k < |pieces| ensures 0 <= pieces[k].srcOffset && pieces[k].SrcEndOffset() <= body.Length() {
          var i := MappedPieceHasUnit(ranges, range.SrcShiftLeft(call.expansionFileStartOffset), k);
        }
      }
      seq(|pieces|, k requires 0 <= k < |pieces| =>
        MappedTextRange(FromBodyRelativeOffset(call, pieces[k].srcOffset).value, pieces[k].dstOffset, pieces[k].length))
  }

  /** A call written in an expansion shares the outermost call of the call that produced it. */
  lemma OutermostCallOfNested(w: World, c: nat)
    requires WellFormed(w) && c < |w.calls| && w.calls[c].file.ExpansionFile?
    ensures w.calls[c].file.call < |w.calls| && OutermostCall(w, c) == OutermostCall(w, w.calls[c].file.call)
  {
    assert ParentBefore(w.calls[c], c);
  }

  /**
   * The range `range.SrcRange()` of the expansion of call `c`, translated into call
   * bodies through every enclosing call; `range.dstOffset` tracks the original start.
   * Pieces are not empty, stay inside the original range and end in the body of the
   * outermost call (`MappedPieceBounds`). The parent step is Kotlin's `flatMap` over
   * the pieces of this call.
   */
  function MapRangeFromExpansionToCallBodyMapped(w: World, c: nat, range: MappedTextRange)
    : (r: seq<MappedTextRange>)
    requires WellFormed(w) && c < |w.calls| && w.calls[c].expansion.MacroExpansion?
    ensures range.srcOffset - w.calls[c].expansionFileStartOffset < 0 ==> r == []
    decreases c, 0
  {
    var call := w.calls[c];
    if range.srcOffset - call.expansionFileStartOffset < 0 then []
    else
      assert CallWellFormed(call) && ParentBefore(call, c);
      var mappedRanges := MapThroughCall(call, range);
      match ExpandedFromNonRecursive(call.file)
      case None => mappedRanges
      case Some(parentCall) =>
        match w.calls[parentCall].expansion
        case NotExpanded => []
        case MacroExpansion(_, _) => MapRangesThroughParent(w, parentCall, mappedRanges)
  }

  /** The parent step of range translation: every range of `ms` translated from call `p` on, in order. */
  function MapRangesThroughParent(w: World, p: nat, ms: seq<MappedTextRange>): seq<MappedTextRange>
    requires WellFormed(w) && p < |w.calls| && w.calls[p].expansion.MacroExpansion?
    decreases p, 1, |ms|
  {
    if ms == [] then []
    else MapRangeFromExpansionToCallBodyMapped(w, p, ms[0]) + MapRangesThroughParent(w, p, ms[1..])
  }

  /** Every range the parent step yields is the `jj`-th piece of the `i`-th input range. */
  lemma {:induction false} ThroughParentIndex(w: World, p: nat, ms: seq<MappedTextRange>, j: nat)
    returns (i: nat, jj: nat)
    requires WellFormed(w) && p < |w.calls| && w.calls[p].expansion.MacroExpansion?
    requires j < |MapRangesThroughParent(w, p, ms)|
    ensures i < |ms| && jj < |MapRangeFromExpansionToCallBodyMapped(w, p, ms[i])|
    ensures MapRangesThroughParent(w, p, ms)[j] == MapRangeFromExpansionToCallBodyMapped(w, p, ms[i])[jj]
    decreases |ms|
  {
    var head := MapRangeFromExpansionToCallBodyMapped(w, p, ms[0]);
    var rest := MapRangesThroughParent(w, p, ms[1..]);
    assert MapRangesThroughParent(w, p, ms) == head + rest;
    if j < |head| {
      assert MapRangesThroughParent(w, p, ms)[j] == head[j];
      i, jj := 0, j;
    } else {
      assert MapRangesThroughParent(w, p, ms)[j] == rest[j - |head|];
      var i';
      i', jj := ThroughParentIndex(w, p, ms[1..], j - |head|);
      i := i' + 1;
      assert ms[1..][i'] == ms[i];
    }
  }

  /** The parent step keeps every piece of every input range. */
  lemma {:induction false} ThroughParentIncludes(w: World, p: nat, ms: seq<MappedTextRange>, i: nat, jj: nat)
    returns (j: nat)
    requires WellFormed(w) && p < |w.calls| && w.calls[p].expansion.MacroExpansion?
    requires i < |ms| && jj < |MapRangeFromExpansionToCallBodyMapped(w, p, ms[i])|
    ensures j < |MapRangesThroughParent(w, p, ms)|
    ensures MapRangesThroughParent(w, p, ms)[j] == MapRangeFromExpansionToCallBodyMapped(w, p, ms[i])[jj]
    decreases |ms|
  {
    var head := MapRangeFromExpansionToCallBodyMapped(w, p, ms[0]);
    var rest := MapRangesThroughParent(w, p, ms[1..]);
    assert MapRangesThroughParent(w, p, ms) == head + rest;
    if i == 0 {
      j := jj;
    } else {
      assert ms[1..][i - 1] == ms[i];
      var j' := ThroughParentIncludes(w, p, ms[1..], i - 1, jj);
      j := |head| + j';
    }
  }

  /**
   * A range of the expansion of call `c` (shared offset space), translated to ranges of
   * the outermost call body; empty when `c` has no expansion.
   */
  function MapRangeFromExpansionToCallBody(w: World, c: nat, range: TextRange): (r: seq<TextRange>)
    requires WellFormed(w) && c < |w.calls| && range.startOffset <= range.endOffset
    ensures w.calls[c].expansion.NotExpanded? ==> r == []
    ensures forall k :: 0 <= k < |r| ==> 0 < r[k].Length() <= range.Length() && InOutermostBody(w, c, r[k])
  {
    if w.calls[c].expansion.NotExpanded? then []
    else
      var original := MappedTextRange(range.startOffset, range.startOffset, range.Length());
      var pieces := MapRangeFromExpansionToCallBodyMapped(w, c, original);
      forall k | 0 <= k < |pieces|
        ensures pieces[k].length > 0 && original.DstRange().ContainsRange(pieces[k].DstRange())
        ensures InOutermostBody(w, c, pieces[k].SrcRange())
      {
        MappedPieceBounds(w, c, original, k);
      }
      seq(|pieces|, k requires 0 <= k < |pieces| => pieces[k].SrcRange())
  }

  /** The translated range, only when it is one piece as long as the input range. */
  function MapRangeFromExpansionToCallBodyStrict(w: World, c: nat, range: TextRange): (r: Option<TextRange>)
    requires WellFormed(w) && c < |w.calls| && range.startOffset <= range.endOffset
    ensures var all := MapRangeFromExpansionToCallBody(w, c, range);
      r.Some? <==> |all| == 1 && all[0].Length() == range.Length()
    ensures r.Some? ==> r.value == MapRangeFromExpansionToCallBody(w, c, range)[0]
    ensures r.Some? ==> r.value.Length() == range.Length() && InOutermostBody(w, c, r.value)
  {
    var all := MapRangeFromExpansionToCallBody(w, c, range);
    if |all| == 1 && all[0].Length() == range.Length() then
      Some(all[0])
    else None
  }

  /**
   * One call's step is sound: the `k`-th offset of the `j`-th piece, read at its place in
   * the expansion range, maps by the offset translation to the `k`-th offset of the
   * piece's source in the call body.
   */
  lemma MapThroughCallIsSound(call: MacroCall, original: MappedTextRange, j: nat, k: nat, y: int)
    requires CallWellFormed(call) && call.expansion.MacroExpansion? && DstDisjoint(call.expansion.ranges)
    requires j < |MapThroughCall(call, original)|
    requires var q := MapThroughCall(call, original)[j];
      k < q.length && y == original.srcOffset + (q.dstOffset - original.dstOffset) + k
    ensures MapOffsetFromExpansionToCallBody(call, y) == Some(MapThroughCall(call, original)[j].srcOffset + k)
  {
    var ranges := call.expansion.ranges;
    var toMap := original.SrcShiftLeft(call.expansionFileStartOffset);
    var z := y - call.expansionFileStartOffset;
    var p := MapThroughCallPiece(call, original, j);
    MappedPieceIsSound(ranges, toMap, j, k, z);
    ExpansionOffsetBackToBody(call, y, z, p.srcOffset + k);
  }

  /** The `j`-th result of `MapThroughCall` is the `j`-th range-map piece moved into the body. */
  lemma MapThroughCallPiece(call: MacroCall, original: MappedTextRange, j: nat) returns (p: MappedTextRange)
    requires CallWellFormed(call) && call.expansion.MacroExpansion?
    requires j < |MapThroughCall(call, original)|
    ensures var pieces := MapMappedTextRangeFromExpansionToCallBody(
              call.expansion.ranges, original.SrcShiftLeft(call.expansionFileStartOffset));
      j < |pieces| && p == pieces[j]
    ensures call.bodyTextRange.Some? && 0 <= p.srcOffset && p.SrcEndOffset() <= call.bodyTextRange.value.Length()
    ensures MapThroughCall(call, original)[j]
      == MappedTextRange(p.srcOffset + call.bodyTextRange.value.startOffset, p.dstOffset, p.length)
  {
    var pieces := MapMappedTextRangeFromExpansionToCallBody(
      call.expansion.ranges, original.SrcShiftLeft(call.expansionFileStartOffset));
    p := pieces[j];
    var i := MappedPieceHasUnit(call.expansion.ranges, original.SrcShiftLeft(call.expansionFileStartOffset), j);
  }

  /**
   * For a call written in a real file, every offset of a translated piece is where the
   * offset translation sends the same offset of the expansion range.
   */
  lemma MapRangeOneLevelIsSound(w: World, c: nat, range: TextRange, j: nat, k: nat)
    requires WellFormed(w) && c < |w.calls| && range.startOffset <= range.endOffset
    requires w.calls[c].file.SourceFile? && w.calls[c].expansion.MacroExpansion?
    requires DstDisjoint(w.calls[c].expansion.ranges)
    requires var pieces := MapRangeFromExpansionToCallBodyMapped(
               w, c, MappedTextRange(range.startOffset, range.startOffset, range.Length()));
      j < |pieces| && k < pieces[j].length
    ensures var q := MapRangeFromExpansionToCallBodyMapped(
               w, c, MappedTextRange(range.startOffset, range.startOffset, range.Length()))[j];
      MapOffsetFromExpansionToCallBody(w.calls[c], q.dstOffset + k) == Some(q.srcOffset + k)
  {
    var call := w.calls[c];
    var original := MappedTextRange(range.startOffset, range.startOffset, range.Length());
    assert CallWellFormed(call);
    assert MapRangeFromExpansionToCallBodyMapped(w, c, original) == MapThroughCall(call, original);
    MapThroughCallIsSound(call, original, j, k, MapThroughCall(call, original)[j].dstOffset + k);
  }

  // ---------------------------------------------------------------------------
  // Range translation through enclosing calls
  // ---------------------------------------------------------------------------

  /**
   * The offset `y` of the expansion of call `c`, carried by the offset translation
   * through every enclosing call into the body of the outermost one; `None` as soon
   * as one step does not map.
   */
  function ClimbToOutermost(w: World, c: nat, y: int): (r: Option<int>)
    requires WellFormed(w) && c < |w.calls|
    ensures r.Some? ==> MapOffsetFromExpansionToCallBody(w.calls[c], y).Some?
    decreases c
  {
    assert CallWellFormed(w.calls[c]) && ParentBefore(w.calls[c], c);
    match MapOffsetFromExpansionToCallBody(w.calls[c], y)
    case None => None
    case Some(x) =>
      match ExpandedFromNonRecursive(w.calls[c].file)
      case None => Some(x)
      case Some(p) => ClimbToOutermost(w, p, x)
  }

  /** A climb that succeeds ends inside the body of the outermost call. */
  lemma {:induction false} ClimbEndsInOutermostBody(w: World, c: nat, y: int)
    requires WellFormed(w) && c < |w.calls| && ClimbToOutermost(w, c, y).Some?
    ensures var body := w.calls[OutermostCall(w, c)].bodyTextRange;
      body.Some? && body.value.Contains(ClimbToOutermost(w, c, y).value)
    decreases c
  {
    assert CallWellFormed(w.calls[c]) && ParentBefore(w.calls[c], c);
    if w.calls[c].file.ExpansionFile? {
      ClimbEndsInOutermostBody(w, w.calls[c].file.call, MapOffsetFromExpansionToCallBody(w.calls[c], y).value);
      OutermostCallOfNested(w, c);
    }
  }

  /**
   * A climb that reaches the outermost call is what the element locator's hops compute
   * from the expansion file of `c`.
   */
  lemma {:induction false} ClimbAgreesWithLocator(w: World, c: nat, y: int)
    requires WellFormed(w) && c < |w.calls| && ClimbToOutermost(w, c, y).Some?
    ensures FindMacroCallAndOffsetExpandedFromUnchecked(w, ExpansionFile(c), y)
      == Some(MacroCallAndOffset(OutermostCall(w, c), ClimbToOutermost(w, c, y).value))
    decreases c
  {
    assert CallWellFormed(w.calls[c]) && ParentBefore(w.calls[c], c);
    var x := MapOffsetFromExpansionToCallBody(w.calls[c], y).value;
    assert FindMacroCallAndOffsetExpandedFromNonRecursive(w, ExpansionFile(c), y) == Some(MacroCallAndOffset(c, x));
    if w.calls[c].file.ExpansionFile? {
      ClimbAgreesWithLocator(w, w.calls[c].file.call, x);
      OutermostCallOfNested(w, c);
    } else {
      assert FindMacroCallAndOffsetExpandedFromNonRecursive(w, w.calls[c].file, x) == None;
    }
  }

  /**
   * The same climb, stopped once call `d` is reached: the offset `y` of the expansion of
   * call `c` carried through `c` and its enclosing calls into the body of `d`.
   */
  function ClimbTo(w: World, c: nat, y: int, d: nat): (r: Option<int>)
    requires WellFormed(w) && c < |w.calls|
    ensures r.Some? ==> d < |w.calls| && d in Chain(w, ExpansionFile(c))
    ensures r.Some? ==> w.calls[d].bodyTextRange.Some? && w.calls[d].bodyTextRange.value.Contains(r.value)
    ensures d == c ==> r == MapOffsetFromExpansionToCallBody(w.calls[c], y)
    decreases c
  {
    assert CallWellFormed(w.calls[c]) && ParentBefore(w.calls[c], c);
    match MapOffsetFromExpansionToCallBody(w.calls[c], y)
    case None => None
    case Some(x) =>
      if c == d then Some(x)
      else
        match ExpandedFromNonRecursive(w.calls[c].file)
        case None => None
        case Some(p) =>
          assert Chain(w, ExpansionFile(c)) == [c] + Chain(w, ExpansionFile(p));
          ClimbTo(w, p, x, d)
  }

  /** Stopping at the outermost call is the whole climb. */
  lemma {:induction false} ClimbToOutermostIsClimbTo(w: World, c: nat, y: int)
    requires WellFormed(w) && c < |w.calls|
    ensures ClimbTo(w, c, y, OutermostCall(w, c)) == ClimbToOutermost(w, c, y)
    decreases c
  {
    assert CallWellFormed(w.calls[c]) && ParentBefore(w.calls[c], c);
    if w.calls[c].file.ExpansionFile? {
      var p := w.calls[c].file.call;
      OutermostCallOfNested(w, c);
      FindMacroCallExpandedFromIsLastOfChain(w, w.calls[c].file);
      ChainBelow(w, w.calls[c].file, OutermostCall(w, c));
      match MapOffsetFromExpansionToCallBody(w.calls[c], y)
      case None =>
      case Some(x) => ClimbToOutermostIsClimbTo(w, p, x);
    }
  }

  /** A climb from a call written in an expansion continues from the mapped offset in the parent. */
  lemma ClimbStep(w: World, c: nat, y: int, x: int, z: int)
    requires WellFormed(w) && c < |w.calls| && w.calls[c].file.ExpansionFile? && w.calls[c].file.call < |w.calls|
    requires MapOffsetFromExpansionToCallBody(w.calls[c], y) == Some(x)
    requires ClimbToOutermost(w, w.calls[c].file.call, x) == Some(z)
    ensures ClimbToOutermost(w, c, y) == Some(z)
  {
    assert CallWellFormed(w.calls[c]);
  }

  /** Every range map of the world keeps destination spans apart. */
  predicate RangeMapsDisjoint(w: World) {
    forall i :: 0 <= i < |w.calls| && w.calls[i].expansion.MacroExpansion? ==> DstDisjoint(w.calls[i].expansion.ranges)
  }

  /** A call written in an expansion has its body at or after the start of that expansion file. */
  predicate BodiesInParentFiles(w: World) {
    forall i :: 0 <= i < |w.calls| && w.calls[i].file.ExpansionFile? && w.calls[i].file.call < |w.calls|
                && w.calls[i].bodyTextRange.Some? ==>
      w.calls[w.calls[i].file.call].expansionFileStartOffset <= w.calls[i].bodyTextRange.value.startOffset
  }

  /**
   * For a call written in an expansion, every piece is a piece the parent call makes of
   * one of this call's pieces.
   */
  lemma PieceFromParent(w: World, c: nat, range: MappedTextRange, j: nat) returns (i: nat, jj: nat)
    requires WellFormed(w) && c < |w.calls| && w.calls[c].expansion.MacroExpansion?
    requires w.calls[c].file.ExpansionFile? && j < |MapRangeFromExpansionToCallBodyMapped(w, c, range)|
    ensures CallWellFormed(w.calls[c]) && w.calls[c].file.call < c
    ensures w.calls[w.calls[c].file.call].expansion.MacroExpansion?
    ensures var mapped := MapThroughCall(w.calls[c], range);
      && i < |mapped| && jj < |MapRangeFromExpansionToCallBodyMapped(w, w.calls[c].file.call, mapped[i])|
      && MapRangeFromExpansionToCallBodyMapped(w, c, range)[j]
         == MapRangeFromExpansionToCallBodyMapped(w, w.calls[c].file.call, mapped[i])[jj]
  {
    assert CallWellFormed(w.calls[c]) && ParentBefore(w.calls[c], c);
    var p := w.calls[c].file.call;
    var mapped := MapThroughCall(w.calls[c], range);
    i, jj := ThroughParentIndex(w, p, mapped, j);
  }

  /** For a call written in an expanded call, every piece the parent makes of one of its pieces is kept. */
  lemma ParentPieceIsKept(w: World, c: nat, range: MappedTextRange, i: nat, jj: nat) returns (j: nat)
    requires WellFormed(w) && c < |w.calls| && w.calls[c].expansion.MacroExpansion?
    requires w.calls[c].file.ExpansionFile? && w.calls[c].file.call < |w.calls|
    requires w.calls[w.calls[c].file.call].expansion.MacroExpansion?
    requires w.calls[c].expansionFileStartOffset <= range.srcOffset
    requires CallWellFormed(w.calls[c]) && i < |MapThroughCall(w.calls[c], range)|
    requires jj < |MapRangeFromExpansionToCallBodyMapped(w, w.calls[c].file.call, MapThroughCall(w.calls[c], range)[i])|
    ensures j < |MapRangeFromExpansionToCallBodyMapped(w, c, range)|
      && MapRangeFromExpansionToCallBodyMapped(w, c, range)[j]
         == MapRangeFromExpansionToCallBodyMapped(w, w.calls[c].file.call, MapThroughCall(w.calls[c], range)[i])[jj]
  {
    assert ParentBefore(w.calls[c], c);
    var p := w.calls[c].file.call;
    var mapped := MapThroughCall(w.calls[c], range);
    j := ThroughParentIncludes(w, p, mapped, i, jj);
  }

  /**
   * Every piece is not empty, lies inside the original range and ends in the body of the
   * outermost call of `c`'s chain.
   */
  lemma {:induction false} MappedPieceBounds(w: World, c: nat, range: MappedTextRange, k: nat)
    requires WellFormed(w) && c < |w.calls| && w.calls[c].expansion.MacroExpansion?
    requires k < |MapRangeFromExpansionToCallBodyMapped(w, c, range)|
    ensures var q := MapRangeFromExpansionToCallBodyMapped(w, c, range)[k];
      q.length > 0 && range.DstRange().ContainsRange(q.DstRange()) && InOutermostBody(w, c, q.SrcRange())
    decreases c
  {
    var call := w.calls[c];
    assert CallWellFormed(call) && ParentBefore(call, c);
    if call.file.ExpansionFile? {
      var i, jj := PieceFromParent(w, c, range, k);
      MappedPieceBounds(w, call.file.call, MapThroughCall(call, range)[i], jj);
      OutermostCallOfNested(w, c);
    }
  }

  /**
   * One call's step covers: an offset of the expansion range that the offset translation
   * maps lands in some piece, at its place in the original range on one side and at the
   * mapped body offset on the other.
   */
  lemma MapThroughCallCovers(call: MacroCall, range: MappedTextRange, t: int) returns (j: nat)
    requires CallWellFormed(call) && call.expansion.MacroExpansion?
    requires 0 <= t < range.length && MapOffsetFromExpansionToCallBody(call, range.srcOffset + t).Some?
    ensures var q := MapThroughCall(call, range);
      j < |q| && q[j].DstRange().Contains(range.dstOffset + t)
      && q[j].srcOffset + (range.dstOffset + t - q[j].dstOffset)
         == MapOffsetFromExpansionToCallBody(call, range.srcOffset + t).value
  {
    var ranges := call.expansion.ranges;
    var toMap := range.SrcShiftLeft(call.expansionFileStartOffset);
    var z := range.srcOffset + t - call.expansionFileStartOffset;
    var rel := RangeMaps.MapOffsetFromExpansionToCallBody(ranges, z).value;
    var i :| 0 <= i < |ranges| && ranges[i].DstRange().Contains(z) && ranges[i].SrcRange().Contains(rel)
             && rel - ranges[i].srcOffset == z - ranges[i].dstOffset;
    j := MappedPiecesCover(ranges, toMap, i, z);
    var p := MapThroughCallPiece(call, range, j);
  }

  /**
   * Soundness through every enclosing call: the `k`-th offset of the `j`-th piece, read at
   * its place in the expansion range, climbs to the `k`-th offset of the piece's source.
   */
  lemma {:induction false} MappedRangeIsSound(w: World, c: nat, range: MappedTextRange, j: nat, k: nat, y: int, z: int)
    requires WellFormed(w) && RangeMapsDisjoint(w) && c < |w.calls| && w.calls[c].expansion.MacroExpansion?
    requires var pieces := MapRangeFromExpansionToCallBodyMapped(w, c, range);
      && j < |pieces| && k < pieces[j].length
      && y == range.srcOffset + (pieces[j].dstOffset - range.dstOffset) + k && z == pieces[j].srcOffset + k
    ensures ClimbToOutermost(w, c, y) == Some(z)
    decreases c, 1
  {
    if w.calls[c].file.SourceFile? {
      var call := w.calls[c];
      assert CallWellFormed(call) && DstDisjoint(call.expansion.ranges);
      MapThroughCallIsSound(call, range, j, k, y);
    } else {
      ParentStepIsSound(w, c, range, j, k, y, z);
    }
  }

  /** The case of `MappedRangeIsSound` for a call written in an expansion. */
  lemma {:induction false} ParentStepIsSound(w: World, c: nat, range: MappedTextRange, j: nat, k: nat, y: int, z: int)
    requires WellFormed(w) && RangeMapsDisjoint(w) && c < |w.calls| && w.calls[c].expansion.MacroExpansion?
    requires w.calls[c].file.ExpansionFile?
    requires var pieces := MapRangeFromExpansionToCallBodyMapped(w, c, range);
      && j < |pieces| && k < pieces[j].length
      && y == range.srcOffset + (pieces[j].dstOffset - range.dstOffset) + k && z == pieces[j].srcOffset + k
    ensures ClimbToOutermost(w, c, y) == Some(z)
    decreases c, 0
  {
    var p := w.calls[c].file.call;
    var m, jj, x := ParentStepPiece(w, c, range, j, k, y);
    MappedRangeIsSound(w, p, m, jj, k, x, z);
    ClimbStep(w, c, y, x, z);
  }

  /**
   * A piece made by the parent step comes from piece `m` of this call's own step: the
   * offset `y` maps through this call to `x`, which sits in `m` where the piece's
   * offset sits in the piece.
   */
  lemma ParentStepPiece(w: World, c: nat, range: MappedTextRange, j: nat, k: nat, y: int)
    returns (m: MappedTextRange, jj: nat, x: int)
    requires WellFormed(w) && RangeMapsDisjoint(w) && c < |w.calls| && w.calls[c].expansion.MacroExpansion?
    requires w.calls[c].file.ExpansionFile?
    requires var pieces := MapRangeFromExpansionToCallBodyMapped(w, c, range);
      && j < |pieces| && k < pieces[j].length
      && y == range.srcOffset + (pieces[j].dstOffset - range.dstOffset) + k
    ensures CallWellFormed(w.calls[c]) && w.calls[c].file.call < c
    ensures w.calls[w.calls[c].file.call].expansion.MacroExpansion?
    ensures var parentPieces := MapRangeFromExpansionToCallBodyMapped(w, w.calls[c].file.call, m);
      var q := MapRangeFromExpansionToCallBodyMapped(w, c, range)[j];
      && jj < |parentPieces| && parentPieces[jj] == q
      && x == m.srcOffset + (q.dstOffset - m.dstOffset) + k
    ensures MapOffsetFromExpansionToCallBody(w.calls[c], y) == Some(x)
  {
    var call := w.calls[c];
    var q := MapRangeFromExpansionToCallBodyMapped(w, c, range)[j];
    var i;
    i, jj := PieceFromParent(w, c, range, j);
    m := MapThroughCall(call, range)[i];
    MappedPieceBounds(w, call.file.call, m, jj);
    var kk := q.dstOffset - m.dstOffset + k;
    x := m.srcOffset + kk;
    assert DstDisjoint(call.expansion.ranges);
    MapThroughCallIsSound(call, range, i, kk, y);
  }

  /**
   * Coverage through every enclosing call: an offset of the expansion range (starting
   * inside the expansion file) that climbs to the outermost body lies in some piece, at
   * its place in the original range and at the offset it climbs to.
   */
  lemma {:induction false} MappedRangeCovers(w: World, c: nat, range: MappedTextRange, t: int, y: int)
    returns (j: nat, k: nat)
    requires WellFormed(w) && BodiesInParentFiles(w) && c < |w.calls| && w.calls[c].expansion.MacroExpansion?
    requires w.calls[c].expansionFileStartOffset <= range.srcOffset
    requires 0 <= t < range.length && y == range.srcOffset + t && ClimbToOutermost(w, c, y).Some?
    ensures var pieces := MapRangeFromExpansionToCallBodyMapped(w, c, range);
      j < |pieces| && k < pieces[j].length && pieces[j].dstOffset + k == range.dstOffset + t
      && pieces[j].srcOffset + k == ClimbToOutermost(w, c, y).value
    decreases c
  {
    var call := w.calls[c];
    assert CallWellFormed(call) && ParentBefore(call, c);
    var x := MapOffsetFromExpansionToCallBody(call, y).value;
    var mapped := MapThroughCall(call, range);
    var j1 := MapThroughCallCovers(call, range, t);
    var q1 := mapped[j1];
    var k1 := range.dstOffset + t - q1.dstOffset;
    assert q1.srcOffset + k1 == x;
    if call.file.SourceFile? {
      assert ClimbToOutermost(w, c, y) == Some(x);
      assert MapRangeFromExpansionToCallBodyMapped(w, c, range) == mapped;
      j, k := j1, k1;
    } else {
      var p := call.file.call;
      assert w.calls[p].expansionFileStartOffset <= call.bodyTextRange.value.startOffset;
      assert ClimbToOutermost(w, c, y) == ClimbToOutermost(w, p, x);
      var jj, kk := MappedRangeCovers(w, p, q1, k1, x);
      var parentPieces := MapRangeFromExpansionToCallBodyMapped(w, p, q1);
      assert parentPieces[jj].srcOffset + kk == ClimbToOutermost(w, p, x).value;
      j := ParentPieceIsKept(w, c, range, j1, jj);
      assert MapRangeFromExpansionToCallBodyMapped(w, c, range)[j] == parentPieces[jj];
      k := kk;
    }
  }

  /**
   * Every offset of every translated range is where the climb takes some offset of the
   * input range.
   */
  lemma MapRangeIsSound(w: World, c: nat, range: TextRange, k: nat, x: int) returns (o: int)
    requires WellFormed(w) && RangeMapsDisjoint(w) && c < |w.calls| && range.startOffset <= range.endOffset
    requires var r := MapRangeFromExpansionToCallBody(w, c, range); k < |r| && r[k].Contains(x)
    ensures range.Contains(o) && ClimbToOutermost(w, c, o) == Some(x)
  {
    var original := MappedTextRange(range.startOffset, range.startOffset, range.Length());
    var pieces := MapRangeFromExpansionToCallBodyMapped(w, c, original);
    var q := pieces[k];
    assert q.SrcRange() == MapRangeFromExpansionToCallBody(w, c, range)[k];
    MappedPieceBounds(w, c, original, k);
    o := q.dstOffset + (x - q.srcOffset);
    MappedRangeIsSound(w, c, original, k, x - q.srcOffset, o, x);
  }

  /**
   * Every offset of the input range (starting inside the expansion file) that climbs to
   * the outermost body lies, climbed, in some translated range.
   */
  lemma MapRangeCovers(w: World, c: nat, range: TextRange, o: int) returns (k: nat)
    requires WellFormed(w) && BodiesInParentFiles(w) && c < |w.calls| && range.startOffset <= range.endOffset
    requires w.calls[c].expansionFileStartOffset <= range.startOffset
    requires range.Contains(o) && ClimbToOutermost(w, c, o).Some?
    ensures var r := MapRangeFromExpansionToCallBody(w, c, range);
      k < |r| && r[k].Contains(ClimbToOutermost(w, c, o).value)
  {
    var original := MappedTextRange(range.startOffset, range.startOffset, range.Length());
    var t;
    k, t := MappedRangeCovers(w, c, original, o - range.startOffset, o);
  }
}
