/**
 * The snapshot the core reads: macro calls, the files they live in, their expansions,
 * and the leaf elements of every file.
 *
 * Calls are held in one table and named by index. A call's expansion is an in-memory
 * file, `ExpansionFile(i)`; a call written inside that expansion lives in that file.
 * Every expansion in the snapshot is finite, so a call can only live in the expansion of
 * a call that comes before it in the table (`WellFormed`), and walking outwards from any
 * file reaches a real source file after finitely many hops.
 */
module MacroModel {
  import opened Wrappers
  import opened TextRanges
  import opened RangeMaps

  /** A real source file, or the expansion file of the call with index `call`. */
  datatype FileId = SourceFile(id: nat) | ExpansionFile(call: nat)

  /** What a pre-order traversal of an expansion file meets. */
  datatype PsiNode = MacroCallNode(call: nat) | RsNode(id: nat) | NonRsNode

  /**
   * The expander's result for one call: its range map and its file's nodes in pre-order.
   * `NotExpanded` stands for Kotlin's `null` (expansion failed or is not computed yet).
   */
  datatype MacroExpansion = NotExpanded | MacroExpansion(ranges: RangeMap, preOrder: seq<PsiNode>)

  /**
   * An invocation: the file it is written in, the text range of its body (absent for
   * some call shapes), the base offset of its expansion file in the shared offset
   * space, and its expansion.
   */
  datatype MacroCall = MacroCall(
    file: FileId,
    bodyTextRange: Option<TextRange>,
    expansionFileStartOffset: int,
    expansion: MacroExpansion)

  /**
   * A leaf element: its file, its text range, and the outermost call of the same file
   * whose argument (or attributed item) holds it, if any.
   */
  datatype Element = Element(file: FileId, startOffset: int, endOffset: int, argumentOf: Option<nat>)

  datatype World = World(calls: seq<MacroCall>, leaves: seq<Element>)

  predicate FileOk(w: World, f: FileId) {
    f.ExpansionFile? ==> f.call < |w.calls|
  }

  predicate ElementOk(w: World, e: Element) {
    && FileOk(w, e.file)
    && (e.argumentOf.Some? ==> e.argumentOf.value < |w.calls| && w.calls[e.argumentOf.value].file == e.file)
  }

  /** Every unit of the range map takes its source from inside the call body. */
  predicate CallWellFormed(call: MacroCall) {
    call.expansion.MacroExpansion? && call.bodyTextRange.Some? ==>
      forall i :: 0 <= i < |call.expansion.ranges| ==>
        0 <= call.expansion.ranges[i].srcOffset
        && call.expansion.ranges[i].SrcEndOffset() <= call.bodyTextRange.value.Length()
  }

  predicate NodesOk(call: MacroCall, n: nat) {
    call.expansion.MacroExpansion? ==>
      forall i :: 0 <= i < |call.expansion.preOrder| && call.expansion.preOrder[i].MacroCallNode? ==>
        call.expansion.preOrder[i].call < n
  }

  predicate ParentBefore(call: MacroCall, i: nat) {
    call.file.ExpansionFile? ==> call.file.call < i
  }

  predicate WellFormed(w: World) {
    && (forall i :: 0 <= i < |w.calls| ==>
          ParentBefore(w.calls[i], i) && CallWellFormed(w.calls[i]) && NodesOk(w.calls[i], |w.calls|))
    && (forall l :: l in w.leaves ==> ElementOk(w, l))
  }

  /** The call whose expansion file is `f`, if `f` is an expansion file. */
  function ExpandedFromNonRecursive(f: FileId): (r: Option<nat>)
    ensures r.None? <==> f.SourceFile?
    ensures r.Some? ==> f == ExpansionFile(r.value)
  {
    if f.ExpansionFile? then Some(f.call) else None
  }

  function FileRank(f: FileId): nat {
    if f.ExpansionFile? then f.call + 1 else 0
  }

  /**
   * The calls met walking outwards from file `f`, innermost first: each is the call
   * whose expansion holds the previous one, and the last is written in a real file.
   */
  function Chain(w: World, f: FileId): (r: seq<nat>)
    requires WellFormed(w) && FileOk(w, f)
    ensures |r| == 0 <==> f.SourceFile?
    ensures forall k :: 0 <= k < |r| ==> r[k] < |w.calls|
    ensures r != [] ==> r[0] == f.call && w.calls[r[|r| - 1]].file.SourceFile?
    ensures forall k :: 0 <= k < |r| - 1 ==> w.calls[r[k]].file == ExpansionFile(r[k + 1])
    decreases FileRank(f)
  {
    if f.SourceFile? then [] else [f.call] + Chain(w, w.calls[f.call].file)
  }

  /** Every call on the chain of `f` comes before the call that produced `f`. */
  lemma {:induction false} ChainBelow(w: World, f: FileId, c: nat)
    requires WellFormed(w) && FileOk(w, f) && c in Chain(w, f)
    ensures c < FileRank(f)
    decreases FileRank(f)
  {
    if f.call != c {
      assert ParentBefore(w.calls[f.call], f.call);
      ChainBelow(w, w.calls[f.call].file, c);
    }
  }

  /** The chain of a call on the chain of `f` is the rest of `f`'s chain. */
  lemma {:induction false} ChainThrough(w: World, f: FileId, d: nat, c: nat)
    requires WellFormed(w) && FileOk(w, f)
    requires d in Chain(w, f) && c in Chain(w, w.calls[d].file)
    ensures c in Chain(w, f)
    decreases FileRank(f)
  {
    if f.call != d {
      ChainThrough(w, w.calls[f.call].file, d, c);
    }
  }
}
