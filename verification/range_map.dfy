/**
 * The range map of one macro expansion: an ordered table of `MappedTextRange` units.
 * Destination spans are expected not to overlap (`DstDisjoint`); source spans may
 * overlap, because a macro may repeat a token of its body.
 *
 * The lookups follow the containment-and-shift pattern the inlay-hint provider spells out:
 * a unit is selected by testing its span against the offset or range, and the offset is
 * carried across with the unit's `srcOffset - dstOffset` shift.
 */
module RangeMaps {
  import opened Wrappers
  import opened Seqs
  import opened TextRanges

  type RangeMap = seq<MappedTextRange>

  /** The destination spans of `a` and `b` do not overlap. */
  predicate DstApart(a: MappedTextRange, b: MappedTextRange) {
    a.DstEndOffset() <= b.dstOffset || b.DstEndOffset() <= a.dstOffset
  }

  /**
   * Each expansion offset belongs to at most one unit. The trigger keeps the pairwise
   * fact out of proofs that do not name a pair of units.
   */
  predicate DstDisjoint(rm: RangeMap) {
    forall i, j {:trigger DstApart(rm[i], rm[j])} :: 0 <= i < j < |rm| ==> DstApart(rm[i], rm[j])
  }

  function DstHas(offset: int): MappedTextRange -> bool {
    (u: MappedTextRange) => u.DstRange().Contains(offset)
  }

  function SrcHas(offset: int): MappedTextRange -> bool {
    (u: MappedTextRange) => u.SrcRange().Contains(offset)
  }

  function DstCovers(range: TextRange): MappedTextRange -> bool {
    (u: MappedTextRange) => u.DstRange().ContainsRange(range)
  }

  function SrcMeets(range: TextRange): MappedTextRange -> bool {
    (u: MappedTextRange) => u.SrcRange().Intersects(range)
  }

  /** The units whose destination span holds `offset`. */
  function DstUnits(rm: RangeMap, offset: int): seq<MappedTextRange> {
    Filter(rm, DstHas(offset))
  }

  /** The units whose source span holds the body-relative `offset`. */
  function SrcUnits(rm: RangeMap, offset: int): seq<MappedTextRange> {
    Filter(rm, SrcHas(offset))
  }

  /**
   * Expansion-relative offset to body-relative offset. Defined only when exactly one
   * unit's destination span holds the offset; the result sits at the same distance
   * from that unit's source start.
   */
  function MapOffsetFromExpansionToCallBody(rm: RangeMap, offset: int): (r: Option<int>)
    ensures r.Some? <==> |DstUnits(rm, offset)| == 1
    ensures r.Some? ==> exists i :: 0 <= i < |rm| && rm[i].DstRange().Contains(offset)
                                  && rm[i].SrcRange().Contains(r.value)
                                  && r.value - rm[i].srcOffset == offset - rm[i].dstOffset
  {
    var hits := DstUnits(rm, offset);
    if |hits| == 1 then
      assert hits[0] in hits;
      assert hits[0] in rm;
      Some(hits[0].srcOffset + (offset - hits[0].dstOffset))
    else None
  }

  /**
   * Body-relative offset to every expansion-relative offset it was copied to: one
   * result per unit whose source span holds the offset, in the table's order.
   */
  function MapOffsetFromCallBodyToExpansion(rm: RangeMap, offset: int): (r: seq<int>)
    ensures |r| == |SrcUnits(rm, offset)|
    ensures forall k :: 0 <= k < |r| ==>
      var u := SrcUnits(rm, offset)[k];
      u in rm && u.SrcRange().Contains(offset) && u.DstRange().Contains(r[k])
      && r[k] - u.dstOffset == offset - u.srcOffset
  {
    var hits := SrcUnits(rm, offset);
    assert forall k :: 0 <= k < |hits| ==> hits[k] in hits;
    seq(|hits|, k requires 0 <= k < |hits| => hits[k].dstOffset + (offset - hits[k].srcOffset))
  }

  /** With disjoint destinations, any unit holding the offset decides the backward mapping. */
  lemma MapOffsetWithinUnit(rm: RangeMap, i: nat, offset: int)
    requires DstDisjoint(rm) && i < |rm| && rm[i].DstRange().Contains(offset)
    ensures MapOffsetFromExpansionToCallBody(rm, offset) == Some(rm[i].srcOffset + (offset - rm[i].dstOffset))
  {
    forall j | 0 <= j < |rm| && j != i ensures !DstHas(offset)(rm[j]) {
      if j < i {
        assert DstApart(rm[j], rm[i]);
      } else {
        assert DstApart(rm[i], rm[j]);
      }
    }
    FilterSingle(rm, DstHas(offset), i);
  }

  /** Two units that both hold the offset on the destination side make it unmappable. */
  lemma OverlappingDestinationsRejected(rm: RangeMap, i: nat, j: nat, offset: int)
    requires i < j < |rm| && rm[i].DstRange().Contains(offset) && rm[j].DstRange().Contains(offset)
    ensures MapOffsetFromExpansionToCallBody(rm, offset) == None
  {
    FilterTwo(rm, DstHas(offset), i, j);
  }

  /** Every unit whose source span holds the offset contributes its image (repetition). */
  lemma EveryCopyIsFound(rm: RangeMap, u: MappedTextRange, offset: int)
    requires u in rm && u.SrcRange().Contains(offset)
    ensures u.dstOffset + (offset - u.srcOffset) in MapOffsetFromCallBodyToExpansion(rm, offset)
  {
    var hits := SrcUnits(rm, offset);
    assert u in hits;
    var k :| 0 <= k < |hits| && hits[k] == u;
    assert MapOffsetFromCallBodyToExpansion(rm, offset)[k] == u.dstOffset + (offset - u.srcOffset);
  }

  /** Mapping back and then forward returns to the expansion offset among the results. */
  lemma RoundTripFromExpansion(rm: RangeMap, offset: int)
    requires MapOffsetFromExpansionToCallBody(rm, offset).Some?
    ensures offset in MapOffsetFromCallBodyToExpansion(rm, MapOffsetFromExpansionToCallBody(rm, offset).value)
  {
    var src := MapOffsetFromExpansionToCallBody(rm, offset).value;
    var i :| 0 <= i < |rm| && rm[i].DstRange().Contains(offset) && rm[i].SrcRange().Contains(src)
             && src - rm[i].srcOffset == offset - rm[i].dstOffset;
    EveryCopyIsFound(rm, rm[i], src);
  }

  /** With disjoint destinations, each forward image maps back to the body offset. */
  lemma RoundTripFromCallBody(rm: RangeMap, offset: int, y: int)
    requires DstDisjoint(rm)
    requires y in MapOffsetFromCallBodyToExpansion(rm, offset)
    ensures MapOffsetFromExpansionToCallBody(rm, y) == Some(offset)
  {
    var ys := MapOffsetFromCallBodyToExpansion(rm, offset);
    var k :| 0 <= k < |ys| && ys[k] == y;
    var u := SrcUnits(rm, offset)[k];
    var i :| 0 <= i < |rm| && rm[i] == u;
    MapOffsetWithinUnit(rm, i, y);
  }

  /** `p` is a sub-span of unit `u`, cut at the same place on both sides. */
  predicate PieceOf(p: MappedTextRange, u: MappedTextRange) {
    u.DstRange().ContainsRange(p.DstRange()) && p.srcOffset - u.srcOffset == p.dstOffset - u.dstOffset
  }

  /** The part of unit `u` whose destination lies inside `range`, if it is not empty. */
  function DstIntersection(u: MappedTextRange, range: TextRange): (r: Option<MappedTextRange>)
    ensures r.Some? ==> r.value.length > 0 && range.ContainsRange(r.value.DstRange()) && PieceOf(r.value, u)
    ensures r.Some? ==> forall o :: u.DstRange().Contains(o) && range.Contains(o) ==> r.value.DstRange().Contains(o)
    ensures r.None? ==> forall o :: !(u.DstRange().Contains(o) && range.Contains(o))
  {
    var newDstStart := Max(u.dstOffset, range.startOffset);
    var newDstEnd := Min(u.DstEndOffset(), range.endOffset);
    if newDstStart < newDstEnd then
      Some(MappedTextRange(u.srcOffset + (newDstStart - u.dstOffset), newDstStart, newDstEnd - newDstStart))
    else None
  }

  /**
   * An expansion-relative range cut into the pieces that units map; each piece keeps its
   * unit's shift. Offsets of the range that no unit maps are dropped.
   */
  function MapTextRangeFromExpansionToCallBody(rm: RangeMap, range: TextRange): (r: seq<MappedTextRange>)
    ensures |r| <= |rm|
    ensures forall k :: 0 <= k < |r| ==> r[k].length > 0 && range.ContainsRange(r[k].DstRange())
  {
    if rm == [] then []
    else
      var head := match DstIntersection(rm[0], range)
        case Some(p) => [p]
        case None => [];
      head + MapTextRangeFromExpansionToCallBody(rm[1..], range)
  }

  /** Every piece is cut from some unit of the map. */
  lemma {:induction false} PieceHasUnit(rm: RangeMap, range: TextRange, k: nat) returns (i: nat)
    requires k < |MapTextRangeFromExpansionToCallBody(rm, range)|
    ensures i < |rm| && PieceOf(MapTextRangeFromExpansionToCallBody(rm, range)[k], rm[i])
  {
    var head := match DstIntersection(rm[0], range)
      case Some(p) => [p]
      case None => [];
    var rest := MapTextRangeFromExpansionToCallBody(rm[1..], range);
    assert MapTextRangeFromExpansionToCallBody(rm, range) == head + rest;
    if k < |head| {
      i := 0;
    } else {
      var i' := PieceHasUnit(rm[1..], range, k - |head|);
      i := i' + 1;
    }
  }

  /** Every offset of the range that some unit maps lies in a piece cut from that unit. */
  lemma {:induction false} PiecesCover(rm: RangeMap, range: TextRange, i: nat, offset: int) returns (k: nat)
    requires i < |rm| && rm[i].DstRange().Contains(offset) && range.Contains(offset)
    ensures var pieces := MapTextRangeFromExpansionToCallBody(rm, range);
      k < |pieces| && pieces[k].DstRange().Contains(offset) && PieceOf(pieces[k], rm[i])
  {
    var head := match DstIntersection(rm[0], range)
      case Some(p) => [p]
      case None => [];
    var rest := MapTextRangeFromExpansionToCallBody(rm[1..], range);
    assert MapTextRangeFromExpansionToCallBody(rm, range) == head + rest;
    if i == 0 {
      k := 0;
    } else {
      var k' := PiecesCover(rm[1..], range, i - 1, offset);
      k := k' + |head|;
    }
  }

  /**
   * The range-map step of a chained range translation: `toMap.SrcRange()` is the range
   * in this expansion, `toMap.dstOffset` tracks where that range started originally.
   * Each resulting piece carries a source range in the call body and the matching
   * position in the original range.
   */
  function MapMappedTextRangeFromExpansionToCallBody(rm: RangeMap, toMap: MappedTextRange): (r: seq<MappedTextRange>)
    ensures |r| <= |rm|
    ensures forall k :: 0 <= k < |r| ==> r[k].length > 0 && toMap.DstRange().ContainsRange(r[k].DstRange())
  {
    var pieces := MapTextRangeFromExpansionToCallBody(rm, toMap.SrcRange());
    seq(|pieces|, k requires 0 <= k < |pieces| =>
      MappedTextRange(pieces[k].srcOffset, toMap.dstOffset + (pieces[k].dstOffset - toMap.srcOffset), pieces[k].length))
  }

  /** The source of every translated piece lies inside the source of some unit. */
  lemma MappedPieceHasUnit(rm: RangeMap, toMap: MappedTextRange, k: nat) returns (i: nat)
    requires k < |MapMappedTextRangeFromExpansionToCallBody(rm, toMap)|
    ensures i < |rm| && rm[i].SrcRange().ContainsRange(MapMappedTextRangeFromExpansionToCallBody(rm, toMap)[k].SrcRange())
  {
    i := PieceHasUnit(rm, toMap.SrcRange(), k);
  }

  /**
   * One-step coverage of range translation: an offset of `toMap.SrcRange()` that unit `i`
   * maps is carried by some piece, at its place in the original range on one side and at
   * the unit's image of it on the other.
   */
  lemma MappedPiecesCover(rm: RangeMap, toMap: MappedTextRange, i: nat, offset: int) returns (k: nat)
    requires i < |rm| && rm[i].DstRange().Contains(offset) && toMap.SrcRange().Contains(offset)
    ensures var q := MapMappedTextRangeFromExpansionToCallBody(rm, toMap);
      k < |q| && q[k].DstRange().Contains(toMap.dstOffset + (offset - toMap.srcOffset))
      && q[k].SrcRange().Contains(rm[i].srcOffset + (offset - rm[i].dstOffset))
      && q[k].srcOffset - q[k].dstOffset == rm[i].srcOffset - rm[i].dstOffset + toMap.srcOffset - toMap.dstOffset
  {
    k := PiecesCover(rm, toMap.SrcRange(), i, offset);
  }

  /** Every offset of a piece maps back, by the offset translation, into the piece's source. */
  lemma PieceIsSound(rm: RangeMap, range: TextRange, j: nat, offset: int)
    requires DstDisjoint(rm)
    requires var pieces := MapTextRangeFromExpansionToCallBody(rm, range);
      j < |pieces| && pieces[j].DstRange().Contains(offset)
    ensures var p := MapTextRangeFromExpansionToCallBody(rm, range)[j];
      MapOffsetFromExpansionToCallBody(rm, offset) == Some(p.srcOffset + (offset - p.dstOffset))
  {
    var i := PieceHasUnit(rm, range, j);
    MapOffsetWithinUnit(rm, i, offset);
  }

  /**
   * One-step soundness of range translation: the `k`-th offset of the `j`-th piece, read
   * back at its place in `toMap.SrcRange()`, maps by the offset translation to the `k`-th
   * offset of the piece's source.
   */
  lemma MappedPieceIsSound(rm: RangeMap, toMap: MappedTextRange, j: nat, k: nat, offset: int)
    requires DstDisjoint(rm)
    requires j < |MapMappedTextRangeFromExpansionToCallBody(rm, toMap)|
    requires var q := MapMappedTextRangeFromExpansionToCallBody(rm, toMap)[j];
      k < q.length && offset == toMap.srcOffset + (q.dstOffset - toMap.dstOffset) + k
    ensures MapOffsetFromExpansionToCallBody(rm, offset)
      == Some(MapMappedTextRangeFromExpansionToCallBody(rm, toMap)[j].srcOffset + k)
  {
    PieceIsSound(rm, toMap.SrcRange(), j, offset);
  }
}
