/**
 * The IntelliJ platform's `TextRange` and the plugin's `MappedTextRange`, as values.
 * `Contains(offset)` is the half-open test behind Kotlin's `offset in range`;
 * `ContainsRange` and `Intersects` are closed, as in the platform class.
 */
module TextRanges {

  function Max(a: int, b: int): int { if a < b then b else a }

  function Min(a: int, b: int): int { if a < b then a else b }

  datatype TextRange = TextRange(startOffset: int, endOffset: int) {

    function Length(): int { endOffset - startOffset }

    predicate IsEmpty() { startOffset >= endOffset }

    predicate Contains(offset: int) { startOffset <= offset < endOffset }

    predicate ContainsRange(other: TextRange) {
      startOffset <= other.startOffset && other.endOffset <= endOffset
    }

    predicate Intersects(other: TextRange) {
      Max(startOffset, other.startOffset) <= Min(endOffset, other.endOffset)
    }

    function ShiftRight(delta: int): TextRange {
      TextRange(startOffset + delta, endOffset + delta)
    }

    function ShiftLeft(delta: int): TextRange {
      TextRange(startOffset - delta, endOffset - delta)
    }
  }

  /**
   * One correspondence unit of a range map: `length` characters at `srcOffset` in the
   * call body (body-relative) appear at `dstOffset` in the expansion file (file-relative).
   */
  datatype MappedTextRange = MappedTextRange(srcOffset: int, dstOffset: int, length: nat) {

    function SrcEndOffset(): int { srcOffset + length }

    function DstEndOffset(): int { dstOffset + length }

    function SrcRange(): TextRange { TextRange(srcOffset, SrcEndOffset()) }

    function DstRange(): TextRange { TextRange(dstOffset, DstEndOffset()) }

    function SrcShiftLeft(delta: int): MappedTextRange {
      MappedTextRange(srcOffset - delta, dstOffset, length)
    }
  }
}
