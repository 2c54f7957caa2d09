/**
 * Coordinates on both sides of the server and the conversions of
 * src/wrappers.rs between them.
 *
 * tree-sitter counts in rows and byte columns, the Language Server Protocol
 * in lines and characters; both are zero-based. Both sides hold 64-bit
 * unsigned integers (`usize` on a 64-bit target, `u64` in the protocol
 * types), so the `as` casts of the source are identities and the model uses
 * `nat`. The protocol's `character` is copied into the byte `column`
 * unchanged, which agrees with the protocol's UTF-16 units only on ASCII
 * text; the model copies it as the code does.
 */
module Wrappers {

  /** tree-sitter's `Point`. */
  datatype TreePoint = TreePoint(row: nat, column: nat)

  /** tree-sitter's `Range`: byte offsets and the two end points. */
  datatype TreeRange = TreeRange(startByte: nat, endByte: nat, startPoint: TreePoint, endPoint: TreePoint)

  /** The protocol's `Position`. */
  datatype LspPosition = LspPosition(line: nat, character: nat)

  /** The protocol's `Range` (the `Range` wrapper of the source). */
  datatype LspRange = LspRange(start: LspPosition, end: LspPosition)

  /** `Point::from(LspPosition)`: line becomes row, character becomes column. */
  function PointFromLsp(pos: LspPosition): (p: TreePoint)
    ensures p.row == pos.line && p.column == pos.character
  {
    TreePoint(pos.line, pos.character)
  }

  /**
   * `Range::from(TreeRange)`: each end point of the tree range becomes the
   * corresponding protocol position, and converting such a position back
   * gives the tree point again.
   */
  function RangeFromTree(range: TreeRange): (r: LspRange)
    ensures PointFromLsp(r.start) == range.startPoint
    ensures PointFromLsp(r.end) == range.endPoint
  {
    LspRange(LspPosition(range.startPoint.row, range.startPoint.column),
             LspPosition(range.endPoint.row, range.endPoint.column))
  }

  /** `Point::column_start`: the start of the same row. */
  function ColumnStart(p: TreePoint): (q: TreePoint)
    ensures q.row == p.row && q.column == 0
  {
    TreePoint(p.row, 0)
  }

  /**
   * `Point::line_above`: the same column one row up. The unsigned
   * subtraction panics (debug) or wraps (release) on row 0, so the row
   * must be at least 1.
   */
  function LineAbove(p: TreePoint): (q: TreePoint)
    requires p.row >= 1
    ensures q.row + 1 == p.row && q.column == p.column
  {
    TreePoint(p.row - 1, p.column)
  }

  /** Converting an LSP position to a point is injective, so a range converts back without loss. */
  lemma PointFromLspInjective(a: LspPosition, b: LspPosition)
    requires PointFromLsp(a) == PointFromLsp(b)
    ensures a == b
  {
  }

  /** `column_start` is idempotent. */
  lemma ColumnStartIdempotent(p: TreePoint)
    ensures ColumnStart(ColumnStart(p)) == ColumnStart(p)
  {
  }

  /** `column_start` and `line_above` commute wherever `line_above` is defined. */
  lemma ColumnStartLineAboveCommute(p: TreePoint)
    requires p.row >= 1
    ensures ColumnStart(p).row >= 1
    ensures ColumnStart(LineAbove(p)) == LineAbove(ColumnStart(p))
  {
  }

}
