/**
 * Positions and ranges in a text document, with the ordering the editor
 * platform gives them: positions compare line first, then character;
 * `IsBefore`/`IsAfter` are strict and `Range.Contains` is inclusive at both
 * ends.
 */
module Positions {

  /** A zero-based (line, character) position; the platform refuses negative values. */
  datatype Position = Position(line: nat, character: nat) {

    /** Strictly earlier in document order. */
    predicate IsBefore(other: Position) {
      line < other.line || (line == other.line && character < other.character)
    }

    /** Strictly later in document order. */
    predicate IsAfter(other: Position) {
      line > other.line || (line == other.line && character > other.character)
    }

    predicate IsBeforeOrEqual(other: Position) {
      IsBefore(other) || this == other
    }
  }

  /** A range between two positions; the platform always orders `start` before `end`. */
  datatype Range = Range(start: Position, end: Position) {

    predicate WellFormed() {
      start.IsBeforeOrEqual(end)
    }

    predicate IsSingleLine() {
      start.line == end.line
    }

    /** `p` lies in the range, both ends included. */
    predicate ContainsPosition(p: Position) {
      !p.IsBefore(start) && !end.IsBefore(p)
    }

    /** Both ends of `other` lie in this range, boundaries included. */
    predicate Contains(other: Range) {
      ContainsPosition(other.start) && ContainsPosition(other.end)
    }
  }

  /**
   * The position reached by writing `lines` (the pieces of a text between its
   * line breaks) starting at `p`: a single piece extends the current line,
   * otherwise the last piece starts a fresh line.
   */
  function Advance(p: Position, lines: seq<string>): (q: Position)
    requires |lines| >= 1
    ensures p.IsBeforeOrEqual(q)
    ensures q.line - p.line == |lines| - 1
  {
    if |lines| == 1 then Position(p.line, p.character + |lines[0]|)
    else Position(p.line + |lines| - 1, |lines[|lines| - 1]|)
  }
}
