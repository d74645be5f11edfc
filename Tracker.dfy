/**
 * The range tracker of the host document's change listener: how the tracked
 * template range moves when the host document is edited around it or inside
 * it, how a whole change event (a batch of changes) is checked and applied,
 * and how the range is recomputed after the mirror's content is written back.
 */
module Tracker {
  import opened Positions
  import opened Lines

  /** One entry of a change event: the replaced range and the text put in its place. */
  datatype Change = Change(range: Range, text: string)

  /** Where a change lies relative to the tracked range, tested in the listener's order. */
  datatype Placement = AfterRange | BeforeRange | WithinRange | Overlapping

  function PlacementOf(r: Range, c: Change): (p: Placement)
    ensures p == AfterRange ==> r.end.IsBefore(c.range.start)
    ensures p == BeforeRange ==> c.range.end.IsBefore(r.start)
    ensures p == WithinRange ==>
      r.start.IsBeforeOrEqual(c.range.start) && c.range.end.IsBeforeOrEqual(r.end)
    ensures p == Overlapping <==> !IsTrackable(r, c)
  {
    if c.range.start.IsAfter(r.end) then AfterRange
    else if c.range.end.IsBefore(r.start) then BeforeRange
    else if r.Contains(c.range) then WithinRange
    else Overlapping
  }

  /** The per-change test of the validity check: the change keeps clear of both boundaries or lies inside. */
  predicate IsTrackable(r: Range, c: Change) {
    c.range.end.IsBefore(r.start) || c.range.start.IsAfter(r.end) || r.Contains(c.range)
  }

  /** A change event is tracked only if every one of its changes is trackable against the current range. */
  predicate BatchIsValid(r: Range, changes: seq<Change>) {
    forall i :: 0 <= i < |changes| ==> IsTrackable(r, changes[i])
  }

  function InsertedLines(c: Change): (lines: seq<string>)
    ensures |lines| >= 1
  {
    SplitLines(c.text)
  }

  /** Lines added by the change (negative when lines are removed). */
  function LineDiff(c: Change): (d: int)
    ensures c.range.end.line + d == Advance(c.range.start, InsertedLines(c)).line
  {
    |InsertedLines(c)| - (c.range.end.line - c.range.start.line + 1)
  }

  /**
   * Column shift of a position on the line of `anchor` that follows the
   * change: nothing if the change ends on an earlier line; otherwise the
   * removed columns are taken off, the last inserted line is added, and a
   * multi-line insertion also drops the columns before the change.
   */
  function CharDiff(c: Change, anchor: Position): (d: int)
    ensures c.range.end.line < anchor.line ==> d == 0
    ensures (&& c.range.start.IsBeforeOrEqual(c.range.end) && c.range.end.line == anchor.line
             && c.range.end.character <= anchor.character)
            ==> anchor.character + d >= 0
  {
    if c.range.end.line < anchor.line then 0
    else
      var inserted := InsertedLines(c);
      - (c.range.end.character - c.range.start.character)
      + |inserted[|inserted| - 1]|
      - (if |inserted| > 1 then c.range.start.character else 0)
  }

  /** The tracked range after one change, as the listener computes it. */
  function Adjust(r: Range, c: Change): (adjusted: Range)
    requires r.WellFormed()
    ensures adjusted.WellFormed()
  {
    match PlacementOf(r, c)
    case AfterRange => r
    case BeforeRange =>
      var lineDiff := LineDiff(c);
      var charDiff := CharDiff(c, r.start);
      if lineDiff != 0 || charDiff != 0 then
        Range(Position(r.start.line + lineDiff, r.start.character + charDiff),
              Position(r.end.line + lineDiff,
                       if r.IsSingleLine() then r.end.character + charDiff else r.end.character))
      else r
    case WithinRange =>
      Range(r.start, Position(r.end.line + LineDiff(c), r.end.character + CharDiff(c, r.end)))
    case Overlapping => r
  }

  /** Exactly the changes that pass the validity check get a placement the listener handles. */
  lemma TrackableIffPlaced(r: Range, c: Change)
    requires r.WellFormed()
    ensures IsTrackable(r, c) <==> PlacementOf(r, c) != Overlapping
  {
  }

  /**
   * A change that ends before the range moves both ends exactly as writing
   * the inserted lines at the change's start and then the untouched text up
   * to each end would place them.
   */
  lemma AdjustBeforeFollowsText(r: Range, c: Change, toStart: seq<string>, toEnd: seq<string>)
    requires r.WellFormed() && PlacementOf(r, c) == BeforeRange
    requires |toStart| >= 1 && |toEnd| >= 1
    requires r.start == Advance(c.range.end, toStart) && r.end == Advance(c.range.end, toEnd)
    ensures var moved := Advance(c.range.start, InsertedLines(c));
      Adjust(r, c) == Range(Advance(moved, toStart), Advance(moved, toEnd))
  {
  }

  /**
   * An edit that starts before the range and ends exactly at its start is
   * not trackable: the batch holding it closes the pairing.
   */
  lemma EditEndingAtStartIsNotTrackable(r: Range, c: Change)
    requires r.WellFormed() && c.range.start.IsBefore(r.start) && c.range.end == r.start
    ensures PlacementOf(r, c) == Overlapping && !IsTrackable(r, c)
  {
  }

  /** A pure insertion at either boundary of the range counts as inside it, and the range grows over it. */
  lemma InsertionAtBoundaryIsInside(r: Range, c: Change)
    requires r.WellFormed() && c.range.start == c.range.end
    requires c.range.start == r.start || c.range.start == r.end
    ensures PlacementOf(r, c) == WithinRange
    ensures Adjust(r, c).start == r.start
    ensures c.range.start == r.end ==> Adjust(r, c).end == Advance(r.end, InsertedLines(c))
  {
  }

  /** A change inside the range keeps its start and moves its end past the inserted lines. */
  lemma AdjustWithinFollowsText(r: Range, c: Change, toEnd: seq<string>)
    requires r.WellFormed() && PlacementOf(r, c) == WithinRange
    requires |toEnd| >= 1 && r.end == Advance(c.range.end, toEnd)
    ensures Adjust(r, c) == Range(r.start, Advance(Advance(c.range.start, InsertedLines(c)), toEnd))
  {
  }

  /** A change after the range leaves it alone; one before it keeps its extent. */
  lemma AdjustOutsideKeepsExtent(r: Range, c: Change)
    requires r.WellFormed()
    requires PlacementOf(r, c) == AfterRange || PlacementOf(r, c) == BeforeRange
    ensures PlacementOf(r, c) == AfterRange ==> Adjust(r, c) == r
    ensures var a := Adjust(r, c);
      && a.end.line - a.start.line == r.end.line - r.start.line
      && (if r.IsSingleLine() then a.end.character - a.start.character == r.end.character - r.start.character
          else a.end.character == r.end.character)
  {
  }

  /** A change ending on a line above the range shifts both lines by `LineDiff` and no column. */
  lemma AdjustAboveStartLine(r: Range, c: Change)
    requires r.WellFormed() && PlacementOf(r, c) == BeforeRange
    requires c.range.end.line < r.start.line
    ensures var a := Adjust(r, c);
      && a.start == Position(r.start.line + LineDiff(c), r.start.character)
      && a.end == Position(r.end.line + LineDiff(c), r.end.character)
  {
  }

  /**
   * A change ending on the start line before the start column: the new start
   * column is the last inserted line, plus what separated the change from the
   * start, plus (for a one-line insertion) the columns before the change; the
   * end column moves with it only on a single-line range.
   */
  lemma AdjustOnStartLine(r: Range, c: Change)
    requires r.WellFormed() && PlacementOf(r, c) == BeforeRange
    requires c.range.end.line == r.start.line
    ensures var a := Adjust(r, c);
      var inserted := InsertedLines(c);
      var column := |inserted[|inserted| - 1]| + (r.start.character - c.range.end.character)
                    + (if |inserted| == 1 then c.range.start.character else 0);
      && c.range.end.character < r.start.character
      && a.start == Position(r.start.line + LineDiff(c), column)
      && a.end.line == r.end.line + LineDiff(c)
      && a.end.character == (if r.IsSingleLine() then r.end.character + (column - r.start.character)
                             else r.end.character)
  {
  }

  /**
   * A change inside the range keeps its start; the end line moves by
   * `LineDiff` and the end column moves only when the change reaches the end line.
   */
  lemma AdjustWithinKeepsStart(r: Range, c: Change)
    requires r.WellFormed() && PlacementOf(r, c) == WithinRange
    ensures var a := Adjust(r, c);
      var inserted := InsertedLines(c);
      && a.start == r.start
      && a.end.line == r.end.line + LineDiff(c)
      && a.end.character == (if c.range.end.line < r.end.line then r.end.character
                             else |inserted[|inserted| - 1]| + (r.end.character - c.range.end.character)
                                  + (if |inserted| == 1 then c.range.start.character else 0))
  {
  }

  /** The range after a batch, and whether some change required a sync to the mirror. */
  datatype Tracked = Tracked(range: Range, needsSync: bool)

  /** The batch applied change by change, each against the range its predecessors left. */
  function TrackAll(r: Range, changes: seq<Change>): (t: Tracked)
    requires r.WellFormed()
    ensures t.range.WellFormed()
    decreases |changes|
  {
    if changes == [] then Tracked(r, false)
    else
      var rest := TrackAll(Adjust(r, changes[0]), changes[1..]);
      Tracked(rest.range, PlacementOf(r, changes[0]) == WithinRange || rest.needsSync)
  }

  /**
   * The listener's loop over the changes of one event: it updates the range
   * change by change and records whether any change fell inside it.
   */
  method TrackBatch(r: Range, changes: seq<Change>) returns (range: Range, needsSync: bool)
    requires r.WellFormed()
    ensures Tracked(range, needsSync) == TrackAll(r, changes)
  {
    range, needsSync := r, false;
    var i := 0;
    while i < |changes|
      invariant 0 <= i <= |changes|
      invariant range.WellFormed()
      invariant TrackAll(r, changes)
        == Tracked(TrackAll(range, changes[i..]).range, needsSync || TrackAll(range, changes[i..]).needsSync)
    {
      var c := changes[i];
      assert changes[i..][0] == c && changes[i..][1..] == changes[i + 1..];
      match PlacementOf(range, c) {
        case AfterRange =>
        case BeforeRange =>
          range := Adjust(range, c);
        case WithinRange =>
          range := Adjust(range, c);
          needsSync := true;
        case Overlapping =>
      }
      i := i + 1;
    }
    assert changes[i..] == [];
  }

  /** The range the `i`-th change of a batch is tested against. */
  function RangeAt(r: Range, changes: seq<Change>, i: nat): (at: Range)
    requires r.WellFormed() && i <= |changes|
    ensures at.WellFormed()
  {
    TrackAll(r, changes[..i]).range
  }

  /** A batch asks for one mirror sync exactly when some change lay inside the range it met. */
  lemma {:induction false} SyncIffSomeChangeWithin(r: Range, changes: seq<Change>)
    requires r.WellFormed()
    ensures TrackAll(r, changes).needsSync
        <==> exists i :: 0 <= i < |changes| && PlacementOf(RangeAt(r, changes, i), changes[i]) == WithinRange
    decreases |changes|
  {
    if changes != [] {
      var c, rest := changes[0], changes[1..];
      var next := Adjust(r, c);
      SyncIffSomeChangeWithin(next, rest);
      assert changes[..0] == [];
      forall i | 1 <= i <= |changes|
        ensures RangeAt(r, changes, i) == RangeAt(next, rest, i - 1)
      {
        assert changes[..i][0] == c && changes[..i][1..] == rest[..i - 1];
      }
      if TrackAll(r, changes).needsSync && PlacementOf(r, c) != WithinRange {
        var j :| 0 <= j < |rest| && PlacementOf(RangeAt(next, rest, j), rest[j]) == WithinRange;
        assert PlacementOf(RangeAt(r, changes, j + 1), changes[j + 1]) == WithinRange;
      }
      if exists i :: 0 <= i < |changes| && PlacementOf(RangeAt(r, changes, i), changes[i]) == WithinRange {
        var i :| 0 <= i < |changes| && PlacementOf(RangeAt(r, changes, i), changes[i]) == WithinRange;
        if i > 0 {
          assert PlacementOf(RangeAt(next, rest, i - 1), rest[i - 1]) == WithinRange;
        }
      }
    }
  }

  /** Changes that all lie after the range leave it where it was and ask for no sync. */
  lemma {:induction false} ChangesAfterRangeChangeNothing(r: Range, changes: seq<Change>)
    requires r.WellFormed()
    requires forall i :: 0 <= i < |changes| ==> changes[i].range.start.IsAfter(r.end)
    ensures TrackAll(r, changes) == Tracked(r, false)
    decreases |changes|
  {
    if changes != [] {
      assert PlacementOf(r, changes[0]) == AfterRange;
      var rest := changes[1..];
      assert forall i :: 0 <= i < |rest| ==> rest[i] == changes[i + 1];
      ChangesAfterRangeChangeNothing(r, rest);
    }
  }

  /**
   * The range after the mirror's text is written back over it: the start
   * stays, the end is placed by the mirror's line count and the length of
   * its last line.
   */
  function WriteBackRange(r: Range, mirrorText: string): (written: Range)
    ensures written.start == r.start && written.WellFormed()
  {
    var lines := SplitLines(mirrorText);
    var lineCount := |lines|;
    Range(r.start,
          Position(r.start.line + lineCount - 1,
                   (if lineCount == 1 then r.start.character else 0) + |lines[lineCount - 1]|))
  }

  /** The written-back range ends where writing the mirror's text at the range start ends. */
  lemma WriteBackEndsAfterMirrorText(r: Range, mirrorText: string)
    ensures WriteBackRange(r, mirrorText).end == Advance(r.start, SplitLines(mirrorText))
    ensures WriteBackRange(r, mirrorText).end.line == r.start.line + |SplitLines(mirrorText)| - 1
  {
  }

  /** A one-line range written back from a three-line mirror ends on the third line after the last line's length. */
  lemma WriteBackOfThreeLines()
    ensures WriteBackRange(Range(Position(3, 0), Position(3, 5)), "ab\ncd\nxyz") == Range(Position(3, 0), Position(5, 3))
  {
  }

  /**
   * The validity test looks at the batch against the range as it was, but
   * each change is then placed against the range its predecessors left: a
   * batch can pass the test and still hold a change that overlaps the moved
   * range, which is skipped, leaving the range and no sync.
   */
  lemma BatchPassesButLaterChangeOverlaps()
    ensures var r := Range(Position(0, 5), Position(0, 10));
      var first := Change(Range(Position(0, 0), Position(0, 3)), "");
      var second := Change(Range(Position(0, 6), Position(0, 8)), "");
      && BatchIsValid(r, [first, second])
      && Adjust(r, first) == Range(Position(0, 2), Position(0, 7))
      && PlacementOf(Adjust(r, first), second) == Overlapping
      && TrackAll(r, [first, second]) == Tracked(Range(Position(0, 2), Position(0, 7)), false)
  {
    var r := Range(Position(0, 5), Position(0, 10));
    var first := Change(Range(Position(0, 0), Position(0, 3)), "");
    var second := Change(Range(Position(0, 6), Position(0, 8)), "");
    var moved := Adjust(r, first);
    assert Adjust(moved, second) == moved;
    assert TrackAll(moved, [second][1..]) == Tracked(moved, false);
    assert TrackAll(moved, [second]) == Tracked(moved, false);
    assert [first, second][1..] == [second];
  }
}
