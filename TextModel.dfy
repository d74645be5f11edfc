/**
 * A document as the sequence of its lines, with the two operations the
 * engine relies on: reading the text of a range and replacing a range with
 * new text. Against this model the range tracker is shown to do its job: after
 * an edit outside the tracked range, the adjusted range holds the same text as
 * before; after an edit inside it, it holds the old text with that same edit
 * applied. Writing the mirror back is shown to leave the new range covering
 * exactly the mirror's lines.
 */
module TextModel {
  import opened Positions
  import opened Lines
  import opened Tracker

  /** `b` appended to `a`: the last line of `a` and the first of `b` become one line. */
  function Concat(a: seq<string>, b: seq<string>): (c: seq<string>)
    requires |a| >= 1 && |b| >= 1
    ensures |c| == |a| + |b| - 1
  {
    a[..|a| - 1] + [a[|a| - 1] + b[0]] + b[1..]
  }

  /** The position just after the last character of `a`. */
  function EndOf(a: seq<string>): (p: Position)
    requires |a| >= 1
    ensures p == Advance(Position(0, 0), a)
  {
    Position(|a| - 1, |a[|a| - 1]|)
  }

  predicate ValidPosition(doc: seq<string>, p: Position) {
    p.line < |doc| && p.character <= |doc[p.line]|
  }

  predicate ValidRange(doc: seq<string>, r: Range) {
    ValidPosition(doc, r.start) && ValidPosition(doc, r.end) && r.WellFormed()
  }

  /** The text of `doc` up to `p`. */
  function Prefix(doc: seq<string>, p: Position): (a: seq<string>)
    requires ValidPosition(doc, p)
    ensures |a| == p.line + 1
  {
    doc[..p.line] + [doc[p.line][..p.character]]
  }

  /** The text of `doc` from `p` on. */
  function Suffix(doc: seq<string>, p: Position): (b: seq<string>)
    requires ValidPosition(doc, p)
    ensures |b| == |doc| - p.line
  {
    [doc[p.line][p.character..]] + doc[p.line + 1..]
  }

  /** The text of a range, line by line, as the editor hands it out. */
  function GetText(doc: seq<string>, r: Range): (text: seq<string>)
    requires ValidRange(doc, r)
    ensures |text| == r.end.line - r.start.line + 1
  {
    if r.start.line == r.end.line then [doc[r.start.line][r.start.character..r.end.character]]
    else [doc[r.start.line][r.start.character..]] + doc[r.start.line + 1..r.end.line]
         + [doc[r.end.line][..r.end.character]]
  }

  /** `doc` with the text of `r` replaced by `lines`. */
  function Replace(doc: seq<string>, r: Range, lines: seq<string>): (edited: seq<string>)
    requires ValidRange(doc, r) && |lines| >= 1
    ensures |edited| == |doc| - (r.end.line - r.start.line) + |lines| - 1
  {
    Concat(Concat(Prefix(doc, r.start), lines), Suffix(doc, r.end))
  }

  /** `p` measured from `origin`: lines counted from the origin's line, columns from its column on that line. */
  function Relative(p: Position, origin: Position): (q: Position)
    requires origin.IsBeforeOrEqual(p)
  {
    if p.line == origin.line then Position(0, p.character - origin.character)
    else Position(p.line - origin.line, p.character)
  }

  // ---- Algebra of Concat ----

  lemma ConcatAssociative(a: seq<string>, b: seq<string>, c: seq<string>)
    requires |a| >= 1 && |b| >= 1 && |c| >= 1
    ensures Concat(Concat(a, b), c) == Concat(a, Concat(b, c))
  {
    var n := |a|;
    var left := Concat(Concat(a, b), c);
    var right := Concat(a, Concat(b, c));
    if |b| == 1 {
      assert Concat(a, b) == a[..n - 1] + [a[n - 1] + b[0]];
      assert Concat(b, c) == [b[0] + c[0]] + c[1..];
      assert (a[n - 1] + b[0]) + c[0] == a[n - 1] + (b[0] + c[0]);
      assert left == a[..n - 1] + [(a[n - 1] + b[0]) + c[0]] + c[1..];
      assert right == a[..n - 1] + [a[n - 1] + (b[0] + c[0])] + c[1..];
    } else {
      var m := |b|;
      var ab := Concat(a, b);
      assert ab[..|ab| - 1] == a[..n - 1] + [a[n - 1] + b[0]] + b[1..m - 1];
      assert ab[|ab| - 1] == b[m - 1];
      var bc := Concat(b, c);
      assert bc[0] == b[0];
      assert bc[1..] == b[1..m - 1] + [b[m - 1] + c[0]] + c[1..];
      assert left == a[..n - 1] + [a[n - 1] + b[0]] + b[1..m - 1] + [b[m - 1] + c[0]] + c[1..];
      assert right == a[..n - 1] + [a[n - 1] + b[0]] + (b[1..m - 1] + [b[m - 1] + c[0]] + c[1..]);
    }
  }

  /** Cutting `Concat(a, b)` at the end of `a` gives back `a` and `b`. */
  lemma SplitConcat(a: seq<string>, b: seq<string>)
    requires |a| >= 1 && |b| >= 1
    ensures ValidPosition(Concat(a, b), EndOf(a))
    ensures Prefix(Concat(a, b), EndOf(a)) == a
    ensures Suffix(Concat(a, b), EndOf(a)) == b
  {
    var n := |a|;
    var d := Concat(a, b);
    assert d[n - 1] == a[n - 1] + b[0];
    assert d[n - 1][..|a[n - 1]|] == a[n - 1];
    assert d[n - 1][|a[n - 1]|..] == b[0];
    assert d[..n - 1] == a[..n - 1];
    assert d[n..] == b[1..];
    assert a[..n - 1] + [a[n - 1]] == a;
    assert [b[0]] + b[1..] == b;
  }

  /** A document is the text up to a valid position followed by the text from it. */
  lemma SplitAt(doc: seq<string>, p: Position)
    requires ValidPosition(doc, p)
    ensures Concat(Prefix(doc, p), Suffix(doc, p)) == doc
    ensures EndOf(Prefix(doc, p)) == p
  {
    var line := doc[p.line];
    assert line[..p.character] + line[p.character..] == line;
    assert Prefix(doc, p)[..p.line] == doc[..p.line];
    assert doc[..p.line] + [line] + doc[p.line + 1..] == doc;
  }

  lemma EndOfConcat(a: seq<string>, b: seq<string>)
    requires |a| >= 1 && |b| >= 1
    ensures EndOf(Concat(a, b)) == Advance(EndOf(a), b)
  {
    var c := Concat(a, b);
    if |b| == 1 {
      assert c[|c| - 1] == a[|a| - 1] + b[0];
    } else {
      assert c[|c| - 1] == b[|b| - 1];
    }
  }

  /** Writing `a` then `b` ends where writing their concatenation ends. */
  lemma AdvanceConcat(p: Position, a: seq<string>, b: seq<string>)
    requires |a| >= 1 && |b| >= 1
    ensures Advance(Advance(p, a), b) == Advance(p, Concat(a, b))
  {
    var c := Concat(a, b);
    if |b| == 1 {
      assert c[|c| - 1] == a[|a| - 1] + b[0];
    } else {
      assert c[|c| - 1] == b[|b| - 1];
    }
  }

  /** `Concat` with a first part of known end can be undone. */
  lemma ConcatCancel(a: seq<string>, b: seq<string>, a': seq<string>, b': seq<string>)
    requires |a| >= 1 && |b| >= 1 && |a'| >= 1 && |b'| >= 1
    requires Concat(a, b) == Concat(a', b') && EndOf(a) == EndOf(a')
    ensures a == a' && b == b'
  {
    SplitConcat(a, b);
    SplitConcat(a', b');
  }

  // ---- Ranges of a document ----

  /**
   * For valid `p` before `q`, the text between them joins the text up to `p`
   * into the text up to `q`, and the text from `q` into the text from `p`.
   */
  lemma Between(doc: seq<string>, p: Position, q: Position)
    requires ValidRange(doc, Range(p, q))
    ensures var m := GetText(doc, Range(p, q));
      && Prefix(doc, q) == Concat(Prefix(doc, p), m)
      && Suffix(doc, p) == Concat(m, Suffix(doc, q))
      && q == Advance(p, m)
  {
    var m := GetText(doc, Range(p, q));
    var lp, lq := doc[p.line], doc[q.line];
    if p.line == q.line {
      assert lp[..p.character] + lp[p.character..q.character] == lq[..q.character];
      assert lp[p.character..q.character] + lq[q.character..] == lp[p.character..];
      assert Concat(Prefix(doc, p), m) == doc[..p.line] + [lp[..p.character] + lp[p.character..q.character]];
      assert Concat(m, Suffix(doc, q)) == [lp[p.character..q.character] + lq[q.character..]] + doc[q.line + 1..];
    } else {
      assert lp[..p.character] + lp[p.character..] == lp;
      assert lq[..q.character] + lq[q.character..] == lq;
      var inner := doc[p.line + 1..q.line];
      assert doc[..q.line] == doc[..p.line] + [lp] + inner;
      assert doc[p.line + 1..] == inner + [lq] + doc[q.line + 1..];
      assert m[..|m| - 1] == [lp[p.character..]] + inner;
      assert Concat(Prefix(doc, p), m) == doc[..p.line] + [lp[..p.character] + lp[p.character..]] + inner + [lq[..q.character]];
      assert Concat(m, Suffix(doc, q)) == [lp[p.character..]] + inner + [lq[..q.character] + lq[q.character..]] + doc[q.line + 1..];
    }
    SplitAt(doc, p);
    SplitAt(doc, q);
    EndOfConcat(Prefix(doc, p), m);
  }

  /** A document assembled as `a`, then `m`, then `z` yields `m` as the text between the ends of `a` and of `a + m`. */
  lemma ExtractMiddle(a: seq<string>, m: seq<string>, z: seq<string>)
    requires |a| >= 1 && |m| >= 1 && |z| >= 1
    ensures var doc := Concat(Concat(a, m), z);
      var r := Range(EndOf(a), Advance(EndOf(a), m));
      && ValidRange(doc, r)
      && GetText(doc, r) == m
  {
    var doc := Concat(Concat(a, m), z);
    var am := Concat(a, m);
    var p, q := EndOf(a), Advance(EndOf(a), m);
    SplitConcat(am, z);
    EndOfConcat(a, m);
    assert Prefix(doc, q) == am;
    SplitConcat(a, m);
    assert ValidPosition(doc, p) by {
      if p.line < q.line {
        assert doc[p.line] == am[p.line];
      }
    }
    Between(doc, p, q);
    var g := GetText(doc, Range(p, q));
    SplitAt(doc, p);
    ConcatCancel(a, m, Prefix(doc, p), g);
  }

  // ---- What the engine's edits do to the text ----

  /** Writing a range's own text back over it changes nothing. */
  lemma ReplaceWithOwnText(doc: seq<string>, r: Range)
    requires ValidRange(doc, r)
    ensures Replace(doc, r, GetText(doc, r)) == doc
  {
    var m := GetText(doc, r);
    Between(doc, r.start, r.end);
    SplitAt(doc, r.start);
    ConcatAssociative(Prefix(doc, r.start), m, Suffix(doc, r.end));
  }

  /**
   * After the mirror's text replaces the tracked range, the recomputed range
   * is valid in the new host text and holds exactly the mirror's lines.
   */
  lemma WriteBackCoversMirror(doc: seq<string>, r: Range, mirrorText: string)
    requires ValidRange(doc, r)
    ensures var written := Replace(doc, r, SplitLines(mirrorText));
      var r' := WriteBackRange(r, mirrorText);
      && ValidRange(written, r')
      && GetText(written, r') == SplitLines(mirrorText)
  {
    var lines := SplitLines(mirrorText);
    SplitAt(doc, r.start);
    WriteBackEndsAfterMirrorText(r, mirrorText);
    ExtractMiddle(Prefix(doc, r.start), lines, Suffix(doc, r.end));
  }

  /**
   * Copying the tracked text to the mirror and straight back (lines joined
   * with line breaks, then split again by the write-back) leaves the host text
   * and the tracked range as they were.
   */
  lemma MirrorRoundTrip(doc: seq<string>, r: Range)
    requires ValidRange(doc, r) && AllWithoutBreaks(doc)
    ensures var mirrorText := JoinLines(GetText(doc, r));
      && Replace(doc, r, SplitLines(mirrorText)) == doc
      && WriteBackRange(r, mirrorText) == r
  {
    var m := GetText(doc, r);
    assert AllWithoutBreaks(m) by {
      forall i | 0 <= i < |m| ensures NoBreaks(m[i]) {
        var line := if i == 0 then doc[r.start.line] else if i == |m| - 1 then doc[r.end.line] else doc[r.start.line + i];
        assert NoBreaks(line);
        assert forall k :: 0 <= k < |m[i]| ==> m[i][k] in line;
      }
    }
    SplitJoin(m);
    ReplaceWithOwnText(doc, r);
    Between(doc, r.start, r.end);
    WriteBackEndsAfterMirrorText(r, JoinLines(m));
  }

  /**
   * A host edit after or before the tracked range (as the tracker classifies
   * it): the adjusted range is valid in the edited text and holds the same
   * text as the old range did.
   */
  lemma AdjustKeepsOutsideText(doc: seq<string>, r: Range, c: Change)
    requires ValidRange(doc, r) && ValidRange(doc, c.range)
    requires PlacementOf(r, c) == AfterRange || PlacementOf(r, c) == BeforeRange
    ensures var edited := Replace(doc, c.range, InsertedLines(c));
      && ValidRange(edited, Adjust(r, c))
      && GetText(edited, Adjust(r, c)) == GetText(doc, r)
  {
    var ins := InsertedLines(c);
    var cs, ce := c.range.start, c.range.end;
    var e := GetText(doc, r);
    var head := Prefix(doc, r.start);
    Between(doc, r.start, r.end);
    SplitAt(doc, r.start);
    if PlacementOf(r, c) == AfterRange {
      // doc = head, e, gap, deleted, rest; the edit only touches what follows e
      var gap := GetText(doc, Range(r.end, cs));
      Between(doc, r.end, cs);
      var tail := Concat(Concat(gap, ins), Suffix(doc, ce));
      ConcatAssociative(Concat(Concat(head, e), gap), ins, Suffix(doc, ce));
      ConcatAssociative(Concat(head, e), gap, Concat(ins, Suffix(doc, ce)));
      ConcatAssociative(gap, ins, Suffix(doc, ce));
      ExtractMiddle(head, e, tail);
    } else {
      // doc = before, deleted, gap, e, rest; the edit only touches what precedes e
      var gap := GetText(doc, Range(ce, r.start));
      Between(doc, ce, r.start);
      var front := Concat(Concat(Prefix(doc, cs), ins), gap);
      var rest := Suffix(doc, r.end);
      ConcatAssociative(Concat(Prefix(doc, cs), ins), gap, Concat(e, rest));
      ConcatAssociative(front, e, rest);
      SplitAt(doc, cs);
      EndOfConcat(Concat(Prefix(doc, cs), ins), gap);
      EndOfConcat(Prefix(doc, cs), ins);
      AdvanceConcat(ce, gap, e);
      AdjustBeforeFollowsText(r, c, gap, Concat(gap, e));
      AdvanceConcat(Advance(cs, ins), gap, e);
      ExtractMiddle(front, e, rest);
    }
  }

  /**
   * A host edit inside the tracked range: the adjusted range is valid in the
   * edited text and holds the old tracked text with the same edit applied at
   * the same place, measured from the range start.
   */
  lemma AdjustAppliesInsideEdit(doc: seq<string>, r: Range, c: Change)
    requires ValidRange(doc, r) && ValidRange(doc, c.range)
    requires PlacementOf(r, c) == WithinRange
    ensures var edited := Replace(doc, c.range, InsertedLines(c));
      var tracked := GetText(doc, r);
      var inner := Range(Relative(c.range.start, r.start), Relative(c.range.end, r.start));
      && ValidRange(edited, Adjust(r, c))
      && ValidRange(tracked, inner)
      && GetText(edited, Adjust(r, c)) == Replace(tracked, inner, InsertedLines(c))
  {
    var ins := InsertedLines(c);
    var cs, ce := c.range.start, c.range.end;
    var head, rest := Prefix(doc, r.start), Suffix(doc, r.end);
    var e := GetText(doc, r);
    var p := GetText(doc, Range(r.start, cs));
    var del := GetText(doc, Range(cs, ce));
    var q := GetText(doc, Range(ce, r.end));
    Between(doc, r.start, r.end);
    Between(doc, r.start, cs);
    Between(doc, cs, ce);
    Between(doc, ce, r.end);
    SplitAt(doc, r.start);
    // the old tracked text is p, del, q
    ConcatAssociative(Concat(head, p), del, q);
    ConcatAssociative(head, p, Concat(del, q));
    ConcatAssociative(head, Concat(p, del), q);
    ConcatAssociative(p, del, q);
    EndOfConcat(head, e);
    EndOfConcat(head, Concat(Concat(p, del), q));
    ConcatCancel(head, e, head, Concat(Concat(p, del), q));
    // the edited document is head, (p, ins, q), rest
    var e' := Concat(Concat(p, ins), q);
    ConcatAssociative(Concat(head, p), ins, Concat(q, rest));
    ConcatAssociative(Concat(Concat(head, p), ins), q, rest);
    ConcatAssociative(head, p, ins);
    ConcatAssociative(head, Concat(p, ins), q);
    ExtractMiddle(head, e', rest);
    // the adjusted end is where writing p, ins and q from the start ends
    AdjustWithinFollowsText(r, c, q);
    AdvanceConcat(r.start, p, ins);
    AdvanceConcat(r.start, Concat(p, ins), q);
    // inside the old text, the edit's ends sit at the ends of p and of p + del
    RelativeAdvance(r.start, p);
    AdvanceConcat(r.start, p, del);
    RelativeAdvance(r.start, Concat(p, del));
    ExtractMiddle(p, del, q);
    EndOfConcat(p, del);
    SplitConcat(p, Concat(del, q));
    SplitConcat(Concat(p, del), q);
  }

  /** Measured from `origin`, the end of writing `m` there is the end of `m` itself. */
  lemma RelativeAdvance(origin: Position, m: seq<string>)
    requires |m| >= 1
    ensures Relative(Advance(origin, m), origin) == EndOf(m)
  {
  }
}
