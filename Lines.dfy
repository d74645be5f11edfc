/**
 * Splitting a text into lines the way the change listener does it, with the
 * regular expression `\r\n|\r|\n`: a carriage return followed by a line feed
 * is one break, a lone carriage return or line feed is one break each.
 */
module Lines {

  predicate IsBreak(c: char) {
    c == '\r' || c == '\n'
  }

  predicate NoBreaks(s: string) {
    forall i :: 0 <= i < |s| ==> !IsBreak(s[i])
  }

  predicate AllWithoutBreaks(lines: seq<string>) {
    forall i :: 0 <= i < |lines| ==> NoBreaks(lines[i])
  }

  /** The pieces of `s` between its line breaks; there is always at least one. */
  function SplitLines(s: string): (lines: seq<string>)
    ensures |lines| >= 1
    ensures AllWithoutBreaks(lines)
    decreases |s|
  {
    if s == [] then [""]
    else if s[0] == '\r' && |s| > 1 && s[1] == '\n' then [""] + SplitLines(s[2..])
    else if IsBreak(s[0]) then [""] + SplitLines(s[1..])
    else
      var rest := SplitLines(s[1..]);
      [[s[0]] + rest[0]] + rest[1..]
  }

  /** Lines joined with a line feed between consecutive ones. */
  function JoinLines(lines: seq<string>): (s: string)
    requires |lines| >= 1
  {
    if |lines| == 1 then lines[0] else lines[0] + "\n" + JoinLines(lines[1..])
  }

  /** `s` with every break (`\r\n`, `\r` or `\n`) written as a single line feed. */
  function NormalizeBreaks(s: string): (t: string)
    decreases |s|
  {
    if s == [] then []
    else if s[0] == '\r' && |s| > 1 && s[1] == '\n' then "\n" + NormalizeBreaks(s[2..])
    else if IsBreak(s[0]) then "\n" + NormalizeBreaks(s[1..])
    else [s[0]] + NormalizeBreaks(s[1..])
  }

  /** A break-free prefix only lengthens the first piece. */
  lemma {:induction false} SplitAfterPlainPrefix(a: string, t: string)
    requires NoBreaks(a)
    ensures SplitLines(a + t) == [a + SplitLines(t)[0]] + SplitLines(t)[1..]
    decreases |a|
  {
    if a == [] {
      assert a + t == t;
      var lines := SplitLines(t);
      assert a + lines[0] == lines[0];
      assert [lines[0]] + lines[1..] == lines;
    } else {
      var a' := a[1..];
      assert (a + t)[1..] == a' + t;
      assert NoBreaks(a');
      SplitAfterPlainPrefix(a', t);
      assert [a[0]] + (a' + SplitLines(t)[0]) == a + SplitLines(t)[0];
    }
  }

  /** Splitting undoes joining, for lines without breaks of their own. */
  lemma {:induction false} SplitJoin(lines: seq<string>)
    requires |lines| >= 1 && AllWithoutBreaks(lines)
    ensures SplitLines(JoinLines(lines)) == lines
    decreases |lines|
  {
    if |lines| == 1 {
      SplitAfterPlainPrefix(lines[0], "");
      assert lines[0] + "" == lines[0];
    } else {
      var rest := lines[1..];
      assert AllWithoutBreaks(rest) by {
        forall i | 0 <= i < |rest| ensures NoBreaks(rest[i]) {
          assert rest[i] == lines[i + 1];
        }
      }
      SplitJoin(rest);
      var t := "\n" + JoinLines(rest);
      assert t[1..] == JoinLines(rest);
      assert SplitLines(t) == [""] + rest;
      assert NoBreaks(lines[0]);
      assert JoinLines(lines) == lines[0] + t;
      SplitAfterPlainPrefix(lines[0], t);
      assert lines[0] + "" == lines[0];
      assert [lines[0]] + rest == lines;
    }
  }

  /** Joining the pieces gives back the text, with every break written as a line feed. */
  lemma {:induction false} JoinSplit(s: string)
    ensures JoinLines(SplitLines(s)) == NormalizeBreaks(s)
    decreases |s|
  {
    if s == [] {
    } else if s[0] == '\r' && |s| > 1 && s[1] == '\n' {
      JoinSplit(s[2..]);
      assert ([""] + SplitLines(s[2..]))[1..] == SplitLines(s[2..]);
    } else if IsBreak(s[0]) {
      JoinSplit(s[1..]);
      assert ([""] + SplitLines(s[1..]))[1..] == SplitLines(s[1..]);
    } else {
      JoinSplit(s[1..]);
      var rest := SplitLines(s[1..]);
      var lines := [[s[0]] + rest[0]] + rest[1..];
      if |rest| == 1 {
        assert lines == [[s[0]] + rest[0]];
      } else {
        assert lines[1..] == rest[1..];
        assert JoinLines(rest) == rest[0] + "\n" + JoinLines(rest[1..]);
      }
    }
  }
}
