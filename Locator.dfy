/**
 * Finding the template under the cursor when the command is run. Two
 * strategies: the configured regular expression (its matches are an input
 * here, the expression engine is not modelled) and, for TypeScript and
 * JavaScript, the syntax tree (the chain of nodes from the token at the
 * cursor up to the root is an input). Offsets are character offsets in the
 * host text.
 */
module Locator {
  import opened Wrappers

  /**
   * One match of the global search: its offset, the length of the whole
   * match, and the strings captured by groups 1 to 3 (None when a group did
   * not take part in the match).
   */
  datatype RegexMatch = RegexMatch(index: nat, matchLength: nat,
                                   prefix: Option<string>, body: Option<string>, suffix: Option<string>)

  /** The match has all three groups and the cursor lies on it, both ends included. */
  predicate Selects(m: RegexMatch, cursor: nat) {
    && m.prefix.Some? && m.body.Some? && m.suffix.Some?
    && m.index <= cursor <= m.index + m.matchLength
  }

  /** A span of offsets, `[start, end)`. */
  datatype Interval = Interval(start: int, end: int)

  /** The offsets of the body group: the inner content, without prefix and suffix. */
  function BodyInterval(m: RegexMatch): Interval
    requires m.prefix.Some? && m.body.Some?
  {
    Interval(m.index + |m.prefix.value|, m.index + |m.prefix.value| + |m.body.value|)
  }

  /** The index of the first match that selects the cursor, or `|matches|` if none does. */
  function FirstSelected(matches: seq<RegexMatch>, cursor: nat): (k: nat)
    ensures k <= |matches|
    ensures k < |matches| ==> Selects(matches[k], cursor)
    ensures forall j :: 0 <= j < k ==> !Selects(matches[j], cursor)
    decreases |matches|
  {
    if matches == [] then 0
    else if Selects(matches[0], cursor) then 0
    else
      var k := 1 + FirstSelected(matches[1..], cursor);
      assert forall j :: 1 <= j < k ==> matches[j] == matches[1..][j - 1];
      k
  }

  /**
   * The search loop of the command: the first match with three groups that
   * covers the cursor gives the body's offsets; without one both stay 0.
   */
  method LocateByPattern(matches: seq<RegexMatch>, cursor: nat) returns (templateStart: int, templateEnd: int)
    ensures var k := FirstSelected(matches, cursor);
      if k < |matches| then Interval(templateStart, templateEnd) == BodyInterval(matches[k])
      else templateStart == 0 && templateEnd == 0
  {
    templateStart, templateEnd := 0, 0;
    var i := 0;
    while i < |matches|
      invariant 0 <= i <= |matches|
      invariant forall j :: 0 <= j < i ==> !Selects(matches[j], cursor)
      invariant templateStart == 0 && templateEnd == 0
    {
      var m := matches[i];
      if m.prefix.Some? && m.body.Some? && m.suffix.Some? {
        if m.index <= cursor && cursor <= m.index + m.matchLength {
          templateStart := m.index + |m.prefix.value|;
          templateEnd := m.index + |m.prefix.value| + |m.body.value|;
          return;
        }
      }
      i := i + 1;
    }
  }

  /** A node of the syntax tree: whether it is a template literal (with or without substitutions) and its span. */
  datatype SyntaxNode = SyntaxNode(isTemplateLiteral: bool, start: nat, end: nat)

  /** The index of the last (outermost) template literal in the chain, or -1 if there is none. */
  function OutermostIndex(ancestors: seq<SyntaxNode>): (k: int)
    ensures -1 <= k < |ancestors|
    ensures k >= 0 ==> ancestors[k].isTemplateLiteral
    ensures forall j :: k < j < |ancestors| ==> !ancestors[j].isTemplateLiteral
    decreases |ancestors|
  {
    if ancestors == [] then -1
    else if ancestors[|ancestors| - 1].isTemplateLiteral then |ancestors| - 1
    else OutermostIndex(ancestors[..|ancestors| - 1])
  }

  /**
   * The walk from the token at the cursor (`ancestors[0]`) up through its
   * parents, remembering the last template literal seen.
   */
  method OutermostTemplate(ancestors: seq<SyntaxNode>) returns (template: Option<SyntaxNode>)
    ensures var k := OutermostIndex(ancestors);
      template == if k >= 0 then Some(ancestors[k]) else None
  {
    template := None;
    ghost var at := -1;
    var i := 0;
    while i < |ancestors|
      invariant 0 <= i <= |ancestors|
      invariant -1 <= at < i
      invariant at >= 0 ==> ancestors[at].isTemplateLiteral
      invariant forall j :: at < j < i ==> !ancestors[j].isTemplateLiteral
      invariant template == if at >= 0 then Some(ancestors[at]) else None
    {
      if ancestors[i].isTemplateLiteral {
        template := Some(ancestors[i]);
        at := i;
      }
      i := i + 1;
    }
  }

  /** How the command finds templates for the document's language. */
  datatype Strategy =
    | PatternStrategy(matches: seq<RegexMatch>)   // a regular expression is configured for the language
    | SyntaxStrategy(ancestors: seq<SyntaxNode>)  // TypeScript or JavaScript without one
    | NoStrategy                                  // any other language

  /**
   * The interval the command opens: the pattern's body, or the template
   * literal's span without its two backticks; a start offset of 0 counts as
   * "nothing found", as the command tests `templateStart !== 0`.
   */
  function Located(strategy: Strategy, cursor: nat): Option<Interval> {
    var found :=
      match strategy
      case PatternStrategy(ms) =>
        var k := FirstSelected(ms, cursor);
        if k < |ms| then BodyInterval(ms[k]) else Interval(0, 0)
      case SyntaxStrategy(ancestors) =>
        var k := OutermostIndex(ancestors);
        if k >= 0 then Interval(ancestors[k].start + 1, ancestors[k].end - 1) else Interval(0, 0)
      case NoStrategy => Interval(0, 0);
    if found.start != 0 then Some(found) else None
  }

  /** The command's search, by strategy, followed by its "found" test. */
  method Locate(strategy: Strategy, cursor: nat) returns (found: Option<Interval>)
    ensures found == Located(strategy, cursor)
  {
    var templateStart, templateEnd := 0, 0;
    match strategy {
      case PatternStrategy(ms) =>
        templateStart, templateEnd := LocateByPattern(ms, cursor);
      case SyntaxStrategy(ancestors) =>
        var template := OutermostTemplate(ancestors);
        if template.Some? {
          templateStart, templateEnd := template.value.start + 1, template.value.end - 1;
        }
      case NoStrategy =>
    }
    found := if templateStart != 0 then Some(Interval(templateStart, templateEnd)) else None;
  }

  /**
   * The pattern strategy opens the body of the first three-group match that
   * covers the cursor, unless that body starts at offset 0; if no match
   * covers the cursor nothing opens.
   */
  lemma PatternOpensFirstCoveringBody(ms: seq<RegexMatch>, cursor: nat)
    ensures Located(PatternStrategy(ms), cursor).Some? <==>
      exists k :: 0 <= k < |ms| && Selects(ms[k], cursor)
                  && (forall j :: 0 <= j < k ==> !Selects(ms[j], cursor))
                  && BodyInterval(ms[k]).start != 0
    ensures Located(PatternStrategy(ms), cursor).Some? ==>
      Located(PatternStrategy(ms), cursor).value == BodyInterval(ms[FirstSelected(ms, cursor)])
  {
    var k := FirstSelected(ms, cursor);
    if exists k' :: 0 <= k' < |ms| && Selects(ms[k'], cursor)
                    && (forall j :: 0 <= j < k' ==> !Selects(ms[j], cursor))
                    && BodyInterval(ms[k']).start != 0 {
      var k' :| 0 <= k' < |ms| && Selects(ms[k'], cursor)
                && (forall j :: 0 <= j < k' ==> !Selects(ms[j], cursor))
                && BodyInterval(ms[k']).start != 0;
      assert k' == k;
    }
  }

  /** The syntax strategy opens something exactly when the chain holds a template literal. */
  lemma SyntaxOpensAnyTemplate(ancestors: seq<SyntaxNode>, cursor: nat)
    ensures Located(SyntaxStrategy(ancestors), cursor).Some? <==>
      exists i :: 0 <= i < |ancestors| && ancestors[i].isTemplateLiteral
  {
    var k := OutermostIndex(ancestors);
    if k < 0 {
      assert forall j :: 0 <= j < |ancestors| ==> !ancestors[j].isTemplateLiteral;
    }
  }

  /**
   * The "found" test on the start offset: a pattern whose prefix group is
   * empty, matching at the very beginning of the document, is never opened.
   */
  lemma BodyAtDocumentStartIsNotOpened(body: string, cursor: nat)
    requires cursor <= |body|
    ensures Located(PatternStrategy([RegexMatch(0, |body|, Some(""), Some(body), Some(""))]), cursor) == None
  {
  }

  /** A backtick literal at the start of the document: the cursor inside it opens its content. */
  lemma BacktickLiteralOpensItsContent()
    ensures Located(PatternStrategy([RegexMatch(0, 12, Some("`"), Some("abc${1}def"), Some("`"))]), 5)
            == Some(Interval(1, 11))
  {
  }
}
