/**
  The Markdown auto-closer as a whole (`autoCloseMarkdown`): a partial
  buffer gets at most one inline closer on its last line, then, when the
  text holds `::`, its block components are closed. `detectUnclosedSyntax`
  reports what the closer would do without changing the text.
 */
module AutoClose {
  import opened Wrappers
  import opened Strings
  import opened InlineClose
  import opened ComponentClose

  // ---------------------------------------------------------------------
  // The closer
  // ---------------------------------------------------------------------

  /** `autoCloseMarkdown`: blank text as it is, else the inline closer and then, on `::`, the component closer. */
  function CloseMarkdown(markdown: string): string {
    if Trim(markdown) == [] then markdown
    else ComponentStep(CloseInline(markdown, LastLine(markdown)))
  }

  /** The second step: the component closer on the lines of `result`, when it holds `::`. */
  function ComponentStep(result: string): string {
    if Contains(result, "::") then CloseComponents(result, Split(result, '\n')) else result
  }

  /** The lines of `s` in a fresh array, for the component closer to update in place. */
  method LinesArray(lines: seq<string>) returns (buffer: array<string>)
    ensures fresh(buffer)
    ensures buffer[..] == lines
  {
    buffer := new string[|lines|];
    for i := 0 to |lines|
      invariant buffer[..i] == lines[..i]
    {
      buffer[i] := lines[i];
    }
  }

  method AutoCloseMarkdown(markdown: string) returns (result: string)
    ensures result == CloseMarkdown(markdown)
  {
    if markdown == [] || Trim(markdown) == [] {
      return markdown;
    }
    var lines := Split(markdown, '\n');
    var lastLine := lines[|lines| - 1];
    result := AutoCloseInlineSyntax(markdown, lastLine);
    ghost var inline := result;
    assert inline == CloseInline(markdown, LastLine(markdown));
    if Contains(result, "::") {
      var updatedLines := if result == markdown then lines else Split(result, '\n');
      assert updatedLines == Split(inline, '\n');
      var buffer := LinesArray(updatedLines);
      result := AutoCloseMDCComponents(result, buffer);
    }
    assert result == ComponentStep(inline);
  }

  // ---------------------------------------------------------------------
  // What the closer does to the text
  // ---------------------------------------------------------------------

  /** Text that is empty or all white space comes back unchanged. */
  lemma BlankUnchanged(markdown: string)
    requires Blank(markdown)
    ensures CloseMarkdown(markdown) == markdown
  {
    TrimEmptyIffBlank(markdown);
  }

  /** Appending a closing and closer lines keeps the text as a prefix. */
  lemma AssembledExtends(markdown: string, closing: string, closers: seq<string>)
    ensures StartsWith(Assembled(markdown, closing, closers), markdown)
  {
    var out := Assembled(markdown, closing, closers);
    if |closers| > 0 {
      assert out == markdown + (closing + "\n" + Join(closers, "\n"));
    }
    assert out[..|markdown|] == markdown;
  }

  /** The second step only appends. */
  lemma ComponentStepExtends(result: string)
    ensures StartsWith(ComponentStep(result), result)
  {
    if Contains(result, "::") {
      var lines := Split(result, '\n');
      var last := lines[|lines| - 1];
      var closing := PropsClosing(last);
      var closers := Closers(Unclosed(lines[|lines| - 1 := last + closing]));
      assert CloseComponents(result, lines) == Assembled(result, closing, closers);
      AssembledExtends(result, closing, closers);
    }
  }

  /**
    Trimming before the inline closer touches only the last line: the text
    loses the trailing white space of its last line and nothing else.
   */
  lemma TrimOnlyLastLine(markdown: string)
    requires InlineFix(LastLine(markdown)).Some?
    ensures var last := LastLine(markdown);
      TrimEnd(markdown) == markdown[..|markdown| - |last|] + TrimEnd(last)
  {
    var last := LastLine(markdown);
    FirstFixVisible(last, 0);
    LastPartIsSuffix(markdown, '\n');
    var init := markdown[..|markdown| - |last|];
    assert markdown == init + last;
    TrimEndWithinLastPart(init, last);
  }

  /** The inline step keeps the text, or the text without its trailing white space when the closer trims. */
  lemma InlineStepExtends(markdown: string, f: Option<Fix>)
    requires f == InlineFix(LastLine(markdown))
    ensures StartsWith(CloseInline(markdown, LastLine(markdown)),
      if f.Some? && f.value.trimTrailing then TrimEnd(markdown) else markdown)
  {
    var base := if f.Some? && f.value.trimTrailing then TrimEnd(markdown) else markdown;
    var result := CloseInline(markdown, LastLine(markdown));
    assert result == base || result == base + f.value.suffix;
    assert result[..|base|] == base;
  }

  /** Only a closer other than the backtick trims, and only a last line that ends in white space. */
  lemma TrimmingCloser(markdown: string, f: Option<Fix>)
    requires f == InlineFix(LastLine(markdown))
    ensures f.Some? && f.value.trimTrailing ==> f.value.suffix != "`" && HasTrailingWhitespace(LastLine(markdown))
  {
    FixShape(LastLine(markdown), 0);
  }

  /**
    Any other text comes back extended: it is kept whole, or it first loses
    its trailing white space when the inline closer `f` trims.
   */
  lemma ClosedExtendsInput(markdown: string, f: Option<Fix>)
    requires f == InlineFix(LastLine(markdown))
    ensures StartsWith(CloseMarkdown(markdown),
      if !Blank(markdown) && f.Some? && f.value.trimTrailing then TrimEnd(markdown) else markdown)
  {
    TrimEmptyIffBlank(markdown);
    if Blank(markdown) {
      StartsWithSelf(markdown);
    } else {
      var result := CloseInline(markdown, LastLine(markdown));
      assert CloseMarkdown(markdown) == ComponentStep(result);
      InlineStepExtends(markdown, f);
      ComponentStepExtends(result);
      StartsWithTrans(ComponentStep(result), result,
        if f.Some? && f.value.trimTrailing then TrimEnd(markdown) else markdown);
    }
  }

  // ---------------------------------------------------------------------
  // No component is left open
  // ---------------------------------------------------------------------

  /** Text without `::` opens no component: no line of it has `::`. */
  lemma NothingOpenWithoutPair(s: string)
    requires !Contains(s, "::")
    ensures Unclosed(Split(s, '\n')) == []
  {
    var lines := Split(s, '\n');
    forall k | 0 <= k < |lines| ensures !Contains(lines[k], "::") {
      if Contains(lines[k], "::") {
        JoinHasPart(lines, "\n", k, "::");
        JoinSplit(s, '\n');
      }
    }
    ScanWithoutPair(lines);
  }

  /** Blank text holds no `::`. */
  lemma BlankHasNoPair(s: string)
    requires Blank(s)
    ensures !Contains(s, "::")
  {
    assert !IsSpace(':');
    NoHeadNoContains(s, "::");
  }

  /** After the closer, every component of the text is closed. */
  lemma AllComponentsClosed(markdown: string)
    ensures Unclosed(Split(CloseMarkdown(markdown), '\n')) == []
  {
    TrimEmptyIffBlank(markdown);
    if Blank(markdown) {
      BlankHasNoPair(markdown);
      NothingOpenWithoutPair(markdown);
    } else {
      var result := CloseInline(markdown, LastLine(markdown));
      assert CloseMarkdown(markdown) == ComponentStep(result);
      if Contains(result, "::") {
        ComponentsClosed(result);
      } else {
        NothingOpenWithoutPair(result);
      }
    }
  }

  /** A fence line holds only colons and name characters: no line break and no inline marker. */
  lemma FenceLineChars(d: nat, a: string)
    requires IsName(a)
    ensures var line := Run(':', d) + a;
      '\n' !in line && '*' !in line && '~' !in line && '`' !in line
  {
    var line := Run(':', d) + a;
    forall i | 0 <= i < |line| ensures line[i] == ':' || IsNameChar(line[i]) {
      if i >= d {
        assert line[i] == a[i - d];
      }
    }
  }

  /** Two lines without line breaks, joined by one, split back into them. */
  lemma TwoLines(m: string, l1: string, l2: string)
    requires '\n' !in l1 && '\n' !in l2 && m == l1 + "\n" + l2
    ensures Split(m, '\n') == [l1, l2] && LastLine(m) == l2
  {
    JoinTwo(l1, l2, "\n");
    SplitJoin([l1, l2], '\n');
  }

  /** Text that opens with `::` is not blank and holds `::`. */
  lemma OpensWithPair(m: string)
    requires |m| >= 2 && m[0] == ':' && m[1] == ':'
    ensures Trim(m) != [] && Contains(m, "::")
  {
    TrimEmptyIffBlank(m);
    assert !IsSpace(m[0]);
    assert m[..2] == "::";
  }

  /** Text of two lines whose last gets no inline closer and which holds `::` goes straight to the component closer. */
  lemma OnlyComponentsClose(m: string, l1: string, l2: string)
    requires Split(m, '\n') == [l1, l2] && InlineFix(l2) == None
    requires Trim(m) != [] && Contains(m, "::")
    ensures CloseMarkdown(m) == CloseComponents(m, [l1, l2])
  {
    assert LastLine(m) == l2;
    assert CloseInline(m, l2) == m;
  }

  /** The component closer on the fences `:::a` and `::b`. */
  lemma FencePairClosers(m: string, a: string, b: string)
    requires IsName(a) && IsName(b)
    ensures CloseComponents(m, [Run(':', 3) + a, Run(':', 2) + b]) == m + "\n" + Run(':', 2) + "\n" + Run(':', 3)
  {
    var l1, l2 := Run(':', 3) + a, Run(':', 2) + b;
    OpenerLineMatch(l1, 3, a);
    OpenerLineMatch(l2, 2, b);
    FenceHasNoProps(2, b);
    NestedClosers(m, l1, l2, Component(3, a), Component(2, b));
  }

  /**
    Nested fences `:::a` then `::b` are closed inner first:
    `:::a\n::b` becomes `:::a\n::b\n::\n:::`.
   */
  lemma NestedFencesClosed(a: string, b: string, m: string)
    requires IsName(a) && IsName(b)
    requires m == Run(':', 3) + a + "\n" + Run(':', 2) + b
    ensures CloseMarkdown(m) == m + "\n" + Run(':', 2) + "\n" + Run(':', 3)
  {
    var l1, l2 := Run(':', 3) + a, Run(':', 2) + b;
    FenceLineChars(3, a);
    FenceLineChars(2, b);
    TwoLines(m, l1, l2);
    NoMarkerCharacters(l2);
    OpensWithPair(m);
    OnlyComponentsClose(m, l1, l2);
    FencePairClosers(m, a, b);
  }

  // ---------------------------------------------------------------------
  // When the closer changes the text
  // ---------------------------------------------------------------------

  /** A non-blank last line makes the whole text non-blank. */
  lemma VisibleLastLine(m: string)
    requires !Blank(LastLine(m))
    ensures Trim(m) != []
  {
    var last := LastLine(m);
    LastPartIsSuffix(m, '\n');
    var i :| 0 <= i < |last| && !IsSpace(last[i]);
    assert m[|m| - |last| + i] == last[i];
    TrimEmptyIffBlank(m);
  }

  /**
    The inline step ends in a visible character, and where the text
    reaches that position it has white space there: the closer either
    lengthens the text or replaces its trailing white space.
   */
  lemma InlineResultEnd(m: string, f: Fix)
    requires InlineFix(LastLine(m)) == Some(f)
    ensures var result := CloseInline(m, LastLine(m));
      |result| >= 1 && !IsSpace(result[|result| - 1]) &&
      (|result| - 1 < |m| ==> IsSpace(m[|result| - 1]))
  {
    var last := LastLine(m);
    FixShape(last, 0);
    var base := if f.trimTrailing then TrimEnd(m) else m;
    TrimEndSpec(m);
    var result := CloseInline(m, last);
    assert result == base + f.suffix;
    assert |f.suffix| >= 1 && !IsSpace(f.suffix[|f.suffix| - 1]);
    assert result[|result| - 1] == f.suffix[|f.suffix| - 1];
    if !f.trimTrailing {
      assert |result| > |m|;
    }
  }

  /** A text extending `result` differs from `m` when `result` ends in a visible character where `m` has white space or nothing. */
  lemma ExtensionDiffers(m: string, result: string, closed: string)
    requires StartsWith(closed, result) && |result| >= 1 && !IsSpace(result[|result| - 1])
    requires |result| - 1 < |m| ==> IsSpace(m[|result| - 1])
    ensures closed != m
  {
    var p := |result| - 1;
    assert closed[p] == result[p];
  }

  /** The component step keeps a result that ends visibly where `m` has white space or nothing, so it is not `m`. */
  lemma ComponentStepDiffers(m: string, result: string)
    requires |result| >= 1 && !IsSpace(result[|result| - 1])
    requires |result| - 1 < |m| ==> IsSpace(m[|result| - 1])
    ensures ComponentStep(result) != m
  {
    ComponentStepExtends(result);
    ExtensionDiffers(m, result, ComponentStep(result));
  }

  /** Text that is not blank, whose inline step ends visibly where the text has white space or nothing, is changed. */
  lemma ChangedAfterInline(m: string)
    requires Trim(m) != []
    requires var result := CloseInline(m, LastLine(m));
      |result| >= 1 && !IsSpace(result[|result| - 1]) &&
      (|result| - 1 < |m| ==> IsSpace(m[|result| - 1]))
    ensures CloseMarkdown(m) != m
  {
    ComponentStepDiffers(m, CloseInline(m, LastLine(m)));
  }

  /** An inline closer always changes the text: it ends in `*`, `~` or a backtick where the text had white space or nothing. */
  lemma InlineClosingChanges(m: string, f: Fix)
    requires InlineFix(LastLine(m)) == Some(f)
    ensures CloseMarkdown(m) != m
  {
    FirstFixVisible(LastLine(m), 0);
    VisibleLastLine(m);
    InlineResultEnd(m, f);
    ChangedAfterInline(m);
  }

  /** A closing or closer lines change the text; with neither it is unchanged. */
  lemma AssembledChanges(m: string, closing: string, closers: seq<string>)
    ensures Assembled(m, closing, closers) != m <==> closing != [] || closers != []
  {
    if closers == [] && closing == [] {
      assert m + closing == m;
    }
  }

  /** The component closer changes the text exactly when the last line gets a props closing or a component is left open. */
  lemma CloseComponentsChanges(m: string, lines: seq<string>)
    requires |lines| >= 1
    ensures CloseComponents(m, lines) != m <==> PropsClosing(lines[|lines| - 1]) != [] || Unclosed(lines) != []
  {
    var closing := PropsClosing(lines[|lines| - 1]);
    var updated := lines[|lines| - 1 := lines[|lines| - 1] + closing];
    var closers := Closers(Unclosed(updated));
    assert CloseComponents(m, lines) == Assembled(m, closing, closers);
    AssembledChanges(m, closing, closers);
    if closing == [] {
      EmptyClosingKeepsLines(lines, closing);
    }
  }

  /** The component step changes the text exactly when there is `::` and a props closing or an open component. */
  lemma ComponentStepChanges(m: string)
    ensures ComponentStep(m) != m <==>
      Contains(m, "::") && (PropsClosing(LastLine(m)) != [] || Unclosed(Split(m, '\n')) != [])
  {
    if Contains(m, "::") {
      CloseComponentsChanges(m, Split(m, '\n'));
    }
  }

  /**
    `autoCloseMarkdown` changes the text exactly when the text is not blank
    and the last line gets an inline closer, or the text holds `::` and its
    last line gets a props closing or some component is left open.
   */
  lemma ClosesExactlyWhen(m: string)
    ensures CloseMarkdown(m) != m <==>
      !Blank(m) && (InlineFix(LastLine(m)).Some? ||
        (Contains(m, "::") && (PropsClosing(LastLine(m)) != [] || Unclosed(Split(m, '\n')) != [])))
  {
    TrimEmptyIffBlank(m);
    if Blank(m) {
      BlankUnchanged(m);
    } else {
      match InlineFix(LastLine(m))
      case Some(f) =>
        InlineClosingChanges(m, f);
      case None =>
        assert CloseInline(m, LastLine(m)) == m;
        assert CloseMarkdown(m) == ComponentStep(m);
        ComponentStepChanges(m);
    }
  }

  // ---------------------------------------------------------------------
  // The report
  // ---------------------------------------------------------------------

  /** What `detectUnclosedSyntax` returns. */
  datatype Report = Report(hasUnclosed: bool, unclosedInline: seq<string>, unclosedComponents: seq<Component>)

  /**
    The tail probes of the report, `/\*\*[^*\n]+$/`, `/\*[^*\n]+$/`,
    `` /`[^`\n]+$/ `` and `/~~[^~\n]+$/`: the last `c` of the line (with
    `L == 2`, preceded by another `c`) is followed by a non-empty tail
    without a line break.
   */
  predicate HasTail(line: string, c: char, L: nat)
    requires 1 <= L <= 2
  {
    var k := LastIndexOf(line, c);
    k >= L - 1 && k + 1 < |line| && (L == 2 ==> line[k - 1] == c) &&
    forall j :: k < j < |line| ==> line[j] != '\n'
  }

  /** The regular expression matches at `i`: `L` copies of `c`, then a non-empty tail free of `c` and of line breaks. */
  ghost predicate TailAt(line: string, c: char, L: nat, i: int) {
    0 <= i && i + L < |line| && (forall j :: i <= j < i + L ==> line[j] == c) &&
    forall j :: i + L <= j < |line| ==> line[j] != c && line[j] != '\n'
  }

  /** `HasTail` is the regular expression: it holds exactly when the expression matches somewhere. */
  lemma TailProbe(line: string, c: char, L: nat)
    requires 1 <= L <= 2 && c != '\n'
    ensures HasTail(line, c, L) <==> exists i :: TailAt(line, c, L, i)
  {
    var k := LastIndexOf(line, c);
    if HasTail(line, c, L) {
      assert TailAt(line, c, L, k - L + 1);
    }
    if exists i :: TailAt(line, c, L, i) {
      var i :| TailAt(line, c, L, i);
      assert line[i + L - 1] == c;
      assert k == i + L - 1;
    }
  }

  /** Where the bold probe matches, the italic probe matches too, one position later. */
  lemma BoldTailIsItalicTail(line: string)
    requires exists i :: TailAt(line, '*', 2, i)
    ensures exists i :: TailAt(line, '*', 1, i)
  {
    var i :| TailAt(line, '*', 2, i);
    assert TailAt(line, '*', 1, i + 1);
  }

  /** The inline labels of the report for the last line, in the order the code pushes them. */
  function InlineLabels(lastLine: string): seq<string> {
    var bold := HasTail(lastLine, '*', 2);
    (if bold then ["**bold**"] else []) +
    (if HasTail(lastLine, '*', 1) && !bold then ["*italic*"] else []) +
    (if HasTail(lastLine, '`', 1) then ["`code`"] else []) +
    (if HasTail(lastLine, '~', 2) then ["~~strikethrough~~"] else [])
  }

  /**
    Each label is reported exactly when its regular expression matches the
    last line, except that italic gives way to bold: the two are never
    reported together.
   */
  lemma InlineLabelsMatch(lastLine: string)
    ensures var r := InlineLabels(lastLine);
      ("**bold**" in r <==> exists i :: TailAt(lastLine, '*', 2, i)) &&
      ("*italic*" in r <==> (exists i :: TailAt(lastLine, '*', 1, i)) && !exists i :: TailAt(lastLine, '*', 2, i)) &&
      ("`code`" in r <==> exists i :: TailAt(lastLine, '`', 1, i)) &&
      ("~~strikethrough~~" in r <==> exists i :: TailAt(lastLine, '~', 2, i)) &&
      !("*italic*" in r && "**bold**" in r)
  {
    TailProbe(lastLine, '*', 2);
    TailProbe(lastLine, '*', 1);
    TailProbe(lastLine, '`', 1);
    TailProbe(lastLine, '~', 2);
  }

  /** The inline part of the report, pushed label by label as the code does. */
  method InlineLabelsOf(lastLine: string) returns (unclosedInline: seq<string>)
    ensures unclosedInline == InlineLabels(lastLine)
  {
    var bold := HasTail(lastLine, '*', 2);
    unclosedInline := [];
    if bold {
      unclosedInline := unclosedInline + ["**bold**"];
    }
    assert "**bold**" in unclosedInline <==> bold;
    ghost var first := unclosedInline;
    if HasTail(lastLine, '*', 1) && "**bold**" !in unclosedInline {
      unclosedInline := unclosedInline + ["*italic*"];
    }
    ghost var second := unclosedInline;
    assert second == first + (if HasTail(lastLine, '*', 1) && !bold then ["*italic*"] else []);
    if HasTail(lastLine, '`', 1) {
      unclosedInline := unclosedInline + ["`code`"];
    }
    ghost var third := unclosedInline;
    assert third == second + (if HasTail(lastLine, '`', 1) then ["`code`"] else []);
    if HasTail(lastLine, '~', 2) {
      unclosedInline := unclosedInline + ["~~strikethrough~~"];
    }
    assert unclosedInline == third + (if HasTail(lastLine, '~', 2) then ["~~strikethrough~~"] else []);
  }

  /** The first half of the report: whether the closer changes the text. */
  method ClosesSomething(markdown: string) returns (hasUnclosed: bool)
    ensures hasUnclosed <==> CloseMarkdown(markdown) != markdown
  {
    var original := markdown;
    var closed := AutoCloseMarkdown(markdown);
    hasUnclosed := original != closed;
  }

  /**
    `detectUnclosedSyntax`: runs the closer and reports whether it changed
    the text; if it did, the inline labels of the last line and the
    components left open, found by the same stack loop.
   */
  method DetectUnclosedSyntax(markdown: string) returns (report: Report)
    ensures report.hasUnclosed <==> CloseMarkdown(markdown) != markdown
    ensures !report.hasUnclosed ==> report.unclosedInline == [] && report.unclosedComponents == []
    ensures report.hasUnclosed ==>
      report.unclosedInline == InlineLabels(LastLine(markdown)) &&
      report.unclosedComponents == Unclosed(Split(markdown, '\n'))
  {
    var hasUnclosed := ClosesSomething(markdown);
    if !hasUnclosed {
      return Report(false, [], []);
    }
    var lines := Split(markdown, '\n');
    var lastLine := lines[|lines| - 1];
    var unclosedInline := InlineLabelsOf(lastLine);
    var unclosedStack := ScanComponents(lines);
    report := Report(true, unclosedInline, unclosedStack);
  }

  // ---------------------------------------------------------------------
  // Closing twice
  // ---------------------------------------------------------------------

  /** A one-line text without a line break or colon, visible at both ends, is its own trim and last line and no `::`. */
  lemma PlainLine(s: string)
    requires '\n' !in s && ':' !in s && s != [] && !IsSpace(s[0]) && !IsSpace(s[|s| - 1])
    ensures Trim(s) == s && LastLine(s) == s && !Contains(s, "::")
  {
    TrimVisible(s);
    LastIndexOfAbsent(s, '\n');
    NoHeadNoContains(s, "::");
  }

  /** A plain one-line text whose inline closer keeps trailing white space just gets the closer appended. */
  lemma PlainLineCloses(s: string, f: Fix)
    requires '\n' !in s && ':' !in s && s != [] && !IsSpace(s[0]) && !IsSpace(s[|s| - 1])
    requires InlineFix(s) == Some(f) && !f.trimTrailing && ':' !in f.suffix
    ensures CloseMarkdown(s) == s + f.suffix
  {
    PlainLine(s);
    assert CloseInline(s, s) == s + f.suffix;
    NoHeadNoContains(s + f.suffix, "::");
  }

  /** `a *` ends in an italic opener: the closer appends `*`. */
  lemma TrailingStarClosed()
    ensures CloseMarkdown("a *") == "a **"
  {
    TrailingStarCloses();
    PlainLineCloses("a *", Fix("*", false));
  }

  /** `a **` ends in a bold opener: the closer appends `**`. */
  lemma TrailingStarsClosed()
    ensures CloseMarkdown("a **") == "a ****"
  {
    TrailingStarsClose();
    PlainLineCloses("a **", Fix("**", false));
  }

  /**
    The closer is not idempotent: `a *` is closed to `a **`, whose trailing
    `**` reads as a bold opener, so closing again gives `a ****`.
   */
  lemma ClosingTwiceDiffers()
    ensures CloseMarkdown(CloseMarkdown("a *")) != CloseMarkdown("a *")
  {
    TrailingStarClosed();
    TrailingStarsClosed();
  }
}
