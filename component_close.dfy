/**
  The block-component half of the Markdown auto-closer: a dangling `{...`
  props block on the last line is closed, then a stack of open colon fences
  (`::name`, `:::name`, ...) is run over the lines and every fence still
  open at the end gets its closer, innermost first, each on a new line.
 */
module ComponentClose {
  import opened Wrappers
  import opened Strings

  /** An open component: the number of colons of its fence and its name. */
  datatype Component = Component(markerCount: nat, name: string)

  // ---------------------------------------------------------------------
  // The fence regular expressions
  // ---------------------------------------------------------------------

  /** The number of colons that `s` opens with. */
  function LeadingColons(s: string): (n: nat)
    ensures n <= |s|
    ensures forall i :: 0 <= i < n ==> s[i] == ':'
    ensures n < |s| ==> s[n] != ':'
    decreases |s|
  {
    if s != [] && s[0] == ':' then 1 + LeadingColons(s[1..]) else 0
  }

  /** `[a-z$]` under the `i` flag. */
  predicate IsNameStart(c: char) {
    'a' <= c <= 'z' || 'A' <= c <= 'Z' || c == '$'
  }

  /** `[$\w.-]`. */
  predicate IsNameChar(c: char) {
    IsNameStart(c) || '0' <= c <= '9' || c == '_' || c == '.' || c == '-'
  }

  /** The length of the longest prefix of `s` made of name characters. */
  function NameLength(s: string): (n: nat)
    ensures n <= |s|
    ensures forall i :: 0 <= i < n ==> IsNameChar(s[i])
    ensures n < |s| ==> !IsNameChar(s[n])
    decreases |s|
  {
    if s != [] && IsNameChar(s[0]) then 1 + NameLength(s[1..]) else 0
  }

  /**
    `/^(:+)([a-z$][$\w.-]*)/i` on a trimmed line: all its leading colons,
    then a name that starts right after them.
   */
  function OpenMatch(t: string): Option<Component> {
    var n := LeadingColons(t);
    if 1 <= n < |t| && IsNameStart(t[n]) then
      var rest := t[n..];
      Some(Component(n, rest[..NameLength(rest)]))
    else None
  }

  /** `/^(:+)$/` on a trimmed line: nothing but colons. */
  predicate IsColonRun(t: string) {
    |t| >= 1 && LeadingColons(t) == |t|
  }

  // ---------------------------------------------------------------------
  // The stack of open components
  // ---------------------------------------------------------------------

  /** An opener with at least two colons is pushed; a one-colon opener is ignored. */
  function OpenStep(stack: seq<Component>, t: string): seq<Component> {
    match OpenMatch(t)
    case Some(c) => if c.markerCount >= 2 then stack + [c] else stack
    case None => stack
  }

  /** A colon run of length at least 2 pops the top entry when, and only when, the depths agree. */
  function CloseStep(stack: seq<Component>, t: string): seq<Component> {
    if IsColonRun(t) && |t| >= 2 && |stack| > 0 && stack[|stack| - 1].markerCount == |t| then
      stack[..|stack| - 1]
    else stack
  }

  /** One line of the scan: the opener check, then the closer check, on the trimmed line. */
  function ScanLine(stack: seq<Component>, line: string): seq<Component> {
    var t := Trim(line);
    CloseStep(OpenStep(stack, t), t)
  }

  /** The stack after scanning `lines` from `start`. */
  function Scan(start: seq<Component>, lines: seq<string>): seq<Component>
    decreases |lines|
  {
    if lines == [] then start
    else ScanLine(Scan(start, lines[..|lines| - 1]), lines[|lines| - 1])
  }

  /** The components left open by `lines`, outermost first. */
  function Unclosed(lines: seq<string>): seq<Component> {
    Scan([], lines)
  }

  /** The closers of a stack, innermost first, each a run of colons of the recorded depth. */
  function Closers(stack: seq<Component>): (r: seq<string>)
    ensures |r| == |stack|
    ensures forall k :: 0 <= k < |r| ==> r[k] == Run(':', stack[|stack| - 1 - k].markerCount)
    decreases |stack|
  {
    if stack == [] then []
    else [Run(':', stack[|stack| - 1].markerCount)] + Closers(stack[..|stack| - 1])
  }

  // ---------------------------------------------------------------------
  // The props block
  // ---------------------------------------------------------------------

  /** `/\{[^}]*$/` matches at `p`: a `{` with no `}` after it. */
  ghost predicate BraceMatchAt(line: string, p: int) {
    0 <= p < |line| && line[p] == '{' && forall k :: p < k < |line| ==> line[k] != '}'
  }

  /** Where `/\{[^}]*$/` matches: the first `{` after the last `}`, if any. */
  function OpenBrace(line: string): Option<nat> {
    var q := IndexFrom(line, '{', LastIndexOf(line, '}') + 1);
    if q == |line| then None else Some(q)
  }

  /** What the props repair appends to the last line: balancing quotes, then `}`. */
  function PropsClosing(line: string): string {
    if line == [] then [] else ClosingAfter(line, OpenBrace(line))
  }

  /** The closing for the brace match `m` of `line`: nothing without a match, else what closes the text after it. */
  function ClosingAfter(line: string, m: Option<nat>): string
    requires m.Some? ==> m.value < |line|
  {
    match m
    case None => []
    case Some(p) => QuoteClosing(line[p + 1..])
  }

  /** What closes the props text `props`: a `"` if its double quotes are odd, a `'` if its single quotes are, then `}`. */
  function QuoteClosing(props: string): string {
    (if CountChar(props, '"') % 2 == 1 then "\"" else "") +
    (if CountChar(props, '\'') % 2 == 1 then "'" else "") + "}"
  }

  /** `autoCloseMDCComponents` on the text `markdown` split into `lines`. */
  function CloseComponents(markdown: string, lines: seq<string>): string
    requires |lines| >= 1
  {
    var last := lines[|lines| - 1];
    var closing := PropsClosing(last);
    var updated := lines[|lines| - 1 := last + closing];
    Assembled(markdown, closing, Closers(Unclosed(updated)))
  }

  /** The text with the props closing appended, then each closer on a new line of its own. */
  function Assembled(markdown: string, closing: string, closers: seq<string>): string {
    if |closers| > 0 then markdown + closing + "\n" + Join(closers, "\n")
    else markdown + closing
  }

  /** Scanning one more line applies `ScanLine` to the stack so far. */
  lemma ScanSnoc(lines: seq<string>, i: nat)
    requires i < |lines|
    ensures Scan([], lines[..i + 1]) == ScanLine(Scan([], lines[..i]), lines[i])
  {
    assert lines[..i + 1][..i] == lines[..i];
  }

  /** `CloseComponents` from its two parts: the props closing and the closers of the updated lines. */
  lemma CloseComponentsParts(markdown: string, lines: seq<string>, closing: string, closers: seq<string>)
    requires |lines| >= 1
    requires closing == PropsClosing(lines[|lines| - 1])
    requires closers == Closers(Unclosed(lines[|lines| - 1 := lines[|lines| - 1] + closing]))
    ensures CloseComponents(markdown, lines) ==
      if |closers| > 0 then markdown + closing + "\n" + Join(closers, "\n") else markdown + closing
  {
  }

  // ---------------------------------------------------------------------
  // What the fence regular expressions accept
  // ---------------------------------------------------------------------

  /** An opener is all the leading colons of the line, then a non-empty name of name characters. */
  lemma OpenMatchShape(t: string)
    ensures OpenMatch(t).Some? ==>
      var c := OpenMatch(t).value;
      c.markerCount == LeadingColons(t) && 1 <= c.markerCount < |t| &&
      1 <= |c.name| && IsNameStart(c.name[0]) && t[c.markerCount..c.markerCount + |c.name|] == c.name &&
      forall i :: 0 <= i < |c.name| ==> IsNameChar(c.name[i])
    ensures OpenMatch(t).None? ==> LeadingColons(t) == 0 || LeadingColons(t) == |t| || !IsNameStart(t[LeadingColons(t)])
  {
    var n := LeadingColons(t);
    if 1 <= n < |t| && IsNameStart(t[n]) {
      var rest := t[n..];
      assert IsNameChar(rest[0]);
      var k := NameLength(rest);
      assert rest[..k] == t[n..n + k];
    }
  }

  /** An opener line is never a bare colon run: the closer check cannot fire on it. */
  lemma OpenerIsNotColonRun(t: string)
    requires OpenMatch(t).Some?
    ensures !IsColonRun(t)
  {
    OpenMatchShape(t);
  }

  /**
    The `isClosing` test of the opener branch never holds: an opener line is
    never just the colons of its own fence, so every pop comes from the
    closer check.
   */
  lemma OpenerIsNeverClosing(t: string)
    requires OpenMatch(t).Some?
    ensures t != Run(':', OpenMatch(t).value.markerCount)
  {
    OpenMatchShape(t);
    var n := OpenMatch(t).value.markerCount;
    assert t[n] != ':';
  }

  /** Every entry of a stack: at least two colons and a non-empty name. */
  predicate WellFramed(stack: seq<Component>) {
    forall k :: 0 <= k < |stack| ==> stack[k].markerCount >= 2 && |stack[k].name| >= 1
  }

  /** The opener check keeps a stack well framed: only openers with at least two colons are pushed. */
  lemma OpenStepWellFramed(stack: seq<Component>, t: string)
    requires WellFramed(stack)
    ensures WellFramed(OpenStep(stack, t))
  {
    match OpenMatch(t)
    case None =>
    case Some(c) =>
      OpenMatchShape(t);
      if c.markerCount >= 2 {
        var pushed := stack + [c];
        forall k | 0 <= k < |pushed| ensures pushed[k].markerCount >= 2 && |pushed[k].name| >= 1 {
          if k < |stack| {
            assert pushed[k] == stack[k];
          }
        }
      }
  }

  /** The closer check keeps a stack well framed: it only pops. */
  lemma CloseStepWellFramed(stack: seq<Component>, t: string)
    requires WellFramed(stack)
    ensures WellFramed(CloseStep(stack, t))
  {
    var closed := CloseStep(stack, t);
    assert closed == stack || closed == stack[..|stack| - 1];
    assert forall k :: 0 <= k < |closed| ==> closed[k] == stack[k];
  }

  /** One line keeps a stack well framed. */
  lemma ScanLineWellFramed(stack: seq<Component>, line: string)
    requires WellFramed(stack)
    ensures WellFramed(ScanLine(stack, line))
  {
    var t := Trim(line);
    OpenStepWellFramed(stack, t);
    CloseStepWellFramed(OpenStep(stack, t), t);
  }

  /** A scan from a well-framed stack stays well framed. */
  lemma {:induction false} ScanWellFramed(start: seq<Component>, lines: seq<string>)
    requires WellFramed(start)
    ensures WellFramed(Scan(start, lines))
    decreases |lines|
  {
    if lines != [] {
      ScanWellFramed(start, lines[..|lines| - 1]);
      ScanLineWellFramed(Scan(start, lines[..|lines| - 1]), lines[|lines| - 1]);
    }
  }

  /** Scanning two blocks of lines is scanning the second from where the first left the stack. */
  lemma {:induction false} ScanAppend(start: seq<Component>, a: seq<string>, b: seq<string>)
    ensures Scan(start, a + b) == Scan(Scan(start, a), b)
    decreases |b|
  {
    if b == [] {
      assert a + b == a;
    } else {
      assert (a + b)[..|a + b| - 1] == a + b[..|b| - 1];
      ScanAppend(start, a, b[..|b| - 1]);
    }
  }

  /** An opener line pushes its component `c` when it has at least two colons, and otherwise changes nothing. */
  lemma OpenerLine(stack: seq<Component>, line: string, c: Component)
    requires OpenMatch(Trim(line)) == Some(c)
    ensures ScanLine(stack, line) == if c.markerCount >= 2 then stack + [c] else stack
  {
    var t := Trim(line);
    var pushed := OpenStep(stack, t);
    assert pushed == if c.markerCount >= 2 then stack + [c] else stack;
    OpenerIsNotColonRun(t);
    assert CloseStep(pushed, t) == pushed;
  }

  /** A colon run of the top entry's depth pops that entry, whatever its name. */
  lemma CloserLinePops(stack: seq<Component>, c: Component, line: string)
    requires IsColonRun(Trim(line)) && |Trim(line)| == c.markerCount >= 2
    ensures ScanLine(stack + [c], line) == stack
  {
    var t := Trim(line);
    assert OpenMatch(t).None?;
    assert (stack + [c])[..|stack|] == stack;
  }

  /** A colon run of another depth than the top entry's leaves the stack as it is. */
  lemma CloserLineOtherDepth(stack: seq<Component>, line: string)
    requires IsColonRun(Trim(line))
    requires stack == [] || stack[|stack| - 1].markerCount != |Trim(line)|
    ensures ScanLine(stack, line) == stack
  {
    assert OpenMatch(Trim(line)).None?;
  }

  /** A closer is its own trimmed line and a colon run of its depth. */
  lemma CloserIsColonRun(d: nat)
    requires d >= 2
    ensures Trim(Run(':', d)) == Run(':', d) && IsColonRun(Run(':', d))
  {
    TrimVisible(Run(':', d));
    var r := Run(':', d);
    assert forall i :: 0 <= i < d ==> r[i] == ':';
    assert LeadingColons(r) == d;
  }

  /** Scanning a single line is one step of the scan. */
  lemma ScanSingle(stack: seq<Component>, line: string)
    ensures Scan(stack, [line]) == ScanLine(stack, line)
  {
    assert [line][..0] == [];
  }

  /** The closer of the top entry pops it. */
  lemma CloserPopsTop(init: seq<Component>, top: Component)
    requires top.markerCount >= 2
    ensures Scan(init + [top], [Run(':', top.markerCount)]) == init
  {
    var x := Run(':', top.markerCount);
    CloserIsColonRun(top.markerCount);
    CloserLinePops(init, top, x);
    ScanSingle(init + [top], x);
  }

  /** Dropping the top entry keeps a stack well framed. */
  lemma WellFramedInit(stack: seq<Component>)
    requires stack != [] && WellFramed(stack)
    ensures WellFramed(stack[..|stack| - 1])
  {
  }

  /** The closers of a stack are the top entry's closer, then the closers of the rest. */
  lemma ClosersUnfold(stack: seq<Component>)
    requires stack != []
    ensures Closers(stack) == [Run(':', stack[|stack| - 1].markerCount)] + Closers(stack[..|stack| - 1])
  {
  }

  /** The closers of a stack, scanned from that stack, close every component. */
  lemma {:induction false} ClosersCloseAll(stack: seq<Component>)
    requires WellFramed(stack)
    ensures Scan(stack, Closers(stack)) == []
    decreases |stack|
  {
    if stack != [] {
      var init, top := stack[..|stack| - 1], stack[|stack| - 1];
      assert stack == init + [top];
      WellFramedInit(stack);
      CloserPopsTop(init, top);
      var x := Run(':', top.markerCount);
      var rest := Closers(init);
      ClosersUnfold(stack);
      ScanAppend(stack, [x], rest);
      ClosersCloseAll(init);
    }
  }

  /** No closer holds a line break. */
  lemma ClosersHaveNoBreak(stack: seq<Component>)
    ensures forall k :: 0 <= k < |Closers(stack)| ==> '\n' !in Closers(stack)[k]
  {
    var r := Closers(stack);
    forall k | 0 <= k < |r| ensures '\n' !in r[k] {
      var d := stack[|stack| - 1 - k].markerCount;
      assert forall i :: 0 <= i < |r[k]| ==> r[k][i] == ':';
    }
  }

  /** A pushed opener starts with two colons, so its line holds `::`. */
  lemma PushedOpenerHasPair(t: string)
    requires OpenMatch(t).Some? && OpenMatch(t).value.markerCount >= 2
    ensures Contains(t, "::")
  {
    OpenMatchShape(t);
    assert t[..2] == "::";
  }

  /** A trimmed line without `::` pushes nothing. */
  lemma OpenStepWithoutPair(t: string)
    requires !Contains(t, "::")
    ensures OpenStep([], t) == []
  {
    if OpenMatch(t).Some? && OpenMatch(t).value.markerCount >= 2 {
      PushedOpenerHasPair(t);
    }
  }

  /** A line without `::` opens nothing on an empty stack. */
  lemma ScanLineWithoutPair(line: string)
    requires !Contains(line, "::")
    ensures ScanLine([], line) == []
  {
    var t := Trim(line);
    if Contains(t, "::") {
      TrimContains(line, "::");
    }
    OpenStepWithoutPair(t);
  }

  /** Lines without `::` leave nothing open. */
  lemma {:induction false} ScanWithoutPair(lines: seq<string>)
    requires forall k :: 0 <= k < |lines| ==> !Contains(lines[k], "::")
    ensures Unclosed(lines) == []
    decreases |lines|
  {
    if lines != [] {
      ScanWithoutPair(lines[..|lines| - 1]);
      ScanLineWithoutPair(lines[|lines| - 1]);
    }
  }

  /** A component name as the opener accepts it: a name start, then name characters. */
  predicate IsName(a: string) {
    |a| >= 1 && IsNameStart(a[0]) && forall i :: 0 <= i < |a| ==> IsNameChar(a[i])
  }

  /** `d` colons and a name make an opener line of depth `d` for that name, already trimmed. */
  lemma OpenerOf(d: nat, a: string)
    requires d >= 1 && IsName(a)
    ensures Trim(Run(':', d) + a) == Run(':', d) + a
    ensures OpenMatch(Run(':', d) + a) == Some(Component(d, a))
  {
    var line := Run(':', d) + a;
    assert line[d] == a[0];
    assert line[d] != ':';
    assert forall i :: 0 <= i < d ==> line[i] == ':';
    assert LeadingColons(line) == d;
    assert line[d..] == a;
    assert NameLength(a) == |a|;
    assert a[..|a|] == a;
    assert line[|line| - 1] == a[|a| - 1];
    assert !IsSpace(line[0]) && !IsSpace(line[|line| - 1]);
    TrimVisible(line);
  }

  /** The opener check on the line `line` of `d` colons and the name `a` finds that component. */
  lemma OpenerLineMatch(line: string, d: nat, a: string)
    requires d >= 1 && IsName(a) && line == Run(':', d) + a
    ensures OpenMatch(Trim(line)) == Some(Component(d, a))
  {
    OpenerOf(d, a);
  }

  /** A name has no `{`, so a fence line of it has no props to close. */
  lemma FenceHasNoProps(d: nat, a: string)
    requires IsName(a)
    ensures PropsClosing(Run(':', d) + a) == []
  {
    var line := Run(':', d) + a;
    forall i | 0 <= i < |line| ensures line[i] != '{' {
      if i >= d {
        assert line[i] == a[i - d];
      }
    }
  }

  /** Two lines are two steps of the scan. */
  lemma ScanTwo(start: seq<Component>, l1: string, l2: string)
    ensures Scan(start, [l1, l2]) == ScanLine(ScanLine(start, l1), l2)
  {
    assert [l1, l2][..1] == [l1];
    ScanSingle(start, l1);
  }

  /** An opener line of depth at least 2 pushes its component. */
  lemma OpenerPushes(stack: seq<Component>, line: string, c: Component, pushed: seq<Component>)
    requires OpenMatch(Trim(line)) == Some(c) && c.markerCount >= 2 && pushed == stack + [c]
    ensures ScanLine(stack, line) == pushed
  {
    OpenerLine(stack, line, c);
  }

  /** Two scan steps from `start` through `mid` to `stack`. */
  lemma ScanTwoSteps(start: seq<Component>, l1: string, l2: string, mid: seq<Component>, stack: seq<Component>)
    requires ScanLine(start, l1) == mid && ScanLine(mid, l2) == stack
    ensures Scan(start, [l1, l2]) == stack
  {
    ScanTwo(start, l1, l2);
  }

  /** Pushing `c1` and then `c2` on an empty stack. */
  lemma PushTwo(c1: Component, c2: Component)
    ensures [c1] == [] + [c1] && [c1, c2] == [c1] + [c2]
  {
  }

  /** Two opener lines of depth at least 2 leave both components open, the second on top. */
  lemma NestedOpeners(l1: string, l2: string, c1: Component, c2: Component)
    requires OpenMatch(Trim(l1)) == Some(c1) && OpenMatch(Trim(l2)) == Some(c2)
    requires c1.markerCount >= 2 && c2.markerCount >= 2
    ensures Unclosed([l1, l2]) == [c1, c2]
  {
    PushTwo(c1, c2);
    OpenerPushes([], l1, c1, [c1]);
    OpenerPushes([c1], l2, c2, [c1, c2]);
    ScanTwoSteps([], l1, l2, [c1], [c1, c2]);
  }

  /** Two lines joined are the first, the separator and the second. */
  lemma JoinTwo(x: string, y: string, sep: string)
    ensures Join([x, y], sep) == x + sep + y
  {
    assert [x, y][..1] == [x];
  }

  /** Two open components, innermost on top, get two closers after a line break. */
  lemma TwoClosers(markdown: string, c1: Component, c2: Component)
    ensures Assembled(markdown, [], Closers([c1, c2])) ==
      markdown + "\n" + Run(':', c2.markerCount) + "\n" + Run(':', c1.markerCount)
  {
    var closers := Closers([c1, c2]);
    assert closers == [Run(':', c2.markerCount), Run(':', c1.markerCount)];
    JoinTwo(Run(':', c2.markerCount), Run(':', c1.markerCount), "\n");
    assert markdown + [] == markdown;
  }

  /** An empty closing leaves the lines as they are. */
  lemma EmptyClosingKeepsLines(lines: seq<string>, closing: string)
    requires |lines| >= 1 && closing == []
    ensures lines[|lines| - 1 := lines[|lines| - 1] + closing] == lines
  {
    assert lines[|lines| - 1] + closing == lines[|lines| - 1];
  }

  /** Lines whose last needs no props closing get only the closers of what they leave open. */
  lemma NoPropsClosing(markdown: string, lines: seq<string>)
    requires |lines| >= 1 && PropsClosing(lines[|lines| - 1]) == []
    ensures CloseComponents(markdown, lines) == Assembled(markdown, [], Closers(Unclosed(lines)))
  {
    EmptyClosingKeepsLines(lines, PropsClosing(lines[|lines| - 1]));
  }

  /**
    Two nested openers, without props on the last line, are closed by the
    inner closer and then the outer one, each on a new line.
   */
  lemma NestedClosers(markdown: string, l1: string, l2: string, c1: Component, c2: Component)
    requires OpenMatch(Trim(l1)) == Some(c1) && OpenMatch(Trim(l2)) == Some(c2)
    requires c1.markerCount >= 2 && c2.markerCount >= 2
    requires PropsClosing(l2) == []
    ensures CloseComponents(markdown, [l1, l2]) ==
      markdown + "\n" + Run(':', c2.markerCount) + "\n" + Run(':', c1.markerCount)
  {
    NestedOpeners(l1, l2, c1, c2);
    NoPropsClosing(markdown, [l1, l2]);
    TwoClosers(markdown, c1, c2);
  }

  // ---------------------------------------------------------------------
  // The props repair
  // ---------------------------------------------------------------------

  /** No match starts at or before a `}`. */
  lemma NoMatchUpToBrace(line: string, r: int)
    requires 0 <= r < |line| && line[r] == '}'
    ensures forall q :: q <= r ==> !BraceMatchAt(line, q)
  {
    forall q | q <= r ensures !BraceMatchAt(line, q) {
      if 0 <= q < r {
        assert line[r] == '}';
      }
    }
  }

  /** After the last `}`, a match is exactly a `{`. */
  lemma MatchAfterLastBrace(line: string, r: int, q: int)
    requires -1 <= r < q < |line|
    requires forall j :: r < j < |line| ==> line[j] != '}'
    ensures BraceMatchAt(line, q) <==> line[q] == '{'
  {
  }

  /** Past the last `}`, the first `{` is the leftmost match, and with no `{` there is none. */
  lemma FirstOpenAfterLastClose(line: string, r: int, i: nat)
    requires -1 <= r < |line|
    requires forall j :: r < j < |line| ==> line[j] != '}'
    requires r >= 0 ==> line[r] == '}'
    requires r + 1 + i <= |line|
    requires forall j :: r < j < r + 1 + i ==> line[j] != '{'
    requires r + 1 + i < |line| ==> line[r + 1 + i] == '{'
    ensures r + 1 + i < |line| ==> BraceMatchAt(line, r + 1 + i)
    ensures forall q :: q < r + 1 + i ==> !BraceMatchAt(line, q)
  {
    if r >= 0 {
      NoMatchUpToBrace(line, r);
    }
    forall q | r < q < r + 1 + i ensures !BraceMatchAt(line, q) {
      MatchAfterLastBrace(line, r, q);
    }
    if r + 1 + i < |line| {
      MatchAfterLastBrace(line, r, r + 1 + i);
    }
  }

  /** `OpenBrace` stops at `p`: at the match if there is one, at the end of the line otherwise. */
  lemma OpenBraceStop(line: string) returns (p: nat)
    ensures p <= |line|
    ensures OpenBrace(line) == if p == |line| then None else Some(p)
    ensures p < |line| ==> BraceMatchAt(line, p)
    ensures forall q :: q < p ==> !BraceMatchAt(line, q)
  {
    var r := LastIndexOf(line, '}');
    p := IndexFrom(line, '{', r + 1);
    FirstOpenAfterLastClose(line, r, p - (r + 1));
  }

  /** `OpenBrace` is where the regular expression matches: the leftmost `{` with no `}` after it. */
  lemma OpenBraceIsLeftmost(line: string)
    ensures OpenBrace(line).Some? ==>
      BraceMatchAt(line, OpenBrace(line).value) &&
      forall q :: 0 <= q < OpenBrace(line).value ==> !BraceMatchAt(line, q)
    ensures OpenBrace(line).None? ==> forall q :: !BraceMatchAt(line, q)
  {
    var p := OpenBraceStop(line);
    assert forall q :: BraceMatchAt(line, q) ==> q < |line|;
  }

  /** The props closing holds no line break. */
  lemma PropsClosingHasNoBreak(line: string)
    ensures '\n' !in PropsClosing(line)
  {
  }

  /** The quotes of a one-character string. */
  lemma CountCharSingle(x: char, c: char)
    ensures CountChar([x], c) == if x == c then 1 else 0
  {
    assert [x][1..] == [];
  }

  /** The closing holds one of a quote exactly when the props hold an odd number of them, and ends with `}`. */
  lemma QuoteClosingQuotes(props: string)
    ensures var closing := QuoteClosing(props);
      |closing| >= 1 && closing[|closing| - 1] == '}' &&
      CountChar(closing, '"') == (if CountChar(props, '"') % 2 == 1 then 1 else 0) &&
      CountChar(closing, '\'') == (if CountChar(props, '\'') % 2 == 1 then 1 else 0)
  {
    var dq: string := if CountChar(props, '"') % 2 == 1 then "\"" else "";
    var sq: string := if CountChar(props, '\'') % 2 == 1 then "'" else "";
    assert QuoteClosing(props) == dq + (sq + "}");
    CountCharAppend(dq, sq + "}", '"');
    CountCharAppend(sq, "}", '"');
    CountCharAppend(dq, sq + "}", '\'');
    CountCharAppend(sq, "}", '\'');
    CountCharSingle('}', '"');
    CountCharSingle('}', '\'');
    if dq != [] {
      CountCharSingle('"', '"');
      CountCharSingle('"', '\'');
    }
    if sq != [] {
      CountCharSingle('\'', '"');
      CountCharSingle('\'', '\'');
    }
  }

  /** A line ending in `}` has no dangling `{`. */
  lemma ClosedBraceHasNoOpenBrace(line: string)
    requires line != [] && line[|line| - 1] == '}'
    ensures OpenBrace(line).None?
  {
    assert LastIndexOf(line, '}') == |line| - 1;
  }

  /** Anything ending in `}` appended to a line leaves it without a dangling `{`. */
  lemma AppendedBraceCloses(line: string, closing: string)
    requires closing != [] && closing[|closing| - 1] == '}'
    ensures OpenBrace(line + closing).None?
  {
    var fixed := line + closing;
    assert fixed[|fixed| - 1] == '}';
    ClosedBraceHasNoOpenBrace(fixed);
  }

  /** The props text followed by its closing has an even number of each quote. */
  lemma QuoteClosingBalances(props: string)
    ensures CountChar(props + QuoteClosing(props), '"') % 2 == 0
    ensures CountChar(props + QuoteClosing(props), '\'') % 2 == 0
  {
    QuoteClosingQuotes(props);
    CountCharAppend(props, QuoteClosing(props), '"');
    CountCharAppend(props, QuoteClosing(props), '\'');
  }

  /** After the repair the line has no dangling `{`, and the quotes after its brace are balanced. */
  lemma PropsRepaired(line: string)
    requires line != [] && OpenBrace(line).Some?
    ensures OpenBrace(line + PropsClosing(line)).None?
    ensures var props := line[OpenBrace(line).value + 1..] + PropsClosing(line);
      CountChar(props, '"') % 2 == 0 && CountChar(props, '\'') % 2 == 0
  {
    var props := line[OpenBrace(line).value + 1..];
    assert PropsClosing(line) == QuoteClosing(props);
    assert OpenBrace(line + PropsClosing(line)).None? by {
      QuoteClosingQuotes(props);
      AppendedBraceCloses(line, QuoteClosing(props));
    }
    QuoteClosingBalances(props);
  }

  // ---------------------------------------------------------------------
  // The closed text
  // ---------------------------------------------------------------------

  /** Appending a line-break-free closing and then closer lines: the lines grow accordingly. */
  lemma AppendedLines(markdown: string, lines: seq<string>, closing: string, closers: seq<string>)
    requires lines == Split(markdown, '\n')
    requires '\n' !in closing
    requires forall k :: 0 <= k < |closers| ==> '\n' !in closers[k]
    ensures Split(Assembled(markdown, closing, closers), '\n') == lines[|lines| - 1 := lines[|lines| - 1] + closing] + closers
  {
    SplitExtendLast(markdown, closing, '\n');
    if |closers| > 0 {
      SplitAppendLines(markdown + closing, closers, '\n');
    } else {
      assert lines[|lines| - 1 := lines[|lines| - 1] + closing] + closers == lines[|lines| - 1 := lines[|lines| - 1] + closing];
    }
  }

  /**
    The lines of the closed text: the `lines` of the input with the props
    closing on the last one (`updated`), then one line per closer.
   */
  lemma ClosedLines(markdown: string, lines: seq<string>, updated: seq<string>)
    requires lines == Split(markdown, '\n')
    requires updated == lines[|lines| - 1 := lines[|lines| - 1] + PropsClosing(lines[|lines| - 1])]
    ensures Split(CloseComponents(markdown, lines), '\n') == updated + Closers(Unclosed(updated))
  {
    var last := lines[|lines| - 1];
    var closing := PropsClosing(last);
    var closers := Closers(Unclosed(updated));
    PropsClosingHasNoBreak(last);
    ClosersHaveNoBreak(Unclosed(updated));
    assert CloseComponents(markdown, lines) == Assembled(markdown, closing, closers);
    AppendedLines(markdown, lines, closing, closers);
  }

  /** The closed text leaves no component open. */
  lemma ComponentsClosed(markdown: string)
    ensures Unclosed(Split(CloseComponents(markdown, Split(markdown, '\n')), '\n')) == []
  {
    var lines := Split(markdown, '\n');
    var updated := lines[|lines| - 1 := lines[|lines| - 1] + PropsClosing(lines[|lines| - 1])];
    var stack := Unclosed(updated);
    ClosedLines(markdown, lines, updated);
    ScanWellFramed([], updated);
    ScanAppend([], updated, Closers(stack));
    ClosersCloseAll(stack);
  }

  // ---------------------------------------------------------------------
  // The methods
  // ---------------------------------------------------------------------

  /** One pass of the line loop: the opener check pushes, then the closer check pops. */
  method ScanLineStep(stack: seq<Component>, line: string) returns (unclosedStack: seq<Component>)
    ensures unclosedStack == ScanLine(stack, line)
  {
    unclosedStack := stack;
    var trimmed := Trim(line);
    var openMatch := OpenMatch(trimmed);
    if openMatch.Some? && openMatch.value.markerCount >= 2 {
      unclosedStack := unclosedStack + [openMatch.value];
    }
    assert unclosedStack == OpenStep(stack, trimmed);
    if IsColonRun(trimmed) && |trimmed| >= 2 {
      var markerCount := |trimmed|;
      if |unclosedStack| > 0 {
        var last := unclosedStack[|unclosedStack| - 1];
        if last.markerCount == markerCount {
          unclosedStack := unclosedStack[..|unclosedStack| - 1];
        }
      }
    }
  }

  /** The stack loop shared by the closer and the report. */
  method ScanComponents(lines: seq<string>) returns (unclosedStack: seq<Component>)
    ensures unclosedStack == Unclosed(lines)
  {
    unclosedStack := [];
    for i := 0 to |lines|
      invariant unclosedStack == Scan([], lines[..i])
    {
      ScanSnoc(lines, i);
      unclosedStack := ScanLineStep(unclosedStack, lines[i]);
    }
    assert lines[..|lines|] == lines;
  }

  /** The quote balancing and the closing brace for the props text, built up as the code does. */
  method QuoteClosingOf(propsContent: string) returns (closing: string)
    ensures closing == QuoteClosing(propsContent)
  {
    closing := "";
    var doubleQuotes := CountChar(propsContent, '"');
    var singleQuotes := CountChar(propsContent, '\'');
    if doubleQuotes % 2 == 1 {
      closing := closing + "\"";
    }
    ghost var quote := closing;
    if singleQuotes % 2 == 1 {
      closing := closing + "'";
    }
    ghost var quotes := closing;
    closing := closing + "}";
    assert closing == quote + (quotes[|quote|..] + "}");
  }

  /** What the props repair appends to a non-empty last line, computed as the code does. */
  method PropsClosingOf(lastLine: string) returns (closing: string)
    requires lastLine != []
    ensures closing == PropsClosing(lastLine)
  {
    closing := "";
    var openBraceMatch := OpenBrace(lastLine);
    if openBraceMatch.Some? {
      var propsContent := lastLine[openBraceMatch.value + 1..];
      closing := QuoteClosingOf(propsContent);
    }
  }

  /** The props repair: closes a dangling `{...` on the last line, in place, and returns what it appended. */
  method CloseProps(lines: array<string>) returns (closing: string)
    requires lines.Length >= 1
    modifies lines
    ensures closing == PropsClosing(old(lines[lines.Length - 1]))
    ensures lines[..] == old(lines[..])[lines.Length - 1 := old(lines[lines.Length - 1]) + closing]
  {
    closing := "";
    var lastLine := lines[lines.Length - 1];
    if lastLine != [] {
      closing := PropsClosingOf(lastLine);
      if closing != "" {
        lines[lines.Length - 1] := lastLine + closing;
      }
    }
    if closing == "" {
      assert lastLine + closing == lastLine;
      assert lines[..] == old(lines[..])[lines.Length - 1 := lastLine];
    }
  }

  /** Drains the stack, innermost component first, into its closers. */
  method DrainClosers(stack: seq<Component>) returns (closers: seq<string>)
    ensures closers == Closers(stack)
  {
    var unclosedStack := stack;
    closers := [];
    while |unclosedStack| > 0
      invariant closers + Closers(unclosedStack) == Closers(stack)
      decreases |unclosedStack|
    {
      var component := unclosedStack[|unclosedStack| - 1];
      assert Closers(unclosedStack) == [Run(':', component.markerCount)] + Closers(unclosedStack[..|unclosedStack| - 1]);
      unclosedStack := unclosedStack[..|unclosedStack| - 1];
      closers := closers + [Run(':', component.markerCount)];
    }
  }

  /**
    `autoCloseMDCComponents`: repairs the props block of the last line in
    place, scans the lines, then drains the stack into closers.
   */
  method AutoCloseMDCComponents(markdown: string, lines: array<string>) returns (result: string)
    requires lines.Length >= 1
    modifies lines
    ensures result == CloseComponents(markdown, old(lines[..]))
    ensures lines[..] == old(lines[..])[lines.Length - 1 := old(lines[lines.Length - 1]) + PropsClosing(old(lines[lines.Length - 1]))]
  {
    ghost var original := lines[..];
    var closing := CloseProps(lines);
    var current := lines[..];
    var unclosedStack := ScanComponents(current);
    var closers := DrainClosers(unclosedStack);
    CloseComponentsParts(markdown, original, closing, closers);
    result := markdown + closing;
    if |closers| > 0 {
      result := result + "\n" + Join(closers, "\n");
    }
  }
}
