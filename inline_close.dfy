/**
  Closing of inline markup on the last line of a partial buffer
  (`autoCloseInlineSyntax`). The markers bold+italic `***`, bold `**`,
  strikethrough `~~`, code `` ` `` and italic `*` are tried in that order and
  the first one that fires appends its closer; nothing else is appended.
 */
module InlineClose {
  import opened Wrappers
  import opened Strings

  /** The five inline markers. */
  datatype Marker = BoldItalic | Bold | Strikethrough | Code | Italic {
    /** The marker as it is written. */
    function Text(): string {
      match this
      case BoldItalic => "***"
      case Bold => "**"
      case Strikethrough => "~~"
      case Code => "`"
      case Italic => "*"
    }

    /** The marker is written with `*`. */
    predicate IsAsterisk() {
      BoldItalic? || Bold? || Italic?
    }
  }

  /** The markers in the order they are tried. */
  const Markers: seq<Marker> := [BoldItalic, Bold, Strikethrough, Code, Italic]

  /** What is appended, and whether the buffer first loses its trailing white space. */
  datatype Fix = Fix(suffix: string, trimTrailing: bool)

  /** `/\s+$/`. */
  predicate HasTrailingWhitespace(line: string) {
    |line| > 0 && IsSpace(line[|line| - 1])
  }

  /** `/\*+$/` tested on the line without its trailing white space. */
  predicate EndsWithAsterisks(line: string) {
    var t := TrimEnd(line);
    |t| > 0 && t[|t| - 1] == '*'
  }

  /** `^\*{n,}`: the line opens with at least `n` asterisks. */
  predicate StartsWithStars(line: string, n: nat) {
    StarsAt(line, 0, n)
  }

  /** A run of `n` asterisks starts at `i`. */
  predicate StarsAt(line: string, i: int, n: nat) {
    0 <= i && i + n <= |line| && forall k :: i <= k < i + n ==> line[k] == '*'
  }

  /** No asterisk in `line[lo..hi]`. */
  predicate NoStarBetween(line: string, lo: int, hi: int) {
    forall k :: lo <= k < hi && 0 <= k < |line| ==> line[k] != '*'
  }

  /**
    `marker[^*]+marker` for the marker of `n` asterisks: two runs of `n`
    asterisks with at least one character, and no asterisk, between them.
   */
  predicate HasCompletePair(line: string, n: nat) {
    exists i, j | 0 <= i < j <= |line| ::
      i + n < j && StarsAt(line, i, n) && NoStarBetween(line, i + n, j) && StarsAt(line, j, n)
  }

  /** The italic probe: there is a `*` and the last one is followed by a visible character or ends the line. */
  predicate ItalicProbe(line: string) {
    var k := LastIndexOf(line, '*');
    k >= 0 && (k + 1 == |line| || !IsSpace(line[k + 1]))
  }

  /** Whether the probe of `marker` matches the line. */
  predicate Probe(line: string, marker: Marker) {
    if marker == Italic then ItalicProbe(line) else Contains(line, marker.Text())
  }

  /** `count % (markerLen * 2)` for an asterisk marker: what is left over after whole open/close pairs. */
  function Remainder(count: nat, marker: Marker): (r: nat)
    requires marker.IsAsterisk()
    ensures r < |marker.Text()| * 2
  {
    match marker
    case BoldItalic => count % 6
    case Bold => count % 4
    case Italic => count % 2
  }

  /** `Remainder` is the count modulo twice the marker length. */
  lemma RemainderIsModulo(count: nat, marker: Marker)
    requires marker.IsAsterisk()
    ensures Remainder(count, marker) == count % (|marker.Text()| * 2)
  {
  }

  /** The decision for an asterisk marker, from the remainder of the asterisk count modulo twice its length. */
  function AsteriskFix(line: string, marker: Marker): Option<Fix>
    requires marker.IsAsterisk()
  {
    var markerLen := |marker.Text()|;
    var remainder := Remainder(CountChar(line, '*'), marker);
    if remainder == 0 then None
    else if remainder == markerLen then OpenMarkerFix(line, marker)
    else if EndsWithAsterisks(line) && markerLen < remainder < markerLen * 2 then
      Some(Fix(Run('*', markerLen * 2 - remainder), HasTrailingWhitespace(line)))
    else None
  }

  /**
    An odd number of whole markers: skipped when the line opens with a longer
    asterisk run, or holds a complete pair and does not end in `*`; else closed.
   */
  function OpenMarkerFix(line: string, marker: Marker): Option<Fix>
    requires marker.IsAsterisk()
  {
    var markerLen := |marker.Text()|;
    if StartsWithStars(line, markerLen + 1) then None
    else if HasCompletePair(line, markerLen) && !EndsWithAsterisks(line) then None
    else Some(Fix(marker.Text(), HasTrailingWhitespace(line)))
  }

  /** The decision for one marker: `None` lets the next marker be tried. */
  function MarkerFix(line: string, marker: Marker): Option<Fix> {
    if !Probe(line, marker) then None
    else if marker.IsAsterisk() then AsteriskFix(line, marker)
    else if Occurrences(line, marker.Text()) % 2 == 1 then
      Some(Fix(marker.Text(), marker != Code && HasTrailingWhitespace(line)))
    else None
  }

  /** The decision of the first marker from position `k` on that fires. */
  function FirstFix(line: string, k: nat): Option<Fix>
    requires k <= |Markers|
    decreases |Markers| - k
  {
    if k == |Markers| then None
    else
      match MarkerFix(line, Markers[k])
      case Some(f) => Some(f)
      case None => FirstFix(line, k + 1)
  }

  function InlineFix(line: string): Option<Fix> {
    FirstFix(line, 0)
  }

  /** The buffer after closing the inline markup of its last line `lastLine`. */
  function CloseInline(markdown: string, lastLine: string): string {
    match InlineFix(lastLine)
    case None => markdown
    case Some(f) => (if f.trimTrailing then TrimEnd(markdown) else markdown) + f.suffix
  }

  /** The trimmed last line is the line itself when it has no trailing white space. */
  lemma TrimmedLastLine(line: string)
    ensures (if HasTrailingWhitespace(line) then TrimEnd(line) else line) == TrimEnd(line)
  {
  }

  /**
    The asterisk branch of the marker loop: an empty `closing` is a
    `continue` (or a fall-through) to the next marker, anything else the
    closer to append before the loop breaks.
   */
  method AsteriskDecision(lastLine: string, trimmedLastLine: string, hasTrailingWhitespace: bool, marker: Marker)
    returns (closing: string, trim: bool)
    requires marker.IsAsterisk()
    requires hasTrailingWhitespace == HasTrailingWhitespace(lastLine)
    requires trimmedLastLine == if hasTrailingWhitespace then TrimEnd(lastLine) else lastLine
    ensures AsteriskFix(lastLine, marker) == if closing == "" then None else Some(Fix(closing, trim))
  {
    var markerLen := |marker.Text()|;
    TrimmedLastLine(lastLine);
    var endsWithAsterisks := |trimmedLastLine| > 0 && trimmedLastLine[|trimmedLastLine| - 1] == '*';
    var asteriskCount := CountChar(lastLine, '*');
    var remainder := Remainder(asteriskCount, marker);
    closing, trim := "", false;
    if remainder == 0 {
      return;
    }
    if remainder == markerLen {
      closing, trim := OpenMarkerDecision(lastLine, endsWithAsterisks, hasTrailingWhitespace, marker);
    } else if endsWithAsterisks && markerLen < remainder < markerLen * 2 {
      var needed := markerLen * 2 - remainder;
      if hasTrailingWhitespace {
        trim := true;
      }
      closing := Run('*', needed);
      assert |closing| > 0;
    }
  }

  /** The branch for an odd number of whole markers; an empty `closing` falls through to the next marker. */
  method OpenMarkerDecision(lastLine: string, endsWithAsterisks: bool, hasTrailingWhitespace: bool, marker: Marker)
    returns (closing: string, trim: bool)
    requires marker.IsAsterisk()
    requires endsWithAsterisks == EndsWithAsterisks(lastLine)
    requires hasTrailingWhitespace == HasTrailingWhitespace(lastLine)
    ensures OpenMarkerFix(lastLine, marker) == if closing == "" then None else Some(Fix(closing, trim))
  {
    var markerLen := |marker.Text()|;
    closing, trim := "", false;
    if StartsWithStars(lastLine, markerLen + 1) {
      return;
    }
    var hasCompletePair := HasCompletePair(lastLine, markerLen);
    if hasCompletePair && !endsWithAsterisks {
      return;
    }
    if hasTrailingWhitespace {
      trim := true;
    }
    closing := marker.Text();
  }

  /** `autoCloseInlineSyntax`: the marker loop with its early exits. */
  method AutoCloseInlineSyntax(markdown: string, lastLine: string) returns (result: string)
    ensures result == CloseInline(markdown, lastLine)
  {
    var closingSuffix := "";
    var trimTrailing := false;
    var hasTrailingWhitespace := HasTrailingWhitespace(lastLine);
    var trimmedLastLine := if hasTrailingWhitespace then TrimEnd(lastLine) else lastLine;
    for i := 0 to |Markers|
      invariant closingSuffix == "" && !trimTrailing
      invariant InlineFix(lastLine) == FirstFix(lastLine, i)
    {
      var marker := Markers[i];
      if Probe(lastLine, marker) {
        if marker.IsAsterisk() {
          var closing, trim := AsteriskDecision(lastLine, trimmedLastLine, hasTrailingWhitespace, marker);
          if closing == "" {
            continue;
          }
          closingSuffix, trimTrailing := closing, trim;
          break;
        } else {
          var count := Occurrences(lastLine, marker.Text());
          if count % 2 == 1 {
            if marker != Code && hasTrailingWhitespace {
              trimTrailing := true;
            }
            closingSuffix := marker.Text();
            break;
          }
        }
      }
    }
    if closingSuffix != "" && trimTrailing {
      return TrimEnd(markdown) + closingSuffix;
    }
    return markdown + closingSuffix;
  }

  // ---------------------------------------------------------------------
  // The probes read as regular expressions
  // ---------------------------------------------------------------------

  /**
    The probes of `***`, `**`, `~~` and `` ` `` as regular expressions: the
    marker occurs, and the rest of the line after that occurrence does not
    hold the marker again (the repeated group or class after it).
   */
  ghost predicate OpenMarkerAtEnd(line: string, marker: string) {
    exists p :: OccursAt(line, marker, p) && !Contains(line[p + |marker|..], marker)
  }

  /** The italic probe as a regular expression: a `*` not followed by white space, with no `*` after it. */
  ghost predicate OpenItalicAtEnd(line: string) {
    exists p :: OccursAt(line, "*", p) && (p + 1 == |line| || !IsSpace(line[p + 1])) &&
      !Contains(line[p + 1..], "*")
  }

  /** From any occurrence, a last occurrence is reached. */
  lemma {:induction false} LastOccurrence(s: string, p: string, i: int)
    requires |p| > 0 && OccursAt(s, p, i)
    ensures OpenMarkerAtEnd(s, p)
    decreases |s| - i
  {
    if Contains(s[i + |p|..], p) {
      var rest := s[i + |p|..];
      ContainsAt(rest, p);
      var j :| OccursAt(rest, p, j);
      assert forall m :: i + |p| + j <= m < i + |p| + j + |p| ==> s[m] == rest[m - i - |p|];
      assert OccursAt(s, p, i + |p| + j);
      LastOccurrence(s, p, i + |p| + j);
    }
  }

  /** The probes of the four non-italic markers hold exactly when the line contains the marker. */
  lemma ProbeIsOpenMarker(line: string, marker: Marker)
    requires marker != Italic
    ensures Probe(line, marker) <==> OpenMarkerAtEnd(line, marker.Text())
    ensures Probe(line, marker) <==> Contains(line, marker.Text())
  {
    var m := marker.Text();
    ContainsAt(line, m);
    if Contains(line, m) {
      var p :| OccursAt(line, m, p);
      LastOccurrence(line, m, p);
    }
  }

  /** A line passing the italic probe has an italic opener with no `*` after it. */
  lemma ItalicProbeOpens(line: string)
    requires ItalicProbe(line)
    ensures OpenItalicAtEnd(line)
  {
    var k := LastIndexOf(line, '*');
    assert line[k..k + 1] == "*";
    assert OccursAt(line, "*", k);
    NoHeadNoContains(line[k + 1..], "*");
  }

  /** An italic opener with no `*` after it is the last `*` of the line. */
  lemma OpenItalicIsLast(line: string, p: int)
    requires OccursAt(line, "*", p) && !Contains(line[p + 1..], "*")
    ensures LastIndexOf(line, '*') == p
  {
    var k := LastIndexOf(line, '*');
    assert line[p] == line[p..p + 1][0];
    if k > p {
      assert line[p + 1..][k - p - 1..k - p] == "*";
      assert OccursAt(line[p + 1..], "*", k - p - 1);
      ContainsAt(line[p + 1..], "*");
    }
  }

  /** The italic probe holds exactly when the last `*` is not followed by white space. */
  lemma ItalicProbeIsOpenItalic(line: string)
    ensures Probe(line, Italic) <==> OpenItalicAtEnd(line)
  {
    if ItalicProbe(line) {
      ItalicProbeOpens(line);
    }
    if OpenItalicAtEnd(line) {
      var p :| OccursAt(line, "*", p) && (p + 1 == |line| || !IsSpace(line[p + 1])) &&
        !Contains(line[p + 1..], "*");
      OpenItalicIsLast(line, p);
    }
  }

  // ---------------------------------------------------------------------
  // What a closer looks like
  // ---------------------------------------------------------------------

  lemma RunOfStars()
    ensures Run('*', 1) == "*" && Run('*', 2) == "**" && Run('*', 3) == "***"
  {
    assert Run('*', 1)[0] == '*';
    assert Run('*', 2)[1] == '*';
    assert Run('*', 3)[2] == '*';
  }

  /** An asterisk closer is `***`, `**` or `*`, and trims exactly when the line ends in white space. */
  lemma AsteriskFixShape(line: string, marker: Marker)
    requires marker.IsAsterisk()
    ensures AsteriskFix(line, marker).Some? ==>
      var f := AsteriskFix(line, marker).value;
      f.suffix in ["***", "**", "*"] && f.trimTrailing == HasTrailingWhitespace(line)
  {
    if AsteriskFix(line, marker).Some? {
      var f := AsteriskFix(line, marker).value;
      AsteriskFixSuffix(line, marker);
      AsteriskFixRun(line, marker);
      assert 1 <= |f.suffix| <= 3;
      RunOfStars();
    }
  }

  /** The closer one marker asks for: one of the markers, trimming only when it is not a backtick. */
  lemma MarkerFixShape(line: string, marker: Marker)
    ensures MarkerFix(line, marker).Some? ==>
      var f := MarkerFix(line, marker).value;
      f.suffix in ["***", "**", "~~", "`", "*"] &&
      f.trimTrailing == (HasTrailingWhitespace(line) && f.suffix != "`")
  {
    if marker.IsAsterisk() {
      AsteriskFixShape(line, marker);
    }
  }

  /**
    A closer is one of the markers; only a non-code closer trims, and it
    trims exactly when the line ends in white space.
   */
  lemma {:induction false} FixShape(line: string, k: nat)
    requires k <= |Markers|
    ensures FirstFix(line, k).Some? ==>
      var f := FirstFix(line, k).value;
      f.suffix in ["***", "**", "~~", "`", "*"] &&
      f.trimTrailing == (HasTrailingWhitespace(line) && f.suffix != "`")
    decreases |Markers| - k
  {
    if k < |Markers| {
      MarkerFixShape(line, Markers[k]);
      FixShape(line, k + 1);
    }
  }

  /** The first marker that fires decides; no later marker is consulted. */
  lemma {:induction false} FirstFiringWins(line: string, k: nat)
    requires k <= |Markers|
    ensures FirstFix(line, k).None? <==> forall j :: k <= j < |Markers| ==> MarkerFix(line, Markers[j]).None?
    ensures FirstFix(line, k).Some? ==>
      exists j :: k <= j < |Markers| && MarkerFix(line, Markers[j]) == FirstFix(line, k) &&
        forall i :: k <= i < j ==> MarkerFix(line, Markers[i]).None?
    decreases |Markers| - k
  {
    if k < |Markers| {
      FirstFiringWins(line, k + 1);
      if MarkerFix(line, Markers[k]).None? && FirstFix(line, k + 1).Some? {
        var j :| k + 1 <= j < |Markers| && MarkerFix(line, Markers[j]) == FirstFix(line, k + 1) &&
          forall i :: k + 1 <= i < j ==> MarkerFix(line, Markers[i]).None?;
        assert forall i :: k <= i < j ==> MarkerFix(line, Markers[i]).None?;
      }
    }
  }

  // ---------------------------------------------------------------------
  // The closed line is balanced
  // ---------------------------------------------------------------------

  /** The last line as it ends up once `f` is applied. */
  function ClosedLine(line: string, f: Fix): string {
    (if f.trimTrailing then TrimEnd(line) else line) + f.suffix
  }

  /** An asterisk closer is the marker itself for a lone opener, or the `2L - r` asterisks a partial closer lacks. */
  lemma AsteriskFixSuffix(line: string, marker: Marker)
    requires marker.IsAsterisk()
    ensures AsteriskFix(line, marker).Some? ==>
      var f := AsteriskFix(line, marker).value;
      var L := |marker.Text()|;
      var r := Remainder(CountChar(line, '*'), marker);
      f.trimTrailing == HasTrailingWhitespace(line) &&
      ((r == L && f.suffix == marker.Text() && !StartsWithStars(line, L + 1)) ||
       (L < r < L * 2 && f.suffix == Run('*', L * 2 - r) && EndsWithAsterisks(line)))
  {
    var L := |marker.Text()|;
    var r := Remainder(CountChar(line, '*'), marker);
    if r == L {
      assert AsteriskFix(line, marker).Some? ==>
        AsteriskFix(line, marker) == Some(Fix(marker.Text(), HasTrailingWhitespace(line)));
    } else if EndsWithAsterisks(line) && L < r < L * 2 {
      assert AsteriskFix(line, marker) == Some(Fix(Run('*', L * 2 - r), HasTrailingWhitespace(line)));
    } else {
      assert AsteriskFix(line, marker) == None;
    }
  }

  /** An asterisk closer is a run of asterisks of the length the remainder asks for. */
  lemma AsteriskFixRun(line: string, marker: Marker)
    requires marker.IsAsterisk()
    ensures AsteriskFix(line, marker).Some? ==>
      var n := |AsteriskFix(line, marker).value.suffix|;
      var L := |marker.Text()|;
      var r := Remainder(CountChar(line, '*'), marker);
      AsteriskFix(line, marker).value.suffix == Run('*', n) &&
      ((r == L && n == L) || (L < r < L * 2 && n == L * 2 - r))
  {
    AsteriskFixSuffix(line, marker);
    RunOfStars();
  }

  /** The asterisks of the closed line: those of the line, plus those of the closer. */
  lemma ClosedLineStars(line: string, f: Fix)
    requires f.suffix == Run('*', |f.suffix|)
    ensures CountChar(ClosedLine(line, f), '*') == CountChar(line, '*') + |f.suffix|
  {
    var base := if f.trimTrailing then TrimEnd(line) else line;
    TrimEndKeepsCount(line, '*');
    CountCharAppend(base, f.suffix, '*');
    RunCount('*', |f.suffix|);
  }

  /**
    When an asterisk marker of length `L` fires, the asterisk count of the
    closed line is a multiple of `2L`.
   */
  lemma AsteriskFixBalances(line: string, marker: Marker)
    requires marker.IsAsterisk()
    ensures AsteriskFix(line, marker).Some? ==>
      Remainder(CountChar(ClosedLine(line, AsteriskFix(line, marker).value), '*'), marker) == 0
  {
    if AsteriskFix(line, marker).Some? {
      var f := AsteriskFix(line, marker).value;
      AsteriskFixRun(line, marker);
      ClosedLineStars(line, f);
      StarBalance(CountChar(line, '*'), marker, |f.suffix|);
    }
  }

  /** Adding the marker to a lone opener, or the missing asterisks to a partial closer, completes the pairs. */
  lemma StarBalance(count: nat, marker: Marker, n: nat)
    requires marker.IsAsterisk()
    requires var L := |marker.Text()|; var r := Remainder(count, marker);
      (r == L && n == L) || (L < r < L * 2 && n == L * 2 - r)
    ensures Remainder(count + n, marker) == 0
  {
  }

  lemma {:induction false} OccurrencesAppendTildes(s: string)
    ensures Occurrences(s + "~~", "~~") == Occurrences(s, "~~") + 1
    decreases |s|
  {
    var t := s + "~~";
    if |s| == 0 {
      assert t[2..] == "";
    } else if |s| == 1 {
      if s[0] == '~' {
        assert t[..2] == "~~" && t[2..] == "~";
      } else {
        assert t[..2][0] == s[0];
        assert t[1..] == "~~";
        assert t[1..][2..] == "";
      }
    } else if s[..2] == "~~" {
      assert t[..2] == s[..2] && t[2..] == s[2..] + "~~";
      OccurrencesAppendTildes(s[2..]);
    } else {
      assert t[..2] == s[..2] && t[1..] == s[1..] + "~~";
      OccurrencesAppendTildes(s[1..]);
    }
  }

  lemma {:induction false} OccurrencesNoTilde(w: string)
    requires forall k :: 0 <= k < |w| ==> w[k] != '~'
    ensures Occurrences(w, "~~") == 0
    decreases |w|
  {
    if |w| >= 2 {
      assert w[..2][0] != '~';
      OccurrencesNoTilde(w[1..]);
    }
  }

  /** Text without `~` appended after a line does not change its `~~` count. */
  lemma {:induction false} OccurrencesTildeFreeTail(s: string, w: string)
    requires forall k :: 0 <= k < |w| ==> w[k] != '~'
    ensures Occurrences(s + w, "~~") == Occurrences(s, "~~")
    decreases |s|
  {
    var t := s + w;
    if |s| == 0 {
      assert t == w;
      OccurrencesNoTilde(w);
    } else if |s| == 1 {
      assert t[1..] == w;
      OccurrencesNoTilde(w);
      if |t| >= 2 {
        assert t[..2][1] == w[0];
      }
    } else if s[..2] == "~~" {
      assert t[..2] == s[..2] && t[2..] == s[2..] + w;
      OccurrencesTildeFreeTail(s[2..], w);
    } else {
      assert t[..2] == s[..2] && t[1..] == s[1..] + w;
      OccurrencesTildeFreeTail(s[1..], w);
    }
  }

  lemma {:induction false} OccurrencesAppendChar(s: string, c: char)
    ensures Occurrences(s + [c], [c]) == Occurrences(s, [c]) + 1
    decreases |s|
  {
    var t := s + [c];
    if s == [] {
      assert t[1..] == [];
    } else if s[..1] == [c] {
      assert t[..1] == s[..1] && t[1..] == s[1..] + [c];
      OccurrencesAppendChar(s[1..], c);
    } else {
      assert t[..1] == s[..1] && t[1..] == s[1..] + [c];
      OccurrencesAppendChar(s[1..], c);
    }
  }

  /** Trailing white space holds no `~`, so trimming it keeps the `~~` count. */
  lemma TrimEndKeepsTildes(line: string)
    ensures Occurrences(TrimEnd(line), "~~") == Occurrences(line, "~~")
  {
    TrimEndSpec(line);
    var tail := line[|TrimEnd(line)|..];
    assert line == TrimEnd(line) + tail;
    assert forall k :: 0 <= k < |tail| ==> IsSpace(tail[k]);
    OccurrencesTildeFreeTail(TrimEnd(line), tail);
  }

  lemma TildeFixShape(line: string)
    ensures MarkerFix(line, Strikethrough).Some? ==>
      MarkerFix(line, Strikethrough) == Some(Fix("~~", HasTrailingWhitespace(line))) &&
      Occurrences(line, "~~") % 2 == 1
  {
  }

  /** Appending `~~` to a line with an odd `~~` count, trimmed or not, makes the count even. */
  lemma TildeClosedBalances(line: string, trim: bool)
    requires Occurrences(line, "~~") % 2 == 1
    ensures Occurrences(ClosedLine(line, Fix("~~", trim)), "~~") % 2 == 0
  {
    var base := if trim then TrimEnd(line) else line;
    assert ClosedLine(line, Fix("~~", trim)) == base + "~~";
    TrimEndKeepsTildes(line);
    OccurrencesAppendTildes(base);
  }

  /** A `~~` closer makes the `~~` count of the closed line even. */
  lemma TildeFixBalances(line: string)
    ensures MarkerFix(line, Strikethrough).Some? ==>
      Occurrences(ClosedLine(line, MarkerFix(line, Strikethrough).value), "~~") % 2 == 0
  {
    if MarkerFix(line, Strikethrough).Some? {
      TildeFixShape(line);
      TildeClosedBalances(line, HasTrailingWhitespace(line));
    }
  }

  /** A backtick closer keeps trailing white space and makes the backtick count even. */
  lemma CodeFixBalances(line: string)
    ensures MarkerFix(line, Code).Some? ==>
      var closed := ClosedLine(line, MarkerFix(line, Code).value);
      closed == line + "`" && Occurrences(closed, "`") % 2 == 0
  {
    if MarkerFix(line, Code).Some? {
      OccurrencesAppendChar(line, '`');
    }
  }

  // ---------------------------------------------------------------------
  // Examples
  // ---------------------------------------------------------------------

  /** No run of asterisks starts at or after `k`. */
  lemma NoStarsFrom(line: string, k: nat)
    requires forall j :: k <= j < |line| ==> line[j] != '*'
    ensures forall j, n :: k <= j && n > 0 ==> !StarsAt(line, j, n)
  {
    forall j, n | k <= j && n > 0 ensures !StarsAt(line, j, n) {
      if j + n <= |line| {
        assert line[j..j + n][0] == line[j];
      }
    }
  }

  /** The facts about a lone opener that every asterisk probe reads. */
  lemma LoneOpenerFacts(a: string, L: nat)
    requires 1 <= L <= 3
    requires '*' !in a && '~' !in a && '`' !in a
    ensures var line := Run('*', L) + a;
      CountChar(line, '*') == L && !HasCompletePair(line, L) && !StartsWithStars(line, L + 1) &&
      Contains(line, Run('*', L)) && !Contains(line, "~~") && !Contains(line, "`") &&
      forall j :: L <= j < |line| ==> line[j] != '*'
  {
    var line := Run('*', L) + a;
    var marker := Run('*', L);
    assert forall j :: L <= j < |line| ==> line[j] == a[j - L];
    CountCharAppend(marker, a, '*');
    RunCount('*', L);
    CountCharAbsent(a, '*');
    NoStarsFrom(line, L);
    assert !StartsWithStars(line, L + 1) by {
      if |line| >= L + 1 {
        assert line[..L + 1][L] == line[L];
      }
    }
    NoHeadNoContains(line, "~~");
    NoHeadNoContains(line, "`");
    assert line[..L] == marker;
    assert OccursAt(line, marker, 0);
    ContainsAt(line, marker);
  }

  /** `*italic`: an opened italic run is closed with `*`. */
  lemma OpenItalicCloses(a: string)
    requires '*' !in a && '~' !in a && '`' !in a
    requires a == [] || !IsSpace(a[0])
    ensures InlineFix("*" + a) == Some(Fix("*", HasTrailingWhitespace("*" + a)))
  {
    RunOfStars();
    LoneOpenerFacts(a, 1);
    var line := "*" + a;
    assert LastIndexOf(line, '*') == 0;
    NoOccurrence(line, "***", 1);
    NoOccurrence(line, "**", 1);
    assert FirstFix(line, 4) == MarkerFix(line, Italic);
    assert FirstFix(line, 2) == FirstFix(line, 4);
  }

  /** `**bold`: an opened bold run is closed with `**`. */
  lemma OpenBoldCloses(a: string)
    requires '*' !in a && '~' !in a && '`' !in a
    ensures InlineFix("**" + a) == Some(Fix("**", HasTrailingWhitespace("**" + a)))
  {
    RunOfStars();
    LoneOpenerFacts(a, 2);
    var line := "**" + a;
    NoOccurrence(line, "***", 2);
    assert FirstFix(line, 1) == MarkerFix(line, Bold);
  }

  /** `***both`: an opened bold italic run is closed with `***`. */
  lemma OpenBoldItalicCloses(a: string)
    requires '*' !in a && '~' !in a && '`' !in a
    ensures InlineFix("***" + a) == Some(Fix("***", HasTrailingWhitespace("***" + a)))
  {
    RunOfStars();
    LoneOpenerFacts(a, 3);
    var line := "***" + a;
    assert Remainder(CountChar(line, '*'), BoldItalic) == 3;
    assert FirstFix(line, 0) == MarkerFix(line, BoldItalic);
  }

  /** A line that opens with two asterisks never gets an italic closer. */
  lemma LeadingRunBlocksItalic(line: string)
    requires StartsWithStars(line, 2)
    ensures MarkerFix(line, Italic) == None
  {
  }

  /** When no marker fires, nothing is appended. */
  lemma NoMarkerFires(line: string)
    requires MarkerFix(line, BoldItalic).None? && MarkerFix(line, Bold).None? &&
      MarkerFix(line, Strikethrough).None? && MarkerFix(line, Code).None? && MarkerFix(line, Italic).None?
    ensures InlineFix(line) == None
  {
    assert FirstFix(line, 4) == None;
    assert FirstFix(line, 3) == None;
    assert FirstFix(line, 2) == None;
    assert FirstFix(line, 1) == None;
  }

  /** A line without `*`, `~` or a backtick gets no inline closer. */
  lemma NoMarkerCharacters(line: string)
    requires '*' !in line && '~' !in line && '`' !in line
    ensures InlineFix(line) == None
  {
    NoHeadNoContains(line, "***");
    NoHeadNoContains(line, "**");
    NoHeadNoContains(line, "~~");
    NoHeadNoContains(line, "`");
    LastIndexOfAbsent(line, '*');
    NoMarkerFires(line);
  }

  lemma OddCountRemainders(count: nat)
    requires count % 2 == 1 && count % 3 != 0
    ensures count % 6 == 1 || count % 6 == 5
    ensures count % 4 == 1 || count % 4 == 3
  {
  }

  /**
    A line that opens with `**`, does not end in `*`, holds no `~~` and no
    backtick, and whose asterisk count is odd and not a multiple of 3 gets
    no closer at all, even when its last asterisk opens an italic run: the
    remainders rule out `***` and `**`, and the leading run rules out `*`.
   */
  lemma LeadingBoldBlocksOpenItalic(line: string)
    requires StartsWithStars(line, 2) && !EndsWithAsterisks(line)
    requires CountChar(line, '*') % 2 == 1 && CountChar(line, '*') % 3 != 0
    requires !Contains(line, "~~") && !Contains(line, "`")
    ensures InlineFix(line) == None
  {
    OddCountRemainders(CountChar(line, '*'));
    assert MarkerFix(line, BoldItalic).None? by {
      AsteriskFixSuffix(line, BoldItalic);
    }
    assert MarkerFix(line, Bold).None? by {
      AsteriskFixSuffix(line, Bold);
    }
    LeadingRunBlocksItalic(line);
    NoMarkerFires(line);
  }

  /** The line `**a** and *b` holds exactly five asterisks when `a` and `b` hold none. */
  /** A star-free text behind `n` asterisks holds exactly `n` asterisks. */
  lemma StarsThenText(n: nat, a: string)
    requires '*' !in a
    ensures CountChar(Run('*', n) + a, '*') == n
  {
    CountCharAppend(Run('*', n), a, '*');
    RunCount('*', n);
    CountCharAbsent(a, '*');
  }

  /** The line `**a**c*b` holds exactly five asterisks when `a`, `c` and `b` hold none. */
  lemma ClosedBoldThenOpenItalicCount(a: string, c: string, b: string)
    requires '*' !in a && '*' !in c && '*' !in b
    ensures CountChar("**" + a + "**" + c + "*" + b, '*') == 5
  {
    RunOfStars();
    StarsThenText(2, a);
    StarsThenText(2, c);
    StarsThenText(1, b);
    var p1, p2, p3 := "**" + a, "**" + c, "*" + b;
    assert "**" + a + "**" + c + "*" + b == p1 + p2 + p3;
    CountCharAppend(p1, p2, '*');
    CountCharAppend(p1 + p2, p3, '*');
  }

  /** The line `**a**c*b` opens with `**`, ends in the last letter of `b` and holds no `~` or backtick. */
  lemma ClosedBoldThenOpenItalicShape(a: string, c: string, b: string)
    requires '~' !in a && '`' !in a && '~' !in c && '`' !in c
    requires '*' !in b && '~' !in b && '`' !in b
    requires b != [] && !IsSpace(b[|b| - 1])
    ensures var line := "**" + a + "**" + c + "*" + b;
      StartsWithStars(line, 2) && !EndsWithAsterisks(line) && '~' !in line && '`' !in line
  {
    var line := "**" + a + "**" + c + "*" + b;
    assert '~' !in "**" && '`' !in "**" && '~' !in "*" && '`' !in "*";
    assert '~' !in line && '`' !in line;
    assert line[0] == '*' && line[1] == '*';
    assert line[|line| - 1] == b[|b| - 1];
    assert TrimEnd(line) == line;
    assert b[|b| - 1] in b;
  }

  /**
    `**a** and *b` and every line like it (`**a**c*b`): a closed bold run
    followed by an opened italic run gets no closer, because the line opens
    with two asterisks.
   */
  lemma ClosedBoldThenOpenItalic(a: string, c: string, b: string)
    requires '*' !in a && '~' !in a && '`' !in a
    requires '*' !in c && '~' !in c && '`' !in c
    requires '*' !in b && '~' !in b && '`' !in b
    requires b != [] && !IsSpace(b[|b| - 1])
    ensures InlineFix("**" + a + "**" + c + "*" + b) == None
  {
    var line := "**" + a + "**" + c + "*" + b;
    ClosedBoldThenOpenItalicCount(a, c, b);
    ClosedBoldThenOpenItalicShape(a, c, b);
    NoHeadNoContains(line, "~~");
    NoHeadNoContains(line, "`");
    LeadingBoldBlocksOpenItalic(line);
  }

  // ---------------------------------------------------------------------
  // Only a line with a marker on it is closed
  // ---------------------------------------------------------------------

  /** A probe matches only a line that holds a visible character: the marker's own. */
  lemma ProbeVisible(line: string, marker: Marker)
    requires Probe(line, marker)
    ensures !Blank(line)
  {
    if marker == Italic {
      var k := LastIndexOf(line, '*');
      assert !IsSpace(line[k]);
    } else {
      var m := marker.Text();
      ContainsAt(line, m);
      var p :| OccursAt(line, m, p);
      assert line[p] == m[0];
    }
  }

  /** A marker fires only on a line that is not all white space. */
  lemma MarkerFixVisible(line: string, marker: Marker)
    requires MarkerFix(line, marker).Some?
    ensures !Blank(line)
  {
    ProbeVisible(line, marker);
  }

  /** A closer is appended only to a line that is not all white space. */
  lemma {:induction false} FirstFixVisible(line: string, k: nat)
    requires k <= |Markers|
    requires FirstFix(line, k).Some?
    ensures !Blank(line)
    decreases |Markers| - k
  {
    if MarkerFix(line, Markers[k]).Some? {
      MarkerFixVisible(line, Markers[k]);
    } else {
      FirstFixVisible(line, k + 1);
    }
  }

  // ---------------------------------------------------------------------
  // An opener at the very end of the line
  // ---------------------------------------------------------------------

  /** The facts about `a *` that the closer's decisions read. */
  lemma TrailingStarFacts()
    ensures !Contains("a *", "***") && !Contains("a *", "**") && !Contains("a *", "~~") && !Contains("a *", "`")
    ensures CountChar("a *", '*') == 1 && ItalicProbe("a *")
    ensures EndsWithAsterisks("a *") && !StartsWithStars("a *", 2) && !HasTrailingWhitespace("a *")
  {
    var line := "a *";
    assert TrimEnd(line) == line;
    assert line[1..][1..] == line[2..] && line[1..][..2] == " *" && line[..2] == "a ";
    assert !Contains(line[2..], "**");
    assert !Contains(line[1..], "**");
    assert '~' !in line && '`' !in line;
    NoHeadNoContains(line, "~~");
    NoHeadNoContains(line, "`");
    assert CountChar(line[2..], '*') == 1;
    assert CountChar(line[1..], '*') == 1;
    assert LastIndexOf(line, '*') == 2;
  }

  /** `a *`: an italic opener at the end of the line gets `*`. */
  lemma TrailingStarCloses()
    ensures InlineFix("a *") == Some(Fix("*", false))
  {
    TrailingStarFacts();
    assert MarkerFix("a *", BoldItalic) == None;
    assert MarkerFix("a *", Bold) == None;
    assert MarkerFix("a *", Strikethrough) == None;
    assert MarkerFix("a *", Code) == None;
    assert MarkerFix("a *", Italic) == Some(Fix("*", false));
  }

  /** The facts about `a **` that the closer's decisions read. */
  lemma TrailingStarsFacts()
    ensures !Contains("a **", "***") && Contains("a **", "**") && CountChar("a **", '*') == 2
    ensures EndsWithAsterisks("a **") && !StartsWithStars("a **", 3) && !HasTrailingWhitespace("a **")
  {
    var line := "a **";
    assert TrimEnd(line) == line;
    assert line[1..][1..] == line[2..] && line[2..][1..] == line[3..];
    assert line[..3] == "a *" && line[1..][..3] == " **" && line[2..][..2] == "**";
    assert !Contains(line[2..], "***");
    assert !Contains(line[1..], "***");
    assert Contains(line[2..], "**");
    assert CountChar(line[3..], '*') == 1;
    assert CountChar(line[2..], '*') == 2;
    assert CountChar(line[1..], '*') == 2;
  }

  /** `a **`: a bold opener at the end of the line gets `**`. */
  lemma TrailingStarsClose()
    ensures InlineFix("a **") == Some(Fix("**", false))
  {
    TrailingStarsFacts();
    assert MarkerFix("a **", BoldItalic) == None;
    assert MarkerFix("a **", Bold) == Some(Fix("**", false));
  }
}
