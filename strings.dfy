/**
  The JavaScript string built-ins the closers rely on, written out over
  `seq<char>`: white space as `\s` and `trim` see it, `split` on one
  character, `join`, `startsWith`/`endsWith`/`includes`, and match counts.
 */
module Strings {

  /** The characters that `\s`, `trim` and `trimEnd` treat as white space. */
  predicate IsSpace(c: char) {
    var n := c as int;
    n == 0x09 || n == 0x0A || n == 0x0B || n == 0x0C || n == 0x0D || n == 0x20 ||
    n == 0xA0 || n == 0x1680 || (0x2000 <= n <= 0x200A) || n == 0x2028 ||
    n == 0x2029 || n == 0x202F || n == 0x205F || n == 0x3000 || n == 0xFEFF
  }

  predicate Blank(s: string) {
    forall i :: 0 <= i < |s| ==> IsSpace(s[i])
  }

  /** `s.trimEnd()`: `s` without its trailing white space; `TrimEndSpec` states what it is. */
  function TrimEnd(s: string): (r: string)
    ensures |r| <= |s|
    decreases |s|
  {
    if s == [] || !IsSpace(s[|s| - 1]) then s else TrimEnd(s[..|s| - 1])
  }

  /** `TrimEnd` drops exactly the trailing white space: a prefix that is empty or ends visibly, before blanks. */
  lemma {:induction false} TrimEndSpec(s: string)
    ensures var r := TrimEnd(s);
      |r| <= |s| && r == s[..|r|] && (r == [] || !IsSpace(r[|r| - 1])) &&
      forall i :: |r| <= i < |s| ==> IsSpace(s[i])
    decreases |s|
  {
    if s != [] && IsSpace(s[|s| - 1]) {
      TrimEndSpec(s[..|s| - 1]);
      var r := TrimEnd(s[..|s| - 1]);
      assert forall i :: |r| <= i < |s| - 1 ==> s[..|s| - 1][i] == s[i];
    }
  }

  /** The suffix of `s` left after its leading white space; `TrimStartSpec` states what it is. */
  function TrimStart(s: string): (r: string)
    ensures |r| <= |s|
    decreases |s|
  {
    if s == [] || !IsSpace(s[0]) then s else TrimStart(s[1..])
  }

  /** `TrimStart` drops exactly the leading white space: a suffix that is empty or starts visibly, after blanks. */
  lemma {:induction false} TrimStartSpec(s: string)
    ensures var r := TrimStart(s);
      |r| <= |s| && r == s[|s| - |r|..] && (r == [] || !IsSpace(r[0])) &&
      forall i :: 0 <= i < |s| - |r| ==> IsSpace(s[i])
    decreases |s|
  {
    if s != [] && IsSpace(s[0]) {
      TrimStartSpec(s[1..]);
      var r := TrimStart(s[1..]);
      assert forall i :: 1 <= i < |s| - |r| ==> s[i] == s[1..][i - 1];
    }
  }

  /** `s.trim()`. */
  function Trim(s: string): string {
    TrimEnd(TrimStart(s))
  }

  predicate StartsWith(s: string, prefix: string) {
    |prefix| <= |s| && s[..|prefix|] == prefix
  }

  predicate EndsWith(s: string, suffix: string) {
    |suffix| <= |s| && s[|s| - |suffix|..] == suffix
  }

  /** `s.includes(p)`, scanning from the left. */
  predicate Contains(s: string, p: string)
    decreases |s|
  {
    |p| <= |s| && (s[..|p|] == p || Contains(s[1..], p))
  }

  /** `n` copies of the character `c`, as `c.repeat(n)` gives them. */
  function Run(c: char, n: nat): (r: string)
    ensures |r| == n && forall i :: 0 <= i < n ==> r[i] == c
  {
    seq(n, _ => c)
  }

  /** The UTF-16 code units one character takes: two outside the Basic Multilingual Plane. */
  function Utf16Units(c: char): nat {
    if c as int > 0xFFFF then 2 else 1
  }

  /** `s.length`: the number of UTF-16 code units of `s`, at least its number of characters. */
  function Utf16Length(s: string): (n: nat)
    ensures n >= |s|
    ensures n == 0 <==> s == []
    decreases |s|
  {
    if s == [] then 0 else Utf16Length(s[..|s| - 1]) + Utf16Units(s[|s| - 1])
  }

  /** The number of occurrences of `c` in `s` (`s.match(/c/g).length`). */
  function CountChar(s: string, c: char): nat
    decreases |s|
  {
    if s == [] then 0 else (if s[0] == c then 1 else 0) + CountChar(s[1..], c)
  }

  /** The number of matches of the global pattern `p` in `s`: non-overlapping, left to right. */
  function Occurrences(s: string, p: string): nat
    requires |p| > 0
    decreases |s|
  {
    if |s| < |p| then 0
    else if s[..|p|] == p then 1 + Occurrences(s[|p|..], p)
    else Occurrences(s[1..], p)
  }

  /** The first index at or after `from` where `c` occurs in `s`, or `|s|` when it does not. */
  function IndexFrom(s: string, c: char, from: nat): (i: nat)
    requires from <= |s|
    ensures from <= i <= |s|
    ensures i < |s| ==> s[i] == c
    ensures forall j :: from <= j < i ==> s[j] != c
    decreases |s| - from
  {
    if from == |s| || s[from] == c then from else IndexFrom(s, c, from + 1)
  }

  /** The index of the last `c` in `s`, or -1 when there is none. */
  function LastIndexOf(s: string, c: char): (i: int)
    ensures -1 <= i < |s|
    ensures i >= 0 ==> s[i] == c
    ensures forall j :: i < j < |s| ==> s[j] != c
  {
    if s == [] then -1
    else if s[|s| - 1] == c then |s| - 1
    else LastIndexOf(s[..|s| - 1], c)
  }

  /**
    `s.split(sep)` for a one-character separator: never empty, no part holds
    `sep`. Written from the last separator backwards, which gives the same
    parts as a left-to-right scan.
   */
  function Split(s: string, sep: char): (parts: seq<string>)
    ensures |parts| >= 1
    ensures forall k :: 0 <= k < |parts| ==> sep !in parts[k]
    decreases |s|
  {
    var i := LastIndexOf(s, sep);
    if i < 0 then [s] else Split(s[..i], sep) + [s[i + 1..]]
  }

  /** `parts.join(sep)`. */
  function Join(parts: seq<string>, sep: string): string
    decreases |parts|
  {
    if parts == [] then ""
    else if |parts| == 1 then parts[0]
    else Join(parts[..|parts| - 1], sep) + sep + parts[|parts| - 1]
  }

  /** The text after the last `\n`. */
  function LastLine(s: string): string {
    var lines := Split(s, '\n');
    lines[|lines| - 1]
  }

  /** `p` occurs in `s` at position `i`. */
  ghost predicate OccursAt(s: string, p: string, i: int) {
    0 <= i <= |s| - |p| && s[i..i + |p|] == p
  }

  // ---------------------------------------------------------------------
  // Facts about the helpers
  // ---------------------------------------------------------------------

  /** A prefix of a prefix is a prefix. */
  lemma StartsWithTrans(a: string, b: string, c: string)
    requires StartsWith(a, b) && StartsWith(b, c)
    ensures StartsWith(a, c)
  {
    assert a[..|c|] == a[..|b|][..|c|];
  }

  /** Every text starts with itself. */
  lemma StartsWithSelf(a: string)
    ensures StartsWith(a, a)
  {
    assert a[..|a|] == a;
  }

  lemma {:induction false} ContainsAt(s: string, p: string)
    ensures Contains(s, p) <==> exists i :: OccursAt(s, p, i)
    decreases |s|
  {
    if |p| <= |s| {
      if s[..|p|] == p {
        assert OccursAt(s, p, 0);
      } else {
        ContainsAt(s[1..], p);
        if exists i :: OccursAt(s, p, i) {
          var i :| OccursAt(s, p, i);
          assert s[1..][i - 1..i - 1 + |p|] == s[i..i + |p|];
          assert OccursAt(s[1..], p, i - 1);
        }
        if Contains(s[1..], p) {
          var i :| OccursAt(s[1..], p, i);
          assert s[i + 1..i + 1 + |p|] == s[1..][i..i + |p|];
          assert OccursAt(s, p, i + 1);
        }
      }
    }
  }

  /** What occurs in `b` occurs in any text that has `b` in it. */
  lemma ContainsInfix(a: string, b: string, c: string, p: string)
    requires Contains(b, p)
    ensures Contains(a + b + c, p)
  {
    ContainsAt(b, p);
    var i :| OccursAt(b, p, i);
    assert (a + b + c)[|a| + i..|a| + i + |p|] == b[i..i + |p|];
    assert OccursAt(a + b + c, p, |a| + i);
    ContainsAt(a + b + c, p);
  }

  lemma {:induction false} CountCharAppend(a: string, b: string, c: char)
    ensures CountChar(a + b, c) == CountChar(a, c) + CountChar(b, c)
    decreases |a|
  {
    if a != [] {
      assert (a + b)[1..] == a[1..] + b;
      CountCharAppend(a[1..], b, c);
    } else {
      assert a + b == b;
    }
  }

  lemma {:induction false} CountCharBlank(s: string, c: char)
    requires Blank(s) && !IsSpace(c)
    ensures CountChar(s, c) == 0
    decreases |s|
  {
    if s != [] {
      CountCharBlank(s[1..], c);
    }
  }

  /** Cutting off a blank tail keeps the count of a visible character. */
  lemma {:induction false} CountCharBlankTail(s: string, k: nat, c: char)
    requires k <= |s| && !IsSpace(c)
    requires forall i :: k <= i < |s| ==> IsSpace(s[i])
    ensures CountChar(s[..k], c) == CountChar(s, c)
    decreases |s|
  {
    if k == 0 {
      CountCharBlank(s, c);
    } else {
      assert s[..k][1..] == s[1..][..k - 1];
      CountCharBlankTail(s[1..], k - 1, c);
    }
  }

  /** Trimming trailing white space never removes a visible character. */
  lemma TrimEndKeepsCount(s: string, c: char)
    requires !IsSpace(c)
    ensures CountChar(TrimEnd(s), c) == CountChar(s, c)
  {
    TrimEndSpec(s);
    CountCharBlankTail(s, |TrimEnd(s)|, c);
  }

  lemma {:induction false} RunCount(c: char, n: nat)
    ensures CountChar(Run(c, n), c) == n
    decreases n
  {
    if n > 0 {
      assert Run(c, n)[1..] == Run(c, n - 1);
      RunCount(c, n - 1);
    }
  }

  /** Code units add up over a concatenation. */
  lemma {:induction false} Utf16LengthAppend(a: string, b: string)
    ensures Utf16Length(a + b) == Utf16Length(a) + Utf16Length(b)
    decreases |b|
  {
    if b == [] {
      assert a + b == a;
    } else {
      assert (a + b)[..|a + b| - 1] == a + b[..|b| - 1];
      Utf16LengthAppend(a, b[..|b| - 1]);
    }
  }

  /** Within the Basic Multilingual Plane a text has one code unit per character. */
  lemma {:induction false} Utf16LengthBmp(s: string)
    requires forall i :: 0 <= i < |s| ==> s[i] as int <= 0xFFFF
    ensures Utf16Length(s) == |s|
    decreases |s|
  {
    if s != [] {
      Utf16LengthBmp(s[..|s| - 1]);
    }
  }

  /** A run of a BMP character, such as `-` or a space, has one code unit per copy. */
  lemma Utf16LengthRun(c: char, n: nat)
    requires c as int <= 0xFFFF
    ensures Utf16Length(Run(c, n)) == n
  {
    Utf16LengthBmp(Run(c, n));
  }

  /** A character outside the Basic Multilingual Plane counts twice: `'😀'.length` is 2. */
  lemma AstralCharCountsTwice()
    ensures Utf16Length("\U{1F600}") == 2 && |"\U{1F600}"| == 1
  {
    assert "\U{1F600}"[..0] == [];
  }

  /** `TrimEnd` cuts exactly at the end of the last visible character. */
  lemma TrimEndUnique(s: string, k: nat)
    requires k <= |s| && (k == 0 || !IsSpace(s[k - 1]))
    requires forall i :: k <= i < |s| ==> IsSpace(s[i])
    ensures TrimEnd(s) == s[..k]
  {
    var r := TrimEnd(s);
    TrimEndSpec(s);
    if |r| > 0 {
      assert r[|r| - 1] == s[|r| - 1];
    }
  }

  /** Trimming the end of a text whose last part has a visible character touches that part only. */
  lemma TrimEndWithinLastPart(p: string, l: string)
    requires !Blank(l)
    ensures TrimEnd(p + l) == p + TrimEnd(l)
  {
    var s := p + l;
    var t := TrimEnd(l);
    TrimEndOfBlank(l);
    TrimEndSpec(l);
    var k := |p| + |t|;
    assert s[k - 1] == t[|t| - 1];
    assert forall i :: k <= i < |s| ==> s[i] == l[i - |p|];
    TrimEndUnique(s, k);
    assert s[..k] == p + t;
  }

  lemma TrimStartOfBlank(s: string)
    ensures TrimStart(s) == [] <==> Blank(s)
  {
    var r := TrimStart(s);
    TrimStartSpec(s);
    if r != [] {
      assert r[0] == s[|s| - |r|];
    }
  }

  lemma TrimEndOfBlank(s: string)
    ensures TrimEnd(s) == [] <==> Blank(s)
  {
    var r := TrimEnd(s);
    TrimEndSpec(s);
    if r != [] {
      assert r[|r| - 1] == s[|r| - 1];
    }
  }

  /** A visible character survives `TrimStart`, shifted by the white space removed. */
  lemma VisibleInTrimStart(s: string, i: nat)
    requires i < |s| && !IsSpace(s[i])
    ensures var t := TrimStart(s); |s| - |t| <= i && t[i - (|s| - |t|)] == s[i]
  {
    TrimStartSpec(s);
  }

  /** A visible character survives `TrimEnd` in place. */
  lemma VisibleInTrimEnd(s: string, i: nat)
    requires i < |s| && !IsSpace(s[i])
    ensures i < |TrimEnd(s)| && TrimEnd(s)[i] == s[i]
  {
    TrimEndSpec(s);
  }

  /** Every character of the trim is a character of the text. */
  lemma TrimCharFromText(s: string, j: nat)
    requires j < |Trim(s)|
    ensures var m := |s| - |TrimStart(s)|; m + j < |s| && s[m + j] == Trim(s)[j]
  {
    var t := TrimStart(s);
    TrimStartSpec(s);
    TrimEndSpec(t);
    assert TrimEnd(t)[j] == t[j];
  }

  /** Trimming removes only white space, so a visible character is in the trim exactly when it is in the text. */
  lemma TrimKeepsVisible(s: string, c: char)
    requires !IsSpace(c)
    ensures c in Trim(s) <==> c in s
  {
    if c in s {
      var i :| 0 <= i < |s| && s[i] == c;
      var t := TrimStart(s);
      VisibleInTrimStart(s, i);
      VisibleInTrimEnd(t, i - (|s| - |t|));
    }
    if c in Trim(s) {
      var j :| 0 <= j < |Trim(s)| && Trim(s)[j] == c;
      TrimCharFromText(s, j);
    }
  }

  /** A text that starts and ends with a visible character is its own trim. */
  lemma TrimVisible(s: string)
    requires s != [] && !IsSpace(s[0]) && !IsSpace(s[|s| - 1])
    ensures Trim(s) == s
  {
    assert TrimStart(s) == s;
  }

  /** `s.trim() === ''` exactly when `s` is all white space. */
  lemma TrimEmptyIffBlank(s: string)
    ensures Trim(s) == [] <==> Blank(s)
  {
    var t := TrimStart(s);
    TrimStartOfBlank(s);
    TrimEndOfBlank(t);
    TrimStartSpec(s);
  }

  lemma {:induction false} CountCharAbsent(s: string, c: char)
    requires c !in s
    ensures CountChar(s, c) == 0
    decreases |s|
  {
    if s != [] {
      assert s[0] in s;
      CountCharAbsent(s[1..], c);
    }
  }

  /** A text that nowhere has `p[k]` where an occurrence of `p` would put it does not contain `p`. */
  lemma NoOccurrence(s: string, p: string, k: nat)
    requires k < |p|
    requires forall i :: k <= i < |s| - |p| + k + 1 ==> s[i] != p[k]
    ensures !Contains(s, p)
  {
    ContainsAt(s, p);
    forall i | 0 <= i <= |s| - |p| ensures !OccursAt(s, p, i) {
      assert s[i..i + |p|][k] == s[i + k];
    }
  }

  /** A text without the first character of `p` does not contain `p`. */
  lemma {:induction false} NoHeadNoContains(s: string, p: string)
    requires |p| > 0 && p[0] !in s
    ensures !Contains(s, p)
    decreases |s|
  {
    if |p| <= |s| {
      assert s[..|p|][0] == s[0];
      NoHeadNoContains(s[1..], p);
    }
  }

  /** What occurs in a slice occurs in the whole text. */
  lemma ContainsSlice(s: string, lo: nat, hi: nat, p: string)
    requires lo <= hi <= |s| && Contains(s[lo..hi], p)
    ensures Contains(s, p)
  {
    var w := s[lo..hi];
    ContainsAt(w, p);
    var i :| OccursAt(w, p, i);
    assert forall j :: lo + i <= j < lo + i + |p| ==> s[j] == w[j - lo];
    assert w[i..i + |p|] == s[lo + i..lo + i + |p|];
    assert OccursAt(s, p, lo + i);
    ContainsAt(s, p);
  }

  /** What occurs in the trimmed text occurs in the text. */
  lemma TrimContains(s: string, p: string)
    requires Contains(Trim(s), p)
    ensures Contains(s, p)
  {
    var t := TrimStart(s);
    TrimEndContains(t, p);
    TrimStartContains(s, p);
  }

  lemma TrimEndContains(s: string, p: string)
    requires Contains(TrimEnd(s), p)
    ensures Contains(s, p)
  {
    var r := TrimEnd(s);
    TrimEndSpec(s);
    assert r == s[0..|r|];
    ContainsSlice(s, 0, |r|, p);
  }

  lemma TrimStartContains(s: string, p: string)
    requires Contains(TrimStart(s), p)
    ensures Contains(s, p)
  {
    var r := TrimStart(s);
    TrimStartSpec(s);
    assert r == s[|s| - |r|..|s|];
    ContainsSlice(s, |s| - |r|, |s|, p);
  }

  lemma {:induction false} JoinSplit(s: string, sep: char)
    ensures Join(Split(s, sep), [sep]) == s
    decreases |s|
  {
    var i := LastIndexOf(s, sep);
    if i >= 0 {
      var parts := Split(s, sep);
      JoinSplit(s[..i], sep);
      assert parts[..|parts| - 1] == Split(s[..i], sep);
      assert s == s[..i] + [sep] + s[i + 1..];
    }
  }

  lemma LastIndexOfAbsent(s: string, c: char)
    requires c !in s
    ensures LastIndexOf(s, c) == -1
  {
    assert forall j :: 0 <= j < |s| ==> s[j] in s;
  }

  lemma LastIndexOfAt(s: string, c: char, k: nat)
    requires k < |s| && s[k] == c
    requires forall j :: k < j < |s| ==> s[j] != c
    ensures LastIndexOf(s, c) == k
  {
  }

  /** The last separator of a join sits just before its last part. */
  lemma JoinLastSeparator(init: string, sep: char, last: string)
    requires sep !in last
    ensures LastIndexOf(init + [sep] + last, sep) == |init|
  {
    var s := init + [sep] + last;
    assert s[|init|] == sep;
    var t := s[|init| + 1..];
    assert t == last;
    assert forall k :: 0 <= k < |t| ==> t[k] in last;
    assert forall j :: |init| < j < |s| ==> s[j] == t[j - |init| - 1];
    LastIndexOfAt(s, sep, |init|);
  }

  lemma {:induction false} SplitJoin(parts: seq<string>, sep: char)
    requires |parts| >= 1
    requires forall k :: 0 <= k < |parts| ==> sep !in parts[k]
    ensures Split(Join(parts, [sep]), sep) == parts
    decreases |parts|
  {
    var s := Join(parts, [sep]);
    var n := |parts|;
    if n == 1 {
      LastIndexOfAbsent(s, sep);
    } else {
      var init := Join(parts[..n - 1], [sep]);
      var last := parts[n - 1];
      assert s == init + [sep] + last;
      JoinLastSeparator(init, sep, last);
      assert s[..|init|] == init;
      assert s[|init| + 1..] == last;
      SplitJoin(parts[..n - 1], sep);
      assert parts == parts[..n - 1] + [last];
    }
  }

  lemma {:induction false} JoinAppend(parts: seq<string>, more: seq<string>, sep: string)
    requires |parts| >= 1 && |more| >= 1
    ensures Join(parts + more, sep) == Join(parts, sep) + sep + Join(more, sep)
    decreases |more|
  {
    var all := parts + more;
    var m := |more|;
    if m == 1 {
      assert all[..|all| - 1] == parts;
    } else {
      assert all[..|all| - 1] == parts + more[..m - 1];
      JoinAppend(parts, more[..m - 1], sep);
    }
  }

  lemma JoinExtendLast(parts: seq<string>, x: string, sep: string)
    requires |parts| >= 1
    ensures Join(parts[|parts| - 1 := parts[|parts| - 1] + x], sep) == Join(parts, sep) + x
  {
    var n := |parts|;
    if n > 1 {
      var edited := parts[n - 1 := parts[n - 1] + x];
      assert edited[..n - 1] == parts[..n - 1];
    }
  }

  /** Extending the last part with separator-free text keeps every part separator-free. */
  lemma ExtendLastFree(parts: seq<string>, x: string, sep: char)
    requires |parts| >= 1 && sep !in x
    requires forall k :: 0 <= k < |parts| ==> sep !in parts[k]
    ensures var edited := parts[|parts| - 1 := parts[|parts| - 1] + x];
      forall k :: 0 <= k < |edited| ==> sep !in edited[k]
  {
    var n := |parts|;
    var edited := parts[n - 1 := parts[n - 1] + x];
    forall k | 0 <= k < n ensures sep !in edited[k] {
      if k == n - 1 {
        assert edited[k] == parts[n - 1] + x;
      }
    }
  }

  /** Appending separator-free text extends the last part only. */
  lemma SplitExtendLast(s: string, x: string, sep: char)
    requires sep !in x
    ensures var parts := Split(s, sep);
      Split(s + x, sep) == parts[|parts| - 1 := parts[|parts| - 1] + x]
  {
    var parts := Split(s, sep);
    JoinSplit(s, sep);
    JoinExtendLast(parts, x, [sep]);
    ExtendLastFree(parts, x, sep);
    SplitJoin(parts[|parts| - 1 := parts[|parts| - 1] + x], sep);
  }

  lemma AppendFree(parts: seq<string>, more: seq<string>, sep: char)
    requires forall k :: 0 <= k < |parts| ==> sep !in parts[k]
    requires forall k :: 0 <= k < |more| ==> sep !in more[k]
    ensures forall k :: 0 <= k < |parts + more| ==> sep !in (parts + more)[k]
  {
    forall k | 0 <= k < |parts + more| ensures sep !in (parts + more)[k] {
      if k >= |parts| {
        assert (parts + more)[k] == more[k - |parts|];
      }
    }
  }

  /** Appending separator-free lines after a separator adds exactly those lines. */
  lemma SplitAppendLines(s: string, more: seq<string>, sep: char)
    requires |more| >= 1
    requires forall k :: 0 <= k < |more| ==> sep !in more[k]
    ensures Split(s + [sep] + Join(more, [sep]), sep) == Split(s, sep) + more
  {
    var parts := Split(s, sep);
    JoinSplit(s, sep);
    JoinAppend(parts, more, [sep]);
    AppendFree(parts, more, sep);
    SplitJoin(parts + more, sep);
  }

  /** The last line is a suffix, preceded by the separator when it is not the whole text. */
  lemma LastPartIsSuffix(s: string, sep: char)
    ensures var parts := Split(s, sep); var last := parts[|parts| - 1];
      |last| <= |s| && s[|s| - |last|..] == last &&
      (|last| < |s| ==> s[|s| - |last| - 1] == sep)
  {
  }

  /** Every part of a join occurs in the joined text. */
  lemma {:induction false} JoinHasPart(parts: seq<string>, sep: string, k: nat, p: string)
    requires k < |parts| && Contains(parts[k], p)
    ensures Contains(Join(parts, sep), p)
    decreases |parts|
  {
    var n := |parts|;
    if n > 1 {
      var init := Join(parts[..n - 1], sep);
      if k == n - 1 {
        ContainsInfix(init + sep, parts[k], [], p);
        assert init + sep + parts[k] + [] == Join(parts, sep);
      } else {
        JoinHasPart(parts[..n - 1], sep, k, p);
        ContainsInfix([], init, sep + parts[n - 1], p);
        assert [] + init + (sep + parts[n - 1]) == Join(parts, sep);
      }
    }
  }
}
