/**
  `closeTables`: repairs the last table of a streamed markdown text. The
  last contiguous block of lines whose trimmed form starts with `|` is the
  table. Its header gets a closing pipe. Its last row is completed when it
  looks like a separator, or padded against a reference row when it lacks
  its closing pipe. A default separator goes after the header when the
  table has none.
 */
module TableClose {
  import opened Wrappers
  import opened Strings
  import opened TableCells

  // ---------------------------------------------------------------------
  // Table blocks
  // ---------------------------------------------------------------------

  /** A table line: its first character that is not white space is `|`. */
  predicate IsTableRow(line: string)
    decreases |line|
  {
    line != [] && (if IsSpace(line[0]) then IsTableRow(line[1..]) else line[0] == '|')
  }

  /** The first visible character of a line is the first character of its trimmed form. */
  lemma {:induction false} TableRowTrim(line: string)
    ensures IsTableRow(line) <==> StartsWith(Trim(line), "|")
    decreases |line|
  {
    if line != [] && IsSpace(line[0]) {
      TableRowTrim(line[1..]);
      assert TrimStart(line) == TrimStart(line[1..]);
    } else {
      TrimEndSpec(line);
    }
  }

  /** `line.trim().startsWith('|')`. */
  method StartsWithPipe(line: string) returns (isRow: bool)
    ensures isRow == IsTableRow(line)
  {
    TableRowTrim(line);
    isRow := StartsWith(Trim(line), "|");
  }

  /** The lines `start..end`, both included. */
  datatype Block = Block(start: nat, end: nat)

  /** A maximal run of table lines: every line in it is one, the lines around it are not. */
  predicate IsMaximalBlock(lines: seq<string>, b: Block) {
    b.start <= b.end < |lines| &&
    (forall j :: b.start <= j <= b.end ==> IsTableRow(lines[j])) &&
    (b.start == 0 || !IsTableRow(lines[b.start - 1])) &&
    (b.end + 1 == |lines| || !IsTableRow(lines[b.end + 1]))
  }

  /** Line `j` lies in one of the blocks. */
  ghost predicate Covered(blocks: seq<Block>, j: int) {
    exists k :: 0 <= k < |blocks| && blocks[k].start <= j <= blocks[k].end
  }

  /** The index of the last table line before `n`, or -1. */
  function LastRow(lines: seq<string>, n: nat): (e: int)
    requires n <= |lines|
    ensures -1 <= e < n
    ensures e >= 0 ==> IsTableRow(lines[e])
    ensures forall j :: e < j < n ==> !IsTableRow(lines[j])
    decreases n
  {
    if n == 0 then -1
    else if IsTableRow(lines[n - 1]) then n - 1
    else LastRow(lines, n - 1)
  }

  /** Where the run of table lines that ends at `e` starts. */
  function BlockStart(lines: seq<string>, e: nat): (s: nat)
    requires e < |lines| && IsTableRow(lines[e])
    ensures s <= e
    ensures forall j :: s <= j <= e ==> IsTableRow(lines[j])
    ensures s == 0 || !IsTableRow(lines[s - 1])
    decreases e
  {
    if e > 0 && IsTableRow(lines[e - 1]) then BlockStart(lines, e - 1) else e
  }

  /** The block the closer edits: the run of table lines holding the last one. */
  function LastBlock(lines: seq<string>): Option<Block> {
    var e := LastRow(lines, |lines|);
    if e < 0 then None else Some(Block(BlockStart(lines, e), e))
  }

  /** The last block is a maximal block and no table line follows it. */
  lemma LastBlockIsLast(lines: seq<string>)
    ensures LastBlock(lines).None? <==> forall j :: 0 <= j < |lines| ==> !IsTableRow(lines[j])
    ensures LastBlock(lines).Some? ==>
      var b := LastBlock(lines).value;
      IsMaximalBlock(lines, b) && forall j :: b.end < j < |lines| ==> !IsTableRow(lines[j])
  {
  }

  /** A run of table lines ending at `e` and not preceded by one starts where `BlockStart` says. */
  lemma {:induction false} BlockStartUnique(lines: seq<string>, e: nat, s: nat)
    requires s <= e < |lines|
    requires forall j :: s <= j <= e ==> IsTableRow(lines[j])
    requires s == 0 || !IsTableRow(lines[s - 1])
    ensures BlockStart(lines, e) == s
    decreases e
  {
    if s < e {
      BlockStartUnique(lines, e - 1, s);
    }
  }

  /** Pushing one more block keeps every covered line covered and covers the new block. */
  lemma CoveredSnoc(blocks: seq<Block>, b: Block, j: int)
    requires Covered(blocks, j) || b.start <= j <= b.end
    ensures Covered(blocks + [b], j)
  {
    if Covered(blocks, j) {
      var k :| 0 <= k < |blocks| && blocks[k].start <= j <= blocks[k].end;
      assert (blocks + [b])[k] == blocks[k];
    } else {
      assert (blocks + [b])[|blocks|] == b;
    }
  }

  /** Every block is maximal. */
  predicate AllMaximal(lines: seq<string>, blocks: seq<Block>) {
    forall k :: 0 <= k < |blocks| ==> IsMaximalBlock(lines, blocks[k])
  }

  /** The blocks are in order and do not overlap. */
  predicate Ordered(blocks: seq<Block>) {
    forall k, k' :: 0 <= k < k' < |blocks| ==> blocks[k].end < blocks[k'].start
  }

  /** Every block ends before `n`. */
  predicate EndsBefore(blocks: seq<Block>, n: int) {
    forall k :: 0 <= k < |blocks| ==> blocks[k].end < n
  }

  /**
    Grouping lines into ordered maximal blocks that cover every table line
    leaves the last block as the one `LastBlock` names.
   */
  lemma LastOfBlocks(lines: seq<string>, blocks: seq<Block>)
    requires AllMaximal(lines, blocks) && Ordered(blocks)
    requires forall j :: 0 <= j < |lines| && IsTableRow(lines[j]) ==> Covered(blocks, j)
    ensures blocks == [] <==> LastBlock(lines).None?
    ensures blocks != [] ==> blocks[|blocks| - 1] == LastBlock(lines).value
  {
    if blocks != [] {
      var b := blocks[|blocks| - 1];
      assert forall k :: 0 <= k < |blocks| ==> blocks[k].end <= b.end;
      forall j | b.end < j < |lines| ensures !IsTableRow(lines[j]) {
        assert !Covered(blocks, j);
      }
      assert IsMaximalBlock(lines, b);
      assert IsTableRow(lines[b.end]);
      assert LastRow(lines, |lines|) == b.end;
      BlockStartUnique(lines, b.end, b.start);
    } else {
      forall j | 0 <= j < |lines| ensures !IsTableRow(lines[j]) {
        assert !Covered(blocks, j);
      }
    }
  }

  /** Appending a maximal block that starts after every other keeps the list maximal and ordered. */
  lemma PushBlock(lines: seq<string>, blocks: seq<Block>, b: Block)
    requires AllMaximal(lines, blocks) && Ordered(blocks) && EndsBefore(blocks, b.start)
    requires IsMaximalBlock(lines, b)
    ensures AllMaximal(lines, blocks + [b]) && Ordered(blocks + [b])
    ensures forall n :: b.end < n ==> EndsBefore(blocks + [b], n)
  {
    var bs := blocks + [b];
    assert forall k :: 0 <= k < |blocks| ==> bs[k] == blocks[k];
    assert bs[|blocks|] == b;
  }

  /**
    Closing the open run `blockStart..n-1` when line `n` is not a table line
    (or the text ends): the blocks stay maximal and ordered, and every table
    line before `n` is now covered.
   */
  lemma CloseBlock(lines: seq<string>, blocks: seq<Block>, blockStart: nat, n: nat)
    requires blockStart < n <= |lines| && (n == |lines| || !IsTableRow(lines[n]))
    requires forall j :: blockStart <= j < n ==> IsTableRow(lines[j])
    requires blockStart == 0 || !IsTableRow(lines[blockStart - 1])
    requires AllMaximal(lines, blocks) && Ordered(blocks) && EndsBefore(blocks, blockStart)
    requires forall j :: 0 <= j < n && IsTableRow(lines[j]) ==> Covered(blocks, j) || blockStart <= j
    ensures var bs := blocks + [Block(blockStart, n - 1)];
      AllMaximal(lines, bs) && Ordered(bs) && EndsBefore(bs, n + 1) &&
      forall j :: 0 <= j <= n && j < |lines| && IsTableRow(lines[j]) ==> Covered(bs, j)
  {
    var b := Block(blockStart, n - 1);
    PushBlock(lines, blocks, b);
    forall j | 0 <= j <= n && j < |lines| && IsTableRow(lines[j]) ensures Covered(blocks + [b], j) {
      CoveredSnoc(blocks, b, j);
    }
  }

  /**
    The grouping state after the lines before `i`: `blockStart` is the open
    run of table lines reaching `i` (or -1), and `blocks` are the closed runs,
    maximal, in order, before it, covering every other table line.
   */
  ghost predicate Grouped(lines: seq<string>, i: nat, blocks: seq<Block>, blockStart: int) {
    i <= |lines| &&
    (blockStart == -1 ==> i == 0 || !IsTableRow(lines[i - 1])) &&
    (blockStart != -1 ==>
      0 <= blockStart < i && (forall j :: blockStart <= j < i ==> IsTableRow(lines[j])) &&
      (blockStart == 0 || !IsTableRow(lines[blockStart - 1]))) &&
    AllMaximal(lines, blocks) && Ordered(blocks) &&
    EndsBefore(blocks, if blockStart == -1 then i else blockStart) &&
    (forall j :: 0 <= j < i && IsTableRow(lines[j]) ==> Covered(blocks, j) || (blockStart != -1 && blockStart <= j))
  }

  /** One turn of the grouping loop: open a run at a table line, close it at the first other line. */
  method GroupLine(lines: seq<string>, i: nat, blocks: seq<Block>, blockStart: int)
    returns (blocks': seq<Block>, blockStart': int)
    requires i < |lines| && Grouped(lines, i, blocks, blockStart)
    ensures Grouped(lines, i + 1, blocks', blockStart')
  {
    blocks', blockStart' := blocks, blockStart;
    var isRow := StartsWithPipe(lines[i]);
    if isRow {
      if blockStart' == -1 {
        blockStart' := i;
      }
    } else if blockStart' != -1 {
      CloseBlock(lines, blocks', blockStart', i);
      blocks' := blocks' + [Block(blockStart', i - 1)];
      blockStart' := -1;
    }
  }

  /** The grouping loop of `closeTables`: every maximal block of table lines, in order. */
  method TableBlocks(lines: seq<string>) returns (tableBlocks: seq<Block>)
    ensures AllMaximal(lines, tableBlocks) && Ordered(tableBlocks)
    ensures forall j :: 0 <= j < |lines| && IsTableRow(lines[j]) ==> Covered(tableBlocks, j)
  {
    tableBlocks := [];
    var blockStart := -1;
    for i := 0 to |lines|
      invariant Grouped(lines, i, tableBlocks, blockStart)
    {
      tableBlocks, blockStart := GroupLine(lines, i, tableBlocks, blockStart);
    }
    if blockStart != -1 {
      CloseBlock(lines, tableBlocks, blockStart, |lines|);
      tableBlocks := tableBlocks + [Block(blockStart, |lines| - 1)];
    }
  }

  // ---------------------------------------------------------------------
  // Separator completion
  // ---------------------------------------------------------------------

  /** `cell.startsWith(':')`. */
  predicate AlignsLeft(cell: string) {
    |cell| > 0 && cell[0] == ':'
  }

  /** `cell.endsWith(':') && cell.length > 1`. */
  predicate AlignsRight(cell: string) {
    |cell| > 1 && cell[|cell| - 1] == ':'
  }

  /** The cell with one leading `:` removed, then one trailing `:`. */
  function StripAlignment(cell: string): (d: string)
    ensures |d| <= |cell|
  {
    var s := if AlignsLeft(cell) then cell[1..] else cell;
    if |s| > 0 && s[|s| - 1] == ':' then s[..|s| - 1] else s
  }

  /** An empty dash run becomes a single `-`. */
  function AtLeastOneDash(d: string): string {
    if |d| < 1 then "-" else d
  }

  /** A run extended with `-` up to three UTF-16 code units. */
  function PadDashes(d: string): string {
    if Utf16Length(d) < 3 then d + Run('-', 3 - Utf16Length(d)) else d
  }

  /** One completed separator cell: centre `:-:`, left `:-`, right `-:`, or at least `---`. */
  function CompletedCell(cell: string): string {
    var dashes := StripAlignment(cell);
    if AlignsLeft(cell) && AlignsRight(cell) then ":" + AtLeastOneDash(dashes) + ":"
    else if AlignsLeft(cell) then ":" + AtLeastOneDash(dashes)
    else if AlignsRight(cell) then AtLeastOneDash(dashes) + ":"
    else PadDashes(dashes)
  }

  /** `n` cells of `---`. */
  function Dashes(n: nat): (r: seq<string>)
    ensures |r| == n && forall k :: 0 <= k < n ==> r[k] == "---"
  {
    seq(n, _ => "---")
  }

  /** Every separator cell completed, in order. */
  function CompletedEach(sepCells: seq<string>): (r: seq<string>)
    ensures |r| == |sepCells|
    decreases |sepCells|
  {
    if sepCells == [] then []
    else CompletedEach(sepCells[..|sepCells| - 1]) + [CompletedCell(sepCells[|sepCells| - 1])]
  }

  /** The `k`-th completed cell is the `k`-th separator cell, completed. */
  lemma {:induction false} CompletedEachAt(sepCells: seq<string>, k: nat)
    requires k < |sepCells|
    ensures CompletedEach(sepCells)[k] == CompletedCell(sepCells[k])
    decreases |sepCells|
  {
    if k < |sepCells| - 1 {
      CompletedEachAt(sepCells[..|sepCells| - 1], k);
    }
  }

  /** `---` cells appended up to `columnCount` cells. */
  function FilledTo(cells: seq<string>, columnCount: nat): (r: seq<string>)
    ensures |r| == if |cells| < columnCount then columnCount else |cells|
    ensures r[..|cells|] == cells && forall k :: |cells| <= k < |r| ==> r[k] == "---"
  {
    cells + Dashes(if |cells| < columnCount then columnCount - |cells| else 0)
  }

  /** The separator cells completed one by one, then `---` cells up to `columnCount`. */
  function CompletedCells(sepCells: seq<string>, columnCount: nat): seq<string> {
    FilledTo(CompletedEach(sepCells), columnCount)
  }

  /** `| c1 | c2 | … |`. */
  function Frame(cells: seq<string>): string {
    "| " + Join(cells, " | ") + " |"
  }

  /** The separator inserted under a header that has none: one `---` per column. */
  function DefaultSeparator(columnCount: nat): string {
    Frame(Dashes(columnCount))
  }

  /**
    What completion does to one cell: an unaligned cell keeps its text and
    grows with `-` to at least three UTF-16 code units; an aligned cell
    keeps its colons around a non-empty run, which need not hold a dash.
   */
  lemma CompletedCellShape(cell: string)
    ensures var r := CompletedCell(cell);
      (!AlignsLeft(cell) && !AlignsRight(cell) ==>
        Utf16Length(r) >= 3 && r[..|cell|] == cell && forall i :: |cell| <= i < |r| ==> r[i] == '-') &&
      (AlignsLeft(cell) ==> |r| >= 2 && r[0] == ':') &&
      (AlignsRight(cell) ==> |r| >= 2 && r[|r| - 1] == ':') &&
      (AlignsLeft(cell) && AlignsRight(cell) ==> |r| >= 3) &&
      (!AlignsLeft(cell) ==> r[0] != ':') &&
      (!AlignsRight(cell) ==> r[|r| - 1] != ':')
  {
    var d := StripAlignment(cell);
    if !AlignsLeft(cell) && !AlignsRight(cell) && Utf16Length(d) < 3 {
      Utf16LengthAppend(d, Run('-', 3 - Utf16Length(d)));
      Utf16LengthRun('-', 3 - Utf16Length(d));
    }
  }

  /**
    An aligned cell needs no dash: `:::` and `:x` are kept as they are,
    although the comment above the completion promises at least one dash.
   */
  lemma AlignedCellNeedsNoDash()
    ensures CompletedCell(":::") == ":::" && CompletedCell(":x") == ":x"
  {
    assert StripAlignment(":::") == ":";
    assert StripAlignment(":x") == "x";
  }

  /** A completed cell is already complete: completing it again changes nothing. */
  lemma CompletedCellIdempotent(cell: string)
    ensures CompletedCell(CompletedCell(cell)) == CompletedCell(cell)
  {
    var r := CompletedCell(cell);
    CompletedCellShape(cell);
    if AlignsLeft(cell) && AlignsRight(cell) {
      assert StripAlignment(r) == AtLeastOneDash(StripAlignment(cell));
    } else if AlignsLeft(cell) {
      assert StripAlignment(r) == AtLeastOneDash(StripAlignment(cell));
    } else if AlignsRight(cell) {
      assert StripAlignment(r) == AtLeastOneDash(StripAlignment(cell));
    } else {
      assert StripAlignment(r) == r;
    }
  }

  /** The no-alignment branch: `while (dashes.length < 3) dashes += '-'`, on UTF-16 code units. */
  method PadWithDashes(dashes0: string) returns (dashes: string)
    ensures dashes == PadDashes(dashes0)
  {
    dashes := dashes0;
    while Utf16Length(dashes) < 3
      invariant |dashes0| <= |dashes| && dashes[..|dashes0|] == dashes0
      invariant forall i :: |dashes0| <= i < |dashes| ==> dashes[i] == '-'
      invariant Utf16Length(dashes) == Utf16Length(dashes0) + (|dashes| - |dashes0|)
      invariant Utf16Length(dashes0) < 3 ==> Utf16Length(dashes) <= 3
      invariant Utf16Length(dashes0) >= 3 ==> dashes == dashes0
      decreases 3 - Utf16Length(dashes)
    {
      Utf16LengthAppend(dashes, "-");
      assert "-"[..0] == [];
      dashes := dashes + "-";
    }
    assert dashes == dashes[..|dashes0|] + dashes[|dashes0|..];
  }

  /** The body of the `sepCells.map` callback. */
  method CompleteCell(cell: string) returns (r: string)
    ensures r == CompletedCell(cell)
  {
    var hasLeftAlign := |cell| > 0 && cell[0] == ':';
    var hasRightAlign := |cell| > 0 && cell[|cell| - 1] == ':' && |cell| > 1;
    var dashes := if hasLeftAlign then cell[1..] else cell;
    if |dashes| > 0 && dashes[|dashes| - 1] == ':' {
      dashes := dashes[..|dashes| - 1];
    }
    if hasLeftAlign && hasRightAlign {
      if |dashes| < 1 { dashes := "-"; }
      r := ":" + dashes + ":";
    } else if hasLeftAlign {
      if |dashes| < 1 { dashes := "-"; }
      r := ":" + dashes;
    } else if hasRightAlign {
      if |dashes| < 1 { dashes := "-"; }
      r := dashes + ":";
    } else {
      r := PadWithDashes(dashes);
    }
  }

  /** `while (completedCells.length < columnCount) completedCells.push('---')`. */
  method FillColumns(cells: seq<string>, columnCount: nat) returns (completedCells: seq<string>)
    ensures completedCells == FilledTo(cells, columnCount)
  {
    completedCells := cells;
    while |completedCells| < columnCount
      invariant |cells| <= |completedCells| && completedCells[..|cells|] == cells
      invariant |cells| < columnCount ==> |completedCells| <= columnCount
      invariant |cells| >= columnCount ==> completedCells == cells
      invariant forall j :: |cells| <= j < |completedCells| ==> completedCells[j] == "---"
      decreases columnCount - |completedCells|
    {
      completedCells := completedCells + ["---"];
    }
    assert completedCells == cells + completedCells[|cells|..];
  }

  /** The `sepCells.map` completing every separator cell, then the filling loop. */
  method CompleteSeparatorCells(sepCells: seq<string>, columnCount: nat) returns (completedCells: seq<string>)
    ensures completedCells == CompletedCells(sepCells, columnCount)
  {
    var mapped := [];
    for k := 0 to |sepCells|
      invariant mapped == CompletedEach(sepCells[..k])
    {
      var c := CompleteCell(sepCells[k]);
      assert sepCells[..k + 1][..k] == sepCells[..k];
      mapped := mapped + [c];
    }
    assert sepCells[..|sepCells|] == sepCells;
    completedCells := FillColumns(mapped, columnCount);
  }

  // ---------------------------------------------------------------------
  // Data-row padding
  // ---------------------------------------------------------------------

  /** A row fit to give column widths: it starts and ends with `|` and holds no `-`. */
  predicate IsReferenceCandidate(row: string) {
    |row| > 0 && row[0] == '|' && row[|row| - 1] == '|' && '-' !in row
  }

  /** The last character of the line that is not white space is `|`. */
  predicate ClosesWithPipe(line: string)
    decreases |line|
  {
    line != [] &&
    (if IsSpace(line[|line| - 1]) then ClosesWithPipe(line[..|line| - 1]) else line[|line| - 1] == '|')
  }

  /** A line whose trimmed form is a reference candidate, stated on the line itself. */
  predicate IsReferenceLine(line: string) {
    IsTableRow(line) && ClosesWithPipe(line) && '-' !in line
  }

  lemma {:induction false} ClosesTrimEnd(s: string)
    ensures ClosesWithPipe(s) <==> TrimEnd(s) != [] && TrimEnd(s)[|TrimEnd(s)| - 1] == '|'
    decreases |s|
  {
    if s != [] && IsSpace(s[|s| - 1]) {
      ClosesTrimEnd(s[..|s| - 1]);
    }
  }

  /** Dropping leading white space does not change the last visible character. */
  lemma {:induction false} ClosesDropBlank(s: string, k: nat)
    requires k <= |s| && forall i :: 0 <= i < k ==> IsSpace(s[i])
    ensures ClosesWithPipe(s) <==> ClosesWithPipe(s[k..])
    decreases |s|
  {
    if s != [] && IsSpace(s[|s| - 1]) {
      var s' := s[..|s| - 1];
      if k == |s| {
        ClosesDropBlank(s', k - 1);
        assert s'[k - 1..] == [];
      } else {
        ClosesDropBlank(s', k);
        assert s[k..][..|s| - k - 1] == s'[k..];
      }
    }
  }

  /** `line.trim().startsWith('|')`, character by character. */
  lemma TableRowFirst(line: string)
    ensures IsTableRow(line) <==> Trim(line) != [] && Trim(line)[0] == '|'
  {
    TableRowTrim(line);
  }

  /** `line.trim().endsWith('|')`, character by character. */
  lemma ClosesTrim(line: string)
    ensures ClosesWithPipe(line) <==> Trim(line) != [] && Trim(line)[|Trim(line)| - 1] == '|'
  {
    ClosesTrimStart(line);
    ClosesTrimEnd(TrimStart(line));
  }

  /** Leading white space does not change the last visible character. */
  lemma ClosesTrimStart(line: string)
    ensures ClosesWithPipe(line) <==> ClosesWithPipe(TrimStart(line))
  {
    var t := TrimStart(line);
    TrimStartSpec(line);
    ClosesDropBlank(line, |line| - |t|);
  }

  /** The line-level test agrees with the test `closeTables` applies to the trimmed line. */
  lemma ReferenceLineTrim(line: string)
    ensures IsReferenceLine(line) <==> IsReferenceCandidate(Trim(line))
  {
    TableRowFirst(line);
    ClosesTrim(line);
    TrimKeepsVisible(line, '-');
  }

  /** The index of the first line in `i..end-1` whose trimmed form is a candidate, or -1. */
  function FirstCandidate(lines: seq<string>, i: nat, end: nat): (j: int)
    requires end <= |lines|
    ensures j == -1 || i <= j < end
    decreases end - i
  {
    if i >= end then -1
    else if IsReferenceLine(lines[i]) then i
    else FirstCandidate(lines, i + 1, end)
  }

  /** The line `FirstCandidate` names is a candidate. */
  lemma {:induction false} FirstCandidateFound(lines: seq<string>, i: nat, end: nat)
    requires end <= |lines| && FirstCandidate(lines, i, end) >= 0
    ensures IsReferenceLine(lines[FirstCandidate(lines, i, end)])
    decreases end - i
  {
    if !IsReferenceLine(lines[i]) {
      FirstCandidateFound(lines, i + 1, end);
    }
  }

  /** No line before the one `FirstCandidate` names (or in the whole range, when it names none) is a candidate. */
  lemma {:induction false} FirstCandidateFirst(lines: seq<string>, i: nat, end: nat, k: nat)
    requires end <= |lines| && i <= k < end
    requires FirstCandidate(lines, i, end) < 0 || k < FirstCandidate(lines, i, end)
    ensures !IsReferenceLine(lines[k])
    decreases end - i
  {
    if k > i {
      FirstCandidateFirst(lines, i + 1, end, k);
    }
  }

  /** The reference row: the first candidate in range, trimmed, or `fallback` (the header) when there is none. */
  function ReferenceRow(lines: seq<string>, i: nat, end: nat, fallback: string): string
    requires end <= |lines|
  {
    var j := FirstCandidate(lines, i, end);
    if j < 0 then fallback else Trim(lines[j])
  }

  /** `row = line.trim()` and the test `row.startsWith('|') && row.endsWith('|') && !row.includes('-')`. */
  method TrimmedCandidate(line: string) returns (row: string, isCandidate: bool)
    ensures row == Trim(line) && isCandidate == IsReferenceLine(line)
  {
    row := Trim(line);
    ReferenceLineTrim(line);
    isCandidate := |row| > 0 && row[0] == '|' && row[|row| - 1] == '|' && '-' !in row;
  }

  /** The reference-row search: the loop from after the header (and separator) with its `break`. */
  method FindReferenceRow(lines: seq<string>, start: nat, end: nat, hasSeparator: bool) returns (refRow: string)
    requires start <= end < |lines|
    ensures refRow == ReferenceRow(lines, start + (if hasSeparator then 2 else 1), end, Trim(lines[start]))
  {
    var header := Trim(lines[start]);
    var from := start + (if hasSeparator then 2 else 1);
    refRow := header;
    var i := from;
    while i < end
      invariant from <= i
      invariant FirstCandidate(lines, from, end) == FirstCandidate(lines, i, end)
      invariant refRow == header
      decreases end - i
    {
      var row, isCandidate := TrimmedCandidate(lines[i]);
      if isCandidate {
        refRow := row;
        break;
      }
      i := i + 1;
    }
  }

  /** `refWidths[i] || cell.length + 2`: the reference width, or the cell's own when missing. */
  function TargetWidth(refWidths: seq<nat>, k: nat, cell: string): nat {
    if k < |refWidths| && refWidths[k] != 0 then refWidths[k] else Utf16Length(cell) + 2
  }

  /** The cell followed by `max(0, target - cell.length - 2)` spaces, lengths in UTF-16 code units. */
  function PaddedCell(cell: string, target: nat): string {
    cell + Run(' ', if target - Utf16Length(cell) - 2 > 0 then target - Utf16Length(cell) - 2 else 0)
  }

  /** Every cell padded against the reference widths. */
  function PaddedCells(cells: seq<string>, refWidths: seq<nat>): (r: seq<string>)
    ensures |r| == |cells|
    ensures forall k :: 0 <= k < |cells| ==> r[k] == PaddedCell(cells[k], TargetWidth(refWidths, k, cells[k]))
  {
    seq(|cells|, k requires 0 <= k < |cells| => PaddedCell(cells[k], TargetWidth(refWidths, k, cells[k])))
  }

  /**
    A padded cell keeps its text, adds only spaces, and together with the
    two spaces of its frame fills the reference width when it is narrower.
   */
  lemma PaddedCellShape(cell: string, target: nat)
    ensures var r := PaddedCell(cell, target);
      r[..|cell|] == cell && (forall i :: |cell| <= i < |r| ==> r[i] == ' ') &&
      Utf16Length(r) == (if Utf16Length(cell) + 2 < target then target - 2 else Utf16Length(cell))
  {
    var n := if target - Utf16Length(cell) - 2 > 0 then target - Utf16Length(cell) - 2 else 0;
    Utf16LengthAppend(cell, Run(' ', n));
    Utf16LengthRun(' ', n);
  }

  /** The row-rebuilding `cells.map` callback, over every cell. */
  method PadCells(cells: seq<string>, refWidths: seq<nat>) returns (padded: seq<string>)
    ensures padded == PaddedCells(cells, refWidths)
  {
    padded := [];
    for k := 0 to |cells|
      invariant |padded| == k
      invariant forall j :: 0 <= j < k ==> padded[j] == PaddedCell(cells[j], TargetWidth(refWidths, j, cells[j]))
    {
      var cell := cells[k];
      var targetWidth := if k < |refWidths| && refWidths[k] != 0 then refWidths[k] else Utf16Length(cell) + 2;
      var padding := Run(' ', if targetWidth - Utf16Length(cell) - 2 > 0 then targetWidth - Utf16Length(cell) - 2 else 0);
      padded := padded + [cell + padding];
    }
  }

  /** Every padded cell keeps its text, then spaces only; the row keeps its number of cells. */
  lemma PaddedRowShape(cells: seq<string>, refWidths: seq<nat>)
    ensures var r := PaddedCells(cells, refWidths);
      |r| == |cells| &&
      forall k :: 0 <= k < |cells| ==> (
        r[k][..|cells[k]|] == cells[k] && (forall i :: |cells[k]| <= i < |r[k]| ==> r[k][i] == ' ') &&
        Utf16Length(r[k]) ==
          (if Utf16Length(cells[k]) + 2 < TargetWidth(refWidths, k, cells[k])
           then TargetWidth(refWidths, k, cells[k]) - 2 else Utf16Length(cells[k])))
  {
    forall k | 0 <= k < |cells| {
      PaddedCellShape(cells[k], TargetWidth(refWidths, k, cells[k]));
    }
  }

  /** The completed separator: every parsed cell completed in place, then `---` up to `columnCount`. */
  lemma CompletedRowShape(sepCells: seq<string>, columnCount: nat)
    ensures var r := CompletedCells(sepCells, columnCount);
      |r| >= columnCount && |r| >= |sepCells| &&
      (|sepCells| < columnCount ==> |r| == columnCount) &&
      (forall k :: 0 <= k < |sepCells| ==> r[k] == CompletedCell(sepCells[k])) &&
      (forall k :: |sepCells| <= k < |r| ==> r[k] == "---")
  {
    var r := CompletedCells(sepCells, columnCount);
    forall k | 0 <= k < |sepCells| ensures r[k] == CompletedCell(sepCells[k]) {
      CompletedEachAt(sepCells, k);
      assert r[k] == r[..|sepCells|][k];
    }
  }

  /**
    The reference row is the first line in range whose trimmed form starts
    and ends with `|` and holds no `-`, trimmed; the fallback when no line
    in range is one.
   */
  lemma ReferenceRowIsFirst(lines: seq<string>, i: nat, end: nat, fallback: string)
    requires end <= |lines|
    ensures var j := FirstCandidate(lines, i, end);
      (j >= 0 ==>
        IsReferenceCandidate(ReferenceRow(lines, i, end, fallback)) && ReferenceRow(lines, i, end, fallback) == Trim(lines[j])) &&
      (j < 0 ==> ReferenceRow(lines, i, end, fallback) == fallback) &&
      forall k :: i <= k < end && (j < 0 || k < j) ==> !IsReferenceCandidate(Trim(lines[k]))
  {
    var j := FirstCandidate(lines, i, end);
    if j >= 0 {
      FirstCandidateFound(lines, i, end);
      ReferenceLineTrim(lines[j]);
    }
    forall k | i <= k < end && (j < 0 || k < j) ensures !IsReferenceCandidate(Trim(lines[k])) {
      FirstCandidateFirst(lines, i, end, k);
      ReferenceLineTrim(lines[k]);
    }
  }

  // ---------------------------------------------------------------------
  // Closing the last table
  // ---------------------------------------------------------------------

  /** A trimmed line that looks like a separator: it starts with `|` and holds a `-` or a `:`. */
  predicate SeparatorLike(t: string) {
    |t| > 0 && t[0] == '|' && ('-' in t || ':' in t)
  }

  /** The trimmed line starts with `|` but does not end with one: an unfinished data row. */
  predicate OpenDataRow(t: string) {
    |t| > 0 && t[0] == '|' && t[|t| - 1] != '|'
  }

  /** The header line with ` |` appended when its trimmed form does not end with `|`. */
  function TerminatedHeader(line: string): string {
    var h := Trim(line);
    if |h| > 0 && h[|h| - 1] == '|' then line else line + " |"
  }

  /** The block has a second line and it looks like a separator. */
  predicate HasSeparator(lines: seq<string>, b: Block)
    requires b.end < |lines|
  {
    b.start < b.end && SeparatorLike(Trim(lines[b.start + 1]))
  }

  /** `s` with `x` spliced in at position `i`. */
  function InsertAt(s: seq<string>, i: nat, x: string): (r: seq<string>)
    requires i <= |s|
    ensures |r| == |s| + 1 && r[i] == x
    ensures forall j :: 0 <= j < i ==> r[j] == s[j]
    ensures forall j :: i <= j < |s| ==> r[j + 1] == s[j]
  {
    s[..i] + [x] + s[i..]
  }

  /** The lines after the header fix. */
  function Fixed(lines: seq<string>, b: Block): seq<string>
    requires b.start <= b.end < |lines|
  {
    lines[b.start := TerminatedHeader(lines[b.start])]
  }

  /** The number of columns: the non-empty cells of the fixed header. */
  function ColumnCount(fixed: seq<string>, b: Block): nat
    requires b.start < |fixed|
  {
    |CellWidths(Trim(fixed[b.start]))|
  }

  /**
    The new last row: a separator-like row completed to `columnCount` cells,
    an unfinished data row padded against the reference row, any other row
    as it is.
   */
  function ClosedLastRow(fixed: seq<string>, b: Block, columnCount: nat, hasSeparator: bool): string
    requires b.start <= b.end < |fixed|
  {
    var lastLine := Trim(fixed[b.end]);
    if SeparatorLike(lastLine) then
      Frame(CompletedCells(Cells(lastLine), columnCount))
    else if OpenDataRow(lastLine) then
      var refRow := ReferenceRow(fixed, b.start + (if hasSeparator then 2 else 1), b.end, Trim(fixed[b.start]));
      Frame(PaddedCells(Cells(lastLine), CellWidths(refRow)))
    else fixed[b.end]
  }

  /**
    The lines with the header replaced by `header`, the last row by `last`
    and, when there is one, `separator` spliced in after the header.
   */
  function Spliced(lines: seq<string>, b: Block, header: string, last: string, separator: Option<string>): seq<string>
    requires b.start <= b.end < |lines|
  {
    var edited := lines[b.start := header][b.end := last];
    match separator
    case None => edited
    case Some(sep) => InsertAt(edited, b.start + 1, sep)
  }

  /** The separator `closeTables` inserts: none when the table has one, else one `---` per header column. */
  function MissingSeparator(lines: seq<string>, b: Block): Option<string>
    requires b.start <= b.end < |lines|
  {
    if HasSeparator(lines, b) then None else Some(DefaultSeparator(ColumnCount(Fixed(lines, b), b)))
  }

  /** The lines after `closeTables` has edited block `b`. */
  function ClosedBlock(lines: seq<string>, b: Block): seq<string>
    requires b.start <= b.end < |lines|
  {
    var fixed := Fixed(lines, b);
    Spliced(lines, b, fixed[b.start], ClosedLastRow(fixed, b, ColumnCount(fixed, b), HasSeparator(lines, b)),
      MissingSeparator(lines, b))
  }

  /** Splicing keeps every other line, shifted past the inserted separator. */
  lemma SplicedKeepsOthers(lines: seq<string>, b: Block, header: string, last: string, separator: Option<string>)
    requires b.start <= b.end < |lines|
    ensures var r := Spliced(lines, b, header, last, separator);
      separator.None? ==>
        |r| == |lines| && forall j :: 0 <= j < |lines| && j != b.start && j != b.end ==> r[j] == lines[j]
    ensures var r := Spliced(lines, b, header, last, separator);
      separator.Some? ==>
        |r| == |lines| + 1 &&
        (forall j :: 0 <= j < b.start ==> r[j] == lines[j]) &&
        (forall j :: b.start < j < |lines| && j != b.end ==> r[j + 1] == lines[j])
  {
  }

  /** Splicing puts the header, the last row and the separator where they belong. */
  lemma SplicedRows(lines: seq<string>, b: Block, header: string, last: string, separator: Option<string>)
    requires b.start <= b.end < |lines|
    ensures var r := Spliced(lines, b, header, last, separator);
      var shift := if separator.None? then 0 else 1;
      (b.start < b.end ==> r[b.start] == header && r[b.end + shift] == last) &&
      (b.start == b.end ==> r[b.start] == last) &&
      (separator.Some? ==> r[b.start + 1] == separator.value)
  {
  }

  /** `closeTables`: the text unchanged without a table line, else its last block closed. */
  function ClosedTables(markdown: string): string {
    var lines := Split(markdown, '\n');
    match LastBlock(lines)
    case None => markdown
    case Some(b) => Join(ClosedBlock(lines, b), "\n")
  }


  /** Lines before the header, between the header and the last row, and after the table are kept, shifted past an inserted separator. */
  lemma ClosedBlockKeepsOthers(lines: seq<string>, b: Block)
    requires b.start <= b.end < |lines|
    ensures var r := ClosedBlock(lines, b);
      HasSeparator(lines, b) ==>
        |r| == |lines| && forall j :: 0 <= j < |lines| && j != b.start && j != b.end ==> r[j] == lines[j]
    ensures var r := ClosedBlock(lines, b);
      !HasSeparator(lines, b) ==>
        |r| == |lines| + 1 &&
        (forall j :: 0 <= j < b.start ==> r[j] == lines[j]) &&
        (forall j :: b.start < j < |lines| && j != b.end ==> r[j + 1] == lines[j])
  {
    var fixed := Fixed(lines, b);
    var last := ClosedLastRow(fixed, b, ColumnCount(fixed, b), HasSeparator(lines, b));
    var separator := MissingSeparator(lines, b);
    assert ClosedBlock(lines, b) == Spliced(lines, b, fixed[b.start], last, separator);
    assert separator.None? <==> HasSeparator(lines, b);
    SplicedKeepsOthers(lines, b, fixed[b.start], last, separator);
  }

  /**
    The edited rows: the header terminated, the last row closed (the header
    itself when it is the only row), and the default separator right after
    the header when the table has none.
   */
  lemma ClosedBlockRows(lines: seq<string>, b: Block)
    requires b.start <= b.end < |lines|
    ensures var r := ClosedBlock(lines, b);
      var last := ClosedLastRow(Fixed(lines, b), b, ColumnCount(Fixed(lines, b), b), HasSeparator(lines, b));
      (b.start == b.end ==> r[b.start] == last) &&
      (b.start < b.end ==> r[b.start] == TerminatedHeader(lines[b.start])) &&
      (b.start < b.end && HasSeparator(lines, b) ==> r[b.end] == last) &&
      (b.start < b.end && !HasSeparator(lines, b) ==> r[b.end + 1] == last)
    ensures !HasSeparator(lines, b) ==>
      ClosedBlock(lines, b)[b.start + 1] == DefaultSeparator(ColumnCount(Fixed(lines, b), b))
  {
    var fixed := Fixed(lines, b);
    var last := ClosedLastRow(fixed, b, ColumnCount(fixed, b), HasSeparator(lines, b));
    var separator := MissingSeparator(lines, b);
    assert ClosedBlock(lines, b) == Spliced(lines, b, fixed[b.start], last, separator);
    assert separator.None? <==> HasSeparator(lines, b);
    SplicedRows(lines, b, fixed[b.start], last, separator);
  }

  /** A line whose last character is `|` ends with `|` once trimmed. */
  lemma EndsWithPipe(line: string)
    requires line != [] && line[|line| - 1] == '|'
    ensures var h := Trim(line); |h| > 0 && h[|h| - 1] == '|'
  {
    ClosesTrim(line);
  }

  /** The terminated header ends with `|` once trimmed. */
  lemma TerminatedHeaderCloses(line: string)
    ensures var h := Trim(TerminatedHeader(line)); |h| > 0 && h[|h| - 1] == '|'
  {
    var h := Trim(line);
    if !(|h| > 0 && h[|h| - 1] == '|') {
      EndsWithPipe(line + " |");
    }
  }

  /** After the repair the header row of the table, trimmed, ends with `|`. */
  lemma HeaderEndsWithPipe(lines: seq<string>, b: Block)
    requires b.start <= b.end < |lines|
    ensures var h := Trim(ClosedBlock(lines, b)[b.start]); |h| > 0 && h[|h| - 1] == '|'
  {
    var fixed := Fixed(lines, b);
    var last := ClosedLastRow(fixed, b, ColumnCount(fixed, b), HasSeparator(lines, b));
    ClosedBlockRows(lines, b);
    TerminatedHeaderCloses(lines[b.start]);
    if b.start == b.end && last != fixed[b.end] {
      LastRowFramed(fixed, b, ColumnCount(fixed, b), HasSeparator(lines, b));
      EndsWithPipe(last);
    }
  }

  /** A closed last row that differs from the line is a framed row, so it ends with `|`. */
  lemma LastRowFramed(fixed: seq<string>, b: Block, columnCount: nat, hasSeparator: bool)
    requires b.start <= b.end < |fixed|
    ensures var row := ClosedLastRow(fixed, b, columnCount, hasSeparator);
      row == fixed[b.end] || (row != [] && row[|row| - 1] == '|')
  {
  }

  /** Lines none of which starts with `|` once trimmed hold no table block. */
  lemma NoTableLines(lines: seq<string>)
    requires forall j :: 0 <= j < |lines| ==> Trim(lines[j]) == [] || Trim(lines[j])[0] != '|'
    ensures LastBlock(lines).None?
  {
    forall j | 0 <= j < |lines| ensures !IsTableRow(lines[j]) {
      TableRowFirst(lines[j]);
    }
    LastBlockIsLast(lines);
  }

  /** A text with no line whose trimmed form starts with `|` is returned unchanged. */
  lemma NoTableUnchanged(markdown: string, lines: seq<string>)
    requires lines == Split(markdown, '\n')
    requires forall j :: 0 <= j < |lines| ==> Trim(lines[j]) == [] || Trim(lines[j])[0] != '|'
    ensures ClosedTables(markdown) == markdown
  {
    NoTableLines(lines);
  }

  /** A text with a table line is closed at its last block, which holds or follows that line. */
  lemma TableClosedAtLastBlock(markdown: string, lines: seq<string>, j: nat)
    requires lines == Split(markdown, '\n')
    requires j < |lines| && Trim(lines[j]) != [] && Trim(lines[j])[0] == '|'
    ensures LastBlock(lines).Some? && IsMaximalBlock(lines, LastBlock(lines).value)
    ensures j <= LastBlock(lines).value.end
    ensures ClosedTables(markdown) == Join(ClosedBlock(lines, LastBlock(lines).value), "\n")
  {
    TableRowFirst(lines[j]);
    LastBlockIsLast(lines);
  }

  /** With no column the inserted separator is `|  |`. */
  lemma EmptySeparatorIsPipes()
    ensures DefaultSeparator(0) == "|  |"
  {
  }

  /** `|  |` is a table row that ends with `|` and holds no `-` or `:`. */
  lemma SpacedPipes()
    ensures Trim("|  |") == "|  |" && IsTableRow("|  |") && '\n' !in "|  |"
    ensures !SeparatorLike("|  |") && !OpenDataRow("|  |")
  {
    TrimVisible("|  |");
    TableRowFirst("|  |");
  }


  /** A header whose trimmed form already ends with `|` is left as it is. */
  lemma FramedHeaderKept(lines: seq<string>, b: Block)
    requires b.start <= b.end < |lines|
    requires Trim(lines[b.start]) != [] && Trim(lines[b.start])[|Trim(lines[b.start])| - 1] == '|'
    ensures Fixed(lines, b) == lines
  {
  }

  /** A last row that is neither separator-like nor an open data row is kept. */
  lemma PlainLastRowKept(lines: seq<string>, b: Block, columnCount: nat, hasSeparator: bool)
    requires b.start <= b.end < |lines|
    requires !SeparatorLike(Trim(lines[b.end])) && !OpenDataRow(Trim(lines[b.end]))
    ensures ClosedLastRow(lines, b, columnCount, hasSeparator) == lines[b.end]
  {
  }

  /** Keeping the header and the last row only splices the separator in. */
  lemma SplicedOnly(lines: seq<string>, b: Block, sep: string)
    requires b.start <= b.end < |lines|
    ensures Spliced(lines, b, lines[b.start], lines[b.end], Some(sep)) == InsertAt(lines, b.start + 1, sep)
  {
    assert lines[b.start := lines[b.start]][b.end := lines[b.end]] == lines;
  }

  /**
    A block whose trimmed header ends with `|` but has no column, without a
    separator and with a last row that is neither separator-like nor open,
    only gains the separator `|  |` after its header.
   */
  lemma NoColumnBlockClosed(lines: seq<string>, b: Block)
    requires b.start <= b.end < |lines|
    requires Trim(lines[b.start]) != [] && Trim(lines[b.start])[|Trim(lines[b.start])| - 1] == '|'
    requires ColumnCount(lines, b) == 0
    requires !SeparatorLike(Trim(lines[b.end])) && !OpenDataRow(Trim(lines[b.end]))
    requires !HasSeparator(lines, b)
    ensures ClosedBlock(lines, b) == InsertAt(lines, b.start + 1, "|  |")
  {
    EmptySeparatorIsPipes();
    FramedHeaderKept(lines, b);
    PlainLastRowKept(lines, b, 0, false);
    assert MissingSeparator(lines, b) == Some("|  |");
    SplicedOnly(lines, b, "|  |");
  }

  /** The text is closed at block `b` of its lines. */
  lemma ClosedTablesAt(markdown: string, lines: seq<string>, b: Block)
    requires lines == Split(markdown, '\n') && LastBlock(lines) == Some(b)
    ensures ClosedTables(markdown) == Join(ClosedBlock(lines, b), "\n")
  {
  }

  /** A text whose last table is a column-less block as in `NoColumnBlockClosed` gains `|  |` after its header. */
  lemma NoColumnTableClosed(markdown: string, lines: seq<string>, b: Block)
    requires lines == Split(markdown, '\n') && LastBlock(lines) == Some(b) && b.start <= b.end < |lines|
    requires Trim(lines[b.start]) != [] && Trim(lines[b.start])[|Trim(lines[b.start])| - 1] == '|'
    requires ColumnCount(lines, b) == 0
    requires !SeparatorLike(Trim(lines[b.end])) && !OpenDataRow(Trim(lines[b.end]))
    requires !HasSeparator(lines, b)
    ensures ClosedTables(markdown) == Join(InsertAt(lines, b.start + 1, "|  |"), "\n")
  {
    ClosedTablesAt(markdown, lines, b);
    NoColumnBlockClosed(lines, b);
  }

  /** The one-character line `|`: a table row that ends with `|`, holds no `-` or `:` and has no column. */
  lemma PipeLine(pipe: string)
    requires |pipe| == 1 && pipe[0] == '|'
    ensures Trim(pipe) == pipe && IsTableRow(pipe) && '\n' !in pipe && CellWidths(pipe) == []
    ensures !SeparatorLike(pipe) && !OpenDataRow(pipe)
  {
    TrimVisible(pipe);
    TableRowFirst(pipe);
    PipeNoColumn(pipe);
  }

  /** `|` alone opens one empty cell, which gets no width. */
  lemma PipeNoColumn(pipe: string)
    requires |pipe| == 1 && pipe[0] == '|'
    ensures CellWidths(pipe) == []
  {
    assert IsDelimiter(pipe, 0);
    assert LastDelimiter(pipe, 1) == 0;
    assert LastDelimiter(pipe, 0) == -1;
    var none: seq<string> := [];
    assert Pieces(pipe, 0) == none;
    assert Pieces(pipe, 1) == [pipe[1..1]] && pipe[1..1] == [];
    assert [[]][..0] == none;
  }

  /** `|` alone: a one-line table whose header ends with `|` and has no column. */
  lemma LonePipeTable(pipe: string, lines: seq<string>)
    requires |pipe| == 1 && pipe[0] == '|' && lines == [pipe]
    ensures Split(pipe, '\n') == lines && LastBlock(lines) == Some(Block(0, 0))
    ensures Trim(lines[0]) != [] && Trim(lines[0])[|Trim(lines[0])| - 1] == '|'
    ensures ColumnCount(lines, Block(0, 0)) == 0
    ensures !SeparatorLike(Trim(lines[0])) && !OpenDataRow(Trim(lines[0])) && !HasSeparator(lines, Block(0, 0))
  {
    PipeLine(pipe);
    LastIndexOfAbsent(pipe, '\n');
  }

  /** Inserting `|  |` after the header of a one-line table and joining. */
  lemma LonePipeJoined(pipe: string, lines: seq<string>)
    requires lines == [pipe]
    ensures Join(InsertAt(lines, 1, "|  |"), "\n") == pipe + "\n|  |"
  {
    assert InsertAt(lines, 1, "|  |") == [pipe, "|  |"];
    assert [pipe, "|  |"][..1] == [pipe];
  }

  /** `closeTables("|")`: the lone pipe is a header without columns and gains `|  |`. */
  lemma LonePipeClosed(pipe: string)
    requires |pipe| == 1 && pipe[0] == '|'
    ensures ClosedTables(pipe) == pipe + "\n|  |"
  {
    var lines := [pipe];
    LonePipeTable(pipe, lines);
    LonePipeJoined(pipe, lines);
    NoColumnTableClosed(pipe, lines, Block(0, 0));
  }

  /** The two lines of `|\n|  |` split apart again. */
  lemma TwoLineTable(pipe: string, markdown: string, lines: seq<string>)
    requires |pipe| == 1 && pipe[0] == '|' && markdown == pipe + "\n|  |" && lines == [pipe, "|  |"]
    ensures Split(markdown, '\n') == lines
  {
    assert '\n' !in pipe && '\n' !in "|  |";
    assert lines[..1] == [pipe];
    assert Join(lines, "\n") == markdown;
    SplitJoin(lines, '\n');
  }

  /** `|` over `|  |` is one block: its header has no column and its second line is no separator. */
  lemma TwoLineBlock(pipe: string, lines: seq<string>)
    requires |pipe| == 1 && pipe[0] == '|' && lines == [pipe, "|  |"]
    ensures LastBlock(lines) == Some(Block(0, 1))
    ensures Trim(lines[0]) != [] && Trim(lines[0])[|Trim(lines[0])| - 1] == '|'
    ensures ColumnCount(lines, Block(0, 1)) == 0
    ensures !SeparatorLike(Trim(lines[1])) && !OpenDataRow(Trim(lines[1])) && !HasSeparator(lines, Block(0, 1))
  {
    PipeLine(pipe);
    SpacedPipes();
    assert LastRow(lines, 2) == 1;
    assert BlockStart(lines, 1) == 0;
  }

  /** Inserting `|  |` after the header of the two-line table and joining. */
  lemma TwoLineJoined(pipe: string, markdown: string, lines: seq<string>)
    requires markdown == pipe + "\n|  |" && lines == [pipe, "|  |"]
    ensures Join(InsertAt(lines, 1, "|  |"), "\n") == markdown + "\n|  |"
  {
    var r := [pipe, "|  |", "|  |"];
    assert InsertAt(lines, 1, "|  |") == r;
    assert r[..2] == lines && lines[..1] == [pipe];
    assert "\n" + "|  |" == "\n|  |";
    assert Join(lines, "\n") == pipe + "\n" + "|  |";
    assert Join(r, "\n") == Join(lines, "\n") + "\n" + "|  |";
  }

  /** Closing `|\n|  |` again: `|  |` holds no `-` or `:`, so it is not a separator and another is inserted. */
  lemma EmptySeparatorNotRecognised(pipe: string, markdown: string)
    requires |pipe| == 1 && pipe[0] == '|' && markdown == pipe + "\n|  |"
    ensures ClosedTables(markdown) == markdown + "\n|  |"
  {
    var lines := [pipe, "|  |"];
    TwoLineTable(pipe, markdown, lines);
    TwoLineBlock(pipe, lines);
    TwoLineJoined(pipe, markdown, lines);
    NoColumnTableClosed(markdown, lines, Block(0, 1));
  }

  /**
    The table closer is not idempotent: `|` is closed to `|\n|  |`, and
    closing that again inserts a second `|  |`.
   */
  lemma ClosingTableTwiceDiffers(pipe: string)
    requires |pipe| == 1 && pipe[0] == '|'
    ensures ClosedTables(ClosedTables(pipe)) != ClosedTables(pipe)
  {
    var once := pipe + "\n|  |";
    LonePipeClosed(pipe);
    EmptySeparatorNotRecognised(pipe, once);
    assert |once + "\n|  |"| != |once|;
  }



  /** The separator branch: parse the cells, complete them and frame the row. */
  method CompleteSeparatorRow(lines: seq<string>, b: Block, columnCount: nat, hasSeparator: bool, lastLine: string)
    returns (row: string)
    requires b.start <= b.end < |lines| && lastLine == Trim(lines[b.end]) && SeparatorLike(lastLine)
    ensures row == ClosedLastRow(lines, b, columnCount, hasSeparator)
  {
    var sepCells := ParseCells(lastLine);
    var completedCells := CompleteSeparatorCells(sepCells, columnCount);
    row := "| " + Join(completedCells, " | ") + " |";
  }

  /** The data-row branch: find the reference widths, pad every cell and frame the row. */
  method PadDataRow(lines: seq<string>, b: Block, columnCount: nat, hasSeparator: bool, lastLine: string)
    returns (row: string)
    requires b.start <= b.end < |lines| && lastLine == Trim(lines[b.end])
    requires !SeparatorLike(lastLine) && OpenDataRow(lastLine)
    ensures row == ClosedLastRow(lines, b, columnCount, hasSeparator)
  {
    var refRow := FindReferenceRow(lines, b.start, b.end, hasSeparator);
    var refWidths := ParseCellWidths(refRow);
    var cells := ParseCells(lastLine);
    var padded := PadCells(cells, refWidths);
    row := "| " + Join(padded, " | ") + " |";
  }

  /** The last row, closed as `closeTables` does it, given the fixed lines. */
  method CloseLastRow(lines: seq<string>, b: Block, columnCount: nat, hasSeparator: bool) returns (row: string)
    requires b.start <= b.end < |lines|
    ensures row == ClosedLastRow(lines, b, columnCount, hasSeparator)
  {
    var lastLine := Trim(lines[b.end]);
    var isSeparator := |lastLine| > 0 && lastLine[0] == '|' && ('-' in lastLine || ':' in lastLine);
    if isSeparator {
      row := CompleteSeparatorRow(lines, b, columnCount, hasSeparator, lastLine);
    } else if |lastLine| > 0 && lastLine[0] == '|' && lastLine[|lastLine| - 1] != '|' {
      row := PadDataRow(lines, b, columnCount, hasSeparator, lastLine);
    } else {
      row := lines[b.end];
    }
  }

  /** The edits `closeTables` makes to its last table `b`: header, last row, missing separator. */
  method CloseLastTable(lines0: seq<string>, b: Block) returns (lines: seq<string>)
    requires b.start <= b.end < |lines0|
    ensures lines == ClosedBlock(lines0, b)
  {
    lines := lines0;
    var start, end := b.start, b.end;
    var headerLine := Trim(lines[start]);
    if !(|headerLine| > 0 && headerLine[|headerLine| - 1] == '|') {
      lines := lines[start := lines[start] + " |"];
    }
    assert lines == Fixed(lines0, b);
    var headerWidths := ParseCellWidths(Trim(lines[start]));
    var columnCount := |headerWidths|;
    var secondLine := if end - start >= 1 then Trim(lines[start + 1]) else "";
    var hasSeparator := |secondLine| > 0 && secondLine[0] == '|' && ('-' in secondLine || ':' in secondLine);
    assert hasSeparator == HasSeparator(lines0, b);
    var row := CloseLastRow(lines, b, columnCount, hasSeparator);
    lines := lines[end := row];
    if !hasSeparator {
      lines := lines[..start + 1] + [DefaultSeparator(columnCount)] + lines[start + 1..];
    }
  }

  /** `closeTables`: split into lines, group the table lines, close the last table and join again. */
  method CloseTables(markdown: string) returns (result: string)
    ensures result == ClosedTables(markdown)
  {
    var lines := Split(markdown, '\n');
    var tableBlocks := TableBlocks(lines);
    LastOfBlocks(lines, tableBlocks);
    if |tableBlocks| == 0 {
      return markdown;
    }
    var b := tableBlocks[|tableBlocks| - 1];
    assert IsMaximalBlock(lines, b);
    lines := CloseLastTable(lines, b);
    result := Join(lines, "\n");
  }
}
