/**
  The two row scanners of the table closer. A row is cut at every `|` that
  is not preceded by a backslash; text before the first such pipe belongs
  to no cell. `parseCells` trims the cells and drops a blank last one,
  `parseCellWidths` keeps the untrimmed length of every non-empty cell,
  counted in UTF-16 code units as JavaScript's `.length` counts it.
 */
module TableCells {
  import opened Strings

  // ---------------------------------------------------------------------
  // Cell boundaries
  // ---------------------------------------------------------------------

  /** A cell boundary: a `|` at `i` that does not follow a backslash (`\|` is cell text). */
  predicate IsDelimiter(row: string, i: int) {
    0 <= i < |row| && row[i] == '|' && !(i > 0 && row[i - 1] == '\\')
  }

  /** The last cell boundary before position `n`, or -1 when there is none. */
  function LastDelimiter(row: string, n: nat): (d: int)
    requires n <= |row|
    ensures -1 <= d < n
    ensures d >= 0 ==> IsDelimiter(row, d)
    ensures forall j :: d < j < n ==> !IsDelimiter(row, j)
    decreases n
  {
    if n == 0 then -1
    else if IsDelimiter(row, n - 1) then n - 1
    else LastDelimiter(row, n - 1)
  }

  /**
    The cell texts opened by the boundaries before `n`, in order: each runs
    from just after its boundary to the next boundary, the last one to `n`.
   */
  function Pieces(row: string, n: nat): (ps: seq<string>)
    requires n <= |row|
    decreases n
  {
    var d := LastDelimiter(row, n);
    if d < 0 then [] else Pieces(row, d) + [row[d + 1..n]]
  }

  /** Each piece, trimmed. */
  function TrimAll(ps: seq<string>): (ts: seq<string>)
    ensures |ts| == |ps|
    decreases |ps|
  {
    if ps == [] then [] else TrimAll(ps[..|ps| - 1]) + [Trim(ps[|ps| - 1])]
  }

  /** The lengths of the non-empty pieces in UTF-16 code units (`.length`), in order. */
  function NonEmptyLengths(ps: seq<string>): (ws: seq<nat>)
    ensures |ws| <= |ps|
    ensures forall k :: 0 <= k < |ws| ==> ws[k] >= 1
    decreases |ps|
  {
    if ps == [] then []
    else NonEmptyLengths(ps[..|ps| - 1]) + (if ps[|ps| - 1] == [] then [] else [Utf16Length(ps[|ps| - 1])])
  }

  /** What `parseCells` returns: every cell trimmed, the last one only when it is not blank. */
  function Cells(row: string): seq<string> {
    var ps := Pieces(row, |row|);
    if ps == [] then []
    else
      var t := Trim(ps[|ps| - 1]);
      TrimAll(ps[..|ps| - 1]) + (if t == [] then [] else [t])
  }

  /** What `parseCellWidths` returns: the untrimmed UTF-16 length of every non-empty cell. */
  function CellWidths(row: string): seq<nat> {
    NonEmptyLengths(Pieces(row, |row|))
  }

  // ---------------------------------------------------------------------
  // Properties of the cut
  // ---------------------------------------------------------------------

  /** An escaped pipe `\|` never cuts the row. */
  lemma EscapedPipeIsText(row: string, i: int)
    requires 0 < i < |row| && row[i] == '|' && row[i - 1] == '\\'
    ensures !IsDelimiter(row, i)
  {
  }

  /** Inside a piece every pipe is escaped: it follows a backslash in the same piece. */
  predicate EscapedOnly(p: string) {
    forall j :: 0 <= j < |p| && p[j] == '|' ==> j > 0 && p[j - 1] == '\\'
  }

  /** The text between two boundaries, or after the last one, holds no boundary. */
  lemma PieceAfterBoundary(row: string, d: int, n: nat)
    requires n <= |row| && IsDelimiter(row, d) && d < n
    requires forall j :: d < j < n ==> !IsDelimiter(row, j)
    ensures EscapedOnly(row[d + 1..n])
  {
    var p := row[d + 1..n];
    forall j | 0 <= j < |p| && p[j] == '|' ensures j > 0 && p[j - 1] == '\\' {
      assert p[j] == row[d + 1 + j];
      assert !IsDelimiter(row, d + 1 + j);
      assert row[d + j] == '\\';
      assert row[d] == '|';
    }
  }

  /** Every piece holds only escaped pipes. */
  lemma {:induction false} PiecesEscapedOnly(row: string, n: nat)
    requires n <= |row|
    ensures forall k :: 0 <= k < |Pieces(row, n)| ==> EscapedOnly(Pieces(row, n)[k])
    decreases n
  {
    var d := LastDelimiter(row, n);
    if d >= 0 {
      PiecesEscapedOnly(row, d);
      PieceAfterBoundary(row, d, n);
    }
  }

  /** Joining one more part appends the separator and that part. */
  lemma JoinSnoc(front: seq<string>, x: string, sep: string)
    requires front != []
    ensures Join(front + [x], sep) == Join(front, sep) + sep + x
  {
    assert (front + [x])[..|front|] == front;
  }

  /** Two adjacent slices around a boundary make one slice. */
  lemma SliceAround(row: string, f: int, d: int, n: nat)
    requires 0 <= f < d < n <= |row| && row[d] == '|'
    ensures row[f + 1..d] + "|" + row[d + 1..n] == row[f + 1..n]
  {
    assert row[f + 1..n] == row[f + 1..d] + row[d..d + 1] + row[d + 1..n];
  }

  /** The pieces joined by `|` give back the row after its first boundary. */
  lemma {:induction false} PiecesJoin(row: string, n: nat)
    requires n <= |row|
    ensures var ps := Pieces(row, n);
      ps != [] ==> exists f :: IsDelimiter(row, f) && f < n && Join(ps, "|") == row[f + 1..n]
    decreases n
  {
    var d := LastDelimiter(row, n);
    if d >= 0 {
      var front := Pieces(row, d);
      assert Pieces(row, n) == front + [row[d + 1..n]];
      if front == [] {
        assert Join([row[d + 1..n]], "|") == row[d + 1..n];
      } else {
        PiecesJoin(row, d);
        var f :| IsDelimiter(row, f) && f < d && Join(front, "|") == row[f + 1..d];
        JoinSnoc(front, row[d + 1..n], "|");
        SliceAround(row, f, d, n);
      }
    }
  }

  /** Every recorded width is the length of a non-empty cell, so none is zero. */
  lemma WidthsPositive(row: string)
    ensures forall k :: 0 <= k < |CellWidths(row)| ==> CellWidths(row)[k] >= 1
  {
  }

  /** A cell outside the Basic Multilingual Plane is as wide as its UTF-16 code units: `| 😀 |` has width 4. */
  lemma AstralCellWidth()
    ensures CellWidths("| \U{1F600} |") == [4]
  {
    var row := "| \U{1F600} |";
    assert LastDelimiter(row, 5) == 4;
    assert LastDelimiter(row, 4) == 0;
    assert LastDelimiter(row, 0) == -1;
    var cell := row[1..4];
    assert cell == " \U{1F600} ";
    assert cell[..2] == " \U{1F600}" && cell[..2][..1] == " " && " "[..0] == [];
    assert Utf16Length(" ") == 1;
    assert Utf16Length(" \U{1F600}") == 3;
    assert Utf16Length(cell) == 4;
    assert Pieces(row, 0) == [];
    assert Pieces(row, 4) == [cell];
    assert row[5..5] == [];
    assert Pieces(row, 5) == [cell, []];
    var none: seq<string> := [];
    assert [cell, []][..1] == [cell] && [cell][..0] == none;
    assert NonEmptyLengths([cell]) == [4];
  }

  /** A row with no boundary has no cells and no widths. */
  lemma NoBoundaryNoCells(row: string)
    requires forall i :: !IsDelimiter(row, i)
    ensures Cells(row) == [] && CellWidths(row) == []
  {
    assert LastDelimiter(row, |row|) == -1;
  }

  // ---------------------------------------------------------------------
  // The scanners
  // ---------------------------------------------------------------------

  /** One more character: the last boundary moves to `i` exactly when `i` is one. */
  lemma LastDelimiterStep(row: string, i: nat)
    requires i < |row|
    ensures LastDelimiter(row, i + 1) == if IsDelimiter(row, i) then i else LastDelimiter(row, i)
  {
  }

  /** The pieces before boundary `i`: those before the previous boundary, then the text since it. */
  lemma PiecesAtBoundary(row: string, i: nat, d: int)
    requires i < |row| && IsDelimiter(row, i) && d == LastDelimiter(row, i) && d >= 0
    ensures Pieces(row, i) == Pieces(row, d) + [row[d + 1..i]]
  {
  }

  /** The first boundary closes nothing. */
  lemma NoPiecesBeforeFirst(row: string, i: nat)
    requires i <= |row| && LastDelimiter(row, i) < 0
    ensures Pieces(row, i) == []
  {
  }

  lemma TrimAllSnoc(ps: seq<string>, x: string)
    ensures TrimAll(ps + [x]) == TrimAll(ps) + [Trim(x)]
  {
    assert (ps + [x])[..|ps|] == ps;
  }

  lemma NonEmptyLengthsSnoc(ps: seq<string>, x: string)
    ensures NonEmptyLengths(ps + [x]) == NonEmptyLengths(ps) + (if x == [] then [] else [Utf16Length(x)])
  {
    assert (ps + [x])[..|ps|] == ps;
  }

  /** At boundary `i` the widths gain the length of the cell it closes, when that cell is not empty. */
  lemma WidthsAtBoundary(row: string, i: nat, d: int, content: string)
    requires i < |row| && IsDelimiter(row, i) && d == LastDelimiter(row, i)
    requires d >= 0 ==> content == row[d + 1..i]
    ensures NonEmptyLengths(Pieces(row, i)) ==
      if d < 0 then [] else NonEmptyLengths(Pieces(row, d)) + (if content == [] then [] else [Utf16Length(content)])
  {
    if d >= 0 {
      PiecesAtBoundary(row, i, d);
      NonEmptyLengthsSnoc(Pieces(row, d), content);
    }
  }

  /** A character that is not a boundary extends the open cell. */
  lemma CellGrows(row: string, d: int, i: nat)
    requires 0 <= d < i < |row|
    ensures row[d + 1..i + 1] == row[d + 1..i] + [row[i]]
  {
  }

  /** `parseCells`: the character loop with its `cell`/`inCell` accumulators. */
  method ParseCells(row: string) returns (cells: seq<string>)
    ensures cells == Cells(row)
  {
    cells := [];
    var cell := "";
    var inCell := false;
    ghost var d := -1;
    for i := 0 to |row|
      invariant d == LastDelimiter(row, i)
      invariant inCell <==> d >= 0
      invariant d >= 0 ==> cells == TrimAll(Pieces(row, d)) && cell == row[d + 1..i]
      invariant d < 0 ==> cells == [] && cell == []
    {
      var ch := row[i];
      var isEscapedPipe := ch == '|' && i > 0 && row[i - 1] == '\\';
      LastDelimiterStep(row, i);
      if ch == '|' && !isEscapedPipe {
        if inCell {
          PiecesAtBoundary(row, i, d);
          TrimAllSnoc(Pieces(row, d), cell);
          cells := cells + [Trim(cell)];
          cell := "";
        } else {
          NoPiecesBeforeFirst(row, i);
        }
        inCell := true;
        d := i;
      } else if inCell {
        CellGrows(row, d, i);
        cell := cell + [ch];
      }
    }
    if inCell {
      assert Pieces(row, |row|) == Pieces(row, d) + [cell];
    }
    if Trim(cell) != [] {
      cells := cells + [Trim(cell)];
    }
  }

  /** `parseCellWidths`: the same loop, recording the length of each non-empty cell. */
  method ParseCellWidths(row: string) returns (widths: seq<nat>)
    ensures widths == CellWidths(row)
  {
    widths := [];
    var cellContent := "";
    var inCell := false;
    ghost var d := -1;
    for i := 0 to |row|
      invariant d == LastDelimiter(row, i)
      invariant inCell <==> d >= 0
      invariant d >= 0 ==> widths == NonEmptyLengths(Pieces(row, d)) && cellContent == row[d + 1..i]
      invariant d < 0 ==> widths == [] && cellContent == []
    {
      var ch := row[i];
      var isEscapedPipe := ch == '|' && i > 0 && row[i - 1] == '\\';
      LastDelimiterStep(row, i);
      if ch == '|' && !isEscapedPipe {
        WidthsAtBoundary(row, i, d, cellContent);
        if inCell && cellContent != [] {
          widths := widths + [Utf16Length(cellContent)];
          cellContent := "";
        }
        inCell := true;
        d := i;
      } else if inCell {
        CellGrows(row, d, i);
        cellContent := cellContent + [ch];
      }
    }
    if inCell {
      NonEmptyLengthsSnoc(Pieces(row, d), cellContent);
    }
    if inCell && cellContent != [] {
      widths := widths + [Utf16Length(cellContent)];
    }
  }
}
