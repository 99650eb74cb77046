/** `get_sudoku_string` of basics/8_refactoring/sudoku_solver.py: a 9x9 array
    rendered as nine row lines, with a line of 21 dashes before rows 3 and 6.
    A row line shows the three blocks of three cells, a cell as its digit or
    `.` for 0, cells separated by single spaces and blocks by " | ". */
module SudokuText {
  import opened Wrappers
  import opened Board
  import opened Text

  /** The array has shape (9, 9). */
  predicate Is9x9(s: seq<seq<int>>) {
    |s| == 9 && forall i :: 0 <= i < 9 ==> |s[i]| == 9
  }

  /** `str(num) if num != 0 else '.'`. */
  function Show(v: int): string {
    if v == 0 then "." else IntToString(v)
  }

  /** `" ".join(...)` over the three cells of the block starting at column `j`. */
  function BlockText(row: seq<int>, j: int): string
    requires |row| == 9 && 0 <= j <= 6
  {
    Join(" ", [Show(row[j]), Show(row[j + 1]), Show(row[j + 2])])
  }

  /** `" | ".join(formatted_row)`. */
  function RowLine(row: seq<int>): string
    requires |row| == 9
  {
    Join(" | ", [BlockText(row, 0), BlockText(row, 3), BlockText(row, 6)])
  }

  /** `"-" * 21`. */
  const Separator: string := "---------------------"

  lemma SeparatorIsRepeat()
    ensures Separator == Repeat('-', 21)
  {
  }

  /** The rendered row lines, one per row. */
  function RowLines(s: seq<seq<int>>): (r: seq<string>)
    requires Is9x9(s)
    ensures |r| == 9 && forall i :: 0 <= i < 9 ==> r[i] == RowLine(s[i])
  {
    seq(9, i requires 0 <= i < 9 => RowLine(s[i]))
  }

  /** The lines appended by the first `n` passes of the loop over `i`, given
      the rendered rows. */
  function LinesUpTo(rows: seq<string>, n: int): seq<string>
    requires |rows| == 9 && 0 <= n <= 9
    decreases n
  {
    if n == 0 then []
    else
      var i := n - 1;
      LinesUpTo(rows, i) + (if i % 3 == 0 && i != 0 then [Separator] else []) + [rows[i]]
  }

  /** All lines of the loop over `range(9)`. */
  function Lines(rows: seq<string>): seq<string>
    requires |rows| == 9
  {
    LinesUpTo(rows, |rows|)
  }

  /** `get_sudoku_string`: `ValueError` for any shape other than 9x9,
      otherwise the lines joined by newlines. */
  function GetSudokuString(s: seq<seq<int>>): (r: Result<string>)
    ensures r.Err? <==> !Is9x9(s)
    ensures r.Err? ==> r.error == ValueError("Input must be a 9x9 array.")
  {
    if !Is9x9(s) then Err(ValueError("Input must be a 9x9 array."))
    else Ok(Join("\n", Lines(RowLines(s))))
  }

  /** Number of separators above row `i` (for `i` in 0..8); it equals `i / 3`. */
  function Third(i: int): int {
    if i >= 6 then 2 else if i >= 3 then 1 else 0
  }

  /** The loop's separator test, for the row indices it sees. */
  lemma SeparatorBefore(i: int)
    requires 0 <= i < 9
    ensures (i % 3 == 0 && i != 0) <==> (i == 3 || i == 6)
    ensures i / 3 == Third(i)
  {
  }

  /** The pass for row `i` appends a separator first exactly when `i` is 3 or 6. */
  lemma LinesStep(rows: seq<string>, n: int)
    requires |rows| == 9 && 0 < n <= 9
    ensures LinesUpTo(rows, n) == LinesUpTo(rows, n - 1) + (if n - 1 == 3 || n - 1 == 6 then [Separator] else []) + [rows[n - 1]]
  {
    SeparatorBefore(n - 1);
  }

  lemma {:induction false} LinesLength(rows: seq<string>, n: int)
    requires |rows| == 9 && 0 <= n <= 9
    ensures |LinesUpTo(rows, n)| == n + Third(n - 1)
    decreases n
  {
    if n > 0 {
      LinesLength(rows, n - 1);
      LinesStep(rows, n);
    }
  }

  /** After `n` passes: one line per row, row `i` on line `i + i / 3`, and
      the separators on lines 3 and 7 once rows 3 and 6 are reached. */
  lemma {:induction false} LinesShape(rows: seq<string>, n: int)
    requires |rows| == 9 && 0 <= n <= 9
    ensures |LinesUpTo(rows, n)| == n + Third(n - 1)
    ensures forall i :: 0 <= i < n ==> LinesUpTo(rows, n)[i + Third(i)] == rows[i]
    ensures n > 3 ==> LinesUpTo(rows, n)[3] == Separator
    ensures n > 6 ==> LinesUpTo(rows, n)[7] == Separator
    decreases n
  {
    if n > 0 {
      var prev := LinesUpTo(rows, n - 1);
      LinesShape(rows, n - 1);
      LinesStep(rows, n);
      LinesLength(rows, n);
      forall i | 0 <= i < n - 1
        ensures LinesUpTo(rows, n)[i + Third(i)] == rows[i]
      {
        assert LinesUpTo(rows, n)[i + Third(i)] == prev[i + Third(i)];
      }
    }
  }

  /** Every line index is a separator or holds exactly one row. */
  function RowOfLine(m: int): int {
    if m >= 8 then m - 2 else if m >= 4 then m - 1 else m
  }

  lemma LineIndex(m: int)
    requires 0 <= m < 11
    ensures m == 3 || m == 7 || (0 <= RowOfLine(m) < 9 && RowOfLine(m) + Third(RowOfLine(m)) == m)
  {
  }

  /** The character shown for a board entry. */
  function CellChar(v: int): char
    requires 0 <= v <= 9
  {
    if v == 0 then '.' else DigitChar(v)
  }

  /** Column of the character that shows cell `k` of a row line: two
      characters per cell and two more per block boundary passed. */
  function CharPos(k: int): int {
    2 * k + 2 * Third(k)
  }

  lemma ShowEntry(v: int)
    requires 0 <= v <= 9
    ensures Show(v) == [CellChar(v)]
  {
    if v != 0 {
      DigitToString(v);
    }
  }

  /** A block is five characters: three cells with a space between each. */
  lemma BlockTextChars(row: seq<int>, j: int)
    requires |row| == 9 && 0 <= j <= 6 && forall k :: 0 <= k < 9 ==> 0 <= row[k] <= 9
    ensures var t := BlockText(row, j);
      && |t| == 5 && t[1] == ' ' && t[3] == ' '
      && t[0] == CellChar(row[j]) && t[2] == CellChar(row[j + 1]) && t[4] == CellChar(row[j + 2])
  {
    ShowEntry(row[j]);
    ShowEntry(row[j + 1]);
    ShowEntry(row[j + 2]);
    Join3(" ", Show(row[j]), Show(row[j + 1]), Show(row[j + 2]));
  }

  /** Three five-character blocks joined by " | ". */
  lemma JoinedBlocks(x: string, y: string, z: string)
    requires |x| == 5 && |y| == 5 && |z| == 5
    ensures var l := x + " | " + y + " | " + z;
      && |l| == 21
      && (forall i :: 0 <= i < 5 ==> l[i] == x[i] && l[8 + i] == y[i] && l[16 + i] == z[i])
      && l[5..8] == " | " && l[13..16] == " | "
  {
  }

  /** For entries 0..9 a row line is 21 characters: cell `k` at `CharPos(k)`,
      and " | " between blocks. */
  lemma RowLineLayout(row: seq<int>)
    requires |row| == 9 && forall k :: 0 <= k < 9 ==> 0 <= row[k] <= 9
    ensures var line := RowLine(row);
      && |line| == 21
      && (forall k :: 0 <= k < 9 ==> line[CharPos(k)] == CellChar(row[k]))
      && line[5..8] == " | " && line[13..16] == " | "
  {
    var b0, b3, b6 := BlockText(row, 0), BlockText(row, 3), BlockText(row, 6);
    BlockTextChars(row, 0);
    BlockTextChars(row, 3);
    BlockTextChars(row, 6);
    Join3(" | ", b0, b3, b6);
    JoinedBlocks(b0, b3, b6);
    var line := RowLine(row);
    forall k | 0 <= k < 9
      ensures line[CharPos(k)] == CellChar(row[k])
    {
      if k < 3 {
        assert line[CharPos(k)] == b0[2 * k];
      } else if k < 6 {
        assert line[CharPos(k)] == b3[2 * (k - 3)];
      } else {
        assert line[CharPos(k)] == b6[2 * (k - 6)];
      }
    }
  }

  /** No rendered cell contains a newline. */
  lemma RowLineNoNewline(row: seq<int>)
    requires |row| == 9
    ensures '\n' !in RowLine(row)
  {
    forall k | 0 <= k < 9
      ensures '\n' !in Show(row[k])
    {
      IntToStringNoChar(row[k], '\n');
    }
    Join3(" ", Show(row[0]), Show(row[1]), Show(row[2]));
    Join3(" ", Show(row[3]), Show(row[4]), Show(row[5]));
    Join3(" ", Show(row[6]), Show(row[7]), Show(row[8]));
    Join3(" | ", BlockText(row, 0), BlockText(row, 3), BlockText(row, 6));
  }

  /** No line of the rendering contains a newline. */
  lemma NoNewline(s: seq<seq<int>>)
    requires Is9x9(s)
    ensures |Lines(RowLines(s))| == 11
    ensures forall m :: 0 <= m < 11 ==> '\n' !in Lines(RowLines(s))[m]
  {
    var lines := Lines(RowLines(s));
    LinesShape(RowLines(s), |RowLines(s)|);
    forall m | 0 <= m < 11
      ensures '\n' !in lines[m]
    {
      LineIndex(m);
      if m != 3 && m != 7 {
        RowLineNoNewline(s[RowOfLine(m)]);
      }
    }
  }

  /** Reading the board back from the rendering: row `i` is on line
      `i + i / 3`, cell `k` at `CharPos(k)`, `.` meaning 0. */
  function ReadCell(c: char): int {
    if IsDigitChar(c) then DigitValue(c) else 0
  }

  function ReadBoard(lines: seq<string>): Grid
    requires |lines| == 11 && forall m :: 0 <= m < 11 ==> |lines[m]| == 21
  {
    seq(9, i requires 0 <= i < 9 => seq(9, k requires 0 <= k < 9 => ReadCell(lines[i + Third(i)][CharPos(k)])))
  }

  /** The rendering has 11 lines: nine rows and two separators. */
  lemma ElevenLines(s: seq<seq<int>>)
    requires Is9x9(s)
    ensures GetSudokuString(s).Ok? && |Split(GetSudokuString(s).value, '\n')| == 11
  {
    NoNewline(s);
    SplitJoin(Lines(RowLines(s)), '\n');
  }

  /** Splitting the rendering at newlines gives back the loop's lines. */
  lemma SplitRendering(s: seq<seq<int>>)
    requires Is9x9(s)
    ensures GetSudokuString(s).Ok? && Split(GetSudokuString(s).value, '\n') == Lines(RowLines(s))
  {
    NoNewline(s);
    SplitJoin(Lines(RowLines(s)), '\n');
  }

  /** With rows of 21 characters, every line is 21 characters. */
  lemma LinesWidth(rows: seq<string>)
    requires |rows| == 9 && forall i :: 0 <= i < 9 ==> |rows[i]| == 21
    ensures |Lines(rows)| == 11 && forall m :: 0 <= m < 11 ==> |Lines(rows)[m]| == 21
  {
    LinesShape(rows, |rows|);
    forall m | 0 <= m < 11
      ensures |Lines(rows)[m]| == 21
    {
      LineIndex(m);
    }
  }

  /** `line` shows row `i` of `b`: 21 characters, cell `k` at `CharPos(k)`. */
  predicate ShowsRow(line: string, b: Grid, i: int)
    requires IsBoard(b) && 0 <= i < 9
  {
    |line| == 21 && forall k :: 0 <= k < 9 ==> line[CharPos(k)] == CellChar(b[i][k])
  }

  lemma ReadBoardOf(b: Grid, lines: seq<string>)
    requires IsBoard(b) && |lines| == 11 && forall m :: 0 <= m < 11 ==> |lines[m]| == 21
    requires forall i :: 0 <= i < 9 ==> ShowsRow(lines[i + Third(i)], b, i)
    ensures ReadBoard(lines) == b
  {
    var r := ReadBoard(lines);
    forall i, k | 0 <= i < 9 && 0 <= k < 9
      ensures r[i][k] == b[i][k]
    {
      assert ShowsRow(lines[i + Third(i)], b, i);
      assert lines[i + Third(i)][CharPos(k)] == CellChar(b[i][k]);
    }
    BoardExt(r, b);
  }

  /** Every rendered row shows its row of the board. */
  lemma RowsLayout(b: Grid)
    requires IsBoard(b)
    ensures forall i :: 0 <= i < 9 ==> ShowsRow(RowLines(b)[i], b, i)
  {
    forall i | 0 <= i < 9
      ensures ShowsRow(RowLines(b)[i], b, i)
    {
      RowLineLayout(b[i]);
    }
  }

  /** Row `i` is shown on line `i + i / 3`. */
  lemma CellsOnLines(b: Grid, rows: seq<string>)
    requires IsBoard(b) && |rows| == 9 && forall i :: 0 <= i < 9 ==> ShowsRow(rows[i], b, i)
    ensures forall i :: 0 <= i < 9 ==> ShowsRow(Lines(rows)[i + Third(i)], b, i)
  {
    LinesShape(rows, |rows|);
  }

  /** The rendering loses nothing: the board is recovered from its lines. */
  lemma ReadBackRendering(b: Grid)
    requires IsBoard(b)
    ensures GetSudokuString(b).Ok?
    ensures var lines := Split(GetSudokuString(b).value, '\n');
      |lines| == 11 && (forall m :: 0 <= m < 11 ==> |lines[m]| == 21) && ReadBoard(lines) == b
  {
    SplitRendering(b);
    var rows := RowLines(b);
    RowsLayout(b);
    LinesWidth(rows);
    CellsOnLines(b, rows);
    ReadBoardOf(b, Lines(rows));
  }
}
