/** The string side of terminal.go: escape sequences, the raw-mode newline
    fix, and the fallback taken when the window-size query fails. */
module Terminal {
  import opened Wrappers
  import opened Text
  import opened Config

  const ESC_CHAR: char := 27 as char

  const CLEAR_SCREEN: string := [ESC_CHAR] + "[2J"
  const RESET_STYLE: string := [ESC_CHAR] + "[0m"
  const BLUE_COLOR: string := [ESC_CHAR] + "[34m"
  const RED_COLOR: string := [ESC_CHAR] + "[31m"

  /** The cursor-positioning sequence ESC '[' row ';' col 'H'. */
  function MoveCursor(row: int, col: int): string
  {
    [ESC_CHAR] + "[" + Decimal(row) + ";" + Decimal(col) + "H"
  }

  /** Reads a cursor-positioning sequence back into its row and column. */
  function ParseMoveCursor(s: string): Option<(int, int)>
  {
    if |s| >= 3 && s[0] == ESC_CHAR && s[1] == '[' && s[|s| - 1] == 'H' then
      var fields := Split(s[2..|s| - 1], ';');
      if |fields| == 2 then Some((ParseDecimal(fields[0]), ParseDecimal(fields[1]))) else None
    else None
  }

  /** MoveCursor loses nothing: its row and column read back from it. */
  lemma MoveCursorRoundTrip(row: int, col: int)
    ensures ParseMoveCursor(MoveCursor(row, col)) == Some((row, col))
  {
    var a, b := Decimal(row), Decimal(col);
    var mid := a + [';'] + b;
    var s := [ESC_CHAR] + "[" + mid + "H";
    assert MoveCursor(row, col) == s;
    assert s[0] == ESC_CHAR && s[1] == '[' && s[|s| - 1] == 'H';
    assert s[2..|s| - 1] == mid;
    DecimalHasNo(row, ';');
    DecimalHasNo(col, ';');
    SplitAround(a, ';', b);
    SplitWithout(a, ';');
    SplitWithout(b, ';');
    assert Split(mid, ';') == [a, b];
    DecimalRoundTrip(row);
    DecimalRoundTrip(col);
  }

  /** strings.ReplaceAll(s, "\n", "\r\n"): one character more per newline, and
      every newline of the result directly follows a carriage return. */
  function FixNewlines(s: string): (r: string)
    ensures |r| == |s| + Count(s, '\n')
    ensures forall i :: 0 <= i < |r| && r[i] == '\n' ==> i > 0 && r[i - 1] == '\r'
    decreases |s|
  {
    if |s| == 0 then "" else (if s[0] == '\n' then "\r\n" else [s[0]]) + FixNewlines(s[1..])
  }

  /** Drops the carriage return directly in front of each newline. */
  function StripCarriageReturns(r: string): string
    decreases |r|
  {
    if |r| == 0 then ""
    else if |r| >= 2 && r[0] == '\r' && r[1] == '\n' then "\n" + StripCarriageReturns(r[2..])
    else [r[0]] + StripCarriageReturns(r[1..])
  }

  /** Removing the inserted carriage returns recovers the input. */
  lemma {:induction false} FixNewlinesRoundTrip(s: string)
    ensures StripCarriageReturns(FixNewlines(s)) == s
    decreases |s|
  {
    if |s| > 0 {
      var rest := FixNewlines(s[1..]);
      FixNewlinesRoundTrip(s[1..]);
      if s[0] == '\n' {
        assert FixNewlines(s) == "\r\n" + rest;
        assert ("\r\n" + rest)[2..] == rest;
      } else {
        assert FixNewlines(s) == [s[0]] + rest;
        assert ([s[0]] + rest)[1..] == rest;
        if |rest| > 0 {
          assert rest[0] != '\n';
        }
      }
    }
  }

  /** A string without newlines is left as it is. */
  lemma {:induction false} FixNewlinesIdentity(s: string)
    requires '\n' !in s
    ensures FixNewlines(s) == s
    decreases |s|
  {
    if |s| > 0 {
      FixNewlinesIdentity(s[1..]);
      assert [s[0]] + s[1..] == s;
    }
  }

  /** The outcome of the TIOCGWINSZ ioctl: its errno and the reported size. */
  datatype Winsize = Winsize(errno: int, row: nat, col: nat)

  /** getTerminalSize: the reported (columns, rows) when the query succeeded
      with a non-zero size, and 80 by 24 otherwise; either way both positive. */
  function TerminalSize(ws: Winsize): (r: (int, int))
    ensures r.0 > 0 && r.1 > 0
    ensures ws.errno == 0 && ws.col > 0 && ws.row > 0 ==> r == (ws.col, ws.row)
    ensures !(ws.errno == 0 && ws.col > 0 && ws.row > 0) ==> r == (DEFAULT_TERM_WIDTH, DEFAULT_TERM_HEIGHT)
  {
    var width, height := DEFAULT_TERM_WIDTH, DEFAULT_TERM_HEIGHT;
    if ws.errno == 0 && ws.col > 0 && ws.row > 0 then (ws.col, ws.row) else (width, height)
  }
}
