/** The display formatter of display.go: the clock string, the big block-glyph
    rendering and the centring in a viewport. The glyph table is not part of
    this model; it is a parameter mapping a character to its rows. */
module Display {
  import opened Text
  import opened Config

  // ---------------------------------------------------------------- formatHMS

  /** time.Duration.Round(time.Second) of a non-negative duration, in whole
      seconds: the nearest second, a remainder of exactly half a second going
      up. The interval below pins the result down uniquely. */
  function RoundSeconds(d: int): (total: nat)
    requires d >= 0
    ensures total * SECOND - SECOND / 2 <= d < total * SECOND + SECOND / 2
  {
    var r := d % SECOND;
    if r + r < SECOND then (d - r) / SECOND else (d - r) / SECOND + 1
  }

  /** The whole seconds formatHMS shows for a duration: negatives count as 0. */
  function ShownSeconds(d: int): nat
  {
    RoundSeconds(if d < 0 then 0 else d)
  }

  /** formatHMS: "MM:SS" below an hour and "HH:MM:SS" from an hour on, every
      field zero-padded to two digits. */
  function FormatHMS(d: int): string
  {
    var total := ShownSeconds(d);
    var h, m, s := total / 3600, (total % 3600) / 60, total % 60;
    if h > 0 then Pad2(h) + ":" + Pad2(m) + ":" + Pad2(s) else Pad2(m) + ":" + Pad2(s)
  }

  /** Reads a clock string back as seconds: its ':'-separated fields as
      digits in base 60. */
  function ParseClock(str: string): nat
  {
    FieldsValue(Split(str, ':'))
  }

  function FieldsValue(fields: seq<string>): nat
    decreases |fields|
  {
    if |fields| == 0 then 0
    else FieldsValue(fields[..|fields| - 1]) * 60 + ParseDigits(fields[|fields| - 1])
  }

  /** The hours, minutes and seconds fields recompose the total. */
  lemma FieldDecomposition(total: nat)
    ensures var h, m, s := total / 3600, (total % 3600) / 60, total % 60;
      h * 3600 + m * 60 + s == total && 0 <= m < 60 && 0 <= s < 60
  {
    var h, rem := total / 3600, total % 3600;
    var m, s := rem / 60, rem % 60;
    assert total == h * 3600 + rem && 0 <= rem < 3600;
    assert rem == m * 60 + s && 0 <= s < 60;
    assert m < 60;
    Mod60(total, h * 60 + m, s);
  }

  lemma Mod60(a: int, b: int, c: int)
    requires a == b * 60 + c && 0 <= c < 60
    ensures a % 60 == c
  {
  }

  /** A negative duration shows as "00:00". */
  lemma FormatHMSNegative(d: int)
    requires d < 0
    ensures FormatHMS(d) == "00:00"
  {
    assert ShownSeconds(d) == 0;
  }

  /** Exact halves of a second round up; anything less than half rounds down. */
  lemma RoundsHalfUp(k: nat, r: int)
    requires 0 <= r < SECOND
    ensures RoundSeconds(k * SECOND + r) == if r < SECOND / 2 then k else k + 1
  {
    var t := RoundSeconds(k * SECOND + r);
    assert t * SECOND - SECOND / 2 <= k * SECOND + r < t * SECOND + SECOND / 2;
  }

  /** The shape of the clock string: five characters below an hour, eight
      from one hour up to a hundred, colons at fixed places, digits elsewhere. */
  lemma FormatHMSShape(d: int)
    ensures var str, total := FormatHMS(d), ShownSeconds(d);
      && (total < 3600 ==> |str| == 5 && str[2] == ':')
      && (3600 <= total < 360000 ==> |str| == 8 && str[2] == ':' && str[5] == ':')
      && (total >= 3600 ==> |str| >= 8 && str[|str| - 6] == ':' && str[|str| - 3] == ':')
      && (forall i :: 0 <= i < |str| && str[i] != ':' ==> IsDigit(str[i]))
  {
    var total := ShownSeconds(d);
    var h, m, s := total / 3600, (total % 3600) / 60, total % 60;
    assert m < 100 && s < 100;
    assert |Pad2(m)| == 2 && |Pad2(s)| == 2;
    if h > 0 {
      var str := Pad2(h) + ":" + Pad2(m) + ":" + Pad2(s);
      assert FormatHMS(d) == str;
      assert h < 100 <==> total < 360000;
      forall i | 0 <= i < |str| && str[i] != ':' ensures IsDigit(str[i]) {
        var ph := Pad2(h);
        if i < |ph| { assert str[i] == ph[i]; }
        else if |ph| < i < |ph| + 3 { assert str[i] == Pad2(m)[i - |ph| - 1]; }
        else if |ph| + 3 < i { assert str[i] == Pad2(s)[i - |ph| - 4]; }
      }
    } else {
      var str := Pad2(m) + ":" + Pad2(s);
      assert FormatHMS(d) == str;
      forall i | 0 <= i < |str| && str[i] != ':' ensures IsDigit(str[i]) {
        if i < 2 { assert str[i] == Pad2(m)[i]; }
        else if 2 < i { assert str[i] == Pad2(s)[i - 3]; }
      }
    }
  }

  /** Two colon-free fields joined by a colon split back into those fields. */
  lemma SplitClock2(a: string, b: string)
    requires ':' !in a && ':' !in b
    ensures Split(a + ":" + b, ':') == [a, b]
  {
    SplitWithout(a, ':');
    SplitWithout(b, ':');
    SplitAround(a, ':', b);
    assert a + ":" + b == a + [':'] + b;
  }

  /** Three colon-free fields joined by colons split back into those fields. */
  lemma SplitClock3(a: string, b: string, c: string)
    requires ':' !in a && ':' !in b && ':' !in c
    ensures Split(a + ":" + b + ":" + c, ':') == [a, b, c]
  {
    SplitWithout(a, ':');
    SplitClock2(b, c);
    SplitAround(a, ':', b + ":" + c);
    assert a + ":" + b + ":" + c == a + [':'] + (b + ":" + c);
  }

  /** Two zero-padded fields read back as minutes and seconds. */
  lemma ParseTwoFields(m: nat, s: nat)
    ensures ParseClock(Pad2(m) + ":" + Pad2(s)) == m * 60 + s
  {
    var pm, ps := Pad2(m), Pad2(s);
    SplitClock2(pm, ps);
    ParseDigitsOfPad2(m);
    ParseDigitsOfPad2(s);
    assert [pm, ps][..1] == [pm];
    assert [pm][..0] == [];
    assert FieldsValue([pm]) == m;
    assert FieldsValue([pm, ps]) == m * 60 + s;
  }

  /** Three zero-padded fields read back as hours, minutes and seconds. */
  lemma ParseThreeFields(h: nat, m: nat, s: nat)
    ensures ParseClock(Pad2(h) + ":" + Pad2(m) + ":" + Pad2(s)) == (h * 60 + m) * 60 + s
  {
    var ph, pm, ps := Pad2(h), Pad2(m), Pad2(s);
    SplitClock3(ph, pm, ps);
    var fields := [ph, pm, ps];
    ParseDigitsOfPad2(h);
    ParseDigitsOfPad2(m);
    ParseDigitsOfPad2(s);
    assert fields[..2] == [ph, pm];
    assert [ph, pm][..1] == [ph];
    assert [ph][..0] == [];
    assert FieldsValue([ph]) == h;
    assert FieldsValue([ph, pm]) == h * 60 + m;
    assert FieldsValue(fields) == (h * 60 + m) * 60 + s;
  }

  /** Each field of the clock string is the quantity it names: below an hour
      the minutes and the seconds, from an hour on the hours, the minutes
      within the hour and the seconds within the minute, each printed %02d. */
  lemma FormatHMSFields(d: int)
    ensures var f, t := Split(FormatHMS(d), ':'), ShownSeconds(d);
      t < 3600 ==>
        (f == [Pad2(t / 60), Pad2(t % 60)]
         && ParseDigits(f[0]) == t / 60 && ParseDigits(f[1]) == t % 60)
    ensures var f, t := Split(FormatHMS(d), ':'), ShownSeconds(d);
      t >= 3600 ==>
        (f == [Pad2(t / 3600), Pad2((t % 3600) / 60), Pad2(t % 60)]
         && ParseDigits(f[0]) == t / 3600 && ParseDigits(f[1]) == (t % 3600) / 60
         && ParseDigits(f[2]) == t % 60)
  {
    var t := ShownSeconds(d);
    var h, m, s := t / 3600, (t % 3600) / 60, t % 60;
    var ph, pm, ps := Pad2(h), Pad2(m), Pad2(s);
    assert ':' !in ph && ':' !in pm && ':' !in ps;
    ParseDigitsOfPad2(h);
    ParseDigitsOfPad2(m);
    ParseDigitsOfPad2(s);
    if h > 0 {
      assert FormatHMS(d) == ph + ":" + pm + ":" + ps;
      SplitClock3(ph, pm, ps);
    } else {
      assert t < 3600 && t % 3600 == t;
      assert FormatHMS(d) == pm + ":" + ps;
      SplitClock2(pm, ps);
    }
  }

  /** The clock string reads back as the shown number of seconds. */
  lemma FormatHMSRoundTrip(d: int)
    ensures ParseClock(FormatHMS(d)) == ShownSeconds(d)
  {
    var total := ShownSeconds(d);
    var h, m, s := total / 3600, (total % 3600) / 60, total % 60;
    FieldDecomposition(total);
    if h > 0 {
      ParseThreeFields(h, m, s);
    } else {
      ParseTwoFields(m, s);
    }
  }

  /** Rounding to the second never reverses the order of two durations. */
  lemma RoundSecondsMonotone(a: int, b: int)
    requires 0 <= a <= b
    ensures RoundSeconds(a) <= RoundSeconds(b)
  {
  }

  /** The shown time never decreases as the duration grows. */
  lemma FormatHMSMonotone(d1: int, d2: int)
    requires d1 <= d2
    ensures ParseClock(FormatHMS(d1)) <= ParseClock(FormatHMS(d2))
  {
    FormatHMSRoundTrip(d1);
    FormatHMSRoundTrip(d2);
    RoundSecondsMonotone(if d1 < 0 then 0 else d1, if d2 < 0 then 0 else d2);
  }

  // ----------------------------------------------------------- renderBigTime

  /** The glyph table the renderer relies on: a blank glyph for unknown
      characters, and GLYPH_HEIGHT rows for every glyph. */
  ghost predicate GlyphTable(glyphs: map<char, seq<string>>)
  {
    ' ' in glyphs && forall c :: c in glyphs ==> |glyphs[c]| == GLYPH_HEIGHT
  }

  /** The glyph drawn for a character: its own, or the blank one. */
  function Glyph(glyphs: map<char, seq<string>>, c: char): (g: seq<string>)
    requires GlyphTable(glyphs)
    ensures |g| == GLYPH_HEIGHT
    ensures g == if c in glyphs then glyphs[c] else glyphs[' ']
  {
    if c in glyphs then glyphs[c] else glyphs[' ']
  }

  /** The fit test: the text needs len*(width+spacing)-spacing columns plus a
      margin of 4, and the glyph height plus 2 rows. */
  predicate TooSmall(timeStr: string, termWidth: int, termHeight: int)
  {
    var totalWidth := |timeStr| * (GLYPH_WIDTH + GLYPH_SPACING) - GLYPH_SPACING;
    termWidth < totalWidth + 4 || termHeight < GLYPH_HEIGHT + 2
  }

  /** Row `row` of every character's glyph, in order. */
  function Cells(glyphs: map<char, seq<string>>, timeStr: string, row: nat): (cells: seq<string>)
    requires GlyphTable(glyphs) && row < GLYPH_HEIGHT
    ensures |cells| == |timeStr|
    ensures forall i :: 0 <= i < |timeStr| ==> cells[i] == Glyph(glyphs, timeStr[i])[row]
  {
    seq(|timeStr|, i requires 0 <= i < |timeStr| => Glyph(glyphs, timeStr[i])[row])
  }

  /** The big-text rows: each one the glyph rows with two spaces between. */
  function BigRows(glyphs: map<char, seq<string>>, timeStr: string): (rows: seq<string>)
    requires GlyphTable(glyphs)
    ensures |rows| == GLYPH_HEIGHT
    ensures forall r :: 0 <= r < GLYPH_HEIGHT ==> rows[r] == Join(Cells(glyphs, timeStr, r), "  ")
  {
    seq(GLYPH_HEIGHT, r requires 0 <= r < GLYPH_HEIGHT => Join(Cells(glyphs, timeStr, r), "  "))
  }

  /** What renderBigTime returns: the plain text when the viewport is too
      small, otherwise the rows joined by newlines. */
  function BigTime(glyphs: map<char, seq<string>>, timeStr: string, termWidth: int, termHeight: int): string
    requires GlyphTable(glyphs)
  {
    if TooSmall(timeStr, termWidth, termHeight) then timeStr else Join(BigRows(glyphs, timeStr), "\n")
  }

  /** renderBigTime, building each row with a builder as the source does. */
  method RenderBigTime(glyphs: map<char, seq<string>>, timeStr: string, termWidth: int, termHeight: int)
    returns (r: string)
    requires GlyphTable(glyphs)
    ensures r == BigTime(glyphs, timeStr, termWidth, termHeight)
  {
    var totalWidth := |timeStr| * (GLYPH_WIDTH + GLYPH_SPACING) - GLYPH_SPACING;
    if termWidth < totalWidth + 4 || termHeight < GLYPH_HEIGHT + 2 {
      return timeStr;
    }
    ghost var rows := BigRows(glyphs, timeStr);
    var lines: seq<string> := [];
    var row := 0;
    while row < GLYPH_HEIGHT
      invariant 0 <= row <= GLYPH_HEIGHT
      invariant lines == rows[..row]
    {
      var line := RenderRow(glyphs, timeStr, row);
      lines := lines + [line];
      assert rows[..row + 1] == rows[..row] + [rows[row]];
      row := row + 1;
    }
    assert lines == rows;
    r := Join(lines, "\n");
  }

  /** One row of the big text: the inner loop of renderBigTime. */
  method RenderRow(glyphs: map<char, seq<string>>, timeStr: string, row: nat) returns (line: string)
    requires GlyphTable(glyphs) && row < GLYPH_HEIGHT
    ensures line == Join(Cells(glyphs, timeStr, row), "  ")
  {
    ghost var cells := Cells(glyphs, timeStr, row);
    line := "";
    var i := 0;
    while i < |timeStr|
      invariant 0 <= i <= |timeStr|
      invariant i == 0 ==> line == ""
      invariant 0 < i ==> line == Join(cells[..i], "  ") + (if i < |timeStr| then "  " else "")
    {
      var glyph := if timeStr[i] in glyphs then glyphs[timeStr[i]] else glyphs[' '];
      assert glyph[row] == cells[i];
      if i > 0 {
        JoinSnoc(cells[..i], "  ", cells[i]);
        assert cells[..i + 1] == cells[..i] + [cells[i]];
      } else {
        assert cells[..1] == [cells[0]];
      }
      line := line + glyph[row];
      if i < |timeStr| - 1 {
        line := line + "  ";
      }
      i := i + 1;
    }
    assert cells[..|timeStr|] == cells;
  }

  /** The big text, when it is drawn, is exactly GLYPH_HEIGHT newline-separated
      rows, provided no glyph row holds a newline itself. */
  lemma BigTimeRows(glyphs: map<char, seq<string>>, timeStr: string, termWidth: int, termHeight: int)
    requires GlyphTable(glyphs)
    requires forall c, r :: c in glyphs && 0 <= r < |glyphs[c]| ==> '\n' !in glyphs[c][r]
    requires !TooSmall(timeStr, termWidth, termHeight)
    ensures Split(BigTime(glyphs, timeStr, termWidth, termHeight), '\n') == BigRows(glyphs, timeStr)
  {
    var rows := BigRows(glyphs, timeStr);
    forall r | 0 <= r < GLYPH_HEIGHT ensures '\n' !in rows[r] {
      JoinHasNo(Cells(glyphs, timeStr, r), "  ", '\n');
    }
    SplitJoin(rows, '\n');
  }

  lemma {:induction false} JoinHasNo(parts: seq<string>, sep: string, c: char)
    requires c !in sep
    requires forall i :: 0 <= i < |parts| ==> c !in parts[i]
    ensures c !in Join(parts, sep)
    decreases |parts|
  {
    if |parts| > 1 {
      JoinHasNo(parts[1..], sep, c);
    }
  }

  /** The width of a row of n equally wide cells: n cells plus n-1 separators. */
  lemma {:induction false} JoinWidth(parts: seq<string>, sep: string, w: nat)
    requires |parts| >= 1
    requires forall i :: 0 <= i < |parts| ==> |parts[i]| == w
    ensures |Join(parts, sep)| == |parts| * w + (|parts| - 1) * |sep|
    decreases |parts|
  {
    if |parts| > 1 {
      JoinWidth(parts[1..], sep, w);
    }
  }

  /** With glyphs GLYPH_WIDTH columns wide and two spaces between them, each
      drawn row of n characters is 10n-2 columns. */
  lemma BigRowWidth(glyphs: map<char, seq<string>>, timeStr: string, row: nat)
    requires GlyphTable(glyphs) && row < GLYPH_HEIGHT && |timeStr| >= 1
    requires forall c, r :: c in glyphs && 0 <= r < |glyphs[c]| ==> |glyphs[c][r]| == GLYPH_WIDTH
    ensures |BigRows(glyphs, timeStr)[row]| == |timeStr| * (GLYPH_WIDTH + 2) - 2
  {
    JoinWidth(Cells(glyphs, timeStr, row), "  ", GLYPH_WIDTH);
  }

  // --------------------------------------------------------------- centerText

  /** Half the free space, rounded toward zero, and never negative. */
  function Offset(free: int): (n: nat)
    ensures free >= 0 ==> n == free / 2
    ensures free < 0 ==> n == 0
  {
    var v := TruncDiv(free, 2);
    if v < 0 then 0 else v
  }

  /** A line behind the spaces that centre it in `width` columns. */
  function Padded(line: string, width: int): string
  {
    Repeat(' ', Offset(width - |line|)) + line
  }

  /** One line as centerText writes it: the padding, the line, a newline. */
  function CenteredLine(line: string, width: int): string
  {
    Padded(line, width) + "\n"
  }

  /** All lines written one after the other. */
  function CenteredLines(lines: seq<string>, width: int): string
    decreases |lines|
  {
    if |lines| == 0 then ""
    else CenteredLines(lines[..|lines| - 1], width) + CenteredLine(lines[|lines| - 1], width)
  }

  /** What centerText returns. */
  function Centered(text: string, width: int, height: int): string
  {
    var lines := Split(text, '\n');
    Repeat('\n', Offset(height - |lines|)) + CenteredLines(lines, width)
  }

  /** centerText, writing into a builder as the source does. */
  method CenterText(text: string, width: int, height: int) returns (r: string)
    ensures r == Centered(text, width, height)
  {
    var lines := Split(text, '\n');
    var vOffset := TruncDiv(height - |lines|, 2);
    if vOffset < 0 {
      vOffset := 0;
    }
    var result := "";
    var i := 0;
    while i < vOffset
      invariant 0 <= i <= vOffset
      invariant result == Repeat('\n', i)
    {
      RepeatSnoc('\n', i);
      result := result + "\n";
      i := i + 1;
    }
    assert i == vOffset;
    ghost var top := Repeat('\n', Offset(height - |lines|));
    assert result == top;
    var k := 0;
    while k < |lines|
      invariant 0 <= k <= |lines|
      invariant result == top + CenteredLines(lines[..k], width)
    {
      var line := lines[k];
      var hOffset := TruncDiv(width - |line|, 2);
      if hOffset < 0 {
        hOffset := 0;
      }
      var piece := Repeat(' ', hOffset) + line + "\n";
      AppendCentered(result, top, lines, k, width, piece);
      result := result + piece;
      k := k + 1;
    }
    assert lines[..|lines|] == lines;
    r := result;
  }

  lemma RepeatSnoc(c: char, n: nat)
    ensures Repeat(c, n + 1) == Repeat(c, n) + [c]
  {
  }

  /** One step of centerText's line loop. */
  lemma AppendCentered(result: string, top: string, lines: seq<string>, k: nat, width: int, piece: string)
    requires k < |lines|
    requires result == top + CenteredLines(lines[..k], width)
    requires piece == Repeat(' ', Offset(width - |lines[k]|)) + lines[k] + "\n"
    ensures result + piece == top + CenteredLines(lines[..k + 1], width)
  {
    assert lines[..k + 1][..k] == lines[..k];
    assert piece == CenteredLine(lines[k], width);
  }

  /** The input lines in order, each behind its padding. */
  function PaddedLines(lines: seq<string>, width: int): (rows: seq<string>)
    ensures |rows| == |lines|
    ensures forall i :: 0 <= i < |lines| ==> rows[i] == Padded(lines[i], width)
    decreases |lines|
  {
    if |lines| == 0 then []
    else PaddedLines(lines[..|lines| - 1], width) + [Padded(lines[|lines| - 1], width)]
  }

  /** Splitting drops a trailing newline's empty piece and nothing else. */
  lemma SplitTrailingNewline(s0: string)
    ensures Split(s0 + "\n", '\n') == Split(s0, '\n') + [""]
  {
    assert s0 + "\n" == s0 + ['\n'] + "";
    SplitAround(s0, '\n', "");
  }

  lemma SplitLineEnd(p: seq<string>, s: string, x: string)
    requires Split(s, '\n') == p + [""]
    requires s == "" || s[|s| - 1] == '\n'
    requires '\n' !in x
    ensures Split(s + x + "\n", '\n') == p + [x, ""]
  {
    var tail := x + "\n";
    assert Split(tail, '\n') == [x, ""] by {
      SplitWithout(x, '\n');
      SplitTrailingNewline(x);
    }
    if s == "" {
      assert |p| == 0;
      assert s + x + "\n" == tail;
    } else {
      var s0 := s[..|s| - 1];
      assert Split(s0, '\n') == p by {
        SplitDropNewline(p, s);
      }
      assert s + x + "\n" == s0 + ['\n'] + tail;
      SplitAround(s0, '\n', tail);
    }
  }

  lemma SplitDropNewline(p: seq<string>, s: string)
    requires Split(s, '\n') == p + [""]
    requires |s| > 0 && s[|s| - 1] == '\n'
    ensures Split(s[..|s| - 1], '\n') == p
  {
    var s0 := s[..|s| - 1];
    var q := Split(s0, '\n');
    assert q + [""] == p + [""] by {
      assert s == s0 + "\n";
      SplitTrailingNewline(s0);
    }
    assert |q| == |p|;
    assert q == (q + [""])[..|q|];
    assert p == (p + [""])[..|p|];
  }

  lemma PaddedHasNo(x: string, width: int)
    requires '\n' !in x
    ensures '\n' !in Padded(x, width)
  {
    var pad := Repeat(' ', Offset(width - |x|));
    assert '\n' !in pad;
  }

  /** One more line appended to the vertical padding and the centred lines. */
  lemma CenteredStep(v: nat, init: seq<string>, x: string, width: int)
    ensures Repeat('\n', v) + CenteredLines(init + [x], width)
      == (Repeat('\n', v) + CenteredLines(init, width)) + Padded(x, width) + "\n"
    ensures PaddedLines(init + [x], width) == PaddedLines(init, width) + [Padded(x, width)]
  {
    assert (init + [x])[..|init|] == init;
  }

  lemma {:induction false} SplitCenteredLines(v: nat, lines: seq<string>, width: int)
    requires forall i :: 0 <= i < |lines| ==> '\n' !in lines[i]
    ensures var s := Repeat('\n', v) + CenteredLines(lines, width);
      && Split(s, '\n') == seq(v, _ => "") + PaddedLines(lines, width) + [""]
      && (s == "" || s[|s| - 1] == '\n')
    decreases |lines|
  {
    if |lines| == 0 {
      SplitRepeat(v, '\n');
      assert Repeat('\n', v) + "" == Repeat('\n', v);
      assert seq(v + 1, _ => "") == seq(v, _ => "") + [""];
    } else {
      var init, x := lines[..|lines| - 1], lines[|lines| - 1];
      assert lines == init + [x];
      SplitCenteredLines(v, init, width);
      PaddedHasNo(x, width);
      SplitLineEnd(seq(v, _ => "") + PaddedLines(init, width), Repeat('\n', v) + CenteredLines(init, width), Padded(x, width));
      CenteredStep(v, init, x, width);
    }
  }

  /** centerText's layout: Offset(height - n) blank lines, then each input line
      in order and unchanged behind its padding, each ended by a newline; so
      the result ends in a newline and holds exactly padding-plus-n of them. */
  lemma CenteredLayout(text: string, width: int, height: int)
    ensures var lines, r := Split(text, '\n'), Centered(text, width, height);
      var v := Offset(height - |lines|);
      && Split(r, '\n') == seq(v, _ => "") + PaddedLines(lines, width) + [""]
      && |r| > 0 && r[|r| - 1] == '\n'
      && Count(r, '\n') == v + |lines|
  {
    var lines := Split(text, '\n');
    var v := Offset(height - |lines|);
    assert Centered(text, width, height) == Repeat('\n', v) + CenteredLines(lines, width);
    SplitPieces(text, '\n');
    LinesLayout(v, lines, width);
  }

  /** The layout of the vertical padding followed by the centred lines. */
  lemma LinesLayout(v: nat, lines: seq<string>, width: int)
    requires |lines| >= 1
    requires forall i :: 0 <= i < |lines| ==> '\n' !in lines[i]
    ensures var s := Repeat('\n', v) + CenteredLines(lines, width);
      && Split(s, '\n') == seq(v, _ => "") + PaddedLines(lines, width) + [""]
      && |s| > 0 && s[|s| - 1] == '\n'
      && Count(s, '\n') == v + |lines|
  {
    var s := Repeat('\n', v) + CenteredLines(lines, width);
    var pieces := seq(v, _ => "") + PaddedLines(lines, width) + [""];
    SplitCenteredLines(v, lines, width);
    assert |pieces| == v + |lines| + 1;
    CountSplit(s, '\n');
  }
}
