/**
 * The frame composer: the grid of cells becomes one block of text, row after
 * row, each row closed by a line break. When colour mode is on and the
 * terminal accepts escape sequences, each glyph is preceded by the SGR
 * sequence ESC [ 38 ; 2 ; r ; g ; b m that selects a 24-bit foreground
 * colour: select graphic rendition (ECMA-48, section 8.3.117) with the
 * 38;2 direct-colour parameter of ITU-T T.416.
 *
 * Beside the composer stand its inverses: splitting the text into lines
 * gives back the rows, and reading the escape sequences gives back the cells.
 */
module FrameComposer {
  import opened Wrappers
  import opened GlyphMapper
  import opened FrameRasterizer

  const Esc: char := '\U{1B}'
  const NewLine: char := '\n'

  /** The start of a 24-bit foreground SGR sequence, up to the red value. */
  const SgrPrefix: string := [Esc] + "[38;2;"

  /** The SGR sequence that restores default rendition after a coloured frame. */
  const ResetSgr: string := [Esc] + "[0m"

  /** True when cells are written with their colour sequences. */
  predicate Colored(s: Settings) {
    s.useColors && s.ansiSupported
  }

  // ---------------------------------------------------------------------
  // Decimal numbers, as string interpolation writes a byte
  // ---------------------------------------------------------------------

  predicate IsDigit(c: char) {
    '0' <= c <= '9'
  }

  predicate AllDigits(t: string) {
    forall i :: 0 <= i < |t| ==> IsDigit(t[i])
  }

  /** The decimal digits of `n`, most significant first, without leading zeros. */
  function Decimal(n: nat): (t: string)
    ensures 1 <= |t| && AllDigits(t)
    ensures |t| > 1 ==> t[0] != '0'
    decreases n
  {
    var last := ('0' as int + n % 10) as char;
    if n < 10 then [last] else Decimal(n / 10) + [last]
  }

  /** The number a string of decimal digits denotes. */
  function DecimalValue(t: string): nat
    requires AllDigits(t)
  {
    if t == [] then 0
    else DecimalValue(t[..|t| - 1]) * 10 + (t[|t| - 1] as int - '0' as int)
  }

  /** Reading the digits back gives the number. */
  lemma {:induction false} DecimalRoundTrip(n: nat)
    ensures DecimalValue(Decimal(n)) == n
    decreases n
  {
    var t := Decimal(n);
    if n >= 10 {
      DecimalRoundTrip(n / 10);
      assert t[..|t| - 1] == Decimal(n / 10);
    }
  }

  // ---------------------------------------------------------------------
  // Composition
  // ---------------------------------------------------------------------

  /** The SGR sequence that selects the colour `c` for the glyphs that follow. */
  function SgrColor(c: Rgb): string {
    SgrPrefix + Decimal(c.r as nat) + ";" + Decimal(c.g as nat) + ";" + Decimal(c.b as nat) + "m"
  }

  /** The text of one cell: its glyph, preceded by its colour in colour mode. */
  function CellText(p: PixelInfo, s: Settings): string {
    if Colored(s) then SgrColor(p.color) + [p.symbol] else [p.symbol]
  }

  /** The cells of a row, left to right. */
  function RowText(row: seq<PixelInfo>, s: Settings): string {
    if row == [] then [] else CellText(row[0], s) + RowText(row[1..], s)
  }

  /** The rows of a grid, top to bottom, each followed by a line break. */
  function FrameText(rows: seq<seq<PixelInfo>>, s: Settings): string {
    if rows == [] then [] else RowText(rows[0], s) + [NewLine] + FrameText(rows[1..], s)
  }

  lemma {:induction false} RowTextSnoc(row: seq<PixelInfo>, p: PixelInfo, s: Settings)
    ensures RowText(row + [p], s) == RowText(row, s) + CellText(p, s)
  {
    if row != [] {
      assert (row + [p])[1..] == row[1..] + [p];
      RowTextSnoc(row[1..], p, s);
    }
  }

  lemma {:induction false} FrameTextSnoc(rows: seq<seq<PixelInfo>>, row: seq<PixelInfo>, s: Settings)
    ensures FrameText(rows + [row], s) == FrameText(rows, s) + RowText(row, s) + [NewLine]
  {
    if rows != [] {
      var head, tail := RowText(rows[0], s) + [NewLine], RowText(row, s) + [NewLine];
      var rest := FrameText(rows[1..], s);
      FrameTextCons(rows, row, s);
      FrameTextSnoc(rows[1..], row, s);
      AppendAssoc(head, rest, tail);
      AppendAssoc(head + rest, RowText(row, s), [NewLine]);
    } else {
      assert rows + [row] == [row];
      assert FrameText([row], s) == RowText(row, s) + [NewLine] + FrameText([], s);
    }
  }

  lemma AppendAssoc<T>(a: seq<T>, b: seq<T>, c: seq<T>)
    ensures a + (b + c) == (a + b) + c
  {
  }

  lemma FrameTextCons(rows: seq<seq<PixelInfo>>, row: seq<PixelInfo>, s: Settings)
    requires rows != []
    ensures FrameText(rows + [row], s) == RowText(rows[0], s) + [NewLine] + FrameText(rows[1..] + [row], s)
  {
    assert (rows + [row])[0] == rows[0];
    assert (rows + [row])[1..] == rows[1..] + [row];
  }

  /**
   * Builds the text of the grid held in `output`: the cells of each row,
   * left to right, then a line break, rows from top to bottom.
   */
  method Compose(output: array2<PixelInfo>, s: Settings) returns (text: string)
    ensures text == FrameText(Cells(output), s)
  {
    ghost var grid := Cells(output);
    text := [];
    var y := 0;
    while y < output.Length0
      invariant 0 <= y <= output.Length0
      invariant text == FrameText(grid[..y], s)
    {
      var line := ComposeRow(output, y, s);
      text := text + line + [NewLine];
      assert grid[..y + 1] == grid[..y] + [grid[y]];
      FrameTextSnoc(grid[..y], grid[y], s);
      y := y + 1;
    }
    assert grid[..y] == grid;
  }

  /** The text of row `y` of `output`: each cell, with its colour sequence in colour mode. */
  method ComposeRow(output: array2<PixelInfo>, y: nat, s: Settings) returns (line: string)
    requires y < output.Length0
    ensures line == RowText(Cells(output)[y], s)
  {
    ghost var row := Cells(output)[y];
    line := [];
    var x := 0;
    while x < output.Length1
      invariant 0 <= x <= output.Length1
      invariant line == RowText(row[..x], s)
    {
      var pixel := output[y, x];
      if Colored(s) {
        line := line + (SgrColor(pixel.color) + [pixel.symbol]);
      } else {
        line := line + [pixel.symbol];
      }
      assert row[..x + 1] == row[..x] + [pixel];
      RowTextSnoc(row[..x], pixel, s);
      x := x + 1;
    }
    assert row[..x] == row;
  }

  // ---------------------------------------------------------------------
  // Lines of a frame
  // ---------------------------------------------------------------------

  /** Length of the first line of `t`: the characters before its first line break. */
  function LineLength(t: string): (k: nat)
    ensures k <= |t|
    ensures forall i :: 0 <= i < k ==> t[i] != NewLine
    ensures k < |t| ==> t[k] == NewLine
  {
    if t == [] || t[0] == NewLine then 0 else 1 + LineLength(t[1..])
  }

  /** The lines of `t`, without their line breaks. */
  function Lines(t: string): seq<string>
    decreases |t|
  {
    if t == [] then []
    else
      var k := LineLength(t);
      [t[..k]] + if k < |t| then Lines(t[k + 1..]) else []
  }

  lemma {:induction false} LineLengthOfLine(line: string, rest: string)
    requires NewLine !in line
    ensures LineLength(line + [NewLine] + rest) == |line|
  {
    if line != [] {
      assert (line + [NewLine] + rest)[1..] == line[1..] + [NewLine] + rest;
      LineLengthOfLine(line[1..], rest);
    }
  }

  lemma LinesCons(line: string, rest: string)
    requires NewLine !in line
    ensures Lines(line + [NewLine] + rest) == [line] + Lines(rest)
  {
    var t := line + [NewLine] + rest;
    LineLengthOfLine(line, rest);
    assert t[..|line|] == line;
    assert t[|line| + 1..] == rest;
  }

  lemma DecimalHasNoLineBreak(n: nat)
    ensures NewLine !in Decimal(n)
  {
  }

  lemma {:induction false} RowTextHasNoLineBreak(row: seq<PixelInfo>, s: Settings)
    requires forall i :: 0 <= i < |row| ==> row[i].symbol != NewLine
    ensures NewLine !in RowText(row, s)
  {
    if row != [] {
      var c := row[0].color;
      DecimalHasNoLineBreak(c.r as nat);
      DecimalHasNoLineBreak(c.g as nat);
      DecimalHasNoLineBreak(c.b as nat);
      assert NewLine !in CellText(row[0], s);
      RowTextHasNoLineBreak(row[1..], s);
    }
  }

  /** No cell of the grid holds a line break as its glyph. */
  ghost predicate NoLineBreakGlyph(rows: seq<seq<PixelInfo>>) {
    forall y, x :: 0 <= y < |rows| && 0 <= x < |rows[y]| ==> rows[y][x].symbol != NewLine
  }

  /**
   * Splitting a composed frame at its line breaks gives back exactly one
   * line per row of the grid: the text of that row.
   */
  lemma {:induction false} FrameLines(rows: seq<seq<PixelInfo>>, s: Settings)
    requires NoLineBreakGlyph(rows)
    ensures |Lines(FrameText(rows, s))| == |rows|
    ensures forall y :: 0 <= y < |rows| ==> Lines(FrameText(rows, s))[y] == RowText(rows[y], s)
  {
    if rows != [] {
      FirstLine(rows, s);
      FrameLines(rows[1..], s);
      RowTextsCons(rows, s, Lines(FrameText(rows, s)), Lines(FrameText(rows[1..], s)));
    } else {
      assert FrameText(rows, s) == [];
    }
  }

  lemma RowTextsCons(rows: seq<seq<PixelInfo>>, s: Settings, lines: seq<string>, rest: seq<string>)
    requires rows != [] && lines == [RowText(rows[0], s)] + rest && |rest| == |rows[1..]|
    requires forall y :: 0 <= y < |rows[1..]| ==> rest[y] == RowText(rows[1..][y], s)
    ensures |lines| == |rows| && forall y :: 0 <= y < |rows| ==> lines[y] == RowText(rows[y], s)
  {
    forall y | 1 <= y < |rows| ensures lines[y] == RowText(rows[y], s) {
      assert lines[y] == rest[y - 1] && rows[1..][y - 1] == rows[y];
    }
  }

  /** The first line of a composed frame is the text of its first row. */
  lemma FirstLine(rows: seq<seq<PixelInfo>>, s: Settings)
    requires rows != [] && NoLineBreakGlyph(rows)
    ensures Lines(FrameText(rows, s)) == [RowText(rows[0], s)] + Lines(FrameText(rows[1..], s))
  {
    RowTextHasNoLineBreak(rows[0], s);
    LinesCons(RowText(rows[0], s), FrameText(rows[1..], s));
  }

  /** Without colour sequences a row's text is its glyphs, one character per cell. */
  lemma {:induction false} PlainRowText(row: seq<PixelInfo>, s: Settings)
    requires !Colored(s)
    ensures |RowText(row, s)| == |row|
    ensures forall x :: 0 <= x < |row| ==> RowText(row, s)[x] == row[x].symbol
  {
    if row != [] {
      PlainRowText(row[1..], s);
    }
  }

  /**
   * Without colour sequences a frame of `height` rows of `width` cells is
   * exactly `height` lines of exactly `width` characters, the glyphs in
   * row-major order, each line closed by a line break.
   */
  lemma PlainFrameShape(rows: seq<seq<PixelInfo>>, width: nat, s: Settings)
    requires !Colored(s)
    requires IsRect(rows, width) && NoLineBreakGlyph(rows)
    ensures |Lines(FrameText(rows, s))| == |rows|
    ensures forall y :: 0 <= y < |rows| ==> |Lines(FrameText(rows, s))[y]| == width
    ensures forall y, x :: 0 <= y < |rows| && 0 <= x < width ==>
      Lines(FrameText(rows, s))[y][x] == rows[y][x].symbol
    ensures |FrameText(rows, s)| == |rows| * (width + 1)
  {
    FrameLines(rows, s);
    forall y | 0 <= y < |rows|
      ensures |RowText(rows[y], s)| == width
      ensures forall x :: 0 <= x < width ==> RowText(rows[y], s)[x] == rows[y][x].symbol
    {
      PlainRowText(rows[y], s);
    }
    PlainFrameLength(rows, width, s);
  }

  /** Helper for `PlainFrameShape`: the character count of a plain frame. */
  lemma {:induction false} PlainFrameLength(rows: seq<seq<PixelInfo>>, width: nat, s: Settings)
    requires !Colored(s) && IsRect(rows, width)
    ensures |FrameText(rows, s)| == |rows| * (width + 1)
  {
    if rows != [] {
      PlainRowText(rows[0], s);
      PlainFrameLength(rows[1..], width, s);
    }
  }

  // ---------------------------------------------------------------------
  // Reading colour sequences back
  // ---------------------------------------------------------------------

  /** Length of the run of digits at the start of `t`. */
  function DigitRun(t: string): (k: nat)
    ensures k <= |t| && AllDigits(t[..k])
    ensures k < |t| ==> !IsDigit(t[k])
  {
    if t == [] || !IsDigit(t[0]) then 0 else 1 + DigitRun(t[1..])
  }

  /** A byte written in decimal and closed by `stop`, and the text after `stop`. */
  function ReadByte(t: string, stop: char): (r: Option<(byte, string)>)
    ensures r.Some? ==> |r.value.1| < |t|
  {
    var k := DigitRun(t);
    if k == 0 || k == |t| || t[k] != stop then None
    else
      var v := DecimalValue(t[..k]);
      if v < 256 then Some((v as byte, t[k + 1..])) else None
  }

  /** One cell written in colour mode, and the text after it. */
  function DecodeCell(t: string): (r: Option<(PixelInfo, string)>)
    ensures r.Some? ==> |r.value.1| < |t|
  {
    if |t| < |SgrPrefix| || t[..|SgrPrefix|] != SgrPrefix then None
    else
      var red := ReadByte(t[|SgrPrefix|..], ';');
      if red.None? then None
      else
        var green := ReadByte(red.value.1, ';');
        if green.None? then None
        else
          var blue := ReadByte(green.value.1, 'm');
          if blue.None? || blue.value.1 == [] then None
          else
            var t3 := blue.value.1;
            Some((PixelInfo(t3[0], Rgb(red.value.0, green.value.0, blue.value.0)), t3[1..]))
  }

  /** The cells of a line written in colour mode. */
  function DecodeRow(t: string): Option<seq<PixelInfo>>
    decreases |t|
  {
    if t == [] then Some([])
    else
      var cell := DecodeCell(t);
      if cell.None? then None
      else
        var cells := DecodeRow(cell.value.1);
        if cells.None? then None else Some([cell.value.0] + cells.value)
  }

  /** The grid of a frame written in colour mode, line by line. */
  function DecodeFrame(lines: seq<string>): Option<seq<seq<PixelInfo>>> {
    if lines == [] then Some([])
    else match DecodeRow(lines[0])
      case None => None
      case Some(row) =>
        match DecodeFrame(lines[1..])
        case None => None
        case Some(rows) => Some([row] + rows)
  }

  lemma {:induction false} DigitRunOfDecimal(n: nat, stop: char, rest: string)
    requires !IsDigit(stop)
    ensures DigitRun(Decimal(n) + [stop] + rest) == |Decimal(n)|
  {
    DigitRunOfDigits(Decimal(n), stop, rest);
  }

  lemma {:induction false} DigitRunOfDigits(d: string, stop: char, rest: string)
    requires AllDigits(d) && !IsDigit(stop)
    ensures DigitRun(d + [stop] + rest) == |d|
  {
    if d != [] {
      assert (d + [stop] + rest)[1..] == d[1..] + [stop] + rest;
      DigitRunOfDigits(d[1..], stop, rest);
    }
  }

  lemma ReadByteOfDecimal(v: byte, stop: char, rest: string)
    requires !IsDigit(stop)
    ensures ReadByte(Decimal(v as nat) + [stop] + rest, stop) == Some((v, rest))
  {
    var d := Decimal(v as nat);
    var t := d + [stop] + rest;
    DigitRunOfDecimal(v as nat, stop, rest);
    assert t[..|d|] == d;
    assert t[|d| + 1..] == rest;
    DecimalRoundTrip(v as nat);
  }

  /** Reading a coloured cell back gives the cell, glyph and colour. */
  lemma DecodeCellRoundTrip(p: PixelInfo, rest: string)
    ensures DecodeCell(SgrColor(p.color) + [p.symbol] + rest) == Some((p, rest))
  {
    var c := p.color;
    var tail := [p.symbol] + rest;
    var t3 := tail;
    var t2 := Decimal(c.b as nat) + "m" + t3;
    var t1 := Decimal(c.g as nat) + ";" + t2;
    var t0 := Decimal(c.r as nat) + ";" + t1;
    var t := SgrColor(c) + [p.symbol] + rest;
    assert t == SgrPrefix + t0;
    assert t[..|SgrPrefix|] == SgrPrefix;
    assert t[|SgrPrefix|..] == t0;
    ReadByteOfDecimal(c.r, ';', t1);
    ReadByteOfDecimal(c.g, ';', t2);
    ReadByteOfDecimal(c.b, 'm', t3);
  }

  /** Reading a coloured row back gives the row. */
  lemma {:induction false} DecodeRowRoundTrip(row: seq<PixelInfo>, s: Settings)
    requires Colored(s)
    ensures DecodeRow(RowText(row, s)) == Some(row)
  {
    if row != [] {
      assert [row[0]] + row[1..] == row;
      DecodeRowRoundTrip(row[1..], s);
      DecodeFirstCell(row, s, row[1..]);
    } else {
      assert RowText(row, s) == [];
    }
  }

  /** Decoding a coloured row reads its first cell, then the rest of the row. */
  lemma DecodeFirstCell(row: seq<PixelInfo>, s: Settings, cells: seq<PixelInfo>)
    requires Colored(s) && row != []
    requires DecodeRow(RowText(row[1..], s)) == Some(cells)
    ensures DecodeRow(RowText(row, s)) == Some([row[0]] + cells)
  {
    CellOfRow(row, s);
    DecodeRowCons(RowText(row, s), row[0], RowText(row[1..], s), cells);
  }

  /** The first cell read from a coloured row's text is the row's first cell. */
  lemma CellOfRow(row: seq<PixelInfo>, s: Settings)
    requires Colored(s) && row != []
    ensures DecodeCell(RowText(row, s)) == Some((row[0], RowText(row[1..], s)))
  {
    ColoredRowCons(row, s);
    DecodeCellRoundTrip(row[0], RowText(row[1..], s));
  }

  lemma ColoredRowCons(row: seq<PixelInfo>, s: Settings)
    requires Colored(s) && row != []
    ensures RowText(row, s) == SgrColor(row[0].color) + [row[0].symbol] + RowText(row[1..], s)
  {
  }

  lemma DecodeRowCons(t: string, cell: PixelInfo, rest: string, cells: seq<PixelInfo>)
    requires DecodeCell(t) == Some((cell, rest)) && DecodeRow(rest) == Some(cells)
    ensures DecodeRow(t) == Some([cell] + cells)
  {
  }

  /**
   * In colour mode the composed frame determines the grid: splitting it into
   * lines and reading each line's colour sequences gives back every cell,
   * glyph and colour, in row-major order.
   */
  lemma ColoredFrameRoundTrip(rows: seq<seq<PixelInfo>>, s: Settings)
    requires Colored(s) && NoLineBreakGlyph(rows)
    ensures DecodeFrame(Lines(FrameText(rows, s))) == Some(rows)
  {
    FrameLines(rows, s);
    DecodeRowsRoundTrip(rows, Lines(FrameText(rows, s)), s);
  }

  lemma {:induction false} DecodeRowsRoundTrip(rows: seq<seq<PixelInfo>>, lines: seq<string>, s: Settings)
    requires Colored(s)
    requires |lines| == |rows| && forall y :: 0 <= y < |rows| ==> lines[y] == RowText(rows[y], s)
    ensures DecodeFrame(lines) == Some(rows)
  {
    if rows != [] {
      DecodeRowRoundTrip(rows[0], s);
      DecodeRowsRoundTrip(rows[1..], lines[1..], s);
      assert [rows[0]] + rows[1..] == rows;
    }
  }
}
