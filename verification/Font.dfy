/** Text drawing of font.c: 16x8 glyph cells painted into a linear framebuffer. */
module Font {
  import opened MachineInts
  import opened CStrings

  const NEWLINE: nat := 10
  const TAB: nat := 9

  /** Linear index of column x in row y of rows that are `pitch` long. */
  function At(pitch: nat, y: nat, x: nat): nat {
    y * pitch + x
  }

  lemma {:induction false} Distribute(a: nat, b: nat, c: nat)
    ensures (a + b) * c == a * c + b * c
  {
  }

  lemma {:induction false} AtLess(pitch: nat, y: nat, x: nat, y': nat, x': nat)
    requires x < pitch && y < y'
    ensures At(pitch, y, x) < At(pitch, y', x')
  {
    var d := y' - y - 1;
    Distribute(y, 1 + d, pitch);
    Distribute(1, d, pitch);
    assert d * pitch >= 0;
  }

  lemma {:induction false} AtInjective(pitch: nat, y: nat, x: nat, y': nat, x': nat)
    requires x < pitch && x' < pitch && At(pitch, y, x) == At(pitch, y', x')
    ensures y == y' && x == x'
  {
    if y < y' {
      AtLess(pitch, y, x, y', x');
    } else if y' < y {
      AtLess(pitch, y', x', y, x);
    }
  }

  /** The eight positions starting at column x0 of row y0 are those of that row and no other. */
  lemma {:induction false} SpanOfRow(pitch: nat, y0: nat, x0: nat, y: nat, x: nat)
    requires x0 + 8 <= pitch && x < pitch
    ensures At(pitch, y0, x0) <= At(pitch, y, x) < At(pitch, y0, x0) + 8 <==> y == y0 && x0 <= x < x0 + 8
    ensures y == y0 && x0 <= x ==> At(pitch, y, x) == At(pitch, y0, x0) + (x - x0)
  {
    if At(pitch, y0, x0) <= At(pitch, y, x) < At(pitch, y0, x0) + 8 {
      AtInjective(pitch, y, x, y0, x0 + (At(pitch, y, x) - At(pitch, y0, x0)));
    }
  }

  /** Text row and column of the cell that holds a pixel, and the pixel's place inside the cell. */
  function CellRow(y: nat): nat {
    y / 16
  }

  function CellCol(x: nat): nat {
    x / 8
  }

  function InRow(y: nat): (i: nat)
    ensures i < 16
  {
    y % 16
  }

  function InCol(x: nat): (j: nat)
    ensures j < 8
  {
    x % 8
  }

  lemma {:induction false} PixelInCell(y: nat, x: nat, row: nat, col: nat, i: nat)
    requires i < 16
    ensures y == 16 * row + i <==> CellRow(y) == row && InRow(y) == i
    ensures 8 * col <= x < 8 * col + 8 <==> CellCol(x) == col
    ensures CellCol(x) == col ==> x - 8 * col == InCol(x)
  {
  }

  lemma {:induction false} PixelPlaces()
    ensures forall y: nat :: CellRow(y) == y / 16 && InRow(y) == y % 16
    ensures forall x: nat :: CellCol(x) == x / 8 && InCol(x) == x % 8
  {
  }

  lemma {:induction false} NextRow(pitch: nat, y: nat, x: nat)
    ensures At(pitch, y, x) + pitch == At(pitch, y + 1, x)
  {
  }

  lemma {:induction false} RowsFit(pitch: nat, y: nat, x: nat, height: nat)
    requires y < height && x < pitch
    ensures At(pitch, y, x) < height * pitch
  {
    AtLess(pitch, y, x, height, 0);
  }

  lemma {:induction false} OneBit(bits: bv8, x: nat)
    requires x < 8
    ensures bits & (1 << (7 - x)) != 0 <==> (bits >> (7 - x)) & 1 == 1
  {
  }

  /** Pixel x of a glyph row is the binary digit of weight 128, 64, 32, ... of its byte, from the left. */
  lemma {:induction false} PixelDigit(bits: bv8, x: nat)
    requires x < 8
    ensures bits & (1 << (7 - x)) != 0 <==> bits as nat / [128, 64, 32, 16, 8, 4, 2, 1][x] % 2 == 1
  {
    ByteShifts(bits);
    HalfByte(bits >> 7);
    HalfByte(bits >> 6);
    HalfByte(bits >> 5);
    HalfByte(bits >> 4);
    HalfByte(bits >> 3);
    HalfByte(bits >> 2);
    HalfByte(bits >> 1);
    HalfByte(bits);
    OneBit(bits, x);
    assert bits as nat / 1 == bits as nat;
  }

  /** The text cursor, which need not be on the screen. */
  datatype Cursor = Cursor(row: nat, col: nat)

  predicate IsGlyph(c: nat) {
    c != NEWLINE && c != TAB
  }

  /** Where the cursor goes after character c: row and column are 16-bit, and a tab may leave the screen. */
  function NextCursor(cols: nat, at: Cursor, c: nat): Cursor {
    if c == NEWLINE then Cursor((at.row + 1) % 65536, 0)
    else if c == TAB then Cursor(at.row, (at.col + 4) % 65536)
    else if at.col + 1 == cols then Cursor(at.row + 1, 0)
    else Cursor(at.row, at.col + 1)
  }

  function EndCursor(text: string, cols: nat, at: Cursor): Cursor
    decreases |text|
  {
    if text == "" then at else EndCursor(text[1..], cols, NextCursor(cols, at, text[0] as nat))
  }

  /** Every visible character finds the cursor on the screen. */
  predicate Fits(text: string, rows: nat, cols: nat, at: Cursor)
    decreases |text|
  {
    text == "" ||
    ((IsGlyph(text[0] as nat) ==> at.row < rows && at.col < cols)
     && Fits(text[1..], rows, cols, NextCursor(cols, at, text[0] as nat)))
  }

  datatype Drawn = Nothing | Glyph(c: char)

  /** The last character that writing text from `at` draws in a cell. */
  function LastDrawn(text: string, cols: nat, at: Cursor, cell: Cursor): (d: Drawn)
    ensures d.Glyph? ==> d.c in text && IsGlyph(d.c as nat)
    decreases |text|
  {
    if text == "" then Nothing
    else
      var later := LastDrawn(text[1..], cols, NextCursor(cols, at, text[0] as nat), cell);
      if later.Glyph? then later
      else if IsGlyph(text[0] as nat) && at == cell then Glyph(text[0])
      else Nothing
  }

  lemma {:induction false} CellStart(pitch: nat, row: nat, col: nat, rows: nat, length: nat)
    requires row < rows && rows * 16 * pitch <= length < TWO_32
    ensures col * 8 + U32(row * pitch * 16) == At(pitch, 16 * row, 8 * col)
  {
    assert rows * 16 * pitch == 16 * row * pitch + 16 * (rows - row) * pitch;
    assert row * pitch * 16 == 16 * row * pitch;
  }

  lemma {:induction false} CellRowFits(pitch: nat, row: nat, col: nat, rows: nat, i: nat)
    requires row < rows && i < 16 && 8 * col + 8 <= pitch
    ensures At(pitch, 16 * row + i, 8 * col) + 8 <= rows * 16 * pitch
  {
    RowsFit(pitch, 16 * row + i, 8 * col + 7, rows * 16);
  }

  lemma {:induction false} Advance(cols: nat, row: nat, col: nat)
    requires col < cols
    ensures At(cols, row, col) + 1 == if col + 1 == cols then At(cols, row + 1, 0) else At(cols, row, col + 1)
  {
  }

  lemma {:induction false} CursorOnScreen(cols: nat, row: nat, col: nat, rows: nat)
    requires At(cols, row, col) < rows * cols
    ensures row < rows
  {
    assert row >= rows ==> row * cols == rows * cols + (row - rows) * cols;
  }

  /** Without tabs and newlines the k-th character lands in cell start + k, counted row by row, and stays there. */
  lemma {:induction false} PlainTextCells(text: string, rows: nat, cols: nat, at: Cursor, cell: Cursor)
    requires 0 < cols && at.col < cols && At(cols, at.row, at.col) + |text| <= rows * cols
    requires forall c :: c in text ==> IsGlyph(c as nat)
    ensures Fits(text, rows, cols, at)
    ensures EndCursor(text, cols, at).col < cols
    ensures At(cols, EndCursor(text, cols, at).row, EndCursor(text, cols, at).col) == At(cols, at.row, at.col) + |text|
    ensures cell.col < cols ==>
      var k := At(cols, cell.row, cell.col) - At(cols, at.row, at.col);
      LastDrawn(text, cols, at, cell) == if 0 <= k < |text| then Glyph(text[k]) else Nothing
    ensures cell.col >= cols ==> LastDrawn(text, cols, at, cell) == Nothing
    decreases |text|
  {
    hide At;
    if text == "" {
    } else {
      assert text[0] in text && forall c :: c in text[1..] ==> c in text;
      CursorOnScreen(cols, at.row, at.col, rows);
      Advance(cols, at.row, at.col);
      PlainTextCells(text[1..], rows, cols, NextCursor(cols, at, text[0] as nat), cell);
      if cell.col < cols && At(cols, cell.row, cell.col) == At(cols, at.row, at.col) {
        AtInjective(cols, cell.row, cell.col, at.row, at.col);
      }
    }
  }

  lemma {:induction false} CursorConcat(p: string, q: string, rows: nat, cols: nat, at: Cursor, cell: Cursor)
    ensures EndCursor(p + q, cols, at) == EndCursor(q, cols, EndCursor(p, cols, at))
    ensures Fits(p + q, rows, cols, at) <==> Fits(p, rows, cols, at) && Fits(q, rows, cols, EndCursor(p, cols, at))
    ensures var later := LastDrawn(q, cols, EndCursor(p, cols, at), cell);
      LastDrawn(p + q, cols, at, cell) == if later.Glyph? then later else LastDrawn(p, cols, at, cell)
    decreases |p|
  {
    hide NextCursor;
    if p == "" {
      assert p + q == q;
    } else {
      assert (p + q)[0] == p[0] && (p + q)[1..] == p[1..] + q;
      CursorConcat(p[1..], q, rows, cols, NextCursor(cols, at, p[0] as nat), cell);
    }
  }

  /** Columns a line takes: four for a tab, one for anything else. */
  function Columns(line: string): nat {
    if line == "" then 0 else (if line[0] == '\t' then 4 else 1) + Columns(line[1..])
  }

  /** The lines with a newline between each two. */
  function Joined(lines: seq<string>): string
    requires lines != []
  {
    if |lines| == 1 then lines[0] else lines[0] + "\n" + Joined(lines[1..])
  }

  /** On a line that stays inside its row the cursor ends behind it. */
  lemma {:induction false} LineCursor(line: string, rows: nat, cols: nat, at: Cursor)
    requires '\n' !in line && at.row < rows && at.col + Columns(line) < cols <= 65536
    ensures Fits(line, rows, cols, at) && EndCursor(line, cols, at) == Cursor(at.row, at.col + Columns(line))
    decreases |line|
  {
    if line == "" {
    } else {
      assert line[0] in line;
      LineCursor(line[1..], rows, cols, NextCursor(cols, at, line[0] as nat));
    }
  }

  lemma {:induction false} LineElsewhere(line: string, cols: nat, at: Cursor, cell: Cursor)
    requires '\n' !in line && at.col + Columns(line) < cols <= 65536
    requires cell.row != at.row || cell.col < at.col
    ensures LastDrawn(line, cols, at, cell) == Nothing
    decreases |line|
  {
    if line == "" {
    } else {
      assert line[0] in line;
      LineElsewhere(line[1..], cols, NextCursor(cols, at, line[0] as nat), cell);
    }
  }

  /** Character j stands behind the columns of the characters before it. */
  lemma {:induction false} LineDrawn(line: string, cols: nat, at: Cursor, j: nat)
    requires '\n' !in line && at.col + Columns(line) < cols <= 65536 && j < |line| && line[j] != '\t'
    ensures LastDrawn(line, cols, at, Cursor(at.row, at.col + Columns(line[..j]))) == Glyph(line[j])
    decreases |line|
  {
    assert line[0] in line;
    var next := NextCursor(cols, at, line[0] as nat);
    if j == 0 {
      assert Columns(line[..0]) == 0;
      LineElsewhere(line[1..], cols, next, at);
    } else {
      assert line[..j][1..] == line[1..][..j - 1];
      LineDrawn(line[1..], cols, next, j - 1);
    }
  }

  lemma {:induction false} OneLine(line: string, rows: nat, cols: nat, at: Cursor)
    requires '\n' !in line && at.row < rows && at.col + Columns(line) < cols <= 65536
    ensures Fits(line, rows, cols, at) && EndCursor(line, cols, at) == Cursor(at.row, at.col + Columns(line))
    ensures forall j :: 0 <= j < |line| && line[j] != '\t' ==>
              LastDrawn(line, cols, at, Cursor(at.row, at.col + Columns(line[..j]))) == Glyph(line[j])
    ensures forall cell: Cursor :: cell.row != at.row ==> LastDrawn(line, cols, at, cell) == Nothing
  {
    hide Columns, LastDrawn, Fits, EndCursor;
    LineCursor(line, rows, cols, at);
    forall j | 0 <= j < |line| && line[j] != '\t'
      ensures LastDrawn(line, cols, at, Cursor(at.row, at.col + Columns(line[..j]))) == Glyph(line[j])
    {
      LineDrawn(line, cols, at, j);
    }
    forall cell: Cursor | cell.row != at.row
      ensures LastDrawn(line, cols, at, cell) == Nothing
    {
      LineElsewhere(line, cols, at, cell);
    }
  }

  lemma {:induction false} NewlineOnly(rows: nat, cols: nat, at: Cursor, cell: Cursor)
    ensures Fits("\n", rows, cols, at) && EndCursor("\n", cols, at) == Cursor((at.row + 1) % 65536, 0)
    ensures LastDrawn("\n", cols, at, cell) == Nothing
  {
    assert "\n"[1..] == "";
  }

  /** A text of several lines from the left edge on: line i stands in row r + i, each character behind the columns of
      those before it, and the cursor ends behind the last line. */
  lemma {:induction false} SeveralLines(lines: seq<string>, rows: nat, cols: nat, r: nat)
    requires lines != [] && r + |lines| <= rows < 65536 && cols <= 65536
    requires forall i :: 0 <= i < |lines| ==> '\n' !in lines[i] && Columns(lines[i]) < cols
    ensures Fits(Joined(lines), rows, cols, Cursor(r, 0))
    ensures EndCursor(Joined(lines), cols, Cursor(r, 0)) == Cursor(r + |lines| - 1, Columns(lines[|lines| - 1]))
    ensures forall i, j :: 0 <= i < |lines| && 0 <= j < |lines[i]| && lines[i][j] != '\t' ==>
              LastDrawn(Joined(lines), cols, Cursor(r, 0), Cursor(r + i, Columns(lines[i][..j]))) == Glyph(lines[i][j])
    ensures forall cell: Cursor :: cell.row < r ==> LastDrawn(Joined(lines), cols, Cursor(r, 0), cell) == Nothing
    decreases |lines|
  {
    hide Columns, LastDrawn, Fits, EndCursor;
    OneLine(lines[0], rows, cols, Cursor(r, 0));
    if |lines| == 1 {
    } else {
      var head, rest := lines[0] + "\n", Joined(lines[1..]);
      SeveralLines(lines[1..], rows, cols, r + 1);
      forall cell
        ensures LastDrawn(head, cols, Cursor(r, 0), cell) == LastDrawn(lines[0], cols, Cursor(r, 0), cell)
        ensures EndCursor(head, cols, Cursor(r, 0)) == Cursor(r + 1, 0) && Fits(head, rows, cols, Cursor(r, 0))
        ensures Fits(head + rest, rows, cols, Cursor(r, 0))
        ensures EndCursor(head + rest, cols, Cursor(r, 0)) == EndCursor(rest, cols, Cursor(r + 1, 0))
        ensures var later := LastDrawn(rest, cols, Cursor(r + 1, 0), cell);
          LastDrawn(head + rest, cols, Cursor(r, 0), cell)
          == if later.Glyph? then later else LastDrawn(lines[0], cols, Cursor(r, 0), cell)
      {
        CursorConcat(lines[0], "\n", rows, cols, Cursor(r, 0), cell);
        NewlineOnly(rows, cols, EndCursor(lines[0], cols, Cursor(r, 0)), cell);
        CursorConcat(head, rest, rows, cols, Cursor(r, 0), cell);
      }
      forall i, j | 0 <= i < |lines| && 0 <= j < |lines[i]| && lines[i][j] != '\t'
        ensures LastDrawn(head + rest, cols, Cursor(r, 0), Cursor(r + i, Columns(lines[i][..j]))) == Glyph(lines[i][j])
      {
        if i > 0 {
          assert lines[1..][i - 1] == lines[i];
        }
      }
    }
  }

  class Console {
    const framebuffer: array<bv32>
    /** The glyph bitmaps, sixteen bytes per code, behind the four-byte font header. */
    const fontData: seq<bv8>
    var pitch: nat
    var rows: nat
    var cols: nat
    var rowIdx: nat
    var colIdx: nat
    var foreground: bv32
    var background: bv32

    ghost predicate Valid()
      reads this
    {
      && 8 * cols <= pitch && 0 < cols < 65536 && rows < 65536
      && rows * 16 * pitch <= framebuffer.Length < TWO_32
    }

    /** The cursor names a cell on the screen. */
    ghost predicate OnScreen()
      reads this
    {
      rowIdx < rows && colIdx < cols
    }

    ghost function CursorNow(): Cursor
      reads `rowIdx, `colIdx
    {
      Cursor(rowIdx, colIdx)
    }

    /** Cells before the cursor, row by row. */
    ghost function Position(): nat
      reads this
    {
      At(cols, rowIdx, colIdx)
    }

    /** The font has a glyph for c. */
    predicate HasGlyph(c: nat) {
      c < 4096 && 16 * c + 16 <= |fontData|
    }

    ghost function Bit(bits: bv8, x: nat): bv32
      requires x < 8
      reads `foreground, `background
    {
      if bits & (1 << (7 - x)) != 0 then foreground else background
    }

    /** Colour of pixel (y, x) of glyph c. */
    ghost function Ink(c: nat, y: nat, x: nat): bv32
      requires HasGlyph(c) && y < 16 && x < 8
      reads `foreground, `background
    {
      Bit(fontData[16 * c + y], x)
    }

    lemma {:induction false} InkDigit(c: nat, y: nat, x: nat)
      requires HasGlyph(c) && y < 16 && x < 8
      ensures Ink(c, y, x)
           == if fontData[16 * c + y] as nat / [128, 64, 32, 16, 8, 4, 2, 1][x] % 2 == 1 then foreground
              else background
    {
      PixelDigit(fontData[16 * c + y], x);
    }

    constructor (addr: array<bv32>, font: seq<bv8>, p: nat, w: nat, h: nat, fg: bv32, bg: bv32)
      requires w <= p / 4 && h * (p / 4) <= addr.Length < TWO_32 && 8 <= w < 8 * 65536 && h < 16 * 65536
      ensures Valid() && framebuffer == addr && fontData == font && foreground == fg && background == bg
      ensures rows == h / 16 && cols == w / 8 && pitch == p / 4 && rowIdx == 0 && colIdx == 0
    {
      framebuffer := addr;
      fontData := font;
      pitch := p / 4;
      rows := h / 16 % 65536;
      cols := w / 8 % 65536;
      rowIdx := 0;
      colIdx := 0;
      foreground := fg;
      background := bg;
      new;
      Distribute(rows * 16, h - rows * 16, pitch);
    }

    lemma {:induction false} BitDigit(bits: bv8, x: nat)
      requires x < 8
      ensures Bit(bits, x) == if bits as nat / [128, 64, 32, 16, 8, 4, 2, 1][x] % 2 == 1 then foreground else background
    {
      PixelDigit(bits, x);
    }

    /** One row of eight pixels; the lowest bit is the rightmost pixel. */
    method DrawRow(ptr: nat, bits: bv8)
      requires ptr + 8 <= framebuffer.Length
      modifies framebuffer
      ensures forall p :: 0 <= p < framebuffer.Length ==>
                framebuffer[p] == if ptr <= p < ptr + 8 then Bit(bits, p - ptr) else old(framebuffer[p])
      ensures forall p :: ptr <= p < ptr + 8 ==>
                framebuffer[p] == if bits as nat / [128, 64, 32, 16, 8, 4, 2, 1][p - ptr] % 2 == 1 then foreground
                                  else background
    {
      var j: nat := 0;
      while j < 8
        invariant j <= 8
        invariant forall p :: 0 <= p < framebuffer.Length ==>
                    framebuffer[p] == if ptr + 8 - j <= p < ptr + 8 then Bit(bits, p - ptr) else old(framebuffer[p])
      {
        if bits & (1 << j) != 0 {
          framebuffer[ptr + 7 - j] := foreground;
        } else {
          framebuffer[ptr + 7 - j] := background;
        }
        j := j + 1;
      }
      forall x: nat | x < 8
        ensures Bit(bits, x) == if bits as nat / [128, 64, 32, 16, 8, 4, 2, 1][x] % 2 == 1 then foreground
                                else background
      {
        BitDigit(bits, x);
      }
    }

    /** The screen `was` with the first i rows of glyph c painted into cell (row, col). */
    ghost predicate CellPart(was: seq<bv32>, now: seq<bv32>, c: nat, row: nat, col: nat, i: nat)
      requires HasGlyph(c)
      reads `pitch, `foreground, `background
    {
      && |was| == |now|
      && forall y: nat, x: nat :: x < pitch && At(pitch, y, x) < |now| ==>
           now[At(pitch, y, x)]
           == if CellRow(y) == row && CellCol(x) == col && InRow(y) < i then Ink(c, InRow(y), InCol(x))
              else was[At(pitch, y, x)]
    }

    lemma {:induction false} RowAdded(was: seq<bv32>, before: seq<bv32>, now: seq<bv32>, c: nat, row: nat, col: nat,
                                      i: nat, ptr: nat)
      requires HasGlyph(c) && i < 16 && 8 * col + 8 <= pitch && ptr == At(pitch, 16 * row + i, 8 * col)
      requires CellPart(was, before, c, row, col, i) && |now| == |before|
      requires forall p :: 0 <= p < |now| ==>
                 now[p] == if ptr <= p < ptr + 8 then Bit(fontData[16 * c + i], p - ptr) else before[p]
      ensures CellPart(was, now, c, row, col, i + 1)
    {
      hide At, Bit, CellRow, CellCol, InRow, InCol;
      forall y: nat, x: nat | x < pitch && At(pitch, y, x) < |now|
        ensures now[At(pitch, y, x)]
             == if CellRow(y) == row && CellCol(x) == col && InRow(y) < i + 1 then Ink(c, InRow(y), InCol(x))
                else was[At(pitch, y, x)]
      {
        SpanOfRow(pitch, 16 * row + i, 8 * col, y, x);
        PixelInCell(y, x, row, col, i);
      }
    }

    lemma {:induction false} NothingDrawn(screen: seq<bv32>, c: nat, row: nat, col: nat)
      requires HasGlyph(c)
      ensures CellPart(screen, screen, c, row, col, 0)
    {
    }

    /** Paints a glyph into the cursor's cell, pixel for pixel, touches no other pixel, and advances the cursor. */
    method DrawGlyph(c: nat)
      requires Valid() && OnScreen() && IsGlyph(c) && HasGlyph(c)
      modifies framebuffer, `rowIdx, `colIdx
      ensures CursorNow() == NextCursor(cols, old(CursorNow()), c)
      ensures colIdx < cols && Position() == old(Position()) + 1
      ensures CellPart(old(framebuffer[..]), framebuffer[..], c, old(rowIdx), old(colIdx), 16)
    {
      hide At, CellPart, U32;
      NothingDrawn(framebuffer[..], c, rowIdx, colIdx);
      var ptr := colIdx * 8 + U32(rowIdx * pitch * 16);
      CellStart(pitch, rowIdx, colIdx, rows, framebuffer.Length);
      ghost var row, col := rowIdx, colIdx;
      var idx := c * 16 % 65536;
      var i: nat := 0;
      while i < 16
        invariant rowIdx == row && colIdx == col
        invariant i <= 16 && ptr == At(pitch, 16 * row + i, 8 * col) && idx == 16 * c + i
        invariant CellPart(old(framebuffer[..]), framebuffer[..], c, row, col, i)
      {
        CellRowFits(pitch, row, col, rows, i);
        ghost var before := framebuffer[..];
        DrawRow(ptr, fontData[idx]);
        RowAdded(old(framebuffer[..]), before, framebuffer[..], c, row, col, i, ptr);
        NextRow(pitch, 16 * row + i, 8 * col);
        ptr := ptr + pitch;
        idx := idx + 1;
        i := i + 1;
      }
      colIdx := colIdx + 1;
      if colIdx == cols {
        colIdx := 0;
        rowIdx := rowIdx + 1;
      }
      Advance(cols, row, col);
    }

    /** Newlines and tabs move the cursor only; any other character is drawn in the cursor's cell. */
    method Putchar(c: nat)
      requires Valid() && (IsGlyph(c) ==> OnScreen() && HasGlyph(c))
      modifies framebuffer, `rowIdx, `colIdx
      ensures CursorNow() == NextCursor(cols, old(CursorNow()), c)
      ensures !IsGlyph(c) ==> framebuffer[..] == old(framebuffer[..])
      ensures IsGlyph(c) ==>
        forall y: nat, x: nat :: x < pitch && At(pitch, y, x) < framebuffer.Length ==>
          framebuffer[At(pitch, y, x)]
          == if CellRow(y) == old(rowIdx) && CellCol(x) == old(colIdx) then Ink(c, InRow(y), InCol(x))
             else old(framebuffer[At(pitch, y, x)])
      ensures c == 10 ==> rowIdx == (old(rowIdx) + 1) % 65536 && colIdx == 0
      ensures c == 9 ==> rowIdx == old(rowIdx) && colIdx == (old(colIdx) + 4) % 65536
      ensures c != 10 && c != 9 ==>
        if old(colIdx) + 1 == cols then rowIdx == old(rowIdx) + 1 && colIdx == 0
        else rowIdx == old(rowIdx) && colIdx == old(colIdx) + 1
      ensures c != 10 && c != 9 ==>
        forall y: nat, x: nat :: x < pitch && At(pitch, y, x) < framebuffer.Length ==>
          framebuffer[At(pitch, y, x)]
          == if y / 16 != old(rowIdx) || x / 8 != old(colIdx) then old(framebuffer[At(pitch, y, x)])
             else if fontData[16 * c + y % 16] as nat / [128, 64, 32, 16, 8, 4, 2, 1][x % 8] % 2 == 1 then foreground
             else background
    {
      hide At, Ink, CellRow, CellCol, InRow, InCol;
      PixelPlaces();
      if c == NEWLINE {
        rowIdx := (rowIdx + 1) % 65536;
        colIdx := 0;
        return;
      }
      if c == TAB {
        colIdx := (colIdx + 4) % 65536;
        return;
      }
      DrawGlyph(c);
      forall y: nat, x: nat | x < pitch && At(pitch, y, x) < framebuffer.Length
        ensures Ink(c, InRow(y), InCol(x))
             == if fontData[16 * c + y % 16] as nat / [128, 64, 32, 16, 8, 4, 2, 1][x % 8] % 2 == 1 then foreground
                else background
      {
        InkDigit(c, InRow(y), InCol(x));
      }
    }

    /** The font has a glyph for each character. */
    predicate HasGlyphs(text: string) {
      forall c :: c in text ==> HasGlyph(c as nat)
    }

    /** Colour of pixel (y, x) once text has been written from `at` over the given screen. */
    ghost function PixelAfter(text: string, at: Cursor, screen: seq<bv32>, y: nat, x: nat): bv32
      requires x < pitch && At(pitch, y, x) < |screen| && HasGlyphs(text)
      reads `pitch, `cols, `foreground, `background
    {
      match LastDrawn(text, cols, at, Cursor(CellRow(y), CellCol(x)))
      case Nothing => screen[At(pitch, y, x)]
      case Glyph(c) => Ink(c as nat, InRow(y), InCol(x))
    }

    lemma {:induction false} PixelAfterDigits(text: string, at: Cursor, screen: seq<bv32>, y: nat, x: nat)
      requires x < pitch && At(pitch, y, x) < |screen| && HasGlyphs(text)
      ensures var d := LastDrawn(text, cols, at, Cursor(y / 16, x / 8));
        && (d.Glyph? ==> HasGlyph(d.c as nat))
        && PixelAfter(text, at, screen, y, x)
           == if d == Nothing then screen[At(pitch, y, x)]
              else if fontData[16 * d.c as nat + y % 16] as nat
                      / [128, 64, 32, 16, 8, 4, 2, 1][x % 8] % 2 == 1 then foreground
              else background
    {
      hide At, LastDrawn;
      var d := LastDrawn(text, cols, at, Cursor(y / 16, x / 8));
      if d.Glyph? {
        InkDigit(d.c as nat, y % 16, x % 8);
      }
    }

    lemma {:induction false} GlyphsOfRest(text: string)
      requires text != "" && HasGlyphs(text)
      ensures HasGlyph(text[0] as nat) && HasGlyphs(text[1..])
    {
      assert text[0] in text;
      forall c | c in text[1..]
        ensures HasGlyph(c as nat)
      {
        assert c in text;
      }
    }

    /** Drawing the first character and then the others. */
    lemma {:induction false} PixelStep(text: string, at: Cursor, before: seq<bv32>, now: seq<bv32>, y: nat, x: nat)
      requires text != "" && HasGlyphs(text) && x < pitch && At(pitch, y, x) < |before| == |now|
      requires now[At(pitch, y, x)]
            == if IsGlyph(text[0] as nat) && HasGlyph(text[0] as nat) && CellRow(y) == at.row && CellCol(x) == at.col
               then Ink(text[0] as nat, InRow(y), InCol(x)) else before[At(pitch, y, x)]
      ensures HasGlyphs(text[1..])
      ensures PixelAfter(text[1..], NextCursor(cols, at, text[0] as nat), now, y, x)
           == PixelAfter(text, at, before, y, x)
    {
      hide At, Ink, CellRow, CellCol, InRow, InCol;
      GlyphsOfRest(text);
    }

    lemma {:induction false} NothingWritten(text: string, k: nat, start: Cursor, was: seq<bv32>)
      requires k == |text|
      ensures forall at, screen, y: nat, x: nat :: x < pitch && At(pitch, y, x) < |screen| ==>
                PixelAfter(text[k..], at, screen, y, x) == screen[At(pitch, y, x)]
      ensures forall at :: EndCursor(text[k..], cols, at) == at
    {
      assert text[k..] == "";
    }

    /** Writes a string from the cursor on: each cell shows the last character drawn in it, every pixel of every
        other cell is kept, and the cursor ends up where the characters leave it. */
    method Puts(str: CString)
      requires Valid() && Fits(CText(str), rows, cols, CursorNow())
      requires HasGlyphs(CText(str)) && forall c :: c in CText(str) ==> c < 128 as char
      modifies framebuffer, `rowIdx, `colIdx
      ensures CursorNow() == EndCursor(CText(str), cols, old(CursorNow()))
      ensures forall y: nat, x: nat :: x < pitch && At(pitch, y, x) < framebuffer.Length ==>
                framebuffer[At(pitch, y, x)]
                == var d := LastDrawn(CText(str), cols, old(CursorNow()), Cursor(y / 16, x / 8));
                   if d == Nothing then old(framebuffer[At(pitch, y, x)])
                   else if fontData[16 * d.c as nat + y % 16] as nat
                           / [128, 64, 32, 16, 8, 4, 2, 1][x % 8] % 2 == 1 then foreground
                   else background
    {
      hide At, Ink, CellRow, CellCol, InRow, InCol, CText, NextCursor, PixelAfter, LastDrawn;
      ghost var text, start, was := CText(str), CursorNow(), framebuffer[..];
      var k: nat := 0;
      assert text[0..] == text;
      while str[k] != '\0'
        invariant k <= |text| && HasGlyphs(text[k..]) && Fits(text[k..], rows, cols, CursorNow())
        invariant EndCursor(text[k..], cols, CursorNow()) == EndCursor(text, cols, start)
        invariant forall y: nat, x: nat :: x < pitch && At(pitch, y, x) < framebuffer.Length ==>
                    PixelAfter(text[k..], CursorNow(), framebuffer[..], y, x) == PixelAfter(text, start, was, y, x)
        decreases |text| - k
      {
        assert k < |text|;
        ghost var t, at, before := text[k..], CursorNow(), framebuffer[..];
        assert t[0] == text[k] == str[k] && t[1..] == text[k + 1..];
        GlyphsOfRest(t);
        Putchar(str[k] as nat);
        forall y: nat, x: nat | x < pitch && At(pitch, y, x) < framebuffer.Length
          ensures PixelAfter(text[k + 1..], CursorNow(), framebuffer[..], y, x) == PixelAfter(t, at, before, y, x)
        {
          PixelStep(t, at, before, framebuffer[..], y, x);
        }
        k := k + 1;
      }
      NothingWritten(text, k, start, was);
      forall y: nat, x: nat | x < pitch && At(pitch, y, x) < framebuffer.Length
        ensures framebuffer[At(pitch, y, x)]
             == var d := LastDrawn(text, cols, start, Cursor(y / 16, x / 8));
                if d == Nothing then was[At(pitch, y, x)]
                else if fontData[16 * d.c as nat + y % 16] as nat
                        / [128, 64, 32, 16, 8, 4, 2, 1][x % 8] % 2 == 1 then foreground
                else background
      {
        PixelAfterDigits(text, start, was, y, x);
      }
    }
  }
}
