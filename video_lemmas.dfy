/** Properties of the screen model: offset arithmetic, the cursor byte split,
    scrolling, single-character writes, whole-string writes and clearing. */
module VideoLemmas {
  import opened Bits
  import Colors
  import opened VideoModel

  /** The cell Screen::clear writes everywhere. */
  function Blank(): Cell {
    Cell(TextByte(' '), Colors.MakeDefault())
  }

  // ---------------------------------------------------------------------------
  // Offset arithmetic

  /** An on-screen position maps into the buffer, and its row and column are
      recovered from the offset. */
  lemma OffsetRoundTrip(col: int, row: int)
    requires 0 <= col < MaxCols && 0 <= row < MaxRows
    ensures 0 <= ScreenOffset(col, row) < CellCount
    ensures ScreenRow(ScreenOffset(col, row)) == row
    ensures ScreenOffset(col, row) % MaxCols == col
  {
  }

  /** Every cell of the buffer is the offset of exactly the position made of its
      column and its row. */
  lemma OffsetCovers(offset: int)
    requires 0 <= offset < CellCount
    ensures 0 <= ScreenRow(offset) < MaxRows
    ensures ScreenOffset(offset % MaxCols, ScreenRow(offset)) == offset
  {
  }

  // ---------------------------------------------------------------------------
  // Cursor registers

  /** setCursorOffset followed by getCursorOffset: splitting an int16 offset into
      the high and low register bytes and reassembling them is lossless. */
  lemma CursorRoundTrip(x: int)
    requires IsInt16(x)
    ensures CursorValue(HighByte(x), LowByte(x)) == x
  {
  }

  /** The other direction: reading the registers and writing the value back
      reproduces both register bytes. */
  lemma CursorRegistersRoundTrip(high: Byte, low: Byte)
    ensures HighByte(CursorValue(high, low)) == high
    ensures LowByte(CursorValue(high, low)) == low
  {
  }

  // ---------------------------------------------------------------------------
  // Scrolling

  /** handleScrolling below the end of the grid changes nothing; at or past the
      end it pulls the offset back one row, moves each row r + 1 to row r, and
      zeroes the character bytes of row 24 while keeping its attribute bytes. */
  lemma ScrollingMovesRowsUp(cells: seq<Cell>, offset: int)
    requires |cells| == CellCount
    ensures offset < CellCount ==> AfterScrolling(cells, offset) == VideoState(cells, offset)
    ensures offset >= CellCount ==> AfterScrolling(cells, offset).cursor == offset - MaxCols
    ensures offset >= CellCount ==>
      forall row, col :: 0 <= row < MaxRows - 1 && 0 <= col < MaxCols ==>
        AfterScrolling(cells, offset).cells[ScreenOffset(col, row)] == cells[ScreenOffset(col, row + 1)]
    ensures offset >= CellCount ==>
      forall i :: ScreenOffset(0, MaxRows - 1) <= i < CellCount ==>
        AfterScrolling(cells, offset).cells[i] == Cell(0, cells[i].data)
  {
  }

  // ---------------------------------------------------------------------------
  // printCharacter

  /** A character other than a newline writes exactly the target cell. Unless the
      advance reaches the end of the grid no other cell changes and the cursor is
      the next cell; at the last cell the grid scrolls and the cursor lands on the
      first column of row 24. */
  lemma CharacterWritesOneCell(d: VideoState, ch: char, data: Byte, col: int, row: int)
    requires CanPrint(d, col, row) && ch != '\n'
    ensures var o := TargetOffset(d, col, row);
            var written := d.cells[o := Cell(TextByte(ch), data)];
            var r := CharacterPrinted(d, ch, data, col, row);
            0 <= o < CellCount &&
            (o + 1 < CellCount ==> r.cursor == o + 1 && r.cells == written) &&
            (o + 1 == CellCount ==> r.cursor == LastRowStart && r.cells == Scrolled(written))
  {
  }

  /** Pointwise form of the above for the non-scrolling case. */
  lemma CharacterChangesOnlyItsCell(d: VideoState, ch: char, data: Byte, col: int, row: int, i: int)
    requires CanPrint(d, col, row) && ch != '\n'
    requires TargetOffset(d, col, row) + 1 < CellCount && 0 <= i < CellCount
    ensures CharacterPrinted(d, ch, data, col, row).cells[i] ==
              if i == TargetOffset(d, col, row) then Cell(TextByte(ch), data) else d.cells[i]
  {
  }

  /** A newline writes no cell and moves the cursor to column 0 of the next row;
      from row 24 it scrolls and the cursor lands at offset 1920. */
  lemma NewlineMovesToNextRow(d: VideoState, data: Byte, col: int, row: int)
    requires CanPrint(d, col, row)
    ensures var line := ScreenRow(TargetOffset(d, col, row));
            var r := CharacterPrinted(d, '\n', data, col, row);
            0 <= line < MaxRows &&
            (line < MaxRows - 1 ==> r.cells == d.cells && r.cursor == ScreenOffset(0, line + 1)) &&
            (line == MaxRows - 1 ==> r.cells == Scrolled(d.cells) && r.cursor == LastRowStart)
  {
  }

  // ---------------------------------------------------------------------------
  // Whole strings

  /** Cursor-relative printing of a string without newlines that fits before the
      last cell: character i lands at cursor + i in the default colours, no other
      cell changes, and the cursor ends just past the text. */
  lemma {:induction false} PrintPlainText(d: VideoState, text: string)
    requires d.Valid() && '\n' !in text && d.cursor + |text| < CellCount
    ensures var r := TextPrinted(d, text, -1, -1);
            r.cursor == d.cursor + |text| &&
            (forall i :: 0 <= i < |text| ==>
               r.cells[d.cursor + i] == Cell(TextByte(text[i]), Colors.MakeDefault())) &&
            (forall j :: 0 <= j < CellCount && !(d.cursor <= j < d.cursor + |text|) ==>
               r.cells[j] == d.cells[j])
    decreases |text|
  {
    if |text| > 0 {
      var last := |text| - 1;
      var prefix := text[..last];
      PrintPlainText(d, prefix);
      var p := TextPrinted(d, prefix, -1, -1);
      CharacterWritesOneCell(p, text[last], Colors.MakeDefault(), -1, -1);
      var r := TextPrinted(d, text, -1, -1);
      forall i | 0 <= i < |text|
        ensures r.cells[d.cursor + i] == Cell(TextByte(text[i]), Colors.MakeDefault())
      {
        if i < last {
          assert text[i] == prefix[i];
        }
      }
    }
  }

  /** printAt with an explicit position sends every character to the same cell:
      for a non-empty text without newlines whose cell is not the last one, only
      that cell changes, it ends up holding the last character, and the cursor is
      the next cell. */
  lemma PrintAtOneCell(d: VideoState, text: string, col: int, row: int)
    requires |d.cells| == CellCount && Positioned(col, row) && ScreenOffset(col, row) + 1 < CellCount
    requires '\n' !in text && |text| > 0
    ensures var o := ScreenOffset(col, row);
            PrintedAt(d, text, col, row) ==
              VideoState(d.cells[o := Cell(TextByte(text[|text| - 1]), Colors.MakeDefault())], o + 1)
  {
    var start := d.(cursor := ScreenOffset(col, row));
    PositionedTextOneCell(start, text, col, row);
  }

  /** The induction behind PrintAtOneCell, from any starting cursor. */
  lemma {:induction false} PositionedTextOneCell(d: VideoState, text: string, col: int, row: int)
    requires |d.cells| == CellCount && Positioned(col, row) && ScreenOffset(col, row) + 1 < CellCount
    requires '\n' !in text && |text| > 0
    ensures var o := ScreenOffset(col, row);
            TextPrinted(d, text, col, row) ==
              VideoState(d.cells[o := Cell(TextByte(text[|text| - 1]), Colors.MakeDefault())], o + 1)
    decreases |text|
  {
    var last := |text| - 1;
    var prefix := text[..last];
    var o := ScreenOffset(col, row);
    if last > 0 {
      assert prefix[last - 1] == text[last - 1];
      PositionedTextOneCell(d, prefix, col, row);
    }
    var p := TextPrinted(d, prefix, col, row);
    CharacterWritesOneCell(p, text[last], Colors.MakeDefault(), col, row);
    if last > 0 {
      assert p.cells[o := Cell(TextByte(text[last]), Colors.MakeDefault())] ==
             d.cells[o := Cell(TextByte(text[last]), Colors.MakeDefault())];
    }
  }

  /** Printing "AB\nC" from the top-left corner: 'A' at (0,0), 'B' at (1,0), 'C'
      at (0,1), and the cursor at (1,1). */
  lemma TwoLineExample(d: VideoState)
    requires d.Valid() && d.cursor == 0
    ensures var r := PrintedAt(d, "AB\nC", -1, -1);
            r.cells[ScreenOffset(0, 0)].text == 'A' as int &&
            r.cells[ScreenOffset(1, 0)].text == 'B' as int &&
            r.cells[ScreenOffset(0, 1)].text == 'C' as int &&
            r.cursor == ScreenOffset(1, 1)
  {
    var text := "AB\nC";
    assert text[..3] == "AB\n" && text[..3][..2] == "AB" && text[..2][..1] == "A" && text[..1][..0] == "";
    var s1 := TextPrinted(d, "A", -1, -1);
    CharacterWritesOneCell(d, 'A', Colors.MakeDefault(), -1, -1);
    var s2 := TextPrinted(d, "AB", -1, -1);
    CharacterWritesOneCell(s1, 'B', Colors.MakeDefault(), -1, -1);
    var s3 := TextPrinted(d, "AB\n", -1, -1);
    NewlineMovesToNextRow(s2, Colors.MakeDefault(), -1, -1);
    CharacterWritesOneCell(s3, 'C', Colors.MakeDefault(), -1, -1);
  }

  /** printAt("AB\nC", 0, 0): every character is sent to (0,0), including after
      the newline, which only moves the cursor. (0,0) ends up holding 'C', no
      other cell changes, and the cursor is at (1,0), whatever it was before. */
  lemma PositionedTwoLineExample(d: VideoState)
    requires |d.cells| == CellCount
    ensures PrintedAt(d, "AB\nC", 0, 0) ==
              VideoState(d.cells[ScreenOffset(0, 0) := Cell('C' as int, Colors.MakeDefault())], ScreenOffset(1, 0))
  {
    var text := "AB\nC";
    var start := d.(cursor := ScreenOffset(0, 0));
    assert text[..3] == "AB\n" && text[..3][..2] == "AB";
    PositionedTextOneCell(start, "AB", 0, 0);
    var s2 := TextPrinted(start, "AB", 0, 0);
    NewlineMovesToNextRow(s2, Colors.MakeDefault(), 0, 0);
    var s3 := TextPrinted(start, "AB\n", 0, 0);
    CharacterWritesOneCell(s3, 'C', Colors.MakeDefault(), 0, 0);
    assert s3.cells[0 := Cell('C' as int, Colors.MakeDefault())] ==
           d.cells[0 := Cell('C' as int, Colors.MakeDefault())];
  }

  /** printAt on row 24 with a character and then a newline: the newline is
      aligned to offset 1999, so its advance scrolls the whole screen, carrying
      the character up to row 23 and zeroing the character bytes of row 24. */
  lemma PositionedNewlineOnLastRow(d: VideoState, ch: char, col: int)
    requires |d.cells| == CellCount && ch != '\n' && 0 <= col < MaxCols - 1
    ensures var o := ScreenOffset(col, MaxRows - 1);
            PrintedAt(d, [ch, '\n'], col, MaxRows - 1) ==
              VideoState(Scrolled(d.cells[o := Cell(TextByte(ch), Colors.MakeDefault())]), LastRowStart)
  {
    var row := MaxRows - 1;
    var start := d.(cursor := ScreenOffset(col, row));
    assert [ch, '\n'][..1] == [ch] && [ch][..0] == [];
    var o := ScreenOffset(col, row);
    CharacterWritesOneCell(start, ch, Colors.MakeDefault(), col, row);
    var s1 := TextPrinted(start, [ch], col, row);
    assert TextPrinted(start, [ch][..0], col, row) == start;
    assert s1 == CharacterPrinted(start, ch, Colors.MakeDefault(), col, row);
    assert s1 == VideoState(d.cells[o := Cell(TextByte(ch), Colors.MakeDefault())], o + 1);
    OffsetRoundTrip(col, row);
    NewlineMovesToNextRow(s1, Colors.MakeDefault(), col, row);
    assert TextPrinted(start, [ch, '\n'], col, row) == CharacterPrinted(s1, '\n', Colors.MakeDefault(), col, row);
  }

  /** Screen::printLine() with the cursor on row 24 scrolls every time and leaves
      the cursor on the first column of row 24; on any other row it moves the
      cursor to the start of the next row. The cursor never leaves the grid. */
  lemma LineBreak(d: VideoState)
    requires d.Valid()
    ensures var r := PrintedAt(d, "\n", -1, -1);
            (d.cursor >= LastRowStart ==> r == VideoState(Scrolled(d.cells), LastRowStart)) &&
            (d.cursor < LastRowStart ==>
               r == VideoState(d.cells, ScreenOffset(0, ScreenRow(d.cursor) + 1)))
  {
  }

  // ---------------------------------------------------------------------------
  // Clearing

  /** The write Screen::clear makes at (col, row) is its next step. */
  lemma ClearStepsNext(d: VideoState, col: int, row: int)
    requires |d.cells| == CellCount && 0 <= col < MaxCols && 0 <= row < MaxRows
    ensures ScreenOffset(col, row) + 1 <= CellCount
    ensures ClearSteps(d, ScreenOffset(col, row) + 1) ==
              CharacterPrinted(ClearSteps(d, ScreenOffset(col, row)), ' ', Colors.MakeDefault(), col, row)
  {
  }

  /** Before the final write, clearing has blanked exactly the first k cells and
      moved the cursor to offset k. */
  lemma {:induction false} ClearStepsPrefix(d: VideoState, k: int)
    requires |d.cells| == CellCount && 1 <= k < CellCount
    ensures ClearSteps(d, k).cursor == k
    ensures forall i :: 0 <= i < k ==> ClearSteps(d, k).cells[i] == Blank()
    ensures forall i :: k <= i < CellCount ==> ClearSteps(d, k).cells[i] == d.cells[i]
    decreases k
  {
    var at := k - 1;
    OffsetCovers(at);
    if k > 1 {
      ClearStepsPrefix(d, at);
    }
    CharacterWritesOneCell(ClearSteps(d, at), ' ', Colors.MakeDefault(), at % MaxCols, at / MaxCols);
  }

  /** After Screen::clear the cursor is at (0,0), every attribute byte is the
      default attribute, rows 0..23 hold spaces, and the character bytes of row 24
      are 0: the write to (79,24) advances to 2000 and scrolls. */
  lemma ClearResult(d: VideoState)
    requires |d.cells| == CellCount
    ensures var r := Cleared(d);
            r.cursor == 0 &&
            (forall i :: 0 <= i < CellCount ==> r.cells[i].data == Colors.MakeDefault()) &&
            (forall i :: 0 <= i < LastRowStart ==> r.cells[i].text == TextByte(' ')) &&
            (forall i :: LastRowStart <= i < CellCount ==> r.cells[i].text == 0)
  {
    var at := CellCount - 1;
    ClearStepsPrefix(d, at);
    OffsetCovers(at);
    var before := ClearSteps(d, at);
    CharacterWritesOneCell(before, ' ', Colors.MakeDefault(), at % MaxCols, at / MaxCols);
    var written := before.cells[at := Blank()];
    assert forall i :: 0 <= i < CellCount ==> written[i] == Blank();
  }
}
