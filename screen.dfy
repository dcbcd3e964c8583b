/** The driver of src/drivers/screen.cpp: the memory-mapped video buffer as an
    array of cells updated in place, and the CRT controller's index register and
    two cursor registers standing in for the port I/O. Every operation is proved
    to have the effect the functions of VideoModel describe. */
module ScreenDriver {
  import opened Bits
  import Colors
  import opened VideoModel
  import VideoLemmas

  class Screen {
    /** The 80x25 cell buffer at physical address 0xB8000. */
    var video: array<Cell>
    /** The CRT controller's index register, selected through port 0x3D4. */
    var index: Byte
    /** Cursor location high (register 0x0E) and low (register 0x0F) bytes. */
    var cursorHigh: Byte
    var cursorLow: Byte

    /** The buffer is the full grid and the cursor registers name a cell of it. */
    ghost predicate Valid()
      reads this, video
    {
      video.Length == CellCount && 0 <= CursorOffset() < CellCount
    }

    /** The offset the cursor registers encode, as getCursorOffset returns it. */
    function CursorOffset(): int
      reads this
    {
      CursorValue(cursorHigh, cursorLow)
    }

    /** The grid and the cursor as the model sees them. */
    ghost function State(): VideoState
      reads this, video
    {
      VideoState(video[..], CursorOffset())
    }

    /** The hardware as the driver finds it: some buffer contents and whatever the
        cursor registers hold, on the grid or not. */
    constructor (initial: seq<Cell>, high: Byte, low: Byte)
      requires |initial| == CellCount
      ensures video.Length == CellCount && fresh(video)
      ensures State() == VideoState(initial, CursorValue(high, low))
    {
      video := new Cell[CellCount](i => if 0 <= i < |initial| then initial[i] else Cell(0, 0));
      index := CursorLowRegister;
      cursorHigh := high;
      cursorLow := low;
      new;
      assert video[..] == initial;
    }

    /** Ports::writeByte on the CRT controller: the control port selects a
        register, the data port stores a byte into the selected cursor register. */
    method WriteByte(port: int, value: Byte)
      requires port == ScreenCtrl ||
               (port == ScreenData && (index == CursorHighRegister || index == CursorLowRegister))
      modifies this`index, this`cursorHigh, this`cursorLow
      ensures port == ScreenCtrl ==>
                index == value && cursorHigh == old(cursorHigh) && cursorLow == old(cursorLow)
      ensures port == ScreenData ==> index == old(index)
      ensures port == ScreenData ==>
                cursorHigh == (if index == CursorHighRegister then value else old(cursorHigh)) &&
                cursorLow == (if index == CursorLowRegister then value else old(cursorLow))
    {
      if port == ScreenCtrl {
        index := value;
      } else if index == CursorHighRegister {
        cursorHigh := value;
      } else {
        cursorLow := value;
      }
    }

    /** Ports::readByte on the data port: the selected cursor register. */
    method ReadByte(port: int) returns (value: Byte)
      requires port == ScreenData && (index == CursorHighRegister || index == CursorLowRegister)
      ensures value == if index == CursorHighRegister then cursorHigh else cursorLow
    {
      value := if index == CursorHighRegister then cursorHigh else cursorLow;
    }

    /** getCursorOffset: select and read the high byte, select and read the low
        byte, combine. The `|=` is an addition here because the low 8 bits of the
        shifted high byte are zero. */
    method GetCursorOffset() returns (offset: int)
      modifies this`index, this`cursorHigh, this`cursorLow
      ensures cursorHigh == old(cursorHigh) && cursorLow == old(cursorLow)
      ensures offset == CursorOffset()
      ensures index == CursorLowRegister
    {
      WriteByte(ScreenCtrl, CursorHighRegister);
      var high := ReadByte(ScreenData);
      offset := ToInt16((high as int) * 0x100);
      WriteByte(ScreenCtrl, CursorLowRegister);
      var low := ReadByte(ScreenData);
      offset := ToInt16(offset + low);
    }

    /** setCursorOffset: select and write the high byte, then select and write
        the low byte. Reading the cursor back yields the offset written. */
    method SetCursorOffset(offset: int)
      requires IsInt16(offset)
      modifies this`index, this`cursorHigh, this`cursorLow
      ensures CursorOffset() == offset
      ensures index == CursorLowRegister
    {
      WriteByte(ScreenCtrl, CursorHighRegister);
      WriteByte(ScreenData, HighByte(offset));
      WriteByte(ScreenCtrl, CursorLowRegister);
      WriteByte(ScreenData, LowByte(offset));
      VideoLemmas.CursorRoundTrip(offset);
    }

    /** handleScrolling: past the last cell, copy rows 1..24 one row up in order
        (each copy a row-sized memcpy), zero the character bytes of row 24, and
        pull the offset back one row. */
    method HandleScrolling(offset: int) returns (adjusted: int)
      requires video.Length == CellCount
      modifies video
      ensures VideoState(video[..], adjusted) == AfterScrolling(old(video[..]), offset)
    {
      adjusted := offset;
      if offset >= CellCount {
        var row := 1;
        while row < MaxRows
          invariant 1 <= row <= MaxRows
          invariant forall i :: 0 <= i < ScreenOffset(0, row - 1) ==> video[i] == old(video[i + MaxCols])
          invariant forall i :: ScreenOffset(0, row - 1) <= i < CellCount ==> video[i] == old(video[i])
        {
          var dst, src := ScreenOffset(0, row - 1), ScreenOffset(0, row);
          forall c | 0 <= c < MaxCols {
            video[dst + c] := video[src + c];
          }
          row := row + 1;
        }
        var lastLine := ScreenOffset(0, MaxRows - 1);
        var col := 0;
        while col < MaxCols
          invariant 0 <= col <= MaxCols
          invariant forall i :: 0 <= i < lastLine ==> video[i] == old(video[i + MaxCols])
          invariant forall i :: lastLine <= i < lastLine + col ==> video[i] == Cell(0, old(video[i]).data)
          invariant forall i :: lastLine + col <= i < CellCount ==> video[i] == old(video[i])
        {
          video[lastLine + col] := video[lastLine + col].(text := 0);
          col := col + 1;
        }
        adjusted := offset - MaxCols;
        assert video[..] == Scrolled(old(video[..]));
      }
    }

    /** printCharacter: the one write path under every public operation. The
        cursor registers are read only when no explicit position is given. */
    method PrintCharacter(ch: char, data: Byte, col: int, row: int)
      requires video.Length == CellCount && CanPrint(State(), col, row)
      modifies this`index, this`cursorHigh, this`cursorLow, video
      ensures Valid()
      ensures State() == CharacterPrinted(old(State()), ch, data, col, row)
    {
      var offset;
      if col >= 0 && row >= 0 {
        offset := ScreenOffset(col, row);
      } else {
        offset := GetCursorOffset();
      }
      if ch == '\n' {
        offset := ScreenOffset(MaxCols - 1, ScreenRow(offset));
      } else {
        video[offset] := Cell(TextByte(ch), data);
      }
      offset := offset + 1;
      offset := HandleScrolling(offset);
      SetCursorOffset(offset);
    }

    /** Screen::printAt: an explicit position first moves the cursor there; then
        each character is printed with the same (col, row) in the default colours. */
    method PrintAt(text: string, col: int, row: int)
      requires video.Length == CellCount && CanPrint(State(), col, row) && IsCString(text)
      modifies this`index, this`cursorHigh, this`cursorLow, video
      ensures Valid()
      ensures State() == PrintedAt(old(State()), text, col, row)
    {
      if col >= 0 && row >= 0 {
        SetCursorOffset(ScreenOffset(col, row));
      }
      ghost var start := State();
      var i := 0;
      while i < |text|
        invariant 0 <= i <= |text|
        invariant video.Length == CellCount && CanPrint(State(), col, row)
        invariant State() == TextPrinted(start, text[..i], col, row)
      {
        assert text[..i + 1][..i] == text[..i];
        PrintCharacter(text[i], Colors.MakeDefault(), col, row);
        i := i + 1;
      }
      assert text[..|text|] == text;
    }

    /** Screen::print: printAt with no position, so every character goes to the
        current cursor. */
    method Print(text: string)
      requires Valid() && IsCString(text)
      modifies this`index, this`cursorHigh, this`cursorLow, video
      ensures Valid()
      ensures State() == PrintedAt(old(State()), text, -1, -1)
    {
      PrintAt(text, -1, -1);
    }

    /** Screen::printLine(): print a single newline. */
    method PrintLineBreak()
      requires Valid()
      modifies this`index, this`cursorHigh, this`cursorLow, video
      ensures Valid()
      ensures State() == PrintedAt(old(State()), "\n", -1, -1)
    {
      Print("\n");
    }

    /** Screen::printLine(text): print the text, then a newline. */
    method PrintLine(text: string)
      requires Valid() && IsCString(text)
      modifies this`index, this`cursorHigh, this`cursorLow, video
      ensures Valid()
      ensures State() == PrintedAt(PrintedAt(old(State()), text, -1, -1), "\n", -1, -1)
    {
      Print(text);
      PrintLineBreak();
    }

    /** Screen::clear: a blank in the default colours at every (col, row), row by
        row, then the cursor moved to (0, 0). It never reads the cursor, so it
        establishes the invariant from whatever cursor the hardware holds. */
    method Clear()
      requires video.Length == CellCount
      modifies this`index, this`cursorHigh, this`cursorLow, video
      ensures Valid()
      ensures State() == Cleared(old(State()))
    {
      BlankGrid();
      ghost var written := video[..];
      SetCursorOffset(ScreenOffset(0, 0));
      assert video[..] == written;
    }

    /** The two nested loops of Screen::clear: every position, row by row. */
    method BlankGrid()
      requires video.Length == CellCount
      modifies this`index, this`cursorHigh, this`cursorLow, video
      ensures Valid()
      ensures video[..] == Cleared(old(State())).cells
    {
      ghost var start := State();
      var row := 0;
      while row < MaxRows
        invariant 0 <= row <= MaxRows
        invariant video.Length == CellCount
        invariant State() == ClearSteps(start, ScreenOffset(0, row))
      {
        ClearRow(row, start);
        row := row + 1;
      }
    }

    /** The inner loop of Screen::clear: blanks along one row, continuing the
        sequence of writes that started from `start`. */
    method ClearRow(row: int, ghost start: VideoState)
      requires 0 <= row < MaxRows && |start.cells| == CellCount
      requires video.Length == CellCount && State() == ClearSteps(start, ScreenOffset(0, row))
      modifies this`index, this`cursorHigh, this`cursorLow, video
      ensures Valid() && State() == ClearSteps(start, ScreenOffset(0, row + 1))
    {
      var col := 0;
      while col < MaxCols
        invariant 0 <= col <= MaxCols
        invariant video.Length == CellCount
        invariant State() == ClearSteps(start, ScreenOffset(col, row))
      {
        VideoLemmas.ClearStepsNext(start, col, row);
        PrintCharacter(' ', Colors.MakeDefault(), col, row);
        col := col + 1;
      }
    }
  }
}
