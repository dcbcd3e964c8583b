/** A value-level model of the VGA text-mode screen of src/drivers/screen.cpp:
    the 80x25 grid of (character, attribute) cells, the offset arithmetic, the
    cursor register encoding, and the effect of each driver operation on the
    grid and the cursor. The imperative driver in module ScreenDriver is proved
    against these functions. */
module VideoModel {
  import opened Bits
  import Colors

  const MaxRows: int := 25
  const MaxCols: int := 80
  /** Number of cells in the grid (2000). */
  const CellCount: int := MaxRows * MaxCols
  /** Offset of the first cell of the last row (1920). */
  const LastRowStart: int := CellCount - MaxCols

  /** I/O ports of the CRT controller and the two cursor registers it indexes. */
  const ScreenCtrl: int := 0x3D4
  const ScreenData: int := 0x3D5
  const CursorHighRegister: Byte := 0x0E
  const CursorLowRegister: Byte := 0x0F

  /** One cell of the video buffer: the character byte and the attribute byte. */
  datatype Cell = Cell(text: Byte, data: Byte)

  /** What the driver can observe: the grid in row-major order and the offset held
      by the cursor registers. */
  datatype VideoState = VideoState(cells: seq<Cell>, cursor: int) {
    /** A full grid and an on-screen cursor. */
    predicate Valid() {
      |cells| == CellCount && 0 <= cursor < CellCount
    }
  }

  /** getScreenOffset: the linear cell index of a (column, row) position. */
  function ScreenOffset(col: int, row: int): int {
    MaxCols * row + col
  }

  /** getScreenRow: the row containing an offset. C++ integer division truncates
      toward zero, which for a negative offset differs from Dafny's `/`. */
  function ScreenRow(offset: int): (r: int)
    ensures 0 <= offset ==> r * MaxCols <= offset < r * MaxCols + MaxCols
    ensures offset < 0 ==> r * MaxCols - MaxCols < offset <= r * MaxCols
  {
    if offset >= 0 then offset / MaxCols else -((-offset) / MaxCols)
  }

  /** printCharacter takes its position from (col, row) only when both are
      non-negative; otherwise it uses the hardware cursor. */
  predicate Positioned(col: int, row: int) {
    col >= 0 && row >= 0
  }

  /** An explicit position must name a cell of the buffer: the driver writes to
      it without a bounds check. */
  predicate Addressable(col: int, row: int) {
    Positioned(col, row) ==> ScreenOffset(col, row) < CellCount
  }

  /** What printCharacter needs of the state it starts from: a full grid, an
      explicit position that names a cell, and an on-screen cursor only when there
      is no explicit position (the cursor registers are read only then). */
  predicate CanPrint(d: VideoState, col: int, row: int) {
    |d.cells| == CellCount && Addressable(col, row) && (Positioned(col, row) || 0 <= d.cursor < CellCount)
  }

  /** The offset a character write starts from. */
  function TargetOffset(d: VideoState, col: int, row: int): int {
    if Positioned(col, row) then ScreenOffset(col, row) else d.cursor
  }

  /** static_cast<std::uint8_t> of a character. */
  function TextByte(ch: char): Byte {
    (ch as int) % 0x100
  }

  /** A C string: every character is one byte, the text stops at the first NUL,
      and the int16 loop index of printAt must not overflow. */
  predicate IsCString(text: string) {
    (forall c :: c in text ==> (c as int) < 0x100) && '\0' !in text && |text| < 0x8000
  }

  /** getCursorOffset's reassembly: the high register shifted into bits 8..15,
      the low register in bits 0..7, read back as an std::int16_t. */
  function CursorValue(high: Byte, low: Byte): int {
    ToInt16(high * 0x100 + low)
  }

  /** The grid after handleScrolling has fired: rows 1..24 moved up by one row
      (character and attribute bytes), and the character bytes of the last row
      zeroed while its attribute bytes keep what the last row held before. */
  function Scrolled(cells: seq<Cell>): (r: seq<Cell>)
    requires |cells| == CellCount
    ensures |r| == CellCount
    ensures forall i :: 0 <= i < LastRowStart ==> r[i] == cells[i + MaxCols]
    ensures forall i :: LastRowStart <= i < CellCount ==> r[i] == Cell(0, cells[i].data)
  {
    cells[MaxCols..] + seq(MaxCols, c requires 0 <= c < MaxCols => Cell(0, cells[LastRowStart + c].data))
  }

  /** handleScrolling: the grid and the offset after an advance to `offset`. */
  function AfterScrolling(cells: seq<Cell>, offset: int): (r: VideoState)
    requires |cells| == CellCount
    ensures |r.cells| == CellCount
    ensures 0 <= offset <= CellCount ==> r.Valid()
  {
    if offset >= CellCount then VideoState(Scrolled(cells), offset - MaxCols)
    else VideoState(cells, offset)
  }

  /** printCharacter: resolve the offset, either align a newline to the last
      column of its row or store the cell, advance by one, scroll if needed, and
      leave the result in the cursor. */
  function CharacterPrinted(d: VideoState, ch: char, data: Byte, col: int, row: int): (r: VideoState)
    requires CanPrint(d, col, row)
    ensures r.Valid()
  {
    var offset := TargetOffset(d, col, row);
    if ch == '\n' then
      AfterScrolling(d.cells, ScreenOffset(MaxCols - 1, ScreenRow(offset)) + 1)
    else
      AfterScrolling(d.cells[offset := Cell(TextByte(ch), data)], offset + 1)
  }

  /** The characters of `text`, one printCharacter each, in the default colours. */
  function TextPrinted(d: VideoState, text: string, col: int, row: int): (r: VideoState)
    requires CanPrint(d, col, row)
    ensures CanPrint(r, col, row)
    ensures |text| > 0 ==> r.Valid()
    decreases |text|
  {
    if |text| == 0 then d
    else
      var last := |text| - 1;
      CharacterPrinted(TextPrinted(d, text[..last], col, row), text[last], Colors.MakeDefault(), col, row)
  }

  /** Screen::printAt: an explicit position first moves the cursor there, then
      every character is printed with the same (col, row). */
  function PrintedAt(d: VideoState, text: string, col: int, row: int): (r: VideoState)
    requires CanPrint(d, col, row)
    ensures r.Valid()
  {
    var start := if Positioned(col, row) then d.(cursor := ScreenOffset(col, row)) else d;
    TextPrinted(start, text, col, row)
  }

  /** The first k writes of Screen::clear, which visits the grid row by row and
      prints a blank at every position. */
  function ClearSteps(d: VideoState, k: int): (r: VideoState)
    requires |d.cells| == CellCount && 0 <= k <= CellCount
    ensures |r.cells| == CellCount
    ensures k > 0 ==> r.Valid()
    decreases k
  {
    if k == 0 then d
    else
      var at := k - 1;
      CharacterPrinted(ClearSteps(d, at), ' ', Colors.MakeDefault(), at % MaxCols, at / MaxCols)
  }

  /** Screen::clear: all 2000 writes, then the cursor moved to (0, 0). Every write
      has an explicit position, so the starting cursor may be anything. */
  function Cleared(d: VideoState): (r: VideoState)
    requires |d.cells| == CellCount
    ensures r.Valid()
  {
    VideoState(ClearSteps(d, CellCount).cells, ScreenOffset(0, 0))
  }
}
