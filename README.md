# VGA text-mode screen driver (dokkan) in Dafny

This project models the text-mode screen driver of the dokkan kernel
(`src/drivers/screen.cpp`) and its attribute-byte packer (`src/drivers/colors.cpp`),
and proves properties of the model.

The driver writes into an 80x25 grid of cells. Each cell holds a character byte
and an attribute byte. The grid lives in memory-mapped video memory. The cursor
is held in two CRT controller registers: register 0x0E holds the high byte and
register 0x0F the low byte. Both are reached through the control port 0x3D4,
which selects a register, and the data port 0x3D5, which moves the byte. Every
public operation (`print`, `printAt`, `printLine`, `clear`) goes through
`printCharacter`. That function resolves an offset from the explicit position or
from the cursor. Then it either aligns a newline to the last column of its row or
stores the cell. It advances by one, scrolls when the advance reaches cell 2000,
and writes the new offset back to the cursor registers.

Files:

- `bits.dfy`: the `Byte` type, the conversion to `std::int16_t` (two's-complement
  wrap), and the high/low byte split.
- `colors.dfy`: `Colors::make` and `Colors::makeDefault`, as pure functions with
  nibble lemmas.
- `video_model.dfy`: a value-level model of the whole driver. `VideoState` is the
  grid plus the cursor offset. It defines the offset arithmetic, the scroll
  (`Scrolled`, `AfterScrolling`), one character write (`CharacterPrinted`), a
  string written character by character (`TextPrinted`, `PrintedAt`), and
  clearing (`ClearSteps`, `Cleared`).
- `video_lemmas.dfy`: the properties proved about that model.
- `screen.dfy`: the driver itself, as the class `ScreenDriver.Screen`. It holds
  an `array<Cell>` of 2000 cells that it updates in place. It also has three byte
  fields: the CRT controller index register and the two cursor registers. Each
  method from the source is an imperative method with loops where the source has
  loops. Each is proved to leave `State()` equal to the matching model function
  applied to the old state.

Behaviours of the code that the model keeps as written:

- `printAt` with both coordinates non-negative passes the same `(col, row)` to
  every `printCharacter`. So every character goes to the same cell. For text
  without newlines at any cell other than (79,24), only the last character
  remains and the cursor ends on the next cell (`PrintAtOneCell`).
- A newline in positioned text on rows 0..23 only moves the cursor, to the start
  of the next row. The next character still goes to `(col, row)`
  (`PositionedTwoLineExample`). On row 24 every newline is aligned to offset
  1999, so its advance scrolls the whole screen. The characters already written
  there move up to row 23, and row 24's character bytes become 0
  (`PositionedNewlineOnLastRow`, and the row-24 case of `NewlineMovesToNextRow`).
- Newline-free text at (79,24): each character's advance reaches 2000 and
  scrolls the screen (`CharacterWritesOneCell`). Every character, the last one
  included, is carried up one row by its own advance and one more by each later
  character. The last 24 characters end in column 79 of rows 0..23 (the last one
  on row 23), and older ones scroll off the top. Cell (79,24) ends with character
  byte 0, and the cursor ends at 1920. A newline there writes no cell but still
  scrolls, so its place in column 79 holds character byte 0 and every earlier
  character is carried up one more row (`NewlineMovesToNextRow`).
- `clear` and `printAt` with an explicit position never read the cursor
  registers before writing them. The model therefore lets them start from any
  cursor value, including one off the grid (the kernel calls `clear` first at
  boot, on whatever cursor the hardware holds). `Screen.Clear` proves that it
  establishes the driver invariant from such a state.
- Scrolling zeroes only the character bytes of row 24. Its attribute bytes keep
  the values that row 24 held before the scroll.
- `clear` does not leave 2000 blanks. The write at (79,24) advances the offset to
  2000, which scrolls once. Rows 0..23 end up holding spaces, and row 24 holds
  character byte 0. All 2000 attribute bytes are the default attribute. The
  cursor then goes back to 0 (`ClearResult`).
- The cursor offset is an `std::int16_t`. The cursor round trip therefore holds
  for every int16 value (-32768..32767), not for every 16-bit unsigned value.
  `getCursorOffset` reads the reassembled 16-bit pattern back as a signed value.

## Model

| member | source | states |
|---|---|---|
| `Bits.ToInt16` | src/drivers/screen.cpp:62-67 | the int16 value read back is within the int16 range and agrees with the input modulo 2^16 (two's-complement wrap) |
| `Colors.Make` | src/drivers/colors.cpp:6-9 | the packed byte's low nibble is the foreground's low nibble; when both colours fit a nibble, the high nibble is the background |
| `Colors.MakeDefault` | src/drivers/colors.cpp:11-15 | no contract of its own (make(GREEN, BLACK)); `DefaultIsGreenOnBlack` states its two nibbles |
| `Colors.PackedNibbles` | src/drivers/colors.cpp:7-8 | truncating `(background << 4) + foreground` to 8 bits keeps the foreground in bits 0..3, and the background in bits 4..7 when both are nibble-sized |
| `Colors.MakeUnpacks` | src/drivers/colors.cpp:7-8 | nibble-sized foreground and background are recovered from the packed byte |
| `Colors.MakeRepacks` | src/drivers/colors.cpp:7-8 | every attribute byte is the packing of its own low and high nibbles (the converse round trip) |
| `Colors.MakeInjective` | src/drivers/colors.cpp:7-8 | two nibble-sized colour pairs that pack to the same byte are equal |
| `Colors.MakeZeroBackground` | src/drivers/colors.cpp:7-8 | with background value 0 the attribute is the foreground unchanged |
| `Colors.DefaultIsGreenOnBlack` | src/drivers/colors.cpp:12-15 | the default attribute has Green in the low nibble and Black in the high nibble |
| `VideoModel.ScreenOffset` | src/drivers/screen.cpp:36-38 | no contract of its own (80*row + col); `OffsetRoundTrip` and `OffsetCovers` state its range on the grid and that it is inverted by getScreenRow and mod 80 |
| `VideoModel.TargetOffset` | src/drivers/screen.cpp:81-86 | no contract of its own; `CharacterWritesOneCell` and `NewlineMovesToNextRow` state that, under `CanPrint`, the resolved offset is a cell of the grid and is where the write or newline alignment happens |
| `VideoModel.TextByte` | src/drivers/screen.cpp:91 | no contract of its own (the character code mod 256); texts accepted by `IsCString` hold only byte-sized codes, on which it is the code itself |
| `VideoModel.CursorValue` | src/drivers/screen.cpp:62-68 | no contract of its own; `CursorRoundTrip` and `CursorRegistersRoundTrip` state that it inverts the high/low byte split in both directions |
| `VideoModel.ScreenRow` | src/drivers/screen.cpp:40 | the row r of an offset satisfies 80r <= offset < 80r + 80 for a non-negative offset, and rounds toward zero for a negative one |
| `VideoModel.Scrolled` | src/drivers/screen.cpp:42-56 | after a scroll, cell i of rows 0..23 holds old cell i + 80; each cell of row 24 has character byte 0 and keeps its old attribute byte |
| `VideoModel.AfterScrolling` | src/drivers/screen.cpp:42-60 | scrolling keeps a full grid, and for offsets up to 2000 the resulting cursor is on screen |
| `VideoModel.CharacterPrinted` | src/drivers/screen.cpp:77-97 | one character write on a full grid, at an explicit position naming a cell or else at an on-screen cursor, leaves a valid state: the final cursor is in [0, 2000) |
| `VideoModel.TextPrinted` | src/drivers/screen.cpp:111-113 | printing any string character by character keeps the grid full and the same position usable, and after at least one character the cursor is on screen |
| `VideoModel.PrintedAt` | src/drivers/screen.cpp:107-114 | printAt (position first, then the characters) ends with a full grid and the cursor on screen, even from an off-grid cursor when a position is given |
| `VideoModel.ClearSteps` | src/drivers/screen.cpp:127-131 | every prefix of clear's 2000 writes keeps the grid full, and after the first write the cursor is on screen, whatever it was before |
| `VideoModel.Cleared` | src/drivers/screen.cpp:126-133 | clearing a full grid leaves a valid state from any starting cursor |
| `VideoLemmas.OffsetRoundTrip` | src/drivers/screen.cpp:36-40 | for 0 <= col < 80, 0 <= row < 25 the offset is in [0, 2000), getScreenRow gives back row and offset mod 80 gives back col |
| `VideoLemmas.OffsetCovers` | src/drivers/screen.cpp:36-40 | every cell offset in [0, 2000) lies on a row in [0, 25) and is the offset of its own column and row |
| `VideoLemmas.CursorRoundTrip` | src/drivers/screen.cpp:62-75 | writing an int16 offset as high and low register bytes and reassembling them yields the same offset |
| `VideoLemmas.CursorRegistersRoundTrip` | src/drivers/screen.cpp:62-75 | splitting the reassembled value gives back both register bytes, so the split and reassembly are inverse both ways |
| `VideoLemmas.ScrollingMovesRowsUp` | src/drivers/screen.cpp:42-60 | below 2000 nothing changes; at or past 2000 the offset drops by 80, each row r in 0..23 holds old row r+1 (text and attribute), and row 24 has character byte 0 with its attributes kept |
| `VideoLemmas.CharacterWritesOneCell` | src/drivers/screen.cpp:88-96 | a non-newline character writes exactly cell `offset`; without a scroll the grid is otherwise unchanged and the cursor is offset+1; at cell 1999 the written grid scrolls and the cursor is 1920 |
| `VideoLemmas.CharacterChangesOnlyItsCell` | src/drivers/screen.cpp:91 | pointwise: when no scroll happens, every cell other than the target is unchanged and the target holds (character, attribute) |
| `VideoLemmas.NewlineMovesToNextRow` | src/drivers/screen.cpp:88-96 | a newline writes no cell; from rows 0..23 the cursor goes to column 0 of the next row, and from row 24 the grid scrolls and the cursor is 1920 |
| `VideoLemmas.PrintPlainText` | src/drivers/screen.cpp:102-113 | printing newline-free text at the cursor, with no scroll, puts character i at cursor+i in the default attribute, changes no other cell, and leaves the cursor just past the text |
| `VideoLemmas.PrintAtOneCell` | src/drivers/screen.cpp:107-113 | from any starting cursor, printAt at an explicit cell (not the last) with non-empty newline-free text changes only that cell, which ends up holding the last character, and leaves the cursor on the next cell |
| `VideoLemmas.PositionedTextOneCell` | src/drivers/screen.cpp:111-113 | the same for the character loop alone, from any starting cursor |
| `VideoLemmas.TwoLineExample` | src/drivers/screen.cpp:102-113 | printing "AB\nC" from offset 0 puts 'A' at (0,0), 'B' at (1,0), 'C' at (0,1) and the cursor at (1,1) |
| `VideoLemmas.PositionedTwoLineExample` | src/drivers/screen.cpp:107-113 | printAt("AB\nC", 0, 0) from any cursor changes only cell (0,0), which ends holding 'C', and leaves the cursor at (1,0): the newline does not move later characters off the given position |
| `VideoLemmas.PositionedNewlineOnLastRow` | src/drivers/screen.cpp:81-96 | printAt of a character and a newline at (col, 24), col < 79, from any cursor: the newline scrolls the screen with the written character in it, and the cursor is 1920 |
| `VideoLemmas.LineBreak` | src/drivers/screen.cpp:122-123 | printLine() from row 24 scrolls and leaves the cursor at 1920 on every call; from any other row it keeps the grid and moves the cursor to the next row's start |
| `VideoLemmas.ClearStepsNext` | src/drivers/screen.cpp:127-129 | clear's write at (col, row) is its step number 80*row+col |
| `VideoLemmas.ClearStepsPrefix` | src/drivers/screen.cpp:126-131 | from any starting cursor, after 1 <= k < 2000 of clear's writes, cells 0..k-1 are blanks in the default attribute, the rest are unchanged, and the cursor is k |
| `VideoLemmas.ClearResult` | src/drivers/screen.cpp:126-133 | from any starting cursor, after clear the cursor is 0, every attribute byte is makeDefault(), rows 0..23 hold ' ', and the character bytes of row 24 are 0 |
| `ScreenDriver.Screen.WriteByte` | src/drivers/screen.cpp:71-74 | a write to port 0x3D4 selects a register; a write to port 0x3D5 stores the byte in the selected cursor register and leaves the other one |
| `ScreenDriver.Screen.ReadByte` | src/drivers/screen.cpp:64-66 | the assumed semantics of the data port: a read of port 0x3D5 returns the selected cursor register |
| `ScreenDriver.Screen.GetCursorOffset` | src/drivers/screen.cpp:62-68 | returns the int16 offset encoded by the two cursor registers and changes neither of them |
| `ScreenDriver.Screen.SetCursorOffset` | src/drivers/screen.cpp:70-75 | after the two select/transfer pairs, the cursor registers encode exactly the given int16 offset |
| `ScreenDriver.Screen.HandleScrolling` | src/drivers/screen.cpp:42-60 | the row-by-row copy and the last-row loop leave the buffer and returned offset equal to AfterScrolling of the old buffer |
| `ScreenDriver.Screen.PrintCharacter` | src/drivers/screen.cpp:77-97 | ends in the driver invariant (needing an on-screen cursor only without an explicit position), and the new grid and cursor are CharacterPrinted of the old ones |
| `ScreenDriver.Screen.PrintAt` | src/drivers/screen.cpp:107-114 | ends in the invariant (from any cursor when a position is given), and the new grid and cursor are PrintedAt of the old ones (loop invariant: the first i characters have been printed) |
| `ScreenDriver.Screen.Print` | src/drivers/screen.cpp:102-104 | equals printAt with position (-1, -1) |
| `ScreenDriver.Screen.PrintLineBreak` | src/drivers/screen.cpp:122-123 | equals print of a single newline |
| `ScreenDriver.Screen.PrintLine` | src/drivers/screen.cpp:116-120 | equals print of the text followed by print of a newline |
| `ScreenDriver.Screen.Clear` | src/drivers/screen.cpp:125-133 | from any cursor register contents, establishes the invariant, and the new grid and cursor are Cleared of the old ones |
| `ScreenDriver.Screen.BlankGrid` | src/drivers/screen.cpp:127-131 | the nested loops leave the buffer as all 2000 of clear's writes leave it, and the cursor on screen |
| `ScreenDriver.Screen.ClearRow` | src/drivers/screen.cpp:128-130 | the inner loop advances clear's writes by one full row |

## Left out

- src/kernel/kernel.cpp is not part of this model: the `Parent`/`Child` dispatch demo, the triangle-printing `init` and `kernel_main` are application code.
- include/dokkan/drivers/screen.hpp only declares the operations modelled here.
- The physical address 0xB8000, the packed layout of a cell and `std::memcpy` are not modelled. The buffer is an array of cells, and each memcpy is a parallel copy of one 80-cell row.
- The port primitives are modelled only as the CRT controller's index register and its two cursor registers. Other ports and other controller registers are not modelled, and `WriteByte`/`ReadByte` require that only these are touched.
- The numeric values of `Color::GREEN` and `Color::BLACK` come from colors.hpp, which is not part of this model. They are unspecified constants, and the lemmas about the default attribute assume only that each fits a nibble.
- `HIGH_BYTE` and `LOW_BYTE` come from kernel/bits.hpp, which is not part of this model. They are taken as the two's-complement bytes `(x / 256) % 256` and `x % 256`.
- ScreenDriver.Screen.GetCursorOffset: `offset |= low` is modelled as an addition, which equals the OR because the low 8 bits of the shifted high byte are zero. The bit-level equivalence is not proved.
- ScreenDriver.Screen.SetCursorOffset: the postcondition states the reassembled cursor value, not each register byte separately. The byte-level statement follows from `VideoLemmas.CursorRegistersRoundTrip`.
- Writes outside the grid are undefined behaviour in the source and are excluded by preconditions (`VideoModel.CanPrint`). An explicit `(col, row)` must name a cell (`80*row + col < 2000`). The cursor registers must name a cell only for the operations that write at the cursor: `print`, `printLine` and printAt/printCharacter without a position. `clear` and positioned printAt accept any cursor.
- Text is a `seq<char>` whose characters are all single bytes (code below 256), without NUL and shorter than 32768 characters (printAt's int16 index). Characters wider than a C++ `char` cannot occur in the source and are excluded. Null pointers and unterminated strings are not modelled.
- Concurrency and interrupts are not modelled: the source assumes a single caller.
