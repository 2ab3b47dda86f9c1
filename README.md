# Terminal Minesweeper, modelled in Dafny

The system is a Minesweeper game played in a terminal. Its core pieces are:

- **The board engine** (`engine/Minesweeper.java`). It holds a grid of `Cell`
  objects and two parallel boolean grids: the uncovered cells and the flagged
  ("highlighted") cells. Mines are laid only on the first uncover, so that
  first uncovered cell is never a mine. After that, every safe cell next to a
  mine is numbered. Uncovering an empty cell floods into its four orthogonal
  neighbours. Each `uncover` returns the glyph of the cell, the score (the
  number of newly uncovered cells) and whether every safe cell is uncovered.
- **The older board** nested in `Program.java`. It stores a `char` grid, lays
  its mines eagerly in the constructor and has no flags. Its numbering pass
  also overwrites mine cells, and it reads cells it has already rewritten.
- **Cells and skins.** A cell has a type, an uncovered mark, a flagged mark and
  a mine count. Eight skins map a cell to the character that draws it.
- **Per-game state** (`GameInstance`). It centres the board on the terminal
  and keeps the drawn cursor in step with the logical cursor when the terminal
  is resized.
- **Validated options.** Usernames of 3 to 10 units are kept and any other
  becomes "-"; the music volume is clamped to 0..100.
- **Small helpers:** the longest string, the difficulty table, camel case
  and the timer text.
- **The terminal-resize handler.** It holds a test-and-clear flag and an
  ordered list of subscribers.
- **The build script `compile.py`.** It recompiles only the Java files whose
  SHA-256 digest differs from the one cached for them, then launches the
  game.

One Dafny module models each of these:

| module | file | source |
|---|---|---|
| `JavaLang` | JavaLang.dfy | Java's 16-bit `char`, `%`, decimal formatting and the exceptions the core throws |
| `CellType` | CellType.dfy | `CellType` and the value of a `Cell` |
| `Skins` | Skins.dfy | the eight skins |
| `Cells` | Cells.dfy | `Cell` as a class |
| `Grids`, `Layout`, `Flood` | Grids.dfy, Layout.dfy, Flood.dfy | the grid, text-layout and flood-fill vocabulary that both boards share |
| `Engine` | Engine.dfy | `engine/Minesweeper.java` |
| `ProgramBoard` | Program.dfy | `Program.Minesweeper` |
| `Options` | Options.dfy | `OptionsInstance` |
| `Utils` | Utils.dfy | both copies of `Utils` |
| `Resize` | Resize.dfy | `TerminalResizeEventHandler` |
| `GameInstances` | GameInstances.dfy | `GameInstance` |
| `Compile` | Compile.dfy | `compile.py` |

The boards, the cell, the options, the resize handler and the game instance
change state in place. They are classes: the grids are Dafny `array2`
values, and the lists and scalars are fields. Their methods are proved
against ghost views of that state, such as the set of mines, the set of
uncovered cells and the set of flags. The build script is a loop over a
directory walk. It is modelled by a method whose result is tied to a fold
(`Compile.Pass`) over the walked files, and the cache properties are proved
about that fold.

Coordinates are kept as the source has them. The engine's constructor,
`placeMines`, `placeNumbers` and `isMine` index the grid `[x][y]`, while
`uncover` and `uncoverAdjacent` index it `[y][x]`. The model keeps both, so
its contracts about `uncover` speak of the cell `(y, x)`. The two agree on
square boards, which is the shape of every fixed difficulty.

The script writes a file's cache entry even when `javac` fails, and it
launches the game whether or not compilation succeeded; the model keeps both.

## Model

| member | source | states |
|---|---|---|
| JavaLang.Rem | engine/utils/Utils.java:92 | Java's `%`: the result has the sign of the dividend and agrees with the Euclidean remainder for non-negative operands |
| JavaLang.FormatInt | engine/utils/Utils.java:99-101 | `%d`: the decimal digits of the value, with a leading '-' for negatives |
| JavaLang.FormatInt02 | engine/utils/Utils.java:99-101 | `%02d`: at least two units, exactly two for 0..99, reading back as the value |
| JavaLang.DigitsRoundTrip | engine/utils/Utils.java:99-101 | reading back the decimal digits of `n` gives `n` |
| CellType.Fresh | engine/utils/Cell.java:9-22 | a new cell has the given type, is neither uncovered nor flagged, and holds number 0 |
| CellType.NumberOf | engine/utils/Cell.java:44-50 | `getNumber` succeeds exactly on NUMBER cells, returning the stored count; otherwise it throws `IllegalStateException` with the source's message |
| CellType.NumberAsChar | engine/utils/Cell.java:57-59 | `getNumberAsChar` succeeds exactly on NUMBER cells; a count of 0..9 gives the digit '0'+n; otherwise the exception of `getNumber` |
| Cells.Cell.constructor | engine/utils/Cell.java:20-22 | the new cell's state is the fresh state of its type |
| Cells.Cell.SetAdjacentMines | engine/utils/Cell.java:30-36 | stores `n` and succeeds exactly on a NUMBER cell, after which `getNumber` returns `n`; on any other type it throws and leaves the count unchanged |
| Cells.Cell.GetNumber | engine/utils/Cell.java:44-50 | Ok with the stored count exactly on NUMBER cells, `IllegalStateException` otherwise |
| Cells.Cell.GetNumberAsChar | engine/utils/Cell.java:57-59 | Ok exactly when `getNumber` is, holding the 16-bit truncation of count+'0'; otherwise the same exception |
| Cells.Cell.GetChar | engine/utils/Cell.java:66-68 | through the skin, a NUMBER cell (unflagged, for Hearts and Stars) draws as its `getNumberAsChar`, and an unflagged cell of another type draws as `getCharFor` of its type |
| Cells.Cell.IsUncovered | engine/utils/Cell.java:85-87 | the uncovered mark of the cell's state, the value `setUncovered` stored |
| Cells.Cell.IsFlagged | engine/utils/Cell.java:103-105 | the flagged mark of the cell's state, the value `setFlagged` stored |
| Cells.Cell.SetUncovered | engine/utils/Cell.java:85-96 | round trip with `isUncovered`, and the other three fields are unchanged |
| Cells.Cell.SetFlagged | engine/utils/Cell.java:103-114 | round trip with `isFlagged`, and the other three fields are unchanged |
| Cells.GetCharForGlyph | engine/utils/Cell.java:66-78 | `getCharFor(t)` is the skin's glyph of any unflagged cell of type `t`; for NUMBER it is '0', the digit of a fresh cell's count |
| Cells.SetThenGet | engine/utils/Cell.java:30-50 | after `setAdjacentMines(n)`, `getNumber` returns `n` on a NUMBER cell and throws on any other |
| Cells.GetCharFor | engine/utils/Cell.java:76-78 | a NUMBER type draws as '0', the count of a new cell; every other type draws as a character that is not a digit |
| Skins.Digit | engine/skins/impl/DefaultSkin.java:17-19 | on a NUMBER cell the skins' digit is what `getNumberAsChar` returns, so it never throws there |
| Skins.SkinName | engine/skins/impl/ASCIISkin.java:21-22 | every skin but the default one has a name |
| Skins.DefaultChar | engine/skins/impl/DefaultSkin.java:9-28 | a NUMBER cell draws as its `getNumberAsChar`; every other cell draws as a non-digit |
| Skins.AsciiChar | engine/skins/impl/ASCIISkin.java:10-18 | a NUMBER cell draws as its `getNumberAsChar`; every other cell draws as a non-digit |
| Skins.DiamondChar | engine/skins/impl/DiamondSkin.java:10-23 | a NUMBER cell draws as its `getNumberAsChar`; every other cell draws as a non-digit |
| Skins.HeartsChar | engine/skins/impl/HeartsSkin.java:10-29 | an unflagged NUMBER cell draws as its `getNumberAsChar`; a flagged cell or a cell of another type draws as a non-digit |
| Skins.MoneyChar | engine/skins/impl/MoneySkin.java:10-29 | a NUMBER cell draws as its `getNumberAsChar`; every other cell draws as a non-digit |
| Skins.MysteryChar | engine/skins/impl/MysterySkin.java:10-29 | a NUMBER cell draws as its `getNumberAsChar`; every other cell draws as a non-digit |
| Skins.PixelChar | engine/skins/impl/PixelSkin.java:10-29 | a NUMBER cell draws as its `getNumberAsChar`; every other cell draws as a non-digit |
| Skins.StarsChar | engine/skins/impl/StarsSkin.java:10-32 | an unflagged NUMBER cell draws as its `getNumberAsChar`; a flagged cell or a cell of another type draws as a non-digit |
| Skins.Render | engine/skins/ISkin.java:20 | `getChar` of the selected skin: a NUMBER cell draws as its `getNumberAsChar` unless Hearts or Stars show its flag; every other cell, and every flagged cell on those two skins, draws as a non-digit |
| Skins.DefaultSkinTable | engine/skins/impl/DefaultSkin.java:9-27 | NOT_SET '.', EMPTY ' ', NUMBER its digit, MINE '*', HIDDEN '#'; no name |
| Skins.AsciiSkinTable | engine/skins/impl/ASCIISkin.java:10-22 | NOT_SET '.', NUMBER its digit, MINE '#', HIDDEN '@', EMPTY (default branch) ' '; name "ASCII Art" |
| Skins.DiamondSkinTable | engine/skins/impl/DiamondSkin.java:10-27 | NOT_SET '.', NUMBER its digit, MINE U+25C6, HIDDEN U+25C7, EMPTY ' '; name "Diamond" |
| Skins.HeartsSkinTable | engine/skins/impl/HeartsSkin.java:10-33 | a flagged cell U+2661 whatever its type; otherwise NOT_SET '.', EMPTY ' ', NUMBER its digit, MINE and HIDDEN U+2665; name "Hearts" |
| Skins.MoneySkinTable | engine/skins/impl/MoneySkin.java:10-33 | NOT_SET '.', EMPTY ' ', NUMBER its digit, MINE '*', HIDDEN '$'; name "Money" |
| Skins.MysterySkinTable | engine/skins/impl/MysterySkin.java:10-33 | NOT_SET '.', EMPTY ' ', NUMBER its digit, MINE '*', HIDDEN '?'; name "Mystery" |
| Skins.PixelSkinTable | engine/skins/impl/PixelSkin.java:10-33 | NOT_SET '.', EMPTY ' ', NUMBER its digit, MINE U+25A0, HIDDEN U+25A1; name "Pixel" |
| Skins.StarsSkinTable | engine/skins/impl/StarsSkin.java:10-36 | a flagged cell U+25CA whatever its type; otherwise NOT_SET '.', EMPTY ' ', NUMBER its digit, MINE U+29EB, HIDDEN U+262A; name "Stars" |
| Skins.RenderIgnoresMarks | engine/skins/impl/DefaultSkin.java:9-27 | no skin looks at the uncovered mark, and only Hearts and Stars look at the flag |
| Skins.RenderNumber | engine/skins/impl/DefaultSkin.java:17-19 | every skin draws an unflagged NUMBER cell with count 0..9 as the digit '0'+count |
| Skins.RenderIdentifiesCell | engine/skins/impl/MysterySkin.java:10-29 | on unflagged cells, equal glyphs mean equal types (and equal counts for numbers), except that Hearts draws MINE and HIDDEN alike |
| Skins.SkinNamesDistinct | engine/skins/impl/StarsSkin.java:35-36 | no two named skins share a name |
| Grids.GridSize | engine/Minesweeper.java:17-30 | a `w` by `h` grid has `w*h` cells |
| Grids.NeighbourCountAtMost8 | engine/Minesweeper.java:225-238 | a cell has at most 8 marked neighbours, itself excluded |
| Grids.BlockCountAll | engine/Minesweeper.java:225-238 | scanning the 3x3 block around a cell and skipping its centre counts exactly its marked neighbours |
| Layout.LineShape | engine/Minesweeper.java:84-96 | a rendered row holds the glyphs on even columns, single spaces between them, no trailing space, and ends in '\n' |
| Layout.TextLength | engine/Minesweeper.java:81-100 | a field of `w` rows of `h` glyphs renders as `w*2h` units |
| Layout.TextLine | engine/Minesweeper.java:84-97 | row `i` of the text starts at offset `i*2h` and is that row's line |
| Flood.OpenedTrans | engine/Minesweeper.java:145-150 | two flood steps in a row are one flood step, and their scores add up |
| Flood.OpenedWithTarget | engine/Minesweeper.java:138-153 | uncovering a target and flooding from it uncovers the target and floods, scoring one more than the flood |
| Flood.SettledGrows | engine/Minesweeper.java:185-192 | a neighbour that is settled stays settled as more cells are uncovered |
| Flood.ReachesSelf | engine/Minesweeper.java:138-140 | the target itself is reached from the target by the one-cell walk |
| Flood.ReachesVia | engine/Minesweeper.java:146-151 | a walk from a neighbour of an EMPTY cell extends to a walk from that cell |
| Flood.FromNeighbour | engine/Minesweeper.java:146-151 | whatever one neighbour call opens is reached from the EMPTY cell through what has been opened since it was |
| Flood.FloodFromTarget | engine/Minesweeper.java:146-151 | the four neighbour calls of an EMPTY cell open only cells reached from it |
| Flood.FourNeighbours | engine/Minesweeper.java:146-151 | the four calls together: one opening whose score is the sum of the calls', every neighbour left off the board, open, a mine or flagged, and from an EMPTY cell only cells reached from it |
| Flood.FloodedCell | engine/Minesweeper.java:145-152 | after the four calls on an EMPTY cell, its flood is closed and the cell with everything opened is reached from it |
| Flood.NotFlooded | engine/Minesweeper.java:145-152 | an open cell that is not EMPTY calls nothing: nothing more is opened and only the cell itself is reached |
| Flood.OnlyTarget | engine/Minesweeper.java:143-152 | when the target is not EMPTY, it is the only cell a reached-from-the-target opening can hold |
| Flood.WalkInside | engine/Minesweeper.java:185-192 | a walk through eligible cells from the opened target never leaves the opened cells, because every EMPTY cell on it had its neighbours called |
| Flood.OpenedIsRegion | engine/Minesweeper.java:119-192 | an opening of a covered target whose cells are all reached from the target is exactly the target's flood region |
| Engine.ExpectedKinds | engine/Minesweeper.java:52-62 | after numbering, a cell is a MINE iff it was mined, a NUMBER with count 1..8 iff it is safe with that many mined neighbours, and EMPTY iff it is safe with none |
| Engine.Minesweeper.constructor | engine/Minesweeper.java:17-30 | a new board of the given size is all EMPTY, with nothing uncovered, nothing flagged and no mines |
| Engine.Minesweeper.FieldWidth | engine/Minesweeper.java:66-68 | the first dimension of the grid, at least 1 |
| Engine.Minesweeper.FieldHeight | engine/Minesweeper.java:72-74 | the second dimension of the grid, at least 1 |
| Engine.Minesweeper.IsMine | engine/Minesweeper.java:204-211 | true exactly on a mined cell of the board, false out of range |
| Engine.Minesweeper.IsCellHighlighted | engine/Minesweeper.java:277-284 | true exactly on a flagged cell, false out of range |
| Engine.Minesweeper.IsUncovered | engine/Minesweeper.java:356-363 | true on an uncovered cell and on every out-of-range position |
| Engine.Minesweeper.GetCell | engine/Minesweeper.java:379-391 | out of range a fresh NOT_SET cell; a covered cell a fresh HIDDEN cell; an uncovered cell the cell itself |
| Engine.Minesweeper.GetNumbersOfMines | engine/Minesweeper.java:225-238 | the number of mined neighbours among the 8 in-range ones, 0..8 |
| Engine.Minesweeper.GetNumbersOfFlaggedCells | engine/Minesweeper.java:252-265 | the number of flagged neighbours among the 8 in-range ones, 0..8 |
| Engine.Minesweeper.PlaceMine | engine/Minesweeper.java:38-45 | rejection sampling adds one mine on a cell that was not yet mined |
| Engine.Minesweeper.PlaceMines | engine/Minesweeper.java:35-47 | laying `mines` mines adds exactly `mines` distinct mined cells, given that many safe cells |
| Engine.Minesweeper.PutNumber | engine/Minesweeper.java:56-59 | a NUMBER cell holding the count replaces a safe cell; nothing else changes |
| Engine.Minesweeper.NumberCell | engine/Minesweeper.java:54-58 | the cell becomes what numbering makes of it, and the mines are unchanged |
| Engine.Minesweeper.PlaceNumbersRow | engine/Minesweeper.java:53-61 | every cell of row `x` becomes what numbering makes of it; other rows are unchanged |
| Engine.Minesweeper.PlaceNumbers | engine/Minesweeper.java:52-62 | the whole board is numbered from its mines, and the mines are unchanged |
| Engine.Minesweeper.AllSafeUncovered | engine/Minesweeper.java:155-165 | the scan answers true exactly when every safe cell is uncovered |
| Engine.Minesweeper.HighlightCell | engine/Minesweeper.java:295-301 | the flags gain the cell when it is in range; otherwise nothing changes |
| Engine.Minesweeper.UnhighlightCell | engine/Minesweeper.java:312-318 | the flags lose the cell; nothing else changes |
| Engine.Minesweeper.FlagsAfterWrite | engine/Minesweeper.java:295-318 | one write to the flag grid adds or removes exactly that cell in the flag set |
| Engine.Minesweeper.ToggleHighlightCell | engine/Minesweeper.java:331-343 | an uncovered cell (looked up as `(y, x)`) loses its flag, any other flips it; no other flag changes; no cell ends both flagged and uncovered |
| Engine.Minesweeper.FlagsCovered | engine/Minesweeper.java:119-122 | on a well-formed board no cell is both flagged and uncovered |
| Engine.Minesweeper.GetRemainingMines | engine/Minesweeper.java:401-423 | the number of mines minus the number of flags, possibly negative |
| Engine.Minesweeper.CountMines | engine/Minesweeper.java:404-411 | the number of MINE cells |
| Engine.Minesweeper.GlyphRowAt | engine/Minesweeper.java:85-90 | position `y` of row `x` is the cell's glyph when it is uncovered and the HIDDEN glyph otherwise |
| Engine.Minesweeper.GlyphRowsAt | engine/Minesweeper.java:84-97 | row `x` of the field is the glyph row of that first-index row |
| Engine.Minesweeper.GetFieldAsString | engine/Minesweeper.java:81-100 | the text is one line per first-index row, glyphs separated by single spaces, each line ending in '\n'; its length is `width*2*height` |
| Engine.Minesweeper.FieldTextLength | engine/Minesweeper.java:81-100 | the field text is `width*2*height` units long |
| Engine.Minesweeper.FieldLine | engine/Minesweeper.java:85-96 | the inner loop builds exactly the line of row `x` |
| Engine.Minesweeper.MakeSafe | engine/Minesweeper.java:133 | the chosen cell becomes a fresh EMPTY cell and loses its mine, if it had one |
| Engine.Minesweeper.NewBoardRoom | engine/Minesweeper.java:17-30 | a board without mines has `width*height` safe cells, the room the mine loop needs |
| Engine.Minesweeper.FirstMove | engine/Minesweeper.java:129-136 | the first uncover lays the mines, clears the chosen cell and numbers the board; out of range the mines stay laid and unnumbered |
| Engine.Minesweeper.SafeStart | engine/Minesweeper.java:129-136 | after the first move the chosen cell is not a mine, the board is numbered, and at most one laid mine was removed |
| Engine.Minesweeper.Uncover | engine/Minesweeper.java:119-171 | a flagged cell gives (null, 0, false) and changes nothing; otherwise the score is the number of newly uncovered cells and re-uncovering scores 0; on a covered in-range target the cells opened are exactly the flood region of the target (the cells on the board, unflagged, covered and not mines, the target aside, that a walk of orthogonal steps through EMPTY cells reaches from it), so a non-EMPTY target opens only itself; `gameEnded` iff every safe cell is uncovered; out of range the result is NOT_SET's glyph, 0, true |
| Engine.Minesweeper.UncoverStarted | engine/Minesweeper.java:137-170 | the same outcome on a board whose mines are laid: every cell opened is reached from the target through opened EMPTY cells, and an in-range non-EMPTY target opens only itself |
| Engine.Minesweeper.UncoverOnBoard | engine/Minesweeper.java:137-165 | on an unflagged in-range cell: it ends uncovered, the score counts new cells, every cell opened is reached from it through opened EMPTY cells, a non-EMPTY cell opens only itself, and the glyph is that of its type |
| Engine.Minesweeper.Open | engine/Minesweeper.java:138-139 | reports whether the cell was uncovered and uncovers it |
| Engine.Minesweeper.Reveal | engine/Minesweeper.java:138-153 | uncovers the cell and scores only when it was covered; every cell opened is reached from it through opened EMPTY cells, and a non-EMPTY cell opens only itself |
| Engine.Minesweeper.RevealCovered | engine/Minesweeper.java:142-153 | a covered cell scores 1 plus its flood, and every cell opened is reached from it; a non-EMPTY cell scores exactly 1 and opens only itself |
| Engine.Minesweeper.FloodIfEmpty | engine/Minesweeper.java:145-152 | after an EMPTY cell's four calls, each orthogonal neighbour is off the board, uncovered, a mine or flagged, and every cell opened is reached from the cell through opened EMPTY cells; a non-EMPTY cell scores 0 and changes nothing |
| Engine.Minesweeper.Flood | engine/Minesweeper.java:147-150 | the four neighbour calls leave all four neighbours settled, score the cells they uncover, and from an EMPTY cell open only cells reached from it |
| Engine.Minesweeper.FloodRow | engine/Minesweeper.java:148-149 | the calls on the left and then the right neighbour: each is one `uncoverAdjacent` step, and the score counts the cells both open |
| Engine.Minesweeper.FloodColumn | engine/Minesweeper.java:150-151 | the calls on the neighbour above and then below: each is one `uncoverAdjacent` step, and the score counts the cells both open |
| Engine.Minesweeper.UncoverAdjacent | engine/Minesweeper.java:185-192 | the score is positive exactly on a covered, unflagged, non-mine in-range cell, and then the cells opened are exactly that cell's flood region; on any other position it scores 0 and changes nothing |
| ProgramBoard.Digit | Program.java:514-516 | a count of 1..8 becomes the character '1'..'8' |
| ProgramBoard.KindOf | Program.java:551-558 | ' ' is the empty cell and '*' the mine |
| ProgramBoard.IsolatedAlone | Program.java:604-631 | a mine with no neighbouring mine has count 0 |
| ProgramBoard.RowPassShrinks | Program.java:512-518 | a row of numbering only turns mines into digits, in that row and from the current column on |
| ProgramBoard.BoardPassShrinks | Program.java:511-518 | the numbering pass only removes mines, in rows it has not yet reached or beyond |
| ProgramBoard.PassCharRange | Program.java:511-518 | after numbering a cell is ' ' (never a mine), '*' (still a mine) or a digit '1'..'8' |
| ProgramBoard.IsolatedRowPass | Program.java:512-518 | with no two mines touching, a row of numbering keeps every mine |
| ProgramBoard.RowPassKeeps | Program.java:512-518 | one step of numbering keeps every mine when the current cell is not a mine with a mined neighbour |
| ProgramBoard.IsolatedBoardPass | Program.java:511-518 | with no two mines touching, numbering keeps every mine |
| ProgramBoard.IsolatedPass | Program.java:511-518 | with no two mines touching, every cell ends as the intended '*', digit or ' ' |
| ProgramBoard.TouchingMines | Program.java:511-518 | on a board with two touching mines, the first mine in scan order is overwritten by '1' and the second then counts no mine |
| ProgramBoard.PassStep | Program.java:513-517 | one numbering step writes the digit of the current count or leaves the cell |
| ProgramBoard.BoardPassStep | Program.java:511-518 | a whole row of numbering closes one step of the outer loop |
| ProgramBoard.Minesweeper.constructor | Program.java:485-519 | the grid is `width` by `height` and all covered; `mines` distinct cells are laid; each cell is what the in-place numbering pass makes of it |
| ProgramBoard.Minesweeper.PlaceMine | Program.java:501-507 | rejection sampling adds one '*' on a cell that had none |
| ProgramBoard.Minesweeper.PlaceMines | Program.java:498-508 | exactly `mines` more '*' cells, given that many free cells |
| ProgramBoard.Minesweeper.IsMine | Program.java:594-602 | true exactly on an in-range '*' cell |
| ProgramBoard.Minesweeper.GetNumbersOfMines | Program.java:604-631 | the number of '*' among the 8 in-range neighbours, 0..8 |
| ProgramBoard.Minesweeper.NumberCell | Program.java:513-516 | a cell with a non-zero count becomes its digit (even a mine); the rest are unchanged |
| ProgramBoard.Minesweeper.NumberRow | Program.java:512-517 | one row of the pass, cell by cell in order |
| ProgramBoard.Minesweeper.NumberNext | Program.java:513-516 | one cell of the pass, reading the grid as already rewritten |
| ProgramBoard.Minesweeper.PlaceNumbers | Program.java:511-518 | the grid ends as the in-place numbering pass makes it |
| ProgramBoard.Minesweeper.AllSafeUncovered | Program.java:567-578 | true exactly when every non-'*' cell is uncovered |
| ProgramBoard.Minesweeper.Uncover | Program.java:544-583 | out of range ('X', 0, true) and no change; re-uncovering scores 0 and changes nothing; otherwise the score is the number of newly uncovered cells, the cells opened are exactly the flood region of the target (the covered non-'*' cells, the target aside, that orthogonal steps through ' ' cells reach from it), so a non-' ' target opens only itself, and `gameEnded` iff every non-'*' cell is uncovered |
| ProgramBoard.Minesweeper.Reveal | Program.java:551-565 | uncovers the cell and scores only when it was covered; every cell opened is reached from it through opened ' ' cells, and a non-' ' cell opens only itself |
| ProgramBoard.Minesweeper.Open | Program.java:551-553 | uncovers the cell |
| ProgramBoard.Minesweeper.RevealCovered | Program.java:555-565 | a covered cell scores 1 plus its flood, and every cell opened is reached from it; a non-' ' cell scores exactly 1 and opens only itself |
| ProgramBoard.Minesweeper.FloodIfEmpty | Program.java:558-564 | a ' ' cell leaves each of its four orthogonal neighbours off the board, uncovered or a mine, and every cell opened is reached from it through opened ' ' cells; any other cell scores 0 and changes nothing |
| ProgramBoard.Minesweeper.Flood | Program.java:560-563 | the four neighbour calls leave the neighbours settled, score what they uncover, and from a ' ' cell open only cells reached from it |
| ProgramBoard.Minesweeper.FloodRow | Program.java:560-561 | the calls on the left and then the right neighbour: each is one `uncoverAdjacent` step, and the score counts the cells both open |
| ProgramBoard.Minesweeper.FloodColumn | Program.java:562-563 | the calls on the neighbour above and then below: each is one `uncoverAdjacent` step, and the score counts the cells both open |
| ProgramBoard.Minesweeper.UncoverAdjacent | Program.java:585-592 | the score is positive exactly on a covered in-range non-'*' cell, and then the cells opened are exactly that cell's flood region; on any other position it scores 0 and changes nothing |
| ProgramBoard.Minesweeper.GlyphRowAt | Program.java:522-542 | a cell shows its character when uncovered and '#' otherwise |
| ProgramBoard.Minesweeper.GlyphRowsAt | Program.java:522-542 | row `x` of the field is the glyph row of that first-index row |
| ProgramBoard.Minesweeper.GetFieldAsString | Program.java:522-542 | one line per first-index row, single spaces between glyphs, each line ending in '\n'; length `width*2*height` |
| ProgramBoard.Minesweeper.FieldTextLength | Program.java:522-542 | the field text is `width*2*height` units long |
| ProgramBoard.Minesweeper.FieldLine | Program.java:522-542 | the inner loop builds exactly the line of row `x` |
| Options.NoUsernameInvalid | engine/options/OptionsInstance.java:69-84 | the placeholder "-" is one unit long and itself invalid |
| Options.IsUsernameValid | engine/options/OptionsInstance.java:92-94 | a valid name (3 to 10 units) is never empty and never the placeholder "-" |
| Options.Clamp | engine/options/OptionsInstance.java:129-131 | the volume lies in 0..100: values in range are kept, lower ones become 0, higher ones 100 |
| Options.ClampIdempotent | engine/options/OptionsInstance.java:129-131 | clamping twice is clamping once, and clamping is monotone |
| Options.OptionsInstance.constructor | engine/options/OptionsInstance.java:28-34 | the name and volume pass through their setters, a missing font becomes the default one, and the invariant holds from the start |
| Options.OptionsInstance.SetGrayOutNearbyCells | engine/options/OptionsInstance.java:41-52 | round trip with `isGrayOutNearbyCells` |
| Options.OptionsInstance.IsGrayOutNearbyCells | engine/options/OptionsInstance.java:41-43 | the stored setting, which `setGrayOutNearbyCells` sets |
| Options.OptionsInstance.SetUsername | engine/options/OptionsInstance.java:69-75 | a valid name is stored and any other becomes "-"; afterwards `isUsernameValid()` holds iff the given name was valid |
| Options.OptionsInstance.GetUsername | engine/options/OptionsInstance.java:59-61 | the stored name, which under the invariant is valid or "-" |
| Options.OptionsInstance.HasValidUsername | engine/options/OptionsInstance.java:82-94 | true iff the stored name is 3 to 10 units long, which under the invariant means it is not "-" |
| Options.OptionsInstance.SetFont | engine/options/OptionsInstance.java:101-112 | round trip with `getJsonFont` |
| Options.OptionsInstance.GetJsonFont | engine/options/OptionsInstance.java:101-103 | the stored font, which `setFont` sets |
| Options.OptionsInstance.SetMusicVolume | engine/options/OptionsInstance.java:119-131 | `getMusicVolume` returns the clamped volume, keeping the invariant |
| Options.OptionsInstance.GetMusicVolume | engine/options/OptionsInstance.java:119-121 | the stored volume, which under the invariant lies in 0..100 |
| Options.OptionsInstance.SetSoundtrackFilePath | engine/options/OptionsInstance.java:137-143 | round trip with `getSoundtrackFilePath` |
| Options.OptionsInstance.GetSoundtrackFilePath | engine/options/OptionsInstance.java:137-139 | the stored path, which `setSoundtrackFilePath` sets |
| Utils.GetMaxStringLength | engine/utils/Utils.java:12-27 | 0 for null or empty; otherwise at least every element's length and equal to one of them (Utils.java:8-23 is an identical copy) |
| Utils.GetDifficultyInfo | engine/utils/Utils.java:39-52 | every difficulty has a square grid of at least one cell and fewer mines than cells (Utils.java:45-58 is an identical copy) |
| Utils.CustomIsEasy | engine/utils/Utils.java:49-50 | CUSTOM falls to the default branch and gets EASY's values |
| Utils.DifficultyOrdered | engine/utils/Utils.java:41-48 | EASY, MEDIUM and HARD have strictly more mines on strictly larger grids |
| Utils.UpperCase | engine/utils/Utils.java:86 | lower-case ASCII letters are shifted to upper case; other units are unchanged |
| Utils.LowerCase | engine/utils/Utils.java:86 | upper-case ASCII letters are shifted to lower case; other units are unchanged |
| Utils.ToCamelCase | engine/utils/Utils.java:85-87 | throws on the empty string; otherwise keeps the length, upper-cases the first unit and lower-cases the rest |
| Utils.ToCamelCaseIdempotent | engine/utils/Utils.java:85-87 | with the ASCII-only case mapping of this model, converting a converted string changes nothing |
| Utils.ToCamelCaseOfEnumName | engine/utils/Utils.java:85-87 | "MEDIUM" becomes "Medium" |
| Utils.Separator | engine/utils/Utils.java:92-102 | ':' during the first half of each second and ' ' during the second half |
| Utils.GetGameTimerText | engine/utils/Utils.java:89-104 | "Time: ", the two-digit minutes, the separator, then the remaining seconds |
| Utils.GameTimerTextFields | engine/utils/Utils.java:89-104 | for whole minutes of fewer than 100: eleven units that read back as the minutes and as seconds in 0..59 |
| Utils.GameTimerTextBlinks | engine/utils/Utils.java:92 | the text repeats every 1000 ms of elapsed time |
| Resize.RemoveFirstAbsent | engine/TerminalResizeEventHandler.java:50-52 | removing a callback that is not subscribed changes nothing |
| Resize.RemoveFirstPresent | engine/TerminalResizeEventHandler.java:50-52 | removing a subscribed callback drops exactly its first occurrence and keeps the order of the rest |
| Resize.RemoveFirstCut | engine/TerminalResizeEventHandler.java:50-52 | the list is cut at the first index holding the callback |
| Resize.SubscribeUnsubscribe | engine/TerminalResizeEventHandler.java:45-52 | unsubscribing a callback right after subscribing it restores the list |
| Resize.TerminalResizeEventHandler.constructor | engine/TerminalResizeEventHandler.java:11-19 | records the initial size, with the flag down and no subscribers |
| Resize.TerminalResizeEventHandler.IsTerminalResized | engine/TerminalResizeEventHandler.java:21-28 | test and clear: returns the flag and lowers it |
| Resize.TerminalResizeEventHandler.GetLastKnownSize | engine/TerminalResizeEventHandler.java:30-32 | the size recorded by the constructor or by the latest `onResized` |
| Resize.TerminalResizeEventHandler.OnResized | engine/TerminalResizeEventHandler.java:34-42 | raises the flag, records the size and runs every subscriber once, in order |
| Resize.TerminalResizeEventHandler.Subscribe | engine/TerminalResizeEventHandler.java:45-47 | appends to the end of the list, keeping duplicates |
| Resize.TerminalResizeEventHandler.Unsubscribe | engine/TerminalResizeEventHandler.java:50-52 | the list without its first occurrence of the callback |
| Resize.ResizeReportedOnce | engine/TerminalResizeEventHandler.java:21-42 | after a resize, the first test answers true and the next one false |
| GameInstances.Centre | engine/utils/GameInstance.java:28-33 | the bounds are `2w-1` by `h`; the left and right margins differ by at most one, as do the top and bottom; the board fits a large enough terminal |
| GameInstances.CursorInside | engine/utils/GameInstance.java:145-165 | the cursor of a cell of the board lies inside the bounds, on an even column |
| GameInstances.CursorInjective | engine/utils/GameInstance.java:153-157 | different cells give different cursor positions |
| GameInstances.GameInstance.constructor | engine/utils/GameInstance.java:25-51 | a new empty board of the given size and mine count, centred bounds, the cursor on the bounds' corner, `truePos` (0, 0), nothing scored, the game running and in progress |
| GameInstances.GameInstance.FieldWidth | engine/utils/GameInstance.java:26-32 | the first dimension of the current board, which the constructor sets to the difficulty's width |
| GameInstances.GameInstance.FieldHeight | engine/utils/GameInstance.java:26-32 | the second dimension of the current board, which the constructor sets to the difficulty's height |
| GameInstances.GameInstance.GetCursor | engine/utils/GameInstance.java:54-56 | the stored cursor array itself, which `setCursor` sets |
| GameInstances.GameInstance.GetTruePos | engine/utils/GameInstance.java:58-60 | the stored logical position array itself, which `setTruePos` sets |
| GameInstances.GameInstance.GetScore | engine/utils/GameInstance.java:62-64 | the stored score, which `setScore` sets |
| GameInstances.GameInstance.IsRunning | engine/utils/GameInstance.java:66-68 | the stored running flag, which `setRunning` sets |
| GameInstances.GameInstance.GetPlayAgain | engine/utils/GameInstance.java:70-72 | the stored play-again flag, which `setPlayAgain` sets |
| GameInstances.GameInstance.IsGameEnded | engine/utils/GameInstance.java:74-76 | the stored game-ended flag, which `setGameEnded` sets |
| GameInstances.GameInstance.GetMinesweeper | engine/utils/GameInstance.java:103-105 | the stored board, which `setMinesweeper` sets |
| GameInstances.GameInstance.GetGameBounds | engine/utils/GameInstance.java:111-113 | the stored bounds, which the constructor and `recalculateGameBounds` set |
| GameInstances.GameInstance.GetRespawnTimes | engine/utils/GameInstance.java:115-117 | the stored respawn count, which `setRespawnTimes` sets |
| GameInstances.GameInstance.GetDifficulty | engine/utils/GameInstance.java:123-125 | the difficulty fixed at construction |
| GameInstances.GameInstance.GetUsername | engine/utils/GameInstance.java:127-129 | the username fixed at construction |
| GameInstances.GameInstance.GetGameStage | engine/utils/GameInstance.java:131-133 | the stored stage, which `setGameStage` sets |
| GameInstances.GameInstance.GetDifficultyInfo | engine/utils/GameInstance.java:168-170 | the mine count and grid size fixed at construction |
| GameInstances.GameInstance.SetCursor | engine/utils/GameInstance.java:79-137 | round trip with the getter; each setter changes only its own field |
| GameInstances.GameInstance.SetTruePos | engine/utils/GameInstance.java:79-137 | round trip with the getter; only that field changes |
| GameInstances.GameInstance.SetScore | engine/utils/GameInstance.java:79-137 | round trip with the getter; only that field changes |
| GameInstances.GameInstance.SetRunning | engine/utils/GameInstance.java:79-137 | round trip with the getter; only that field changes |
| GameInstances.GameInstance.SetPlayAgain | engine/utils/GameInstance.java:79-137 | round trip with the getter; only that field changes |
| GameInstances.GameInstance.SetGameEnded | engine/utils/GameInstance.java:79-137 | round trip with the getter; only that field changes |
| GameInstances.GameInstance.SetMinesweeper | engine/utils/GameInstance.java:107-109 | round trip with the getter; the bounds are not recomputed |
| GameInstances.GameInstance.SetRespawnTimes | engine/utils/GameInstance.java:119-121 | round trip with the getter; only that field changes |
| GameInstances.GameInstance.SetGameStage | engine/utils/GameInstance.java:135-137 | round trip with the getter; only that field changes |
| GameInstances.GameInstance.RecalculateGameBounds | engine/utils/GameInstance.java:145-166 | the bounds are re-centred on the new size and the cursor is re-derived from `truePos`; a `truePos` shorter than two throws and changes nothing |
| Compile.EndsWithTrans | compile.py:42 | a suffix of a suffix is a suffix |
| Compile.ContainsAfterDotSlash | compile.py:42 | a walked directory under "compiler-cache" contains that name |
| Compile.Join | compile.py:43 | `os.path.join`: the result ends with its second part, and it is `a/b` for two plain relative parts |
| Compile.Stem | compile.py:51 | `os.path.splitext`: drops ".java" unless the name is only dots before it |
| Compile.Src | compile.py:43 | the source path of a Java file ends in ".java" |
| Compile.Key | compile.py:51-52 | every cache path ends in ".hash" |
| Compile.SourceNotKey | compile.py:51-52 | a source path is never a cache path |
| Compile.ReadFile | compile.py:18-26 | a readable file reads as its text |
| Compile.ErrorNotDigest | compile.py:18-26 | the error text for a missing or unreadable file is never a hex digest |
| Compile.WriteToFile | compile.py:28-34 | a failed write changes nothing; a successful one makes the path read as the content; other paths are untouched |
| Compile.StepDecides | compile.py:40-63 | a file is skipped iff its cache entry reads as the digest of its text; otherwise one javac command is issued and the digest is written, even after a failed compile |
| Compile.Files | compile.py:40 | the items of one directory, one per file name, in order |
| Compile.PassSnoc | compile.py:39-64 | one more file appends its step to the pass |
| Compile.CompileJavaFiles | compile.py:37-64 | the two loops yield the file system and commands of the fold over the walk |
| Compile.CompileDirectory | compile.py:40-64 | the inner loop extends the fold by one directory |
| Compile.CompileFile | compile.py:41-64 | one iteration extends the fold by one file |
| Compile.StepFrame | compile.py:53-63 | a step writes no path but its own cache entry |
| Compile.StepCaches | compile.py:62-63 | after a step whose write succeeds, the cache entry holds the digest of the text read |
| Compile.PassFrame | compile.py:39-64 | a pass leaves every path that is not a cache entry alone |
| Compile.PassCommands | compile.py:59 | a pass issues at most one command per file, each a javac call for one of its files |
| Compile.CommandsSnoc | compile.py:59 | one more step keeps every command a javac call for a walked file |
| Compile.KeysPrefix | compile.py:37-64 | distinct, writable cache entries stay so on every prefix of the walk |
| Compile.CachedAfter | compile.py:53-63 | with distinct writable cache entries, after a pass every file's entry holds the digest of the text the pass started with; the last step writes its own entry and keeps the earlier ones |
| Compile.CachedKept | compile.py:62-63 | a later step keeps an earlier file's entry |
| Compile.CachedLast | compile.py:53-63 | a file's step caches the digest of its original text, because no earlier step writes a source file |
| Compile.PassCaches | compile.py:37-64 | after a pass whose writes all succeed, every entry holds the digest of its file |
| Compile.UpToDate | compile.py:53-56 | when every entry already holds the digest of its file, a pass compiles nothing and changes nothing |
| Compile.SecondPassCompilesNothing | compile.py:37-64 | a second pass right after a fully written one compiles nothing |
| Compile.UnreadableCacheRecompiles | compile.py:18-26 | an unreadable entry reads as an error text, which never matches, so the file is recompiled |
| Compile.FailedWriteRecompiles | compile.py:28-34 | a failed cache write leaves the entry as it was, so the same file is recompiled next time |
| Compile.CacheNeverCompiled | compile.py:42 | no file under the cache directory is ever compiled |
| Compile.RunScript | compile.py:67-81 | the script's commands are the pass's commands followed by the launch of the game, whatever the compiler did |

## Left out

- User interface, screens, menus, sound, fonts and the game loop: they are I/O through Lanterna and AWT, not part of this core.
- Threads and `synchronized`: the model is sequential.
- The random number generator: each rejection-sampling loop becomes an arbitrary choice of a cell that is not yet a mine, the set of cells the loop can end on. The contracts hold for every choice; the distribution of mines is not modelled.
- Engine.Minesweeper.constructor: requires a width and a height of at least 1. The source accepts 0. A width of 0 fails on the first `getFieldHeight` (engine/Minesweeper.java:72-74). A height of 0 fails at the first uncover's `random.nextInt(0, 0)` (engine/Minesweeper.java:41) when there are mines to lay, and with no mines nothing fails. The model describes none of these boards; every caller passes sizes of at least 1.
- Engine.Minesweeper.PlaceMines and Engine.Minesweeper.Uncover: require at least `mines` safe cells before the first uncover. With fewer, the source's rejection loop never ends; the model does not describe that case.
- ProgramBoard.Minesweeper.constructor: requires `mines <= width*height`, for the same reason.
- Utils.ToCamelCaseIdempotent: holds for the ASCII-only case mapping. With Java's full mapping it fails: "ß" becomes "SS", which converts again to "Ss".
- Utils.ToCamelCase: a `null` string throws `NullPointerException` at engine/utils/Utils.java:86. Strings in the model are never `null`, so that case is not described.
- Utils.GetMaxStringLength: a `null` element throws `NullPointerException` at engine/utils/Utils.java:17 or 20, which the model does not describe. A `null` array is modelled.
- Options.OptionsInstance.SetUsername and Options.OptionsInstance.constructor: a `null` name throws `NullPointerException` in `isUsernameValid` (engine/options/OptionsInstance.java:93). Strings in the model are never `null`, so that case is not described.
- ProgramBoard.Minesweeper.constructor: also requires a width and a height of at least 0. A negative size throws `NegativeArraySizeException` at Program.java:486-487, which the model does not describe.
- Int and long overflow: counts and coordinates are unbounded integers. The 16-bit `char` truncation is written out in the two places that cast a count to `char`: `getNumberAsChar` (CellType.NumberAsChar) and the older board's `(char)(adjacentMines + '0')` (ProgramBoard.Digit).
- Utils.GetGameTimerText: `TimeUnit.MINUTES.toSeconds` saturates at `Long.MAX_VALUE` and the model multiplies without saturation; only minutes beyond about 1.5e17 are affected.
- Utils.UpperCase, Utils.LowerCase, Utils.ToCamelCase and Utils.ToCamelCaseIdempotent: only ASCII letters are case-mapped. `String.toUpperCase`/`toLowerCase` map every Unicode letter and can change a string's length (as with 'ß'); that is not modelled.
- `getSoundtrackFile` builds a `java.io.File` and is left out. `FontManager`'s default font is a constructor parameter.
- Resize subscribers are opaque tokens: running one is recorded, and its effect is not modelled. Modification of the list while it is running is not modelled either.
- `java.awt.Rectangle` is kept as a value, because the game only ever replaces it.
- `GameStage` and `MinesweeperDifficulty` are not part of this model; their values are taken from the code that uses them.
- Compile.Join: POSIX paths only. On Windows `os.path.join` would use '\\'.
- `os.walk` and `os.makedirs`: the walk is an input sequence, and directory creation is not modelled.
- SHA-256 (FIPS 180-4) is an arbitrary function parameter. Properties that compare digests with error texts assume it yields 64 lower-case hex digits.
- `javac`: modelled as the command issued. Its exit status and the class files it writes are not modelled, and the script ignores both.
- The messages printed by the script.
- A write that fails part-way: a write either succeeds or changes nothing.
- Compile.CachedAfter and Compile.PassCaches: require that no two walked files share a cache path. `os.path.splitext` leaves ".java" whole, so the files ".java" and ".java.java" of one directory would both use ".java.hash"; the model does not describe that case.
