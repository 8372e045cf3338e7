# Net board generator, modelled in Dafny

This project models the board generator of `net.py`. The generator builds the
board of a "Net" pipe puzzle: a `ROWS x COLS` grid that wraps around at the
edges (a torus). Each cell holds a 4-bit connection mask. Bit 1 links the cell
to its +x neighbour, 2 to its +y neighbour, 4 to its -y neighbour and 8 to its
-x neighbour.

The generator grows a random spanning tree from cell `(0, 0)`, in the style of
Prim's algorithm. Three dictionaries split the cells into three kinds:

- empty cells have not been reached yet;
- extendable cells have been reached and still have an empty neighbour;
- full cells have been reached and have no empty neighbour.

The origin starts as the only extendable cell, with mask 0. The one board
on which it has no empty neighbour is the 1 x 1 board.

Each pass of the loop picks an extendable cell A. If A has no empty
neighbour, A becomes full. Otherwise the pass links A to a random empty
neighbour B and files A, B and B's neighbours again. The model also covers
the text dump of the finished board, one box-drawing glyph per cell.

The modules follow the program's parts:

- `Torus` (`torus.dfy`): cells, direction bits, the wrap-around neighbour
  list, the opposite-direction table, and facts about the torus. The facts
  are symmetry, distinctness and connectedness.
- `ConnectionMask` (`masks.dfy`): the bits of a mask in 0..15.
- `LinkTree` (`tree.dfy`): the masks read as a tree of links rooted at the
  origin. A spanning tree has `rows * cols - 1` links, links every cell to
  the origin, and leaves no cell blank.
- `Generator` (`generator.dfy`): the initialisation and the generation loop.
  The board is an `array2<int>` updated in place. The three dictionaries are
  `map<Cell, int>` values. Each step is a method with its own contract.
- `AsciiDump` (`ascii_dump.dfy`): the mask-to-glyph table and the string
  that `print_board` builds.
- `NetProgram` (`program.dfy`): the program's top level, which generates a
  5 x 5 board and builds its dump.

`ROWS` and `COLS` are parameters `rows, cols >= 1`; the constants
`NetProgram.Rows` and `NetProgram.Cols` keep the program's 5 x 5. The two
random picks are arbitrary choices (`:|`), so every property holds for every
sequence of draws. The tree is witnessed by two ghost maps: each cell's
parent direction and its depth below the origin.

The generator's method contracts, loop invariants and lemmas show the
following:

- The dictionaries stay a partition of the board.
- Every stored value equals the cell's board entry, and empty cells are 0.
- No full cell ever has an empty neighbour, and a full cell's mask never
  changes.
- Every extendable cell has an empty neighbour, except at the start on a
  1 x 1 board. So the empty cells decide which cells are extendable and
  which are full, and the `if not neighbors` branch (net.py:70-72) is only
  taken on a 1 x 1 board.
- Every `+=` adds a bit that was clear, so masks stay in 0..15 and links
  stay mutual.
- The masks are always exactly the links of a tree over the non-empty cells.
- The loop terminates: `2 * |empty| + |extendable|` decreases on every pass.
- The failsafe `break` can never be taken.
- On exit every cell is full and the board is a spanning tree of the torus.

## Model

| member | source | states |
|---|---|---|
| Torus.NeighborsWithDir | net.py:43-57 | the neighbour list has four entries carrying the bits 1, 2, 4, 8 in that order, and every neighbour lies on the board |
| Torus.NeighborIsStep | net.py:52-57 | on the board, entry i of the neighbour list (coordinates taken modulo the axis length) is the explicit wrap-around step in that entry's direction |
| Torus.OppositeInvolution | net.py:78 | the opposite-bit table is an involution with no fixed point that swaps the +x/+y bits with the -x/-y bits |
| Torus.StepSymmetric | net.py:52-57 | a step stays on the board, and stepping back in the opposite direction returns to the start |
| Torus.AdjacencySymmetric | net.py:52-57 | if (n, d) is in the neighbour list of p, then (p, opposite(d)) is in the neighbour list of n |
| Torus.NeighborsDistinctIff | net.py:52-57 | a cell and its four neighbours are five different cells exactly when rows >= 3 and cols >= 3 |
| Torus.AllCellsCard | net.py:35-38 | the board has rows * cols cells, the number the loop condition compares against |
| Torus.ClosedSetCoversGrid | net.py:52-57 | the torus is connected: a set holding (0, 0) that no step leads out of holds every cell |
| ConnectionMask.BitIsDivision | net.py:43-49 | the bit table agrees with the arithmetic reading of bit d of a mask in 0..15 |
| ConnectionMask.AddBit | net.py:84-88 | adding a bit that is clear keeps the mask in 0..15, sets that bit and leaves the other three as they were |
| ConnectionMask.ZeroMask | net.py:35 | a mask is 0 exactly when it has no link |
| ConnectionMask.MaskFromBits | net.py:43-49 | a mask in 0..15 is determined by its four link bits |
| LinkTree.InitialTree | net.py:35-40 | the all-zero board with only (0, 0) visited is a rooted tree |
| LinkTree.UnvisitedIsZero | net.py:87-88 | a cell not yet reached has mask 0, so B is 0 before its `+=` |
| LinkTree.LinkGrows | net.py:83-88 | linking a visited A to an unvisited neighbour B sets a bit of A that was clear, B was 0, and the masks are again the links of a rooted tree with B a child of A |
| LinkTree.LinksGrow | net.py:84-88 | after the two `+=`, each mask has bit e set exactly when there is a tree link in direction e, with B's new parent link included |
| LinkTree.LinksMutual | net.py:77-88 | links are mutual: bit d of a cell is set exactly when its d-neighbour has the opposite bit set |
| LinkTree.LinkSetIsParentLinks | net.py:83-88 | the links on the board are exactly one link per non-origin visited cell, the one to its parent |
| LinkTree.LinkCount | net.py:60-108 | a spanning tree has exactly rows * cols - 1 links |
| LinkTree.PathToOrigin | net.py:60-108 | every visited cell has a path of board links through visited cells to (0, 0) |
| LinkTree.NoBlankCell | net.py:60-108 | on a spanning tree of more than one cell every mask is nonzero |
| Generator.KeepEmpty | net.py:69 | the filter keeps exactly the neighbour entries whose cell is empty, and no more than it was given |
| Generator.CandidateIsStep | net.py:69 | every candidate B is empty and is the step from A in the candidate's direction |
| Generator.NoCandidateIff | net.py:69-72 | the candidate list is empty exactly when no step from the cell leads to an empty cell |
| Generator.NoStall | net.py:62-63 | under the loop invariant, no extendable cell left means every cell is full |
| Generator.MoveToFull | net.py:70-72 | moving an extendable cell with no empty neighbour to full, with its stored value, keeps the dictionaries' invariant |
| Generator.DictsDetermined | net.py:60-108 | under the loop invariant the extendable cells are exactly the reached cells with an empty neighbour, and the full cells exactly those without one |
| Generator.FrontierRelinked | net.py:83-88 | linking A to B and popping B keeps every extendable cell with an empty neighbour, counting B as still empty |
| Generator.LinkDicts | net.py:83-88 | linking A and B, taking B out of empty and refreshing A's value keeps the dictionaries' invariant and leaves every full cell's mask unchanged |
| Generator.SettleNeighbors | net.py:103-108 | exactly the neighbours of B that are extendable and have no empty neighbour move to full with their stored values; nothing else moves |
| Generator.SettleOne | net.py:104-108 | one neighbour n of B moves from extendable to full, with its stored value, exactly when it is extendable and has no empty neighbour; otherwise both dictionaries are unchanged |
| Generator.SettleStep | net.py:103-108 | settling B's neighbours keeps the dictionaries' invariant and only removes extendable cells |
| Generator.RemoveShrinks | net.py:71 | popping a key shrinks a dictionary by one |
| Generator.ConnectShrinks | net.py:87-108 | a connection pass lowers 2 * \|empty\| + \|extendable\| |
| Generator.Finished | net.py:61-63 | when the loop ends, empty and extendable are empty, full holds every cell's mask and the masks form a spanning tree |
| Generator.AllFull | net.py:61 | once every cell is full, the other two dictionaries are empty and full equals the masks |
| Generator.AddToCell | net.py:84 | the `+=` on one board entry raises that entry by v and changes no other entry |
| Generator.LinkTreeStep | net.py:83-88 | with visited meaning "not empty", linking A to B and popping B keeps the rooted-tree invariant, with B a child of A one level deeper |
| Generator.VisitedGrows | net.py:87 | popping B from empty adds exactly B to the non-empty cells |
| Generator.FileLinked | net.py:91-94 | A moves from extendable to full with its value exactly when it has no empty neighbour left, and otherwise nothing changes; the invariant holds with B filed as extendable |
| Generator.FileNewcomer | net.py:96-101 | B is filed as full with its board value exactly when it has no empty neighbour, and as extendable with that value otherwise; nothing else changes and the invariant holds |
| Generator.Refile | net.py:91-108 | if every extendable cell had an empty neighbour while B counted as empty, the re-filing of A, B and B's neighbours restores that with B gone; it keeps the invariant, keeps every full cell with its value, and adds no extendable cell other than B |
| Generator.StaysOpen | net.py:103-108 | a cell that had an empty neighbour while B was empty and is not a neighbour of B left without one still has an empty neighbour |
| Generator.LinkCells | net.py:83-88 | A's entry gains the bit towards B and its stored value is refreshed, B leaves empty and its entry gains the opposite bit; no other board entry changes |
| Generator.Connect | net.py:74-108 | a connection pass keeps the board/dictionary invariant, keeps every extendable cell with an empty neighbour, keeps the tree invariant (B a child of A), keeps full cells and their masks, and lowers the termination measure |
| Generator.InitBoard | net.py:34-40 | the board starts all zero; every cell but (0, 0) is empty with value 0, (0, 0) is extendable with value 0 and nothing is full; (0, 0) has an empty neighbour unless the board is 1 x 1 |
| Generator.Generate | net.py:60-108 | the loop terminates for every sequence of random picks; on exit empty and extendable are empty, full maps every cell to its board entry, and the masks are a spanning tree of the torus |
| AsciiDump.GlyphShowsLinks | net.py:111-128 | the arms of each glyph are exactly the mask's links: bit 1 right, 2 down, 4 up, 8 left |
| AsciiDump.GlyphsDistinct | net.py:111-128 | the 16 glyphs are pairwise distinct, and only mask 0 is drawn as a space |
| AsciiDump.LineLayout | net.py:134-135 | a line of the dump holds the glyphs of cells (0, y) .. (n - 1, y) in order of x |
| AsciiDump.TextLength | net.py:131-137 | the first m lines of the dump are m * (rows + 1) characters long |
| AsciiDump.TextCell | net.py:131-137 | cell (x, y) is drawn at position y * (rows + 1) + x with the glyph of its mask, and position y * (rows + 1) + rows is a line break |
| AsciiDump.TextLayout | net.py:131-137 | the dump has cols lines of rows glyphs each followed by a line break, and line y, column x shows the glyph of board[x][y] |
| AsciiDump.PrintBoard | net.py:131-137 | the nested loops build exactly the dump that TextLayout describes |
| AsciiDump.DumpShowsTree | net.py:110-137 | a generated board can be dumped, since every entry is in the table, and on a board of more than one cell no glyph is blank |
| NetProgram.GenerateAndDump | net.py:139-141 | the 5 x 5 board generated is a spanning tree of the torus, and its dump has 5 lines of 5 glyphs and a line break, line y column x showing the glyph of board[x][y], with no blank glyph |

## Left out

- Display, vector, font and pen setup, `reset` and the screen bounds (net.py:1-32): graphics hardware calls whose code is not part of this model.
- `draw_frame`, `draw_tile`, `draw_board` and `write` (net.py:144-186): pixel rendering through the graphics library.
- The button-polling `while True` loop and the `time.sleep` calls (net.py:189-213): input, timing, and a loop that never ends.
- The debug `print` calls (net.py:81, 140-141) and the final `print(output)`: `AsciiDump.PrintBoard` returns the string instead of printing it.
- The distribution of `random.choice`: both picks are arbitrary choices, so the model says nothing about which trees are more likely.
- AsciiDump.PrintBoard: requires every board entry to be in 0..15, where Python would raise `KeyError` on any other value. `AsciiDump.DumpShowsTree` shows that a generated board meets this.
- Python's `%` floors while Dafny's is Euclidean. The two agree here because the modulus is always positive.
- The board is a list of equal-length lists indexed `board[x][y]`, modelled as an `array2<int>` indexed `[x, y]`.
- The module-level globals become parameters and results of `Generator.Generate`. The ghost map `masks` mirrors the board, so the dictionaries can be related to it without reading the heap.

Behaviour of the program worth noting:

- The program signals no error when generation stalls; it only `break`s out of the loop (net.py:62-63). The model keeps the `break` and proves that it is never reached.
- There is no classifier from masks to tile shapes; `draw_tile` ignores the mask's value, so the model has nothing of that kind.
- Sides of length 1 or 2 are neither rejected nor special-cased. The model proves the generator correct for every `rows, cols >= 1`: a neighbour that is the cell itself or was already reached is never empty, so it is never linked twice. Only the distinctness of a cell's four neighbours needs both sides to be at least 3 (`Torus.NeighborsDistinctIff`).
