/**
 * The program's top level: a 5 x 5 board is generated, then its text dump
 * is built.
 */
module NetProgram {
  import opened Torus
  import opened ConnectionMask
  import opened LinkTree
  import opened Generator
  import opened AsciiDump

  /** The board size the program is built with. */
  const Rows := 5
  const Cols := 5

  /**
   * Generation followed by the dump of the result. The dump has one line per
   * y, holding the glyphs of the cells (0, y) .. (Rows - 1, y) and a line
   * break; no glyph is blank, and the board is a spanning tree of the torus.
   */
  method GenerateAndDump() returns (board: array2<int>, output: string, ghost masks: map<Cell, int>)
    ensures board.Length0 == Rows && board.Length1 == Cols
    ensures Mirrors(board, masks) && exists parent, depth :: SpanningTree(Rows, Cols, masks, parent, depth)
    ensures |output| == Cols * (Rows + 1)
    ensures forall x, y :: 0 <= x < Rows && 0 <= y < Cols ==>
      IsMask(board[x, y]) && output[Pos(Rows, x, y)] == Glyph(board[x, y]) && Glyph(board[x, y]) != ' '
    ensures forall y :: 0 <= y < Cols ==> output[Pos(Rows, Rows, y)] == '\n'
  {
    var emptyTiles, extendableTiles, fullTiles;
    ghost var parent, depth;
    board, emptyTiles, extendableTiles, fullTiles, masks, parent, depth := Generate(Rows, Cols);
    DumpShowsTree(board, masks, parent, depth);
    output := PrintBoard(board);
    TextLayout(board);
  }
}
