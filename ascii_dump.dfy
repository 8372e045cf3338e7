/**
 * The text dump of a generated board: one box-drawing glyph per cell,
 * read line by line. Line y of the dump holds the cells (0, y) .. (rows - 1, y),
 * so x runs to the right and y runs down the screen, and the bits 1, 2, 4
 * and 8 of a mask are drawn as arms to the right, down, up and left.
 */
module AsciiDump {
  import opened Torus
  import opened ConnectionMask
  import opened LinkTree
  import Generator

  /** The glyph of each mask in 0..15. */
  function Glyph(mask: int): char
    requires IsMask(mask)
  {
    match mask
    case 0 => ' '
    case 1 => '╺'
    case 2 => '╻'
    case 3 => '┏'
    case 4 => '╹'
    case 5 => '┗'
    case 6 => '┃'
    case 7 => '┣'
    case 8 => '╸'
    case 9 => '━'
    case 10 => '┓'
    case 11 => '┳'
    case 12 => '┛'
    case 13 => '┻'
    case 14 => '┫'
    case _ => '╋'
  }

  /** Which of its four arms a character draws. */
  datatype Arms = Arms(right: bool, down: bool, up: bool, left: bool)

  /**
   * The arms of the blank and the heavy box-drawing characters, read off
   * their shapes; any other character draws none.
   */
  function ArmsOf(ch: char): Arms
  {
    match ch
    case '╺' => Arms(true, false, false, false)
    case '╻' => Arms(false, true, false, false)
    case '╹' => Arms(false, false, true, false)
    case '╸' => Arms(false, false, false, true)
    case '┏' => Arms(true, true, false, false)
    case '┗' => Arms(true, false, true, false)
    case '━' => Arms(true, false, false, true)
    case '┃' => Arms(false, true, true, false)
    case '┓' => Arms(false, true, false, true)
    case '┛' => Arms(false, false, true, true)
    case '┣' => Arms(true, true, true, false)
    case '┳' => Arms(true, true, false, true)
    case '┻' => Arms(true, false, true, true)
    case '┫' => Arms(false, true, true, true)
    case '╋' => Arms(true, true, true, true)
    case _ => Arms(false, false, false, false)
  }

  /** The arms of a mask's glyph are exactly its links: +x right, +y down, -y up, -x left. */
  lemma GlyphShowsLinks(mask: int)
    requires IsMask(mask)
    ensures ArmsOf(Glyph(mask)) == Arms(HasBit(mask, 1), HasBit(mask, 2), HasBit(mask, 4), HasBit(mask, 8))
  {
  }

  /** Different masks get different glyphs, and only mask 0 is drawn blank. */
  lemma GlyphsDistinct(m: int, n: int)
    requires IsMask(m) && IsMask(n)
    ensures Glyph(m) == Glyph(n) <==> m == n
    ensures Glyph(m) == ' ' <==> m == 0
  {
    GlyphShowsLinks(m);
    GlyphShowsLinks(n);
    if Glyph(m) == Glyph(n) {
      MaskFromBits(m, n);
    }
    GlyphShowsLinks(0);
    ZeroMask(m);
  }

  /** Every entry of the board is a mask in 0..15. */
  predicate AllMasks(board: array2<int>)
    reads board
  {
    forall x, y :: 0 <= x < board.Length0 && 0 <= y < board.Length1 ==> IsMask(board[x, y])
  }

  /** The glyphs of the cells (0, y) .. (n - 1, y). */
  function Line(board: array2<int>, y: int, n: int): string
    reads board
    requires AllMasks(board) && 0 <= y < board.Length1 && 0 <= n <= board.Length0
  {
    if n == 0 then [] else Line(board, y, n - 1) + [Glyph(board[n - 1, y])]
  }

  /** The first m lines of the dump, each followed by a line break. */
  function Text(board: array2<int>, m: int): string
    reads board
    requires AllMasks(board) && 0 <= m <= board.Length1
  {
    if m == 0 then [] else Text(board, m - 1) + Line(board, m - 1, board.Length0) + ['\n']
  }

  /** The position of cell (x, y) in a dump whose lines hold rows glyphs and a line break. */
  function Pos(rows: int, x: int, y: int): int
  {
    y * (rows + 1) + x
  }

  /** A line holds the glyphs of its n cells, in order of x. */
  lemma {:induction false} LineLayout(board: array2<int>, y: int, n: int)
    requires AllMasks(board) && 0 <= y < board.Length1 && 0 <= n <= board.Length0
    ensures |Line(board, y, n)| == n
    ensures forall x :: 0 <= x < n ==> Line(board, y, n)[x] == Glyph(board[x, y])
  {
    if n > 0 {
      LineLayout(board, y, n - 1);
    }
  }

  /** Cells of earlier lines sit before line m, and cell (x, m) sits x places into it. */
  lemma PosBounds(rows: nat, x: int, y: int, m: nat)
    requires 0 <= x <= rows && 0 <= y
    ensures y < m ==> Pos(rows, x, y) < m * (rows + 1)
    ensures Pos(rows, x, m) == m * (rows + 1) + x
    ensures 0 <= Pos(rows, x, y)
  {
    if y < m {
      assert y * (rows + 1) <= (m - 1) * (rows + 1);
    }
  }

  lemma LengthStep(rows: int, m: int)
    ensures (m - 1) * (rows + 1) + (rows + 1) == m * (rows + 1)
  {
  }

  /** The first m lines of the dump are m * (rows + 1) characters long. */
  lemma {:induction false} TextLength(board: array2<int>, m: int)
    requires AllMasks(board) && 0 <= m <= board.Length1
    ensures |Text(board, m)| == m * (board.Length0 + 1)
  {
    if m > 0 {
      TextLength(board, m - 1);
      LineLayout(board, m - 1, board.Length0);
      LengthStep(board.Length0, m);
    }
  }

  /**
   * Cell (x, y) is drawn at Pos(rows, x, y) of the first m lines with the
   * glyph of its mask, and position rows of line y holds its line break.
   */
  lemma {:induction false} TextCell(board: array2<int>, m: int, x: int, y: int)
    requires AllMasks(board) && 0 <= y < m <= board.Length1 && 0 <= x <= board.Length0
    ensures 0 <= Pos(board.Length0, x, y) < |Text(board, m)|
    ensures Text(board, m)[Pos(board.Length0, x, y)] == if x < board.Length0 then Glyph(board[x, y]) else '\n'
  {
    var rows := board.Length0;
    var prev := Text(board, m - 1);
    var line := Line(board, m - 1, rows) + ['\n'];
    assert Text(board, m) == prev + line;
    TextLength(board, m - 1);
    LineLayout(board, m - 1, rows);
    PosBounds(rows, x, y, m - 1);
    var p := Pos(rows, x, y);
    if y < m - 1 {
      TextCell(board, m - 1, x, y);
      assert Text(board, m)[p] == prev[p];
    } else {
      assert p == |prev| + x;
      assert Text(board, m)[p] == line[x];
    }
  }

  /** The layout of the whole dump: the cells line by line, each line closed by a line break. */
  lemma TextLayout(board: array2<int>)
    requires AllMasks(board)
    ensures |Text(board, board.Length1)| == board.Length1 * (board.Length0 + 1)
    ensures forall x, y :: 0 <= x <= board.Length0 && 0 <= y < board.Length1 ==>
      0 <= Pos(board.Length0, x, y) < |Text(board, board.Length1)| &&
      Text(board, board.Length1)[Pos(board.Length0, x, y)] == if x < board.Length0 then Glyph(board[x, y]) else '\n'
  {
    TextLength(board, board.Length1);
    forall x, y | 0 <= x <= board.Length0 && 0 <= y < board.Length1
      ensures 0 <= Pos(board.Length0, x, y) < |Text(board, board.Length1)| &&
        Text(board, board.Length1)[Pos(board.Length0, x, y)] == if x < board.Length0 then Glyph(board[x, y]) else '\n'
    {
      TextCell(board, board.Length1, x, y);
    }
  }

  /**
   * The board a finished generation leaves behind can be dumped, and on a
   * board of more than one cell no cell is drawn blank.
   */
  lemma DumpShowsTree(board: array2<int>, masks: map<Cell, int>, parent: map<Cell, Dir>, depth: map<Cell, nat>)
    requires Generator.Mirrors(board, masks)
    requires SpanningTree(board.Length0, board.Length1, masks, parent, depth)
    ensures AllMasks(board)
    ensures board.Length0 * board.Length1 > 1 ==>
      forall x, y :: 0 <= x < board.Length0 && 0 <= y < board.Length1 ==> Glyph(board[x, y]) != ' '
  {
    forall x, y | 0 <= x < board.Length0 && 0 <= y < board.Length1
      ensures IsMask(board[x, y])
      ensures board.Length0 * board.Length1 > 1 ==> Glyph(board[x, y]) != ' '
    {
      assert (x, y) in masks;
      GlyphsDistinct(board[x, y], 0);
      if board.Length0 * board.Length1 > 1 {
        NoBlankCell(board.Length0, board.Length1, masks, parent, depth, (x, y));
      }
    }
  }

  /**
   * The dump of the board, built as the source builds it: for each line y,
   * the glyph of every cell (x, y) in order of x, then a line break.
   */
  method PrintBoard(board: array2<int>) returns (output: string)
    requires AllMasks(board)
    ensures output == Text(board, board.Length1)
  {
    output := "";
    var y := 0;
    while y < board.Length1
      invariant 0 <= y <= board.Length1
      invariant output == Text(board, y)
    {
      var x := 0;
      while x < board.Length0
        invariant 0 <= x <= board.Length0
        invariant output == Text(board, y) + Line(board, y, x)
      {
        output := output + [Glyph(board[x, y])];
        x := x + 1;
      }
      output := output + "\n";
      y := y + 1;
    }
  }
}
