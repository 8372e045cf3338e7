/**
 * The board generator: a randomized, Prim-style growth of a spanning tree
 * over the rows x cols torus.
 *
 * The board holds one connection mask per cell. Three dictionaries keyed by
 * cell split the cells into empty ones (not yet linked), extendable ones
 * (linked, and possibly with an empty neighbour) and full ones (linked,
 * with no empty neighbour); each stores the cell's current mask. Each pass
 * picks an extendable cell a; if none of its neighbours is empty, a becomes
 * full, otherwise a is linked to an empty neighbour b and a, b and b's
 * neighbours are filed again. The two random choices are modelled as
 * arbitrary choices, so everything here holds for every sequence of draws.
 */
module Generator {
  import opened Torus
  import opened ConnectionMask
  import opened LinkTree

  /** The entries of ns whose cell is a key of empty, in order. */
  function KeepEmpty(ns: seq<(Cell, Dir)>, empty: map<Cell, int>): (r: seq<(Cell, Dir)>)
    ensures forall p :: p in r <==> p in ns && p.0 in empty
    ensures |r| <= |ns|
  {
    if ns == [] then []
    else if ns[0].0 in empty then [ns[0]] + KeepEmpty(ns[1..], empty)
    else KeepEmpty(ns[1..], empty)
  }

  /** The neighbours of c that are still empty, with the direction bit leading to each. */
  function EmptyNeighbors(rows: int, cols: int, c: Cell, empty: map<Cell, int>): seq<(Cell, Dir)>
    requires rows >= 1 && cols >= 1
  {
    KeepEmpty(NeighborsWithDir(rows, cols, c.0, c.1), empty)
  }

  /** Each candidate is the step from c in its direction, and it is empty. */
  lemma CandidateIsStep(rows: int, cols: int, c: Cell, empty: map<Cell, int>, p: (Cell, Dir))
    requires rows >= 1 && cols >= 1 && InGrid(rows, cols, c)
    requires p in EmptyNeighbors(rows, cols, c, empty)
    ensures p.0 == Step(rows, cols, c, p.1) && p.0 in empty
  {
    var ns := NeighborsWithDir(rows, cols, c.0, c.1);
    var i :| 0 <= i < |ns| && ns[i] == p;
    NeighborIsStep(rows, cols, c.0, c.1, i);
  }

  /** No step from c leads to an empty cell. */
  ghost predicate Enclosed(rows: int, cols: int, c: Cell, empty: map<Cell, int>)
  {
    forall d: Dir :: Step(rows, cols, c, d) !in empty
  }

  /** c has no candidate exactly when no step from c leads to an empty cell. */
  lemma NoCandidateIff(rows: int, cols: int, c: Cell, empty: map<Cell, int>)
    requires rows >= 1 && cols >= 1 && InGrid(rows, cols, c)
    ensures |EmptyNeighbors(rows, cols, c, empty)| == 0 <==> Enclosed(rows, cols, c, empty)
  {
    var ns := NeighborsWithDir(rows, cols, c.0, c.1);
    if |EmptyNeighbors(rows, cols, c, empty)| == 0 {
      forall d: Dir ensures Step(rows, cols, c, d) !in empty {
        NeighborIsStep(rows, cols, c.0, c.1, DirIndex(d));
        assert ns[DirIndex(d)] in ns;
      }
    } else {
      CandidateIsStep(rows, cols, c, empty, EmptyNeighbors(rows, cols, c, empty)[0]);
    }
  }

  /** Every cell of the board is a key of exactly one of the three dictionaries, and nothing else is. */
  ghost predicate Partitioned(rows: int, cols: int, empty: map<Cell, int>, ext: map<Cell, int>, full: map<Cell, int>)
  {
    && (forall c :: c in empty ==> InGrid(rows, cols, c) && c !in ext && c !in full)
    && (forall c :: c in ext ==> InGrid(rows, cols, c) && c !in full)
    && (forall c :: c in full ==> InGrid(rows, cols, c))
    && (forall c :: InGrid(rows, cols, c) ==> c in empty || c in ext || c in full)
  }

  /** Every stored value is the cell's current mask; empty cells hold 0. */
  ghost predicate ValuesCurrent(masks: map<Cell, int>, empty: map<Cell, int>, ext: map<Cell, int>, full: map<Cell, int>)
  {
    && (forall c :: c in empty ==> empty[c] == 0 && c in masks && masks[c] == 0)
    && (forall c :: c in ext ==> c in masks && ext[c] == masks[c])
    && (forall c :: c in full ==> c in masks && full[c] == masks[c])
  }

  /** No full cell has an empty neighbour. */
  ghost predicate FullClosed(rows: int, cols: int, empty: map<Cell, int>, full: map<Cell, int>)
  {
    forall c :: c in full ==> Enclosed(rows, cols, c, empty)
  }

  /**
   * The failsafe never fires: while the dictionaries partition the board,
   * the origin is not empty and no full cell has an empty neighbour, an
   * empty extendable dictionary means every cell is full, so the loop
   * condition has already failed.
   */
  lemma NoStall(rows: int, cols: int, empty: map<Cell, int>, ext: map<Cell, int>, full: map<Cell, int>)
    requires rows >= 1 && cols >= 1
    requires Partitioned(rows, cols, empty, ext, full) && FullClosed(rows, cols, empty, full)
    requires Origin !in empty && |ext| == 0
    ensures full.Keys == AllCells(rows, cols)
  {
    assert ext.Keys == {};
    forall c, d: Dir | c in full.Keys && InGrid(rows, cols, c) ensures Step(rows, cols, c, d) in full.Keys {
      StepSymmetric(rows, cols, c, d);
    }
    ClosedSetCoversGrid(rows, cols, full.Keys);
  }

  lemma SubsetCardEq(a: set<Cell>, b: set<Cell>)
    requires a <= b && |a| >= |b|
    ensures a == b
  {
    assert b == a + (b - a) && a !! (b - a);
    assert |b - a| == 0;
  }

  lemma SubsetCard(a: set<Cell>, b: set<Cell>)
    requires a <= b
    ensures |a| <= |b|
  {
    assert b == a + (b - a) && a !! (b - a);
  }

  /** The cells one step away from b. */
  function StepNeighbors(rows: int, cols: int, b: Cell): set<Cell>
  {
    {Step(rows, cols, b, 1), Step(rows, cols, b, 2), Step(rows, cols, b, 4), Step(rows, cols, b, 8)}
  }

  /** c is a neighbour of b and none of c's own neighbours is empty. */
  ghost predicate Settles(rows: int, cols: int, b: Cell, empty: map<Cell, int>, c: Cell)
  {
    c in StepNeighbors(rows, cols, b) && Enclosed(rows, cols, c, empty)
  }

  /**
   * The last part of a connection pass: every neighbour of b that is
   * extendable and has no empty neighbour left moves to the full dictionary
   * with its stored mask; nothing else moves.
   */
  method SettleNeighbors(rows: int, cols: int, b: Cell, empty: map<Cell, int>, ext: map<Cell, int>, full: map<Cell, int>)
    returns (ext': map<Cell, int>, full': map<Cell, int>)
    requires rows >= 1 && cols >= 1 && InGrid(rows, cols, b)
    requires forall c :: c in ext ==> c !in empty && c !in full
    ensures forall c :: c in ext' <==> c in ext && !Settles(rows, cols, b, empty, c)
    ensures forall c :: c in ext' ==> ext'[c] == ext[c]
    ensures forall c :: c in full' <==> c in full || (c in ext && Settles(rows, cols, b, empty, c))
    ensures forall c :: c in full' ==> full'[c] == if c in full then full[c] else ext[c]
  {
    var ns := NeighborsWithDir(rows, cols, b.0, b.1);
    ext', full' := ext, full;
    // The neighbours of b visited so far.
    ghost var seen: set<Cell> := {};
    for i := 0 to |ns|
      invariant seen <= StepNeighbors(rows, cols, b)
      invariant forall d: Dir :: DirIndex(d) < i ==> Step(rows, cols, b, d) in seen
      invariant forall c :: c in ext' <==> c in ext && !(c in seen && Enclosed(rows, cols, c, empty))
      invariant forall c :: c in ext' ==> ext'[c] == ext[c]
      invariant forall c :: c in full' <==> c in full || (c in ext && c in seen && Enclosed(rows, cols, c, empty))
      invariant forall c :: c in full' ==> full'[c] == if c in full then full[c] else ext[c]
    {
      var n := ns[i].0;
      NeighborIsStep(rows, cols, b.0, b.1, i);
      ext', full' := SettleOne(rows, cols, n, empty, ext', full');
      seen := seen + {n};
    }
    assert seen == StepNeighbors(rows, cols, b);
  }

  /**
   * One neighbour n of B: when n is neither empty nor full, has no empty
   * neighbour and is extendable, it moves to the full dictionary.
   */
  method SettleOne(rows: int, cols: int, n: Cell, empty: map<Cell, int>, ext: map<Cell, int>, full: map<Cell, int>)
    returns (ext': map<Cell, int>, full': map<Cell, int>)
    requires rows >= 1 && cols >= 1 && InGrid(rows, cols, n)
    requires forall c :: c in ext ==> c !in empty && c !in full
    ensures ext' == if n in ext && Enclosed(rows, cols, n, empty) then ext - {n} else ext
    ensures full' == if n in ext && Enclosed(rows, cols, n, empty) then full[n := ext[n]] else full
  {
    ext', full' := ext, full;
    if n !in empty && n !in full {
      var nNeighbors := EmptyNeighbors(rows, cols, n, empty);
      NoCandidateIff(rows, cols, n, empty);
      if |nNeighbors| == 0 && n in ext {
        full' := full[n := ext[n]];
        ext' := ext - {n};
      }
    }
  }

  /**
   * What the generation loop keeps true about its three dictionaries: they
   * partition the board, their values are the current masks, and no full
   * cell has an empty neighbour. The tree the masks form is kept separately
   * (LinkTree.RootedTree over the cells that are not empty).
   */
  ghost predicate DictInv(rows: int, cols: int, masks: map<Cell, int>,
                          empty: map<Cell, int>, ext: map<Cell, int>, full: map<Cell, int>)
  {
    && rows >= 1 && cols >= 1
    && Partitioned(rows, cols, empty, ext, full)
    && ValuesCurrent(masks, empty, ext, full)
    && FullClosed(rows, cols, empty, full)
  }

  /** Every extendable cell has an empty neighbour. */
  ghost predicate FrontierOpen(rows: int, cols: int, empty: map<Cell, int>, ext: map<Cell, int>)
  {
    forall c :: c in ext ==> !Enclosed(rows, cols, c, empty)
  }

  /**
   * With every extendable cell open, the empty cells fix the other two
   * dictionaries: the extendable cells are exactly the non-empty cells with
   * an empty neighbour, and the full cells exactly those without one.
   */
  lemma DictsDetermined(rows: int, cols: int, masks: map<Cell, int>,
                        empty: map<Cell, int>, ext: map<Cell, int>, full: map<Cell, int>)
    requires DictInv(rows, cols, masks, empty, ext, full) && FrontierOpen(rows, cols, empty, ext)
    ensures forall c :: c in ext <==> InGrid(rows, cols, c) && c !in empty && !Enclosed(rows, cols, c, empty)
    ensures forall c :: c in full <==> InGrid(rows, cols, c) && c !in empty && Enclosed(rows, cols, c, empty)
  {
  }

  /**
   * Linking a to b and popping b keeps every extendable cell open, as long
   * as b still counts as empty.
   */
  lemma FrontierRelinked(rows: int, cols: int, empty: map<Cell, int>, ext: map<Cell, int>, a: Cell, v: int, b: Cell)
    requires FrontierOpen(rows, cols, empty, ext) && a in ext && b in empty
    ensures FrontierOpen(rows, cols, (empty - {b})[b := 0], ext[a := v])
  {
    assert forall c :: c in (empty - {b})[b := 0] <==> c in empty;
  }

  /**
   * Filing an extendable cell that has no empty neighbour as full, with the
   * value it had, keeps the dictionaries' invariant.
   */
  lemma MoveToFull(rows: int, cols: int, masks: map<Cell, int>,
                   empty: map<Cell, int>, ext: map<Cell, int>, full: map<Cell, int>, c: Cell)
    requires DictInv(rows, cols, masks, empty, ext, full)
    requires c in ext && Enclosed(rows, cols, c, empty)
    ensures DictInv(rows, cols, masks, empty, ext - {c}, full[c := ext[c]])
  {
    assert (ext - {c}).Keys == ext.Keys - {c};
    assert full[c := ext[c]].Keys == full.Keys + {c};
  }

  /**
   * Linking the extendable cell a to its empty neighbour b: with the new
   * masks m (a gains bit d, b the opposite bit), b out of the empty
   * dictionary and, for the moment, filed as extendable, and a's stored
   * value refreshed, the dictionaries' invariant holds again. The masks of
   * the full cells do not change.
   */
  lemma LinkDicts(rows: int, cols: int, masks: map<Cell, int>,
                  empty: map<Cell, int>, ext: map<Cell, int>, full: map<Cell, int>, a: Cell, b: Cell, d: Dir)
    requires DictInv(rows, cols, masks, empty, ext, full)
    requires a in ext && b in empty && b == Step(rows, cols, a, d)
    ensures var m := masks[a := masks[a] + d][b := masks[b] + Opposite(d)];
      && (forall c :: c in full ==> m[c] == masks[c])
      && DictInv(rows, cols, m, empty - {b}, ext[a := masks[a] + d][b := masks[b] + Opposite(d)], full)
  {
    assert (empty - {b}).Keys == empty.Keys - {b};
    assert ext[a := masks[a] + d][b := masks[b] + Opposite(d)].Keys == ext.Keys + {b};
  }

  /**
   * The settling of b's neighbours, as SettleNeighbors states it, keeps the
   * dictionaries' invariant and only removes extendable cells.
   */
  lemma SettleStep(rows: int, cols: int, masks: map<Cell, int>,
                   empty: map<Cell, int>, ext: map<Cell, int>, full: map<Cell, int>, b: Cell,
                   ext': map<Cell, int>, full': map<Cell, int>)
    requires DictInv(rows, cols, masks, empty, ext, full)
    requires forall c :: c in ext' <==> c in ext && !Settles(rows, cols, b, empty, c)
    requires forall c :: c in ext' ==> ext'[c] == ext[c]
    requires forall c :: c in full' <==> c in full || (c in ext && Settles(rows, cols, b, empty, c))
    requires forall c :: c in full' ==> full'[c] == if c in full then full[c] else ext[c]
    ensures DictInv(rows, cols, masks, empty, ext', full')
    ensures ext'.Keys <= ext.Keys
  {
  }

  /** Removing a key makes a dictionary smaller. */
  lemma RemoveShrinks(m: map<Cell, int>, k: Cell)
    requires k in m
    ensures |m - {k}| == |m| - 1
  {
    assert (m - {k}).Keys == m.Keys - {k};
  }

  /** A connection pass lowers 2 * |empty| + |ext|: one cell leaves empty, at most one joins ext. */
  lemma ConnectShrinks(empty0: map<Cell, int>, ext0: map<Cell, int>, empty: map<Cell, int>, ext: map<Cell, int>, b: Cell)
    requires b in empty0 && empty.Keys == empty0.Keys - {b}
    requires ext.Keys <= ext0.Keys + {b}
    ensures 2 * |empty| + |ext| < 2 * |empty0| + |ext0|
  {
    assert |empty.Keys| == |empty0.Keys| - 1;
    SubsetCard(ext.Keys, ext0.Keys + {b});
  }

  /**
   * Whichever way the generation loop ends, by its condition or by the
   * failsafe, every cell is full with its mask as value, the other two
   * dictionaries are empty and the masks form a spanning tree.
   */
  lemma Finished(rows: int, cols: int, masks: map<Cell, int>,
                 empty: map<Cell, int>, ext: map<Cell, int>, full: map<Cell, int>,
                 parent: map<Cell, Dir>, depth: map<Cell, nat>)
    requires DictInv(rows, cols, masks, empty, ext, full)
    requires RootedTree(rows, cols, masks, AllCells(rows, cols) - empty.Keys, parent, depth)
    requires |ext| == 0 || |full| >= rows * cols
    ensures empty == map[] && ext == map[] && full == masks
    ensures SpanningTree(rows, cols, masks, parent, depth)
  {
    if |ext| == 0 {
      NoStall(rows, cols, empty, ext, full);
    } else {
      AllCellsCard(rows, cols);
      SubsetCardEq(full.Keys, AllCells(rows, cols));
    }
    AllFull(rows, cols, masks, empty, ext, full);
  }

  /** Once every cell is full, the other two dictionaries are empty and the full one holds every mask. */
  lemma AllFull(rows: int, cols: int, masks: map<Cell, int>, empty: map<Cell, int>, ext: map<Cell, int>, full: map<Cell, int>)
    requires Partitioned(rows, cols, empty, ext, full) && ValuesCurrent(masks, empty, ext, full)
    requires full.Keys == AllCells(rows, cols) && masks.Keys == AllCells(rows, cols)
    ensures empty == map[] && ext == map[] && full == masks
  {
    assert empty.Keys == {} && ext.Keys == {};
  }

  /** The board array holds the mask of every cell. */
  ghost predicate Mirrors(board: array2<int>, masks: map<Cell, int>)
    reads board
  {
    forall x, y :: 0 <= x < board.Length0 && 0 <= y < board.Length1 ==>
      (x, y) in masks && board[x, y] == masks[(x, y)]
  }

  /**
   * The += on one board entry: the entry of cell c grows by v, and the
   * board goes on mirroring the masks with c's mask grown by v.
   */
  method AddToCell(board: array2<int>, ghost masks: map<Cell, int>, c: Cell, v: int)
    modifies board
    requires Mirrors(board, masks) && 0 <= c.0 < board.Length0 && 0 <= c.1 < board.Length1
    ensures c in masks && board[c.0, c.1] == masks[c] + v
    ensures Mirrors(board, masks[c := masks[c] + v])
  {
    label Before:
    board[c.0, c.1] := board[c.0, c.1] + v;
    forall x, y | 0 <= x < board.Length0 && 0 <= y < board.Length1
      ensures (x, y) in masks[c := masks[c] + v] && board[x, y] == masks[c := masks[c] + v][(x, y)]
    {
      assert (x, y) in masks && old@Before(board[x, y]) == masks[(x, y)];
    }
  }

  /**
   * Linking a to its empty neighbour b adds b to the tree as a child of a;
   * the visited cells are the non-empty ones before and after.
   */
  lemma LinkTreeStep(rows: int, cols: int, masks: map<Cell, int>, empty: map<Cell, int>,
                     parent: map<Cell, Dir>, depth: map<Cell, nat>, a: Cell, b: Cell, d: Dir)
    requires RootedTree(rows, cols, masks, AllCells(rows, cols) - empty.Keys, parent, depth)
    requires InGrid(rows, cols, a) && a !in empty && b in empty && b == Step(rows, cols, a, d)
    ensures RootedTree(rows, cols, masks[a := masks[a] + d][b := masks[b] + Opposite(d)],
                       AllCells(rows, cols) - (empty - {b}).Keys, parent[b := Opposite(d)], depth[b := depth[a] + 1])
  {
    var visited := AllCells(rows, cols) - empty.Keys;
    VisitedGrows(AllCells(rows, cols), empty, b);
    LinkGrows(rows, cols, masks, visited, AllCells(rows, cols) - (empty - {b}).Keys, parent, depth, a, d);
  }

  /** Taking b out of the empty dictionary adds b to the cells outside it. */
  lemma VisitedGrows(cells: set<Cell>, empty: map<Cell, int>, b: Cell)
    requires b in cells && b in empty
    ensures cells - (empty - {b}).Keys == (cells - empty.Keys) + {b}
  {
    assert (empty - {b}).Keys == empty.Keys - {b};
  }

  /**
   * The filing part of a connection pass, once a and b are linked and b has
   * left the empty dictionary: a becomes full if it has no empty neighbour,
   * b is filed as full or extendable with value valueB, and b's neighbours
   * that have no empty neighbour left become full. Before the pass every
   * extendable cell had an empty neighbour, b still counted as empty; the
   * filing restores that with b gone, so afterwards the extendable cells are
   * exactly the non-empty cells with an empty neighbour (DictsDetermined).
   * The dictionaries' invariant holds for the state in which b is filed as
   * extendable; it holds afterwards, full cells stay full with the same
   * value, and the only cell that can have joined the extendable dictionary
   * is b.
   */
  method Refile(rows: int, cols: int, a: Cell, b: Cell, empty: map<Cell, int>, ext: map<Cell, int>,
                full: map<Cell, int>, valueB: int, ghost masks: map<Cell, int>)
    returns (extendableTiles: map<Cell, int>, fullTiles: map<Cell, int>)
    requires DictInv(rows, cols, masks, empty, ext[b := valueB], full)
    requires a in ext && b !in ext
    requires FrontierOpen(rows, cols, empty[b := 0], ext)
    ensures DictInv(rows, cols, masks, empty, extendableTiles, fullTiles)
    ensures FrontierOpen(rows, cols, empty, extendableTiles)
    ensures extendableTiles.Keys <= ext.Keys + {b}
    ensures forall c :: c in full ==> c in fullTiles && fullTiles[c] == full[c]
  {
    var extA, fullA := FileLinked(rows, cols, a, b, empty, ext, full, valueB, masks);
    var extB, fullB := FileNewcomer(rows, cols, b, empty, extA, fullA, valueB, masks);
    extendableTiles, fullTiles := SettleNeighbors(rows, cols, b, empty, extB, fullB);
    SettleStep(rows, cols, masks, empty, extB, fullB, b, extendableTiles, fullTiles);
    forall c | c in extendableTiles ensures !Enclosed(rows, cols, c, empty) {
      if c != a && c != b {
        StaysOpen(rows, cols, b, empty, c);
      }
    }
  }

  /**
   * A cell that had an empty neighbour while b was still empty, and that
   * the settling of b's neighbours left in place, still has one.
   */
  lemma StaysOpen(rows: int, cols: int, b: Cell, empty: map<Cell, int>, c: Cell)
    requires rows >= 1 && cols >= 1 && InGrid(rows, cols, b) && InGrid(rows, cols, c)
    requires !Enclosed(rows, cols, c, empty[b := 0]) && !Settles(rows, cols, b, empty, c)
    ensures !Enclosed(rows, cols, c, empty)
  {
    var d: Dir :| Step(rows, cols, c, d) in empty[b := 0];
    if Step(rows, cols, c, d) == b {
      StepSymmetric(rows, cols, c, d);
      assert c == Step(rows, cols, b, Opposite(d));
    }
  }

  /**
   * The check on a after the link: a moves from the extendable to the full
   * dictionary, with its value, exactly when none of its neighbours is
   * empty any more; otherwise nothing changes.
   */
  method FileLinked(rows: int, cols: int, a: Cell, b: Cell, empty: map<Cell, int>, ext: map<Cell, int>,
                    full: map<Cell, int>, valueB: int, ghost masks: map<Cell, int>)
    returns (extendableTiles: map<Cell, int>, fullTiles: map<Cell, int>)
    requires DictInv(rows, cols, masks, empty, ext[b := valueB], full)
    requires a in ext && b !in ext
    ensures extendableTiles == if Enclosed(rows, cols, a, empty) then ext - {a} else ext
    ensures fullTiles == if Enclosed(rows, cols, a, empty) then full[a := ext[a]] else full
    ensures DictInv(rows, cols, masks, empty, extendableTiles[b := valueB], fullTiles)
  {
    extendableTiles, fullTiles := ext, full;
    NoCandidateIff(rows, cols, a, empty);
    if |EmptyNeighbors(rows, cols, a, empty)| == 0 {
      MoveToFull(rows, cols, masks, empty, ext[b := valueB], full, a);
      fullTiles := full[a := ext[a]];
      extendableTiles := ext - {a};
      assert extendableTiles[b := valueB] == ext[b := valueB] - {a};
    }
  }

  /**
   * The check on b after the link: b is filed as full, with value valueB,
   * exactly when none of its neighbours is empty, and as extendable with
   * value valueB otherwise.
   */
  method FileNewcomer(rows: int, cols: int, b: Cell, empty: map<Cell, int>, ext: map<Cell, int>,
                      full: map<Cell, int>, valueB: int, ghost masks: map<Cell, int>)
    returns (extendableTiles: map<Cell, int>, fullTiles: map<Cell, int>)
    requires DictInv(rows, cols, masks, empty, ext[b := valueB], full) && b !in ext
    ensures extendableTiles == if Enclosed(rows, cols, b, empty) then ext else ext[b := valueB]
    ensures fullTiles == if Enclosed(rows, cols, b, empty) then full[b := valueB] else full
    ensures DictInv(rows, cols, masks, empty, extendableTiles, fullTiles)
  {
    NoCandidateIff(rows, cols, b, empty);
    if |EmptyNeighbors(rows, cols, b, empty)| == 0 {
      MoveToFull(rows, cols, masks, empty, ext[b := valueB], full, b);
      extendableTiles, fullTiles := ext, full[b := valueB];
      assert extendableTiles == ext[b := valueB] - {b};
    } else {
      extendableTiles, fullTiles := ext[b := valueB], full;
    }
  }

  /**
   * The linking step of a connection pass, on the board and the
   * dictionaries: a's board entry gains the bit towards b and a's stored
   * value is refreshed, b leaves the empty dictionary and its board entry
   * gains the bit back towards a; valueB is b's new entry.
   */
  method LinkCells(board: array2<int>, a: Cell, b: Cell, dirAToB: Dir,
                   empty: map<Cell, int>, ext: map<Cell, int>, ghost masks: map<Cell, int>)
    returns (emptyTiles: map<Cell, int>, extendableTiles: map<Cell, int>, valueB: int)
    modifies board
    requires Mirrors(board, masks) && a != b
    requires 0 <= a.0 < board.Length0 && 0 <= a.1 < board.Length1
    requires 0 <= b.0 < board.Length0 && 0 <= b.1 < board.Length1
    ensures a in masks && b in masks
    ensures Mirrors(board, masks[a := masks[a] + dirAToB][b := masks[b] + Opposite(dirAToB)])
    ensures emptyTiles == empty - {b} && extendableTiles == ext[a := masks[a] + dirAToB]
    ensures valueB == masks[b] + Opposite(dirAToB)
  {
    var dirBToA := Opposite(dirAToB);
    AddToCell(board, masks, a, dirAToB);
    extendableTiles := ext[a := board[a.0, a.1]];

    emptyTiles := empty - {b};
    AddToCell(board, masks[a := masks[a] + dirAToB], b, dirBToA);
    valueB := board[b.0, b.1];
  }

  /**
   * The connection part of a pass: LinkCells, then Refile. The board and
   * the dictionaries keep their invariant, every extendable cell still has
   * an empty neighbour (so DictsDetermined fixes which cells are extendable
   * and which are full), and the tree gains b as a child of a; full cells
   * stay full with the same value; and 2 * |empty| + |extendable| goes down.
   */
  method Connect(rows: int, cols: int, board: array2<int>, a: Cell, b: Cell, dirAToB: Dir,
                 empty: map<Cell, int>, ext: map<Cell, int>, full: map<Cell, int>,
                 ghost masks: map<Cell, int>, ghost parent: map<Cell, Dir>, ghost depth: map<Cell, nat>)
    returns (emptyTiles: map<Cell, int>, extendableTiles: map<Cell, int>, fullTiles: map<Cell, int>,
             ghost masks': map<Cell, int>, ghost parent': map<Cell, Dir>, ghost depth': map<Cell, nat>)
    modifies board
    requires board.Length0 == rows && board.Length1 == cols && Mirrors(board, masks)
    requires DictInv(rows, cols, masks, empty, ext, full)
    requires RootedTree(rows, cols, masks, AllCells(rows, cols) - empty.Keys, parent, depth)
    requires a in ext && b in empty && b == Step(rows, cols, a, dirAToB)
    requires FrontierOpen(rows, cols, empty, ext)
    ensures Mirrors(board, masks')
    ensures DictInv(rows, cols, masks', emptyTiles, extendableTiles, fullTiles)
    ensures FrontierOpen(rows, cols, emptyTiles, extendableTiles)
    ensures RootedTree(rows, cols, masks', AllCells(rows, cols) - emptyTiles.Keys, parent', depth')
    ensures parent' == parent[b := Opposite(dirAToB)] && depth' == depth[b := depth[a] + 1]
    ensures forall c :: c in full ==> c in fullTiles && fullTiles[c] == full[c] && masks'[c] == masks[c]
    ensures 2 * |emptyTiles| + |extendableTiles| < 2 * |empty| + |ext|
  {
    LinkTreeStep(rows, cols, masks, empty, parent, depth, a, b, dirAToB);
    LinkDicts(rows, cols, masks, empty, ext, full, a, b, dirAToB);
    masks' := masks[a := masks[a] + dirAToB][b := masks[b] + Opposite(dirAToB)];
    parent' := parent[b := Opposite(dirAToB)];
    depth' := depth[b := depth[a] + 1];
    var valueB;
    emptyTiles, extendableTiles, valueB := LinkCells(board, a, b, dirAToB, empty, ext, masks);
    FrontierRelinked(rows, cols, empty, ext, a, masks[a] + dirAToB, b);
    extendableTiles, fullTiles := Refile(rows, cols, a, b, emptyTiles, extendableTiles, full, valueB, masks');
    ConnectShrinks(empty, ext, emptyTiles, extendableTiles, b);
  }

  /**
   * The starting state: an all-zero board, every cell but the origin empty,
   * the origin extendable, nothing full; the tree is the origin alone.
   */
  method InitBoard(rows: int, cols: int)
    returns (board: array2<int>, emptyTiles: map<Cell, int>, extendableTiles: map<Cell, int>,
             fullTiles: map<Cell, int>,
             ghost masks: map<Cell, int>, ghost parent: map<Cell, Dir>, ghost depth: map<Cell, nat>)
    requires rows >= 1 && cols >= 1
    ensures fresh(board) && board.Length0 == rows && board.Length1 == cols
    ensures forall x, y :: 0 <= x < rows && 0 <= y < cols ==> board[x, y] == 0
    ensures forall c :: c in emptyTiles <==> InGrid(rows, cols, c) && c != Origin
    ensures extendableTiles == map[Origin := 0] && fullTiles == map[]
    ensures Mirrors(board, masks)
    ensures DictInv(rows, cols, masks, emptyTiles, extendableTiles, fullTiles)
    ensures RootedTree(rows, cols, masks, AllCells(rows, cols) - emptyTiles.Keys, parent, depth)
    ensures FrontierOpen(rows, cols, emptyTiles, extendableTiles) || (rows == 1 && cols == 1 && emptyTiles == map[])
  {
    board := new int[rows, cols]((x, y) => 0);
    emptyTiles := map c | c in AllCells(rows, cols) && c != Origin :: board[c.0, c.1];
    extendableTiles := map[Origin := board[0, 0]];
    fullTiles := map[];

    masks := map c | c in AllCells(rows, cols) :: 0;
    parent := map[];
    depth := map[Origin := 0];
    InitialTree(rows, cols, masks);
    assert AllCells(rows, cols) - emptyTiles.Keys == {Origin};
    if rows > 1 {
      assert Step(rows, cols, Origin, 1) in emptyTiles;
    } else if cols > 1 {
      assert Step(rows, cols, Origin, 2) in emptyTiles;
    } else {
      assert emptyTiles.Keys == {};
    }
  }

  /**
   * Builds a board. On return every cell is full and its stored value is
   * its mask, the empty and extendable dictionaries are empty, and the
   * masks form a spanning tree of the torus (see LinkTree for what that
   * means for the links). The ghost outputs are the masks as a map, and
   * the parent direction and depth of every cell in that tree.
   */
  method Generate(rows: int, cols: int)
    returns (board: array2<int>, emptyTiles: map<Cell, int>, extendableTiles: map<Cell, int>,
             fullTiles: map<Cell, int>,
             ghost masks: map<Cell, int>, ghost parent: map<Cell, Dir>, ghost depth: map<Cell, nat>)
    requires rows >= 1 && cols >= 1
    ensures board.Length0 == rows && board.Length1 == cols
    ensures masks.Keys == AllCells(rows, cols) && Mirrors(board, masks)
    ensures SpanningTree(rows, cols, masks, parent, depth)
    ensures emptyTiles == map[] && extendableTiles == map[]
    ensures fullTiles == masks
  {
    board, emptyTiles, extendableTiles, fullTiles, masks, parent, depth := InitBoard(rows, cols);
    while |fullTiles| < rows * cols
      invariant board.Length0 == rows && board.Length1 == cols && Mirrors(board, masks)
      invariant DictInv(rows, cols, masks, emptyTiles, extendableTiles, fullTiles)
      invariant RootedTree(rows, cols, masks, AllCells(rows, cols) - emptyTiles.Keys, parent, depth)
      invariant FrontierOpen(rows, cols, emptyTiles, extendableTiles) || (rows == 1 && cols == 1 && emptyTiles == map[])
      decreases 2 * |emptyTiles| + |extendableTiles|
    {
      if |extendableTiles| == 0 {
        // The failsafe: with no extendable cell left every cell is already full.
        NoStall(rows, cols, emptyTiles, extendableTiles, fullTiles);
        AllCellsCard(rows, cols);
        assert false;
        break;
      }

      var a :| a in extendableTiles;
      var candidates := EmptyNeighbors(rows, cols, a, emptyTiles);
      if |candidates| == 0 {
        NoCandidateIff(rows, cols, a, emptyTiles);
        // Every extendable cell has an empty neighbour except on a 1 x 1 board.
        assert rows == 1 && cols == 1;
        MoveToFull(rows, cols, masks, emptyTiles, extendableTiles, fullTiles, a);
        RemoveShrinks(extendableTiles, a);
        fullTiles := fullTiles[a := extendableTiles[a]];
        extendableTiles := extendableTiles - {a};
        continue;
      }

      var k :| 0 <= k < |candidates|;
      var (b, dirAToB) := candidates[k];
      CandidateIsStep(rows, cols, a, emptyTiles, candidates[k]);
      emptyTiles, extendableTiles, fullTiles, masks, parent, depth :=
        Connect(rows, cols, board, a, b, dirAToB, emptyTiles, extendableTiles, fullTiles, masks, parent, depth);
    }

    Finished(rows, cols, masks, emptyTiles, extendableTiles, fullTiles, parent, depth);
  }
}
