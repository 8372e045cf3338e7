/**
 * The links on a Net board seen as a tree.
 *
 * While the board grows, every visited cell except the origin remembers the
 * direction of the link through which it was reached (its parent) and its
 * depth below the origin. RootedTree says that the masks on the board are
 * exactly these parent links; SpanningTree is the same with every cell
 * visited. The lemmas here show what that means for the board itself.
 */
module LinkTree {
  import opened Torus
  import opened ConnectionMask

  /**
   * Cell c has a link in direction d: d leads from c to its parent, or the
   * neighbour in direction d is a child of c.
   */
  predicate ParentLink(rows: int, cols: int, parent: map<Cell, Dir>, c: Cell, d: Dir)
  {
    (c in parent && parent[c] == d) ||
    (Step(rows, cols, c, d) in parent && parent[Step(rows, cols, c, d)] == Opposite(d))
  }

  /** The parent of a cell that has one. */
  function ParentOf(rows: int, cols: int, parent: map<Cell, Dir>, c: Cell): Cell
    requires c in parent
  {
    Step(rows, cols, c, parent[c])
  }

  /**
   * The visited cells form a tree rooted at the origin: each visited cell
   * other than the origin has a visited parent of smaller depth.
   */
  ghost predicate TreeShape(rows: int, cols: int, visited: set<Cell>, parent: map<Cell, Dir>, depth: map<Cell, nat>)
  {
    && rows >= 1 && cols >= 1
    && visited <= AllCells(rows, cols) && Origin in visited
    && depth.Keys == visited
    && parent.Keys == visited - {Origin}
    && (forall c :: c in parent ==>
          ParentOf(rows, cols, parent, c) in visited && depth[ParentOf(rows, cols, parent, c)] < depth[c])
  }

  /**
   * Every cell has a mask in 0..15, and a mask has bit d set exactly when
   * there is a parent link in direction d.
   */
  ghost predicate MasksAreLinks(rows: int, cols: int, masks: map<Cell, int>, parent: map<Cell, Dir>)
  {
    && masks.Keys == AllCells(rows, cols)
    && (forall c :: c in masks ==> IsMask(masks[c]))
    && (forall c, d: Dir :: c in masks ==> (HasBit(masks[c], d) <==> ParentLink(rows, cols, parent, c, d)))
  }

  /** The masks on the board are exactly the links of a tree of the visited cells, rooted at the origin. */
  ghost predicate RootedTree(rows: int, cols: int, masks: map<Cell, int>, visited: set<Cell>,
                             parent: map<Cell, Dir>, depth: map<Cell, nat>)
  {
    TreeShape(rows, cols, visited, parent, depth) && MasksAreLinks(rows, cols, masks, parent)
  }

  /** Every cell visited: the links span the whole board. */
  ghost predicate SpanningTree(rows: int, cols: int, masks: map<Cell, int>,
                               parent: map<Cell, Dir>, depth: map<Cell, nat>)
  {
    RootedTree(rows, cols, masks, AllCells(rows, cols), parent, depth)
  }

  /** The starting board: all masks zero and only the origin visited. */
  lemma InitialTree(rows: int, cols: int, masks: map<Cell, int>)
    requires rows >= 1 && cols >= 1
    requires masks.Keys == AllCells(rows, cols) && forall c :: c in masks ==> masks[c] == 0
    ensures RootedTree(rows, cols, masks, {Origin}, map[], map[Origin := 0])
  {
  }

  /** A cell that has not been visited has no link, so its mask is 0. */
  lemma UnvisitedIsZero(rows: int, cols: int, masks: map<Cell, int>, visited: set<Cell>,
                        parent: map<Cell, Dir>, depth: map<Cell, nat>, c: Cell)
    requires RootedTree(rows, cols, masks, visited, parent, depth)
    requires c in AllCells(rows, cols) - visited
    ensures masks[c] == 0
  {
    forall d: Dir ensures !HasBit(masks[c], d) {
      StepSymmetric(rows, cols, c, d);
    }
    ZeroMask(masks[c]);
  }

  /**
   * Links are mutual: c has bit d set exactly when its neighbour in
   * direction d has bit Opposite(d) set.
   */
  lemma LinksMutual(rows: int, cols: int, masks: map<Cell, int>, visited: set<Cell>,
                    parent: map<Cell, Dir>, depth: map<Cell, nat>, c: Cell, d: Dir)
    requires RootedTree(rows, cols, masks, visited, parent, depth)
    requires c in AllCells(rows, cols)
    ensures HasBit(masks[c], d) <==> HasBit(masks[Step(rows, cols, c, d)], Opposite(d))
  {
    StepSymmetric(rows, cols, c, d);
    OppositeInvolution(d);
  }

  /**
   * One connection step: a visited cell a is linked in direction d to its
   * unvisited neighbour b. Before the step bit d of a is clear and b's mask
   * is 0, so the additions set single new bits; afterwards the masks are
   * still exactly the parent links, with b a new child of a. No other
   * cell's mask changes.
   */
  lemma LinkGrows(rows: int, cols: int, masks: map<Cell, int>, visited: set<Cell>, visited': set<Cell>,
                  parent: map<Cell, Dir>, depth: map<Cell, nat>, a: Cell, d: Dir)
    requires RootedTree(rows, cols, masks, visited, parent, depth)
    requires a in visited && Step(rows, cols, a, d) in AllCells(rows, cols) - visited
    requires visited' == visited + {Step(rows, cols, a, d)}
    ensures !HasBit(masks[a], d) && masks[Step(rows, cols, a, d)] == 0
    ensures var b := Step(rows, cols, a, d);
      RootedTree(rows, cols, masks[a := masks[a] + d][b := masks[b] + Opposite(d)], visited',
                 parent[b := Opposite(d)], depth[b := depth[a] + 1])
  {
    var b := Step(rows, cols, a, d);
    StepSymmetric(rows, cols, a, d);
    UnvisitedIsZero(rows, cols, masks, visited, parent, depth, b);
    assert b != a && b !in parent;
    ShapeGrows(rows, cols, visited, visited', parent, depth, a, b, d);
    LinksGrow(rows, cols, masks, parent, a, b, d);
  }

  /** The tree part of LinkGrows: b joins the visited cells as a child of a, one level deeper. */
  lemma ShapeGrows(rows: int, cols: int, visited: set<Cell>, visited': set<Cell>,
                   parent: map<Cell, Dir>, depth: map<Cell, nat>, a: Cell, b: Cell, d: Dir)
    requires TreeShape(rows, cols, visited, parent, depth)
    requires a in visited && b in AllCells(rows, cols) - visited && b == Step(rows, cols, a, d)
    requires visited' == visited + {b}
    ensures TreeShape(rows, cols, visited', parent[b := Opposite(d)], depth[b := depth[a] + 1])
  {
    StepSymmetric(rows, cols, a, d);
    assert ParentOf(rows, cols, parent[b := Opposite(d)], b) == a;
  }

  /** The mask part of LinkGrows: after the two additions the masks are the links of the grown tree. */
  lemma LinksGrow(rows: int, cols: int, masks: map<Cell, int>, parent: map<Cell, Dir>, a: Cell, b: Cell, d: Dir)
    requires rows >= 1 && cols >= 1 && InGrid(rows, cols, a) && MasksAreLinks(rows, cols, masks, parent)
    requires b == Step(rows, cols, a, d) && b != a && b !in parent
    requires !HasBit(masks[a], d) && masks[b] == 0
    ensures MasksAreLinks(rows, cols, masks[a := masks[a] + d][b := masks[b] + Opposite(d)], parent[b := Opposite(d)])
  {
    StepSymmetric(rows, cols, a, d);
    AddBit(masks[a], d);
    var masks' := masks[a := masks[a] + d][b := masks[b] + Opposite(d)];
    var parent' := parent[b := Opposite(d)];
    forall c, e: Dir | c in masks'
      ensures HasBit(masks'[c], e) <==> ParentLink(rows, cols, parent', c, e)
    {
      assert HasBit(masks[c], e) <==> ParentLink(rows, cols, parent, c, e);
      LinkBitsAt(rows, cols, masks, parent, a, d, c, e);
    }
  }

  /** The bit-by-bit part of LinkGrows, for one cell c and one direction e. */
  lemma LinkBitsAt(rows: int, cols: int, masks: map<Cell, int>, parent: map<Cell, Dir>,
                   a: Cell, d: Dir, c: Cell, e: Dir)
    requires rows >= 1 && cols >= 1 && InGrid(rows, cols, a) && InGrid(rows, cols, c)
    requires a in masks && c in masks && Step(rows, cols, a, d) in masks
    requires Step(rows, cols, a, d) != a && Step(rows, cols, a, d) !in parent
    requires IsMask(masks[a]) && !HasBit(masks[a], d) && masks[Step(rows, cols, a, d)] == 0
    requires HasBit(masks[c], e) <==> ParentLink(rows, cols, parent, c, e)
    ensures var b := Step(rows, cols, a, d);
      var masks' := masks[a := masks[a] + d][b := masks[b] + Opposite(d)];
      HasBit(masks'[c], e) <==> ParentLink(rows, cols, parent[b := Opposite(d)], c, e)
  {
    var b := Step(rows, cols, a, d);
    var od := Opposite(d);
    var parent' := parent[b := od];
    StepSymmetric(rows, cols, a, d);
    OppositeInvolution(d);
    OppositeInvolution(e);
    StepSymmetric(rows, cols, c, e);
    AddBit(masks[a], d);
    var n := Step(rows, cols, c, e);
    if c == b {
      SingleBit(od, e);
      assert e != od ==> !(n in parent' && parent'[n] == Opposite(e));
    } else if c == a {
      if e != d && n == b {
        assert parent'[n] != Opposite(e);
      }
    } else {
      if n == b {
        assert parent'[n] != Opposite(e);
      }
    }
  }

  /** The cells that carry a link in a forward direction (1 or 2); each link has exactly one such end. */
  const ForwardDirs: set<Dir> := {1, 2}

  /** The links of a board, each named by its end that holds bit 1 or bit 2. */
  function LinkSet(masks: map<Cell, int>): set<(Cell, Dir)>
  {
    set c, d | c in masks && d in ForwardDirs && HasBit(masks[c], d) :: (c, d)
  }

  /** The link between a child cell and its parent, named by its forward end. */
  function LinkOf(rows: int, cols: int, parent: map<Cell, Dir>, b: Cell): (Cell, Dir)
    requires b in parent
  {
    if parent[b] in ForwardDirs then (b, parent[b])
    else (ParentOf(rows, cols, parent, b), Opposite(parent[b]))
  }

  lemma LinkOfInjective(rows: int, cols: int, masks: map<Cell, int>, visited: set<Cell>,
                        parent: map<Cell, Dir>, depth: map<Cell, nat>, b1: Cell, b2: Cell)
    requires RootedTree(rows, cols, masks, visited, parent, depth)
    requires b1 in parent && b2 in parent
    requires LinkOf(rows, cols, parent, b1) == LinkOf(rows, cols, parent, b2)
    ensures b1 == b2
  {
    var p1, p2 := parent[b1], parent[b2];
    StepSymmetric(rows, cols, b1, p1);
    StepSymmetric(rows, cols, b2, p2);
    OppositeInvolution(p1);
    OppositeInvolution(p2);
    if p1 !in ForwardDirs && p2 !in ForwardDirs {
      assert Step(rows, cols, b1, p1) == Step(rows, cols, b2, p1);
    }
  }

  lemma {:induction false} LinkImageCard(rows: int, cols: int, masks: map<Cell, int>, visited: set<Cell>,
                                         parent: map<Cell, Dir>, depth: map<Cell, nat>, s: set<Cell>)
    requires RootedTree(rows, cols, masks, visited, parent, depth)
    requires s <= parent.Keys
    ensures |set b | b in s :: LinkOf(rows, cols, parent, b)| == |s|
  {
    var image := set b | b in s :: LinkOf(rows, cols, parent, b);
    if s == {} {
      assert image == {};
    } else {
      var b0 :| b0 in s;
      var rest := s - {b0};
      LinkImageCard(rows, cols, masks, visited, parent, depth, rest);
      var restImage := set b | b in rest :: LinkOf(rows, cols, parent, b);
      assert image == restImage + {LinkOf(rows, cols, parent, b0)};
      if LinkOf(rows, cols, parent, b0) in restImage {
        var b1 :| b1 in rest && LinkOf(rows, cols, parent, b1) == LinkOf(rows, cols, parent, b0);
        LinkOfInjective(rows, cols, masks, visited, parent, depth, b0, b1);
        assert false;
      }
    }
  }

  /** The board's links are exactly the parent links, one per child. */
  lemma LinkSetIsParentLinks(rows: int, cols: int, masks: map<Cell, int>, visited: set<Cell>,
                             parent: map<Cell, Dir>, depth: map<Cell, nat>)
    requires RootedTree(rows, cols, masks, visited, parent, depth)
    ensures LinkSet(masks) == set b | b in parent :: LinkOf(rows, cols, parent, b)
  {
    var image := set b | b in parent :: LinkOf(rows, cols, parent, b);
    forall l | l in LinkSet(masks) ensures l in image {
      var (c, d) := l;
      OppositeInvolution(d);
      StepSymmetric(rows, cols, c, d);
      if c in parent && parent[c] == d {
        assert LinkOf(rows, cols, parent, c) == l;
      } else {
        var n := Step(rows, cols, c, d);
        assert n in parent && parent[n] == Opposite(d);
        assert LinkOf(rows, cols, parent, n) == l;
      }
    }
    forall b | b in parent ensures LinkOf(rows, cols, parent, b) in LinkSet(masks) {
      var p := parent[b];
      OppositeInvolution(p);
      StepSymmetric(rows, cols, b, p);
      if p !in ForwardDirs {
        assert ParentLink(rows, cols, parent, ParentOf(rows, cols, parent, b), Opposite(p));
      }
    }
  }

  /**
   * A spanning tree of the board has exactly rows * cols - 1 links, one for
   * every cell but the origin.
   */
  lemma LinkCount(rows: int, cols: int, masks: map<Cell, int>, parent: map<Cell, Dir>, depth: map<Cell, nat>)
    requires SpanningTree(rows, cols, masks, parent, depth)
    ensures |LinkSet(masks)| == rows * cols - 1
  {
    LinkSetIsParentLinks(rows, cols, masks, AllCells(rows, cols), parent, depth);
    LinkImageCard(rows, cols, masks, AllCells(rows, cols), parent, depth, parent.Keys);
    AllCellsCard(rows, cols);
    assert parent.Keys == AllCells(rows, cols) - {Origin};
  }

  /** a is linked to b: some direction bit set on a leads to b. */
  predicate Linked(rows: int, cols: int, masks: map<Cell, int>, a: Cell, b: Cell)
    requires a in masks
  {
    (HasBit(masks[a], 1) && Step(rows, cols, a, 1) == b) ||
    (HasBit(masks[a], 2) && Step(rows, cols, a, 2) == b) ||
    (HasBit(masks[a], 4) && Step(rows, cols, a, 4) == b) ||
    (HasBit(masks[a], 8) && Step(rows, cols, a, 8) == b)
  }

  /**
   * The path of links from a visited cell up to the origin: every visited
   * cell is connected to the origin through links on the board.
   */
  ghost function PathToOrigin(rows: int, cols: int, masks: map<Cell, int>, visited: set<Cell>,
                              parent: map<Cell, Dir>, depth: map<Cell, nat>, c: Cell): (path: seq<Cell>)
    requires RootedTree(rows, cols, masks, visited, parent, depth)
    requires c in visited
    ensures |path| >= 1 && path[0] == c && path[|path| - 1] == Origin
    ensures forall i :: 0 <= i < |path| ==> path[i] in visited
    ensures forall i :: 0 <= i < |path| - 1 ==> Linked(rows, cols, masks, path[i], path[i + 1])
    decreases depth[c]
  {
    if c == Origin then [c]
    else
      var up := ParentOf(rows, cols, parent, c);
      assert HasBit(masks[c], parent[c]);
      [c] + PathToOrigin(rows, cols, masks, visited, parent, depth, up)
  }

  /**
   * On a spanning tree of a board with more than one cell every mask is
   * nonzero: each cell other than the origin links to its parent, and the
   * origin links to the first step of any path that reaches it.
   */
  lemma NoBlankCell(rows: int, cols: int, masks: map<Cell, int>, parent: map<Cell, Dir>,
                    depth: map<Cell, nat>, c: Cell)
    requires SpanningTree(rows, cols, masks, parent, depth)
    requires rows * cols > 1 && c in AllCells(rows, cols)
    ensures masks[c] != 0
  {
    var visited := AllCells(rows, cols);
    if c != Origin {
      assert HasBit(masks[c], parent[c]);
    } else {
      var other: Cell := if rows > 1 then (1, 0) else (0, 1);
      var path := PathToOrigin(rows, cols, masks, visited, parent, depth, other);
      assert |path| >= 2;
      var k := |path| - 2;
      assert path[k + 1] == Origin;
      assert Linked(rows, cols, masks, path[k], Origin);
      var d: Dir :| HasBit(masks[path[k]], d) && Step(rows, cols, path[k], d) == Origin;
      LinksMutual(rows, cols, masks, visited, parent, depth, path[k], d);
    }
  }
}
