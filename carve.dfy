/**
 * The recursive backtracker as a function of its inputs: which cells it enters, in which order,
 * from where, and which tiles it turns into floor. The generator's in-place carve is proved to
 * follow it; what the carve promises (each cell once, only (1, 1) or interior cells and so, for a
 * width and height of at least 3, never the border; every cell reached, `2V - 1` floor tiles, a
 * connected floor) is proved here about the function.
 */
module Carving {
  import opened Levels
  import opened MazeGrid

  /**
   * What a carve has done so far: the cells entered, in order (the cells marked visited); for each,
   * the index of the cell it was entered from; and the tiles made floor, in order.
   */
  datatype Carve = Carve(order: seq<Pos>, parent: seq<nat>, carved: seq<Pos>)

  const Start := Carve([], [], [])

  /**
   * `carvePassage(p)` on a grid of `w` by `h`: enter `p` (mark it visited, make it floor), then try
   * the moves in the order `choose(p)` draws. `from` is the index of the cell `p` is entered from.
   */
  function CarveFrom(p: Pos, from: nat, st: Carve, choose: Pos -> Order, w: int, h: int): (r: Carve)
    requires 0 <= p.x < w && 0 <= p.y < h && p !in st.order
    ensures st.order + [p] <= r.order && st.carved + [p] <= r.carved
    decreases Unentered(st.order, w, h), 0, 0
  {
    var entered := Carve(st.order + [p], st.parent + [from], st.carved + [p]);
    UnenteredShrinks(st.order, entered.order, w, h, p);
    CarveDirs(p, |st.order|, choose(p), 0, entered, choose, w, h)
  }

  /** The move loop of `carvePassage(p)` from move `i` on. */
  function CarveDirs(p: Pos, me: nat, dirs: Order, i: nat, st: Carve, choose: Pos -> Order, w: int, h: int)
    : (r: Carve)
    requires i <= 4
    ensures st.order <= r.order && st.carved <= r.carved
    decreases Unentered(st.order, w, h), 1, 4 - i
  {
    if i == 4 then st
    else
      var next := TryMove(p, me, dirs[i], st, choose, w, h);
      UnenteredMono(st.order, next.order, w, h);
      CarveDirs(p, me, dirs, i + 1, next, choose, w, h)
  }

  /**
   * One pass of the move loop: when the target of move `s` is inside and not yet entered, make the
   * tile `p + d / 2` floor and carve on from the target; otherwise do nothing.
   */
  function TryMove(p: Pos, me: nat, s: Step, st: Carve, choose: Pos -> Order, w: int, h: int): (r: Carve)
    ensures st.order <= r.order && st.carved <= r.carved
    decreases Unentered(st.order, w, h), 0, 1
  {
    var n := Shift(p, s);
    if 0 < n.x < w - 1 && 0 < n.y < h - 1 && n !in st.order then
      CarveFrom(n, me, Carve(st.order, st.parent, st.carved + [Between(p, s)]), choose, w, h)
    else st
  }

  /** The two outcomes of one pass: the target is entered, or nothing changes. */
  lemma TryMoveEnters(p: Pos, me: nat, s: Step, st: Carve, choose: Pos -> Order, w: int, h: int)
    requires Inside(Shift(p, s), w, h) && Shift(p, s) !in st.order
    ensures TryMove(p, me, s, st, choose, w, h) ==
            CarveFrom(Shift(p, s), me, Carve(st.order, st.parent, st.carved + [Between(p, s)]), choose, w, h)
  {
  }

  lemma TryMoveSkips(p: Pos, me: nat, s: Step, st: Carve, choose: Pos -> Order, w: int, h: int)
    requires !Inside(Shift(p, s), w, h) || Shift(p, s) in st.order
    ensures TryMove(p, me, s, st, choose, w, h) == st
  {
  }

  /** The whole carve, from (1, 1) on an untouched grid. */
  function Backtrack(choose: Pos -> Order, w: int, h: int): (r: Carve)
    requires w >= 2 && h >= 2
    ensures |r.order| > 0 && r.order[0] == Root
  {
    CarveFrom(Root, 0, Start, choose, w, h)
  }

  // ---------------------------------------------------------------------------------------------
  // The shape of the carve, one property at a time; each is proved for `CarveFrom` and `CarveDirs`
  // together, by induction along the recursion.

  /**
   * Entering `p` and the moves after it add one more floor tile than cells, and every cell entered
   * from here on has each inside move leading to an entered cell.
   */
  lemma {:induction false} FromCountClosed(p: Pos, from: nat, st: Carve, choose: Pos -> Order, w: int, h: int)
    requires 0 <= p.x < w && 0 <= p.y < h && p !in st.order
    ensures var r := CarveFrom(p, from, st, choose, w, h);
            && |r.carved| - |st.carved| == 2 * (|r.order| - |st.order|) - 1
            && ClosedFrom(r.order, |st.order|, w, h)
    decreases Unentered(st.order, w, h), 0, 0
  {
    var entered := Carve(st.order + [p], st.parent + [from], st.carved + [p]);
    var me := |st.order|;
    UnenteredShrinks(st.order, entered.order, w, h, p);
    var dirs := choose(p);
    DirsCountClosed(p, me, dirs, 0, entered, choose, w, h);
    var r := CarveDirs(p, me, dirs, 0, entered, choose, w, h);
    assert r == CarveFrom(p, from, st, choose, w, h);
    assert r.order[me] == p;
    forall k, s: Step | me <= k < |r.order| && Inside(Shift(r.order[k], s), w, h)
      ensures Shift(r.order[k], s) in r.order
    {
      if k == me {
        assert s in dirs;
        var j :| 0 <= j < 4 && dirs[j] == s;
      }
    }
  }

  lemma {:induction false} DirsCountClosed(p: Pos, me: nat, dirs: Order, i: nat, st: Carve, choose: Pos -> Order,
                                           w: int, h: int)
    requires i <= 4 && me < |st.order| && st.order[me] == p
    requires forall j :: 0 <= j < i && Inside(Shift(p, dirs[j]), w, h) ==> Shift(p, dirs[j]) in st.order
    ensures var r := CarveDirs(p, me, dirs, i, st, choose, w, h);
            && |r.carved| - |st.carved| == 2 * (|r.order| - |st.order|)
            && ClosedFrom(r.order, |st.order|, w, h)
            && (forall j :: 0 <= j < 4 && Inside(Shift(p, dirs[j]), w, h) ==> Shift(p, dirs[j]) in r.order)
    decreases Unentered(st.order, w, h), 1, 4 - i
  {
    if i < 4 {
      var n := Shift(p, dirs[i]);
      var knocked := Carve(st.order, st.parent, st.carved + [Between(p, dirs[i])]);
      var next := TryMove(p, me, dirs[i], st, choose, w, h);
      if Inside(n, w, h) && n !in st.order {
        FromCountClosed(n, me, knocked, choose, w, h);
        assert next.order[|st.order|] == n;
      }
      PrefixKeeps(st.order, next.order);
      forall j | 0 <= j < i + 1 && Inside(Shift(p, dirs[j]), w, h)
        ensures Shift(p, dirs[j]) in next.order
      {
        if j < i {
          assert Shift(p, dirs[j]) in st.order;
        }
      }
      assert next.order[me] == p;
      UnenteredMono(st.order, next.order, w, h);
      DirsCountClosed(p, me, dirs, i + 1, next, choose, w, h);
      var r := CarveDirs(p, me, dirs, i + 1, next, choose, w, h);
      ClosedFromGrows(next.order, r.order, |st.order|, w, h);
    }
  }

  /** Cells are entered once each, and each is an odd/odd cell at the root or inside. */
  lemma {:induction false} FromCells(p: Pos, from: nat, st: Carve, choose: Pos -> Order, w: int, h: int)
    requires 0 <= p.x < w && 0 <= p.y < h && p !in st.order
    requires IsCell(p) && (p == Root || Inside(p, w, h)) && EnteredCells(st.order, w, h)
    ensures EnteredCells(CarveFrom(p, from, st, choose, w, h).order, w, h)
    decreases Unentered(st.order, w, h), 0, 0
  {
    var entered := Carve(st.order + [p], st.parent + [from], st.carved + [p]);
    EnterCells(st.order, w, h, p);
    UnenteredShrinks(st.order, entered.order, w, h, p);
    DirsCells(p, |st.order|, choose(p), 0, entered, choose, w, h);
  }

  lemma {:induction false} DirsCells(p: Pos, me: nat, dirs: Order, i: nat, st: Carve, choose: Pos -> Order,
                                     w: int, h: int)
    requires i <= 4 && IsCell(p) && EnteredCells(st.order, w, h)
    ensures EnteredCells(CarveDirs(p, me, dirs, i, st, choose, w, h).order, w, h)
    decreases Unentered(st.order, w, h), 1, 4 - i
  {
    if i < 4 {
      var n := Shift(p, dirs[i]);
      ShiftFacts(p, dirs[i]);
      var knocked := Carve(st.order, st.parent, st.carved + [Between(p, dirs[i])]);
      var next := TryMove(p, me, dirs[i], st, choose, w, h);
      if Inside(n, w, h) && n !in st.order {
        FromCells(n, me, knocked, choose, w, h);
      }
      UnenteredMono(st.order, next.order, w, h);
      DirsCells(p, me, dirs, i + 1, next, choose, w, h);
    }
  }

  /**
   * Tiles are carved only at the root (1, 1) or strictly inside; so for a width and height of at
   * least 3, never on column 0 or `w - 1`, row 0 or `h - 1`.
   */
  lemma {:induction false} FromWithin(p: Pos, from: nat, st: Carve, choose: Pos -> Order, w: int, h: int)
    requires 0 <= p.x < w && 0 <= p.y < h && p !in st.order
    requires (p == Root || Inside(p, w, h)) && CarvedWithin(st.carved, w, h)
    ensures CarvedWithin(CarveFrom(p, from, st, choose, w, h).carved, w, h)
    decreases Unentered(st.order, w, h), 0, 0
  {
    var entered := Carve(st.order + [p], st.parent + [from], st.carved + [p]);
    UnenteredShrinks(st.order, entered.order, w, h, p);
    DirsWithin(p, |st.order|, choose(p), 0, entered, choose, w, h);
  }

  lemma {:induction false} DirsWithin(p: Pos, me: nat, dirs: Order, i: nat, st: Carve, choose: Pos -> Order,
                                      w: int, h: int)
    requires i <= 4 && (p == Root || Inside(p, w, h)) && CarvedWithin(st.carved, w, h)
    ensures CarvedWithin(CarveDirs(p, me, dirs, i, st, choose, w, h).carved, w, h)
    decreases Unentered(st.order, w, h), 1, 4 - i
  {
    if i < 4 {
      MoveWithin(p, me, dirs[i], st, choose, w, h);
      var next := TryMove(p, me, dirs[i], st, choose, w, h);
      UnenteredMono(st.order, next.order, w, h);
      DirsWithin(p, me, dirs, i + 1, next, choose, w, h);
    }
  }

  lemma {:induction false} MoveWithin(p: Pos, me: nat, s: Step, st: Carve, choose: Pos -> Order, w: int, h: int)
    requires (p == Root || Inside(p, w, h)) && CarvedWithin(st.carved, w, h)
    ensures CarvedWithin(TryMove(p, me, s, st, choose, w, h).carved, w, h)
    decreases Unentered(st.order, w, h), 0, 1
  {
    var n := Shift(p, s);
    if Inside(n, w, h) && n !in st.order {
      ShiftFacts(p, s);
      MidWithin(p, n, w, h);
      var knocked := Carve(st.order, st.parent, st.carved + [Between(p, s)]);
      TryMoveEnters(p, me, s, st, choose, w, h);
      FromWithin(n, me, knocked, choose, w, h);
    } else {
      TryMoveSkips(p, me, s, st, choose, w, h);
    }
  }

  /** Every cell after the first is linked to the cell it was entered from through a carved tile. */
  lemma {:induction false} FromTree(p: Pos, from: nat, st: Carve, choose: Pos -> Order, w: int, h: int)
    requires 0 <= p.x < w && 0 <= p.y < h && p !in st.order
    requires TreeLinks(st.order, st.parent, st.carved) && (|st.order| > 0 ==> st.order[0] == Root)
    requires |st.order| == 0 ==> p == Root
    requires |st.order| > 0 ==>
               from < |st.order| && StepBetween(st.order[from], p) && Mid(st.order[from], p) in st.carved
    ensures var r := CarveFrom(p, from, st, choose, w, h);
            TreeLinks(r.order, r.parent, r.carved) && r.order[0] == Root
    decreases Unentered(st.order, w, h), 0, 0
  {
    var entered := Carve(st.order + [p], st.parent + [from], st.carved + [p]);
    EnterLinks(st.order, st.parent, st.carved, p, from);
    UnenteredShrinks(st.order, entered.order, w, h, p);
    DirsTree(p, |st.order|, choose(p), 0, entered, choose, w, h);
  }

  lemma {:induction false} DirsTree(p: Pos, me: nat, dirs: Order, i: nat, st: Carve, choose: Pos -> Order,
                                    w: int, h: int)
    requires i <= 4 && me < |st.order| && st.order[me] == p && st.order[0] == Root
    requires TreeLinks(st.order, st.parent, st.carved)
    ensures var r := CarveDirs(p, me, dirs, i, st, choose, w, h);
            TreeLinks(r.order, r.parent, r.carved) && r.order[0] == Root
    decreases Unentered(st.order, w, h), 1, 4 - i
  {
    if i < 4 {
      var n := Shift(p, dirs[i]);
      ShiftFacts(p, dirs[i]);
      var knocked := Carve(st.order, st.parent, st.carved + [Between(p, dirs[i])]);
      var next := TryMove(p, me, dirs[i], st, choose, w, h);
      if Inside(n, w, h) && n !in st.order {
        FromTree(n, me, knocked, choose, w, h);
        assert next.order[me] == p;
      }
      UnenteredMono(st.order, next.order, w, h);
      DirsTree(p, me, dirs, i + 1, next, choose, w, h);
    }
  }

  /** The carved tiles are listed once each, and each is an entered cell or lies between two. */
  lemma {:induction false} FromCovered(p: Pos, from: nat, st: Carve, choose: Pos -> Order, w: int, h: int)
    requires 0 <= p.x < w && 0 <= p.y < h && p !in st.order && IsCell(p)
    requires |st.order| == 0 ==> Covered(st.order, st.carved, None)
    requires |st.order| > 0 ==>
               && from < |st.order| && IsCell(st.order[from]) && StepBetween(st.order[from], p)
               && Covered(st.order, st.carved, Some(Mid(st.order[from], p)))
    ensures var r := CarveFrom(p, from, st, choose, w, h);
            Covered(r.order, r.carved, None)
    decreases Unentered(st.order, w, h), 0, 0
  {
    var entered := Carve(st.order + [p], st.parent + [from], st.carved + [p]);
    EnterCovered(st.order, st.carved, p, from);
    UnenteredShrinks(st.order, entered.order, w, h, p);
    DirsCovered(p, |st.order|, choose(p), 0, entered, choose, w, h);
  }

  lemma {:induction false} DirsCovered(p: Pos, me: nat, dirs: Order, i: nat, st: Carve, choose: Pos -> Order,
                                       w: int, h: int)
    requires i <= 4 && IsCell(p) && me < |st.order| && st.order[me] == p
    requires Covered(st.order, st.carved, None)
    ensures var r := CarveDirs(p, me, dirs, i, st, choose, w, h);
            Covered(r.order, r.carved, None)
    decreases Unentered(st.order, w, h), 1, 4 - i
  {
    if i < 4 {
      var n := Shift(p, dirs[i]);
      ShiftFacts(p, dirs[i]);
      var knocked := Carve(st.order, st.parent, st.carved + [Between(p, dirs[i])]);
      var next := TryMove(p, me, dirs[i], st, choose, w, h);
      if Inside(n, w, h) && n !in st.order {
        KnockCovered(st.order, st.carved, p, n);
        FromCovered(n, me, knocked, choose, w, h);
        assert next.order[me] == p;
      }
      UnenteredMono(st.order, next.order, w, h);
      DirsCovered(p, me, dirs, i + 1, next, choose, w, h);
    }
  }

  // ---------------------------------------------------------------------------------------------
  // The whole carve.

  /**
   * Each cell is entered (marked visited) at most once, and every cell entered is an odd/odd cell
   * at (1, 1) or inside; every tile made floor is at (1, 1) or inside. For a width and height of at
   * least 3 the root is inside too, so the carve never touches column 0, row 0, column `w - 1` or
   * row `h - 1`; for a width or height of 2 the root itself lies on the last column or row.
   */
  lemma BacktrackStaysInside(choose: Pos -> Order, w: int, h: int)
    requires w >= 2 && h >= 2
    ensures var r := Backtrack(choose, w, h);
            EnteredCells(r.order, w, h) && CarvedWithin(r.carved, w, h)
    ensures var r := Backtrack(choose, w, h);
            w >= 3 && h >= 3 ==> forall k :: 0 <= k < |r.carved| ==> Inside(r.carved[k], w, h)
  {
    FromCells(Root, 0, Start, choose, w, h);
    FromWithin(Root, 0, Start, choose, w, h);
  }

  /** `V` cells entered leave `2V - 1` distinct floor tiles: the cells and one tile per tree edge. */
  lemma BacktrackFloorCount(choose: Pos -> Order, w: int, h: int)
    requires w >= 2 && h >= 2
    ensures var r := Backtrack(choose, w, h);
            Distinct(r.carved) && |r.carved| == 2 * |r.order| - 1
  {
    FromCountClosed(Root, 0, Start, choose, w, h);
    FromCovered(Root, 0, Start, choose, w, h);
  }

  /** Every odd/odd interior cell is entered, whatever order the moves are drawn in. */
  lemma BacktrackReachesAll(choose: Pos -> Order, w: int, h: int)
    requires w >= 2 && h >= 2
    ensures forall c :: IsCell(c) && Inside(c, w, h) ==> c in Backtrack(choose, w, h).order
  {
    var r := Backtrack(choose, w, h);
    FromCountClosed(Root, 0, Start, choose, w, h);
    ClosedFromStart(r.order, w, h);
    AllCellsReached(r.order, w, h);
  }

  /** Every floor tile is joined to (1, 1) by a 4-adjacent path of floor tiles. */
  lemma BacktrackConnected(choose: Pos -> Order, w: int, h: int)
    requires w >= 2 && h >= 2
    ensures ConnectedFrom(Backtrack(choose, w, h).carved, Root)
  {
    var r := Backtrack(choose, w, h);
    FromTree(Root, 0, Start, choose, w, h);
    FromCovered(Root, 0, Start, choose, w, h);
    forall t | t in r.carved
      ensures Attached(t, r.order)
    {
      assert CellOrMidpoint(t, r.order);
    }
    TreeConnected(r.order, r.parent, r.carved);
  }
}
