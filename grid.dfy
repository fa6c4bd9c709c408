/**
 * Geometry of the tile grid the generator works on: the odd/odd carving cells, the four step-2
 * moves of the recursive backtracker, 4-adjacency, tile paths, and two facts about carving:
 * a set closed under the moves reaches every interior cell, and the carve's tree links make its
 * tiles connected.
 */
module MazeGrid {
  import opened Levels

  predicate Odd(n: int) {
    n % 2 == 1
  }

  predicate Even(n: int) {
    n % 2 == 0
  }

  /** A carving cell: both coordinates odd. The carve starts from `Root`. */
  predicate IsCell(p: Pos) {
    Odd(p.x) && Odd(p.y)
  }

  const Root := Pos(1, 1)

  /** The generator's interior test: `0 < x < width - 1` and `0 < y < height - 1`. */
  predicate Inside(p: Pos, w: int, h: int) {
    0 < p.x < w - 1 && 0 < p.y < h - 1
  }

  /** The four moves of the carve, `[0, 2]`, `[2, 0]`, `[0, -2]` and `[-2, 0]` (y grows downwards). */
  datatype Step = South | East | North | West {
    function Dx(): int {
      match this
      case East => 2
      case West => -2
      case _ => 0
    }

    function Dy(): int {
      match this
      case South => 2
      case North => -2
      case _ => 0
    }
  }

  /** An order of the four moves, as the random-comparator sort leaves them: each move appears. */
  predicate IsOrder(s: seq<Step>) {
    |s| == 4 && South in s && East in s && North in s && West in s
  }

  type Order = s: seq<Step> | IsOrder(s) witness [South, East, North, West]

  function Shift(p: Pos, s: Step): Pos {
    Pos(p.x + s.Dx(), p.y + s.Dy())
  }

  /** The tile between two cells one move apart (the wall the carve knocks out). */
  function Mid(a: Pos, b: Pos): Pos {
    Pos((a.x + b.x) / 2, (a.y + b.y) / 2)
  }

  /** `b` is one carve move away from `a`. */
  predicate StepBetween(a: Pos, b: Pos) {
    (a.x == b.x && (b.y == a.y + 2 || b.y == a.y - 2)) ||
    (a.y == b.y && (b.x == a.x + 2 || b.x == a.x - 2))
  }

  /** 4-adjacency of tiles. */
  predicate Adjacent(a: Pos, b: Pos) {
    (a.x == b.x && (b.y == a.y + 1 || b.y == a.y - 1)) ||
    (a.y == b.y && (b.x == a.x + 1 || b.x == a.x - 1))
  }

  predicate Distinct<T(==)>(s: seq<T>) {
    forall i, j :: 0 <= i < j < |s| ==> s[i] != s[j]
  }

  lemma DistinctAppend<T>(s: seq<T>, e: T)
    requires Distinct(s) && e !in s
    ensures Distinct(s + [e])
  {
    forall i, j | 0 <= i < j < |s| + 1
      ensures (s + [e])[i] != (s + [e])[j]
    {
      if j == |s| {
        assert s[i] in s;
      }
    }
  }

  /** The scan order of the floor search: by column, then by row. */
  predicate Before(p: Pos, q: Pos) {
    p.x < q.x || (p.x == q.x && p.y < q.y)
  }

  predicate ScanOrdered(s: seq<Pos>) {
    forall i, j :: 0 <= i < j < |s| ==> Before(s[i], s[j])
  }

  /** Two scan-ordered lists, the first wholly before the second, join into one. */
  lemma ScanOrderedJoin(a: seq<Pos>, b: seq<Pos>)
    requires ScanOrdered(a) && ScanOrdered(b)
    requires forall p, q :: p in a && q in b ==> Before(p, q)
    ensures ScanOrdered(a + b)
  {
    forall i, j | 0 <= i < j < |a + b|
      ensures Before((a + b)[i], (a + b)[j])
    {
      if j < |a| {
        assert (a + b)[i] == a[i] && (a + b)[j] == a[j];
      } else if i >= |a| {
        assert (a + b)[i] == b[i - |a|] && (a + b)[j] == b[j - |a|];
      } else {
        assert (a + b)[i] == a[i] && (a + b)[j] == b[j - |a|];
        assert a[i] in a && b[j - |a|] in b;
      }
    }
  }

  lemma ScanOrderedDistinct(s: seq<Pos>)
    requires ScanOrdered(s)
    ensures Distinct(s)
  {
  }

  /**
   * What a carved tile can be: a visited cell, or the tile between two visited cells one move
   * apart (one coordinate even).
   */
  predicate CellOrMidpoint(t: Pos, order: seq<Pos>) {
    || (IsCell(t) && t in order)
    || (Odd(t.x) && Even(t.y) && Pos(t.x, t.y - 1) in order && Pos(t.x, t.y + 1) in order)
    || (Even(t.x) && Odd(t.y) && Pos(t.x - 1, t.y) in order && Pos(t.x + 1, t.y) in order)
  }

  lemma StepMidAdjacent(a: Pos, b: Pos)
    requires StepBetween(a, b)
    ensures Adjacent(a, Mid(a, b)) && Adjacent(Mid(a, b), b)
    ensures !IsCell(Mid(a, b)) || !IsCell(a)
  {
  }

  // ---------------------------------------------------------------------------------------------
  // Coverage: a set of cells that contains Root and is closed under the moves that stay inside
  // holds every interior cell.

  ghost predicate ClosedUnderSteps(cells: seq<Pos>, w: int, h: int) {
    forall c, s: Step :: c in cells && Inside(Shift(c, s), w, h) ==> Shift(c, s) in cells
  }

  lemma {:induction false} CellReached(cells: seq<Pos>, w: int, h: int, i: nat, j: nat)
    requires Root in cells && ClosedUnderSteps(cells, w, h)
    requires Inside(Pos(1 + 2 * i, 1 + 2 * j), w, h)
    ensures Pos(1 + 2 * i, 1 + 2 * j) in cells
    decreases i + j
  {
    if j > 0 {
      CellReached(cells, w, h, i, j - 1);
      assert Shift(Pos(1 + 2 * i, 1 + 2 * (j - 1)), South) == Pos(1 + 2 * i, 1 + 2 * j);
    } else if i > 0 {
      CellReached(cells, w, h, i - 1, 0);
      assert Shift(Pos(1 + 2 * (i - 1), 1), East) == Pos(1 + 2 * i, 1);
    }
  }

  lemma AllCellsReached(cells: seq<Pos>, w: int, h: int)
    requires Root in cells && ClosedUnderSteps(cells, w, h)
    ensures forall c :: IsCell(c) && Inside(c, w, h) ==> c in cells
  {
    forall c | IsCell(c) && Inside(c, w, h)
      ensures c in cells
    {
      CellReached(cells, w, h, (c.x - 1) / 2, (c.y - 1) / 2);
    }
  }

  // ---------------------------------------------------------------------------------------------
  // Connectivity: every carved tile is joined to the root by a path of carved tiles.

  ghost predicate IsPathIn(p: seq<Pos>, tiles: seq<Pos>) {
    && |p| > 0
    && (forall i :: 0 <= i < |p| ==> p[i] in tiles)
    && (forall i :: 0 <= i < |p| - 1 ==> Adjacent(p[i], p[i + 1]))
  }

  /** Every tile of `tiles` is reached from `root` by a 4-adjacent path inside `tiles`. */
  ghost predicate ConnectedFrom(tiles: seq<Pos>, root: Pos) {
    forall t :: t in tiles ==> exists p :: IsPathIn(p, tiles) && p[0] == root && p[|p| - 1] == t
  }

  /**
   * The carve's spanning tree: cell `order[k]` (k > 0) was entered from cell `order[parent[k]]`,
   * visited earlier, one move away, through the carved tile between them.
   */
  ghost predicate TreeLinks(order: seq<Pos>, parent: seq<nat>, carved: seq<Pos>) {
    && |parent| == |order|
    && (forall k :: 0 <= k < |order| ==> order[k] in carved)
    && (forall k :: 1 <= k < |order| ==>
          && parent[k] < k
          && StepBetween(order[parent[k]], order[k])
          && Mid(order[parent[k]], order[k]) in carved)
  }

  ghost function PathTo(order: seq<Pos>, parent: seq<nat>, carved: seq<Pos>, k: nat): seq<Pos>
    requires TreeLinks(order, parent, carved) && k < |order|
    decreases k
  {
    if k == 0 then [order[0]]
    else PathTo(order, parent, carved, parent[k]) + [Mid(order[parent[k]], order[k]), order[k]]
  }

  lemma {:induction false} PathToIsPath(order: seq<Pos>, parent: seq<nat>, carved: seq<Pos>, k: nat)
    requires TreeLinks(order, parent, carved) && k < |order|
    ensures IsPathIn(PathTo(order, parent, carved, k), carved)
    ensures PathTo(order, parent, carved, k)[0] == order[0]
    ensures PathTo(order, parent, carved, k)[|PathTo(order, parent, carved, k)| - 1] == order[k]
    decreases k
  {
    if k > 0 {
      var j := parent[k];
      PathToIsPath(order, parent, carved, j);
      var p := PathTo(order, parent, carved, j);
      var a, b := order[j], order[k];
      StepMidAdjacent(a, b);
      var q := p + [Mid(a, b), b];
      assert q == PathTo(order, parent, carved, k);
      forall i | 0 <= i < |q| - 1
        ensures Adjacent(q[i], q[i + 1])
      {
        if i < |p| - 1 {
          assert q[i] == p[i] && q[i + 1] == p[i + 1];
        }
      }
    }
  }

  /** A carved tile is a visited cell or lies next to one. */
  ghost predicate Attached(t: Pos, order: seq<Pos>) {
    t in order || Pos(t.x - 1, t.y) in order || Pos(t.x + 1, t.y) in order ||
    Pos(t.x, t.y - 1) in order || Pos(t.x, t.y + 1) in order
  }

  lemma TreeConnected(order: seq<Pos>, parent: seq<nat>, carved: seq<Pos>)
    requires |order| > 0 && TreeLinks(order, parent, carved)
    requires forall t :: t in carved ==> Attached(t, order)
    ensures ConnectedFrom(carved, order[0])
  {
    forall t | t in carved
      ensures exists p :: IsPathIn(p, carved) && p[0] == order[0] && p[|p| - 1] == t
    {
      var n := if t in order then t
               else if Pos(t.x - 1, t.y) in order then Pos(t.x - 1, t.y)
               else if Pos(t.x + 1, t.y) in order then Pos(t.x + 1, t.y)
               else if Pos(t.x, t.y - 1) in order then Pos(t.x, t.y - 1)
               else Pos(t.x, t.y + 1);
      var k :| 0 <= k < |order| && order[k] == n;
      PathToIsPath(order, parent, carved, k);
      var p := PathTo(order, parent, carved, k);
      if n == t {
        assert IsPathIn(p, carved) && p[0] == order[0] && p[|p| - 1] == t;
      } else {
        var q := p + [t];
        assert Adjacent(n, t);
        forall i | 0 <= i < |q| - 1
          ensures Adjacent(q[i], q[i + 1])
        {
          if i < |p| - 1 {
            assert q[i] == p[i] && q[i + 1] == p[i + 1];
          }
        }
        assert IsPathIn(q, carved) && q[0] == order[0] && q[|q| - 1] == t;
      }
    }
  }

  // ---------------------------------------------------------------------------------------------
  // The carve trace: the cells in the order the carve entered them, the index of the cell each was
  // entered from, and the tiles made floor, in order.

  /** The tile a move passes over: halfway between the cell and the cell two tiles away. */
  function Between(p: Pos, s: Step): Pos {
    Pos(p.x + s.Dx() / 2, p.y + s.Dy() / 2)
  }

  lemma ShiftFacts(p: Pos, s: Step)
    ensures StepBetween(p, Shift(p, s))
    ensures Mid(p, Shift(p, s)) == Between(p, s)
    ensures IsCell(p) ==> IsCell(Shift(p, s))
  {
  }

  lemma PrefixKeeps<T>(a: seq<T>, b: seq<T>)
    requires a <= b
    ensures forall z :: z in a ==> z in b
  {
    forall z | z in a
      ensures z in b
    {
      var k :| 0 <= k < |a| && a[k] == z;
      assert b[k] == z;
    }
  }

  /** The cells entered: each once, each an odd/odd cell at the root or inside. */
  ghost predicate EnteredCells(order: seq<Pos>, w: int, h: int) {
    && Distinct(order)
    && (forall k :: 0 <= k < |order| ==> IsCell(order[k]) && (order[k] == Root || Inside(order[k], w, h)))
  }

  /**
   * The tiles carved all lie at the root (1, 1) or strictly inside; for a width and height of at
   * least 3 that keeps them off every border column and row.
   */
  ghost predicate CarvedWithin(carved: seq<Pos>, w: int, h: int) {
    forall k :: 0 <= k < |carved| ==> carved[k] == Root || Inside(carved[k], w, h)
  }

  /**
   * The tiles carved are listed once each, and each is an entered cell or the tile between two
   * entered cells, except possibly `pending`, the tile just knocked out towards a cell about to be
   * entered.
   */
  ghost predicate Covered(order: seq<Pos>, carved: seq<Pos>, pending: Option<Pos>) {
    && Distinct(carved)
    && (forall t :: t in carved ==> CellOrMidpoint(t, order) || (pending.Some? && pending.value == t))
  }

  /** The cells of `order` from index `lo` on have every inside move leading into `order`. */
  ghost predicate ClosedFrom(order: seq<Pos>, lo: nat, w: int, h: int) {
    forall k, s: Step :: lo <= k < |order| && Inside(Shift(order[k], s), w, h) ==> Shift(order[k], s) in order
  }

  lemma ClosedFromGrows(order: seq<Pos>, order': seq<Pos>, lo: nat, w: int, h: int)
    requires order <= order' && ClosedFrom(order, lo, w, h) && ClosedFrom(order', |order|, w, h)
    ensures ClosedFrom(order', lo, w, h)
  {
    PrefixKeeps(order, order');
    forall k, s: Step | lo <= k < |order'| && Inside(Shift(order'[k], s), w, h)
      ensures Shift(order'[k], s) in order'
    {
      if k < |order| {
        assert order'[k] == order[k];
      }
    }
  }

  lemma ClosedFromStart(order: seq<Pos>, w: int, h: int)
    requires ClosedFrom(order, 0, w, h)
    ensures ClosedUnderSteps(order, w, h)
  {
    forall c, s: Step | c in order && Inside(Shift(c, s), w, h)
      ensures Shift(c, s) in order
    {
      var k :| 0 <= k < |order| && order[k] == c;
    }
  }

  /** The tile between two entered cells one move apart is a midpoint of the trace. */
  lemma MidBetween(a: Pos, c: Pos, order: seq<Pos>)
    requires IsCell(a) && StepBetween(a, c) && a in order && c in order
    ensures CellOrMidpoint(Mid(a, c), order)
  {
    if a.x == c.x && c.y == a.y + 2 {
      assert Mid(a, c) == Pos(a.x, a.y + 1);
    } else if a.x == c.x {
      assert Mid(a, c) == Pos(a.x, a.y - 1);
    } else if c.x == a.x + 2 {
      assert Mid(a, c) == Pos(a.x + 1, a.y);
    } else {
      assert Mid(a, c) == Pos(a.x - 1, a.y);
    }
  }

  /** The tile between an entered cell and a cell not yet entered is a midpoint of no two entered cells. */
  lemma MidNotBetween(a: Pos, c: Pos, order: seq<Pos>)
    requires IsCell(a) && StepBetween(a, c) && c !in order
    ensures !CellOrMidpoint(Mid(a, c), order)
  {
    if a.x == c.x && c.y == a.y + 2 {
      assert Mid(a, c) == Pos(a.x, a.y + 1);
    } else if a.x == c.x {
      assert Mid(a, c) == Pos(a.x, a.y - 1);
    } else if c.x == a.x + 2 {
      assert Mid(a, c) == Pos(a.x + 1, a.y);
    } else {
      assert Mid(a, c) == Pos(a.x - 1, a.y);
    }
  }

  lemma EnterCells(order: seq<Pos>, w: int, h: int, c: Pos)
    requires EnteredCells(order, w, h) && IsCell(c) && (c == Root || Inside(c, w, h)) && c !in order
    ensures EnteredCells(order + [c], w, h)
  {
    DistinctAppend(order, c);
  }

  /** Entering cell `c` from `order[from]` (or entering the first cell) keeps the carved list covered. */
  lemma EnterCovered(order: seq<Pos>, carved: seq<Pos>, c: Pos, from: nat)
    requires IsCell(c) && c !in order
    requires |order| == 0 ==> Covered(order, carved, None)
    requires |order| > 0 ==>
               && from < |order| && IsCell(order[from]) && StepBetween(order[from], c)
               && Covered(order, carved, Some(Mid(order[from], c)))
    ensures c !in carved
    ensures Covered(order + [c], carved + [c], None)
  {
    var order' := order + [c];
    PrefixKeeps(order, order');
    if |order| > 0 {
      StepMidAdjacent(order[from], c);
      MidBetween(order[from], c, order');
    }
    DistinctAppend(carved, c);
    forall t | t in carved + [c]
      ensures CellOrMidpoint(t, order')
    {
      if t != c && CellOrMidpoint(t, order) {
      }
    }
  }

  /** Knocking out the tile between entered cell `c` and unentered cell `n` keeps the list covered. */
  lemma KnockCovered(order: seq<Pos>, carved: seq<Pos>, c: Pos, n: Pos)
    requires Covered(order, carved, None) && IsCell(c) && StepBetween(c, n) && n !in order
    ensures Mid(c, n) !in carved
    ensures Covered(order, carved + [Mid(c, n)], Some(Mid(c, n)))
  {
    MidNotBetween(c, n, order);
    DistinctAppend(carved, Mid(c, n));
  }

  /** Entering cell `c` from `order[from]` adds one tree link. */
  lemma EnterLinks(order: seq<Pos>, parent: seq<nat>, carved: seq<Pos>, c: Pos, from: nat)
    requires TreeLinks(order, parent, carved)
    requires |order| > 0 ==> from < |order| && StepBetween(order[from], c) && Mid(order[from], c) in carved
    ensures TreeLinks(order + [c], parent + [from], carved + [c])
  {
    var order', parent', carved' := order + [c], parent + [from], carved + [c];
    forall k | 0 <= k < |order'|
      ensures order'[k] in carved'
    {
      if k < |order| {
        assert order'[k] == order[k];
      }
    }
    forall k | 1 <= k < |order'|
      ensures parent'[k] < k && StepBetween(order'[parent'[k]], order'[k])
      ensures Mid(order'[parent'[k]], order'[k]) in carved'
    {
      if k < |order| {
        assert order'[parent[k]] == order[parent[k]];
      }
    }
  }

  /** The tile between a cell at the root or inside and an inside cell one move away is itself inside or the root. */
  lemma MidWithin(c: Pos, n: Pos, w: int, h: int)
    requires (c == Root || Inside(c, w, h)) && StepBetween(c, n) && Inside(n, w, h)
    ensures Mid(c, n) == Root || Inside(Mid(c, n), w, h)
  {
  }

  /** The tiles of the `w` by `h` grid. */
  ghost function Box(w: int, h: int): set<Pos> {
    set i, j | 0 <= i < w && 0 <= j < h :: Pos(i, j)
  }

  /** The tiles of the grid the trace has not entered: the carve's termination measure. */
  ghost function Unentered(order: seq<Pos>, w: int, h: int): set<Pos> {
    Box(w, h) - set z | z in order
  }

  lemma UnenteredMono(order: seq<Pos>, order': seq<Pos>, w: int, h: int)
    requires order <= order'
    ensures Unentered(order', w, h) <= Unentered(order, w, h)
  {
    PrefixKeeps(order, order');
  }

  lemma UnenteredShrinks(order: seq<Pos>, order': seq<Pos>, w: int, h: int, p: Pos)
    requires order <= order' && p in order' && p !in order && 0 <= p.x < w && 0 <= p.y < h
    ensures Unentered(order', w, h) < Unentered(order, w, h)
  {
    PrefixKeeps(order, order');
    assert p in Box(w, h);
    assert p in Unentered(order, w, h) && p !in Unentered(order', w, h);
  }
}
