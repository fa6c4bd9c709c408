/**
 * The level builder. A `MazeGenerator` owns a column-major tile grid `maze[x, y]` of
 * `width` by `height` tiles. Each generator allocates a fresh grid and keeps it: a random wall/floor
 * fill, or a recursive backtracker that carves odd/odd cells from (1, 1) followed by fixed entrance
 * and exit overrides. `GenerateLevel` runs the backtracker, then scans the floor and places the
 * player, the door and the enemies.
 *
 * Every random draw is a parameter. `draw` and `shade` are indexed by the tile, `choose` by the
 * carved cell and `pick` by the selection round; each of those draws happens at most once per
 * tile, cell or round in one run, so every outcome of the random source is some choice of these
 * functions, and what is proved holds for all of them.
 */
module MazeGeneration {
  import opened Levels
  import opened MazeGrid
  import opened Placement
  import opened Carving

  /** The random source of an interior wall tile: a uniform draw among 5, 6 and 7. */
  type Shade = s: int | 5 <= s <= 7 witness 5

  datatype MazeConfig = MazeConfig(width: int, height: int, ensureReachable: bool)

  /** The enemy list built from the drawn positions: an idle wooden skeleton facing TOP on each, in order. */
  function Skeletons(positions: seq<Pos>): (r: seq<Entity>)
    ensures |r| == |positions|
    ensures forall i :: 0 <= i < |r| ==>
              r[i] == Entity(positions[i].x, positions[i].y, Top, Idle, SkeletonWooden)
    ensures forall e :: e in r ==>
              e.direction == Top && e.state == Idle && e.kind == SkeletonWooden && e.Position() in positions
  {
    if positions == [] then []
    else [Entity(positions[0].x, positions[0].y, Top, Idle, SkeletonWooden)] + Skeletons(positions[1..])
  }

  /**
   * What `generateLevel` promises of the entities it places over the scanned floor list `floor`:
   * no spikes or bursts; the player, TOP and IDLE, on the first listed tile nearest `playerTarget`
   * (the tile (1, m) just inside the entrance); the door, BOTTOM and IDLE, on the first listed tile
   * nearest `exit`; and at most one idle wooden skeleton facing TOP on a listed tile that is neither,
   * present exactly when such a tile exists.
   */
  predicate Assembled(l: Level, floor: seq<Pos>, playerTarget: Pos, exit: Pos) {
    && l.spikes == [] && l.bursts == []
    && l.player.direction == Top && l.player.state == Idle && l.player.kind == Player
    && NearestListed(l.player.Position(), playerTarget, floor)
    && l.door.direction == Bottom && l.door.state == Idle && l.door.kind == Door
    && NearestListed(l.door.Position(), exit, floor)
    && |l.enemies| <= 1
    && (forall e :: e in l.enemies ==>
          && e.direction == Top && e.state == Idle && e.kind == SkeletonWooden
          && e.Position() in floor && e.Position() != l.player.Position() && e.Position() != l.door.Position())
    && (|l.enemies| == 1 <==> exists q :: q in floor && q != l.player.Position() && q != l.door.Position())
  }

  /**
   * What `generateLevel` promises of its result over the scanned floor list `floor`: a level exists
   * exactly when the list is non-empty; its grid is `grid` and its entities are `Assembled`; the
   * player stands on `playerTarget` (the tile (1, m) just inside the entrance) when that is listed,
   * and the door on the tile left of the exit when the exit is not listed and that tile is.
   */
  predicate PlacedLevel(level: Option<Level>, grid: array2<Tile>, floor: seq<Pos>, playerTarget: Pos, exit: Pos) {
    && (level.Some? <==> |floor| > 0)
    && (level.Some? ==> level.value.mapInfo == grid && Assembled(level.value, floor, playerTarget, exit))
    && (level.Some? && playerTarget in floor ==> level.value.player.Position() == playerTarget)
    && (level.Some? && exit !in floor && Pos(exit.x - 1, exit.y) in floor ==>
          level.value.door.Position() == Pos(exit.x - 1, exit.y))
  }

  /**
   * The level `generateLevel` builds from a non-empty scanned floor list is a `PlacedLevel`: the player
   * and door choices are the first nearest listed tiles, and the one-enemy draw avoids both.
   */
  lemma PlacedLevelHolds(l: Level, floor: seq<Pos>, playerTarget: Pos, exit: Pos, chosen: seq<Pos>)
    requires ScanOrdered(floor) && |floor| > 0
    requires var player, door := PlaceNear(floor, playerTarget).value, PlaceNear(floor, exit).value;
             && |chosen| == SelectionSize(1, |Filter(floor, [player, door])|)
             && (forall p :: p in chosen ==> p in floor && p !in [player, door])
             && l == Level(l.mapInfo, Entity(player.x, player.y, Top, Idle, Player), Skeletons(chosen), [], [],
                           Entity(door.x, door.y, Bottom, Idle, Door))
    ensures PlacedLevel(Some(l), l.mapInfo, floor, playerTarget, exit)
  {
    var player, door := PlaceNear(floor, playerTarget).value, PlaceNear(floor, exit).value;
    PlaceNearIsNearestListed(floor, playerTarget);
    PlaceNearIsNearestListed(floor, exit);
    OneSelected(floor, player, door, chosen);
    assert l.player.Position() == player && l.door.Position() == door;
    if exit !in floor && Pos(exit.x - 1, exit.y) in floor {
      PlaceNearTakesLeftNeighbour(floor, exit);
    }
  }

  function Min(a: int, b: int): int {
    if a < b then a else b
  }

  class MazeGenerator {
    const width: int
    const height: int
    var maze: array2<Tile>

    constructor (config: MazeConfig)
      ensures width == config.width && height == config.height
      ensures maze.Length0 == 0 && maze.Length1 == 0
    {
      width := config.width;
      height := config.height;
      maze := new Tile[0, 0];
    }

    /** The wall tile for a position: corner and edge variants along columns 0 and width-2 and rows 0 and height-2. */
    function CreateWallTile(x: int, y: int, shade: Shade): (t: Tile)
      ensures IsWall(t)
      ensures t.src in {5, 6, 7, 9, 13, 14, 15, 16}
      ensures x != 0 && x != width - 2 && y != 0 && y != height - 2 ==> t == Placed(shade, WallColumn)
    {
      if x == 0 && y == 0 then Placed(16, WallLeftTop)
      else if x == width - 2 && y == 0 then Placed(15, WallRightTop)
      else if x == 0 && y == height - 2 then Placed(13, WallLeftBottom)
      else if x == width - 2 && y == height - 2 then Placed(14, WallRightBottom)
      else if x == 0 || x == width - 2 then Placed(5, WallColumn)
      else if y == 0 || y == height - 2 then Placed(9, WallRow)
      else Placed(shade, WallColumn)
    }

    function CreateFloorTile(): (t: Tile)
      ensures IsFloor(t) && t.src == 1
    {
      Placed(1, Floor)
    }

    predicate OnBorder(x: int, y: int) {
      x == 0 || x == width - 1 || y == 0 || y == height - 1
    }

    /**
     * The tile the random fill writes at (x, y) before the exit override: on the border an opening
     * when the 10% draw succeeds and a wall otherwise; inside, a wall when the density draw succeeds
     * and floor otherwise.
     */
    function RandomTile(x: int, y: int, draw: Pos -> bool, shade: Pos -> Shade): (t: Tile)
      ensures OnBorder(x, y) ==> t == Opening || IsWall(t)
      ensures !OnBorder(x, y) ==> IsFloor(t) || IsWall(t)
    {
      if OnBorder(x, y) then
        if draw(Pos(x, y)) then Opening else CreateWallTile(x, y, shade(Pos(x, y)))
      else
        if draw(Pos(x, y)) then CreateWallTile(x, y, shade(Pos(x, y))) else CreateFloorTile()
    }

    method GenerateRandomMaze(draw: Pos -> bool, shade: Pos -> Shade) returns (grid: array2<Tile>)
      requires width >= 1 && height >= 1
      modifies this`maze
      ensures grid == maze && fresh(maze)
      ensures maze.Length0 == width && maze.Length1 == height
      ensures forall x, y :: 0 <= x < width && 0 <= y < height ==>
                maze[x, y] == if x == width - 1 && y == height / 2 then Opening
                              else RandomTile(x, y, draw, shade)
      ensures forall x, y :: 0 <= x < width && 0 <= y < height && OnBorder(x, y) ==>
                maze[x, y] == Opening || IsWall(maze[x, y])
      ensures forall x, y :: 0 <= x < width && 0 <= y < height && !OnBorder(x, y) ==>
                IsFloor(maze[x, y]) || IsWall(maze[x, y])
      ensures maze[width - 1, height / 2] == Opening
    {
      var m := new Tile[width, height];
      for x := 0 to width
        invariant forall i, j :: 0 <= i < x && 0 <= j < height ==> m[i, j] == RandomTile(i, j, draw, shade)
      {
        for y := 0 to height
          invariant forall i, j :: 0 <= i < x && 0 <= j < height ==> m[i, j] == RandomTile(i, j, draw, shade)
          invariant forall j :: 0 <= j < y ==> m[x, j] == RandomTile(x, j, draw, shade)
        {
          if x == 0 || x == width - 1 || y == 0 || y == height - 1 {
            if draw(Pos(x, y)) {
              m[x, y] := Opening;
            } else {
              m[x, y] := CreateWallTile(x, y, shade(Pos(x, y)));
            }
          } else {
            if draw(Pos(x, y)) {
              m[x, y] := CreateWallTile(x, y, shade(Pos(x, y)));
            } else {
              m[x, y] := CreateFloorTile();
            }
          }
        }
      }
      var exitX := width - 1;
      var exitY := height / 2;
      m[exitX, exitY] := Opening;
      maze := m;
      grid := maze;
    }

    /**
     * The floor tiles the scan has met when it reaches row `y` of column `x`: those of the inner
     * rows of columns 1 to x-1, then those of column `x` above row `y`.
     */
    ghost function FloorUpTo(x: int, y: int): seq<Pos>
      reads this, maze
      requires maze.Length0 == width && maze.Length1 == height && 0 <= x < width && (y <= 1 || y <= height)
      decreases x, if y <= 1 then 1 else y
    {
      if y <= 1 then FloorBefore(x)
      else FloorUpTo(x, y - 1) + (if IsFloor(maze[x, y - 1]) then [Pos(x, y - 1)] else [])
    }

    /** The floor tiles the scan has met when it starts column `x`. */
    ghost function FloorBefore(x: int): seq<Pos>
      reads this, maze
      requires maze.Length0 == width && maze.Length1 == height && (x <= 1 || x <= width)
      decreases x, 0
    {
      if x <= 1 then [] else FloorUpTo(x - 1, height - 1)
    }

    /** The inside floor tiles in the order the scan meets them. */
    ghost function FloorTiles(): seq<Pos>
      reads this, maze
      requires maze.Length0 == width && maze.Length1 == height
    {
      FloorBefore(width - 1)
    }

    lemma {:induction false} FloorUpToAre(x: int, y: int)
      requires maze.Length0 == width && maze.Length1 == height && 0 <= x < width && (y <= 1 || y <= height)
      ensures forall p :: p in FloorUpTo(x, y) <==>
                && ((1 <= p.x < x && 1 <= p.y < height - 1) || (p.x == x && 1 <= p.y < y))
                && IsFloor(maze[p.x, p.y])
      ensures ScanOrdered(FloorUpTo(x, y))
      decreases x, if y <= 1 then 1 else y
    {
      if y <= 1 {
        FloorBeforeAre(x);
      } else {
        var prev := FloorUpTo(x, y - 1);
        var here := if IsFloor(maze[x, y - 1]) then [Pos(x, y - 1)] else [];
        assert FloorUpTo(x, y) == prev + here;
        FloorUpToAre(x, y - 1);
        forall p, q | p in prev && q in here
          ensures Before(p, q)
        {
        }
        ScanOrderedJoin(prev, here);
      }
    }

    lemma {:induction false} FloorBeforeAre(x: int)
      requires maze.Length0 == width && maze.Length1 == height && (x <= 1 || x <= width)
      ensures forall p :: p in FloorBefore(x) <==> 1 <= p.x < x && 1 <= p.y < height - 1 && IsFloor(maze[p.x, p.y])
      ensures ScanOrdered(FloorBefore(x))
      decreases x, 0
    {
      if x > 1 {
        FloorUpToAre(x - 1, height - 1);
      }
    }

    /** The scan lists the inside floor tiles and nothing else. */
    lemma FloorTilesAre()
      requires maze.Length0 == width && maze.Length1 == height
      ensures forall p :: p in FloorTiles() <==> Inside(p, width, height) && IsFloor(maze[p.x, p.y])
    {
      FloorBeforeAre(width - 1);
    }

    /** The scan lists each tile once, in column-major order. */
    lemma FloorTilesOrdered()
      requires maze.Length0 == width && maze.Length1 == height
      ensures ScanOrdered(FloorTiles()) && Distinct(FloorTiles())
    {
      FloorBeforeAre(width - 1);
      ScanOrderedDistinct(FloorTiles());
    }

    /** `findFloorPositions`: the inside floor tiles, by column and then by row. */
    method FindFloorPositions() returns (positions: seq<Pos>)
      requires maze.Length0 == width && maze.Length1 == height
      ensures positions == FloorTiles()
    {
      positions := [];
      var x := 1;
      while x < width - 1
        invariant 1 <= x && (x <= width - 1 || x == 1)
        invariant positions == FloorBefore(x)
      {
        var y := 1;
        while y < height - 1
          invariant 1 <= y && (y <= height - 1 || y == 1)
          invariant positions == FloorUpTo(x, y)
        {
          if IsFloor(maze[x, y]) {
            positions := positions + [Pos(x, y)];
          }
          y := y + 1;
        }
        x := x + 1;
      }
    }

    /**
     * Up to `count` positions drawn without replacement from the available ones that match no
     * excluded position. The loop bound re-reads the shrinking candidate list, so at most half of
     * the candidates (rounded up) are taken.
     */
    method SelectRandomPositions(available: seq<Pos>, count: int, exclude: seq<Pos>, pick: nat -> nat)
      returns (selected: seq<Pos>)
      ensures |selected| == SelectionSize(count, |Filter(available, exclude)|)
      ensures multiset(selected) <= multiset(Filter(available, exclude))
      ensures forall p :: p in selected ==> p in available && p !in exclude
      ensures Distinct(available) ==> Distinct(selected)
    {
      var filtered := Filter(available, exclude);
      ghost var all := filtered;
      selected := [];
      var i := 0;
      while i < Min(count, |filtered|)
        invariant 0 <= i && |selected| == i && |filtered| + i == |all|
        invariant i > 0 ==> i <= count && 2 * i <= |all| + 1
        invariant Drawn(selected, filtered, all)
        decreases |filtered|
      {
        var index := pick(i) % |filtered|;
        DrawStep(selected, filtered, all, index);
        selected := selected + [filtered[index]];
        filtered := Splice(filtered, index);
        i := i + 1;
      }
      SelectionSizeReached(count, |all|, i);
      DrawnWithin(selected, filtered, all);
    }

    // ---------------------------------------------------------------------------------------------
    // The recursive backtracker.

    /** `visited` marks exactly the cells of `order`. */
    ghost predicate VisitedAre(visited: array2<bool>, order: seq<Pos>)
      reads visited
    {
      forall a, b {:trigger visited[a, b]} :: 0 <= a < visited.Length0 && 0 <= b < visited.Length1 ==>
        (visited[a, b] <==> Pos(a, b) in order)
    }

    /** Every tile of `carved` is floor. */
    ghost predicate FloorAt(carved: seq<Pos>)
      reads this, maze
    {
      forall a, b {:trigger maze[a, b]} :: 0 <= a < maze.Length0 && 0 <= b < maze.Length1 && Pos(a, b) in carved ==>
        maze[a, b] == CreateFloorTile()
    }

    /**
     * `carvePassage(x, y, visited)` with the carve so far described by `st`: the cells it marks
     * visited and the tiles it makes floor are those of `CarveFrom`; every other tile is unchanged.
     */
    method CarvePassage(x: int, y: int, visited: array2<bool>, choose: Pos -> Order, ghost from: nat, ghost st: Carve)
      requires maze.Length0 == width && maze.Length1 == height
      requires visited.Length0 == width && visited.Length1 == height
      requires 0 <= x < width && 0 <= y < height && Pos(x, y) !in st.order
      requires VisitedAre(visited, st.order) && FloorAt(st.carved)
      modifies maze, visited
      decreases Unentered(st.order, width, height), 0
      ensures VisitedAre(visited, CarveFrom(Pos(x, y), from, st, choose, width, height).order)
      ensures forall a, b {:trigger maze[a, b]} :: 0 <= a < width && 0 <= b < height ==>
                maze[a, b] == if Pos(a, b) in CarveFrom(Pos(x, y), from, st, choose, width, height).carved
                              then CreateFloorTile() else old(maze[a, b])
    {
      visited[x, y] := true;
      maze[x, y] := CreateFloorTile();
      ghost var me := |st.order|;
      ghost var cur := Carve(st.order + [Pos(x, y)], st.parent + [from], st.carved + [Pos(x, y)]);
      ghost var goal := CarveFrom(Pos(x, y), from, st, choose, width, height);

      var directions := choose(Pos(x, y));
      for i := 0 to 4
        invariant st.order + [Pos(x, y)] <= cur.order
        invariant CarveDirs(Pos(x, y), me, directions, i, cur, choose, width, height) == goal
        invariant VisitedAre(visited, cur.order) && FloorAt(cur.carved)
        invariant forall a, b {:trigger maze[a, b]} :: 0 <= a < width && 0 <= b < height ==>
                    maze[a, b] == if Pos(a, b) in cur.carved then CreateFloorTile() else old(maze[a, b])
      {
        ghost var next := TryMove(Pos(x, y), me, directions[i], cur, choose, width, height);
        label pass:
        UnenteredShrinks(st.order, cur.order, width, height, Pos(x, y));
        CarveToward(x, y, directions[i], visited, choose, me, cur);
        forall a, b {:trigger maze[a, b]} | 0 <= a < width && 0 <= b < height
          ensures maze[a, b] == if Pos(a, b) in next.carved then CreateFloorTile() else old(maze[a, b])
        {
          assert old@pass(maze[a, b]) == if Pos(a, b) in cur.carved then CreateFloorTile() else old(maze[a, b]);
        }
        cur := next;
      }
    }

    /**
     * One pass of the direction loop of `carvePassage`: when the cell two tiles away in direction
     * `s` is strictly inside and unvisited, knock out the tile between and carve on from there.
     */
    method CarveToward(x: int, y: int, s: Step, visited: array2<bool>, choose: Pos -> Order, ghost me: nat, ghost cur: Carve)
      requires maze.Length0 == width && maze.Length1 == height
      requires visited.Length0 == width && visited.Length1 == height
      requires 0 <= x < width && 0 <= y < height
      requires VisitedAre(visited, cur.order) && FloorAt(cur.carved)
      modifies maze, visited
      decreases Unentered(cur.order, width, height), 1
      ensures VisitedAre(visited, TryMove(Pos(x, y), me, s, cur, choose, width, height).order)
      ensures FloorAt(TryMove(Pos(x, y), me, s, cur, choose, width, height).carved)
      ensures forall a, b {:trigger maze[a, b]} :: 0 <= a < width && 0 <= b < height ==>
                maze[a, b] == if Pos(a, b) in TryMove(Pos(x, y), me, s, cur, choose, width, height).carved
                              then CreateFloorTile() else old(maze[a, b])
    {
      var dx, dy := s.Dx(), s.Dy();
      var nx, ny := x + dx, y + dy;
      if nx > 0 && nx < width - 1 && ny > 0 && ny < height - 1 && !visited[nx, ny] {
        var mx, my := x + dx / 2, y + dy / 2;
        ghost var knocked := Carve(cur.order, cur.parent, cur.carved + [Pos(mx, my)]);
        TryMoveEnters(Pos(x, y), me, s, cur, choose, width, height);
        ghost var next := TryMove(Pos(x, y), me, s, cur, choose, width, height);
        label knock:
        maze[mx, my] := CreateFloorTile();
        forall a, b {:trigger maze[a, b]} | 0 <= a < width && 0 <= b < height && Pos(a, b) in knocked.carved
          ensures maze[a, b] == CreateFloorTile()
        {
          if (a, b) != (mx, my) {
            assert maze[a, b] == old@knock(maze[a, b]);
          }
        }
        label called:
        CarvePassage(nx, ny, visited, choose, me, knocked);
        PrefixKeeps(knocked.carved, next.carved);
        forall a, b {:trigger maze[a, b]} | 0 <= a < width && 0 <= b < height
          ensures maze[a, b] == if Pos(a, b) in next.carved then CreateFloorTile() else old(maze[a, b])
        {
          if (a, b) != (mx, my) {
            assert old@called(maze[a, b]) == old@knock(maze[a, b]);
          }
        }
      } else {
        TryMoveSkips(Pos(x, y), me, s, cur, choose, width, height);
      }
    }

    /**
     * The tile the entrance and exit overrides leave at (x, y) over the tile `under`: the entrance
     * (0, m) becomes an opening and (1, m) floor, then the exit (width-2, m) an opening and
     * (width-3, m) floor when width-2 > 0, where m = height / 2; later writes win.
     */
    function EntranceExitTile(x: int, y: int, under: Tile): (t: Tile)
      ensures y != height / 2 || !(x == 0 || x == 1 || x == width - 3 || x == width - 2) ==> t == under
      ensures t == under || t == Opening || t == CreateFloorTile()
      ensures y == height / 2 &&
              (x == 0 || x == width - 2 || (x == 1 && width >= 2) || (x == width - 3 && width >= 3)) ==>
                t == Opening || t == CreateFloorTile()
    {
      var m := height / 2;
      if y == m && x == width - 3 && width - 2 > 0 then CreateFloorTile()
      else if y == m && x == width - 2 then Opening
      else if y == m && x == 1 && 0 < width - 1 then CreateFloorTile()
      else if y == m && x == 0 then Opening
      else under
    }

    /**
     * The tile `generateBacktrackMaze` leaves at (x, y) when the carve made floor of the tiles
     * `carved`: the wall fill, the carve, the entrance and exit overrides, and finally the last row
     * and the last column blanked to openings.
     */
    function BacktrackTile(x: int, y: int, shade: Pos -> Shade, carved: seq<Pos>): (t: Tile)
      ensures x == width - 1 || y == height - 1 ==> t == Opening
      ensures t == Opening || IsFloor(t) || IsWall(t)
    {
      if x == width - 1 || y == height - 1 then Opening
      else EntranceExitTile(x, y, if Pos(x, y) in carved then CreateFloorTile() else CreateWallTile(x, y, shade(Pos(x, y))))
    }

    method GenerateBacktrackMaze(shade: Pos -> Shade, choose: Pos -> Order) returns (grid: array2<Tile>)
      requires width >= 2 && height >= 2
      modifies this`maze
      ensures grid == maze && fresh(maze)
      ensures maze.Length0 == width && maze.Length1 == height
      ensures forall x, y {:trigger maze[x, y]} :: 0 <= x < width && 0 <= y < height ==>
                maze[x, y] == BacktrackTile(x, y, shade, Backtrack(choose, width, height).carved)
    {
      FillWalls(shade);
      var visited := new bool[width, height]((i, j) => false);
      ghost var carved := Backtrack(choose, width, height).carved;
      CarvePassage(1, 1, visited, choose, 0, Start);
      label carvedOut:
      OpenEntranceAndExit();
      label overridden:
      ClearLastRowAndColumn();
      forall x, y {:trigger maze[x, y]} | 0 <= x < width && 0 <= y < height
        ensures maze[x, y] == BacktrackTile(x, y, shade, carved)
      {
        assert old@overridden(maze[x, y]) == EntranceExitTile(x, y, old@carvedOut(maze[x, y]));
      }
      grid := maze;
    }

    /** The all-wall start of `generateBacktrackMaze`: a fresh grid of `createWallTile` tiles. */
    method FillWalls(shade: Pos -> Shade)
      requires width >= 0 && height >= 0
      modifies this`maze
      ensures fresh(maze) && maze.Length0 == width && maze.Length1 == height
      ensures forall x, y {:trigger maze[x, y]} :: 0 <= x < width && 0 <= y < height ==>
                maze[x, y] == CreateWallTile(x, y, shade(Pos(x, y)))
    {
      var m := new Tile[width, height];
      for x := 0 to width
        invariant forall i, j {:trigger m[i, j]} :: 0 <= i < x && 0 <= j < height ==>
                    m[i, j] == CreateWallTile(i, j, shade(Pos(i, j)))
      {
        for y := 0 to height
          invariant forall i, j {:trigger m[i, j]} :: 0 <= i < x && 0 <= j < height ==>
                      m[i, j] == CreateWallTile(i, j, shade(Pos(i, j)))
          invariant forall j {:trigger m[x, j]} :: 0 <= j < y ==> m[x, j] == CreateWallTile(x, j, shade(Pos(x, j)))
        {
          m[x, y] := CreateWallTile(x, y, shade(Pos(x, y)));
        }
      }
      maze := m;
    }

    /** The entrance and exit writes of `generateBacktrackMaze`, in the source's order. */
    method OpenEntranceAndExit()
      requires width >= 2 && height >= 1
      requires maze.Length0 == width && maze.Length1 == height
      modifies maze
      ensures forall x, y {:trigger maze[x, y]} :: 0 <= x < width && 0 <= y < height ==>
                maze[x, y] == EntranceExitTile(x, y, old(maze[x, y]))
    {
      var entranceX, entranceY := 0, height / 2;
      maze[entranceX, entranceY] := Opening;
      if entranceX < width - 1 {
        maze[entranceX + 1, entranceY] := CreateFloorTile();
      }
      var exitX, exitY := width - 2, height / 2;
      maze[exitX, exitY] := Opening;
      if exitX > 0 {
        maze[exitX - 1, exitY] := CreateFloorTile();
      }
    }

    /** The final blanking of row height-1 and then of column width-1. */
    method ClearLastRowAndColumn()
      requires width >= 1 && height >= 1
      requires maze.Length0 == width && maze.Length1 == height
      modifies maze
      ensures forall x, y {:trigger maze[x, y]} :: 0 <= x < width && 0 <= y < height ==>
                maze[x, y] == if x == width - 1 || y == height - 1 then Opening else old(maze[x, y])
    {
      for x := 0 to width
        invariant forall i, j {:trigger maze[i, j]} :: 0 <= i < width && 0 <= j < height ==>
                    maze[i, j] == if j == height - 1 && i < x then Opening else old(maze[i, j])
      {
        maze[x, height - 1] := Opening;
      }
      for y := 0 to height
        invariant forall i, j {:trigger maze[i, j]} :: 0 <= i < width && 0 <= j < height ==>
                    maze[i, j] == if j == height - 1 || (i == width - 1 && j < y) then Opening else old(maze[i, j])
      {
        maze[width - 1, y] := Opening;
      }
    }

    /**
     * The fixed part of the backtrack maze for width >= 4 and height >= 3, whatever was carved: the
     * last column and the last row are openings, and so are the entrance (0, m) and the exit
     * (width-2, m); the tiles just inside them, (1, m) and (width-3, m), are floor; every other tile
     * is floor or a wall.
     */
    lemma BacktrackLayout(shade: Pos -> Shade, carved: seq<Pos>)
      requires width >= 4 && height >= 3
      ensures forall x, y :: 0 <= x < width && 0 <= y < height && (x == width - 1 || y == height - 1) ==>
                BacktrackTile(x, y, shade, carved) == Opening
      ensures BacktrackTile(0, height / 2, shade, carved) == Opening
      ensures BacktrackTile(width - 2, height / 2, shade, carved) == Opening
      ensures BacktrackTile(1, height / 2, shade, carved) == CreateFloorTile()
      ensures BacktrackTile(width - 3, height / 2, shade, carved) == CreateFloorTile()
      ensures forall x, y ::
                (0 <= x < width - 1 && 0 <= y < height - 1 &&
                 Pos(x, y) != Pos(0, height / 2) && Pos(x, y) != Pos(width - 2, height / 2)) ==>
                IsFloor(BacktrackTile(x, y, shade, carved)) || IsWall(BacktrackTile(x, y, shade, carved))
    {
    }

    /**
     * Away from the entrance/exit row, the floor of the finished backtrack maze is exactly the
     * carve's floor: the carve never reaches the last row or column, which are blanked afterwards.
     */
    lemma BacktrackFloorIsCarved(shade: Pos -> Shade, choose: Pos -> Order)
      requires width >= 3 && height >= 3
      ensures forall x, y :: 0 <= x < width && 0 <= y < height && y != height / 2 ==>
                (IsFloor(BacktrackTile(x, y, shade, Backtrack(choose, width, height).carved)) <==>
                 Pos(x, y) in Backtrack(choose, width, height).carved)
    {
      var carved := Backtrack(choose, width, height).carved;
      BacktrackStaysInside(choose, width, height);
      forall x, y | 0 <= x < width && 0 <= y < height && y != height / 2 && Pos(x, y) in carved
        ensures x != width - 1 && y != height - 1
      {
        assert Pos(x, y) == Root || Inside(Pos(x, y), width, height);
      }
    }

    // ---------------------------------------------------------------------------------------------
    // Level assembly.

    /**
     * On a backtrack maze of at least 4 by 3 tiles, the scanned floor holds the tiles just inside
     * the entrance and the exit, and not the exit itself.
     */
    lemma BacktrackEnds(shade: Pos -> Shade, carved: seq<Pos>)
      requires width >= 4 && height >= 3
      requires maze.Length0 == width && maze.Length1 == height
      requires forall x, y {:trigger maze[x, y]} :: 0 <= x < width && 0 <= y < height ==>
                 maze[x, y] == BacktrackTile(x, y, shade, carved)
      ensures Pos(1, height / 2) in FloorTiles() && Pos(width - 3, height / 2) in FloorTiles()
      ensures Pos(width - 2, height / 2) !in FloorTiles()
    {
      var m := height / 2;
      BacktrackLayout(shade, carved);
      FloorTilesAre();
      assert maze[1, m] == CreateFloorTile() && maze[width - 3, m] == CreateFloorTile();
      assert maze[width - 2, m] == Opening;
    }

    /**
     * The placement half of `generateLevel`, over the scanned floor list: place the player near
     * the entrance (1, m) and the door near the exit (width-2, m), and draw one enemy among the other
     * floor tiles. With no floor tile the source has no player position and fails; the model returns
     * `None`.
     */
    method PlaceEntities(floorPositions: seq<Pos>, pick: nat -> nat) returns (level: Option<Level>)
      requires ScanOrdered(floorPositions)
      ensures PlacedLevel(level, maze, floorPositions, Pos(1, height / 2), Pos(width - 2, height / 2))
    {
      var entranceY, exitY := height / 2, height / 2;
      var playerPos := PlaceNear(floorPositions, Pos(1, entranceY));
      var doorPos := PlaceNear(floorPositions, Pos(width - 2, exitY));
      if |floorPositions| == 0 {
        return None;
      }
      var exclude := [playerPos.value, doorPos.value];
      var enemyPositions := SelectRandomPositions(floorPositions, 1, exclude, pick);

      var player := Entity(playerPos.value.x, playerPos.value.y, Top, Idle, Player);
      var enemies := Skeletons(enemyPositions);
      var door := Entity(doorPos.value.x, doorPos.value.y, Bottom, Idle, Door);
      level := Some(Level(maze, player, enemies, [], [], door));
      PlacedLevelHolds(level.value, floorPositions, Pos(1, entranceY), Pos(width - 2, exitY), enemyPositions);
    }

    /**
     * `generateLevel`: the local configuration always selects the backtrack maze, after which the
     * entities are placed on it. For width >= 4 and height >= 3 a level is always produced, with
     * the player on (1, m) and the door on (width-3, m).
     */
    method GenerateLevel(shade: Pos -> Shade, choose: Pos -> Order, pick: nat -> nat) returns (level: Option<Level>)
      requires width >= 2 && height >= 2
      modifies this`maze
      ensures fresh(maze) && maze.Length0 == width && maze.Length1 == height
      ensures forall x, y {:trigger maze[x, y]} :: 0 <= x < width && 0 <= y < height ==>
                maze[x, y] == BacktrackTile(x, y, shade, Backtrack(choose, width, height).carved)
      ensures PlacedLevel(level, maze, FloorTiles(), Pos(1, height / 2), Pos(width - 2, height / 2))
      ensures width >= 4 && height >= 3 ==>
                level.Some? && level.value.player.Position() == Pos(1, height / 2) &&
                level.value.door.Position() == Pos(width - 3, height / 2)
    {
      var mapInfo := GenerateBacktrackMaze(shade, choose);
      if width >= 4 && height >= 3 {
        BacktrackEnds(shade, Backtrack(choose, width, height).carved);
      }
      var floorPositions := FindFloorPositions();
      FloorTilesOrdered();
      level := PlaceEntities(floorPositions, pick);
    }
  }
}
