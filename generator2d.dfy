/**
 * The 2D dungeon generator: room placement on a grid of cells, the
 * selection of hallway edges between rooms, the cost policy handed to
 * the path finder, and the carving of each path found into the grid.
 *
 * Cells are addressed by `Pos(x, y)`; the grid is `size.x` by `size.y`.
 * Rooms are Unity `RectInt` boxes: `xMin = x`, `xMax = x + width`, and
 * the cells inside are `x <= px < x + width`, `y <= py < y + height`.
 */
module Generator2D {
  import Wrappers
  import opened Prim
  import opened EdgeSelection

  datatype CellType = None | Room | Hallway | Door

  datatype Pos = Pos(x: int, y: int)

  /** A Unity `RectInt`: its position and its size. */
  datatype RectInt = RectInt(x: int, y: int, width: int, height: int)

  /** The grid as values: `g[x][y]` is the cell at `Pos(x, y)`. */
  type CellGrid = seq<seq<CellType>>

  // ---------------------------------------------------------------------
  // Rooms
  // ---------------------------------------------------------------------

  /** `p` is one of the cells of `r`. */
  predicate Inside(p: Pos, r: RectInt)
  {
    r.x <= p.x < r.x + r.width && r.y <= p.y < r.y + r.height
  }

  /** `Room.Intersect`: the two boxes overlap on both axes. */
  predicate Intersect(a: RectInt, b: RectInt)
  {
    !((a.x >= (b.x + b.width)) || ((a.x + a.width) <= b.x)
      || (a.y >= (b.y + b.height)) || ((a.y + a.height) <= b.y))
  }

  /** A box with at least one cell. */
  predicate NonEmpty(r: RectInt)
  {
    r.width >= 1 && r.height >= 1
  }

  function Max(a: int, b: int): int { if a < b then b else a }

  function Abs(a: int): nat { if a < 0 then -a else a }

  /** Two non-empty boxes intersect exactly when they share a cell; so the test is symmetric. */
  lemma IntersectIffSharedCell(a: RectInt, b: RectInt)
    requires NonEmpty(a) && NonEmpty(b)
    ensures Intersect(a, b) <==> exists p :: Inside(p, a) && Inside(p, b)
    ensures Intersect(a, b) <==> Intersect(b, a)
  {
    if Intersect(a, b) {
      var p := Pos(Max(a.x, b.x), Max(a.y, b.y));
      assert Inside(p, a) && Inside(p, b);
    }
  }

  /** The buffer of a candidate: the room grown by one cell on every side. */
  function Buffer(r: RectInt): RectInt
  {
    RectInt(r.x - 1, r.y - 1, r.width + 2, r.height + 2)
  }

  /**
   * A room that misses another room's buffer has no cell next to any of
   * that room's cells, not even diagonally: at least one cell lies between.
   */
  lemma BufferSeparates(a: RectInt, r: RectInt, p: Pos, q: Pos)
    requires !Intersect(a, Buffer(r))
    requires Inside(p, a) && Inside(q, r)
    ensures Abs(p.x - q.x) >= 2 || Abs(p.y - q.y) >= 2
  {
  }

  /** Missing a buffer is symmetric: `a` misses `r`'s buffer iff `r` misses `a`'s. */
  lemma BufferSymmetric(a: RectInt, r: RectInt)
    ensures Intersect(a, Buffer(r)) <==> Intersect(r, Buffer(a))
  {
  }

  /** No accepted room intersects the buffer. */
  predicate Clear(rooms: seq<RectInt>, buffer: RectInt)
  {
    forall i :: 0 <= i < |rooms| ==> !Intersect(rooms[i], buffer)
  }

  /** The bounds test of `GenerateRooms`: `xMax` and `yMax` must be strictly below the size. */
  predicate InsideGrid(r: RectInt, sizeX: int, sizeY: int)
  {
    !(r.x < 0 || r.x + r.width >= sizeX || r.y < 0 || r.y + r.height >= sizeY)
  }

  /** A candidate is accepted when its buffer is clear and it lies inside the grid. */
  predicate Accepts(rooms: seq<RectInt>, r: RectInt, sizeX: int, sizeY: int)
  {
    Clear(rooms, Buffer(r)) && InsideGrid(r, sizeX, sizeY)
  }

  /** The candidates accepted one after the other, given the rooms already placed. */
  function PlaceAll(rooms: seq<RectInt>, candidates: seq<RectInt>, sizeX: int, sizeY: int): seq<RectInt>
  {
    if |candidates| == 0 then []
    else
      var n := |candidates| - 1;
      var placed := PlaceAll(rooms, candidates[..n], sizeX, sizeY);
      if Accepts(rooms + placed, candidates[n], sizeX, sizeY) then placed + [candidates[n]] else placed
  }

  /** Each room misses the buffer of every room placed after it. */
  predicate Separated(rooms: seq<RectInt>)
  {
    forall i, j :: 0 <= i < j < |rooms| ==> !Intersect(rooms[i], Buffer(rooms[j]))
  }

  /** `p` lies in one of the rooms. */
  predicate InAny(p: Pos, rooms: seq<RectInt>)
  {
    exists k :: 0 <= k < |rooms| && Inside(p, rooms[k])
  }

  /**
   * Placement keeps the rooms separated, places only candidates that lie
   * strictly inside the grid, in their order, and never more rooms than
   * candidates.
   */
  lemma {:induction false} PlaceAllProperties(rooms: seq<RectInt>, candidates: seq<RectInt>, sizeX: int, sizeY: int)
    requires Separated(rooms)
    ensures var placed := PlaceAll(rooms, candidates, sizeX, sizeY);
            && Separated(rooms + placed)
            && |placed| <= |candidates|
            && (forall k :: 0 <= k < |placed| ==> InsideGrid(placed[k], sizeX, sizeY) && placed[k] in candidates)
  {
    if |candidates| > 0 {
      var n := |candidates| - 1;
      var placed := PlaceAll(rooms, candidates[..n], sizeX, sizeY);
      PlaceAllProperties(rooms, candidates[..n], sizeX, sizeY);
      var all := rooms + placed;
      if Accepts(all, candidates[n], sizeX, sizeY) {
        assert rooms + (placed + [candidates[n]]) == all + [candidates[n]];
        forall i, j | 0 <= i < j < |all| + 1
          ensures !Intersect((all + [candidates[n]])[i], Buffer((all + [candidates[n]])[j]))
        {
          if j == |all| {
            assert !Intersect(all[i], Buffer(candidates[n]));
          }
        }
      }
      forall k | 0 <= k < |PlaceAll(rooms, candidates, sizeX, sizeY)|
        ensures PlaceAll(rooms, candidates, sizeX, sizeY)[k] in candidates
      {
        if k < |placed| {
          assert placed[k] in candidates[..n];
        }
      }
    }
  }

  /** Two different separated non-empty rooms have no touching cells. */
  lemma SeparatedRoomsApart(rooms: seq<RectInt>, i: nat, j: nat, p: Pos, q: Pos)
    requires Separated(rooms)
    requires i < |rooms| && j < |rooms| && i != j
    requires Inside(p, rooms[i]) && Inside(q, rooms[j])
    ensures Abs(p.x - q.x) >= 2 || Abs(p.y - q.y) >= 2
  {
    if i < j {
      BufferSeparates(rooms[i], rooms[j], p, q);
    } else {
      BufferSymmetric(rooms[j], rooms[i]);
      BufferSeparates(rooms[i], rooms[j], p, q);
    }
  }

  // ---------------------------------------------------------------------
  // The path finder's cost policy
  // ---------------------------------------------------------------------

  /** What the cost callback returns for a step. */
  datatype PathCost = PathCost(cost: nat, traversable: bool)

  /**
   * The cost of stepping onto a cell of type `cell`, on top of the
   * heuristic distance to the goal (a float in the source, a weight here).
   */
  function StepCost(cell: CellType, heuristic: nat): (r: PathCost)
    ensures r.traversable
    ensures heuristic <= r.cost <= heuristic + 10
  {
    var extra := match cell
      case Room => 10
      case None => 5
      case Hallway => 1
      case Door => 0;
    PathCost(heuristic + extra, true)
  }

  /**
   * The policy prefers doors to hallways, hallways to empty cells and
   * empty cells to rooms, whatever the heuristic.
   */
  lemma StepCostOrder(heuristic: nat)
    ensures StepCost(Door, heuristic).cost < StepCost(Hallway, heuristic).cost
    ensures StepCost(Hallway, heuristic).cost < StepCost(None, heuristic).cost
    ensures StepCost(None, heuristic).cost < StepCost(Room, heuristic).cost
    ensures StepCost(Room, heuristic).cost == heuristic + 10
  {
  }

  // ---------------------------------------------------------------------
  // Neighbours
  // ---------------------------------------------------------------------

  /** `q` is one step from `p` along an axis. */
  predicate Adjacent(p: Pos, q: Pos)
  {
    Abs(p.x - q.x) + Abs(p.y - q.y) == 1
  }

  /** `GetNeighbors`: the four cells one step away, right, left, up, down. */
  function GetNeighbors(piece: Pos): (r: seq<Pos>)
    ensures |r| == 4
    ensures forall q :: q in r <==> Adjacent(piece, q)
  {
    [Pos(piece.x + 1, piece.y), Pos(piece.x - 1, piece.y), Pos(piece.x, piece.y + 1), Pos(piece.x, piece.y - 1)]
  }

  // ---------------------------------------------------------------------
  // Carving a path into the grid
  // ---------------------------------------------------------------------

  predicate InBounds(g: CellGrid, p: Pos)
  {
    0 <= p.x < |g| && 0 <= p.y < |g[p.x]|
  }

  function At(g: CellGrid, p: Pos): CellType
    requires InBounds(g, p)
  {
    g[p.x][p.y]
  }

  /** Every cell of the path is on the grid. */
  predicate PathInside(g: CellGrid, path: seq<Pos>)
  {
    forall i :: 0 <= i < |path| ==> InBounds(g, path[i])
  }

  /** A cell a path may carve a corridor through: empty, or already a hallway. */
  predicate Opens(c: CellType)
  {
    c == None || c == Hallway
  }

  /** `p` is among the first `n` cells of the path. */
  predicate OnPath(path: seq<Pos>, n: nat, p: Pos)
    requires n <= |path|
  {
    exists i :: 0 <= i < n && path[i] == p
  }

  /**
   * Among the first `n` cells, `p` is followed or preceded by a cell that
   * was empty or a hallway before carving.
   */
  predicate NextToCorridor(g: CellGrid, path: seq<Pos>, n: nat, p: Pos)
    requires n <= |path| && PathInside(g, path)
  {
    exists i :: 1 <= i < n
      && ((path[i - 1] == p && Opens(At(g, path[i]))) || (path[i] == p && Opens(At(g, path[i - 1]))))
  }

  /**
   * The cell at `p` once the first `n` cells of the path are carved into
   * `g`: off the path nothing changes; on it an empty cell becomes a
   * hallway, and a room cell becomes a door when it is next, along the
   * path, to a cell that became or was a hallway.
   */
  function Carved(g: CellGrid, path: seq<Pos>, n: nat, p: Pos): CellType
    requires n <= |path| && PathInside(g, path) && InBounds(g, p)
  {
    if !OnPath(path, n, p) then At(g, p)
    else match At(g, p)
      case None => Hallway
      case Hallway => Hallway
      case Door => Door
      case Room => if NextToCorridor(g, path, n, p) then Door else Room
  }

  /** The first `n` columns of the grid after carving the path. */
  function CarveColumns(g: CellGrid, path: seq<Pos>, n: nat): (r: CellGrid)
    requires PathInside(g, path) && n <= |g|
    ensures |r| == n && forall x :: 0 <= x < n ==> |r[x]| == |g[x]|
  {
    if n == 0 then []
    else
      CarveColumns(g, path, n - 1) +
        [seq(|g[n - 1]|, y requires 0 <= y < |g[n - 1]| => Carved(g, path, |path|, Pos(n - 1, y)))]
  }

  /** The whole grid after carving the path. */
  function CarveGrid(g: CellGrid, path: seq<Pos>): (r: CellGrid)
    requires PathInside(g, path)
    ensures |r| == |g| && forall x :: 0 <= x < |g| ==> |r[x]| == |g[x]|
  {
    CarveColumns(g, path, |g|)
  }

  lemma {:induction false} CarveColumnsAt(g: CellGrid, path: seq<Pos>, n: nat, p: Pos)
    requires PathInside(g, path) && InBounds(g, p) && p.x < n <= |g|
    ensures CarveColumns(g, path, n)[p.x][p.y] == Carved(g, path, |path|, p)
  {
    if p.x < n - 1 {
      CarveColumnsAt(g, path, n - 1, p);
    }
  }

  /** Each cell of the carved grid is the closed form `Carved` at that cell. */
  lemma CarveGridAt(g: CellGrid, path: seq<Pos>, p: Pos)
    requires PathInside(g, path) && InBounds(g, p)
    ensures InBounds(CarveGrid(g, path), p)
    ensures At(CarveGrid(g, path), p) == Carved(g, path, |path|, p)
  {
    CarveColumnsAt(g, path, |g|, p);
  }

  /** A cell on the path ends a hallway exactly when it was empty or a hallway. */
  lemma CarvedHallwayIff(g: CellGrid, path: seq<Pos>, n: nat, p: Pos)
    requires n <= |path| && PathInside(g, path) && InBounds(g, p)
    requires OnPath(path, n, p)
    ensures Carved(g, path, n, p) == Hallway <==> Opens(At(g, p))
  {
  }

  /**
   * Carving turns empty path cells into hallways, never turns a room into
   * a hallway, leaves cells off the path alone, and changes nothing else
   * than empty cells to hallways and room cells to doors.
   */
  lemma CarveChanges(g: CellGrid, path: seq<Pos>, p: Pos)
    requires PathInside(g, path) && InBounds(g, p)
    ensures var after := Carved(g, path, |path|, p);
            && (At(g, p) == None && p in path ==> after == Hallway)
            && (At(g, p) == Room ==> after != Hallway)
            && (p !in path ==> after == At(g, p))
            && (after == At(g, p) || (At(g, p) == None && after == Hallway) || (At(g, p) == Room && after == Door))
  {
    if p in path {
      var i :| 0 <= i < |path| && path[i] == p;
      assert OnPath(path, |path|, p);
    }
  }

  /**
   * After carving, no two consecutive path cells are a room and a
   * hallway, in either order: the room side has become a door.
   */
  lemma CarveLeavesNoRoomBesideHallway(g: CellGrid, path: seq<Pos>, i: nat)
    requires PathInside(g, path)
    requires 1 <= i < |path|
    ensures var a, b := Carved(g, path, |path|, path[i - 1]), Carved(g, path, |path|, path[i]);
            !(a == Room && b == Hallway) && !(a == Hallway && b == Room)
  {
    assert OnPath(path, |path|, path[i - 1]) && OnPath(path, |path|, path[i]);
  }

  /**
   * Every door carving creates faces a hallway: the room cell is followed
   * or preceded on the path by a cell that is a hallway after carving.
   */
  lemma CarvedDoorsFaceHallways(g: CellGrid, path: seq<Pos>, p: Pos) returns (i: nat, q: Pos)
    requires PathInside(g, path) && InBounds(g, p)
    requires At(g, p) == Room && Carved(g, path, |path|, p) == Door
    ensures 1 <= i < |path| && q in path && InBounds(g, q)
    ensures (path[i - 1] == p && q == path[i]) || (path[i] == p && q == path[i - 1])
    ensures Carved(g, path, |path|, q) == Hallway
  {
    assert NextToCorridor(g, path, |path|, p);
    i :| 1 <= i < |path|
      && ((path[i - 1] == p && Opens(At(g, path[i]))) || (path[i] == p && Opens(At(g, path[i - 1]))));
    var j := if path[i - 1] == p && Opens(At(g, path[i])) then i else i - 1;
    q := path[j];
    assert Opens(At(g, q));
    assert OnPath(path, |path|, q) by {
      assert 0 <= j < |path| && path[j] == q;
    }
    CarvedHallwayIff(g, path, |path|, q);
  }

  /** A path cell is open after carving exactly when it was open before. */
  lemma CarvePreservesOpen(g: CellGrid, path: seq<Pos>, i: nat)
    requires PathInside(g, path) && i < |path|
    ensures InBounds(CarveGrid(g, path), path[i])
    ensures Opens(At(CarveGrid(g, path), path[i])) <==> Opens(At(g, path[i]))
  {
    CarveGridAt(g, path, path[i]);
    assert OnPath(path, |path|, path[i]);
  }

  /** Carving the same path twice changes nothing more. */
  lemma CarveIdempotent(g: CellGrid, path: seq<Pos>, p: Pos)
    requires PathInside(g, path) && InBounds(g, p)
    ensures PathInside(CarveGrid(g, path), path)
    ensures Carved(CarveGrid(g, path), path, |path|, p) == Carved(g, path, |path|, p)
  {
    var h := CarveGrid(g, path);
    forall i | 0 <= i < |path| ensures InBounds(h, path[i]) && (Opens(At(h, path[i])) <==> Opens(At(g, path[i]))) {
      CarvePreservesOpen(g, path, i);
    }
    assert NextToCorridor(h, path, |path|, p) <==> NextToCorridor(g, path, |path|, p);
    CarveGridAt(g, path, p);
  }

  // ---------------------------------------------------------------------
  // One step of the carving loop
  // ---------------------------------------------------------------------

  lemma OnPathExtend(path: seq<Pos>, i: nat, c: Pos)
    requires i < |path|
    ensures OnPath(path, i + 1, c) <==> OnPath(path, i, c) || c == path[i]
  {
    if c == path[i] {
      assert path[i] == c;
    }
  }

  lemma NextToCorridorExtend(g: CellGrid, path: seq<Pos>, i: nat, c: Pos)
    requires PathInside(g, path) && i < |path|
    ensures NextToCorridor(g, path, i + 1, c) <==>
              NextToCorridor(g, path, i, c)
              || (i >= 1 && ((path[i - 1] == c && Opens(At(g, path[i]))) || (path[i] == c && Opens(At(g, path[i - 1])))))
  {
  }

  /**
   * The carving loop's step `i` on the grid carved up to `i`: an empty
   * current cell becomes a hallway; then, with the previous cell, a room
   * beside a hallway becomes a door. The result is the grid carved up to
   * `i + 1`.
   */
  lemma CarveStep(g: CellGrid, path: seq<Pos>, i: nat, c: Pos)
    requires PathInside(g, path) && i < |path| && InBounds(g, c)
    ensures var cur := path[i];
            var a := Carved(g, path, i, cur);
            var a1 := if a == None then Hallway else a;
            if i == 0 || path[i - 1] == cur then
              Carved(g, path, i + 1, c) == if c == cur then a1 else Carved(g, path, i, c)
            else
              var prev := path[i - 1];
              var b := Carved(g, path, i, prev);
              Carved(g, path, i + 1, c) ==
                if c == prev && a1 == Hallway && b == Room then Door
                else if c == cur && !(a1 == Hallway && b == Room) && a1 == Room && b == Hallway then Door
                else if c == cur then a1
                else Carved(g, path, i, c)
  {
    var cur := path[i];
    OnPathExtend(path, i, c);
    NextToCorridorExtend(g, path, i, c);
    if i > 0 {
      var prev := path[i - 1];
      assert OnPath(path, i, prev);
      if OnPath(path, i, cur) {
        CarvedHallwayIff(g, path, i, cur);
      }
      CarvedHallwayIff(g, path, i, prev);
    }
  }

  // ---------------------------------------------------------------------
  // Hallway pieces and the pass over all selected edges
  // ---------------------------------------------------------------------

  /** The first `n` path cells that are hallways on the grid `g`, in path order. */
  function HallwayCells(g: CellGrid, path: seq<Pos>, n: nat): seq<Pos>
    requires n <= |path| && PathInside(g, path)
  {
    if n == 0 then []
    else HallwayCells(g, path, n - 1) + (if At(g, path[n - 1]) == Hallway then [path[n - 1]] else [])
  }

  /**
   * Read right after carving, the hallway cells of a path are exactly the
   * path cells that were empty or hallways before it was carved.
   */
  lemma {:induction false} CarvedHallwayCells(g: CellGrid, path: seq<Pos>, n: nat, q: Pos)
    requires n <= |path| && PathInside(g, path)
    ensures PathInside(CarveGrid(g, path), path)
    ensures q in HallwayCells(CarveGrid(g, path), path, n) <==>
              (exists i :: 0 <= i < n && path[i] == q) && Opens(At(g, q))
  {
    var h := CarveGrid(g, path);
    if n > 0 {
      CarvedHallwayCells(g, path, n - 1, q);
      var last := path[n - 1];
      assert OnPath(path, |path|, last);
      CarvedHallwayIff(g, path, |path|, last);
      CarveGridAt(g, path, last);
      if q == last && Opens(At(g, q)) {
        assert path[n - 1] == q;
      }
    }
  }

  /** Every path found lies on the grid. */
  predicate AllInside(g: CellGrid, paths: seq<Wrappers.Option<seq<Pos>>>)
  {
    forall k :: 0 <= k < |paths| && paths[k].Some? ==> PathInside(g, paths[k].value)
  }

  /** The grid after carving the first `n` paths found, one per selected edge, in order. */
  function CarveAll(g: CellGrid, paths: seq<Wrappers.Option<seq<Pos>>>, n: nat): (r: CellGrid)
    requires n <= |paths| && AllInside(g, paths)
    ensures |r| == |g| && forall x :: 0 <= x < |g| ==> |r[x]| == |g[x]|
  {
    if n == 0 then g
    else
      var h := CarveAll(g, paths, n - 1);
      match paths[n - 1]
      case None => h
      case Some(path) =>
        assert PathInside(h, path) by {
          assert PathInside(g, path);
        }
        CarveGrid(h, path)
  }

  /**
   * The hallway pieces list after carving the first `n` paths found, when
   * it held `start` before the first.
   */
  function Recorded(start: seq<Pos>, g: CellGrid, paths: seq<Wrappers.Option<seq<Pos>>>, n: nat): (r: seq<Pos>)
    requires n <= |paths| && AllInside(g, paths)
    ensures |start| <= |r| && r[..|start|] == start
  {
    if n == 0 then start
    else
      Recorded(start, g, paths, n - 1) +
        match paths[n - 1]
        case None => []
        case Some(path) =>
          assert PathInside(CarveAll(g, paths, n), path) by {
            assert PathInside(g, path);
          }
          HallwayCells(CarveAll(g, paths, n), path, |path|)
  }


  /** From index `from` on, every piece lies on `g` and is a hallway there. */
  predicate HallwaysFrom(g: CellGrid, pieces: seq<Pos>, from: nat)
  {
    forall j :: from <= j < |pieces| ==> InBounds(g, pieces[j]) && At(g, pieces[j]) == Hallway
  }

  /**
   * Every hallway piece recorded by the pass is a hallway cell of the grid
   * once all paths are carved: later paths never turn a hallway back.
   */
  lemma {:induction false} RecordedAreHallways(start: seq<Pos>, g: CellGrid, paths: seq<Wrappers.Option<seq<Pos>>>, n: nat)
    requires n <= |paths| && AllInside(g, paths)
    ensures HallwaysFrom(CarveAll(g, paths, n), Recorded(start, g, paths, n), |start|)
  {
    if n > 0 {
      RecordedAreHallways(start, g, paths, n - 1);
      RecordedHallwaysStep(start, g, paths, n);
    }
  }

  /** Handling selected edge `n - 1` keeps the recorded pieces all hallways. */
  lemma RecordedHallwaysStep(start: seq<Pos>, g: CellGrid, paths: seq<Wrappers.Option<seq<Pos>>>, n: nat)
    requires 0 < n <= |paths| && AllInside(g, paths)
    requires HallwaysFrom(CarveAll(g, paths, n - 1), Recorded(start, g, paths, n - 1), |start|)
    ensures HallwaysFrom(CarveAll(g, paths, n), Recorded(start, g, paths, n), |start|)
  {
    var prefix := Recorded(start, g, paths, n - 1);
    CarveAllKeepsHallways(g, paths, n - 1, prefix, |start|);
    RecordedStep(start, g, paths, n - 1);
    if paths[n - 1].Some? {
      AppendHallwayCells(CarveAll(g, paths, n), prefix, paths[n - 1].value, |start|);
    }
  }

  /** Carving the next path keeps every listed hallway a hallway. */
  lemma CarveAllKeepsHallways(g: CellGrid, paths: seq<Wrappers.Option<seq<Pos>>>, k: nat, pieces: seq<Pos>, from: nat)
    requires AllInside(g, paths) && k < |paths|
    requires HallwaysFrom(CarveAll(g, paths, k), pieces, from)
    ensures HallwaysFrom(CarveAll(g, paths, k + 1), pieces, from)
  {
    CarveAllStep(g, paths, k);
    if paths[k].Some? {
      CarveKeepsHallways(CarveAll(g, paths, k), paths[k].value, pieces, from);
    }
  }

  /** Carving a path keeps every listed hallway a hallway. */
  lemma CarveKeepsHallways(g: CellGrid, path: seq<Pos>, pieces: seq<Pos>, from: nat)
    requires PathInside(g, path) && HallwaysFrom(g, pieces, from)
    ensures HallwaysFrom(CarveGrid(g, path), pieces, from)
  {
    forall j | from <= j < |pieces|
      ensures InBounds(CarveGrid(g, path), pieces[j]) && At(CarveGrid(g, path), pieces[j]) == Hallway
    {
      CarveKeepsHallway(g, path, pieces[j]);
    }
  }

  /** Appending a path's hallway cells, read on the same grid, keeps the list all hallways. */
  lemma AppendHallwayCells(g: CellGrid, pieces: seq<Pos>, path: seq<Pos>, from: nat)
    requires PathInside(g, path) && HallwaysFrom(g, pieces, from) && from <= |pieces|
    ensures HallwaysFrom(g, pieces + HallwayCells(g, path, |path|), from)
  {
    var cells := HallwayCells(g, path, |path|);
    forall j | from <= j < |pieces + cells|
      ensures InBounds(g, (pieces + cells)[j]) && At(g, (pieces + cells)[j]) == Hallway
    {
      if j >= |pieces| {
        HallwayCellsAreHallways(g, path, |path|, j - |pieces|);
      }
    }
  }

  /** Carving never turns a hallway cell into anything else. */
  lemma CarveKeepsHallway(g: CellGrid, path: seq<Pos>, p: Pos)
    requires PathInside(g, path) && InBounds(g, p) && At(g, p) == Hallway
    ensures InBounds(CarveGrid(g, path), p) && At(CarveGrid(g, path), p) == Hallway
  {
    CarveChanges(g, path, p);
    CarveGridAt(g, path, p);
  }

  /** Carving never turns a door cell into anything else. */
  lemma CarveKeepsDoor(g: CellGrid, path: seq<Pos>, p: Pos)
    requires PathInside(g, path) && InBounds(g, p) && At(g, p) == Door
    ensures InBounds(CarveGrid(g, path), p) && At(CarveGrid(g, path), p) == Door
  {
    CarveChanges(g, path, p);
    CarveGridAt(g, path, p);
  }

  /**
   * A door beside a hallway after the first `k` paths is still a door
   * beside a hallway after the first `n`: later paths change neither.
   */
  lemma {:induction false} CarveAllKeepsDoorway(g: CellGrid, paths: seq<Wrappers.Option<seq<Pos>>>, k: nat, n: nat, p: Pos, q: Pos)
    requires AllInside(g, paths) && k <= n <= |paths|
    requires InBounds(CarveAll(g, paths, k), p) && At(CarveAll(g, paths, k), p) == Door
    requires InBounds(CarveAll(g, paths, k), q) && At(CarveAll(g, paths, k), q) == Hallway
    ensures InBounds(CarveAll(g, paths, n), p) && At(CarveAll(g, paths, n), p) == Door
    ensures InBounds(CarveAll(g, paths, n), q) && At(CarveAll(g, paths, n), q) == Hallway
  {
    if n > k {
      CarveAllKeepsDoorway(g, paths, k, n - 1, p, q);
      CarveAllStep(g, paths, n - 1);
      if paths[n - 1].Some? {
        CarveKeepsDoor(CarveAll(g, paths, n - 1), paths[n - 1].value, p);
        CarveKeepsHallway(CarveAll(g, paths, n - 1), paths[n - 1].value, q);
      }
    }
  }

  /** Each cell `HallwayCells` picks is a hallway on the grid it reads. */
  lemma {:induction false} HallwayCellsAreHallways(g: CellGrid, path: seq<Pos>, n: nat, j: nat)
    requires n <= |path| && PathInside(g, path) && j < |HallwayCells(g, path, n)|
    ensures InBounds(g, HallwayCells(g, path, n)[j]) && At(g, HallwayCells(g, path, n)[j]) == Hallway
  {
    var prefix := HallwayCells(g, path, n - 1);
    if j < |prefix| {
      HallwayCellsAreHallways(g, path, n - 1, j);
    } else {
      assert HallwayCells(g, path, n)[j] == path[n - 1];
    }
  }

  /** Carving path `k` extends the grid fold by that path's carve. */
  lemma CarveAllStep(g: CellGrid, paths: seq<Wrappers.Option<seq<Pos>>>, k: nat)
    requires AllInside(g, paths) && k < |paths|
    ensures paths[k].Some? ==> PathInside(CarveAll(g, paths, k), paths[k].value)
    ensures paths[k].None? ==> CarveAll(g, paths, k + 1) == CarveAll(g, paths, k)
    ensures paths[k].Some? ==> CarveAll(g, paths, k + 1) == CarveGrid(CarveAll(g, paths, k), paths[k].value)
  {
    if paths[k].Some? {
      assert PathInside(g, paths[k].value);
    }
  }

  /** Carving path `k` extends the hallway pieces by its hallway cells on the carved grid. */
  lemma RecordedStep(start: seq<Pos>, g: CellGrid, paths: seq<Wrappers.Option<seq<Pos>>>, k: nat)
    requires AllInside(g, paths) && k < |paths|
    ensures paths[k].Some? ==> PathInside(CarveAll(g, paths, k + 1), paths[k].value)
    ensures paths[k].None? ==> Recorded(start, g, paths, k + 1) == Recorded(start, g, paths, k)
    ensures paths[k].Some? ==>
              Recorded(start, g, paths, k + 1) ==
                Recorded(start, g, paths, k) + HallwayCells(CarveAll(g, paths, k + 1), paths[k].value, |paths[k].value|)
  {
    if paths[k].Some? {
      assert PathInside(g, paths[k].value);
    }
  }

  // ---------------------------------------------------------------------
  // The grid as an array
  // ---------------------------------------------------------------------

  /** The array holds exactly the cells `g`. */
  ghost predicate Holds(a: array2<CellType>, g: CellGrid)
    reads a
  {
    && |g| == a.Length0
    && (forall x :: 0 <= x < |g| ==> |g[x]| == a.Length1)
    && (forall x, y :: 0 <= x < a.Length0 && 0 <= y < a.Length1 ==> a[x, y] == g[x][y])
  }

  /** The cells of the array, as values. */
  ghost function Cells(a: array2<CellType>): (g: CellGrid)
    reads a
    ensures Holds(a, g)
  {
    seq(a.Length0, x requires 0 <= x < a.Length0 reads a =>
      seq(a.Length1, y requires 0 <= y < a.Length1 reads a => a[x, y]))
  }

  lemma HoldsUnique(a: array2<CellType>, g1: CellGrid, g2: CellGrid)
    requires Holds(a, g1) && Holds(a, g2)
    ensures g1 == g2
  {
    forall x | 0 <= x < |g1| ensures g1[x] == g2[x] {
    }
  }

  lemma InAnyAppend(p: Pos, rooms: seq<RectInt>, r: RectInt)
    ensures InAny(p, rooms + [r]) <==> InAny(p, rooms) || Inside(p, r)
  {
    if Inside(p, r) {
      assert (rooms + [r])[|rooms|] == r;
    }
    if InAny(p, rooms) {
      var k :| 0 <= k < |rooms| && Inside(p, rooms[k]);
      assert (rooms + [r])[k] == rooms[k];
    }
  }

  // ---------------------------------------------------------------------
  // The generator
  // ---------------------------------------------------------------------

  class Generator {
    const grid: array2<CellType>
    var rooms: seq<RectInt>
    var selectedEdges: seq<Edge<nat>>
    var hallwayPieces: seq<Pos>
    var loopRate: real

    /**
     * `Start`, without the seed: an all-empty grid of the given size, no
     * rooms, and a loop rate of 0.125 when the configured one is not positive.
     */
    constructor (sizeX: nat, sizeY: nat, loopRate: real)
      ensures grid.Length0 == sizeX && grid.Length1 == sizeY
      ensures forall x, y :: 0 <= x < sizeX && 0 <= y < sizeY ==> grid[x, y] == None
      ensures rooms == [] && selectedEdges == [] && hallwayPieces == []
      ensures this.loopRate == if loopRate <= 0.0 then 0.125 else loopRate
    {
      grid := new CellType[sizeX, sizeY]((x, y) => None);
      rooms := [];
      selectedEdges := [];
      hallwayPieces := [];
      this.loopRate := if loopRate <= 0.0 then 0.125 else loopRate;
    }

    /** The scan of the accepted rooms: is the buffer clear of all of them? */
    method BufferClear(buffer: RectInt) returns (add: bool)
      ensures add <==> Clear(rooms, buffer)
    {
      add := true;
      for i := 0 to |rooms|
        invariant forall k :: 0 <= k < i ==> !Intersect(rooms[k], buffer)
      {
        if Intersect(rooms[i], buffer) {
          add := false;
          break;
        }
      }
    }

    /** Marks every cell of an accepted room as `Room`. */
    method StampRoom(r: RectInt)
      requires InsideGrid(r, grid.Length0, grid.Length1) && NonEmpty(r)
      modifies grid
      ensures forall x, y :: 0 <= x < grid.Length0 && 0 <= y < grid.Length1 ==>
                grid[x, y] == if Inside(Pos(x, y), r) then Room else old(grid[x, y])
    {
      for py := r.y to r.y + r.height
        invariant forall x, y :: 0 <= x < grid.Length0 && 0 <= y < grid.Length1 ==>
                    grid[x, y] == if r.x <= x < r.x + r.width && r.y <= y < py then Room else old(grid[x, y])
      {
        for px := r.x to r.x + r.width
          invariant forall x, y :: 0 <= x < grid.Length0 && 0 <= y < grid.Length1 ==>
                      grid[x, y] == if (r.x <= x < r.x + r.width && r.y <= y < py) || (y == py && r.x <= x < px)
                                    then Room else old(grid[x, y])
        {
          grid[px, py] := Room;
        }
      }
    }

    /**
     * `GenerateRooms`, with the random candidates (location and size of
     * each of the `roomCount` attempts) given in order: the accepted ones
     * are appended to `rooms` and stamped into the grid.
     */
    method GenerateRooms(candidates: seq<RectInt>)
      requires forall i :: 0 <= i < |candidates| ==> NonEmpty(candidates[i])
      modifies this, grid
      ensures rooms == old(rooms) + PlaceAll(old(rooms), candidates, grid.Length0, grid.Length1)
      ensures forall x, y :: 0 <= x < grid.Length0 && 0 <= y < grid.Length1 ==>
                grid[x, y] == if InAny(Pos(x, y), PlaceAll(old(rooms), candidates, grid.Length0, grid.Length1))
                              then Room else old(grid[x, y])
      ensures selectedEdges == old(selectedEdges) && hallwayPieces == old(hallwayPieces) && loopRate == old(loopRate)
    {
      ghost var placed: seq<RectInt> := [];
      for i := 0 to |candidates|
        invariant placed == PlaceAll(old(rooms), candidates[..i], grid.Length0, grid.Length1)
        invariant rooms == old(rooms) + placed
        invariant forall x, y :: 0 <= x < grid.Length0 && 0 <= y < grid.Length1 ==>
                    grid[x, y] == if InAny(Pos(x, y), placed) then Room else old(grid[x, y])
        invariant selectedEdges == old(selectedEdges) && hallwayPieces == old(hallwayPieces) && loopRate == old(loopRate)
      {
        assert candidates[..i + 1][..i] == candidates[..i];
        var newRoom := candidates[i];
        var buffer := Buffer(newRoom);
        var add := BufferClear(buffer);
        if newRoom.x < 0 || newRoom.x + newRoom.width >= grid.Length0
          || newRoom.y < 0 || newRoom.y + newRoom.height >= grid.Length1 {
          add := false;
        }
        if add {
          rooms := rooms + [newRoom];
          StampRoom(newRoom);
          forall p ensures InAny(p, placed + [newRoom]) <==> InAny(p, placed) || Inside(p, newRoom) {
            InAnyAppend(p, placed, newRoom);
          }
          placed := placed + [newRoom];
        }
      }
      assert candidates[..|candidates|] == candidates;
    }

    /**
     * `GenerateHallways`, given the triangulation's edges (between room
     * indices) and the draws made for the remaining edges.
     */
    method GenerateHallways(edges: seq<Edge<nat>>, draws: seq<real>) returns (ghost mst: seq<Edge<nat>>, ghost picks: seq<nat>)
      requires |edges| > 0
      requires |draws| >= |edges|
      modifies this
      ensures PrimRun(edges, edges[0].u, mst, picks)
      ensures TreeVertices(edges[0].u, mst) <= Endpoints(edges) + {edges[0].u}
      ensures TreeVertices(edges[0].u, mst) == Endpoints(edges) + {edges[0].u}
              || NoCrossing(edges, TreeVertices(edges[0].u, mst))
      ensures selectedEdges == Selection(edges, mst, draws, loopRate)
      ensures rooms == old(rooms) && hallwayPieces == old(hallwayPieces) && loopRate == old(loopRate)
    {
      selectedEdges, mst, picks := SelectEdges(edges, draws, loopRate);
    }

    /** Every cell of the path is on the grid. */
    predicate Fits(path: seq<Pos>)
      reads this
    {
      forall i :: 0 <= i < |path| ==> 0 <= path[i].x < grid.Length0 && 0 <= path[i].y < grid.Length1
    }

    /** The carving loop of `PathfindHallways` for one path found. */
    method CarvePath(path: seq<Pos>)
      requires Fits(path)
      modifies grid
      ensures PathInside(old(Cells(grid)), path)
      ensures Cells(grid) == CarveGrid(old(Cells(grid)), path)
    {
      ghost var before := Cells(grid);
      for i := 0 to |path|
        invariant forall x, y :: 0 <= x < grid.Length0 && 0 <= y < grid.Length1 ==>
                    grid[x, y] == Carved(before, path, i, Pos(x, y))
      {
        var current := path[i];
        if grid[current.x, current.y] == None {
          grid[current.x, current.y] := Hallway;
        }
        if i > 0 {
          var prev := path[i - 1];
          if grid[current.x, current.y] == Hallway && grid[prev.x, prev.y] == Room {
            grid[prev.x, prev.y] := Door;
          } else if grid[current.x, current.y] == Room && grid[prev.x, prev.y] == Hallway {
            grid[current.x, current.y] := Door;
          }
        }
        forall x, y | 0 <= x < grid.Length0 && 0 <= y < grid.Length1
          ensures grid[x, y] == Carved(before, path, i + 1, Pos(x, y))
        {
          CarveStep(before, path, i, Pos(x, y));
        }
      }
      forall x, y | 0 <= x < grid.Length0 && 0 <= y < grid.Length1
        ensures grid[x, y] == CarveGrid(before, path)[x][y]
      {
        CarveGridAt(before, path, Pos(x, y));
      }
      HoldsUnique(grid, Cells(grid), CarveGrid(before, path));
    }

    /**
     * The pass of `PathfindHallways` after carving a path: each path cell
     * that is now a hallway is appended to `hallwayPieces`.
     */
    method RecordHallways(path: seq<Pos>)
      requires Fits(path)
      modifies this
      ensures PathInside(Cells(grid), path)
      ensures hallwayPieces == old(hallwayPieces) + HallwayCells(Cells(grid), path, |path|)
      ensures rooms == old(rooms) && selectedEdges == old(selectedEdges) && loopRate == old(loopRate)
    {
      ghost var now := Cells(grid);
      for k := 0 to |path|
        invariant hallwayPieces == old(hallwayPieces) + HallwayCells(now, path, k)
        invariant rooms == old(rooms) && selectedEdges == old(selectedEdges) && loopRate == old(loopRate)
      {
        var pos := path[k];
        if grid[pos.x, pos.y] == Hallway {
          hallwayPieces := hallwayPieces + [pos];
        }
      }
    }

    /** The state after handling the first `k` selected edges. */
    ghost predicate Progress(before: CellGrid, start: seq<Pos>, paths: seq<Wrappers.Option<seq<Pos>>>, k: nat)
      reads this, grid
    {
      && AllInside(before, paths) && k <= |paths|
      && Cells(grid) == CarveAll(before, paths, k)
      && hallwayPieces == Recorded(start, before, paths, k)
    }

    /**
     * One iteration of `PathfindHallways`: the path found for selected edge
     * `k`, if any, is carved and its hallway cells recorded.
     */
    method PathfindStep(ghost before: CellGrid, ghost start: seq<Pos>, paths: seq<Wrappers.Option<seq<Pos>>>, k: nat)
      requires Progress(before, start, paths, k) && k < |paths|
      requires paths[k].Some? ==> Fits(paths[k].value)
      modifies this, grid
      ensures Progress(before, start, paths, k + 1)
      ensures rooms == old(rooms) && selectedEdges == old(selectedEdges) && loopRate == old(loopRate)
    {
      CarveAllStep(before, paths, k);
      RecordedStep(start, before, paths, k);
      var path := paths[k];
      if path.Some? {
        CarvePath(path.value);
        RecordHallways(path.value);
      }
    }

    /**
     * `PathfindHallways`, given the path the path finder returned for each
     * selected edge, in order (`None` when it found none).
     */
    method PathfindHallways(paths: seq<Wrappers.Option<seq<Pos>>>)
      requires |paths| == |selectedEdges|
      requires forall k :: 0 <= k < |paths| && paths[k].Some? ==> Fits(paths[k].value)
      modifies this, grid
      ensures AllInside(old(Cells(grid)), paths)
      ensures Cells(grid) == CarveAll(old(Cells(grid)), paths, |paths|)
      ensures hallwayPieces == Recorded(old(hallwayPieces), old(Cells(grid)), paths, |paths|)
      ensures HallwaysFrom(Cells(grid), hallwayPieces, |old(hallwayPieces)|)
      ensures rooms == old(rooms) && selectedEdges == old(selectedEdges) && loopRate == old(loopRate)
    {
      ghost var before := Cells(grid);
      ghost var start := hallwayPieces;
      assert AllInside(before, paths);
      for k := 0 to |selectedEdges|
        invariant Progress(before, start, paths, k)
        invariant rooms == old(rooms) && selectedEdges == old(selectedEdges) && loopRate == old(loopRate)
      {
        PathfindStep(before, start, paths, k);
      }
      RecordedAreHallways(start, before, paths, |paths|);
    }

    /** `isDoorway`: `checkDoor` is a door and `checkHall` a hallway on the grid. */
    predicate IsDoorway(checkDoor: Pos, checkHall: Pos)
      reads grid
      requires 0 <= checkDoor.x < grid.Length0 && 0 <= checkDoor.y < grid.Length1
    {
      if grid[checkDoor.x, checkDoor.y] != Door || checkHall.x < 0 || checkHall.x >= grid.Length0
        || checkHall.y < 0 || checkHall.y >= grid.Length1 || grid[checkHall.x, checkHall.y] != Hallway
      then false
      else true
    }

    /** `isDoorway` in terms of the grid's cells: a door, and a hallway on the grid. */
    lemma IsDoorwayCells(checkDoor: Pos, checkHall: Pos)
      requires 0 <= checkDoor.x < grid.Length0 && 0 <= checkDoor.y < grid.Length1
      ensures IsDoorway(checkDoor, checkHall) <==>
              && InBounds(Cells(grid), checkDoor) && At(Cells(grid), checkDoor) == Door
              && InBounds(Cells(grid), checkHall) && At(Cells(grid), checkHall) == Hallway
    {
    }

    /**
     * Right after a path is carved, each room cell it turned into a door
     * is a doorway towards a hallway cell beside it on the path.
     */
    lemma CarvedDoorsAreDoorways(before: CellGrid, path: seq<Pos>, p: Pos) returns (i: nat, q: Pos)
      requires PathInside(before, path) && InBounds(before, p)
      requires Cells(grid) == CarveGrid(before, path)
      requires At(before, p) == Room && Carved(before, path, |path|, p) == Door
      ensures 1 <= i < |path|
      ensures (path[i - 1] == p && path[i] == q) || (path[i] == p && path[i - 1] == q)
      ensures 0 <= p.x < grid.Length0 && 0 <= p.y < grid.Length1 && IsDoorway(p, q)
    {
      i, q := CarvedDoorsFaceHallways(before, path, p);
      CarveGridAt(before, path, p);
      CarveGridAt(before, path, q);
    }

    /**
     * After all paths are carved, when the rooms are drawn, each room cell
     * that path `k` turned into a door is still a doorway towards a
     * hallway cell beside it on that path.
     */
    lemma FinalDoorsAreDoorways(before: CellGrid, paths: seq<Wrappers.Option<seq<Pos>>>, k: nat, p: Pos)
      returns (i: nat, q: Pos)
      requires AllInside(before, paths) && k < |paths| && paths[k].Some?
      requires Cells(grid) == CarveAll(before, paths, |paths|)
      requires InBounds(before, p)
      requires var g := CarveAll(before, paths, k);
               At(g, p) == Room && Carved(g, paths[k].value, |paths[k].value|, p) == Door
      ensures var path := paths[k].value;
              && 1 <= i < |path|
              && ((path[i - 1] == p && path[i] == q) || (path[i] == p && path[i - 1] == q))
      ensures 0 <= p.x < grid.Length0 && 0 <= p.y < grid.Length1 && IsDoorway(p, q)
    {
      var g := CarveAll(before, paths, k);
      var path := paths[k].value;
      CarveAllStep(before, paths, k);
      i, q := CarvedDoorsFaceHallways(g, path, p);
      CarveGridAt(g, path, p);
      CarveGridAt(g, path, q);
      CarveAllKeepsDoorway(before, paths, k + 1, |paths|, p, q);
    }
  }
}
