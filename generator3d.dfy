/**
 * The 3D dungeon generator: room placement in a box of cells, the
 * selection of hallway edges between rooms, the flat and staircase cost
 * policy handed to the path finder, and the carving of each path found
 * into the grid, with its doors and staircases.
 *
 * Cells are addressed by `Pos(x, y, z)`, `y` being the vertical axis.
 * Rooms are Unity `BoundsInt` boxes: the cells inside are
 * `position.x <= px < position.x + size.x`, and likewise on `y` and `z`.
 */
module Generator3D {
  import Wrappers
  import opened Prim
  import EdgeSelection

  datatype CellType = None | Room | Hallway | Stairway | Door

  datatype Pos = Pos(x: int, y: int, z: int)

  function Add(a: Pos, b: Pos): Pos
  {
    Pos(a.x + b.x, a.y + b.y, a.z + b.z)
  }

  function Twice(a: Pos): Pos
  {
    Pos(2 * a.x, 2 * a.y, 2 * a.z)
  }

  /** A Unity `BoundsInt`: its position (the minimum corner) and its size. */
  datatype BoundsInt = BoundsInt(position: Pos, size: Pos)

  function Max(a: int, b: int): int { if a < b then b else a }

  function Abs(a: int): nat { if a < 0 then -a else a }

  // ---------------------------------------------------------------------
  // Rooms
  // ---------------------------------------------------------------------

  /** `p` is one of the cells of `b`. */
  predicate Inside(p: Pos, b: BoundsInt)
  {
    && b.position.x <= p.x < b.position.x + b.size.x
    && b.position.y <= p.y < b.position.y + b.size.y
    && b.position.z <= p.z < b.position.z + b.size.z
  }

  /** `Room.Intersect`: the two boxes overlap on all three axes. */
  predicate Intersect(a: BoundsInt, b: BoundsInt)
  {
    !((a.position.x >= (b.position.x + b.size.x)) || ((a.position.x + a.size.x) <= b.position.x)
      || (a.position.y >= (b.position.y + b.size.y)) || ((a.position.y + a.size.y) <= b.position.y)
      || (a.position.z >= (b.position.z + b.size.z)) || ((a.position.z + a.size.z) <= b.position.z))
  }

  /** A box with at least one cell. */
  predicate NonEmpty(b: BoundsInt)
  {
    b.size.x >= 1 && b.size.y >= 1 && b.size.z >= 1
  }

  /** Two non-empty boxes intersect exactly when they share a cell; so the test is symmetric. */
  lemma IntersectIffSharedCell(a: BoundsInt, b: BoundsInt)
    requires NonEmpty(a) && NonEmpty(b)
    ensures Intersect(a, b) <==> exists p :: Inside(p, a) && Inside(p, b)
    ensures Intersect(a, b) <==> Intersect(b, a)
  {
    if Intersect(a, b) {
      var p := Pos(Max(a.position.x, b.position.x), Max(a.position.y, b.position.y), Max(a.position.z, b.position.z));
      assert Inside(p, a) && Inside(p, b);
    }
  }

  /** The buffer of a candidate: the room grown by one cell in `x` and in `z`, not in `y`. */
  function Buffer(r: BoundsInt): BoundsInt
  {
    BoundsInt(Add(r.position, Pos(-1, 0, -1)), Add(r.size, Pos(2, 0, 2)))
  }

  /**
   * A room that misses another room's buffer has no cell beside any of
   * that room's cells on the same level, not even diagonally; rooms may
   * still sit directly on top of each other.
   */
  lemma BufferSeparates(a: BoundsInt, r: BoundsInt, p: Pos, q: Pos)
    requires !Intersect(a, Buffer(r))
    requires Inside(p, a) && Inside(q, r)
    ensures Abs(p.x - q.x) >= 2 || p.y != q.y || Abs(p.z - q.z) >= 2
  {
  }

  /**
   * Rooms on disjoint ranges of levels pass the buffer test both ways,
   * however they overlap in `x` and `z`: one may sit directly on top of
   * the other.
   */
  lemma StackedRoomsPass(a: BoundsInt, r: BoundsInt)
    requires a.position.y + a.size.y <= r.position.y || r.position.y + r.size.y <= a.position.y
    ensures !Intersect(a, Buffer(r)) && !Intersect(r, Buffer(a))
  {
  }

  /** Missing a buffer is symmetric: `a` misses `r`'s buffer iff `r` misses `a`'s. */
  lemma BufferSymmetric(a: BoundsInt, r: BoundsInt)
    ensures Intersect(a, Buffer(r)) <==> Intersect(r, Buffer(a))
  {
  }

  /** No accepted room intersects the buffer. */
  predicate Clear(rooms: seq<BoundsInt>, buffer: BoundsInt)
  {
    forall i :: 0 <= i < |rooms| ==> !Intersect(rooms[i], buffer)
  }

  /** The bounds test of `GenerateRooms`: `xMax`, `yMax` and `zMax` must be strictly below the size. */
  predicate InsideGrid(r: BoundsInt, size: Pos)
  {
    !(r.position.x < 0 || r.position.x + r.size.x >= size.x
      || r.position.y < 0 || r.position.y + r.size.y >= size.y
      || r.position.z < 0 || r.position.z + r.size.z >= size.z)
  }

  /** A candidate is accepted when its buffer is clear and it lies inside the grid. */
  predicate Accepts(rooms: seq<BoundsInt>, r: BoundsInt, size: Pos)
  {
    Clear(rooms, Buffer(r)) && InsideGrid(r, size)
  }

  /** The candidates accepted one after the other, given the rooms already placed. */
  function PlaceAll(rooms: seq<BoundsInt>, candidates: seq<BoundsInt>, size: Pos): seq<BoundsInt>
  {
    if |candidates| == 0 then []
    else
      var n := |candidates| - 1;
      var placed := PlaceAll(rooms, candidates[..n], size);
      if Accepts(rooms + placed, candidates[n], size) then placed + [candidates[n]] else placed
  }

  /** Each room misses the buffer of every room placed after it. */
  predicate Separated(rooms: seq<BoundsInt>)
  {
    forall i, j :: 0 <= i < j < |rooms| ==> !Intersect(rooms[i], Buffer(rooms[j]))
  }

  /** `p` lies in one of the rooms. */
  predicate InAny(p: Pos, rooms: seq<BoundsInt>)
  {
    exists k :: 0 <= k < |rooms| && Inside(p, rooms[k])
  }

  /**
   * Placement keeps the rooms separated, places only candidates that lie
   * strictly inside the grid, in their order, and never more rooms than
   * candidates.
   */
  lemma {:induction false} PlaceAllProperties(rooms: seq<BoundsInt>, candidates: seq<BoundsInt>, size: Pos)
    requires Separated(rooms)
    ensures var placed := PlaceAll(rooms, candidates, size);
            && Separated(rooms + placed)
            && |placed| <= |candidates|
            && (forall k :: 0 <= k < |placed| ==> InsideGrid(placed[k], size) && placed[k] in candidates)
  {
    if |candidates| > 0 {
      var n := |candidates| - 1;
      var placed := PlaceAll(rooms, candidates[..n], size);
      PlaceAllProperties(rooms, candidates[..n], size);
      var all := rooms + placed;
      if Accepts(all, candidates[n], size) {
        assert rooms + (placed + [candidates[n]]) == all + [candidates[n]];
        forall i, j | 0 <= i < j < |all| + 1
          ensures !Intersect((all + [candidates[n]])[i], Buffer((all + [candidates[n]])[j]))
        {
          if j == |all| {
            assert !Intersect(all[i], Buffer(candidates[n]));
          }
        }
      }
      forall k | 0 <= k < |PlaceAll(rooms, candidates, size)|
        ensures PlaceAll(rooms, candidates, size)[k] in candidates
      {
        if k < |placed| {
          assert placed[k] in candidates[..n];
        }
      }
    }
  }

  /** Two different separated non-empty rooms never touch on a level. */
  lemma SeparatedRoomsApart(rooms: seq<BoundsInt>, i: nat, j: nat, p: Pos, q: Pos)
    requires Separated(rooms)
    requires i < |rooms| && j < |rooms| && i != j
    requires Inside(p, rooms[i]) && Inside(q, rooms[j])
    ensures Abs(p.x - q.x) >= 2 || p.y != q.y || Abs(p.z - q.z) >= 2
  {
    if i < j {
      BufferSeparates(rooms[i], rooms[j], p, q);
    } else {
      BufferSymmetric(rooms[j], rooms[i]);
      BufferSeparates(rooms[i], rooms[j], p, q);
    }
  }

  lemma InAnyAppend(p: Pos, rooms: seq<BoundsInt>, r: BoundsInt)
    ensures InAny(p, rooms + [r]) <==> InAny(p, rooms) || Inside(p, r)
  {
    if Inside(p, r) {
      assert (rooms + [r])[|rooms|] == r;
    }
    if InAny(p, rooms) {
      var k :| 0 <= k < |rooms| && Inside(p, rooms[k]);
      assert (rooms + [r])[k] == rooms[k];
    }
  }

  // ---------------------------------------------------------------------
  // The grid as values
  // ---------------------------------------------------------------------

  /** The grid as values: the cell type at each position of the grid. */
  type CellMap = map<Pos, CellType>

  /** A cell a hallway may run through: empty or already a hallway. */
  predicate Open(c: CellType)
  {
    c == None || c == Hallway
  }

  // ---------------------------------------------------------------------
  // The path finder's cost policy
  // ---------------------------------------------------------------------

  /** What the cost callback returns for a move; a fresh one is all zero and false. */
  datatype PathCost = PathCost(cost: nat, traversable: bool, isStairs: bool)

  /**
   * A move on one level, onto a cell of type `dest`, on top of the
   * heuristic distance to the goal (a float in the source, a weight here).
   */
  function FlatCost(dest: CellType, heuristic: nat): (r: PathCost)
    ensures !r.isStairs
    ensures r.traversable <==> dest != Stairway
    ensures heuristic <= r.cost <= heuristic + 5
  {
    if dest == Stairway then PathCost(heuristic, false, false)
    else
      var extra := if dest == Room then 5 else if dest == None then 1 else 0;
      PathCost(heuristic + extra, true, false)
  }

  /** On a level the policy prefers hallways and doors to empty cells, and empty cells to rooms. */
  lemma FlatCostOrder(heuristic: nat)
    ensures FlatCost(Hallway, heuristic).cost == FlatCost(Door, heuristic).cost == heuristic
    ensures FlatCost(Door, heuristic).cost < FlatCost(None, heuristic).cost < FlatCost(Room, heuristic).cost
  {
  }

  /** `Mathf.Clamp(v, -1, 1)`. */
  function Clamp(v: int): (r: int)
    ensures -1 <= r <= 1
    ensures v <= -1 ==> r == -1
    ensures v >= 1 ==> r == 1
    ensures -1 <= v <= 1 ==> r == v
  {
    if v < -1 then -1 else if v > 1 then 1 else v
  }

  /** The vertical offset of a move from `a` to `b`. */
  function Vertical(a: Pos, b: Pos): Pos
  {
    Pos(0, b.y - a.y, 0)
  }

  /** The horizontal direction of a move from `a` to `b`, one step at most on each axis. */
  function Horizontal(a: Pos, b: Pos): Pos
  {
    Pos(Clamp(b.x - a.x), 0, Clamp(b.z - a.z))
  }

  /** The four cells a staircase from `a` towards `b` occupies: two on each level. */
  function Footprint(a: Pos, b: Pos): seq<Pos>
  {
    var v := Vertical(a, b);
    var h := Horizontal(a, b);
    [Add(a, h), Add(a, Twice(h)), Add(Add(a, v), h), Add(Add(a, v), Twice(h))]
  }

  /** All four footprint cells are on the grid. */
  predicate FootprintIn(c: CellMap, a: Pos, b: Pos)
  {
    var f := Footprint(a, b);
    f[0] in c && f[1] in c && f[2] in c && f[3] in c
  }

  /** All four footprint cells are on the grid and empty. */
  predicate FootprintFree(c: CellMap, a: Pos, b: Pos)
  {
    var f := Footprint(a, b);
    FootprintIn(c, a, b) && c[f[0]] == None && c[f[1]] == None && c[f[2]] == None && c[f[3]] == None
  }

  /**
   * The staircase test reads `a + 2h` and `a + v + 2h` without a bounds
   * check: when it gets that far, those cells must be on the grid.
   */
  predicate StairProbesInGrid(c: CellMap, a: Pos, b: Pos)
    requires a in c && b in c
  {
    var v := Vertical(a, b);
    var h := Horizontal(a, b);
    (Open(c[a]) && Open(c[b]) && Add(a, v) in c && Add(a, h) in c && Add(Add(a, v), h) in c && c[Add(a, h)] == None)
      ==> (Add(a, Twice(h)) in c
           && (c[Add(a, Twice(h))] == None && c[Add(Add(a, v), h)] == None ==> Add(Add(a, v), Twice(h)) in c))
  }

  /**
   * A move that changes level: a staircase, allowed only from and to an
   * open cell, with the cells above and beside on the grid and the whole
   * footprint empty. Its cost is the base 100 over the heuristic as soon
   * as both ends are open.
   */
  function StairCost(c: CellMap, a: Pos, b: Pos, heuristic: nat): (r: PathCost)
    requires a in c && b in c && StairProbesInGrid(c, a, b)
    ensures r.isStairs == r.traversable
    ensures r.cost == if Open(c[a]) && Open(c[b]) then 100 + heuristic else 0
    ensures r.traversable <==>
              Open(c[a]) && Open(c[b]) && Add(a, Vertical(a, b)) in c && FootprintFree(c, a, b)
  {
    if (c[a] != None && c[a] != Hallway) || (c[b] != None && c[b] != Hallway) then PathCost(0, false, false)
    else
      var cost := 100 + heuristic;
      var v := Vertical(a, b);
      var h := Horizontal(a, b);
      if !(Add(a, v) in c) || !(Add(a, h) in c) || !(Add(Add(a, v), h) in c) then PathCost(cost, false, false)
      else if c[Add(a, h)] != None || c[Add(a, Twice(h))] != None
        || c[Add(Add(a, v), h)] != None || c[Add(Add(a, v), Twice(h))] != None then PathCost(cost, false, false)
      else PathCost(cost, true, true)
  }

  /** The cost callback of `PathfindHallways` for a move from `a` to `b`. */
  function MoveCost(c: CellMap, a: Pos, b: Pos, heuristic: nat): (r: PathCost)
    requires a in c && b in c
    requires b.y != a.y ==> StairProbesInGrid(c, a, b)
    ensures r.isStairs <==> b.y != a.y && r.traversable
    ensures b.y == a.y ==> (r.traversable <==> c[b] != Stairway)
    ensures r.traversable && b.y != a.y ==> FootprintFree(c, a, b) && r.cost == 100 + heuristic
  {
    if b.y - a.y == 0 then FlatCost(c[b], heuristic) else StairCost(c, a, b, heuristic)
  }

  // ---------------------------------------------------------------------
  // Neighbours
  // ---------------------------------------------------------------------

  /** `q` is one step from `p` along `x` or `z`, on the same level. */
  predicate LevelAdjacent(p: Pos, q: Pos)
  {
    p.y == q.y && Abs(p.x - q.x) + Abs(p.z - q.z) == 1
  }

  /** `GetNeighbors`: the four cells one step away on the same level. */
  function GetNeighbors(piece: Pos): (r: seq<Pos>)
    ensures |r| == 4
    ensures forall q :: q in r <==> LevelAdjacent(piece, q)
  {
    [Pos(piece.x + 1, piece.y, piece.z), Pos(piece.x - 1, piece.y, piece.z),
     Pos(piece.x, piece.y, piece.z + 1), Pos(piece.x, piece.y, piece.z - 1)]
  }

  // ---------------------------------------------------------------------
  // Carving a path into the grid
  // ---------------------------------------------------------------------

  /** An entry of `doors`: the cell made a door, and the hallway or stair cell it opens onto. */
  datatype DoorRecord = DoorRecord(doorLocation: Pos, hallwayLocation: Pos)

  /** An entry of `stairwayPieces`: the staircase's direction and the cell it starts from. */
  datatype StairPiece = StairPiece(direction: Pos, location: Pos)

  /** The state the carving works on: the grid and the three lists it appends to. */
  datatype Carving = Carving(cells: CellMap, doors: seq<DoorRecord>, stairs: seq<StairPiece>, hallways: seq<Pos>)

  /** Every cell of the path is on the grid. */
  predicate PathIn(c: CellMap, path: seq<Pos>)
  {
    forall i :: 0 <= i < |path| ==> path[i] in c
  }

  /**
   * The path can be carved: its cells are on the grid, and so is the
   * footprint of each step that changes level (the carving writes it
   * without a bounds check).
   */
  predicate Carvable(c: CellMap, path: seq<Pos>)
  {
    && PathIn(c, path)
    && forall i :: 1 <= i < |path| ==> StepFits(c, path, i)
  }

  /** When path step `i` changes level, the staircase's footprint is on the grid. */
  predicate StepFits(c: CellMap, path: seq<Pos>, i: nat)
    requires 1 <= i < |path|
  {
    path[i].y != path[i - 1].y ==> FootprintIn(c, path[i - 1], path[i])
  }

  /** The cells iteration `i` of the carving loop reads and writes are on the grid. */
  predicate StepIn(c: CellMap, path: seq<Pos>, i: nat)
  {
    i < |path| && path[i] in c && (i > 0 ==> path[i - 1] in c && StepFits(c, path, i))
  }

  /** Whether a path can be carved depends only on which cells the grid has. */
  lemma CarvableKeys(c: CellMap, d: CellMap, path: seq<Pos>)
    requires c.Keys == d.Keys && Carvable(c, path)
    ensures Carvable(d, path)
  {
    forall q | q in c ensures q in d { assert q in c.Keys; }
    forall j | 1 <= j < |path| ensures StepFits(d, path, j) { assert StepFits(c, path, j); }
  }

  /** A carvable path lets every iteration of the carving loop run. */
  lemma CarvableStepIn(c: CellMap, path: seq<Pos>, i: nat)
    requires Carvable(c, path) && i < |path|
    ensures StepIn(c, path, i)
  {
    if i > 0 {
      assert StepFits(c, path, i);
    }
  }

  // ---------------------------------------------------------------------
  // How cells may change
  // ---------------------------------------------------------------------

  /**
   * The only ways a cell changes while paths are carved: an empty cell
   * becomes a hallway, a room becomes a door, and anything may be
   * overwritten by a staircase. So nothing becomes empty or a room again,
   * and a staircase stays a staircase.
   */
  predicate Evolves(a: CellType, b: CellType)
  {
    || a == b
    || (a == None && (b == Hallway || b == Stairway))
    || (a == Room && (b == Door || b == Stairway))
    || ((a == Hallway || a == Door) && b == Stairway)
  }

  /** `d` is `c` after some carving: the same cells, each changed only as `Evolves` allows. */
  predicate Grows(c: CellMap, d: CellMap)
  {
    c.Keys == d.Keys && forall p :: p in c ==> Evolves(c[p], d[p])
  }

  lemma GrowsTransitive(c: CellMap, d: CellMap, e: CellMap)
    requires Grows(c, d) && Grows(d, e)
    ensures Grows(c, e)
  {
    forall p | p in c
      ensures Evolves(c[p], e[p])
    {
      assert p in d;
    }
  }

  /** The door rule makes a door of a room that meets a hallway or a staircase. */
  predicate Joins(door: CellType, other: CellType)
  {
    door == Room && (other == Hallway || other == Stairway)
  }

  // ---------------------------------------------------------------------
  // One iteration of the carving loop
  // ---------------------------------------------------------------------

  /** Path step `i` changes level: a staircase is built from `path[i - 1]`. */
  predicate LevelChange(path: seq<Pos>, i: nat)
  {
    1 <= i < |path| && path[i].y != path[i - 1].y
  }

  /** The first thing done for path cell `cur`: an empty cell becomes a hallway. */
  function OpenCell(c: CellMap, cur: Pos): CellMap
    requires cur in c
  {
    if c[cur] == None then c[cur := Hallway] else c
  }

  /** Opening changes only `cur`, as `Evolves` allows, and leaves it not empty. */
  lemma OpenCellSpec(c: CellMap, cur: Pos)
    requires cur in c
    ensures var r := OpenCell(c, cur);
            && Grows(c, r) && r[cur] != None
            && forall q :: q in c && q != cur ==> r[q] == c[q]
  {
  }

  /**
   * The door rule for consecutive path cells `prev` and `cur`, as four
   * branches; its contract says what they amount to: a door is made
   * exactly when one cell is a room and the other a hallway or a
   * staircase, in either order, and the record names the room cell first.
   */
  function DoorAt(c: CellMap, prev: Pos, cur: Pos): (r: Wrappers.Option<DoorRecord>)
    requires prev in c && cur in c
    ensures r.Some? <==> Joins(c[prev], c[cur]) || Joins(c[cur], c[prev])
    ensures r.Some? ==>
              && ((r.value.doorLocation == prev && r.value.hallwayLocation == cur)
                  || (r.value.doorLocation == cur && r.value.hallwayLocation == prev))
              && Joins(c[r.value.doorLocation], c[r.value.hallwayLocation])
  {
    if c[cur] == Hallway && c[prev] == Room then Wrappers.Some(DoorRecord(prev, cur))
    else if c[cur] == Room && c[prev] == Hallway then Wrappers.Some(DoorRecord(cur, prev))
    else if c[cur] == Stairway && c[prev] == Room then Wrappers.Some(DoorRecord(prev, cur))
    else if c[cur] == Room && c[prev] == Stairway then Wrappers.Some(DoorRecord(cur, prev))
    else Wrappers.None
  }

  /** The door made, if any: its cell becomes `Door`. */
  function MakeDoor(c: CellMap, door: Wrappers.Option<DoorRecord>): CellMap
    requires door.Some? ==> door.value.doorLocation in c
  {
    if door.Some? then c[door.value.doorLocation := Door] else c
  }

  /** A step that changes level: its four footprint cells, whatever they held, become stairway. */
  function StairCells(c: CellMap, prev: Pos, cur: Pos): CellMap
    requires FootprintIn(c, prev, cur)
  {
    var f := Footprint(prev, cur);
    c[f[0] := Stairway][f[1] := Stairway][f[2] := Stairway][f[3] := Stairway]
  }

  /** Exactly the footprint cells, whatever they held, become stairway. */
  lemma StairCellsSpec(c: CellMap, prev: Pos, cur: Pos)
    requires FootprintIn(c, prev, cur)
    ensures var r := StairCells(c, prev, cur);
            && Grows(c, r)
            && forall q :: q in c ==> r[q] == if q in Footprint(prev, cur) then Stairway else c[q]
  {
  }

  /** The cells after iteration `i` of the carving loop. */
  function StepCells(c: CellMap, path: seq<Pos>, i: nat): (r: CellMap)
    requires StepIn(c, path, i)
    ensures r.Keys == c.Keys
  {
    var c1 := OpenCell(c, path[i]);
    if i == 0 then c1
    else
      var c2 := MakeDoor(c1, DoorAt(c1, path[i - 1], path[i]));
      if path[i].y - path[i - 1].y != 0 then StairCells(c2, path[i - 1], path[i]) else c2
  }

  /** The door record iteration `i` appends, if any. */
  function StepDoors(c: CellMap, path: seq<Pos>, i: nat): seq<DoorRecord>
    requires StepIn(c, path, i)
  {
    if i == 0 then []
    else
      var door := DoorAt(OpenCell(c, path[i]), path[i - 1], path[i]);
      if door.Some? then [door.value] else []
  }

  /** The stair piece iteration `i` appends, if any: its direction and the cell it starts from. */
  function StairsAt(path: seq<Pos>, i: nat): seq<StairPiece>
    requires i < |path|
  {
    if LevelChange(path, i) then [StairPiece(Add(Vertical(path[i - 1], path[i]), Horizontal(path[i - 1], path[i])), path[i - 1])]
    else []
  }

  /** The state after the first `n` iterations of the carving loop. */
  function CarveRun(s: Carving, path: seq<Pos>, n: nat): (t: Carving)
    requires n <= |path| && Carvable(s.cells, path)
    ensures t.cells.Keys == s.cells.Keys
    decreases n, 0
  {
    if n == 0 then s else CarveStep(s, path, n - 1)
  }

  /** The state after iteration `i` of the carving loop, which carves `path[i]`. */
  function CarveStep(s: Carving, path: seq<Pos>, i: nat): (t: Carving)
    requires i < |path| && Carvable(s.cells, path)
    ensures t.cells.Keys == s.cells.Keys
    decreases i, 2
  {
    var u := CarveRun(s, path, i);
    Carving(CellsAfter(s, path, i), DoorsAfter(s, path, i), u.stairs + StairsAt(path, i), u.hallways)
  }

  /** The grid after iteration `i`. */
  function CellsAfter(s: Carving, path: seq<Pos>, i: nat): (c: CellMap)
    requires i < |path| && Carvable(s.cells, path)
    ensures c.Keys == s.cells.Keys
    decreases i, 1
  {
    var u := CarveRun(s, path, i);
    CarvableKeys(s.cells, u.cells, path);
    CarvableStepIn(u.cells, path, i);
    StepCells(u.cells, path, i)
  }

  /** The door list after iteration `i`. */
  function DoorsAfter(s: Carving, path: seq<Pos>, i: nat): seq<DoorRecord>
    requires i < |path| && Carvable(s.cells, path)
    decreases i, 1
  {
    var u := CarveRun(s, path, i);
    CarvableKeys(s.cells, u.cells, path);
    CarvableStepIn(u.cells, path, i);
    u.doors + StepDoors(u.cells, path, i)
  }

  /** Iteration `n - 1` in terms of the state before it. */
  lemma CarveRunUnfold(s: Carving, path: seq<Pos>, n: nat) returns (u: Carving)
    requires 0 < n <= |path| && Carvable(s.cells, path)
    ensures u == CarveRun(s, path, n - 1) && Carvable(u.cells, path) && StepIn(u.cells, path, n - 1)
    ensures CarveRun(s, path, n)
            == Carving(StepCells(u.cells, path, n - 1), u.doors + StepDoors(u.cells, path, n - 1),
                       u.stairs + StairsAt(path, n - 1), u.hallways)
  {
    u := CarveRun(s, path, n - 1);
    CarvableKeys(s.cells, u.cells, path);
    CarvableStepIn(u.cells, path, n - 1);
    assert CellsAfter(s, path, n - 1) == StepCells(u.cells, path, n - 1);
    assert DoorsAfter(s, path, n - 1) == u.doors + StepDoors(u.cells, path, n - 1);
  }

  /** The path cells that are hallways in `c`, among the first `n`, in path order. */
  function HallwayCells(c: CellMap, path: seq<Pos>, n: nat): (r: seq<Pos>)
    requires n <= |path| && PathIn(c, path)
    ensures |r| <= n
  {
    if n == 0 then []
    else
      var earlier := HallwayCells(c, path, n - 1);
      if c[path[n - 1]] == Hallway then earlier + [path[n - 1]] else earlier
  }

  /** The recorded cells are exactly the path cells, among the first `n`, that are hallways in `c`. */
  lemma {:induction false} HallwayCellsSpec(c: CellMap, path: seq<Pos>, n: nat, q: Pos)
    requires n <= |path| && PathIn(c, path)
    ensures q in HallwayCells(c, path, n) <==> (exists i :: 0 <= i < n && path[i] == q) && q in c && c[q] == Hallway
  {
    if n > 0 {
      HallwayCellsSpec(c, path, n - 1, q);
      if path[n - 1] == q && c[q] == Hallway {
        assert q in HallwayCells(c, path, n);
      }
    }
  }

  /** The recording pass after a path is carved: its hallway cells are appended to `hallways`. */
  function Recorded(s: Carving, path: seq<Pos>): (t: Carving)
    requires PathIn(s.cells, path)
  {
    s.(hallways := s.hallways + HallwayCells(s.cells, path, |path|))
  }

  /** Each selected edge's path, `None` when the path finder found none, can be carved. */
  predicate AllCarvable(c: CellMap, paths: seq<Wrappers.Option<seq<Pos>>>)
  {
    forall k :: 0 <= k < |paths| && paths[k].Some? ==> Carvable(c, paths[k].value)
  }

  /** One selected edge: its path, if any, is carved and its hallway cells recorded. */
  function Handle(s: Carving, path: Wrappers.Option<seq<Pos>>): (t: Carving)
    requires path.Some? ==> Carvable(s.cells, path.value)
    ensures t.cells.Keys == s.cells.Keys
  {
    if path.None? then s
    else
      var u := CarveRun(s, path.value, |path.value|);
      CarvableKeys(s.cells, u.cells, path.value);
      Recorded(u, path.value)
  }

  /** The state after the first `n` selected edges. */
  function HandleAll(s: Carving, paths: seq<Wrappers.Option<seq<Pos>>>, n: nat): (t: Carving)
    requires n <= |paths| && AllCarvable(s.cells, paths)
    ensures t.cells.Keys == s.cells.Keys
  {
    if n == 0 then s
    else
      var u := HandleAll(s, paths, n - 1);
      assert paths[n - 1].Some? ==> Carvable(u.cells, paths[n - 1].value) by {
        if paths[n - 1].Some? {
          CarvableKeys(s.cells, u.cells, paths[n - 1].value);
        }
      }
      Handle(u, paths[n - 1])
  }

  // ---------------------------------------------------------------------
  // What carving a path does
  // ---------------------------------------------------------------------

  /** The cells iteration `i` may write: the path cell, the one before it, and a staircase's footprint. */
  predicate TouchedAt(path: seq<Pos>, i: nat, q: Pos)
    requires i < |path|
  {
    || path[i] == q
    || (i > 0 && path[i - 1] == q)
    || (LevelChange(path, i) && q in Footprint(path[i - 1], path[i]))
  }

  /** The cells the first `n` iterations may write. */
  predicate Touched(path: seq<Pos>, n: nat, q: Pos)
    requires n <= |path|
  {
    exists i :: 0 <= i < n && TouchedAt(path, i, q)
  }

  /** The four footprint cells of the staircase at path step `i` are stairway in `c`. */
  predicate StairsBuilt(c: CellMap, path: seq<Pos>, i: nat)
    requires LevelChange(path, i)
  {
    var f := Footprint(path[i - 1], path[i]);
    f[0] in c && f[1] in c && f[2] in c && f[3] in c
    && c[f[0]] == Stairway && c[f[1]] == Stairway && c[f[2]] == Stairway && c[f[3]] == Stairway
  }

  /** A cell once carved never becomes empty again. */
  lemma GrowsKeepsOpen(c: CellMap, d: CellMap, p: Pos)
    requires Grows(c, d) && p in c && c[p] != None
    ensures p in d && d[p] != None
  {
  }

  /** A staircase once built stays built. */
  lemma GrowsKeepsStairs(c: CellMap, d: CellMap, path: seq<Pos>, i: nat)
    requires LevelChange(path, i) && Grows(c, d) && StairsBuilt(c, path, i)
    ensures StairsBuilt(d, path, i)
  {
  }

  /** Each door recorded from `from` on was a room cell in `c0` and is a door or a staircase in `c`. */
  predicate DoorsFrom(c0: CellMap, c: CellMap, doors: seq<DoorRecord>, from: nat)
  {
    forall k :: from <= k < |doors| ==>
      var d := doors[k].doorLocation;
      d in c0 && d in c && c0[d] == Room && (c[d] == Door || c[d] == Stairway)
  }

  /** The door record joins path cells `i - 1` and `i`, in either order. */
  predicate DoorBetween(path: seq<Pos>, i: nat, r: DoorRecord)
    requires 1 <= i < |path|
  {
    || (r.doorLocation == path[i - 1] && r.hallwayLocation == path[i])
    || (r.doorLocation == path[i] && r.hallwayLocation == path[i - 1])
  }

  /** The door record joins two consecutive cells among the first `n` of the path. */
  predicate DoorRecordOn(path: seq<Pos>, n: nat, r: DoorRecord)
    requires n <= |path|
  {
    exists i :: 1 <= i < n && DoorBetween(path, i, r)
  }

  /** The cells of iteration `i`, one phase at a time. */
  lemma StepPhases(c: CellMap, path: seq<Pos>, i: nat) returns (c1: CellMap, door: Wrappers.Option<DoorRecord>, c2: CellMap)
    requires StepIn(c, path, i)
    ensures c1 == OpenCell(c, path[i]) && Grows(c, c1)
    ensures i > 0 ==> path[i - 1] in c1 && path[i] in c1 && door == DoorAt(c1, path[i - 1], path[i])
    ensures i == 0 ==> door.None?
    ensures door.Some? ==> door.value.doorLocation in c1
    ensures c2 == MakeDoor(c1, door) && Grows(c1, c2)
    ensures StepDoors(c, path, i) == if door.Some? then [door.value] else []
    ensures LevelChange(path, i) ==> FootprintIn(c2, path[i - 1], path[i])
    ensures StepCells(c, path, i) == if LevelChange(path, i) then StairCells(c2, path[i - 1], path[i]) else c2
    ensures forall q :: q in c && q != path[i] ==> c1[q] == c[q]
    ensures c1[path[i]] != None
  {
    c1 := OpenCell(c, path[i]);
    OpenCellSpec(c, path[i]);
    door := if i == 0 then Wrappers.None else DoorAt(c1, path[i - 1], path[i]);
    c2 := MakeDoor(c1, door);
    if i > 0 {
      assert StepFits(c, path, i);
    }
    if LevelChange(path, i) {
      StairCellsSpec(c2, path[i - 1], path[i]);
    }
  }

  /** Iteration `i` only grows the grid and leaves the path cell not empty. */
  lemma StepCellsSpec(c: CellMap, path: seq<Pos>, i: nat)
    requires StepIn(c, path, i)
    ensures Grows(c, StepCells(c, path, i)) && StepCells(c, path, i)[path[i]] != None
  {
    var c1, door, c2 := StepPhases(c, path, i);
    GrowsTransitive(c, c1, c2);
    assert c2[path[i]] != None;
    if LevelChange(path, i) {
      StairCellsSpec(c2, path[i - 1], path[i]);
      GrowsTransitive(c, c2, StepCells(c, path, i));
    }
  }

  /** Iteration `i`, when it changes level, leaves its staircase's footprint stairway. */
  lemma StepBuildsStairs(c: CellMap, path: seq<Pos>, i: nat)
    requires StepIn(c, path, i) && LevelChange(path, i)
    ensures StairsBuilt(StepCells(c, path, i), path, i)
  {
    var c1, door, c2 := StepPhases(c, path, i);
  }

  /** A cell iteration `i` does not touch keeps its type. */
  lemma StepCellsFrameAt(c: CellMap, path: seq<Pos>, i: nat, q: Pos)
    requires StepIn(c, path, i) && q in c && !TouchedAt(path, i, q)
    ensures q in StepCells(c, path, i) && StepCells(c, path, i)[q] == c[q]
  {
    var c1, door, c2 := StepPhases(c, path, i);
  }

  /**
   * The door iteration `i` records, if any, joins the two cells of the
   * step, was a room cell before, and is a door or a staircase after.
   */
  lemma StepDoorsSpec(c: CellMap, path: seq<Pos>, i: nat)
    requires StepIn(c, path, i)
    ensures var d := StepDoors(c, path, i);
            && |d| <= 1
            && DoorsFrom(c, StepCells(c, path, i), d, 0)
            && forall k :: 0 <= k < |d| ==> 1 <= i < |path| && DoorBetween(path, i, d[k])
  {
    var c1, door, c2 := StepPhases(c, path, i);
    if door.Some? {
      var p := door.value.doorLocation;
      assert c1[p] == Room && c2[p] == Door;
      assert p in c;
      if LevelChange(path, i) {
        assert StepCells(c, path, i)[p] == Door || StepCells(c, path, i)[p] == Stairway;
      }
    }
  }

  /** The stair pieces of the first `n` path steps, read off the path alone. */
  function StairPieces(path: seq<Pos>, n: nat): (r: seq<StairPiece>)
    requires n <= |path|
    ensures |r| <= n
  {
    if n == 0 then [] else StairPieces(path, n - 1) + StairsAt(path, n - 1)
  }

  /** The piece starts at the cell before path step `i`, a change of level, and climbs by its height. */
  predicate PieceFrom(path: seq<Pos>, i: nat, piece: StairPiece)
  {
    && LevelChange(path, i) && piece.location == path[i - 1] && piece.direction.y == path[i].y - path[i - 1].y
    && PieceFootprint(piece) == Footprint(path[i - 1], path[i])
  }

  /**
   * The four cells a recorded stair piece stands on, recovered from the
   * piece alone: its offset is a climb (its y part) plus a one-cell step
   * (its x and z parts).
   */
  function PieceFootprint(piece: StairPiece): seq<Pos>
  {
    var v := Pos(0, piece.direction.y, 0);
    var h := Pos(piece.direction.x, 0, piece.direction.z);
    [Add(piece.location, h), Add(piece.location, Twice(h)), Add(Add(piece.location, v), h), Add(Add(piece.location, v), Twice(h))]
  }

  /** Each stair piece starts at the cell before a change of level and climbs by its height. */
  lemma {:induction false} StairPiecesAtLevelChanges(path: seq<Pos>, n: nat, k: nat)
    requires n <= |path| && k < |StairPieces(path, n)|
    ensures exists i :: 0 <= i < n && PieceFrom(path, i, StairPieces(path, n)[k])
  {
    var earlier := StairPieces(path, n - 1);
    if k < |earlier| {
      StairPiecesAtLevelChanges(path, n - 1, k);
      assert StairPieces(path, n)[k] == earlier[k];
    } else {
      assert PieceFrom(path, n - 1, StairPieces(path, n)[k]);
    }
  }

  /**
   * Carving the first `n` path cells leaves `hallways` alone and records
   * exactly the path's stair pieces, whatever the grid holds.
   */
  lemma {:induction false} CarveRunLists(s: Carving, path: seq<Pos>, n: nat)
    requires n <= |path| && Carvable(s.cells, path)
    ensures var t := CarveRun(s, path, n);
            && t.stairs == s.stairs + StairPieces(path, n)
            && t.hallways == s.hallways
  {
    if n > 0 {
      CarveRunLists(s, path, n - 1);
      CarveRunListsStep(s, path, n);
      assert CarveRun(s, path, n).stairs == s.stairs + (StairPieces(path, n - 1) + StairsAt(path, n - 1));
    }
  }

  /** Iteration `n - 1` appends its own stair piece and leaves `hallways` alone. */
  lemma CarveRunListsStep(s: Carving, path: seq<Pos>, n: nat)
    requires 0 < n <= |path| && Carvable(s.cells, path)
    ensures CarveRun(s, path, n).stairs == CarveRun(s, path, n - 1).stairs + StairsAt(path, n - 1)
    ensures CarveRun(s, path, n).hallways == CarveRun(s, path, n - 1).hallways
  {
    var u := CarveRunUnfold(s, path, n);
  }

  /** Carving the first `n` path cells only grows the grid. */
  lemma {:induction false} CarveRunGrows(s: Carving, path: seq<Pos>, n: nat)
    requires n <= |path| && Carvable(s.cells, path)
    ensures Grows(s.cells, CarveRun(s, path, n).cells)
  {
    if n > 0 {
      CarveRunGrows(s, path, n - 1);
      var u := CarveRunUnfold(s, path, n);
      StepCellsSpec(u.cells, path, n - 1);
      GrowsTransitive(s.cells, u.cells, CarveRun(s, path, n).cells);
    }
  }

  /** After the first `n` iterations no path cell carved so far is empty. */
  lemma {:induction false} CarveRunOpens(s: Carving, path: seq<Pos>, n: nat)
    requires n <= |path| && Carvable(s.cells, path)
    ensures forall i :: 0 <= i < n ==> CarveRun(s, path, n).cells[path[i]] != None
  {
    if n > 0 {
      CarveRunOpens(s, path, n - 1);
      var u := CarveRunUnfold(s, path, n);
      var t := CarveRun(s, path, n);
      StepCellsSpec(u.cells, path, n - 1);
      forall i | 0 <= i < n - 1
        ensures t.cells[path[i]] != None
      {
        GrowsKeepsOpen(u.cells, t.cells, path[i]);
      }
    }
  }

  /** After the first `n` iterations every staircase built so far is still stairway. */
  lemma {:induction false} CarveRunStairs(s: Carving, path: seq<Pos>, n: nat)
    requires n <= |path| && Carvable(s.cells, path)
    ensures forall i :: 0 <= i < n && LevelChange(path, i) ==> StairsBuilt(CarveRun(s, path, n).cells, path, i)
  {
    if n > 0 {
      CarveRunStairs(s, path, n - 1);
      var u := CarveRunUnfold(s, path, n);
      var t := CarveRun(s, path, n);
      StepCellsSpec(u.cells, path, n - 1);
      if LevelChange(path, n - 1) {
        StepBuildsStairs(u.cells, path, n - 1);
      }
      forall i | 0 <= i < n - 1 && LevelChange(path, i)
        ensures StairsBuilt(t.cells, path, i)
      {
        GrowsKeepsStairs(u.cells, t.cells, path, i);
      }
    }
  }

  /** Carving the first `n` path cells changes no cell those iterations do not touch. */
  lemma {:induction false} CarveRunFrame(s: Carving, path: seq<Pos>, n: nat)
    requires n <= |path| && Carvable(s.cells, path)
    ensures forall q :: q in s.cells && !Touched(path, n, q) ==> CarveRun(s, path, n).cells[q] == s.cells[q]
  {
    if n > 0 {
      CarveRunFrame(s, path, n - 1);
      var u := CarveRunUnfold(s, path, n);
      forall q | q in s.cells && !Touched(path, n, q)
        ensures CarveRun(s, path, n).cells[q] == s.cells[q]
      {
        assert !Touched(path, n - 1, q) && !TouchedAt(path, n - 1, q);
        assert q in u.cells.Keys;
        StepCellsFrameAt(u.cells, path, n - 1, q);
      }
    }
  }

  /** Door records made at two stages combine when the grid only grows in between. */
  lemma DoorsFromJoin(c0: CellMap, c1: CellMap, c2: CellMap, d1: seq<DoorRecord>, d: seq<DoorRecord>, from: nat)
    requires Grows(c0, c1) && Grows(c1, c2) && from <= |d1|
    requires DoorsFrom(c0, c1, d1, from) && DoorsFrom(c1, c2, d, 0)
    ensures DoorsFrom(c0, c2, d1 + d, from)
  {
    forall k | from <= k < |d1 + d|
      ensures var p := (d1 + d)[k].doorLocation;
              p in c0 && p in c2 && c0[p] == Room && (c2[p] == Door || c2[p] == Stairway)
    {
      var p := (d1 + d)[k].doorLocation;
      if k < |d1| {
        assert p == d1[k].doorLocation && p in c1;
      } else {
        assert p == d[k - |d1|].doorLocation && p in c1 && p in c0.Keys;
      }
    }
  }

  /**
   * Each door the carving of a path records joins two consecutive path
   * cells, was a room cell before the carving, and is a door or a
   * staircase after it.
   */
  lemma {:induction false} CarveRunDoors(s: Carving, path: seq<Pos>, n: nat)
    requires n <= |path| && Carvable(s.cells, path)
    ensures var t := CarveRun(s, path, n);
            && |s.doors| <= |t.doors| && t.doors[..|s.doors|] == s.doors
            && DoorsFrom(s.cells, t.cells, t.doors, |s.doors|)
            && forall k :: |s.doors| <= k < |t.doors| ==> DoorRecordOn(path, n, t.doors[k])
  {
    if n > 0 {
      CarveRunDoors(s, path, n - 1);
      CarveRunGrows(s, path, n - 1);
      var u := CarveRunUnfold(s, path, n);
      StepCellsSpec(u.cells, path, n - 1);
      StepDoorsSpec(u.cells, path, n - 1);
      var t := CarveRun(s, path, n);
      var d := StepDoors(u.cells, path, n - 1);
      DoorsFromJoin(s.cells, u.cells, t.cells, u.doors, d, |s.doors|);
      assert t.doors[..|s.doors|] == u.doors[..|s.doors|];
      forall k | |s.doors| <= k < |t.doors|
        ensures DoorRecordOn(path, n, t.doors[k])
      {
        if k < |u.doors| {
          assert t.doors[k] == u.doors[k];
          assert DoorRecordOn(path, n - 1, u.doors[k]);
        } else {
          assert t.doors[k] == d[k - |u.doors|];
          assert DoorBetween(path, n - 1, t.doors[k]);
        }
      }
    }
  }

  // ---------------------------------------------------------------------
  // A whole path, and all selected edges
  // ---------------------------------------------------------------------

  /** Every cell of `path` is carved in `c`, and every staircase on it is built. */
  predicate Carved(c: CellMap, path: seq<Pos>)
  {
    && (forall i :: 0 <= i < |path| ==> path[i] in c && c[path[i]] != None)
    && (forall i :: 0 <= i < |path| && LevelChange(path, i) ==> StairsBuilt(c, path, i))
  }

  /** The four cells of each stair piece recorded from `from` on are stairway in `c`. */
  predicate StairsStand(c: CellMap, stairs: seq<StairPiece>, from: nat)
  {
    forall k :: from <= k < |stairs| ==>
      var f := PieceFootprint(stairs[k]);
      f[0] in c && f[1] in c && f[2] in c && f[3] in c
      && c[f[0]] == Stairway && c[f[1]] == Stairway && c[f[2]] == Stairway && c[f[3]] == Stairway
  }

  /** Each hallway piece recorded from `from` on is a hallway in `c`, or has since become a staircase. */
  predicate HallwaysFrom(c: CellMap, hallways: seq<Pos>, from: nat)
  {
    forall k :: from <= k < |hallways| ==> hallways[k] in c && (c[hallways[k]] == Hallway || c[hallways[k]] == Stairway)
  }

  /**
   * `t` is a later state than `s`: the grid only grew, the three lists
   * were only appended to, and what was appended is still true of the
   * grid.
   */
  predicate Keeps(s: Carving, t: Carving)
  {
    && Grows(s.cells, t.cells)
    && s.doors <= t.doors && s.stairs <= t.stairs && s.hallways <= t.hallways
    && DoorsFrom(s.cells, t.cells, t.doors, |s.doors|)
    && StairsStand(t.cells, t.stairs, |s.stairs|)
    && HallwaysFrom(t.cells, t.hallways, |s.hallways|)
  }

  lemma GrowsKeepsCarved(c: CellMap, d: CellMap, path: seq<Pos>)
    requires Grows(c, d) && Carved(c, path)
    ensures Carved(d, path)
  {
    forall i | 0 <= i < |path|
      ensures path[i] in d && d[path[i]] != None
    {
      GrowsKeepsOpen(c, d, path[i]);
    }
    forall i | 0 <= i < |path| && LevelChange(path, i)
      ensures StairsBuilt(d, path, i)
    {
      GrowsKeepsStairs(c, d, path, i);
    }
  }

  lemma KeepsTransitive(s: Carving, u: Carving, t: Carving)
    requires Keeps(s, u) && Keeps(u, t)
    ensures Keeps(s, t)
  {
    GrowsTransitive(s.cells, u.cells, t.cells);
    assert t.doors[..|u.doors|][..|s.doors|] == t.doors[..|s.doors|];
    assert t.stairs[..|u.stairs|][..|s.stairs|] == t.stairs[..|s.stairs|];
    assert t.hallways[..|u.hallways|][..|s.hallways|] == t.hallways[..|s.hallways|];
    forall k | |s.doors| <= k < |t.doors|
      ensures var p := t.doors[k].doorLocation;
              p in s.cells && p in t.cells && s.cells[p] == Room && (t.cells[p] == Door || t.cells[p] == Stairway)
    {
      var p := t.doors[k].doorLocation;
      if k < |u.doors| {
        assert p == u.doors[k].doorLocation && p in u.cells;
      } else {
        assert p in u.cells && p in s.cells.Keys;
      }
    }
    forall k | |s.stairs| <= k < |t.stairs|
      ensures var f := PieceFootprint(t.stairs[k]);
              f[0] in t.cells && f[1] in t.cells && f[2] in t.cells && f[3] in t.cells
              && t.cells[f[0]] == Stairway && t.cells[f[1]] == Stairway
              && t.cells[f[2]] == Stairway && t.cells[f[3]] == Stairway
    {
      if k < |u.stairs| {
        assert t.stairs[k] == u.stairs[k];
      }
    }
    forall k | |s.hallways| <= k < |t.hallways|
      ensures t.hallways[k] in t.cells && (t.cells[t.hallways[k]] == Hallway || t.cells[t.hallways[k]] == Stairway)
    {
      if k < |u.hallways| {
        assert t.hallways[k] == u.hallways[k];
      }
    }
  }

  /** The cells of a whole carved path: each path cell carved, each staircase built, the rest untouched. */
  lemma HandleCells(s: Carving, path: seq<Pos>)
    requires Carvable(s.cells, path)
    ensures var t := Handle(s, Wrappers.Some(path));
            && Grows(s.cells, t.cells) && Carved(t.cells, path)
            && forall q :: q in s.cells && !Touched(path, |path|, q) ==> t.cells[q] == s.cells[q]
  {
    var u := CarveRun(s, path, |path|);
    assert Handle(s, Wrappers.Some(path)).cells == u.cells;
    CarveRunGrows(s, path, |path|);
    CarveRunOpens(s, path, |path|);
    CarveRunStairs(s, path, |path|);
    CarveRunFrame(s, path, |path|);
  }

  /** Each stair piece recorded for `path` stands on four stairway cells. */
  lemma PathStairsStand(s: Carving, path: seq<Pos>)
    requires Carvable(s.cells, path)
    ensures var t := CarveRun(s, path, |path|);
            StairsStand(t.cells, t.stairs, |s.stairs|)
  {
    var t := CarveRun(s, path, |path|);
    CarveRunLists(s, path, |path|);
    CarveRunStairs(s, path, |path|);
    var pieces := StairPieces(path, |path|);
    forall k | |s.stairs| <= k < |t.stairs|
      ensures var f := PieceFootprint(t.stairs[k]);
              f[0] in t.cells && f[1] in t.cells && f[2] in t.cells && f[3] in t.cells
              && t.cells[f[0]] == Stairway && t.cells[f[1]] == Stairway
              && t.cells[f[2]] == Stairway && t.cells[f[3]] == Stairway
    {
      assert t.stairs[k] == pieces[k - |s.stairs|];
      StairPiecesAtLevelChanges(path, |path|, k - |s.stairs|);
      var i :| 0 <= i < |path| && PieceFrom(path, i, pieces[k - |s.stairs|]);
      assert StairsBuilt(t.cells, path, i);
    }
  }

  /**
   * Handling one selected edge keeps every promise: the grid only grows,
   * the lists are only appended to, the recorded stair pieces are the
   * path's own, and the recorded hallway pieces are exactly the path
   * cells left a hallway.
   */
  lemma HandleKeeps(s: Carving, path: Wrappers.Option<seq<Pos>>)
    requires path.Some? ==> Carvable(s.cells, path.value)
    ensures Keeps(s, Handle(s, path))
    ensures path.Some? ==> var t := Handle(s, path);
            && t.stairs == s.stairs + StairPieces(path.value, |path.value|)
            && t.hallways == s.hallways + HallwayCells(t.cells, path.value, |path.value|)
            && forall k :: |s.doors| <= k < |t.doors| ==> DoorRecordOn(path.value, |path.value|, t.doors[k])
  {
    if path.Some? {
      var p := path.value;
      var u := CarveRun(s, p, |p|);
      var t := Handle(s, path);
      assert t == u.(hallways := u.hallways + HallwayCells(u.cells, p, |p|));
      CarveRunGrows(s, p, |p|);
      CarveRunLists(s, p, |p|);
      CarveRunDoors(s, p, |p|);
      PathStairsStand(s, p);
      assert s.stairs <= t.stairs;
      assert t.hallways[..|s.hallways|] == s.hallways;
      forall k | |s.hallways| <= k < |t.hallways|
        ensures t.hallways[k] in t.cells && (t.cells[t.hallways[k]] == Hallway || t.cells[t.hallways[k]] == Stairway)
      {
        assert t.hallways[k] in HallwayCells(u.cells, p, |p|);
        HallwayCellsSpec(u.cells, p, |p|, t.hallways[k]);
      }
    } else {
      GrowsReflexive(s.cells);
    }
  }

  lemma GrowsReflexive(c: CellMap)
    ensures Grows(c, c)
  {
  }

  /** No handled path touches `q`. */
  predicate Untouched(paths: seq<Wrappers.Option<seq<Pos>>>, n: nat, q: Pos)
    requires n <= |paths|
  {
    forall k :: 0 <= k < n && paths[k].Some? ==> !Touched(paths[k].value, |paths[k].value|, q)
  }

  /**
   * After the first `n` selected edges: every promise of `Keeps` holds,
   * every handled path is carved, and every cell no handled path touches
   * is as it was.
   */
  lemma {:induction false} HandleAllKeeps(s: Carving, paths: seq<Wrappers.Option<seq<Pos>>>, n: nat)
    requires n <= |paths| && AllCarvable(s.cells, paths)
    ensures var t := HandleAll(s, paths, n);
            && Keeps(s, t)
            && (forall k :: 0 <= k < n && paths[k].Some? ==> Carved(t.cells, paths[k].value))
            && forall q :: q in s.cells && Untouched(paths, n, q) ==> t.cells[q] == s.cells[q]
  {
    var t := HandleAll(s, paths, n);
    if n == 0 {
      GrowsReflexive(s.cells);
    } else {
      HandleAllKeeps(s, paths, n - 1);
      var u := HandleAll(s, paths, n - 1);
      if paths[n - 1].Some? {
        CarvableKeys(s.cells, u.cells, paths[n - 1].value);
        HandleCells(u, paths[n - 1].value);
      }
      HandleKeeps(u, paths[n - 1]);
      KeepsTransitive(s, u, t);
      forall k | 0 <= k < n && paths[k].Some?
        ensures Carved(t.cells, paths[k].value)
      {
        if k < n - 1 {
          GrowsKeepsCarved(u.cells, t.cells, paths[k].value);
        }
      }
      forall q | q in s.cells && Untouched(paths, n, q)
        ensures t.cells[q] == s.cells[q]
      {
        assert Untouched(paths, n - 1, q);
      }
    }
  }

  // ---------------------------------------------------------------------
  // The generator
  // ---------------------------------------------------------------------

  /** The cells of the array, as a map from position to cell type. */
  ghost function Cells(a: array3<CellType>): CellMap
    reads a
  {
    map x, y, z | 0 <= x < a.Length0 && 0 <= y < a.Length1 && 0 <= z < a.Length2 :: Pos(x, y, z) := a[x, y, z]
  }

  class Generator {
    const grid: array3<CellType>
    var rooms: seq<BoundsInt>
    var selectedEdges: seq<Edge<nat>>
    var hallwayPieces: seq<Pos>
    var stairwayPieces: seq<StairPiece>
    var doors: seq<DoorRecord>
    var loopRate: real

    /**
     * `Start`, without the seed: an all-empty grid of the given size, no
     * rooms, empty lists, and a loop rate of 0.125 when the configured one
     * is not positive.
     */
    constructor (sizeX: nat, sizeY: nat, sizeZ: nat, loopRate: real)
      ensures grid.Length0 == sizeX && grid.Length1 == sizeY && grid.Length2 == sizeZ
      ensures forall x, y, z :: 0 <= x < sizeX && 0 <= y < sizeY && 0 <= z < sizeZ ==> grid[x, y, z] == None
      ensures rooms == [] && selectedEdges == [] && hallwayPieces == [] && stairwayPieces == [] && doors == []
      ensures this.loopRate == if loopRate <= 0.0 then 0.125 else loopRate
    {
      grid := new CellType[sizeX, sizeY, sizeZ]((x, y, z) => None);
      rooms := [];
      selectedEdges := [];
      hallwayPieces := [];
      stairwayPieces := [];
      doors := [];
      this.loopRate := if loopRate <= 0.0 then 0.125 else loopRate;
    }

    /** The grid and the three lists the carving writes. */
    ghost function State(): Carving
      reads this, grid
    {
      Carving(Cells(grid), doors, stairwayPieces, hallwayPieces)
    }

    /** The grid's size, as a position. */
    function Size(): Pos
    {
      Pos(grid.Length0, grid.Length1, grid.Length2)
    }

    /** The scan of the accepted rooms: is the buffer clear of all of them? */
    method BufferClear(buffer: BoundsInt) returns (add: bool)
      ensures add <==> Clear(rooms, buffer)
    {
      add := true;
      for i := 0 to |rooms|
        invariant forall k :: 0 <= k < i ==> !Intersect(rooms[k], buffer)
      {
        if Intersect(rooms[i], buffer) {
          add := false;
          break;
        }
      }
    }

    /** Marks every cell of an accepted room as `Room`. */
    method StampRoom(r: BoundsInt)
      requires InsideGrid(r, Size()) && NonEmpty(r)
      modifies grid
      ensures forall x, y, z :: 0 <= x < grid.Length0 && 0 <= y < grid.Length1 && 0 <= z < grid.Length2 ==>
                grid[x, y, z] == if Inside(Pos(x, y, z), r) then Room else old(grid[x, y, z])
    {
      var lo := r.position;
      var hi := Add(r.position, r.size);
      for px := lo.x to hi.x
        invariant forall x, y, z :: 0 <= x < grid.Length0 && 0 <= y < grid.Length1 && 0 <= z < grid.Length2 ==>
                    grid[x, y, z] == if lo.x <= x < px && lo.y <= y < hi.y && lo.z <= z < hi.z then Room else old(grid[x, y, z])
      {
        for py := lo.y to hi.y
          invariant forall x, y, z :: 0 <= x < grid.Length0 && 0 <= y < grid.Length1 && 0 <= z < grid.Length2 ==>
                      grid[x, y, z] == if (lo.x <= x < px && lo.y <= y < hi.y && lo.z <= z < hi.z)
                                          || (x == px && lo.y <= y < py && lo.z <= z < hi.z)
                                       then Room else old(grid[x, y, z])
        {
          for pz := lo.z to hi.z
            invariant forall x, y, z :: 0 <= x < grid.Length0 && 0 <= y < grid.Length1 && 0 <= z < grid.Length2 ==>
                        grid[x, y, z] == if (lo.x <= x < px && lo.y <= y < hi.y && lo.z <= z < hi.z)
                                            || (x == px && lo.y <= y < py && lo.z <= z < hi.z)
                                            || (x == px && y == py && lo.z <= z < pz)
                                         then Room else old(grid[x, y, z])
          {
            grid[px, py, pz] := Room;
          }
        }
      }
    }

    /**
     * `GenerateRooms`, with the random candidates (location and size of
     * each of the `roomCount` attempts) given in order: the accepted ones
     * are appended to `rooms` and stamped into the grid.
     */
    method GenerateRooms(candidates: seq<BoundsInt>)
      requires forall i :: 0 <= i < |candidates| ==> NonEmpty(candidates[i])
      modifies this, grid
      ensures rooms == old(rooms) + PlaceAll(old(rooms), candidates, Size())
      ensures forall x, y, z :: 0 <= x < grid.Length0 && 0 <= y < grid.Length1 && 0 <= z < grid.Length2 ==>
                grid[x, y, z] == if InAny(Pos(x, y, z), PlaceAll(old(rooms), candidates, Size()))
                                 then Room else old(grid[x, y, z])
      ensures selectedEdges == old(selectedEdges) && loopRate == old(loopRate)
      ensures hallwayPieces == old(hallwayPieces) && stairwayPieces == old(stairwayPieces) && doors == old(doors)
    {
      ghost var placed: seq<BoundsInt> := [];
      for i := 0 to |candidates|
        invariant placed == PlaceAll(old(rooms), candidates[..i], Size())
        invariant rooms == old(rooms) + placed
        invariant forall x, y, z :: 0 <= x < grid.Length0 && 0 <= y < grid.Length1 && 0 <= z < grid.Length2 ==>
                    grid[x, y, z] == if InAny(Pos(x, y, z), placed) then Room else old(grid[x, y, z])
        invariant selectedEdges == old(selectedEdges) && loopRate == old(loopRate)
        invariant hallwayPieces == old(hallwayPieces) && stairwayPieces == old(stairwayPieces) && doors == old(doors)
      {
        assert candidates[..i + 1][..i] == candidates[..i];
        var newRoom := candidates[i];
        var add := TryRoom(newRoom);
        if add {
          forall x, y, z | 0 <= x < grid.Length0 && 0 <= y < grid.Length1 && 0 <= z < grid.Length2
            ensures grid[x, y, z] == if InAny(Pos(x, y, z), placed + [newRoom]) then Room else old(grid[x, y, z])
          {
            InAnyAppend(Pos(x, y, z), placed, newRoom);
          }
          placed := placed + [newRoom];
        }
      }
      assert candidates[..|candidates|] == candidates;
    }

    /**
     * One attempt of `GenerateRooms`: the candidate is added and stamped
     * exactly when its buffer is clear of every room and it lies strictly
     * inside the grid; otherwise nothing changes.
     */
    method TryRoom(newRoom: BoundsInt) returns (add: bool)
      requires NonEmpty(newRoom)
      modifies this, grid
      ensures add <==> Accepts(old(rooms), newRoom, Size())
      ensures rooms == old(rooms) + (if add then [newRoom] else [])
      ensures forall x, y, z :: 0 <= x < grid.Length0 && 0 <= y < grid.Length1 && 0 <= z < grid.Length2 ==>
                grid[x, y, z] == if add && Inside(Pos(x, y, z), newRoom) then Room else old(grid[x, y, z])
      ensures selectedEdges == old(selectedEdges) && loopRate == old(loopRate)
      ensures hallwayPieces == old(hallwayPieces) && stairwayPieces == old(stairwayPieces) && doors == old(doors)
    {
      var buffer := Buffer(newRoom);
      add := BufferClear(buffer);
      if newRoom.position.x < 0 || newRoom.position.x + newRoom.size.x >= grid.Length0
        || newRoom.position.y < 0 || newRoom.position.y + newRoom.size.y >= grid.Length1
        || newRoom.position.z < 0 || newRoom.position.z + newRoom.size.z >= grid.Length2 {
        add := false;
      }
      if add {
        rooms := rooms + [newRoom];
        StampRoom(newRoom);
      }
    }

    /**
     * `GenerateHallways`, given the triangulation's edges (between room
     * indices) and the draws made for the remaining edges.
     */
    method GenerateHallways(edges: seq<Edge<nat>>, draws: seq<real>) returns (ghost mst: seq<Edge<nat>>, ghost picks: seq<nat>)
      requires |edges| > 0
      requires |draws| >= |edges|
      modifies this
      ensures PrimRun(edges, edges[0].u, mst, picks)
      ensures TreeVertices(edges[0].u, mst) <= Endpoints(edges) + {edges[0].u}
      ensures TreeVertices(edges[0].u, mst) == Endpoints(edges) + {edges[0].u}
              || NoCrossing(edges, TreeVertices(edges[0].u, mst))
      ensures selectedEdges == EdgeSelection.Selection(edges, mst, draws, loopRate)
      ensures rooms == old(rooms) && loopRate == old(loopRate)
      ensures hallwayPieces == old(hallwayPieces) && stairwayPieces == old(stairwayPieces) && doors == old(doors)
    {
      selectedEdges, mst, picks := EdgeSelection.SelectEdges(edges, draws, loopRate);
    }

    /** `grid[p] = v`, the indexer's setter: the one cell changes. */
    method Write(p: Pos, v: CellType)
      requires p in Cells(grid)
      modifies grid
      ensures Cells(grid) == old(Cells(grid))[p := v]
    {
      grid[p.x, p.y, p.z] := v;
      forall q | q in Cells(grid)
        ensures Cells(grid)[q] == old(Cells(grid))[p := v][q]
      {
        if q != p {
          assert q in old(Cells(grid));
        }
      }
    }

    /** `grid[cur] = Hallway` when the cell is empty. */
    method OpenAt(cur: Pos)
      requires cur in Cells(grid)
      modifies grid
      ensures Cells(grid) == OpenCell(old(Cells(grid)), cur)
    {
      if grid[cur.x, cur.y, cur.z] == None {
        Write(cur, Hallway);
      }
    }

    /** The four door branches for consecutive path cells `prev` and `cur`. */
    method PlaceDoor(prev: Pos, cur: Pos)
      requires prev in Cells(grid) && cur in Cells(grid)
      modifies this, grid
      ensures var door := DoorAt(old(Cells(grid)), prev, cur);
              && Cells(grid) == MakeDoor(old(Cells(grid)), door)
              && doors == old(doors) + (if door.Some? then [door.value] else [])
      ensures rooms == old(rooms) && selectedEdges == old(selectedEdges) && loopRate == old(loopRate)
      ensures hallwayPieces == old(hallwayPieces) && stairwayPieces == old(stairwayPieces)
    {
      var atCur := grid[cur.x, cur.y, cur.z];
      var atPrev := grid[prev.x, prev.y, prev.z];
      if atCur == Hallway && atPrev == Room {
        Write(prev, Door);
        doors := doors + [DoorRecord(prev, cur)];
      } else if atCur == Room && atPrev == Hallway {
        Write(cur, Door);
        doors := doors + [DoorRecord(cur, prev)];
      } else if atCur == Stairway && atPrev == Room {
        Write(prev, Door);
        doors := doors + [DoorRecord(prev, cur)];
      } else if atCur == Room && atPrev == Stairway {
        Write(cur, Door);
        doors := doors + [DoorRecord(cur, prev)];
      }
    }

    /** A change of level: the four footprint cells become stairway and the piece is recorded. */
    method PlaceStairs(prev: Pos, cur: Pos)
      requires FootprintIn(Cells(grid), prev, cur)
      modifies this, grid
      ensures Cells(grid) == StairCells(old(Cells(grid)), prev, cur)
      ensures stairwayPieces == old(stairwayPieces) + [StairPiece(Add(Vertical(prev, cur), Horizontal(prev, cur)), prev)]
      ensures rooms == old(rooms) && selectedEdges == old(selectedEdges) && loopRate == old(loopRate)
      ensures hallwayPieces == old(hallwayPieces) && doors == old(doors)
    {
      StampStairs(prev, cur);
      stairwayPieces := stairwayPieces + [StairPiece(Add(Vertical(prev, cur), Horizontal(prev, cur)), prev)];
    }

    /** The four writes of a staircase, at the footprint `Footprint(prev, cur)` computes. */
    method StampStairs(prev: Pos, cur: Pos)
      requires FootprintIn(Cells(grid), prev, cur)
      modifies grid
      ensures Cells(grid) == StairCells(old(Cells(grid)), prev, cur)
    {
      var f := Footprint(prev, cur);
      WriteFour(f[0], f[1], f[2], f[3], Stairway);
    }

    /** Four writes of the same value, in order. */
    method WriteFour(p0: Pos, p1: Pos, p2: Pos, p3: Pos, v: CellType)
      requires p0 in Cells(grid) && p1 in Cells(grid) && p2 in Cells(grid) && p3 in Cells(grid)
      modifies grid
      ensures Cells(grid) == old(Cells(grid))[p0 := v][p1 := v][p2 := v][p3 := v]
    {
      Write(p0, v);
      Write(p1, v);
      Write(p2, v);
      Write(p3, v);
    }

    /**
     * Iteration `i` of the carving loop of `PathfindHallways`: open the
     * path cell, apply the door rule with the cell before it, and build a
     * staircase when the level changes.
     */
    method CarveCell(path: seq<Pos>, i: nat)
      requires StepIn(Cells(grid), path, i)
      modifies this, grid
      ensures State() == Carving(StepCells(old(Cells(grid)), path, i), old(doors) + StepDoors(old(Cells(grid)), path, i),
                                 old(stairwayPieces) + StairsAt(path, i), old(hallwayPieces))
      ensures rooms == old(rooms) && selectedEdges == old(selectedEdges) && loopRate == old(loopRate)
    {
      ghost var c1, door, c2 := StepPhases(Cells(grid), path, i);
      var current := path[i];
      OpenAt(current);
      if i > 0 {
        var prev := path[i - 1];
        PlaceDoor(prev, current);
        if current.y - prev.y != 0 {
          PlaceStairs(prev, current);
        }
      }
    }

    /** The carving loop of `PathfindHallways` for one path found. */
    method CarvePath(path: seq<Pos>)
      requires Carvable(Cells(grid), path)
      modifies this, grid
      ensures State() == CarveRun(old(State()), path, |path|)
      ensures rooms == old(rooms) && selectedEdges == old(selectedEdges) && loopRate == old(loopRate)
    {
      ghost var s := State();
      for i := 0 to |path|
        invariant State() == CarveRun(s, path, i)
        invariant rooms == old(rooms) && selectedEdges == old(selectedEdges) && loopRate == old(loopRate)
      {
        ghost var u := CarveRunUnfold(s, path, i + 1);
        CarveCell(path, i);
      }
    }

    /**
     * The pass of `PathfindHallways` after carving a path: each path cell
     * that is now a hallway is appended to `hallwayPieces`.
     */
    method RecordHallways(path: seq<Pos>)
      requires PathIn(Cells(grid), path)
      modifies this
      ensures State() == Recorded(old(State()), path)
      ensures rooms == old(rooms) && selectedEdges == old(selectedEdges) && loopRate == old(loopRate)
    {
      ghost var now := Cells(grid);
      for k := 0 to |path|
        invariant hallwayPieces == old(hallwayPieces) + HallwayCells(now, path, k)
        invariant doors == old(doors) && stairwayPieces == old(stairwayPieces)
        invariant rooms == old(rooms) && selectedEdges == old(selectedEdges) && loopRate == old(loopRate)
      {
        var pos := path[k];
        if grid[pos.x, pos.y, pos.z] == Hallway {
          hallwayPieces := hallwayPieces + [pos];
        }
      }
    }

    /**
     * One iteration of `PathfindHallways`: the path found for selected edge
     * `k`, if any, is carved and its hallway cells recorded.
     */
    method PathfindStep(ghost s: Carving, paths: seq<Wrappers.Option<seq<Pos>>>, k: nat)
      requires k < |paths| && AllCarvable(s.cells, paths)
      requires State() == HandleAll(s, paths, k)
      modifies this, grid
      ensures State() == HandleAll(s, paths, k + 1)
      ensures rooms == old(rooms) && selectedEdges == old(selectedEdges) && loopRate == old(loopRate)
    {
      var path := paths[k];
      if path.Some? {
        CarvableKeys(s.cells, Cells(grid), path.value);
        CarvePath(path.value);
        RecordHallways(path.value);
      }
    }

    /**
     * `PathfindHallways`, given the path the path finder returned for each
     * selected edge, in order (`None` when it found none). Every path must
     * lie on the grid, staircase footprints included: the source indexes
     * those cells without a bounds check.
     */
    method PathfindHallways(paths: seq<Wrappers.Option<seq<Pos>>>)
      requires |paths| == |selectedEdges|
      requires AllCarvable(Cells(grid), paths)
      modifies this, grid
      ensures State() == HandleAll(old(State()), paths, |paths|)
      ensures Keeps(old(State()), State())
      ensures forall k :: 0 <= k < |paths| && paths[k].Some? ==> Carved(Cells(grid), paths[k].value)
      ensures forall q :: q in old(Cells(grid)) && Untouched(paths, |paths|, q) ==> Cells(grid)[q] == old(Cells(grid))[q]
      ensures rooms == old(rooms) && selectedEdges == old(selectedEdges) && loopRate == old(loopRate)
    {
      ghost var s := State();
      for k := 0 to |selectedEdges|
        invariant State() == HandleAll(s, paths, k)
        invariant rooms == old(rooms) && selectedEdges == old(selectedEdges) && loopRate == old(loopRate)
      {
        PathfindStep(s, paths, k);
      }
      HandleAllKeeps(s, paths, |paths|);
    }

    /**
     * `isDoorway`: `checkDoor` is a door and `checkHall` a hallway. Only
     * `x` and `z` are checked against the grid; the source indexes the
     * grid with `y` unchecked, so callers must keep `y` in range wherever
     * it is read.
     */
    predicate IsDoorway(checkDoor: Pos, checkHall: Pos)
      reads grid
      requires 0 <= checkDoor.x < grid.Length0 && 0 <= checkDoor.z < grid.Length2
               && 0 <= checkHall.x < grid.Length0 && 0 <= checkHall.z < grid.Length2
               ==> 0 <= checkDoor.y < grid.Length1
                   && (grid[checkDoor.x, checkDoor.y, checkDoor.z] == Door ==> 0 <= checkHall.y < grid.Length1)
    {
      if checkDoor.x < 0 || checkDoor.x >= grid.Length0 || checkDoor.z < 0 || checkDoor.z >= grid.Length2 then false
      else if checkHall.x < 0 || checkHall.x >= grid.Length0 || checkHall.z < 0 || checkHall.z >= grid.Length2 then false
      else grid[checkDoor.x, checkDoor.y, checkDoor.z] == Door && grid[checkHall.x, checkHall.y, checkHall.z] == Hallway
    }

    /** The x/z-only checks of `isDoorway` amount to both cells being on the grid, a door and a hallway. */
    lemma IsDoorwayCells(checkDoor: Pos, checkHall: Pos)
      requires 0 <= checkDoor.x < grid.Length0 && 0 <= checkDoor.z < grid.Length2
               && 0 <= checkHall.x < grid.Length0 && 0 <= checkHall.z < grid.Length2
               ==> 0 <= checkDoor.y < grid.Length1
                   && (grid[checkDoor.x, checkDoor.y, checkDoor.z] == Door ==> 0 <= checkHall.y < grid.Length1)
      ensures IsDoorway(checkDoor, checkHall) <==>
              && checkDoor in Cells(grid) && checkHall in Cells(grid)
              && Cells(grid)[checkDoor] == Door && Cells(grid)[checkHall] == Hallway
    {
    }
  }
}
