/**
 The walk cache of a creature: a 23 x 23 window of "can I step there" bits centred on the
 creature. A step shifts the window in place and reads only the row and column that come into
 view; this module proves when that agrees with looking at every tile again.
 */
module WalkCache {

  // Map::maxViewportX == Map::maxViewportY == 11, so the window is 23 x 23.
  const MAX_WIDTH := 11
  const MAX_HEIGHT := 11
  const WIDTH := 2 * MAX_WIDTH + 1
  const HEIGHT := 2 * MAX_HEIGHT + 1

  datatype Position = Position(x: int, y: int, z: int)

  predicate OnMap(x: int, y: int) {
    0 <= x < 0x1_0000 && 0 <= y < 0x1_0000
  }

  /** Coordinates are unsigned 16-bit numbers. */
  function Wrap(v: int): int {
    v % 0x1_0000
  }

  /** Whether the creature may step on a tile; false where there is no tile. */
  type Passability = (int, int, int) -> bool

  function TileAt(pass: Passability, x: int, y: int, z: int): bool {
    pass(Wrap(x), Wrap(y), z)
  }

  function Abs(v: int): int {
    if v < 0 then -v else v
  }

  predicate InWindow(dx: int, dy: int) {
    Abs(dx) <= MAX_WIDTH && Abs(dy) <= MAX_HEIGHT
  }

  /** A snapshot of the window: rows from north to south, cells from west to east. */
  type Grid = g: seq<seq<bool>> | |g| == HEIGHT && forall r :: 0 <= r < HEIGHT ==> |g[r]| == WIDTH
    witness seq(HEIGHT, _ => seq(WIDTH, _ => false))

  function Cell(g: Grid, dx: int, dy: int): bool
    requires InWindow(dx, dy)
  {
    g[MAX_HEIGHT + dy][MAX_WIDTH + dx]
  }

  function SetCell(g: Grid, dx: int, dy: int, v: bool): Grid {
    if InWindow(dx, dy)
    then g[MAX_HEIGHT + dy := g[MAX_HEIGHT + dy][MAX_WIDTH + dx := v]]
    else g
  }

  /** Every window cell that lies on the map, except the creature's own, shows the tile there. */
  ghost predicate Coherent(g: Grid, me: Position, pass: Passability) {
    forall dx, dy {:trigger Cell(g, dx, dy)} ::
      InWindow(dx, dy) && (dx != 0 || dy != 0) && OnMap(me.x + dx, me.y + dy) ==>
        Cell(g, dx, dy) == pass(me.x + dx, me.y + dy, me.z)
  }

  /** As Coherent, but for the tiles whose cells may be out of date. */
  ghost predicate CoherentExcept(g: Grid, me: Position, pass: Passability, stale: set<Position>) {
    forall dx, dy {:trigger Cell(g, dx, dy)} ::
      InWindow(dx, dy) && (dx != 0 || dy != 0) && OnMap(me.x + dx, me.y + dy)
      && Position(me.x + dx, me.y + dy, me.z) !in stale ==>
        Cell(g, dx, dy) == pass(me.x + dx, me.y + dy, me.z)
  }

  // ----- what each cache operation does to the whole window

  function FullRow(row: seq<bool>, me: Position, dy: int, pass: Passability): (full: seq<bool>)
    requires |row| == WIDTH
    ensures |full| == WIDTH
  {
    seq(WIDTH, c requires 0 <= c < WIDTH =>
      if OnMap(me.x + c - MAX_WIDTH, me.y + dy) then pass(me.x + c - MAX_WIDTH, me.y + dy, me.z) else row[c])
  }

  /** A full refresh leaves alone the cells that lie off the map. */
  function FullGrid(g: Grid, me: Position, pass: Passability): Grid {
    seq(HEIGHT, r requires 0 <= r < HEIGHT => FullRow(g[r], me, r - MAX_HEIGHT, pass))
  }

  function FreshRow(me: Position, dy: int, pass: Passability): (row: seq<bool>)
    ensures |row| == WIDTH
  {
    seq(WIDTH, c requires 0 <= c < WIDTH => TileAt(pass, me.x + c - MAX_WIDTH, me.y + dy, me.z))
  }

  function WithColumn(g: Grid, me: Position, dx: int, pass: Passability): Grid
    requires Abs(dx) == MAX_WIDTH
  {
    seq(HEIGHT, r requires 0 <= r < HEIGHT =>
      g[r][MAX_WIDTH + dx := TileAt(pass, me.x + dx, me.y + r - MAX_HEIGHT, me.z)])
  }

  function ShiftRows(g: Grid, prev: Position, me: Position, pass: Passability): Grid {
    if prev.y > me.y then [FreshRow(me, -MAX_HEIGHT, pass)] + g[..HEIGHT - 1]
    else if prev.y < me.y then g[1..] + [FreshRow(me, MAX_HEIGHT, pass)]
    else g
  }

  /** Position::getDistanceY. */
  function DistanceY(a: Position, b: Position): int {
    Abs(a.y - b.y)
  }

  /** The rows that a column shift reaches, given the row difference it goes by. */
  predicate Reached(d: int, r: int) {
    (if d > 0 then d else 0) <= r <= (if d < 0 then HEIGHT - 1 + d else HEIGHT - 1)
  }

  /** The column shift, going by the row difference d. */
  function ShiftColumns(g: Grid, prev: Position, me: Position, pass: Passability, d: int): Grid {
    if prev.x < me.x then
      seq(HEIGHT, r requires 0 <= r < HEIGHT =>
        (if Reached(d, r) then g[r][1..] else g[r][..WIDTH - 1])
        + [TileAt(pass, me.x + MAX_WIDTH, me.y + r - MAX_HEIGHT, me.z)])
    else if prev.x > me.x then
      seq(HEIGHT, r requires 0 <= r < HEIGHT =>
        [TileAt(pass, me.x - MAX_WIDTH, me.y + r - MAX_HEIGHT, me.z)]
        + (if Reached(d, r) then g[r][..WIDTH - 1] else g[r][1..]))
    else g
  }

  function StepGrid(g: Grid, prev: Position, me: Position, pass: Passability, d: int): Grid {
    SetCell(ShiftColumns(ShiftRows(g, prev, me, pass), prev, me, pass, d),
            prev.x - me.x, prev.y - me.y, pass(prev.x, prev.y, prev.z))
  }

  function MoveGrid(g: Grid, prev: Position, me: Position, teleport: bool, pass: Passability): Grid {
    if teleport || prev.z != me.z then FullGrid(g, me, pass) else StepGrid(g, prev, me, pass, DistanceY(prev, me))
  }

  /** One tile on the creature's floor is looked at again. */
  function TileGrid(g: Grid, me: Position, pos: Position, pass: Passability): Grid {
    if pos.z == me.z then SetCell(g, pos.x - me.x, pos.y - me.y, pass(pos.x, pos.y, pos.z)) else g
  }

  /** A coordinate that wraps around is nowhere near the creature. */
  lemma {:induction false} WrapOffset(center: int, d: int, max: int)
    requires 0 <= center < 0x1_0000 && Abs(d) <= max < 100
    ensures 0 <= center + d < 0x1_0000 ==> Wrap(center + d) - center == d
    ensures !(0 <= center + d < 0x1_0000) ==> Abs(Wrap(center + d) - center) > max
  {
  }

  /** Overwriting one sequence by another from the left, one place further. */
  lemma {:induction false} Overwrite<T>(to: seq<T>, from: seq<T>, k: nat)
    requires |to| == |from| && k < |to|
    ensures (to[..k] + from[k..])[k := to[k]] == to[..k + 1] + from[k + 1..]
    ensures to[k] == from[k] ==> to[..k] + from[k..] == to[..k + 1] + from[k + 1..]
  {
  }

  /** Rewriting an end of a row, shifted or not. */
  lemma {:induction false} EndCell(row: seq<bool>, v: bool)
    requires |row| == WIDTH
    ensures row[WIDTH - 1 := v] == row[..WIDTH - 1] + [v]
    ensures (row[1..] + [row[WIDTH - 1]])[WIDTH - 1 := v] == row[1..] + [v]
    ensures row[0 := v] == [v] + row[1..]
    ensures ([row[0]] + row[..WIDTH - 1])[0 := v] == [v] + row[..WIDTH - 1]
  {
  }

  /** The same from the right. */
  lemma {:induction false} OverwriteBack<T>(to: seq<T>, from: seq<T>, k: nat)
    requires |to| == |from| && k < |to|
    ensures (from[..k + 1] + to[k + 1..])[k := to[k]] == from[..k] + to[k..]
  {
  }

  class Creature {
    var position: Position
    const localMapCache: array<seq<bool>>  // one sequence of cells for each row

    ghost predicate Valid()
      reads this, localMapCache
    {
      && localMapCache.Length == HEIGHT
      && (forall r :: 0 <= r < HEIGHT ==> |localMapCache[r]| == WIDTH)
      && OnMap(position.x, position.y)
    }

    ghost function Cache(): Grid
      requires Valid()
      reads this, localMapCache
    {
      localMapCache[..]
    }

    constructor (position: Position)
      requires OnMap(position.x, position.y)
      ensures Valid() && this.position == position && fresh(localMapCache)
      ensures forall r, c :: 0 <= r < HEIGHT && 0 <= c < WIDTH ==> !Cache()[r][c]
    {
      this.position := position;
      localMapCache := new seq<bool>[HEIGHT](_ => seq(WIDTH, _ => false));
    }

    method UpdateTileCacheAt(passable: bool, dx: int, dy: int)
      requires Valid()
      modifies localMapCache
      ensures Valid() && Cache() == SetCell(old(Cache()), dx, dy, passable)
    {
      if InWindow(dx, dy) {
        var row := localMapCache[MAX_HEIGHT + dy];
        localMapCache[MAX_HEIGHT + dy] := row[MAX_WIDTH + dx := passable];
      }
    }

    method UpdateTileCache(passable: bool, pos: Position)
      requires Valid()
      modifies localMapCache
      ensures Valid()
      ensures Cache() == if pos.z == position.z
                         then SetCell(old(Cache()), pos.x - position.x, pos.y - position.y, passable)
                         else old(Cache())
    {
      if pos.z == position.z {
        UpdateTileCacheAt(passable, pos.x - position.x, pos.y - position.y);
      }
    }

    method UpdateMapCache(pass: Passability)
      requires Valid()
      modifies localMapCache
      ensures Valid() && Cache() == FullGrid(old(Cache()), position, pass)
    {
      ghost var before := Cache();
      for y := -MAX_HEIGHT to MAX_HEIGHT + 1
        invariant Valid()
        invariant forall r :: 0 <= r < HEIGHT ==>
          Cache()[r] == if r < MAX_HEIGHT + y then FullRow(before[r], position, r - MAX_HEIGHT, pass) else before[r]
      {
        UpdateMapCacheRow(y, pass);
      }
    }

    /** One cell of a full refresh: the coordinates are stored as unsigned 16-bit numbers before the
        offset from the creature is taken again, so a cell off the map is not written. */
    method UpdateWrapped(x: int, y: int, pass: Passability)
      requires Valid() && InWindow(x, y)
      modifies localMapCache
      ensures Valid()
      ensures Cache() == if OnMap(position.x + x, position.y + y)
                         then SetCell(old(Cache()), x, y, pass(position.x + x, position.y + y, position.z))
                         else old(Cache())
    {
      var pos := Position(Wrap(position.x + x), Wrap(position.y + y), position.z);
      WrapOffset(position.x, x, MAX_WIDTH);
      WrapOffset(position.y, y, MAX_HEIGHT);
      UpdateTileCache(pass(pos.x, pos.y, pos.z), pos);
    }

    /** The inner loop of UpdateMapCache. */
    method UpdateMapCacheRow(y: int, pass: Passability)
      requires Valid() && Abs(y) <= MAX_HEIGHT
      modifies localMapCache
      ensures Valid() && Cache() == old(Cache())[MAX_HEIGHT + y :=
                                                 FullRow(old(Cache())[MAX_HEIGHT + y], position, y, pass)]
    {
      ghost var row := Cache()[MAX_HEIGHT + y];
      ghost var full := FullRow(row, position, y, pass);
      assert full[..0] + row[0..] == row;
      for x := -MAX_WIDTH to MAX_WIDTH + 1
        invariant Valid()
        invariant Cache() == old(Cache())[MAX_HEIGHT + y := full[..MAX_WIDTH + x] + row[MAX_WIDTH + x..]]
      {
        UpdateCellOfRow(x, y, pass, full, row, old(Cache()));
      }
      assert full[..WIDTH] + row[WIDTH..] == full;
    }

    /** One cell of a row; full is the row when it is finished. */
    method UpdateCellOfRow(x: int, y: int, pass: Passability, ghost full: seq<bool>, ghost row: seq<bool>,
                           ghost before: Grid)
      requires Valid() && InWindow(x, y) && |full| == |row| == WIDTH
      requires Cache() == before[MAX_HEIGHT + y := full[..MAX_WIDTH + x] + row[MAX_WIDTH + x..]]
      requires full[MAX_WIDTH + x] == if OnMap(position.x + x, position.y + y)
                                      then pass(position.x + x, position.y + y, position.z) else row[MAX_WIDTH + x]
      modifies localMapCache
      ensures Valid() && Cache() == before[MAX_HEIGHT + y := full[..MAX_WIDTH + x + 1] + row[MAX_WIDTH + x + 1..]]
    {
      Overwrite(full, row, MAX_WIDTH + x);
      UpdateWrapped(x, y, pass);
    }

    /** Copies one row of the window over another. */
    method CopyRow(from: nat, to: nat)
      requires Valid() && from < HEIGHT && to < HEIGHT
      modifies localMapCache
      ensures Valid() && Cache() == old(Cache())[to := old(Cache())[from]]
    {
      localMapCache[to] := localMapCache[from];
    }

    /** Reads again every tile of the northernmost (dy < 0) or southernmost (dy > 0) row. */
    method RefreshRow(dy: int, pass: Passability)
      requires Valid() && Abs(dy) == MAX_HEIGHT
      modifies localMapCache
      ensures Valid() && Cache() == old(Cache())[MAX_HEIGHT + dy := FreshRow(position, dy, pass)]
    {
      ghost var row := Cache()[MAX_HEIGHT + dy];
      ghost var target := FreshRow(position, dy, pass);
      assert target[..0] + row[0..] == row;
      for x := -MAX_WIDTH to MAX_WIDTH + 1
        invariant Valid()
        invariant Cache() == old(Cache())[MAX_HEIGHT + dy := target[..MAX_WIDTH + x] + row[MAX_WIDTH + x..]]
      {
        Overwrite(target, row, MAX_WIDTH + x);
        UpdateTileCacheAt(TileAt(pass, position.x + x, position.y + dy, position.z), x, dy);
      }
      assert target[..WIDTH] + row[WIDTH..] == target;
    }

    /** Reads again every tile of the westernmost (dx < 0) or easternmost (dx > 0) column. */
    method RefreshColumn(dx: int, pass: Passability)
      requires Valid() && Abs(dx) == MAX_WIDTH
      modifies localMapCache
      ensures Valid() && Cache() == WithColumn(old(Cache()), position, dx, pass)
    {
      ghost var before := Cache();
      ghost var target := WithColumn(before, position, dx, pass);
      for y := -MAX_HEIGHT to MAX_HEIGHT + 1
        invariant Valid()
        invariant forall r :: 0 <= r < HEIGHT ==>
                                Cache()[r] == if r < MAX_HEIGHT + y then target[r] else before[r]
      {
        UpdateTileCacheAt(TileAt(pass, position.x + dx, position.y + y, position.z), dx, y);
      }
    }

    /** The vertical half of a step. */
    method ShiftRowsInPlace(prev: Position, pass: Passability)
      requires Valid()
      modifies localMapCache
      ensures Valid() && Cache() == ShiftRows(old(Cache()), prev, position, pass)
    {
      ghost var before := Cache();
      if prev.y > position.y {
        ghost var target := before[..1] + before[..HEIGHT - 1];
        assert before[..HEIGHT] + target[HEIGHT..] == before;
        for y := HEIGHT - 1 downto 0
          invariant Valid()
          invariant Cache() == before[..y + 1] + target[y + 1..]
        {
          OverwriteBack(target, before, y + 1);
          CopyRow(y, y + 1);
        }
        RefreshRow(-MAX_HEIGHT, pass);
      } else if prev.y < position.y {
        ghost var target := before[1..] + before[HEIGHT - 1..];
        assert target[..0] + before[0..] == before;
        for y := 0 to HEIGHT - 1
          invariant Valid()
          invariant Cache() == target[..y] + before[y..]
        {
          Overwrite(target, before, y);
          CopyRow(y + 1, y);
        }
        RefreshRow(MAX_HEIGHT, pass);
      }
    }

    /** Copies one cell of a row over another cell of that row. */
    method CopyCell(y: nat, from: nat, to: nat)
      requires Valid() && y < HEIGHT && from < WIDTH && to < WIDTH
      modifies localMapCache
      ensures Valid() && Cache() == old(Cache())[y := old(Cache())[y][to := old(Cache())[y][from]]]
    {
      localMapCache[y] := localMapCache[y][to := localMapCache[y][from]];
    }

    /** Moves the cells of one row one place west. */
    method ShiftRowWest(y: nat)
      requires Valid() && y < HEIGHT
      modifies localMapCache
      ensures Valid() && Cache() == old(Cache())[y := old(Cache())[y][1..] + [old(Cache())[y][WIDTH - 1]]]
    {
      ghost var row := Cache()[y];
      ghost var target := row[1..] + [row[WIDTH - 1]];
      assert target[..0] + row[0..] == row;
      for x := 0 to WIDTH - 1
        invariant Valid()
        invariant Cache() == old(Cache())[y := target[..x] + row[x..]]
      {
        Overwrite(target, row, x);
        CopyCell(y, x + 1, x);
      }
      assert target[..WIDTH - 1] + row[WIDTH - 1..] == target;
    }

    /** Moves the cells of one row one place east. */
    method ShiftRowEast(y: nat)
      requires Valid() && y < HEIGHT
      modifies localMapCache
      ensures Valid() && Cache() == old(Cache())[y := [old(Cache())[y][0]] + old(Cache())[y][..WIDTH - 1]]
    {
      ghost var row := Cache()[y];
      ghost var target := [row[0]] + row[..WIDTH - 1];
      assert row[..WIDTH] + target[WIDTH..] == row;
      for x := WIDTH - 1 downto 0
        invariant Valid()
        invariant Cache() == old(Cache())[y := row[..x + 1] + target[x + 1..]]
      {
        OverwriteBack(target, row, x + 1);
        CopyCell(y, x, x + 1);
      }
      assert row[..1] + target[1..] == target;
    }

    /** The horizontal half of a step, going by the row difference dy. */
    method ShiftColumnsInPlace(prev: Position, pass: Passability, dy: int)
      requires Valid() && Abs(dy) <= 1
      modifies localMapCache
      ensures Valid() && Cache() == ShiftColumns(old(Cache()), prev, position, pass, dy)
    {
      if prev.x != position.x {
        var startY, endY := 0, HEIGHT - 1;
        if dy < 0 { endY := endY + dy; } else if dy > 0 { startY := dy; }
        if prev.x < position.x {
          ShiftWest(startY, endY, prev, pass, dy);
        } else {
          ShiftEast(startY, endY, prev, pass, dy);
        }
      }
    }

    /** The creature has gone east, so the cells move west. */
    method ShiftWest(startY: nat, endY: nat, ghost prev: Position, pass: Passability, ghost dy: int)
      requires Valid() && prev.x < position.x && startY <= endY < HEIGHT
               && forall r :: Reached(dy, r) <==> startY <= r <= endY
      modifies localMapCache
      ensures Valid() && Cache() == ShiftColumns(old(Cache()), prev, position, pass, dy)
    {
      ghost var before := Cache();
      for y := startY to endY + 1
        invariant Valid()
        invariant forall r :: 0 <= r < HEIGHT ==>
          Cache()[r] == if startY <= r < y then before[r][1..] + [before[r][WIDTH - 1]] else before[r]
      {
        ShiftRowWest(y);
      }
      RefreshColumn(MAX_WIDTH, pass);
      forall r | 0 <= r < HEIGHT
        ensures Cache()[r] == ShiftColumns(before, prev, position, pass, dy)[r]
      {
        EndCell(before[r], TileAt(pass, position.x + MAX_WIDTH, position.y + r - MAX_HEIGHT, position.z));
      }
    }

    /** The creature has gone west, so the cells move east. */
    method ShiftEast(startY: nat, endY: nat, ghost prev: Position, pass: Passability, ghost dy: int)
      requires Valid() && prev.x > position.x && startY <= endY < HEIGHT
               && forall r :: Reached(dy, r) <==> startY <= r <= endY
      modifies localMapCache
      ensures Valid() && Cache() == ShiftColumns(old(Cache()), prev, position, pass, dy)
    {
      ghost var before := Cache();
      for y := startY to endY + 1
        invariant Valid()
        invariant forall r :: 0 <= r < HEIGHT ==>
          Cache()[r] == if startY <= r < y then [before[r][0]] + before[r][..WIDTH - 1] else before[r]
      {
        ShiftRowEast(y);
      }
      RefreshColumn(-MAX_WIDTH, pass);
      forall r | 0 <= r < HEIGHT
        ensures Cache()[r] == ShiftColumns(before, prev, position, pass, dy)[r]
      {
        EndCell(before[r], TileAt(pass, position.x - MAX_WIDTH, position.y + r - MAX_HEIGHT, position.z));
      }
    }

    /** The creature itself has moved from prev to its present position. */
    method OnCreatureMoveSelf(prev: Position, teleport: bool, pass: Passability)
      requires Valid() && OnMap(prev.x, prev.y)
      requires !teleport ==> Abs(prev.x - position.x) <= 1 && Abs(prev.y - position.y) <= 1
      modifies localMapCache
      ensures Valid() && Cache() == MoveGrid(old(Cache()), prev, position, teleport, pass)
    {
      if teleport || prev.z != position.z {
        UpdateMapCache(pass);
      } else {
        StepInPlace(prev, pass, DistanceY(prev, position));
      }
    }

    /** A step to a neighbouring tile, the columns shifted by the row difference dy. */
    method StepInPlace(prev: Position, pass: Passability, dy: int)
      requires Valid() && OnMap(prev.x, prev.y) && prev.z == position.z && Abs(dy) <= 1
      modifies localMapCache
      ensures Valid() && Cache() == StepGrid(old(Cache()), prev, position, pass, dy)
    {
      ShiftRowsInPlace(prev, pass);
      ShiftColumnsInPlace(prev, pass, dy);
      UpdateTileCache(pass(prev.x, prev.y, prev.z), prev);
    }

    /** Another creature has moved from prev to now. */
    method OnCreatureMoveOther(prev: Position, now: Position, pass: Passability)
      requires Valid()
      modifies localMapCache
      ensures Valid() && Cache() == TileGrid(TileGrid(old(Cache()), position, now, pass), position, prev, pass)
    {
      if now.z == position.z {
        UpdateTileCache(pass(now.x, now.y, now.z), now);
      }
      if prev.z == position.z {
        UpdateTileCache(pass(prev.x, prev.y, prev.z), prev);
      }
    }

    /** 0: blocked, 1: free, 2: not known to the cache, which only monsters use. */
    method GetWalkCache(useCacheMap: bool, pos: Position, ghost pass: Passability) returns (r: int)
      requires Valid()
      requires OnMap(pos.x, pos.y)
      ensures useCacheMap && Coherent(Cache(), position, pass) && pos.z == position.z && pos != position
              && InWindow(pos.x - position.x, pos.y - position.y)
              ==> r == if pass(pos.x, pos.y, pos.z) then 1 else 0
      ensures r == 2 <==> !useCacheMap
                          || (pos.z == position.z && pos != position
                              && !InWindow(pos.x - position.x, pos.y - position.y))
      ensures useCacheMap && pos.z != position.z ==> r == 0
      ensures useCacheMap && pos == position ==> r == 1
    {
      if !useCacheMap { return 2; }
      if position.z != pos.z { return 0; }
      if pos == position { return 1; }
      var dx := pos.x - position.x;
      if Abs(dx) <= MAX_WIDTH {
        var dy := pos.y - position.y;
        if Abs(dy) <= MAX_HEIGHT {
          assert localMapCache[MAX_HEIGHT + dy][MAX_WIDTH + dx] == Cell(Cache(), dx, dy);
          return if localMapCache[MAX_HEIGHT + dy][MAX_WIDTH + dx] then 1 else 0;
        }
      }
      return 2;
    }
  }

  // ----- coherence

  ghost predicate Adjacent(prev: Position, me: Position) {
    && OnMap(prev.x, prev.y) && OnMap(me.x, me.y) && prev.z == me.z && prev != me
    && Abs(prev.x - me.x) <= 1 && Abs(prev.y - me.y) <= 1
  }

  /** A step to the south-east or south-west: the moves the shift gets wrong. */
  predicate SouthDiagonal(prev: Position, me: Position) {
    prev.y < me.y && prev.x != me.x
  }

  /** The tiles have not changed between the two moments, except at the given positions. */
  ghost predicate SameElsewhere(before: Passability, after: Passability, changed: set<Position>) {
    forall x, y, z {:trigger after(x, y, z)} :: OnMap(x, y) && Position(x, y, z) !in changed ==>
      before(x, y, z) == after(x, y, z)
  }

  /** The row shift moves every cell with the creature; the row that came into view is read. */
  lemma {:induction false} ShiftedRow(g: Grid, prev: Position, me: Position, pass: Passability, dx: int, dy: int)
    requires Abs(prev.y - me.y) <= 1 && InWindow(dx, dy)
    ensures Cell(ShiftRows(g, prev, me, pass), dx, dy)
            == if InWindow(dx, dy + me.y - prev.y) then Cell(g, dx, dy + me.y - prev.y)
               else TileAt(pass, me.x + dx, me.y + dy, me.z)
  {
  }

  /** The row at the edge that a column shift leaves alone: the one that the row difference says is new. */
  predicate LeftAlone(d: int, dy: int) {
    (d > 0 && dy == -MAX_HEIGHT) || (d < 0 && dy == MAX_HEIGHT)
  }

  /** The column shift, where it acts, moves every cell with the creature. */
  lemma {:induction false} ShiftedColumn(g: Grid, prev: Position, me: Position, pass: Passability, d: int, dx: int,
                                         dy: int)
    requires Abs(d) <= 1 && Abs(prev.x - me.x) <= 1 && InWindow(dx, dy)
    ensures Cell(ShiftColumns(g, prev, me, pass, d), dx, dy)
            == if !InWindow(dx + me.x - prev.x, dy) then TileAt(pass, me.x + dx, me.y + dy, me.z)
               else if LeftAlone(d, dy) then Cell(g, dx, dy)
               else Cell(g, dx + me.x - prev.x, dy)
  {
  }

  /** What a step puts into one cell, cell by cell: the tile the creature left, a tile that came
      into view, or an older cell. fromX is off by the horizontal step in the row that the column
      shift leaves alone. */
  function SteppedCell(g: Grid, prev: Position, me: Position, pass: Passability, d: int, dx: int, dy: int): bool
    requires InWindow(dx, dy)
  {
    var sx, sy := me.x - prev.x, me.y - prev.y;
    var fromX := if LeftAlone(d, dy) then dx else dx + sx;
    if dx == -sx && dy == -sy then pass(prev.x, prev.y, prev.z)
    else if !InWindow(dx + sx, dy) then TileAt(pass, me.x + dx, me.y + dy, me.z)
    else if !InWindow(fromX, dy + sy) then TileAt(pass, me.x + fromX, me.y + dy, me.z)
    else Cell(g, fromX, dy + sy)
  }

  ghost predicate Stepped(g: Grid, prev: Position, me: Position, pass: Passability, d: int, h: Grid) {
    forall dx, dy {:trigger Cell(h, dx, dy)} :: InWindow(dx, dy) ==>
      Cell(h, dx, dy) == SteppedCell(g, prev, me, pass, d, dx, dy)
  }

  lemma {:induction false} StepGridCell(g: Grid, prev: Position, me: Position, pass: Passability, d: int, dx: int,
                                        dy: int)
    requires Adjacent(prev, me) && InWindow(dx, dy) && Abs(d) <= 1
    ensures Cell(StepGrid(g, prev, me, pass, d), dx, dy) == SteppedCell(g, prev, me, pass, d, dx, dy)
  {
    var rows := ShiftRows(g, prev, me, pass);
    var sx := me.x - prev.x;
    ShiftedColumn(rows, prev, me, pass, d, dx, dy);
    ShiftedRow(g, prev, me, pass, dx, dy);
    if InWindow(dx + sx, dy) {
      ShiftedRow(g, prev, me, pass, dx + sx, dy);
    }
    OneCell(g, rows, ShiftColumns(rows, prev, me, pass, d), prev, me, pass, d, dx, dy);
  }

  /** What the two shifts say about one cell, put together. */
  lemma {:induction false} OneCell(g: Grid, rows: Grid, cols: Grid, prev: Position, me: Position, pass: Passability,
                                   d: int, dx: int, dy: int)
    requires Adjacent(prev, me) && InWindow(dx, dy)
    requires Cell(cols, dx, dy)
             == if !InWindow(dx + me.x - prev.x, dy) then TileAt(pass, me.x + dx, me.y + dy, me.z)
                else if LeftAlone(d, dy) then Cell(rows, dx, dy)
                else Cell(rows, dx + me.x - prev.x, dy)
    requires Cell(rows, dx, dy)
             == if InWindow(dx, dy + me.y - prev.y) then Cell(g, dx, dy + me.y - prev.y)
                else TileAt(pass, me.x + dx, me.y + dy, me.z)
    requires var x := dx + me.x - prev.x;
             InWindow(x, dy) ==>
               Cell(rows, x, dy)
               == if InWindow(x, dy + me.y - prev.y) then Cell(g, x, dy + me.y - prev.y)
                  else TileAt(pass, me.x + x, me.y + dy, me.z)
    ensures Cell(SetCell(cols, prev.x - me.x, prev.y - me.y, pass(prev.x, prev.y, prev.z)), dx, dy)
            == SteppedCell(g, prev, me, pass, d, dx, dy)
  {
    CellOfSetCell(cols, prev.x - me.x, prev.y - me.y, pass(prev.x, prev.y, prev.z), dx, dy);
  }

  /** The two in-place shifts and the refreshes between them amount to SteppedCell. */
  lemma {:induction false} StepGridIsStepped(g: Grid, prev: Position, me: Position, pass: Passability, d: int)
    requires Adjacent(prev, me) && Abs(d) <= 1
    ensures Stepped(g, prev, me, pass, d, StepGrid(g, prev, me, pass, d))
  {
    forall dx, dy | InWindow(dx, dy)
      ensures Cell(StepGrid(g, prev, me, pass, d), dx, dy) == SteppedCell(g, prev, me, pass, d, dx, dy)
    {
      StepGridCell(g, prev, me, pass, d, dx, dy);
    }
  }

  lemma {:induction false} CellOfSetCell(g: Grid, x: int, y: int, v: bool, dx: int, dy: int)
    requires InWindow(x, y) && InWindow(dx, dy)
    ensures Cell(SetCell(g, x, y, v), dx, dy) == if dx == x && dy == y then v else Cell(g, dx, dy)
  {
  }

  /** The shift goes by the true row difference, or there is no column shift at all. */
  predicate GoodDifference(prev: Position, me: Position, d: int) {
    Abs(d) <= 1 && (d == prev.y - me.y || prev.x == me.x)
  }

  /** With a good row difference, a cell after a step is looked at again or is the cell that showed the same tile. */
  lemma {:induction false} CameFrom(g: Grid, prev: Position, me: Position, pass: Passability, d: int, dx: int, dy: int)
    returns (older: bool)
    requires Adjacent(prev, me) && GoodDifference(prev, me, d)
    requires InWindow(dx, dy) && (dx != 0 || dy != 0) && OnMap(me.x + dx, me.y + dy)
    ensures var sx, sy := me.x - prev.x, me.y - prev.y;
            if older then
              InWindow(dx + sx, dy + sy) && (dx + sx != 0 || dy + sy != 0)
              && SteppedCell(g, prev, me, pass, d, dx, dy) == Cell(g, dx + sx, dy + sy)
            else SteppedCell(g, prev, me, pass, d, dx, dy) == pass(me.x + dx, me.y + dy, me.z)
  {
    var sx, sy := me.x - prev.x, me.y - prev.y;
    var fromX := if LeftAlone(d, dy) then dx else dx + sx;
    older := (dx != -sx || dy != -sy) && InWindow(dx + sx, dy) && InWindow(fromX, dy + sy);
    if dx == -sx && dy == -sy {
      assert prev.x == me.x + dx && prev.y == me.y + dy;
    } else {
      assert TileAt(pass, me.x + dx, me.y + dy, me.z) == pass(me.x + dx, me.y + dy, me.z);
      if older {
        assert fromX == dx + sx;
      } else if InWindow(dx + sx, dy) {
        assert fromX == dx;
      }
    }
  }

  /** One cell after a step with a good row difference. */
  lemma {:induction false} SteppedCellIsRight(g: Grid, prev: Position, me: Position, before: Passability,
                                              after: Passability, d: int, dx: int, dy: int)
    requires Adjacent(prev, me) && GoodDifference(prev, me, d)
    requires InWindow(dx, dy) && (dx != 0 || dy != 0) && OnMap(me.x + dx, me.y + dy)
    requires Coherent(g, prev, before) && SameElsewhere(before, after, {prev, me})
    ensures SteppedCell(g, prev, me, after, d, dx, dy) == after(me.x + dx, me.y + dy, me.z)
  {
    var older := CameFrom(g, prev, me, after, d, dx, dy);
    if older {
      OldCellIsRight(g, prev, me, before, after, dx + me.x - prev.x, dy + me.y - prev.y, me.x + dx, me.y + dy);
    }
  }

  /** A cell that is not the centre still shows the right tile while the creature moves. */
  lemma {:induction false} OldCellIsRight(g: Grid, prev: Position, me: Position, before: Passability,
                                          after: Passability, ox: int, oy: int, x: int, y: int)
    requires x == prev.x + ox && y == prev.y + oy
    requires InWindow(ox, oy) && (ox != 0 || oy != 0) && OnMap(x, y) && prev.z == me.z && Position(x, y, me.z) != me
    requires Coherent(g, prev, before) && SameElsewhere(before, after, {prev, me})
    ensures Cell(g, ox, oy) == after(x, y, me.z)
  {
    assert Cell(g, ox, oy) == before(prev.x + ox, prev.y + oy, prev.z) == before(x, y, me.z);
  }

  /** A step with a good row difference keeps the cache coherent, although the tiles the
      creature left and entered change while it moves. */
  lemma {:induction false} StepKeepsCoherent(g: Grid, prev: Position, me: Position, before: Passability,
                                             after: Passability, d: int, h: Grid)
    requires Adjacent(prev, me) && GoodDifference(prev, me, d)
    requires Coherent(g, prev, before) && SameElsewhere(before, after, {prev, me})
    requires Stepped(g, prev, me, after, d, h)
    ensures Coherent(h, me, after)
  {
    forall dx, dy | InWindow(dx, dy) && (dx != 0 || dy != 0) && OnMap(me.x + dx, me.y + dy)
      ensures Cell(h, dx, dy) == after(me.x + dx, me.y + dy, me.z)
    {
      SteppedCellIsRight(g, prev, me, before, after, d, dx, dy);
    }
  }

  /** With the signed row difference in place of the absolute one, every step keeps the cache coherent. */
  lemma {:induction false} SignedStepKeepsCoherent(g: Grid, prev: Position, me: Position, before: Passability,
                                                   after: Passability)
    requires Adjacent(prev, me) && Coherent(g, prev, before) && SameElsewhere(before, after, {prev, me})
    ensures Coherent(StepGrid(g, prev, me, after, prev.y - me.y), me, after)
  {
    StepGridIsStepped(g, prev, me, after, prev.y - me.y);
    StepKeepsCoherent(g, prev, me, before, after, prev.y - me.y, StepGrid(g, prev, me, after, prev.y - me.y));
  }

  /** After a south diagonal the northernmost row shows the tiles one column too far back, and the
      southernmost row, but for its fresh end, the tiles one column too far ahead. Every other cell is right. */
  lemma {:induction false} SouthDiagonalCells(g: Grid, prev: Position, me: Position, before: Passability,
                                              after: Passability, h: Grid)
    requires Adjacent(prev, me) && SouthDiagonal(prev, me)
    requires Coherent(g, prev, before) && SameElsewhere(before, after, {prev, me})
    requires Stepped(g, prev, me, after, DistanceY(prev, me), h)
    ensures forall dx, dy {:trigger Cell(h, dx, dy)} ::
              InWindow(dx, dy) && (dx != 0 || dy != 0) && OnMap(me.x + dx, me.y + dy) ==>
              var sx := me.x - prev.x;
              var seen := if !InWindow(dx + sx, dy) || Abs(dy) < MAX_HEIGHT then me.x + dx
                          else if dy < 0 then me.x + dx - sx else me.x + dx + sx;
              OnMap(seen, me.y + dy) ==> Cell(h, dx, dy) == after(seen, me.y + dy, me.z)
  {
    forall dx, dy | InWindow(dx, dy) && (dx != 0 || dy != 0) && OnMap(me.x + dx, me.y + dy)
      ensures var sx := me.x - prev.x;
              var seen := if !InWindow(dx + sx, dy) || Abs(dy) < MAX_HEIGHT then me.x + dx
                          else if dy < 0 then me.x + dx - sx else me.x + dx + sx;
              OnMap(seen, me.y + dy) ==> Cell(h, dx, dy) == after(seen, me.y + dy, me.z)
    {
      SouthDiagonalCell(g, prev, me, before, after, dx, dy);
    }
  }

  lemma {:induction false} SouthDiagonalCell(g: Grid, prev: Position, me: Position, before: Passability,
                                             after: Passability, dx: int, dy: int)
    requires Adjacent(prev, me) && SouthDiagonal(prev, me)
    requires Coherent(g, prev, before) && SameElsewhere(before, after, {prev, me})
    requires InWindow(dx, dy) && (dx != 0 || dy != 0) && OnMap(me.x + dx, me.y + dy)
    ensures var sx := me.x - prev.x;
            var seen := if !InWindow(dx + sx, dy) || Abs(dy) < MAX_HEIGHT then me.x + dx
                        else if dy < 0 then me.x + dx - sx else me.x + dx + sx;
            OnMap(seen, me.y + dy) ==>
              SteppedCell(g, prev, me, after, DistanceY(prev, me), dx, dy) == after(seen, me.y + dy, me.z)
  {
    var sx, sy := me.x - prev.x, me.y - prev.y;
    var ox := if dy == -MAX_HEIGHT then dx else dx + sx;
    var seen := if !InWindow(dx + sx, dy) || Abs(dy) < MAX_HEIGHT then me.x + dx
                else if dy < 0 then me.x + dx - sx else me.x + dx + sx;
    if OnMap(seen, me.y + dy) {
      var older := SouthDiagonalFrom(g, prev, me, after, dx, dy);
      if older {
        OldCellIsRight(g, prev, me, before, after, ox, dy + sy, seen, me.y + dy);
      }
    }
  }

  lemma {:induction false} SouthDiagonalFrom(g: Grid, prev: Position, me: Position, pass: Passability, dx: int,
                                             dy: int) returns (older: bool)
    requires Adjacent(prev, me) && SouthDiagonal(prev, me)
    requires InWindow(dx, dy) && (dx != 0 || dy != 0) && OnMap(me.x + dx, me.y + dy)
    ensures var sx, sy := me.x - prev.x, me.y - prev.y;
            var ox := if dy == -MAX_HEIGHT then dx else dx + sx;
            var seen := if !InWindow(dx + sx, dy) || Abs(dy) < MAX_HEIGHT then me.x + dx
                        else if dy < 0 then me.x + dx - sx else me.x + dx + sx;
            OnMap(seen, me.y + dy) ==>
              if older then
                InWindow(ox, dy + sy) && (ox != 0 || dy + sy != 0) && prev.x + ox == seen
                && SteppedCell(g, prev, me, pass, DistanceY(prev, me), dx, dy) == Cell(g, ox, dy + sy)
              else SteppedCell(g, prev, me, pass, DistanceY(prev, me), dx, dy) == pass(seen, me.y + dy, me.z)
  {
    var sx, sy := me.x - prev.x, me.y - prev.y;
    var ox := if dy == -MAX_HEIGHT then dx else dx + sx;
    older := (dx != -sx || dy != -sy) && InWindow(dx + sx, dy) && InWindow(ox, dy + sy);
    if dx == -sx && dy == -sy {
      assert prev.x == me.x + dx && prev.y == me.y + dy;
    } else if !InWindow(dx + sx, dy) {
      assert TileAt(pass, me.x + dx, me.y + dy, me.z) == pass(me.x + dx, me.y + dy, me.z);
    } else if !older {
      assert ox == dx + sx && dy == MAX_HEIGHT && me.x + ox == me.x + dx + sx;
    }
  }

  /** The tiles of every other column are passable. */
  function Stripes(x: int, y: int, z: int): bool {
    x % 2 == 0
  }

  /** A full refresh makes the cache coherent, whatever it held before. */
  lemma {:induction false} FullRefreshIsCoherent(g: Grid, me: Position, pass: Passability)
    ensures Coherent(FullGrid(g, me, pass), me, pass)
  {
  }

  /** Over striped ground every south diagonal leaves a cell that shows the wrong tile. */
  lemma {:induction false} SouthDiagonalBreaks(g: Grid, prev: Position, me: Position, h: Grid)
    requires Adjacent(prev, me) && SouthDiagonal(prev, me)
    requires Coherent(g, prev, Stripes) && Stepped(g, prev, me, Stripes, DistanceY(prev, me), h)
    ensures !Coherent(h, me, Stripes)
  {
    var sx := me.x - prev.x;
    if me.y >= MAX_HEIGHT {
      assert Cell(g, 0, -MAX_HEIGHT + 1) == Stripes(prev.x, me.y - MAX_HEIGHT, me.z);
      assert Cell(h, 0, -MAX_HEIGHT) == Cell(g, 0, -MAX_HEIGHT + 1);
      assert !(Cell(h, 0, -MAX_HEIGHT) == Stripes(me.x, me.y - MAX_HEIGHT, me.z));
    } else {
      assert Cell(h, 0, MAX_HEIGHT) == TileAt(Stripes, me.x + sx, me.y + MAX_HEIGHT, me.z);
      assert !(Cell(h, 0, MAX_HEIGHT) == Stripes(me.x, me.y + MAX_HEIGHT, me.z));
    }
  }

  /** A step can be trusted on all ground and with every coherent cache exactly when it is not a south diagonal. */
  lemma {:induction false} StepIsSafeIffNotSouthDiagonal(prev: Position, me: Position)
    requires Adjacent(prev, me)
    ensures (forall g: Grid, before, after :: Coherent(g, prev, before) && SameElsewhere(before, after, {prev, me}) ==>
               Coherent(StepGrid(g, prev, me, after, DistanceY(prev, me)), me, after))
            <==> !SouthDiagonal(prev, me)
  {
    if SouthDiagonal(prev, me) {
      var g := FullGrid(seq(HEIGHT, _ => seq(WIDTH, _ => false)), prev, Stripes);
      FullRefreshIsCoherent(seq(HEIGHT, _ => seq(WIDTH, _ => false)), prev, Stripes);
      StepGridIsStepped(g, prev, me, Stripes, DistanceY(prev, me));
      SouthDiagonalBreaks(g, prev, me, StepGrid(g, prev, me, Stripes, DistanceY(prev, me)));
      assert SameElsewhere(Stripes, Stripes, {prev, me});
    } else {
      forall g: Grid, before, after | Coherent(g, prev, before) && SameElsewhere(before, after, {prev, me})
        ensures Coherent(StepGrid(g, prev, me, after, DistanceY(prev, me)), me, after)
      {
        StepGridIsStepped(g, prev, me, after, DistanceY(prev, me));
        StepKeepsCoherent(g, prev, me, before, after, DistanceY(prev, me),
                          StepGrid(g, prev, me, after, DistanceY(prev, me)));
      }
    }
  }

  // ----- whole runs

  /** What can happen around a creature; each event comes with the passability after it. */
  datatype Event =
    | Move(to: Position, teleport: bool)
    | OtherMove(from: Position, now: Position)
    | TileChange(pos: Position)

  datatype State = State(grid: Grid, me: Position, pass: Passability)

  function Next(s: State, e: Event, pass: Passability): State {
    match e
    case Move(to, teleport) => State(MoveGrid(s.grid, s.me, to, teleport, pass), to, pass)
    case OtherMove(from, now) => State(TileGrid(TileGrid(s.grid, s.me, now, pass), s.me, from, pass), s.me, pass)
    case TileChange(pos) => State(TileGrid(s.grid, s.me, pos, pass), s.me, pass)
  }

  /** The tiles change only where the event says; a move that is no teleport is a single step,
      possibly to another floor (Map::moveCreature). */
  ghost predicate Possible(s: State, e: Event, pass: Passability) {
    match e
    case Move(to, teleport) =>
      && SameElsewhere(s.pass, pass, {s.me, to}) && OnMap(to.x, to.y)
      && (teleport || s.me.z != to.z || Adjacent(s.me, to))
    case OtherMove(from, now) =>
      SameElsewhere(s.pass, pass, {from, now}) && OnMap(from.x, from.y) && OnMap(now.x, now.y)
    case TileChange(pos) => SameElsewhere(s.pass, pass, {pos}) && OnMap(pos.x, pos.y)
  }

  /** Whether the event rebuilds the whole window. */
  predicate Refreshes(s: State, e: Event) {
    e.Move? && (e.teleport || s.me.z != e.to.z)
  }

  predicate Harmful(s: State, e: Event) {
    e.Move? && !Refreshes(s, e) && SouthDiagonal(s.me, e.to)
  }

  function Run(s: State, events: seq<(Event, Passability)>): State
    decreases |events|
  {
    if events == [] then s else Run(Next(s, events[0].0, events[0].1), events[1..])
  }

  ghost predicate PossibleRun(s: State, events: seq<(Event, Passability)>)
    decreases |events|
  {
    events != [] ==>
      && Possible(s, events[0].0, events[0].1)
      && PossibleRun(Next(s, events[0].0, events[0].1), events[1..])
  }

  /** No south diagonal since the last full refresh; clean tells whether the window was good to start with. */
  predicate CleanRun(s: State, events: seq<(Event, Passability)>, clean: bool)
    decreases |events|
  {
    if events == [] then clean
    else
      var e := events[0].0;
      CleanRun(Next(s, e, events[0].1), events[1..], Refreshes(s, e) || (clean && !Harmful(s, e)))
  }

  /** Looking at a tile again repairs its cell and no other. */
  lemma {:induction false} TileRepaired(g: Grid, me: Position, pass: Passability, stale: set<Position>, pos: Position)
    requires CoherentExcept(g, me, pass, stale)
    ensures CoherentExcept(TileGrid(g, me, pos, pass), me, pass, stale - {pos})
  {
    forall dx, dy | InWindow(dx, dy)
      ensures Cell(TileGrid(g, me, pos, pass), dx, dy)
              == if pos == Position(me.x + dx, me.y + dy, me.z) then pass(pos.x, pos.y, pos.z) else Cell(g, dx, dy)
    {
    }
  }

  lemma {:induction false} EventKeepsCoherent(s: State, e: Event, pass: Passability)
    requires OnMap(s.me.x, s.me.y) && Possible(s, e, pass)
    requires Refreshes(s, e) || (Coherent(s.grid, s.me, s.pass) && !Harmful(s, e))
    ensures var t := Next(s, e, pass); Coherent(t.grid, t.me, pass) && OnMap(t.me.x, t.me.y)
  {
    if Refreshes(s, e) {
      FullRefreshIsCoherent(s.grid, e.to, pass);
    } else if e.Move? {
      var d := DistanceY(s.me, e.to);
      StepGridIsStepped(s.grid, s.me, e.to, pass, d);
      StepKeepsCoherent(s.grid, s.me, e.to, s.pass, pass, d, StepGrid(s.grid, s.me, e.to, pass, d));
    } else if e.OtherMove? {
      TileRepaired(s.grid, s.me, pass, {e.from, e.now}, e.now);
      TileRepaired(TileGrid(s.grid, s.me, e.now, pass), s.me, pass, {e.from}, e.from);
    } else {
      TileRepaired(s.grid, s.me, pass, {e.pos}, e.pos);
    }
  }

  /** After any run of moves, teleports, other creatures' moves and tile changes the cache is coherent,
      provided the creature made no south diagonal since the window was last rebuilt. */
  lemma {:induction false} RunIsCoherent(s: State, events: seq<(Event, Passability)>, clean: bool)
    requires OnMap(s.me.x, s.me.y) && PossibleRun(s, events) && CleanRun(s, events, clean)
    requires clean ==> Coherent(s.grid, s.me, s.pass)
    ensures var t := Run(s, events); Coherent(t.grid, t.me, t.pass)
    decreases |events|
  {
    if events != [] {
      var e := events[0].0;
      var pass := events[0].1;
      var stillClean := Refreshes(s, e) || (clean && !Harmful(s, e));
      var t := Next(s, e, pass);
      if stillClean {
        EventKeepsCoherent(s, e, pass);
      }
      RunIsCoherent(t, events[1..], stillClean);
    }
  }
}
