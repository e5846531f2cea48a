/**
 Areas of effect: a matrix of hit cells around a centre, and its copies for the other directions.
 */
module CombatArea {

  datatype Operation = Copy | Mirror | Flip | Rotate90 | Rotate180 | Rotate270

  class MatrixArea {
    const rows: nat
    const cols: nat
    const cells: array2<bool>
    var centerY: int
    var centerX: int

    ghost predicate Valid() {
      cells.Length0 == rows && cells.Length1 == cols
    }

    constructor (rows: nat, cols: nat)
      ensures Valid() && fresh(cells) && this.rows == rows && this.cols == cols && centerY == 0 && centerX == 0
      ensures forall y, x :: 0 <= y < rows && 0 <= x < cols ==> !cells[y, x]
    {
      this.rows, this.cols, centerY, centerX := rows, cols, 0, 0;
      cells := new bool[rows, cols]((y, x) => false);
    }

    method SetCenter(y: int, x: int)
      modifies this`centerY, this`centerX
      ensures centerY == y && centerX == x
    {
      centerY, centerX := y, x;
    }

    predicate At(y: int, x: int)
      requires Valid()
      reads cells
    {
      0 <= y < rows && 0 <= x < cols && cells[y, x]
    }

    /** Whether the cell dy rows below and dx columns right of the centre is hit. */
    ghost predicate Hit(dy: int, dx: int)
      requires Valid()
      reads this, cells
    {
      At(centerY + dy, centerX + dx)
    }
  }

  /**
   The offset of the cell that a copy brings to offset (dy, dx), for a matrix with this many more columns than
   rows.
   */
  ghost function Source(op: Operation, wider: int, dy: int, dx: int): (int, int) {
    match op
    case Copy => (dy, dx)
    case Mirror => (dy, wider - dx)
    case Flip => (-wider - dy, dx)
    case Rotate90 => (-dx, dy)
    case Rotate180 => (-dy, -dx)
    case Rotate270 => (dx, -dy)
  }

  /** The copy hits what the operation makes of the original. */
  ghost predicate IsCopy(op: Operation, input: MatrixArea, output: MatrixArea)
    requires input.Valid() && output.Valid()
    reads input, input.cells, output, output.cells
  {
    forall dy, dx :: output.Hit(dy, dx) <==>
      var s := Source(op, input.cols - input.rows, dy, dx);
      input.Hit(s.0, s.1)
  }

  ghost predicate Blank(a: MatrixArea)
    requires a.Valid()
    reads a.cells
  {
    forall y, x :: 0 <= y < a.rows && 0 <= x < a.cols ==> !a.cells[y, x]
  }

  predicate Rotation(op: Operation) {
    op.Rotate90? || op.Rotate180? || op.Rotate270?
  }

  /** The centre is a cell of the matrix. */
  predicate Inside(a: MatrixArea)
    reads a`centerY, a`centerX
  {
    0 <= a.centerY < a.rows && 0 <= a.centerX < a.cols
  }

  function Cos(op: Operation): int {
    match op
    case Rotate180 => -1
    case Rotate90 => 0
    case Rotate270 => 0
    case _ => 1
  }

  function Sin(op: Operation): int {
    match op
    case Rotate90 => 1
    case Rotate270 => -1
    case _ => 0
  }

  function Max(a: nat, b: nat): nat {
    if a > b then a else b
  }

  /** AreaCombat::copyArea into a blank matrix; rotations need a square twice as large. */
  method CopyArea(input: MatrixArea, output: MatrixArea, op: Operation)
    requires input.Valid() && output.Valid() && input != output && input.cells != output.cells && Blank(output)
    requires output.rows >= input.rows && output.cols >= input.cols
    requires Rotation(op) ==> Inside(input) && output.rows == output.cols >= 2 * Max(input.rows, input.cols)
    modifies output`centerY, output`centerX, output.cells
    ensures IsCopy(op, input, output)
  {
    match op {
      case Copy => CopyPlain(input, output);
      case Mirror => CopyMirrored(input, output);
      case Flip => CopyFlipped(input, output);
      case _ => CopyRotated(input, output, op);
    }
  }

  method CopyPlain(input: MatrixArea, output: MatrixArea)
    requires input.Valid() && output.Valid() && input != output && input.cells != output.cells && Blank(output)
    requires output.rows >= input.rows && output.cols >= input.cols
    modifies output`centerY, output`centerX, output.cells
    ensures IsCopy(Copy, input, output)
  {
    for y := 0 to input.rows
      invariant forall i, j :: 0 <= i < output.rows && 0 <= j < output.cols ==>
        output.cells[i, j] == (i < y && input.At(i, j))
    {
      for x := 0 to input.cols
        invariant forall i, j :: 0 <= i < output.rows && 0 <= j < output.cols ==>
          output.cells[i, j] == ((i < y || (i == y && j < x)) && input.At(i, j))
      {
        output.cells[y, x] := input.cells[y, x];
      }
    }
    output.SetCenter(input.centerY, input.centerX);
  }

  method CopyMirrored(input: MatrixArea, output: MatrixArea)
    requires input.Valid() && output.Valid() && input != output && input.cells != output.cells && Blank(output)
    requires output.rows >= input.rows && output.cols >= input.cols
    modifies output`centerY, output`centerX, output.cells
    ensures IsCopy(Mirror, input, output)
  {
    ghost var last := input.cols - 1;
    for y := 0 to input.rows
      invariant forall i, j :: 0 <= i < output.rows && 0 <= j < output.cols ==>
        output.cells[i, j] == (i < y && input.At(i, last - j))
    {
      var rx := 0;
      for x := input.cols downto 0
        invariant rx == input.cols - x
        invariant forall i, j :: 0 <= i < output.rows && 0 <= j < output.cols ==>
          output.cells[i, j] == ((i < y || (i == y && j < rx)) && input.At(i, last - j))
      {
        output.cells[y, rx] := input.cells[y, x];
        rx := rx + 1;
      }
    }
    output.SetCenter(input.centerY, (input.rows - 1) - input.centerX);
  }

  method CopyFlipped(input: MatrixArea, output: MatrixArea)
    requires input.Valid() && output.Valid() && input != output && input.cells != output.cells && Blank(output)
    requires output.rows >= input.rows && output.cols >= input.cols
    modifies output`centerY, output`centerX, output.cells
    ensures IsCopy(Flip, input, output)
  {
    ghost var last := input.rows - 1;
    for x := 0 to input.cols
      invariant forall i, j :: 0 <= i < output.rows && 0 <= j < output.cols ==>
        output.cells[i, j] == (j < x && input.At(last - i, j))
    {
      var ry := 0;
      for y := input.rows downto 0
        invariant ry == input.rows - y
        invariant forall i, j :: 0 <= i < output.rows && 0 <= j < output.cols ==>
          output.cells[i, j] == ((j < x || (j == x && i < ry)) && input.At(last - i, j))
      {
        output.cells[ry, x] := input.cells[y, x];
        ry := ry + 1;
      }
    }
    output.SetCenter((input.cols - 1) - input.centerY, input.centerX);
  }

  method CopyRotated(input: MatrixArea, output: MatrixArea, op: Operation)
    requires input.Valid() && output.Valid() && input != output && input.cells != output.cells && Blank(output)
    requires output.rows == output.cols >= 2 * Max(input.rows, input.cols)
    requires Inside(input)
    requires Rotation(op)
    modifies output`centerY, output`centerX, output.cells
    ensures IsCopy(op, input, output)
  {
    var rotateCenterX, rotateCenterY := output.cols / 2 - 1, output.rows / 2 - 1;
    for x := 0 to input.cols
      invariant forall i, j :: 0 <= i < output.rows && 0 <= j < output.cols ==>
        output.cells[i, j] == Painted(op, input, i - rotateCenterY, j - rotateCenterX, x, 0)
    {
      for y := 0 to input.rows
        invariant forall i, j :: 0 <= i < output.rows && 0 <= j < output.cols ==>
          output.cells[i, j] == Painted(op, input, i - rotateCenterY, j - rotateCenterX, x, y)
      {
        PaintCell(input, output, op, y, x, rotateCenterY, rotateCenterX);
      }
    }
    output.SetCenter(rotateCenterY, rotateCenterX);
    AllPainted(op, input, output);
  }

  method PaintCell(input: MatrixArea, output: MatrixArea, op: Operation, y: nat, x: nat, rotateCenterY: int,
                   rotateCenterX: int)
    requires input.Valid() && output.Valid() && input.cells != output.cells && Inside(input) && Rotation(op)
    requires output.rows == output.cols >= 2 * Max(input.rows, input.cols) && y < input.rows && x < input.cols
    requires rotateCenterY == rotateCenterX == output.rows / 2 - 1
    requires forall i, j :: 0 <= i < output.rows && 0 <= j < output.cols ==>
               output.cells[i, j] == Painted(op, input, i - rotateCenterY, j - rotateCenterX, x, y)
    modifies output.cells
    ensures forall i, j :: 0 <= i < output.rows && 0 <= j < output.cols ==>
              output.cells[i, j] == Painted(op, input, i - rotateCenterY, j - rotateCenterX, x, y + 1)
  {
    var rotatedY, rotatedX := Rotate(op, y - input.centerY, x - input.centerX);
    output.cells[rotatedY + rotateCenterY, rotatedX + rotateCenterX] := input.cells[y, x];
    forall i, j | 0 <= i < output.rows && 0 <= j < output.cols
      ensures output.cells[i, j] == Painted(op, input, i - rotateCenterY, j - rotateCenterX, x, y + 1)
    {
      PaintedNext(op, input, i - rotateCenterY, j - rotateCenterX, x, y);
    }
  }

  lemma {:induction false} PaintedNext(op: Operation, input: MatrixArea, dy: int, dx: int, x: nat, y: nat)
    requires input.Valid() && y < input.rows && x < input.cols
    ensures Painted(op, input, dy, dx, x, y + 1)
            == if Source(op, 0, dy, dx) == (y - input.centerY, x - input.centerX) then input.cells[y, x]
               else Painted(op, input, dy, dx, x, y)
  {
  }

  lemma {:induction false} AllPainted(op: Operation, input: MatrixArea, output: MatrixArea)
    requires input.Valid() && output.Valid() && Inside(input) && Rotation(op)
    requires output.rows == output.cols >= 2 * Max(input.rows, input.cols)
    requires output.centerY == output.centerX == output.rows / 2 - 1
    requires forall i, j :: 0 <= i < output.rows && 0 <= j < output.cols ==>
               output.cells[i, j] == Painted(op, input, i - output.centerY, j - output.centerX, input.cols, 0)
    ensures IsCopy(op, input, output)
  {
    forall dy, dx
      ensures output.Hit(dy, dx) <==>
                var s := Source(op, input.cols - input.rows, dy, dx);
                input.Hit(s.0, s.1)
    {
      var i, j := output.centerY + dy, output.centerX + dx;
      assert 0 <= i < output.rows && 0 <= j < output.cols ==>
             output.cells[i, j] == Painted(op, input, dy, dx, input.cols, 0);
      InSquare(op, input, dy, dx, output.rows);
    }
  }

  /** Every rotated hit lies inside the square. */
  lemma {:induction false} InSquare(op: Operation, input: MatrixArea, dy: int, dx: int, size: nat)
    requires input.Valid() && size >= 2 * Max(input.rows, input.cols)
    requires Inside(input)
    requires Rotation(op)
    ensures var s := Source(op, input.cols - input.rows, dy, dx);
            input.Hit(s.0, s.1) ==> 0 <= size / 2 - 1 + dy < size && 0 <= size / 2 - 1 + dx < size
  {
    match op
    case Rotate90 =>
    case Rotate180 =>
    case Rotate270 =>
  }

  /**
   Whether the cell at an offset of the rotated copy has been hit once the columns before x and y cells of x
   are copied.
   */
  ghost predicate Painted(op: Operation, input: MatrixArea, dy: int, dx: int, x: int, y: int)
    requires input.Valid()
    reads input, input.cells
  {
    var s := Source(op, 0, dy, dx);
    var sy, sx := input.centerY + s.0, input.centerX + s.1;
    input.At(sy, sx) && (sx < x || (sx == x && sy < y))
  }

  /** An offset turned: looking up its source gives the offset back, and no other offset has that source. */
  method Rotate(op: Operation, newY: int, newX: int) returns (rotatedY: int, rotatedX: int)
    requires Rotation(op)
    ensures Source(op, 0, rotatedY, rotatedX) == (newY, newX)
    ensures forall dy, dx :: Source(op, 0, dy, dx) == (newY, newX) ==> dy == rotatedY && dx == rotatedX
    ensures rotatedY in {newY, -newY, newX, -newX} && rotatedX in {newY, -newY, newX, -newX}
  {
    var a, b, c, d := Cos(op), -Sin(op), Sin(op), Cos(op);
    rotatedX, rotatedY := newX * a + newY * b, newX * c + newY * d;
    match op
    case Rotate90 =>
    case Rotate180 =>
    case Rotate270 =>
  }

  // ----- the original

  /** The cell of the k-th value when a matrix is filled row by row; without columns the first row never ends. */
  ghost function Place(k: nat, cols: nat): (p: (int, int))
    ensures 0 <= p.0 && 0 <= p.1 && (cols > 0 ==> p.1 < cols)
  {
    if k == 0 then (0, 0)
    else
      var p := Place(k - 1, cols);
      if p.1 + 1 == cols then (p.0 + 1, 0) else (p.0, p.1 + 1)
  }

  lemma {:induction false} PlaceIs(k: nat, cols: nat)
    ensures k == Place(k, cols).0 * cols + Place(k, cols).1
    decreases k
  {
    if k > 0 {
      PlaceIs(k - 1, cols);
    }
  }

  ghost predicate Within(p: (int, int), rows: nat, cols: nat) {
    p.0 < rows && p.1 < cols
  }

  /** Each value that the matrix has room for has a cell of its own, and the others have none. */
  lemma {:induction false} PlacesApart(i: nat, k: nat, rows: nat, cols: nat)
    ensures Within(Place(k, cols), rows, cols) <==> k < rows * cols
    ensures i != k ==> Place(i, cols) != Place(k, cols)
  {
    PlaceIs(i, cols);
    PlaceIs(k, cols);
    AtLeast(Place(k, cols).0, rows, cols);
    AtLeast(rows, Place(k, cols).0 + 1, cols);
    assert (Place(k, cols).0 + 1) * cols == Place(k, cols).0 * cols + cols;
  }

  lemma {:induction false} AtLeast(a: nat, b: nat, m: nat)
    ensures a >= b ==> a * m >= b * m
  {
  }

  predicate Strikes(value: nat) {
    value == 1 || value == 3
  }

  predicate Marks(value: nat) {
    value == 2 || value == 3
  }

  /** The last 2 or 3 among the first n values says where the centre is. */
  ghost function Centre(list: seq<nat>, cols: nat, n: nat): (int, int)
    requires n <= |list|
  {
    if n == 0 then (0, 0) else if Marks(list[n - 1]) then Place(n - 1, cols) else Centre(list, cols, n - 1)
  }

  /** The index of the last 2 or 3 among the first n values, or 0 if there is none. */
  ghost function LastMark(list: seq<nat>, n: nat): (k: nat)
    requires n <= |list|
    ensures k < n || k == 0
  {
    if n == 0 then 0 else if Marks(list[n - 1]) then n - 1 else LastMark(list, n - 1)
  }

  lemma {:induction false} CentreIsLastMark(list: seq<nat>, cols: nat, n: nat)
    requires n <= |list|
    ensures Centre(list, cols, n) == Place(LastMark(list, n), cols)
  {
    if n > 0 && !Marks(list[n - 1]) {
      CentreIsLastMark(list, cols, n - 1);
    }
  }

  /**
   AreaCombat::createArea: 1 and 3 are hit, and the last 2 or 3 is the centre. If the values do not fill whole
   rows, those behind the last row have no cell: a hit among them is written outside the matrix, after which
   nothing is known, and a centre among them lies outside.
   */
  method CreateArea(list: seq<nat>, rows: nat) returns (area: MatrixArea, stray: bool)
    ensures area.Valid() && area.rows == rows && area.cols == if rows == 0 then 0 else |list| / rows
    ensures stray <==> exists k :: area.rows * area.cols <= k < |list| && Strikes(list[k])
    ensures stray <==>
            exists k :: 0 <= k < |list| && Strikes(list[k]) && !Within(Place(k, area.cols), area.rows, area.cols)
    ensures !stray ==> forall k :: 0 <= k < |list| ==>
              (area.At(Place(k, area.cols).0, Place(k, area.cols).1) <==> Strikes(list[k]))
    ensures !stray ==> (area.centerY, area.centerX) == Centre(list, area.cols, |list|)
    ensures !stray ==> (Inside(area) <==> LastMark(list, |list|) < area.rows * area.cols)
  {
    var cols := if rows == 0 then 0 else |list| / rows;
    area := new MatrixArea(rows, cols);
    forall i: nat, k: nat
      ensures (Within(Place(k, cols), rows, cols) <==> k < rows * cols) && (i != k ==> Place(i, cols) != Place(k, cols))
    {
      PlacesApart(i, k, rows, cols);
    }
    stray := FillArea(area, list);
    CentreIsLastMark(list, cols, |list|);
  }

  lemma {:induction false} NextPlace(k: nat, cols: nat)
    ensures Place(k, cols).1 + 1 == cols ==> Place(k + 1, cols).0 == Place(k, cols).0 + 1 && Place(k + 1, cols).1 == 0
    ensures Place(k, cols).1 + 1 != cols ==>
              Place(k + 1, cols).0 == Place(k, cols).0 && Place(k + 1, cols).1 == Place(k, cols).1 + 1
  {
  }

  method FillArea(area: MatrixArea, list: seq<nat>) returns (stray: bool)
    requires area.Valid() && Blank(area) && area.centerY == area.centerX == 0
    requires forall i: nat, k: nat :: i != k ==> Place(i, area.cols) != Place(k, area.cols)
    modifies area`centerY, area`centerX, area.cells
    ensures stray <==>
            exists k :: 0 <= k < |list| && Strikes(list[k]) && !Within(Place(k, area.cols), area.rows, area.cols)
    ensures !stray ==> forall k :: 0 <= k < |list| ==>
              (area.At(Place(k, area.cols).0, Place(k, area.cols).1) <==> Strikes(list[k]))
    ensures !stray ==> (area.centerY, area.centerX) == Centre(list, area.cols, |list|)
  {
    var x, y := 0, 0;
    for k := 0 to |list|
      invariant y == Place(k, area.cols).0 && x == Place(k, area.cols).1
      invariant forall i :: 0 <= i < k && Strikes(list[i]) ==> Within(Place(i, area.cols), area.rows, area.cols)
      invariant forall i :: 0 <= i < |list| ==>
        (area.At(Place(i, area.cols).0, Place(i, area.cols).1) <==> i < k && Strikes(list[i]))
      invariant (area.centerY, area.centerX) == Centre(list, area.cols, k)
    {
      var value := list[k];
      NextPlace(k, area.cols);
      if value == 1 || value == 3 {
        if y >= area.rows || x >= area.cols {
          return true;
        }
        area.cells[y, x] := true;
      }
      if value == 2 || value == 3 {
        area.SetCenter(y, x);
      }
      x := x + 1;
      if area.cols == x {
        x, y := 0, y + 1;
      }
    }
    stray := false;
  }

  /** A value too many does no harm, is written outside, or puts the centre there. */
  method Ragged() returns (harmless: bool, stray: bool, lost: MatrixArea)
    ensures harmless && stray && !Inside(lost)
  {
    var area;
    area, stray := CreateArea([1, 1, 1, 1, 0], 2);
    harmless := !stray;
    lost, stray := CreateArea([1, 1, 1, 1, 2], 2);
    assert !stray && LastMark([1, 1, 1, 1, 2], 5) == 4;
    area, stray := CreateArea([1, 1, 1, 1, 1], 2);
    assert Strikes([1, 1, 1, 1, 1][4]);
  }

  // ----- the directions

  /** AreaCombat::setupArea: the area for the north, turned to the other three directions. */
  method SetupArea(north: MatrixArea) returns (south: MatrixArea, east: MatrixArea, west: MatrixArea)
    requires north.Valid() && Inside(north)
    ensures south.Valid() && east.Valid() && west.Valid()
    ensures IsCopy(Rotate180, north, south) && IsCopy(Rotate90, north, east) && IsCopy(Rotate270, north, west)
    ensures forall dy, dx :: west.Hit(dy, dx) <==> east.Hit(-dy, -dx)
  {
    var maxOutput := Max(north.cols, north.rows) * 2;
    south := new MatrixArea(maxOutput, maxOutput);
    CopyArea(north, south, Rotate180);
    east := new MatrixArea(maxOutput, maxOutput);
    CopyArea(north, east, Rotate90);
    west := new MatrixArea(maxOutput, maxOutput);
    CopyArea(north, west, Rotate270);
  }

  /** Two turns one after the other. */
  lemma {:induction false} Compose(first: Operation, second: Operation, both: Operation, a: MatrixArea, b: MatrixArea,
                                   c: MatrixArea)
    requires a.Valid() && b.Valid() && c.Valid() && Rotation(first) && Rotation(second) && Rotation(both)
    requires IsCopy(first, a, b) && IsCopy(second, b, c)
    requires forall dy, dx ::
               Source(both, 0, dy, dx) == (var s := Source(second, 0, dy, dx); Source(first, 0, s.0, s.1))
    ensures IsCopy(both, a, c)
  {
    forall dy, dx
      ensures c.Hit(dy, dx) <==>
                var s := Source(both, a.cols - a.rows, dy, dx);
                a.Hit(s.0, s.1)
    {
      var s := Source(second, b.cols - b.rows, dy, dx);
      assert c.Hit(dy, dx) <==> b.Hit(s.0, s.1);
      var r := Source(first, a.cols - a.rows, s.0, s.1);
      assert b.Hit(s.0, s.1) <==> a.Hit(r.0, r.1);
      assert r == Source(first, 0, s.0, s.1) && s == Source(second, 0, dy, dx);
      assert Source(both, 0, dy, dx) == Source(both, a.cols - a.rows, dy, dx);
    }
  }

  /** Two quarter turns are a half turn, and three a quarter turn back, from whatever area one starts. */
  lemma {:induction false} QuarterTurns(north: MatrixArea, east: MatrixArea, south: MatrixArea, west: MatrixArea)
    requires north.Valid() && east.Valid() && south.Valid() && west.Valid()
    requires IsCopy(Rotate90, north, east) && IsCopy(Rotate90, east, south) && IsCopy(Rotate90, south, west)
    ensures IsCopy(Rotate180, north, south) && IsCopy(Rotate270, north, west)
  {
    Compose(Rotate90, Rotate90, Rotate180, north, east, south);
    Compose(Rotate180, Rotate90, Rotate270, north, south, west);
  }

  /** Both axes, or one, are really reflected around the centre. */
  ghost predicate Reflected(a: MatrixArea, b: MatrixArea, vertically: bool, horizontally: bool)
    requires a.Valid() && b.Valid()
    reads a, a.cells, b, b.cells
  {
    forall dy, dx :: b.Hit(dy, dx) <==> a.Hit(if vertically then -dy else dy, if horizontally then -dx else dx)
  }

  ghost predicate NoHits(a: MatrixArea)
    requires a.Valid()
    reads a, a.cells
  {
    forall dy, dx :: !a.Hit(dy, dx)
  }

  /**
   AreaCombat::setupExtArea: the area for the north-west, mirrored and flipped to the other three diagonals.
   The centres are computed with the wrong dimension, so this is right exactly for square or empty areas.
   */
  method SetupExtArea(northWest: MatrixArea)
    returns (northEast: MatrixArea, southWest: MatrixArea, southEast: MatrixArea)
    requires northWest.Valid()
    ensures northEast.Valid() && southWest.Valid() && southEast.Valid()
    ensures IsCopy(Mirror, northWest, northEast) && IsCopy(Flip, northWest, southWest)
            && IsCopy(Mirror, southWest, southEast)
    ensures Reflected(northWest, northEast, false, true) <==> northWest.rows == northWest.cols || NoHits(northWest)
    ensures Reflected(northWest, southWest, true, false) <==> northWest.rows == northWest.cols || NoHits(northWest)
    ensures Reflected(northWest, southEast, true, true) <==> northWest.rows == northWest.cols || NoHits(northWest)
  {
    var maxOutput := Max(northWest.cols, northWest.rows) * 2;
    northEast := new MatrixArea(maxOutput, maxOutput);
    CopyArea(northWest, northEast, Mirror);
    southWest := new MatrixArea(maxOutput, maxOutput);
    CopyArea(northWest, southWest, Flip);
    southEast := new MatrixArea(maxOutput, maxOutput);
    CopyArea(southWest, southEast, Mirror);
    MirroredIffSquare(northWest, northEast);
    FlippedIffSquare(northWest, southWest);
    BothIffSquare(northWest, southWest, southEast);
  }

  lemma {:induction false} MirroredIffSquare(nw: MatrixArea, ne: MatrixArea)
    requires nw.Valid() && ne.Valid() && IsCopy(Mirror, nw, ne)
    ensures Reflected(nw, ne, false, true) <==> nw.rows == nw.cols || NoHits(nw)
  {
    var wider := nw.cols - nw.rows;
    if wider != 0 && !NoHits(nw) {
      var y, x :| nw.Hit(y, x);
      RowShifts(nw, y, x, wider);
      var u :| nw.Hit(y, u) && !nw.Hit(y, u + wider);
      assert ne.Hit(y, -u) <==> nw.Hit(y, wider - -u);
      assert ne.Hit(y, -u) != nw.Hit(y, - -u);
    }
  }

  lemma {:induction false} FlippedIffSquare(nw: MatrixArea, sw: MatrixArea)
    requires nw.Valid() && sw.Valid() && IsCopy(Flip, nw, sw)
    ensures Reflected(nw, sw, true, false) <==> nw.rows == nw.cols || NoHits(nw)
  {
    var wider := nw.cols - nw.rows;
    if wider != 0 && !NoHits(nw) {
      var y, x :| nw.Hit(y, x);
      ColumnShifts(nw, y, x, -wider);
      var v :| nw.Hit(v, x) && !nw.Hit(v + -wider, x);
      assert sw.Hit(-v, x) <==> nw.Hit(-wider - -v, x);
      assert sw.Hit(-v, x) != nw.Hit(- -v, x);
    }
  }

  lemma {:induction false} BothIffSquare(nw: MatrixArea, sw: MatrixArea, se: MatrixArea)
    requires nw.Valid() && sw.Valid() && se.Valid() && sw.rows == sw.cols && IsCopy(Flip, nw, sw)
             && IsCopy(Mirror, sw, se)
    ensures Reflected(nw, se, true, true) <==> nw.rows == nw.cols || NoHits(nw)
  {
    FlippedIffSquare(nw, sw);
    MirroredIffSquare(sw, se);
    if Reflected(nw, sw, true, false) {
      forall dy, dx ensures se.Hit(dy, dx) <==> nw.Hit(-dy, -dx) {
        assert se.Hit(dy, dx) <==> sw.Hit(dy, -dx);
      }
    }
    if Reflected(nw, se, true, true) {
      forall dy, dx ensures sw.Hit(dy, dx) <==> nw.Hit(-dy, dx) {
        assert se.Hit(dy, -dx) <==> sw.Hit(dy, - -dx);
        assert se.Hit(dy, -dx) <==> nw.Hit(-dy, - -dx);
      }
    }
  }

  /** A row with a hit is not the same when shifted. */
  lemma {:induction false} RowShifts(a: MatrixArea, y: int, x: int, step: int)
    requires a.Valid() && step != 0 && a.Hit(y, x)
    ensures exists u :: a.Hit(y, u) && !a.Hit(y, u + step)
  {
    if forall u :: a.Hit(y, u) ==> a.Hit(y, u + step) {
      NoEndlessRow(a, y, x, step);
    }
  }

  lemma {:induction false} ColumnShifts(a: MatrixArea, y: int, x: int, step: int)
    requires a.Valid() && step != 0 && a.Hit(y, x)
    ensures exists v :: a.Hit(v, x) && !a.Hit(v + step, x)
  {
    if forall v :: a.Hit(v, x) ==> a.Hit(v + step, x) {
      NoEndlessColumn(a, y, x, step);
    }
  }

  lemma {:induction false} NoEndlessRow(a: MatrixArea, y: int, x: int, step: int)
    requires a.Valid() && step != 0 && a.Hit(y, x) && forall u :: a.Hit(y, u) ==> a.Hit(y, u + step)
    ensures false
    decreases if step > 0 then a.cols - (a.centerX + x) else a.centerX + x
  {
    NoEndlessRow(a, y, x + step, step);
  }

  lemma {:induction false} NoEndlessColumn(a: MatrixArea, y: int, x: int, step: int)
    requires a.Valid() && step != 0 && a.Hit(y, x) && forall u :: a.Hit(u, x) ==> a.Hit(u + step, x)
    ensures false
    decreases if step > 0 then a.rows - (a.centerY + y) else a.centerY + y
  {
    NoEndlessColumn(a, y + step, x, step);
  }

  // ----- no cell is lost

  ghost function Hits(a: MatrixArea): set<(int, int)>
    requires a.Valid()
    reads a, a.cells
  {
    set y, x | 0 <= y < a.rows && 0 <= x < a.cols && a.cells[y, x] :: (y - a.centerY, x - a.centerX)
  }

  lemma {:induction false} HitsAre(a: MatrixArea, p: (int, int))
    requires a.Valid()
    ensures p in Hits(a) <==> a.Hit(p.0, p.1)
  {
    if a.Hit(p.0, p.1) {
      var y, x := a.centerY + p.0, a.centerX + p.1;
      assert a.cells[y, x] && p == (y - a.centerY, x - a.centerX);
    }
  }

  /** A copy has as many hit cells as the original. */
  lemma {:induction false} SameCount(op: Operation, input: MatrixArea, output: MatrixArea)
    requires input.Valid() && output.Valid() && IsCopy(op, input, output)
    ensures |Hits(output)| == |Hits(input)|
  {
    var wider := input.cols - input.rows;
    forall p | p in Hits(output) ensures Source(op, wider, p.0, p.1) in Hits(input) {
      HitsAre(output, p);
      HitsAre(input, Source(op, wider, p.0, p.1));
    }
    forall q | q in Hits(input) ensures exists p :: p in Hits(output) && Source(op, wider, p.0, p.1) == q {
      var p := Back(op, wider, q);
      HitsAre(output, p);
      HitsAre(input, q);
    }
    SameSize(op, wider, Hits(output), Hits(input));
  }

  lemma {:induction false} Back(op: Operation, wider: int, q: (int, int)) returns (p: (int, int))
    ensures Source(op, wider, p.0, p.1) == q
  {
    match op
    case Copy => p := q;
    case Mirror => p := (q.0, wider - q.1);
    case Flip => p := (-wider - q.0, q.1);
    case Rotate90 => p := (q.1, -q.0);
    case Rotate180 => p := (-q.0, -q.1);
    case Rotate270 => p := (-q.1, q.0);
  }

  lemma {:induction false} SameSize(op: Operation, wider: int, ps: set<(int, int)>, qs: set<(int, int)>)
    requires forall p :: p in ps ==> Source(op, wider, p.0, p.1) in qs
    requires forall q :: q in qs ==> exists p :: p in ps && Source(op, wider, p.0, p.1) == q
    ensures |ps| == |qs|
    decreases |ps|
  {
    if ps == {} {
      assert qs == {};
    } else {
      var p :| p in ps;
      var q := Source(op, wider, p.0, p.1);
      SameSize(op, wider, ps - {p}, qs - {q});
    }
  }
}
