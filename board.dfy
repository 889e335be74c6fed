/** The playfield: a flat grid of WIDTH x HEIGHT tags addressed as
    row * Width + col (0 = empty, 1..7 = locked by piece kind tag - 1), the
    collision test every move goes through, writing a piece into the grid, and
    the bottom-up compaction that removes full rows. */
module Board {
  import opened Shapes

  const Width: nat := 10
  const Height: nat := 20
  const Size: nat := 200

  /** The empty grid. */
  const Empty: seq<int> := Zeros(Size)

  predicate InBounds(px: int, py: int)
  {
    0 <= px < Width && 0 <= py < Height
  }

  /** The flat index of an in-bounds cell, row by row. */
  function Index(px: int, py: int): (i: nat)
    requires InBounds(px, py)
    ensures i < Size
  {
    py * Width + px
  }

  /** The flat index of an in-bounds cell gives back its row and column. */
  lemma IndexRowCol(px: int, py: int)
    requires InBounds(px, py)
    ensures Index(px, py) / Width == py && Index(px, py) % Width == px
  {
  }

  /** Every cell holds a tag in 0..7. */
  predicate Tags(s: seq<int>)
  {
    forall i :: 0 <= i < |s| ==> 0 <= s[i] <= 7
  }

  /** A grid of the right size whose every cell holds a tag. */
  predicate Tagged(b: seq<int>)
  {
    |b| == Size && Tags(b)
  }

  /** A cell a piece cannot occupy: outside the grid, or already non-empty. */
  predicate Blocked(b: seq<int>, px: int, py: int)
    requires |b| == Size
  {
    !InBounds(px, py) || b[Index(px, py)] != 0
  }

  /** The loop of the collision test over a piece's cells: a cell outside the
      grid answers true before the grid is indexed, then a non-empty cell
      answers true; otherwise the next cell is tried. */
  function CollidesCells(b: seq<int>, cells: seq<Cell>, x: int, y: int): bool
    requires |b| == Size
    decreases |cells|
  {
    if cells == [] then false
    else
      var px, py := x + cells[0].dx, y + cells[0].dy;
      if !InBounds(px, py) then true
      else if b[Index(px, py)] != 0 then true
      else CollidesCells(b, cells[1..], x, y)
  }

  /** The collision loop answers true exactly when some cell is blocked. */
  lemma {:induction false} CollidesCellsExactly(b: seq<int>, cells: seq<Cell>, x: int, y: int)
    requires |b| == Size
    ensures CollidesCells(b, cells, x, y) <==> exists i :: 0 <= i < |cells| && Blocked(b, x + cells[i].dx, y + cells[i].dy)
    decreases |cells|
  {
    if cells != [] {
      CollidesCellsExactly(b, cells[1..], x, y);
      assert forall i :: 1 <= i < |cells| ==> cells[i] == cells[1..][i - 1];
    }
  }

  /** Whether `piece` in state `rotation` anchored at (x, y) overlaps the walls,
      the floor, the ceiling or a locked cell: the collision test over the
      piece's catalog cells. */
  function Collides(b: seq<int>, piece: nat, x: int, y: int, rotation: nat): bool
    requires |b| == Size && piece < PieceKinds && rotation < Rotations
  {
    CollidesCells(b, Shape(piece, rotation), x, y)
  }

  /** A pose collides exactly when one of its four cells is outside the grid or
      on a non-empty cell. */
  lemma CollidesExactly(b: seq<int>, piece: nat, x: int, y: int, rotation: nat)
    requires |b| == Size && piece < PieceKinds && rotation < Rotations
    ensures Collides(b, piece, x, y, rotation) <==>
      exists i :: 0 <= i < 4 && Blocked(b, x + Shape(piece, rotation)[i].dx, y + Shape(piece, rotation)[i].dy)
  {
    var cells := Shape(piece, rotation);
    CollidesCellsExactly(b, cells, x, y);
    assert |cells| == 4;
  }

  /** A pose with any cell outside [0, Width) x [0, Height) collides, whatever the grid holds. */
  lemma OutOfBoundsCollides(b: seq<int>, piece: nat, x: int, y: int, rotation: nat, i: nat)
    requires |b| == Size && piece < PieceKinds && rotation < Rotations && i < 4
    requires !InBounds(x + Shape(piece, rotation)[i].dx, y + Shape(piece, rotation)[i].dy)
    ensures Collides(b, piece, x, y, rotation)
  {
    CollidesExactly(b, piece, x, y, rotation);
  }

  /** A pose that does not collide has all four cells inside the grid and empty;
      its anchor row is inside the grid as well. */
  lemma FreePose(b: seq<int>, piece: nat, x: int, y: int, rotation: nat)
    requires |b| == Size && piece < PieceKinds && rotation < Rotations
    requires !Collides(b, piece, x, y, rotation)
    ensures AllInBounds(Shape(piece, rotation), x, y)
    ensures forall i :: 0 <= i < 4 ==> b[Index(x + Shape(piece, rotation)[i].dx, y + Shape(piece, rotation)[i].dy)] == 0
    ensures -3 <= y < Height
  {
    CollidesExactly(b, piece, x, y, rotation);
    assert !Blocked(b, x + Shape(piece, rotation)[0].dx, y + Shape(piece, rotation)[0].dy);
  }

  /** The spawn pose (3, 0) in state 0 fits on the empty grid for every piece,
      so a fresh game starts in play. */
  lemma SpawnFitsEmpty(piece: nat)
    requires piece < PieceKinds
    ensures !Collides(Empty, piece, 3, 0, 0)
  {
    CollidesExactly(Empty, piece, 3, 0, 0);
  }

  /** The empty grid holds only tags, has no full row and no occupied cell. */
  lemma EmptyGrid()
    ensures Tagged(Empty) && NoFullRow(Empty) && Count(Empty) == 0
  {
    forall r | 0 <= r < Height
      ensures !Full(Row(Empty, r))
    {
      assert Row(Empty, r)[0] == 0;
    }
    ZeroCount(Empty);
  }

  /** The row a free piece comes to rest in when it falls straight down from
      anchor row y: the first row from y on whose next row collides. (The
      measure is the number of cells from row y on.) */
  function RestRow(b: seq<int>, piece: nat, x: int, y: int, rotation: nat): (r: int)
    requires |b| == Size && piece < PieceKinds && rotation < Rotations
    requires !Collides(b, piece, x, y, rotation)
    ensures y <= r && !Collides(b, piece, x, r, rotation)
    decreases |b| - y * Width
  {
    FreePose(b, piece, x, y, rotation);
    if Collides(b, piece, x, y + 1, rotation) then y
    else RestRow(b, piece, x, y + 1, rotation)
  }

  /** The fall passes only through free poses and stops on one whose next row
      down collides: the piece rests on the floor or on a locked cell. */
  lemma {:induction false} RestRowRests(b: seq<int>, piece: nat, x: int, y: int, rotation: nat)
    requires |b| == Size && piece < PieceKinds && rotation < Rotations
    requires !Collides(b, piece, x, y, rotation)
    ensures forall k :: y <= k <= RestRow(b, piece, x, y, rotation) ==> !Collides(b, piece, x, k, rotation)
    ensures Collides(b, piece, x, RestRow(b, piece, x, y, rotation) + 1, rotation)
    decreases Height - y
  {
    FreePose(b, piece, x, y, rotation);
    if !Collides(b, piece, x, y + 1, rotation) {
      RestRowRests(b, piece, x, y + 1, rotation);
    }
  }

  /** Column offsets a rotation tries, in order: in place, one right, one left. */
  const Kicks: seq<int> := [0, 1, -1]

  /** The kick a rotation of `piece` from state `rotation` at (x, y) takes:
      in place when the turned piece fits there, else one column right, else
      one column left, else none (|Kicks|). It is the first kick, in the
      order of Kicks, at which the turned piece fits. */
  function RotationKick(b: seq<int>, piece: nat, x: int, y: int, rotation: nat): (i: nat)
    requires |b| == Size && piece < PieceKinds && rotation < Rotations
    ensures i <= |Kicks|
    ensures i < |Kicks| ==> !Collides(b, piece, x + Kicks[i], y, NextRotation(rotation))
    ensures forall j :: 0 <= j < i ==> Collides(b, piece, x + Kicks[j], y, NextRotation(rotation))
  {
    var next := NextRotation(rotation);
    if !Collides(b, piece, x, y, next) then 0
    else if !Collides(b, piece, x + 1, y, next) then 1
    else if !Collides(b, piece, x - 1, y, next) then 2
    else 3
  }

  // ---------------------------------------------------------------------------
  // Writing a piece into the grid

  /** Every cell of `cells` at anchor (x, y) is inside the grid. */
  predicate AllInBounds(cells: seq<Cell>, x: int, y: int)
  {
    forall i :: 0 <= i < |cells| ==> InBounds(x + cells[i].dx, y + cells[i].dy)
  }

  /** Whether one of `cells` at anchor (x, y) lands on flat index k. */
  predicate Covers(cells: seq<Cell>, x: int, y: int, k: int)
    requires AllInBounds(cells, x, y)
  {
    exists i :: 0 <= i < |cells| && Index(x + cells[i].dx, y + cells[i].dy) == k
  }

  /** The grid after writing `tag` into each of `cells`, one after another. */
  function Stamp(b: seq<int>, cells: seq<Cell>, x: int, y: int, tag: int): (r: seq<int>)
    requires |b| == Size && AllInBounds(cells, x, y)
    ensures |r| == Size
    decreases |cells|
  {
    if cells == [] then b
    else
      var init, last := cells[..|cells| - 1], cells[|cells| - 1];
      assert forall i :: 0 <= i < |init| ==> init[i] == cells[i];
      Stamp(b, init, x, y, tag)[Index(x + last.dx, y + last.dy) := tag]
  }

  /** Stamping sets exactly the covered cells to `tag` and keeps all others. */
  lemma {:induction false} StampCovers(b: seq<int>, cells: seq<Cell>, x: int, y: int, tag: int)
    requires |b| == Size && AllInBounds(cells, x, y)
    ensures forall k :: 0 <= k < Size && Covers(cells, x, y, k) ==> Stamp(b, cells, x, y, tag)[k] == tag
    ensures forall k :: 0 <= k < Size && !Covers(cells, x, y, k) ==> Stamp(b, cells, x, y, tag)[k] == b[k]
    decreases |cells|
  {
    if cells != [] {
      var init, last := cells[..|cells| - 1], cells[|cells| - 1];
      assert forall i :: 0 <= i < |init| ==> init[i] == cells[i];
      StampCovers(b, init, x, y, tag);
      assert forall k :: 0 <= k < Size && Covers(cells, x, y, k) ==>
        Covers(init, x, y, k) || k == Index(x + last.dx, y + last.dy);
      assert forall k :: 0 <= k < Size && Covers(init, x, y, k) ==> Covers(cells, x, y, k);
      assert Covers(cells, x, y, Index(x + last.dx, y + last.dy)) by {
        assert Index(x + cells[|cells| - 1].dx, y + cells[|cells| - 1].dy) == Index(x + last.dx, y + last.dy);
      }
    }
  }

  /** Stamping no cell changes nothing; stamping one more cell of `cells`
      writes its flat index. */
  lemma StampPrefix(b: seq<int>, cells: seq<Cell>, x: int, y: int, tag: int, k: nat)
    requires |b| == Size && AllInBounds(cells, x, y) && k < |cells|
    ensures AllInBounds(cells[..k], x, y) && AllInBounds(cells[..k + 1], x, y)
    ensures Stamp(b, cells[..0], x, y, tag) == b
    ensures Stamp(b, cells[..k + 1], x, y, tag) ==
      Stamp(b, cells[..k], x, y, tag)[Index(x + cells[k].dx, y + cells[k].dy) := tag]
  {
    assert cells[..0] == [];
    assert cells[..k + 1][..k] == cells[..k];
  }

  /** Stamping all the prefix is stamping the whole sequence. */
  lemma StampAll(b: seq<int>, cells: seq<Cell>, x: int, y: int, tag: int)
    requires |b| == Size && AllInBounds(cells, x, y)
    ensures AllInBounds(cells[..|cells|], x, y)
    ensures Stamp(b, cells[..|cells|], x, y, tag) == Stamp(b, cells, x, y, tag)
  {
    assert cells[..|cells|] == cells;
  }

  /** Locking: the grid with the piece's four cells set to its tag, piece + 1,
      and every other cell as it was. */
  function Place(b: seq<int>, piece: nat, x: int, y: int, rotation: nat): (r: seq<int>)
    requires |b| == Size && piece < PieceKinds && rotation < Rotations
    requires !Collides(b, piece, x, y, rotation)
    ensures |r| == Size
  {
    FreePose(b, piece, x, y, rotation);
    Stamp(b, Shape(piece, rotation), x, y, piece + 1)
  }

  // ---------------------------------------------------------------------------
  // Counting occupied cells

  /** The number of non-empty cells of `s`. */
  function Count(s: seq<int>): nat
  {
    if s == [] then 0 else Count(s[..|s| - 1]) + (if s[|s| - 1] != 0 then 1 else 0)
  }

  lemma {:induction false} CountAppend(a: seq<int>, b: seq<int>)
    ensures Count(a + b) == Count(a) + Count(b)
    decreases |b|
  {
    if b != [] {
      assert (a + b)[..|a + b| - 1] == a + b[..|b| - 1];
      CountAppend(a, b[..|b| - 1]);
    } else {
      assert a + b == a;
    }
  }

  /** Filling one empty cell raises the count by exactly one. */
  lemma FillOneCell(s: seq<int>, k: nat, v: int)
    requires k < |s| && s[k] == 0 && v != 0
    ensures Count(s[k := v]) == Count(s) + 1
  {
    assert s == s[..k] + [s[k]] + s[k + 1..];
    assert s[k := v] == s[..k] + [v] + s[k + 1..];
    CountAppend(s[..k] + [s[k]], s[k + 1..]);
    CountAppend(s[..k], [s[k]]);
    CountAppend(s[..k] + [v], s[k + 1..]);
    CountAppend(s[..k], [v]);
    assert Count([s[k]]) == 0 by { assert [s[k]][..0] == []; }
    assert Count([v]) == 1 by { assert [v][..0] == []; }
  }

  /** Stamping distinct empty cells with a non-zero tag adds one occupied cell per cell. */
  lemma {:induction false} StampCount(b: seq<int>, cells: seq<Cell>, x: int, y: int, tag: int)
    requires |b| == Size && AllInBounds(cells, x, y) && tag != 0
    requires forall i :: 0 <= i < |cells| ==> b[Index(x + cells[i].dx, y + cells[i].dy)] == 0
    requires forall i, j :: 0 <= i < j < |cells| ==> cells[i] != cells[j]
    ensures Count(Stamp(b, cells, x, y, tag)) == Count(b) + |cells|
    decreases |cells|
  {
    if cells != [] {
      var init, last := cells[..|cells| - 1], cells[|cells| - 1];
      assert forall i :: 0 <= i < |init| ==> init[i] == cells[i];
      StampCount(b, init, x, y, tag);
      var k := Index(x + last.dx, y + last.dy);
      assert b[k] == 0;
      assert !Covers(init, x, y, k) by {
        forall i | 0 <= i < |init|
          ensures Index(x + init[i].dx, y + init[i].dy) != k
        {
          assert init[i] != last;
        }
      }
      StampCovers(b, init, x, y, tag);
      assert Stamp(b, init, x, y, tag)[k] == b[k];
      FillOneCell(Stamp(b, init, x, y, tag), k, tag);
      assert Stamp(b, cells, x, y, tag) == Stamp(b, init, x, y, tag)[k := tag];
    }
  }

  /** Locking a free pose adds exactly four occupied cells, all tagged piece + 1. */
  lemma PlaceCount(b: seq<int>, piece: nat, x: int, y: int, rotation: nat)
    requires |b| == Size && piece < PieceKinds && rotation < Rotations
    requires !Collides(b, piece, x, y, rotation)
    ensures Count(Place(b, piece, x, y, rotation)) == Count(b) + 4
  {
    FreePose(b, piece, x, y, rotation);
    ShapeCellsDistinct(piece, rotation);
    StampCount(b, Shape(piece, rotation), x, y, piece + 1);
  }

  /** Locking writes piece + 1 into exactly the four cells of the pose and
      keeps every other cell. */
  lemma PlaceWrites(b: seq<int>, piece: nat, x: int, y: int, rotation: nat)
    requires |b| == Size && piece < PieceKinds && rotation < Rotations
    requires !Collides(b, piece, x, y, rotation)
    ensures AllInBounds(Shape(piece, rotation), x, y)
    ensures forall k :: 0 <= k < Size && Covers(Shape(piece, rotation), x, y, k) ==> Place(b, piece, x, y, rotation)[k] == piece + 1
    ensures forall k :: 0 <= k < Size && !Covers(Shape(piece, rotation), x, y, k) ==> Place(b, piece, x, y, rotation)[k] == b[k]
  {
    FreePose(b, piece, x, y, rotation);
    StampCovers(b, Shape(piece, rotation), x, y, piece + 1);
  }

  /** Locking is stamping the catalog cells with tag piece + 1, all of which are
      inside the grid, and it keeps every cell a tag in 0..7. */
  lemma PlaceCells(b: seq<int>, piece: nat, x: int, y: int, rotation: nat)
    requires |b| == Size && piece < PieceKinds && rotation < Rotations
    requires !Collides(b, piece, x, y, rotation)
    ensures AllInBounds(Shape(piece, rotation), x, y)
    ensures Place(b, piece, x, y, rotation) == Stamp(b, Shape(piece, rotation), x, y, piece + 1)
    ensures Tagged(b) ==> Tagged(Place(b, piece, x, y, rotation))
  {
    PlaceWrites(b, piece, x, y, rotation);
  }

  // ---------------------------------------------------------------------------
  // Rows and compaction

  /** Row r of the grid, left to right. */
  function Row(b: seq<int>, r: nat): (row: seq<int>)
    requires |b| == Size && r < Height
    ensures |row| == Width
  {
    b[r * Width .. r * Width + Width]
  }

  /** A row whose every cell is occupied. */
  predicate Full(row: seq<int>)
  {
    forall c :: 0 <= c < |row| ==> row[c] != 0
  }

  predicate NoFullRow(b: seq<int>)
    requires |b| == Size
  {
    forall r :: 0 <= r < Height ==> !Full(Row(b, r))
  }

  /** The rows r .. Height - 1 that are not full, top to bottom, in their
      original order. (The measure is the number of cells from row r on.) */
  function Kept(b: seq<int>, r: nat): (rows: seq<seq<int>>)
    requires |b| == Size && r <= Height
    ensures |rows| <= Height - r
    decreases |b| - r * Width
  {
    if r == Height then []
    else (if Full(Row(b, r)) then [] else [Row(b, r)]) + Kept(b, r + 1)
  }

  /** Every kept row is a whole row that is not full. */
  lemma {:induction false} KeptRows(b: seq<int>, r: nat)
    requires |b| == Size && r <= Height
    ensures forall j :: 0 <= j < |Kept(b, r)| ==> |Kept(b, r)[j]| == Width && !Full(Kept(b, r)[j])
    decreases Height - r
  {
    if r < Height {
      KeptRows(b, r + 1);
      var k := Kept(b, r + 1);
      if Full(Row(b, r)) {
        assert Kept(b, r) == [] + k == k;
      } else {
        assert Kept(b, r) == [Row(b, r)] + k;
      }
    }
  }

  /** The number of full rows: those compaction removes. */
  function Cleared(b: seq<int>): (c: nat)
    requires |b| == Size
    ensures c <= Height
  {
    Height - |Kept(b, 0)|
  }

  /** The rows laid end to end. */
  function Flatten(rows: seq<seq<int>>): seq<int>
  {
    if rows == [] then [] else rows[0] + Flatten(rows[1..])
  }

  /** Rows of Width cells lay out to Width cells per row. */
  lemma {:induction false} FlattenLength(rows: seq<seq<int>>)
    requires forall j :: 0 <= j < |rows| ==> |rows[j]| == Width
    ensures |Flatten(rows)| == Width * |rows|
    decreases |rows|
  {
    if rows != [] {
      FlattenLength(rows[1..]);
    }
  }

  const BlankRow: seq<int> := [0, 0, 0, 0, 0, 0, 0, 0, 0, 0]

  function BlankRows(n: nat): (rows: seq<seq<int>>)
    ensures |rows| == n
    ensures forall j :: 0 <= j < n ==> rows[j] == BlankRow
  {
    if n == 0 then [] else [BlankRow] + BlankRows(n - 1)
  }

  /** The grid after line clearing: the kept rows packed at the bottom in their
      original order, with empty rows above them. */
  function Compacted(b: seq<int>): (nb: seq<int>)
    requires |b| == Size
    ensures |nb| == Size
  {
    var rows := BlankRows(Cleared(b)) + Kept(b, 0);
    KeptRows(b, 0);
    assert forall j :: 0 <= j < |rows| ==> |rows[j]| == Width;
    FlattenLength(rows);
    Flatten(rows)
  }

  /** n cells, all empty. */
  function Zeros(n: nat): (z: seq<int>)
    ensures |z| == n
  {
    seq(n, _ => 0)
  }

  /** Rows r .. Height - 1 compacted into a whole grid: their kept rows packed
      at the bottom with empty cells above. The line-clearing scan holds this
      after visiting rows Height - 1 down to r. */
  function Packed(b: seq<int>, r: nat): seq<int>
    requires |b| == Size && r <= Height
  {
    Zeros(Width * (Height - |Kept(b, r)|)) + Flatten(Kept(b, r))
  }

  lemma {:induction false} FlattenAppend(a: seq<seq<int>>, b: seq<seq<int>>)
    ensures Flatten(a + b) == Flatten(a) + Flatten(b)
    decreases |a|
  {
    if a == [] {
      assert a + b == b;
    } else {
      assert (a + b)[1..] == a[1..] + b;
      FlattenAppend(a[1..], b);
    }
  }

  /** Row k of laid-out rows is the k-th row. */
  lemma {:induction false} FlattenRow(rows: seq<seq<int>>, k: nat)
    requires forall j :: 0 <= j < |rows| ==> |rows[j]| == Width
    requires k < |rows|
    ensures |Flatten(rows)| == Width * |rows|
    ensures Flatten(rows)[k * Width .. k * Width + Width] == rows[k]
    decreases k
  {
    FlattenLength(rows);
    if k > 0 {
      FlattenRow(rows[1..], k - 1);
      assert Flatten(rows) == rows[0] + Flatten(rows[1..]);
    }
  }

  /** Every row of laid-out rows is the corresponding row. */
  lemma FlattenRows(rows: seq<seq<int>>)
    requires forall j :: 0 <= j < |rows| ==> |rows[j]| == Width
    requires |rows| == Height
    ensures |Flatten(rows)| == Size
    ensures forall k :: 0 <= k < Height ==> Row(Flatten(rows), k) == rows[k]
  {
    FlattenLength(rows);
    forall k | 0 <= k < Height
      ensures Row(Flatten(rows), k) == rows[k]
    {
      FlattenRow(rows, k);
    }
  }

  /** Rows of the grid from r on, laid out, are the grid from row r's first cell. */
  lemma {:induction false} RowsFrom(b: seq<int>, r: nat)
    requires |b| == Size && r < Height
    ensures b[r * Width ..] == Row(b, r) + b[(r + 1) * Width ..]
  {
  }

  /** Occupied cells of rows r.. = occupied cells of the kept rows + Width per full row. */
  lemma {:induction false} KeptCount(b: seq<int>, r: nat)
    requires |b| == Size && r <= Height
    ensures Count(b[r * Width ..]) == Count(Flatten(Kept(b, r))) + Width * (Height - r - |Kept(b, r)|)
    decreases Height - r
  {
    if r == Height {
      assert b[r * Width ..] == [];
    } else {
      KeptCount(b, r + 1);
      RowsFrom(b, r);
      CountAppend(Row(b, r), b[(r + 1) * Width ..]);
      if Full(Row(b, r)) {
        FullCount(Row(b, r));
        assert Kept(b, r) == [] + Kept(b, r + 1) == Kept(b, r + 1);
        assert Width * (Height - r - |Kept(b, r)|) == Width + Width * (Height - (r + 1) - |Kept(b, r + 1)|);
      } else {
        var k := Kept(b, r + 1);
        assert Kept(b, r) == [Row(b, r)] + k;
        assert ([Row(b, r)] + k)[1..] == k;
        CountAppend(Row(b, r), Flatten(k));
      }
    }
  }

  lemma {:induction false} FullCount(row: seq<int>)
    requires Full(row)
    ensures Count(row) == |row|
    decreases |row|
  {
    if row != [] {
      FullCount(row[..|row| - 1]);
    }
  }

  lemma {:induction false} ZeroCount(s: seq<int>)
    requires forall i :: 0 <= i < |s| ==> s[i] == 0
    ensures Count(s) == 0
    decreases |s|
  {
    if s != [] {
      ZeroCount(s[..|s| - 1]);
    }
  }

  lemma {:induction false} BlankRowsFlat(n: nat)
    ensures |Flatten(BlankRows(n))| == Width * n
    ensures forall i :: 0 <= i < Width * n ==> Flatten(BlankRows(n))[i] == 0
    decreases n
  {
    if n > 0 {
      assert BlankRows(n)[1..] == BlankRows(n - 1);
      BlankRowsFlat(n - 1);
    }
  }

  /** Clearing removes Width occupied cells for every full row and no others. */
  lemma CompactedCount(b: seq<int>)
    requires |b| == Size
    ensures Count(Compacted(b)) == Count(b) - Width * Cleared(b)
  {
    KeptCount(b, 0);
    assert b[0 * Width ..] == b;
    FlattenAppend(BlankRows(Cleared(b)), Kept(b, 0));
    CountAppend(Flatten(BlankRows(Cleared(b))), Flatten(Kept(b, 0)));
    BlankRowsFlat(Cleared(b));
    ZeroCount(Flatten(BlankRows(Cleared(b))));
  }

  /** The compacted grid is Cleared(b) empty rows followed by the kept rows,
      laid out in their original top-to-bottom order. */
  lemma CompactedLayout(b: seq<int>)
    requires |b| == Size
    ensures Width * Cleared(b) <= Size
    ensures forall i :: 0 <= i < Width * Cleared(b) ==> Compacted(b)[i] == 0
    ensures Compacted(b)[Width * Cleared(b) ..] == Flatten(Kept(b, 0))
  {
    var c, kept := Cleared(b), Kept(b, 0);
    FlattenAppend(BlankRows(c), kept);
    BlankRowsFlat(c);
  }

  /** No row of the compacted grid is full. */
  lemma CompactedNoFullRow(b: seq<int>)
    requires |b| == Size
    ensures NoFullRow(Compacted(b))
  {
    var c, kept := Cleared(b), Kept(b, 0);
    var rows := BlankRows(c) + kept;
    KeptRows(b, 0);
    assert |rows| == Height;
    assert BlankRow[0] == 0;
    assert forall j :: 0 <= j < |rows| ==> |rows[j]| == Width && !Full(rows[j]);
    FlattenRows(rows);
  }

  /** On a grid without full rows the kept rows are all the rows. */
  lemma {:induction false} KeptAll(b: seq<int>, r: nat)
    requires |b| == Size && r <= Height && NoFullRow(b)
    ensures Flatten(Kept(b, r)) == b[r * Width ..]
    ensures |Kept(b, r)| == Height - r
    decreases Height - r
  {
    if r < Height {
      KeptAll(b, r + 1);
      RowsFrom(b, r);
      assert ([Row(b, r)] + Kept(b, r + 1))[1..] == Kept(b, r + 1);
    }
  }

  /** Compaction leaves a grid without full rows unchanged. */
  lemma CompactedStable(b: seq<int>)
    requires |b| == Size && NoFullRow(b)
    ensures Compacted(b) == b
  {
    KeptAll(b, 0);
    assert BlankRows(0) + Kept(b, 0) == Kept(b, 0);
  }

  /** Compaction is idempotent. */
  lemma CompactedIdempotent(b: seq<int>)
    requires |b| == Size
    ensures Compacted(Compacted(b)) == Compacted(b)
  {
    CompactedNoFullRow(b);
    CompactedStable(Compacted(b));
  }

  /** One step of the bottom-up scan: the kept rows from r on are row r, unless
      it is full, followed by the kept rows from r + 1 on. */
  lemma KeptStep(b: seq<int>, r: nat)
    requires |b| == Size && r < Height
    ensures Full(Row(b, r)) ==> Kept(b, r) == Kept(b, r + 1) && |Kept(b, r)| == |Kept(b, r + 1)|
    ensures !Full(Row(b, r)) ==> |Kept(b, r)| == |Kept(b, r + 1)| + 1
    ensures !Full(Row(b, r)) ==> Flatten(Kept(b, r)) == Row(b, r) + Flatten(Kept(b, r + 1))
  {
    if Full(Row(b, r)) {
      assert Kept(b, r) == [] + Kept(b, r + 1);
    } else {
      var k := Kept(b, r + 1);
      assert Kept(b, r) == [Row(b, r)] + k;
      assert ([Row(b, r)] + k)[1..] == k;
    }
  }

  /** Before the scan visits any row, the packed grid is all empty; after it
      visits every row, the packed grid is the compacted grid. */
  lemma PackedEnds(b: seq<int>)
    requires |b| == Size
    ensures Packed(b, Height) == Zeros(Size)
    ensures Packed(b, 0) == Compacted(b)
  {
    assert Kept(b, Height) == [];
    var c := Cleared(b);
    FlattenAppend(BlankRows(c), Kept(b, 0));
    BlankRowsFlat(c);
    assert Flatten(BlankRows(c)) == Zeros(Width * c);
  }

  /** A full row r leaves the packed grid as it was. */
  lemma PackedSkip(b: seq<int>, r: nat)
    requires |b| == Size && r < Height && Full(Row(b, r))
    ensures Packed(b, r) == Packed(b, r + 1)
  {
    KeptStep(b, r);
  }

  /** A row r that is not full goes into the lowest row of the packed grid
      that is still empty. */
  lemma PackedKeep(b: seq<int>, r: nat)
    requires |b| == Size && r < Height && !Full(Row(b, r))
    ensures |Packed(b, r + 1)| == Size
    ensures 0 < Height - |Kept(b, r + 1)|
    ensures
      var w := Height - |Kept(b, r + 1)| - 1;
      Packed(b, r) == Packed(b, r + 1)[..w * Width] + Row(b, r) + Packed(b, r + 1)[w * Width + Width ..]
  {
    var k := Kept(b, r + 1);
    KeptStep(b, r);
    KeptRows(b, r + 1);
    FlattenLength(k);
    var w := Height - |k| - 1;
    var p := Packed(b, r + 1);
    assert p[..w * Width] == Zeros(w * Width);
    assert p[w * Width + Width ..] == Flatten(k);
  }

  /** The kept rows hold only cells of the grid, so only tags. */
  lemma {:induction false} KeptTags(b: seq<int>, r: nat)
    requires Tagged(b) && r <= Height
    ensures Tags(Flatten(Kept(b, r)))
    decreases Height - r
  {
    if r < Height {
      KeptTags(b, r + 1);
      KeptStep(b, r);
      if !Full(Row(b, r)) {
        TagsAppend(Row(b, r), Flatten(Kept(b, r + 1)));
      }
    }
  }

  /** Two runs of tags laid end to end are a run of tags. */
  lemma TagsAppend(s: seq<int>, t: seq<int>)
    requires Tags(s) && Tags(t)
    ensures Tags(s + t)
  {
    forall i | 0 <= i < |s + t|
      ensures 0 <= (s + t)[i] <= 7
    {
      if i >= |s| {
        assert (s + t)[i] == t[i - |s|];
      }
    }
  }

  /** Compaction keeps every cell a tag in 0..7. */
  lemma CompactedTagged(b: seq<int>)
    requires Tagged(b)
    ensures Tagged(Compacted(b))
  {
    CompactedLayout(b);
    KeptTags(b, 0);
    var c := Width * Cleared(b);
    forall i | 0 <= i < Size
      ensures 0 <= Compacted(b)[i] <= 7
    {
      if i >= c {
        assert Compacted(b)[i] == Compacted(b)[c ..][i - c];
      }
    }
  }

  /** Locking a free pose and compacting: every cell stays a tag, no full row
      remains, and the occupied cells grow by the piece's four and shrink by a
      whole row for every cleared row. */
  lemma LockOutcome(b: seq<int>, piece: nat, x: int, y: int, rotation: nat)
    requires Tagged(b) && piece < PieceKinds && rotation < Rotations
    requires !Collides(b, piece, x, y, rotation)
    ensures Tagged(Compacted(Place(b, piece, x, y, rotation)))
    ensures NoFullRow(Compacted(Place(b, piece, x, y, rotation)))
    ensures Count(Compacted(Place(b, piece, x, y, rotation))) ==
      Count(b) + 4 - Width * Cleared(Place(b, piece, x, y, rotation))
  {
    var p := Place(b, piece, x, y, rotation);
    PlaceCells(b, piece, x, y, rotation);
    PlaceCount(b, piece, x, y, rotation);
    CompactedTagged(p);
    CompactedNoFullRow(p);
    CompactedCount(p);
  }
}
