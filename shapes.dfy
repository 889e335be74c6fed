/** The shape catalog: for each of the seven piece kinds and each of its four
    rotation states, the four occupied cells of a 4x4 local frame. */
module Shapes {

  /** One occupied cell, as an offset from the piece's anchor. */
  datatype Cell = Cell(dx: int, dy: int)

  const PieceKinds: nat := 7
  const Rotations: nat := 4

  /** Piece kinds, in catalog order (the board tag of a kind is its index + 1). */
  const I: nat := 0
  const O: nat := 1
  const T: nat := 2
  const S: nat := 3
  const Z: nat := 4
  const J: nat := 5
  const L: nat := 6

  /** The four distinct cells, inside the 4x4 frame, that `piece` occupies in
      rotation state `rotation`. */
  function Shape(piece: nat, rotation: nat): (cells: seq<Cell>)
    requires piece < PieceKinds && rotation < Rotations
    ensures |cells| == 4
    ensures forall i :: 0 <= i < 4 ==> 0 <= cells[i].dx < 4 && 0 <= cells[i].dy < 4

  {
    match piece
    case 0 => // I
      (match rotation
      case 0 => [Cell(0, 1), Cell(1, 1), Cell(2, 1), Cell(3, 1)]
      case 1 => [Cell(2, 0), Cell(2, 1), Cell(2, 2), Cell(2, 3)]
      case 2 => [Cell(0, 2), Cell(1, 2), Cell(2, 2), Cell(3, 2)]
      case _ => [Cell(1, 0), Cell(1, 1), Cell(1, 2), Cell(1, 3)])
    case 1 => // O
      (match rotation
      case 0 => [Cell(1, 0), Cell(2, 0), Cell(1, 1), Cell(2, 1)]
      case 1 => [Cell(1, 0), Cell(2, 0), Cell(1, 1), Cell(2, 1)]
      case 2 => [Cell(1, 0), Cell(2, 0), Cell(1, 1), Cell(2, 1)]
      case _ => [Cell(1, 0), Cell(2, 0), Cell(1, 1), Cell(2, 1)])
    case 2 => // T
      (match rotation
      case 0 => [Cell(1, 0), Cell(0, 1), Cell(1, 1), Cell(2, 1)]
      case 1 => [Cell(1, 0), Cell(1, 1), Cell(2, 1), Cell(1, 2)]
      case 2 => [Cell(0, 1), Cell(1, 1), Cell(2, 1), Cell(1, 2)]
      case _ => [Cell(1, 0), Cell(0, 1), Cell(1, 1), Cell(1, 2)])
    case 3 => // S
      (match rotation
      case 0 => [Cell(1, 0), Cell(2, 0), Cell(0, 1), Cell(1, 1)]
      case 1 => [Cell(1, 0), Cell(1, 1), Cell(2, 1), Cell(2, 2)]
      case 2 => [Cell(1, 1), Cell(2, 1), Cell(0, 2), Cell(1, 2)]
      case _ => [Cell(0, 0), Cell(0, 1), Cell(1, 1), Cell(1, 2)])
    case 4 => // Z
      (match rotation
      case 0 => [Cell(0, 0), Cell(1, 0), Cell(1, 1), Cell(2, 1)]
      case 1 => [Cell(2, 0), Cell(1, 1), Cell(2, 1), Cell(1, 2)]
      case 2 => [Cell(0, 1), Cell(1, 1), Cell(1, 2), Cell(2, 2)]
      case _ => [Cell(1, 0), Cell(0, 1), Cell(1, 1), Cell(0, 2)])
    case 5 => // J
      (match rotation
      case 0 => [Cell(0, 0), Cell(0, 1), Cell(1, 1), Cell(2, 1)]
      case 1 => [Cell(1, 0), Cell(2, 0), Cell(1, 1), Cell(1, 2)]
      case 2 => [Cell(0, 1), Cell(1, 1), Cell(2, 1), Cell(2, 2)]
      case _ => [Cell(1, 0), Cell(1, 1), Cell(0, 2), Cell(1, 2)])
    case _ => // L
      (match rotation
      case 0 => [Cell(2, 0), Cell(0, 1), Cell(1, 1), Cell(2, 1)]
      case 1 => [Cell(1, 0), Cell(1, 1), Cell(1, 2), Cell(2, 2)]
      case 2 => [Cell(0, 1), Cell(1, 1), Cell(2, 1), Cell(0, 2)]
      case _ => [Cell(0, 0), Cell(1, 0), Cell(1, 1), Cell(1, 2)])
  }

  /** The four cells of every catalog entry are pairwise distinct, so a piece
      always covers exactly four board cells. */
  lemma ShapeCellsDistinct(piece: nat, rotation: nat)
    requires piece < PieceKinds && rotation < Rotations
    ensures forall i, j :: 0 <= i < j < 4 ==> Shape(piece, rotation)[i] != Shape(piece, rotation)[j]
  {
  }

  /** The rotation state that follows `rotation`, wrapping from 3 back to 0. */
  function NextRotation(rotation: nat): (r: nat)
    requires rotation < Rotations
    ensures r == (rotation + 1) % Rotations
  {
    if rotation == Rotations - 1 then 0 else rotation + 1
  }

  /** The O piece occupies the same cells in every rotation state. */
  lemma ORotationInvariant(rotation: nat)
    requires rotation < Rotations
    ensures Shape(O, rotation) == Shape(O, 0)
    ensures Shape(O, NextRotation(rotation)) == Shape(O, rotation)
  {
  }

  /** The side of the square frame a piece turns in: 4 for I, 3 for the others. */
  function Frame(piece: nat): nat
  {
    if piece == I then 4 else 3
  }

  /** A quarter turn clockwise of a cell inside an n x n frame (y grows downwards). */
  function TurnClockwise(c: Cell, n: int): Cell
  {
    Cell(n - 1 - c.dy, c.dx)
  }

  /** Every cell of `a`, turned clockwise in an n x n frame, is a cell of `b`. */
  predicate TurnsInto(a: seq<Cell>, b: seq<Cell>, n: int)
    requires |a| == 4
  {
    && TurnClockwise(a[0], n) in b && TurnClockwise(a[1], n) in b
    && TurnClockwise(a[2], n) in b && TurnClockwise(a[3], n) in b
  }

  /** Each rotation state of the I piece is the clockwise turn of the previous one. */
  lemma TurnsI(rotation: nat)
    requires rotation < Rotations
    ensures TurnsInto(Shape(0, rotation), Shape(0, NextRotation(rotation)), 4)
  {
    if rotation == 0 {
      var b := Shape(0, 1); assert b == [b[0], b[1], b[2], b[3]];
    } else if rotation == 1 {
      var b := Shape(0, 2); assert b == [b[0], b[1], b[2], b[3]];
    } else if rotation == 2 {
      var b := Shape(0, 3); assert b == [b[0], b[1], b[2], b[3]];
    } else {
      var b := Shape(0, 0); assert b == [b[0], b[1], b[2], b[3]];
    }
  }

  /** Each rotation state of the T piece is the clockwise turn of the previous one. */
  lemma TurnsT(rotation: nat)
    requires rotation < Rotations
    ensures TurnsInto(Shape(2, rotation), Shape(2, NextRotation(rotation)), 3)
  {
    if rotation == 0 {
      var b := Shape(2, 1); assert b == [b[0], b[1], b[2], b[3]];
    } else if rotation == 1 {
      var b := Shape(2, 2); assert b == [b[0], b[1], b[2], b[3]];
    } else if rotation == 2 {
      var b := Shape(2, 3); assert b == [b[0], b[1], b[2], b[3]];
    } else {
      var b := Shape(2, 0); assert b == [b[0], b[1], b[2], b[3]];
    }
  }

  /** Each rotation state of the S piece is the clockwise turn of the previous one. */
  lemma TurnsS(rotation: nat)
    requires rotation < Rotations
    ensures TurnsInto(Shape(3, rotation), Shape(3, NextRotation(rotation)), 3)
  {
    if rotation == 0 {
      var b := Shape(3, 1); assert b == [b[0], b[1], b[2], b[3]];
    } else if rotation == 1 {
      var b := Shape(3, 2); assert b == [b[0], b[1], b[2], b[3]];
    } else if rotation == 2 {
      var b := Shape(3, 3); assert b == [b[0], b[1], b[2], b[3]];
    } else {
      var b := Shape(3, 0); assert b == [b[0], b[1], b[2], b[3]];
    }
  }

  /** Each rotation state of the Z piece is the clockwise turn of the previous one. */
  lemma TurnsZ(rotation: nat)
    requires rotation < Rotations
    ensures TurnsInto(Shape(4, rotation), Shape(4, NextRotation(rotation)), 3)
  {
    if rotation == 0 {
      var b := Shape(4, 1); assert b == [b[0], b[1], b[2], b[3]];
    } else if rotation == 1 {
      var b := Shape(4, 2); assert b == [b[0], b[1], b[2], b[3]];
    } else if rotation == 2 {
      var b := Shape(4, 3); assert b == [b[0], b[1], b[2], b[3]];
    } else {
      var b := Shape(4, 0); assert b == [b[0], b[1], b[2], b[3]];
    }
  }

  /** Each rotation state of the J piece is the clockwise turn of the previous one. */
  lemma TurnsJ(rotation: nat)
    requires rotation < Rotations
    ensures TurnsInto(Shape(5, rotation), Shape(5, NextRotation(rotation)), 3)
  {
    if rotation == 0 {
      var b := Shape(5, 1); assert b == [b[0], b[1], b[2], b[3]];
    } else if rotation == 1 {
      var b := Shape(5, 2); assert b == [b[0], b[1], b[2], b[3]];
    } else if rotation == 2 {
      var b := Shape(5, 3); assert b == [b[0], b[1], b[2], b[3]];
    } else {
      var b := Shape(5, 0); assert b == [b[0], b[1], b[2], b[3]];
    }
  }

  /** Each rotation state of the L piece is the clockwise turn of the previous one. */
  lemma TurnsL(rotation: nat)
    requires rotation < Rotations
    ensures TurnsInto(Shape(6, rotation), Shape(6, NextRotation(rotation)), 3)
  {
    if rotation == 0 {
      var b := Shape(6, 1); assert b == [b[0], b[1], b[2], b[3]];
    } else if rotation == 1 {
      var b := Shape(6, 2); assert b == [b[0], b[1], b[2], b[3]];
    } else if rotation == 2 {
      var b := Shape(6, 3); assert b == [b[0], b[1], b[2], b[3]];
    } else {
      var b := Shape(6, 0); assert b == [b[0], b[1], b[2], b[3]];
    }
  }

  /** Every piece but O follows the standard geometry: each rotation state is the
      clockwise quarter turn of the previous one inside the piece's frame (both
      entries hold four distinct cells, so the turn maps one onto the other). */
  lemma RotationStatesTurnClockwise(piece: nat, rotation: nat)
    requires piece < PieceKinds && piece != O && rotation < Rotations
    ensures TurnsInto(Shape(piece, rotation), Shape(piece, NextRotation(rotation)), Frame(piece))
  {
    match piece
    case 0 => TurnsI(rotation);
    case 2 => TurnsT(rotation);
    case 3 => TurnsS(rotation);
    case 4 => TurnsZ(rotation);
    case 5 => TurnsJ(rotation);
    case 6 => TurnsL(rotation);
  }
}

