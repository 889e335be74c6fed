/** The game state machine: a 10 x 20 grid of tags, the active piece and its
    pose, the next piece, the sequencer, the player's input flags, the tick
    timestamps, the score and the game-over flag, with the operations one tick
    of the game loop performs on them. */
module Tetris {
  import opened Shapes
  import opened Sequencer
  import opened Board
  import opened Scoring

  /** The player's input: three held keys and five one-shot flags that the
      tick consumes. */
  datatype InputState = InputState(
    left: bool, right: bool, down: bool,
    leftJust: bool, rightJust: bool,
    rotate: bool, hardDrop: bool, restart: bool)

  const NoInput: InputState := InputState(false, false, false, false, false, false, false, false)

  /** The pose every new piece starts in. */
  const SpawnX: int := 3
  const SpawnY: int := 0

  /** Milliseconds a held left or right key waits before it moves again. */
  const RepeatDelay: int := 90

  /** Whether a sideways key moves the piece in a frame at `now`: on a fresh
      press, or while held once more than RepeatDelay ms have passed since
      its last move at `last`. */
  predicate Fires(just: bool, held: bool, now: int, last: int)
  {
    just || (held && now - last > RepeatDelay)
  }

  /** The part of the game the moves act on: the grid, the active piece and
      its pose, the next piece, the score, the cleared-line count, the
      generator state and the game-over flag. */
  datatype Snapshot = Snapshot(
    grid: seq<int>, piece: nat, x: int, y: int, rotation: nat,
    next: nat, score: nat, lines: nat, seed: bv32, over: bool)

  /** The grid has the board's size and the piece indices are in range. */
  predicate Sane(s: Snapshot)
  {
    |s.grid| == Size && s.piece < PieceKinds && s.next < PieceKinds && s.rotation < Rotations
  }

  /** A sane snapshot whose active piece lies on free cells inside the board. */
  predicate Live(s: Snapshot)
  {
    Sane(s) && !Collides(s.grid, s.piece, s.x, s.y, s.rotation)
  }

  /** The snapshot with the active piece moved to pose (x, y, rotation). */
  function At(s: Snapshot, x: int, y: int, rotation: nat): (t: Snapshot)
    ensures t.grid == s.grid && t.piece == s.piece && t.next == s.next
    ensures t.score == s.score && t.lines == s.lines && t.seed == s.seed && t.over == s.over
    ensures t.x == x && t.y == y && t.rotation == rotation
  {
    Snapshot(s.grid, s.piece, x, y, rotation, s.next, s.score, s.lines, s.seed, s.over)
  }

  /** A move by (dx, dy), taken only when that pose is free. */
  function Stepped(s: Snapshot, dx: int, dy: int): (t: Snapshot)
    requires Sane(s)
    ensures Sane(t) && (Live(s) ==> Live(t))
  {
    if Collides(s.grid, s.piece, s.x + dx, s.y + dy, s.rotation) then s else At(s, s.x + dx, s.y + dy, s.rotation)
  }

  /** A rotation attempt: the next rotation state at the first column offset
      of Kicks where it fits, or no change when none fits. */
  function Rotated(s: Snapshot): (t: Snapshot)
    requires Sane(s)
    ensures Sane(t) && (Live(s) ==> Live(t))
  {
    Kicked(s, RotationKick(s.grid, s.piece, s.x, s.y, s.rotation))
  }

  /** The rotation at kick index `k`, or no change when `k` is past Kicks. */
  function Kicked(s: Snapshot, k: nat): (t: Snapshot)
    requires Sane(s) && k <= |Kicks|
    requires k < |Kicks| ==> !Collides(s.grid, s.piece, s.x + Kicks[k], s.y, NextRotation(s.rotation))
    ensures Sane(t) && (Live(s) ==> Live(t))
  {
    if k < |Kicks| then At(s, s.x + Kicks[k], s.y, NextRotation(s.rotation)) else s
  }

  /** Locking: the piece is written into the grid with tag piece + 1, full
      rows are cleared and credited to lines and score, the next piece is
      active at the spawn pose with a new next piece drawn, and the game
      becomes over when the spawn pose collides (it never goes back on). */
  function Locked(s: Snapshot): (t: Snapshot)
    requires Live(s)
    ensures Sane(t) && s.score <= t.score && s.lines <= t.lines
  {
    Spawned(s, Place(s.grid, s.piece, s.x, s.y, s.rotation))
  }

  /** The snapshot after the piece of `s` has been written, giving grid
      `placed`: full rows cleared and credited and the next piece spawned. */
  function Spawned(s: Snapshot, placed: seq<int>): (t: Snapshot)
    requires |placed| == Size && s.next < PieceKinds
    ensures Sane(t) && s.score <= t.score && s.lines <= t.lines
  {
    Snapshot(Compacted(placed), s.next, SpawnX, SpawnY, 0, Draw(s.seed, PieceKinds),
      s.score + Award(Cleared(placed), s.lines), s.lines + Cleared(placed),
      Xorshift(s.seed), s.over || Collides(Compacted(placed), s.next, SpawnX, SpawnY, 0))
  }

  /** A due gravity step: one row down when that row is free, else a lock. */
  function Fell(s: Snapshot): (t: Snapshot)
    requires Live(s)
    ensures Sane(t) && s.score <= t.score && s.lines <= t.lines
  {
    if Collides(s.grid, s.piece, s.x, s.y + 1, s.rotation) then Locked(s) else At(s, s.x, s.y + 1, s.rotation)
  }

  /** A hard drop: the piece locks in its rest row. */
  function Dropped(s: Snapshot): (t: Snapshot)
    requires Live(s)
    ensures Sane(t) && s.score <= t.score && s.lines <= t.lines
  {
    Locked(At(s, s.x, RestRow(s.grid, s.piece, s.x, s.y, s.rotation), s.rotation))
  }

  /** A gravity step that is due or not. */
  function Gravitated(s: Snapshot, due: bool): (t: Snapshot)
    requires Live(s)
    ensures Sane(t) && s.score <= t.score && s.lines <= t.lines
  {
    if due then Fell(s) else s
  }

  /** A restart: an empty grid, the next two draws as the active and the next
      piece, the spawn pose, zero score and lines, and the game on. */
  function Restarted(s: Snapshot): (t: Snapshot)
    ensures Sane(t)
  {
    Snapshot(Empty, Draw(s.seed, PieceKinds), SpawnX, SpawnY, 0, Draw(Xorshift(s.seed), PieceKinds),
      0, 0, Xorshift(Xorshift(s.seed)), false)
  }

  /** The moves of one frame while the game is on: a pending rotation, then
      either a pending hard drop, or the left move, the right move and the
      gravity step, each when it fires. */
  function Played(s: Snapshot, rotate: bool, hardDrop: bool, left: bool, right: bool, due: bool): (t: Snapshot)
    requires Live(s)
    ensures Sane(t) && s.score <= t.score && s.lines <= t.lines
  {
    Moved(if rotate then Rotated(s) else s, hardDrop, left, right, due)
  }

  /** The moves of a frame after the rotation attempt. */
  function Moved(s: Snapshot, hardDrop: bool, left: bool, right: bool, due: bool): (t: Snapshot)
    requires Live(s)
    ensures Sane(t) && s.score <= t.score && s.lines <= t.lines
  {
    if hardDrop then Dropped(s) else Gravitated(Shifted(s, left, right), due)
  }

  /** The left move, then the right move, each when its key fires. */
  function Shifted(s: Snapshot, left: bool, right: bool): (t: Snapshot)
    requires Sane(s)
    ensures Sane(t) && (Live(s) ==> Live(t)) && t.lines == s.lines
  {
    var m := if left then Stepped(s, -1, 0) else s;
    if right then Stepped(m, 1, 0) else m
  }

  /** The game invariant on a snapshot: every cell a tag, no full row, and
      while the game is on the active piece lies on free cells. */
  predicate Consistent(s: Snapshot)
  {
    Sane(s) && Tagged(s.grid) && NoFullRow(s.grid) && (!s.over ==> Live(s))
  }

  /** A lock keeps the invariant: the new grid holds tags and no full row,
      and the game is over afterwards exactly when it was over already or the
      spawned piece does not fit. */
  lemma LockedConsistent(s: Snapshot)
    requires Live(s) && Tagged(s.grid)
    ensures Consistent(Locked(s))
    ensures Locked(s).over <==> s.over || !Live(Locked(s))
  {
    LockOutcome(s.grid, s.piece, s.x, s.y, s.rotation);
  }

  /** A restart gives a consistent snapshot with the game on. */
  lemma RestartedConsistent(s: Snapshot)
    ensures Consistent(Restarted(s)) && Live(Restarted(s))
  {
    SpawnValid(Empty, Draw(s.seed, PieceKinds));
  }

  /** A move or a rotation attempt keeps the invariant and the game on. */
  lemma PoseConsistent(s: Snapshot, t: Snapshot)
    requires Consistent(s) && !s.over && Live(t)
    requires t == s || t == At(s, t.x, t.y, t.rotation)
    ensures Consistent(t) && !t.over
  {
  }

  /** A due gravity step from a consistent snapshot with the game on keeps
      the invariant. */
  lemma FellConsistent(s: Snapshot)
    requires Consistent(s) && !s.over
    ensures Consistent(Fell(s))
  {
    if Collides(s.grid, s.piece, s.x, s.y + 1, s.rotation) {
      LockedConsistent(s);
    } else {
      PoseConsistent(s, At(s, s.x, s.y + 1, s.rotation));
    }
  }

  /** A hard drop from a consistent snapshot with the game on keeps the
      invariant. */
  lemma DroppedConsistent(s: Snapshot)
    requires Consistent(s) && !s.over
    ensures Consistent(Dropped(s))
  {
    var d := At(s, s.x, RestRow(s.grid, s.piece, s.x, s.y, s.rotation), s.rotation);
    PoseConsistent(s, d);
    LockedConsistent(d);
  }

  /** Every frame played from a consistent snapshot with the game on ends in
      a consistent snapshot. */
  lemma PlayedConsistent(s: Snapshot, rotate: bool, hardDrop: bool, left: bool, right: bool, due: bool)
    requires Consistent(s) && !s.over
    ensures Consistent(Played(s, rotate, hardDrop, left, right, due))
  {
    var r := if rotate then Rotated(s) else s;
    PoseConsistent(s, r);
    if hardDrop {
      DroppedConsistent(r);
    } else {
      var l := if left then Stepped(r, -1, 0) else r;
      PoseConsistent(r, l);
      var m := if right then Stepped(l, 1, 0) else l;
      PoseConsistent(l, m);
      if due {
        FellConsistent(m);
      }
    }
  }

  /** A hard drop ends where gravity would: it is a lock once the row below
      is blocked, and from a pose with a free row below it is the hard drop
      of the pose one row down. */
  lemma DroppedIsFallen(s: Snapshot)
    requires Live(s)
    ensures Collides(s.grid, s.piece, s.x, s.y + 1, s.rotation) ==> Dropped(s) == Fell(s)
    ensures !Collides(s.grid, s.piece, s.x, s.y + 1, s.rotation) ==>
      Fell(s) == At(s, s.x, s.y + 1, s.rotation) && Dropped(s) == Dropped(At(s, s.x, s.y + 1, s.rotation))
  {
    var r := RestRow(s.grid, s.piece, s.x, s.y, s.rotation);
    if Collides(s.grid, s.piece, s.x, s.y + 1, s.rotation) {
      assert r == s.y;
      assert At(s, s.x, r, s.rotation) == s;
    } else {
      var f := At(s, s.x, s.y + 1, s.rotation);
      assert Fell(s) == f;
      assert RestRow(f.grid, f.piece, f.x, f.y, f.rotation) == r;
      assert At(f, f.x, r, f.rotation) == At(s, s.x, r, s.rotation);
    }
  }

  class Game {
    const board: array<int>
    var piece: nat
    var nextPiece: nat
    var x: int
    var y: int
    var rotation: nat
    const rng: Rng
    var input: InputState
    var lastTime: int
    var fallAccum: int
    var lastLeft: int
    var lastRight: int
    var score: nat
    var lines: nat
    var over: bool

    /** The grid holds tags and the piece indices are in range. */
    predicate Wf()
      reads this`piece, this`nextPiece, this`rotation, board
    {
      && board.Length == Size
      && Tagged(board[..])
      && piece < PieceKinds && nextPiece < PieceKinds && rotation < Rotations
    }

    /** The game invariant: no full row is ever left on the grid, and while the
        game is not over the active piece does not overlap anything. */
    predicate Valid()
      reads this`piece, this`nextPiece, this`rotation, this`x, this`y, this`over, board
    {
      && Wf()
      && NoFullRow(board[..])
      && (!over ==> !Collides(board[..], piece, x, y, rotation))
    }

    /** The grid, piece, pose, next piece, score, lines, generator state and
        game-over flag as one value. */
    ghost function Snap(): Snapshot
      reads this`piece, this`nextPiece, this`x, this`y, this`rotation, this`score, this`lines, this`over, board, rng
    {
      Snapshot(board[..], piece, x, y, rotation, nextPiece, score, lines, rng.state, over)
    }

    /** The class invariant is the game invariant of the snapshot. */
    lemma ValidIsConsistent()
      requires board.Length == Size
      ensures Valid() <==> Consistent(Snap())
    {
    }

    /** A new game: an empty grid, the first two draws of a generator seeded
        with `seed`, the active piece at the spawn pose, and no input. */
    constructor (seed: bv32)
      ensures Valid() && fresh(board) && fresh(rng)
      ensures board[..] == Empty
      ensures rng.state == Xorshift(Xorshift(seed))
      ensures piece == Draw(seed, PieceKinds) && nextPiece == Draw(Xorshift(seed), PieceKinds)
      ensures x == SpawnX && y == SpawnY && rotation == 0
      ensures input == NoInput
      ensures lastTime == 0 && fallAccum == 0 && lastLeft == 0 && lastRight == 0
      ensures score == 0 && lines == 0 && !over
    {
      var r := new Rng(seed);
      var p := r.NextUsize(PieceKinds);
      var n := r.NextUsize(PieceKinds);
      var grid := NewGrid();
      board := grid;
      piece := p;
      nextPiece := n;
      x := SpawnX;
      y := SpawnY;
      rotation := 0;
      rng := r;
      input := NoInput;
      lastTime := 0;
      fallAccum := 0;
      lastLeft := 0;
      lastRight := 0;
      score := 0;
      lines := 0;
      over := Collides(grid[..], p, SpawnX, SpawnY, 0);
      new;
      SpawnValid(board[..], piece);
    }

    /** Starts over: two fresh draws, the spawn pose, an empty grid, zero score
        and lines, and a cleared gravity accumulator. The timestamps of the last
        tick and of the last sideways moves are kept. */
    method Reset()
      requires Wf()
      modifies this`piece, this`nextPiece, this`x, this`y, this`rotation
      modifies this`score, this`lines, this`over, this`fallAccum, board, rng
      ensures Valid()
      ensures board[..] == Empty
      ensures rng.state == Xorshift(Xorshift(old(rng.state)))
      ensures piece == Draw(old(rng.state), PieceKinds)
      ensures nextPiece == Draw(Xorshift(old(rng.state)), PieceKinds)
      ensures x == SpawnX && y == SpawnY && rotation == 0
      ensures score == 0 && lines == 0 && !over && fallAccum == 0
      ensures Snap() == Restarted(old(Snap()))
    {
      StartPieces();
      ClearGrid(board);
      score, lines, over, fallAccum := 0, 0, false, 0;
      SpawnValid(board[..], piece);
    }

    /** Draws the active and the next piece and puts the active one at the
        spawn pose. */
    method StartPieces()
      modifies this`piece, this`nextPiece, this`x, this`y, this`rotation, rng
      ensures rng.state == Xorshift(Xorshift(old(rng.state)))
      ensures piece == Draw(old(rng.state), PieceKinds)
      ensures nextPiece == Draw(Xorshift(old(rng.state)), PieceKinds)
      ensures x == SpawnX && y == SpawnY && rotation == 0
    {
      piece := rng.NextUsize(PieceKinds);
      nextPiece := rng.NextUsize(PieceKinds);
      x, y, rotation := SpawnX, SpawnY, 0;
    }

    /** Shifts the piece by (dx, dy) when the shifted pose is free, reporting
        whether it moved; otherwise nothing changes. */
    method TryMove(dx: int, dy: int) returns (moved: bool)
      requires Valid()
      modifies this`x, this`y
      ensures Valid()
      ensures moved == !Collides(board[..], piece, old(x) + dx, old(y) + dy, rotation)
      ensures moved ==> x == old(x) + dx && y == old(y) + dy
      ensures !moved ==> x == old(x) && y == old(y)
      ensures Snap() == Stepped(old(Snap()), dx, dy)
    {
      ghost var s0 := Snap();
      var nx := x + dx;
      var ny := y + dy;
      if !Collides(board[..], piece, nx, ny, rotation) {
        x := nx;
        y := ny;
        moved := true;
        assert Snap() == At(s0, nx, ny, rotation);
      } else {
        moved := false;
      }
    }

    /** Turns the piece to the next rotation state at the first column offset
        of Kicks where it fits; when none fits the piece stays as it was. */
    method TryRotate()
      requires Valid()
      modifies this`x, this`rotation
      ensures Valid()
      ensures RotationKick(old(board[..]), piece, old(x), y, old(rotation)) < |Kicks| ==>
        && rotation == NextRotation(old(rotation))
        && x == old(x) + Kicks[RotationKick(old(board[..]), piece, old(x), y, old(rotation))]
      ensures RotationKick(old(board[..]), piece, old(x), y, old(rotation)) == |Kicks| ==>
        rotation == old(rotation) && x == old(x)
      ensures Snap() == Rotated(old(Snap()))
    {
      x, rotation := RotatePose(board[..], piece, x, y, rotation);
    }

    /** The hard-drop fall: the piece moves down while the row below is free,
        ending in the row RestRow predicts. */
    method DropToRest()
      requires Valid() && !over
      modifies this`y
      ensures Valid()
      ensures y == RestRow(board[..], piece, x, old(y), rotation)
    {
      ghost var y0 := y;
      y := FallRow(board[..], piece, x, y, rotation);
      assert !Collides(board[..], piece, x, y, rotation) by {
        RestRowRests(board[..], piece, x, y0, rotation);
      }
    }

    /** Writes the piece into the grid with tag piece + 1, then clears full rows
        and spawns the next piece. */
    method LockPiece()
      requires Valid() && !over
      modifies this`piece, this`nextPiece, this`x, this`y, this`rotation
      modifies this`over, this`lines, this`score, board, rng
      ensures Valid()
      ensures Snap() == Locked(old(Snap()))
      ensures old(score) <= score && old(lines) <= lines
    {
      ghost var s0 := Snap();
      ghost var placed := Place(board[..], piece, x, y, rotation);
      WritePiece();
      assert board[..] == placed;
      Settle();
      assert Snap() == Spawned(s0, placed);
    }

    /** The rest of locking once the piece is written: full rows cleared and
        credited, then the next piece spawned. */
    method Settle()
      requires board.Length == Size && Tagged(board[..]) && nextPiece < PieceKinds && !over
      modifies this`piece, this`nextPiece, this`x, this`y, this`rotation
      modifies this`over, this`lines, this`score, board, rng
      ensures Snap() == Spawned(old(Snap()), old(board[..]))
      ensures Tagged(board[..]) && NoFullRow(board[..])
    {
      ghost var placed := board[..];
      ghost var s0, l0 := score, lines;
      ClearLines();
      assert board[..] == Compacted(placed) && lines == l0 + Cleared(placed)
        && score == s0 + Award(Cleared(placed), l0);
      SpawnNext();
    }

    /** The writing loop of locking: the piece's four cells get its tag. */
    method WritePiece()
      requires Valid() && !over
      modifies board
      ensures board[..] == Place(old(board[..]), piece, x, y, rotation)
      ensures Tagged(board[..])
    {
      ghost var before := board[..];
      assert AllInBounds(Shape(piece, rotation), x, y) && Tagged(Place(before, piece, x, y, rotation))
        && Place(before, piece, x, y, rotation) == Stamp(before, Shape(piece, rotation), x, y, piece + 1) by {
        PlaceCells(before, piece, x, y, rotation);
      }
      StampCells(board, Shape(piece, rotation), x, y, piece + 1);
    }

    /** Removes every full row and credits the clear: each clear adds its rows
        to `lines` and its award, computed at the level the new total reaches,
        to `score`. */
    method ClearLines()
      requires board.Length == Size && Tagged(board[..])
      modifies this`lines, this`score, board
      ensures board[..] == Compacted(old(board[..]))
      ensures Tagged(board[..]) && NoFullRow(board[..])
      ensures lines == old(lines) + Cleared(old(board[..]))
      ensures score == old(score) + Award(Cleared(old(board[..])), old(lines))
    {
      ghost var b := board[..];
      var nb, cleared := CompactRows(board);
      CompactedTagged(b);
      CompactedNoFullRow(b);
      CopyGrid(board, nb);
      if cleared > 0 {
        var gain := Award(cleared, lines);
        lines := lines + cleared;
        score := score + gain;
      }
    }

    /** Makes the next piece active at the spawn pose and draws a new next
        piece; the game is over once the spawn pose collides. */
    method SpawnNext()
      requires board.Length == Size && nextPiece < PieceKinds
      modifies this`piece, this`nextPiece, this`x, this`y, this`rotation, this`over, rng
      ensures piece == old(nextPiece) && rng.state == Xorshift(old(rng.state))
      ensures nextPiece == Draw(old(rng.state), PieceKinds)
      ensures x == SpawnX && y == SpawnY && rotation == 0
      ensures over == (old(over) || Collides(board[..], piece, SpawnX, SpawnY, 0))
      ensures board[..] == old(board[..])
    {
      piece := nextPiece;
      nextPiece := rng.NextUsize(PieceKinds);
      x := SpawnX;
      y := SpawnY;
      rotation := 0;
      if Collides(board[..], piece, x, y, rotation) {
        over := true;
      }
    }

    /** One frame of the game loop at timestamp `now` (milliseconds): the
        elapsed time since the previous frame, a pending restart, then, unless
        the game is over, the play of the frame. */
    method Update(now: int)
      requires Valid()
      modifies this`piece, this`nextPiece, this`x, this`y, this`rotation
      modifies this`over, this`lines, this`score, this`input, this`lastTime
      modifies this`fallAccum, this`lastLeft, this`lastRight, board, rng
      ensures Valid()
      ensures lastTime == now
      ensures old(over) && !old(input.restart) ==>
        && Snap() == old(Snap()) && input == old(input)
        && fallAccum == old(fallAccum) && lastLeft == old(lastLeft) && lastRight == old(lastRight)
      ensures !old(over) || old(input.restart) ==>
        var start := if old(input.restart) then Restarted(old(Snap())) else old(Snap());
        var accum := if old(input.restart) then 0 else old(fallAccum);
        var dt := if old(lastTime) == 0 then 0 else now - old(lastTime);
        var left := Fires(old(input.leftJust), old(input.left), now, old(lastLeft));
        var right := Fires(old(input.rightJust), old(input.right), now, old(lastRight));
        var due := GravityDue(accum + dt, start.lines, old(input.down));
        && Live(start)
        && Snap() == Played(start, old(input.rotate), old(input.hardDrop), left, right, due)
        && (old(input.hardDrop) ==>
          && input == old(input).(restart := false, rotate := false, hardDrop := false)
          && fallAccum == accum && lastLeft == old(lastLeft) && lastRight == old(lastRight))
        && (!old(input.hardDrop) ==>
          && input == old(input).(restart := false, rotate := false, leftJust := false, rightJust := false)
          && lastLeft == (if left then now else old(lastLeft))
          && lastRight == (if right then now else old(lastRight))
          && fallAccum == (if due then 0 else accum + dt))
      ensures !old(input.restart) ==> old(score) <= score && old(lines) <= lines
    {
      if lastTime == 0 {
        lastTime := now;
      }
      var dt := now - lastTime;
      lastTime := now;
      RunFrame(now, dt);
    }

    /** A frame after the elapsed time is known: a pending restart, then,
        unless the game is over, the play of the frame. */
    method RunFrame(now: int, dt: int)
      requires Valid()
      modifies this`piece, this`nextPiece, this`x, this`y, this`rotation
      modifies this`over, this`lines, this`score, this`input
      modifies this`fallAccum, this`lastLeft, this`lastRight, board, rng
      ensures Valid()
      ensures old(over) && !old(input.restart) ==>
        && Snap() == old(Snap()) && input == old(input)
        && fallAccum == old(fallAccum) && lastLeft == old(lastLeft) && lastRight == old(lastRight)
      ensures !old(over) || old(input.restart) ==>
        var start := if old(input.restart) then Restarted(old(Snap())) else old(Snap());
        var accum := if old(input.restart) then 0 else old(fallAccum);
        var left := Fires(old(input.leftJust), old(input.left), now, old(lastLeft));
        var right := Fires(old(input.rightJust), old(input.right), now, old(lastRight));
        var due := GravityDue(accum + dt, start.lines, old(input.down));
        && Live(start)
        && Snap() == Played(start, old(input.rotate), old(input.hardDrop), left, right, due)
        && (old(input.hardDrop) ==>
          && input == old(input).(restart := false, rotate := false, hardDrop := false)
          && fallAccum == accum && lastLeft == old(lastLeft) && lastRight == old(lastRight))
        && (!old(input.hardDrop) ==>
          && input == old(input).(restart := false, rotate := false, leftJust := false, rightJust := false)
          && lastLeft == (if left then now else old(lastLeft))
          && lastRight == (if right then now else old(lastRight))
          && fallAccum == (if due then 0 else accum + dt))
      ensures !old(input.restart) ==> old(score) <= score && old(lines) <= lines
    {
      RestartKey();
      if over {
        return;
      }
      Play(now, dt);
    }

    /** The restart key: a pending restart resets the game and is consumed. */
    method RestartKey()
      requires Valid()
      modifies this`piece, this`nextPiece, this`x, this`y, this`rotation
      modifies this`score, this`lines, this`over, this`fallAccum, this`input, board, rng
      ensures Valid()
      ensures input == old(input).(restart := false)
      ensures old(input.restart) ==> Snap() == Restarted(old(Snap())) && fallAccum == 0 && !over
      ensures !old(input.restart) ==> Snap() == old(Snap()) && fallAccum == old(fallAccum)
    {
      if input.restart {
        Reset();
        input := input.(restart := false);
      }
    }

    /** The play of one frame while the game is on: a pending rotation, then a
        pending hard drop (which ends the frame), or else the sideways moves and
        one gravity step. */
    method Play(now: int, dt: int)
      requires Valid() && !over
      modifies this`piece, this`nextPiece, this`x, this`y, this`rotation
      modifies this`over, this`lines, this`score, this`input
      modifies this`fallAccum, this`lastLeft, this`lastRight, board, rng
      ensures Valid()
      ensures old(input.hardDrop) ==>
        && input == old(input).(rotate := false, hardDrop := false)
        && fallAccum == old(fallAccum) && lastLeft == old(lastLeft) && lastRight == old(lastRight)
      ensures !old(input.hardDrop) ==>
        && input == old(input).(rotate := false, leftJust := false, rightJust := false)
        && lastLeft == (if Fires(old(input.leftJust), old(input.left), now, old(lastLeft)) then now else old(lastLeft))
        && lastRight == (if Fires(old(input.rightJust), old(input.right), now, old(lastRight)) then now else old(lastRight))
        && fallAccum == (if GravityDue(old(fallAccum) + dt, old(lines), old(input.down)) then 0 else old(fallAccum) + dt)
      ensures Snap() == Played(old(Snap()), old(input.rotate), old(input.hardDrop),
        Fires(old(input.leftJust), old(input.left), now, old(lastLeft)),
        Fires(old(input.rightJust), old(input.right), now, old(lastRight)),
        GravityDue(old(fallAccum) + dt, old(lines), old(input.down)))
      ensures old(score) <= score && old(lines) <= lines
    {
      ghost var s0 := Snap();
      RotateKey();
      assert Snap().lines == s0.lines;
      Act(now, dt);
      assert Snap() == Played(s0, old(input.rotate), old(input.hardDrop),
        Fires(old(input.leftJust), old(input.left), now, old(lastLeft)),
        Fires(old(input.rightJust), old(input.right), now, old(lastRight)),
        GravityDue(old(fallAccum) + dt, old(lines), old(input.down)));
    }

    /** The rotate key: a pending rotation is attempted and consumed. */
    method RotateKey()
      requires Valid()
      modifies this`x, this`rotation, this`input
      ensures Valid()
      ensures input == old(input).(rotate := false)
      ensures Snap() == if old(input.rotate) then Rotated(old(Snap())) else old(Snap())
    {
      if input.rotate {
        TryRotate();
        input := input.(rotate := false);
      }
    }

    /** The frame after the rotate key: a pending hard drop, which ends the
        frame, or else the sideways keys and one gravity step. */
    method Act(now: int, dt: int)
      requires Valid() && !over
      modifies this`piece, this`nextPiece, this`x, this`y, this`rotation
      modifies this`over, this`lines, this`score, this`input
      modifies this`fallAccum, this`lastLeft, this`lastRight, board, rng
      ensures Valid()
      ensures old(input.hardDrop) ==>
        && input == old(input).(hardDrop := false)
        && fallAccum == old(fallAccum) && lastLeft == old(lastLeft) && lastRight == old(lastRight)
      ensures !old(input.hardDrop) ==>
        && input == old(input).(leftJust := false, rightJust := false)
        && lastLeft == (if Fires(old(input.leftJust), old(input.left), now, old(lastLeft)) then now else old(lastLeft))
        && lastRight == (if Fires(old(input.rightJust), old(input.right), now, old(lastRight)) then now else old(lastRight))
        && fallAccum == (if GravityDue(old(fallAccum) + dt, old(lines), old(input.down)) then 0 else old(fallAccum) + dt)
      ensures Snap() == Moved(old(Snap()), old(input.hardDrop),
        Fires(old(input.leftJust), old(input.left), now, old(lastLeft)),
        Fires(old(input.rightJust), old(input.right), now, old(lastRight)),
        GravityDue(old(fallAccum) + dt, old(lines), old(input.down)))
      ensures old(score) <= score && old(lines) <= lines
    {
      if input.hardDrop {
        DropKey();
      } else {
        Advance(now, dt);
      }
    }

    /** The hard-drop key: a pending hard drop is performed and consumed. */
    method DropKey()
      requires Valid() && !over
      modifies this`piece, this`nextPiece, this`x, this`y, this`rotation
      modifies this`over, this`lines, this`score, this`input, board, rng
      ensures Valid()
      ensures input == old(input).(hardDrop := false)
      ensures Snap() == Dropped(old(Snap()))
      ensures old(score) <= score && old(lines) <= lines
    {
      HardDrop();
      input := input.(hardDrop := false);
    }

    /** The rest of a frame without a hard drop: the left key, the right key,
        then one gravity step. */
    method Advance(now: int, dt: int)
      requires Valid() && !over
      modifies this`piece, this`nextPiece, this`x, this`y, this`rotation
      modifies this`over, this`lines, this`score, this`input
      modifies this`fallAccum, this`lastLeft, this`lastRight, board, rng
      ensures Valid()
      ensures input == old(input).(leftJust := false, rightJust := false)
      ensures lastLeft == (if Fires(old(input.leftJust), old(input.left), now, old(lastLeft)) then now else old(lastLeft))
      ensures lastRight == (if Fires(old(input.rightJust), old(input.right), now, old(lastRight)) then now else old(lastRight))
      ensures fallAccum == (if GravityDue(old(fallAccum) + dt, old(lines), old(input.down)) then 0 else old(fallAccum) + dt)
      ensures Snap() == Moved(old(Snap()), false,
        Fires(old(input.leftJust), old(input.left), now, old(lastLeft)),
        Fires(old(input.rightJust), old(input.right), now, old(lastRight)),
        GravityDue(old(fallAccum) + dt, old(lines), old(input.down)))
      ensures old(score) <= score && old(lines) <= lines
    {
      ShiftKeys(now);
      Gravity(dt);
    }

    /** The left key, then the right key. */
    method ShiftKeys(now: int)
      requires Valid()
      modifies this`x, this`y, this`input, this`lastLeft, this`lastRight
      ensures Valid()
      ensures input == old(input).(leftJust := false, rightJust := false)
      ensures lastLeft == (if Fires(old(input.leftJust), old(input.left), now, old(lastLeft)) then now else old(lastLeft))
      ensures lastRight == (if Fires(old(input.rightJust), old(input.right), now, old(lastRight)) then now else old(lastRight))
      ensures Snap() == Shifted(old(Snap()),
        Fires(old(input.leftJust), old(input.left), now, old(lastLeft)),
        Fires(old(input.rightJust), old(input.right), now, old(lastRight)))
    {
      ShiftLeft(now);
      ShiftRight(now);
    }

    /** A hard drop: the piece falls to its rest row and locks there. */
    method HardDrop()
      requires Valid() && !over
      modifies this`piece, this`nextPiece, this`x, this`y, this`rotation
      modifies this`over, this`lines, this`score, board, rng
      ensures Valid()
      ensures Snap() == Dropped(old(Snap()))
      ensures old(score) <= score && old(lines) <= lines
    {
      DropToRest();
      LockPiece();
    }

    /** The left key: a fresh press moves one column left at once; a held key
        moves again once more than RepeatDelay ms have passed since the last
        left move. Both cases try the same move and stamp the time, and the
        held-key case finds the fresh-press flag already clear, so clearing it
        after either case is what the two cases of the key handler do. */
    method ShiftLeft(now: int)
      requires Valid()
      modifies this`x, this`y, this`input, this`lastLeft
      ensures Valid() && y == old(y)
      ensures input == old(input).(leftJust := false)
      ensures lastLeft == (if Fires(old(input.leftJust), old(input.left), now, old(lastLeft)) then now else old(lastLeft))
      ensures Snap() == (if Fires(old(input.leftJust), old(input.left), now, old(lastLeft))
        then Stepped(old(Snap()), -1, 0) else old(Snap()))
    {
      if input.leftJust || (input.left && now - lastLeft > RepeatDelay) {
        var moved := TryMove(-1, 0);
        lastLeft := now;
      }
      input := input.(leftJust := false);
    }

    /** The right key, with the same edge-or-repeat rule as the left key. */
    method ShiftRight(now: int)
      requires Valid()
      modifies this`x, this`y, this`input, this`lastRight
      ensures Valid() && y == old(y)
      ensures input == old(input).(rightJust := false)
      ensures lastRight == (if Fires(old(input.rightJust), old(input.right), now, old(lastRight)) then now else old(lastRight))
      ensures Snap() == (if Fires(old(input.rightJust), old(input.right), now, old(lastRight))
        then Stepped(old(Snap()), 1, 0) else old(Snap()))
    {
      if input.rightJust || (input.right && now - lastRight > RepeatDelay) {
        var moved := TryMove(1, 0);
        lastRight := now;
      }
      input := input.(rightJust := false);
    }

    /** One gravity step: `dt` is added to the accumulator and, once it reaches
        the fall interval (8/100 of it while down is held), the piece moves one
        row down or, when it cannot, locks; the accumulator then restarts at 0. */
    method Gravity(dt: int)
      requires Valid() && !over
      modifies this`piece, this`nextPiece, this`x, this`y, this`rotation
      modifies this`over, this`lines, this`score, this`fallAccum, board, rng
      ensures Valid()
      ensures fallAccum == (if GravityDue(old(fallAccum) + dt, old(lines), input.down) then 0 else old(fallAccum) + dt)
      ensures Snap() == Gravitated(old(Snap()), GravityDue(old(fallAccum) + dt, old(lines), input.down))
      ensures old(score) <= score && old(lines) <= lines
    {
      var delay := FallDelay(lines);
      fallAccum := fallAccum + dt;
      var due := if input.down then fallAccum * 100 >= delay * 8 else fallAccum >= delay;
      if due {
        Fall();
        fallAccum := 0;
      }
    }

    /** A due gravity step: the piece moves one row down or, when it cannot,
        locks where it is. */
    method Fall()
      requires Valid() && !over
      modifies this`piece, this`nextPiece, this`x, this`y, this`rotation
      modifies this`over, this`lines, this`score, board, rng
      ensures Valid()
      ensures Snap() == Fell(old(Snap()))
      ensures old(score) <= score && old(lines) <= lines
    {
      ghost var s0 := Snap();
      var moved := TryMove(0, 1);
      assert moved == !Collides(s0.grid, s0.piece, s0.x, s0.y + 1, s0.rotation);
      if !moved {
        LockPiece();
      }
      assert Snap() == Fell(s0);
    }
  }

  /** A fresh grid of Size empty cells. */
  method NewGrid() returns (a: array<int>)
    ensures fresh(a) && a[..] == Empty
  {
    a := new int[Size](_ => 0);
    assert a[..] == Empty;
  }

  /** Overwrites the grid with empty cells. */
  method ClearGrid(a: array<int>)
    requires a.Length == Size
    modifies a
    ensures a[..] == Empty
  {
    forall i | 0 <= i < Size {
      a[i] := 0;
    }
    assert a[..] == Empty;
  }

  /** Overwrites the grid `dst` with the cells of `src`. */
  method CopyGrid(dst: array<int>, src: array<int>)
    requires dst.Length == Size && src.Length == Size && dst != src
    modifies dst
    ensures dst[..] == src[..]
  {
    forall i | 0 <= i < Size {
      dst[i] := src[i];
    }
    assert dst[..] == src[..];
  }

  /** The empty grid with a piece at the spawn pose satisfies the game
      invariant. */
  lemma SpawnValid(b: seq<int>, piece: nat)
    requires b == Empty && piece < PieceKinds
    ensures Tagged(b) && NoFullRow(b) && !Collides(b, piece, SpawnX, SpawnY, 0)
  {
    EmptyGrid();
    SpawnFitsEmpty(piece);
  }

  /** The rotation attempt on an explicit grid and pose: the next rotation
      state is tried in place, then one column right, then one column left, and
      the first pose that does not collide is taken; when none fits the pose is
      returned unchanged. */
  method RotatePose(b: seq<int>, piece: nat, x0: int, y: int, rotation0: nat) returns (x: int, rotation: nat)
    requires |b| == Size && piece < PieceKinds && rotation0 < Rotations
    ensures rotation < Rotations
    ensures RotationKick(b, piece, x0, y, rotation0) < |Kicks| ==>
      && rotation == NextRotation(rotation0)
      && x == x0 + Kicks[RotationKick(b, piece, x0, y, rotation0)]
    ensures RotationKick(b, piece, x0, y, rotation0) == |Kicks| ==> rotation == rotation0 && x == x0
    ensures !Collides(b, piece, x0, y, rotation0) ==> !Collides(b, piece, x, y, rotation)
  {
    x, rotation := x0, rotation0;
    var next := NextRotation(rotation);
    if !Collides(b, piece, x, y, next) {
      rotation := next;
      return;
    }
    if !Collides(b, piece, x + 1, y, next) {
      x := x + 1;
      rotation := next;
      return;
    }
    if !Collides(b, piece, x - 1, y, next) {
      x := x - 1;
      rotation := next;
    }
  }

  /** The fall loop of a hard drop on an explicit grid: while the pose one row
      down is free the piece takes it. */
  method FallRow(b: seq<int>, piece: nat, x: int, y0: int, rotation: nat) returns (y: int)
    requires |b| == Size && piece < PieceKinds && rotation < Rotations
    requires !Collides(b, piece, x, y0, rotation)
    ensures y == RestRow(b, piece, x, y0, rotation)
  {
    y := y0;
    while !Collides(b, piece, x, y + 1, rotation)
      invariant !Collides(b, piece, x, y, rotation)
      invariant RestRow(b, piece, x, y, rotation) == RestRow(b, piece, x, y0, rotation)
      decreases Height - y
    {
      FreePose(b, piece, x, y + 1, rotation);
      y := y + 1;
    }
  }

  /** The writing loop of locking: `tag` goes into the flat index of each of
      `cells` at anchor (x, y), one after another. */
  method StampCells(a: array<int>, cells: seq<Cell>, x: int, y: int, tag: int)
    requires a.Length == Size && AllInBounds(cells, x, y)
    modifies a
    ensures a[..] == Stamp(old(a[..]), cells, x, y, tag)
  {
    ghost var before := a[..];
    var k := 0;
    while k < |cells|
      invariant 0 <= k <= |cells|
      invariant AllInBounds(cells[..k], x, y)
      invariant a[..] == Stamp(before, cells[..k], x, y, tag)
    {
      StampPrefix(before, cells, x, y, tag, k);
      var px := x + cells[k].dx;
      var py := y + cells[k].dy;
      a[py * Width + px] := tag;
      k := k + 1;
    }
    StampAll(before, cells, x, y, tag);
  }

  /** Whether row `row` of `a` is full: the scan stops at the first empty cell. */
  method RowFull(a: array<int>, row: nat) returns (full: bool)
    requires a.Length == Size && row < Height
    ensures full == Full(Row(a[..], row))
  {
    full := true;
    var col := 0;
    while col < Width
      invariant 0 <= col <= Width
      invariant full
      invariant forall c :: 0 <= c < col ==> Row(a[..], row)[c] != 0
    {
      if a[row * Width + col] == 0 {
        full := false;
        break;
      }
      col := col + 1;
    }
  }

  /** Copies row `row` of `a` into row `dst` of `nb`, leaving the rest of `nb` alone. */
  method CopyRow(a: array<int>, nb: array<int>, dst: nat, row: nat)
    requires a.Length == Size && nb.Length == Size && nb != a
    requires dst < Height && row < Height
    modifies nb
    ensures nb[..] == old(nb[..dst * Width]) + Row(a[..], row) + old(nb[dst * Width + Width ..])
  {
    ghost var above, below := nb[..dst * Width], nb[dst * Width + Width ..];
    var col := 0;
    while col < Width
      invariant 0 <= col <= Width
      invariant nb[..dst * Width] == above
      invariant nb[dst * Width + Width ..] == below
      invariant forall c :: 0 <= c < col ==> nb[dst * Width + c] == Row(a[..], row)[c]
    {
      nb[dst * Width + col] := a[row * Width + col];
      col := col + 1;
    }
    assert nb[dst * Width .. dst * Width + Width] == Row(a[..], row);
    assert nb[..] == nb[..dst * Width] + nb[dst * Width .. dst * Width + Width] + nb[dst * Width + Width ..];
  }

  /** The line-clearing scan: from the bottom row up, each row that is not full
      is copied to the lowest free row of a fresh zeroed grid and each full row
      is counted, so the kept rows end up packed at the bottom in their original
      order with empty rows above them. */
  method CompactRows(a: array<int>) returns (nb: array<int>, cleared: nat)
    requires a.Length == Size
    ensures fresh(nb) && nb.Length == Size
    ensures nb[..] == Compacted(a[..])
    ensures cleared == Cleared(a[..])
  {
    ghost var b := a[..];
    nb := new int[Size](_ => 0);
    PackedEnds(b);
    assert nb[..] == Zeros(Size);
    var writeRow: int := Height - 1;
    cleared := 0;
    var row: int := Height;
    while row > 0
      invariant 0 <= row <= Height
      invariant cleared == Height - row - |Kept(b, row)|
      invariant writeRow == Height - |Kept(b, row)| - 1
      invariant nb[..] == Packed(b, row)
      invariant a[..] == b
    {
      row := row - 1;
      KeptStep(b, row);
      var full := CompactRow(a, nb, row, writeRow);
      if full {
        cleared := cleared + 1;
      } else {
        writeRow := writeRow - 1;
      }
    }
  }

  /** One step of the line-clearing scan: row `row` of `a`, when it is not
      full, goes into row `writeRow` of `nb`; a full row is skipped. */
  method CompactRow(a: array<int>, nb: array<int>, row: nat, writeRow: int) returns (full: bool)
    requires a.Length == Size && nb.Length == Size && nb != a && row < Height
    requires writeRow == Height - |Kept(a[..], row + 1)| - 1
    requires nb[..] == Packed(a[..], row + 1)
    modifies nb
    ensures full == Full(Row(a[..], row))
    ensures nb[..] == Packed(a[..], row)
  {
    ghost var b := a[..];
    full := RowFull(a, row);
    if full {
      PackedSkip(b, row);
    } else {
      PackedKeep(b, row);
      CopyRow(a, nb, writeRow, row);
    }
  }
}
