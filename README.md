# Tetris rules engine in Dafny

A model of the rules engine of a falling-block puzzle game written in Rust
(`src/lib.rs`), together with proofs about it. The engine has these parts:

- A 10 x 20 grid of cell tags. Tag 0 is empty; tags 1..7 mean the cell was
  locked by a piece of kind tag − 1.
- Seven piece kinds, each with four rotation states given by a fixed catalog
  of four cells.
- A collision test used by every move.
- Movement and rotation. A rotation tries three column kicks: in place, one
  right, one left.
- Locking a piece, then clearing lines bottom-up and scoring the clear by level.
- A 32-bit xorshift piece sequencer.
- A per-frame `update` that handles a pending restart, rotation, hard drop,
  the repeat delay of held keys, and gravity with soft drop.

Modules follow the parts of the source file:

- `Shapes` (`shapes.dfy`): the `SHAPES` catalog and rotation geometry.
- `Sequencer` (`sequencer.dfy`): the `Rng` struct, as a class with a `bv32`
  state, and the xorshift step as a function.
- `Board` (`board.dfy`): the pure grid rules. It holds the collision test,
  writing a piece, the fall to rest, the rotation kicks, and the specification
  of line clearing.
- `Scoring` (`scoring.dfy`): the points table, levels and the gravity interval.
- `Tetris` (`game.dfy`): the `Game` struct as a class. Its grid is a fixed
  `array<int>` of 200 cells, overwritten in place as the Rust inline array is.
  The methods of the struct that change state are methods of the class. The
  two that only read it, `collides` and `fall_delay_ms`, are the module
  functions `Board.Collides` and `Scoring.FallDelay`.

The methods Reset, TryMove, TryRotate, LockPiece, Settle, and Update with
the frame steps below it (RunFrame, RestartKey, Play, RotateKey, Act, DropKey,
HardDrop, Advance, ShiftKeys, ShiftLeft, ShiftRight, Gravity and Fall) are
proved against a function on a `Snapshot` value: the grid, the active piece
and its pose, the next piece, the score, the line count, the generator state
and the game-over flag. `Stepped`, `Rotated`,
`Locked`, `Fell`, `Dropped`, `Restarted` and `Played` say what a move, a
rotation, a lock, a gravity step, a hard drop, a restart and a whole frame do
to that value. The input flags and the three timers are stated directly in
each method's contract. The constructor and the lower steps StartPieces,
DropToRest, WritePiece, ClearLines and SpawnNext state the fields they change
directly.

The class invariant `Valid()` holds after the constructor and before and after
Reset, TryMove, TryRotate, LockPiece and Update (and the frame steps below
it). Inside a lock it is broken by the write and restored by the spawn: after
WritePiece the active piece lies on its own freshly written cells, as in the
source between src/lib.rs:223 and :226. The invariant says:

- every cell holds a tag in 0..7;
- the piece indices and the rotation state are in range;
- no full row is left on the grid;
- while the game is not over, the active piece does not collide.

Two facts about `update` and `reset` shape the frame:

- `update` does not return after calling `reset` (src/lib.rs:284-292).
  `reset` puts the game in play, so the same frame goes on with rotation,
  hard drop, sideways moves and gravity on the fresh game.
- Of the timers, `reset` clears only `fall_accum` (src/lib.rs:155-166). The
  last-frame timestamp and the times of the last left and right moves are
  kept.

## Model

| member | source | states |
|---|---|---|
| Shapes.Shape | src/lib.rs:20-70 | each of the 7 x 4 catalog entries has four cells, all inside the 4 x 4 local frame |
| Shapes.ShapeCellsDistinct | src/lib.rs:20-70 | the four cells of every catalog entry are pairwise distinct, so a piece covers four board cells |
| Shapes.NextRotation | src/lib.rs:202 | the next rotation state is (rotation + 1) % 4 |
| Shapes.ORotationInvariant | src/lib.rs:28-34 | the O piece has the same cells in every rotation state, so a turn of it never changes its cells |
| Shapes.RotationStatesTurnClockwise | src/lib.rs:20-70 | for every piece but O, each rotation state is the clockwise quarter turn of the previous one in a 4 x 4 (I) or 3 x 3 frame |
| Sequencer.Xorshift | src/lib.rs:94-97 | one xorshift step (shifts 13, 17, 5 on 32 bits) never turns a non-zero state into zero |
| Sequencer.XorshiftFacts | src/lib.rs:93-100 | zero is a fixed point of the xorshift step; from state 1 the step gives 270369 |
| Sequencer.Draw | src/lib.rs:102-104 | a draw with bound max lies in [0, max) |
| Sequencer.Draws | src/lib.rs:102-104 | the first n draws from a state are n values, the i-th being the draw from the state after i steps, each below max |
| Sequencer.ZeroSeedDrawsZero | src/lib.rs:84-104 | a generator seeded with 0 draws only 0 |
| Sequencer.ZeroStateStays | src/lib.rs:93-100 | from state 0 the state stays 0 after any number of steps |
| Sequencer.Rng.constructor | src/lib.rs:89-91 | the state is the seed |
| Sequencer.Rng.NextU32 | src/lib.rs:93-100 | the state advances by one xorshift step and the new state is returned |
| Sequencer.Rng.NextUsize | src/lib.rs:102-104 | the state advances one step and the result is the new state modulo max, below max |
| Board.Index | src/lib.rs:181 | the flat index row * 10 + col of an in-bounds cell lies inside the 200-cell grid |
| Board.IndexRowCol | src/lib.rs:181 | the flat index of an in-bounds cell determines its row (index / 10) and column (index % 10) back |
| Board.CollidesCells | src/lib.rs:175-186 | the collision loop over a list of cells: true at the first cell outside the grid or on a non-empty cell, false when none is |
| Board.CollidesCellsExactly | src/lib.rs:175-186 | the collision loop answers true iff some cell is outside the grid or on a non-empty cell, in both directions |
| Board.Collides | src/lib.rs:174-187 | the collision test of a pose: the collision loop over the four catalog cells of the piece in that rotation state |
| Board.CollidesExactly | src/lib.rs:174-187 | a pose collides iff one of its four catalog cells is out of bounds or occupied |
| Board.OutOfBoundsCollides | src/lib.rs:178-180 | a pose with any cell outside the grid collides, whatever the grid holds |
| Board.FreePose | src/lib.rs:174-187 | a pose that does not collide has all four cells in bounds and empty, and its anchor row is within −3..19 |
| Board.SpawnFitsEmpty | src/lib.rs:133-151 | every piece fits at the spawn pose (3, 0), rotation 0, on the empty grid |
| Board.EmptyGrid | src/lib.rs:133 | the empty grid holds only tags, has no full row and no occupied cell |
| Board.RestRow | src/lib.rs:298 | the row where a free piece stops falling is at or below its start, and the piece fits there |
| Board.RestRowRests | src/lib.rs:298 | every row the fall passes through is free, and one row further down collides, so the piece rests on the floor or on a locked cell |
| Board.RotationKick | src/lib.rs:201-216 | the kick a rotation takes is the first of in place, +1, −1 at which the turned piece fits: it fits there and every earlier kick collides; when none fits the answer is "none" |
| Board.Stamp | src/lib.rs:219-224 | writing a tag into a list of in-bounds cells keeps the grid at 200 cells |
| Board.StampCovers | src/lib.rs:219-224 | writing a tag into a list of cells sets exactly the covered flat indices to the tag and keeps every other cell |
| Board.StampPrefix | src/lib.rs:219-224 | writing no cell changes nothing; writing one more cell of the list overwrites only its flat index |
| Board.StampCount | src/lib.rs:219-224 | writing a non-zero tag into distinct empty cells adds one occupied cell per cell |
| Board.FillOneCell | src/lib.rs:223 | filling one empty cell with a non-zero tag raises the number of occupied cells by exactly one |
| Board.Place | src/lib.rs:218-224 | locking a free pose writes its four cells and keeps the grid at 200 cells |
| Board.PlaceCount | src/lib.rs:218-224 | locking a free pose adds exactly four occupied cells |
| Board.PlaceWrites | src/lib.rs:218-224 | locking writes piece + 1 into exactly the four cells of the pose and keeps every other cell |
| Board.PlaceCells | src/lib.rs:218-224 | the locked cells are all in bounds, locking is the cell-by-cell write, and cells stay tags in 0..7 |
| Board.Kept | src/lib.rs:234-251 | the rows a bottom-up scan from row r keeps are at most the Height − r rows it visits |
| Board.KeptRows | src/lib.rs:234-251 | every kept row is a whole row of 10 cells that is not full |
| Board.KeptStep | src/lib.rs:242-250 | a full row is skipped; a row that is not full is kept ahead of the rows kept below it |
| Board.KeptCount | src/lib.rs:234-251 | the kept rows hold the occupied cells of the rows visited, less 10 per full row |
| Board.Cleared | src/lib.rs:232-244 | the number of rows a clear removes is at most the 20 rows of the grid |
| Board.Compacted | src/lib.rs:229-253 | the cleared grid keeps the grid at 200 cells |
| Board.CompactedLayout | src/lib.rs:229-253 | after clearing, the top Cleared rows are empty and the rest are the kept rows in their original order |
| Board.CompactedNoFullRow | src/lib.rs:229-253 | no row of the grid is full after clearing |
| Board.CompactedCount | src/lib.rs:229-253 | clearing removes exactly 10 occupied cells per full row and no others |
| Board.CompactedStable | src/lib.rs:229-253 | clearing a grid that has no full row leaves it unchanged |
| Board.CompactedIdempotent | src/lib.rs:229-253 | clearing twice is clearing once |
| Board.CompactedTagged | src/lib.rs:229-253 | clearing keeps every cell a tag in 0..7 |
| Board.PackedEnds | src/lib.rs:230-253 | the scan starts from an all-zero grid and ends with the cleared grid |
| Board.PackedSkip | src/lib.rs:242-245 | skipping a full row leaves the grid being built unchanged |
| Board.PackedKeep | src/lib.rs:246-250 | a row that is not full goes into the lowest row still empty, and nothing else changes |
| Board.LockOutcome | src/lib.rs:218-253 | lock then clear keeps every cell a tag, leaves no full row, and the occupied cells become old + 4 − 10 · cleared |
| Scoring.Level | src/lib.rs:169 | the level after n cleared lines is the one with 10 · level ≤ n < 10 · (level + 1) |
| Scoring.LineValue | src/lib.rs:256-261 | the base points of a clear are 100..800, and 800 for four or more rows |
| Scoring.LineValueIncreasing | src/lib.rs:256-261 | clearing more rows at once (up to 4) is worth strictly more, and at least 100 per row |
| Scoring.Award | src/lib.rs:254-262 | a clear of zero rows earns nothing, any other clear earns something, and every award is a multiple of 100 |
| Scoring.LevelMonotone | src/lib.rs:169 | the level never decreases as lines grow |
| Scoring.AwardGrowsWithLines | src/lib.rs:254-262 | the same clear is worth at least as much later in the game, and at least its base value times the earlier level + 1 |
| Scoring.AwardIncreasing | src/lib.rs:254-262 | at a given line count, clearing more rows at once earns strictly more |
| Scoring.AwardExamples | src/lib.rs:254-262 | two rows at 8 lines earn 600, four rows at 0 lines earn 800, one row at 0 lines earns 100, three rows at 17 lines earn 1500 |
| Scoring.FallDelay | src/lib.rs:168-172 | the gravity interval lies in 120..550 ms and is 550 at level 0 |
| Scoring.FallDelayNonIncreasing | src/lib.rs:168-172 | the interval never grows as lines accumulate |
| Scoring.FallDelayFloor | src/lib.rs:168-172 | from 110 lines on the interval is 120 ms; below that it is 550 − 40 per level |
| Scoring.GravityDue | src/lib.rs:323-329 | whether gravity is due this frame: always once 550 ms have accumulated, never below 10 ms, with or without down held |
| Scoring.SoftDropSooner | src/lib.rs:323-329 | holding down only makes gravity due sooner; with down held, 44 ms always suffice and under 10 ms never do |
| Tetris.Fires | src/lib.rs:305-321 | a sideways key moves the piece on a fresh press, or while held once more than 90 ms have passed since its last move |
| Tetris.Consistent | src/lib.rs:107-124 | the game invariant on a snapshot: right-sized grid of tags, indices in range, no full row, and a piece in play that does not collide |
| Tetris.InputState | src/lib.rs:72-82 | the three held keys and five one-shot flags of the input, all false in a new game |
| Tetris.Stepped | src/lib.rs:189-199 | a move by (dx, dy) happens only when that pose is free; it keeps a free piece free |
| Tetris.Rotated | src/lib.rs:201-216 | a rotation attempt takes the first free kick or leaves the piece as it was; it keeps a free piece free |
| Tetris.Locked | src/lib.rs:218-227 | locking writes the piece, clears and credits full rows and spawns the next piece; score and lines never decrease |
| Tetris.Spawned | src/lib.rs:225-226 | after the piece is written: the cleared grid, the next piece at the spawn pose, one draw for the new next piece; score and lines never decrease |
| Tetris.Fell | src/lib.rs:330-332 | a due gravity step moves down one row when it is free, else locks; score and lines never decrease |
| Tetris.Dropped | src/lib.rs:297-302 | a hard drop locks the piece at its rest row; score and lines never decrease |
| Tetris.Gravitated | src/lib.rs:328-334 | the gravity step of a frame, due or not, from a piece in play; score and lines never decrease |
| Tetris.Restarted | src/lib.rs:155-166 | a restart gives an empty grid, the next two draws, the spawn pose and zero score and lines |
| Tetris.Played | src/lib.rs:292-335 | one frame of play: rotation, then a hard drop or the sideways moves and gravity; score and lines never decrease |
| Tetris.Moved | src/lib.rs:297-335 | the frame after the rotation: a hard drop, or the sideways moves then gravity; score and lines never decrease |
| Tetris.Shifted | src/lib.rs:304-321 | the left move then the right move keep a free piece free and never change the line count |
| Tetris.LockedConsistent | src/lib.rs:218-227 | a lock keeps the game invariant, and the game is over afterwards iff it was over already or the spawned piece does not fit |
| Tetris.RestartedConsistent | src/lib.rs:155-166 | a restart gives a state that satisfies the invariant with the game in play |
| Tetris.PoseConsistent | src/lib.rs:189-216 | a move or rotation to a free pose keeps the invariant and the game in play |
| Tetris.FellConsistent | src/lib.rs:330-332 | a due gravity step keeps the invariant |
| Tetris.DroppedConsistent | src/lib.rs:297-302 | a hard drop keeps the invariant |
| Tetris.PlayedConsistent | src/lib.rs:292-335 | every frame played while the game is on keeps the invariant, whatever the keys and the timing |
| Tetris.DroppedIsFallen | src/lib.rs:297-302 | a hard drop is a lock when the row below is blocked, and otherwise equals the hard drop from one row lower, which is where one gravity step puts the piece |
| Tetris.Game.Valid | src/lib.rs:107-124 | the class invariant: cells are tags, indices in range, no full row, and a piece in play does not collide |
| Tetris.Game.ValidIsConsistent | src/lib.rs:107-124 | the class invariant holds iff the snapshot of the game satisfies the game invariant, in both directions |
| Tetris.Game.constructor | src/lib.rs:127-153 | empty grid, the first two draws from the seed, the spawn pose, no input, zero timers, score and lines; the game starts in play |
| Tetris.Game.Reset | src/lib.rs:155-166 | the snapshot becomes the restarted one (empty grid, two fresh draws, spawn pose, zero score and lines); the accumulator is 0, the game is in play, and the invariant holds |
| Tetris.Game.StartPieces | src/lib.rs:157-161 | the active and next pieces are the next two draws, and the piece is at the spawn pose |
| Tetris.Game.TryMove | src/lib.rs:189-199 | the piece moves by (dx, dy) iff the shifted pose is free, and otherwise stays; the result says whether it moved; the invariant is kept |
| Tetris.Game.TryRotate | src/lib.rs:201-216 | the piece turns to the next state at the first free kick, or stays as it was when none fits; the invariant is kept |
| Tetris.Game.DropToRest | src/lib.rs:298 | a hard drop moves the piece down to its rest row |
| Tetris.Game.LockPiece | src/lib.rs:218-227 | the game becomes its locked snapshot: the locked-then-cleared grid, lines and score credited at the new line count, the next piece spawned, over iff the spawn pose collides; the invariant is kept |
| Tetris.Game.WritePiece | src/lib.rs:219-224 | the grid becomes the old grid with the piece's four cells tagged piece + 1 |
| Tetris.Game.Settle | src/lib.rs:225-226 | after the piece is written: the full rows are cleared and credited and the next piece spawns, leaving tags and no full row |
| Tetris.Game.ClearLines | src/lib.rs:229-263 | the grid becomes its compaction, with no full row; lines and score grow by the full rows and their award |
| Tetris.Game.SpawnNext | src/lib.rs:266-275 | the next piece becomes active at the spawn pose, a new next piece is drawn, the grid is unchanged, and the game becomes over iff the spawn pose collides |
| Tetris.Game.Update | src/lib.rs:277-335 | the frame's timestamp is recorded and dt is 0 on the first frame; a game that is over and not restarted is frozen; otherwise the game becomes the played frame from the (restarted) snapshot, the one-shot flags the frame used are cleared, the move times are stamped when a sideways key fires, and the accumulator restarts at 0 when gravity is due or grows by dt; the invariant is kept; without a restart, score and lines never decrease |
| Tetris.Game.RunFrame | src/lib.rs:284-335 | the same frame once dt is known: the restart key, then, unless the game is over, the play of the frame, with the same input, timer and snapshot outcome |
| Tetris.Game.RestartKey | src/lib.rs:284-287 | a pending restart gives the restarted snapshot with the accumulator at 0 and is cleared; otherwise nothing changes |
| Tetris.Game.Play | src/lib.rs:292-335 | the game becomes the played frame; with a hard drop the rotate and hard-drop flags are cleared and the timers kept; otherwise the rotate, leftJust and rightJust flags are cleared, the move times and accumulator follow the key and gravity rules; score and lines never decrease |
| Tetris.Game.RotateKey | src/lib.rs:292-295 | a pending rotation is attempted, giving the rotated snapshot, and the flag is cleared |
| Tetris.Game.Act | src/lib.rs:297-335 | after the rotation: either the hard drop with its flag cleared and the timers kept, or the sideways keys and gravity with their flags and timers updated |
| Tetris.Game.DropKey | src/lib.rs:297-302 | the game becomes its hard-dropped snapshot and the hard-drop flag is cleared |
| Tetris.Game.Advance | src/lib.rs:304-335 | the left and right moves then one gravity step, as the snapshot function says; the leftJust and rightJust flags are cleared, the move times are stamped when their key fires, the accumulator restarts or grows by dt |
| Tetris.Game.ShiftKeys | src/lib.rs:304-321 | the left key then the right key: the shifted snapshot, both edge flags cleared, each move time stamped when its key fires |
| Tetris.Game.HardDrop | src/lib.rs:297-299 | the game becomes its hard-dropped snapshot: the piece locked at its rest row, rows cleared, the next piece spawned; score and lines never decrease |
| Tetris.Game.ShiftLeft | src/lib.rs:305-312 | on a fresh press, or on a held key more than 90 ms after the last left move, the piece moves one column left iff that pose is free, and the move time is recorded whether or not it moved; otherwise neither the time nor the column changes; the edge flag is cleared; the row never changes |
| Tetris.Game.ShiftRight | src/lib.rs:314-321 | the same edge-or-repeat rule for the right key, moving one column right |
| Tetris.Game.Gravity | src/lib.rs:323-335 | the accumulator grows by dt and restarts at 0 when the interval elapsed; the game becomes the gravity step that is due or not |
| Tetris.Game.Fall | src/lib.rs:330-332 | the game becomes its fallen snapshot: one row down iff that pose is free, otherwise the locked-then-cleared grid with the next piece |
| Tetris.NewGrid | src/lib.rs:133 | a fresh grid of 200 empty cells |
| Tetris.ClearGrid | src/lib.rs:156 | every cell of the grid becomes empty |
| Tetris.CopyGrid | src/lib.rs:253 | the destination grid becomes cell for cell the source grid |
| Tetris.SpawnValid | src/lib.rs:149-151 | the empty grid with any piece at the spawn pose satisfies the game invariant |
| Tetris.RotatePose | src/lib.rs:201-216 | the rotation on an explicit grid: the next state at the first free kick in order 0, +1, −1, or the pose unchanged; a free pose stays free |
| Tetris.FallRow | src/lib.rs:298 | the hard-drop loop stops at the piece's rest row |
| Tetris.StampCells | src/lib.rs:219-224 | the writing loop leaves the grid equal to the cell-by-cell stamp of the piece |
| Tetris.RowFull | src/lib.rs:235-241 | the scan reports a row full iff all of its 10 cells are non-empty |
| Tetris.CopyRow | src/lib.rs:246-249 | the copy puts the source row into the destination row and keeps every other cell |
| Tetris.CompactRows | src/lib.rs:230-251 | the bottom-up scan builds the compacted grid and counts exactly the full rows |
| Tetris.CompactRow | src/lib.rs:234-250 | one scan step keeps the grid being built equal to the packed form of the rows visited |

## Left out

- Rendering is not modelled: `draw_cell`, `render` (src/lib.rs:344), `COLORS`, `BLOCK` and the canvas context, including the game-over overlay `render` draws on the canvas (src/lib.rs:371-379). They only read the state.
- The wasm entry point `start`, the animation-frame loop and the keyboard listeners are not modelled. They translate browser events into the input flags, and the model takes the flags as given.
- The seed from the system clock is a constructor parameter.
- Tetris.Game.Update: timestamps, the accumulator and the repeat times are whole milliseconds, not `f64`, so fractional timestamps are not modelled. The soft-drop test is written as accum · 100 ≥ delay · 8; for whole-millisecond values it gives the same answer as the `f64` comparison with delay · 0.08.
- Tetris.Game.ClearLines: score and lines are unbounded naturals. The model's score differs from the source once the source's `u32` score passes `u32::MAX`.
- Tetris.Game.Reset: draws the two pieces before clearing the grid, while the source clears the grid first. The two steps touch disjoint state.
- Tetris.Game.constructor: sets `over` to the collision test of the spawn pose directly, instead of setting it to true after the test.
- Tetris.Game.LockPiece: does not state the change in occupied cells itself. Board.LockOutcome states it for the same grid.
- Some source functions are split into several methods to keep each proof small: `update` into Update, RunFrame, RestartKey, Play, RotateKey, Act, DropKey, HardDrop, Advance, ShiftKeys, ShiftLeft, ShiftRight, Gravity and Fall; `lock_piece` into WritePiece, Settle, ClearLines and SpawnNext; `clear_lines` into CompactRows, CompactRow, RowFull, CopyRow and CopyGrid. They run the same steps in the same order.
