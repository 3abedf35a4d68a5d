/** The engine object: its state record, the previous frame's timestamp and
    the drop timer are fields that its methods update in place, each proved to
    compute the matching transition of module Engine. */
module Game {
  import opened Wrappers
  import opened Pieces
  import opened Board
  import opened Scoring
  import opened Engine

  class BlockStackGame {
    /** The state record the engine publishes. */
    var state: GameState
    /** Timestamp of the previous animation frame, in milliseconds. */
    var lastTime: int
    /** Milliseconds accumulated towards the next gravity step. */
    var dropTime: int
    /** Whether a drawing surface has been attached. */
    var surfaceReady: bool

    /** The engine invariant on the current state. */
    ghost predicate Valid()
      reads this
    {
      StateValid(state)
    }

    /** A fresh engine: the initial state, both clocks at 0, no surface. */
    constructor()
      ensures state == InitialState() && lastTime == 0 && dropTime == 0 && !surfaceReady
      ensures Valid()
    {
      state := InitialState();
      lastTime := 0;
      dropTime := 0;
      surfaceReady := false;
    }

    /** Attach a drawing surface; the surface itself is not modelled. */
    method InitializeCanvas()
      modifies this
      ensures surfaceReady
      ensures state == old(state) && lastTime == old(lastTime) && dropTime == old(dropTime)
    {
      surfaceReady := true;
    }

    /** Start a new game when a surface is attached: reset to the initial
        state, playing, spawn a piece and run the first frame at timestamp 0.
        The frame clock and the drop timer are not reset. */
    method Start(first: PieceIndex, next: PieceIndex, roll: PieceIndex)
      modifies this
      ensures !old(surfaceReady) ==>
        state == old(state) && lastTime == old(lastTime) && dropTime == old(dropTime)
      ensures old(surfaceReady) ==>
        (state, lastTime, dropTime) == Advance(StartResult(first, next), old(lastTime), old(dropTime), 0, roll)
      ensures old(surfaceReady) ==> Valid()
      ensures surfaceReady == old(surfaceReady)
    {
      if !surfaceReady {
        return;
      }
      state := InitialState().(isPlaying := true);
      SpawnPiece(first, next);
      StartPlays(first, next);
      Frame(0, roll);
    }

    /** Toggle the pause flag. */
    method Pause()
      modifies this
      ensures state == old(state).(isPaused := !old(state).isPaused)
      ensures lastTime == old(lastTime) && dropTime == old(dropTime) && surfaceReady == old(surfaceReady)
      ensures old(Valid()) ==> Valid()
    {
      state := state.(isPaused := !state.isPaused);
    }

    /** End the game: no longer playing, and over. */
    method Stop()
      modifies this
      ensures state == old(state).(isPlaying := false, gameOver := true)
      ensures lastTime == old(lastTime) && dropTime == old(dropTime) && surfaceReady == old(surfaceReady)
      ensures old(Valid()) ==> Valid()
    {
      state := state.(isPlaying := false, gameOver := true);
    }

    /** Stop the game and detach the surface. */
    method Destroy()
      modifies this
      ensures state == old(state).(isPlaying := false, gameOver := true)
      ensures lastTime == old(lastTime) && dropTime == old(dropTime) && !surfaceReady
      ensures old(Valid()) ==> Valid()
    {
      Stop();
      surfaceReady := false;
    }

    /** One animation frame at timestamp `time`. */
    method Frame(time: int, roll: PieceIndex)
      requires Valid()
      modifies this
      ensures (state, lastTime, dropTime) == Advance(old(state), old(lastTime), old(dropTime), time, roll)
      ensures surfaceReady == old(surfaceReady)
      ensures Valid()
    {
      if !state.isPlaying {
        return;
      }
      var deltaTime := time - lastTime;
      lastTime := time;
      if !state.isPaused {
        Update(deltaTime, roll);
      }
    }

    /** Advance the elapsed time and the drop timer by `deltaTime`, and move
        the piece down one row once the timer exceeds the drop speed. */
    method Update(deltaTime: int, roll: PieceIndex)
      requires Valid() && state.isPlaying
      modifies this
      ensures (state, dropTime) == Tick(old(state), old(dropTime), deltaTime, roll)
      ensures lastTime == old(lastTime) && surfaceReady == old(surfaceReady)
      ensures Valid()
    {
      ghost var s0 := state;
      state := state.(timeElapsed := state.timeElapsed + deltaTime);
      dropTime := dropTime + deltaTime;
      if dropTime > state.dropSpeed {
        MoveOutcome(state, 0, 1, roll);
        var _ := MovePiece(0, 1, roll);
        dropTime := 0;
      } else {
        TickIdle(s0, old(dropTime), deltaTime, roll);
      }
    }

    /** Dispatch one input action; see Engine.ActionResult. */
    method HandleAction(action: string, roll: PieceIndex)
      requires Valid()
      modifies this
      ensures state == ActionResult(old(state), action, roll)
      ensures lastTime == old(lastTime) && dropTime == old(dropTime) && surfaceReady == old(surfaceReady)
      ensures Valid()
    {
      ActionValid(state, action, roll);
      if !state.isPlaying || state.isPaused {
        if action == "pause" {
          Pause();
        }
        return;
      }
      if action == "moveLeft" {
        MoveOutcome(state, -1, 0, roll);
        var _ := MovePiece(-1, 0, roll);
      } else if action == "moveRight" {
        MoveOutcome(state, 1, 0, roll);
        var _ := MovePiece(1, 0, roll);
      } else if action == "softDrop" {
        MoveOutcome(state, 0, 1, roll);
        var _ := MovePiece(0, 1, roll);
      } else if action == "rotate" {
        RotatePiece();
      } else if action == "hardDrop" {
        HardDrop(roll);
      } else if action == "pause" {
        Pause();
      }
    }

    /** Promote the next piece (drawing one with `first` when there is none),
        draw the next piece with `next`, centre the active piece on row 0 and
        end the game when it collides there. */
    method SpawnPiece(first: PieceIndex, next: PieceIndex)
      requires ShapesReady(state)
      modifies this
      ensures state == Spawn(old(state), first, next)
      ensures lastTime == old(lastTime) && dropTime == old(dropTime) && surfaceReady == old(surfaceReady)
      ensures old(Consistent(state)) ==> Valid()
    {
      ghost var s0 := state;
      var currentPiece := if state.nextPiece.Some? then state.nextPiece.value else CreatePiece(first);
      var nextPiece := CreatePiece(next);
      currentPiece := currentPiece.(x := (WIDTH - |currentPiece.shape[0]|) / 2, y := 0);
      state := state.(currentPiece := Some(currentPiece), nextPiece := Some(nextPiece));
      var hit := CheckCollision(state.board, currentPiece, 0, 0);
      if hit {
        state := state.(gameOver := true, isPlaying := false);
      }
      if Consistent(s0) {
        SpawnValid(s0, first, next);
      }
    }

    /** Move the active piece by (dx, dy) if it is free there; a blocked
        downward move locks the piece instead. */
    method MovePiece(dx: int, dy: int, roll: PieceIndex) returns (moved: bool)
      requires Consistent(state) && Settled(state)
      modifies this
      ensures moved == (old(state).currentPiece.Some? && !Collides(old(state).board, old(state).currentPiece.value, dx, dy))
      ensures moved ==> var p := old(state).currentPiece.value;
        state == old(state).(currentPiece := Some(p.(x := p.x + dx, y := p.y + dy)))
      ensures !moved ==> state == if dy > 0 && old(state).currentPiece.Some? then Place(old(state), roll) else old(state)
      ensures lastTime == old(lastTime) && dropTime == old(dropTime) && surfaceReady == old(surfaceReady)
      ensures StateValid(state) && (moved ==> Consistent(state) && Settled(state))
    {
      if state.currentPiece.None? {
        return false;
      }
      var p := state.currentPiece.value;
      var hit := CheckCollision(state.board, p, dx, dy);
      if !hit {
        ShiftCollides(state.board, p, dx, dy, 0, 0);
        state := state.(currentPiece := Some(p.(x := p.x + dx, y := p.y + dy)));
        return true;
      }
      if dy > 0 {
        PlacePiece(roll);
      }
      return false;
    }

    /** Rotate the active piece clockwise and commit it at the first wall
        kick where it is free; when every kick collides nothing changes. */
    method RotatePiece()
      requires ShapesReady(state)
      modifies this
      ensures state == Rotate(old(state))
      ensures lastTime == old(lastTime) && dropTime == old(dropTime) && surfaceReady == old(surfaceReady)
    {
      if state.currentPiece.None? {
        return;
      }
      ghost var s0 := state;
      var p := state.currentPiece.value;
      var rotated := RotateMatrix(p.shape);
      var tempPiece := p.(shape := rotated);
      for k := 0 to |KICKS|
        invariant state == s0
        invariant lastTime == old(lastTime) && dropTime == old(dropTime) && surfaceReady == old(surfaceReady)
        invariant FirstFreeKick(s0.board, tempPiece, 0) == FirstFreeKick(s0.board, tempPiece, k)
      {
        var hit := CheckCollision(state.board, tempPiece, KICKS[k].0, KICKS[k].1);
        if !hit {
          RotateAtKick(s0, tempPiece, k);
          state := state.(currentPiece := Some(tempPiece.(x := tempPiece.x + KICKS[k].0, y := tempPiece.y + KICKS[k].1)));
          return;
        }
      }
      RotateBlocked(s0, tempPiece);
    }

    /** Move the active piece down until it cannot move, which locks it,
        then add 2 points per row fallen. */
    method HardDrop(roll: PieceIndex)
      requires Consistent(state) && Settled(state)
      modifies this
      ensures state == HardDropResult(old(state), roll)
      ensures lastTime == old(lastTime) && dropTime == old(dropTime) && surfaceReady == old(surfaceReady)
      ensures StateValid(state)
    {
      if state.currentPiece.None? {
        return;
      }
      var dropDistance := DropUntilLocked(roll);
      ValidWithScore(state, state.score + dropDistance * 2);
      state := state.(score := state.score + dropDistance * 2);
    }

    /** The loop of the hard drop: move down one row at a time while that
        succeeds, counting the rows; the move that fails locks the piece. */
    method DropUntilLocked(roll: PieceIndex) returns (dropDistance: int)
      requires Consistent(state) && Settled(state) && state.currentPiece.Some?
      modifies this
      ensures dropDistance == DropDistance(old(state).board, old(state).currentPiece.value)
      ensures ShapesReady(Landed(old(state))) && state == Place(Landed(old(state)), roll)
      ensures lastTime == old(lastTime) && dropTime == old(dropTime) && surfaceReady == old(surfaceReady)
      ensures StateValid(state)
    {
      ghost var s0 := state;
      ghost var total := DropDistance(s0.board, s0.currentPiece.value);
      dropDistance := 0;
      assert Lowered(s0, 0) == s0;
      while true
        invariant 0 <= dropDistance
        invariant state == Lowered(s0, dropDistance)
        invariant Consistent(state) && Settled(state)
        invariant dropDistance + DropDistance(s0.board, state.currentPiece.value) == total
        invariant lastTime == old(lastTime) && dropTime == old(dropTime) && surfaceReady == old(surfaceReady)
        decreases total - dropDistance
      {
        ghost var before := state;
        var moved := MovePiece(0, 1, roll);
        if !moved {
          LandedAfter(s0, dropDistance, before);
          return;
        }
        DropStep(s0, dropDistance, before, state);
        dropDistance := dropDistance + 1;
      }
    }

    /** Write the active piece into the board, add 10 points per level,
        clear full rows and spawn the next piece. */
    method PlacePiece(roll: PieceIndex)
      requires Consistent(state) && Settled(state)
      modifies this
      ensures state == Place(old(state), roll)
      ensures lastTime == old(lastTime) && dropTime == old(dropTime) && surfaceReady == old(surfaceReady)
      ensures StateValid(state)
    {
      if state.currentPiece.None? {
        return;
      }
      ghost var s0 := state;
      var p := state.currentPiece.value;
      FreeLandsOnBoard(state.board, p);
      var board := LockCells(state.board, p);
      state := state.(board := board, score := state.score + 10 * state.level);
      ghost var locked := state;
      ClearLines();
      ghost var cleared := state;
      SpawnPiece(roll, roll);
      PlaceSteps(s0, board, locked, cleared, state, roll);
    }

    /** Remove every full row (the rows above fall, empty rows enter at the
        top); when any were removed, add the line points and update the line
        total, the level and the drop speed. */
    method ClearLines()
      modifies this
      ensures state == Clear(old(state))
      ensures lastTime == old(lastTime) && dropTime == old(dropTime) && surfaceReady == old(surfaceReady)
      ensures old(ShapesReady(state) && Tallied(state)) ==> Consistent(state)
    {
      ghost var s0 := state;
      var board, linesCleared := CollapseFullRows(state.board);
      if linesCleared > 0 {
        var score := state.score + CalculateScore(linesCleared, state.level);
        var linesClearedTotal := state.linesCleared + linesCleared;
        var level := LevelFor(linesClearedTotal);
        var dropSpeed := DropSpeedFor(level);
        state := state.(board := board, score := score, linesCleared := linesClearedTotal,
                        level := level, dropSpeed := dropSpeed);
      }
      if ShapesReady(s0) && Tallied(s0) {
        ClearConsistent(s0);
      }
    }
  }
}
