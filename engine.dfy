/** The engine's state record and its transitions, as functions from the old
    state to the new one. The class in module Game is proved to compute them. */
module Engine {
  import opened Wrappers
  import opened Pieces
  import opened Board
  import opened Scoring

  /** The state snapshot; times are integer milliseconds. */
  datatype GameState = GameState(
    score: int,
    level: int,
    lives: int,
    isPlaying: bool,
    isPaused: bool,
    gameOver: bool,
    timeElapsed: int,
    board: Board,
    currentPiece: Option<Piece>,
    nextPiece: Option<Piece>,
    linesCleared: int,
    dropSpeed: int)

  /** Every piece the state holds has a well-formed shape. */
  predicate ShapesReady(s: GameState)
  {
    (s.currentPiece.Some? ==> WellFormedShape(s.currentPiece.value.shape))
    && (s.nextPiece.Some? ==> WellFormedShape(s.nextPiece.value.shape))
  }

  /** The active piece, if any, sits at a collision-free position. */
  predicate Settled(s: GameState)
  {
    s.currentPiece.Some? ==> !Collides(s.board, s.currentPiece.value, 0, 0)
  }

  /** Level and drop speed are derived from the cleared-line total. */
  predicate Tallied(s: GameState)
  {
    s.linesCleared >= 0 && s.level == LevelFor(s.linesCleared) && s.dropSpeed == DropSpeedFor(s.level)
  }

  /** What holds between any two operations, playing or not: well-formed
      shapes, no full row left on the board, and level and drop speed derived
      from the cleared-line total. */
  predicate Consistent(s: GameState)
  {
    ShapesReady(s) && NoFullRow(s.board) && Tallied(s)
  }

  /** The engine invariant: consistent, and while playing the active piece is
      at a legal position. */
  predicate StateValid(s: GameState)
  {
    Consistent(s) && (s.isPlaying ==> Settled(s))
  }

  /** Replacing the active piece by a well-formed one at a free position
      keeps the engine invariant. */
  lemma WithPieceValid(s: GameState, q: Piece)
    requires StateValid(s) && WellFormedShape(q.shape) && !Collides(s.board, q, 0, 0)
    ensures StateValid(s.(currentPiece := Some(q)))
  {
  }

  /** The state of a newly built engine. */
  function InitialState(): (s: GameState)
    ensures StateValid(s)
    ensures !s.isPlaying && !s.gameOver && s.score == 0 && s.level == 1
    ensures forall row, col :: 0 <= row < HEIGHT && 0 <= col < WIDTH ==> s.board[row][col].None?
  {
    EmptyRowNotFull();
    GameState(0, 1, 1, false, false, false, 0, EmptyBoard(), None, None, 0, 1000)
  }

  // ----- Spawning -----

  /** Promote the next piece (or, when there is none, a piece drawn with
      `first`), draw a new next piece with `next`, centre the active piece on
      the top row, and end the game when it collides there (block-out). */
  function Spawn(s: GameState, first: PieceIndex, next: PieceIndex): GameState
    requires ShapesReady(s)
  {
    var promoted := if s.nextPiece.Some? then s.nextPiece.value else CreatePiece(first);
    var current := promoted.(x := (WIDTH - |promoted.shape[0]|) / 2, y := 0);
    var spawned := s.(currentPiece := Some(current), nextPiece := Some(CreatePiece(next)));
    if Collides(spawned.board, current, 0, 0) then spawned.(gameOver := true, isPlaying := false) else spawned
  }

  /** The spawned piece is the promoted one, on row 0, horizontally centred:
      inside the board with the two side margins differing by at most one,
      the left one being the smaller. */
  lemma SpawnCentres(s: GameState, first: PieceIndex, next: PieceIndex)
    requires ShapesReady(s)
    ensures var r := Spawn(s, first, next);
      r.currentPiece.Some? && r.nextPiece == Some(CreatePiece(next))
      && var c := r.currentPiece.value;
      var promoted := if s.nextPiece.Some? then s.nextPiece.value else CreatePiece(first);
      && c.shape == promoted.shape && c.color == promoted.color && c.y == 0
      && var width := |c.shape[0]|;
      0 <= c.x && c.x + width <= WIDTH && 0 <= (WIDTH - width - c.x) - c.x <= 1
  {
  }

  /** Spawning changes nothing but the two pieces, and the two flags exactly
      when the centred piece collides: then the game is over and no longer
      playing. */
  lemma SpawnBlockOut(s: GameState, first: PieceIndex, next: PieceIndex)
    requires ShapesReady(s)
    ensures var r := Spawn(s, first, next);
      var hit := Collides(s.board, r.currentPiece.value, 0, 0);
      && r.gameOver == (s.gameOver || hit)
      && r.isPlaying == (s.isPlaying && !hit)
      && r.(currentPiece := s.currentPiece, nextPiece := s.nextPiece, gameOver := s.gameOver, isPlaying := s.isPlaying) == s
  {
  }

  /** A spawn from a consistent state gives a valid state: either the new piece
      is at a legal position or the game has stopped playing. */
  lemma SpawnValid(s: GameState, first: PieceIndex, next: PieceIndex)
    requires Consistent(s)
    ensures StateValid(Spawn(s, first, next))
  {
  }

  // ----- Clearing lines -----

  /** Remove the full rows; when any were removed, add the line points at the
      current level, add them to the line total, and derive level and drop
      speed from the new total. */
  function Clear(s: GameState): GameState
  {
    var n := FullCount(s.board);
    if n > 0 then
      var total := s.linesCleared + n;
      var level := LevelFor(total);
      s.(board := Cleared(s.board), score := s.score + CalculateScore(n, s.level),
         linesCleared := total, level := level, dropSpeed := DropSpeedFor(level))
    else s
  }

  /** Clearing leaves no full row and keeps level and drop speed derived from
      the line total. */
  lemma ClearConsistent(s: GameState)
    requires ShapesReady(s) && Tallied(s)
    ensures Consistent(Clear(s))
  {
    if FullCount(s.board) > 0 {
      ClearedHasNoFullRow(s.board);
    } else {
      NoFullRowCount(s.board);
    }
  }

  /** Clearing twice is clearing once. */
  lemma ClearIdempotent(s: GameState)
    ensures Clear(Clear(s)) == Clear(s)
  {
    if FullCount(s.board) > 0 {
      ClearedHasNoFullRow(s.board);
      NoFullRowCount(Cleared(s.board));
    }
  }

  // ----- Locking -----

  /** Lock the active piece: write it into the board, add 10 points per
      level, clear lines, and spawn the next piece. */
  function Place(s: GameState, roll: PieceIndex): GameState
    requires ShapesReady(s)
  {
    match s.currentPiece
    case None => s
    case Some(p) => Spawn(Clear(Lock(s, p)), roll, roll)
  }

  /** The piece's cells written into the board, and the 10 points per level
      a lock earns. */
  function Lock(s: GameState, p: Piece): (locked: GameState)
    ensures locked.currentPiece == s.currentPiece && locked.nextPiece == s.nextPiece
  {
    s.(board := Stamp(s.board, p), score := s.score + 10 * s.level)
  }

  /** Locking as the engine performs it: write the cells, clear, spawn. */
  lemma PlaceSteps(s: GameState, board: Board, locked: GameState, cleared: GameState, spawned: GameState, roll: PieceIndex)
    requires ShapesReady(s) && s.currentPiece.Some?
    requires board == Stamp(s.board, s.currentPiece.value)
    requires locked == s.(board := board, score := s.score + 10 * s.level)
    requires ShapesReady(locked) && cleared == Clear(locked)
    requires ShapesReady(cleared) && spawned == Spawn(cleared, roll, roll)
    ensures spawned == Place(s, roll)
  {
    assert Lock(s, s.currentPiece.value) == locked;
  }

  /** Locking from a consistent state gives a valid state. */
  lemma PlaceValid(s: GameState, roll: PieceIndex)
    requires Consistent(s)
    ensures StateValid(Place(s, roll))
  {
    if s.currentPiece.Some? {
      var board := Stamp(s.board, s.currentPiece.value);
      var locked := s.(board := board, score := s.score + 10 * s.level);
      ClearConsistent(locked);
      var cleared := Clear(locked);
      SpawnValid(cleared, roll, roll);
      PlaceSteps(s, board, locked, cleared, Spawn(cleared, roll, roll), roll);
    }
  }

  /** Locking scores 10 points per level plus the line points at the level
      before the clear, for at most 4 lines, whatever happens at the spawn. */
  lemma PlaceScore(s: GameState, roll: PieceIndex)
    requires ShapesReady(s) && NoFullRow(s.board) && s.currentPiece.Some?
    ensures var n := FullCount(Stamp(s.board, s.currentPiece.value));
      n <= 4 && Place(s, roll).score == s.score + 10 * s.level + CalculateScore(n, s.level)
  {
    ClearCountAtMostShapeHeight(s.board, s.currentPiece.value);
    var board := Stamp(s.board, s.currentPiece.value);
    var locked := s.(board := board, score := s.score + 10 * s.level);
    var cleared := Clear(locked);
    assert cleared.score == locked.score + CalculateScore(FullCount(board), s.level);
    PlaceSteps(s, board, locked, cleared, Spawn(cleared, roll, roll), roll);
  }

  // ----- Moving -----

  /** Move the active piece by (dx, dy) when that is collision-free (answering
      true); otherwise answer false, locking the piece when the move was
      downward. */
  function Move(s: GameState, dx: int, dy: int, roll: PieceIndex): (GameState, bool)
    requires ShapesReady(s)
  {
    match s.currentPiece
    case None => (s, false)
    case Some(p) =>
      if !Collides(s.board, p, dx, dy) then (s.(currentPiece := Some(p.(x := p.x + dx, y := p.y + dy))), true)
      else if dy > 0 then (Place(s, roll), false)
      else (s, false)
  }

  /** A move succeeds exactly when the piece is free at the offset; it then
      shifts only the position; a failed move that is not downward changes
      nothing. */
  lemma MoveOutcome(s: GameState, dx: int, dy: int, roll: PieceIndex)
    requires ShapesReady(s)
    ensures var (r, moved) := Move(s, dx, dy, roll);
      && (moved <==> s.currentPiece.Some? && !Collides(s.board, s.currentPiece.value, dx, dy))
      && (moved ==> var p := s.currentPiece.value; var q := r.currentPiece.value;
           r.currentPiece.Some? && q.shape == p.shape && q.color == p.color && q.x == p.x + dx && q.y == p.y + dy
           && r.(currentPiece := s.currentPiece) == s)
      && (!moved && dy <= 0 ==> r == s)
      && (!moved && dy > 0 && s.currentPiece.Some? ==> r == Place(s, roll))
  {
  }

  /** A move at a free offset shifts the piece and answers true. */
  lemma MoveFree(s: GameState, dx: int, dy: int, roll: PieceIndex)
    requires ShapesReady(s) && s.currentPiece.Some? && !Collides(s.board, s.currentPiece.value, dx, dy)
    ensures var p := s.currentPiece.value;
      Move(s, dx, dy, roll) == (s.(currentPiece := Some(p.(x := p.x + dx, y := p.y + dy))), true)
  {
  }

  /** A successful move is undone by the opposite move. */
  lemma MoveBack(s: GameState, dx: int, dy: int, roll: PieceIndex)
    requires StateValid(s) && Settled(s)
    requires Move(s, dx, dy, roll).1
    ensures Move(Move(s, dx, dy, roll).0, -dx, -dy, roll) == (s, true)
  {
    var p := s.currentPiece.value;
    var q := p.(x := p.x + dx, y := p.y + dy);
    MoveFree(s, dx, dy, roll);
    var t := s.(currentPiece := Some(q));
    ShiftCollides(s.board, p, dx, dy, -dx, -dy);
    MoveFree(t, -dx, -dy, roll);
    assert q.(x := q.x + -dx, y := q.y + -dy) == p;
  }

  /** Moves keep the engine invariant. */
  lemma MoveValid(s: GameState, dx: int, dy: int, roll: PieceIndex)
    requires StateValid(s)
    ensures StateValid(Move(s, dx, dy, roll).0)
  {
    if s.currentPiece.Some? {
      var p := s.currentPiece.value;
      if !Collides(s.board, p, dx, dy) {
        ShiftCollides(s.board, p, dx, dy, 0, 0);
      } else if dy > 0 {
        PlaceValid(s, roll);
      }
    }
  }

  // ----- Rotating -----

  /** The wall-kick offsets, tried in this order. */
  const KICKS: seq<(int, int)> := [(0, 0), (-1, 0), (1, 0), (-2, 0), (2, 0), (0, -1), (-1, -1), (1, -1)]

  /** The first kick, from index `from` on, at which the piece is free. */
  function FirstFreeKick(b: Board, t: Piece, from: nat): (k: Option<nat>)
    decreases |KICKS| - from
    ensures k.Some? ==> from <= k.value < |KICKS| && !Collides(b, t, KICKS[k.value].0, KICKS[k.value].1)
    ensures forall i :: from <= i < |KICKS| && (k.None? || i < k.value) ==> Collides(b, t, KICKS[i].0, KICKS[i].1)
  {
    if from >= |KICKS| then None
    else if !Collides(b, t, KICKS[from].0, KICKS[from].1) then Some(from)
    else FirstFreeKick(b, t, from + 1)
  }

  /** Rotate the active piece clockwise and commit it at the first free
      kick; when every kick collides, nothing changes. */
  function Rotate(s: GameState): GameState
    requires ShapesReady(s)
  {
    match s.currentPiece
    case None => s
    case Some(p) =>
      var t := p.(shape := Rotated(p.shape));
      match FirstFreeKick(s.board, t, 0)
      case None => s
      case Some(k) => s.(currentPiece := Some(t.(x := t.x + KICKS[k].0, y := t.y + KICKS[k].1)))
  }

  /** The first free kick places the piece at a free position. */
  lemma KickFree(b: Board, t: Piece, k: nat)
    requires FirstFreeKick(b, t, 0) == Some(k)
    ensures k < |KICKS| && !Collides(b, t.(x := t.x + KICKS[k].0, y := t.y + KICKS[k].1), 0, 0)
  {
    ShiftCollides(b, t, KICKS[k].0, KICKS[k].1, 0, 0);
  }

  /** Rotation as the engine performs it: commit at kick `k` when it is the
      first free one. */
  lemma RotateAtKick(s: GameState, t: Piece, k: nat)
    requires ShapesReady(s) && s.currentPiece.Some?
    requires t == s.currentPiece.value.(shape := Rotated(s.currentPiece.value.shape))
    requires FirstFreeKick(s.board, t, 0) == Some(k)
    ensures k < |KICKS|
    ensures Rotate(s) == s.(currentPiece := Some(t.(x := t.x + KICKS[k].0, y := t.y + KICKS[k].1)))
  {
    assert k < |KICKS|;
    var p := s.currentPiece.value;
    assert t == p.(shape := Rotated(p.shape));
  }

  /** Rotation as the engine performs it: no change when every kick collides. */
  lemma RotateBlocked(s: GameState, t: Piece)
    requires ShapesReady(s) && s.currentPiece.Some?
    requires t == s.currentPiece.value.(shape := Rotated(s.currentPiece.value.shape))
    requires FirstFreeKick(s.board, t, 0).None?
    ensures Rotate(s) == s
  {
  }

  /** Rotation keeps the engine invariant. */
  lemma RotateValid(s: GameState)
    requires StateValid(s)
    ensures StateValid(Rotate(s))
  {
    if s.currentPiece.Some? {
      var p := s.currentPiece.value;
      RotatedWellFormed(p.shape);
      var t := p.(shape := Rotated(p.shape));
      match FirstFreeKick(s.board, t, 0)
      case None =>
        RotateBlocked(s, t);
      case Some(k) =>
        KickFree(s.board, t, k);
        var q := t.(x := t.x + KICKS[k].0, y := t.y + KICKS[k].1);
        WithPieceValid(s, q);
        RotateAtKick(s, t, k);
    }
  }

  // ----- Hard drop -----

  /** A piece with an occupied cell that can still move down is above the floor. */
  lemma FreeBelowMeansAboveFloor(b: Board, p: Piece)
    requires HasFilledCell(p.shape) && !Collides(b, p, 0, 1)
    ensures p.y + 1 < HEIGHT
  {
    var i, j :| 0 <= i < |p.shape| && 0 <= j < |p.shape[i]| && Filled(p.shape[i][j]);
    assert !Blocked(b, p.x + 0 + j, p.y + 1 + i);
  }

  /** How many successive one-row downward moves succeed. */
  function DropDistance(b: Board, p: Piece): nat
    requires HasFilledCell(p.shape)
    decreases HEIGHT - p.y
  {
    if Collides(b, p, 0, 1) then 0
    else
      FreeBelowMeansAboveFloor(b, p);
      1 + DropDistance(b, p.(y := p.y + 1))
  }

  /** The state with the active piece moved down as far as it goes. */
  function Landed(s: GameState): (l: GameState)
    requires ShapesReady(s) && s.currentPiece.Some?
    ensures ShapesReady(l) && l.currentPiece.Some?
    ensures Consistent(s) ==> Consistent(l)
  {
    Lowered(s, DropDistance(s.board, s.currentPiece.value))
  }

  /** The state with the active piece `n` rows lower. */
  function Lowered(s: GameState, n: int): GameState
    requires s.currentPiece.Some?
  {
    var p := s.currentPiece.value;
    s.(currentPiece := Some(p.(y := p.y + n)))
  }

  /** Drop the active piece as far as it goes, lock it (with its placement and
      line points and the spawn), then add 2 points per row fallen. */
  function HardDropResult(s: GameState, roll: PieceIndex): GameState
    requires ShapesReady(s)
  {
    if s.currentPiece.None? then s
    else
      var placed := Place(Landed(s), roll);
      placed.(score := placed.score + DropDistance(s.board, s.currentPiece.value) * 2)
  }

  /** The piece drops to the first row from which one more row down
      collides: every row on the way is free. */
  lemma {:induction false} DropLandsLowest(b: Board, p: Piece)
    requires HasFilledCell(p.shape)
    decreases HEIGHT - p.y
    ensures var d := DropDistance(b, p);
      Collides(b, p, 0, d + 1) && forall e :: 0 < e <= d ==> !Collides(b, p, 0, e)
  {
    if Collides(b, p, 0, 1) {
      assert DropDistance(b, p) == 0;
    } else {
      FreeBelowMeansAboveFloor(b, p);
      var q := p.(y := p.y + 1);
      DropLandsLowest(b, q);
      var d := DropDistance(b, q);
      assert DropDistance(b, p) == d + 1;
      ShiftDown(b, p, d + 1);
      forall e | 0 < e <= d + 1
        ensures !Collides(b, p, 0, e)
      {
        if e > 1 {
          ShiftDown(b, p, e - 1);
        }
      }
    }
  }

  /** A piece one row lower, shifted `e` rows down, is the piece shifted
      `e + 1` rows down. */
  lemma ShiftDown(b: Board, p: Piece, e: int)
    ensures Collides(b, p.(y := p.y + 1), 0, e) == Collides(b, p, 0, e + 1)
  {
    ShiftCollides(b, p, 0, 1, 0, e);
    assert p.(x := p.x + 0, y := p.y + 1) == p.(y := p.y + 1);
  }

  /** On the empty board a piece inside the walls whose bottom shape row has
      an occupied cell (column `j`) falls until its bottom row is the floor
      row. */
  lemma {:induction false} EmptyBoardDrop(p: Piece, j: int)
    requires WellFormedShape(p.shape) && 0 <= p.x && p.x + |p.shape[0]| <= WIDTH
    requires p.y + |p.shape| <= HEIGHT
    requires 0 <= j < |p.shape[0]| && Filled(p.shape[|p.shape| - 1][j])
    decreases HEIGHT - p.y
    ensures DropDistance(EmptyBoard(), p) == HEIGHT - |p.shape| - p.y
  {
    var b := EmptyBoard();
    var bottom := |p.shape| - 1;
    EmptyBoardCollision(p, 0, 1);
    if p.y + |p.shape| == HEIGHT {
      assert p.y + 1 + bottom >= HEIGHT;
      assert Collides(b, p, 0, 1);
    } else {
      assert !Collides(b, p, 0, 1) by {
        forall i, k | 0 <= i < |p.shape| && 0 <= k < |p.shape[i]| && Filled(p.shape[i][k])
          ensures !Blocked(b, p.x + 0 + k, p.y + 1 + i)
        {
          assert |p.shape[i]| == |p.shape[0]|;
        }
      }
      EmptyBoardDrop(p.(y := p.y + 1), j);
    }
  }

  /** One successful downward move of the hard drop: the piece is one row
      lower and one row less remains to fall. */
  lemma DropStep(s: GameState, n: int, before: GameState, after: GameState)
    requires ShapesReady(s) && s.currentPiece.Some? && 0 <= n && before == Lowered(s, n)
    requires n + DropDistance(s.board, before.currentPiece.value) == DropDistance(s.board, s.currentPiece.value)
    requires var q := before.currentPiece.value;
      !Collides(before.board, q, 0, 1) && after == before.(currentPiece := Some(q.(x := q.x + 0, y := q.y + 1)))
    ensures after == Lowered(s, n + 1)
    ensures n + 1 + DropDistance(s.board, after.currentPiece.value) == DropDistance(s.board, s.currentPiece.value)
  {
    var p := s.currentPiece.value;
    var q := p.(y := p.y + n);
    assert before.currentPiece.value == q && before.board == s.board;
    LowerPiece(p, n);
    DropCounts(s.board, p, n);
  }

  /** The rows still to fall shrink by one with each free row. */
  lemma DropCounts(b: Board, p: Piece, n: int)
    requires HasFilledCell(p.shape) && 0 <= n
    requires n + DropDistance(b, p.(y := p.y + n)) == DropDistance(b, p)
    requires !Collides(b, p.(y := p.y + n), 0, 1)
    ensures n + 1 + DropDistance(b, p.(y := p.y + (n + 1))) == DropDistance(b, p)
  {
    var q := p.(y := p.y + n);
    DropOnce(b, q);
    assert q.(y := q.y + 1) == p.(y := p.y + (n + 1));
  }

  /** Moving a piece that is `n` rows down by (0, 1) puts it `n + 1` rows down. */
  lemma LowerPiece(p: Piece, n: int)
    ensures var q := p.(y := p.y + n);
      q.(x := q.x + 0, y := q.y + 1) == p.(y := p.y + (n + 1)) == q.(y := q.y + 1)
  {
  }

  /** A piece free one row down has one more row to fall than from there. */
  lemma DropOnce(b: Board, q: Piece)
    requires HasFilledCell(q.shape) && !Collides(b, q, 0, 1)
    ensures DropDistance(b, q) == 1 + DropDistance(b, q.(y := q.y + 1))
  {
  }

  /** When the piece, `n` rows below its start and `n` rows short of its
      drop distance, cannot move down, it has landed: `n` is the drop
      distance and the state is the landed one. */
  lemma LandedAfter(s: GameState, n: int, before: GameState)
    requires ShapesReady(s) && s.currentPiece.Some? && 0 <= n && before == Lowered(s, n)
    requires n + DropDistance(s.board, before.currentPiece.value) == DropDistance(s.board, s.currentPiece.value)
    requires Collides(before.board, before.currentPiece.value, 0, 1)
    ensures n == DropDistance(s.board, s.currentPiece.value) && before == Landed(s)
  {
    var p := s.currentPiece.value;
    assert Collides(s.board, p.(y := p.y + n), 0, 1);
  }

  /** The engine invariant does not mention the score. */
  lemma ValidWithScore(s: GameState, score: int)
    requires StateValid(s)
    ensures StateValid(s.(score := score))
  {
  }

  /** The hard drop as the engine performs it: land, lock, add the drop points. */
  lemma HardDropSteps(s: GameState, roll: PieceIndex, l: GameState, placed: GameState)
    requires ShapesReady(s) && s.currentPiece.Some? && l == Landed(s)
    requires ShapesReady(l) && placed == Place(l, roll)
    ensures HardDropResult(s, roll) == placed.(score := placed.score + DropDistance(s.board, s.currentPiece.value) * 2)
  {
  }

  /** A hard drop scores twice the distance fallen on top of the placement
      and line points of the landing position. */
  lemma HardDropScore(s: GameState, roll: PieceIndex)
    requires ShapesReady(s) && NoFullRow(s.board) && s.currentPiece.Some?
    ensures HardDropResult(s, roll).score == s.score + 2 * DropDistance(s.board, s.currentPiece.value)
      + 10 * s.level + CalculateScore(FullCount(Stamp(s.board, Landed(s).currentPiece.value)), s.level)
  {
    var p := s.currentPiece.value;
    var d := DropDistance(s.board, p);
    var l := Landed(s);
    assert l.currentPiece.value == p.(y := p.y + d) && l.board == s.board;
    assert l.score == s.score && l.level == s.level;
    var n := FullCount(Stamp(s.board, p.(y := p.y + d)));
    assert FullCount(Stamp(l.board, l.currentPiece.value)) == n;
    PlaceScore(l, roll);
    var placed := Place(l, roll);
    assert placed.score == s.score + 10 * s.level + CalculateScore(n, s.level);
    HardDropSteps(s, roll, l, placed);
    var r := HardDropResult(s, roll);
    assert r.score == placed.score + d * 2;
  }

  /** A hard drop keeps the engine invariant. */
  lemma HardDropValid(s: GameState, roll: PieceIndex)
    requires StateValid(s)
    ensures StateValid(HardDropResult(s, roll))
  {
    if s.currentPiece.Some? {
      var placed := Place(Landed(s), roll);
      PlaceValid(Landed(s), roll);
      ValidWithScore(placed, placed.score + DropDistance(s.board, s.currentPiece.value) * 2);
    }
  }

  // ----- Input, time, lifecycle -----

  /** One input action. While not playing or paused only "pause" is honoured
      (it toggles the pause flag); while playing the six control actions
      dispatch to the piece operations and any other action does nothing. */
  function ActionResult(s: GameState, action: string, roll: PieceIndex): GameState
    requires ShapesReady(s)
  {
    if !s.isPlaying || s.isPaused then
      if action == "pause" then s.(isPaused := !s.isPaused) else s
    else if action == "moveLeft" then Move(s, -1, 0, roll).0
    else if action == "moveRight" then Move(s, 1, 0, roll).0
    else if action == "softDrop" then Move(s, 0, 1, roll).0
    else if action == "rotate" then Rotate(s)
    else if action == "hardDrop" then HardDropResult(s, roll)
    else if action == "pause" then s.(isPaused := true)
    else s
  }

  /** While not playing or paused nothing but the pause flag can change, and
      only through "pause"; any action other than the six controls never
      changes the state. */
  lemma ActionGate(s: GameState, action: string, roll: PieceIndex)
    requires ShapesReady(s)
    ensures !s.isPlaying || s.isPaused ==>
      ActionResult(s, action, roll) == (if action == "pause" then s.(isPaused := !s.isPaused) else s)
    ensures action !in ["moveLeft", "moveRight", "softDrop", "rotate", "hardDrop", "pause"] ==>
      ActionResult(s, action, roll) == s
  {
  }

  /** Pressing pause twice restores the state, playing or not. */
  lemma PauseTwice(s: GameState, roll: PieceIndex)
    requires ShapesReady(s)
    ensures var once := ActionResult(s, "pause", roll);
      ShapesReady(once) && once.isPaused != s.isPaused && ActionResult(once, "pause", roll) == s
  {
  }

  /** Every action keeps the engine invariant. */
  lemma ActionValid(s: GameState, action: string, roll: PieceIndex)
    requires StateValid(s)
    ensures StateValid(ActionResult(s, action, roll))
  {
    if s.isPlaying && !s.isPaused {
      if action == "moveLeft" {
        MoveValid(s, -1, 0, roll);
      } else if action == "moveRight" {
        MoveValid(s, 1, 0, roll);
      } else if action == "softDrop" {
        MoveValid(s, 0, 1, roll);
      } else if action == "rotate" {
        RotateValid(s);
      } else if action == "hardDrop" {
        HardDropValid(s, roll);
      }
    }
  }

  /** One update of `delta` milliseconds with drop timer `dropTime`: the
      elapsed time and the timer advance; once the timer exceeds the drop
      speed the piece moves down one row (locking when it cannot) and the
      timer restarts at 0. Answers the new state and the new timer. */
  function Tick(s: GameState, dropTime: int, delta: int, roll: PieceIndex): (GameState, int)
    requires ShapesReady(s)
  {
    var t := s.(timeElapsed := s.timeElapsed + delta);
    if dropTime + delta > t.dropSpeed then (Move(t, 0, 1, roll).0, 0) else (t, dropTime + delta)
  }

  /** Gravity only moves the active piece: every piece operation leaves the
      elapsed time alone. */
  lemma MoveKeepsTime(s: GameState, dx: int, dy: int, roll: PieceIndex)
    requires ShapesReady(s)
    ensures Move(s, dx, dy, roll).0.timeElapsed == s.timeElapsed
  {
  }

  /** An update keeps the engine invariant, adds exactly `delta` to the
      elapsed time, and leaves a timer no greater than the drop speed. */
  lemma TickValid(s: GameState, dropTime: int, delta: int, roll: PieceIndex)
    requires StateValid(s)
    ensures var (r, timer) := Tick(s, dropTime, delta, roll);
      && StateValid(r)
      && r.timeElapsed == s.timeElapsed + delta
      && timer <= r.dropSpeed
  {
    var t := s.(timeElapsed := s.timeElapsed + delta);
    assert StateValid(t);
    if dropTime + delta > t.dropSpeed {
      MoveValid(t, 0, 1, roll);
      MoveKeepsTime(t, 0, 1, roll);
      var m := Move(t, 0, 1, roll).0;
      assert m.dropSpeed >= 0;
      TickDrop(s, dropTime, delta, roll, t, m);
    }
  }

  /** An update whose timer passes the drop speed is one gravity move, and the
      timer restarts. */
  lemma TickDrop(s: GameState, dropTime: int, delta: int, roll: PieceIndex, t: GameState, m: GameState)
    requires ShapesReady(s) && t == s.(timeElapsed := s.timeElapsed + delta)
    requires dropTime + delta > s.dropSpeed && ShapesReady(t) && m == Move(t, 0, 1, roll).0
    ensures Tick(s, dropTime, delta, roll) == (m, 0)
  {
  }

  /** While the timer stays within the drop speed an update changes nothing
      but the elapsed time and the timer. */
  lemma TickIdle(s: GameState, dropTime: int, delta: int, roll: PieceIndex)
    requires ShapesReady(s) && dropTime + delta <= s.dropSpeed
    ensures Tick(s, dropTime, delta, roll) == (s.(timeElapsed := s.timeElapsed + delta), dropTime + delta)
  {
  }

  /** One animation frame at timestamp `time`, given the previous frame's
      timestamp and the drop timer: nothing happens once the game is not
      playing; while paused only the timestamp is recorded; otherwise the
      update runs on the time since the previous frame. Answers the state,
      the recorded timestamp and the timer. */
  function Advance(s: GameState, lastTime: int, dropTime: int, time: int, roll: PieceIndex): (GameState, int, int)
    requires ShapesReady(s)
  {
    if !s.isPlaying then (s, lastTime, dropTime)
    else if s.isPaused then (s, time, dropTime)
    else
      var (r, timer) := Tick(s, dropTime, time - lastTime, roll);
      (r, time, timer)
  }

  /** Frames keep the engine invariant; a stopped game ignores frames. */
  lemma AdvanceValid(s: GameState, lastTime: int, dropTime: int, time: int, roll: PieceIndex)
    requires StateValid(s)
    ensures StateValid(Advance(s, lastTime, dropTime, time, roll).0)
    ensures !s.isPlaying ==> Advance(s, lastTime, dropTime, time, roll) == (s, lastTime, dropTime)
  {
    if s.isPlaying && !s.isPaused {
      TickValid(s, dropTime, time - lastTime, roll);
    }
  }

  /** A new game: the initial state, playing, with a piece spawned. */
  function StartResult(first: PieceIndex, next: PieceIndex): GameState
  {
    Spawn(InitialState().(isPlaying := true), first, next)
  }

  /** A new game always begins playing: the spawned piece fits on the empty
      board, so there is no block-out; the score is 0 at level 1. */
  lemma StartPlays(first: PieceIndex, next: PieceIndex)
    ensures var r := StartResult(first, next);
      && StateValid(r) && r.isPlaying && !r.gameOver && !r.isPaused
      && r.score == 0 && r.level == 1 && r.linesCleared == 0 && r.currentPiece.Some?
  {
    var s := InitialState().(isPlaying := true);
    SpawnCentres(s, first, next);
    var r := Spawn(s, first, next);
    var c := r.currentPiece.value;
    EmptyBoardCollision(c, 0, 0);
    assert s.board == EmptyBoard();
    assert !Collides(s.board, c, 0, 0);
  }
}
