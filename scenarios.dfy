/** Concrete consequences of the rules: a hard drop on the empty board right
    after a start, and the block-out loss condition. */
module Scenarios {
  import opened Wrappers
  import opened Pieces
  import opened Board
  import opened Scoring
  import opened Engine

  /** The line piece (table entry 0) drawn at start sits at column 3 of row 0. */
  lemma StartWithLine(next: PieceIndex)
    ensures var s := StartResult(0, next);
      s.currentPiece == Some(Piece([[1, 1, 1, 1]], Cyan, 3, 0)) && s.board == EmptyBoard()
  {
    var s0 := InitialState().(isPlaying := true);
    assert s0.nextPiece.None?;
    assert CreatePiece(0) == Piece([[1, 1, 1, 1]], Cyan, 0, 0);
  }

  /** A board where the piece has filled only columns 3 to 6 of one row has
      no full row. */
  lemma LineStampNotFull(p: Piece)
    requires p.x == 3
    ensures NoFullRow(Stamp(EmptyBoard(), p))
  {
    var b := Stamp(EmptyBoard(), p);
    forall y | 0 <= y < HEIGHT
      ensures !IsFull(b[y])
    {
      assert !Covers(p, y, 0);
      assert b[y][0] == None;
    }
  }

  /** A hard drop of the line piece from column 3 of row 0 of the empty
      board, at level 1: it falls 19 rows to the bottom row without moving
      sideways, and the score grows by 2 * 19 + 10 * 1 = 48, no line being
      complete. */
  lemma LineHardDrop(s: GameState, roll: PieceIndex)
    requires Consistent(s) && s.board == EmptyBoard() && s.level == 1
    requires s.currentPiece == Some(Piece([[1, 1, 1, 1]], Cyan, 3, 0))
    ensures Landed(s).currentPiece == Some(Piece([[1, 1, 1, 1]], Cyan, 3, 19))
    ensures HardDropResult(s, roll).score == s.score + 48
  {
    var p := s.currentPiece.value;
    EmptyBoardDrop(p, 0);
    var d := DropDistance(s.board, p);
    assert d == 19;
    var q := p.(y := p.y + d);
    LineStampNotFull(q);
    NoFullRowCount(Stamp(s.board, q));
    assert CalculateScore(FullCount(Stamp(s.board, q)), s.level) == 0;
    HardDropScore(s, roll);
  }

  /** Start, then hard drop at once: the line piece drawn first falls to the
      bottom row and the score is 48. */
  lemma StartThenHardDrop(next: PieceIndex, roll: PieceIndex)
    ensures var s := StartResult(0, next);
      && s.isPlaying && !s.isPaused
      && Landed(s).currentPiece == Some(Piece([[1, 1, 1, 1]], Cyan, 3, 19))
      && ActionResult(s, "hardDrop", roll).score == 48
  {
    StartPlays(0, next);
    StartWithLine(next);
    var s := StartResult(0, next);
    LineHardDrop(s, roll);
    HardDropAction(s, roll);
  }

  /** While playing and not paused, the "hardDrop" action is the hard drop. */
  lemma HardDropAction(s: GameState, roll: PieceIndex)
    requires ShapesReady(s) && s.isPlaying && !s.isPaused
    ensures ActionResult(s, "hardDrop", roll) == HardDropResult(s, roll)
  {
  }

  /** A column of the top row of table entry `roll` that is occupied. */
  function TopCell(roll: PieceIndex): (j: nat)
    ensures j < |CreatePiece(roll).shape[0]| && Filled(CreatePiece(roll).shape[0][j])
  {
    if roll == 5 then 0 else if roll == 6 then 2 else 1
  }

  /** Block-out: when the middle four cells of the top board row are filled,
      any piece promoted with an occupied cell in its top row collides where
      it is centred, so the spawn ends the game. */
  lemma BlockOut(s: GameState, first: PieceIndex, next: PieceIndex, j: int)
    requires ShapesReady(s)
    requires forall col :: 3 <= col <= 6 ==> s.board[0][col].Some?
    requires var promoted := if s.nextPiece.Some? then s.nextPiece.value else CreatePiece(first);
      0 <= j < |promoted.shape[0]| && Filled(promoted.shape[0][j])
    ensures Spawn(s, first, next).gameOver && !Spawn(s, first, next).isPlaying
  {
    var promoted := if s.nextPiece.Some? then s.nextPiece.value else CreatePiece(first);
    var width := |promoted.shape[0]|;
    var c := promoted.(x := (WIDTH - width) / 2, y := 0);
    assert 3 <= c.x + j <= 6;
    assert Blocked(s.board, c.x + 0 + j, c.y + 0 + 0);
    assert Collides(s.board, c, 0, 0);
  }

  /** Block-out for every table piece: when the middle four cells of the top
      board row are filled and the piece to promote is one of the table's
      shapes (or there is none, so a table piece is drawn), the spawn ends
      the game. */
  lemma BlockOutTablePiece(s: GameState, first: PieceIndex, next: PieceIndex)
    requires ShapesReady(s)
    requires forall col :: 3 <= col <= 6 ==> s.board[0][col].Some?
    requires s.nextPiece.Some? ==> exists r: PieceIndex :: s.nextPiece.value.shape == CreatePiece(r).shape
    ensures Spawn(s, first, next).gameOver && !Spawn(s, first, next).isPlaying
  {
    if s.nextPiece.Some? {
      var r: PieceIndex :| s.nextPiece.value.shape == CreatePiece(r).shape;
      BlockOut(s, first, next, TopCell(r));
    } else {
      BlockOut(s, first, next, TopCell(first));
    }
  }
}
