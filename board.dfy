/** The 10-by-20 board of colour cells: the collision rule, writing a locked
    piece into the board, and removing full rows. */
module Board {
  import opened Wrappers
  import opened Pieces

  const WIDTH := 10
  const HEIGHT := 20

  /** An empty cell or the colour of the piece locked into it. */
  type Cell = Option<Color>
  type Row = r: seq<Cell> | |r| == WIDTH witness seq(WIDTH, _ => None)
  /** The dimensions of the board are part of its type: every operation
      below is proved to keep 20 rows of 10 cells. */
  type Board = b: seq<Row> | |b| == HEIGHT witness seq(HEIGHT, _ => EMPTY_ROW)

  const EMPTY_ROW: Row := seq(WIDTH, _ => None)
  function EmptyBoard(): Board
  {
    seq(HEIGHT, _ => EMPTY_ROW)
  }

  // ----- Collision -----

  /** A board position an occupied piece cell may not take: off either side,
      at or below the floor, or on a filled cell of the visible board.
      Positions above the board (row < 0) are never blocked by board content. */
  predicate Blocked(b: Board, col: int, row: int)
  {
    col < 0 || col >= WIDTH || row >= HEIGHT || (row >= 0 && b[row][col].Some?)
  }

  /** The piece, shifted by (dx, dy), has an occupied cell on a blocked position. */
  predicate Collides(b: Board, p: Piece, dx: int, dy: int)
  {
    exists i, j :: 0 <= i < |p.shape| && 0 <= j < |p.shape[i]| && Filled(p.shape[i][j])
      && Blocked(b, p.x + dx + j, p.y + dy + i)
  }

  /** The engine's collision scan: visit the shape row by row and stop at the
      first occupied cell that is off the board sideways, below the floor, or
      on a filled visible cell. */
  method CheckCollision(board: Board, piece: Piece, dx: int, dy: int) returns (hit: bool)
    ensures hit == Collides(board, piece, dx, dy)
  {
    var newX := piece.x + dx;
    var newY := piece.y + dy;
    var y := 0;
    while y < |piece.shape|
      invariant 0 <= y <= |piece.shape|
      invariant forall i, j ::
        0 <= i < y && 0 <= j < |piece.shape[i]| && Filled(piece.shape[i][j]) ==> !Blocked(board, newX + j, newY + i)
    {
      var x := 0;
      while x < |piece.shape[y]|
        invariant 0 <= x <= |piece.shape[y]|
        invariant forall i, j ::
          0 <= i < y && 0 <= j < |piece.shape[i]| && Filled(piece.shape[i][j]) ==> !Blocked(board, newX + j, newY + i)
        invariant forall j :: 0 <= j < x && Filled(piece.shape[y][j]) ==> !Blocked(board, newX + j, newY + y)
      {
        if Filled(piece.shape[y][x]) {
          var boardX := newX + x;
          var boardY := newY + y;
          if boardX < 0 || boardX >= WIDTH || boardY >= HEIGHT {
            return true;
          }
          if boardY >= 0 && board[boardY][boardX].Some? {
            return true;
          }
        }
        x := x + 1;
      }
      y := y + 1;
    }
    return false;
  }

  /** Collision of a shifted piece is collision of the original piece with the
      shifts added. */
  lemma ShiftCollides(b: Board, p: Piece, dx: int, dy: int, ex: int, ey: int)
    ensures Collides(b, p.(x := p.x + dx, y := p.y + dy), ex, ey) == Collides(b, p, dx + ex, dy + ey)
  {
  }

  /** On the empty board only the walls and the floor stop a piece. */
  lemma EmptyBoardCollision(p: Piece, dx: int, dy: int)
    ensures Collides(EmptyBoard(), p, dx, dy) <==>
      exists i, j :: 0 <= i < |p.shape| && 0 <= j < |p.shape[i]| && Filled(p.shape[i][j])
        && (p.x + dx + j < 0 || p.x + dx + j >= WIDTH || p.y + dy + i >= HEIGHT)
  {
  }

  // ----- Locking a piece into the board -----

  /** Board cell (row, col) lies under an occupied cell of the piece. */
  predicate Covers(p: Piece, row: int, col: int)
  {
    0 <= row - p.y < |p.shape| && 0 <= col - p.x < |p.shape[row - p.y]| && Filled(p.shape[row - p.y][col - p.x])
  }

  /** The board with the piece's colour written into every board cell under an
      occupied piece cell; occupied piece cells above the board are dropped. */
  function Stamp(b: Board, p: Piece): Board
  {
    seq(HEIGHT, row requires 0 <= row < HEIGHT =>
      seq(WIDTH, col requires 0 <= col < WIDTH => if Covers(p, row, col) then Some(p.color) else b[row][col]))
  }

  /** Every occupied cell at a visible row lies inside the board. */
  predicate LandsOnBoard(p: Piece)
  {
    forall i, j :: 0 <= i < |p.shape| && 0 <= j < |p.shape[i]| && Filled(p.shape[i][j]) && p.y + i >= 0 ==>
      0 <= p.x + j < WIDTH && p.y + i < HEIGHT
  }

  /** A piece at a collision-free position lands on the board. */
  lemma FreeLandsOnBoard(b: Board, p: Piece)
    requires !Collides(b, p, 0, 0)
    ensures LandsOnBoard(p)
  {
    forall i, j | 0 <= i < |p.shape| && 0 <= j < |p.shape[i]| && Filled(p.shape[i][j]) && p.y + i >= 0
      ensures 0 <= p.x + j < WIDTH && p.y + i < HEIGHT
    {
      assert !Blocked(b, p.x + 0 + j, p.y + 0 + i);
    }
  }

  /** The engine's lock loop: for every occupied shape cell whose board row is
      not above the board, write the piece colour into a copy of the board. */
  method LockCells(board: Board, piece: Piece) returns (locked: Board)
    requires LandsOnBoard(piece)
    ensures locked == Stamp(board, piece)
  {
    locked := board;
    var y := 0;
    while y < |piece.shape|
      invariant 0 <= y <= |piece.shape|
      invariant forall row, col :: 0 <= row < HEIGHT && 0 <= col < WIDTH ==>
        locked[row][col] == if Covers(piece, row, col) && row - piece.y < y then Some(piece.color) else board[row][col]
    {
      var x := 0;
      while x < |piece.shape[y]|
        invariant 0 <= x <= |piece.shape[y]|
        invariant forall row, col :: 0 <= row < HEIGHT && 0 <= col < WIDTH ==>
          locked[row][col] ==
            if Covers(piece, row, col) && (row - piece.y < y || (row - piece.y == y && col - piece.x < x))
            then Some(piece.color) else board[row][col]
      {
        if Filled(piece.shape[y][x]) {
          var boardY := piece.y + y;
          var boardX := piece.x + x;
          if boardY >= 0 {
            locked := locked[boardY := locked[boardY][boardX := Some(piece.color)]];
          }
        }
        x := x + 1;
      }
      y := y + 1;
    }
    ghost var s := Stamp(board, piece);
    forall row | 0 <= row < HEIGHT
      ensures locked[row] == s[row]
    {
      assert forall col :: 0 <= col < WIDTH ==> locked[row][col] == s[row][col];
    }
  }

  /** Once locked, the piece's visible cells are filled: the same piece at the
      same place now collides with the board. */
  lemma StampedPieceCollides(b: Board, p: Piece, i: int, j: int)
    requires LandsOnBoard(p)
    requires 0 <= i < |p.shape| && 0 <= j < |p.shape[i]| && Filled(p.shape[i][j]) && p.y + i >= 0
    ensures Collides(Stamp(b, p), p, 0, 0)
  {
    assert Covers(p, p.y + i, p.x + j);
    assert Blocked(Stamp(b, p), p.x + 0 + j, p.y + 0 + i);
  }

  // ----- Full rows -----

  /** A row without an empty cell. */
  predicate IsFull(r: Row)
  {
    forall x :: 0 <= x < |r| ==> r[x].Some?
  }

  predicate NoFullRow(rows: seq<Row>)
  {
    forall y :: 0 <= y < |rows| ==> !IsFull(rows[y])
  }

  /** The number of full rows. */
  function FullCount(rows: seq<Row>): nat
  {
    if rows == [] then 0 else (if IsFull(rows[0]) then 1 else 0) + FullCount(rows[1..])
  }

  /** The rows that are not full, in their original order. */
  function NonFullRows(rows: seq<Row>): (kept: seq<Row>)
    ensures |kept| + FullCount(rows) == |rows|
  {
    if rows == [] then [] else (if IsFull(rows[0]) then [] else [rows[0]]) + NonFullRows(rows[1..])
  }

  function EmptyRows(n: nat): (e: seq<Row>)
  {
    seq(n, _ => EMPTY_ROW)
  }

  /** Collapse and refill: full rows removed, the others kept in order at the
      bottom, and as many empty rows added at the top as were removed. */
  function Cleared(b: Board): Board
  {
    EmptyRows(FullCount(b)) + NonFullRows(b)
  }

  /** A row is kept exactly when it is a row of the board that is not full. */
  lemma {:induction false} NonFullRowsMembers(rows: seq<Row>, r: Row)
    ensures r in NonFullRows(rows) <==> r in rows && !IsFull(r)
  {
    if rows != [] {
      NonFullRowsMembers(rows[1..], r);
      assert rows == [rows[0]] + rows[1..];
    }
  }

  /** No full rows exactly when the count of full rows is zero; then
      nothing is removed. */
  lemma {:induction false} NoFullRowCount(rows: seq<Row>)
    ensures NoFullRow(rows) <==> FullCount(rows) == 0
    ensures NoFullRow(rows) ==> NonFullRows(rows) == rows
  {
    if rows != [] {
      NoFullRowCount(rows[1..]);
      assert NoFullRow(rows) <==> !IsFull(rows[0]) && NoFullRow(rows[1..]) by {
        assert forall y :: 1 <= y < |rows| ==> rows[y] == rows[1..][y - 1];
      }
    }
  }

  lemma EmptyRowNotFull()
    ensures !IsFull(EMPTY_ROW)
  {
    assert EMPTY_ROW[0] == None;
  }

  /** After clearing no row of the board is full. */
  lemma ClearedHasNoFullRow(b: Board)
    ensures NoFullRow(Cleared(b))
  {
    var c := Cleared(b);
    var n := FullCount(b);
    EmptyRowNotFull();
    forall y | 0 <= y < HEIGHT
      ensures !IsFull(c[y])
    {
      if y >= n {
        assert c[y] in NonFullRows(b);
        NonFullRowsMembers(b, c[y]);
      }
    }
  }

  /** Clearing a board that has no full row changes nothing. */
  lemma ClearedWithoutFullRow(b: Board)
    requires NoFullRow(b)
    ensures Cleared(b) == b
  {
    NoFullRowCount(b);
  }

  /** Full rows can only appear inside the window [lo, hi): then at most
      hi - lo rows are full. */
  lemma {:induction false} FullCountWithin(rows: seq<Row>, lo: int, hi: int)
    requires 0 <= lo <= hi
    requires forall y :: 0 <= y < |rows| && (y < lo || y >= hi) ==> !IsFull(rows[y])
    ensures FullCount(rows) <= hi - lo
  {
    if rows != [] {
      assert forall y :: 1 <= y < |rows| ==> rows[1..][y - 1] == rows[y];
      if lo > 0 {
        FullCountWithin(rows[1..], lo - 1, hi - 1);
      } else if hi > 0 {
        FullCountWithin(rows[1..], 0, hi - 1);
      } else {
        FullCountWithin(rows[1..], 0, 0);
      }
    }
  }

  /** Locking a piece into a board without full rows fills at most as many
      rows as the piece has rows. Pieces have at most 4 rows, so at most 4
      lines are ever cleared at once. */
  lemma ClearCountAtMostShapeHeight(b: Board, p: Piece)
    requires NoFullRow(b)
    ensures FullCount(Stamp(b, p)) <= |p.shape|
  {
    var s := Stamp(b, p);
    var lo := if p.y < 0 then 0 else p.y;
    var hi := if p.y + |p.shape| < lo then lo else p.y + |p.shape|;
    forall y | 0 <= y < HEIGHT && (y < lo || y >= hi)
      ensures !IsFull(s[y])
    {
      assert s[y] == b[y];
    }
    FullCountWithin(s, lo, hi);
  }

  // ----- Sequence steps of the line-clear scan -----

  /** Cutting a sequence before and after its element k-1. */
  lemma CutAt<T>(s: seq<T>, k: nat)
    requires 0 < k <= |s|
    ensures s[..k] == s[..k - 1] + [s[k - 1]]
    ensures s[k - 1..] == [s[k - 1]] + s[k..]
  {
  }

  /** The parts around a marked element of a concatenation. */
  lemma SpliceAt<T>(a: seq<T>, b: seq<T>, r: T, c: seq<T>, rows: seq<T>)
    requires rows == a + (b + [r]) + c
    ensures |a| + |b| < |rows| && rows[|a| + |b|] == r
    ensures rows[..|a| + |b|] == a + b && rows[|a| + |b| + 1..] == c
  {
    assert rows == (a + b) + [r] + c;
  }

  lemma Regroup<T>(e: T, a: seq<T>, b: seq<T>, c: seq<T>)
    ensures [e] + (a + b) + c == ([e] + a) + b + c
  {
  }

  lemma ShiftRight<T>(a: seq<T>, b: seq<T>, r: T, c: seq<T>)
    ensures a + (b + [r]) + c == a + b + ([r] + c)
  {
  }

  /** Counting and keeping rows over a row put in front. */
  lemma ConsRow(r: Row, rest: seq<Row>)
    ensures FullCount([r] + rest) == (if IsFull(r) then 1 else 0) + FullCount(rest)
    ensures NonFullRows([r] + rest) == (if IsFull(r) then [] else [r]) + NonFullRows(rest)
  {
    assert ([r] + rest)[0] == r && ([r] + rest)[1..] == rest;
  }

  /** One step of the line-clear scan at an unscanned board row that is full:
      splicing it out and putting an empty row on top keeps the scan's shape. */
  lemma SpliceFullRow(board: Board, p: nat, lines: nat, rows: seq<Row>)
    requires 0 < p <= HEIGHT && lines == FullCount(board[p..])
    requires rows == EmptyRows(lines) + board[..p] + NonFullRows(board[p..])
    requires IsFull(board[p - 1])
    ensures lines + p - 1 < |rows| && rows[lines + p - 1] == board[p - 1]
    ensures lines + 1 == FullCount(board[p - 1..])
    ensures [EMPTY_ROW] + rows[..lines + p - 1] + rows[lines + p..]
      == EmptyRows(lines + 1) + board[..p - 1] + NonFullRows(board[p - 1..])
  {
    var a, b, r, c := EmptyRows(lines), board[..p - 1], board[p - 1], NonFullRows(board[p..]);
    CutAt(board, p);
    SpliceAt(a, b, r, c, rows);
    ConsRow(r, board[p..]);
    Regroup(EMPTY_ROW, a, b, c);
    assert [EMPTY_ROW] + a == EmptyRows(lines + 1);
  }

  /** One step of the line-clear scan at an unscanned board row that is not
      full: the row moves from the unscanned part to the kept part. */
  lemma PassRow(board: Board, p: nat, lines: nat, rows: seq<Row>)
    requires 0 < p <= HEIGHT && lines == FullCount(board[p..])
    requires rows == EmptyRows(lines) + board[..p] + NonFullRows(board[p..])
    requires !IsFull(board[p - 1])
    ensures lines + p - 1 < |rows| && rows[lines + p - 1] == board[p - 1]
    ensures lines == FullCount(board[p - 1..])
    ensures rows == EmptyRows(lines) + board[..p - 1] + NonFullRows(board[p - 1..])
  {
    var a, b, r, c := EmptyRows(lines), board[..p - 1], board[p - 1], NonFullRows(board[p..]);
    CutAt(board, p);
    SpliceAt(a, b, r, c, rows);
    ConsRow(r, board[p..]);
    ShiftRight(a, b, r, c);
  }

  /** The engine's line-clear scan: from the bottom row up, each full row is
      spliced out, an empty row is put on top, and the scan looks at the same
      index again. */
  method CollapseFullRows(board: Board) returns (collapsed: Board, lines: nat)
    ensures collapsed == Cleared(board)
    ensures lines == FullCount(board)
  {
    var rows: seq<Row> := board;
    lines := 0;
    // rows board[..p] are not scanned yet; rows board[p..] are scanned
    ghost var p := HEIGHT;
    var y := HEIGHT - 1;
    while y >= 0
      invariant 0 <= p <= HEIGHT && -1 <= y
      invariant lines == FullCount(board[p..])
      invariant rows == EmptyRows(lines) + board[..p] + NonFullRows(board[p..])
      invariant y + 1 == lines + p || (p == 0 && y + 1 <= lines)
      decreases p + y + 1
    {
      if p > 0 && y + 1 == lines + p {
        if IsFull(board[p - 1]) {
          SpliceFullRow(board, p, lines, rows);
          assert IsFull(rows[y]);
        } else {
          PassRow(board, p, lines, rows);
          assert !IsFull(rows[y]);
        }
      } else {
        assert rows[y] == EMPTY_ROW;
        EmptyRowNotFull();
        assert !IsFull(rows[y]);
      }
      if IsFull(rows[y]) {
        rows := [EMPTY_ROW] + rows[..y] + rows[y + 1..];
        lines := lines + 1;
        p := p - 1;
        y := y + 1;
      } else if p > 0 && y + 1 == lines + p {
        p := p - 1;
      }
      y := y - 1;
    }
    assert board[..0] == [] && board[0..] == board;
    collapsed := rows;
  }
}
