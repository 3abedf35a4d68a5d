/** Piece shapes, the table of the seven canonical pieces, and the
    90-degree clockwise matrix rotation used by the rotation rule. */
module Pieces {

  /** The seven piece colours, stored by the engine as the strings
      Cyan "#00FFFF", Yellow "#FFFF00", Purple "#800080", Green "#00FF00",
      Red "#FF0000", Orange "#FF7F00" and Blue "#0000FF". A board cell filled
      by a piece holds its colour. */
  datatype Color = Cyan | Yellow | Purple | Green | Red | Orange | Blue

  /** A shape matrix: rows of numbers, a nonzero number marks an occupied cell. */
  type Shape = seq<seq<int>>

  predicate Filled(v: int)
  {
    v != 0
  }

  /** A piece: its shape, its colour and the board position of the shape's
      top-left corner. */
  datatype Piece = Piece(shape: Shape, color: Color, x: int, y: int)

  /** An entry of the canonical piece table. */
  datatype Template = Template(shape: Shape, color: Color)

  const PIECES: seq<Template> := [
    Template([[1, 1, 1, 1]], Cyan),           // I
    Template([[1, 1], [1, 1]], Yellow),       // O
    Template([[0, 1, 0], [1, 1, 1]], Purple), // T
    Template([[0, 1, 1], [1, 1, 0]], Green),  // S
    Template([[1, 1, 0], [0, 1, 1]], Red),    // Z
    Template([[1, 0, 0], [1, 1, 1]], Orange), // J
    Template([[0, 0, 1], [1, 1, 1]], Blue)    // L
  ]

  /** The outcome of the random draw among the seven canonical pieces. */
  type PieceIndex = i: int | 0 <= i < 7

  /** A non-empty matrix whose rows are non-empty and all of one length. */
  predicate Rectangular(m: Shape)
  {
    |m| > 0 && |m[0]| > 0 && forall i :: 0 <= i < |m| ==> |m[i]| == |m[0]|
  }

  predicate HasFilledCell(m: Shape)
  {
    exists i, j :: 0 <= i < |m| && 0 <= j < |m[i]| && Filled(m[i][j])
  }

  /** The shapes the engine ever holds: rectangular, at most 4 by 4, with an
      occupied cell. The canonical shapes and all their rotations are such. */
  predicate WellFormedShape(m: Shape)
  {
    Rectangular(m) && |m| <= 4 && |m[0]| <= 4 && HasFilledCell(m)
  }

  /** A fresh piece drawn from the table, at the origin. */
  function CreatePiece(roll: PieceIndex): (p: Piece)
    ensures p.x == 0 && p.y == 0
    ensures WellFormedShape(p.shape)
    ensures Template(p.shape, p.color) == PIECES[roll]
  {
    var t := PIECES[roll];
    assert Filled(t.shape[|t.shape| - 1][1]);
    Piece(t.shape, t.color, 0, 0)
  }

  /** The clockwise rotation: an r-by-c matrix becomes a c-by-r matrix whose
      row j, read left to right, is column j of the original read bottom up. */
  function Rotated(m: Shape): (r: Shape)
    requires Rectangular(m)
    ensures |r| == |m[0]|
    ensures forall j :: 0 <= j < |r| ==> |r[j]| == |m|
    ensures forall j, k :: 0 <= j < |m[0]| && 0 <= k < |m| ==> r[j][k] == m[|m| - 1 - k][j]
  {
    seq(|m[0]|, j requires 0 <= j < |m[0]| =>
      seq(|m|, k requires 0 <= k < |m| => m[|m| - 1 - k][j]))
  }

  /** Rotation moves cell [i][j] of an r-row matrix to cell [j][r-1-i]. */
  lemma RotatedCell(m: Shape, i: int, j: int)
    requires Rectangular(m) && 0 <= i < |m| && 0 <= j < |m[0]|
    ensures 0 <= |m| - 1 - i < |Rotated(m)[j]| && Rotated(m)[j][|m| - 1 - i] == m[i][j]
  {
    var k := |m| - 1 - i;
    assert Rotated(m)[j][k] == m[|m| - 1 - k][j];
  }

  /** Rotation keeps a shape well formed (the dimensions swap). */
  lemma RotatedWellFormed(m: Shape)
    requires WellFormedShape(m)
    ensures WellFormedShape(Rotated(m))
  {
    var i, j :| 0 <= i < |m| && 0 <= j < |m[i]| && Filled(m[i][j]);
    assert |m[i]| == |m[0]|;
    RotatedCell(m, i, j);
  }

  /** `h` is the rectangular `m` turned half way: same dimensions, and cell
      [i][j] of `h` is cell [r-1-i][c-1-j] of `m`. */
  predicate HalfTurn(m: Shape, h: Shape)
  {
    Rectangular(m) && |h| == |m| && (forall i :: 0 <= i < |m| ==> |h[i]| == |m[0]|)
    && forall i, j :: 0 <= i < |m| && 0 <= j < |m[0]| ==> h[i][j] == m[|m| - 1 - i][|m[0]| - 1 - j]
  }

  /** Rotating twice turns the matrix half way. */
  lemma RotatedTwice(m: Shape)
    requires Rectangular(m)
    ensures Rectangular(Rotated(m)) && Rectangular(Rotated(Rotated(m)))
    ensures HalfTurn(m, Rotated(Rotated(m)))
  {
    var r := Rotated(m);
    assert Rectangular(r);
    var h := Rotated(r);
    forall i, j | 0 <= i < |m| && 0 <= j < |m[0]|
      ensures h[i][j] == m[|m| - 1 - i][|m[0]| - 1 - j]
    {
      assert h[i][j] == r[|r| - 1 - j][i];
      assert r[|m[0]| - 1 - j][i] == m[|m| - 1 - i][|m[0]| - 1 - j];
    }
  }

  /** Two half turns of a rectangular matrix give it back. */
  lemma HalfTurnTwice(m: Shape, h: Shape, f: Shape)
    requires Rectangular(m) && HalfTurn(m, h) && HalfTurn(h, f)
    ensures f == m
  {
    assert |h[0]| == |m[0]|;
    forall i | 0 <= i < |m|
      ensures f[i] == m[i]
    {
      forall j | 0 <= j < |m[0]|
        ensures f[i][j] == m[i][j]
      {
        assert f[i][j] == h[|m| - 1 - i][|m[0]| - 1 - j];
      }
    }
  }

  /** Four clockwise rotations give back the original matrix. */
  lemma {:induction false} RotateFourTimes(m: Shape)
    requires Rectangular(m)
    ensures Rectangular(Rotated(m)) && Rectangular(Rotated(Rotated(m)))
    ensures Rectangular(Rotated(Rotated(Rotated(m))))
    ensures Rotated(Rotated(Rotated(Rotated(m)))) == m
  {
    RotatedTwice(m);
    var h := Rotated(Rotated(m));
    RotatedTwice(h);
    HalfTurnTwice(m, h, Rotated(Rotated(h)));
  }

  /** The engine's rotation loop: allocate a c-by-r matrix of zeros and copy
      every cell [i][j] into [j][r-1-i]. */
  method RotateMatrix(matrix: Shape) returns (rotated: Shape)
    requires Rectangular(matrix)
    ensures rotated == Rotated(matrix)
  {
    var rows := |matrix|;
    var cols := |matrix[0]|;
    rotated := seq(cols, _ => seq(rows, _ => 0));
    for i := 0 to rows
      invariant |rotated| == cols
      invariant forall j :: 0 <= j < cols ==> |rotated[j]| == rows
      invariant forall j, k :: 0 <= j < cols && 0 <= k < rows ==>
        rotated[j][k] == if rows - 1 - k < i then matrix[rows - 1 - k][j] else 0
    {
      for j := 0 to cols
        invariant |rotated| == cols
        invariant forall j' :: 0 <= j' < cols ==> |rotated[j']| == rows
        invariant forall j', k :: 0 <= j' < cols && 0 <= k < rows ==>
          rotated[j'][k] ==
            if rows - 1 - k < i || (rows - 1 - k == i && j' < j) then matrix[rows - 1 - k][j'] else 0
      {
        rotated := rotated[j := rotated[j][rows - 1 - i := matrix[i][j]]];
      }
    }
    ghost var r := Rotated(matrix);
    assert forall j :: 0 <= j < cols ==> rotated[j] == r[j];
  }
}
