/** Piece shapes of the falling-block game: the fixed catalog of seven
    tetromino templates and the clockwise quarter-turn used by rotation. */
module TetrisShapes {

  /** A shape is a matrix of cells; a non-zero cell is occupied. */
  type Shape = seq<seq<int>>

  /** A non-empty rectangular matrix: every catalog shape is one, and rotation keeps it one. */
  predicate IsMatrix(s: Shape) {
    |s| >= 1 && |s[0]| >= 1 && forall j :: 0 <= j < |s| ==> |s[j]| == |s[0]|
  }

  /** The occupied cells of a shape, as (row, column) pairs. */
  function Cells(s: Shape): set<(int, int)> {
    set j, i | 0 <= j < |s| && 0 <= i < |s[j]| && s[j][i] != 0 :: (j, i)
  }

  /** Some cell of the shape is occupied. */
  predicate Occupied(s: Shape) {
    exists j, i :: 0 <= j < |s| && 0 <= i < |s[j]| && s[j][i] != 0
  }

  lemma OccupiedIffCells(s: Shape)
    ensures Occupied(s) <==> Cells(s) != {}
  {
    if Occupied(s) {
      var j, i :| 0 <= j < |s| && 0 <= i < |s[j]| && s[j][i] != 0;
      assert (j, i) in Cells(s);
    }
  }

  /** What a piece in flight always has: a rectangular shape with at least one occupied cell. */
  predicate IsPiece(s: Shape) {
    IsMatrix(s) && Occupied(s)
  }

  /** The seven templates, in the order a shape index selects them: I, O, T, L, J, S, Z. */
  const Catalog: seq<Shape> := [
    [[1, 1, 1, 1]],
    [[1, 1], [1, 1]],
    [[0, 1, 0], [1, 1, 1]],
    [[1, 0], [1, 0], [1, 1]],
    [[0, 1], [0, 1], [1, 1]],
    [[0, 1, 1], [1, 1, 0]],
    [[1, 1, 0], [0, 1, 1]]
  ]

  /** Every catalog shape is a piece that fits in a 4 x 4 box. */
  lemma CatalogShapes()
    ensures |Catalog| == 7
    ensures forall k :: 0 <= k < |Catalog| ==>
      IsPiece(Catalog[k]) && |Catalog[k]| <= 4 && |Catalog[k][0]| <= 4
  {
    assert Catalog[0][0][0] != 0 && Catalog[1][0][0] != 0 && Catalog[2][0][1] != 0;
    assert Catalog[3][0][0] != 0 && Catalog[4][0][1] != 0 && Catalog[5][0][1] != 0;
    assert Catalog[6][0][0] != 0;
  }

  /** Clockwise quarter-turn: row i of the result is column i of the shape read
      from the bottom row up, so an h x w shape becomes a w x h one. */
  function Rotate(s: Shape): (r: Shape)
    requires IsMatrix(s)
    ensures IsMatrix(r) && |r| == |s[0]| && |r[0]| == |s|
    ensures forall i, j :: 0 <= i < |r| && 0 <= j < |r[i]| ==> r[i][j] == s[|s| - 1 - j][i]
  {
    seq(|s[0]|, i requires 0 <= i < |s[0]| =>
      seq(|s|, j requires 0 <= j < |s| => s[|s| - 1 - j][i]))
  }

  /** Two quarter-turns are a half-turn: the shape read backwards in both directions. */
  lemma RotateTwice(s: Shape)
    requires IsMatrix(s)
    ensures var r := Rotate(Rotate(s));
      IsMatrix(r) && |r| == |s| && |r[0]| == |s[0]| &&
      forall j, i :: 0 <= j < |s| && 0 <= i < |s[0]| ==> r[j][i] == s[|s| - 1 - j][|s[0]| - 1 - i]
  {
    var r1 := Rotate(s);
    var r := Rotate(r1);
    forall j, i | 0 <= j < |s| && 0 <= i < |s[0]|
      ensures r[j][i] == s[|s| - 1 - j][|s[0]| - 1 - i]
    {
      assert r[j][i] == r1[|r1| - 1 - i][j];
    }
  }

  /** Four quarter-turns give back the original shape, cell for cell. */
  lemma RotateFour(s: Shape)
    requires IsMatrix(s)
    ensures Rotate(Rotate(Rotate(Rotate(s)))) == s
  {
    var h := Rotate(Rotate(s));
    RotateTwice(s);
    RotateTwice(h);
    var r := Rotate(Rotate(h));
    assert |r| == |s|;
    forall j | 0 <= j < |s| ensures r[j] == s[j] {
      assert |r[j]| == |s[j]|;
      forall i | 0 <= i < |s[j]| ensures r[j][i] == s[j][i] {
        assert r[j][i] == h[|h| - 1 - j][|h[0]| - 1 - i];
      }
    }
  }

  /** Where rotation sends the occupied cell (j, i) of a shape with h rows. */
  function Turn(p: (int, int), h: int): (int, int) {
    (p.1, h - 1 - p.0)
  }

  /** The occupied cells of the rotated shape are exactly the turned occupied cells. */
  lemma RotateCells(s: Shape)
    requires IsMatrix(s)
    ensures Cells(Rotate(s)) == set p | p in Cells(s) :: Turn(p, |s|)
  {
    var r := Rotate(s);
    var h := |s|;
    var image := set p | p in Cells(s) :: Turn(p, h);
    forall q | q in Cells(r) ensures q in image {
      var i, j := q.0, q.1;
      assert r[i][j] == s[h - 1 - j][i];
      assert (h - 1 - j, i) in Cells(s);
      assert Turn((h - 1 - j, i), h) == q;
    }
    forall p | p in Cells(s) ensures Turn(p, h) in Cells(r) {
      var j, i := p.0, p.1;
      assert r[i][h - 1 - j] == s[j][i];
    }
  }

  /** Turning is injective, so it keeps the number of cells of any finite set. */
  lemma {:induction false} TurnKeepsCount(a: set<(int, int)>, h: int)
    ensures |set p | p in a :: Turn(p, h)| == |a|
    decreases |a|
  {
    if a != {} {
      var x :| x in a;
      var rest := a - {x};
      TurnKeepsCount(rest, h);
      var restImage := set p | p in rest :: Turn(p, h);
      assert (set p | p in a :: Turn(p, h)) == restImage + {Turn(x, h)};
      assert Turn(x, h) !in restImage;
    }
  }

  /** Rotation preserves the number of occupied cells, and so keeps a piece a piece. */
  lemma RotateKeepsCount(s: Shape)
    requires IsMatrix(s)
    ensures |Cells(Rotate(s))| == |Cells(s)|
    ensures IsPiece(s) ==> IsPiece(Rotate(s))
  {
    RotateCells(s);
    TurnKeepsCount(Cells(s), |s|);
    OccupiedIffCells(s);
    OccupiedIffCells(Rotate(s));
  }
}
