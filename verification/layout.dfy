/**
 The screen geometry of the tile painter: window and grid constants, SDL's
 rectangle with its point test, and the pixel rectangle of every play and
 legend tile.

 The program computes each rectangle coordinate in floating point, as an index
 times a quotient of two constants, rounded to the nearest integer. Here every
 such value is the exact rational rounded half away from zero (`RoundRatio`),
 and the lemmas below give the integer closed forms.
 */
module Layout {

  const Width: nat := 800
  const Height: nat := 600
  const HorizTileNum: nat := 16
  const VertTileNum: nat := 12
  const GameAreaWidth: nat := 800
  /** `Height - 2 * (Height / VertTileNum)`: the quotient is truncated to an integer before doubling. */
  const GameAreaHeight: nat := Height - 2 * (Height / VertTileNum)
  /** Rows of the legend strip: `HorizTileNum - VertTileNum`. */
  const LegendRows: nat := HorizTileNum - VertTileNum

  /** An SDL rectangle: top-left corner and a non-negative size. */
  datatype Rect = Rect(x: int, y: int, w: nat, h: nat) {
    /** SDL's `contains_point`: the rectangle is half-open on the right and bottom. */
    predicate ContainsPoint(px: int, py: int) {
      x <= px < x + w && y <= py < y + h
    }
  }

  /** The non-negative rational `n / d` rounded to the nearest integer, halves away from zero. */
  function RoundRatio(n: nat, d: nat): (r: nat)
    requires d > 0
    ensures 2 * d * r <= 2 * n + d < 2 * d * r + 2 * d
  {
    (2 * n + d) / (2 * d)
  }

  /** Left edge of column `i`: `i * GameAreaWidth / HorizTileNum`, rounded. */
  function TileX(i: nat): nat {
    RoundRatio(i * GameAreaWidth, HorizTileNum)
  }

  /** Top edge of row `j`, relative to the grid's origin: `j * GameAreaHeight / VertTileNum`, rounded. */
  function TileY(j: nat): nat {
    RoundRatio(j * GameAreaHeight, VertTileNum)
  }

  function TileWidth(): nat {
    RoundRatio(GameAreaWidth, HorizTileNum)
  }

  function TileHeight(): nat {
    RoundRatio(GameAreaHeight, VertTileNum)
  }

  /** The rectangle of the tile in column `i`, row `j`, of a grid whose top edge is `yOffset`. */
  function TileRect(i: nat, j: nat, yOffset: int): Rect {
    Rect(TileX(i), TileY(j) + yOffset, TileWidth(), TileHeight())
  }

  lemma AreaConstants()
    ensures GameAreaHeight == 500
    ensures LegendRows == 4
    ensures TileWidth() == 50
    ensures TileHeight() == 42
  {
  }

  /** Column `i` starts at pixel `50 * i`. */
  lemma TileXClosedForm(i: nat)
    ensures TileX(i) == 50 * i
  {
    assert 2 * (i * GameAreaWidth) + HorizTileNum == 32 * (50 * i) + 16;
  }

  /** Row `j` starts at pixel `125 * j / 3` rounded to nearest, which is `(125 * j + 1) / 3`. */
  lemma TileYClosedForm(j: nat)
    ensures TileY(j) == (125 * j + 1) / 3
  {
    var q, m := j / 3, j % 3;
    assert j == 3 * q + m;
    assert 2 * (j * GameAreaHeight) + VertTileNum == 24 * (125 * q) + 1000 * m + 12;
    assert 125 * j + 1 == 3 * (125 * q) + 125 * m + 1;
    if m == 0 {
      assert TileY(j) == 125 * q;
    } else if m == 1 {
      assert TileY(j) == 125 * q + 42;
    } else {
      assert TileY(j) == 125 * q + 83;
    }
  }

  /**
   The exact value `j * 500 / 12` has fractional part 0, 1/3 or 2/3: it is always
   at least 1/6 away from a half, so the rounding cannot be tipped by the error
   of an f64 product of this size.
   */
  lemma RowEdgeNeverHalfway(j: nat)
    ensures (2 * (j * GameAreaHeight)) % (2 * VertTileNum) in {0, 8, 16}
  {
    var q, m := j / 3, j % 3;
    assert j == 3 * q + m;
    assert 2 * (j * GameAreaHeight) == 24 * (125 * q) + 1000 * m;
  }

  /** Consecutive rows start 41 or 42 pixels apart, never further than a tile is tall. */
  lemma RowSpacing(j: nat)
    ensures TileY(j + 1) - TileY(j) in {41, 42}
    ensures TileY(j) < TileY(j + 1) <= TileY(j) + TileHeight()
  {
    TileYClosedForm(j);
    TileYClosedForm(j + 1);
    var q, m := j / 3, j % 3;
    assert j == 3 * q + m;
    assert 125 * j + 1 == 3 * (125 * q) + 125 * m + 1;
    assert 125 * (j + 1) + 1 == 3 * (125 * q) + 125 * m + 126;
  }

  /** Row edges grow with the row index. */
  lemma {:induction false} TileYMonotone(j: nat, k: nat)
    requires j <= k
    ensures TileY(j) <= TileY(k)
    ensures j < k ==> TileY(j) < TileY(k)
    decreases k - j
  {
    if j < k {
      RowSpacing(j);
      TileYMonotone(j + 1, k);
    }
  }

  /** The last column ends at the right edge of the window and the last play row at the bottom of the play area. */
  lemma GridFillsArea()
    ensures TileX(HorizTileNum - 1) + TileWidth() == GameAreaWidth == Width
    ensures TileY(VertTileNum - 1) + TileHeight() == GameAreaHeight
    ensures TileY(LegendRows - 1) + TileHeight() + GameAreaHeight == 667
  {
    TileXClosedForm(HorizTileNum - 1);
    TileYClosedForm(VertTileNum - 1);
    TileYClosedForm(LegendRows - 1);
  }

  /**
   Tiles are 42 pixels tall but rows 1 and 2 start 41 pixels apart, so pixel row 83
   belongs to both: the play rectangles overlap rather than tile the area exactly.
   */
  lemma RowsOverlap()
    ensures TileRect(0, 1, 0).ContainsPoint(0, 83)
    ensures TileRect(0, 2, 0).ContainsPoint(0, 83)
  {
    TileXClosedForm(0);
    TileYClosedForm(1);
    TileYClosedForm(2);
  }
}
