/**
 What a mouse-down does to the play grid: scan the tiles column by column, and
 in paint mode give the first tile whose rectangle contains the point the
 residential state.
 */
module HitTest {
  import opened Wrappers
  import opened Layout
  import opened Grid

  /** Tile `(i, j)` exists and its rectangle contains `(x, y)`. */
  predicate Hits(g: Grid, i: int, j: int, x: int, y: int) {
    InGrid(g, i, j) && g[i][j].rect.ContainsPoint(x, y)
  }

  /** The scan order: column by column, and top to bottom within a column, `(i', j')` comes before `(i, j)`. */
  predicate Before(i': int, j': int, i: int, j: int) {
    i' < i || (i' == i && j' < j)
  }

  /** `(i, j)` is the first tile in scan order that contains `(x, y)`. */
  ghost predicate IsFirstHit(g: Grid, x: int, y: int, i: int, j: int) {
    Hits(g, i, j, x, y) && forall i', j' :: Before(i', j', i, j) ==> !Hits(g, i', j', x, y)
  }

  /** A point has at most one first hit. */
  lemma FirstHitUnique(g: Grid, x: int, y: int, i: int, j: int)
    requires IsFirstHit(g, x, y, i, j)
    ensures forall i', j' :: IsFirstHit(g, x, y, i', j') ==> i' == i && j' == j
  {
  }

  /** The scan from position `(i, j)` on: the first hit at or after it, or `None` if no later tile contains the point. */
  function ScanFrom(g: Grid, x: int, y: int, i: nat, j: nat): (r: Option<(nat, nat)>)
    requires i <= |g| && (i < |g| ==> j <= |g[i]|)
    ensures r.Some? ==> Hits(g, r.value.0, r.value.1, x, y) && !Before(r.value.0, r.value.1, i, j)
    ensures r.Some? ==> forall i', j' :: !Before(i', j', i, j) && Before(i', j', r.value.0, r.value.1) ==> !Hits(g, i', j', x, y)
    ensures r.None? ==> forall i', j' :: !Before(i', j', i, j) ==> !Hits(g, i', j', x, y)
    decreases |g| - i, if i < |g| then |g[i]| - j else 0
  {
    if i == |g| then None
    else if j == |g[i]| then ScanFrom(g, x, y, i + 1, 0)
    else if g[i][j].rect.ContainsPoint(x, y) then Some((i, j))
    else ScanFrom(g, x, y, i, j + 1)
  }

  /** The tile a click at `(x, y)` lands on, if any. */
  function FirstHit(g: Grid, x: int, y: int): (r: Option<(nat, nat)>)
    ensures r.Some? ==> IsFirstHit(g, x, y, r.value.0, r.value.1)
    ensures r.None? <==> forall i, j :: !Hits(g, i, j, x, y)
  {
    ScanFrom(g, x, y, 0, 0)
  }

  /** The effect of a mouse-down at `(x, y)` on the play tiles; `PaintEffect` states it. */
  function Paint(tiles: Grid, mode: ClickMode, x: int, y: int): Grid {
    if mode == Residential then
      match FirstHit(tiles, x, y)
      case Some((i, j)) => SetState(tiles, i, j, ResidentialTile.Ordinal())
      case None => tiles
    else
      tiles
  }

  /**
   In paint mode the first tile containing the point becomes residential;
   nothing else changes, and with the mode off nothing changes at all.
   */
  lemma PaintEffect(tiles: Grid, mode: ClickMode, x: int, y: int)
    ensures var r := Paint(tiles, mode, x, y);
      && SameShape(r, tiles)
      && (forall i, j :: InGrid(tiles, i, j) ==> r[i][j].rect == tiles[i][j].rect)
      && forall i, j :: InGrid(tiles, i, j) ==>
           r[i][j].state == (if mode == Residential && IsFirstHit(tiles, x, y, i, j)
                             then ResidentialTile.Ordinal() else tiles[i][j].state)
  {
    var h := FirstHit(tiles, x, y);
    if mode == Residential && h.Some? {
      FirstHitUnique(tiles, x, y, h.value.0, h.value.1);
    }
  }

  /**
   The scan as the program writes it: nested loops over columns and rows, the
   containment test first and the mode test inside it, returning as soon as a
   tile is painted.
   */
  method ClickScan(tiles: Grid, mode: ClickMode, x: int, y: int) returns (r: Grid)
    ensures r == Paint(tiles, mode, x, y)
  {
    r := tiles;
    var i := 0;
    while i < |r|
      invariant 0 <= i <= |r|
      invariant r == tiles
      invariant mode == Residential ==> forall i', j' :: Before(i', j', i, 0) ==> !Hits(tiles, i', j', x, y)
    {
      var j := 0;
      while j < |r[i]|
        invariant 0 <= j <= |r[i]|
        invariant r == tiles
        invariant mode == Residential ==> forall i', j' :: Before(i', j', i, j) ==> !Hits(tiles, i', j', x, y)
      {
        if r[i][j].rect.ContainsPoint(x, y) {
          if mode == Residential {
            assert IsFirstHit(tiles, x, y, i, j);
            FirstHitUnique(tiles, x, y, i, j);
            r := SetState(r, i, j, ResidentialTile.Ordinal());
            return;
          }
        }
        j := j + 1;
      }
      i := i + 1;
    }
  }

  /** On the start-up play grid a tile is hit exactly when the point lies in its 50 by 42 rectangle. */
  lemma InitialHits(i: int, j: int, x: int, y: int)
    ensures Hits(InitialTiles(), i, j, x, y) <==>
      0 <= i < HorizTileNum && 0 <= j < VertTileNum && 50 * i <= x < 50 * i + 50 && TileY(j) <= y < TileY(j) + 42
  {
    var tiles := InitialTiles();
    AreaConstants();
    if 0 <= i < HorizTileNum && 0 <= j < VertTileNum {
      assert InGrid(tiles, i, j);
      TileXClosedForm(i);
    }
  }

  /** Some row at or above `j` contains pixel row `y`, when `y` is above the bottom of row `j`. */
  lemma {:induction false} RowCovers(y: int, j: nat)
    requires 0 <= y < TileY(j) + TileHeight()
    ensures exists k :: 0 <= k <= j && TileY(k) <= y < TileY(k) + TileHeight()
  {
    if y < TileY(j) {
      assert j > 0 by { assert TileY(0) == 0; }
      RowSpacing(j - 1);
      RowCovers(y, j - 1);
    }
  }

  /**
   A click on the start-up play grid hits a tile exactly when it is inside the
   800 by 500 play area; the tile painted is in column `x / 50`, and it is the
   topmost of the (one or two) rows containing `y`.
   */
  lemma InitialFirstHit(x: int, y: int)
    ensures FirstHit(InitialTiles(), x, y).Some? <==> 0 <= x < 800 && 0 <= y < 500
    ensures FirstHit(InitialTiles(), x, y).Some? ==>
      var (i, j) := FirstHit(InitialTiles(), x, y).value;
      && i == x / 50
      && j < VertTileNum && TileY(j) <= y < TileY(j) + TileHeight()
      && (j == 0 || TileY(j - 1) + TileHeight() <= y)
  {
    var tiles := InitialTiles();
    AreaConstants();
    var r := FirstHit(tiles, x, y);
    if 0 <= x < 800 && 0 <= y < 500 {
      GridFillsArea();
      RowCovers(y, VertTileNum - 1);
      var k :| 0 <= k <= VertTileNum - 1 && TileY(k) <= y < TileY(k) + TileHeight();
      InitialHits(x / 50, k, x, y);
      assert Hits(tiles, x / 50, k, x, y);
    }
    if r.Some? {
      var (i, j) := r.value;
      InitialHits(i, j, x, y);
      GridFillsArea();
      TileYMonotone(j, VertTileNum - 1);
      if j > 0 {
        assert Before(i, j - 1, i, j);
        InitialHits(i, j - 1, x, y);
        TileYMonotone(j - 1, j);
      }
    }
  }

  /**
   Pixel row 83 lies in rows 1 and 2 of every column; a click there in paint mode
   paints row 1, the earlier one in scan order, and leaves row 2 alone.
   */
  lemma OverlapPaintsUpperRow(x: int)
    requires 0 <= x < 800
    ensures FirstHit(InitialTiles(), x, 83) == Some((x / 50, 1))
    ensures Hits(InitialTiles(), x / 50, 2, x, 83)
    ensures Paint(InitialTiles(), Residential, x, 83)[x / 50][2] == InitialTiles()[x / 50][2]
  {
    var tiles := InitialTiles();
    PaintEffect(tiles, Residential, x, 83);
    AreaConstants();
    InitialFirstHit(x, 83);
    TileYClosedForm(0);
    TileYClosedForm(1);
    TileYClosedForm(2);
    InitialHits(x / 50, 2, x, 83);
    var r := FirstHit(tiles, x, 83).value;
    assert r.1 != 0;
  }
}
