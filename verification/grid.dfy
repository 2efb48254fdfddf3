/**
 Tiles, the two grids they form (play area and legend strip), the paint mode,
 and the start-up construction of both grids.
 */
module Grid {
  import opened Layout

  /** The paint mode; `Residential` lets a click paint a tile. */
  datatype ClickMode = Off | Residential

  function Toggle(m: ClickMode): (r: ClickMode)
    ensures r != m
  {
    if m == Residential then Off else Residential
  }

  /** The visual state of a tile; tiles store its discriminant, which indexes the texture table. */
  datatype TileState = PlainTile | ResidentialTile | LegendTile {
    function Ordinal(): nat {
      match this
      case PlainTile => 0
      case ResidentialTile => 1
      case LegendTile => 2
    }
  }

  /** A tile: its rectangle and its state as an ordinal (a `u64` in the program, so nothing bounds it by type). */
  datatype Tile = Tile(rect: Rect, state: nat)

  /** Column-major: `g[i][j]` is the tile in column `i`, row `j`. Columns may differ in length. */
  type Grid = seq<seq<Tile>>

  predicate InGrid(g: Grid, i: int, j: int) {
    0 <= i < |g| && 0 <= j < |g[i]|
  }

  /** `cols` columns of `rows` tiles each. */
  predicate Shaped(g: Grid, cols: nat, rows: nat) {
    |g| == cols && forall i :: 0 <= i < |g| ==> |g[i]| == rows
  }

  /** Both grids have the same columns, and each column the same length. */
  predicate SameShape(g: Grid, h: Grid) {
    |g| == |h| && forall i :: 0 <= i < |g| ==> |g[i]| == |h[i]|
  }

  /** Every tile's state ordinal is below `bound`. */
  ghost predicate StatesBelow(g: Grid, bound: nat) {
    forall i, j :: InGrid(g, i, j) ==> g[i][j].state < bound
  }

  /** The grid built at start-up: `cols` by `rows`, tile `(i, j)` at `TileRect(i, j, yOffset)`, all in `state`. */
  ghost predicate LaidOut(g: Grid, cols: nat, rows: nat, yOffset: int, state: nat) {
    && Shaped(g, cols, rows)
    && forall i, j :: InGrid(g, i, j) ==> g[i][j] == Tile(TileRect(i, j, yOffset), state)
  }

  /** Sets the state of tile `(i, j)`. */
  function SetState(g: Grid, i: nat, j: nat, s: nat): (r: Grid)
    requires InGrid(g, i, j)
    ensures SameShape(r, g)
    ensures r[i][j].state == s && r[i][j].rect == g[i][j].rect
    ensures forall i', j' :: InGrid(g, i', j') && (i', j') != (i, j) ==> r[i'][j'] == g[i'][j']
  {
    g[i := g[i][j := g[i][j].(state := s)]]
  }

  /** Two grids laid out with the same parameters are equal. */
  lemma {:induction false} LaidOutUnique(g: Grid, h: Grid, cols: nat, rows: nat, yOffset: int, state: nat)
    requires LaidOut(g, cols, rows, yOffset, state)
    requires LaidOut(h, cols, rows, yOffset, state)
    ensures g == h
  {
    forall i | 0 <= i < cols
      ensures g[i] == h[i]
    {
      forall j | 0 <= j < rows
        ensures g[i][j] == h[i][j]
      {
        assert InGrid(g, i, j) && InGrid(h, i, j);
      }
    }
  }

  /** The `cols` by `rows` grid whose tile `(i, j)` is at `TileRect(i, j, yOffset)` in `state`. */
  function LayoutGrid(cols: nat, rows: nat, yOffset: int, state: nat): (g: Grid)
    ensures LaidOut(g, cols, rows, yOffset, state)
  {
    seq(cols, i requires 0 <= i < cols => seq(rows, j requires 0 <= j < rows => Tile(TileRect(i, j, yOffset), state)))
  }

  /**
   The construction loops of start-up: `cols` empty columns, then for each column
   `i` and row `j` in order, push the tile at `TileRect(i, j, yOffset)` in `state`.
   */
  method BuildGrid(cols: nat, rows: nat, yOffset: int, state: nat) returns (g: Grid)
    ensures LaidOut(g, cols, rows, yOffset, state)
    ensures g == LayoutGrid(cols, rows, yOffset, state)
  {
    g := seq(cols, _ => []);
    var i := 0;
    while i < |g|
      invariant 0 <= i <= |g| == cols
      invariant forall k :: i <= k < |g| ==> g[k] == []
      invariant forall k :: 0 <= k < i ==> |g[k]| == rows
      invariant forall k, j :: 0 <= k < i && 0 <= j < rows ==> g[k][j] == Tile(TileRect(k, j, yOffset), state)
    {
      var j := 0;
      while j < rows
        invariant 0 <= j <= rows
        invariant |g| == cols
        invariant forall k :: i < k < |g| ==> g[k] == []
        invariant forall k :: 0 <= k < i ==> |g[k]| == rows
        invariant forall k, j' :: 0 <= k < i && 0 <= j' < rows ==> g[k][j'] == Tile(TileRect(k, j', yOffset), state)
        invariant |g[i]| == j
        invariant forall j' :: 0 <= j' < j ==> g[i][j'] == Tile(TileRect(i, j', yOffset), state)
      {
        g := g[i := g[i] + [Tile(TileRect(i, j, yOffset), state)]];
        j := j + 1;
      }
      i := i + 1;
    }
    LaidOutUnique(g, LayoutGrid(cols, rows, yOffset, state), cols, rows, yOffset, state);
  }

  /** The play area as built at start-up: 16 columns of 12 plain tiles from the top of the window. */
  function InitialTiles(): Grid {
    LayoutGrid(HorizTileNum, VertTileNum, 0, PlainTile.Ordinal())
  }

  /** The legend as built at start-up: 16 columns of 4 legend tiles starting at the bottom of the play area. */
  function InitialLegend(): Grid {
    LayoutGrid(HorizTileNum, LegendRows, GameAreaHeight, LegendTile.Ordinal())
  }

  /** Start-up construction of the play area: 16 columns of 12, all plain, at the layout rectangles. */
  method BuildTiles() returns (tiles: Grid)
    ensures tiles == InitialTiles()
    ensures Shaped(tiles, 16, 12)
    ensures forall i, j :: InGrid(tiles, i, j) ==> tiles[i][j] == Tile(TileRect(i, j, 0), 0)
  {
    AreaConstants();
    tiles := BuildGrid(HorizTileNum, VertTileNum, 0, PlainTile.Ordinal());
  }

  /** Start-up construction of the legend: 16 columns of 4, all legend tiles, shifted down by the play area height. */
  method BuildLegend() returns (legend: Grid)
    ensures legend == InitialLegend()
    ensures Shaped(legend, 16, 4)
    ensures forall i, j :: InGrid(legend, i, j) ==> legend[i][j] == Tile(TileRect(i, j, 500), 2)
  {
    AreaConstants();
    legend := BuildGrid(HorizTileNum, LegendRows, GameAreaHeight, LegendTile.Ordinal());
  }
}
