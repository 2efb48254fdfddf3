/**
 What a frame draws: one texture copy per tile, play area first and legend
 second, column by column, each texture chosen by indexing the texture table
 with the tile's state ordinal. Only the copies are modelled, not the drawing.
 */
module Render {
  import opened Wrappers
  import opened Layout
  import opened Grid
  import opened Events

  /** Loaded at start-up in this order, so texture `k` is the image of tile state `k`. */
  const TextureFiles: seq<string> := ["./src/assets/tile.png", "./src/assets/house.png", "./src/assets/legendTile.png"]

  /** One `canvas.copy`: the whole of texture `texture` stretched onto `dest`. */
  datatype Copy = Copy(texture: nat, dest: Rect)

  /** The copies for one column, top to bottom. */
  function ColumnCopies(col: seq<Tile>): seq<Copy> {
    seq(|col|, j requires 0 <= j < |col| => Copy(col[j].state, col[j].rect))
  }

  /** The copies for a whole grid, column by column. */
  function GridCopies(g: Grid): seq<Copy> {
    if g == [] then [] else GridCopies(g[..|g| - 1]) + ColumnCopies(g[|g| - 1])
  }

  /** With every state below `bound`, every copy of the grid uses a texture index below `bound`. */
  lemma {:induction false} GridCopiesBelow(g: Grid, bound: nat)
    requires StatesBelow(g, bound)
    ensures forall k :: 0 <= k < |GridCopies(g)| ==> GridCopies(g)[k].texture < bound
  {
    if g != [] {
      var init := g[..|g| - 1];
      assert StatesBelow(init, bound) by {
        forall i, j | InGrid(init, i, j)
          ensures init[i][j].state < bound
        {
          assert InGrid(g, i, j);
        }
      }
      GridCopiesBelow(init, bound);
      var last := g[|g| - 1];
      forall j | 0 <= j < |last|
        ensures last[j].state < bound
      {
        assert InGrid(g, |g| - 1, j);
      }
    }
  }

  /** A grid of `|g|` columns of `rows` tiles makes `|g| * rows` copies. */
  lemma {:induction false} GridCopiesLength(g: Grid, rows: nat)
    requires Shaped(g, |g|, rows)
    ensures |GridCopies(g)| == |g| * rows
  {
    if g != [] {
      GridCopiesLength(g[..|g| - 1], rows);
      assert |g| * rows == (|g| - 1) * rows + rows;
    }
  }

  /** In a grid of equal columns, the copy at position `i * rows + j` is the copy of tile `(i, j)`. */
  lemma {:induction false} GridCopiesAt(g: Grid, rows: nat, i: nat, j: nat)
    requires Shaped(g, |g|, rows) && InGrid(g, i, j)
    ensures i * rows + j < |GridCopies(g)|
    ensures GridCopies(g)[i * rows + j] == Copy(g[i][j].state, g[i][j].rect)
    decreases |g|
  {
    var n := |g| - 1;
    var init := g[..n];
    GridCopiesLength(init, rows);
    GridCopiesLength(g, rows);
    assert GridCopies(g) == GridCopies(init) + ColumnCopies(g[n]);
    if i < n {
      assert InGrid(init, i, j);
      GridCopiesAt(init, rows, i, j);
      assert init[i] == g[i];
    } else {
      assert i * rows + j - n * rows == j;
      assert GridCopies(g)[i * rows + j] == ColumnCopies(g[n])[j];
    }
  }

  /**
   The first copy is of the top-left tile; when every other tile has state `s`,
   every later copy uses texture `s`.
   */
  lemma {:induction false} GridCopiesAllButFirst(g: Grid, s: nat)
    requires g != [] && g[0] != []
    requires forall i, j :: InGrid(g, i, j) && (i, j) != (0, 0) ==> g[i][j].state == s
    ensures |GridCopies(g)| >= |g[0]|
    ensures GridCopies(g)[0] == Copy(g[0][0].state, g[0][0].rect)
    ensures forall k :: 0 < k < |GridCopies(g)| ==> GridCopies(g)[k].texture == s
  {
    var n := |g| - 1;
    var last := g[n];
    assert GridCopies(g) == GridCopies(g[..n]) + ColumnCopies(last);
    if n == 0 {
      assert GridCopies(g[..n]) == [];
      forall k | 0 < k < |last|
        ensures last[k].state == s
      {
        assert InGrid(g, 0, k);
      }
    } else {
      var init := g[..n];
      forall i, j | InGrid(init, i, j) && (i, j) != (0, 0)
        ensures init[i][j].state == s
      {
        assert InGrid(g, i, j);
      }
      assert init[0] == g[0];
      GridCopiesAllButFirst(init, s);
      assert GridCopies(g)[0] == GridCopies(init)[0];
      forall j | 0 <= j < |last|
        ensures last[j].state == s
      {
        assert InGrid(g, n, j);
      }
    }
  }

  /**
   The copies of one grid, as the drawing loop makes them; `None` where the
   program would panic on a state ordinal past the end of the texture table.
   */
  method DrawGrid(g: Grid) returns (r: Option<seq<Copy>>)
    ensures r.Some? <==> StatesBelow(g, |TextureFiles|)
    ensures r.Some? ==> r.value == GridCopies(g)
  {
    var copies := [];
    var i := 0;
    while i < |g|
      invariant 0 <= i <= |g|
      invariant copies == GridCopies(g[..i])
      invariant forall i', j :: 0 <= i' < i && 0 <= j < |g[i']| ==> g[i'][j].state < |TextureFiles|
    {
      var j := 0;
      while j < |g[i]|
        invariant 0 <= j <= |g[i]|
        invariant copies == GridCopies(g[..i]) + ColumnCopies(g[i][..j])
        invariant forall i', j' :: 0 <= i' < i && 0 <= j' < |g[i']| ==> g[i'][j'].state < |TextureFiles|
        invariant forall j' :: 0 <= j' < j ==> g[i][j'].state < |TextureFiles|
      {
        if g[i][j].state >= |TextureFiles| {
          assert InGrid(g, i, j);
          return None;
        }
        assert ColumnCopies(g[i][..j + 1]) == ColumnCopies(g[i][..j]) + [Copy(g[i][j].state, g[i][j].rect)];
        copies := copies + [Copy(g[i][j].state, g[i][j].rect)];
        j := j + 1;
      }
      assert g[i][..j] == g[i];
      assert g[..i + 1][..i] == g[..i];
      i := i + 1;
    }
    assert g[..i] == g;
    r := Some(copies);
  }

  /**
   One frame's copies: every play tile, then every legend tile. The frame is
   drawn exactly when every state indexes the texture table, and then every
   copy uses one of the three loaded textures.
   */
  method Render(game: Game) returns (frame: Option<seq<Copy>>)
    ensures frame.Some? <==> StatesValid(game)
    ensures frame.Some? ==> frame.value == GridCopies(game.tiles) + GridCopies(game.legend)
    ensures frame.Some? ==> forall k :: 0 <= k < |frame.value| ==> frame.value[k].texture < |TextureFiles|
  {
    var play := DrawGrid(game.tiles);
    if play.None? {
      return None;
    }
    var legend := DrawGrid(game.legend);
    if legend.None? {
      return None;
    }
    GridCopiesBelow(game.tiles, |TextureFiles|);
    GridCopiesBelow(game.legend, |TextureFiles|);
    frame := Some(play.value + legend.value);
  }

  /**
   From start-up, press R, then click at (10, 10): the next frame draws the
   house texture on the top-left tile's rectangle (0, 0, 50, 42) and the plain
   tile texture for all 191 other play copies.
   */
  lemma ClickTopLeftScenario()
    ensures var o1 := HandleEvents(InitialGame(), [KeyDown(Some(R)), MouseButtonDown(10, 10)]);
      var o2 := HandleEvents(o1.game, o1.rest);
      var copies := GridCopies(o2.game.tiles);
      && o1.code == None && o2.code == None && o2.rest == []
      && |copies| == 192
      && copies[0].dest == Rect(0, 0, 50, 42)
      && forall k :: 0 <= k < |copies| ==> copies[k].texture == (if k == 0 then 1 else 0)
  {
    var events := [KeyDown(Some(R)), MouseButtonDown(10, 10)];
    assert IsFirstAction(events, 0);
    var o1 := HandleEvents(InitialGame(), events);
    assert o1.rest == [MouseButtonDown(10, 10)];
    assert IsFirstAction(o1.rest, 0);
    var o2 := HandleEvents(o1.game, o1.rest);
    var tiles := InitialTiles();
    AreaConstants();
    HitTest.InitialFirstHit(10, 10);
    TileYClosedForm(0);
    assert HitTest.FirstHit(tiles, 10, 10) == Some((0, 0));
    HitTest.PaintEffect(tiles, Residential, 10, 10);
    var t := o2.game.tiles;
    assert Shaped(t, 16, 12);
    GridCopiesLength(t, 12);
    forall i, j | InGrid(t, i, j) && (i, j) != (0, 0)
      ensures t[i][j].state == 0
    {
      assert InGrid(tiles, i, j);
    }
    assert InGrid(tiles, 0, 0);
    TileXClosedForm(0);
    assert t[0][0].rect == Rect(0, 0, 50, 42);
    GridCopiesAllButFirst(t, 0);
  }
}
