# Tiles 2 — a verified model of the tile painter's input handling

Tiles 2 is a small SDL demo. It shows a 16 × 12 grid of play tiles above a
16 × 4 legend strip. The R key toggles a paint mode. A mouse press in paint
mode turns the tile under the cursor into a house. Escape or closing the
window quits.

This project models the logic of that program as pure Dafny functions and
proves what it does:

- `Layout` holds the constants and the geometry of each tile. Each
  `(a * (b / c)).round()` of the program is taken as the exact rational
  rounded half away from zero. The closed forms follow from that:
  - column `i` starts at x = 50·i;
  - row `j` starts at y = (125·j + 1) / 3, rounded down;
  - every tile is 50 × 42;
  - legend rows are shifted down by the play-area height of 500.

  Rows are 42 pixels tall but start 41 or 42 pixels apart. So some pixel
  rows, such as y = 83, lie in two tiles.
- `Grid` holds the paint mode, the tile states, tiles, column-major grids and
  the start-up construction loops.
- `HitTest` holds the column-major scan for the first tile that contains a
  click, and its effect in paint mode.
- `Events` holds the per-frame handler. It consumes events up to and
  including the first one it acts on (quit, Escape, R or mouse press). It
  returns the unread rest.
- `Render` holds the texture copies of one frame. Its point is the bound on
  the texture index.
- `Frame` holds the main loop, with unread events kept queued for the next
  frame.

Behaviour of the code that a reader might not expect, modelled as written:

- The cells are not disjoint, although the layout is evidently meant to tile
  the play area. Consecutive rows overlap by one pixel at every row boundary
  that is 41 pixels apart (`Layout.RowsOverlap`). A press on such a pixel
  paints the upper tile, because it comes first in the scan
  (`HitTest.OverlapPaintsUpperRow`).
- Every `MouseButtonDown` paints, whatever the button, not only the primary
  button. The model's `MouseButtonDown` carries no button.
- The handler returns after the first event it acts on, so it handles at most
  one such event per frame. This does not drop a later quit in the same
  batch. SDL's poll removes only the events it returns, so the rest stay
  queued. `Frame.RunFramesIsReplay` shows that, under this queue behaviour,
  the loop ends exactly as if it had answered every event in turn. A quit is
  delayed by one frame per actionable event queued ahead of it, never lost.
- The last two legend rows start at y = 583 and y = 625, so they lie partly
  or wholly below the 600-pixel window (`Layout.GridFillsArea`).

## Model

| member | source | states |
|---|---|---|
| Layout.RoundRatio | src/main.rs:131 | the rounded value r is the nearest integer to n/d, with halves rounded up: r − 1/2 ≤ n/d < r + 1/2 |
| Layout.AreaConstants | src/main.rs:14 | the play area is 500 high (the truncating cast of 600/12 gives 50), the legend has 4 rows, and tiles are 50 wide and 42 high |
| Layout.TileXClosedForm | src/main.rs:131 | column i starts at pixel 50·i |
| Layout.TileYClosedForm | src/main.rs:131 | row j starts at pixel (125·j + 1)/3, which is 125·j/3 rounded to nearest |
| Layout.RowEdgeNeverHalfway | src/main.rs:131 | the exact row edge j·500/12 has fractional part 0, 1/3 or 2/3, so it is never a half and float error cannot change how it rounds |
| Layout.RowSpacing | src/main.rs:131 | consecutive rows start 41 or 42 pixels apart, never more than the 42-pixel tile height |
| Layout.TileYMonotone | src/main.rs:131 | row edges strictly increase with the row index |
| Layout.GridFillsArea | src/main.rs:131-139 | the last column ends at x = 800, the last play row at y = 500, and the legend's last row at y = 667 |
| Layout.RowsOverlap | src/main.rs:131 | pixel (0, 83) lies in both tile (0, 1) and tile (0, 2): the play rectangles overlap |
| Grid.Toggle | src/main.rs:57-61 | flipping the mode always gives the other mode |
| Grid.SetState | src/main.rs:69 | after a state write, that tile has the new state and its old rectangle; every other tile and every column length are unchanged |
| Grid.LaidOutUnique | src/main.rs:128-143 | the layout parameters determine the grid completely |
| Grid.LayoutGrid | src/main.rs:128-143 | the layout grid has cols columns of rows tiles; tile (i, j) is at TileRect(i, j, yOffset) with the given state |
| Grid.BuildGrid | src/main.rs:128-143 | the push loops produce exactly the layout grid: cols columns of rows tiles, each at its layout rectangle, all with the given state |
| Grid.BuildTiles | src/main.rs:128-135 | the play area is 16 columns of 12 tiles, all in state Tile (0), tile (i, j) at its layout rectangle with y offset 0 |
| Grid.BuildLegend | src/main.rs:136-143 | the legend is 16 columns of 4 tiles, all in state Legend (2), tile (i, j) at its layout rectangle shifted down by 500 |
| HitTest.FirstHitUnique | src/main.rs:65-67 | a point has at most one first tile in column-major order |
| HitTest.ScanFrom | src/main.rs:65-67 | the scan from (i, j) returns a tile that contains the point, at or after (i, j), with no containing tile between; it returns none only if no tile at or after (i, j) contains the point |
| HitTest.FirstHit | src/main.rs:65-67 | the scan returns the first containing tile in column-major order; it returns none exactly when no tile contains the point |
| HitTest.PaintEffect | src/main.rs:64-76 | a press keeps the shape and all rectangles. In Residential mode the first containing tile becomes state 1. Every other tile, and every tile in Off mode, keeps its state |
| HitTest.ClickScan | src/main.rs:65-75 | the nested loops compute the same grid as the first-hit definition of a press (Paint, characterised by PaintEffect). In the loops the mode test sits inside the containment test, and the loop returns after painting |
| HitTest.InitialHits | src/main.rs:131 | on the start-up grid, tile (i, j) contains (x, y) exactly when 50·i ≤ x < 50·i + 50 and the row's edge ≤ y < edge + 42 |
| HitTest.RowCovers | src/main.rs:131 | every pixel row above the bottom of row j lies in some row at or above j |
| HitTest.InitialFirstHit | src/main.rs:65-67 | on the start-up grid, a press hits a tile exactly when 0 ≤ x < 800 and 0 ≤ y < 500. The hit is in column x/50, in the topmost row that contains y |
| HitTest.OverlapPaintsUpperRow | src/main.rs:65-70 | a press at pixel row 83 hits row 1 before row 2, and painting leaves row 2 unchanged |
| Events.HandleEvents | src/main.rs:49-81 | the call returns a suffix of the events. With no actionable event it consumes all and changes nothing. Otherwise it consumes exactly the events up to and including the first actionable one and answers that one. The legend never changes |
| Events.QuitChangesNothing | src/main.rs:52-55 | a window close or Escape, as the first actionable event, returns Quit and leaves the mode and all tiles unchanged |
| Events.ToggleChangesOnlyMode | src/main.rs:56-63 | R, as the first actionable event, flips the mode, returns no code and leaves both grids unchanged |
| Events.ToggleTwiceRestores | src/main.rs:56-63 | two frames that each begin with R restore the original game |
| Events.ClickWhileOffChangesNothing | src/main.rs:64-76 | a mouse press while the mode is Off changes no tile in either grid and not the mode |
| Events.ClickPaintsFirstHit | src/main.rs:64-76 | a mouse press in Residential mode sets state 1 on exactly the first play tile in column-major order that contains the point. Every other play tile, the legend and the mode are unchanged |
| Events.ClickOutsideChangesNothing | src/main.rs:64-76 | a mouse press that no play tile contains changes nothing |
| Events.HandleKeepsStatesValid | src/main.rs:69 | if every tile state is in {0, 1, 2}, it still is after the handler |
| Events.InitialStatesValid | src/main.rs:128-143 | at start-up every tile state is in {0, 1, 2} |
| Render.GridCopiesBelow | src/main.rs:85-94 | if every state is below a bound, every texture index drawn is below it |
| Render.GridCopiesLength | src/main.rs:85-89 | a grid of n columns of r tiles makes n·r copies |
| Render.GridCopiesAt | src/main.rs:85-89 | in a grid of equal columns of r tiles, copy number i·r + j exists and is the copy of tile (i, j): its state as texture, its rectangle as destination |
| Render.GridCopiesAllButFirst | src/main.rs:85-89 | the first copy is the top-left tile. When every other tile has state s, every later copy uses texture s |
| Render.DrawGrid | src/main.rs:85-94 | the drawing loop makes one copy per tile, column by column, with the tile's state as the texture index. It panics exactly when some state is past the 3 textures |
| Render.Render | src/main.rs:83-97 | a frame is drawn exactly when every state indexes the 3 loaded textures. It copies the play tiles, then the legend, each with a texture index below 3 |
| Render.ClickTopLeftScenario | src/main.rs:56-70 | from start-up, R then a press at (10, 10): of the next frame's 192 play copies, the first draws the house texture on tile (0, 0)'s rectangle (0, 0, 50, 42) and every other one draws the plain tile texture |
| Frame.RunFrames | src/main.rs:148-157 | the loop quits exactly when some queued event is a window close or Escape, and the legend never changes |
| Frame.FirstActionExists | src/main.rs:50-51 | if any event is actionable, there is a first actionable one |
| Frame.ConsumedQuits | src/main.rs:50-55 | a call returns Quit exactly when the events it consumed include a window close or Escape |
| Frame.ReplaySkipsIgnored | src/main.rs:77 | ignored events have no effect |
| Frame.ReplayFirstAction | src/main.rs:50-77 | answering events in turn passes over ignored events and answers the first actionable one as the handler's arm does |
| Frame.RunFramesIsReplay | src/main.rs:148-157 | running frames ends in the same quit status and game as answering every queued event in turn up to the first quit |
| Frame.RunFramesKeepsStatesValid | src/main.rs:148-157 | every frame's game keeps all tile states in {0, 1, 2}, so rendering never indexes past the texture table |

## Left out

- SDL start-up (context, window, canvas, image loading, texture creation) is left out. These are library calls and file I/O; the model keeps only the order of the three textures.
- The actual `canvas.copy`, `clear` and `present` calls are left out, and so is the `unwrap` of a failed copy. `Render` returns the list of copies and models only the out-of-range texture index as a failure.
- Frame pacing (`FPSManager::set_framerate` and `delay`) and the `println!` messages are timing and output side effects, so they are left out.
- Events are an abstract sequence. The SDL queue is modelled only as "unread events stay queued". The loop model stops when the queue is empty, where the program keeps polling an empty queue and redrawing the unchanged game every frame.
- f64 arithmetic in the layout is replaced by exact rational rounding. `Layout.RowEdgeNeverHalfway` shows that every value is always at least 1/6 away from a half. The f64 error itself is not modelled.
- Frame.RunFrames: models frames only until the queue is drained. It does not model the frames after that, in which the program keeps polling an empty queue and redrawing the unchanged game.
- Integer widths (`i32` coordinates, `u32` sizes, `u64` states) are unbounded integers here. Every value stays far inside those ranges: tile coordinates and edges are at most 800 and states at most 2. Mouse coordinates are taken from the event as given, and no arithmetic is done on them.
