/**
 The per-frame input handler: it reads pending events in order, ignores those
 it does not recognise, acts on the first one it does, and leaves the rest
 unread.
 */
module Events {
  import opened Wrappers
  import opened Grid
  import opened HitTest

  datatype Keycode = Escape | R | OtherKey

  /** The events the handler distinguishes; every other SDL event is `OtherEvent`. */
  datatype Event =
    | QuitEvent
    | KeyDown(keycode: Option<Keycode>)
    | MouseButtonDown(x: int, y: int)
    | OtherEvent

  /** What the handler reports to the frame loop. */
  datatype EventCode = Quit

  /** The mutable part of the running program. */
  datatype Game = Game(tiles: Grid, legend: Grid, clickMode: ClickMode)

  /** A call's result: the code returned, the game after it, and the events it left unread. */
  datatype Outcome = Outcome(code: Option<EventCode>, game: Game, rest: seq<Event>)

  /** The game at start-up: both grids as built, paint mode off. */
  function InitialGame(): Game {
    Game(InitialTiles(), InitialLegend(), Off)
  }

  /** A window close or an Escape key press. */
  predicate IsQuit(e: Event) {
    e == QuitEvent || e == KeyDown(Some(Escape))
  }

  /** An event one of the handler's arms acts on; the handler returns after it. */
  predicate Actionable(e: Event) {
    IsQuit(e) || e == KeyDown(Some(R)) || e.MouseButtonDown?
  }

  /** The arm of the handler for one actionable event: its return value and the game after it. */
  function Respond(g: Game, e: Event): (Option<EventCode>, Game)
    requires Actionable(e)
  {
    if IsQuit(e) then (Some(Quit), g)
    else if e.KeyDown? then (None, g.(clickMode := Toggle(g.clickMode)))
    else (None, g.(tiles := Paint(g.tiles, g.clickMode, e.x, e.y)))
  }

  /** Event `n` is the first actionable one. */
  ghost predicate IsFirstAction(events: seq<Event>, n: int) {
    0 <= n < |events| && Actionable(events[n]) && forall m :: 0 <= m < n ==> !Actionable(events[m])
  }

  /** Every tile of both grids has a state below the number of tile states. */
  ghost predicate StatesValid(g: Game) {
    StatesBelow(g.tiles, 3) && StatesBelow(g.legend, 3)
  }

  /**
   One call of the handler on the pending events. It consumes events up to and
   including the first actionable one, answers it, and returns the rest unread;
   with no actionable event it consumes everything and changes nothing.
   */
  function HandleEvents(g: Game, events: seq<Event>): (o: Outcome)
    ensures |o.rest| <= |events| && o.rest == events[|events| - |o.rest|..]
    ensures |events| > 0 ==> |o.rest| < |events|
    ensures (forall n :: 0 <= n < |events| ==> !Actionable(events[n])) ==> o == Outcome(None, g, [])
    ensures forall n :: IsFirstAction(events, n) ==>
      o == Outcome(Respond(g, events[n]).0, Respond(g, events[n]).1, events[n + 1..])
    ensures o.game.legend == g.legend
    decreases |events|
  {
    if |events| == 0 then Outcome(None, g, [])
    else if Actionable(events[0]) then
      var (code, g') := Respond(g, events[0]);
      Outcome(code, g', events[1..])
    else
      var o := HandleEvents(g, events[1..]);
      assert forall n :: IsFirstAction(events, n) ==> n > 0 && IsFirstAction(events[1..], n - 1);
      o
  }

  /** A window close or Escape, when it is the first actionable event, returns `Quit` and changes nothing. */
  lemma QuitChangesNothing(g: Game, events: seq<Event>, n: nat)
    requires IsFirstAction(events, n) && IsQuit(events[n])
    ensures HandleEvents(g, events) == Outcome(Some(Quit), g, events[n + 1..])
  {
  }

  /** An R press flips the mode, returns no code and touches no tile. */
  lemma ToggleChangesOnlyMode(g: Game, events: seq<Event>, n: nat)
    requires IsFirstAction(events, n) && events[n] == KeyDown(Some(R))
    ensures var o := HandleEvents(g, events);
      && o.code == None
      && o.game.clickMode != g.clickMode
      && o.game.tiles == g.tiles && o.game.legend == g.legend
      && o.rest == events[n + 1..]
  {
  }

  /** Two frames that each begin with an R press restore the mode and leave the tiles alone. */
  lemma ToggleTwiceRestores(g: Game, rest: seq<Event>)
    ensures var o1 := HandleEvents(g, [KeyDown(Some(R)), KeyDown(Some(R))] + rest);
      var o2 := HandleEvents(o1.game, o1.rest);
      o2.game == g && o2.rest == rest && o1.code == o2.code == None
  {
    var events := [KeyDown(Some(R)), KeyDown(Some(R))] + rest;
    assert IsFirstAction(events, 0);
    var o1 := HandleEvents(g, events);
    assert o1.rest == [KeyDown(Some(R))] + rest;
    assert IsFirstAction(o1.rest, 0);
  }

  /** A mouse press while the mode is off changes nothing at all. */
  lemma ClickWhileOffChangesNothing(g: Game, events: seq<Event>, n: nat)
    requires IsFirstAction(events, n) && events[n].MouseButtonDown? && g.clickMode == Off
    ensures HandleEvents(g, events) == Outcome(None, g, events[n + 1..])
  {
  }

  /**
   A mouse press at `(x, y)` in paint mode makes the first play tile in scan
   order that contains the point residential; every other play tile, the
   legend and the mode stay as they were.
   */
  lemma ClickPaintsFirstHit(g: Game, events: seq<Event>, n: nat)
    requires IsFirstAction(events, n) && events[n].MouseButtonDown? && g.clickMode == Residential
    ensures var o := HandleEvents(g, events);
      var (x, y) := (events[n].x, events[n].y);
      && o.code == None && o.rest == events[n + 1..]
      && o.game.clickMode == g.clickMode && o.game.legend == g.legend
      && SameShape(o.game.tiles, g.tiles)
      && forall i, j :: InGrid(g.tiles, i, j) ==>
           o.game.tiles[i][j] == (if IsFirstHit(g.tiles, x, y, i, j)
                                  then g.tiles[i][j].(state := ResidentialTile.Ordinal())
                                  else g.tiles[i][j])
  {
    PaintEffect(g.tiles, g.clickMode, events[n].x, events[n].y);
  }

  /** A mouse press that no play tile contains changes nothing. */
  lemma ClickOutsideChangesNothing(g: Game, events: seq<Event>, n: nat)
    requires IsFirstAction(events, n) && events[n].MouseButtonDown?
    requires forall i, j :: !Hits(g.tiles, i, j, events[n].x, events[n].y)
    ensures HandleEvents(g, events).game == g
  {
    var o := HandleEvents(g, events);
    PaintEffect(g.tiles, g.clickMode, events[n].x, events[n].y);
    forall i | 0 <= i < |g.tiles|
      ensures o.game.tiles[i] == g.tiles[i]
    {
      assert forall j :: 0 <= j < |g.tiles[i]| ==> !IsFirstHit(g.tiles, events[n].x, events[n].y, i, j);
    }
  }

  /** The handler keeps every tile state among the three tile states. */
  lemma {:induction false} HandleKeepsStatesValid(g: Game, events: seq<Event>)
    requires StatesValid(g)
    ensures StatesValid(HandleEvents(g, events).game)
    decreases |events|
  {
    if |events| > 0 {
      if Actionable(events[0]) {
        assert IsFirstAction(events, 0);
        if events[0].MouseButtonDown? {
          PaintEffect(g.tiles, g.clickMode, events[0].x, events[0].y);
        }
        var t := HandleEvents(g, events).game.tiles;
        assert forall i, j :: InGrid(t, i, j) ==> t[i][j].state == 1 || t[i][j].state == g.tiles[i][j].state;
      } else {
        HandleKeepsStatesValid(g, events[1..]);
      }
    }
  }

  /** The game at start-up has plain play tiles and legend tiles only. */
  lemma InitialStatesValid()
    ensures StatesValid(InitialGame())
  {
  }
}
