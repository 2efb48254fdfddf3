/**
 The main loop: call the handler, stop on `Quit`, otherwise draw and go round
 again. Events the handler leaves unread stay queued for the next frame (SDL's
 poll takes one event off the queue per read). The model stops when the queue
 is empty, where the program keeps polling the empty queue and redrawing the
 unchanged game every frame.
 */
module Frame {
  import opened Wrappers
  import opened Events

  /** Frames until the handler returns `Quit` or nothing is left queued: whether it quit, and the final game. */
  function RunFrames(g: Game, queue: seq<Event>): (r: (bool, Game))
    ensures r.0 <==> exists n :: 0 <= n < |queue| && IsQuit(queue[n])
    ensures r.1.legend == g.legend
    decreases |queue|
  {
    var o := HandleEvents(g, queue);
    var k := |queue| - |o.rest|;
    ConsumedQuits(g, queue);
    if o.code == Some(Quit) then (true, o.game)
    else if o.rest == [] then (false, o.game)
    else
      var r := RunFrames(o.game, o.rest);
      assert forall n :: 0 <= n < |o.rest| ==> o.rest[n] == queue[k + n];
      assert forall n :: k <= n < |queue| ==> queue[n] == o.rest[n - k];
      r
  }

  /** The reference semantics: every queued event answered in turn, stopping at the first quit. */
  function Replay(g: Game, events: seq<Event>): (bool, Game)
    decreases |events|
  {
    if events == [] then (false, g)
    else if IsQuit(events[0]) then (true, g)
    else if Actionable(events[0]) then Replay(Respond(g, events[0]).1, events[1..])
    else Replay(g, events[1..])
  }

  /** If any event is actionable, some event is the first actionable one. */
  lemma {:induction false} FirstActionExists(events: seq<Event>)
    requires exists n :: 0 <= n < |events| && Actionable(events[n])
    ensures exists n :: IsFirstAction(events, n)
  {
    if !Actionable(events[0]) {
      var n :| 0 <= n < |events| && Actionable(events[n]);
      assert Actionable(events[1..][n - 1]);
      FirstActionExists(events[1..]);
      var m :| IsFirstAction(events[1..], m);
      assert IsFirstAction(events, m + 1);
    } else {
      assert IsFirstAction(events, 0);
    }
  }

  /** A call returns `Quit` exactly when the events it consumed include a window close or Escape. */
  lemma ConsumedQuits(g: Game, events: seq<Event>)
    ensures var o := HandleEvents(g, events);
      o.code == Some(Quit) <==> exists n :: 0 <= n < |events| - |o.rest| && IsQuit(events[n])
  {
    if exists n :: 0 <= n < |events| && Actionable(events[n]) {
      FirstActionExists(events);
    }
  }

  /** Ignored events do not matter to the reference semantics. */
  lemma {:induction false} ReplaySkipsIgnored(g: Game, events: seq<Event>, n: nat)
    requires n <= |events|
    requires forall m :: 0 <= m < n ==> !Actionable(events[m])
    ensures Replay(g, events) == Replay(g, events[n..])
  {
    if n > 0 {
      assert !Actionable(events[0]);
      assert events[1..][n - 1..] == events[n..];
      ReplaySkipsIgnored(g, events[1..], n - 1);
    }
  }

  /** The reference semantics passes over ignored events to the first actionable one and answers it. */
  lemma ReplayFirstAction(g: Game, events: seq<Event>, n: nat)
    requires IsFirstAction(events, n)
    ensures Replay(g, events) ==
      if IsQuit(events[n]) then (true, g) else Replay(Respond(g, events[n]).1, events[n + 1..])
  {
    ReplaySkipsIgnored(g, events, n);
    assert events[n..][0] == events[n] && events[n..][1..] == events[n + 1..];
  }

  /**
   Handling one actionable event per frame, with unread events kept for the
   next frame, ends exactly as answering every event in turn: no event is lost,
   and a quit queued behind another action takes effect one frame later.
   */
  lemma {:induction false} RunFramesIsReplay(g: Game, queue: seq<Event>)
    ensures RunFrames(g, queue) == Replay(g, queue)
    decreases |queue|
  {
    var o := HandleEvents(g, queue);
    if n :| 0 <= n < |queue| && Actionable(queue[n]) {
      FirstActionExists(queue);
      var f :| IsFirstAction(queue, f);
      ReplayFirstAction(g, queue, f);
      if o.code != Some(Quit) && o.rest != [] {
        RunFramesIsReplay(o.game, o.rest);
      }
    } else {
      ReplaySkipsIgnored(g, queue, |queue|);
    }
  }

  /** Every frame's game has valid tile states, so every frame can be drawn. */
  lemma {:induction false} RunFramesKeepsStatesValid(g: Game, queue: seq<Event>)
    requires StatesValid(g)
    ensures StatesValid(RunFrames(g, queue).1)
    decreases |queue|
  {
    HandleKeepsStatesValid(g, queue);
    var o := HandleEvents(g, queue);
    if o.code != Some(Quit) && o.rest != [] {
      RunFramesKeepsStatesValid(o.game, o.rest);
    }
  }
}
