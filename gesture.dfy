/** The drag gesture of the area selector as a state machine over values:
    the private fields #startPoint, #endPoint, the overlay's numbers and the
    window's mousemove subscription, and how each event changes them. The
    class in module AreaSelection is proved to follow these functions. */
module Gesture {
  import opened Geometry

  datatype Option<T> = None | Some(value: T)

  /** The selector's state. `None` stands for a field that is still
      `undefined` (a point) or a style that was never written (the area). */
  datatype Snapshot = Snapshot(
    startPoint: Option<Point>,
    endPoint: Option<Point>,
    area: Option<Box>,
    moveSubscribed: bool)

  /** What the constructor leaves: no points, no area, and the move handler
      already subscribed to the window. */
  function Initial(): (s: Snapshot)
    ensures Valid(s)
    ensures s.moveSubscribed && s.startPoint.None? && s.endPoint.None? && s.area.None?
  {
    Snapshot(None, None, None, true)
  }

  /** The events the selector listens to. A mouse-down or mouse-move carries
      the pointer's viewport position and the element's bounding rectangle at
      that moment. MouseDown and MouseUp are those whose target is the element
      or one of its descendants, the overlay included; MouseMove is any that
      reaches the window. */
  datatype Event =
    | MouseDown(clientX: real, clientY: real, bounds: ClientRect)
    | MouseMove(clientX: real, clientY: real, bounds: ClientRect)
    | MouseUp

  /** #updateArea: redraws from the two points, or, when one of them is still
      undefined, throws before writing any style and leaves the area as it was. */
  function Redraw(s: Snapshot): (r: Snapshot)
    ensures r == s.(area := r.area)
    ensures Valid(s) ==> Valid(r)
    ensures s.startPoint.Some? && s.endPoint.Some? ==> r.area == Some(AreaOf(s.startPoint.value, s.endPoint.value))
    ensures s.startPoint.None? || s.endPoint.None? ==> r == s
  {
    if s.startPoint.Some? && s.endPoint.Some? then
      s.(area := Some(AreaOf(s.startPoint.value, s.endPoint.value)))
    else
      s
  }

  /** The reaction to one event. Only a mouse-up changes the subscription,
      and only to unsubscribed; nothing clears the start point; once
      unsubscribed, neither the end point nor the area changes. */
  function Step(s: Snapshot, e: Event): (r: Snapshot)
    ensures r.moveSubscribed <==> s.moveSubscribed && !e.MouseUp?
    ensures s.startPoint.Some? || e.MouseDown? ==> r.startPoint.Some?
    ensures !s.moveSubscribed ==> r.endPoint == s.endPoint && r.area == s.area
    ensures !e.MouseDown? ==> r.startPoint == s.startPoint
  {
    match e
    case MouseDown(x, y, bounds) => s.(startPoint := Some(LocalPoint(x, y, bounds)))
    case MouseMove(x, y, bounds) =>
      if s.moveSubscribed then Redraw(s.(endPoint := Some(LocalPoint(x, y, bounds)))) else s
    case MouseUp => s.(moveSubscribed := false)
  }

  /** The move handler throws a TypeError in #updateArea: it runs while no
      start point exists yet. The throw comes after the end point is stored
      and before any style is written. */
  predicate Throws(s: Snapshot, e: Event)
    ensures Throws(s, e) ==> Step(s, e).area == s.area && Step(s, e).endPoint.Some?
    ensures Throws(s, e) ==> e.MouseMove? && Step(s, e).startPoint.None?
  {
    e.MouseMove? && s.moveSubscribed && s.startPoint.None?
  }

  /** The state after a sequence of events, handled in arrival order. No
      sequence of events subscribes the move handler again. */
  function Run(s: Snapshot, events: seq<Event>): (r: Snapshot)
    ensures r.moveSubscribed ==> s.moveSubscribed
    ensures events == [] ==> r == s
    decreases |events|
  {
    if events == [] then s else Run(Step(s, events[0]), events[1..])
  }

  /** No mouse-up among the events. */
  predicate ReleaseFree(events: seq<Event>)
  {
    forall i :: 0 <= i < |events| ==> !events[i].MouseUp?
  }

  /** The overlay is only ever drawn after a mouse-down and a move: a drawn
      area implies both points exist, and its size is non-negative. */
  predicate Valid(s: Snapshot)
  {
    s.area.Some? ==>
      && s.startPoint.Some? && s.endPoint.Some?
      && s.area.value.width >= 0.0 && s.area.value.height >= 0.0
  }

  // ---------------------------------------------------------------------
  // One event

  /** Mouse-down sets the start point to the pointer's local position and
      changes nothing else; in particular it does not subscribe the move
      handler again. */
  lemma MouseDownSetsOnlyStart(s: Snapshot, x: real, y: real, bounds: ClientRect)
    ensures Step(s, MouseDown(x, y, bounds)).startPoint == Some(LocalPoint(x, y, bounds))
    ensures Step(s, MouseDown(x, y, bounds)).endPoint == s.endPoint
    ensures Step(s, MouseDown(x, y, bounds)).area == s.area
    ensures Step(s, MouseDown(x, y, bounds)).moveSubscribed == s.moveSubscribed
  {
  }

  /** A subscribed move after a mouse-down sets the end point and redraws the
      area from the two points. */
  lemma MouseMoveRedraws(s: Snapshot, x: real, y: real, bounds: ClientRect)
    requires s.moveSubscribed && s.startPoint.Some?
    ensures !Throws(s, MouseMove(x, y, bounds))
    ensures Step(s, MouseMove(x, y, bounds)) ==
      s.(endPoint := Some(LocalPoint(x, y, bounds)),
         area := Some(AreaOf(s.startPoint.value, LocalPoint(x, y, bounds))))
  {
  }

  /** A subscribed move before any mouse-down sets the end point, then throws
      without touching the area. */
  lemma MouseMoveBeforeMouseDown(s: Snapshot, x: real, y: real, bounds: ClientRect)
    requires s.moveSubscribed && s.startPoint.None?
    ensures Throws(s, MouseMove(x, y, bounds))
    ensures Step(s, MouseMove(x, y, bounds)) == s.(endPoint := Some(LocalPoint(x, y, bounds)))
  {
  }

  /** The first move after construction throws. */
  lemma FirstMoveThrows(x: real, y: real, bounds: ClientRect)
    ensures Throws(Initial(), MouseMove(x, y, bounds))
  {
  }

  /** A move that throws runs while nothing has been drawn yet, and it draws
      nothing. */
  lemma ThrowingMoveDrewNothing(s: Snapshot, e: Event)
    requires Valid(s) && Throws(s, e)
    ensures s.area.None? && Step(s, e).area.None?
  {
  }

  /** Repeating the same event has no further effect. */
  lemma StepIdempotent(s: Snapshot, e: Event)
    ensures Step(Step(s, e), e) == Step(s, e)
  {
  }

  /** Every event keeps the state valid. */
  lemma StepValid(s: Snapshot, e: Event)
    requires Valid(s)
    ensures Valid(Step(s, e))
  {
  }

  // ---------------------------------------------------------------------
  // Sequences of events

  lemma RunCons(s: Snapshot, e: Event, events: seq<Event>)
    ensures Run(s, [e] + events) == Run(Step(s, e), events)
  {
    assert ([e] + events)[1..] == events;
  }

  /** The move handler stays subscribed exactly as long as no mouse-up has
      arrived: it is subscribed once, at construction, and never again. */
  lemma {:induction false} SubscribedUntilMouseUp(s: Snapshot, events: seq<Event>)
    ensures Run(s, events).moveSubscribed <==> s.moveSubscribed && ReleaseFree(events)
    decreases |events|
  {
    if events != [] {
      SubscribedUntilMouseUp(Step(s, events[0]), events[1..]);
      assert ReleaseFree(events) <==> !events[0].MouseUp? && ReleaseFree(events[1..]) by {
        if ReleaseFree(events) {
          forall i | 0 <= i < |events[1..]| ensures !events[1..][i].MouseUp? {
            assert events[1..][i] == events[i + 1];
          }
        }
        if !events[0].MouseUp? && ReleaseFree(events[1..]) {
          forall i | 0 <= i < |events| ensures !events[i].MouseUp? {
            if i > 0 { assert events[i] == events[1..][i - 1]; }
          }
        }
      }
    }
  }

  /** Once the move handler is unsubscribed, no later event changes the end
      point or the area, and the handler is never subscribed again. */
  lemma {:induction false} UnsubscribedIsFinal(s: Snapshot, events: seq<Event>)
    requires !s.moveSubscribed
    ensures Run(s, events).endPoint == s.endPoint
    ensures Run(s, events).area == s.area
    ensures !Run(s, events).moveSubscribed
    decreases |events|
  {
    if events != [] {
      UnsubscribedIsFinal(Step(s, events[0]), events[1..]);
    }
  }

  /** After a mouse-up, whatever follows leaves the end point and the area
      where the mouse-up left them. */
  lemma AfterMouseUpFrozen(s: Snapshot, events: seq<Event>)
    ensures Run(s, [MouseUp] + events).endPoint == s.endPoint
    ensures Run(s, [MouseUp] + events).area == s.area
    ensures !Run(s, [MouseUp] + events).moveSubscribed
  {
    RunCons(s, MouseUp, events);
    UnsubscribedIsFinal(Step(s, MouseUp), events);
  }

  /** Nothing ever clears the start point once a mouse-down has set it. */
  lemma {:induction false} StartPointPersists(s: Snapshot, events: seq<Event>)
    requires s.startPoint.Some?
    ensures Run(s, events).startPoint.Some?
    decreases |events|
  {
    if events != [] {
      StartPointPersists(Step(s, events[0]), events[1..]);
    }
  }

  /** Handling one more event extends the run by one step. */
  lemma {:induction false} RunSnoc(s: Snapshot, events: seq<Event>, e: Event)
    ensures Run(s, events + [e]) == Step(Run(s, events), e)
    decreases |events|
  {
    if events == [] {
      assert events + [e] == [e] + [];
      RunCons(s, e, []);
    } else {
      assert events + [e] == [events[0]] + (events[1..] + [e]);
      RunCons(s, events[0], events[1..] + [e]);
      RunSnoc(Step(s, events[0]), events[1..], e);
    }
  }

  /** Once a start point exists, no move in any later sequence of events
      throws. */
  lemma NoThrowAfterMouseDown(s: Snapshot, events: seq<Event>, i: nat)
    requires s.startPoint.Some? && i < |events|
    ensures !Throws(Run(s, events[..i]), events[i])
  {
    StartPointPersists(s, events[..i]);
  }

  /** Every sequence of events keeps the state valid. */
  lemma {:induction false} RunValid(s: Snapshot, events: seq<Event>)
    requires Valid(s)
    ensures Valid(Run(s, events))
    decreases |events|
  {
    if events != [] {
      StepValid(s, events[0]);
      RunValid(Step(s, events[0]), events[1..]);
    }
  }

  /** Within one subscribed stretch, the area after a move depends only on the
      start point and that move, not on earlier moves. */
  lemma {:induction false} LastMoveDecides(s: Snapshot, events: seq<Event>, x: real, y: real, bounds: ClientRect)
    requires s.moveSubscribed && s.startPoint.Some?
    requires forall i :: 0 <= i < |events| ==> events[i].MouseMove?
    ensures Run(s, events + [MouseMove(x, y, bounds)]).area
         == Some(AreaOf(s.startPoint.value, LocalPoint(x, y, bounds)))
    decreases |events|
  {
    if events == [] {
      assert events + [MouseMove(x, y, bounds)] == [MouseMove(x, y, bounds)];
      RunCons(s, MouseMove(x, y, bounds), []);
    } else {
      var rest := events[1..];
      assert events + [MouseMove(x, y, bounds)] == [events[0]] + (rest + [MouseMove(x, y, bounds)]);
      RunCons(s, events[0], rest + [MouseMove(x, y, bounds)]);
      LastMoveDecides(Step(s, events[0]), rest, x, y, bounds);
    }
  }
}
