/** The AreaSelector object: the fields its event handlers overwrite, and one
    method per handler. Each handler method is proved to change the object
    exactly as Gesture.Step says, and UpdateArea as Gesture.Redraw says, so a
    sequence of handler calls follows Gesture.Run. */
module AreaSelection {
  import opened Geometry
  import opened Gesture

  class AreaSelector {
    /** #startPoint: set by every mouse-down on the element. */
    var startPoint: Option<Point>
    /** #endPoint: set by every move while the move handler is subscribed. */
    var endPoint: Option<Point>
    /** The overlay's top/left/width/height, as numbers; `None` until the
        first successful redraw. */
    var area: Option<Box>
    /** Whether the window's mousemove listener is still registered. */
    var moveSubscribed: bool

    ghost function State(): Snapshot
      reads this
    {
      Snapshot(startPoint, endPoint, area, moveSubscribed)
    }

    ghost predicate Valid()
      reads this
    {
      Gesture.Valid(State())
    }

    /** The constructor creates the overlay and installs the three handlers;
        the move handler is subscribed here, before any mouse-down. */
    constructor ()
      ensures Valid()
      ensures State() == Initial()
      ensures moveSubscribed && startPoint.None? && endPoint.None? && area.None?
    {
      startPoint := None;
      endPoint := None;
      area := None;
      moveSubscribed := true;
    }

    /** The mousedown listener on the element: records where the drag starts.
        It neither redraws nor subscribes the move handler. */
    method OnMouseDown(clientX: real, clientY: real, bounds: ClientRect)
      requires Valid()
      modifies this
      ensures Valid()
      ensures startPoint == Some(LocalPoint(clientX, clientY, bounds))
      ensures endPoint == old(endPoint) && area == old(area) && moveSubscribed == old(moveSubscribed)
      ensures State() == Step(old(State()), MouseDown(clientX, clientY, bounds))
    {
      startPoint := Some(LocalPoint(clientX, clientY, bounds));
    }

    /** #updateArea: computes the overlay's numbers from the two points. Reading
        a coordinate of a point that is still undefined throws a TypeError
        before any style is written; `thrown` reports that. */
    method UpdateArea() returns (thrown: bool)
      requires Valid()
      modifies this`area
      ensures Valid()
      ensures thrown <==> startPoint.None? || endPoint.None?
      ensures area == if thrown then old(area) else Some(AreaOf(startPoint.value, endPoint.value))
      ensures State() == Redraw(old(State()))
    {
      match (startPoint, endPoint)
      case (Some(s), Some(e)) =>
        area := Some(AreaOf(s, e));
        thrown := false;
      case _ =>
        thrown := true;
    }

    /** A mousemove reaching the window. While subscribed, the handler stores
        the end point and then redraws; before any mouse-down the redraw
        throws, after the end point was already stored. Once unsubscribed,
        nothing runs. */
    method OnMouseMove(clientX: real, clientY: real, bounds: ClientRect) returns (thrown: bool)
      requires Valid()
      modifies this
      ensures Valid()
      ensures thrown <==> Throws(old(State()), MouseMove(clientX, clientY, bounds))
      ensures startPoint == old(startPoint) && moveSubscribed == old(moveSubscribed)
      ensures old(moveSubscribed) ==> endPoint == Some(LocalPoint(clientX, clientY, bounds))
      ensures old(moveSubscribed) && startPoint.Some? ==>
                area == Some(AreaOf(startPoint.value, LocalPoint(clientX, clientY, bounds)))
      ensures old(moveSubscribed) && startPoint.None? ==> area == old(area)
      ensures thrown ==> area.None?
      ensures !old(moveSubscribed) ==> endPoint == old(endPoint) && area == old(area)
      ensures State() == Step(old(State()), MouseMove(clientX, clientY, bounds))
    {
      thrown := false;
      if moveSubscribed {
        // The source writes `this.#endpoint` here, a private name the class
        // never declares; the model stores the end point, as evidently meant.
        endPoint := Some(LocalPoint(clientX, clientY, bounds));
        thrown := UpdateArea();
      }
    }

    /** The mouseup listener on the element: unsubscribes the move handler.
        Nothing subscribes it again. */
    method OnMouseUp()
      requires Valid()
      modifies this
      ensures Valid()
      ensures !moveSubscribed
      ensures startPoint == old(startPoint) && endPoint == old(endPoint) && area == old(area)
      ensures State() == Step(old(State()), MouseUp)
    {
      moveSubscribed := false;
    }
  }

  /** A drag as a caller sees it, using only the contracts above: a move
      before the first mouse-down throws, a drag draws the overlay, and after
      the mouse-up further moves leave it alone. Alongside, the events are
      recorded and the object's state is shown to be their Gesture.Run. */
  method DragScenario()
  {
    var bounds := ClientRect(left := 100.0, top := 200.0, width := 300.0, height := 400.0);
    var selector := new AreaSelector();
    ghost var events: seq<Event> := [];

    var thrown := selector.OnMouseMove(150.0, 250.0, bounds);
    RunSnoc(Initial(), events, MouseMove(150.0, 250.0, bounds));
    events := events + [MouseMove(150.0, 250.0, bounds)];
    assert thrown && selector.area.None?;

    selector.OnMouseDown(110.0, 220.0, bounds);
    RunSnoc(Initial(), events, MouseDown(110.0, 220.0, bounds));
    events := events + [MouseDown(110.0, 220.0, bounds)];
    assert selector.startPoint == Some(Point(10.0, 20.0));

    thrown := selector.OnMouseMove(160.0, 290.0, bounds);
    RunSnoc(Initial(), events, MouseMove(160.0, 290.0, bounds));
    events := events + [MouseMove(160.0, 290.0, bounds)];
    assert !thrown;
    assert selector.area == Some(Box(top := 10.0, left := 20.0, width := 50.0, height := 70.0));

    // Past the element's right edge the end point is clamped to its width.
    thrown := selector.OnMouseMove(900.0, 290.0, bounds);
    RunSnoc(Initial(), events, MouseMove(900.0, 290.0, bounds));
    events := events + [MouseMove(900.0, 290.0, bounds)];
    assert selector.endPoint == Some(Point(300.0, 90.0));
    assert selector.area == Some(Box(top := 10.0, left := 20.0, width := 290.0, height := 70.0));

    selector.OnMouseUp();
    RunSnoc(Initial(), events, MouseUp);
    events := events + [MouseUp];
    thrown := selector.OnMouseMove(120.0, 230.0, bounds);
    RunSnoc(Initial(), events, MouseMove(120.0, 230.0, bounds));
    events := events + [MouseMove(120.0, 230.0, bounds)];
    assert !thrown;
    assert selector.area == Some(Box(top := 10.0, left := 20.0, width := 290.0, height := 70.0));

    // A second gesture moves the start point but draws nothing more.
    selector.OnMouseDown(300.0, 500.0, bounds);
    RunSnoc(Initial(), events, MouseDown(300.0, 500.0, bounds));
    events := events + [MouseDown(300.0, 500.0, bounds)];
    thrown := selector.OnMouseMove(350.0, 550.0, bounds);
    RunSnoc(Initial(), events, MouseMove(350.0, 550.0, bounds));
    events := events + [MouseMove(350.0, 550.0, bounds)];
    assert selector.area == Some(Box(top := 10.0, left := 20.0, width := 290.0, height := 70.0));

    assert selector.State() == Run(Initial(), events);
  }
}
