# AreaSelector — a Dafny model of the drag-rectangle widget

`AreaSelector` attaches to one page element. It adds an overlay `div` to the element and listens for three pointer events:

- **mouse-down** on the element records the start point;
- **mousemove** on the window records the end point and redraws the overlay;
- **mouse-up** on the element unsubscribes the move listener.

Each pointer position arrives in viewport coordinates. It is made local to the element by subtracting the element's bounding-box corner, then clamped into `[0, width] × [0, height]`. The overlay's `top`, `left`, `width` and `height` come from the two points by min and absolute difference.

The project has three modules:

- `Geometry` (`geometry.dfy`): the pure part. `Clamp` is the per-axis rule. `LocalPoint` is `#getMousePositionInElement`. `AreaOf` gives the numbers `#updateArea` writes. `BoundingBox` is an independent reference for the box a drag sweeps out.
- `Gesture` (`gesture.dfy`): the selector's state as a value (`Snapshot`: start point, end point, overlay area, and whether the move listener is subscribed). `Step` handles one event and `Run` handles a sequence of events. The lemmas cover single events and whole event sequences.
- `AreaSelection` (`area_selector.dfy`): the class `AreaSelector`, with the same four fields. It has one method per handler plus `UpdateArea`. Each method states its new fields. The three handler methods follow `Gesture.Step` and `UpdateArea` follows `Gesture.Redraw`, so a sequence of handler calls follows `Gesture.Run`. `DragScenario` shows this for one concrete sequence: after the calls, `State() == Run(Initial(), events)`.

Coordinates are exact `real`s. The source re-reads the element's bounding rectangle at every mouse-down and mouse-move, so it is a parameter of those two events. Mouse-up does not read it.

Behaviour of the code that the model reproduces on purpose:

- **Swapped axes.** `#updateArea` takes `top` from the x coordinates and `left` from the y coordinates, while `width` and `height` use the matching axes. The overlay therefore has the dragged box's size, but its corner is mirrored across the diagonal (`AreaOf == SwapOrigin(BoundingBox)`). It is correct exactly when the smaller x equals the smaller y (`AreaOfCorrectIff`). From (10, 50) to (20, 60) it covers neither dragged point (`AreaOfMissesDraggedPoints`).
- **Clamp range.** The clamp uses the bounding box's `width`/`height`. It adds no scroll offset and does not round. An offset of exactly 0 gives 0. An offset of exactly `width` passes through.
- **Early subscription.** The move listener is subscribed by the constructor, not by mouse-down. A move before any mouse-down runs the handler, stores the end point, and then throws a `TypeError` when `#updateArea` reads `#startPoint.x`. The model reports this as `thrown` (`Gesture.Throws`) rather than excluding it.
- **No re-subscription.** Mouse-up removes the move listener and nothing adds it back. After the first mouse-up the overlay never changes again, though later mouse-downs still move the start point.
- **Mouse-down does not redraw.** A mouse-down while the move listener is subscribed moves the start point but leaves the overlay as the previous drag drew it, until the next move (`MouseDownSetsOnlyStart`). So `area` is not always `AreaOf(startPoint, endPoint)`.
- **The `#endpoint` typo.** The move handler at `AreaSelector.js:59` assigns `this.#endpoint`, a private name the class never declares. In JavaScript that is an early error, so the class as written does not load. The model follows the evident intent and assigns `#endPoint`.

## Model

| member | source | states |
|---|---|---|
| `Geometry.Clamp` | AreaSelector.js:34-44 | With a non-negative extent the result lies in `[0, extent]`. An offset in `(0, extent]` passes through unchanged. An offset `<= 0` gives 0. An offset above the extent gives the extent. |
| `Geometry.ClampIsNearest` | AreaSelector.js:34-44 | The clamped value is the point of `[0, extent]` nearest to the offset. |
| `Geometry.ClampIdempotent` | AreaSelector.js:34-44 | Clamping a clamped value changes nothing. |
| `Geometry.ClampMonotonic` | AreaSelector.js:34-44 | Clamping preserves the order of offsets. |
| `Geometry.LocalPoint` | AreaSelector.js:29-47 | For a bounding rectangle of non-negative size the local point lies in the element. In-range offsets from the element's corner pass through. Offsets `<= 0` give 0. Offsets past the width or height give the width or height. |
| `Geometry.LocalPointInside` | AreaSelector.js:32-46 | A pointer already inside the element is only translated by the element's corner. |
| `Geometry.LocalPointOnto` | AreaSelector.js:29-47 | Every point of the element is the local point of the pointer position at that offset from the element's corner. |
| `Geometry.BoundingBox` | AreaSelector.js:71-80 | Reference for the box a drag sweeps out, each coordinate on its own axis: non-negative size, covering both points. |
| `Geometry.BoundingBoxIsSmallest` | AreaSelector.js:71-80 | Every box covering both points contains the bounding box. |
| `Geometry.AreaOf` | AreaSelector.js:71-75 | The overlay numbers are the bounding box with `top` and `left` exchanged. Width and height are non-negative. `[top, top + width]` is exactly the span of the two x coordinates. `[left, left + height]` is exactly the span of the two y coordinates. `top + width == max x` and `left + height == max y`. |
| `Geometry.AreaOfSymmetric` | AreaSelector.js:72-75 | Exchanging start and end gives the identical area. |
| `Geometry.AreaOfSamePoint` | AreaSelector.js:72-75 | A zero-length drag gives a zero-size box at the mirrored point. |
| `Geometry.AreaOfCorrectIff` | AreaSelector.js:72-79 | The overlay equals the dragged bounding box if and only if the smaller x equals the smaller y. |
| `Geometry.AreaOfMissesDraggedPoints` | AreaSelector.js:72-79 | For a drag from (10, 50) to (20, 60) the overlay covers neither dragged point. |
| `Gesture.Initial` | AreaSelector.js:2-16 | The state the constructor leaves is valid: no points, no area, move listener subscribed. |
| `Gesture.Redraw` | AreaSelector.js:71-80 | Only the area can change. With both points present the area becomes `AreaOf(start, end)`; with either missing the state is unchanged (the throw). Validity is preserved. |
| `Gesture.Step` | AreaSelector.js:49-69 | After one event the listener is subscribed if and only if it was before and the event is not a mouse-up. A start point, once present or set by a mouse-down, is present. Only a mouse-down changes the start point. When unsubscribed, end point and area are unchanged. |
| `Gesture.Throws` | AreaSelector.js:59-72 | A throwing event is a move that leaves no start point. It has stored the end point and left the area unchanged. |
| `Gesture.Run` | AreaSelector.js:49-69 | No sequence of events turns an unsubscribed listener back on. The empty sequence changes nothing. |
| `Gesture.RunSnoc` | AreaSelector.js:49-69 | Events are handled in arrival order: one more event extends the run by one `Step`. |
| `Gesture.ThrowingMoveDrewNothing` | AreaSelector.js:56-75 | In a valid state, a move that throws runs while nothing has been drawn, and it draws nothing. |
| `Gesture.MouseDownSetsOnlyStart` | AreaSelector.js:49-54 | Mouse-down sets the start point to the local pointer position. End point, area and subscription are unchanged. |
| `Gesture.MouseMoveRedraws` | AreaSelector.js:56-63 | A subscribed move with a start point does not throw. It sets the end point and sets the area from start and new end. Nothing else changes. |
| `Gesture.MouseMoveBeforeMouseDown` | AreaSelector.js:56-75 | A subscribed move without a start point throws. The end point is already set, and the area is unchanged. |
| `Gesture.FirstMoveThrows` | AreaSelector.js:2-10 | Right after construction the move listener is subscribed and a move throws. |
| `Gesture.StepIdempotent` | AreaSelector.js:49-69 | Handling the same event twice equals handling it once. |
| `Gesture.StepValid` | AreaSelector.js:56-80 | Every event keeps the invariant: a drawn area implies both a start point and an end point exist, and its size is non-negative. The overlay is never drawn before a mouse-down. |
| `Gesture.SubscribedUntilMouseUp` | AreaSelector.js:56-69 | After any event sequence, the move listener is subscribed if and only if it was subscribed before and no mouse-up occurred. |
| `Gesture.UnsubscribedIsFinal` | AreaSelector.js:62-69 | Once unsubscribed, no event sequence changes the end point or the area, and the listener stays unsubscribed. |
| `Gesture.AfterMouseUpFrozen` | AreaSelector.js:65-69 | After a mouse-up, any later events leave end point and area as the mouse-up left them. |
| `Gesture.StartPointPersists` | AreaSelector.js:49-54 | No event clears a start point once set. |
| `Gesture.NoThrowAfterMouseDown` | AreaSelector.js:49-75 | Once a start point exists, no move in any later event sequence throws. |
| `Gesture.RunValid` | AreaSelector.js:49-80 | Every event sequence keeps the invariant of `StepValid`. |
| `Gesture.LastMoveDecides` | AreaSelector.js:56-80 | During a subscribed stretch of moves, the area after the last move is the area of the start point and that move's local point, whatever the earlier moves were. |
| `AreaSelection.AreaSelector.constructor` | AreaSelector.js:2-16 | No points and no area yet, and the move listener already subscribed: the state `Gesture.Initial()`. |
| `AreaSelection.AreaSelector.OnMouseDown` | AreaSelector.js:49-54 | Sets only the start point, to the local pointer position. Matches `Gesture.Step`. |
| `AreaSelection.AreaSelector.UpdateArea` | AreaSelector.js:71-80 | Throws if and only if a point is missing, and then leaves the area alone. Otherwise sets the area to `AreaOf(start, end)`. |
| `AreaSelection.AreaSelector.OnMouseMove` | AreaSelector.js:56-63 | When unsubscribed, nothing changes. When subscribed, stores the end point and redraws from the start point, or throws without redrawing when there is no start point. A move that throws leaves no overlay drawn. Matches `Gesture.Step`. |
| `AreaSelection.AreaSelector.OnMouseUp` | AreaSelector.js:65-69 | Unsubscribes the move listener and changes nothing else. Matches `Gesture.Step`. |

## Left out

- Creating and styling the overlay `div`, and setting the element to `position: relative` (AreaSelector.js:19-27): DOM work with no logic.
- The `'px'` string formatting of the style values (AreaSelector.js:76-79): only the numbers are modelled.
- `addEventListener`/`removeEventListener` mechanics: the move subscription is the boolean field `moveSubscribed`. The mouse-down and mouse-up listeners are never removed, so they are not state.
- `getBoundingClientRect` (AreaSelector.js:30): its `left`, `top`, `width`, `height` are a parameter of every mouse-down and mouse-move.
- Floating-point arithmetic: coordinates are exact reals, so rounding in the subtraction and NaN or infinite inputs are not modelled.
- The offset between the element's border box and the padding box that positions the overlay: the model treats both as the same origin.
- How a thrown `TypeError` propagates: the model returns `thrown` and keeps every state change made before the throw, as the event dispatcher would.
- Events that miss the element: a mouse-down or mouse-up whose target is neither the element nor one of its descendants never reaches its listeners. The overlay is one such descendant, and because of the axis swap it can lie outside the element's bounding box. The model's `OnMouseDown`/`OnMouseUp` stand for the events that do reach the listeners, wherever the pointer is; `OnMouseDown` accepts any coordinates and clamps them.
- script.js: page glue that builds one selector and logs. It passes `selectableTargetSelector`, `dataSetKeyForSelection` and `onSelectionChange`, but the constructor reads only `element`. The selector has no target intersection, no set of selected ids, no additive toggling, no auto-scroll and no selection callback, so none of these are modelled.
