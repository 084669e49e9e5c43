# Bezier curve visualiser: the point-editing session in Dafny

The visualiser keeps one editing session. The session holds an ordered list of control points and, optionally, the point being dragged. Four pointer handlers change it:

- a click drops the dragged point, or appends a new point;
- mouse-down picks up the first highlighted (red) point;
- the context menu deletes the dragged point;
- mouse-move either drags the held point or recolours every point with a strict 20 by 20 hit-test.

Each tick, the render loop draws every point with its 1-based number. It also joins consecutive curve samples into line segments.

This project models that core. It covers:

- the session and its handlers (`editor.dfy`, module `Editor`);
- the two computing parts of the render tick (`render.dfy`, module `Render`): the numbered marks and the segment pairing;
- three event sequences checked against the handlers' contracts alone (`scenarios.dfy`, module `Scenarios`). These are a drag round trip, a context menu over a point that is only hovered, and the removal of a dragged point.

Points are objects of class `Editor.Point`, with mutable `x`, `y` and `color` fields. Identity matters in two places: a drag moves the very object held in the list, and removal filters by reference. The session is class `Editor.Session`. It has fields `points: seq<Point>` and `activePoint: Point?`. Its invariant `Valid()` says that the dragged point, when there is one, is an element of the list. Every handler requires and re-establishes it. `View()` gives the values `(x, y, color)` of the listed points in order. The handlers' contracts state the new state through `View()`, the list of objects and `activePoint`.

`Distinct(points)` (no object listed twice) is kept apart from `Valid()`, because `addPoint` itself accepts any object. Every click passes a freshly allocated point, so each handler preserves `Distinct`. Under `Distinct`, the context menu removes exactly the dragged point's slot, and nothing when no point is dragged.

Behaviour of the code worth knowing:

- The context menu computes "the dragged point, else the first red point" in a local variable (script.js:83) and never uses it. The filter compares against `state.activePoint`, so with nothing dragged the list is unchanged, even when a point is hovered. `Scenarios.HoverOnlyContextMenuScenario` shows this. It holds of the handler on its own, as each handler is modelled here. In a browser, a right-click also fires mousedown first, and `onmousedown` (script.js:72-80) does not check the button. So the first red point in list order becomes the dragged point, and the context menu then filters it out.
- The hover pass colours each point on its own (script.js:99-106). No point wins over another: any number of overlapping points can be red at once.
- Removal drops every occurrence of the dragged object, not only the first one (`filter`, script.js:85).
- `onmousedown` ignores the pointer coordinates, so `OnMouseDown` takes none.

## Model

| member | source | states |
|---|---|---|
| `Editor.Point.constructor` | script.js:66-69 | a clicked point starts at the pointer position with no colour |
| `Editor.Session.constructor` | script.js:13-15 | the session starts with an empty list and nothing dragged; the invariant and distinctness hold |
| `Editor.Session.AddPoint` | script.js:41-43 | the list becomes the old list followed by the given point; the dragged point is unchanged and stays listed; the list is still free of repeats iff the point was not already listed |
| `Editor.Session.OnClick` | script.js:59-70 | while dragging: the drag ends and the list and every point's value are unchanged. Otherwise: exactly one fresh point is appended, with value (x, y, unset), after the unchanged earlier objects and values; nothing is dragged. The invariant and distinctness are preserved |
| `Editor.Session.OnMouseDown` | script.js:72-80 | the list and all values are unchanged; the dragged point becomes the list element at the first red position; if no point is red, the dragged point is unchanged |
| `Editor.Session.OnContextMenu` | script.js:82-90 | the new list is the old one filtered of the dragged object; nothing is dragged afterwards; the remaining points keep their values; with nothing dragged, the list is unchanged; in a repeat-free list, exactly the dragged slot goes and the rest keep their order |
| `Editor.Session.OnMouseMove` | script.js:92-109 | while dragging: the dragged object's coordinates become the pointer's, every other value and every colour is unchanged, and the cursor is left alone. Otherwise: each point keeps its position and becomes red iff the pointer is strictly inside its 20 by 20 box, else black; the cursor is "pointer" iff some point is red, iff the pointer hits some point |
| `Editor.HoverColor` | script.js:100-105 | the colour is red exactly when the strict hit-test holds, and is never unset |
| `Editor.FirstRed` | script.js:73 | `find` by colour: the index found is red and no earlier point is red; nothing is found iff no point is red |
| `Editor.Without` | script.js:85 | filtering never lengthens the list |
| `Editor.WithoutMembers` | script.js:85 | an object is in the filtered list iff it was in the list and is not the removed object |
| `Editor.WithoutAbsent` | script.js:85 | filtering out an object that is not listed leaves the list unchanged |
| `Editor.WithoutDistinct` | script.js:85 | in a repeat-free list, filtering out the element at k gives the list with slot k cut out: one shorter, order kept, still repeat-free |
| `Render.Fill` | script.js:22 | a point with no colour is drawn black; it is drawn red iff it is red |
| `Render.MarksAt` | script.js:21-23 | the mark for list position i is the point's square, drawn at its position, with the number i + 1 |
| `Render.ClickThenDisplay` | script.js:20-25 | a click with nothing dragged, followed by drawing the points: every earlier mark is drawn unchanged, and the new point is drawn last, black, at the click position, with the number equal to the new length of the list |
| `Render.DisplayPoints` | script.js:20-25 | the loop draws one mark per listed point, equal to the marks of the session's view |
| `Render.PairSegments` | script.js:148-155 | from m >= 1 samples there are m - 1 segments, and segment i is (sample i, sample i + 1); from no samples there are none |
| `Render.JointsOfSegments` | script.js:148-157 | from any number of samples other than one, the vertices of the drawn polyline are exactly the samples, in order |

## Left out

- Canvas and DOM I/O: element lookup, context styling, `fillRect`, `drawLine`, `clearRect` and `fillText`. `Render.DisplayPoints` returns the marks it would draw instead of drawing them.
- The `setInterval` render loop and its task list: this is timer scheduling. The one guard in it, that the curve is drawn only when the list is non-empty, is not modelled.
- Translation from screen to canvas coordinates: handlers take canvas-local coordinates. Browser pointer coordinates are fractional numbers; here they are `int`.
- `preventDefault` in the context-menu handler. Writing `canvas.style.cursor` is kept only as the `Cursor` value that `OnMouseMove` returns (`None` when the handler leaves the cursor alone).
- The Bernstein-sum sampling in `drawBezierCurve`: floating-point numerics with `Math.pow`, where the `t += 0.01` accumulation makes the number of samples depend on rounding. `PairSegments` is generic in the sample type and makes no claim about how many samples there are.
- The browser's ordering of mousedown, mouseup and click. Each handler is an independent operation on the session.
