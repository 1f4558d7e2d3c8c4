# Control-point canvas of BezierCurves

This project models the interactive core of `index.js`. The user places control points ("nodes") on a canvas with the mouse and drags them about. The model also covers the straight control polygon drawn through the nodes. It has three parts:

- **Node store.** The node array holds records `{x, y, selected, number}`. A node is appended on a release when nothing is grabbed, and gets the label `nodes.length + 1`. Nodes are never removed.
- **Hit test.** `clickedOnNode` returns the first node, in array order, whose open square of half-width `nodeRadius = 7` contains the cursor.
- **Press / move / release state machine.** Its state is `currentSelected` (no node, or one node) plus each node's `selected` flag. The two display toggles sit beside it.

Modules:

- `Wrappers` (wrappers.dfy): `Option`, used for "undefined or a node".
- `ControlPoints` (control_points.dfy): the node record, the hit test, and the pairing of nodes into polygon segments. The pairing is given as written (via `nodes[node.number]`) and is proved equal to a reference polyline.
- `Selection` (selection.dfy): the three handlers as pure transitions on a `Scene` (the node array plus the grabbed index). It also holds the invariant they keep and the lemmas about handler sequences.
- `App` (canvas.dfy): class `Canvas`. It holds the program's global variables as fields. Its handler methods update those fields in place and are proved to perform the `Selection` transitions. `DrawLines` returns the strokes of the polygon.

Coordinates are `real`. The only arithmetic on them is `± 7` and strict comparisons. `currentSelected` is an index into the node array. Nodes are never removed, so an index always names the same node object.

The model keeps one odd transition exactly as the code has it. Suppose a node is grabbed and the button is released outside the canvas, so the canvas never sees the release. The next press that misses clears that node's flag but keeps the reference. The release after that neither creates a node nor drops the reference. Moves keep dragging the node, because `mousemove` tests only the reference and not the flag. From then on, no click on empty canvas creates a node until a press hits a node and is released (`Selection.StaleGrab`, `Selection.StaleGrabSwallowsClicks`).

## Model

| member | source | states |
|---|---|---|
| ControlPoints.FindFrom | index.js:124-131 | the search from index i returns the first index at or after i whose open hit-box contains the cursor; it returns None exactly when no node from i on is hit |
| ControlPoints.ClickedOnNode | index.js:124-131 | the result is the first node in array order whose hit-box contains the cursor strictly on all four sides; it is None if and only if no node's hit-box does |
| ControlPoints.BorderNeverHits | index.js:13 | a cursor exactly on any edge of node k's box (x or y at ±7) is never reported as a hit on node k |
| ControlPoints.EarliestNodeWins | index.js:125-130 | where hit-boxes overlap, the hit test returns a node no later than the earliest one hit, never a later one |
| ControlPoints.Polyline | index.js:83-89 | the reference control polygon has one segment per adjacent pair of nodes: length minus one segments, none for an empty array |
| ControlPoints.PairingIsPrefix | index.js:84-85 | with dense labels, the strokes the loop has emitted after n nodes join node k to node k+1 for each k; only the last node emits nothing |
| ControlPoints.LineSegmentsArePolyline | index.js:83-89 | with dense labels, the lookup `nodes[node.number]` always finds the next node, so the loop draws exactly the polygon through the nodes in order, with length minus one segments |
| Selection.AtMostOneSelected | index.js:156-164 | under the handlers' invariant, two selected nodes are the same node |
| Selection.MouseMove | index.js:141-150 | with a node grabbed, only that node's x and y change, to the cursor, even if its flag is clear; with none grabbed nothing changes; the count, labels, flags and reference never change; the invariant is kept |
| Selection.MouseDown | index.js:152-167 | the grabbed node's flag is cleared; on a hit, the hit node becomes the grabbed node with its flag set; on a miss, the reference is unchanged; no node is added or moved; the invariant is kept |
| Selection.MouseUp | index.js:169-194 | with nothing grabbed, exactly one node is appended at the cursor, unselected, labelled old count plus one, and earlier nodes are untouched; a grabbed node with its flag set is unflagged and released; a grabbed node with its flag clear leaves the state unchanged; the invariant is kept |
| Selection.FirstNode | index.js:172-183 | a release on an empty canvas creates node 1 at the cursor, unselected, with nothing grabbed |
| Selection.ClickOnEmptySpace | index.js:152-194 | a press that misses then a release, with nothing grabbed, appends one node at the release position and leaves the earlier nodes unchanged |
| Selection.DragSequence | index.js:141-194 | press on node k, move, release: node k ends at the move position, unselected; no node is created; nothing stays grabbed; the other nodes keep their positions and labels and are unselected |
| Selection.StaleGrab | index.js:152-194 | a press that misses while node i is grabbed clears every flag but keeps the reference to i; the next release changes nothing; a move still drags node i |
| Selection.StaleGrabSwallowsClicks | index.js:156-158 | while the grabbed node's flag is clear, a press-release that misses every node leaves the whole state unchanged, so no node is created |
| App.Canvas.constructor | index.js:34-41 | initial state: no nodes, nothing grabbed, lines and nodes displayed |
| App.Canvas.ToggleLines | index.js:53-56 | flips `displayLines`; nodes, reference and the other toggle are unchanged |
| App.Canvas.ToggleNodes | index.js:57-60 | flips `displayNodes`; nodes, reference and the other toggle are unchanged |
| App.ToggleTwiceRestores | index.js:53-60 | applying either toggle twice restores it and leaves the node data untouched |
| App.Canvas.MouseMove | index.js:141-150 | the in-place update performs `Selection.MouseMove` on the state, keeps the invariant and leaves the toggles alone |
| App.Canvas.MouseDown | index.js:152-167 | the in-place update performs `Selection.MouseDown`, keeps the invariant and leaves the toggles alone |
| App.Canvas.MouseUp | index.js:169-194 | the in-place update performs `Selection.MouseUp`, keeps the invariant and leaves the toggles alone |
| App.Canvas.DrawLines | index.js:75-92 | with lines hidden, no strokes; otherwise the strokes the per-node loop emits, which are exactly the polygon through the nodes in array order |

## Left out

- Canvas drawing: `ctx` paths, arcs, fills, fonts, colours, `clearRect` and the node labels drawn by `drawNodes` (index.js:94-120). These are rendering primitives with no result to state beyond the segment list that `DrawLines` returns.
- The `drawNodes()` redraw calls inside each handler and toggle. They only repaint and change no modelled state.
- `resizeCanvas` and `getMousePosition` (window and DOM geometry). Handler inputs are taken to be canvas-local coordinates already.
- The `addEventListener` wiring. Each handler is a method taking the cursor position.
- Object identity of nodes. The JavaScript holds `currentSelected` as a reference to a node object. The model holds an index into the node array, which names the same node because nodes are never removed.
- Floating-point behaviour. Coordinates are exact reals; the code only assigns and compares them.
- Curve evaluation (Bezier or B-spline), a colour picker and a clear-all command. `index.js` has none of these; the files that would hold them are not part of this model.
