/**
 * The press / move / release state machine of the canvas as pure
 * transitions over a snapshot of the node array and the grabbed node.
 * `current` is the index of the node the program holds as the currently
 * selected one; since nodes are never removed, an index names the same
 * node for the lifetime of the canvas.
 */
module Selection {

  import opened Wrappers
  import opened ControlPoints

  datatype Scene = Scene(nodes: seq<Node>, current: Option<nat>)

  /** The grabbed node, if any, is one of the nodes. */
  predicate InRange(s: Scene) {
    s.current.Some? ==> s.current.value < |s.nodes|
  }

  /**
   * The invariant the handlers keep: labels are dense, the reference is
   * valid, and a node whose flag is set is the grabbed node (so at most one
   * node is selected).
   */
  predicate Inv(s: Scene) {
    DenselyNumbered(s.nodes) &&
    InRange(s) &&
    forall k :: 0 <= k < |s.nodes| && s.nodes[k].selected ==> s.current == Some(k)
  }

  /** The positions and labels of the nodes, without their flags. */
  predicate SameGeometry(a: seq<Node>, b: seq<Node>) {
    |a| == |b| &&
    forall k :: 0 <= k < |a| ==> a[k].x == b[k].x && a[k].y == b[k].y && a[k].number == b[k].number
  }

  lemma AtMostOneSelected(s: Scene, j: nat, k: nat)
    requires Inv(s)
    requires j < |s.nodes| && k < |s.nodes|
    requires s.nodes[j].selected && s.nodes[k].selected
    ensures j == k
  {
  }

  /**
   * Pointer moved: the grabbed node, if there is one, follows the cursor,
   * whether or not its flag is still set.
   */
  function MouseMove(s: Scene, mouseX: real, mouseY: real): (r: Scene)
    requires InRange(s)
    ensures InRange(r) && r.current == s.current && |r.nodes| == |s.nodes|
    ensures forall k :: 0 <= k < |s.nodes| ==>
              r.nodes[k].selected == s.nodes[k].selected && r.nodes[k].number == s.nodes[k].number
    ensures forall k :: 0 <= k < |s.nodes| && s.current != Some(k) ==> r.nodes[k] == s.nodes[k]
    ensures s.current.Some? ==> r.nodes[s.current.value].x == mouseX && r.nodes[s.current.value].y == mouseY
    ensures Inv(s) ==> Inv(r)
  {
    match s.current
    case None => s
    case Some(i) => s.(nodes := s.nodes[i := s.nodes[i].(x := mouseX, y := mouseY)])
  }

  /** First step of a press: the grabbed node's flag is cleared if it is set. */
  function ClearGrabbed(s: Scene): (r: Scene)
    requires InRange(s)
  {
    match s.current
    case Some(i) =>
      if s.nodes[i].selected then s.(nodes := s.nodes[i := s.nodes[i].(selected := false)]) else s
    case None => s
  }

  /**
   * Button pressed: the grabbed node's flag is cleared; then a hit node
   * becomes the grabbed node with its flag set. A miss leaves the reference
   * as it was and never creates a node.
   */
  function MouseDown(s: Scene, mouseX: real, mouseY: real): (r: Scene)
    requires InRange(s)
    ensures InRange(r) && SameGeometry(r.nodes, s.nodes)
    ensures ClickedOnNode(s.nodes, mouseX, mouseY).Some? ==>
              r.current == ClickedOnNode(s.nodes, mouseX, mouseY) && r.nodes[r.current.value].selected
    ensures ClickedOnNode(s.nodes, mouseX, mouseY).None? ==> r.current == s.current
    ensures forall k :: 0 <= k < |s.nodes| && Some(k) != ClickedOnNode(s.nodes, mouseX, mouseY) ==>
              r.nodes[k].selected == (s.nodes[k].selected && s.current != Some(k))
    ensures Inv(s) ==> Inv(r)
  {
    var cleared := ClearGrabbed(s);
    match ClickedOnNode(cleared.nodes, mouseX, mouseY)
    case Some(t) => Scene(cleared.nodes[t := cleared.nodes[t].(selected := true)], Some(t))
    case None => cleared
  }

  /**
   * Button released. With no node grabbed, a node is appended at the cursor,
   * unselected and labelled with the new count. Independently, if the
   * grabbed node's flag is set it is cleared and the reference dropped; a
   * grabbed node whose flag is already clear keeps the reference.
   */
  function MouseUp(s: Scene, mouseX: real, mouseY: real): (r: Scene)
    requires InRange(s)
    ensures InRange(r)
    ensures s.current.None? ==>
              r.nodes == s.nodes + [Node(mouseX, mouseY, false, |s.nodes| + 1)] && r.current == None
    ensures s.current.Some? && s.nodes[s.current.value].selected ==>
              r.current == None && SameGeometry(r.nodes, s.nodes) &&
              (forall k :: 0 <= k < |s.nodes| ==> r.nodes[k].selected == (s.nodes[k].selected && s.current != Some(k)))
    ensures s.current.Some? && !s.nodes[s.current.value].selected ==> r == s
    ensures Inv(s) ==> Inv(r)
  {
    var created :=
      if s.current.None? then s.(nodes := s.nodes + [Node(mouseX, mouseY, false, |s.nodes| + 1)]) else s;
    match created.current
    case Some(i) =>
      if created.nodes[i].selected
      then Scene(created.nodes[i := created.nodes[i].(selected := false)], None)
      else created
    case None => created
  }

  /** Creating the first node on an empty canvas gives node 1, unselected, at the cursor. */
  lemma FirstNode(mouseX: real, mouseY: real)
    ensures MouseUp(Scene([], None), mouseX, mouseY) == Scene([Node(mouseX, mouseY, false, 1)], None)
    ensures Inv(MouseUp(Scene([], None), mouseX, mouseY))
  {
  }

  /**
   * A click on empty canvas with nothing grabbed creates exactly one node, at
   * the release position, and leaves every earlier node as it was.
   */
  lemma ClickOnEmptySpace(s: Scene, pressX: real, pressY: real, releaseX: real, releaseY: real)
    requires Inv(s) && s.current.None?
    requires ClickedOnNode(s.nodes, pressX, pressY).None?
    ensures MouseUp(MouseDown(s, pressX, pressY), releaseX, releaseY) ==
            Scene(s.nodes + [Node(releaseX, releaseY, false, |s.nodes| + 1)], None)
  {
  }

  /**
   * Press on a node, drag, release: the node ends at the last cursor
   * position, no node is created, nothing stays selected or grabbed, and
   * every other node keeps its position and label.
   */
  lemma DragSequence(s: Scene, k: nat, pressX: real, pressY: real, moveX: real, moveY: real,
                     releaseX: real, releaseY: real)
    requires Inv(s)
    requires ClickedOnNode(s.nodes, pressX, pressY) == Some(k)
    ensures var r := MouseUp(MouseMove(MouseDown(s, pressX, pressY), moveX, moveY), releaseX, releaseY);
            Inv(r) && r.current == None && |r.nodes| == |s.nodes| &&
            r.nodes[k] == Node(moveX, moveY, false, k + 1) &&
            forall j :: 0 <= j < |s.nodes| && j != k ==> r.nodes[j] == s.nodes[j].(selected := false)
  {
  }

  /**
   * The stale grab: a press that misses while a node is grabbed clears the
   * node's flag but keeps the reference; the following release then neither
   * creates a node nor drops the reference, and later moves still drag it.
   */
  lemma StaleGrab(s: Scene, i: nat, pressX: real, pressY: real, releaseX: real, releaseY: real,
                  moveX: real, moveY: real)
    requires Inv(s) && s.current == Some(i)
    requires ClickedOnNode(s.nodes, pressX, pressY).None?
    ensures var d := MouseDown(s, pressX, pressY);
            d.current == Some(i) && SameGeometry(d.nodes, s.nodes) &&
            (forall k :: 0 <= k < |d.nodes| ==> !d.nodes[k].selected) &&
            MouseUp(d, releaseX, releaseY) == d &&
            MouseMove(d, moveX, moveY).nodes[i] == Node(moveX, moveY, false, i + 1)
  {
  }

  /**
   * Once stale, a click that misses changes nothing at all: no node can be
   * created until a press hits a node and is released.
   */
  lemma StaleGrabSwallowsClicks(s: Scene, pressX: real, pressY: real, releaseX: real, releaseY: real)
    requires Inv(s) && s.current.Some? && !s.nodes[s.current.value].selected
    requires ClickedOnNode(s.nodes, pressX, pressY).None?
    ensures MouseUp(MouseDown(s, pressX, pressY), releaseX, releaseY) == s
  {
  }
}
