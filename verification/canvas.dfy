/**
 * The program's global state as one object: the node array, the node held
 * as currently selected, and the two display toggles. The mouse handlers
 * update it in place; each is proved to perform the corresponding pure
 * transition of module Selection.
 */
module App {

  import opened Wrappers
  import opened ControlPoints
  import Selection

  class Canvas {
    var nodes: seq<Node>
    var currentSelected: Option<nat>
    var displayLines: bool
    var displayNodes: bool

    /** The part of the state the mouse handlers work on. */
    function Snapshot(): Selection.Scene
      reads this
    {
      Selection.Scene(nodes, currentSelected)
    }

    ghost predicate Valid()
      reads this
    {
      Selection.Inv(Snapshot())
    }

    /** Page load: no nodes, nothing grabbed, lines and nodes displayed. */
    constructor ()
      ensures Valid()
      ensures nodes == [] && currentSelected == None && displayLines && displayNodes
    {
      nodes := [];
      currentSelected := None;
      displayLines := true;
      displayNodes := true;
    }

    /** Flips the polygon toggle and nothing else. */
    method ToggleLines()
      modifies this
      ensures displayLines == !old(displayLines)
      ensures nodes == old(nodes) && currentSelected == old(currentSelected) && displayNodes == old(displayNodes)
    {
      displayLines := !displayLines;
    }

    /** Flips the node toggle and nothing else. */
    method ToggleNodes()
      modifies this
      ensures displayNodes == !old(displayNodes)
      ensures nodes == old(nodes) && currentSelected == old(currentSelected) && displayLines == old(displayLines)
    {
      displayNodes := !displayNodes;
    }

    method MouseMove(mouseX: real, mouseY: real)
      requires Valid()
      modifies this
      ensures Valid()
      ensures Snapshot() == Selection.MouseMove(old(Snapshot()), mouseX, mouseY)
      ensures displayLines == old(displayLines) && displayNodes == old(displayNodes)
    {
      if currentSelected.Some? {
        var i := currentSelected.value;
        nodes := nodes[i := nodes[i].(x := mouseX)];
        nodes := nodes[i := nodes[i].(y := mouseY)];
      }
    }

    method MouseDown(mouseX: real, mouseY: real)
      requires Valid()
      modifies this
      ensures Valid()
      ensures Snapshot() == Selection.MouseDown(old(Snapshot()), mouseX, mouseY)
      ensures displayLines == old(displayLines) && displayNodes == old(displayNodes)
    {
      if currentSelected.Some? && nodes[currentSelected.value].selected {
        var i := currentSelected.value;
        nodes := nodes[i := nodes[i].(selected := false)];
      }
      var clickedTarget := ClickedOnNode(nodes, mouseX, mouseY);
      if clickedTarget.Some? {
        currentSelected := clickedTarget;
        var t := clickedTarget.value;
        nodes := nodes[t := nodes[t].(selected := true)];
      }
    }

    method MouseUp(mouseX: real, mouseY: real)
      requires Valid()
      modifies this
      ensures Valid()
      ensures Snapshot() == Selection.MouseUp(old(Snapshot()), mouseX, mouseY)
      ensures displayLines == old(displayLines) && displayNodes == old(displayNodes)
    {
      if currentSelected.None? {
        var newNode := Node(mouseX, mouseY, false, |nodes| + 1);
        nodes := nodes + [newNode];
      }
      if currentSelected.Some? && nodes[currentSelected.value].selected {
        var i := currentSelected.value;
        nodes := nodes[i := nodes[i].(selected := false)];
        currentSelected := None;
      }
    }

    /**
     * The strokes of the control polygon on a redraw: none when lines are
     * hidden, otherwise one from each node to the node its label indexes,
     * which is the next node, for every node but the last.
     */
    method DrawLines() returns (segments: seq<Segment>)
      requires Valid()
      ensures NumbersInRange(nodes)
      ensures segments == if displayLines then LineSegments(nodes) else []
      ensures displayLines ==> segments == Polyline(nodes)
    {
      DenseNumbersInRange(nodes);
      segments := [];
      if !displayLines {
        return;
      }
      var i := 0;
      while i < |nodes|
        invariant 0 <= i <= |nodes|
        invariant segments == Pairing(nodes, i)
      {
        var node := nodes[i];
        if node.number != |nodes| {
          var nextNode := nodes[node.number];
          segments := segments + [Segment(Point(node.x, node.y), Point(nextNode.x, nextNode.y))];
        }
        i := i + 1;
      }
      LineSegmentsArePolyline(nodes);
    }
  }

  /** Toggling either display flag twice restores it and never touches the nodes. */
  method ToggleTwiceRestores(c: Canvas)
    modifies c
    ensures c.displayLines == old(c.displayLines) && c.displayNodes == old(c.displayNodes)
    ensures c.nodes == old(c.nodes) && c.currentSelected == old(c.currentSelected)
  {
    c.ToggleLines();
    c.ToggleLines();
    c.ToggleNodes();
    c.ToggleNodes();
  }

  /** A session from page load: click twice on empty canvas, then drag node 1. */
  method Session(x1: real, y1: real, x2: real, y2: real, mx: real, my: real)
    requires x2 >= x1 + 2.0 * NodeRadius
  {
    var c := new Canvas();
    c.MouseDown(x1, y1);
    c.MouseUp(x1, y1);
    c.MouseDown(x2, y2);
    c.MouseUp(x2, y2);
    assert c.nodes == [Node(x1, y1, false, 1), Node(x2, y2, false, 2)];
    var lines := c.DrawLines();
    assert lines == [Segment(Point(x1, y1), Point(x2, y2))];
    c.MouseDown(x1, y1);
    c.MouseMove(mx, my);
    c.MouseUp(mx, my);
    assert c.nodes == [Node(mx, my, false, 1), Node(x2, y2, false, 2)] && c.currentSelected == None;
  }
}
