/**
 * The control-point records of the canvas, the hit test that finds the node
 * under the cursor, and the pairing of consecutive nodes into the straight
 * segments of the control polygon.
 */
module ControlPoints {

  import opened Wrappers

  /** Half-width of a node's square hit-box (and radius of its drawn circle). */
  const NodeRadius: real := 7.0

  /**
   * One control point. `number` is the 1-based label given when the node is
   * created; `selected` is set while the node is grabbed.
   */
  datatype Node = Node(x: real, y: real, selected: bool, number: nat)

  datatype Point = Point(x: real, y: real)

  /** A straight stroke from one node's centre to another's. */
  datatype Segment = Segment(from: Point, to: Point)

  function Centre(n: Node): Point {
    Point(n.x, n.y)
  }

  /** The cursor lies strictly inside the node's square hit-box: edges never hit. */
  predicate InHitBox(n: Node, mouseX: real, mouseY: real) {
    mouseX > n.x - NodeRadius &&
    mouseX < n.x + NodeRadius &&
    mouseY > n.y - NodeRadius &&
    mouseY < n.y + NodeRadius
  }

  /** The array search that `find` performs, from index `i` onward. */
  function FindFrom(nodes: seq<Node>, mouseX: real, mouseY: real, i: nat): (r: Option<nat>)
    requires i <= |nodes|
    ensures r.Some? ==> i <= r.value < |nodes| && InHitBox(nodes[r.value], mouseX, mouseY)
    ensures r.Some? ==> forall k :: i <= k < r.value ==> !InHitBox(nodes[k], mouseX, mouseY)
    ensures r.None? <==> forall k :: i <= k < |nodes| ==> !InHitBox(nodes[k], mouseX, mouseY)
    decreases |nodes| - i
  {
    if i == |nodes| then None
    else if InHitBox(nodes[i], mouseX, mouseY) then Some(i)
    else FindFrom(nodes, mouseX, mouseY, i + 1)
  }

  /**
   * The index of the first node, in array order, whose hit-box contains the
   * cursor, or None when no node's hit-box does.
   */
  function ClickedOnNode(nodes: seq<Node>, mouseX: real, mouseY: real): (r: Option<nat>)
    ensures r.Some? ==> r.value < |nodes| && InHitBox(nodes[r.value], mouseX, mouseY)
    ensures r.Some? ==> forall k :: 0 <= k < r.value ==> !InHitBox(nodes[k], mouseX, mouseY)
    ensures r.None? <==> forall k :: 0 <= k < |nodes| ==> !InHitBox(nodes[k], mouseX, mouseY)
  {
    FindFrom(nodes, mouseX, mouseY, 0)
  }

  /** A cursor on the border of a node's hit-box is never a hit on that node. */
  lemma BorderNeverHits(nodes: seq<Node>, k: nat, mouseX: real, mouseY: real)
    requires k < |nodes|
    requires mouseX == nodes[k].x - NodeRadius || mouseX == nodes[k].x + NodeRadius ||
             mouseY == nodes[k].y - NodeRadius || mouseY == nodes[k].y + NodeRadius
    ensures ClickedOnNode(nodes, mouseX, mouseY) != Some(k)
  {
  }

  /** Where hit-boxes overlap, the earliest node wins. */
  lemma EarliestNodeWins(nodes: seq<Node>, j: nat, k: nat, mouseX: real, mouseY: real)
    requires j < k < |nodes|
    requires InHitBox(nodes[j], mouseX, mouseY)
    ensures ClickedOnNode(nodes, mouseX, mouseY) != Some(k)
    ensures ClickedOnNode(nodes, mouseX, mouseY).Some?
    ensures ClickedOnNode(nodes, mouseX, mouseY).value <= j
  {
  }

  /** Node `k` carries the label `k + 1`, for every node. */
  predicate DenselyNumbered(nodes: seq<Node>) {
    forall k :: 0 <= k < |nodes| ==> nodes[k].number == k + 1
  }

  /** Every label is usable as an index of the following node, or is the last one. */
  predicate NumbersInRange(nodes: seq<Node>) {
    forall k :: 0 <= k < |nodes| ==> nodes[k].number <= |nodes|
  }

  /**
   * The stroke the polygon-drawing loop emits for one node: from the node to
   * `nodes[node.number]`, unless the node's label equals the node count.
   */
  function SegmentOf(nodes: seq<Node>, node: Node): seq<Segment>
    requires node.number <= |nodes|
  {
    if node.number != |nodes| then [Segment(Centre(node), Centre(nodes[node.number]))] else []
  }

  /** The strokes emitted for the first `n` nodes, in array order. */
  function Pairing(nodes: seq<Node>, n: nat): seq<Segment>
    requires n <= |nodes| && NumbersInRange(nodes)
  {
    if n == 0 then [] else Pairing(nodes, n - 1) + SegmentOf(nodes, nodes[n - 1])
  }

  /** All strokes of the control polygon, as the drawing loop produces them. */
  function LineSegments(nodes: seq<Node>): seq<Segment>
    requires NumbersInRange(nodes)
  {
    Pairing(nodes, |nodes|)
  }

  /** Reference definition: one segment between each pair of adjacent nodes. */
  function Polyline(nodes: seq<Node>): (r: seq<Segment>)
    ensures |r| == if |nodes| == 0 then 0 else |nodes| - 1
  {
    if |nodes| == 0 then []
    else seq(|nodes| - 1, k requires 0 <= k < |nodes| - 1 => Segment(Centre(nodes[k]), Centre(nodes[k + 1])))
  }

  lemma DenseNumbersInRange(nodes: seq<Node>)
    requires DenselyNumbered(nodes)
    ensures NumbersInRange(nodes)
  {
  }

  /**
   * With dense labels, the first `n` strokes join node k to node k + 1, and
   * only the last node contributes nothing.
   */
  lemma {:induction false} PairingIsPrefix(nodes: seq<Node>, n: nat)
    requires DenselyNumbered(nodes) && NumbersInRange(nodes) && n <= |nodes|
    ensures |Pairing(nodes, n)| == if n == |nodes| && n > 0 then n - 1 else n
    ensures forall k :: 0 <= k < |Pairing(nodes, n)| ==>
              Pairing(nodes, n)[k] == Segment(Centre(nodes[k]), Centre(nodes[k + 1]))
  {
    if n > 0 {
      PairingIsPrefix(nodes, n - 1);
    }
  }

  /**
   * The label lookup `nodes[node.number]` always reaches the next node, so
   * the drawing loop yields exactly the polygon through the nodes in order:
   * `|nodes| - 1` segments, none for fewer than two nodes.
   */
  lemma LineSegmentsArePolyline(nodes: seq<Node>)
    requires DenselyNumbered(nodes)
    ensures NumbersInRange(nodes)
    ensures LineSegments(nodes) == Polyline(nodes)
    ensures |LineSegments(nodes)| == if |nodes| == 0 then 0 else |nodes| - 1
  {
    PairingIsPrefix(nodes, |nodes|);
  }
}
