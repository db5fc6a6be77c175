/** The chatbot flow as values: nodes, edges and the rules the flow builder
    applies to them when a connection is drawn, a node is dropped, a node's
    payload is edited and the flow is saved. */
module FlowGraph {
  import opened Wrappers
  import NodeIds

  /** Where the canvas put a node; carried through unchanged. */
  datatype Position = Position(x: real, y: real)

  /** A node's `data` object: field name to value (the text node has `label`). */
  type Payload = map<string, string>

  datatype Node = Node(
    id: string,
    nodeType: Option<string>,
    position: Position,
    data: Payload,
    selected: Option<bool>)

  datatype Edge = Edge(
    id: string,
    source: string,
    target: string,
    sourceHandle: Option<string>,
    targetHandle: Option<string>,
    edgeType: Option<string>,
    animated: Option<bool>,
    edgeLabel: Option<string>)

  /** A connection the canvas asks to add. */
  datatype Connection = Connection(
    source: string,
    target: string,
    sourceHandle: Option<string>,
    targetHandle: Option<string>)

  /** What the user is told after a connection attempt. */
  datatype ConnectResult = Connected | ConnectionLimit

  /** What the user is told after pressing save. */
  datatype SaveResult = Saved | ValidationError

  /** The status badge in the corner of the canvas. */
  datatype Indicator = Hidden | FlowIsValid | FlowHasErrors

  // ---------------------------------------------------------------------
  // Connection admission

  /** Some edge already leaves `c`'s source node through `c`'s source handle. */
  predicate SourceHandleTaken(edges: seq<Edge>, c: Connection) {
    exists i :: 0 <= i < |edges| && edges[i].source == c.source && edges[i].sourceHandle == c.sourceHandle
  }

  /** The edge recorded for an accepted connection; `id` is the one the
      graph library assigns. */
  function EdgeFor(c: Connection, id: string): Edge {
    Edge(id, c.source, c.target, c.sourceHandle, c.targetHandle, None, None, None)
  }

  /** The edge list after a connection attempt. */
  function Connect(edges: seq<Edge>, c: Connection, id: string): seq<Edge> {
    if SourceHandleTaken(edges, c) then edges else edges + [EdgeFor(c, id)]
  }

  /** At most one edge per (source, source handle) pair. */
  ghost predicate OneEdgePerSourceHandle(edges: seq<Edge>) {
    forall i, j :: 0 <= i < j < |edges| ==>
      !(edges[i].source == edges[j].source && edges[i].sourceHandle == edges[j].sourceHandle)
  }

  /** A connection is refused, and the edges stay as they were, exactly when
      its source handle is already in use; otherwise exactly one edge
      carrying its endpoints and handles is added after all earlier ones. */
  lemma ConnectAdmission(edges: seq<Edge>, c: Connection, id: string)
    ensures Connect(edges, c, id) == edges <==> SourceHandleTaken(edges, c)
    ensures !SourceHandleTaken(edges, c) ==>
      var r := Connect(edges, c, id);
      |r| == |edges| + 1 && r[..|edges|] == edges &&
      r[|edges|].source == c.source && r[|edges|].target == c.target &&
      r[|edges|].sourceHandle == c.sourceHandle && r[|edges|].targetHandle == c.targetHandle
  {
  }

  /** After any attempt the source handle is in use, so the same connection
      drawn again is refused: connecting is idempotent. */
  lemma ConnectIdempotent(edges: seq<Edge>, c: Connection, id1: string, id2: string)
    ensures SourceHandleTaken(Connect(edges, c, id1), c)
    ensures Connect(Connect(edges, c, id1), c, id2) == Connect(edges, c, id1)
  {
    if !SourceHandleTaken(edges, c) {
      var r := Connect(edges, c, id1);
      assert r[|edges|].source == c.source && r[|edges|].sourceHandle == c.sourceHandle;
    }
  }

  /** Admission keeps at most one edge per source handle. */
  lemma ConnectKeepsOneEdgePerSourceHandle(edges: seq<Edge>, c: Connection, id: string)
    requires OneEdgePerSourceHandle(edges)
    ensures OneEdgePerSourceHandle(Connect(edges, c, id))
  {
  }

  /** The edge list after a series of connection attempts, each with the id
      the library would give its edge. */
  function ConnectAll(edges: seq<Edge>, attempts: seq<(Connection, string)>): seq<Edge>
    decreases |attempts|
  {
    if attempts == [] then edges
    else ConnectAll(Connect(edges, attempts[0].0, attempts[0].1), attempts[1..])
  }

  lemma {:induction false} ConnectAllKeepsOneEdgePerSourceHandle(edges: seq<Edge>, attempts: seq<(Connection, string)>)
    requires OneEdgePerSourceHandle(edges)
    ensures OneEdgePerSourceHandle(ConnectAll(edges, attempts))
    decreases |attempts|
  {
    if attempts != [] {
      ConnectKeepsOneEdgePerSourceHandle(edges, attempts[0].0, attempts[0].1);
      ConnectAllKeepsOneEdgePerSourceHandle(Connect(edges, attempts[0].0, attempts[0].1), attempts[1..]);
    }
  }

  /** From the initially empty edge list, no sequence of connection attempts
      ever yields two edges out of the same source handle. */
  lemma ConnectionsFromEmptyFlow(attempts: seq<(Connection, string)>)
    ensures OneEdgePerSourceHandle(ConnectAll([], attempts))
  {
    ConnectAllKeepsOneEdgePerSourceHandle([], attempts);
  }

  // ---------------------------------------------------------------------
  // Node instantiation

  const DefaultLabel: string := "New message"

  /** The node a drop of type tag `kind` at time `now` creates. */
  function NewNode(kind: string, now: nat, pos: Position): Node {
    Node(NodeIds.NodeId(kind, now), Some(kind), pos, map["label" := DefaultLabel], None)
  }

  /** The node list after a drop. Nothing happens when the dragged type tag
      is empty or the canvas is not ready (no flow instance or wrapper). */
  function Drop(nodes: seq<Node>, kind: string, canvasReady: bool, now: nat, pos: Position): seq<Node> {
    if kind == "" || !canvasReady then nodes else nodes + [NewNode(kind, now, pos)]
  }

  /** A drop either leaves the nodes alone (empty type tag, canvas not
      ready) or appends exactly one node, after the untouched earlier ones,
      whose id names its type and time, whose type is the tag, whose
      position is the drop point and whose only payload is the default
      label. */
  lemma DropAppendsOneNode(nodes: seq<Node>, kind: string, canvasReady: bool, now: nat, pos: Position)
    ensures kind == "" || !canvasReady ==> Drop(nodes, kind, canvasReady, now, pos) == nodes
    ensures kind != "" && canvasReady ==>
      var r := Drop(nodes, kind, canvasReady, now, pos);
      |r| == |nodes| + 1 && r[..|nodes|] == nodes &&
      r[|nodes|].id == NodeIds.NodeId(kind, now) &&
      NodeIds.SplitNodeId(r[|nodes|].id) == Some((kind, now)) &&
      r[|nodes|].nodeType == Some(kind) && r[|nodes|].position == pos &&
      r[|nodes|].data.Keys == {"label"} && r[|nodes|].data["label"] == "New message"
  {
    NodeIds.NodeIdRoundTrip(kind, now);
    if kind != "" && canvasReady {
      var r := Drop(nodes, kind, canvasReady, now, pos);
      assert r[..|nodes|] == nodes;
    }
  }

  // ---------------------------------------------------------------------
  // Payload update

  /** Shallow object merge `{ ...base, ...patch }`: the patch's fields win. */
  function Merge(base: Payload, patch: Payload): (r: Payload)
    ensures r.Keys == base.Keys + patch.Keys
    ensures forall k :: k in patch ==> r[k] == patch[k]
    ensures forall k :: k in base && k !in patch ==> r[k] == base[k]
  {
    base + patch
  }

  /** The nodes after an edit of node `id`'s payload. */
  function UpdateNodeData(nodes: seq<Node>, id: string, patch: Payload): (r: seq<Node>)
    ensures |r| == |nodes|
    ensures forall i :: 0 <= i < |nodes| && nodes[i].id != id ==> r[i] == nodes[i]
    ensures forall i :: 0 <= i < |nodes| && nodes[i].id == id ==> r[i] == nodes[i].(data := Merge(nodes[i].data, patch))
  {
    if nodes == [] then []
    else
      var first := if nodes[0].id == id then nodes[0].(data := Merge(nodes[0].data, patch)) else nodes[0];
      [first] + UpdateNodeData(nodes[1..], id, patch)
  }

  /** An id that names no node changes nothing. */
  lemma UpdateUnknownId(nodes: seq<Node>, id: string, patch: Payload)
    requires forall i :: 0 <= i < |nodes| ==> nodes[i].id != id
    ensures UpdateNodeData(nodes, id, patch) == nodes
  {
  }

  /** Applying the same edit twice is the same as applying it once. */
  lemma UpdateIdempotent(nodes: seq<Node>, id: string, patch: Payload)
    ensures UpdateNodeData(UpdateNodeData(nodes, id, patch), id, patch) == UpdateNodeData(nodes, id, patch)
  {
    var once := UpdateNodeData(nodes, id, patch);
    var twice := UpdateNodeData(once, id, patch);
    forall i | 0 <= i < |nodes|
      ensures twice[i] == once[i]
    {
      if nodes[i].id == id {
        assert Merge(Merge(nodes[i].data, patch), patch) == Merge(nodes[i].data, patch);
      }
    }
  }

  // ---------------------------------------------------------------------
  // Save-time validation and the status indicator

  /** Some edge ends at the node with this id. */
  predicate HasIncoming(edges: seq<Edge>, id: string) {
    exists i :: 0 <= i < |edges| && edges[i].target == id
  }

  /** The nodes with no incoming edge, in node order. */
  function WithoutIncoming(nodes: seq<Node>, edges: seq<Edge>): (r: seq<Node>)
    ensures |r| <= |nodes|
    ensures forall n :: n in r <==> n in nodes && !HasIncoming(edges, n.id)
  {
    if nodes == [] then []
    else
      var init := nodes[..|nodes| - 1];
      var last := nodes[|nodes| - 1];
      assert nodes == init + [last];
      var rest := WithoutIncoming(init, edges);
      if HasIncoming(edges, last.id) then rest else rest + [last]
  }

  /** The outcome of pressing save. */
  function Validate(nodes: seq<Node>, edges: seq<Edge>): SaveResult {
    if |nodes| <= 1 then Saved
    else if |WithoutIncoming(nodes, edges)| > 1 then ValidationError
    else Saved
  }

  /** The badge shown under the canvas: none for a flow of at most one node. */
  function Status(nodes: seq<Node>, edges: seq<Edge>): Indicator {
    if |nodes| > 1 then
      if |WithoutIncoming(nodes, edges)| > 1 then FlowHasErrors else FlowIsValid
    else Hidden
  }

  /** Node `i` is a start node: no edge ends at it. */
  predicate IsStart(nodes: seq<Node>, edges: seq<Edge>, i: int)
    requires 0 <= i < |nodes|
  {
    !HasIncoming(edges, nodes[i].id)
  }

  /** Two different positions of the node list hold start nodes. */
  predicate TwoStarts(nodes: seq<Node>, edges: seq<Edge>) {
    exists i, j :: 0 <= i < j < |nodes| && IsStart(nodes, edges, i) && IsStart(nodes, edges, j)
  }

  lemma SomeStartIff(nodes: seq<Node>, edges: seq<Edge>)
    ensures |WithoutIncoming(nodes, edges)| > 0 <==> exists i :: 0 <= i < |nodes| && IsStart(nodes, edges, i)
  {
    var r := WithoutIncoming(nodes, edges);
    if |r| > 0 {
      assert r[0] in r;
      var i :| 0 <= i < |nodes| && nodes[i] == r[0];
      assert IsStart(nodes, edges, i);
    }
    if i :| 0 <= i < |nodes| && IsStart(nodes, edges, i) {
      assert nodes[i] in r;
    }
  }

  /** Start nodes of a list with one more node at its end. */
  lemma TwoStartsSnoc(init: seq<Node>, last: Node, edges: seq<Edge>)
    ensures TwoStarts(init + [last], edges) <==>
      TwoStarts(init, edges) ||
      (!HasIncoming(edges, last.id) && exists i :: 0 <= i < |init| && IsStart(init, edges, i))
  {
    var nodes := init + [last];
    var m := |init|;
    assert forall i :: 0 <= i < m ==> nodes[i] == init[i];
    if TwoStarts(nodes, edges) {
      var i, j :| 0 <= i < j < |nodes| && IsStart(nodes, edges, i) && IsStart(nodes, edges, j);
      if j < m {
        assert IsStart(init, edges, i) && IsStart(init, edges, j);
      } else {
        assert IsStart(init, edges, i);
      }
    }
    if TwoStarts(init, edges) {
      var i, j :| 0 <= i < j < |init| && IsStart(init, edges, i) && IsStart(init, edges, j);
      assert IsStart(nodes, edges, i) && IsStart(nodes, edges, j);
    }
    if !HasIncoming(edges, last.id) && exists i :: 0 <= i < m && IsStart(init, edges, i) {
      var i :| 0 <= i < m && IsStart(init, edges, i);
      assert IsStart(nodes, edges, i) && IsStart(nodes, edges, m);
    }
  }

  /** More than one node lacks an incoming edge exactly when two different
      positions of the node list hold start nodes. */
  lemma {:induction false} TwoStartsIff(nodes: seq<Node>, edges: seq<Edge>)
    ensures |WithoutIncoming(nodes, edges)| > 1 <==> TwoStarts(nodes, edges)
    decreases |nodes|
  {
    if nodes != [] {
      var init := nodes[..|nodes| - 1];
      var last := nodes[|nodes| - 1];
      assert nodes == init + [last];
      TwoStartsIff(init, edges);
      SomeStartIff(init, edges);
      TwoStartsSnoc(init, last, edges);
    }
  }

  /** Saving fails exactly when two nodes of the flow have no incoming edge;
      a flow of at most one node therefore always saves, whatever its edges. */
  lemma SaveFailsIff(nodes: seq<Node>, edges: seq<Edge>)
    ensures Validate(nodes, edges) == ValidationError <==> TwoStarts(nodes, edges)
    ensures |nodes| <= 1 ==> Validate(nodes, edges) == Saved
  {
    TwoStartsIff(nodes, edges);
  }

  /** For a flow of more than one node the badge reports errors exactly
      when saving would fail, and reports a valid flow exactly when saving
      would succeed. */
  lemma StatusAgreesWithSave(nodes: seq<Node>, edges: seq<Edge>)
    ensures Status(nodes, edges) == Hidden <==> |nodes| <= 1
    ensures |nodes| > 1 ==> (Status(nodes, edges) == FlowHasErrors <==> Validate(nodes, edges) == ValidationError)
    ensures |nodes| > 1 ==> (Status(nodes, edges) == FlowIsValid <==> Validate(nodes, edges) == Saved)
  {
  }

  /** Two node lists with the same ids, position by position, have the same
      number of start nodes. */
  lemma {:induction false} SameIdsSameStarts(a: seq<Node>, b: seq<Node>, edges: seq<Edge>)
    requires |a| == |b|
    requires forall i :: 0 <= i < |a| ==> a[i].id == b[i].id
    ensures |WithoutIncoming(a, edges)| == |WithoutIncoming(b, edges)|
    decreases |a|
  {
    if a != [] {
      SameIdsSameStarts(a[..|a| - 1], b[..|b| - 1], edges);
    }
  }

  /** Editing a payload never changes whether the flow saves. */
  lemma UpdateKeepsSaveOutcome(nodes: seq<Node>, edges: seq<Edge>, id: string, patch: Payload)
    ensures Validate(UpdateNodeData(nodes, id, patch), edges) == Validate(nodes, edges)
  {
    SameIdsSameStarts(UpdateNodeData(nodes, id, patch), nodes, edges);
  }

  /** A dropped node whose id no edge targets is one more start node. */
  lemma DropAddsStart(nodes: seq<Node>, edges: seq<Edge>, kind: string, now: nat, pos: Position)
    requires kind != ""
    requires !HasIncoming(edges, NodeIds.NodeId(kind, now))
    ensures |WithoutIncoming(Drop(nodes, kind, true, now, pos), edges)| == |WithoutIncoming(nodes, edges)| + 1
  {
  }

  /** Dropping a node into a flow that already has a start node makes the
      flow fail to save until the new node is wired, unless some edge
      already ended at the new node's id. */
  lemma DropIntoStartedFlowFails(nodes: seq<Node>, edges: seq<Edge>, kind: string, now: nat, pos: Position)
    requires kind != ""
    requires !HasIncoming(edges, NodeIds.NodeId(kind, now))
    requires exists i :: 0 <= i < |nodes| && IsStart(nodes, edges, i)
    ensures Validate(Drop(nodes, kind, true, now, pos), edges) == ValidationError
  {
  }

  /** A drop never repairs a flow that fails to save. */
  lemma DropNeverRepairs(nodes: seq<Node>, edges: seq<Edge>, kind: string, canvasReady: bool, now: nat, pos: Position)
    requires Validate(nodes, edges) == ValidationError
    ensures Validate(Drop(nodes, kind, canvasReady, now, pos), edges) == ValidationError
  {
  }

  // ---------------------------------------------------------------------
  // Worked cases

  function TextNodeAt(id: string): Node {
    Node(id, Some("textNode"), Position(0.0, 0.0), map["label" := DefaultLabel], None)
  }

  /** Two unwired text nodes cannot be saved; wiring the first to the second
      makes the flow save. */
  lemma TwoNodeFlowNeedsOneEdge()
    ensures Validate([TextNodeAt("a"), TextNodeAt("b")], []) == ValidationError
    ensures Validate([TextNodeAt("a"), TextNodeAt("b")],
                     [EdgeFor(Connection("a", "b", None, None), "e1")]) == Saved
  {
    var nodes := [TextNodeAt("a"), TextNodeAt("b")];
    var wired := [EdgeFor(Connection("a", "b", None, None), "e1")];
    assert IsStart(nodes, [], 0) && IsStart(nodes, [], 1);
    SaveFailsIff(nodes, []);
    assert wired[0].target == "b";
    assert !IsStart(nodes, wired, 1);
    SaveFailsIff(nodes, wired);
  }

  /** With an edge out of handle h1 of node a, a second edge out of the same
      handle is refused while one out of handle h2 is added. */
  lemma SecondEdgeFromHandle()
    ensures var edges := [EdgeFor(Connection("a", "b", Some("h1"), None), "e1")];
      Connect(edges, Connection("a", "c", Some("h1"), None), "e2") == edges &&
      |Connect(edges, Connection("a", "c", Some("h2"), None), "e2")| == 2
  {
    var edges := [EdgeFor(Connection("a", "b", Some("h1"), None), "e1")];
    assert edges[0].source == "a" && edges[0].sourceHandle == Some("h1");
    assert Some("h1") != Some("h2");
  }
}
