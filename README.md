# Chatbot flow builder: graph editing and save validation

The flow builder lets a user place text-message nodes on a canvas and wire
them together into a chatbot conversation. This project models its core:
the node and edge lists the `FlowBuilder` component owns, and the handlers
that change or judge them.

- **Connection admission** (`onConnect`). A new edge is refused when an edge
  already leaves the same source node through the same source handle.
  Otherwise it is appended.
- **Node instantiation** (`onDrop`). A non-empty type tag appends one node.
  Its id is `type_<milliseconds>` and its payload is `{ label: "New message" }`.
- **Payload merge** (`onNodeUpdate`). Every node with the given id gets its
  `data` shallow-merged with the patch, and the patch's fields win.
- **Save validation** (`handleSave`) and the **status badge**. A flow of more
  than one node fails when more than one node has no incoming edge.

Layout:

- `wrappers.dfy`: module `Wrappers`, the `Option` type used for optional properties and handles.
- `node_ids.dfy`: module `NodeIds`. It covers how a node id is built from a
  type tag and a timestamp, and how it is split back.
- `flow_graph.dfy`: module `FlowGraph`. It holds the data model (`Node`,
  `Edge`, `Connection`, the outcome types) and each rule as a function on
  sequences, with the lemmas about them.
- `flow_builder.dfy`: module `Builder`. Class `FlowBuilder` has the
  component's `nodes`/`edges` state. Its handler methods replace that state
  one event at a time, as `setNodes`/`setEdges` do. The class invariant
  `Valid()` is "at most one edge per (source, source handle)".

## Model

| member | source | states |
|---|---|---|
| NodeIds.NodeId | src/components/FlowBuilder.tsx:146 | builds `type + "_" + decimal(time)`; its contract is stated by NodeIdRoundTrip (the id splits back into type and time) and NodeIdCollidesIff (ids collide iff type and millisecond agree) |
| FlowGraph.SourceHandleTaken | src/components/FlowBuilder.tsx:93-97 | the `edges.some` admission test: some edge has the connection's source and source handle; what it decides is stated by ConnectAdmission |
| FlowGraph.Connect | src/components/FlowBuilder.tsx:93-109 | the edge list after a connection attempt; its contract is stated by ConnectAdmission, ConnectIdempotent and ConnectKeepsOneEdgePerSourceHandle |
| FlowGraph.NewNode | src/components/FlowBuilder.tsx:146-154 | the dropped node with id, type, position and default label; its contract is stated by DropAppendsOneNode |
| FlowGraph.Drop | src/components/FlowBuilder.tsx:131-156 | the node list after a drop; its contract is stated by DropAppendsOneNode, DropAddsStart and DropNeverRepairs |
| FlowGraph.HasIncoming | src/components/FlowBuilder.tsx:207 | the inner `edges.some` test: some edge targets the node's id; the filter built on it is characterised by WithoutIncoming and TwoStartsIff |
| FlowGraph.Validate | src/components/FlowBuilder.tsx:197-225 | the save outcome; its contract is stated by SaveFailsIff (fails iff two nodes have no incoming edge, always saves with 0 or 1 nodes) |
| FlowGraph.Status | src/components/FlowBuilder.tsx:287-291 | the badge shown; its contract is stated by StatusAgreesWithSave |
| NodeIds.Decimal | src/components/FlowBuilder.tsx:146 | the timestamp's text is a non-empty run of decimal digits with no leading zero |
| NodeIds.DecimalRoundTrip | src/components/FlowBuilder.tsx:146 | reading the decimal text back gives the timestamp |
| NodeIds.NodeIdRoundTrip | src/components/FlowBuilder.tsx:146 | splitting `type_time` at its last underscore gives back exactly the type tag and the time |
| NodeIds.NodeIdCollidesIff | src/components/FlowBuilder.tsx:146 | two drops get the same id if and only if they have the same type tag and the same millisecond; no other uniqueness check exists |
| FlowGraph.ConnectAdmission | src/components/FlowBuilder.tsx:93-109 | the edge list is unchanged iff some edge has the same source and source handle; otherwise exactly one edge with the connection's source, target and handles is appended after the untouched earlier edges |
| FlowGraph.ConnectIdempotent | src/components/FlowBuilder.tsx:93-109 | after any attempt the source handle is in use, so drawing the same connection again changes nothing |
| FlowGraph.ConnectKeepsOneEdgePerSourceHandle | src/components/FlowBuilder.tsx:90-112 | one connection attempt preserves "at most one edge per (source, source handle)" |
| FlowGraph.ConnectAllKeepsOneEdgePerSourceHandle | src/components/FlowBuilder.tsx:90-112 | any sequence of connection attempts preserves that invariant |
| FlowGraph.ConnectionsFromEmptyFlow | src/components/FlowBuilder.tsx:61-112 | starting from the empty edge list, no sequence of attempts yields two edges out of one source handle |
| FlowGraph.SecondEdgeFromHandle | src/components/FlowBuilder.tsx:93-109 | with an edge a-h1->b, a-h1->c is refused and a-h2->c is added |
| FlowGraph.DropAppendsOneNode | src/components/FlowBuilder.tsx:129-156 | an empty type tag or an unready canvas leaves the nodes unchanged; otherwise one node is appended after the untouched earlier ones, with the id `type_<time>`, which splits back into the type and time, that type, the drop position and only the label "New message" |
| FlowGraph.Merge | src/components/FlowBuilder.tsx:183 | the merged payload has the fields of both objects; the patch's value wins on a shared field and the old value stays on the others |
| FlowGraph.UpdateNodeData | src/components/FlowBuilder.tsx:180-186 | the node list keeps its length and order; nodes with another id are unchanged; a node with the id changes only its data, to the old data merged with the patch |
| FlowGraph.UpdateUnknownId | src/components/FlowBuilder.tsx:180-186 | an id that names no node leaves the nodes unchanged |
| FlowGraph.UpdateIdempotent | src/components/FlowBuilder.tsx:180-186 | applying the same edit twice equals applying it once |
| FlowGraph.WithoutIncoming | src/components/FlowBuilder.tsx:206-208 | the filtered list is no longer than the nodes; a node is in it iff it is among the nodes and no edge targets its id |
| FlowGraph.TwoStartsIff | src/components/FlowBuilder.tsx:206-211 | the filter has more than one element iff two different positions of the node list hold nodes that no edge targets |
| FlowGraph.SaveFailsIff | src/components/FlowBuilder.tsx:195-226 | save fails iff two nodes have no incoming edge; a flow of 0 or 1 nodes always saves, whatever its edges |
| FlowGraph.StatusAgreesWithSave | src/components/FlowBuilder.tsx:287-291 | the badge is hidden iff there are at most one node; otherwise it shows errors iff save fails and shows "valid" iff save succeeds |
| FlowGraph.UpdateKeepsSaveOutcome | src/components/FlowBuilder.tsx:178-226 | editing a payload never changes the save outcome |
| FlowGraph.DropAddsStart | src/components/FlowBuilder.tsx:145-208 | a dropped node whose id no edge targets adds exactly one node to the filter |
| FlowGraph.DropIntoStartedFlowFails | src/components/FlowBuilder.tsx:145-211 | dropping a node into a flow that already has a start node makes save fail, unless an edge already targets the new id |
| FlowGraph.DropNeverRepairs | src/components/FlowBuilder.tsx:145-211 | a drop never turns a failing flow into one that saves |
| FlowGraph.TwoNodeFlowNeedsOneEdge | src/components/FlowBuilder.tsx:195-225 | two unwired nodes fail to save; wiring the first to the second makes them save |
| Builder.FlowBuilder.constructor | src/components/FlowBuilder.tsx:59-81 | the component starts with no nodes and no edges, and the invariant holds |
| Builder.FlowBuilder.OnConnect | src/components/FlowBuilder.tsx:90-112 | returns ConnectionLimit iff the source handle is taken, and then leaves the edges alone; otherwise appends the connection's edge; nodes never change; keeps the invariant |
| Builder.FlowBuilder.OnDrop | src/components/FlowBuilder.tsx:125-159 | an empty type tag or an unready canvas changes nothing; otherwise appends the new node; edges never change |
| Builder.FlowBuilder.OnNodeUpdate | src/components/FlowBuilder.tsx:178-189 | same length; nodes with another id unchanged; nodes with the id get the merged data; edges never change |
| Builder.FlowBuilder.HandleSave | src/components/FlowBuilder.tsx:195-226 | returns ValidationError iff two nodes have no incoming edge, and changes nothing |
| Builder.FlowBuilder.StatusIndicator | src/components/FlowBuilder.tsx:287-302 | hidden iff there are at most one node; otherwise shows errors iff two nodes have no incoming edge |

## Left out

- Rendering is not modelled: the canvas, background, controls, minimap, side panels and save button (src/components/FlowBuilder.tsx:228-305, the panels, the text node and the page). They are presentation only.
- Drag-and-drop mechanics are not modelled: `onDragOver`, reading `dataTransfer` and the screen-to-flow coordinate conversion. The type tag and the resulting position are parameters, and the position is carried through unchanged.
- `Date.now()` is a clock call. It becomes the parameter `now`, a natural number of milliseconds.
- The check for a missing flow instance or wrapper element becomes the boolean parameter `canvasReady`.
- Toast notifications become returned values: `ConnectionLimit`, `Saved` and `ValidationError`.
- The graph library's `addEdge` is modelled as an append, and the new edge's id is a parameter. Its own id scheme is not modelled, and the model does not promise that edge ids are unique: `Connect` appends with whatever id it is given, and keeping ids distinct belongs to the library's `addEdge`. Its refusal of an exact duplicate is also not modelled. In this model, where an absent handle is one value, that refusal could never fire, because such an edge shares the source and source handle and is refused first. In the program it is library code that is not part of this model, and whether it can fire depends on how that code compares absent handles.
- Connection endpoints are strings. The `null` source or target the connection type allows is handled inside the library's `addEdge`, which is not part of this model.
- `sourceHandle`/`targetHandle` are one `Option`, compared by equality. JavaScript's `===` at src/components/FlowBuilder.tsx:96 tells `null` and `undefined` apart; the model reads both as the one value `None` (an empty-string handle stays `Some("")`, distinct from `None`). If the library stores an edge with its `null` handle dropped (read back as `undefined`), a later connection from the same source with a `null` handle passes the check at src/components/FlowBuilder.tsx:93-97 in JavaScript, while the model treats the two handles as equal and refuses it. `OneEdgePerSourceHandle` is therefore guaranteed only when absent handles reach the check in one form.
- The payload patch is a map of the fields that are present. A field passed explicitly as `undefined` is not modelled.
- `onNodesChange`/`onEdgesChange` are not modelled: position, selection and removal changes, including removing the edges of a deleted node. They are the graph library's code.
- `onNodeClick`/`onPaneClick` and the selected-node state are not modelled. They only choose which panel is shown.
- React scheduling (stale closures over `edges`) is not modelled. Handlers run one at a time on the current state.
- The code leaves out several checks one might expect, and the model follows the code. It does not check that a connection's endpoints exist or are distinct: `OnConnect` checks only the source handle. It does not check that a new node's id is unique, although the comment at src/components/FlowBuilder.tsx:145 says "unique"; `NodeIdCollidesIff` shows that two drops of the same type in the same millisecond get the same id. An update naming an unknown node is a silent no-op. A failed save names no offending nodes, so `SaveResult` carries no node ids.
