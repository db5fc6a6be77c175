/** The flow builder component's state and its event handlers: the node and
    edge lists it owns, replaced one event at a time. */
module Builder {
  import opened FlowGraph

  class FlowBuilder {
    var nodes: seq<Node>
    var edges: seq<Edge>

    /** The invariant every connection attempt keeps. */
    ghost predicate Valid()
      reads this
    {
      OneEdgePerSourceHandle(edges)
    }

    /** The editor opens on an empty flow. */
    constructor ()
      ensures Valid()
      ensures nodes == [] && edges == []
    {
      nodes := [];
      edges := [];
    }

    /** A connection drawn on the canvas: refused with a connection-limit
        notice when its source handle already has an outgoing edge,
        otherwise recorded as a new edge with the library's id. */
    method OnConnect(c: Connection, edgeId: string) returns (r: ConnectResult)
      requires Valid()
      modifies this
      ensures Valid()
      ensures r == ConnectionLimit <==> SourceHandleTaken(old(edges), c)
      ensures r == ConnectionLimit ==> edges == old(edges)
      ensures r == Connected ==> edges == old(edges) + [EdgeFor(c, edgeId)]
      ensures edges == Connect(old(edges), c, edgeId)
      ensures nodes == old(nodes)
    {
      ConnectKeepsOneEdgePerSourceHandle(edges, c, edgeId);
      r := if SourceHandleTaken(edges, c) then ConnectionLimit else Connected;
      edges := Connect(edges, c, edgeId);
    }

    /** A node type dropped on the canvas at `pos` at time `now`. */
    method OnDrop(kind: string, canvasReady: bool, now: nat, pos: Position)
      requires Valid()
      modifies this
      ensures Valid()
      ensures kind == "" || !canvasReady ==> nodes == old(nodes)
      ensures kind != "" && canvasReady ==> nodes == old(nodes) + [NewNode(kind, now, pos)]
      ensures nodes == Drop(old(nodes), kind, canvasReady, now, pos)
      ensures edges == old(edges)
    {
      nodes := Drop(nodes, kind, canvasReady, now, pos);
    }

    /** The settings panel's edit of node `id`'s payload. */
    method OnNodeUpdate(id: string, patch: Payload)
      requires Valid()
      modifies this
      ensures Valid()
      ensures |nodes| == |old(nodes)|
      ensures forall i :: 0 <= i < |nodes| && old(nodes)[i].id != id ==> nodes[i] == old(nodes)[i]
      ensures forall i :: 0 <= i < |nodes| && old(nodes)[i].id == id ==>
        nodes[i] == old(nodes)[i].(data := Merge(old(nodes)[i].data, patch))
      ensures nodes == UpdateNodeData(old(nodes), id, patch)
      ensures edges == old(edges)
    {
      nodes := UpdateNodeData(nodes, id, patch);
    }

    /** The save button: the flow saves unless two of its nodes have no
        incoming edge. Nothing is changed. */
    method HandleSave() returns (r: SaveResult)
      ensures r == Validate(nodes, edges)
      ensures r == ValidationError <==> TwoStarts(nodes, edges)
    {
      SaveFailsIff(nodes, edges);
      r := Validate(nodes, edges);
    }

    /** The status badge: hidden for a flow of at most one node, otherwise
        reporting errors exactly when saving would fail. */
    method StatusIndicator() returns (s: Indicator)
      ensures s == Status(nodes, edges)
      ensures s == Hidden <==> |nodes| <= 1
      ensures |nodes| > 1 ==> (s == FlowHasErrors <==> TwoStarts(nodes, edges))
    {
      SaveFailsIff(nodes, edges);
      StatusAgreesWithSave(nodes, edges);
      s := Status(nodes, edges);
    }
  }
}
