/**
  `Neo4jClient` of backend/data/neo4j_client.py as a class over an in-memory
  store.  The database behind the driver becomes the fields of the object: the
  dialogue tree (records by `node_id`, `HAS_CHILD` edges) and the generic
  property graph (nodes by internal id, relationships, the next id).  Each
  method runs one client operation in place and is proved against the function
  that specifies it in `DialogueGraph` or `PropertyGraph`.
 */
module Neo4j {
  import opened Wrappers
  import opened DialogueGraph
  import PG = PropertyGraph

  class Neo4jClient {
    // The dialogue tree.
    var dialogueNodes: map<string, DialogueNode>
    var childEdges: seq<ChildEdge>
    // The generic property graph.
    var nodes: map<nat, PG.Node>
    var rels: seq<PG.Relationship>
    var nextId: nat

    /** The dialogue tree as a value. */
    function Dialogue(): Graph
      reads this
    {
      Graph(dialogueNodes, childEdges)
    }

    /** The generic property graph as a value. */
    function Generic(): PG.Graph
      reads this
    {
      PG.Graph(nodes, rels, nextId)
    }

    ghost predicate Valid()
      reads this
    {
      DialogueGraph.Valid(Dialogue()) && PG.Valid(Generic())
    }

    /** A client over an empty database. */
    constructor ()
      ensures Valid()
      ensures Dialogue() == DialogueGraph.Empty && Generic() == PG.Empty
    {
      dialogueNodes, childEdges := map[], [];
      nodes, rels, nextId := map[], [], 0;
    }

    // -------------------------------------------------------------------------
    // Generic nodes and relationships

    /** `create_node`: stores a node under a new id and returns that id as a string. */
    method CreateNode(nodeLabel: string, properties: PG.Properties) returns (id: string)
      requires Valid()
      modifies this
      ensures Valid()
      ensures Generic() == PG.CreateNode(old(Generic()), nodeLabel, properties)
      ensures old(nextId) !in old(nodes) && id == PG.DecimalString(old(nextId))
      ensures PG.ParseInt(id) == Some(old(nextId) as int)
      ensures Dialogue() == old(Dialogue())
    {
      PG.CreateNodeFresh(Generic(), nodeLabel, properties);
      PG.ParseDecimal(nextId);
      id := PG.DecimalString(nextId);
      nodes := nodes[nextId := PG.Node(nodeLabel, properties)];
      nextId := nextId + 1;
    }

    /** `create_relationship`: `int()` of either id may raise (`err`), and nothing changes;
        otherwise the relationship is added when both nodes exist. */
    method CreateRelationship(sourceId: string, targetId: string, relType: string,
                              properties: Option<PG.Properties>)
      returns (err: Option<PG.ValueError>)
      requires Valid()
      modifies this
      ensures Valid()
      ensures var r := PG.CreateRelationship(old(Generic()), sourceId, targetId, relType, properties);
              && (r.Failure? ==> err == Some(r.error) && Generic() == old(Generic()))
              && (r.Success? ==> err == None && Generic() == r.value)
      ensures Dialogue() == old(Dialogue())
    {
      var source := PG.ParseInt(sourceId);
      if source.None? {
        return Some(PG.InvalidLiteral(sourceId));
      }
      var target := PG.ParseInt(targetId);
      if target.None? {
        return Some(PG.InvalidLiteral(targetId));
      }
      var s, t := source.value, target.value;
      if s >= 0 && t >= 0 && s in nodes && t in nodes {
        PG.CreateRelationshipPreservesValid(Generic(), sourceId, targetId, relType, properties);
        rels := rels + [PG.Relationship(s, t, relType, properties.GetOr(map[]))];
      }
      err := None;
    }

    /** `get_related_nodes`: one dictionary per row of the query, built by the loop over the
        records. */
    method GetRelatedNodes(nodeId: string, relType: Option<string>)
      returns (r: Result<seq<PG.Properties>, PG.ValueError>)
      ensures r == PG.GetRelatedNodes(Generic(), nodeId, relType)
    {
      var id := PG.ParseInt(nodeId);
      if id.None? {
        return Failure(PG.InvalidLiteral(nodeId));
      }
      var records := PG.RelatedRecords(nodes, rels, id.value, relType);
      var result: seq<PG.Properties> := [];
      var i := 0;
      while i < |records|
        invariant 0 <= i <= |records|
        invariant |result| == i
        invariant forall k | 0 <= k < i :: result[k] == PG.RowDict(records[k])
      {
        result := result + [PG.RowDict(records[i])];
        i := i + 1;
      }
      assert result == PG.RowDicts(records);
      r := Success(result);
    }

    // -------------------------------------------------------------------------
    // Dialogue nodes

    /** `save_dialogue_node`: upserts the record under `nodeId`; an absent `timestamp` is the
        clock reading `now`. */
    method SaveDialogueNode(nodeId: string, userId: string, role: string, content: string,
                            intent: Option<string>, masteryScore: real,
                            timestamp: Option<Timestamp>, now: Timestamp)
      requires Valid()
      modifies this
      ensures Valid()
      ensures Dialogue() == Save(old(Dialogue()),
                                 WrittenNode(nodeId, userId, role, content, intent, masteryScore, timestamp, now))
      ensures Generic() == old(Generic())
    {
      var ts := if timestamp.None? then now else timestamp.value;
      var n := DialogueNode(nodeId, userId, role, content, intent, masteryScore, ts);
      SavePreservesValid(Dialogue(), n);
      dialogueNodes := dialogueNodes[nodeId := n];
    }

    /** `link_dialogue_nodes`: `err` is the `ValueError` for a missing parent, else for a missing
        child, and the edges are then unchanged; otherwise the `MERGE` of the right kind. */
    method LinkDialogueNodes(parentId: string, childId: string, fragmentId: Option<string>)
      returns (err: Option<LinkError>)
      requires Valid()
      modifies this
      ensures Valid()
      ensures var r := Link(old(Dialogue()), parentId, childId, fragmentId);
              && (r.Failure? ==> err == Some(r.error) && Dialogue() == old(Dialogue()))
              && (r.Success? ==> err == None && Dialogue() == r.value)
      ensures Generic() == old(Generic())
    {
      if parentId !in dialogueNodes {
        return Some(ParentNotFound(parentId));
      }
      if childId !in dialogueNodes {
        return Some(ChildNotFound(childId));
      }
      LinkPreservesValid(Dialogue(), parentId, childId, fragmentId);
      if fragmentId.Some? && fragmentId.value != "" {
        var e := ChildEdge(parentId, childId, fragmentId);
        if e !in childEdges {
          childEdges := childEdges + [e];
        }
      } else if !Joined(childEdges, parentId, childId) {
        childEdges := childEdges + [ChildEdge(parentId, childId, None)];
      }
      err := None;
    }

    /** `get_dialogue_node`: the record stored under `nodeId`, or `None`. */
    method GetDialogueNode(nodeId: string) returns (r: Option<DialogueNode>)
      ensures r.None? <==> nodeId !in Dialogue().nodes
      ensures r.Some? ==> r.value == Dialogue().nodes[nodeId]
    {
      if nodeId in dialogueNodes {
        r := Some(dialogueNodes[nodeId]);
      } else {
        r := None;
      }
    }

    /** `get_dialogue_tree`: the root, if it belongs to `userId`, with its children. */
    method GetDialogueTree(rootId: string, userId: string, maxDepth: int) returns (r: Option<TreeNode>)
      ensures r == Tree(Dialogue(), rootId, userId, maxDepth)
    {
      if rootId !in dialogueNodes || dialogueNodes[rootId].userId != userId {
        return None;
      }
      var root := dialogueNodes[rootId];
      var children := GetChildren(rootId, 0, maxDepth);
      r := Some(TreeNode(root, children));
    }

    /** The nested `get_children(parent_id, depth)`: the loop over the ordered rows, with a
        recursive call one level deeper for every kept child. */
    method GetChildren(parentId: string, depth: int, maxDepth: int) returns (children: seq<TreeNode>)
      ensures children == Children(Dialogue(), parentId, depth, maxDepth)
      decreases maxDepth - depth
    {
      if depth >= maxDepth {
        return [];
      }
      ghost var g := Dialogue();
      var rows := OrderedChildRows(Dialogue(), parentId);
      children := [];
      var i := 0;
      while i < |rows|
        invariant 0 <= i <= |rows|
        invariant children + Subtrees(g, rows[i..], depth + 1, maxDepth) == Subtrees(g, rows, depth + 1, maxDepth)
      {
        var child := rows[i];
        SubtreesStep(g, rows[i..], depth + 1, maxDepth);
        assert rows[i..][1..] == rows[i + 1..];
        i := i + 1;
        if child.nodeId == "" {
          continue;
        }
        var grandchildren := GetChildren(child.nodeId, depth + 1, maxDepth);
        children := children + [TreeNode(child, grandchildren)];
      }
    }
  }
}
