/**
  The dialogue tree kept by backend/data/neo4j_client.py, as a value.

  The Cypher statements of `save_dialogue_node`, `link_dialogue_nodes`,
  `get_dialogue_node` and `get_dialogue_tree` read and write `DialogueNode`
  records keyed by `node_id` and `HAS_CHILD` edges that may carry a
  `fragment_id`.  Here the database is a `Graph`: a map from `node_id` to the
  record, and the `HAS_CHILD` edges in creation order.  Each statement is a
  function over that value; the class `Neo4j.Neo4jClient` runs them in place.
 */
module DialogueGraph {
  import opened Wrappers

  /** `timestamp`, an ordered key (the source stores an ISO-8601 string). */
  type Timestamp = int

  /** The properties `save_dialogue_node` sets on a `DialogueNode`.  `intent` is
      `None` when the property was set to null, that is, removed. */
  datatype DialogueNode = DialogueNode(
    nodeId: string,
    userId: string,
    role: string,
    content: string,
    intent: Option<string>,
    masteryScore: real,
    timestamp: Timestamp)

  /** A `HAS_CHILD` relationship; `fragmentId` is `None` when it has no `fragment_id`. */
  datatype ChildEdge = ChildEdge(parent: string, child: string, fragmentId: Option<string>)

  /** The store: `DialogueNode` records by `node_id` and `HAS_CHILD` edges in creation order. */
  datatype Graph = Graph(nodes: map<string, DialogueNode>, edges: seq<ChildEdge>)

  /** The `ValueError`s `link_dialogue_nodes` raises. */
  datatype LinkError = ParentNotFound(parentId: string) | ChildNotFound(childId: string)

  /** A node of the dictionary `get_dialogue_tree` returns: the node's properties and its
      `children` list. */
  datatype TreeNode = TreeNode(node: DialogueNode, children: seq<TreeNode>)

  const Empty: Graph := Graph(map[], [])

  /** What the statements of the client keep true of the store: every record sits under its own
      `node_id`, both ends of every edge exist, no edge carries an empty `fragment_id`, and no
      edge is there twice (MERGE never duplicates one while calls do not overlap). */
  ghost predicate Valid(g: Graph)
  {
    && (forall k | k in g.nodes :: g.nodes[k].nodeId == k)
    && (forall e | e in g.edges :: e.parent in g.nodes && e.child in g.nodes && e.fragmentId != Some(""))
    && (forall i, j | 0 <= i < j < |g.edges| :: g.edges[i] != g.edges[j])
  }

  lemma EmptyIsValid()
    ensures Valid(Empty)
  {
  }

  // ---------------------------------------------------------------------------
  // save_dialogue_node

  /** `MERGE (n:DialogueNode {node_id: $node_id}) SET n.user_id = ..., ...`: every property is
      overwritten, so the stored record is exactly the written one. */
  function Save(g: Graph, n: DialogueNode): (r: Graph)
    ensures r.edges == g.edges
    ensures n.nodeId in r.nodes && r.nodes[n.nodeId] == n
    ensures r.nodes.Keys == g.nodes.Keys + {n.nodeId}
    ensures forall k | k in g.nodes && k != n.nodeId :: r.nodes[k] == g.nodes[k]
  {
    g.(nodes := g.nodes[n.nodeId := n])
  }

  /** The record `save_dialogue_node` writes: an absent `timestamp` defaults to the clock
      reading `now` (`datetime.utcnow()`). */
  function WrittenNode(nodeId: string, userId: string, role: string, content: string,
                       intent: Option<string>, masteryScore: real,
                       timestamp: Option<Timestamp>, now: Timestamp): (n: DialogueNode)
    ensures n.nodeId == nodeId
    ensures n.timestamp == if timestamp.Some? then timestamp.value else now
  {
    DialogueNode(nodeId, userId, role, content, intent, masteryScore, timestamp.GetOr(now))
  }

  // ---------------------------------------------------------------------------
  // get_dialogue_node

  /** `MATCH (n:DialogueNode {node_id: $node_id}) RETURN n`, or `None`. */
  function GetNode(g: Graph, nodeId: string): (r: Option<DialogueNode>)
    ensures r.None? <==> nodeId !in g.nodes
    ensures Valid(g) && r.Some? ==> r.value.nodeId == nodeId
  {
    if nodeId in g.nodes then Some(g.nodes[nodeId]) else None
  }

  /** Reading a node back after saving it gives exactly the fields just written. */
  lemma GetAfterSave(g: Graph, n: DialogueNode)
    ensures GetNode(Save(g, n), n.nodeId) == Some(n)
  {
  }

  /** Saving leaves every other node's reading, and every edge, as it was. */
  lemma SaveFrame(g: Graph, n: DialogueNode, k: string)
    requires k != n.nodeId
    ensures GetNode(Save(g, n), k) == GetNode(g, k)
    ensures Save(g, n).edges == g.edges
  {
  }

  /** Saving the same record twice leaves the state of saving it once. */
  lemma SaveIdempotent(g: Graph, n: DialogueNode)
    ensures Save(Save(g, n), n) == Save(g, n)
  {
  }

  /** Calling `save_dialogue_node` twice with the same arguments is the same as calling it
      once, exactly when the timestamp is given or the clock reads the same both times. */
  lemma SaveTwiceWithClock(g: Graph, nodeId: string, userId: string, role: string, content: string,
                           intent: Option<string>, masteryScore: real,
                           timestamp: Option<Timestamp>, now1: Timestamp, now2: Timestamp)
    ensures var once := Save(g, WrittenNode(nodeId, userId, role, content, intent, masteryScore, timestamp, now1));
            var twice := Save(once, WrittenNode(nodeId, userId, role, content, intent, masteryScore, timestamp, now2));
            twice == once <==> timestamp.Some? || now1 == now2
  {
    var once := Save(g, WrittenNode(nodeId, userId, role, content, intent, masteryScore, timestamp, now1));
    var twice := Save(once, WrittenNode(nodeId, userId, role, content, intent, masteryScore, timestamp, now2));
    if twice == once {
      assert twice.nodes[nodeId] == once.nodes[nodeId];
    }
  }

  lemma SavePreservesValid(g: Graph, n: DialogueNode)
    requires Valid(g)
    ensures Valid(Save(g, n))
  {
  }

  // ---------------------------------------------------------------------------
  // link_dialogue_nodes

  /** Some `HAS_CHILD` edge, with or without a fragment id, goes from `parent` to `child`. */
  predicate Joined(edges: seq<ChildEdge>, parent: string, child: string)
  {
    exists i | 0 <= i < |edges| :: edges[i].parent == parent && edges[i].child == child
  }

  /** `if fragment_id:` is false for `None` and for the empty string. */
  predicate Tagged(fragmentId: Option<string>)
  {
    fragmentId.Some? && fragmentId.value != ""
  }

  /** `link_dialogue_nodes`: both ends are checked first (parent, then child); then
      `MERGE (parent)-[r:HAS_CHILD {fragment_id: $fragment_id}]->(child)` matches only an edge
      with that fragment id, while `MERGE (parent)-[r:HAS_CHILD]->(child)` matches any edge
      between the two nodes; a new edge is created only when nothing matched. */
  function Link(g: Graph, parentId: string, childId: string, fragmentId: Option<string>): (r: Result<Graph, LinkError>)
    ensures r.Failure? <==> parentId !in g.nodes || childId !in g.nodes
    ensures parentId !in g.nodes ==> r == Failure(ParentNotFound(parentId))
    ensures parentId in g.nodes && childId !in g.nodes ==> r == Failure(ChildNotFound(childId))
    ensures r.Success? ==> r.value.nodes == g.nodes && Joined(r.value.edges, parentId, childId)
    ensures r.Success? ==>
              || r.value.edges == g.edges
              || r.value.edges == g.edges + [ChildEdge(parentId, childId, if Tagged(fragmentId) then fragmentId else None)]
  {
    if parentId !in g.nodes then Failure(ParentNotFound(parentId))
    else if childId !in g.nodes then Failure(ChildNotFound(childId))
    else if Tagged(fragmentId) then
      var e := ChildEdge(parentId, childId, fragmentId);
      if e in g.edges then Success(g)
      else
        assert (g.edges + [e])[|g.edges|] == e;
        Success(g.(edges := g.edges + [e]))
    else if Joined(g.edges, parentId, childId) then Success(g)
    else
      var e := ChildEdge(parentId, childId, None);
      assert (g.edges + [e])[|g.edges|] == e;
      Success(g.(edges := g.edges + [e]))
  }

  /** A failed link adds no edge: the error leaves the store as it was. */
  lemma LinkFailureAddsNothing(g: Graph, parentId: string, childId: string, fragmentId: Option<string>)
    requires parentId !in g.nodes || childId !in g.nodes
    ensures Link(g, parentId, childId, fragmentId).Failure?
    ensures parentId !in g.nodes ==> Link(g, parentId, childId, fragmentId).error == ParentNotFound(parentId)
  {
  }

  /** Linking the same (parent, child, fragment id) twice leaves the edges of linking once. */
  lemma LinkIdempotent(g: Graph, parentId: string, childId: string, fragmentId: Option<string>)
    requires Link(g, parentId, childId, fragmentId).Success?
    ensures var g1 := Link(g, parentId, childId, fragmentId).value;
            Link(g1, parentId, childId, fragmentId) == Success(g1)
  {
    var g1 := Link(g, parentId, childId, fragmentId).value;
    if Tagged(fragmentId) {
      var e := ChildEdge(parentId, childId, fragmentId);
      assert e in g1.edges by {
        if e !in g.edges {
          assert g1.edges[|g.edges|] == e;
        }
      }
    }
  }

  /** Without a fragment id, linking two nodes already joined by any edge changes nothing. */
  lemma LinkUntaggedWhenJoined(g: Graph, parentId: string, childId: string, fragmentId: Option<string>)
    requires parentId in g.nodes && childId in g.nodes
    requires !Tagged(fragmentId) && Joined(g.edges, parentId, childId)
    ensures Link(g, parentId, childId, fragmentId) == Success(g)
  {
  }

  /** With a fragment id not yet on an edge between the two nodes, linking adds a parallel edge,
      even when they are already joined. */
  lemma LinkTaggedAddsParallelEdge(g: Graph, parentId: string, childId: string, fragment: string)
    requires parentId in g.nodes && childId in g.nodes && fragment != ""
    requires ChildEdge(parentId, childId, Some(fragment)) !in g.edges
    ensures Link(g, parentId, childId, Some(fragment))
            == Success(g.(edges := g.edges + [ChildEdge(parentId, childId, Some(fragment))]))
  {
  }

  /** Without a fragment id, linking two nodes not yet joined adds one untagged edge. */
  lemma LinkUntaggedAddsEdge(g: Graph, parentId: string, childId: string, fragmentId: Option<string>)
    requires parentId in g.nodes && childId in g.nodes
    requires !Tagged(fragmentId) && !Joined(g.edges, parentId, childId)
    ensures Link(g, parentId, childId, fragmentId)
            == Success(g.(edges := g.edges + [ChildEdge(parentId, childId, None)]))
  {
  }

  /** With a fragment id that an edge between the two nodes already carries, linking changes
      nothing. */
  lemma LinkTaggedWhenPresent(g: Graph, parentId: string, childId: string, fragment: string)
    requires parentId in g.nodes && childId in g.nodes && fragment != ""
    requires ChildEdge(parentId, childId, Some(fragment)) in g.edges
    ensures Link(g, parentId, childId, Some(fragment)) == Success(g)
  {
  }

  lemma LinkPreservesValid(g: Graph, parentId: string, childId: string, fragmentId: Option<string>)
    requires Valid(g)
    requires Link(g, parentId, childId, fragmentId).Success?
    ensures Valid(Link(g, parentId, childId, fragmentId).value)
  {
    var g1 := Link(g, parentId, childId, fragmentId).value;
    if g1 != g {
      var e := g1.edges[|g.edges|];
      assert g1.edges == g.edges + [e];
      assert e.fragmentId != Some("");
      if Tagged(fragmentId) {
        assert e !in g.edges;
      } else {
        assert !Joined(g.edges, parentId, childId);
        assert forall i | 0 <= i < |g.edges| :: g.edges[i] != e;
      }
      forall i, j | 0 <= i < j < |g1.edges| ensures g1.edges[i] != g1.edges[j] {
        if j == |g.edges| {
          assert g.edges[i] in g.edges;
        }
      }
    }
  }

  // ---------------------------------------------------------------------------
  // get_dialogue_tree

  /** The rows of `MATCH (parent {node_id: $parent_id})-[:HAS_CHILD]->(child) RETURN child`
      before ordering: one child record per edge leaving `parentId`, in edge order. */
  function EdgeChildren(nodes: map<string, DialogueNode>, edges: seq<ChildEdge>, parentId: string): (r: seq<DialogueNode>)
    ensures |r| <= |edges|
    ensures forall x | x in r :: x in nodes.Values
  {
    if edges == [] then []
    else
      var e := edges[0];
      (if e.parent == parentId && e.child in nodes then [nodes[e.child]] else [])
      + EdgeChildren(nodes, edges[1..], parentId)
  }

  function ChildRows(g: Graph, parentId: string): seq<DialogueNode>
  {
    if parentId in g.nodes then EdgeChildren(g.nodes, g.edges, parentId) else []
  }

  /** How many edges go from `parent` to `child`, whatever their fragment ids. */
  function EdgeCount(edges: seq<ChildEdge>, parent: string, child: string): nat
  {
    if edges == [] then 0
    else (if edges[0].parent == parent && edges[0].child == child then 1 else 0)
         + EdgeCount(edges[1..], parent, child)
  }

  /** In a valid store the child rows of `parentId` hold the record of `c` once per edge from
      `parentId` to `c`. */
  lemma {:induction false} EdgeChildrenCount(nodes: map<string, DialogueNode>, edges: seq<ChildEdge>,
                                             parentId: string, c: string)
    requires forall k | k in nodes :: nodes[k].nodeId == k
    requires forall e | e in edges :: e.child in nodes
    requires c in nodes
    ensures multiset(EdgeChildren(nodes, edges, parentId))[nodes[c]] == EdgeCount(edges, parentId, c)
  {
    if edges != [] {
      assert forall e | e in edges[1..] :: e in edges;
      EdgeChildrenCount(nodes, edges[1..], parentId, c);
      var e := edges[0];
      if e.parent == parentId {
        assert nodes[e.child] == nodes[c] <==> e.child == c;
      }
    }
  }

  predicate SortedByTimestamp(s: seq<DialogueNode>)
  {
    forall i, j | 0 <= i < j < |s| :: s[i].timestamp <= s[j].timestamp
  }

  /** The first record of a sorted list has the earliest timestamp. */
  lemma SortedHead(s: seq<DialogueNode>)
    requires SortedByTimestamp(s) && s != []
    ensures forall y | y in s :: s[0].timestamp <= y.timestamp
  {
    forall y | y in s ensures s[0].timestamp <= y.timestamp {
      var k :| 0 <= k < |s| && s[k] == y;
    }
  }

  /** A record no later than any in a sorted list can go in front of it. */
  lemma ConsSorted(h: DialogueNode, t: seq<DialogueNode>)
    requires SortedByTimestamp(t)
    requires forall y | y in t :: h.timestamp <= y.timestamp
    ensures SortedByTimestamp([h] + t)
  {
    var r := [h] + t;
    forall i, j | 0 <= i < j < |r| ensures r[i].timestamp <= r[j].timestamp {
      if i == 0 {
        assert r[j] == t[j - 1];
        assert r[j] in t;
      } else {
        assert r[i] == t[i - 1] && r[j] == t[j - 1];
      }
    }
  }

  /** Inserts `x` before the first record with a later or equal timestamp. */
  function Insert(x: DialogueNode, s: seq<DialogueNode>): (r: seq<DialogueNode>)
    requires SortedByTimestamp(s)
    ensures forall y | y in r :: y == x || y in s
    ensures SortedByTimestamp(r)
    ensures multiset(r) == multiset(s) + multiset{x}
  {
    if s == [] then [x]
    else if x.timestamp <= s[0].timestamp then
      SortedHead(s);
      ConsSorted(x, s);
      [x] + s
    else
      var t := Insert(x, s[1..]);
      SortedHead(s);
      assert forall y | y in s[1..] :: y in s;
      ConsSorted(s[0], t);
      assert s == [s[0]] + s[1..];
      [s[0]] + t
  }

  /** `ORDER BY child.timestamp`: the rows in ascending timestamp order; equal timestamps keep
      their edge order. */
  function SortByTimestamp(s: seq<DialogueNode>): (r: seq<DialogueNode>)
    ensures SortedByTimestamp(r)
    ensures multiset(r) == multiset(s)
  {
    if s == [] then []
    else
      assert s == [s[0]] + s[1..];
      Insert(s[0], SortByTimestamp(s[1..]))
  }

  /** The rows `get_children` iterates over. */
  function OrderedChildRows(g: Graph, parentId: string): (r: seq<DialogueNode>)
    ensures SortedByTimestamp(r)
    ensures multiset(r) == multiset(ChildRows(g, parentId))
  {
    SortByTimestamp(ChildRows(g, parentId))
  }

  /** `get_children(parent_id, depth)`: no children at `max_depth` or deeper; otherwise one
      entry per ordered row, skipping a child whose `node_id` is falsy (the empty string), each
      with its own children one level deeper. */
  function Children(g: Graph, parentId: string, depth: int, maxDepth: int): seq<TreeNode>
    decreases maxDepth - depth, 0
  {
    if depth >= maxDepth then []
    else Subtrees(g, OrderedChildRows(g, parentId), depth + 1, maxDepth)
  }

  /** The body of the `async for` loop of `get_children`, over the remaining rows; the rows'
      own children are read at `depth`. */
  function Subtrees(g: Graph, rows: seq<DialogueNode>, depth: int, maxDepth: int): seq<TreeNode>
    decreases maxDepth - depth, |rows|
  {
    if rows == [] then []
    else
      var child := rows[0];
      (if child.nodeId == "" then [] else [TreeNode(child, Children(g, child.nodeId, depth, maxDepth))])
      + Subtrees(g, rows[1..], depth, maxDepth)
  }

  /** One step of the loop: the first row contributes an entry unless its `node_id` is empty. */
  lemma SubtreesStep(g: Graph, rows: seq<DialogueNode>, depth: int, maxDepth: int)
    requires rows != []
    ensures rows[0].nodeId == "" ==> Subtrees(g, rows, depth, maxDepth) == Subtrees(g, rows[1..], depth, maxDepth)
    ensures rows[0].nodeId != "" ==>
              Subtrees(g, rows, depth, maxDepth)
              == [TreeNode(rows[0], Children(g, rows[0].nodeId, depth, maxDepth))] + Subtrees(g, rows[1..], depth, maxDepth)
  {
  }

  /** `get_dialogue_tree(root_node_id, user_id, max_depth)`: `None` unless a node has both the
      root id and the user id; otherwise that node with its children from depth 0. */
  function Tree(g: Graph, rootId: string, userId: string, maxDepth: int): (r: Option<TreeNode>)
    ensures r.None? <==> !(rootId in g.nodes && g.nodes[rootId].userId == userId)
    ensures r.Some? ==> r.value.node == g.nodes[rootId] && r.value.children == Children(g, rootId, 0, maxDepth)
    ensures r.Some? && Valid(g) ==> r.value.node.nodeId == rootId
  {
    if rootId in g.nodes && g.nodes[rootId].userId == userId then
      Some(TreeNode(g.nodes[rootId], Children(g, rootId, 0, maxDepth)))
    else None
  }

  // Properties of the tree reader

  /** The tree nests at most `k` levels below `t`: a node `k` or more levels down has an empty
      `children` list. */
  ghost predicate NestingAtMost(t: TreeNode, k: int)
    decreases t
  {
    t.children == [] || (k > 0 && forall i | 0 <= i < |t.children| :: NestingAtMost(t.children[i], k - 1))
  }

  lemma {:induction false} ChildrenNesting(g: Graph, parentId: string, depth: int, maxDepth: int)
    ensures forall i | 0 <= i < |Children(g, parentId, depth, maxDepth)| ::
              NestingAtMost(Children(g, parentId, depth, maxDepth)[i], maxDepth - depth - 1)
    decreases maxDepth - depth, 0
  {
    if depth < maxDepth {
      SubtreesNesting(g, OrderedChildRows(g, parentId), depth + 1, maxDepth);
    }
  }

  lemma {:induction false} SubtreesNesting(g: Graph, rows: seq<DialogueNode>, depth: int, maxDepth: int)
    requires depth <= maxDepth
    ensures forall i | 0 <= i < |Subtrees(g, rows, depth, maxDepth)| ::
              NestingAtMost(Subtrees(g, rows, depth, maxDepth)[i], maxDepth - depth)
    decreases maxDepth - depth, |rows|
  {
    if rows != [] {
      var child := rows[0];
      SubtreesNesting(g, rows[1..], depth, maxDepth);
      if child.nodeId != "" {
        ChildrenNesting(g, child.nodeId, depth, maxDepth);
      }
      var head := if child.nodeId == "" then [] else [TreeNode(child, Children(g, child.nodeId, depth, maxDepth))];
      assert Subtrees(g, rows, depth, maxDepth) == head + Subtrees(g, rows[1..], depth, maxDepth);
    }
  }

  /** The returned tree is at most `max_depth` levels deep (none below the root when
      `max_depth <= 0`), whatever cycles the `HAS_CHILD` edges form. */
  lemma TreeDepthBound(g: Graph, rootId: string, userId: string, maxDepth: int)
    requires Tree(g, rootId, userId, maxDepth).Some?
    ensures NestingAtMost(Tree(g, rootId, userId, maxDepth).value, maxDepth)
  {
    ChildrenNesting(g, rootId, 0, maxDepth);
  }

  /** The records of a list of tree nodes. */
  function Records(ts: seq<TreeNode>): (r: seq<DialogueNode>)
    ensures |r| == |ts|
  {
    if ts == [] then [] else [ts[0].node] + Records(ts[1..])
  }

  /** The rows the loop keeps: those with a non-empty `node_id`. */
  function Named(rows: seq<DialogueNode>): (r: seq<DialogueNode>)
    ensures forall x | x in r :: x in rows && x.nodeId != ""
    ensures forall x | x in rows && x.nodeId != "" :: x in r
  {
    if rows == [] then []
    else (if rows[0].nodeId == "" then [] else [rows[0]]) + Named(rows[1..])
  }

  lemma {:induction false} NamedMultiset(rows: seq<DialogueNode>, x: DialogueNode)
    ensures multiset(Named(rows))[x] == if x.nodeId == "" then 0 else multiset(rows)[x]
  {
    if rows != [] {
      NamedMultiset(rows[1..], x);
      assert rows == [rows[0]] + rows[1..];
    }
  }

  lemma {:induction false} NamedSorted(rows: seq<DialogueNode>)
    requires SortedByTimestamp(rows)
    ensures SortedByTimestamp(Named(rows))
  {
    if rows != [] {
      NamedSorted(rows[1..]);
      var rest := Named(rows[1..]);
      SortedHead(rows);
      assert forall y | y in rows[1..] :: y in rows;
      if rows[0].nodeId != "" {
        ConsSorted(rows[0], rest);
        assert Named(rows) == [rows[0]] + rest;
      } else {
        assert Named(rows) == rest;
      }
    }
  }

  /** Each entry of a loop's result is a kept row, in row order, carrying its own children. */
  lemma {:induction false} SubtreesShape(g: Graph, rows: seq<DialogueNode>, depth: int, maxDepth: int)
    ensures Records(Subtrees(g, rows, depth, maxDepth)) == Named(rows)
    ensures forall i | 0 <= i < |Subtrees(g, rows, depth, maxDepth)| ::
              var t := Subtrees(g, rows, depth, maxDepth)[i];
              t.children == Children(g, t.node.nodeId, depth, maxDepth)
    decreases |rows|
  {
    if rows != [] {
      SubtreesShape(g, rows[1..], depth, maxDepth);
      var child := rows[0];
      var rest := Subtrees(g, rows[1..], depth, maxDepth);
      if child.nodeId != "" {
        var t := TreeNode(child, Children(g, child.nodeId, depth, maxDepth));
        assert Subtrees(g, rows, depth, maxDepth) == [t] + rest;
        assert Records([t] + rest) == [t.node] + Records(rest) by {
          assert ([t] + rest)[1..] == rest;
        }
        assert Named(rows) == [child] + Named(rows[1..]);
      } else {
        assert Subtrees(g, rows, depth, maxDepth) == rest;
        assert Named(rows) == Named(rows[1..]);
      }
    }
  }

  /** Below `max_depth`, a `children` list holds the named child records sorted by ascending
      timestamp, each one once per `HAS_CHILD` edge that leads to it (parallel edges repeat a
      child), and each entry carries the children of its own node one level deeper. */
  lemma ChildrenContents(g: Graph, parentId: string, depth: int, maxDepth: int)
    requires Valid(g) && depth < maxDepth && parentId in g.nodes
    ensures SortedByTimestamp(Records(Children(g, parentId, depth, maxDepth)))
    ensures forall c | c in g.nodes ::
              multiset(Records(Children(g, parentId, depth, maxDepth)))[g.nodes[c]]
              == if c == "" then 0 else EdgeCount(g.edges, parentId, c)
    ensures forall x | x in Records(Children(g, parentId, depth, maxDepth)) :: x in g.nodes.Values && x.nodeId != ""
    ensures forall i | 0 <= i < |Children(g, parentId, depth, maxDepth)| ::
              var t := Children(g, parentId, depth, maxDepth)[i];
              t.children == Children(g, t.node.nodeId, depth + 1, maxDepth)
  {
    var rows := OrderedChildRows(g, parentId);
    SubtreesShape(g, rows, depth + 1, maxDepth);
    NamedSorted(rows);
    forall x | x in Records(Children(g, parentId, depth, maxDepth))
      ensures x in g.nodes.Values && x.nodeId != ""
    {
      assert x in Named(rows);
      assert x in multiset(rows);
      assert x in ChildRows(g, parentId) by {
        assert x in multiset(ChildRows(g, parentId));
      }
    }
    forall c | c in g.nodes
      ensures multiset(Records(Children(g, parentId, depth, maxDepth)))[g.nodes[c]]
              == if c == "" then 0 else EdgeCount(g.edges, parentId, c)
    {
      NamedMultiset(rows, g.nodes[c]);
      EdgeChildrenCount(g.nodes, g.edges, parentId, c);
    }
  }

  /** At `max_depth` or deeper the list is empty. */
  lemma ChildrenAtMaxDepth(g: Graph, parentId: string, depth: int, maxDepth: int)
    requires depth >= maxDepth
    ensures Children(g, parentId, depth, maxDepth) == []
  {
  }

  /** A node that is its own child: the reader still stops, repeating the node once per level
      down to `max_depth`. */
  lemma SelfLoopTree(a: DialogueNode)
    requires a.nodeId != ""
    ensures var g := Graph(map[a.nodeId := a], [ChildEdge(a.nodeId, a.nodeId, None)]);
            Tree(g, a.nodeId, a.userId, 2) == Some(TreeNode(a, [TreeNode(a, [TreeNode(a, [])])]))
  {
    var g := Graph(map[a.nodeId := a], [ChildEdge(a.nodeId, a.nodeId, None)]);
    assert ChildRows(g, a.nodeId) == [a];
    assert OrderedChildRows(g, a.nodeId) == [a];
    SubtreesStep(g, [a], 2, 2);
    assert Children(g, a.nodeId, 1, 2) == [TreeNode(a, [])];
    SubtreesStep(g, [a], 1, 2);
    assert Children(g, a.nodeId, 0, 2) == [TreeNode(a, [TreeNode(a, [])])];
  }

  /** Two edges from `p` to `c` give the child rows `[c, c]` and a `children` list naming `c`
      twice. */
  lemma TwoEdgesTwoEntries(g: Graph, p: DialogueNode, c: DialogueNode, f1: string, f2: string)
    requires p.nodeId != c.nodeId && c.nodeId != ""
    requires g.nodes == map[p.nodeId := p, c.nodeId := c]
    requires g.edges == [ChildEdge(p.nodeId, c.nodeId, Some(f1)), ChildEdge(p.nodeId, c.nodeId, Some(f2))]
    ensures Records(Children(g, p.nodeId, 0, 1)) == [c, c]
  {
    var rest := [ChildEdge(p.nodeId, c.nodeId, Some(f2))];
    assert g.edges[1..] == rest;
    assert EdgeChildren(g.nodes, rest, p.nodeId) == [c];
    assert ChildRows(g, p.nodeId) == [c, c];
    assert OrderedChildRows(g, p.nodeId) == [c, c];
    SubtreesShape(g, [c, c], 1, 1);
    assert [c, c][1..] == [c];
    assert Named([c]) == [c];
    assert Named([c, c]) == [c] + Named([c]);
  }

  /** Saving a parent and a child and linking them under two different fragment ids gives a
      tree that lists the child twice, once per `HAS_CHILD` edge. */
  lemma ParallelEdgesRepeatChild(p: DialogueNode, c: DialogueNode, f1: string, f2: string)
    requires p.nodeId != c.nodeId && c.nodeId != ""
    requires f1 != "" && f2 != "" && f1 != f2
    ensures var g1 := Link(Save(Save(Empty, p), c), p.nodeId, c.nodeId, Some(f1)).value;
            var g2 := Link(g1, p.nodeId, c.nodeId, Some(f2)).value;
            Records(Children(g2, p.nodeId, 0, 1)) == [c, c]
  {
    var g0 := Save(Save(Empty, p), c);
    assert g0.nodes == map[p.nodeId := p, c.nodeId := c];
    var e1 := ChildEdge(p.nodeId, c.nodeId, Some(f1));
    var e2 := ChildEdge(p.nodeId, c.nodeId, Some(f2));
    LinkTaggedAddsParallelEdge(g0, p.nodeId, c.nodeId, f1);
    var g1 := Link(g0, p.nodeId, c.nodeId, Some(f1)).value;
    assert g1.edges == [e1];
    LinkTaggedAddsParallelEdge(g1, p.nodeId, c.nodeId, f2);
    var g2 := Link(g1, p.nodeId, c.nodeId, Some(f2)).value;
    assert g2.edges == [e1, e2];
    TwoEdgesTwoEntries(g2, p, c, f1, f2);
  }
}
