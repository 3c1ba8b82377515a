/**
  The generic part of backend/data/neo4j_client.py: `create_node`,
  `create_relationship` and `get_related_nodes`, over a property graph whose
  nodes have store-assigned integer ids.  The ids cross the client's interface
  as decimal strings (`str(id(n))` out, `int(source_id)` in).
 */
module PropertyGraph {
  import opened Wrappers

  /** A property value. */
  datatype Value = Text(text: string) | Integer(number: int) | Boolean(flag: bool)

  type Properties = map<string, Value>

  /** A node: its label and its properties. */
  datatype Node = Node(nodeLabel: string, properties: Properties)

  /** A relationship from `source` to `target`. */
  datatype Relationship = Relationship(source: nat, target: nat, relType: string, properties: Properties)

  /** Nodes by internal id, relationships in creation order, and the next id the store hands out. */
  datatype Graph = Graph(nodes: map<nat, Node>, rels: seq<Relationship>, nextId: nat)

  /** `int(s)` raised `ValueError`. */
  datatype ValueError = InvalidLiteral(literal: string)

  const Empty: Graph := Graph(map[], [], 0)

  /** Every id in use is below `nextId`, and every relationship joins two existing nodes. */
  ghost predicate Valid(g: Graph)
  {
    && (forall id | id in g.nodes :: id < g.nextId)
    && (forall r | r in g.rels :: r.source in g.nodes && r.target in g.nodes)
  }

  // ---------------------------------------------------------------------------
  // str(int) and int(str)

  predicate IsDigit(c: char)
  {
    '0' <= c <= '9'
  }

  function DigitChar(d: nat): char
    requires d < 10
  {
    ('0' as int + d) as char
  }

  /** `str(n)` for a non-negative `n`. */
  function DecimalString(n: nat): (s: string)
    ensures |s| > 0
    ensures forall i | 0 <= i < |s| :: IsDigit(s[i])
  {
    if n < 10 then [DigitChar(n)] else DecimalString(n / 10) + [DigitChar(n % 10)]
  }

  /** The value of a string of decimal digits. */
  function DigitsValue(s: string): nat
    requires forall i | 0 <= i < |s| :: IsDigit(s[i])
  {
    if s == [] then 0
    else
      assert IsDigit(s[|s| - 1]);
      10 * DigitsValue(s[..|s| - 1]) + (s[|s| - 1] as int - '0' as int)
  }

  /** `s` is a decimal integer literal: an optional `-` or `+` sign followed by at least one
      decimal digit. */
  predicate IsIntLiteral(s: string)
  {
    && (forall i | 0 <= i < |s| :: IsDigit(s[i]) || (i == 0 && (s[i] == '-' || s[i] == '+')))
    && (exists i | 0 <= i < |s| :: IsDigit(s[i]))
  }

  /** `int(s)`: an optional sign followed by one or more decimal digits; anything else raises.
      Unsigned and `+`-signed digits read as their decimal value, and `-` negates it. */
  function ParseInt(s: string): (r: Option<int>)
    ensures r.Some? <==> IsIntLiteral(s)
    ensures r.Some? && IsDigit(s[0]) ==> r.value == DigitsValue(s)
    ensures r.Some? && s[0] == '+' ==> r.value == DigitsValue(s[1..])
    ensures r.Some? && s[0] == '-' ==> r.value == -(DigitsValue(s[1..]) as int)
  {
    var sign := if |s| > 0 && (s[0] == '-' || s[0] == '+') then 1 else 0;
    var digits := s[sign..];
    if digits != [] && forall i | 0 <= i < |digits| :: IsDigit(digits[i]) then
      var v: int := DigitsValue(digits);
      Some(if sign == 1 && s[0] == '-' then -v else v)
    else None
  }

  lemma {:induction false} DigitsValueOfDecimal(n: nat)
    ensures DigitsValue(DecimalString(n)) == n
  {
    if n >= 10 {
      DigitsValueOfDecimal(n / 10);
      var s := DecimalString(n);
      assert s[..|s| - 1] == DecimalString(n / 10);
    }
  }

  /** The ids the client hands out parse back to themselves: `int(str(n)) == n`. */
  lemma ParseDecimal(n: nat)
    ensures ParseInt(DecimalString(n)) == Some(n)
  {
    var s := DecimalString(n);
    assert !(s[0] == '-' || s[0] == '+') by { assert IsDigit(s[0]); }
    assert s[0..] == s;
    DigitsValueOfDecimal(n);
  }

  // ---------------------------------------------------------------------------
  // create_node

  /** `CREATE (n:<label> $properties)`: a new node under the next id. */
  function CreateNode(g: Graph, nodeLabel: string, properties: Properties): (r: Graph)
    ensures r.nodes == g.nodes[g.nextId := Node(nodeLabel, properties)]
    ensures r.rels == g.rels && r.nextId > g.nextId
  {
    Graph(g.nodes[g.nextId := Node(nodeLabel, properties)], g.rels, g.nextId + 1)
  }

  /** The id a new node gets was not in use, and no existing node or relationship changes. */
  lemma CreateNodeFresh(g: Graph, nodeLabel: string, properties: Properties)
    requires Valid(g)
    ensures g.nextId !in g.nodes
    ensures Valid(CreateNode(g, nodeLabel, properties))
    ensures forall id | id in g.nodes :: CreateNode(g, nodeLabel, properties).nodes[id] == g.nodes[id]
  {
    var r := CreateNode(g, nodeLabel, properties);
    assert forall x | x in r.rels :: x in g.rels;
  }

  // ---------------------------------------------------------------------------
  // create_relationship

  /** `create_relationship`: both ids go through `int()` first (a `ValueError` leaves the store
      unchanged); then `MATCH (a), (b) WHERE id(a) = ... AND id(b) = ... CREATE (a)-[r]->(b)`
      adds a relationship, with the given properties or none, when both nodes exist, and does
      nothing when either is missing. */
  function CreateRelationship(g: Graph, sourceId: string, targetId: string, relType: string,
                              properties: Option<Properties>): (r: Result<Graph, ValueError>)
    ensures ParseInt(sourceId).None? ==> r == Failure(InvalidLiteral(sourceId))
    ensures ParseInt(sourceId).Some? && ParseInt(targetId).None? ==> r == Failure(InvalidLiteral(targetId))
    ensures r.Success? ==> r.value.nodes == g.nodes && r.value.nextId == g.nextId
  {
    match ParseInt(sourceId)
    case None => Failure(InvalidLiteral(sourceId))
    case Some(s) =>
      match ParseInt(targetId)
      case None => Failure(InvalidLiteral(targetId))
      case Some(t) =>
        if s >= 0 && t >= 0 && s in g.nodes && t in g.nodes then
          Success(g.(rels := g.rels + [Relationship(s, t, relType, properties.GetOr(map[]))]))
        else Success(g)
  }

  lemma CreateRelationshipPreservesValid(g: Graph, sourceId: string, targetId: string, relType: string,
                                         properties: Option<Properties>)
    requires Valid(g)
    requires CreateRelationship(g, sourceId, targetId, relType, properties).Success?
    ensures Valid(CreateRelationship(g, sourceId, targetId, relType, properties).value)
  {
    var r := CreateRelationship(g, sourceId, targetId, relType, properties).value;
    assert forall x | x in r.rels :: x in g.rels || x == r.rels[|r.rels| - 1];
  }

  /** Relating two existing nodes by the ids the client handed out always adds one more
      relationship, even when an equal one exists (`CREATE`, unlike `MERGE`). */
  lemma CreateRelationshipAppends(g: Graph, a: nat, b: nat, relType: string, properties: Option<Properties>)
    requires a in g.nodes && b in g.nodes
    ensures CreateRelationship(g, DecimalString(a), DecimalString(b), relType, properties)
            == Success(g.(rels := g.rels + [Relationship(a, b, relType, properties.GetOr(map[]))]))
  {
    ParseDecimal(a);
    ParseDecimal(b);
  }

  /** A well-formed id of a missing node is not an error: nothing happens. */
  lemma CreateRelationshipMissingNode(g: Graph, a: nat, b: nat, relType: string, properties: Option<Properties>)
    requires a !in g.nodes || b !in g.nodes
    ensures CreateRelationship(g, DecimalString(a), DecimalString(b), relType, properties) == Success(g)
  {
    ParseDecimal(a);
    ParseDecimal(b);
  }

  // ---------------------------------------------------------------------------
  // get_related_nodes

  /** A row of the query: the target node `b`, `id(b)` and `type(r)`. */
  datatype RelatedRecord = RelatedRecord(node: Node, nodeId: nat, relation: string)

  /** `if relation_type:` filters only for a non-empty type. */
  predicate TypeMatches(r: Relationship, relType: Option<string>)
  {
    relType.None? || relType.value == "" || r.relType == relType.value
  }

  /** The pattern of the query matches relationship `x`: it leaves `id`, passes the type test,
      and its target exists. */
  predicate Matches(nodes: map<nat, Node>, x: Relationship, id: int, relType: Option<string>)
  {
    x.source == id && TypeMatches(x, relType) && x.target in nodes
  }

  /** The row a matching relationship gives. */
  function RowOf(nodes: map<nat, Node>, x: Relationship): RelatedRecord
    requires x.target in nodes
  {
    RelatedRecord(nodes[x.target], x.target, x.relType)
  }

  /** `MATCH (a)-[r(:<type>)]->(b) WHERE id(a) = $node_id RETURN b, id(b), type(r)`: one row per
      matching relationship leaving `id`, in creation order.  A row is there exactly when some
      relationship leaving `id` that passes the type test leads to an existing node. */
  function RelatedRecords(nodes: map<nat, Node>, rels: seq<Relationship>, id: int, relType: Option<string>)
    : (r: seq<RelatedRecord>)
    ensures |r| <= |rels|
    ensures forall y :: y in r <==>
              exists j | 0 <= j < |rels| :: Matches(nodes, rels[j], id, relType) && y == RowOf(nodes, rels[j])
  {
    if rels == [] then []
    else
      var x := rels[0];
      var rest := RelatedRecords(nodes, rels[1..], id, relType);
      var head := if Matches(nodes, x, id, relType) then [RowOf(nodes, x)] else [];
      assert forall j | 1 <= j < |rels| :: rels[j] == rels[1..][j - 1];
      assert forall j | 0 <= j < |rels| - 1 :: rels[1..][j] == rels[j + 1];
      head + rest
  }

  /** How many relationships leaving `id` that pass the type test lead to `t` with type `ty`. */
  function MatchCount(rels: seq<Relationship>, id: int, relType: Option<string>, t: nat, ty: string): nat
  {
    if rels == [] then 0
    else
      var x := rels[0];
      (if x.source == id && TypeMatches(x, relType) && x.target == t && x.relType == ty then 1 else 0)
      + MatchCount(rels[1..], id, relType, t, ty)
  }

  /** The query gives the row of target `t` with type `ty` once per matching relationship. */
  lemma {:induction false} RelatedRecordsCount(nodes: map<nat, Node>, rels: seq<Relationship>, id: int,
                                               relType: Option<string>, t: nat, ty: string)
    requires t in nodes
    ensures multiset(RelatedRecords(nodes, rels, id, relType))[RelatedRecord(nodes[t], t, ty)]
            == MatchCount(rels, id, relType, t, ty)
  {
    if rels != [] {
      RelatedRecordsCount(nodes, rels[1..], id, relType, t, ty);
    }
  }

  /** The dictionary built from a row: the node's properties with `id` set to `str(id(b))` and
      `relation` to the relationship type, overriding properties of those names. */
  function RowDict(rec: RelatedRecord): (d: Properties)
    ensures "id" in d && d["id"] == Text(DecimalString(rec.nodeId))
    ensures "relation" in d && d["relation"] == Text(rec.relation)
    ensures forall k | k in rec.node.properties && k != "id" && k != "relation" :: k in d && d[k] == rec.node.properties[k]
    ensures d.Keys == rec.node.properties.Keys + {"id", "relation"}
  {
    rec.node.properties["id" := Text(DecimalString(rec.nodeId))]["relation" := Text(rec.relation)]
  }

  function RowDicts(recs: seq<RelatedRecord>): (r: seq<Properties>)
    ensures |r| == |recs|
    ensures forall i | 0 <= i < |recs| :: r[i] == RowDict(recs[i])
  {
    if recs == [] then [] else [RowDict(recs[0])] + RowDicts(recs[1..])
  }

  /** `get_related_nodes`: `int(node_id)` may raise; otherwise one dictionary per row. */
  function GetRelatedNodes(g: Graph, nodeId: string, relType: Option<string>): (r: Result<seq<Properties>, ValueError>)
    ensures r.Failure? <==> ParseInt(nodeId).None?
    ensures r.Failure? ==> r.error == InvalidLiteral(nodeId)
  {
    match ParseInt(nodeId)
    case None => Failure(InvalidLiteral(nodeId))
    case Some(id) => Success(RowDicts(RelatedRecords(g.nodes, g.rels, id, relType)))
  }

  lemma {:induction false} RelatedRecordsAppend(nodes: map<nat, Node>, rels: seq<Relationship>, x: Relationship,
                                                id: int, relType: Option<string>)
    ensures RelatedRecords(nodes, rels + [x], id, relType)
            == RelatedRecords(nodes, rels, id, relType) + RelatedRecords(nodes, [x], id, relType)
  {
    if rels != [] {
      assert (rels + [x])[1..] == rels[1..] + [x];
      RelatedRecordsAppend(nodes, rels[1..], x, id, relType);
    }
  }

  lemma {:induction false} RowDictsAppend(a: seq<RelatedRecord>, b: seq<RelatedRecord>)
    ensures RowDicts(a + b) == RowDicts(a) + RowDicts(b)
  {
  }

  /** A relationship of the queried type, appended last, adds its row last. */
  lemma RelatedRecordsAfterAppend(nodes: map<nat, Node>, rels: seq<Relationship>, a: nat, b: nat,
                                  relType: string, properties: Properties)
    requires b in nodes
    ensures RelatedRecords(nodes, rels + [Relationship(a, b, relType, properties)], a, Some(relType))
            == RelatedRecords(nodes, rels, a, Some(relType)) + [RelatedRecord(nodes[b], b, relType)]
  {
    var x := Relationship(a, b, relType, properties);
    RelatedRecordsAppend(nodes, rels, x, a, Some(relType));
    assert RelatedRecords(nodes, [x], a, Some(relType)) == [RelatedRecord(nodes[b], b, relType)];
  }

  /** After relating `a` to `b` with a type, the nodes related to `a` by that type are the ones
      before plus `b`, whose row carries `b`'s id (which parses back to `b`) and the type. */
  lemma RelatedAfterCreate(g: Graph, a: nat, b: nat, relType: string, properties: Option<Properties>)
    requires a in g.nodes && b in g.nodes && relType != ""
    ensures var g1 := CreateRelationship(g, DecimalString(a), DecimalString(b), relType, properties).value;
            GetRelatedNodes(g1, DecimalString(a), Some(relType)).Success?
            && GetRelatedNodes(g1, DecimalString(a), Some(relType)).value
               == GetRelatedNodes(g, DecimalString(a), Some(relType)).value
                  + [RowDict(RelatedRecord(g.nodes[b], b, relType))]
  {
    CreateRelationshipAppends(g, a, b, relType, properties);
    ParseDecimal(a);
    var p := properties.GetOr(map[]);
    var g1 := g.(rels := g.rels + [Relationship(a, b, relType, p)]);
    var before := RelatedRecords(g.nodes, g.rels, a, Some(relType));
    var row := RelatedRecord(g.nodes[b], b, relType);
    RelatedRecordsAfterAppend(g.nodes, g.rels, a, b, relType, p);
    assert RelatedRecords(g1.nodes, g1.rels, a, Some(relType)) == before + [row];
    RowDictsAppend(before, [row]);
    assert GetRelatedNodes(g1, DecimalString(a), Some(relType)) == Success(RowDicts(before + [row]));
    assert GetRelatedNodes(g, DecimalString(a), Some(relType)) == Success(RowDicts(before));
  }
}
