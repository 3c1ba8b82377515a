# DeepStudy dialogue store and intent router, modelled in Dafny

DeepStudy is a learning assistant. Its answers form a tree: each follow-up question is stored as a child of the answer it was asked about. This project models the two parts of its backend that have exact behaviour and proves properties about them:

- **The dialogue-tree store** (`backend/data/neo4j_client.py`). `save_dialogue_node` upserts `DialogueNode` records keyed by `node_id`. `link_dialogue_nodes` merges `HAS_CHILD` edges, which may carry a `fragment_id`. `get_dialogue_node` reads one record back. `get_dialogue_tree` recursively reads the tree under a root, down to `max_depth`. The generic `create_node`, `create_relationship` and `get_related_nodes` work on a property graph whose nodes have integer ids assigned by the store.
- **Intent classification** (`backend/agent/intent_router.py`). `IntentRouter.route` turns the language model's reply into `CODE`, `DERIVATION` or `CONCEPT`.

Files:

- `wrappers.dfy`: `Option` (Python's `None`) and `Result` (a raised exception).
- `intent_router.dfy`: module `IntentRouter`. Pure functions for `str.strip()`, `str.lower()`, the `in` operator on strings, and `route`. The model call is not modelled: its outcome is an input `Completion`, which is either a reply text or `Raised`.
- `dialogue_graph.dfy`: module `DialogueGraph`. The store is a value `Graph`: a map from `node_id` to the record, plus the `HAS_CHILD` edges in creation order. Each Cypher statement is a function over that value, and the lemmas state the store's properties.
- `property_graph.dfy`: module `PropertyGraph`. The generic graph as a value, `str(int)` and `int(str)` for the ids, and the three generic operations.
- `neo4j_client.dfy`: module `Neo4j`, class `Neo4jClient`. The database is kept in the object's fields. Each method runs one client operation in place and is proved against its specifying function. The methods that change the store keep the invariant `Valid()`. `GetChildren` is the nested `get_children`: a loop over the ordered rows, calling itself recursively one level deeper for each kept child.

Behaviour of the code worth noting:

- **Child order.** Children are ordered by their `timestamp` property, which the caller of `save_dialogue_node` may set. Creation order plays no part.
- **Cycles.** Nothing stops `HAS_CHILD` edges from forming a cycle. The tree reader terminates because of `max_depth` alone. `SelfLoopTree` shows a node that is its own child, read with `max_depth` 2.
- **Owner check.** Only the root's `user_id` is checked. Children owned by other users are returned too: `ChildrenContents` counts edges and ignores owners.
- **Parallel edges.** An edge created without a fragment id is matched by any later link without one. A link with a new fragment id adds a parallel edge. The reader returns one row per edge, so such a child appears more than once.

## Model

| member | source | states |
|---|---|---|
| `IntentRouter.IntentType.Value` | backend/agent/intent_router.py:11-15 | definition: each intent's string value is the enum's lower-case name; distinctness in `ValueInjective` |
| `IntentRouter.ValueInjective` | backend/agent/intent_router.py:11-15 | the three intents have distinct string values |
| `IntentRouter.Lower` | backend/agent/intent_router.py:71 | definition of `lower()` on ASCII letters; properties in `LowerSlice` and `RouteIgnoresCase` |
| `IntentRouter.Strip` | backend/agent/intent_router.py:71 | definition of `strip()`; properties in `StripBounds`, `StripStart` and `StripEnd` |
| `IntentRouter.Normalize` | backend/agent/intent_router.py:71 | definition of `strip().lower()`; properties in `NormalizeKeepsMarkers` |
| `IntentRouter.IsSpace` | backend/agent/intent_router.py:71 | definition: the code points Python's `str.isspace()` accepts, which `strip()` removes; used by `StripStart`, `StripEnd` and `StripBounds` |
| `IntentRouter.StripStart` | backend/agent/intent_router.py:71 | the result is a suffix of the input, everything removed is white space, and it does not start with white space |
| `IntentRouter.StripEnd` | backend/agent/intent_router.py:71 | the result is a prefix of the input, everything removed is white space, and it does not end with white space |
| `IntentRouter.Contains` | backend/agent/intent_router.py:74-77 | `sub in s` holds exactly when `sub` occurs in `s` at some index |
| `IntentRouter.OccurrenceInsideSlice` | backend/agent/intent_router.py:71 | if only white space lies outside a slice, an occurrence of a white-space-free marker lies inside the slice |
| `IntentRouter.SliceKeepsMarker` | backend/agent/intent_router.py:71 | trimming white-space borders neither adds nor removes an occurrence of a white-space-free marker |
| `IntentRouter.NormalizeKeepsMarker` | backend/agent/intent_router.py:71-77 | the markers occur in `text.strip().lower()` exactly when they occur in the lower-cased reply |
| `IntentRouter.MarkersHaveNoSpace` | backend/agent/intent_router.py:74-77 | none of `code`, `代码`, `derivation`, `推导` holds a white-space character |
| `IntentRouter.NormalizeKeepsMarkers` | backend/agent/intent_router.py:71-77 | both the code test and the derivation test answer the same on `text.strip().lower()` as on the lower-cased reply |
| `IntentRouter.StripBounds` | backend/agent/intent_router.py:71 | `strip()` keeps one contiguous slice of the reply and removes only white space before and after it |
| `IntentRouter.LowerSlice` | backend/agent/intent_router.py:71 | lower-casing a slice equals taking the slice of the lower-cased reply |
| `IntentRouter.MissingCharNoOccurrence` | backend/agent/intent_router.py:74-77 | a string that lacks one of a marker's characters does not contain the marker |
| `IntentRouter.HasCodeMarker` | backend/agent/intent_router.py:74 | definition of `"code" in intent_str or "代码" in intent_str`; properties in `Route` and `NormalizeKeepsMarkers` |
| `IntentRouter.HasDerivationMarker` | backend/agent/intent_router.py:76 | definition of `"derivation" in intent_str or "推导" in intent_str`; properties in `Route` and `NormalizeKeepsMarkers` |
| `IntentRouter.Parse` | backend/agent/intent_router.py:74-79 | definition of the if/elif/else chain; properties in `Route` |
| `IntentRouter.Route` | backend/agent/intent_router.py:69-82 | an exception gives `CONCEPT`; otherwise `CODE` exactly when a code marker occurs, `DERIVATION` exactly when a derivation marker occurs without a code marker, `CONCEPT` exactly when neither occurs |
| `IntentRouter.RouteIgnoresCase` | backend/agent/intent_router.py:71 | replies that differ only in letter case classify identically |
| `IntentRouter.RouteUpperCaseCode` | backend/agent/intent_router.py:71-75 | a padded upper-case `CODE` reply is `CODE` |
| `IntentRouter.RouteCodeBeforeDerivation` | backend/agent/intent_router.py:74-77 | a reply naming both derivation and code is `CODE` |
| `IntentRouter.RouteChineseDerivation` | backend/agent/intent_router.py:76-77 | the reply `推导` is `DERIVATION` |
| `DialogueGraph.EmptyIsValid` | backend/data/neo4j_client.py:14-19 | an empty database satisfies the store invariant |
| `DialogueGraph.Save` | backend/data/neo4j_client.py:184-202 | a save stores exactly the written record under its `node_id`, leaves every other record and every edge as it was, and adds no other key |
| `DialogueGraph.WrittenNode` | backend/data/neo4j_client.py:181-182 | the written record has the given `node_id`, and its timestamp is the given one or else the clock reading |
| `DialogueGraph.GetNode` | backend/data/neo4j_client.py:270-279 | returns `None` exactly when no record has that `node_id`; in a valid store, a returned record carries that `node_id` |
| `DialogueGraph.GetAfterSave` | backend/data/neo4j_client.py:184-202 | reading a node after saving it returns exactly the fields just written |
| `DialogueGraph.SaveFrame` | backend/data/neo4j_client.py:187-194 | saving node `k` leaves the reading of every other node, and all edges, unchanged |
| `DialogueGraph.SaveIdempotent` | backend/data/neo4j_client.py:184-202 | saving the same record twice gives the same state as saving it once |
| `DialogueGraph.SaveTwiceWithClock` | backend/data/neo4j_client.py:181-202 | two calls with the same arguments equal one call exactly when a timestamp is passed or the clock reads the same both times |
| `DialogueGraph.SavePreservesValid` | backend/data/neo4j_client.py:184-202 | saving keeps the store invariant |
| `DialogueGraph.Tagged` | backend/data/neo4j_client.py:235 | definition of `if fragment_id:` (false for `None` and the empty string); used by `Link` and its lemmas |
| `DialogueGraph.Joined` | backend/data/neo4j_client.py:251 | definition of what the untagged `MERGE` matches: any edge from the parent to the child; properties in `LinkUntaggedWhenJoined` and `LinkUntaggedAddsEdge` |
| `DialogueGraph.Link` | backend/data/neo4j_client.py:218-255 | fails exactly when an endpoint is missing (parent checked first, with the matching error); on success the nodes are unchanged, the pair is joined, and the edges are either the old ones or the old ones followed by one edge from parent to child carrying the fragment id (none when it is falsy) |
| `DialogueGraph.LinkFailureAddsNothing` | backend/data/neo4j_client.py:220-232 | a missing parent or child makes the link fail, and a missing parent is reported as such |
| `DialogueGraph.LinkIdempotent` | backend/data/neo4j_client.py:235-255 | linking the same (parent, child, fragment id) a second time leaves the store as the first link left it |
| `DialogueGraph.LinkUntaggedWhenJoined` | backend/data/neo4j_client.py:246-255 | without a fragment id (`None` or empty), linking is a no-op if any edge already joins the pair |
| `DialogueGraph.LinkTaggedAddsParallelEdge` | backend/data/neo4j_client.py:235-245 | a fragment id not yet on an edge of the pair adds one more edge with it, even when the pair is already joined |
| `DialogueGraph.LinkUntaggedAddsEdge` | backend/data/neo4j_client.py:246-255 | without a fragment id, linking a pair not yet joined appends one edge without a fragment id |
| `DialogueGraph.LinkTaggedWhenPresent` | backend/data/neo4j_client.py:235-245 | a fragment id already on an edge of the pair changes nothing |
| `DialogueGraph.LinkPreservesValid` | backend/data/neo4j_client.py:218-255 | linking keeps the store invariant: endpoints exist, no empty fragment id, no duplicate edge |
| `DialogueGraph.EdgeChildren` | backend/data/neo4j_client.py:322-329 | the query gives at most one row per edge, and every row is a stored record |
| `DialogueGraph.ChildRows` | backend/data/neo4j_client.py:322-329 | definition of the `MATCH` rows for a parent; properties in `EdgeChildren`, `EdgeChildrenCount` and `OrderedChildRows` |
| `DialogueGraph.EdgeChildrenCount` | backend/data/neo4j_client.py:322-329 | the query returns a child's record once per edge from the parent to that child |
| `DialogueGraph.SortedHead` | backend/data/neo4j_client.py:326 | the first row of a sorted list has the earliest timestamp |
| `DialogueGraph.ConsSorted` | backend/data/neo4j_client.py:326 | a row no later than every row of a sorted list can be put in front and the list stays sorted |
| `DialogueGraph.Insert` | backend/data/neo4j_client.py:326 | inserting into a sorted list keeps it sorted, adds exactly the new row, and adds nothing else |
| `DialogueGraph.SortByTimestamp` | backend/data/neo4j_client.py:326 | `ORDER BY child.timestamp` gives a sorted permutation of the rows |
| `DialogueGraph.OrderedChildRows` | backend/data/neo4j_client.py:322-329 | the rows `get_children` loops over are the parent's edge rows, sorted by timestamp |
| `DialogueGraph.Children` | backend/data/neo4j_client.py:318-342 | definition of `get_children`; properties in `ChildrenContents`, `ChildrenNesting` and `ChildrenAtMaxDepth` |
| `DialogueGraph.Subtrees` | backend/data/neo4j_client.py:331-341 | definition of the `async for` loop; properties in `SubtreesStep`, `SubtreesShape` and `SubtreesNesting` |
| `DialogueGraph.SubtreesStep` | backend/data/neo4j_client.py:332-340 | one loop step: a child with an empty `node_id` is skipped, otherwise it is appended with its own children |
| `DialogueGraph.Tree` | backend/data/neo4j_client.py:298-345 | returns `None` exactly when no node has both the root id and the user id; otherwise the root is that record with the `children` read from depth 0 and, in a valid store, carries the root id |
| `DialogueGraph.ChildrenNesting` | backend/data/neo4j_client.py:318-320 | every tree under `get_children(p, depth)` nests at most `max_depth - depth - 1` levels |
| `DialogueGraph.SubtreesNesting` | backend/data/neo4j_client.py:331-341 | every entry the loop builds at child depth `d` nests at most `max_depth - d` levels |
| `DialogueGraph.TreeDepthBound` | backend/data/neo4j_client.py:318-344 | the returned tree nests at most `max_depth` levels, and any node at depth `max_depth` or below has an empty `children` list, whatever cycles the edges form |
| `DialogueGraph.Records` | backend/data/neo4j_client.py:340 | a list of tree nodes has one record per entry |
| `DialogueGraph.Named` | backend/data/neo4j_client.py:334-336 | the kept rows are exactly the rows with a non-empty `node_id` |
| `DialogueGraph.NamedMultiset` | backend/data/neo4j_client.py:334-336 | skipping drops every row with an empty `node_id` and keeps every other row as often as it occurred |
| `DialogueGraph.NamedSorted` | backend/data/neo4j_client.py:331-341 | skipping rows keeps them in timestamp order |
| `DialogueGraph.SubtreesShape` | backend/data/neo4j_client.py:331-341 | the loop's entries are the kept rows in order, each carrying the children of its own node |
| `DialogueGraph.ChildrenContents` | backend/data/neo4j_client.py:318-342 | below `max_depth`, a `children` list is sorted by timestamp, holds only stored records with a non-empty `node_id`, has one entry per edge to a named child (none for an empty `node_id`), and each entry holds its own children one level deeper |
| `DialogueGraph.ChildrenAtMaxDepth` | backend/data/neo4j_client.py:319-320 | at depth `max_depth` or deeper the list is empty |
| `DialogueGraph.SelfLoopTree` | backend/data/neo4j_client.py:318-344 | a node that is its own child gives a finite tree that with `max_depth` 2 repeats the node once per level, three levels in all, and stops |
| `DialogueGraph.TwoEdgesTwoEntries` | backend/data/neo4j_client.py:322-340 | a store with two edges from one parent to one child lists the child twice |
| `DialogueGraph.ParallelEdgesRepeatChild` | backend/data/neo4j_client.py:204-255 | saving a parent and a child, then linking them under two distinct non-empty fragment ids, makes the tree list the child twice |
| `PropertyGraph.DecimalString` | backend/data/neo4j_client.py:46 | `str(id)` is a non-empty string of decimal digits |
| `PropertyGraph.ParseInt` | backend/data/neo4j_client.py:75-76 | `int(s)` succeeds exactly on an optional sign followed by one or more decimal digits; unsigned and `+`-signed digits read as their decimal value, and a `-` sign negates it |
| `PropertyGraph.DigitsValueOfDecimal` | backend/data/neo4j_client.py:46 | reading back the digits of `str(n)` gives `n` |
| `PropertyGraph.ParseDecimal` | backend/data/neo4j_client.py:75-76 | `int(str(n)) == n`: ids handed out by `create_node` are accepted by `create_relationship` |
| `PropertyGraph.CreateNode` | backend/data/neo4j_client.py:40-46 | the new node is stored under the next id, the relationships are unchanged, and the next id grows |
| `PropertyGraph.CreateNodeFresh` | backend/data/neo4j_client.py:40-46 | the new id was unused, existing nodes are unchanged, and the invariant holds |
| `PropertyGraph.CreateRelationship` | backend/data/neo4j_client.py:64-85 | an unparsable source id, then an unparsable target id, raises `ValueError`; success never changes the nodes |
| `PropertyGraph.CreateRelationshipPreservesValid` | backend/data/neo4j_client.py:64-85 | relationships only ever join existing nodes |
| `PropertyGraph.CreateRelationshipAppends` | backend/data/neo4j_client.py:64-85 | relating two existing nodes always appends a relationship, even a duplicate one (CREATE, not MERGE) |
| `PropertyGraph.CreateRelationshipMissingNode` | backend/data/neo4j_client.py:66-68 | a well-formed id of a missing node silently changes nothing |
| `PropertyGraph.TypeMatches` | backend/data/neo4j_client.py:130-135 | definition of `if relation_type:`: no type, or the empty string, filters nothing; otherwise the relationship's type must equal it |
| `PropertyGraph.Matches` | backend/data/neo4j_client.py:129-148 | definition of the query's pattern: the relationship leaves the node, passes the type test and leads to an existing node; used by `RelatedRecords` |
| `PropertyGraph.RowOf` | backend/data/neo4j_client.py:131-135 | definition of a row: `b`, `id(b)` and `type(r)`; used by `RelatedRecords` |
| `PropertyGraph.MatchCount` | backend/data/neo4j_client.py:129-148 | reference count of matching relationships to one target with one type; used by `RelatedRecordsCount` |
| `PropertyGraph.RelatedRecords` | backend/data/neo4j_client.py:129-148 | the query gives at most one row per relationship, and a row is there exactly when some relationship leaving the node that passes the type test leads to an existing node, the row being that target's record, id and type |
| `PropertyGraph.RelatedRecordsCount` | backend/data/neo4j_client.py:129-148 | the row of a target with a type occurs once per matching relationship leaving the node with that target and type |
| `PropertyGraph.RowDict` | backend/data/neo4j_client.py:152-156 | a row's dictionary is the node's properties with `id` set to `str(id(b))` and `relation` set to the type, overriding those keys |
| `PropertyGraph.RowDicts` | backend/data/neo4j_client.py:150-157 | one dictionary per row, in row order |
| `PropertyGraph.GetRelatedNodes` | backend/data/neo4j_client.py:114-157 | fails with `ValueError` exactly when `int(node_id)` fails |
| `PropertyGraph.RelatedRecordsAppend` | backend/data/neo4j_client.py:129-148 | the rows for a store with one more relationship are the old rows plus that relationship's row |
| `PropertyGraph.RowDictsAppend` | backend/data/neo4j_client.py:150-157 | building dictionaries distributes over concatenation |
| `PropertyGraph.RelatedAfterCreate` | backend/data/neo4j_client.py:114-157 | after relating `a` to `b` with a type, querying `a` by that type gives the earlier result plus `b`'s row |
| `PropertyGraph.RelatedRecordsAfterAppend` | backend/data/neo4j_client.py:129-148 | appending a relationship of the queried type from the queried node adds exactly the target's record at the end of the matched rows |
| `Neo4j.Neo4jClient.constructor` | backend/data/neo4j_client.py:14-19 | a client over an empty database satisfies the invariant |
| `Neo4j.Neo4jClient.CreateNode` | backend/data/neo4j_client.py:25-46 | stores the node under a fresh id, returns that id as a string that `int()` parses back, and leaves the dialogue tree unchanged |
| `Neo4j.Neo4jClient.CreateRelationship` | backend/data/neo4j_client.py:48-85 | on `ValueError` the store is unchanged; otherwise the store becomes `PropertyGraph.CreateRelationship` of the old store |
| `Neo4j.Neo4jClient.GetRelatedNodes` | backend/data/neo4j_client.py:114-157 | the loop's list equals `PropertyGraph.GetRelatedNodes` of the store |
| `Neo4j.Neo4jClient.SaveDialogueNode` | backend/data/neo4j_client.py:159-202 | the dialogue tree becomes `Save` of the old tree with the written record; the invariant and the generic graph are kept |
| `Neo4j.Neo4jClient.LinkDialogueNodes` | backend/data/neo4j_client.py:204-255 | reports `Link`'s error and changes nothing, or else becomes `Link`'s new tree; the invariant is kept |
| `Neo4j.Neo4jClient.GetDialogueNode` | backend/data/neo4j_client.py:257-279 | returns the stored record, or `None` exactly when there is none |
| `Neo4j.Neo4jClient.GetDialogueTree` | backend/data/neo4j_client.py:281-345 | returns `Tree` of the stored dialogue tree |
| `Neo4j.Neo4jClient.GetChildren` | backend/data/neo4j_client.py:318-342 | the recursive loop returns `Children` of the stored tree at that depth |

## Left out

- The Neo4j driver, sessions, `close()` and `async`/`await`. The database is the object's fields, and each client method runs as one atomic step, including the three statements of `link_dialogue_nodes`. Calls never overlap in the model.
- Building Cypher text by interpolating the label and relation type. The label and type are ordinary parameters here.
- Sharing one database between the generic and the dialogue operations. In the model they use separate fields. A `DialogueNode` made by `create_node`, or a `HAS_CHILD` edge made by `create_relationship`, is therefore not seen by the dialogue reader. For the same reason, a `DialogueNode` without any `node_id` property cannot exist, so the reader's skip is modelled only for the other falsy `node_id`, the empty string.
- Several `DialogueNode`s sharing one `node_id`, and duplicate `HAS_CHILD` edges. The database has no uniqueness constraint, so `create_node`, two overlapping `save_dialogue_node` MERGEs on one `node_id`, or two overlapping untagged links can make them. The model assumes calls never overlap and keys the store by `node_id`, so neither can arise.
- `datetime.utcnow()` and ISO-8601 formatting. The clock is the parameter `now`, and a timestamp is an integer key compared as a number, not as a string.
- Equal timestamps. Neo4j leaves the order of such rows unspecified. The model keeps edge creation order. Sortedness and the per-edge counts are proved without relying on this choice.
- `mastery_score`. It is carried as an opaque `real`, and nothing computes on it.
- `get_node_by_name`. Its result when several nodes match depends on the driver's `single()`, which is not part of this model.
- Rows of `get_related_nodes` come in relationship creation order. Neo4j does not fix an order.
- `PropertyGraph.ParseInt`: Python's `int()` also accepts surrounding white space, `_` between digits and non-ASCII digits. These are not modelled, so the model raises `ValueError` on such strings where Python would not. It also raises `ValueError` on a literal of more than 4300 digits, which the model accepts.
- `PropertyGraph.CreateRelationship`: Neo4j integers are signed 64-bit, and the driver raises on an id parameter outside that range. The model has no such error: an out-of-range id names no stored node, so the model changes nothing and succeeds.
- `PropertyGraph.GetRelatedNodes`: for the same reason, an id outside the signed 64-bit range gives an empty list in the model, where the driver raises.
- Property values other than text, integers and booleans (floats, lists). Cypher's removal of `null`-valued properties on `CREATE` is also not modelled.
- `IntentRouter.Route`: `lower()` is modelled only for ASCII letters. Python lowers every Unicode letter. The only non-ASCII characters whose lower case contains ASCII letters are U+212A (to `k`) and U+0130 (to `i` followed by a combining dot). Neither can complete a marker, so the classification is the same, but this argument is not part of the proof.
- The prompt text, the few-shot examples and the model call itself. These are calls to a foreign service. The call's outcome is the input `Completion`, and an `Exception` from the call or from reading its text is `Raised`.
- `IntentRouter.Route`: `except Exception` does not catch `BaseException` subclasses such as `asyncio.CancelledError`, which propagate out of `route` instead of giving `CONCEPT`. The model has no outcome for them.
- Default arguments. `max_depth=10` of `get_dialogue_tree` and `mastery_score=0.0` of `save_dialogue_node` are not modelled: the model's callers must pass both.
- `AgentOrchestrator`, the FastAPI routes, authentication, CORS, and the startup and health endpoints. These are glue around code that is not part of this model, and the fragment, triple and mind-map steps are TODOs in the code.
