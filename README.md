# dupjoin normalisation, modelled in Dafny

This project models `normalize(graph, options)` of the dupjoin library
(`src/api.js`). The function turns a network port graph (nodes with
ordered input and output ports, a parent hierarchy, and edges between
ports) into a normal form in three passes:

1. **Duplicates and joins** (`createDupJoins`):
   - The graph's fans are found. A fan is two or more non-continuation edges leaving one output port (`multipleOuts`) or entering one input port (`multipleIns`).
   - Each fan is replaced by a balanced binary tree: `control/duplicate` nodes for an output fan, `control/join` nodes for an input fan (`createDuplicates`, `createJoins`).
   - The edges on the fans' routes are removed, and the trees' nodes and edges are appended.
2. **Id nodes** (`rewriteEdgesThroughCompoundNodes`): every self-loop of a compound node is replaced by two edges through a new `std/id` node placed inside that compound.
3. **Consume sinks** (`addConsumeForUnusedPorts`):
   - Every output port with no successor gets a `control/consume` sink, unless its node sits directly inside a `functional/lambda`.
   - Every input port of a compound with no successor gets a sink inside the compound.

The graph library the passes call is modelled in `graph.dfy`:
- **Storage:** nodes are keyed by name and edges by (source, target, name). Writing an existing key relabels it in place; writing a new key appends it. Lists keep insertion order; see Left out for names that JavaScript orders differently.
- **Mutation:** the in-memory graph is a class (`PortGraph.Graph`) whose methods change it in place.
- **Interchange form:** the `{nodes, edges}` record is a class (`PortGraph.JsonGraph`) whose two lists `createDupJoins` reassigns.
- **`importJSON`:** a left fold of those writes.

The passes that loop over a graph are methods with loops. Each is proved equal to a pure fold (`Boundary.Rewrite`, `Drain.DrainAll`), and the properties of the passes are proved about those folds.

Files:
- `wrappers.dfy`: `Option` and `Result`.
- `strings.dfy`: decimal rendering of naturals and prefix lemmas.
- `graph.dfy`: the graph library.
- `fan.dfy`: fan detection.
- `trees.dfy`: the trees.
- `splice.dfy`: `parent`, `mergeNodes` and `createDupJoins`.
- `boundary.dfy`: `createEdge` and the id-node pass.
- `drain.dfy`: `isLambda` and the consume pass.
- `normalize.dfy`: options and the whole pipeline.

Five behaviours of the code that a reader might not expect, each kept as written:
- **The join split.** The code splits the join tree at `Math.floor(from + to) / 2 + 1`, not at the middle that the duplicate tree uses; see Findings. The splice calls `createJoins` as written. It throws a `RangeError` for every input bundle whose size this split cannot handle, and every tree it does build is the corrected one (`Splice.JoinTreeOfMeaning`).
- **Join-tree placement.** The join tree is placed in the scope of the first producer, `graph.parent(e[0].v)`, not in the consumer's scope (`Splice.JoinAnchor`).
- **Edge removal.** The code removes every edge whose route matches a fan edge, continuation edges included (`Splice.RemovedExactly`).
- **Sink names.** Output and input sinks are both named `${n}_consume_dummy_${port}`. An input port that shares its name with an already drained output port of the same node therefore gets no sink (`Drain.SharedNameSkipsInput`).
- **The id node's port types.** They are looked up crosswise: `input` from the compound's output ports under `inPort`, `output` from its input ports under `outPort` (`Boundary.IdLabel`).

## Model

| member | source | states |
|---|---|---|
| PortGraph.FindNode | src/api.js:191 | `graph.node(v)` finds a node exactly when `v` is a node name, and the node found carries that name |
| PortGraph.Successors | src/api.js:229 | `walk.successor(graph, n, port)`: exactly the edges leaving port `port` of `n`, no more than there are edges |
| PortGraph.Predecessors | src/api.js:284 | exactly the edges entering port `port` of `n` |
| PortGraph.PutNode | src/api.js:193-206 | after `setNode(v, …)`, `v` is a node; a new name is appended without a parent |
| PortGraph.Relabel | src/api.js:193-206 | relabelling an existing node keeps every name and position and changes only the label of `v` |
| PortGraph.PutParent | src/api.js:207 | `setParent` keeps every node name and changes only the parent of `v` |
| PortGraph.PutEdge | src/api.js:174-177 | after `setEdge`, the edge's key is present; a fresh key is appended at the end |
| PortGraph.Rewire | src/api.js:174-177 | writing an existing key replaces that edge's label in place and keeps the key list |
| PortGraph.DropEdge | src/api.js:210 | `removeEdge(e)` leaves exactly the edges with another key |
| PortGraph.PutEdgeEffect | src/api.js:174-177 | the written edge is present, nothing but it is new, every edge with another key survives, no key is lost |
| PortGraph.DropEdgeKeys | src/api.js:210 | after removal, a key is present iff it was present and is not the removed one |
| PortGraph.PutEdgeKeepsUnique | src/api.js:174-177 | writing an edge keeps edge keys unique |
| PortGraph.DropEdgeKeepsUnique | src/api.js:210 | removing an edge keeps edge keys unique |
| PortGraph.FindPlaced | src/api.js:193-207 | after `setNode(v, label)` and `setParent(v, p)`, `v` is found with exactly that label and parent |
| PortGraph.FindOther | src/api.js:193-207 | writing node `v` or its parent leaves every other node as it was |
| PortGraph.FindUnique | src/api.js:191 | with unique node names, `graph.node` finds every listed node under its own name |
| PortGraph.NodeWrites | src/api.js:193-206 | every node after `setNode` was there before, or is `v` with the new label |
| PortGraph.ImportJSONRoundTrip | src/api.js:186 | `importJSON` of a graph with unique node names and edge keys, whose parents are non-empty names, gives the same graph back |
| PortGraph.ImportEdgesUnique | src/api.js:186 | the imported graph's edge keys are unique |
| PortGraph.ImportEdgesFrom | src/api.js:186 | every imported edge is an edge of the interchange form |
| PortGraph.Graph.FromJSON | src/api.js:186 | the graph read from the interchange form is the `importJSON` fold of it |
| PortGraph.Graph.SetNode | src/api.js:193-206 | the node list becomes `PutNode` of the old one; edges unchanged |
| PortGraph.Graph.SetParent | src/api.js:207 | the node list becomes `PutParent` of the old one; edges unchanged |
| PortGraph.Graph.SetEdge | src/api.js:174-177 | the edge list becomes `PutEdge` of the old one; nodes unchanged |
| PortGraph.Graph.RemoveEdge | src/api.js:210 | the edge list becomes `DropEdge` of the old one; nodes unchanged |
| PortGraph.JsonGraph.constructor | src/api.js:306 | `toJSON(graph)` holds exactly the graph's nodes and edges |
| Fan.Incident | src/api.js:14 | `outEdges(n)` / `inEdges(n)`: exactly the edges whose source (target) is `n` |
| Fan.DropContinuations | src/api.js:16 | exactly the non-continuation edges are kept |
| Fan.Tag | src/api.js:17 | every edge is tagged, in order, with the key `node + port` and its port's type |
| Fan.FanEdges | src/api.js:13-17 | the reference fan: exactly the non-continuation edges at one port |
| Fan.WithKey | src/api.js:18 | the elements with key `k`, in order |
| Fan.Fans | src/api.js:19 | a group is kept iff it has more than one element |
| Fan.GroupByKeyGroups | src/api.js:18 | `groupBy('id')`: every group is non-empty and is exactly the elements with its key; every element's key has a group |
| Fan.GroupsAreWhole | src/api.js:18 | every group is the whole set of elements with its key |
| Fan.KeyWithinNode | src/api.js:13-18 | among one node's edges, the separator-less key `node + port` gathers exactly one port's fan |
| Fan.FanEdgesOfIncident | src/api.js:14-16 | dropping continuations from one node's edges and taking a port's edges gives that port's fan |
| Fan.NodeFansAreFans | src/api.js:12-20 | every bundle reported for a node is a whole fan of one of its ports |
| Fan.MultipleOutsExact | src/api.js:11-24 | every bundle of `multipleOuts` is a whole output fan; a bundle reports at a port iff its node is in the graph and it has two or more non-continuation out-edges |
| Fan.MultipleInsExact | src/api.js:26-39 | the same for `multipleIns` and input ports |
| Fan.FanMembers | src/api.js:15-17 | every bundle element is a non-continuation edge of the graph at the bundle's port, with the bundle's key and type |
| Trees.GenericTag | src/api.js:42-45 | the generic settings are present exactly for a non-empty string type not containing `generic`, and record that type |
| Trees.TreeNodeShape | src/api.js:41-92 | a duplicate (join) node is atomic, sits in the anchor's scope, has the anchor's prefix, types every port with the anchor's type, orders arguments inputs then outputs, has the ports `in`/`d1`,`d2` (`in1`,`in2`/`to`), and only joins are special forms |
| Trees.Wire | src/api.js:94-103 | `edge(from, to)` runs from `from` to `to`, unnamed and not a continuation |
| Trees.Flow | src/api.js:113-115 | a tree edge has the given anchor-side and far-side ends, for either direction of tree |
| Trees.Mid | src/api.js:118-119 | the split point leaves both halves non-empty, and the lower half of three or more is not a single index |
| Trees.Tree | src/api.js:105-125 | the tree over `n` far ends has `n - 1` nodes and `2(n - 1) + 1` edges |
| Trees.TreeRoot | src/api.js:120-123 | a tree's first node is the node for the whole range, and its last edge joins the anchor to that node |
| Trees.BuildSplit | src/api.js:106-119 | applying `to \|\| length - 1` at every call changes nothing below the top: a split is two subtrees over `[from, mid]` and `[mid + 1, to]` |
| Trees.TreeNodes | src/api.js:105-125 | every tree node is labelled for the anchor's type, lies in the anchor's scope and under its name prefix, and no node name repeats |
| Trees.BuildLabels | src/api.js:107-124 | every node of a duplicate (join) tree carries the duplicate (join) label for the anchor's type |
| Trees.TreeEnds | src/api.js:105-125 | the anchor port and each far-side port of every tree node start exactly one edge; each far end is reached as often as it is listed, and each node's anchor-side port once |
| Trees.TreeLeaves | src/api.js:105-125 | for any list of ends: read in edge order, the edges at the tree's leaf positions (`LeafMask`) reach exactly `ends[from..to]` in order, and every other edge reaches the anchor-side port of a node of the tree |
| Trees.TreeWires | src/api.js:94-125 | every tree edge is unnamed and not a continuation |
| Trees.UpEndPlaced | src/api.js:105-125 | every tree edge leaves (for joins: enters) the anchor or a node of the tree |
| Trees.DownEndPlaced | src/api.js:105-125 | every tree edge enters (for joins: leaves) one of the far ends or a node of the tree |
| Trees.AnchorOnce | src/api.js:105-125 | when no tree node is named like the anchor's node, exactly one tree edge leaves (for joins: enters) the anchor |
| Trees.JoinsFeed | src/api.js:127-147 | every producer of a join tree starts a plain edge of that tree |
| Trees.TreeNameInjective | src/api.js:47 | a tree node's name determines its index range, so the nodes of one tree never collide |
| Trees.CreateJoinsAgrees | src/api.js:127-147 | where `createJoins` as written terminates, it builds exactly the corrected join tree |
| Trees.CreateJoinsTerminates | src/api.js:141 | `createJoins` as written terminates exactly for ranges of 1, 2, 3 or 5 producers |
| Trees.FourPredecessorsOverflow | src/api.js:141 | four producers make `createJoins` as written recurse without end, while the corrected tree has three join nodes |
| Trees.FractionalStartNeverBottomsOut | src/api.js:128-141 | from a fractional `from`, no call down the left spine meets a base case, and `to \|\| …` never resets `to` |
| Strings.ParseNatToString | src/api.js:47 | the decimal rendering used in node names reads back to the number |
| Splice.Parent | src/api.js:162-170 | the scope is the producer's scope or one of the two ends; for ends that are siblings or parent and child, both ends can be wired from it |
| Splice.MergeAllConcat | src/api.js:149-154 | reducing with `mergeNodes` concatenates all nodes and all edges, part by part |
| Splice.MergeOrFailIff | src/api.js:281-286 | reducing the join trees succeeds iff no tree is `undefined`, and then is the plain merge |
| Splice.CompactMember | src/api.js:275 | `_.compact` keeps only defined trees |
| Splice.DupTrees | src/api.js:275-279 | one duplicate tree per output bundle, in bundle order |
| Splice.JoinTreeOfMeaning | src/api.js:281-285 | a bundle's join tree is `undefined` iff its first edge has an empty `outPort`; building it throws a `RangeError` iff the port's producer count is one the as-written split never finishes; any tree built is the corrected join tree over all producers |
| Splice.Collect | src/api.js:281-285 | a map whose callback may throw fails iff some element throws, with the error of the first element that throws; otherwise it yields every element's value, in order |
| Splice.JoinResults | src/api.js:281-285 | the callback is applied to every input bundle, in bundle order |
| Splice.JoinTrees | src/api.js:281-285 | the map over input bundles throws a `RangeError` iff some bundle's tree does not end; otherwise it yields each bundle's tree, in bundle order |
| Splice.DupsInFails | src/api.js:281-286 | `dupsIn` throws a `RangeError` iff some input bundle's tree does not end, otherwise a `TypeError` iff some input bundle's first edge has an empty `outPort`, and nothing else |
| Splice.JoinTreesFail | src/api.js:281-286 | once the map is through, the merge throws iff some input bundle's first edge has an empty `outPort` |
| Splice.TreeNodesLabelled | src/api.js:275-286 | every node of `dupsOut` is an atomic `control/duplicate`; every node of `dupsIn` is an atomic `control/join` |
| Splice.FanHasNeighbours | src/api.js:275-285 | a bundle's port has at least two adjacent ports, so a tree can be built over them |
| Splice.BundleEdgesMember | src/api.js:288 | `removeEdges` holds exactly the edges of all bundles |
| Splice.RemovedExactly | src/api.js:288-291 | an edge is rejected iff some fan edge of the graph, out of its source port or into its target port, runs the same route |
| Splice.Reject | src/api.js:292 | rejection keeps only edges that were there, and never more of them |
| Splice.RejectKeeps | src/api.js:292 | an edge is kept iff it was there and no removed edge runs its route |
| Splice.RejectKeepsOrder | src/api.js:292 | rejection keeps the order of the kept edges |
| Splice.RejectNothing | src/api.js:292 | with nothing on matching routes, rejection changes nothing |
| Splice.DupJoins | src/api.js:272-297 | the splice throws a `RangeError` iff some join tree does not end, otherwise a `TypeError` iff a join bundle starts with an unnamed output port; when it goes through it keeps every node and every edge off the fan routes |
| Splice.CreateDupJoins | src/api.js:272-297 | when `dupsIn` goes through, the interchange graph gets the join then duplicate trees' nodes appended, its edges rejected and the trees' edges appended; when it throws, the method fails with the same error and the graph is untouched; it agrees with `Splice.DupJoins` on success, error and result |
| Splice.KeptLeaveNone | src/api.js:288-292 | the rejection keeps no non-continuation edge leaving the port of an output bundle |
| Splice.JoinsLeaveNone | src/api.js:281-286 | the join trees add no edge leaving a port that feeds no gathered port, when no join node is named like the port's node |
| Splice.DupsLeaveRoot | src/api.js:275-279 | the duplicate trees add the edge from an output bundle's port into the root of its tree, and no other edge leaving that port when no duplicate node is named like the port's node |
| Splice.FanRemoved | src/api.js:272-297 | for an output bundle with a named port that feeds no gathered port, and whose node's name no synthesized node takes, the splice leaves exactly one non-continuation edge at the port: the one into the root of its duplicate tree |
| Splice.FanGone | src/api.js:272-297 | under the same hypotheses, the graph read back from the splice reports no output bundle at that port |
| Splice.CrossingKeepsJoinEdge | src/api.js:272-297 | a producer of a port an input bundle gathers keeps a non-continuation edge of the join tree after the splice, whether or not it also fans out |
| Boundary.NamedWire | src/api.js:172-178 | the edge `createEdge` writes runs between the two ports, is named after its route and is not a continuation |
| Boundary.CreateEdge | src/api.js:172-178 | the graph's edges become `PutEdge` of the named edge; nodes unchanged |
| Boundary.IdName | src/api.js:192 | the id node's name is never the compound's own name |
| Boundary.RewriteEdgesThroughCompoundNodes | src/api.js:185-215 | the pass is the fold of turns over the edges the graph had when read, stopping at the first throw |
| Boundary.Turn | src/api.js:189-211 | one turn on a self-loop fails iff the compound is missing or has no output-port map, and otherwise performs the step |
| Boundary.RewriteTurn | src/api.js:188 | the turns from position `i` are the turn at `i`, then the rest |
| Boundary.TurnKeepsLoops | src/api.js:188-211 | a turn keeps edge keys unique and leaves the later self-loops of the snapshot in place |
| Boundary.StepReplaces | src/api.js:193-210 | a turn places the id node inside the compound with its label, adds both edges through it and removes the self-loop's key |
| Boundary.StepRemovesLoop | src/api.js:188-211 | a turn adds no self-loop and removes the one it visits |
| Boundary.NoSelfLoops | src/api.js:185-215 | the pass, when it succeeds, leaves no self-loop |
| Boundary.RewriteGrows | src/api.js:185-215 | the pass keeps every node name and every key of an edge that is not a self-loop |
| Boundary.EveryLoopReplaced | src/api.js:188-211 | every self-loop of the snapshot leaves its id node's name and the keys of both edges through it in the result |
| Boundary.StepKeeps | src/api.js:188-211 | a later turn on a self-loop whose id node and compound stay clear of an earlier turn's id node and compound keeps that id node, its label and parent, and both edges through it |
| Boundary.EveryLoopRewired | src/api.js:188-211 | with the snapshot's id names apart, every self-loop's compound was a node with output ports, and the result holds its id node inside the compound with the crosswise port types, and both edges `v:outPort -> id:input` and `id:output -> v:inPort` |
| Drain.IsLambda | src/api.js:217-219 | true only for a defined, non-empty name of a node with id `functional/lambda` |
| Drain.IsLambdaIff | src/api.js:217-219 | with unique node names, `isLambda` holds exactly for a defined, non-empty name of a node with id `functional/lambda` |
| Drain.UsedIff | src/api.js:229-249 | a port is used iff `walk.successor` finds at least one edge |
| Drain.PortDrained | src/api.js:228-265 | after a turn, the port is used; a used port changes nothing; an unused port gets its sink edge and a `control/consume` sink of the port's type, inside the node for an input port |
| Drain.ConsumeUnused | src/api.js:228-265 | an inner loop over `Object.keys(ports)` is the fold of port turns |
| Drain.Visit | src/api.js:225-266 | a node turn fails iff the node is missing, or its outputs are read while it has no output-port map; otherwise it is the fold of both inner loops |
| Drain.AddConsumeForUnusedPorts | src/api.js:221-270 | the pass is the fold of node turns over the nodes the graph had when read, stopping at the first throw |
| Drain.SinkWriteKeeps | src/api.js:242-263 | writing a sink edge into tidy edges keeps every existing edge |
| Drain.PortKeeps | src/api.js:228-265 | a port turn keeps the original nodes as they were, only adds sinks and keeps every edge |
| Drain.LambdaStable | src/api.js:227 | sinks never change a node's parent or whether that parent is a lambda |
| Drain.NodeKeeps | src/api.js:224-267 | a node turn drains that node and keeps everything before it |
| Drain.AllKeep | src/api.js:224-267 | the outer loop keeps edges and leaves every visited node drained |
| Drain.DrainCovers | src/api.js:221-270 | after the pass, every output port of a node not directly in a lambda, and every input port of a compound, has a successor |
| Drain.SharedNameSkipsInput | src/api.js:228-265 | an input port named like a drained output port of its node gets no sink of its own |
| Drain.DrainLoopless | src/api.js:221-270 | the consume pass adds no self-loop |
| Normalize.Flag | src/api.js:5-9 | a flag is on unless the caller sets it to `false` |
| Normalize.Resolve | src/api.js:300-301 | missing options switch every pass on; given options override the defaults one by one |
| Normalize.Normalize | src/api.js:299-318 | throws for a non-NPG; otherwise succeeds or fails exactly as the passes in order do, and returns a fresh graph read from the result |
| Normalize.AllOff | src/api.js:299-318 | with every pass off, a graph with unique names and keys and non-empty parent names comes back unchanged |
| Normalize.NoSelfLoopsAfterIdNodes | src/api.js:310-317 | with id nodes on, a normalised graph has no self-loop |
| Normalize.JoinOfUnnamedPortThrows | src/api.js:272-308 | with duplicates and joins on, a join bundle whose first edge has an empty `outPort` makes normalisation throw: a `RangeError` if some join tree does not end, otherwise a `TypeError` |
| Normalize.OverflowingJoinThrows | src/api.js:272-308 | with duplicates and joins on, a join bundle with a named `outPort` into a port with four, or six and more, producers makes normalisation throw a `RangeError` |

## Left out

- The graph library (`@buggyorg/graphtools`, graphlib) is not part of this model. Its storage is modelled as described above. Left out: implicit node creation by `setEdge`/`setParent` for missing nodes, and graphlib's cycle check on `setParent`.
- PortGraph.ImportJSONRoundTrip: graphlib's reader sets a parent only when it is truthy, so an empty-string parent is dropped on reading (`PortGraph.ImportNodes`). The round trip, and with it `Normalize.AllOff`, is stated for graphs whose parents are non-empty names (`ParentsNamed`). Implicit creation is not modelled either. In graphlib, `setParent` creates a missing parent the first time it is named, so the nodes `[v (parent p), x, p]` read back as `[v, p, x]`, and a parent or edge end that is not a node at all is added as a new node. The model keeps the listed order and adds no node, so the round trip is claimed also for such graphs, where graphlib reorders or adds nodes.
- `utils.isNPG` is not part of this model; its verdict is the parameter `npg` of `Normalize.Normalize`.
- `utils.portType` is not part of this model. `PortGraph.PortTypeOf` assumes the port is looked up among the node's output ports first, then among its input ports, and yields `Undefined` otherwise.
- `walk.successor` and `walk.adjacentNode` are not part of this model. A port's successors are the edges leaving it (`PortGraph.Successors`), and its adjacent ports are their far ends, in edge order.
- Port maps are modelled as ordered lists of named ports. `Object.keys` is their names in list order (integer-like names: see below), and a missing key yields `Undefined`. Duplicate port names within one map are not modelled.
- A node's `inputPorts` map is always present in the model. Only the absence of `outputPorts` is modelled (it makes `Object.keys` throw).
- The `version` strings of synthesized nodes are not modelled. The node label records the component id, ports, flags and settings.
- `_.merge` of the generic settings is the `genericType` field; `isGeneric: true` is implied by its presence.
- `_.mergeWith(…, customizer)` in `removeEdges` is modelled by its effect: only membership is read from the result, and that is the concatenation of both bundle lists.
- `_.compact` around the final node and edge lists drops nothing in the model: no list holds an `undefined` there.
- Trees.CreateJoins: the unbounded recursion at an odd split is modelled as `None`, which the splice turns into a `RangeError`. The stack depth is not modelled, so a recursion that ends is never cut short.
- Drain.DrainCovers: proved under two hypotheses on the input. No node is named like the sink of a node (`Apart`), and every edge into a node named like a sink is that sink's edge (`Tidy`). Without them a sink write can relabel an existing node or edge.
- Splice.DupJoins: states which edges survive and that nodes are kept; the exact lists are stated by `Splice.CreateDupJoins`.
- Error messages are not modelled; only their kind (`NotNPG`, `TypeError`, `RangeError`).
- JavaScript lists an object's integer-like keys (such as `"0"` or `"12"`) first, in ascending numeric order, before its other keys in insertion order. This reaches graphlib's `nodes()`, the `_.groupBy` object behind `multipleOuts`/`multipleIns`, and `Object.keys(ports)`. The model keeps insertion or first-occurrence order throughout. The two orders differ only when node names, port names or grouping keys are integer-like. Then the source may visit bundles, ports and nodes, and list trees, nodes and edges, in another order than the model states.
- Splice.FanRemoved: proved under two hypotheses. The port feeds no port that an input bundle gathers (`FeedsNoJoin`). No node of the duplicate or join trees is named like the port's node (`Unsynthesized`). An output bundle with an empty `outPort` gets no duplicate tree and is not covered: its edges are removed without replacement. `Splice.FanGone` carries the same hypotheses.
- An edge in both an output fan and an input fan is replaced from both sides, so a fan remains after the splice. For example, the edges A:o→B:x, A:o→C:y and D:q→B:x leave A:o with an edge into `A_o_DUPLICATE_0_1:in` and one into `B_x_JOIN_0_1:in1`. The model keeps this behaviour as written: `Splice.CrossingKeepsJoinEdge` proves the join edge is there, and `Splice.FanRemoved` excludes the case by its hypothesis `FeedsNoJoin`.
- Boundary.EveryLoopRewired: proved only when the snapshot's id names are pairwise different and none is the name of a self-loop's compound (`IdsApart`). Otherwise a later turn can relabel an earlier id node; `Boundary.EveryLoopReplaced` still holds.

## Findings

| source | as written | input that shows it | evidently intended | confidence | as-written member | corrected member |
|---|---|---|---|---|---|---|
| src/api.js:141 | the right half of a join split starts at `Math.floor(from + to) / 2 + 1`, a fraction when `from + to` is odd | an input port with four producers: `[0, 3]` gives a right call on `[2.5, 3]`, whose left call `[2.5, 2]` never reaches a base case and recurses until the stack overflows | `Math.floor((from + to) / 2) + 1`, as in `createDuplicates` at src/api.js:119 | not executed | Trees.FourPredecessorsOverflow | Trees.CreateJoinsAgrees |
