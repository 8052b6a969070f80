/** The network port graph as the normalisation passes see it: nodes with
    ordered input and output port lists, a parent relation, and edges between
    ports. Storage follows the graph library the passes call: nodes are keyed
    by name, edges by (source, target, name), and writing an existing key
    relabels it in place while a new key is appended. */
module PortGraph {
  import opened Wrappers

  /** A port type: a type name, a structured (non-string) type, or nothing at
      all (what a lookup of an undeclared port yields). */
  datatype PortType = TypeName(name: string) | TypeObject | Undefined

  datatype Port = Port(name: string, ptype: PortType)

  /** The settings the passes write: the argument order and, for synthesized
      duplicate and join nodes, the concrete type they are specialised to
      (`isGeneric: true, genericType: T` is `genericType == Some(T)`). */
  datatype Settings = Settings(argumentOrdering: seq<string>, genericType: Option<string>)

  /** A node label. `id` is the component the node instantiates
      (`control/duplicate`, `functional/lambda`, ...). `outputPorts` is
      `None` for a node that declares no output-port map at all. */
  datatype NodeValue = NodeValue(
    id: string,
    inputPorts: seq<Port>,
    outputPorts: Option<seq<Port>>,
    atomic: bool,
    recursive: bool,
    specialForm: bool,
    settings: Settings)

  datatype Node = Node(v: string, value: NodeValue, parent: Option<string>)

  datatype Edge = Edge(v: string, w: string, name: Option<string>, outPort: string, inPort: string, continuation: bool)

  /** What identifies an edge in the graph library's multigraph. */
  datatype EdgeKey = EdgeKey(v: string, w: string, name: Option<string>)

  datatype Endpoint = Endpoint(node: string, port: string)

  /** The interchange form of a graph: its node list and its edge list. */
  datatype GraphValue = GraphValue(nodes: seq<Node>, edges: seq<Edge>)

  /** Why a pass gives up: the input is not a network port graph, the pass
      read a property of `undefined` (JavaScript's `TypeError`), or a
      recursion never ended and exhausted the stack (`RangeError`). */
  datatype Error = NotNPG | TypeError | RangeError

  function Key(e: Edge): EdgeKey { EdgeKey(e.v, e.w, e.name) }

  function Source(e: Edge): Endpoint { Endpoint(e.v, e.outPort) }

  function Target(e: Edge): Endpoint { Endpoint(e.w, e.inPort) }

  // ----- ports -----

  /** `ports[p]`: the type of the first port named `p`, `Undefined` if none. */
  function PortLookup(ports: seq<Port>, p: string): PortType
  {
    if ports == [] then Undefined
    else if ports[0].name == p then ports[0].ptype
    else PortLookup(ports[1..], p)
  }

  /** `Object.keys(ports)`. */
  function PortNames(ports: seq<Port>): (r: seq<string>)
    ensures |r| == |ports|
    ensures forall i :: 0 <= i < |ports| ==> r[i] == ports[i].name
  {
    if ports == [] then [] else [ports[0].name] + PortNames(ports[1..])
  }

  // ----- nodes -----

  function NodeNames(nodes: seq<Node>): (r: seq<string>)
    ensures |r| == |nodes|
    ensures forall i :: 0 <= i < |nodes| ==> r[i] == nodes[i].v
  {
    if nodes == [] then [] else [nodes[0].v] + NodeNames(nodes[1..])
  }

  /** `graph.node(v)` together with `graph.parent(v)`: the first node named `v`. */
  function FindNode(nodes: seq<Node>, v: string): (r: Option<Node>)
    ensures r.Some? <==> v in NodeNames(nodes)
    ensures r.Some? ==> r.value in nodes && r.value.v == v
  {
    if nodes == [] then None
    else if nodes[0].v == v then Some(nodes[0])
    else FindNode(nodes[1..], v)
  }

  /** `graph.parent(v)`: `None` when `v` has no parent or is not a node. */
  function ParentOf(g: GraphValue, v: string): Option<string>
  {
    match FindNode(g.nodes, v)
    case Some(n) => n.parent
    case None => None
  }

  /** The type of port `p` of node `n`: the node's output port of that name
      if it declares one, else its input port of that name, else `Undefined`. */
  function PortTypeOf(g: GraphValue, n: string, p: string): PortType
  {
    match FindNode(g.nodes, n)
    case None => Undefined
    case Some(node) =>
      var t := if node.value.outputPorts.Some? then PortLookup(node.value.outputPorts.value, p) else Undefined;
      if t != Undefined then t else PortLookup(node.value.inputPorts, p)
  }

  predicate UniqueNames(nodes: seq<Node>)
  {
    forall i, j :: 0 <= i < j < |nodes| ==> nodes[i].v != nodes[j].v
  }

  /** With unique names, a node of the list is the one `graph.node` finds
      under its name. */
  lemma {:induction false} FindUnique(nodes: seq<Node>, x: Node)
    requires UniqueNames(nodes) && x in nodes
    ensures FindNode(nodes, x.v) == Some(x)
  {
    if nodes[0] != x {
      assert x in nodes[1..];
      var j :| 0 <= j < |nodes[1..]| && nodes[1..][j] == x;
      assert nodes[0].v != nodes[j + 1].v;
      FindUnique(nodes[1..], x);
    }
  }

  predicate UniqueKeys(edges: seq<Edge>)
  {
    forall i, j :: 0 <= i < j < |edges| ==> Key(edges[i]) != Key(edges[j])
  }

  // ----- walking the graph -----

  /** `walk.successor(graph, n, p)`: the edges leaving port `p` of node `n`, in edge order. */
  function Successors(edges: seq<Edge>, n: string, p: string): (r: seq<Edge>)
    ensures |r| <= |edges|
    ensures forall e :: e in r <==> e in edges && e.v == n && e.outPort == p
  {
    if edges == [] then []
    else (if edges[0].v == n && edges[0].outPort == p then [edges[0]] else []) + Successors(edges[1..], n, p)
  }

  /** `walk.predecessor(graph, n, p)`: the edges entering port `p` of node `n`, in edge order. */
  function Predecessors(edges: seq<Edge>, n: string, p: string): (r: seq<Edge>)
    ensures |r| <= |edges|
    ensures forall e :: e in r <==> e in edges && e.w == n && e.inPort == p
  {
    if edges == [] then []
    else (if edges[0].w == n && edges[0].inPort == p then [edges[0]] else []) + Predecessors(edges[1..], n, p)
  }

  lemma SuccessorsAppend(a: seq<Edge>, b: seq<Edge>, n: string, p: string)
    ensures Successors(a + b, n, p) == Successors(a, n, p) + Successors(b, n, p)
  {
    if a != [] {
      assert (a + b)[1..] == a[1..] + b;
      SuccessorsAppend(a[1..], b, n, p);
    } else {
      assert a + b == b;
    }
  }

  function Targets(es: seq<Edge>): (r: seq<Endpoint>)
    ensures |r| == |es|
    ensures forall i :: 0 <= i < |es| ==> r[i] == Target(es[i])
  {
    if es == [] then [] else [Target(es[0])] + Targets(es[1..])
  }

  function Sources(es: seq<Edge>): (r: seq<Endpoint>)
    ensures |r| == |es|
    ensures forall i :: 0 <= i < |es| ==> r[i] == Source(es[i])
  {
    if es == [] then [] else [Source(es[0])] + Sources(es[1..])
  }

  /** `walk.adjacentNode(graph, n, p, walk.successor)`: the ports that port
      `p` of `n` feeds, one per edge, in edge order. */
  function SuccessorPorts(edges: seq<Edge>, n: string, p: string): seq<Endpoint>
  {
    Targets(Successors(edges, n, p))
  }

  /** `walk.adjacentNode(graph, n, p, walk.predecessor)`. */
  function PredecessorPorts(edges: seq<Edge>, n: string, p: string): seq<Endpoint>
  {
    Sources(Predecessors(edges, n, p))
  }

  // ----- the graph library's writes -----

  /** Relabels every node named `v`, keeping its place and parent. */
  function Relabel(nodes: seq<Node>, v: string, value: NodeValue): (r: seq<Node>)
    ensures NodeNames(r) == NodeNames(nodes)
    ensures forall i :: 0 <= i < |nodes| ==> r[i] == if nodes[i].v == v then nodes[i].(value := value) else nodes[i]
  {
    if nodes == [] then []
    else [if nodes[0].v == v then nodes[0].(value := value) else nodes[0]] + Relabel(nodes[1..], v, value)
  }

  /** `graph.setNode(v, value)`: relabels an existing node, or appends a new
      one that has no parent. */
  function PutNode(nodes: seq<Node>, v: string, value: NodeValue): (r: seq<Node>)
    ensures v in NodeNames(r)
    ensures v !in NodeNames(nodes) ==> r == nodes + [Node(v, value, None)]
  {
    if v in NodeNames(nodes) then Relabel(nodes, v, value)
    else
      var r := nodes + [Node(v, value, None)];
      assert NodeNames(r)[|nodes|] == v;
      r
  }

  /** `graph.setParent(v, p)` on an existing node `v`. */
  function PutParent(nodes: seq<Node>, v: string, p: Option<string>): (r: seq<Node>)
    ensures NodeNames(r) == NodeNames(nodes)
    ensures forall i :: 0 <= i < |nodes| ==> r[i] == if nodes[i].v == v then nodes[i].(parent := p) else nodes[i]
  {
    if nodes == [] then []
    else [if nodes[0].v == v then nodes[0].(parent := p) else nodes[0]] + PutParent(nodes[1..], v, p)
  }

  function Keys(edges: seq<Edge>): (r: seq<EdgeKey>)
    ensures |r| == |edges|
    ensures forall i :: 0 <= i < |edges| ==> r[i] == Key(edges[i])
  {
    if edges == [] then [] else [Key(edges[0])] + Keys(edges[1..])
  }

  /** Gives every edge with the key of `e` the label of `e`. */
  function Rewire(edges: seq<Edge>, e: Edge): (r: seq<Edge>)
    ensures Keys(r) == Keys(edges)
    ensures forall i :: 0 <= i < |edges| ==> r[i] == if Key(edges[i]) == Key(e) then e else edges[i]
  {
    if edges == [] then []
    else [if Key(edges[0]) == Key(e) then e else edges[0]] + Rewire(edges[1..], e)
  }

  /** `graph.setEdge(v, w, label, name)`: relabels the edge with that key in
      place, or appends a new one. */
  function PutEdge(edges: seq<Edge>, e: Edge): (r: seq<Edge>)
    ensures Key(e) in Keys(r)
    ensures Key(e) !in Keys(edges) ==> r == edges + [e]
  {
    if Key(e) in Keys(edges) then Rewire(edges, e)
    else
      var r := edges + [e];
      assert Keys(r)[|edges|] == Key(e);
      r
  }

  /** `graph.removeEdge(k)`. */
  function DropEdge(edges: seq<Edge>, k: EdgeKey): (r: seq<Edge>)
    ensures forall e :: e in r <==> e in edges && Key(e) != k
  {
    if edges == [] then []
    else (if Key(edges[0]) == k then [] else [edges[0]]) + DropEdge(edges[1..], k)
  }

  // ----- reading the interchange form -----

  /** The library's reader sets a parent only when the entry's parent is
      truthy, so an empty-string parent is dropped. */
  function ImportNodes(json: seq<Node>): seq<Node>
  {
    if json == [] then []
    else
      var n := json[|json| - 1];
      var acc := PutNode(ImportNodes(json[..|json| - 1]), n.v, n.value);
      if n.parent.Some? && n.parent.value != "" then PutParent(acc, n.v, n.parent) else acc
  }

  /** No node is placed under the empty-string name. */
  predicate ParentsNamed(nodes: seq<Node>)
  {
    forall n :: n in nodes ==> n.parent != Some("")
  }

  function ImportEdges(json: seq<Edge>): seq<Edge>
  {
    if json == [] then [] else PutEdge(ImportEdges(json[..|json| - 1]), json[|json| - 1])
  }

  /** `graphAPI.importJSON`: the nodes and then the edges are written one by
      one, so a repeated node name or edge key keeps its first place and its
      last label. */
  function ImportJSON(json: GraphValue): GraphValue
  {
    GraphValue(ImportNodes(json.nodes), ImportEdges(json.edges))
  }

  lemma PutParentOfLast(init: seq<Node>, x: Node, p: Option<string>)
    requires x.v !in NodeNames(init)
    ensures PutParent(init + [x], x.v, p) == init + [x.(parent := p)]
  {
    var r := PutParent(init + [x], x.v, p);
    forall i | 0 <= i < |init| ensures r[i] == init[i] {
      assert NodeNames(init)[i] == init[i].v;
    }
  }

  /** Reading a node whose name is new appends it as it was. */
  lemma ImportLast(init: seq<Node>, n: Node)
    requires n.v !in NodeNames(init) && n.parent != Some("")
    ensures (var acc := PutNode(init, n.v, n.value);
      if n.parent.Some? && n.parent.value != "" then PutParent(acc, n.v, n.parent) else acc) == init + [n]
  {
    var x := Node(n.v, n.value, None);
    if n.parent.Some? {
      PutParentOfLast(init, x, n.parent);
      assert x.(parent := n.parent) == n;
    }
  }

  /** The names and parents of a prefix of the nodes. */
  lemma InitNamed(json: seq<Node>)
    requires UniqueNames(json) && ParentsNamed(json) && json != []
    ensures UniqueNames(json[..|json| - 1]) && ParentsNamed(json[..|json| - 1])
    ensures json[|json| - 1].v !in NodeNames(json[..|json| - 1]) && json[|json| - 1].parent != Some("")
  {
    var init := json[..|json| - 1];
    forall m | m in init ensures m.parent != Some("") {
      assert m in json;
    }
    forall k | 0 <= k < |init| ensures NodeNames(init)[k] != json[|json| - 1].v {
      assert init[k] == json[k];
    }
    assert json[|json| - 1] in json;
  }

  lemma {:induction false} ImportNodesUnchanged(json: seq<Node>)
    requires UniqueNames(json) && ParentsNamed(json)
    ensures ImportNodes(json) == json
  {
    if json != [] {
      var init := json[..|json| - 1];
      var n := json[|json| - 1];
      assert json == init + [n];
      InitNamed(json);
      ImportNodesUnchanged(init);
      ImportLast(init, n);
    }
  }

  lemma {:induction false} ImportEdgesUnchanged(json: seq<Edge>)
    requires UniqueKeys(json)
    ensures ImportEdges(json) == json
  {
    if json != [] {
      LastKeyFresh(json);
      ImportEdgesUnchanged(json[..|json| - 1]);
      assert json[..|json| - 1] + [json[|json| - 1]] == json;
    }
  }

  /** In edges with unique keys, the last key is not among the earlier ones. */
  lemma LastKeyFresh(json: seq<Edge>)
    requires UniqueKeys(json) && json != []
    ensures UniqueKeys(json[..|json| - 1])
    ensures Key(json[|json| - 1]) !in Keys(json[..|json| - 1])
  {
    var init := json[..|json| - 1];
    forall k | 0 <= k < |init| ensures Keys(init)[k] != Key(json[|json| - 1]) {
      assert init[k] == json[k];
    }
  }

  /** Reading back what the library wrote loses nothing: a graph whose node
      names and edge keys are unique, and whose parents are non-empty names,
      comes back unchanged. */
  lemma ImportJSONRoundTrip(json: GraphValue)
    requires UniqueNames(json.nodes) && UniqueKeys(json.edges) && ParentsNamed(json.nodes)
    ensures ImportJSON(json) == json
  {
    ImportNodesUnchanged(json.nodes);
    ImportEdgesUnchanged(json.edges);
  }

  lemma {:induction false} ImportEdgesUnique(json: seq<Edge>)
    ensures UniqueKeys(ImportEdges(json))
  {
    if json != [] {
      var acc := ImportEdges(json[..|json| - 1]);
      ImportEdgesUnique(json[..|json| - 1]);
      PutEdgeKeepsUnique(acc, json[|json| - 1]);
    }
  }

  /** No edge is a self-loop. */
  predicate Loopless(edges: seq<Edge>)
  {
    forall x :: x in edges ==> x.v != x.w
  }

  /** Every edge the library holds after reading a list was in the list. */
  lemma {:induction false} ImportEdgesFrom(json: seq<Edge>)
    ensures forall x :: x in ImportEdges(json) ==> x in json
  {
    if json != [] {
      ImportEdgesFrom(json[..|json| - 1]);
      PutEdgeEffect(ImportEdges(json[..|json| - 1]), json[|json| - 1]);
      forall x | x in ImportEdges(json) ensures x in json {
        if x != json[|json| - 1] {
          var k :| 0 <= k < |json| - 1 && json[..|json| - 1][k] == x;
          assert json[k] == x;
        }
      }
    }
  }

  lemma PutEdgeKeepsUnique(edges: seq<Edge>, e: Edge)
    requires UniqueKeys(edges)
    ensures UniqueKeys(PutEdge(edges, e))
  {
    if Key(e) in Keys(edges) {
      var r := Rewire(edges, e);
      assert forall i :: 0 <= i < |r| ==> Key(r[i]) == Key(edges[i]);
    }
  }

  /** `graph.edge(k)`: the label of the edge with key `k`, if any. */
  function EdgeLabel(edges: seq<Edge>, k: EdgeKey): (r: Option<Edge>)
    ensures r.Some? ==> r.value in edges && Key(r.value) == k
  {
    if edges == [] then None
    else if Key(edges[0]) == k then Some(edges[0])
    else EdgeLabel(edges[1..], k)
  }

  /** With unique keys, the label of an edge's key is that edge. */
  lemma {:induction false} EdgeLabelOf(edges: seq<Edge>, e: Edge)
    requires UniqueKeys(edges) && e in edges
    ensures EdgeLabel(edges, Key(e)) == Some(e)
  {
    if edges[0] != e {
      assert e in edges[1..];
      var j :| 0 <= j < |edges[1..]| && edges[1..][j] == e;
      assert Key(edges[0]) != Key(edges[j + 1]);
      EdgeLabelOf(edges[1..], e);
    }
  }

  /** Writing an edge keeps every other edge and every key, and adds
      nothing but the edge written. */
  lemma PutEdgeEffect(edges: seq<Edge>, e: Edge)
    ensures e in PutEdge(edges, e)
    ensures forall x :: x in PutEdge(edges, e) ==> x in edges || x == e
    ensures forall x :: x in edges && Key(x) != Key(e) ==> x in PutEdge(edges, e)
    ensures forall k :: k in Keys(edges) ==> k in Keys(PutEdge(edges, e))
  {
    var r := PutEdge(edges, e);
    if Key(e) in Keys(edges) {
      var j :| 0 <= j < |edges| && Keys(edges)[j] == Key(e);
      assert r[j] == e;
      forall x | x in r ensures x in edges || x == e {
        var i :| 0 <= i < |r| && r[i] == x;
      }
      forall x | x in edges && Key(x) != Key(e) ensures x in r {
        var i :| 0 <= i < |edges| && edges[i] == x;
        assert r[i] == x;
      }
    } else {
      assert r == edges + [e];
      forall k | k in Keys(edges) ensures k in Keys(r) {
        var i :| 0 <= i < |edges| && Keys(edges)[i] == k;
        assert Keys(r)[i] == k;
      }
    }
  }

  lemma {:induction false} DropEdgeKeys(edges: seq<Edge>, k: EdgeKey, k2: EdgeKey)
    ensures k2 in Keys(DropEdge(edges, k)) <==> k2 in Keys(edges) && k2 != k
  {
    if edges != [] {
      DropEdgeKeys(edges[1..], k, k2);
      assert Keys(edges) == [Key(edges[0])] + Keys(edges[1..]);
      var rest := DropEdge(edges[1..], k);
      if Key(edges[0]) != k {
        assert Keys([edges[0]] + rest) == [Key(edges[0])] + Keys(rest);
      }
    }
  }

  lemma {:induction false} DropEdgeKeepsUnique(edges: seq<Edge>, k: EdgeKey)
    requires UniqueKeys(edges)
    ensures UniqueKeys(DropEdge(edges, k))
  {
    if edges != [] {
      assert UniqueKeys(edges[1..]);
      DropEdgeKeepsUnique(edges[1..], k);
      var rest := DropEdge(edges[1..], k);
      if Key(edges[0]) != k {
        forall j | 0 <= j < |rest| ensures Key(edges[0]) != Key(rest[j]) {
          assert rest[j] in edges[1..];
          var m :| 0 <= m < |edges[1..]| && edges[1..][m] == rest[j];
          assert edges[m + 1] == rest[j];
        }
      }
    }
  }

  /** Writing a node keeps every node name. */
  lemma PutNodeKeepsNames(nodes: seq<Node>, v: string, value: NodeValue)
    ensures forall x :: x in NodeNames(nodes) ==> x in NodeNames(PutNode(nodes, v, value))
  {
    if v !in NodeNames(nodes) {
      var r := PutNode(nodes, v, value);
      forall x | x in NodeNames(nodes) ensures x in NodeNames(r) {
        var i :| 0 <= i < |nodes| && NodeNames(nodes)[i] == x;
        assert NodeNames(r)[i] == x;
      }
    }
  }

  /** A node written and then given a parent is found with that label and
      that parent. */
  lemma FindPlaced(nodes: seq<Node>, v: string, value: NodeValue, p: Option<string>)
    ensures FindNode(PutParent(PutNode(nodes, v, value), v, p), v) == Some(Node(v, value, p))
  {
    if v in NodeNames(nodes) {
      FindRelabelled(nodes, v, value);
    } else {
      FindAppended(nodes, Node(v, value, None));
    }
    FindReparented(PutNode(nodes, v, value), v, p);
  }

  lemma {:induction false} FindRelabelled(nodes: seq<Node>, v: string, value: NodeValue)
    ensures FindNode(Relabel(nodes, v, value), v) ==
      if FindNode(nodes, v).Some? then Some(FindNode(nodes, v).value.(value := value)) else None
  {
    if nodes != [] {
      FindRelabelled(nodes[1..], v, value);
    }
  }

  lemma {:induction false} FindReparented(nodes: seq<Node>, v: string, p: Option<string>)
    ensures FindNode(PutParent(nodes, v, p), v) ==
      if FindNode(nodes, v).Some? then Some(FindNode(nodes, v).value.(parent := p)) else None
  {
    if nodes != [] {
      FindReparented(nodes[1..], v, p);
    }
  }

  lemma {:induction false} FindAppended(nodes: seq<Node>, x: Node)
    requires x.v !in NodeNames(nodes)
    ensures FindNode(nodes + [x], x.v) == Some(x)
  {
    if nodes != [] {
      assert (nodes + [x])[1..] == nodes[1..] + [x];
      assert NodeNames(nodes)[0] == nodes[0].v;
      assert x.v !in NodeNames(nodes[1..]) by {
        forall i | 0 <= i < |nodes[1..]| ensures NodeNames(nodes[1..])[i] != x.v {
          assert NodeNames(nodes)[i + 1] == nodes[i + 1].v;
        }
      }
      FindAppended(nodes[1..], x);
    }
  }

  /** Writing node `v` does not change what is found under another name. */
  lemma FindOther(nodes: seq<Node>, v: string, value: NodeValue, p: Option<string>, m: string)
    requires m != v
    ensures FindNode(PutNode(nodes, v, value), m) == FindNode(nodes, m)
    ensures FindNode(PutParent(nodes, v, p), m) == FindNode(nodes, m)
  {
    FindOtherRelabelled(nodes, v, value, m);
    FindOtherReparented(nodes, v, p, m);
    if v !in NodeNames(nodes) {
      FindBeforeAppended(nodes, Node(v, value, None), m);
    }
  }

  lemma {:induction false} FindOtherRelabelled(nodes: seq<Node>, v: string, value: NodeValue, m: string)
    requires m != v
    ensures FindNode(Relabel(nodes, v, value), m) == FindNode(nodes, m)
  {
    if nodes != [] {
      FindOtherRelabelled(nodes[1..], v, value, m);
    }
  }

  lemma {:induction false} FindOtherReparented(nodes: seq<Node>, v: string, p: Option<string>, m: string)
    requires m != v
    ensures FindNode(PutParent(nodes, v, p), m) == FindNode(nodes, m)
  {
    if nodes != [] {
      FindOtherReparented(nodes[1..], v, p, m);
    }
  }

  lemma {:induction false} FindBeforeAppended(nodes: seq<Node>, x: Node, m: string)
    requires m != x.v
    ensures FindNode(nodes + [x], m) == FindNode(nodes, m)
  {
    if nodes != [] {
      assert (nodes + [x])[1..] == nodes[1..] + [x];
      FindBeforeAppended(nodes[1..], x, m);
    }
  }

  /** Writing a node adds nothing but the node written. */
  lemma NodeWrites(nodes: seq<Node>, v: string, value: NodeValue)
    ensures forall x :: x in PutNode(nodes, v, value) ==> x in nodes || (x.v == v && x.value == value)
  {
    if v in NodeNames(nodes) {
      var r := Relabel(nodes, v, value);
      forall x | x in r ensures x in nodes || (x.v == v && x.value == value) {
        var i :| 0 <= i < |r| && r[i] == x;
        assert nodes[i] in nodes;
      }
    }
  }

  /** Setting a parent changes no node's name or label. */
  lemma ParentWrites(nodes: seq<Node>, v: string, p: Option<string>)
    ensures forall x :: x in PutParent(nodes, v, p) ==> exists y :: y in nodes && y.v == x.v && y.value == x.value
  {
    var r := PutParent(nodes, v, p);
    forall x | x in r ensures exists y :: y in nodes && y.v == x.v && y.value == x.value {
      var i :| 0 <= i < |r| && r[i] == x;
      assert nodes[i] in nodes;
    }
  }

  /** The graph library's in-memory graph, as the passes mutate it. */
  class Graph {
    var nodes: seq<Node>
    var edges: seq<Edge>

    function Value(): GraphValue
      reads this
    {
      GraphValue(nodes, edges)
    }

    /** `graphAPI.importJSON(json)`. */
    constructor FromJSON(json: GraphValue)
      ensures Value() == ImportJSON(json)
    {
      nodes := ImportNodes(json.nodes);
      edges := ImportEdges(json.edges);
    }

    method SetNode(v: string, value: NodeValue)
      modifies this
      ensures nodes == PutNode(old(nodes), v, value) && edges == old(edges)
    {
      nodes := PutNode(nodes, v, value);
    }

    method SetParent(v: string, p: string)
      modifies this
      ensures nodes == PutParent(old(nodes), v, Some(p)) && edges == old(edges)
    {
      nodes := PutParent(nodes, v, Some(p));
    }

    method SetEdge(e: Edge)
      modifies this
      ensures edges == PutEdge(old(edges), e) && nodes == old(nodes)
    {
      edges := PutEdge(edges, e);
    }

    method RemoveEdge(k: EdgeKey)
      modifies this
      ensures edges == DropEdge(old(edges), k) && nodes == old(nodes)
    {
      edges := DropEdge(edges, k);
    }
  }

  /** A graph in the interchange form held as a mutable record: the
      `{nodes, edges}` object whose two lists a pass reassigns. */
  class JsonGraph {
    var nodes: seq<Node>
    var edges: seq<Edge>

    function Value(): GraphValue
      reads this
    {
      GraphValue(nodes, edges)
    }

    /** `graphAPI.toJSON(graph)` of a graph whose value is `g`. */
    constructor (g: GraphValue)
      ensures Value() == g
    {
      nodes := g.nodes;
      edges := g.edges;
    }
  }
}
