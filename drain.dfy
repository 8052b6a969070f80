/** Draining unused ports: `isLambda` and `addConsumeForUnusedPorts`
    (src/api.js:217-270). Every node present when the pass starts is
    visited once. An output port that nothing leaves gets an edge into a
    fresh `control/consume` sink, unless the node sits directly inside a
    lambda; an input port of a compound (a node neither atomic nor
    recursive) that nothing inside the compound reads gets a sink placed
    inside the compound. Both kinds of sink are named
    `${n}_consume_dummy_${port}`. */
module Drain {
  import opened Wrappers
  import opened Strings
  import opened PortGraph
  import opened Boundary

  /** `isLambda(graph, n)`: `n` is defined and not empty, and names a node
      instantiating `functional/lambda`. */
  function IsLambda(s: GraphValue, n: Option<string>): (r: bool)
    ensures r ==> n.Some? && n.value != "" && n.value in NodeNames(s.nodes)
    ensures r ==> exists x :: x in s.nodes && x.v == n.value && x.value.id == "functional/lambda"
  {
    n.Some? && n.value != "" && FindNode(s.nodes, n.value).Some?
    && FindNode(s.nodes, n.value).value.value.id == "functional/lambda"
  }

  /** With unique node names, `isLambda` holds exactly for a defined,
      non-empty name of a node instantiating `functional/lambda`. */
  lemma IsLambdaIff(s: GraphValue, n: Option<string>)
    requires UniqueNames(s.nodes)
    ensures IsLambda(s, n) <==>
      n.Some? && n.value != "" && exists x :: x in s.nodes && x.v == n.value && x.value.id == "functional/lambda"
  {
    forall x | x in s.nodes {
      FindUnique(s.nodes, x);
    }
  }

  /** `${n}_consume_dummy_${port}`. */
  function SinkName(n: string, port: string): string
  {
    n + "_consume_dummy_" + port
  }

  /** The label of a sink for a port of type `t`: one input `all`, and no
      output-port map at all. */
  function SinkLabel(t: PortType): NodeValue
  {
    NodeValue("control/consume", [Port("all", t)], None, true, false, false, Settings(["all"], None))
  }

  /** The edge from port `port` of `n` into its sink. */
  function SinkWire(n: string, port: string): Edge
  {
    NamedWire(Endpoint(n, port), Endpoint(SinkName(n, port), "all"))
  }

  /** One turn of an inner loop: port `port` of `n`, of type `t`. When no
      edge leaves the port, a sink is written (inside `n` when `inside`) and
      wired to it. */
  function DrainPort(s: GraphValue, n: string, port: string, t: PortType, inside: bool): GraphValue
  {
    if |Successors(s.edges, n, port)| != 0 then s
    else
      var nodes := PutNode(s.nodes, SinkName(n, port), SinkLabel(t));
      GraphValue(if inside then PutParent(nodes, SinkName(n, port), Some(n)) else nodes,
        PutEdge(s.edges, SinkWire(n, port)))
  }

  /** An inner loop: the ports named `keys` in turn, typed by `ports`. */
  function DrainPorts(s: GraphValue, n: string, keys: seq<string>, ports: seq<Port>, inside: bool): GraphValue
    decreases |keys|
  {
    if keys == [] then s
    else DrainPorts(DrainPort(s, n, keys[0], PortLookup(ports, keys[0]), inside), n, keys[1..], ports, inside)
  }

  /** One turn of the outer loop, on node `n`: its label and its parent are
      read once, at the start of the turn. Reading the ports of a missing
      label or a missing output-port map throws. */
  function DrainNode(s: GraphValue, n: string): Result<GraphValue, Error>
  {
    match FindNode(s.nodes, n)
    case None => Failure(TypeError)
    case Some(x) =>
      var node := x.value;
      var lambda := IsLambda(s, ParentOf(s, n));
      if !lambda && node.outputPorts.None? then Failure(TypeError)
      else
        var s1 := if lambda then s else DrainPorts(s, n, PortNames(node.outputPorts.value), node.outputPorts.value, false);
        Success(if !node.atomic && !node.recursive then DrainPorts(s1, n, PortNames(node.inputPorts), node.inputPorts, true) else s1)
  }

  /** The outer loop over the snapshot `names`, stopping at the first throw. */
  function DrainAll(s: GraphValue, names: seq<string>): Result<GraphValue, Error>
    decreases |names|
  {
    if names == [] then Success(s)
    else
      match DrainNode(s, names[0])
      case Failure(err) => Failure(err)
      case Success(t) => DrainAll(t, names[1..])
  }

  // ----- the pass, as it runs -----

  /** An inner loop, over `Object.keys(ports)`. */
  method ConsumeUnused(graph: Graph, n: string, ports: seq<Port>, inside: bool)
    modifies graph
    ensures graph.Value() == DrainPorts(old(graph.Value()), n, PortNames(ports), ports, inside)
  {
    ghost var start := graph.Value();
    var keys := PortNames(ports);
    var j := 0;
    while j < |keys|
      invariant 0 <= j <= |keys|
      invariant DrainPorts(start, n, keys, ports, inside) == DrainPorts(graph.Value(), n, keys[j..], ports, inside)
    {
      var port := keys[j];
      assert keys[j..][1..] == keys[j + 1..];
      if |Successors(graph.edges, n, port)| == 0 {
        var dummyNode := SinkName(n, port);
        graph.SetNode(dummyNode, SinkLabel(PortLookup(ports, port)));
        if inside {
          graph.SetParent(dummyNode, n);
        }
        CreateEdge(graph, Endpoint(n, port), Endpoint(dummyNode, "all"));
      }
      j := j + 1;
    }
  }

  /** The body of the outer loop for node `n`. */
  method Visit(graph: Graph, n: string) returns (ok: bool)
    modifies graph
    ensures ok <==> DrainNode(old(graph.Value()), n).Success?
    ensures ok ==> graph.Value() == DrainNode(old(graph.Value()), n).value
  {
    var found := FindNode(graph.nodes, n);
    if found.None? {
      return false;
    }
    var node := found.value.value;
    var lambda := IsLambda(graph.Value(), ParentOf(graph.Value(), n));
    if !lambda {
      if node.outputPorts.None? {
        return false;
      }
      ConsumeUnused(graph, n, node.outputPorts.value, false);
    }
    if !node.atomic && !node.recursive {
      ConsumeUnused(graph, n, node.inputPorts, true);
    }
    return true;
  }

  /** `addConsumeForUnusedPorts(jsonGraph)`: the graph is read, the nodes it
      had at the start are visited in order, and the graph is written back. */
  method AddConsumeForUnusedPorts(json: GraphValue) returns (r: Result<GraphValue, Error>)
    ensures r == DrainAll(ImportJSON(json), NodeNames(ImportJSON(json).nodes))
  {
    var graph := new Graph.FromJSON(json);
    ghost var start := graph.Value();
    var names := NodeNames(graph.nodes);
    var i := 0;
    while i < |names|
      invariant 0 <= i <= |names|
      invariant DrainAll(start, names) == DrainAll(graph.Value(), names[i..])
    {
      assert names[i..][1..] == names[i + 1..];
      var ok := Visit(graph, names[i]);
      if !ok {
        return Failure(TypeError);
      }
      i := i + 1;
    }
    return Success(graph.Value());
  }

  // ----- what a turn does -----

  /** Some edge leaves port `p` of `n`. */
  predicate Used(edges: seq<Edge>, n: string, p: string)
  {
    exists x :: x in edges && x.v == n && x.outPort == p
  }

  lemma UsedIff(edges: seq<Edge>, n: string, p: string)
    ensures Used(edges, n, p) <==> |Successors(edges, n, p)| != 0
  {
    if Used(edges, n, p) {
      var x :| x in edges && x.v == n && x.outPort == p;
      assert x in Successors(edges, n, p);
    }
    if |Successors(edges, n, p)| != 0 {
      assert Successors(edges, n, p)[0] in Successors(edges, n, p);
    }
  }

  /** A port with a successor gains nothing. A port without one ends up
      with its sink edge and a sink labelled `control/consume` of the port's
      type; the sink of an input port is placed inside `n`, a new sink of an
      output port has no parent. */
  lemma PortDrained(s: GraphValue, n: string, port: string, t: PortType, inside: bool)
    ensures Used(DrainPort(s, n, port, t, inside).edges, n, port)
    ensures Used(s.edges, n, port) ==> DrainPort(s, n, port, t, inside) == s
    ensures !Used(s.edges, n, port) ==>
      var r := DrainPort(s, n, port, t, inside);
      && SinkWire(n, port) in r.edges
      && FindNode(r.nodes, SinkName(n, port)).Some?
      && FindNode(r.nodes, SinkName(n, port)).value.value == SinkLabel(t)
      && (inside ==> FindNode(r.nodes, SinkName(n, port)).value.parent == Some(n))
      && (!inside && SinkName(n, port) !in NodeNames(s.nodes) ==> FindNode(r.nodes, SinkName(n, port)).value.parent.None?)
  {
    UsedIff(s.edges, n, port);
    var v := SinkName(n, port);
    if !Used(s.edges, n, port) {
      PutEdgeEffect(s.edges, SinkWire(n, port));
      FindPlaced(s.nodes, v, SinkLabel(t), Some(n));
      if v in NodeNames(s.nodes) {
        FindRelabelled(s.nodes, v, SinkLabel(t));
      } else {
        FindAppended(s.nodes, Node(v, SinkLabel(t), None));
      }
    }
  }

  // ----- sink edges stay -----

  /** Every edge into a node named like a sink of its source is that
      sink's edge. */
  predicate Tidy(edges: seq<Edge>)
  {
    forall x :: x in edges && IsPrefix(x.v + "_consume_dummy_", x.w) ==> x == SinkWire(x.v, x.outPort)
  }

  /** The edges of `a` are all edges of `b`. */
  predicate Sub(a: seq<Edge>, b: seq<Edge>)
  {
    forall x :: x in a ==> x in b
  }

  /** On tidy edges, writing a sink edge changes no edge: the only edge it
      could relabel has its key, so it runs into the same sink and is the
      same edge. */
  lemma SinkWriteKeeps(edges: seq<Edge>, n: string, q: string)
    requires Tidy(edges)
    ensures Tidy(PutEdge(edges, SinkWire(n, q))) && Sub(edges, PutEdge(edges, SinkWire(n, q)))
  {
    var w := SinkWire(n, q);
    PutEdgeEffect(edges, w);
    PrefixOfConcat(n + "_consume_dummy_", q);
    forall x | x in edges ensures x in PutEdge(edges, w) {
      if Key(x) == Key(w) {
        assert IsPrefix(x.v + "_consume_dummy_", x.w);
        assert x == SinkWire(n, x.outPort);
        CancelPrefix(n + "_consume_dummy_", x.outPort, q);
      }
    }
  }

  // ----- the snapshot is left alone -----

  /** No node's name starts with the name of a node followed by
      `_consume_dummy_`: no sink of the pass can take a node's name. */
  predicate Apart(names: seq<string>)
  {
    forall m, n :: m in names && n in names ==> !IsPrefix(n + "_consume_dummy_", m)
  }

  /** Against the graph `s0` the pass started from: edges are tidy, every
      node of `s0` is found as it was, and every other node is a sink. */
  ghost predicate Keeps(s0: GraphValue, s: GraphValue)
  {
    && Tidy(s.edges)
    && (forall m :: m in NodeNames(s0.nodes) ==> FindNode(s.nodes, m) == FindNode(s0.nodes, m))
    && (forall x :: x in s.nodes && x.v !in NodeNames(s0.nodes) ==> x.value.id == "control/consume")
  }

  lemma PortKeeps(s0: GraphValue, s: GraphValue, n: string, port: string, t: PortType, inside: bool)
    requires Apart(NodeNames(s0.nodes)) && n in NodeNames(s0.nodes) && Keeps(s0, s)
    ensures Keeps(s0, DrainPort(s, n, port, t, inside))
    ensures Sub(s.edges, DrainPort(s, n, port, t, inside).edges)
    ensures Used(DrainPort(s, n, port, t, inside).edges, n, port)
  {
    PortDrained(s, n, port, t, inside);
    if |Successors(s.edges, n, port)| == 0 {
      var v := SinkName(n, port);
      var nodes := PutNode(s.nodes, v, SinkLabel(t));
      SinkWriteKeeps(s.edges, n, port);
      PrefixOfConcat(n + "_consume_dummy_", port);
      forall m | m in NodeNames(s0.nodes) ensures FindNode(DrainPort(s, n, port, t, inside).nodes, m) == FindNode(s0.nodes, m) {
        FindOther(s.nodes, v, SinkLabel(t), Some(n), m);
        FindOther(nodes, v, SinkLabel(t), Some(n), m);
      }
      NodeWrites(s.nodes, v, SinkLabel(t));
      ParentWrites(nodes, v, Some(n));
    }
  }

  /** Used ports stay used once the edges only grow. */
  predicate Covered(edges: seq<Edge>, n: string, keys: seq<string>)
  {
    forall k :: k in keys ==> Used(edges, n, k)
  }

  lemma {:induction false} PortsKeep(s0: GraphValue, s: GraphValue, n: string, keys: seq<string>, ports: seq<Port>, inside: bool)
    requires Apart(NodeNames(s0.nodes)) && n in NodeNames(s0.nodes) && Keeps(s0, s)
    ensures Keeps(s0, DrainPorts(s, n, keys, ports, inside))
    ensures Sub(s.edges, DrainPorts(s, n, keys, ports, inside).edges)
    ensures Covered(DrainPorts(s, n, keys, ports, inside).edges, n, keys)
    decreases |keys|
  {
    if keys != [] {
      var s1 := DrainPort(s, n, keys[0], PortLookup(ports, keys[0]), inside);
      PortKeeps(s0, s, n, keys[0], PortLookup(ports, keys[0]), inside);
      PortsKeep(s0, s1, n, keys[1..], ports, inside);
      var t := DrainPorts(s1, n, keys[1..], ports, inside);
      forall k | k in keys ensures Used(t.edges, n, k) {
        if k != keys[0] {
          assert k in keys[1..];
        }
      }
    }
  }

  /** Whether the parent of a node of `s0` is a lambda is the same in `s0`
      and in every graph the pass reaches from it. */
  lemma LambdaStable(s0: GraphValue, s: GraphValue, n: string)
    requires Keeps(s0, s) && n in NodeNames(s0.nodes)
    ensures ParentOf(s, n) == ParentOf(s0, n)
    ensures IsLambda(s, ParentOf(s, n)) == IsLambda(s0, ParentOf(s0, n))
  {
    var p := ParentOf(s0, n);
    if p.Some? && p.value !in NodeNames(s0.nodes) {
      assert !IsLambda(s, p);
    }
  }

  /** What the pass promises for a node `n` of `s0`, read off its label in
      `s0`: unless its parent is a lambda, it has an output-port map and
      every output port is used; if it is a compound, every input port is
      used from inside. */
  ghost predicate Drained(s0: GraphValue, edges: seq<Edge>, n: string)
    requires n in NodeNames(s0.nodes)
  {
    var node := FindNode(s0.nodes, n).value.value;
    && (!IsLambda(s0, ParentOf(s0, n)) ==>
          node.outputPorts.Some? && Covered(edges, n, PortNames(node.outputPorts.value)))
    && (!node.atomic && !node.recursive ==> Covered(edges, n, PortNames(node.inputPorts)))
  }

  lemma DrainedGrows(s0: GraphValue, a: seq<Edge>, b: seq<Edge>, n: string)
    requires n in NodeNames(s0.nodes) && Drained(s0, a, n) && Sub(a, b)
    ensures Drained(s0, b, n)
  {
    var node := FindNode(s0.nodes, n).value.value;
    if !IsLambda(s0, ParentOf(s0, n)) {
      DrainedOutputsGrow(a, b, n, PortNames(node.outputPorts.value));
    }
    if !node.atomic && !node.recursive {
      DrainedOutputsGrow(a, b, n, PortNames(node.inputPorts));
    }
  }

  lemma NodeKeeps(s0: GraphValue, s: GraphValue, n: string)
    requires Apart(NodeNames(s0.nodes)) && n in NodeNames(s0.nodes) && Keeps(s0, s)
    requires DrainNode(s, n).Success?
    ensures Keeps(s0, DrainNode(s, n).value) && Sub(s.edges, DrainNode(s, n).value.edges)
    ensures Drained(s0, DrainNode(s, n).value.edges, n)
  {
    LambdaStable(s0, s, n);
    var node := FindNode(s.nodes, n).value.value;
    var s1 := s;
    if !IsLambda(s, ParentOf(s, n)) {
      s1 := DrainPorts(s, n, PortNames(node.outputPorts.value), node.outputPorts.value, false);
      PortsKeep(s0, s, n, PortNames(node.outputPorts.value), node.outputPorts.value, false);
    }
    if !node.atomic && !node.recursive {
      var s2 := DrainPorts(s1, n, PortNames(node.inputPorts), node.inputPorts, true);
      PortsKeep(s0, s1, n, PortNames(node.inputPorts), node.inputPorts, true);
      if !IsLambda(s, ParentOf(s, n)) {
        DrainedOutputsGrow(s1.edges, s2.edges, n, PortNames(node.outputPorts.value));
      }
    }
  }

  lemma DrainedOutputsGrow(a: seq<Edge>, b: seq<Edge>, n: string, keys: seq<string>)
    requires Covered(a, n, keys) && Sub(a, b)
    ensures Covered(b, n, keys)
  {
    forall k | k in keys ensures Used(b, n, k) {
      var x :| x in a && x.v == n && x.outPort == k;
    }
  }

  lemma {:induction false} AllKeep(s0: GraphValue, s: GraphValue, names: seq<string>)
    requires Apart(NodeNames(s0.nodes)) && Keeps(s0, s)
    requires forall n :: n in names ==> n in NodeNames(s0.nodes)
    requires DrainAll(s, names).Success?
    ensures Sub(s.edges, DrainAll(s, names).value.edges)
    ensures forall n :: n in names ==> Drained(s0, DrainAll(s, names).value.edges, n)
    decreases |names|
  {
    if names != [] {
      var s1 := DrainNode(s, names[0]).value;
      NodeKeeps(s0, s, names[0]);
      AllKeep(s0, s1, names[1..]);
      var t := DrainAll(s1, names[1..]).value;
      DrainedGrows(s0, s1.edges, t.edges, names[0]);
      forall n | n in names ensures Drained(s0, t.edges, n) {
        if n != names[0] {
          assert n in names[1..];
        }
      }
    }
  }

  /** When no node is named like a sink of a node and the edges into nodes
      named like sinks are sink edges, the pass, if it goes through, leaves
      every output port of every node not directly inside a lambda, and
      every input port of every compound, with an edge leaving it. */
  lemma DrainCovers(json: GraphValue, n: string)
    requires Apart(NodeNames(ImportJSON(json).nodes)) && Tidy(ImportJSON(json).edges)
    requires n in NodeNames(ImportJSON(json).nodes)
    requires DrainAll(ImportJSON(json), NodeNames(ImportJSON(json).nodes)).Success?
    ensures Drained(ImportJSON(json), DrainAll(ImportJSON(json), NodeNames(ImportJSON(json).nodes)).value.edges, n)
  {
    var s0 := ImportJSON(json);
    var names := NodeNames(s0.nodes);
    AllKeep(s0, s0, names);
  }

  /** An output port and an input port of one node with the same name share
      a sink name and are both read by successors of that name: once the
      output pass has drained the output port, the input pass finds the
      input port used and adds nothing, so that input port gets no sink
      inside the node. */
  lemma SharedNameSkipsInput(s: GraphValue, n: string, p: string, t: PortType, u: PortType)
    requires !Used(s.edges, n, p)
    ensures var s1 := DrainPort(s, n, p, t, false);
      DrainPort(s1, n, p, u, true) == s1 && s1 != s
  {
    PortDrained(s, n, p, t, false);
    PortDrained(DrainPort(s, n, p, t, false), n, p, u, true);
  }

  // ----- no loops -----

  /** A sink edge runs into a node with a longer name than its source, so it
      is never a self-loop; the pass adds no self-loop. */
  lemma PortLoopless(s: GraphValue, n: string, port: string, t: PortType, inside: bool)
    requires Loopless(s.edges)
    ensures Loopless(DrainPort(s, n, port, t, inside).edges)
  {
    var w := SinkWire(n, port);
    assert |w.w| > |w.v|;
    PutEdgeEffect(s.edges, w);
  }

  lemma {:induction false} PortsLoopless(s: GraphValue, n: string, keys: seq<string>, ports: seq<Port>, inside: bool)
    requires Loopless(s.edges)
    ensures Loopless(DrainPorts(s, n, keys, ports, inside).edges)
    decreases |keys|
  {
    if keys != [] {
      PortLoopless(s, n, keys[0], PortLookup(ports, keys[0]), inside);
      PortsLoopless(DrainPort(s, n, keys[0], PortLookup(ports, keys[0]), inside), n, keys[1..], ports, inside);
    }
  }

  lemma {:induction false} DrainLoopless(s: GraphValue, names: seq<string>)
    requires Loopless(s.edges) && DrainAll(s, names).Success?
    ensures Loopless(DrainAll(s, names).value.edges)
    decreases |names|
  {
    if names != [] {
      var node := FindNode(s.nodes, names[0]).value.value;
      var s1 := s;
      if !IsLambda(s, ParentOf(s, names[0])) {
        s1 := DrainPorts(s, names[0], PortNames(node.outputPorts.value), node.outputPorts.value, false);
        PortsLoopless(s, names[0], PortNames(node.outputPorts.value), node.outputPorts.value, false);
      }
      if !node.atomic && !node.recursive {
        PortsLoopless(s1, names[0], PortNames(node.inputPorts), node.inputPorts, true);
      }
      DrainLoopless(DrainNode(s, names[0]).value, names[1..]);
    }
  }
}
