/** Edges through compound nodes: `createEdge` and
    `rewriteEdgesThroughCompoundNodes` (src/api.js:172-215). An edge from a
    compound node back to the same compound node runs straight through it,
    from one of its input ports to one of its output ports. Each such
    self-loop present when the pass starts is replaced by two edges through
    a fresh `std/id` node placed inside the compound. */
module Boundary {
  import opened Wrappers
  import opened Strings
  import opened PortGraph

  /** `${source.node}@${source.port}_to_${target.node}@${target.port}`. */
  function EdgeName(source: Endpoint, target: Endpoint): string
  {
    source.node + "@" + source.port + "_to_" + target.node + "@" + target.port
  }

  /** The edge `createEdge` writes: named after its route and labelled with
      its two ports only, so it is not a continuation. */
  function NamedWire(source: Endpoint, target: Endpoint): (e: Edge)
    ensures Source(e) == source && Target(e) == target && !e.continuation
    ensures e.name == Some(EdgeName(source, target))
  {
    Edge(source.node, target.node, Some(EdgeName(source, target)), source.port, target.port, false)
  }

  /** `createEdge(graph, source, target)`. */
  method CreateEdge(graph: Graph, source: Endpoint, target: Endpoint)
    modifies graph
    ensures graph.edges == PutEdge(old(graph.edges), NamedWire(source, target))
    ensures graph.nodes == old(graph.nodes)
  {
    graph.SetEdge(NamedWire(source, target));
  }

  /** `id_${v}@${outPort}_to_${w}@${inPort}`: never the name of the
      compound itself, since it is longer. */
  function IdName(e: Edge): (r: string)
    ensures r != e.v && r != e.w
  {
    "id_" + e.v + "@" + e.outPort + "_to_" + e.w + "@" + e.inPort
  }

  /** The `std/id` node for the self-loop `e` of `compound`. Its `input`
      takes the type the compound's output ports give `e.inPort`, its
      `output` the type the compound's input ports give `e.outPort`. */
  function IdLabel(compound: NodeValue, e: Edge): NodeValue
    requires compound.outputPorts.Some?
  {
    NodeValue("std/id",
      [Port("input", PortLookup(compound.outputPorts.value, e.inPort))],
      Some([Port("output", PortLookup(compound.inputPorts, e.outPort))]),
      true, false, false, Settings(["input", "output"], None))
  }

  function InWire(e: Edge): Edge { NamedWire(Source(e), Endpoint(IdName(e), "input")) }

  function OutWire(e: Edge): Edge { NamedWire(Endpoint(IdName(e), "output"), Target(e)) }

  /** One turn of the loop, on the edge `e` of the snapshot: a self-loop is
      replaced by `v:outPort -> id:input` and `id:output -> v:inPort`
      through an id node inside `v`; reading the ports of a compound that is
      not a node, or that declares no output ports, throws. */
  function Step(s: GraphValue, e: Edge): Result<GraphValue, Error>
  {
    if e.v != e.w then Success(s)
    else
      match FindNode(s.nodes, e.v)
      case None => Failure(TypeError)
      case Some(c) =>
        if c.value.outputPorts.None? then Failure(TypeError)
        else
          Success(GraphValue(
            PutParent(PutNode(s.nodes, IdName(e), IdLabel(c.value, e)), IdName(e), Some(e.v)),
            DropEdge(PutEdge(PutEdge(s.edges, InWire(e)), OutWire(e)), Key(e))))
  }

  /** The turns over the snapshot `es`, stopping at the first throw. */
  function Rewrite(s: GraphValue, es: seq<Edge>): Result<GraphValue, Error>
    decreases |es|
  {
    if es == [] then Success(s)
    else
      match Step(s, es[0])
      case Failure(err) => Failure(err)
      case Success(t) => Rewrite(t, es[1..])
  }

  /** `rewriteEdgesThroughCompoundNodes(jsonGraph)`: the graph is read, the
      turns run over the edges it had at the start, and the graph is written
      back. */
  method RewriteEdgesThroughCompoundNodes(json: GraphValue) returns (r: Result<GraphValue, Error>)
    ensures r == Rewrite(ImportJSON(json), ImportJSON(json).edges)
  {
    var graph := new Graph.FromJSON(json);
    ghost var start := graph.Value();
    var es := graph.edges;
    ImportEdgesUnique(json.edges);
    var i := 0;
    while i < |es|
      invariant 0 <= i <= |es|
      invariant Rewrite(start, es) == Rewrite(graph.Value(), es[i..])
      invariant UniqueKeys(graph.edges)
      invariant LoopsIntact(graph.Value(), es, i)
    {
      var e := es[i];
      ghost var s := graph.Value();
      RewriteTurn(s, es, i);
      if e.v == e.w {
        var ok := Turn(graph, e);
        if !ok {
          return Failure(TypeError);
        }
        TurnKeepsLoops(s, es, i);
      } else {
        assert LoopsIntact(graph.Value(), es, i + 1);
      }
      i := i + 1;
    }
    return Success(graph.Value());
  }

  /** The turns from position `i` on: the turn at `i`, then the rest. */
  lemma RewriteTurn(s: GraphValue, es: seq<Edge>, i: nat)
    requires i < |es|
    ensures Rewrite(s, es[i..]) ==
      if Step(s, es[i]).Failure? then Failure(Step(s, es[i]).error) else Rewrite(Step(s, es[i]).value, es[i + 1..])
  {
    assert es[i..][1..] == es[i + 1..];
  }

  /** The body of the loop for a self-loop `e` still in the graph: it
      reads the edge's label and the compound, then writes the id node, its
      parent, the two edges and removes `e`. */
  method Turn(graph: Graph, e: Edge) returns (ok: bool)
    requires e.v == e.w && e in graph.edges && UniqueKeys(graph.edges)
    modifies graph
    ensures ok <==> Step(old(graph.Value()), e).Success?
    ensures ok ==> graph.Value() == Step(old(graph.Value()), e).value
  {
    EdgeLabelOf(graph.edges, e);
    var edge := EdgeLabel(graph.edges, Key(e)).value;
    var compound := FindNode(graph.nodes, e.v);
    if compound.None? || compound.value.value.outputPorts.None? {
      return false;
    }
    var idNode := IdName(edge);
    graph.SetNode(idNode, IdLabel(compound.value.value, edge));
    graph.SetParent(idNode, e.v);
    CreateEdge(graph, Endpoint(e.v, edge.outPort), Endpoint(idNode, "input"));
    CreateEdge(graph, Endpoint(idNode, "output"), Endpoint(e.w, edge.inPort));
    graph.RemoveEdge(Key(e));
    return true;
  }

  /** The self-loops of the snapshot from position `i` on are still edges of `s`. */
  predicate LoopsIntact(s: GraphValue, es: seq<Edge>, i: nat)
  {
    forall j :: i <= j < |es| && es[j].v == es[j].w ==> es[j] in s.edges
  }

  /** A turn on a self-loop keeps the edge keys unique and leaves the later
      self-loops of the snapshot in place: it writes no self-loop and
      removes only its own key. */
  lemma TurnKeepsLoops(s: GraphValue, es: seq<Edge>, i: nat)
    requires i < |es| && es[i].v == es[i].w && Step(s, es[i]).Success?
    requires UniqueKeys(es) && UniqueKeys(s.edges) && LoopsIntact(s, es, i)
    ensures UniqueKeys(Step(s, es[i]).value.edges) && LoopsIntact(Step(s, es[i]).value, es, i + 1)
  {
    var e := es[i];
    PutEdgeKeepsUnique(s.edges, InWire(e));
    PutEdgeKeepsUnique(PutEdge(s.edges, InWire(e)), OutWire(e));
    DropEdgeKeepsUnique(PutEdge(PutEdge(s.edges, InWire(e)), OutWire(e)), Key(e));
    TurnedLoops(s.edges, e);
    forall j | i + 1 <= j < |es| && es[j].v == es[j].w
      ensures es[j] in DropEdge(PutEdge(PutEdge(s.edges, InWire(e)), OutWire(e)), Key(e))
    {
      assert Key(es[j]) != Key(e);
    }
  }

  /** The self-loops a turn on the self-loop `e` leaves are those it found,
      less `e`'s key: the two wires it writes are no self-loops. */
  lemma TurnedLoops(edges: seq<Edge>, e: Edge)
    requires e.v == e.w
    ensures forall x: Edge :: x.v == x.w ==>
      (x in DropEdge(PutEdge(PutEdge(edges, InWire(e)), OutWire(e)), Key(e)) <==> x in edges && Key(x) != Key(e))
  {
    LoopSurvivesPut(edges, InWire(e));
    LoopSurvivesPut(PutEdge(edges, InWire(e)), OutWire(e));
  }

  /** Writing an edge that is no self-loop changes no self-loop. */
  lemma LoopSurvivesPut(edges: seq<Edge>, w: Edge)
    requires w.v != w.w
    ensures forall x: Edge :: x.v == x.w ==> (x in PutEdge(edges, w) <==> x in edges)
  {
    PutEdgeEffect(edges, w);
    forall x: Edge | x.v == x.w ensures x in PutEdge(edges, w) <==> x in edges {
      assert Key(x) != Key(w) && x != w;
    }
  }

  // ----- what the pass achieves -----

  /** The self-loops of `s` are all still to be visited. */
  predicate LoopsAhead(s: GraphValue, es: seq<Edge>)
  {
    forall x :: x in s.edges && x.v == x.w ==> x in es
  }

  /** A turn adds no self-loop and takes away the one it visits. */
  lemma StepRemovesLoop(s: GraphValue, e: Edge, es: seq<Edge>)
    requires LoopsAhead(s, [e] + es)
    requires Step(s, e).Success?
    ensures LoopsAhead(Step(s, e).value, es)
  {
    if e.v == e.w {
      TurnedLoops(s.edges, e);
      forall x | x in Step(s, e).value.edges && x.v == x.w ensures x in es {
        assert x in s.edges && x != e;
      }
    }
  }

  lemma {:induction false} RewriteRemovesLoops(s: GraphValue, es: seq<Edge>)
    requires LoopsAhead(s, es)
    requires Rewrite(s, es).Success?
    ensures forall x :: x in Rewrite(s, es).value.edges ==> x.v != x.w
    decreases |es|
  {
    if es != [] {
      StepRemovesLoop(s, es[0], es[1..]);
      assert [es[0]] + es[1..] == es;
      RewriteRemovesLoops(Step(s, es[0]).value, es[1..]);
    }
  }

  /** When the pass goes through, no edge of its result is a self-loop. */
  lemma NoSelfLoops(json: GraphValue)
    requires Rewrite(ImportJSON(json), ImportJSON(json).edges).Success?
    ensures forall x :: x in Rewrite(ImportJSON(json), ImportJSON(json).edges).value.edges ==> x.v != x.w
  {
    RewriteRemovesLoops(ImportJSON(json), ImportJSON(json).edges);
  }

  /** Node names and the keys of edges that are not self-loops are kept by
      every turn. */
  predicate Grows(s: GraphValue, t: GraphValue)
  {
    && (forall x :: x in NodeNames(s.nodes) ==> x in NodeNames(t.nodes))
    && (forall k :: k in Keys(s.edges) && k.v != k.w ==> k in Keys(t.edges))
  }

  lemma StepGrows(s: GraphValue, e: Edge)
    requires Step(s, e).Success?
    ensures Grows(s, Step(s, e).value)
  {
    if e.v == e.w {
      var t := Step(s, e).value;
      PutNodeKeepsNames(s.nodes, IdName(e), IdLabel(FindNode(s.nodes, e.v).value.value, e));
      PutEdgeEffect(s.edges, InWire(e));
      PutEdgeEffect(PutEdge(s.edges, InWire(e)), OutWire(e));
      forall k | k in Keys(s.edges) && k.v != k.w ensures k in Keys(t.edges) {
        DropEdgeKeys(PutEdge(PutEdge(s.edges, InWire(e)), OutWire(e)), Key(e), k);
      }
    }
  }

  lemma {:induction false} RewriteGrows(s: GraphValue, es: seq<Edge>)
    requires Rewrite(s, es).Success?
    ensures Grows(s, Rewrite(s, es).value)
    decreases |es|
  {
    if es != [] {
      StepGrows(s, es[0]);
      RewriteGrows(Step(s, es[0]).value, es[1..]);
    }
  }

  /** A turn on a self-loop `e` of `v` leaves the id node inside `v` with
      the swapped port types, and the edges `v:outPort -> id:input` and
      `id:output -> v:inPort` in place of `e`. */
  lemma StepReplaces(s: GraphValue, e: Edge)
    requires e.v == e.w && Step(s, e).Success?
    ensures var t := Step(s, e).value;
      && FindNode(t.nodes, IdName(e)) == Some(Node(IdName(e), IdLabel(FindNode(s.nodes, e.v).value.value, e), Some(e.v)))
      && InWire(e) in t.edges && OutWire(e) in t.edges && Key(e) !in Keys(t.edges)
  {
    var t := Step(s, e).value;
    FindPlaced(s.nodes, IdName(e), IdLabel(FindNode(s.nodes, e.v).value.value, e), Some(e.v));
    var w1 := PutEdge(s.edges, InWire(e));
    PutEdgeEffect(s.edges, InWire(e));
    PutEdgeEffect(w1, OutWire(e));
    DropEdgeKeys(PutEdge(w1, OutWire(e)), Key(e), Key(e));
  }

  /** Every self-loop of the snapshot is replaced in the result: the id
      node is there, and so are the keys of the two edges through it. */
  lemma {:induction false} EveryLoopReplaced(s: GraphValue, es: seq<Edge>, e: Edge)
    requires Rewrite(s, es).Success? && e in es && e.v == e.w
    ensures var t := Rewrite(s, es).value;
      IdName(e) in NodeNames(t.nodes) && Key(InWire(e)) in Keys(t.edges) && Key(OutWire(e)) in Keys(t.edges)
    decreases |es|
  {
    var u := Step(s, es[0]).value;
    if es[0] == e {
      StepReplaces(s, e);
      RewriteGrows(u, es[1..]);
      assert IdName(e) in NodeNames(u.nodes) by {
        var j :| 0 <= j < |u.nodes| && u.nodes[j] == FindNode(u.nodes, IdName(e)).value;
        assert NodeNames(u.nodes)[j] == IdName(e);
      }
      assert Key(InWire(e)) in Keys(u.edges) by {
        var j :| 0 <= j < |u.edges| && u.edges[j] == InWire(e);
        assert Keys(u.edges)[j] == Key(InWire(e));
      }
      assert Key(OutWire(e)) in Keys(u.edges) by {
        var j :| 0 <= j < |u.edges| && u.edges[j] == OutWire(e);
        assert Keys(u.edges)[j] == Key(OutWire(e));
      }
    } else {
      EveryLoopReplaced(u, es[1..], e);
    }
  }

  /** The turn on `e` has left the id node for `e` inside `e.v`, labelled
      `lbl`, and the two edges through it. */
  predicate Placed(t: GraphValue, e: Edge, lbl: NodeValue)
  {
    && FindNode(t.nodes, IdName(e)) == Some(Node(IdName(e), lbl, Some(e.v)))
    && InWire(e) in t.edges && OutWire(e) in t.edges
  }

  /** The self-loops of the snapshot have pairwise different id names, and
      no id name is the name of another self-loop's compound. */
  predicate IdsApart(es: seq<Edge>)
  {
    forall i, j :: 0 <= i < |es| && 0 <= j < |es| && i != j && es[i].v == es[i].w && es[j].v == es[j].w ==>
      IdName(es[i]) != IdName(es[j]) && IdName(es[i]) != es[j].v
  }

  lemma IdsApartTail(es: seq<Edge>)
    requires es != [] && IdsApart(es)
    ensures IdsApart(es[1..])
  {
    forall i, j | 0 <= i < |es[1..]| && 0 <= j < |es[1..]| && i != j && es[1..][i].v == es[1..][i].w && es[1..][j].v == es[1..][j].w
      ensures IdName(es[1..][i]) != IdName(es[1..][j]) && IdName(es[1..][i]) != es[1..][j].v
    {
      assert es[1..][i] == es[i + 1] && es[1..][j] == es[j + 1];
    }
  }

  /** A turn on a self-loop `x` whose id node is neither `e`'s id node nor
      `e`'s compound, and whose compound is not `e`'s id node, keeps what
      the turn on `e` placed. */
  lemma StepKeeps(s: GraphValue, x: Edge, e: Edge, lbl: NodeValue)
    requires Step(s, x).Success? && Placed(s, e, lbl)
    requires x.v == x.w ==> IdName(x) != IdName(e) && IdName(x) != e.v && x.v != IdName(e)
    ensures Placed(Step(s, x).value, e, lbl)
  {
    if x.v == x.w {
      var c := FindNode(s.nodes, x.v).value.value;
      var n1 := PutNode(s.nodes, IdName(x), IdLabel(c, x));
      FindOther(s.nodes, IdName(x), IdLabel(c, x), Some(x.v), IdName(e));
      FindOther(n1, IdName(x), IdLabel(c, x), Some(x.v), IdName(e));
      var w1 := PutEdge(s.edges, InWire(x));
      PutEdgeEffect(s.edges, InWire(x));
      PutEdgeEffect(w1, OutWire(x));
      assert Key(InWire(e)) != Key(InWire(x)) && Key(InWire(e)) != Key(OutWire(x)) && Key(InWire(e)) != Key(x);
      assert Key(OutWire(e)) != Key(InWire(x)) && Key(OutWire(e)) != Key(OutWire(x)) && Key(OutWire(e)) != Key(x);
    }
  }

  lemma {:induction false} RewriteKeeps(s: GraphValue, es: seq<Edge>, e: Edge, lbl: NodeValue)
    requires Rewrite(s, es).Success? && Placed(s, e, lbl)
    requires forall x :: x in es && x.v == x.w ==> IdName(x) != IdName(e) && IdName(x) != e.v && x.v != IdName(e)
    ensures Placed(Rewrite(s, es).value, e, lbl)
    decreases |es|
  {
    if es != [] {
      StepKeeps(s, es[0], e, lbl);
      assert forall x :: x in es[1..] ==> x in es;
      RewriteKeeps(Step(s, es[0]).value, es[1..], e, lbl);
    }
  }

  /** A turn writes no node but its own id node. */
  lemma StepKeepsNode(s: GraphValue, x: Edge, m: string)
    requires Step(s, x).Success?
    requires x.v == x.w ==> IdName(x) != m
    ensures FindNode(Step(s, x).value.nodes, m) == FindNode(s.nodes, m)
  {
    if x.v == x.w {
      var c := FindNode(s.nodes, x.v).value.value;
      FindOther(s.nodes, IdName(x), IdLabel(c, x), Some(x.v), m);
      FindOther(PutNode(s.nodes, IdName(x), IdLabel(c, x)), IdName(x), IdLabel(c, x), Some(x.v), m);
    }
  }

  /** With the id names apart, every later self-loop of the snapshot stays
      clear of the head self-loop's id node and compound. */
  lemma HeadApart(es: seq<Edge>)
    requires es != [] && es[0].v == es[0].w && IdsApart(es)
    ensures forall x :: x in es[1..] && x.v == x.w ==>
      IdName(x) != IdName(es[0]) && IdName(x) != es[0].v && x.v != IdName(es[0])
  {
    forall x | x in es[1..] && x.v == x.w
      ensures IdName(x) != IdName(es[0]) && IdName(x) != es[0].v && x.v != IdName(es[0])
    {
      var j :| 0 <= j < |es[1..]| && es[1..][j] == x;
      assert es[j + 1] == x;
    }
  }

  /** The self-loop at the head of the snapshot is rewired by its own turn,
      and no later turn undoes that. */
  lemma FirstLoopRewired(s: GraphValue, es: seq<Edge>)
    requires es != [] && Rewrite(s, es).Success? && es[0].v == es[0].w && IdsApart(es)
    ensures FindNode(s.nodes, es[0].v).Some? && FindNode(s.nodes, es[0].v).value.value.outputPorts.Some?
    ensures Placed(Rewrite(s, es).value, es[0], IdLabel(FindNode(s.nodes, es[0].v).value.value, es[0]))
  {
    StepReplaces(s, es[0]);
    HeadApart(es);
    RewriteKeeps(Step(s, es[0]).value, es[1..], es[0], IdLabel(FindNode(s.nodes, es[0].v).value.value, es[0]));
  }

  /** When the id names of the snapshot's self-loops stay apart, every
      self-loop `e` of the snapshot is rewired in the result: its compound
      was a node with output ports, the id node sits inside it with the
      port types the compound had when `e` was visited, and the edges
      `v:outPort -> id:input` and `id:output -> v:inPort` are there. */
  lemma {:induction false} EveryLoopRewired(s: GraphValue, es: seq<Edge>, e: Edge)
    requires Rewrite(s, es).Success? && e in es && e.v == e.w && IdsApart(es)
    ensures FindNode(s.nodes, e.v).Some? && FindNode(s.nodes, e.v).value.value.outputPorts.Some?
    ensures Placed(Rewrite(s, es).value, e, IdLabel(FindNode(s.nodes, e.v).value.value, e))
    decreases |es|
  {
    if es[0] == e {
      FirstLoopRewired(s, es);
    } else {
      var j :| 0 <= j < |es| && es[j] == e;
      assert e in es[1..] by { assert es[1..][j - 1] == e; }
      assert es[0].v == es[0].w ==> IdName(es[0]) != e.v;
      StepKeepsNode(s, es[0], e.v);
      IdsApartTail(es);
      EveryLoopRewired(Step(s, es[0]).value, es[1..], e);
    }
  }
}
