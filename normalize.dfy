/** `normalize(graph, options)` (src/api.js:299-318): the three passes in
    a fixed order, each switched by an option that is on unless the caller
    sets it to `false`. Whether the input is a network port graph is
    decided by the graph library's `utils.isNPG`, which is not part of this
    model and is taken as the argument `npg`. */
module Normalize {
  import opened Wrappers
  import opened PortGraph
  import opened Fan
  import opened Splice
  import opened Boundary
  import opened Drain
  import opened Trees

  /** The caller's options; a missing field is `None`. */
  datatype Options = Options(
    createDuplicatesAndJoins: Option<bool>,
    createIdNodes: Option<bool>,
    addConsumeNodes: Option<bool>)

  /** `_.merge({}, defaultOptions, options)` for one flag: every default is
      `true`, and only a value the caller gives replaces it. */
  function Flag(given: Option<bool>): (on: bool)
    ensures on <==> given != Some(false)
  {
    if given.Some? then given.value else true
  }

  /** `options || {}` followed by the merge. */
  function Resolve(options: Option<Options>): (r: Options)
    ensures options.None? ==> r == Options(Some(true), Some(true), Some(true))
    ensures options.Some? ==> r.createDuplicatesAndJoins == Some(Flag(options.value.createDuplicatesAndJoins))
    ensures options.Some? ==> r.createIdNodes == Some(Flag(options.value.createIdNodes))
    ensures options.Some? ==> r.addConsumeNodes == Some(Flag(options.value.addConsumeNodes))
  {
    match options
    case None => Options(Some(true), Some(true), Some(true))
    case Some(o) => Options(Some(Flag(o.createDuplicatesAndJoins)), Some(Flag(o.createIdNodes)), Some(Flag(o.addConsumeNodes)))
  }

  /** The splice stage, on the graph `s` and with bundles taken from `g`. */
  function DupStage(on: bool, s: GraphValue, g: GraphValue): Result<GraphValue, Error>
  {
    if on then DupJoins(s, g) else Success(s)
  }

  /** The id-node stage. */
  function IdStage(on: bool, s: GraphValue): Result<GraphValue, Error>
  {
    if on then Rewrite(ImportJSON(s), ImportJSON(s).edges) else Success(s)
  }

  /** The consume stage. */
  function ConsumeStage(on: bool, s: GraphValue): Result<GraphValue, Error>
  {
    if on then DrainAll(ImportJSON(s), NodeNames(ImportJSON(s).nodes)) else Success(s)
  }

  /** The whole of `normalize` on the value of a graph: the stages in order,
      stopping at the first throw, and the result read back by the library. */
  function Pipeline(g: GraphValue, npg: bool, options: Option<Options>): Result<GraphValue, Error>
  {
    if !npg then Failure(NotNPG)
    else
      var o := Resolve(options);
      match DupStage(o.createDuplicatesAndJoins.value, g, g)
      case Failure(e) => Failure(e)
      case Success(s1) =>
        match IdStage(o.createIdNodes.value, s1)
        case Failure(e) => Failure(e)
        case Success(s2) =>
          match ConsumeStage(o.addConsumeNodes.value, s2)
          case Failure(e) => Failure(e)
          case Success(s3) => Success(ImportJSON(s3))
  }

  /** `normalize(graph, options)`: `graph` itself is not changed; the result
      is a new graph. */
  method Normalize(graph: Graph, npg: bool, options: Option<Options>) returns (r: Result<Graph, Error>)
    ensures !npg ==> r == Failure(NotNPG)
    ensures r.Success? <==> Pipeline(graph.Value(), npg, options).Success?
    ensures r.Failure? ==> Pipeline(graph.Value(), npg, options) == Failure(r.error)
    ensures r.Success? ==> fresh(r.value) && r.value.Value() == Pipeline(graph.Value(), npg, options).value
  {
    var o := Resolve(options);
    if !npg {
      return Failure(NotNPG);
    }
    var editGraph := new JsonGraph(graph.Value());
    var current := editGraph.Value();
    if o.createDuplicatesAndJoins.value {
      var spliced := CreateDupJoins(editGraph, graph.Value());
      if spliced.Failure? {
        return Failure(spliced.error);
      }
      current := spliced.value.Value();
    }
    if o.createIdNodes.value {
      var rewritten := RewriteEdgesThroughCompoundNodes(current);
      if rewritten.Failure? {
        return Failure(rewritten.error);
      }
      current := rewritten.value;
    }
    if o.addConsumeNodes.value {
      var drained := AddConsumeForUnusedPorts(current);
      if drained.Failure? {
        return Failure(drained.error);
      }
      current := drained.value;
    }
    var result := new Graph.FromJSON(current);
    return Success(result);
  }

  // ----- properties of the whole -----

  /** With every pass switched off, `normalize` only reads the graph back:
      a graph with unique node names and edge keys, whose parents are
      non-empty names, comes back unchanged. */
  lemma AllOff(g: GraphValue)
    requires UniqueNames(g.nodes) && UniqueKeys(g.edges) && ParentsNamed(g.nodes)
    ensures Pipeline(g, true, Some(Options(Some(false), Some(false), Some(false)))) == Success(g)
  {
    ImportJSONRoundTrip(g);
  }

  /** With id nodes on, a normalised graph has no self-loop: the id-node
      pass removes them, sinks never close one, and reading back keeps only
      edges it was given. */
  lemma NoSelfLoopsAfterIdNodes(g: GraphValue, options: Option<Options>)
    requires Resolve(options).createIdNodes == Some(true)
    requires Pipeline(g, true, options).Success?
    ensures Loopless(Pipeline(g, true, options).value.edges)
  {
    var o := Resolve(options);
    var s1 := DupStage(o.createDuplicatesAndJoins.value, g, g).value;
    var s2 := IdStage(true, s1).value;
    NoSelfLoops(s1);
    if o.addConsumeNodes.value {
      ImportEdgesFrom(s2.edges);
      DrainLoopless(ImportJSON(s2), NodeNames(ImportJSON(s2).nodes));
    }
    var s3 := ConsumeStage(o.addConsumeNodes.value, s2).value;
    ImportEdgesFrom(s3.edges);
  }

  /** A graph with a bundle into a port whose first edge has no output port
      cannot be normalised while duplicates and joins are on: the merge
      throws a `TypeError`, unless a join tree that does not end has already
      thrown a `RangeError`. */
  lemma JoinOfUnnamedPortThrows(g: GraphValue, options: Option<Options>, b: seq<BundleEdge>)
    requires Resolve(options).createDuplicatesAndJoins == Some(true)
    requires b in MultipleIns(g) && b != [] && b[0].edge.outPort == ""
    ensures Pipeline(g, true, options) == if JoinOverflows(g) then Failure(RangeError) else Failure(TypeError)
  {
    assert NoOutPort(b);
  }

  /** A bundle into a port with a named output port whose number of
      producers the as-written split cannot handle (four, or six and more)
      makes normalisation overflow the stack while duplicates and joins are
      on. */
  lemma OverflowingJoinThrows(g: GraphValue, options: Option<Options>, b: seq<BundleEdge>)
    requires Resolve(options).createDuplicatesAndJoins == Some(true)
    requires b in MultipleIns(g) && b != [] && b[0].edge.outPort != ""
    requires !Terminating(|PredecessorPorts(g.edges, b[0].edge.w, b[0].edge.inPort)|)
    ensures Pipeline(g, true, options) == Failure(RangeError)
  {
    assert Overflows(g, b);
  }
}
