/** Splicing the trees in: `mergeNodes`, `parent` and `createDupJoins`
    (src/api.js:149-170, 272-297). For every output bundle a duplicate tree
    fans the producer port out to all its consumers; for every input bundle
    a join tree gathers all producers into the consumer port. Every edge
    whose route matches a bundle edge is dropped, and the trees' nodes and
    edges are appended: join trees first, then duplicate trees. */
module Splice {
  import opened Wrappers
  import opened PortGraph
  import opened Fan
  import opened Trees

  // ----- the scope of a duplicate tree -----

  /** A node placed in `scope` can be wired to `x`: `x` lies directly in
      `scope`, or `x` is the compound `scope` itself. */
  predicate Encloses(g: GraphValue, scope: Option<string>, x: string)
  {
    ParentOf(g, x) == scope || scope == Some(x)
  }

  /** `a` and `b` are siblings, or one is the direct parent of the other:
      the ways an edge of a network port graph can run. */
  predicate Nested(g: GraphValue, a: string, b: string)
  {
    ParentOf(g, a) == ParentOf(g, b) || ParentOf(g, a) == Some(b) || ParentOf(g, b) == Some(a)
  }

  /** `parent(graph, outP, inP)`: the scope for a tree between the producer
      `outP` and the consumer `inP`. It is the producer's own scope or one
      of the two ends, and for ends that are nested it is a scope from
      which both can be wired. */
  function Parent(g: GraphValue, outP: string, inP: string): (r: Option<string>)
    ensures r == ParentOf(g, outP) || r == Some(inP) || r == Some(outP)
    ensures Nested(g, outP, inP) ==> Encloses(g, r, outP) && Encloses(g, r, inP)
  {
    if ParentOf(g, outP) == ParentOf(g, inP) then ParentOf(g, outP)
    else if ParentOf(g, outP) == Some(inP) then Some(inP)
    else Some(outP)
  }

  // ----- folding the trees together -----

  /** `mergeNodes(acc, n)`. */
  function MergeNodes(acc: GraphValue, n: GraphValue): GraphValue
  {
    GraphValue(acc.nodes + n.nodes, acc.edges + n.edges)
  }

  /** `_.reduce(parts, mergeNodes, {nodes: [], edges: []})`: a left fold. */
  function MergeAll(parts: seq<GraphValue>): GraphValue
  {
    if parts == [] then GraphValue([], [])
    else MergeNodes(MergeAll(parts[..|parts| - 1]), parts[|parts| - 1])
  }

  /** The nodes of all parts, part by part. */
  function NodesOf(parts: seq<GraphValue>): seq<Node>
  {
    if parts == [] then [] else parts[0].nodes + NodesOf(parts[1..])
  }

  /** The edges of all parts, part by part. */
  function EdgesOf(parts: seq<GraphValue>): seq<Edge>
  {
    if parts == [] then [] else parts[0].edges + EdgesOf(parts[1..])
  }

  lemma {:induction false} OfAppend(p: seq<GraphValue>, q: seq<GraphValue>)
    ensures NodesOf(p + q) == NodesOf(p) + NodesOf(q)
    ensures EdgesOf(p + q) == EdgesOf(p) + EdgesOf(q)
  {
    if p == [] {
      assert p + q == q;
    } else {
      assert (p + q)[1..] == p[1..] + q;
      OfAppend(p[1..], q);
    }
  }

  /** Folding the parts with `mergeNodes` lists every part's nodes, and
      every part's edges, in part order. */
  lemma {:induction false} MergeAllConcat(parts: seq<GraphValue>)
    ensures MergeAll(parts) == GraphValue(NodesOf(parts), EdgesOf(parts))
  {
    if parts != [] {
      var init := parts[..|parts| - 1];
      var last := parts[|parts| - 1];
      MergeAllConcat(init);
      OfAppend(init, [last]);
      assert init + [last] == parts;
      assert NodesOf([last]) == last.nodes + NodesOf([]);
      assert EdgesOf([last]) == last.edges + EdgesOf([]);
    }
  }

  lemma {:induction false} NodesOfMember(parts: seq<GraphValue>, n: Node)
    requires n in NodesOf(parts)
    ensures exists i :: 0 <= i < |parts| && n in parts[i].nodes
  {
    if n !in parts[0].nodes {
      NodesOfMember(parts[1..], n);
      var i :| 0 <= i < |parts[1..]| && n in parts[1..][i].nodes;
      assert n in parts[i + 1].nodes;
    }
  }

  /** `_.compact(parts)`: the defined parts, in order. */
  function Compact(parts: seq<Option<GraphValue>>): seq<GraphValue>
  {
    if parts == [] then [] else (if parts[0].Some? then [parts[0].value] else []) + Compact(parts[1..])
  }

  lemma {:induction false} CompactAppend(p: seq<Option<GraphValue>>, q: seq<Option<GraphValue>>)
    ensures Compact(p + q) == Compact(p) + Compact(q)
  {
    if p == [] {
      assert p + q == q;
    } else {
      assert (p + q)[0] == p[0];
      assert (p + q)[1..] == p[1..] + q;
      CompactAppend(p[1..], q);
      var head := if p[0].Some? then [p[0].value] else [];
      calc {
        Compact(p + q);
        head + Compact(p[1..] + q);
        head + (Compact(p[1..]) + Compact(q));
        (head + Compact(p[1..])) + Compact(q);
      }
    }
  }

  lemma {:induction false} CompactMember(parts: seq<Option<GraphValue>>, x: GraphValue)
    requires x in Compact(parts)
    ensures Some(x) in parts
  {
    if !(parts[0].Some? && parts[0].value == x) {
      CompactMember(parts[1..], x);
      assert Some(x) in parts[1..];
    }
  }

  /** The same fold over parts that may be `undefined`: `mergeNodes` reads
      `.nodes` of such a part and throws. */
  function MergeOrFail(parts: seq<Option<GraphValue>>): Option<GraphValue>
  {
    if parts == [] then Some(GraphValue([], []))
    else
      var acc := MergeOrFail(parts[..|parts| - 1]);
      if acc.None? || parts[|parts| - 1].None? then None
      else Some(MergeNodes(acc.value, parts[|parts| - 1].value))
  }

  /** The fold goes through exactly when every part is defined, and then it
      is the fold of the defined parts. */
  lemma {:induction false} MergeOrFailIff(parts: seq<Option<GraphValue>>)
    ensures MergeOrFail(parts).Some? <==> forall i :: 0 <= i < |parts| ==> parts[i].Some?
    ensures MergeOrFail(parts).Some? ==> MergeOrFail(parts).value == MergeAll(Compact(parts))
  {
    if parts != [] {
      var init := parts[..|parts| - 1];
      var last := parts[|parts| - 1];
      MergeOrFailIff(init);
      assert init + [last] == parts;
      CompactAppend(init, [last]);
      assert Compact([last]) == (if last.Some? then [last.value] else []) + Compact([]);
      if last.Some? {
        var c := Compact(init) + [last.value];
        assert c[..|c| - 1] == Compact(init);
      }
      if MergeOrFail(parts).Some? {
        forall i | 0 <= i < |parts| ensures parts[i].Some? {
          if i < |init| {
            assert parts[i] == init[i];
          }
        }
      }
    }
  }

  // ----- the trees of the bundles -----

  lemma {:induction false} FanWithinSuccessors(edges: seq<Edge>, at: Endpoint)
    ensures |FanEdges(edges, at, Out)| <= |Successors(edges, at.node, at.port)|
    ensures |FanEdges(edges, at, In)| <= |Predecessors(edges, at.node, at.port)|
  {
    if edges != [] {
      FanWithinSuccessors(edges[1..], at);
    }
  }

  /** A bundle has at least two members, so its port has at least two
      neighbours (continuation edges count there too). */
  lemma FanHasNeighbours(g: GraphValue, b: seq<BundleEdge>, d: Direction)
    requires IsFan(g, b, d)
    ensures d == Out ==> |SuccessorPorts(g.edges, b[0].edge.v, b[0].edge.outPort)| >= 2
    ensures d == In ==> |PredecessorPorts(g.edges, b[0].edge.w, b[0].edge.inPort)| >= 2
  {
    FanWithinSuccessors(g.edges, PortOf(b[0].edge, d));
  }

  /** The descriptor of an output bundle's tree: the producer port, put into
      the scope `parent` picks between the producer and the last consumer,
      carrying the port type of the bundle. */
  function DupAnchor(g: GraphValue, b: seq<BundleEdge>): Anchor
    requires b != []
  {
    Anchor(b[0].edge.v, b[0].edge.outPort, Parent(g, b[0].edge.v, b[|b| - 1].edge.w), b[0].ptype)
  }

  /** The descriptor of an input bundle's tree: the consumer port, put into
      the scope of the first producer. */
  function JoinAnchor(g: GraphValue, b: seq<BundleEdge>): Anchor
    requires b != []
  {
    Anchor(b[0].edge.w, b[0].edge.inPort, ParentOf(g, b[0].edge.v), b[0].ptype)
  }

  /** The duplicate tree of an output bundle over all the consumers of its
      port; `undefined` when the port name is empty. */
  function DupTreeOf(g: GraphValue, b: seq<BundleEdge>): Option<GraphValue>
    requires IsFan(g, b, Out)
  {
    if b[0].edge.outPort == "" then None
    else
      FanHasNeighbours(g, b, Out);
      Some(CreateDuplicates(DupAnchor(g, b), SuccessorPorts(g.edges, b[0].edge.v, b[0].edge.outPort), 0, 0))
  }

  /** The producers of an input bundle's port, in edge order. */
  function JoinEnds(g: GraphValue, b: seq<BundleEdge>): seq<Endpoint>
    requires b != []
  {
    PredecessorPorts(g.edges, b[0].edge.w, b[0].edge.inPort)
  }

  /** The first edge of the bundle names no output port, so no join tree is
      made for it. */
  predicate NoOutPort(b: seq<BundleEdge>)
  {
    b != [] && b[0].edge.outPort == ""
  }

  /** `createJoins` as written is called on the bundle and never returns:
      the split at src/api.js:141 does not bottom out for its number of
      producers (`Trees.CreateJoinsTerminates`). */
  predicate Overflows(g: GraphValue, b: seq<BundleEdge>)
  {
    b != [] && b[0].edge.outPort != "" && !Terminating(|JoinEnds(g, b)|)
  }

  /** The join tree of an input bundle over all the producers of its port:
      `undefined` when the first edge's `outPort` (not its `inPort`) is
      empty, a `RangeError` when `createJoins` as written does not end, and
      otherwise the tree, which is the corrected join tree. */
  function JoinTreeOf(g: GraphValue, b: seq<BundleEdge>): Result<Option<GraphValue>, Error>
    requires IsFan(g, b, In)
  {
    if b[0].edge.outPort == "" then Success(None)
    else
      FanHasNeighbours(g, b, In);
      match CreateJoins(JoinAnchor(g, b), JoinEnds(g, b), 0, 0)
      case None => Failure(RangeError)
      case Some(t) => Success(Some(t))
  }

  /** What `JoinTreeOf` yields for a bundle into a port. */
  lemma JoinTreeOfMeaning(g: GraphValue, b: seq<BundleEdge>)
    requires IsFan(g, b, In)
    ensures JoinTreeOf(g, b).Failure? <==> Overflows(g, b)
    ensures JoinTreeOf(g, b).Failure? ==> JoinTreeOf(g, b).error == RangeError
    ensures NoOutPort(b) ==> JoinTreeOf(g, b) == Success(None)
    ensures JoinTreeOf(g, b).Success? && !NoOutPort(b) ==>
      |JoinEnds(g, b)| >= 2 && JoinTreeOf(g, b).value == Some(CreateJoinsCorrected(JoinAnchor(g, b), JoinEnds(g, b), 0, 0))
  {
    if b[0].edge.outPort != "" {
      FanHasNeighbours(g, b, In);
      CreateJoinsTerminates(JoinAnchor(g, b), JoinEnds(g, b), 0, 0);
      CreateJoinsAgrees(JoinAnchor(g, b), JoinEnds(g, b), 0, 0);
    }
  }

  function DupTrees(g: GraphValue, bs: seq<seq<BundleEdge>>): (r: seq<Option<GraphValue>>)
    requires forall b :: b in bs ==> IsFan(g, b, Out)
    ensures |r| == |bs|
    ensures forall i :: 0 <= i < |bs| ==> r[i] == DupTreeOf(g, bs[i])
  {
    if bs == [] then [] else [DupTreeOf(g, bs[0])] + DupTrees(g, bs[1..])
  }

  /** A map whose callback may throw: the results in order, or the first
      error met. */
  function Collect<T>(rs: seq<Result<T, Error>>): (r: Result<seq<T>, Error>)
    ensures r.Failure? <==> exists i :: 0 <= i < |rs| && rs[i].Failure?
    ensures r.Failure? ==> exists i :: 0 <= i < |rs| && rs[i] == Failure(r.error) && forall j :: 0 <= j < i ==> rs[j].Success?
    ensures r.Success? ==> |r.value| == |rs| && forall i :: 0 <= i < |rs| ==> rs[i] == Success(r.value[i])
  {
    if rs == [] then Success([])
    else if rs[0].Failure? then Failure(rs[0].error)
    else
      var tail := Collect(rs[1..]);
      assert forall i :: 0 < i < |rs| ==> rs[i] == rs[1..][i - 1];
      if tail.Failure? then
        assert exists i :: 0 <= i < |rs[1..]| && rs[1..][i] == Failure(tail.error) && forall j :: 0 <= j < i ==> rs[1..][j].Success?;
        var i :| 0 <= i < |rs[1..]| && rs[1..][i] == Failure(tail.error) && forall j :: 0 <= j < i ==> rs[1..][j].Success?;
        assert rs[i + 1] == Failure(tail.error) && forall j :: 0 <= j < i + 1 ==> rs[j].Success?;
        Failure(tail.error)
      else
        Success([rs[0].value] + tail.value)
  }

  /** The callback of `_.map(multiIns, …)` applied to every input bundle. */
  function JoinResults(g: GraphValue, bs: seq<seq<BundleEdge>>): (r: seq<Result<Option<GraphValue>, Error>>)
    requires forall b :: b in bs ==> IsFan(g, b, In)
    ensures |r| == |bs|
    ensures forall i :: 0 <= i < |bs| ==> r[i] == JoinTreeOf(g, bs[i])
  {
    if bs == [] then [] else [JoinTreeOf(g, bs[0])] + JoinResults(g, bs[1..])
  }

  /** `_.map(multiIns, …)`: the join trees in bundle order. The map runs to
      the end before anything is merged, so it throws exactly when some
      bundle's tree does not end. */
  function JoinTrees(g: GraphValue, bs: seq<seq<BundleEdge>>): (r: Result<seq<Option<GraphValue>>, Error>)
    requires forall b :: b in bs ==> IsFan(g, b, In)
    ensures r.Failure? <==> exists b :: b in bs && Overflows(g, b)
    ensures r.Failure? ==> r.error == RangeError
    ensures r.Success? ==> |r.value| == |bs| && forall i :: 0 <= i < |bs| ==> JoinTreeOf(g, bs[i]) == Success(r.value[i])
  {
    assert forall b :: b in bs ==> (JoinTreeOf(g, b).Failure? <==> Overflows(g, b)) && (JoinTreeOf(g, b).Failure? ==> JoinTreeOf(g, b).error == RangeError) by {
      forall b | b in bs
        ensures (JoinTreeOf(g, b).Failure? <==> Overflows(g, b)) && (JoinTreeOf(g, b).Failure? ==> JoinTreeOf(g, b).error == RangeError)
      {
        JoinTreeOfMeaning(g, b);
      }
    }
    Collect(JoinResults(g, bs))
  }

  /** `dupsOut`: the duplicate trees of all output bundles, merged. */
  function DupsOut(g: GraphValue): GraphValue
  {
    FansOfAreFans(g, NodeNames(g.nodes), Out);
    MergeAll(Compact(DupTrees(g, MultipleOuts(g))))
  }

  /** `dupsIn`: the join trees of all input bundles, merged. The map throws
      a `RangeError` on a tree that does not end; the merge then throws a
      `TypeError` on an `undefined` tree. */
  function DupsIn(g: GraphValue): Result<GraphValue, Error>
  {
    FansOfAreFans(g, NodeNames(g.nodes), In);
    match JoinTrees(g, MultipleIns(g))
    case Failure(e) => Failure(e)
    case Success(parts) =>
      match MergeOrFail(parts)
      case None => Failure(TypeError)
      case Some(v) => Success(v)
  }

  /** Some input bundle's join tree, as written, does not end. */
  predicate JoinOverflows(g: GraphValue)
  {
    exists b :: b in MultipleIns(g) && Overflows(g, b)
  }

  /** Some input bundle's first edge has an empty `outPort`. */
  predicate JoinUnnamed(g: GraphValue)
  {
    exists b :: b in MultipleIns(g) && NoOutPort(b)
  }

  /** The joins throw a `RangeError` exactly when some bundle's tree does
      not end, and otherwise a `TypeError` exactly when some bundle's first
      edge has an empty `outPort`; they throw nothing else. */
  lemma DupsInFails(g: GraphValue)
    ensures DupsIn(g) == Failure(RangeError) <==> JoinOverflows(g)
    ensures DupsIn(g) == Failure(TypeError) <==> !JoinOverflows(g) && JoinUnnamed(g)
    ensures DupsIn(g).Failure? ==> DupsIn(g).error == RangeError || DupsIn(g).error == TypeError
  {
    FansOfAreFans(g, NodeNames(g.nodes), In);
    if JoinTrees(g, MultipleIns(g)).Success? {
      JoinTreesFail(g, MultipleIns(g));
    }
  }

  /** Once the map has gone through, the merge fails exactly when some
      bundle's first edge has an empty `outPort`. */
  lemma JoinTreesFail(g: GraphValue, bs: seq<seq<BundleEdge>>)
    requires forall b :: b in bs ==> IsFan(g, b, In)
    requires JoinTrees(g, bs).Success?
    ensures MergeOrFail(JoinTrees(g, bs).value).None? <==> exists b :: b in bs && NoOutPort(b)
  {
    var parts := JoinTrees(g, bs).value;
    MergeOrFailIff(parts);
    if MergeOrFail(parts).None? {
      var i :| 0 <= i < |parts| && parts[i].None?;
      assert JoinTreeOf(g, bs[i]) == Success(parts[i]);
      assert bs[i] in bs;
      JoinTreeOfMeaning(g, bs[i]);
    }
    if exists b :: b in bs && NoOutPort(b) {
      var b :| b in bs && NoOutPort(b);
      var i :| 0 <= i < |bs| && bs[i] == b;
      assert JoinTreeOf(g, bs[i]) == Success(parts[i]);
      JoinTreeOfMeaning(g, bs[i]);
    }
  }

  /** Every node the duplicate trees add is an atomic `control/duplicate`
      node, and every node the join trees add an atomic `control/join`. */
  lemma TreeNodesLabelled(g: GraphValue)
    ensures forall n :: n in DupsOut(g).nodes ==> n.value.id == "control/duplicate" && n.value.atomic
    ensures DupsIn(g).Success? ==> forall n :: n in DupsIn(g).value.nodes ==> n.value.id == "control/join" && n.value.atomic
  {
    FansOfAreFans(g, NodeNames(g.nodes), Out);
    FansOfAreFans(g, NodeNames(g.nodes), In);
    var outs := Compact(DupTrees(g, MultipleOuts(g)));
    MergeAllConcat(outs);
    forall n | n in DupsOut(g).nodes ensures n.value.id == "control/duplicate" && n.value.atomic {
      NodesOfMember(outs, n);
      var i :| 0 <= i < |outs| && n in outs[i].nodes;
      TreeLabelled(g, MultipleOuts(g), Out, outs[i], n);
    }
    if DupsIn(g).Success? {
      var ins := JoinTrees(g, MultipleIns(g)).value;
      MergeOrFailIff(ins);
      MergeAllConcat(Compact(ins));
      forall n | n in DupsIn(g).value.nodes ensures n.value.id == "control/join" && n.value.atomic {
        NodesOfMember(Compact(ins), n);
        var i :| 0 <= i < |Compact(ins)| && n in Compact(ins)[i].nodes;
        TreeLabelled(g, MultipleIns(g), In, Compact(ins)[i], n);
      }
    }
  }

  lemma TreeLabelled(g: GraphValue, bs: seq<seq<BundleEdge>>, d: Direction, t: GraphValue, n: Node)
    requires forall b :: b in bs ==> IsFan(g, b, d)
    requires d == Out ==> t in Compact(DupTrees(g, bs))
    requires d == In ==> JoinTrees(g, bs).Success? && t in Compact(JoinTrees(g, bs).value)
    requires n in t.nodes
    ensures d == Out ==> n.value.id == "control/duplicate" && n.value.atomic
    ensures d == In ==> n.value.id == "control/join" && n.value.atomic
  {
    if d == Out {
      CompactMember(DupTrees(g, bs), t);
      var i :| 0 <= i < |bs| && DupTrees(g, bs)[i] == Some(t);
      assert bs[i] in bs;
      OneTreeLabelled(g, bs[i], d, t, n);
    } else {
      CompactMember(JoinTrees(g, bs).value, t);
      var i :| 0 <= i < |bs| && JoinTrees(g, bs).value[i] == Some(t);
      assert bs[i] in bs;
      OneTreeLabelled(g, bs[i], d, t, n);
    }
  }

  lemma OneTreeLabelled(g: GraphValue, b: seq<BundleEdge>, d: Direction, t: GraphValue, n: Node)
    requires IsFan(g, b, d)
    requires d == Out ==> DupTreeOf(g, b) == Some(t)
    requires d == In ==> JoinTreeOf(g, b) == Success(Some(t))
    requires n in t.nodes
    ensures d == Out ==> n.value.id == "control/duplicate" && n.value.atomic
    ensures d == In ==> n.value.id == "control/join" && n.value.atomic
  {
    FanHasNeighbours(g, b, d);
    if d == Out {
      BuildLabels(DupTree, DupAnchor(g, b), SuccessorPorts(g.edges, b[0].edge.v, b[0].edge.outPort), 0, 0, n);
    } else {
      JoinTreeOfMeaning(g, b);
      BuildLabels(JoinTree, JoinAnchor(g, b), JoinEnds(g, b), 0, 0, n);
    }
  }

  // ----- which edges go -----

  /** The edges of the bundles, bundle by bundle. */
  function BundleEdges(bs: seq<seq<BundleEdge>>): seq<Edge>
  {
    if bs == [] then [] else Members(bs[0]) + BundleEdges(bs[1..])
  }

  function Members(b: seq<BundleEdge>): (r: seq<Edge>)
    ensures |r| == |b|
    ensures forall i :: 0 <= i < |b| ==> r[i] == b[i].edge
  {
    if b == [] then [] else [b[0].edge] + Members(b[1..])
  }

  lemma {:induction false} BundleEdgesMember(bs: seq<seq<BundleEdge>>, r: Edge)
    ensures r in BundleEdges(bs) <==> exists b: seq<BundleEdge>, i :: b in bs && 0 <= i < |b| && b[i].edge == r
  {
    if bs != [] {
      BundleEdgesMember(bs[1..], r);
      if r in Members(bs[0]) {
        var i :| 0 <= i < |bs[0]| && Members(bs[0])[i] == r;
        assert bs[0] in bs && bs[0][i].edge == r;
      }
      if exists b: seq<BundleEdge>, i :: b in bs && 0 <= i < |b| && b[i].edge == r {
        var b: seq<BundleEdge>, i :| b in bs && 0 <= i < |b| && b[i].edge == r;
        if b == bs[0] {
          assert Members(bs[0])[i] == r;
        } else {
          assert b in bs[1..];
        }
      }
    }
  }

  /** `removeEdges`: the edges of all output and all input bundles. Only
      membership is ever read from it. */
  function RemoveEdges(g: GraphValue): seq<Edge>
  {
    BundleEdges(MultipleOuts(g)) + BundleEdges(MultipleIns(g))
  }

  /** Two edges run between the same two ports. */
  predicate SameRoute(r: Edge, e: Edge)
  {
    r.v == e.v && r.w == e.w && r.outPort == e.outPort && r.inPort == e.inPort
  }

  /** `shouldRemove(e)`: some edge of `removed` runs the same route; names
      and continuation flags are not compared. */
  predicate ShouldRemove(removed: seq<Edge>, e: Edge)
  {
    exists r :: r in removed && SameRoute(r, e)
  }

  /** `_.reject(edges, shouldRemove)`. */
  function Reject(removed: seq<Edge>, edges: seq<Edge>): (r: seq<Edge>)
    ensures |r| <= |edges|
    ensures forall x :: x in r ==> x in edges
  {
    if edges == [] then []
    else (if ShouldRemove(removed, edges[0]) then [] else [edges[0]]) + Reject(removed, edges[1..])
  }

  /** The kept edges are the edges with no bundle edge on their route. */
  lemma {:induction false} RejectKeeps(removed: seq<Edge>, edges: seq<Edge>, e: Edge)
    ensures e in Reject(removed, edges) <==> e in edges && !ShouldRemove(removed, e)
  {
    if edges != [] {
      RejectKeeps(removed, edges[1..], e);
      assert edges == [edges[0]] + edges[1..];
    }
  }

  /** The kept edges keep their order: rejecting from two runs of edges is
      rejecting from each in turn. */
  lemma {:induction false} RejectKeepsOrder(removed: seq<Edge>, a: seq<Edge>, b: seq<Edge>)
    ensures Reject(removed, a + b) == Reject(removed, a) + Reject(removed, b)
  {
    if a == [] {
      assert a + b == b;
    } else {
      var head := if ShouldRemove(removed, a[0]) then [] else [a[0]];
      assert (a + b)[0] == a[0];
      assert (a + b)[1..] == a[1..] + b;
      RejectKeepsOrder(removed, a[1..], b);
      calc {
        Reject(removed, a + b);
        head + Reject(removed, a[1..] + b);
        head + (Reject(removed, a[1..]) + Reject(removed, b));
        (head + Reject(removed, a[1..])) + Reject(removed, b);
        Reject(removed, a) + Reject(removed, b);
      }
    }
  }

  /** A run of edges none of which is on a removed route is kept whole. */
  lemma {:induction false} RejectNothing(removed: seq<Edge>, a: seq<Edge>)
    requires forall i :: 0 <= i < |a| ==> !ShouldRemove(removed, a[i])
    ensures Reject(removed, a) == a
  {
    if a != [] {
      RejectNothing(removed, a[1..]);
      assert a == [a[0]] + a[1..];
    }
  }

  /** An edge of the graph's fans: it is not a continuation, and its node
      is in the graph and its port has another non-continuation edge. */
  predicate Fanned(g: GraphValue, r: Edge, d: Direction)
  {
    r in g.edges && !r.continuation
    && PortOf(r, d).node in NodeNames(g.nodes) && |FanEdges(g.edges, PortOf(r, d), d)| >= 2
  }

  lemma Bundled(g: GraphValue, r: Edge, d: Direction)
    ensures r in BundleEdges(FansOf(g, NodeNames(g.nodes), d)) <==> Fanned(g, r, d)
  {
    var bs := FansOf(g, NodeNames(g.nodes), d);
    BundleEdgesMember(bs, r);
    if r in BundleEdges(bs) {
      BundledIsFanned(g, r, d, bs);
    }
    if Fanned(g, r, d) {
      FannedIsBundled(g, r, d, bs);
    }
  }

  lemma BundledIsFanned(g: GraphValue, r: Edge, d: Direction, bs: seq<seq<BundleEdge>>)
    requires bs == FansOf(g, NodeNames(g.nodes), d)
    requires exists b: seq<BundleEdge>, i :: b in bs && 0 <= i < |b| && b[i].edge == r
    ensures Fanned(g, r, d)
  {
    var b: seq<BundleEdge>, i :| b in bs && 0 <= i < |b| && b[i].edge == r;
    FansOfAreFans(g, NodeNames(g.nodes), d);
    FanMembers(g, b, d);
    assert b[i] in b;
    assert |Tag(g, FanEdges(g.edges, PortOf(b[0].edge, d), d), d)| == |b|;
  }

  lemma FannedIsBundled(g: GraphValue, r: Edge, d: Direction, bs: seq<seq<BundleEdge>>)
    requires bs == FansOf(g, NodeNames(g.nodes), d)
    requires Fanned(g, r, d)
    ensures exists b: seq<BundleEdge>, i :: b in bs && 0 <= i < |b| && b[i].edge == r
  {
    Exact(g, PortOf(r, d), d);
    var b: seq<BundleEdge> :| b in bs && ReportsAt(b, PortOf(r, d), d);
    assert b == Tag(g, FanEdges(g.edges, PortOf(r, d), d), d);
    var i :| 0 <= i < |FanEdges(g.edges, PortOf(r, d), d)| && FanEdges(g.edges, PortOf(r, d), d)[i] == r;
    assert b[i] == TagOne(g, r, d);
  }

  /** An edge is removed exactly when the graph has an edge on the same
      route that belongs to a fan out of its source port or into its
      target port. */
  lemma RemovedExactly(g: GraphValue, e: Edge)
    ensures ShouldRemove(RemoveEdges(g), e) <==>
      exists r :: SameRoute(r, e) && (Fanned(g, r, Out) || Fanned(g, r, In))
  {
    forall r ensures r in RemoveEdges(g) <==> Fanned(g, r, Out) || Fanned(g, r, In) {
      Bundled(g, r, Out);
      Bundled(g, r, In);
    }
  }

  // ----- the splice -----

  /** What `createDupJoins` makes of the graph `edit`, with bundles and
      trees taken from `g`: the trees' nodes appended, the bundle routes
      rejected and the trees' edges appended. It throws a `RangeError` when
      some join tree as written does not end, and otherwise a `TypeError`
      when some bundle into a port starts with an edge without an output
      port. */
  function DupJoins(edit: GraphValue, g: GraphValue): (r: Result<GraphValue, Error>)
    ensures r == Failure(RangeError) <==> JoinOverflows(g)
    ensures r == Failure(TypeError) <==> !JoinOverflows(g) && JoinUnnamed(g)
    ensures r.Failure? ==> r.error == RangeError || r.error == TypeError
    ensures r.Success? ==> edit.nodes <= r.value.nodes
    ensures r.Success? ==> forall x :: x in edit.edges && !ShouldRemove(RemoveEdges(g), x) ==> x in r.value.edges
  {
    DupsInFails(g);
    match DupsIn(g)
    case Failure(e) => Failure(e)
    case Success(dupsIn) =>
      var kept := Reject(RemoveEdges(g), edit.edges);
      assert forall x :: x in edit.edges && !ShouldRemove(RemoveEdges(g), x) ==> x in kept by {
        forall x | x in edit.edges && !ShouldRemove(RemoveEdges(g), x) ensures x in kept {
          RejectKeeps(RemoveEdges(g), edit.edges, x);
        }
      }
      Success(GraphValue(edit.nodes + dupsIn.nodes + DupsOut(g).nodes, kept + dupsIn.edges + DupsOut(g).edges))
  }

  /** `createDupJoins(editGraph, graph)`: the bundles and trees come from
      `graph`, the edits go to `editGraph`. On failure `editGraph` is left
      as it was. */
  method CreateDupJoins(edit: JsonGraph, g: GraphValue) returns (r: Result<JsonGraph, Error>)
    modifies edit
    ensures DupsIn(g).Failure? ==> r == Failure(DupsIn(g).error) && edit.Value() == old(edit.Value())
    ensures DupsIn(g).Success? ==> (r == Success(edit)
      && edit.nodes == old(edit.nodes) + DupsIn(g).value.nodes + DupsOut(g).nodes
      && edit.edges == Reject(RemoveEdges(g), old(edit.edges)) + DupsIn(g).value.edges + DupsOut(g).edges)
    ensures r.Success? <==> DupJoins(old(edit.Value()), g).Success?
    ensures r.Failure? ==> DupJoins(old(edit.Value()), g) == Failure(r.error)
    ensures r.Success? ==> DupJoins(old(edit.Value()), g).value == edit.Value()
  {
    var dupsOut := DupsOut(g);
    var dupsIn := DupsIn(g);
    if dupsIn.Failure? {
      return Failure(dupsIn.error);
    }
    var oldEdges := Reject(RemoveEdges(g), edit.edges);
    edit.nodes := edit.nodes + dupsIn.value.nodes + dupsOut.nodes;
    edit.edges := oldEdges + dupsIn.value.edges + dupsOut.edges;
    return Success(edit);
  }

  // ----- what the splice achieves for one output port -----

  lemma DupJoinsValue(edit: GraphValue, g: GraphValue)
    requires DupJoins(edit, g).Success?
    ensures DupsIn(g).Success?
    ensures DupJoins(edit, g).value == GraphValue(edit.nodes + DupsIn(g).value.nodes + DupsOut(g).nodes,
      Reject(RemoveEdges(g), edit.edges) + DupsIn(g).value.edges + DupsOut(g).edges)
  {
  }

  lemma {:induction false} EdgesOfMember(parts: seq<GraphValue>, x: Edge)
    requires x in EdgesOf(parts)
    ensures exists i :: 0 <= i < |parts| && x in parts[i].edges
  {
    if x !in parts[0].edges {
      EdgesOfMember(parts[1..], x);
      var i :| 0 <= i < |parts[1..]| && x in parts[1..][i].edges;
      assert x in parts[i + 1].edges;
    }
  }

  /** Every part's nodes and edges are among those of all parts. */
  lemma {:induction false} OfHas(parts: seq<GraphValue>, i: nat)
    requires i < |parts|
    ensures forall n :: n in parts[i].nodes ==> n in NodesOf(parts)
    ensures forall x :: x in parts[i].edges ==> x in EdgesOf(parts)
  {
    if i > 0 {
      OfHas(parts[1..], i - 1);
    }
  }

  lemma {:induction false} CompactHas(parts: seq<Option<GraphValue>>, t: GraphValue)
    requires Some(t) in parts
    ensures t in Compact(parts)
  {
    if parts[0] != Some(t) {
      CompactHas(parts[1..], t);
    }
  }

  /** No node the splice makes is named `name`. */
  predicate Unsynthesized(g: GraphValue, name: string)
  {
    && (forall n :: n in DupsOut(g).nodes ==> n.v != name)
    && (DupsIn(g).Success? ==> forall n :: n in DupsIn(g).value.nodes ==> n.v != name)
  }

  /** `at` is a producer of no port an input bundle gathers. */
  predicate FeedsNoJoin(g: GraphValue, at: Endpoint)
  {
    forall c :: c in MultipleIns(g) && c != [] ==> at !in JoinEnds(g, c)
  }

  /** The edge from an output bundle's port into the `in` port of the root
      of its duplicate tree. */
  function DupRoot(g: GraphValue, b: seq<BundleEdge>): Edge
    requires IsFan(g, b, Out)
  {
    FanHasNeighbours(g, b, Out);
    Wire(Source(b[0].edge),
      Endpoint(TreeName(DupTree, DupAnchor(g, b), 0, |SuccessorPorts(g.edges, b[0].edge.v, b[0].edge.outPort)| - 1), "in"))
  }

  /** The edges leaving a bundle's port are all on the bundle's routes, so
      none of them is kept. */
  lemma KeptLeaveNone(g: GraphValue, b: seq<BundleEdge>)
    requires IsFan(g, b, Out)
    ensures forall x :: x in Reject(RemoveEdges(g), g.edges) ==> Source(x) != Source(b[0].edge) || x.continuation
  {
    var at := Source(b[0].edge);
    assert |FanEdges(g.edges, at, Out)| >= 2;
    forall x | x in Reject(RemoveEdges(g), g.edges) ensures Source(x) != at || x.continuation {
      RejectKeeps(RemoveEdges(g), g.edges, x);
      Bundled(g, x, Out);
      assert SameRoute(x, x);
    }
  }

  /** Every edge of a join tree leaves one of the port's producers or a
      node of the tree. */
  lemma JoinTreeSource(g: GraphValue, c: seq<BundleEdge>, t: GraphValue, x: Edge)
    requires IsFan(g, c, In) && JoinTreeOf(g, c) == Success(Some(t)) && x in t.edges
    ensures Source(x) in JoinEnds(g, c) || exists n :: n in t.nodes && n.v == Source(x).node
  {
    JoinTreeOfMeaning(g, c);
    JoinsSources(JoinAnchor(g, c), JoinEnds(g, c), x);
  }

  /** No join tree has an edge leaving `at` when `at` feeds no joined port
      and no join node is named like `at`'s node. */
  lemma JoinsLeaveNone(g: GraphValue, at: Endpoint)
    requires DupsIn(g).Success? && FeedsNoJoin(g, at)
    requires forall n :: n in DupsIn(g).value.nodes ==> n.v != at.node
    ensures forall x :: x in DupsIn(g).value.edges ==> Source(x) != at
  {
    FansOfAreFans(g, NodeNames(g.nodes), In);
    var bs := MultipleIns(g);
    var parts := JoinTrees(g, bs).value;
    MergeOrFailIff(parts);
    var ts := Compact(parts);
    MergeAllConcat(ts);
    forall x | x in DupsIn(g).value.edges ensures Source(x) != at {
      EdgesOfMember(ts, x);
      var i :| 0 <= i < |ts| && x in ts[i].edges;
      OfHas(ts, i);
      CompactMember(parts, ts[i]);
      var j :| 0 <= j < |bs| && parts[j] == Some(ts[i]);
      assert bs[j] in bs;
      JoinTreeSource(g, bs[j], ts[i], x);
    }
  }

  /** Every edge of a duplicate tree leaves the bundle's port or a node of
      the tree. */
  lemma DupTreeSource(g: GraphValue, c: seq<BundleEdge>, t: GraphValue, x: Edge)
    requires IsFan(g, c, Out) && DupTreeOf(g, c) == Some(t) && x in t.edges
    ensures Source(x) == Source(c[0].edge) || exists n :: n in t.nodes && n.v == Source(x).node
  {
    FanHasNeighbours(g, c, Out);
    var ends := SuccessorPorts(g.edges, c[0].edge.v, c[0].edge.outPort);
    assert t == CreateDuplicates(DupAnchor(g, c), ends, 0, 0);
    DuplicatesSources(DupAnchor(g, c), ends, x);
  }

  /** When no node of a duplicate tree is named like the bundle's node, one
      edge of the tree leaves the bundle's port. */
  lemma DupTreeRootOnce(g: GraphValue, c: seq<BundleEdge>, t: GraphValue)
    requires IsFan(g, c, Out) && DupTreeOf(g, c) == Some(t)
    requires forall n :: n in t.nodes ==> n.v != c[0].edge.v
    ensures Count(UpEnds(DupTree, t.edges), Source(c[0].edge)) == 1
  {
    FanHasNeighbours(g, c, Out);
    var ends := SuccessorPorts(g.edges, c[0].edge.v, c[0].edge.outPort);
    assert t == CreateDuplicates(DupAnchor(g, c), ends, 0, 0);
    DuplicatesAnchorOnce(DupAnchor(g, c), ends);
  }

  /** Two output bundles at the same port are the same bundle. */
  lemma SamePortSameBundle(g: GraphValue, b: seq<BundleEdge>, c: seq<BundleEdge>)
    requires IsFan(g, b, Out) && IsFan(g, c, Out) && Source(b[0].edge) == Source(c[0].edge)
    ensures b == c
  {
  }

  /** An edge of the merged trees comes from one of the trees. */
  lemma MergedEdgeFrom(parts: seq<Option<GraphValue>>, x: Edge)
    requires x in MergeAll(Compact(parts)).edges
    ensures exists t :: Some(t) in parts && x in t.edges
  {
    var ts := Compact(parts);
    MergeAllConcat(ts);
    EdgesOfMember(ts, x);
    var i :| 0 <= i < |ts| && x in ts[i].edges;
    CompactMember(parts, ts[i]);
  }

  /** The nodes and edges of every tree are among the merged ones. */
  lemma MergedHas(parts: seq<Option<GraphValue>>, t: GraphValue)
    requires Some(t) in parts
    ensures forall n :: n in t.nodes ==> n in MergeAll(Compact(parts)).nodes
    ensures forall x :: x in t.edges ==> x in MergeAll(Compact(parts)).edges
  {
    var ts := Compact(parts);
    MergeAllConcat(ts);
    CompactHas(parts, t);
    var i :| 0 <= i < |ts| && ts[i] == t;
    OfHas(ts, i);
  }

  /** A duplicate tree built for a named port is the whole tree over the
      port's successors. */
  lemma DupTreeWhole(g: GraphValue, b: seq<BundleEdge>)
    requires IsFan(g, b, Out) && b[0].edge.outPort != ""
    ensures |SuccessorPorts(g.edges, b[0].edge.v, b[0].edge.outPort)| >= 2
    ensures DupTreeOf(g, b) == Some(CreateDuplicates(DupAnchor(g, b), SuccessorPorts(g.edges, b[0].edge.v, b[0].edge.outPort), 0, 0))
  {
    FanHasNeighbours(g, b, Out);
  }

  lemma DupRootWire(g: GraphValue, b: seq<BundleEdge>)
    requires IsFan(g, b, Out)
    ensures |SuccessorPorts(g.edges, b[0].edge.v, b[0].edge.outPort)| >= 2
    ensures DupRoot(g, b) == Wire(AnchorEnd(DupAnchor(g, b)),
      Endpoint(TreeName(DupTree, DupAnchor(g, b), 0, |SuccessorPorts(g.edges, b[0].edge.v, b[0].edge.outPort)| - 1), "in"))
  {
    FanHasNeighbours(g, b, Out);
  }

  /** The edge into the root of a duplicate tree. */
  lemma DupRootInTree(g: GraphValue, b: seq<BundleEdge>)
    requires IsFan(g, b, Out) && b[0].edge.outPort != ""
    ensures DupTreeOf(g, b).Some? && DupRoot(g, b) in DupTreeOf(g, b).value.edges
  {
    DupTreeWhole(g, b);
    DupRootWire(g, b);
    DuplicatesRoot(DupAnchor(g, b), SuccessorPorts(g.edges, b[0].edge.v, b[0].edge.outPort));
  }

  /** The bundle `b`'s duplicate tree is among the merged duplicate trees. */
  lemma DupTreeMerged(g: GraphValue, b: seq<BundleEdge>)
    requires b in MultipleOuts(g) && IsFan(g, b, Out) && b[0].edge.outPort != ""
    ensures DupTreeOf(g, b).Some?
    ensures forall n :: n in DupTreeOf(g, b).value.nodes ==> n in DupsOut(g).nodes
    ensures forall x :: x in DupTreeOf(g, b).value.edges ==> x in DupsOut(g).edges
  {
    FansOfAreFans(g, NodeNames(g.nodes), Out);
    var bs := MultipleOuts(g);
    var parts := DupTrees(g, bs);
    var k :| 0 <= k < |bs| && bs[k] == b;
    assert parts[k] == DupTreeOf(g, b);
    MergedHas(parts, DupTreeOf(g, b).value);
  }

  /** Every merged duplicate tree is the tree of one output bundle. */
  lemma DupTreeOwner(g: GraphValue, t: GraphValue)
    requires forall b :: b in MultipleOuts(g) ==> IsFan(g, b, Out)
    requires Some(t) in DupTrees(g, MultipleOuts(g))
    ensures exists c :: c in MultipleOuts(g) && IsFan(g, c, Out) && DupTreeOf(g, c) == Some(t)
  {
    var bs := MultipleOuts(g);
    var j :| 0 <= j < |bs| && DupTrees(g, bs)[j] == Some(t);
    assert bs[j] in bs;
  }

  /** An edge of the merged duplicate trees lies in the tree of one output
      bundle. */
  lemma DupEdgeFrom(g: GraphValue, x: Edge)
    requires x in DupsOut(g).edges
    ensures exists c :: c in MultipleOuts(g) && IsFan(g, c, Out) && DupTreeOf(g, c).Some? && x in DupTreeOf(g, c).value.edges
  {
    FansOfAreFans(g, NodeNames(g.nodes), Out);
    var parts := DupTrees(g, MultipleOuts(g));
    MergedEdgeFrom(parts, x);
    var t :| Some(t) in parts && x in t.edges;
    DupTreeOwner(g, t);
  }

  /** An edge of the duplicate trees leaving the port of the output bundle
      `b` lies in `b`'s own tree. */
  lemma DupEdgeOwnTree(g: GraphValue, b: seq<BundleEdge>, x: Edge)
    requires IsFan(g, b, Out)
    requires x in DupsOut(g).edges && Source(x) == Source(b[0].edge)
    requires forall n :: n in DupsOut(g).nodes ==> n.v != b[0].edge.v
    ensures DupTreeOf(g, b).Some? && x in DupTreeOf(g, b).value.edges
  {
    DupEdgeFrom(g, x);
    var c :| c in MultipleOuts(g) && IsFan(g, c, Out) && DupTreeOf(g, c).Some? && x in DupTreeOf(g, c).value.edges;
    DupTreeMerged(g, c);
    DupTreeSource(g, c, DupTreeOf(g, c).value, x);
    SamePortSameBundle(g, b, c);
  }

  /** Among the duplicate trees, the only edge leaving the port of the
      output bundle `b` is the one into the root of `b`'s own tree. */
  lemma DupsLeaveRoot(g: GraphValue, b: seq<BundleEdge>)
    requires b in MultipleOuts(g) && IsFan(g, b, Out) && b[0].edge.outPort != ""
    requires forall n :: n in DupsOut(g).nodes ==> n.v != b[0].edge.v
    ensures DupRoot(g, b) in DupsOut(g).edges
    ensures forall x :: x in DupsOut(g).edges && Source(x) == Source(b[0].edge) ==> x == DupRoot(g, b)
  {
    DupRootInTree(g, b);
    DupTreeMerged(g, b);
    var tb := DupTreeOf(g, b).value;
    DupTreeRootOnce(g, b, tb);
    forall x | x in DupsOut(g).edges && Source(x) == Source(b[0].edge) ensures x == DupRoot(g, b) {
      DupEdgeOwnTree(g, b, x);
      UpEndOnce(DupTree, tb.edges, x, DupRoot(g, b));
    }
  }

  /** The splice leaves the port of an output bundle with a named port
      exactly one non-continuation edge, the one into the root of its
      duplicate tree, provided the port feeds no port that an input bundle
      gathers and no node the splice makes takes the port's node name. */
  lemma FanRemoved(g: GraphValue, b: seq<BundleEdge>)
    requires b in MultipleOuts(g) && b != [] && b[0].edge.outPort != ""
    requires DupJoins(g, g).Success?
    requires FeedsNoJoin(g, Source(b[0].edge)) && Unsynthesized(g, b[0].edge.v)
    ensures IsFan(g, b, Out)
    ensures forall x :: x in FanEdges(DupJoins(g, g).value.edges, Source(b[0].edge), Out) <==> x == DupRoot(g, b)
  {
    FansOfAreFans(g, NodeNames(g.nodes), Out);
    var at := Source(b[0].edge);
    DupJoinsValue(g, g);
    var kept := Reject(RemoveEdges(g), g.edges);
    var es := DupJoins(g, g).value.edges;
    assert es == kept + DupsIn(g).value.edges + DupsOut(g).edges;
    KeptLeaveNone(g, b);
    JoinsLeaveNone(g, at);
    DupsLeaveRoot(g, b);
    assert DupRoot(g, b).continuation == false;
    forall x ensures x in FanEdges(es, at, Out) <==> x == DupRoot(g, b) {
      if x in es && Source(x) == at && !x.continuation {
        assert x !in kept && x !in DupsIn(g).value.edges;
      }
    }
  }

  /** The graph the next pass reads back from the splice reports no output
      bundle at the port of `b`, under the hypotheses of `FanRemoved`. */
  lemma FanGone(g: GraphValue, b: seq<BundleEdge>)
    requires b in MultipleOuts(g) && b != [] && b[0].edge.outPort != ""
    requires DupJoins(g, g).Success?
    requires FeedsNoJoin(g, Source(b[0].edge)) && Unsynthesized(g, b[0].edge.v)
    ensures forall c :: c in MultipleOuts(ImportJSON(DupJoins(g, g).value)) ==> !ReportsAt(c, Source(b[0].edge), Out)
  {
    var at := Source(b[0].edge);
    var es := DupJoins(g, g).value.edges;
    var h := ImportJSON(DupJoins(g, g).value);
    FanRemoved(g, b);
    ImportEdgesFrom(es);
    ImportEdgesUnique(es);
    var root := DupRoot(g, b);
    forall e | e in FanEdges(h.edges, at, Out) ensures e == root {
      assert e in es;
      assert e in FanEdges(es, at, Out);
    }
    FanEdgesOnce(h.edges, at, Out, root);
    MultipleOutsExact(h, at);
  }

  /** With the join stage through, every input bundle's join tree is built
      and its edges are among those the join trees add. */
  lemma JoinTreeMerged(g: GraphValue, c: seq<BundleEdge>)
    requires c in MultipleIns(g) && IsFan(g, c, In) && DupsIn(g).Success?
    ensures JoinTreeOf(g, c).Success? && JoinTreeOf(g, c).value.Some?
    ensures forall x :: x in JoinTreeOf(g, c).value.value.edges ==> x in DupsIn(g).value.edges
  {
    FansOfAreFans(g, NodeNames(g.nodes), In);
    var bs := MultipleIns(g);
    var parts := JoinTrees(g, bs).value;
    MergeOrFailIff(parts);
    var j :| 0 <= j < |bs| && bs[j] == c;
    assert JoinTreeOf(g, c) == Success(parts[j]);
    assert parts[j] in parts;
    MergedHas(parts, parts[j].value);
  }

  /** A port that both fans out and feeds a port an input bundle gathers
      keeps, after the splice, a plain edge into the join tree: the edge in
      both bundles is replaced from both sides, so the port is left with
      that edge as well as the one into its duplicate tree. */
  lemma CrossingKeepsJoinEdge(g: GraphValue, c: seq<BundleEdge>, at: Endpoint)
    requires c in MultipleIns(g) && c != [] && at in JoinEnds(g, c)
    requires DupJoins(g, g).Success?
    ensures DupsIn(g).Success?
    ensures exists x :: x in DupsIn(g).value.edges && x in FanEdges(DupJoins(g, g).value.edges, at, Out)
  {
    FansOfAreFans(g, NodeNames(g.nodes), In);
    DupJoinsValue(g, g);
    JoinTreeMerged(g, c);
    JoinTreeOfMeaning(g, c);
    JoinsFeed(JoinAnchor(g, c), JoinEnds(g, c), at);
    var x :| x in JoinTreeOf(g, c).value.value.edges && Source(x) == at && !x.continuation;
    assert x in DupJoins(g, g).value.edges;
  }
}
