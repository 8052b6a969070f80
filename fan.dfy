/** Fan detection: `multipleOuts` and `multipleIns` (src/api.js:11-39).
    For every node, its non-continuation out-edges (in-edges) are grouped by
    the key `node + port`, and every group of two or more edges is a fan
    bundle. The two functions differ only in which end of an edge they look
    at, so both are one definition here, parametrised by a `Direction`. */
module Fan {
  import opened Strings
  import opened PortGraph

  datatype Direction = Out | In

  /** An element of a bundle: the edge, its grouping key (`id`) and the type
      of the port the bundle shares (`type`). */
  datatype BundleEdge = BundleEdge(edge: Edge, key: string, ptype: PortType)

  /** The end of `e` that a bundle in direction `d` shares. */
  function PortOf(e: Edge, d: Direction): Endpoint
  {
    if d == Out then Source(e) else Target(e)
  }

  /** `graph.outEdges(n)` / `graph.inEdges(n)`, in edge order. */
  function Incident(edges: seq<Edge>, n: string, d: Direction): (r: seq<Edge>)
    ensures forall e :: e in r <==> e in edges && PortOf(e, d).node == n
  {
    if edges == [] then []
    else (if PortOf(edges[0], d).node == n then [edges[0]] else []) + Incident(edges[1..], n, d)
  }

  /** `.reject((e) => e.value.continuation)`. */
  function DropContinuations(es: seq<Edge>): (r: seq<Edge>)
    ensures forall e :: e in r <==> e in es && !e.continuation
  {
    if es == [] then []
    else (if es[0].continuation then [] else [es[0]]) + DropContinuations(es[1..])
  }

  /** The grouping key `e.v + e.value.outPort` (or `e.w + e.value.inPort`):
      a plain concatenation with no separator. */
  function GroupKey(e: Edge, d: Direction): string
  {
    PortOf(e, d).node + PortOf(e, d).port
  }

  function TagOne(g: GraphValue, e: Edge, d: Direction): BundleEdge
  {
    BundleEdge(e, GroupKey(e, d), PortTypeOf(g, PortOf(e, d).node, PortOf(e, d).port))
  }

  /** `.map((e) => _.merge({}, e, {id: ..., type: utils.portType(...)}))`. */
  function Tag(g: GraphValue, es: seq<Edge>, d: Direction): (r: seq<BundleEdge>)
    ensures |r| == |es|
    ensures forall i :: 0 <= i < |es| ==> r[i] == TagOne(g, es[i], d)
  {
    if es == [] then [] else [TagOne(g, es[0], d)] + Tag(g, es[1..], d)
  }

  /** The reference definition of a fan: the non-continuation edges at port
      `at`, in edge order. */
  function FanEdges(edges: seq<Edge>, at: Endpoint, d: Direction): (r: seq<Edge>)
    ensures forall e :: e in r <==> e in edges && PortOf(e, d) == at && !e.continuation
  {
    if edges == [] then []
    else (if PortOf(edges[0], d) == at && !edges[0].continuation then [edges[0]] else []) + FanEdges(edges[1..], at, d)
  }

  /** A port whose fan edges could only be an edge not in the list has none. */
  lemma {:induction false} FanEdgesNone(edges: seq<Edge>, at: Endpoint, d: Direction, r: Edge)
    requires r !in edges
    requires forall e :: e in FanEdges(edges, at, d) ==> e == r
    ensures FanEdges(edges, at, d) == []
  {
    if edges != [] {
      assert edges[0] in edges;
      forall e | e in FanEdges(edges[1..], at, d) ensures e == r {
        assert e in FanEdges(edges, at, d);
      }
      FanEdgesNone(edges[1..], at, d, r);
    }
  }

  /** Under unique edge keys, a port whose fan edges are all one edge has at
      most one fan edge. */
  lemma {:induction false} FanEdgesOnce(edges: seq<Edge>, at: Endpoint, d: Direction, r: Edge)
    requires UniqueKeys(edges)
    requires forall e :: e in FanEdges(edges, at, d) ==> e == r
    ensures |FanEdges(edges, at, d)| <= 1
  {
    if edges != [] {
      assert UniqueKeys(edges[1..]) by {
        forall i, j | 0 <= i < j < |edges[1..]| ensures Key(edges[1..][i]) != Key(edges[1..][j]) {
          assert Key(edges[i + 1]) != Key(edges[j + 1]);
        }
      }
      var rest := FanEdges(edges[1..], at, d);
      assert FanEdges(edges, at, d) == (if PortOf(edges[0], d) == at && !edges[0].continuation then [edges[0]] else []) + rest;
      if PortOf(edges[0], d) == at && !edges[0].continuation {
        assert edges[0] !in edges[1..] by {
          forall j | 0 <= j < |edges[1..]| ensures edges[1..][j] != edges[0] {
            assert Key(edges[0]) != Key(edges[j + 1]);
          }
        }
        assert edges[0] in FanEdges(edges, at, d);
        forall e | e in rest ensures e == r {
          assert e in FanEdges(edges, at, d);
        }
        FanEdgesNone(edges[1..], at, d, r);
      } else {
        forall e | e in rest ensures e == r {
          assert e in FanEdges(edges, at, d);
        }
        FanEdgesOnce(edges[1..], at, d, r);
      }
    }
  }

  // ----- lodash's groupBy -----

  function WithKey(xs: seq<BundleEdge>, k: string): (r: seq<BundleEdge>)
    ensures |r| <= |xs|
    ensures forall x :: x in r <==> x in xs && x.key == k
  {
    if xs == [] then []
    else (if xs[0].key == k then [xs[0]] else []) + WithKey(xs[1..], k)
  }

  function WithoutKey(xs: seq<BundleEdge>, k: string): (r: seq<BundleEdge>)
    ensures |r| <= |xs|
    ensures forall x :: x in r <==> x in xs && x.key != k
  {
    if xs == [] then []
    else (if xs[0].key == k then [] else [xs[0]]) + WithoutKey(xs[1..], k)
  }

  /** `_.groupBy(xs, 'id')` read back as a list: one group per key, in the
      order keys first occur, each group in list order. (JavaScript would
      list integer-like keys first; that order is not modelled.) */
  function GroupByKey(xs: seq<BundleEdge>): seq<seq<BundleEdge>>
    decreases |xs|
  {
    if xs == [] then []
    else [WithKey(xs, xs[0].key)] + GroupByKey(WithoutKey(xs[1..], xs[0].key))
  }

  /** `.filter((n) => n.length > 1)`. */
  function Fans(groups: seq<seq<BundleEdge>>): (r: seq<seq<BundleEdge>>)
    ensures forall b: seq<BundleEdge> :: b in r <==> b in groups && |b| > 1
  {
    if groups == [] then []
    else (if |groups[0]| > 1 then [groups[0]] else []) + Fans(groups[1..])
  }

  /** The bundles of node `n`. */
  function NodeFans(g: GraphValue, n: string, d: Direction): seq<seq<BundleEdge>>
  {
    Fans(GroupByKey(Tag(g, DropContinuations(Incident(g.edges, n, d)), d)))
  }

  /** The per-node bundle lists of `names`, flattened. */
  function FansOf(g: GraphValue, names: seq<string>, d: Direction): seq<seq<BundleEdge>>
  {
    if names == [] then [] else NodeFans(g, names[0], d) + FansOf(g, names[1..], d)
  }

  /** `multipleOuts(graph)`. */
  function MultipleOuts(g: GraphValue): seq<seq<BundleEdge>>
  {
    FansOf(g, NodeNames(g.nodes), Out)
  }

  /** `multipleIns(graph)`. */
  function MultipleIns(g: GraphValue): seq<seq<BundleEdge>>
  {
    FansOf(g, NodeNames(g.nodes), In)
  }

  /** What a reported bundle is: the whole fan of one port of a node of the
      graph, at least two edges, tagged with the shared key and port type. */
  predicate IsFan(g: GraphValue, b: seq<BundleEdge>, d: Direction)
  {
    |b| >= 2
    && PortOf(b[0].edge, d).node in NodeNames(g.nodes)
    && b == Tag(g, FanEdges(g.edges, PortOf(b[0].edge, d), d), d)
  }

  /** `b` is the bundle of port `at`. */
  predicate ReportsAt(b: seq<BundleEdge>, at: Endpoint, d: Direction)
  {
    b != [] && PortOf(b[0].edge, d) == at
  }

  // ----- proofs -----

  lemma {:induction false} WithKeyOfWithout(xs: seq<BundleEdge>, k0: string, k: string)
    requires k != k0
    ensures WithKey(WithoutKey(xs, k0), k) == WithKey(xs, k)
  {
    if xs != [] {
      var x := xs[0];
      var rest := WithoutKey(xs[1..], k0);
      WithKeyOfWithout(xs[1..], k0, k);
      if x.key != k0 {
        assert WithoutKey(xs, k0) == [x] + rest;
        assert ([x] + rest)[1..] == rest;
        assert WithKey([x] + rest, k) == (if x.key == k then [x] else []) + WithKey(rest, k);
      } else {
        assert WithoutKey(xs, k0) == rest;
        assert WithKey(xs, k) == WithKey(xs[1..], k);
      }
    }
  }

  /** Every group is the whole of its key's members, and every member's key has a group. */
  lemma GroupByKeyGroups(xs: seq<BundleEdge>)
    ensures forall G: seq<BundleEdge> :: G in GroupByKey(xs) ==> G != [] && G == WithKey(xs, G[0].key)
    ensures forall x :: x in xs ==> exists G: seq<BundleEdge> :: G in GroupByKey(xs) && G != [] && G[0].key == x.key
  {
    GroupsAreWhole(xs);
    GroupsCoverKeys(xs);
  }

  /** `G` is the whole of the members of `xs` with its first member's key. */
  predicate Whole(xs: seq<BundleEdge>, G: seq<BundleEdge>)
  {
    G != [] && G == WithKey(xs, G[0].key)
  }

  lemma {:induction false} GroupsAreWhole(xs: seq<BundleEdge>)
    ensures forall G: seq<BundleEdge> :: G in GroupByKey(xs) ==> Whole(xs, G)
    decreases |xs|
  {
    if xs != [] {
      var rest := WithoutKey(xs[1..], xs[0].key);
      GroupsAreWhole(rest);
      assert WithKey(xs, xs[0].key)[0] == xs[0];
      forall G: seq<BundleEdge> | G in GroupByKey(rest) ensures Whole(xs, G) {
        RestGroupWhole(xs, G);
      }
    }
  }

  /** A group of the members left after the first key is whole in `xs`. */
  lemma RestGroupWhole(xs: seq<BundleEdge>, G: seq<BundleEdge>)
    requires xs != [] && Whole(WithoutKey(xs[1..], xs[0].key), G)
    ensures Whole(xs, G)
  {
    assert G[0] in G;
    WithKeyOfWithout(xs[1..], xs[0].key, G[0].key);
    assert xs == [xs[0]] + xs[1..];
  }

  lemma {:induction false} GroupsCoverKeys(xs: seq<BundleEdge>)
    ensures forall x :: x in xs ==> exists G: seq<BundleEdge> :: G in GroupByKey(xs) && G != [] && G[0].key == x.key
    decreases |xs|
  {
    if xs != [] {
      var k0 := xs[0].key;
      var rest := WithoutKey(xs[1..], k0);
      GroupsCoverKeys(rest);
      var first := WithKey(xs, k0);
      assert first[0] == xs[0];
      forall x | x in xs ensures exists G: seq<BundleEdge> :: G in GroupByKey(xs) && G != [] && G[0].key == x.key {
        if x.key == k0 {
          assert first in GroupByKey(xs);
        } else {
          assert x in rest;
          var G: seq<BundleEdge> :| G in GroupByKey(rest) && G != [] && G[0].key == x.key;
          assert G in GroupByKey(xs);
        }
      }
    }
  }

  /** Within one node the unseparated key is harmless: the node name is a
      common prefix, so equal keys mean equal ports. */
  lemma {:induction false} KeyWithinNode(g: GraphValue, es: seq<Edge>, at: Endpoint, d: Direction)
    requires forall e :: e in es ==> PortOf(e, d).node == at.node && !e.continuation
    ensures WithKey(Tag(g, es, d), at.node + at.port) == Tag(g, FanEdges(es, at, d), d)
  {
    if es != [] {
      var e := es[0];
      var x := TagOne(g, e, d);
      var rest := Tag(g, es[1..], d);
      KeyWithinNode(g, es[1..], at, d);
      assert Tag(g, es, d) == [x] + rest;
      assert ([x] + rest)[1..] == rest;
      if GroupKey(e, d) == at.node + at.port {
        CancelPrefix(at.node, PortOf(e, d).port, at.port);
        assert FanEdges(es, at, d) == [e] + FanEdges(es[1..], at, d);
        assert ([e] + FanEdges(es[1..], at, d))[1..] == FanEdges(es[1..], at, d);
      } else {
        assert FanEdges(es, at, d) == FanEdges(es[1..], at, d);
      }
    }
  }

  lemma {:induction false} FanEdgesOfIncident(edges: seq<Edge>, at: Endpoint, d: Direction)
    ensures FanEdges(DropContinuations(Incident(edges, at.node, d)), at, d) == FanEdges(edges, at, d)
  {
    if edges != [] {
      var e := edges[0];
      var I := Incident(edges[1..], at.node, d);
      var D := DropContinuations(I);
      FanEdgesOfIncident(edges[1..], at, d);
      assert FanEdges(D, at, d) == FanEdges(edges[1..], at, d);
      if PortOf(e, d).node == at.node {
        assert Incident(edges, at.node, d) == [e] + I;
        if !e.continuation {
          assert DropContinuations([e] + I) == [e] + D by {
            assert ([e] + I)[1..] == I;
          }
          assert FanEdges([e] + D, at, d) == (if PortOf(e, d) == at then [e] else []) + FanEdges(D, at, d) by {
            assert ([e] + D)[1..] == D;
          }
        } else {
          assert DropContinuations([e] + I) == D by {
            assert ([e] + I)[1..] == I;
          }
        }
      } else {
        assert Incident(edges, at.node, d) == I;
      }
    }
  }

  lemma NodeFansAreFans(g: GraphValue, n: string, d: Direction)
    requires n in NodeNames(g.nodes)
    ensures forall b: seq<BundleEdge> :: b in NodeFans(g, n, d) ==> IsFan(g, b, d) && PortOf(b[0].edge, d).node == n
  {
    var es := DropContinuations(Incident(g.edges, n, d));
    var xs := Tag(g, es, d);
    GroupByKeyGroups(xs);
    forall b: seq<BundleEdge> | b in NodeFans(g, n, d) ensures IsFan(g, b, d) && PortOf(b[0].edge, d).node == n {
      OneNodeFan(g, n, d, es, xs, b);
    }
  }

  lemma OneNodeFan(g: GraphValue, n: string, d: Direction, es: seq<Edge>, xs: seq<BundleEdge>, b: seq<BundleEdge>)
    requires n in NodeNames(g.nodes)
    requires es == DropContinuations(Incident(g.edges, n, d)) && xs == Tag(g, es, d)
    requires b in GroupByKey(xs) && |b| > 1
    requires b == WithKey(xs, b[0].key)
    ensures IsFan(g, b, d) && PortOf(b[0].edge, d).node == n
  {
    assert b[0] in xs by { assert b[0] in b; }
    var k :| 0 <= k < |xs| && xs[k] == b[0];
    assert es[k] == b[0].edge;
    assert es[k] in es;
    var at := PortOf(b[0].edge, d);
    assert at.node == n;
    assert b[0].key == at.node + at.port;
    KeyWithinNode(g, es, at, d);
    FanEdgesOfIncident(g.edges, at, d);
  }

  lemma FansOfAreFans(g: GraphValue, names: seq<string>, d: Direction)
    requires forall i :: 0 <= i < |names| ==> names[i] in NodeNames(g.nodes)
    ensures forall b: seq<BundleEdge> :: b in FansOf(g, names, d) ==> IsFan(g, b, d) && PortOf(b[0].edge, d).node in names
  {
    if names != [] {
      NodeFansAreFans(g, names[0], d);
      FansOfAreFans(g, names[1..], d);
    }
  }

  /** A port whose node is `n` and that has two or more non-continuation
      edges is reported by `n`'s own grouping. */
  lemma NodeFansComplete(g: GraphValue, at: Endpoint, d: Direction)
    requires |FanEdges(g.edges, at, d)| >= 2
    ensures exists b: seq<BundleEdge> :: b in NodeFans(g, at.node, d) && ReportsAt(b, at, d)
  {
    var es := DropContinuations(Incident(g.edges, at.node, d));
    var xs := Tag(g, es, d);
    FanEdgesOfIncident(g.edges, at, d);
    var fan := FanEdges(es, at, d);
    assert fan[0] in es;
    var k :| 0 <= k < |es| && es[k] == fan[0];
    assert xs[k] in xs;
    GroupByKeyGroups(xs);
    var G: seq<BundleEdge> :| G in GroupByKey(xs) && G[0].key == xs[k].key;
    assert forall e :: e in es ==> PortOf(e, d).node == at.node && !e.continuation;
    KeyWithinNode(g, es, at, d);
    assert G == Tag(g, fan, d);
    assert G in NodeFans(g, at.node, d);
  }

  lemma FansOfComplete(g: GraphValue, names: seq<string>, at: Endpoint, d: Direction)
    requires at.node in names && |FanEdges(g.edges, at, d)| >= 2
    ensures exists b: seq<BundleEdge> :: b in FansOf(g, names, d) && ReportsAt(b, at, d)
  {
    if names[0] == at.node {
      NodeFansComplete(g, at, d);
      var b: seq<BundleEdge> :| b in NodeFans(g, at.node, d) && ReportsAt(b, at, d);
      assert b in FansOf(g, names, d);
    } else {
      FansOfComplete(g, names[1..], at, d);
      var b: seq<BundleEdge> :| b in FansOf(g, names[1..], d) && ReportsAt(b, at, d);
      assert b in FansOf(g, names, d);
    }
  }

  /** Every group of `multipleOuts` (`multipleIns`) is the complete fan of
      one port of one node: at least two edges, none a continuation, all
      sharing the key, in edge order. A port is reported exactly when its node
      is in the graph and it has two or more non-continuation edges. */
  lemma MultipleOutsExact(g: GraphValue, at: Endpoint)
    ensures forall b: seq<BundleEdge> :: b in MultipleOuts(g) ==> IsFan(g, b, Out)
    ensures (exists b: seq<BundleEdge> :: b in MultipleOuts(g) && ReportsAt(b, at, Out))
        <==> at.node in NodeNames(g.nodes) && |FanEdges(g.edges, at, Out)| >= 2
  {
    Exact(g, at, Out);
  }

  lemma MultipleInsExact(g: GraphValue, at: Endpoint)
    ensures forall b: seq<BundleEdge> :: b in MultipleIns(g) ==> IsFan(g, b, In)
    ensures (exists b: seq<BundleEdge> :: b in MultipleIns(g) && ReportsAt(b, at, In))
        <==> at.node in NodeNames(g.nodes) && |FanEdges(g.edges, at, In)| >= 2
  {
    Exact(g, at, In);
  }

  lemma Exact(g: GraphValue, at: Endpoint, d: Direction)
    ensures forall b: seq<BundleEdge> :: b in FansOf(g, NodeNames(g.nodes), d) ==> IsFan(g, b, d)
    ensures (exists b: seq<BundleEdge> :: b in FansOf(g, NodeNames(g.nodes), d) && ReportsAt(b, at, d))
        <==> at.node in NodeNames(g.nodes) && |FanEdges(g.edges, at, d)| >= 2
  {
    var names := NodeNames(g.nodes);
    FansOfAreFans(g, names, d);
    if at.node in names && |FanEdges(g.edges, at, d)| >= 2 {
      FansOfComplete(g, names, at, d);
    }
    if exists b: seq<BundleEdge> :: b in FansOf(g, names, d) && ReportsAt(b, at, d) {
      var b: seq<BundleEdge> :| b in FansOf(g, names, d) && ReportsAt(b, at, d);
      assert |Tag(g, FanEdges(g.edges, at, d), d)| == |b|;
    }
  }

  /** What the members of a fan have in common. */
  lemma FanMembers(g: GraphValue, b: seq<BundleEdge>, d: Direction)
    requires IsFan(g, b, d)
    ensures forall x :: x in b ==>
      x.edge in g.edges && !x.edge.continuation &&
      PortOf(x.edge, d) == PortOf(b[0].edge, d) && x.key == b[0].key && x.ptype == b[0].ptype
  {
    var at := PortOf(b[0].edge, d);
    var es := FanEdges(g.edges, at, d);
    forall x | x in b ensures x.edge in g.edges && !x.edge.continuation
      && PortOf(x.edge, d) == at && x.key == b[0].key && x.ptype == b[0].ptype {
      var k :| 0 <= k < |b| && b[k] == x;
      assert x == TagOne(g, es[k], d);
      assert es[k] in es;
    }
  }
}
