/** Tree synthesis: `duplicate`, `join`, `edge`, `createDuplicates` and
    `createJoins` (src/api.js:41-147). A port with several consumers is fed
    through a balanced binary tree of `control/duplicate` nodes; a port with
    several producers is fed through a balanced tree of `control/join` nodes.
    Both trees halve the index range `[from, to]` over the ordered list of the
    far ends; the join tree is the duplicate tree with every edge turned
    round and its ports renamed, so both are one definition here (`Tree`),
    parametrised by a `Kind`. The join split as the source writes it differs
    and is modelled on its own (`CreateJoins`). */
module Trees {
  import opened Wrappers
  import opened Strings
  import opened PortGraph

  datatype Kind = DupTree | JoinTree

  /** The descriptor `{node, port, parent, type}` a tree hangs from: the port
      that fans out (or in), the scope the tree nodes go into and the type
      they carry. */
  datatype Anchor = Anchor(node: string, port: string, parent: Option<string>, ptype: PortType)

  function AnchorEnd(a: Anchor): Endpoint { Endpoint(a.node, a.port) }

  /** The `{isGeneric: true, genericType: T}` settings: present exactly for a
      non-empty string type that does not mention `generic`. */
  function GenericTag(t: PortType): (r: Option<string>)
    ensures r.Some? <==> t.TypeName? && t.name != "" && !(exists i :: OccursAt(t.name, "generic", i))
    ensures r.Some? ==> r.value == t.name
  {
    match t
    case TypeName(s) =>
      ContainsIff(s, "generic");
      if s != "" && !Contains(s, "generic") then Some(s) else None
    case _ => None
  }

  function Label(k: Kind): string
  {
    if k == DupTree then "_DUPLICATE_" else "_JOIN_"
  }

  /** What every node name of a tree hung from `a` begins with. */
  function TreePrefix(k: Kind, a: Anchor): string
  {
    a.node + "_" + a.port + Label(k)
  }

  /** `${node}_${port}_DUPLICATE_${from}_${to}` (`_JOIN_` for joins). */
  function TreeName(k: Kind, a: Anchor, from: nat, to: nat): string
  {
    TreePrefix(k, a) + NatToString(from) + "_" + NatToString(to)
  }

  /** The two ports a tree node faces its far ends with, and the port it faces
      the anchor with. */
  function Inner1(k: Kind): string { if k == DupTree then "d1" else "in1" }

  function Inner2(k: Kind): string { if k == DupTree then "d2" else "in2" }

  function RootPort(k: Kind): string { if k == DupTree then "in" else "to" }

  function NodeLabel(k: Kind, t: PortType): NodeValue
  {
    if k == DupTree then
      NodeValue("control/duplicate", [Port("in", t)], Some([Port("d1", t), Port("d2", t)]),
        true, false, false, Settings(["in", "d1", "d2"], GenericTag(t)))
    else
      NodeValue("control/join", [Port("in1", t), Port("in2", t)], Some([Port("to", t)]),
        true, false, true, Settings(["in1", "in2", "to"], GenericTag(t)))
  }

  /** `duplicate(node, from, to)`. */
  function Duplicate(a: Anchor, from: nat, to: nat): Node
  {
    Node(TreeName(DupTree, a, from, to), NodeLabel(DupTree, a.ptype), a.parent)
  }

  /** `join(node, from, to)`. */
  function Join(a: Anchor, from: nat, to: nat): Node
  {
    Node(TreeName(JoinTree, a, from, to), NodeLabel(JoinTree, a.ptype), a.parent)
  }

  function TreeNode(k: Kind, a: Anchor, from: nat, to: nat): Node
  {
    if k == DupTree then Duplicate(a, from, to) else Join(a, from, to)
  }

  /** `edge(from, to)`: an unnamed, non-continuation edge. */
  function Wire(from: Endpoint, to: Endpoint): (e: Edge)
    ensures Source(e) == from && Target(e) == to && e.name.None? && !e.continuation
  {
    Edge(from.node, to.node, None, from.port, to.port, false)
  }

  /** An edge of a tree, given its end nearer the anchor (`up`) and its end
      nearer the far ends (`down`): duplicates carry data down, joins up. */
  function Flow(k: Kind, up: Endpoint, down: Endpoint): (e: Edge)
    ensures UpEnd(k, e) == up && DownEnd(k, e) == down
  {
    if k == DupTree then Wire(up, down) else Wire(down, up)
  }

  function UpEnd(k: Kind, e: Edge): Endpoint
  {
    if k == DupTree then Source(e) else Target(e)
  }

  function DownEnd(k: Kind, e: Edge): Endpoint
  {
    if k == DupTree then Target(e) else Source(e)
  }

  /** `to || list.length - 1`: a `to` of 0 counts as absent. */
  function EffectiveTo(to: nat, len: nat): int
  {
    if to == 0 then len - 1 else to
  }

  /** The point the index range `[from, to]` is halved at: the lower half
      `[from, m]` and the upper half `[m + 1, to]` are both non-empty, and
      of a range of three or more, the lower half is not a single index. */
  function Mid(from: nat, to: nat): (m: nat)
    requires from < to
    ensures from <= m < to
    ensures from + 2 <= to ==> from < m
  {
    (from + to) / 2
  }

  /** The anchor a subtree hangs from: port `port` of the tree node for `[from, to]`. */
  function Child(k: Kind, a: Anchor, from: nat, to: nat, port: string): Anchor
  {
    Anchor(TreeNode(k, a, from, to).v, port, a.parent, a.ptype)
  }

  /** The tree made of one edge, between the anchor-side port `up` and the far end `down`. */
  function Leaf(k: Kind, up: Endpoint, down: Endpoint): GraphValue
  {
    GraphValue([], [Flow(k, up, down)])
  }

  /** The tree with root node `n` hung from `up`: `n` first, then the nodes
      of both subtrees; the edges of both subtrees, then the root edge. */
  function Fork(k: Kind, up: Endpoint, n: Node, left: GraphValue, right: GraphValue): GraphValue
  {
    GraphValue([n] + (left.nodes + right.nodes),
      left.edges + right.edges + [Flow(k, up, Endpoint(n.v, RootPort(k)))])
  }

  /** The balanced tree over `ends[from..t]`: no node for one end; one node
      whose two far-side ports take `ends[from]` and `ends[t]` for two;
      otherwise a node whose first port takes the lower half
      `[from, (from + t) / 2]` and whose second port takes the rest. The tree
      lists its nodes root first and its edges root edge last; it has a node
      for every end but one and an edge for every node port. */
  function Tree(k: Kind, a: Anchor, ends: seq<Endpoint>, from: nat, t: nat): (r: GraphValue)
    requires from <= t < |ends|
    ensures |r.nodes| == t - from
    ensures |r.edges| == 2 * (t - from) + 1
    decreases t - from
  {
    var n := TreeNode(k, a, from, t);
    if t == from then
      Leaf(k, AnchorEnd(a), ends[from])
    else if t - from == 1 then
      Fork(k, AnchorEnd(a), n,
        Leaf(k, Endpoint(n.v, Inner1(k)), ends[from]),
        Leaf(k, Endpoint(n.v, Inner2(k)), ends[t]))
    else
      Fork(k, AnchorEnd(a), n,
        Tree(k, Child(k, a, from, t, Inner1(k)), ends, from, Mid(from, t)),
        Tree(k, Child(k, a, from, t, Inner2(k)), ends, Mid(from, t) + 1, t))
  }

  /** The body shared by `createDuplicates` and `createJoins` on
      `[from, to || ends.length - 1]`. The source applies the default at every
      call; below the top the `to` passed is never 0, so the default changes
      nothing there (`BuildSplit`). */
  function Build(k: Kind, a: Anchor, ends: seq<Endpoint>, from: nat, to: nat): GraphValue
    requires to < |ends| && from <= EffectiveTo(to, |ends|)
  {
    Tree(k, a, ends, from, EffectiveTo(to, |ends|))
  }

  /** `createDuplicates(node, successors, from, to)`. */
  function CreateDuplicates(a: Anchor, successors: seq<Endpoint>, from: nat, to: nat): GraphValue
    requires to < |successors| && from <= EffectiveTo(to, |successors|)
  {
    Build(DupTree, a, successors, from, to)
  }

  /** `createJoins` with the right half starting at `Math.floor((from + to) / 2) + 1`,
      the split the duplicate tree uses. */
  function CreateJoinsCorrected(a: Anchor, predecessors: seq<Endpoint>, from: nat, to: nat): GraphValue
    requires to < |predecessors| && from <= EffectiveTo(to, |predecessors|)
  {
    Build(JoinTree, a, predecessors, from, to)
  }

  /** `createJoins(node, predecessors, from, to)` as written: the right half
      starts at `Math.floor(from + to) / 2 + 1`, which is not an integer when
      `from + to` is odd. From such a start the recursion never reaches a base
      case (`FractionalStartNeverBottomsOut`), so the call exhausts the stack;
      that outcome is `None`. */
  function CreateJoins(a: Anchor, predecessors: seq<Endpoint>, from: nat, to: nat): Option<GraphValue>
    requires to < |predecessors| && from <= EffectiveTo(to, |predecessors|)
  {
    JoinsOver(a, predecessors, from, EffectiveTo(to, |predecessors|))
  }

  /** The recursion of `createJoins` as written on `[from, t]`; as for
      `Build`, the `to` it passes down is never 0. */
  function JoinsOver(a: Anchor, predecessors: seq<Endpoint>, from: nat, t: nat): Option<GraphValue>
    requires from <= t < |predecessors|
    decreases t - from
  {
    var jn := Join(a, from, t);
    if t == from then
      Some(GraphValue([], [Wire(predecessors[from], AnchorEnd(a))]))
    else if t - from == 1 then
      Some(GraphValue([jn], [
        Wire(predecessors[from], Endpoint(jn.v, "in1")),
        Wire(predecessors[t], Endpoint(jn.v, "in2")),
        Wire(Endpoint(jn.v, "to"), AnchorEnd(a))]))
    else if (from + t) % 2 == 1 then
      None
    else
      var d1 := JoinsOver(Child(JoinTree, a, from, t, "in1"), predecessors, from, Mid(from, t));
      var d2 := JoinsOver(Child(JoinTree, a, from, t, "in2"), predecessors, Mid(from, t) + 1, t);
      if d1.None? || d2.None? then None
      else Some(GraphValue([jn] + d1.value.nodes + d2.value.nodes,
        d1.value.edges + d2.value.edges + [Wire(Endpoint(jn.v, "to"), AnchorEnd(a))]))
  }

  /** A tree node is an atomic component of the anchor's scope whose name
      starts with the anchor's prefix, whose ports all carry the anchor's
      type, whose argument order lists its input ports and then its output
      ports, and which is tagged generic exactly as `GenericTag` says.
      Duplicates take `in` and give `d1`, `d2`; joins take `in1`, `in2`, give
      `to` and are special forms. */
  lemma TreeNodeShape(k: Kind, a: Anchor, from: nat, to: nat)
    ensures var n := TreeNode(k, a, from, to); var v := n.value;
      && IsPrefix(TreePrefix(k, a), n.v) && n.parent == a.parent
      && v.atomic && !v.recursive && v.outputPorts.Some?
      && v.settings.argumentOrdering == PortNames(v.inputPorts) + PortNames(v.outputPorts.value)
      && (forall p :: p in v.inputPorts || p in v.outputPorts.value ==> p.ptype == a.ptype)
      && v.settings.genericType == GenericTag(a.ptype)
    ensures k == DupTree ==> var v := TreeNode(k, a, from, to).value;
      v.id == "control/duplicate" && !v.specialForm
      && PortNames(v.inputPorts) == [RootPort(k)] && PortNames(v.outputPorts.value) == [Inner1(k), Inner2(k)]
    ensures k == JoinTree ==> var v := TreeNode(k, a, from, to).value;
      v.id == "control/join" && v.specialForm
      && PortNames(v.inputPorts) == [Inner1(k), Inner2(k)] && PortNames(v.outputPorts.value) == [RootPort(k)]
  {
    PrefixOfConcat(TreePrefix(k, a), NatToString(from) + "_" + NatToString(to));
    assert TreeName(k, a, from, to) == TreePrefix(k, a) + (NatToString(from) + "_" + NatToString(to));
  }

  // ----- the shape of a tree -----

  function UpEnds(k: Kind, es: seq<Edge>): (r: seq<Endpoint>)
    ensures |r| == |es|
  {
    if es == [] then [] else [UpEnd(k, es[0])] + UpEnds(k, es[1..])
  }

  function DownEnds(k: Kind, es: seq<Edge>): (r: seq<Endpoint>)
    ensures |r| == |es|
  {
    if es == [] then [] else [DownEnd(k, es[0])] + DownEnds(k, es[1..])
  }

  /** The anchor-side port of every tree node. */
  function RootPorts(k: Kind, nodes: seq<Node>): (r: seq<Endpoint>)
    ensures |r| == |nodes|
  {
    if nodes == [] then [] else [Endpoint(nodes[0].v, RootPort(k))] + RootPorts(k, nodes[1..])
  }

  /** The two far-side ports of every tree node. */
  function InnerPorts(k: Kind, nodes: seq<Node>): seq<Endpoint>
  {
    if nodes == [] then []
    else [Endpoint(nodes[0].v, Inner1(k)), Endpoint(nodes[0].v, Inner2(k))] + InnerPorts(k, nodes[1..])
  }

  lemma {:induction false} UpDownAppend(k: Kind, x: seq<Edge>, y: seq<Edge>)
    ensures UpEnds(k, x + y) == UpEnds(k, x) + UpEnds(k, y)
    ensures DownEnds(k, x + y) == DownEnds(k, x) + DownEnds(k, y)
  {
    if x == [] {
      assert x + y == y;
    } else {
      assert (x + y)[1..] == x[1..] + y;
      UpDownAppend(k, x[1..], y);
      assert UpEnds(k, x + y) == [UpEnd(k, x[0])] + UpEnds(k, x[1..] + y);
      assert DownEnds(k, x + y) == [DownEnd(k, x[0])] + DownEnds(k, x[1..] + y);
    }
  }

  lemma {:induction false} PortsAppend(k: Kind, x: seq<Node>, y: seq<Node>)
    ensures InnerPorts(k, x + y) == InnerPorts(k, x) + InnerPorts(k, y)
    ensures RootPorts(k, x + y) == RootPorts(k, x) + RootPorts(k, y)
  {
    if x == [] {
      assert x + y == y;
    } else {
      var h := [Endpoint(x[0].v, Inner1(k)), Endpoint(x[0].v, Inner2(k))];
      assert (x + y)[1..] == x[1..] + y;
      PortsAppend(k, x[1..], y);
      assert InnerPorts(k, x + y) == h + InnerPorts(k, x[1..] + y);
      assert InnerPorts(k, x) == h + InnerPorts(k, x[1..]);
      assert h + (InnerPorts(k, x[1..]) + InnerPorts(k, y)) == (h + InnerPorts(k, x[1..])) + InnerPorts(k, y);
    }
  }

  /** A subtree's prefix extends both its parent's prefix and the name of
      the node it hangs from, followed by `_`. */
  lemma ChildPrefix(k: Kind, a: Anchor, from: nat, to: nat, port: string)
    ensures IsPrefix(TreePrefix(k, a), TreePrefix(k, Child(k, a, from, to, port)))
    ensures IsPrefix(TreeNode(k, a, from, to).v + "_", TreePrefix(k, Child(k, a, from, to, port)))
  {
    var n := TreeNode(k, a, from, to);
    var c := TreePrefix(k, Child(k, a, from, to, port));
    assert c == n.v + "_" + (port + Label(k));
    PrefixOfConcat(n.v + "_", port + Label(k));
    PrefixOfConcat(n.v, "_");
    PrefixTransitive(n.v, n.v + "_", c);
    TreeNodeShape(k, a, from, to);
    PrefixTransitive(TreePrefix(k, a), n.v, c);
  }

  /** Two strings that begin with texts differing at some position differ. */
  lemma DivergentPrefixes(p: string, q: string, x: string, y: string, i: nat)
    requires IsPrefix(p, x) && IsPrefix(q, y) && i < |p| && i < |q| && p[i] != q[i]
    ensures x != y
  {
    assert x[i] == p[i];
    assert y[i] == q[i];
  }

  /** No name under the first subtree's prefix is a name under the second's. */
  lemma SiblingsApart(k: Kind, a: Anchor, from: nat, to: nat, x: string, y: string)
    requires IsPrefix(TreePrefix(k, Child(k, a, from, to, Inner1(k))), x)
    requires IsPrefix(TreePrefix(k, Child(k, a, from, to, Inner2(k))), y)
    ensures x != y
  {
    var v := TreeNode(k, a, from, to).v;
    var p1 := TreePrefix(k, Child(k, a, from, to, Inner1(k)));
    var p2 := TreePrefix(k, Child(k, a, from, to, Inner2(k)));
    assert p1 == v + "_" + (Inner1(k) + Label(k));
    assert p2 == v + "_" + (Inner2(k) + Label(k));
    var j := if k == DupTree then |v| + 2 else |v| + 3;
    assert p1[j] != p2[j];
    DivergentPrefixes(p1, p2, x, y, j);
  }

  /** The split case of `Build` recurses into `Build` on both halves: the
      default for `to` never applies below the top. */
  lemma BuildSplit(k: Kind, a: Anchor, ends: seq<Endpoint>, from: nat, to: nat)
    requires to < |ends| && from + 2 <= EffectiveTo(to, |ends|)
    ensures var t := EffectiveTo(to, |ends|); var m := Mid(from, t);
      Build(k, a, ends, from, to) == Fork(k, AnchorEnd(a), TreeNode(k, a, from, t),
        Build(k, Child(k, a, from, t, Inner1(k)), ends, from, m),
        Build(k, Child(k, a, from, t, Inner2(k)), ends, m + 1, t))
  {
    var t := EffectiveTo(to, |ends|);
    var m := Mid(from, t);
    assert EffectiveTo(m, |ends|) == m && EffectiveTo(t, |ends|) == t;
  }

  /** The far ends a tree over `[from, t]` reaches. */
  function Far(ends: seq<Endpoint>, from: nat, t: nat): seq<Endpoint>
    requires from <= t < |ends|
  {
    ends[from..t + 1]
  }

  /** The far ends of a split tree are those of its two subtrees. */
  lemma FarSplit(ends: seq<Endpoint>, from: nat, mid: nat, t: nat)
    requires from <= mid < t < |ends|
    ensures Far(ends, from, t) == Far(ends, from, mid) + Far(ends, mid + 1, t)
  {
    assert ends[from..t + 1] == ends[from..mid + 1] + ends[mid + 1..t + 1];
  }

  // ----- the nodes of a tree -----

  /** Every node is labelled for the anchor's type, placed in the anchor's
      scope and named under the anchor's prefix, and no name occurs twice. */
  ghost predicate NodesShape(k: Kind, a: Anchor, nodes: seq<Node>)
  {
    && (forall i :: 0 <= i < |nodes| ==>
          nodes[i].value == NodeLabel(k, a.ptype) && nodes[i].parent == a.parent
          && IsPrefix(TreePrefix(k, a), nodes[i].v))
    && UniqueNames(nodes)
  }

  /** The nodes of the tree `g` have the node shape. */
  ghost predicate Shaped(k: Kind, a: Anchor, g: GraphValue)
  {
    NodesShape(k, a, g.nodes)
  }


  /** A tree with a node has the node for the whole range first and the
      edge between the anchor and that node last. */
  lemma TreeRoot(k: Kind, a: Anchor, ends: seq<Endpoint>, from: nat, t: nat)
    requires from < t < |ends|
    ensures Tree(k, a, ends, from, t).nodes[0] == TreeNode(k, a, from, t)
    ensures Tree(k, a, ends, from, t).edges[|Tree(k, a, ends, from, t).edges| - 1]
      == Flow(k, AnchorEnd(a), Endpoint(TreeName(k, a, from, t), RootPort(k)))
  {
  }

  /** The last edge of a duplicate tree feeds its root from the anchor. */
  lemma DuplicatesRoot(a: Anchor, successors: seq<Endpoint>)
    requires |successors| >= 2
    ensures Wire(AnchorEnd(a), Endpoint(TreeName(DupTree, a, 0, |successors| - 1), "in")) in CreateDuplicates(a, successors, 0, 0).edges
  {
    TreeRoot(DupTree, a, successors, 0, |successors| - 1);
  }

  /** Every edge of a whole duplicate tree leaves the anchor or a node of the tree. */
  lemma DuplicatesSources(a: Anchor, successors: seq<Endpoint>, x: Edge)
    requires |successors| >= 2 && x in CreateDuplicates(a, successors, 0, 0).edges
    ensures Source(x) == AnchorEnd(a) || exists n :: n in CreateDuplicates(a, successors, 0, 0).nodes && n.v == Source(x).node
  {
    UpEndPlaced(DupTree, a, successors, 0, |successors| - 1, x);
  }

  /** When no node of a whole duplicate tree is named like the anchor's
      node, exactly one of its edges leaves the anchor. */
  lemma DuplicatesAnchorOnce(a: Anchor, successors: seq<Endpoint>)
    requires |successors| >= 2
    requires forall n :: n in CreateDuplicates(a, successors, 0, 0).nodes ==> n.v != a.node
    ensures Count(UpEnds(DupTree, CreateDuplicates(a, successors, 0, 0).edges), AnchorEnd(a)) == 1
  {
    AnchorOnce(DupTree, a, successors, 0, |successors| - 1);
  }

  /** Every edge of a whole join tree leaves a producer or a node of the tree. */
  lemma JoinsSources(a: Anchor, predecessors: seq<Endpoint>, x: Edge)
    requires |predecessors| >= 2 && x in CreateJoinsCorrected(a, predecessors, 0, 0).edges
    ensures Source(x) in predecessors || exists n :: n in CreateJoinsCorrected(a, predecessors, 0, 0).nodes && n.v == Source(x).node
  {
    assert predecessors[0..|predecessors|] == predecessors;
    DownEndPlaced(JoinTree, a, predecessors, 0, |predecessors| - 1, x);
  }

  /** Every tree edge is a plain wire: unnamed and not a continuation. */
  lemma {:induction false} TreeWires(k: Kind, a: Anchor, ends: seq<Endpoint>, from: nat, t: nat)
    requires from <= t < |ends|
    ensures forall x :: x in Tree(k, a, ends, from, t).edges ==> x.name.None? && !x.continuation
    decreases t - from
  {
    var v := TreeNode(k, a, from, t).v;
    var root := Flow(k, AnchorEnd(a), Endpoint(v, RootPort(k)));
    if t == from {
      assert Tree(k, a, ends, from, t).edges == [Flow(k, AnchorEnd(a), ends[from])];
    } else if t == from + 1 {
      var e1 := Flow(k, Endpoint(v, Inner1(k)), ends[from]);
      var e2 := Flow(k, Endpoint(v, Inner2(k)), ends[t]);
      assert Tree(k, a, ends, from, t).edges == [e1] + [e2] + [root];
    } else {
      var m := Mid(from, t);
      var m1 := m + 1;
      var left := Tree(k, Child(k, a, from, t, Inner1(k)), ends, from, m);
      var right := Tree(k, Child(k, a, from, t, Inner2(k)), ends, m1, t);
      TreeWires(k, Child(k, a, from, t, Inner1(k)), ends, from, m);
      TreeWires(k, Child(k, a, from, t, Inner2(k)), ends, m1, t);
      assert Tree(k, a, ends, from, t).edges == left.edges + right.edges + [root];
    }
  }

  lemma {:induction false} DownEndsWitness(k: Kind, es: seq<Edge>, p: Endpoint)
    requires p in DownEnds(k, es)
    ensures exists x :: x in es && DownEnd(k, x) == p
  {
    if DownEnd(k, es[0]) != p {
      DownEndsWitness(k, es[1..], p);
    }
  }

  /** Every producer of a whole join tree starts a plain edge of the tree. */
  lemma JoinsFeed(a: Anchor, predecessors: seq<Endpoint>, p: Endpoint)
    requires |predecessors| >= 2 && p in predecessors
    ensures exists x :: x in CreateJoinsCorrected(a, predecessors, 0, 0).edges && Source(x) == p && !x.continuation
  {
    var t := |predecessors| - 1;
    var tr := Tree(JoinTree, a, predecessors, 0, t);
    TreeEnds(JoinTree, a, predecessors, 0, t);
    assert Far(predecessors, 0, t) == predecessors;
    assert Count(DownEnds(JoinTree, tr.edges), p) == Count(predecessors, p) + Count(RootPorts(JoinTree, tr.nodes), p);
    CountMember(predecessors, p);
    CountMember(DownEnds(JoinTree, tr.edges), p);
    DownEndsWitness(JoinTree, tr.edges, p);
    TreeWires(JoinTree, a, predecessors, 0, t);
  }

  /** The nodes of a tree: each labelled for the anchor's type, placed in
      the anchor's scope and named under the anchor's prefix, no name twice. */
  lemma {:induction false} TreeNodes(k: Kind, a: Anchor, ends: seq<Endpoint>, from: nat, t: nat)
    requires from <= t < |ends|
    ensures Shaped(k, a, Tree(k, a, ends, from, t))
    decreases t - from, 2
  {
    if t == from + 1 {
      var v := TreeNode(k, a, from, t).v;
      ForkNodes(k, a, from, t, Leaf(k, Endpoint(v, Inner1(k)), ends[from]), Leaf(k, Endpoint(v, Inner2(k)), ends[t]));
    } else if t >= from + 2 {
      SplitNodes(k, a, ends, from, t);
    }
  }

  /** Every node of a tree built over `[from, to || ends.length - 1]`
      carries the anchor's label. */
  lemma BuildLabels(k: Kind, a: Anchor, ends: seq<Endpoint>, from: nat, to: nat, n: Node)
    requires to < |ends| && from <= EffectiveTo(to, |ends|)
    requires n in Build(k, a, ends, from, to).nodes
    ensures n.value == NodeLabel(k, a.ptype)
  {
    var t := Tree(k, a, ends, from, EffectiveTo(to, |ends|));
    TreeNodes(k, a, ends, from, EffectiveTo(to, |ends|));
    var j :| 0 <= j < |t.nodes| && t.nodes[j] == n;
  }

  lemma {:induction false} SplitNodes(k: Kind, a: Anchor, ends: seq<Endpoint>, from: nat, t: nat)
    requires from + 2 <= t < |ends|
    ensures Shaped(k, a, Tree(k, a, ends, from, t))
    decreases t - from, 1
  {
    SubtreesShaped(k, a, ends, from, t);
    TreeSplit(k, a, ends, from, t);
    ForkNodes(k, a, from, t,
      Tree(k, Child(k, a, from, t, Inner1(k)), ends, from, Mid(from, t)),
      Tree(k, Child(k, a, from, t, Inner2(k)), ends, Mid(from, t) + 1, t));
  }

  lemma {:induction false} SubtreesShaped(k: Kind, a: Anchor, ends: seq<Endpoint>, from: nat, t: nat)
    requires from + 2 <= t < |ends|
    ensures Shaped(k, Child(k, a, from, t, Inner1(k)), Tree(k, Child(k, a, from, t, Inner1(k)), ends, from, Mid(from, t)))
    ensures Shaped(k, Child(k, a, from, t, Inner2(k)), Tree(k, Child(k, a, from, t, Inner2(k)), ends, Mid(from, t) + 1, t))
    decreases t - from, 0
  {
    TreeNodes(k, Child(k, a, from, t, Inner1(k)), ends, from, Mid(from, t));
    TreeNodes(k, Child(k, a, from, t, Inner2(k)), ends, Mid(from, t) + 1, t);
  }

  /** The step of `TreeNodes`: a root node over two subtrees with the
      node shape keeps it. */
  lemma ForkNodes(k: Kind, a: Anchor, from: nat, t: nat, left: GraphValue, right: GraphValue)
    requires Shaped(k, Child(k, a, from, t, Inner1(k)), left)
    requires Shaped(k, Child(k, a, from, t, Inner2(k)), right)
    ensures Shaped(k, a, Fork(k, AnchorEnd(a), TreeNode(k, a, from, t), left, right))
  {
    var ns := Fork(k, AnchorEnd(a), TreeNode(k, a, from, t), left, right).nodes;
    ForkLabels(k, a, from, t, left.nodes, right.nodes, ns);
    ForkUnique(k, a, from, t, left.nodes, right.nodes, ns);
  }

  /** The root and both subtrees' nodes carry the anchor's label, scope
      and prefix. */
  lemma ForkLabels(k: Kind, a: Anchor, from: nat, t: nat, left: seq<Node>, right: seq<Node>, ns: seq<Node>)
    requires NodesShape(k, Child(k, a, from, t, Inner1(k)), left)
    requires NodesShape(k, Child(k, a, from, t, Inner2(k)), right)
    requires ns == [TreeNode(k, a, from, t)] + (left + right)
    ensures forall i :: 0 <= i < |ns| ==>
      ns[i].value == NodeLabel(k, a.ptype) && ns[i].parent == a.parent && IsPrefix(TreePrefix(k, a), ns[i].v)
  {
    var p1 := TreePrefix(k, Child(k, a, from, t, Inner1(k)));
    var p2 := TreePrefix(k, Child(k, a, from, t, Inner2(k)));
    TreeNodeShape(k, a, from, t);
    ChildPrefix(k, a, from, t, Inner1(k));
    ChildPrefix(k, a, from, t, Inner2(k));
    forall i | 0 <= i < |ns|
      ensures ns[i].value == NodeLabel(k, a.ptype) && ns[i].parent == a.parent && IsPrefix(TreePrefix(k, a), ns[i].v)
    {
      if 1 <= i < 1 + |left| {
        assert ns[i] == left[i - 1];
        PrefixTransitive(TreePrefix(k, a), p1, ns[i].v);
      } else if i >= 1 + |left| {
        assert ns[i] == right[i - 1 - |left|];
        PrefixTransitive(TreePrefix(k, a), p2, ns[i].v);
      }
    }
  }

  /** No name occurs twice among the root and both subtrees' nodes. */
  lemma ForkUnique(k: Kind, a: Anchor, from: nat, t: nat, left: seq<Node>, right: seq<Node>, ns: seq<Node>)
    requires NodesShape(k, Child(k, a, from, t, Inner1(k)), left)
    requires NodesShape(k, Child(k, a, from, t, Inner2(k)), right)
    requires ns == [TreeNode(k, a, from, t)] + (left + right)
    ensures UniqueNames(ns)
  {
    SidesUnique(k, a, from, t, left, right);
    BelowRoot(k, a, from, t, left, right);
    RootUnique(TreeNode(k, a, from, t), left + right, ns);
  }

  /** The two subtrees of a fork share no node name. */
  lemma SidesUnique(k: Kind, a: Anchor, from: nat, t: nat, left: seq<Node>, right: seq<Node>)
    requires NodesShape(k, Child(k, a, from, t, Inner1(k)), left)
    requires NodesShape(k, Child(k, a, from, t, Inner2(k)), right)
    ensures UniqueNames(left + right)
  {
    var ns := left + right;
    forall i, j | 0 <= i < j < |ns| ensures ns[i].v != ns[j].v {
      if i < |left| <= j {
        assert ns[i] == left[i] && ns[j] == right[j - |left|];
        SiblingsApart(k, a, from, t, ns[i].v, ns[j].v);
      } else if j < |left| {
        assert ns[i] == left[i] && ns[j] == left[j];
      } else {
        assert ns[i] == right[i - |left|] && ns[j] == right[j - |left|];
      }
    }
  }

  /** Every node of either subtree is named under the fork node's name. */
  lemma BelowRoot(k: Kind, a: Anchor, from: nat, t: nat, left: seq<Node>, right: seq<Node>)
    requires NodesShape(k, Child(k, a, from, t, Inner1(k)), left)
    requires NodesShape(k, Child(k, a, from, t, Inner2(k)), right)
    ensures forall i :: 0 <= i < |left + right| ==>
      IsPrefix(TreeNode(k, a, from, t).v + "_", (left + right)[i].v)
  {
    var r := TreeNode(k, a, from, t).v + "_";
    ChildPrefix(k, a, from, t, Inner1(k));
    ChildPrefix(k, a, from, t, Inner2(k));
    forall i | 0 <= i < |left + right| ensures IsPrefix(r, (left + right)[i].v) {
      if i < |left| {
        PrefixTransitive(r, TreePrefix(k, Child(k, a, from, t, Inner1(k))), left[i].v);
      } else {
        PrefixTransitive(r, TreePrefix(k, Child(k, a, from, t, Inner2(k))), right[i - |left|].v);
      }
    }
  }

  /** A node put in front of nodes all named under its own name and `_`
      keeps the names unique. */
  lemma RootUnique(n: Node, rest: seq<Node>, ns: seq<Node>)
    requires UniqueNames(rest)
    requires forall i :: 0 <= i < |rest| ==> IsPrefix(n.v + "_", rest[i].v)
    requires ns == [n] + rest
    ensures UniqueNames(ns)
  {
    forall i, j | 0 <= i < j < |ns| ensures ns[i].v != ns[j].v {
      if i == 0 {
        assert ns[j] == rest[j - 1];
        assert |ns[j].v| > |n.v|;
      } else {
        assert ns[i] == rest[i - 1] && ns[j] == rest[j - 1];
      }
    }
  }

  // ----- the ends of the edges of a tree -----

  /** How often `x` occurs in `xs`. */
  function Count(xs: seq<Endpoint>, x: Endpoint): nat
  {
    if xs == [] then 0 else (if xs[0] == x then 1 else 0) + Count(xs[1..], x)
  }

  lemma {:induction false} CountAppend(xs: seq<Endpoint>, ys: seq<Endpoint>, x: Endpoint)
    ensures Count(xs + ys, x) == Count(xs, x) + Count(ys, x)
  {
    if xs == [] {
      assert xs + ys == ys;
    } else {
      assert (xs + ys)[1..] == xs[1..] + ys;
      CountAppend(xs[1..], ys, x);
    }
  }

  lemma {:induction false} CountMember(xs: seq<Endpoint>, x: Endpoint)
    ensures Count(xs, x) > 0 <==> x in xs
  {
    if xs != [] {
      CountMember(xs[1..], x);
      assert xs == [xs[0]] + xs[1..];
    }
  }

  lemma {:induction false} EndsMember(k: Kind, es: seq<Edge>, e: Edge)
    requires e in es
    ensures UpEnd(k, e) in UpEnds(k, es) && DownEnd(k, e) in DownEnds(k, es)
  {
    if es[0] != e {
      EndsMember(k, es[1..], e);
    }
  }

  /** A port of a tree node belongs to a node of the tree. */
  lemma {:induction false} PortsNamed(k: Kind, nodes: seq<Node>, p: Endpoint)
    requires p in RootPorts(k, nodes) || p in InnerPorts(k, nodes)
    ensures exists n :: n in nodes && n.v == p.node
  {
    if p.node != nodes[0].v {
      PortsNamed(k, nodes[1..], p);
    }
  }

  /** Every tree edge leaves (for joins: enters) the anchor or a node of the tree. */
  lemma UpEndPlaced(k: Kind, a: Anchor, ends: seq<Endpoint>, from: nat, t: nat, x: Edge)
    requires from <= t < |ends| && x in Tree(k, a, ends, from, t).edges
    ensures UpEnd(k, x) == AnchorEnd(a) || exists n :: n in Tree(k, a, ends, from, t).nodes && n.v == UpEnd(k, x).node
  {
    var tr := Tree(k, a, ends, from, t);
    TreeEnds(k, a, ends, from, t);
    EndsMember(k, tr.edges, x);
    CountMember(UpEnds(k, tr.edges), UpEnd(k, x));
    assert Count(UpEnds(k, tr.edges), UpEnd(k, x)) == Count([AnchorEnd(a)], UpEnd(k, x)) + Count(InnerPorts(k, tr.nodes), UpEnd(k, x));
    CountMember(InnerPorts(k, tr.nodes), UpEnd(k, x));
    if UpEnd(k, x) in InnerPorts(k, tr.nodes) {
      PortsNamed(k, tr.nodes, UpEnd(k, x));
    }
  }

  /** Every tree edge enters (for joins: leaves) a far end or a node of the tree. */
  lemma DownEndPlaced(k: Kind, a: Anchor, ends: seq<Endpoint>, from: nat, t: nat, x: Edge)
    requires from <= t < |ends| && x in Tree(k, a, ends, from, t).edges
    ensures DownEnd(k, x) in ends[from..t + 1] || exists n :: n in Tree(k, a, ends, from, t).nodes && n.v == DownEnd(k, x).node
  {
    var tr := Tree(k, a, ends, from, t);
    TreeEnds(k, a, ends, from, t);
    EndsMember(k, tr.edges, x);
    CountMember(DownEnds(k, tr.edges), DownEnd(k, x));
    assert Count(DownEnds(k, tr.edges), DownEnd(k, x)) == Count(Far(ends, from, t), DownEnd(k, x)) + Count(RootPorts(k, tr.nodes), DownEnd(k, x));
    CountMember(Far(ends, from, t), DownEnd(k, x));
    CountMember(RootPorts(k, tr.nodes), DownEnd(k, x));
    if DownEnd(k, x) in RootPorts(k, tr.nodes) {
      PortsNamed(k, tr.nodes, DownEnd(k, x));
    }
  }

  /** When no tree node is named like the anchor's node, exactly one tree
      edge leaves (for joins: enters) the anchor. */
  lemma AnchorOnce(k: Kind, a: Anchor, ends: seq<Endpoint>, from: nat, t: nat)
    requires from <= t < |ends|
    requires forall n :: n in Tree(k, a, ends, from, t).nodes ==> n.v != a.node
    ensures Count(UpEnds(k, Tree(k, a, ends, from, t).edges), AnchorEnd(a)) == 1
  {
    var tr := Tree(k, a, ends, from, t);
    TreeEnds(k, a, ends, from, t);
    assert Count(UpEnds(k, tr.edges), AnchorEnd(a)) == Count([AnchorEnd(a)], AnchorEnd(a)) + Count(InnerPorts(k, tr.nodes), AnchorEnd(a));
    CountMember(InnerPorts(k, tr.nodes), AnchorEnd(a));
    if AnchorEnd(a) in InnerPorts(k, tr.nodes) {
      PortsNamed(k, tr.nodes, AnchorEnd(a));
    }
  }


  /** Two edges of `es` sharing an anchor-side end that occurs only once
      are the same edge. */
  lemma {:induction false} UpEndOnce(k: Kind, es: seq<Edge>, x: Edge, r: Edge)
    requires x in es && r in es && UpEnd(k, x) == UpEnd(k, r)
    requires Count(UpEnds(k, es), UpEnd(k, x)) <= 1
    ensures x == r
  {
    assert UpEnds(k, es) == [UpEnd(k, es[0])] + UpEnds(k, es[1..]);
    if es[0] == x {
      if r in es[1..] {
        EndsMember(k, es[1..], r);
        CountMember(UpEnds(k, es[1..]), UpEnd(k, r));
      }
    } else if es[0] == r {
      if x in es[1..] {
        EndsMember(k, es[1..], x);
        CountMember(UpEnds(k, es[1..]), UpEnd(k, x));
      }
    } else {
      UpEndOnce(k, es[1..], x, r);
    }
  }

  /** The statement of `TreeEnds` for a tree `g` hung from `up` over the far ends `far`. */
  ghost predicate EndsBalance(k: Kind, up: Endpoint, far: seq<Endpoint>, g: GraphValue)
  {
    forall x ::
      && Count(UpEnds(k, g.edges), x) == Count([up], x) + Count(InnerPorts(k, g.nodes), x)
      && Count(DownEnds(k, g.edges), x) == Count(far, x) + Count(RootPorts(k, g.nodes), x)
  }

  /** Every tree edge leaves (for joins: enters) the anchor or a far-side
      port of a tree node, and each of those ports is used exactly once; the
      other ends are the far ends `ends[from..t]`, each as often as it is
      listed, and the anchor-side port of every tree node, each once. */
  lemma {:induction false} TreeEnds(k: Kind, a: Anchor, ends: seq<Endpoint>, from: nat, t: nat)
    requires from <= t < |ends|
    ensures EndsBalance(k, AnchorEnd(a), Far(ends, from, t), Tree(k, a, ends, from, t))
    decreases t - from, 1
  {
    if t == from {
      LeafEnds(k, AnchorEnd(a), ends[from], Far(ends, from, t), Tree(k, a, ends, from, t));
    } else if t == from + 1 {
      PairEnds(k, a, ends, from, t);
    } else {
      SplitEnds(k, a, ends, from, t);
    }
  }

  lemma PairEnds(k: Kind, a: Anchor, ends: seq<Endpoint>, from: nat, t: nat)
    requires from + 1 == t < |ends|
    ensures EndsBalance(k, AnchorEnd(a), Far(ends, from, t), Tree(k, a, ends, from, t))
  {
    var e1 := Endpoint(TreeNode(k, a, from, t).v, Inner1(k));
    var e2 := Endpoint(TreeNode(k, a, from, t).v, Inner2(k));
    assert Far(ends, from, t) == [ends[from]] + [ends[t]];
    LeafEnds(k, e1, ends[from], [ends[from]], Leaf(k, e1, ends[from]));
    LeafEnds(k, e2, ends[t], [ends[t]], Leaf(k, e2, ends[t]));
    ForkEnds(k, AnchorEnd(a), TreeNode(k, a, from, t), e1, e2, [ends[from]], [ends[t]],
      Leaf(k, e1, ends[from]), Leaf(k, e2, ends[t]),
      Far(ends, from, t), Tree(k, a, ends, from, t));
  }

  lemma {:induction false} SplitEnds(k: Kind, a: Anchor, ends: seq<Endpoint>, from: nat, t: nat)
    requires from + 2 <= t < |ends|
    ensures EndsBalance(k, AnchorEnd(a), Far(ends, from, t), Tree(k, a, ends, from, t))
    decreases t - from, 0
  {
    var m := Mid(from, t);
    var c1 := Child(k, a, from, t, Inner1(k));
    var c2 := Child(k, a, from, t, Inner2(k));
    TreeEnds(k, c1, ends, from, m);
    TreeEnds(k, c2, ends, m + 1, t);
    FarSplit(ends, from, m, t);
    ForkEnds(k, AnchorEnd(a), TreeNode(k, a, from, t), AnchorEnd(c1), AnchorEnd(c2),
      Far(ends, from, m), Far(ends, m + 1, t), Tree(k, c1, ends, from, m), Tree(k, c2, ends, m + 1, t),
      Far(ends, from, t), Tree(k, a, ends, from, t));
  }

  lemma LeafEnds(k: Kind, up: Endpoint, far: Endpoint, fs: seq<Endpoint>, g: GraphValue)
    requires fs == [far] && g == Leaf(k, up, far)
    ensures EndsBalance(k, up, fs, g)
  {
    assert UpEnds(k, g.edges) == [up];
    assert DownEnds(k, g.edges) == [far];
  }

  /** The step of `TreeEnds`. */
  lemma ForkEnds(k: Kind, up: Endpoint, n: Node, e1: Endpoint, e2: Endpoint,
                 lo: seq<Endpoint>, hi: seq<Endpoint>, left: GraphValue, right: GraphValue, fs: seq<Endpoint>, g: GraphValue)
    requires e1 == Endpoint(n.v, Inner1(k)) && e2 == Endpoint(n.v, Inner2(k))
    requires EndsBalance(k, e1, lo, left)
    requires EndsBalance(k, e2, hi, right)
    requires fs == lo + hi
    requires g == Fork(k, up, n, left, right)
    ensures EndsBalance(k, up, fs, g)
  {
    var top := Endpoint(n.v, RootPort(k));
    var root := Flow(k, up, top);
    UpDownAppend(k, left.edges + right.edges, [root]);
    UpDownAppend(k, left.edges, right.edges);
    PortsAppend(k, [n], left.nodes + right.nodes);
    PortsAppend(k, left.nodes, right.nodes);
    assert InnerPorts(k, [n]) == [e1] + [e2];
    assert RootPorts(k, [n]) == [top];
    var uL, uR, dL, dR := UpEnds(k, left.edges), UpEnds(k, right.edges), DownEnds(k, left.edges), DownEnds(k, right.edges);
    var iL, iR, pL, pR := InnerPorts(k, left.nodes), InnerPorts(k, right.nodes), RootPorts(k, left.nodes), RootPorts(k, right.nodes);
    assert UpEnds(k, [root]) == [up];
    assert DownEnds(k, [root]) == [top];
    assert UpEnds(k, g.edges) == (uL + uR) + [up];
    assert DownEnds(k, g.edges) == (dL + dR) + [top];
    assert InnerPorts(k, g.nodes) == ([e1] + [e2]) + (iL + iR);
    assert RootPorts(k, g.nodes) == [top] + (pL + pR);
    forall x
      ensures Count(UpEnds(k, g.edges), x) == Count([up], x) + Count(InnerPorts(k, g.nodes), x)
      ensures Count(DownEnds(k, g.edges), x) == Count(fs, x) + Count(RootPorts(k, g.nodes), x)
    {
      CountAppend(uL + uR, [up], x);
      CountAppend(uL, uR, x);
      CountAppend([e1] + [e2], iL + iR, x);
      CountAppend([e1], [e2], x);
      CountAppend(iL, iR, x);
      CountAppend(dL + dR, [top], x);
      CountAppend(dL, dR, x);
      CountAppend([top], pL + pR, x);
      CountAppend(pL, pR, x);
      CountAppend(lo, hi, x);
    }
  }

  // ----- the far ends of a tree, in order -----

  /** Which of a tree's edges, in edge order, are leaf edges: the single
      edge of a one-end tree, and the leaf edges of both subtrees of a fork,
      whose root edge comes last. */
  function LeafMask(from: nat, t: nat): (m: seq<bool>)
    requires from <= t
    ensures |m| == 2 * (t - from) + 1
    decreases t - from
  {
    if t == from then [true]
    else if t - from == 1 then [true, true, false]
    else LeafMask(from, Mid(from, t)) + LeafMask(Mid(from, t) + 1, t) + [false]
  }

  /** The edges at the positions `m` marks, in order. */
  function Select(es: seq<Edge>, m: seq<bool>): seq<Edge>
    requires |es| == |m|
  {
    if es == [] then [] else (if m[0] then [es[0]] else []) + Select(es[1..], m[1..])
  }

  lemma {:induction false} SelectAppend(x: seq<Edge>, mx: seq<bool>, y: seq<Edge>, my: seq<bool>)
    requires |x| == |mx| && |y| == |my|
    ensures Select(x + y, mx + my) == Select(x, mx) + Select(y, my)
  {
    if x == [] {
      assert x + y == y && mx + my == my;
    } else {
      var head := if mx[0] then [x[0]] else [];
      assert (x + y)[0] == x[0] && (mx + my)[0] == mx[0];
      assert (x + y)[1..] == x[1..] + y && (mx + my)[1..] == mx[1..] + my;
      SelectAppend(x[1..], mx[1..], y, my);
      calc {
        Select(x + y, mx + my);
        head + Select(x[1..] + y, mx[1..] + my);
        head + (Select(x[1..], mx[1..]) + Select(y, my));
        (head + Select(x[1..], mx[1..])) + Select(y, my);
        Select(x, mx) + Select(y, my);
      }
    }
  }

  /** The edges at the unmarked positions of `m` enter (for joins: leave)
      the anchor-side port of a node of `g`. */
  ghost predicate InnerPlaced(k: Kind, g: GraphValue, m: seq<bool>)
  {
    |m| == |g.edges| && forall i :: 0 <= i < |m| && !m[i] ==> DownEnd(k, g.edges[i]) in RootPorts(k, g.nodes)
  }

  /** Read in edge order, the leaf edges of a tree reach exactly
      `ends[from..t]`, in order, and every other edge reaches the anchor-side
      port of a tree node. */
  lemma {:induction false} TreeLeaves(k: Kind, a: Anchor, ends: seq<Endpoint>, from: nat, t: nat)
    requires from <= t < |ends|
    ensures DownEnds(k, Select(Tree(k, a, ends, from, t).edges, LeafMask(from, t))) == Far(ends, from, t)
    ensures InnerPlaced(k, Tree(k, a, ends, from, t), LeafMask(from, t))
    decreases t - from, 1
  {
    if t == from {
      assert Tree(k, a, ends, from, t) == Leaf(k, AnchorEnd(a), ends[from]);
      assert Far(ends, from, t) == [ends[from]];
      LeafStep(k, ends[from], Tree(k, a, ends, from, t));
    } else if t == from + 1 {
      PairLeaves(k, a, ends, from, t);
    } else {
      SplitLeaves(k, a, ends, from, t);
    }
  }

  lemma PairLeaves(k: Kind, a: Anchor, ends: seq<Endpoint>, from: nat, t: nat)
    requires from + 1 == t < |ends|
    ensures DownEnds(k, Select(Tree(k, a, ends, from, t).edges, LeafMask(from, t))) == Far(ends, from, t)
    ensures InnerPlaced(k, Tree(k, a, ends, from, t), LeafMask(from, t))
  {
    var n := TreeNode(k, a, from, t);
    var left := Leaf(k, Endpoint(n.v, Inner1(k)), ends[from]);
    var right := Leaf(k, Endpoint(n.v, Inner2(k)), ends[t]);
    assert Tree(k, a, ends, from, t) == Fork(k, AnchorEnd(a), n, left, right);
    assert LeafMask(from, t) == [true] + [true] + [false];
    assert Far(ends, from, t) == [ends[from]] + [ends[t]];
    LeafStep(k, ends[from], left);
    LeafStep(k, ends[t], right);
    ForkStep(k, AnchorEnd(a), n, [ends[from]], [ends[t]], left, right, [true], [true], Tree(k, a, ends, from, t));
  }

  lemma {:induction false} SplitLeaves(k: Kind, a: Anchor, ends: seq<Endpoint>, from: nat, t: nat)
    requires from + 2 <= t < |ends|
    ensures DownEnds(k, Select(Tree(k, a, ends, from, t).edges, LeafMask(from, t))) == Far(ends, from, t)
    ensures InnerPlaced(k, Tree(k, a, ends, from, t), LeafMask(from, t))
    decreases t - from, 0
  {
    var n := TreeNode(k, a, from, t);
    var m := Mid(from, t);
    var m1 := m + 1;
    var left := Tree(k, Child(k, a, from, t, Inner1(k)), ends, from, m);
    var right := Tree(k, Child(k, a, from, t, Inner2(k)), ends, m1, t);
    var g := Tree(k, a, ends, from, t);
    var mask := LeafMask(from, t);
    assert g == Fork(k, AnchorEnd(a), n, left, right);
    assert mask == LeafMask(from, m) + LeafMask(m1, t) + [false];
    FarSplit(ends, from, m, t);
    TreeLeaves(k, Child(k, a, from, t, Inner1(k)), ends, from, m);
    TreeLeaves(k, Child(k, a, from, t, Inner2(k)), ends, m1, t);
    ForkStep(k, AnchorEnd(a), n, Far(ends, from, m), Far(ends, m1, t),
      left, right, LeafMask(from, m), LeafMask(m1, t), g);
    assert DownEnds(k, Select(g.edges, mask)) == Far(ends, from, t);
    assert InnerPlaced(k, g, mask);
  }

  lemma LeafStep(k: Kind, far: Endpoint, g: GraphValue)
    requires |g.edges| == 1 && DownEnd(k, g.edges[0]) == far
    ensures DownEnds(k, Select(g.edges, [true])) == [far]
    ensures InnerPlaced(k, g, [true])
  {
    assert g.edges[1..] == [];
    assert Select(g.edges, [true]) == g.edges;
  }

  /** The step of `TreeLeaves`: a fork's leaf edges are its subtrees' leaf
      edges, and its root edge enters the root node. */
  lemma ForkStep(k: Kind, up: Endpoint, n: Node, lo: seq<Endpoint>, hi: seq<Endpoint>,
                 left: GraphValue, right: GraphValue, ml: seq<bool>, mr: seq<bool>, g: GraphValue)
    requires InnerPlaced(k, left, ml) && DownEnds(k, Select(left.edges, ml)) == lo
    requires InnerPlaced(k, right, mr) && DownEnds(k, Select(right.edges, mr)) == hi
    requires g == Fork(k, up, n, left, right)
    ensures DownEnds(k, Select(g.edges, ml + mr + [false])) == lo + hi
    ensures InnerPlaced(k, g, ml + mr + [false])
  {
    var root := Flow(k, up, Endpoint(n.v, RootPort(k)));
    SelectAppend(left.edges, ml, right.edges, mr);
    SelectAppend(left.edges + right.edges, ml + mr, [root], [false]);
    assert Select([root], [false]) == [];
    assert g.edges == left.edges + right.edges + [root];
    assert Select(g.edges, ml + mr + [false]) == Select(left.edges, ml) + Select(right.edges, mr) + [];
    assert Select(left.edges, ml) + Select(right.edges, mr) + [] == Select(left.edges, ml) + Select(right.edges, mr);
    UpDownAppend(k, Select(left.edges, ml), Select(right.edges, mr));
    PortsAppend(k, [n], left.nodes + right.nodes);
    PortsAppend(k, left.nodes, right.nodes);
    assert RootPorts(k, [n]) == [Endpoint(n.v, RootPort(k))];
    var m := ml + mr + [false];
    forall i | 0 <= i < |m| && !m[i] ensures DownEnd(k, g.edges[i]) in RootPorts(k, g.nodes) {
      if i < |ml| {
        assert g.edges[i] == left.edges[i] && m[i] == ml[i];
      } else if i < |ml| + |mr| {
        assert g.edges[i] == right.edges[i - |ml|] && m[i] == mr[i - |ml|];
      } else {
        assert g.edges[i] == root;
      }
    }
  }

  lemma NameParts(p: string, a1: string, b1: string, a2: string, b2: string)
    requires AllDigits(a1) && AllDigits(a2)
    requires p + a1 + "_" + b1 == p + a2 + "_" + b2
    ensures a1 == a2 && b1 == b2
  {
    assert p + a1 + "_" + b1 == p + (a1 + "_" + b1);
    assert p + a2 + "_" + b2 == p + (a2 + "_" + b2);
    CancelPrefix(p, a1 + "_" + b1, a2 + "_" + b2);
    SplitAtUnderscore(a1, b1, a2, b2);
  }

  /** A tree node's name gives back its range. */
  lemma TreeNameInjective(k: Kind, a: Anchor, f1: nat, t1: nat, f2: nat, t2: nat)
    requires TreeName(k, a, f1, t1) == TreeName(k, a, f2, t2)
    ensures f1 == f2 && t1 == t2
  {
    NatToStringDigits(f1);
    NatToStringDigits(f2);
    NameParts(TreePrefix(k, a), NatToString(f1), NatToString(t1), NatToString(f2), NatToString(t2));
    NatToStringInjective(f1, f2);
    NatToStringInjective(t1, t2);
  }

  // ----- the join split as written -----

  /** Where it terminates, the join tree as written is the corrected one. */
  lemma CreateJoinsAgrees(a: Anchor, predecessors: seq<Endpoint>, from: nat, to: nat)
    requires to < |predecessors| && from <= EffectiveTo(to, |predecessors|)
    ensures CreateJoins(a, predecessors, from, to).Some? ==>
      CreateJoins(a, predecessors, from, to).value == CreateJoinsCorrected(a, predecessors, from, to)
  {
    JoinsAgree(a, predecessors, from, EffectiveTo(to, |predecessors|));
  }

  lemma {:induction false} JoinsAgree(a: Anchor, predecessors: seq<Endpoint>, from: nat, t: nat)
    requires from <= t < |predecessors|
    ensures JoinsOver(a, predecessors, from, t).Some? ==>
      JoinsOver(a, predecessors, from, t).value == Tree(JoinTree, a, predecessors, from, t)
    decreases t - from
  {
    if t == from {
      assert JoinsOver(a, predecessors, from, t).value == Leaf(JoinTree, AnchorEnd(a), predecessors[from]);
    } else if t - from == 1 {
      PairJoinsAgree(a, predecessors, from, t);
    } else if (from + t) % 2 == 1 {
      assert JoinsOver(a, predecessors, from, t).None?;
    } else {
      var m := Mid(from, t);
      var m1 := m + 1;
      JoinsAgree(Child(JoinTree, a, from, t, "in1"), predecessors, from, m);
      JoinsAgree(Child(JoinTree, a, from, t, "in2"), predecessors, m1, t);
      SplitJoinsAgree(a, predecessors, from, t);
    }
  }

  /** The two-producer case of `JoinsAgree`. */
  lemma PairJoinsAgree(a: Anchor, predecessors: seq<Endpoint>, from: nat, t: nat)
    requires from + 1 == t < |predecessors|
    ensures JoinsOver(a, predecessors, from, t) == Some(Tree(JoinTree, a, predecessors, from, t))
  {
    var jn := Join(a, from, t);
    var e1 := Wire(predecessors[from], Endpoint(jn.v, "in1"));
    var e2 := Wire(predecessors[t], Endpoint(jn.v, "in2"));
    var root := Wire(Endpoint(jn.v, "to"), AnchorEnd(a));
    JoinRoot(a, from, t);
    assert Leaf(JoinTree, Endpoint(jn.v, Inner1(JoinTree)), predecessors[from]) == GraphValue([], [e1]);
    assert Leaf(JoinTree, Endpoint(jn.v, Inner2(JoinTree)), predecessors[t]) == GraphValue([], [e2]);
    assert [jn] + ([] + []) == [jn];
    assert [e1] + [e2] + [root] == [e1, e2, root];
  }

  /** The step of `JoinsAgree`: halves that agree make a whole that agrees. */
  lemma SplitJoinsAgree(a: Anchor, predecessors: seq<Endpoint>, from: nat, t: nat)
    requires from + 2 <= t < |predecessors| && (from + t) % 2 == 0
    requires var c1 := Child(JoinTree, a, from, t, "in1");
      JoinsOver(c1, predecessors, from, Mid(from, t)).Some? ==>
      JoinsOver(c1, predecessors, from, Mid(from, t)).value == Tree(JoinTree, c1, predecessors, from, Mid(from, t))
    requires var c2 := Child(JoinTree, a, from, t, "in2");
      JoinsOver(c2, predecessors, Mid(from, t) + 1, t).Some? ==>
      JoinsOver(c2, predecessors, Mid(from, t) + 1, t).value == Tree(JoinTree, c2, predecessors, Mid(from, t) + 1, t)
    ensures JoinsOver(a, predecessors, from, t).Some? ==>
      JoinsOver(a, predecessors, from, t).value == Tree(JoinTree, a, predecessors, from, t)
  {
    var m := Mid(from, t);
    var jn := Join(a, from, t);
    var c1 := Child(JoinTree, a, from, t, "in1");
    var c2 := Child(JoinTree, a, from, t, "in2");
    var root := Wire(Endpoint(jn.v, "to"), AnchorEnd(a));
    JoinsSplit(a, predecessors, from, t);
    TreeSplit(JoinTree, a, predecessors, from, t);
    var d1 := JoinsOver(c1, predecessors, from, m);
    var d2 := JoinsOver(c2, predecessors, m + 1, t);
    JoinRoot(a, from, t);
    ForkAgree(jn, root, d1, d2, Tree(JoinTree, c1, predecessors, from, m), Tree(JoinTree, c2, predecessors, m + 1, t),
      JoinsOver(a, predecessors, from, t), Tree(JoinTree, a, predecessors, from, t));
  }

  /** The split case of `JoinsOver`, unfolded once. */
  lemma JoinsSplit(a: Anchor, predecessors: seq<Endpoint>, from: nat, t: nat)
    requires from + 2 <= t < |predecessors| && (from + t) % 2 == 0
    ensures var jn := Join(a, from, t);
      var d1 := JoinsOver(Child(JoinTree, a, from, t, "in1"), predecessors, from, Mid(from, t));
      var d2 := JoinsOver(Child(JoinTree, a, from, t, "in2"), predecessors, Mid(from, t) + 1, t);
      JoinsOver(a, predecessors, from, t) ==
        if d1.None? || d2.None? then None
        else Some(GraphValue([jn] + d1.value.nodes + d2.value.nodes,
          d1.value.edges + d2.value.edges + [Wire(Endpoint(jn.v, "to"), AnchorEnd(a))]))
  {
  }

  /** The split case of `Tree`, unfolded once. */
  lemma TreeSplit(k: Kind, a: Anchor, ends: seq<Endpoint>, from: nat, t: nat)
    requires from + 2 <= t < |ends|
    ensures Tree(k, a, ends, from, t) == Fork(k, AnchorEnd(a), TreeNode(k, a, from, t),
      Tree(k, Child(k, a, from, t, Inner1(k)), ends, from, Mid(from, t)),
      Tree(k, Child(k, a, from, t, Inner2(k)), ends, Mid(from, t) + 1, t))
  {
  }

  /** The root node and root edge of a join tree. */
  lemma JoinRoot(a: Anchor, from: nat, t: nat)
    ensures TreeNode(JoinTree, a, from, t) == Join(a, from, t)
    ensures Flow(JoinTree, AnchorEnd(a), Endpoint(Join(a, from, t).v, RootPort(JoinTree)))
      == Wire(Endpoint(Join(a, from, t).v, "to"), AnchorEnd(a))
    ensures Inner1(JoinTree) == "in1" && Inner2(JoinTree) == "in2"
  {
  }

  /** A join fork built from halves equal to the tree's halves is the tree. */
  lemma ForkAgree(jn: Node, root: Edge, d1: Option<GraphValue>, d2: Option<GraphValue>,
    l: GraphValue, r: GraphValue, whole: Option<GraphValue>, tree: GraphValue)
    requires d1.Some? ==> d1.value == l
    requires d2.Some? ==> d2.value == r
    requires whole == if d1.None? || d2.None? then None
      else Some(GraphValue([jn] + d1.value.nodes + d2.value.nodes, d1.value.edges + d2.value.edges + [root]))
    requires tree == GraphValue([jn] + (l.nodes + r.nodes), l.edges + r.edges + [root])
    ensures whole.Some? ==> whole.value == tree
  {
    if whole.Some? {
      assert [jn] + l.nodes + r.nodes == [jn] + (l.nodes + r.nodes);
    }
  }

  /** The range sizes for which the join tree as written terminates. */
  predicate Terminating(size: int)
  {
    size == 1 || size == 2 || size == 3 || size == 5
  }

  /** The join tree as written is built exactly for ranges of 1, 2, 3 or 5
      producers; every other range reaches an odd split somewhere (four
      producers is the smallest such input) and overflows the stack. */
  lemma CreateJoinsTerminates(a: Anchor, predecessors: seq<Endpoint>, from: nat, to: nat)
    requires to < |predecessors| && from <= EffectiveTo(to, |predecessors|)
    ensures CreateJoins(a, predecessors, from, to).Some? <==> Terminating(EffectiveTo(to, |predecessors|) - from + 1)
  {
    JoinsTerminate(a, predecessors, from, EffectiveTo(to, |predecessors|));
  }

  lemma {:induction false} JoinsTerminate(a: Anchor, predecessors: seq<Endpoint>, from: nat, t: nat)
    requires from <= t < |predecessors|
    ensures JoinsOver(a, predecessors, from, t).Some? <==> Terminating(t - from + 1)
    decreases t - from
  {
    if t - from >= 2 && (from + t) % 2 == 0 {
      var m := Mid(from, t);
      JoinsTerminate(Child(JoinTree, a, from, t, "in1"), predecessors, from, m);
      JoinsTerminate(Child(JoinTree, a, from, t, "in2"), predecessors, m + 1, t);
      var size := t - from + 1;
      assert m - from + 1 == (size + 1) / 2;
      assert t - m == (size - 1) / 2;
    }
  }

  lemma FourPredecessorsOverflow(a: Anchor, predecessors: seq<Endpoint>)
    requires |predecessors| == 4
    ensures CreateJoins(a, predecessors, 0, 0).None?
    ensures |CreateJoinsCorrected(a, predecessors, 0, 0).nodes| == 3
  {
    CreateJoinsTerminates(a, predecessors, 0, 0);
  }

  /** The `to` of the `k`-th call down the left spine below a call on
      `[from, to]`: each left call keeps `from` and takes
      `Math.floor((from + to) / 2)` as its `to`. */
  function LeftSpineTo(from: real, to: int, k: nat): int
  {
    if k == 0 then to else ((from + LeftSpineTo(from, to, k - 1) as real) / 2.0).Floor
  }

  lemma FloorOfWhole(x: real, n: int)
    requires x == n as real
    ensures x.Floor == n
  {
  }

  /** Once `from` is not a whole number (it is then above 1), no call down the
      left spine meets either base case (`to === from`, `to - from === 1`),
      and its `to` stays at least 1, so `to || length - 1` never resets it:
      the recursion does not end. */
  lemma {:induction false} FractionalStartNeverBottomsOut(from: real, to: int, k: nat)
    requires from != from.Floor as real && from > 1.0 && to >= 1
    ensures var t := LeftSpineTo(from, to, k);
      t >= 1 && t as real != from && t as real - from != 1.0
  {
    var t := LeftSpineTo(from, to, k);
    if k > 0 {
      FractionalStartNeverBottomsOut(from, to, k - 1);
      var prev := LeftSpineTo(from, to, k - 1);
      var x := (from + prev as real) / 2.0;
      assert x > 1.0;
      assert t == x.Floor;
    }
    if t as real == from {
      FloorOfWhole(from, t);
    }
    if t as real - from == 1.0 {
      FloorOfWhole(from, t - 1);
    }
  }
}
