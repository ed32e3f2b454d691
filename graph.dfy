/**
 * The part of a networkx Graph that msmolnet/network.py and mol_networking/network.py
 * rely on: nodes in insertion order, undirected edges in insertion order that carry
 * the {cosine, peaks} record, node attribute dictionaries, and connected components.
 * The order of a node's incident edges in networkx is the order in which those edges
 * were first added, which is the global edge order restricted to that node.
 */
module Graphs {
  import opened Wrappers
  import opened Collections
  import opened Spectra
  import opened MatchMaps

  /** An edge (u, v, data); (u, v) and (v, u) name the same undirected edge. */
  datatype Edge<N> = Edge(u: N, v: N, w: Match)

  /** A node attribute value: `str(v)`, a value stored as it is, a flag, or an integer. */
  datatype Attr = Printed(v: Value) | Stored(v: Value) | Flag(b: bool) | Int(i: int)

  type Attrs = map<string, Attr>

  predicate Links<N(==)>(e: Edge<N>, a: N, b: N)
  {
    (e.u == a && e.v == b) || (e.u == b && e.v == a)
  }

  predicate Touches<N(==)>(e: Edge<N>, x: N)
  {
    e.u == x || e.v == x
  }

  /** A graph holds one edge per unordered pair of nodes. */
  predicate UniquePairs<N(==)>(es: seq<Edge<N>>)
  {
    forall p, q :: 0 <= p < q < |es| ==> !Links(es[q], es[p].u, es[p].v)
  }

  /** Every element of a is an element of b. */
  predicate Within<T(==)>(a: seq<T>, b: seq<T>)
  {
    forall x :: x in a ==> x in b
  }

  /** The elements of s that satisfy keep, in their order. */
  function Filter<T>(s: seq<T>, keep: T -> bool): (r: seq<T>)
    ensures |r| <= |s|
    ensures forall k :: 0 <= k < |r| ==> r[k] in s && keep(r[k])
    ensures forall k :: 0 <= k < |s| && keep(s[k]) ==> s[k] in r
  {
    if s == [] then []
    else
      var init := s[..|s| - 1];
      assert s == init + [s[|s| - 1]];
      Filter(init, keep) + if keep(s[|s| - 1]) then [s[|s| - 1]] else []
  }

  lemma {:induction false} FilterDistinct<T>(s: seq<T>, keep: T -> bool)
    requires Distinct(s)
    ensures Distinct(Filter(s, keep))
  {
    if s != [] {
      var init := s[..|s| - 1];
      assert Distinct(init);
      FilterDistinct(init, keep);
      assert s[|s| - 1] !in init;
    }
  }

  /** Keeping some edges of a graph keeps one edge per pair. */
  lemma {:induction false} FilterUniquePairs<N>(es: seq<Edge<N>>, keep: Edge<N> -> bool)
    requires UniquePairs(es)
    ensures UniquePairs(Filter(es, keep))
  {
    if es != [] {
      var n := |es| - 1;
      var init := es[..n];
      assert UniquePairs(init) by {
        forall p, q | 0 <= p < q < |init| ensures !Links(init[q], init[p].u, init[p].v) {
          assert init[p] == es[p] && init[q] == es[q];
        }
      }
      FilterUniquePairs(init, keep);
      var r := Filter(init, keep);
      var t := if keep(es[n]) then [es[n]] else [];
      assert Filter(es, keep) == r + t;
      forall p | 0 <= p < |r| ensures !Links(es[n], r[p].u, r[p].v) {
        assert r[p] in init;
        var k :| 0 <= k < |init| && init[k] == r[p];
        assert es[k] == r[p];
      }
      var s := r + t;
      forall p, q | 0 <= p < q < |s| ensures !Links(s[q], s[p].u, s[p].v) {
        assert s[p] == r[p];
        if q < |r| {
          assert s[q] == r[q];
        } else {
          assert s[q] == es[n];
        }
      }
    }
  }

  /** Two filters can be applied in either order. */
  lemma {:induction false} FilterCommute<T>(s: seq<T>, f: T -> bool, g: T -> bool)
    ensures Filter(Filter(s, f), g) == Filter(Filter(s, g), f)
  {
    if s != [] {
      var init := s[..|s| - 1];
      var x := s[|s| - 1];
      FilterCommute(init, f, g);
      FilterAppend(Filter(init, f), if f(x) then [x] else [], g);
      FilterAppend(Filter(init, g), if g(x) then [x] else [], f);
    }
  }

  lemma {:induction false} FilterAppend<T>(a: seq<T>, b: seq<T>, keep: T -> bool)
    ensures Filter(a + b, keep) == Filter(a, keep) + Filter(b, keep)
  {
    if b == [] {
      assert a + b == a;
    } else {
      var init := b[..|b| - 1];
      assert (a + b)[..|a + b| - 1] == a + init;
      assert (a + b)[|a + b| - 1] == b[|b| - 1];
      FilterAppend(a, init, keep);
    }
  }

  /** The edges after `remove_edge(a, b)`. */
  function RemovePair<N(==)>(es: seq<Edge<N>>, a: N, b: N): seq<Edge<N>>
  {
    Filter(es, (e: Edge<N>) => !Links(e, a, b))
  }

  /** e joins the same pair as one of rs. */
  predicate LinksAny<N(==)>(e: Edge<N>, rs: seq<Edge<N>>)
  {
    exists k :: 0 <= k < |rs| && Links(e, rs[k].u, rs[k].v)
  }

  /** The edges after `remove_edges_from(rs)`; pairs that are not edges are ignored. */
  function Without<N(==)>(es: seq<Edge<N>>, rs: seq<Edge<N>>): seq<Edge<N>>
  {
    Filter(es, (e: Edge<N>) => !LinksAny(e, rs))
  }

  /** The edges at x, in adjacency order: `graph.edges(x)`. */
  function Incident<N(==)>(es: seq<Edge<N>>, x: N): seq<Edge<N>>
  {
    Filter(es, (e: Edge<N>) => Touches(e, x))
  }

  /** The edges with an end in the node set s, in edge order: `graph.edges(s)`. */
  function Touching<N(==)>(es: seq<Edge<N>>, s: set<N>): seq<Edge<N>>
  {
    Filter(es, (e: Edge<N>) => e.u in s || e.v in s)
  }

  /** Removing edges commutes with listing the edges at a node. */
  lemma IncidentWithout<N>(es: seq<Edge<N>>, rs: seq<Edge<N>>, x: N)
    ensures Incident(Without(es, rs), x) == Without(Incident(es, x), rs)
  {
    FilterCommute(es, (e: Edge<N>) => !LinksAny(e, rs), (e: Edge<N>) => Touches(e, x));
  }

  lemma IncidentRemovePair<N>(es: seq<Edge<N>>, a: N, b: N, x: N)
    ensures Incident(RemovePair(es, a, b), x) == RemovePair(Incident(es, x), a, b)
  {
    FilterCommute(es, (e: Edge<N>) => !Links(e, a, b), (e: Edge<N>) => Touches(e, x));
  }

  /** Removing pairs that are not edges leaves the edges as they were. */
  lemma {:induction false} WithoutAbsent<N>(es: seq<Edge<N>>, rs: seq<Edge<N>>)
    requires forall e :: e in es ==> !LinksAny(e, rs)
    ensures Without(es, rs) == es
  {
    if es != [] {
      var init := es[..|es| - 1];
      WithoutAbsent(init, rs);
      assert es == init + [es[|es| - 1]];
    }
  }

  lemma {:induction false} UniquePairsDistinct<N>(es: seq<Edge<N>>)
    requires UniquePairs(es)
    ensures Distinct(es)
  {
    forall p, q | 0 <= p < q < |es| ensures es[p] != es[q] {
      assert !Links(es[q], es[p].u, es[p].v);
    }
  }

  // ---- connected components ----

  /** The nodes at the ends of the edges. */
  function Ends<N(==)>(es: seq<Edge<N>>): set<N>
  {
    (set e | e in es :: e.u) + (set e | e in es :: e.v)
  }

  /** s together with every node one edge away from it. */
  function Spread<N(==)>(es: seq<Edge<N>>, s: set<N>): set<N>
  {
    s + (set e | e in es && e.u in s :: e.v) + (set e | e in es && e.v in s :: e.u)
  }

  lemma SpreadWithin<N>(es: seq<Edge<N>>, s: set<N>)
    ensures s <= Spread(es, s) <= Ends(es) + s
  {
  }

  /** The smallest set of nodes that holds s and is closed under the edges. */
  function Close<N(==)>(es: seq<Edge<N>>, s: set<N>): set<N>
    decreases |Ends(es) + s| - |s|
  {
    var next := Spread(es, s);
    SpreadWithin(es, s);
    SubsetCount(s, Ends(es) + s);
    if next == s then s
    else
      assert Ends(es) + next == Ends(es) + s;
      assert next == s + (next - s) && s * (next - s) == {} && next - s != {};
      Close(es, next)
  }

  /** `node_connected_component(graph, x)`. */
  function Component<N(==)>(es: seq<Edge<N>>, x: N): set<N>
  {
    Close(es, {x})
  }

  /** `has_path(graph, a, b)`: b lies in the component of a. */
  predicate Connected<N(==)>(es: seq<Edge<N>>, a: N, b: N)
  {
    b in Component(es, a)
  }

  /** No edge leaves s: an edge has both ends in s or neither. */
  ghost predicate Closed<N>(es: seq<Edge<N>>, s: set<N>)
  {
    forall e :: e in es ==> (e.u in s <==> e.v in s)
  }

  lemma {:induction false} CloseFacts<N>(es: seq<Edge<N>>, s: set<N>)
    ensures s <= Close(es, s)
    ensures Closed(es, Close(es, s))
    decreases |Ends(es) + s| - |s|
  {
    var next := Spread(es, s);
    SpreadWithin(es, s);
    SubsetCount(s, Ends(es) + s);
    if next != s {
      assert Ends(es) + next == Ends(es) + s;
      assert next == s + (next - s) && s * (next - s) == {} && next - s != {};
      CloseFacts(es, next);
    } else {
      forall e | e in es ensures e.u in s <==> e.v in s {
        assert e.u in s ==> e.v in next;
        assert e.v in s ==> e.u in next;
      }
    }
  }

  lemma {:induction false} CloseLeast<N>(es: seq<Edge<N>>, s: set<N>, t: set<N>)
    requires s <= t && Closed(es, t)
    ensures Close(es, s) <= t
    decreases |Ends(es) + s| - |s|
  {
    var next := Spread(es, s);
    SpreadWithin(es, s);
    SubsetCount(s, Ends(es) + s);
    if next != s {
      assert Ends(es) + next == Ends(es) + s;
      assert next == s + (next - s) && s * (next - s) == {} && next - s != {};
      assert next <= t;
      CloseLeast(es, next, t);
    }
  }

  /** The component holds its node and no edge leaves it. */
  lemma ComponentFacts<N>(es: seq<Edge<N>>, x: N)
    ensures x in Component(es, x)
    ensures Closed(es, Component(es, x))
    ensures |Component(es, x)| >= 1
  {
    CloseFacts(es, {x});
  }

  /** It is the least such set. */
  lemma ComponentLeast<N>(es: seq<Edge<N>>, x: N, t: set<N>)
    requires x in t && Closed(es, t)
    ensures Component(es, x) <= t
  {
    CloseLeast(es, {x}, t);
  }

  /** Components only shrink when edges are removed. */
  lemma ComponentMono<N>(es: seq<Edge<N>>, fewer: seq<Edge<N>>, x: N)
    requires Within(fewer, es)
    ensures Component(fewer, x) <= Component(es, x)
  {
    ComponentFacts(es, x);
    ComponentLeast(fewer, x, Component(es, x));
  }

  /** A component does not meet a closed set that misses its node. */
  lemma ComponentAvoids<N>(es: seq<Edge<N>>, x: N, t: set<N>)
    requires Closed(es, t) && x !in t
    ensures Component(es, x) * t == {}
  {
    var c := Component(es, x);
    ComponentFacts(es, x);
    ComponentLeast(es, x, c - t);
  }

  /** Nodes of one component share it. */
  lemma ComponentSame<N>(es: seq<Edge<N>>, x: N, y: N)
    requires y in Component(es, x)
    ensures Component(es, y) == Component(es, x)
  {
    ComponentFacts(es, x);
    ComponentFacts(es, y);
    ComponentLeast(es, y, Component(es, x));
    if x !in Component(es, y) {
      ComponentAvoids(es, x, Component(es, y));
      assert false;
    }
    ComponentLeast(es, x, Component(es, y));
  }

  lemma ConnectedSymmetric<N>(es: seq<Edge<N>>, a: N, b: N)
    ensures Connected(es, a, b) <==> Connected(es, b, a)
  {
    ComponentFacts(es, a);
    ComponentFacts(es, b);
    if Connected(es, a, b) {
      ComponentSame(es, a, b);
    }
    if Connected(es, b, a) {
      ComponentSame(es, b, a);
    }
  }

  /** A node whose only edges are self-loops is a component of its own. */
  lemma ComponentIsolated<N>(es: seq<Edge<N>>, x: N)
    requires forall e :: e in es && Touches(e, x) ==> e.u == e.v
    ensures Component(es, x) == {x}
  {
    ComponentFacts(es, x);
    ComponentLeast(es, x, {x});
  }

  /**
   * Removing an edge whose ends stay connected (a cycle edge) leaves every
   * component as it was.
   */
  lemma RemoveCycleEdge<N>(es: seq<Edge<N>>, a: N, b: N, x: N)
    requires Connected(RemovePair(es, a, b), a, b)
    ensures Component(RemovePair(es, a, b), x) == Component(es, x)
  {
    var fewer := RemovePair(es, a, b);
    var c := Component(fewer, x);
    ComponentMono(es, fewer, x);
    ComponentFacts(fewer, x);
    forall e | e in es ensures e.u in c <==> e.v in c {
      if Links(e, a, b) {
        if a in c {
          ComponentSame(fewer, x, a);
        }
        if b in c {
          ComponentSame(fewer, x, b);
          ConnectedSymmetric(fewer, a, b);
        }
      } else {
        assert e in fewer;
      }
    }
    ComponentLeast(es, x, c);
  }

  /**
   * The networkx graph object: its node list, its edges and the attribute dictionary
   * of each node (a node missing from attrs has the empty dictionary).
   */
  class Graph<N(==)> {
    var nodes: seq<N>
    var edges: seq<Edge<N>>
    var attrs: map<N, Attrs>

    /** What networkx keeps true: nodes once each, one edge per pair, edges between nodes. */
    ghost predicate Valid()
      reads this
    {
      Distinct(nodes) && UniquePairs(edges) && forall e :: e in edges ==> e.u in nodes && e.v in nodes
    }

    /** `nx.Graph(data)`: the nodes data names, then its edges in order. */
    constructor (keys: seq<N>, stream: seq<Edge<N>>)
      ensures Valid()
      ensures nodes == BuiltNodes(keys, stream) && edges == EdgesOf(stream) && attrs == map[]
    {
      nodes := BuiltNodes(keys, stream);
      edges := EdgesOf(stream);
      attrs := map[];
      BuiltValid(keys, stream);
    }

    /** The attribute dictionary of x. */
    function AttrsOf(x: N): Attrs
      reads this
    {
      if x in attrs then attrs[x] else map[]
    }

    /** `add_node(x, **extra)`: adds x at the end if it is new, then updates its attributes. */
    method AddNode(x: N, extra: Attrs)
      requires Valid()
      modifies this`nodes, this`attrs
      ensures Valid()
      ensures nodes == AddNodeTo(old(nodes), x)
      ensures attrs == old(attrs)[x := old(AttrsOf(x)) + extra]
    {
      if x !in nodes {
        nodes := nodes + [x];
      }
      attrs := attrs[x := AttrsOf(x) + extra];
    }

    /**
     * `set_node_attributes(graph, values)`: every node of the graph named in values
     * gets those keys added to its dictionary; other names are ignored.
     */
    method SetNodeAttributes(values: map<N, Attrs>)
      requires Valid()
      modifies this`attrs
      ensures Valid()
      ensures attrs == Merged(old(attrs), values, nodes)
    {
      attrs := Merged(attrs, values, nodes);
    }

    /** `remove_edge(a, b)`. */
    method RemoveEdge(a: N, b: N)
      requires Valid()
      modifies this`edges
      ensures Valid()
      ensures edges == RemovePair(old(edges), a, b)
    {
      FilterUniquePairs(edges, (e: Edge<N>) => !Links(e, a, b));
      edges := RemovePair(edges, a, b);
    }

    /** `remove_edges_from(rs)`. */
    method RemoveEdgesFrom(rs: seq<Edge<N>>)
      requires Valid()
      modifies this`edges
      ensures Valid()
      ensures edges == Without(old(edges), rs)
    {
      FilterUniquePairs(edges, (e: Edge<N>) => !LinksAny(e, rs));
      edges := Without(edges, rs);
    }
  }

  // ---- building a graph ----

  /** Node dictionaries after updating those of the given nodes with values. */
  function Merged<N(==)>(attrs: map<N, Attrs>, values: map<N, Attrs>, nodes: seq<N>): map<N, Attrs>
  {
    map n | n in attrs.Keys + (values.Keys * Elements(nodes)) ::
      (if n in attrs then attrs[n] else map[]) + (if n in values && n in nodes then values[n] else map[])
  }

  function AddNodeTo<N(==)>(ns: seq<N>, x: N): seq<N>
  {
    if x in ns then ns else ns + [x]
  }

  /** The node list after adding xs one by one. */
  function AddNodes<N(==)>(ns: seq<N>, xs: seq<N>): seq<N>
  {
    if xs == [] then ns else AddNodeTo(AddNodes(ns, xs[..|xs| - 1]), xs[|xs| - 1])
  }

  /**
   * Adding nodes keeps the nodes already there, in their places, adds each new one
   * once, and adds nothing else.
   */
  lemma {:induction false} AddNodesFacts<N>(ns: seq<N>, xs: seq<N>)
    ensures Distinct(ns) ==> Distinct(AddNodes(ns, xs))
    ensures forall x :: x in AddNodes(ns, xs) <==> x in ns || x in xs
    ensures |ns| <= |AddNodes(ns, xs)| && AddNodes(ns, xs)[..|ns|] == ns
  {
    if xs != [] {
      var init := xs[..|xs| - 1];
      AddNodesFacts(ns, init);
      assert forall x :: x in xs <==> x in init || x == xs[|xs| - 1];
    }
  }

  /** Nodes that are all new are appended in their order. */
  lemma {:induction false} AddNodesFresh<N>(ns: seq<N>, xs: seq<N>)
    requires Distinct(xs) && forall x :: x in xs ==> x !in ns
    ensures AddNodes(ns, xs) == ns + xs
  {
    if xs != [] {
      var init := xs[..|xs| - 1];
      assert Distinct(init);
      AddNodesFresh(ns, init);
      assert xs[|xs| - 1] !in init;
      assert xs == init + [xs[|xs| - 1]];
    }
  }

  /** The endpoints of the edges, u before v, in edge order. */
  function Endpoints<N>(stream: seq<Edge<N>>): seq<N>
  {
    if stream == [] then [] else Endpoints(stream[..|stream| - 1]) + [stream[|stream| - 1].u, stream[|stream| - 1].v]
  }

  lemma {:induction false} EndpointsMembers<N>(stream: seq<Edge<N>>)
    ensures forall x :: x in Endpoints(stream) <==> exists k :: 0 <= k < |stream| && Touches(stream[k], x)
  {
    if stream != [] {
      var n := |stream| - 1;
      EndpointsMembers(stream[..n]);
      assert forall k :: 0 <= k < n ==> stream[..n][k] == stream[k];
      forall x | exists k :: 0 <= k < |stream| && Touches(stream[k], x)
        ensures x in Endpoints(stream)
      {
        var k :| 0 <= k < |stream| && Touches(stream[k], x);
        if k < n {
          assert Touches(stream[..n][k], x);
        }
      }
    }
  }

  /** The nodes of `nx.Graph(data)`: the keys of a dictionary input first, then edge ends. */
  function BuiltNodes<N(==)>(keys: seq<N>, stream: seq<Edge<N>>): seq<N>
  {
    AddNodes(AddNodes([], keys), Endpoints(stream))
  }

  /** The position of the edge joining a and b. */
  function PairIndex<N(==)>(es: seq<Edge<N>>, a: N, b: N): (r: Option<nat>)
    ensures r.Some? ==> r.value < |es| && Links(es[r.value], a, b)
    ensures r.None? <==> forall k :: 0 <= k < |es| ==> !Links(es[k], a, b)
  {
    if es == [] then None
    else if Links(es[|es| - 1], a, b) then Some(|es| - 1)
    else
      var r := PairIndex(es[..|es| - 1], a, b);
      assert forall k :: 0 <= k < |es| - 1 ==> es[..|es| - 1][k] == es[k];
      r
  }

  /** The record on the edge joining a and b, if there is one. */
  function Weight<N(==)>(es: seq<Edge<N>>, a: N, b: N): Option<Match>
  {
    match PairIndex(es, a, b)
    case Some(k) => Some(es[k].w)
    case None => None
  }

  /**
   * `add_edge(u, v, **data)`: a new pair is appended; for a pair already present the
   * record is replaced and the edge keeps its place.
   */
  function AddEdge<N(==)>(es: seq<Edge<N>>, e: Edge<N>): seq<Edge<N>>
  {
    match PairIndex(es, e.u, e.v)
    case Some(k) => es[k := Edge(es[k].u, es[k].v, e.w)]
    case None => es + [e]
  }

  /** The edges of `nx.Graph(data)`: `add_edge` for each (u, v, record) of the data, in order. */
  function EdgesOf<N(==)>(stream: seq<Edge<N>>): seq<Edge<N>>
  {
    if stream == [] then [] else AddEdge(EdgesOf(stream[..|stream| - 1]), stream[|stream| - 1])
  }

  /** The record of the last element of the stream joining a and b. */
  function LastRecord<N(==)>(stream: seq<Edge<N>>, a: N, b: N): (r: Option<Match>)
    ensures r.None? <==> forall k :: 0 <= k < |stream| ==> !Links(stream[k], a, b)
  {
    if stream == [] then None
    else if Links(stream[|stream| - 1], a, b) then Some(stream[|stream| - 1].w)
    else
      var r := LastRecord(stream[..|stream| - 1], a, b);
      assert forall k :: 0 <= k < |stream| - 1 ==> stream[..|stream| - 1][k] == stream[k];
      r
  }

  /** With one edge per pair, the lookup finds the one edge joining a and b. */
  lemma PairIndexUnique<N>(es: seq<Edge<N>>, k: nat, a: N, b: N)
    requires UniquePairs(es) && k < |es| && Links(es[k], a, b)
    ensures PairIndex(es, a, b) == Some(k)
  {
    var j := PairIndex(es, a, b).value;
    assert Links(es[j], a, b);
  }

  lemma AddEdgeUnique<N>(es: seq<Edge<N>>, e: Edge<N>)
    requires UniquePairs(es)
    ensures UniquePairs(AddEdge(es, e))
  {
  }

  /** After `add_edge(e)`, the pair of e carries e's record and every other pair keeps its own. */
  lemma AddEdgeWeight<N>(es: seq<Edge<N>>, e: Edge<N>, a: N, b: N)
    requires UniquePairs(es)
    ensures Weight(AddEdge(es, e), a, b) == if Links(e, a, b) then Some(e.w) else Weight(es, a, b)
  {
    var added := AddEdge(es, e);
    AddEdgeUnique(es, e);
    var at := PairIndex(es, e.u, e.v);
    var k := if at.Some? then at.value else |es|;
    assert k < |added| && Links(added[k], e.u, e.v) && added[k].w == e.w;
    assert forall i :: 0 <= i < |es| && i != k ==> added[i] == es[i];
    if Links(e, a, b) {
      PairIndexUnique(added, k, a, b);
    } else if PairIndex(es, a, b).Some? {
      PairIndexUnique(added, PairIndex(es, a, b).value, a, b);
    }
  }

  /**
   * The graph `nx.Graph(data)` builds holds one edge per pair, and the record of a
   * pair is the last record the data gives for it.
   */
  lemma {:induction false} EdgesOfLookup<N>(stream: seq<Edge<N>>, a: N, b: N)
    ensures UniquePairs(EdgesOf(stream))
    ensures Weight(EdgesOf(stream), a, b) == LastRecord(stream, a, b)
  {
    if stream != [] {
      var n := |stream| - 1;
      EdgesOfLookup(stream[..n], a, b);
      AddEdgeUnique(EdgesOf(stream[..n]), stream[n]);
      AddEdgeWeight(EdgesOf(stream[..n]), stream[n], a, b);
    }
  }

  /** Each built edge joins its ends the way some element of the data does. */
  lemma {:induction false} EdgesOfEnds<N>(stream: seq<Edge<N>>, i: nat)
    requires i < |EdgesOf(stream)|
    ensures exists k :: 0 <= k < |stream| && EdgesOf(stream)[i].u == stream[k].u && EdgesOf(stream)[i].v == stream[k].v
  {
    var n := |stream| - 1;
    var es := EdgesOf(stream[..n]);
    if i < |es| {
      assert EdgesOf(stream)[i].u == es[i].u && EdgesOf(stream)[i].v == es[i].v;
      EdgesOfEnds(stream[..n], i);
      var k :| 0 <= k < n && es[i].u == stream[..n][k].u && es[i].v == stream[..n][k].v;
      assert stream[k] == stream[..n][k];
    } else {
      assert EdgesOf(stream)[i] == stream[n];
    }
  }

  /** A node of `nx.Graph(data)` is a key of the data or the end of one of its edges. */
  lemma BuiltNodesMember<N>(keys: seq<N>, stream: seq<Edge<N>>, x: N)
    ensures x in BuiltNodes(keys, stream) <==> x in keys || exists k :: 0 <= k < |stream| && Touches(stream[k], x)
  {
    AddNodesFacts([], keys);
    AddNodesFacts(AddNodes([], keys), Endpoints(stream));
    EndpointsMembers(stream);
  }

  /**
   * `nx.Graph(data)` is a valid graph whose nodes are the data's keys and edge ends,
   * keys first and each once.
   */
  lemma BuiltValid<N>(keys: seq<N>, stream: seq<Edge<N>>)
    ensures Distinct(BuiltNodes(keys, stream)) && UniquePairs(EdgesOf(stream))
    ensures forall x :: x in BuiltNodes(keys, stream) <==>
              x in keys || exists k :: 0 <= k < |stream| && Touches(stream[k], x)
    ensures forall e :: e in EdgesOf(stream) ==> e.u in BuiltNodes(keys, stream) && e.v in BuiltNodes(keys, stream)
  {
    AddNodesFacts([], keys);
    AddNodesFacts(AddNodes([], keys), Endpoints(stream));
    EndpointsMembers(stream);
    if stream != [] {
      EdgesOfLookup(stream, stream[0].u, stream[0].v);
    } else {
      assert UniquePairs<N>([]);
    }
    forall e | e in EdgesOf(stream) ensures e.u in BuiltNodes(keys, stream) && e.v in BuiltNodes(keys, stream) {
      var i :| 0 <= i < |EdgesOf(stream)| && EdgesOf(stream)[i] == e;
      EdgesOfEnds(stream, i);
      var k :| 0 <= k < |stream| && e.u == stream[k].u && e.v == stream[k].v;
      assert Touches(stream[k], e.u) && Touches(stream[k], e.v);
    }
  }
}
