/**
 * msmolnet/network.py: the match dictionary becomes a networkx graph whose nodes carry
 * the spectra's metadata, and two filters prune that graph in place. The filters of
 * mol_networking/network.py are the same code and are modelled by the same members.
 */
module Network {
  import opened Wrappers
  import opened Collections
  import opened Spectra
  import opened MatchMaps
  import opened Sorting
  import opened Graphs

  // ---- the graph make_network starts from ----

  /**
   * A dictionary of dictionaries as Python iterates it: (key, [(key2, record), ...]),
   * both levels in insertion order.
   */
  type Dict<N> = seq<(N, seq<(N, Match)>)>

  function DictKeys<N>(d: Dict<N>): (r: seq<N>)
    ensures |r| == |d| && forall i :: 0 <= i < |d| ==> r[i] == d[i].0
  {
    seq(|d|, i requires 0 <= i < |d| => d[i].0)
  }

  /** The (u, v, record) triples `nx.Graph(d)` adds, in iteration order. */
  function Flatten<N>(d: Dict<N>): seq<Edge<N>>
  {
    if d == [] then []
    else
      var last := d[|d| - 1];
      Flatten(d[..|d| - 1]) + seq(|last.1|, j requires 0 <= j < |last.1| => Edge(last.0, last.1[j].0, last.1[j].1))
  }

  /** e is the triple of entry j of item i. */
  ghost predicate EntryAt<N>(d: Dict<N>, i: int, j: int, e: Edge<N>)
  {
    0 <= i < |d| && 0 <= j < |d[i].1| && e == Edge(d[i].0, d[i].1[j].0, d[i].1[j].1)
  }

  lemma {:induction false} FlattenMembers<N>(d: Dict<N>, e: Edge<N>)
    ensures e in Flatten(d) <==> exists i, j :: EntryAt(d, i, j, e)
  {
    if d != [] {
      var n := |d| - 1;
      FlattenMembers(d[..n], e);
      var tail := seq(|d[n].1|, j requires 0 <= j < |d[n].1| => Edge(d[n].0, d[n].1[j].0, d[n].1[j].1));
      assert Flatten(d) == Flatten(d[..n]) + tail;
      if exists i, j :: EntryAt(d[..n], i, j, e) {
        var i, j :| EntryAt(d[..n], i, j, e);
        assert EntryAt(d, i, j, e);
      }
      if e in tail {
        var j :| 0 <= j < |tail| && tail[j] == e;
        assert EntryAt(d, n, j, e);
      }
      if exists i, j :: EntryAt(d, i, j, e) {
        var i, j :| EntryAt(d, i, j, e);
        if i < n {
          assert EntryAt(d[..n], i, j, e);
        } else {
          assert tail[j] == e;
        }
      }
    }
  }

  function InnerKeys<N>(items: seq<(N, Match)>): (r: seq<N>)
    ensures |r| == |items| && forall j :: 0 <= j < |items| ==> r[j] == items[j].0
  {
    seq(|items|, j requires 0 <= j < |items| => items[j].0)
  }

  /** Python keeps each key of a dictionary once, at both levels. */
  ghost predicate IsDict<N>(d: Dict<N>)
  {
    Distinct(DictKeys(d)) && forall i :: 0 <= i < |d| ==> Distinct(InnerKeys(d[i].1))
  }

  /** The inner dictionary the items spell. */
  function InnerMap<N(==)>(items: seq<(N, Match)>): map<N, Match>
  {
    if items == [] then map[] else InnerMap(items[..|items| - 1])[items[|items| - 1].0 := items[|items| - 1].1]
  }

  /** The match map the dictionary spells. */
  function ToMap<N(==)>(d: Dict<N>): MatchMap<N>
  {
    if d == [] then map[] else ToMap(d[..|d| - 1])[d[|d| - 1].0 := InnerMap(d[|d| - 1].1)]
  }

  lemma {:induction false} InnerMapAt<N>(items: seq<(N, Match)>, j: nat)
    requires Distinct(InnerKeys(items)) && j < |items|
    ensures items[j].0 in InnerMap(items) && InnerMap(items)[items[j].0] == items[j].1
  {
    var n := |items| - 1;
    if j < n {
      assert InnerKeys(items[..n]) == InnerKeys(items)[..n];
      InnerMapAt(items[..n], j);
      assert InnerKeys(items)[j] != InnerKeys(items)[n];
    }
  }

  lemma {:induction false} InnerMapHas<N>(items: seq<(N, Match)>, b: N)
    requires b in InnerMap(items)
    ensures exists j :: 0 <= j < |items| && items[j].0 == b
  {
    var n := |items| - 1;
    if items[n].0 != b {
      InnerMapHas(items[..n], b);
      var j :| 0 <= j < n && items[..n][j].0 == b;
      assert items[j] == items[..n][j];
    }
  }

  lemma {:induction false} ToMapAt<N>(d: Dict<N>, i: nat)
    requires Distinct(DictKeys(d)) && i < |d|
    ensures d[i].0 in ToMap(d) && ToMap(d)[d[i].0] == InnerMap(d[i].1)
  {
    var n := |d| - 1;
    if i < n {
      assert DictKeys(d[..n]) == DictKeys(d)[..n];
      ToMapAt(d[..n], i);
      assert DictKeys(d)[i] != DictKeys(d)[n];
    }
  }

  /** The keys of the map are the keys of the dictionary. */
  lemma {:induction false} ToMapKeys<N>(d: Dict<N>, a: N)
    ensures a in ToMap(d) <==> exists i :: 0 <= i < |d| && d[i].0 == a
  {
    if d != [] {
      var n := |d| - 1;
      ToMapKeys(d[..n], a);
      if exists i :: 0 <= i < n && d[..n][i].0 == a {
        var i :| 0 <= i < n && d[..n][i].0 == a;
        assert d[i] == d[..n][i];
      }
      if exists i :: 0 <= i < |d| && d[i].0 == a {
        var i :| 0 <= i < |d| && d[i].0 == a;
        if i < n {
          assert d[..n][i] == d[i];
        }
      }
    }
  }

  /** When every element of the data joining a and b carries r, r is the record of the pair. */
  lemma {:induction false} LastRecordUniform<N>(stream: seq<Edge<N>>, a: N, b: N, r: Match)
    requires forall k :: 0 <= k < |stream| && Links(stream[k], a, b) ==> stream[k].w == r
    ensures LastRecord(stream, a, b).Some? ==> LastRecord(stream, a, b) == Some(r)
  {
    if stream != [] && !Links(stream[|stream| - 1], a, b) {
      var n := |stream| - 1;
      assert forall k :: 0 <= k < n ==> stream[..n][k] == stream[k];
      LastRecordUniform(stream[..n], a, b, r);
    }
  }

  /**
   * `nx.Graph(matches)` for a symmetric match map: the edges are exactly the map's
   * pairs, each carrying the map's {cosine, peaks} record.
   */
  lemma DictEdges<N>(d: Dict<N>, a: N, b: N)
    requires IsDict(d) && Symmetric(ToMap(d))
    ensures Weight(EdgesOf(Flatten(d)), a, b) == Lookup(ToMap(d), a, b)
  {
    var stream := Flatten(d);
    var m := ToMap(d);
    EdgesOfLookup(stream, a, b);
    forall k | 0 <= k < |stream| && Links(stream[k], a, b)
      ensures a in m && b in m[a] && stream[k].w == m[a][b]
    {
      FlattenEntry(d, k);
      var e := stream[k];
      if e.u != a {
        assert e.u == b && e.v == a && b in m && a in m[b];
        assert m[a][b] == m[b][a];
      }
    }
    if Lookup(m, a, b).Some? {
      LastRecordUniform(stream, a, b, m[a][b]);
      EntryFlattened(d, a, b);
    }
  }

  /** Each triple of the data is an entry of the map. */
  lemma FlattenEntry<N>(d: Dict<N>, k: nat)
    requires IsDict(d) && k < |Flatten(d)|
    ensures var e := Flatten(d)[k]; e.u in ToMap(d) && e.v in ToMap(d)[e.u] && ToMap(d)[e.u][e.v] == e.w
  {
    FlattenMembers(d, Flatten(d)[k]);
    var i, j :| EntryAt(d, i, j, Flatten(d)[k]);
    ToMapAt(d, i);
    InnerMapAt(d[i].1, j);
  }

  /** Each entry of the map is a triple of the data. */
  lemma EntryFlattened<N>(d: Dict<N>, a: N, b: N)
    requires IsDict(d) && a in ToMap(d) && b in ToMap(d)[a]
    ensures exists k :: 0 <= k < |Flatten(d)| && Links(Flatten(d)[k], a, b)
  {
    ToMapKeys(d, a);
    var i :| 0 <= i < |d| && d[i].0 == a;
    ToMapAt(d, i);
    InnerMapHas(d[i].1, b);
    var j :| 0 <= j < |d[i].1| && d[i].1[j].0 == b;
    var e := Edge(a, b, d[i].1[j].1);
    assert EntryAt(d, i, j, e);
    FlattenMembers(d, e);
    var k :| 0 <= k < |Flatten(d)| && Flatten(d)[k] == e;
    assert Links(Flatten(d)[k], a, b);
  }

  /** Its nodes are the map's keys. */
  lemma DictNodes<N>(d: Dict<N>, a: N)
    requires IsDict(d) && Symmetric(ToMap(d))
    ensures a in BuiltNodes(DictKeys(d), Flatten(d)) <==> a in ToMap(d)
  {
    var stream := Flatten(d);
    var m := ToMap(d);
    BuiltNodesMember(DictKeys(d), stream, a);
    ToMapKeys(d, a);
    if a in DictKeys(d) {
      var i :| 0 <= i < |d| && DictKeys(d)[i] == a;
      assert d[i].0 == a;
    }
    if exists k :: 0 <= k < |stream| && Touches(stream[k], a) {
      var k :| 0 <= k < |stream| && Touches(stream[k], a);
      FlattenEntry(d, k);
      var e := stream[k];
      if e.v == a {
        assert e.u in m && a in m[e.u];
      }
    }
  }

  /** The keys come first, in the dictionary's order; like every graph, it lists each node once. */
  lemma DictNodeOrder<N>(d: Dict<N>)
    requires Distinct(DictKeys(d))
    ensures Distinct(BuiltNodes(DictKeys(d), Flatten(d)))
    ensures |d| <= |BuiltNodes(DictKeys(d), Flatten(d))| && BuiltNodes(DictKeys(d), Flatten(d))[..|d|] == DictKeys(d)
  {
    var keys := DictKeys(d);
    AddNodesFresh([], keys);
    assert [] + keys == keys;
    AddNodesFacts(keys, Endpoints(Flatten(d)));
  }

  // ---- make_network ----

  /** What `hasattr` finds on a node: its `parameters` and its `library_parameters`. */
  datatype NodeView = NodeView(parameters: Option<map<string, Value>>, library: Option<map<string, Value>>)

  /** A package Spectrum always has parameters, and library parameters once a library match set them. */
  function SpectrumView(s: Spectrum): NodeView
    reads s
  {
    NodeView(Some(s.parameters), s.libraryParameters)
  }

  /** A parameter dictionary with every value passed through `str`. */
  function PrintedAll(ps: map<string, Value>): Attrs
  {
    map key | key in ps :: Printed(ps[key])
  }

  /** The library parameters under keys prefixed with "library_", values as they are. */
  function LibraryAttrs(lib: map<string, Value>): Attrs
  {
    PrefixInjective();
    map key | key in lib :: "library_" + key := Stored(lib[key])
  }

  lemma PrefixInjective()
    ensures forall a: string, b: string :: "library_" + a == "library_" + b ==> a == b
  {
    forall a: string, b: string | "library_" + a == "library_" + b ensures a == b {
      assert a == ("library_" + a)[8..];
      assert b == ("library_" + b)[8..];
    }
  }

  /** One more library key written. */
  lemma LibraryAttrsStep(lib: map<string, Value>, todo: set<string>, key: string)
    requires key in todo && todo <= lib.Keys
    ensures LibraryAttrs(lib - (todo - {key})) == LibraryAttrs(lib - todo)["library_" + key := Stored(lib[key])]
  {
    var done, before := lib - (todo - {key}), lib - todo;
    assert done == before[key := lib[key]];
    LibraryAttrsPut(before, key, lib[key]);
  }

  /** Adding a parameter adds its prefixed key. */
  lemma LibraryAttrsPut(lib: map<string, Value>, key: string, v: Value)
    ensures LibraryAttrs(lib[key := v]) == LibraryAttrs(lib)["library_" + key := Stored(v)]
  {
    var a, b := LibraryAttrs(lib[key := v]), LibraryAttrs(lib)["library_" + key := Stored(v)];
    LibraryPutOld(lib, key, v);
    LibraryPutNew(lib, key, v);
    MapExtensional(a, b);
  }

  lemma LibraryPutOld(lib: map<string, Value>, key: string, v: Value)
    ensures var a, b := LibraryAttrs(lib[key := v]), LibraryAttrs(lib)["library_" + key := Stored(v)];
      forall x :: x in a ==> x in b && a[x] == b[x]
  {
    PrefixInjective();
    var a, b := LibraryAttrs(lib[key := v]), LibraryAttrs(lib)["library_" + key := Stored(v)];
    forall x | x in a ensures x in b && a[x] == b[x] {
      var k :| k in lib[key := v] && x == "library_" + k;
      if k != key {
        assert k in lib;
      }
    }
  }

  lemma LibraryPutNew(lib: map<string, Value>, key: string, v: Value)
    ensures var a, b := LibraryAttrs(lib[key := v]), LibraryAttrs(lib)["library_" + key := Stored(v)];
      forall x :: x in b ==> x in a
  {
    var a, b := LibraryAttrs(lib[key := v]), LibraryAttrs(lib)["library_" + key := Stored(v)];
    forall x | x in b ensures x in a {
      if x != "library_" + key {
        var k :| k in lib && x == "library_" + k;
        assert k in lib[key := v];
      }
    }
  }

  lemma MapExtensional<K, V>(a: map<K, V>, b: map<K, V>)
    requires forall x :: x in a ==> x in b && a[x] == b[x]
    requires forall x :: x in b ==> x in a
    ensures a == b
  {
  }

  /** The dictionary the loop builds for one node: its printed parameters, then its library keys. */
  function Described(view: NodeView): Attrs
  {
    (if view.parameters.Some? then PrintedAll(view.parameters.value) else map[])
      + (if view.library.Some? then LibraryAttrs(view.library.value) else map[])
  }

  function LibraryFlag(view: NodeView): Attrs
  {
    map["library_match" := Flag(view.library.Some?)]
  }

  /** The node dictionaries after the loop's `add_node` calls. */
  function Flags<N(==)>(ns: seq<N>, vs: seq<NodeView>): map<N, Attrs>
    requires |ns| == |vs|
  {
    if ns == [] then map[]
    else
      var m := Flags(ns[..|ns| - 1], vs[..|ns| - 1]);
      var n := ns[|ns| - 1];
      m[n := (if n in m then m[n] else map[]) + LibraryFlag(vs[|ns| - 1])]
  }

  /** The `attributes` dictionary after the loop. */
  function Attributes<N(==)>(ns: seq<N>, vs: seq<NodeView>): map<N, Attrs>
    requires |ns| == |vs|
  {
    if ns == [] then map[]
    else Attributes(ns[..|ns| - 1], vs[..|ns| - 1])[ns[|ns| - 1] := Described(vs[|ns| - 1])]
  }

  /** The inner `for P in N.parameters` loop. */
  method StringifyParameters(ps: map<string, Value>) returns (a: Attrs)
    ensures a == PrintedAll(ps)
  {
    a := map[];
    var todo := ps.Keys;
    while todo != {}
      invariant todo <= ps.Keys
      invariant a == PrintedAll(ps - todo)
      decreases |todo|
    {
      var key :| key in todo;
      a := a[key := Printed(ps[key])];
      todo := todo - {key};
    }
  }

  /** The inner `for L in N.library_parameters` loop, writing into the node's dictionary. */
  method AddLibraryKeys(a: Attrs, lib: map<string, Value>) returns (r: Attrs)
    ensures r == a + LibraryAttrs(lib)
  {
    r := a;
    var todo := lib.Keys;
    NoLibraryKeys(a, lib);
    while todo != {}
      invariant todo <= lib.Keys
      invariant r == a + LibraryAttrs(lib - todo)
      decreases |todo|
    {
      var key :| key in todo;
      r := WriteLibraryKey(a, lib, todo, key, r);
      todo := todo - {key};
    }
    AllKeysDone(lib);
  }

  /** The body of that loop: one library key written. */
  method WriteLibraryKey(a: Attrs, lib: map<string, Value>, todo: set<string>, key: string, r: Attrs)
    returns (r': Attrs)
    requires key in todo && todo <= lib.Keys && r == a + LibraryAttrs(lib - todo)
    ensures r' == a + LibraryAttrs(lib - (todo - {key}))
  {
    LibraryKeyWritten(a, lib, todo, key);
    r' := r["library_" + key := Stored(lib[key])];
  }

  lemma LibraryKeyWritten(a: Attrs, lib: map<string, Value>, todo: set<string>, key: string)
    requires key in todo && todo <= lib.Keys
    ensures a + LibraryAttrs(lib - (todo - {key})) == (a + LibraryAttrs(lib - todo))["library_" + key := Stored(lib[key])]
  {
    LibraryAttrsStep(lib, todo, key);
    OverrideUpdate(a, LibraryAttrs(lib - todo), "library_" + key, Stored(lib[key]));
  }

  lemma NoLibraryKeys(a: Attrs, lib: map<string, Value>)
    ensures a + LibraryAttrs(lib - lib.Keys) == a
  {
    assert lib - lib.Keys == map[];
    assert LibraryAttrs(map[]) == map[];
  }

  lemma AllKeysDone<V>(m: map<string, V>)
    ensures m - {} == m
  {
  }

  /** Writing one key after a merge is the merge with that key written on the right. */
  lemma OverrideUpdate<K, V>(a: map<K, V>, x: map<K, V>, k: K, v: V)
    ensures (a + x)[k := v] == a + x[k := v]
  {
  }

  /** One pass of the node loop: the node is added (once) and flagged, and its dictionary built. */
  method DescribeNode<N(==)>(g: Graph<N>, n: N, view: NodeView) returns (described: Attrs)
    requires g.Valid()
    modifies g`nodes, g`attrs
    ensures g.Valid()
    ensures g.nodes == AddNodeTo(old(g.nodes), n)
    ensures g.attrs == old(g.attrs)[n := old(g.AttrsOf(n)) + LibraryFlag(view)]
    ensures described == Described(view)
  {
    ghost var before := g.AttrsOf(n);
    g.AddNode(n, map[]);
    EmptyMerge(before);
    assert g.attrs == old(g.attrs)[n := before];
    assert g.AttrsOf(n) == before;
    described := map[];
    if view.parameters.Some? {
      described := StringifyParameters(view.parameters.value);
    }
    if view.library.Some? {
      g.AddNode(n, map["library_match" := Flag(true)]);
      described := AddLibraryKeys(described, view.library.value);
    } else {
      g.AddNode(n, map["library_match" := Flag(false)]);
    }
    assert g.attrs == old(g.attrs)[n := before][n := before + LibraryFlag(view)];
    UpdateTwice(old(g.attrs), n, before, before + LibraryFlag(view));
    if view.parameters.None? && view.library.Some? {
      EmptyMerge(LibraryAttrs(view.library.value));
    }
  }

  lemma UpdateTwice<K, V>(m: map<K, V>, k: K, v: V, w: V)
    ensures m[k := v][k := w] == m[k := w]
  {
  }

  lemma EmptyMerge<K, V>(m: map<K, V>)
    ensures map[] + m == m && m + map[] == m
  {
  }

  /**
   * `make_network(nodes, edges)`: the graph of the edge data, every given node added
   * after it, each with library_match set by the presence of library parameters, and
   * finally the collected dictionaries merged into the nodes' attributes.
   */
  method MakeNetwork<N(==)>(nodes: seq<N>, views: seq<NodeView>, keys: seq<N>, stream: seq<Edge<N>>)
    returns (g: Graph<N>)
    requires |views| == |nodes|
    ensures fresh(g) && g.Valid()
    ensures g.nodes == AddNodes(BuiltNodes(keys, stream), nodes)
    ensures g.edges == EdgesOf(stream)
    ensures g.attrs == Merged(Flags(nodes, views), Attributes(nodes, views), g.nodes)
  {
    g := new Graph(keys, stream);
    var attributes: map<N, Attrs> := map[];
    for k := 0 to |nodes|
      invariant g.Valid()
      invariant g.nodes == AddNodes(BuiltNodes(keys, stream), nodes[..k])
      invariant g.edges == EdgesOf(stream)
      invariant g.attrs == Flags(nodes[..k], views[..k])
      invariant attributes == Attributes(nodes[..k], views[..k])
    {
      assert nodes[..k + 1][..k] == nodes[..k] && views[..k + 1][..k] == views[..k];
      var described := DescribeNode(g, nodes[k], views[k]);
      attributes := attributes[nodes[k] := described];
    }
    assert nodes[..|nodes|] == nodes && views[..|nodes|] == views;
    g.SetNodeAttributes(attributes);
  }

  // ---- what make_network leaves on each node ----

  /** k is the last position of x in ns. */
  ghost predicate LastAt<N>(ns: seq<N>, k: int, x: N)
  {
    0 <= k < |ns| && ns[k] == x && forall j :: k < j < |ns| ==> ns[j] != x
  }

  lemma {:induction false} FlagsKeys<N>(ns: seq<N>, vs: seq<NodeView>, x: N)
    requires |ns| == |vs|
    ensures x in Flags(ns, vs) <==> x in ns
    ensures x in Flags(ns, vs) ==> Flags(ns, vs)[x].Keys == {"library_match"}
  {
    if ns != [] {
      var n := |ns| - 1;
      FlagsKeys(ns[..n], vs[..n], x);
      assert ns == ns[..n] + [ns[n]];
    }
  }

  /** A node given several times keeps the flag of its last occurrence. */
  lemma {:induction false} FlagsLast<N>(ns: seq<N>, vs: seq<NodeView>, k: int)
    requires |ns| == |vs| && 0 <= k < |ns| && LastAt(ns, k, ns[k])
    ensures ns[k] in Flags(ns, vs) && Flags(ns, vs)[ns[k]] == LibraryFlag(vs[k])
  {
    var n := |ns| - 1;
    if k == n {
      FlagsKeys(ns[..n], vs[..n], ns[k]);
      var m := Flags(ns[..n], vs[..n]);
      var before: Attrs := if ns[k] in m then m[ns[k]] else map[];
      assert before + LibraryFlag(vs[k]) == LibraryFlag(vs[k]);
    } else {
      assert LastAt(ns[..n], k, ns[k]);
      FlagsLast(ns[..n], vs[..n], k);
    }
  }

  lemma {:induction false} AttributesKeys<N>(ns: seq<N>, vs: seq<NodeView>, x: N)
    requires |ns| == |vs|
    ensures x in Attributes(ns, vs) <==> x in ns
  {
    if ns != [] {
      var n := |ns| - 1;
      AttributesKeys(ns[..n], vs[..n], x);
      assert ns == ns[..n] + [ns[n]];
    }
  }

  /** ... and the dictionary of its last occurrence: `attributes[N] = {}` starts afresh. */
  lemma {:induction false} AttributesLast<N>(ns: seq<N>, vs: seq<NodeView>, k: int)
    requires |ns| == |vs| && 0 <= k < |ns| && LastAt(ns, k, ns[k])
    ensures ns[k] in Attributes(ns, vs) && Attributes(ns, vs)[ns[k]] == Described(vs[k])
  {
    var n := |ns| - 1;
    if k < n {
      assert LastAt(ns[..n], k, ns[k]);
      AttributesLast(ns[..n], vs[..n], k);
    }
  }

  /**
   * In the network make_network returns, a listed node's dictionary is its
   * library_match flag overwritten by the dictionary built for its last occurrence.
   */
  lemma NetworkNodeAttrs<N>(nodes: seq<N>, views: seq<NodeView>, keys: seq<N>, stream: seq<Edge<N>>, k: int)
    requires |views| == |nodes| && 0 <= k < |nodes| && LastAt(nodes, k, nodes[k])
    ensures var attrs := Merged(Flags(nodes, views), Attributes(nodes, views), AddNodes(BuiltNodes(keys, stream), nodes));
      nodes[k] in attrs && attrs[nodes[k]] == LibraryFlag(views[k]) + Described(views[k])
  {
    FlagsLast(nodes, views, k);
    AttributesLast(nodes, views, k);
    AddNodesFacts(BuiltNodes(keys, stream), nodes);
  }

  /** Nodes that only the edge data names get no attributes. */
  lemma NetworkOtherNodes<N>(nodes: seq<N>, views: seq<NodeView>, keys: seq<N>, stream: seq<Edge<N>>, x: N)
    requires |views| == |nodes| && x !in nodes
    ensures x !in Merged(Flags(nodes, views), Attributes(nodes, views), AddNodes(BuiltNodes(keys, stream), nodes))
  {
    FlagsKeys(nodes, views, x);
    AttributesKeys(nodes, views, x);
  }

  /** key is the prefixed name of one of the node's library parameters. */
  predicate LibraryName(view: NodeView, key: string)
  {
    view.library.Some? && |key| >= 8 && key[..8] == "library_" && key[8..] in view.library.value
  }

  /** Every library parameter L is stored, unconverted, under "library_" + L. */
  lemma LibraryKept(view: NodeView)
    requires view.library.Some?
    ensures var d, lib := LibraryFlag(view) + Described(view), view.library.value;
      forall key :: key in lib ==> "library_" + key in d && d["library_" + key] == Stored(lib[key])
  {
    PrefixInjective();
    var lib := view.library.value;
    forall key | key in lib ensures "library_" + key in LibraryAttrs(lib) && LibraryAttrs(lib)["library_" + key] == Stored(lib[key]) {
    }
  }

  /** Every other parameter is stored as its text under its own name. */
  lemma ParametersPrinted(view: NodeView)
    requires view.parameters.Some?
    ensures var d, ps := LibraryFlag(view) + Described(view), view.parameters.value;
      forall key :: key in ps && !LibraryName(view, key) ==> key in d && d[key] == Printed(ps[key])
  {
    var d, ps := LibraryFlag(view) + Described(view), view.parameters.value;
    forall key | key in ps && !LibraryName(view, key) ensures key in d && d[key] == Printed(ps[key]) {
      if view.library.Some? && key in LibraryAttrs(view.library.value) {
        assert false;
      }
    }
  }

  /** library_match says whether the node has library parameters, unless a parameter shadows it. */
  lemma LibraryMatchFlag(view: NodeView)
    requires !LibraryName(view, "library_match")
    requires view.parameters.Some? ==> "library_match" !in view.parameters.value
    ensures var d := LibraryFlag(view) + Described(view);
      "library_match" in d && d["library_match"] == Flag(view.library.Some?)
  {
    if view.library.Some? && "library_match" in LibraryAttrs(view.library.value) {
      assert false;
    }
  }

  /** The node's dictionary holds nothing else. */
  lemma NodeAttrsKeys(view: NodeView, key: string)
    ensures key in LibraryFlag(view) + Described(view) <==>
      key == "library_match" || LibraryName(view, key) || (view.parameters.Some? && key in view.parameters.value)
  {
    if LibraryName(view, key) {
      assert key == "library_" + key[8..];
    }
    if view.library.Some? && key in LibraryAttrs(view.library.value) {
      var l :| l in view.library.value && key == "library_" + l;
      assert key[8..] == l;
    }
  }
}
