/**
 * mol_networking/network.py, make_network: the graph of the edge data with every given
 * node added after it, coloured 1 and labelled with its name when it has one, coloured 0
 * otherwise. The two filters of that file are the members of Filters and Families.
 */
module MolNetwork {
  import opened Wrappers
  import opened Spectra
  import opened Graphs

  /** The keyword attributes one `add_node` call passes: `name` is what `hasattr` finds. */
  function Colouring(name: Option<string>): (r: Attrs)
    ensures "colour" in r && r["colour"] == Int(if name.Some? then 1 else 0)
    ensures "ID" in r <==> name.Some?
    ensures name.Some? ==> r["ID"] == Stored(Text(name.value))
    ensures r.Keys <= {"colour", "ID"}
  {
    match name
    case Some(n) => map["colour" := Int(1), "ID" := Stored(Text(n))]
    case None => map["colour" := Int(0)]
  }

  /** The node dictionaries after the loop: each call merges into what the node already has. */
  function Colours<N(==)>(ns: seq<N>, names: seq<Option<string>>): map<N, Attrs>
    requires |ns| == |names|
  {
    if ns == [] then map[]
    else
      var m := Colours(ns[..|ns| - 1], names[..|ns| - 1]);
      var n := ns[|ns| - 1];
      m[n := (if n in m then m[n] else map[]) + Colouring(names[|ns| - 1])]
  }

  /**
   * `make_network(nodes, edges)`: `nx.Graph(edges)` of the edge data, read as its keys
   * (the keys of the match dictionary, [] for a list of triples) and its (u, v, record)
   * triples, then one `add_node` per given node.
   */
  method MakeColouredNetwork<N(==)>(nodes: seq<N>, names: seq<Option<string>>, keys: seq<N>, stream: seq<Edge<N>>)
    returns (g: Graph<N>)
    requires |names| == |nodes|
    ensures fresh(g) && g.Valid()
    ensures g.nodes == AddNodes(BuiltNodes(keys, stream), nodes)
    ensures g.edges == EdgesOf(stream)
    ensures g.attrs == Colours(nodes, names)
  {
    g := new Graph(keys, stream);
    for k := 0 to |nodes|
      invariant g.Valid()
      invariant g.nodes == AddNodes(BuiltNodes(keys, stream), nodes[..k])
      invariant g.edges == EdgesOf(stream)
      invariant g.attrs == Colours(nodes[..k], names[..k])
    {
      assert nodes[..k + 1][..k] == nodes[..k] && names[..k + 1][..k] == names[..k];
      g.AddNode(nodes[k], Colouring(names[k]));
    }
    assert nodes[..|nodes|] == nodes && names[..|nodes|] == names;
  }

  /** k is the last position of x in ns. */
  ghost predicate LastIn<N>(ns: seq<N>, k: int, x: N)
  {
    0 <= k < |ns| && ns[k] == x && forall j :: k < j < |ns| ==> ns[j] != x
  }

  /** The given nodes, and only they, carry attributes; each has a colour and at most an ID besides. */
  lemma {:induction false} ColoursKeys<N>(ns: seq<N>, names: seq<Option<string>>, x: N)
    requires |ns| == |names|
    ensures x in Colours(ns, names) <==> x in ns
    ensures x in Colours(ns, names) ==> "colour" in Colours(ns, names)[x] && Colours(ns, names)[x].Keys <= {"colour", "ID"}
  {
    if ns != [] {
      var n := |ns| - 1;
      ColoursKeys(ns[..n], names[..n], x);
      assert ns == ns[..n] + [ns[n]];
    }
  }

  /** A node's colour is set by its last occurrence: 1 when that one has a name, else 0. */
  lemma {:induction false} ColourLast<N>(ns: seq<N>, names: seq<Option<string>>, k: int)
    requires |ns| == |names| && 0 <= k < |ns| && LastIn(ns, k, ns[k])
    ensures ns[k] in Colours(ns, names)
    ensures "colour" in Colours(ns, names)[ns[k]] && Colours(ns, names)[ns[k]]["colour"] == Int(if names[k].Some? then 1 else 0)
  {
    var n := |ns| - 1;
    if k < n {
      assert LastIn(ns[..n], k, ns[k]);
      ColourLast(ns[..n], names[..n], k);
    }
  }

  /** A node whose last occurrence has a name is labelled with that name. */
  lemma {:induction false} IdentifiedLast<N>(ns: seq<N>, names: seq<Option<string>>, k: int)
    requires |ns| == |names| && 0 <= k < |ns| && LastIn(ns, k, ns[k]) && names[k].Some?
    ensures ns[k] in Colours(ns, names)
    ensures "ID" in Colours(ns, names)[ns[k]] && Colours(ns, names)[ns[k]]["ID"] == Stored(Text(names[k].value))
  {
    var n := |ns| - 1;
    if k < n {
      assert LastIn(ns[..n], k, ns[k]);
      IdentifiedLast(ns[..n], names[..n], k);
    }
  }

  /** A node none of whose occurrences has a name gets no ID. */
  lemma {:induction false} UnnamedNoId<N>(ns: seq<N>, names: seq<Option<string>>, x: N)
    requires |ns| == |names| && x in Colours(ns, names)
    requires forall k :: 0 <= k < |ns| && ns[k] == x ==> names[k].None?
    ensures "ID" !in Colours(ns, names)[x]
  {
    var n := |ns| - 1;
    if ns[n] != x {
      UnnamedNoId(ns[..n], names[..n], x);
    } else {
      var m := Colours(ns[..n], names[..n]);
      if x in m {
        UnnamedNoId(ns[..n], names[..n], x);
      }
    }
  }

  /**
   * In the graph make_network returns, a given node with a name is coloured 1 and carries
   * that name as its ID, one without is coloured 0, and a node the edges alone name has no
   * attributes; the edges are those of the data.
   */
  lemma ColouredNetwork<N>(nodes: seq<N>, names: seq<Option<string>>, keys: seq<N>, stream: seq<Edge<N>>, k: int, x: N)
    requires |names| == |nodes| && 0 <= k < |nodes| && LastIn(nodes, k, nodes[k])
    ensures nodes[k] in Colours(nodes, names) && nodes[k] in AddNodes(BuiltNodes(keys, stream), nodes)
    ensures "colour" in Colours(nodes, names)[nodes[k]] && Colours(nodes, names)[nodes[k]]["colour"] == Int(if names[k].Some? then 1 else 0)
    ensures names[k].Some? ==> "ID" in Colours(nodes, names)[nodes[k]] && Colours(nodes, names)[nodes[k]]["ID"] == Stored(Text(names[k].value))
    ensures x !in nodes ==> x !in Colours(nodes, names)
  {
    ColourLast(nodes, names, k);
    if names[k].Some? {
      IdentifiedLast(nodes, names, k);
    }
    ColoursKeys(nodes, names, x);
    AddNodesFacts(BuiltNodes(keys, stream), nodes);
  }
}
