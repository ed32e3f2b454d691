/**
 * `filter_family` of msmolnet/network.py (repeated in mol_networking/network.py):
 * while the connected component ("family") of a node has more than M nodes, delete
 * its edges from the lowest cosine upward until one deletion separates the two ends
 * of the deleted edge, then measure the family again. Nodes of a family that has
 * been brought under the bound are not visited again.
 */
module Families {
  import opened Wrappers
  import opened Collections
  import opened MatchMaps
  import opened Graphs
  import opened Filters

  // ---- sequence facts ----

  /** Keeping every element is the only way to keep as many elements as there are. */
  lemma {:induction false} FilterFull<T>(s: seq<T>, keep: T -> bool)
    requires |Filter(s, keep)| == |s|
    ensures Filter(s, keep) == s
  {
    if s != [] {
      var init := s[..|s| - 1];
      assert |Filter(init, keep)| <= |init|;
      FilterFull(init, keep);
      assert s == init + [s[|s| - 1]];
    }
  }

  lemma RemovePairMember<N>(es: seq<Edge<N>>, a: N, b: N, e: Edge<N>)
    ensures e in RemovePair(es, a, b) <==> e in es && !Links(e, a, b)
  {
    var r := RemovePair(es, a, b);
    if e in r {
      var k :| 0 <= k < |r| && r[k] == e;
    }
    if e in es && !Links(e, a, b) {
      var k :| 0 <= k < |es| && es[k] == e;
    }
  }

  lemma TouchingMember<N>(es: seq<Edge<N>>, s: set<N>, e: Edge<N>)
    ensures e in Touching(es, s) <==> e in es && (e.u in s || e.v in s)
  {
    var r := Touching(es, s);
    if e in r {
      var k :| 0 <= k < |r| && r[k] == e;
    }
    if e in es && (e.u in s || e.v in s) {
      var k :| 0 <= k < |es| && es[k] == e;
    }
  }

  lemma LinksAnySnoc<N>(x: Edge<N>, t: seq<Edge<N>>, d: Edge<N>)
    ensures LinksAny(x, t + [d]) <==> LinksAny(x, t) || Links(x, d.u, d.v)
  {
    if LinksAny(x, t + [d]) {
      var j :| 0 <= j < |t + [d]| && Links(x, (t + [d])[j].u, (t + [d])[j].v);
      if j < |t| {
        assert (t + [d])[j] == t[j];
      }
    }
    if LinksAny(x, t) {
      var j :| 0 <= j < |t| && Links(x, t[j].u, t[j].v);
      assert (t + [d])[j] == t[j];
    }
    if Links(x, d.u, d.v) {
      assert (t + [d])[|t|] == d;
    }
  }

  /** Deleting the pair of d and then t is deleting t + [d]. */
  lemma {:induction false} WithoutSnoc<N>(es: seq<Edge<N>>, t: seq<Edge<N>>, d: Edge<N>)
    ensures Without(RemovePair(es, d.u, d.v), t) == Without(es, t + [d])
  {
    if es != [] {
      var init, last := es[..|es| - 1], es[|es| - 1];
      WithoutSnoc(init, t, d);
      assert es == init + [last];
      WithoutSnocLast(init, last, t, d);
    }
  }

  lemma WithoutSnocLast<N>(init: seq<Edge<N>>, last: Edge<N>, t: seq<Edge<N>>, d: Edge<N>)
    requires Without(RemovePair(init, d.u, d.v), t) == Without(init, t + [d])
    ensures Without(RemovePair(init + [last], d.u, d.v), t) == Without(init + [last], t + [d])
  {
    var es := init + [last];
    assert es[..|es| - 1] == init && es[|es| - 1] == last;
    LinksAnySnoc(last, t, d);
    var tail := if !Links(last, d.u, d.v) then [last] else [];
    assert RemovePair(es, d.u, d.v) == RemovePair(init, d.u, d.v) + tail;
    FilterAppend(RemovePair(init, d.u, d.v), tail, (e: Edge<N>) => !LinksAny(e, t));
    assert [last][..0] == [];
  }

  /** `remove_edge(a, b)` is `remove_edges_from` of that one pair. */
  lemma RemovePairWithout<N>(es: seq<Edge<N>>, e: Edge<N>)
    ensures RemovePair(es, e.u, e.v) == Without(es, [e])
  {
    WithoutSnoc(es, [], e);
    WithoutAbsent(RemovePair(es, e.u, e.v), []);
    assert [] + [e] == [e];
  }

  /** An edge joins nodes of one component. */
  lemma EdgeConnected<N>(es: seq<Edge<N>>, e: Edge<N>)
    requires e in es
    ensures Connected(es, e.u, e.v)
  {
    ComponentFacts(es, e.u);
  }

  /**
   * If no edge of old touching U is lost, and no edge is gained, the component of a
   * node in the closed set U is what it was.
   */
  lemma ComponentKept<N>(old_es: seq<Edge<N>>, new_es: seq<Edge<N>>, U: set<N>, x: N)
    requires Within(new_es, old_es) && Closed(old_es, U) && x in U
    requires forall e :: e in old_es && e.u in U ==> e in new_es
    ensures Component(new_es, x) == Component(old_es, x)
  {
    var c := Component(new_es, x);
    ComponentMono(old_es, new_es, x);
    ComponentLeast(old_es, x, U);
    ComponentFacts(new_es, x);
    forall e | e in old_es ensures e.u in c <==> e.v in c {
      if e.u in c || e.v in c {
        assert e.u in U;
        assert e in new_es;
      }
    }
    ComponentLeast(old_es, x, c);
  }

  // ---- one shrink: the inner `while True` ----

  /**
   * The inner loop on the graph's edges es and the sorted list: delete the last
   * entry of the list, stop (Ok) when its ends are no longer connected, fail with
   * IndexError when the list is used up.
   */
  function Shrink<N(==)>(es: seq<Edge<N>>, list: seq<Edge<N>>): Result<seq<Edge<N>>, Exception>
    decreases |list|
  {
    if list == [] then Err(IndexError)
    else
      var remove := list[|list| - 1];
      var rest := RemovePair(es, remove.u, remove.v);
      if !Connected(rest, remove.u, remove.v) then Ok(rest)
      else Shrink(rest, list[..|list| - 1])
  }

  /** A shrink only deletes edges. */
  lemma {:induction false} ShrinkWithin<N>(es: seq<Edge<N>>, list: seq<Edge<N>>)
    ensures Shrink(es, list).Ok? ==> Within(Shrink(es, list).value, es) && |Shrink(es, list).value| <= |es|
    decreases |list|
  {
    if list != [] {
      var remove := list[|list| - 1];
      var rest := RemovePair(es, remove.u, remove.v);
      FilterWithin(es, (e: Edge<N>) => !Links(e, remove.u, remove.v));
      ShrinkWithin(rest, list[..|list| - 1]);
    }
  }

  /** A shrink of a list of edges of the graph that succeeds deletes at least one edge. */
  lemma {:induction false} ShrinkShorter<N>(es: seq<Edge<N>>, list: seq<Edge<N>>)
    requires Within(list, es)
    ensures Shrink(es, list).Ok? ==> |Shrink(es, list).value| < |es|
    decreases |list|
  {
    if list != [] {
      var remove := list[|list| - 1];
      var rest := RemovePair(es, remove.u, remove.v);
      var init := list[..|list| - 1];
      if |rest| == |es| {
        FilterFull(es, (e: Edge<N>) => !Links(e, remove.u, remove.v));
        EdgeConnected(es, remove);
        assert Within(init, rest);
        ShrinkShorter(rest, init);
      } else {
        ShrinkWithin(rest, init);
      }
    }
  }

  /**
   * A shrink that ends with r: it has deleted exactly list[k..], the deletion of
   * list[k] separated its ends, and the deletions before it (list[j] for j > k)
   * removed only cycle edges: they left every component as it was.
   */
  ghost predicate EndsAt<N(!new)>(es: seq<Edge<N>>, list: seq<Edge<N>>, k: int, r: seq<Edge<N>>)
  {
    0 <= k < |list| && r == Without(es, list[k..])
    && !Connected(r, list[k].u, list[k].v)
    && forall x :: Component(Without(es, list[k + 1..]), x) == Component(es, x)
  }

  /** How a shrink ends: the deletions from the end of the list up to the one that separates. */
  lemma {:induction false} ShrinkTrace<N(!new)>(es: seq<Edge<N>>, list: seq<Edge<N>>)
    requires Shrink(es, list).Ok?
    ensures exists k :: EndsAt(es, list, k, Shrink(es, list).value)
    decreases |list|
  {
    var n := |list| - 1;
    var remove := list[n];
    var rest := RemovePair(es, remove.u, remove.v);
    if Connected(rest, remove.u, remove.v) {
      ShrinkTrace(rest, list[..n]);
      var k :| EndsAt(rest, list[..n], k, Shrink(rest, list[..n]).value);
      EndsAtStep(es, list, k, Shrink(rest, list[..n]).value);
    } else {
      RemovePairWithout(es, remove);
      assert list[n..] == [remove];
      assert list[n + 1..] == [];
      WithoutAbsent(es, []);
      assert EndsAt(es, list, n, rest);
    }
  }

  /**
   * In the list of a family's edges by descending cosine, the edges a shrink deletes
   * score no higher than any edge it leaves in the list: deletion runs from the
   * lowest cosine upward.
   */
  lemma ShrinkLowest<N(!new)>(es: seq<Edge<N>>, family: set<N>)
    requires Shrink(es, FamilyEdges(es, family)).Ok?
    ensures var list := FamilyEdges(es, family);
      exists k :: EndsAt(es, list, k, Shrink(es, list).value)
        && forall p, q :: 0 <= p < k <= q < |list| ==> Cosine(list[p]) >= Cosine(list[q])
  {
    ShrinkTrace(es, FamilyEdges(es, family));
  }

  /** A cycle-edge deletion in front of a shrink that ends at k keeps it ending at k. */
  lemma EndsAtStep<N(!new)>(es: seq<Edge<N>>, list: seq<Edge<N>>, k: int, r: seq<Edge<N>>)
    requires list != []
    requires var remove := list[|list| - 1];
      Connected(RemovePair(es, remove.u, remove.v), remove.u, remove.v)
    requires EndsAt(RemovePair(es, list[|list| - 1].u, list[|list| - 1].v), list[..|list| - 1], k, r)
    ensures EndsAt(es, list, k, r)
  {
    var n := |list| - 1;
    var remove := list[n];
    var rest := RemovePair(es, remove.u, remove.v);
    var init := list[..n];
    WithoutSnoc(es, init[k..], remove);
    assert init[k..] + [remove] == list[k..];
    WithoutSnoc(es, init[k + 1..], remove);
    assert init[k + 1..] + [remove] == list[k + 1..];
    assert init[k] == list[k];
    forall x ensures Component(Without(es, list[k + 1..]), x) == Component(es, x) {
      RemoveCycleEdge(es, remove.u, remove.v, x);
    }
  }

  /**
   * A shrink of a family of at least two nodes succeeds when the list names every
   * edge of the family that is not a self-loop: deletions that keep the ends
   * connected leave the family as it was, and a family with no such edge left would
   * be a single node.
   */
  lemma {:induction false} ShrinkOk<N>(es: seq<Edge<N>>, list: seq<Edge<N>>, x: N)
    requires |Component(es, x)| >= 2
    requires forall e :: e in es && e.u != e.v && e.u in Component(es, x) ==> LinksAny(e, list)
    ensures Shrink(es, list).Ok?
    decreases |list|
  {
    var c := Component(es, x);
    ComponentFacts(es, x);
    if list == [] {
      forall e | e in es && Touches(e, x) ensures e.u == e.v {
        if e.u != e.v {
          assert false;
        }
      }
      ComponentIsolated(es, x);
      assert false;
    } else {
      var n := |list| - 1;
      var remove := list[n];
      var rest := RemovePair(es, remove.u, remove.v);
      var init := list[..n];
      if Connected(rest, remove.u, remove.v) {
        RemoveCycleEdge(es, remove.u, remove.v, x);
        forall e | e in rest && e.u != e.v && e.u in Component(rest, x) ensures LinksAny(e, init) {
          RemovePairMember(es, remove.u, remove.v, e);
          assert LinksAny(e, list);
          var k :| 0 <= k < |list| && Links(e, list[k].u, list[k].v);
          assert k < n && init[k] == list[k];
        }
        ShrinkOk(rest, init, x);
      }
    }
  }

  /** A shrink whose list holds only edges inside F keeps every edge outside F. */
  lemma {:induction false} ShrinkKeeps<N>(es: seq<Edge<N>>, list: seq<Edge<N>>, F: set<N>, e: Edge<N>)
    requires forall k :: 0 <= k < |list| ==> list[k].u in F && list[k].v in F
    requires e in es && e.u !in F
    ensures Shrink(es, list).Ok? ==> e in Shrink(es, list).value
    decreases |list|
  {
    if list != [] {
      var n := |list| - 1;
      var remove := list[n];
      RemovePairMember(es, remove.u, remove.v, e);
      ShrinkKeeps(RemovePair(es, remove.u, remove.v), list[..n], F, e);
    }
  }

  // ---- one node: the outer `while True` ----

  /** `sorted(graph.edges(family), ...)`: every edge touching the family, by descending cosine. */
  function FamilyEdges<N(==)>(es: seq<Edge<N>>, family: set<N>): seq<Edge<N>>
  {
    ByCosine(Touching(es, family))
  }

  lemma FamilyEdgesMember<N>(es: seq<Edge<N>>, family: set<N>, e: Edge<N>)
    ensures e in FamilyEdges(es, family) <==> e in es && (e.u in family || e.v in family)
  {
    var t := Touching(es, family);
    assert e in FamilyEdges(es, family) <==> e in multiset(t);
    TouchingMember(es, family, e);
  }

  lemma FamilyEdgesWithin<N>(es: seq<Edge<N>>, family: set<N>)
    ensures Within(FamilyEdges(es, family), es)
  {
    forall e | e in FamilyEdges(es, family) ensures e in es {
      FamilyEdgesMember(es, family, e);
    }
  }

  /**
   * The outer loop for one node: shrink its family while it has more than M nodes;
   * Ok with the edges left once it has at most M.
   */
  function Settle<N(==)>(es: seq<Edge<N>>, node: N, M: int): Result<seq<Edge<N>>, Exception>
    decreases |es|
  {
    var family := Component(es, node);
    if |family| > M then
      var list := FamilyEdges(es, family);
      var shrunk := Shrink(es, list);
      if shrunk.Err? then Err(shrunk.error)
      else
        FamilyEdgesWithin(es, family);
        ShrinkShorter(es, list);
        Settle(shrunk.value, node, M)
    else Ok(es)
  }

  /** Settling only deletes edges. */
  lemma {:induction false} SettleWithin<N>(es: seq<Edge<N>>, node: N, M: int)
    ensures Settle(es, node, M).Ok? ==> Within(Settle(es, node, M).value, es)
    decreases |es|
  {
    var family := Component(es, node);
    if |family| > M {
      var list := FamilyEdges(es, family);
      var shrunk := Shrink(es, list);
      if shrunk.Ok? {
        FamilyEdgesWithin(es, family);
        ShrinkShorter(es, list);
        ShrinkWithin(es, list);
        SettleWithin(shrunk.value, node, M);
        var r := Settle(shrunk.value, node, M);
        assert Settle(es, node, M) == r;
        if r.Ok? {
          WithinTrans(r.value, shrunk.value, es);
        }
      }
    }
  }

  /** A settled node's family has at most M nodes. */
  lemma {:induction false} SettleSmall<N>(es: seq<Edge<N>>, node: N, M: int)
    ensures Settle(es, node, M).Ok? ==> |Component(Settle(es, node, M).value, node)| <= M
    decreases |es|
  {
    var family := Component(es, node);
    if |family| > M {
      var list := FamilyEdges(es, family);
      var shrunk := Shrink(es, list);
      if shrunk.Ok? {
        FamilyEdgesWithin(es, family);
        ShrinkShorter(es, list);
        SettleSmall(shrunk.value, node, M);
      }
    }
  }

  /** With M >= 1 settling always succeeds. */
  lemma {:induction false} SettleOk<N>(es: seq<Edge<N>>, node: N, M: int)
    requires M >= 1
    ensures Settle(es, node, M).Ok?
    decreases |es|
  {
    var family := Component(es, node);
    if |family| > M {
      var list := FamilyEdges(es, family);
      forall e | e in es && e.u != e.v && e.u in family ensures LinksAny(e, list) {
        FamilyEdgesMember(es, family, e);
        var k :| 0 <= k < |list| && list[k] == e;
      }
      ShrinkOk(es, list, node);
      FamilyEdgesWithin(es, family);
      ShrinkShorter(es, list);
      SettleOk(Shrink(es, list).value, node, M);
    }
  }

  /**
   * Settling succeeds exactly when M >= 1; with M < 1 even a lone node is a family
   * above the bound, and `edges[-1]` of its empty edge list raises IndexError.
   */
  lemma SettleOutcome<N>(es: seq<Edge<N>>, node: N, M: int)
    ensures Settle(es, node, M).Ok? <==> M >= 1
    ensures Settle(es, node, M).Err? ==> Settle(es, node, M).error == IndexError
  {
    if M >= 1 {
      SettleOk(es, node, M);
    } else if Settle(es, node, M).Ok? {
      SettleSmall(es, node, M);
      ComponentFacts(Settle(es, node, M).value, node);
    }
    SettleError(es, node, M);
  }

  lemma {:induction false} SettleError<N>(es: seq<Edge<N>>, node: N, M: int)
    ensures Settle(es, node, M).Err? ==> Settle(es, node, M).error == IndexError
    decreases |es|
  {
    var family := Component(es, node);
    if |family| > M {
      var list := FamilyEdges(es, family);
      ShrinkError(es, list);
      var shrunk := Shrink(es, list);
      if shrunk.Ok? {
        FamilyEdgesWithin(es, family);
        ShrinkShorter(es, list);
        SettleError(shrunk.value, node, M);
      }
    }
  }

  lemma {:induction false} ShrinkError<N>(es: seq<Edge<N>>, list: seq<Edge<N>>)
    ensures Shrink(es, list).Err? ==> Shrink(es, list).error == IndexError
    decreases |list|
  {
    if list != [] {
      var remove := list[|list| - 1];
      ShrinkError(RemovePair(es, remove.u, remove.v), list[..|list| - 1]);
    }
  }

  /** Settling a node keeps every edge outside the node's family. */
  lemma {:induction false} SettleKeeps<N>(es: seq<Edge<N>>, node: N, M: int, e: Edge<N>)
    requires e in es && e.u !in Component(es, node)
    ensures Settle(es, node, M).Ok? ==> e in Settle(es, node, M).value
    decreases |es|
  {
    var family := Component(es, node);
    if |family| > M {
      var list := FamilyEdges(es, family);
      var shrunk := Shrink(es, list);
      if shrunk.Ok? {
        ComponentFacts(es, node);
        forall k | 0 <= k < |list| ensures list[k].u in family && list[k].v in family {
          FamilyEdgesMember(es, family, list[k]);
        }
        ShrinkKeeps(es, list, family, e);
        FamilyEdgesWithin(es, family);
        ShrinkShorter(es, list);
        ShrinkWithin(es, list);
        ComponentMono(es, shrunk.value, node);
        SettleKeeps(shrunk.value, node, M, e);
      }
    }
  }

  // ---- the pass over the nodes ----

  /** The state of the `for node` loop: the edges and the nodes of finished families. */
  datatype Pass<N> = Pass(edges: seq<Edge<N>>, used: set<N>)

  /** The loop after visiting the nodes ns in order; Err once a node fails. */
  function FamilyPass<N(==)>(es: seq<Edge<N>>, ns: seq<N>, M: int): Result<Pass<N>, Exception>
  {
    if ns == [] then Ok(Pass(es, {}))
    else
      match FamilyPass(es, ns[..|ns| - 1], M)
      case Err(x) => Err(x)
      case Ok(p) =>
        var node := ns[|ns| - 1];
        if node in p.used then Ok(p)
        else
          match Settle(p.edges, node, M)
          case Err(x) => Err(x)
          case Ok(left) => Ok(Pass(left, p.used + Component(left, node)))
  }

  /** `filter_family(graph, M)` on edges es and node order ns. */
  function FamilyFiltered<N(==)>(es: seq<Edge<N>>, ns: seq<N>, M: int): Result<seq<Edge<N>>, Exception>
  {
    match FamilyPass(es, ns, M)
    case Err(x) => Err(x)
    case Ok(p) => Ok(p.edges)
  }

  /** An error stops the loop: once a prefix fails, the whole pass fails. */
  lemma {:induction false} PassErrStays<N>(es: seq<Edge<N>>, ns: seq<N>, k: nat, M: int)
    requires k <= |ns| && FamilyPass(es, ns[..k], M).Err?
    ensures FamilyPass(es, ns, M) == FamilyPass(es, ns[..k], M)
  {
    if k < |ns| {
      var init := ns[..|ns| - 1];
      assert init[..k] == ns[..k];
      PassErrStays(es, init, k, M);
    } else {
      assert ns[..k] == ns;
    }
  }

  /**
   * filter_family fails, with IndexError, exactly when M < 1 and the graph has a
   * node.
   */
  lemma {:induction false} FamilyError<N>(es: seq<Edge<N>>, ns: seq<N>, M: int)
    ensures FamilyPass(es, ns, M).Err? <==> M < 1 && ns != []
    ensures FamilyPass(es, ns, M).Err? ==> FamilyPass(es, ns, M).error == IndexError
  {
    if ns != [] {
      var init := ns[..|ns| - 1];
      FamilyError(es, init, M);
      var pre := FamilyPass(es, init, M);
      if pre.Ok? {
        SettleOutcome(pre.value.edges, ns[|ns| - 1], M);
        if M < 1 && init != [] {
          assert false;
        }
      }
    }
  }

  /** What the loop keeps true of its state: finished families are closed and small. */
  ghost predicate PassInvariant<N>(p: Pass<N>, M: int)
  {
    Closed(p.edges, p.used) && forall x :: x in p.used ==> |Component(p.edges, x)| <= M
  }

  /** One visit of a node outside the finished families keeps the invariant. */
  lemma PassStep<N>(p: Pass<N>, node: N, M: int)
    requires PassInvariant(p, M) && Settle(p.edges, node, M).Ok?
    ensures var left := Settle(p.edges, node, M).value;
      PassInvariant(Pass(left, p.used + Component(left, node)), M) && Within(left, p.edges)
  {
    var left := Settle(p.edges, node, M).value;
    var c := Component(left, node);
    SettleWithin(p.edges, node, M);
    SettleSmall(p.edges, node, M);
    ComponentFacts(left, node);
    forall x | x in p.used + c ensures |Component(left, x)| <= M {
      if x in c {
        ComponentSame(left, node, x);
      } else {
        ComponentMono(p.edges, left, x);
        SubsetCount(Component(left, x), Component(p.edges, x));
      }
    }
  }

  /**
   * After the pass: edges were only deleted, every node visited lies in a finished
   * family, and the finished families are closed and have at most M nodes each.
   */
  lemma {:induction false} PassFacts<N>(es: seq<Edge<N>>, ns: seq<N>, M: int)
    requires FamilyPass(es, ns, M).Ok?
    ensures var p := FamilyPass(es, ns, M).value;
      PassInvariant(p, M) && Within(p.edges, es) && forall k :: 0 <= k < |ns| ==> ns[k] in p.used
  {
    if ns != [] {
      var init := ns[..|ns| - 1];
      PassFacts(es, init, M);
      var pre := FamilyPass(es, init, M).value;
      var node := ns[|ns| - 1];
      if node !in pre.used {
        PassStep(pre, node, M);
        ComponentFacts(Settle(pre.edges, node, M).value, node);
        WithinTrans(FamilyPass(es, ns, M).value.edges, pre.edges, es);
      }
      assert forall k :: 0 <= k < |ns| - 1 ==> ns[k] == init[k];
    }
  }

  /**
   * The size bound of filter_family: afterwards every node's connected component
   * has at most M nodes.
   */
  lemma FamilySmall<N>(es: seq<Edge<N>>, ns: seq<N>, M: int)
    requires FamilyPass(es, ns, M).Ok?
    ensures forall x :: x in ns ==> |Component(FamilyPass(es, ns, M).value.edges, x)| <= M
  {
    PassFacts(es, ns, M);
  }

  /** Visiting a node outside the finished families keeps every edge touching them. */
  lemma PassStepKeeps<N>(p: Pass<N>, node: N, M: int)
    requires PassInvariant(p, M) && node !in p.used && Settle(p.edges, node, M).Ok?
    ensures forall e :: e in p.edges && e.u in p.used ==> e in Settle(p.edges, node, M).value
  {
    forall e | e in p.edges && e.u in p.used ensures e in Settle(p.edges, node, M).value {
      ComponentAvoids(p.edges, node, p.used);
      ComponentFacts(p.edges, node);
      assert e.u !in Component(p.edges, node);
      SettleKeeps(p.edges, node, M, e);
    }
  }

  /**
   * A finished family is never touched again: the edges touching the families
   * finished after the first k nodes are all still there at the end.
   */
  lemma {:induction false} FinishedKept<N>(es: seq<Edge<N>>, ns: seq<N>, k: nat, M: int)
    requires k <= |ns| && FamilyPass(es, ns, M).Ok?
    ensures FamilyPass(es, ns[..k], M).Ok?
    ensures var pk, p := FamilyPass(es, ns[..k], M).value, FamilyPass(es, ns, M).value;
      pk.used <= p.used && forall e :: e in pk.edges && e.u in pk.used ==> e in p.edges
  {
    if k == |ns| {
      assert ns[..k] == ns;
    } else {
      var init := ns[..|ns| - 1];
      assert init[..k] == ns[..k];
      if FamilyPass(es, init, M).Err? {
        assert false;
      }
      FinishedKept(es, init, k, M);
      var pre := FamilyPass(es, init, M).value;
      var node := ns[|ns| - 1];
      if node !in pre.used {
        PassFacts(es, init, M);
        PassStepKeeps(pre, node, M);
      }
    }
  }

  /**
   * The families finished after the first k nodes are, at the end, the components
   * they were when they were finished.
   */
  lemma FinishedFamilies<N>(es: seq<Edge<N>>, ns: seq<N>, k: nat, M: int)
    requires k <= |ns| && FamilyPass(es, ns, M).Ok?
    ensures FamilyPass(es, ns[..k], M).Ok?
    ensures var pk, p := FamilyPass(es, ns[..k], M).value, FamilyPass(es, ns, M).value;
      forall x :: x in pk.used ==> Component(p.edges, x) == Component(pk.edges, x)
  {
    FinishedKept(es, ns, k, M);
    var pk, p := FamilyPass(es, ns[..k], M).value, FamilyPass(es, ns, M).value;
    PassFacts(es, ns[..k], M);
    PassFacts(es, ns, M);
    PassWithin(es, ns, k, M);
    forall x | x in pk.used ensures Component(p.edges, x) == Component(pk.edges, x) {
      ComponentKept(pk.edges, p.edges, pk.used, x);
    }
  }

  /** The edges at the end are among the edges after any prefix. */
  lemma {:induction false} PassWithin<N>(es: seq<Edge<N>>, ns: seq<N>, k: nat, M: int)
    requires k <= |ns| && FamilyPass(es, ns, M).Ok?
    ensures FamilyPass(es, ns[..k], M).Ok?
    ensures Within(FamilyPass(es, ns, M).value.edges, FamilyPass(es, ns[..k], M).value.edges)
  {
    if k == |ns| {
      assert ns[..k] == ns;
    } else {
      var init := ns[..|ns| - 1];
      assert init[..k] == ns[..k];
      if FamilyPass(es, init, M).Err? {
        assert false;
      }
      PassWithin(es, init, k, M);
      var pre := FamilyPass(es, init, M).value;
      var node := ns[|ns| - 1];
      if node !in pre.used {
        SettleWithin(pre.edges, node, M);
        WithinTrans(FamilyPass(es, ns, M).value.edges, pre.edges, FamilyPass(es, ns[..k], M).value.edges);
      }
    }
  }

  // ---- the methods ----

  /** The inner `while True` on the graph: deletes list entries from the end. */
  method ShrinkFamily<N(==)>(g: Graph<N>, list0: seq<Edge<N>>) returns (r: Result<(), Exception>)
    requires g.Valid()
    modifies g`edges
    ensures g.Valid()
    ensures r.Ok? == Shrink(old(g.edges), list0).Ok?
    ensures r.Ok? ==> g.edges == Shrink(old(g.edges), list0).value
    ensures r.Err? ==> r.error == Shrink(old(g.edges), list0).error
  {
    var list := list0;
    while true
      invariant g.Valid()
      invariant Shrink(g.edges, list) == Shrink(old(g.edges), list0)
      decreases |list|
    {
      if list == [] {
        return Err(IndexError);
      }
      var remove := list[|list| - 1];
      list := list[..|list| - 1];
      g.RemoveEdge(remove.u, remove.v);
      if !Connected(g.edges, remove.u, remove.v) {
        return Ok(());
      }
    }
  }

  /** The outer `while True` for one node. */
  method SettleNode<N(==)>(g: Graph<N>, node: N, M: int) returns (r: Result<(), Exception>)
    requires g.Valid()
    modifies g`edges
    ensures g.Valid()
    ensures r.Ok? == Settle(old(g.edges), node, M).Ok?
    ensures r.Ok? ==> g.edges == Settle(old(g.edges), node, M).value
    ensures r.Err? ==> r.error == Settle(old(g.edges), node, M).error
  {
    while true
      invariant g.Valid()
      invariant Settle(g.edges, node, M) == Settle(old(g.edges), node, M)
      decreases |g.edges|
    {
      var family := Component(g.edges, node);
      if |family| <= M {
        return Ok(());
      }
      var list := FamilyEdges(g.edges, family);
      ghost var before := g.edges;
      var res := ShrinkFamily(g, list);
      if res.Err? {
        return Err(res.error);
      }
      FamilyEdgesWithin(before, family);
      ShrinkShorter(before, list);
    }
  }

  /**
   * `filter_family(graph, M)`: the graph's edges become those of FamilyFiltered;
   * its nodes do not change, and once it returns no node's family has more than M nodes.
   */
  method FilterFamily<N(==)>(g: Graph<N>, M: int) returns (r: Result<(), Exception>)
    requires g.Valid()
    modifies g`edges
    ensures g.Valid()
    ensures r.Ok? == FamilyFiltered(old(g.edges), g.nodes, M).Ok?
    ensures r.Ok? ==> g.edges == FamilyFiltered(old(g.edges), g.nodes, M).value
    ensures r.Err? ==> r.error == FamilyFiltered(old(g.edges), g.nodes, M).error
    ensures r.Ok? ==> forall i :: 0 <= i < |g.nodes| ==> |Component(g.edges, g.nodes[i])| <= M
  {
    var used: set<N> := {};
    for k := 0 to |g.nodes|
      invariant g.Valid()
      invariant FamilyPass(old(g.edges), g.nodes[..k], M) == Ok(Pass(g.edges, used))
    {
      assert g.nodes[..k + 1][..k] == g.nodes[..k];
      var node := g.nodes[k];
      if node in used {
        continue;
      }
      var res := SettleNode(g, node, M);
      if res.Err? {
        PassErrStays(old(g.edges), g.nodes, k + 1, M);
        return Err(res.error);
      }
      var family := Component(g.edges, node);
      used := used + family;
    }
    assert g.nodes[..|g.nodes|] == g.nodes;
    FamilySmall(old(g.edges), g.nodes, M);
    r := Ok(());
  }

  // ---- the family of msmolnet/tests/test_filter_family.py ----

  lemma FilterDropThird<T>(a: T, b: T, c: T, d: T, e: T, keep: T -> bool)
    requires keep(a) && keep(b) && !keep(c) && keep(d) && keep(e)
    ensures Filter([a, b, c, d], keep) == [a, b, d]
    ensures Filter([a, b, c, d, e], keep) == [a, b, d, e]
  {
    var s := [a, b, c, d, e];
    assert s[..4] == [a, b, c, d];
    assert s[..4][..3] == [a, b, c];
    assert s[..4][..3][..2] == [a, b];
    assert s[..4][..3][..2][..1] == [a];
    assert [a][..0] == [];
    assert Filter([a], keep) == [a];
    assert Filter([a, b], keep) == [a, b];
    assert Filter([a, b, c], keep) == [a, b];
  }

  /** The edge of strictly lowest cosine sorts last. */
  lemma LowestLast<N>(s: seq<Edge<N>>, e: Edge<N>)
    requires e in s && forall x :: x in s && x != e ==> Cosine(x) > Cosine(e)
    ensures |ByCosine(s)| == |s| > 0 && ByCosine(s)[|s| - 1] == e
  {
    var r := ByCosine(s);
    assert e in multiset(r);
    var p :| 0 <= p < |r| && r[p] == e;
    assert r[|r| - 1] in multiset(s);
  }

  lemma LowestOfFive<N>(a: Edge<N>, b: Edge<N>, c: Edge<N>, d: Edge<N>, e: Edge<N>)
    requires Cosine(c) < Cosine(a) && Cosine(c) < Cosine(b) && Cosine(c) < Cosine(d) && Cosine(c) < Cosine(e)
    ensures |ByCosine([a, b, c, d, e])| == 5 && ByCosine([a, b, c, d, e])[4] == c
  {
    LowestLast([a, b, c, d, e], c);
  }

  lemma LowestOfFour<N>(a: Edge<N>, b: Edge<N>, d: Edge<N>, e: Edge<N>)
    requires Cosine(d) < Cosine(a) && Cosine(d) < Cosine(b) && Cosine(d) < Cosine(e)
    ensures |ByCosine([a, b, d, e])| == 4 && ByCosine([a, b, d, e])[3] == d
  {
    LowestLast([a, b, d, e], d);
  }

  /** Seven different nodes. */
  ghost predicate Seven<N>(n1: N, n2: N, n3: N, n4: N, n5: N, n6: N, n7: N)
  {
    Distinct([n1, n2, n3, n4, n5, n6, n7])
  }

  lemma SevenApart<N>(n1: N, n2: N, n3: N, n4: N, n5: N, n6: N, n7: N)
    requires Seven(n1, n2, n3, n4, n5, n6, n7)
    ensures n1 != n2 && n1 != n3 && n1 != n4 && n1 != n5 && n1 != n6 && n1 != n7
    ensures n2 != n3 && n2 != n4 && n2 != n5 && n2 != n6 && n2 != n7
    ensures n3 != n4 && n3 != n5 && n3 != n6 && n3 != n7
    ensures n4 != n5 && n4 != n6 && n4 != n7 && n5 != n6 && n5 != n7 && n6 != n7
  {
    var s := [n1, n2, n3, n4, n5, n6, n7];
    assert s[0] == n1 && s[1] == n2 && s[2] == n3 && s[3] == n4 && s[4] == n5 && s[5] == n6 && s[6] == n7;
  }

  /** A family holding one end of each edge touches them all. */
  lemma TouchingAll<N>(a: Edge<N>, b: Edge<N>, c: Edge<N>, d: Edge<N>, F: set<N>)
    requires a.u in F && b.u in F && c.u in F && d.u in F
    ensures Touching([a, b, c, d], F) == [a, b, c, d]
    ensures forall e: Edge<N> :: e.u in F ==> Touching([a, b, c, d, e], F) == [a, b, c, d, e]
  {
    FilterAll([a, b, c, d], (x: Edge<N>) => x.u in F || x.v in F);
    forall e: Edge<N> | e.u in F ensures Touching([a, b, c, d, e], F) == [a, b, c, d, e] {
      FilterAll([a, b, c, d, e], (x: Edge<N>) => x.u in F || x.v in F);
    }
  }

  lemma FirstBridge<N>(n1: N, n2: N, n3: N, n4: N, n5: N, n6: N, n7: N, w1: Match, w2: Match, w4: Match, w5: Match)
    requires Seven(n1, n2, n3, n4, n5, n6, n7)
    ensures !Connected([Edge(n1, n2, w1), Edge(n1, n3, w2), Edge(n2, n5, w4), Edge(n5, n6, w5)], n1, n4)
  {
    SevenApart(n1, n2, n3, n4, n5, n6, n7);
    ComponentLeast([Edge(n1, n2, w1), Edge(n1, n3, w2), Edge(n2, n5, w4), Edge(n5, n6, w5)], n1, {n1, n2, n3, n5, n6});
  }

  lemma SecondBridge<N>(n1: N, n2: N, n3: N, n4: N, n5: N, n6: N, n7: N, w1: Match, w2: Match, w5: Match)
    requires Seven(n1, n2, n3, n4, n5, n6, n7)
    ensures !Connected([Edge(n1, n2, w1), Edge(n1, n3, w2), Edge(n5, n6, w5)], n2, n5)
  {
    SevenApart(n1, n2, n3, n4, n5, n6, n7);
    ComponentLeast([Edge(n1, n2, w1), Edge(n1, n3, w2), Edge(n5, n6, w5)], n2, {n1, n2, n3});
  }

  /** One shrink that stops at its first deletion. */
  lemma ShrinkFirst<N>(es: seq<Edge<N>>, list: seq<Edge<N>>, rest: seq<Edge<N>>)
    requires list != []
    requires var remove := list[|list| - 1];
      RemovePair(es, remove.u, remove.v) == rest && !Connected(rest, remove.u, remove.v)
    ensures Shrink(es, list) == Ok(rest)
  {
  }

  /** A family above M whose shrink ends with rest goes on from rest. */
  lemma SettleCut<N>(es: seq<Edge<N>>, node: N, M: int, rest: seq<Edge<N>>)
    requires |Component(es, node)| > M
    requires Shrink(es, FamilyEdges(es, Component(es, node))) == Ok(rest)
    ensures Settle(es, node, M) == Settle(rest, node, M)
  {
  }

  /** The far end of an edge from x's family is in the family. */
  lemma Reach<N>(es: seq<Edge<N>>, x: N, e: Edge<N>)
    requires e in es && e.u in Component(es, x)
    ensures e.v in Component(es, x)
  {
    ComponentFacts(es, x);
  }

  /** A set with four different members has more than three. */
  lemma FourIn<N>(F: set<N>, p: N, q: N, r: N, t: N)
    requires p in F && q in F && r in F && t in F
    requires p != q && p != r && p != t && q != r && q != t && r != t
    ensures |F| > 3
  {
    assert |{p, q, r, t}| == 4;
    SubsetCount({p, q, r, t}, F);
  }

  lemma FirstMembers<N>(n1: N, n2: N, n3: N, n4: N, n5: N, n6: N, n7: N, w1: Match, w2: Match, w3: Match, w4: Match, w5: Match)
    requires Seven(n1, n2, n3, n4, n5, n6, n7)
    ensures var a, b, c, d, e := Edge(n1, n2, w1), Edge(n1, n3, w2), Edge(n1, n4, w3), Edge(n2, n5, w4), Edge(n5, n6, w5);
      var F := Component([a, b, c, d, e], n1);
      n1 in F && n2 in F && n5 in F && |F| > 3
  {
    SevenApart(n1, n2, n3, n4, n5, n6, n7);
    var a, b, c, d, e := Edge(n1, n2, w1), Edge(n1, n3, w2), Edge(n1, n4, w3), Edge(n2, n5, w4), Edge(n5, n6, w5);
    var es := [a, b, c, d, e];
    ComponentFacts(es, n1);
    Reach(es, n1, a);
    Reach(es, n1, b);
    Reach(es, n1, c);
    Reach(es, n1, d);
    FourIn(Component(es, n1), n1, n2, n3, n4);
  }

  lemma SecondMembers<N>(n1: N, n2: N, n3: N, n4: N, n5: N, n6: N, n7: N, w1: Match, w2: Match, w4: Match, w5: Match)
    requires Seven(n1, n2, n3, n4, n5, n6, n7)
    ensures var a, b, d, e := Edge(n1, n2, w1), Edge(n1, n3, w2), Edge(n2, n5, w4), Edge(n5, n6, w5);
      var F := Component([a, b, d, e], n1);
      n1 in F && n2 in F && n5 in F && |F| > 3
  {
    SevenApart(n1, n2, n3, n4, n5, n6, n7);
    var a, b, d, e := Edge(n1, n2, w1), Edge(n1, n3, w2), Edge(n2, n5, w4), Edge(n5, n6, w5);
    var es := [a, b, d, e];
    ComponentFacts(es, n1);
    Reach(es, n1, a);
    Reach(es, n1, b);
    Reach(es, n1, d);
    FourIn(Component(es, n1), n1, n2, n3, n5);
  }

  /** Node n1's family is all of n1 .. n6, and its weakest edge is (n1, n4). */
  lemma FirstFamily<N>(n1: N, n2: N, n3: N, n4: N, n5: N, n6: N, n7: N, w1: Match, w2: Match, w3: Match, w4: Match, w5: Match)
    requires Seven(n1, n2, n3, n4, n5, n6, n7)
    requires w3.cosine < w1.cosine && w3.cosine < w2.cosine && w3.cosine < w4.cosine && w3.cosine < w5.cosine
    ensures var a, b, c, d, e := Edge(n1, n2, w1), Edge(n1, n3, w2), Edge(n1, n4, w3), Edge(n2, n5, w4), Edge(n5, n6, w5);
      var F := Component([a, b, c, d, e], n1);
      |F| > 3 && |FamilyEdges([a, b, c, d, e], F)| == 5 && FamilyEdges([a, b, c, d, e], F)[4] == c
  {
    SevenApart(n1, n2, n3, n4, n5, n6, n7);
    var a, b, c, d, e := Edge(n1, n2, w1), Edge(n1, n3, w2), Edge(n1, n4, w3), Edge(n2, n5, w4), Edge(n5, n6, w5);
    var es := [a, b, c, d, e];
    var F := Component(es, n1);
    FirstMembers(n1, n2, n3, n4, n5, n6, n7, w1, w2, w3, w4, w5);
    TouchingAll(a, b, c, d, F);
    LowestOfFive(a, b, c, d, e);
  }

  /** The first cut: deleting (n1, n4) separates n4 from n1. */
  lemma FirstCut<N>(n1: N, n2: N, n3: N, n4: N, n5: N, n6: N, n7: N, w1: Match, w2: Match, w3: Match, w4: Match, w5: Match)
    requires Seven(n1, n2, n3, n4, n5, n6, n7)
    requires w3.cosine < w1.cosine && w3.cosine < w2.cosine && w3.cosine < w4.cosine && w3.cosine < w5.cosine
    ensures var a, b, c, d, e := Edge(n1, n2, w1), Edge(n1, n3, w2), Edge(n1, n4, w3), Edge(n2, n5, w4), Edge(n5, n6, w5);
      Settle([a, b, c, d, e], n1, 3) == Settle([a, b, d, e], n1, 3)
  {
    var a, b, c, d, e := Edge(n1, n2, w1), Edge(n1, n3, w2), Edge(n1, n4, w3), Edge(n2, n5, w4), Edge(n5, n6, w5);
    var es := [a, b, c, d, e];
    FirstFamily(n1, n2, n3, n4, n5, n6, n7, w1, w2, w3, w4, w5);
    SevenApart(n1, n2, n3, n4, n5, n6, n7);
    FilterDropThird(a, b, c, d, e, (x: Edge<N>) => !Links(x, n1, n4));
    FirstBridge(n1, n2, n3, n4, n5, n6, n7, w1, w2, w4, w5);
    ShrinkFirst(es, FamilyEdges(es, Component(es, n1)), [a, b, d, e]);
    SettleCut(es, n1, 3, [a, b, d, e]);
  }

  /** Then n1's family is n1, n2, n3, n5, n6, and its weakest edge is (n2, n5). */
  lemma SecondFamily<N>(n1: N, n2: N, n3: N, n4: N, n5: N, n6: N, n7: N, w1: Match, w2: Match, w4: Match, w5: Match)
    requires Seven(n1, n2, n3, n4, n5, n6, n7)
    requires w4.cosine < w1.cosine && w4.cosine < w2.cosine && w4.cosine < w5.cosine
    ensures var a, b, d, e := Edge(n1, n2, w1), Edge(n1, n3, w2), Edge(n2, n5, w4), Edge(n5, n6, w5);
      var F := Component([a, b, d, e], n1);
      |F| > 3 && |FamilyEdges([a, b, d, e], F)| == 4 && FamilyEdges([a, b, d, e], F)[3] == d
  {
    SevenApart(n1, n2, n3, n4, n5, n6, n7);
    var a, b, d, e := Edge(n1, n2, w1), Edge(n1, n3, w2), Edge(n2, n5, w4), Edge(n5, n6, w5);
    var es := [a, b, d, e];
    var F := Component(es, n1);
    SecondMembers(n1, n2, n3, n4, n5, n6, n7, w1, w2, w4, w5);
    TouchingAll(a, b, d, e, F);
    LowestOfFour(a, b, d, e);
  }

  /** The second cut: deleting (n2, n5) separates n5 from n2. */
  lemma SecondCut<N>(n1: N, n2: N, n3: N, n4: N, n5: N, n6: N, n7: N, w1: Match, w2: Match, w4: Match, w5: Match)
    requires Seven(n1, n2, n3, n4, n5, n6, n7)
    requires w4.cosine < w1.cosine && w4.cosine < w2.cosine && w4.cosine < w5.cosine
    ensures var a, b, d, e := Edge(n1, n2, w1), Edge(n1, n3, w2), Edge(n2, n5, w4), Edge(n5, n6, w5);
      Settle([a, b, d, e], n1, 3) == Settle([a, b, e], n1, 3)
  {
    var a, b, d, e := Edge(n1, n2, w1), Edge(n1, n3, w2), Edge(n2, n5, w4), Edge(n5, n6, w5);
    var es := [a, b, d, e];
    SecondFamily(n1, n2, n3, n4, n5, n6, n7, w1, w2, w4, w5);
    SevenApart(n1, n2, n3, n4, n5, n6, n7);
    FilterDropThird(a, b, d, e, e, (x: Edge<N>) => !Links(x, n2, n5));
    SecondBridge(n1, n2, n3, n4, n5, n6, n7, w1, w2, w5);
    ShrinkFirst(es, FamilyEdges(es, Component(es, n1)), [a, b, e]);
    SettleCut(es, n1, 3, [a, b, e]);
  }

  /** A family of at most M nodes is settled as it is. */
  lemma SettleDone<N>(es: seq<Edge<N>>, node: N, M: int)
    requires |Component(es, node)| <= M
    ensures Settle(es, node, M) == Ok(es)
  {
  }

  /** The loop skips a node of a finished family. */
  lemma PassSkip<N>(es: seq<Edge<N>>, ns: seq<N>, x: N, M: int, p: Pass<N>)
    requires FamilyPass(es, ns, M) == Ok(p) && x in p.used
    ensures FamilyPass(es, ns + [x], M) == Ok(p)
  {
    assert (ns + [x])[..|ns|] == ns;
  }

  /** The loop settles a node outside the finished families and adds its family. */
  lemma PassVisit<N>(es: seq<Edge<N>>, ns: seq<N>, x: N, M: int, p: Pass<N>, r: seq<Edge<N>>)
    requires FamilyPass(es, ns, M) == Ok(p) && x !in p.used && Settle(p.edges, x, M) == Ok(r)
    ensures FamilyPass(es, ns + [x], M) == Ok(Pass(r, p.used + Component(r, x)))
  {
    assert (ns + [x])[..|ns|] == ns;
  }

  /** The family of n1 in what is left. */
  lemma LeftFirst<N>(n1: N, n2: N, n3: N, n4: N, n5: N, n6: N, n7: N, w1: Match, w2: Match, w5: Match)
    requires Seven(n1, n2, n3, n4, n5, n6, n7)
    ensures Component([Edge(n1, n2, w1), Edge(n1, n3, w2), Edge(n5, n6, w5)], n1) == {n1, n2, n3}
  {
    SevenApart(n1, n2, n3, n4, n5, n6, n7);
    var a, b, e := Edge(n1, n2, w1), Edge(n1, n3, w2), Edge(n5, n6, w5);
    var es := [a, b, e];
    ComponentFacts(es, n1);
    Reach(es, n1, a);
    Reach(es, n1, b);
    ComponentLeast(es, n1, {n1, n2, n3});
  }

  /** The family of n5 in what is left. */
  lemma LeftFifth<N>(n1: N, n2: N, n3: N, n4: N, n5: N, n6: N, n7: N, w1: Match, w2: Match, w5: Match)
    requires Seven(n1, n2, n3, n4, n5, n6, n7)
    ensures Component([Edge(n1, n2, w1), Edge(n1, n3, w2), Edge(n5, n6, w5)], n5) == {n5, n6}
  {
    SevenApart(n1, n2, n3, n4, n5, n6, n7);
    var a, b, e := Edge(n1, n2, w1), Edge(n1, n3, w2), Edge(n5, n6, w5);
    var es := [a, b, e];
    ComponentFacts(es, n5);
    Reach(es, n5, e);
    ComponentLeast(es, n5, {n5, n6});
  }

  /** n4 and n7 are alone in what is left. */
  lemma LeftAlone<N>(n1: N, n2: N, n3: N, n4: N, n5: N, n6: N, n7: N, w1: Match, w2: Match, w5: Match)
    requires Seven(n1, n2, n3, n4, n5, n6, n7)
    ensures var es := [Edge(n1, n2, w1), Edge(n1, n3, w2), Edge(n5, n6, w5)];
      Component(es, n4) == {n4} && Component(es, n7) == {n7}
  {
    SevenApart(n1, n2, n3, n4, n5, n6, n7);
    var es := [Edge(n1, n2, w1), Edge(n1, n3, w2), Edge(n5, n6, w5)];
    ComponentIsolated(es, n4);
    ComponentIsolated(es, n7);
  }

  /** The components of what is left: {n1, n2, n3}, {n4}, {n5, n6}, {n7}. */
  lemma LeftComponents<N>(n1: N, n2: N, n3: N, n4: N, n5: N, n6: N, n7: N, w1: Match, w2: Match, w5: Match)
    requires Seven(n1, n2, n3, n4, n5, n6, n7)
    ensures var es := [Edge(n1, n2, w1), Edge(n1, n3, w2), Edge(n5, n6, w5)];
      Component(es, n1) == {n1, n2, n3} && Component(es, n4) == {n4}
      && Component(es, n5) == {n5, n6} && Component(es, n7) == {n7}
  {
    LeftFirst(n1, n2, n3, n4, n5, n6, n7, w1, w2, w5);
    LeftFifth(n1, n2, n3, n4, n5, n6, n7, w1, w2, w5);
    LeftAlone(n1, n2, n3, n4, n5, n6, n7, w1, w2, w5);
  }

  /** Sizes of the sets the pass collects. */
  lemma LeftSizes<N>(n1: N, n2: N, n3: N, n4: N, n5: N, n6: N, n7: N)
    requires Seven(n1, n2, n3, n4, n5, n6, n7)
    ensures |{n1, n2, n3}| <= 3 && |{n4}| <= 3 && |{n5, n6}| <= 3 && |{n7}| <= 3
  {
  }

  /** n1 settles with both cuts made. */
  lemma FirstSettled<N>(n1: N, n2: N, n3: N, n4: N, n5: N, n6: N, n7: N, w1: Match, w2: Match, w3: Match, w4: Match, w5: Match)
    requires Seven(n1, n2, n3, n4, n5, n6, n7)
    requires w3.cosine < w1.cosine && w3.cosine < w2.cosine && w3.cosine < w4.cosine && w3.cosine < w5.cosine
    requires w4.cosine < w1.cosine && w4.cosine < w2.cosine && w4.cosine < w5.cosine
    ensures var a, b, c, d, e := Edge(n1, n2, w1), Edge(n1, n3, w2), Edge(n1, n4, w3), Edge(n2, n5, w4), Edge(n5, n6, w5);
      Settle([a, b, c, d, e], n1, 3) == Ok([a, b, e])
  {
    var left := [Edge(n1, n2, w1), Edge(n1, n3, w2), Edge(n5, n6, w5)];
    FirstCut(n1, n2, n3, n4, n5, n6, n7, w1, w2, w3, w4, w5);
    SecondCut(n1, n2, n3, n4, n5, n6, n7, w1, w2, w4, w5);
    LeftComponents(n1, n2, n3, n4, n5, n6, n7, w1, w2, w5);
    LeftSizes(n1, n2, n3, n4, n5, n6, n7);
    SettleDone(left, n1, 3);
  }

  lemma SevenInOrder<N>(n1: N, n2: N, n3: N, n4: N, n5: N, n6: N, n7: N)
    ensures var p0: seq<N> := []; p0 + [n1] + [n2] + [n3] + [n4] + [n5] + [n6] + [n7] == [n1, n2, n3, n4, n5, n6, n7]
  {
  }

  /**
   * filter_family with M = 3 on the test's graph, nodes visited n1 .. n7: two cuts
   * at n1, then every family is small.
   */
  lemma FamilyCase<N>(n1: N, n2: N, n3: N, n4: N, n5: N, n6: N, n7: N, w1: Match, w2: Match, w3: Match, w4: Match, w5: Match)
    requires Seven(n1, n2, n3, n4, n5, n6, n7)
    requires w3.cosine < w1.cosine && w3.cosine < w2.cosine && w3.cosine < w4.cosine && w3.cosine < w5.cosine
    requires w4.cosine < w1.cosine && w4.cosine < w2.cosine && w4.cosine < w5.cosine
    ensures var a, b, c, d, e := Edge(n1, n2, w1), Edge(n1, n3, w2), Edge(n1, n4, w3), Edge(n2, n5, w4), Edge(n5, n6, w5);
      FamilyFiltered([a, b, c, d, e], [n1, n2, n3, n4, n5, n6, n7], 3) == Ok([a, b, e])
  {
    SevenApart(n1, n2, n3, n4, n5, n6, n7);
    var a, b, c, d, e := Edge(n1, n2, w1), Edge(n1, n3, w2), Edge(n1, n4, w3), Edge(n2, n5, w4), Edge(n5, n6, w5);
    var es, left := [a, b, c, d, e], [a, b, e];
    FirstSettled(n1, n2, n3, n4, n5, n6, n7, w1, w2, w3, w4, w5);
    LeftComponents(n1, n2, n3, n4, n5, n6, n7, w1, w2, w5);
    LeftSizes(n1, n2, n3, n4, n5, n6, n7);
    var u1, u4, u5 := {n1, n2, n3}, {n1, n2, n3, n4}, {n1, n2, n3, n4, n5, n6};
    var p0: seq<N> := [];
    var p1 := p0 + [n1];
    var p2 := p1 + [n2];
    var p3 := p2 + [n3];
    var p4 := p3 + [n4];
    var p5 := p4 + [n5];
    var p6 := p5 + [n6];
    var p7 := p6 + [n7];
    assert FamilyPass(es, p0, 3) == Ok(Pass(es, {}));
    PassVisit(es, p0, n1, 3, Pass(es, {}), left);
    assert {} + u1 == u1;
    PassSkip(es, p1, n2, 3, Pass(left, u1));
    PassSkip(es, p2, n3, 3, Pass(left, u1));
    SettleDone(left, n4, 3);
    PassVisit(es, p3, n4, 3, Pass(left, u1), left);
    assert u1 + {n4} == u4;
    SettleDone(left, n5, 3);
    PassVisit(es, p4, n5, 3, Pass(left, u4), left);
    assert u4 + {n5, n6} == u5;
    PassSkip(es, p5, n6, 3, Pass(left, u5));
    SettleDone(left, n7, 3);
    PassVisit(es, p6, n7, 3, Pass(left, u5), left);
    SevenInOrder(n1, n2, n3, n4, n5, n6, n7);
  }

  /**
   * msmolnet/tests/test_filter_family.py: with M = 3 the component of node 2 is
   * {1, 2, 3}. The test gives no peak counts; 0 stands in.
   */
  lemma FamilyFixture()
    ensures var a, b, c := Edge(1, 2, Match(0.9, 0)), Edge(1, 3, Match(0.5, 0)), Edge(1, 4, Match(0.2, 0));
      var d, e := Edge(2, 5, Match(0.4, 0)), Edge(5, 6, Match(0.6, 0));
      var r := FamilyFiltered([a, b, c, d, e], [1, 2, 3, 4, 5, 6, 7], 3);
      r.Ok? && Component(r.value, 2) == {1, 2, 3}
  {
    var w1, w2, w3, w4, w5 := Match(0.9, 0), Match(0.5, 0), Match(0.2, 0), Match(0.4, 0), Match(0.6, 0);
    assert Seven(1, 2, 3, 4, 5, 6, 7);
    FamilyCase(1, 2, 3, 4, 5, 6, 7, w1, w2, w3, w4, w5);
    LeftComponents(1, 2, 3, 4, 5, 6, 7, w1, w2, w5);
    var left := [Edge(1, 2, w1), Edge(1, 3, w2), Edge(5, 6, w5)];
    ComponentFacts(left, 1);
    ComponentSame(left, 1, 2);
  }
}
