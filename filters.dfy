/**
 * The two network filters of msmolnet/network.py (repeated in
 * mol_networking/network.py): `filter_neighbors` caps every node's degree by
 * keeping its best-scoring edges, and `filter_family` cuts oversized connected
 * components by deleting their weakest edges.
 */
module Filters {
  import opened Wrappers
  import opened Collections
  import opened MatchMaps
  import opened Sorting
  import opened Graphs

  /** The sort key of both filters: an edge's `cosine` attribute. */
  function Cosine<N>(e: Edge<N>): real
  {
    e.w.cosine
  }

  /** `sorted(edges, key=lambda x: x[2]['cosine'], reverse=True)`. */
  function ByCosine<N>(es: seq<Edge<N>>): (r: seq<Edge<N>>)
    ensures |r| == |es| && multiset(r) == multiset(es) && Descending(r, Cosine)
  {
    SortDesc(es, Cosine)
  }

  /** Where Python's slice `s[m:]` starts in a list of length n (m may be negative). */
  function SliceFrom(n: nat, m: int): (r: nat)
    ensures r <= n
  {
    if m >= 0 then (if m <= n then m else n)
    else if n + m >= 0 then n + m
    else 0
  }

  // ---- filter_neighbors ----

  /** The edges the loop removes at x: `edges[M:]` of x's edges by descending cosine. */
  function Overflow<N(==)>(es: seq<Edge<N>>, x: N, M: int): seq<Edge<N>>
  {
    var s := ByCosine(Incident(es, x));
    s[SliceFrom(|s|, M)..]
  }

  /** The loop body for node x. */
  function NeighborStep<N(==)>(es: seq<Edge<N>>, x: N, M: int): seq<Edge<N>>
  {
    if |Incident(es, x)| > M then Without(es, Overflow(es, x, M)) else es
  }

  /** The edges after the loop has visited the nodes ns in order. */
  function NeighborsFiltered<N(==)>(es: seq<Edge<N>>, ns: seq<N>, M: int): seq<Edge<N>>
  {
    if ns == [] then es
    else NeighborStep(NeighborsFiltered(es, ns[..|ns| - 1], M), ns[|ns| - 1], M)
  }

  /**
   * `filter_neighbors(graph, M)`: the graph is filtered in place, its nodes untouched;
   * afterwards (for M >= 0) no node has more than M edges.
   */
  method FilterNeighbors<N(==)>(g: Graph<N>, M: int)
    requires g.Valid()
    modifies g`edges
    ensures g.Valid()
    ensures g.edges == NeighborsFiltered(old(g.edges), g.nodes, M)
    ensures M >= 0 ==> forall i :: 0 <= i < |g.nodes| ==> |Incident(g.edges, g.nodes[i])| <= M
  {
    var ns := g.nodes;
    for k := 0 to |ns|
      invariant g.Valid() && g.nodes == ns
      invariant g.edges == NeighborsFiltered(old(g.edges), ns[..k], M)
    {
      assert ns[..k + 1][..k] == ns[..k];
      var edges := ByCosine(Incident(g.edges, ns[k]));
      if |edges| > M {
        g.RemoveEdgesFrom(edges[SliceFrom(|edges|, M)..]);
      }
    }
    assert ns[..|ns|] == ns;
    if M >= 0 {
      UniquePairsDistinct(old(g.edges));
      NeighborsDegree(old(g.edges), ns, M);
    }
  }

  lemma FilterWithin<T>(s: seq<T>, keep: T -> bool)
    ensures Within(Filter(s, keep), s)
  {
    var r := Filter(s, keep);
    forall x | x in r ensures x in s {
      var k :| 0 <= k < |r| && r[k] == x;
    }
  }

  lemma WithinTrans<T>(a: seq<T>, b: seq<T>, c: seq<T>)
    requires Within(a, b) && Within(b, c)
    ensures Within(a, c)
  {
  }

  lemma NeighborStepWithin<N>(es: seq<Edge<N>>, x: N, M: int)
    ensures Within(NeighborStep(es, x, M), es)
  {
    FilterWithin(es, (e: Edge<N>) => !LinksAny(e, Overflow(es, x, M)));
  }

  /** filter_neighbors only removes edges: every edge left was there, with its record. */
  lemma {:induction false} NeighborsOnlyRemove<N>(es: seq<Edge<N>>, ns: seq<N>, M: int)
    ensures Within(NeighborsFiltered(es, ns, M), es)
    ensures |NeighborsFiltered(es, ns, M)| <= |es|
  {
    if ns != [] {
      var before := NeighborsFiltered(es, ns[..|ns| - 1], M);
      NeighborsOnlyRemove(es, ns[..|ns| - 1], M);
      NeighborStepWithin(before, ns[|ns| - 1], M);
      WithinTrans(NeighborsFiltered(es, ns, M), before, es);
    }
  }

  /** A node's edge list only shrinks when edges are removed elsewhere. */
  lemma IncidentShrinks<N>(es: seq<Edge<N>>, rs: seq<Edge<N>>, y: N)
    ensures |Incident(Without(es, rs), y)| <= |Incident(es, y)|
  {
    IncidentWithout(es, rs, y);
  }

  lemma NeighborStepShrinks<N>(es: seq<Edge<N>>, x: N, M: int, y: N)
    ensures |Incident(NeighborStep(es, x, M), y)| <= |Incident(es, y)|
  {
    if |Incident(es, x)| > M {
      IncidentShrinks(es, Overflow(es, x, M), y);
    }
  }

  lemma NeighborStepDistinct<N>(es: seq<Edge<N>>, x: N, M: int)
    requires Distinct(es)
    ensures Distinct(NeighborStep(es, x, M))
  {
    if |Incident(es, x)| > M {
      FilterDistinct(es, (e: Edge<N>) => !LinksAny(e, Overflow(es, x, M)));
    }
  }

  /** The edges of x that survive x's step all come from the kept head of the sorted list. */
  lemma SurvivorsKept<N>(es: seq<Edge<N>>, x: N, M: int, e: Edge<N>)
    requires |Incident(es, x)| > M
    requires e in Incident(NeighborStep(es, x, M), x)
    ensures var s := ByCosine(Incident(es, x)); e in s[..SliceFrom(|s|, M)]
  {
    var s := ByCosine(Incident(es, x));
    var c := SliceFrom(|s|, M);
    var rs := Overflow(es, x, M);
    IncidentWithout(es, rs, x);
    var i := Incident(es, x);
    var kept := Without(i, rs);
    var k :| 0 <= k < |kept| && kept[k] == e;
    OnlyHeadKept(es, x, M, e);
  }

  /** After its own step a node keeps at most M edges (M >= 0, no repeated edge). */
  lemma NeighborStepDegree<N>(es: seq<Edge<N>>, x: N, M: int)
    requires Distinct(es) && M >= 0
    ensures |Incident(NeighborStep(es, x, M), x)| <= M
  {
    if |Incident(es, x)| > M {
      var s := ByCosine(Incident(es, x));
      var after := Incident(NeighborStep(es, x, M), x);
      NeighborStepDistinct(es, x, M);
      FilterDistinct(NeighborStep(es, x, M), (e: Edge<N>) => Touches(e, x));
      forall e | e in after ensures e in s[..SliceFrom(|s|, M)] {
        SurvivorsKept(es, x, M, e);
      }
      DistinctWithin(after, s[..SliceFrom(|s|, M)]);
    }
  }

  lemma DegreeAfterStep<N>(es: seq<Edge<N>>, x: N, M: int, y: N)
    requires Distinct(es) && M >= 0
    requires y == x || |Incident(es, y)| <= M
    ensures |Incident(NeighborStep(es, x, M), y)| <= M
  {
    if y == x {
      NeighborStepDegree(es, x, M);
    } else {
      NeighborStepShrinks(es, x, M, y);
    }
  }

  /**
   * After filter_neighbors every visited node has degree at most M: its own step
   * cuts it to M and later steps only remove edges.
   */
  lemma {:induction false} NeighborsDegree<N>(es: seq<Edge<N>>, ns: seq<N>, M: int)
    requires Distinct(es) && M >= 0
    ensures Distinct(NeighborsFiltered(es, ns, M))
    ensures forall i :: 0 <= i < |ns| ==> |Incident(NeighborsFiltered(es, ns, M), ns[i])| <= M
  {
    if ns != [] {
      var n := |ns| - 1;
      var before := NeighborsFiltered(es, ns[..n], M);
      NeighborsDegree(es, ns[..n], M);
      NeighborStepDistinct(before, ns[n], M);
      var after := NeighborStep(before, ns[n], M);
      assert NeighborsFiltered(es, ns, M) == after;
      forall i | 0 <= i < |ns| ensures |Incident(after, ns[i])| <= M {
        if i < n {
          assert ns[..n][i] == ns[i];
        }
        DegreeAfterStep(before, ns[n], M, ns[i]);
      }
    }
  }

  /** The edges of x that its step keeps: the head of the list by descending cosine. */
  function Best<N(==)>(es: seq<Edge<N>>, x: N, M: int): seq<Edge<N>>
  {
    var s := ByCosine(Incident(es, x));
    s[..SliceFrom(|s|, M)]
  }

  /** An edge record occurs in the graph once per pair (two records of one pair are one record). */
  lemma SamePair<N>(es: seq<Edge<N>>, a: Edge<N>, b: Edge<N>)
    requires UniquePairs(es) && a in es && b in es && Links(a, b.u, b.v)
    ensures a == b
  {
    var p :| 0 <= p < |es| && es[p] == a;
    var q :| 0 <= q < |es| && es[q] == b;
    assert p < q ==> !Links(b, a.u, a.v);
    assert q < p ==> !Links(a, b.u, b.v);
  }

  lemma {:induction false} DistinctCounts<T>(s: seq<T>)
    ensures Distinct(s) <==> forall x :: multiset(s)[x] <= 1
  {
    if Distinct(s) && s != [] {
      var init := s[..|s| - 1];
      assert s == init + [s[|s| - 1]];
      assert Distinct(init);
      DistinctCounts(init);
      assert s[|s| - 1] !in init;
    }
    if !Distinct(s) {
      var p, q :| 0 <= p < q < |s| && s[p] == s[q];
      assert s == s[..q] + s[q..];
      assert s[p] in s[..q] && s[q] in s[q..];
      assert multiset(s)[s[p]] == multiset(s[..q])[s[p]] + multiset(s[q..])[s[p]];
    }
  }

  lemma DistinctPermutation<T>(a: seq<T>, b: seq<T>)
    requires Distinct(a) && multiset(a) == multiset(b)
    ensures Distinct(b)
  {
    DistinctCounts(a);
    DistinctCounts(b);
  }

  lemma {:induction false} FilterSame<T>(s: seq<T>, f: T -> bool, g: T -> bool)
    requires forall k :: 0 <= k < |s| ==> f(s[k]) == g(s[k])
    ensures Filter(s, f) == Filter(s, g)
  {
    if s != [] {
      FilterSame(s[..|s| - 1], f, g);
    }
  }

  /** An edge of x survives x's step exactly when it is among the kept head. */
  lemma KeptIff<N>(es: seq<Edge<N>>, x: N, M: int, e: Edge<N>)
    requires UniquePairs(es) && |Incident(es, x)| > M && e in Incident(es, x)
    ensures !LinksAny(e, Overflow(es, x, M)) <==> e in Best(es, x, M)
  {
    if !LinksAny(e, Overflow(es, x, M)) {
      OnlyHeadKept(es, x, M, e);
    }
    if e in Best(es, x, M) {
      HeadKept(es, x, M, e);
    }
  }

  lemma OnlyHeadKept<N>(es: seq<Edge<N>>, x: N, M: int, e: Edge<N>)
    requires e in Incident(es, x) && !LinksAny(e, Overflow(es, x, M))
    ensures e in Best(es, x, M)
  {
    var s := ByCosine(Incident(es, x));
    var c := SliceFrom(|s|, M);
    assert e in multiset(s);
    var j :| 0 <= j < |s| && s[j] == e;
    if j >= c {
      assert false;
    }
    assert s[..c][j] == e;
  }

  lemma SortedDistinct<N>(es: seq<Edge<N>>, x: N)
    requires UniquePairs(es)
    ensures Distinct(ByCosine(Incident(es, x)))
  {
    UniquePairsDistinct(es);
    FilterDistinct(es, (e: Edge<N>) => Touches(e, x));
    DistinctPermutation(Incident(es, x), ByCosine(Incident(es, x)));
  }

  lemma HeadKept<N>(es: seq<Edge<N>>, x: N, M: int, e: Edge<N>)
    requires UniquePairs(es) && e in Best(es, x, M)
    ensures !LinksAny(e, Overflow(es, x, M))
  {
    var i := Incident(es, x);
    var s := ByCosine(i);
    var c := SliceFrom(|s|, M);
    var rs := Overflow(es, x, M);
    if LinksAny(e, rs) {
      var k :| 0 <= k < |rs| && Links(e, rs[k].u, rs[k].v);
      var p :| 0 <= p < c && s[..c][p] == e;
      assert rs[k] == s[c + k] && s[p] == e;
      assert e in multiset(i) && rs[k] in multiset(i);
      SamePair(es, e, rs[k]);
      SortedDistinct(es, x);
      assert false;
    }
  }

  /**
   * A node of degree above M keeps, after its step, exactly the M edges of highest
   * cosine (ties in prior adjacency order, which the stable sort keeps), listed in
   * adjacency order.
   */
  lemma NeighborStepKeepsBest<N>(es: seq<Edge<N>>, x: N, M: int)
    requires UniquePairs(es) && |Incident(es, x)| > M
    ensures Incident(NeighborStep(es, x, M), x) == Filter(Incident(es, x), (e: Edge<N>) => e in Best(es, x, M))
  {
    var i := Incident(es, x);
    var rs := Overflow(es, x, M);
    IncidentWithout(es, rs, x);
    forall k | 0 <= k < |i| ensures !LinksAny(i[k], rs) == (i[k] in Best(es, x, M)) {
      KeptIff(es, x, M, i[k]);
    }
    FilterSame(i, (e: Edge<N>) => !LinksAny(e, rs), (e: Edge<N>) => e in Best(es, x, M));
  }

  // ---- the star of msmolnet/tests/test_filter_neighbors.py ----

  lemma {:induction false} FilterAll<T>(s: seq<T>, keep: T -> bool)
    requires forall k :: 0 <= k < |s| ==> keep(s[k])
    ensures Filter(s, keep) == s
  {
    if s != [] {
      var init := s[..|s| - 1];
      FilterAll(init, keep);
      assert s == init + [s[|s| - 1]];
    }
  }

  /** Data with one element per pair builds exactly those edges, in order. */
  lemma {:induction false} EdgesOfUnique<N>(stream: seq<Edge<N>>)
    requires UniquePairs(stream)
    ensures EdgesOf(stream) == stream
  {
    if stream != [] {
      var n := |stream| - 1;
      var init, last := stream[..n], stream[n];
      assert UniquePairs(init);
      EdgesOfUnique(init);
      forall k | 0 <= k < n ensures !Links(init[k], last.u, last.v) {
        assert !Links(stream[n], stream[k].u, stream[k].v);
      }
      assert stream == init + [last];
    }
  }

  /** Visiting a + b is visiting a, then b. */
  lemma {:induction false} NeighborsFilteredSplit<N>(es: seq<Edge<N>>, a: seq<N>, b: seq<N>, M: int)
    ensures NeighborsFiltered(es, a + b, M) == NeighborsFiltered(NeighborsFiltered(es, a, M), b, M)
  {
    if b == [] {
      assert a + b == a;
    } else {
      var init := b[..|b| - 1];
      assert (a + b)[..|a + b| - 1] == a + init;
      assert (a + b)[|a + b| - 1] == b[|b| - 1];
      NeighborsFilteredSplit(es, a, init, M);
    }
  }

  /** A graph with at most M edges has no node above degree M: nothing is removed. */
  lemma {:induction false} NeighborsSmall<N>(es: seq<Edge<N>>, ns: seq<N>, M: int)
    requires |es| <= M
    ensures NeighborsFiltered(es, ns, M) == es
  {
    if ns != [] {
      NeighborsSmall(es, ns[..|ns| - 1], M);
    }
  }

  /**
   * A star: hub h joined by a .. f to six other distinct nodes, where b, c and d score
   * higher than a, e and f.
   */
  ghost predicate Star<N>(h: N, a: Edge<N>, b: Edge<N>, c: Edge<N>, d: Edge<N>, e: Edge<N>, f: Edge<N>)
  {
    Spoke(h, a) && Spoke(h, b) && Spoke(h, c) && Spoke(h, d) && Spoke(h, e) && Spoke(h, f)
    && Distinct([a.v, b.v, c.v, d.v, e.v, f.v])
    && Beats(b, a, e, f) && Beats(c, a, e, f) && Beats(d, a, e, f)
  }

  /** x joins the hub h to another node. */
  ghost predicate Spoke<N>(h: N, x: Edge<N>)
  {
    x.u == h && x.v != h
  }

  /** x scores higher than each of p, q and r. */
  ghost predicate Beats<N>(x: Edge<N>, p: Edge<N>, q: Edge<N>, r: Edge<N>)
  {
    Cosine(x) > Cosine(p) && Cosine(x) > Cosine(q) && Cosine(x) > Cosine(r)
  }

  /** Of the first three entries of a list without repeats, one is neither y nor z. */
  lemma NotOnlyTwo<T>(s: seq<T>, y: T, z: T)
    requires Distinct(s) && |s| >= 3
    ensures (s[0] != y && s[0] != z) || (s[1] != y && s[1] != z) || (s[2] != y && s[2] != z)
  {
    assert s[0] != s[1] && s[0] != s[2] && s[1] != s[2];
  }

  /**
   * In a descending list of the six edges x, y, z, p, q, r without repeats, x, which
   * beats p, q and r, sits among the first three.
   */
  lemma RankedHigh<N>(s: seq<Edge<N>>, j: int, x: Edge<N>, y: Edge<N>, z: Edge<N>, p: Edge<N>, q: Edge<N>, r: Edge<N>)
    requires Descending(s, Cosine) && Distinct(s) && 0 <= j < |s| && s[j] == x
    requires forall i :: 0 <= i < |s| ==> s[i] == x || s[i] == y || s[i] == z || s[i] == p || s[i] == q || s[i] == r
    requires Beats(x, p, q, r)
    ensures j < 3
  {
    forall i | 0 <= i < j ensures s[i] == y || s[i] == z {
      assert Cosine(s[i]) >= Cosine(s[j]);
    }
    if |s| >= 3 {
      NotOnlyTwo(s, y, z);
    }
  }

  /** Sorted by descending cosine, the first three edges of a star are b, c and d. */
  lemma StarBest<N>(a: Edge<N>, b: Edge<N>, c: Edge<N>, d: Edge<N>, e: Edge<N>, f: Edge<N>)
    requires Distinct([a, b, c, d, e, f]) && b != c && b != d && c != d
    requires Beats(b, a, e, f) && Beats(c, a, e, f) && Beats(d, a, e, f)
    ensures var top := ByCosine([a, b, c, d, e, f])[..3];
      a !in top && b in top && c in top && d in top && e !in top && f !in top
  {
    var st := [a, b, c, d, e, f];
    assert st[0] != st[1] && st[0] != st[2] && st[0] != st[3];
    assert st[4] != st[1] && st[4] != st[2] && st[4] != st[3];
    assert st[5] != st[1] && st[5] != st[2] && st[5] != st[3];
    SortedSix(a, b, c, d, e, f);
    TopThree(ByCosine(st), a, b, c, d, e, f);
  }

  /** The spokes of a star are distinct, one per pair, and all touch the hub. */
  lemma StarDistinct<N>(h: N, a: Edge<N>, b: Edge<N>, c: Edge<N>, d: Edge<N>, e: Edge<N>, f: Edge<N>)
    requires Star(h, a, b, c, d, e, f)
    ensures var st := [a, b, c, d, e, f];
      Distinct(st) && b != c && b != d && c != d && UniquePairs(st) && Incident(st, h) == st
  {
    var st := [a, b, c, d, e, f];
    var vs := [a.v, b.v, c.v, d.v, e.v, f.v];
    assert forall k :: 0 <= k < 6 ==> vs[k] == st[k].v && Spoke(h, st[k]);
    assert vs[1] != vs[2] && vs[1] != vs[3] && vs[2] != vs[3];
    FilterAll(st, (x: Edge<N>) => Touches(x, h));
  }

  /** Sorting six distinct edges keeps them distinct and lists exactly them. */
  lemma SortedSix<N>(a: Edge<N>, b: Edge<N>, c: Edge<N>, d: Edge<N>, e: Edge<N>, f: Edge<N>)
    requires Distinct([a, b, c, d, e, f])
    ensures var s := ByCosine([a, b, c, d, e, f]);
      Distinct(s) && |s| == 6 && b in s && c in s && d in s
      && forall i :: 0 <= i < |s| ==> s[i] == a || s[i] == b || s[i] == c || s[i] == d || s[i] == e || s[i] == f
  {
    var st := [a, b, c, d, e, f];
    SortedMembers(st);
    DistinctPermutation(st, ByCosine(st));
    assert st[1] == b && st[2] == c && st[3] == d;
    var s := ByCosine(st);
    forall i | 0 <= i < |s| ensures s[i] == a || s[i] == b || s[i] == c || s[i] == d || s[i] == e || s[i] == f {
      InSix(s[i], a, b, c, d, e, f);
    }
  }

  lemma InSix<T>(x: T, a: T, b: T, c: T, d: T, e: T, f: T)
    requires x in [a, b, c, d, e, f]
    ensures x == a || x == b || x == c || x == d || x == e || x == f
  {
  }

  lemma SameMembers<T>(a: seq<T>, b: seq<T>)
    requires multiset(a) == multiset(b)
    ensures forall x :: x in a <==> x in b
  {
    forall x ensures x in a <==> x in b {
      assert x in a <==> x in multiset(a);
      assert x in b <==> x in multiset(b);
    }
  }

  /** Sorting lists the same edges. */
  lemma SortedMembers<N>(st: seq<Edge<N>>)
    ensures |ByCosine(st)| == |st|
    ensures forall i :: 0 <= i < |st| ==> ByCosine(st)[i] in st && st[i] in ByCosine(st)
  {
    var s := ByCosine(st);
    forall i | 0 <= i < |st| ensures s[i] in st && st[i] in s {
      assert s[i] in multiset(s) && st[i] in multiset(st);
    }
  }

  /** A descending list of a .. f without repeats, where b, c and d beat the others, starts with b, c and d. */
  lemma TopThree<N>(s: seq<Edge<N>>, a: Edge<N>, b: Edge<N>, c: Edge<N>, d: Edge<N>, e: Edge<N>, f: Edge<N>)
    requires Descending(s, Cosine) && Distinct(s) && |s| == 6
    requires forall i :: 0 <= i < |s| ==> s[i] == a || s[i] == b || s[i] == c || s[i] == d || s[i] == e || s[i] == f
    requires b in s && c in s && d in s && b != c && b != d && c != d
    requires Beats(b, a, e, f) && Beats(c, a, e, f) && Beats(d, a, e, f)
    ensures forall x :: x in s[..3] <==> x == b || x == c || x == d
  {
    var jb :| 0 <= jb < 6 && s[jb] == b;
    var jc :| 0 <= jc < 6 && s[jc] == c;
    var jd :| 0 <= jd < 6 && s[jd] == d;
    RankedHigh(s, jb, b, c, d, a, e, f);
    RankedHigh(s, jc, c, b, d, a, e, f);
    RankedHigh(s, jd, d, b, c, a, e, f);
    assert s[..3] == [s[0], s[1], s[2]];
  }

  lemma FilterSix<T>(a: T, b: T, c: T, d: T, e: T, f: T, keep: T -> bool)
    requires !keep(a) && keep(b) && keep(c) && keep(d) && !keep(e) && !keep(f)
    ensures Filter([a, b, c, d, e, f], keep) == [b, c, d]
  {
    var s := [a, b, c, d, e, f];
    assert s[..5] == [a, b, c, d, e];
    assert s[..5][..4] == [a, b, c, d];
    assert s[..5][..4][..3] == [a, b, c];
    assert s[..5][..4][..3][..2] == [a, b];
    assert s[..5][..4][..3][..2][..1] == [a];
    assert Filter([a], keep) == [];
    assert Filter([a, b], keep) == [b];
    assert Filter([a, b, c], keep) == [b, c];
    assert Filter([a, b, c, d], keep) == [b, c, d];
    assert Filter([a, b, c, d, e], keep) == [b, c, d];
  }

  /** When every spoke touches the hub, the hub's head of three is b, c and d. */
  lemma StarKept<N>(h: N, a: Edge<N>, b: Edge<N>, c: Edge<N>, d: Edge<N>, e: Edge<N>, f: Edge<N>)
    requires Incident([a, b, c, d, e, f], h) == [a, b, c, d, e, f]
    requires Distinct([a, b, c, d, e, f]) && b != c && b != d && c != d
    requires Beats(b, a, e, f) && Beats(c, a, e, f) && Beats(d, a, e, f)
    ensures var best := Best([a, b, c, d, e, f], h, 3);
      a !in best && b in best && c in best && d in best && e !in best && f !in best
  {
    var st := [a, b, c, d, e, f];
    StarBest(a, b, c, d, e, f);
    assert Best(st, h, 3) == ByCosine(st)[..3];
  }

  /** After the hub's step, its edges are b, c and d. */
  lemma StarIncident<N>(h: N, a: Edge<N>, b: Edge<N>, c: Edge<N>, d: Edge<N>, e: Edge<N>, f: Edge<N>)
    requires Star(h, a, b, c, d, e, f)
    ensures Incident(NeighborStep([a, b, c, d, e, f], h, 3), h) == [b, c, d]
  {
    var st := [a, b, c, d, e, f];
    StarDistinct(h, a, b, c, d, e, f);
    StarKept(h, a, b, c, d, e, f);
    NeighborStepKeepsBest(st, h, 3);
    FilterSix(a, b, c, d, e, f, (x: Edge<N>) => x in Best(st, h, 3));
  }

  /** The hub's step leaves exactly b, c and d. */
  lemma StarStep<N>(h: N, a: Edge<N>, b: Edge<N>, c: Edge<N>, d: Edge<N>, e: Edge<N>, f: Edge<N>)
    requires Star(h, a, b, c, d, e, f)
    ensures NeighborStep([a, b, c, d, e, f], h, 3) == [b, c, d]
  {
    StarDistinct(h, a, b, c, d, e, f);
    StarIncident(h, a, b, c, d, e, f);
    HubStep([a, b, c, d, e, f], h, 3);
  }

  /** When every edge touches x, so does every edge left by x's step. */
  lemma HubStep<N>(es: seq<Edge<N>>, x: N, M: int)
    requires Incident(es, x) == es
    ensures Incident(NeighborStep(es, x, M), x) == NeighborStep(es, x, M)
  {
    var es1 := NeighborStep(es, x, M);
    NeighborStepWithin(es, x, M);
    forall k | 0 <= k < |es1| ensures Touches(es1[k], x) {
      assert es1[k] in es;
      var j :| 0 <= j < |es| && es[j] == es1[k];
      assert Touches(Incident(es, x)[j], x);
    }
    FilterAll(es1, (e: Edge<N>) => Touches(e, x));
  }

  /** Visiting the hub alone leaves b, c and d. */
  lemma StarHubFirst<N>(h: N, a: Edge<N>, b: Edge<N>, c: Edge<N>, d: Edge<N>, e: Edge<N>, f: Edge<N>)
    requires Star(h, a, b, c, d, e, f)
    ensures NeighborsFiltered(EdgesOf([a, b, c, d, e, f]), [h], 3) == [b, c, d]
  {
    var st := [a, b, c, d, e, f];
    StarDistinct(h, a, b, c, d, e, f);
    EdgesOfUnique(st);
    StarStep(h, a, b, c, d, e, f);
    assert [h][..0] == [];
  }

  lemma IncidentThree<N>(h: N, b: Edge<N>, c: Edge<N>, d: Edge<N>)
    requires Spoke(h, b) && Spoke(h, c) && Spoke(h, d)
    ensures Incident([b, c, d], h) == [b, c, d]
  {
    FilterAll([b, c, d], (x: Edge<N>) => Touches(x, h));
  }

  /**
   * filter_neighbors with M = 3 on a star, visiting the hub first: the hub keeps b, c
   * and d, in their order.
   */
  lemma StarFiltered<N>(h: N, a: Edge<N>, b: Edge<N>, c: Edge<N>, d: Edge<N>, e: Edge<N>, f: Edge<N>, ns: seq<N>)
    requires Star(h, a, b, c, d, e, f) && |ns| >= 1 && ns[0] == h
    ensures Incident(NeighborsFiltered(EdgesOf([a, b, c, d, e, f]), ns, 3), h) == [b, c, d]
  {
    var es := EdgesOf([a, b, c, d, e, f]);
    StarHubFirst(h, a, b, c, d, e, f);
    assert ns == [h] + ns[1..];
    NeighborsFilteredSplit(es, [h], ns[1..], 3);
    NeighborsSmall([b, c, d], ns[1..], 3);
    IncidentThree(h, b, c, d);
  }

  /**
   * msmolnet/tests/test_filter_neighbors.py: with M = 3 node 1 keeps its edges to 3, 4
   * and 5 (cosines 0.6, 0.9, 0.75), listed in adjacency order. The test gives no peak
   * counts; 0 stands in.
   */
  lemma StarFixture()
    ensures var a, b, c := Edge(1, 2, Match(0.5, 0)), Edge(1, 3, Match(0.6, 0)), Edge(1, 4, Match(0.9, 0));
      var d, e, f := Edge(1, 5, Match(0.75, 0)), Edge(1, 6, Match(0.2, 0)), Edge(1, 7, Match(0.5, 0));
      Incident(NeighborsFiltered(EdgesOf([a, b, c, d, e, f]), [1, 2, 3, 4, 5, 6, 7, 8], 3), 1) == [b, c, d]
  {
    var a, b, c := Edge(1, 2, Match(0.5, 0)), Edge(1, 3, Match(0.6, 0)), Edge(1, 4, Match(0.9, 0));
    var d, e, f := Edge(1, 5, Match(0.75, 0)), Edge(1, 6, Match(0.2, 0)), Edge(1, 7, Match(0.5, 0));
    assert Star(1, a, b, c, d, e, f);
    StarFiltered(1, a, b, c, d, e, f, [1, 2, 3, 4, 5, 6, 7, 8]);
  }
}
