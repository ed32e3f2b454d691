/**
 * Peak alignment between two MS2 spectra, shared by every cosine scorer of the
 * repository: the candidate pairs of peaks within the fragment window, the greedy
 * selection over them in descending product order, and the maximum-weight matching
 * over the same candidates, whose totals are summed as the scorers do.
 */
module Alignment {
  import opened Collections
  import opened Sorting
  import opened Spectra

  function Abs(x: real): (r: real)
    ensures r >= 0.0 && (r == x || r == -x)
  {
    if x < 0.0 then -x else x
  }

  /** The closed fragment window, tried on the plain masses and on the shifted mass. */
  predicate InWindow(a: Peak, b: Peak, shift: real, tolerance: real)
  {
    Abs(a.mass - b.mass) <= tolerance || Abs(a.mass + shift - b.mass) <= tolerance
  }

  /**
   * The tuple (peak1, peak2, product). Peaks are objects compared by identity in
   * the source, so a peak is named by its position: i in the first spectrum, j in
   * the second.
   */
  datatype Candidate = Candidate(i: nat, j: nat, weight: real)

  function Weight(c: Candidate): real
  {
    c.weight
  }

  function Product(a: Peak, b: Peak): real
    requires a.scaled.Some? && b.scaled.Some?
  {
    a.scaled.value * b.scaled.value
  }

  /** The candidates contributed by peak a (at position i) against the peaks ps2, in order. */
  function RowCandidates(i: nat, a: Peak, ps2: seq<Peak>, shift: real, tolerance: real): seq<Candidate>
    requires a.scaled.Some? && AllScaled(ps2)
  {
    if ps2 == [] then []
    else
      var n := |ps2| - 1;
      RowCandidates(i, a, ps2[..n], shift, tolerance)
        + if InWindow(a, ps2[n], shift, tolerance) then [Candidate(i, n, Product(a, ps2[n]))] else []
  }

  /** The list `peak_pairs` that the nested loop over both peak lists appends to. */
  function Candidates(ps1: seq<Peak>, ps2: seq<Peak>, shift: real, tolerance: real): seq<Candidate>
    requires AllScaled(ps1) && AllScaled(ps2)
  {
    if ps1 == [] then []
    else
      var n := |ps1| - 1;
      Candidates(ps1[..n], ps2, shift, tolerance) + RowCandidates(n, ps1[n], ps2, shift, tolerance)
  }

  /** c pairs two existing peaks inside the window and carries their product. */
  predicate IsCandidate(ps1: seq<Peak>, ps2: seq<Peak>, shift: real, tolerance: real, c: Candidate)
    requires AllScaled(ps1) && AllScaled(ps2)
  {
    c.i < |ps1| && c.j < |ps2| && InWindow(ps1[c.i], ps2[c.j], shift, tolerance)
    && c.weight == Product(ps1[c.i], ps2[c.j])
  }

  lemma {:induction false} RowCandidatesExact(i: nat, a: Peak, ps2: seq<Peak>, shift: real, tolerance: real)
    requires a.scaled.Some? && AllScaled(ps2)
    ensures forall c :: c in RowCandidates(i, a, ps2, shift, tolerance) <==>
      c.i == i && c.j < |ps2| && InWindow(a, ps2[c.j], shift, tolerance) && c.weight == Product(a, ps2[c.j])
  {
    if ps2 != [] {
      var n := |ps2| - 1;
      RowCandidatesExact(i, a, ps2[..n], shift, tolerance);
    }
  }

  /** The candidate list holds exactly the peak pairs inside the window, with their products. */
  lemma {:induction false} CandidatesExact(ps1: seq<Peak>, ps2: seq<Peak>, shift: real, tolerance: real)
    requires AllScaled(ps1) && AllScaled(ps2)
    ensures forall c :: c in Candidates(ps1, ps2, shift, tolerance) <==> IsCandidate(ps1, ps2, shift, tolerance, c)
  {
    if ps1 != [] {
      var n := |ps1| - 1;
      CandidatesExact(ps1[..n], ps2, shift, tolerance);
      RowCandidatesExact(n, ps1[n], ps2, shift, tolerance);
    }
  }

  /** Without the modification the shifted test repeats the plain one: the window is |m1 - m2| <= tolerance. */
  lemma UnmodifiedWindow(ps1: seq<Peak>, ps2: seq<Peak>, tolerance: real, c: Candidate)
    requires AllScaled(ps1) && AllScaled(ps2)
    ensures c in Candidates(ps1, ps2, 0.0, tolerance) <==>
      c.i < |ps1| && c.j < |ps2| && Abs(ps1[c.i].mass - ps2[c.j].mass) <= tolerance
      && c.weight == ps1[c.i].scaled.value * ps2[c.j].scaled.value
  {
    CandidatesExact(ps1, ps2, 0.0, tolerance);
  }

  /** c comes before d in the order of the nested loop (i outer, j inner). */
  predicate Before(c: Candidate, d: Candidate)
  {
    c.i < d.i || (c.i == d.i && c.j < d.j)
  }

  predicate InLoopOrder(cs: seq<Candidate>)
  {
    forall p, q :: 0 <= p < q < |cs| ==> Before(cs[p], cs[q])
  }

  /** No two candidates pair the same two peaks. */
  predicate UniquePositions(cs: seq<Candidate>)
  {
    forall p, q :: 0 <= p < q < |cs| ==> cs[p].i != cs[q].i || cs[p].j != cs[q].j
  }

  lemma ConcatInLoopOrder(a: seq<Candidate>, b: seq<Candidate>)
    requires InLoopOrder(a) && InLoopOrder(b)
    requires forall x, y :: x in a && y in b ==> Before(x, y)
    ensures InLoopOrder(a + b)
  {
    forall p, q | 0 <= p < q < |a + b| ensures Before((a + b)[p], (a + b)[q]) {
      if q < |a| {
      } else if p < |a| {
        assert (a + b)[p] in a && (a + b)[q] in b;
      } else {
        assert (a + b)[p] == b[p - |a|] && (a + b)[q] == b[q - |a|];
      }
    }
  }

  lemma {:induction false} RowInLoopOrder(i: nat, a: Peak, ps2: seq<Peak>, shift: real, tolerance: real)
    requires a.scaled.Some? && AllScaled(ps2)
    ensures InLoopOrder(RowCandidates(i, a, ps2, shift, tolerance))
  {
    if ps2 != [] {
      var n := |ps2| - 1;
      RowInLoopOrder(i, a, ps2[..n], shift, tolerance);
      RowCandidatesExact(i, a, ps2[..n], shift, tolerance);
      var last := if InWindow(a, ps2[n], shift, tolerance) then [Candidate(i, n, Product(a, ps2[n]))] else [];
      ConcatInLoopOrder(RowCandidates(i, a, ps2[..n], shift, tolerance), last);
    }
  }

  /** `peak_pairs` is built in strictly increasing (i, j) order, so every peak pair occurs once. */
  lemma {:induction false} CandidatesInLoopOrder(ps1: seq<Peak>, ps2: seq<Peak>, shift: real, tolerance: real)
    requires AllScaled(ps1) && AllScaled(ps2)
    ensures InLoopOrder(Candidates(ps1, ps2, shift, tolerance))
    ensures UniquePositions(Candidates(ps1, ps2, shift, tolerance))
  {
    if ps1 != [] {
      var n := |ps1| - 1;
      CandidatesInLoopOrder(ps1[..n], ps2, shift, tolerance);
      RowInLoopOrder(n, ps1[n], ps2, shift, tolerance);
      CandidatesExact(ps1[..n], ps2, shift, tolerance);
      RowCandidatesExact(n, ps1[n], ps2, shift, tolerance);
      ConcatInLoopOrder(Candidates(ps1[..n], ps2, shift, tolerance), RowCandidates(n, ps1[n], ps2, shift, tolerance));
    }
    var cs := Candidates(ps1, ps2, shift, tolerance);
    assert forall p, q :: 0 <= p < q < |cs| ==> Before(cs[p], cs[q]);
  }

  /** The two nested `for` loops that fill `peak_pairs`. */
  method CollectCandidates(ps1: seq<Peak>, ps2: seq<Peak>, shift: real, tolerance: real) returns (cs: seq<Candidate>)
    requires AllScaled(ps1) && AllScaled(ps2)
    ensures cs == Candidates(ps1, ps2, shift, tolerance)
  {
    cs := [];
    for i := 0 to |ps1|
      invariant cs == Candidates(ps1[..i], ps2, shift, tolerance)
    {
      var peak1 := ps1[i];
      ghost var before := cs;
      for j := 0 to |ps2|
        invariant cs == before + RowCandidates(i, peak1, ps2[..j], shift, tolerance)
      {
        var peak2 := ps2[j];
        assert ps2[..j + 1][..j] == ps2[..j];
        assert RowCandidates(i, peak1, ps2[..j + 1], shift, tolerance)
            == RowCandidates(i, peak1, ps2[..j], shift, tolerance)
               + if InWindow(peak1, peak2, shift, tolerance) then [Candidate(i, j, Product(peak1, peak2))] else [];
        if InWindow(peak1, peak2, shift, tolerance) {
          var c := Candidate(i, j, Product(peak1, peak2));
          assert (before + RowCandidates(i, peak1, ps2[..j], shift, tolerance)) + [c]
              == before + (RowCandidates(i, peak1, ps2[..j], shift, tolerance) + [c]);
          cs := cs + [c];
        } else {
          assert RowCandidates(i, peak1, ps2[..j + 1], shift, tolerance)
              == RowCandidates(i, peak1, ps2[..j], shift, tolerance);
        }
      }
      assert ps2[..|ps2|] == ps2;
      assert ps1[..i + 1][..i] == ps1[..i];
    }
    assert ps1[..|ps1|] == ps1;
  }

  // ---------------------------------------------------------------- greedy selection

  function Firsts(a: seq<Candidate>): (r: seq<nat>)
    ensures |r| == |a| && forall k :: 0 <= k < |a| ==> r[k] == a[k].i
  {
    seq(|a|, k requires 0 <= k < |a| => a[k].i)
  }

  function Seconds(a: seq<Candidate>): (r: seq<nat>)
    ensures |r| == |a| && forall k :: 0 <= k < |a| ==> r[k] == a[k].j
  {
    seq(|a|, k requires 0 <= k < |a| => a[k].j)
  }

  /** Neither peak of c is in `used_peaks_one` / `used_peaks_two` after accepting a. */
  predicate Free(a: seq<Candidate>, c: Candidate)
  {
    c.i !in Firsts(a) && c.j !in Seconds(a)
  }

  /** The candidates the greedy loop accepts, scanning cs from the front. */
  function Accepted(cs: seq<Candidate>): seq<Candidate>
  {
    if cs == [] then []
    else
      var a := Accepted(cs[..|cs| - 1]);
      if Free(a, cs[|cs| - 1]) then a + [cs[|cs| - 1]] else a
  }

  function Sum(a: seq<Candidate>): real
  {
    if a == [] then 0.0 else Sum(a[..|a| - 1]) + a[|a| - 1].weight
  }

  /** No peak of either spectrum is used twice. */
  predicate IsMatching(a: seq<Candidate>)
  {
    Distinct(Firsts(a)) && Distinct(Seconds(a))
  }

  predicate SharePeak(c: Candidate, d: Candidate)
  {
    c.i == d.i || c.j == d.j
  }

  /** The pairs greedy keeps: the candidates sorted by descending product, then scanned. */
  function GreedyPairs(cs: seq<Candidate>): seq<Candidate>
  {
    Accepted(SortDesc(cs, Weight))
  }

  /**
   * The scan over the sorted candidates with the two used-peak lists and the running
   * total and count.
   */
  method GreedySelect(cs: seq<Candidate>) returns (total: real, count: nat)
    ensures total == Sum(Accepted(cs)) && count == |Accepted(cs)|
  {
    var usedOne: seq<nat> := [];
    var usedTwo: seq<nat> := [];
    total, count := 0.0, 0;
    ghost var accepted: seq<Candidate> := [];
    for k := 0 to |cs|
      invariant accepted == Accepted(cs[..k])
      invariant usedOne == Firsts(accepted) && usedTwo == Seconds(accepted)
      invariant total == Sum(accepted) && count == |accepted|
    {
      assert cs[..k + 1][..k] == cs[..k];
      var c := cs[k];
      if c.i !in usedOne && c.j !in usedTwo {
        total := total + c.weight;
        count := count + 1;
        usedOne := usedOne + [c.i];
        usedTwo := usedTwo + [c.j];
        accepted := accepted + [c];
        assert accepted[..|accepted| - 1] == accepted[..|accepted| - 1];
      }
    }
    assert cs[..|cs|] == cs;
  }

  /** The greedy result is a matching. */
  lemma {:induction false} AcceptedIsMatching(cs: seq<Candidate>)
    ensures IsMatching(Accepted(cs))
  {
    if cs != [] {
      var a := Accepted(cs[..|cs| - 1]);
      AcceptedIsMatching(cs[..|cs| - 1]);
      var c := cs[|cs| - 1];
      if Free(a, c) {
        assert Firsts(a + [c]) == Firsts(a) + [c.i];
        assert Seconds(a + [c]) == Seconds(a) + [c.j];
      }
    }
  }

  /** Every accepted pair is one of the candidates, and at most all of them are accepted. */
  lemma {:induction false} AcceptedWithin(cs: seq<Candidate>)
    ensures |Accepted(cs)| <= |cs|
    ensures forall c :: c in Accepted(cs) ==> c in cs
  {
    if cs != [] {
      var init := cs[..|cs| - 1];
      AcceptedWithin(init);
      assert forall c :: c in init ==> c in cs;
    }
  }

  /** What was accepted from a prefix stays accepted: the scan only appends. */
  lemma {:induction false} AcceptedPrefix(cs: seq<Candidate>, k: nat)
    requires k <= |cs|
    ensures Accepted(cs[..k]) <= Accepted(cs)
  {
    if k < |cs| {
      AcceptedPrefix(cs[..|cs| - 1], k);
      assert cs[..|cs| - 1][..k] == cs[..k];
    } else {
      assert cs[..k] == cs;
    }
  }

  /** One step of the scan: cs[k] is appended exactly when both its peaks are still free. */
  lemma AcceptedStep(cs: seq<Candidate>, k: nat)
    requires k < |cs|
    ensures Accepted(cs[..k + 1])
         == if Free(Accepted(cs[..k]), cs[k]) then Accepted(cs[..k]) + [cs[k]] else Accepted(cs[..k])
  {
    assert cs[..k + 1][..k] == cs[..k];
  }

  lemma PrefixMember<T>(x: T, s: seq<T>, t: seq<T>)
    requires s <= t && x in s
    ensures x in t
  {
    var p :| 0 <= p < |s| && s[p] == x;
    assert t[p] == x;
  }

  lemma FirstsWitness(a: seq<Candidate>, c: Candidate) returns (d: Candidate)
    requires !Free(a, c)
    ensures d in a && SharePeak(d, c)
  {
    if c.i in Firsts(a) {
      var p :| 0 <= p < |a| && Firsts(a)[p] == c.i;
      d := a[p];
    } else {
      var p :| 0 <= p < |a| && Seconds(a)[p] == c.j;
      d := a[p];
    }
  }

  /**
   * Greedy maximality: over candidates in descending product order, each candidate
   * is accepted, or it shares a peak with an accepted candidate that came earlier
   * and weighs at least as much.
   */
  lemma GreedyMaximal(cs: seq<Candidate>, k: nat)
    requires Descending(cs, Weight)
    requires k < |cs|
    ensures cs[k] in Accepted(cs)
         || exists p :: 0 <= p < k && cs[p] in Accepted(cs) && SharePeak(cs[p], cs[k]) && cs[p].weight >= cs[k].weight
  {
    var a := Accepted(cs[..k]);
    AcceptedStep(cs, k);
    if Free(a, cs[k]) {
      AcceptedPrefix(cs, k + 1);
      PrefixMember(cs[k], Accepted(cs[..k + 1]), Accepted(cs));
    } else {
      var d := FirstsWitness(a, cs[k]);
      AcceptedWithin(cs[..k]);
      var p :| 0 <= p < k && cs[..k][p] == d;
      assert Weight(cs[p]) >= Weight(cs[k]);
      AcceptedPrefix(cs, k);
      PrefixMember(cs[p], a, Accepted(cs));
    }
  }

  /** A matching over the candidates of ps1 and ps2 uses at most every peak of each spectrum once. */
  lemma MatchingBound(ps1: seq<Peak>, ps2: seq<Peak>, shift: real, tolerance: real, a: seq<Candidate>)
    requires AllScaled(ps1) && AllScaled(ps2)
    requires IsMatching(a)
    requires forall c :: c in a ==> c in Candidates(ps1, ps2, shift, tolerance)
    ensures |a| <= |ps1| && |a| <= |ps2|
  {
    CandidatesExact(ps1, ps2, shift, tolerance);
    assert forall k :: 0 <= k < |a| ==> a[k] in a;
    DistinctBelow(Firsts(a), |ps1|);
    DistinctBelow(Seconds(a), |ps2|);
  }

  /** The greedy count never exceeds the number of peaks of either spectrum. */
  lemma GreedyBound(ps1: seq<Peak>, ps2: seq<Peak>, shift: real, tolerance: real)
    requires AllScaled(ps1) && AllScaled(ps2)
    ensures IsMatching(GreedyPairs(Candidates(ps1, ps2, shift, tolerance)))
    ensures |GreedyPairs(Candidates(ps1, ps2, shift, tolerance))| <= |ps1|
    ensures |GreedyPairs(Candidates(ps1, ps2, shift, tolerance))| <= |ps2|
  {
    var cs := Candidates(ps1, ps2, shift, tolerance);
    var sorted := SortDesc(cs, Weight);
    AcceptedIsMatching(sorted);
    AcceptedWithin(sorted);
    forall c | c in Accepted(sorted) ensures c in cs {
      assert c in multiset(sorted);
    }
    MatchingBound(ps1, ps2, shift, tolerance, Accepted(sorted));
  }

  /** With no candidates greedy accepts nothing; otherwise it accepts at least the heaviest. */
  lemma GreedyEmpty(cs: seq<Candidate>)
    ensures GreedyPairs(cs) == [] <==> cs == []
  {
    var sorted := SortDesc(cs, Weight);
    if cs != [] {
      AcceptedPrefix(sorted, 1);
      assert sorted[..1][..0] == [];
      assert Accepted(sorted[..1]) == [sorted[0]];
    }
  }

  // ---------------------------------------------------------------- maximum-weight matching

  /** A node of the peak graph B: a peak of the first or of the second spectrum. */
  datatype Node = First(i: nat) | Second(j: nat)

  /** A matched pair as networkx reports it, in either orientation. */
  type NodePair = (Node, Node)

  /** The test of the summing loop: m joins the two peaks of c, in either orientation. */
  predicate Connects(m: NodePair, c: Candidate)
  {
    (m.0 == First(c.i) && m.1 == Second(c.j)) || (m.0 == Second(c.j) && m.1 == First(c.i))
  }

  /** The inner summing loop: the products of the candidates that m joins. */
  function PairSum(m: NodePair, cs: seq<Candidate>): real
  {
    if cs == [] then 0.0
    else PairSum(m, cs[..|cs| - 1]) + if Connects(m, cs[|cs| - 1]) then cs[|cs| - 1].weight else 0.0
  }

  /** The outer summing loop over the matching. */
  function MatchedTotal(ms: seq<NodePair>, cs: seq<Candidate>): real
  {
    if ms == [] then 0.0 else MatchedTotal(ms[..|ms| - 1], cs) + PairSum(ms[|ms| - 1], cs)
  }

  predicate Disjoint(m: NodePair, n: NodePair)
  {
    m.0 != n.0 && m.0 != n.1 && m.1 != n.0 && m.1 != n.1
  }

  /** m is an edge of the graph B built from the candidates. */
  ghost predicate IsEdge(cs: seq<Candidate>, m: NodePair)
  {
    exists c :: c in cs && Connects(m, c)
  }

  /** ms is a matching of the graph whose edges are the candidates. */
  ghost predicate IsMatchingOf(cs: seq<Candidate>, ms: seq<NodePair>)
  {
    (forall k :: 0 <= k < |ms| ==> IsEdge(cs, ms[k]))
    && (forall p, q :: 0 <= p < q < |ms| ==> Disjoint(ms[p], ms[q]))
  }

  /** What `max_weight_matching` promises: a matching no other matching outweighs. */
  ghost predicate IsMaxWeightMatching(cs: seq<Candidate>, ms: seq<NodePair>)
  {
    IsMatchingOf(cs, ms)
    && forall other :: IsMatchingOf(cs, other) ==> MatchedTotal(other, cs) <= MatchedTotal(ms, cs)
  }

  /** The nested summing loops of the max scorer. */
  method SumMatched(ms: seq<NodePair>, cs: seq<Candidate>) returns (total: real)
    ensures total == MatchedTotal(ms, cs)
  {
    total := 0.0;
    for k := 0 to |ms|
      invariant total == MatchedTotal(ms[..k], cs)
    {
      var m := ms[k];
      ghost var before := total;
      for l := 0 to |cs|
        invariant total == before + PairSum(m, cs[..l])
      {
        var p := cs[l];
        assert cs[..l + 1][..l] == cs[..l];
        if (m.0 == First(p.i) && m.1 == Second(p.j)) || (m.0 == Second(p.j) && m.1 == First(p.i)) {
          total := total + p.weight;
        }
      }
      assert cs[..|cs|] == cs;
      assert ms[..k + 1][..k] == ms[..k];
    }
    assert ms[..|ms|] == ms;
  }

  /** The graph edge of a candidate. */
  function EdgeOf(c: Candidate): NodePair
  {
    (First(c.i), Second(c.j))
  }

  function AsPairs(a: seq<Candidate>): (r: seq<NodePair>)
    ensures |r| == |a| && forall k :: 0 <= k < |a| ==> r[k] == EdgeOf(a[k])
  {
    seq(|a|, k requires 0 <= k < |a| => EdgeOf(a[k]))
  }

  lemma {:induction false} PairSumNone(m: NodePair, cs: seq<Candidate>)
    requires forall c :: c in cs ==> !Connects(m, c)
    ensures PairSum(m, cs) == 0.0
  {
    if cs != [] {
      PairSumNone(m, cs[..|cs| - 1]);
    }
  }

  /** When every peak pair occurs once, the summing loop finds exactly the product of c. */
  lemma {:induction false} PairSumOfMember(c: Candidate, cs: seq<Candidate>)
    requires UniquePositions(cs)
    requires c in cs
    ensures PairSum(EdgeOf(c), cs) == c.weight
  {
    var n := |cs| - 1;
    var init := cs[..n];
    assert UniquePositions(init);
    if cs[n] == c {
      forall d | d in init ensures !Connects(EdgeOf(c), d) {
        var p :| 0 <= p < n && init[p] == d;
        assert cs[p] == d;
      }
      PairSumNone(EdgeOf(c), init);
    } else {
      assert cs == init + [cs[n]];
      assert c in init;
      PairSumOfMember(c, init);
    }
  }

  lemma {:induction false} MatchedTotalOfPairs(a: seq<Candidate>, cs: seq<Candidate>)
    requires UniquePositions(cs)
    requires forall c :: c in a ==> c in cs
    ensures MatchedTotal(AsPairs(a), cs) == Sum(a)
  {
    if a != [] {
      var n := |a| - 1;
      assert AsPairs(a)[..n] == AsPairs(a[..n]);
      assert forall c :: c in a[..n] ==> c in a;
      MatchedTotalOfPairs(a[..n], cs);
      PairSumOfMember(a[n], cs);
    }
  }

  lemma AsPairsIsMatching(a: seq<Candidate>, cs: seq<Candidate>)
    requires IsMatching(a)
    requires forall c :: c in a ==> c in cs
    ensures IsMatchingOf(cs, AsPairs(a))
  {
    var ms := AsPairs(a);
    forall k | 0 <= k < |ms| ensures IsEdge(cs, ms[k]) {
      assert a[k] in a;
      assert a[k] in cs && Connects(ms[k], a[k]);
    }
    forall p, q | 0 <= p < q < |ms| ensures Disjoint(ms[p], ms[q]) {
      assert Firsts(a)[p] != Firsts(a)[q];
      assert Seconds(a)[p] != Seconds(a)[q];
    }
  }

  /** The max-weight total is at least the greedy total on the same candidates. */
  lemma MaxAtLeastGreedy(cs: seq<Candidate>, ms: seq<NodePair>)
    requires UniquePositions(cs)
    requires IsMaxWeightMatching(cs, ms)
    ensures MatchedTotal(ms, cs) >= Sum(GreedyPairs(cs))
  {
    var sorted := SortDesc(cs, Weight);
    var a := Accepted(sorted);
    AcceptedIsMatching(sorted);
    AcceptedWithin(sorted);
    forall c | c in a ensures c in cs {
      assert c in multiset(sorted);
    }
    AsPairsIsMatching(a, cs);
    MatchedTotalOfPairs(a, cs);
  }

  /** The First-spectrum peak that an entry joining some candidate contains. */
  function FirstIndex(m: NodePair): nat
  {
    if m.0.First? then m.0.i else if m.1.First? then m.1.i else 0
  }

  function SecondIndex(m: NodePair): nat
  {
    if m.0.Second? then m.0.j else if m.1.Second? then m.1.j else 0
  }

  /** `len(matching)` is bounded by the number of peaks of either spectrum. */
  lemma MaxBound(ps1: seq<Peak>, ps2: seq<Peak>, shift: real, tolerance: real, ms: seq<NodePair>)
    requires AllScaled(ps1) && AllScaled(ps2)
    requires IsMatchingOf(Candidates(ps1, ps2, shift, tolerance), ms)
    ensures |ms| <= |ps1| && |ms| <= |ps2|
  {
    var cs := Candidates(ps1, ps2, shift, tolerance);
    CandidatesExact(ps1, ps2, shift, tolerance);
    var firsts := seq(|ms|, k requires 0 <= k < |ms| => FirstIndex(ms[k]));
    var seconds := seq(|ms|, k requires 0 <= k < |ms| => SecondIndex(ms[k]));
    forall k | 0 <= k < |ms| ensures firsts[k] < |ps1| && seconds[k] < |ps2| {
      var c :| c in cs && Connects(ms[k], c);
    }
    forall p, q | 0 <= p < q < |ms| ensures firsts[p] != firsts[q] && seconds[p] != seconds[q] {
      var c :| c in cs && Connects(ms[p], c);
      var d :| d in cs && Connects(ms[q], d);
      assert Disjoint(ms[p], ms[q]);
    }
    DistinctBelow(firsts, |ps1|);
    DistinctBelow(seconds, |ps2|);
  }

  /** A candidate that entry m of a matching joins. */
  ghost function EdgeWitness(cs: seq<Candidate>, m: NodePair): (c: Candidate)
    requires IsEdge(cs, m)
    ensures c in cs && Connects(m, c)
  {
    var c :| c in cs && Connects(m, c); c
  }

  /** Distinct entries of a matching join distinct candidates, so `len(matching)` is at most their number. */
  lemma MatchingWithin(cs: seq<Candidate>, ms: seq<NodePair>)
    requires IsMatchingOf(cs, ms)
    ensures |ms| <= |cs|
  {
    var picks := seq(|ms|, k requires 0 <= k < |ms| => EdgeWitness(cs, ms[k]));
    forall p, q | 0 <= p < q < |ms| ensures picks[p] != picks[q] {
      assert Disjoint(ms[p], ms[q]);
    }
    DistinctWithin(picks, cs);
  }

  /** With no candidates the only matching is the empty one, so the total is 0. */
  lemma MaxEmpty(ms: seq<NodePair>)
    requires IsMatchingOf([], ms)
    ensures ms == [] && MatchedTotal(ms, []) == 0.0
  {
    MatchingWithin([], ms);
  }
}
