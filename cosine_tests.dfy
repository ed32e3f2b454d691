/**
 * The scorer fixtures of msmolnet/tests/test_cosine.py, stated over reals: the test
 * spectra are built from literal peaks and the intensities that euclidean_scale
 * would give them.
 */
module CosineTests {
  import opened Wrappers
  import opened Spectra
  import opened Alignment
  import opened Sorting
  import opened MatchMaps
  import opened Similarity

  /** The four-peak list of a row of RowCandidates, unfolded. */
  lemma RowOfFour(i: nat, a: Peak, ps2: seq<Peak>, shift: real, tolerance: real)
    requires a.scaled.Some? && AllScaled(ps2) && |ps2| == 4
    ensures RowCandidates(i, a, ps2, shift, tolerance)
      == (if InWindow(a, ps2[0], shift, tolerance) then [Candidate(i, 0, Product(a, ps2[0]))] else [])
       + (if InWindow(a, ps2[1], shift, tolerance) then [Candidate(i, 1, Product(a, ps2[1]))] else [])
       + (if InWindow(a, ps2[2], shift, tolerance) then [Candidate(i, 2, Product(a, ps2[2]))] else [])
       + (if InWindow(a, ps2[3], shift, tolerance) then [Candidate(i, 3, Product(a, ps2[3]))] else [])
  {
    var r0 := RowCandidates(i, a, ps2[..0], shift, tolerance);
    var r1 := RowCandidates(i, a, ps2[..1], shift, tolerance);
    var r2 := RowCandidates(i, a, ps2[..2], shift, tolerance);
    var r3 := RowCandidates(i, a, ps2[..3], shift, tolerance);
    assert ps2[..1][..0] == ps2[..0] && ps2[..2][..1] == ps2[..1] && ps2[..3][..2] == ps2[..2] && ps2[..4] == ps2;
    assert r0 == [];
    assert r1 == r0 + (if InWindow(a, ps2[0], shift, tolerance) then [Candidate(i, 0, Product(a, ps2[0]))] else []);
    assert r2 == r1 + (if InWindow(a, ps2[1], shift, tolerance) then [Candidate(i, 1, Product(a, ps2[1]))] else []);
    assert r3 == r2 + (if InWindow(a, ps2[2], shift, tolerance) then [Candidate(i, 2, Product(a, ps2[2]))] else []);
    assert ps2[..4][..3] == ps2[..3];
  }

  /** The first spectrum of max_v_greedy; x is the scaled intensity of its last peak. */
  function GreedyOne(x: real): seq<Peak>
  {
    [Peak(50.4, 16.0, Some(0.4)), Peak(50.7, 36.0, Some(0.6)), Peak(74.8, 25.0, Some(0.5)), Peak(96.2, 23.0, Some(x))]
  }

  /** The second spectrum of max_v_greedy; y is the scaled intensity of its last peak. */
  function GreedyTwo(y: real): seq<Peak>
  {
    [Peak(50.6, 49.0, Some(0.7)), Peak(50.9, 25.0, Some(0.5)), Peak(74.6, 9.0, Some(0.3)), Peak(102.4, 17.0, Some(y))]
  }

  /** Candidates over a four-peak first spectrum, row by row. */
  lemma CandidatesOfFour(ps1: seq<Peak>, ps2: seq<Peak>, shift: real, tolerance: real)
    requires AllScaled(ps1) && AllScaled(ps2) && |ps1| == 4
    ensures Candidates(ps1, ps2, shift, tolerance)
      == RowCandidates(0, ps1[0], ps2, shift, tolerance) + RowCandidates(1, ps1[1], ps2, shift, tolerance)
       + RowCandidates(2, ps1[2], ps2, shift, tolerance) + RowCandidates(3, ps1[3], ps2, shift, tolerance)
  {
    assert ps1[..1][..0] == ps1[..0] && ps1[..2][..1] == ps1[..1] && ps1[..3][..2] == ps1[..2] && ps1[..4] == ps1;
    var c1 := Candidates(ps1[..1], ps2, shift, tolerance);
    var c2 := Candidates(ps1[..2], ps2, shift, tolerance);
    var c3 := Candidates(ps1[..3], ps2, shift, tolerance);
    assert ps1[..1][0] == ps1[0] && ps1[..2][1] == ps1[1] && ps1[..3][2] == ps1[2];
    assert Candidates(ps1[..0], ps2, shift, tolerance) == [];
    assert c1 == RowCandidates(0, ps1[0], ps2, shift, tolerance);
    assert c2 == c1 + RowCandidates(1, ps1[1], ps2, shift, tolerance);
    assert c3 == c2 + RowCandidates(2, ps1[2], ps2, shift, tolerance);
    assert ps1[..4][..3] == ps1[..3];
  }

  lemma GreedyRowZero(y: real)
    ensures RowCandidates(0, GreedyOne(0.0)[0], GreedyTwo(y), 0.0, 0.3) == [Candidate(0, 0, 0.28)]
  {
    RowOfFour(0, GreedyOne(0.0)[0], GreedyTwo(y), 0.0, 0.3);
  }

  lemma GreedyRowOne(y: real)
    ensures RowCandidates(1, GreedyOne(0.0)[1], GreedyTwo(y), 0.0, 0.3) == [Candidate(1, 0, 0.42), Candidate(1, 1, 0.30)]
  {
    RowOfFour(1, GreedyOne(0.0)[1], GreedyTwo(y), 0.0, 0.3);
  }

  lemma GreedyRowTwo(y: real)
    ensures RowCandidates(2, GreedyOne(0.0)[2], GreedyTwo(y), 0.0, 0.3) == [Candidate(2, 2, 0.15)]
  {
    RowOfFour(2, GreedyOne(0.0)[2], GreedyTwo(y), 0.0, 0.3);
  }

  lemma GreedyRowThree(x: real, y: real)
    ensures RowCandidates(3, GreedyOne(x)[3], GreedyTwo(y), 0.0, 0.3) == []
  {
    RowOfFour(3, GreedyOne(x)[3], GreedyTwo(y), 0.0, 0.3);
  }

  /** The candidate pairs of max_v_greedy: four, none involving the last peaks. */
  lemma GreedyCandidates(x: real, y: real)
    ensures Candidates(GreedyOne(x), GreedyTwo(y), 0.0, 0.3)
      == [Candidate(0, 0, 0.28), Candidate(1, 0, 0.42), Candidate(1, 1, 0.30), Candidate(2, 2, 0.15)]
  {
    var ps1, ps2 := GreedyOne(x), GreedyTwo(y);
    CandidatesOfFour(ps1, ps2, 0.0, 0.3);
    assert ps1[..3] == GreedyOne(0.0)[..3];
    GreedyRowZero(y);
    GreedyRowOne(y);
    GreedyRowTwo(y);
    GreedyRowThree(x, y);
  }

  /** Sorting one more element inserts it into the sorted list. */
  lemma SortSnoc<T>(s: seq<T>, x: T, key: T -> real)
    ensures SortDesc(s + [x], key) == InsertDesc(x, SortDesc(s, key), key)
  {
    assert (s + [x])[..|s|] == s;
  }

  /** An element not above the head goes behind it. */
  lemma InsertBehind<T>(x: T, s: seq<T>, key: T -> real)
    requires s != [] && key(s[0]) >= key(x)
    ensures InsertDesc(x, s, key) == [s[0]] + InsertDesc(x, s[1..], key)
  { }

  lemma SortedTwo<T>(a: T, b: T, key: T -> real)
    requires key(b) > key(a)
    ensures SortDesc([a, b], key) == [b, a]
  {
    var e: seq<T> := [];
    SortSnoc(e, a, key);
    assert e + [a] == [a];
    SortSnoc([a], b, key);
    assert [a] + [b] == [a, b];
  }

  lemma SortedThree<T>(a: T, b: T, c: T, key: T -> real)
    requires key(b) > key(c) > key(a)
    ensures SortDesc([a, b, c], key) == [b, c, a]
  {
    SortedTwo(a, b, key);
    SortSnoc([a, b], c, key);
    assert [a, b] + [c] == [a, b, c];
    InsertBehind(c, [b, a], key);
    assert [b, a][1..] == [a];
  }

  /** The stable descending sort of the four candidates, inserted left to right. */
  lemma GreedySorted<T>(a: T, b: T, c: T, d: T, key: T -> real)
    requires key(b) > key(c) > key(a) > key(d)
    ensures SortDesc([a, b, c, d], key) == [b, c, a, d]
  {
    SortedThree(a, b, c, key);
    SortSnoc([a, b, c], d, key);
    assert [a, b, c] + [d] == [a, b, c, d];
    InsertLast(d, b, c, a, key);
  }

  /** An element below three others goes last. */
  lemma InsertLast<T>(d: T, b: T, c: T, a: T, key: T -> real)
    requires key(b) >= key(d) && key(c) >= key(d) && key(a) >= key(d)
    ensures InsertDesc(d, [b, c, a], key) == [b, c, a, d]
  {
    var e: seq<T> := [];
    InsertBehind(d, [b, c, a], key);
    InsertBehind(d, [c, a], key);
    InsertBehind(d, [a], key);
    assert [b, c, a][1..] == [c, a] && [c, a][1..] == [a] && [a][1..] == e;
  }

  /** Scanning one more candidate accepts it when both its peaks are free. */
  lemma AcceptSnoc(s: seq<Candidate>, x: Candidate)
    ensures Accepted(s + [x]) == if Free(Accepted(s), x) then Accepted(s) + [x] else Accepted(s)
  {
    assert (s + [x])[..|s|] == s;
  }

  /** The scan rejects c, which reuses the first-spectrum peak of b. */
  lemma GreedyScanTwo()
    ensures Accepted([Candidate(1, 0, 0.42), Candidate(1, 1, 0.30)]) == [Candidate(1, 0, 0.42)]
  {
    var b, c := Candidate(1, 0, 0.42), Candidate(1, 1, 0.30);
    var e: seq<Candidate> := [];
    AcceptSnoc(e, b);
    assert e + [b] == [b];
    assert Firsts([b]) == [1] && Seconds([b]) == [0];
    AcceptSnoc([b], c);
    assert [b] + [c] == [b, c];
  }

  /** The scan rejects a, which reuses the second-spectrum peak of b. */
  lemma GreedyScanThree()
    ensures Accepted([Candidate(1, 0, 0.42), Candidate(1, 1, 0.30), Candidate(0, 0, 0.28)]) == [Candidate(1, 0, 0.42)]
  {
    var b, c, a := Candidate(1, 0, 0.42), Candidate(1, 1, 0.30), Candidate(0, 0, 0.28);
    GreedyScanTwo();
    assert Firsts([b]) == [1] && Seconds([b]) == [0];
    AcceptSnoc([b, c], a);
    assert [b, c] + [a] == [b, c, a];
  }

  /** The scan over the sorted candidates keeps the first and the last. */
  lemma GreedyScan()
    ensures Accepted([Candidate(1, 0, 0.42), Candidate(1, 1, 0.30), Candidate(0, 0, 0.28), Candidate(2, 2, 0.15)])
      == [Candidate(1, 0, 0.42), Candidate(2, 2, 0.15)]
  {
    var b, c, a, d := Candidate(1, 0, 0.42), Candidate(1, 1, 0.30), Candidate(0, 0, 0.28), Candidate(2, 2, 0.15);
    GreedyScanThree();
    assert Firsts([b]) == [1] && Seconds([b]) == [0];
    AcceptSnoc([b, c, a], d);
    assert [b, c, a] + [d] == [b, c, a, d];
  }

  /** The candidates greedy keeps on max_v_greedy. */
  lemma GreedyKept(x: real, y: real)
    ensures GreedyPairs(Candidates(GreedyOne(x), GreedyTwo(y), 0.0, 0.3)) == [Candidate(1, 0, 0.42), Candidate(2, 2, 0.15)]
  {
    var b, c, a, d := Candidate(1, 0, 0.42), Candidate(1, 1, 0.30), Candidate(0, 0, 0.28), Candidate(2, 2, 0.15);
    GreedyCandidates(x, y);
    GreedySorted(a, b, c, d, Weight);
    GreedyScan();
  }

  /**
   * max_v_greedy, greedy half: the greedy scorer matches 2 peaks for a score of 0.57,
   * whatever the scaled intensities of the two last peaks, which match nothing.
   */
  lemma GreedyFixture(x: real, y: real)
    ensures GreedyScore(GreedyOne(x), GreedyTwo(y), 100.0, 100.0, 0.3, false, 1.0) == Match(0.57, 2)
  {
    var b, d := Candidate(1, 0, 0.42), Candidate(2, 2, 0.15);
    GreedyKept(x, y);
    assert Shift(100.0, 100.0, false) == 0.0;
    assert [b, d][..1] == [b] && [b][..0] == [];
    assert Sum([b]) == 0.42;
    assert Sum([b, d]) == 0.57;
  }

  /** The candidates of max_v_greedy, in loop order: a, b, c, d. */
  function MaxCs(): seq<Candidate>
  {
    [Candidate(0, 0, 0.28), Candidate(1, 0, 0.42), Candidate(1, 1, 0.30), Candidate(2, 2, 0.15)]
  }

  /** Two entries joining the same two peaks sum the same products. */
  lemma {:induction false} PairSumSame(m: NodePair, n: NodePair, cs: seq<Candidate>)
    requires forall d :: Connects(m, d) <==> Connects(n, d)
    ensures PairSum(m, cs) == PairSum(n, cs)
  {
    if cs != [] {
      PairSumSame(m, n, cs[..|cs| - 1]);
    }
  }

  /** An entry that joins c, in either orientation, sums exactly its product. */
  lemma PairSumConnected(m: NodePair, c: Candidate, cs: seq<Candidate>)
    requires UniquePositions(cs) && c in cs && Connects(m, c)
    ensures PairSum(m, cs) == c.weight
  {
    PairSumSame(m, EdgeOf(c), cs);
    PairSumOfMember(c, cs);
  }

  /** Which of the four candidates an entry joins. */
  function Slot(m: NodePair): nat
  {
    if Connects(m, MaxCs()[0]) then 0
    else if Connects(m, MaxCs()[1]) then 1
    else if Connects(m, MaxCs()[2]) then 2
    else 3
  }

  /** An edge of the max_v_greedy graph sums the product of the candidate it joins. */
  lemma EntryWeight(m: NodePair)
    requires IsEdge(MaxCs(), m)
    ensures Slot(m) < 4 && Connects(m, MaxCs()[Slot(m)])
    ensures PairSum(m, MaxCs()) == MaxCs()[Slot(m)].weight
  {
    var cs := MaxCs();
    assert UniquePositions(cs);
    PairSumConnected(m, cs[Slot(m)], cs);
  }

  /** Disjoint edges join different candidates, and never a and b, nor b and c. */
  lemma DisjointSlots(m: NodePair, n: NodePair)
    requires IsEdge(MaxCs(), m) && IsEdge(MaxCs(), n) && Disjoint(m, n)
    ensures Slot(m) != Slot(n)
    ensures {Slot(m), Slot(n)} != {0, 1} && {Slot(m), Slot(n)} != {1, 2}
  {
    EntryWeight(m);
    EntryWeight(n);
  }

  /** Four edges of the max_v_greedy graph cannot be pairwise disjoint. */
  lemma FourEntries(m0: NodePair, m1: NodePair, m2: NodePair, m3: NodePair)
    requires IsEdge(MaxCs(), m0) && IsEdge(MaxCs(), m1) && IsEdge(MaxCs(), m2) && IsEdge(MaxCs(), m3)
    ensures !(Disjoint(m0, m1) && Disjoint(m0, m2) && Disjoint(m0, m3)
              && Disjoint(m1, m2) && Disjoint(m1, m3) && Disjoint(m2, m3))
  {
    EntryWeight(m0);
    EntryWeight(m1);
    EntryWeight(m2);
    EntryWeight(m3);
  }

  /** A matching of the max_v_greedy graph has at most three pairs. */
  lemma MaxAtMostThree(ms: seq<NodePair>)
    requires IsMatchingOf(MaxCs(), ms)
    ensures |ms| <= 3
  {
    if |ms| >= 4 {
      FourEntries(ms[0], ms[1], ms[2], ms[3]);
      assert false;
    }
  }

  /** The summing loop over a matching of at most three pairs, unfolded. */
  lemma TotalOfThree(ms: seq<NodePair>, cs: seq<Candidate>)
    requires 1 <= |ms| <= 3
    ensures MatchedTotal(ms, cs)
         == PairSum(ms[0], cs) + (if |ms| >= 2 then PairSum(ms[1], cs) else 0.0)
          + (if |ms| == 3 then PairSum(ms[2], cs) else 0.0)
  {
    var e: seq<NodePair> := [];
    assert ms[..1][..0] == e;
    if |ms| >= 2 {
      assert ms[..2][..1] == ms[..1];
    }
    if |ms| == 3 {
      assert ms[..3][..2] == ms[..2];
    }
    assert ms[..|ms|] == ms;
  }

  /**
   * Every matching of the max_v_greedy graph weighs at most 0.73, and only a matching of
   * three pairs reaches it (a, c and d, as the test expects).
   */
  lemma MaxTotal(ms: seq<NodePair>)
    requires IsMatchingOf(MaxCs(), ms)
    ensures MatchedTotal(ms, MaxCs()) <= 0.73
    ensures MatchedTotal(ms, MaxCs()) == 0.73 ==> |ms| == 3
  {
    var cs := MaxCs();
    MaxAtMostThree(ms);
    if |ms| >= 1 {
      TotalOfThree(ms, cs);
      EntryWeight(ms[0]);
    }
    if |ms| >= 2 {
      EntryWeight(ms[1]);
      DisjointSlots(ms[0], ms[1]);
    }
    if |ms| == 3 {
      EntryWeight(ms[2]);
      DisjointSlots(ms[0], ms[2]);
      DisjointSlots(ms[1], ms[2]);
    }
  }

  /** Pairing a, c and d is a matching of weight 0.73. */
  lemma MaxReached()
    ensures var a := [MaxCs()[0], MaxCs()[2], MaxCs()[3]];
      IsMatchingOf(MaxCs(), AsPairs(a)) && MatchedTotal(AsPairs(a), MaxCs()) == 0.73
  {
    var cs := MaxCs();
    var a := [cs[0], cs[2], cs[3]];
    assert Firsts(a) == [0, 1, 2] && Seconds(a) == [0, 1, 2];
    AsPairsIsMatching(a, cs);
    assert UniquePositions(cs);
    MatchedTotalOfPairs(a, cs);
    assert a[..2] == [cs[0], cs[2]] && a[..2][..1] == [cs[0]] && [cs[0]][..0] == [];
    assert Sum([cs[0]]) == 0.28;
    assert Sum(a[..2]) == 0.58;
    assert Sum(a) == 0.73;
  }

  /**
   * max_v_greedy: with any matcher that returns a maximum-weight matching, the max scorer
   * matches 3 peaks for 0.73, and greedy matches 2 for 0.57.
   */
  lemma MaxVersusGreedyFixture(x: real, y: real, matcher: seq<Candidate> -> seq<NodePair>)
    requires IsMaxWeightMatching(MaxCs(), matcher(MaxCs()))
    ensures MaxScore(GreedyOne(x), GreedyTwo(y), 100.0, 100.0, 0.3, false, 1.0, matcher) == Match(0.73, 3)
    ensures GreedyScore(GreedyOne(x), GreedyTwo(y), 100.0, 100.0, 0.3, false, 1.0) == Match(0.57, 2)
  {
    GreedyCandidates(x, y);
    assert Shift(100.0, 100.0, false) == 0.0;
    var ms := matcher(MaxCs());
    MaxReached();
    var a := [MaxCs()[0], MaxCs()[2], MaxCs()[3]];
    assert MatchedTotal(AsPairs(a), MaxCs()) <= MatchedTotal(ms, MaxCs());
    MaxTotal(ms);
    GreedyFixture(x, y);
  }

  /** The first spectrum of no_match; u holds the scaled intensities. */
  function NoMatchOne(u: seq<real>): seq<Peak>
    requires |u| == 6
  {
    [Peak(50.7, 234.0, Some(u[0])), Peak(54.6, 585.0, Some(u[1])), Peak(60.7, 773.0, Some(u[2])),
     Peak(65.6, 387.0, Some(u[3])), Peak(87.7, 546.0, Some(u[4])), Peak(104.6, 598.0, Some(u[5]))]
  }

  /** The second spectrum of no_match; v holds the scaled intensities. */
  function NoMatchTwo(v: seq<real>): seq<Peak>
    requires |v| == 6
  {
    [Peak(50.2, 234.0, Some(v[0])), Peak(53.8, 585.0, Some(v[1])), Peak(61.3, 773.0, Some(v[2])),
     Peak(66.2, 387.0, Some(v[3])), Peak(88.1, 546.0, Some(v[4])), Peak(103.9, 598.0, Some(v[5]))]
  }

  /** No two peaks of no_match lie within 0.3 of each other. */
  lemma NoMatchCandidates(u: seq<real>, v: seq<real>)
    requires |u| == 6 && |v| == 6
    ensures Candidates(NoMatchOne(u), NoMatchTwo(v), 0.0, 0.3) == []
  {
    var ps1, ps2 := NoMatchOne(u), NoMatchTwo(v);
    var cs := Candidates(ps1, ps2, 0.0, 0.3);
    CandidatesExact(ps1, ps2, 0.0, 0.3);
    HeadMember(cs);
  }

  lemma HeadMember<T>(s: seq<T>)
    ensures s != [] ==> s[0] in s
  {
  }

  /**
   * no_match: both scorers match no peak and score 0, whatever the scaled intensities,
   * with any matcher that returns a maximum-weight matching.
   */
  lemma NoMatchFixture(u: seq<real>, v: seq<real>, matcher: seq<Candidate> -> seq<NodePair>)
    requires |u| == 6 && |v| == 6
    requires IsMaxWeightMatching([], matcher([]))
    ensures GreedyScore(NoMatchOne(u), NoMatchTwo(v), 100.0, 100.0, 0.3, false, 1.0) == Match(0.0, 0)
    ensures MaxScore(NoMatchOne(u), NoMatchTwo(v), 100.0, 100.0, 0.3, false, 1.0, matcher) == Match(0.0, 0)
  {
    NoMatchCandidates(u, v);
    assert Shift(100.0, 100.0, false) == 0.0;
    GreedyEmpty([]);
    MaxEmpty(matcher([]));
  }
}
