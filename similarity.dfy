/**
 * msmolnet/similarity.py: the greedy and the maximum-weight cosine scorers, the
 * all-pairs comparison that fills the symmetric match dictionary, and the threshold
 * filter over that dictionary.
 */
module Similarity {
  import opened Wrappers
  import opened Collections
  import opened Sorting
  import opened Spectra
  import opened Alignment
  import opened MatchMaps

  /** The precursor gate: a pair is scored unless |pep2 - pep1| exceeds the tolerance. */
  predicate PassesGate(pep1: real, pep2: real, precursorTolerance: real)
  {
    Abs(pep2 - pep1) <= precursorTolerance
  }

  /** The fragment shift: the precursor difference for modified cosine, else 0. */
  function Shift(pep1: real, pep2: real, modified: bool): real
  {
    if modified then pep2 - pep1 else 0.0
  }

  /** The (score, peak_count) of cosine_score_greedy. */
  function GreedyScore(ps1: seq<Peak>, ps2: seq<Peak>, pep1: real, pep2: real,
                       fragmentTolerance: real, modified: bool, precursorTolerance: real): Match
    requires AllScaled(ps1) && AllScaled(ps2)
  {
    if !PassesGate(pep1, pep2, precursorTolerance) then Match(0.0, 0)
    else
      var chosen := GreedyPairs(Candidates(ps1, ps2, Shift(pep1, pep2, modified), fragmentTolerance));
      Match(Sum(chosen), |chosen|)
  }

  /**
   * The (score, peak_count) of cosine_score_max, where `matcher` stands for
   * networkx max_weight_matching applied to the graph of the candidates.
   */
  function MaxScore(ps1: seq<Peak>, ps2: seq<Peak>, pep1: real, pep2: real,
                    fragmentTolerance: real, modified: bool, precursorTolerance: real,
                    matcher: seq<Candidate> -> seq<NodePair>): Match
    requires AllScaled(ps1) && AllScaled(ps2)
  {
    if !PassesGate(pep1, pep2, precursorTolerance) then Match(0.0, 0)
    else
      var cs := Candidates(ps1, ps2, Shift(pep1, pep2, modified), fragmentTolerance);
      var ms := matcher(cs);
      Match(MatchedTotal(ms, cs), |ms|)
  }

  method CosineScoreGreedy(one: Spectrum, two: Spectrum, fragmentTolerance: real, modified: bool,
                           precursorTolerance: real) returns (total: real, count: nat)
    requires one.Ready() && two.Ready()
    ensures Match(total, count)
         == GreedyScore(one.peaks, two.peaks, one.pepMass.value, two.pepMass.value,
                        fragmentTolerance, modified, precursorTolerance)
  {
    var modification := two.pepMass.value - one.pepMass.value;
    if Abs(modification) > precursorTolerance {
      return 0.0, 0;
    }
    if !modified {
      modification := 0.0;
    }
    var pairs := CollectCandidates(one.peaks, two.peaks, modification, fragmentTolerance);
    pairs := SortDesc(pairs, Weight);
    total, count := GreedySelect(pairs);
  }

  method CosineScoreMax(one: Spectrum, two: Spectrum, fragmentTolerance: real, modified: bool,
                        precursorTolerance: real, matcher: seq<Candidate> -> seq<NodePair>)
    returns (total: real, count: nat)
    requires one.Ready() && two.Ready()
    ensures Match(total, count)
         == MaxScore(one.peaks, two.peaks, one.pepMass.value, two.pepMass.value,
                     fragmentTolerance, modified, precursorTolerance, matcher)
  {
    var modification := two.pepMass.value - one.pepMass.value;
    if Abs(modification) > precursorTolerance {
      return 0.0, 0;
    }
    if !modified {
      modification := 0.0;
    }
    var pairs := CollectCandidates(one.peaks, two.peaks, modification, fragmentTolerance);
    var matching := matcher(pairs);
    count := |matching|;
    total := SumMatched(matching, pairs);
  }

  /**
   * The precursor gate of both scorers: a difference above the tolerance yields
   * (0, 0), and a difference of exactly the tolerance is scored.
   */
  lemma PrecursorGate(ps1: seq<Peak>, ps2: seq<Peak>, pep1: real, pep2: real,
                      fragmentTolerance: real, modified: bool, precursorTolerance: real,
                      matcher: seq<Candidate> -> seq<NodePair>)
    requires AllScaled(ps1) && AllScaled(ps2)
    ensures Abs(pep2 - pep1) > precursorTolerance ==>
      GreedyScore(ps1, ps2, pep1, pep2, fragmentTolerance, modified, precursorTolerance) == Match(0.0, 0)
      && MaxScore(ps1, ps2, pep1, pep2, fragmentTolerance, modified, precursorTolerance, matcher) == Match(0.0, 0)
    ensures Abs(pep2 - pep1) == precursorTolerance ==>
      var cs := Candidates(ps1, ps2, Shift(pep1, pep2, modified), fragmentTolerance);
      GreedyScore(ps1, ps2, pep1, pep2, fragmentTolerance, modified, precursorTolerance)
        == Match(Sum(GreedyPairs(cs)), |GreedyPairs(cs)|)
  {
  }

  /**
   * What the greedy score is made of: the sum and the number of pairs of a matching
   * drawn from the candidates, no larger than either peak list, and (0, 0) exactly
   * when the gate rejects or no peak pair falls in the window.
   */
  lemma GreedyScoreMeaning(ps1: seq<Peak>, ps2: seq<Peak>, pep1: real, pep2: real,
                           fragmentTolerance: real, modified: bool, precursorTolerance: real)
    requires AllScaled(ps1) && AllScaled(ps2)
    ensures var r := GreedyScore(ps1, ps2, pep1, pep2, fragmentTolerance, modified, precursorTolerance);
      0 <= r.peaks <= |ps1| && r.peaks <= |ps2|
      && (r.peaks == 0 <==> (!PassesGate(pep1, pep2, precursorTolerance)
                             || Candidates(ps1, ps2, Shift(pep1, pep2, modified), fragmentTolerance) == []))
      && (r.peaks == 0 ==> r.cosine == 0.0)
  {
    var cs := Candidates(ps1, ps2, Shift(pep1, pep2, modified), fragmentTolerance);
    GreedyBound(ps1, ps2, Shift(pep1, pep2, modified), fragmentTolerance);
    GreedyEmpty(cs);
  }

  /**
   * With a maximum-weight matcher, the max score is at least the greedy score and
   * its peak count is bounded by either peak list.
   */
  lemma MaxScoreAtLeastGreedy(ps1: seq<Peak>, ps2: seq<Peak>, pep1: real, pep2: real,
                              fragmentTolerance: real, modified: bool, precursorTolerance: real,
                              matcher: seq<Candidate> -> seq<NodePair>)
    requires AllScaled(ps1) && AllScaled(ps2)
    requires var cs := Candidates(ps1, ps2, Shift(pep1, pep2, modified), fragmentTolerance);
      IsMaxWeightMatching(cs, matcher(cs))
    ensures var max := MaxScore(ps1, ps2, pep1, pep2, fragmentTolerance, modified, precursorTolerance, matcher);
      max.cosine >= GreedyScore(ps1, ps2, pep1, pep2, fragmentTolerance, modified, precursorTolerance).cosine
      && 0 <= max.peaks <= |ps1| && max.peaks <= |ps2|
  {
    var shift := Shift(pep1, pep2, modified);
    var cs := Candidates(ps1, ps2, shift, fragmentTolerance);
    CandidatesInLoopOrder(ps1, ps2, shift, fragmentTolerance);
    MaxAtLeastGreedy(cs, matcher(cs));
    MaxBound(ps1, ps2, shift, fragmentTolerance, matcher(cs));
  }

  // ---------------------------------------------------------------- compare_all

  /** The keyword arguments of compare_all. */
  datatype Settings = Settings(fragmentTolerance: real, modified: bool, precursorTolerance: real, greedy: bool)

  predicate AllReady(spectra: seq<Spectrum>)
    reads spectra
  {
    forall k :: 0 <= k < |spectra| ==> spectra[k].Ready()
  }

  /** What a scorer reads from a spectrum: its peaks and its precursor mass. */
  datatype Scorable = Scorable(peaks: seq<Peak>, pepMass: real)

  function Snapshot(s: Spectrum): Scorable
    reads s
    requires s.pepMass.Some?
  {
    Scorable(s.peaks, s.pepMass.value)
  }

  /** Every spectrum has its precursor mass set. */
  predicate HavePepMass(spectra: seq<Spectrum>)
    reads spectra
  {
    forall k :: 0 <= k < |spectra| ==> spectra[k].pepMass.Some?
  }

  function Snapshots(spectra: seq<Spectrum>): (r: seq<Scorable>)
    reads spectra
    requires HavePepMass(spectra)
    ensures |r| == |spectra|
    ensures forall k :: 0 <= k < |spectra| ==> r[k] == Snapshot(spectra[k])
  {
    if spectra == [] then []
    else Snapshots(spectra[..|spectra| - 1]) + [Snapshot(spectra[|spectra| - 1])]
  }

  predicate AllScorable(data: seq<Scorable>)
  {
    forall k :: 0 <= k < |data| ==> AllScaled(data[k].peaks)
  }

  lemma SnapshotsScorable(spectra: seq<Spectrum>)
    requires AllReady(spectra)
    ensures AllScorable(Snapshots(spectra))
  {
    var data := Snapshots(spectra);
    forall k | 0 <= k < |data| ensures AllScaled(data[k].peaks) {
      assert spectra[k].Ready();
    }
  }

  /** The record compare_all obtains for one pair of spectra. */
  function PairScore(one: Scorable, two: Scorable, settings: Settings, matcher: seq<Candidate> -> seq<NodePair>): Match
    requires AllScaled(one.peaks) && AllScaled(two.peaks)
  {
    if settings.greedy then
      GreedyScore(one.peaks, two.peaks, one.pepMass, two.pepMass,
                  settings.fragmentTolerance, settings.modified, settings.precursorTolerance)
    else
      MaxScore(one.peaks, two.peaks, one.pepMass, two.pepMass,
               settings.fragmentTolerance, settings.modified, settings.precursorTolerance, matcher)
  }

  /** The "no match" result that compare_all does not store. */
  predicate Sentinel(r: Match)
  {
    r.cosine == 0.0 && r.peaks == 0
  }

  /** The pairs (i, j) with i < j < n visited by row i of the loops. */
  function Row(i: nat, n: nat): (r: seq<(nat, nat)>)
    ensures |r| == if i < n then n - i - 1 else 0
    ensures forall k :: 0 <= k < |r| ==> r[k] == (i, i + 1 + k)
  {
    if i < n then seq(n - i - 1, k requires 0 <= k < n - i - 1 => (i, i + 1 + k)) else []
  }

  /** The pairs visited by the first `rows` rows of the loops, in visiting order. */
  function IndexPairs(n: nat, rows: nat): seq<(nat, nat)>
  {
    if rows == 0 then [] else IndexPairs(n, rows - 1) + Row(rows - 1, n)
  }

  predicate PairBefore(p: (nat, nat), q: (nat, nat))
  {
    p.0 < q.0 || (p.0 == q.0 && p.1 < q.1)
  }

  /** The visited pairs are exactly i < j < n with i among the rows done. */
  lemma {:induction false} IndexPairsMembers(n: nat, rows: nat)
    ensures forall p :: p in IndexPairs(n, rows) <==> p.0 < p.1 < n && p.0 < rows
  {
    if rows > 0 {
      var last: nat := rows - 1;
      IndexPairsMembers(n, last);
      RowMembers(last, n);
      var init := IndexPairs(n, last);
      var row := Row(last, n);
      assert IndexPairs(n, rows) == init + row;
      forall p: (nat, nat) | p in init + row ensures p.0 < p.1 < n && p.0 < rows {
        assert p in init || p in row;
      }
    }
  }

  lemma RowMembers(i: nat, n: nat)
    ensures forall p :: p in Row(i, n) <==> p.0 == i && i < p.1 < n
  {
    var row := Row(i, n);
    forall p | p in row ensures p.0 == i && i < p.1 < n {
      var k :| 0 <= k < |row| && row[k] == p;
    }
    forall p: (nat, nat) | p.0 == i && i < p.1 < n ensures p in row {
      assert row[p.1 - i - 1] == p;
    }
  }

  /** The pairs are visited in lexicographic order, so none is visited twice. */
  lemma {:induction false} IndexPairsOrdered(n: nat, rows: nat)
    ensures forall a, b :: 0 <= a < b < |IndexPairs(n, rows)| ==> PairBefore(IndexPairs(n, rows)[a], IndexPairs(n, rows)[b])
  {
    if rows > 0 {
      IndexPairsOrdered(n, rows - 1);
      IndexPairsMembers(n, rows - 1);
      var init := IndexPairs(n, rows - 1);
      var row := Row(rows - 1, n);
      assert IndexPairs(n, rows) == init + row;
      forall a, b | 0 <= a < b < |init + row| ensures PairBefore((init + row)[a], (init + row)[b]) {
        if b < |init| {
          assert (init + row)[a] == init[a] && (init + row)[b] == init[b];
        } else if a < |init| {
          assert (init + row)[a] == init[a] && init[a] in init;
          assert (init + row)[b] == row[b - |init|];
        } else {
          assert (init + row)[a] == row[a - |init|] && (init + row)[b] == row[b - |init|];
        }
      }
    }
  }

  /** Each visited pair indexes two existing spectra. */
  lemma {:induction false} IndexPairsWithin(n: nat, rows: nat)
    ensures PairsWithin(IndexPairs(n, rows), n)
  {
    if rows > 0 {
      IndexPairsWithin(n, rows - 1);
    }
  }

  /** Each visited pair indexes two existing spectra, the smaller index first, and none is visited twice. */
  lemma AllIndexPairs(n: nat)
    ensures PairsWithin(IndexPairs(n, n), n)
    ensures forall k :: 0 <= k < |IndexPairs(n, n)| ==> IndexPairs(n, n)[k].0 < IndexPairs(n, n)[k].1
    ensures Distinct(IndexPairs(n, n))
  {
    var ps := IndexPairs(n, n);
    IndexPairsWithin(n, n);
    IndexPairsMembers(n, n);
    IndexPairsOrdered(n, n);
    forall a, b | 0 <= a < b < |ps| ensures ps[a] != ps[b] {
      assert PairBefore(ps[a], ps[b]);
    }
    forall k | 0 <= k < |ps| ensures ps[k].0 < ps[k].1 < n {
      assert ps[k] in ps;
    }
  }

  predicate PairsWithin(ps: seq<(nat, nat)>, n: nat)
  {
    forall k :: 0 <= k < |ps| ==> ps[k].0 < n && ps[k].1 < n
  }

  /**
   * The records the loops store, in storing order: one per visited pair whose
   * score is not (0, 0), keyed by the spectrum objects.
   */
  function Kept(keys: seq<Spectrum>, data: seq<Scorable>, ps: seq<(nat, nat)>, settings: Settings,
                matcher: seq<Candidate> -> seq<NodePair>): seq<Entry<Spectrum>>
    requires |keys| == |data| && AllScorable(data) && PairsWithin(ps, |data|)
  {
    if ps == [] then []
    else
      var p := ps[|ps| - 1];
      var r := PairScore(data[p.0], data[p.1], settings, matcher);
      Kept(keys, data, ps[..|ps| - 1], settings, matcher)
        + if Sentinel(r) then [] else [Entry(keys[p.0], keys[p.1], r)]
  }

  lemma KeptStep(keys: seq<Spectrum>, data: seq<Scorable>, ps: seq<(nat, nat)>, p: (nat, nat), settings: Settings,
                 matcher: seq<Candidate> -> seq<NodePair>)
    requires |keys| == |data| && AllScorable(data) && PairsWithin(ps, |data|)
    requires p.0 < |data| && p.1 < |data|
    ensures PairsWithin(ps + [p], |data|)
    ensures var r := PairScore(data[p.0], data[p.1], settings, matcher);
      Kept(keys, data, ps + [p], settings, matcher)
        == Kept(keys, data, ps, settings, matcher) + if Sentinel(r) then [] else [Entry(keys[p.0], keys[p.1], r)]
  {
    assert (ps + [p])[..|ps|] == ps;
  }

  /** The dictionary compare_all returns. */
  function AllMatches(spectra: seq<Spectrum>, settings: Settings, matcher: seq<Candidate> -> seq<NodePair>): MatchMap<Spectrum>
    reads spectra
    requires AllReady(spectra)
  {
    IndexPairsWithin(|spectra|, |spectra|);
    StoreAll(map[], Kept(spectra, Snapshots(spectra), IndexPairs(|spectra|, |spectra|), settings, matcher))
  }

  /** The body of compare_all's inner loop: one pair scored by the chosen scorer. */
  method ScorePair(one: Spectrum, two: Spectrum, settings: Settings, matcher: seq<Candidate> -> seq<NodePair>)
    returns (r: Match)
    requires one.Ready() && two.Ready()
    ensures r == PairScore(Snapshot(one), Snapshot(two), settings, matcher)
  {
    var score: real, count: nat;
    if settings.greedy {
      score, count := CosineScoreGreedy(one, two, settings.fragmentTolerance, settings.modified, settings.precursorTolerance);
    } else {
      score, count := CosineScoreMax(one, two, settings.fragmentTolerance, settings.modified, settings.precursorTolerance, matcher);
    }
    r := Match(score, count);
  }

  /** The loop state after the rows before i: the dictionary holds the records of the pairs visited. */
  ghost predicate RowsDone(keys: seq<Spectrum>, data: seq<Scorable>, i: nat, matches: MatchMap<Spectrum>,
                           settings: Settings, matcher: seq<Candidate> -> seq<NodePair>)
  {
    |keys| == |data| && AllScorable(data) && i <= |data| && PairsWithin(IndexPairs(|data|, i), |data|)
    && matches == StoreAll(map[], Kept(keys, data, IndexPairs(|data|, i), settings, matcher))
  }

  method CompareAll(spectra: seq<Spectrum>, settings: Settings, matcher: seq<Candidate> -> seq<NodePair>)
    returns (matches: MatchMap<Spectrum>)
    requires AllReady(spectra)
    ensures matches == AllMatches(spectra, settings, matcher)
  {
    var n := |spectra|;
    ghost var data := Snapshots(spectra);
    SnapshotsScorable(spectra);
    RowsStart(spectra, data, settings, matcher);
    matches := map[];
    var i := 0;
    while i < n
      invariant i <= n
      invariant RowsDone(spectra, data, i, matches, settings, matcher)
    {
      matches := CompareRow(spectra, data, i, settings, matcher, matches);
      i := i + 1;
    }
    RowsAll(spectra, data, matches, settings, matcher);
  }

  lemma RowsStart(keys: seq<Spectrum>, data: seq<Scorable>, settings: Settings, matcher: seq<Candidate> -> seq<NodePair>)
    requires |keys| == |data| && AllScorable(data)
    ensures RowsDone(keys, data, 0, map[], settings, matcher)
  {
    IndexPairsWithin(|data|, 0);
  }

  /** All rows done: the dictionary compare_all returns. */
  lemma RowsAll(spectra: seq<Spectrum>, data: seq<Scorable>, matches: MatchMap<Spectrum>, settings: Settings,
                matcher: seq<Candidate> -> seq<NodePair>)
    requires AllReady(spectra) && data == Snapshots(spectra)
    requires RowsDone(spectra, data, |data|, matches, settings, matcher)
    ensures matches == AllMatches(spectra, settings, matcher)
  {
  }

  /** The inner loop of compare_all: spectrum i against every later spectrum. */
  method CompareRow(spectra: seq<Spectrum>, ghost data: seq<Scorable>, i: nat, settings: Settings,
                    matcher: seq<Candidate> -> seq<NodePair>, matches0: MatchMap<Spectrum>)
    returns (matches: MatchMap<Spectrum>)
    requires AllReady(spectra) && data == Snapshots(spectra) && i < |spectra|
    requires RowsDone(spectra, data, i, matches0, settings, matcher)
    ensures RowsDone(spectra, data, i + 1, matches, settings, matcher)
  {
    var n := |spectra|;
    ghost var done := IndexPairs(n, i);
    var one := spectra[i];
    matches := matches0;
    ghost var ps := done;
    for j := i + 1 to n
      invariant ps == done + Row(i, n)[..j - i - 1]
      invariant PairsWithin(ps, n)
      invariant matches == StoreAll(map[], Kept(spectra, data, ps, settings, matcher))
    {
      var two := spectra[j];
      assert one.Ready() && two.Ready();
      var r := ScorePair(one, two, settings, matcher);
      StoreStep(spectra, data, ps, i, j, settings, matcher, r);
      if !(r.cosine == 0.0 && r.peaks == 0) {
        matches := Put(matches, one, two, r);
      }
      RowStep(done, i, j, n);
      ps := ps + [(i, j)];
    }
    RowDone(i, n);
    IndexPairsWithin(n, i + 1);
  }

  /** A row visited completely is the next row of the visited pairs. */
  lemma RowDone(i: nat, n: nat)
    requires i < n
    ensures IndexPairs(n, i) + Row(i, n)[..n - i - 1] == IndexPairs(n, i + 1)
  {
    assert Row(i, n)[..n - i - 1] == Row(i, n);
  }

  lemma RowStep(done: seq<(nat, nat)>, i: nat, j: nat, n: nat)
    requires i < j < n
    ensures done + Row(i, n)[..j - i - 1] + [(i, j)] == done + Row(i, n)[..j - i]
  {
    var row := Row(i, n);
    assert row[..j - i] == row[..j - i - 1] + [row[j - i - 1]];
  }

  /** One iteration of the inner loop of compare_all, on the specification side. */
  lemma StoreStep(keys: seq<Spectrum>, data: seq<Scorable>, ps: seq<(nat, nat)>, i: nat, j: nat, settings: Settings,
                  matcher: seq<Candidate> -> seq<NodePair>, r: Match)
    requires |keys| == |data| && AllScorable(data) && PairsWithin(ps, |data|)
    requires i < j < |data| && r == PairScore(data[i], data[j], settings, matcher)
    ensures PairsWithin(ps + [(i, j)], |data|)
    ensures var before := StoreAll(map[], Kept(keys, data, ps, settings, matcher));
      StoreAll(map[], Kept(keys, data, ps + [(i, j)], settings, matcher))
        == if Sentinel(r) then before else Store(before, keys[i], keys[j], r)
  {
    KeptStep(keys, data, ps, (i, j), settings, matcher);
    var es := Kept(keys, data, ps, settings, matcher);
    if Sentinel(r) {
      assert Kept(keys, data, ps + [(i, j)], settings, matcher) == es;
    } else {
      var e := Entry(keys[i], keys[j], r);
      assert Kept(keys, data, ps + [(i, j)], settings, matcher) == es + [e];
      StoreAllStep(map[], es, e);
    }
  }

  /** The dictionary is symmetric: a record stored under [a][b] is stored under [b][a]. */
  lemma CompareAllSymmetric(spectra: seq<Spectrum>, settings: Settings, matcher: seq<Candidate> -> seq<NodePair>)
    requires AllReady(spectra)
    ensures Symmetric(AllMatches(spectra, settings, matcher))
  {
    IndexPairsWithin(|spectra|, |spectra|);
    StoreAllSymmetric(Kept(spectra, Snapshots(spectra), IndexPairs(|spectra|, |spectra|), settings, matcher));
  }

  /** With distinct keys, an entry built from positions p joins keys i and j only when p is (i, j). */
  lemma JoinsAtPositions(keys: seq<Spectrum>, p: (nat, nat), i: nat, j: nat, r: Match)
    requires Distinct(keys)
    requires p.0 < p.1 < |keys| && i < j < |keys|
    ensures Joins(Entry(keys[p.0], keys[p.1], r), keys[i], keys[j]) <==> p == (i, j)
  {
    assert keys[p.0] == keys[i] ==> p.0 == i;
    assert keys[p.1] == keys[j] ==> p.1 == j;
    assert keys[p.0] == keys[j] ==> p.0 == j;
    assert keys[p.1] == keys[i] ==> p.1 == i;
  }

  lemma {:induction false} KeptLast(keys: seq<Spectrum>, data: seq<Scorable>, ps: seq<(nat, nat)>, settings: Settings,
                                    matcher: seq<Candidate> -> seq<NodePair>, i: nat, j: nat)
    requires |keys| == |data| && AllScorable(data) && PairsWithin(ps, |data|) && Distinct(keys)
    requires forall k :: 0 <= k < |ps| ==> ps[k].0 < ps[k].1
    requires Distinct(ps)
    requires i < j < |data|
    ensures var r := PairScore(data[i], data[j], settings, matcher);
      LastFor(Kept(keys, data, ps, settings, matcher), keys[i], keys[j])
        == if (i, j) in ps && !Sentinel(r) then Some(r) else None
  {
    if ps != [] {
      var n := |ps| - 1;
      var p := ps[n];
      var init := ps[..n];
      assert ps == init + [p];
      assert (i, j) in ps <==> (i, j) in init || p == (i, j);
      assert forall k :: 0 <= k < |init| ==> init[k] == ps[k];
      KeptStep(keys, data, init, p, settings, matcher);
      KeptLast(keys, data, init, settings, matcher, i, j);
      var r := PairScore(data[p.0], data[p.1], settings, matcher);
      var es := Kept(keys, data, init, settings, matcher);
      if p == (i, j) {
        assert (i, j) !in init;
      }
      if !Sentinel(r) {
        var e := Entry(keys[p.0], keys[p.1], r);
        assert (es + [e])[..|es|] == es;
        assert Kept(keys, data, ps, settings, matcher) == es + [e];
        JoinsAtPositions(keys, p, i, j, r);
        assert LastFor(es + [e], keys[i], keys[j]) == if p == (i, j) then Some(r) else LastFor(es, keys[i], keys[j]);
      } else {
        assert Kept(keys, data, ps, settings, matcher) == es;
      }
    }
  }

  lemma {:induction false} KeptNoSelf(keys: seq<Spectrum>, data: seq<Scorable>, ps: seq<(nat, nat)>, settings: Settings,
                                      matcher: seq<Candidate> -> seq<NodePair>, a: Spectrum)
    requires |keys| == |data| && AllScorable(data) && PairsWithin(ps, |data|) && Distinct(keys)
    requires forall k :: 0 <= k < |ps| ==> ps[k].0 < ps[k].1
    ensures LastFor(Kept(keys, data, ps, settings, matcher), a, a) == None
  {
    if ps != [] {
      var n := |ps| - 1;
      var p := ps[n];
      var init := ps[..n];
      assert ps == init + [p];
      assert forall k :: 0 <= k < n ==> init[k] == ps[k];
      KeptStep(keys, data, init, p, settings, matcher);
      KeptNoSelf(keys, data, init, settings, matcher, a);
      assert keys[p.0] != keys[p.1];
      var es := Kept(keys, data, init, settings, matcher);
      var r := PairScore(data[p.0], data[p.1], settings, matcher);
      if !Sentinel(r) {
        var e := Entry(keys[p.0], keys[p.1], r);
        assert (es + [e])[..|es|] == es;
        assert Kept(keys, data, ps, settings, matcher) == es + [e];
        assert !Joins(e, a, a);
        assert LastFor(es + [e], a, a) == LastFor(es, a, a);
      } else {
        assert Kept(keys, data, ps, settings, matcher) == es;
      }
    }
  }

  lemma {:induction false} LastForSymmetric<K>(es: seq<Entry<K>>, a: K, b: K)
    ensures LastFor(es, a, b) == LastFor(es, b, a)
  {
    if es != [] {
      LastForSymmetric(es[..|es| - 1], a, b);
    }
  }

  /**
   * For distinct spectra at positions i < j, the dictionary holds the pair's record
   * in both directions exactly when it is not the (0, 0) "no match", and no spectrum
   * is ever matched with itself.
   */
  lemma CompareAllContents(spectra: seq<Spectrum>, settings: Settings, matcher: seq<Candidate> -> seq<NodePair>,
                           i: nat, j: nat)
    requires AllReady(spectra) && Distinct(spectra)
    requires i < j < |spectra|
    ensures var m := AllMatches(spectra, settings, matcher);
      var r := PairScore(Snapshot(spectra[i]), Snapshot(spectra[j]), settings, matcher);
      Lookup(m, spectra[i], spectra[j]) == (if Sentinel(r) then None else Some(r))
      && Lookup(m, spectra[j], spectra[i]) == Lookup(m, spectra[i], spectra[j])
      && Lookup(m, spectra[i], spectra[i]) == None
  {
    var n := |spectra|;
    var ps := IndexPairs(n, n);
    var data := Snapshots(spectra);
    AllIndexPairs(n);
    IndexPairsMembers(n, n);
    assert (i, j) in ps;
    var es := Kept(spectra, data, ps, settings, matcher);
    KeptLast(spectra, data, ps, settings, matcher, i, j);
    KeptNoSelf(spectra, data, ps, settings, matcher, spectra[i]);
    StoreAllLookup(es, spectra[i], spectra[j]);
    StoreAllLookup(es, spectra[j], spectra[i]);
    StoreAllLookup(es, spectra[i], spectra[i]);
    LastForSymmetric(es, spectra[i], spectra[j]);
  }

  // ---------------------------------------------------------------- filter_pairs

  predicate Passes(r: Match, cosineThreshold: real, peakThreshold: int)
  {
    r.cosine >= cosineThreshold && r.peaks >= peakThreshold
  }

  /** The dict comprehension over one inner dictionary. */
  function KeepPassing<K>(inner: map<K, Match>, cosineThreshold: real, peakThreshold: int): map<K, Match>
  {
    map b | b in inner && Passes(inner[b], cosineThreshold, peakThreshold) :: inner[b]
  }

  /** `pairs` after the first loop: every inner dictionary thresholded. */
  function Thresholded<K>(pairs: MatchMap<K>, cosineThreshold: real, peakThreshold: int): MatchMap<K>
  {
    map a | a in pairs :: KeepPassing(pairs[a], cosineThreshold, peakThreshold)
  }

  /** `filtered_pairs`: the spectra whose inner dictionary is not empty. */
  function NonEmpty<K>(pairs: MatchMap<K>): MatchMap<K>
  {
    map a | a in pairs && pairs[a] != map[] :: pairs[a]
  }

  /**
   * filter_pairs. The argument is overwritten in place in the source; the model
   * returns the overwritten dictionary next to the result.
   */
  method FilterPairs<K(==)>(pairs: MatchMap<K>, cosineThreshold: real, peakThreshold: int)
    returns (overwritten: MatchMap<K>, filtered: MatchMap<K>)
    ensures overwritten == Thresholded(pairs, cosineThreshold, peakThreshold)
    ensures filtered == NonEmpty(overwritten)
  {
    overwritten := ThresholdEach(pairs, cosineThreshold, peakThreshold);
    filtered := DropEmpty(overwritten);
  }

  /** The first loop of filter_pairs: each inner dictionary replaced by its passing entries. */
  method ThresholdEach<K(==)>(pairs: MatchMap<K>, cosineThreshold: real, peakThreshold: int)
    returns (overwritten: MatchMap<K>)
    ensures overwritten == Thresholded(pairs, cosineThreshold, peakThreshold)
  {
    overwritten := pairs;
    var todo := pairs.Keys;
    while todo != {}
      invariant todo <= pairs.Keys && overwritten.Keys == pairs.Keys
      invariant forall a :: a in pairs && a !in todo ==> overwritten[a] == KeepPassing(pairs[a], cosineThreshold, peakThreshold)
      invariant forall a :: a in todo ==> overwritten[a] == pairs[a]
      decreases |todo|
    {
      var a :| a in todo;
      overwritten := overwritten[a := KeepPassing(overwritten[a], cosineThreshold, peakThreshold)];
      todo := todo - {a};
    }
  }

  /** The second loop of filter_pairs: the spectra left with an empty dictionary are dropped. */
  method DropEmpty<K(==)>(pairs: MatchMap<K>) returns (filtered: MatchMap<K>)
    ensures filtered == NonEmpty(pairs)
  {
    filtered := map[];
    var todo := pairs.Keys;
    while todo != {}
      invariant todo <= pairs.Keys
      invariant filtered == map a | a in pairs && a !in todo && pairs[a] != map[] :: pairs[a]
      decreases |todo|
    {
      var a :| a in todo;
      if pairs[a] != map[] {
        filtered := filtered[a := pairs[a]];
      }
      todo := todo - {a};
    }
  }

  /**
   * An entry survives exactly when both thresholds are met (inclusively), and no
   * spectrum is left with an empty dictionary.
   */
  lemma FilterPairsExact<K>(pairs: MatchMap<K>, cosineThreshold: real, peakThreshold: int, a: K, b: K)
    ensures var filtered := NonEmpty(Thresholded(pairs, cosineThreshold, peakThreshold));
      Lookup(filtered, a, b)
        == (if Lookup(pairs, a, b).Some? && Passes(Lookup(pairs, a, b).value, cosineThreshold, peakThreshold)
            then Lookup(pairs, a, b) else None)
      && (a in filtered ==> filtered[a] != map[])
  {
    var t := Thresholded(pairs, cosineThreshold, peakThreshold);
    if a in pairs && b in pairs[a] && Passes(pairs[a][b], cosineThreshold, peakThreshold) {
      assert b in t[a];
    }
  }

  /** Filtering keeps the dictionary symmetric. */
  lemma FilterPairsSymmetric<K>(pairs: MatchMap<K>, cosineThreshold: real, peakThreshold: int)
    requires Symmetric(pairs)
    ensures Symmetric(NonEmpty(Thresholded(pairs, cosineThreshold, peakThreshold)))
  {
    var filtered := NonEmpty(Thresholded(pairs, cosineThreshold, peakThreshold));
    forall a, b | a in filtered && b in filtered[a]
      ensures b in filtered && a in filtered[b] && filtered[b][a] == filtered[a][b]
    {
      FilterPairsExact(pairs, cosineThreshold, peakThreshold, a, b);
      FilterPairsExact(pairs, cosineThreshold, peakThreshold, b, a);
      assert Lookup(filtered, a, b).Some?;
    }
  }

  /** Filtering an already filtered dictionary with the same thresholds changes nothing. */
  lemma FilterPairsIdempotent<K>(pairs: MatchMap<K>, cosineThreshold: real, peakThreshold: int)
    ensures var once := NonEmpty(Thresholded(pairs, cosineThreshold, peakThreshold));
      NonEmpty(Thresholded(once, cosineThreshold, peakThreshold)) == once
  {
    var once := NonEmpty(Thresholded(pairs, cosineThreshold, peakThreshold));
    var twice := NonEmpty(Thresholded(once, cosineThreshold, peakThreshold));
    forall a | a in once ensures a in twice && twice[a] == once[a] {
      var t := Thresholded(pairs, cosineThreshold, peakThreshold);
      assert KeepPassing(once[a], cosineThreshold, peakThreshold) == once[a];
    }
    assert twice.Keys == once.Keys;
  }
}
