/**
 * mol_networking/similarity.py: the same two scorers and the same all-pairs
 * comparison as msmolnet/similarity.py, with two differences. The intensity
 * product reads the peak attribute `norm_scaled`, which no Peak of this package
 * carries (its `euclidean_scale` sets `scaled_intensity`), so the first peak pair
 * inside the window raises AttributeError; and compare_all always uses the
 * maximum-weight scorer. The raising path is modelled as an `Err` outcome.
 */
module MolSimilarity {
  import opened Wrappers
  import opened Collections
  import opened Sorting
  import opened Spectra
  import opened Alignment
  import opened MatchMaps
  import opened Similarity

  /** The error Python raises on `peak1.norm_scaled`. */
  const MissingNormScaled: Exception := AttributeError

  /** Some peak pair of the two lists lies in the fragment window. */
  predicate AnyInWindow(ps1: seq<Peak>, ps2: seq<Peak>, shift: real, tolerance: real)
  {
    exists i, j :: 0 <= i < |ps1| && 0 <= j < |ps2| && InWindow(ps1[i], ps2[j], shift, tolerance)
  }

  /**
   * The nested candidate loop of both scorers, up to the first pair inside the
   * window, where computing the product raises.
   */
  method FindWindowPair(ps1: seq<Peak>, ps2: seq<Peak>, shift: real, tolerance: real) returns (found: bool)
    ensures found == AnyInWindow(ps1, ps2, shift, tolerance)
  {
    for i := 0 to |ps1|
      invariant forall a, b :: 0 <= a < i && 0 <= b < |ps2| ==> !InWindow(ps1[a], ps2[b], shift, tolerance)
    {
      for j := 0 to |ps2|
        invariant forall b :: 0 <= b < j ==> !InWindow(ps1[i], ps2[b], shift, tolerance)
      {
        if InWindow(ps1[i], ps2[j], shift, tolerance) {
          return true;
        }
      }
    }
    return false;
  }

  /** The outcome of cosine_score_greedy of this package. */
  function MolGreedyScore(ps1: seq<Peak>, ps2: seq<Peak>, pep1: real, pep2: real,
                          fragmentTolerance: real, modified: bool, precursorTolerance: real): Result<Match, Exception>
  {
    if !PassesGate(pep1, pep2, precursorTolerance) then Ok(Match(0.0, 0))
    else if AnyInWindow(ps1, ps2, Shift(pep1, pep2, modified), fragmentTolerance) then Err(MissingNormScaled)
    else Ok(Match(0.0, 0))
  }

  /**
   * The outcome of cosine_score_max of this package: when nothing raises, the
   * candidate graph is empty and the matcher is applied to it.
   */
  function MolMaxScore(ps1: seq<Peak>, ps2: seq<Peak>, pep1: real, pep2: real,
                       fragmentTolerance: real, modified: bool, precursorTolerance: real,
                       matcher: seq<Candidate> -> seq<NodePair>): Result<Match, Exception>
  {
    if !PassesGate(pep1, pep2, precursorTolerance) then Ok(Match(0.0, 0))
    else if AnyInWindow(ps1, ps2, Shift(pep1, pep2, modified), fragmentTolerance) then Err(MissingNormScaled)
    else
      var ms := matcher([]);
      Ok(Match(MatchedTotal(ms, []), |ms|))
  }

  method MolCosineScoreGreedy(one: Spectrum, two: Spectrum, fragmentTolerance: real, modified: bool,
                              precursorTolerance: real) returns (r: Result<Match, Exception>)
    requires one.pepMass.Some? && two.pepMass.Some?
    ensures r == MolGreedyScore(one.peaks, two.peaks, one.pepMass.value, two.pepMass.value,
                                fragmentTolerance, modified, precursorTolerance)
  {
    var modification := two.pepMass.value - one.pepMass.value;
    if Abs(modification) > precursorTolerance {
      return Ok(Match(0.0, 0));
    }
    if !modified {
      modification := 0.0;
    }
    var raises := FindWindowPair(one.peaks, two.peaks, modification, fragmentTolerance);
    if raises {
      return Err(MissingNormScaled);
    }
    var pairs: seq<Candidate> := [];
    pairs := SortDesc(pairs, Weight);
    var total, count := GreedySelect(pairs);
    return Ok(Match(total, count));
  }

  method MolCosineScoreMax(one: Spectrum, two: Spectrum, fragmentTolerance: real, modified: bool,
                           precursorTolerance: real, matcher: seq<Candidate> -> seq<NodePair>)
    returns (r: Result<Match, Exception>)
    requires one.pepMass.Some? && two.pepMass.Some?
    ensures r == MolMaxScore(one.peaks, two.peaks, one.pepMass.value, two.pepMass.value,
                             fragmentTolerance, modified, precursorTolerance, matcher)
  {
    var modification := two.pepMass.value - one.pepMass.value;
    if Abs(modification) > precursorTolerance {
      return Ok(Match(0.0, 0));
    }
    if !modified {
      modification := 0.0;
    }
    var raises := FindWindowPair(one.peaks, two.peaks, modification, fragmentTolerance);
    if raises {
      return Err(MissingNormScaled);
    }
    var pairs: seq<Candidate> := [];
    var matching := matcher(pairs);
    var count := |matching|;
    var total := SumMatched(matching, pairs);
    return Ok(Match(total, count));
  }

  /** A peak pair lies in the window exactly when the candidate list is not empty. */
  lemma WindowPairCandidates(ps1: seq<Peak>, ps2: seq<Peak>, shift: real, tolerance: real)
    requires AllScaled(ps1) && AllScaled(ps2)
    ensures AnyInWindow(ps1, ps2, shift, tolerance) <==> Candidates(ps1, ps2, shift, tolerance) != []
  {
    var cs := Candidates(ps1, ps2, shift, tolerance);
    CandidatesExact(ps1, ps2, shift, tolerance);
    if AnyInWindow(ps1, ps2, shift, tolerance) {
      var i, j :| 0 <= i < |ps1| && 0 <= j < |ps2| && InWindow(ps1[i], ps2[j], shift, tolerance);
      assert IsCandidate(ps1, ps2, shift, tolerance, Candidate(i, j, Product(ps1[i], ps2[j])));
    }
    if cs != [] {
      var c := cs[0];
      assert c in cs;
      assert InWindow(ps1[c.i], ps2[c.j], shift, tolerance);
    }
  }

  /**
   * Against msmolnet's scorers on the same scaled peaks: this package raises
   * exactly when the gate passes and there is a candidate, and otherwise returns
   * what msmolnet returns.
   */
  lemma MolScoresVersusMsmolnet(ps1: seq<Peak>, ps2: seq<Peak>, pep1: real, pep2: real,
                                fragmentTolerance: real, modified: bool, precursorTolerance: real,
                                matcher: seq<Candidate> -> seq<NodePair>)
    requires AllScaled(ps1) && AllScaled(ps2)
    ensures var g := MolGreedyScore(ps1, ps2, pep1, pep2, fragmentTolerance, modified, precursorTolerance);
      var m := MolMaxScore(ps1, ps2, pep1, pep2, fragmentTolerance, modified, precursorTolerance, matcher);
      var raises := PassesGate(pep1, pep2, precursorTolerance)
                    && Candidates(ps1, ps2, Shift(pep1, pep2, modified), fragmentTolerance) != [];
      (g.Err? <==> raises) && (m.Err? <==> raises)
      && (g.Ok? ==> g.value == GreedyScore(ps1, ps2, pep1, pep2, fragmentTolerance, modified, precursorTolerance))
      && (m.Ok? ==> m.value == MaxScore(ps1, ps2, pep1, pep2, fragmentTolerance, modified, precursorTolerance, matcher))
  {
    var cs := Candidates(ps1, ps2, Shift(pep1, pep2, modified), fragmentTolerance);
    WindowPairCandidates(ps1, ps2, Shift(pep1, pep2, modified), fragmentTolerance);
    GreedyEmpty(cs);
  }

  /**
   * Neither scorer of this package ever reports a match: an outcome that does not
   * raise is (0, 0), given that the matcher returns a matching of the empty graph.
   */
  lemma MolScoresNeverMatch(ps1: seq<Peak>, ps2: seq<Peak>, pep1: real, pep2: real,
                            fragmentTolerance: real, modified: bool, precursorTolerance: real,
                            matcher: seq<Candidate> -> seq<NodePair>)
    requires IsMatchingOf([], matcher([]))
    ensures var g := MolGreedyScore(ps1, ps2, pep1, pep2, fragmentTolerance, modified, precursorTolerance);
      g.Ok? ==> g.value == Match(0.0, 0)
    ensures var m := MolMaxScore(ps1, ps2, pep1, pep2, fragmentTolerance, modified, precursorTolerance, matcher);
      m.Ok? ==> m.value == Match(0.0, 0)
  {
    MaxEmpty(matcher([]));
  }

  /**
   * One peak of mass 100 in each spectrum, both precursors at 500: msmolnet scores
   * the pair (1, 1) while this package raises.
   */
  lemma NormScaledCounterexample()
    ensures var ps := [Peak(100.0, 1.0, Some(1.0))];
      MolGreedyScore(ps, ps, 500.0, 500.0, 0.3, false, 1.0) == Err(MissingNormScaled)
      && GreedyScore(ps, ps, 500.0, 500.0, 0.3, false, 1.0) == Match(1.0, 1)
  {
    var ps := [Peak(100.0, 1.0, Some(1.0))];
    assert InWindow(ps[0], ps[0], 0.0, 0.3);
    var cs := Candidates(ps, ps, 0.0, 0.3);
    assert ps[..0] == [];
    assert cs == [Candidate(0, 0, 1.0)];
    assert SortDesc(cs, Weight) == cs;
    assert [Candidate(0, 0, 1.0)][..0] == [];
    assert Accepted(cs) == cs;
  }

  // ---------------------------------------------------------------- compare_all

  /** The pair (p.0, p.1) of the spectra raises when scored. */
  predicate PairRaises(data: seq<Scorable>, p: (nat, nat), fragmentTolerance: real, modified: bool,
                       precursorTolerance: real)
  {
    p.0 < |data| && p.1 < |data|
    && PassesGate(data[p.0].pepMass, data[p.1].pepMass, precursorTolerance)
    && AnyInWindow(data[p.0].peaks, data[p.1].peaks, Shift(data[p.0].pepMass, data[p.1].pepMass, modified),
                   fragmentTolerance)
  }

  /** The outcome compare_all of this package obtains for one pair of spectra. */
  function MolPairScore(one: Scorable, two: Scorable, fragmentTolerance: real, modified: bool,
                        precursorTolerance: real, matcher: seq<Candidate> -> seq<NodePair>): Result<Match, Exception>
  {
    MolMaxScore(one.peaks, two.peaks, one.pepMass, two.pepMass, fragmentTolerance, modified, precursorTolerance, matcher)
  }

  /**
   * The records the loops store, in storing order, or the error of the first pair
   * that raises: an exception ends compare_all.
   */
  function MolKept(keys: seq<Spectrum>, data: seq<Scorable>, ps: seq<(nat, nat)>, fragmentTolerance: real,
                   modified: bool, precursorTolerance: real, matcher: seq<Candidate> -> seq<NodePair>)
    : Result<seq<Entry<Spectrum>>, Exception>
    requires |keys| == |data| && PairsWithin(ps, |data|)
  {
    if ps == [] then Ok([])
    else
      var p := ps[|ps| - 1];
      var before := MolKept(keys, data, ps[..|ps| - 1], fragmentTolerance, modified, precursorTolerance, matcher);
      if before.Err? then before
      else
        var r := MolPairScore(data[p.0], data[p.1], fragmentTolerance, modified, precursorTolerance, matcher);
        if r.Err? then Err(r.error)
        else if Sentinel(r.value) then before
        else Ok(before.value + [Entry(keys[p.0], keys[p.1], r.value)])
  }

  /** The result of compare_all of this package: the dictionary, or the exception it raises. */
  function MolAllMatches(spectra: seq<Spectrum>, fragmentTolerance: real, modified: bool, precursorTolerance: real,
                         matcher: seq<Candidate> -> seq<NodePair>): Result<MatchMap<Spectrum>, Exception>
    reads spectra
    requires HavePepMass(spectra)
  {
    IndexPairsWithin(|spectra|, |spectra|);
    var es := MolKept(spectra, Snapshots(spectra), IndexPairs(|spectra|, |spectra|),
                      fragmentTolerance, modified, precursorTolerance, matcher);
    if es.Err? then Err(es.error) else Ok(StoreAll(map[], es.value))
  }

  /** Once a pair has raised, later pairs change nothing. */
  lemma {:induction false} MolKeptErrPrefix(keys: seq<Spectrum>, data: seq<Scorable>, ps: seq<(nat, nat)>,
                                            qs: seq<(nat, nat)>, fragmentTolerance: real, modified: bool,
                                            precursorTolerance: real, matcher: seq<Candidate> -> seq<NodePair>)
    requires |keys| == |data| && PairsWithin(qs, |data|) && ps <= qs
    requires MolKept(keys, data, ps, fragmentTolerance, modified, precursorTolerance, matcher).Err?
    ensures MolKept(keys, data, qs, fragmentTolerance, modified, precursorTolerance, matcher)
         == MolKept(keys, data, ps, fragmentTolerance, modified, precursorTolerance, matcher)
  {
    if |qs| > |ps| {
      var init := qs[..|qs| - 1];
      assert ps <= init;
      MolKeptErrPrefix(keys, data, ps, init, fragmentTolerance, modified, precursorTolerance, matcher);
    } else {
      assert ps == qs;
    }
  }

  lemma MolKeptStep(keys: seq<Spectrum>, data: seq<Scorable>, ps: seq<(nat, nat)>, p: (nat, nat),
                    fragmentTolerance: real, modified: bool, precursorTolerance: real,
                    matcher: seq<Candidate> -> seq<NodePair>)
    requires |keys| == |data| && PairsWithin(ps, |data|) && p.0 < |data| && p.1 < |data|
    ensures PairsWithin(ps + [p], |data|)
    ensures var before := MolKept(keys, data, ps, fragmentTolerance, modified, precursorTolerance, matcher);
      var r := MolPairScore(data[p.0], data[p.1], fragmentTolerance, modified, precursorTolerance, matcher);
      MolKept(keys, data, ps + [p], fragmentTolerance, modified, precursorTolerance, matcher)
        == if before.Err? then before
           else if r.Err? then Err(r.error)
           else if Sentinel(r.value) then before
           else Ok(before.value + [Entry(keys[p.0], keys[p.1], r.value)])
  {
    assert (ps + [p])[..|ps|] == ps;
  }

  /** The visited pairs of the first rows are a prefix of those of more rows. */
  lemma {:induction false} IndexPairsPrefix(n: nat, a: nat, b: nat)
    requires a <= b
    ensures IndexPairs(n, a) <= IndexPairs(n, b)
  {
    if a < b {
      IndexPairsPrefix(n, a, b - 1);
      assert IndexPairs(n, b) == IndexPairs(n, b - 1) + Row(b - 1, n);
    }
  }

  /** The loop state after the rows before i: the records kept so far and the dictionary they built. */
  ghost predicate MolRowsDone(keys: seq<Spectrum>, data: seq<Scorable>, i: nat, es: seq<Entry<Spectrum>>,
                              matches: MatchMap<Spectrum>, fragmentTolerance: real, modified: bool,
                              precursorTolerance: real, matcher: seq<Candidate> -> seq<NodePair>)
  {
    |keys| == |data| && i <= |data| && PairsWithin(IndexPairs(|data|, i), |data|)
    && MolKept(keys, data, IndexPairs(|data|, i), fragmentTolerance, modified, precursorTolerance, matcher) == Ok(es)
    && matches == StoreAll(map[], es)
  }

  /** Scoring some pair raised e, which ends compare_all. */
  ghost predicate MolRaised(keys: seq<Spectrum>, data: seq<Scorable>, e: Exception, fragmentTolerance: real,
                            modified: bool, precursorTolerance: real, matcher: seq<Candidate> -> seq<NodePair>)
  {
    |keys| == |data| && PairsWithin(IndexPairs(|data|, |data|), |data|)
    && MolKept(keys, data, IndexPairs(|data|, |data|), fragmentTolerance, modified, precursorTolerance, matcher) == Err(e)
  }

  method MolCompareAll(spectra: seq<Spectrum>, fragmentTolerance: real, modified: bool, precursorTolerance: real,
                       matcher: seq<Candidate> -> seq<NodePair>) returns (r: Result<MatchMap<Spectrum>, Exception>)
    requires HavePepMass(spectra)
    ensures r == MolAllMatches(spectra, fragmentTolerance, modified, precursorTolerance, matcher)
  {
    var n := |spectra|;
    ghost var data := Snapshots(spectra);
    MolRowsStart(spectra, data, fragmentTolerance, modified, precursorTolerance, matcher);
    var matches: MatchMap<Spectrum> := map[];
    ghost var es: seq<Entry<Spectrum>> := [];
    var i := 0;
    while i < n
      invariant i <= n
      invariant MolRowsDone(spectra, data, i, es, matches, fragmentTolerance, modified, precursorTolerance, matcher)
    {
      var row;
      row, es := MolCompareRow(spectra, data, es, i, fragmentTolerance, modified, precursorTolerance, matcher, matches);
      if row.Err? {
        MolRaisedAll(spectra, data, row.error, fragmentTolerance, modified, precursorTolerance, matcher);
        return Err(row.error);
      }
      matches := row.value;
      i := i + 1;
    }
    MolRowsAll(spectra, data, es, matches, fragmentTolerance, modified, precursorTolerance, matcher);
    return Ok(matches);
  }

  lemma MolRowsStart(keys: seq<Spectrum>, data: seq<Scorable>, fragmentTolerance: real, modified: bool,
                     precursorTolerance: real, matcher: seq<Candidate> -> seq<NodePair>)
    requires |keys| == |data|
    ensures MolRowsDone(keys, data, 0, [], map[], fragmentTolerance, modified, precursorTolerance, matcher)
  {
    IndexPairsWithin(|data|, 0);
  }

  /** All rows done: the dictionary compare_all returns. */
  lemma MolRowsAll(spectra: seq<Spectrum>, data: seq<Scorable>, es: seq<Entry<Spectrum>>, matches: MatchMap<Spectrum>,
                   fragmentTolerance: real, modified: bool, precursorTolerance: real,
                   matcher: seq<Candidate> -> seq<NodePair>)
    requires HavePepMass(spectra) && data == Snapshots(spectra)
    requires MolRowsDone(spectra, data, |data|, es, matches, fragmentTolerance, modified, precursorTolerance, matcher)
    ensures MolAllMatches(spectra, fragmentTolerance, modified, precursorTolerance, matcher) == Ok(matches)
  {
  }

  /** A raised pair: the exception compare_all raises. */
  lemma MolRaisedAll(spectra: seq<Spectrum>, data: seq<Scorable>, e: Exception, fragmentTolerance: real, modified: bool,
                     precursorTolerance: real, matcher: seq<Candidate> -> seq<NodePair>)
    requires HavePepMass(spectra) && data == Snapshots(spectra)
    requires MolRaised(spectra, data, e, fragmentTolerance, modified, precursorTolerance, matcher)
    ensures MolAllMatches(spectra, fragmentTolerance, modified, precursorTolerance, matcher) == Err(e)
  {
  }

  /** The inner loop of compare_all of this package; an exception ends compare_all. */
  method MolCompareRow(spectra: seq<Spectrum>, ghost data: seq<Scorable>, ghost es0: seq<Entry<Spectrum>>, i: nat,
                       fragmentTolerance: real, modified: bool, precursorTolerance: real,
                       matcher: seq<Candidate> -> seq<NodePair>, matches0: MatchMap<Spectrum>)
    returns (r: Result<MatchMap<Spectrum>, Exception>, ghost es: seq<Entry<Spectrum>>)
    requires HavePepMass(spectra) && data == Snapshots(spectra) && i < |spectra|
    requires MolRowsDone(spectra, data, i, es0, matches0, fragmentTolerance, modified, precursorTolerance, matcher)
    ensures r.Err? ==> MolRaised(spectra, data, r.error, fragmentTolerance, modified, precursorTolerance, matcher)
    ensures r.Ok? ==> MolRowsDone(spectra, data, i + 1, es, r.value, fragmentTolerance, modified, precursorTolerance, matcher)
  {
    var n := |spectra|;
    ghost var done := IndexPairs(n, i);
    var one := spectra[i];
    var matches := matches0;
    ghost var ps := done;
    es := es0;
    for j := i + 1 to n
      invariant ps == done + Row(i, n)[..j - i - 1]
      invariant PairsWithin(ps, n)
      invariant MolKept(spectra, data, ps, fragmentTolerance, modified, precursorTolerance, matcher) == Ok(es)
      invariant matches == StoreAll(map[], es)
    {
      var two := spectra[j];
      var s := MolScorePair(one, two, data[i], data[j], fragmentTolerance, modified, precursorTolerance, matcher);
      MolStoreStep(spectra, data, ps, es, i, j, fragmentTolerance, modified, precursorTolerance, matcher, s);
      RowStep(done, i, j, n);
      if s.Err? {
        MolRowRaised(spectra, data, i, j, fragmentTolerance, modified, precursorTolerance, matcher);
        return Err(s.error), es;
      }
      if !(s.value.cosine == 0.0 && s.value.peaks == 0) {
        matches := Put(matches, one, two, s.value);
        es := es + [Entry(one, two, s.value)];
      }
      ps := ps + [(i, j)];
    }
    RowDone(i, n);
    IndexPairsWithin(n, i + 1);
    return Ok(matches), es;
  }

  /** One call of cosine_score_max, read on the snapshots of the two spectra. */
  method MolScorePair(one: Spectrum, two: Spectrum, ghost x: Scorable, ghost y: Scorable, fragmentTolerance: real,
                      modified: bool, precursorTolerance: real, matcher: seq<Candidate> -> seq<NodePair>)
    returns (s: Result<Match, Exception>)
    requires one.pepMass.Some? && two.pepMass.Some? && x == Snapshot(one) && y == Snapshot(two)
    ensures s == MolPairScore(x, y, fragmentTolerance, modified, precursorTolerance, matcher)
  {
    s := MolCosineScoreMax(one, two, fragmentTolerance, modified, precursorTolerance, matcher);
  }

  /** A pair of row i that raises ends the whole loop nest with its error. */
  lemma MolRowRaised(keys: seq<Spectrum>, data: seq<Scorable>, i: nat, j: nat, fragmentTolerance: real,
                     modified: bool, precursorTolerance: real, matcher: seq<Candidate> -> seq<NodePair>)
    requires |keys| == |data| && i < j < |data|
    requires PairsWithin(IndexPairs(|data|, i) + Row(i, |data|)[..j - i], |data|)
    requires MolKept(keys, data, IndexPairs(|data|, i) + Row(i, |data|)[..j - i], fragmentTolerance, modified,
                     precursorTolerance, matcher).Err?
    ensures PairsWithin(IndexPairs(|data|, i + 1), |data|) && PairsWithin(IndexPairs(|data|, |data|), |data|)
    ensures MolKept(keys, data, IndexPairs(|data|, |data|), fragmentTolerance, modified, precursorTolerance, matcher)
         == MolKept(keys, data, IndexPairs(|data|, i) + Row(i, |data|)[..j - i], fragmentTolerance, modified,
                    precursorTolerance, matcher)
  {
    var n := |data|;
    RowPrefixWithin(i, j, n);
    MolKeptErrPrefix(keys, data, IndexPairs(n, i) + Row(i, n)[..j - i], IndexPairs(n, n),
                     fragmentTolerance, modified, precursorTolerance, matcher);
  }

  /** The pairs visited up to (i, j) start the visit of all pairs. */
  lemma RowPrefixWithin(i: nat, j: nat, n: nat)
    requires i < j < n
    ensures IndexPairs(n, i) + Row(i, n)[..j - i] <= IndexPairs(n, n)
    ensures PairsWithin(IndexPairs(n, i + 1), n) && PairsWithin(IndexPairs(n, n), n)
  {
    var done := IndexPairs(n, i);
    RowPrefix(done, i, j, n);
    assert IndexPairs(n, i + 1) == done + Row(i, n);
    IndexPairsPrefix(n, i + 1, n);
    IndexPairsWithin(n, i + 1);
    IndexPairsWithin(n, n);
  }

  /** One iteration of the inner loop, on the specification side. */
  lemma MolStoreStep(keys: seq<Spectrum>, data: seq<Scorable>, ps: seq<(nat, nat)>, es: seq<Entry<Spectrum>>,
                     i: nat, j: nat, fragmentTolerance: real, modified: bool, precursorTolerance: real,
                     matcher: seq<Candidate> -> seq<NodePair>, s: Result<Match, Exception>)
    requires |keys| == |data| && PairsWithin(ps, |data|) && i < j < |data|
    requires MolKept(keys, data, ps, fragmentTolerance, modified, precursorTolerance, matcher) == Ok(es)
    requires s == MolPairScore(data[i], data[j], fragmentTolerance, modified, precursorTolerance, matcher)
    ensures PairsWithin(ps + [(i, j)], |data|)
    ensures s.Err? ==> MolKept(keys, data, ps + [(i, j)], fragmentTolerance, modified, precursorTolerance, matcher)
                       == Err(s.error)
    ensures s.Ok? && Sentinel(s.value) ==>
      MolKept(keys, data, ps + [(i, j)], fragmentTolerance, modified, precursorTolerance, matcher) == Ok(es)
    ensures s.Ok? && !Sentinel(s.value) ==>
      MolKept(keys, data, ps + [(i, j)], fragmentTolerance, modified, precursorTolerance, matcher)
        == Ok(es + [Entry(keys[i], keys[j], s.value)])
      && StoreAll(map[], es + [Entry(keys[i], keys[j], s.value)])
         == Store(StoreAll(map[], es), keys[i], keys[j], s.value)
  {
    MolKeptStep(keys, data, ps, (i, j), fragmentTolerance, modified, precursorTolerance, matcher);
    if s.Ok? && !Sentinel(s.value) {
      StoreAllStep(map[], es, Entry(keys[i], keys[j], s.value));
    }
  }

  lemma RowPrefix(done: seq<(nat, nat)>, i: nat, j: nat, n: nat)
    requires i < j < n
    ensures done + Row(i, n)[..j - i] <= done + Row(i, n)
  {
    var row := Row(i, n);
    assert row[..j - i] <= row;
  }

  /** Some pair i < j of the spectra raises when scored. */
  ghost predicate SomePairRaises(data: seq<Scorable>, fragmentTolerance: real, modified: bool, precursorTolerance: real)
  {
    exists i: nat, j: nat :: i < j < |data| && PairRaises(data, (i, j), fragmentTolerance, modified, precursorTolerance)
  }

  lemma {:induction false} MolKeptOutcome(keys: seq<Spectrum>, data: seq<Scorable>, ps: seq<(nat, nat)>,
                                          fragmentTolerance: real, modified: bool, precursorTolerance: real,
                                          matcher: seq<Candidate> -> seq<NodePair>)
    requires |keys| == |data| && PairsWithin(ps, |data|)
    requires IsMatchingOf([], matcher([]))
    ensures var k := MolKept(keys, data, ps, fragmentTolerance, modified, precursorTolerance, matcher);
      (k.Err? <==> exists q :: 0 <= q < |ps| && PairRaises(data, ps[q], fragmentTolerance, modified, precursorTolerance))
      && (k.Ok? ==> k.value == [])
  {
    if ps != [] {
      var n := |ps| - 1;
      var p := ps[n];
      var init := ps[..n];
      assert forall q :: 0 <= q < n ==> init[q] == ps[q];
      MolKeptOutcome(keys, data, init, fragmentTolerance, modified, precursorTolerance, matcher);
      var x := data[p.0];
      var y := data[p.1];
      MolScoresNeverMatch(x.peaks, y.peaks, x.pepMass, y.pepMass, fragmentTolerance, modified, precursorTolerance, matcher);
      if PairRaises(data, p, fragmentTolerance, modified, precursorTolerance) {
        assert PairRaises(data, ps[n], fragmentTolerance, modified, precursorTolerance);
      }
    }
  }

  /**
   * compare_all of this package raises exactly when some pair i < j passes the
   * precursor gate and has a peak pair in the window; otherwise it returns {}.
   */
  lemma MolCompareAllOutcome(spectra: seq<Spectrum>, fragmentTolerance: real, modified: bool, precursorTolerance: real,
                             matcher: seq<Candidate> -> seq<NodePair>)
    requires HavePepMass(spectra)
    requires IsMatchingOf([], matcher([]))
    ensures var r := MolAllMatches(spectra, fragmentTolerance, modified, precursorTolerance, matcher);
      (r.Err? <==> SomePairRaises(Snapshots(spectra), fragmentTolerance, modified, precursorTolerance))
      && (r.Ok? ==> r.value == map[])
  {
    var data := Snapshots(spectra);
    SomePairRaisesIndexed(data, fragmentTolerance, modified, precursorTolerance);
    MolKeptOutcome(spectra, data, IndexPairs(|data|, |data|), fragmentTolerance, modified, precursorTolerance, matcher);
  }

  /** The pairs i < j are the ones compare_all visits. */
  lemma SomePairRaisesIndexed(data: seq<Scorable>, fragmentTolerance: real, modified: bool, precursorTolerance: real)
    ensures PairsWithin(IndexPairs(|data|, |data|), |data|)
    ensures SomePairRaises(data, fragmentTolerance, modified, precursorTolerance)
        <==> exists q :: 0 <= q < |IndexPairs(|data|, |data|)|
                         && PairRaises(data, IndexPairs(|data|, |data|)[q], fragmentTolerance, modified, precursorTolerance)
  {
    var n := |data|;
    var ps := IndexPairs(n, n);
    IndexPairsWithin(n, n);
    IndexPairsMembers(n, n);
    if SomePairRaises(data, fragmentTolerance, modified, precursorTolerance) {
      var i: nat, j: nat :| i < j < n && PairRaises(data, (i, j), fragmentTolerance, modified, precursorTolerance);
      PairVisited(n, i, j);
    } else {
      forall q | 0 <= q < |ps|
        ensures !PairRaises(data, ps[q], fragmentTolerance, modified, precursorTolerance)
      {
        assert ps[q] in ps;
        var i: nat, j: nat := ps[q].0, ps[q].1;
        assert i < j < n;
        assert ps[q] == (i, j);
        assert !PairRaises(data, (i, j), fragmentTolerance, modified, precursorTolerance);
      }
    }
  }

  /** The pair (i, j) has a position among the visited pairs. */
  lemma PairVisited(n: nat, i: nat, j: nat)
    requires i < j < n
    ensures exists q :: 0 <= q < |IndexPairs(n, n)| && IndexPairs(n, n)[q] == (i, j)
  {
    IndexPairsMembers(n, n);
    assert (i, j) in IndexPairs(n, n);
  }
}
