/**
 * similarity_calc.py, the prototype scorer: a Spectrum class of its own, the
 * greedy `cosine_score` with an explicit mass shift and no precursor gate, and
 * the pair loop of `main`, which scores every ordered pair of spectra (a
 * spectrum with itself included) whose precursor masses are at most 400 apart.
 */
module SimilarityCalc {
  import opened Wrappers
  import opened Sorting
  import Spectra
  import opened Alignment
  import opened MatchMaps
  import opened Similarity

  /** The Spectrum class of similarity_calc.py; `pep_mass` is attached by its MGF reader. */
  class Spectrum {
    var peaks: seq<Spectra.Peak>
    var featureId: Option<string>
    var pepMass: Option<real>

    constructor ()
      ensures peaks == [] && featureId == None && pepMass == None
    {
      peaks := [];
      featureId := None;
      pepMass := None;
    }

    /** `add_peak`: appends one new peak, not yet scaled. */
    method AddPeak(mass: real, intensity: real)
      modifies this`peaks
      ensures peaks == old(peaks) + [Spectra.Peak(mass, intensity, None)]
    {
      peaks := peaks + [Spectra.Peak(mass, intensity, None)];
    }

    /** `set_peak_id`: the feature id becomes the given value. */
    method SetPeakId(id: string)
      modifies this`featureId
      ensures featureId == Some(id)
    {
      featureId := Some(id);
    }
  }

  /** The value of `cosine_score`: the greedy total over the candidates shifted by `modification`. */
  function CalcScore(ps1: seq<Spectra.Peak>, ps2: seq<Spectra.Peak>, tolerance: real, modification: real): real
    requires Spectra.AllScaled(ps1) && Spectra.AllScaled(ps2)
  {
    Sum(GreedyPairs(Candidates(ps1, ps2, modification, tolerance)))
  }

  method CosineScore(one: Spectrum, two: Spectrum, tolerance: real, modification: real) returns (total: real)
    requires Spectra.AllScaled(one.peaks) && Spectra.AllScaled(two.peaks)
    ensures total == CalcScore(one.peaks, two.peaks, tolerance, modification)
  {
    var pairs := CollectCandidates(one.peaks, two.peaks, modification, tolerance);
    pairs := SortDesc(pairs, Weight);
    var count;
    total, count := GreedySelect(pairs);
  }

  /**
   * The prototype is msmolnet's modified greedy score without the gate: whenever
   * the gate would pass, the totals agree, with the shift taken as the precursor
   * difference, or as 0 for the default modification.
   */
  lemma CalcScoreIsUngatedGreedy(ps1: seq<Spectra.Peak>, ps2: seq<Spectra.Peak>, pep1: real, pep2: real,
                                 tolerance: real, precursorTolerance: real)
    requires Spectra.AllScaled(ps1) && Spectra.AllScaled(ps2)
    requires PassesGate(pep1, pep2, precursorTolerance)
    ensures CalcScore(ps1, ps2, tolerance, pep2 - pep1)
         == GreedyScore(ps1, ps2, pep1, pep2, tolerance, true, precursorTolerance).cosine
    ensures CalcScore(ps1, ps2, tolerance, 0.0)
         == GreedyScore(ps1, ps2, pep1, pep2, tolerance, false, precursorTolerance).cosine
  {
  }

  /**
   * The total is that of a matching drawn from the candidates: 0 when no peak pair
   * is within tolerance, and never above a maximum-weight matching of the same
   * candidates.
   */
  lemma CalcScoreMeaning(ps1: seq<Spectra.Peak>, ps2: seq<Spectra.Peak>, tolerance: real, modification: real,
                         ms: seq<NodePair>)
    requires Spectra.AllScaled(ps1) && Spectra.AllScaled(ps2)
    requires IsMaxWeightMatching(Candidates(ps1, ps2, modification, tolerance), ms)
    ensures IsMatching(GreedyPairs(Candidates(ps1, ps2, modification, tolerance)))
    ensures Candidates(ps1, ps2, modification, tolerance) == [] ==> CalcScore(ps1, ps2, tolerance, modification) == 0.0
    ensures CalcScore(ps1, ps2, tolerance, modification) <= MatchedTotal(ms, Candidates(ps1, ps2, modification, tolerance))
  {
    var cs := Candidates(ps1, ps2, modification, tolerance);
    GreedyBound(ps1, ps2, modification, tolerance);
    GreedyEmpty(cs);
    CandidatesInLoopOrder(ps1, ps2, modification, tolerance);
    MaxAtLeastGreedy(cs, ms);
  }

  // ---------------------------------------------------------------- main

  /** The tolerances fixed in `main`. */
  const FragmentTolerance: real := 0.3
  const ModificationTolerance: real := 400.0

  /** The tuple (feature_id one, feature_id two, score) that `main` appends. */
  datatype Record = Record(first: Option<string>, second: Option<string>, score: real)

  /** What `main` reads from a spectrum. */
  datatype View = View(id: Option<string>, peaks: seq<Spectra.Peak>, pepMass: real)

  predicate Scorable(s: Spectrum)
    reads s
  {
    s.pepMass.Some? && Spectra.AllScaled(s.peaks)
  }

  predicate AllScorable(spectra: seq<Spectrum>)
    reads spectra
  {
    forall k :: 0 <= k < |spectra| ==> Scorable(spectra[k])
  }

  function ViewOf(s: Spectrum): View
    reads s
    requires s.pepMass.Some?
  {
    View(s.featureId, s.peaks, s.pepMass.value)
  }

  function Views(spectra: seq<Spectrum>): (r: seq<View>)
    reads spectra
    requires AllScorable(spectra)
    ensures |r| == |spectra|
    ensures forall k :: 0 <= k < |spectra| ==> r[k] == ViewOf(spectra[k])
  {
    if spectra == [] then []
    else Views(spectra[..|spectra| - 1]) + [ViewOf(spectra[|spectra| - 1])]
  }

  /** data holds the views of the spectra, position by position. */
  ghost predicate ViewedAs(spectra: seq<Spectrum>, data: seq<View>)
    reads spectra
  {
    |data| == |spectra| && forall k :: 0 <= k < |spectra| ==> spectra[k].pepMass.Some? && data[k] == ViewOf(spectra[k])
  }

  predicate AllViewsScaled(data: seq<View>)
  {
    forall k :: 0 <= k < |data| ==> Spectra.AllScaled(data[k].peaks)
  }

  lemma ViewsScaled(spectra: seq<Spectrum>)
    requires AllScorable(spectra)
    ensures AllViewsScaled(Views(spectra))
  {
    var data := Views(spectra);
    forall k | 0 <= k < |data| ensures Spectra.AllScaled(data[k].peaks) {
      assert Scorable(spectra[k]);
    }
  }

  /** The inclusive window of `main`: -400 <= pep_mass2 - pep_mass1 <= 400. */
  predicate WithinModification(one: View, two: View)
  {
    var modification := two.pepMass - one.pepMass;
    modification <= ModificationTolerance && modification >= -ModificationTolerance
  }

  /** The record `main` builds for the ordered pair (one, two). */
  function PairRecord(one: View, two: View): Record
    requires Spectra.AllScaled(one.peaks) && Spectra.AllScaled(two.peaks)
  {
    Record(one.id, two.id, CalcScore(one.peaks, two.peaks, FragmentTolerance, two.pepMass - one.pepMass))
  }

  /** The pairs (i, j) with j < cols that pass the window, in loop order. */
  function RowPairs(data: seq<View>, i: nat, cols: nat): seq<(nat, nat)>
    requires i < |data| && cols <= |data|
  {
    if cols == 0 then []
    else RowPairs(data, i, cols - 1) + if WithinModification(data[i], data[cols - 1]) then [(i, cols - 1)] else []
  }

  /** The ordered pairs the first `rows` iterations of the outer loop score, in loop order. */
  function ScoredPairs(data: seq<View>, rows: nat): seq<(nat, nat)>
    requires rows <= |data|
  {
    if rows == 0 then [] else ScoredPairs(data, rows - 1) + RowPairs(data, rows - 1, |data|)
  }

  /** The records for a list of pairs of positions. */
  function RecordsOf(data: seq<View>, ps: seq<(nat, nat)>): (r: seq<Record>)
    requires AllViewsScaled(data) && PairsWithin(ps, |data|)
    ensures |r| == |ps|
  {
    seq(|ps|, k requires 0 <= k < |ps| => PairRecord(data[ps[k].0], data[ps[k].1]))
  }

  lemma {:induction false} RowPairsWithin(data: seq<View>, i: nat, cols: nat)
    requires i < |data| && cols <= |data|
    ensures forall p :: p in RowPairs(data, i, cols) <==> p.0 == i && p.1 < cols && WithinModification(data[i], data[p.1])
  {
    if cols > 0 {
      RowPairsWithin(data, i, cols - 1);
    }
  }

  /** Exactly the ordered pairs of the rows done that pass the window are scored. */
  lemma {:induction false} ScoredPairsExact(data: seq<View>, rows: nat)
    requires rows <= |data|
    ensures forall p :: p in ScoredPairs(data, rows) <==>
      p.0 < rows && p.1 < |data| && WithinModification(data[p.0], data[p.1])
  {
    if rows > 0 {
      var last: nat := rows - 1;
      ScoredPairsExact(data, last);
      RowPairsWithin(data, last, |data|);
      var done := ScoredPairs(data, last);
      var row := RowPairs(data, last, |data|);
      assert ScoredPairs(data, rows) == done + row;
      forall p: (nat, nat) | p in done + row ensures p.0 < rows && p.1 < |data| && WithinModification(data[p.0], data[p.1]) {
        assert p in done || p in row;
      }
    }
  }

  lemma ScoredPairsWithin(data: seq<View>, rows: nat)
    requires rows <= |data|
    ensures PairsWithin(ScoredPairs(data, rows), |data|)
  {
    ScoredPairsExact(data, rows);
    var ps := ScoredPairs(data, rows);
    forall k | 0 <= k < |ps| ensures ps[k].0 < |data| && ps[k].1 < |data| {
      assert ps[k] in ps;
    }
  }

  /**
   * The two nested loops of `main`: for every ordered pair (i, j) whose precursor
   * masses lie within 400 of each other, in loop order, the tuple of the two ids and
   * their unmodified-plus-shifted greedy score.
   */
  method MainPairs(spectra: seq<Spectrum>) returns (matches: seq<Record>)
    requires AllScorable(spectra)
    ensures AllViewsScaled(Views(spectra))
    ensures PairsWithin(ScoredPairs(Views(spectra), |spectra|), |spectra|)
    ensures matches == RecordsOf(Views(spectra), ScoredPairs(Views(spectra), |spectra|))
  {
    var n: nat := |spectra|;
    ghost var data := Views(spectra);
    ViewsScaled(spectra);
    RowsStart(data);
    matches := [];
    var i: nat := 0;
    while i < n
      invariant i <= n
      invariant RowsDone(data, i, matches)
    {
      matches := MainRow(spectra, data, i, matches);
      i := i + 1;
    }
    RowsAll(data, matches);
  }

  lemma RowsStart(data: seq<View>)
    requires AllViewsScaled(data)
    ensures RowsDone(data, 0, [])
  {
  }

  lemma RowsAll(data: seq<View>, matches: seq<Record>)
    requires RowsDone(data, |data|, matches)
    ensures AllViewsScaled(data) && PairsWithin(ScoredPairs(data, |data|), |data|)
    ensures matches == RecordsOf(data, ScoredPairs(data, |data|))
  {
  }

  /** The outer loop's state after the rows before i. */
  ghost predicate RowsDone(data: seq<View>, i: nat, matches: seq<Record>)
  {
    AllViewsScaled(data) && i <= |data| && PairsWithin(ScoredPairs(data, i), |data|)
    && matches == RecordsOf(data, ScoredPairs(data, i))
  }

  /** The inner loop's state after the columns before j of row i. */
  ghost predicate CellsDone(data: seq<View>, done: seq<(nat, nat)>, i: nat, j: nat, ps: seq<(nat, nat)>,
                            matches: seq<Record>)
  {
    AllViewsScaled(data) && i < |data| && j <= |data|
    && ps == done + RowPairs(data, i, j) && PairsWithin(ps, |data|) && matches == RecordsOf(data, ps)
  }

  lemma ScoredPairsStep(data: seq<View>, i: nat)
    requires i < |data|
    ensures ScoredPairs(data, i + 1) == ScoredPairs(data, i) + RowPairs(data, i, |data|)
  {
  }

  /** The inner loop of `main`: spectrum i against every spectrum, itself included. */
  method MainRow(spectra: seq<Spectrum>, ghost data: seq<View>, i: nat,
                 matches0: seq<Record>) returns (matches: seq<Record>)
    requires AllScorable(spectra) && ViewedAs(spectra, data) && i < |spectra|
    requires RowsDone(data, i, matches0)
    ensures RowsDone(data, i + 1, matches)
  {
    var n: nat := |spectra|;
    ghost var done := ScoredPairs(data, i);
    var one := spectra[i];
    matches := matches0;
    ghost var ps := done;
    for j: nat := 0 to n
      invariant CellsDone(data, done, i, j, ps, matches)
    {
      ps, matches := MainCell(spectra[i], spectra[j], data, done, i, j, ps, matches);
    }
    ScoredPairsStep(data, i);
  }

  /** One iteration of the inner loop: the pair is scored when it passes the window. */
  method MainCell(one: Spectrum, two: Spectrum, ghost data: seq<View>, ghost done: seq<(nat, nat)>, i: nat, j: nat,
                  ghost ps0: seq<(nat, nat)>, matches0: seq<Record>)
    returns (ghost ps: seq<(nat, nat)>, matches: seq<Record>)
    requires Scorable(one) && Scorable(two) && j < |data|
    requires CellsDone(data, done, i, j, ps0, matches0)
    requires data[i] == ViewOf(one) && data[j] == ViewOf(two)
    ensures CellsDone(data, done, i, j + 1, ps, matches)
  {
    ps, matches := ps0, matches0;
    var modification := two.pepMass.value - one.pepMass.value;
    RowPairsStep(data, done, i, j);
    if modification <= ModificationTolerance && modification >= -ModificationTolerance {
      var record := ScorePair(one, two);
      RecordsStep(data, ps, (i, j));
      matches := matches + [record];
      ps := ps + [(i, j)];
    }
  }

  lemma RowPairsStep(data: seq<View>, done: seq<(nat, nat)>, i: nat, j: nat)
    requires i < |data| && j < |data|
    ensures done + RowPairs(data, i, j + 1)
         == (done + RowPairs(data, i, j)) + if WithinModification(data[i], data[j]) then [(i, j)] else []
  {
  }

  /** The tuple `main` builds for one ordered pair. */
  method ScorePair(one: Spectrum, two: Spectrum) returns (r: Record)
    requires Scorable(one) && Scorable(two)
    ensures r == PairRecord(ViewOf(one), ViewOf(two))
  {
    var modification := two.pepMass.value - one.pepMass.value;
    var score := CosineScore(one, two, FragmentTolerance, modification);
    r := Record(one.featureId, two.featureId, score);
  }

  lemma RecordsStep(data: seq<View>, ps: seq<(nat, nat)>, p: (nat, nat))
    requires AllViewsScaled(data) && PairsWithin(ps, |data|) && p.0 < |data| && p.1 < |data|
    ensures PairsWithin(ps + [p], |data|)
    ensures RecordsOf(data, ps + [p]) == RecordsOf(data, ps) + [PairRecord(data[p.0], data[p.1])]
  {
    var qs := ps + [p];
    assert forall k :: 0 <= k < |ps| ==> qs[k] == ps[k];
  }

  /**
   * Self pairs are scored: every spectrum is compared with itself, with shift 0,
   * and a precursor difference of exactly 400 is still inside the window, while
   * one just above it is not.
   */
  lemma MainPairsIncluded(data: seq<View>, i: nat, j: nat)
    requires i < |data| && j < |data|
    ensures (i, i) in ScoredPairs(data, |data|)
    ensures data[j].pepMass - data[i].pepMass == 400.0 ==> (i, j) in ScoredPairs(data, |data|)
    ensures data[j].pepMass - data[i].pepMass > 400.0 ==> (i, j) !in ScoredPairs(data, |data|)
  {
    ScoredPairsExact(data, |data|);
    assert WithinModification(data[i], data[i]);
    assert data[j].pepMass - data[i].pepMass == 400.0 ==> WithinModification(data[i], data[j]);
    assert data[j].pepMass - data[i].pepMass > 400.0 ==> !WithinModification(data[i], data[j]);
  }

  /** Spectrum i's record against itself carries the unshifted score. */
  lemma SelfRecord(data: seq<View>, i: nat)
    requires AllViewsScaled(data) && i < |data|
    ensures PairRecord(data[i], data[i]) == Record(data[i].id, data[i].id,
                                                   CalcScore(data[i].peaks, data[i].peaks, FragmentTolerance, 0.0))
  {
  }

  /** When every precursor difference is inside the window, all n * n ordered pairs are scored. */
  lemma {:induction false} ScoredPairsCount(data: seq<View>, rows: nat)
    requires rows <= |data|
    requires forall i, j :: 0 <= i < |data| && 0 <= j < |data| ==> WithinModification(data[i], data[j])
    ensures |ScoredPairs(data, rows)| == rows * |data|
  {
    if rows > 0 {
      ScoredPairsCount(data, rows - 1);
      RowPairsCount(data, rows - 1, |data|);
      assert (rows - 1) * |data| + |data| == rows * |data|;
    }
  }

  lemma {:induction false} RowPairsCount(data: seq<View>, i: nat, cols: nat)
    requires i < |data| && cols <= |data|
    requires forall j :: 0 <= j < |data| ==> WithinModification(data[i], data[j])
    ensures |RowPairs(data, i, cols)| == cols
  {
    if cols > 0 {
      RowPairsCount(data, i, cols - 1);
    }
  }
}
