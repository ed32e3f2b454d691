/**
 * The matchms adapters of msmolnet/use_matchms/convert_matches.py: score tuples
 * become the symmetric nested match map, and a matchms spectrum becomes a package
 * Spectrum. mol_networking/use_matchms/convert_matches.py holds the same two
 * functions and mol_networking/matchms/convert_matches.py the same score loop under
 * the name convert_to_dictionary; all of them are modelled by the members below.
 */
module Converters {
  import opened Wrappers
  import opened Spectra
  import opened MatchMaps

  /**
   * A matchms Spectrum as the adapters see it: the m/z and intensity arrays, the
   * metadata dictionary and the optional `library_parameters` attribute. matchms
   * compares spectra by value, which a datatype does.
   */
  datatype MatchmsSpectrum = MatchmsSpectrum(mz: seq<real>, intensities: seq<real>,
                                             metadata: map<string, Value>,
                                             libraryParameters: Option<map<string, Value>>)

  /** One element of a matchms Scores object: (reference, query, score, n_matching). */
  datatype ScoreTuple = ScoreTuple(reference: MatchmsSpectrum, query: MatchmsSpectrum, score: real, matching: int)

  predicate IsSelfScore(t: ScoreTuple)
  {
    t.reference == t.query
  }

  /** Both spectra can be keyed: reading metadata['scans'] raises KeyError otherwise. */
  predicate HasScans(t: ScoreTuple)
  {
    "scans" in t.reference.metadata && "scans" in t.query.metadata
  }

  function EntryOf(t: ScoreTuple): Entry<Value>
    requires HasScans(t)
  {
    Entry(t.reference.metadata["scans"], t.query.metadata["scans"], Match(t.score, t.matching))
  }

  /**
   * The records the loop stores, in order: self scores are skipped, and the first
   * other tuple whose spectra lack 'scans' stops the loop with KeyError.
   */
  function ScoreEntries(scores: seq<ScoreTuple>): Result<seq<Entry<Value>>, Exception>
  {
    if scores == [] then Ok([])
    else
      var t := scores[|scores| - 1];
      match ScoreEntries(scores[..|scores| - 1])
      case Err(e) => Err(e)
      case Ok(es) =>
        if IsSelfScore(t) then Ok(es)
        else if !HasScans(t) then Err(KeyError)
        else Ok(es + [EntryOf(t)])
  }

  /** What `convert_scores` returns or raises. */
  function ConvertedScores(scores: seq<ScoreTuple>): Result<MatchMap<Value>, Exception>
  {
    match ScoreEntries(scores)
    case Err(e) => Err(e)
    case Ok(es) => Ok(StoreAll(map[], es))
  }

  /** `convert_scores` (and `convert_to_dictionary`): fills `matches` tuple by tuple. */
  method ConvertScores(scores: seq<ScoreTuple>) returns (r: Result<MatchMap<Value>, Exception>)
    ensures r == ConvertedScores(scores)
  {
    var matches: MatchMap<Value> := map[];
    ghost var es: seq<Entry<Value>> := [];
    for k := 0 to |scores|
      invariant ScoreEntries(scores[..k]) == Ok(es)
      invariant matches == StoreAll(map[], es)
    {
      var t := scores[k];
      assert scores[..k + 1][..k] == scores[..k] && scores[..k + 1][k] == t;
      if t.reference == t.query {
        continue;
      }
      if "scans" !in t.reference.metadata || "scans" !in t.query.metadata {
        ScoreErrKept(scores, k + 1);
        return Err(KeyError);
      }
      var reference := t.reference.metadata["scans"];
      var query := t.query.metadata["scans"];
      matches := Put(matches, reference, query, Match(t.score, t.matching));
      StoreAllStep(map[], es, EntryOf(t));
      es := es + [EntryOf(t)];
    }
    assert scores[..|scores|] == scores;
    r := Ok(matches);
  }

  /** Once a prefix has raised, the whole loop has. */
  lemma {:induction false} ScoreErrKept(scores: seq<ScoreTuple>, k: nat)
    requires k <= |scores| && ScoreEntries(scores[..k]).Err?
    ensures ScoreEntries(scores) == ScoreEntries(scores[..k])
    decreases |scores| - k
  {
    if k < |scores| {
      assert scores[..k + 1][..k] == scores[..k];
      ScoreErrKept(scores, k + 1);
    } else {
      assert scores[..k] == scores;
    }
  }

  /** No scores give the empty map. */
  lemma ConvertEmpty()
    ensures ConvertedScores([]) == Ok(map[])
  {
  }

  /** The loop raises exactly when some tuple other than a self score lacks 'scans'. */
  lemma {:induction false} ConvertRaises(scores: seq<ScoreTuple>)
    ensures ConvertedScores(scores).Err? <==>
      exists k :: 0 <= k < |scores| && !IsSelfScore(scores[k]) && !HasScans(scores[k])
    ensures ConvertedScores(scores).Err? ==> ConvertedScores(scores).error == KeyError
  {
    if scores != [] {
      var n := |scores| - 1;
      ConvertRaises(scores[..n]);
      if exists k :: 0 <= k < n && !IsSelfScore(scores[..n][k]) && !HasScans(scores[..n][k]) {
        var k :| 0 <= k < n && !IsSelfScore(scores[..n][k]) && !HasScans(scores[..n][k]);
        assert scores[k] == scores[..n][k];
      }
      if exists k :: 0 <= k < |scores| && !IsSelfScore(scores[k]) && !HasScans(scores[k]) {
        var k :| 0 <= k < |scores| && !IsSelfScore(scores[k]) && !HasScans(scores[k]);
        if k < n {
          assert scores[..n][k] == scores[k];
        }
      }
    }
  }

  /** A self score contributes nothing. */
  lemma SelfScoreSkipped(scores: seq<ScoreTuple>, t: ScoreTuple)
    requires IsSelfScore(t)
    ensures ConvertedScores(scores + [t]) == ConvertedScores(scores)
  {
    assert (scores + [t])[..|scores|] == scores;
  }

  /**
   * A later tuple for a pair overwrites the record in both directions and leaves
   * every other pair as it was.
   */
  lemma LaterTupleWins(scores: seq<ScoreTuple>, t: ScoreTuple, a: Value, b: Value)
    requires ConvertedScores(scores).Ok? && !IsSelfScore(t) && HasScans(t)
    ensures ConvertedScores(scores + [t]).Ok?
    ensures var m := ConvertedScores(scores + [t]).value;
            var ra := t.reference.metadata["scans"];
            var qa := t.query.metadata["scans"];
            Lookup(m, ra, qa) == Some(Match(t.score, t.matching)) &&
            Lookup(m, qa, ra) == Some(Match(t.score, t.matching)) &&
            (!((a == ra && b == qa) || (a == qa && b == ra)) ==>
               Lookup(m, a, b) == Lookup(ConvertedScores(scores).value, a, b))
  {
    assert (scores + [t])[..|scores|] == scores;
    var e := EntryOf(t);
    var es := ScoreEntries(scores).value;
    StoreAllStep(map[], es, e);
    StoreLookup(StoreAll(map[], es), e.a, e.b, e.r, a, b);
  }

  /** The map returned is symmetric, and looking up a pair gives the last record stored for it. */
  lemma ConvertSymmetric(scores: seq<ScoreTuple>, a: Value, b: Value)
    requires ConvertedScores(scores).Ok?
    ensures Symmetric(ConvertedScores(scores).value)
    ensures Lookup(ConvertedScores(scores).value, a, b) == LastFor(ScoreEntries(scores).value, a, b)
  {
    StoreAllSymmetric(ScoreEntries(scores).value);
    StoreAllLookup(ScoreEntries(scores).value, a, b);
  }

  /** The peaks `add_peak` builds from the two arrays, one for one and in order. */
  function PeaksOf(mz: seq<real>, intensities: seq<real>): (r: seq<Peak>)
    requires |mz| == |intensities|
    ensures |r| == |mz|
    ensures forall k :: 0 <= k < |mz| ==> r[k] == Peak(mz[k], intensities[k], None)
  {
    if mz == [] then []
    else PeaksOf(mz[..|mz| - 1], intensities[..|mz| - 1]) + [Peak(mz[|mz| - 1], intensities[|mz| - 1], None)]
  }

  /** The metadata after a tuple-valued 'pepmass' is replaced by its first element. */
  function ParametersOf(metadata: map<string, Value>): (r: map<string, Value>)
    ensures r.Keys == metadata.Keys
    ensures forall key :: key in metadata && key != "pepmass" ==> r[key] == metadata[key]
    ensures "pepmass" in metadata ==>
              r["pepmass"] == if metadata["pepmass"].Tuple? then metadata["pepmass"].first else metadata["pepmass"]
  {
    if "pepmass" in metadata && metadata["pepmass"].Tuple? then metadata["pepmass" := metadata["pepmass"].first]
    else metadata
  }

  /**
   * `convert_spectrum`: a fresh Spectrum holding the peaks in order, the metadata with
   * 'pepmass' untupled, the library parameters when the matchms spectrum has them,
   * and the identifier `set_id` picks from the metadata.
   */
  method ConvertSpectrum(m: MatchmsSpectrum) returns (s: Spectrum)
    requires |m.mz| == |m.intensities|
    ensures fresh(s)
    ensures s.peaks == PeaksOf(m.mz, m.intensities)
    ensures s.parameters == ParametersOf(m.metadata)
    ensures s.libraryParameters == m.libraryParameters
    ensures s.featureId == IdFrom(ParametersOf(m.metadata), None)
    ensures s.pepMass == None && s.name == None
  {
    s := new Spectrum();
    for i := 0 to |m.mz|
      invariant s.peaks == PeaksOf(m.mz[..i], m.intensities[..i])
      invariant s.featureId == None && s.parameters == map[] && s.pepMass == None
      invariant s.libraryParameters == None && s.name == None
    {
      s.AddPeak(m.mz[i], m.intensities[i]);
      assert m.mz[..i + 1][..i] == m.mz[..i] && m.intensities[..i + 1][..i] == m.intensities[..i];
    }
    assert m.mz[..|m.mz|] == m.mz && m.intensities[..|m.mz|] == m.intensities;
    s.parameters := m.metadata;
    if m.libraryParameters.Some? {
      s.libraryParameters := m.libraryParameters;
    }
    if "pepmass" in s.parameters {
      if s.parameters["pepmass"].Tuple? {
        s.parameters := s.parameters["pepmass" := s.parameters["pepmass"].first];
      }
    }
    s.SetId();
  }

  /**
   * The adapter's test spectrum: peaks (100, 0.7), (150, 0.2), (200, 0.1) and
   * metadata {'SCANS': '1'} give first peak (100, 0.7) and identifier '1'.
   */
  lemma ConvertFixture()
    ensures var m := MatchmsSpectrum([100.0, 150.0, 200.0], [0.7, 0.2, 0.1], map["SCANS" := Text("1")], None);
            PeaksOf(m.mz, m.intensities)[0] == Peak(100.0, 0.7, None) &&
            IdFrom(ParametersOf(m.metadata), None) == Some(Text("1"))
  {
  }
}
