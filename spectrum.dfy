/**
 * The MS2 spectrum object of msmolnet/Spectrum.py (mol_networking/Spectrum.py is the
 * same class): a list of peaks, an identifier taken from the metadata, the metadata
 * itself, and the attributes that loaders and library matching attach later.
 */
module Spectra {
  import opened Wrappers

  /** A metadata value: text, a number, or a tuple (matchms stores 'pepmass' as one). */
  datatype Value = Text(text: string) | Number(x: real) | Tuple(first: Value, rest: seq<Value>)

  /**
   * A fragment peak. `scaled` is the Euclidean-scaled square-root intensity that
   * `euclidean_scale` attaches; a peak built by `add_peak` does not have it yet.
   */
  datatype Peak = Peak(mass: real, intensity: real, scaled: Option<real>)

  predicate AllScaled(ps: seq<Peak>)
  {
    forall k :: 0 <= k < |ps| ==> ps[k].scaled.Some?
  }

  /**
   * The identifier `set_id` leaves behind: 'scans' wins over 'SCANS', and with
   * neither key the identifier is left as it was.
   */
  function IdFrom(parameters: map<string, Value>, current: Option<Value>): (r: Option<Value>)
    ensures "scans" in parameters ==> r == Some(parameters["scans"])
    ensures "scans" !in parameters && "SCANS" in parameters ==> r == Some(parameters["SCANS"])
    ensures "scans" !in parameters && "SCANS" !in parameters ==> r == current
  {
    var afterUpper := if "SCANS" in parameters then Some(parameters["SCANS"]) else current;
    if "scans" in parameters then Some(parameters["scans"]) else afterUpper
  }

  /** Setting the identifier twice leaves it where setting it once did. */
  lemma SetIdIdempotent(parameters: map<string, Value>, current: Option<Value>)
    ensures IdFrom(parameters, IdFrom(parameters, current)) == IdFrom(parameters, current)
  {
  }

  class Spectrum {
    var peaks: seq<Peak>
    var featureId: Option<Value>
    var parameters: map<string, Value>
    /** `pep_mass`; the constructor does not set it, a loader does. */
    var pepMass: Option<real>
    /** Present only after a library match attached it. */
    var libraryParameters: Option<map<string, Value>>
    /** Present only when the MGF record carried a NAME line (mol_networking). */
    var name: Option<string>

    constructor ()
      ensures peaks == [] && featureId == None && parameters == map[]
      ensures pepMass == None && libraryParameters == None && name == None
    {
      peaks := [];
      featureId := None;
      parameters := map[];
      pepMass := None;
      libraryParameters := None;
      name := None;
    }

    /** The spectrum can be scored: it has a precursor mass and scaled peaks. */
    predicate Ready()
      reads this
    {
      pepMass.Some? && AllScaled(peaks)
    }

    /** `add_peak`: appends one new peak; the peaks already there are untouched. */
    method AddPeak(mass: real, intensity: real)
      modifies this`peaks
      ensures peaks == old(peaks) + [Peak(mass, intensity, None)]
    {
      peaks := peaks + [Peak(mass, intensity, None)];
    }

    /** `set_id`: the feature id comes from 'scans', else from 'SCANS', else stays. */
    method SetId()
      modifies this`featureId
      ensures featureId == IdFrom(parameters, old(featureId))
    {
      if "SCANS" in parameters {
        featureId := Some(parameters["SCANS"]);
      }
      if "scans" in parameters {
        featureId := Some(parameters["scans"]);
      }
    }

    /** `__lt__`: ordering by precursor mass, strictly. */
    predicate Lt(other: Spectrum)
      reads this, other
      requires pepMass.Some? && other.pepMass.Some?
    {
      pepMass.value < other.pepMass.value
    }
  }

  /** `__lt__` is a strict order: irreflexive and transitive. */
  lemma LtStrictOrder(a: Spectrum, b: Spectrum, c: Spectrum)
    requires a.pepMass.Some? && b.pepMass.Some? && c.pepMass.Some?
    ensures !a.Lt(a)
    ensures a.Lt(b) ==> !b.Lt(a)
    ensures a.Lt(b) && b.Lt(c) ==> a.Lt(c)
  {
  }
}
