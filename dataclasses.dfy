/**
 * The prototype data classes of DataClasses.py: a peak with a closed mass-window
 * comparison, and a spectrum with an open precursor-mass window.
 */
module DataClasses {
  import opened Wrappers
  import Spectra
  import Alignment
  import Similarity

  /** A peak of the prototype: mass and raw intensity. */
  datatype Peak = Peak(mass: real, intensity: real)

  /** `compare_peaks`: self.mass lies in the closed interval [mass2 - tol, mass2 + tol]. */
  predicate ComparePeaks(self: Peak, other: Peak, tolerance: real)
  {
    self.mass >= other.mass - tolerance && self.mass <= other.mass + tolerance
  }

  /** The window is the distance between the two masses, closed at the tolerance. */
  lemma ComparePeaksDistance(self: Peak, other: Peak, tolerance: real)
    ensures ComparePeaks(self, other, tolerance) <==> Alignment.Abs(self.mass - other.mass) <= tolerance
  {
  }

  lemma ComparePeaksSymmetric(self: Peak, other: Peak, tolerance: real)
    ensures ComparePeaks(self, other, tolerance) <==> ComparePeaks(other, self, tolerance)
  {
  }

  /** It is the unshifted fragment window the package scorers use. */
  lemma ComparePeaksIsFragmentWindow(self: Peak, other: Peak, tolerance: real, s1: Option<real>, s2: Option<real>)
    ensures ComparePeaks(self, other, tolerance)
        <==> Alignment.InWindow(Spectra.Peak(self.mass, self.intensity, s1),
                                Spectra.Peak(other.mass, other.intensity, s2), 0.0, tolerance)
  {
  }

  /** The open precursor window of `compare_precursor_mass`. */
  predicate PrecursorWithin(pep1: real, pep2: real, threshold: real)
  {
    pep1 - pep2 > -threshold && pep1 - pep2 < threshold
  }

  lemma PrecursorWithinDistance(pep1: real, pep2: real, threshold: real)
    ensures PrecursorWithin(pep1, pep2, threshold) <==> Alignment.Abs(pep1 - pep2) < threshold
  {
  }

  lemma PrecursorWithinSymmetric(pep1: real, pep2: real, threshold: real)
    ensures PrecursorWithin(pep1, pep2, threshold) <==> PrecursorWithin(pep2, pep1, threshold)
  {
  }

  /** A difference of exactly the threshold, in either direction, is rejected. */
  lemma PrecursorWithinOpen(pep1: real, threshold: real)
    ensures !PrecursorWithin(pep1 + threshold, pep1, threshold)
    ensures !PrecursorWithin(pep1 - threshold, pep1, threshold)
  {
  }

  /** Unlike the package gate, which is closed: the prototype window is strictly inside it. */
  lemma PrecursorWithinGate(pep1: real, pep2: real, threshold: real)
    ensures PrecursorWithin(pep1, pep2, threshold) ==> Similarity.PassesGate(pep1, pep2, threshold)
    ensures threshold >= 0.0 ==>
              Similarity.PassesGate(pep1, pep1 + threshold, threshold) && !PrecursorWithin(pep1, pep1 + threshold, threshold)
  {
  }

  class Spectrum {
    var peaks: seq<Peak>
    /** `peak_id`, absent until `set_peak_id`. */
    var peakId: Option<string>
    /** `pep_mass`, absent until a reader sets it. */
    var pepMass: Option<real>

    constructor ()
      ensures peaks == [] && peakId == None && pepMass == None
    {
      peaks := [];
      peakId := None;
      pepMass := None;
    }

    /** `add_peak`: one new peak at the end. */
    method AddPeak(mass: real, intensity: real)
      modifies this`peaks
      ensures peaks == old(peaks) + [Peak(mass, intensity)]
    {
      peaks := peaks + [Peak(mass, intensity)];
    }

    method SetPeakId(id: string)
      modifies this`peakId
      ensures peakId == Some(id)
    {
      peakId := Some(id);
    }

    /**
     * `compare_precursor_mass`: reading `pep_mass` of a spectrum that never had one
     * set raises AttributeError; otherwise the open window on the difference.
     */
    function ComparePrecursorMass(other: Spectrum, threshold: real): (r: Result<bool, Exception>)
      reads this, other
      ensures r.Err? <==> pepMass.None? || other.pepMass.None?
      ensures r.Err? ==> r.error == AttributeError
      ensures r.Ok? ==> (r.value <==> Alignment.Abs(pepMass.value - other.pepMass.value) < threshold)
    {
      if pepMass.None? || other.pepMass.None? then Err(AttributeError)
      else
        PrecursorWithinDistance(pepMass.value, other.pepMass.value, threshold);
        Ok(PrecursorWithin(pepMass.value, other.pepMass.value, threshold))
    }
  }

  /** The comparison does not depend on which spectrum it is called on. */
  lemma ComparePrecursorMassSymmetric(one: Spectrum, two: Spectrum, threshold: real)
    ensures one.ComparePrecursorMass(two, threshold) == two.ComparePrecursorMass(one, threshold)
  {
    if one.pepMass.Some? && two.pepMass.Some? {
      PrecursorWithinSymmetric(one.pepMass.value, two.pepMass.value, threshold);
    }
  }
}
