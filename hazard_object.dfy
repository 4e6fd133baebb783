/** The Hazard object: the same record held in fields that append,
    remove_duplicates and check_matrices update in place. Each method is
    specified by the value-level operation of the Hazards and Concatenation
    modules on the record before and after. */
module HazardObject {
  import opened SeqUtil
  import opened Matrices
  import opened Hazards
  import opened Concatenation

  class Hazard {
    var hazType: string
    var units: string
    var frequencyUnit: string
    var crs: Epsg
    var centroids: seq<Centroid>
    var eventId: seq<int>
    var eventName: seq<string>
    var date: seq<int>
    var orig: seq<bool>
    var frequency: seq<real>
    var intensity: Matrix
    var fraction: Matrix

    /** The record the fields hold. */
    function Data(): HazardData
      reads this
    {
      HazardData(hazType, units, frequencyUnit, crs, centroids, eventId, eventName,
        date, orig, frequency, intensity, fraction)
    }

    /** Hazard(...): a missing fraction, date or orig takes its default. */
    constructor (
      hazType: string, units: string, frequencyUnit: string, crs: Epsg,
      centroids: seq<Centroid>, eventId: seq<int>, eventName: seq<string>,
      frequency: seq<real>, intensity: Matrix,
      fraction: Option<Matrix>, date: Option<seq<int>>, orig: Option<seq<bool>>)
      ensures Data() == NewHazard(hazType, units, frequencyUnit, crs, centroids, eventId,
                                  eventName, frequency, intensity, fraction, date, orig)
      ensures fraction.None? ==> IsZero(this.fraction) && SameShape(this.fraction, this.intensity)
    {
      var h := NewHazard(hazType, units, frequencyUnit, crs, centroids, eventId,
                         eventName, frequency, intensity, fraction, date, orig);
      this.hazType := h.hazType;
      this.units := h.units;
      this.frequencyUnit := h.frequencyUnit;
      this.crs := h.crs;
      this.centroids := h.centroids;
      this.eventId := h.eventId;
      this.eventName := h.eventName;
      this.date := h.date;
      this.orig := h.orig;
      this.frequency := h.frequency;
      this.intensity := h.intensity;
      this.fraction := h.fraction;
    }

    /** Overwrite every field with the given record. */
    method Store(h: HazardData)
      modifies this
      ensures Data() == h
    {
      hazType, units, frequencyUnit, crs := h.hazType, h.units, h.frequencyUnit, h.crs;
      centroids := h.centroids;
      eventId, eventName, date, orig := h.eventId, h.eventName, h.date, h.orig;
      frequency, intensity, fraction := h.frequency, h.intensity, h.fraction;
    }

    /** Hazard.append(*others): this hazard becomes the merge of itself and
        the others, in that order; on an error it keeps its state. A merge
        that succeeds passes check and holds every event of every input. */
    method Append(others: seq<HazardData>) returns (err: Option<HazardError>)
      modifies this
      ensures var r := Merge([old(Data())] + others);
        && (r.Ok? ==> err == None && Data() == r.value)
        && (r.Err? ==> err == Some(r.error) && Data() == old(Data()))
      ensures err.None? ==> Valid(Data()) && Data().Size() == TotalSize([old(Data())] + others)
      ensures err.Some? <==> !AllValid([old(Data())] + others) || !Compatible([old(Data())] + others)
    {
      var r := Merge([Data()] + others);
      if r.Ok? {
        Store(r.value);
        err := None;
      } else {
        err := Some(r.error);
      }
    }

    /** Hazard.remove_duplicates: keep the first event of each (name, date),
        in place. Afterwards no two events share a name and date. */
    method RemoveDuplicates()
      requires WellShaped(Data())
      modifies this
      ensures Data() == Concatenation.RemoveDuplicates(old(Data()))
      ensures Distinct(Keys(Data())) && Data().centroids == old(centroids)
      ensures old(Valid(Data())) ==> Valid(Data())
    {
      Store(Concatenation.RemoveDuplicates(Data()));
    }

    /** Hazard.check_matrices: pruning explicit zeros changes no entry, so
        the state is kept; the error is a non-zero fraction whose shape
        differs from intensity's. */
    method CheckMatrices() returns (err: Option<HazardError>)
      modifies this
      ensures Data() == old(Data())
      ensures err.None? <==> Hazards.CheckMatrices(Data()).Ok?
      ensures err.Some? <==> !IsZero(fraction) && !SameShape(intensity, fraction)
      ensures err.Some? ==> err.value == ShapeMismatch
    {
      CheckMatricesMeaning(Data());
      var r := Hazards.CheckMatrices(Data());
      err := if r.Ok? then None else Some(r.error);
    }
  }
}
