/** The hazard record: per-event parallel arrays, the events x centroids
    intensity and fraction matrices, the centroids and the scalar attributes;
    its validation (check, check_matrices) and its lookups. */
module Hazards {
  import opened SeqUtil
  import opened Matrices

  /** A centroid: its coordinates and the region it belongs to. */
  datatype Centroid = Centroid(lat: real, lon: real, regionId: int)

  /** The centroids' coordinate reference system, as its EPSG code, so that
      "epsg:4326" and "EPSG:4326" are one system. */
  type Epsg = nat

  datatype HazardData = HazardData(
    hazType: string,
    units: string,
    frequencyUnit: string,
    crs: Epsg,
    centroids: seq<Centroid>,
    eventId: seq<int>,
    eventName: seq<string>,
    date: seq<int>,
    orig: seq<bool>,
    frequency: seq<real>,
    intensity: Matrix,
    fraction: Matrix)
  {
    /** Number of events. */
    function Size(): nat { |eventId| }
  }

  /** The two events x centroids matrices. */
  datatype MatrixKind = Intensity | Fraction

  function MatrixOf(h: HazardData, kind: MatrixKind): (m: Matrix)
    ensures WellShaped(h) ==> m.cols == |h.centroids| && |m.rows| == h.Size()
  {
    match kind
    case Intensity => h.intensity
    case Fraction => h.fraction
  }

  /** The sizes that check compares. */
  datatype Field =
    | Frequency | IntensityRows | IntensityCols | FractionRows | FractionCols
    | EventName | Date | Orig

  datatype HazardError =
    | DuplicateEventIds
    | SizeMismatch(field: Field, expected: nat, actual: nat)
    | ShapeMismatch
    | NoEventWithName(name: string)
    | NoEventWithId(id: int)
    | DifferentTypes
    | DifferentFrequencyUnits
    | DifferentUnits
    | DifferentCrs
    | DateWindowArity(given: nat)
    | FractionZeroed
    | NoNonZeroCentroid

  datatype Result<T> = Ok(value: T) | Err(error: HazardError)

  /** The default frequency unit of a new hazard. */
  const DefaultFrequencyUnit := "1/year"

  /** The default coordinate reference system of centroids (WGS 84). */
  const DefaultCrs: Epsg := 4326

  /** The size check expects: the number of events for per-event arrays and
      matrix rows, the number of centroids for matrix columns. */
  function Expected(h: HazardData, f: Field): nat
  {
    match f
    case IntensityCols => |h.centroids|
    case FractionCols => |h.centroids|
    case _ => |h.eventId|
  }

  /** The size check finds. */
  function Actual(h: HazardData, f: Field): nat
  {
    match f
    case Frequency => |h.frequency|
    case IntensityRows => |h.intensity.rows|
    case IntensityCols => h.intensity.cols
    case FractionRows => |h.fraction.rows|
    case FractionCols => h.fraction.cols
    case EventName => |h.eventName|
    case Date => |h.date|
    case Orig => |h.orig|
  }

  /** Every per-event array has one entry per event, and both matrices have
      one row per event and one column per centroid. */
  predicate WellShaped(h: HazardData)
  {
    && |h.frequency| == |h.eventId|
    && |h.intensity.rows| == |h.eventId|
    && h.intensity.cols == |h.centroids|
    && |h.fraction.rows| == |h.eventId|
    && h.fraction.cols == |h.centroids|
    && |h.eventName| == |h.eventId|
    && |h.date| == |h.eventId|
    && |h.orig| == |h.eventId|
  }

  /** What check accepts: well shaped, and no two events share an id. */
  predicate Valid(h: HazardData)
  {
    WellShaped(h) && Distinct(h.eventId)
  }

  function SizeCheck(h: HazardData, f: Field): (r: Result<()>)
    ensures r.Ok? <==> Actual(h, f) == Expected(h, f)
    ensures r.Err? ==> r.error == SizeMismatch(f, Expected(h, f), Actual(h, f))
  {
    if Actual(h, f) == Expected(h, f) then Ok(())
    else Err(SizeMismatch(f, Expected(h, f), Actual(h, f)))
  }

  /** Hazard.check: repeated event ids first, then the sizes one by one. */
  function Check(h: HazardData): (r: Result<()>)
    ensures r.Ok? <==> Valid(h)
    ensures !Distinct(h.eventId) ==> r == Err(DuplicateEventIds)
    ensures r.Err? ==> r.error.DuplicateEventIds? || r.error.SizeMismatch?
    ensures r.Err? && r.error.SizeMismatch? ==>
      && r.error.expected == Expected(h, r.error.field)
      && r.error.actual == Actual(h, r.error.field)
      && r.error.expected != r.error.actual
  {
    if !Distinct(h.eventId) then Err(DuplicateEventIds)
    else if SizeCheck(h, Frequency).Err? then SizeCheck(h, Frequency)
    else if SizeCheck(h, IntensityRows).Err? then SizeCheck(h, IntensityRows)
    else if SizeCheck(h, IntensityCols).Err? then SizeCheck(h, IntensityCols)
    else if SizeCheck(h, FractionRows).Err? then SizeCheck(h, FractionRows)
    else if SizeCheck(h, FractionCols).Err? then SizeCheck(h, FractionCols)
    else if SizeCheck(h, EventName).Err? then SizeCheck(h, EventName)
    else if SizeCheck(h, Date).Err? then SizeCheck(h, Date)
    else SizeCheck(h, Orig)
  }

  /** Hazard.check_matrices: an all-zero fraction passes whatever its shape;
      otherwise fraction must have intensity's shape. (Pruning explicit zeros
      changes no entry of the dense model.) */
  function CheckMatrices(h: HazardData): (r: Result<()>)
    ensures r.Err? ==> r.error == ShapeMismatch && !IsZero(h.fraction)
    ensures Check(h).Ok? ==> r.Ok?
  {
    if IsZero(h.fraction) || SameShape(h.intensity, h.fraction) then Ok(())
    else Err(ShapeMismatch)
  }

  /** A valid hazard with one per-event array of the wrong length fails
      check with that array's size error: the number of events, then the
      length found. */
  lemma CheckNamesBrokenArray(h: HazardData, freq: seq<real>, names: seq<string>,
                              dates: seq<int>, origs: seq<bool>)
    requires Valid(h)
    ensures |freq| != h.Size() ==>
      Check(h.(frequency := freq)) == Err(SizeMismatch(Frequency, h.Size(), |freq|))
    ensures |names| != h.Size() ==>
      Check(h.(eventName := names)) == Err(SizeMismatch(EventName, h.Size(), |names|))
    ensures |dates| != h.Size() ==>
      Check(h.(date := dates)) == Err(SizeMismatch(Date, h.Size(), |dates|))
    ensures |origs| != h.Size() ==>
      Check(h.(orig := origs)) == Err(SizeMismatch(Orig, h.Size(), |origs|))
  {
  }

  /** check_matrices rejects exactly a non-zero fraction of another shape,
      and a hazard that passes check passes check_matrices. */
  lemma CheckMatricesMeaning(h: HazardData)
    ensures CheckMatrices(h).Err? <==> !IsZero(h.fraction) && !SameShape(h.intensity, h.fraction)
    ensures CheckMatrices(h).Err? ==> CheckMatrices(h).error == ShapeMismatch
    ensures Check(h).Ok? ==> CheckMatrices(h).Ok?
  {
  }

  /** The Hazard constructor: a missing fraction becomes the all-zero matrix
      of intensity's shape, a missing date all ones, a missing orig all false. */
  function NewHazard(
    hazType: string, units: string, frequencyUnit: string, crs: Epsg,
    centroids: seq<Centroid>, eventId: seq<int>, eventName: seq<string>,
    frequency: seq<real>, intensity: Matrix,
    fraction: Option<Matrix>, date: Option<seq<int>>, orig: Option<seq<bool>>): (h: HazardData)
    ensures fraction.None? ==> SameShape(h.fraction, intensity) && IsZero(h.fraction)
    ensures date.None? ==> |h.date| == |eventId| && forall k :: 0 <= k < |h.date| ==> h.date[k] == 1
    ensures orig.None? ==> |h.orig| == |eventId| && forall k :: 0 <= k < |h.orig| ==> !h.orig[k]
  {
    HazardData(hazType, units, frequencyUnit, crs, centroids, eventId, eventName,
      if date.Some? then date.value else seq(|eventId|, _ => 1),
      if orig.Some? then orig.value else seq(|eventId|, _ => false),
      frequency, intensity,
      if fraction.Some? then fraction.value else Zeros(|intensity.rows|, intensity.cols))
  }

  /** A hazard built without fraction gets an all-zero fraction of
      intensity's shape and passes check whenever the given arrays do. */
  lemma InitWithoutFraction(
    hazType: string, units: string, frequencyUnit: string, crs: Epsg,
    centroids: seq<Centroid>, eventId: seq<int>, eventName: seq<string>,
    frequency: seq<real>, intensity: Matrix)
    ensures var h := NewHazard(hazType, units, frequencyUnit, crs, centroids, eventId,
                               eventName, frequency, intensity, None, None, None);
      && SameShape(h.fraction, h.intensity) && IsZero(h.fraction)
      && CheckMatrices(h).Ok?
      && (Check(h).Ok? <==>
          Distinct(eventId) && |frequency| == |eventId| && |eventName| == |eventId|
          && |intensity.rows| == |eventId| && intensity.cols == |centroids|)
  {
  }

  /** Hazard("TC"): no events, no centroids, default units and crs. */
  function EmptyHazard(hazType: string): (h: HazardData)
    ensures Valid(h) && h.Size() == 0 && h.centroids == []
  {
    HazardData(hazType, "", DefaultFrequencyUnit, DefaultCrs, [], [], [], [], [], [],
      Zeros(0, 0), Zeros(0, 0))
  }

  /** Positions of the events called `name`, in order. */
  function NamePositions(h: HazardData, name: string): (r: seq<nat>)
    ensures InBounds(r, |h.eventName|) && Increasing(r)
    ensures forall k :: 0 <= k < |r| ==> h.eventName[r[k]] == name
    ensures forall i :: 0 <= i < |h.eventName| && h.eventName[i] == name ==> i in r
  {
    Where(seq(|h.eventName|, i requires 0 <= i < |h.eventName| => h.eventName[i] == name))
  }

  /** Hazard.get_event_id: the ids of all events with that name, in order. */
  function GetEventId(h: HazardData, name: string): (r: Result<seq<int>>)
    requires |h.eventName| == |h.eventId|
    ensures r.Err? <==> name !in h.eventName
    ensures r.Err? ==> r.error == NoEventWithName(name)
    ensures r.Ok? ==> r.value == Pick(h.eventId, NamePositions(h, name))
  {
    var pos := NamePositions(h, name);
    if pos == [] then
      assert name !in h.eventName;
      Err(NoEventWithName(name))
    else
      assert h.eventName[pos[0]] == name;
      Ok(Pick(h.eventId, pos))
  }

  /** Hazard.get_event_name: the name of the first event with that id. */
  function GetEventName(h: HazardData, id: int): (r: Result<string>)
    requires |h.eventName| == |h.eventId|
    ensures r.Err? <==> id !in h.eventId
    ensures r.Err? ==> r.error == NoEventWithId(id)
    ensures r.Ok? ==> exists i :: 0 <= i < |h.eventId| && h.eventId[i] == id && h.eventName[i] == r.value
  {
    var i := IndexOf(h.eventId, id);
    if i == |h.eventId| then Err(NoEventWithId(id)) else Ok(h.eventName[i])
  }

  /** get_event_id returns the ids of exactly the events with the name, and
      each is reported with that name by get_event_name. */
  lemma {:induction false} EventIdThenName(h: HazardData, name: string)
    requires Valid(h) && name in h.eventName
    ensures GetEventId(h, name).Ok?
    ensures forall id :: id in GetEventId(h, name).value <==>
      exists i :: 0 <= i < h.Size() && h.eventId[i] == id && h.eventName[i] == name
    ensures forall id :: id in GetEventId(h, name).value ==> GetEventName(h, id) == Ok(name)
  {
    var pos := NamePositions(h, name);
    var ids := GetEventId(h, name).value;
    assert ids == Pick(h.eventId, pos);
    forall id | id in ids
      ensures exists i :: 0 <= i < h.Size() && h.eventId[i] == id && h.eventName[i] == name
      ensures GetEventName(h, id) == Ok(name)
    {
      var k :| 0 <= k < |ids| && ids[k] == id;
      IndexOfDistinct(h.eventId, pos[k]);
    }
    forall id | exists i :: 0 <= i < h.Size() && h.eventId[i] == id && h.eventName[i] == name
      ensures id in ids
    {
      var i :| 0 <= i < h.Size() && h.eventId[i] == id && h.eventName[i] == name;
      var k :| 0 <= k < |pos| && pos[k] == i;
      assert ids[k] == id;
    }
  }

  /** The name get_event_name gives for an id is one get_event_id maps back
      to that id. */
  lemma EventNameThenId(h: HazardData, id: int)
    requires Valid(h) && id in h.eventId
    ensures GetEventName(h, id).Ok?
    ensures GetEventId(h, GetEventName(h, id).value).Ok?
    ensures id in GetEventId(h, GetEventName(h, id).value).value
  {
    var name := GetEventName(h, id).value;
    EventIdThenName(h, name);
  }

  /** Hazard.centr_exp_col: the exposures column holding the centroid of
      each exposure point for this hazard type. */
  function CentrExpCol(hazType: string): (col: string)
    ensures |col| == 6 + |hazType|
  {
    "centr_" + hazType
  }

  /** The hazard type a centroid column belongs to, if it is one. */
  function HazTypeOfColumn(col: string): Option<string>
  {
    if |col| >= 6 && col[..6] == "centr_" then Some(col[6..]) else None
  }

  /** The column name determines the hazard type and every centroid column
      is the column of its type. */
  lemma CentrExpColRoundTrip(hazType: string, col: string)
    ensures HazTypeOfColumn(CentrExpCol(hazType)) == Some(hazType)
    ensures HazTypeOfColumn(col).Some? ==> CentrExpCol(HazTypeOfColumn(col).value) == col
  {
    assert CentrExpCol(hazType)[6..] == hazType;
    if HazTypeOfColumn(col).Some? {
      assert col == col[..6] + col[6..];
    }
  }

  /** Hazard._get_fraction: nothing when fraction is all zero, otherwise the
      whole matrix or the requested columns, repetitions included. */
  function GetFraction(h: HazardData, centIdx: Option<seq<nat>>): (r: Option<Matrix>)
    requires centIdx.Some? ==> InBounds(centIdx.value, h.fraction.cols)
    ensures r.None? <==> IsZero(h.fraction)
    ensures r.Some? && centIdx.None? ==> r.value == h.fraction
    ensures r.Some? && centIdx.Some? ==>
      var idx := centIdx.value;
      && |r.value.rows| == |h.fraction.rows| && r.value.cols == |idx|
      && forall i, k :: 0 <= i < |h.fraction.rows| && 0 <= k < |idx| ==>
           r.value.rows[i][k] == h.fraction.rows[i][idx[k]]
  {
    if IsZero(h.fraction) then None
    else if centIdx.None? then Some(h.fraction)
    else Some(SelectCols(h.fraction, centIdx.value))
  }

  /** One event's entries across all per-event arrays and matrix rows. */
  datatype EventRow = EventRow(
    id: int, name: string, date: int, orig: bool, frequency: real,
    intensity: seq<real>, fraction: seq<real>)

  function RowOf(h: HazardData, i: nat): EventRow
    requires WellShaped(h) && i < h.Size()
  {
    EventRow(h.eventId[i], h.eventName[i], h.date[i], h.orig[i], h.frequency[i],
      h.intensity.rows[i], h.fraction.rows[i])
  }
}
