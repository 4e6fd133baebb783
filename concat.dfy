/** Hazard.append and Hazard.concat: several hazards merged into one, on the
    union of their centroids; and Hazard.remove_duplicates. */
module Concatenation {
  import opened SeqUtil
  import opened Matrices
  import opened Hazards
  import opened Selection

  // ---------------------------------------------------------------------
  // Union of centroids

  /** Centroids are matched by their exact coordinates. */
  function CoordOf(c: Centroid): (real, real)
  {
    (c.lat, c.lon)
  }

  function Coords(cs: seq<Centroid>): (r: seq<(real, real)>)
    ensures |r| == |cs| && forall j :: 0 <= j < |cs| ==> r[j] == CoordOf(cs[j])
  {
    seq(|cs|, j requires 0 <= j < |cs| => CoordOf(cs[j]))
  }

  /** acc followed by the centroids of cs at coordinates not seen before,
      in order, the first of several at one place kept. */
  function AddCentroids(acc: seq<Centroid>, cs: seq<Centroid>): (r: seq<Centroid>)
    ensures |acc| <= |r| && forall i :: 0 <= i < |acc| ==> r[i] == acc[i]
    ensures forall j :: 0 <= j < |cs| ==> CoordOf(cs[j]) in Coords(r)
    ensures Distinct(Coords(acc)) ==> Distinct(Coords(r))
    decreases |cs|
  {
    if cs == [] then acc
    else if CoordOf(cs[0]) in Coords(acc) then
      var r := AddCentroids(acc, cs[1..]);
      assert CoordOf(cs[0]) in Coords(r) by {
        var i :| 0 <= i < |acc| && Coords(acc)[i] == CoordOf(cs[0]);
        assert Coords(r)[i] == CoordOf(cs[0]);
      }
      r
    else
      var acc' := acc + [cs[0]];
      var r := AddCentroids(acc', cs[1..]);
      assert Coords(r)[|acc|] == CoordOf(cs[0]);
      assert Distinct(Coords(acc)) ==> Distinct(Coords(acc')) by {
        assert Coords(acc') == Coords(acc) + [CoordOf(cs[0])];
      }
      r
  }

  /** Centroids.union of the centroid lists, taken left to right onto acc. */
  function UnionFrom(acc: seq<Centroid>, css: seq<seq<Centroid>>): (r: seq<Centroid>)
    ensures |acc| <= |r| && forall i :: 0 <= i < |acc| ==> r[i] == acc[i]
    ensures forall k, j :: 0 <= k < |css| && 0 <= j < |css[k]| ==> CoordOf(css[k][j]) in Coords(r)
    ensures Distinct(Coords(acc)) ==> Distinct(Coords(r))
    decreases |css|
  {
    if css == [] then acc
    else
      var next := AddCentroids(acc, css[0]);
      var r := UnionFrom(next, css[1..]);
      assert forall j :: 0 <= j < |css[0]| ==> CoordOf(css[0][j]) in Coords(r) by {
        forall j | 0 <= j < |css[0]|
          ensures CoordOf(css[0][j]) in Coords(r)
        {
          var i :| 0 <= i < |next| && Coords(next)[i] == CoordOf(css[0][j]);
          assert Coords(r)[i] == CoordOf(css[0][j]);
        }
      }
      assert forall k :: 1 <= k < |css| ==> css[k] == css[1..][k - 1];
      r
  }

  /** The merged centroids: every place of every list once, in order of
      first appearance. */
  function Union(css: seq<seq<Centroid>>): (r: seq<Centroid>)
    ensures Distinct(Coords(r))
    ensures forall k, j :: 0 <= k < |css| && 0 <= j < |css[k]| ==> CoordOf(css[k][j]) in Coords(r)
  {
    UnionFrom([], css)
  }

  /** Adding centroids whose places are all known already adds nothing. */
  lemma {:induction false} AddKnown(acc: seq<Centroid>, cs: seq<Centroid>)
    requires forall j :: 0 <= j < |cs| ==> CoordOf(cs[j]) in Coords(acc)
    ensures AddCentroids(acc, cs) == acc
    decreases |cs|
  {
    if cs != [] {
      AddKnown(acc, cs[1..]);
    }
  }

  /** Adding centroids at new, pairwise different places appends them all. */
  lemma {:induction false} AddNew(acc: seq<Centroid>, cs: seq<Centroid>)
    requires Distinct(Coords(acc + cs))
    ensures AddCentroids(acc, cs) == acc + cs
    decreases |cs|
  {
    if cs != [] {
      var all := Coords(acc + cs);
      forall i | 0 <= i < |acc|
        ensures Coords(acc)[i] != CoordOf(cs[0])
      {
        assert all[i] == Coords(acc)[i] && all[|acc|] == CoordOf(cs[0]);
      }
      assert acc + [cs[0]] + cs[1..] == acc + cs;
      AddNew(acc + [cs[0]], cs[1..]);
    }
  }

  /** The union of two lists of centroids. */
  lemma UnionOfTwo(a: seq<Centroid>, b: seq<Centroid>)
    ensures Union([a, b]) == AddCentroids(AddCentroids([], a), b)
  {
    var first := AddCentroids([], a);
    assert [a, b][1..] == [b] && [b][1..] == [];
    assert Union([a, b]) == UnionFrom(first, [b]);
    assert UnionFrom(first, [b]) == UnionFrom(AddCentroids(first, b), []);
  }

  /** Merging two lists at pairwise different places concatenates them. */
  lemma UnionDisjoint(a: seq<Centroid>, b: seq<Centroid>)
    requires Distinct(Coords(a + b))
    ensures Union([a, b]) == a + b
  {
    UnionOfTwo(a, b);
    assert Coords(a) == Coords(a + b)[..|a|];
    assert [] + a == a;
    AddNew([], a);
    AddNew(a, b);
  }

  /** Merging a list at pairwise different places with one at the same
      places gives the first list. */
  lemma UnionSame(a: seq<Centroid>, b: seq<Centroid>)
    requires Distinct(Coords(a))
    requires forall j :: 0 <= j < |b| ==> CoordOf(b[j]) in Coords(a)
    ensures Union([a, b]) == a
  {
    UnionOfTwo(a, b);
    assert [] + a == a;
    AddNew([], a);
    AddKnown(a, b);
  }

  // ---------------------------------------------------------------------
  // Per-event arrays and matrices of several hazards

  function IdsOf(h: HazardData): seq<int> { h.eventId }
  function NamesOf(h: HazardData): seq<string> { h.eventName }
  function DatesOf(h: HazardData): seq<int> { h.date }
  function OrigsOf(h: HazardData): seq<bool> { h.orig }
  function FrequenciesOf(h: HazardData): seq<real> { h.frequency }

  /** The hazards' arrays one after the other (np.hstack, list sum). */
  function Gather<T>(hs: seq<HazardData>, f: HazardData -> seq<T>): seq<T>
  {
    if hs == [] then [] else f(hs[0]) + Gather(hs[1..], f)
  }

  /** Total number of events. */
  function TotalSize(hs: seq<HazardData>): nat
  {
    if hs == [] then 0 else hs[0].Size() + TotalSize(hs[1..])
  }

  /** Arrays of one entry per event gather into one entry per event of all. */
  lemma {:induction false} GatherSize<T>(hs: seq<HazardData>, f: HazardData -> seq<T>)
    requires forall k :: 0 <= k < |hs| ==> |f(hs[k])| == hs[k].Size()
    ensures |Gather(hs, f)| == TotalSize(hs)
  {
    if hs != [] {
      assert forall k :: 0 <= k < |hs[1..]| ==> hs[1..][k] == hs[k + 1];
      GatherSize(hs[1..], f);
    }
  }

  /** Gathering two hazards concatenates their arrays. */
  lemma GatherTwo<T>(a: HazardData, b: HazardData, f: HazardData -> seq<T>)
    ensures Gather([a, b], f) == f(a) + f(b)
  {
    assert [a, b][1..] == [b] && [b][1..] == [];
    assert Gather([b], f) == f(b) + [];
  }

  predicate AllWellShaped(hs: seq<HazardData>)
  {
    forall k :: 0 <= k < |hs| ==> WellShaped(hs[k])
  }

  predicate AllValid(hs: seq<HazardData>)
  {
    forall k :: 0 <= k < |hs| ==> Valid(hs[k])
  }

  function CentroidLists(hs: seq<HazardData>): (css: seq<seq<Centroid>>)
    ensures |css| == |hs| && forall k :: 0 <= k < |hs| ==> css[k] == hs[k].centroids
  {
    seq(|hs|, k requires 0 <= k < |hs| => hs[k].centroids)
  }

  /** Every centroid of every hazard has its place in the list. */
  predicate Covers(union: seq<Centroid>, hs: seq<HazardData>)
  {
    forall k, j :: 0 <= k < |hs| && 0 <= j < |hs[k].centroids| ==>
      CoordOf(hs[k].centroids[j]) in Coords(union)
  }

  /** For each centroid of cs, the column of the merged centroids at its place. */
  function ColumnMap(cs: seq<Centroid>, union: seq<Centroid>): (m: seq<nat>)
    requires forall j :: 0 <= j < |cs| ==> CoordOf(cs[j]) in Coords(union)
    ensures |m| == |cs| && InBounds(m, |union|)
    ensures forall j :: 0 <= j < |cs| ==> CoordOf(union[m[j]]) == CoordOf(cs[j])
  {
    seq(|cs|, j requires 0 <= j < |cs| => IndexOf(Coords(union), CoordOf(cs[j])))
  }

  /** A matrix of h moved onto the columns of the merged centroids. */
  function Relaid(h: HazardData, union: seq<Centroid>, kind: MatrixKind): (m: Matrix)
    requires WellShaped(h)
    requires forall j :: 0 <= j < |h.centroids| ==> CoordOf(h.centroids[j]) in Coords(union)
    ensures m.cols == |union| && |m.rows| == h.Size()
  {
    Scatter(MatrixOf(h, kind), ColumnMap(h.centroids, union), |union|)
  }

  /** The relaid matrices of the hazards, one block of rows after the other
      (sparse.vstack). */
  function StackedRows(hs: seq<HazardData>, union: seq<Centroid>, kind: MatrixKind): (rows: seq<seq<real>>)
    requires AllWellShaped(hs) && Covers(union, hs)
    ensures |rows| == TotalSize(hs)
    ensures forall i :: 0 <= i < |rows| ==> |rows[i]| == |union|
  {
    if hs == [] then []
    else
      assert forall k :: 0 <= k < |hs[1..]| ==> hs[1..][k] == hs[k + 1];
      Relaid(hs[0], union, kind).rows + StackedRows(hs[1..], union, kind)
  }

  lemma StackedTwo(a: HazardData, b: HazardData, union: seq<Centroid>, kind: MatrixKind)
    requires WellShaped(a) && WellShaped(b)
    requires forall j :: 0 <= j < |a.centroids| ==> CoordOf(a.centroids[j]) in Coords(union)
    requires forall j :: 0 <= j < |b.centroids| ==> CoordOf(b.centroids[j]) in Coords(union)
    ensures AllWellShaped([a, b]) && Covers(union, [a, b])
    ensures StackedRows([a, b], union, kind) == Relaid(a, union, kind).rows + Relaid(b, union, kind).rows
  {
    assert [a, b][1..] == [b] && [b][1..] == [];
    assert StackedRows([b], union, kind) == Relaid(b, union, kind).rows + [];
  }

  // ---------------------------------------------------------------------
  // Compatibility

  /** The non-empty values all agree (a set of at most one value). */
  predicate SameIgnoringEmpty(vs: seq<string>)
  {
    forall k, l :: 0 <= k < |vs| && 0 <= l < |vs| && vs[k] != "" && vs[l] != "" ==> vs[k] == vs[l]
  }

  predicate AllSame<T(==)>(vs: seq<T>)
  {
    forall k :: 0 <= k < |vs| ==> vs[k] == vs[0]
  }

  function HazTypes(hs: seq<HazardData>): (vs: seq<string>)
    ensures |vs| == |hs| && forall k :: 0 <= k < |hs| ==> vs[k] == hs[k].hazType
  {
    seq(|hs|, k requires 0 <= k < |hs| => hs[k].hazType)
  }

  function UnitList(hs: seq<HazardData>): (vs: seq<string>)
    ensures |vs| == |hs| && forall k :: 0 <= k < |hs| ==> vs[k] == hs[k].units
  {
    seq(|hs|, k requires 0 <= k < |hs| => hs[k].units)
  }

  function FrequencyUnits(hs: seq<HazardData>): (vs: seq<string>)
    ensures |vs| == |hs| && forall k :: 0 <= k < |hs| ==> vs[k] == hs[k].frequencyUnit
  {
    seq(|hs|, k requires 0 <= k < |hs| => hs[k].frequencyUnit)
  }

  function CrsList(hs: seq<HazardData>): (vs: seq<Epsg>)
    ensures |vs| == |hs| && forall k :: 0 <= k < |hs| ==> vs[k] == hs[k].crs
  {
    seq(|hs|, k requires 0 <= k < |hs| => hs[k].crs)
  }

  /** The hazards can be merged: one hazard type and one unit among those
      given, and one frequency unit and one coordinate system. */
  predicate Compatible(hs: seq<HazardData>)
  {
    && SameIgnoringEmpty(HazTypes(hs))
    && AllSame(FrequencyUnits(hs))
    && SameIgnoringEmpty(UnitList(hs))
    && AllSame(CrsList(hs))
  }

  /** The first non-empty value, or "" when there is none. */
  function FirstNonEmpty(vs: seq<string>): (r: string)
    ensures r == "" <==> forall k :: 0 <= k < |vs| ==> vs[k] == ""
    ensures r != "" ==> r in vs
    ensures SameIgnoringEmpty(vs) ==> forall k :: 0 <= k < |vs| && vs[k] != "" ==> vs[k] == r
  {
    if vs == [] then ""
    else if vs[0] != "" then vs[0]
    else
      var r := FirstNonEmpty(vs[1..]);
      assert forall k :: 1 <= k < |vs| ==> vs[k] == vs[1..][k - 1];
      r
  }

  /** The error check reports for the first hazard that fails it. */
  function FirstCheckError(hs: seq<HazardData>): (r: Option<HazardError>)
    ensures r.None? <==> AllValid(hs)
    ensures r.Some? ==> exists k :: 0 <= k < |hs| && Check(hs[k]) == Err(r.value)
  {
    if hs == [] then None
    else
      assert forall k :: 1 <= k < |hs| ==> hs[k] == hs[1..][k - 1];
      match Check(hs[0])
      case Err(e) => Some(e)
      case Ok(_) => FirstCheckError(hs[1..])
  }

  // ---------------------------------------------------------------------
  // append and concat

  /** The merged hazard of valid hazards: it passes check, has the events of
      all hazards, and its centroids are the places of all hazards'
      centroids, each once. Event ids are kept when they are unique across
      all hazards and renumbered 1..n otherwise. */
  function Merged(hs: seq<HazardData>): (g: HazardData)
    requires hs != [] && AllValid(hs)
    ensures Valid(g) && g.Size() == TotalSize(hs)
    ensures Distinct(Coords(g.centroids)) && Covers(g.centroids, hs)
    ensures Distinct(Gather(hs, IdsOf)) ==> g.eventId == Gather(hs, IdsOf)
  {
    var union := Union(CentroidLists(hs));
    var ids := Gather(hs, IdsOf);
    GatherSize(hs, IdsOf);
    GatherSize(hs, NamesOf);
    GatherSize(hs, DatesOf);
    GatherSize(hs, OrigsOf);
    GatherSize(hs, FrequenciesOf);
    assert !Distinct(ids) ==> Distinct(Count(1, |ids|));
    HazardData(
      FirstNonEmpty(HazTypes(hs)),
      FirstNonEmpty(UnitList(hs)),
      hs[0].frequencyUnit,
      hs[0].crs,
      union,
      if Distinct(ids) then ids else Count(1, |ids|),
      Gather(hs, NamesOf),
      Gather(hs, DatesOf),
      Gather(hs, OrigsOf),
      Gather(hs, FrequenciesOf),
      Grid(|union|, StackedRows(hs, union, Intensity)),
      Grid(|union|, StackedRows(hs, union, Fraction)))
  }

  /** Hazard.append of hs[1..] to hs[0]: each hazard must pass check, then
      hazard types, frequency units, units and coordinate systems must agree,
      in that order. */
  function Merge(hs: seq<HazardData>): (r: Result<HazardData>)
    requires hs != []
    ensures r.Err? <==> !AllValid(hs) || !Compatible(hs)
    ensures r.Err? && !AllValid(hs) ==> exists k :: 0 <= k < |hs| && Check(hs[k]) == Err(r.error)
    ensures r.Ok? ==> Valid(r.value) && r.value.Size() == TotalSize(hs)
  {
    match FirstCheckError(hs)
    case Some(e) => Err(e)
    case None =>
      if !SameIgnoringEmpty(HazTypes(hs)) then Err(DifferentTypes)
      else if !AllSame(FrequencyUnits(hs)) then Err(DifferentFrequencyUnits)
      else if !SameIgnoringEmpty(UnitList(hs)) then Err(DifferentUnits)
      else if !AllSame(CrsList(hs)) then Err(DifferentCrs)
      else Ok(Merged(hs))
  }

  // ---------------------------------------------------------------------
  // Two hazards

  /** When the places of a run of the merged centroids are those of cs, cs
      maps onto that run. */
  lemma ColumnMapSpan(cs: seq<Centroid>, union: seq<Centroid>, off: nat)
    requires Distinct(Coords(union)) && off + |cs| <= |union|
    requires forall j :: 0 <= j < |cs| ==> CoordOf(union[off + j]) == CoordOf(cs[j])
    ensures forall j :: 0 <= j < |cs| ==> CoordOf(cs[j]) in Coords(union)
    ensures ColumnMap(cs, union) == Span(off, |cs|)
  {
    forall j | 0 <= j < |cs|
      ensures CoordOf(cs[j]) in Coords(union) && IndexOf(Coords(union), CoordOf(cs[j])) == off + j
    {
      assert Coords(union)[off + j] == CoordOf(cs[j]);
      IndexOfDistinct(Coords(union), off + j);
    }
  }

  /** A hazard whose centroids sit at a run of the merged centroids keeps its
      matrix on that run of columns, zeros elsewhere. */
  lemma RelaidSpan(h: HazardData, union: seq<Centroid>, off: nat, kind: MatrixKind)
    requires WellShaped(h) && Distinct(Coords(union)) && off + |h.centroids| <= |union|
    requires forall j :: 0 <= j < |h.centroids| ==> CoordOf(union[off + j]) == CoordOf(h.centroids[j])
    ensures forall j :: 0 <= j < |h.centroids| ==> CoordOf(h.centroids[j]) in Coords(union)
    ensures Relaid(h, union, kind) == PadColumns(MatrixOf(h, kind), off, |union| - off - |h.centroids|)
  {
    ColumnMapSpan(h.centroids, union, off);
    ScatterSpan(MatrixOf(h, kind), off, |union|);
  }

  /** The merge of two valid hazards: scalar attributes, centroids and
      per-event arrays. */
  lemma MergedTwo(a: HazardData, b: HazardData)
    requires Valid(a) && Valid(b)
    ensures AllValid([a, b])
    ensures var g := Merged([a, b]);
      && g.hazType == FirstNonEmpty([a.hazType, b.hazType])
      && g.units == FirstNonEmpty([a.units, b.units])
      && g.frequencyUnit == a.frequencyUnit && g.crs == a.crs
      && g.centroids == Union([a.centroids, b.centroids])
      && g.eventId == (if Distinct(a.eventId + b.eventId) then a.eventId + b.eventId
                       else Count(1, a.Size() + b.Size()))
      && g.eventName == a.eventName + b.eventName
      && g.date == a.date + b.date && g.orig == a.orig + b.orig
      && g.frequency == a.frequency + b.frequency
  {
    assert AllValid([a, b]);
    assert HazTypes([a, b]) == [a.hazType, b.hazType];
    assert UnitList([a, b]) == [a.units, b.units];
    assert CentroidLists([a, b]) == [a.centroids, b.centroids];
    GatherTwo(a, b, IdsOf);
    GatherTwo(a, b, NamesOf);
    GatherTwo(a, b, DatesOf);
    GatherTwo(a, b, OrigsOf);
    GatherTwo(a, b, FrequenciesOf);
  }

  /** Two agreeing hazards merge into the non-empty hazard type and unit
      they share, and into their common frequency unit and CRS. */
  lemma MergedTwoScalars(a: HazardData, b: HazardData)
    requires Valid(a) && Valid(b) && Compatible([a, b])
    ensures AllValid([a, b])
    ensures var g := Merged([a, b]);
      && (a.hazType != "" ==> g.hazType == a.hazType) && (b.hazType != "" ==> g.hazType == b.hazType)
      && (a.units != "" ==> g.units == a.units) && (b.units != "" ==> g.units == b.units)
      && g.frequencyUnit == a.frequencyUnit == b.frequencyUnit
      && g.crs == a.crs == b.crs
  {
    MergedTwo(a, b);
    assert SameIgnoringEmpty([a.hazType, b.hazType]) by {
      assert HazTypes([a, b]) == [a.hazType, b.hazType];
    }
    assert SameIgnoringEmpty([a.units, b.units]) by {
      assert UnitList([a, b]) == [a.units, b.units];
    }
    assert b.frequencyUnit == a.frequencyUnit by {
      assert FrequencyUnits([a, b])[1] == b.frequencyUnit;
    }
    assert b.crs == a.crs by {
      assert CrsList([a, b])[1] == b.crs;
    }
  }

  /** A matrix of the merge of two valid hazards: the first hazard's rows
      relaid onto the merged centroids, then the second's. */
  lemma MergedTwoMatrix(a: HazardData, b: HazardData, kind: MatrixKind)
    requires Valid(a) && Valid(b)
    ensures AllValid([a, b])
    ensures var union := Union([a.centroids, b.centroids]);
      && (forall j :: 0 <= j < |a.centroids| ==> CoordOf(a.centroids[j]) in Coords(union))
      && (forall j :: 0 <= j < |b.centroids| ==> CoordOf(b.centroids[j]) in Coords(union))
      && MatrixOf(Merged([a, b]), kind) == Grid(|union|, Relaid(a, union, kind).rows + Relaid(b, union, kind).rows)
  {
    assert CentroidLists([a, b]) == [a.centroids, b.centroids];
    var union := Union([a.centroids, b.centroids]);
    assert forall j :: 0 <= j < |a.centroids| ==> CoordOf(a.centroids[j]) in Coords(union) by {
      assert [a.centroids, b.centroids][0] == a.centroids;
    }
    assert forall j :: 0 <= j < |b.centroids| ==> CoordOf(b.centroids[j]) in Coords(union) by {
      assert [a.centroids, b.centroids][1] == b.centroids;
    }
    StackedTwo(a, b, union, kind);
  }

  /** On the concatenated centroid lists of two hazards at pairwise different
      places, each hazard's matrix lands on its own block of columns. */
  lemma RelaidDisjoint(a: HazardData, b: HazardData, kind: MatrixKind)
    requires WellShaped(a) && WellShaped(b)
    requires Distinct(Coords(a.centroids + b.centroids))
    ensures forall j :: 0 <= j < |a.centroids| ==> CoordOf(a.centroids[j]) in Coords(a.centroids + b.centroids)
    ensures forall j :: 0 <= j < |b.centroids| ==> CoordOf(b.centroids[j]) in Coords(a.centroids + b.centroids)
    ensures Relaid(a, a.centroids + b.centroids, kind) == PadColumns(MatrixOf(a, kind), 0, |b.centroids|)
    ensures Relaid(b, a.centroids + b.centroids, kind) == PadColumns(MatrixOf(b, kind), |a.centroids|, 0)
  {
    RelaidSpan(a, a.centroids + b.centroids, 0, kind);
    RelaidSpan(b, a.centroids + b.centroids, |a.centroids|, kind);
  }

  /** On centroids at the places of h's own, h keeps its matrix. */
  lemma RelaidOwnPlaces(a: seq<Centroid>, h: HazardData, kind: MatrixKind)
    requires WellShaped(h) && Distinct(Coords(a)) && |a| == |h.centroids|
    requires forall j :: 0 <= j < |h.centroids| ==> CoordOf(a[0 + j]) == CoordOf(h.centroids[j])
    requires forall j :: 0 <= j < |h.centroids| ==> CoordOf(h.centroids[j]) in Coords(a)
    ensures Relaid(h, a, kind) == MatrixOf(h, kind)
  {
    RelaidSpan(h, a, 0, kind);
    PadNothing(MatrixOf(h, kind));
  }

  /** On a's own centroids (pairwise different places), a hazard at the same
      places keeps its matrix. */
  lemma RelaidSame(a: seq<Centroid>, h: HazardData, kind: MatrixKind)
    requires WellShaped(h) && Distinct(Coords(a)) && SamePlaces(a, h.centroids)
    ensures forall j :: 0 <= j < |h.centroids| ==> CoordOf(h.centroids[j]) in Coords(a)
    ensures Relaid(h, a, kind) == MatrixOf(h, kind)
  {
    forall j | 0 <= j < |h.centroids|
      ensures CoordOf(h.centroids[j]) in Coords(a)
    {
      assert Coords(a)[j] == CoordOf(h.centroids[j]);
    }
    assert forall j :: 0 <= j < |h.centroids| ==> CoordOf(a[0 + j]) == CoordOf(h.centroids[j]);
    RelaidOwnPlaces(a, h, kind);
  }

  /** b's centroids at the places of a's. */
  predicate SamePlaces(a: seq<Centroid>, b: seq<Centroid>)
  {
    |a| == |b| && forall j :: 0 <= j < |a| ==> CoordOf(a[j]) == CoordOf(b[j])
  }

  /** Two types or units agree when one is empty or both are equal. */
  lemma SameIgnoringEmptyPair(x: string, y: string)
    ensures SameIgnoringEmpty([x, y]) <==> x == "" || y == "" || x == y
  {
    if !(x == "" || y == "" || x == y) {
      assert [x, y][0] == x && [x, y][1] == y;
    }
  }

  lemma AllSamePair<T>(x: T, y: T)
    ensures AllSame([x, y]) <==> x == y
  {
    if x != y {
      assert [x, y][0] == x && [x, y][1] == y;
    }
  }

  /** Appending hazards that disagree fails with the first disagreement, in
      the order types, frequency units, units, coordinate systems; hazards
      that agree append. An empty type or unit agrees with any. */
  lemma AppendIncompatible(a: HazardData, b: HazardData)
    requires Valid(a) && Valid(b)
    ensures var r := Merge([a, b]);
      var typesAgree := a.hazType == "" || b.hazType == "" || a.hazType == b.hazType;
      var unitsAgree := a.units == "" || b.units == "" || a.units == b.units;
      && (!typesAgree ==> r == Err(DifferentTypes))
      && (typesAgree && a.frequencyUnit != b.frequencyUnit ==> r == Err(DifferentFrequencyUnits))
      && (typesAgree && a.frequencyUnit == b.frequencyUnit && !unitsAgree ==> r == Err(DifferentUnits))
      && (typesAgree && a.frequencyUnit == b.frequencyUnit && unitsAgree && a.crs != b.crs ==>
            r == Err(DifferentCrs))
      && (typesAgree && a.frequencyUnit == b.frequencyUnit && unitsAgree && a.crs == b.crs <==> r.Ok?)
  {
    var hs := [a, b];
    assert AllValid(hs);
    assert HazTypes(hs) == [a.hazType, b.hazType] && UnitList(hs) == [a.units, b.units];
    assert FrequencyUnits(hs) == [a.frequencyUnit, b.frequencyUnit] && CrsList(hs) == [a.crs, b.crs];
    SameIgnoringEmptyPair(a.hazType, b.hazType);
    SameIgnoringEmptyPair(a.units, b.units);
    AllSamePair(a.frequencyUnit, b.frequencyUnit);
    AllSamePair(a.crs, b.crs);
  }

  /** A hazard without events and centroids whose type and unit are empty or
      agree, with the same frequency unit and coordinate system. */
  predicate EmptyCompanion(e: HazardData, h: HazardData)
  {
    && WellShaped(e) && e.Size() == 0 && e.centroids == []
    && (e.hazType == "" || e.hazType == h.hazType)
    && (e.units == "" || e.units == h.units)
    && e.frequencyUnit == h.frequencyUnit && e.crs == h.crs
  }

  /** Valid, compatible hazards merge into Merged. */
  lemma MergeCompatible(hs: seq<HazardData>)
    requires hs != [] && AllValid(hs) && Compatible(hs)
    ensures Merge(hs) == Ok(Merged(hs))
  {
  }

  /** Appending an empty hazard after h leaves each matrix as it is. */
  lemma EmptyAfterMatrix(h: HazardData, e: HazardData, kind: MatrixKind)
    requires Valid(h) && Distinct(Coords(h.centroids)) && Valid(e) && e.Size() == 0 && e.centroids == []
    ensures MatrixOf(Merged([h, e]), kind) == MatrixOf(h, kind)
  {
    var m := MatrixOf(h, kind);
    assert SamePlaces(h.centroids, h.centroids);
    RelaidSame(h.centroids, h, kind);
    MergedTwoMatrix(h, e, kind);
    UnionSame(h.centroids, e.centroids);
    assert Relaid(e, h.centroids, kind).rows == [];
    assert m.rows + [] == m.rows;
  }

  /** Appending h to an empty hazard leaves each of h's matrices as it is. */
  lemma EmptyBeforeMatrix(h: HazardData, e: HazardData, kind: MatrixKind)
    requires Valid(h) && Distinct(Coords(h.centroids)) && Valid(e) && e.Size() == 0 && e.centroids == []
    ensures MatrixOf(Merged([e, h]), kind) == MatrixOf(h, kind)
  {
    var m := MatrixOf(h, kind);
    assert SamePlaces(h.centroids, h.centroids);
    RelaidSame(h.centroids, h, kind);
    MergedTwoMatrix(e, h, kind);
    assert [] + h.centroids == h.centroids;
    UnionDisjoint(e.centroids, h.centroids);
    assert Relaid(e, h.centroids, kind).rows == [];
    assert [] + m.rows == m.rows;
  }

  /** A value merged with an empty or equal one is kept, in either order. */
  lemma FirstNonEmptyPair(x: string, y: string)
    requires y == "" || y == x
    ensures FirstNonEmpty([x, y]) == x && FirstNonEmpty([y, x]) == x
  {
    assert [x, y][1..] == [y] && [y, x][1..] == [x];
  }

  lemma EmptyCompanionCompatible(h: HazardData, e: HazardData)
    requires EmptyCompanion(e, h)
    ensures Compatible([h, e]) && Compatible([e, h])
  {
    assert HazTypes([h, e]) == [h.hazType, e.hazType] && HazTypes([e, h]) == [e.hazType, h.hazType];
    assert UnitList([h, e]) == [h.units, e.units] && UnitList([e, h]) == [e.units, h.units];
    assert FrequencyUnits([h, e]) == [h.frequencyUnit, e.frequencyUnit];
    assert FrequencyUnits([e, h]) == [e.frequencyUnit, h.frequencyUnit];
    assert CrsList([h, e]) == [h.crs, e.crs] && CrsList([e, h]) == [e.crs, h.crs];
    SameIgnoringEmptyPair(h.hazType, e.hazType);
    SameIgnoringEmptyPair(e.hazType, h.hazType);
    SameIgnoringEmptyPair(h.units, e.units);
    SameIgnoringEmptyPair(e.units, h.units);
    AllSamePair(h.frequencyUnit, e.frequencyUnit);
    AllSamePair(e.frequencyUnit, h.frequencyUnit);
    AllSamePair(h.crs, e.crs);
    AllSamePair(e.crs, h.crs);
  }

  /** Appending an empty hazard to a hazard gives the hazard back. */
  lemma AppendEmptyAfter(h: HazardData, e: HazardData)
    requires Valid(h) && Distinct(Coords(h.centroids)) && EmptyCompanion(e, h)
    ensures Merge([h, e]) == Ok(h)
  {
    assert Valid(e);
    EmptyCompanionCompatible(h, e);
    MergeCompatible([h, e]);
    var g := Merged([h, e]);
    EmptyAfterMatrix(h, e, Intensity);
    EmptyAfterMatrix(h, e, Fraction);
    assert g.intensity == h.intensity && g.fraction == h.fraction;
    MergedTwo(h, e);
    UnionSame(h.centroids, e.centroids);
    FirstNonEmptyPair(h.hazType, e.hazType);
    FirstNonEmptyPair(h.units, e.units);
    assert h.eventId + e.eventId == h.eventId;
    assert g.hazType == h.hazType && g.units == h.units && g.frequencyUnit == h.frequencyUnit && g.crs == h.crs;
    assert g.centroids == h.centroids && g.eventId == h.eventId;
    assert g.eventName == h.eventName && g.date == h.date && g.orig == h.orig && g.frequency == h.frequency;
    assert g == h;
  }

  /** Merging an empty hazard in front of h keeps h's attributes, centroids
      and event arrays. */
  lemma MergedEmptyFirst(h: HazardData, e: HazardData)
    requires Valid(h) && Distinct(Coords(h.centroids)) && EmptyCompanion(e, h)
    ensures AllValid([e, h])
    ensures var g := Merged([e, h]);
      && g.hazType == h.hazType && g.units == h.units
      && g.frequencyUnit == h.frequencyUnit && g.crs == h.crs
      && g.centroids == h.centroids && g.eventId == h.eventId
      && g.eventName == h.eventName && g.date == h.date
      && g.orig == h.orig && g.frequency == h.frequency
  {
    assert Valid(e);
    MergedTwo(e, h);
    assert Merged([e, h]).centroids == h.centroids by {
      assert [] + h.centroids == h.centroids;
      UnionDisjoint(e.centroids, h.centroids);
    }
    assert Merged([e, h]).hazType == h.hazType && Merged([e, h]).units == h.units by {
      FirstNonEmptyPair(h.hazType, e.hazType);
      FirstNonEmptyPair(h.units, e.units);
    }
    assert e.eventId + h.eventId == h.eventId;
    assert e.eventName + h.eventName == h.eventName && e.date + h.date == h.date;
    assert e.orig + h.orig == h.orig && e.frequency + h.frequency == h.frequency;
  }

  /** Appending a hazard to an empty hazard gives the hazard. */
  lemma AppendToEmpty(h: HazardData, e: HazardData)
    requires Valid(h) && Distinct(Coords(h.centroids)) && EmptyCompanion(e, h)
    ensures Merge([e, h]) == Ok(h)
  {
    EmptyCompanionCompatible(h, e);
    MergedEmptyFirst(h, e);
    MergeCompatible([e, h]);
    var g := Merged([e, h]);
    EmptyBeforeMatrix(h, e, Intensity);
    EmptyBeforeMatrix(h, e, Fraction);
    assert g.intensity == h.intensity && g.fraction == h.fraction;
    assert g == h;
  }

  /** Appending a hazard on other centroids: the centroid lists concatenate,
      the old events keep the old columns and the new events the new ones,
      zeros elsewhere; event arrays concatenate; colliding ids are
      renumbered 1..n. */
  lemma AppendDisjointCentroids(a: HazardData, b: HazardData)
    requires Valid(a) && Valid(b) && Compatible([a, b])
    requires Distinct(Coords(a.centroids + b.centroids))
    ensures Merge([a, b]) == Ok(Merged([a, b]))
    ensures var g := Merged([a, b]);
      && g.centroids == a.centroids + b.centroids
      && g.frequencyUnit == a.frequencyUnit && g.crs == a.crs
      && g.intensity.rows == PadColumns(a.intensity, 0, |b.centroids|).rows
                             + PadColumns(b.intensity, |a.centroids|, 0).rows
      && g.fraction.rows == PadColumns(a.fraction, 0, |b.centroids|).rows
                            + PadColumns(b.fraction, |a.centroids|, 0).rows
      && g.eventName == a.eventName + b.eventName
      && g.date == a.date + b.date && g.orig == a.orig + b.orig
      && g.frequency == a.frequency + b.frequency
      && g.eventId == (if Distinct(a.eventId + b.eventId) then a.eventId + b.eventId
                       else Count(1, a.Size() + b.Size()))
  {
    assert AllValid([a, b]);
    MergeCompatible([a, b]);
    UnionDisjoint(a.centroids, b.centroids);
    assert Merged([a, b]).intensity.rows == PadColumns(a.intensity, 0, |b.centroids|).rows
                                           + PadColumns(b.intensity, |a.centroids|, 0).rows by {
      MergedTwoMatrix(a, b, Intensity);
      RelaidDisjoint(a, b, Intensity);
    }
    assert Merged([a, b]).fraction.rows == PadColumns(a.fraction, 0, |b.centroids|).rows
                                          + PadColumns(b.fraction, |a.centroids|, 0).rows by {
      MergedTwoMatrix(a, b, Fraction);
      RelaidDisjoint(a, b, Fraction);
    }
    MergedTwo(a, b);
  }

  /** Appending a hazard on the same centroids: the centroids stay, the
      matrices stack and the event arrays concatenate. */
  lemma AppendSameCentroids(a: HazardData, b: HazardData)
    requires Valid(a) && Valid(b) && Compatible([a, b])
    requires Distinct(Coords(a.centroids)) && SamePlaces(a.centroids, b.centroids)
    ensures Merge([a, b]) == Ok(Merged([a, b]))
    ensures var g := Merged([a, b]);
      && g.centroids == a.centroids && g.frequencyUnit == a.frequencyUnit && g.crs == a.crs
      && g.intensity == Stack(a.intensity, b.intensity)
      && g.fraction == Stack(a.fraction, b.fraction)
      && g.eventName == a.eventName + b.eventName
      && g.date == a.date + b.date && g.orig == a.orig + b.orig
      && g.frequency == a.frequency + b.frequency
      && g.eventId == (if Distinct(a.eventId + b.eventId) then a.eventId + b.eventId
                       else Count(1, a.Size() + b.Size()))
  {
    assert AllValid([a, b]);
    assert SamePlaces(a.centroids, a.centroids);
    MergeCompatible([a, b]);
    assert forall j :: 0 <= j < |b.centroids| ==> CoordOf(b.centroids[j]) in Coords(a.centroids) by {
      forall j | 0 <= j < |b.centroids|
        ensures CoordOf(b.centroids[j]) in Coords(a.centroids)
      {
        assert Coords(a.centroids)[j] == CoordOf(b.centroids[j]);
      }
    }
    UnionSame(a.centroids, b.centroids);
    SameCentroidsMatrix(a, b, Intensity);
    SameCentroidsMatrix(a, b, Fraction);
    MergedTwo(a, b);
  }

  /** On the same centroids, a matrix of the merge is a's rows over b's. */
  lemma SameCentroidsMatrix(a: HazardData, b: HazardData, kind: MatrixKind)
    requires Valid(a) && Valid(b)
    requires Distinct(Coords(a.centroids)) && SamePlaces(a.centroids, b.centroids)
    requires Union([a.centroids, b.centroids]) == a.centroids
    ensures MatrixOf(Merged([a, b]), kind).rows == MatrixOf(a, kind).rows + MatrixOf(b, kind).rows
  {
    assert SamePlaces(a.centroids, a.centroids);
    MergedTwoMatrix(a, b, kind);
    RelaidSame(a.centroids, a, kind);
    RelaidSame(a.centroids, b, kind);
  }

  // ---------------------------------------------------------------------
  // concat

  /** A hazard without events or centroids, with the scalar attributes of h:
      what Hazard.concat appends the list onto. */
  function EmptyLike(h: HazardData): (e: HazardData)
    ensures Valid(e) && e.Size() == 0 && e.centroids == []
  {
    EmptyHazard(h.hazType).(units := h.units, frequencyUnit := h.frequencyUnit, crs := h.crs)
  }

  /** Hazard.concat: an empty list gives a default hazard; otherwise the
      hazards are appended onto an empty copy of the first. */
  function Concat(hs: seq<HazardData>): (r: Result<HazardData>)
    ensures hs == [] ==> r.Ok? && r.value.Size() == 0
    ensures r.Ok? ==> Valid(r.value) && r.value.Size() == TotalSize(hs)
  {
    if hs == [] then Ok(EmptyHazard(""))
    else
      var front := [EmptyLike(hs[0])] + hs;
      assert front[1..] == hs;
      Merge(front)
  }

  lemma SameIgnoringEmptyRepeat(v: string, vs: seq<string>)
    requires vs != [] && vs[0] == v
    ensures SameIgnoringEmpty([v] + vs) <==> SameIgnoringEmpty(vs)
  {
    var ws := [v] + vs;
    if SameIgnoringEmpty(vs) {
      forall k, l | 0 <= k < |ws| && 0 <= l < |ws| && ws[k] != "" && ws[l] != ""
        ensures ws[k] == ws[l]
      {
        var k' := if k == 0 then 0 else k - 1;
        var l' := if l == 0 then 0 else l - 1;
        assert ws[k] == vs[k'] && ws[l] == vs[l'];
      }
    }
    if SameIgnoringEmpty(ws) {
      assert forall k :: 0 <= k < |vs| ==> vs[k] == ws[k + 1];
    }
  }

  lemma AllSameRepeat<T>(v: T, vs: seq<T>)
    requires vs != [] && vs[0] == v
    ensures AllSame([v] + vs) <==> AllSame(vs)
  {
    var ws := [v] + vs;
    assert forall k :: 0 <= k < |vs| ==> vs[k] == ws[k + 1];
  }

  lemma FirstNonEmptyRepeat(v: string, vs: seq<string>)
    requires vs != [] && vs[0] == v
    ensures FirstNonEmpty([v] + vs) == FirstNonEmpty(vs)
  {
    assert ([v] + vs)[1..] == vs;
  }

  lemma GatherEmptyFront<T>(e: HazardData, hs: seq<HazardData>, f: HazardData -> seq<T>)
    requires f(e) == []
    ensures Gather([e] + hs, f) == Gather(hs, f)
  {
    assert ([e] + hs)[1..] == hs;
  }

  /** With an empty copy of the first hazard in front, each list of scalar
      attributes gains the first hazard's value in front. */
  lemma EmptyFrontScalars(hs: seq<HazardData>)
    requires hs != []
    ensures var es := [EmptyLike(hs[0])] + hs;
      && HazTypes(es) == [hs[0].hazType] + HazTypes(hs)
      && UnitList(es) == [hs[0].units] + UnitList(hs)
      && FrequencyUnits(es) == [hs[0].frequencyUnit] + FrequencyUnits(hs)
      && CrsList(es) == [hs[0].crs] + CrsList(hs)
  {
    var es := [EmptyLike(hs[0])] + hs;
    assert forall k :: 1 <= k < |es| ==> es[k] == hs[k - 1];
  }

  /** An empty hazard in front keeps every hazard valid and adds no
      centroid. */
  lemma EmptyFrontCentroids(hs: seq<HazardData>)
    requires hs != [] && AllValid(hs)
    ensures var es := [EmptyLike(hs[0])] + hs;
      && AllValid(es)
      && Union(CentroidLists(es)) == Union(CentroidLists(hs))
  {
    var es := [EmptyLike(hs[0])] + hs;
    assert forall k :: 1 <= k < |es| ==> es[k] == hs[k - 1];
    assert CentroidLists(es) == [[]] + CentroidLists(hs);
    assert ([[]] + CentroidLists(hs))[1..] == CentroidLists(hs);
    assert Union(CentroidLists(es)) == UnionFrom(AddCentroids([], []), CentroidLists(hs));
  }

  /** An empty hazard in front adds no event. */
  lemma EmptyFrontEvents(hs: seq<HazardData>)
    requires hs != []
    ensures var es := [EmptyLike(hs[0])] + hs;
      && Gather(es, IdsOf) == Gather(hs, IdsOf)
      && Gather(es, NamesOf) == Gather(hs, NamesOf)
      && Gather(es, DatesOf) == Gather(hs, DatesOf)
      && Gather(es, OrigsOf) == Gather(hs, OrigsOf)
      && Gather(es, FrequenciesOf) == Gather(hs, FrequenciesOf)
  {
    var e := EmptyLike(hs[0]);
    GatherEmptyFront(e, hs, IdsOf);
    GatherEmptyFront(e, hs, NamesOf);
    GatherEmptyFront(e, hs, DatesOf);
    GatherEmptyFront(e, hs, OrigsOf);
    GatherEmptyFront(e, hs, FrequenciesOf);
  }

  /** An empty hazard in front of the list changes nothing in the merge. */
  lemma MergedEmptyFront(hs: seq<HazardData>)
    requires hs != [] && AllValid(hs)
    ensures AllValid([EmptyLike(hs[0])] + hs)
    ensures Merged([EmptyLike(hs[0])] + hs) == Merged(hs)
  {
    var es := [EmptyLike(hs[0])] + hs;
    EmptyFrontCentroids(hs);
    EmptyFrontEvents(hs);
    var union := Union(CentroidLists(hs));
    var g := Merged(es);
    var g' := Merged(hs);
    assert g.hazType == g'.hazType && g.units == g'.units by {
      EmptyFrontScalars(hs);
      FirstNonEmptyRepeat(hs[0].hazType, HazTypes(hs));
      FirstNonEmptyRepeat(hs[0].units, UnitList(hs));
    }
    assert g.intensity == g'.intensity && g.fraction == g'.fraction by {
      assert es[1..] == hs;
      assert StackedRows(es, union, Intensity) == StackedRows(hs, union, Intensity);
      assert StackedRows(es, union, Fraction) == StackedRows(hs, union, Fraction);
    }
    assert g.frequencyUnit == g'.frequencyUnit && g.crs == g'.crs && g.centroids == g'.centroids;
    assert g.eventId == g'.eventId && g.eventName == g'.eventName && g.date == g'.date;
    assert g.orig == g'.orig && g.frequency == g'.frequency;
  }

  /** An empty copy of the first hazard in front of the list fails check
      nowhere the list does not. */
  lemma EmptyFrontChecks(hs: seq<HazardData>)
    requires hs != []
    ensures FirstCheckError([EmptyLike(hs[0])] + hs) == FirstCheckError(hs)
  {
    var e := EmptyLike(hs[0]);
    assert ([e] + hs)[1..] == hs;
    assert Check(e) == Ok(());
  }

  /** An empty copy of the first hazard in front of the list agrees with the
      list on each compatibility condition. */
  lemma EmptyFrontAgrees(hs: seq<HazardData>)
    requires hs != []
    ensures var es := [EmptyLike(hs[0])] + hs;
      && (SameIgnoringEmpty(HazTypes(es)) <==> SameIgnoringEmpty(HazTypes(hs)))
      && (SameIgnoringEmpty(UnitList(es)) <==> SameIgnoringEmpty(UnitList(hs)))
      && (AllSame(FrequencyUnits(es)) <==> AllSame(FrequencyUnits(hs)))
      && (AllSame(CrsList(es)) <==> AllSame(CrsList(hs)))
  {
    EmptyFrontScalars(hs);
    SameIgnoringEmptyRepeat(hs[0].hazType, HazTypes(hs));
    SameIgnoringEmptyRepeat(hs[0].units, UnitList(hs));
    AllSameRepeat(hs[0].frequencyUnit, FrequencyUnits(hs));
    AllSameRepeat(hs[0].crs, CrsList(hs));
  }

  /** concat of a non-empty list is the append of the rest to the first:
      the same result and the same errors. */
  lemma ConcatIsAppend(hs: seq<HazardData>)
    requires hs != []
    ensures Concat(hs) == Merge(hs)
  {
    EmptyFrontChecks(hs);
    EmptyFrontAgrees(hs);
    if AllValid(hs) {
      MergedEmptyFront(hs);
    }
  }

  /** Ids 1 and 1 collide, so the merge numbers them 1, 2. */
  lemma CollidingIds(x: seq<int>, y: seq<int>)
    ensures x == [1] && y == [1] ==>
      (if Distinct(x + y) then x + y else Count(1, |x| + |y|)) == [1, 2]
  {
    if x == [1] && y == [1] {
      assert (x + y)[0] == (x + y)[1];
      assert Count(1, 2) == [1, 2];
    }
  }

  /** Concatenating two hazards on the same centroids stacks their events;
      ids that collide (both 1, say) become 1, 2. */
  lemma ConcatSameCentroids(a: HazardData, b: HazardData)
    requires Valid(a) && Valid(b) && Compatible([a, b])
    requires Distinct(Coords(a.centroids)) && SamePlaces(a.centroids, b.centroids)
    ensures Concat([a, b]) == Ok(Merged([a, b]))
    ensures var g := Merged([a, b]);
      && g.centroids == a.centroids && g.crs == a.crs
      && (a.hazType != "" ==> g.hazType == a.hazType) && (b.hazType != "" ==> g.hazType == b.hazType)
      && (a.units != "" ==> g.units == a.units) && (b.units != "" ==> g.units == b.units)
      && g.frequencyUnit == b.frequencyUnit
      && g.intensity == Stack(a.intensity, b.intensity)
      && g.fraction == Stack(a.fraction, b.fraction)
      && g.eventName == a.eventName + b.eventName
      && g.date == a.date + b.date && g.orig == a.orig + b.orig
      && g.frequency == a.frequency + b.frequency
      && (a.eventId == [1] && b.eventId == [1] ==> g.eventId == [1, 2])
  {
    assert Concat([a, b]) == Merge([a, b]) by {
      ConcatIsAppend([a, b]);
    }
    AppendSameCentroids(a, b);
    MergedTwoScalars(a, b);
    CollidingIds(a.eventId, b.eventId);
  }

  // ---------------------------------------------------------------------
  // remove_duplicates

  /** What makes two events duplicates: the same name and date. */
  function Keys(h: HazardData): (ks: seq<(string, int)>)
    requires WellShaped(h)
    ensures |ks| == h.Size()
    ensures forall i :: 0 <= i < h.Size() ==> ks[i] == (h.eventName[i], h.date[i])
  {
    seq(h.Size(), i requires 0 <= i < h.Size() => (h.eventName[i], h.date[i]))
  }

  /** The events at sel, in that order, on all centroids. */
  function KeepEvents(h: HazardData, sel: seq<nat>): (r: HazardData)
    requires WellShaped(h) && InBounds(sel, h.Size())
    ensures WellShaped(r) && r.Size() == |sel|
    ensures r.hazType == h.hazType && r.units == h.units
    ensures r.frequencyUnit == h.frequencyUnit && r.crs == h.crs
    ensures r.centroids == h.centroids
    ensures forall k :: 0 <= k < |sel| ==> RowOf(r, k) == RowOf(h, sel[k])
  {
    var r := h.(
      eventId := Pick(h.eventId, sel),
      eventName := Pick(h.eventName, sel),
      date := Pick(h.date, sel),
      orig := Pick(h.orig, sel),
      frequency := Pick(h.frequency, sel),
      intensity := SelectRows(h.intensity, sel),
      fraction := SelectRows(h.fraction, sel));
    assert forall k :: 0 <= k < |sel| ==> RowOf(r, k) == RowOf(h, sel[k]);
    r
  }

  /** Hazard.remove_duplicates: keep the first event of each (name, date),
      in the original order. No two events left share a name and date, none
      is lost, and the centroids and attributes stay. */
  function RemoveDuplicates(h: HazardData): (r: HazardData)
    requires WellShaped(h)
    ensures WellShaped(r) && r.centroids == h.centroids
    ensures r.hazType == h.hazType && r.units == h.units
    ensures r.frequencyUnit == h.frequencyUnit && r.crs == h.crs
    ensures Distinct(Keys(r))
    ensures forall i :: 0 <= i < h.Size() ==> Keys(h)[i] in Keys(r)
    ensures r.Size() == |FirstOccurrences(Keys(h))|
    ensures forall k :: 0 <= k < r.Size() ==>
      FirstOccurrences(Keys(h))[k] < h.Size()
      && RowOf(r, k) == RowOf(h, FirstOccurrences(Keys(h))[k])
    ensures Valid(h) ==> Valid(r)
  {
    var sel := FirstOccurrences(Keys(h));
    var r := KeepEvents(h, sel);
    FirstOccurrencesKeepEach(Keys(h));
    KeepEventsKeys(h, sel);
    assert Valid(h) ==> Valid(r) by {
      if Valid(h) { KeepEventsValid(h, sel); }
    }
    r
  }

  /** The (name, date) keys of the kept events are the keys at sel. */
  lemma KeepEventsKeys(h: HazardData, sel: seq<nat>)
    requires WellShaped(h) && InBounds(sel, h.Size())
    ensures Keys(KeepEvents(h, sel)) == Pick(Keys(h), sel)
  {
    var r := KeepEvents(h, sel);
    forall k | 0 <= k < |sel|
      ensures Keys(r)[k] == Keys(h)[sel[k]]
    {
      assert RowOf(r, k) == RowOf(h, sel[k]);
    }
  }

  /** Keeping events at increasing positions keeps ids distinct. */
  lemma KeepEventsValid(h: HazardData, sel: seq<nat>)
    requires Valid(h) && InBounds(sel, h.Size()) && Increasing(sel)
    ensures Valid(KeepEvents(h, sel))
  {
    var r := KeepEvents(h, sel);
    forall a, b | 0 <= a < b < r.Size()
      ensures r.eventId[a] != r.eventId[b]
    {
      assert RowOf(r, a) == RowOf(h, sel[a]) && RowOf(r, b) == RowOf(h, sel[b]);
    }
  }

  /** Taking the first n events of a hazard whose per-event arrays are x + y
      with |x| == n gives the x parts back. */
  lemma KeepFirstEvents(g: HazardData, h: HazardData)
    requires WellShaped(g) && WellShaped(h) && h.Size() <= g.Size()
    requires g.eventName[..h.Size()] == h.eventName && g.date[..h.Size()] == h.date
    requires g.orig[..h.Size()] == h.orig && g.frequency[..h.Size()] == h.frequency
    requires g.eventId[..h.Size()] == h.eventId
    requires g.intensity.rows[..h.Size()] == h.intensity.rows && g.intensity.cols == h.intensity.cols
    requires g.fraction.rows[..h.Size()] == h.fraction.rows && g.fraction.cols == h.fraction.cols
    requires g.hazType == h.hazType && g.units == h.units
    requires g.frequencyUnit == h.frequencyUnit && g.crs == h.crs && g.centroids == h.centroids
    ensures KeepEvents(g, Indices(h.Size())) == h
  {
    var n := h.Size();
    var r := KeepEvents(g, Indices(n));
    assert r.eventId == h.eventId && r.eventName == h.eventName;
    assert r.date == h.date && r.orig == h.orig && r.frequency == h.frequency;
    assert r.intensity.rows == h.intensity.rows && r.fraction.rows == h.fraction.rows;
  }

  /** Removing duplicates from a hazard whose events are x's followed by
      events with the same (name, date) keeps the first part. */
  lemma RemoveDuplicatesKeepsFirst(g: HazardData, h: HazardData)
    requires WellShaped(g) && WellShaped(h) && h.Size() <= g.Size()
    requires Distinct(Keys(h)) && Keys(g)[..h.Size()] == Keys(h)
    requires forall i :: h.Size() <= i < g.Size() ==> Keys(g)[i] in Keys(h)
    ensures RemoveDuplicates(g) == KeepEvents(g, Indices(h.Size()))
  {
    var n := h.Size();
    var ks := Keys(g);
    assert ks == ks[..n] + ks[n..];
    FirstOccurrencesRepeated(Keys(h), ks[n..]);
  }

  /** Removing duplicates from a hazard whose events are h's followed by a
      tail t whose every (name, date) h already has gives h back. */
  lemma RemoveDuplicatesOfRepeat(g: HazardData, h: HazardData, t: HazardData)
    requires WellShaped(g) && WellShaped(h) && WellShaped(t)
    requires g.eventName == h.eventName + t.eventName && g.date == h.date + t.date
    requires g.orig == h.orig + t.orig && g.frequency == h.frequency + t.frequency
    requires g.intensity.rows == h.intensity.rows + t.intensity.rows && g.intensity.cols == h.intensity.cols
    requires g.fraction.rows == h.fraction.rows + t.fraction.rows && g.fraction.cols == h.fraction.cols
    requires g.eventId[..h.Size()] == h.eventId
    requires g.hazType == h.hazType && g.units == h.units
    requires g.frequencyUnit == h.frequencyUnit && g.crs == h.crs && g.centroids == h.centroids
    requires Distinct(Keys(h)) && forall j :: 0 <= j < t.Size() ==> Keys(t)[j] in Keys(h)
    ensures RemoveDuplicates(g) == h
  {
    var n := h.Size();
    assert Keys(g)[..n] == Keys(h);
    forall i | n <= i < g.Size()
      ensures Keys(g)[i] in Keys(h)
    {
      assert Keys(g)[i] == Keys(t)[i - n];
    }
    RemoveDuplicatesKeepsFirst(g, h);
    assert g.eventName[..n] == h.eventName && g.date[..n] == h.date;
    assert g.orig[..n] == h.orig && g.frequency[..n] == h.frequency;
    assert g.intensity.rows[..n] == h.intensity.rows && g.fraction.rows[..n] == h.fraction.rows;
    KeepFirstEvents(g, h);
  }

  /** Ids 1..n followed by more ids keep 1..n in front, renumbered or not. */
  lemma RenumberedPrefix(x: seq<int>, y: seq<int>)
    requires x == Count(1, |x|)
    ensures (if Distinct(x + y) then x + y else Count(1, |x| + |y|))[..|x|] == x
  {
    if Distinct(x + y) {
      assert (x + y)[..|x|] == x;
    }
  }

  /** A hazard appended to itself: its own centroids, every event twice. */
  lemma SelfAppend(h: HazardData)
    requires Valid(h) && Distinct(Coords(h.centroids))
    ensures Merge([h, h]) == Ok(Merged([h, h]))
    ensures var g := Merged([h, h]);
      && Valid(g)
      && g.hazType == h.hazType && g.units == h.units
      && g.frequencyUnit == h.frequencyUnit && g.crs == h.crs
      && g.centroids == h.centroids
      && g.intensity == Stack(h.intensity, h.intensity)
      && g.fraction == Stack(h.fraction, h.fraction)
      && g.eventName == h.eventName + h.eventName
      && g.date == h.date + h.date && g.orig == h.orig + h.orig
      && g.frequency == h.frequency + h.frequency
      && g.eventId == (if Distinct(h.eventId + h.eventId) then h.eventId + h.eventId
                       else Count(1, h.Size() + h.Size()))
  {
    assert AllValid([h, h]);
    assert Compatible([h, h]) by {
      assert HazTypes([h, h]) == [h.hazType, h.hazType];
      assert UnitList([h, h]) == [h.units, h.units];
      assert FrequencyUnits([h, h]) == [h.frequencyUnit, h.frequencyUnit];
      assert CrsList([h, h]) == [h.crs, h.crs];
      SameIgnoringEmptyPair(h.hazType, h.hazType);
      SameIgnoringEmptyPair(h.units, h.units);
      AllSamePair(h.frequencyUnit, h.frequencyUnit);
      AllSamePair(h.crs, h.crs);
    }
    assert SamePlaces(h.centroids, h.centroids);
    AppendSameCentroids(h, h);
    var g := Merged([h, h]);
    assert g.hazType == h.hazType && g.units == h.units by {
      MergedTwo(h, h);
      FirstNonEmptyPair(h.hazType, h.hazType);
      FirstNonEmptyPair(h.units, h.units);
    }
  }

  /** Appending a hazard to itself and removing duplicates gives the hazard
      back, when its events have distinct (name, date) and ids 1..n. */
  lemma SelfAppendThenRemoveDuplicates(h: HazardData)
    requires Valid(h) && Distinct(Coords(h.centroids)) && Distinct(Keys(h))
    requires h.eventId == Count(1, h.Size())
    ensures Merge([h, h]) == Ok(Merged([h, h]))
    ensures RemoveDuplicates(Merged([h, h])) == h
  {
    SelfAppend(h);
    RenumberedPrefix(h.eventId, h.eventId);
    RemoveDuplicatesOfRepeat(Merged([h, h]), h, h);
  }

  /** A hazard whose events are a's on a's centroids padded with zero
      columns, followed by b's with the same (name, date), loses b's events
      when duplicates are removed. */
  lemma RemoveDuplicatesOfPadded(g: HazardData, a: HazardData, b: HazardData)
    requires WellShaped(g) && WellShaped(a) && WellShaped(b)
    requires Distinct(Keys(a)) && Keys(b) == Keys(a)
    requires g.centroids == a.centroids + b.centroids
    requires g.intensity.rows == PadColumns(a.intensity, 0, |b.centroids|).rows
                                 + PadColumns(b.intensity, |a.centroids|, 0).rows
    requires g.fraction.rows == PadColumns(a.fraction, 0, |b.centroids|).rows
                                + PadColumns(b.fraction, |a.centroids|, 0).rows
    requires g.eventName == a.eventName + b.eventName
    requires g.date == a.date + b.date && g.orig == a.orig + b.orig
    requires g.frequency == a.frequency + b.frequency
    requires g.eventId[..a.Size()] == a.eventId
    requires g.frequencyUnit == a.frequencyUnit && g.crs == a.crs
    ensures RemoveDuplicates(g) == a.(centroids := a.centroids + b.centroids,
      hazType := g.hazType, units := g.units,
      intensity := PadColumns(a.intensity, 0, |b.centroids|),
      fraction := PadColumns(a.fraction, 0, |b.centroids|))
  {
    var cs := a.centroids + b.centroids;
    var padded := a.(centroids := cs, hazType := g.hazType, units := g.units,
      intensity := PadColumns(a.intensity, 0, |b.centroids|),
      fraction := PadColumns(a.fraction, 0, |b.centroids|));
    var tail := b.(centroids := cs,
      intensity := PadColumns(b.intensity, |a.centroids|, 0),
      fraction := PadColumns(b.fraction, |a.centroids|, 0));
    assert Keys(tail) == Keys(b) && Keys(padded) == Keys(a);
    RemoveDuplicatesOfRepeat(g, padded, tail);
  }

  /** Appending a hazard with the same events on other centroids and removing
      duplicates gives the first hazard's events, with zero columns for the
      new centroids. */
  lemma SameEventsThenRemoveDuplicates(a: HazardData, b: HazardData)
    requires Valid(a) && Valid(b) && Compatible([a, b])
    requires Distinct(Coords(a.centroids + b.centroids))
    requires Distinct(Keys(a)) && Keys(b) == Keys(a)
    requires a.eventId == Count(1, a.Size())
    ensures Merge([a, b]) == Ok(Merged([a, b]))
    ensures var r := RemoveDuplicates(Merged([a, b]));
      && r.centroids == a.centroids + b.centroids
      && r.intensity == PadColumns(a.intensity, 0, |b.centroids|)
      && r.fraction == PadColumns(a.fraction, 0, |b.centroids|)
      && r.eventId == a.eventId && r.eventName == a.eventName
      && r.date == a.date && r.orig == a.orig && r.frequency == a.frequency
      && r.frequencyUnit == a.frequencyUnit
      && (a.hazType != "" ==> r.hazType == a.hazType) && (a.units != "" ==> r.units == a.units)
  {
    AppendDisjointCentroids(a, b);
    MergedTwoScalars(a, b);
    var g := Merged([a, b]);
    RenumberedPrefix(a.eventId, b.eventId);
    RemoveDuplicatesOfPadded(g, a, b);
  }
}
