/** Hazard.select and Hazard.select_tight: a new hazard holding some of the
    events (rows) and some of the centroids (columns) of another. */
module Selection {
  import opened SeqUtil
  import opened Matrices
  import opened Hazards

  /** A longitude/latitude box, bounds included. */
  datatype Extent = Extent(lonMin: real, lonMax: real, latMin: real, latMax: real)

  /** The arguments of select; None means the argument is not given. The date
      window is a sequence so that a window of the wrong length can be given. */
  datatype Filters = Filters(
    eventNames: Option<seq<string>>,
    eventIds: Option<seq<int>>,
    date: Option<seq<int>>,
    orig: Option<bool>,
    regIds: Option<seq<int>>,
    extent: Option<Extent>)

  /** The date window, when given, has its two bounds. */
  predicate WindowWellFormed(f: Filters)
  {
    f.date.Some? ==> |f.date.value| == 2
  }

  /** Event i lies in the date window (bounds included) and has the
      requested orig flag, for the filters that are given. */
  predicate KeepEvent(h: HazardData, f: Filters, i: nat)
    requires WellShaped(h) && WindowWellFormed(f) && i < h.Size()
  {
    && (f.date.Some? ==> f.date.value[0] <= h.date[i] <= f.date.value[1])
    && (f.orig.Some? ==> h.orig[i] == f.orig.value)
  }

  function EventMask(h: HazardData, f: Filters): (m: seq<bool>)
    requires WellShaped(h) && WindowWellFormed(f)
    ensures |m| == h.Size()
    ensures forall i :: 0 <= i < h.Size() ==> (m[i] <==> KeepEvent(h, f, i))
  {
    seq(h.Size(), i requires 0 <= i < h.Size() => KeepEvent(h, f, i))
  }

  /** For each requested name in turn, the first event of sel with that
      name; None when a name has no event in sel. */
  function ByNames(h: HazardData, sel: seq<nat>, names: seq<string>): (r: Option<seq<nat>>)
    requires WellShaped(h) && InBounds(sel, h.Size())
    ensures r.None? <==> exists t :: 0 <= t < |names| && names[t] !in Pick(h.eventName, sel)
    ensures r.Some? ==> |r.value| == |names| && InBounds(r.value, h.Size())
    ensures r.Some? ==> forall t :: 0 <= t < |names| ==>
      var found := Pick(h.eventName, sel);
      r.value[t] == sel[IndexOf(found, names[t])] && h.eventName[r.value[t]] == names[t]
  {
    var found := Pick(h.eventName, sel);
    if exists t :: 0 <= t < |names| && names[t] !in found then None
    else Some(seq(|names|, t requires 0 <= t < |names| => sel[IndexOf(found, names[t])]))
  }

  /** The requested ids that some event of `found` has, in requested order. */
  function Present(ids: seq<int>, found: seq<int>): (r: seq<int>)
    ensures forall k :: 0 <= k < |r| ==> r[k] in found && r[k] in ids
    ensures forall x :: x in ids && x in found ==> x in r
  {
    if ids == [] then []
    else
      var rest := Present(ids[1..], found);
      assert forall x :: x in ids && x != ids[0] ==> x in ids[1..];
      (if ids[0] in found then [ids[0]] else []) + rest
  }

  /** For each requested id present among the events of sel, in requested
      order, the first event of sel with that id; absent ids are skipped. */
  function ByIds(h: HazardData, sel: seq<nat>, ids: seq<int>): (r: seq<nat>)
    requires WellShaped(h) && InBounds(sel, h.Size())
    ensures InBounds(r, h.Size())
    ensures forall k :: 0 <= k < |r| ==> r[k] in sel
    ensures Pick(h.eventId, r) == Present(ids, Pick(h.eventId, sel))
  {
    if ids == [] then []
    else
      var found := Pick(h.eventId, sel);
      var j := IndexOf(found, ids[0]);
      var rest := ByIds(h, sel, ids[1..]);
      var head := if j < |found| then [sel[j]] else [];
      assert Pick(h.eventId, head) == if ids[0] in found then [ids[0]] else [];
      PickConcat(h.eventId, head, rest);
      head + rest
  }

  /** The events select keeps, in the order it keeps them; None when it
      returns nothing because of the event filters. */
  function SelectedEvents(h: HazardData, f: Filters): (r: Option<seq<nat>>)
    requires WellShaped(h) && WindowWellFormed(f)
    ensures r.Some? ==> InBounds(r.value, h.Size())
  {
    var sel0 := Where(EventMask(h, f));
    if (f.date.Some? || f.orig.Some?) && sel0 == [] then None
    else
      var sel1 := if f.eventNames.Some? then ByNames(h, sel0, f.eventNames.value) else Some(sel0);
      if sel1.None? then None
      else
        var sel2 := if f.eventIds.Some? then ByIds(h, sel1.value, f.eventIds.value) else sel1.value;
        if f.eventIds.Some? && sel2 == [] then None else Some(sel2)
  }

  /** Centroid c is in one of the requested regions and inside the requested
      box, for the filters that are given. */
  predicate KeepCentroid(c: Centroid, f: Filters)
  {
    && (f.regIds.Some? ==> c.regionId in f.regIds.value)
    && (f.extent.Some? ==>
          f.extent.value.lonMin <= c.lon <= f.extent.value.lonMax
          && f.extent.value.latMin <= c.lat <= f.extent.value.latMax)
  }

  /** The centroids select keeps: exactly those passing the filters, in
      their original order. */
  function SelectedCentroids(h: HazardData, f: Filters): (cols: seq<nat>)
    ensures InBounds(cols, |h.centroids|) && Increasing(cols)
    ensures forall j :: 0 <= j < |h.centroids| ==> (j in cols <==> KeepCentroid(h.centroids[j], f))
  {
    Where(seq(|h.centroids|, j requires 0 <= j < |h.centroids| => KeepCentroid(h.centroids[j], f)))
  }

  /** An event's entries restricted to some centroid columns. */
  function ProjectRow(e: EventRow, cols: seq<nat>): EventRow
    requires InBounds(cols, |e.intensity|) && InBounds(cols, |e.fraction|)
  {
    e.(intensity := Pick(e.intensity, cols), fraction := Pick(e.fraction, cols))
  }

  /** The hazard made of the events sel and the centroids cols of h. */
  function Project(h: HazardData, sel: seq<nat>, cols: seq<nat>): (g: HazardData)
    requires WellShaped(h) && InBounds(sel, h.Size()) && InBounds(cols, |h.centroids|)
    ensures WellShaped(g) && g.Size() == |sel|
    ensures g.hazType == h.hazType && g.units == h.units
    ensures g.frequencyUnit == h.frequencyUnit && g.crs == h.crs
    ensures g.centroids == Pick(h.centroids, cols)
    ensures forall k :: 0 <= k < |sel| ==> RowOf(g, k) == ProjectRow(RowOf(h, sel[k]), cols)
  {
    var g := h.(
      centroids := Pick(h.centroids, cols),
      eventId := Pick(h.eventId, sel),
      eventName := Pick(h.eventName, sel),
      date := Pick(h.date, sel),
      orig := Pick(h.orig, sel),
      frequency := Pick(h.frequency, sel),
      intensity := SelectCols(SelectRows(h.intensity, sel), cols),
      fraction := SelectCols(SelectRows(h.fraction, sel), cols));
    assert forall k :: 0 <= k < |sel| ==> RowOf(g, k) == ProjectRow(RowOf(h, sel[k]), cols) by {
      forall k | 0 <= k < |sel|
        ensures RowOf(g, k) == ProjectRow(RowOf(h, sel[k]), cols)
      {
        assert g.intensity.rows[k] == Pick(h.intensity.rows[sel[k]], cols);
        assert g.fraction.rows[k] == Pick(h.fraction.rows[sel[k]], cols);
      }
    }
    g
  }

  /** The fraction of a projection is all zero exactly when the fraction of
      h is zero on every selected event at every kept centroid. */
  lemma ProjectFractionZero(h: HazardData, sel: seq<nat>, cols: seq<nat>)
    requires WellShaped(h) && InBounds(sel, h.Size()) && InBounds(cols, |h.centroids|)
    ensures IsZero(Project(h, sel, cols).fraction) <==>
      forall k, c :: 0 <= k < |sel| && 0 <= c < |cols| ==> h.fraction.rows[sel[k]][cols[c]] == 0.0
  {
    var m := Project(h, sel, cols).fraction;
    assert forall k, c :: 0 <= k < |sel| && 0 <= c < |cols| ==> m.rows[k][c] == h.fraction.rows[sel[k]][cols[c]] by {
      forall k, c | 0 <= k < |sel| && 0 <= c < |cols|
        ensures m.rows[k][c] == h.fraction.rows[sel[k]][cols[c]]
      {
        assert RowOf(Project(h, sel, cols), k) == ProjectRow(RowOf(h, sel[k]), cols);
      }
    }
  }

  /** Hazard.select. A window of the wrong length is an error; a selection
      that keeps no event or no centroid gives nothing; a selection that
      turns a non-zero fraction into an all-zero one is an error. */
  function Select(h: HazardData, f: Filters): (r: Result<Option<HazardData>>)
    requires WellShaped(h)
    ensures !WindowWellFormed(f) ==> r == Err(DateWindowArity(|f.date.value|))
    ensures r.Err? ==> !WindowWellFormed(f) || (r.error == FractionZeroed && !IsZero(h.fraction))
    ensures WindowWellFormed(f) ==>
      (r == Ok(None) <==> SelectedEvents(h, f).None? || SelectedCentroids(h, f) == [])
    ensures WindowWellFormed(f) && SelectedEvents(h, f).Some? && SelectedCentroids(h, f) != [] ==>
      (r.Err? <==> !IsZero(h.fraction)
                   && IsZero(Project(h, SelectedEvents(h, f).value, SelectedCentroids(h, f)).fraction))
    ensures r.Ok? && r.value.Some? ==>
      && WindowWellFormed(f) && SelectedEvents(h, f).Some?
      && var g := r.value.value;
         var sel := SelectedEvents(h, f).value;
         var cols := SelectedCentroids(h, f);
         && WellShaped(g) && g.Size() == |sel|
         && g.hazType == h.hazType && g.units == h.units
         && g.frequencyUnit == h.frequencyUnit && g.crs == h.crs
         && g.centroids == Pick(h.centroids, cols)
         && (forall k :: 0 <= k < |sel| ==> RowOf(g, k) == ProjectRow(RowOf(h, sel[k]), cols))
         && (IsZero(h.fraction) || !IsZero(g.fraction))
  {
    if !WindowWellFormed(f) then Err(DateWindowArity(|f.date.value|))
    else match SelectedEvents(h, f)
      case None => Ok(None)
      case Some(sel) =>
        var cols := SelectedCentroids(h, f);
        if cols == [] then Ok(None)
        else
          var g := Project(h, sel, cols);
          if !IsZero(h.fraction) && IsZero(g.fraction) then Err(FractionZeroed)
          else Ok(Some(g))
  }

  /** Only event ids requested. */
  function IdFilter(ids: seq<int>): Filters
  {
    Filters(None, Some(ids), None, None, None, None)
  }

  /** Only event names requested. */
  function NameFilter(names: seq<string>): Filters
  {
    Filters(Some(names), None, None, None, None, None)
  }

  /** With no event filter every event is kept, in order. */
  lemma AllEventsKept(h: HazardData, f: Filters)
    requires WellShaped(h) && WindowWellFormed(f) && f.date.None? && f.orig.None?
    ensures Where(EventMask(h, f)) == Indices(h.Size())
  {
    WherePrefix(EventMask(h, f), h.Size());
  }

  /** With no centroid filter every centroid is kept, in order. */
  lemma AllCentroidsKept(h: HazardData, f: Filters)
    requires f.regIds.None? && f.extent.None?
    ensures SelectedCentroids(h, f) == Indices(|h.centroids|)
  {
    var m := seq(|h.centroids|, j requires 0 <= j < |h.centroids| => KeepCentroid(h.centroids[j], f));
    WherePrefix(m, |h.centroids|);
  }

  lemma ProjectRowAll(h: HazardData, i: nat)
    requires WellShaped(h) && i < h.Size()
    ensures InBounds(Indices(|h.centroids|), |h.intensity.rows[i]|)
    ensures ProjectRow(RowOf(h, i), Indices(|h.centroids|)) == RowOf(h, i)
  {
    var all := Indices(|h.centroids|);
    assert Pick(h.intensity.rows[i], all) == h.intensity.rows[i];
    assert Pick(h.fraction.rows[i], all) == h.fraction.rows[i];
  }

  /** With every centroid kept, the projected fraction is all zero exactly
      when each selected event's fraction row is. */
  lemma ProjectAllColumnsZero(h: HazardData, sel: seq<nat>)
    requires WellShaped(h) && InBounds(sel, h.Size())
    ensures InBounds(Indices(|h.centroids|), |h.centroids|)
    ensures IsZero(Project(h, sel, Indices(|h.centroids|)).fraction) <==>
      forall k, j :: 0 <= k < |sel| && 0 <= j < |h.centroids| ==> h.fraction.rows[sel[k]][j] == 0.0
  {
    var all := Indices(|h.centroids|);
    ProjectFractionZero(h, sel, all);
    if forall k, c :: 0 <= k < |sel| && 0 <= c < |all| ==> h.fraction.rows[sel[k]][all[c]] == 0.0 {
      forall k, j | 0 <= k < |sel| && 0 <= j < |h.centroids|
        ensures h.fraction.rows[sel[k]][j] == 0.0
      {
        assert all[j] == j;
      }
    }
  }

  /** The events selected by id are exactly the events whose id is
      requested. */
  lemma SelectedIdsAreRequested(h: HazardData, ids: seq<int>, sel: seq<nat>)
    requires Valid(h) && InBounds(sel, h.Size())
    requires Pick(h.eventId, sel) == Present(ids, h.eventId)
    ensures forall k :: 0 <= k < |sel| ==> h.eventId[sel[k]] in ids
    ensures forall i :: 0 <= i < h.Size() && h.eventId[i] in ids ==> i in sel
  {
    var present := Present(ids, h.eventId);
    forall k | 0 <= k < |sel| ensures h.eventId[sel[k]] in ids {
      assert h.eventId[sel[k]] == present[k];
    }
    forall i | 0 <= i < h.Size() && h.eventId[i] in ids ensures i in sel {
      assert h.eventId[i] in present;
      var k :| 0 <= k < |present| && present[k] == h.eventId[i];
      assert h.eventId[sel[k]] == h.eventId[i];
    }
  }

  /** So their fraction rows are all zero exactly when those of the events
      with a requested id are. */
  lemma IdsFractionZero(h: HazardData, ids: seq<int>, sel: seq<nat>)
    requires Valid(h) && InBounds(sel, h.Size())
    requires Pick(h.eventId, sel) == Present(ids, h.eventId)
    ensures (forall k, j :: 0 <= k < |sel| && 0 <= j < |h.centroids| ==> h.fraction.rows[sel[k]][j] == 0.0)
      <==> (forall i, j :: 0 <= i < h.Size() && h.eventId[i] in ids && 0 <= j < |h.centroids| ==>
              h.fraction.rows[i][j] == 0.0)
  {
    SelectedIdsAreRequested(h, ids, sel);
    if forall k, j :: 0 <= k < |sel| && 0 <= j < |h.centroids| ==> h.fraction.rows[sel[k]][j] == 0.0 {
      forall i, j | 0 <= i < h.Size() && h.eventId[i] in ids && 0 <= j < |h.centroids|
        ensures h.fraction.rows[i][j] == 0.0
      {
        var k :| 0 <= k < |sel| && sel[k] == i;
      }
    }
  }

  /** Selecting by event ids fails exactly when the fraction is non-zero but
      zero on every event with a requested id (and something is selected). */
  lemma SelectByIdsFails(h: HazardData, ids: seq<int>)
    requires Valid(h)
    ensures var r := Select(h, IdFilter(ids));
      r.Err? <==> && !IsZero(h.fraction) && Present(ids, h.eventId) != [] && h.centroids != []
                  && forall i, j :: 0 <= i < h.Size() && h.eventId[i] in ids && 0 <= j < |h.centroids| ==>
                       h.fraction.rows[i][j] == 0.0
  {
    var f := IdFilter(ids);
    AllEventsKept(h, f);
    AllCentroidsKept(h, f);
    var all := Indices(h.Size());
    assert Pick(h.eventId, all) == h.eventId;
    var sel := ByIds(h, all, ids);
    assert |sel| == |Present(ids, h.eventId)|;
    assert SelectedEvents(h, f) == (if sel == [] then None else Some(sel));
    if sel != [] && h.centroids != [] {
      ProjectAllColumnsZero(h, sel);
      IdsFractionZero(h, ids, sel);
    }
  }

  /** Selecting by event ids returns the requested ids that exist, in the
      requested order, each with all of its per-event entries and matrix rows;
      centroids, units and frequency unit are those of the original. It fails
      exactly when the fraction is non-zero but zero on every event with a
      requested id. */
  lemma SelectByIdsInRequestedOrder(h: HazardData, ids: seq<int>)
    requires Valid(h)
    ensures var r := Select(h, IdFilter(ids));
      && (r.Err? ==> r.error == FractionZeroed)
      && (r == Ok(None) <==> Present(ids, h.eventId) == [] || h.centroids == [])
      && (r.Err? <==> && !IsZero(h.fraction) && Present(ids, h.eventId) != [] && h.centroids != []
                      && forall i, j :: 0 <= i < h.Size() && h.eventId[i] in ids && 0 <= j < |h.centroids| ==>
                           h.fraction.rows[i][j] == 0.0)
      && (r.Ok? && r.value.Some? ==>
            var g := r.value.value;
            && g.eventId == Present(ids, h.eventId)
            && g.centroids == h.centroids && g.units == h.units
            && g.frequencyUnit == h.frequencyUnit
            && forall k :: 0 <= k < g.Size() ==>
                 RowOf(g, k) == RowOf(h, IndexOf(h.eventId, g.eventId[k])))
  {
    var f := IdFilter(ids);
    var n := h.Size();
    AllEventsKept(h, f);
    AllCentroidsKept(h, f);
    var all := Indices(n);
    assert Pick(h.eventId, all) == h.eventId;
    var sel := ByIds(h, all, ids);
    assert |sel| == |Present(ids, h.eventId)|;
    assert SelectedEvents(h, f) == (if sel == [] then None else Some(sel));
    SelectByIdsFails(h, ids);
    var r := Select(h, f);
    if r.Ok? && r.value.Some? {
      var g := r.value.value;
      assert g.centroids == h.centroids;
      forall k | 0 <= k < g.Size()
        ensures RowOf(g, k) == RowOf(h, IndexOf(h.eventId, g.eventId[k]))
      {
        ProjectRowAll(h, sel[k]);
        IndexOfDistinct(h.eventId, sel[k]);
      }
      assert g.eventId == Pick(h.eventId, sel);
    }
  }

  /** A name filter alone selects, among all events, the first with each
      requested name, and keeps every centroid. */
  lemma NamesSelected(h: HazardData, names: seq<string>)
    requires WellShaped(h)
    ensures InBounds(Indices(h.Size()), h.Size())
    ensures Pick(h.eventName, Indices(h.Size())) == h.eventName
    ensures SelectedEvents(h, NameFilter(names)) == ByNames(h, Indices(h.Size()), names)
    ensures SelectedCentroids(h, NameFilter(names)) == Indices(|h.centroids|)
  {
    var f := NameFilter(names);
    AllEventsKept(h, f);
    AllCentroidsKept(h, f);
    assert Pick(h.eventName, Indices(h.Size())) == h.eventName;
  }

  /** Selecting by event names gives nothing exactly when a name has no
      event or there are no centroids; it fails exactly when, besides, the
      fraction is non-zero but zero on the first event of each requested
      name. */
  lemma SelectByNamesOutcome(h: HazardData, names: seq<string>)
    requires WellShaped(h)
    ensures var r := Select(h, NameFilter(names));
      && (r.Err? ==> r.error == FractionZeroed)
      && (r == Ok(None) <==> (exists t :: 0 <= t < |names| && names[t] !in h.eventName) || h.centroids == [])
      && (r.Err? <==> && !IsZero(h.fraction) && h.centroids != []
                      && (forall t :: 0 <= t < |names| ==> names[t] in h.eventName)
                      && forall t, j :: 0 <= t < |names| && 0 <= j < |h.centroids| ==>
                           h.fraction.rows[FirstEventsNamed(h, names)[t]][j] == 0.0)
  {
    NamesSelected(h, names);
    if (forall t :: 0 <= t < |names| ==> names[t] in h.eventName) && h.centroids != [] {
      NamesPositions(h, names);
      ProjectAllColumnsZero(h, FirstEventsNamed(h, names));
    }
  }

  /** The first event with each name, in the order of the names. */
  function FirstEventsNamed(h: HazardData, names: seq<string>): (sel: seq<nat>)
    requires WellShaped(h) && forall t :: 0 <= t < |names| ==> names[t] in h.eventName
    ensures |sel| == |names| && InBounds(sel, h.Size())
    ensures forall t :: 0 <= t < |names| ==>
      sel[t] == IndexOf(h.eventName, names[t]) && h.eventName[sel[t]] == names[t]
  {
    seq(|names|, t requires 0 <= t < |names| => IndexOf(h.eventName, names[t]))
  }

  /** When every name has an event, the names select the first event with
      each name, in the requested order. */
  lemma NamesPositions(h: HazardData, names: seq<string>)
    requires WellShaped(h) && forall t :: 0 <= t < |names| ==> names[t] in h.eventName
    ensures InBounds(Indices(h.Size()), h.Size())
    ensures ByNames(h, Indices(h.Size()), names) == Some(FirstEventsNamed(h, names))
  {
    var all := Indices(h.Size());
    NamesSelected(h, names);
    assert ByNames(h, all, names).Some?;
    var sel := ByNames(h, all, names).value;
    var first := FirstEventsNamed(h, names);
    forall t | 0 <= t < |names| ensures sel[t] == first[t] {
      assert all[IndexOf(h.eventName, names[t])] == IndexOf(h.eventName, names[t]);
    }
    assert sel == first;
  }

  /** A hazard selected by event names has one event per requested name, in
      the requested order (the first event with that name), with its whole
      row; centroids, units and frequency unit are the original's. When it
      gives nothing and when it fails is SelectByNamesOutcome. */
  lemma SelectByNamesInRequestedOrder(h: HazardData, names: seq<string>)
    requires WellShaped(h)
    ensures var r := Select(h, NameFilter(names));
      r.Ok? && r.value.Some? ==>
            var g := r.value.value;
            && g.eventName == names
            && g.centroids == h.centroids && g.units == h.units
            && g.frequencyUnit == h.frequencyUnit
            && forall k :: 0 <= k < g.Size() ==> RowOf(g, k) == RowOf(h, IndexOf(h.eventName, names[k]))
  {
    var f := NameFilter(names);
    var all := Indices(h.Size());
    NamesSelected(h, names);
    var r := Select(h, f);
    if r.Ok? && r.value.Some? {
      var g := r.value.value;
      var sel := ByNames(h, all, names).value;
      assert g.centroids == h.centroids;
      forall k | 0 <= k < g.Size()
        ensures RowOf(g, k) == RowOf(h, IndexOf(h.eventName, names[k]))
      {
        ProjectRowAll(h, sel[k]);
      }
      assert g.eventName == names;
    }
  }

  /** Positions that are exactly those where a mask holds have all-zero
      fraction rows exactly when every event the mask holds for has. */
  lemma MaskFractionZero(h: HazardData, sel: seq<nat>, m: seq<bool>)
    requires WellShaped(h) && |m| == h.Size() && InBounds(sel, h.Size())
    requires forall k :: 0 <= k < |sel| ==> m[sel[k]]
    requires forall i :: 0 <= i < |m| && m[i] ==> i in sel
    ensures (forall k, j :: 0 <= k < |sel| && 0 <= j < |h.centroids| ==> h.fraction.rows[sel[k]][j] == 0.0)
      <==> (forall i, j :: 0 <= i < |m| && m[i] && 0 <= j < |h.centroids| ==> h.fraction.rows[i][j] == 0.0)
  {
    if forall k, j :: 0 <= k < |sel| && 0 <= j < |h.centroids| ==> h.fraction.rows[sel[k]][j] == 0.0 {
      forall i, j | 0 <= i < |m| && m[i] && 0 <= j < |h.centroids|
        ensures h.fraction.rows[i][j] == 0.0
      {
        var k :| 0 <= k < |sel| && sel[k] == i;
      }
    }
  }

  /** With only the orig flag and/or date window given, select keeps the
      events passing them (nothing when none does) and every centroid. */
  lemma DateOrigSelected(h: HazardData, f: Filters)
    requires WellShaped(h) && WindowWellFormed(f)
    requires f.eventNames.None? && f.eventIds.None? && f.regIds.None? && f.extent.None?
    requires f.date.Some? || f.orig.Some?
    ensures SelectedCentroids(h, f) == Indices(|h.centroids|)
    ensures SelectedEvents(h, f).None? <==> forall i :: 0 <= i < h.Size() ==> !KeepEvent(h, f, i)
    ensures SelectedEvents(h, f).Some? ==> SelectedEvents(h, f).value == Where(EventMask(h, f))
  {
    AllCentroidsKept(h, f);
    var sel := Where(EventMask(h, f));
    assert sel == [] <==> (forall i :: 0 <= i < h.Size() ==> !KeepEvent(h, f, i)) by {
      if sel != [] {
        assert KeepEvent(h, f, sel[0]);
      }
    }
  }

  /** Over every centroid, the fraction of the events passing the filters is
      all zero exactly when each passing event's fraction row is. */
  lemma PassingFractionZero(h: HazardData, f: Filters)
    requires WellShaped(h) && WindowWellFormed(f)
    ensures InBounds(Indices(|h.centroids|), |h.centroids|)
    ensures IsZero(Project(h, Where(EventMask(h, f)), Indices(|h.centroids|)).fraction) <==>
      forall i, j :: 0 <= i < h.Size() && KeepEvent(h, f, i) && 0 <= j < |h.centroids| ==>
        h.fraction.rows[i][j] == 0.0
  {
    var m := EventMask(h, f);
    var sel := Where(m);
    ProjectAllColumnsZero(h, sel);
    MaskFractionZero(h, sel, m);
  }

  /** Selecting by orig flag and/or date window fails exactly when some event
      passes and there are centroids, and the fraction is non-zero but zero
      on every event that passes. */
  lemma SelectByDateAndOrigFails(h: HazardData, f: Filters)
    requires WellShaped(h) && WindowWellFormed(f)
    requires f.eventNames.None? && f.eventIds.None? && f.regIds.None? && f.extent.None?
    requires f.date.Some? || f.orig.Some?
    ensures var r := Select(h, f);
      r.Err? <==> && !IsZero(h.fraction) && h.centroids != []
                  && (exists i :: 0 <= i < h.Size() && KeepEvent(h, f, i))
                  && forall i, j :: 0 <= i < h.Size() && KeepEvent(h, f, i) && 0 <= j < |h.centroids| ==>
                       h.fraction.rows[i][j] == 0.0
  {
    DateOrigSelected(h, f);
    PassingFractionZero(h, f);
  }

  /** Selecting by orig flag and/or date window keeps exactly the events that
      pass every given filter (window bounds included), in their original
      order, and gives nothing when no event passes; it fails as
      SelectByDateAndOrigFails says. */
  lemma SelectByDateAndOrig(h: HazardData, f: Filters)
    requires WellShaped(h) && WindowWellFormed(f)
    requires f.eventNames.None? && f.eventIds.None? && f.regIds.None? && f.extent.None?
    requires f.date.Some? || f.orig.Some?
    ensures var r := Select(h, f); var sel := Where(EventMask(h, f));
      && (r.Err? ==> r.error == FractionZeroed)
      && (r == Ok(None) <==> (forall i :: 0 <= i < h.Size() ==> !KeepEvent(h, f, i)) || h.centroids == [])
      && (r.Err? <==> && !IsZero(h.fraction) && h.centroids != []
                      && (exists i :: 0 <= i < h.Size() && KeepEvent(h, f, i))
                      && forall i, j :: 0 <= i < h.Size() && KeepEvent(h, f, i) && 0 <= j < |h.centroids| ==>
                           h.fraction.rows[i][j] == 0.0)
      && (r.Ok? && r.value.Some? ==>
            var g := r.value.value;
            && Increasing(sel) && g.Size() == |sel|
            && (forall i :: 0 <= i < h.Size() ==> (i in sel <==> KeepEvent(h, f, i)))
            && g.centroids == h.centroids
            && forall k :: 0 <= k < |sel| ==> RowOf(g, k) == RowOf(h, sel[k]))
  {
    var sel := Where(EventMask(h, f));
    DateOrigSelected(h, f);
    SelectByDateAndOrigFails(h, f);
    var r := Select(h, f);
    if r.Ok? && r.value.Some? {
      var g := r.value.value;
      assert g.centroids == h.centroids;
      forall k | 0 <= k < |sel|
        ensures RowOf(g, k) == RowOf(h, sel[k])
      {
        ProjectRowAll(h, sel[k]);
      }
    }
  }

  /** The centroids where some event has a non-zero value in the matrix. */
  function NonZeroCentroids(h: HazardData, kind: MatrixKind): (nz: seq<nat>)
    requires WellShaped(h)
    ensures InBounds(nz, |h.centroids|)
    ensures forall j :: 0 <= j < |h.centroids| ==> (j in nz <==> ColumnNonZero(MatrixOf(h, kind), j))
  {
    Where(seq(|h.centroids|, j requires 0 <= j < |h.centroids| => ColumnNonZero(MatrixOf(h, kind), j)))
  }

  /** The bounding box of the given centroids, widened by buffer on every side. */
  function TightExtent(h: HazardData, nz: seq<nat>, buffer: real): (e: Extent)
    requires nz != [] && InBounds(nz, |h.centroids|)
    ensures forall k :: 0 <= k < |nz| ==>
      var c := h.centroids[nz[k]];
      e.lonMin + buffer <= c.lon <= e.lonMax - buffer && e.latMin + buffer <= c.lat <= e.latMax - buffer
    ensures exists k :: 0 <= k < |nz| && h.centroids[nz[k]].lon == e.lonMin + buffer
    ensures exists k :: 0 <= k < |nz| && h.centroids[nz[k]].lon == e.lonMax - buffer
    ensures exists k :: 0 <= k < |nz| && h.centroids[nz[k]].lat == e.latMin + buffer
    ensures exists k :: 0 <= k < |nz| && h.centroids[nz[k]].lat == e.latMax - buffer
  {
    var lons := seq(|nz|, k requires 0 <= k < |nz| => h.centroids[nz[k]].lon);
    var lats := seq(|nz|, k requires 0 <= k < |nz| => h.centroids[nz[k]].lat);
    assert forall k :: 0 <= k < |nz| ==> lons[k] == h.centroids[nz[k]].lon && lats[k] == h.centroids[nz[k]].lat;
    Extent(Min(lons) - buffer, Max(lons) + buffer, Min(lats) - buffer, Max(lats) + buffer)
  }

  /** Point p lies, in longitude and in latitude, between the smallest and the
      largest coordinate of the centroids nz, widened by buffer. */
  predicate WithinRange(h: HazardData, nz: seq<nat>, buffer: real, p: Centroid)
    requires InBounds(nz, |h.centroids|)
  {
    && (exists k :: 0 <= k < |nz| && h.centroids[nz[k]].lon - buffer <= p.lon)
    && (exists k :: 0 <= k < |nz| && p.lon <= h.centroids[nz[k]].lon + buffer)
    && (exists k :: 0 <= k < |nz| && h.centroids[nz[k]].lat - buffer <= p.lat)
    && (exists k :: 0 <= k < |nz| && p.lat <= h.centroids[nz[k]].lat + buffer)
  }

  function TightFilters(h: HazardData, kind: MatrixKind, buffer: real): Filters
    requires WellShaped(h)
  {
    var nz := NonZeroCentroids(h, kind);
    Filters(None, None, None, None, None, if nz == [] then None else Some(TightExtent(h, nz, buffer)))
  }

  /** Hazard.select_tight: select all events and the centroids inside the
      bounding box of the centroids with a non-zero value, widened by buffer.
      A matrix without any non-zero value has no bounding box. */
  function SelectTight(h: HazardData, kind: MatrixKind, buffer: real): (r: Result<Option<HazardData>>)
    requires WellShaped(h) && buffer >= 0.0
    ensures r == Err(NoNonZeroCentroid) <==> IsZero(MatrixOf(h, kind))
    ensures r.Ok? ==> r.value.Some?
  {
    NoNonZeroCentroidIffZero(h, kind);
    if NonZeroCentroids(h, kind) == [] then Err(NoNonZeroCentroid)
    else
      assert SelectedEvents(h, TightFilters(h, kind, buffer)).Some? by { TightSelectsAll(h, kind, buffer); }
      assert SelectedCentroids(h, TightFilters(h, kind, buffer)) != [] by { TightSelectsAll(h, kind, buffer); }
      Select(h, TightFilters(h, kind, buffer))
  }

  /** The matrix is all zeros exactly when no centroid has a non-zero value. */
  lemma NoNonZeroCentroidIffZero(h: HazardData, kind: MatrixKind)
    requires WellShaped(h)
    ensures IsZero(MatrixOf(h, kind)) <==> NonZeroCentroids(h, kind) == []
  {
    var m := MatrixOf(h, kind);
    var nz := NonZeroCentroids(h, kind);
    if nz != [] {
      assert ColumnNonZero(m, nz[0]);
    }
    if !IsZero(m) {
      var i, j :| 0 <= i < |m.rows| && 0 <= j < m.cols && m.rows[i][j] != 0.0;
      assert ColumnNonZero(m, j);
      assert j in nz;
    }
  }

  /** The widened bounding box contains every centroid with a non-zero value. */
  lemma TightBoxHoldsNonZero(h: HazardData, kind: MatrixKind, buffer: real)
    requires WellShaped(h) && buffer >= 0.0 && NonZeroCentroids(h, kind) != []
    ensures forall j :: 0 <= j < |h.centroids| && ColumnNonZero(MatrixOf(h, kind), j) ==>
      j in SelectedCentroids(h, TightFilters(h, kind, buffer))
  {
    var nz := NonZeroCentroids(h, kind);
    var f := TightFilters(h, kind, buffer);
    forall j | 0 <= j < |h.centroids| && ColumnNonZero(MatrixOf(h, kind), j)
      ensures j in SelectedCentroids(h, f)
    {
      var k :| 0 <= k < |nz| && nz[k] == j;
      assert KeepCentroid(h.centroids[nz[k]], f);
    }
  }

  /** A point lies inside the tight box of nz exactly when it is within the
      widened range of nz: the box's sides are attained by centroids of nz. */
  lemma InBoxIffWithinRange(h: HazardData, nz: seq<nat>, buffer: real, p: Centroid)
    requires nz != [] && InBounds(nz, |h.centroids|)
    ensures var e := TightExtent(h, nz, buffer);
      e.lonMin <= p.lon <= e.lonMax && e.latMin <= p.lat <= e.latMax <==> WithinRange(h, nz, buffer, p)
  {
    var e := TightExtent(h, nz, buffer);
    if e.lonMin <= p.lon <= e.lonMax && e.latMin <= p.lat <= e.latMax {
      var k0 :| 0 <= k0 < |nz| && h.centroids[nz[k0]].lon == e.lonMin + buffer;
      var k1 :| 0 <= k1 < |nz| && h.centroids[nz[k1]].lon == e.lonMax - buffer;
      var k2 :| 0 <= k2 < |nz| && h.centroids[nz[k2]].lat == e.latMin + buffer;
      var k3 :| 0 <= k3 < |nz| && h.centroids[nz[k3]].lat == e.latMax - buffer;
    }
    if WithinRange(h, nz, buffer, p) {
      var k0 :| 0 <= k0 < |nz| && h.centroids[nz[k0]].lon - buffer <= p.lon;
      var k1 :| 0 <= k1 < |nz| && p.lon <= h.centroids[nz[k1]].lon + buffer;
      var k2 :| 0 <= k2 < |nz| && h.centroids[nz[k2]].lat - buffer <= p.lat;
      var k3 :| 0 <= k3 < |nz| && p.lat <= h.centroids[nz[k3]].lat + buffer;
    }
  }

  /** The centroids select_tight keeps are exactly those within the widened
      range of the centroids with a non-zero value. */
  lemma TightKeepsWithin(h: HazardData, kind: MatrixKind, buffer: real)
    requires WellShaped(h) && NonZeroCentroids(h, kind) != []
    ensures var nz := NonZeroCentroids(h, kind);
      forall j :: 0 <= j < |h.centroids| ==>
        (j in SelectedCentroids(h, TightFilters(h, kind, buffer)) <==> WithinRange(h, nz, buffer, h.centroids[j]))
  {
    var nz := NonZeroCentroids(h, kind);
    var f := TightFilters(h, kind, buffer);
    assert f.regIds.None? && f.extent == Some(TightExtent(h, nz, buffer));
    forall j | 0 <= j < |h.centroids|
      ensures KeepCentroid(h.centroids[j], f) <==> WithinRange(h, nz, buffer, h.centroids[j])
    {
      InBoxIffWithinRange(h, nz, buffer, h.centroids[j]);
    }
  }

  /** Without event filters, a selection keeps every event with its
      per-event entries, in order. */
  lemma SelectKeepsAllEvents(h: HazardData, f: Filters)
    requires WellShaped(h) && WindowWellFormed(f)
    requires f.eventNames.None? && f.eventIds.None? && f.date.None? && f.orig.None?
    ensures var r := Select(h, f);
      r.Ok? && r.value.Some? ==>
        var g := r.value.value;
        && g.eventId == h.eventId && g.eventName == h.eventName
        && g.date == h.date && g.orig == h.orig && g.frequency == h.frequency
  {
    AllEventsKept(h, f);
    var r := Select(h, f);
    if r.Ok? && r.value.Some? {
      var g := r.value.value;
      var all := Indices(h.Size());
      var cols := SelectedCentroids(h, f);
      forall k | 0 <= k < h.Size()
        ensures g.eventId[k] == h.eventId[k] && g.eventName[k] == h.eventName[k]
        ensures g.date[k] == h.date[k] && g.orig[k] == h.orig[k] && g.frequency[k] == h.frequency[k]
      {
        assert RowOf(g, k) == ProjectRow(RowOf(h, all[k]), cols);
      }
    }
  }

  /** Over all events, the fraction at some centroid columns is all zero
      exactly when every event's fraction is zero at each of those columns. */
  lemma AllEventsColumnsZero(h: HazardData, cols: seq<nat>)
    requires WellShaped(h) && InBounds(cols, |h.centroids|)
    ensures InBounds(Indices(h.Size()), h.Size())
    ensures IsZero(Project(h, Indices(h.Size()), cols).fraction) <==>
      forall i, j :: 0 <= i < h.Size() && 0 <= j < |h.centroids| && j in cols ==> h.fraction.rows[i][j] == 0.0
  {
    var all := Indices(h.Size());
    ProjectFractionZero(h, all, cols);
    if forall k, c :: 0 <= k < |all| && 0 <= c < |cols| ==> h.fraction.rows[all[k]][cols[c]] == 0.0 {
      forall i, j | 0 <= i < h.Size() && 0 <= j < |h.centroids| && j in cols
        ensures h.fraction.rows[i][j] == 0.0
      {
        var c :| 0 <= c < |cols| && cols[c] == j;
        assert all[i] == i;
      }
    }
    if forall i, j :: 0 <= i < h.Size() && 0 <= j < |h.centroids| && j in cols ==> h.fraction.rows[i][j] == 0.0 {
      forall k, c | 0 <= k < |all| && 0 <= c < |cols|
        ensures h.fraction.rows[all[k]][cols[c]] == 0.0
      {
        assert all[k] == k && cols[c] in cols;
      }
    }
  }

  /** A tight selection keeps every event, in order, and at least one
      centroid. */
  lemma TightSelectsAll(h: HazardData, kind: MatrixKind, buffer: real)
    requires WellShaped(h) && buffer >= 0.0 && NonZeroCentroids(h, kind) != []
    ensures SelectedEvents(h, TightFilters(h, kind, buffer)) == Some(Indices(h.Size()))
    ensures SelectedCentroids(h, TightFilters(h, kind, buffer)) != []
  {
    var f := TightFilters(h, kind, buffer);
    AllEventsKept(h, f);
    TightBoxHoldsNonZero(h, kind, buffer);
    assert NonZeroCentroids(h, kind)[0] in SelectedCentroids(h, f);
  }

  /** The fraction is zero at every centroid the tight box keeps exactly when
      it is zero at every centroid within the widened range. */
  lemma TightColumnsZero(h: HazardData, kind: MatrixKind, buffer: real)
    requires WellShaped(h) && buffer >= 0.0 && NonZeroCentroids(h, kind) != []
    ensures var cols := SelectedCentroids(h, TightFilters(h, kind, buffer)); var nz := NonZeroCentroids(h, kind);
      (forall i, j :: 0 <= i < h.Size() && 0 <= j < |h.centroids| && j in cols ==> h.fraction.rows[i][j] == 0.0)
      <==> (forall i, j :: 0 <= i < h.Size() && 0 <= j < |h.centroids| && WithinRange(h, nz, buffer, h.centroids[j]) ==>
              h.fraction.rows[i][j] == 0.0)
  {
    TightKeepsWithin(h, kind, buffer);
  }

  /** select_tight fails on a zeroed fraction exactly when the matrix has a
      non-zero value and the fraction is non-zero but zero at every centroid
      within the widened range. */
  lemma SelectTightFails(h: HazardData, kind: MatrixKind, buffer: real)
    requires WellShaped(h) && buffer >= 0.0
    ensures var r := SelectTight(h, kind, buffer); var nz := NonZeroCentroids(h, kind);
      r == Err(FractionZeroed) <==>
        && !IsZero(MatrixOf(h, kind)) && !IsZero(h.fraction)
        && forall i, j :: 0 <= i < h.Size() && 0 <= j < |h.centroids| && WithinRange(h, nz, buffer, h.centroids[j]) ==>
             h.fraction.rows[i][j] == 0.0
  {
    NoNonZeroCentroidIffZero(h, kind);
    if NonZeroCentroids(h, kind) != [] {
      TightSelectsAll(h, kind, buffer);
      AllEventsColumnsZero(h, SelectedCentroids(h, TightFilters(h, kind, buffer)));
      TightColumnsZero(h, kind, buffer);
    }
  }

  /** A tight selection on the fraction of a hazard with a non-zero fraction
      always gives a hazard. */
  lemma SelectTightOnFraction(h: HazardData, buffer: real)
    requires WellShaped(h) && buffer >= 0.0 && !IsZero(h.fraction)
    ensures SelectTight(h, Fraction, buffer).Ok?
  {
    SelectTightFails(h, Fraction, buffer);
    SelectTightKeepsNonZero(h, Fraction, buffer);
    var nz := NonZeroCentroids(h, Fraction);
    var i, j :| 0 <= i < |h.fraction.rows| && 0 <= j < h.fraction.cols && h.fraction.rows[i][j] != 0.0;
    assert ColumnNonZero(MatrixOf(h, Fraction), j);
    TightBoxHoldsNonZero(h, Fraction, buffer);
    TightKeepsWithin(h, Fraction, buffer);
    assert WithinRange(h, nz, buffer, h.centroids[j]);
  }

  /** select_tight keeps every event and every centroid carrying a non-zero
      value, so every centroid it drops has only zeros in that matrix. */
  lemma SelectTightKeepsNonZero(h: HazardData, kind: MatrixKind, buffer: real)
    requires WellShaped(h) && buffer >= 0.0
    ensures var r := SelectTight(h, kind, buffer);
      && (IsZero(MatrixOf(h, kind)) <==> r == Err(NoNonZeroCentroid))
      && (r.Err? ==> r.error == NoNonZeroCentroid || r.error == FractionZeroed)
      && (r.Ok? ==>
            && r.value.Some?
            && var g := r.value.value;
               var cols := SelectedCentroids(h, TightFilters(h, kind, buffer));
               && g.eventId == h.eventId && g.eventName == h.eventName
               && g.date == h.date && g.orig == h.orig && g.frequency == h.frequency
               && g.centroids == Pick(h.centroids, cols)
               && (forall j :: 0 <= j < |h.centroids| && ColumnNonZero(MatrixOf(h, kind), j) ==> j in cols)
               && forall j :: 0 <= j < |h.centroids| ==>
                    (j in cols <==> WithinRange(h, NonZeroCentroids(h, kind), buffer, h.centroids[j])))
  {
    NoNonZeroCentroidIffZero(h, kind);
    var nz := NonZeroCentroids(h, kind);
    if nz != [] {
      var f := TightFilters(h, kind, buffer);
      TightSelectsAll(h, kind, buffer);
      TightBoxHoldsNonZero(h, kind, buffer);
      TightKeepsWithin(h, kind, buffer);
      SelectKeepsAllEvents(h, f);
    }
  }
}
