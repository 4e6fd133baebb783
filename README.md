# Hazard event-set bookkeeping (CLIMADA)

A model of the event-set bookkeeping of CLIMADA's `Hazard` class.
`climada/hazard/base.py` is not part of this model. The behaviour modelled
is the contract that `climada/hazard/test/test_base.py` asserts.

A hazard holds:

- the per-event arrays `event_id`, `event_name`, `date`, `orig` and `frequency`;
- an events x centroids `intensity` matrix and a `fraction` matrix;
- the centroids, each with latitude, longitude and `region_id`;
- the scalars `haz_type`, `units`, `frequency_unit` and the centroids' CRS.

Modules:

- `SeqUtil` (`seq_util.dfy`) provides numpy-style index selection (`Pick`),
  boolean masks turned into index lists (`Where`), first-occurrence lookup
  and first occurrences of values.
- `Matrices` (`matrices.dfy`) holds dense matrices with an explicit column
  count. It provides column and row selection, zero padding, stacking, and
  re-laying columns onto a wider grid. In that re-laying, entries mapped to
  one column add up, as duplicate column indices do in a CSR matrix.
- `Hazards` (`hazard.dfy`) holds the hazard record `HazardData` and these
  operations:
  - `check` and `check_matrices`;
  - the constructor with its defaults;
  - `get_event_id` and `get_event_name`;
  - `centr_exp_col` and `_get_fraction`.
- `ErrorMessages` (`messages.dfy`) holds the texts of the raised errors,
  with the sizes written in decimal.
- `Selection` (`selection.dfy`) holds `select` and `select_tight`.
  - `select` filters by event names, event ids, an integer date window,
    `orig` or region ids. Events come back in the requested order for names
    and ids, and in the original order otherwise.
  - `select_tight` keeps the centroids inside the bounding box of the
    centroids with a non-zero value.
- `Concatenation` (`concat.dfy`) holds `append` as a value-level merge,
  `concat` and `remove_duplicates`, with the lemmas the append and
  remove-duplicates tests assert.
- `HazardObject` (`hazard_object.dfy`) holds the class `Hazard`. Its fields
  are updated in place by `Append`, `RemoveDuplicates` and `CheckMatrices`.
  Each method is specified by the value-level operation on the record before
  and after.

Decisions where the tests leave the behaviour open:

- `check` reports repeated ids first. It then checks sizes in this order:
  frequency, intensity rows, intensity columns, fraction rows, fraction
  columns, event_name, date, orig.
- `append` first runs `check` on every hazard. It then requires agreement of
  hazard type, frequency unit, units and CRS, in that order. An empty hazard
  type or unit agrees with any other.
- The CRS is an EPSG code, and a new hazard's CRS is EPSG 4326. The append
  tests set "epsg:4326" on an empty `Hazard("TC")` before appending it to a
  hazard read from a file, or the other way round. The model takes that
  file's CRS to be EPSG 4326 as well, so the two agree.
- The merged centroids hold every distinct (lat, lon) place once, in order
  of first appearance.
- Merged event ids are kept when they are unique and renumbered 1..n
  otherwise.
- `concat` appends the list onto an empty hazard with the first hazard's
  attributes.
- `remove_duplicates` treats events with the same name and date as
  duplicates. It keeps the first of each.
- `select` by ids skips unknown ids.
- `select` gives no hazard when no centroid is kept, or when the event
  filters select nothing in one of these ways:
  - a date or orig filter keeps no event;
  - a requested name is missing;
  - none of the requested ids exists.
- Otherwise `select` gives a hazard, possibly without events (an empty name
  list, or a hazard without events). It is an error instead when a non-zero
  fraction becomes all zero.

## Model

| member | source | states |
|---|---|---|
| Hazards.Check | climada/hazard/test/test_base.py:112-166 | check succeeds exactly when the ids are distinct and every array and matrix dimension matches the event or centroid count; repeated ids are reported first; a size error carries the expected and the found size, and they differ |
| Hazards.CheckNamesBrokenArray | climada/hazard/test/test_base.py:112-166 | a valid hazard whose frequency, event_name, date or orig array alone has a wrong length fails check with that array's size error, the event count against the length found |
| Hazards.CheckMatrices | climada/hazard/test/test_base.py:208-232 | check_matrices fails only with the shape error and only on a non-zero fraction; whatever passes check passes check_matrices |
| Hazards.CheckMatricesMeaning | climada/hazard/test/test_base.py:208-232 | check_matrices fails, with the shape error, exactly when fraction is non-zero and its shape differs from intensity's; whatever passes check passes check_matrices |
| Hazards.NewHazard | climada/hazard/test/test_base.py:98-110 | a missing fraction becomes all zero and of intensity's shape, a missing date all ones and a missing orig all false, one per event |
| Hazards.InitWithoutFraction | climada/hazard/test/test_base.py:98-110 | a hazard built without fraction has an all-zero fraction of intensity's shape, passes check_matrices, and passes check exactly when ids are distinct and the given sizes agree |
| Hazards.EmptyHazard | climada/hazard/test/test_base.py:208-211 | Hazard("TC") has no events and no centroids and passes check |
| Hazards.NamePositions | climada/hazard/test/test_base.py:168-179 | the positions returned are exactly the events with the name, ascending |
| Hazards.GetEventId | climada/hazard/test/test_base.py:168-179 | get_event_id fails with "No event with name" exactly when no event has the name; otherwise it gives the ids at the positions of the events with the name, in event order |
| Hazards.GetEventName | climada/hazard/test/test_base.py:181-192 | get_event_name fails with "No event with id" exactly when no event has the id, and otherwise returns the name of an event with that id |
| Hazards.EventIdThenName | climada/hazard/test/test_base.py:168-192 | the ids get_event_id returns are exactly the ids of events with the name, and get_event_name maps each back to the name |
| Hazards.EventNameThenId | climada/hazard/test/test_base.py:168-192 | get_event_id of the name get_event_name reports for an id contains that id |
| Hazards.CentrExpCol | climada/hazard/test/test_base.py:1463-1470 | the column name is six characters longer than the hazard type |
| Hazards.CentrExpColRoundTrip | climada/hazard/test/test_base.py:1463-1470 | the hazard type can be read back from centr_exp_col, and every "centr_" column is the column of the type it names |
| Hazards.GetFraction | climada/hazard/test/test_base.py:1532-1561 | _get_fraction gives nothing exactly when fraction is all zero; otherwise the whole fraction, or the requested columns in the requested order with repetitions |
| Hazards.MatrixOf | climada/hazard/test/test_base.py:618-674 | the matrix chosen by val has one row per event and one column per centroid |
| ErrorMessages.Decimal | climada/hazard/test/test_base.py:112-166 | a size written in a message is a non-empty run of decimal digits |
| ErrorMessages.DecimalRoundTrip | climada/hazard/test/test_base.py:112-166 | the digits written for a size in a message read back as that size |
| Selection.EventMask | climada/hazard/test/test_base.py:535-568 | the mask holds exactly for the events with the requested orig flag and a date inside the inclusive window |
| Selection.ByNames | climada/hazard/test/test_base.py:332-359 | event names select nothing when some name is missing; otherwise one event per requested name, in the requested order, each carrying that name |
| Selection.Present | climada/hazard/test/test_base.py:361-417 | the requested ids that exist, in the requested order |
| Selection.ByIds | climada/hazard/test/test_base.py:361-417 | the selected events carry exactly the requested ids that exist, in the requested order |
| Selection.SelectedEvents | climada/hazard/test/test_base.py:332-568 | the event positions the filters select lie within the hazard |
| Selection.SelectedCentroids | climada/hazard/test/test_base.py:592-616 | the centroid columns kept are exactly those in the requested regions and extent, ascending |
| Selection.Project | climada/hazard/test/test_base.py:592-616 | the projected hazard keeps the scalars, takes the kept centroids, and each row is the selected event's row restricted to the kept columns |
| Selection.ProjectFractionZero | climada/hazard/test/test_base.py:564-590 | a projection's fraction is all zero exactly when the fraction is zero on every selected event at every kept centroid |
| Selection.Select | climada/hazard/test/test_base.py:564-590 | a date window not of length 2 is an error; no hazard exactly when the event filters select nothing or no centroid is kept; otherwise an error exactly when the fraction is non-zero and the projection's fraction is all zero; a hazard holds the selected rows and centroids and keeps the scalars |
| Selection.AllEventsKept | climada/hazard/test/test_base.py:618-674 | without date or orig filters every event passes, in order |
| Selection.AllCentroidsKept | climada/hazard/test/test_base.py:332-568 | without region or extent filters every centroid is kept |
| Selection.NamesSelected | climada/hazard/test/test_base.py:332-359 | a name filter alone selects, among all events, the first event with each requested name, and keeps every centroid |
| Selection.ProjectRowAll | climada/hazard/test/test_base.py:332-568 | keeping every column leaves an event's row unchanged |
| Selection.ProjectAllColumnsZero | climada/hazard/test/test_base.py:332-568 | keeping every centroid, the projected fraction is all zero exactly when every selected event's fraction row is |
| Selection.SelectedIdsAreRequested | climada/hazard/test/test_base.py:361-417 | the events selected by ids are exactly the events whose id is requested |
| Selection.IdsFractionZero | climada/hazard/test/test_base.py:361-417 | the fraction is zero on the events selected by ids exactly when it is zero on every event with a requested id |
| Selection.SelectByIdsFails | climada/hazard/test/test_base.py:361-417 | select by ids fails exactly when some requested id exists, there are centroids, and the fraction is non-zero but zero on every event with a requested id |
| Selection.FirstEventsNamed | climada/hazard/test/test_base.py:332-359 | for each requested name, in order, the first event with that name, which carries it |
| Selection.NamesPositions | climada/hazard/test/test_base.py:332-359 | a name filter selects the first event with each requested name, in the requested order |
| Selection.SelectByNamesOutcome | climada/hazard/test/test_base.py:332-359 | select by names gives nothing exactly when a name is missing or there is no centroid, and fails exactly when all names exist, there are centroids, and the fraction is non-zero but zero on the first event of every name |
| Selection.MaskFractionZero | climada/hazard/test/test_base.py:419-568 | the fraction is zero on the positions a mask selects exactly when it is zero on every event the mask holds for |
| Selection.DateOrigSelected | climada/hazard/test/test_base.py:419-568 | a date or orig filter alone keeps every centroid and selects nothing exactly when no event passes, otherwise the passing events in order |
| Selection.PassingFractionZero | climada/hazard/test/test_base.py:419-568 | over every centroid, the fraction of the passing events is all zero exactly when each passing event's fraction row is |
| Selection.SelectByDateAndOrigFails | climada/hazard/test/test_base.py:419-568 | select by date and orig fails exactly when some event passes, there are centroids, and the fraction is non-zero but zero on every passing event |
| Selection.SelectByIdsInRequestedOrder | climada/hazard/test/test_base.py:361-417 | select by ids returns the existing requested ids in the requested order, each with that event's whole row, centroids, units and frequency unit unchanged; nothing exactly when no id exists or there is no centroid; an error exactly when the fraction is non-zero but zero on every event with a requested id |
| Selection.SelectByNamesInRequestedOrder | climada/hazard/test/test_base.py:332-359 | a hazard selected by names holds the names in the requested order, each with that event's whole row, centroids and units unchanged |
| Selection.SelectByDateAndOrig | climada/hazard/test/test_base.py:419-568 | select by date window and orig keeps exactly the events meeting both, in their original order, with their rows; nothing exactly when no event matches or there is no centroid; an error exactly when the fraction is non-zero but zero on every matching event |
| Selection.NonZeroCentroids | climada/hazard/test/test_base.py:618-674 | the centroids listed are exactly those where some event has a non-zero value |
| Selection.TightExtent | climada/hazard/test/test_base.py:618-674 | the box widened by buffer contains every listed centroid, and each of its four sides, less the buffer, is the coordinate of a listed centroid |
| Selection.InBoxIffWithinRange | climada/hazard/test/test_base.py:618-674 | a point lies in the tight box exactly when, in longitude and latitude, it is within the buffer of the smallest and the largest coordinate of the listed centroids |
| Selection.TightKeepsWithin | climada/hazard/test/test_base.py:618-674 | the centroids the tight box keeps are exactly those within the widened range of the centroids with a non-zero value |
| Selection.NoNonZeroCentroidIffZero | climada/hazard/test/test_base.py:618-674 | no centroid has a non-zero value exactly when the matrix is all zero |
| Selection.TightBoxHoldsNonZero | climada/hazard/test/test_base.py:618-674 | every centroid with a non-zero value lies in the tight box |
| Selection.SelectKeepsAllEvents | climada/hazard/test/test_base.py:618-674 | a selection on centroids alone keeps every event array as it is |
| Selection.SelectTight | climada/hazard/test/test_base.py:618-674 | select_tight reports "no non-zero centroid" exactly when the chosen matrix is all zero, and a success always holds a hazard |
| Selection.TightSelectsAll | climada/hazard/test/test_base.py:618-674 | a tight selection keeps every event, in order, and at least one centroid |
| Selection.TightColumnsZero | climada/hazard/test/test_base.py:618-674 | the fraction is zero at every centroid the tight box keeps exactly when it is zero at every centroid within the widened range |
| Selection.AllEventsColumnsZero | climada/hazard/test/test_base.py:618-674 | over all events, a projection's fraction is all zero exactly when every event's fraction is zero at every kept column |
| Selection.SelectTightKeepsNonZero | climada/hazard/test/test_base.py:618-674 | select_tight reports "no non-zero centroid" exactly when the chosen matrix is all zero; its only other error is a zeroed fraction; a success is a hazard with every event; it keeps every centroid with a non-zero value and exactly the centroids within the widened range of those |
| Selection.SelectTightFails | climada/hazard/test/test_base.py:618-674 | select_tight fails on a zeroed fraction exactly when the chosen matrix and the fraction are non-zero but the fraction is zero at every centroid within the widened range |
| Selection.SelectTightOnFraction | climada/hazard/test/test_base.py:618-674 | a tight selection on a non-zero fraction always succeeds |
| Concatenation.Coords | climada/hazard/test/test_base.py:765-818 | the places of the centroids, one per centroid |
| Concatenation.AddCentroids | climada/hazard/test/test_base.py:765-897 | adding centroids keeps the list so far as a prefix, covers every added place, and keeps places distinct |
| Concatenation.UnionFrom | climada/hazard/test/test_base.py:765-897 | the union of several lists keeps the start, covers every place and keeps places distinct |
| Concatenation.Union | climada/hazard/test/test_base.py:765-897 | the merged centroids hold every place of every list, each once |
| Concatenation.AddKnown | climada/hazard/test/test_base.py:765-818 | adding centroids at known places adds nothing |
| Concatenation.AddNew | climada/hazard/test/test_base.py:844-897 | adding centroids at new, distinct places appends them all |
| Concatenation.UnionOfTwo | climada/hazard/test/test_base.py:765-897 | the union of two lists adds the second to the first |
| Concatenation.UnionDisjoint | climada/hazard/test/test_base.py:844-897 | the union of two lists at distinct places is their concatenation |
| Concatenation.UnionSame | climada/hazard/test/test_base.py:765-818 | the union with a list at the same places is the first list |
| Concatenation.GatherSize | climada/hazard/test/test_base.py:844-897 | the gathered per-event arrays have one entry per event of all hazards |
| Concatenation.GatherTwo | climada/hazard/test/test_base.py:902-963 | gathering two hazards' arrays concatenates them |
| Concatenation.CentroidLists | climada/hazard/test/test_base.py:765-897 | the centroid list of each hazard, in order |
| Concatenation.ColumnMap | climada/hazard/test/test_base.py:844-897 | each centroid is sent to the merged column at its place |
| Concatenation.Relaid | climada/hazard/test/test_base.py:844-897 | a relaid matrix has one row per event and one column per merged centroid |
| Concatenation.StackedRows | climada/hazard/test/test_base.py:844-897 | the stacked matrices have one row per event of all hazards, each as wide as the merged centroids |
| Concatenation.StackedTwo | climada/hazard/test/test_base.py:902-963 | the stacked matrix of two hazards is the first's relaid rows, then the second's |
| Concatenation.FirstNonEmpty | climada/hazard/test/test_base.py:1040-1055 | the merged type or unit is empty only when all are, is one of them, and is the common value of the non-empty ones |
| Concatenation.FirstCheckError | climada/hazard/test/test_base.py:734-763 | no error exactly when every hazard passes check; an error is check's error for one of them |
| Concatenation.Merged | climada/hazard/test/test_base.py:786-818 | the merged hazard passes check, holds the events of all hazards, has each place once and covers every centroid; unique ids are kept |
| Concatenation.Merge | climada/hazard/test/test_base.py:820-842 | append fails exactly when some hazard fails check or the hazards disagree; a check error is that of an input; a success passes check and holds every event |
| Concatenation.ColumnMapSpan | climada/hazard/test/test_base.py:844-897 | centroids whose places form a run of the merged list map onto that run of columns |
| Concatenation.RelaidSpan | climada/hazard/test/test_base.py:844-897 | relaid onto a run of columns, a matrix is padded with zero columns on both sides |
| Concatenation.MergedTwo | climada/hazard/test/test_base.py:902-963 | appending one hazard to another keeps the first's frequency unit and CRS, unites the centroids, concatenates the event arrays and renumbers colliding ids 1..n |
| Concatenation.MergedTwoScalars | climada/hazard/test/test_base.py:965-1019 | two agreeing hazards merge into each non-empty type and unit, and into their common frequency unit and CRS |
| Concatenation.MergedTwoMatrix | climada/hazard/test/test_base.py:902-963 | each merged matrix is the first hazard's relaid rows over the second's |
| Concatenation.SameIgnoringEmptyPair | climada/hazard/test/test_base.py:1040-1055 | two types or units agree exactly when one is empty or they are equal |
| Concatenation.AllSamePair | climada/hazard/test/test_base.py:1040-1055 | two frequency units or CRSs agree exactly when they are equal |
| Concatenation.RelaidDisjoint | climada/hazard/test/test_base.py:844-897 | on disjoint centroids the first hazard's matrix gets zero columns on the right, the second's on the left |
| Concatenation.RelaidOwnPlaces | climada/hazard/test/test_base.py:765-818 | relaid onto its own places, a matrix is unchanged |
| Concatenation.RelaidSame | climada/hazard/test/test_base.py:765-818 | relaid onto a list at the same places, a matrix is unchanged |
| Concatenation.AppendIncompatible | climada/hazard/test/test_base.py:820-842 | append fails with the first disagreement among type, frequency unit, units and CRS, and succeeds exactly when all agree |
| Concatenation.MergeCompatible | climada/hazard/test/test_base.py:765-818 | valid, agreeing hazards append to the merged hazard |
| Concatenation.EmptyAfterMatrix | climada/hazard/test/test_base.py:734-763 | appending an empty hazard after a hazard leaves each of its matrices as it is |
| Concatenation.EmptyBeforeMatrix | climada/hazard/test/test_base.py:734-763 | appending a hazard to an empty one leaves each of its matrices as it is |
| Concatenation.FirstNonEmptyPair | climada/hazard/test/test_base.py:734-763 | a value merged with an empty or equal one is kept in either order |
| Concatenation.EmptyCompanionCompatible | climada/hazard/test/test_base.py:734-763 | an empty hazard with agreeing attributes is compatible in either order |
| Concatenation.AppendEmptyAfter | climada/hazard/test/test_base.py:734-763 | appending an empty hazard to a hazard gives that hazard back |
| Concatenation.MergedEmptyFirst | climada/hazard/test/test_base.py:734-763 | merging an empty hazard in front of h keeps h's attributes, centroids and event arrays |
| Concatenation.AppendToEmpty | climada/hazard/test/test_base.py:734-763 | appending a hazard to an empty hazard gives that hazard |
| Concatenation.AppendDisjointCentroids | climada/hazard/test/test_base.py:844-963 | appending on other centroids concatenates the centroid lists, puts each hazard's matrix on its own columns with zeros elsewhere, concatenates the event arrays and renumbers colliding ids |
| Concatenation.AppendSameCentroids | climada/hazard/test/test_base.py:765-818 | appending on the same centroids keeps them and stacks the matrices and event arrays |
| Concatenation.SameCentroidsMatrix | climada/hazard/test/test_base.py:765-818 | on the same centroids each merged matrix is the first hazard's rows over the second's |
| Concatenation.EmptyLike | climada/hazard/test/test_base.py:965-1019 | concat's starting hazard has no events and no centroids and passes check |
| Concatenation.Concat | climada/hazard/test/test_base.py:965-1055 | concat of no hazard is a hazard without events; a success passes check and holds every event of the list |
| Concatenation.SameIgnoringEmptyRepeat | climada/hazard/test/test_base.py:1040-1055 | repeating the first type or unit in front changes no agreement |
| Concatenation.AllSameRepeat | climada/hazard/test/test_base.py:1040-1055 | repeating the first frequency unit or CRS in front changes no agreement |
| Concatenation.FirstNonEmptyRepeat | climada/hazard/test/test_base.py:1040-1055 | repeating the first type or unit in front changes no merged value |
| Concatenation.EmptyFrontScalars | climada/hazard/test/test_base.py:965-1019 | an empty copy of the first hazard in front repeats the first type, unit, frequency unit and CRS |
| Concatenation.EmptyFrontCentroids | climada/hazard/test/test_base.py:965-1019 | an empty copy of the first hazard in front keeps every hazard valid and adds no centroid |
| Concatenation.EmptyFrontEvents | climada/hazard/test/test_base.py:965-1019 | an empty copy of the first hazard in front adds no event to any per-event array |
| Concatenation.GatherEmptyFront | climada/hazard/test/test_base.py:965-1019 | an empty hazard in front adds no event |
| Concatenation.MergedEmptyFront | climada/hazard/test/test_base.py:965-1019 | merging with an empty copy of the first hazard in front gives the same hazard |
| Concatenation.EmptyFrontChecks | climada/hazard/test/test_base.py:1040-1055 | an empty copy in front changes neither check's verdict nor the first check error |
| Concatenation.EmptyFrontAgrees | climada/hazard/test/test_base.py:1040-1055 | an empty copy in front changes no compatibility test |
| Concatenation.ConcatIsAppend | climada/hazard/test/test_base.py:965-1055 | concat of a non-empty list equals appending the rest to the first, errors included |
| Concatenation.ConcatSameCentroids | climada/hazard/test/test_base.py:965-1019 | concat of two hazards on the same centroids stacks matrices and event arrays, keeps the centroids, the CRS, the second's frequency unit and each non-empty type and unit, and turns ids 1 and 1 into 1, 2 |
| Concatenation.CollidingIds | climada/hazard/test/test_base.py:965-1019 | ids 1 and 1 collide and are renumbered 1, 2 |
| Concatenation.Keys | climada/hazard/test/test_base.py:238-260 | the (name, date) of each event |
| Concatenation.KeepEvents | climada/hazard/test/test_base.py:238-260 | keeping the chosen events takes their whole rows in that order and keeps centroids and scalars |
| Concatenation.KeepEventsKeys | climada/hazard/test/test_base.py:238-260 | the (name, date) of the kept events are those at the chosen positions |
| Concatenation.KeepEventsValid | climada/hazard/test/test_base.py:238-260 | keeping events at increasing positions of a hazard that passes check gives one that passes check |
| Concatenation.RemoveDuplicates | climada/hazard/test/test_base.py:238-327 | after remove_duplicates no two events share name and date, every (name, date) is still present, the first occurrences are kept in order, centroids and scalars are unchanged, and a valid hazard stays valid |
| Concatenation.KeepFirstEvents | climada/hazard/test/test_base.py:238-260 | keeping the first n events of a hazard that begins with h's gives h |
| Concatenation.RemoveDuplicatesKeepsFirst | climada/hazard/test/test_base.py:238-327 | when later events repeat earlier (name, date)s, remove_duplicates keeps exactly the earlier ones |
| Concatenation.RemoveDuplicatesOfRepeat | climada/hazard/test/test_base.py:238-260 | a hazard's events followed by repeats lose the repeats |
| Concatenation.RenumberedPrefix | climada/hazard/test/test_base.py:902-963 | ids 1..n keep their place at the front whether or not the merged ids are renumbered |
| Concatenation.SelfAppend | climada/hazard/test/test_base.py:238-260 | a hazard appended to itself keeps its attributes and centroids and has every event twice, matrices stacked |
| Concatenation.SelfAppendThenRemoveDuplicates | climada/hazard/test/test_base.py:238-260 | appending a hazard to itself and removing duplicates gives the hazard back |
| Concatenation.RemoveDuplicatesOfPadded | climada/hazard/test/test_base.py:262-327 | removing duplicates from the block layout keeps the first hazard's events, padded with zero columns |
| Concatenation.SameEventsThenRemoveDuplicates | climada/hazard/test/test_base.py:262-327 | appending the same events on new centroids and removing duplicates gives the first hazard's events, with zero intensity and fraction on the new centroids, and keeps its frequency unit and its non-empty type and unit |
| HazardObject.Hazard.constructor | climada/hazard/test/test_base.py:98-110 | a new hazard holds the given record with the defaults; a missing fraction is zero and of intensity's shape |
| HazardObject.Hazard.Store | climada/hazard/test/test_base.py:786-818 | after storing a record, the hazard's fields are that record |
| HazardObject.Hazard.Append | climada/hazard/test/test_base.py:786-818 | append replaces the receiver by the merge of itself and the others, or keeps it and reports the error; on success it passes check and holds every event |
| HazardObject.Hazard.RemoveDuplicates | climada/hazard/test/test_base.py:238-245 | remove_duplicates replaces the receiver by its first occurrences; no (name, date) repeats afterwards and validity is kept |
| HazardObject.Hazard.CheckMatrices | climada/hazard/test/test_base.py:208-232 | check_matrices leaves the entries unchanged and fails, with the shape error, exactly when fraction is non-zero and of another shape |

## Left out

- Loading from Excel or HDF5, `calc_year_set`, `get_event_date` and date strings. They depend on data files and calendar conversion. The model takes dates as integer ordinals.
- Date strings in `select`, and the `TypeError` for dates that are neither strings nor numbers. Date parsing is not modelled.
- The CSR storage format, canonical format and explicit zeros. Matrices are dense; pruning in `check_matrices` changes no entry, so the method keeps the state.
- ErrorMessages.Message: the texts are written out, but no lemma states them against the texts the tests expect. Only the decimal form of the sizes is proved.
- Values are reals. Floating-point rounding is not modelled.
- The CRS is an EPSG code. Parsing and normalising CRS strings is not modelled.
- Attributes that exist only on one hazard (`new_var`, test lines 1021-1029) are not propagated by append. The record has a fixed set of fields.
- The `TypeError` when appending a hazard of another class, such as `TropCyclone`. The model has one hazard class.
- HazardObject.Hazard.Append: it takes the other hazards as values, so aliasing between the receiver and an argument is not modelled.
- Selection.SelectTight: the bounding box is plain latitude and longitude plus a buffer. Antimeridian handling and geometric distance are not modelled.
- `change_centroids` and `reproject_vector`. They rely on geometric distance and projection libraries.
- `local_exceedance_intensity` and `local_return_period`. These are floating-point interpolation with NaNs.
- `get_mdr` and `get_paa`. They depend on the impact function's interpolation, which is not part of this model.
- Plotting (`climada/util/test/test_plot.py`). It is glue over plotting libraries.
- The `ProcessPool` import. It is unused.
