/** The series a dated property stages, followed from its bands to the snapshots: stepping,
    narrowing and the as-of join together read back the band in force. */
module DatedSeries {
  import opened Common
  import opened PlexosDates
  import opened PlexosHorizon
  import opened DatedProperties

  function LabelledRowOf(step: Step): SeriesRow {
    SeriesRow(step.at, step.row.childObject, Some(UNSAMPLED_SENTINEL), step.row.value)
  }

  function ColumnKey(key: PropertyKey): SeriesKey { SeriesKey(key.childObject, None) }

  function OwnerOf(key: PropertyKey): StagedKey { StagedKey(key.childClass, key.property) }

  ghost predicate IsStepping(resolved: seq<DatedRow>, key: PropertyKey, window: Window) {
    key in PropertyKeys(resolved) && |StepsOf(resolved, key, window)| > 1
  }

  ghost predicate ReadsNoDataFile(resolved: seq<DatedRow>, key: PropertyKey, window: Window)
    requires key in PropertyKeys(resolved)
  {
    StepsOf(resolved, key, window)[0].row.dataFile.None?
  }

  /** The property is staged as steps, in the column `key` is staged in. */
  ghost predicate StepsIntoColumnOf(resolved: seq<DatedRow>, window: Window, key: PropertyKey, other: PropertyKey) {
    && IsStepping(resolved, other, window)
    && ReadsNoDataFile(resolved, other, window)
    && OwnerOf(other) == OwnerOf(key) && other.childObject == key.childObject
  }

  /** No other property steps into the same column of the same staged series. */
  ghost predicate HasColumnToItself(resolved: seq<DatedRow>, key: PropertyKey, window: Window) {
    forall other :: StepsIntoColumnOf(resolved, window, key, other) ==> other == key
  }

  lemma {:induction false} SteppedRowsMembers(resolved: seq<DatedRow>, keys: seq<PropertyKey>, window: Window, step: Step)
    requires forall key :: key in keys ==> key in PropertyKeys(resolved)
    ensures step in SteppedRows(resolved, keys, window) <==>
            exists key :: key in keys && IsStepping(resolved, key, window) && step in StepsOf(resolved, key, window)
  {
    hide StepsOf;
    if |keys| != 0 {
      var front, last := keys[..|keys| - 1], keys[|keys| - 1];
      SteppedRowsMembers(resolved, front, window, step);
      assert keys == front + [last];
      if step in SteppedRows(resolved, keys, window) && step !in SteppedRows(resolved, front, window) {
        assert last in keys && IsStepping(resolved, last, window) && step in StepsOf(resolved, last, window);
      }
    }
  }

  lemma StepsIdentifyTheirProperty(resolved: seq<DatedRow>, key: PropertyKey, window: Window, step: Step)
    requires key in PropertyKeys(resolved) && step in StepsOf(resolved, key, window)
    ensures IdentifyProperty(step.row) == key
    ensures step.row.dataFile.None? <==> ReadsNoDataFile(resolved, key, window)
  {
    var i := StepsShareTheFirstOpeningRow(resolved, key, window);
    assert StepsOf(resolved, key, window)[0] in StepsOf(resolved, key, window);
  }

  function StreamedRows(resolved: seq<DatedRow>, window: Window, staged: set<StagedKey>, owner: StagedKey): seq<SeriesRow> {
    SteppedFrame(Group(Filter(SteppedRows(resolved, PropertyKeys(resolved), window), Streams(staged)), StagedKeyOf, owner))
  }

  lemma ColumnRowIsAStep(resolved: seq<DatedRow>, window: Window, staged: set<StagedKey>, key: PropertyKey, row: SeriesRow)
    returns (other: PropertyKey, step: Step)
    requires row in Group(Labelled(StreamedRows(resolved, window, staged, OwnerOf(key))), KeyOf, LabelledKey(ColumnKey(key)))
    ensures StepsIntoColumnOf(resolved, window, key, other)
    ensures step in StepsOf(resolved, other, window) && row == LabelledRowOf(step)
  {
    hide StepsOf, SteppedRows;
    var stepped := SteppedRows(resolved, PropertyKeys(resolved), window);
    var steps := Group(Filter(stepped, Streams(staged)), StagedKeyOf, OwnerOf(key));
    var labelled := Labelled(SteppedFrame(steps));
    assert row in labelled && HasKey(KeyOf, LabelledKey(ColumnKey(key)))(row);
    var i :| 0 <= i < |labelled| && labelled[i] == row;
    step := steps[i];
    assert step in steps && row == LabelledRowOf(step);
    assert Streams(staged)(step) && HasKey(StagedKeyOf, OwnerOf(key))(step);
    SteppedRowsMembers(resolved, PropertyKeys(resolved), window, step);
    other :| other in PropertyKeys(resolved) && IsStepping(resolved, other, window) && step in StepsOf(resolved, other, window);
    StepsIdentifyTheirProperty(resolved, other, window, step);
  }

  lemma StepIsAColumnRow(resolved: seq<DatedRow>, window: Window, staged: set<StagedKey>, key: PropertyKey, step: Step)
    requires IsStepping(resolved, key, window) && ReadsNoDataFile(resolved, key, window) && OwnerOf(key) !in staged
    requires step in StepsOf(resolved, key, window)
    ensures LabelledRowOf(step)
            in Group(Labelled(StreamedRows(resolved, window, staged, OwnerOf(key))), KeyOf, LabelledKey(ColumnKey(key)))
  {
    hide StepsOf, SteppedRows;
    var stepped := SteppedRows(resolved, PropertyKeys(resolved), window);
    var steps := Group(Filter(stepped, Streams(staged)), StagedKeyOf, OwnerOf(key));
    var labelled := Labelled(SteppedFrame(steps));
    SteppedRowsMembers(resolved, PropertyKeys(resolved), window, step);
    StepsIdentifyTheirProperty(resolved, key, window, step);
    assert Streams(staged)(step) && HasKey(StagedKeyOf, OwnerOf(key))(step);
    var i :| 0 <= i < |steps| && steps[i] == step;
    assert labelled[i] == LabelledRowOf(step);
    assert HasKey(KeyOf, LabelledKey(ColumnKey(key)))(labelled[i]);
  }

  /** At every moment of the window the latest row of a column states the value in force of a
      property that steps into it. */
  lemma LatestRowStatesAValue(resolved: seq<DatedRow>, window: Window, staged: set<StagedKey>, key: PropertyKey, moment: Moment)
    returns (other: PropertyKey)
    requires StepsIntoColumnOf(resolved, window, key, key) && OwnerOf(key) !in staged
    requires window.start <= moment < window.end
    ensures StepsIntoColumnOf(resolved, window, key, other)
    ensures
      var group := Group(Labelled(StreamedRows(resolved, window, staged, OwnerOf(key))), KeyOf, LabelledKey(ColumnKey(key)));
      var latest := LatestOf(group, SnapshotOf, AtOrBefore(moment));
      latest.Some? && IsValueInForce(RowsOf(resolved, other), moment, latest.value.value)
  {
    hide StreamedRows, Group, LatestOf, IsValueInForce, ReadsNoDataFile, PropertyKeys, StepsWithin, OpeningOrder;
    var group := Group(Labelled(StreamedRows(resolved, window, staged, OwnerOf(key))), KeyOf, LabelledKey(ColumnKey(key)));
    var opening := StepsOf(resolved, key, window)[0];
    StepIsAColumnRow(resolved, window, staged, key, opening);
    assert AtOrBefore(moment)(LabelledRowOf(opening));
    var latest := LatestOf(group, SnapshotOf, AtOrBefore(moment)).value;
    var last: Step;
    other, last := ColumnRowIsAStep(resolved, window, staged, key, latest);
    var steps := StepsOf(resolved, other, window);
    var j :| 0 <= j < |steps| && steps[j] == last;
    LastStepIsInForce(resolved, window, staged, key, other, moment, latest, j);
    StepsRefineLookup(RowsOf(resolved, other), window, moment, j);
  }

  /** Where a column's latest row is a step, that step is in force. */
  lemma LastStepIsInForce(resolved: seq<DatedRow>, window: Window, staged: set<StagedKey>, key: PropertyKey, other: PropertyKey,
                          moment: Moment, latest: SeriesRow, j: nat)
    requires StepsIntoColumnOf(resolved, window, key, other) && OwnerOf(key) !in staged
    requires
      var group := Group(Labelled(StreamedRows(resolved, window, staged, OwnerOf(key))), KeyOf, LabelledKey(ColumnKey(key)));
      LatestOf(group, SnapshotOf, AtOrBefore(moment)) == Some(latest)
    requires j < |StepsOf(resolved, other, window)| && latest == LabelledRowOf(StepsOf(resolved, other, window)[j])
    ensures IsStepInForce(StepsOf(resolved, other, window), moment, j)
  {
    hide StreamedRows, Group, LatestOf, ReadsNoDataFile, PropertyKeys, OpeningOrder;
    var steps := StepsOf(resolved, other, window);
    assert AtOrBefore(moment)(latest);
    var k := StepInForceExists(steps, moment);
    StepIsAColumnRow(resolved, window, staged, other, steps[k]);
    assert AtOrBefore(moment)(LabelledRowOf(steps[k]));
    assert SnapshotOf(LabelledRowOf(steps[k])) <= SnapshotOf(latest);
  }

  lemma ColumnIsKept(series: seq<SeriesRow>, key: SeriesKey, index: seq<Moment>, row: SeriesRow)
    requires IsAscending(index) && |index| > 0
    requires key.sample.None? && row in Group(Labelled(series), KeyOf, LabelledKey(key))
    requires row.snapshot <= index[0]
    ensures key in ReconcileToHorizon(series, index)
  {
    hide ReconcileToHorizon, Labelled, Filter;
    assert HasKey(KeyOf, LabelledKey(key))(row);
    assert index[0] <= index[|index| - 1];
    KeyIsThere(series, index, key, row);
  }

  /** `value` is in force at the moment for some property that steps into the column. */
  ghost predicate IsInForceForSome(resolved: seq<DatedRow>, window: Window, key: PropertyKey, moment: Moment, value: Option<real>) {
    exists other :: StepsIntoColumnOf(resolved, window, key, other) && IsValueInForce(RowsOf(resolved, other), moment, value)
  }

  /** The reindexed column is filled from one of the values in force at each snapshot. */
  lemma ReindexedColumnIsFilledFromValuesInForce(
    resolved: seq<DatedRow>, window: Window, staged: set<StagedKey>, horizon: Horizon, key: PropertyKey)
    returns (column: seq<Option<real>>)
    requires horizon.interval > 0 && |SnapshotIndex(horizon, window)| > 0
    requires StepsIntoColumnOf(resolved, window, key, key) && OwnerOf(key) !in staged
    ensures |column| == |SnapshotIndex(horizon, window)|
    ensures forall i :: 0 <= i < |column| ==>
              IsInForceForSome(resolved, window, key, SnapshotIndex(horizon, window)[i], column[i])
    ensures
      var frame := ReconcileToHorizon(StreamedRows(resolved, window, staged, OwnerOf(key)), SnapshotIndex(horizon, window));
      ColumnKey(key) in frame && frame[ColumnKey(key)] == Filled(column)
  {
    hide StepsOf, StreamedRows, ReconcileToHorizon, Filled, IsValueInForce, LatestOf, HorizonIndex, SaidAt, StepsIntoColumnOf, Group;
    var index := SnapshotIndex(horizon, window);
    var series := StreamedRows(resolved, window, staged, OwnerOf(key));
    SnapshotIndexIsTheHorizonInTheWindow(horizon, window);
    assert index[0] in index;
    OpeningStepIsAColumnRow(resolved, window, staged, key, index);
    ReconciledColumnIsWhatTheSeriesSays(series, index, ColumnKey(key));
    column := SaidOnGrid(series, ColumnKey(key), index);
    forall i | 0 <= i < |index| ensures IsInForceForSome(resolved, window, key, index[i], column[i]) {
      assert index[i] in index;
      var other := LatestRowStatesAValue(resolved, window, staged, key, index[i]);
      SaidIsTheLatest(series, ColumnKey(key), index[i]);
    }
  }

  lemma OpeningStepIsAColumnRow(resolved: seq<DatedRow>, window: Window, staged: set<StagedKey>, key: PropertyKey, index: seq<Moment>)
    requires StepsIntoColumnOf(resolved, window, key, key) && OwnerOf(key) !in staged
    requires IsAscending(index) && |index| > 0 && window.start <= index[0]
    ensures ColumnKey(key) in ReconcileToHorizon(StreamedRows(resolved, window, staged, OwnerOf(key)), index)
  {
    hide StreamedRows, ReconcileToHorizon, Group;
    var opening := StepsOf(resolved, key, window)[0];
    StepIsAColumnRow(resolved, window, staged, key, opening);
    ColumnIsKept(StreamedRows(resolved, window, staged, OwnerOf(key)), ColumnKey(key), index, LabelledRowOf(opening));
  }

  /** What the property reads as at a moment. */
  function InForceAt(resolved: seq<DatedRow>, key: PropertyKey, moment: Moment): Option<real> {
    ReadValueAt(OpeningOrder(RowsOf(resolved, key)), moment)
  }

  lemma InForceAtIsInForce(resolved: seq<DatedRow>, key: PropertyKey, moment: Moment, value: Option<real>)
    ensures IsValueInForce(RowsOf(resolved, key), moment, value) <==> InForceAt(resolved, key, moment) == value
  {
    hide IsValueInForce, RowsOf;
    ReadValueIsTheValueInForce(RowsOf(resolved, key), moment);
    if IsValueInForce(RowsOf(resolved, key), moment, value) {
      ValueInForceIsUnique(RowsOf(resolved, key), moment, InForceAt(resolved, key, moment), value);
    }
  }

  function ValuesInForce(resolved: seq<DatedRow>, key: PropertyKey, index: seq<Moment>): (r: seq<Option<real>>)
    ensures |r| == |index|
    ensures forall i :: 0 <= i < |r| ==> r[i] == InForceAt(resolved, key, index[i])
  {
    seq(|index|, i requires 0 <= i < |index| => InForceAt(resolved, key, index[i]))
  }

  /** End to end: the reindexed series of a stepped property is, snapshot by snapshot, the value of
      the latest-opening band covering it, or zero where none does. Only a null value there is
      replaced, by a neighbour's. */
  lemma ReindexedSeriesHoldsTheValueInForce(
    resolved: seq<DatedRow>, window: Window, staged: set<StagedKey>, horizon: Horizon, key: PropertyKey)
    requires horizon.interval > 0 && |SnapshotIndex(horizon, window)| > 0
    requires StepsIntoColumnOf(resolved, window, key, key) && OwnerOf(key) !in staged
    requires HasColumnToItself(resolved, key, window)
    ensures
      var index := SnapshotIndex(horizon, window);
      var frame := ReconcileToHorizon(StreamedRows(resolved, window, staged, OwnerOf(key)), index);
      && ColumnKey(key) in frame
      && frame[ColumnKey(key)] == Filled(ValuesInForce(resolved, key, index))
      && forall i :: 0 <= i < |index| && InForceAt(resolved, key, index[i]).Some? ==>
           frame[ColumnKey(key)][i] == InForceAt(resolved, key, index[i])
           && IsValueInForce(RowsOf(resolved, key), index[i], frame[ColumnKey(key)][i])
  {
    hide StepsOf, StreamedRows, ReconcileToHorizon, IsValueInForce, SnapshotIndex, StepsIntoColumnOf, InForceAt, RowsOf, Filled;
    var index := SnapshotIndex(horizon, window);
    var column := ReindexedColumnIsFilledFromValuesInForce(resolved, window, staged, horizon, key);
    forall i | 0 <= i < |index| ensures column[i] == InForceAt(resolved, key, index[i]) {
      InForceAtIsInForce(resolved, key, index[i], column[i]);
    }
    assert column == ValuesInForce(resolved, key, index);
    forall i | 0 <= i < |index| && column[i].Some? ensures Filled(column)[i] == column[i] {
      FilledMeaning(column, i);
      InForceAtIsInForce(resolved, key, index[i], column[i]);
    }
    forall i | 0 <= i < |index| ensures IsValueInForce(RowsOf(resolved, key), index[i], column[i]) {
      InForceAtIsInForce(resolved, key, index[i], column[i]);
    }
  }

  // ---- Properties that share a column ----

  /** Properties that differ only in their parent or their band are staged in one column. It holds
      the value in force of every one of them at a snapshot exactly when they all agree on it. */
  lemma SharedColumnHoldsEveryPropertyExactlyWhenTheyAgree(
    resolved: seq<DatedRow>, window: Window, staged: set<StagedKey>, horizon: Horizon, key: PropertyKey, i: nat)
    requires horizon.interval > 0 && i < |SnapshotIndex(horizon, window)|
    requires StepsIntoColumnOf(resolved, window, key, key) && OwnerOf(key) !in staged
    requires forall other :: StepsIntoColumnOf(resolved, window, key, other) ==>
               InForceAt(resolved, other, SnapshotIndex(horizon, window)[i]).Some?
    ensures
      var moment := SnapshotIndex(horizon, window)[i];
      var frame := ReconcileToHorizon(StreamedRows(resolved, window, staged, OwnerOf(key)), SnapshotIndex(horizon, window));
      && ColumnKey(key) in frame && i < |frame[ColumnKey(key)]|
      && ((forall other :: StepsIntoColumnOf(resolved, window, key, other) ==>
             IsValueInForce(RowsOf(resolved, other), moment, frame[ColumnKey(key)][i]))
          <==> forall other :: StepsIntoColumnOf(resolved, window, key, other) ==>
                 InForceAt(resolved, other, moment) == InForceAt(resolved, key, moment))
  {
    hide StepsOf, StreamedRows, ReconcileToHorizon, IsValueInForce, SnapshotIndex, StepsIntoColumnOf, InForceAt, RowsOf, Filled;
    var moment := SnapshotIndex(horizon, window)[i];
    var column := ReindexedColumnIsFilledFromValuesInForce(resolved, window, staged, horizon, key);
    assert IsInForceForSome(resolved, window, key, moment, column[i]);
    var holder :| StepsIntoColumnOf(resolved, window, key, holder) && IsValueInForce(RowsOf(resolved, holder), moment, column[i]);
    InForceAtIsInForce(resolved, holder, moment, column[i]);
    FilledMeaning(column, i);
    forall other ensures IsValueInForce(RowsOf(resolved, other), moment, column[i]) <==> InForceAt(resolved, other, moment) == column[i] {
      InForceAtIsInForce(resolved, other, moment, column[i]);
    }
  }

  // Two snapshots a day: midnight and noon.
  const NOON := 43_200_000_000
  const ONE_DAYS_HORIZON := Horizon(0, 2, NOON)
  const ONE_DAYS_WINDOW := Window(0, ONE_DAY)

  function RatingOf(band: string, value: real): DatedRow {
    DatedRow(DateBand(Some(NOON), None),
             PropertyRow("System", "System", "Generators", "Generator", "G", "Rating", Some(band), None, Some(value), map[]))
  }

  /** A rating of 10 all along, stated again from noon on: its one value still makes two steps. */
  lemma AnEdgeThatChangesNothingStillSteps()
    ensures
      var resolved := [RatingOf("1", 10.0).(dates := DateBand(None, None)), RatingOf("1", 10.0)];
      var key := IdentifyProperty(resolved[0].row);
      && key in PropertyKeys(resolved)
      && |StepsOf(resolved, key, ONE_DAYS_WINDOW)| > 1
      && !TakesTwoValues(OpeningOrder(RowsOf(resolved, key)), ONE_DAYS_WINDOW)
  {
    hide StepsOf, Filter;
    var resolved := [RatingOf("1", 10.0).(dates := DateBand(None, None)), RatingOf("1", 10.0)];
    var key := IdentifyProperty(resolved[0].row);
    assert resolved[0] in resolved && resolved[1] in resolved;
    assert KeyOfDated(resolved[0]) == key && KeyOfDated(resolved[1]) == key;
    forall row | row in resolved ensures HasKey(KeyOfDated, key)(row) {
      assert KeyOfDated(row) == key;
    }
    FilterAll(resolved, HasKey(KeyOfDated, key));
    assert resolved[1].dates.Edges() == {NOON} && NOON in BandEdges(RowsOf(resolved, key));
    StepsExactlyWhenAnEdgeIsInside(resolved, key, ONE_DAYS_WINDOW);
    forall moment ensures ReadValueAt(OpeningOrder(resolved), moment) == Some(10.0) {
      assert resolved[0] in OpeningOrder(resolved) && CoversMoment(moment)(resolved[0]);
    }
  }

  lemma OneRowOfItsBand(band: string, value: real, others: string, otherValue: real)
    requires band != others
    ensures var resolved := [RatingOf(band, value), RatingOf(others, otherValue)];
            RowsOf(resolved, IdentifyProperty(resolved[0].row)) == [resolved[0]]
    ensures var resolved := [RatingOf(others, otherValue), RatingOf(band, value)];
            RowsOf(resolved, IdentifyProperty(resolved[1].row)) == [resolved[1]]
  {
    hide Filter;
    var own, other := RatingOf(band, value), RatingOf(others, otherValue);
    var p := HasKey(KeyOfDated, IdentifyProperty(own.row));
    FilterConcat([own], [other], p);
    FilterConcat([other], [own], p);
    assert [own] + [other] == [own, other] && [other] + [own] == [other, own];
    assert KeyOfDated(other).band == Some(others) != KeyOfDated(own).band == Some(band);
    assert p(own) && !p(other);
    FilterAll([own], p);
    FilterNone([other], p);
    assert [own] + [] == [own] && [] + [own] == [own];
  }

  lemma RatingStepsAndHolds(resolved: seq<DatedRow>, key: PropertyKey, band: string, value: real)
    requires RowsOf(resolved, key) == [RatingOf(band, value)]
    ensures IsStepping(resolved, key, ONE_DAYS_WINDOW) && ReadsNoDataFile(resolved, key, ONE_DAYS_WINDOW)
    ensures InForceAt(resolved, key, NOON) == Some(value)
  {
    hide StepsOf;
    var rows, row := RowsOf(resolved, key), RatingOf(band, value);
    assert row.dates.Edges() == {NOON} && row in rows;
    assert NOON in BandEdges(rows);
    StepsExactlyWhenAnEdgeIsInside(resolved, key, ONE_DAYS_WINDOW);
    var i := StepsShareTheFirstOpeningRow(resolved, key, ONE_DAYS_WINDOW);
    assert StepsOf(resolved, key, ONE_DAYS_WINDOW)[0] in StepsOf(resolved, key, ONE_DAYS_WINDOW);
    assert IsLatest(rows, OpeningMoment, CoversMoment(NOON), 0) && row.dates.Covers(NOON);
    InForceAtIsInForce(resolved, key, NOON, Some(value));
  }

  /** Two bands of one property, 10 and 20 from noon on: at that snapshot their one column
      cannot hold both. */
  lemma TwoBandsOfOnePropertyCollide() returns (i: nat)
    ensures
      var resolved := [RatingOf("1", 10.0), RatingOf("2", 20.0)];
      var key, index := IdentifyProperty(resolved[0].row), SnapshotIndex(ONE_DAYS_HORIZON, ONE_DAYS_WINDOW);
      var frame := ReconcileToHorizon(StreamedRows(resolved, ONE_DAYS_WINDOW, {}, OwnerOf(key)), index);
      && i < |index| && index[i] == NOON
      && ColumnKey(key) in frame && i < |frame[ColumnKey(key)]|
      && exists other :: StepsIntoColumnOf(resolved, ONE_DAYS_WINDOW, key, other)
           && !IsValueInForce(RowsOf(resolved, other), NOON, frame[ColumnKey(key)][i])
  {
    hide StepsOf, StreamedRows, ReconcileToHorizon, IsValueInForce, RowsOf, InForceAt, SnapshotIndex;
    var resolved, window, horizon := [RatingOf("1", 10.0), RatingOf("2", 20.0)], ONE_DAYS_WINDOW, ONE_DAYS_HORIZON;
    var one, two := IdentifyProperty(resolved[0].row), IdentifyProperty(resolved[1].row);
    OneRowOfItsBand("1", 10.0, "2", 20.0);
    OneRowOfItsBand("2", 20.0, "1", 10.0);
    RatingStepsAndHolds(resolved, one, "1", 10.0);
    RatingStepsAndHolds(resolved, two, "2", 20.0);
    SnapshotIndexIsTheHorizonInTheWindow(horizon, window);
    assert HorizonIndex(horizon)[1] == NOON && NOON in HorizonIndex(horizon);
    var index := SnapshotIndex(horizon, window);
    i :| 0 <= i < |index| && index[i] == NOON;
    forall other | StepsIntoColumnOf(resolved, window, one, other) ensures InForceAt(resolved, other, NOON).Some? {
      assert other == one || other == two;
    }
    SharedColumnHoldsEveryPropertyExactlyWhenTheyAgree(resolved, window, {}, horizon, one, i);
    assert StepsIntoColumnOf(resolved, window, one, two);
    assert InForceAt(resolved, two, NOON) != InForceAt(resolved, one, NOON);
  }
}
