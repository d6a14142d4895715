/** A dated PLEXOS property, read for the window being translated
    (interop/plugins/sources/plexos_dated_properties.py). */
module DatedProperties {
  import opened Common
  import opened PlexosDates
  import opened PlexosHorizon

  /** One resolved row. `others` stands for every column that no rule here reads. */
  datatype PropertyRow = PropertyRow(
    parentClass: string,
    parentObject: string,
    collection: string,
    childClass: string,
    childObject: string,
    property: string,
    band: Option<string>,
    dataFile: Option<string>,
    value: Option<real>,
    others: map<string, string>)

  datatype DatedRow = DatedRow(dates: DateBand, row: PropertyRow)

  datatype PropertyKey = PropertyKey(
    parentClass: string,
    parentObject: string,
    collection: string,
    childClass: string,
    childObject: string,
    property: string,
    band: Option<string>)

  /** What a property's row becomes at a moment, and stays until a later step. */
  datatype Step = Step(at: Moment, row: PropertyRow)

  // The value between bands, and before the first and after the last.
  const NOT_IN_EFFECT: Option<real> := Some(0.0)

  function IdentifyProperty(row: PropertyRow): PropertyKey {
    PropertyKey(row.parentClass, row.parentObject, row.collection, row.childClass,
                row.childObject, row.property, row.band)
  }

  function OpeningMoment(dated: DatedRow): int { dated.dates.OpensAt() }

  function CoversMoment(moment: Moment): DatedRow -> bool {
    (dated: DatedRow) => dated.dates.Covers(moment)
  }

  function OpeningOrder(rows: seq<DatedRow>): seq<DatedRow> {
    StableSort(rows, OpeningMoment)
  }

  function ReadValueAt(ordered: seq<DatedRow>, moment: Moment): Option<real> {
    match LastMatch(ordered, CoversMoment(moment))
    case None => NOT_IN_EFFECT
    case Some(stating) => stating.row.value
  }

  function BandEdges(rows: seq<DatedRow>): set<Moment> {
    set dated, edge | dated in rows && edge in dated.dates.Edges() :: edge
  }

  /** The window's opening, and every band edge strictly inside it. */
  function ChangeMoments(ordered: seq<DatedRow>, window: Window): (r: seq<Moment>)
    ensures |r| > 0 && r[0] == window.start
    ensures forall i, j :: 0 <= i < j < |r| ==> r[i] < r[j]
    ensures forall m :: m in r <==>
              m == window.start || (m in BandEdges(ordered) && window.start < m < window.end)
  {
    var moments := {window.start} + set e | e in BandEdges(ordered) && window.start < e < window.end;
    var r := SortedSet(moments);
    assert window.start in r;
    r
  }

  /** One step per change moment: the first at the window's opening, each later than the last. */
  function StepsWithin(ordered: seq<DatedRow>, window: Window): (r: seq<Step>)
    requires |ordered| > 0
    ensures |r| > 0 && r[0].at == window.start
    ensures forall i, j :: 0 <= i < j < |r| ==> r[i].at < r[j].at
    ensures |r| == |ChangeMoments(ordered, window)| && forall i :: 0 <= i < |r| ==> r[i].at == ChangeMoments(ordered, window)[i]
    ensures forall i :: 0 <= i < |r| ==> r[i].row == ordered[0].row.(value := ReadValueAt(ordered, r[i].at))
  {
    var template := ordered[0].row;
    var moments := ChangeMoments(ordered, window);
    seq(|moments|, i requires 0 <= i < |moments| =>
      Step(moments[i], template.(value := ReadValueAt(ordered, moments[i]))))
  }

  // ---- The specification: the value of the latest-opening band covering a moment ----

  /** `value` is what `rows`, in the order the file states them, say of `moment`. */
  ghost predicate IsValueInForce(rows: seq<DatedRow>, moment: Moment, value: Option<real>) {
    if exists dated :: dated in rows && dated.dates.Covers(moment) then
      exists i :: IsLatest(rows, OpeningMoment, CoversMoment(moment), i) && rows[i].row.value == value
    else
      value == NOT_IN_EFFECT
  }

  lemma ReadValueIsTheValueInForce(rows: seq<DatedRow>, moment: Moment)
    ensures IsValueInForce(rows, moment, ReadValueAt(OpeningOrder(rows), moment))
  {
    var p := CoversMoment(moment);
    LastMatchOfSort(rows, OpeningMoment, p);
    if LatestOf(rows, OpeningMoment, p).Some? {
      var i := LatestPosition(rows, OpeningMoment, p);
    }
  }

  lemma ValueInForceIsUnique(rows: seq<DatedRow>, moment: Moment, a: Option<real>, b: Option<real>)
    requires IsValueInForce(rows, moment, a) && IsValueInForce(rows, moment, b)
    ensures a == b
  {
    if exists dated :: dated in rows && dated.dates.Covers(moment) {
      var p := CoversMoment(moment);
      var i :| IsLatest(rows, OpeningMoment, p, i) && rows[i].row.value == a;
      var j :| IsLatest(rows, OpeningMoment, p, j) && rows[j].row.value == b;
      LatestIsUnique(rows, OpeningMoment, p, i, j);
    }
  }

  ghost predicate HoldsByItsDates(dated: DatedRow, moment: Moment) {
    && (dated.dates.dateFrom.None? || dated.dates.dateFrom.value <= moment)
    && (dated.dates.dateTo.None? || moment < dated.dates.dateTo.value + 86_400_000_000)
  }

  ghost predicate BeginsNoLater(a: DatedRow, b: DatedRow) {
    || a.dates.dateFrom.None?
    || a.dates.dateFrom.value == 0
    || (b.dates.dateFrom.Some? && a.dates.dateFrom.value <= b.dates.dateFrom.value)
  }

  /** The same, said of the dates themselves: of the rows begun and not yet a full day past the
      start of the day they name as their last, the one begun last is read, the later one stated
      where two began together; with no such row the value is zero. */
  lemma ReadValueByTheDates(rows: seq<DatedRow>, moment: Moment)
    ensures
      var value := ReadValueAt(OpeningOrder(rows), moment);
      if forall dated :: dated in rows ==> !HoldsByItsDates(dated, moment) then value == Some(0.0)
      else exists i ::
             && 0 <= i < |rows| && HoldsByItsDates(rows[i], moment) && value == rows[i].row.value
             && forall j :: 0 <= j < |rows| && HoldsByItsDates(rows[j], moment) ==>
                  BeginsNoLater(rows[j], rows[i]) && (j <= i || !BeginsNoLater(rows[i], rows[j]))
  {
    hide ReadValueAt, OpeningOrder;
    ReadValueIsTheValueInForce(rows, moment);
    if dated :| dated in rows && dated.dates.Covers(moment) {
      var i :| IsLatest(rows, OpeningMoment, CoversMoment(moment), i)
               && rows[i].row.value == ReadValueAt(OpeningOrder(rows), moment);
      assert HoldsByItsDates(rows[i], moment);
      forall j | 0 <= j < |rows| && HoldsByItsDates(rows[j], moment)
        ensures BeginsNoLater(rows[j], rows[i]) && (j <= i || !BeginsNoLater(rows[i], rows[j]))
      {
        assert CoversMoment(moment)(rows[j]);
      }
    } else {
      forall dated | dated in rows ensures !HoldsByItsDates(dated, moment) {
        assert !dated.dates.Covers(moment);
      }
    }
  }

  /** A rating dated to one day is still read at noon of that day, and not at the next midnight. */
  lemma AOneDayRatingHoldsAllDay(row: PropertyRow)
    ensures var rows := [DatedRow(DateBand(Some(0), Some(0)), row)];
            && ReadValueAt(OpeningOrder(rows), 43_200_000_000) == row.value
            && ReadValueAt(OpeningOrder(rows), 86_400_000_000) == Some(0.0)
  {
    var rows := [DatedRow(DateBand(Some(0), Some(0)), row)];
    ReadValueByTheDates(rows, 43_200_000_000);
    ReadValueByTheDates(rows, 86_400_000_000);
  }

  // ---- The steps refine that lookup ----

  lemma {:induction false} LastMatchUnchangedBetweenEdges(rows: seq<DatedRow>, a: Moment, t: Moment)
    requires a <= t
    requires forall e :: e in BandEdges(rows) ==> !(a < e <= t)
    ensures LastMatch(rows, CoversMoment(a)) == LastMatch(rows, CoversMoment(t))
  {
    if |rows| != 0 {
      assert rows == [rows[0]] + rows[1..];
      forall e | e in BandEdges(rows[1..]) ensures e in BandEdges(rows) {}
      LastMatchUnchangedBetweenEdges(rows[1..], a, t);
      var dates := rows[0].dates;
      forall e | e in dates.Edges() ensures e in BandEdges(rows) {}
      assert dates.dateFrom.Some? ==> dates.dateFrom.value in dates.Edges();
      assert dates.dateTo.Some? ==> dates.dateTo.value + 86_400_000_000 in dates.Edges();
      CoversUnchangedBetweenEdges(rows[0].dates, a, t);
    }
  }

  /** `k` is the last step at or before `moment`. */
  ghost predicate IsStepInForce(steps: seq<Step>, moment: Moment, k: int) {
    && 0 <= k < |steps|
    && steps[k].at <= moment
    && (k + 1 < |steps| ==> moment < steps[k + 1].at)
  }

  lemma SameBetweenEdges(ordered: seq<DatedRow>, a: Moment, t: Moment)
    requires a <= t && forall e :: e in BandEdges(ordered) ==> !(a < e <= t)
    ensures ReadValueAt(ordered, a) == ReadValueAt(ordered, t)
  {
    LastMatchUnchangedBetweenEdges(ordered, a, t);
  }

  lemma StepReadsTheSame(ordered: seq<DatedRow>, window: Window, moment: Moment, k: int)
    requires |ordered| > 0 && window.start <= moment < window.end
    requires IsStepInForce(StepsWithin(ordered, window), moment, k)
    ensures ReadValueAt(ordered, moment) == StepsWithin(ordered, window)[k].row.value
  {
    hide ReadValueAt, StepsWithin, BandEdges, ChangeMoments;
    var steps, moments := StepsWithin(ordered, window), ChangeMoments(ordered, window);
    forall e | e in BandEdges(ordered) && steps[k].at < e ensures moment < e {
      if e < window.end {
        var j :| 0 <= j < |moments| && moments[j] == e;
        assert steps[j].at == e && k + 1 <= j;
      }
    }
    SameBetweenEdges(ordered, steps[k].at, moment);
  }

  /** Between two steps the value never moves, so the step in force states it for every moment
      of the window. */
  lemma StepsRefineLookup(rows: seq<DatedRow>, window: Window, moment: Moment, k: int)
    requires |rows| > 0
    requires window.start <= moment < window.end
    requires IsStepInForce(StepsWithin(OpeningOrder(rows), window), moment, k)
    ensures IsValueInForce(rows, moment, StepsWithin(OpeningOrder(rows), window)[k].row.value)
  {
    hide ReadValueAt, StepsWithin, IsValueInForce, IsStepInForce;
    assert rows[0] in OpeningOrder(rows);
    StepReadsTheSame(OpeningOrder(rows), window, moment, k);
    ReadValueIsTheValueInForce(rows, moment);
  }

  lemma StepInForceExists(steps: seq<Step>, moment: Moment) returns (k: int)
    requires |steps| > 0 && steps[0].at <= moment
    ensures IsStepInForce(steps, moment, k)
  {
    k := 0;
    while k + 1 < |steps| && steps[k + 1].at <= moment
      invariant 0 <= k < |steps| && steps[k].at <= moment
    {
      k := k + 1;
    }
  }

  // ---- Narrowing every property to one window ----

  function KeyOfDated(dated: DatedRow): PropertyKey { IdentifyProperty(dated.row) }

  /** Rows state one property exactly when they agree on its parent, its collection, its child, its
      name and its band; no other column tells properties apart. */
  lemma SamePropertyExactlyWhen(resolved: seq<DatedRow>, a: DatedRow, b: DatedRow)
    requires a in resolved && b in resolved
    ensures b in RowsOf(resolved, KeyOfDated(a)) <==>
            && a.row.parentClass == b.row.parentClass && a.row.parentObject == b.row.parentObject
            && a.row.collection == b.row.collection
            && a.row.childClass == b.row.childClass && a.row.childObject == b.row.childObject
            && a.row.property == b.row.property && a.row.band == b.row.band
  {
    assert b in RowsOf(resolved, KeyOfDated(a)) <==> HasKey(KeyOfDated, KeyOfDated(a))(b);
  }

  function PropertyKeys(resolved: seq<DatedRow>): seq<PropertyKey> {
    DistinctKeys(resolved, KeyOfDated)
  }

  function RowsOf(resolved: seq<DatedRow>, key: PropertyKey): (r: seq<DatedRow>)
    ensures |r| > 0 <==> key in PropertyKeys(resolved)
  {
    Group(resolved, KeyOfDated, key)
  }

  function StepsOf(resolved: seq<DatedRow>, key: PropertyKey, window: Window): (r: seq<Step>)
    requires key in PropertyKeys(resolved)
    ensures |r| > 0 && r[0].at == window.start
  {
    var rows := RowsOf(resolved, key);
    assert rows[0] in OpeningOrder(rows);
    StepsWithin(OpeningOrder(rows), window)
  }

  function InForceRows(resolved: seq<DatedRow>, keys: seq<PropertyKey>, window: Window): (r: seq<PropertyRow>)
    requires forall key :: key in keys ==> key in PropertyKeys(resolved)
    ensures |r| == |keys|
  {
    seq(|keys|, i requires 0 <= i < |keys| => StepsOf(resolved, keys[i], window)[0].row)
  }

  function SteppedRows(resolved: seq<DatedRow>, keys: seq<PropertyKey>, window: Window): seq<Step>
    requires forall key :: key in keys ==> key in PropertyKeys(resolved)
  {
    if |keys| == 0 then []
    else
      var steps := StepsOf(resolved, keys[|keys| - 1], window);
      SteppedRows(resolved, keys[..|keys| - 1], window) + (if |steps| > 1 then steps else [])
  }

  lemma OneMoreProperty(resolved: seq<DatedRow>, keys: seq<PropertyKey>, window: Window, n: nat)
    requires n < |keys| && forall key :: key in keys ==> key in PropertyKeys(resolved)
    ensures InForceRows(resolved, keys[..n + 1], window)
            == InForceRows(resolved, keys[..n], window) + [StepsOf(resolved, keys[n], window)[0].row]
    ensures SteppedRows(resolved, keys[..n + 1], window)
            == SteppedRows(resolved, keys[..n], window)
               + (if |StepsOf(resolved, keys[n], window)| > 1 then StepsOf(resolved, keys[n], window) else [])
  {
    hide StepsOf;
    assert keys[..n + 1][..n] == keys[..n];
  }

  method ApplyWindow(resolved: seq<DatedRow>, window: Window)
    returns (inForce: seq<PropertyRow>, stepped: seq<Step>)
    ensures inForce == InForceRows(resolved, PropertyKeys(resolved), window)
    ensures stepped == SteppedRows(resolved, PropertyKeys(resolved), window)
  {
    var keys, byProperty := GroupBy(resolved, KeyOfDated);
    inForce, stepped := [], [];
    for n := 0 to |keys|
      invariant inForce == InForceRows(resolved, keys[..n], window)
      invariant stepped == SteppedRows(resolved, keys[..n], window)
    {
      var rows := byProperty[keys[n]];
      assert rows == RowsOf(resolved, keys[n]);
      assert rows[0] in OpeningOrder(rows);
      var steps := StepsWithin(OpeningOrder(rows), window);
      OneMoreProperty(resolved, keys, window, n);
      inForce := inForce + [steps[0].row];
      if |steps| > 1 {
        stepped := stepped + steps;
      }
    }
    assert keys[..|keys|] == keys;
  }

  /** Every column of a step but the value comes from the property's earliest-opening row, the
      first stated where two open together. */
  lemma StepsShareTheFirstOpeningRow(resolved: seq<DatedRow>, key: PropertyKey, window: Window) returns (i: int)
    requires key in PropertyKeys(resolved)
    ensures var rows := RowsOf(resolved, key);
            && 0 <= i < |rows|
            && IdentifyProperty(rows[i].row) == key
            && (forall j :: 0 <= j < |rows| ==>
                  rows[i].dates.OpensAt() < rows[j].dates.OpensAt()
                  || (rows[i].dates.OpensAt() == rows[j].dates.OpensAt() && i <= j))
            && forall step :: step in StepsOf(resolved, key, window) ==>
                 step.row == rows[i].row.(value := step.row.value)
  {
    var rows := RowsOf(resolved, key);
    i := SortStartsWithEarliest(rows, OpeningMoment);
    assert rows[i] in rows;
  }

  /** A property is stepped exactly when one of its bands opens or closes strictly inside the window. */
  lemma StepsExactlyWhenAnEdgeIsInside(resolved: seq<DatedRow>, key: PropertyKey, window: Window)
    requires key in PropertyKeys(resolved)
    ensures |StepsOf(resolved, key, window)| > 1 <==>
            exists edge :: edge in BandEdges(RowsOf(resolved, key)) && window.start < edge < window.end
  {
    var rows := RowsOf(resolved, key);
    var ordered := OpeningOrder(rows);
    assert BandEdges(ordered) == BandEdges(rows);
    var moments := ChangeMoments(ordered, window);
    if |moments| > 1 {
      assert moments[1] in moments && moments[0] < moments[1];
    }
  }

  /** Two moments of the window read differently. */
  ghost predicate TakesTwoValues(ordered: seq<DatedRow>, window: Window) {
    exists a, b :: window.start <= a < b < window.end && ReadValueAt(ordered, a) != ReadValueAt(ordered, b)
  }

  lemma StepInForceReadsTheSame(ordered: seq<DatedRow>, window: Window, moment: Moment) returns (k: int)
    requires |ordered| > 0 && window.start <= moment < window.end
    ensures var steps := StepsWithin(ordered, window);
            0 <= k < |steps| && steps[k].at <= moment && ReadValueAt(ordered, moment) == steps[k].row.value
  {
    hide ReadValueAt, StepsWithin;
    k := StepInForceExists(StepsWithin(ordered, window), moment);
    StepReadsTheSame(ordered, window, moment, k);
  }

  /** A property reads differently within the window exactly when two of its steps differ. */
  lemma TakesTwoValuesExactlyWhenStepsDiffer(ordered: seq<DatedRow>, window: Window)
    requires |ordered| > 0 && window.start < window.end
    ensures TakesTwoValues(ordered, window) <==>
            exists k :: 0 <= k < |StepsWithin(ordered, window)|
              && StepsWithin(ordered, window)[k].row.value != StepsWithin(ordered, window)[0].row.value
  {
    hide ReadValueAt, StepsWithin;
    var steps := StepsWithin(ordered, window);
    if a, b :| window.start <= a < b < window.end && ReadValueAt(ordered, a) != ReadValueAt(ordered, b) {
      var i := StepInForceReadsTheSame(ordered, window, a);
      var j := StepInForceReadsTheSame(ordered, window, b);
    }
    if k :| 0 <= k < |steps| && steps[k].row.value != steps[0].row.value {
      assert steps[k].at in ChangeMoments(ordered, window);
      assert ReadValueAt(ordered, window.start) != ReadValueAt(ordered, steps[k].at);
    }
  }

  /** A property is stepped just when it takes two values, as documented, exactly where it has no
      edge inside the window or its steps do not all agree. */
  lemma SteppedForItsValuesExactlyWhen(resolved: seq<DatedRow>, key: PropertyKey, window: Window)
    requires key in PropertyKeys(resolved) && window.start < window.end
    ensures
      var steps := StepsOf(resolved, key, window);
      (|steps| > 1 <==> TakesTwoValues(OpeningOrder(RowsOf(resolved, key)), window))
      <==> ((forall edge :: edge in BandEdges(RowsOf(resolved, key)) ==> !(window.start < edge < window.end))
            || exists k :: 0 <= k < |steps| && steps[k].row.value != steps[0].row.value)
  {
    hide StepsWithin, TakesTwoValues;
    var rows := RowsOf(resolved, key);
    assert rows[0] in OpeningOrder(rows);
    StepsExactlyWhenAnEdgeIsInside(resolved, key, window);
    TakesTwoValuesExactlyWhenStepsDiffer(OpeningOrder(rows), window);
  }

  /** The first step's row states the window's opening value; alone, it states every moment's. */
  lemma InForceRowHoldsItsValue(resolved: seq<DatedRow>, key: PropertyKey, window: Window, moment: Moment)
    requires key in PropertyKeys(resolved)
    requires moment == window.start || (window.start <= moment < window.end && |StepsOf(resolved, key, window)| == 1)
    ensures IsValueInForce(RowsOf(resolved, key), moment, StepsOf(resolved, key, window)[0].row.value)
  {
    var rows := RowsOf(resolved, key);
    if moment == window.start {
      ReadValueIsTheValueInForce(rows, moment);
    } else {
      StepsRefineLookup(rows, window, moment, 0);
    }
  }

  // ---- The series a stepped property stages ----

  // An owner class and a property name, as the staged series are keyed.
  datatype StagedKey = StagedKey(owner: string, property: string)

  function StagedKeyOf(step: Step): StagedKey { StagedKey(step.row.childClass, step.row.property) }

  function Streams(staged: set<StagedKey>): Step -> bool {
    (step: Step) => step.row.dataFile.None? && StagedKeyOf(step) !in staged
  }

  function SeriesRowOf(step: Step): SeriesRow {
    SeriesRow(step.at, step.row.childObject, None, step.row.value)
  }

  function SteppedFrame(steps: seq<Step>): (r: seq<SeriesRow>)
    ensures |r| == |steps|
    ensures forall i :: 0 <= i < |r| ==> r[i] == SeriesRowOf(steps[i])
  {
    seq(|steps|, i requires 0 <= i < |steps| => SeriesRowOf(steps[i]))
  }

  /** Groups the steps by series, leaving alone the series that Data Files already fill. */
  method SteppedSeriesParts(stepped: seq<Step>, staged: set<StagedKey>) returns (parts: map<StagedKey, seq<SeriesRow>>)
    ensures forall key :: key in parts <==>
              key !in staged && exists step :: step in stepped && step.row.dataFile.None? && StagedKeyOf(step) == key
    ensures forall key :: key in parts ==>
              parts[key] == SteppedFrame(Group(Filter(stepped, Streams(staged)), StagedKeyOf, key))
  {
    var streamed := [];
    for n := 0 to |stepped|
      invariant streamed == Filter(stepped[..n], Streams(staged))
    {
      assert stepped[..n + 1][..n] == stepped[..n];
      if stepped[n].row.dataFile.None? && StagedKeyOf(stepped[n]) !in staged {
        streamed := streamed + [stepped[n]];
      }
    }
    assert stepped[..|stepped|] == stepped;
    var keys, rowsByKey := GroupBy(streamed, StagedKeyOf);
    parts := map key | key in rowsByKey :: SteppedFrame(rowsByKey[key]);
  }
}
