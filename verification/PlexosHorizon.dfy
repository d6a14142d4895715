/** The grid of snapshots, and the columns a series has on it
    (interop/plugins/sources/plexos_horizon.py). */
module PlexosHorizon {
  import opened Common
  import opened PlexosDates

  /** Half-open: a year ends where the next one starts. */
  datatype Window = Window(start: Moment, end: Moment)

  datatype Horizon = Horizon(start: Moment, periods: int, interval: nat)

  // A value is None where the frame holds a null, and a sample where the series carries none.
  datatype SeriesRow = SeriesRow(snapshot: Moment, component: string, sample: Option<string>, value: Option<real>)

  datatype SeriesKey = SeriesKey(component: string, sample: Option<string>)

  // A reindexed frame: every key crossed with the index, so one column of values per key.
  type Frame = map<SeriesKey, seq<Option<real>>>

  const UNSAMPLED_SENTINEL := "unsampled"

  // ---- The index ----

  ghost predicate IsAscending(index: seq<Moment>) {
    forall i, j :: 0 <= i < j < |index| ==> index[i] < index[j]
  }

  lemma StepsAscend(interval: nat, i: nat, j: nat)
    requires interval > 0 && i < j
    ensures i * interval < j * interval
  {
  }

  /** `m` is the moment `k` intervals after the start, and before the Horizon's end. */
  predicate IsStepOf(horizon: Horizon, k: int, m: Moment) {
    && 0 <= k
    && m == horizon.start + k * horizon.interval < horizon.start + horizon.periods * horizon.interval
  }

  function HorizonIndex(horizon: Horizon): (r: seq<Moment>)
    requires horizon.interval > 0
    ensures IsAscending(r)
    ensures forall m :: m in r <==> exists k :: IsStepOf(horizon, k, m)
  {
    var r := seq(if horizon.periods < 0 then 0 else horizon.periods,
                 k requires k >= 0 => horizon.start + k * horizon.interval);
    assert IsAscending(r) by {
      forall i, j | 0 <= i < j < |r| ensures r[i] < r[j] {
        StepsAscend(horizon.interval, i, j);
      }
    }
    assert forall m :: m in r <==> exists k :: IsStepOf(horizon, k, m) by {
      forall k | 0 <= k < |r| ensures IsStepOf(horizon, k, r[k]) {
        StepsAscend(horizon.interval, k, horizon.periods);
      }
      forall m, k | IsStepOf(horizon, k, m) ensures m in r {
        if horizon.periods < k {
          StepsAscend(horizon.interval, horizon.periods, k);
        }
        assert r[k] == m;
      }
    }
    r
  }

  function InWindow(window: Window): Moment -> bool {
    (m: Moment) => window.start <= m < window.end
  }

  function SnapshotIndex(horizon: Horizon, window: Window): seq<Moment>
    requires horizon.interval > 0
  {
    Filter(HorizonIndex(horizon), InWindow(window))
  }

  lemma {:induction false} FilterKeepsAscending(s: seq<Moment>, p: Moment -> bool)
    requires IsAscending(s)
    ensures IsAscending(Filter(s, p))
  {
    if |s| != 0 {
      var front, last := s[..|s| - 1], s[|s| - 1];
      FilterKeepsAscending(front, p);
      var kept := Filter(front, p);
      forall i | 0 <= i < |kept| ensures kept[i] < last {
        assert kept[i] in front;
        var j :| 0 <= j < |front| && front[j] == kept[i];
      }
    }
  }

  /** The index holds exactly the Horizon's snapshots inside the window, in ascending order. */
  lemma SnapshotIndexIsTheHorizonInTheWindow(horizon: Horizon, window: Window)
    requires horizon.interval > 0
    ensures IsAscending(SnapshotIndex(horizon, window))
    ensures forall m :: m in SnapshotIndex(horizon, window) <==>
              m in HorizonIndex(horizon) && window.start <= m < window.end
  {
    FilterKeepsAscending(HorizonIndex(horizon), InWindow(window));
  }

  // ---- Labelling: a null sample is filled for the join and restored after it ----

  function Label(sample: Option<string>): Option<string> {
    if sample.None? then Some(UNSAMPLED_SENTINEL) else sample
  }

  function Restore(sample: Option<string>): Option<string> {
    if sample == Some(UNSAMPLED_SENTINEL) then None else sample
  }

  function Labelled(series: seq<SeriesRow>): (r: seq<SeriesRow>)
    ensures |r| == |series|
    ensures forall i :: 0 <= i < |r| ==> r[i] == series[i].(sample := Label(series[i].sample))
  {
    seq(|series|, i requires 0 <= i < |series| => series[i].(sample := Label(series[i].sample)))
  }

  function KeyOf(row: SeriesRow): SeriesKey { SeriesKey(row.component, row.sample) }

  function RestoredKey(key: SeriesKey): SeriesKey { key.(sample := Restore(key.sample)) }

  function LabelledKey(key: SeriesKey): SeriesKey { key.(sample := Label(key.sample)) }

  function SnapshotOf(row: SeriesRow): int { row.snapshot }

  // ---- The as-of join, and the fills ----

  function AtOrBefore(moment: Moment): SeriesRow -> bool {
    (row: SeriesRow) => row.snapshot <= moment
  }

  function ValueOf(matched: Option<SeriesRow>): Option<real> {
    match matched
    case None => None
    case Some(row) => row.value
  }

  /** Sorted by snapshot within the key, then matched backward from each grid point. */
  function Matched(rows: seq<SeriesRow>, key: SeriesKey, index: seq<Moment>): (r: seq<Option<real>>)
    ensures |r| == |index|
  {
    var sorted := StableSort(Group(rows, KeyOf, key), SnapshotOf);
    seq(|index|, i requires 0 <= i < |index| => ValueOf(LastMatch(sorted, AtOrBefore(index[i]))))
  }

  function ForwardFill(column: seq<Option<real>>): (r: seq<Option<real>>)
    ensures |r| == |column|
  {
    if |column| == 0 then []
    else
      var front := ForwardFill(column[..|column| - 1]);
      var last := column[|column| - 1];
      front + [if last.Some? || |front| == 0 then last else front[|front| - 1]]
  }

  function BackwardFill(column: seq<Option<real>>): (r: seq<Option<real>>)
    ensures |r| == |column|
  {
    if |column| == 0 then []
    else
      var rest := BackwardFill(column[1..]);
      [if column[0].Some? || |rest| == 0 then column[0] else rest[0]] + rest
  }

  function Filled(column: seq<Option<real>>): (r: seq<Option<real>>)
    ensures |r| == |column|
  {
    BackwardFill(ForwardFill(column))
  }

  /** Position `j` of the column is what `i` is filled forward from. */
  ghost predicate FillsForward(column: seq<Option<real>>, j: int, i: int) {
    0 <= j <= i < |column| && column[j].Some? && forall h :: j < h <= i ==> column[h].None?
  }

  lemma {:induction false} ForwardFillMeaning(column: seq<Option<real>>, i: nat)
    requires i < |column|
    ensures ForwardFill(column)[i].None? ==> forall j :: 0 <= j <= i ==> column[j].None?
    ensures ForwardFill(column)[i].Some? ==>
              exists j :: FillsForward(column, j, i) && column[j] == ForwardFill(column)[i]
    decreases |column|
  {
    var front := column[..|column| - 1];
    if column[i].Some? && i == |front| {
      assert FillsForward(column, i, i);
    } else {
      var before := if i < |front| then i else i - 1;
      if before >= 0 {
        ForwardFillMeaning(front, before);
        assert forall h :: 0 <= h <= before ==> front[h] == column[h];
        assert ForwardFill(column)[i] == ForwardFill(front)[before];
        if ForwardFill(front)[before].Some? {
          var j :| FillsForward(front, j, before) && front[j] == ForwardFill(front)[before];
          assert FillsForward(column, j, i);
        }
      }
    }
  }

  lemma {:induction false} BackwardFillMeaning(column: seq<Option<real>>, i: nat)
    requires i < |column|
    ensures BackwardFill(column)[i].None? ==> forall j :: i <= j < |column| ==> column[j].None?
    ensures BackwardFill(column)[i].Some? ==>
              exists j :: i <= j < |column| && column[j] == BackwardFill(column)[i]
                && forall h :: i <= h < j ==> column[h].None?
    decreases |column|
  {
    var rest := column[1..];
    if i > 0 {
      BackwardFillMeaning(rest, i - 1);
      if BackwardFill(rest)[i - 1].Some? {
        var j :| i - 1 <= j < |rest| && rest[j] == BackwardFill(rest)[i - 1]
                 && forall h :: i - 1 <= h < j ==> rest[h].None?;
        assert column[j + 1] == rest[j];
        forall h | i <= h < j + 1 ensures column[h].None? { assert rest[h - 1].None?; }
      } else {
        forall j | i <= j < |column| ensures column[j].None? { assert rest[j - 1].None?; }
      }
    } else if column[0].Some? {
      assert column[0] == BackwardFill(column)[0];
    } else if |rest| > 0 {
      BackwardFillMeaning(rest, 0);
      if BackwardFill(rest)[0].Some? {
        var j :| 0 <= j < |rest| && rest[j] == BackwardFill(rest)[0]
                 && forall h :: 0 <= h < j ==> rest[h].None?;
        assert column[j + 1] == rest[j];
        forall h | 0 <= h < j + 1 ensures column[h].None? { assert h == 0 || rest[h - 1].None?; }
      } else {
        forall j | 0 <= j < |column| ensures column[j].None? { assert j == 0 || rest[j - 1].None?; }
      }
    }
  }

  /** Position `j` of the column supplies grid point `i`: the last value at or before it, or the
      first value of the column where none is. */
  ghost predicate Supplies(column: seq<Option<real>>, j: int, i: int) {
    && 0 <= i < |column| && 0 <= j < |column| && column[j].Some?
    && if j <= i then forall h :: j < h <= i ==> column[h].None?
       else forall h :: 0 <= h < j ==> column[h].None?
  }

  /** A filled column is null only where the whole column is, and every other grid point holds
      the value of the position that supplies it. */
  lemma FilledMeaning(column: seq<Option<real>>, i: nat)
    requires i < |column|
    ensures Filled(column)[i].None? <==> forall j :: 0 <= j < |column| ==> column[j].None?
    ensures Filled(column)[i].Some? ==> exists j :: Supplies(column, j, i) && Filled(column)[i] == column[j]
  {
    var forward := ForwardFill(column);
    BackwardFillMeaning(forward, i);
    if Filled(column)[i].None? {
      ForwardFillMeaning(column, |column| - 1);
    } else {
      var k :| i <= k < |column| && forward[k] == Filled(column)[i] && forall h :: i <= h < k ==> forward[h].None?;
      ForwardFillMeaning(column, k);
      var j :| FillsForward(column, j, k) && column[j] == forward[k];
      if i < k {
        ForwardFillMeaning(column, k - 1);
        assert forward[k - 1].None?;
        assert j == k;
      }
      assert Supplies(column, j, i);
    }
  }

  // ---- Reconciling ----

  /** The last row before `start` for its key, as the group-by and the semi join select it. */
  function IsLastBefore(series: seq<SeriesRow>, start: Moment): SeriesRow -> bool {
    (row: SeriesRow) =>
      row.snapshot < start &&
      forall other :: other in series && KeyOf(other) == KeyOf(row) && other.snapshot < start ==>
        other.snapshot <= row.snapshot
  }

  function IsInside(start: Moment, end: Moment): SeriesRow -> bool {
    (row: SeriesRow) => start <= row.snapshot <= end
  }

  /** With no snapshot both bounds are null, and a comparison with null keeps no row. */
  function NarrowToWindow(series: seq<SeriesRow>, index: seq<Moment>): seq<SeriesRow> {
    if |index| == 0 then []
    else
      var start, end := index[0], index[|index| - 1];
      Filter(series, IsLastBefore(series, start)) + Filter(series, IsInside(start, end))
  }

  function ReconcileRows(labelled: seq<SeriesRow>, index: seq<Moment>): Frame {
    map row | row in labelled ::
      RestoredKey(KeyOf(row)) := Filled(Matched(labelled, LabelledKey(RestoredKey(KeyOf(row))), index))
  }

  function ReconcileToHorizon(series: seq<SeriesRow>, index: seq<Moment>): Frame {
    ReconcileRows(NarrowToWindow(Labelled(series), index), index)
  }

  // ---- Narrowing changes no value ----

  lemma NarrowingKeepsMatch(rows: seq<SeriesRow>, key: SeriesKey, start: Moment, end: Moment, moment: Moment)
    requires start <= moment <= end
    ensures
      LatestOf(Group(Filter(rows, IsLastBefore(rows, start)) + Filter(rows, IsInside(start, end)), KeyOf, key),
               SnapshotOf, AtOrBefore(moment))
      == LatestOf(Group(rows, KeyOf, key), SnapshotOf, AtOrBefore(moment))
  {
    var before, inside, isKey := IsLastBefore(rows, start), IsInside(start, end), HasKey(KeyOf, key);
    var p := AtOrBefore(moment);
    var group := Filter(rows, isKey);
    FilterConcat(Filter(rows, before), Filter(rows, inside), isKey);
    FilterCommutes(rows, before, isKey);
    FilterCommutes(rows, inside, isKey);
    var early, late := Filter(group, before), Filter(group, inside);
    LatestOfConcat(early, late, SnapshotOf, p);
    var latest := LatestOf(group, SnapshotOf, p);
    if latest.Some? {
      if latest.value.snapshot < start {
        forall other | other in rows && KeyOf(other) == KeyOf(latest.value) && other.snapshot < start
          ensures other.snapshot <= latest.value.snapshot
        {
          assert isKey(other) && p(other) && other in group;
        }
        assert before(latest.value);
        LatestOfFilter(group, SnapshotOf, p, before);
        forall row | row in late ensures !p(row) {
          assert row in group && start <= row.snapshot;
        }
      } else {
        LatestOfFilter(group, SnapshotOf, p, inside);
      }
    } else {
      forall row | row in early || row in late ensures !p(row) {
        assert row in group;
      }
    }
  }

  lemma NarrowingKeepsCell(labelled: seq<SeriesRow>, key: SeriesKey, index: seq<Moment>, i: nat)
    requires IsAscending(index) && i < |index|
    ensures Matched(NarrowToWindow(labelled, index), key, index)[i] == Matched(labelled, key, index)[i]
  {
    var narrowed, p := NarrowToWindow(labelled, index), AtOrBefore(index[i]);
    var group, narrowedGroup := Group(labelled, KeyOf, key), Group(narrowed, KeyOf, key);
    assert LastMatch(StableSort(narrowedGroup, SnapshotOf), p) == LastMatch(StableSort(group, SnapshotOf), p) by {
      LastMatchOfSort(narrowedGroup, SnapshotOf, p);
      LastMatchOfSort(group, SnapshotOf, p);
      NarrowingKeepsMatch(labelled, key, index[0], index[|index| - 1], index[i]);
    }
  }

  lemma NarrowingKeepsColumn(labelled: seq<SeriesRow>, key: SeriesKey, index: seq<Moment>)
    requires IsAscending(index)
    ensures Matched(NarrowToWindow(labelled, index), key, index) == Matched(labelled, key, index)
  {
    var narrowed := NarrowToWindow(labelled, index);
    var a, b := Matched(narrowed, key, index), Matched(labelled, key, index);
    forall i | 0 <= i < |index| ensures a[i] == b[i] {
      NarrowingKeepsCell(labelled, key, index, i);
    }
  }

  ghost predicate HasRowBy(rows: seq<SeriesRow>, key: SeriesKey, moment: Moment) {
    exists row :: row in rows && KeyOf(row) == key && row.snapshot <= moment
  }

  /** Narrowing keeps a key exactly when one of its rows stands at or before the last snapshot. */
  lemma NarrowedKeys(labelled: seq<SeriesRow>, key: SeriesKey, index: seq<Moment>)
    requires IsAscending(index) && |index| > 0
    ensures (exists row :: row in NarrowToWindow(labelled, index) && KeyOf(row) == key)
            <==> HasRowBy(labelled, key, index[|index| - 1])
  {
    var start, end := index[0], index[|index| - 1];
    var narrowed := NarrowToWindow(labelled, index);
    if HasRowBy(labelled, key, end) {
      var row :| row in labelled && KeyOf(row) == key && row.snapshot <= end;
      if row.snapshot < start {
        var p: SeriesRow -> bool := r => KeyOf(r) == key && r.snapshot < start;
        assert p(row);
        var latest := LatestOf(labelled, SnapshotOf, p).value;
        assert IsLastBefore(labelled, start)(latest) by {
          forall other | other in labelled && KeyOf(other) == KeyOf(latest) && other.snapshot < start
            ensures other.snapshot <= latest.snapshot
          {
            assert p(other);
          }
        }
        assert latest in narrowed && KeyOf(latest) == key;
      } else {
        assert IsInside(start, end)(row) && row in narrowed;
      }
    }
  }

  lemma LabelRoundTrip(series: seq<SeriesRow>, row: SeriesRow)
    requires row in Labelled(series)
    ensures LabelledKey(RestoredKey(KeyOf(row))) == KeyOf(row)
  {
  }

  lemma ReconciledColumn(labelled: seq<SeriesRow>, index: seq<Moment>, row: SeriesRow)
    requires row in labelled && row.sample.Some?
    ensures RestoredKey(KeyOf(row)) in ReconcileRows(labelled, index)
    ensures ReconcileRows(labelled, index)[RestoredKey(KeyOf(row))] == Filled(Matched(labelled, KeyOf(row), index))
  {
  }

  /** Narrowing is meaning-preserving: each key with a row at or before the last snapshot gets,
      fills included, the column the whole series gives it, and no other key gets one. */
  lemma NarrowingPreservesMeaning(series: seq<SeriesRow>, index: seq<Moment>)
    requires IsAscending(index) && |index| > 0
    ensures forall key :: key in ReconcileToHorizon(series, index) ==>
              && key in ReconcileRows(Labelled(series), index)
              && ReconcileToHorizon(series, index)[key] == ReconcileRows(Labelled(series), index)[key]
    ensures forall key :: key in ReconcileToHorizon(series, index) <==>
              HasRowBy(Labelled(series), LabelledKey(key), index[|index| - 1]) && RestoredKey(LabelledKey(key)) == key
  {
    hide Matched, Filled;
    var labelled := Labelled(series);
    var narrowed := NarrowToWindow(labelled, index);
    forall key | key in ReconcileToHorizon(series, index)
      ensures key in ReconcileRows(labelled, index)
      ensures ReconcileToHorizon(series, index)[key] == ReconcileRows(labelled, index)[key]
      ensures HasRowBy(labelled, LabelledKey(key), index[|index| - 1])
      ensures RestoredKey(LabelledKey(key)) == key
    {
      var row :| row in narrowed && RestoredKey(KeyOf(row)) == key;
      assert row in labelled;
      ReconciledColumn(narrowed, index, row);
      ReconciledColumn(labelled, index, row);
      NarrowingKeepsColumn(labelled, KeyOf(row), index);
      NarrowedKeys(labelled, KeyOf(row), index);
    }
    forall key | HasRowBy(labelled, LabelledKey(key), index[|index| - 1]) && RestoredKey(LabelledKey(key)) == key
      ensures key in ReconcileToHorizon(series, index)
    {
      NarrowedKeys(labelled, LabelledKey(key), index);
      var row :| row in narrowed && KeyOf(row) == LabelledKey(key);
      ReconciledColumn(narrowed, index, row);
    }
  }

  lemma KeyIsLost(series: seq<SeriesRow>, index: seq<Moment>, row: SeriesRow)
    requires IsAscending(index) && |index| > 0
    requires row in Labelled(series) && !HasRowBy(Labelled(series), KeyOf(row), index[|index| - 1])
    ensures RestoredKey(KeyOf(row)) in ReconcileRows(Labelled(series), index)
    ensures RestoredKey(KeyOf(row)) !in ReconcileToHorizon(series, index)
  {
    ReconciledColumn(Labelled(series), index, row);
    NarrowingPreservesMeaning(series, index);
  }

  lemma KeyIsKept(series: seq<SeriesRow>, index: seq<Moment>, row: SeriesRow)
    requires IsAscending(index) && |index| > 0
    requires row in Labelled(series) && HasRowBy(Labelled(series), KeyOf(row), index[|index| - 1])
    ensures RestoredKey(KeyOf(row)) in ReconcileToHorizon(series, index)
  {
    LabelRoundTrip(series, row);
    NarrowingPreservesMeaning(series, index);
  }

  lemma SameFrame(a: Frame, b: Frame)
    requires forall key :: key in a ==> key in b && a[key] == b[key]
    requires forall key :: key in b ==> key in a
    ensures a == b
  {
  }

  lemma NoKeyIsLost(series: seq<SeriesRow>, index: seq<Moment>)
    requires IsAscending(index) && |index| > 0
    requires forall row :: row in Labelled(series) ==> HasRowBy(Labelled(series), KeyOf(row), index[|index| - 1])
    ensures ReconcileToHorizon(series, index) == ReconcileRows(Labelled(series), index)
  {
    var labelled := Labelled(series);
    forall row | row in labelled ensures RestoredKey(KeyOf(row)) in ReconcileToHorizon(series, index) {
      KeyIsKept(series, index, row);
    }
    assert forall key :: key in ReconcileRows(labelled, index) ==> key in ReconcileToHorizon(series, index);
    NarrowingPreservesMeaning(series, index);
    SameFrame(ReconcileToHorizon(series, index), ReconcileRows(labelled, index));
  }

  /** So narrowing loses nothing exactly when every key has a row at or before the last snapshot. */
  lemma NarrowingIsLosslessExactlyWhen(series: seq<SeriesRow>, index: seq<Moment>)
    requires IsAscending(index) && |index| > 0
    ensures ReconcileToHorizon(series, index) == ReconcileRows(Labelled(series), index) <==>
            forall row :: row in Labelled(series) ==> HasRowBy(Labelled(series), KeyOf(row), index[|index| - 1])
  {
    if row :| row in Labelled(series) && !HasRowBy(Labelled(series), KeyOf(row), index[|index| - 1]) {
      KeyIsLost(series, index, row);
    } else {
      NoKeyIsLost(series, index);
    }
  }

  // ---- Reindexing one replication at a time ----

  function SampleOf(row: SeriesRow): Option<string> { row.sample }

  lemma PartitionKeepsGroup(labelled: seq<SeriesRow>, sample: Option<string>, key: SeriesKey)
    requires key.sample == sample
    ensures Group(Group(labelled, SampleOf, sample), KeyOf, key) == Group(labelled, KeyOf, key)
  {
    hide Filter;
    forall row | row in labelled && HasKey(KeyOf, key)(row) ensures HasKey(SampleOf, sample)(row) {
      assert KeyOf(row) == key;
      assert SampleOf(row) == KeyOf(row).sample == sample;
    }
    FilterAbsorbs(labelled, HasKey(SampleOf, sample), HasKey(KeyOf, key));
  }

  lemma PartitionHasRowBy(labelled: seq<SeriesRow>, sample: Option<string>, key: SeriesKey, moment: Moment)
    ensures HasRowBy(Group(labelled, SampleOf, sample), key, moment) <==>
            HasRowBy(labelled, key, moment) && key.sample == sample
  {
  }

  lemma LabellingTwice(series: seq<SeriesRow>, sample: Option<string>)
    ensures Labelled(Group(Labelled(series), SampleOf, sample)) == Group(Labelled(series), SampleOf, sample)
  {
    var part := Group(Labelled(series), SampleOf, sample);
    forall i | 0 <= i < |part| ensures Labelled(part)[i] == part[i] {
      assert part[i] in Labelled(series);
    }
  }

  lemma ReconciledColumnAt(labelled: seq<SeriesRow>, index: seq<Moment>, key: SeriesKey)
    requires key in ReconcileRows(labelled, index)
    ensures ReconcileRows(labelled, index)[key] == Filled(Matched(labelled, LabelledKey(key), index))
  {
  }

  /** A replication reconciled alone gives exactly its own columns of the whole. */
  lemma PartitionReconciles(series: seq<SeriesRow>, index: seq<Moment>, sample: Option<string>, key: SeriesKey)
    requires IsAscending(index) && |index| > 0
    ensures key in ReconcileToHorizon(Group(Labelled(series), SampleOf, sample), index) <==>
            key in ReconcileToHorizon(series, index) && Label(key.sample) == sample
    ensures key in ReconcileToHorizon(Group(Labelled(series), SampleOf, sample), index) ==>
              ReconcileToHorizon(Group(Labelled(series), SampleOf, sample), index)[key]
              == ReconcileToHorizon(series, index)[key]
  {
    var labelled := Labelled(series);
    var part := Group(labelled, SampleOf, sample);
    LabellingTwice(series, sample);
    PartitionHasRowBy(labelled, sample, LabelledKey(key), index[|index| - 1]);
    NarrowingPreservesMeaning(series, index);
    NarrowingPreservesMeaning(part, index);
    if key in ReconcileToHorizon(part, index) {
      ReconciledColumnAt(part, index, key);
      ReconciledColumnAt(labelled, index, key);
      PartitionKeepsGroup(labelled, sample, LabelledKey(key));
    }
  }

  /** `frame` holds the columns of `whole` whose sample is among `labels`. */
  ghost predicate HoldsPartitions(frame: Frame, whole: Frame, labels: seq<Option<string>>) {
    && (forall key :: key in frame <==> key in whole && Label(key.sample) in labels)
    && (forall key :: key in frame ==> frame[key] == whole[key])
  }

  lemma OneMorePartition(frame: Frame, one: Frame, whole: Frame, labels: seq<Option<string>>, n: nat)
    requires n < |labels| && HoldsPartitions(frame, whole, labels[..n])
    requires forall key :: key in one <==> key in whole && Label(key.sample) == labels[n]
    requires forall key :: key in one ==> one[key] == whole[key]
    ensures HoldsPartitions(frame + one, whole, labels[..n + 1])
  {
  }

  method ReindexOnto(combined: seq<SeriesRow>, index: seq<Moment>) returns (frame: Frame)
    requires IsAscending(index)
    ensures frame == ReconcileToHorizon(combined, index)
  {
    frame := map[];
    var labels, partitions := GroupBy(Labelled(combined), SampleOf);
    if |index| == 0 {
      return;
    }
    ghost var whole := ReconcileToHorizon(combined, index);
    for n := 0 to |labels|
      invariant HoldsPartitions(frame, whole, labels[..n])
    {
      var one := ReconcileToHorizon(partitions[labels[n]], index);
      forall key
        ensures key in one <==> key in whole && Label(key.sample) == labels[n]
        ensures key in one ==> one[key] == whole[key]
      {
        PartitionReconciles(combined, index, labels[n], key);
      }
      OneMorePartition(frame, one, whole, labels, n);
      frame := frame + one;
    }
    EveryLabelIsPartitioned(combined, index, labels);
    SameFrame(frame, whole);
  }

  lemma LabelIsPartitioned(series: seq<SeriesRow>, index: seq<Moment>, key: SeriesKey)
    requires IsAscending(index) && |index| > 0
    requires HasRowBy(Labelled(series), LabelledKey(key), index[|index| - 1])
    ensures Label(key.sample) in DistinctKeys(Labelled(series), SampleOf)
  {
  }

  lemma EveryLabelIsPartitioned(series: seq<SeriesRow>, index: seq<Moment>, labels: seq<Option<string>>)
    requires IsAscending(index) && |index| > 0
    requires labels == DistinctKeys(Labelled(series), SampleOf)
    ensures forall key :: key in ReconcileToHorizon(series, index) ==> Label(key.sample) in labels[..|labels|]
  {
    assert labels[..|labels|] == labels;
    NarrowingPreservesMeaning(series, index);
    forall key | HasRowBy(Labelled(series), LabelledKey(key), index[|index| - 1]) ensures Label(key.sample) in labels {
      LabelIsPartitioned(series, index, key);
    }
  }

  // ---- What the leading snapshots hold ----

  lemma MatchedCellIsTheLatest(labelled: seq<SeriesRow>, key: SeriesKey, index: seq<Moment>, i: nat)
    requires i < |index|
    ensures Matched(labelled, key, index)[i]
            == ValueOf(LatestOf(Group(labelled, KeyOf, key), SnapshotOf, AtOrBefore(index[i])))
  {
    LastMatchOfSort(Group(labelled, KeyOf, key), SnapshotOf, AtOrBefore(index[i]));
  }

  /** The first value of a column that is not null. */
  function FirstStated(column: seq<Option<real>>): Option<real> {
    if |column| == 0 then None
    else if column[0].Some? then column[0]
    else FirstStated(column[1..])
  }

  lemma {:induction false} FirstStatedAt(column: seq<Option<real>>, j: nat)
    requires j < |column| && column[j].Some? && forall h :: 0 <= h < j ==> column[h].None?
    ensures FirstStated(column) == column[j]
  {
    if j > 0 {
      assert column[1..][j - 1] == column[j];
      FirstStatedAt(column[1..], j - 1);
    }
  }

  lemma {:induction false} NothingStated(column: seq<Option<real>>)
    requires forall h :: 0 <= h < |column| ==> column[h].None?
    ensures FirstStated(column) == None
  {
    if |column| > 0 {
      NothingStated(column[1..]);
    }
  }

  /** A grid point with nothing matched up to it takes the first value matched after it. */
  lemma LeadingCellIsTheFirstStated(column: seq<Option<real>>, i: nat)
    requires i < |column| && forall h :: 0 <= h <= i ==> column[h].None?
    ensures Filled(column)[i] == FirstStated(column)
  {
    hide Filled;
    FilledMeaning(column, i);
    if Filled(column)[i].None? {
      NothingStated(column);
    } else {
      var j :| Supplies(column, j, i) && Filled(column)[i] == column[j];
      FirstStatedAt(column, j);
    }
  }

  /** What the series says of a key at a moment: the value of its latest row at or before it. */
  function SaidAt(series: seq<SeriesRow>, key: SeriesKey, moment: Moment): Option<real> {
    ValueOf(LatestOf(Group(Labelled(series), KeyOf, LabelledKey(key)), SnapshotOf, AtOrBefore(moment)))
  }

  function SaidOnGrid(series: seq<SeriesRow>, key: SeriesKey, index: seq<Moment>): (r: seq<Option<real>>)
    ensures |r| == |index|
    ensures forall i :: 0 <= i < |r| ==> r[i] == SaidAt(series, key, index[i])
  {
    seq(|index|, i requires 0 <= i < |index| => SaidAt(series, key, index[i]))
  }

  /** The reindexed column is what the whole series says on the grid, filled. */
  lemma ReconciledColumnIsWhatTheSeriesSays(series: seq<SeriesRow>, index: seq<Moment>, key: SeriesKey)
    requires IsAscending(index) && key in ReconcileToHorizon(series, index)
    ensures ReconcileToHorizon(series, index)[key] == Filled(SaidOnGrid(series, key, index))
  {
    hide Matched, Filled, SaidAt, LatestOf, NarrowToWindow;
    if |index| > 0 {
      NarrowingPreservesMeaning(series, index);
      ReconciledColumnAt(Labelled(series), index, key);
      var column, said := Matched(Labelled(series), LabelledKey(key), index), SaidOnGrid(series, key, index);
      forall i | 0 <= i < |index| ensures column[i] == said[i] {
        SaidIsMatched(series, key, index, i);
      }
      assert column == said;
    } else {
      NothingIsNarrowed(series, index);
      assert false;
    }
  }

  lemma NothingIsNarrowed(series: seq<SeriesRow>, index: seq<Moment>)
    requires |index| == 0
    ensures ReconcileToHorizon(series, index) == map[]
  {
  }

  lemma SaidIsMatched(series: seq<SeriesRow>, key: SeriesKey, index: seq<Moment>, i: nat)
    requires i < |index|
    ensures Matched(Labelled(series), LabelledKey(key), index)[i] == SaidAt(series, key, index[i])
  {
    hide LatestOf, Matched;
    MatchedCellIsTheLatest(Labelled(series), LabelledKey(key), index, i);
  }

  function HasValue(): SeriesRow -> bool { (row: SeriesRow) => row.value.Some? }

  /** The key's rows that state a value, by snapshot. */
  function StatedRows(series: seq<SeriesRow>, key: SeriesKey): seq<SeriesRow> {
    StableSort(Filter(Group(Labelled(series), KeyOf, LabelledKey(key)), HasValue()), SnapshotOf)
  }

  lemma EarliestIsFirst(series: seq<SeriesRow>, key: SeriesKey, row: SeriesRow)
    requires row in Group(Labelled(series), KeyOf, LabelledKey(key)) && row.value.Some?
    ensures |StatedRows(series, key)| > 0 && StatedRows(series, key)[0].snapshot <= row.snapshot
  {
    hide Group, Filter, StableSort;
    var stated := Filter(Group(Labelled(series), KeyOf, LabelledKey(key)), HasValue());
    assert HasValue()(row) && row in stated;
    StableSortSorts(stated, SnapshotOf);
    var sorted := StableSort(stated, SnapshotOf);
    var k :| 0 <= k < |sorted| && sorted[k] == row;
    assert k > 0 ==> SnapshotOf(sorted[0]) <= SnapshotOf(sorted[k]);
  }

  /** Before the first stated row the series says nothing with a value. */
  lemma NothingIsSaidBefore(series: seq<SeriesRow>, key: SeriesKey, moment: Moment)
    requires |StatedRows(series, key)| > 0 && moment < StatedRows(series, key)[0].snapshot
    ensures SaidAt(series, key, moment).None?
  {
    hide Group, Filter, LatestOf, StatedRows;
    var latest := LatestOf(Group(Labelled(series), KeyOf, LabelledKey(key)), SnapshotOf, AtOrBefore(moment));
    if latest.Some? && latest.value.value.Some? {
      EarliestIsFirst(series, key, latest.value);
    }
  }

  /** Snapshots before a key's first value hold that value, as documented, exactly when there is
      none or the first value the grid matches is that very one. */
  lemma LeadingSnapshotsTakeTheEarliestValueExactlyWhen(series: seq<SeriesRow>, index: seq<Moment>, key: SeriesKey)
    requires IsAscending(index) && key in ReconcileToHorizon(series, index)
    requires |StatedRows(series, key)| > 0
    ensures
      var earliest := StatedRows(series, key)[0];
      var column := ReconcileToHorizon(series, index)[key];
      && |column| == |index|
      && (forall i :: 0 <= i < |index| && index[i] < earliest.snapshot ==>
            column[i] == FirstStated(SaidOnGrid(series, key, index)))
      && ((forall i :: 0 <= i < |index| && index[i] < earliest.snapshot ==> column[i] == earliest.value)
          <==> (|index| > 0 && index[0] < earliest.snapshot ==>
                  FirstStated(SaidOnGrid(series, key, index)) == earliest.value))
  {
    hide Filled, StatedRows, SaidAt, ReconcileToHorizon, FirstStated;
    ReconciledColumnIsWhatTheSeriesSays(series, index, key);
    var earliest, said := StatedRows(series, key)[0], SaidOnGrid(series, key, index);
    forall i | 0 <= i < |index| && index[i] < earliest.snapshot ensures Filled(said)[i] == FirstStated(said) {
      forall h | 0 <= h <= i ensures said[h].None? {
        NothingIsSaidBefore(series, key, index[h]);
      }
      LeadingCellIsTheFirstStated(said, i);
    }
  }

  /** Where every row states a value, the first value matched is that of the latest row at or before
      the first snapshot the key's rows reach. */
  lemma FirstMatchIsTheLatestRowReached(series: seq<SeriesRow>, index: seq<Moment>, key: SeriesKey, j: nat)
    requires IsAscending(index) && j < |index|
    requires forall row :: row in Labelled(series) && KeyOf(row) == LabelledKey(key) ==> row.value.Some?
    requires |StatedRows(series, key)| > 0
    requires StatedRows(series, key)[0].snapshot <= index[j]
    requires forall h :: 0 <= h < j ==> index[h] < StatedRows(series, key)[0].snapshot
    ensures FirstStated(SaidOnGrid(series, key, index)) == SaidAt(series, key, index[j])
    ensures SaidAt(series, key, index[j]).Some?
  {
    hide LatestOf, StatedRows, Filter;
    var group := Group(Labelled(series), KeyOf, LabelledKey(key));
    var said := SaidOnGrid(series, key, index);
    EarliestIsOfTheKey(series, key);
    assert AtOrBefore(index[j])(StatedRows(series, key)[0]);
    var latest := LatestOf(group, SnapshotOf, AtOrBefore(index[j]));
    assert HasKey(KeyOf, LabelledKey(key))(latest.value);
    forall h | 0 <= h < j ensures said[h].None? {
      NothingIsSaidBefore(series, key, index[h]);
    }
    FirstStatedAt(said, j);
  }

  lemma EarliestIsOfTheKey(series: seq<SeriesRow>, key: SeriesKey)
    requires |StatedRows(series, key)| > 0
    ensures StatedRows(series, key)[0] in Group(Labelled(series), KeyOf, LabelledKey(key))
    ensures StatedRows(series, key)[0].value.Some?
  {
    hide Filter, StableSort;
    var row := StatedRows(series, key)[0];
    assert row in StatedRows(series, key);
    assert HasValue()(row);
  }

  // ---- Two series the documentation does not foresee ----

  const ONE_HOUR := 3_600_000_000

  function HourlyRow(hour: nat, value: real): SeriesRow {
    SeriesRow(hour * ONE_HOUR, "G", None, Some(value))
  }

  lemma GroupOfTwo(series: seq<SeriesRow>, key: SeriesKey, a: SeriesRow, b: SeriesRow)
    requires Labelled(series) == [a, b] && KeyOf(a) == KeyOf(b) == LabelledKey(key)
    ensures Group(Labelled(series), KeyOf, LabelledKey(key)) == [a, b]
  {
    hide Filter, Labelled;
    assert HasKey(KeyOf, LabelledKey(key))(a) && HasKey(KeyOf, LabelledKey(key))(b);
    FilterAll([a, b], HasKey(KeyOf, LabelledKey(key)));
  }

  lemma KeyIsThere(series: seq<SeriesRow>, index: seq<Moment>, key: SeriesKey, row: SeriesRow)
    requires IsAscending(index) && |index| > 0 && RestoredKey(LabelledKey(key)) == key
    requires row in Labelled(series) && KeyOf(row) == LabelledKey(key) && row.snapshot <= index[|index| - 1]
    ensures key in ReconcileToHorizon(series, index)
  {
    hide ReconcileToHorizon, Labelled;
    NarrowingPreservesMeaning(series, index);
  }

  /** Two stated rows of one key between two snapshots: the first snapshot takes the second's value. */
  lemma TwoRowsBetweenTwoSnapshots(series: seq<SeriesRow>, key: SeriesKey, a: SeriesRow, b: SeriesRow, index: seq<Moment>)
    requires Labelled(series) == [a, b] && KeyOf(a) == KeyOf(b) == LabelledKey(key) && RestoredKey(LabelledKey(key)) == key
    requires a.value.Some? && b.value.Some?
    requires |index| == 2 && index[0] < a.snapshot < b.snapshot <= index[1]
    ensures StatedRows(series, key) == [a, b]
    ensures var frame := ReconcileToHorizon(series, index);
            key in frame && |frame[key]| == 2 && frame[key][0] == b.value
  {
    hide ReconcileToHorizon, StatedRows, SaidAt, FirstStated, Labelled, Group, LatestOf, SaidOnGrid;
    GroupOfTwo(series, key, a, b);
    assert b in Labelled(series);
    KeyIsThere(series, index, key, b);
    TwoStatedRows(series, key, a, b);
    LeadingSnapshotsTakeTheEarliestValueExactlyWhen(series, index, key);
    FirstMatchIsTheLatestRowReached(series, index, key, 1);
    SecondOfTwoIsLatest(a, b, index[1]);
    SaidIsTheLatest(series, key, index[1]);
  }

  /** Values 5 at one o'clock and 7 at two, on the grid of two midnights: the first midnight takes
      the later value, not the earliest. */
  lemma TheEarliestValueIsPassedOver()
    ensures
      var series, key, index := [HourlyRow(1, 5.0), HourlyRow(2, 7.0)], SeriesKey("G", None), HorizonIndex(Horizon(0, 2, ONE_DAY));
      && index == [0, ONE_DAY]
      && key in ReconcileToHorizon(series, index)
      && |ReconcileToHorizon(series, index)[key]| == 2
      && ReconcileToHorizon(series, index)[key][0] == Some(7.0)
      && |StatedRows(series, key)| > 0 && StatedRows(series, key)[0].value == Some(5.0)
  {
    hide ReconcileToHorizon, StatedRows, HorizonIndex;
    var series := [HourlyRow(1, 5.0), HourlyRow(2, 7.0)];
    TwoMidnights();
    var labelled := Labelled(series);
    TwoRowsBetweenTwoSnapshots(series, SeriesKey("G", None), labelled[0], labelled[1], [0, ONE_DAY]);
  }

  lemma SaidIsTheLatest(series: seq<SeriesRow>, key: SeriesKey, moment: Moment)
    ensures SaidAt(series, key, moment)
            == ValueOf(LatestOf(Group(Labelled(series), KeyOf, LabelledKey(key)), SnapshotOf, AtOrBefore(moment)))
  {
  }

  lemma TwoMidnights()
    ensures HorizonIndex(Horizon(0, 2, ONE_DAY)) == [0, ONE_DAY]
  {
  }

  lemma TwoStatedRows(series: seq<SeriesRow>, key: SeriesKey, a: SeriesRow, b: SeriesRow)
    requires Group(Labelled(series), KeyOf, LabelledKey(key)) == [a, b]
    requires a.value.Some? && b.value.Some? && a.snapshot < b.snapshot
    ensures StatedRows(series, key) == [a, b]
  {
    hide Filter, Group;
    FilterAll([a, b], HasValue());
    assert [a, b][1..] == [b] && [b][1..] == [];
    assert StableSort<SeriesRow>([], SnapshotOf) == [];
    assert StableSort([b], SnapshotOf) == [b];
  }

  lemma SecondOfTwoIsLatest(a: SeriesRow, b: SeriesRow, moment: Moment)
    requires a.snapshot < b.snapshot <= moment
    ensures LatestOf([a, b], SnapshotOf, AtOrBefore(moment)) == Some(b)
  {
    assert [a, b][1..] == [b] && [b][1..] == [];
    assert LatestOf([b], SnapshotOf, AtOrBefore(moment)) == Some(b);
  }

  /** A value stated on the third day, on the same grid: its key is gone. */
  lemma AKeyIsLostByNarrowing()
    ensures
      var series, key, index := [HourlyRow(48, 5.0)], SeriesKey("G", None), HorizonIndex(Horizon(0, 2, ONE_DAY));
      key in ReconcileRows(Labelled(series), index) && key !in ReconcileToHorizon(series, index)
  {
    hide ReconcileToHorizon, ReconcileRows, HorizonIndex;
    TwoMidnights();
    var series := [HourlyRow(48, 5.0)];
    var row := Labelled(series)[0];
    assert row in Labelled(series) && RestoredKey(KeyOf(row)) == SeriesKey("G", None);
    KeyIsLost(series, [0, ONE_DAY], row);
  }
}
