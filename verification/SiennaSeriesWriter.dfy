/** Filling the store of a Sienna system with its series
    (interop/plugins/sinks/emit_sienna_h5_sidecar.py). */
module SiennaSeriesWriter {
  import opened Common
  import opened SeriesBatches

  // An owner's type and id.
  type Owner = (string, int)

  // The staged table and attribute a series is read from.
  type SourceKey = (string, string)

  // What one component's series is called, where its values are staged, and what they are divided by.
  datatype AssociationRow = AssociationRow(
    owner: Owner,
    name: string,
    componentName: string,
    sourceKey: SourceKey,
    scaling: real,
    initial: Option<int>,
    resolution: int)

  datatype StoredSeries = StoredSeries(owner: Owner, name: string, initial: int, resolution: int, values: seq<real>)

  datatype WriteError = UnsampledEnsemble | MissingSeries

  type Capacities = map<Owner, real>

  class Store {
    var entries: seq<StoredSeries>

    constructor ()
      ensures entries == []
    {
      entries := [];
    }

    method AddTimeSeries(series: StoredSeries)
      modifies this
      ensures entries == old(entries) + [series]
    {
      entries := entries + [series];
    }
  }

  /** The row has a start time, a divisor, and an owner whose capacity is known. */
  predicate IsWritable(row: AssociationRow, capacities: Capacities) {
    row.initial.Some? && row.scaling != 0.0 && row.owner in capacities
  }

  predicate AreWritable(rows: seq<AssociationRow>, capacities: Capacities) {
    forall row :: row in rows ==> IsWritable(row, capacities)
  }

  function Times(values: seq<real>, factor: real): (r: seq<real>)
    ensures |r| == |values|
    ensures forall k :: 0 <= k < |r| ==> r[k] == values[k] * factor
  {
    seq(|values|, k requires 0 <= k < |values| => values[k] * factor)
  }

  /** The series one row stores, given its component's values. */
  function StoredFrom(row: AssociationRow, values: seq<real>, capacities: Capacities): StoredSeries
    requires IsWritable(row, capacities)
  {
    StoredSeries(row.owner, row.name, row.initial.value, row.resolution, Times(values, capacities[row.owner] / row.scaling))
  }

  /** What the rows store, each from the values `read` gives it. */
  function StoredRows(rows: seq<AssociationRow>, read: AssociationRow -> seq<real>, capacities: Capacities): (r: seq<StoredSeries>)
    requires AreWritable(rows, capacities)
    ensures |r| == |rows|
    ensures forall i :: 0 <= i < |r| ==> rows[i] in rows && r[i] == StoredFrom(rows[i], read(rows[i]), capacities)
  {
    seq(|rows|, i requires 0 <= i < |rows| => StoredFrom(rows[i], read(rows[i]), capacities))
  }

  /** A row is stored under its own owner and name, from its own start, and each value becomes a
      share of the owner's capacity: what it is per unit of the row's divisor. */
  lemma EachRowIsStoredAsItSays(rows: seq<AssociationRow>, read: AssociationRow -> seq<real>, capacities: Capacities, i: nat)
    requires forall j :: 0 <= j < |rows| ==> rows[j].initial.Some? && rows[j].scaling != 0.0 && rows[j].owner in capacities
    requires i < |rows|
    ensures AreWritable(rows, capacities)
    ensures var row, stored := rows[i], StoredRows(rows, read, capacities)[i];
            && stored.owner == row.owner && stored.name == row.name
            && stored.initial == row.initial.value && stored.resolution == row.resolution
            && |stored.values| == |read(row)|
            && forall k :: 0 <= k < |read(row)| ==>
                 stored.values[k] * row.scaling == read(row)[k] * capacities[row.owner]
  {
    var row := rows[i];
    var factor := capacities[row.owner] / row.scaling;
    assert factor * row.scaling == capacities[row.owner];
    assert AreWritable(rows, capacities);
    var stored := StoredRows(rows, read, capacities)[i];
    forall k | 0 <= k < |read(row)| ensures stored.values[k] * row.scaling == read(row)[k] * capacities[row.owner] {
      RegroupFactors(read(row)[k], factor, row.scaling);
    }
  }

  lemma RegroupFactors(a: real, b: real, c: real)
    ensures (a * b) * c == a * (b * c)
  {
  }

  function FromBatch(byComponent: map<string, seq<real>>): AssociationRow -> seq<real> {
    (row: AssociationRow) => if row.componentName in byComponent then byComponent[row.componentName] else []
  }

  function FromFrame(frame: Frame): AssociationRow -> seq<real> {
    (row: AssociationRow) => ValuesOf(frame, row.componentName)
  }

  method AddSeries(store: Store, rows: seq<AssociationRow>, byComponent: map<string, seq<real>>, capacities: Capacities)
    requires AreWritable(rows, capacities)
    modifies store
    ensures store.entries == old(store.entries) + StoredRows(rows, FromBatch(byComponent), capacities)
  {
    for n := 0 to |rows|
      invariant store.entries == old(store.entries) + StoredRows(rows, FromBatch(byComponent), capacities)[..n]
    {
      var row := rows[n];
      var values := if row.componentName in byComponent then byComponent[row.componentName] else [];
      store.AddTimeSeries(StoredFrom(row, values, capacities));
    }
  }

  // ---- One staged series ----

  function NameOf(): AssociationRow -> string { (row: AssociationRow) => row.componentName }

  function NotIn(names: seq<string>): string -> bool { (name: string) => name !in names }

  /** The order the rows are written in: by component as the series lists them, and then those
      whose component it does not hold. */
  function WriteOrder(rows: seq<AssociationRow>, components: seq<string>): seq<AssociationRow> {
    Gathered(rows, NameOf(), components)
    + Gathered(rows, NameOf(), Filter(DistinctKeys(rows, NameOf()), NotIn(components)))
  }

  /** Every row is written once, whatever components the series holds. */
  lemma WriteOrderKeepsEveryRow(rows: seq<AssociationRow>, components: seq<string>)
    requires AreDistinct(components)
    ensures multiset(WriteOrder(rows, components)) == multiset(rows)
  {
    hide Filter, DistinctKeys, Gathered;
    var unmatched := Filter(DistinctKeys(rows, NameOf()), NotIn(components));
    FilterKeepsDistinct(DistinctKeys(rows, NameOf()), NotIn(components));
    assert forall name :: name in unmatched ==> NotIn(components)(name);
    ConcatKeepsDistinct(components, unmatched);
    GatheredConcat(rows, NameOf(), components, unmatched);
    forall row | row in rows ensures NameOf()(row) in components + unmatched {
      assert NameOf()(row) in DistinctKeys(rows, NameOf());
      assert NotIn(components)(NameOf()(row)) || NameOf()(row) in components;
    }
    GatheringKeepsEveryElement(rows, NameOf(), components + unmatched);
  }

  /** What is still to be written: the groups of the names no batch has held. */
  ghost predicate IsPending(pending: map<string, seq<AssociationRow>>, rows: seq<AssociationRow>, done: seq<string>) {
    && (forall name :: name in pending <==> name in DistinctKeys(rows, NameOf()) && name !in done)
    && forall name :: name in pending ==> pending[name] == Group(rows, NameOf(), name)
  }

  /** Takes a batch's rows out of those still to be written. */
  method PopBatch(pending: map<string, seq<AssociationRow>>, batch: seq<string>, ghost rows: seq<AssociationRow>, ghost done: seq<string>)
    returns (batchRows: seq<AssociationRow>, remaining: map<string, seq<AssociationRow>>)
    requires IsPending(pending, rows, done) && AreDistinct(done + batch)
    ensures batchRows == Gathered(rows, NameOf(), batch)
    ensures IsPending(remaining, rows, done + batch)
  {
    hide DistinctKeys, Filter;
    batchRows, remaining := [], pending;
    assert done + batch[..0] == done;
    for n := 0 to |batch|
      invariant batchRows == Gathered(rows, NameOf(), batch[..n])
      invariant IsPending(remaining, rows, done + batch[..n])
    {
      var name := batch[n];
      assert batch[..n + 1][..n] == batch[..n];
      assert done + batch[..n + 1] == done + batch[..n] + [name];
      NotYetDone(done, batch, n);
      if name in remaining {
        batchRows := batchRows + remaining[name];
        remaining := remaining - {name};
      } else {
        assert Group(rows, NameOf(), name) == [];
      }
    }
    assert batch[..|batch|] == batch;
  }

  lemma NotYetDone(done: seq<string>, batch: seq<string>, n: nat)
    requires n < |batch| && AreDistinct(done + batch)
    ensures batch[n] !in done + batch[..n]
  {
    var all := done + batch;
    forall i | 0 <= i < |done| + n ensures (done + batch[..n])[i] != batch[n] {
      assert all[i] == (done + batch[..n])[i] && all[|done| + n] == batch[n];
    }
  }

  method RestOf(pending: map<string, seq<AssociationRow>>, order: seq<string>, ghost rows: seq<AssociationRow>, ghost done: seq<string>)
    returns (unmatched: seq<AssociationRow>)
    requires IsPending(pending, rows, done) && order == DistinctKeys(rows, NameOf())
    ensures unmatched == Gathered(rows, NameOf(), Filter(order, NotIn(done)))
  {
    hide DistinctKeys, Filter, Group;
    unmatched := [];
    FilterOfNone(NotIn(done));
    assert order[..0] == [];
    for n := 0 to |order|
      invariant unmatched == Gathered(rows, NameOf(), Filter(order[..n], NotIn(done)))
    {
      assert order[..n + 1][..n] == order[..n];
      FilterSnoc(order[..n + 1], NotIn(done));
      var front, name := Filter(order[..n], NotIn(done)), order[n];
      assert (front + [name])[..|front|] == front;
      assert front + [] == front;
      if name in pending {
        unmatched := unmatched + pending[name];
      }
    }
    assert order[..|order|] == order;
  }

  lemma BatchStoresDirectly(rows: seq<AssociationRow>, frame: Frame, batch: seq<string>, capacities: Capacities)
    requires AreWritable(rows, capacities)
    requires forall row :: row in rows ==> row.componentName in batch
    ensures StoredRows(rows, FromBatch(ReadBatchByComponent(frame, batch)), capacities) == StoredRows(rows, FromFrame(frame), capacities)
  {
    hide ReadBatchByComponent, ValuesOf, Components;
    BatchReadsDirectly(frame, batch);
    forall row | row in rows ensures FromBatch(ReadBatchByComponent(frame, batch))(row) == FromFrame(frame)(row) {
      if row.componentName !in Components(frame) {
        ReadingAMissingComponent(frame, row.componentName);
      }
    }
  }

  lemma UnmatchedStoreNothing(rows: seq<AssociationRow>, frame: Frame, capacities: Capacities)
    requires AreWritable(rows, capacities)
    requires forall row :: row in rows ==> row.componentName !in Components(frame)
    ensures StoredRows(rows, FromBatch(map[]), capacities) == StoredRows(rows, FromFrame(frame), capacities)
  {
    hide ValuesOf, Components;
    forall row | row in rows ensures FromFrame(frame)(row) == [] {
      ReadingAMissingComponent(frame, row.componentName);
    }
  }

  lemma {:induction false} GatheredMembers(rows: seq<AssociationRow>, names: seq<string>, row: AssociationRow)
    ensures row in Gathered(rows, NameOf(), names) <==> row in rows && row.componentName in names
  {
    hide Filter;
    if |names| != 0 {
      var front, last := names[..|names| - 1], names[|names| - 1];
      GatheredMembers(rows, front, row);
      assert names == front + [last];
      assert HasKey(NameOf(), last)(row) <==> row.componentName == last;
    }
  }

  lemma StoredConcat(a: seq<AssociationRow>, b: seq<AssociationRow>, read: AssociationRow -> seq<real>, capacities: Capacities)
    requires AreWritable(a + b, capacities)
    ensures AreWritable(a, capacities) && AreWritable(b, capacities)
    ensures StoredRows(a + b, read, capacities) == StoredRows(a, read, capacities) + StoredRows(b, read, capacities)
  {
    forall row | row in a ensures IsWritable(row, capacities) { assert row in a + b; }
    forall row | row in b ensures IsWritable(row, capacities) { assert row in a + b; }
  }

  /** More than one replication and none named. */
  predicate IsUnsampledEnsemble(frame: Frame, sample: Option<string>) {
    sample.None? && exists a, b :: a in frame && b in frame && a.sample.Some? && b.sample.Some? && a.sample != b.sample
  }

  ghost predicate IsOfOneSample(frame: Frame, name: string) {
    forall row :: row in frame ==> row.sample == None || row.sample == Some(name)
  }

  /** Asked of no sample, a series is refused unless one replication is all it names. */
  lemma RefusedExactlyWhenSeveralAreNamed(frame: Frame, sample: Option<string>)
    ensures IsUnsampledEnsemble(frame, sample) <==>
            sample == None
            && !exists name :: IsOfOneSample(frame, name)
  {
    if sample.None? && !IsUnsampledEnsemble(frame, sample) {
      if named :| named in frame && named.sample.Some? {
        assert IsOfOneSample(frame, named.sample.value);
      } else {
        assert IsOfOneSample(frame, "");
      }
    }
    if IsUnsampledEnsemble(frame, sample) {
      var a, b :| a in frame && b in frame && a.sample.Some? && b.sample.Some? && a.sample != b.sample;
      forall name ensures !IsOfOneSample(frame, name) {
        assert a.sample != Some(name) || b.sample != Some(name);
      }
    }
  }

  lemma PrefixOfBatches(frame: Frame, n: nat)
    requires n < |ListComponentBatches(frame)|
    ensures var batches := ListComponentBatches(frame);
            && Flatten(batches[..n + 1]) == Flatten(batches[..n]) + batches[n]
            && AreDistinct(Flatten(batches[..n]) + batches[n])
  {
    hide ListComponentBatches, Components;
    var batches := ListComponentBatches(frame);
    BatchesPartitionComponents(frame);
    FlattenConcat(batches[..n + 1], batches[n + 1..]);
    assert batches[..n + 1] + batches[n + 1..] == batches;
    assert batches[..n + 1][..n] == batches[..n];
    var done := Flatten(batches[..n + 1]);
    assert forall i :: 0 <= i < |done| ==> done[i] == Components(frame)[i];
  }

  lemma WritableGathered(rows: seq<AssociationRow>, names: seq<string>, capacities: Capacities)
    requires AreWritable(rows, capacities)
    ensures AreWritable(Gathered(rows, NameOf(), names), capacities)
    ensures forall row :: row in Gathered(rows, NameOf(), names) ==> row.componentName in names
  {
    hide Gathered;
    forall row | row in Gathered(rows, NameOf(), names) ensures row in rows && row.componentName in names {
      GatheredMembers(rows, names, row);
    }
  }

  /** What the rows of the named components store. */
  ghost function StoredFor(rows: seq<AssociationRow>, names: seq<string>, frame: Frame, capacities: Capacities): seq<StoredSeries>
    requires AreWritable(rows, capacities)
  {
    WritableGathered(rows, names, capacities);
    StoredRows(Gathered(rows, NameOf(), names), FromFrame(frame), capacities)
  }

  lemma StoredForNone(rows: seq<AssociationRow>, frame: Frame, capacities: Capacities)
    requires AreWritable(rows, capacities)
    ensures StoredFor(rows, [], frame, capacities) == [] && Flatten<string>([]) == []
  {
  }

  lemma StoredForMore(rows: seq<AssociationRow>, done: seq<string>, more: seq<string>, frame: Frame, capacities: Capacities)
    requires AreWritable(rows, capacities)
    ensures StoredFor(rows, done + more, frame, capacities)
            == StoredFor(rows, done, frame, capacities) + StoredFor(rows, more, frame, capacities)
  {
    hide Gathered, AreWritable, StoredRows;
    GatheredConcat(rows, NameOf(), done, more);
    WritableGathered(rows, done + more, capacities);
    StoredConcat(Gathered(rows, NameOf(), done), Gathered(rows, NameOf(), more), FromFrame(frame), capacities);
  }

  lemma BatchStores(rows: seq<AssociationRow>, batch: seq<string>, frame: Frame, capacities: Capacities)
    requires AreWritable(rows, capacities)
    ensures var batchRows := Gathered(rows, NameOf(), batch);
            && AreWritable(batchRows, capacities)
            && StoredRows(batchRows, FromBatch(ReadBatchByComponent(frame, batch)), capacities)
               == StoredFor(rows, batch, frame, capacities)
  {
    hide Gathered, StoredRows, ReadBatchByComponent;
    WritableGathered(rows, batch, capacities);
    BatchStoresDirectly(Gathered(rows, NameOf(), batch), frame, batch, capacities);
  }

  lemma UnmatchedStores(rows: seq<AssociationRow>, order: seq<string>, frame: Frame, capacities: Capacities)
    requires AreWritable(rows, capacities)
    ensures var names := Filter(order, NotIn(Components(frame)));
            var unmatched := Gathered(rows, NameOf(), names);
            && AreWritable(unmatched, capacities)
            && StoredRows(unmatched, FromBatch(map[]), capacities) == StoredFor(rows, names, frame, capacities)
  {
    hide Gathered, StoredRows, Filter, Components;
    var names := Filter(order, NotIn(Components(frame)));
    WritableGathered(rows, names, capacities);
    assert forall name :: name in names ==> NotIn(Components(frame))(name);
    UnmatchedStoreNothing(Gathered(rows, NameOf(), names), frame, capacities);
  }

  /** Stores each row of one staged series once, with its own component's values or, where the
      series has none, with none. */
  method WriteSourceKey(store: Store, rows: seq<AssociationRow>, frame: Frame, sample: Option<string>, capacities: Capacities)
    returns (result: Result<(), WriteError>)
    requires AreWritable(rows, capacities)
    modifies store
    ensures result.Failure? <==> IsUnsampledEnsemble(frame, sample)
    ensures result.Failure? ==> result.error == UnsampledEnsemble
    ensures result.Success? ==>
              var sampled := FilterToSample(frame, sample);
              var order := WriteOrder(rows, Components(sampled));
              && AreWritable(order, capacities)
              && store.entries == old(store.entries) + StoredRows(order, FromFrame(sampled), capacities)
  {
    hide *;
    if IsUnsampledEnsemble(frame, sample) {
      return Failure(UnsampledEnsemble);
    }
    var sampled := FilterToSample(frame, sample);
    var order, pending := GroupBy(rows, NameOf());
    var batches := ListComponentBatches(sampled);
    NothingDone(rows, order, pending);
    StoredForNone(rows, sampled, capacities);
    assert batches[..0] == [];
    for n := 0 to |batches|
      invariant IsPending(pending, rows, Flatten(batches[..n]))
      invariant store.entries == old(store.entries) + StoredFor(rows, Flatten(batches[..n]), sampled, capacities)
    {
      var byComponent := ReadBatchByComponent(sampled, batches[n]);
      PrefixOfBatches(sampled, n);
      var batchRows;
      batchRows, pending := PopBatch(pending, batches[n], rows, Flatten(batches[..n]));
      BatchStores(rows, batches[n], sampled, capacities);
      AddSeries(store, batchRows, byComponent, capacities);
      StoredForMore(rows, Flatten(batches[..n]), batches[n], sampled, capacities);
    }
    assert batches[..|batches|] == batches;
    BatchesPartitionComponents(sampled);
    ghost var components := Components(sampled);
    var unmatched := RestOf(pending, order, rows, components);
    UnmatchedStores(rows, order, sampled, capacities);
    AddSeries(store, unmatched, map[], capacities);
    WrittenInOrder(rows, sampled, capacities);
    result := Success(());
  }

  lemma WrittenInOrder(rows: seq<AssociationRow>, frame: Frame, capacities: Capacities)
    requires AreWritable(rows, capacities)
    ensures var order := WriteOrder(rows, Components(frame));
            && AreWritable(order, capacities)
            && StoredRows(order, FromFrame(frame), capacities)
               == StoredFor(rows, Components(frame), frame, capacities)
                  + StoredFor(rows, Filter(DistinctKeys(rows, NameOf()), NotIn(Components(frame))), frame, capacities)
  {
    hide Filter, DistinctKeys, Gathered, Components, StoredRows, AreWritable, FromFrame;
    var components := Components(frame);
    var names := Filter(DistinctKeys(rows, NameOf()), NotIn(components));
    GatheredConcat(rows, NameOf(), components, names);
    WritableGathered(rows, components + names, capacities);
    StoredForMore(rows, components, names, frame, capacities);
  }

  lemma NothingDone(rows: seq<AssociationRow>, order: seq<string>, pending: map<string, seq<AssociationRow>>)
    requires order == DistinctKeys(rows, NameOf())
    requires forall k :: k in pending <==> k in order
    requires forall k :: k in pending ==> pending[k] == Group(rows, NameOf(), k)
    ensures IsPending(pending, rows, [])
  {
  }

  // ---- Every staged series ----

  function KeyOf(): AssociationRow -> SourceKey { (row: AssociationRow) => row.sourceKey }

  function HasStart(): AssociationRow -> bool { (row: AssociationRow) => row.initial.Some? }

  function SampledFor(series: map<SourceKey, Frame>, key: SourceKey, sample: Option<string>): Frame {
    if key in series then FilterToSample(series[key], sample) else []
  }

  function FromStaged(series: map<SourceKey, Frame>, sample: Option<string>): AssociationRow -> seq<real> {
    (row: AssociationRow) => ValuesOf(SampledFor(series, row.sourceKey, sample), row.componentName)
  }

  /** The order the rows are written in: one staged series after another. */
  function FullOrder(rows: seq<AssociationRow>, keys: seq<SourceKey>, series: map<SourceKey, Frame>, sample: Option<string>):
    seq<AssociationRow>
  {
    if |keys| == 0 then []
    else
      var key := keys[|keys| - 1];
      FullOrder(rows, keys[..|keys| - 1], series, sample)
      + WriteOrder(Group(rows, KeyOf(), key), Components(SampledFor(series, key, sample)))
  }

  lemma {:induction false} FullOrderRearrangesGroups(rows: seq<AssociationRow>, keys: seq<SourceKey>,
                                                     series: map<SourceKey, Frame>, sample: Option<string>)
    ensures multiset(FullOrder(rows, keys, series, sample)) == multiset(Gathered(rows, KeyOf(), keys))
  {
    hide Group, WriteOrder, Components, SampledFor;
    if |keys| != 0 {
      var key := keys[|keys| - 1];
      FullOrderRearrangesGroups(rows, keys[..|keys| - 1], series, sample);
      WriteOrderKeepsEveryRow(Group(rows, KeyOf(), key), Components(SampledFor(series, key, sample)));
    }
  }

  /** Each row with a start time is written once, however the rows fall into series and batches. */
  lemma FullOrderKeepsEveryRow(rows: seq<AssociationRow>, series: map<SourceKey, Frame>, sample: Option<string>)
    ensures multiset(FullOrder(rows, DistinctKeys(rows, KeyOf()), series, sample)) == multiset(rows)
  {
    hide DistinctKeys, FullOrder, Gathered;
    var keys := DistinctKeys(rows, KeyOf());
    FullOrderRearrangesGroups(rows, keys, series, sample);
    forall row | row in rows ensures KeyOf()(row) in keys {
    }
    GatheringKeepsEveryElement(rows, KeyOf(), keys);
  }

  ghost predicate IsStagedFor(key: SourceKey, series: map<SourceKey, Frame>, sample: Option<string>) {
    key in series && !IsUnsampledEnsemble(series[key], sample)
  }

  lemma FullOrderStep(rows: seq<AssociationRow>, n: nat, series: map<SourceKey, Frame>, sample: Option<string>, capacities: Capacities)
    requires n < |DistinctKeys(rows, KeyOf())| && AreWritable(rows, capacities)
    ensures var keys := DistinctKeys(rows, KeyOf());
            var group := Group(rows, KeyOf(), keys[n]);
            var frame := SampledFor(series, keys[n], sample);
            var own := WriteOrder(group, Components(frame));
            && AreWritable(group, capacities)
            && AreWritable(own, capacities)
            && StoredRows(own, FromFrame(frame), capacities) == StoredRows(own, FromStaged(series, sample), capacities)
            && FullOrder(rows, keys[..n + 1], series, sample) == FullOrder(rows, keys[..n], series, sample) + own
  {
    hide DistinctKeys, Filter, Components, ValuesOf, WriteOrder, SampledFor;
    var keys := DistinctKeys(rows, KeyOf());
    var group := Group(rows, KeyOf(), keys[n]);
    var frame := SampledFor(series, keys[n], sample);
    assert keys[..n + 1][..n] == keys[..n];
    WriteOrderKeepsEveryRow(group, Components(frame));
    forall row | row in WriteOrder(group, Components(frame))
      ensures row in rows && FromFrame(frame)(row) == FromStaged(series, sample)(row)
    {
      assert row in multiset(WriteOrder(group, Components(frame)));
      assert row in group && HasKey(KeyOf(), keys[n])(row);
    }
  }

  lemma {:induction false} FullOrderIsWritable(rows: seq<AssociationRow>, n: nat, series: map<SourceKey, Frame>,
                                               sample: Option<string>, capacities: Capacities)
    requires n <= |DistinctKeys(rows, KeyOf())| && AreWritable(rows, capacities)
    ensures AreWritable(FullOrder(rows, DistinctKeys(rows, KeyOf())[..n], series, sample), capacities)
  {
    hide DistinctKeys, WriteOrder, Components, SampledFor, Group;
    if n > 0 {
      FullOrderIsWritable(rows, n - 1, series, sample, capacities);
      FullOrderStep(rows, n - 1, series, sample, capacities);
    }
  }

  lemma StagedMeans(key: SourceKey, series: map<SourceKey, Frame>, sample: Option<string>)
    ensures IsStagedFor(key, series, sample) <==> key in series && !IsUnsampledEnsemble(series[key], sample)
  {
  }

  /** What the first `n` staged series store. */
  ghost function StoredUpTo(rows: seq<AssociationRow>, n: nat, series: map<SourceKey, Frame>, sample: Option<string>,
                            capacities: Capacities): seq<StoredSeries>
    requires n <= |DistinctKeys(rows, KeyOf())| && AreWritable(rows, capacities)
  {
    FullOrderIsWritable(rows, n, series, sample, capacities);
    StoredRows(FullOrder(rows, DistinctKeys(rows, KeyOf())[..n], series, sample), FromStaged(series, sample), capacities)
  }

  lemma StoredUpToStep(rows: seq<AssociationRow>, n: nat, series: map<SourceKey, Frame>, sample: Option<string>,
                       capacities: Capacities)
    requires n < |DistinctKeys(rows, KeyOf())| && AreWritable(rows, capacities)
    requires DistinctKeys(rows, KeyOf())[n] in series
    ensures var key := DistinctKeys(rows, KeyOf())[n];
            var group := Group(rows, KeyOf(), key);
            var frame := FilterToSample(series[key], sample);
            var own := WriteOrder(group, Components(frame));
            && AreWritable(group, capacities)
            && AreWritable(own, capacities)
            && StoredUpTo(rows, n + 1, series, sample, capacities)
               == StoredUpTo(rows, n, series, sample, capacities) + StoredRows(own, FromFrame(frame), capacities)
  {
    hide DistinctKeys, Group, Components, StoredRows, AreWritable, FullOrder, WriteOrder, FromFrame, FromStaged;
    var keys := DistinctKeys(rows, KeyOf());
    FullOrderStep(rows, n, series, sample, capacities);
    FullOrderIsWritable(rows, n + 1, series, sample, capacities);
    StoredConcat(FullOrder(rows, keys[..n], series, sample),
                 WriteOrder(Group(rows, KeyOf(), keys[n]), Components(SampledFor(series, keys[n], sample))),
                 FromStaged(series, sample), capacities);
  }

  lemma NothingStoredYet(rows: seq<AssociationRow>, series: map<SourceKey, Frame>, sample: Option<string>, capacities: Capacities)
    requires AreWritable(rows, capacities)
    ensures StoredUpTo(rows, 0, series, sample, capacities) == []
  {
  }

  lemma AllAreStored(rows: seq<AssociationRow>, series: map<SourceKey, Frame>, sample: Option<string>, capacities: Capacities)
    requires AreWritable(rows, capacities)
    ensures var order := FullOrder(rows, DistinctKeys(rows, KeyOf()), series, sample);
            && AreWritable(order, capacities)
            && StoredUpTo(rows, |DistinctKeys(rows, KeyOf())|, series, sample, capacities)
               == StoredRows(order, FromStaged(series, sample), capacities)
  {
    hide DistinctKeys, StoredRows, AreWritable, FullOrder;
    var keys := DistinctKeys(rows, KeyOf());
    assert keys[..|keys|] == keys;
    FullOrderIsWritable(rows, |keys|, series, sample, capacities);
  }

  lemma StagedKeyByKey(rows: seq<AssociationRow>, series: map<SourceKey, Frame>, sample: Option<string>)
    ensures (forall row :: row in rows ==> IsStagedFor(row.sourceKey, series, sample))
            <==> forall key :: key in DistinctKeys(rows, KeyOf()) ==> IsStagedFor(key, series, sample)
  {
  }

  /** Writes every association with a start time, one staged series after another: each is stored
      once, whatever the batches. */
  method WriteSeries(store: Store, associations: seq<AssociationRow>, series: map<SourceKey, Frame>, sample: Option<string>,
                     capacities: Capacities)
    returns (result: Result<(), WriteError>)
    requires AreWritable(Filter(associations, HasStart()), capacities)
    modifies store
    ensures var rows := Filter(associations, HasStart());
            && (result.Success? <==> forall row :: row in rows ==> IsStagedFor(row.sourceKey, series, sample))
            && (result.Success? ==>
                  var order := FullOrder(rows, DistinctKeys(rows, KeyOf()), series, sample);
                  && AreWritable(order, capacities)
                  && store.entries == old(store.entries) + StoredRows(order, FromStaged(series, sample), capacities))
  {
    hide *;
    var rows := Filter(associations, HasStart());
    var keys, groups := GroupBy(rows, KeyOf());
    NothingStoredYet(rows, series, sample, capacities);
    StagedKeyByKey(rows, series, sample);
    for n := 0 to |keys|
      invariant forall i :: 0 <= i < n ==> IsStagedFor(keys[i], series, sample)
      invariant store.entries == old(store.entries) + StoredUpTo(rows, n, series, sample, capacities)
    {
      assert keys[n] in keys;
      StagedMeans(keys[n], series, sample);
      if keys[n] !in series {
        return Failure(MissingSeries);
      }
      StoredUpToStep(rows, n, series, sample, capacities);
      var written := WriteSourceKey(store, groups[keys[n]], series[keys[n]], sample, capacities);
      if written.Failure? {
        return Failure(written.error);
      }
    }
    AllAreStored(rows, series, sample, capacities);
    result := Success(());
  }
}
