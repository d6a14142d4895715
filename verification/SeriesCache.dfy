/** The columns of a network's series, read through a cache an ensemble's networks share
    (interop/plugins/sinks/emit_pypsa_network.py and emit_pypsa_network_ensemble.py). */
module SeriesCache {
  import opened Common
  import opened SeriesBatches

  // An owner type and a series name.
  type SeriesName = (string, string)

  type StagedSeries = map<SeriesName, Frame>

  datatype CacheKey = CacheKey(series: SeriesName, sample: Option<string>)

  type Entries = map<CacheKey, map<string, seq<real>>>

  // The table and attribute a series is written to, and the component it is written for.
  datatype Target = Target(attribute: (string, string), component: string)

  datatype MetadataRow = MetadataRow(
    series: SeriesName,
    sourceComponent: string,
    target: Target,
    scaling: real,
    offset: real)

  type Columns = map<(string, string), map<string, seq<real>>>

  // ---- What a column should hold ----

  /** What a row's series holds for its component, read directly. */
  function Source(row: MetadataRow, staged: StagedSeries, sample: Option<string>): seq<real> {
    if row.series in staged then ValuesOf(FilterToSample(staged[row.series], sample), row.sourceComponent) else []
  }

  function Factor(row: MetadataRow, staged: StagedSeries, sample: Option<string>, k: nat): real {
    var values := Source(row, staged, sample);
    if k < |values| then values[k] * row.scaling + row.offset else 0.0
  }

  function ProductAt(rows: seq<MetadataRow>, staged: StagedSeries, sample: Option<string>, k: nat): real {
    if |rows| == 0 then 1.0
    else ProductAt(rows[..|rows| - 1], staged, sample, k) * Factor(rows[|rows| - 1], staged, sample, k)
  }

  /** A series of the rows' own length, holding at each step the product of what they give. */
  ghost predicate IsProduct(column: seq<real>, rows: seq<MetadataRow>, staged: StagedSeries, sample: Option<string>) {
    && (forall row :: row in rows ==> |Source(row, staged, sample)| == |column|)
    && forall k :: 0 <= k < |column| ==> column[k] == ProductAt(rows, staged, sample, k)
  }

  function ForTarget(target: Target): MetadataRow -> bool { (row: MetadataRow) => row.target == target }

  predicate HasColumn(columns: Columns, target: Target) {
    target.attribute in columns && target.component in columns[target.attribute]
  }

  ghost predicate HoldsProduct(columns: Columns, target: Target, rows: seq<MetadataRow>, staged: StagedSeries, sample: Option<string>) {
    && (HasColumn(columns, target) <==> |rows| > 0)
    && (HasColumn(columns, target) ==> IsProduct(columns[target.attribute][target.component], rows, staged, sample))
  }

  /** Each target some row names has the product of what its rows give, and no other has a column. */
  ghost predicate AreColumns(columns: Columns, metadata: seq<MetadataRow>, staged: StagedSeries, sample: Option<string>) {
    && (forall target :: HoldsProduct(columns, target, Filter(metadata, ForTarget(target)), staged, sample))
    && forall attribute :: attribute in columns ==> columns[attribute] != map[]
  }

  /** Two columns for one target differ in length, so neither narrows the other. */
  ghost predicate Clash(a: MetadataRow, b: MetadataRow, staged: StagedSeries, sample: Option<string>) {
    a.target == b.target && |Source(a, staged, sample)| != |Source(b, staged, sample)|
  }

  ghost predicate CannotBuild(metadata: seq<MetadataRow>, staged: StagedSeries, sample: Option<string>) {
    || (exists row :: row in metadata && row.series !in staged)
    || exists a, b :: a in metadata && b in metadata && Clash(a, b, staged, sample)
  }

  lemma ColumnsAreUnique(a: Columns, b: Columns, metadata: seq<MetadataRow>, staged: StagedSeries, sample: Option<string>)
    requires AreColumns(a, metadata, staged, sample) && AreColumns(b, metadata, staged, sample)
    ensures a == b
  {
    hide Filter, ProductAt, Source;
    forall target ensures HasColumn(a, target) == HasColumn(b, target)
                  ensures HasColumn(a, target) ==> a[target.attribute][target.component] == b[target.attribute][target.component] {
      var rows := Filter(metadata, ForTarget(target));
      assert HoldsProduct(a, target, rows, staged, sample) && HoldsProduct(b, target, rows, staged, sample);
      if HasColumn(a, target) {
        assert rows[0] in rows;
        assert |a[target.attribute][target.component]| == |b[target.attribute][target.component]|;
      }
    }
    SameColumnsSameMap(a, b);
  }

  lemma SameColumnsSameMap(a: Columns, b: Columns)
    requires forall target :: HasColumn(a, target) == HasColumn(b, target)
    requires forall target :: HasColumn(a, target) && HasColumn(b, target) ==>
               a[target.attribute][target.component] == b[target.attribute][target.component]
    requires forall attribute :: attribute in a ==> a[attribute] != map[]
    requires forall attribute :: attribute in b ==> b[attribute] != map[]
    ensures a == b
  {
    forall attribute ensures attribute in a <==> attribute in b {
      if attribute in a {
        var component :| component in a[attribute];
        assert HasColumn(a, Target(attribute, component));
      }
      if attribute in b {
        var component :| component in b[attribute];
        assert HasColumn(b, Target(attribute, component));
      }
    }
    forall attribute | attribute in a ensures a[attribute] == b[attribute] {
      forall component ensures component in a[attribute] <==> component in b[attribute]
                       ensures component in a[attribute] ==> a[attribute][component] == b[attribute][component] {
        assert HasColumn(a, Target(attribute, component)) == HasColumn(b, Target(attribute, component));
      }
    }
  }

  // ---- Building the columns through the cache ----

  class Cache {
    var entries: Entries

    constructor ()
      ensures entries == map[]
    {
      entries := map[];
    }
  }

  /** Every entry is what reading its series directly gives. */
  ghost predicate IsCoherent(entries: Entries, staged: StagedSeries) {
    forall key :: key in entries ==>
      key.series in staged && entries[key] == ReadDirectly(FilterToSample(staged[key.series], key.sample))
  }

  /** One more row: its factors multiply into its target's column, and no other column changes. */
  lemma ColumnsStep(columns: Columns, after: Columns, metadata: seq<MetadataRow>, n: nat, staged: StagedSeries,
                    sample: Option<string>, column: seq<real>)
    requires n < |metadata| && AreColumns(columns, metadata[..n], staged, sample)
    requires var target := metadata[n].target;
             var held := if target.attribute in columns then columns[target.attribute] else map[];
             after == columns[target.attribute := held[target.component := column]]
    requires IsProduct(column, Filter(metadata[..n], ForTarget(metadata[n].target)) + [metadata[n]], staged, sample)
    ensures AreColumns(after, metadata[..n + 1], staged, sample)
  {
    hide Filter, IsProduct;
    var row := metadata[n];
    forall target ensures HoldsProduct(after, target, Filter(metadata[..n + 1], ForTarget(target)), staged, sample) {
      assert metadata[..n + 1][..n] == metadata[..n];
      FilterSnoc(metadata[..n + 1], ForTarget(target));
      assert HoldsProduct(columns, target, Filter(metadata[..n], ForTarget(target)), staged, sample);
      assert Filter(metadata[..n], ForTarget(target)) + [] == Filter(metadata[..n], ForTarget(target));
      assert HasColumn(after, target) <==> target == row.target || HasColumn(columns, target);
      assert target != row.target && HasColumn(columns, target) ==>
          after[target.attribute][target.component] == columns[target.attribute][target.component];
    }
    forall attribute | attribute in after ensures after[attribute] != map[] {
      assert attribute == row.target.attribute ==> row.target.component in after[attribute];
    }
  }

  function Scaled(values: seq<real>, scaling: real, offset: real): (r: seq<real>)
    ensures |r| == |values|
    ensures forall k :: 0 <= k < |r| ==> r[k] == values[k] * scaling + offset
  {
    seq(|values|, k requires 0 <= k < |values| => values[k] * scaling + offset)
  }

  /** None where the two differ in shape. */
  function Compound(held: seq<real>, scaled: seq<real>): (r: Option<seq<real>>)
    ensures r.None? <==> |held| != |scaled|
    ensures r.Some? ==> |r.value| == |held| && forall k :: 0 <= k < |held| ==> r.value[k] == held[k] * scaled[k]
  {
    if |held| != |scaled| then None
    else Some(seq(|held|, k requires 0 <= k < |held| => held[k] * scaled[k]))
  }

  lemma ProductStep(rows: seq<MetadataRow>, row: MetadataRow, staged: StagedSeries, sample: Option<string>,
                    held: seq<real>, column: seq<real>)
    requires IsProduct(held, rows, staged, sample) && |rows| > 0
    requires |Source(row, staged, sample)| == |held|
    requires Compound(held, Scaled(Source(row, staged, sample), row.scaling, row.offset)) == Some(column)
    ensures IsProduct(column, rows + [row], staged, sample)
  {
    hide Source;
    var all := rows + [row];
    assert all[..|all| - 1] == rows && all[|all| - 1] == row;
    forall k | 0 <= k < |column| ensures column[k] == ProductAt(all, staged, sample, k) {
      assert ProductAt(all, staged, sample, k) == ProductAt(rows, staged, sample, k) * Factor(row, staged, sample, k);
    }
  }

  lemma FirstFactor(row: MetadataRow, staged: StagedSeries, sample: Option<string>)
    ensures IsProduct(Scaled(Source(row, staged, sample), row.scaling, row.offset), [] + [row], staged, sample)
  {
    hide Source;
    var rows := [] + [row];
    assert rows[..0] == [] && |rows| == 1 && rows[0] == row;
    var column := Scaled(Source(row, staged, sample), row.scaling, row.offset);
    forall k | 0 <= k < |column| ensures column[k] == ProductAt(rows, staged, sample, k) {
      assert ProductAt(rows, staged, sample, k) == ProductAt(rows[..0], staged, sample, k) * Factor(row, staged, sample, k);
    }
  }

  /** A row that differs in length from what its target holds clashes with a row before it. */
  lemma ClashesWithHeld(metadata: seq<MetadataRow>, n: nat, columns: Columns, staged: StagedSeries, sample: Option<string>)
    requires n < |metadata| && AreColumns(columns, metadata[..n], staged, sample)
    requires var target := metadata[n].target;
             HasColumn(columns, target)
             && |columns[target.attribute][target.component]| != |Source(metadata[n], staged, sample)|
    ensures CannotBuild(metadata, staged, sample)
  {
    hide Filter, Source, ProductAt;
    var target := metadata[n].target;
    var rows := Filter(metadata[..n], ForTarget(target));
    assert HoldsProduct(columns, target, rows, staged, sample);
    assert rows[0] in rows && ForTarget(target)(rows[0]);
    assert rows[0] in metadata && metadata[n] in metadata;
    assert Clash(rows[0], metadata[n], staged, sample);
  }

  lemma FitsWithHeld(metadata: seq<MetadataRow>, n: nat, columns: Columns, staged: StagedSeries, sample: Option<string>)
    requires n < |metadata| && AreColumns(columns, metadata[..n], staged, sample)
    requires !CannotBuild(metadata[..n], staged, sample) && metadata[n].series in staged
    requires var target := metadata[n].target;
             HasColumn(columns, target) ==>
               |columns[target.attribute][target.component]| == |Source(metadata[n], staged, sample)|
    ensures !CannotBuild(metadata[..n + 1], staged, sample)
  {
    hide Filter, Source, ProductAt;
    assert metadata[..n + 1] == metadata[..n] + [metadata[n]];
    var target := metadata[n].target;
    var rows := Filter(metadata[..n], ForTarget(target));
    assert HoldsProduct(columns, target, rows, staged, sample);
    forall row | row in metadata[..n] && row.target == target
      ensures |Source(row, staged, sample)| == |Source(metadata[n], staged, sample)|
    {
      assert ForTarget(target)(row) && row in rows;
    }
  }

  /** The product each target is due, read through the cache. None where a row names a series
      that is not staged, or two rows of one column differ in length. */
  method ColumnsByAttribute(metadata: seq<MetadataRow>, staged: StagedSeries, sample: Option<string>, cache: Cache)
    returns (result: Option<Columns>)
    requires IsCoherent(cache.entries, staged)
    modifies cache
    ensures IsCoherent(cache.entries, staged)
    ensures old(cache.entries).Keys <= cache.entries.Keys
    ensures forall key :: key in cache.entries && key !in old(cache.entries) ==> key.sample == sample
    ensures result.None? <==> CannotBuild(metadata, staged, sample)
    ensures result.Some? ==> AreColumns(result.value, metadata, staged, sample)
  {
    hide Filter, Source, AreColumns, CannotBuild, IsProduct, FilterToSample, ReadDirectly;
    var columns: Columns := map[];
    NoColumnsYet(staged, sample);
    assert metadata[..0] == [];
    for n := 0 to |metadata|
      invariant IsCoherent(cache.entries, staged)
      invariant old(cache.entries).Keys <= cache.entries.Keys
      invariant forall key :: key in cache.entries && key !in old(cache.entries) ==> key.sample == sample
      invariant AreColumns(columns, metadata[..n], staged, sample)
      invariant !CannotBuild(metadata[..n], staged, sample)
    {
      var row := metadata[n];
      var cacheKey := CacheKey(row.series, sample);
      if cacheKey !in cache.entries {
        if row.series !in staged {
          UnstagedRow(metadata, n, staged, sample);
          return None;
        }
        var read := CollectSeriesByComponent(staged[row.series], sample);
        cache.entries := cache.entries[cacheKey := read];
      }
      var held := cache.entries[cacheKey];
      var values := if row.sourceComponent in held then held[row.sourceComponent] else [];
      ReadGivesTheSource(row, staged, sample);
      var scaled := Scaled(values, row.scaling, row.offset);
      var byComponent := if row.target.attribute in columns then columns[row.target.attribute] else map[];
      var column := scaled;
      if row.target.component in byComponent {
        var compounded := Compound(byComponent[row.target.component], scaled);
        if compounded.None? {
          ClashesWithHeld(metadata, n, columns, staged, sample);
          return None;
        }
        column := compounded.value;
      }
      ColumnIsTheProduct(columns, metadata, n, staged, sample, column);
      FitsWithHeld(metadata, n, columns, staged, sample);
      var after := columns[row.target.attribute := byComponent[row.target.component := column]];
      ColumnsStep(columns, after, metadata, n, staged, sample, column);
      columns := after;
    }
    assert metadata[..|metadata|] == metadata;
    result := Some(columns);
  }

  lemma NoColumnsYet(staged: StagedSeries, sample: Option<string>)
    ensures AreColumns(map[], [], staged, sample) && !CannotBuild([], staged, sample)
  {
  }

  lemma UnstagedRow(metadata: seq<MetadataRow>, n: nat, staged: StagedSeries, sample: Option<string>)
    requires n < |metadata| && metadata[n].series !in staged
    ensures CannotBuild(metadata, staged, sample)
  {
  }

  lemma ReadGivesTheSource(row: MetadataRow, staged: StagedSeries, sample: Option<string>)
    requires row.series in staged
    ensures var read := ReadDirectly(FilterToSample(staged[row.series], sample));
            Source(row, staged, sample) == if row.sourceComponent in read then read[row.sourceComponent] else []
  {
    hide FilterToSample, ValuesOf, Components;
    var frame := FilterToSample(staged[row.series], sample);
    if row.sourceComponent !in Components(frame) {
      ReadingAMissingComponent(frame, row.sourceComponent);
    }
  }

  lemma ColumnIsTheProduct(columns: Columns, metadata: seq<MetadataRow>, n: nat, staged: StagedSeries,
                           sample: Option<string>, column: seq<real>)
    requires n < |metadata| && AreColumns(columns, metadata[..n], staged, sample)
    requires var row := metadata[n];
             var scaled := Scaled(Source(row, staged, sample), row.scaling, row.offset);
             if HasColumn(columns, row.target)
             then Compound(columns[row.target.attribute][row.target.component], scaled) == Some(column)
             else column == scaled
    ensures IsProduct(column, Filter(metadata[..n], ForTarget(metadata[n].target)) + [metadata[n]], staged, sample)
  {
    hide Filter, Source, IsProduct, Compound, Scaled;
    var row := metadata[n];
    var rows := Filter(metadata[..n], ForTarget(row.target));
    assert HoldsProduct(columns, row.target, rows, staged, sample);
    if HasColumn(columns, row.target) {
      SameShape(columns[row.target.attribute][row.target.component], row, staged, sample);
      ProductStep(rows, row, staged, sample, columns[row.target.attribute][row.target.component], column);
    } else {
      assert rows == [];
      FirstFactor(row, staged, sample);
    }
  }

  lemma SameShape(held: seq<real>, row: MetadataRow, staged: StagedSeries, sample: Option<string>)
    requires Compound(held, Scaled(Source(row, staged, sample), row.scaling, row.offset)).Some?
    ensures |Source(row, staged, sample)| == |held|
  {
  }

  // ---- An ensemble ----

  /** Drops every entry the sample's network read. */
  method EvictSample(cache: Cache, sample: string)
    modifies cache
    ensures cache.entries.Keys == set key | key in old(cache.entries) && key.sample != Some(sample)
    ensures forall key :: key in cache.entries ==> cache.entries[key] == old(cache.entries)[key]
  {
    var evicted := set key | key in cache.entries && key.sample == Some(sample);
    while evicted != {}
      invariant evicted == set key | key in cache.entries && key.sample == Some(sample)
      invariant cache.entries.Keys <= old(cache.entries).Keys
      invariant forall key :: key in old(cache.entries) && key.sample != Some(sample) ==> key in cache.entries
      invariant forall key :: key in cache.entries ==> cache.entries[key] == old(cache.entries)[key]
      decreases evicted
    {
      var key :| key in evicted;
      cache.entries := cache.entries - {key};
      evicted := evicted - {key};
    }
    assert forall key :: key in cache.entries && key.sample == Some(sample) ==> key in evicted;
  }

  /** One network's columns per sample, through one cache. None where one of them cannot be built.
      The columns are those that reading every series directly gives, and once a network is written
      the cache holds nothing. */
  method WriteEnsemble(metadata: seq<MetadataRow>, staged: StagedSeries, samples: seq<string>)
    returns (result: Option<seq<Columns>>)
    ensures result.None? <==> exists i :: 0 <= i < |samples| && CannotBuild(metadata, staged, Some(samples[i]))
    ensures result.Some? ==>
              && |result.value| == |samples|
              && forall i :: 0 <= i < |samples| ==> AreColumns(result.value[i], metadata, staged, Some(samples[i]))
  {
    hide AreColumns, CannotBuild;
    var cache := new Cache();
    var networks: seq<Columns> := [];
    for n := 0 to |samples|
      invariant cache.entries == map[]
      invariant forall i :: 0 <= i < n ==> !CannotBuild(metadata, staged, Some(samples[i]))
      invariant |networks| == n
      invariant forall i :: 0 <= i < n ==> AreColumns(networks[i], metadata, staged, Some(samples[i]))
    {
      var columns := ColumnsByAttribute(metadata, staged, Some(samples[n]), cache);
      if columns.None? {
        return None;
      }
      networks := networks + [columns.value];
      EvictSample(cache, samples[n]);
      assert cache.entries.Keys == {};
    }
    result := Some(networks);
  }
}
