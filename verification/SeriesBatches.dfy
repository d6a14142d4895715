/** Components in batches, and what reading by batches gives
    (interop/plugins/shared/series_batches.py and staged_samples.py). */
module SeriesBatches {
  import opened Common

  // One value of one component at one snapshot; a row with no sample is shared by every sample.
  datatype StagedRow = StagedRow(snapshot: int, component: string, value: real, sample: Option<string>)

  type Frame = seq<StagedRow>

  // The number of rows batches are sized to.
  const ROWS_PER_BATCH := 1_000_000

  predicate IsOfSample(row: StagedRow, sample: string) { row.sample == None || row.sample == Some(sample) }

  /** The rows a sample is made of: its own and the shared ones. */
  function FilterToSample(frame: Frame, sample: Option<string>): Frame {
    match sample
    case None => frame
    case Some(name) => Filter(frame, (row: StagedRow) => IsOfSample(row, name))
  }

  /** A sample is made of its own rows and of those every sample shares, in the frame's order; asked
      of no sample, the frame is read whole. */
  lemma SampleIsItsOwnAndSharedRows(frame: Frame, name: string)
    ensures FilterToSample(frame, None) == frame
    ensures forall row :: row in FilterToSample(frame, Some(name)) <==>
              row in frame && (row.sample.None? || row.sample.value == name)
    ensures (forall row :: row in frame && row.sample.Some? ==> row.sample.value == name) ==>
              FilterToSample(frame, Some(name)) == frame
  {
    var isOfSample := (row: StagedRow) => IsOfSample(row, name);
    forall row ensures row in FilterToSample(frame, Some(name)) <==> row in frame && isOfSample(row) {}
    if forall row :: row in frame && row.sample.Some? ==> row.sample.value == name {
      FilterAll(frame, isOfSample);
    }
  }

  // ---- The order of names ----

  predicate NameLeq(a: string, b: string) {
    |a| == 0 || (|b| > 0 && (a[0] < b[0] || (a[0] == b[0] && NameLeq(a[1..], b[1..]))))
  }

  lemma {:induction false} NameLeqIsTotal(a: string, b: string)
    ensures NameLeq(a, b) || NameLeq(b, a)
  {
    if |a| > 0 && |b| > 0 && a[0] == b[0] {
      NameLeqIsTotal(a[1..], b[1..]);
    }
  }

  lemma {:induction false} NameLeqIsTransitive(a: string, b: string, c: string)
    requires NameLeq(a, b) && NameLeq(b, c)
    ensures NameLeq(a, c)
  {
    if |a| > 0 && a[0] == b[0] == c[0] {
      NameLeqIsTransitive(a[1..], b[1..], c[1..]);
    }
  }

  ghost predicate AreSortedNames(names: seq<string>) {
    && (forall i, j :: 0 <= i < j < |names| ==> NameLeq(names[i], names[j]))
    && (forall i, j :: 0 <= i < j < |names| ==> names[i] != names[j])
  }

  function InsertName(name: string, names: seq<string>): (r: seq<string>)
    requires AreSortedNames(names) && name !in names
    ensures AreSortedNames(r)
    ensures forall other :: other in r <==> other == name || other in names
  {
    if |names| == 0 then [name]
    else
      NameLeqIsTotal(name, names[0]);
      assert names == [names[0]] + names[1..];
      if NameLeq(name, names[0]) then
        InsertFirst(name, names);
        [name] + names
      else
        var rest := InsertName(name, names[1..]);
        InsertLater(names[0], names[1..], name, rest);
        [names[0]] + rest
  }

  lemma InsertFirst(name: string, names: seq<string>)
    requires AreSortedNames(names) && name !in names && |names| > 0 && NameLeq(name, names[0])
    ensures AreSortedNames([name] + names)
  {
    forall j | 0 < j < |names| ensures NameLeq(name, names[j]) {
      NameLeqIsTransitive(name, names[0], names[j]);
    }
  }

  lemma InsertLater(first: string, others: seq<string>, name: string, rest: seq<string>)
    requires AreSortedNames([first] + others) && AreSortedNames(rest) && NameLeq(first, name) && first != name
    requires forall other :: other in rest <==> other == name || other in others
    ensures AreSortedNames([first] + rest)
  {
    forall j | 0 <= j < |rest| ensures NameLeq(first, rest[j]) && first != rest[j] {
      assert rest[j] in rest;
      if rest[j] != name {
        var k :| 0 <= k < |others| && others[k] == rest[j];
        var all := [first] + others;
        assert all[0] == first && all[1 + k] == rest[j];
      }
    }
  }

  /** The distinct names, sorted. */
  function SortedNames(names: seq<string>): (r: seq<string>)
    ensures AreSortedNames(r)
    ensures forall name :: name in r <==> name in names
  {
    if |names| == 0 then []
    else
      var front, last := SortedNames(names[..|names| - 1]), names[|names| - 1];
      assert names == names[..|names| - 1] + [last];
      if last in front then front else InsertName(last, front)
  }

  // ---- Batches ----

  function ComponentNames(frame: Frame): (r: seq<string>)
    ensures |r| == |frame|
    ensures forall i :: 0 <= i < |r| ==> r[i] == frame[i].component
  {
    seq(|frame|, i requires 0 <= i < |frame| => frame[i].component)
  }

  /** The components of a series, in order. */
  function Components(frame: Frame): (r: seq<string>)
    ensures AreSortedNames(r)
    ensures forall name :: name in r <==> exists row :: row in frame && row.component == name
  {
    var names := ComponentNames(frame);
    assert forall i :: 0 <= i < |frame| ==> names[i] in names && frame[i] in frame;
    SortedNames(names)
  }

  function Max(a: int, b: int): int { if a < b then b else a }

  function Slices(components: seq<string>, size: nat): (r: seq<seq<string>>)
    requires size > 0
  {
    if |components| <= size then (if |components| == 0 then [] else [components])
    else [components[..size]] + Slices(components[size..], size)
  }

  function BatchSize(rows: nat, components: nat): nat
    requires components > 0
  {
    Max(ROWS_PER_BATCH / Max(rows / components, 1), 1)
  }

  /** Groups sized so that one group holds about as many rows as a batch may. */
  function ListComponentBatches(frame: Frame): seq<seq<string>> {
    var components := Components(frame);
    if |components| == 0 then [] else Slices(components, BatchSize(|frame|, |components|))
  }

  function Flatten<T>(parts: seq<seq<T>>): seq<T> {
    if |parts| == 0 then [] else Flatten(parts[..|parts| - 1]) + parts[|parts| - 1]
  }

  lemma {:induction false} FlattenConcat<T>(a: seq<seq<T>>, b: seq<seq<T>>)
    ensures Flatten(a + b) == Flatten(a) + Flatten(b)
  {
    if |b| == 0 {
      assert a + b == a;
    } else {
      FlattenConcat(a, b[..|b| - 1]);
      assert (a + b)[..|a + b| - 1] == a + b[..|b| - 1];
    }
  }

  lemma FlattenOne<T>(part: seq<T>)
    ensures Flatten([part]) == part
  {
  }

  lemma FlattenFirst<T>(first: seq<T>, rest: seq<seq<T>>)
    ensures Flatten([first] + rest) == first + Flatten(rest)
  {
    hide Flatten;
    FlattenConcat([first], rest);
    FlattenOne(first);
  }

  lemma {:induction false} SlicesPartition(components: seq<string>, size: nat)
    requires size > 0
    ensures Flatten(Slices(components, size)) == components
    ensures forall batch :: batch in Slices(components, size) ==> 0 < |batch| <= size
  {
    hide Flatten;
    if |components| > size {
      var first, rest := components[..size], Slices(components[size..], size);
      SlicesPartition(components[size..], size);
      FlattenFirst(first, rest);
      assert components == first + components[size..];
    } else if |components| > 0 {
      FlattenOne(components);
    } else {
      FlattenNone<string>();
    }
  }

  lemma FlattenNone<T>()
    ensures Flatten<T>([]) == []
  {
  }

  /** The batches are the components, cut up in order: each is in one batch, once. A batch of more
      than one component reads no more rows than a batch may, were the rows spread evenly. */
  lemma BatchesPartitionComponents(frame: Frame)
    ensures Flatten(ListComponentBatches(frame)) == Components(frame)
    ensures forall batch :: batch in ListComponentBatches(frame) ==>
              |batch| > 0 && (|batch| > 1 ==> |batch| * (|frame| / |Components(frame)|) <= 1_000_000)
  {
    var components := Components(frame);
    if |components| > 0 {
      var each := Max(|frame| / |components|, 1);
      var size := BatchSize(|frame|, |components|);
      SlicesPartition(components, size);
      forall batch | batch in Slices(components, size) && |batch| > 1
        ensures |batch| * (|frame| / |components|) <= ROWS_PER_BATCH
      {
        assert |batch| <= ROWS_PER_BATCH / each;
        QuotientTimesDivisor(|batch|, each);
        SmallerFactor(|batch|, |frame| / |components|, each);
      }
    }
  }

  lemma {:induction false} SlicesAreFull(components: seq<string>, size: nat, n: nat)
    requires size > 0 && n + 1 < |Slices(components, size)|
    ensures |Slices(components, size)[n]| == size
  {
    if n > 0 {
      SlicesAreFull(components[size..], size, n - 1);
    }
  }

  /** No batch but the last could take one more component without passing a million rows, were the
      rows spread evenly with each component holding one at least. */
  lemma BatchesAreFull(frame: Frame, n: nat)
    requires n + 1 < |ListComponentBatches(frame)|
    ensures var rows, components := |frame|, |Components(frame)|;
            var each := if rows < components then 1 else rows / components;
            (|ListComponentBatches(frame)[n]| + 1) * each > 1_000_000
  {
    hide Slices;
    var rows, components := |frame|, |Components(frame)|;
    var each := if rows < components then 1 else rows / components;
    SlicesAreFull(Components(frame), BatchSize(rows, components), n);
    EachIsTheMean(rows, components);
    OneMoreThanTheQuotient(1_000_000, each);
    SmallerFactor(each, 1_000_000 / each + 1, BatchSize(rows, components) + 1);
  }

  lemma EachIsTheMean(rows: nat, components: nat)
    requires components > 0
    ensures Max(rows / components, 1) == if rows < components then 1 else rows / components
  {
    if rows < components {
      assert rows / components == 0;
    } else {
      assert rows / components >= 1;
    }
  }

  lemma OneMoreThanTheQuotient(n: nat, d: nat)
    requires d > 0
    ensures (n / d + 1) * d > n
  {
  }

  lemma QuotientTimesDivisor(n: nat, d: nat)
    requires d > 0 && n <= ROWS_PER_BATCH / d
    ensures n * d <= ROWS_PER_BATCH
  {
  }

  lemma SmallerFactor(n: nat, a: int, b: int)
    requires a <= b
    ensures n * a <= n * b
  {
  }

  // ---- Reading ----

  function AtSnapshot(): StagedRow -> int { (row: StagedRow) => row.snapshot }

  function OfComponent(name: string): StagedRow -> bool { (row: StagedRow) => row.component == name }

  function Values(rows: seq<StagedRow>): (r: seq<real>)
    ensures |r| == |rows|
    ensures forall i :: 0 <= i < |r| ==> r[i] == rows[i].value
  {
    seq(|rows|, i requires 0 <= i < |rows| => rows[i].value)
  }

  /** A component's own values, in snapshot order: none where the frame does not mention it. */
  function ValuesOf(frame: Frame, name: string): seq<real> {
    Values(StableSort(Filter(frame, OfComponent(name)), AtSnapshot()))
  }

  /** One batch, sorted whole and then split by component. */
  function ReadBatchByComponent(frame: Frame, batch: seq<string>): map<string, seq<real>> {
    var collected := StableSort(Filter(frame, (row: StagedRow) => row.component in batch), AtSnapshot());
    map row | row in collected :: row.component := Values(Filter(collected, OfComponent(row.component)))
  }

  /** Every component's own values. */
  function ReadDirectly(frame: Frame): map<string, seq<real>> {
    map name | name in Components(frame) :: ValuesOf(frame, name)
  }

  lemma {:induction false} FilterOfInsert<T(!new)>(x: T, s: seq<T>, key: T -> int, p: T -> bool)
    requires IsSorted(s, key)
    ensures Filter(Insert(x, s, key), p) == if p(x) then Insert(x, Filter(s, p), key) else Filter(s, p)
  {
    hide Filter;
    FilterOfOne(x, p);
    if |s| == 0 {
      FilterOfNone(p);
    } else {
      FilterOfOne(s[0], p);
      FilterConcat([s[0]], s[1..], p);
      assert [s[0]] + s[1..] == s;
      if key(x) <= key(s[0]) {
        FilterConcat([x], s, p);
        InsertBeforeAll(x, Filter(s, p), key);
      } else {
        FilterOfInsert(x, s[1..], key, p);
        FilterConcat([s[0]], Insert(x, s[1..], key), p);
        assert ([s[0]] + Filter(s[1..], p))[1..] == Filter(s[1..], p);
        assert [] + Filter(s[1..], p) == Filter(s[1..], p);
        assert [] + Filter(Insert(x, s[1..], key), p) == Filter(Insert(x, s[1..], key), p);
      }
    }
  }

  lemma FilterOfOne<T(!new)>(x: T, p: T -> bool)
    ensures Filter([x], p) == if p(x) then [x] else []
  {
  }

  lemma InsertBeforeAll<T(!new)>(x: T, s: seq<T>, key: T -> int)
    requires forall y :: y in s ==> key(x) <= key(y)
    ensures Insert(x, s, key) == [x] + s
  {
  }

  lemma SortOfFront<T(!new)>(x: T, rest: seq<T>, key: T -> int)
    ensures StableSort([x] + rest, key) == Insert(x, StableSort(rest, key), key)
  {
    hide Insert;
    assert ([x] + rest)[1..] == rest;
  }

  /** Sorting and then splitting gives what splitting and then sorting gives. */
  lemma {:induction false} FilterOfSort<T(!new)>(s: seq<T>, key: T -> int, p: T -> bool)
    ensures Filter(StableSort(s, key), p) == StableSort(Filter(s, p), key)
  {
    hide Filter, Insert;
    if |s| == 0 {
      FilterOfNone(p);
    } else {
      var first, rest := s[0], s[1..];
      assert s == [first] + rest;
      FilterOfSort(rest, key, p);
      StableSortSorts(rest, key);
      SortOfFront(first, rest, key);
      FilterOfInsert(first, StableSort(rest, key), key, p);
      FilterOfOne(first, p);
      FilterConcat([first], rest, p);
      SortOfFront(first, Filter(rest, p), key);
      assert [] + Filter(rest, p) == Filter(rest, p);
    }
  }

  /** A batch gives each of its components that has rows just those rows' values. */
  lemma BatchReadsDirectly(frame: Frame, batch: seq<string>)
    ensures forall name :: name in ReadBatchByComponent(frame, batch) <==> name in batch && name in Components(frame)
    ensures forall name :: name in ReadBatchByComponent(frame, batch) ==>
              ReadBatchByComponent(frame, batch)[name] == ValuesOf(frame, name)
  {
    hide Filter, StableSort;
    var inBatch := (row: StagedRow) => row.component in batch;
    var collected := StableSort(Filter(frame, inBatch), AtSnapshot());
    forall name | name in batch ensures Filter(collected, OfComponent(name)) == StableSort(Filter(frame, OfComponent(name)), AtSnapshot()) {
      FilterOfSort(Filter(frame, inBatch), AtSnapshot(), OfComponent(name));
      FilterAbsorbs(frame, inBatch, OfComponent(name));
    }
  }

  /** Gathers what each batch reads; together that is what one direct read gives. */
  method CollectSeriesByComponent(frame: Frame, sample: Option<string>) returns (byComponent: map<string, seq<real>>)
    ensures byComponent == ReadDirectly(FilterToSample(frame, sample))
  {
    hide ReadBatchByComponent, ValuesOf, ListComponentBatches, Components, FilterToSample;
    var sampled := FilterToSample(frame, sample);
    var batches := ListComponentBatches(sampled);
    byComponent := map[];
    for n := 0 to |batches|
      invariant forall name :: name in byComponent <==> name in Flatten(batches[..n]) && name in Components(sampled)
      invariant forall name :: name in byComponent ==> byComponent[name] == ValuesOf(sampled, name)
    {
      BatchReadsDirectly(sampled, batches[n]);
      assert batches[..n + 1][..n] == batches[..n];
      byComponent := byComponent + ReadBatchByComponent(sampled, batches[n]);
    }
    assert batches[..|batches|] == batches;
    BatchesPartitionComponents(sampled);
  }

  lemma ReadingAMissingComponent(frame: Frame, name: string)
    requires name !in Components(frame)
    ensures ValuesOf(frame, name) == []
  {
    FilterNone(frame, OfComponent(name));
  }
}
