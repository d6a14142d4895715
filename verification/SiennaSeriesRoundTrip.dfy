/** A series written to the store and staged back
    (interop/plugins/sinks/emit_sienna_h5_sidecar.py, then interop/plugins/sources/stage_sienna_system_json.py). */
module SiennaSeriesRoundTrip {
  import opened Common
  import opened SeriesBatches
  import opened SiennaSeriesWriter
  import opened SiennaSeriesReader

  // ---- Rows no two of which share a snapshot ----

  ghost predicate HaveDistinctKeys<T(!new)>(s: seq<T>, key: T -> int) {
    forall i, j :: 0 <= i < j < |s| ==> key(s[i]) != key(s[j])
  }

  ghost predicate IsStrict<T(!new)>(s: seq<T>, key: T -> int) {
    forall i, j :: 0 <= i < j < |s| ==> key(s[i]) < key(s[j])
  }

  lemma {:induction false} InsertKeepsStrict<T(!new)>(x: T, s: seq<T>, key: T -> int)
    requires IsStrict(s, key) && forall y :: y in s ==> key(y) != key(x)
    ensures IsStrict(Insert(x, s, key), key)
  {
    if |s| != 0 && key(s[0]) < key(x) {
      var rest := Insert(x, s[1..], key);
      InsertKeepsStrict(x, s[1..], key);
      forall y | y in rest ensures key(s[0]) < key(y) {
        assert y == x || y in s[1..];
      }
    }
  }

  lemma {:induction false} SortIsStrict<T(!new)>(s: seq<T>, key: T -> int)
    requires HaveDistinctKeys(s, key)
    ensures IsStrict(StableSort(s, key), key)
  {
    if |s| != 0 {
      SortIsStrict(s[1..], key);
      forall y | y in StableSort(s[1..], key) ensures key(y) != key(s[0]) {
        assert y in s[1..];
      }
      InsertKeepsStrict(s[0], StableSort(s[1..], key), key);
    }
  }

  lemma FirstIsIn<T>(s: seq<T>)
    ensures |s| > 0 ==> s[0] in s
  {
  }

  /** Two strictly ascending sequences of the same elements are the same. */
  lemma {:induction false} StrictIsUnique<T(!new)>(a: seq<T>, b: seq<T>, key: T -> int)
    requires IsStrict(a, key) && IsStrict(b, key) && forall x :: x in a <==> x in b
    ensures a == b
  {
    FirstIsIn(a);
    FirstIsIn(b);
    if |a| > 0 {
      assert a[0] == b[0];
      forall x ensures x in a[1..] <==> x in b[1..] {
        assert x in a <==> x == a[0] || x in a[1..];
        assert x in b <==> x == b[0] || x in b[1..];
      }
      StrictIsUnique(a[1..], b[1..], key);
    }
  }

  // ---- Scanning a directory's files ----

  /** The rows of the files, in whatever order the files are read. */
  function Scan(files: Files, order: seq<File>): seq<StagedRow>
    requires forall file :: file in order ==> file in files
  {
    if |order| == 0 then [] else Scan(files, order[..|order| - 1]) + files[order[|order| - 1]]
  }

  /** Each of the directory's files, once. */
  ghost predicate Lists(order: seq<File>, files: Files, directory: DirectoryKey) {
    AreDistinct(order) && forall file :: file in order <==> file in files && file.directory == directory
  }

  lemma {:induction false} BlocksAreDistinct(whole: seq<StagedRow>, directory: DirectoryKey, id: nat, rowsPerBlock: nat,
                                             a: File, b: File, x: StagedRow, y: StagedRow)
    requires rowsPerBlock > 0 && IsStrict(whole, AtSnapshot()) && a != b
    requires var own := Blocks(whole, directory, id, rowsPerBlock, 0);
             a in own && b in own && x in own[a] && y in own[b]
    ensures x.snapshot != y.snapshot
  {
    hide Blocks;
    LaterBlocksAreElsewhere(whole, directory, id, rowsPerBlock, 0);
    BlocksHoldSlices(whole, directory, id, rowsPerBlock, 0);
    if a.offset < b.offset {
      BlocksAreApart(whole, directory, id, rowsPerBlock, 0, a, b);
    } else {
      assert b.offset < a.offset;
      BlocksAreApart(whole, directory, id, rowsPerBlock, 0, b, a);
    }
    var k := PositionInBlock(whole, a.offset, rowsPerBlock, x);
    var l := PositionInBlock(whole, b.offset, rowsPerBlock, y);
    assert AtSnapshot()(whole[k]) == x.snapshot && AtSnapshot()(whole[l]) == y.snapshot;
  }

  lemma PositionInBlock(whole: seq<StagedRow>, offset: nat, rowsPerBlock: nat, row: StagedRow) returns (k: nat)
    requires offset < |whole| && row in Block(whole, offset, rowsPerBlock)
    ensures offset <= k < offset + rowsPerBlock && k < |whole| && whole[k] == row
  {
    var j :| 0 <= j < |Block(whole, offset, rowsPerBlock)| && Block(whole, offset, rowsPerBlock)[j] == row;
    k := offset + j;
  }

  /** In a file the component's rows are its own series' block, or none. */
  ghost predicate HoldsOwnBlockOrNothing(files: Files, own: Files, file: File, component: string) {
    file in files && Filter(files[file], OfComponent(component)) == if file in own then own[file] else []
  }

  lemma {:induction false} ScannedRows(files: Files, order: seq<File>, whole: seq<StagedRow>, directory: DirectoryKey, id: nat,
                                       rowsPerBlock: nat, component: string)
    requires rowsPerBlock > 0 && IsStrict(whole, AtSnapshot()) && AreDistinct(order)
    requires forall file :: file in order ==> file in files
    requires forall file :: file in order ==>
               HoldsOwnBlockOrNothing(files, Blocks(whole, directory, id, rowsPerBlock, 0), file, component)
    ensures var own := Blocks(whole, directory, id, rowsPerBlock, 0);
            var rows := Filter(Scan(files, order), OfComponent(component));
            && HaveDistinctKeys(rows, AtSnapshot())
            && forall row :: row in rows <==> exists file :: file in order && file in own && row in own[file]
  {
    hide Filter, Blocks;
    var own := Blocks(whole, directory, id, rowsPerBlock, 0);
    if |order| == 0 {
      FilterOfNone(OfComponent(component));
    } else {
      var front, last := order[..|order| - 1], order[|order| - 1];
      assert order == front + [last];
      ScannedRows(files, front, whole, directory, id, rowsPerBlock, component);
      FilterConcat(Scan(files, front), files[last], OfComponent(component));
      var before, added := Filter(Scan(files, front), OfComponent(component)), Filter(files[last], OfComponent(component));
      assert Filter(Scan(files, order), OfComponent(component)) == before + added;
      assert last !in front;
      assert HoldsOwnBlockOrNothing(files, own, last, component);
      if last in own {
        BlockIsStrict(whole, directory, id, rowsPerBlock, last);
        forall x, y | x in before && y in added ensures x.snapshot != y.snapshot {
          var file :| file in front && file in own && x in own[file];
          BlocksAreDistinct(whole, directory, id, rowsPerBlock, file, last, x, y);
        }
        ConcatKeepsDistinctKeys(before, added);
      } else {
        assert before + added == before;
      }
      forall row ensures row in before + added <==> exists file :: file in order && file in own && row in own[file] {
        if row in added {
          assert last in order && last in own;
        }
      }
    }
  }

  lemma ConcatKeepsDistinctKeys(a: seq<StagedRow>, b: seq<StagedRow>)
    requires HaveDistinctKeys(a, AtSnapshot()) && HaveDistinctKeys(b, AtSnapshot())
    requires forall x, y :: x in a && y in b ==> x.snapshot != y.snapshot
    ensures HaveDistinctKeys(a + b, AtSnapshot())
  {
  }

  lemma BlockIsStrict(whole: seq<StagedRow>, directory: DirectoryKey, id: nat, rowsPerBlock: nat, file: File)
    requires rowsPerBlock > 0 && IsStrict(whole, AtSnapshot())
    requires file in Blocks(whole, directory, id, rowsPerBlock, 0)
    ensures HaveDistinctKeys(Blocks(whole, directory, id, rowsPerBlock, 0)[file], AtSnapshot())
  {
    hide Blocks;
    BlocksHoldSlices(whole, directory, id, rowsPerBlock, 0);
    var block := Block(whole, file.offset, rowsPerBlock);
    forall i, j | 0 <= i < j < |block| ensures AtSnapshot()(block[i]) != AtSnapshot()(block[j]) {
      assert block[i] == whole[file.offset + i] && block[j] == whole[file.offset + j];
    }
  }

  lemma WholeIsStrict(association: Association, entries: seq<StoredSeries>, capacity: Option<real>, component: string)
    requires IsStored(association, entries)
    ensures IsStrict(WholeSeries(association, entries, capacity, component), AtSnapshot())
  {
    var whole := WholeSeries(association, entries, capacity, component);
    forall i, j | 0 <= i < j < |whole| ensures AtSnapshot()(whole[i]) < AtSnapshot()(whole[j]) {
      AtLeastOneTimes(association.resolution, j - i);
      assert association.resolution * (j - i) == j * association.resolution - i * association.resolution;
    }
  }

  ghost predicate AreNamed(kept: seq<Association>, names: map<Owner, string>) {
    forall association :: association in kept ==> association.owner in names
  }

  /** Association `j` puts rows of the same component in the same directory as `i`. */
  ghost predicate PutsRowsBeside(kept: seq<Association>, i: nat, j: nat, names: map<Owner, string>)
    requires i < |kept| && j < |kept| && AreNamed(kept, names)
  {
    && kept[j].length > 0
    && kept[j].owner.0 == kept[i].owner.0 && kept[j].name == kept[i].name
    && names[kept[j].owner] == names[kept[i].owner]
  }

  /** No other series puts rows of this one's component in its directory. */
  ghost predicate IsAloneInItsDirectory(kept: seq<Association>, i: nat, names: map<Owner, string>)
    requires i < |kept| && AreNamed(kept, names)
  {
    forall j :: 0 <= j < |kept| && j != i ==> !PutsRowsBeside(kept, i, j, names)
  }

  lemma FileHoldsOwnBlockOrNothing(kept: seq<Association>, i: nat, entries: seq<StoredSeries>, names: map<Owner, string>,
                                   capacities: Capacities, rowsPerBlock: nat, file: File)
    requires CanStage(kept, entries, names) && rowsPerBlock > 0 && AreDistinctIds(kept) && i < |kept|
    requires IsAloneInItsDirectory(kept, i, names)
    requires file in StagedFiles(kept, entries, names, capacities, rowsPerBlock) && file.directory == DirectoryOf(kept[i])
    ensures HoldsOwnBlockOrNothing(StagedFiles(kept, entries, names, capacities, rowsPerBlock),
                                   BlocksOf(kept[i], entries, names, capacities, rowsPerBlock), file, names[kept[i].owner])
  {
    hide Filter, StagedFiles, Blocks, IsStored;
    var files, component := StagedFiles(kept, entries, names, capacities, rowsPerBlock), names[kept[i].owner];
    var j := FileHasItsSeries(kept, entries, names, capacities, rowsPerBlock, file);
    FilesOfOneSeries(kept, i, entries, names, capacities, rowsPerBlock);
    FilesOfOneSeries(kept, j, entries, names, capacities, rowsPerBlock);
    BlockIsOfItsComponent(kept[j], entries, names, capacities, rowsPerBlock, file);
    LaterBlocksAreElsewhere(SeriesOf(kept[j], entries, names, capacities), DirectoryOf(kept[j]), kept[j].id, rowsPerBlock, 0);
    if j == i {
      FilterAll(files[file], OfComponent(component));
    } else {
      assert !PutsRowsBeside(kept, i, j, names);
      FilterNone(files[file], OfComponent(component));
    }
  }

  lemma BlockIsOfItsComponent(association: Association, entries: seq<StoredSeries>, names: map<Owner, string>,
                              capacities: Capacities, rowsPerBlock: nat, file: File)
    requires IsStored(association, entries) && association.owner in names && rowsPerBlock > 0
    requires file in BlocksOf(association, entries, names, capacities, rowsPerBlock)
    ensures forall row :: row in BlocksOf(association, entries, names, capacities, rowsPerBlock)[file] ==>
              row.component == names[association.owner]
  {
    hide Blocks;
    var whole := SeriesOf(association, entries, names, capacities);
    BlocksHoldSlices(whole, DirectoryOf(association), association.id, rowsPerBlock, 0);
    forall row | row in Block(whole, file.offset, rowsPerBlock) ensures row.component == names[association.owner] {
      var k := PositionInBlock(whole, file.offset, rowsPerBlock, row);
    }
  }

  /** Whatever the size of the blocks and whatever order the files are scanned in, a component's
      rows are its series, in snapshot order. */
  lemma ScannedSeriesIsWhole(kept: seq<Association>, i: nat, entries: seq<StoredSeries>, names: map<Owner, string>,
                             capacities: Capacities, rowsPerBlock: nat, order: seq<File>)
    requires CanStage(kept, entries, names) && rowsPerBlock > 0 && AreDistinctIds(kept) && i < |kept|
    requires IsAloneInItsDirectory(kept, i, names)
    requires Lists(order, StagedFiles(kept, entries, names, capacities, rowsPerBlock), DirectoryOf(kept[i]))
    ensures StableSort(Filter(Scan(StagedFiles(kept, entries, names, capacities, rowsPerBlock), order),
                              OfComponent(names[kept[i].owner])), AtSnapshot())
            == SeriesOf(kept[i], entries, names, capacities)
  {
    hide Filter, StagedFiles, Blocks, Block, IsStored, StableSort, WholeSeries, Scan;
    var files, component := StagedFiles(kept, entries, names, capacities, rowsPerBlock), names[kept[i].owner];
    var whole := SeriesOf(kept[i], entries, names, capacities);
    var directory, id := DirectoryOf(kept[i]), kept[i].id;
    var own := Blocks(whole, directory, id, rowsPerBlock, 0);
    forall file | file in order ensures HoldsOwnBlockOrNothing(files, own, file, component) {
      FileHoldsOwnBlockOrNothing(kept, i, entries, names, capacities, rowsPerBlock, file);
    }
    WholeIsStrict(kept[i], entries, CapacityOf(kept[i].owner, capacities), component);
    ScannedRows(files, order, whole, directory, id, rowsPerBlock, component);
    var rows := Filter(Scan(files, order), OfComponent(component));
    SortIsStrict(rows, AtSnapshot());
    FilesOfOneSeries(kept, i, entries, names, capacities, rowsPerBlock);
    LaterBlocksAreElsewhere(whole, directory, id, rowsPerBlock, 0);
    assert forall file :: file in own ==> file in order;
    BlocksHoldTheWhole(whole, directory, id, rowsPerBlock);
    StrictIsUnique(StableSort(rows, AtSnapshot()), whole, AtSnapshot());
  }

  lemma BlocksHoldTheWhole(whole: seq<StagedRow>, directory: DirectoryKey, id: nat, rowsPerBlock: nat)
    requires rowsPerBlock > 0
    ensures var own := Blocks(whole, directory, id, rowsPerBlock, 0);
            forall row :: row in whole <==> exists file :: file in own && row in own[file]
  {
    hide Blocks;
    var own := Blocks(whole, directory, id, rowsPerBlock, 0);
    BlocksHoldSlices(whole, directory, id, rowsPerBlock, 0);
    forall row ensures row in whole <==> exists file :: file in own && row in own[file] {
      if row in whole {
        var k :| 0 <= k < |whole| && whole[k] == row;
        var file := BlocksCover(whole, directory, id, rowsPerBlock, 0, k);
        assert own[file][k - file.offset] == row;
      }
      if file :| file in own && row in own[file] {
        var k := PositionInBlock(whole, file.offset, rowsPerBlock, row);
      }
    }
  }

  // ---- Series that share a directory and a component ----

  lemma {:induction false} StrictCountsOnce<T(!new)>(s: seq<T>, key: T -> int, x: T)
    requires IsStrict(s, key)
    ensures multiset(s)[x] <= 1
  {
    if |s| > 0 {
      assert s == [s[0]] + s[1..];
      StrictCountsOnce(s[1..], key, x);
      if x == s[0] {
        assert x !in s[1..];
      }
    }
  }

  lemma {:induction false} ScanMembers(files: Files, order: seq<File>, row: StagedRow)
    requires forall file :: file in order ==> file in files
    ensures row in Scan(files, order) <==> exists file :: file in order && row in files[file]
  {
    if |order| > 0 {
      assert order == order[..|order| - 1] + [order[|order| - 1]];
      ScanMembers(files, order[..|order| - 1], row);
    }
  }

  /** A row two files hold is scanned twice. */
  lemma {:induction false} ScanCountsTwice(files: Files, order: seq<File>, a: File, b: File, row: StagedRow)
    requires forall file :: file in order ==> file in files
    requires a in order && b in order && a != b && row in files[a] && row in files[b]
    ensures multiset(Scan(files, order))[row] >= 2
  {
    var front, last := order[..|order| - 1], order[|order| - 1];
    assert order == front + [last];
    if last == a {
      ScanMembers(files, front, row);
    } else if last == b {
      ScanMembers(files, front, row);
    } else {
      ScanCountsTwice(files, front, a, b, row);
    }
  }

  /** A row of a series is in one of the files of its directory. */
  lemma RowHasItsFile(kept: seq<Association>, j: nat, entries: seq<StoredSeries>, names: map<Owner, string>,
                      capacities: Capacities, rowsPerBlock: nat, row: StagedRow) returns (file: File)
    requires CanStage(kept, entries, names) && rowsPerBlock > 0 && AreDistinctIds(kept) && j < |kept|
    requires row in SeriesOf(kept[j], entries, names, capacities)
    ensures var files := StagedFiles(kept, entries, names, capacities, rowsPerBlock);
            && file in files && file.directory == DirectoryOf(kept[j]) && file.id == kept[j].id
            && row in files[file]
  {
    hide StagedFiles, Blocks, IsStored, SeriesOf;
    var whole := SeriesOf(kept[j], entries, names, capacities);
    BlocksHoldTheWhole(whole, DirectoryOf(kept[j]), kept[j].id, rowsPerBlock);
    FilesOfOneSeries(kept, j, entries, names, capacities, rowsPerBlock);
    LaterBlocksAreElsewhere(whole, DirectoryOf(kept[j]), kept[j].id, rowsPerBlock, 0);
    file :| file in BlocksOf(kept[j], entries, names, capacities, rowsPerBlock)
            && row in BlocksOf(kept[j], entries, names, capacities, rowsPerBlock)[file];
  }

  /** What a scan holds of a component: the rows of every series of that component, interleaved. */
  lemma ScannedRowsAreOfEverySharer(kept: seq<Association>, i: nat, entries: seq<StoredSeries>, names: map<Owner, string>,
                                    capacities: Capacities, rowsPerBlock: nat, order: seq<File>, row: StagedRow)
    requires CanStage(kept, entries, names) && rowsPerBlock > 0 && AreDistinctIds(kept) && i < |kept|
    requires Lists(order, StagedFiles(kept, entries, names, capacities, rowsPerBlock), DirectoryOf(kept[i]))
    ensures row in Filter(Scan(StagedFiles(kept, entries, names, capacities, rowsPerBlock), order), OfComponent(names[kept[i].owner]))
            <==> exists j :: 0 <= j < |kept| && PutsRowsBeside(kept, i, j, names) && row in SeriesOf(kept[j], entries, names, capacities)
  {
    hide Filter, StagedFiles, Blocks, IsStored, SeriesOf, Scan;
    var files, component := StagedFiles(kept, entries, names, capacities, rowsPerBlock), names[kept[i].owner];
    ScanMembers(files, order, row);
    if row in Filter(Scan(files, order), OfComponent(component)) {
      assert OfComponent(component)(row);
      var file :| file in order && row in files[file];
      var j := FileHasItsSeries(kept, entries, names, capacities, rowsPerBlock, file);
      FilesOfOneSeries(kept, j, entries, names, capacities, rowsPerBlock);
      BlockIsOfItsComponent(kept[j], entries, names, capacities, rowsPerBlock, file);
      var whole := SeriesOf(kept[j], entries, names, capacities);
      BlocksHoldTheWhole(whole, DirectoryOf(kept[j]), kept[j].id, rowsPerBlock);
      assert file in Blocks(whole, DirectoryOf(kept[j]), kept[j].id, rowsPerBlock, 0);
      assert row in Blocks(whole, DirectoryOf(kept[j]), kept[j].id, rowsPerBlock, 0)[file];
      SeriesLength(kept[j], entries, names, capacities, row);
      assert PutsRowsBeside(kept, i, j, names);
    }
    if j :| 0 <= j < |kept| && PutsRowsBeside(kept, i, j, names) && row in SeriesOf(kept[j], entries, names, capacities) {
      var file := RowHasItsFile(kept, j, entries, names, capacities, rowsPerBlock, row);
      SeriesLength(kept[j], entries, names, capacities, row);
      assert OfComponent(component)(row);
    }
  }

  lemma SeriesLength(association: Association, entries: seq<StoredSeries>, names: map<Owner, string>, capacities: Capacities,
                     row: StagedRow)
    requires IsStored(association, entries) && association.owner in names
    requires row in SeriesOf(association, entries, names, capacities)
    ensures association.length > 0 && row.component == names[association.owner]
  {
  }

  /** A series reads back whole, whatever the order its directory is scanned in, exactly when no
      other puts rows of its component there. */
  lemma SeriesReadsBackWholeExactlyWhenAlone(kept: seq<Association>, i: nat, entries: seq<StoredSeries>, names: map<Owner, string>,
                                             capacities: Capacities, rowsPerBlock: nat, order: seq<File>)
    requires CanStage(kept, entries, names) && rowsPerBlock > 0 && AreDistinctIds(kept) && i < |kept|
    requires Lists(order, StagedFiles(kept, entries, names, capacities, rowsPerBlock), DirectoryOf(kept[i]))
    ensures StableSort(Filter(Scan(StagedFiles(kept, entries, names, capacities, rowsPerBlock), order),
                              OfComponent(names[kept[i].owner])), AtSnapshot())
            == SeriesOf(kept[i], entries, names, capacities)
            <==> IsAloneInItsDirectory(kept, i, names)
  {
    hide Filter, StagedFiles, Blocks, IsStored, SeriesOf, Scan, StableSort, PutsRowsBeside;
    var files, component := StagedFiles(kept, entries, names, capacities, rowsPerBlock), names[kept[i].owner];
    if IsAloneInItsDirectory(kept, i, names) {
      ScannedSeriesIsWhole(kept, i, entries, names, capacities, rowsPerBlock, order);
    } else {
      var j :| 0 <= j < |kept| && j != i && PutsRowsBeside(kept, i, j, names);
      SharerSpoilsTheSeries(kept, i, j, entries, names, capacities, rowsPerBlock, order);
    }
  }

  lemma SharerSpoilsTheSeries(kept: seq<Association>, i: nat, j: nat, entries: seq<StoredSeries>, names: map<Owner, string>,
                              capacities: Capacities, rowsPerBlock: nat, order: seq<File>)
    requires CanStage(kept, entries, names) && rowsPerBlock > 0 && AreDistinctIds(kept) && i < |kept| && j < |kept| && i != j
    requires PutsRowsBeside(kept, i, j, names)
    requires Lists(order, StagedFiles(kept, entries, names, capacities, rowsPerBlock), DirectoryOf(kept[i]))
    ensures StableSort(Filter(Scan(StagedFiles(kept, entries, names, capacities, rowsPerBlock), order),
                              OfComponent(names[kept[i].owner])), AtSnapshot())
            != SeriesOf(kept[i], entries, names, capacities)
  {
    hide Filter, StagedFiles, Blocks, IsStored, Scan, StableSort, WholeSeries;
    var files, component := StagedFiles(kept, entries, names, capacities, rowsPerBlock), names[kept[i].owner];
    var own := SeriesOf(kept[i], entries, names, capacities);
    var rows := Filter(Scan(files, order), OfComponent(component));
    WholeIsStrict(kept[i], entries, CapacityOf(kept[i].owner, capacities), component);
    var row := SeriesOf(kept[j], entries, names, capacities)[0];
    assert row in SeriesOf(kept[j], entries, names, capacities);
    ScannedRowsAreOfEverySharer(kept, i, entries, names, capacities, rowsPerBlock, order, row);
    SortCounts(rows, AtSnapshot());
    StrictCountsOnce(own, AtSnapshot(), row);
    var b := RowHasItsFile(kept, j, entries, names, capacities, rowsPerBlock, row);
    if row in own {
      var a := RowHasItsFile(kept, i, entries, names, capacities, rowsPerBlock, row);
      ScanCountsTwice(files, order, a, b, row);
      FilterCounts(Scan(files, order), OfComponent(component), row);
      SeriesLength(kept[i], entries, names, capacities, row);
    } else {
      assert row in rows && row in multiset(rows);
    }
  }

  // ---- The round trip ----

  /** The document's row for the `n`th series stored. */
  function Exported(entries: seq<StoredSeries>, n: nat): Association
    requires n < |entries|
  {
    var entry := entries[n];
    Association(n, entry.owner, entry.name, |entry.values|, entry.initial, entry.resolution, true)
  }

  /** A stored series can be read back as the document states it exactly when its steps are some
      time apart. */
  lemma StoredCanBeReadExactlyWhen(rows: seq<AssociationRow>, read: AssociationRow -> seq<real>, capacities: Capacities, n: nat)
    requires AreWritable(rows, capacities) && n < |rows|
    ensures var entries := StoredRows(rows, read, capacities);
            IsStored(Exported(entries, n), entries) <==> rows[n].resolution > 0
  {
    assert forall j :: 0 <= j < |rows| ==> rows[j] in rows && IsWritable(rows[j], capacities);
    EachRowIsStoredAsItSays(rows, read, capacities, n);
  }

  /** A value turned into megawatts and back. */
  function ThereAndBack(value: real, capacity: real, scaling: real): real
    requires scaling != 0.0
  {
    PerUnit(value * (capacity / scaling), Some(capacity))
  }

  lemma ThereAndBackAgain(value: real, capacity: real, scaling: real)
    requires scaling != 0.0
    ensures ThereAndBack(value, capacity, scaling) == value / scaling <==> capacity != 0.0 || value == 0.0
    ensures capacity == 0.0 ==> ThereAndBack(value, capacity, scaling) == 0.0
  {
    var quotient, factor := value / scaling, capacity / scaling;
    assert quotient * scaling == value && factor * scaling == capacity;
    assert value * factor == quotient * capacity by {
      assert value * factor == (quotient * scaling) * factor == quotient * (factor * scaling);
    }
    ProductIsZeroExactlyWhen(quotient, scaling);
    if capacity != 0.0 {
      assert quotient * capacity / capacity == quotient;
    }
  }

  /** What comes back for a stored series, step by step: the moment is the start plus that many
      resolutions, and the value is the source's divided by the row's scaling factor exactly where
      the owner's capacity is not zero or the value itself is; a zero capacity gives zeros. Alone in
      its directory, the series has that row at that very position. */
  lemma SeriesRoundTrip(rows: seq<AssociationRow>, read: AssociationRow -> seq<real>, components: Capacities, n: nat,
                        kept: seq<Association>, i: nat, names: map<Owner, string>, rowsPerBlock: nat, order: seq<File>, k: nat)
    returns (back: StagedRow)
    requires AreWritable(rows, components) && n < |rows| && rows[n] in rows && k < |read(rows[n])|
    requires var entries := StoredRows(rows, read, components);
             && CanStage(kept, entries, names) && AreDistinctIds(kept) && rowsPerBlock > 0
             && i < |kept| && kept[i] == Exported(entries, n)
             && Lists(order, StagedFiles(kept, entries, names, CapacityByOwner(kept, components), rowsPerBlock), DirectoryOf(kept[i]))
    ensures var entries := StoredRows(rows, read, components);
            var frame := Scan(StagedFiles(kept, entries, names, CapacityByOwner(kept, components), rowsPerBlock), order);
            var component := names[rows[n].owner];
            var sorted := StableSort(Filter(frame, OfComponent(component)), AtSnapshot());
            var source, scaling, capacity := read(rows[n])[k], rows[n].scaling, components[rows[n].owner];
            && back in Filter(frame, OfComponent(component))
            && back.snapshot == rows[n].initial.value + k * rows[n].resolution
            && (back.value == source / scaling <==> capacity != 0.0 || source == 0.0)
            && (capacity == 0.0 ==> back.value == 0.0)
            && (IsAloneInItsDirectory(kept, i, names) ==>
                  && |ValuesOf(frame, component)| == |sorted| == |read(rows[n])|
                  && sorted[k] == back && ValuesOf(frame, component)[k] == back.value)
  {
    hide Filter, StagedFiles, StableSort, Scan, CapacityByOwner, IsStored, PutsRowsBeside, SeriesOf, IsAloneInItsDirectory,
      StoredRows, Values, AreDistinctIds, ThereAndBack, Exported;
    var entries := StoredRows(rows, read, components);
    var capacities := CapacityByOwner(kept, components);
    var whole := SeriesOf(kept[i], entries, names, capacities);
    assert kept[i] in kept && kept[i].owner in names;
    StagedStep(rows, read, components, n, kept, i, names, k);
    back := whole[k];
    assert back in whole;
    BesideItself(kept, i, names);
    ScannedRowsAreOfEverySharer(kept, i, entries, names, capacities, rowsPerBlock, order, back);
    SeriesReadsBackWholeExactlyWhenAlone(kept, i, entries, names, capacities, rowsPerBlock, order);
    ThereAndBackAgain(read(rows[n])[k], components[rows[n].owner], rows[n].scaling);
    ValuesInOrder(Scan(StagedFiles(kept, entries, names, capacities, rowsPerBlock), order), names[rows[n].owner], k);
  }

  lemma ValuesInOrder(frame: Frame, component: string, k: nat)
    ensures var sorted := StableSort(Filter(frame, OfComponent(component)), AtSnapshot());
            && |ValuesOf(frame, component)| == |sorted|
            && (k < |sorted| ==> ValuesOf(frame, component)[k] == sorted[k].value)
  {
  }

  /** Step `k` of a stored series as it is staged. */
  lemma StagedStep(rows: seq<AssociationRow>, read: AssociationRow -> seq<real>, components: Capacities, n: nat,
                   kept: seq<Association>, i: nat, names: map<Owner, string>, k: nat)
    requires AreWritable(rows, components) && n < |rows| && rows[n] in rows && k < |read(rows[n])|
    requires i < |kept| && AreNamed(kept, names) && kept[i] in kept
    requires var entries := StoredRows(rows, read, components);
             kept[i] == Exported(entries, n) && IsStored(kept[i], entries)
    ensures kept[i].owner == rows[n].owner && kept[i].length == |read(rows[n])|
    ensures IsWritable(rows[n], components)
    ensures var row := rows[n];
            var whole := SeriesOf(kept[i], StoredRows(rows, read, components), names, CapacityByOwner(kept, components));
            && |whole| == |read(row)|
            && whole[k].snapshot == row.initial.value + k * row.resolution
            && whole[k].value == ThereAndBack(read(row)[k], components[row.owner], row.scaling)
  {
    hide CapacityByOwner;
    var entries, row := StoredRows(rows, read, components), rows[n];
    assert entries[n] == StoredFrom(row, read(row), components);
    assert entries[n].values[k] == read(row)[k] * (components[row.owner] / row.scaling);
    CapacityIsTheOwners(kept, kept[i], components);
    var capacity := CapacityOf(row.owner, CapacityByOwner(kept, components));
    assert WholeSeries(kept[i], entries, capacity, names[row.owner])[k]
        == StagedAt(kept[i], entries[n].values, capacity, names[row.owner], k);
    var whole := SeriesOf(kept[i], entries, names, CapacityByOwner(kept, components));
    assert whole == WholeSeries(kept[i], entries, capacity, names[row.owner]);
    assert whole[k].value == PerUnit(entries[n].values[k], capacity);
    assert capacity == Some(components[row.owner]);
    assert whole[k].value == ThereAndBack(read(row)[k], components[row.owner], row.scaling);
  }

  lemma BesideItself(kept: seq<Association>, i: nat, names: map<Owner, string>)
    requires i < |kept| && AreNamed(kept, names) && kept[i].length > 0
    ensures PutsRowsBeside(kept, i, i, names)
  {
  }

  lemma CapacityIsTheOwners(kept: seq<Association>, association: Association, components: Capacities)
    requires association in kept && association.isNatural && association.owner in components
    ensures CapacityOf(association.owner, CapacityByOwner(kept, components)) == Some(components[association.owner])
  {
  }
}
