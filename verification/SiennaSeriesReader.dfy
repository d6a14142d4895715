/** Staging a Sienna system's series from its store, a block at a time
    (interop/plugins/sources/stage_sienna_system_json.py). */
module SiennaSeriesReader {
  import opened Common
  import opened SeriesBatches
  import opened SiennaSeriesWriter

  // Rows of a series read and converted at once.
  const TIME_SERIES_CHUNK_ROWS := 1_000_000

  // One association of the system document, which names its series by the id the store gave it.
  datatype Association = Association(
    id: nat,
    owner: Owner,
    name: string,
    length: nat,
    initial: int,
    resolution: int,
    isNatural: bool)

  // An owner type and a series name: one directory of files each.
  type DirectoryKey = (string, string)

  datatype File = File(directory: DirectoryKey, id: nat, offset: nat)

  type Files = map<File, seq<StagedRow>>

  function DirectoryOf(association: Association): DirectoryKey { (association.owner.0, association.name) }

  // ---- Which associations are staged, and what their values are divided by ----

  function Convertible(withCapacity: set<string>): Association -> bool {
    (association: Association) => !association.isNatural || association.owner.0 in withCapacity
  }

  function OwnerIsNamed(names: map<Owner, string>): Association -> bool {
    (association: Association) => association.owner in names
  }

  function Stageable(associations: seq<Association>, withCapacity: set<string>, names: map<Owner, string>): seq<Association> {
    Filter(Filter(associations, Convertible(withCapacity)), OwnerIsNamed(names))
  }

  /** An association is staged exactly when its owner is named, and where it is stated in natural
      units, when the owner's type has a capacity to divide by. */
  lemma StagedExactlyWhen(associations: seq<Association>, withCapacity: set<string>, names: map<Owner, string>,
                          association: Association)
    ensures association in Stageable(associations, withCapacity, names) <==>
            && association in associations
            && association.owner in names
            && (association.isNatural ==> association.owner.0 in withCapacity)
  {
    assert association in Stageable(associations, withCapacity, names) <==>
      association in associations && Convertible(withCapacity)(association) && OwnerIsNamed(names)(association);
  }

  /** The associations a predicate keeps, in order. */
  method Keep(associations: seq<Association>, keeps: Association -> bool) returns (kept: seq<Association>)
    ensures kept == Filter(associations, keeps)
  {
    hide Filter;
    kept := [];
    FilterOfNone(keeps);
    assert associations[..0] == [];
    for n := 0 to |associations|
      invariant kept == Filter(associations[..n], keeps)
    {
      assert associations[..n + 1][..n] == associations[..n];
      FilterSnoc(associations[..n + 1], keeps);
      if keeps(associations[n]) {
        kept := kept + [associations[n]];
      }
    }
    assert associations[..|associations|] == associations;
  }

  /** The divisors: one for each owner of a natural-units association that has a capacity. */
  function CapacityByOwner(associations: seq<Association>, components: Capacities): Capacities {
    map association | association in associations && association.isNatural && association.owner in components
      :: association.owner := components[association.owner]
  }

  function CapacityOf(owner: Owner, capacities: Capacities): Option<real> {
    if owner in capacities then Some(capacities[owner]) else None
  }

  function PerUnit(value: real, capacity: Option<real>): real {
    match capacity
    case None => value
    case Some(divisor) => if divisor == 0.0 then 0.0 else value / divisor
  }

  function ConvertToPerUnit(values: seq<real>, capacity: Option<real>): (r: seq<real>)
    ensures |r| == |values|
    ensures forall k :: 0 <= k < |r| ==> r[k] == PerUnit(values[k], capacity)
  {
    seq(|values|, k requires 0 <= k < |values| => PerUnit(values[k], capacity))
  }

  ghost predicate SharesOwnerWithNatural(association: Association, associations: seq<Association>) {
    exists other :: other in associations && other.isNatural && other.owner == association.owner
  }

  /** The divisor is looked up by owner, so a series stored in other units is divided too where a
      natural-units series of the same owner is staged beside it. It comes out as stored exactly
      where there is no such neighbour with a capacity, or where dividing changes nothing. */
  lemma OtherUnitsStayAsStoredExactlyWhen(associations: seq<Association>, components: Capacities, association: Association,
                                          values: seq<real>)
    requires association in associations && !association.isNatural
    ensures var owner := association.owner;
            ConvertToPerUnit(values, CapacityOf(owner, CapacityByOwner(associations, components))) == values
            <==> !(SharesOwnerWithNatural(association, associations) && owner in components)
                 || components[owner] == 1.0
                 || forall k :: 0 <= k < |values| ==> values[k] == 0.0
  {
    var owner := association.owner;
    var capacity := CapacityOf(owner, CapacityByOwner(associations, components));
    var converted := ConvertToPerUnit(values, capacity);
    assert capacity.Some? <==> SharesOwnerWithNatural(association, associations) && owner in components;
    if capacity.Some? {
      forall k | 0 <= k < |values| ensures converted[k] == values[k] <==> capacity.value == 1.0 || values[k] == 0.0 {
        DividingChangesNothingExactlyWhen(values[k], capacity.value);
      }
      if converted == values && capacity.value != 1.0 {
        assert forall k :: 0 <= k < |values| ==> converted[k] == values[k];
      }
    }
  }

  lemma DividingChangesNothingExactlyWhen(value: real, divisor: real)
    ensures PerUnit(value, Some(divisor)) == value <==> divisor == 1.0 || value == 0.0
  {
    if divisor != 0.0 {
      var quotient := value / divisor;
      assert quotient * divisor == value;
      assert (quotient - value) * divisor == value * (1.0 - divisor) by {
        assert (quotient - value) * divisor == quotient * divisor - value * divisor;
      }
      ProductIsZeroExactlyWhen(quotient - value, divisor);
      ProductIsZeroExactlyWhen(value, 1.0 - divisor);
    }
  }

  lemma ProductIsZeroExactlyWhen(a: real, b: real)
    ensures a * b == 0.0 <==> a == 0.0 || b == 0.0
  {
  }

  /** A generator of 2 MW with one series in each unit: the per-unit series reads as halves. */
  lemma PerUnitSeriesIsHalvedBesideANaturalOne()
    ensures var natural := Association(0, ("ThermalStandard", 1), "rating", 1, 0, 3600, true);
            var perUnit := Association(1, ("ThermalStandard", 1), "derate", 1, 0, 3600, false);
            var capacities := CapacityByOwner([natural, perUnit], map[("ThermalStandard", 1) := 2.0]);
            ConvertToPerUnit([1.0], CapacityOf(perUnit.owner, capacities)) == [0.5]
  {
  }

  // ---- One series, block by block ----

  /** The store holds the association's series, as it says. */
  predicate IsStored(association: Association, entries: seq<StoredSeries>) {
    && association.id < |entries|
    && var entry := entries[association.id];
       && association.initial == entry.initial
       && association.resolution == entry.resolution > 0
       && association.length <= |entry.values|
  }

  /** The values from a moment on. */
  function ReadById(entries: seq<StoredSeries>, id: nat, start: int, length: nat): (r: seq<real>)
    requires id < |entries| && entries[id].resolution > 0
    requires var position := (start - entries[id].initial) / entries[id].resolution;
             0 <= position && position + length <= |entries[id].values|
    ensures |r| == length
  {
    var position := (start - entries[id].initial) / entries[id].resolution;
    entries[id].values[position..position + length]
  }

  function StagedAt(association: Association, values: seq<real>, capacity: Option<real>, component: string, k: nat): StagedRow
    requires k < |values|
  {
    StagedRow(association.initial + k * association.resolution, component, PerUnit(values[k], capacity), None)
  }

  /** The whole series as it should be staged, one row a step. */
  function WholeSeries(association: Association, entries: seq<StoredSeries>, capacity: Option<real>, component: string): (r: seq<StagedRow>)
    requires IsStored(association, entries)
    ensures |r| == association.length
    ensures forall k :: 0 <= k < |r| ==> r[k] == StagedAt(association, entries[association.id].values, capacity, component, k)
  {
    seq(association.length, k requires 0 <= k < association.length =>
      StagedAt(association, entries[association.id].values, capacity, component, k))
  }

  function Min(a: int, b: int): int { if a < b then a else b }

  function Block(whole: seq<StagedRow>, offset: nat, rowsPerBlock: nat): seq<StagedRow>
    requires offset <= |whole|
  {
    whole[offset..Min(offset + rowsPerBlock, |whole|)]
  }

  /** One file a block, from `offset` on. */
  function Blocks(whole: seq<StagedRow>, directory: DirectoryKey, id: nat, rowsPerBlock: nat, offset: nat): Files
    requires rowsPerBlock > 0
    decreases |whole| - offset
  {
    if offset >= |whole| then map[]
    else
      Blocks(whole, directory, id, rowsPerBlock, offset + rowsPerBlock)
        [File(directory, id, offset) := Block(whole, offset, rowsPerBlock)]
  }

  class Staging {
    var files: Files

    constructor ()
      ensures files == map[]
    {
      files := map[];
    }
  }

  function StampedRows(stamp: int, step: int, values: seq<real>, component: string): (r: seq<StagedRow>)
    ensures |r| == |values|
    ensures forall j :: 0 <= j < |r| ==> r[j] == StagedRow(stamp + j * step, component, values[j], None)
  {
    seq(|values|, j requires 0 <= j < |values| => StagedRow(stamp + j * step, component, values[j], None))
  }

  lemma BlockIsReadAtItsOffset(association: Association, entries: seq<StoredSeries>, capacity: Option<real>, component: string,
                               offset: nat, rowsPerBlock: nat)
    requires IsStored(association, entries) && offset < association.length && rowsPerBlock > 0
    ensures var start := association.initial + association.resolution * offset;
            var entry := entries[association.id];
            var length := Min(rowsPerBlock, association.length - offset);
            && (start - entry.initial) / entry.resolution == offset
            && StampedRows(start, association.resolution,
                           ConvertToPerUnit(ReadById(entries, association.id, start, length), capacity), component)
               == Block(WholeSeries(association, entries, capacity, component), offset, rowsPerBlock)
  {
    var start := association.initial + association.resolution * offset;
    QuotientOfMultiple(offset, association.resolution);
    var length := Min(rowsPerBlock, association.length - offset);
    var read := ReadById(entries, association.id, start, length);
    var rows := StampedRows(start, association.resolution, ConvertToPerUnit(read, capacity), component);
    var whole := WholeSeries(association, entries, capacity, component);
    forall j | 0 <= j < length ensures rows[j] == whole[offset + j] {
      assert start + j * association.resolution == association.initial + (offset + j) * association.resolution;
    }
  }

  lemma QuotientOfMultiple(n: nat, d: int)
    requires d > 0
    ensures (d * n) / d == n
  {
    var q, rest := (d * n) / d, (d * n) % d;
    assert d * n == d * q + rest;
    OneQuotient(d, n, q, rest);
  }

  lemma OneQuotient(d: int, n: int, q: int, rest: int)
    requires d > 0 && 0 <= rest < d && d * n == d * q + rest
    ensures q == n
  {
    assert d * (n - q) == rest;
    if n > q {
      AtLeastOneTimes(d, n - q);
    } else if n < q {
      AtLeastOneTimes(d, q - n);
    }
  }

  lemma AtLeastOneTimes(d: int, k: int)
    requires d > 0 && k >= 1
    ensures d * k >= d && d * (-k) <= -d
  {
  }

  /** Adds the blocks of one series to the staged files. */
  method StreamSeriesToParquet(entries: seq<StoredSeries>, association: Association, capacity: Option<real>, component: string,
                               staging: Staging, rowsPerBlock: nat)
    requires IsStored(association, entries) && rowsPerBlock > 0
    modifies staging
    ensures staging.files
            == old(staging.files)
               + Blocks(WholeSeries(association, entries, capacity, component), DirectoryOf(association), association.id, rowsPerBlock, 0)
  {
    hide WholeSeries, Block, Blocks, ReadById, StampedRows, ConvertToPerUnit;
    ghost var whole := WholeSeries(association, entries, capacity, component);
    var directory, offset := DirectoryOf(association), 0;
    ghost var all := old(staging.files) + Blocks(whole, directory, association.id, rowsPerBlock, 0);
    while offset < association.length
      invariant staging.files + Blocks(whole, directory, association.id, rowsPerBlock, offset) == all
      decreases association.length - offset
    {
      var blockStart := association.initial + association.resolution * offset;
      BlockIsReadAtItsOffset(association, entries, capacity, component, offset, rowsPerBlock);
      var read := ReadById(entries, association.id, blockStart, Min(rowsPerBlock, association.length - offset));
      var block := StampedRows(blockStart, association.resolution, ConvertToPerUnit(read, capacity), component);
      OneMoreBlock(staging.files, whole, directory, association.id, rowsPerBlock, offset);
      staging.files := staging.files[File(directory, association.id, offset) := block];
      offset := offset + rowsPerBlock;
    }
    NoMoreBlocks(whole, directory, association.id, rowsPerBlock, offset);
    assert staging.files + map[] == staging.files;
  }

  lemma OneMoreBlock(files: Files, whole: seq<StagedRow>, directory: DirectoryKey, id: nat, rowsPerBlock: nat, offset: nat)
    requires rowsPerBlock > 0 && offset < |whole|
    ensures files[File(directory, id, offset) := Block(whole, offset, rowsPerBlock)]
              + Blocks(whole, directory, id, rowsPerBlock, offset + rowsPerBlock)
            == files + Blocks(whole, directory, id, rowsPerBlock, offset)
  {
    hide Block;
    LaterBlocksAreElsewhere(whole, directory, id, rowsPerBlock, offset + rowsPerBlock);
  }

  lemma NoMoreBlocks(whole: seq<StagedRow>, directory: DirectoryKey, id: nat, rowsPerBlock: nat, offset: nat)
    requires rowsPerBlock > 0 && offset >= |whole|
    ensures Blocks(whole, directory, id, rowsPerBlock, offset) == map[]
  {
  }

  lemma {:induction false} LaterBlocksAreElsewhere(whole: seq<StagedRow>, directory: DirectoryKey, id: nat, rowsPerBlock: nat, offset: nat)
    requires rowsPerBlock > 0
    ensures forall file :: file in Blocks(whole, directory, id, rowsPerBlock, offset) ==>
              file.directory == directory && file.id == id && offset <= file.offset < |whole|
    decreases |whole| - offset
  {
    if offset < |whole| {
      LaterBlocksAreElsewhere(whole, directory, id, rowsPerBlock, offset + rowsPerBlock);
    }
  }

  // ---- Every series ----

  ghost predicate CanStage(kept: seq<Association>, entries: seq<StoredSeries>, names: map<Owner, string>) {
    forall association :: association in kept ==> IsStored(association, entries) && association.owner in names
  }

  /** The series as staged, by its own owner's name and capacity. */
  ghost function SeriesOf(association: Association, entries: seq<StoredSeries>, names: map<Owner, string>, capacities: Capacities):
    (r: seq<StagedRow>)
    requires IsStored(association, entries) && association.owner in names
  {
    WholeSeries(association, entries, CapacityOf(association.owner, capacities), names[association.owner])
  }

  ghost function StagedFiles(kept: seq<Association>, entries: seq<StoredSeries>, names: map<Owner, string>, capacities: Capacities,
                             rowsPerBlock: nat): Files
    requires CanStage(kept, entries, names) && rowsPerBlock > 0
  {
    if |kept| == 0 then map[]
    else
      var last := kept[|kept| - 1];
      StagedFiles(kept[..|kept| - 1], entries, names, capacities, rowsPerBlock)
      + Blocks(SeriesOf(last, entries, names, capacities), DirectoryOf(last), last.id, rowsPerBlock, 0)
  }

  lemma StagedFilesStep(kept: seq<Association>, n: nat, entries: seq<StoredSeries>, names: map<Owner, string>,
                        capacities: Capacities, rowsPerBlock: nat)
    requires n < |kept| && CanStage(kept, entries, names) && rowsPerBlock > 0
    ensures CanStage(kept[..n], entries, names) && CanStage(kept[..n + 1], entries, names)
    ensures StagedFiles(kept[..n + 1], entries, names, capacities, rowsPerBlock)
            == StagedFiles(kept[..n], entries, names, capacities, rowsPerBlock)
               + Blocks(SeriesOf(kept[n], entries, names, capacities), DirectoryOf(kept[n]), kept[n].id, rowsPerBlock, 0)
    ensures kept[n].length == 0 ==>
              StagedFiles(kept[..n + 1], entries, names, capacities, rowsPerBlock)
              == StagedFiles(kept[..n], entries, names, capacities, rowsPerBlock)
  {
    hide IsStored;
    assert forall association :: association in kept[..n] ==> association in kept;
    assert forall association :: association in kept[..n + 1] ==> association in kept;
    assert kept[..n + 1][..n] == kept[..n];
  }

  /** Stages every association that can be: each non-empty series, block by block, in the directory
      its owner type and name make. */
  method StageTimeSeries(associations: seq<Association>, withCapacity: set<string>, names: map<Owner, string>,
                         components: Capacities, entries: seq<StoredSeries>, staging: Staging)
    returns (directories: set<DirectoryKey>)
    requires staging.files == map[]
    requires CanStage(Stageable(associations, withCapacity, names), entries, names)
    modifies staging
    ensures var kept := Stageable(associations, withCapacity, names);
            && staging.files == StagedFiles(kept, entries, names, CapacityByOwner(kept, components), TIME_SERIES_CHUNK_ROWS)
            && directories == set association | association in kept && association.length > 0 :: (association.owner.0, association.name)
  {
    hide Filter, IsStored, Blocks, StagedFiles, SeriesOf;
    var convertible := Keep(associations, Convertible(withCapacity));
    var kept := Keep(convertible, OwnerIsNamed(names));
    var capacities := CapacityByOwner(kept, components);
    directories := {};
    NothingStaged(kept, entries, names, capacities);
    for n := 0 to |kept|
      invariant CanStage(kept[..n], entries, names)
      invariant staging.files == StagedFiles(kept[..n], entries, names, capacities, TIME_SERIES_CHUNK_ROWS)
      invariant directories == set association | association in kept[..n] && association.length > 0 :: DirectoryOf(association)
    {
      StagedFilesStep(kept, n, entries, names, capacities, TIME_SERIES_CHUNK_ROWS);
      var association := kept[n];
      assert kept[..n + 1] == kept[..n] + [association];
      if association.length > 0 {
        SeriesIsWhole(association, entries, names, capacities);
        StreamSeriesToParquet(entries, association, CapacityOf(association.owner, capacities), names[association.owner],
                              staging, TIME_SERIES_CHUNK_ROWS);
        directories := directories + {DirectoryOf(association)};
      }
    }
    assert kept[..|kept|] == kept;
  }

  lemma SeriesIsWhole(association: Association, entries: seq<StoredSeries>, names: map<Owner, string>, capacities: Capacities)
    requires IsStored(association, entries) && association.owner in names
    ensures SeriesOf(association, entries, names, capacities)
            == WholeSeries(association, entries, CapacityOf(association.owner, capacities), names[association.owner])
  {
  }

  lemma NothingStaged(kept: seq<Association>, entries: seq<StoredSeries>, names: map<Owner, string>, capacities: Capacities)
    ensures CanStage(kept[..0], entries, names)
    ensures StagedFiles(kept[..0], entries, names, capacities, TIME_SERIES_CHUNK_ROWS) == map[]
  {
  }

  // ---- What the files of a directory hold together ----

  ghost predicate AreDistinctIds(kept: seq<Association>) {
    forall i, j :: 0 <= i < j < |kept| ==> kept[i].id != kept[j].id
  }

  lemma {:induction false} BlocksAreApart(whole: seq<StagedRow>, directory: DirectoryKey, id: nat, rowsPerBlock: nat, start: nat,
                                          a: File, b: File)
    requires rowsPerBlock > 0
    requires var blocks := Blocks(whole, directory, id, rowsPerBlock, start);
             a in blocks && b in blocks && a.offset < b.offset
    ensures a.offset + rowsPerBlock <= b.offset
    decreases |whole| - start
  {
    LaterBlocksAreElsewhere(whole, directory, id, rowsPerBlock, start + rowsPerBlock);
    if a.offset != start {
      LaterBlocksAreElsewhere(whole, directory, id, rowsPerBlock, start);
      BlocksAreApart(whole, directory, id, rowsPerBlock, start + rowsPerBlock, a, b);
    }
  }

  lemma {:induction false} BlocksHoldSlices(whole: seq<StagedRow>, directory: DirectoryKey, id: nat, rowsPerBlock: nat, start: nat)
    requires rowsPerBlock > 0
    ensures var blocks := Blocks(whole, directory, id, rowsPerBlock, start);
            forall file :: file in blocks ==> file.offset < |whole| && blocks[file] == Block(whole, file.offset, rowsPerBlock)
    decreases |whole| - start
  {
    if start < |whole| {
      BlocksHoldSlices(whole, directory, id, rowsPerBlock, start + rowsPerBlock);
    }
  }

  /** Each step of the series is in one of its blocks. */
  lemma {:induction false} BlocksCover(whole: seq<StagedRow>, directory: DirectoryKey, id: nat, rowsPerBlock: nat, start: nat, k: nat)
    returns (file: File)
    requires rowsPerBlock > 0 && start <= k < |whole|
    ensures file in Blocks(whole, directory, id, rowsPerBlock, start)
    ensures file.offset <= k < file.offset + rowsPerBlock
    decreases |whole| - start
  {
    LaterBlocksAreElsewhere(whole, directory, id, rowsPerBlock, start + rowsPerBlock);
    if k < start + rowsPerBlock {
      file := File(directory, id, start);
    } else {
      file := BlocksCover(whole, directory, id, rowsPerBlock, start + rowsPerBlock, k);
    }
  }

  ghost function BlocksOf(association: Association, entries: seq<StoredSeries>, names: map<Owner, string>, capacities: Capacities,
                          rowsPerBlock: nat): Files
    requires IsStored(association, entries) && association.owner in names && rowsPerBlock > 0
  {
    Blocks(SeriesOf(association, entries, names, capacities), DirectoryOf(association), association.id, rowsPerBlock, 0)
  }

  /** Ids are the store's own, so no series overwrites another's files. */
  lemma {:induction false} FilesOfOneSeries(kept: seq<Association>, i: nat, entries: seq<StoredSeries>, names: map<Owner, string>,
                                            capacities: Capacities, rowsPerBlock: nat)
    requires CanStage(kept, entries, names) && rowsPerBlock > 0 && AreDistinctIds(kept) && i < |kept|
    ensures var files := StagedFiles(kept, entries, names, capacities, rowsPerBlock);
            var own := BlocksOf(kept[i], entries, names, capacities, rowsPerBlock);
            && (forall file :: file in files && file.id == kept[i].id <==> file in own)
            && (forall file :: file in own ==> files[file] == own[file])
  {
    hide IsStored, Blocks, SeriesOf;
    var n := |kept| - 1;
    StagedFilesStep(kept, n, entries, names, capacities, rowsPerBlock);
    assert kept[..n + 1] == kept;
    LaterBlocksAreElsewhere(SeriesOf(kept[n], entries, names, capacities), DirectoryOf(kept[n]), kept[n].id, rowsPerBlock, 0);
    LaterBlocksAreElsewhere(SeriesOf(kept[i], entries, names, capacities), DirectoryOf(kept[i]), kept[i].id, rowsPerBlock, 0);
    if i < n {
      FilesOfOneSeries(kept[..n], i, entries, names, capacities, rowsPerBlock);
    } else {
      FilesOfOtherIds(kept[..n], kept[n].id, entries, names, capacities, rowsPerBlock);
    }
  }

  lemma {:induction false} FilesOfOtherIds(kept: seq<Association>, id: nat, entries: seq<StoredSeries>, names: map<Owner, string>,
                                           capacities: Capacities, rowsPerBlock: nat)
    requires CanStage(kept, entries, names) && rowsPerBlock > 0 && forall i :: 0 <= i < |kept| ==> kept[i].id != id
    ensures forall file :: file in StagedFiles(kept, entries, names, capacities, rowsPerBlock) ==> file.id != id
  {
    hide IsStored, Blocks, SeriesOf;
    if |kept| > 0 {
      var n := |kept| - 1;
      StagedFilesStep(kept, n, entries, names, capacities, rowsPerBlock);
      assert kept[..n + 1] == kept;
      LaterBlocksAreElsewhere(SeriesOf(kept[n], entries, names, capacities), DirectoryOf(kept[n]), kept[n].id, rowsPerBlock, 0);
      FilesOfOtherIds(kept[..n], id, entries, names, capacities, rowsPerBlock);
    }
  }

  /** Every file is a block of some association's series. */
  lemma {:induction false} FileHasItsSeries(kept: seq<Association>, entries: seq<StoredSeries>, names: map<Owner, string>,
                                            capacities: Capacities, rowsPerBlock: nat, file: File)
    returns (j: nat)
    requires CanStage(kept, entries, names) && rowsPerBlock > 0
    requires file in StagedFiles(kept, entries, names, capacities, rowsPerBlock)
    ensures j < |kept| && file.directory == DirectoryOf(kept[j]) && file.id == kept[j].id
  {
    hide IsStored, Blocks, SeriesOf;
    var n := |kept| - 1;
    StagedFilesStep(kept, n, entries, names, capacities, rowsPerBlock);
    assert kept[..n + 1] == kept;
    LaterBlocksAreElsewhere(SeriesOf(kept[n], entries, names, capacities), DirectoryOf(kept[n]), kept[n].id, rowsPerBlock, 0);
    if file in BlocksOf(kept[n], entries, names, capacities, rowsPerBlock) {
      j := n;
    } else {
      j := FileHasItsSeries(kept[..n], entries, names, capacities, rowsPerBlock, file);
    }
  }
}
