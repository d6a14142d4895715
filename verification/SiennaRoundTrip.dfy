/** What a written Sienna document becomes when it is read back and staged. */
module SiennaRoundTrip {
  import opened Common
  import opened SiennaDocument
  import opened SiennaSystem

  function BusIdSet(tables: Tables): set<int> {
    set bus | bus in tables.buses :: bus.id
  }

  /** An arc row whose two ends are ids of buses. */
  function JoinsBuses(busIds: set<int>): Row -> bool {
    (row: Row) => (row.fromId.Some? ==> row.fromId.value in busIds) && (row.toId.Some? ==> row.toId.value in busIds)
  }

  /** Every written row but the arcs that join no two buses. */
  function WiredRows(components: Components, busIds: set<int>): Selection {
    set typeName, i | typeName in components && 0 <= i < |components[typeName]|
      && (typeName != ARC || JoinsBuses(busIds)(components[typeName][i])) :: (typeName, i)
  }

  ghost predicate HasChosen(components: Components, chosen: Selection, typeName: string, id: int) {
    exists j :: (typeName, j) in chosen && typeName in components && 0 <= j < |components[typeName]|
      && components[typeName][j].id == id
  }

  lemma BusIsWired(components: Components, tables: Tables, id: int)
    requires IsPayload(components, tables) && id in BusIdSet(tables)
    ensures HasChosen(components, WiredRows(components, BusIdSet(tables)), AC_BUS, id)
  {
    hide LastWins, WritesAllAttached, WritesAllBranches;
    TypesAreDistinct();
    var j :| 0 <= j < |tables.buses| && tables.buses[j].id == id;
    assert RowsOf(components, AC_BUS)[j].id == id;
    assert (AC_BUS, j) in WiredRows(components, BusIdSet(tables));
  }

  lemma NamedBusIsABus(tables: Tables, name: string)
    requires name in BusIds(tables.buses)
    ensures BusIds(tables.buses)[name] in BusIdSet(tables)
    ensures exists bus :: bus in tables.buses && bus.name == name && bus.id == BusIds(tables.buses)[name]
  {
  }

  /** The arc a branch resolves to joins its two buses, so it is wired. */
  lemma ArcOfBranchIsWired(components: Components, tables: Tables, branch: BranchRow)
    requires IsPayload(components, tables)
    requires KnowsBuses(branch, BusIds(tables.buses))
    requires Ends(branch, BusIds(tables.buses)) in ArcIds(tables.arcs)
    ensures HasChosen(components, WiredRows(components, BusIdSet(tables)), ARC,
                      ArcIds(tables.arcs)[Ends(branch, BusIds(tables.buses))])
  {
    hide LastWins, WritesAllAttached, WritesAllBranches, WritesBuses;
    var ends := Ends(branch, BusIds(tables.buses));
    var arc :| arc in tables.arcs && ArcEnds(arc) == ends && ArcId(arc) == ArcIds(tables.arcs)[ends];
    var j :| 0 <= j < |tables.arcs| && tables.arcs[j] == arc;
    NamedBusIsABus(tables, branch.bus0);
    NamedBusIsABus(tables, branch.bus1);
    assert RowsOf(components, ARC)[j] == ArcComponent(arc);
    assert (ARC, j) in WiredRows(components, BusIdSet(tables));
  }

  lemma WiredArcReference(components: Components, tables: Tables, i: nat, field: Field)
    requires IsPayload(components, tables) && (ARC, i) in WiredRows(components, BusIdSet(tables))
    requires Reference(components[ARC][i], field).Some?
    ensures Target(field) == AC_BUS && Reference(components[ARC][i], field).value in BusIdSet(tables)
  {
    hide LastWins, WritesAllAttached, WritesAllBranches, WritesBuses, WritesAreas;
    assert components[ARC][i] == ArcComponent(tables.arcs[i]);
  }

  lemma WiredAttachedReference(components: Components, tables: Tables, typeName: string, i: nat, field: Field)
    requires IsPayload(components, tables) && typeName in ATTACHED_TYPES
    requires typeName in components && i < |components[typeName]|
    requires Reference(components[typeName][i], field).Some?
    ensures field == BusField
    ensures i < |TableOf(tables.attached, typeName)| && TableOf(tables.attached, typeName)[i].busName in BusIds(tables.buses)
    ensures Reference(components[typeName][i], field).value == BusIds(tables.buses)[TableOf(tables.attached, typeName)[i].busName]
  {
    hide LastWins, WritesAllBranches, WritesBuses, WritesAreas, WritesArcs, BusIds;
    assert WritesAttached(RowsOf(components, typeName), TableOf(tables.attached, typeName), BusIds(tables.buses));
  }

  lemma WiredBranchReference(components: Components, tables: Tables, typeName: string, i: nat, field: Field)
    requires IsPayload(components, tables) && typeName in BRANCH_TYPES
    requires typeName in components && i < |components[typeName]|
    requires Reference(components[typeName][i], field).Some?
    ensures field == ArcField && i < |TableOf(tables.branches, typeName)|
    ensures var branch := TableOf(tables.branches, typeName)[i];
            && KnowsBuses(branch, BusIds(tables.buses))
            && Ends(branch, BusIds(tables.buses)) in ArcIds(tables.arcs)
            && Reference(components[typeName][i], field).value == ArcIds(tables.arcs)[Ends(branch, BusIds(tables.buses))]
  {
    hide LastWins, WritesAllAttached, WritesBuses, WritesAreas, WritesArcs, BusIds, ArcIds;
    assert WritesBranches(RowsOf(components, typeName), TableOf(tables.branches, typeName), BusIds(tables.buses), ArcIds(tables.arcs));
  }

  lemma WiredReferenceIsWired(components: Components, tables: Tables, typeName: string, i: nat, field: Field)
    requires IsPayload(components, tables) && (typeName, i) in WiredRows(components, BusIdSet(tables))
    requires Reference(components[typeName][i], field).Some?
    ensures HasChosen(components, WiredRows(components, BusIdSet(tables)), Target(field),
                      Reference(components[typeName][i], field).value)
  {
    hide LastWins, HasChosen, IsPayload, BusIds, ArcIds, BusIdSet, Ends, KnowsBuses, TableOf;
    if typeName == ARC {
      WiredArcReference(components, tables, i, field);
      BusIsWired(components, tables, Reference(components[ARC][i], field).value);
    } else if typeName in ATTACHED_TYPES {
      WiredAttachedReference(components, tables, typeName, i, field);
      NamedBusIsABus(tables, TableOf(tables.attached, typeName)[i].busName);
      BusIsWired(components, tables, Reference(components[typeName][i], field).value);
    } else if typeName in BRANCH_TYPES {
      WiredBranchReference(components, tables, typeName, i, field);
      ArcOfBranchIsWired(components, tables, TableOf(tables.branches, typeName)[i]);
    } else {
      UnreferringRow(components, tables, typeName, i);
    }
  }

  lemma UnreferringRow(components: Components, tables: Tables, typeName: string, i: nat)
    requires IsPayload(components, tables) && typeName in components && i < |components[typeName]|
    requires typeName !in ATTACHED_TYPES && typeName !in BRANCH_TYPES && typeName != ARC
    ensures forall field :: Reference(components[typeName][i], field).None?
  {
    hide LastWins, WritesAllAttached, WritesAllBranches;
    assert components[typeName][i] in RowsOf(components, typeName);
    assert typeName == AREA || typeName == AC_BUS;
  }

  lemma WiredRowsAreClosed(components: Components, tables: Tables)
    requires IsPayload(components, tables)
    ensures IsClosed(components, WiredRows(components, BusIdSet(tables)))
  {
    hide IsPayload;
    var chosen := WiredRows(components, BusIdSet(tables));
    forall typeName, i, field | (typeName, i) in chosen && Reference(components[typeName][i], field).Some?
      ensures exists j :: (Target(field), j) in chosen
                && components[Target(field)][j].id == Reference(components[typeName][i], field).value
    {
      WiredReferenceIsWired(components, tables, typeName, i, field);
    }
  }

  lemma OnlyArcsCanGo(components: Components, tables: Tables, last: KeptIds, typeName: string)
    requires WiredRows(components, BusIdSet(tables)) <= Surviving(components, last)
    requires typeName in components && typeName != ARC
    ensures Filter(components[typeName], RefersToKept(last)) == components[typeName]
  {
    forall row | row in components[typeName] ensures RefersToKept(last)(row) {
      var i :| 0 <= i < |components[typeName]| && components[typeName][i] == row;
      assert (typeName, i) in WiredRows(components, BusIdSet(tables));
    }
    FilterAll(components[typeName], RefersToKept(last));
  }

  lemma BusIdsReadBack(components: Components, tables: Tables, last: KeptIds)
    requires IsPayload(components, tables)
    requires last == IdsOf(Kept(components, last))
    requires WiredRows(components, BusIdSet(tables)) <= Surviving(components, last)
    ensures last.buses == BusIdSet(tables)
  {
    hide LastWins, WritesAllAttached, WritesAllBranches, Filter, WiredRows, Surviving;
    TypesAreDistinct();
    if AC_BUS in components {
      OnlyArcsCanGo(components, tables, last, AC_BUS);
    }
    var rows := RowsOf(components, AC_BUS);
    assert RowsOf(Kept(components, last), AC_BUS) == rows;
    forall id | id in BusIdSet(tables) ensures id in last.buses {
      var j :| 0 <= j < |tables.buses| && tables.buses[j].id == id;
      assert rows[j] in rows && rows[j].id == id;
    }
  }

  /** Reading a written document back removes the arcs that join no two buses and nothing else:
      every bus-attached row and every branch survives. */
  lemma ReadBackRemovesOnlyDanglingArcs(components: Components, tables: Tables)
    requires IsPayload(components, tables)
    ensures DropAll(components).Keys == components.Keys
    ensures forall typeName :: typeName in components && typeName != ARC ==>
              DropAll(components)[typeName] == components[typeName]
    ensures ARC in components ==>
              DropAll(components)[ARC] == Filter(components[ARC], JoinsBuses(BusIdSet(tables)))
  {
    hide IsPayload, DropAll, IsClosed, Surviving, WiredRows, IdsOf;
    WiredRowsAreClosed(components, tables);
    var last := DropAllKeepsTheGreatestClosedChoice(components);
    forall typeName | typeName in components && typeName != ARC
      ensures DropAll(components)[typeName] == components[typeName]
    {
      OnlyArcsCanGo(components, tables, last, typeName);
    }
    if ARC in components {
      BusIdsReadBack(components, tables, last);
      ArcRowsReferToBusesOnly(components, tables, last);
      FilterAgree(components[ARC], RefersToKept(last), JoinsBuses(BusIdSet(tables)));
    }
  }

  lemma ArcRowsReferToBusesOnly(components: Components, tables: Tables, last: KeptIds)
    requires IsPayload(components, tables) && last.buses == BusIdSet(tables)
    ensures forall row :: row in RowsOf(components, ARC) ==>
              RefersToKept(last)(row) == JoinsBuses(BusIdSet(tables))(row)
  {
    hide LastWins, WritesAllAttached, WritesAllBranches, WritesBuses;
    forall row | row in RowsOf(components, ARC)
      ensures RefersToKept(last)(row) == JoinsBuses(BusIdSet(tables))(row)
    {
      assert row.bus.None? && row.arc.None?;
      assert RefersToKept(last)(row) <==> forall field :: !Dangles(row, field, last);
      assert Dangles(row, FromField, last) <==> row.fromId.Some? && row.fromId.value !in last.buses;
      assert Dangles(row, ToField, last) <==> row.toId.Some? && row.toId.value !in last.buses;
    }
  }

  // ---- Staging what was read ----

  function RowId(row: Row): int { row.id }

  function RowEnds(row: Row): (Option<int>, Option<int>) { (row.fromId, row.toId) }

  /** Each arc's two ends by its id, as the staging looks a branch's arc up. */
  function ArcEndpoints(components: Components): map<int, (Option<int>, Option<int>)> {
    LastWins(RowsOf(components, ARC), RowId, RowEnds)
  }

  function IsJoiningArc(id: int, busIds: set<int>): ArcRow -> bool {
    (arc: ArcRow) => arc.id == id && arc.fromId in busIds && arc.toId in busIds
  }

  /** The last arc stated with an id, among the arcs that join two buses. */
  function LastJoiningArc(tables: Tables, id: int): Option<ArcRow> {
    LastMatch(tables.arcs, IsJoiningArc(id, BusIdSet(tables)))
  }

  function WrittenEnds(arc: ArcRow): (Option<int>, Option<int>) { (Some(arc.fromId), Some(arc.toId)) }

  /** What looking an id up finds: the ends of `arc`, or nothing. */
  predicate Finds(found: map<int, (Option<int>, Option<int>)>, id: int, arc: Option<ArcRow>) {
    if arc.None? then id !in found else id in found && found[id] == WrittenEnds(arc.value)
  }

  lemma WrittenArc(arc: ArcRow, busIds: set<int>, id: int)
    ensures RowId(ArcComponent(arc)) == arc.id && RowEnds(ArcComponent(arc)) == WrittenEnds(arc)
    ensures JoinsBuses(busIds)(ArcComponent(arc)) <==> arc.fromId in busIds && arc.toId in busIds
    ensures IsJoiningArc(id, busIds)(arc) <==> arc.id == id && arc.fromId in busIds && arc.toId in busIds
  {
  }

  lemma {:induction false} LookupFindsTheLastArc(rows: seq<Row>, arcs: seq<ArcRow>, busIds: set<int>, id: int)
    requires WritesArcs(rows, arcs)
    ensures Finds(LastWins(Filter(rows, JoinsBuses(busIds)), RowId, RowEnds), id, LastMatch(arcs, IsJoiningArc(id, busIds)))
  {
    hide Filter, LastWins, LastMatch, JoinsBuses, IsJoiningArc;
    if |arcs| == 0 {
      FilterOfNone(JoinsBuses(busIds));
      LastWinsOfNone(RowId, RowEnds);
      assert rows == [];
    } else {
      var front, last := arcs[..|arcs| - 1], arcs[|arcs| - 1];
      LookupFindsTheLastArc(rows[..|rows| - 1], front, busIds, id);
      LastMatchStep(arcs, IsJoiningArc(id, busIds));
      WrittenArc(last, busIds, id);
      FilterSnoc(rows, JoinsBuses(busIds));
      var kept := Filter(rows[..|rows| - 1], JoinsBuses(busIds));
      if JoinsBuses(busIds)(ArcComponent(last)) {
        LastWinsSnoc(kept, ArcComponent(last), RowId, RowEnds);
      } else {
        assert kept + [] == kept;
      }
    }
  }

  lemma StagedEndsAreTheLastArcs(components: Components, tables: Tables, id: int)
    requires IsPayload(components, tables)
    ensures var arc := LastJoiningArc(tables, id);
            if arc.None? then id !in ArcEndpoints(DropAll(components))
            else id in ArcEndpoints(DropAll(components))
                 && ArcEndpoints(DropAll(components))[id] == WrittenEnds(arc.value)
  {
    hide LastWins, WritesAllAttached, WritesAllBranches, WritesBuses, DropAll, LastMatch;
    ReadBackRemovesOnlyDanglingArcs(components, tables);
    assert RowsOf(DropAll(components), ARC) == Filter(RowsOf(components, ARC), JoinsBuses(BusIdSet(tables)));
    LookupFindsTheLastArc(RowsOf(components, ARC), tables.arcs, BusIdSet(tables), id);
  }

  lemma BranchEndsAreJoined(tables: Tables, branch: BranchRow)
    requires KnowsBuses(branch, BusIds(tables.buses)) && Ends(branch, BusIds(tables.buses)) in ArcIds(tables.arcs)
    ensures LastJoiningArc(tables, ArcIds(tables.arcs)[Ends(branch, BusIds(tables.buses))]).Some?
    ensures exists arc :: arc in tables.arcs && ArcEnds(arc) == Ends(branch, BusIds(tables.buses))
              && arc.id == ArcIds(tables.arcs)[Ends(branch, BusIds(tables.buses))]
  {
    hide LastWins, LastMatch;
    var ends := Ends(branch, BusIds(tables.buses));
    var arc :| arc in tables.arcs && ArcEnds(arc) == ends && ArcId(arc) == ArcIds(tables.arcs)[ends];
    NamedBusIsABus(tables, branch.bus0);
    NamedBusIsABus(tables, branch.bus1);
    assert IsJoiningArc(arc.id, BusIdSet(tables))(arc);
  }

  ghost predicate IsWrittenBranch(tables: Tables, typeName: string, i: nat) {
    typeName in BRANCH_TYPES && i < |TableOf(tables.branches, typeName)|
  }

  lemma BranchIsReadBack(components: Components, tables: Tables, typeName: string, i: nat)
    requires IsPayload(components, tables) && IsWrittenBranch(tables, typeName, i)
    ensures var branch := TableOf(tables.branches, typeName)[i];
            && KnowsBuses(branch, BusIds(tables.buses))
            && Ends(branch, BusIds(tables.buses)) in ArcIds(tables.arcs)
            && i < |RowsOf(DropAll(components), typeName)|
            && RowsOf(DropAll(components), typeName)[i] == BranchComponent(branch, BusIds(tables.buses), ArcIds(tables.arcs))
  {
    hide LastWins, DropAll, WritesAllAttached, WritesBuses;
    TypesAreDistinct();
    assert WritesBranches(RowsOf(components, typeName), TableOf(tables.branches, typeName), BusIds(tables.buses), ArcIds(tables.arcs));
    ReadBackRemovesOnlyDanglingArcs(components, tables);
  }

  /** Every branch finds its arc when it is staged, and joins the two buses it named exactly when
      no later arc of the same id joins two other buses. */
  lemma StagedBranchJoinsItsBusesExactlyWhen(components: Components, tables: Tables, typeName: string, i: nat)
    requires IsPayload(components, tables) && IsWrittenBranch(tables, typeName, i)
    requires i < |RowsOf(DropAll(components), typeName)|
    requires KnowsBuses(TableOf(tables.branches, typeName)[i], BusIds(tables.buses))
    ensures var branch := TableOf(tables.branches, typeName)[i];
            var ends := Ends(branch, BusIds(tables.buses));
            var staged := RowsOf(DropAll(components), typeName)[i];
            && staged.arc.Some?
            && LastJoiningArc(tables, staged.arc.value).Some?
            && staged.arc.value in ArcEndpoints(DropAll(components))
            && (ArcEndpoints(DropAll(components))[staged.arc.value] == (Some(ends.0), Some(ends.1)) <==>
                ArcEnds(LastJoiningArc(tables, staged.arc.value).value) == ends)
  {
    hide LastWins, DropAll, LastMatch, IsPayload;
    var branch := TableOf(tables.branches, typeName)[i];
    BranchIsReadBack(components, tables, typeName, i);
    BranchEndsAreJoined(tables, branch);
    StagedEndsAreTheLastArcs(components, tables, ArcIds(tables.arcs)[Ends(branch, BusIds(tables.buses))]);
  }

  ghost predicate HasUniqueArcIds(tables: Tables) {
    forall i, j :: 0 <= i < j < |tables.arcs| ==> tables.arcs[i].id != tables.arcs[j].id
  }

  ghost predicate HasUniqueBusIds(tables: Tables) {
    forall i, j :: 0 <= i < j < |tables.buses| ==> tables.buses[i].id != tables.buses[j].id
  }

  lemma LastJoiningArcIsTheOne(tables: Tables, arc: ArcRow)
    requires HasUniqueArcIds(tables) && arc in tables.arcs && LastJoiningArc(tables, arc.id).Some?
    ensures LastJoiningArc(tables, arc.id).value == arc
  {
  }

  /** So with unique arc ids every branch is staged with the ids of the two buses it named. */
  lemma StagedBranchJoinsItsBuses(components: Components, tables: Tables, typeName: string, i: nat)
    requires IsPayload(components, tables) && HasUniqueArcIds(tables) && IsWrittenBranch(tables, typeName, i)
    ensures var branch := TableOf(tables.branches, typeName)[i];
            var busIds := BusIds(tables.buses);
            && i < |RowsOf(DropAll(components), typeName)|
            && KnowsBuses(branch, busIds)
            && var staged := RowsOf(DropAll(components), typeName)[i];
               && staged.name == Some(branch.name)
               && staged.arc.Some?
               && staged.arc.value in ArcEndpoints(DropAll(components))
               && ArcEndpoints(DropAll(components))[staged.arc.value]
                  == (Some(busIds[branch.bus0]), Some(busIds[branch.bus1]))
  {
    hide LastWins, DropAll, LastMatch, IsPayload;
    hide BusIds, ArcIds, ArcEndpoints, LastJoiningArc, HasUniqueArcIds, RowsOf, BRANCH_TYPES;
    var branch := TableOf(tables.branches, typeName)[i];
    BranchIsReadBack(components, tables, typeName, i);
    BranchEndsAreJoined(tables, branch);
    var ends := Ends(branch, BusIds(tables.buses));
    var arc :| arc in tables.arcs && ArcEnds(arc) == ends && arc.id == ArcIds(tables.arcs)[ends];
    LastJoiningArcIsTheOne(tables, arc);
    StagedBranchJoinsItsBusesExactlyWhen(components, tables, typeName, i);
  }

  /** With unique bus ids too, the staged id leads back to the very name the branch stated. */
  lemma BusIdLeadsBackToItsName(tables: Tables, name: string, bus: BusRow)
    requires HasUniqueBusIds(tables) && name in BusIds(tables.buses)
    requires bus in tables.buses && bus.id == BusIds(tables.buses)[name]
    ensures bus.name == name
  {
    NamedBusIsABus(tables, name);
    var named :| named in tables.buses && named.name == name && named.id == BusIds(tables.buses)[name];
  }
}
