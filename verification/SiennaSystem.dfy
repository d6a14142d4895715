/** Writing a Sienna system document from named tables, and staging what is read back
    (interop/plugins/sinks/emit_sienna_system_json.py and
    interop/plugins/sources/stage_sienna_system_json.py). */
module SiennaSystem {
  import opened Common
  import opened SiennaDocument

  const AREA := "Area"
  const LINE := "Line"
  const HVDC_LINE := "TwoTerminalGenericHVDCLine"

  // Static injections, each attached to a bus by name, in the order they are built.
  const ATTACHED_TYPES: seq<string> := [
    "PowerLoad", "InterruptiblePowerLoad", "ThermalStandard", "RenewableDispatch",
    "RenewableNonDispatch", "HydroDispatch", "EnergyReservoirStorage"]

  const BRANCH_TYPES: seq<string> := [LINE, HVDC_LINE]

  datatype AreaRow = AreaRow(id: int, name: string)
  datatype BusRow = BusRow(id: int, name: string, area: Option<string>)
  datatype AttachedRow = AttachedRow(id: int, name: string, busName: string)
  datatype ArcRow = ArcRow(id: int, fromId: int, toId: int)
  datatype BranchRow = BranchRow(id: int, name: string, bus0: string, bus1: string)

  // An absent table is an empty one: both write nothing.
  datatype Tables = Tables(
    areas: seq<AreaRow>,
    buses: seq<BusRow>,
    attached: map<string, seq<AttachedRow>>,
    arcs: seq<ArcRow>,
    branches: map<string, seq<BranchRow>>)

  datatype WriteError = UnknownArea | UnknownBus(typeName: string) | NoArc(typeName: string)

  function AreaName(row: AreaRow): string { row.name }
  function AreaId(row: AreaRow): int { row.id }
  function BusName(row: BusRow): string { row.name }
  function BusId(row: BusRow): int { row.id }
  function ArcEnds(row: ArcRow): (int, int) { (row.fromId, row.toId) }
  function ArcId(row: ArcRow): int { row.id }

  function AreaIds(areas: seq<AreaRow>): map<string, int> { LastWins(areas, AreaName, AreaId) }
  function BusIds(buses: seq<BusRow>): map<string, int> { LastWins(buses, BusName, BusId) }
  function ArcIds(arcs: seq<ArcRow>): map<(int, int), int> { LastWins(arcs, ArcEnds, ArcId) }

  // ---- What one row is written as ----

  const BLANK := Row(0, None, None, None, None, None, None)

  function AreaComponent(row: AreaRow): Row { BLANK.(id := row.id, name := Some(row.name)) }

  // An empty area name is no area, though it must still be one of the areas.
  function BusComponent(row: BusRow, areaIds: map<string, int>): Row
    requires row.area.Some? ==> row.area.value in areaIds
  {
    BLANK.(id := row.id, name := Some(row.name),
           area := if row.area.None? || |row.area.value| == 0 then None else Some(areaIds[row.area.value]))
  }

  function AttachedComponent(row: AttachedRow, busIds: map<string, int>): Row
    requires row.busName in busIds
  {
    BLANK.(id := row.id, name := Some(row.name), bus := Some(busIds[row.busName]))
  }

  function ArcComponent(row: ArcRow): Row {
    BLANK.(id := row.id, fromId := Some(row.fromId), toId := Some(row.toId))
  }

  predicate KnowsBuses(row: BranchRow, busIds: map<string, int>) {
    row.bus0 in busIds && row.bus1 in busIds
  }

  function Ends(row: BranchRow, busIds: map<string, int>): (int, int)
    requires KnowsBuses(row, busIds)
  {
    (busIds[row.bus0], busIds[row.bus1])
  }

  function BranchComponent(row: BranchRow, busIds: map<string, int>, arcIds: map<(int, int), int>): Row
    requires KnowsBuses(row, busIds) && Ends(row, busIds) in arcIds
  {
    BLANK.(id := row.id, name := Some(row.name), arc := Some(arcIds[Ends(row, busIds)]))
  }

  lemma AreaNameStandsForTheLastId(areas: seq<AreaRow>, i: nat)
    requires i < |areas| && forall j :: i < j < |areas| ==> areas[j].name != areas[i].name
    ensures areas[i].name in AreaIds(areas) && AreaIds(areas)[areas[i].name] == areas[i].id
  {
    LastWinsIsLast(areas, AreaName, AreaId, i);
  }

  lemma BusNameStandsForTheLastId(buses: seq<BusRow>, i: nat)
    requires i < |buses| && forall j :: i < j < |buses| ==> buses[j].name != buses[i].name
    ensures buses[i].name in BusIds(buses) && BusIds(buses)[buses[i].name] == buses[i].id
  {
    LastWinsIsLast(buses, BusName, BusId, i);
  }

  /** An ordered pair of buses stands for the last arc from the one to the other. */
  lemma EndsStandForTheLastArc(arcs: seq<ArcRow>, i: nat)
    requires i < |arcs|
    requires forall j :: i < j < |arcs| ==> (arcs[j].fromId, arcs[j].toId) != (arcs[i].fromId, arcs[i].toId)
    ensures (arcs[i].fromId, arcs[i].toId) in ArcIds(arcs) && ArcIds(arcs)[(arcs[i].fromId, arcs[i].toId)] == arcs[i].id
  {
    LastWinsIsLast(arcs, ArcEnds, ArcId, i);
  }

  lemma NothingElseStandsForAnId(tables: Tables)
    ensures forall name :: name in AreaIds(tables.areas) ==> exists area :: area in tables.areas && area.name == name
    ensures forall name :: name in BusIds(tables.buses) ==> exists bus :: bus in tables.buses && bus.name == name
    ensures forall ends :: ends in ArcIds(tables.arcs) ==> exists arc :: arc in tables.arcs && (arc.fromId, arc.toId) == ends
  {
  }

  // ---- The builders, each against the rows it writes ----

  /** The id of the area a bus states, where it states one by a name. */
  ghost function AreaIdOf(area: Option<string>, areaIds: map<string, int>): Option<int> {
    match area
    case None => None
    case Some(name) => if name != "" && name in areaIds then Some(areaIds[name]) else None
  }

  ghost predicate WritesBuses(rows: seq<Row>, buses: seq<BusRow>, areaIds: map<string, int>) {
    && |rows| == |buses|
    && forall i :: 0 <= i < |buses| ==>
         && (buses[i].area.Some? ==> buses[i].area.value in areaIds)
         && rows[i] == Row(buses[i].id, Some(buses[i].name), AreaIdOf(buses[i].area, areaIds), None, None, None, None)
  }

  ghost predicate WritesAttached(rows: seq<Row>, attached: seq<AttachedRow>, busIds: map<string, int>) {
    && |rows| == |attached|
    && forall i :: 0 <= i < |attached| ==>
         && attached[i].busName in busIds
         && rows[i] == Row(attached[i].id, Some(attached[i].name), None, Some(busIds[attached[i].busName]), None, None, None)
  }

  ghost predicate WritesAreas(rows: seq<Row>, areas: seq<AreaRow>) {
    && |rows| == |areas|
    && forall i :: 0 <= i < |areas| ==> rows[i] == Row(areas[i].id, Some(areas[i].name), None, None, None, None, None)
  }

  ghost predicate WritesArcs(rows: seq<Row>, arcs: seq<ArcRow>) {
    && |rows| == |arcs|
    && forall i :: 0 <= i < |arcs| ==>
         rows[i] == Row(arcs[i].id, None, None, None, None, Some(arcs[i].fromId), Some(arcs[i].toId))
  }

  ghost predicate WritesBranches(rows: seq<Row>, branches: seq<BranchRow>, busIds: map<string, int>,
                                 arcIds: map<(int, int), int>) {
    && |rows| == |branches|
    && forall i :: 0 <= i < |branches| ==>
         var branch := branches[i];
         && branch.bus0 in busIds && branch.bus1 in busIds
         && (busIds[branch.bus0], busIds[branch.bus1]) in arcIds
         && rows[i] == Row(branch.id, Some(branch.name), None, None,
                           Some(arcIds[(busIds[branch.bus0], busIds[branch.bus1])]), None, None)
  }

  method BuildAreaComponents(areas: seq<AreaRow>) returns (rows: seq<Row>, areaIds: map<string, int>)
    ensures areaIds == AreaIds(areas)
    ensures WritesAreas(rows, areas)
  {
    rows, areaIds := [], map[];
    for n := 0 to |areas|
      invariant areaIds == AreaIds(areas[..n])
      invariant WritesAreas(rows, areas[..n])
    {
      LastWinsStep(areas, n, AreaName, AreaId);
      areaIds := areaIds[areas[n].name := areas[n].id];
      rows := rows + [AreaComponent(areas[n])];
    }
    assert areas[..|areas|] == areas;
  }

  /** Refused exactly when a bus states an area no area row names. */
  method BuildBusComponents(buses: seq<BusRow>, areaIds: map<string, int>)
    returns (result: Result<seq<Row>, WriteError>, busIds: map<string, int>)
    ensures result.Success? ==> WritesBuses(result.value, buses, areaIds) && busIds == BusIds(buses)
    ensures result.Failure? <==> exists bus :: bus in buses && bus.area.Some? && bus.area.value !in areaIds
    ensures result.Failure? ==> result.error == UnknownArea
  {
    busIds := map[];
    if exists bus :: bus in buses && bus.area.Some? && bus.area.value !in areaIds {
      return Failure(UnknownArea), busIds;
    }
    var rows: seq<Row> := [];
    for n := 0 to |buses|
      invariant busIds == BusIds(buses[..n])
      invariant WritesBuses(rows, buses[..n], areaIds)
    {
      LastWinsStep(buses, n, BusName, BusId);
      busIds := busIds[buses[n].name := buses[n].id];
      assert buses[n] in buses;
      rows := rows + [BusComponent(buses[n], areaIds)];
    }
    assert buses[..|buses|] == buses;
    result := Success(rows);
  }

  /** Refused exactly when a row names a bus no bus row does. */
  method BuildBusAttachedComponents(typeName: string, attached: seq<AttachedRow>, busIds: map<string, int>)
    returns (result: Result<seq<Row>, WriteError>)
    ensures result.Success? ==> WritesAttached(result.value, attached, busIds)
    ensures result.Failure? <==> exists row :: row in attached && row.busName !in busIds
    ensures result.Failure? ==> result.error == UnknownBus(typeName)
  {
    if exists row :: row in attached && row.busName !in busIds {
      return Failure(UnknownBus(typeName));
    }
    var rows: seq<Row> := [];
    for n := 0 to |attached|
      invariant WritesAttached(rows, attached[..n], busIds)
    {
      assert attached[n] in attached;
      rows := rows + [AttachedComponent(attached[n], busIds)];
    }
    assert attached[..|attached|] == attached;
    result := Success(rows);
  }

  method BuildArcComponents(arcs: seq<ArcRow>) returns (rows: seq<Row>, arcIds: map<(int, int), int>)
    ensures WritesArcs(rows, arcs) && arcIds == ArcIds(arcs)
  {
    rows, arcIds := [], map[];
    for n := 0 to |arcs|
      invariant WritesArcs(rows, arcs[..n]) && arcIds == ArcIds(arcs[..n])
    {
      LastWinsStep(arcs, n, ArcEnds, ArcId);
      arcIds := arcIds[(arcs[n].fromId, arcs[n].toId) := arcs[n].id];
      rows := rows + [ArcComponent(arcs[n])];
    }
    assert arcs[..|arcs|] == arcs;
  }

  /** Refused exactly when a branch names an unknown bus, or joins two buses no arc joins. */
  method BuildBranchComponents(typeName: string, branches: seq<BranchRow>, busIds: map<string, int>,
                               arcIds: map<(int, int), int>)
    returns (result: Result<seq<Row>, WriteError>)
    ensures result.Success? ==> WritesBranches(result.value, branches, busIds, arcIds)
    ensures result == Failure(UnknownBus(typeName)) <==>
              exists row :: row in branches && (row.bus0 !in busIds || row.bus1 !in busIds)
    ensures result == Failure(NoArc(typeName)) <==>
              && (forall row :: row in branches ==> row.bus0 in busIds && row.bus1 in busIds)
              && exists row :: row in branches && (busIds[row.bus0], busIds[row.bus1]) !in arcIds
    ensures result.Failure? ==> result.error in {UnknownBus(typeName), NoArc(typeName)}
  {
    if exists row :: row in branches && !KnowsBuses(row, busIds) {
      return Failure(UnknownBus(typeName));
    }
    var rows: seq<Row> := [];
    for n := 0 to |branches|
      invariant WritesBranches(rows, branches[..n], busIds, arcIds)
    {
      assert branches[n] in branches;
      if Ends(branches[n], busIds) !in arcIds {
        return Failure(NoArc(typeName));
      }
      rows := rows + [BranchComponent(branches[n], busIds, arcIds)];
    }
    assert branches[..|branches|] == branches;
    result := Success(rows);
  }

  // ---- The payload ----

  function TableOf<T>(tables: map<string, seq<T>>, typeName: string): seq<T> {
    if typeName in tables then tables[typeName] else []
  }

  ghost predicate WritesAllAttached(components: Components, tables: Tables, types: seq<string>) {
    forall typeName :: typeName in types ==>
      WritesAttached(RowsOf(components, typeName),
                     if typeName in tables.attached then tables.attached[typeName] else [], BusIds(tables.buses))
  }

  ghost predicate WritesAllBranches(components: Components, tables: Tables, types: seq<string>) {
    forall typeName :: typeName in types ==>
      WritesBranches(RowsOf(components, typeName),
                     if typeName in tables.branches then tables.branches[typeName] else [],
                     BusIds(tables.buses), ArcIds(tables.arcs))
  }

  /** What the writer puts under `components`: no type without rows, and each type's rows resolved
      from its table. */
  ghost predicate IsPayload(components: Components, tables: Tables) {
    && (forall typeName :: typeName in components ==>
          typeName in [AREA, AC_BUS, ARC] + ATTACHED_TYPES + BRANCH_TYPES && |components[typeName]| > 0)
    && WritesAreas(RowsOf(components, AREA), tables.areas)
    && WritesBuses(RowsOf(components, AC_BUS), tables.buses, AreaIds(tables.areas))
    && WritesArcs(RowsOf(components, ARC), tables.arcs)
    && WritesAllAttached(components, tables, ATTACHED_TYPES)
    && WritesAllBranches(components, tables, BRANCH_TYPES)
  }

  /** Whether some reference of the tables names nothing. */
  ghost predicate HasUnresolvedName(tables: Tables) {
    || (exists bus :: bus in tables.buses && bus.area.Some? && bus.area.value !in AreaIds(tables.areas))
    || HasUnknownBus(tables, ATTACHED_TYPES)
    || HasUnknownBranchEnd(tables, BRANCH_TYPES)
  }

  function WithRows(components: Components, typeName: string, rows: seq<Row>): Components {
    if |rows| > 0 then components[typeName := rows] else components
  }

  lemma TypesAreDistinct()
    ensures AreDistinct(ATTACHED_TYPES) && AreDistinct(BRANCH_TYPES)
    ensures forall typeName :: typeName in ATTACHED_TYPES ==> typeName !in [AREA, AC_BUS, ARC] + BRANCH_TYPES
    ensures forall typeName :: typeName in BRANCH_TYPES ==> typeName !in [AREA, AC_BUS, ARC]
    ensures AREA != AC_BUS && AREA != ARC && AC_BUS != ARC
  {
  }

  ghost predicate HasRowsInEveryType(components: Components) {
    forall typeName :: typeName in components ==> |components[typeName]| > 0
  }

  /** `after` adds rows of `types` alone to `before`. */
  ghost predicate Extends(before: Components, after: Components, types: seq<string>) {
    && (forall typeName :: typeName in after ==> typeName in before || typeName in types)
    && (forall typeName :: typeName !in types ==> RowsOf(after, typeName) == RowsOf(before, typeName))
  }

  lemma ExtendsNothing(before: Components)
    ensures Extends(before, before, [])
  {
  }

  lemma ExtendsKeys(before: Components, after: Components, types: seq<string>, typeName: string)
    requires Extends(before, after, types) && typeName !in before && typeName !in types
    ensures typeName !in after
  {
  }

  lemma ExtendsStep(before: Components, after: Components, types: seq<string>, n: nat, rows: seq<Row>)
    requires n < |types| && AreDistinct(types)
    requires Extends(before, after, types[..n]) && HasRowsInEveryType(after)
    requires forall i :: n <= i < |types| ==> types[i] !in after
    ensures var more := WithRows(after, types[n], rows);
            && Extends(before, more, types[..n + 1])
            && HasRowsInEveryType(more)
            && RowsOf(more, types[n]) == rows
            && (forall typeName :: typeName in types[..n] ==> RowsOf(more, typeName) == RowsOf(after, typeName))
            && forall i :: n + 1 <= i < |types| ==> types[i] !in more
  {
    assert types[..n + 1] == types[..n] + [types[n]];
    forall typeName | typeName in types[..n] ensures typeName != types[n] {}
  }

  ghost predicate HasUnknownBus(tables: Tables, types: seq<string>) {
    exists typeName, row :: typeName in types && typeName in tables.attached && row in tables.attached[typeName]
      && row.busName !in BusIds(tables.buses)
  }

  ghost predicate HasUnknownBranchEnd(tables: Tables, types: seq<string>) {
    exists typeName, row :: typeName in types && typeName in tables.branches && row in tables.branches[typeName]
      && var busIds := BusIds(tables.buses);
         !(row.bus0 in busIds && row.bus1 in busIds && (busIds[row.bus0], busIds[row.bus1]) in ArcIds(tables.arcs))
  }

  method AddAttached(tables: Tables, types: seq<string>, before: Components, busIds: map<string, int>)
    returns (result: Result<Components, WriteError>)
    requires AreDistinct(types) && HasRowsInEveryType(before)
    requires forall typeName :: typeName in types ==> typeName !in before
    requires busIds == BusIds(tables.buses)
    ensures result.Success? ==> Extends(before, result.value, types) && HasRowsInEveryType(result.value)
    ensures result.Success? ==> WritesAllAttached(result.value, tables, types)
    ensures result.Failure? <==> HasUnknownBus(tables, types)
  {
    hide LastWins, Extends, HasRowsInEveryType, WithRows, RowsOf, WritesAttached;
    var after := before;
    ExtendsNothing(before);
    for n := 0 to |types|
      invariant Extends(before, after, types[..n]) && HasRowsInEveryType(after)
      invariant WritesAllAttached(after, tables, types[..n])
      invariant forall i :: n <= i < |types| ==> types[i] !in after
      invariant !HasUnknownBus(tables, types[..n])
    {
      var rows := BuildBusAttachedComponents(types[n], TableOf(tables.attached, types[n]), busIds);
      assert types[..n + 1] == types[..n] + [types[n]];
      if rows.Failure? {
        return Failure(rows.error);
      }
      ExtendsStep(before, after, types, n, rows.value);
      after := WithRows(after, types[n], rows.value);
    }
    assert types[..|types|] == types;
    result := Success(after);
  }

  method AddBranches(tables: Tables, types: seq<string>, before: Components, busIds: map<string, int>,
                     arcIds: map<(int, int), int>)
    returns (result: Result<Components, WriteError>)
    requires AreDistinct(types) && HasRowsInEveryType(before)
    requires forall typeName :: typeName in types ==> typeName !in before
    requires busIds == BusIds(tables.buses) && arcIds == ArcIds(tables.arcs)
    ensures result.Success? ==> Extends(before, result.value, types) && HasRowsInEveryType(result.value)
    ensures result.Success? ==> WritesAllBranches(result.value, tables, types)
    ensures result.Failure? <==> HasUnknownBranchEnd(tables, types)
  {
    hide LastWins, Extends, HasRowsInEveryType, WithRows, RowsOf, WritesBranches;
    var after := before;
    ExtendsNothing(before);
    for n := 0 to |types|
      invariant Extends(before, after, types[..n]) && HasRowsInEveryType(after)
      invariant WritesAllBranches(after, tables, types[..n])
      invariant forall i :: n <= i < |types| ==> types[i] !in after
      invariant !HasUnknownBranchEnd(tables, types[..n])
    {
      var rows := BuildBranchComponents(types[n], TableOf(tables.branches, types[n]), busIds, arcIds);
      assert types[..n + 1] == types[..n] + [types[n]];
      if rows.Failure? {
        return Failure(rows.error);
      }
      ExtendsStep(before, after, types, n, rows.value);
      after := WithRows(after, types[n], rows.value);
    }
    assert types[..|types|] == types;
    result := Success(after);
  }

  lemma AddedInTurn(tables: Tables, attachedTypes: seq<string>, branchTypes: seq<string>,
                    first: Components, second: Components, third: Components)
    requires Extends(first, second, attachedTypes) && Extends(second, third, branchTypes)
    requires forall typeName :: typeName in attachedTypes ==> typeName !in branchTypes
    requires WritesAllAttached(second, tables, attachedTypes)
    ensures WritesAllAttached(third, tables, attachedTypes)
    ensures forall typeName :: typeName !in attachedTypes && typeName !in branchTypes ==>
              RowsOf(third, typeName) == RowsOf(first, typeName)
    ensures forall typeName :: typeName in third ==>
              typeName in first || typeName in attachedTypes || typeName in branchTypes
  {
  }

  /** The sections every document starts with. */
  method AddFirst(areaRows: seq<Row>, busRows: seq<Row>, arcRows: seq<Row>) returns (first: Components)
    ensures HasRowsInEveryType(first)
    ensures RowsOf(first, AREA) == areaRows && RowsOf(first, AC_BUS) == busRows && RowsOf(first, ARC) == arcRows
    ensures forall typeName :: typeName in first ==> typeName in [AREA, AC_BUS, ARC]
  {
    TypesAreDistinct();
    first := WithRows(WithRows(WithRows(map[], AREA, areaRows), AC_BUS, busRows), ARC, arcRows);
  }

  method BuildPayload(tables: Tables) returns (result: Result<Components, WriteError>)
    ensures result.Success? ==> IsPayload(result.value, tables)
    ensures result.Failure? <==> HasUnresolvedName(tables)
  {
    hide LastWins, Extends, WithRows, RowsOf, WritesBranches, WritesAttached, WritesBuses, WritesArcs, WritesAreas,
         WritesAllAttached, WritesAllBranches, HasUnknownBus, HasUnknownBranchEnd;
    var areaRows, areaIds := BuildAreaComponents(tables.areas);
    var busRows, busIds := BuildBusComponents(tables.buses, areaIds);
    if busRows.Failure? {
      return Failure(busRows.error);
    }
    TypesAreDistinct();
    var arcRows, arcIds := BuildArcComponents(tables.arcs);
    var first := AddFirst(areaRows, busRows.value, arcRows);
    result := AddAttached(tables, ATTACHED_TYPES, first, busIds);
    if result.Success? {
      var second := result.value;
      forall typeName | typeName in BRANCH_TYPES ensures typeName !in second {
        ExtendsKeys(first, second, ATTACHED_TYPES, typeName);
      }
      result := AddBranches(tables, BRANCH_TYPES, second, busIds, arcIds);
      if result.Success? {
        AddedInTurn(tables, ATTACHED_TYPES, BRANCH_TYPES, first, second, result.value);
      }
    }
  }
}
