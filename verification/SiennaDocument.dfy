/** Reading a Sienna system document: leaving out each row that refers to no kept row
    (interop/plugins/shared/sienna_document.py). */
module SiennaDocument {
  import opened Common

  const AC_BUS := "ACBus"
  const ARC := "Arc"

  // A validated row. A reference is None where the field is absent or holds no integer.
  datatype Row = Row(
    id: int,
    name: Option<string>,
    area: Option<int>,
    bus: Option<int>,
    arc: Option<int>,
    fromId: Option<int>,
    toId: Option<int>)

  datatype Field = BusField | ArcField | FromField | ToField

  // The rows of each component type, and what is said of each row left out.
  type Components = map<string, seq<Row>>

  datatype LeftOut = LeftOut(typeName: string, row: Row, field: Field)

  function Target(field: Field): string {
    if field == ArcField then ARC else AC_BUS
  }

  function Reference(row: Row, field: Field): Option<int> {
    match field
    case BusField => row.bus
    case ArcField => row.arc
    case FromField => row.fromId
    case ToField => row.toId
  }

  datatype KeptIds = KeptIds(buses: set<int>, arcs: set<int>) {
    function Of(field: Field): set<int> {
      if field == ArcField then arcs else buses
    }

    predicate Within(other: KeptIds) { buses <= other.buses && arcs <= other.arcs }
  }

  function RowsOf(components: Components, typeName: string): seq<Row> {
    if typeName in components then components[typeName] else []
  }

  function IdsOf(components: Components): KeptIds {
    KeptIds(set row | row in RowsOf(components, AC_BUS) :: row.id,
            set row | row in RowsOf(components, ARC) :: row.id)
  }

  predicate Dangles(row: Row, field: Field, kept: KeptIds) {
    Reference(row, field).Some? && Reference(row, field).value !in kept.Of(field)
  }

  /** The first that dangles of the bus, the arc, and the two ends, in that order. */
  function FindReferenceToNoKeptRow(row: Row, kept: KeptIds): (r: Option<Field>)
    ensures r.Some? ==> Dangles(row, r.value, kept)
    ensures r.None? ==> forall field :: !Dangles(row, field, kept)
  {
    if Dangles(row, BusField, kept) then Some(BusField)
    else if Dangles(row, ArcField, kept) then Some(ArcField)
    else if Dangles(row, FromField, kept) then Some(FromField)
    else if Dangles(row, ToField, kept) then Some(ToField)
    else None
  }

  /** Of what a row states, its bus is looked at first, then its arc, its start and its end. */
  lemma FirstFieldThatNamesNoKeptRow(row: Row, kept: KeptIds)
    ensures var bus, arc := row.bus.Some? && row.bus.value !in kept.buses, row.arc.Some? && row.arc.value !in kept.arcs;
            var start, end := row.fromId.Some? && row.fromId.value !in kept.buses, row.toId.Some? && row.toId.value !in kept.buses;
            match FindReferenceToNoKeptRow(row, kept)
            case Some(BusField) => bus
            case Some(ArcField) => !bus && arc
            case Some(FromField) => !bus && !arc && start
            case Some(ToField) => !bus && !arc && !start && end
            case None => !bus && !arc && !start && !end
  {
  }

  function RefersToKept(kept: KeptIds): Row -> bool {
    (row: Row) => FindReferenceToNoKeptRow(row, kept).None?
  }

  /** The rows whose every reference is among the ids, each type's rows in their own order. */
  function Kept(components: Components, ids: KeptIds): (r: Components)
    ensures r.Keys == components.Keys
  {
    map typeName | typeName in components :: Filter(components[typeName], RefersToKept(ids))
  }

  /** One pass over every type, all judged by the ids the pass started with. */
  function Pass(components: Components): Components {
    Kept(components, IdsOf(components))
  }

  function Positions(components: Components): set<(string, nat)> {
    set typeName, i | typeName in components && 0 <= i < |components[typeName]| :: (typeName, i)
  }

  lemma ShorterWhenChanged<T(!new)>(s: seq<T>, p: T -> bool)
    requires Filter(s, p) != s
    ensures |Filter(s, p)| < |s|
  {
    if forall x :: x in s ==> p(x) {
      FilterAll(s, p);
    } else {
      var i :| 0 <= i < |s| && !p(s[i]);
      assert s == s[..i] + [s[i]] + s[i + 1..];
      FilterConcat(s[..i] + [s[i]], s[i + 1..], p);
      FilterConcat(s[..i], [s[i]], p);
    }
  }

  lemma PassShrinks(components: Components)
    ensures Pass(components) != components ==> Positions(Pass(components)) < Positions(components)
  {
    var after := Pass(components);
    if typeName :| typeName in components && after[typeName] != components[typeName] {
      ShorterWhenChanged(components[typeName], RefersToKept(IdsOf(components)));
      assert (typeName, |after[typeName]|) in Positions(components);
      assert (typeName, |after[typeName]|) !in Positions(after);
    } else {
      assert after == components;
    }
  }

  /** The pass repeated until it leaves out nothing. */
  function DropAll(components: Components): (r: Components)
    ensures Pass(r) == r
    decreases Positions(components)
  {
    if Pass(components) == components then components
    else
      PassShrinks(components);
      DropAll(Pass(components))
  }

  /** How many passes that takes, the last one included. */
  function Passes(components: Components): nat
    decreases Positions(components)
  {
    if Pass(components) == components then 1
    else
      PassShrinks(components);
      1 + Passes(Pass(components))
  }

  // ---- The greatest collection of rows that refer only to each other ----

  // Rows are chosen by position, so equal rows can be chosen apart.
  type Selection = set<(string, nat)>

  ghost predicate IsClosed(components: Components, chosen: Selection) {
    && chosen <= Positions(components)
    && forall typeName, i, field ::
         (typeName, i) in chosen && Reference(components[typeName][i], field).Some? ==>
           exists j :: (Target(field), j) in chosen
             && components[Target(field)][j].id == Reference(components[typeName][i], field).value
  }

  function Surviving(components: Components, ids: KeptIds): Selection {
    set typeName, i | typeName in components && 0 <= i < |components[typeName]|
      && RefersToKept(ids)(components[typeName][i]) :: (typeName, i)
  }

  lemma MonotoneInIds(row: Row, fewer: KeptIds, more: KeptIds)
    requires fewer.Within(more) && RefersToKept(fewer)(row)
    ensures RefersToKept(more)(row)
  {
  }

  lemma KeptOfKept(components: Components, fewer: KeptIds, more: KeptIds)
    requires fewer.Within(more)
    ensures Kept(Kept(components, more), fewer) == Kept(components, fewer)
  {
    forall typeName | typeName in components
      ensures Filter(Filter(components[typeName], RefersToKept(more)), RefersToKept(fewer))
              == Filter(components[typeName], RefersToKept(fewer))
    {
      forall row | row in components[typeName] && RefersToKept(fewer)(row) ensures RefersToKept(more)(row) {
        MonotoneInIds(row, fewer, more);
      }
      FilterAbsorbs(components[typeName], RefersToKept(more), RefersToKept(fewer));
    }
  }

  /** A closed choice that survives among some ids survives among the ids kept with it. */
  lemma ClosedChoiceSurvivesPass(components: Components, chosen: Selection, ids: KeptIds)
    requires IsClosed(components, chosen) && chosen <= Surviving(components, ids)
    ensures chosen <= Surviving(components, IdsOf(Kept(components, ids)))
  {
    var after := Kept(components, ids);
    forall typeName, i | (typeName, i) in chosen
      ensures (typeName, i) in Surviving(components, IdsOf(after))
    {
      var row := components[typeName][i];
      forall field ensures !Dangles(row, field, IdsOf(after)) {
        if Reference(row, field).Some? {
          var j :| (Target(field), j) in chosen && components[Target(field)][j].id == Reference(row, field).value;
          assert (Target(field), j) in Surviving(components, ids);
          assert components[Target(field)][j] in after[Target(field)];
        }
      }
    }
  }

  lemma {:induction false} DropAllFrom(components: Components, ids: KeptIds) returns (last: KeptIds)
    requires IdsOf(Kept(components, ids)).Within(ids)
    ensures DropAll(Kept(components, ids)) == Kept(components, last)
    ensures IdsOf(Kept(components, last)) == last
    ensures forall chosen :: IsClosed(components, chosen) && chosen <= Surviving(components, ids) ==>
              chosen <= Surviving(components, last)
    decreases Positions(Kept(components, ids))
  {
    var current := Kept(components, ids);
    var next := IdsOf(current);
    KeptOfKept(components, next, ids);
    assert Pass(current) == Kept(components, next);
    forall chosen | IsClosed(components, chosen) && chosen <= Surviving(components, ids)
      ensures chosen <= Surviving(components, next)
    {
      ClosedChoiceSurvivesPass(components, chosen, ids);
    }
    if Pass(current) == current {
      last := next;
    } else {
      PassShrinks(current);
      last := DropAllFrom(components, next);
    }
  }

  /** Every id a row states or refers to, so that nothing dangles among them. */
  function Everything(components: Components): KeptIds {
    var referenced := set typeName, i, field |
      typeName in components && 0 <= i < |components[typeName]| && field in {BusField, ArcField, FromField, ToField}
      && Reference(components[typeName][i], field).Some? :: Reference(components[typeName][i], field).value;
    KeptIds(IdsOf(components).buses + referenced, IdsOf(components).arcs + referenced)
  }

  lemma NothingDanglesAtFirst(components: Components)
    ensures Kept(components, Everything(components)) == components
    ensures Surviving(components, Everything(components)) == Positions(components)
  {
    var ids := Everything(components);
    forall typeName, i | typeName in components && 0 <= i < |components[typeName]|
      ensures RefersToKept(ids)(components[typeName][i])
    {
      forall field ensures !Dangles(components[typeName][i], field, ids) {
        assert field in {BusField, ArcField, FromField, ToField} by {
          match field {
            case BusField =>
            case ArcField =>
            case FromField =>
            case ToField =>
          }
        }
      }
    }
    forall typeName | typeName in components
      ensures Filter(components[typeName], RefersToKept(ids)) == components[typeName]
    {
      FilterAll(components[typeName], RefersToKept(ids));
    }
  }

  /** What the passes keep is the greatest closed choice of rows: closed itself, and holding every
      closed choice, with each type's rows in their own order. */
  lemma DropAllKeepsTheGreatestClosedChoice(components: Components) returns (last: KeptIds)
    ensures DropAll(components) == Kept(components, last) && IdsOf(DropAll(components)) == last
    ensures IsClosed(components, Surviving(components, last))
    ensures forall chosen :: IsClosed(components, chosen) ==> chosen <= Surviving(components, last)
  {
    NothingDanglesAtFirst(components);
    last := DropAllFrom(components, Everything(components));
    SurvivorsAreClosed(components, last);
  }

  lemma SurvivorsAreClosed(components: Components, ids: KeptIds)
    requires IdsOf(Kept(components, ids)) == ids
    ensures IsClosed(components, Surviving(components, ids))
  {
    var chosen := Surviving(components, ids);
    forall typeName, i, field | (typeName, i) in chosen && Reference(components[typeName][i], field).Some?
      ensures exists j :: (Target(field), j) in chosen
                && components[Target(field)][j].id == Reference(components[typeName][i], field).value
    {
      assert !Dangles(components[typeName][i], field, ids);
      var row :| row in RowsOf(Kept(components, ids), Target(field)) && row.id == Reference(components[typeName][i], field).value;
      var j :| 0 <= j < |components[Target(field)]| && components[Target(field)][j] == row;
      assert (Target(field), j) in chosen;
    }
  }

  // ---- The same, said of the rows' own fields ----

  ghost predicate IsChosen(components: Components, chosen: Selection, typeName: string, id: int) {
    exists j :: (typeName, j) in chosen && typeName in components && j < |components[typeName]|
      && components[typeName][j].id == id
  }

  /** The bus, the arc and the two ends a row states each name a chosen row. */
  ghost predicate StatesChosenRows(components: Components, chosen: Selection, row: Row) {
    && (row.bus.Some? ==> IsChosen(components, chosen, "ACBus", row.bus.value))
    && (row.arc.Some? ==> IsChosen(components, chosen, "Arc", row.arc.value))
    && (row.fromId.Some? ==> IsChosen(components, chosen, "ACBus", row.fromId.value))
    && (row.toId.Some? ==> IsChosen(components, chosen, "ACBus", row.toId.value))
  }

  ghost predicate RefersOnlyToItself(components: Components, chosen: Selection) {
    && chosen <= Positions(components)
    && forall typeName, i :: (typeName, i) in chosen ==> StatesChosenRows(components, chosen, components[typeName][i])
  }

  lemma ReferringInsideIsClosed(components: Components, chosen: Selection)
    requires RefersOnlyToItself(components, chosen)
    ensures IsClosed(components, chosen)
  {
    forall typeName, i, field | (typeName, i) in chosen && Reference(components[typeName][i], field).Some?
      ensures exists j :: (Target(field), j) in chosen && Target(field) in components && j < |components[Target(field)]|
                && components[Target(field)][j].id == Reference(components[typeName][i], field).value
    {
      assert StatesChosenRows(components, chosen, components[typeName][i]);
      assert IsChosen(components, chosen, Target(field), Reference(components[typeName][i], field).value);
    }
  }

  /** A row stays exactly when the bus, the arc and the two ends it states are each the id of a row
      that stays; and every choice of rows that refer only to each other stays. */
  lemma DropAllByTheFields(components: Components) returns (buses: set<int>, arcs: set<int>)
    ensures forall id :: id in buses <==>
              "ACBus" in DropAll(components) && exists row :: row in DropAll(components)["ACBus"] && row.id == id
    ensures forall id :: id in arcs <==>
              "Arc" in DropAll(components) && exists row :: row in DropAll(components)["Arc"] && row.id == id
    ensures DropAll(components).Keys == components.Keys
    ensures forall typeName, row :: typeName in components && row in components[typeName] ==>
              (row in DropAll(components)[typeName] <==> RefersAmong(row, buses, arcs))
    ensures forall chosen, typeName, i :: RefersOnlyToItself(components, chosen) && (typeName, i) in chosen ==>
              typeName in components && i < |components[typeName]| && RefersAmong(components[typeName][i], buses, arcs)
  {
    hide IsClosed, DropAll, Pass, RefersOnlyToItself, RefersAmong, Surviving;
    var last := DropAllKeepsTheGreatestClosedChoice(components);
    buses, arcs := last.buses, last.arcs;
    forall chosen, typeName: string, i: nat | RefersOnlyToItself(components, chosen) && (typeName, i) in chosen
      ensures typeName in components && i < |components[typeName]| && RefersAmong(components[typeName][i], buses, arcs)
    {
      ReferringInsideIsClosed(components, chosen);
      SurvivorsReferAmong(components, last, typeName, i);
    }
    forall row ensures RefersToKept(last)(row) <==> RefersAmong(row, buses, arcs) {
      KeptExactlyWhen(row, last);
    }
    IdsByTheFields(DropAll(components));
  }

  lemma KeptExactlyWhen(row: Row, kept: KeptIds)
    ensures RefersToKept(kept)(row) <==> RefersAmong(row, kept.buses, kept.arcs)
  {
    FirstFieldThatNamesNoKeptRow(row, kept);
  }

  lemma SurvivorsReferAmong(components: Components, kept: KeptIds, typeName: string, i: nat)
    requires (typeName, i) in Surviving(components, kept)
    ensures typeName in components && i < |components[typeName]|
    ensures RefersAmong(components[typeName][i], kept.buses, kept.arcs)
  {
    KeptExactlyWhen(components[typeName][i], kept);
  }

  lemma IdsByTheFields(components: Components)
    ensures forall id :: id in IdsOf(components).buses <==>
              "ACBus" in components && exists row :: row in components["ACBus"] && row.id == id
    ensures forall id :: id in IdsOf(components).arcs <==>
              "Arc" in components && exists row :: row in components["Arc"] && row.id == id
  {
  }

  ghost predicate RefersAmong(row: Row, buses: set<int>, arcs: set<int>) {
    && (row.bus.Some? ==> row.bus.value in buses)
    && (row.arc.Some? ==> row.arc.value in arcs)
    && (row.fromId.Some? ==> row.fromId.value in buses)
    && (row.toId.Some? ==> row.toId.value in buses)
  }

  // ---- Three passes are enough where buses refer to nothing and arcs only to buses ----

  ghost predicate IsLayered(components: Components) {
    && (forall row, field :: row in RowsOf(components, AC_BUS) ==> Reference(row, field).None?)
    && (forall row :: row in RowsOf(components, ARC) ==> row.arc.None?)
  }

  lemma BusesStay(components: Components)
    requires IsLayered(components)
    ensures RowsOf(Pass(components), AC_BUS) == RowsOf(components, AC_BUS)
    ensures IsLayered(Pass(components))
  {
    var keeps := RefersToKept(IdsOf(components));
    forall row | row in RowsOf(components, AC_BUS) ensures keeps(row) {
      assert forall field :: !Dangles(row, field, IdsOf(components));
    }
    FilterAll(RowsOf(components, AC_BUS), keeps);
  }

  /** Buses never go, so after the first pass no arc goes either. */
  lemma ArcsStayAfterOnePass(components: Components)
    requires IsLayered(components)
    ensures RowsOf(Pass(Pass(components)), ARC) == RowsOf(Pass(components), ARC)
  {
    var once := Pass(components);
    BusesStay(components);
    var keeps := RefersToKept(IdsOf(once));
    forall row | row in RowsOf(once, ARC) ensures keeps(row) {
      forall field ensures !Dangles(row, field, IdsOf(once)) {
        assert RefersToKept(IdsOf(components))(row) && !Dangles(row, field, IdsOf(components));
      }
    }
    FilterAll(RowsOf(once, ARC), keeps);
  }

  lemma PassesStep(components: Components)
    ensures Passes(components) <= 1 + Passes(Pass(components))
    ensures Pass(components) == components ==> Passes(components) == 1
  {
    hide Pass;
  }

  lemma AtMostThreePasses(components: Components)
    requires IsLayered(components)
    ensures Passes(components) <= 3
  {
    hide Passes;
    var once := Pass(components);
    var twice := Pass(once);
    BusesStay(components);
    ArcsStayAfterOnePass(components);
    BusesStay(once);
    assert IdsOf(twice) == IdsOf(once);
    KeptOfKept(once, IdsOf(once), IdsOf(once));
    assert Pass(twice) == twice;
    PassesStep(twice);
    PassesStep(once);
    PassesStep(components);
  }

  // ---- The reader, which replaces each type's rows in place ----

  function SaysLeftOut(typeName: string, rows: seq<Row>, kept: KeptIds): (r: seq<LeftOut>)
    ensures forall entry :: entry in r ==>
              entry.typeName == typeName && entry.row in rows && Dangles(entry.row, entry.field, kept)
  {
    if |rows| == 0 then []
    else
      var front, last := SaysLeftOut(typeName, rows[..|rows| - 1], kept), rows[|rows| - 1];
      match FindReferenceToNoKeptRow(last, kept)
      case None => front
      case Some(field) => front + [LeftOut(typeName, last, field)]
  }

  /** The rows of one type among those left out. */
  function RowsLeftOut(entries: seq<LeftOut>, typeName: string): seq<Row> {
    if |entries| == 0 then []
    else
      var front, last := RowsLeftOut(entries[..|entries| - 1], typeName), entries[|entries| - 1];
      if last.typeName == typeName then front + [last.row] else front
  }

  lemma {:induction false} RowsLeftOutConcat(a: seq<LeftOut>, b: seq<LeftOut>, typeName: string)
    ensures RowsLeftOut(a + b, typeName) == RowsLeftOut(a, typeName) + RowsLeftOut(b, typeName)
  {
    if |b| == 0 {
      assert a + b == a;
    } else {
      assert (a + b)[..|a + b| - 1] == a + b[..|b| - 1];
      RowsLeftOutConcat(a, b[..|b| - 1], typeName);
    }
  }

  /** Every row of the type is either kept or reported, once. */
  lemma {:induction false} KeptOrReported(typeName: string, rows: seq<Row>, kept: KeptIds)
    ensures multiset(rows)
            == multiset(Filter(rows, RefersToKept(kept))) + multiset(RowsLeftOut(SaysLeftOut(typeName, rows, kept), typeName))
  {
    if |rows| != 0 {
      var front, last := rows[..|rows| - 1], rows[|rows| - 1];
      assert rows == front + [last];
      KeptOrReported(typeName, front, kept);
      var said := SaysLeftOut(typeName, front, kept);
      if FindReferenceToNoKeptRow(last, kept).Some? {
        RowsLeftOutConcat(said, [LeftOut(typeName, last, FindReferenceToNoKeptRow(last, kept).value)], typeName);
      }
    }
  }

  lemma {:induction false} OtherTypesUnreported(typeName: string, other: string, rows: seq<Row>, kept: KeptIds)
    requires other != typeName
    ensures RowsLeftOut(SaysLeftOut(typeName, rows, kept), other) == []
  {
    if |rows| != 0 {
      OtherTypesUnreported(typeName, other, rows[..|rows| - 1], kept);
    }
  }

  lemma NoRowYet(typeName: string, kept: KeptIds)
    ensures Filter([], RefersToKept(kept)) == [] && SaysLeftOut(typeName, [], kept) == []
  {
  }

  lemma OneMoreRow(typeName: string, rows: seq<Row>, n: nat, kept: KeptIds)
    requires n < |rows|
    ensures var field := FindReferenceToNoKeptRow(rows[n], kept);
            && Filter(rows[..n + 1], RefersToKept(kept))
               == Filter(rows[..n], RefersToKept(kept)) + (if field.None? then [rows[n]] else [])
            && SaysLeftOut(typeName, rows[..n + 1], kept)
               == SaysLeftOut(typeName, rows[..n], kept)
                  + (if field.None? then [] else [LeftOut(typeName, rows[n], field.value)])
  {
    assert rows[..n + 1][..n] == rows[..n];
  }

  /** The components with only the types in `done` judged so far. */
  function MidPass(components: Components, done: seq<string>): (r: Components)
    requires forall typeName :: typeName in done ==> typeName in components
    ensures r.Keys == components.Keys
  {
    map typeName | typeName in components ::
      if typeName in done then Filter(components[typeName], RefersToKept(IdsOf(components))) else components[typeName]
  }

  function SaidOfTypes(components: Components, done: seq<string>): seq<LeftOut>
    requires forall typeName :: typeName in done ==> typeName in components
  {
    if |done| == 0 then []
    else
      var last := done[|done| - 1];
      SaidOfTypes(components, done[..|done| - 1]) + SaysLeftOut(last, components[last], IdsOf(components))
  }

  lemma OneMoreType(components: Components, order: seq<string>, n: nat)
    requires n < |order| && forall typeName :: typeName in order ==> typeName in components
    requires order[n] !in order[..n]
    ensures MidPass(components, order[..n])[order[n]] == components[order[n]]
    ensures MidPass(components, order[..n + 1])
            == MidPass(components, order[..n])[order[n] := Filter(components[order[n]], RefersToKept(IdsOf(components)))]
    ensures MidPass(components, order[..n + 1]) == components <==>
            MidPass(components, order[..n]) == components
            && Filter(components[order[n]], RefersToKept(IdsOf(components))) == components[order[n]]
    ensures SaidOfTypes(components, order[..n + 1])
            == SaidOfTypes(components, order[..n]) + SaysLeftOut(order[n], components[order[n]], IdsOf(components))
  {
    hide SaysLeftOut, IdsOf, Filter;
    assert order[..n + 1] == order[..n] + [order[n]];
    assert order[..n + 1][..n] == order[..n];
    var before, after := MidPass(components, order[..n]), MidPass(components, order[..n + 1]);
    assert after == before[order[n] := Filter(components[order[n]], RefersToKept(IdsOf(components)))];
    if after == components {
      forall typeName | typeName in components ensures before[typeName] == components[typeName] {
        assert typeName == order[n] || before[typeName] == after[typeName];
      }
      assert before == components;
    }
  }

  lemma NoTypeYet(components: Components)
    ensures MidPass(components, []) == components && SaidOfTypes(components, []) == []
  {
  }

  lemma EveryType(components: Components, order: seq<string>)
    requires forall typeName :: typeName in components <==> typeName in order
    ensures MidPass(components, order) == Pass(components)
  {
  }

  lemma NoneLeftOut(typeName: string)
    ensures RowsLeftOut([], typeName) == []
  {
  }

  lemma {:induction false} SaidOfOneType(components: Components, done: seq<string>, typeName: string)
    requires forall name :: name in done ==> name in components
    requires forall i, j :: 0 <= i < j < |done| ==> done[i] != done[j]
    ensures RowsLeftOut(SaidOfTypes(components, done), typeName)
            == if typeName in done then
                 RowsLeftOut(SaysLeftOut(typeName, components[typeName], IdsOf(components)), typeName)
               else []
  {
    hide SaysLeftOut, IdsOf, RowsLeftOut;
    if |done| == 0 {
      NoneLeftOut(typeName);
    } else {
      var front, last := done[..|done| - 1], done[|done| - 1];
      assert done == front + [last];
      SaidOfOneType(components, front, typeName);
      RowsLeftOutConcat(SaidOfTypes(components, front), SaysLeftOut(last, components[last], IdsOf(components)), typeName);
      if last != typeName {
        OtherTypesUnreported(last, typeName, components[last], IdsOf(components));
      }
    }
  }

  lemma {:induction false} SaidOfTypesDangles(components: Components, done: seq<string>)
    requires forall name :: name in done ==> name in components
    ensures forall entry :: entry in SaidOfTypes(components, done) ==> Dangles(entry.row, entry.field, IdsOf(components))
  {
    if |done| != 0 {
      SaidOfTypesDangles(components, done[..|done| - 1]);
    }
  }

  /** All that the passes report, pass by pass. */
  function SaidOfAll(components: Components, order: seq<string>): seq<LeftOut>
    requires forall typeName :: typeName in order ==> typeName in components
    decreases Positions(components)
  {
    if Pass(components) == components then SaidOfTypes(components, order)
    else
      PassShrinks(components);
      SaidOfTypes(components, order) + SaidOfAll(Pass(components), order)
  }

  ghost predicate OrdersTypes(order: seq<string>, components: Components) {
    && (forall typeName :: typeName in components <==> typeName in order)
    && (forall i, j :: 0 <= i < j < |order| ==> order[i] != order[j])
  }

  /** Nothing is lost or reported twice: each row of a type is kept or reported, in one place. */
  lemma {:induction false} EveryRowIsKeptOrReported(components: Components, order: seq<string>, typeName: string)
    requires OrdersTypes(order, components) && typeName in components
    ensures multiset(components[typeName])
            == multiset(RowsOf(DropAll(components), typeName)) + multiset(RowsLeftOut(SaidOfAll(components, order), typeName))
    decreases Positions(components)
  {
    hide SaysLeftOut, IdsOf, Filter, SaidOfTypes, RowsLeftOut, Positions;
    var said := SaidOfTypes(components, order);
    SaidOfOneType(components, order, typeName);
    KeptOrReported(typeName, components[typeName], IdsOf(components));
    assert Pass(components)[typeName] == Filter(components[typeName], RefersToKept(IdsOf(components)));
    if Pass(components) != components {
      PassShrinks(components);
      EveryRowIsKeptOrReported(Pass(components), order, typeName);
      RowsLeftOutConcat(said, SaidOfAll(Pass(components), order), typeName);
    }
  }

  lemma OneMorePass(components: Components, order: seq<string>)
    requires OrdersTypes(order, components)
    ensures if Pass(components) == components then
              && DropAll(components) == components
              && Passes(components) == 1
              && SaidOfAll(components, order) == SaidOfTypes(components, order)
            else
              && Positions(Pass(components)) < Positions(components)
              && DropAll(components) == DropAll(Pass(components))
              && Passes(components) == 1 + Passes(Pass(components))
              && SaidOfAll(components, order) == SaidOfTypes(components, order) + SaidOfAll(Pass(components), order)
  {
    PassShrinks(components);
  }

  lemma FewerIdsAfterPass(components: Components)
    ensures IdsOf(Pass(components)).Within(IdsOf(components))
  {
  }

  lemma {:induction false} FewerIdsAfterAll(components: Components)
    ensures IdsOf(DropAll(components)).Within(IdsOf(components))
    decreases Positions(components)
  {
    if Pass(components) != components {
      PassShrinks(components);
      FewerIdsAfterPass(components);
      FewerIdsAfterAll(Pass(components));
    }
  }

  /** A reported field still dangles once all passes are over. */
  lemma {:induction false} EveryReportIsRight(components: Components, order: seq<string>, entry: LeftOut)
    requires OrdersTypes(order, components) && entry in SaidOfAll(components, order)
    ensures Dangles(entry.row, entry.field, IdsOf(DropAll(components)))
    decreases Positions(components)
  {
    hide SaidOfTypes, IdsOf, Positions;
    SaidOfTypesDangles(components, order);
    FewerIdsAfterAll(components);
    if Pass(components) != components {
      PassShrinks(components);
      if entry in SaidOfAll(Pass(components), order) {
        EveryReportIsRight(Pass(components), order, entry);
      }
    }
  }

  class DocumentReader {
    // The order the document states its types in, which no result depends on.
    const order: seq<string>
    var components: Components
    var leftOut: seq<LeftOut>

    ghost predicate Valid()
      reads this
    {
      OrdersTypes(order, components)
    }

    constructor (order: seq<string>, components: Components)
      requires OrdersTypes(order, components)
      ensures Valid() && this.order == order && this.components == components && leftOut == []
    {
      this.order, this.components, this.leftOut := order, components, [];
    }

    method DropRowsOfType(typeName: string, kept: KeptIds) returns (hasDropped: bool)
      requires Valid() && typeName in components
      modifies this
      ensures Valid()
      ensures components == old(components)[typeName := Filter(old(components)[typeName], RefersToKept(kept))]
      ensures leftOut == old(leftOut) + SaysLeftOut(typeName, old(components)[typeName], kept)
      ensures hasDropped <==> components != old(components)
    {
      hide Filter, SaysLeftOut, FindReferenceToNoKeptRow, IdsOf, Dangles;
      var rows, keptRows := components[typeName], [];
      NoRowYet(typeName, kept);
      assert rows[..0] == [] && leftOut == leftOut + [];
      for n := 0 to |rows|
        invariant components == old(components)
        invariant keptRows == Filter(rows[..n], RefersToKept(kept))
        invariant leftOut == old(leftOut) + SaysLeftOut(typeName, rows[..n], kept)
      {
        OneMoreRow(typeName, rows, n, kept);
        var field := FindReferenceToNoKeptRow(rows[n], kept);
        if field.None? {
          keptRows := keptRows + [rows[n]];
        } else {
          leftOut := leftOut + [LeftOut(typeName, rows[n], field.value)];
        }
      }
      assert rows[..|rows|] == rows;
      hasDropped := |keptRows| < |rows|;
      if keptRows != rows {
        ShorterWhenChanged(rows, RefersToKept(kept));
      }
      components := components[typeName := keptRows];
    }

    /** One pass: every type judged by the ids kept when the pass starts. */
    method DropOnce() returns (anyDropped: bool)
      requires Valid()
      modifies this
      ensures Valid()
      ensures components == Pass(old(components))
      ensures anyDropped <==> components != old(components)
      ensures leftOut == old(leftOut) + SaidOfTypes(old(components), order)
    {
      hide MidPass, SaidOfTypes, SaysLeftOut, Pass, IdsOf, Filter;
      ghost var before, said := components, leftOut;
      var kept := IdsOf(components);
      anyDropped := false;
      NoTypeYet(before);
      assert order[..0] == [] && leftOut == said + [];
      for n := 0 to |order|
        invariant Valid()
        invariant components == MidPass(before, order[..n])
        invariant anyDropped <==> components != before
        invariant leftOut == said + SaidOfTypes(before, order[..n])
      {
        OneMoreType(before, order, n);
        var hasDropped := DropRowsOfType(order[n], kept);
        anyDropped := anyDropped || hasDropped;
      }
      assert order[..|order|] == order;
      EveryType(before, order);
    }

    /** Passes until a pass changes nothing; `passes` counts them, that one included. */
    method DropRowsThatReferToNoKeptRow() returns (ghost passes: nat)
      requires Valid()
      modifies this
      ensures Valid()
      ensures components == DropAll(old(components))
      ensures leftOut == old(leftOut) + SaidOfAll(old(components), order)
      ensures passes == Passes(old(components))
    {
      hide DropAll, Passes, SaidOfAll, SaidOfTypes, Pass, Positions;
      ghost var before, said := components, leftOut;
      passes := 0;
      var anyDropped := true;
      while anyDropped
        invariant Valid()
        invariant DropAll(components) == DropAll(before)
        invariant !anyDropped ==> Pass(components) == components && passes == Passes(before)
        invariant anyDropped ==> Passes(before) == passes + Passes(components)
        invariant said + SaidOfAll(before, order) == leftOut + if anyDropped then SaidOfAll(components, order) else []
        decreases Positions(components), anyDropped
      {
        ghost var current, sofar, more := components, leftOut, SaidOfTypes(components, order);
        OneMorePass(current, order);
        anyDropped := DropOnce();
        ghost var rest := if anyDropped then SaidOfAll(components, order) else [];
        assert SaidOfAll(current, order) == more + rest;
        assert sofar + (more + rest) == leftOut + rest;
        passes := passes + 1;
      }
      OneMorePass(components, order);
    }
  }

  // ---- The associations, whose owner must be a kept row ----

  datatype Association = Association(id: int, ownerType: string, ownerId: int)

  function Owners(components: Components): set<(string, int)> {
    set typeName, row | typeName in components && row in components[typeName] :: (typeName, row.id)
  }

  function HasOwner(components: Components): Association -> bool {
    (association: Association) => (association.ownerType, association.ownerId) in Owners(components)
  }

  method DropAssociationsOfNoKeptOwner(associations: seq<Association>, components: Components)
    returns (kept: seq<Association>, dropped: seq<Association>)
    ensures kept == Filter(associations, HasOwner(components))
    ensures forall association :: association in associations ==> association in kept || association in dropped
    ensures forall association :: association in kept ==>
              exists row :: row in RowsOf(components, association.ownerType) && row.id == association.ownerId
    ensures forall association, row :: association in dropped && row in RowsOf(components, association.ownerType) ==>
              row.id != association.ownerId
  {
    var owners := Owners(components);
    kept, dropped := [], [];
    for n := 0 to |associations|
      invariant kept == Filter(associations[..n], HasOwner(components))
      invariant forall association :: association in associations[..n] ==> association in kept || association in dropped
      invariant forall association :: association in dropped ==> (association.ownerType, association.ownerId) !in owners
    {
      assert associations[..n + 1] == associations[..n] + [associations[n]];
      if (associations[n].ownerType, associations[n].ownerId) in owners {
        kept := kept + [associations[n]];
      } else {
        dropped := dropped + [associations[n]];
      }
    }
    assert associations[..|associations|] == associations;
    forall association | association in kept
      ensures exists row :: row in RowsOf(components, association.ownerType) && row.id == association.ownerId
    {
      assert HasOwner(components)(association);
    }
    forall association, row | association in dropped && row in RowsOf(components, association.ownerType)
      ensures row.id != association.ownerId
    {
      assert (association.ownerType, row.id) in owners;
    }
  }
}
