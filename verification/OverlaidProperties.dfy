/** The winners of the Scenario overlay as dated properties: which of them a moment reads
    (interop/plugins/sources/stage_plexos_xml.py, then interop/plugins/sources/plexos_dated_properties.py). */
module OverlaidProperties {
  import opened Common
  import opened PlexosDates
  import opened ScenarioOverlay
  import opened DatedProperties

  // The property a row resolves to, or None where a reference of its own leads nowhere.
  type Resolution = DataRow -> Option<PropertyRow>

  function WinnersInOrder(order: seq<WinnerKey>, winners: map<WinnerKey, Candidate>): (r: seq<Candidate>)
    requires forall key :: key in order ==> key in winners
    ensures |r| == |order| && forall i :: 0 <= i < |r| ==> r[i] == winners[order[i]]
  {
    seq(|order|, i requires 0 <= i < |order| => winners[order[i]])
  }

  /** The dated rows the winners resolve to, in the winners' order. */
  function Resolved(won: seq<Candidate>, resolve: Resolution): seq<DatedRow> {
    if |won| == 0 then []
    else
      var last := won[|won| - 1].data;
      Resolved(won[..|won| - 1], resolve)
      + if resolve(last).None? then [] else [DatedRow(last.dates, resolve(last).value)]
  }

  function IsOfProperty(resolve: Resolution, key: PropertyKey): Candidate -> bool {
    (winner: Candidate) => resolve(winner.data).Some? && IdentifyProperty(resolve(winner.data).value) == key
  }

  function OfProperty(won: seq<Candidate>, resolve: Resolution, key: PropertyKey): seq<Candidate> {
    Filter(won, IsOfProperty(resolve, key))
  }

  ghost predicate AreRowsOf(rows: seq<DatedRow>, own: seq<Candidate>, resolve: Resolution) {
    && |rows| == |own|
    && forall i :: 0 <= i < |own| ==>
         resolve(own[i].data).Some? && rows[i] == DatedRow(own[i].data.dates, resolve(own[i].data).value)
  }

  lemma RowsOfOneMore(rows: seq<DatedRow>, row: DatedRow, key: PropertyKey)
    ensures RowsOf(rows + [row], key) == RowsOf(rows, key) + if IdentifyProperty(row.row) == key then [row] else []
  {
    hide Filter;
    FilterSnoc(rows + [row], HasKey(KeyOfDated, key));
    assert (rows + [row])[..|rows|] == rows;
  }

  lemma OfPropertyStep(won: seq<Candidate>, resolve: Resolution, key: PropertyKey)
    requires |won| > 0
    ensures var last := won[|won| - 1];
            OfProperty(won, resolve, key)
            == OfProperty(won[..|won| - 1], resolve, key)
               + if resolve(last.data).Some? && IdentifyProperty(resolve(last.data).value) == key then [last] else []
  {
    hide Filter;
    FilterSnoc(won, IsOfProperty(resolve, key));
  }

  lemma NoRows(resolve: Resolution)
    ensures AreRowsOf([], [], resolve)
  {
  }

  lemma NoRowsOfNone(resolve: Resolution, key: PropertyKey)
    ensures OfProperty([], resolve, key) == [] && RowsOf([], key) == []
  {
  }

  lemma OneMoreRowOf(rows: seq<DatedRow>, own: seq<Candidate>, resolve: Resolution, winner: Candidate)
    requires AreRowsOf(rows, own, resolve) && resolve(winner.data).Some?
    ensures AreRowsOf(rows + [DatedRow(winner.data.dates, resolve(winner.data).value)], own + [winner], resolve)
  {
  }

  lemma {:induction false} RowsOfAProperty(won: seq<Candidate>, resolve: Resolution, key: PropertyKey)
    ensures AreRowsOf(RowsOf(Resolved(won, resolve), key), OfProperty(won, resolve, key), resolve)
  {
    hide RowsOf, OfProperty, IdentifyProperty, AreRowsOf;
    if |won| == 0 {
      NoRowsOfNone(resolve, key);
      assert won == [];
      NoRows(resolve);
    } else {
      var front, last := won[..|won| - 1], won[|won| - 1];
      RowsOfAProperty(front, resolve, key);
      OfPropertyStep(won, resolve, key);
      var rows, own := RowsOf(Resolved(front, resolve), key), OfProperty(front, resolve, key);
      assert rows + [] == rows && own + [] == own;
      if resolve(last.data).Some? {
        RowsOfOneMore(Resolved(front, resolve), DatedRow(last.data.dates, resolve(last.data).value), key);
        OneMoreRowOf(rows, own, resolve, last);
      } else {
        assert Resolved(won, resolve) == Resolved(front, resolve);
      }
    }
  }

  /** Winner `j` takes the moment from winner `i`: it covers it too, and opens later, or together
      with it but stands after it. */
  predicate TakesOver(own: seq<Candidate>, j: int, i: int, moment: Moment)
    requires 0 <= i < |own| && 0 <= j < |own|
  {
    && own[j].data.dates.Covers(moment)
    && (own[i].data.dates.OpensAt() < own[j].data.dates.OpensAt()
        || (own[i].data.dates.OpensAt() == own[j].data.dates.OpensAt() && i < j))
  }

  /** The moment reads winner `k`. */
  ghost predicate IsRead(own: seq<Candidate>, k: int, moment: Moment) {
    && 0 <= k < |own|
    && own[k].data.dates.Covers(moment)
    && forall j :: 0 <= j < |own| ==> !TakesOver(own, j, k, moment)
  }

  lemma ReadIsLatest(own: seq<Candidate>, rows: seq<DatedRow>, resolve: Resolution, k: int, moment: Moment)
    requires AreRowsOf(rows, own, resolve)
    ensures IsRead(own, k, moment) <==> IsLatest(rows, OpeningMoment, CoversMoment(moment), k)
  {
    if 0 <= k < |own| {
      forall j | 0 <= j < |own|
        ensures CoversMoment(moment)(rows[j]) <==> own[j].data.dates.Covers(moment)
        ensures TakesOver(own, j, k, moment) <==>
                  CoversMoment(moment)(rows[j])
                  && !(OpeningMoment(rows[j]) < OpeningMoment(rows[k])
                       || (OpeningMoment(rows[j]) == OpeningMoment(rows[k]) && j <= k))
      {
        assert rows[j].dates == own[j].data.dates && rows[k].dates == own[k].data.dates;
      }
      if IsLatest(rows, OpeningMoment, CoversMoment(moment), k) {
        forall j | 0 <= j < |own| ensures !TakesOver(own, j, k, moment) {
          assert j < |rows|;
        }
      }
    }
  }

  /** Of the winners of a property that cover a moment, one is read, and its value is the property's
      value there; any other is read by no rank of its own, override or not. */
  lemma OneCoveringWinnerIsRead(won: seq<Candidate>, resolve: Resolution, key: PropertyKey, moment: Moment, i: nat)
    returns (k: nat)
    requires i < |OfProperty(won, resolve, key)| && OfProperty(won, resolve, key)[i].data.dates.Covers(moment)
    ensures var own := OfProperty(won, resolve, key);
            && IsRead(own, k, moment)
            && resolve(own[k].data).Some?
            && ReadValueAt(OpeningOrder(RowsOf(Resolved(won, resolve), key)), moment) == resolve(own[k].data).value.value
            && (IsRead(own, i, moment) <==> i == k)
  {
    hide OfProperty, RowsOf, Resolved, LatestOf;
    var own, rows := OfProperty(won, resolve, key), RowsOf(Resolved(won, resolve), key);
    var p := CoversMoment(moment);
    RowsOfAProperty(won, resolve, key);
    LastMatchOfSort(rows, OpeningMoment, p);
    assert rows[i] in rows && p(rows[i]);
    var latest := LatestPosition(rows, OpeningMoment, p);
    k := latest;
    ReadIsLatest(own, rows, resolve, k, moment);
    ReadIsLatest(own, rows, resolve, i, moment);
    if IsRead(own, i, moment) {
      LatestIsUnique(rows, OpeningMoment, p, i, k);
    }
  }

  /** An active override among the winners is the one a moment reads exactly when no covering
      winner of its property, base or override, opens later, or together with it and after it. */
  lemma ActiveOverrideIsReadExactlyWhen(overlay: Overlay, rows: seq<DataRow>, order: seq<WinnerKey>, winners: map<WinnerKey, Candidate>,
                                        resolve: Resolution, key: PropertyKey, moment: Moment, i: nat) returns (k: nat)
    requires order == DistinctKeys(overlay.Candidates(rows), KeyOf)
    requires forall winner :: winner in winners <==> winner in order
    requires var own := OfProperty(WinnersInOrder(order, winners), resolve, key);
             i < |own| && overlay.HasActiveScenario(own[i].data) && own[i].data.dates.Covers(moment)
    ensures var won := WinnersInOrder(order, winners);
            var own := OfProperty(won, resolve, key);
            && k < |own| && resolve(own[k].data).Some?
            && ReadValueAt(OpeningOrder(RowsOf(Resolved(won, resolve), key)), moment) == resolve(own[k].data).value.value
            && (i == k <==> forall j :: 0 <= j < |own| ==> !TakesOver(own, j, i, moment))
  {
    hide OfProperty, RowsOf, Resolved, Overlay.HasActiveScenario, Overlay.Candidates, DistinctKeys;
    k := OneCoveringWinnerIsRead(WinnersInOrder(order, winners), resolve, key, moment, i);
  }

  // ---- An override a base row takes over ----

  // Noon of the first day.
  const NOON := 43_200_000_000

  const OVERLAY := Overlay([Tag("override", "Stress")], {"Stress"}, {"Stress"}, map[])

  // An undated active override, and a base row that opens at noon.
  const OVERRIDE_ROW := DataRow("override", "m", "p", None, UNDATED, "20")
  const BASE_ROW := DataRow("base", "m", "p", None, DateBand(Some(NOON), None), "10")

  function Rating(data: DataRow): Option<PropertyRow> {
    Some(PropertyRow("System", "System", "Generators", "Generator", "G", "Rating", None, None,
                     Some(if data.value == "20" then 20.0 else 10.0), map[]))
  }

  const RATING := IdentifyProperty(Rating(BASE_ROW).value)

  lemma CandidatesOfTwo()
    ensures var candidates := OVERLAY.Candidates([OVERRIDE_ROW, BASE_ROW]);
            && |candidates| == 2 && candidates[0].data == OVERRIDE_ROW && candidates[1].data == BASE_ROW
            && candidates[0].key != candidates[1].key
    ensures OVERLAY.HasActiveScenario(OVERRIDE_ROW) && !OVERLAY.HasScenario(BASE_ROW)
  {
    hide Overlay.PriorityOf;
    assert Tag("override", "Stress") in OVERLAY.tags;
    OVERLAY.RankFollowsTheTags(OVERRIDE_ROW);
    OVERLAY.RankFollowsTheTags(BASE_ROW);
    CandidatesOf(OVERLAY, OVERRIDE_ROW, BASE_ROW);
  }

  lemma CandidatesOf(overlay: Overlay, a: DataRow, b: DataRow)
    requires overlay.PriorityOf(a.dataId).Some? && overlay.PriorityOf(b.dataId).Some?
    ensures overlay.Candidates([a, b]) == [overlay.CandidateOf(a, overlay.PriorityOf(a.dataId).value),
                                           overlay.CandidateOf(b, overlay.PriorityOf(b.dataId).value)]
  {
    hide Overlay.PriorityOf;
    assert [a, b][..1] == [a] && [a][..0] == [];
    assert overlay.Candidates([a][..0]) == [];
    assert overlay.Candidates([a]) == [overlay.CandidateOf(a, overlay.PriorityOf(a.dataId).value)];
  }

  /** Both win their own key; from noon on the base row's 10 is read, not the override's 20. */
  lemma AnUndatedOverrideLosesToALaterBase(order: seq<WinnerKey>, winners: map<WinnerKey, Candidate>)
    requires var candidates := OVERLAY.Candidates([OVERRIDE_ROW, BASE_ROW]);
             && order == DistinctKeys(candidates, KeyOf)
             && (forall key :: key in winners <==> key in order)
             && forall key :: key in winners ==> winners[key].key == key && IsWinner(candidates, winners[key])
    ensures OVERLAY.HasActiveScenario(OVERRIDE_ROW) && !OVERLAY.HasScenario(BASE_ROW)
    ensures ReadValueAt(OpeningOrder(RowsOf(Resolved(WinnersInOrder(order, winners), Rating), RATING)), NOON) == Some(10.0)
  {
    hide Overlay.Candidates, Overlay.HasActiveScenario, Overlay.HasScenario, RowsOf, Resolved, OpeningOrder, ReadValueAt,
      DistinctKeys, IdentifyProperty, IsRead, Filter;
    var candidates := OVERLAY.Candidates([OVERRIDE_ROW, BASE_ROW]);
    CandidatesOfTwo();
    OrderOfTwo(candidates);
    var won := WinnersInOrder(order, winners);
    WinnersOfTwo(candidates, order, winners);
    forall winner | winner in won ensures IsOfProperty(Rating, RATING)(winner) {
      SameRating(winner.data);
    }
    FilterAll(won, IsOfProperty(Rating, RATING));
    var k := OneCoveringWinnerIsRead(won, Rating, RATING, NOON, 1);
    TheBaseIsRead(won);
  }

  lemma WinnersOfTwo(candidates: seq<Candidate>, order: seq<WinnerKey>, winners: map<WinnerKey, Candidate>)
    requires |candidates| == 2 && candidates[0].key != candidates[1].key && order == [candidates[0].key, candidates[1].key]
    requires forall key :: key in winners <==> key in order
    requires forall key :: key in winners ==> winners[key].key == key && IsWinner(candidates, winners[key])
    ensures WinnersInOrder(order, winners) == candidates
  {
    hide IsWinner;
    assert order[0] in order && order[1] in order;
    OnlyCandidateOfItsKey(candidates, 0, winners[order[0]]);
    OnlyCandidateOfItsKey(candidates, 1, winners[order[1]]);
  }

  lemma OnlyCandidateOfItsKey(candidates: seq<Candidate>, i: nat, winner: Candidate)
    requires i < |candidates| && IsWinner(candidates, winner) && winner.key == candidates[i].key
    requires forall j :: 0 <= j < |candidates| && j != i ==> candidates[j].key != candidates[i].key
    ensures winner == candidates[i]
  {
    var j :| Wins(candidates, j) && candidates[j] == winner;
  }

  lemma SameRating(data: DataRow)
    ensures Rating(data).Some? && IdentifyProperty(Rating(data).value) == RATING
  {
  }

  lemma TheBaseIsRead(won: seq<Candidate>)
    requires |won| == 2 && won[0].data == OVERRIDE_ROW && won[1].data == BASE_ROW
    ensures IsRead(won, 1, NOON)
  {
  }

  lemma {:induction false} OrderOfTwo(candidates: seq<Candidate>)
    requires |candidates| == 2 && candidates[0].key != candidates[1].key
    ensures DistinctKeys(candidates, KeyOf) == [candidates[0].key, candidates[1].key]
  {
    hide DistinctKeys;
    assert candidates[..2] == candidates && candidates[..1] == [candidates[0]] && candidates[..0] == [];
    NothingGrouped<Candidate, WinnerKey>(KeyOf);
    DistinctKeysStep(candidates, 0, KeyOf);
    DistinctKeysStep(candidates, 1, KeyOf);
  }
}
