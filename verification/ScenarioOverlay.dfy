/** Which `t_data` row wins each property, band and date under the model's Scenario overlays
    (interop/plugins/sources/stage_plexos_xml.py). */
module ScenarioOverlay {
  import opened Common
  import opened PlexosDates

  // An unmodelled column stands in `value`; `dates` is what `date_bands` states for the row.
  datatype DataRow = DataRow(
    dataId: string,
    membershipId: string,
    propertyId: string,
    band: Option<string>,
    dates: DateBand,
    value: string)

  datatype WinnerKey = WinnerKey(membershipId: string, propertyId: string, band: Option<string>, dateFrom: Option<Moment>)

  // An override outranks every base value before Read Orders are compared.
  datatype Priority = Priority(rank: nat, readOrder: real)

  const BASE_RANK := 0
  const OVERRIDE_RANK := 1
  const UNRANKED_READ_ORDER := 0.0

  // One `t_tag` row: the data it tags, and the object it tags it to.
  datatype Tag = Tag(dataId: string, objectId: string)

  /** A row that may win `key`, and its strength against its rivals. */
  datatype Candidate = Candidate(key: WinnerKey, priority: Priority, data: DataRow)

  function KeyOf(candidate: Candidate): WinnerKey { candidate.key }

  /** Python compares the two as tuples: rank first, then Read Order. */
  predicate AtLeast(a: Priority, b: Priority) {
    a.rank > b.rank || (a.rank == b.rank && a.readOrder >= b.readOrder)
  }

  function IsTagOf(dataId: string): Tag -> bool {
    (tag: Tag) => tag.dataId == dataId
  }

  function IsScenarioTag(scenarioIds: set<string>): Tag -> bool {
    (tag: Tag) => tag.objectId in scenarioIds
  }

  function IsActiveTag(active: set<string>): Tag -> bool {
    (tag: Tag) => tag.objectId in active
  }

  datatype Overlay = Overlay(
    tags: seq<Tag>,
    scenarioIds: set<string>,
    active: set<string>,
    readOrders: map<string, real>)
  {
    /** The Scenario tags of one row; a tag to any other object is no Scenario tag. */
    function TagsOf(dataId: string): seq<Tag> {
      Filter(Filter(tags, IsScenarioTag(scenarioIds)), IsTagOf(dataId))
    }

    function ReadOrderOf(scenario: string): real {
      if scenario in readOrders then readOrders[scenario] else UNRANKED_READ_ORDER
    }

    function HighestReadOrder(activeTags: seq<Tag>): (r: real)
      requires |activeTags| > 0
      ensures forall tag :: tag in activeTags ==> ReadOrderOf(tag.objectId) <= r
      ensures exists tag :: tag in activeTags && ReadOrderOf(tag.objectId) == r
    {
      var first := ReadOrderOf(activeTags[0].objectId);
      assert activeTags == [activeTags[0]] + activeTags[1..];
      if |activeTags| == 1 then first
      else
        var rest := HighestReadOrder(activeTags[1..]);
        if first >= rest then first else rest
    }

    /** Base where untagged, the highest active Read Order where any tag is active, and no
        candidate at all where every Scenario tag is inactive. */
    function PriorityOf(dataId: string): Option<Priority> {
      var stated := TagsOf(dataId);
      var activeTags := Filter(stated, IsActiveTag(active));
      if |stated| == 0 then Some(Priority(BASE_RANK, UNRANKED_READ_ORDER))
      else if |activeTags| == 0 then None
      else Some(Priority(OVERRIDE_RANK, HighestReadOrder(activeTags)))
    }

    ghost predicate HasScenario(data: DataRow) {
      exists tag :: tag in tags && tag.dataId == data.dataId && tag.objectId in scenarioIds
    }

    ghost predicate HasActiveScenario(data: DataRow) {
      exists tag :: tag in tags && tag.dataId == data.dataId && tag.objectId in scenarioIds && tag.objectId in active
    }

    /** A row's candidacy and rank are read off its tags alone, whatever the Read Orders say. */
    lemma RankFollowsTheTags(data: DataRow)
      ensures PriorityOf(data.dataId).Some? <==> HasActiveScenario(data) || !HasScenario(data)
      ensures PriorityOf(data.dataId).Some? ==>
                PriorityOf(data.dataId).value.rank == if HasActiveScenario(data) then OVERRIDE_RANK else BASE_RANK
    {
      var isScenario, isOwn, isActive := IsScenarioTag(scenarioIds), IsTagOf(data.dataId), IsActiveTag(active);
      var stated := TagsOf(data.dataId);
      var activeTags := Filter(stated, isActive);
      if tag :| tag in tags && tag.dataId == data.dataId && tag.objectId in scenarioIds {
        assert isScenario(tag) && isOwn(tag) && tag in stated;
      }
      if tag :| tag in tags && tag.dataId == data.dataId && tag.objectId in scenarioIds && tag.objectId in active {
        assert isScenario(tag) && isOwn(tag) && isActive(tag) && tag in activeTags;
      }
      if |stated| > 0 {
        assert stated[0] in stated && isOwn(stated[0]) && isScenario(stated[0]);
      }
      if |activeTags| > 0 {
        var tag := activeTags[0];
        assert tag in activeTags && isActive(tag) && tag in stated && isOwn(tag) && isScenario(tag);
      }
    }

    function CandidateOf(data: DataRow, priority: Priority): Candidate {
      Candidate(WinnerKey(data.membershipId, data.propertyId, data.band, data.dates.dateFrom), priority, data)
    }

    /** Every row the model reads, in file order, with its key and priority. */
    function Candidates(rows: seq<DataRow>): seq<Candidate> {
      if |rows| == 0 then []
      else
        var front, data := Candidates(rows[..|rows| - 1]), rows[|rows| - 1];
        match PriorityOf(data.dataId)
        case None => front
        case Some(priority) => front + [CandidateOf(data, priority)]
    }

    method PropertyCandidates(rows: seq<DataRow>) returns (candidates: seq<Candidate>)
      ensures candidates == Candidates(rows)
    {
      candidates := [];
      for n := 0 to |rows|
        invariant candidates == Candidates(rows[..n])
      {
        assert rows[..n + 1][..n] == rows[..n];
        var priority := PriorityOf(rows[n].dataId);
        if priority.Some? {
          candidates := candidates + [CandidateOf(rows[n], priority.value)];
        }
      }
      assert rows[..|rows|] == rows;
    }

    /** A row is in the running exactly when it carries no Scenario tag or an active one. */
    lemma {:induction false} CandidatesAreTheRowsRead(rows: seq<DataRow>, candidate: Candidate)
      ensures candidate in Candidates(rows) <==>
              && candidate.data in rows
              && (HasActiveScenario(candidate.data) || !HasScenario(candidate.data))
              && Some(candidate.priority) == PriorityOf(candidate.data.dataId)
              && candidate.key.membershipId == candidate.data.membershipId
              && candidate.key.propertyId == candidate.data.propertyId
              && candidate.key.band == candidate.data.band
              && candidate.key.dateFrom == candidate.data.dates.dateFrom
    {
      hide PriorityOf, HasActiveScenario, HasScenario;
      if |rows| != 0 {
        var front, last := rows[..|rows| - 1], rows[|rows| - 1];
        assert rows == front + [last];
        CandidatesAreTheRowsRead(front, candidate);
        RankFollowsTheTags(last);
      }
    }

    /** Candidates keep the order of the file. */
    lemma {:induction false} CandidatesKeepFileOrder(earlier: seq<DataRow>, later: seq<DataRow>)
      ensures Candidates(earlier + later) == Candidates(earlier) + Candidates(later)
    {
      hide PriorityOf;
      if |later| == 0 {
        assert earlier + later == earlier;
      } else {
        var rows := earlier + later;
        assert rows[..|rows| - 1] == earlier + later[..|later| - 1] && rows[|rows| - 1] == later[|later| - 1];
        CandidatesKeepFileOrder(earlier, later[..|later| - 1]);
      }
    }
  }

  // ---- The fold ----

  /** Candidate `i` wins its key: none outranks it, and none stated later ties with it. */
  ghost predicate Wins(candidates: seq<Candidate>, i: int) {
    && 0 <= i < |candidates|
    && forall j :: 0 <= j < |candidates| && candidates[j].key == candidates[i].key ==>
         && AtLeast(candidates[i].priority, candidates[j].priority)
         && (AtLeast(candidates[j].priority, candidates[i].priority) ==> j <= i)
  }

  ghost predicate IsWinner(candidates: seq<Candidate>, winner: Candidate) {
    exists i :: Wins(candidates, i) && candidates[i] == winner
  }

  lemma WinnerStays(candidates: seq<Candidate>, n: nat, winner: Candidate)
    requires n < |candidates| && IsWinner(candidates[..n], winner)
    requires candidates[n].key == winner.key ==> !AtLeast(candidates[n].priority, winner.priority)
    ensures IsWinner(candidates[..n + 1], winner)
  {
    var i :| Wins(candidates[..n], i) && candidates[..n][i] == winner;
    forall j | 0 <= j < n ensures candidates[..n + 1][j] == candidates[..n][j] {}
    assert Wins(candidates[..n + 1], i);
  }

  lemma NewestTakesOver(candidates: seq<Candidate>, n: nat, winner: Candidate)
    requires n < |candidates| && IsWinner(candidates[..n], winner)
    requires candidates[n].key == winner.key && AtLeast(candidates[n].priority, winner.priority)
    ensures IsWinner(candidates[..n + 1], candidates[n])
  {
    var i :| Wins(candidates[..n], i) && candidates[..n][i] == winner;
    forall j | 0 <= j < n ensures candidates[..n + 1][j] == candidates[..n][j] {}
    assert Wins(candidates[..n + 1], n);
  }

  lemma FirstOfItsKeyWins(candidates: seq<Candidate>, n: nat)
    requires n < |candidates|
    requires candidates[n].key !in DistinctKeys(candidates[..n], KeyOf)
    ensures IsWinner(candidates[..n + 1], candidates[n])
  {
    forall j | 0 <= j < n ensures candidates[j].key != candidates[n].key {
      assert candidates[..n][j] in candidates[..n] && KeyOf(candidates[..n][j]) == candidates[j].key;
    }
    assert Wins(candidates[..n + 1], n);
  }

  /** One winner per key that has a candidate, in order of the key's first candidate. */
  method WinningDataRows(candidates: seq<Candidate>) returns (order: seq<WinnerKey>, winners: map<WinnerKey, Candidate>)
    ensures order == DistinctKeys(candidates, KeyOf)
    ensures forall key :: key in winners <==> key in order
    ensures forall key :: key in winners ==> winners[key].key == key && IsWinner(candidates, winners[key])
  {
    order, winners := [], map[];
    for n := 0 to |candidates|
      invariant order == DistinctKeys(candidates[..n], KeyOf)
      invariant forall key :: key in winners <==> key in order
      invariant forall key :: key in winners ==> winners[key].key == key && IsWinner(candidates[..n], winners[key])
    {
      var newest := candidates[n];
      assert candidates[..n + 1][..n] == candidates[..n];
      forall key | key in winners && !(key == newest.key && AtLeast(newest.priority, winners[key].priority))
        ensures IsWinner(candidates[..n + 1], winners[key])
      {
        WinnerStays(candidates, n, winners[key]);
      }
      if newest.key !in winners {
        FirstOfItsKeyWins(candidates, n);
        order, winners := order + [newest.key], winners[newest.key := newest];
      } else if AtLeast(newest.priority, winners[newest.key].priority) {
        NewestTakesOver(candidates, n, winners[newest.key]);
        winners := winners[newest.key := newest];
      }
    }
    assert candidates[..|candidates|] == candidates;
  }

  lemma WinnerIsUnique(candidates: seq<Candidate>, a: Candidate, b: Candidate)
    requires IsWinner(candidates, a) && IsWinner(candidates, b) && a.key == b.key
    ensures a == b
  {
  }

  /** Where any candidate of a key is an active override, so is its winner, however low the Read
      Orders; and every winner with a Scenario tag has an active one. */
  lemma ActiveOverrideBeatsEveryBase(overlay: Overlay, rows: seq<DataRow>, winner: Candidate, rival: Candidate)
    requires IsWinner(overlay.Candidates(rows), winner)
    requires rival in overlay.Candidates(rows) && rival.key == winner.key
    ensures overlay.HasActiveScenario(rival.data) ==> overlay.HasActiveScenario(winner.data)
    ensures overlay.HasScenario(winner.data) ==> overlay.HasActiveScenario(winner.data)
  {
    hide Overlay.PriorityOf, Overlay.HasActiveScenario, Overlay.HasScenario;
    overlay.CandidatesAreTheRowsRead(rows, winner);
    overlay.CandidatesAreTheRowsRead(rows, rival);
    overlay.RankFollowsTheTags(winner.data);
    overlay.RankFollowsTheTags(rival.data);
  }

  ghost predicate IsActiveTagOf(overlay: Overlay, tag: Tag, data: DataRow) {
    tag in overlay.tags && tag.dataId == data.dataId && tag.objectId in overlay.scenarioIds && tag.objectId in overlay.active
  }

  /** An active tag of the data, with the Read Order of its Scenario, or zero where none is stated. */
  ghost predicate Ranks(overlay: Overlay, data: DataRow, readOrder: real) {
    exists tag :: IsActiveTagOf(overlay, tag, data)
      && readOrder == if tag.objectId in overlay.readOrders then overlay.readOrders[tag.objectId] else 0.0
  }

  ghost predicate IsHighestRank(overlay: Overlay, data: DataRow, highest: real) {
    Ranks(overlay, data, highest) && forall other :: Ranks(overlay, data, other) ==> other <= highest
  }

  lemma PriorityHoldsTheHighestRank(overlay: Overlay, data: DataRow)
    requires overlay.HasActiveScenario(data)
    ensures overlay.PriorityOf(data.dataId).Some? && overlay.PriorityOf(data.dataId).value.rank == 1
    ensures IsHighestRank(overlay, data, overlay.PriorityOf(data.dataId).value.readOrder)
  {
    overlay.RankFollowsTheTags(data);
    var stated := overlay.TagsOf(data.dataId);
    var activeTags := Filter(stated, IsActiveTag(overlay.active));
    forall tag ensures tag in activeTags <==> IsActiveTagOf(overlay, tag, data) {
      assert tag in activeTags <==>
        && tag in overlay.tags && IsScenarioTag(overlay.scenarioIds)(tag)
        && IsTagOf(data.dataId)(tag) && IsActiveTag(overlay.active)(tag);
    }
    var highest := overlay.HighestReadOrder(activeTags);
    assert Ranks(overlay, data, highest);
  }

  /** Of the active overrides of a key, one whose Scenarios reach the greatest Read Order wins, the
      last stated where several do; and between base rows the last stated. */
  lemma WinnerReachesTheHighestReadOrder(overlay: Overlay, rows: seq<DataRow>, i: int, j: int)
    requires var candidates := overlay.Candidates(rows);
             Wins(candidates, i) && 0 <= j < |candidates| && candidates[j].key == candidates[i].key
    ensures var winner, rival := overlay.Candidates(rows)[i].data, overlay.Candidates(rows)[j].data;
            && (overlay.HasActiveScenario(rival) ==>
                  exists highest :: IsHighestRank(overlay, winner, highest)
                    && forall other :: Ranks(overlay, rival, other) ==> other < highest || (other == highest && j <= i))
            && (!overlay.HasActiveScenario(winner) ==> !overlay.HasActiveScenario(rival) && j <= i)
  {
    hide Overlay.PriorityOf, Overlay.HasActiveScenario, Overlay.HasScenario, Overlay.Candidates, Ranks;
    var candidates := overlay.Candidates(rows);
    var winner, rival := candidates[i], candidates[j];
    assert winner in candidates && rival in candidates;
    overlay.CandidatesAreTheRowsRead(rows, winner);
    overlay.CandidatesAreTheRowsRead(rows, rival);
    overlay.RankFollowsTheTags(winner.data);
    overlay.RankFollowsTheTags(rival.data);
    if overlay.HasActiveScenario(winner.data) {
      PriorityHoldsTheHighestRank(overlay, winner.data);
    } else {
      BaseRowsTie(overlay, winner.data);
    }
    if overlay.HasActiveScenario(rival.data) {
      PriorityHoldsTheHighestRank(overlay, rival.data);
    } else {
      BaseRowsTie(overlay, rival.data);
    }
  }

  lemma BaseRowsTie(overlay: Overlay, data: DataRow)
    requires !overlay.HasActiveScenario(data) && !overlay.HasScenario(data)
    ensures overlay.PriorityOf(data.dataId) == Some(Priority(0, 0.0))
  {
    var ofScenarios := Filter(overlay.tags, IsScenarioTag(overlay.scenarioIds));
    forall tag | tag in ofScenarios ensures !IsTagOf(data.dataId)(tag) {
      assert tag in overlay.tags && IsScenarioTag(overlay.scenarioIds)(tag);
    }
    FilterNone(ofScenarios, IsTagOf(data.dataId));
  }
}
