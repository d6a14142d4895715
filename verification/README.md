# A verified model of the interop translator

The translator moves energy-system models between PLEXOS, Sienna and PyPSA. This project models the
parts of it that branch, loop or keep state, and proves what they promise, in Dafny 4.11.
`dafny verify dfyconfig.toml` checks all of it.

- **Dated PLEXOS values** (`PlexosDates`, `DatedProperties`, `PlexosHorizon`, `DatedSeries`,
  `ScenarioOverlay`, `OverlaidProperties`). A property dated to periods becomes steps at the edges of
  its date bands; the steps are narrowed to a window and joined as-of onto the run's snapshots. The
  meaning all of this must keep is one line long: at every snapshot, the value of the latest-opening
  band that covers it. Before that, Scenario overlays decide which row states each value.
- **Sienna documents** (`SiennaDocument`, `SiennaSystem`, `SiennaRoundTrip`). The writer turns names
  into ids; the reader leaves out, pass after pass, every row that refers to no kept row, and staging
  turns arcs back into pairs of buses.
- **Series** (`SeriesBatches`, `SiennaSeriesWriter`, `SiennaSeriesReader`, `SiennaSeriesRoundTrip`,
  `SeriesCache`). Long series are read in batches, written once each, staged back in blocks, and
  shared by an ensemble's networks through a cache.
- **Lints** (`PluginFilesystemLint`, `PluginInheritanceLint`). A taint analysis that grows a set while
  it walks, and a worklist over a base graph that may be cyclic.
- **Rolling solve** (`Calendar`, `SolveWindows`, `RollingSolve`). A date range cut into windows, each
  solved past its own end, and a loop that keeps and costs every snapshot once.
- **Composed pipelines** (`Addressing`, `HandoffRouting`, `Planning`, `PlanRules`, `MappingsRouting`,
  `MappingsRun`). Legs are routed, overridden and resolved into a plan; the prompt beforehand and the
  run itself must agree on when a user mappings file is needed.

`Common` holds the data shapes and sequence facts these share. Code that updates things in place is a
method or a class here, proved against a specification function or stated outright; the results
are lemmas about those specifications.

Where the code and its documentation part, the model follows the code:

- `interop/plugins/sources/plexos_dated_properties.py:70-71` speaks of a property that takes more than
  one value; the code steps a property as soon as a band edge lies inside the window
  (`DatedProperties.SteppedForItsValuesExactlyWhen` says when the two agree,
  `DatedSeries.AnEdgeThatChangesNothingStillSteps` is an example where they do not).
- `interop/plugins/sources/plexos_dated_properties.py:192` calls the staged frame the steps of one
  property; it carries neither parent nor band, so properties that differ only in those share a column
  (`DatedSeries.SharedColumnHoldsEveryPropertyExactlyWhenTheyAgree` says when that does no harm,
  `DatedSeries.TwoBandsOfOnePropertyCollide` is an example where it does).
- `interop/plugins/sources/plexos_horizon.py:258` fills a component's earliest value backward; the code
  takes the first value matched on the grid
  (`PlexosHorizon.LeadingSnapshotsTakeTheEarliestValueExactlyWhen` says when that is the same,
  `PlexosHorizon.TheEarliestValueIsPassedOver` is an example where it is not). A component with no row up
  to the last snapshot disappears (`PlexosHorizon.NarrowingIsLosslessExactlyWhen`,
  `PlexosHorizon.AKeyIsLostByNarrowing`).
- `interop/plugins/sources/stage_sienna_system_json.py:334` leaves an array not in natural units as
  stored; the code looks the capacity up by owner, so such a series is divided where its owner also has a
  natural-units one (`SiennaSeriesReader.OtherUnitsStayAsStoredExactlyWhen` gives the exact condition,
  `SiennaSeriesReader.PerUnitSeriesIsHalvedBesideANaturalOne` an example).
- `interop/lints/plugin_inheritance.py:3-4` describes plugins as classes with a non-empty `name`; the code
  checks a class that states an empty one too (`PluginInheritanceLint.EmptyNamesAreReportedToo`,
  `PluginInheritanceLint.AClassWithAnEmptyNameIsReported`).

Validators are no addressable nodes (`interop/core/composition/addressing.py:61-62`), so planning leaves a
reference in one as it stands: `Planning.PlanIsFreeOfReferencesExactlyWhen` and
`Planning.AnAcceptedPlanMayHoldAReference`.

## Model

| member | source | states |
|---|---|---|
| PlexosDates.CoversUnchangedBetweenEdges | interop/plugins/shared/plexos_dates.py:16-25 | A band covers two moments alike when neither its opening nor the moment a full day past its last day's start lies between them. |
| PlexosDates.EdgesAreWhereCoverageTurns | interop/plugins/shared/plexos_dates.py:37-40 | A band that can cover anything starts or stops covering at a moment exactly where it has an edge. |
| DatedProperties.ChangeMoments | interop/plugins/sources/plexos_dated_properties.py:142-146 | The moments are the window's opening and exactly the band edges strictly inside it, each once, in ascending order. |
| DatedProperties.StepsWithin | interop/plugins/sources/plexos_dated_properties.py:122-128 | One step at the window's opening and at each band edge strictly inside it, in ascending order, each the first-opening row with the value the bands give at that moment. |
| DatedProperties.ReadValueIsTheValueInForce | interop/plugins/sources/plexos_dated_properties.py:131-139 | Looking up the sorted bands gives the value of the latest-opening band covering the moment, the one stated last winning a tie, and 0 where none covers it. |
| DatedProperties.ReadValueByTheDates | interop/plugins/sources/plexos_dated_properties.py:131-139 | Of the rows begun and less than a full day past the start of the day they end on, the one begun last is read, the later stated of two begun together; with no such row the value is zero. Said of the dates alone. |
| DatedProperties.AOneDayRatingHoldsAllDay | interop/plugins/shared/plexos_dates.py:16-25 | A rating dated to one day is read at noon of that day and is zero at the next midnight. |
| DatedProperties.SamePropertyExactlyWhen | interop/plugins/sources/plexos_dated_properties.py:109-119 | Rows state one property if and only if they agree on its two ends, its collection, its name and its band. |
| DatedProperties.ValueInForceIsUnique | interop/plugins/sources/plexos_dated_properties.py:131-139 | That description leaves one value per moment. |
| DatedProperties.StepsRefineLookup | interop/plugins/sources/plexos_dated_properties.py:122-146 | At every moment of the window the last step at or before it carries the value in force at that moment, although values are computed only at band edges. |
| DatedProperties.StepsShareTheFirstOpeningRow | interop/plugins/sources/plexos_dated_properties.py:122-128 | Every column of a step but the value is that of the property's earliest-opening row, the first stated where two open together. |
| DatedProperties.StepsExactlyWhenAnEdgeIsInside | interop/plugins/sources/plexos_dated_properties.py:78-82 | A property gets stepped rows if and only if a band edge lies strictly inside the window, whether or not the value changes there. |
| DatedProperties.TakesTwoValuesExactlyWhenStepsDiffer | interop/plugins/sources/plexos_dated_properties.py:122-146 | A property reads differently at two moments of the window if and only if two of its steps differ. |
| DatedProperties.SteppedForItsValuesExactlyWhen | interop/plugins/sources/plexos_dated_properties.py:70-82 | A property is stepped just when it takes two values, as documented, if and only if no edge lies inside the window or its steps do not all agree. |
| DatedSeries.AnEdgeThatChangesNothingStillSteps | interop/plugins/sources/plexos_dated_properties.py:70-82 | A rating of 10, stated again from noon on: two steps, one value. |
| DatedProperties.InForceRowHoldsItsValue | interop/plugins/sources/plexos_dated_properties.py:78-80 | The first step's row states the window's opening value, and every moment's value where it is the only step. |
| DatedProperties.ApplyWindow | interop/plugins/sources/plexos_dated_properties.py:67-83 | The loop over properties yields, in order of first appearance, each property's row in force, and every step of each property that has more than one. |
| DatedProperties.SteppedSeriesParts | interop/plugins/sources/plexos_dated_properties.py:175-206 | A series per owner class and property, made of exactly the steps with no Data File whose series is not already staged, in order. |
| DatedSeries.ColumnRowIsAStep | interop/plugins/sources/plexos_dated_properties.py:183-206 | Every row of a staged column is a step of a property of that owner class, name and object which no Data File states. |
| DatedSeries.StepIsAColumnRow | interop/plugins/sources/plexos_dated_properties.py:183-206 | Every step of such a property is a row of the column, unless the series is already staged. |
| DatedSeries.LatestRowStatesAValue | interop/plugins/sources/plexos_dated_properties.py:175-206 | At every moment of the window the latest row of a column states the value in force of a property that steps into it. |
| DatedSeries.ReindexedColumnIsFilledFromValuesInForce | interop/plugins/sources/plexos_horizon.py:251-329 | Narrowed and joined as-of, the column is the two fills of a column holding at each snapshot the value in force, null or not, of such a property. |
| DatedSeries.ReindexedSeriesHoldsTheValueInForce | interop/plugins/sources/plexos_horizon.py:251-329 | End to end, for a property with its column to itself: the series is the two fills of the values in force, so at every snapshot where the latest-opening band covering it states a value, or none covers it, it holds that value, or 0. |
| DatedSeries.SharedColumnHoldsEveryPropertyExactlyWhenTheyAgree | interop/plugins/sources/plexos_dated_properties.py:183-206 | Where properties share a column, it holds the value in force of every one of them at a snapshot if and only if they agree on it. |
| DatedSeries.TwoBandsOfOnePropertyCollide | interop/plugins/sources/plexos_dated_properties.py:191-206 | Two bands of one property that open at noon with 10 and 20, on a Horizon of a midnight and a noon: at noon their column fails to hold the value of one of them. |
| PlexosHorizon.SnapshotIndexIsTheHorizonInTheWindow | interop/plugins/sources/plexos_horizon.py:110-121 | The index is ascending and holds exactly the Horizon's snapshots inside the half-open window. |
| PlexosHorizon.HorizonIndex | interop/plugins/sources/plexos_horizon.py:243-248 | Exactly the moments a whole number of intervals after the start and before the Horizon's end, strictly ascending. |
| PlexosHorizon.FilledMeaning | interop/plugins/sources/plexos_horizon.py:274 | After both fills a grid point is null only where its whole column is, and otherwise holds the last value matched at or before it, or the first matched one where there is none. |
| PlexosHorizon.ReconciledColumnIsWhatTheSeriesSays | interop/plugins/sources/plexos_horizon.py:251-282 | The reindexed column is the two fills of what the whole series says at each snapshot: the value of the key's latest row at or before it. |
| PlexosHorizon.LeadingSnapshotsTakeTheEarliestValueExactlyWhen | interop/plugins/sources/plexos_horizon.py:258-274 | Every snapshot before a key's first value takes the first value matched on the grid; it takes the earliest value, as documented, if and only if that is the value first matched, or no snapshot comes that early. |
| PlexosHorizon.FirstMatchIsTheLatestRowReached | interop/plugins/sources/plexos_horizon.py:266-274 | Where every row states a value, the first value matched is that of the latest row at or before the first snapshot the key's rows reach. |
| PlexosHorizon.TheEarliestValueIsPassedOver | interop/plugins/sources/plexos_horizon.py:258-274 | Values 5 at one o'clock and 7 at two, on a grid of two midnights: the first midnight reads 7. |
| PlexosHorizon.NarrowingKeepsColumn | interop/plugins/sources/plexos_horizon.py:285-301 | Narrowing changes no as-of match of any key at any grid point. |
| PlexosHorizon.NarrowedKeys | interop/plugins/sources/plexos_horizon.py:285-301 | A key survives narrowing if and only if one of its rows stands at or before the last snapshot. |
| PlexosHorizon.NarrowingPreservesMeaning | interop/plugins/sources/plexos_horizon.py:251-301 | Each key with a row at or before the last snapshot gets, fills included, the column the unnarrowed series gives it; no other key gets one. |
| PlexosHorizon.NarrowingIsLosslessExactlyWhen | interop/plugins/sources/plexos_horizon.py:263-265 | Narrowing gives the frame the whole series would give if and only if every key has a row at or before the last snapshot. |
| PlexosHorizon.AKeyIsLostByNarrowing | interop/plugins/sources/plexos_horizon.py:263-265 | A value stated on the third day, on a grid of the first two: the key has no column. |
| PlexosHorizon.PartitionReconciles | interop/plugins/sources/plexos_horizon.py:304-329 | A replication reconciled alone has exactly its own keys of the whole, with the same columns. |
| PlexosHorizon.ReindexOnto | interop/plugins/sources/plexos_horizon.py:304-329 | Reindexing one replication at a time and putting the parts together equals reindexing everything at once. |
| ScenarioOverlay.Overlay.RankFollowsTheTags | interop/plugins/sources/stage_plexos_xml.py:829-844 | A row is a candidate if and only if it has no Scenario tag or an active one, and ranks as an override exactly when it has an active one. |
| ScenarioOverlay.Overlay.HighestReadOrder | interop/plugins/sources/stage_plexos_xml.py:841-844 | The Read Order of an override is the greatest among its active Scenarios, one of them stating it. |
| ScenarioOverlay.Overlay.PropertyCandidates | interop/plugins/sources/stage_plexos_xml.py:571-586 | The candidates are gathered in file order. |
| ScenarioOverlay.Overlay.CandidatesAreTheRowsRead | interop/plugins/sources/stage_plexos_xml.py:571-586 | The candidates are exactly the rows with no Scenario tag or an active one, each with its own key and priority. |
| ScenarioOverlay.Overlay.CandidatesKeepFileOrder | interop/plugins/sources/stage_plexos_xml.py:571-586 | Candidates of an earlier part of the file come before those of a later part. |
| ScenarioOverlay.WinningDataRows | interop/plugins/sources/stage_plexos_xml.py:558-568 | One winner per (membership, property, band, start) that has a candidate: none of its rivals has a greater (rank, Read Order), and none stated later has an equal one. |
| ScenarioOverlay.WinnerIsUnique | interop/plugins/sources/stage_plexos_xml.py:558-568 | At most one candidate of a key meets that description. |
| ScenarioOverlay.ActiveOverrideBeatsEveryBase | interop/plugins/sources/stage_plexos_xml.py:829-844 | Where a key has an active override its winner is one, negative Read Orders included, and no winner is tagged only to inactive Scenarios. |
| ScenarioOverlay.WinnerReachesTheHighestReadOrder | interop/plugins/sources/stage_plexos_xml.py:829-844 | Among active overrides of a key the winner's Scenarios reach the greatest Read Order, an unstated one counting as zero, and the later row wins a tie; among base rows the last stated wins. |
| OverlaidProperties.RowsOfAProperty | interop/plugins/sources/stage_plexos_xml.py:529-568 | The dated rows of a property are those its winners resolve to, in the winners' order. |
| OverlaidProperties.OneCoveringWinnerIsRead | interop/plugins/sources/plexos_dated_properties.py:131-139 | Of the winners of a property that cover a moment exactly one is read, and its value is what the property reads as. |
| OverlaidProperties.ActiveOverrideIsReadExactlyWhen | interop/plugins/sources/stage_plexos_xml.py:558-586 | An active override among the winners is read at a moment it covers if and only if no covering winner of the property opens later, or together with it and after it. |
| OverlaidProperties.AnUndatedOverrideLosesToALaterBase | interop/plugins/sources/stage_plexos_xml.py:558-586 | An undated active override of 20 and a base row of 10 from noon on both win their keys; at noon the property reads 10. |
| SiennaDocument.FirstFieldThatNamesNoKeptRow | interop/plugins/shared/sienna_document.py:219-227 | Names the first of the bus, arc, from and to fields that states an id no kept row has, and none only where every stated id is a kept row's. |
| SiennaDocument.DropAllKeepsTheGreatestClosedChoice | interop/plugins/shared/sienna_document.py:177-216 | The repeated pass keeps the greatest choice of rows whose every integer reference names a chosen row; each type's rows stay in order and the order of the types plays no part. |
| SiennaDocument.DropAllByTheFields | interop/plugins/shared/sienna_document.py:177-227 | Said of the fields: a row stays if and only if the bus, the arc and the two ends it states are ids of buses and arcs that stay, and every choice of rows that refer only to each other stays. |
| SiennaDocument.AtMostThreePasses | interop/plugins/shared/sienna_document.py:177-195 | Three passes suffice where buses refer to nothing and arcs only to buses. |
| SiennaDocument.DocumentReader.DropRowsOfType | interop/plugins/shared/sienna_document.py:198-216 | Keeps the type's rows that refer only to kept rows, in order, reports each of the others, and says whether any went. |
| SiennaDocument.DocumentReader.DropOnce | interop/plugins/shared/sienna_document.py:183-195 | One pass judges every type by the ids kept when the pass starts, and says whether anything went. |
| SiennaDocument.DocumentReader.DropRowsThatReferToNoKeptRow | interop/plugins/shared/sienna_document.py:177-195 | The loop ends, with the greatest closed choice of rows and with what every pass reported, after the counted number of passes. |
| SiennaDocument.EveryRowIsKeptOrReported | interop/plugins/shared/sienna_document.py:177-216 | Each row of a type is kept or reported, once, counting repeated rows. |
| SiennaDocument.EveryReportIsRight | interop/plugins/shared/sienna_document.py:198-227 | A report names a field that refers to no row kept in the end. |
| SiennaDocument.DropAssociationsOfNoKeptOwner | interop/plugins/shared/sienna_document.py:230-251 | An association stays if and only if its owner is a kept row of its type, and every other one is reported. |
| SiennaSystem.BuildAreaComponents | interop/plugins/sinks/emit_sienna_system_json.py:148-161 | A row per area, in order, and the id the last row of each name states. |
| SiennaSystem.BuildBusComponents | interop/plugins/sinks/emit_sienna_system_json.py:163-181 | A row per bus with its area's id; refused if and only if a bus states an area no row names. |
| SiennaSystem.BuildBusAttachedComponents | interop/plugins/sinks/emit_sienna_system_json.py:183-204 | A row per component with its bus's id; refused if and only if a row names an unknown bus. |
| SiennaSystem.BuildArcComponents | interop/plugins/sinks/emit_sienna_system_json.py:206-224 | A row per arc, and the id of the last arc joining each ordered pair of buses. |
| SiennaSystem.BuildBranchComponents | interop/plugins/sinks/emit_sienna_system_json.py:226-260 | A row per branch with the id of the arc that joins its two buses; refused if and only if a bus is unknown or no arc joins the two. |
| SiennaSystem.BuildPayload | interop/plugins/sinks/emit_sienna_system_json.py:51-146 | The document holds every row of every table, in order, with every name resolved; refused if and only if some name resolves to nothing. |
| SiennaSystem.AreaNameStandsForTheLastId | interop/plugins/sinks/emit_sienna_system_json.py:148-161 | An area's name stands for the id of the last row that bears it. |
| SiennaSystem.BusNameStandsForTheLastId | interop/plugins/sinks/emit_sienna_system_json.py:163-181 | A bus's name stands for the id of the last row that bears it. |
| SiennaSystem.EndsStandForTheLastArc | interop/plugins/sinks/emit_sienna_system_json.py:206-224 | An ordered pair of buses stands for the id of the last arc from the one to the other. |
| SiennaSystem.NothingElseStandsForAnId | interop/plugins/sinks/emit_sienna_system_json.py:148-224 | No other name or pair of buses stands for an id. |
| SiennaRoundTrip.ReadBackRemovesOnlyDanglingArcs | interop/plugins/shared/sienna_document.py:177-227 | Reading a written document back removes exactly the arcs whose ends are not both buses; every bus-attached and branch row survives unchanged. |
| SiennaRoundTrip.StagedEndsAreTheLastArcs | interop/plugins/sources/stage_sienna_system_json.py:154-183 | Staging looks an arc id up to the ends of the last arc of that id that joins two buses. |
| SiennaRoundTrip.StagedBranchJoinsItsBusesExactlyWhen | interop/plugins/sources/stage_sienna_system_json.py:174-183 | Every branch finds its arc, and joins the two buses it named if and only if no later bus-joining arc of the same id has other ends. |
| SiennaRoundTrip.StagedBranchJoinsItsBuses | interop/plugins/sources/stage_sienna_system_json.py:174-183 | With unique arc ids every branch is staged with the ids of the two buses it named. |
| SiennaRoundTrip.BusIdLeadsBackToItsName | interop/plugins/sinks/emit_sienna_system_json.py:226-260 | With unique bus ids a branch's staged bus id is the id of the bus of the very name it stated. |
| SeriesBatches.Components | interop/plugins/shared/series_batches.py:28-34 | The components of a series, each once, in the order of their names. |
| SeriesBatches.SampleIsItsOwnAndSharedRows | interop/plugins/shared/staged_samples.py:62-69 | A sample reads its own rows and those with no sample, and no other's; asked of no sample a frame is read whole. |
| SeriesBatches.BatchesPartitionComponents | interop/plugins/shared/series_batches.py:25-40 | The batches laid end to end are the components, so each is in one batch; a batch of several reads no more than 1,000,000 rows where the rows are spread evenly. |
| SeriesBatches.BatchesAreFull | interop/plugins/shared/series_batches.py:25-40 | No batch but the last could take one more component, of the mean size or of one row where the mean is less, without passing a million rows. |
| SeriesBatches.FilterOfSort | interop/plugins/shared/series_batches.py:45-56 | Sorting a batch whole and then splitting it by component gives each component the rows sorting it alone would give. |
| SeriesBatches.BatchReadsDirectly | interop/plugins/shared/series_batches.py:43-56 | A batch gives exactly its components that have rows, each with its own values in snapshot order. |
| SeriesBatches.CollectSeriesByComponent | interop/plugins/sinks/emit_pypsa_network.py:436-447 | The series collected batch by batch is every component's own values, as reading it in one piece gives them, of the one sample and of the rows with no sample. |
| SiennaSeriesWriter.AddSeries | interop/plugins/sinks/emit_sienna_h5_sidecar.py:149-177 | Each row adds one stored series: its component's values, or none, times the owner's capacity over the row's scaling factor. |
| SiennaSeriesWriter.EachRowIsStoredAsItSays | interop/plugins/sinks/emit_sienna_h5_sidecar.py:149-177 | A series is stored under the row's own owner, name, start and resolution; each stored value times the scaling factor is the source's times the owner's capacity. |
| SiennaSeriesWriter.PopBatch | interop/plugins/sinks/emit_sienna_h5_sidecar.py:99 | Takes out of the rows still to be written exactly those of the batch's components, and leaves the others. |
| SiennaSeriesWriter.WriteOrderKeepsEveryRow | interop/plugins/sinks/emit_sienna_h5_sidecar.py:96-102 | The order the rows of one staged series are written in holds each of them once, whatever components the series has. |
| SiennaSeriesWriter.WriteSourceKey | interop/plugins/sinks/emit_sienna_h5_sidecar.py:86-102 | Each row is stored once, from its own component's whole values whatever the batches; refused if and only if the series holds several replications and none is named. |
| SiennaSeriesWriter.RefusedExactlyWhenSeveralAreNamed | interop/plugins/sinks/emit_sienna_h5_sidecar.py:191-203 | A series is refused if and only if no sample is asked for and no one sample accounts for every row that names any. |
| SiennaSeriesWriter.FullOrderKeepsEveryRow | interop/plugins/sinks/emit_sienna_h5_sidecar.py:112-133 | Over all staged series, each association with a start time is written once. |
| SiennaSeriesWriter.WriteSeries | interop/plugins/sinks/emit_sienna_h5_sidecar.py:70-79 | Stores every association with a start time from its own staged series; succeeds if and only if every one has a staged series, and a replication is named wherever one of those holds several. |
| SiennaSeriesReader.Keep | interop/plugins/sources/stage_sienna_system_json.py:282-330 | The rows that can be staged are kept in order, and no other. |
| SiennaSeriesReader.StagedExactlyWhen | interop/plugins/sources/stage_sienna_system_json.py:282-330 | An association is staged if and only if its owner is named and, in natural units, its owner's type has a capacity. |
| SiennaSeriesReader.OtherUnitsStayAsStoredExactlyWhen | interop/plugins/sources/stage_sienna_system_json.py:333-355 | A series not in natural units comes out as stored if and only if no natural-units series of the same owner with a capacity is staged with it, or dividing by that capacity changes nothing. |
| SiennaSeriesReader.PerUnitSeriesIsHalvedBesideANaturalOne | interop/plugins/sources/stage_sienna_system_json.py:333-355 | A concrete pair of series of one owner where the per-unit one is divided all the same. |
| SiennaSeriesReader.BlockIsReadAtItsOffset | interop/plugins/sources/stage_sienna_system_json.py:393-408 | A block read from its own start time is the slice of the series at its offset, stamped start plus one resolution a step. |
| SiennaSeriesReader.StreamSeriesToParquet | interop/plugins/sources/stage_sienna_system_json.py:374-411 | One file a block, keyed by series and offset, holding that slice of the whole converted series; no other file changes. |
| SiennaSeriesReader.StageTimeSeries | interop/plugins/sources/stage_sienna_system_json.py:231-275 | Every kept, non-empty association is staged so, in the directory of its owner type and name, by its owner's name and capacity. |
| SiennaSeriesReader.FilesOfOneSeries | interop/plugins/sources/stage_sienna_system_json.py:374-411 | With distinct series ids no series overwrites a file of another: a series' files are exactly its own blocks. |
| SiennaSeriesRoundTrip.ScannedRowsAreOfEverySharer | interop/plugins/sources/stage_sienna_system_json.py:231-275 | For any block size and any order the files are scanned in, a component's rows are exactly those of every series of its directory whose component bears its name. |
| SiennaSeriesRoundTrip.SeriesReadsBackWholeExactlyWhenAlone | interop/plugins/sources/stage_sienna_system_json.py:231-275 | Those rows, by snapshot, are one whole series if and only if no other non-empty series shares its directory and component name. |
| SiennaSeriesRoundTrip.StoredCanBeReadExactlyWhen | interop/plugins/sources/stage_sienna_system_json.py:374-411 | What the store exports of a written series can be read back if and only if its resolution is positive. |
| SiennaSeriesRoundTrip.SeriesRoundTrip | interop/plugins/sinks/emit_sienna_h5_sidecar.py:149-177 | Step k of a series written and staged back is among its component's rows, stamped start plus k resolutions, with the source value divided by the row's scaling factor if and only if the owner's capacity is not zero or that value is zero, and zero for a zero capacity; alone in its directory, the series has it as its k-th row. |
| SeriesCache.ColumnsByAttribute | interop/plugins/sinks/emit_pypsa_network.py:370-402 | Through the cache, each target some row names gets the pointwise product of value times scaling plus offset over its rows as read directly, and no other target a column; refused if and only if a series is not staged or two rows of a target differ in length; the cache stays true to the series and gains entries of this sample only. |
| SeriesCache.ColumnsAreUnique | interop/plugins/sinks/emit_pypsa_network.py:370-402 | That description leaves one set of columns, so cached and direct reads build the same. |
| SeriesCache.Compound | interop/plugins/sinks/emit_pypsa_network.py:430-433 | The pointwise product, refused if and only if the shapes differ. |
| SeriesCache.EvictSample | interop/plugins/sinks/emit_pypsa_network_ensemble.py:79-89 | Drops exactly the sample's entries and changes no other. |
| SeriesCache.WriteEnsemble | interop/plugins/sinks/emit_pypsa_network_ensemble.py:40-51 | Every network of an ensemble has the columns that direct reads give for its sample; refused if and only if one of them cannot be built. |
| PluginFilesystemLint.TaintedExactlyWhen | interop/lints/plugin_filesystem.py:138-160 | An expression is tainted if and only if a trail of its parts, none an f-string or a call on self or its port, leads to a params path, a tainted name, or in a step a Path or staging directory. |
| PluginFilesystemLint.SanitisersAreNeverTainted | interop/lints/plugin_filesystem.py:138-149 | An f-string, a call on self and a call on its port are tainted by no set of names. |
| PluginFilesystemLint.TaintComesFromOneName | interop/lints/plugin_filesystem.py:152-160 | An expression is tainted by a set of names if and only if it holds a seed or one of those names alone taints it. |
| PluginFilesystemLint.AstWalkListsEveryNode | interop/lints/plugin_filesystem.py:163-182 | The walk lists exactly the nodes under the function. |
| PluginFilesystemLint.AstWalkListsLevelByLevel | interop/lints/plugin_filesystem.py:163-182 | It lists each level of the tree whole before the next. |
| PluginFilesystemLint.BindsFromExactlyWhen | interop/lints/plugin_filesystem.py:167-181 | A name is bound from a tainted expression exactly in an assignment to it, an annotated one with a value, or a with-item that binds it. |
| PluginFilesystemLint.TaintedNames | interop/lints/plugin_filesystem.py:163-182 | The loop ends with a set closed under the assignments, holding a name if and only if a chain of assignments, with no sanitiser on the way, reaches it from a seed. |
| PluginFilesystemLint.TaintedNamesAreLeast | interop/lints/plugin_filesystem.py:163-182 | That set is within every set closed under the assignments, so no visiting order changes it. |
| PluginFilesystemLint.ViolationsAreTheReachedCalls | interop/lints/plugin_filesystem.py:185-207 | A call is flagged by the names found if and only if it is not sanctioned and is a banned open or is handed an expression a chain from a seed reaches. |
| PluginFilesystemLint.FunctionViolations | interop/lints/plugin_filesystem.py:185-207 | The calls reported, in walk order, are exactly those calls under the function. |
| PluginFilesystemLint.CategoriesDiffer | interop/lints/plugin_filesystem.py:109-135 | Steps and validators may neither open nor hold a Path or staging directory, their port included; sources and sinks may, and may hand anything to self or its port. |
| PluginInheritanceLint.ReadCategoryBases | interop/lints/plugin_inheritance.py:95-108 | A class declared more than once in a category has the bases of its last declaration. |
| PluginInheritanceLint.LastDeclarationCounts | interop/lints/plugin_inheritance.py:95-108 | A class that no later class of its file or of a later file shares its name with has the bases it states. |
| PluginInheritanceLint.ResolveBases | interop/lints/plugin_inheritance.py:111-121 | The worklist ends on every base graph, cyclic ones included, with exactly the names reachable in one or more steps. |
| PluginInheritanceLint.CheckFile | interop/lints/plugin_inheritance.py:124-153 | One finding, of the right kind and in file order, for each class that declares a name and does not reach what its category expects, or for an adapter the port it names, and for no other. |
| PluginInheritanceLint.EmptyNamesAreReportedToo | interop/lints/plugin_inheritance.py:3-9 | The check and the documented rule about non-empty names part over a class if and only if it states an empty name and does not conform. |
| PluginInheritanceLint.AClassWithAnEmptyNameIsReported | interop/lints/plugin_inheritance.py:124-153 | A source class with no base and an empty name, which the check reports and the documented rule does not. |
| Calendar.AddDaysAdds | interop/core/use_cases/solve_network.py:147-156 | Adding days to a date adds to its number. |
| Calendar.DatesOrderAsOrdinals | interop/core/use_cases/solve_network.py:130-144 | Dates compare as their numbers do. |
| Calendar.YearsFollow | interop/core/use_cases/solve_network.py:147-161 | A year lasts 366 days if it is a leap year and 365 otherwise. |
| Calendar.DaysAreNumberedFromTheFirst | interop/core/use_cases/solve_network.py:130-144 | Days count up one by one from the first of January of year 1, which is day 1, and no date lies before it. |
| SolveWindows.SolveWindowsOf | interop/core/use_cases/solve_network.py:130-144 | The loop ends, with the windows of the spans that cut the range. |
| SolveWindows.SpansTile | interop/core/use_cases/solve_network.py:130-161 | The spans tile the range: they follow each other day on day from the first to the last, each as long as its period allows. |
| SolveWindows.EverySecondHasOneWindow | interop/core/use_cases/solve_network.py:130-169 | Every whole second of the range lies in exactly one window's reported span. |
| SolveWindows.WindowsAreContiguous | interop/core/use_cases/solve_network.py:130-169 | Windows start at the range's first second, end at its last, follow without a gap, and are solved the look-ahead past what they report. |
| SolveWindows.LaterWindowsStartTheirPeriod | interop/core/use_cases/solve_network.py:147-161 | Every window after the first starts on the first day of its month or year. |
| SolveWindows.WindowsStayInTheirPeriod | interop/core/use_cases/solve_network.py:147-161 | A day window is one day, a week window seven days but for the last, and a month or year window lies in one month or year. |
| SolveWindows.WindowsInSeconds | interop/core/use_cases/solve_network.py:136-169 | A window is solved from its first midnight, reports to the second before the midnight after its last day, and is solved that many days further. |
| SolveWindows.CountsDays | interop/core/use_cases/solve_network.py:130-156 | Day windows number the days of the range. |
| SolveWindows.CountsWeeks | interop/core/use_cases/solve_network.py:130-156 | Week windows number the days over seven, rounded up. |
| RollingSolve.Solve | interop/adapters/outbound/highs_network_solver.py:48-97 | The loop over windows leaves the network, its objective and its reported snapshots as the run of one window after another does, and nothing changed where no window has a snapshot. |
| RollingSolve.ReportedHoldsItsOwnSolve | interop/adapters/outbound/highs_network_solver.py:60-97 | A reported snapshot holds in the end what its own window's solve gave it, whatever the later solves write. |
| RollingSolve.UnreportedIsZero | interop/adapters/outbound/highs_network_solver.py:184-207 | A snapshot solved but reported by no window is zero in the end. |
| RollingSolve.UnsolvedIsUntouched | interop/adapters/outbound/highs_network_solver.py:60-97 | A snapshot no window solves keeps what the network came with. |
| RollingSolve.ReportedByRun | interop/adapters/outbound/highs_network_solver.py:60-97 | The reported snapshots are exactly those inside some window's reported span. |
| RollingSolve.NoneIsReportedTwice | interop/adapters/outbound/highs_network_solver.py:60-97 | No snapshot is reported twice. |
| RollingSolve.ObjectiveIsTheCostKept | interop/adapters/outbound/highs_network_solver.py:162-171 | The objective is the cost, over the final stored values, of the snapshots the optimal windows reported. |
| RollingSolve.AllOptimalCostsEveryReportedSnapshot | interop/adapters/outbound/highs_network_solver.py:162-171 | Where every window is optimal the objective is the final cost of every reported snapshot, each once. |
| RollingSolve.LoneSnapshotAddsItsCost | interop/adapters/outbound/highs_network_solver.py:81-87 | A window reporting one snapshot adds that snapshot's cost over the values the network is left with if it was optimal, and nothing otherwise. |
| RollingSolve.RaisingOneCost | interop/adapters/outbound/highs_network_solver.py:162-171 | Raising one snapshot's cost raises the objective by as much if the snapshot is costed, by nothing otherwise, and changes nothing else of the run. |
| RollingSolve.FreeSnapshotsCostNothing | interop/adapters/outbound/highs_network_solver.py:162-171 | Where every snapshot is free the objective is zero. |
| RollingSolve.AllOptimalExactlyWhen | interop/adapters/outbound/highs_network_solver.py:210-214 | The run is called optimal if and only if every window that reported a snapshot was. |
| RollingSolve.ReportedAreListedInOrder | interop/adapters/outbound/highs_network_solver.py:174-181 | The network lists each reported snapshot once, earliest first. |
| RollingSolve.CutWindowsAreInOrder | interop/core/use_cases/solve_network.py:130-144 | Windows cut from a date range report disjoint spans in ascending order, as the results above need. |
| RollingSolve.RangeIsReportedExactly | interop/core/use_cases/solve_network.py:130-169 | Solving a date range reports exactly the network's snapshots inside it. |
| Addressing.ParsingAPrintedReference | interop/core/composition/addressing.py:31-51 | Parsing what a reference prints as gives it back if and only if its segments are non-empty and hold no separator. |
| Addressing.PrintingAParsedReference | interop/core/composition/addressing.py:31-51 | Printing a parsed reference gives back the very text, and its segments are proper. |
| Addressing.PrintingAParsedAddress | interop/core/composition/addressing.py:54-58 | Printing a parsed param address gives back the very key. |
| Addressing.ParsingAPrintedAddress | interop/core/composition/addressing.py:54-58 | Parsing a printed address returns it if and only if both segments are non-empty and hold no dot. |
| Addressing.ReadingAfterSetting | interop/core/composition/addressing.py:81-113 | A param that was set reads back, and every other address reads as before. |
| Addressing.ApplyLegParams | interop/core/composition/addressing.py:116-119 | The fold sets each param in turn, and stops at the first that cannot be. |
| Addressing.AppliedParamsReadBack | interop/core/composition/addressing.py:116-119 | Each param a leg sets reads back, and any other reads as the pipeline states it. |
| HandoffRouting.DirectoriesAreDistinct | interop/core/composition/planning.py:164-169 | Two legs share a directory name only where they share a kind and a position within it, whatever their pipelines are called. |
| HandoffRouting.RouteHandoffs | interop/core/composition/planning.py:133-157 | The pass routes every leg by the translation legs around it and by its count among its kind. |
| HandoffRouting.WrittenDirectoriesAreDistinct | interop/core/composition/planning.py:133-169 | All directories written are pairwise distinct, repeated pipeline names included. |
| HandoffRouting.EachLegReadsWhatThePreviousWrites | interop/core/composition/planning.py:133-157 | A translation leg after the first reads exactly the directory the one before it writes. |
| HandoffRouting.BoundaryLegs | interop/core/composition/planning.py:133-157 | A leg reads the run boundary if and only if it is a mapping leg or the first translation leg, and writes it if and only if it is the last translation leg. |
| Planning.OverridesReachTheBoundaryAlone | interop/core/composition/planning.py:172-200 | Overrides change only the first translation leg's source and steps and the last one's sinks; each overridden param holds the answer and every other stays. |
| Planning.OverriddenSpec | interop/core/cli_overrides.py:22-44 | Overriding renames nothing, changes only what is overridden, and every overridden position exists. |
| Planning.ResolveLegReferences | interop/core/composition/planning.py:272-276 | In whatever order a leg's references are visited, each is replaced by the value it names, or the leg is refused because one cannot be. |
| Planning.ResolveReferences | interop/core/composition/planning.py:254-258 | One pass against the unresolved legs resolves them all, or refuses the plan. |
| Planning.PlanTranslation | interop/core/composition/planning.py:85-130 | The plan is refused by the first rule that fails, and otherwise holds the routed, overridden and resolved legs, mapping legs apart. |
| Planning.PlannedParamsAreValues | interop/core/composition/planning.py:254-288 | In an accepted plan no source, step or sink param is a reference: each that was holds the referenced node's value after overrides, and every other of their params, every node name and framework, and every validator is unchanged. |
| PlanRules.PlannedParamIsTheOneStated | interop/core/composition/planning.py:254-298 | A planned param is no reference. One that was $p.n.q holds param q of the one node named n of the first leg running p, overrides applied; any other is as it was. |
| PlanRules.NoSuchPipelineRefuses | interop/core/composition/planning.py:291-298 | A reference to a pipeline no leg runs refuses the plan. |
| PlanRules.ReferenceReadsWhatIsStated | interop/core/composition/planning.py:213-235 | A reference reads a value if and only if the first leg running its pipeline has exactly one node of its name, stating that value under its param. |
| PlanRules.AcceptedExactlyWhen | interop/core/composition/planning.py:85-94 | A plan is accepted if and only if consecutive translation legs meet in one framework, every reference points at a param, each translation leg refers to the one before it, the overrides fit, and with them every reference names a value and stands in a node alone of its name; the override's own error comes exactly where only a position is wrong. |
| PlanRules.OverridesApplyExactlyWhen | interop/core/composition/planning.py:172-200 | Overrides apply if and only if every position exists and steps are overridden only where there is one translation leg. |
| Planning.PlanIsFreeOfReferencesExactlyWhen | interop/core/composition/planning.py:261-276 | No param of any node of an accepted plan, validators included, is a reference if and only if no validator param of the loaded legs is one. |
| Planning.AnAcceptedPlanMayHoldAReference | interop/core/composition/planning.py:261-276 | A plan of one leg whose validator has the param "$a.b.c", accepted with that reference in it. |
| MappingsRouting.NodeLookups.CollectSchemasForTranslate | interop/core/user_mappings_loader.py:75-89 | The schemas of the source, of every validator and of every step. |
| MappingsRouting.NodeLookups.NeededExactlyWhenDeclared | interop/core/user_mappings_loader.py:75-89 | A schema is needed if and only if the source, some validator or some step declares it. |
| MappingsRouting.NodeLookups.Productions | interop/core/user_mappings_loader.py:114-122 | The (schema, address) pairs are exactly those of the sinks that write a mappings file. |
| MappingsRouting.ProducedExactlyWhenASinkWrites | interop/core/user_mappings_loader.py:100-122 | A schema is produced at an address of a pipeline if and only if a leg of that pipeline has a sink of that name that writes it to that param. |
| MappingsRouting.FoldProducedMappings | interop/core/user_mappings_loader.py:100-112 | Refused if and only if one schema is produced twice; otherwise each schema has its one producer. |
| MappingsRouting.ProducedTwiceExactlyWhenTwoSinksWrite | interop/core/user_mappings_loader.py:100-122 | One schema is produced twice if and only if two sinks, of one leg or of two, write it. |
| MappingsRouting.LacksExactlyWhen | interop/core/use_cases/pipeline_catalog.py:66-75 | A leg lacks a schema if and only if its source, a validator or a step declares one that no sink of an earlier leg writes. |
| MappingsRouting.NeedsUserMappings | interop/core/use_cases/pipeline_catalog.py:66-75 | Yes if the first leg that lacks a schema no earlier leg derives, or produces one schema twice, lacks one; an error if it only produces one twice; no if there is no such leg. With no doubly produced schema, yes if and only if some leg lacks a schema. |
| MappingsRun.Run.FilesystemFor | interop/core/use_cases/translate.py:121-131 | The same port for the same hand-off, a new one for a new hand-off, and the configured one at the boundary. |
| MappingsRun.Run.OnePortPerHandoff | interop/core/use_cases/translate.py:121-131 | Two ports of a run are one object if and only if they serve the same hand-off. |
| MappingsRun.LoadBySchema | interop/core/user_mappings_loader.py:179-195 | Every needed schema's file, or nothing where one has none. |
| MappingsRun.Run.LoadUserMappings | interop/core/use_cases/translate.py:239-246 | A derived file is taken before the user's own; refused if and only if a needed schema has neither. |
| MappingsRun.Run.DerivedMappings | interop/core/use_cases/translate.py:206-219 | A file for each schema the leg's sinks write, where its param says, under the port that wrote it; refused if and only if a param is not there. |
| MappingsRun.Run.RunLeg | interop/core/use_cases/translate.py:221-237 | A leg starts if and only if it has a file for every schema it needs, reading and writing through the ports of its own hand-offs. |
| MappingsRun.Run.RunPlan | interop/core/use_cases/translate.py:197-204 | The run ends as the legs, taken in turn, make it end, and every leg that started had its own ports and the right file for each schema. |
| MappingsRun.RefusedExactlyWhenTwoSinksWrite | interop/core/user_mappings_loader.py:100-112 | A run is refused for a doubly produced schema if and only if two sinks of its legs write one. |
| MappingsRun.OwnProducers | interop/core/use_cases/translate.py:206-219 | Choosing producers by pipeline name picks exactly what the leg's own sinks write. |
| MappingsRun.DerivedFilesAreTheDerivedSchemas | interop/core/use_cases/translate.py:204-219 | The schemas the run has a derived file for are those the prompt counts as derived. |
| MappingsRun.DerivedFileWins | interop/core/use_cases/translate.py:239-246 | A schema an earlier leg derives is loaded from where that leg wrote it, whatever file the user names. |
| MappingsRun.UnaidedRunStopsAtTheFirstLack | interop/core/use_cases/translate.py:197-246 | Given no file, a run no leg fails stops at the first leg that needs a schema no earlier leg derives, or completes where there is none. |
| MappingsRun.AidedRunLacksNothing | interop/core/use_cases/translate.py:239-246 | Given a file, a run never stops for want of one. |
| MappingsRun.PlanningKeepsNames | interop/core/composition/planning.py:85-94 | Planning renames no pipeline and no node, so the prompt and the run ask about the same nodes. |
| MappingsRun.ParamsKeepNames | interop/core/composition/addressing.py:116-119 | A leg's params rename no node. |
| MappingsRun.PlanningKeepsSinksByName | interop/core/composition/planning.py:85-94 | Legs of one pipeline name still have the same mappings outputs when they run. |
| MappingsRun.RunOrderIsThePlansOrder | interop/core/composition/planning.py:62-68 | Splitting mapping legs from translation legs and joining them again keeps the order where mapping legs came first. |
| MappingsRun.PromptAgreesWithRun | interop/core/use_cases/pipeline_catalog.py:66-75 | With no doubly produced schema, the prompt about the loaded legs asks if and only if the planned run, given no file and failing for no other reason, stops for want of one; given one, it never does. |

## Left out

- Files, HTTP, HDF5, parquet, SQLite, netCDF, Julia, HiGHS and pypsa: a frame is a sequence of rows, a store or a directory a field of an object, and the optimiser and a leg's own work are arbitrary functions.
- Logging, warning texts, reports, event recording, write tracking, dependency injection and plugin discovery.
- YAML, XML and JSON parsing, and schema validation: rows arrive validated, with the ids, names and references the rules look at.
- Error texts: an error is one of a few kinds, and where several could be raised the model says that one is.
- Floating-point rounding, NaN, sub-second snapshots and dates past the ends of Python's calendar: numbers are real, moments are natural numbers counted from the earliest datetime, and a date may lie in any year from 1 on.
- The order of a reindexed frame's rows: a frame is a map from key to column.
- Sorts that leave the order of equal snapshots open are modelled as stable.
- PlexosHorizon.ReindexOnto: the replications' files are scanned back as one frame whose row order is not modelled.
- DatedSeries.SharedColumnHoldsEveryPropertyExactlyWhenTheyAgree: is about snapshots where every property sharing the column has a value; a null one is filled from its neighbours, as PlexosHorizon.FilledMeaning says of every column.
- Horizon attributes (`_parse_horizon` and its helpers) and the Data File layouts that feed other series.
- `find_latest_covering` and `read_band_edges` have no members of their own: the look-up and the edges appear inside `DatedProperties`.
- Reading `t_date_from`, `t_date_to`, `t_band`, Read Orders and Scenario memberships out of the PLEXOS tables: the overlay starts from rows that carry their dates and band.
- SiennaSystem.BuildPayload: component fields other than ids, names and references, and the number of sections, are left out.
- The Sienna store's own numbering: a series' id is its position in the store.
- SiennaSeriesWriter.WriteSeries: requires, as the rows' builders ensure, a nonzero scaling factor and a known capacity for every owner; a failed write's partial contents are not described, since the store's transaction discards them.
- SiennaSeriesRoundTrip.SeriesRoundTrip: is about associations whose length is that of the stored array, as the store exports them, and takes the capacities read back to be those written.
- SeriesCache.ColumnsByAttribute: snapshots, rounding and the joining of columns into the network's own frames are left out.
- The syntax tree of the filesystem lint has the node kinds its rules tell apart, and one more for all others; `ast.walk` visits a keyword argument's value as the argument.
- PluginInheritanceLint.CheckFile: findings carry the class and the kind of mistake, not the text.
- RollingSolve.Solve: the solver status other than the termination condition, unit commitment options, exports and the joined text of several conditions are left out; conditions are kept as a set.
- The bounds a solve request leaves open, bad requests, and combining the outcomes of several networks.
- Planning.PlanTranslation: the texts of the composition errors, and loading the legs' own files, are left out.
- MappingsRun.Run.RunPlan: a mappings file whose contents are unreadable or invalid counts as the leg failing, after every needed schema was found to have a file.
- CSV layout recognition, CAISO and results mapping, comparison reports, the investments portfolio and extension sidecars: projections whose claims would be easy.
