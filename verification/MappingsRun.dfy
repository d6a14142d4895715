/** A run's legs, the mappings files they load and the ones they derive
    (interop/core/use_cases/translate.py). */
module MappingsRun {
  import opened Common
  import opened Addressing
  import opened HandoffRouting
  import opened Planning
  import opened MappingsRouting

  // A place to read from and write to: its root is a hand-off directory, or None for the port the
  // caller configured.
  class Filesystem {
    const root: Option<string>

    constructor (root: Option<string>)
      ensures this.root == root
    {
      this.root := root;
    }
  }

  // A file by its location and by the root it is under.
  datatype PlacedFile = PlacedFile(location: Value, root: Option<string>)

  datatype MappingsFile = MappingsFile(location: Value, filesystem: Filesystem) {
    function Placed(): PlacedFile { PlacedFile(location, filesystem.root) }
  }

  type Files = map<Schema, PlacedFile>

  function PlacedFiles(files: map<Schema, MappingsFile>): Files {
    map schema | schema in files :: files[schema].Placed()
  }

  // What a leg makes of the mappings it loaded: whether they hold what their schemas ask for and
  // its nodes run to the end.
  type LegOutcome = (nat, Files) -> bool

  datatype Outcome =
    | SecondProducer
    | MissingMappings(leg: nat)
    | LegFailed(leg: nat)
    | UnreadableOutput(leg: nat)
    | Completed

  // ---- What a leg derives ----

  function ForSchema(schema: Schema): ((Schema, ParamAddress)) -> bool {
    (entry: (Schema, ParamAddress)) => entry.0 == schema
  }

  function OutputAddress(lookups: NodeLookups, leg: Leg, schema: Schema): Option<ParamAddress> {
    match LastMatch(lookups.Productions(leg.spec.sinks), ForSchema(schema))
    case None => None
    case Some(entry) => Some(entry.1)
  }

  /** The leg's sinks say where each file they write is. */
  ghost predicate OutputsAreReadable(lookups: NodeLookups, leg: Leg) {
    forall entry :: entry in lookups.Productions(leg.spec.sinks) ==> ReadParam(leg.spec, entry.1).Success?
  }

  ghost predicate DerivesFor(lookups: NodeLookups, leg: Leg, schema: Schema) {
    var address := OutputAddress(lookups, leg, schema);
    address.Some? && ReadParam(leg.spec, address.value).Success?
  }

  ghost function OwnFiles(lookups: NodeLookups, leg: Leg): Files {
    map schema | schema in DerivedBy(lookups, [leg]) && DerivesFor(lookups, leg, schema) ::
      PlacedFile(ReadParam(leg.spec, OutputAddress(lookups, leg, schema).value).value, leg.writesHandoffTo)
  }

  /** The files the legs derived, each where its leg hands over. */
  ghost function DerivedFiles(lookups: NodeLookups, legs: seq<Leg>): Files {
    if |legs| == 0 then map[]
    else DerivedFiles(lookups, legs[..|legs| - 1]) + OwnFiles(lookups, legs[|legs| - 1])
  }

  /** The file each schema can be read from: `own` stands in only where nothing is derived. */
  ghost function Available(derived: Files, own: Option<Value>, needed: set<Schema>): Files {
    if own.None? then derived
    else derived + map schema | schema in needed - derived.Keys :: PlacedFile(own.value, None)
  }

  ghost function Loaded(files: Files, needed: set<Schema>): Files {
    map schema | schema in needed && schema in files :: files[schema]
  }

  /** How the run of the legs from position `n` on ends. */
  ghost function OutcomeFrom(lookups: NodeLookups, legs: seq<Leg>, own: Option<Value>, runs: LegOutcome, n: nat): Outcome
    requires n <= |legs|
    decreases |legs| - n
  {
    if n == |legs| then Completed
    else
      var needed := lookups.SchemasForTranslate(legs[n].spec);
      var files := Available(DerivedFiles(lookups, legs[..n]), own, needed);
      if !(needed <= files.Keys) then MissingMappings(n)
      else if !runs(n, Loaded(files, needed)) then LegFailed(n)
      else if !OutputsAreReadable(lookups, legs[n]) then UnreadableOutput(n)
      else OutcomeFrom(lookups, legs, own, runs, n + 1)
  }

  ghost function RunOutcome(lookups: NodeLookups, legs: seq<Leg>, own: Option<Value>, runs: LegOutcome): Outcome {
    if HasSecondProducer(AllProductions(lookups, legs)) then SecondProducer
    else OutcomeFrom(lookups, legs, own, runs, 0)
  }

  lemma {:induction false} LegsNeverProduceTwice(lookups: NodeLookups, legs: seq<Leg>, own: Option<Value>, runs: LegOutcome, n: nat)
    requires n <= |legs|
    ensures OutcomeFrom(lookups, legs, own, runs, n) != SecondProducer
    decreases |legs| - n
  {
    hide Available, DerivedFiles, Loaded, OutputsAreReadable;
    if n < |legs| {
      LegsNeverProduceTwice(lookups, legs, own, runs, n + 1);
    }
  }

  /** A run is refused for a schema with two producers exactly when two sinks of its legs write one. */
  lemma RefusedExactlyWhenTwoSinksWrite(lookups: NodeLookups, legs: seq<Leg>, own: Option<Value>, runs: LegOutcome)
    ensures RunOutcome(lookups, legs, own, runs) == SecondProducer <==>
            exists schema :: TwoSinksWrite(lookups, legs, schema)
  {
    hide AllProductions, HasSecondProducer, OutcomeFrom, TwoSinksWrite;
    ProducedTwiceExactlyWhenTwoSinksWrite(lookups, legs);
    LegsNeverProduceTwice(lookups, legs, own, runs, 0);
  }

  // ---- The producers of a run, seen from one leg ----

  ghost predicate IsProductionOf(lookups: NodeLookups, legs: seq<Leg>, j: int, entry: (Schema, Producer)) {
    && 0 <= j < |legs|
    && entry.1.pipeline == legs[j].pipeline
    && (entry.0, entry.1.address) in lookups.Productions(legs[j].spec.sinks)
  }

  lemma {:induction false} ProductionsComeFromLegs(lookups: NodeLookups, legs: seq<Leg>, entry: (Schema, Producer))
    ensures entry in AllProductions(lookups, legs) <==> exists j :: IsProductionOf(lookups, legs, j, entry)
  {
    hide NodeLookups.Productions;
    if |legs| != 0 {
      var front, last := legs[..|legs| - 1], legs[|legs| - 1];
      ProductionsComeFromLegs(lookups, front, entry);
      var own := lookups.Productions(last.spec.sinks);
      var labelled := Labelled(own, last.pipeline);
      if entry in labelled {
        var i :| 0 <= i < |labelled| && labelled[i] == entry;
        assert own[i] in own;
        assert IsProductionOf(lookups, legs, |front|, entry);
      } else if entry in AllProductions(lookups, front) {
        var j :| IsProductionOf(lookups, front, j, entry);
        assert IsProductionOf(lookups, legs, j, entry);
      }
      if j :| IsProductionOf(lookups, legs, j, entry) {
        if j == |front| {
          var i :| 0 <= i < |own| && own[i] == (entry.0, entry.1.address);
          assert labelled[i] == entry;
        } else {
          assert IsProductionOf(lookups, front, j, entry);
        }
      }
    }
  }

  /** A pipeline's spec is loaded by its name, and a leg's params rename none of its nodes. */
  ghost predicate NamesDecideSinks(lookups: NodeLookups, legs: seq<Leg>) {
    forall i, j :: 0 <= i < |legs| && 0 <= j < |legs| && legs[i].pipeline == legs[j].pipeline ==>
      lookups.Productions(legs[i].spec.sinks) == lookups.Productions(legs[j].spec.sinks)
  }

  /** The producers bearing a leg's name are what that leg's own sinks write. */
  lemma OwnProducers(lookups: NodeLookups, legs: seq<Leg>, producers: map<Schema, Producer>, n: nat, schema: Schema)
    requires n < |legs| && NamesDecideSinks(lookups, legs)
    requires AreProducers(producers, AllProductions(lookups, legs))
    ensures schema in producers && producers[schema].pipeline == legs[n].pipeline
            <==> OutputAddress(lookups, legs[n], schema).Some?
    ensures OutputAddress(lookups, legs[n], schema).Some? ==>
              OutputAddress(lookups, legs[n], schema) == Some(producers[schema].address)
  {
    hide NodeLookups.Productions, AllProductions, LastMatch;
    var own := lookups.Productions(legs[n].spec.sinks);
    if schema in producers && producers[schema].pipeline == legs[n].pipeline {
      var entry := (schema, producers[schema]);
      ProductionsComeFromLegs(lookups, legs, entry);
      var j :| IsProductionOf(lookups, legs, j, entry);
      assert (schema, entry.1.address) in own && ForSchema(schema)((schema, entry.1.address));
    }
    var found := LastMatch(own, ForSchema(schema));
    if found.Some? {
      var entry := (schema, Producer(found.value.1, legs[n].pipeline));
      assert found.value == (schema, found.value.1);
      assert IsProductionOf(lookups, legs, n, entry);
      ProductionsComeFromLegs(lookups, legs, entry);
    }
  }

  lemma OutputsByAddress(lookups: NodeLookups, leg: Leg, schema: Schema)
    ensures OutputAddress(lookups, leg, schema).Some? <==> lookups.Produces(leg.spec, schema)
    ensures OutputAddress(lookups, leg, schema).Some? ==>
              (schema, OutputAddress(lookups, leg, schema).value) in lookups.Productions(leg.spec.sinks)
    ensures schema in DerivedBy(lookups, [leg]) <==> lookups.Produces(leg.spec, schema)
  {
    hide NodeLookups.Productions, AllProductions, LastMatch;
    var own := lookups.Productions(leg.spec.sinks);
    if entry :| entry in own && entry.0 == schema {
      assert ForSchema(schema)(entry);
    }
    NothingDerivedYet(lookups);
    DerivedByStep(lookups, [leg], 0);
    assert [leg][..1] == [leg] && [leg][..0] == [];
  }

  lemma DerivedFilesStep(lookups: NodeLookups, legs: seq<Leg>, n: nat)
    requires n < |legs|
    ensures DerivedFiles(lookups, legs[..n + 1]) == DerivedFiles(lookups, legs[..n]) + OwnFiles(lookups, legs[n])
  {
    assert legs[..n + 1][..n] == legs[..n];
  }

  /** What the prompt counts as derived is what the run has a file for. */
  lemma {:induction false} DerivedFilesAreTheDerivedSchemas(lookups: NodeLookups, legs: seq<Leg>, n: nat)
    requires n <= |legs| && forall k :: 0 <= k < n ==> OutputsAreReadable(lookups, legs[k])
    ensures DerivedFiles(lookups, legs[..n]).Keys == DerivedBy(lookups, legs[..n])
  {
    hide AllProductions, NodeLookups.Productions, NodeLookups.Produces, OutputAddress, ReadParam;
    if n == 0 {
      NothingDerivedYet(lookups);
      assert legs[..0] == [];
    } else {
      DerivedFilesAreTheDerivedSchemas(lookups, legs, n - 1);
      DerivedFilesStep(lookups, legs, n - 1);
      DerivedByStep(lookups, legs, n - 1);
      forall schema ensures schema in DerivedFiles(lookups, legs[..n]) <==> schema in DerivedBy(lookups, legs[..n]) {
        OutputsByAddress(lookups, legs[n - 1], schema);
      }
    }
  }

  /** One schema, one producer: every output is the one the producers name. */
  lemma ReadableByProducer(lookups: NodeLookups, legs: seq<Leg>, producers: map<Schema, Producer>, n: nat)
    requires n < |legs| && NamesDecideSinks(lookups, legs)
    requires AreProducers(producers, AllProductions(lookups, legs))
    ensures OutputsAreReadable(lookups, legs[n]) <==>
              forall schema :: schema in producers && producers[schema].pipeline == legs[n].pipeline ==>
                DerivesFor(lookups, legs[n], schema)
  {
    hide NodeLookups.Productions, AllProductions, OutputAddress, ReadParam, NamesDecideSinks, AreProducers;
    forall schema ensures schema in producers && producers[schema].pipeline == legs[n].pipeline
                          <==> OutputAddress(lookups, legs[n], schema).Some? {
      OwnProducers(lookups, legs, producers, n, schema);
      OutputsByAddress(lookups, legs[n], schema);
    }
    var own := lookups.Productions(legs[n].spec.sinks);
    forall entry | entry in own ensures OutputAddress(lookups, legs[n], entry.0) == Some(entry.1) {
      ProductionIsTheOutput(lookups, legs, producers, n, entry);
    }
    forall schema | OutputAddress(lookups, legs[n], schema).Some?
      ensures (schema, OutputAddress(lookups, legs[n], schema).value) in own
    {
      OutputsByAddress(lookups, legs[n], schema);
    }
  }

  lemma ProductionIsTheOutput(lookups: NodeLookups, legs: seq<Leg>, producers: map<Schema, Producer>, n: nat,
                              entry: (Schema, ParamAddress))
    requires n < |legs| && NamesDecideSinks(lookups, legs)
    requires AreProducers(producers, AllProductions(lookups, legs))
    requires entry in lookups.Productions(legs[n].spec.sinks)
    ensures OutputAddress(lookups, legs[n], entry.0) == Some(entry.1)
  {
    hide NodeLookups.Productions, AllProductions, OutputAddress, NamesDecideSinks;
    var production := (entry.0, Producer(entry.1, legs[n].pipeline));
    assert entry == (entry.0, entry.1);
    assert IsProductionOf(lookups, legs, n, production);
    ProductionsComeFromLegs(lookups, legs, production);
    OwnProducers(lookups, legs, producers, n, entry.0);
  }

  // ---- The run ----

  // The port made for each hand-off directory a leg has asked for.
  type Ports = map<string, Filesystem>

  /** The port a run uses for a hand-off, or for its own boundary. */
  predicate IsPortOf(configured: Filesystem, interior: Ports, handoff: Option<string>, port: Filesystem) {
    match handoff
    case None => port == configured
    case Some(directory) => directory in interior && interior[directory] == port
  }

  predicate Extends(larger: Ports, smaller: Ports) {
    forall directory :: directory in smaller ==> directory in larger && larger[directory] == smaller[directory]
  }

  ghost predicate ArePorts(configured: Filesystem, interior: Ports, files: map<Schema, MappingsFile>) {
    forall schema :: schema in files ==>
      IsPortOf(configured, interior, files[schema].filesystem.root, files[schema].filesystem)
  }

  /** The files the schemas name. None where a schema has none. */
  method LoadBySchema(needed: set<Schema>, files: map<Schema, MappingsFile>) returns (result: Option<map<Schema, MappingsFile>>)
    ensures result.None? <==> !(needed <= files.Keys)
    ensures result.Some? ==>
              && result.value.Keys == needed
              && forall schema :: schema in needed ==> result.value[schema] == files[schema]
  {
    var loaded: map<Schema, MappingsFile> := map[];
    var pending := needed;
    while pending != {}
      invariant pending <= needed
      invariant loaded.Keys == needed - pending
      invariant forall schema :: schema in loaded ==> schema in files && loaded[schema] == files[schema]
      decreases pending
    {
      var schema :| schema in pending;
      if schema !in files {
        return None;
      }
      loaded := loaded[schema := files[schema]];
      pending := pending - {schema};
    }
    result := Some(loaded);
  }

  /** The derived files, and the user's own for every schema none of them is for. */
  method WithOwnFile(derived: map<Schema, MappingsFile>, own: MappingsFile, needed: set<Schema>)
    returns (files: map<Schema, MappingsFile>)
    ensures files.Keys == derived.Keys + needed
    ensures forall schema :: schema in files ==>
              files[schema] == if schema in derived then derived[schema] else own
  {
    files := derived;
    var pending := needed;
    while pending != {}
      invariant pending <= needed
      invariant files.Keys == derived.Keys + (needed - pending)
      invariant forall schema :: schema in files ==>
                  files[schema] == if schema in derived then derived[schema] else own
      decreases pending
    {
      var schema :| schema in pending;
      if schema !in files {
        files := files[schema := own];
      }
      pending := pending - {schema};
    }
  }

  lemma LoadedAreAvailable(derived: map<Schema, MappingsFile>, own: Option<MappingsFile>, needed: set<Schema>,
                           files: map<Schema, MappingsFile>, loaded: map<Schema, MappingsFile>)
    requires own.Some? ==> own.value.filesystem.root == None
    requires files.Keys == derived.Keys + if own.Some? then needed else {}
    requires forall schema :: schema in files ==>
               (schema in derived || own.Some?)
               && files[schema] == if schema in derived then derived[schema] else own.value
    requires loaded.Keys == needed * files.Keys && forall schema :: schema in loaded ==> loaded[schema] == files[schema]
    ensures var location := if own.Some? then Some(own.value.location) else None;
            var available := Available(PlacedFiles(derived), location, needed);
            files.Keys == available.Keys && PlacedFiles(loaded) == Loaded(available, needed)
  {
    var location := if own.Some? then Some(own.value.location) else None;
    var available := Available(PlacedFiles(derived), location, needed);
    assert files.Keys == available.Keys;
    forall schema | schema in loaded ensures schema in available && loaded[schema].Placed() == available[schema] {
    }
  }

  // A leg that found its mappings: the ports it reads from and writes to, and the files.
  datatype StartedLeg = StartedLeg(readPort: Filesystem, writePort: Filesystem, files: map<Schema, MappingsFile>)

  /** The ports are those of the leg's own hand-offs; each file is the one an earlier leg derived,
      under the port that wrote it, or else the user's own. */
  ghost predicate HasPortsAndFiles(lookups: NodeLookups, legs: seq<Leg>, own: Option<Value>, i: int,
                                   configured: Filesystem, interior: Ports, started: StartedLeg)
    requires 0 <= i < |legs|
  {
    var needed := lookups.SchemasForTranslate(legs[i].spec);
    && IsPortOf(configured, interior, legs[i].readsHandoffFrom, started.readPort)
    && IsPortOf(configured, interior, legs[i].writesHandoffTo, started.writePort)
    && ArePorts(configured, interior, started.files)
    && PlacedFiles(started.files) == Loaded(Available(DerivedFiles(lookups, legs[..i]), own, needed), needed)
    && needed <= Available(DerivedFiles(lookups, legs[..i]), own, needed).Keys
  }

  lemma PortsStay(lookups: NodeLookups, legs: seq<Leg>, own: Option<Value>, i: int,
                  configured: Filesystem, larger: Ports, smaller: Ports, started: StartedLeg)
    requires 0 <= i < |legs| && Extends(larger, smaller)
    requires HasPortsAndFiles(lookups, legs, own, i, configured, smaller, started)
    ensures HasPortsAndFiles(lookups, legs, own, i, configured, larger, started)
  {
    hide DerivedFiles, Available, Loaded, NodeLookups.SchemasForTranslate, PlacedFiles;
  }

  class Run {
    const configured: Filesystem
    const userMappingsPath: Option<Value>
    var mappings: map<Schema, MappingsFile>
    var producers: map<Schema, Producer>
    var interior: Ports

    constructor (configured: Filesystem, userMappingsPath: Option<Value>)
      requires configured.root == None
      ensures Valid() && mappings == map[] && producers == map[] && interior == map[]
      ensures this.configured == configured && this.userMappingsPath == userMappingsPath
    {
      this.configured, this.userMappingsPath := configured, userMappingsPath;
      mappings, producers, interior := map[], map[], map[];
    }

    ghost predicate Valid()
      reads this
    {
      && configured.root == None
      && (forall directory :: directory in interior ==> interior[directory].root == Some(directory))
      && ArePorts(configured, interior, mappings)
    }

    /** Ports and hand-offs correspond one to one, so whoever asks for a hand-off gets the object
        its other user has. */
    lemma OnePortPerHandoff(a: Option<string>, p: Filesystem, b: Option<string>, q: Filesystem)
      requires Valid() && IsPortOf(configured, interior, a, p) && IsPortOf(configured, interior, b, q)
      ensures p == q <==> a == b
      ensures p.root == a
    {
    }

    method FilesystemFor(handoff: Option<string>) returns (port: Filesystem)
      requires Valid()
      modifies this`interior
      ensures Valid() && Extends(interior, old(interior))
      ensures IsPortOf(configured, interior, handoff, port) && port.root == handoff
      ensures handoff.Some? && handoff.value !in old(interior) ==> fresh(port)
      ensures interior.Keys == old(interior.Keys) + if handoff.Some? then {handoff.value} else {}
    {
      match handoff
      case None =>
        return configured;
      case Some(directory) =>
        if directory !in interior {
          var made := new Filesystem(handoff);
          interior := interior[directory := made];
        }
        port := interior[directory];
    }

    /** A derived file is taken before the user's own. None where a schema has neither. */
    method LoadUserMappings(lookups: NodeLookups, leg: Leg) returns (result: Option<map<Schema, MappingsFile>>)
      requires Valid()
      ensures var needed := lookups.SchemasForTranslate(leg.spec);
              var files := Available(PlacedFiles(mappings), userMappingsPath, needed);
              && (result.None? <==> !(needed <= files.Keys))
              && (result.Some? ==> PlacedFiles(result.value) == Loaded(files, needed) && ArePorts(configured, interior, result.value))
    {
      hide NodeLookups.SchemasForTranslate, Available, Loaded, PlacedFiles;
      var needed := lookups.CollectSchemasForTranslate(leg.spec);
      var files := mappings;
      ghost var own: Option<MappingsFile> := None;
      if userMappingsPath.Some? {
        own := Some(MappingsFile(userMappingsPath.value, configured));
        files := WithOwnFile(mappings, MappingsFile(userMappingsPath.value, configured), needed);
      }
      result := LoadBySchema(needed, files);
      ghost var found: map<Schema, MappingsFile> := map schema | schema in needed * files.Keys :: files[schema];
      LoadedAreAvailable(mappings, own, needed, files, found);
      assert result.Some? ==> result.value == found;
    }

    /** What a leg does before and while its nodes run. None where it lacks a mappings file. */
    method RunLeg(lookups: NodeLookups, ghost legs: seq<Leg>, n: nat, leg: Leg, runs: LegOutcome)
      returns (started: Option<StartedLeg>, ran: bool)
      requires Valid() && n < |legs| && leg == legs[n]
      requires PlacedFiles(mappings) == DerivedFiles(lookups, legs[..n])
      modifies this`interior
      ensures Valid() && Extends(interior, old(interior))
      ensures var needed := lookups.SchemasForTranslate(leg.spec);
              var files := Available(DerivedFiles(lookups, legs[..n]), userMappingsPath, needed);
              && (started.None? <==> !(needed <= files.Keys))
              && (started.Some? ==>
                   && HasPortsAndFiles(lookups, legs, userMappingsPath, n, configured, interior, started.value)
                   && ran == runs(n, Loaded(files, needed)))
    {
      hide NodeLookups.SchemasForTranslate, DerivedFiles, Available, Loaded, PlacedFiles;
      var files := LoadUserMappings(lookups, leg);
      if files.None? {
        return None, false;
      }
      var readPort := FilesystemFor(leg.readsHandoffFrom);
      var writePort := FilesystemFor(leg.writesHandoffTo);
      started := Some(StartedLeg(readPort, writePort, files.value));
      ran := runs(n, PlacedFiles(files.value));
    }

    /** Each derived file carries the port that wrote it. None where a sink has no such param. */
    method DerivedMappings(ghost lookups: NodeLookups, ghost legs: seq<Leg>, ghost n: nat, leg: Leg)
      returns (result: Option<map<Schema, MappingsFile>>)
      requires Valid() && n < |legs| && leg == legs[n] && NamesDecideSinks(lookups, legs)
      requires AreProducers(producers, AllProductions(lookups, legs))
      modifies this`interior
      ensures Valid() && Extends(interior, old(interior))
      ensures result.None? <==> !OutputsAreReadable(lookups, leg)
      ensures result.Some? ==>
                PlacedFiles(result.value) == OwnFiles(lookups, leg) && ArePorts(configured, interior, result.value)
    {
      hide AreProducers, AllProductions, NodeLookups.Productions, NamesDecideSinks, ReadParam, OutputsAreReadable, OutputAddress;
      var port := FilesystemFor(leg.writesHandoffTo);
      ReadableByProducer(lookups, legs, producers, n);
      forall schema ensures schema in producers && producers[schema].pipeline == leg.pipeline
                            <==> OutputAddress(lookups, leg, schema).Some?
                    ensures OutputAddress(lookups, leg, schema).Some? ==>
                              OutputAddress(lookups, leg, schema) == Some(producers[schema].address)
                    ensures OutputAddress(lookups, leg, schema).Some? ==> schema in DerivedBy(lookups, [leg]) {
        OwnProducers(lookups, legs, producers, n, schema);
        OutputsByAddress(lookups, leg, schema);
      }
      var derived: map<Schema, MappingsFile> := map[];
      var pending := producers.Keys;
      while pending != {}
        invariant pending <= producers.Keys
        invariant forall schema :: schema in derived <==>
                    schema in producers.Keys - pending && producers[schema].pipeline == leg.pipeline
        invariant forall schema :: schema in derived ==>
                    && DerivesFor(lookups, leg, schema)
                    && derived[schema] == MappingsFile(ReadParam(leg.spec, producers[schema].address).value, port)
        decreases pending
      {
        var schema :| schema in pending;
        if producers[schema].pipeline == leg.pipeline {
          var value := ReadParam(leg.spec, producers[schema].address);
          if value.Failure? {
            assert !DerivesFor(lookups, leg, schema);
            return None;
          }
          derived := derived[schema := MappingsFile(value.value, port)];
        }
        pending := pending - {schema};
      }
      assert PlacedFiles(derived) == OwnFiles(lookups, leg);
      result := Some(derived);
    }

    /** Runs the legs in turn. The outcome tells where it stopped; each leg that found its files
        has its own ports and those files. */
    method RunPlan(lookups: NodeLookups, legs: seq<Leg>, runs: LegOutcome)
      returns (outcome: Outcome, started: seq<StartedLeg>)
      requires Valid() && mappings == map[]
      requires NamesDecideSinks(lookups, legs)
      modifies this
      ensures Valid() && Extends(interior, old(interior))
      ensures outcome == RunOutcome(lookups, legs, userMappingsPath, runs)
      ensures |started| <= |legs|
      ensures outcome == Completed ==> |started| == |legs|
      ensures forall i :: 0 <= i < |started| ==>
                HasPortsAndFiles(lookups, legs, userMappingsPath, i, configured, interior, started[i])
    {
      hide NodeLookups.Productions, NodeLookups.SchemasForTranslate, AllProductions, HasSecondProducer, AreProducers,
        NamesDecideSinks, OutputsAreReadable, DerivedFiles, OwnFiles, Available, Loaded, HasPortsAndFiles,
        OutcomeFrom, PlacedFiles, ArePorts;
      started := [];
      var folded := FoldProducedMappings(lookups, legs);
      if folded.None? {
        return SecondProducer, started;
      }
      producers := folded.value;
      NothingDerivedByNoLeg(lookups, legs);
      for n := 0 to |legs|
        invariant Valid() && producers == folded.value && Extends(interior, old(interior))
        invariant PlacedFiles(mappings) == DerivedFiles(lookups, legs[..n])
        invariant RunOutcome(lookups, legs, userMappingsPath, runs) == OutcomeFrom(lookups, legs, userMappingsPath, runs, n)
        invariant |started| == n
        invariant forall i :: 0 <= i < n ==>
                    HasPortsAndFiles(lookups, legs, userMappingsPath, i, configured, interior, started[i])
      {
        OutcomeStep(lookups, legs, userMappingsPath, runs, n);
        ghost var before := interior;
        var leg, ran := RunLeg(lookups, legs, n, legs[n], runs);
        forall i | 0 <= i < n
          ensures HasPortsAndFiles(lookups, legs, userMappingsPath, i, configured, interior, started[i])
        {
          PortsStay(lookups, legs, userMappingsPath, i, configured, interior, before, started[i]);
        }
        if leg.None? {
          return MissingMappings(n), started;
        }
        started := started + [leg.value];
        if !ran {
          return LegFailed(n), started;
        }
        ghost var between := interior;
        var derived := DerivedMappings(lookups, legs, n, legs[n]);
        forall i | 0 <= i <= n
          ensures HasPortsAndFiles(lookups, legs, userMappingsPath, i, configured, interior, started[i])
        {
          PortsStay(lookups, legs, userMappingsPath, i, configured, interior, between, started[i]);
        }
        if derived.None? {
          return UnreadableOutput(n), started;
        }
        DerivedFilesStep(lookups, legs, n);
        MergedFiles(mappings, derived.value, configured, interior);
        mappings := mappings + derived.value;
      }
      OutcomeAtTheEnd(lookups, legs, userMappingsPath, runs);
      outcome := Completed;
    }
  }

  lemma MergedFiles(a: map<Schema, MappingsFile>, b: map<Schema, MappingsFile>, configured: Filesystem, interior: Ports)
    ensures PlacedFiles(a + b) == PlacedFiles(a) + PlacedFiles(b)
    ensures ArePorts(configured, interior, a) && ArePorts(configured, interior, b) ==> ArePorts(configured, interior, a + b)
  {
  }

  lemma OutcomeAtTheEnd(lookups: NodeLookups, legs: seq<Leg>, own: Option<Value>, runs: LegOutcome)
    ensures OutcomeFrom(lookups, legs, own, runs, |legs|) == Completed
  {
  }

  lemma OutcomeStep(lookups: NodeLookups, legs: seq<Leg>, own: Option<Value>, runs: LegOutcome, n: nat)
    requires n < |legs|
    ensures var needed := lookups.SchemasForTranslate(legs[n].spec);
            var files := Available(DerivedFiles(lookups, legs[..n]), own, needed);
            OutcomeFrom(lookups, legs, own, runs, n)
            == if !(needed <= files.Keys) then MissingMappings(n)
               else if !runs(n, Loaded(files, needed)) then LegFailed(n)
               else if !OutputsAreReadable(lookups, legs[n]) then UnreadableOutput(n)
               else OutcomeFrom(lookups, legs, own, runs, n + 1)
  {
    hide NodeLookups.SchemasForTranslate, Available, Loaded, DerivedFiles, OutputsAreReadable;
  }

  lemma NothingDerivedByNoLeg(lookups: NodeLookups, legs: seq<Leg>)
    ensures DerivedFiles(lookups, legs[..0]) == map[] == PlacedFiles(map[])
  {
  }

  // ---- What the prompt foretells ----

  /** A schema a leg derives is read by every later leg from where that leg wrote it, whatever file
      the user names. */
  lemma DerivedFileWins(lookups: NodeLookups, legs: seq<Leg>, own: Option<Value>, j: nat, n: nat, schema: Schema)
    requires j < n < |legs| && !HasSecondProducer(AllProductions(lookups, legs))
    requires OutputsAreReadable(lookups, legs[j])
    requires lookups.Produces(legs[j].spec, schema)
    requires schema in lookups.SchemasForTranslate(legs[n].spec)
    ensures var needed := lookups.SchemasForTranslate(legs[n].spec);
            var files := Loaded(Available(DerivedFiles(lookups, legs[..n]), own, needed), needed);
            && schema in files
            && files[schema].root == legs[j].writesHandoffTo
            && exists address :: (schema, address) in lookups.Productions(legs[j].spec.sinks)
                 && ReadParam(legs[j].spec, address) == Success(files[schema].location)
  {
    hide NodeLookups.Productions, NodeLookups.SchemasForTranslate, AllProductions, HasSecondProducer, DerivedFiles, ReadParam,
      OutputAddress;
    DerivedFileStays(lookups, legs, j, n, schema);
    OutputsByAddress(lookups, legs[j], schema);
  }

  lemma {:induction false} DerivedFileStays(lookups: NodeLookups, legs: seq<Leg>, j: nat, n: nat, schema: Schema)
    requires j < n <= |legs| && !HasSecondProducer(AllProductions(lookups, legs))
    requires OutputsAreReadable(lookups, legs[j])
    requires lookups.Produces(legs[j].spec, schema)
    ensures OutputAddress(lookups, legs[j], schema).Some?
    ensures DerivesFor(lookups, legs[j], schema)
    ensures schema in DerivedFiles(lookups, legs[..n])
    ensures DerivedFiles(lookups, legs[..n])[schema]
            == PlacedFile(ReadParam(legs[j].spec, OutputAddress(lookups, legs[j], schema).value).value, legs[j].writesHandoffTo)
  {
    hide NodeLookups.Productions, NodeLookups.Produces, AllProductions, HasSecondProducer, DerivedFiles, ReadParam,
      OutputAddress;
    OutputsByAddress(lookups, legs[j], schema);
    DerivedFilesStep(lookups, legs, n - 1);
    if j < n - 1 {
      DerivedFileStays(lookups, legs, j, n - 1, schema);
      if lookups.Produces(legs[n - 1].spec, schema) {
        TwoLegsProduceIt(lookups, legs, j, n - 1, schema);
      }
      OutputsByAddress(lookups, legs[n - 1], schema);
    }
  }

  /** Two legs that produce one schema are one producer too many. */
  lemma TwoLegsProduceIt(lookups: NodeLookups, legs: seq<Leg>, i: nat, j: nat, schema: Schema)
    requires i < j < |legs| && lookups.Produces(legs[i].spec, schema) && lookups.Produces(legs[j].spec, schema)
    ensures HasSecondProducer(AllProductions(lookups, legs))
  {
    hide NodeLookups.Productions, NodeLookups.Produces, AllProductions, HasSecondProducer;
    DerivedByStep(lookups, legs, i);
    DerivedGrows(lookups, legs, i + 1, j, schema);
    DerivedByStep(lookups, legs, j);
    ProductionsOfPrefix(lookups, legs, j + 1);
    OneLegProduces(lookups, legs, j);
    ProducedInBoth(AllProductions(lookups, legs[..j]), AllProductions(lookups, [legs[j]]), AllProductions(lookups, legs), schema);
  }

  lemma ProducedInBoth(before: seq<(Schema, Producer)>, own: seq<(Schema, Producer)>, all: seq<(Schema, Producer)>, schema: Schema)
    requires before + own <= all
    requires (exists entry :: entry in before && entry.0 == schema) && (exists entry :: entry in own && entry.0 == schema)
    ensures HasSecondProducer(all)
  {
    var a :| 0 <= a < |before| && before[a].0 == schema;
    var b :| 0 <= b < |own| && own[b].0 == schema;
    assert all[a] == before[a] && all[|before| + b] == own[b];
  }

  lemma {:induction false} DerivedGrows(lookups: NodeLookups, legs: seq<Leg>, i: nat, j: nat, schema: Schema)
    requires i <= j <= |legs| && schema in DerivedBy(lookups, legs[..i])
    ensures schema in DerivedBy(lookups, legs[..j])
    decreases j
  {
    hide DerivedBy;
    if i < j {
      DerivedGrows(lookups, legs, i, j - 1, schema);
      DerivedByStep(lookups, legs, j - 1);
    }
  }

  /** Given no file of the user's, a run that no leg fails stops at the first leg that lacks a
      schema. */
  lemma {:induction false} UnaidedRunStopsAtTheFirstLack(lookups: NodeLookups, legs: seq<Leg>, runs: LegOutcome, n: nat)
    requires n <= |legs| && forall k :: 0 <= k < n ==> OutputsAreReadable(lookups, legs[k])
    requires var outcome := OutcomeFrom(lookups, legs, None, runs, n);
             !outcome.LegFailed? && !outcome.UnreadableOutput?
    ensures match OutcomeFrom(lookups, legs, None, runs, n)
            case MissingMappings(k) => n <= k < |legs| && Lacks(lookups, legs, k) && forall i :: n <= i < k ==> !Lacks(lookups, legs, i)
            case Completed => forall i :: n <= i < |legs| ==> !Lacks(lookups, legs, i)
            case _ => false
    decreases |legs| - n
  {
    hide OutcomeFrom, DerivedFiles, NodeLookups.SchemasForTranslate, DerivedBy, OutputsAreReadable;
    if n == |legs| {
      OutcomeAtTheEnd(lookups, legs, None, runs);
    } else {
      OutcomeStep(lookups, legs, None, runs, n);
      DerivedFilesAreTheDerivedSchemas(lookups, legs, n);
      if !Lacks(lookups, legs, n) {
        UnaidedRunStopsAtTheFirstLack(lookups, legs, runs, n + 1);
      }
    }
  }

  lemma {:induction false} AidedRunLacksNothing(lookups: NodeLookups, legs: seq<Leg>, path: Value, runs: LegOutcome, n: nat)
    requires n <= |legs|
    ensures !OutcomeFrom(lookups, legs, Some(path), runs, n).MissingMappings?
    ensures !OutcomeFrom(lookups, legs, Some(path), runs, n).SecondProducer?
    decreases |legs| - n
  {
    hide OutcomeFrom, DerivedFiles, NodeLookups.SchemasForTranslate, OutputsAreReadable;
    if n == |legs| {
      OutcomeAtTheEnd(lookups, legs, Some(path), runs);
    } else {
      OutcomeStep(lookups, legs, Some(path), runs, n);
      AidedRunLacksNothing(lookups, legs, path, runs, n + 1);
    }
  }

  // ---- The prompt's plan and the run's ----

  ghost predicate AlikeByName(a: seq<Leg>, b: seq<Leg>) {
    |a| == |b| && forall i :: 0 <= i < |a| ==> a[i].pipeline == b[i].pipeline && NamesTheSameNodes(a[i].spec, b[i].spec)
  }

  ghost predicate NamesTheSameNodes(a: PipelineSpec, b: PipelineSpec) {
    && a.source.name == b.source.name
    && SameNames(a.steps, b.steps)
    && SameNames(a.sinks, b.sinks)
    && a.validators == b.validators
  }

  lemma {:induction false} ProductionsByName(lookups: NodeLookups, a: seq<NodeSpec>, b: seq<NodeSpec>)
    requires SameNames(a, b)
    ensures lookups.Productions(a) == lookups.Productions(b)
  {
    if |a| != 0 {
      assert a[|a| - 1].name == b[|b| - 1].name;
      ProductionsByName(lookups, a[..|a| - 1], b[..|b| - 1]);
    }
  }

  lemma SchemasByName(lookups: NodeLookups, a: PipelineSpec, b: PipelineSpec)
    requires NamesTheSameNodes(a, b)
    ensures lookups.SchemasForTranslate(a) == lookups.SchemasForTranslate(b)
  {
  }

  lemma {:induction false} AllProductionsByName(lookups: NodeLookups, a: seq<Leg>, b: seq<Leg>)
    requires AlikeByName(a, b)
    ensures AllProductions(lookups, a) == AllProductions(lookups, b)
  {
    hide NodeLookups.Productions;
    if |a| != 0 {
      AllProductionsByName(lookups, a[..|a| - 1], b[..|b| - 1]);
      ProductionsByName(lookups, a[|a| - 1].spec.sinks, b[|b| - 1].spec.sinks);
    }
  }

  lemma LacksByName(lookups: NodeLookups, a: seq<Leg>, b: seq<Leg>, n: nat)
    requires AlikeByName(a, b) && n < |a|
    ensures Lacks(lookups, a, n) == Lacks(lookups, b, n)
  {
    hide AllProductions, NodeLookups.SchemasForTranslate;
    SchemasByName(lookups, a[n].spec, b[n].spec);
    AllProductionsByName(lookups, a[..n], b[..n]);
  }

  lemma OverridingKeepsNames(routed: seq<Leg>, overrides: NodeOverrides, i: nat)
    requires exists leg :: leg in routed && leg.kind == TranslationLeg
    requires ApplyRunOverrides(routed, overrides).Success? && i < |routed|
    ensures var after := ApplyRunOverrides(routed, overrides).value;
            && |after| == |routed| && after[i].kind == routed[i].kind && after[i].pipeline == routed[i].pipeline
            && NamesTheSameNodes(routed[i].spec, after[i].spec)
  {
    hide ApplyRunOverrides, FirstTranslation, FinalOf;
    OverridesReachTheBoundaryAlone(routed, overrides, i);
  }

  lemma ResolvingKeepsNames(leg: Leg, planned: seq<Leg>)
    ensures NamesTheSameNodes(leg.spec, ResolvedLeg(leg, planned).spec)
    ensures ResolvedLeg(leg, planned).pipeline == leg.pipeline && ResolvedLeg(leg, planned).kind == leg.kind
  {
  }

  lemma SameNodesTwice(a: PipelineSpec, b: PipelineSpec, c: PipelineSpec)
    requires NamesTheSameNodes(a, b) && NamesTheSameNodes(b, c)
    ensures NamesTheSameNodes(a, c)
  {
  }

  /** Planning renames no pipeline and no node. */
  lemma PlanningKeepsNames(planned: seq<Leg>, overrides: NodeOverrides)
    requires exists leg :: leg in planned && leg.kind == TranslationLeg
    requires Refusal(planned, overrides).None?
    ensures AlikeByName(planned, PlannedLegs(planned, overrides))
    ensures forall i :: 0 <= i < |planned| ==> PlannedLegs(planned, overrides)[i].kind == planned[i].kind
  {
    hide LegResolves, ApplyRunOverrides, BoundariesAgree, TargetsExist, IsWired, ResolvedLeg, NamesTheSameNodes, Filter,
      DirectoryOf, UpstreamOf;
    RoutedHasATranslation(planned);
    var routed, overridden := RoutedLegs(planned), OverriddenLegs(planned, overrides);
    assert |planned| > 0;
    OverridingKeepsNames(routed, overrides, 0);
    forall i | 0 <= i < |planned|
      ensures var leg := PlannedLegs(planned, overrides)[i];
              leg.kind == planned[i].kind && leg.pipeline == planned[i].pipeline && NamesTheSameNodes(planned[i].spec, leg.spec)
    {
      OverridingKeepsNames(routed, overrides, i);
      ResolvingKeepsNames(overridden[i], overridden);
      SameNodesTwice(planned[i].spec, overridden[i].spec, PlannedLegs(planned, overrides)[i].spec);
    }
  }

  /** A leg's params rename no node either, so a leg's pipeline name still decides its sinks when
      the leg runs. */
  lemma {:induction false} ParamsKeepNames(spec: PipelineSpec, params: seq<(string, Value)>)
    requires AppliedParams(spec, params).Success?
    ensures NamesTheSameNodes(spec, AppliedParams(spec, params).value)
  {
    hide FindNode, ParseParamAddress;
    if |params| != 0 {
      var front := params[..|params| - 1];
      ParamsKeepNames(spec, front);
      SettingKeepsNames(AppliedParams(spec, front).value, ParseParamAddress(params[|params| - 1].0).value, params[|params| - 1].1);
      SameNodesTwice(spec, AppliedParams(spec, front).value, AppliedParams(spec, params).value);
    }
  }

  lemma SettingKeepsNames(spec: PipelineSpec, address: ParamAddress, value: Value)
    requires SetParam(spec, address, value).Success?
    ensures NamesTheSameNodes(spec, SetParam(spec, address, value).value)
  {
  }

  lemma PlanningKeepsSinksByName(lookups: NodeLookups, asked: seq<Leg>, overrides: NodeOverrides)
    requires exists leg :: leg in asked && leg.kind == TranslationLeg
    requires Refusal(asked, overrides).None? && NamesDecideSinks(lookups, asked)
    ensures NamesDecideSinks(lookups, PlannedLegs(asked, overrides))
  {
    hide Refusal, PlannedLegs;
    PlanningKeepsNames(asked, overrides);
    forall i | 0 <= i < |asked|
      ensures lookups.Productions(asked[i].spec.sinks) == lookups.Productions(PlannedLegs(asked, overrides)[i].spec.sinks)
    {
      ProductionsByName(lookups, asked[i].spec.sinks, PlannedLegs(asked, overrides)[i].spec.sinks);
    }
  }

  ghost predicate MappingsComeFirst(legs: seq<Leg>) {
    forall i, j :: 0 <= i < j < |legs| && legs[i].kind == TranslationLeg ==> legs[j].kind == TranslationLeg
  }

  lemma {:induction false} RunOrderIsThePlansOrder(legs: seq<Leg>)
    requires MappingsComeFirst(legs)
    ensures TranslationPlan(Filter(legs, IsTranslation), Filter(legs, IsMapping)).InRunOrder() == legs
  {
    hide Filter;
    if |legs| != 0 {
      var front, last := legs[..|legs| - 1], legs[|legs| - 1];
      if last.kind == MappingLeg {
        FilterNone(legs, IsTranslation);
        FilterAll(legs, IsMapping);
      } else {
        RunOrderIsThePlansOrder(front);
        FilterSnoc(legs, IsTranslation);
        FilterSnoc(legs, IsMapping);
      }
    }
  }

  /** The question asked before a run and the run itself agree. Asking about the legs as they were
      loaded, a user is asked for a mappings file exactly when the planned run, given none and
      failing for no other reason, stops for want of one; given one, it never does. */
  lemma PromptAgreesWithRun(lookups: NodeLookups, asked: seq<Leg>, overrides: NodeOverrides, runs: LegOutcome, path: Value)
    requires exists leg :: leg in asked && leg.kind == TranslationLeg
    requires MappingsComeFirst(asked) && Refusal(asked, overrides).None?
    requires !HasSecondProducer(AllProductions(lookups, asked))
    ensures var planned := PlannedLegs(asked, overrides);
            var plan := TranslationPlan(Filter(planned, IsTranslation), Filter(planned, IsMapping));
            var unaided := RunOutcome(lookups, plan.InRunOrder(), None, runs);
            && plan.InRunOrder() == planned
            && (unaided.LegFailed? || unaided.UnreadableOutput?
                || (unaided.MissingMappings? <==> exists n :: 0 <= n < |asked| && Lacks(lookups, asked, n)))
            && !RunOutcome(lookups, plan.InRunOrder(), Some(path), runs).MissingMappings?
            && !RunOutcome(lookups, plan.InRunOrder(), Some(path), runs).SecondProducer?
  {
    hide Refusal, PlannedLegs, Filter, TranslationPlan.InRunOrder, AllProductions, Lacks, OutcomeFrom, HasSecondProducer, NamesTheSameNodes;
    var planned := PlannedLegs(asked, overrides);
    PlanningKeepsNames(asked, overrides);
    RunOrderIsThePlansOrder(planned);
    AllProductionsByName(lookups, asked, planned);
    forall n | 0 <= n < |asked| ensures Lacks(lookups, asked, n) == Lacks(lookups, planned, n) {
      LacksByName(lookups, asked, planned, n);
    }
    AidedRunLacksNothing(lookups, planned, path, runs, 0);
    var unaided := OutcomeFrom(lookups, planned, None, runs, 0);
    if !unaided.LegFailed? && !unaided.UnreadableOutput? {
      UnaidedRunStopsAtTheFirstLack(lookups, planned, runs, 0);
    }
  }
}
