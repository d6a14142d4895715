/** Which legs need a user mappings file, and which derive one
    (interop/core/user_mappings_loader.py and interop/core/use_cases/pipeline_catalog.py). */
module MappingsRouting {
  import opened Common
  import opened Addressing
  import opened HandoffRouting

  // A kind of mappings file, named by its schema.
  type Schema = string

  // The file a sink writes: its schema, and the sink's param that says where.
  datatype MappingsOutput = MappingsOutput(schema: Schema, pathParam: string)

  // What each plugin declares, by its name.
  datatype NodeLookups = NodeLookups(
    source: string -> set<Schema>,
    step: string -> set<Schema>,
    validator: string -> set<Schema>,
    sink: string -> Option<MappingsOutput>)
  {
    ghost function SchemasForTranslate(spec: PipelineSpec): set<Schema> {
      source(spec.source.name)
      + (set node, schema | node in spec.validators && schema in validator(node.name) :: schema)
      + (set node, schema | node in spec.steps && schema in step(node.name) :: schema)
    }

    /** A schema is needed exactly when a plugin the pipeline names declares it: its source, a
        validator or a step. */
    lemma NeededExactlyWhenDeclared(spec: PipelineSpec, schema: Schema)
      ensures schema in SchemasForTranslate(spec) <==>
              || schema in source(spec.source.name)
              || (exists i :: 0 <= i < |spec.validators| && schema in validator(spec.validators[i].name))
              || (exists i :: 0 <= i < |spec.steps| && schema in step(spec.steps[i].name))
    {
      if schema in SchemasForTranslate(spec) && schema !in source(spec.source.name) {
        if node :| node in spec.validators && schema in validator(node.name) {
          var i :| 0 <= i < |spec.validators| && spec.validators[i] == node;
        } else {
          var node :| node in spec.steps && schema in step(node.name);
          var i :| 0 <= i < |spec.steps| && spec.steps[i] == node;
        }
      }
    }

    method CollectSchemasForTranslate(spec: PipelineSpec) returns (schemas: set<Schema>)
      ensures schemas == SchemasForTranslate(spec)
    {
      schemas := source(spec.source.name);
      for n := 0 to |spec.validators|
        invariant schemas == source(spec.source.name)
          + (set node, schema | node in spec.validators[..n] && schema in validator(node.name) :: schema)
      {
        assert spec.validators[..n + 1] == spec.validators[..n] + [spec.validators[n]];
        schemas := schemas + validator(spec.validators[n].name);
      }
      assert spec.validators[..|spec.validators|] == spec.validators;
      for n := 0 to |spec.steps|
        invariant schemas == source(spec.source.name)
          + (set node, schema | node in spec.validators && schema in validator(node.name) :: schema)
          + (set node, schema | node in spec.steps[..n] && schema in step(node.name) :: schema)
      {
        assert spec.steps[..n + 1] == spec.steps[..n] + [spec.steps[n]];
        schemas := schemas + step(spec.steps[n].name);
      }
      assert spec.steps[..|spec.steps|] == spec.steps;
    }

    /** The schemas a pipeline's sinks write, in the order of the sinks. */
    function Productions(sinks: seq<NodeSpec>): (r: seq<(Schema, ParamAddress)>)
      ensures forall entry :: entry in r <==>
                exists node :: node in sinks && sink(node.name).Some?
                  && entry == (sink(node.name).value.schema, ParamAddress(node.name, sink(node.name).value.pathParam))
    {
      if |sinks| == 0 then []
      else
        var last := sinks[|sinks| - 1];
        assert sinks == sinks[..|sinks| - 1] + [last];
        Productions(sinks[..|sinks| - 1])
        + match sink(last.name)
          case None => []
          case Some(output) => [(output.schema, ParamAddress(last.name, output.pathParam))]
    }

    predicate Produces(spec: PipelineSpec, schema: Schema) {
      exists entry :: entry in Productions(spec.sinks) && entry.0 == schema
    }
  }

  datatype Producer = Producer(address: ParamAddress, pipeline: string)

  /** Every production of a run, leg by leg. */
  function AllProductions(lookups: NodeLookups, legs: seq<Leg>): seq<(Schema, Producer)> {
    if |legs| == 0 then []
    else
      var last := legs[|legs| - 1];
      AllProductions(lookups, legs[..|legs| - 1]) + Labelled(lookups.Productions(last.spec.sinks), last.pipeline)
  }

  /** A schema is produced at a sink's address exactly when some leg has a sink that writes it there. */
  lemma {:induction false} ProducedExactlyWhenASinkWrites(lookups: NodeLookups, legs: seq<Leg>, schema: Schema, producer: Producer)
    ensures (schema, producer) in AllProductions(lookups, legs) <==>
            exists leg, node ::
              && leg in legs && node in leg.spec.sinks && leg.pipeline == producer.pipeline
              && node.name == producer.address.node
              && lookups.sink(node.name) == Some(MappingsOutput(schema, producer.address.param))
  {
    hide NodeLookups.Productions;
    if |legs| != 0 {
      var front, last := legs[..|legs| - 1], legs[|legs| - 1];
      assert legs == front + [last];
      ProducedExactlyWhenASinkWrites(lookups, front, schema, producer);
      LabelledExactlyWhen(lookups.Productions(last.spec.sinks), last.pipeline, schema, producer);
    }
  }

  lemma LabelledExactlyWhen(productions: seq<(Schema, ParamAddress)>, pipeline: string, schema: Schema, producer: Producer)
    ensures (schema, producer) in Labelled(productions, pipeline) <==>
            pipeline == producer.pipeline && (schema, producer.address) in productions
  {
    if pipeline == producer.pipeline && (schema, producer.address) in productions {
      var i :| 0 <= i < |productions| && productions[i] == (schema, producer.address);
      assert Labelled(productions, pipeline)[i] == (schema, producer);
    }
  }

  function Labelled(productions: seq<(Schema, ParamAddress)>, pipeline: string): (r: seq<(Schema, Producer)>)
    ensures |r| == |productions|
    ensures forall i :: 0 <= i < |r| ==> r[i] == (productions[i].0, Producer(productions[i].1, pipeline))
  {
    seq(|productions|, i requires 0 <= i < |productions| => (productions[i].0, Producer(productions[i].1, pipeline)))
  }

  /** One schema is produced twice, in one pipeline or in two. */
  ghost predicate HasSecondProducer(productions: seq<(Schema, Producer)>) {
    exists i, j :: 0 <= i < j < |productions| && productions[i].0 == productions[j].0
  }

  ghost predicate AreProducers(producers: map<Schema, Producer>, productions: seq<(Schema, Producer)>) {
    && (forall schema :: schema in producers ==> (schema, producers[schema]) in productions)
    && (forall entry :: entry in productions ==> entry.0 in producers && producers[entry.0] == entry.1)
  }

  /** Each schema's producer, or None as soon as one schema has two. */
  method FoldProducedMappings(lookups: NodeLookups, legs: seq<Leg>) returns (producers: Option<map<Schema, Producer>>)
    ensures producers.None? <==> HasSecondProducer(AllProductions(lookups, legs))
    ensures producers.Some? ==> AreProducers(producers.value, AllProductions(lookups, legs))
  {
    hide AllProductions, NodeLookups.Productions;
    var productions := AllProductions(lookups, legs);
    var folded: map<Schema, Producer> := map[];
    for n := 0 to |productions|
      invariant AreProducers(folded, productions[..n])
      invariant !HasSecondProducer(productions[..n])
    {
      var (schema, producer) := productions[n];
      assert productions[..n + 1] == productions[..n] + [(schema, producer)];
      if schema in folded {
        var i :| 0 <= i < n && productions[i] == (schema, folded[schema]);
        return None;
      }
      folded := folded[schema := producer];
    }
    assert productions[..|productions|] == productions;
    producers := Some(folded);
  }

  // ---- What earlier legs derive ----

  /** The schemas the legs write, whose files a later leg need not be asked for. */
  ghost function DerivedBy(lookups: NodeLookups, legs: seq<Leg>): set<Schema> {
    set entry | entry in AllProductions(lookups, legs) :: entry.0
  }

  lemma DerivedByStep(lookups: NodeLookups, legs: seq<Leg>, n: nat)
    requires n < |legs|
    ensures AllProductions(lookups, legs[..n + 1])
            == AllProductions(lookups, legs[..n]) + Labelled(lookups.Productions(legs[n].spec.sinks), legs[n].pipeline)
    ensures forall schema :: schema in DerivedBy(lookups, legs[..n + 1]) <==>
              schema in DerivedBy(lookups, legs[..n]) || lookups.Produces(legs[n].spec, schema)
  {
    hide NodeLookups.Productions;
    assert legs[..n + 1][..n] == legs[..n];
    var own := lookups.Productions(legs[n].spec.sinks);
    var labelled := Labelled(own, legs[n].pipeline);
    forall schema ensures (exists entry :: entry in labelled && entry.0 == schema) <==> lookups.Produces(legs[n].spec, schema) {
      if entry :| entry in own && entry.0 == schema {
        var i :| 0 <= i < |own| && own[i] == entry;
        assert labelled[i] in labelled;
      }
      if entry :| entry in labelled && entry.0 == schema {
        var i :| 0 <= i < |labelled| && labelled[i] == entry;
        assert own[i] in own;
      }
    }
  }

  /** A leg needs a schema no earlier leg derives. */
  ghost predicate Lacks(lookups: NodeLookups, legs: seq<Leg>, n: int)
    requires 0 <= n < |legs|
  {
    !(lookups.SchemasForTranslate(legs[n].spec) <= DerivedBy(lookups, legs[..n]))
  }

  ghost predicate ProducesTwice(lookups: NodeLookups, leg: Leg) {
    HasSecondProducer(AllProductions(lookups, [leg]))
  }

  /** The question goes on past the leg: nothing is lacking there, and it produces no schema twice. */
  ghost predicate GoesPast(lookups: NodeLookups, legs: seq<Leg>, n: int)
    requires 0 <= n < |legs|
  {
    !Lacks(lookups, legs, n) && !ProducesTwice(lookups, legs[n])
  }

  ghost predicate StopsAt(lookups: NodeLookups, legs: seq<Leg>, n: int) {
    0 <= n < |legs| && !GoesPast(lookups, legs, n) && forall k :: 0 <= k < n ==> GoesPast(lookups, legs, k)
  }

  /** Some(true) where the first leg the question does not go past lacks a schema, None where that
      leg lacks nothing but produces a schema twice. */
  method NeedsUserMappings(lookups: NodeLookups, legs: seq<Leg>) returns (needs: Option<bool>)
    ensures !HasSecondProducer(AllProductions(lookups, legs)) ==>
              needs == Some(exists n :: 0 <= n < |legs| && Lacks(lookups, legs, n))
    ensures match needs
            case Some(false) => forall k :: 0 <= k < |legs| ==> GoesPast(lookups, legs, k)
            case Some(true) => exists n :: StopsAt(lookups, legs, n) && Lacks(lookups, legs, n)
            case None => exists n :: StopsAt(lookups, legs, n) && !Lacks(lookups, legs, n)
  {
    hide AllProductions, NodeLookups.Productions, NodeLookups.SchemasForTranslate;
    var derived: set<Schema> := {};
    NothingDerivedYet(lookups);
    assert legs[..0] == [];
    for n := 0 to |legs|
      invariant derived == DerivedBy(lookups, legs[..n])
      invariant forall k :: 0 <= k < n ==> GoesPast(lookups, legs, k)
      invariant forall k :: 0 <= k < n ==> !Lacks(lookups, legs, k)
    {
      DerivedByStep(lookups, legs, n);
      var needed := lookups.CollectSchemasForTranslate(legs[n].spec);
      if needed - derived != {} {
        assert Lacks(lookups, legs, n) by {
          var schema :| schema in needed - derived;
        }
        assert StopsAt(lookups, legs, n);
        return Some(true);
      }
      assert needed <= derived by {
        forall schema | schema in needed ensures schema in derived {
          assert schema !in needed - derived;
        }
      }
      var own := FoldProducedMappings(lookups, [legs[n]]);
      OneLegProduces(lookups, legs, n);
      if own.None? {
        assert StopsAt(lookups, legs, n) && !Lacks(lookups, legs, n);
        return None;
      }
      derived := derived + own.value.Keys;
    }
    needs := Some(false);
  }

  lemma NothingDerivedYet(lookups: NodeLookups)
    ensures DerivedBy(lookups, []) == {} && AllProductions(lookups, []) == []
  {
  }

  lemma {:induction false} ProductionsOfPrefix(lookups: NodeLookups, legs: seq<Leg>, n: nat)
    requires n <= |legs|
    ensures AllProductions(lookups, legs[..n]) <= AllProductions(lookups, legs)
    decreases |legs|
  {
    hide NodeLookups.Productions;
    if n < |legs| {
      ProductionsOfPrefix(lookups, legs[..|legs| - 1], n);
      assert legs[..|legs| - 1][..n] == legs[..n];
    } else {
      assert legs[..n] == legs;
    }
  }

  /** A leg's own productions lie together among those of the run. */
  lemma OneLegProduces(lookups: NodeLookups, legs: seq<Leg>, n: nat)
    requires n < |legs|
    ensures AllProductions(lookups, [legs[n]]) == Labelled(lookups.Productions(legs[n].spec.sinks), legs[n].pipeline)
    ensures !HasSecondProducer(AllProductions(lookups, legs)) ==> !HasSecondProducer(AllProductions(lookups, [legs[n]]))
    ensures forall schema :: (exists entry :: entry in AllProductions(lookups, [legs[n]]) && entry.0 == schema) <==>
              lookups.Produces(legs[n].spec, schema)
  {
    hide AllProductions, Labelled, HasSecondProducer, NodeLookups.Productions, NodeLookups.Produces;
    var own := Labelled(lookups.Productions(legs[n].spec.sinks), legs[n].pipeline);
    var single := [legs[n]];
    NothingDerivedYet(lookups);
    DerivedByStep(lookups, single, 0);
    assert single[..1] == single && single[..0] == [];
    assert AllProductions(lookups, single) == [] + own == own;
    DerivedByStep(lookups, legs, n);
    ProductionsOfPrefix(lookups, legs, n + 1);
    SecondProducerLater(AllProductions(lookups, legs[..n]), own, AllProductions(lookups, legs));
  }

  lemma SecondProducerLater(before: seq<(Schema, Producer)>, own: seq<(Schema, Producer)>, all: seq<(Schema, Producer)>)
    requires before + own <= all
    ensures HasSecondProducer(own) ==> HasSecondProducer(all)
  {
    if HasSecondProducer(own) {
      var i, j :| 0 <= i < j < |own| && own[i].0 == own[j].0;
      assert all[|before| + i] == own[i] && all[|before| + j] == own[j];
    }
  }

  // ---- Two producers of one schema, said of the sinks ----

  ghost predicate WritesAt(lookups: NodeLookups, sinks: seq<NodeSpec>, a: int, schema: Schema) {
    && 0 <= a < |sinks|
    && lookups.sink(sinks[a].name).Some? && lookups.sink(sinks[a].name).value.schema == schema
  }

  /** Two sinks, in one leg or in two, write one schema. */
  ghost predicate TwoSinksWrite(lookups: NodeLookups, legs: seq<Leg>, schema: Schema) {
    exists i, a, j, b ::
      && 0 <= i < |legs| && 0 <= j < |legs| && (i, a) != (j, b)
      && WritesAt(lookups, legs[i].spec.sinks, a, schema) && WritesAt(lookups, legs[j].spec.sinks, b, schema)
  }

  ghost predicate States(productions: seq<(Schema, Producer)>, schema: Schema) {
    exists entry :: entry in productions && entry.0 == schema
  }

  lemma StatesAtAPosition(productions: seq<(Schema, Producer)>, schema: Schema)
    ensures States(productions, schema) <==> exists i :: 0 <= i < |productions| && productions[i].0 == schema
  {
  }

  lemma SecondProducerOfConcat(p: seq<(Schema, Producer)>, q: seq<(Schema, Producer)>)
    ensures HasSecondProducer(p + q) <==>
            HasSecondProducer(p) || HasSecondProducer(q) || exists schema :: States(p, schema) && States(q, schema)
  {
    var both := p + q;
    if HasSecondProducer(both) {
      var i, j :| 0 <= i < j < |both| && both[i].0 == both[j].0;
      if j < |p| {
        assert p[i] == both[i] && p[j] == both[j];
      } else if i >= |p| {
        assert q[i - |p|] == both[i] && q[j - |p|] == both[j];
      } else {
        assert p[i] == both[i] && q[j - |p|] == both[j];
        assert both[i] in p && both[j] in q;
        assert States(p, both[i].0) && States(q, both[i].0);
      }
    }
    if HasSecondProducer(p) {
      SecondProducerLater(p, [], both);
      var i, j :| 0 <= i < j < |p| && p[i].0 == p[j].0;
      assert both[i] == p[i] && both[j] == p[j];
    }
    if HasSecondProducer(q) {
      SecondProducerLater(p, q, both);
    }
    if schema :| States(p, schema) && States(q, schema) {
      StatesAtAPosition(p, schema);
      StatesAtAPosition(q, schema);
      var i :| 0 <= i < |p| && p[i].0 == schema;
      var j :| 0 <= j < |q| && q[j].0 == schema;
      assert both[i] == p[i] && both[|p| + j] == q[j];
    }
  }

  ghost predicate SinksWriteTwice(lookups: NodeLookups, sinks: seq<NodeSpec>, schema: Schema) {
    exists a, b :: a != b && WritesAt(lookups, sinks, a, schema) && WritesAt(lookups, sinks, b, schema)
  }

  ghost predicate SomeSinkWrites(lookups: NodeLookups, sinks: seq<NodeSpec>, schema: Schema) {
    exists a :: WritesAt(lookups, sinks, a, schema)
  }

  lemma OneMoreSink(lookups: NodeLookups, sinks: seq<NodeSpec>, schema: Schema)
    requires |sinks| > 0
    ensures var front, n := sinks[..|sinks| - 1], |sinks| - 1;
            && (SomeSinkWrites(lookups, sinks, schema) <==>
                  SomeSinkWrites(lookups, front, schema) || WritesAt(lookups, sinks, n, schema))
            && (SinksWriteTwice(lookups, sinks, schema) <==>
                  SinksWriteTwice(lookups, front, schema)
                  || (SomeSinkWrites(lookups, front, schema) && WritesAt(lookups, sinks, n, schema)))
  {
    var front, n := sinks[..|sinks| - 1], |sinks| - 1;
    assert forall a :: a != n ==> (WritesAt(lookups, front, a, schema) <==> WritesAt(lookups, sinks, a, schema));
    assert !WritesAt(lookups, front, n, schema);
    if SinksWriteTwice(lookups, sinks, schema) && !SinksWriteTwice(lookups, front, schema) {
      var a, b :| a != b && WritesAt(lookups, sinks, a, schema) && WritesAt(lookups, sinks, b, schema);
      assert WritesAt(lookups, front, if a == n then b else a, schema);
    }
    if a :| WritesAt(lookups, front, a, schema) {
      assert WritesAt(lookups, sinks, a, schema) && a != n;
    }
    if a, b :| a != b && WritesAt(lookups, front, a, schema) && WritesAt(lookups, front, b, schema) {
      assert WritesAt(lookups, sinks, a, schema) && WritesAt(lookups, sinks, b, schema);
    }
  }

  lemma LabelledOneMore(lookups: NodeLookups, sinks: seq<NodeSpec>, pipeline: string)
    requires |sinks| > 0
    ensures var name := sinks[|sinks| - 1].name;
            Labelled(lookups.Productions(sinks), pipeline)
            == Labelled(lookups.Productions(sinks[..|sinks| - 1]), pipeline)
               + if lookups.sink(name).None? then []
                 else [(lookups.sink(name).value.schema, Producer(ParamAddress(name, lookups.sink(name).value.pathParam), pipeline))]
  {
  }

  lemma {:induction false} SinksProduce(lookups: NodeLookups, sinks: seq<NodeSpec>, pipeline: string)
    ensures forall schema :: States(Labelled(lookups.Productions(sinks), pipeline), schema) <==> SomeSinkWrites(lookups, sinks, schema)
    ensures HasSecondProducer(Labelled(lookups.Productions(sinks), pipeline)) <==>
            exists schema :: SinksWriteTwice(lookups, sinks, schema)
  {
    hide NodeLookups.Productions, Labelled, SinksWriteTwice, SomeSinkWrites, HasSecondProducer, States;
    if |sinks| == 0 {
      NoSinks(lookups, pipeline);
      assert sinks == [];
    } else {
      var front, last := sinks[..|sinks| - 1], sinks[|sinks| - 1];
      SinksProduce(lookups, front, pipeline);
      LabelledOneMore(lookups, sinks, pipeline);
      var earlier := Labelled(lookups.Productions(front), pipeline);
      var written := lookups.sink(last.name);
      var own := if written.None? then []
                 else [(written.value.schema, Producer(ParamAddress(last.name, written.value.pathParam), pipeline))];
      SecondProducerOfConcat(earlier, own);
      OneAtMost(own);
      forall schema
        ensures States(own, schema) <==> WritesAt(lookups, sinks, |sinks| - 1, schema)
        ensures States(earlier + own, schema) <==> States(earlier, schema) || States(own, schema)
      {
        OneMoreSink(lookups, sinks, schema);
        StatesOfConcat(earlier, own, schema);
        NoSinks(lookups, pipeline);
        if written.Some? {
          StatesOfOne(own[0], schema);
        }
      }
      forall schema ensures SinksWriteTwice(lookups, sinks, schema) <==>
          SinksWriteTwice(lookups, front, schema) || (States(earlier, schema) && States(own, schema))
      {
        OneMoreSink(lookups, sinks, schema);
      }
      forall schema ensures SomeSinkWrites(lookups, sinks, schema) <==>
          SomeSinkWrites(lookups, front, schema) || States(own, schema)
      {
        OneMoreSink(lookups, sinks, schema);
      }
    }
  }

  lemma NoSinks(lookups: NodeLookups, pipeline: string)
    ensures Labelled(lookups.Productions([]), pipeline) == [] && !HasSecondProducer([])
    ensures forall schema :: !SomeSinkWrites(lookups, [], schema) && !SinksWriteTwice(lookups, [], schema) && !States([], schema)
  {
  }

  lemma OneAtMost(productions: seq<(Schema, Producer)>)
    ensures |productions| <= 1 ==> !HasSecondProducer(productions)
  {
  }

  lemma StatesOfOne(entry: (Schema, Producer), schema: Schema)
    ensures States([entry], schema) <==> entry.0 == schema
  {
    assert entry in [entry];
  }

  lemma StatesOfConcat(p: seq<(Schema, Producer)>, q: seq<(Schema, Producer)>, schema: Schema)
    ensures States(p + q, schema) <==> States(p, schema) || States(q, schema)
  {
  }

  lemma OneMoreLegWrites(lookups: NodeLookups, legs: seq<Leg>, schema: Schema)
    requires |legs| > 0
    ensures SomeLegWrites(lookups, legs, schema) <==>
            SomeLegWrites(lookups, legs[..|legs| - 1], schema) || SomeSinkWrites(lookups, legs[|legs| - 1].spec.sinks, schema)
  {
    hide WritesAt;
    var n, front := |legs| - 1, legs[..|legs| - 1];
    if i, a :| 0 <= i < |legs| && WritesAt(lookups, legs[i].spec.sinks, a, schema) {
      assert i < n ==> WritesAt(lookups, front[i].spec.sinks, a, schema);
    }
    if i, a :| 0 <= i < n && WritesAt(lookups, front[i].spec.sinks, a, schema) {
      assert WritesAt(lookups, legs[i].spec.sinks, a, schema);
    }
  }

  lemma EarlierTwoSinksWrite(lookups: NodeLookups, legs: seq<Leg>, schema: Schema)
    requires |legs| > 0
    ensures var front, last := legs[..|legs| - 1], legs[|legs| - 1].spec.sinks;
            TwoSinksWrite(lookups, front, schema) || SinksWriteTwice(lookups, last, schema)
            || (SomeLegWrites(lookups, front, schema) && SomeSinkWrites(lookups, last, schema)) ==>
              TwoSinksWrite(lookups, legs, schema)
  {
    hide WritesAt;
    var n, front := |legs| - 1, legs[..|legs| - 1];
    if TwoSinksWrite(lookups, front, schema) {
      var i, a, j, b :|
        && 0 <= i < n && 0 <= j < n && (i, a) != (j, b)
        && WritesAt(lookups, front[i].spec.sinks, a, schema) && WritesAt(lookups, front[j].spec.sinks, b, schema);
      assert WritesAt(lookups, legs[i].spec.sinks, a, schema) && WritesAt(lookups, legs[j].spec.sinks, b, schema);
    } else if a, b :| a != b && WritesAt(lookups, legs[n].spec.sinks, a, schema) && WritesAt(lookups, legs[n].spec.sinks, b, schema) {
      assert (n, a) != (n, b);
    } else if i, a :| 0 <= i < n && WritesAt(lookups, front[i].spec.sinks, a, schema) {
      assert WritesAt(lookups, legs[i].spec.sinks, a, schema);
      if b :| WritesAt(lookups, legs[n].spec.sinks, b, schema) {
        assert (i, a) != (n, b);
      }
    }
  }

  lemma OneMoreLeg(lookups: NodeLookups, legs: seq<Leg>, schema: Schema)
    requires |legs| > 0
    ensures var front, last := legs[..|legs| - 1], legs[|legs| - 1].spec.sinks;
            TwoSinksWrite(lookups, legs, schema) <==>
              TwoSinksWrite(lookups, front, schema) || SinksWriteTwice(lookups, last, schema)
              || (SomeLegWrites(lookups, front, schema) && SomeSinkWrites(lookups, last, schema))
  {
    hide WritesAt;
    var n, front := |legs| - 1, legs[..|legs| - 1];
    EarlierTwoSinksWrite(lookups, legs, schema);
    if TwoSinksWrite(lookups, legs, schema) {
      var i, a, j, b :|
        && 0 <= i < |legs| && 0 <= j < |legs| && (i, a) != (j, b)
        && WritesAt(lookups, legs[i].spec.sinks, a, schema) && WritesAt(lookups, legs[j].spec.sinks, b, schema);
      assert i < n ==> WritesAt(lookups, front[i].spec.sinks, a, schema);
      assert j < n ==> WritesAt(lookups, front[j].spec.sinks, b, schema);
    }
  }

  ghost predicate SomeLegWrites(lookups: NodeLookups, legs: seq<Leg>, schema: Schema) {
    exists i, a :: 0 <= i < |legs| && WritesAt(lookups, legs[i].spec.sinks, a, schema)
  }

  /** One schema is produced twice exactly when two sinks write it, in one leg or in two. */
  lemma {:induction false} ProducedTwiceExactlyWhenTwoSinksWrite(lookups: NodeLookups, legs: seq<Leg>)
    ensures forall schema :: States(AllProductions(lookups, legs), schema) <==> SomeLegWrites(lookups, legs, schema)
    ensures HasSecondProducer(AllProductions(lookups, legs)) <==> exists schema :: TwoSinksWrite(lookups, legs, schema)
  {
    hide NodeLookups.Productions, Labelled, SinksWriteTwice, SomeSinkWrites, HasSecondProducer, States, TwoSinksWrite, SomeLegWrites;
    if |legs| == 0 {
      NoLegs(lookups);
      assert legs == [];
    } else {
      var front, last := legs[..|legs| - 1], legs[|legs| - 1];
      ProducedTwiceExactlyWhenTwoSinksWrite(lookups, front);
      SinksProduce(lookups, last.spec.sinks, last.pipeline);
      var earlier, own := AllProductions(lookups, front), Labelled(lookups.Productions(last.spec.sinks), last.pipeline);
      SecondProducerOfConcat(earlier, own);
      forall schema
        ensures States(earlier + own, schema) <==> SomeLegWrites(lookups, legs, schema)
        ensures TwoSinksWrite(lookups, legs, schema) <==>
                  TwoSinksWrite(lookups, front, schema) || SinksWriteTwice(lookups, last.spec.sinks, schema)
                  || (States(earlier, schema) && States(own, schema))
      {
        OneMoreLegWrites(lookups, legs, schema);
        OneMoreLeg(lookups, legs, schema);
        StatesOfConcat(earlier, own, schema);
      }
    }
  }

  lemma NoLegs(lookups: NodeLookups)
    ensures AllProductions(lookups, []) == [] && !HasSecondProducer([])
    ensures forall schema :: !SomeLegWrites(lookups, [], schema) && !TwoSinksWrite(lookups, [], schema) && !States([], schema)
  {
  }

  /** A plugin the leg names as source, validator or step declares the schema. */
  ghost predicate Declares(lookups: NodeLookups, leg: Leg, schema: Schema) {
    || schema in lookups.source(leg.spec.source.name)
    || (exists i :: 0 <= i < |leg.spec.validators| && schema in lookups.validator(leg.spec.validators[i].name))
    || (exists i :: 0 <= i < |leg.spec.steps| && schema in lookups.step(leg.spec.steps[i].name))
  }

  /** A leg lacks a schema exactly when it declares one that no sink of an earlier leg writes. */
  lemma LacksExactlyWhen(lookups: NodeLookups, legs: seq<Leg>, n: int)
    requires 0 <= n < |legs|
    ensures Lacks(lookups, legs, n) <==>
            exists schema :: Declares(lookups, legs[n], schema) && !SomeLegWrites(lookups, legs[..n], schema)
  {
    hide AllProductions, NodeLookups.SchemasForTranslate, SomeLegWrites, Declares;
    var needed, derived := lookups.SchemasForTranslate(legs[n].spec), DerivedBy(lookups, legs[..n]);
    ProducedTwiceExactlyWhenTwoSinksWrite(lookups, legs[..n]);
    forall schema
      ensures schema in needed <==> Declares(lookups, legs[n], schema)
      ensures schema in derived <==> SomeLegWrites(lookups, legs[..n], schema)
    {
      NeededIsDeclared(lookups, legs[n], schema);
      assert schema in derived <==> States(AllProductions(lookups, legs[..n]), schema);
    }
  }

  lemma NeededIsDeclared(lookups: NodeLookups, leg: Leg, schema: Schema)
    ensures schema in lookups.SchemasForTranslate(leg.spec) <==> Declares(lookups, leg, schema)
  {
    hide NodeLookups.SchemasForTranslate;
    lookups.NeededExactlyWhenDeclared(leg.spec, schema);
  }
}
