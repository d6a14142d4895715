/** What makes a plan refused, and what a planned param holds, said of the legs' own nodes and texts
    (interop/core/composition/planning.py). */
module PlanRules {
  import opened Common
  import opened Addressing
  import opened HandoffRouting
  import opened Planning

  /** The text `$pipeline.node.param`, of three parts none of which is empty or holds a dot. */
  ghost predicate IsTextOf(value: Value, pipeline: string, node: string, param: string) {
    && value == Text("$" + pipeline + "." + node + "." + param)
    && |pipeline| > 0 && '.' !in pipeline
    && |node| > 0 && '.' !in node
    && |param| > 0 && '.' !in param
  }

  ghost predicate StartsLikeAReference(value: Value) {
    value.Text? && |value.text| > 0 && value.text[0] == '$'
  }

  ghost function SourceStepsAndSinks(spec: PipelineSpec): seq<NodeSpec> { [spec.source] + spec.steps + spec.sinks }

  /** The `k`-th of the nodes is the only one of its name. */
  ghost predicate IsAlone(nodes: seq<NodeSpec>, k: int) {
    0 <= k < |nodes| && forall m :: 0 <= m < |nodes| && nodes[m].name == nodes[k].name ==> m == k
  }

  /** Of the legs running the pipeline, the first: its one node of that name states `value`. */
  ghost predicate States(legs: seq<Leg>, pipeline: string, node: string, param: string, value: Value) {
    exists j, k ::
      && IsFirstOf(legs, pipeline, j)
      && IsAlone(SourceStepsAndSinks(legs[j].spec), k)
      && var stating := SourceStepsAndSinks(legs[j].spec)[k];
         stating.name == node && param in stating.params && stating.params[param] == value
  }

  ghost predicate IsFirstOf(legs: seq<Leg>, pipeline: string, j: int) {
    0 <= j < |legs| && legs[j].pipeline == pipeline && forall h :: 0 <= h < j ==> legs[h].pipeline != pipeline
  }

  // ---- Texts ----

  lemma ParsesAsItsText(value: Value, pipeline: string, node: string, param: string)
    ensures ParseReference(value) == Refers(Reference(pipeline, ParamAddress(node, param)))
            <==> IsTextOf(value, pipeline, node, param)
    ensures ParseReference(value) == NoReference <==> !StartsLikeAReference(value)
  {
    hide Split;
    var reference := Reference(pipeline, ParamAddress(node, param));
    assert PrintReference(reference) == "$" + pipeline + "." + node + "." + param;
    ParsingAPrintedReference(reference);
    if ParseReference(value) == Refers(reference) {
      PrintingAParsedReference(value.text, reference);
    }
  }

  // ---- The leg and the node a reference names ----

  lemma {:induction false} LegNamedIsTheFirst(legs: seq<Leg>, pipeline: string, j: int)
    ensures IsFirstOf(legs, pipeline, j) ==> LegNamed(pipeline, legs) == Success(legs[j])
    ensures LegNamed(pipeline, legs).Success? ==> exists i :: IsFirstOf(legs, pipeline, i)
  {
    if |legs| != 0 {
      LegNamedIsTheFirst(legs[1..], pipeline, j - 1);
      if legs[0].pipeline == pipeline {
        assert IsFirstOf(legs, pipeline, 0);
      } else if i :| IsFirstOf(legs[1..], pipeline, i) {
        assert IsFirstOf(legs, pipeline, i + 1);
      }
      assert 0 < j < |legs| ==> legs[1..][j - 1] == legs[j];
      if IsFirstOf(legs, pipeline, j) && j > 0 {
        assert forall h :: 0 <= h < j - 1 ==> legs[1..][h] == legs[h + 1];
      }
    }
  }

  lemma {:induction false} AloneIsFiltered(nodes: seq<NodeSpec>, k: nat)
    requires IsAlone(nodes, k)
    ensures Filter(nodes, HasName(nodes[k].name)) == [nodes[k]]
  {
    var name, front, rest := nodes[k].name, nodes[..k], nodes[k + 1..];
    assert nodes == front + [nodes[k]] + rest;
    FilterConcat(front + [nodes[k]], rest, HasName(name));
    FilterConcat(front, [nodes[k]], HasName(name));
    FilterNone(front, HasName(name));
    FilterNone(rest, HasName(name));
    FilterAll([nodes[k]], HasName(name));
  }

  lemma FoundNodeIsTheOneNamed(spec: PipelineSpec, name: string)
    ensures FindNode(spec, name).Success? ==>
              exists k :: IsAlone(SourceStepsAndSinks(spec), k) && SourceStepsAndSinks(spec)[k].name == name
                          && FindNode(spec, name) == Success(SourceStepsAndSinks(spec)[k])
    ensures forall k :: IsAlone(SourceStepsAndSinks(spec), k) && SourceStepsAndSinks(spec)[k].name == name ==>
              FindNode(spec, name) == Success(SourceStepsAndSinks(spec)[k])
  {
    hide Filter;
    var nodes := SourceStepsAndSinks(spec);
    assert nodes == NodesOf(spec);
    if FindNode(spec, name).Success? {
      var found := FindNode(spec, name).value;
      assert found in Filter(nodes, HasName(name)) && HasName(name)(found);
      var k :| 0 <= k < |nodes| && nodes[k] == found;
      forall m | 0 <= m < |nodes| && nodes[m].name == name ensures m == k {
        FoundNodeIsAlone(spec, name, m, k);
      }
      assert IsAlone(nodes, k);
    }
    forall k | IsAlone(nodes, k) && nodes[k].name == name ensures FindNode(spec, name) == Success(nodes[k]) {
      AloneIsFiltered(nodes, k);
    }
  }

  /** What a reference reads is what the first leg of its pipeline states in its one node of that name. */
  lemma ReferenceReadsWhatIsStated(legs: seq<Leg>, reference: Reference, value: Value)
    ensures (LegNamed(reference.pipeline, legs).Success?
             && ReadParam(LegNamed(reference.pipeline, legs).value.spec, reference.address) == Success(value))
            <==> States(legs, reference.pipeline, reference.address.node, reference.address.param, value)
  {
    hide FindNode, SourceStepsAndSinks, LegNamed;
    var Reference(pipeline, ParamAddress(node, param)) := reference;
    if LegNamed(pipeline, legs).Success? && ReadParam(LegNamed(pipeline, legs).value.spec, reference.address) == Success(value) {
      LegNamedIsTheFirst(legs, pipeline, 0);
      var j :| IsFirstOf(legs, pipeline, j);
      LegNamedIsTheFirst(legs, pipeline, j);
      FoundNodeIsTheOneNamed(legs[j].spec, node);
    }
    if States(legs, pipeline, node, param, value) {
      var j, k :|
        && IsFirstOf(legs, pipeline, j)
        && IsAlone(SourceStepsAndSinks(legs[j].spec), k)
        && var stating := SourceStepsAndSinks(legs[j].spec)[k];
           stating.name == node && param in stating.params && stating.params[param] == value;
      LegNamedIsTheFirst(legs, pipeline, j);
      FoundNodeIsTheOneNamed(legs[j].spec, node);
    }
  }

  // ---- Every reference points at a param ----

  ghost predicate IsParamOf(leg: Leg, node: NodeSpec, param: string) {
    node in SourceStepsAndSinks(leg.spec) && param in node.params
  }

  ghost predicate PointsAtAParam(legs: seq<Leg>, value: Value) {
    exists pipeline, node, param, stated ::
      IsTextOf(value, pipeline, node, param) && States(legs, pipeline, node, param, stated)
  }

  ghost predicate EveryReferencePoints(legs: seq<Leg>) {
    forall leg, node, param :: leg in legs && IsParamOf(leg, node, param) && StartsLikeAReference(node.params[param]) ==>
      PointsAtAParam(legs, node.params[param])
  }

  lemma PointsExactlyWhenItReads(legs: seq<Leg>, value: Value)
    ensures PointsAtAParam(legs, value) <==>
              && IsReference(value)
              && var reference := ParseReference(value).reference;
                 LegNamed(reference.pipeline, legs).Success?
                 && ReadParam(LegNamed(reference.pipeline, legs).value.spec, reference.address).Success?
  {
    hide ParseReference, LegNamed, ReadParam, States, IsTextOf;
    if IsReference(value) {
      var Reference(pipeline, ParamAddress(node, param)) := ParseReference(value).reference;
      ParsesAsItsText(value, pipeline, node, param);
      forall stated ensures States(legs, pipeline, node, param, stated) <==>
                              LegNamed(pipeline, legs).Success?
                              && ReadParam(LegNamed(pipeline, legs).value.spec, ParamAddress(node, param)) == Success(stated)
      {
        ReferenceReadsWhatIsStated(legs, ParseReference(value).reference, stated);
      }
    }
    if pipeline, node, param, stated :|
      IsTextOf(value, pipeline, node, param) && States(legs, pipeline, node, param, stated)
    {
      ParsesAsItsText(value, pipeline, node, param);
      ReferenceReadsWhatIsStated(legs, Reference(pipeline, ParamAddress(node, param)), stated);
    }
  }

  lemma MalformedStartsLikeOne(value: Value)
    ensures StartsLikeAReference(value) <==> ParseReference(value) != NoReference
  {
  }

  lemma TargetsExistExactlyWhen(legs: seq<Leg>)
    ensures TargetsExist(legs) <==> EveryReferencePoints(legs)
  {
    hide ParseReference, LegNamed, ReadParam, PointsAtAParam, StartsLikeAReference;
    if TargetsExist(legs) {
      forall leg, node, param | leg in legs && IsParamOf(leg, node, param) && StartsLikeAReference(node.params[param])
        ensures PointsAtAParam(legs, node.params[param])
      {
        MalformedStartsLikeOne(node.params[param]);
        PointsExactlyWhenItReads(legs, node.params[param]);
        assert ParseReference(node.params[param]) != Malformed;
        var entry := (ParamAddress(node.name, param), ParseReference(node.params[param]).reference);
        assert entry in PendingReferences(leg.spec);
      }
    }
    if EveryReferencePoints(legs) {
      forall leg | leg in legs ensures LegPoints(leg, legs) {
        LegPointsWhereItsParamsDo(leg, legs);
      }
    }
  }

  ghost predicate LegPoints(leg: Leg, legs: seq<Leg>) {
    && !HasMalformed(leg.spec)
    && forall entry :: entry in PendingReferences(leg.spec) ==>
         && LegNamed(entry.1.pipeline, legs).Success?
         && ReadParam(LegNamed(entry.1.pipeline, legs).value.spec, entry.1.address).Success?
  }

  lemma LegPointsWhereItsParamsDo(leg: Leg, legs: seq<Leg>)
    requires leg in legs && EveryReferencePoints(legs)
    ensures LegPoints(leg, legs)
  {
    hide ParseReference, LegNamed, ReadParam, PointsAtAParam, StartsLikeAReference;
    forall node, param | node in NodesOf(leg.spec) && param in node.params && ParseReference(node.params[param]) != NoReference
      ensures IsReference(node.params[param])
      ensures var reference := ParseReference(node.params[param]).reference;
              LegNamed(reference.pipeline, legs).Success?
              && ReadParam(LegNamed(reference.pipeline, legs).value.spec, reference.address).Success?
    {
      MalformedStartsLikeOne(node.params[param]);
      assert IsParamOf(leg, node, param);
      PointsExactlyWhenItReads(legs, node.params[param]);
    }
  }

  // ---- Every reference, overrides applied, names a value ----

  ghost predicate NamesAValue(legs: seq<Leg>, value: Value) {
    exists pipeline, node, param, stated ::
      IsTextOf(value, pipeline, node, param) && States(legs, pipeline, node, param, stated) && !StartsLikeAReference(stated)
  }

  ghost predicate LegNamesValues(leg: Leg, legs: seq<Leg>) {
    var nodes := SourceStepsAndSinks(leg.spec);
    forall k, param :: 0 <= k < |nodes| && param in nodes[k].params && StartsLikeAReference(nodes[k].params[param]) ==>
      IsAlone(nodes, k) && NamesAValue(legs, nodes[k].params[param])
  }

  lemma NamesAValueExactlyWhenItResolves(legs: seq<Leg>, value: Value)
    requires StartsLikeAReference(value)
    ensures NamesAValue(legs, value) <==> ResolvedValue(value, legs).Success?
    ensures forall pipeline, node, param, stated ::
              IsTextOf(value, pipeline, node, param) && States(legs, pipeline, node, param, stated)
              ==> ResolvedValue(value, legs).Failure? || ResolvedValue(value, legs) == Success(stated)
  {
    hide ParseReference, LegNamed, ReadParam, States, IsTextOf, StartsLikeAReference;
    MalformedStartsLikeOne(value);
    if IsReference(value) {
      var Reference(pipeline, ParamAddress(node, param)) := ParseReference(value).reference;
      ParsesAsItsText(value, pipeline, node, param);
      if ResolvedValue(value, legs).Success? {
        var stated := ResolvedValue(value, legs).value;
        ReferenceReadsWhatIsStated(legs, ParseReference(value).reference, stated);
        MalformedStartsLikeOne(stated);
        assert States(legs, pipeline, node, param, stated);
      }
    }
    forall pipeline, node, param, stated |
      IsTextOf(value, pipeline, node, param) && States(legs, pipeline, node, param, stated)
      ensures ResolvedValue(value, legs).Success? <==> !StartsLikeAReference(stated)
      ensures ResolvedValue(value, legs).Success? ==> ResolvedValue(value, legs) == Success(stated)
    {
      ParsesAsItsText(value, pipeline, node, param);
      ReferenceReadsWhatIsStated(legs, Reference(pipeline, ParamAddress(node, param)), stated);
      MalformedStartsLikeOne(stated);
    }
  }

  lemma LegResolvesExactlyWhen(leg: Leg, legs: seq<Leg>)
    ensures LegResolves(leg, legs) <==> LegNamesValues(leg, legs)
  {
    hide ParseReference, ResolvedValue, NamesAValue, StartsLikeAReference, FindNode;
    var nodes := SourceStepsAndSinks(leg.spec);
    assert nodes == NodesOf(leg.spec);
    forall k, param | 0 <= k < |nodes| && param in nodes[k].params
      ensures (ResolvedValue(nodes[k].params[param], legs).Success?
               && (IsReference(nodes[k].params[param]) ==> FindNode(leg.spec, nodes[k].name).Success?))
              <==> (StartsLikeAReference(nodes[k].params[param]) ==>
                      IsAlone(nodes, k) && NamesAValue(legs, nodes[k].params[param]))
    {
      ParamResolvesExactlyWhen(leg, legs, k, param);
    }
  }

  lemma ParamResolvesExactlyWhen(leg: Leg, legs: seq<Leg>, k: nat, param: string)
    requires k < |SourceStepsAndSinks(leg.spec)| && param in SourceStepsAndSinks(leg.spec)[k].params
    ensures var nodes := SourceStepsAndSinks(leg.spec);
            var value := nodes[k].params[param];
            (ResolvedValue(value, legs).Success? && (IsReference(value) ==> FindNode(leg.spec, nodes[k].name).Success?))
            <==> (StartsLikeAReference(value) ==> IsAlone(nodes, k) && NamesAValue(legs, value))
  {
    hide ParseReference, NamesAValue, StartsLikeAReference, FindNode, ReferencedValue;
    var nodes := SourceStepsAndSinks(leg.spec);
    var value := nodes[k].params[param];
    MalformedStartsLikeOne(value);
    if StartsLikeAReference(value) {
      NamesAValueExactlyWhenItResolves(legs, value);
      FoundNodeIsTheOneNamed(leg.spec, nodes[k].name);
    }
  }

  // ---- Consecutive translation legs ----

  /** Two translation legs with none between. */
  ghost predicate AreConsecutive(legs: seq<Leg>, i: int, j: int) {
    && 0 <= i < j < |legs|
    && legs[i].kind == TranslationLeg && legs[j].kind == TranslationLeg
    && forall k :: i < k < j ==> legs[k].kind == MappingLeg
  }

  lemma {:induction false} LastTranslation(legs: seq<Leg>) returns (i: int)
    requires |Filter(legs, IsTranslation)| > 0
    ensures 0 <= i < |legs| && legs[i].kind == TranslationLeg && forall k :: i < k < |legs| ==> legs[k].kind == MappingLeg
    ensures var kept := Filter(legs, IsTranslation); kept[|kept| - 1] == legs[i]
  {
    i := |legs| - 1;
    if legs[i].kind != TranslationLeg {
      i := LastTranslation(legs[..|legs| - 1]);
    }
  }

  lemma {:induction false} NeighboursAreConsecutive(legs: seq<Leg>, n: nat) returns (i: int, j: int)
    requires n + 1 < |Filter(legs, IsTranslation)|
    ensures AreConsecutive(legs, i, j)
    ensures legs[i] == Filter(legs, IsTranslation)[n] && legs[j] == Filter(legs, IsTranslation)[n + 1]
  {
    var front := legs[..|legs| - 1];
    FilterSnoc(legs, IsTranslation);
    if n + 1 < |Filter(front, IsTranslation)| {
      i, j := NeighboursAreConsecutive(front, n);
    } else {
      j := |legs| - 1;
      i := LastTranslation(front);
    }
  }

  lemma {:induction false} ConsecutiveAreNeighbours(legs: seq<Leg>, i: int, j: int) returns (n: nat)
    requires AreConsecutive(legs, i, j)
    ensures n + 1 < |Filter(legs, IsTranslation)|
    ensures legs[i] == Filter(legs, IsTranslation)[n] && legs[j] == Filter(legs, IsTranslation)[n + 1]
  {
    hide Filter;
    var before, between, after := legs[..i + 1], legs[i + 1..j], legs[j..];
    assert legs == before + (between + after);
    FilterConcat(before, between + after, IsTranslation);
    FilterConcat(between, after, IsTranslation);
    FilterNone(between, IsTranslation);
    assert before == legs[..i] + [legs[i]] && after == [legs[j]] + legs[j + 1..];
    FilterConcat(legs[..i], [legs[i]], IsTranslation);
    FilterConcat([legs[j]], legs[j + 1..], IsTranslation);
    FilterAll([legs[i]], IsTranslation);
    FilterAll([legs[j]], IsTranslation);
    n := |Filter(legs[..i], IsTranslation)|;
  }

  ghost predicate FrameworksMeet(legs: seq<Leg>) {
    forall i, j :: AreConsecutive(legs, i, j) ==> legs[i].spec.destinationFramework == legs[j].spec.sourceFramework
  }

  /** Some param of the leg is a reference to the pipeline. */
  ghost predicate RefersTo(leg: Leg, pipeline: string) {
    exists node, param, n, p :: IsParamOf(leg, node, param) && IsTextOf(node.params[param], pipeline, n, p)
  }

  ghost predicate EachRefersToTheOneBefore(legs: seq<Leg>) {
    forall i, j :: AreConsecutive(legs, i, j) ==> RefersTo(legs[j], legs[i].pipeline)
  }

  lemma FrameworksMeetExactlyWhen(legs: seq<Leg>)
    ensures BoundariesAgree(Filter(legs, IsTranslation)) <==> FrameworksMeet(legs)
  {
    hide AreConsecutive, Filter;
    var kept := Filter(legs, IsTranslation);
    if BoundariesAgree(kept) {
      forall i, j | AreConsecutive(legs, i, j)
        ensures 0 <= i < j < |legs| && legs[i].spec.destinationFramework == legs[j].spec.sourceFramework
      {
        assert 0 <= i < j < |legs| by { IndicesOfConsecutive(legs, i, j); }
        var n := ConsecutiveAreNeighbours(legs, i, j);
      }
    }
    if FrameworksMeet(legs) {
      forall n | 0 <= n < |kept| - 1 ensures kept[n].spec.destinationFramework == kept[n + 1].spec.sourceFramework {
        var i, j := NeighboursAreConsecutive(legs, n);
        IndicesOfConsecutive(legs, i, j);
      }
    }
  }

  lemma IndicesOfConsecutive(legs: seq<Leg>, i: int, j: int)
    requires AreConsecutive(legs, i, j)
    ensures 0 <= i < j < |legs|
  {
  }

  lemma RefersToExactlyWhen(leg: Leg, pipeline: string)
    ensures RefersTo(leg, pipeline) <==> RefersToPipeline(leg, pipeline)
  {
    hide ParseReference, IsTextOf;
    if entry :| entry in PendingReferences(leg.spec) && entry.1.pipeline == pipeline {
      var node, param :| node in NodesOf(leg.spec) && param in node.params && IsReference(node.params[param])
                         && entry == (ParamAddress(node.name, param), ParseReference(node.params[param]).reference);
      var Reference(_, ParamAddress(n, p)) := entry.1;
      ParsesAsItsText(node.params[param], pipeline, n, p);
      assert IsParamOf(leg, node, param);
    }
    if node, param, n, p :| IsParamOf(leg, node, param) && IsTextOf(node.params[param], pipeline, n, p) {
      ParsesAsItsText(node.params[param], pipeline, n, p);
      var entry := (ParamAddress(node.name, param), Reference(pipeline, ParamAddress(n, p)));
      assert entry in PendingReferences(leg.spec);
    }
  }

  lemma WiredExactlyWhen(legs: seq<Leg>)
    ensures IsWired(Filter(legs, IsTranslation)) <==> EachRefersToTheOneBefore(legs)
  {
    hide AreConsecutive, Filter, RefersTo, RefersToPipeline;
    var kept := Filter(legs, IsTranslation);
    forall leg, pipeline ensures RefersTo(leg, pipeline) <==> RefersToPipeline(leg, pipeline) {
      RefersToExactlyWhen(leg, pipeline);
    }
    if IsWired(kept) {
      forall i, j | AreConsecutive(legs, i, j) ensures 0 <= i < j < |legs| && RefersTo(legs[j], legs[i].pipeline) {
        IndicesOfConsecutive(legs, i, j);
        var n := ConsecutiveAreNeighbours(legs, i, j);
      }
    }
    if EachRefersToTheOneBefore(legs) {
      forall n | 0 <= n < |kept| - 1 ensures RefersToPipeline(kept[n + 1], kept[n].pipeline) {
        var i, j := NeighboursAreConsecutive(legs, n);
        IndicesOfConsecutive(legs, i, j);
        assert RefersTo(legs[j], legs[i].pipeline);
      }
    }
  }

  // ---- The rules of a plan ----

  /** Overrides reach the first translation leg's steps and the last one's sinks, and steps only
      where those are one leg. */
  ghost predicate OverridesFit(legs: seq<Leg>, overrides: NodeOverrides, first: int, last: int)
    requires 0 <= first < |legs| && 0 <= last < |legs|
  {
    && (overrides.steps == map[] || first == last)
    && (forall position :: position in overrides.steps ==> 0 <= position < |legs[first].spec.steps|)
    && (forall position :: position in overrides.sinks ==> 0 <= position < |legs[last].spec.sinks|)
  }

  ghost predicate IsFirstTranslation(legs: seq<Leg>, i: int) {
    0 <= i < |legs| && legs[i].kind == TranslationLeg && forall k :: 0 <= k < i ==> legs[k].kind == MappingLeg
  }

  ghost predicate IsLastTranslation(legs: seq<Leg>, i: int) {
    0 <= i < |legs| && legs[i].kind == TranslationLeg && forall k :: i < k < |legs| ==> legs[k].kind == MappingLeg
  }

  lemma OverridesApplyExactlyWhen(legs: seq<Leg>, overrides: NodeOverrides, first: int, last: int)
    requires IsFirstTranslation(legs, first) && IsLastTranslation(legs, last)
    requires exists leg :: leg in legs && leg.kind == TranslationLeg
    ensures ApplyRunOverrides(legs, overrides).Success? <==> OverridesFit(legs, overrides, first, last)
    ensures ApplyRunOverrides(legs, overrides) == Failure(OverrideIndexError) <==>
              (overrides.steps == map[] || first == last) && !OverridesFit(legs, overrides, first, last)
  {
    hide Merge, MergeAll;
    FinalIsATranslation(legs);
    assert FirstTranslation(legs) == first;
    assert FinalOf(legs) == last;
  }

  ghost predicate AreTheSamePipelines(a: seq<Leg>, b: seq<Leg>) {
    |a| == |b| && forall i :: 0 <= i < |a| ==>
      a[i].pipeline == b[i].pipeline && a[i].spec == b[i].spec && a[i].kind == b[i].kind
  }

  lemma SameStatements(a: seq<Leg>, b: seq<Leg>, value: Value)
    requires AreTheSamePipelines(a, b) && PointsAtAParam(a, value)
    ensures PointsAtAParam(b, value)
  {
    hide IsTextOf, SourceStepsAndSinks;
    var pipeline, node, param, stated :| IsTextOf(value, pipeline, node, param) && States(a, pipeline, node, param, stated);
    var j, k :|
      && IsFirstOf(a, pipeline, j)
      && IsAlone(SourceStepsAndSinks(a[j].spec), k)
      && var stating := SourceStepsAndSinks(a[j].spec)[k];
         stating.name == node && param in stating.params && stating.params[param] == stated;
    assert IsFirstOf(b, pipeline, j);
    assert IsAlone(SourceStepsAndSinks(b[j].spec), k);
    assert States(b, pipeline, node, param, stated);
  }

  lemma SameRules(a: seq<Leg>, b: seq<Leg>)
    requires AreTheSamePipelines(a, b)
    ensures FrameworksMeet(a) ==> FrameworksMeet(b)
    ensures EveryReferencePoints(a) ==> EveryReferencePoints(b)
    ensures EachRefersToTheOneBefore(a) ==> EachRefersToTheOneBefore(b)
  {
    hide PointsAtAParam, RefersTo, StartsLikeAReference;
    assert forall i, j :: AreConsecutive(b, i, j) ==> AreConsecutive(a, i, j);
    if EveryReferencePoints(a) {
      forall leg, node, param | leg in b && IsParamOf(leg, node, param) && StartsLikeAReference(node.params[param])
        ensures PointsAtAParam(b, node.params[param])
      {
        var i :| 0 <= i < |b| && b[i] == leg;
        SameParams(a[i], leg, node, param);
        assert a[i] in a;
        SameStatements(a, b, node.params[param]);
      }
    }
    if EachRefersToTheOneBefore(a) {
      forall i, j | AreConsecutive(b, i, j) ensures RefersTo(b[j], b[i].pipeline) {
        assert RefersTo(a[j], a[i].pipeline);
        SameReference(a[j], b[j], a[i].pipeline);
      }
    }
  }

  lemma SameParams(a: Leg, b: Leg, node: NodeSpec, param: string)
    requires a.spec == b.spec
    ensures IsParamOf(a, node, param) <==> IsParamOf(b, node, param)
  {
  }

  lemma SameReference(a: Leg, b: Leg, pipeline: string)
    requires a.spec == b.spec && RefersTo(a, pipeline)
    ensures RefersTo(b, pipeline)
  {
    var node, param, n, p :| IsParamOf(a, node, param) && IsTextOf(node.params[param], pipeline, n, p);
    assert IsParamOf(b, node, param);
  }

  ghost predicate IsComposed(legs: seq<Leg>) {
    FrameworksMeet(legs) && EveryReferencePoints(legs) && EachRefersToTheOneBefore(legs)
  }

  lemma ComposedExactlyWhen(planned: seq<Leg>)
    ensures IsComposed(planned) <==>
            var routed := RoutedLegs(planned);
            BoundariesAgree(Filter(routed, IsTranslation)) && TargetsExist(routed) && IsWired(Filter(routed, IsTranslation))
  {
    hide FrameworksMeet, EveryReferencePoints, EachRefersToTheOneBefore, BoundariesAgree, TargetsExist, IsWired, Filter;
    var routed := RoutedLegs(planned);
    SameRules(planned, routed);
    SameRules(routed, planned);
    FrameworksMeetExactlyWhen(routed);
    TargetsExistExactlyWhen(routed);
    WiredExactlyWhen(routed);
  }

  /** A plan is accepted exactly when consecutive translation legs meet in one framework, each
      reference of the given legs points at a param and each translation leg has one to the leg
      before it, the overrides fit, and with them applied every reference names a value that is
      no reference and stands in a node alone of its name. Of the errors, the override's own is
      given exactly where the legs compose and only a position is wrong. */
  lemma AcceptedExactlyWhen(planned: seq<Leg>, overrides: NodeOverrides, first: int, last: int)
    requires IsFirstTranslation(planned, first) && IsLastTranslation(planned, last)
    requires exists leg :: leg in planned && leg.kind == TranslationLeg
    ensures Refusal(planned, overrides).None? <==>
            && IsComposed(planned) && OverridesFit(planned, overrides, first, last)
            && OverriddenPlan(planned, overrides).Success?
            && var overridden := OverriddenPlan(planned, overrides).value;
               forall leg :: leg in overridden ==> LegNamesValues(leg, overridden)
    ensures Refusal(planned, overrides) == Some(OverrideIndexError) <==>
            && IsComposed(planned)
            && (overrides.steps == map[] || first == last)
            && !OverridesFit(planned, overrides, first, last)
  {
    hide IsComposed, OverridesFit, LegResolves, LegNamesValues, ApplyRunOverrides, Filter, TargetsExist, IsWired, BoundariesAgree;
    ComposedExactlyWhen(planned);
    RoutedHasATranslation(planned);
    var routed := RoutedLegs(planned);
    OverridesOfRouted(planned, overrides, first, last);
    if ApplyRunOverrides(routed, overrides).Success? {
      var overridden := ApplyRunOverrides(routed, overrides).value;
      forall leg | leg in overridden ensures LegResolves(leg, overridden) <==> LegNamesValues(leg, overridden) {
        LegResolvesExactlyWhen(leg, overridden);
      }
    }
  }

  /** The legs, routed and with the run's overrides applied. */
  ghost function OverriddenPlan(planned: seq<Leg>, overrides: NodeOverrides): Result<seq<Leg>, PlanError>
    requires exists leg :: leg in planned && leg.kind == TranslationLeg
  {
    RoutedHasATranslation(planned);
    ApplyRunOverrides(RoutedLegs(planned), overrides)
  }

  lemma OverridesOfRouted(planned: seq<Leg>, overrides: NodeOverrides, first: int, last: int)
    requires IsFirstTranslation(planned, first) && IsLastTranslation(planned, last)
    requires exists leg :: leg in planned && leg.kind == TranslationLeg
    ensures var result := OverriddenPlan(planned, overrides);
            && (result.Success? <==> OverridesFit(planned, overrides, first, last))
            && (result == Failure(OverrideIndexError) <==>
                  (overrides.steps == map[] || first == last) && !OverridesFit(planned, overrides, first, last))
  {
    hide ApplyRunOverrides, DirectoryOf, UpstreamOf, FinalOf;
    RoutedHasATranslation(planned);
    OverridesApplyExactlyWhen(RoutedLegs(planned), overrides, first, last);
  }

  /** A planned param is no reference. One that was such a text, overrides applied, holds what the
      first leg of that pipeline states in its one node of that name, and any other is as it was. */
  lemma PlannedParamIsTheOneStated(planned: seq<Leg>, overrides: NodeOverrides, i: nat, k: nat,
                                   param: string, pipeline: string, named: string, key: string)
    requires exists leg :: leg in planned && leg.kind == TranslationLeg
    requires Refusal(planned, overrides).None? && i < |PlannedLegs(planned, overrides)|
    requires k < |SourceStepsAndSinks(PlannedLegs(planned, overrides)[i].spec)|
    ensures var overridden := OverriddenLegs(planned, overrides);
            && i < |overridden| && k < |SourceStepsAndSinks(overridden[i].spec)|
            && var was, now := SourceStepsAndSinks(overridden[i].spec)[k], SourceStepsAndSinks(PlannedLegs(planned, overrides)[i].spec)[k];
               && now.name == was.name && now.params.Keys == was.params.Keys
               && (param in was.params ==>
                     && !StartsLikeAReference(now.params[param])
                     && (!StartsLikeAReference(was.params[param]) ==> now.params[param] == was.params[param])
                     && (IsTextOf(was.params[param], pipeline, named, key) ==>
                           States(overridden, pipeline, named, key, now.params[param])))
  {
    hide OverriddenLegs, ReadParam, ParseReference, LegNamed, PlannedLegs, Refusal, States, IsTextOf, StartsLikeAReference;
    PlannedParamsAreValues(planned, overrides, i, k);
    var overridden := OverriddenLegs(planned, overrides);
    var was, now := NodesOf(overridden[i].spec)[k], NodesOf(PlannedLegs(planned, overrides)[i].spec)[k];
    if param in was.params {
      ParsesAsItsText(was.params[param], pipeline, named, key);
      assert HoldsItsValue(now.params[param], was.params[param], overridden);
      MalformedStartsLikeOne(was.params[param]);
      MalformedStartsLikeOne(now.params[param]);
      ReferenceReadsWhatIsStated(overridden, Reference(pipeline, ParamAddress(named, key)), now.params[param]);
    }
  }

  /** A reference to a pipeline no leg runs refuses the plan. */
  lemma NoSuchPipelineRefuses(planned: seq<Leg>, overrides: NodeOverrides, leg: Leg, node: NodeSpec,
                              param: string, pipeline: string, named: string, key: string)
    requires exists leg :: leg in planned && leg.kind == TranslationLeg
    requires leg in planned && IsParamOf(leg, node, param) && IsTextOf(node.params[param], pipeline, named, key)
    requires forall other :: other in planned ==> other.pipeline != pipeline
    ensures Refusal(planned, overrides) == Some(CompositionError)
  {
    hide ApplyRunOverrides, LegResolves, BoundariesAgree, TargetsExist, IsWired, Filter, FrameworksMeet, EachRefersToTheOneBefore;
    ComposedExactlyWhen(planned);
    var value := node.params[param];
    ParsesAsItsText(value, pipeline, named, key);
    forall p, n, q, stated | IsTextOf(value, p, n, q) ensures !States(planned, p, n, q, stated) {
      ParsesAsItsText(value, p, n, q);
      NoLegStatesNothing(planned, p, n, q, stated);
    }
    assert !PointsAtAParam(planned, value);
  }

  lemma NoLegStatesNothing(legs: seq<Leg>, pipeline: string, node: string, param: string, stated: Value)
    requires forall leg :: leg in legs ==> leg.pipeline != pipeline
    ensures !States(legs, pipeline, node, param, stated)
  {
    assert forall j :: 0 <= j < |legs| ==> legs[j] in legs;
  }
}
