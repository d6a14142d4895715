/** Turning a composed manifest's legs into a plan ready to run
    (interop/core/composition/planning.py and interop/core/cli_overrides.py). */
module Planning {
  import opened Common
  import opened Addressing
  import opened HandoffRouting

  // ---- Overrides ----

  type Params = map<string, Value>

  // The keys of `steps` and `sinks` are positions in the pipeline's lists.
  datatype NodeOverrides = NodeOverrides(source: Params, steps: map<int, Params>, sinks: map<int, Params>)

  function Merge(node: NodeSpec, overrides: Params): NodeSpec {
    if overrides == map[] then node else NodeSpec(node.name, node.params + overrides)
  }

  function OverridesAt(overrides: map<int, Params>, position: int): Params {
    if position in overrides then overrides[position] else map[]
  }

  predicate AreIndices(overrides: map<int, Params>, count: nat) {
    forall position :: position in overrides ==> 0 <= position < count
  }

  function MergeAll(nodes: seq<NodeSpec>, overrides: map<int, Params>): (r: seq<NodeSpec>)
    ensures |r| == |nodes|
    ensures forall i :: 0 <= i < |r| ==> r[i] == Merge(nodes[i], OverridesAt(overrides, i))
  {
    seq(|nodes|, i requires 0 <= i < |nodes| => Merge(nodes[i], OverridesAt(overrides, i)))
  }

  function ApplyOverrides(spec: PipelineSpec, overrides: NodeOverrides): Result<PipelineSpec, PlanError> {
    if !AreIndices(overrides.steps, |spec.steps|) || !AreIndices(overrides.sinks, |spec.sinks|) then
      Failure(OverrideIndexError)
    else
      Success(spec.(
        source := Merge(spec.source, overrides.source),
        steps := MergeAll(spec.steps, overrides.steps),
        sinks := MergeAll(spec.sinks, overrides.sinks)))
  }

  function FirstTranslation(planned: seq<Leg>): (i: nat)
    requires exists leg :: leg in planned && leg.kind == TranslationLeg
    ensures i < |planned| && planned[i].kind == TranslationLeg
    ensures forall k :: 0 <= k < i ==> planned[k].kind != TranslationLeg
  {
    if planned[0].kind == TranslationLeg then 0
    else
      assert planned == [planned[0]] + planned[1..];
      1 + FirstTranslation(planned[1..])
  }

  lemma FinalIsATranslation(planned: seq<Leg>)
    requires exists leg :: leg in planned && leg.kind == TranslationLeg
    ensures FirstTranslation(planned) <= FinalOf(planned) < |planned|
    ensures planned[FinalOf(planned)].kind == TranslationLeg
  {
  }

  /** Source and step overrides go to the first translation leg, sink overrides to the last. With
      more than one translation leg any step override is refused. */
  function ApplyRunOverrides(planned: seq<Leg>, overrides: NodeOverrides): Result<seq<Leg>, PlanError>
    requires exists leg :: leg in planned && leg.kind == TranslationLeg
  {
    FinalIsATranslation(planned);
    var first, last := FirstTranslation(planned), FinalOf(planned);
    if overrides.steps != map[] && first != last then Failure(CompositionError)
    else
      match ApplyOverrides(planned[first].spec, NodeOverrides(overrides.source, overrides.steps, map[]))
      case Failure(error) => Failure(error)
      case Success(spec) =>
        var withInputs := planned[first := planned[first].(spec := spec)];
        match ApplyOverrides(withInputs[last].spec, NodeOverrides(map[], map[], overrides.sinks))
        case Failure(error) => Failure(error)
        case Success(closed) => Success(withInputs[last := withInputs[last].(spec := closed)])
  }

  /** Each node keeps its name and its params, but for those overridden at its position. */
  ghost predicate TakesOverrides(before: seq<NodeSpec>, after: seq<NodeSpec>, overrides: map<int, Params>) {
    && |after| == |before|
    && (forall position :: position in overrides ==> 0 <= position < |before|)
    && forall k :: 0 <= k < |before| ==>
         && after[k].name == before[k].name
         && after[k].params == before[k].params + if k in overrides then overrides[k] else map[]
  }

  lemma OverriddenSpec(spec: PipelineSpec, overrides: NodeOverrides)
    requires ApplyOverrides(spec, overrides).Success?
    ensures var after := ApplyOverrides(spec, overrides).value;
            && after == spec.(source := after.source, steps := after.steps, sinks := after.sinks)
            && after.source == NodeSpec(spec.source.name, spec.source.params + overrides.source)
            && TakesOverrides(spec.steps, after.steps, overrides.steps)
            && TakesOverrides(spec.sinks, after.sinks, overrides.sinks)
            && (overrides.source == map[] ==> after.source == spec.source)
            && (overrides.steps == map[] ==> after.steps == spec.steps)
            && (overrides.sinks == map[] ==> after.sinks == spec.sinks)
  {
    assert spec.source.params + map[] == spec.source.params;
    forall node: NodeSpec ensures node.params + map[] == node.params {}
  }

  /** Overrides reach the run's two ends alone: no other leg changes, and of those two only the
      first one's source and steps and the last one's sinks, each param the user answered holding
      the answer. */
  lemma OverridesReachTheBoundaryAlone(planned: seq<Leg>, overrides: NodeOverrides, i: nat)
    requires exists leg :: leg in planned && leg.kind == TranslationLeg
    requires ApplyRunOverrides(planned, overrides).Success? && i < |planned|
    ensures var after := ApplyRunOverrides(planned, overrides).value;
            var first, last := FirstTranslation(planned), FinalOf(planned);
            && |after| == |planned|
            && after[i] == planned[i].(spec := after[i].spec)
            && var was, now := planned[i].spec, after[i].spec;
               && now == was.(source := now.source, steps := now.steps, sinks := now.sinks)
               && (if i == first then now.source == NodeSpec(was.source.name, was.source.params + overrides.source)
                                      && TakesOverrides(was.steps, now.steps, overrides.steps)
                   else now.source == was.source && now.steps == was.steps)
               && (if i == last then TakesOverrides(was.sinks, now.sinks, overrides.sinks) else now.sinks == was.sinks)
  {
    hide ApplyOverrides, TakesOverrides, FirstTranslation, FinalOf;
    FinalIsATranslation(planned);
    var first, last := FirstTranslation(planned), FinalOf(planned);
    var inputs, outputs := NodeOverrides(overrides.source, overrides.steps, map[]), NodeOverrides(map[], map[], overrides.sinks);
    OverriddenSpec(planned[first].spec, inputs);
    var withInputs := planned[first := planned[first].(spec := ApplyOverrides(planned[first].spec, inputs).value)];
    OverriddenSpec(withInputs[last].spec, outputs);
  }

  // ---- References ----

  function LegNamed(pipeline: string, legs: seq<Leg>): Result<Leg, PlanError> {
    if |legs| == 0 then Failure(CompositionError)
    else if legs[0].pipeline == pipeline then Success(legs[0])
    else LegNamed(pipeline, legs[1..])
  }

  /** The param a reference names, refused where that is itself a reference or a malformed one. */
  function ReferencedValue(reference: Reference, planned: seq<Leg>): Result<Value, PlanError> {
    match LegNamed(reference.pipeline, planned)
    case Failure(error) => Failure(error)
    case Success(producer) =>
      match ReadParam(producer.spec, reference.address)
      case Failure(error) => Failure(error)
      case Success(value) =>
        if ParseReference(value) != NoReference then Failure(CompositionError) else Success(value)
  }

  function ResolvedValue(value: Value, planned: seq<Leg>): Result<Value, PlanError> {
    match ParseReference(value)
    case NoReference => Success(value)
    case Malformed => Failure(CompositionError)
    case Refers(reference) => ReferencedValue(reference, planned)
  }

  /** Every param of the leg resolves, and those that are references have an addressable node. */
  ghost predicate LegResolves(leg: Leg, planned: seq<Leg>) {
    forall i, param :: 0 <= i < |NodesOf(leg.spec)| && param in NodesOf(leg.spec)[i].params ==>
      var node := NodesOf(leg.spec)[i];
      && ResolvedValue(node.params[param], planned).Success?
      && (IsReference(node.params[param]) ==> FindNode(leg.spec, node.name).Success?)
  }

  function ResolvedNode(node: NodeSpec, planned: seq<Leg>): (r: NodeSpec)
    ensures r.name == node.name && r.params.Keys == node.params.Keys
  {
    NodeSpec(node.name, map param | param in node.params ::
      if ResolvedValue(node.params[param], planned).Success?
      then ResolvedValue(node.params[param], planned).value else node.params[param])
  }

  function Resolver(planned: seq<Leg>): NodeSpec -> NodeSpec {
    (node: NodeSpec) => ResolvedNode(node, planned)
  }

  function ResolvedLeg(leg: Leg, planned: seq<Leg>): Leg {
    leg.(spec := MapSpec(leg.spec, Resolver(planned)))
  }

  /** The references of a leg, each with the address it stands at. */
  function PendingReferences(spec: PipelineSpec): set<(ParamAddress, Reference)> {
    set node, param | node in NodesOf(spec) && param in node.params && IsReference(node.params[param])
      :: (ParamAddress(node.name, param), ParseReference(node.params[param]).reference)
  }

  predicate HasMalformed(spec: PipelineSpec) {
    exists node :: node in NodesOf(spec)
      && exists param :: param in node.params && ParseReference(node.params[param]) == Malformed
  }

  ghost predicate SameNames(a: seq<NodeSpec>, b: seq<NodeSpec>) {
    |a| == |b| && forall i :: 0 <= i < |a| ==> a[i].name == b[i].name
  }

  lemma {:induction false} SameNamesSameCount(a: seq<NodeSpec>, b: seq<NodeSpec>, name: string)
    requires SameNames(a, b)
    ensures |Filter(a, HasName(name))| == |Filter(b, HasName(name))|
  {
    if |a| != 0 {
      assert a[|a| - 1].name == b[|b| - 1].name;
      SameNamesSameCount(a[..|a| - 1], b[..|b| - 1], name);
    }
  }

  lemma {:induction false} NameFilterCountsPositions(nodes: seq<NodeSpec>, name: string, i: nat, j: nat)
    requires i < j < |nodes| && nodes[i].name == name && nodes[j].name == name
    ensures |Filter(nodes, HasName(name))| >= 2
  {
    var front, last := nodes[..|nodes| - 1], nodes[|nodes| - 1];
    if j < |front| {
      NameFilterCountsPositions(front, name, i, j);
    } else {
      assert front[i] in front && HasName(name)(front[i]) && front[i] in Filter(front, HasName(name));
    }
  }

  /** A name that addresses a node addresses one position. */
  lemma FoundNodeIsAlone(spec: PipelineSpec, name: string, i: nat, j: nat)
    requires FindNode(spec, name).Success?
    requires i < |NodesOf(spec)| && j < |NodesOf(spec)| && NodesOf(spec)[i].name == name && NodesOf(spec)[j].name == name
    ensures i == j
  {
    if i < j {
      NameFilterCountsPositions(NodesOf(spec), name, i, j);
    } else if j < i {
      NameFilterCountsPositions(NodesOf(spec), name, j, i);
    }
  }

  /** `spec` is `original` with every reference not in `pending` replaced by the value it names. */
  ghost predicate IsPartlyResolved(spec: PipelineSpec, original: PipelineSpec, planned: seq<Leg>,
                                   pending: set<(ParamAddress, Reference)>) {
    && spec == original.(source := spec.source, steps := spec.steps, sinks := spec.sinks)
    && |spec.steps| == |original.steps| && |spec.sinks| == |original.sinks|
    && SameNames(NodesOf(spec), NodesOf(original))
    && forall i :: 0 <= i < |NodesOf(spec)| ==>
         IsPartlyResolvedNode(NodesOf(spec)[i], NodesOf(original)[i], planned, pending)
  }

  function PartlyResolvedValue(node: NodeSpec, param: string, planned: seq<Leg>,
                               pending: set<(ParamAddress, Reference)>): Value
    requires param in node.params
  {
    var value := node.params[param];
    if IsReference(value)
       && (ParamAddress(node.name, param), ParseReference(value).reference) !in pending
       && ResolvedValue(value, planned).Success?
    then ResolvedValue(value, planned).value
    else value
  }

  ghost predicate Resolves(entry: (ParamAddress, Reference), spec: PipelineSpec, planned: seq<Leg>) {
    ReferencedValue(entry.1, planned).Success? && FindNode(spec, entry.0.node).Success?
  }

  lemma FindNodeByNames(a: PipelineSpec, b: PipelineSpec, name: string)
    requires SameNames(NodesOf(a), NodesOf(b))
    ensures FindNode(a, name).Success? == FindNode(b, name).Success?
    ensures FindNode(a, name).Failure? ==> FindNode(a, name) == Failure(CompositionError)
  {
    SameNamesSameCount(NodesOf(a), NodesOf(b), name);
  }

  /** `before` is `node` with every reference not in `pending` replaced by the value it names. */
  ghost predicate IsPartlyResolvedNode(before: NodeSpec, node: NodeSpec, planned: seq<Leg>,
                                       pending: set<(ParamAddress, Reference)>) {
    && before.name == node.name
    && before.params.Keys == node.params.Keys
    && forall param :: param in node.params ==>
         before.params[param] == PartlyResolvedValue(node, param, planned, pending)
  }

  lemma RewritingOneMore(before: NodeSpec, node: NodeSpec, planned: seq<Leg>,
                         pending: set<(ParamAddress, Reference)>, entry: (ParamAddress, Reference))
    requires IsPartlyResolvedNode(before, node, planned, pending)
    requires ReferencedValue(entry.1, planned).Success?
    requires node.name == entry.0.node ==>
               entry.0.param in node.params && ParseReference(node.params[entry.0.param]) == Refers(entry.1)
    ensures IsPartlyResolvedNode(Rewrite(before, entry.0, ReferencedValue(entry.1, planned).value), node, planned, pending - {entry})
  {
    hide ReferencedValue, ParseReference;
    var after := Rewrite(before, entry.0, ReferencedValue(entry.1, planned).value);
    forall param | param in node.params
      ensures after.params[param] == PartlyResolvedValue(node, param, planned, pending - {entry})
    {
      var address := ParamAddress(node.name, param);
      if address == entry.0 {
        assert ResolvedValue(node.params[param], planned) == ReferencedValue(entry.1, planned);
      } else {
        assert after.params[param] == before.params[param];
      }
    }
  }

  lemma EntryIsAtItsNode(spec: PipelineSpec, entry: (ParamAddress, Reference), i: nat)
    requires entry in PendingReferences(spec) && FindNode(spec, entry.0.node).Success?
    requires i < |NodesOf(spec)| && NodesOf(spec)[i].name == entry.0.node
    ensures entry.0.param in NodesOf(spec)[i].params
    ensures ParseReference(NodesOf(spec)[i].params[entry.0.param]) == Refers(entry.1)
  {
    hide FindNode;
    var node :| node in NodesOf(spec) && entry.0.param in node.params && IsReference(node.params[entry.0.param])
                && entry == (ParamAddress(node.name, entry.0.param), ParseReference(node.params[entry.0.param]).reference);
    var k :| 0 <= k < |NodesOf(spec)| && NodesOf(spec)[k] == node;
    FoundNodeIsAlone(spec, entry.0.node, i, k);
  }

  lemma ResolvingOneMore(spec: PipelineSpec, original: PipelineSpec, planned: seq<Leg>,
                         pending: set<(ParamAddress, Reference)>, entry: (ParamAddress, Reference))
    requires IsPartlyResolved(spec, original, planned, pending) && pending <= PendingReferences(original)
    requires entry in pending && Resolves(entry, original, planned)
    ensures SetParam(spec, entry.0, ReferencedValue(entry.1, planned).value).Success?
    ensures IsPartlyResolved(SetParam(spec, entry.0, ReferencedValue(entry.1, planned).value).value,
                             original, planned, pending - {entry})
  {
    hide ReferencedValue, FindNode, ParseReference, PartlyResolvedValue, NodesOf, PendingReferences, SetParam;
    var value := ReferencedValue(entry.1, planned).value;
    FindNodeByNames(spec, original, entry.0.node);
    SetParamIsMapped(spec, entry.0, value);
    var after := SetParam(spec, entry.0, value).value;
    forall i | 0 <= i < |NodesOf(after)|
      ensures IsPartlyResolvedNode(NodesOf(after)[i], NodesOf(original)[i], planned, pending - {entry})
    {
      if NodesOf(original)[i].name == entry.0.node {
        EntryIsAtItsNode(original, entry, i);
      }
      RewritingOneMore(NodesOf(spec)[i], NodesOf(original)[i], planned, pending, entry);
    }
  }

  lemma SetParamIsMapped(spec: PipelineSpec, address: ParamAddress, value: Value)
    requires FindNode(spec, address.node).Success?
    ensures SetParam(spec, address, value) == Success(MapSpec(spec, Rewriter(address, value)))
  {
  }

  lemma SameNodesSameSpec(a: PipelineSpec, b: PipelineSpec)
    requires a == b.(source := a.source, steps := a.steps, sinks := a.sinks)
    requires |a.steps| == |b.steps| && |a.sinks| == |b.sinks|
    requires forall i :: 0 <= i < |NodesOf(a)| ==> NodesOf(a)[i] == NodesOf(b)[i]
    ensures a == b
  {
    assert NodesOf(a)[0] == NodesOf(b)[0];
    forall i | 0 <= i < |a.steps| ensures a.steps[i] == b.steps[i] {
      assert NodesOf(a)[1 + i] == NodesOf(b)[1 + i];
    }
    forall i | 0 <= i < |a.sinks| ensures a.sinks[i] == b.sinks[i] {
      assert NodesOf(a)[1 + |a.steps| + i] == NodesOf(b)[1 + |a.steps| + i];
    }
  }

  lemma FullyResolvedIsMapped(spec: PipelineSpec, original: PipelineSpec, planned: seq<Leg>)
    requires IsPartlyResolved(spec, original, planned, {}) && !HasMalformed(original)
    ensures spec == MapSpec(original, Resolver(planned))
  {
    hide ReferencedValue, ParseReference;
    var mapped := MapSpec(original, Resolver(planned));
    forall i | 0 <= i < |NodesOf(spec)| ensures NodesOf(spec)[i] == NodesOf(mapped)[i] {
      var node := NodesOf(original)[i];
      assert NodesOf(mapped)[i] == ResolvedNode(node, planned);
      assert node in NodesOf(original);
      assert NodesOf(spec)[i].params == NodesOf(mapped)[i].params;
    }
    SameNodesSameSpec(spec, mapped);
  }

  /** Whatever order the references are visited in, the leg comes out with each one replaced, or
      is refused because one of them cannot be. */
  method ResolveLegReferences(leg: Leg, planned: seq<Leg>) returns (result: Result<Leg, PlanError>)
    ensures result == if LegResolves(leg, planned) then Success(ResolvedLeg(leg, planned)) else Failure(CompositionError)
  {
    hide IsPartlyResolved, LegResolves, MapSpec, SetParam, ReferencedValue, FindNode, HasMalformed, PendingReferences;
    if HasMalformed(leg.spec) {
      MalformedDoesNotResolve(leg, planned);
      return Failure(CompositionError);
    }
    var spec, pending := leg.spec, PendingReferences(leg.spec);
    ghost var all := pending;
    NothingResolvedYet(leg.spec, planned);
    while pending != {}
      invariant pending <= all
      invariant IsPartlyResolved(spec, leg.spec, planned, pending)
      invariant forall entry :: entry in all - pending ==> Resolves(entry, leg.spec, planned)
      decreases pending
    {
      var entry :| entry in pending;
      var value := ReferencedValue(entry.1, planned);
      PartlyResolvedNames(spec, leg.spec, planned, pending);
      FindNodeByNames(spec, leg.spec, entry.0.node);
      if value.Failure? || FindNode(spec, entry.0.node).Failure? {
        UnresolvedEntry(leg, planned, entry);
        return Failure(CompositionError);
      }
      ResolvingOneMore(spec, leg.spec, planned, pending, entry);
      spec := SetParam(spec, entry.0, value.value).value;
      pending := pending - {entry};
    }
    EveryEntryResolves(leg, planned);
    FullyResolvedIsMapped(spec, leg.spec, planned);
    result := Success(leg.(spec := spec));
  }

  lemma PartlyResolvedNames(spec: PipelineSpec, original: PipelineSpec, planned: seq<Leg>,
                            pending: set<(ParamAddress, Reference)>)
    requires IsPartlyResolved(spec, original, planned, pending)
    ensures SameNames(NodesOf(spec), NodesOf(original))
  {
  }

  lemma NothingResolvedYet(spec: PipelineSpec, planned: seq<Leg>)
    ensures IsPartlyResolved(spec, spec, planned, PendingReferences(spec))
  {
    forall i | 0 <= i < |NodesOf(spec)|
      ensures IsPartlyResolvedNode(NodesOf(spec)[i], NodesOf(spec)[i], planned, PendingReferences(spec))
    {
      assert NodesOf(spec)[i] in NodesOf(spec);
    }
  }

  lemma MalformedDoesNotResolve(leg: Leg, planned: seq<Leg>)
    requires HasMalformed(leg.spec)
    ensures !LegResolves(leg, planned)
  {
  }

  lemma UnresolvedEntry(leg: Leg, planned: seq<Leg>, entry: (ParamAddress, Reference))
    requires entry in PendingReferences(leg.spec) && !Resolves(entry, leg.spec, planned)
    ensures !LegResolves(leg, planned)
  {
    hide ReferencedValue, FindNode, ParseReference;
    var node :| node in NodesOf(leg.spec) && entry.0.param in node.params && IsReference(node.params[entry.0.param])
                && entry == (ParamAddress(node.name, entry.0.param), ParseReference(node.params[entry.0.param]).reference);
    var i :| 0 <= i < |NodesOf(leg.spec)| && NodesOf(leg.spec)[i] == node;
  }

  lemma EveryEntryResolves(leg: Leg, planned: seq<Leg>)
    requires !HasMalformed(leg.spec)
    requires forall entry :: entry in PendingReferences(leg.spec) ==> Resolves(entry, leg.spec, planned)
    ensures LegResolves(leg, planned)
  {
    hide ReferencedValue, FindNode, ParseReference;
    forall i, param | 0 <= i < |NodesOf(leg.spec)| && param in NodesOf(leg.spec)[i].params
      ensures var node := NodesOf(leg.spec)[i];
              && ResolvedValue(node.params[param], planned).Success?
              && (IsReference(node.params[param]) ==> FindNode(leg.spec, node.name).Success?)
    {
      var node := NodesOf(leg.spec)[i];
      assert node in NodesOf(leg.spec);
      if IsReference(node.params[param]) {
        var entry := (ParamAddress(node.name, param), ParseReference(node.params[param]).reference);
        assert entry in PendingReferences(leg.spec);
        assert Resolves(entry, leg.spec, planned);
      }
    }
  }

  // ---- The plan ----

  function ResolvedLegs(planned: seq<Leg>): (r: seq<Leg>)
    ensures |r| == |planned|
    ensures forall i :: 0 <= i < |r| ==> r[i] == ResolvedLeg(planned[i], planned)
  {
    seq(|planned|, i requires 0 <= i < |planned| => ResolvedLeg(planned[i], planned))
  }

  /** Every leg resolved, each looking its references up in the list as it was given. */
  method ResolveReferences(planned: seq<Leg>) returns (result: Result<seq<Leg>, PlanError>)
    ensures result == if forall leg :: leg in planned ==> LegResolves(leg, planned)
                      then Success(ResolvedLegs(planned)) else Failure(CompositionError)
  {
    hide LegResolves, ResolvedLeg;
    var resolved: seq<Leg> := [];
    for n := 0 to |planned|
      invariant |resolved| == n && forall i :: 0 <= i < n ==> resolved[i] == ResolvedLeg(planned[i], planned)
      invariant forall i :: 0 <= i < n ==> LegResolves(planned[i], planned)
    {
      var leg := ResolveLegReferences(planned[n], planned);
      assert planned[n] in planned;
      if leg.Failure? {
        return Failure(leg.error);
      }
      resolved := resolved + [leg.value];
    }
    assert resolved == ResolvedLegs(planned);
    result := Success(resolved);
  }

  predicate IsTranslation(leg: Leg) { leg.kind == TranslationLeg }

  predicate IsMapping(leg: Leg) { leg.kind == MappingLeg }

  /** Each leg ends in the framework the next one starts from. */
  predicate BoundariesAgree(legs: seq<Leg>) {
    forall i :: 0 <= i < |legs| - 1 ==> legs[i].spec.destinationFramework == legs[i + 1].spec.sourceFramework
  }

  /** Every reference is well formed and points at a param some leg sets. */
  predicate TargetsExist(planned: seq<Leg>) {
    forall leg :: leg in planned ==>
      && !HasMalformed(leg.spec)
      && forall entry :: entry in PendingReferences(leg.spec) ==>
           && LegNamed(entry.1.pipeline, planned).Success?
           && ReadParam(LegNamed(entry.1.pipeline, planned).value.spec, entry.1.address).Success?
  }

  predicate RefersToPipeline(leg: Leg, pipeline: string) {
    exists entry :: entry in PendingReferences(leg.spec) && entry.1.pipeline == pipeline
  }

  /** Each leg after the first refers to the one before it. */
  predicate IsWired(legs: seq<Leg>) {
    forall i :: 0 <= i < |legs| - 1 ==> RefersToPipeline(legs[i + 1], legs[i].pipeline)
  }

  datatype TranslationPlan = TranslationPlan(legs: seq<Leg>, mappings: seq<Leg>) {
    /** Mapping pipelines first: what they derive must exist before a leg runs. */
    function InRunOrder(): seq<Leg> { mappings + legs }
  }

  /** Why a plan is refused, or None. The rules are checked in this order. */
  ghost function Refusal(planned: seq<Leg>, overrides: NodeOverrides): Option<PlanError>
    requires exists leg :: leg in planned && leg.kind == TranslationLeg
  {
    var routed := RoutedLegs(planned);
    var translations := Filter(routed, IsTranslation);
    RoutedHasATranslation(planned);
    var overridden := ApplyRunOverrides(routed, overrides);
    if !BoundariesAgree(translations) || !TargetsExist(routed) || !IsWired(translations) then Some(CompositionError)
    else if overridden.Failure? then Some(overridden.error)
    else if !forall leg :: leg in overridden.value ==> LegResolves(leg, overridden.value) then Some(CompositionError)
    else None
  }

  lemma RoutedHasATranslation(planned: seq<Leg>)
    requires exists leg :: leg in planned && leg.kind == TranslationLeg
    ensures exists leg :: leg in RoutedLegs(planned) && leg.kind == TranslationLeg
  {
    var i :| 0 <= i < |planned| && planned[i].kind == TranslationLeg;
    assert RoutedLegs(planned)[i] in RoutedLegs(planned);
  }

  /** The routed legs once the run's overrides are applied. */
  ghost function OverriddenLegs(planned: seq<Leg>, overrides: NodeOverrides): (r: seq<Leg>)
    requires exists leg :: leg in planned && leg.kind == TranslationLeg
    requires Refusal(planned, overrides).None?
    ensures forall leg :: leg in r ==> LegResolves(leg, r)
  {
    RoutedHasATranslation(planned);
    ApplyRunOverrides(RoutedLegs(planned), overrides).value
  }

  /** The legs as they run, once the plan is accepted. */
  ghost function PlannedLegs(planned: seq<Leg>, overrides: NodeOverrides): seq<Leg>
    requires exists leg :: leg in planned && leg.kind == TranslationLeg
    requires Refusal(planned, overrides).None?
  {
    ResolvedLegs(OverriddenLegs(planned, overrides))
  }

  method PlanTranslation(planned: seq<Leg>, overrides: NodeOverrides) returns (result: Result<TranslationPlan, PlanError>)
    requires exists leg :: leg in planned && leg.kind == TranslationLeg
    ensures match Refusal(planned, overrides)
            case Some(error) => result == Failure(error)
            case None =>
              var legs := PlannedLegs(planned, overrides);
              result == Success(TranslationPlan(Filter(legs, IsTranslation), Filter(legs, IsMapping)))
  {
    hide LegResolves, ResolvedLegs, BoundariesAgree, TargetsExist, IsWired, Filter, ApplyRunOverrides, RoutedLegs;
    var routed := RouteHandoffs(planned);
    RoutedHasATranslation(planned);
    var translations := Filter(routed, IsTranslation);
    if !BoundariesAgree(translations) || !TargetsExist(routed) || !IsWired(translations) {
      return Failure(CompositionError);
    }
    var overridden := ApplyRunOverrides(routed, overrides);
    if overridden.Failure? {
      return Failure(overridden.error);
    }
    var resolved := ResolveReferences(overridden.value);
    if resolved.Failure? {
      return Failure(resolved.error);
    }
    result := Success(TranslationPlan(Filter(resolved.value, IsTranslation), Filter(resolved.value, IsMapping)));
  }

  /** What a planned param holds, given what it held once overrides were applied. */
  ghost predicate HoldsItsValue(value: Value, overridden: Value, planned: seq<Leg>) {
    && ParseReference(value) == NoReference
    && match ParseReference(overridden)
       case Refers(reference) =>
         && LegNamed(reference.pipeline, planned).Success?
         && ReadParam(LegNamed(reference.pipeline, planned).value.spec, reference.address) == Success(value)
       case _ => value == overridden
  }

  /** In an accepted plan no source, step or sink param is a reference: each that was one, overrides
      applied, holds the value it named. Every other param of theirs, every name, framework and
      hand-off, and every validator is as it was. */
  lemma PlannedParamsAreValues(planned: seq<Leg>, overrides: NodeOverrides, i: nat, k: nat)
    requires exists leg :: leg in planned && leg.kind == TranslationLeg
    requires Refusal(planned, overrides).None? && i < |PlannedLegs(planned, overrides)|
    requires k < |NodesOf(PlannedLegs(planned, overrides)[i].spec)|
    ensures var overridden := OverriddenLegs(planned, overrides);
            var leg := PlannedLegs(planned, overrides)[i];
            && |overridden| == |PlannedLegs(planned, overrides)|
            && leg == overridden[i].(spec := leg.spec)
            && leg.spec == overridden[i].spec.(source := leg.spec.source, steps := leg.spec.steps, sinks := leg.spec.sinks)
            && |NodesOf(leg.spec)| == |NodesOf(overridden[i].spec)|
            && var was, now := NodesOf(overridden[i].spec)[k], NodesOf(leg.spec)[k];
               && now.name == was.name && now.params.Keys == was.params.Keys
               && forall param :: param in now.params ==> HoldsItsValue(now.params[param], was.params[param], overridden)
  {
    hide OverriddenLegs, ReadParam, ParseReference;
    ResolvedNodeHoldsValues(OverriddenLegs(planned, overrides), i, k);
  }

  lemma ResolvedNodeHoldsValues(overridden: seq<Leg>, i: nat, k: nat)
    requires i < |overridden| && LegResolves(overridden[i], overridden)
    requires k < |NodesOf(overridden[i].spec)|
    ensures var was := NodesOf(overridden[i].spec)[k];
            forall param :: param in was.params ==>
              HoldsItsValue(ResolvedNode(was, overridden).params[param], was.params[param], overridden)
  {
    hide ReadParam, ParseReference;
    var was := NodesOf(overridden[i].spec)[k];
    forall param | param in was.params
      ensures HoldsItsValue(ResolvedNode(was, overridden).params[param], was.params[param], overridden)
    {
      assert ResolvedValue(was.params[param], overridden).Success?;
    }
  }

  // ---- Validators, which no rule above looks into ----

  ghost predicate HoldsAReference(node: NodeSpec) {
    exists param :: param in node.params && IsReference(node.params[param])
  }

  /** Some node of a leg, validators included, has a param that is a reference. */
  ghost predicate RefersSomewhere(legs: seq<Leg>) {
    exists i, k :: 0 <= i < |legs| && 0 <= k < |AllNodesOf(legs[i].spec)| && HoldsAReference(AllNodesOf(legs[i].spec)[k])
  }

  function AllNodesOf(spec: PipelineSpec): seq<NodeSpec> { NodesOf(spec) + spec.validators }

  ghost predicate AValidatorRefers(legs: seq<Leg>) {
    exists i, k :: 0 <= i < |legs| && 0 <= k < |legs[i].spec.validators| && HoldsAReference(legs[i].spec.validators[k])
  }

  lemma PlanningKeepsValidators(planned: seq<Leg>, overrides: NodeOverrides)
    requires exists leg :: leg in planned && leg.kind == TranslationLeg
    requires Refusal(planned, overrides).None?
    ensures |PlannedLegs(planned, overrides)| == |planned|
    ensures forall i :: 0 <= i < |planned| ==> PlannedLegs(planned, overrides)[i].spec.validators == planned[i].spec.validators
  {
    hide LegResolves, ApplyRunOverrides, BoundariesAgree, TargetsExist, IsWired, ResolvedLeg, Filter, DirectoryOf, UpstreamOf,
      FirstTranslation, FinalOf;
    RoutedHasATranslation(planned);
    var routed, overridden := RoutedLegs(planned), OverriddenLegs(planned, overrides);
    assert |planned| > 0;
    OverridesReachTheBoundaryAlone(routed, overrides, 0);
    forall i | 0 <= i < |planned| ensures PlannedLegs(planned, overrides)[i].spec.validators == planned[i].spec.validators {
      OverridesReachTheBoundaryAlone(routed, overrides, i);
      ResolvingKeepsValidators(overridden[i], overridden);
    }
  }

  lemma ResolvingKeepsValidators(leg: Leg, planned: seq<Leg>)
    ensures ResolvedLeg(leg, planned).spec.validators == leg.spec.validators
  {
  }

  /** So an accepted plan is free of references exactly when no validator of the legs it was made
      from has one. */
  lemma PlanIsFreeOfReferencesExactlyWhen(planned: seq<Leg>, overrides: NodeOverrides)
    requires exists leg :: leg in planned && leg.kind == TranslationLeg
    requires Refusal(planned, overrides).None?
    ensures !RefersSomewhere(PlannedLegs(planned, overrides)) <==> !AValidatorRefers(planned)
  {
    hide PlannedLegs, Refusal, HoldsAReference, NodesOf, OverriddenLegs;
    var legs := PlannedLegs(planned, overrides);
    PlanningKeepsValidators(planned, overrides);
    if i, k :| 0 <= i < |planned| && 0 <= k < |planned[i].spec.validators| && HoldsAReference(planned[i].spec.validators[k]) {
      assert AllNodesOf(legs[i].spec)[|NodesOf(legs[i].spec)| + k] == planned[i].spec.validators[k];
    }
    if i, k :| 0 <= i < |legs| && 0 <= k < |AllNodesOf(legs[i].spec)| && HoldsAReference(AllNodesOf(legs[i].spec)[k]) {
      if k < |NodesOf(legs[i].spec)| {
        PlannedNodeHoldsNoReference(planned, overrides, i, k);
      } else {
        assert planned[i].spec.validators[k - |NodesOf(legs[i].spec)|] == AllNodesOf(legs[i].spec)[k];
      }
    }
  }

  lemma PlannedNodeHoldsNoReference(planned: seq<Leg>, overrides: NodeOverrides, i: nat, k: nat)
    requires exists leg :: leg in planned && leg.kind == TranslationLeg
    requires Refusal(planned, overrides).None? && i < |PlannedLegs(planned, overrides)|
    requires k < |NodesOf(PlannedLegs(planned, overrides)[i].spec)|
    ensures !HoldsAReference(NodesOf(PlannedLegs(planned, overrides)[i].spec)[k])
  {
    hide PlannedLegs, OverriddenLegs, Refusal, NodesOf, LegNamed, ReadParam, ParseReference;
    PlannedParamsAreValues(planned, overrides, i, k);
  }

  const REFERRING_VALIDATOR := NodeSpec("check_limits", map["limits" := Text("$a.b.c")])

  const VALIDATED_LEG := Leg("alone", PipelineSpec("plexos", "pypsa", NodeSpec("stage", map[]), [], [], [REFERRING_VALIDATOR]),
                             TranslationLeg, None, None)

  lemma TheValidatorRefers()
    ensures HoldsAReference(REFERRING_VALIDATOR)
  {
    var reference := Reference("a", ParamAddress("b", "c"));
    assert PrintReference(reference) == "$a.b.c";
    ParsingAPrintedReference(reference);
    assert "limits" in REFERRING_VALIDATOR.params;
  }

  /** One leg, no override, a reference in a validator: the plan is accepted and keeps it. */
  lemma AnAcceptedPlanMayHoldAReference()
    ensures VALIDATED_LEG in [VALIDATED_LEG]
    ensures var nothing := NodeOverrides(map[], map[], map[]);
            Refusal([VALIDATED_LEG], nothing).None? && RefersSomewhere(PlannedLegs([VALIDATED_LEG], nothing))
  {
    hide HoldsAReference, ParseReference;
    var planned, nothing := [VALIDATED_LEG], NodeOverrides(map[], map[], map[]);
    assert planned[0] == VALIDATED_LEG;
    AcceptsTheLoneLeg();
    TheValidatorRefers();
    assert planned[0].spec.validators[0] == REFERRING_VALIDATOR;
    PlanIsFreeOfReferencesExactlyWhen(planned, nothing);
  }

  lemma RoutesTheLoneLeg()
    ensures RoutedLegs([VALIDATED_LEG]) == [VALIDATED_LEG]
  {
    hide DirectoryOf;
    var planned := [VALIDATED_LEG];
    assert UpstreamOf(planned, 0) == -1 && UpstreamOf(planned, 1) == 0;
  }

  lemma OverridesNothing()
    ensures VALIDATED_LEG in [VALIDATED_LEG]
    ensures ApplyRunOverrides([VALIDATED_LEG], NodeOverrides(map[], map[], map[])) == Success([VALIDATED_LEG])
  {
    var planned, nothing := [VALIDATED_LEG], NodeOverrides(map[], map[], map[]);
    assert planned[0] == VALIDATED_LEG;
    assert FirstTranslation(planned) == 0;
    FinalIsATranslation(planned);
    assert MergeAll(VALIDATED_LEG.spec.steps, map[]) == [] && MergeAll(VALIDATED_LEG.spec.sinks, map[]) == [];
    assert ApplyOverrides(VALIDATED_LEG.spec, nothing) == Success(VALIDATED_LEG.spec);
    assert planned[0 := VALIDATED_LEG.(spec := VALIDATED_LEG.spec)] == planned;
  }

  lemma RefersToNothing(planned: seq<Leg>)
    ensures !HasMalformed(VALIDATED_LEG.spec) && PendingReferences(VALIDATED_LEG.spec) == {}
    ensures LegResolves(VALIDATED_LEG, planned)
  {
    hide ParseReference;
    assert NodesOf(VALIDATED_LEG.spec) == [NodeSpec("stage", map[])];
  }

  lemma AcceptsTheLoneLeg()
    ensures VALIDATED_LEG in [VALIDATED_LEG]
    ensures Refusal([VALIDATED_LEG], NodeOverrides(map[], map[], map[])).None?
  {
    hide LegResolves, ApplyRunOverrides, RoutedLegs, Filter, PendingReferences, HasMalformed;
    var planned := [VALIDATED_LEG];
    assert planned[0] == VALIDATED_LEG;
    RoutesTheLoneLeg();
    OverridesNothing();
    RefersToNothing(planned);
    FilterAll(planned, IsTranslation);
  }
}
