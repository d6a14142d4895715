/** The text of references, and params read and set by address
    (interop/core/composition/addressing.py). */
module Addressing {
  import opened Common

  const REFERENCE_PREFIX := '$'
  const SEPARATOR := '.'

  // A param's value: text, or anything else, which no rule looks into.
  datatype Value = Text(text: string) | Opaque(id: int)

  datatype NodeSpec = NodeSpec(name: string, params: map<string, Value>)

  datatype PipelineSpec = PipelineSpec(
    sourceFramework: string,
    destinationFramework: string,
    source: NodeSpec,
    steps: seq<NodeSpec>,
    sinks: seq<NodeSpec>,
    validators: seq<NodeSpec>)

  datatype ParamAddress = ParamAddress(node: string, param: string)

  datatype Reference = Reference(pipeline: string, address: ParamAddress)

  // A value that starts like a reference is one, or is refused.
  datatype ParsedValue = NoReference | Malformed | Refers(reference: Reference)

  // The composer refuses every manifest it cannot run with the same kind of error; an override
  // of a position the pipeline does not have is an error of its own.
  datatype PlanError = CompositionError | OverrideIndexError

  // ---- Text and its segments ----

  /** Python's `split` on the separator: always at least one segment, some maybe empty. */
  function Split(text: string): (r: seq<string>)
    ensures |r| > 0
  {
    if |text| == 0 then [""]
    else
      var rest := Split(text[1..]);
      if text[0] == SEPARATOR then [""] + rest else [[text[0]] + rest[0]] + rest[1..]
  }

  function Join(segments: seq<string>): string
    requires |segments| > 0
  {
    if |segments| == 1 then segments[0] else segments[0] + [SEPARATOR] + Join(segments[1..])
  }

  predicate IsSegment(text: string) { |text| > 0 && SEPARATOR !in text }

  lemma {:induction false} SplitHasNoSeparator(text: string)
    ensures forall segment :: segment in Split(text) ==> SEPARATOR !in segment
  {
    if |text| != 0 {
      SplitHasNoSeparator(text[1..]);
      var rest := Split(text[1..]);
      assert rest == [rest[0]] + rest[1..];
    }
  }

  lemma JoinOfMore(first: string, rest: seq<string>)
    ensures Join([first] + rest) == if |rest| == 0 then first else first + [SEPARATOR] + Join(rest)
  {
    assert ([first] + rest)[1..] == rest;
  }

  lemma {:induction false} JoinOfSplit(text: string)
    ensures Join(Split(text)) == text
  {
    hide Join;
    if |text| == 0 {
      JoinOfMore("", []);
      assert [""] + [] == [""];
    } else {
      var first, rest := [text[0]], Split(text[1..]);
      JoinOfSplit(text[1..]);
      assert text == first + text[1..] && rest == [rest[0]] + rest[1..];
      if text[0] == SEPARATOR {
        JoinOfMore("", rest);
        assert "" + [SEPARATOR] == first;
      } else {
        JoinOfMore(rest[0], rest[1..]);
        JoinOfMore(first + rest[0], rest[1..]);
        assert (first + rest[0]) + [SEPARATOR] == first + (rest[0] + [SEPARATOR]);
      }
    }
  }

  lemma {:induction false} SplitOfSegmentThenMore(segment: string, more: string)
    requires SEPARATOR !in segment
    ensures Split(segment + [SEPARATOR] + more) == [segment] + Split(more)
    ensures Split(segment) == [segment]
  {
    if |segment| != 0 {
      SplitOfSegmentThenMore(segment[1..], more);
      assert segment == [segment[0]] + segment[1..];
      assert (segment + [SEPARATOR] + more)[1..] == segment[1..] + [SEPARATOR] + more;
    } else {
      assert (segment + [SEPARATOR] + more)[1..] == more;
    }
  }

  lemma {:induction false} SplitOfJoin(segments: seq<string>)
    requires |segments| > 0 && forall segment :: segment in segments ==> SEPARATOR !in segment
    ensures Split(Join(segments)) == segments
  {
    if |segments| == 1 {
      SplitOfSegmentThenMore(segments[0], "");
    } else {
      SplitOfJoin(segments[1..]);
      SplitOfSegmentThenMore(segments[0], Join(segments[1..]));
    }
  }

  // ---- References and param addresses ----

  function PrintAddress(address: ParamAddress): string {
    address.node + [SEPARATOR] + address.param
  }

  function PrintReference(reference: Reference): string {
    [REFERENCE_PREFIX] + reference.pipeline + [SEPARATOR] + PrintAddress(reference.address)
  }

  function ParseReference(value: Value): ParsedValue {
    if !value.Text? || |value.text| == 0 || value.text[0] != REFERENCE_PREFIX then NoReference
    else
      var segments := Split(value.text[1..]);
      if |segments| != 3 || exists segment :: segment in segments && |segment| == 0 then Malformed
      else Refers(Reference(segments[0], ParamAddress(segments[1], segments[2])))
  }

  function ParseParamAddress(key: string): Option<ParamAddress> {
    var segments := Split(key);
    if |segments| != 2 || exists segment :: segment in segments && |segment| == 0 then None
    else Some(ParamAddress(segments[0], segments[1]))
  }

  predicate IsReference(value: Value) { ParseReference(value).Refers? }

  ghost predicate HasProperSegments(reference: Reference) {
    IsSegment(reference.pipeline) && IsSegment(reference.address.node) && IsSegment(reference.address.param)
  }

  lemma JoinOfThree(a: string, b: string, c: string)
    ensures Join([a, b, c]) == a + [SEPARATOR] + (b + [SEPARATOR] + c)
  {
    var three, two, one := [a, b, c], [b, c], [c];
    assert three[1..] == two && two[1..] == one;
    assert Join(one) == c && Join(two) == b + [SEPARATOR] + Join(one);
    assert Join(three) == a + [SEPARATOR] + Join(two);
  }

  /** Parsing what a reference prints as returns it exactly when its segments are non-empty and
      hold no separator. */
  lemma ParsingAPrintedReference(reference: Reference)
    ensures ParseReference(Text(PrintReference(reference))) == Refers(reference) <==> HasProperSegments(reference)
  {
    var Reference(pipeline, ParamAddress(node, param)) := reference;
    var text := PrintReference(reference);
    var segments := [pipeline, node, param];
    assert text[1..] == pipeline + [SEPARATOR] + (node + [SEPARATOR] + param);
    JoinOfThree(pipeline, node, param);
    if HasProperSegments(reference) {
      SplitOfJoin(segments);
      assert forall segment :: segment in segments ==> |segment| > 0;
    } else if ParseReference(Text(text)) == Refers(reference) {
      PrintingAParsedReference(text, reference);
      assert false;
    }
  }

  /** Printing what parsed returns the very text it was parsed from. */
  lemma PrintingAParsedReference(text: string, reference: Reference)
    requires ParseReference(Text(text)) == Refers(reference)
    ensures PrintReference(reference) == text && HasProperSegments(reference)
  {
    var segments := Split(text[1..]);
    JoinOfSplit(text[1..]);
    SplitHasNoSeparator(text[1..]);
    assert segments == [segments[0], segments[1], segments[2]];
    JoinOfThree(segments[0], segments[1], segments[2]);
    assert segments[0] in segments && segments[1] in segments && segments[2] in segments;
    assert text == [REFERENCE_PREFIX] + text[1..];
  }

  /** Parsing what an address prints as returns it exactly when its two segments are non-empty and
      hold no separator. */
  lemma ParsingAPrintedAddress(node: string, param: string)
    ensures ParseParamAddress(node + "." + param) == Some(ParamAddress(node, param)) <==>
            |node| > 0 && '.' !in node && |param| > 0 && '.' !in param
  {
    var key, segments := node + "." + param, [node, param];
    if |node| > 0 && '.' !in node && |param| > 0 && '.' !in param {
      SplitOfSegmentThenMore(node, param);
      SplitOfSegmentThenMore(param, "");
      assert node + [SEPARATOR] + param == key;
      assert Split(key) == segments;
    } else if ParseParamAddress(key) == Some(ParamAddress(node, param)) {
      ParsedSegments(key);
    }
  }

  lemma ParsedSegments(key: string)
    requires ParseParamAddress(key).Some?
    ensures var ParamAddress(node, param) := ParseParamAddress(key).value;
            |node| > 0 && '.' !in node && |param| > 0 && '.' !in param
  {
    SplitHasNoSeparator(key);
    assert Split(key)[0] in Split(key) && Split(key)[1] in Split(key);
  }

  lemma PrintingAParsedAddress(key: string)
    requires ParseParamAddress(key).Some?
    ensures PrintAddress(ParseParamAddress(key).value) == key
  {
    var segments := Split(key);
    JoinOfSplit(key);
    assert segments == [segments[0], segments[1]] && segments[1..] == [segments[1]];
  }

  // ---- Reading and setting a param ----

  function NodesOf(spec: PipelineSpec): seq<NodeSpec> {
    [spec.source] + spec.steps + spec.sinks
  }

  function HasName(name: string): NodeSpec -> bool {
    (node: NodeSpec) => node.name == name
  }

  /** A name no node bears, or more than one does, addresses nothing. */
  function FindNode(spec: PipelineSpec, name: string): Result<NodeSpec, PlanError> {
    var matching := Filter(NodesOf(spec), HasName(name));
    if |matching| == 1 then Success(matching[0]) else Failure(CompositionError)
  }

  function ReadParam(spec: PipelineSpec, address: ParamAddress): Result<Value, PlanError> {
    match FindNode(spec, address.node)
    case Failure(error) => Failure(error)
    case Success(node) =>
      if address.param in node.params then Success(node.params[address.param]) else Failure(CompositionError)
  }

  function Rewrite(node: NodeSpec, address: ParamAddress, value: Value): NodeSpec {
    if node.name != address.node then node
    else NodeSpec(node.name, node.params[address.param := value])
  }

  function MapNodes(nodes: seq<NodeSpec>, f: NodeSpec -> NodeSpec): (r: seq<NodeSpec>)
    ensures |r| == |nodes|
    ensures forall i :: 0 <= i < |r| ==> r[i] == f(nodes[i])
  {
    seq(|nodes|, i requires 0 <= i < |nodes| => f(nodes[i]))
  }

  /** The pipeline with every node but its validators rewritten. */
  function MapSpec(spec: PipelineSpec, f: NodeSpec -> NodeSpec): (r: PipelineSpec)
    ensures |NodesOf(r)| == |NodesOf(spec)|
    ensures forall i :: 0 <= i < |NodesOf(r)| ==> NodesOf(r)[i] == f(NodesOf(spec)[i])
  {
    spec.(source := f(spec.source), steps := MapNodes(spec.steps, f), sinks := MapNodes(spec.sinks, f))
  }

  function Rewriter(address: ParamAddress, value: Value): NodeSpec -> NodeSpec {
    (node: NodeSpec) => Rewrite(node, address, value)
  }

  function SetParam(spec: PipelineSpec, address: ParamAddress, value: Value): Result<PipelineSpec, PlanError> {
    match FindNode(spec, address.node)
    case Failure(error) => Failure(error)
    case Success(_) => Success(MapSpec(spec, Rewriter(address, value)))
  }

  lemma {:induction false} FilterOfMapped(nodes: seq<NodeSpec>, mapped: seq<NodeSpec>, f: NodeSpec -> NodeSpec, name: string)
    requires |mapped| == |nodes| && forall i :: 0 <= i < |nodes| ==> mapped[i] == f(nodes[i])
    requires forall node :: f(node).name == node.name
    ensures |Filter(mapped, HasName(name))| == |Filter(nodes, HasName(name))|
    ensures forall i :: 0 <= i < |Filter(nodes, HasName(name))| ==>
              Filter(mapped, HasName(name))[i] == f(Filter(nodes, HasName(name))[i])
  {
    if |nodes| != 0 {
      assert mapped[|mapped| - 1].name == nodes[|nodes| - 1].name;
      FilterOfMapped(nodes[..|nodes| - 1], mapped[..|mapped| - 1], f, name);
    }
  }

  lemma FindNodeOfMapped(spec: PipelineSpec, f: NodeSpec -> NodeSpec, name: string)
    requires forall node :: f(node).name == node.name
    ensures FindNode(MapSpec(spec, f), name)
            == if FindNode(spec, name).Success? then Success(f(FindNode(spec, name).value)) else FindNode(spec, name)
  {
    FilterOfMapped(NodesOf(spec), NodesOf(MapSpec(spec, f)), f, name);
  }

  /** A param that was set reads back, and every other address reads as it did. */
  lemma ReadingAfterSetting(spec: PipelineSpec, address: ParamAddress, value: Value, other: ParamAddress)
    requires SetParam(spec, address, value).Success?
    ensures var after := SetParam(spec, address, value).value;
            ReadParam(after, other) == if other == address then Success(value) else ReadParam(spec, other)
  {
    FindNodeOfMapped(spec, Rewriter(address, value), other.node);
    if FindNode(spec, other.node).Success? {
      var node := FindNode(spec, other.node).value;
      assert node in Filter(NodesOf(spec), HasName(other.node));
      assert HasName(other.node)(node);
    }
  }

  /** What a leg's own params make of its pipeline: each key sets one param, in turn. */
  function AppliedParams(spec: PipelineSpec, params: seq<(string, Value)>): Result<PipelineSpec, PlanError> {
    if |params| == 0 then Success(spec)
    else
      var last := params[|params| - 1];
      match AppliedParams(spec, params[..|params| - 1])
      case Failure(error) => Failure(error)
      case Success(before) =>
        match ParseParamAddress(last.0)
        case None => Failure(CompositionError)
        case Some(address) => SetParam(before, address, last.1)
  }

  lemma OneMoreParam(spec: PipelineSpec, params: seq<(string, Value)>, n: nat)
    requires n < |params|
    ensures AppliedParams(spec, params[..n + 1])
            == match AppliedParams(spec, params[..n])
               case Failure(error) => Failure(error)
               case Success(before) =>
                 match ParseParamAddress(params[n].0)
                 case None => Failure(CompositionError)
                 case Some(address) => SetParam(before, address, params[n].1)
  {
    hide ParseParamAddress, SetParam;
    assert params[..n + 1][..n] == params[..n];
  }

  method ApplyLegParams(spec: PipelineSpec, params: seq<(string, Value)>) returns (result: Result<PipelineSpec, PlanError>)
    ensures result == AppliedParams(spec, params)
  {
    hide ParseParamAddress, SetParam, AppliedParams;
    result := Success(spec);
    NoParams(spec);
    assert params[..0] == [];
    for n := 0 to |params|
      invariant result == AppliedParams(spec, params[..n])
    {
      OneMoreParam(spec, params, n);
      if result.Success? {
        var address := ParseParamAddress(params[n].0);
        result := if address.None? then Failure(CompositionError) else SetParam(result.value, address.value, params[n].1);
      }
    }
    assert params[..|params|] == params;
  }

  lemma NoParams(spec: PipelineSpec)
    ensures AppliedParams(spec, []) == Success(spec)
  {
  }

  ghost predicate HasDistinctKeys(params: seq<(string, Value)>) {
    forall i, j :: 0 <= i < j < |params| ==> params[i].0 != params[j].0
  }

  lemma SameAddressSameKey(a: string, b: string)
    requires ParseParamAddress(a).Some? && ParseParamAddress(a) == ParseParamAddress(b)
    ensures a == b
  {
    PrintingAParsedAddress(a);
    PrintingAParsedAddress(b);
  }

  /** A manifest's keys are distinct, so each param it sets reads back, and no other changes. */
  lemma {:induction false} AppliedParamsReadBack(spec: PipelineSpec, params: seq<(string, Value)>, address: ParamAddress)
    requires HasDistinctKeys(params) && AppliedParams(spec, params).Success?
    ensures forall i :: 0 <= i < |params| && ParseParamAddress(params[i].0) == Some(address) ==>
              ReadParam(AppliedParams(spec, params).value, address) == Success(params[i].1)
    ensures (forall i :: 0 <= i < |params| ==> ParseParamAddress(params[i].0) != Some(address)) ==>
              ReadParam(AppliedParams(spec, params).value, address) == ReadParam(spec, address)
  {
    hide ParseParamAddress, ReadParam, SetParam;
    if |params| != 0 {
      var front, last := params[..|params| - 1], params[|params| - 1];
      AppliedParamsReadBack(spec, front, address);
      ReadingAfterSetting(AppliedParams(spec, front).value, ParseParamAddress(last.0).value, last.1, address);
      forall i | 0 <= i < |front| && ParseParamAddress(params[i].0) == Some(address)
        ensures front[i] == params[i] && ParseParamAddress(last.0) != Some(address)
      {
        if ParseParamAddress(last.0) == Some(address) {
          SameAddressSameKey(params[i].0, last.0);
        }
      }
    }
  }
}
