/** The per-function taint analysis that keeps plugins off the filesystem
    (interop/lints/plugin_filesystem.py). */
module PluginFilesystemLint {
  import opened Common

  const PARAMS_NAME := "params"
  const SELF_NAME := "self"
  const FS_ATTRIBUTE := "_fs"
  const PATH_MARK := "path"
  const PATH_CLASS := "Path"
  const STAGING_DIR := "staging_dir"
  const OPEN_NAME := "open"

  // The syntax the analysis tells apart; every other node kind is `Other`.
  datatype Node =
    | Name(id: string)
    | Attribute(value: Node, attr: string)
    | Call(func: Node, args: seq<Node>, keywords: seq<Node>)
    | JoinedStr(parts: seq<Node>)
    | Assign(targets: seq<Node>, value: Node)
    | AnnAssign(target: Node, annotation: Node, stated: Option<Node>)
    | WithItem(context: Node, bound: Option<Node>)
    | Other(children: seq<Node>)

  datatype CategoryRule = CategoryRule(fsCalleeAllowed: bool, seedsSteps: bool, openBanned: bool)

  const SINKS := CategoryRule(true, false, false)
  const SOURCES := CategoryRule(true, false, false)
  const STEPS := CategoryRule(false, true, true)
  const VALIDATORS := CategoryRule(false, true, true)

  function Children(node: Node): (r: seq<Node>)
    ensures forall i :: 0 <= i < |r| ==> r[i] < node
  {
    match node
    case Name(_) => []
    case Attribute(value, _) => [value]
    case Call(func, args, keywords) => [func] + args + keywords
    case JoinedStr(parts) => parts
    case Assign(targets, value) => targets + [value]
    case AnnAssign(target, annotation, stated) =>
      [target, annotation] + (if stated.None? then [] else [stated.value])
    case WithItem(context, bound) => [context] + (if bound.None? then [] else [bound.value])
    case Other(children) => children
  }

  // ---- What each node is to the analysis ----

  predicate HasTextAt(text: string, mark: string, i: int) {
    0 <= i <= |text| - |mark| && text[i..i + |mark|] == mark
  }

  predicate ContainsText(text: string, mark: string) {
    exists i :: 0 <= i <= |text| - |mark| && HasTextAt(text, mark, i)
  }

  predicate IsSelfMethodCallee(func: Node) {
    func.Attribute? && func.value == Name(SELF_NAME)
  }

  predicate IsFsCallee(func: Node) {
    func.Attribute? && func.value == Attribute(Name(SELF_NAME), FS_ATTRIBUTE)
  }

  /** Constructs whose result is no path: an f-string, and a call on self or on its port. */
  predicate Sanitises(node: Node) {
    node.JoinedStr? || (node.Call? && (IsFsCallee(node.func) || IsSelfMethodCallee(node.func)))
  }

  predicate IsParamsPathSeed(node: Node) {
    node.Attribute? && node.value == Name(PARAMS_NAME) && ContainsText(node.attr, PATH_MARK)
  }

  predicate IsStepSeed(node: Node) {
    || (node.Call? && node.func == Name(PATH_CLASS))
    || (node.Attribute? && node.attr == STAGING_DIR)
  }

  predicate IsSeed(node: Node, rule: CategoryRule) {
    IsParamsPathSeed(node) || (rule.seedsSteps && IsStepSeed(node))
  }

  predicate IsOpenCall(node: Node) { node.Call? && node.func == Name(OPEN_NAME) }

  // ---- Walking an expression ----

  /** The node and what lies under it, not descending into a sanitising construct. */
  function WalkSkippingSanitisers(node: Node): seq<Node>
    decreases node, 1
  {
    if Sanitises(node) then [] else [node] + WalkChildren(node, Children(node))
  }

  function WalkChildren(node: Node, children: seq<Node>): seq<Node>
    requires forall i :: 0 <= i < |children| ==> children[i] < node
    decreases node, 0, |children|
  {
    if |children| == 0 then []
    else WalkSkippingSanitisers(children[0]) + WalkChildren(node, children[1..])
  }

  predicate IsTainted(node: Node, tainted: set<string>, rule: CategoryRule) {
    exists sub :: sub in WalkSkippingSanitisers(node)
      && (IsSeed(sub, rule) || (sub.Name? && sub.id in tainted))
  }

  // ---- What taint means: a trail of parts that no sanitiser stands on ----

  ghost predicate IsPartOf(part: Node, node: Node) {
    match node
    case Name(_) => false
    case Attribute(value, _) => part == value
    case Call(func, args, keywords) => part == func || part in args || part in keywords
    case JoinedStr(parts) => part in parts
    case Assign(targets, value) => part in targets || part == value
    case AnnAssign(target, annotation, stated) => part == target || part == annotation || stated == Some(part)
    case WithItem(context, bound) => part == context || bound == Some(part)
    case Other(children) => part in children
  }

  lemma ChildrenAreTheParts(node: Node, part: Node)
    ensures part in Children(node) <==> IsPartOf(part, node)
  {
  }

  /** A method of `self`, or of its port, is called. */
  ghost predicate IsCallOnSelf(node: Node) {
    && node.Call? && node.func.Attribute?
    && (node.func.value == Name("self") || node.func.value == Attribute(Name("self"), "_fs"))
  }

  /** A path enters here: a param named for one, a tainted name, or in a step a `Path` or the
      staging directory. */
  ghost predicate Marks(node: Node, tainted: set<string>, rule: CategoryRule) {
    || (node.Attribute? && node.value == Name("params") && exists a, b :: node.attr == a + "path" + b)
    || (rule.seedsSteps && node.Call? && node.func == Name("Path"))
    || (rule.seedsSteps && node.Attribute? && node.attr == "staging_dir")
    || (node.Name? && node.id in tainted)
  }

  ghost predicate IsTrail(trail: seq<Node>) {
    && |trail| > 0
    && (forall i :: 0 <= i < |trail| ==> !trail[i].JoinedStr? && !IsCallOnSelf(trail[i]))
    && (forall i :: 0 <= i < |trail| - 1 ==> IsPartOf(trail[i + 1], trail[i]))
  }

  ghost predicate IsReachedFrom(node: Node, tainted: set<string>, rule: CategoryRule) {
    exists trail :: IsTrail(trail) && |trail| > 0 && trail[0] == node && Marks(trail[|trail| - 1], tainted, rule)
  }

  lemma {:induction false} WalkOfChildren(node: Node, children: seq<Node>, sub: Node)
    requires forall i :: 0 <= i < |children| ==> children[i] < node
    ensures sub in WalkChildren(node, children) <==>
            exists child :: child in children && sub in WalkSkippingSanitisers(child)
  {
    if |children| != 0 {
      var first, rest := children[0], children[1..];
      WalkOfChildren(node, rest, sub);
      assert WalkChildren(node, children) == WalkSkippingSanitisers(first) + WalkChildren(node, rest);
      if child :| child in children && sub in WalkSkippingSanitisers(child) {
        assert child != first ==> child in rest;
      }
      if child :| child in rest && sub in WalkSkippingSanitisers(child) {
        assert child in children;
      }
      assert first in children;
    }
  }

  lemma TrailGrows(node: Node, trail: seq<Node>)
    requires IsTrail(trail) && IsPartOf(trail[0], node) && !node.JoinedStr? && !IsCallOnSelf(node)
    ensures IsTrail([node] + trail)
  {
  }

  lemma WalkedIsOpen(node: Node, sub: Node)
    requires sub in WalkSkippingSanitisers(node)
    ensures !node.JoinedStr? && !IsCallOnSelf(node)
    ensures sub == node || sub in WalkChildren(node, Children(node))
  {
  }

  lemma {:induction false} WalkedHasATrail(node: Node, sub: Node) returns (trail: seq<Node>)
    requires sub in WalkSkippingSanitisers(node)
    ensures |trail| > 0 && IsTrail(trail) && trail[0] == node && trail[|trail| - 1] == sub
    decreases node
  {
    hide WalkSkippingSanitisers, WalkChildren, IsPartOf, IsCallOnSelf;
    WalkedIsOpen(node, sub);
    if sub == node {
      trail := [node];
    } else {
      WalkOfChildren(node, Children(node), sub);
      var child :| child in Children(node) && sub in WalkSkippingSanitisers(child);
      ChildrenAreTheParts(node, child);
      trail := WalkedHasATrail(child, sub);
      TrailGrows(node, trail);
      trail := [node] + trail;
    }
  }

  lemma {:induction false} TrailIsWalked(trail: seq<Node>)
    requires IsTrail(trail)
    ensures trail[|trail| - 1] in WalkSkippingSanitisers(trail[0])
  {
    if |trail| > 1 {
      var rest := trail[1..];
      forall i | 0 <= i < |rest| - 1 ensures IsPartOf(rest[i + 1], rest[i]) {
        assert IsPartOf(trail[i + 1 + 1], trail[i + 1]);
      }
      TrailIsWalked(rest);
      ChildrenAreTheParts(trail[0], trail[1]);
      assert trail[1] in Children(trail[0]) by { assert IsPartOf(trail[0 + 1], trail[0]); }
      WalkOfChildren(trail[0], Children(trail[0]), trail[|trail| - 1]);
    }
  }

  lemma ContainsTextExactlyWhen(text: string, mark: string)
    ensures ContainsText(text, mark) <==> exists a, b :: text == a + mark + b
  {
    if ContainsText(text, mark) {
      var i :| 0 <= i <= |text| - |mark| && HasTextAt(text, mark, i);
      assert text == text[..i] + mark + text[i + |mark|..];
    }
    if a, b :| text == a + mark + b {
      assert HasTextAt(text, mark, |a|);
    }
  }

  lemma MarksExactlyWhen(node: Node, tainted: set<string>, rule: CategoryRule)
    ensures Marks(node, tainted, rule) <==> IsSeed(node, rule) || (node.Name? && node.id in tainted)
  {
    hide ContainsText;
    if node.Attribute? {
      ContainsTextExactlyWhen(node.attr, "path");
    }
  }

  /** An expression is tainted exactly when a trail of its parts, none an f-string or a call on
      `self` or its port, leads to where a path enters. */
  lemma TaintedExactlyWhen(node: Node, tainted: set<string>, rule: CategoryRule)
    ensures IsTainted(node, tainted, rule) <==> IsReachedFrom(node, tainted, rule)
  {
    if IsTainted(node, tainted, rule) {
      TaintedIsReachedFrom(node, tainted, rule);
    }
    if IsReachedFrom(node, tainted, rule) {
      ReachedFromIsTainted(node, tainted, rule);
    }
  }

  lemma TaintedIsReachedFrom(node: Node, tainted: set<string>, rule: CategoryRule)
    requires IsTainted(node, tainted, rule)
    ensures IsReachedFrom(node, tainted, rule)
  {
    hide WalkSkippingSanitisers, IsTrail, IsSeed, Marks;
    var sub :| sub in WalkSkippingSanitisers(node) && (IsSeed(sub, rule) || (sub.Name? && sub.id in tainted));
    var trail := WalkedHasATrail(node, sub);
    MarksExactlyWhen(sub, tainted, rule);
  }

  lemma ReachedFromIsTainted(node: Node, tainted: set<string>, rule: CategoryRule)
    requires IsReachedFrom(node, tainted, rule)
    ensures IsTainted(node, tainted, rule)
  {
    hide WalkSkippingSanitisers, IsTrail, IsSeed, Marks;
    var trail: seq<Node> :| IsTrail(trail) && |trail| > 0 && trail[0] == node && Marks(trail[|trail| - 1], tainted, rule);
    TrailIsWalked(trail);
    MarksExactlyWhen(trail[|trail| - 1], tainted, rule);
  }

  /** No name taints an f-string, nor what a call on `self` or its port returns. */
  lemma SanitisersAreNeverTainted(parts: seq<Node>, callee: string, args: seq<Node>, keywords: seq<Node>,
                                  tainted: set<string>, rule: CategoryRule)
    ensures !IsTainted(JoinedStr(parts), tainted, rule)
    ensures !IsTainted(Call(Attribute(Name("self"), callee), args, keywords), tainted, rule)
    ensures !IsTainted(Call(Attribute(Attribute(Name("self"), "_fs"), callee), args, keywords), tainted, rule)
  {
    TaintedExactlyWhen(JoinedStr(parts), tainted, rule);
    TaintedExactlyWhen(Call(Attribute(Name("self"), callee), args, keywords), tainted, rule);
    TaintedExactlyWhen(Call(Attribute(Attribute(Name("self"), "_fs"), callee), args, keywords), tainted, rule);
  }

  /** Taint passes through an expression one name at a time. */
  lemma TaintComesFromOneName(node: Node, tainted: set<string>, rule: CategoryRule)
    ensures IsReachedFrom(node, tainted, rule) <==>
            IsReachedFrom(node, {}, rule) || exists name :: name in tainted && IsReachedFrom(node, {name}, rule)
  {
    hide IsTrail;
    if trail: seq<Node> :| IsTrail(trail) && |trail| > 0 && trail[0] == node && Marks(trail[|trail| - 1], tainted, rule) {
      var end := trail[|trail| - 1];
      if end.Name? && end.id in tainted {
        assert Marks(end, {end.id}, rule);
        assert IsReachedFrom(node, {end.id}, rule);
      }
    }
    if IsReachedFrom(node, {}, rule) {
      TaintIsMonotone(node, {}, tainted, rule);
    }
    if name :| name in tainted && IsReachedFrom(node, {name}, rule) {
      TaintIsMonotone(node, {name}, tainted, rule);
    }
  }

  lemma TaintIsMonotone(node: Node, fewer: set<string>, more: set<string>, rule: CategoryRule)
    requires fewer <= more && IsReachedFrom(node, fewer, rule)
    ensures IsReachedFrom(node, more, rule)
  {
    hide IsTrail;
    var trail: seq<Node> :| IsTrail(trail) && |trail| > 0 && trail[0] == node && Marks(trail[|trail| - 1], fewer, rule);
    assert Marks(trail[|trail| - 1], more, rule);
  }

  // ---- Bindings, and the chains of assignments they make ----

  /** The names a node binds, and the expression it binds them from. */
  function BoundNames(targets: seq<Node>): set<string> {
    set target | target in targets && target.Name? :: target.id
  }

  function Binding(node: Node): Option<(set<string>, Node)> {
    match node
    case Assign(targets, value) => Some((BoundNames(targets), value))
    case AnnAssign(target, _, Some(value)) => Some((BoundNames([target]), value))
    case WithItem(context, Some(bound)) => Some((BoundNames([bound]), context))
    case _ => None
  }

  ghost predicate IsBoundTo(node: Node, name: string, expression: Node) {
    || (node.Assign? && Name(name) in node.targets && node.value == expression)
    || (node.AnnAssign? && node.target == Name(name) && node.stated == Some(expression))
    || (node.WithItem? && node.bound == Some(Name(name)) && node.context == expression)
  }

  ghost predicate BindsFrom(node: Node, name: string, tainted: set<string>, rule: CategoryRule) {
    exists expression :: IsBoundTo(node, name, expression) && IsReachedFrom(expression, tainted, rule)
  }

  lemma BindsFromExactlyWhen(node: Node, name: string, tainted: set<string>, rule: CategoryRule)
    ensures BindsFrom(node, name, tainted, rule) <==>
            Binding(node).Some? && name in Binding(node).value.0 && IsTainted(Binding(node).value.1, tainted, rule)
  {
    hide IsTainted, IsReachedFrom;
    forall expression ensures IsBoundTo(node, name, expression) <==>
        Binding(node).Some? && name in Binding(node).value.0 && Binding(node).value.1 == expression
    {
    }
    if Binding(node).Some? {
      TaintedExactlyWhen(Binding(node).value.1, tainted, rule);
    }
  }

  ghost predicate Links(nodes: set<Node>, from: set<string>, name: string, rule: CategoryRule) {
    exists node :: node in nodes && BindsFrom(node, name, from, rule)
  }

  /** Each name of the chain is bound from an expression the one before it taints, and the first
      from an expression holding a seed, with no sanitiser in between. */
  ghost predicate IsChain(chain: seq<string>, nodes: set<Node>, rule: CategoryRule) {
    && |chain| > 0
    && if |chain| == 1 then Links(nodes, {}, chain[0], rule)
       else
         && IsChain(chain[..|chain| - 1], nodes, rule)
         && Links(nodes, {chain[|chain| - 2]}, chain[|chain| - 1], rule)
  }

  ghost predicate HasChain(name: string, nodes: set<Node>, rule: CategoryRule) {
    exists chain :: IsChain(chain, nodes, rule) && chain[|chain| - 1] == name
  }

  ghost predicate IsClosed(names: set<string>, nodes: set<Node>, rule: CategoryRule) {
    forall node, name :: node in nodes && BindsFrom(node, name, names, rule) ==> name in names
  }

  lemma BindingGrows(node: Node, name: string, fewer: set<string>, more: set<string>, rule: CategoryRule)
    requires fewer <= more && BindsFrom(node, name, fewer, rule)
    ensures BindsFrom(node, name, more, rule)
  {
    hide IsReachedFrom;
    var expression :| IsBoundTo(node, name, expression) && IsReachedFrom(expression, fewer, rule);
    TaintIsMonotone(expression, fewer, more, rule);
  }

  /** A chain's names lie in every closed set, whatever order the nodes are visited in. */
  lemma {:induction false} ChainStaysInside(chain: seq<string>, nodes: set<Node>, rule: CategoryRule, names: set<string>)
    requires IsChain(chain, nodes, rule) && IsClosed(names, nodes, rule)
    ensures chain[|chain| - 1] in names
  {
    hide BindsFrom;
    var last := chain[|chain| - 1];
    if |chain| > 1 {
      ChainStaysInside(chain[..|chain| - 1], nodes, rule, names);
    }
    var from := if |chain| == 1 then {} else {chain[|chain| - 2]};
    var node :| node in nodes && BindsFrom(node, last, from, rule);
    BindingGrows(node, last, from, names, rule);
  }

  lemma ChainedNameStaysInside(name: string, nodes: set<Node>, rule: CategoryRule, names: set<string>)
    requires HasChain(name, nodes, rule) && IsClosed(names, nodes, rule)
    ensures name in names
  {
    var chain :| IsChain(chain, nodes, rule) && chain[|chain| - 1] == name;
    ChainStaysInside(chain, nodes, rule, names);
  }

  lemma ChainGrows(name: string, nodes: set<Node>, rule: CategoryRule, node: Node, next: string)
    requires HasChain(name, nodes, rule) && node in nodes && BindsFrom(node, next, {name}, rule)
    ensures HasChain(next, nodes, rule)
  {
    hide BindsFrom;
    var chain :| IsChain(chain, nodes, rule) && chain[|chain| - 1] == name;
    var longer := chain + [next];
    assert longer[..|longer| - 1] == chain && longer[|longer| - 2] == name && longer[|longer| - 1] == next;
    assert Links(nodes, {name}, next, rule);
  }

  lemma BindingFromChainsHasChain(names: set<string>, nodes: set<Node>, rule: CategoryRule, node: Node, name: string)
    requires forall known :: known in names ==> HasChain(known, nodes, rule)
    requires node in nodes && BindsFrom(node, name, names, rule)
    ensures HasChain(name, nodes, rule)
  {
    hide IsReachedFrom, HasChain;
    var expression :| IsBoundTo(node, name, expression) && IsReachedFrom(expression, names, rule);
    TaintComesFromOneName(expression, names, rule);
    if IsReachedFrom(expression, {}, rule) {
      assert BindsFrom(node, name, {}, rule);
      FirstLink(name, nodes, rule, node);
    } else {
      var known :| known in names && IsReachedFrom(expression, {known}, rule);
      assert BindsFrom(node, name, {known}, rule);
      ChainGrows(known, nodes, rule, node, name);
    }
  }

  lemma FirstLink(name: string, nodes: set<Node>, rule: CategoryRule, node: Node)
    requires node in nodes && BindsFrom(node, name, {}, rule)
    ensures HasChain(name, nodes, rule)
  {
    hide BindsFrom;
    var chain := [name];
    assert Links(nodes, {}, chain[0], rule);
    assert IsChain(chain, nodes, rule) && chain[|chain| - 1] == name;
  }

  // ---- Walking a function, and the fixpoint over its assignments ----

  function Size(node: Node): (r: nat)
    ensures r > 0
    decreases node, 1
  {
    1 + SizeOfAll(node, Children(node))
  }

  function SizeOfAll(node: Node, children: seq<Node>): nat
    requires forall i :: 0 <= i < |children| ==> children[i] < node
    decreases node, 0, |children|
  {
    if |children| == 0 then 0 else Size(children[0]) + SizeOfAll(node, children[1..])
  }

  function TotalSize(nodes: seq<Node>): nat {
    if |nodes| == 0 then 0 else Size(nodes[0]) + TotalSize(nodes[1..])
  }

  lemma {:induction false} TotalSizeConcat(a: seq<Node>, b: seq<Node>)
    ensures TotalSize(a + b) == TotalSize(a) + TotalSize(b)
  {
    if |a| == 0 {
      assert a + b == b;
    } else {
      assert (a + b)[1..] == a[1..] + b;
      TotalSizeConcat(a[1..], b);
    }
  }

  lemma {:induction false} TotalSizeOfChildren(node: Node, children: seq<Node>)
    requires forall i :: 0 <= i < |children| ==> children[i] < node
    ensures TotalSize(children) == SizeOfAll(node, children)
  {
    if |children| != 0 {
      TotalSizeOfChildren(node, children[1..]);
    }
  }

  /** `ast.walk`: every node under those still to do, breadth first. */
  function AstWalk(todo: seq<Node>): seq<Node>
    decreases TotalSize(todo)
  {
    if |todo| == 0 then []
    else
      TotalSizeConcat(todo[1..], Children(todo[0]));
      TotalSizeOfChildren(todo[0], Children(todo[0]));
      [todo[0]] + AstWalk(todo[1..] + Children(todo[0]))
  }

  predicate IsUnder(node: Node, root: Node)
    decreases root
  {
    node == root || exists child :: child in Children(root) && IsUnder(node, child)
  }

  ghost predicate IsUnderAny(node: Node, roots: seq<Node>) {
    exists root :: root in roots && IsUnder(node, root)
  }

  lemma UnderFirstOrRest(node: Node, todo: seq<Node>)
    requires |todo| > 0
    ensures IsUnderAny(node, todo) <==> node == todo[0] || IsUnderAny(node, todo[1..] + Children(todo[0]))
  {
    var first, rest := todo[0], todo[1..] + Children(todo[0]);
    assert todo == [first] + todo[1..];
    if root :| root in todo && IsUnder(node, root) {
      if root in todo[1..] {
        assert root in rest;
      } else if node != first {
        var child :| child in Children(first) && IsUnder(node, child);
        assert child in rest;
      }
    }
    if root :| root in rest && IsUnder(node, root) {
      if root in Children(first) {
        assert IsUnder(node, first);
      } else {
        assert root in todo;
      }
    }
    assert first in todo && IsUnder(first, first);
  }

  /** The walk lists exactly the nodes of the trees it starts from. */
  lemma {:induction false} AstWalkListsEveryNode(todo: seq<Node>, node: Node)
    ensures node in AstWalk(todo) <==> IsUnderAny(node, todo)
    decreases TotalSize(todo)
  {
    if |todo| != 0 {
      TotalSizeConcat(todo[1..], Children(todo[0]));
      TotalSizeOfChildren(todo[0], Children(todo[0]));
      AstWalkListsEveryNode(todo[1..] + Children(todo[0]), node);
      UnderFirstOrRest(node, todo);
    }
  }

  function ChildrenOfAll(nodes: seq<Node>): seq<Node> {
    if |nodes| == 0 then [] else Children(nodes[0]) + ChildrenOfAll(nodes[1..])
  }

  lemma WalkOfFirst(first: Node, more: seq<Node>)
    ensures AstWalk([first] + more) == [first] + AstWalk(more + Children(first))
  {
    assert ([first] + more)[1..] == more;
  }

  lemma ChildrenOfFirst(first: Node, more: seq<Node>)
    ensures ChildrenOfAll([first] + more) == Children(first) + ChildrenOfAll(more)
    ensures ChildrenOfAll([]) == []
  {
    assert ([first] + more)[1..] == more;
  }

  lemma {:induction false} WalkPastTheFirst(first: seq<Node>, more: seq<Node>)
    ensures AstWalk(first + more) == first + AstWalk(more + ChildrenOfAll(first))
  {
    hide AstWalk, Children, ChildrenOfAll;
    if |first| == 0 {
      ChildrenOfFirst(Name(""), []);
      assert first == [] && [] + more == more && more + [] == more;
      assert [] + AstWalk(more) == AstWalk(more);
    } else {
      var head, rest := first[0], first[1..];
      assert first == [head] + rest && first + more == [head] + (rest + more);
      WalkOfFirst(head, rest + more);
      ChildrenOfFirst(head, rest);
      assert (rest + more) + Children(head) == rest + (more + Children(head));
      WalkPastTheFirst(rest, more + Children(head));
      assert (more + Children(head)) + ChildrenOfAll(rest) == more + ChildrenOfAll(first);
    }
  }

  /** Each level of the trees is listed whole before the next. */
  lemma AstWalkListsLevelByLevel(level: seq<Node>)
    ensures AstWalk(level) == level + AstWalk(ChildrenOfAll(level))
  {
    WalkPastTheFirst(level, []);
    assert level + [] == level && [] + ChildrenOfAll(level) == ChildrenOfAll(level);
  }

  function NodesOf(nodes: seq<Node>): set<Node> {
    set node | node in nodes
  }

  function AllBoundNames(nodes: seq<Node>): set<string> {
    set node, name | node in nodes && Binding(node).Some? && name in Binding(node).value.0 :: name
  }

  /** A binding visited once more names have been tainted adds no less. */
  lemma VisitedBinding(node: Node, before: set<string>, tainted: set<string>, after: set<string>, rule: CategoryRule)
    requires before <= tainted <= after
    requires Binding(node).Some? && IsTainted(Binding(node).value.1, tainted, rule) ==> Binding(node).value.0 <= after
    ensures forall name :: BindsFrom(node, name, before, rule) ==> name in after
  {
    hide IsTainted, BindsFrom;
    forall name | BindsFrom(node, name, before, rule) ensures name in after {
      BindingGrows(node, name, before, tainted, rule);
      BindsFromExactlyWhen(node, name, tainted, rule);
    }
  }

  lemma VisitedNamesHaveChains(node: Node, tainted: set<string>, nodes: set<Node>, rule: CategoryRule)
    requires forall known :: known in tainted ==> HasChain(known, nodes, rule)
    requires node in nodes && Binding(node).Some? && IsTainted(Binding(node).value.1, tainted, rule)
    ensures forall name :: name in Binding(node).value.0 ==> HasChain(name, nodes, rule)
  {
    hide IsTainted, BindsFrom, HasChain;
    forall name | name in Binding(node).value.0 ensures HasChain(name, nodes, rule) {
      BindsFromExactlyWhen(node, name, tainted, rule);
      BindingFromChainsHasChain(tainted, nodes, rule, node, name);
    }
  }

  /** Grows the set while it walks, and walks again until a walk adds nothing. */
  method TaintedNames(nodes: seq<Node>, rule: CategoryRule) returns (tainted: set<string>)
    ensures IsClosed(tainted, NodesOf(nodes), rule)
    ensures forall name :: name in tainted <==> HasChain(name, NodesOf(nodes), rule)
  {
    hide IsTainted, HasChain, BindsFrom;
    ghost var all := NodesOf(nodes);
    tainted := {};
    var before: set<string> := {};
    var grew := true;
    while grew
      invariant tainted <= AllBoundNames(nodes)
      invariant forall name :: name in tainted ==> HasChain(name, all, rule)
      invariant !grew ==> IsClosed(tainted, all, rule)
      decreases AllBoundNames(nodes) - tainted, grew
    {
      before := tainted;
      for n := 0 to |nodes|
        invariant before <= tainted <= AllBoundNames(nodes)
        invariant forall name :: name in tainted ==> HasChain(name, all, rule)
        invariant forall i, name :: 0 <= i < n && BindsFrom(nodes[i], name, before, rule) ==> name in tainted
      {
        var binding := Binding(nodes[n]);
        ghost var known := tainted;
        if binding.Some? && IsTainted(binding.value.1, tainted, rule) {
          VisitedNamesHaveChains(nodes[n], tainted, all, rule);
          tainted := tainted + binding.value.0;
        }
        VisitedBinding(nodes[n], before, known, tainted, rule);
      }
      grew := tainted != before;
    }
    forall name | HasChain(name, all, rule) ensures name in tainted {
      ChainedNameStaysInside(name, all, rule, tainted);
    }
  }

  /** So the names found are the least closed set, and no visiting order changes them. */
  lemma TaintedNamesAreLeast(tainted: set<string>, nodes: set<Node>, rule: CategoryRule, other: set<string>)
    requires forall name :: name in tainted <==> HasChain(name, nodes, rule)
    requires IsClosed(other, nodes, rule)
    ensures tainted <= other
  {
    forall name | name in tainted ensures name in other {
      ChainedNameStaysInside(name, nodes, rule, other);
    }
  }

  // ---- The calls reported ----

  predicate IsSanctioned(call: Node, rule: CategoryRule)
    requires call.Call?
  {
    rule.fsCalleeAllowed && (IsFsCallee(call.func) || IsSelfMethodCallee(call.func))
  }

  /** What a call is handed: its arguments, and the object it is called on. */
  function HandedTo(call: Node): seq<Node>
    requires call.Call?
  {
    call.args + call.keywords + (if call.func.Attribute? then [call.func.value] else [])
  }

  predicate IsViolation(node: Node, tainted: set<string>, rule: CategoryRule) {
    && node.Call?
    && !IsSanctioned(node, rule)
    && ((rule.openBanned && IsOpenCall(node))
        || exists handed :: handed in HandedTo(node) && IsTainted(handed, tainted, rule))
  }

  function Violates(tainted: set<string>, rule: CategoryRule): Node -> bool {
    (node: Node) => IsViolation(node, tainted, rule)
  }

  /** A seed reaches an expression directly, or through the last name of a chain. */
  ghost predicate IsReachedByASeed(expression: Node, nodes: set<Node>, rule: CategoryRule) {
    || IsReachedFrom(expression, {}, rule)
    || exists name :: HasChain(name, nodes, rule) && IsReachedFrom(expression, {name}, rule)
  }

  /** What the analysis promises of a call, with no mention of how names are gathered: an `open`
      where that is banned, an argument a seed reaches, or a method of an object it reaches, but
      never, where the port is allowed, a call on `self` or on it. */
  ghost predicate MustBeReported(node: Node, nodes: set<Node>, rule: CategoryRule) {
    && node.Call?
    && !(rule.fsCalleeAllowed && IsCallOnSelf(node))
    && (|| (rule.openBanned && node.func == Name("open"))
        || (exists arg :: arg in node.args + node.keywords && IsReachedByASeed(arg, nodes, rule))
        || (node.func.Attribute? && IsReachedByASeed(node.func.value, nodes, rule)))
  }

  lemma TaintedIsReached(expression: Node, tainted: set<string>, nodes: set<Node>, rule: CategoryRule)
    requires forall name :: name in tainted <==> HasChain(name, nodes, rule)
    ensures IsTainted(expression, tainted, rule) <==> IsReachedByASeed(expression, nodes, rule)
  {
    hide IsTainted, HasChain, IsReachedFrom;
    TaintedExactlyWhen(expression, tainted, rule);
    TaintComesFromOneName(expression, tainted, rule);
  }

  lemma ViolationsAreTheReachedCalls(node: Node, tainted: set<string>, nodes: set<Node>, rule: CategoryRule)
    requires forall name :: name in tainted <==> HasChain(name, nodes, rule)
    ensures IsViolation(node, tainted, rule) <==> MustBeReported(node, nodes, rule)
  {
    hide IsTainted, HasChain, IsReachedByASeed;
    forall expression ensures IsTainted(expression, tainted, rule) <==> IsReachedByASeed(expression, nodes, rule) {
      TaintedIsReached(expression, tainted, nodes, rule);
    }
    if node.Call? {
      assert forall handed :: handed in HandedTo(node) <==>
        handed in node.args + node.keywords || (node.func.Attribute? && handed == node.func.value);
    }
  }

  /** A step or validator may call neither `open` nor anything with a `Path` or a staging
      directory in hand; a source or sink may, and hands what it likes to its port. */
  lemma CategoriesDiffer(rule: CategoryRule, nodes: set<Node>, callee: string, args: seq<Node>, keywords: seq<Node>)
    requires rule in {SINKS, SOURCES, STEPS, VALIDATORS}
    ensures var isStep := rule == STEPS || rule == VALIDATORS;
            && (isStep ==> rule != SINKS && rule != SOURCES)
            && (MustBeReported(Call(Name("open"), [], []), nodes, rule) <==> isStep)
            && (IsReachedFrom(Call(Name("Path"), [], []), {}, rule) <==> isStep)
            && (IsReachedFrom(Attribute(Name("store"), "staging_dir"), {}, rule) <==> isStep)
            && (!isStep ==>
                  !MustBeReported(Call(Attribute(Attribute(Name("self"), "_fs"), callee), args, keywords), nodes, rule)
                  && !MustBeReported(Call(Attribute(Name("self"), callee), args, keywords), nodes, rule))
            && (isStep && (exists arg :: arg in args + keywords && IsReachedFrom(arg, {}, rule)) ==>
                  MustBeReported(Call(Attribute(Attribute(Name("self"), "_fs"), callee), args, keywords), nodes, rule)
                  && MustBeReported(Call(Attribute(Name("self"), callee), args, keywords), nodes, rule))
  {
    hide IsTainted, IsReachedFrom, HasChain;
    TaintedExactlyWhen(Call(Name("Path"), [], []), {}, rule);
    TaintedExactlyWhen(Attribute(Name("store"), "staging_dir"), {}, rule);
    SeedsOfSteps(rule);
  }

  lemma SeedsOfSteps(rule: CategoryRule)
    ensures IsTainted(Call(Name("Path"), [], []), {}, rule) <==> rule.seedsSteps
    ensures IsTainted(Attribute(Name("store"), "staging_dir"), {}, rule) <==> rule.seedsSteps
  {
    var path, staging := Call(Name("Path"), [], []), Attribute(Name("store"), "staging_dir");
    assert WalkSkippingSanitisers(Name("Path")) == [Name("Path")];
    assert WalkSkippingSanitisers(Name("store")) == [Name("store")];
    assert path.func != Name("open");
    assert Children(path) == [Name("Path")] && Children(staging) == [Name("store")];
    WalkOfChildren(path, Children(path), path);
    assert WalkChildren(path, [Name("Path")]) == [Name("Path")];
    assert WalkChildren(staging, [Name("store")]) == [Name("store")];
    assert WalkSkippingSanitisers(path) == [path, Name("Path")];
    assert WalkSkippingSanitisers(staging) == [staging, Name("store")];
    assert path in WalkSkippingSanitisers(path) && staging in WalkSkippingSanitisers(staging);
  }

  /** The calls reported, in the order of the walk. */
  method FunctionViolations(definition: Node, rule: CategoryRule)
    returns (violations: seq<Node>, ghost tainted: set<string>)
    ensures violations == Filter(AstWalk([definition]), Violates(tainted, rule))
    ensures forall node :: node in violations <==>
              IsUnder(node, definition) && MustBeReported(node, NodesOf(AstWalk([definition])), rule)
  {
    hide IsTainted, IsViolation, IsUnder, Filter, AstWalk, NodesOf, MustBeReported, HasChain, IsClosed;
    var walk := AstWalk([definition]);
    var names := TaintedNames(walk, rule);
    tainted := names;
    violations := [];
    FilterOfNone(Violates(names, rule));
    assert walk[..0] == [];
    for n := 0 to |walk|
      invariant violations == Filter(walk[..n], Violates(names, rule))
    {
      assert walk[..n + 1][..n] == walk[..n];
      FilterSnoc(walk[..n + 1], Violates(names, rule));
      if IsViolation(walk[n], names, rule) {
        violations := violations + [walk[n]];
      }
    }
    assert walk[..|walk|] == walk;
    forall node
      ensures node in violations <==> IsUnder(node, definition) && MustBeReported(node, NodesOf(walk), rule)
    {
      AstWalkListsEveryNode([definition], node);
      UnderOne(node, definition);
      ViolationsAreTheReachedCalls(node, names, NodesOf(walk), rule);
    }
  }

  lemma UnderOne(node: Node, root: Node)
    ensures IsUnderAny(node, [root]) <==> IsUnder(node, root)
  {
    hide IsUnder;
    assert root in [root];
  }
}
