/** Which bases a plugin class reaches through its category
    (interop/lints/plugin_inheritance.py). */
module PluginInheritanceLint {
  import opened Common

  // A class declaration: its bare-name bases, and the `name` and `port` attributes where stated.
  datatype ClassDef = ClassDef(className: string, bases: set<string>, name: Option<string>, port: Option<string>)

  function ClassName(declared: ClassDef): string { declared.className }

  function BaseNames(declared: ClassDef): set<string> { declared.bases }

  type BasesByClass = map<string, set<string>>

  function Declared(files: seq<seq<ClassDef>>): seq<ClassDef> {
    if |files| == 0 then [] else Declared(files[..|files| - 1]) + files[|files| - 1]
  }

  lemma OneMoreClass(earlier: seq<ClassDef>, file: seq<ClassDef>, n: nat)
    requires n < |file|
    ensures LastWins(earlier + file[..n + 1], ClassName, BaseNames)
            == LastWins(earlier + file[..n], ClassName, BaseNames)[file[n].className := file[n].bases]
  {
    hide LastWins;
    assert earlier + file[..n + 1] == earlier + file[..n] + [file[n]];
    LastWinsSnoc(earlier + file[..n], file[n], ClassName, BaseNames);
  }

  /** A class declared twice in a category has the bases its last declaration states. */
  method ReadCategoryBases(files: seq<seq<ClassDef>>) returns (basesByClass: BasesByClass)
    ensures basesByClass == LastWins(Declared(files), ClassName, BaseNames)
  {
    hide LastWins;
    basesByClass := map[];
    LastWinsOfNone(ClassName, BaseNames);
    for f := 0 to |files|
      invariant basesByClass == LastWins(Declared(files[..f]), ClassName, BaseNames)
    {
      ghost var earlier := Declared(files[..f]);
      assert files[..f + 1][..f] == files[..f];
      assert earlier + files[f][..0] == earlier;
      for n := 0 to |files[f]|
        invariant basesByClass == LastWins(earlier + files[f][..n], ClassName, BaseNames)
      {
        OneMoreClass(earlier, files[f], n);
        basesByClass := basesByClass[files[f][n].className := files[f][n].bases];
      }
      assert files[f][..|files[f]|] == files[f];
    }
    assert files[..|files|] == files;
  }

  lemma {:induction false} DeclaredAfter(files: seq<seq<ClassDef>>, f: nat)
    requires f < |files|
    ensures Declared(files) == Declared(files[..f]) + files[f] + Declared(files[f + 1..])
    decreases |files|
  {
    if f < |files| - 1 {
      var front, rest := files[..|files| - 1], files[f + 1..];
      DeclaredAfter(front, f);
      assert front[..f] == files[..f] && front[f + 1..] == rest[..|rest| - 1] && rest[|rest| - 1] == files[|files| - 1];
    } else {
      assert files[f + 1..] == [] && files[..|files| - 1] == files[..f];
    }
  }

  lemma {:induction false} DeclaredIsInAFile(files: seq<seq<ClassDef>>, declared: ClassDef)
    ensures declared in Declared(files) <==> exists f :: 0 <= f < |files| && declared in files[f]
  {
    if |files| != 0 {
      var front := files[..|files| - 1];
      DeclaredIsInAFile(front, declared);
      if f :| 0 <= f < |files| && declared in files[f] {
        assert f < |front| ==> declared in front[f];
      }
      if f :| 0 <= f < |front| && declared in front[f] {
        assert declared in files[f];
      }
    }
  }

  /** A class with no later declaration of its name, in its own file or a later one, has its bases. */
  lemma LastDeclarationCounts(files: seq<seq<ClassDef>>, f: nat, n: nat)
    requires f < |files| && n < |files[f]|
    requires forall m :: n < m < |files[f]| ==> files[f][m].className != files[f][n].className
    requires forall g, m :: f < g < |files| && 0 <= m < |files[g]| ==> files[g][m].className != files[f][n].className
    ensures var basesByClass := LastWins(Declared(files), ClassName, BaseNames);
            files[f][n].className in basesByClass && basesByClass[files[f][n].className] == files[f][n].bases
  {
    hide LastWins, Declared;
    DeclaredAfter(files, f);
    var all, earlier, later := Declared(files), Declared(files[..f]), Declared(files[f + 1..]);
    forall declared | declared in later ensures declared.className != files[f][n].className {
      DeclaredIsInAFile(files[f + 1..], declared);
      var g :| 0 <= g < |files[f + 1..]| && declared in files[f + 1..][g];
      var m :| 0 <= m < |files[f + 1 + g]| && files[f + 1 + g][m] == declared;
    }
    forall j | |earlier| + n < j < |all| ensures ClassName(all[j]) != files[f][n].className {
      if j < |earlier| + |files[f]| {
        assert all[j] == files[f][j - |earlier|];
      } else {
        assert all[j] == later[j - |earlier| - |files[f]|];
      }
    }
    LastWinsIsLast(all, ClassName, BaseNames, |earlier| + n);
  }

  function BasesOf(basesByClass: BasesByClass, className: string): set<string> {
    if className in basesByClass then basesByClass[className] else {}
  }

  /** A path from a class to a base: a direct base first, then a base of each one reached. */
  ghost predicate IsPath(path: seq<string>, direct: set<string>, basesByClass: BasesByClass) {
    && |path| > 0
    && if |path| == 1 then path[0] in direct
       else
         && IsPath(path[..|path| - 1], direct, basesByClass)
         && path[|path| - 2] in basesByClass && path[|path| - 1] in basesByClass[path[|path| - 2]]
  }

  ghost predicate IsReachable(base: string, direct: set<string>, basesByClass: BasesByClass) {
    exists path :: IsPath(path, direct, basesByClass) && path[|path| - 1] == base
  }

  lemma ReachableGrows(base: string, next: string, direct: set<string>, basesByClass: BasesByClass)
    requires IsReachable(base, direct, basesByClass) && next in BasesOf(basesByClass, base)
    ensures IsReachable(next, direct, basesByClass)
  {
    var path :| IsPath(path, direct, basesByClass) && path[|path| - 1] == base;
    var longer := path + [next];
    assert longer[..|longer| - 1] == path && longer[|longer| - 2] == base && longer[|longer| - 1] == next;
  }

  lemma DirectIsReachable(base: string, direct: set<string>, basesByClass: BasesByClass)
    requires base in direct
    ensures IsReachable(base, direct, basesByClass)
  {
    var path := [base];
    assert IsPath(path, direct, basesByClass) && path[|path| - 1] == base;
  }

  lemma {:induction false} PathStaysInside(path: seq<string>, direct: set<string>, basesByClass: BasesByClass, resolved: set<string>)
    requires IsPath(path, direct, basesByClass) && direct <= resolved
    requires forall base :: base in resolved ==> BasesOf(basesByClass, base) <= resolved
    ensures path[|path| - 1] in resolved
  {
    if |path| > 1 {
      PathStaysInside(path[..|path| - 1], direct, basesByClass, resolved);
    }
  }

  /** Every name the worklist could ever hold. */
  function AllBases(direct: set<string>, basesByClass: BasesByClass): set<string> {
    direct + set className, base | className in basesByClass && base in basesByClass[className] :: base
  }

  /** The elements of a set in whatever order it lists them. */
  method ListOf(names: set<string>) returns (listed: seq<string>)
    ensures forall name :: name in listed <==> name in names
  {
    listed := [];
    var left := names;
    while left != {}
      invariant left <= names
      invariant forall name :: name in listed <==> name in names - left
      decreases left
    {
      var name :| name in left;
      left, listed := left - {name}, listed + [name];
    }
  }

  /** Every base reachable in one or more steps, on cyclic base graphs too. */
  method ResolveBases(declared: ClassDef, basesByClass: BasesByClass) returns (resolved: set<string>)
    ensures forall base :: base in resolved <==> IsReachable(base, declared.bases, basesByClass)
  {
    var direct := declared.bases;
    resolved := {};
    var pending := ListOf(direct);
    forall base | base in direct ensures IsReachable(base, direct, basesByClass) {
      DirectIsReachable(base, direct, basesByClass);
    }
    while |pending| > 0
      invariant resolved <= AllBases(direct, basesByClass)
      invariant forall base :: base in pending ==> base in AllBases(direct, basesByClass)
      invariant forall base :: base in resolved || base in pending ==> IsReachable(base, direct, basesByClass)
      invariant forall base :: base in direct ==> base in resolved || base in pending
      invariant forall base, next :: base in resolved && next in BasesOf(basesByClass, base) ==>
                  next in resolved || next in pending
      decreases AllBases(direct, basesByClass) - resolved, |pending|
    {
      ghost var before := pending;
      var base := pending[|pending| - 1];
      pending := pending[..|pending| - 1];
      assert before == pending + [base];
      if base !in resolved {
        var more := ListOf(BasesOf(basesByClass, base));
        forall next | next in more
          ensures IsReachable(next, direct, basesByClass) && next in AllBases(direct, basesByClass)
        {
          ReachableGrows(base, next, direct, basesByClass);
        }
        resolved := resolved + {base};
        pending := pending + more;
      }
    }
    forall base | IsReachable(base, direct, basesByClass) ensures base in resolved {
      var path :| IsPath(path, direct, basesByClass) && path[|path| - 1] == base;
      PathStaysInside(path, direct, basesByClass, resolved);
    }
  }

  // ---- What the check reports of one class ----

  datatype Finding = NoPort(className: string) | PortNotReached(className: string, port: string) | BaseNotReached(className: string)

  /** `expected` is None for an adapter, whose base its own `port` attribute names. */
  ghost predicate Conforms(declared: ClassDef, expected: Option<seq<string>>, basesByClass: BasesByClass) {
    match expected
    case None =>
      declared.port.Some? && IsReachable(declared.port.value, declared.bases, basesByClass)
    case Some(bases) =>
      exists base :: base in bases && IsReachable(base, declared.bases, basesByClass)
  }

  ghost predicate MustBeReported(declared: ClassDef, expected: Option<seq<string>>, basesByClass: BasesByClass) {
    declared.name.Some? && !Conforms(declared, expected, basesByClass)
  }

  ghost function IsReported(expected: Option<seq<string>>, basesByClass: BasesByClass): ClassDef -> bool {
    (declared: ClassDef) => MustBeReported(declared, expected, basesByClass)
  }

  /** What is said of a class that does not conform: in a category with bases of its own that it
      reaches none of them, and of an adapter that it names no port, or which one it does not reach. */
  ghost predicate Says(finding: Finding, declared: ClassDef, expected: Option<seq<string>>) {
    match finding
    case NoPort(className) => className == declared.className && expected.None? && declared.port.None?
    case PortNotReached(className, port) => className == declared.className && expected.None? && declared.port == Some(port)
    case BaseNotReached(className) => className == declared.className && expected.Some?
  }

  /** One finding for each class that must be reported, of its own kind, in the file's order. */
  method CheckFile(classes: seq<ClassDef>, expected: Option<seq<string>>, basesByClass: BasesByClass)
    returns (findings: seq<Finding>)
    ensures var reported := Filter(classes, IsReported(expected, basesByClass));
            && |findings| == |reported|
            && forall i :: 0 <= i < |findings| ==> Says(findings[i], reported[i], expected)
  {
    hide Filter, IsReachable;
    findings := [];
    ghost var reports := IsReported(expected, basesByClass);
    FilterOfNone(reports);
    assert classes[..0] == [];
    for n := 0 to |classes|
      invariant |findings| == |Filter(classes[..n], reports)|
      invariant forall i :: 0 <= i < |findings| ==> Says(findings[i], Filter(classes[..n], reports)[i], expected)
    {
      var declared := classes[n];
      assert classes[..n + 1][..n] == classes[..n];
      FilterSnoc(classes[..n + 1], reports);
      if declared.name.Some? {
        var bases := ResolveBases(declared, basesByClass);
        match expected {
          case None =>
            if declared.port.None? {
              findings := findings + [NoPort(declared.className)];
            } else if declared.port.value !in bases {
              findings := findings + [PortNotReached(declared.className, declared.port.value)];
            }
          case Some(wanted) =>
            if !exists base :: base in wanted && base in bases {
              findings := findings + [BaseNotReached(declared.className)];
            }
        }
      }
    }
    assert classes[..|classes|] == classes;
  }

  /** The rule as documented, for classes whose `name` is not empty. */
  ghost predicate IsMisplacedPlugin(declared: ClassDef, expected: Option<seq<string>>, basesByClass: BasesByClass) {
    declared.name.Some? && declared.name.value != "" && !Conforms(declared, expected, basesByClass)
  }

  /** The check and the documented rule part over a class exactly where it states an empty `name`
      and does not conform. */
  lemma EmptyNamesAreReportedToo(declared: ClassDef, expected: Option<seq<string>>, basesByClass: BasesByClass)
    ensures (MustBeReported(declared, expected, basesByClass) <==> IsMisplacedPlugin(declared, expected, basesByClass))
            <==> !(declared.name == Some("") && !Conforms(declared, expected, basesByClass))
  {
  }

  lemma {:induction false} NothingIsReachedFromNothing(path: seq<string>, basesByClass: BasesByClass)
    ensures !IsPath(path, {}, basesByClass)
  {
    if |path| > 1 {
      NothingIsReachedFromNothing(path[..|path| - 1], basesByClass);
    }
  }

  /** A source class with no base and an empty `name` is reported. */
  lemma AClassWithAnEmptyNameIsReported()
    ensures var nameless := ClassDef("Helper", {}, Some(""), None);
            && MustBeReported(nameless, Some(["Source", "StagedSource"]), map["Helper" := {}])
            && !IsMisplacedPlugin(nameless, Some(["Source", "StagedSource"]), map["Helper" := {}])
  {
    var basesByClass: BasesByClass := map["Helper" := {}];
    forall path ensures !IsPath(path, {}, basesByClass) {
      NothingIsReachedFromNothing(path, basesByClass);
    }
  }
}
