/** The directories a run's legs hand their files over in
    (interop/core/composition/planning.py). */
module HandoffRouting {
  import opened Common
  import opened Addressing

  datatype LegKind = MappingLeg | TranslationLeg

  // A hand-off of None stands for the boundary of the run.
  datatype Leg = Leg(
    pipeline: string,
    spec: PipelineSpec,
    kind: LegKind,
    readsHandoffFrom: Option<string>,
    writesHandoffTo: Option<string>)

  // ---- Numbers as they are printed ----

  const DIGITS := "0123456789"

  function Decimal(n: nat): (r: string)
    ensures |r| > 0
  {
    if n < 10 then [DIGITS[n]] else Decimal(n / 10) + [DIGITS[n % 10]]
  }

  function DigitValue(digit: char): nat {
    if '0' <= digit <= '9' then digit as int - '0' as int else 0
  }

  function ReadDecimal(text: string): nat {
    if |text| == 0 then 0 else ReadDecimal(text[..|text| - 1]) * 10 + DigitValue(text[|text| - 1])
  }

  predicate IsDigit(digit: char) { '0' <= digit <= '9' }

  lemma DigitsReadBack(n: nat)
    requires n < 10
    ensures DigitValue(DIGITS[n]) == n && IsDigit(DIGITS[n])
  {
  }

  lemma {:induction false} DecimalReadsBack(n: nat)
    ensures ReadDecimal(Decimal(n)) == n
    ensures forall i :: 0 <= i < |Decimal(n)| ==> IsDigit(Decimal(n)[i])
  {
    if n < 10 {
      DigitsReadBack(n);
    } else {
      DecimalReadsBack(n / 10);
      DigitsReadBack(n % 10);
      var text := Decimal(n);
      assert text[..|text| - 1] == Decimal(n / 10);
    }
  }

  // ---- One directory per leg ----

  const MAPPING_PREFIX := "mapping-"

  function HandoffDirectory(position: nat, leg: Leg): string {
    (if leg.kind == TranslationLeg then "" else MAPPING_PREFIX) + Decimal(position) + "-" + leg.pipeline
  }

  lemma NumberEndsAtTheDash(a: string, x: string, b: string, y: string)
    requires forall i :: 0 <= i < |a| ==> IsDigit(a[i])
    requires forall i :: 0 <= i < |b| ==> IsDigit(b[i])
    requires a + "-" + x == b + "-" + y
    ensures a == b
  {
    var left, right := a + "-" + x, b + "-" + y;
    assert forall i :: 0 <= i < |a| ==> left[i] == a[i] && IsDigit(left[i]);
    assert forall i :: 0 <= i < |b| ==> right[i] == b[i] && IsDigit(right[i]);
    assert !IsDigit(left[|a|]) && !IsDigit(right[|b|]);
    assert |a| == |b|;
    assert a == left[..|a|] && b == right[..|b|];
  }

  lemma DirectoryParts(position: nat, leg: Leg)
    ensures var text, rest := HandoffDirectory(position, leg), Decimal(position) + "-" + leg.pipeline;
            if leg.kind == TranslationLeg then text == rest && IsDigit(text[0])
            else |text| >= |MAPPING_PREFIX| && text[0] == 'm' && text[|MAPPING_PREFIX|..] == rest
  {
    DecimalReadsBack(position);
    var text, number := HandoffDirectory(position, leg), Decimal(position);
    if leg.kind == TranslationLeg {
      assert "" + number == number;
      assert text[0] == number[0];
    } else {
      assert text == MAPPING_PREFIX + (number + "-" + leg.pipeline);
    }
  }

  /** Two legs share a directory only where they share a kind and a position within it, whatever
      their pipelines are called. */
  lemma DirectoriesAreDistinct(p: nat, a: Leg, q: nat, b: Leg)
    requires HandoffDirectory(p, a) == HandoffDirectory(q, b)
    ensures a.kind == b.kind && p == q
  {
    hide Decimal, HandoffDirectory;
    DirectoryParts(p, a);
    DirectoryParts(q, b);
    DecimalReadsBack(p);
    DecimalReadsBack(q);
    NumberEndsAtTheDash(Decimal(p), a.pipeline, Decimal(q), b.pipeline);
  }

  // ---- Routing ----

  function CountOfKind(legs: seq<Leg>, kind: LegKind): nat {
    if |legs| == 0 then 0
    else CountOfKind(legs[..|legs| - 1], kind) + if legs[|legs| - 1].kind == kind then 1 else 0
  }

  lemma NoneCounted()
    ensures CountOfKind([], MappingLeg) == 0 && CountOfKind([], TranslationLeg) == 0
  {
  }

  lemma CountStep(planned: seq<Leg>, n: nat)
    requires n < |planned|
    ensures forall kind :: CountOfKind(planned[..n + 1], kind)
                           == CountOfKind(planned[..n], kind) + if planned[n].kind == kind then 1 else 0
  {
    assert planned[..n + 1][..n] == planned[..n];
  }

  /** Numbered within its own kind, so a mapping pipeline renumbers no translation. */
  function DirectoryOf(planned: seq<Leg>, i: nat): string
    requires i < |planned|
  {
    HandoffDirectory(CountOfKind(planned[..i], planned[i].kind), planned[i])
  }

  /** The last translation leg before position `i`, or -1. */
  function UpstreamOf(planned: seq<Leg>, i: nat): (j: int)
    requires i <= |planned|
    ensures -1 <= j < i
    ensures j >= 0 ==> planned[j].kind == TranslationLeg
    ensures forall k :: j < k < i ==> planned[k].kind != TranslationLeg
  {
    if i == 0 then -1
    else if planned[i - 1].kind == TranslationLeg then i - 1
    else UpstreamOf(planned, i - 1)
  }

  function FinalOf(planned: seq<Leg>): int { UpstreamOf(planned, |planned|) }

  function Routed(planned: seq<Leg>, i: nat): Leg
    requires i < |planned|
  {
    var upstream := UpstreamOf(planned, i);
    planned[i].(
      readsHandoffFrom := if planned[i].kind == TranslationLeg && upstream >= 0 then Some(DirectoryOf(planned, upstream)) else None,
      writesHandoffTo := if i == FinalOf(planned) then None else Some(DirectoryOf(planned, i)))
  }

  function RoutedLegs(planned: seq<Leg>): (r: seq<Leg>)
    ensures |r| == |planned|
    ensures forall i :: 0 <= i < |r| ==> r[i] == Routed(planned, i)
  {
    seq(|planned|, i requires 0 <= i < |planned| => Routed(planned, i))
  }

  /** One pass over the legs, carrying the directory last handed over and a count per kind. */
  method RouteHandoffs(planned: seq<Leg>) returns (routed: seq<Leg>)
    requires exists leg :: leg in planned && leg.kind == TranslationLeg
    ensures routed == RoutedLegs(planned)
  {
    hide Decimal, CountOfKind;
    var final := FinalOf(planned);
    var upstream: Option<string> := None;
    NoneCounted();
    var seenByKind := map[MappingLeg := 0, TranslationLeg := 0];
    routed := [];
    for index := 0 to |planned|
      invariant |routed| == index && forall i :: 0 <= i < index ==> routed[i] == Routed(planned, i)
      invariant seenByKind.Keys == {MappingLeg, TranslationLeg}
      invariant forall kind :: kind in seenByKind ==> seenByKind[kind] == CountOfKind(planned[..index], kind)
      invariant var j := UpstreamOf(planned, index);
                upstream == if j < 0 then None else Some(DirectoryOf(planned, j))
    {
      var leg := planned[index];
      var directory := HandoffDirectory(seenByKind[leg.kind], leg);
      CountStep(planned, index);
      seenByKind := seenByKind[leg.kind := seenByKind[leg.kind] + 1];
      var isTranslation := leg.kind == TranslationLeg;
      routed := routed + [leg.(
        readsHandoffFrom := if isTranslation then upstream else None,
        writesHandoffTo := if index == final then None else Some(directory))];
      if isTranslation {
        upstream := Some(directory);
      }
    }
  }

  lemma {:induction false} CountGrows(planned: seq<Leg>, i: nat, j: nat)
    requires i < j <= |planned|
    ensures CountOfKind(planned[..i], planned[i].kind) < CountOfKind(planned[..j], planned[i].kind)
    decreases j
  {
    assert planned[..j][..j - 1] == planned[..j - 1];
    if i < j - 1 {
      CountGrows(planned, i, j - 1);
    }
  }

  /** All directories written are pairwise distinct, repeated pipeline names included. */
  lemma WrittenDirectoriesAreDistinct(planned: seq<Leg>, i: nat, j: nat)
    requires i < j < |planned|
    requires RoutedLegs(planned)[i].writesHandoffTo.Some? && RoutedLegs(planned)[j].writesHandoffTo.Some?
    ensures RoutedLegs(planned)[i].writesHandoffTo != RoutedLegs(planned)[j].writesHandoffTo
  {
    hide HandoffDirectory, CountOfKind;
    if DirectoryOf(planned, i) == DirectoryOf(planned, j) {
      DirectoriesAreDistinct(CountOfKind(planned[..i], planned[i].kind), planned[i],
                             CountOfKind(planned[..j], planned[j].kind), planned[j]);
      CountGrows(planned, i, j);
    }
  }

  lemma {:induction false} LastUpstreamIsLater(planned: seq<Leg>, i: nat, j: nat)
    requires i < j <= |planned| && planned[i].kind == TranslationLeg
    ensures UpstreamOf(planned, j) >= i
    decreases j
  {
    if planned[j - 1].kind == MappingLeg {
      LastUpstreamIsLater(planned, i, j - 1);
    }
  }

  /** A translation leg reads exactly what the translation leg before it writes. */
  lemma EachLegReadsWhatThePreviousWrites(planned: seq<Leg>, j: nat, i: nat)
    requires j < i < |planned| && planned[j].kind == TranslationLeg && planned[i].kind == TranslationLeg
    requires forall k :: j < k < i ==> planned[k].kind != TranslationLeg
    ensures RoutedLegs(planned)[i].readsHandoffFrom.Some?
    ensures RoutedLegs(planned)[i].readsHandoffFrom == RoutedLegs(planned)[j].writesHandoffTo
  {
    hide DirectoryOf;
    LastUpstreamIsLater(planned, j, i);
    LastUpstreamIsLater(planned, i, |planned|);
  }

  /** The first translation leg and every mapping leg read the run's own boundary, and the last
      translation leg, alone, writes it. */
  lemma BoundaryLegs(planned: seq<Leg>, i: nat)
    requires i < |planned|
    ensures RoutedLegs(planned)[i].readsHandoffFrom.None? <==>
              planned[i].kind == MappingLeg || forall k :: 0 <= k < i ==> planned[k].kind != TranslationLeg
    ensures RoutedLegs(planned)[i].writesHandoffTo.None? <==>
              planned[i].kind == TranslationLeg && forall k :: i < k < |planned| ==> planned[k].kind != TranslationLeg
  {
  }
}
