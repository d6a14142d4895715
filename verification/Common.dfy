/** Data shapes and ordered-sequence facts the other modules share. */
module Common {

  datatype Option<+T> = None | Some(value: T)

  datatype Result<+T, +E> = Success(value: T) | Failure(error: E)

  /** The elements of `s` that satisfy `p`, in their own order. */
  function Filter<T(!new)>(s: seq<T>, p: T -> bool): (r: seq<T>)
    ensures forall x :: x in r <==> x in s && p(x)
    ensures |r| <= |s|
  {
    if |s| == 0 then []
    else
      var front := Filter(s[..|s| - 1], p);
      assert s == s[..|s| - 1] + [s[|s| - 1]];
      if p(s[|s| - 1]) then front + [s[|s| - 1]] else front
  }

  lemma FilterSnoc<T(!new)>(s: seq<T>, p: T -> bool)
    requires |s| > 0
    ensures Filter(s, p) == Filter(s[..|s| - 1], p) + if p(s[|s| - 1]) then [s[|s| - 1]] else []
  {
  }

  lemma {:induction false} FilterConcat<T(!new)>(a: seq<T>, b: seq<T>, p: T -> bool)
    ensures Filter(a + b, p) == Filter(a, p) + Filter(b, p)
  {
    if |b| == 0 {
      assert a + b == a;
    } else {
      var front, last := b[..|b| - 1], b[|b| - 1];
      FilterConcat(a, front, p);
      assert (a + b)[..|a + b| - 1] == a + front && (a + b)[|a + b| - 1] == last;
      assert Filter(a + b, p) == Filter(a + front, p) + (if p(last) then [last] else []);
    }
  }

  lemma {:induction false} FilterAgree<T(!new)>(s: seq<T>, p: T -> bool, q: T -> bool)
    requires forall x :: x in s ==> p(x) == q(x)
    ensures Filter(s, p) == Filter(s, q)
  {
    if |s| != 0 {
      FilterAgree(s[..|s| - 1], p, q);
    }
  }

  lemma {:induction false} FilterCommutes<T(!new)>(s: seq<T>, p: T -> bool, q: T -> bool)
    ensures Filter(Filter(s, p), q) == Filter(Filter(s, q), p)
  {
    if |s| != 0 {
      var front, last := s[..|s| - 1], s[|s| - 1];
      FilterCommutes(front, p, q);
      FilterConcat(Filter(front, p), [last], q);
      FilterConcat(Filter(front, q), [last], p);
      assert Filter([last], p) == if p(last) then [last] else [];
      assert Filter([last], q) == if q(last) then [last] else [];
    }
  }

  /** Filtering by `p` what already satisfies `p` changes nothing. */
  lemma FilterAbsorbs<T(!new)>(s: seq<T>, p: T -> bool, q: T -> bool)
    requires forall x :: x in s && q(x) ==> p(x)
    ensures Filter(Filter(s, p), q) == Filter(s, q)
  {
    FilterCommutes(s, p, q);
    FilterAll(Filter(s, q), p);
  }

  lemma {:induction false} FilterAll<T(!new)>(s: seq<T>, p: T -> bool)
    requires forall x :: x in s ==> p(x)
    ensures Filter(s, p) == s
  {
    if |s| != 0 {
      FilterAll(s[..|s| - 1], p);
    }
  }

  lemma FilterOfNone<T(!new)>(p: T -> bool)
    ensures Filter([], p) == []
  {
  }

  lemma {:induction false} FilterNone<T(!new)>(s: seq<T>, p: T -> bool)
    requires forall x :: x in s ==> !p(x)
    ensures Filter(s, p) == []
  {
    if |s| != 0 {
      FilterNone(s[..|s| - 1], p);
    }
  }

  // ---- A stable sort, and looking up the last match in what it returns ----

  function Insert<T(!new)>(x: T, sorted: seq<T>, key: T -> int): (r: seq<T>)
    ensures forall y :: y in r <==> y == x || y in sorted
  {
    if |sorted| == 0 then [x]
    else if key(x) <= key(sorted[0]) then [x] + sorted
    else
      assert sorted == [sorted[0]] + sorted[1..];
      [sorted[0]] + Insert(x, sorted[1..], key)
  }

  /** Ascending by `key`; equal keys keep the order they came in. */
  function StableSort<T(!new)>(s: seq<T>, key: T -> int): (r: seq<T>)
    ensures forall y :: y in r <==> y in s
  {
    if |s| == 0 then [] else
      assert s == [s[0]] + s[1..];
      Insert(s[0], StableSort(s[1..], key), key)
  }

  ghost predicate IsSorted<T(!new)>(s: seq<T>, key: T -> int) {
    forall i, j :: 0 <= i < j < |s| ==> key(s[i]) <= key(s[j])
  }

  lemma {:induction false} InsertKeepsSorted<T(!new)>(x: T, s: seq<T>, key: T -> int)
    requires IsSorted(s, key)
    ensures IsSorted(Insert(x, s, key), key)
  {
    if |s| != 0 && key(s[0]) < key(x) {
      InsertKeepsSorted(x, s[1..], key);
      forall y | y in Insert(x, s[1..], key) ensures key(s[0]) <= key(y) {
        assert y == x || y in s[1..];
      }
    }
  }

  lemma {:induction false} StableSortSorts<T(!new)>(s: seq<T>, key: T -> int)
    ensures IsSorted(StableSort(s, key), key)
  {
    if |s| != 0 {
      StableSortSorts(s[1..], key);
      InsertKeepsSorted(s[0], StableSort(s[1..], key), key);
    }
  }

  /** The sort starts with the least key, the first element stated winning a tie. */
  lemma {:induction false} SortStartsWithEarliest<T(!new)>(s: seq<T>, key: T -> int) returns (i: int)
    requires |s| > 0
    ensures 0 <= i < |s| && |StableSort(s, key)| > 0 && StableSort(s, key)[0] == s[i]
    ensures forall j :: 0 <= j < |s| ==> key(s[i]) < key(s[j]) || (key(s[i]) == key(s[j]) && i <= j)
  {
    i := 0;
    if |s| > 1 {
      i := SortStartsWithEarliest(s[1..], key);
      forall j | 0 < j < |s| ensures s[j] == s[1..][j - 1] {}
      i := if key(s[0]) <= key(s[1..][i]) then 0 else i + 1;
    }
  }

  /** The last element of `s` that satisfies `p`. */
  function LastMatch<T(!new)>(s: seq<T>, p: T -> bool): (r: Option<T>)
    ensures r.Some? ==> r.value in s && p(r.value)
    ensures r.None? ==> forall x :: x in s ==> !p(x)
  {
    if |s| == 0 then None
    else
      var rest := LastMatch(s[1..], p);
      assert s == [s[0]] + s[1..];
      if rest.Some? then rest else if p(s[0]) then Some(s[0]) else None
  }

  lemma {:induction false} LastMatchStep<T(!new)>(s: seq<T>, p: T -> bool)
    requires |s| > 0
    ensures LastMatch(s, p) == if p(s[|s| - 1]) then Some(s[|s| - 1]) else LastMatch(s[..|s| - 1], p)
  {
    if |s| > 1 {
      LastMatchStep(s[1..], p);
      assert s[1..][..|s| - 2] == s[..|s| - 1][1..];
    }
  }

  /** Position `i` holds the match with the greatest key, the later one winning a tie. */
  ghost predicate IsLatest<T(!new)>(s: seq<T>, key: T -> int, p: T -> bool, i: int) {
    && 0 <= i < |s|
    && p(s[i])
    && forall j :: 0 <= j < |s| && p(s[j]) ==>
         key(s[j]) < key(s[i]) || (key(s[j]) == key(s[i]) && j <= i)
  }

  function Keep<T(!new)>(x: T, rest: Option<T>, key: T -> int, p: T -> bool): Option<T> {
    if p(x) && (rest.None? || key(rest.value) < key(x)) then Some(x) else rest
  }

  /** The match with the greatest key, the later one winning a tie. */
  function LatestOf<T(!new)>(s: seq<T>, key: T -> int, p: T -> bool): (r: Option<T>)
    ensures r.Some? ==> r.value in s && p(r.value)
    ensures forall x :: x in s && p(x) ==> r.Some? && key(x) <= key(r.value)
  {
    if |s| == 0 then None
    else
      assert s == [s[0]] + s[1..];
      Keep(s[0], LatestOf(s[1..], key, p), key, p)
  }

  lemma {:induction false} LastMatchOfInsert<T(!new)>(x: T, s: seq<T>, key: T -> int, p: T -> bool)
    requires IsSorted(s, key)
    ensures LastMatch(Insert(x, s, key), p) == Keep(x, LastMatch(s, p), key, p)
  {
    if |s| == 0 {
    } else if key(x) <= key(s[0]) {
      assert ([x] + s)[1..] == s;
    } else {
      var rest := Insert(x, s[1..], key);
      assert ([s[0]] + rest)[1..] == rest;
      LastMatchOfInsert(x, s[1..], key, p);
    }
  }

  /** Looking the last match up in the sorted list finds the latest match of the unsorted one. */
  lemma {:induction false} LastMatchOfSort<T(!new)>(s: seq<T>, key: T -> int, p: T -> bool)
    ensures LastMatch(StableSort(s, key), p) == LatestOf(s, key, p)
  {
    if |s| != 0 {
      LastMatchOfSort(s[1..], key, p);
      StableSortSorts(s[1..], key);
      LastMatchOfInsert(s[0], StableSort(s[1..], key), key, p);
    }
  }

  lemma {:induction false} LatestPosition<T(!new)>(s: seq<T>, key: T -> int, p: T -> bool) returns (i: int)
    requires LatestOf(s, key, p).Some?
    ensures IsLatest(s, key, p, i) && s[i] == LatestOf(s, key, p).value
  {
    i := 0;
    var rest := LatestOf(s[1..], key, p);
    forall j | 0 < j < |s| ensures s[j] == s[1..][j - 1] && s[j] in s[1..] {}
    if !(p(s[0]) && (rest.None? || key(rest.value) < key(s[0]))) {
      i := LatestPosition(s[1..], key, p);
      i := i + 1;
    }
  }

  /** Dropping elements other than the latest leaves the latest where it was. */
  lemma {:induction false} LatestOfFilter<T(!new)>(s: seq<T>, key: T -> int, p: T -> bool, q: T -> bool)
    requires LatestOf(s, key, p).Some? && q(LatestOf(s, key, p).value)
    ensures LatestOf(Filter(s, q), key, p) == LatestOf(s, key, p)
  {
    var rest := LatestOf(s[1..], key, p);
    assert s == [s[0]] + s[1..];
    FilterConcat([s[0]], s[1..], q);
    assert Filter([s[0]], q) == if q(s[0]) then [s[0]] else [];
    if q(s[0]) {
      assert Filter(s, q)[1..] == Filter(s[1..], q);
    } else {
      assert Filter(s, q) == Filter(s[1..], q);
    }
    if rest.Some? && LatestOf(s, key, p) == rest {
      LatestOfFilter(s[1..], key, p, q);
    }
  }

  lemma {:induction false} LatestOfConcat<T(!new)>(a: seq<T>, b: seq<T>, key: T -> int, p: T -> bool)
    requires forall x, y :: x in a && y in b ==> key(x) < key(y)
    ensures LatestOf(a + b, key, p) ==
            if LatestOf(b, key, p).Some? then LatestOf(b, key, p) else LatestOf(a, key, p)
  {
    if |a| == 0 {
      assert a + b == b;
    } else {
      assert (a + b)[1..] == a[1..] + b;
      LatestOfConcat(a[1..], b, key, p);
    }
  }

  lemma LatestIsUnique<T(!new)>(s: seq<T>, key: T -> int, p: T -> bool, i: int, j: int)
    requires IsLatest(s, key, p, i) && IsLatest(s, key, p, j)
    ensures i == j
  {
  }

  // ---- A finite set of moments, in ascending order ----

  lemma {:induction false} LeastExists(s: set<nat>, member: nat)
    requires member in s
    ensures exists m :: m in s && forall x :: x in s ==> m <= x
    decreases member
  {
    if y :| y in s && y < member {
      LeastExists(s, y);
    } else {
      assert forall x :: x in s ==> member <= x;
    }
  }

  function Least(s: set<nat>, ghost member: nat): (m: nat)
    requires member in s
    ensures m in s && forall x :: x in s ==> m <= x
  {
    LeastExists(s, member);
    var m :| m in s && forall x :: x in s ==> m <= x;
    m
  }

  ghost predicate Enumerates(r: seq<nat>, s: set<nat>) {
    && (forall x :: x in r <==> x in s)
    && (forall i, j :: 0 <= i < j < |r| ==> r[i] < r[j])
  }

  lemma EnumeratesFromLeast(s: set<nat>, m: nat, rest: seq<nat>)
    requires m in s && forall x :: x in s ==> m <= x
    requires Enumerates(rest, s - {m})
    ensures Enumerates([m] + rest, s)
  {
    forall j | 0 <= j < |rest| ensures m < rest[j] {
      assert rest[j] in s - {m};
    }
    forall x ensures x in [m] + rest <==> x in s {
      assert x in [m] + rest <==> x == m || x in rest;
    }
  }

  /** Python's `sorted` on a set: every element once, smallest first. */
  function SortedSet(s: set<nat>): (r: seq<nat>)
    ensures Enumerates(r, s)
    decreases |s|
  {
    if s == {} then []
    else
      ghost var member :| member in s;
      var m := Least(s, member);
      EnumeratesFromLeast(s, m, SortedSet(s - {m}));
      [m] + SortedSet(s - {m})
  }

  // ---- Grouping, as `dict.setdefault(key, []).append(row)` does it ----

  function HasKey<T(!new), K(==,!new)>(key: T -> K, k: K): T -> bool {
    x => key(x) == k
  }

  /** The keys of `s` in order of first appearance. */
  function DistinctKeys<T(!new), K(==,!new)>(s: seq<T>, key: T -> K): (r: seq<K>)
    ensures forall k :: k in r <==> exists x :: x in s && key(x) == k
    ensures forall i, j :: 0 <= i < j < |r| ==> r[i] != r[j]
  {
    if |s| == 0 then []
    else
      var front := DistinctKeys(s[..|s| - 1], key);
      var last := s[|s| - 1];
      assert s == s[..|s| - 1] + [last];
      if key(last) in front then front else front + [key(last)]
  }

  function Group<T(!new), K(==,!new)>(s: seq<T>, key: T -> K, k: K): (r: seq<T>)
    ensures |r| > 0 <==> k in DistinctKeys(s, key)
  {
    var r := Filter(s, HasKey(key, k));
    assert |r| > 0 ==> r[0] in r;
    r
  }

  lemma GroupStep<T(!new), K(!new)>(s: seq<T>, n: nat, key: T -> K, k: K)
    requires n < |s|
    ensures Group(s[..n + 1], key, k) == Group(s[..n], key, k) + (if key(s[n]) == k then [s[n]] else [])
  {
    assert s[..n + 1][..n] == s[..n];
  }

  lemma DistinctKeysStep<T(!new), K(!new)>(s: seq<T>, n: nat, key: T -> K)
    requires n < |s|
    ensures var front := DistinctKeys(s[..n], key);
            DistinctKeys(s[..n + 1], key) == if key(s[n]) in front then front else front + [key(s[n])]
    ensures key(s[n]) !in DistinctKeys(s[..n], key) ==> Group(s[..n], key, key(s[n])) == []
  {
    assert s[..n + 1][..n] == s[..n];
  }

  lemma NothingGrouped<T(!new), K(!new)>(key: T -> K)
    ensures DistinctKeys([], key) == []
  {
  }

  method GroupBy<T(!new), K(==,!new)>(s: seq<T>, key: T -> K) returns (order: seq<K>, groups: map<K, seq<T>>)
    ensures order == DistinctKeys(s, key)
    ensures forall k :: k in groups <==> k in order
    ensures forall k :: k in groups ==> groups[k] == Group(s, key, k)
  {
    hide DistinctKeys, Group, Filter;
    order, groups := [], map[];
    NothingGrouped(key);
    assert s[..0] == [];
    for n := 0 to |s|
      invariant order == DistinctKeys(s[..n], key)
      invariant forall k :: k in groups <==> k in order
      invariant forall k :: k in groups ==> groups[k] == Group(s[..n], key, k)
    {
      var k := key(s[n]);
      DistinctKeysStep(s, n, key);
      forall other ensures Group(s[..n + 1], key, other) == Group(s[..n], key, other) + (if k == other then [s[n]] else []) {
        GroupStep(s, n, key, other);
      }
      if k in groups {
        groups := groups[k := groups[k] + [s[n]]];
      } else {
        order, groups := order + [k], groups[k := [s[n]]];
      }
    }
    assert s[..|s|] == s;
  }

  /** A dict filled row by row: a later row replaces what an earlier one said of its key. */
  function LastWins<T(!new), K(==,!new), V(!new)>(s: seq<T>, key: T -> K, value: T -> V): (m: map<K, V>)
    ensures forall k :: k in m <==> exists x :: x in s && key(x) == k
    ensures forall k :: k in m ==> exists x :: x in s && key(x) == k && value(x) == m[k]
  {
    if |s| == 0 then map[]
    else
      assert s == s[..|s| - 1] + [s[|s| - 1]];
      LastWins(s[..|s| - 1], key, value)[key(s[|s| - 1]) := value(s[|s| - 1])]
  }

  lemma LastWinsOfNone<T(!new), K(!new), V(!new)>(key: T -> K, value: T -> V)
    ensures LastWins([], key, value) == map[]
  {
  }

  lemma LastWinsSnoc<T(!new), K(!new), V(!new)>(s: seq<T>, x: T, key: T -> K, value: T -> V)
    ensures LastWins(s + [x], key, value) == LastWins(s, key, value)[key(x) := value(x)]
  {
    assert (s + [x])[..|s|] == s;
  }

  lemma LastWinsStep<T(!new), K(!new), V(!new)>(s: seq<T>, n: nat, key: T -> K, value: T -> V)
    requires n < |s|
    ensures LastWins(s[..n + 1], key, value) == LastWins(s[..n], key, value)[key(s[n]) := value(s[n])]
  {
    assert s[..n + 1] == s[..n] + [s[n]];
    LastWinsSnoc(s[..n], s[n], key, value);
  }

  /** What a key's last row said is what the dict is left with. */
  lemma {:induction false} LastWinsIsLast<T(!new), K(!new), V(!new)>(s: seq<T>, key: T -> K, value: T -> V, i: nat)
    requires i < |s| && forall j :: i < j < |s| ==> key(s[j]) != key(s[i])
    ensures key(s[i]) in LastWins(s, key, value) && LastWins(s, key, value)[key(s[i])] == value(s[i])
  {
    hide LastWins;
    LastWinsStep(s, |s| - 1, key, value);
    assert s[..|s| - 1 + 1] == s;
    if i < |s| - 1 {
      LastWinsIsLast(s[..|s| - 1], key, value, i);
    }
  }

  // ---- Rearranging a sequence, every element kept once ----

  lemma {:induction false} FilterCounts<T(!new)>(s: seq<T>, p: T -> bool, x: T)
    ensures multiset(Filter(s, p))[x] == if p(x) then multiset(s)[x] else 0
  {
    hide Filter;
    if |s| == 0 {
      assert s == [];
    } else {
      FilterCounts(s[..|s| - 1], p, x);
      FilterSnoc(s, p);
      assert s == s[..|s| - 1] + [s[|s| - 1]];
    }
  }

  lemma {:induction false} InsertCounts<T(!new)>(x: T, s: seq<T>, key: T -> int)
    ensures multiset(Insert(x, s, key)) == multiset(s) + multiset{x}
  {
    if |s| > 0 {
      assert s == [s[0]] + s[1..];
      if key(s[0]) < key(x) {
        InsertCounts(x, s[1..], key);
      }
    }
  }

  lemma {:induction false} SortCounts<T(!new)>(s: seq<T>, key: T -> int)
    ensures multiset(StableSort(s, key)) == multiset(s)
  {
    if |s| > 0 {
      assert s == [s[0]] + s[1..];
      SortCounts(s[1..], key);
      InsertCounts(s[0], StableSort(s[1..], key), key);
    }
  }

  /** The groups of `keys`, one after the other. */
  function Gathered<T(!new), K(==,!new)>(s: seq<T>, key: T -> K, keys: seq<K>): seq<T> {
    if |keys| == 0 then []
    else Gathered(s, key, keys[..|keys| - 1]) + Group(s, key, keys[|keys| - 1])
  }

  lemma {:induction false} GatheredConcat<T(!new), K(!new)>(s: seq<T>, key: T -> K, a: seq<K>, b: seq<K>)
    ensures Gathered(s, key, a + b) == Gathered(s, key, a) + Gathered(s, key, b)
  {
    hide Gathered, Group;
    if |b| == 0 {
      assert a + b == a && b == [];
      NothingGathered(s, key);
    } else {
      var front, last := b[..|b| - 1], b[|b| - 1];
      GatheredConcat(s, key, a, front);
      assert b == front + [last] && a + b == (a + front) + [last];
      OneMoreGathered(s, key, front, last);
      OneMoreGathered(s, key, a + front, last);
    }
  }

  lemma NothingGathered<T(!new), K(!new)>(s: seq<T>, key: T -> K)
    ensures Gathered(s, key, []) == []
  {
  }

  lemma OneMoreGathered<T(!new), K(!new)>(s: seq<T>, key: T -> K, keys: seq<K>, k: K)
    ensures Gathered(s, key, keys + [k]) == Gathered(s, key, keys) + Group(s, key, k)
  {
    hide Group;
    assert (keys + [k])[..|keys|] == keys;
  }

  ghost predicate AreDistinct<T(!new)>(s: seq<T>) {
    forall i, j :: 0 <= i < j < |s| ==> s[i] != s[j]
  }

  lemma ConcatKeepsDistinct<T(!new)>(a: seq<T>, b: seq<T>)
    requires AreDistinct(a) && AreDistinct(b) && forall x :: x in b ==> x !in a
    ensures AreDistinct(a + b)
  {
    var both := a + b;
    forall i, j | 0 <= i < j < |both| ensures both[i] != both[j] {
      if i < |a| <= j {
        assert both[i] in a && both[j] in b;
      } else if j < |a| {
        assert both[i] == a[i] && both[j] == a[j];
      } else {
        assert both[i] == b[i - |a|] && both[j] == b[j - |a|];
      }
    }
  }

  lemma {:induction false} FilterKeepsDistinct<T(!new)>(s: seq<T>, p: T -> bool)
    requires AreDistinct(s)
    ensures AreDistinct(Filter(s, p))
  {
    if |s| != 0 {
      var front, last := s[..|s| - 1], s[|s| - 1];
      assert forall i :: 0 <= i < |front| ==> front[i] == s[i] != last;
      FilterKeepsDistinct(front, p);
      ConcatKeepsDistinct(Filter(front, p), if p(last) then [last] else []);
      FilterSnoc(s, p);
    }
  }

  lemma {:induction false} GatheredCounts<T(!new), K(!new)>(s: seq<T>, key: T -> K, keys: seq<K>, x: T)
    requires AreDistinct(keys)
    ensures multiset(Gathered(s, key, keys))[x] == if key(x) in keys then multiset(s)[x] else 0
  {
    hide Filter;
    if |keys| != 0 {
      var front, last := keys[..|keys| - 1], keys[|keys| - 1];
      GatheredCounts(s, key, front, x);
      FilterCounts(s, HasKey(key, last), x);
      assert last !in front;
      assert keys == front + [last];
    }
  }

  /** Gathering every group gives each element back once. */
  lemma GatheringKeepsEveryElement<T(!new), K(!new)>(s: seq<T>, key: T -> K, keys: seq<K>)
    requires AreDistinct(keys) && forall x :: x in s ==> key(x) in keys
    ensures multiset(Gathered(s, key, keys)) == multiset(s)
  {
    forall x ensures multiset(Gathered(s, key, keys))[x] == multiset(s)[x] {
      GatheredCounts(s, key, keys, x);
      assert x in multiset(s) <==> x in s;
    }
  }
}
