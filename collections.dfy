/** The LINQ operators the services are built from, on sequences: `GroupBy`
    (first-seen group order), `Distinct`, and the stable `OrderBy`. Each is
    given by a definition and by lemmas that say what the result means in
    terms of the input. */
module Collections {

  // ---------------------------------------------------------------- keys

  predicate HasKey<T, K(==)>(s: seq<T>, key: T -> K, k: K) {
    exists i :: 0 <= i < |s| && key(s[i]) == k
  }

  /** How many elements of `s` have key `k` (`s.Count(x => key(x) == k)`). */
  function CountKey<T, K(==)>(s: seq<T>, key: T -> K, k: K): (n: nat)
    ensures n <= |s|
    ensures n > 0 <==> HasKey(s, key, k)
  {
    if s == [] then 0
    else
      var p := s[..|s| - 1];
      var n := CountKey(p, key, k) + (if key(s[|s| - 1]) == k then 1 else 0);
      assert HasKey(s, key, k) <==> HasKey(p, key, k) || key(s[|s| - 1]) == k by {
        if HasKey(s, key, k) && key(s[|s| - 1]) != k {
          var i :| 0 <= i < |s| && key(s[i]) == k;
          assert p[i] == s[i];
        }
        if HasKey(p, key, k) {
          var i :| 0 <= i < |p| && key(p[i]) == k;
          assert s[i] == p[i];
        }
      }
      n
  }

  /** The position of the first element of `s` with key `k`, or `|s|` when
      there is none. */
  function FirstIndex<T, K(==)>(s: seq<T>, key: T -> K, k: K): (i: nat)
    ensures i <= |s|
    ensures i < |s| ==> key(s[i]) == k
    ensures forall j :: 0 <= j < i ==> key(s[j]) != k
  {
    if s == [] then 0
    else if key(s[0]) == k then 0
    else 1 + FirstIndex(s[1..], key, k)
  }

  lemma FirstIndexUnique<T, K>(s: seq<T>, key: T -> K, k: K, i: nat)
    requires i <= |s| && (i < |s| ==> key(s[i]) == k)
    requires forall j :: 0 <= j < i ==> key(s[j]) != k
    ensures FirstIndex(s, key, k) == i
  {
  }

  /** Appending an element moves no first position that already existed. */
  lemma FirstIndexAppend<T, K>(p: seq<T>, x: T, key: T -> K, k: K)
    ensures FirstIndex(p + [x], key, k) ==
            if FirstIndex(p, key, k) < |p| then FirstIndex(p, key, k)
            else if key(x) == k then |p| else |p| + 1
  {
    var s := p + [x];
    var i := FirstIndex(p, key, k);
    assert forall j :: 0 <= j < |p| ==> s[j] == p[j];
    if i < |p| {
      FirstIndexUnique(s, key, k, i);
    } else if key(x) == k {
      FirstIndexUnique(s, key, k, |p|);
    } else {
      FirstIndexUnique(s, key, k, |p| + 1);
    }
  }

  lemma FirstIndexFound<T, K>(s: seq<T>, key: T -> K, j: nat)
    requires j < |s|
    ensures FirstIndex(s, key, key(s[j])) <= j
  {
  }

  // ---------------------------------------------------------------- Where

  /** LINQ's `Where(p)`: the elements that satisfy `p`, in order. */
  function Filter<T(!new)>(s: seq<T>, p: T -> bool): (r: seq<T>)
    ensures forall x :: multiset(r)[x] == if p(x) then multiset(s)[x] else 0
    ensures forall i :: 0 <= i < |r| ==> p(r[i])
    ensures |r| <= |s|
  {
    if s == [] then []
    else
      var q, x := s[..|s| - 1], s[|s| - 1];
      assert s == q + [x];
      var r := Filter(q, p);
      if p(x) then r + [x] else r
  }

  /** An element is kept exactly when it is in `s` and satisfies `p`. */
  lemma FilterElements<T(!new)>(s: seq<T>, p: T -> bool)
    ensures forall x :: x in Filter(s, p) <==> x in s && p(x)
  {
    var r := Filter(s, p);
    forall x ensures x in r <==> x in s && p(x) {
      assert x in r <==> multiset(r)[x] > 0;
      assert x in s <==> multiset(s)[x] > 0;
    }
  }

  // ---------------------------------------------------------------- GroupBy

  /** A group built by `GroupBy`: its first element (the group's `Key` when the
      key selector is the identity) and how many elements share its key. */
  datatype Group<T> = Group(first: T, count: nat)

  predicate HasGroup<T, K(==)>(gs: seq<Group<T>>, key: T -> K, k: K) {
    exists i :: 0 <= i < |gs| && key(gs[i].first) == k
  }

  predicate KeysDistinct<T, K(==)>(gs: seq<Group<T>>, key: T -> K) {
    forall i, j :: 0 <= i < j < |gs| ==> key(gs[i].first) != key(gs[j].first)
  }

  /** Counts `x` into the group with its key, or opens a new group at the end. */
  function AddToGroups<T, K(==)>(gs: seq<Group<T>>, x: T, key: T -> K): (r: seq<Group<T>>)
    requires KeysDistinct(gs, key)
    ensures |r| == if HasGroup(gs, key, key(x)) then |gs| else |gs| + 1
    ensures forall i :: 0 <= i < |gs| ==>
              r[i].first == gs[i].first &&
              r[i].count == gs[i].count + (if key(gs[i].first) == key(x) then 1 else 0)
    ensures !HasGroup(gs, key, key(x)) ==> r[|gs|] == Group(x, 1)
    ensures KeysDistinct(r, key)
  {
    if gs == [] then [Group(x, 1)]
    else if key(gs[0].first) == key(x) then [gs[0].(count := gs[0].count + 1)] + gs[1..]
    else
      var t := gs[1..];
      assert HasGroup(gs, key, key(x)) <==> HasGroup(t, key, key(x)) by {
        if HasGroup(gs, key, key(x)) {
          var i :| 0 <= i < |gs| && key(gs[i].first) == key(x);
          assert t[i - 1] == gs[i];
        }
        if HasGroup(t, key, key(x)) {
          var i :| 0 <= i < |t| && key(t[i].first) == key(x);
          assert gs[i + 1] == t[i];
        }
      }
      [gs[0]] + AddToGroups(t, x, key)
  }

  /** LINQ's `GroupBy(key)`: one group per key, in the order in which the keys
      first occur. */
  function GroupBy<T, K(==)>(s: seq<T>, key: T -> K): (r: seq<Group<T>>)
    ensures KeysDistinct(r, key)
    ensures |r| <= |s|
  {
    if s == [] then [] else AddToGroups(GroupBy(s[..|s| - 1], key), s[|s| - 1], key)
  }

  /** Every key of `s` has a group in `gs`. */
  predicate CoversKeys<T, K(==)>(s: seq<T>, key: T -> K, gs: seq<Group<T>>) {
    forall j :: 0 <= j < |s| ==> HasGroup(gs, key, key(s[j]))
  }

  /** Each group of `gs` holds the first element of `s` with its key. */
  predicate HoldsFirsts<T(==), K(==)>(s: seq<T>, key: T -> K, gs: seq<Group<T>>) {
    forall i :: 0 <= i < |gs| ==>
      FirstIndex(s, key, key(gs[i].first)) < |s| &&
      s[FirstIndex(s, key, key(gs[i].first))] == gs[i].first
  }

  /** Each group of `gs` counts the elements of `s` with its key. */
  predicate HoldsCounts<T, K(==)>(s: seq<T>, key: T -> K, gs: seq<Group<T>>) {
    forall i :: 0 <= i < |gs| ==> gs[i].count == CountKey(s, key, key(gs[i].first))
  }

  /** The groups of `gs` are ordered by where their key first occurs in `s`. */
  predicate InFirstSeenOrder<T, K(==)>(s: seq<T>, key: T -> K, gs: seq<Group<T>>) {
    forall i, j :: 0 <= i < j < |gs| ==>
      FirstIndex(s, key, key(gs[i].first)) < FirstIndex(s, key, key(gs[j].first))
  }

  /** Every key of `s` has a group. */
  lemma {:induction false} GroupByCovers<T, K>(s: seq<T>, key: T -> K)
    ensures CoversKeys(s, key, GroupBy(s, key))
  {
    if s != [] {
      var p, x := s[..|s| - 1], s[|s| - 1];
      var g, r := GroupBy(p, key), GroupBy(s, key);
      GroupByCovers(p, key);
      forall j | 0 <= j < |s| ensures HasGroup(r, key, key(s[j])) {
        if j < |p| {
          assert s[j] == p[j];
          assert HasGroup(g, key, key(p[j]));
          var i :| 0 <= i < |g| && key(g[i].first) == key(p[j]);
          assert r[i].first == g[i].first;
        } else if !HasGroup(g, key, key(x)) {
          assert r[|g|].first == x;
        } else {
          var i :| 0 <= i < |g| && key(g[i].first) == key(x);
          assert r[i].first == g[i].first;
        }
      }
    }
  }

  /** A key without a group does not occur in `s`. */
  lemma NoGroupNoKey<T, K>(s: seq<T>, key: T -> K, k: K)
    requires !HasGroup(GroupBy(s, key), key, k)
    ensures !HasKey(s, key, k) && FirstIndex(s, key, k) == |s| && CountKey(s, key, k) == 0
  {
    GroupByCovers(s, key);
  }

  /** Each group holds the first element of `s` with its key. */
  lemma {:induction false} GroupByFirst<T, K>(s: seq<T>, key: T -> K)
    ensures HoldsFirsts(s, key, GroupBy(s, key))
  {
    if s != [] {
      var p, x := s[..|s| - 1], s[|s| - 1];
      assert s == p + [x];
      GroupByFirst(p, key);
      var g, r := GroupBy(p, key), GroupBy(s, key);
      forall i | 0 <= i < |r|
        ensures FirstIndex(s, key, key(r[i].first)) < |s|
        ensures s[FirstIndex(s, key, key(r[i].first))] == r[i].first
      {
        if i < |g| {
          GroupFirstStep(p, x, key, g[i].first);
        } else {
          NoGroupNoKey(p, key, key(x));
          FirstIndexAppend(p, x, key, key(x));
        }
      }
    }
  }

  lemma GroupFirstStep<T, K>(p: seq<T>, x: T, key: T -> K, y: T)
    requires FirstIndex(p, key, key(y)) < |p| && p[FirstIndex(p, key, key(y))] == y
    ensures FirstIndex(p + [x], key, key(y)) < |p| + 1 && (p + [x])[FirstIndex(p + [x], key, key(y))] == y
  {
    FirstIndexAppend(p, x, key, key(y));
  }

  /** Appending an element adds one to the count of its own key. */
  lemma CountKeyAppend<T, K>(p: seq<T>, x: T, key: T -> K, k: K)
    ensures CountKey(p + [x], key, k) == CountKey(p, key, k) + (if key(x) == k then 1 else 0)
  {
    assert (p + [x])[..|p|] == p;
  }

  /** Appending an element keeps every group's count right. */
  lemma GroupCountSnoc<T, K>(p: seq<T>, x: T, key: T -> K, g: seq<Group<T>>)
    requires KeysDistinct(g, key) && HoldsCounts(p, key, g)
    requires !HasGroup(g, key, key(x)) ==> CountKey(p, key, key(x)) == 0
    ensures HoldsCounts(p + [x], key, AddToGroups(g, x, key))
  {
    var r := AddToGroups(g, x, key);
    forall i | 0 <= i < |r| ensures r[i].count == CountKey(p + [x], key, key(r[i].first)) {
      CountKeyAppend(p, x, key, key(r[i].first));
    }
  }

  /** Each group counts the elements of `s` with its key. */
  lemma {:induction false} GroupByCount<T, K>(s: seq<T>, key: T -> K)
    ensures HoldsCounts(s, key, GroupBy(s, key))
  {
    if s != [] {
      var p, x := s[..|s| - 1], s[|s| - 1];
      assert s == p + [x];
      var g := GroupBy(p, key);
      GroupByCount(p, key);
      if !HasGroup(g, key, key(x)) {
        NoGroupNoKey(p, key, key(x));
      }
      GroupCountSnoc(p, x, key, g);
    }
  }

  /** Appending an element moves no group's first occurrence. */
  lemma GroupKeptStep<T, K>(p: seq<T>, x: T, key: T -> K, g: seq<Group<T>>, i: nat)
    requires KeysDistinct(g, key) && HoldsFirsts(p, key, g) && i < |g|
    ensures FirstIndex(p + [x], key, key(AddToGroups(g, x, key)[i].first))
      == FirstIndex(p, key, key(g[i].first)) < |p|
  {
    FirstIndexAppend(p, x, key, key(g[i].first));
  }

  /** A group opened by the appended element first occurs at its position. */
  lemma GroupNewStep<T, K>(p: seq<T>, x: T, key: T -> K, g: seq<Group<T>>)
    requires KeysDistinct(g, key)
    requires !HasGroup(g, key, key(x)) ==> FirstIndex(p, key, key(x)) == |p|
    ensures |AddToGroups(g, x, key)| > |g| ==>
      FirstIndex(p + [x], key, key(AddToGroups(g, x, key)[|g|].first)) == |p|
  {
    FirstIndexAppend(p, x, key, key(x));
  }

  /** Appending an element keeps any two groups in first-seen order. */
  lemma GroupPairSnoc<T, K>(p: seq<T>, x: T, key: T -> K, g: seq<Group<T>>, i: nat, j: nat)
    requires KeysDistinct(g, key) && HoldsFirsts(p, key, g)
    requires !HasGroup(g, key, key(x)) ==> FirstIndex(p, key, key(x)) == |p|
    requires i < j < |AddToGroups(g, x, key)|
    requires j < |g| ==> FirstIndex(p, key, key(g[i].first)) < FirstIndex(p, key, key(g[j].first))
    ensures FirstIndex(p + [x], key, key(AddToGroups(g, x, key)[i].first))
      < FirstIndex(p + [x], key, key(AddToGroups(g, x, key)[j].first))
  {
    GroupKeptStep(p, x, key, g, i);
    if j < |g| {
      GroupKeptStep(p, x, key, g, j);
    } else {
      GroupNewStep(p, x, key, g);
    }
  }

  /** Appending an element keeps the groups in first-seen order. */
  lemma GroupOrderSnoc<T, K>(p: seq<T>, x: T, key: T -> K, g: seq<Group<T>>)
    requires KeysDistinct(g, key) && HoldsFirsts(p, key, g) && InFirstSeenOrder(p, key, g)
    requires !HasGroup(g, key, key(x)) ==> FirstIndex(p, key, key(x)) == |p|
    ensures InFirstSeenOrder(p + [x], key, AddToGroups(g, x, key))
  {
    var r := AddToGroups(g, x, key);
    forall i, j | 0 <= i < j < |r|
      ensures FirstIndex(p + [x], key, key(r[i].first)) < FirstIndex(p + [x], key, key(r[j].first))
    {
      GroupPairSnoc(p, x, key, g, i, j);
    }
  }

  /** Groups are ordered by where their key first occurs in `s`. */
  lemma {:induction false} GroupByOrder<T, K>(s: seq<T>, key: T -> K)
    ensures InFirstSeenOrder(s, key, GroupBy(s, key))
  {
    if s != [] {
      var p, x := s[..|s| - 1], s[|s| - 1];
      assert s == p + [x];
      var g := GroupBy(p, key);
      GroupByOrder(p, key);
      GroupByFirst(p, key);
      if !HasGroup(g, key, key(x)) {
        NoGroupNoKey(p, key, key(x));
      }
      GroupOrderSnoc(p, x, key, g);
    }
  }

  /** The elements a list of groups was started by. */
  function Firsts<T>(gs: seq<Group<T>>): (r: seq<T>)
    ensures |r| == |gs| && forall i :: 0 <= i < |gs| ==> r[i] == gs[i].first
  {
    seq(|gs|, i requires 0 <= i < |gs| => gs[i].first)
  }

  /** LINQ's `Distinct(comparer)`: the first element of each key, in the order
      the keys first occur. */
  function DistinctBy<T, K(==)>(s: seq<T>, key: T -> K): seq<T> {
    Firsts(GroupBy(s, key))
  }

  /** The elements of `r` have distinct keys. */
  predicate DistinctKeys<T, K(==)>(r: seq<T>, key: T -> K) {
    forall i, j :: 0 <= i < j < |r| ==> key(r[i]) != key(r[j])
  }

  /** Each element of `r` is the first element of `s` with its key. */
  predicate FirstOccurrences<T(==), K(==)>(s: seq<T>, key: T -> K, r: seq<T>) {
    forall i :: 0 <= i < |r| ==>
      FirstIndex(s, key, key(r[i])) < |s| && s[FirstIndex(s, key, key(r[i]))] == r[i]
  }

  /** The elements of `r` appear in the order their keys first occur in `s`. */
  predicate FirstSeenOrder<T, K(==)>(s: seq<T>, key: T -> K, r: seq<T>) {
    forall i, j :: 0 <= i < j < |r| ==> FirstIndex(s, key, key(r[i])) < FirstIndex(s, key, key(r[j]))
  }

  /** The kept elements have distinct keys, each is the first element of `s`
      with its key, every key of `s` is kept, and the kept elements appear in
      the order of their first occurrence. */
  lemma DistinctByFacts<T, K>(s: seq<T>, key: T -> K)
    ensures |DistinctBy(s, key)| <= |s|
    ensures DistinctKeys(DistinctBy(s, key), key)
    ensures FirstOccurrences(s, key, DistinctBy(s, key))
    ensures forall j :: 0 <= j < |s| ==> HasKey(DistinctBy(s, key), key, key(s[j]))
    ensures FirstSeenOrder(s, key, DistinctBy(s, key))
  {
    var g := GroupBy(s, key);
    var r := DistinctBy(s, key);
    assert |r| == |g|;
    assert forall i :: 0 <= i < |r| ==> r[i] == g[i].first;
    GroupByFirst(s, key);
    assert HoldsFirsts(s, key, g);
    GroupByOrder(s, key);
    assert InFirstSeenOrder(s, key, g);
    GroupByCovers(s, key);
    assert CoversKeys(s, key, g);
    forall j | 0 <= j < |s| ensures HasKey(r, key, key(s[j])) {
      assert HasGroup(g, key, key(s[j]));
      var i :| 0 <= i < |g| && key(g[i].first) == key(s[j]);
      assert r[i] == g[i].first;
    }
  }

  // ---------------------------------------------------------------- OrderBy

  predicate SortedBy<T>(s: seq<T>, le: (T, T) -> bool) {
    forall i, j :: 0 <= i < j < |s| ==> le(s[i], s[j])
  }

  /** Sorted by `le`, and by `tie` among elements `le` cannot tell apart. */
  predicate SortedThenBy<T>(s: seq<T>, le: (T, T) -> bool, tie: (T, T) -> bool) {
    forall i, j :: 0 <= i < j < |s| ==> le(s[i], s[j]) && (le(s[j], s[i]) ==> tie(s[i], s[j]))
  }

  ghost predicate IsTotalPreorder<T(!new)>(le: (T, T) -> bool) {
    && (forall a, b :: le(a, b) || le(b, a))
    && (forall a, b, c :: le(a, b) && le(b, c) ==> le(a, c))
  }

  /** Inserts `x` before the first element it may precede. */
  function Insert<T>(x: T, s: seq<T>, le: (T, T) -> bool): (r: seq<T>)
    ensures multiset(r) == multiset(s) + multiset{x}
    ensures |r| == |s| + 1
  {
    if s == [] || le(x, s[0]) then [x] + s
    else
      assert s == [s[0]] + s[1..];
      [s[0]] + Insert(x, s[1..], le)
  }

  /** LINQ's `OrderBy`, which is stable, as an insertion sort; the result is a
      permutation of the input. */
  function SortBy<T>(s: seq<T>, le: (T, T) -> bool): (r: seq<T>)
    ensures multiset(r) == multiset(s)
    ensures |r| == |s|
  {
    if s == [] then []
    else
      assert s == [s[0]] + s[1..];
      Insert(s[0], SortBy(s[1..], le), le)
  }

  lemma {:induction false} InsertSorted<T(!new)>(x: T, t: seq<T>, le: (T, T) -> bool, tie: (T, T) -> bool)
    requires IsTotalPreorder(le)
    requires SortedThenBy(t, le, tie)
    requires forall k :: 0 <= k < |t| ==> tie(x, t[k])
    ensures SortedThenBy(Insert(x, t, le), le, tie)
    decreases |t|
  {
    if t != [] && !le(x, t[0]) {
      var rest := Insert(x, t[1..], le);
      InsertSorted(x, t[1..], le, tie);
      var r := Insert(x, t, le);
      assert r == [t[0]] + rest;
      forall k | 0 <= k < |rest| ensures le(t[0], rest[k]) && (le(rest[k], t[0]) ==> tie(t[0], rest[k])) {
        assert rest[k] in multiset(rest);
        if rest[k] != x {
          assert rest[k] in multiset(t[1..]);
          var m :| 0 <= m < |t[1..]| && t[1..][m] == rest[k];
          assert t[m + 1] == rest[k];
        }
      }
    }
  }

  /** The stable sort orders by `le` and keeps the input order among elements
      `le` ranks equal: an input already ordered by `tie` comes out ordered by
      `le`, then by `tie`. */
  lemma {:induction false} SortByStable<T(!new)>(s: seq<T>, le: (T, T) -> bool, tie: (T, T) -> bool)
    requires IsTotalPreorder(le)
    requires SortedBy(s, tie)
    ensures SortedThenBy(SortBy(s, le), le, tie)
    decreases |s|
  {
    if s != [] {
      var t := SortBy(s[1..], le);
      SortByStable(s[1..], le, tie);
      forall k | 0 <= k < |t| ensures tie(s[0], t[k]) {
        assert t[k] in multiset(s[1..]);
        var m :| 0 <= m < |s[1..]| && s[1..][m] == t[k];
        assert s[m + 1] == t[k];
      }
      InsertSorted(s[0], t, le, tie);
    }
  }

  predicate AnyOrder<T>(a: T, b: T) {
    true
  }

  /** The result of the sort is ordered by `le`. */
  lemma SortBySorted<T(!new)>(s: seq<T>, le: (T, T) -> bool)
    requires IsTotalPreorder(le)
    ensures SortedBy(SortBy(s, le), le)
  {
    SortByStable(s, le, AnyOrder);
  }

  /** Inserting an element whose key is new keeps the keys distinct. */
  lemma {:induction false} InsertKeysDistinct<T, K>(x: T, t: seq<T>, le: (T, T) -> bool, key: T -> K)
    requires DistinctKeys(t, key)
    requires forall k :: 0 <= k < |t| ==> key(t[k]) != key(x)
    ensures DistinctKeys(Insert(x, t, le), key)
    decreases |t|
  {
    if t != [] && !le(x, t[0]) {
      var rest := Insert(x, t[1..], le);
      InsertKeysDistinct(x, t[1..], le, key);
      forall k | 0 <= k < |rest| ensures key(rest[k]) != key(t[0]) {
        assert rest[k] in multiset(rest);
        if rest[k] != x {
          assert rest[k] in multiset(t[1..]);
          var m :| 0 <= m < |t[1..]| && t[1..][m] == rest[k];
          assert t[m + 1] == rest[k];
        }
      }
      assert Insert(x, t, le) == [t[0]] + rest;
    }
  }

  /** Sorting keeps the keys of a list distinct. */
  lemma {:induction false} SortByKeysDistinct<T, K>(s: seq<T>, le: (T, T) -> bool, key: T -> K)
    requires DistinctKeys(s, key)
    ensures DistinctKeys(SortBy(s, le), key)
    decreases |s|
  {
    if s != [] {
      var t := SortBy(s[1..], le);
      SortByKeysDistinct(s[1..], le, key);
      forall k | 0 <= k < |t| ensures key(t[k]) != key(s[0]) {
        assert t[k] in multiset(s[1..]);
        var m :| 0 <= m < |s[1..]| && s[1..][m] == t[k];
        assert s[m + 1] == t[k];
      }
      InsertKeysDistinct(s[0], t, le, key);
    }
  }

  /** Every element of the sorted list comes from the input, and every element
      of the input is in the sorted list. */
  lemma SortByElements<T>(s: seq<T>, le: (T, T) -> bool)
    ensures forall x :: x in SortBy(s, le) <==> x in s
  {
    var r := SortBy(s, le);
    forall x ensures x in r <==> x in s {
      assert x in r <==> x in multiset(r);
      assert x in s <==> x in multiset(s);
    }
  }

  // ---------------------------------------------------------------- GroupBy, then OrderBy

  /** A group of `GroupBy` holds the first element of `s` with its key and
      counts the elements with its key. */
  lemma GroupFacts<T, K>(s: seq<T>, key: T -> K, x: Group<T>)
    requires x in GroupBy(s, key)
    ensures FirstIndex(s, key, key(x.first)) < |s| && s[FirstIndex(s, key, key(x.first))] == x.first
    ensures x.count == CountKey(s, key, key(x.first))
  {
    var g := GroupBy(s, key);
    var i :| 0 <= i < |g| && g[i] == x;
    GroupByFirst(s, key);
    assert HoldsFirsts(s, key, g);
    GroupByCount(s, key);
    assert HoldsCounts(s, key, g);
  }

  /** The same holds for each group in whatever order the groups are sorted. */
  lemma RankedGroup<T, K>(s: seq<T>, key: T -> K, le: (Group<T>, Group<T>) -> bool, x: Group<T>)
    requires x in SortBy(GroupBy(s, key), le)
    ensures FirstIndex(s, key, key(x.first)) < |s| && s[FirstIndex(s, key, key(x.first))] == x.first
    ensures x.count == CountKey(s, key, key(x.first))
  {
    SortByElements(GroupBy(s, key), le);
    GroupFacts(s, key, x);
  }

  /** Every key of `s` has a group after sorting. */
  lemma RankedCovers<T, K>(s: seq<T>, key: T -> K, le: (Group<T>, Group<T>) -> bool, j: nat)
    requires j < |s|
    ensures exists i :: (0 <= i < |SortBy(GroupBy(s, key), le)| &&
                         key(SortBy(GroupBy(s, key), le)[i].first) == key(s[j]))
  {
    var g := GroupBy(s, key);
    var r := SortBy(g, le);
    GroupByCovers(s, key);
    assert HasGroup(g, key, key(s[j]));
    var a :| 0 <= a < |g| && key(g[a].first) == key(s[j]);
    SortByElements(g, le);
    assert g[a] in r;
    var i :| 0 <= i < |r| && r[i] == g[a];
  }

  /** Sorting the groups keeps one group per key. */
  lemma RankedKeysDistinct<T, K>(s: seq<T>, key: T -> K, le: (Group<T>, Group<T>) -> bool)
    ensures KeysDistinct(SortBy(GroupBy(s, key), le), key)
  {
    var gk := (x: Group<T>) => key(x.first);
    var g := GroupBy(s, key);
    assert DistinctKeys(g, gk);
    SortByKeysDistinct(g, le, gk);
    assert DistinctKeys(SortBy(g, le), gk);
  }

  /** The stable sort of the groups: sorted by `le`, and groups that `le`
      cannot tell apart stay in the order their keys first occur. */
  lemma RankedStable<T(!new), K>(s: seq<T>, key: T -> K, le: (Group<T>, Group<T>) -> bool)
    requires IsTotalPreorder(le)
    ensures forall i, j :: 0 <= i < j < |SortBy(GroupBy(s, key), le)| ==>
      le(SortBy(GroupBy(s, key), le)[i], SortBy(GroupBy(s, key), le)[j]) &&
      (le(SortBy(GroupBy(s, key), le)[j], SortBy(GroupBy(s, key), le)[i]) ==>
        FirstIndex(s, key, key(SortBy(GroupBy(s, key), le)[i].first)) <=
        FirstIndex(s, key, key(SortBy(GroupBy(s, key), le)[j].first)))
  {
    var g := GroupBy(s, key);
    var tie := (a: Group<T>, b: Group<T>) =>
      FirstIndex(s, key, key(a.first)) <= FirstIndex(s, key, key(b.first));
    GroupByOrder(s, key);
    assert InFirstSeenOrder(s, key, g);
    assert SortedBy(g, tie);
    SortByStable(g, le, tie);
    assert SortedThenBy(SortBy(g, le), le, tie);
  }

  /** Two of the sorted groups, the earlier one first. */
  lemma RankedPair<T(!new), K>(s: seq<T>, key: T -> K, le: (Group<T>, Group<T>) -> bool, i: nat, j: nat)
    requires IsTotalPreorder(le)
    requires i < j < |SortBy(GroupBy(s, key), le)|
    ensures le(SortBy(GroupBy(s, key), le)[i], SortBy(GroupBy(s, key), le)[j])
    ensures le(SortBy(GroupBy(s, key), le)[j], SortBy(GroupBy(s, key), le)[i]) ==>
      FirstIndex(s, key, key(SortBy(GroupBy(s, key), le)[i].first)) <=
      FirstIndex(s, key, key(SortBy(GroupBy(s, key), le)[j].first))
  {
    RankedStable(s, key, le);
  }

  // ---------------------------------------------------------------- tables with a unique key

  /** Appending an element with a new key keeps the keys distinct. */
  lemma AppendKeysDistinct<T, K>(s: seq<T>, x: T, key: T -> K)
    requires DistinctKeys(s, key)
    requires forall i :: 0 <= i < |s| ==> key(s[i]) != key(x)
    ensures DistinctKeys(s + [x], key)
  {
    var r := s + [x];
    forall i, j | 0 <= i < j < |r| ensures key(r[i]) != key(r[j]) {
      assert r[i] == s[i];
    }
  }

  /** Replacing an element by one with the same key keeps the keys distinct. */
  lemma ReplaceKeysDistinct<T, K>(s: seq<T>, k: nat, x: T, key: T -> K)
    requires k < |s| && key(x) == key(s[k])
    requires DistinctKeys(s, key)
    ensures DistinctKeys(s[k := x], key)
  {
  }

  /** The sequence without its element at `k`. */
  function RemoveAt<T>(s: seq<T>, k: nat): (r: seq<T>)
    requires k < |s|
    ensures |r| == |s| - 1
    ensures forall i :: 0 <= i < |r| ==> r[i] == if i < k then s[i] else s[i + 1]
  {
    s[..k] + s[k + 1..]
  }

  /** Removing the element at `k` keeps the keys distinct, and no element
      with its key is left. */
  lemma RemoveKeysDistinct<T, K>(s: seq<T>, k: nat, key: T -> K)
    requires k < |s|
    requires DistinctKeys(s, key)
    ensures DistinctKeys(RemoveAt(s, k), key)
    ensures forall i :: 0 <= i < |RemoveAt(s, k)| ==> key(RemoveAt(s, k)[i]) != key(s[k])
  {
    var r := RemoveAt(s, k);
    forall i, j | 0 <= i < j < |r| ensures key(r[i]) != key(r[j]) {
      var a, b := if i < k then i else i + 1, if j < k then j else j + 1;
      assert a < b && r[i] == s[a] && r[j] == s[b];
    }
  }

  /** With distinct keys, at most one element has a given key. */
  lemma {:induction false} DistinctKeysCount<T, K>(s: seq<T>, key: T -> K, k: K)
    requires DistinctKeys(s, key)
    ensures CountKey(s, key, k) <= 1
  {
    if s != [] {
      var p := s[..|s| - 1];
      assert forall i :: 0 <= i < |p| ==> p[i] == s[i];
      DistinctKeysCount(p, key, k);
      if key(s[|s| - 1]) == k {
        assert !HasKey(p, key, k);
      }
    }
  }
}
