/** Calendar days as integer day numbers (a `DateTime` at midnight), sets of
    days on which an entry exists, and the runs of consecutive days that the
    streak rules count. */
module Days {

  // ---------------------------------------------------------------- runs

  /** The length of the unbroken run of days of `S` that ends at `d`:
      `d`, `d - 1`, ... are all in `S`, and the day before the run is not. */
  function RunEndingAt(S: set<int>, d: int): (n: nat)
    ensures n <= |S|
    ensures forall x :: d - n < x <= d ==> x in S
    ensures d - n !in S
    decreases |S|
  {
    if d in S then
      var m := RunEndingAt(S - {d}, d - 1);
      assert |S - {d}| == |S| - 1;
      assert forall x :: d - (1 + m) < x <= d ==> x in S by {
        forall x | d - (1 + m) < x <= d ensures x in S {
          if x < d { assert x in S - {d}; }
        }
      }
      assert d - (1 + m) !in S by {
        assert d - 1 - m !in S - {d};
      }
      1 + m
    else 0
  }

  /** The two properties of `RunEndingAt` determine it. */
  lemma RunUnique(S: set<int>, d: int, n: nat)
    requires forall x :: d - n < x <= d ==> x in S
    requires d - n !in S
    ensures RunEndingAt(S, d) == n
  {
    var m := RunEndingAt(S, d);
    assert m < n ==> d - m in S;
    assert m > n ==> d - n in S;
  }

  /** A block of `n` consecutive days of `S` ending at `d` bounds the run from below. */
  lemma RunAtLeast(S: set<int>, d: int, n: nat)
    requires forall x :: d - n < x <= d ==> x in S
    ensures RunEndingAt(S, d) >= n
  {
    var m := RunEndingAt(S, d);
    assert m < n ==> d - m in S;
  }

  /** A run ending on a day of `S` extends the run ending the day before by one. */
  lemma RunStep(S: set<int>, d: int)
    requires d in S
    ensures RunEndingAt(S, d) == 1 + RunEndingAt(S, d - 1)
  {
    var m := RunEndingAt(S, d - 1);
    forall x | d - (m + 1) < x <= d ensures x in S {
      if x < d { assert d - 1 - m < x <= d - 1; }
    }
    RunUnique(S, d, m + 1);
  }

  // ---------------------------------------------------------------- ordering a set

  lemma ElementOf<T>(S: set<T>) returns (y: T)
    requires S != {}
    ensures y in S
  {
    y :| y in S;
  }

  /** `m` is the earliest day of `S`. */
  predicate IsLeast(S: set<int>, m: int) {
    m in S && forall x :: x in S ==> m <= x
  }

  /** `m` is the latest day of `S`. */
  predicate IsGreatest(S: set<int>, m: int) {
    m in S && forall x :: x in S ==> x <= m
  }

  lemma {:induction false} MinExists(S: set<int>)
    requires S != {}
    ensures exists m :: IsLeast(S, m)
    decreases |S|
  {
    var y := ElementOf(S);
    var T := S - {y};
    if T == {} {
      assert S == {y};
      assert IsLeast(S, y);
    } else {
      MinExists(T);
      var m :| IsLeast(T, m);
      assert S == T + {y};
      if y < m {
        assert IsLeast(S, y);
      } else {
        assert IsLeast(S, m);
      }
    }
  }

  lemma {:induction false} MaxExists(S: set<int>)
    requires S != {}
    ensures exists m :: IsGreatest(S, m)
    decreases |S|
  {
    var y := ElementOf(S);
    var T := S - {y};
    if T == {} {
      assert S == {y};
      assert IsGreatest(S, y);
    } else {
      MaxExists(T);
      var m :| IsGreatest(T, m);
      assert S == T + {y};
      if y > m {
        assert IsGreatest(S, y);
      } else {
        assert IsGreatest(S, m);
      }
    }
  }

  /** The earliest day of a non-empty set. */
  function Min(S: set<int>): (m: int)
    requires S != {}
    ensures m in S && forall x :: x in S ==> m <= x
  {
    MinExists(S);
    var m :| IsLeast(S, m); m
  }

  /** The latest day of a non-empty set. */
  function Max(S: set<int>): (m: int)
    requires S != {}
    ensures m in S && forall x :: x in S ==> x <= m
  {
    MaxExists(S);
    var m :| IsGreatest(S, m); m
  }

  predicate StrictlyIncreasing(s: seq<int>) {
    forall i, j :: 0 <= i < j < |s| ==> s[i] < s[j]
  }

  predicate StrictlyDecreasing(s: seq<int>) {
    forall i, j :: 0 <= i < j < |s| ==> s[i] > s[j]
  }

  /** `set.OrderBy(d => d)`: the days of `S` in ascending order, each once. */
  function Ascending(S: set<int>): (r: seq<int>)
    ensures |r| == |S|
    ensures forall x :: x in S <==> x in r
    ensures StrictlyIncreasing(r)
    decreases |S|
  {
    if S == {} then []
    else
      var m := Min(S);
      var t := Ascending(S - {m});
      assert forall k :: 0 <= k < |t| ==> m < t[k] by {
        forall k | 0 <= k < |t| ensures m < t[k] { assert t[k] in S - {m}; }
      }
      [m] + t
  }

  /** `OrderByDescending(d => d)` of a set of distinct days. */
  function Descending(S: set<int>): (r: seq<int>)
    ensures |r| == |S|
    ensures forall x :: x in S <==> x in r
    ensures StrictlyDecreasing(r)
    ensures S != {} ==> r[0] == Max(S)
    decreases |S|
  {
    if S == {} then []
    else
      var m := Max(S);
      var t := Descending(S - {m});
      assert forall k :: 0 <= k < |t| ==> m > t[k] by {
        forall k | 0 <= k < |t| ensures m > t[k] { assert t[k] in S - {m}; }
      }
      [m] + t
  }

  /** No day of `S` lies strictly between two neighbours of its ascending order. */
  lemma AscendingGap(S: set<int>, i: nat, x: int)
    requires 0 < i < |Ascending(S)|
    requires Ascending(S)[i - 1] < x < Ascending(S)[i]
    ensures x !in S
  {
    var o := Ascending(S);
    forall k | 0 <= k < |o| ensures o[k] != x {
      assert k <= i - 1 ==> o[k] <= o[i - 1];
      assert k >= i ==> o[i] <= o[k];
    }
  }

  // ---------------------------------------------------------------- streaks

  /** The dashboard's current streak: the run ending today when today has an
      entry, else the run ending yesterday when yesterday has one, else 0. */
  function CurrentStreakOf(S: set<int>, today: int): nat {
    if today in S then RunEndingAt(S, today)
    else if today - 1 in S then RunEndingAt(S, today - 1)
    else 0
  }

  /** The current streak is 0 exactly when neither today nor yesterday has an entry. */
  lemma CurrentStreakZero(S: set<int>, today: int)
    ensures CurrentStreakOf(S, today) == 0 <==> today !in S && today - 1 !in S
  {
    if today in S { RunStep(S, today); }
    else if today - 1 in S { RunStep(S, today - 1); }
  }

  /** With an entry today, the current streak is the unbroken run of days
      ending today. */
  lemma CurrentStreakFromToday(S: set<int>, today: int)
    requires today in S
    ensures var n := CurrentStreakOf(S, today);
      n >= 1 && (forall x :: today - n < x <= today ==> x in S) && today - n !in S
  {
    RunStep(S, today);
  }

  /** Without an entry today but with one yesterday, the current streak is the
      unbroken run of days ending yesterday. */
  lemma CurrentStreakFromYesterday(S: set<int>, today: int)
    requires today !in S && today - 1 in S
    ensures var n := CurrentStreakOf(S, today);
      n >= 1 && (forall x :: today - 1 - n < x <= today - 1 ==> x in S) && today - 1 - n !in S
  {
    RunStep(S, today - 1);
  }

  /** The largest of `ns`, or 0 for none. */
  function MaxOf(ns: seq<nat>): nat {
    if ns == [] then 0
    else
      var a, b := MaxOf(ns[..|ns| - 1]), ns[|ns| - 1];
      if a < b then b else a
  }

  /** The maximum bounds each element and is one of them. */
  lemma {:induction false} MaxOfFacts(ns: seq<nat>)
    ensures forall k :: 0 <= k < |ns| ==> ns[k] <= MaxOf(ns)
    ensures ns != [] ==> MaxOf(ns) in ns
  {
    if ns != [] {
      var p := ns[..|ns| - 1];
      MaxOfFacts(p);
      assert forall k :: 0 <= k < |p| ==> ns[k] == p[k];
      assert MaxOf(p) in p ==> MaxOf(p) in ns;
    }
  }

  /** One more element extends the maximum over a prefix. */
  lemma MaxOfStep(ns: seq<nat>, i: nat)
    requires i < |ns|
    ensures MaxOf(ns[..i + 1]) == if MaxOf(ns[..i]) < ns[i] then ns[i] else MaxOf(ns[..i])
  {
    assert ns[..i + 1][..i] == ns[..i];
  }

  lemma WholePrefix<T>(s: seq<T>)
    ensures s[..|s|] == s
  {
  }

  /** The runs ending at the days `ds`, in order. */
  function RunsAlong(S: set<int>, ds: seq<int>): (r: seq<nat>)
    ensures |r| == |ds| && forall k :: 0 <= k < |ds| ==> r[k] == RunEndingAt(S, ds[k])
  {
    seq(|ds|, k requires 0 <= k < |ds| => RunEndingAt(S, ds[k]))
  }

  /** The run ending at the earliest day is 1 long. */
  lemma AscendingStart(S: set<int>, o: seq<int>)
    requires o == Ascending(S) && S != {}
    ensures RunEndingAt(S, o[0]) == 1
  {
    assert o[0] == Min(S) by {
      assert Min(S) in o;
    }
    RunStep(S, o[0]);
  }

  /** Along the ascending order, the run ending at a day extends the run
      ending at the day before it when the two are consecutive, and is 1
      otherwise. */
  lemma AscendingRunStep(S: set<int>, o: seq<int>, i: nat)
    requires o == Ascending(S) && 0 < i < |o|
    ensures RunEndingAt(S, o[i]) == if o[i] == o[i - 1] + 1 then RunEndingAt(S, o[i - 1]) + 1 else 1
  {
    assert o[i] in S;
    RunStep(S, o[i]);
    if o[i] != o[i - 1] + 1 {
      AscendingGap(S, i, o[i] - 1);
    }
  }

  /** The longest streak: the longest run of consecutive days in `S`. */
  function LongestStreakOf(S: set<int>): nat {
    MaxOf(RunsAlong(S, Ascending(S)))
  }

  /** No run of `S` is longer than the longest streak. */
  lemma LongestStreakUpper(S: set<int>, d: int)
    requires d in S
    ensures RunEndingAt(S, d) <= LongestStreakOf(S)
  {
    var o := Ascending(S);
    var runs := RunsAlong(S, o);
    MaxOfFacts(runs);
    var k :| 0 <= k < |o| && o[k] == d;
    assert runs[k] == RunEndingAt(S, d);
  }

  /** Some day of a non-empty `S` ends a run as long as the longest streak. */
  lemma LongestStreakAttained(S: set<int>) returns (d: int)
    requires S != {}
    ensures d in S && RunEndingAt(S, d) == LongestStreakOf(S)
  {
    var o := Ascending(S);
    var runs := RunsAlong(S, o);
    MaxOfFacts(runs);
    var k :| 0 <= k < |runs| && runs[k] == LongestStreakOf(S);
    d := o[k];
  }

  /** The longest streak is 0 exactly for no days, otherwise between 1 and the
      number of days; every block of consecutive days of `S` is at most that
      long, and some run reaches it. */
  lemma LongestStreakFacts(S: set<int>)
    ensures LongestStreakOf(S) == 0 <==> S == {}
    ensures S != {} ==> 1 <= LongestStreakOf(S) <= |S|
    ensures forall d :: d in S ==> RunEndingAt(S, d) <= LongestStreakOf(S)
    ensures S != {} ==> exists d :: d in S && RunEndingAt(S, d) == LongestStreakOf(S)
  {
    forall d | d in S ensures RunEndingAt(S, d) <= LongestStreakOf(S) {
      LongestStreakUpper(S, d);
    }
    if S != {} {
      var d := LongestStreakAttained(S);
      RunStep(S, d);
    } else {
      assert Ascending(S) == [];
    }
  }

  /** A block of `n` consecutive days of `S` is no longer than the longest streak. */
  lemma LongestStreakBound(S: set<int>, d: int, n: nat)
    requires forall x :: d - n < x <= d ==> x in S
    ensures n <= LongestStreakOf(S)
  {
    RunAtLeast(S, d, n);
    if n > 0 {
      assert d in S;
      LongestStreakFacts(S);
    }
  }

  /** The current streak never exceeds the longest streak. */
  lemma CurrentAtMostLongest(S: set<int>, today: int)
    ensures CurrentStreakOf(S, today) <= LongestStreakOf(S)
  {
    LongestStreakFacts(S);
  }

  // ---------------------------------------------------------------- missed days

  /** The days from `lo` to `hi`, ascending, that are not in `S`. */
  function MissedDays(lo: int, hi: int, S: set<int>): (r: seq<int>)
    ensures forall k :: 0 <= k < |r| ==> lo <= r[k] <= hi && r[k] !in S
    ensures StrictlyIncreasing(r)
    decreases hi - lo
  {
    if lo > hi then [] else (if lo in S then [] else [lo]) + MissedDays(lo + 1, hi, S)
  }

  /** The days of `S` between `lo` and `hi`. */
  function DaysBetween(S: set<int>, lo: int, hi: int): set<int> {
    set x | x in S && lo <= x <= hi
  }

  /** Every day between `lo` and `hi` without an entry is missed, and the missed
      days together with the days of `S` fill the range exactly. */
  lemma {:induction false} MissedDaysComplete(lo: int, hi: int, S: set<int>)
    requires lo <= hi + 1
    ensures forall d :: lo <= d <= hi && d !in S ==> d in MissedDays(lo, hi, S)
    ensures |MissedDays(lo, hi, S)| + |DaysBetween(S, lo, hi)| == hi - lo + 1
    decreases hi - lo
  {
    if lo <= hi {
      MissedDaysComplete(lo + 1, hi, S);
      var rest := MissedDays(lo + 1, hi, S);
      var r := MissedDays(lo, hi, S);
      assert r == (if lo in S then [] else [lo]) + rest;
      forall d | lo <= d <= hi && d !in S ensures d in r {
        if d > lo { assert d in rest; }
      }
      if lo in S {
        assert DaysBetween(S, lo + 1, hi) == DaysBetween(S, lo, hi) - {lo};
      } else {
        assert DaysBetween(S, lo + 1, hi) == DaysBetween(S, lo, hi);
      }
    } else {
      assert DaysBetween(S, lo, hi) == {};
    }
  }
}
