/** The dashboard analytics engine: the result records and the pipeline that
    computes them from the entries table, a date range, a top-tag limit and
    the current day. */
module Dashboard {
  import opened Wrappers
  import opened Strings
  import opened Collections
  import opened Days
  import opened Models
  import opened Words

  // ---------------------------------------------------------------- result records

  /** A category's share of the entries. `percentage` is in hundredths of a
      percent (`12.5%` is `1250`). */
  datatype MoodDistributionItem = MoodDistributionItem(category: Category, count: nat, percentage: int)

  datatype TagCountItem = TagCountItem(tag: string, count: nat)

  datatype CategoryBreakdownItem = CategoryBreakdownItem(category: Category, count: nat, percentage: int)

  datatype WordCountTrendItem = WordCountTrendItem(date: int, wordCount: nat)

  datatype DashboardAnalyticsResult = DashboardAnalyticsResult(
    start: int,
    end: int,
    moodDistribution: seq<MoodDistributionItem>,
    mostFrequentMood: Option<Mood>,
    currentStreak: nat,
    longestStreak: nat,
    missedDays: seq<int>,
    mostUsedTags: seq<TagCountItem>,
    tagBreakdown: seq<CategoryBreakdownItem>,
    wordCountTrends: seq<WordCountTrendItem>,
    averageWordsPerEntry: real)

  // ---------------------------------------------------------------- range and entries

  /** The normalised range: both ends as days, swapped when the end comes first. */
  function NormalizeRange(start: Moment, end: Moment): (r: (int, int))
    ensures r.0 <= r.1
    ensures (r.0 == start.day && r.1 == end.day) || (r.0 == end.day && r.1 == start.day)
  {
    var s, e := NormalizeDate(start), NormalizeDate(end);
    if e < s then (e, s) else (s, e)
  }

  /** The order of the arguments does not matter. */
  lemma NormalizeRangeSymmetric(a: Moment, b: Moment)
    ensures NormalizeRange(a, b) == NormalizeRange(b, a)
  {
  }

  /** The entries of `es` dated from `s` to `e`, each as often as in `es`. */
  function EntriesBetween(es: seq<Entry>, s: int, e: int): (r: seq<Entry>)
    ensures forall x :: multiset(r)[x] == if s <= x.date <= e then multiset(es)[x] else 0
    ensures forall i :: 0 <= i < |r| ==> s <= r[i].date <= e
  {
    if es == [] then []
    else
      var p, x := es[..|es| - 1], es[|es| - 1];
      assert es == p + [x];
      var r := EntriesBetween(p, s, e);
      if s <= x.date <= e then r + [x] else r
  }

  predicate ByDate(a: Entry, b: Entry) {
    a.date <= b.date
  }

  lemma ByDateIsTotalPreorder()
    ensures IsTotalPreorder(ByDate)
  {
  }

  /** `.Where(in range).OrderBy(x => x.Date)`. */
  function EntriesInRange(table: seq<Entry>, s: int, e: int): seq<Entry> {
    SortBy(EntriesBetween(table, s, e), ByDate)
  }

  /** The in-range entries are exactly the table's entries dated from `s` to
      `e`, in ascending date order. */
  lemma EntriesInRangeFacts(table: seq<Entry>, s: int, e: int)
    ensures var r := EntriesInRange(table, s, e);
      forall x :: multiset(r)[x] == if s <= x.date <= e then multiset(table)[x] else 0
    ensures SortedBy(EntriesInRange(table, s, e), ByDate)
    ensures forall x :: x in EntriesInRange(table, s, e) <==> x in table && s <= x.date <= e
  {
    var f := EntriesBetween(table, s, e);
    var r := EntriesInRange(table, s, e);
    ByDateIsTotalPreorder();
    SortBySorted(f, ByDate);
    forall x ensures x in r <==> x in table && s <= x.date <= e {
      assert x in r <==> x in multiset(r);
      assert x in table <==> x in multiset(table);
    }
  }

  // ---------------------------------------------------------------- categories

  /** The category a mood belongs to when an entry has none of its own. */
  function Infer(m: Mood): (c: Category)
    ensures c == Positive <==> m in {Happy, Excited, Relaxed, Grateful, Confident}
    ensures c == Neutral <==> m in {Calm, Thoughtful, Curious, Nostalgic, Bored}
    ensures c == Negative <==> m in {Sad, Angry, Stressed, Lonely, Anxious}
  {
    match m
    case Happy | Excited | Relaxed | Grateful | Confident => Positive
    case Calm | Thoughtful | Curious | Nostalgic | Bored => Neutral
    case _ => Negative
  }

  /** `e.Category ?? Infer(e.PrimaryMood)`. */
  function CategoryOf(e: Entry): (c: Category)
    ensures e.category.Some? ==> c == e.category.value
    ensures e.category.None? ==> c == Infer(e.primaryMood)
  {
    e.category.GetOr(Infer(e.primaryMood))
  }

  /** How many of `es` fall into category `c`. */
  function CategoryCount(es: seq<Entry>, c: Category): nat {
    CountKey(es, CategoryOf, c)
  }

  /** Every entry falls into exactly one category. */
  lemma {:induction false} CategoryCountsSum(es: seq<Entry>)
    ensures CategoryCount(es, Positive) + CategoryCount(es, Neutral) + CategoryCount(es, Negative) == |es|
  {
    if es != [] {
      CategoryCountsSum(es[..|es| - 1]);
    }
  }

  // ---------------------------------------------------------------- percentages

  function Abs(x: int): nat {
    if x < 0 then -x else x
  }

  /** `Math.Round(part * 100.0 / total, 2)` in hundredths of a percent, with
      .NET's default rounding of midpoints to even; 0 when `total <= 0`. */
  function Percentage(part: int, total: int): (r: int)
    ensures total <= 0 ==> r == 0
    ensures total > 0 ==> 2 * Abs(r * total - part * 10000) <= total
    ensures total > 0 && 2 * Abs(r * total - part * 10000) == total ==> r % 2 == 0
  {
    if total <= 0 then 0
    else
      var n := part * 10000;
      var q, rem := n / total, n % total;
      assert n == q * total + rem;
      if 2 * rem < total then q
      else if 2 * rem > total then q + 1
      else if q % 2 == 0 then q
      else q + 1
  }

  /** A share of a positive total lies between 0% and 100%, and the whole is 100%. */
  lemma PercentageBounds(part: int, total: int)
    requires 0 <= part <= total && total > 0
    ensures 0 <= Percentage(part, total) <= 10000
    ensures part == total ==> Percentage(part, total) == 10000
    ensures part == 0 ==> Percentage(part, total) == 0
  {
    var n := part * 10000;
    var q, rem := n / total, n % total;
    assert n <= 10000 * total;
    QuotientBounds(n, total, 10000);
    if part == total {
      assert n == 10000 * total;
      QuotientExact(10000, total);
    }
  }

  lemma QuotientBounds(n: int, total: int, m: nat)
    requires total > 0 && 0 <= n <= m * total
    ensures 0 <= n / total <= m
    ensures n / total == m ==> n % total == 0
  {
    var q, rem := n / total, n % total;
    assert n == q * total + rem && 0 <= rem < total;
  }

  lemma QuotientExact(m: int, total: int)
    requires total > 0
    ensures (m * total) / total == m && (m * total) % total == 0
  {
    var n := m * total;
    var q, rem := n / total, n % total;
    assert (q - m) * total == -rem;
    MulAtLeast(q - m, total);
  }

  lemma MulAtLeast(a: int, b: int)
    requires b > 0
    ensures a >= 1 ==> a * b >= b
    ensures a <= -1 ==> a * b <= -b
  {
  }

  // ---------------------------------------------------------------- mood distribution

  function DistributionRow(es: seq<Entry>, c: Category): MoodDistributionItem {
    var n := CategoryCount(es, c);
    MoodDistributionItem(c, n, Percentage(n, |es|))
  }

  /** `BuildMoodDistribution`: three rows in category order, each counting the
      entries of its category and giving their share; the counts add up to the
      number of entries, and without entries every row is (0, 0). */
  function BuildMoodDistribution(es: seq<Entry>): (r: seq<MoodDistributionItem>)
    ensures |r| == 3
    ensures forall k :: 0 <= k < 3 ==>
      r[k].category == AllCategories[k] &&
      r[k].count == CategoryCount(es, AllCategories[k]) &&
      r[k].percentage == Percentage(r[k].count, |es|)
    ensures r[0].count + r[1].count + r[2].count == |es|
    ensures es == [] ==> forall k :: 0 <= k < 3 ==> r[k].count == 0 && r[k].percentage == 0
  {
    CategoryCountsSum(es);
    if |es| == 0 then
      [MoodDistributionItem(Positive, 0, 0), MoodDistributionItem(Neutral, 0, 0),
       MoodDistributionItem(Negative, 0, 0)]
    else
      [DistributionRow(es, Positive), DistributionRow(es, Neutral), DistributionRow(es, Negative)]
  }

  // ---------------------------------------------------------------- category breakdown

  function BreakdownRow(es: seq<Entry>, c: Category): CategoryBreakdownItem {
    var n := CategoryCount(es, c);
    CategoryBreakdownItem(c, n, Percentage(n, |es|))
  }

  /** `.Where(item => item.Count > 0)`. */
  function NonZeroRows(rows: seq<CategoryBreakdownItem>): (r: seq<CategoryBreakdownItem>)
    ensures forall x :: x in r <==> x in rows && x.count > 0
    ensures |r| <= |rows|
  {
    if rows == [] then []
    else
      var t := NonZeroRows(rows[1..]);
      assert forall x :: x in rows <==> x == rows[0] || x in rows[1..];
      if rows[0].count > 0 then [rows[0]] + t else t
  }

  function CategoryIndex(c: Category): nat {
    match c
    case Positive => 0
    case Neutral => 1
    case Negative => 2
  }

  predicate InCategoryOrder(a: CategoryBreakdownItem, b: CategoryBreakdownItem) {
    CategoryIndex(a.category) <= CategoryIndex(b.category)
  }

  /** `.OrderByDescending(item => item.Count)`. */
  predicate ByCountDescending(a: CategoryBreakdownItem, b: CategoryBreakdownItem) {
    a.count >= b.count
  }

  function BreakdownRows(es: seq<Entry>): seq<CategoryBreakdownItem> {
    [BreakdownRow(es, Positive), BreakdownRow(es, Neutral), BreakdownRow(es, Negative)]
  }

  /** `BuildCategoryBreakdown`: at most one row per category; three rows
      without entries, and otherwise at least one row, every row counting some
      entries. */
  function BuildCategoryBreakdown(es: seq<Entry>): (r: seq<CategoryBreakdownItem>)
    ensures |r| <= 3
    ensures es == [] ==> |r| == 3
    ensures es != [] ==> r != [] && forall i :: 0 <= i < |r| ==> r[i].count > 0
  {
    if |es| == 0 then
      [CategoryBreakdownItem(Positive, 0, 0), CategoryBreakdownItem(Neutral, 0, 0),
       CategoryBreakdownItem(Negative, 0, 0)]
    else
      var rows := BreakdownRows(es);
      var nz := NonZeroRows(rows);
      var r := SortBy(nz, ByCountDescending);
      SortByElements(nz, ByCountDescending);
      assert |multiset(r)| == |r| && |multiset(nz)| == |nz|;
      CategoryCountsSum(es);
      assert exists x :: x in rows && x.count > 0 by {
        if CategoryCount(es, Positive) > 0 { assert rows[0] in rows; }
        else if CategoryCount(es, Neutral) > 0 { assert rows[1] in rows; }
        else { assert rows[2] in rows; }
      }
      assert forall i :: 0 <= i < |r| ==> r[i] in nz;
      r
  }

  function RowCategory(x: CategoryBreakdownItem): Category {
    x.category
  }

  lemma NonZeroRowsInOrder(es: seq<Entry>)
    ensures SortedBy(NonZeroRows(BreakdownRows(es)), InCategoryOrder)
  {
  }

  lemma NonZeroRowsDistinct(es: seq<Entry>)
    ensures DistinctKeys(NonZeroRows(BreakdownRows(es)), RowCategory)
  {
  }

  /** Without entries the breakdown is three zero rows. With entries it holds,
      for each category with entries, one row with the distribution's count
      and share, and no other row; it is ordered by count, largest first, and
      categories with equal counts keep their declaration order. */
  lemma CategoryBreakdownFacts(es: seq<Entry>)
    ensures es == [] ==> (BuildCategoryBreakdown(es) ==
      [CategoryBreakdownItem(Positive, 0, 0), CategoryBreakdownItem(Neutral, 0, 0),
       CategoryBreakdownItem(Negative, 0, 0)])
    ensures es != [] ==> forall x :: x in BuildCategoryBreakdown(es) <==>
      x.count > 0 && x == CategoryBreakdownItem(x.category, CategoryCount(es, x.category),
                                                Percentage(CategoryCount(es, x.category), |es|))
    ensures es != [] ==> forall c :: CategoryCount(es, c) > 0 <==>
      exists i :: 0 <= i < |BuildCategoryBreakdown(es)| && BuildCategoryBreakdown(es)[i].category == c
    ensures es != [] ==> SortedThenBy(BuildCategoryBreakdown(es), ByCountDescending, InCategoryOrder)
    ensures es != [] ==> forall i, j :: 0 <= i < j < |BuildCategoryBreakdown(es)| ==>
      BuildCategoryBreakdown(es)[i].category != BuildCategoryBreakdown(es)[j].category
  {
    if es != [] {
      var rows := BreakdownRows(es);
      var nz := NonZeroRows(rows);
      var r := BuildCategoryBreakdown(es);
      SortByElements(nz, ByCountDescending);
      forall x ensures x in r <==> x.count > 0 && x == BreakdownRow(es, x.category) {
        match x.category
        case Positive =>
        case Neutral =>
        case Negative =>
      }
      forall c ensures CategoryCount(es, c) > 0 <==> exists i :: 0 <= i < |r| && r[i].category == c {
        if CategoryCount(es, c) > 0 {
          assert BreakdownRow(es, c) in rows;
          assert BreakdownRow(es, c) in r;
        }
      }
      NonZeroRowsInOrder(es);
      SortByStable(nz, ByCountDescending, InCategoryOrder);
      NonZeroRowsDistinct(es);
      SortByKeysDistinct(nz, ByCountDescending, RowCategory);
    }
  }

  // ---------------------------------------------------------------- most frequent mood

  /** `entries.SelectMany(x => x.SecondaryMoods)`. */
  function SecondaryMoodsOf(es: seq<Entry>): (r: seq<Mood>)
    ensures |r| == 0 <==> forall i :: 0 <= i < |es| ==> es[i].secondaryMoods == []
    ensures forall m :: m in r <==> exists i :: 0 <= i < |es| && m in es[i].secondaryMoods
  {
    if es == [] then []
    else
      var p := es[..|es| - 1];
      assert forall i :: 0 <= i < |p| ==> p[i] == es[i];
      SecondaryMoodsOf(p) + es[|es| - 1].secondaryMoods
  }

  function MoodKey(m: Mood): Mood {
    m
  }

  /** `.OrderByDescending(g => g.Count())`. */
  predicate MoreFrequent(a: Group<Mood>, b: Group<Mood>) {
    a.count >= b.count
  }

  lemma MoreFrequentIsTotalPreorder()
    ensures IsTotalPreorder(MoreFrequent)
  {
  }

  /** How often `m` occurs among the moods `ms`. */
  function Occurrences(ms: seq<Mood>, m: Mood): nat {
    CountKey(ms, MoodKey, m)
  }

  /** The moods grouped, the groups ordered by size, largest first. */
  function RankedMoods(all: seq<Mood>): (r: seq<Group<Mood>>)
    ensures |r| == 0 <==> |all| == 0
  {
    if |all| > 0 then RankedCovers(all, MoodKey, MoreFrequent, 0); SortBy(GroupBy(all, MoodKey), MoreFrequent)
    else SortBy(GroupBy(all, MoodKey), MoreFrequent)
  }

  /** The key of the first ranked group of `all`, absent when `all` is empty. */
  function MostFrequentOf(all: seq<Mood>): (r: Option<Mood>)
    ensures r.None? <==> |all| == 0
  {
    var ranked := RankedMoods(all);
    if |ranked| == 0 then None else Some(ranked[0].first)
  }

  /** The most frequent of the secondary moods, absent exactly when no entry
      has a secondary mood. */
  function MostFrequentMood(es: seq<Entry>): (r: Option<Mood>)
    ensures r.None? <==> forall i :: 0 <= i < |es| ==> es[i].secondaryMoods == []
  {
    MostFrequentOf(SecondaryMoodsOf(es))
  }

  /** The most frequent mood occurs in `all` and at least as often as any
      other mood, and of the moods that occur as often it is the one that
      occurs first. */
  lemma MostFrequentFacts(all: seq<Mood>, m': Mood)
    requires MostFrequentOf(all).Some?
    ensures MostFrequentOf(all).value in all
    ensures Occurrences(all, m') <= Occurrences(all, MostFrequentOf(all).value)
    ensures Occurrences(all, m') == Occurrences(all, MostFrequentOf(all).value) ==>
      FirstIndex(all, MoodKey, MostFrequentOf(all).value) <= FirstIndex(all, MoodKey, m')
  {
    var ranked := RankedMoods(all);
    assert ranked == SortBy(GroupBy(all, MoodKey), MoreFrequent);
    var m := ranked[0].first;
    RankedGroup(all, MoodKey, MoreFrequent, ranked[0]);
    assert m in all;
    if Occurrences(all, m') > 0 {
      var j :| 0 <= j < |all| && MoodKey(all[j]) == m';
      RankedCovers(all, MoodKey, MoreFrequent, j);
      var k :| 0 <= k < |ranked| && MoodKey(ranked[k].first) == m';
      RankedGroup(all, MoodKey, MoreFrequent, ranked[k]);
      if k > 0 {
        MoreFrequentIsTotalPreorder();
        RankedPair(all, MoodKey, MoreFrequent, 0, k);
      }
    }
  }

  // ---------------------------------------------------------------- top tags

  /** `entries.SelectMany(x => x.Tags)`. */
  function TagsOf(es: seq<Entry>): (r: seq<string>)
    ensures forall t :: t in r <==> exists i :: 0 <= i < |es| && t in es[i].tags
  {
    if es == [] then []
    else
      var p := es[..|es| - 1];
      assert forall i :: 0 <= i < |p| ==> p[i] == es[i];
      TagsOf(p) + es[|es| - 1].tags
  }

  /** `.Where(t => !string.IsNullOrWhiteSpace(t)).Select(t => t.Trim())`: each
      kept tag is a given tag, trimmed and not empty (`CleanTagsComplete`: and
      every given tag that is not blank is kept). */
  function CleanTags(ts: seq<string>): (r: seq<string>)
    ensures |r| <= |ts|
    ensures forall i :: 0 <= i < |r| ==> r[i] != [] && exists j :: 0 <= j < |ts| && r[i] == Trim(ts[j])
  {
    if ts == [] then []
    else
      var p, x := ts[..|ts| - 1], ts[|ts| - 1];
      var c := CleanTags(p);
      assert forall j :: 0 <= j < |p| ==> p[j] == ts[j];
      if IsBlank(x) then c else c + [Trim(x)]
  }

  /** Every given tag that is not blank is kept, trimmed. */
  lemma {:induction false} CleanTagsComplete(ts: seq<string>)
    ensures forall j :: 0 <= j < |ts| && !IsBlank(ts[j]) ==> Trim(ts[j]) in CleanTags(ts)
  {
    if ts != [] {
      var p, x := ts[..|ts| - 1], ts[|ts| - 1];
      var c := CleanTags(p);
      CleanTagsComplete(p);
      assert CleanTags(ts) == if IsBlank(x) then c else c + [Trim(x)];
      forall j | 0 <= j < |ts| && !IsBlank(ts[j]) ensures Trim(ts[j]) in CleanTags(ts) {
        CleanTagGiven(ts, p, c, j);
      }
    }
  }

  lemma CleanTagGiven(ts: seq<string>, p: seq<string>, c: seq<string>, j: nat)
    requires ts != [] && p == ts[..|ts| - 1]
    requires forall k :: 0 <= k < |p| && !IsBlank(p[k]) ==> Trim(p[k]) in c
    requires j < |ts| && !IsBlank(ts[j])
    ensures Trim(ts[j]) in if IsBlank(ts[|ts| - 1]) then c else c + [Trim(ts[|ts| - 1])]
  {
    if j < |p| {
      assert p[j] == ts[j];
    }
  }

  /** `.OrderByDescending(g => g.Count()).ThenBy(g => g.Key)`. */
  predicate TagRank(a: Group<string>, b: Group<string>) {
    a.count > b.count || (a.count == b.count && OrdinalLe(a.first, b.first))
  }

  lemma TagRankIsTotalPreorder()
    ensures IsTotalPreorder(TagRank)
  {
    forall a: Group<string>, b: Group<string> ensures TagRank(a, b) || TagRank(b, a) {
      OrdinalLeTotal(a.first, b.first);
    }
    forall a: Group<string>, b: Group<string>, c: Group<string> | TagRank(a, b) && TagRank(b, c)
      ensures TagRank(a, c)
    {
      OrdinalLeTransitive(a.first, b.first, c.first);
    }
  }

  /** The tags of the entries that are not blank, trimmed. */
  function UsedTags(es: seq<Entry>): seq<string> {
    CleanTags(TagsOf(es))
  }

  /** A used tag is a tag of some entry, trimmed and not empty; every tag of
      an entry that is not blank is used, trimmed. */
  lemma UsedTagsFacts(es: seq<Entry>)
    ensures forall t :: t in UsedTags(es) ==>
      t != [] && exists i, u :: 0 <= i < |es| && u in es[i].tags && t == Trim(u)
    ensures forall i, u :: 0 <= i < |es| && u in es[i].tags && !IsBlank(u) ==> Trim(u) in UsedTags(es)
  {
    var ts := TagsOf(es);
    var r := UsedTags(es);
    CleanTagsComplete(ts);
    forall t | t in r ensures t != [] && exists i, u :: 0 <= i < |es| && u in es[i].tags && t == Trim(u) {
      var k :| 0 <= k < |r| && r[k] == t;
      var j :| 0 <= j < |ts| && r[k] == Trim(ts[j]);
      assert ts[j] in ts;
    }
    forall i, u | 0 <= i < |es| && u in es[i].tags && !IsBlank(u) ensures Trim(u) in r {
      assert u in ts;
      var j :| 0 <= j < |ts| && ts[j] == u;
    }
  }

  /** The tag groups, ranked. */
  function RankedTags(used: seq<string>): seq<Group<string>> {
    SortBy(GroupBy(used, Fold), TagRank)
  }

  /** `Math.Max(0, topTags)`, capped by the number of groups as `Take` does. */
  function TakeCount(k: int, n: nat): (r: nat)
    ensures r <= n
    ensures k <= 0 ==> r == 0
    ensures 0 < k <= n ==> r == k
    ensures k > n ==> r == n
  {
    if k <= 0 then 0 else if k < n then k else n
  }

  /** `.Select(g => new TagCountItem(g.Key, g.Count()))`. */
  function TagItems(gs: seq<Group<string>>): (r: seq<TagCountItem>)
    ensures |r| == |gs| && forall i :: 0 <= i < |gs| ==> r[i] == TagCountItem(gs[i].first, gs[i].count)
  {
    seq(|gs|, i requires 0 <= i < |gs| => TagCountItem(gs[i].first, gs[i].count))
  }

  /** The `topTags` most used of the tags `used`. */
  function TopTagsOf(used: seq<string>, topTags: int): seq<TagCountItem> {
    var ranked := RankedTags(used);
    TagItems(ranked[..TakeCount(topTags, |ranked|)])
  }

  /** The most used tags of the entries: at most `max(0, topTags)` of them,
      each an entry's tag, trimmed, that is used at least once. */
  function TopTags(es: seq<Entry>, topTags: int): (r: seq<TagCountItem>)
    ensures |r| <= if topTags < 0 then 0 else topTags
    ensures forall i :: 0 <= i < |r| ==>
      r[i].count > 0 && exists k, u :: 0 <= k < |es| && u in es[k].tags && r[i].tag == Trim(u)
  {
    var r := TopTagsOf(UsedTags(es), topTags);
    TopTagsSize(UsedTags(es), topTags);
    assert forall i :: 0 <= i < |r| ==>
      r[i].count > 0 && exists k, u :: 0 <= k < |es| && u in es[k].tags && r[i].tag == Trim(u)
    by {
      forall i | 0 <= i < |r|
        ensures r[i].count > 0 && exists k, u :: 0 <= k < |es| && u in es[k].tags && r[i].tag == Trim(u)
      {
        TopTagFromEntry(es, topTags, i);
      }
    }
    r
  }

  lemma TopTagFromEntry(es: seq<Entry>, topTags: int, i: nat)
    requires i < |TopTagsOf(UsedTags(es), topTags)|
    ensures var t := TopTagsOf(UsedTags(es), topTags)[i];
      t.count > 0 && exists k, u :: 0 <= k < |es| && u in es[k].tags && t.tag == Trim(u)
  {
    TopTagsUsed(UsedTags(es), topTags);
    UsedTagsFacts(es);
  }

  /** Each listed tag is one of the tags, used at least once. */
  lemma TopTagsUsed(used: seq<string>, topTags: int)
    ensures forall i :: 0 <= i < |TopTagsOf(used, topTags)| ==>
      TopTagsOf(used, topTags)[i].count > 0 && TopTagsOf(used, topTags)[i].tag in used
  {
    var r := TopTagsOf(used, topTags);
    forall i | 0 <= i < |r| ensures r[i].count > 0 && r[i].tag in used {
      TopTagsCounts(used, topTags, i);
      var j :| 0 <= j < |used| && used[j] == r[i].tag;
      assert HasKey(used, Fold, Fold(r[i].tag));
    }
  }

  /** How many of the tags `used` equal `t` ignoring case. */
  function TagUses(used: seq<string>, t: string): nat {
    CountKey(used, Fold, Fold(t))
  }

  /** Each item is one of the tags, spelled as its first use, with the number
      of its uses ignoring case. */
  lemma TopTagsCounts(used: seq<string>, topTags: int, i: nat)
    requires i < |TopTagsOf(used, topTags)|
    ensures TopTagsOf(used, topTags)[i].tag in used
    ensures TopTagsOf(used, topTags)[i].count == TagUses(used, TopTagsOf(used, topTags)[i].tag)
  {
    var ranked := RankedTags(used);
    var r := TopTagsOf(used, topTags);
    assert r[i].tag == ranked[i].first && r[i].count == ranked[i].count;
    RankedGroup(used, Fold, TagRank, ranked[i]);
  }

  /** At most `max(0, topTags)` items, none when `topTags <= 0`; the list falls
      short of `topTags` only when it holds every group. */
  lemma TopTagsSize(used: seq<string>, topTags: int)
    ensures topTags <= 0 ==> TopTagsOf(used, topTags) == []
    ensures topTags > 0 ==> |TopTagsOf(used, topTags)| <= topTags
    ensures |TopTagsOf(used, topTags)| < topTags ==> |TopTagsOf(used, topTags)| == |RankedTags(used)|
  {
  }

  /** No two items are the same tag ignoring case. */
  lemma TopTagsDistinct(used: seq<string>, topTags: int)
    ensures forall i, j :: 0 <= i < j < |TopTagsOf(used, topTags)| ==>
      Fold(TopTagsOf(used, topTags)[i].tag) != Fold(TopTagsOf(used, topTags)[j].tag)
  {
    var ranked := RankedTags(used);
    var r := TopTagsOf(used, topTags);
    RankedKeysDistinct(used, Fold, TagRank);
    assert KeysDistinct(ranked, Fold);
    assert forall i :: 0 <= i < |r| ==> r[i].tag == ranked[i].first;
  }

  /** Counts never increase along the list, and equal counts are in ordinal
      tag order. */
  lemma TopTagsOrdered(used: seq<string>, topTags: int)
    ensures forall i, j :: 0 <= i < j < |TopTagsOf(used, topTags)| ==>
      var a, b := TopTagsOf(used, topTags)[i], TopTagsOf(used, topTags)[j];
      a.count >= b.count && (a.count == b.count ==> OrdinalLe(a.tag, b.tag))
  {
    var ranked := RankedTags(used);
    var r := TopTagsOf(used, topTags);
    TagRankIsTotalPreorder();
    SortBySorted(GroupBy(used, Fold), TagRank);
    assert SortedBy(ranked, TagRank);
    forall i, j | 0 <= i < j < |r|
      ensures r[i].count >= r[j].count && (r[i].count == r[j].count ==> OrdinalLe(r[i].tag, r[j].tag))
    {
      assert TagRank(ranked[i], ranked[j]);
    }
  }

  /** A group whose tag is not listed lies beyond the listed prefix. */
  lemma UnlistedGroup(used: seq<string>, topTags: int, k: nat)
    requires k < |RankedTags(used)|
    requires forall i :: 0 <= i < |TopTagsOf(used, topTags)| ==>
      Fold(TopTagsOf(used, topTags)[i].tag) != Fold(RankedTags(used)[k].first)
    ensures |TopTagsOf(used, topTags)| <= k
  {
    var ranked := RankedTags(used);
    var r := TopTagsOf(used, topTags);
    var n := TakeCount(topTags, |ranked|);
    assert r == TagItems(ranked[..n]);
    forall i | 0 <= i < |r| ensures Fold(ranked[i].first) != Fold(ranked[k].first) {
      assert r[i].tag == ranked[i].first;
    }
  }

  /** The group of a tag that is not listed ranks after every listed one. */
  lemma UnlistedRank(used: seq<string>, topTags: int, j: nat) returns (k: nat)
    requires j < |used|
    requires forall i :: 0 <= i < |TopTagsOf(used, topTags)| ==> Fold(TopTagsOf(used, topTags)[i].tag) != Fold(used[j])
    ensures k < |RankedTags(used)| && |TopTagsOf(used, topTags)| <= k
    ensures RankedTags(used)[k].count == TagUses(used, used[j])
  {
    var ranked := RankedTags(used);
    RankedCovers(used, Fold, TagRank, j);
    k :| 0 <= k < |ranked| && Fold(ranked[k].first) == Fold(used[j]);
    RankedGroup(used, Fold, TagRank, ranked[k]);
    UnlistedGroup(used, topTags, k);
  }

  /** A tag that is not listed is used no more often than any listed tag, and
      it is left out only when the list is `max(0, topTags)` long. */
  lemma TopTagsAreTop(used: seq<string>, topTags: int, j: nat)
    requires j < |used|
    requires forall i :: 0 <= i < |TopTagsOf(used, topTags)| ==> Fold(TopTagsOf(used, topTags)[i].tag) != Fold(used[j])
    ensures forall i :: 0 <= i < |TopTagsOf(used, topTags)| ==> TagUses(used, used[j]) <= TopTagsOf(used, topTags)[i].count
    ensures |TopTagsOf(used, topTags)| == if topTags < 0 then 0 else topTags
  {
    var r := TopTagsOf(used, topTags);
    var k := UnlistedRank(used, topTags, j);
    TagRankIsTotalPreorder();
    forall i | 0 <= i < |r| ensures TagUses(used, used[j]) <= r[i].count {
      RankedPair(used, Fold, TagRank, i, k);
    }
  }

  // ---------------------------------------------------------------- word counts

  /** `entries.Select(x => new WordCountTrendItem(x.Date.Date, CountWords(x.Content)))`. */
  function WordCountTrends(es: seq<Entry>): (r: seq<WordCountTrendItem>)
    ensures |r| == |es|
    ensures forall i :: 0 <= i < |es| ==> r[i] == WordCountTrendItem(es[i].date, CountWords(Some(es[i].content)))
  {
    seq(|es|, i requires 0 <= i < |es| => WordCountTrendItem(es[i].date, CountWords(Some(es[i].content))))
  }

  function TotalWords(ts: seq<WordCountTrendItem>): nat {
    if ts == [] then 0 else TotalWords(ts[..|ts| - 1]) + ts[|ts| - 1].wordCount
  }

  /** The total is at most `|ts|` times a bound on every count. */
  lemma {:induction false} TotalWordsBound(ts: seq<WordCountTrendItem>, m: nat)
    requires forall i :: 0 <= i < |ts| ==> ts[i].wordCount <= m
    ensures TotalWords(ts) <= |ts| * m
  {
    if ts != [] {
      var p := ts[..|ts| - 1];
      assert forall i :: 0 <= i < |p| ==> p[i] == ts[i];
      TotalWordsBound(p, m);
      assert |ts| * m == |p| * m + m;
    }
  }

  /** `total == 0 ? 0 : wordCountTrends.Average(x => x.WordCount)`, exactly:
      0 for no entries, otherwise the total over the number of entries, which
      lies between 0 and the largest count. */
  function AverageWords(ts: seq<WordCountTrendItem>): (r: real)
    ensures |ts| == 0 ==> r == 0.0
    ensures |ts| > 0 ==> r * (|ts| as real) == TotalWords(ts) as real
    ensures 0.0 <= r
  {
    if |ts| == 0 then 0.0 else (TotalWords(ts) as real) / (|ts| as real)
  }

  /** The average is no larger than a bound on every count. */
  lemma AverageAtMost(ts: seq<WordCountTrendItem>, m: nat)
    requires forall i :: 0 <= i < |ts| ==> ts[i].wordCount <= m
    ensures AverageWords(ts) <= m as real
  {
    if |ts| > 0 {
      TotalWordsBound(ts, m);
      MeanBound(AverageWords(ts), TotalWords(ts), |ts|, m);
    }
  }

  lemma MeanBound(a: real, t: nat, k: nat, m: nat)
    requires k > 0 && a * (k as real) == t as real && t <= k * m
    ensures a <= m as real
  {
    CastMul(k, m);
    ScaleDown(a, k as real, m as real);
  }

  lemma CastMul(a: nat, b: nat)
    ensures (a * b) as real == (a as real) * (b as real)
  {
  }

  lemma ScaleDown(x: real, n: real, y: real)
    requires n > 0.0 && x * n <= n * y
    ensures x <= y
  {
  }

  // ---------------------------------------------------------------- streaks

  /** `CalculateCurrentStreak`: counts back from today, or from yesterday when
      today has no entry, while the day has an entry. */
  method CalculateCurrentStreak(dates: set<int>, today: int) returns (streak: nat)
    ensures streak == CurrentStreakOf(dates, today)
  {
    if |dates| == 0 {
      return 0;
    }
    var anchor: int;
    if today in dates {
      anchor := today;
    } else if today - 1 in dates {
      anchor := today - 1;
    } else {
      return 0;
    }
    streak := 0;
    while anchor - streak in dates
      invariant streak <= RunEndingAt(dates, anchor)
      invariant forall x :: anchor - streak < x <= anchor ==> x in dates
      decreases RunEndingAt(dates, anchor) - streak
    {
      streak := streak + 1;
    }
    RunUnique(dates, anchor, streak);
  }

  /** `CalculateLongestStreak`: walks the days in ascending order, extending
      the current run on each consecutive day and restarting it on a gap. */
  method CalculateLongestStreak(dates: set<int>) returns (best: nat)
    ensures best == LongestStreakOf(dates)
  {
    if |dates| == 0 {
      return 0;
    }
    var ordered := Ascending(dates);
    ghost var runs := RunsAlong(dates, ordered);
    AscendingStart(dates, ordered);
    MaxOfStep(runs, 0);
    best := 1;
    var current := 1;
    for i := 1 to |ordered|
      invariant current == RunEndingAt(dates, ordered[i - 1])
      invariant best == MaxOf(runs[..i])
    {
      AscendingRunStep(dates, ordered, i);
      MaxOfStep(runs, i);
      if ordered[i] == ordered[i - 1] + 1 {
        current := current + 1;
        if current > best {
          best := current;
        }
      } else {
        current := 1;
      }
    }
    WholePrefix(runs);
  }

  // ---------------------------------------------------------------- the whole result

  /** `GetAnalyticsAsync` on a snapshot `table` of the entries; `today` is the
      current day the current streak counts from. */
  function Analytics(start: Moment, end: Moment, table: seq<Entry>, topTags: int, today: int): DashboardAnalyticsResult {
    var range := NormalizeRange(start, end);
    var s, e := range.0, range.1;
    var es := EntriesInRange(table, s, e);
    var dates := DatesOf(es);
    var trends := WordCountTrends(es);
    DashboardAnalyticsResult(
      s, e,
      BuildMoodDistribution(es),
      MostFrequentMood(es),
      CurrentStreakOf(dates, today),
      LongestStreakOf(dates),
      MissedDays(s, e, dates),
      TopTags(es, topTags),
      BuildCategoryBreakdown(es),
      trends,
      AverageWords(trends))
  }

  /** The analytics computation, with the two streak loops. */
  method GetAnalytics(start: Moment, end: Moment, table: seq<Entry>, topTags: int, today: int)
    returns (r: DashboardAnalyticsResult)
    ensures r == Analytics(start, end, table, topTags, today)
  {
    var s, e := NormalizeDate(start), NormalizeDate(end);
    if e < s {
      s, e := e, s;
    }
    var es := EntriesInRange(table, s, e);
    var dates := DatesOf(es);
    var currentStreak := CalculateCurrentStreak(dates, today);
    var longestStreak := CalculateLongestStreak(dates);
    var trends := WordCountTrends(es);
    r := DashboardAnalyticsResult(
      s, e,
      BuildMoodDistribution(es),
      MostFrequentMood(es),
      currentStreak,
      longestStreak,
      MissedDays(s, e, dates),
      TopTags(es, topTags),
      BuildCategoryBreakdown(es),
      trends,
      AverageWords(trends));
  }

  /** Swapping the two ends of the range changes nothing. */
  lemma AnalyticsSymmetric(a: Moment, b: Moment, table: seq<Entry>, topTags: int, today: int)
    ensures Analytics(a, b, table, topTags, today) == Analytics(b, a, table, topTags, today)
  {
    NormalizeRangeSymmetric(a, b);
  }

  /** The range runs from the earlier day to the later. */
  lemma AnalyticsRange(start: Moment, end: Moment, table: seq<Entry>, topTags: int, today: int)
    ensures var r := Analytics(start, end, table, topTags, today);
      r.start <= r.end && {r.start, r.end} == {start.day, end.day}
  {
  }

  /** One trend item per entry of the table in the range, in date order. */
  lemma AnalyticsTrends(start: Moment, end: Moment, table: seq<Entry>, topTags: int, today: int)
    ensures var r := Analytics(start, end, table, topTags, today);
      |r.wordCountTrends| == |EntriesInRange(table, r.start, r.end)|
    ensures var r := Analytics(start, end, table, topTags, today);
      forall i, j :: 0 <= i < j < |r.wordCountTrends| ==> r.wordCountTrends[i].date <= r.wordCountTrends[j].date
  {
    var range := NormalizeRange(start, end);
    var es := EntriesInRange(table, range.0, range.1);
    var trends := WordCountTrends(es);
    EntriesInRangeFacts(table, range.0, range.1);
    forall i, j | 0 <= i < j < |trends| ensures trends[i].date <= trends[j].date {
      assert ByDate(es[i], es[j]);
    }
  }

  /** An entry is in the range exactly when the table has it and it is dated
      in the range. */
  lemma EntriesInRangeMembers(table: seq<Entry>, s: int, e: int)
    ensures forall x :: x in EntriesInRange(table, s, e) <==> x in table && s <= x.date <= e
  {
    EntriesInRangeFacts(table, s, e);
  }

  /** A day has an in-range entry exactly when it lies in the range and the
      table has an entry on it. */
  lemma DatesInRangeMembers(table: seq<Entry>, s: int, e: int)
    ensures forall d :: d in DatesOf(EntriesInRange(table, s, e)) <==> s <= d <= e && exists x :: x in table && x.date == d
  {
    forall d ensures d in DatesOf(EntriesInRange(table, s, e)) <==> s <= d <= e && exists x :: x in table && x.date == d {
      DateInRange(table, s, e, d);
    }
  }

  lemma DateInRange(table: seq<Entry>, s: int, e: int, d: int)
    ensures d in DatesOf(EntriesInRange(table, s, e)) <==> s <= d <= e && exists x :: x in table && x.date == d
  {
    var es := EntriesInRange(table, s, e);
    EntriesInRangeMembers(table, s, e);
    if d in DatesOf(es) {
      var k :| 0 <= k < |es| && es[k].date == d;
      assert es[k] in es;
    }
    if s <= d <= e && exists x :: x in table && x.date == d {
      var x :| x in table && x.date == d;
      assert x in es;
      var k :| 0 <= k < |es| && es[k] == x;
    }
  }

  /** The days of the entries in the range lie in the range. */
  lemma DatesInRange(table: seq<Entry>, s: int, e: int)
    ensures DaysBetween(DatesOf(EntriesInRange(table, s, e)), s, e) == DatesOf(EntriesInRange(table, s, e))
    ensures forall d :: d in DatesOf(EntriesInRange(table, s, e)) <==> s <= d <= e && exists x :: x in table && x.date == d
  {
    DatesInRangeMembers(table, s, e);
  }

  /** The missed days are the days of the range on which the table has no
      entry, in ascending order; with the days that have an entry they fill
      the range. */
  lemma AnalyticsMissedDays(start: Moment, end: Moment, table: seq<Entry>, topTags: int, today: int)
    ensures var r := Analytics(start, end, table, topTags, today);
      forall d :: d in r.missedDays <==> r.start <= d <= r.end && forall x :: x in table ==> x.date != d
    ensures StrictlyIncreasing(Analytics(start, end, table, topTags, today).missedDays)
    ensures var r := Analytics(start, end, table, topTags, today);
      |r.missedDays| + |DatesOf(EntriesInRange(table, r.start, r.end))| == r.end - r.start + 1
  {
    var range := NormalizeRange(start, end);
    var s, e := range.0, range.1;
    var r := Analytics(start, end, table, topTags, today);
    assert r.start == s && r.end == e && r.missedDays == MissedDays(s, e, DatesOf(EntriesInRange(table, s, e)));
    MissedDaysOfTable(table, s, e);
  }

  /** The missed days of a range are its days on which the table has no
      entry; with the days that have one they fill the range. */
  lemma MissedDaysOfTable(table: seq<Entry>, s: int, e: int)
    requires s <= e
    ensures forall d :: d in MissedDays(s, e, DatesOf(EntriesInRange(table, s, e))) <==>
      s <= d <= e && forall x :: x in table ==> x.date != d
    ensures |MissedDays(s, e, DatesOf(EntriesInRange(table, s, e)))| + |DatesOf(EntriesInRange(table, s, e))| == e - s + 1
  {
    var dates := DatesOf(EntriesInRange(table, s, e));
    DatesInRange(table, s, e);
    MissedDaysComplete(s, e, dates);
  }

  /** The current streak never exceeds the longest, and both are 0 when the
      range has no entry. */
  lemma AnalyticsStreakFacts(start: Moment, end: Moment, table: seq<Entry>, topTags: int, today: int)
    ensures var r := Analytics(start, end, table, topTags, today);
      r.currentStreak <= r.longestStreak
    ensures var r := Analytics(start, end, table, topTags, today);
      r.longestStreak == 0 <==> EntriesInRange(table, r.start, r.end) == []
  {
    var range := NormalizeRange(start, end);
    var es := EntriesInRange(table, range.0, range.1);
    var dates := DatesOf(es);
    CurrentAtMostLongest(dates, today);
    LongestStreakFacts(dates);
    if es != [] {
      assert es[0].date in dates;
    }
  }
}
