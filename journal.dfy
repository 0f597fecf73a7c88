/** The journal entry store: one entry per day, created, updated, replaced
    and deleted in place; the normalisation of moods and tags on save; the
    multi-filter search; and the store's own current-streak rule. */
module Journal {
  import opened Wrappers
  import opened Strings
  import opened Collections
  import opened Days
  import opened Models
  import opened Dashboard

  /** The exceptions the store raises: `InvalidOperationException` for a
      second entry on a day, `KeyNotFoundException` for an unknown id, and
      the wrapped storage failure (a primary-key clash on insert). */
  datatype JournalError = DuplicateDate(date: int) | EntryNotFound(id: Guid) | StorageFailure

  /** The fields a caller supplies when creating or updating an entry; `None`
      is a null argument. */
  datatype EntryInput = EntryInput(
    title: Option<string>,
    content: Option<string>,
    isMarkdown: bool,
    primaryMood: Mood,
    secondaryMoods: Option<seq<Mood>>,
    category: Option<Category>,
    tags: Option<seq<string>>)

  // ---------------------------------------------------------------- normalisation on save

  /** `(secondaryMoods ?? []).Distinct().Take(2)`: no mood for a null list,
      otherwise at most two moods, no mood twice, in the order they were first
      given. */
  function NormalizeMoods(ms: Option<seq<Mood>>): (r: seq<Mood>)
    ensures ms.None? ==> r == []
    ensures |r| <= 2 && DistinctKeys(r, MoodKey) && FirstSeenOrder(ms.GetOr([]), MoodKey, r)
  {
    var d := DistinctBy(ms.GetOr([]), MoodKey);
    DistinctByFacts(ms.GetOr([]), MoodKey);
    assert GroupBy([], MoodKey) == [];
    if |d| <= 2 then d else d[..2]
  }

  /** Each stored mood was given, and a given mood is dropped only when two
      are kept. */
  lemma NormalizeMoodsMembers(ms: seq<Mood>)
    ensures var r := NormalizeMoods(Some(ms));
      forall i :: 0 <= i < |r| ==> r[i] in ms
    ensures var r := NormalizeMoods(Some(ms));
      |r| < 2 ==> forall m :: m in ms ==> m in r
  {
    var r := NormalizeMoods(Some(ms));
    forall i | 0 <= i < |r| ensures r[i] in ms {
      KeptMoodGiven(ms, i);
    }
    if |r| < 2 {
      forall m | m in ms ensures m in r {
        var j :| 0 <= j < |ms| && ms[j] == m;
        GivenMoodKept(ms, j);
      }
    }
  }

  lemma KeptMoodGiven(ms: seq<Mood>, i: nat)
    requires i < |NormalizeMoods(Some(ms))|
    ensures NormalizeMoods(Some(ms))[i] in ms
  {
    var d := DistinctBy(ms, MoodKey);
    var r := NormalizeMoods(Some(ms));
    assert r == if |d| <= 2 then d else d[..2];
    DistinctByFacts(ms, MoodKey);
    assert r[i] == d[i];
    assert ms[FirstIndex(ms, MoodKey, MoodKey(d[i]))] == d[i];
  }

  lemma GivenMoodKept(ms: seq<Mood>, j: nat)
    requires j < |ms| && |NormalizeMoods(Some(ms))| < 2
    ensures ms[j] in NormalizeMoods(Some(ms))
  {
    var d := DistinctBy(ms, MoodKey);
    var r := NormalizeMoods(Some(ms));
    DistinctByFacts(ms, MoodKey);
    assert r == d;
    assert HasKey(d, MoodKey, MoodKey(ms[j]));
    var i :| 0 <= i < |d| && MoodKey(d[i]) == MoodKey(ms[j]);
    assert d[i] == ms[j];
  }

  /** A given mood that is not stored first occurs after both stored moods:
      the two kept are the first two distinct moods given. */
  lemma NormalizeMoodsFirstTwo(ms: seq<Mood>)
    ensures var r := NormalizeMoods(Some(ms));
      forall j :: 0 <= j < |ms| && ms[j] !in r ==> |r| == 2 && FirstIndex(ms, MoodKey, MoodKey(r[1])) < j
  {
    var r := NormalizeMoods(Some(ms));
    forall j | 0 <= j < |ms| && ms[j] !in r ensures |r| == 2 && FirstIndex(ms, MoodKey, MoodKey(r[1])) < j {
      DroppedMood(ms, j);
    }
  }

  lemma DroppedMood(ms: seq<Mood>, j: nat)
    requires j < |ms| && ms[j] !in NormalizeMoods(Some(ms))
    ensures |NormalizeMoods(Some(ms))| == 2
    ensures FirstIndex(ms, MoodKey, MoodKey(NormalizeMoods(Some(ms))[1])) < j
  {
    var d := DistinctBy(ms, MoodKey);
    var r := NormalizeMoods(Some(ms));
    assert r == if |d| <= 2 then d else d[..2];
    DistinctByFacts(ms, MoodKey);
    assert HasKey(d, MoodKey, MoodKey(ms[j]));
    var i :| 0 <= i < |d| && MoodKey(d[i]) == MoodKey(ms[j]);
    assert d[i] == ms[j];
    assert 2 <= i;
    assert r[1] == d[1];
    assert FirstIndex(ms, MoodKey, MoodKey(d[1])) < FirstIndex(ms, MoodKey, MoodKey(d[i]));
  }

  /** `(tags ?? []).Where(not blank).Select(Trim).Distinct(OrdinalIgnoreCase)`:
      no tag for a null list, otherwise no two tags equal ignoring case, each
      spelled as its first use, in the order of first use. */
  function NormalizeTags(ts: Option<seq<string>>): (r: seq<string>)
    ensures ts.None? ==> r == []
    ensures DistinctKeys(r, Fold)
    ensures FirstOccurrences(CleanTags(ts.GetOr([])), Fold, r)
    ensures FirstSeenOrder(CleanTags(ts.GetOr([])), Fold, r)
  {
    DistinctByFacts(CleanTags(ts.GetOr([])), Fold);
    assert CleanTags([]) == [];
    assert GroupBy([], Fold) == [];
    DistinctBy(CleanTags(ts.GetOr([])), Fold)
  }

  /** Every stored tag is a given tag, trimmed and not empty. */
  lemma NormalizeTagsTrimmed(ts: seq<string>)
    ensures var r := NormalizeTags(Some(ts));
      forall i :: 0 <= i < |r| ==> r[i] != [] && exists j :: 0 <= j < |ts| && r[i] == Trim(ts[j])
  {
    var c := CleanTags(ts);
    var r := NormalizeTags(Some(ts));
    forall i | 0 <= i < |r| ensures r[i] != [] && exists j :: 0 <= j < |ts| && r[i] == Trim(ts[j]) {
      var k := FirstIndex(c, Fold, Fold(r[i]));
      assert c[k] == r[i];
    }
  }

  /** Every given tag that is not blank is stored, ignoring case. */
  lemma NormalizeTagsComplete(ts: seq<string>)
    ensures var r := NormalizeTags(Some(ts));
      forall j :: 0 <= j < |ts| && !IsBlank(ts[j]) ==> HasKey(r, Fold, Fold(Trim(ts[j])))
  {
    var c := CleanTags(ts);
    var r := NormalizeTags(Some(ts));
    CleanTagsComplete(ts);
    DistinctByFacts(c, Fold);
    forall j | 0 <= j < |ts| && !IsBlank(ts[j]) ensures HasKey(r, Fold, Fold(Trim(ts[j]))) {
      assert Trim(ts[j]) in c;
      var k :| 0 <= k < |c| && c[k] == Trim(ts[j]);
      assert HasKey(r, Fold, Fold(c[k]));
    }
  }

  /** The entry `CreateEntryAsync` builds. */
  function NewEntry(id: Guid, day: int, input: EntryInput, now: Moment): Entry {
    Entry(id, day, input.title.GetOr(""), input.content.GetOr(""), input.isMarkdown, input.primaryMood,
          NormalizeMoods(input.secondaryMoods), input.category, NormalizeTags(input.tags), now, now)
  }

  /** `e` carries the fields of `input`, normalised, as last saved at `now`. */
  predicate Carries(e: Entry, input: EntryInput, now: Moment) {
    && e.title == input.title.GetOr("")
    && e.content == input.content.GetOr("")
    && e.isMarkdown == input.isMarkdown
    && e.primaryMood == input.primaryMood
    && e.secondaryMoods == NormalizeMoods(input.secondaryMoods)
    && e.category == input.category
    && e.tags == NormalizeTags(input.tags)
    && e.updatedAt == now
  }

  /** The entry `UpdateEntryAsync` saves: the fields of `input` on `e`. */
  function Revised(e: Entry, input: EntryInput, now: Moment): (r: Entry)
    ensures r.id == e.id && r.date == e.date && r.createdAt == e.createdAt
    ensures Carries(r, input, now)
  {
    e.(title := input.title.GetOr(""), content := input.content.GetOr(""), isMarkdown := input.isMarkdown,
       primaryMood := input.primaryMood, secondaryMoods := NormalizeMoods(input.secondaryMoods),
       category := input.category, tags := NormalizeTags(input.tags), updatedAt := now)
  }

  // ---------------------------------------------------------------- search

  /** The search query, when one is given and it is not blank, trimmed. */
  function Needle(query: Option<string>): Option<string> {
    if query.None? || IsBlank(query.value) then None else Some(Trim(query.value))
  }

  predicate HasNeedle(e: Entry, needle: string) {
    ContainsIgnoreCase(e.title, needle) || ContainsIgnoreCase(e.content, needle)
  }

  /** `(moods ?? []).Distinct().ToHashSet()`. */
  function MoodSet(moods: Option<seq<Mood>>): set<Mood> {
    set m | m in moods.GetOr([])
  }

  predicate HasMood(e: Entry, ms: set<Mood>) {
    e.primaryMood in ms || exists m :: m in e.secondaryMoods && m in ms
  }

  /** The tag filter's set: the given tags, not blank, trimmed. */
  function TagSet(tags: Option<seq<string>>): seq<string> {
    CleanTags(tags.GetOr([]))
  }

  /** Some tag of `e` is in `ts`, ignoring case. */
  predicate HasTag(e: Entry, ts: seq<string>) {
    exists t, u :: t in e.tags && u in ts && EqualsIgnoreCase(t, u)
  }

  /** What a search result must satisfy: each supplied filter. */
  predicate Matches(e: Entry, query: Option<string>, start: Option<Moment>, end: Option<Moment>,
                    moods: Option<seq<Mood>>, tags: Option<seq<string>>)
  {
    && (Needle(query).Some? ==> HasNeedle(e, Needle(query).value))
    && (start.Some? ==> e.date >= NormalizeDate(start.value))
    && (end.Some? ==> e.date <= NormalizeDate(end.value))
    && (MoodSet(moods) != {} ==> HasMood(e, MoodSet(moods)))
    && (|TagSet(tags)| > 0 ==> HasTag(e, TagSet(tags)))
  }

  predicate ByDateDescending(a: Entry, b: Entry) {
    a.date >= b.date
  }

  lemma ByDateDescendingIsTotalPreorder()
    ensures IsTotalPreorder(ByDateDescending)
  {
  }

  /** The query filter, applied only when the query is not blank. */
  function WhereQuery(es: seq<Entry>, query: Option<string>): (r: seq<Entry>)
    ensures forall x :: x in r <==> x in es && (Needle(query).Some? ==> HasNeedle(x, Needle(query).value))
    ensures forall x :: multiset(r)[x] ==
              if Needle(query).Some? ==> HasNeedle(x, Needle(query).value) then multiset(es)[x] else 0
  {
    var needle := Needle(query);
    if needle.None? then es
    else
      FilterElements(es, (x: Entry) => HasNeedle(x, needle.value));
      Filter(es, (x: Entry) => HasNeedle(x, needle.value))
  }

  /** The start-date filter, applied only when a start is given. */
  function WhereFrom(es: seq<Entry>, start: Option<Moment>): (r: seq<Entry>)
    ensures forall x :: x in r <==> x in es && (start.Some? ==> x.date >= NormalizeDate(start.value))
    ensures forall x :: multiset(r)[x] ==
              if start.Some? ==> x.date >= NormalizeDate(start.value) then multiset(es)[x] else 0
  {
    if start.None? then es
    else
      var s := NormalizeDate(start.value);
      FilterElements(es, (x: Entry) => x.date >= s);
      Filter(es, (x: Entry) => x.date >= s)
  }

  /** The end-date filter, applied only when an end is given. */
  function WhereTo(es: seq<Entry>, end: Option<Moment>): (r: seq<Entry>)
    ensures forall x :: x in r <==> x in es && (end.Some? ==> x.date <= NormalizeDate(end.value))
    ensures forall x :: multiset(r)[x] ==
              if end.Some? ==> x.date <= NormalizeDate(end.value) then multiset(es)[x] else 0
  {
    if end.None? then es
    else
      var e := NormalizeDate(end.value);
      FilterElements(es, (x: Entry) => x.date <= e);
      Filter(es, (x: Entry) => x.date <= e)
  }

  /** The mood filter, applied only when some mood is given. */
  function WhereMoods(es: seq<Entry>, moods: Option<seq<Mood>>): (r: seq<Entry>)
    ensures forall x :: x in r <==> x in es && (MoodSet(moods) != {} ==> HasMood(x, MoodSet(moods)))
    ensures forall x :: multiset(r)[x] ==
              if MoodSet(moods) != {} ==> HasMood(x, MoodSet(moods)) then multiset(es)[x] else 0
  {
    var ms := MoodSet(moods);
    if ms == {} then es
    else
      FilterElements(es, (x: Entry) => HasMood(x, ms));
      Filter(es, (x: Entry) => HasMood(x, ms))
  }

  /** The tag filter, applied only when some tag is not blank. */
  function WhereTags(es: seq<Entry>, tags: Option<seq<string>>): (r: seq<Entry>)
    ensures forall x :: x in r <==> x in es && (|TagSet(tags)| > 0 ==> HasTag(x, TagSet(tags)))
    ensures forall x :: multiset(r)[x] ==
              if |TagSet(tags)| > 0 ==> HasTag(x, TagSet(tags)) then multiset(es)[x] else 0
  {
    var ts := TagSet(tags);
    if |ts| == 0 then es
    else
      FilterElements(es, (x: Entry) => HasTag(x, ts));
      Filter(es, (x: Entry) => HasTag(x, ts))
  }

  /** `SearchAsync` on a snapshot `table` of the store: every result is an
      entry of the table that satisfies every supplied filter, every such
      entry is a result as often as the table holds it, and the results are
      ordered by date, latest first. */
  function Search(table: seq<Entry>, query: Option<string>, start: Option<Moment>, end: Option<Moment>,
                  moods: Option<seq<Mood>>, tags: Option<seq<string>>): (r: seq<Entry>)
    ensures forall x :: x in r <==> x in table && Matches(x, query, start, end, moods, tags)
    ensures forall x :: multiset(r)[x] ==
              if Matches(x, query, start, end, moods, tags) then multiset(table)[x] else 0
    ensures SortedBy(r, ByDateDescending)
  {
    var q := WhereTags(WhereMoods(WhereTo(WhereFrom(WhereQuery(table, query), start), end), moods), tags);
    SortByElements(q, ByDateDescending);
    ByDateDescendingIsTotalPreorder();
    SortBySorted(q, ByDateDescending);
    SortBy(q, ByDateDescending)
  }

  // ---------------------------------------------------------------- the store's current streak

  /** `GetCurrentStreakAsync`: the run ending today when the latest day with
      an entry is today, the run ending yesterday when the latest day is
      yesterday, and 0 otherwise. */
  function LatestAnchoredStreak(S: set<int>, today: int): nat {
    if S == {} then 0
    else if Max(S) == today then RunEndingAt(S, today)
    else if Max(S) == today - 1 then RunEndingAt(S, today - 1)
    else 0
  }

  /** The streak is 0 exactly when there is no entry or the latest day is
      neither today nor yesterday; with no entry after today it is the
      dashboard's current streak. */
  lemma LatestAnchoredStreakFacts(S: set<int>, today: int)
    ensures LatestAnchoredStreak(S, today) == 0 <==> S == {} || (Max(S) != today && Max(S) != today - 1)
    ensures (forall d :: d in S ==> d <= today) ==> LatestAnchoredStreak(S, today) == CurrentStreakOf(S, today)
  {
    if S != {} {
      var m := Max(S);
      if m == today || m == today - 1 {
        RunStep(S, m);
      }
      if forall d :: d in S ==> d <= today {
        if m != today && m != today - 1 {
          assert m < today - 1;
          assert today !in S && today - 1 !in S;
        }
      }
    }
  }

  /** An entry dated tomorrow hides today's: the store reports no streak
      where the dashboard reports one day. */
  lemma FutureEntryHidesToday(today: int)
    ensures LatestAnchoredStreak({today, today + 1}, today) == 0
    ensures CurrentStreakOf({today, today + 1}, today) == 1
  {
    var S := {today, today + 1};
    assert Max(S) == today + 1 by {
      assert today + 1 in S;
    }
    RunStep(S, today);
    assert RunEndingAt(S, today - 1) == 0;
  }

  // ---------------------------------------------------------------- the store

  /** The entries table. The unique index on the date and the primary key on
      the id are the invariant `Valid`. */
  class JournalStore {
    var entries: seq<Entry>

    ghost predicate Valid()
      reads this
    {
      DistinctKeys(entries, EntryDate) && DistinctKeys(entries, EntryId)
    }

    constructor()
      ensures entries == [] && Valid()
    {
      entries := [];
    }

    /** `GetEntryByDateAsync`. */
    function GetEntryByDate(date: Moment): (r: Option<Entry>)
      reads this
      ensures r.None? <==> forall i :: 0 <= i < |entries| ==> entries[i].date != NormalizeDate(date)
      ensures r.Some? ==> r.value in entries && r.value.date == NormalizeDate(date)
    {
      var k := FirstIndex(entries, EntryDate, NormalizeDate(date));
      if k < |entries| then Some(entries[k]) else None
    }

    /** `GetEntryByIdAsync`. */
    function GetEntryById(id: Guid): (r: Option<Entry>)
      reads this
      ensures r.None? <==> forall i :: 0 <= i < |entries| ==> entries[i].id != id
      ensures r.Some? ==> r.value in entries && r.value.id == id
    {
      var k := FirstIndex(entries, EntryId, id);
      if k < |entries| then Some(entries[k]) else None
    }

    /** `CreateEntryAsync` with the clock reading `now` and the fresh id `newId`. */
    method CreateEntry(date: Moment, input: EntryInput, now: Moment, newId: Guid)
      returns (r: Result<Entry, JournalError>)
      requires Valid()
      modifies this
      ensures Valid()
      ensures old(GetEntryByDate(date)).Some? ==>
        r == Failure(DuplicateDate(NormalizeDate(date))) && entries == old(entries)
      ensures old(GetEntryByDate(date)).None? && old(GetEntryById(newId)).Some? ==>
        r == Failure(StorageFailure) && entries == old(entries)
      ensures old(GetEntryByDate(date)).None? && old(GetEntryById(newId)).None? ==>
        r == Success(NewEntry(newId, NormalizeDate(date), input, now)) && entries == old(entries) + [r.value]
    {
      var d := NormalizeDate(date);
      var existing := GetEntryByDate(date);
      if existing.Some? {
        return Failure(DuplicateDate(d));
      }
      var entry := NewEntry(newId, d, input, now);
      if GetEntryById(newId).Some? {
        return Failure(StorageFailure);
      }
      AppendKeysDistinct(entries, entry, EntryDate);
      AppendKeysDistinct(entries, entry, EntryId);
      entries := entries + [entry];
      r := Success(entry);
    }

    /** `UpdateEntryAsync` with the clock reading `now`. */
    method UpdateEntry(id: Guid, input: EntryInput, now: Moment) returns (r: Result<Entry, JournalError>)
      requires Valid()
      modifies this
      ensures Valid()
      ensures old(GetEntryById(id)).None? ==> r == Failure(EntryNotFound(id)) && entries == old(entries)
      ensures old(GetEntryById(id)).Some? ==>
        var k := FirstIndex(old(entries), EntryId, id);
        k < |old(entries)| && r == Success(Revised(old(entries)[k], input, now)) && entries == old(entries)[k := r.value]
    {
      var existing := GetEntryById(id);
      if existing.None? {
        return Failure(EntryNotFound(id));
      }
      var k := FirstIndex(entries, EntryId, id);
      var updated := Revised(entries[k], input, now);
      ReplaceKeysDistinct(entries, k, updated, EntryDate);
      ReplaceKeysDistinct(entries, k, updated, EntryId);
      entries := entries[k := updated];
      r := Success(updated);
    }

    /** `CreateOrUpdateEntryAsync`: updates the entry of the day when there is
        one and creates it otherwise. Any failure is reported as a storage
        failure, the wrapping the source applies. */
    method CreateOrUpdateEntry(date: Moment, input: EntryInput, now: Moment, newId: Guid)
      returns (r: Result<Entry, JournalError>)
      requires Valid()
      modifies this
      ensures Valid()
      ensures r.Success? ==>
        && r.value.date == NormalizeDate(date) && Carries(r.value, input, now)
        && GetEntryByDate(date) == Some(r.value) && CountKey(entries, EntryDate, NormalizeDate(date)) == 1
      ensures old(GetEntryByDate(date)).Some? ==>
        r.Success? && r.value.id == old(GetEntryByDate(date)).value.id && |entries| == |old(entries)|
      ensures old(GetEntryByDate(date)).None? ==>
        (r.Success? <==> old(GetEntryById(newId)).None?) && (r.Success? ==> r.value.id == newId)
      ensures old(GetEntryByDate(date)).Some? ==>
        var k := FirstIndex(old(entries), EntryDate, NormalizeDate(date));
        k < |old(entries)| && r == Success(Revised(old(entries)[k], input, now)) && entries == old(entries)[k := r.value]
      ensures old(GetEntryByDate(date)).None? && r.Success? ==>
        r.value == NewEntry(newId, NormalizeDate(date), input, now) && entries == old(entries) + [r.value]
      ensures r.Failure? ==> r.error == StorageFailure && entries == old(entries)
    {
      var d := NormalizeDate(date);
      var existing := GetEntryByDate(date);
      ghost var before := entries;
      if existing.None? {
        r := CreateEntry(date, input, now, newId);
        if r.Failure? {
          r := Failure(StorageFailure);
          return;
        }
        assert entries == before + [r.value];
        assert entries[|entries| - 1] == r.value;
      } else {
        var k := FirstIndex(entries, EntryDate, d);
        assert FirstIndex(entries, EntryId, existing.value.id) == k by {
          FirstIndexUnique(entries, EntryId, existing.value.id, k);
        }
        r := UpdateEntry(existing.value.id, input, now);
        assert entries == before[k := r.value];
        assert entries[k] == r.value;
      }
      DistinctKeysCount(entries, EntryDate, d);
      StoredDayFound(d, r.value);
    }

    /** In a valid store, the entry of a day is the one the lookup finds. */
    lemma StoredDayFound(d: int, e: Entry)
      requires Valid() && e in entries && e.date == d
      ensures GetEntryByDate(Moment(d, 0)) == Some(e)
      ensures CountKey(entries, EntryDate, d) > 0
    {
      var j :| 0 <= j < |entries| && entries[j] == e;
      FirstIndexUnique(entries, EntryDate, d, j);
    }

    /** `DeleteEntryAsync`: removes the entry of the day, if any. */
    method DeleteEntry(date: Moment) returns (deleted: bool)
      requires Valid()
      modifies this
      ensures Valid()
      ensures deleted <==> old(GetEntryByDate(date)).Some?
      ensures !deleted ==> entries == old(entries)
      ensures deleted ==>
        var k := FirstIndex(old(entries), EntryDate, NormalizeDate(date));
        k < |old(entries)| && entries == RemoveAt(old(entries), k)
      ensures GetEntryByDate(date).None?
    {
      var existing := GetEntryByDate(date);
      if existing.None? {
        return false;
      }
      var k := FirstIndex(entries, EntryDate, NormalizeDate(date));
      RemoveKeysDistinct(entries, k, EntryDate);
      RemoveKeysDistinct(entries, k, EntryId);
      entries := RemoveAt(entries, k);
      deleted := true;
    }

    /** `DeleteEntryByIdAsync`: removes the entry with the id, if any. */
    method DeleteEntryById(id: Guid) returns (deleted: bool)
      requires Valid()
      modifies this
      ensures Valid()
      ensures deleted <==> old(GetEntryById(id)).Some?
      ensures !deleted ==> entries == old(entries)
      ensures deleted ==>
        var k := FirstIndex(old(entries), EntryId, id);
        k < |old(entries)| && entries == RemoveAt(old(entries), k)
      ensures GetEntryById(id).None?
    {
      var existing := GetEntryById(id);
      if existing.None? {
        return false;
      }
      var k := FirstIndex(entries, EntryId, id);
      RemoveKeysDistinct(entries, k, EntryDate);
      RemoveKeysDistinct(entries, k, EntryId);
      entries := RemoveAt(entries, k);
      deleted := true;
    }

    /** `SearchAsync` over the stored entries: exactly the stored entries that
        satisfy every supplied filter, latest first. */
    function SearchEntries(query: Option<string>, start: Option<Moment>, end: Option<Moment>,
                           moods: Option<seq<Mood>>, tags: Option<seq<string>>): (r: seq<Entry>)
      reads this
      ensures forall x :: x in r <==> x in entries && Matches(x, query, start, end, moods, tags)
      ensures forall x :: multiset(r)[x] ==
                if Matches(x, query, start, end, moods, tags) then multiset(entries)[x] else 0
      ensures SortedBy(r, ByDateDescending)
    {
      Search(entries, query, start, end, moods, tags)
    }

    /** `GetCurrentStreakAsync` with `today` the current day: anchors on the
        latest day with an entry and counts back while the day has one. */
    method GetCurrentStreak(today: int) returns (streak: nat)
      ensures streak == LatestAnchoredStreak(DatesOf(entries), today)
    {
      if |entries| == 0 {
        return 0;
      }
      var S := DatesOf(entries);
      assert entries[0].date in S;
      var dates := Descending(S);
      var anchor: int;
      if dates[0] == today {
        anchor := today;
      } else if dates[0] == today - 1 {
        anchor := today - 1;
      } else {
        return 0;
      }
      streak := 0;
      while anchor - streak in dates
        invariant streak <= RunEndingAt(S, anchor)
        invariant forall x :: anchor - streak < x <= anchor ==> x in S
        decreases RunEndingAt(S, anchor) - streak
      {
        streak := streak + 1;
      }
      RunUnique(S, anchor, streak);
    }
  }
}
