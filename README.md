# DailyJournal core in Dafny

This project models the core of DailyJournal, a desktop journaling app. The app keeps one
entry per day. Each entry has a title, content, a primary mood, up to two secondary moods,
an optional mood category and tags. The app computes dashboard analytics over a date range,
locks the journal with a four-digit PIN, and stores a light, dark or system theme preference.

The modules follow the services of the app:

- `Models`: the categories, the fifteen moods, the entry record, and `Moment`. A `Moment`
  is a point in time written as a day number plus a time of day. `NormalizeDate`, the model
  of `date.Date`, is the projection onto the day; it is a definition, not a proved property.
- `Journal`: the entries table as the class `JournalStore`. It covers lookup by date and by
  id, create, update, create-or-update, delete by date and by id, and the store's own current
  streak. It also has the mood and tag normalisation applied on save, and the five-filter search.
  - The invariant `Valid` is the table's unique index on the date and its primary key on the id.
  - Every method keeps `Valid` and states the whole new table.
- `Dashboard`: `GetAnalyticsAsync` as the function `Analytics`, plus the method `GetAnalytics`,
  which runs the two streak loops and is proved equal to `Analytics`. The pieces are:
  - range normalisation;
  - the in-range entries, in date order;
  - the mood distribution and category breakdown, with their percentages;
  - the most frequent secondary mood;
  - the missed days;
  - the current and longest streak, over the dates of the in-range entries;
  - the most used tags;
  - the word counts and their average.
- `Days`: sets of days, the run of consecutive days ending at a day, and the streak
  definitions the loops are proved against.
- `Words`: the word counter. It models the regular expression `\b[\p{L}\p{N}]+\b` as the
  backtracking matcher runs it. Where every letter and number is also a word character, the
  matcher counts exactly the words made only of letters and numbers.
- `Users`: the PIN lock as the class `UserStore`.
- `Theme`: the theme preference as the class `ThemeService`. The class covers the mode
  encoding in the preference store, the mapping to the application's theme and dark-mode
  detection.
- `Strings` and `Collections`: the .NET string and LINQ operations the services use.
  - Strings: `Trim`, `IsNullOrWhiteSpace`, `OrdinalIgnoreCase` comparison and containment.
  - LINQ: `Where`, `GroupBy`, `Distinct`, a stable `OrderBy`, `Count`.

The current time and fresh identifiers become parameters:

- `today` and `now` are parameters wherever the app reads `DateTime.Now`.
- `newId` is a parameter wherever it calls `Guid.NewGuid()`.
- A storage table is a sequence field, or a `table` parameter for the read-only dashboard.

The dashboard and the journal compute the current streak from different anchors:

- The **dashboard** anchors on today when today has an entry, and on yesterday otherwise.
- The **journal store** anchors on the latest day with an entry, but only if that day is
  today or yesterday.
- Over the same set of days, the two agree when no day is after today
  (`Journal.LatestAnchoredStreakFacts`). The dashboard takes the days of the in-range entries,
  the store the days of all its entries.
- An entry dated tomorrow makes the store report no streak
  (`Journal.FutureEntryHidesToday`).

## Model

| member | source | states |
|---|---|---|
| `Strings.Trim` | Data/Services/JournalService.cs:107 | the trimmed string is empty exactly when the input is blank; otherwise it starts and ends with a non-space and is the input with a blank prefix and suffix removed |
| `Strings.TrimIdempotent` | Data/Services/JournalService.cs:107 | trimming twice is trimming once |
| `Strings.OrdinalLeTotal` | Data/Services/DashboardService.cs:85 | any two tags are ordered one way or the other |
| `Strings.OrdinalLeAntisymmetric` | Data/Services/DashboardService.cs:85 | two tags ordered both ways are equal |
| `Strings.OrdinalLeTransitive` | Data/Services/DashboardService.cs:85 | the tag order is transitive |
| `Collections.CountKey` | Data/Services/DashboardService.cs:157 | a count of matching elements never exceeds the length |
| `Collections.Filter` | Data/Services/JournalService.cs:304-342 | `Where` keeps exactly the elements satisfying the predicate, each as often as in the input |
| `Collections.FilterElements` | Data/Services/JournalService.cs:304-342 | an element is kept exactly when it is in the input and satisfies the predicate |
| `Collections.GroupByCovers` | Data/Services/DashboardService.cs:83 | every key of the input has a group |
| `Collections.GroupByCount` | Data/Services/DashboardService.cs:84 | each group's count is the number of elements with its key |
| `Collections.GroupByOrder` | Data/Services/DashboardService.cs:61 | the groups appear in the order their keys first occur |
| `Collections.DistinctByFacts` | Data/Services/JournalService.cs:99-109 | `Distinct` keeps the first element of every key, each key once, in order of first occurrence |
| `Collections.SortBySorted` | Data/Services/DashboardService.cs:43 | `OrderBy` under a total preorder yields a sorted sequence |
| `Collections.SortBy` | Data/Services/DashboardService.cs:43 | `OrderBy` yields a permutation of its input |
| `Collections.SortByElements` | Data/Services/DashboardService.cs:43 | the ordered sequence has the same elements as its input |
| `Collections.SortByStable` | Data/Services/DashboardService.cs:62 | `OrderBy` is stable: the result is sorted, and elements the order ties keep any order the input already had |
| `Collections.RemoveKeysDistinct` | Data/Services/JournalService.cs:257 | deleting a row keeps the keys distinct and leaves no row with the deleted key |
| `Days.RunEndingAt` | Data/Services/DashboardService.cs:241-245 | the run ending at a day covers the consecutive days with an entry back from it, and the day before it has none |
| `Days.RunUnique` | Data/Services/DashboardService.cs:241-245 | a count of consecutive days with an entry, followed by a day without one, is the run |
| `Days.RunStep` | Data/Services/DashboardService.cs:242-244 | a day with an entry extends the run ending the day before by one |
| `Days.Ascending` | Data/Services/DashboardService.cs:266 | the days of a set in strictly increasing order, each once |
| `Days.Descending` | Data/Services/JournalService.cs:368-372 | the days of a set in strictly decreasing order, each once, starting with the latest |
| `Days.AscendingRunStep` | Data/Services/DashboardService.cs:273-283 | along the ordered days the run grows by one after a consecutive day and restarts at one after a gap |
| `Days.CurrentStreakZero` | Data/Services/DashboardService.cs:232-238 | the current streak is 0 exactly when neither today nor yesterday has an entry |
| `Days.CurrentStreakFromToday` | Data/Services/DashboardService.cs:232-245 | with an entry today, the streak counts the consecutive days ending today |
| `Days.CurrentStreakFromYesterday` | Data/Services/DashboardService.cs:232-245 | with none today but one yesterday, the streak counts the consecutive days ending yesterday |
| `Days.LongestStreakFacts` | Data/Services/DashboardService.cs:257-293 | the longest streak is 0 exactly for no dates, lies in 1..number of dates otherwise, bounds every run and is attained by one |
| `Days.LongestStreakBound` | Data/Services/DashboardService.cs:257-293 | any stretch of consecutive days with entries is at most the longest streak |
| `Days.CurrentAtMostLongest` | Data/Services/DashboardService.cs:75-76 | the current streak never exceeds the longest |
| `Days.MissedDays` | Data/Services/DashboardService.cs:69-72 | the missed days lie in the range, have no entry and increase strictly |
| `Days.MissedDaysComplete` | Data/Services/DashboardService.cs:69-72 | every day of the range without an entry is missed, and missed days plus days with entries fill the range |
| `Dashboard.NormalizeRange` | Data/Services/DashboardService.cs:29-36 | the normalised range is ordered and consists of the two given days |
| `Dashboard.NormalizeRangeSymmetric` | Data/Services/DashboardService.cs:33-36 | swapping start and end gives the same range |
| `Dashboard.EntriesBetween` | Data/Services/DashboardService.cs:42 | exactly the entries dated in the range are kept, each as often as in the table |
| `Dashboard.ByDateIsTotalPreorder` | Data/Services/DashboardService.cs:43 | ordering by date is a total preorder |
| `Dashboard.EntriesInRangeFacts` | Data/Services/DashboardService.cs:41-44 | the in-range entries are the table's entries in the range, as a multiset, in ascending date order |
| `Dashboard.Infer` | Data/Services/DashboardService.cs:141-146 | each mood maps to its category: five positive, five neutral, five negative |
| `Dashboard.CategoryCountsSum` | Data/Services/DashboardService.cs:149-157 | the three category counts add up to the number of entries |
| `Dashboard.Percentage` | Data/Services/DashboardService.cs:214-217 | 0 when the total is not positive; otherwise the share in hundredths of a percent, within half a unit, with ties rounded to even |
| `Dashboard.PercentageBounds` | Data/Services/DashboardService.cs:214-217 | a share of a positive total lies between 0 and 100%, and is 100% for the whole and 0 for none |
| `Dashboard.BuildMoodDistribution` | Data/Services/DashboardService.cs:128-167 | three rows in category order, each with its category's count and percentage; the counts add up to the entries; with no entries every row is zero |
| `Dashboard.NonZeroRows` | Data/Services/DashboardService.cs:202 | exactly the rows with a positive count are kept |
| `Dashboard.NonZeroRowsInOrder` | Data/Services/DashboardService.cs:196-202 | the kept rows are in category order |
| `Dashboard.BuildCategoryBreakdown` | Data/Services/DashboardService.cs:170-211 | at most three rows; with no entries three, otherwise at least one, each with a positive count |
| `Dashboard.CategoryBreakdownFacts` | Data/Services/DashboardService.cs:170-211 | with no entries, three zero rows; otherwise one row per category in use, no category twice, with its count and percentage, by count descending and ties in category order |
| `Dashboard.SecondaryMoodsOf` | Data/Services/DashboardService.cs:56-58 | a mood is among the flattened secondary moods exactly when some entry has it as a secondary mood; they are empty exactly when no entry has one |
| `Dashboard.MoreFrequentIsTotalPreorder` | Data/Services/DashboardService.cs:62 | ordering groups by count is a total preorder |
| `Dashboard.RankedMoods` | Data/Services/DashboardService.cs:60-62 | there are mood groups exactly when there are moods |
| `Dashboard.MostFrequentOf` | Data/Services/DashboardService.cs:59-65 | there is no most frequent mood exactly when there are no moods |
| `Dashboard.MostFrequentMood` | Data/Services/DashboardService.cs:56-65 | there is no most frequent mood exactly when no entry has a secondary mood |
| `Dashboard.MostFrequentFacts` | Data/Services/DashboardService.cs:59-65 | the most frequent mood occurs, no mood occurs more often, and among equally frequent moods it is the first seen |
| `Dashboard.TagsOf` | Data/Services/DashboardService.cs:80 | a tag is collected exactly when some entry has it |
| `Dashboard.CleanTags` | Data/Services/DashboardService.cs:81-82 | no more tags are kept than given, and each kept tag is a given tag, trimmed and not empty |
| `Dashboard.CleanTagsComplete` | Data/Services/DashboardService.cs:81-82 | every given tag that is not blank is kept, trimmed |
| `Dashboard.UsedTagsFacts` | Data/Services/DashboardService.cs:79-82 | a used tag is an entry's tag, trimmed and not empty, and every entry tag that is not blank is used |
| `Dashboard.TagRankIsTotalPreorder` | Data/Services/DashboardService.cs:84-85 | count descending, then the tag, is a total preorder |
| `Dashboard.TopTags` | Data/Services/DashboardService.cs:79-88 | at most the limit, none for a non-positive one; each listed tag has a positive count and is an entry's tag, trimmed |
| `Dashboard.TopTagsCounts` | Data/Services/DashboardService.cs:79-88 | each listed tag is a used tag, with its number of uses ignoring case |
| `Dashboard.TopTagsSize` | Data/Services/DashboardService.cs:86 | no tags for a non-positive limit, at most the limit, and fewer only when every tag is listed |
| `Dashboard.TopTagsDistinct` | Data/Services/DashboardService.cs:83 | no two listed tags are equal ignoring case |
| `Dashboard.TopTagsOrdered` | Data/Services/DashboardService.cs:84-85 | listed counts do not increase and equal counts are in tag order |
| `Dashboard.TopTagsAreTop` | Data/Services/DashboardService.cs:79-88 | a tag left off the list is used no more than any listed tag, and the list is then full |
| `Dashboard.AverageWords` | Data/Services/DashboardService.cs:103 | 0 with no entries, otherwise the mean: average times count equals total |
| `Dashboard.AverageAtMost` | Data/Services/DashboardService.cs:103 | the average is at most any bound on every count |
| `Dashboard.CalculateCurrentStreak` | Data/Services/DashboardService.cs:220-254 | the loop returns the current streak anchored on today or yesterday |
| `Dashboard.CalculateLongestStreak` | Data/Services/DashboardService.cs:257-293 | the loop returns the longest run of consecutive days |
| `Dashboard.GetAnalytics` | Data/Services/DashboardService.cs:23-125 | the computed result is the analytics of the range |
| `Dashboard.AnalyticsSymmetric` | Data/Services/DashboardService.cs:29-36 | swapping start and end gives the same analytics |
| `Dashboard.AnalyticsRange` | Data/Services/DashboardService.cs:107-109 | the reported start is at most the end, and they are the two given days |
| `Dashboard.AnalyticsTrends` | Data/Services/DashboardService.cs:98-100 | one trend per in-range entry, in non-decreasing date order |
| `Dashboard.DatesInRange` | Data/Services/DashboardService.cs:68 | the dates with an entry are exactly the table's dates in the range |
| `Dashboard.AnalyticsMissedDays` | Data/Services/DashboardService.cs:67-72 | a day is missed exactly when it lies in the range with no entry; missed days increase strictly and, with the days with entries, fill the range |
| `Dashboard.AnalyticsStreakFacts` | Data/Services/DashboardService.cs:75-76 | the current streak is at most the longest, and the longest is 0 exactly when the range has no entry |
| `Words.BackOff` | Data/Services/DashboardService.cs:306 | the greedy quantifier backs off to the longest length followed by a word boundary |
| `Words.MatchLength` | Data/Services/DashboardService.cs:306 | the match taken at a position is a match, and no longer one starts there |
| `Words.MatchCountIsPlainWords` | Data/Services/DashboardService.cs:306 | where numbers are word characters, the matches are the words made of letters and numbers only |
| `Words.CountWords` | Data/Services/DashboardService.cs:296-313 | no text counts 0; otherwise the number of matches of the word pattern, which where numbers are word characters is the number of words of letters and numbers only |
| `Words.CountWordsExample` | Data/Services/DashboardService.cs:296-313 | "Hello, world! 123" counts three words |
| `Journal.NormalizeMoods` | Data/Services/JournalService.cs:99-102 | a null list stores no moods; at most two are stored, each once, in the order first given |
| `Journal.NormalizeMoodsFirstTwo` | Data/Services/JournalService.cs:99-102 | a given mood is dropped only when two are stored and the second stored one first occurs before it: the first two distinct moods are kept |
| `Journal.NormalizeMoodsMembers` | Data/Services/JournalService.cs:99-102 | every stored mood was given, and fewer than two are stored only when all given moods are |
| `Journal.NormalizeTags` | Data/Services/JournalService.cs:105-109 | a null list stores no tags; stored tags differ ignoring case, each the first cleaned tag of its fold, in the order first seen |
| `Journal.NormalizeTagsTrimmed` | Data/Services/JournalService.cs:105-108 | every stored tag is a given tag, trimmed and not empty |
| `Journal.NormalizeTagsComplete` | Data/Services/JournalService.cs:105-109 | every given tag that is not blank is stored, ignoring case |
| `Journal.Revised` | Data/Services/JournalService.cs:181-188 | an update keeps id, date and creation time and carries the new fields, normalised, with the new update time |
| `Journal.WhereQuery` | Data/Services/JournalService.cs:304-310 | with a non-blank query, exactly the entries whose title or content contains it ignoring case; otherwise all; each kept entry as often as in the input |
| `Journal.WhereFrom` | Data/Services/JournalService.cs:313-317 | with a start, exactly the entries on or after its day; otherwise all; each kept entry as often as in the input |
| `Journal.WhereTo` | Data/Services/JournalService.cs:320-324 | with an end, exactly the entries on or before its day; otherwise all; each kept entry as often as in the input |
| `Journal.WhereMoods` | Data/Services/JournalService.cs:327-331 | with some mood, exactly the entries whose primary or a secondary mood is one; otherwise all; each kept entry as often as in the input |
| `Journal.WhereTags` | Data/Services/JournalService.cs:334-342 | with some non-blank tag, exactly the entries with a tag equal to one ignoring case; otherwise all; each kept entry as often as in the input |
| `Journal.ByDateDescendingIsTotalPreorder` | Data/Services/JournalService.cs:345 | ordering by date descending is a total preorder |
| `Journal.Search` | Data/Services/JournalService.cs:288-352 | a search returns exactly the table's entries that pass every supplied filter, each as often as the table holds it, latest first |
| `Journal.LatestAnchoredStreakFacts` | Data/Services/JournalService.cs:355-394 | the store's streak is 0 exactly with no entries or a latest day before yesterday, and otherwise, over the same set of days, equals the dashboard's when no day is after today |
| `Journal.FutureEntryHidesToday` | Data/Services/JournalService.cs:377-380 | an entry dated tomorrow makes the store's streak 0 where the dashboard's is 1 |
| `Journal.JournalStore.SearchEntries` | Data/Services/JournalService.cs:288-352 | the store's search returns exactly its entries that pass every supplied filter, each as often as stored, latest first |
| `Journal.JournalStore.GetEntryByDate` | Data/Services/JournalService.cs:54-69 | finds an entry of the day exactly when there is one |
| `Journal.JournalStore.GetEntryById` | Data/Services/JournalService.cs:37-51 | finds the entry with the id exactly when there is one |
| `Journal.JournalStore.StoredDayFound` | Data/Models/JournalEntry.cs:48 | in a table with unique dates, the lookup by day finds the one entry of that day |
| `Journal.JournalStore.CreateEntry` | Data/Services/JournalService.cs:72-139 | a taken day fails as a duplicate and a taken id as a storage failure, both without change; otherwise the new entry is appended |
| `Journal.JournalStore.UpdateEntry` | Data/Services/JournalService.cs:142-203 | an unknown id fails without change; otherwise only that entry is replaced by its revision |
| `Journal.JournalStore.CreateOrUpdateEntry` | Data/Services/JournalService.cs:206-246 | afterwards the day has exactly one entry carrying the fields; an existing entry is replaced in place by its revision, keeping its id; otherwise the new entry is appended; failures are storage failures without change |
| `Journal.JournalStore.DeleteEntry` | Data/Services/JournalService.cs:249-266 | true exactly when the day had an entry, which alone is removed; afterwards the day has none |
| `Journal.JournalStore.DeleteEntryById` | Data/Services/JournalService.cs:269-285 | true exactly when the id had an entry, which alone is removed; afterwards the id has none |
| `Journal.JournalStore.GetCurrentStreak` | Data/Services/JournalService.cs:355-394 | the loop returns the streak anchored on the latest day |
| `Users.UserStore.StoredPin` | Data/Services/UserService.cs:38 | the first user's PIN, absent exactly when there is no user |
| `Users.UserStore.ValidatePin` | Data/Services/UserService.cs:86-99 | a PIN validates exactly when it is the stored one, with no range check |
| `Users.UserStore.HasPin` | Data/Services/UserService.cs:33-47 | a PIN is set exactly when some four-digit PIN validates |
| `Users.UserStore.OnePinValidates` | Data/Services/UserService.cs:92 | at most one PIN validates |
| `Users.UserStore.CreatePin` | Data/Services/UserService.cs:50-83 | a PIN outside 1000..9999 is refused without change; otherwise one user holds the PIN, which alone validates |
| `Users.UserStore.ChangePin` | Data/Services/UserService.cs:102-146 | an invalid new PIN is refused first; a missing user or wrong old PIN gives false without change; otherwise the PIN is replaced and alone validates |
| `Theme.ModeOf` | Data/Services/ThemeService.cs:32 | a stored number is a mode exactly when it is 0, 1 or 2, and then encodes it |
| `Theme.ModeRoundTrip` | Core/Services/IThemeService.cs:4-9 | every mode decodes from its own number |
| `Theme.StoredMode` | Data/Services/ThemeService.cs:31-32 | the stored mode when the key holds 0, 1 or 2, else System |
| `Theme.SaveThenLoad` | Data/Services/ThemeService.cs:55-56 | saving a mode and loading the preferences restores it |
| `Theme.MauiTheme` | Data/Services/ThemeService.cs:85-90 | System maps to the platform's choice and Dark alone to dark |
| `Theme.IsDark` | Data/Services/ThemeService.cs:15-20 | Dark is dark, Light is not, and System follows the platform's theme |
| `Theme.ThemeService.IsDarkMode` | Data/Services/ThemeService.cs:15-20 | the service's Dark mode is dark, Light is not, and System is dark exactly when the platform's theme is dark |
| `Theme.DarkAgreesWithApplied` | Data/Services/ThemeService.cs:15-20 | dark mode is on exactly when the applied theme is dark, or is left to a dark platform |
| `Theme.ThemeService.constructor` | Data/Services/ThemeService.cs:12 | the mode starts as System |
| `Theme.ThemeService.ApplyModeToMaui` | Data/Services/ThemeService.cs:74-99 | sets the application's theme from the mode, and does nothing without an application |
| `Theme.ThemeService.Initialize` | Data/Services/ThemeService.cs:26-48 | loads, applies and announces the stored mode; a failed read leaves System without error |
| `Theme.ThemeService.SetMode` | Data/Services/ThemeService.cs:51-71 | sets the mode, then saves, applies and announces it; a failed save is reported with the mode already set |

## Left out

- Storage, asynchrony and logging are left out. The SQLite connection, table creation, `Task`
  plumbing and debug output are not modelled. A table is a sequence; an update of the database
  is an update of that sequence.
- JSON storage: the `SecondaryMoodsJson` and `TagsJson` columns are modelled as the lists they
  encode.
- `ApplicationException` wrapping: failures become `Result`/`Outcome` values. Only the
  failures the code can tell apart are kept:
  - a duplicate date;
  - an unknown id;
  - a storage failure, meaning a primary-key clash on insert;
  - an invalid PIN;
  - a failed preference read or write.
- Exceptions the model cannot raise are left out. `CalculateCurrentStreak`,
  `CalculateLongestStreak` and `CountWords` turn an internal exception into 0; nothing in the
  model can raise one.
- The retry in `CreateOrUpdateEntryAsync` is left out. After a `SQLiteException` it looks the
  day up again. It is unreachable, because `CreateEntryAsync` wraps every such exception into
  an `ApplicationException`. It would also need a concurrent writer, which the model does not
  have.
- Concurrency between callers is left out.
- `DateTime.Now` and `Guid.NewGuid()` are parameters (`today`, `now`, `newId`).
- Dashboard.Percentage: computed exactly on integers, in hundredths of a percent with midpoints
  rounded to even. The app rounds the double `part * 100d / total`. The two can differ where
  the double's own rounding error moves a value across a midpoint.
- Dashboard.AverageWords: an exact rational, not a double.
- Dashboard.TagRank: ties between equally used tags are ordered by ordinal code-point order.
  The app uses the culture-sensitive default string comparer, which is not modelled.
- Strings.Fold: `OrdinalIgnoreCase` is modelled as folding ASCII letters only. The app also
  folds letters outside ASCII.
- Words.IsLetter: the character classes `\p{L}`, `\p{N}` and `\w`, and white space, are those
  of Latin-1. Characters beyond U+00FF are not classified.
- Words.MatchCountIsPlainWords: proved only for texts whose letters and numbers are all word
  characters. Superscripts and vulgar fractions are numbers but not word characters, and there
  the matcher's count is given only by `MatchCount`.
- Theme: the `Changed` event is a counter of notifications. Exceptions thrown by its handlers
  are left out.
- The PDF export, the database and configuration services, the app bootstrap and the editor's
  JavaScript are not part of this model.
