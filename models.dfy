/** The journal's data model: moods, mood categories, points in time and the
    journal entry record. */
module Models {
  import opened Wrappers

  /** The three categories, in declaration order (`Enum.GetValues<Category>()`). */
  datatype Category = Positive | Neutral | Negative

  const AllCategories: seq<Category> := [Positive, Neutral, Negative]

  /** The fifteen moods: five positive, five neutral, five negative. */
  datatype Mood =
    | Happy | Excited | Relaxed | Grateful | Confident
    | Calm | Thoughtful | Curious | Nostalgic | Bored
    | Sad | Angry | Stressed | Lonely | Anxious

  /** A `DateTime`: the day number and the time of day within it. */
  datatype Moment = Moment(day: int, timeOfDay: nat)

  /** `date.Date`: midnight of the same day, written as the day number. */
  function NormalizeDate(m: Moment): int {
    m.day
  }

  /** A `Guid`. */
  type Guid = nat

  /** A stored journal entry. `date` is a normalised day; the secondary moods
      and tags are the lists that `SecondaryMoodsJson` and `TagsJson` hold. */
  datatype Entry = Entry(
    id: Guid,
    date: int,
    title: string,
    content: string,
    isMarkdown: bool,
    primaryMood: Mood,
    secondaryMoods: seq<Mood>,
    category: Option<Category>,
    tags: seq<string>,
    createdAt: Moment,
    updatedAt: Moment)

  function EntryDate(e: Entry): int {
    e.date
  }

  function EntryId(e: Entry): Guid {
    e.id
  }

  /** The days on which the entries of `es` were written. */
  function DatesOf(es: seq<Entry>): (S: set<int>)
    ensures forall d :: d in S <==> exists i :: 0 <= i < |es| && es[i].date == d
  {
    set i | 0 <= i < |es| :: es[i].date
  }
}
