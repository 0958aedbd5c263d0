/**
 * The derived views of AnalyticsView in app.js: the weekly summary
 * (displayWeeklySummary, grouping and order) and the chart series (createCharts).
 *
 * The weekday of a day number is supplied by the caller as `weekdayOf`: the
 * source takes it from toLocaleDateString, which depends on the time zone.
 */
module Analytics {
  import opened Entries

  /** A weekday as its position in the week, Sunday first: 0 is Sun, 6 is Sat. */
  type Weekday = d: int | 0 <= d < 7

  /** The number of weekdays. */
  const WeekLength: nat := 7

  /** `daysOrder`: the names the summary shows, in the order it lists them. */
  const DayNames: seq<string> := ["Sun", "Mon", "Tue", "Wed", "Thu", "Fri", "Sat"]

  /** The name the summary shows for a weekday; distinct days have distinct names. */
  function DayName(w: Weekday): (name: string)
    ensures name in DayNames
    ensures forall v: Weekday :: v != w ==> DayNames[v] != name
  {
    DayNames[w]
  }

  /** What the summary keeps of one weekday: how many entries, and their moods added up. */
  datatype Tally = Tally(count: nat, moodSum: int)

  function Plus(a: Tally, b: Tally): Tally {
    Tally(a.count + b.count, a.moodSum + b.moodSum)
  }

  /** The sum of the moods of a list of entries. */
  function MoodTotal(s: seq<Entry>): int {
    if s == [] then 0 else MoodTotal(s[..|s| - 1]) + s[|s| - 1].mood
  }

  /** The bucket of weekday `w` after grouping `s`: the entries of that weekday, counted and summed. */
  function TallyOn(s: seq<Entry>, weekdayOf: int -> Weekday, w: Weekday): (t: Tally)
    ensures t.count == 0 ==> t.moodSum == 0
    ensures t.count <= |s|
  {
    if s == [] then Tally(0, 0)
    else
      var front := s[..|s| - 1];
      var t := TallyOn(front, weekdayOf, w);
      var e := s[|s| - 1];
      if weekdayOf(e.date) == w then Tally(t.count + 1, t.moodSum + e.mood) else t
  }

  /** A weekday's bucket is empty exactly when no entry falls on that weekday. */
  lemma {:induction false} EmptyBucketIffNoEntry(s: seq<Entry>, weekdayOf: int -> Weekday, w: Weekday)
    ensures TallyOn(s, weekdayOf, w).count == 0 <==> forall i :: 0 <= i < |s| ==> weekdayOf(s[i].date) != w
  {
    if s != [] {
      var front := s[..|s| - 1];
      EmptyBucketIffNoEntry(front, weekdayOf, w);
      assert forall i :: 0 <= i < |front| ==> front[i] == s[i];
    }
  }

  /** Each entry is counted in the bucket of its own weekday. */
  lemma EntryLandsInItsBucket(s: seq<Entry>, weekdayOf: int -> Weekday, i: nat)
    requires i < |s|
    ensures TallyOn(s, weekdayOf, weekdayOf(s[i].date)).count > 0
  {
    EmptyBucketIffNoEntry(s, weekdayOf, weekdayOf(s[i].date));
  }

  /** The buckets of the first `j` weekdays, added together. */
  function TallyBelow(s: seq<Entry>, weekdayOf: int -> Weekday, j: nat): Tally
    requires j <= WeekLength
  {
    if j == 0 then Tally(0, 0) else Plus(TallyBelow(s, weekdayOf, j - 1), TallyOn(s, weekdayOf, j - 1))
  }

  /** What one more entry adds to a weekday bucket. */
  function Contribution(e: Entry, weekdayOf: int -> Weekday, w: Weekday): Tally {
    if weekdayOf(e.date) == w then Tally(1, e.mood) else Tally(0, 0)
  }

  lemma TallyOnAppend(s: seq<Entry>, e: Entry, weekdayOf: int -> Weekday, w: Weekday)
    ensures TallyOn(s + [e], weekdayOf, w) == Plus(TallyOn(s, weekdayOf, w), Contribution(e, weekdayOf, w))
  {
    assert (s + [e])[..|s|] == s;
  }

  lemma {:induction false} TallyBelowAppend(s: seq<Entry>, e: Entry, weekdayOf: int -> Weekday, j: nat)
    requires j <= WeekLength
    ensures TallyBelow(s + [e], weekdayOf, j) ==
            Plus(TallyBelow(s, weekdayOf, j), if weekdayOf(e.date) < j then Tally(1, e.mood) else Tally(0, 0))
  {
    if j > 0 {
      var w := weekdayOf(e.date);
      var below := TallyBelow(s, weekdayOf, j - 1);
      var on := TallyOn(s, weekdayOf, j - 1);
      assert TallyBelow(s + [e], weekdayOf, j) == Plus(TallyBelow(s + [e], weekdayOf, j - 1), TallyOn(s + [e], weekdayOf, j - 1));
      TallyBelowAppend(s, e, weekdayOf, j - 1);
      TallyOnAppend(s, e, weekdayOf, j - 1);
      assert TallyBelow(s, weekdayOf, j) == Plus(below, on);
      if w < j - 1 {
        assert TallyBelow(s + [e], weekdayOf, j) == Plus(Plus(below, Tally(1, e.mood)), on);
      } else if w == j - 1 {
        assert TallyBelow(s + [e], weekdayOf, j) == Plus(below, Plus(on, Tally(1, e.mood)));
      } else {
        assert TallyBelow(s + [e], weekdayOf, j) == Plus(below, on);
      }
    }
  }

  lemma {:induction false} TallyBelowEmpty(weekdayOf: int -> Weekday, j: nat)
    requires j <= WeekLength
    ensures TallyBelow([], weekdayOf, j) == Tally(0, 0)
  {
    if j > 0 { TallyBelowEmpty(weekdayOf, j - 1); }
  }

  /** Every entry lands in exactly one weekday bucket: the buckets add up to all entries and all moods. */
  lemma {:induction false} BucketsCoverAllEntries(s: seq<Entry>, weekdayOf: int -> Weekday)
    ensures TallyBelow(s, weekdayOf, WeekLength) == Tally(|s|, MoodTotal(s))
  {
    if s == [] {
      TallyBelowEmpty(weekdayOf, WeekLength);
    } else {
      var front := s[..|s| - 1];
      var e := s[|s| - 1];
      assert front + [e] == s;
      BucketsCoverAllEntries(front, weekdayOf);
      TallyBelowAppend(front, e, weekdayOf, WeekLength);
      assert weekdayOf(e.date) < WeekLength;
      assert TallyBelow(s, weekdayOf, WeekLength) == Plus(Tally(|front|, MoodTotal(front)), Tally(1, e.mood));
      assert MoodTotal(s) == MoodTotal(front) + e.mood;
    }
  }

  /** One line of the weekly summary: the weekday, the name it is shown under, and its tally. */
  datatype DayRow = DayRow(day: Weekday, name: string, tally: Tally)

  /** The rows' buckets added together. */
  function TotalTally(rows: seq<DayRow>): Tally {
    if rows == [] then Tally(0, 0) else Plus(TotalTally(rows[..|rows| - 1]), rows[|rows| - 1].tally)
  }

  /**
   * The `entries.forEach` of displayWeeklySummary: create a weekday's bucket on
   * its first entry, then count the entry and add its mood.
   */
  method GroupByWeekday(entries: seq<Entry>, weekdayOf: int -> Weekday) returns (summary: map<Weekday, Tally>)
    ensures forall w :: w in summary <==> TallyOn(entries, weekdayOf, w).count > 0
    ensures forall w :: w in summary ==> summary[w] == TallyOn(entries, weekdayOf, w)
  {
    summary := map[];
    for i := 0 to |entries|
      invariant forall w :: w in summary <==> TallyOn(entries[..i], weekdayOf, w).count > 0
      invariant forall w :: w in summary ==> summary[w] == TallyOn(entries[..i], weekdayOf, w)
    {
      var entry := entries[i];
      var day := weekdayOf(entry.date);
      if day !in summary {
        summary := summary[day := Tally(0, 0)];
      }
      var bucket := summary[day];
      summary := summary[day := Tally(bucket.count + 1, bucket.moodSum + entry.mood)];
      assert entries[..i + 1] == entries[..i] + [entry];
      forall w ensures TallyOn(entries[..i + 1], weekdayOf, w) == Plus(TallyOn(entries[..i], weekdayOf, w), Contribution(entry, weekdayOf, w)) {
        TallyOnAppend(entries[..i], entry, weekdayOf, w);
      }
    }
    assert entries[..|entries|] == entries;
  }

  /** The buckets of the first `j` weekdays in a summary dictionary, added together. */
  function SummaryBelow(summary: map<Weekday, Tally>, j: nat): Tally
    requires j <= WeekLength
  {
    if j == 0 then Tally(0, 0)
    else
      var day := j - 1;
      Plus(SummaryBelow(summary, j - 1), if day in summary then summary[day] else Tally(0, 0))
  }

  /** Some row of the summary is for weekday `w`. */
  ghost predicate Listed(rows: seq<DayRow>, w: Weekday) {
    exists k :: 0 <= k < |rows| && rows[k].day == w
  }

  /**
   * What the render loop has built before weekday `j`: rows for exactly the days
   * before `j` that are in the summary, in ascending order, each with its bucket.
   */
  ghost predicate ListedBefore(summary: map<Weekday, Tally>, rows: seq<DayRow>, j: nat) {
    && (forall k :: 0 <= k < |rows| ==> rows[k].day < j)
    && (forall k :: 0 <= k < |rows| ==> rows[k].day in summary && rows[k].tally == summary[rows[k].day])
    && (forall k :: 0 <= k < |rows| ==> rows[k].name == DayName(rows[k].day))
    && (forall k, l :: 0 <= k < l < |rows| ==> rows[k].day < rows[l].day)
    && (forall w: Weekday :: w < j ==> (w in summary <==> Listed(rows, w)))
  }

  /** The render loop `daysOrder.forEach(day => { if (summary[day]) ... })`: the present days, Sun..Sat. */
  method ListInWeekOrder(summary: map<Weekday, Tally>) returns (rows: seq<DayRow>)
    ensures forall k :: 0 <= k < |rows| ==> rows[k].day in summary && rows[k].tally == summary[rows[k].day]
    ensures forall k :: 0 <= k < |rows| ==> rows[k].name == DayName(rows[k].day)
    ensures forall w :: w in summary <==> Listed(rows, w)
    ensures forall k, l :: 0 <= k < l < |rows| ==> rows[k].day < rows[l].day
    ensures TotalTally(rows) == SummaryBelow(summary, WeekLength)
  {
    rows := [];
    for j := 0 to WeekLength
      invariant ListedBefore(summary, rows, j)
      invariant TotalTally(rows) == SummaryBelow(summary, j)
    {
      var day: Weekday := j;
      ghost var before := rows;
      if day in summary {
        var row := DayRow(day, DayName(day), summary[day]);
        rows := Append(rows, row);
      }
      ListStep(summary, before, rows, j);
    }
  }

  /** One turn of the render loop keeps what it has built, one day further on. */
  lemma ListStep(summary: map<Weekday, Tally>, before: seq<DayRow>, rows: seq<DayRow>, j: Weekday)
    requires ListedBefore(summary, before, j)
    requires rows == if j in summary then Append(before, DayRow(j, DayName(j), summary[j])) else before
    ensures ListedBefore(summary, rows, j + 1)
    ensures TotalTally(rows) == Plus(TotalTally(before), if j in summary then summary[j] else Tally(0, 0))
  {
    NotListedFrom(before, j);
  }

  /** Adding one rendered day to the summary (`appendChild`), with the facts the render loop needs about the result. */
  function Append(rows: seq<DayRow>, row: DayRow): (grown: seq<DayRow>)
    ensures |grown| == |rows| + 1 && grown[|rows|] == row
    ensures forall k :: 0 <= k < |rows| ==> grown[k] == rows[k]
    ensures TotalTally(grown) == Plus(TotalTally(rows), row.tally)
    ensures forall w :: Listed(grown, w) <==> Listed(rows, w) || w == row.day
  {
    var grown := rows + [row];
    assert grown[..|rows|] == rows;
    assert forall w :: Listed(grown, w) <==> Listed(rows, w) || w == row.day by {
      forall w ensures Listed(grown, w) <==> Listed(rows, w) || w == row.day {
        if Listed(grown, w) && w != row.day {
          var k :| 0 <= k < |grown| && grown[k].day == w;
          assert k < |rows| && rows[k].day == w;
        }
        if Listed(rows, w) {
          var k :| 0 <= k < |rows| && rows[k].day == w;
          assert grown[k].day == w;
        }
        if w == row.day { assert grown[|rows|].day == w; }
      }
    }
    grown
  }

  /** Rows that are all for days before `j` list no day from `j` on. */
  lemma NotListedFrom(rows: seq<DayRow>, j: int)
    requires forall k :: 0 <= k < |rows| ==> rows[k].day < j
    ensures forall w: Weekday :: w >= j ==> !Listed(rows, w)
  {
  }

  /** A dictionary holding exactly the non-empty buckets sums to the same totals as the buckets. */
  lemma {:induction false} SummaryBelowMatches(summary: map<Weekday, Tally>, entries: seq<Entry>, weekdayOf: int -> Weekday, j: nat)
    requires j <= WeekLength
    requires forall w :: w in summary <==> TallyOn(entries, weekdayOf, w).count > 0
    requires forall w :: w in summary ==> summary[w] == TallyOn(entries, weekdayOf, w)
    ensures SummaryBelow(summary, j) == TallyBelow(entries, weekdayOf, j)
  {
    if j > 0 { SummaryBelowMatches(summary, entries, weekdayOf, j - 1); }
  }

  /**
   * displayWeeklySummary without the rendering: group the entries by weekday,
   * then list the days that have entries in Sun..Sat order.
   */
  method WeeklySummary(entries: seq<Entry>, weekdayOf: int -> Weekday) returns (rows: seq<DayRow>)
    ensures forall k :: 0 <= k < |rows| ==> rows[k].tally == TallyOn(entries, weekdayOf, rows[k].day)
    ensures forall k :: 0 <= k < |rows| ==> rows[k].name == DayName(rows[k].day)
    ensures forall k :: 0 <= k < |rows| ==> rows[k].tally.count > 0
    ensures forall w :: Listed(rows, w) <==> TallyOn(entries, weekdayOf, w).count > 0
    ensures forall k, l :: 0 <= k < l < |rows| ==> rows[k].day < rows[l].day
    ensures TotalTally(rows) == Tally(|entries|, MoodTotal(entries))
  {
    var summary := GroupByWeekday(entries, weekdayOf);
    rows := ListInWeekOrder(summary);
    SummaryBelowMatches(summary, entries, weekdayOf, WeekLength);
    BucketsCoverAllEntries(entries, weekdayOf);
  }

  // ---------------------------------------------------------------------------
  // Chart series
  // ---------------------------------------------------------------------------

  /** `[...entries].reverse()`: a reversed copy. */
  function Reverse<T>(s: seq<T>): (r: seq<T>)
    ensures |r| == |s|
    ensures forall i :: 0 <= i < |s| ==> r[i] == s[|s| - 1 - i]
  {
    if s == [] then [] else Reverse(s[1..]) + [s[0]]
  }

  /** Reversing twice gives back the original order. */
  lemma ReverseTwice<T>(s: seq<T>)
    ensures Reverse(Reverse(s)) == s
  {
    var r := Reverse(Reverse(s));
    assert forall i :: 0 <= i < |s| ==> r[i] == Reverse(s)[|s| - 1 - i] == s[i];
  }

  /** The four parallel arrays createCharts hands to the charts. */
  datatype Series = Series(dates: seq<int>, moods: seq<int>, sleeps: seq<real>, stresses: seq<int>)

  /** createCharts: the entries reversed, split into one array per plotted field. */
  function ChartSeries(entries: seq<Entry>): (c: Series)
    ensures |c.dates| == |c.moods| == |c.sleeps| == |c.stresses| == |entries|
    ensures forall i :: 0 <= i < |entries| ==>
              var e := entries[|entries| - 1 - i];
              c.dates[i] == e.date && c.moods[i] == e.mood && c.sleeps[i] == e.sleep && c.stresses[i] == e.stress
  {
    var sorted := Reverse(entries);
    Series(
      seq(|sorted|, i requires 0 <= i < |sorted| => sorted[i].date),
      seq(|sorted|, i requires 0 <= i < |sorted| => sorted[i].mood),
      seq(|sorted|, i requires 0 <= i < |sorted| => sorted[i].sleep),
      seq(|sorted|, i requires 0 <= i < |sorted| => sorted[i].stress))
  }

  /** Given the store's newest-first list, the chart runs oldest first with no repeated day. */
  lemma ChartIsChronological(entries: seq<Entry>)
    requires StrictlyDescending(entries)
    ensures forall i, j :: 0 <= i < j < |entries| ==> ChartSeries(entries).dates[i] < ChartSeries(entries).dates[j]
  {
    var c := ChartSeries(entries);
    var n := |entries|;
    forall i, j | 0 <= i < j < n ensures c.dates[i] < c.dates[j] {
      assert c.dates[i] == entries[n - 1 - i].date && c.dates[j] == entries[n - 1 - j].date;
    }
  }
}
