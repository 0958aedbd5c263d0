# Wellness tracker core in Dafny

A model of the logic of the Mental Health Check-In & Wellness Tracker, a
single-page browser application (`app.js`). The model covers:

- The entry store, `StorageManager`. It reads all entries, looks one up by date,
  saves with the "one entry per day, newest first" rule, filters the last N days,
  and computes the check-in streak.
- The check-in form's validation and the entry it builds, `handleSubmit`.
- The mood and stress display rules: the five mood faces, the slider highlight,
  and the two stress label tables.
- The choice of a wellness suggestion.
- The analytics views:
  - the weekly summary (grouping by weekday, then Sun..Sat order);
  - the chart series (the store's list reversed);
  - the CSV export.

Modules, one per concern:

| file | module | what it holds |
|---|---|---|
| `wrappers.dfy` | `Wrappers` | `Option`, `Result` |
| `entries.dfy` | `Entries` | the `Entry` record, the orderings of a collection, `findIndex`/`find` by date |
| `store.dfy` | `Store` | the stable newest-first sort, `Saved` (what saveEntry writes back), the class `EntryStore` with the five StorageManager operations |
| `moods.dfy` | `Moods` | mood faces, slider highlight, stress labels, suggestion pools and pick |
| `checkin.dfy` | `CheckIn` | the form, `BuildEntry`, the `HandleSubmit` method |
| `analytics.dfy` | `Analytics` | weekday buckets, the weekly summary methods, the chart series |
| `csv.dfy` | `Csv` | quote doubling (RFC 4180), a CSV reader, and the round trip of written records |
| `export.dfy` | `Export` | the text exportCSV builds, decimal integers, and what a CSV reader gets back from it |

Representation choices:

- A calendar date `YYYY-MM-DD` is an integer day number. Later days are larger
  numbers, and the day before `d` is `d - 1`.
- A clock reading is an integer number of milliseconds. `new Date(entry.date)` is
  midnight UTC of that day, `MidnightMs(d)`.
- The current day and time are parameters.
- The weekday of a day is a function `weekdayOf` that the caller supplies, since
  the source gets it from a time-zone-dependent `toLocaleDateString`.
- The text of a locale-formatted date and of a sleep number are caller-supplied
  functions in `Export.Formats`.
- `Math.random()` is a parameter `u` with `0 <= u < 1`.
- `localStorage` is the field `EntryStore.entries`; what the source writes back
  under its key is the field's new value.
- `Array.prototype.sort` is stable, so the sort in `saveEntry` is modelled as a
  stable insertion sort (`Store.SortByDate`).

The stored collection's invariant, `EntryStore.Valid()`, is "strictly newest first"
(so at most one entry per date). Every save keeps it. Given it:

- a lookup by date is exact;
- a save replaces or inserts exactly one entry and leaves every other date alone;
- saving twice is the same as saving once, and the second of two saves for a date wins;
- the chart series runs oldest first.

The CSV export text reads back, field for field, as what was exported. This holds
whenever the date text and the activities contain no quote, and the sleep text
contains no quote, no comma and no line break. Those are the columns the source
does not escape.

## Model

| member | source | states |
|---|---|---|
| Entries.FindIndex | app.js:24 | the first position dated `d`; `None` exactly when no entry is dated `d` |
| Entries.Find | app.js:17-19 | some entry dated `d` exactly when one exists; it is the first such entry |
| Entries.FindInStrict | app.js:17-19 | on a strictly newest-first list, lookup finds `x` iff `x` is stored with that date |
| Store.MidnightMs | app.js:43 | `new Date(entry.date)` (also in the sort comparator, app.js:33) is a whole number of days in milliseconds, and the day is recovered from it |
| Store.InsertByDate | app.js:33 | stable insertion keeps the same multiset of entries plus the new one |
| Store.SortByDate | app.js:33 | the sort is a permutation (multiset equality) and its result is newest first |
| Store.InsertKeepsNonIncreasing | app.js:33 | inserting into a newest-first list keeps it newest first |
| Store.InsertKeepsStrict | app.js:33 | inserting a new date into a strictly newest-first list keeps it strict |
| Store.SortKeepsSorted | app.js:33 | sorting an already newest-first list leaves it unchanged (stability) |
| Store.SavedOnStrict | app.js:22-35 | on a well-kept list a save is an in-place overwrite at the found index, or an ordered insertion |
| Store.SaveKeepsStrictOrder | app.js:22-35 | a save keeps the list strictly newest first |
| Store.SaveMembers | app.js:22-35 | after a save the entries are the new one plus exactly the old ones of other dates |
| Store.SaveStoresEntry | app.js:22-35 | after a save, lookup of the saved date gives the saved entry, and no other entry has that date |
| Store.SaveKeepsOtherDates | app.js:22-35 | a save does not change the lookup of any other date |
| Store.Upsert | app.js:24-30 | the first entry of that date is overwritten in place, or the entry is pushed at the end, and every other position keeps its old entry; the length is unchanged iff the date was present |
| Store.Saved | app.js:22-34 | the list saveEntry writes back is newest first and a permutation of the upsert (the `SaveEntry` and `HandleSubmit` contracts are stated in terms of it) |
| Store.SaveLength | app.js:24-30 | the list grows by one iff the date was absent before (any list, valid or not) |
| Store.StrictWithSameMembersEqual | app.js:33 | two strictly newest-first lists with the same entries are equal |
| Store.SaveIdempotent | app.js:22-35 | saving the same entry a second time changes nothing |
| Store.SaveLastWins | app.js:22-35 | two saves for one date leave what the second save alone leaves |
| Store.OnOrAfter | app.js:44 | the filter keeps exactly the entries whose UTC midnight is at or after the cutoff, each with all its copies, in order |
| Store.WindowDays | app.js:40-44 | inside day `today` the window is the days after `today - days`; at midnight it also includes `today - days` |
| Store.SubsequenceKeepsStrict | app.js:44 | filtering a strictly newest-first list keeps it strictly newest first |
| Store.EntryStore.constructor | app.js:11-14 | a store starts out with the persisted list |
| Store.EntryStore.GetAllEntries | app.js:11-14 | the stored list itself, strictly newest first when the store is valid |
| Store.EntryStore.GetEntry | app.js:17-19 | `Some` iff an entry has that date, and then the first entry with that date, as `find` returns; on a valid store exactly the entry stored with that date |
| Store.EntryStore.SaveEntry | app.js:22-35 | the new list is `Saved(old list, entry)` (overwrite or push, then sort); validity is preserved |
| Store.EntryStore.GetLastNDays | app.js:38-44 | exactly the entries whose UTC midnight is no earlier than now less `days` days, each with all its copies, a subsequence of the stored list, strict when the store is valid |
| Store.EntryStore.CalculateStreak | app.js:47-66 | 0 on an empty store; otherwise every day of the last `streak` days has an entry, and the day before them has none unless the 365-day cap was reached |
| Moods.MoodEmoji | app.js:638-644 | the face is one of the five mood faces |
| Moods.SliderHighlight | app.js:101-105 | the highlighted face is position `(value - 1) / 2` clamped to 0..4 |
| Moods.EmojiMatchesHighlight | app.js:638-644 | the history face for a mood is the face the slider highlights for it |
| Moods.MoodBucketsMonotone | app.js:101-105 | a higher value never highlights a sadder face |
| Moods.MoodFacesDistinct | app.js:638-644 | two moods get the same face iff they are in the same bucket |
| Moods.Lookup | app.js:306 | JavaScript indexing: a value iff the index is in range, and then the element |
| Moods.StressTick | app.js:547 | an axis label exists iff the level is 0..4, and it is non-empty for 1..4 |
| Moods.StressBadge | app.js:306 | a card label exists iff the level is 0..4, and it is non-empty for 1..4 |
| Moods.BadgeExtendsTick | app.js:306 | each card label is the axis label followed by a space and a face |
| Moods.StressLabelsDistinct | app.js:547 | distinct levels 1..4 have distinct labels in both tables |
| Moods.SuggestionCategory | app.js:154-156 | low iff mood <= 3, high iff mood >= 7, moderate iff in between |
| Moods.Pool | app.js:133-152 | each category has four messages |
| Moods.PickIndex | app.js:158 | `floor(u * n)` is a valid index, with `i <= u * n < i + 1` |
| Moods.Suggestion | app.js:132-158 | the message shown belongs to the pool of the mood's category |
| CheckIn.BuildEntry | app.js:243-273 | fails iff no stress level is selected; otherwise the entry carries today, the form's fields, sleep defaulting to 0 and the timestamp |
| CheckIn.HandleSubmit | app.js:243-276 | on failure the store is unchanged; otherwise it holds `Saved(old, entry)`; validity is preserved |
| Analytics.DayName | app.js:586 | the shown name is in `daysOrder`; distinct weekdays have distinct names |
| Analytics.TallyOn | app.js:571-584 | an empty bucket has a zero mood sum; a bucket never counts more entries than exist |
| Analytics.EmptyBucketIffNoEntry | app.js:576-583 | a weekday's bucket is empty iff no entry falls on that weekday |
| Analytics.EntryLandsInItsBucket | app.js:576-583 | each entry is counted in its own weekday's bucket |
| Analytics.BucketsCoverAllEntries | app.js:571-584 | the seven buckets together count every entry once and sum every mood |
| Analytics.GroupByWeekday | app.js:571-584 | the dictionary has a key iff that weekday has entries, and each value is that weekday's bucket |
| Analytics.Append | app.js:602 | adding a rendered day keeps the earlier rows, puts the new one last, and adds its tally to the running total |
| Analytics.ListInWeekOrder | app.js:586-604 | one row per present key, in Sun..Sat order, each with its `daysOrder` name and its bucket, adding up to the dictionary's total |
| Analytics.WeeklySummary | app.js:568-604 | rows for exactly the weekdays with entries, ascending, each with its shown name and its bucket, together covering all entries and moods |
| Analytics.Reverse | app.js:380 | reversal has the same length, and position `i` holds element `n - 1 - i` |
| Analytics.ReverseTwice | app.js:380 | reversing twice gives back the original |
| Analytics.ChartSeries | app.js:378-385 | four parallel arrays as long as the input, position `i` taken from the entry `n - 1 - i` |
| Analytics.ChartIsChronological | app.js:379-380 | from the store's newest-first list, the chart's dates rise strictly |
| Csv.Escape | app.js:618 | doubling adds one character per quote and leaves quote-free text alone |
| Csv.EscapePairsQuotes | app.js:618 | escaped text holds quotes only in adjacent pairs |
| Csv.UnescapeEscape | app.js:618 | collapsing the doubled quotes recovers the notes |
| Csv.EscapeUnescape | app.js:618 | any text with paired quotes is the escape of its collapse |
| Csv.ParseRecordEncoded | app.js:620 | a written record reads back as its fields' texts and stops after its line break |
| Csv.ParseDocumentEncoded | app.js:613-621 | a written document reads back as every record's texts, in order |
| Export.NatTextValue | app.js:620 | the decimal digits of `n` have the value `n` |
| Export.IntText | app.js:620 | `${entry.mood}` and `${entry.stress}` are non-empty and start with a minus sign iff the number is negative; `IntTextRoundTrip` states that the model's plain-decimal text reads back as the number (see `Export.IntText` under Left out for what JavaScript does beyond 10^21) |
| Export.IntTextRoundTrip | app.js:620 | the mood and stress columns read back as the integers written |
| Export.RowIsRecord | app.js:620 | a row of the template is the CSV record of its six fields when the date and activities hold no quote and the sleep text holds no quote, comma or line break |
| Export.Join | app.js:617 | every character of `join('; ')` comes from the separator or from one of the activities (so quote-free activities give a quote-free column) |
| Export.JoinHasNoQuote | app.js:617 | joining quote-free activities with `; ` gives a quote-free column |
| Export.Row | app.js:616-620 | each row of the template starts with the opening quote of the date and ends with its line break, at least 14 characters long; `RowIsRecord` states that it is the CSV record of its six fields |
| Export.Rows | app.js:615-621 | the rows of the `forEach` in entry order, each entry adding at least one row's 14 characters; `RowsAreRecords` states that they form the CSV document of the entries' records |
| Export.RowsAreRecords | app.js:615-621 | under `Exportable` the rows of the entries are exactly the CSV document of their six-field records |
| Export.CsvText | app.js:613-621 | the export begins with the header line; `CsvTextReadsBack` states that it reads back as the header names and each entry's column texts |
| Export.ExportCsv | app.js:612-621 | the text is the header line and one row per entry in order; under `Exportable` (no quote in the date and the activities; no quote, comma or line break in the sleep text) it reads back as the header names and each entry's column texts, notes exactly as typed |
| Export.CsvTextReadsBack | app.js:612-621 | the exported text reads back as the header names and one record per entry with its column texts |

## Left out

- The DOM, event handlers, alerts, the theme toggle, the `Chart.js` chart objects,
  the PDF export message, and the Blob download of the CSV file are rendering and
  I/O. They are not modelled.
- `localStorage` and `JSON.parse`/`JSON.stringify` are a field of the store, not
  serialisation. A corrupt stored value is not modelled.
- The clock is never read. The current day, the current time in milliseconds, the
  save timestamp and the random draw `u` are parameters.
- Time zones are not modelled: which UTC day each of `toISOString` and
  `toLocaleDateString` yields, and the daylight-saving length of a local day.
- Store.EntryStore.GetLastNDays: the cutoff is now less `days` times 24 hours.
  Across a daylight-saving change, `setDate` moves the source's cutoff by an hour,
  which the model does not capture.
- Store.EntryStore.CalculateStreak: the walk starts at the day passed in. The
  source starts it at the UTC date of local midnight, while `handleSubmit` stamps the
  UTC date of the current moment. The model does not relate the two days. They can
  differ:
  - at a zone h hours east of UTC, the walk starts on the day before the local date.
    After the first h hours of the local day, `handleSubmit` stamps the local date, a
    day later than the walk's start. In the first h hours both are the previous day.
  - at a zone h hours west of UTC, the walk starts on the local date. In the last h
    hours of the local day, `handleSubmit` stamps the next day. At other times both
    are the local date.
  - at UTC itself both are always the same day.
- Store.InsertByDate: the stability of the sort (equal dates keep their order) is
  used in `SortKeepsSorted`, but is not stated on its own. Collections that
  `saveEntry` builds from an empty store never hold two entries of one date, but the
  model accepts any persisted list.
- Analytics: the averages of the summary cards (`displaySummaries`) and the mean
  mood of each weekday (`toFixed(1)`) are floating point. They are left out, so the
  face of a weekday's mean is not computed. A `Tally` keeps the count and the mood
  sum that the mean divides. The sleep and stress arrays that displayWeeklySummary
  collects but never reads are left out as well.
- Analytics.ChartSeries: the chart's date labels are the day numbers, not their
  `toLocaleDateString` text.
- Export.Row: the date and activities columns are quoted but not escaped, as in the
  source, and the sleep column is neither quoted nor escaped. So the read-back
  lemmas assume that the date text and every activity contain no quote, and that the
  sleep text contains no quote, no comma and no line break (`Exportable`). Without
  that condition the round trip is not claimed.
- Export.IntText: every int is written in plain decimal. A JavaScript number is a
  double: `${n}` switches to exponent form (`1e+21`) from magnitude 10^21 on, and
  integers are exact only up to 2^53. The model does not capture either, so the
  read-back of the mood and stress columns is claimed for every int, while the
  source has it only for moderate values. The app only ever stores moods 1..10 and
  stress levels 1..4, which both forms write alike.
- Export.Formats: the text of a locale date and of a JavaScript number (sleep
  hours) are functions the caller supplies, not modelled formatting.
- Moods: that the three suggestion pools share no message is not stated.
- CheckIn.BuildEntry: the only validation is that a stress level is selected, as in
  `handleSubmit`. Mood and stress ranges are not checked, and neither are missing
  fields of stored entries. The model follows the code here rather than any
  stricter validation.
