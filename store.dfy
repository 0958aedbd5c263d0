/**
 * StorageManager of app.js: the persisted collection of entries.
 *
 * `localStorage` and the JSON round trip become the field `entries` of the
 * class `EntryStore`; what the source writes back under its storage key is
 * exactly what the field holds after a method returns.
 */
module Store {
  import opened Wrappers
  import opened Entries

  /** The bound on the backward walk of calculateStreak. */
  const MaxStreakDays: nat := 365

  /** Milliseconds in a day: the unit of the clock readings getLastNDays compares. */
  const MsPerDay: int := 86400000

  /** `new Date(entry.date)`: a date-only string reads as midnight UTC of that day. */
  function MidnightMs(day: int): (ms: int)
    ensures ms / MsPerDay == day && ms % MsPerDay == 0
  {
    day * MsPerDay
  }

  // ---------------------------------------------------------------------------
  // The newest-first sort of saveEntry
  // ---------------------------------------------------------------------------

  /**
   * Stable insertion of `e` into a newest-first sequence: `e` goes after every
   * leading entry dated no earlier than itself.
   */
  function InsertByDate(s: seq<Entry>, e: Entry): (r: seq<Entry>)
    ensures multiset(r) == multiset(s) + multiset{e}
  {
    if s == [] then [e]
    else if s[0].date >= e.date then
      assert s == [s[0]] + s[1..];
      [s[0]] + InsertByDate(s[1..], e)
    else [e] + s
  }

  /**
   * `entries.sort((a, b) => new Date(b.date) - new Date(a.date))`: sort by date,
   * newest first. Array.prototype.sort is stable, and so is this insertion sort,
   * which inserts each later element after the earlier ones of equal date.
   */
  function SortByDate(s: seq<Entry>): (r: seq<Entry>)
    ensures multiset(r) == multiset(s)
    ensures NonIncreasing(r)
  {
    if s == [] then []
    else
      var sortedFront := SortByDate(s[..|s| - 1]);
      InsertKeepsNonIncreasing(sortedFront, s[|s| - 1]);
      assert s == s[..|s| - 1] + [s[|s| - 1]];
      InsertByDate(sortedFront, s[|s| - 1])
  }

  /** Every element of an insertion is the inserted entry or one of the tail's entries. */
  lemma InsertedTailMembers(s: seq<Entry>, e: Entry, x: Entry)
    requires s != [] && x in InsertByDate(s[1..], e) && x != e
    ensures exists k :: 1 <= k < |s| && s[k] == x
  {
    assert x in multiset(InsertByDate(s[1..], e));
    var k :| 0 <= k < |s[1..]| && s[1..][k] == x;
    assert s[k + 1] == x;
  }

  /** An entry dated no later than a newest-first tail's head, put in front of it. */
  lemma ConsNonIncreasing(h: Entry, rest: seq<Entry>)
    requires NonIncreasing(rest) && forall x :: x in rest ==> x.date <= h.date
    ensures NonIncreasing([h] + rest)
  {
    var r := [h] + rest;
    forall i, j | 0 <= i < j < |r| ensures r[i].date >= r[j].date {
      if i > 0 { assert r[i] == rest[i - 1] && r[j] == rest[j - 1]; } else { assert r[j] in rest; }
    }
  }

  /** An entry dated later than every entry of a strictly descending tail, put in front of it. */
  lemma ConsStrict(h: Entry, rest: seq<Entry>)
    requires StrictlyDescending(rest) && forall x :: x in rest ==> x.date < h.date
    ensures StrictlyDescending([h] + rest)
  {
    var r := [h] + rest;
    forall i, j | 0 <= i < j < |r| ensures r[i].date > r[j].date {
      if i > 0 { assert r[i] == rest[i - 1] && r[j] == rest[j - 1]; } else { assert r[j] in rest; }
    }
  }

  lemma {:induction false} InsertKeepsNonIncreasing(s: seq<Entry>, e: Entry)
    requires NonIncreasing(s)
    ensures NonIncreasing(InsertByDate(s, e))
  {
    if s != [] && s[0].date >= e.date {
      var rest := InsertByDate(s[1..], e);
      InsertKeepsNonIncreasing(s[1..], e);
      forall x | x in rest ensures x.date <= s[0].date {
        if x != e { InsertedTailMembers(s, e, x); }
      }
      ConsNonIncreasing(s[0], rest);
    }
  }

  lemma {:induction false} InsertKeepsStrict(s: seq<Entry>, e: Entry)
    requires StrictlyDescending(s) && !HasDate(s, e.date)
    ensures StrictlyDescending(InsertByDate(s, e))
  {
    if s != [] && s[0].date >= e.date {
      assert s[0].date != e.date;
      var rest := InsertByDate(s[1..], e);
      assert !HasDate(s[1..], e.date) by {
        forall k | 0 <= k < |s[1..]| ensures s[1..][k].date != e.date { assert s[1..][k] == s[k + 1]; }
      }
      InsertKeepsStrict(s[1..], e);
      forall x | x in rest ensures x.date < s[0].date {
        if x != e { InsertedTailMembers(s, e, x); }
      }
      ConsStrict(s[0], rest);
    }
  }

  /** Inserting an entry no newer than any stored one appends it. */
  lemma {:induction false} InsertOfOldestAppends(s: seq<Entry>, e: Entry)
    requires forall i :: 0 <= i < |s| ==> s[i].date >= e.date
    ensures InsertByDate(s, e) == s + [e]
  {
    if s != [] {
      InsertOfOldestAppends(s[1..], e);
      assert [s[0]] + (s[1..] + [e]) == s + [e];
    }
  }

  /** Sorting a collection that is already newest first leaves it as it is (the sort is stable). */
  lemma {:induction false} SortKeepsSorted(s: seq<Entry>)
    requires NonIncreasing(s)
    ensures SortByDate(s) == s
  {
    if s != [] {
      var front := s[..|s| - 1];
      SortKeepsSorted(front);
      InsertOfOldestAppends(front, s[|s| - 1]);
      assert front + [s[|s| - 1]] == s;
    }
  }

  // ---------------------------------------------------------------------------
  // saveEntry as a function of the old collection
  // ---------------------------------------------------------------------------

  /** The update step of saveEntry before sorting: overwrite the first entry of that date, or push. */
  function Upsert(s: seq<Entry>, e: Entry): (r: seq<Entry>)
    ensures e in r
    ensures forall x :: x in r ==> x == e || x in s
    ensures |r| == if HasDate(s, e.date) then |s| else |s| + 1
    ensures forall i :: 0 <= i < |s| && FindIndex(s, e.date) != Some(i) ==> r[i] == s[i]
    ensures FindIndex(s, e.date).Some? ==> r[FindIndex(s, e.date).value] == e
    ensures FindIndex(s, e.date).None? ==> r[|s|] == e
  {
    match FindIndex(s, e.date)
      case Some(i) => assert s[i := e][i] == e; s[i := e]
      case None => s + [e]
  }

  /** The collection saveEntry writes back: the upsert, sorted newest first. */
  function Saved(s: seq<Entry>, e: Entry): (r: seq<Entry>)
    ensures NonIncreasing(r)
    ensures multiset(r) == multiset(Upsert(s, e))
  {
    SortByDate(Upsert(s, e))
  }

  /** On a well-kept collection the save is a replacement in place or an ordered insertion. */
  lemma SavedOnStrict(s: seq<Entry>, e: Entry)
    requires StrictlyDescending(s)
    ensures StrictlyDescending(Saved(s, e))
    ensures FindIndex(s, e.date).Some? ==> Saved(s, e) == s[FindIndex(s, e.date).value := e]
    ensures FindIndex(s, e.date).None? ==> Saved(s, e) == InsertByDate(s, e)
  {
    match FindIndex(s, e.date)
    case Some(i) =>
      var u := s[i := e];
      assert StrictlyDescending(u);
      SortKeepsSorted(u);
    case None =>
      var u := s + [e];
      assert u[..|u| - 1] == s;
      SortKeepsSorted(s);
      InsertKeepsStrict(s, e);
  }

  /** Saving keeps the collection newest first with unique dates. */
  lemma SaveKeepsStrictOrder(s: seq<Entry>, e: Entry)
    requires StrictlyDescending(s)
    ensures StrictlyDescending(Saved(s, e))
  {
    SavedOnStrict(s, e);
  }

  /** After a save the stored entries are `e` and exactly the old entries of every other date. */
  lemma SaveMembers(s: seq<Entry>, e: Entry)
    requires StrictlyDescending(s)
    ensures forall x :: x in Saved(s, e) <==> x == e || (x in s && x.date != e.date)
  {
    SavedOnStrict(s, e);
    match FindIndex(s, e.date)
    case Some(i) => ReplacedMembers(s, i, e);
    case None => InsertedMembers(s, e);
  }

  /** Overwriting the entry of `e`'s date in a collection with unique dates. */
  lemma ReplacedMembers(s: seq<Entry>, i: nat, e: Entry)
    requires StrictlyDescending(s) && i < |s| && s[i].date == e.date
    ensures forall x :: x in s[i := e] <==> x == e || (x in s && x.date != e.date)
  {
    var r := s[i := e];
    forall x ensures x in r <==> x == e || (x in s && x.date != e.date) {
      if x in s && x.date != e.date {
        var j :| 0 <= j < |s| && s[j] == x;
        assert j != i && r[j] == x;
      }
      if x in r && x != e {
        var j :| 0 <= j < |r| && r[j] == x;
        assert j != i && s[j] == x;
        if j < i { assert s[j].date > s[i].date; } else { assert s[i].date > s[j].date; }
      }
      if x == e { assert r[i] == e; }
    }
  }

  /** Inserting an entry whose date is not yet stored. */
  lemma InsertedMembers(s: seq<Entry>, e: Entry)
    requires !HasDate(s, e.date)
    ensures forall x :: x in InsertByDate(s, e) <==> x == e || (x in s && x.date != e.date)
  {
    var r := InsertByDate(s, e);
    forall x ensures x in r <==> x == e || (x in s && x.date != e.date) {
      assert x in r <==> x in multiset(r);
      if x in s { var j :| 0 <= j < |s| && s[j] == x; }
    }
  }

  /** After a save exactly one stored entry carries the saved date, and it is the saved entry. */
  lemma SaveStoresEntry(s: seq<Entry>, e: Entry)
    requires StrictlyDescending(s)
    ensures Find(Saved(s, e), e.date) == Some(e)
    ensures exists i :: 0 <= i < |Saved(s, e)| && Saved(s, e)[i] == e &&
                        forall j :: 0 <= j < |Saved(s, e)| && j != i ==> Saved(s, e)[j].date != e.date
  {
    SaveMembers(s, e);
    var r := Saved(s, e);
    SaveKeepsStrictOrder(s, e);
    FindInStrict(r, e.date, e);
    var i :| 0 <= i < |r| && r[i] == e;
    assert forall j :: 0 <= j < |r| && j != i ==> r[j].date != e.date by {
      forall j | 0 <= j < |r| && j != i ensures r[j].date != e.date {
        if j < i { assert r[j].date > r[i].date; } else { assert r[i].date > r[j].date; }
      }
    }
  }

  /** A save does not change what is stored under any other date. */
  lemma SaveKeepsOtherDates(s: seq<Entry>, e: Entry, d: int)
    requires StrictlyDescending(s) && d != e.date
    ensures Find(Saved(s, e), d) == Find(s, d)
  {
    var r := Saved(s, e);
    SaveMembers(s, e);
    SaveKeepsStrictOrder(s, e);
    match Find(s, d)
    case Some(x) =>
      FindInStrict(s, d, x);
      FindInStrict(r, d, x);
    case None =>
  }

  /** The collection grows by one exactly when no entry had the saved date before (any collection). */
  lemma SaveLength(s: seq<Entry>, e: Entry)
    ensures |Saved(s, e)| == |s| + (if HasDate(s, e.date) then 0 else 1)
  {
    assert |multiset(Saved(s, e))| == |multiset(Upsert(s, e))|;
  }

  /** Two well-kept collections holding the same entries are the same sequence. */
  lemma {:induction false} StrictWithSameMembersEqual(a: seq<Entry>, b: seq<Entry>)
    requires StrictlyDescending(a) && StrictlyDescending(b)
    requires forall x :: x in a <==> x in b
    ensures a == b
  {
    if a != [] { assert a[0] in a; assert b != []; }
    if b != [] { assert b[0] in b; assert a != []; }
    if a != [] && b != [] {
      SameNewest(a, b);
      forall x ensures x in a[1..] <==> x in b[1..] {
        if x in a[1..] { TailMember(a, b, x); }
        if x in b[1..] { TailMember(b, a, x); }
      }
      StrictWithSameMembersEqual(a[1..], b[1..]);
      assert a == [a[0]] + a[1..] && b == [b[0]] + b[1..];
    }
  }

  /** Two well-kept collections holding the same entries start with the same newest entry. */
  lemma SameNewest(a: seq<Entry>, b: seq<Entry>)
    requires StrictlyDescending(a) && StrictlyDescending(b) && a != [] && b != []
    requires forall x :: x in a <==> x in b
    ensures a[0] == b[0]
  {
    assert a[0] in a && b[0] in b;
    var ka :| 0 <= ka < |b| && b[ka] == a[0];
    var kb :| 0 <= kb < |a| && a[kb] == b[0];
  }

  /** An entry after the shared newest one of `a` is after it in `b` too. */
  lemma TailMember(a: seq<Entry>, b: seq<Entry>, x: Entry)
    requires StrictlyDescending(a) && b != [] && a != [] && a[0] == b[0]
    requires forall y :: y in a ==> y in b
    requires x in a[1..]
    ensures x in b[1..]
  {
    var i :| 0 <= i < |a[1..]| && a[1..][i] == x;
    assert a[0].date > x.date && a[i + 1] == x && x in a;
    var j :| 0 <= j < |b| && b[j] == x;
    assert j != 0 && b[1..][j - 1] == x;
  }

  /** Saving the same entry twice stores it once: the second save changes nothing. */
  lemma SaveIdempotent(s: seq<Entry>, e: Entry)
    requires StrictlyDescending(s)
    ensures Saved(Saved(s, e), e) == Saved(s, e)
  {
    var r := Saved(s, e);
    SaveKeepsStrictOrder(s, e);
    SaveMembers(s, e);
    SaveMembers(r, e);
    SaveKeepsStrictOrder(r, e);
    StrictWithSameMembersEqual(Saved(r, e), r);
  }

  /** Two saves for one date leave what the second save alone would: the later values win. */
  lemma SaveLastWins(s: seq<Entry>, first: Entry, second: Entry)
    requires StrictlyDescending(s) && first.date == second.date
    ensures Saved(Saved(s, first), second) == Saved(s, second)
  {
    var r := Saved(s, first);
    SaveKeepsStrictOrder(s, first);
    SaveMembers(s, first);
    SaveMembers(r, second);
    SaveMembers(s, second);
    SaveKeepsStrictOrder(r, second);
    SaveKeepsStrictOrder(s, second);
    StrictWithSameMembersEqual(Saved(r, second), Saved(s, second));
  }

  // ---------------------------------------------------------------------------
  // getLastNDays as an order-preserving filter
  // ---------------------------------------------------------------------------

  /** `r` is `s` with some elements left out and the rest in their original order. */
  ghost predicate IsSubsequence(r: seq<Entry>, s: seq<Entry>)
    decreases |s|
  {
    if r == [] then true
    else if s == [] then false
    else (r[0] == s[0] && IsSubsequence(r[1..], s[1..])) || IsSubsequence(r, s[1..])
  }

  /** `entries.filter(entry => new Date(entry.date) >= cutoffDate)`, with the cutoff in milliseconds. */
  function OnOrAfter(s: seq<Entry>, cutoffMs: int): (r: seq<Entry>)
    ensures forall x :: x in r <==> x in s && MidnightMs(x.date) >= cutoffMs
    ensures forall x :: multiset(r)[x] == if MidnightMs(x.date) >= cutoffMs then multiset(s)[x] else 0
    ensures IsSubsequence(r, s)
  {
    if s == [] then []
    else
      var rest := OnOrAfter(s[1..], cutoffMs);
      assert s == [s[0]] + s[1..];
      if MidnightMs(s[0].date) >= cutoffMs then
        assert ([s[0]] + rest)[1..] == rest;
        [s[0]] + rest
      else rest
  }

  /**
   * When the clock reads a moment strictly inside day `today`, the window of
   * getLastNDays holds exactly the days after `today - days`: the last `days`
   * days counting today. At midnight exactly, day `today - days` is in it too.
   */
  lemma WindowDays(today: int, nowMs: int, days: int, d: int)
    requires MidnightMs(today) <= nowMs < MidnightMs(today + 1)
    ensures nowMs > MidnightMs(today) ==> (MidnightMs(d) >= nowMs - days * MsPerDay <==> d > today - days)
    ensures nowMs == MidnightMs(today) ==> (MidnightMs(d) >= nowMs - days * MsPerDay <==> d >= today - days)
  {
    if MidnightMs(d) >= nowMs - days * MsPerDay {
      assert (d - (today - days)) * MsPerDay >= nowMs - MidnightMs(today);
    } else {
      assert (d - (today - days)) * MsPerDay < nowMs - MidnightMs(today);
    }
  }

  lemma {:induction false} SubsequenceMembers(r: seq<Entry>, s: seq<Entry>)
    requires IsSubsequence(r, s)
    ensures forall x :: x in r ==> x in s
    decreases |s|
  {
    if r != [] && s != [] {
      if r[0] == s[0] && IsSubsequence(r[1..], s[1..]) {
        SubsequenceMembers(r[1..], s[1..]);
        forall x | x in r ensures x in s {
          if x != r[0] { assert x in r[1..]; assert x in s[1..]; }
        }
      } else {
        SubsequenceMembers(r, s[1..]);
      }
    }
  }

  /** Leaving entries out of a newest-first collection keeps it newest first. */
  lemma {:induction false} SubsequenceKeepsStrict(r: seq<Entry>, s: seq<Entry>)
    requires IsSubsequence(r, s) && StrictlyDescending(s)
    ensures StrictlyDescending(r)
    decreases |s|
  {
    if r != [] && s != [] {
      assert StrictlyDescending(s[1..]) by {
        forall i, j | 0 <= i < j < |s[1..]| ensures s[1..][i].date > s[1..][j].date {
          assert s[1..][i] == s[i + 1] && s[1..][j] == s[j + 1];
        }
      }
      if r[0] == s[0] && IsSubsequence(r[1..], s[1..]) {
        SubsequenceKeepsStrict(r[1..], s[1..]);
        SubsequenceMembers(r[1..], s[1..]);
        forall i, j | 0 <= i < j < |r| ensures r[i].date > r[j].date {
          assert r[j] == r[1..][j - 1] && r[j] in s[1..];
          var k :| 0 <= k < |s[1..]| && s[1..][k] == r[j];
          assert s[k + 1] == r[j];
          if i > 0 { assert r[i] == r[1..][i - 1]; }
        }
      } else {
        SubsequenceKeepsStrict(r, s[1..]);
      }
    }
  }

  // ---------------------------------------------------------------------------
  // The store object
  // ---------------------------------------------------------------------------

  /** StorageManager: the entries held under its storage key, and the operations on them. */
  class EntryStore {
    /** The parsed value of `localStorage[storageKey]`; an absent key is the empty list. */
    var entries: seq<Entry>

    /** The invariant every save keeps: newest first, at most one entry per date. */
    ghost predicate Valid()
      reads this
    {
      StrictlyDescending(entries)
    }

    /** A store over whatever is already persisted (`[]` when nothing is). */
    constructor (stored: seq<Entry>)
      ensures entries == stored
    {
      entries := stored;
    }

    /** getAllEntries: the stored list as it is, newest first when the store is well kept. */
    function GetAllEntries(): (r: seq<Entry>)
      reads this
      ensures |r| == |entries| && forall i :: 0 <= i < |r| ==> r[i] == entries[i]
      ensures Valid() ==> StrictlyDescending(r)
    {
      entries
    }

    /** getEntry: exact lookup by date; `None` stands for `undefined`. */
    function GetEntry(date: int): (r: Option<Entry>)
      reads this
      ensures r.Some? <==> HasDate(entries, date)
      ensures r.Some? ==> r.value in entries && r.value.date == date
      ensures r.Some? ==> exists i :: 0 <= i < |entries| && entries[i] == r.value && forall j :: 0 <= j < i ==> entries[j].date != date
      ensures Valid() ==> forall x :: r == Some(x) <==> x in entries && x.date == date
    {
      var found := Find(entries, date);
      assert Valid() ==> forall x :: found == Some(x) <==> x in entries && x.date == date by {
        if Valid() {
          forall x ensures found == Some(x) <==> x in entries && x.date == date { FindInStrict(entries, date, x); }
        }
      }
      found
    }

    /**
     * saveEntry: overwrite the first entry with the same date or push the new one,
     * then sort newest first and write the list back.
     */
    method SaveEntry(entry: Entry)
      modifies this
      ensures entries == Saved(old(entries), entry)
      ensures old(Valid()) ==> Valid()
    {
      ghost var before := entries;
      var index := FindIndex(entries, entry.date);
      if index.Some? {
        entries := entries[index.value := entry];
      } else {
        entries := entries + [entry];
      }
      entries := SortByDate(entries);
      if StrictlyDescending(before) { SaveKeepsStrictOrder(before, entry); }
    }

    /**
     * getLastNDays: the stored entries whose date, read as midnight UTC, is no
     * earlier than the clock reading `nowMs` less `days` days, in stored order.
     */
    function GetLastNDays(nowMs: int, days: int): (r: seq<Entry>)
      reads this
      ensures forall x :: x in r <==> x in entries && MidnightMs(x.date) >= nowMs - days * MsPerDay
      ensures forall x :: multiset(r)[x] == if MidnightMs(x.date) >= nowMs - days * MsPerDay then multiset(entries)[x] else 0
      ensures IsSubsequence(r, entries)
      ensures Valid() ==> StrictlyDescending(r)
    {
      var window := OnOrAfter(entries, nowMs - days * MsPerDay);
      assert Valid() ==> StrictlyDescending(window) by {
        if Valid() { SubsequenceKeepsStrict(window, entries); }
      }
      window
    }

    /**
     * calculateStreak: walk back from `today` while each day has an entry, for at
     * most MaxStreakDays steps. The result is the length of the run of recorded
     * days ending today, capped at MaxStreakDays.
     */
    method CalculateStreak(today: int) returns (streak: nat)
      ensures streak <= MaxStreakDays
      ensures entries == [] ==> streak == 0
      ensures forall d :: today - streak < d <= today ==> HasDate(entries, d)
      ensures streak < MaxStreakDays ==> !HasDate(entries, today - streak)
    {
      if |entries| == 0 {
        return 0;
      }
      streak := 0;
      var currentDate := today;
      var i := 0;
      while i < MaxStreakDays
        invariant 0 <= i <= MaxStreakDays
        invariant streak == i && currentDate == today - i
        invariant forall d :: today - streak < d <= today ==> HasDate(entries, d)
      {
        if Find(entries, currentDate).Some? {
          streak := streak + 1;
        } else {
          break;
        }
        currentDate := currentDate - 1;
        i := i + 1;
      }
    }
  }
}
