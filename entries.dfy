/**
 * The journal entry record and the lookups on a collection of entries
 * (StorageManager.getEntry and the findIndex inside saveEntry in app.js).
 *
 * A calendar date `YYYY-MM-DD` is modelled as an integer day number: a later
 * day has a larger number and "one day earlier" is `d - 1`.
 */
module Entries {
  import opened Wrappers

  /** One day's record as saveEntry stores it: the fields of the object built by handleSubmit. */
  datatype Entry = Entry(
    date: int,                 // the primary key
    mood: int,                 // slider value, 1..10 in the UI
    sleep: real,               // parseFloat of the sleep input, or 0
    stress: int,               // data-stress of the selected button, 1..4 in the UI
    journal: string,
    activities: seq<string>,   // values of the checked tag boxes, in page order
    timestamp: string)         // toISOString of the save time, kept opaque

  /** Newest first, equal dates allowed: what the stable sort in saveEntry produces. */
  ghost predicate NonIncreasing(s: seq<Entry>) {
    forall i, j :: 0 <= i < j < |s| ==> s[i].date >= s[j].date
  }

  /** Newest first with no two entries on one date: the invariant of the stored collection. */
  ghost predicate StrictlyDescending(s: seq<Entry>) {
    forall i, j :: 0 <= i < j < |s| ==> s[i].date > s[j].date
  }

  /** Some entry of `s` is dated `d`. */
  ghost predicate HasDate(s: seq<Entry>, d: int) {
    exists i :: 0 <= i < |s| && s[i].date == d
  }

  /** `Array.prototype.findIndex` with the predicate `e.date === d`: the first position dated `d`, if any. */
  function FindIndex(s: seq<Entry>, d: int): (r: Option<nat>)
    ensures r.Some? ==> r.value < |s| && s[r.value].date == d
    ensures r.Some? ==> forall j :: 0 <= j < r.value ==> s[j].date != d
    ensures r.None? <==> !HasDate(s, d)
  {
    if s == [] then None
    else if s[0].date == d then Some(0)
    else match FindIndex(s[1..], d)
      case None => None
      case Some(k) => Some(k + 1)
  }

  /** `Array.prototype.find` with the same predicate: the first entry dated `d`, if any. */
  function Find(s: seq<Entry>, d: int): (r: Option<Entry>)
    ensures r.Some? <==> HasDate(s, d)
    ensures r.Some? ==> r.value in s && r.value.date == d
    ensures r.Some? ==> exists i :: 0 <= i < |s| && s[i] == r.value && forall j :: 0 <= j < i ==> s[j].date != d
  {
    match FindIndex(s, d)
      case None => None
      case Some(i) => Some(s[i])
  }

  /** In a strictly descending collection the lookup is exact: it finds `x` iff `x` is stored under `d`. */
  lemma FindInStrict(s: seq<Entry>, d: int, x: Entry)
    requires StrictlyDescending(s)
    ensures Find(s, d) == Some(x) <==> x in s && x.date == d
  {
    if x in s && x.date == d {
      var j :| 0 <= j < |s| && s[j] == x;
      assert s[j].date == d;
      var r := Find(s, d);
      assert r.Some? && r.value.date == d;
      var i :| 0 <= i < |s| && s[i] == r.value && forall k :: 0 <= k < i ==> s[k].date != d;
    }
  }
}
