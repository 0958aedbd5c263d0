/** CheckInView.handleSubmit of app.js: validating the form and saving the entry it describes. */
module CheckIn {
  import opened Wrappers
  import opened Entries
  import opened Store

  /** The form fields handleSubmit reads. */
  datatype CheckInForm = CheckInForm(
    mood: int,                 // parseInt of the slider value
    sleepInput: Option<real>,  // parseFloat of the sleep field; None when it is not a number
    stress: Option<int>,       // data-stress of the selected button; None when none is selected
    journal: string,
    activities: seq<string>)   // values of the checked tag boxes, in page order

  /** The one check handleSubmit makes. */
  datatype ValidationError = MissingStress

  /**
   * The entry handleSubmit builds for `today` at time `now`, or the validation
   * failure when no stress level is selected. `parseFloat(...) || 0` turns NaN
   * (and 0) into 0.
   */
  function BuildEntry(form: CheckInForm, today: int, now: string): (r: Result<Entry, ValidationError>)
    ensures r.Err? <==> form.stress.None?
    ensures r.Ok? ==> r.value.date == today && r.value.timestamp == now
    ensures r.Ok? ==> r.value.mood == form.mood && Some(r.value.stress) == form.stress
    ensures r.Ok? ==> r.value.journal == form.journal && r.value.activities == form.activities
    ensures r.Ok? ==> r.value.sleep == (if form.sleepInput.Some? then form.sleepInput.value else 0.0)
  {
    match form.stress
    case None => Err(MissingStress)
    case Some(level) =>
      var sleep := match form.sleepInput { case Some(hours) => hours case None => 0.0 };
      Ok(Entry(today, form.mood, sleep, level, form.journal, form.activities, now))
  }

  /**
   * handleSubmit: refuse when no stress level is selected, leaving the store as it
   * was; otherwise save today's entry.
   */
  method HandleSubmit(store: EntryStore, form: CheckInForm, today: int, now: string)
    returns (outcome: Result<Entry, ValidationError>)
    modifies store
    ensures outcome == BuildEntry(form, today, now)
    ensures outcome.Err? ==> store.entries == old(store.entries)
    ensures outcome.Ok? ==> store.entries == Saved(old(store.entries), outcome.value)
    ensures old(store.Valid()) ==> store.Valid()
  {
    outcome := BuildEntry(form, today, now);
    if outcome.Err? {
      return;
    }
    store.SaveEntry(outcome.value);
  }
}
