/**
 * The categorisation rules of app.js: the five mood faces (HistoryView.getMoodEmoji
 * and the slider highlight in UIManager.updateMoodValue), the stress label tables,
 * and the choice of a wellness suggestion (UIManager.showWellnessSuggestion).
 */
module Moods {
  import opened Wrappers

  /** The five mood faces in slider order, saddest first. */
  const MoodFaces: seq<string> := ["😢", "😟", "😐", "🙂", "😊"]

  /** `x` held within `lo..hi`: the closed form the slider thresholds are checked against. */
  function Clamp(x: int, lo: int, hi: int): int
    requires lo <= hi
  {
    if x < lo then lo else if x > hi then hi else x
  }

  /** getMoodEmoji: the face for a mood value, by the thresholds 2, 4, 6 and 8. */
  function MoodEmoji(mood: int): (face: string)
    ensures face in MoodFaces
  {
    if mood <= 2 then "😢"
    else if mood <= 4 then "😟"
    else if mood <= 6 then "😐"
    else if mood <= 8 then "🙂"
    else "😊"
  }

  /**
   * updateMoodValue: the position (0..4) of the face that gets the `selected` class.
   * Every two slider steps move one face, so the position is (value - 1) / 2 held to 0..4.
   */
  function SliderHighlight(value: int): (i: nat)
    ensures i < |MoodFaces|
    ensures i == Clamp((value - 1) / 2, 0, 4)
  {
    if value <= 2 then 0
    else if value <= 4 then 1
    else if value <= 6 then 2
    else if value <= 8 then 3
    else 4
  }

  /** The history face and the slider highlight use the same buckets. */
  lemma EmojiMatchesHighlight(mood: int)
    ensures MoodEmoji(mood) == MoodFaces[SliderHighlight(mood)]
  {
  }

  /** The buckets are ordered: a higher mood never lands in a sadder bucket. */
  lemma MoodBucketsMonotone(a: int, b: int)
    requires a <= b
    ensures SliderHighlight(a) <= SliderHighlight(b)
  {
  }

  /** The five faces are pairwise distinct, so the face determines the bucket. */
  lemma MoodFacesDistinct(a: int, b: int)
    ensures MoodEmoji(a) == MoodEmoji(b) <==> SliderHighlight(a) == SliderHighlight(b)
  {
    EmojiMatchesHighlight(a);
    EmojiMatchesHighlight(b);
  }

  // ---------------------------------------------------------------------------
  // Stress labels
  // ---------------------------------------------------------------------------

  /** The tick labels of the stress chart axis, indexed by stress level. */
  const StressTicks: seq<string> := ["", "Low", "Moderate", "High", "Very High"]

  /** The labels shown on a history card, indexed by stress level. */
  const StressBadges: seq<string> := ["", "Low 😌", "Moderate 😐", "High 😰", "Very High 😱"]

  /** JavaScript array indexing: `undefined` (here `None`) outside the array. */
  function Lookup(table: seq<string>, index: int): (r: Option<string>)
    ensures r.Some? <==> 0 <= index < |table|
    ensures r.Some? ==> r.value == table[index]
  {
    if 0 <= index < |table| then Some(table[index]) else None
  }

  /** The label for a stress level on the chart axis. */
  function StressTick(level: int): (r: Option<string>)
    ensures 1 <= level <= 4 ==> r.Some? && r.value != ""
    ensures r.Some? <==> 0 <= level <= 4
  {
    Lookup(StressTicks, level)
  }

  /** The label for a stress level on a history card. */
  function StressBadge(level: int): (r: Option<string>)
    ensures 1 <= level <= 4 ==> r.Some? && r.value != ""
    ensures r.Some? <==> 0 <= level <= 4
  {
    Lookup(StressBadges, level)
  }

  /** The two tables agree: each card label is the axis label followed by a space and a face. */
  lemma BadgeExtendsTick(level: int)
    requires 1 <= level <= 4
    ensures StressTick(level).value + " " <= StressBadge(level).value
    ensures |StressBadge(level).value| == |StressTick(level).value| + 2
  {
  }

  /** Distinct levels 1..4 get distinct labels in both tables. */
  lemma StressLabelsDistinct(a: int, b: int)
    requires 1 <= a <= 4 && 1 <= b <= 4 && a != b
    ensures StressTick(a) != StressTick(b) && StressBadge(a) != StressBadge(b)
  {
  }

  // ---------------------------------------------------------------------------
  // Wellness suggestion
  // ---------------------------------------------------------------------------

  /** The three suggestion pools. */
  datatype Category = Low | Moderate | High

  /** The category of showWellnessSuggestion: low up to 3, high from 7, moderate between. */
  function SuggestionCategory(mood: int): (c: Category)
    ensures c == Low <==> mood <= 3
    ensures c == High <==> mood >= 7
    ensures c == Moderate <==> 3 < mood < 7
  {
    if mood <= 3 then Low
    else if mood >= 7 then High
    else Moderate
  }

  /** The fixed messages of each category. */
  const LowMoodMessages: seq<string> := [
    "💪 Try some light exercise or a short walk to boost your mood.",
    "🧘 Consider a short meditation session (even 5 minutes helps!).",
    "👥 Reach out to a friend - social connection is healing.",
    "🎨 Engage in a hobby or creative activity you enjoy."]

  const ModerateMoodMessages: seq<string> := [
    "🕐 Take a break from screens and get some fresh air.",
    "📚 Try journaling to process your thoughts and feelings.",
    "🎵 Listen to music that uplifts you.",
    "✨ Practice gratitude - list 3 things you're grateful for."]

  const HighMoodMessages: seq<string> := [
    "🧘 Practice deep breathing or meditation to calm your mind.",
    "💤 Prioritize getting good sleep tonight.",
    "🌿 Spend time in nature if possible.",
    "📞 Consider talking to someone you trust about what's bothering you."]

  function Pool(c: Category): (messages: seq<string>)
    ensures |messages| == 4
  {
    match c
    case Low => LowMoodMessages
    case Moderate => ModerateMoodMessages
    case High => HighMoodMessages
  }

  /** `Math.floor(u * n)` for a draw `u` of `Math.random()`: always a valid index. */
  function PickIndex(u: real, n: nat): (i: nat)
    requires 0.0 <= u < 1.0 && 0 < n
    ensures i < n
    ensures i as real <= u * n as real < i as real + 1.0
  {
    var x := u * n as real;
    assert 0.0 <= x < n as real;
    x.Floor
  }

  /** The message shown after a save, for the mood saved and the random draw `u`. */
  function Suggestion(mood: int, u: real): (message: string)
    requires 0.0 <= u < 1.0
    ensures message in Pool(SuggestionCategory(mood))
  {
    var pool := Pool(SuggestionCategory(mood));
    pool[PickIndex(u, |pool|)]
  }
}
