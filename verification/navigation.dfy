/** Moving between the three views: the chapter list (home), one chapter
    (surah) and one verse. Fetch responses are opaque: `S` is a loaded
    chapter, `V` a loaded verse. None stands for a fetch that throws, for
    a chapter response whose HTTP status is not ok, and for a verse body that
    does not parse; the verse fetch has no status check, so an HTTP error
    with a JSON body is a loaded verse. */
module Navigation {
  import opened Wrappers

  datatype View = Home | SurahView | VerseView

  datatype NavState<S, V> = NavState(
    view: View,
    selectedSurah: Option<int>,
    selectedVerse: Option<V>,
    surahData: Option<S>)

  /** The state at mount. */
  function Initial<S, V>(): NavState<S, V> {
    NavState(Home, None, None, None)
  }

  /** `goHome`: back to the list, forgetting the chapter, the verse and
      the chapter's data. */
  function GoHome<S, V>(s: NavState<S, V>): (r: NavState<S, V>)
    ensures r.view == Home
    ensures r.selectedSurah.None? && r.selectedVerse.None? && r.surahData.None?
  {
    NavState(Home, None, None, None)
  }

  /** `goBackToSurah`: back to the chapter view, forgetting only the
      verse. */
  function GoBackToSurah<S, V>(s: NavState<S, V>): (r: NavState<S, V>)
    ensures r.view == SurahView && r.selectedVerse.None?
    ensures r.selectedSurah == s.selectedSurah && r.surahData == s.surahData
  {
    s.(view := SurahView, selectedVerse := None)
  }

  /** The state updates after fetching chapter `n`: a loaded chapter opens
      the chapter view on it; a fetch that throws or returns a status that
      is not ok changes nothing. */
  function OpenSurah<S, V>(s: NavState<S, V>, n: int, response: Option<S>): (r: NavState<S, V>)
    ensures response.None? ==> r == s
    ensures response.Some? ==>
      r.view == SurahView && r.selectedSurah == Some(n) && r.surahData == response
      && r.selectedVerse == s.selectedVerse
  {
    match response
    case None => s
    case Some(d) => s.(view := SurahView, selectedSurah := Some(n), surahData := Some(d))
  }

  /** The state updates after fetching a verse: a response body that parses
      opens the verse view on it, keeping the chapter, even when its HTTP
      status is an error; a fetch that throws or a body that does not parse
      changes nothing. */
  function OpenVerse<S, V>(s: NavState<S, V>, response: Option<V>): (r: NavState<S, V>)
    ensures response.None? ==> r == s
    ensures response.Some? ==>
      r.view == VerseView && r.selectedVerse == response
      && r.selectedSurah == s.selectedSurah && r.surahData == s.surahData
  {
    match response
    case None => s
    case Some(v) => s.(view := VerseView, selectedVerse := Some(v))
  }

  /** What the user can do, one event per completed interaction. */
  datatype NavEvent<S, V> =
    | ClickHome
    | ClickBackToSurah
    | SurahLoaded(surahNo: int, surahResponse: Option<S>)
    | VerseLoaded(verseResponse: Option<V>)

  /** Whether the button behind the event is on screen: the logo is always
      there, "Back to Surah" only in the verse view with a chapter selected
      (a JavaScript truth test, so chapter number 0 counts as none),
      chapter cards only in the list, verse cards only in the chapter view
      once its data is loaded. */
  function Enabled<S, V>(s: NavState<S, V>, e: NavEvent<S, V>): (b: bool)
    ensures e.ClickHome? ==> b
    ensures s.view == Home && e.SurahLoaded? ==> b
    ensures s.view == SurahView && s.surahData.Some? && e.VerseLoaded? ==> b
    ensures s.view == VerseView && s.selectedSurah.Some? && e.ClickBackToSurah? ==>
      (b <==> s.selectedSurah.value != 0)
    ensures WellFormed(s) && b && e.ClickBackToSurah? ==>
      s.selectedSurah.Some? && s.surahData.Some? && s.selectedVerse.Some?
    ensures WellFormed(s) && b && e.VerseLoaded? ==> s.surahData.Some? && s.selectedVerse.None?
    ensures b && e.SurahLoaded? ==> s.view == Home
    ensures b && e.ClickBackToSurah? ==> s.selectedSurah != Some(0)
  {
    match e
    case ClickHome => true
    case ClickBackToSurah => s.view == VerseView && s.selectedSurah.Some? && s.selectedSurah.value != 0
    case SurahLoaded(_, _) => s.view == Home
    case VerseLoaded(_) => s.view == SurahView && s.surahData.Some?
  }

  function Step<S, V>(s: NavState<S, V>, e: NavEvent<S, V>): NavState<S, V> {
    match e
    case ClickHome => GoHome(s)
    case ClickBackToSurah => GoBackToSurah(s)
    case SurahLoaded(n, d) => OpenSurah(s, n, d)
    case VerseLoaded(v) => OpenVerse(s, v)
  }

  /** The shape every reachable state has: the list view selects nothing,
      the chapter view has its chapter and data but no verse, the verse
      view has all three. */
  predicate WellFormed<S, V>(s: NavState<S, V>) {
    match s.view
    case Home => s.selectedSurah.None? && s.selectedVerse.None? && s.surahData.None?
    case SurahView => s.selectedSurah.Some? && s.surahData.Some? && s.selectedVerse.None?
    case VerseView => s.selectedSurah.Some? && s.surahData.Some? && s.selectedVerse.Some?
  }

  /** Every enabled event keeps the state well formed. */
  lemma StepPreservesWellFormed<S, V>(s: NavState<S, V>, e: NavEvent<S, V>)
    requires WellFormed(s) && Enabled(s, e)
    ensures WellFormed(Step(s, e))
  {
  }

  /** Applies a sequence of events, each of which must be enabled when it
      happens; None when one is not. */
  function Run<S, V>(s: NavState<S, V>, events: seq<NavEvent<S, V>>): Option<NavState<S, V>>
    decreases |events|
  {
    if |events| == 0 then Some(s)
    else if !Enabled(s, events[0]) then None
    else Run(Step(s, events[0]), events[1..])
  }

  /** Whatever the user does from mount on, the state stays well formed. */
  lemma {:induction false} RunPreservesWellFormed<S, V>(s: NavState<S, V>, events: seq<NavEvent<S, V>>)
    requires WellFormed(s)
    ensures Run(s, events).Some? ==> WellFormed(Run(s, events).value)
    decreases |events|
  {
    if |events| > 0 && Enabled(s, events[0]) {
      StepPreservesWellFormed(s, events[0]);
      RunPreservesWellFormed(Step(s, events[0]), events[1..]);
    }
  }

  /** The initial state is well formed, so every reachable state is. */
  lemma ReachableStatesWellFormed<S, V>(events: seq<NavEvent<S, V>>)
    ensures Run(Initial(), events).Some? ==> WellFormed(Run(Initial(), events).value)
  {
    RunPreservesWellFormed(Initial(), events);
  }

  /** The one-at-a-time reading above checks a guard when a fetch
      completes, not when its card was clicked. A verse response that
      arrives after the user has gone home opens the verse view with no
      chapter behind it: the state is not well formed, and `Enabled`
      excludes exactly this event. */
  lemma LateVerseResponseAfterGoingHome<S, V>(s: NavState<S, V>, v: V)
    ensures var r := OpenVerse(GoHome(s), Some(v));
      r.view == VerseView && r.selectedSurah.None? && r.surahData.None? && !WellFormed(r)
    ensures !Enabled(GoHome(s), VerseLoaded(Some(v)))
  {
  }

  /** Every view is reachable from mount: opening a chapter and then one
      of its verses leads to the verse view, and "Back to Surah" leads on
      to the chapter view, except for chapter number 0, which the truth
      test hides. */
  lemma OpenChapterVerseAndBack<S, V>(n: int, d: S, v: V)
    ensures Run(Initial(), [SurahLoaded(n, Some(d)), VerseLoaded(Some(v))])
         == Some(NavState(VerseView, Some(n), Some(v), Some(d)))
    ensures n != 0 ==>
      Run(Initial(), [SurahLoaded(n, Some(d)), VerseLoaded(Some(v)), ClickBackToSurah])
      == Some(NavState(SurahView, Some(n), None, Some(d)))
    ensures n == 0 ==>
      Run(Initial(), [SurahLoaded(n, Some(d)), VerseLoaded(Some(v)), ClickBackToSurah]).None?
  {
    var s1: NavState<S, V> := NavState(SurahView, Some(n), None, Some(d));
    var s2 := NavState(VerseView, Some(n), Some(v), Some(d));
    assert Run(s1, [VerseLoaded(Some(v))]) == Some(s2);
    assert Run(s1, [VerseLoaded(Some(v)), ClickBackToSurah]) == Run(s2, [ClickBackToSurah]);
  }

  /** From the chapter view, opening a verse and going back returns to
      exactly the chapter view left. */
  lemma BackUndoesOpenVerse<S, V>(s: NavState<S, V>, v: V)
    requires WellFormed(s) && s.view == SurahView
    ensures GoBackToSurah(OpenVerse(s, Some(v))) == s
  {
  }

  /** Going home from anywhere gives the state at mount, so pressing it
      again changes nothing. */
  lemma GoHomeResets<S, V>(s: NavState<S, V>)
    ensures GoHome(s) == Initial()
    ensures GoHome(GoHome(s)) == GoHome(s)
  {
  }
}
