# Quran Explorer — a Dafny model of the explorer component's logic

Quran Explorer is a single-page browser application. It lists the 114
chapters (surahs), shows one chapter's verses or a single verse, and plays
recitations. All of its logic sits in one React component,
`src/components/QuranExplorer.js`. This project takes out the parts of that
component that are logic rather than fetching or rendering, and models them
as pure Dafny functions with proved properties:

- **Chapter numbering.** The chapter list from the API carries no numbers.
  Each entry gets `surahNo = index + 1`.
- **The chapter-list filter.** There is a search gate and then a category
  test. The gate checks the lower-cased English name, the verbatim Arabic
  name and the decimal chapter number. The category is all, Meccan, Medinan
  (spelled "Madina" in the data) or one juz, looked up in a constant table.
- **The bismillah rule.** Chapters 1 and 9 get no opening formula.
- **The audio toggle.** This covers `playAudio` and the `<audio>` element's
  `ended`, `pause` and `play` events.
- **View navigation.** This covers `goHome`, `goBackToSurah` and the state
  updates made when a chapter or a verse has been fetched.

Modules (one file each): `Wrappers` (Option), `Text` (`includes`,
`toLowerCase`, `toString` on naturals), `Chapters` (records and numbering),
`Juz` (the juz table), `ChapterFilter`, `Bismillah`, `Audio`, `Navigation`.

## Model

| member | source | states |
|---|---|---|
| Chapters.NumberFrom | src/components/QuranExplorer.js:32-35 | numbering from `start` keeps every entry's API fields and gives entry `i` the number `start + i` |
| Chapters.Number | src/components/QuranExplorer.js:31-35 | the stored list has the API list's length; entry `i` is the API entry `i` with `surahNo = i + 1` |
| Chapters.UnnumberNumber | src/components/QuranExplorer.js:32-35 | numbering adds the number and nothing else: dropping the numbers gives back the API list |
| Chapters.NumbersDistinct | src/components/QuranExplorer.js:34 | no two entries of the numbered list share a number |
| Text.ContainsIff | src/components/QuranExplorer.js:138-140 | the recursive `includes` holds exactly when some window of the string equals the query (both directions) |
| Text.Contains | src/components/QuranExplorer.js:138-140 | `includes`: every string includes the empty string, a longer query is never included, and a query of the string's own length is included only when equal |
| Text.LowerChar | src/components/QuranExplorer.js:138 | lower-casing one character leaves no ASCII capital, keeps every other character, and shifts a capital to its small letter |
| Text.Lower | src/components/QuranExplorer.js:138 | the model's ASCII lowering keeps the length and lower-cases character by character |
| Text.LowerPreservesContains | src/components/QuranExplorer.js:138 | if `t` occurs in `s`, the lower-cased `t` occurs in the lower-cased `s`; this is what lets a narrower query keep matching the English name |
| Text.LowerIdempotent | src/components/QuranExplorer.js:138 | lower-casing twice is lower-casing once |
| Text.DecimalString | src/components/QuranExplorer.js:140 | `toString` of a natural is a non-empty run of digits that starts with '0' only for 0 |
| Text.ParseDecimalString | src/components/QuranExplorer.js:140 | the numeral of `n` reads back as `n` |
| Text.DecimalStringInjective | src/components/QuranExplorer.js:140 | distinct chapter numbers have distinct numerals |
| ChapterFilter.MatchesSearch | src/components/QuranExplorer.js:137-140 | the search gate passes an empty query, and any query occurring in the chapter's numeral or verbatim in its Arabic name; with both names missing, only a query occurring in the numeral passes |
| ChapterFilter.MatchesSearchOnlyIf | src/components/QuranExplorer.js:137-140 | a non-empty query passes the gate only if, lower-cased, it occurs in the lower-cased English name, or it occurs verbatim in the Arabic name, or in the numeral; a missing name matches nothing |
| ChapterFilter.EnglishNameAnyCase | src/components/QuranExplorer.js:138 | a query that differs only in letter case from a part of the English name finds the chapter |
| ChapterFilter.Keep | src/components/QuranExplorer.js:135-152 | the early-return callback keeps a chapter iff it passes the search gate and its category test; failing the gate excludes it in every category |
| ChapterFilter.Filter | src/components/QuranExplorer.js:135-152 | the displayed list is an order-preserving subsequence of the chapter list and every chapter in it is kept |
| ChapterFilter.FilterCounts | src/components/QuranExplorer.js:135-152 | every kept chapter appears as often as in the chapter list, and no other chapter appears |
| ChapterFilter.FilterAllKept | src/components/QuranExplorer.js:135-152 | a list whose chapters are all kept is shown unchanged |
| ChapterFilter.FilterIdempotent | src/components/QuranExplorer.js:135-152 | filtering the displayed list again with the same inputs returns it unchanged |
| ChapterFilter.EmptyQueryAllKeepsEverything | src/components/QuranExplorer.js:137-151 | an empty search box with "All Surahs" shows every chapter in list order |
| ChapterFilter.CategoryGuarantees | src/components/QuranExplorer.js:142-149 | every shown chapter passes the gate; under Meccan its place is "Mecca", under Medinan it is "Madina", under a juz its number is in that juz's entry |
| ChapterFilter.MissingJuzKeepsNothing | src/components/QuranExplorer.js:149 | a juz the table does not have shows an empty list |
| ChapterFilter.SearchGateMonotone | src/components/QuranExplorer.js:137-140 | a chapter matching a query also matches every substring of that query |
| ChapterFilter.FilterMonotone | src/components/QuranExplorer.js:135-152 | a stricter keep test shows a subsequence of what a laxer one shows |
| ChapterFilter.NarrowingSearchNarrowsList | src/components/QuranExplorer.js:137-142 | typing more text (the old text being a substring of the new) only removes chapters from the list and never reorders it |
| ChapterFilter.SearchByNumberFindsChapter | src/components/QuranExplorer.js:140 | searching for a chapter's own number shows that chapter in any category that admits it |
| ChapterFilter.KeepByJuzWithEmptySearch | src/components/QuranExplorer.js:149 | with an empty search, the juz filter keeps a chapter iff the juz's entry lists its number |
| ChapterFilter.FilterByNumbersFrom | src/components/QuranExplorer.js:135-152 | filtering a numbered list by number membership shows, in ascending order, the numbers of the range that the entry lists |
| ChapterFilter.JuzFilterListsTable | src/components/QuranExplorer.js:123-149 | over the full list of 114 chapters with an empty search, juz j shows exactly the chapters of its table entry, in table order |
| Juz.JuzEntry | src/components/QuranExplorer.js:123-132 | the table has an entry exactly for the keys 1..30; other keys read as missing |
| Juz.JuzIncludes | src/components/QuranExplorer.js:149 | `juzMapping[j]?.includes(n)` is false for any key outside 1..30, and for a key 1..30 holds exactly when that key's row lists n |
| Juz.JuzOptions | src/components/QuranExplorer.js:317-321 | the selector offers 1..30 in order |
| Juz.TableWellFormed | src/components/QuranExplorer.js:123-132 | every table entry is non-empty, names only chapters 1..114 and is strictly ascending |
| Juz.EntryWellFormedAt | src/components/QuranExplorer.js:123-132 | the entry of every juz from 1 to 30 exists and is well formed |
| Juz.SelectorOptionsHaveEntries | src/components/QuranExplorer.js:317-321 | every juz the selector offers has a non-empty entry whose numbers lie in 1..114 |
| Juz.AdjacentIncreasingIsStrict | src/components/QuranExplorer.js:123-132 | an entry that ascends step by step ascends between any two positions |
| Juz.EntryStrictlyIncreasing | src/components/QuranExplorer.js:123-132 | every juz entry 1..30 lists its chapters in strictly ascending order, so none twice |
| Juz.SelectInAscending | src/components/QuranExplorer.js:123-132 | selecting a range from an entry that ascends step by step and lies inside the range gives the entry back, in its own order |
| Juz.SelectInTakesHead | src/components/QuranExplorer.js:123-132 | an entry starting at the low end of the range selects that number first and the rest of the entry after it |
| Juz.SelectInSkipsLow | src/components/QuranExplorer.js:123-132 | an entry starting above the low end of the range does not select it |
| Juz.SelectChaptersOfEntry | src/components/QuranExplorer.js:123-132 | selecting chapters 1..114 from a well-formed entry gives the entry back |
| Bismillah.GetBismillah | src/components/QuranExplorer.js:163-166 | no formula exactly for chapters 1 and 9; otherwise the fixed formula |
| Bismillah.BismillahOverNumberedList | src/components/QuranExplorer.js:163-166 | over the numbered list, only the first and the ninth entries lack the formula |
| Bismillah.BismillahIsOneText | src/components/QuranExplorer.js:163-166 | every chapter that shows the formula shows the same text |
| Audio.PlayAudio | src/components/QuranExplorer.js:108-120 | no element: nothing changes; otherwise the element ends up holding `url`, and playback stops exactly when that URL was loaded and playing; when it plays, `url` is current; a pause leaves the current URL alone |
| Audio.Ended | src/components/QuranExplorer.js:197-200 | `ended` stops playback and clears the current URL |
| Audio.Paused | src/components/QuranExplorer.js:201 | `pause` stops playback and changes nothing else |
| Audio.Played | src/components/QuranExplorer.js:202 | `play` marks playback and changes nothing else |
| Audio.ShowsPause | src/components/QuranExplorer.js:426 | a button shows "Pause" exactly when playback is on and its URL is current (both directions); in a consistent state the element then holds that URL |
| Audio.MountedConsistent | src/components/QuranExplorer.js:195-205 | the state right after mounting (element with no source, not playing, no current URL) is consistent |
| Audio.ConsistentPreserved | src/components/QuranExplorer.js:108-120 | while playing, the element holds the current URL; the toggle and the `ended` and `pause` events keep this true |
| Audio.ToggleFlipsButton | src/components/QuranExplorer.js:108-120 | in a consistent state, pressing a play button flips that button between "Play" and "Pause" |
| Audio.PressTwiceRestoresButton | src/components/QuranExplorer.js:108-120 | pressing the same button twice restores its label; from "Play" it leaves its URL loaded, current and paused |
| Audio.SwitchingTracks | src/components/QuranExplorer.js:108-120 | pressing a second button while the first plays switches the element to it, and only the second button shows "Pause" |
| Audio.EchoedEventsChangeNothing | src/components/QuranExplorer.js:197-202 | the `play`/`pause` events that answer the toggle's own `play()`/`pause()` calls leave the state as the toggle set it |
| Navigation.GoHome | src/components/QuranExplorer.js:168-173 | the view becomes the list, and the selected chapter, the selected verse and the chapter data are cleared |
| Navigation.GoBackToSurah | src/components/QuranExplorer.js:175-178 | the view becomes the chapter view, only the verse is cleared, and the chapter and its data are unchanged |
| Navigation.OpenSurah | src/components/QuranExplorer.js:76-78 | a loaded chapter opens the chapter view on it; a failed fetch changes nothing |
| Navigation.OpenVerse | src/components/QuranExplorer.js:98-99 | a loaded verse opens the verse view and keeps the chapter; a failed fetch changes nothing |
| Navigation.Enabled | src/components/QuranExplorer.js:210-463 | the logo is always on screen; chapter cards are on screen in the list view (256-359) and only there; verse cards are on screen in the chapter view once its data is loaded (388-463); "Back to Surah" shows in the verse view exactly when the selected chapter number is truthy, so not for 0 (229); in a well-formed state Back needs a chapter and its data, and a verse card needs a chapter view with no verse open |
| Navigation.OpenChapterVerseAndBack | src/components/QuranExplorer.js:229-236 | from mount, opening a chapter and one of its verses reaches the verse view, and "Back to Surah" then reaches the chapter view; for chapter number 0 the button is hidden |
| Navigation.StepPreservesWellFormed | src/components/QuranExplorer.js:168-178 | every event whose button is on screen keeps the state well formed: the list selects nothing, the chapter view has no verse, the verse view has all three |
| Navigation.RunPreservesWellFormed | src/components/QuranExplorer.js:168-178 | any sequence of enabled events keeps the state well formed |
| Navigation.ReachableStatesWellFormed | src/components/QuranExplorer.js:168-178 | every state reachable from mount is well formed |
| Navigation.LateVerseResponseAfterGoingHome | src/components/QuranExplorer.js:98-99 | a verse response arriving after going home opens the verse view with no chapter or data behind it, a state that is not well formed and that the guard rules out |
| Navigation.BackUndoesOpenVerse | src/components/QuranExplorer.js:175-178 | opening a verse from the chapter view and going back restores that chapter view exactly |
| Navigation.GoHomeResets | src/components/QuranExplorer.js:168-173 | going home from anywhere gives the state at mount, so going home is idempotent |

## Left out

- Network access: the three `fetch` calls and their error handling are not modelled. A fetch result is an opaque value. The field mapping of the responses (`arabic1 || arabic2`, `english` as translation) is also left out.
- Navigation.OpenSurah: `None` stands for a fetch that throws or whose HTTP status is not ok (lines 65-67); either leaves the state unchanged.
- Navigation.OpenVerse: `None` stands only for a fetch that throws or a body that does not parse. The verse fetch has no status check (lines 90-91), so an HTTP error whose body parses as JSON is a `Some` and opens the verse view on that error body.
- Concurrency: the model ignores races between overlapping fetches and the `loading`/`verseLoading` flags. Each navigation event is applied whole, in the order it completes.
- Navigation.ReachableStatesWellFormed: a fetch's guard is checked when its response completes, not when its card was clicked. A response that arrives after the user has navigated away is therefore excluded, for example a verse arriving after going home. In the component that trace opens the verse view with no chapter behind it (Navigation.LateVerseResponseAfterGoingHome). The invariant covers only traces in which each response arrives while its view is still shown.
- Browser side effects: the scroll listener, `scrollTo` and the scroll-to-top threshold are not modelled.
- Media playback: the `<audio>` element is modelled as its `src` only. The browser's rewriting of `src` to an absolute URL is not modelled, so URLs are compared as plain strings.
- Display-only content: the rendering, styles, stats cards, reciter list, footer, the verse-view label slicing and the construction of the per-verse audio URL are not modelled.
- Text.Lower: lowering is per character and keeps the length, unlike JavaScript's `toLowerCase`, which can lengthen a string ("İ") and lowers final sigma by context.
- Text.LowerChar: lower-cases only the ASCII letters `A`–`Z`. JavaScript's full Unicode `toLowerCase` has locale-independent tables that are not modelled.
- ChapterFilter.FilterType: the filter type is a string in the component but only the four buttons set it, so it is a four-value datatype here. Any other string would behave like "all".
- Chapters.Number: the chapter number is added beside the API record rather than spread into it. An API field named `surahNo` would be overwritten in the component, and the model's records have no such field.
- Chapter records: a missing field is `None`, and `None` fails every comparison, just as optional chaining yields `undefined`. A field of the wrong type (which would throw) is not modelled.
