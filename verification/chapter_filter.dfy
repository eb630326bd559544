/** The home view's chapter list filter: a search gate on names and
    numbers, then a category test (all, Meccan, Medinan, or one juz). */
module ChapterFilter {
  import opened Wrappers
  import opened Text
  import opened Chapters
  import opened Juz

  /** The four filter buttons. */
  datatype FilterType = All | Mecca | Medina | ByJuz

  /** The filter's inputs: the search box, the active filter button and
      the juz selector. */
  datatype Query = Query(search: string, filterType: FilterType, selectedJuz: int)

  /** Is `a` an order-preserving subsequence of `b`? */
  predicate IsSubsequence<T(==)>(a: seq<T>, b: seq<T>)
    decreases |b|
  {
    if |a| == 0 then true
    else if |b| == 0 then false
    else (a[0] == b[0] && IsSubsequence(a[1..], b[1..])) || IsSubsequence(a, b[1..])
  }

  /** The search gate: an empty query passes; otherwise the query must
      occur in the lower-cased English name (compared lower-cased), in the
      Arabic name verbatim, or in the chapter's decimal number. A missing
      name never matches. */
  function MatchesSearch(c: Chapter, query: string): (b: bool)
    ensures query == "" ==> b
    ensures Contains(DecimalString(c.surahNo), query) ==> b
    ensures c.info.surahNameArabic.Some? && Contains(c.info.surahNameArabic.value, query) ==> b
    ensures b && query != "" && c.info.surahName.None? && c.info.surahNameArabic.None? ==>
      Contains(DecimalString(c.surahNo), query)
  {
    || query == ""
    || (c.info.surahName.Some? && Contains(Lower(c.info.surahName.value), Lower(query)))
    || (c.info.surahNameArabic.Some? && Contains(c.info.surahNameArabic.value, query))
    || Contains(DecimalString(c.surahNo), query)
  }

  /** The converse of the gate's sufficient conditions: a non-empty query
      passes only by occurring in the English name (both lower-cased), in
      the Arabic name verbatim, or in the numeral. */
  lemma MatchesSearchOnlyIf(c: Chapter, query: string)
    requires MatchesSearch(c, query) && query != ""
    ensures || (c.info.surahName.Some? && Contains(Lower(c.info.surahName.value), Lower(query)))
            || (c.info.surahNameArabic.Some? && Contains(c.info.surahNameArabic.value, query))
            || Contains(DecimalString(c.surahNo), query)
  {
  }

  /** The English name is searched without regard to case: a query that
      differs only in case from a part of the name finds the chapter. */
  lemma EnglishNameAnyCase(c: Chapter, t: string, query: string)
    requires c.info.surahName.Some? && Contains(c.info.surahName.value, t)
    requires Lower(query) == Lower(t)
    ensures MatchesSearch(c, query)
  {
    LowerPreservesContains(c.info.surahName.value, t);
  }

  /** The category test on its own: which chapters each filter button
      admits. Note the API's spelling "Madina". */
  predicate InCategory(c: Chapter, q: Query) {
    match q.filterType
    case All => true
    case Mecca => c.info.revelationPlace == Some("Mecca")
    case Medina => c.info.revelationPlace == Some("Madina")
    case ByJuz => JuzEntry(q.selectedJuz).Some? && c.surahNo in JuzEntry(q.selectedJuz).value
  }

  /** The filter callback, test by test with early rejection. A chapter is
      kept exactly when it passes the search gate and is in the selected
      category; failing the gate excludes it whatever the category. */
  function Keep(c: Chapter, q: Query): (kept: bool)
    ensures kept <==> MatchesSearch(c, q.search) && InCategory(c, q)
    ensures !MatchesSearch(c, q.search) ==> !kept
  {
    if !MatchesSearch(c, q.search) then false
    else if q.filterType == Mecca && c.info.revelationPlace != Some("Mecca") then false
    else if q.filterType == Medina && c.info.revelationPlace != Some("Madina") then false
    else if q.filterType == ByJuz && !JuzIncludes(q.selectedJuz, c.surahNo) then false
    else true
  }

  /** The displayed list: an order-preserving subsequence of the chapter
      list in which every chapter is kept. */
  function Filter(cs: seq<Chapter>, q: Query): (r: seq<Chapter>)
    ensures IsSubsequence(r, cs)
    ensures forall c :: c in r ==> Keep(c, q)
    decreases |cs|
  {
    if |cs| == 0 then []
    else
      var rest := Filter(cs[1..], q);
      if Keep(cs[0], q) then [cs[0]] + rest else rest
  }

  /** Nothing kept goes missing: the displayed list holds every kept
      chapter exactly as often as the chapter list does, and no other. */
  lemma {:induction false} FilterCounts(cs: seq<Chapter>, q: Query)
    ensures forall c :: multiset(Filter(cs, q))[c] == if Keep(c, q) then multiset(cs)[c] else 0
    decreases |cs|
  {
    if |cs| > 0 {
      FilterCounts(cs[1..], q);
      assert cs == [cs[0]] + cs[1..];
    }
  }

  /* ----------------------------------------------------------------------
     Shape of the filtered list
     ---------------------------------------------------------------------- */

  /** A list every chapter of which is kept passes through unchanged. */
  lemma {:induction false} FilterAllKept(cs: seq<Chapter>, q: Query)
    requires forall i :: 0 <= i < |cs| ==> Keep(cs[i], q)
    ensures Filter(cs, q) == cs
    decreases |cs|
  {
    if |cs| > 0 {
      FilterAllKept(cs[1..], q);
      assert cs == [cs[0]] + cs[1..];
    }
  }

  /** Filtering the displayed list again with the same inputs changes
      nothing. */
  lemma {:induction false} FilterIdempotent(cs: seq<Chapter>, q: Query)
    ensures Filter(Filter(cs, q), q) == Filter(cs, q)
  {
    var r := Filter(cs, q);
    assert forall i :: 0 <= i < |r| ==> r[i] in r;
    FilterAllKept(r, q);
  }

  /** With an empty search box and the "All Surahs" button every chapter
      is shown, in list order. */
  lemma {:induction false} EmptyQueryAllKeepsEverything(cs: seq<Chapter>, juz: int)
    ensures Filter(cs, Query("", All, juz)) == cs
  {
    FilterAllKept(cs, Query("", All, juz));
  }

  /** What each category guarantees of every chapter it shows. */
  lemma CategoryGuarantees(cs: seq<Chapter>, q: Query)
    ensures forall c :: c in Filter(cs, q) ==> MatchesSearch(c, q.search)
    ensures q.filterType == Mecca ==>
      forall c :: c in Filter(cs, q) ==> c.info.revelationPlace == Some("Mecca")
    ensures q.filterType == Medina ==>
      forall c :: c in Filter(cs, q) ==> c.info.revelationPlace == Some("Madina")
    ensures q.filterType == ByJuz ==>
      forall c :: c in Filter(cs, q) ==> JuzIncludes(q.selectedJuz, c.surahNo)
  {
  }

  /** Selecting a juz the table does not have shows no chapter at all. */
  lemma MissingJuzKeepsNothing(cs: seq<Chapter>, search: string, juz: int)
    requires JuzEntry(juz).None?
    ensures Filter(cs, Query(search, ByJuz, juz)) == []
  {
  }

  /* ----------------------------------------------------------------------
     Typing more narrows the list
     ---------------------------------------------------------------------- */

  /** Prepending an element to the larger list keeps a subsequence. */
  lemma SubsequenceOfCons<T>(a: seq<T>, x: T, b: seq<T>)
    requires IsSubsequence(a, b)
    ensures IsSubsequence(a, [x] + b)
  {
    assert ([x] + b)[1..] == b;
  }

  /** Whatever passes the gate for a query also passes it for every
      substring of that query. */
  lemma SearchGateMonotone(c: Chapter, longer: string, shorter: string)
    requires Contains(longer, shorter)
    requires MatchesSearch(c, longer)
    ensures MatchesSearch(c, shorter)
  {
    if shorter != "" {
      assert longer != "";
      if c.info.surahName.Some? && Contains(Lower(c.info.surahName.value), Lower(longer)) {
        LowerPreservesContains(longer, shorter);
        ContainsTransitive(Lower(c.info.surahName.value), Lower(longer), Lower(shorter));
      } else if c.info.surahNameArabic.Some? && Contains(c.info.surahNameArabic.value, longer) {
        ContainsTransitive(c.info.surahNameArabic.value, longer, shorter);
      } else {
        ContainsTransitive(DecimalString(c.surahNo), longer, shorter);
      }
    }
  }

  /** A stricter test shows a subsequence of what a laxer one shows. */
  lemma {:induction false} FilterMonotone(cs: seq<Chapter>, strict: Query, lax: Query)
    requires forall i :: 0 <= i < |cs| && Keep(cs[i], strict) ==> Keep(cs[i], lax)
    ensures IsSubsequence(Filter(cs, strict), Filter(cs, lax))
    decreases |cs|
  {
    if |cs| > 0 {
      FilterMonotone(cs[1..], strict, lax);
      var s := Filter(cs[1..], strict);
      var l := Filter(cs[1..], lax);
      if Keep(cs[0], strict) {
        assert ([cs[0]] + s)[1..] == s;
        assert ([cs[0]] + l)[1..] == l;
      } else if Keep(cs[0], lax) {
        SubsequenceOfCons(s, cs[0], l);
      }
    }
  }

  /** Extending the search text (so that the old text is a substring of the
      new one) can only remove chapters from the displayed list, never add
      or reorder them. */
  lemma NarrowingSearchNarrowsList(cs: seq<Chapter>, q: Query, longer: string)
    requires Contains(longer, q.search)
    ensures IsSubsequence(Filter(cs, q.(search := longer)), Filter(cs, q))
  {
    forall i | 0 <= i < |cs| && Keep(cs[i], q.(search := longer))
      ensures Keep(cs[i], q)
    {
      SearchGateMonotone(cs[i], longer, q.search);
    }
    FilterMonotone(cs, q.(search := longer), q);
  }

  /** Typing a chapter's own number always finds it, in any category that
      admits it. */
  lemma SearchByNumberFindsChapter(cs: seq<Chapter>, q: Query, i: int)
    requires 0 <= i < |cs|
    requires InCategory(cs[i], q)
    ensures cs[i] in Filter(cs, q.(search := DecimalString(cs[i].surahNo)))
  {
    var n := DecimalString(cs[i].surahNo);
    assert Contains(n, n) by { assert n[..|n|] == n; }
    var r := Filter(cs, q.(search := n));
    FilterCounts(cs, q.(search := n));
    assert multiset(cs)[cs[i]] > 0;
    assert multiset(r)[cs[i]] > 0;
  }

  /* ----------------------------------------------------------------------
     The juz view over the full chapter list
     ---------------------------------------------------------------------- */

  /** With an empty search box the juz filter keeps a chapter exactly when
      the juz's table entry lists its number. */
  lemma KeepByJuzWithEmptySearch(c: Chapter, juz: int)
    ensures Keep(c, Query("", ByJuz, juz)) <==> JuzIncludes(juz, c.surahNo)
  {
  }

  /** Filtering a list with a chapter in front decides that chapter and
      filters the rest. */
  lemma FilterCons(c: Chapter, rest: seq<Chapter>, q: Query)
    ensures Filter([c] + rest, q) == (if Keep(c, q) then [c] else []) + Filter(rest, q)
  {
    assert ([c] + rest)[1..] == rest;
  }

  /** One step of `FilterByNumbersFrom`: the chapter in front shows its
      number exactly when `t` contains it. */
  lemma FilterNumbersCons(c: Chapter, rest: seq<Chapter>, q: Query, t: seq<nat>)
    requires Keep(c, q) <==> c.surahNo in t
    ensures Numbers(Filter([c] + rest, q))
         == (if c.surahNo in t then [c.surahNo] else []) + Numbers(Filter(rest, q))
  {
    var head := if Keep(c, q) then [c] else [];
    FilterCons(c, rest, q);
    NumbersAppend(head, Filter(rest, q));
    assert Numbers(head) == if c.surahNo in t then [c.surahNo] else [];
  }

  /** Filtering a list numbered from `start` by a test that amounts to
      membership of the number in `t` shows the numbers of the range that
      `t` contains, in ascending order. */
  lemma {:induction false} FilterByNumbersFrom(data: seq<RawChapter>, start: nat, q: Query, t: seq<nat>)
    requires forall c: Chapter :: Keep(c, q) <==> c.surahNo in t
    ensures Numbers(Filter(NumberFrom(data, start), q)) == SelectIn(start, start + |data|, t)
    decreases |data|
  {
    if |data| > 0 {
      var c := Chapter(data[0], start);
      var tail := NumberFrom(data[1..], start + 1);
      assert NumberFrom(data, start) == [c] + tail;
      FilterByNumbersFrom(data[1..], start + 1, q, t);
      FilterNumbersCons(c, tail, q, t);
    }
  }

  /** Picking juz j (1..30) with an empty search box over the full list of
      114 numbered chapters shows exactly the chapters the table lists for
      j, in the table's order. */
  lemma JuzFilterListsTable(data: seq<RawChapter>, juz: int)
    requires |data| == ChapterCount
    requires 1 <= juz <= JuzCount
    ensures Numbers(Filter(Number(data), Query("", ByJuz, juz))) == JuzEntry(juz).value
  {
    EntryWellFormedAt(juz);
    var t := JuzEntry(juz).value;
    var q := Query("", ByJuz, juz);
    forall c: Chapter ensures Keep(c, q) <==> c.surahNo in t {
      KeepByJuzWithEmptySearch(c, juz);
    }
    FilterByNumbersFrom(data, 1, q, t);
    SelectChaptersOfEntry(t);
  }
}
