/** The constant table saying which chapters fall (wholly or partly) in
    each of the thirty juz, and the juz selector's options. */
module Juz {
  import opened Wrappers

  /** Entry `j - 1` lists the chapter numbers of juz `j`. */
  const JuzTable: seq<seq<nat>> := [
    [1, 2], [2], [2, 3], [3, 4], [4], [4, 5], [5, 6],
    [6, 7], [7, 8], [8, 9], [9, 10, 11], [11, 12],
    [12, 13, 14, 15], [15, 16], [17, 18], [18, 19, 20],
    [21, 22], [23, 24, 25], [25, 26, 27], [27, 28, 29],
    [29, 30, 31, 32, 33], [33, 34, 35, 36], [36, 37, 38, 39],
    [39, 40, 41], [41, 42, 43, 44, 45], [46, 47, 48, 49, 50, 51],
    [51, 52, 53, 54, 55, 56, 57], [58, 59, 60, 61, 62, 63, 64, 65, 66],
    [67, 68, 69, 70, 71, 72, 73, 74, 75, 76, 77],
    [78, 79, 80, 81, 82, 83, 84, 85, 86, 87, 88, 89, 90, 91, 92, 93, 94, 95, 96,
     97, 98, 99, 100, 101, 102, 103, 104, 105, 106, 107, 108, 109, 110, 111, 112, 113, 114]
  ]

  const JuzCount := 30
  const ChapterCount := 114

  /** `juzMapping[j]`: the chapters of juz `j`, or None (JavaScript's
      `undefined`) for a key the table does not have. */
  function JuzEntry(j: int): (r: Option<seq<nat>>)
    ensures r.Some? <==> 1 <= j <= JuzCount
  {
    if 1 <= j <= |JuzTable| then Some(JuzTable[j - 1]) else None
  }

  /** `juzMapping[j]?.includes(n)`: a missing entry includes nothing. */
  function JuzIncludes(j: int, n: int): (b: bool)
    ensures b ==> 1 <= j <= JuzCount
    ensures 1 <= j <= JuzCount ==> (b <==> n in JuzTable[j - 1])
  {
    match JuzEntry(j)
    case None => false
    case Some(t) => n in t
  }

  /** The values the juz selector offers: 1 through 30, in order. */
  function JuzOptions(): (r: seq<int>)
    ensures |r| == JuzCount
    ensures forall i :: 0 <= i < |r| ==> r[i] == i + 1
  {
    seq(JuzCount, i requires 0 <= i < JuzCount => i + 1)
  }

  /** An entry is usable when it is non-empty, names only real chapters
      (1..114) and lists them in ascending order without repetition. */
  predicate EntryWellFormed(t: seq<nat>) {
    && |t| > 0
    && (forall k :: 0 <= k < |t| ==> 1 <= t[k] <= ChapterCount)
    && (forall k :: 0 <= k < |t| - 1 ==> t[k] < t[k + 1])
  }

  /** Any two positions of `t` ascend. */
  predicate StrictlyIncreasing(t: seq<nat>) {
    forall a, b :: 0 <= a < b < |t| ==> t[a] < t[b]
  }

  /* The rows are checked a few at a time to keep each proof small. */

  lemma RowsWellFormed0To6()
    ensures forall i :: 0 <= i < 6 ==> EntryWellFormed(JuzTable[i])
  {
  }

  lemma RowsWellFormed6To12()
    ensures forall i :: 6 <= i < 12 ==> EntryWellFormed(JuzTable[i])
  {
  }

  lemma RowsWellFormed12To18()
    ensures forall i :: 12 <= i < 18 ==> EntryWellFormed(JuzTable[i])
  {
  }

  lemma RowsWellFormed18To24()
    ensures forall i :: 18 <= i < 24 ==> EntryWellFormed(JuzTable[i])
  {
  }

  lemma RowsWellFormed24To29()
    ensures forall i :: 24 <= i < 29 ==> EntryWellFormed(JuzTable[i])
  {
  }

  /** The last row (juz 30) is the contiguous run 78..114. */
  lemma LastRowWellFormed()
    ensures EntryWellFormed(JuzTable[29])
  {
    assert JuzTable[29] == seq(37, k requires 0 <= k < 37 => 78 + k);
  }

  /** Every row of the literal table is well formed. */
  lemma TableWellFormed()
    ensures forall i :: 0 <= i < |JuzTable| ==> EntryWellFormed(JuzTable[i])
  {
    RowsWellFormed0To6();
    RowsWellFormed6To12();
    RowsWellFormed12To18();
    RowsWellFormed18To24();
    RowsWellFormed24To29();
    LastRowWellFormed();
  }

  /** The entry of any juz the selector can offer is well formed. */
  lemma EntryWellFormedAt(j: int)
    requires 1 <= j <= JuzCount
    ensures JuzEntry(j).Some? && EntryWellFormed(JuzEntry(j).value)
  {
    TableWellFormed();
  }

  /** Every juz the selector offers has a non-empty entry, and every
      chapter number in it is between 1 and 114. */
  lemma SelectorOptionsHaveEntries()
    ensures forall j :: j in JuzOptions() ==>
      JuzEntry(j).Some? && |JuzEntry(j).value| > 0
      && forall n :: n in JuzEntry(j).value ==> 1 <= n <= ChapterCount
  {
    forall j | j in JuzOptions()
      ensures JuzEntry(j).Some? && EntryWellFormed(JuzEntry(j).value)
    {
      var i :| 0 <= i < |JuzOptions()| && JuzOptions()[i] == j;
      EntryWellFormedAt(j);
    }
  }

  /** Adjacent ordering gives ordering of every pair. */
  lemma {:induction false} AdjacentIncreasingIsStrict(t: seq<nat>)
    requires forall k :: 0 <= k < |t| - 1 ==> t[k] < t[k + 1]
    ensures StrictlyIncreasing(t)
    decreases |t|
  {
    if |t| > 1 {
      AdjacentIncreasingIsStrict(t[1..]);
      forall a, b | 0 <= a < b < |t| ensures t[a] < t[b] {
        if a > 0 {
          assert t[1..][a - 1] < t[1..][b - 1];
        } else if b > 1 {
          assert t[1..][0] < t[1..][b - 1];
        }
      }
    }
  }

  /** No juz entry lists a chapter twice or out of order: any two
      positions of an entry ascend. */
  lemma EntryStrictlyIncreasing(j: int)
    requires 1 <= j <= JuzCount
    ensures JuzEntry(j).Some? && StrictlyIncreasing(JuzEntry(j).value)
  {
    EntryWellFormedAt(j);
    AdjacentIncreasingIsStrict(JuzEntry(j).value);
  }

  /* ----------------------------------------------------------------------
     The numbers of a range that occur in a table entry
     ---------------------------------------------------------------------- */

  /** The numbers lo, lo+1, ..., hi-1 that occur in `t`, ascending. */
  function SelectIn(lo: int, hi: int, t: seq<nat>): (r: seq<int>)
    decreases hi - lo
  {
    if lo >= hi then [] else (if lo in t then [lo] else []) + SelectIn(lo + 1, hi, t)
  }

  /** Only membership in `t` matters to `SelectIn`. */
  lemma {:induction false} SelectInCongruent(lo: int, hi: int, t: seq<nat>, u: seq<nat>)
    requires forall k :: lo <= k < hi ==> (k in t <==> k in u)
    ensures SelectIn(lo, hi, t) == SelectIn(lo, hi, u)
    decreases hi - lo
  {
    if lo < hi {
      SelectInCongruent(lo + 1, hi, t, u);
    }
  }

  /** An entry that ascends step by step from `lo` or above. */
  predicate AscendsWithin(lo: int, hi: int, t: seq<nat>) {
    && (forall k :: 0 <= k < |t| - 1 ==> t[k] < t[k + 1])
    && (forall k :: 0 <= k < |t| ==> lo <= t[k] < hi)
  }

  /** When the entry starts at `lo`, the range selects `lo` and then what
      the rest of the entry selects above it. */
  lemma SelectInTakesHead(lo: int, hi: int, t: seq<nat>)
    requires AscendsWithin(lo, hi, t) && |t| > 0 && t[0] == lo
    ensures lo < hi
    ensures AscendsWithin(lo + 1, hi, t[1..])
    ensures SelectIn(lo, hi, t) == [lo] + SelectIn(lo + 1, hi, t[1..])
  {
    assert lo <= t[0] < hi;
    var rest := t[1..];
    forall k | 0 <= k < |rest| ensures lo + 1 <= rest[k] < hi {
      assert t[k] < t[k + 1] == rest[k];
    }
    forall k | lo + 1 <= k < hi ensures k in t <==> k in rest {
      assert t == [lo] + rest;
    }
    SelectInCongruent(lo + 1, hi, t, rest);
  }

  /** When the entry starts above `lo`, `lo` is not selected. */
  lemma SelectInSkipsLow(lo: int, hi: int, t: seq<nat>)
    requires AscendsWithin(lo, hi, t) && |t| > 0 && t[0] != lo
    ensures lo < hi
    ensures AscendsWithin(lo + 1, hi, t)
    ensures SelectIn(lo, hi, t) == SelectIn(lo + 1, hi, t)
  {
    assert lo <= t[0] < hi;
    forall k | 0 < k < |t| ensures lo + 1 <= t[k] {
      assert lo <= t[k - 1] < t[k];
    }
    assert lo !in t;
  }

  /** An empty entry selects nothing. */
  lemma {:induction false} SelectInEmpty(lo: int, hi: int)
    ensures SelectIn(lo, hi, []) == []
    decreases hi - lo
  {
    if lo < hi {
      SelectInEmpty(lo + 1, hi);
    }
  }

  /** Selecting the range from an entry that ascends step by step and whose
      numbers all lie in the range gives back the entry itself. */
  lemma {:induction false} SelectInAscending(lo: int, hi: int, t: seq<nat>)
    requires AscendsWithin(lo, hi, t)
    ensures SelectIn(lo, hi, t) == t
    decreases hi - lo
  {
    if |t| == 0 {
      SelectInEmpty(lo, hi);
    } else if t[0] == lo {
      SelectInTakesHead(lo, hi, t);
      SelectInAscending(lo + 1, hi, t[1..]);
      assert t == [lo] + t[1..];
    } else {
      SelectInSkipsLow(lo, hi, t);
      SelectInAscending(lo + 1, hi, t);
    }
  }

  /** Selecting the chapters 1..114 from a well-formed entry gives back
      the entry in its own order. */
  lemma SelectChaptersOfEntry(t: seq<nat>)
    requires EntryWellFormed(t)
    ensures SelectIn(1, ChapterCount + 1, t) == t
  {
    SelectInAscending(1, ChapterCount + 1, t);
  }
}
