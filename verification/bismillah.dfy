/** Which chapters the surah view opens with the bismillah line. */
module Bismillah {
  import opened Wrappers
  import opened Chapters

  /** The opening formula shown above the verses. */
  const BismillahText: string := "بِسْمِ ٱللَّهِ ٱلرَّحْمَٰنِ ٱلرَّحِيمِ"

  /** `getBismillah`: nothing for chapters 1 and 9, the same formula for
      every other number. */
  function GetBismillah(surahNo: int): (r: Option<string>)
    ensures r.None? <==> surahNo == 1 || surahNo == 9
    ensures r.Some? ==> r.value == BismillahText
  {
    if surahNo == 1 || surahNo == 9 then None else Some(BismillahText)
  }

  /** Over the numbered chapter list, the formula is left out exactly for
      the first and the ninth entry. */
  lemma BismillahOverNumberedList(data: seq<RawChapter>)
    ensures forall i :: 0 <= i < |data| ==>
      (GetBismillah(Number(data)[i].surahNo).None? <==> i == 0 || i == 8)
  {
  }

  /** Every chapter that shows the formula shows the same text. */
  lemma BismillahIsOneText(m: int, n: int)
    requires m != 1 && m != 9 && n != 1 && n != 9
    ensures GetBismillah(m) == GetBismillah(n) != None
  {
  }
}
