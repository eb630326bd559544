/** Chapter (surah) records and the numbering the component gives the
    chapter list when it arrives: the API entries carry no number, so each
    entry gets `surahNo = index + 1`. */
module Chapters {
  import opened Wrappers

  /** One entry of the chapter list as the API returns it. Any field may be
      missing; the component reads them through optional chaining. */
  datatype RawChapter = RawChapter(
    surahName: Option<string>,
    surahNameArabic: Option<string>,
    surahNameArabicLong: Option<string>,
    surahNameTranslation: Option<string>,
    revelationPlace: Option<string>,
    totalAyah: Option<int>)

  /** An entry after numbering: the API fields unchanged, plus its number. */
  datatype Chapter = Chapter(info: RawChapter, surahNo: nat)

  /** Numbers the entries of `data` consecutively from `start`. */
  function NumberFrom(data: seq<RawChapter>, start: nat): (r: seq<Chapter>)
    ensures |r| == |data|
    ensures forall i :: 0 <= i < |r| ==> r[i].info == data[i] && r[i].surahNo == start + i
    decreases |data|
  {
    if |data| == 0 then [] else [Chapter(data[0], start)] + NumberFrom(data[1..], start + 1)
  }

  /** The chapter list as stored by the component: entry `i` keeps every
      API field and is numbered `i + 1`, so the numbers run 1..n in list
      order. */
  function Number(data: seq<RawChapter>): (r: seq<Chapter>)
    ensures |r| == |data|
    ensures forall i :: 0 <= i < |r| ==> r[i] == Chapter(data[i], i + 1)
  {
    NumberFrom(data, 1)
  }

  /** Forgets the numbers again. */
  function Unnumber(cs: seq<Chapter>): (r: seq<RawChapter>)
    ensures |r| == |cs|
    decreases |cs|
  {
    if |cs| == 0 then [] else [cs[0].info] + Unnumber(cs[1..])
  }

  /** The chapter numbers of a list, in list order. */
  function Numbers(cs: seq<Chapter>): (r: seq<nat>)
    ensures |r| == |cs|
    decreases |cs|
  {
    if |cs| == 0 then [] else [cs[0].surahNo] + Numbers(cs[1..])
  }

  /** The numbers of two lists put together are the numbers of the first
      followed by those of the second. */
  lemma {:induction false} NumbersAppend(a: seq<Chapter>, b: seq<Chapter>)
    ensures Numbers(a + b) == Numbers(a) + Numbers(b)
    decreases |a|
  {
    if |a| > 0 {
      assert (a + b)[1..] == a[1..] + b;
      NumbersAppend(a[1..], b);
    } else {
      assert a + b == b;
    }
  }

  /** Numbering adds the number and nothing else: forgetting it gives back
      the API list. */
  lemma {:induction false} UnnumberNumberFrom(data: seq<RawChapter>, start: nat)
    ensures Unnumber(NumberFrom(data, start)) == data
    decreases |data|
  {
    if |data| > 0 {
      var r := NumberFrom(data, start);
      assert r[0].info == data[0];
      assert r[1..] == NumberFrom(data[1..], start + 1);
      UnnumberNumberFrom(data[1..], start + 1);
      calc {
        Unnumber(r);
        [r[0].info] + Unnumber(r[1..]);
        [data[0]] + data[1..];
        data;
      }
    }
  }

  lemma UnnumberNumber(data: seq<RawChapter>)
    ensures Unnumber(Number(data)) == data
  {
    UnnumberNumberFrom(data, 1);
  }

  /** Numbering gives every entry a different number. */
  lemma NumbersDistinct(data: seq<RawChapter>)
    ensures forall i, j :: 0 <= i < |data| && 0 <= j < |data| && Number(data)[i].surahNo == Number(data)[j].surahNo ==> i == j
  {
  }
}
