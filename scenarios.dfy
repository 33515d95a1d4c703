/** The extractor on particular inputs: a longer key shadows the shorter key
    inside it, spaces in the input do not matter, the page's sample sentence
    reports two items, and cutting a key out can bring two characters
    together. */
module Scenarios {
  import opened Text
  import opened FootprintCatalog
  import opened Extractor

  /** The rows the scenarios below are about. */
  lemma NamedRows()
    ensures WATER_FOOTPRINT_DATA[18] == Entry("감자칩", 185.0)
    ensures WATER_FOOTPRINT_DATA[24] == Entry("오렌지주스", 200.0)
  {
  }

  /** "오렌지주스" (row 24) is the only key of five characters and none is
      longer, so no key is tried before it. */
  lemma NothingBeforeOrangeJuice()
    ensures forall e :: 0 <= e < |WATER_FOOTPRINT_DATA| ==> !Precedes(WATER_FOOTPRINT_DATA, e, 24)
  {
  }

  lemma OrangeJuiceRow()
    ensures Extract(WATER_FOOTPRINT_DATA, WATER_FOOTPRINT_DATA[24].key) ==
      [Found(WATER_FOOTPRINT_DATA[24].key, WATER_FOOTPRINT_DATA[24].litres)]
  {
    DataMatchable();
    NothingBeforeOrangeJuice();
    LongestKeyWins(WATER_FOOTPRINT_DATA, WATER_FOOTPRINT_DATA[24].key, 24);
  }

  /** "오렌지주스" reports orange juice only, not also "오렌지" (orange):
      the longer key is tried first and takes the characters "오렌지" with it. */
  lemma OrangeJuiceOnly()
    ensures Extract(WATER_FOOTPRINT_DATA, "오렌지주스") == [Found("오렌지주스", 200.0)]
  {
    OrangeJuiceRow();
    NamedRows();
  }

  /** Written with a space, "오렌지 주스", it is still orange juice only. */
  lemma SpacedOrangeJuiceOnly()
    ensures Extract(WATER_FOOTPRINT_DATA, "오렌지 주스") == [Found("오렌지주스", 200.0)]
  {
    var before, after := "오렌지", "주스";
    assert before + " " + after == "오렌지 주스";
    assert before + after == "오렌지주스";
    ExtractIgnoresSpaces(WATER_FOOTPRINT_DATA, before, after);
    OrangeJuiceOnly();
  }

  /** No key tried before "감자칩" (row 18) occurs in it: each is at least
      as long once stripped (the ranking puts only keys of three characters
      or more first, and "손 씻기" strips to three) and is another key. */
  lemma NothingBeforePotatoChipsMatches()
    ensures forall e :: 0 <= e < |WATER_FOOTPRINT_DATA| && Precedes(WATER_FOOTPRINT_DATA, e, 18) ==>
      !Contains(StripSpaces(WATER_FOOTPRINT_DATA[18].key), StripSpaces(WATER_FOOTPRINT_DATA[e].key))
  {
    var c := WATER_FOOTPRINT_DATA;
    OnlyHandWashingHasSpace();
    HandWashing();
    DataKeysUnique();
    NamedRows();
    forall e | 0 <= e < |c| && Precedes(c, e, 18)
      ensures !Contains(c[18].key, StripSpaces(c[e].key))
    {
      ContainsNoLonger(c[18].key, StripSpaces(c[e].key));
    }
  }

  /** "감자칩" reports potato chips only, not also "감자" (potato). */
  lemma PotatoChipsOnly()
    ensures Extract(WATER_FOOTPRINT_DATA, "감자칩") == [Found("감자칩", 185.0)]
  {
    var c := WATER_FOOTPRINT_DATA;
    DataMatchable();
    NothingBeforePotatoChipsMatches();
    NamedRows();
    LongestKeyWins(c, c[18].key, 18);
  }

  /** The sample sentence shown under the text box. */
  const SAMPLE: string := "초콜릿 먹고 청바지 입기"

  /** The sample sentence reports chocolate and then jeans, each once. */
  lemma SampleSentenceReport()
    ensures Extract(WATER_FOOTPRINT_DATA, SAMPLE) == [Found("초콜릿", 1700.0), Found("청바지", 10000.0)]
  {
    SampleScan();
    SampleRows();
    var r := Report(WATER_FOOTPRINT_DATA, [17, 26]);
    assert r[0] == Found("초콜릿", 1700.0) && r[1] == Found("청바지", 10000.0);
  }

  /** The scan of the sample sentence hits rows 17 and 26 in that order. */
  lemma SampleScan()
    ensures Scan(WATER_FOOTPRINT_DATA, RankByLength(WATER_FOOTPRINT_DATA), StripSpaces(SAMPLE)) == [17, 26]
  {
    var c := WATER_FOOTPRINT_DATA;
    SampleRows();
    SampleHoldsChocolate();
    SampleHoldsJeans();
    ChocolateAndJeansShareNothing();
    OnlyChocolateAndJeansFromSample();
    TwoKeysFound(c, SAMPLE, 17, 26);
  }

  /** When only rows `x` and `y` have keys made of the text's characters,
      both occur, they share no character and `y` does not rank before `x`,
      the scan hits exactly `x` and then `y`. */
  lemma TwoKeysFound(c: Catalog, text: string, x: nat, y: nat)
    requires x < |c| && y < |c| && x != y && !Precedes(c, y, x) && !Shares(c, x, y)
    requires Contains(StripSpaces(text), StripSpaces(c[x].key))
    requires Contains(StripSpaces(text), StripSpaces(c[y].key))
    requires forall e :: 0 <= e < |c| && AllCharactersIn(StripSpaces(c[e].key), text) ==> e == x || e == y
    ensures Scan(c, RankByLength(c), StripSpaces(text)) == [x, y]
  {
    var order := RankByLength(c);
    var hits := Scan(c, order, StripSpaces(text));
    HitsUseTextCharacters(c, order, StripSpaces(text));
    forall i | 0 <= i < |hits| ensures hits[i] == x || hits[i] == y {
      assert AllCharactersIn(StripSpaces(c[hits[i]].key), StripSpaces(text));
    }
    PresentIsFoundOrOverlapped(c, text, x);
    PresentIsFoundOrOverlapped(c, text, y);
    ScanKeepsRanking(c, order, StripSpaces(text));
    TwoRowsRanked(c, hits, x, y);
  }

  /** A ranked list that holds rows `x` and `y` and nothing else, where `y`
      does not rank before `x`, is exactly `[x, y]`. */
  lemma TwoRowsRanked(c: Catalog, hits: seq<nat>, x: nat, y: nat)
    requires x < |c| && y < |c| && x != y && !Precedes(c, y, x)
    requires InRange(c, hits) && Ranked(c, hits)
    requires forall i :: 0 <= i < |hits| ==> hits[i] == x || hits[i] == y
    requires x in hits && y in hits
    ensures hits == [x, y]
  {
    var a :| 0 <= a < |hits| && hits[a] == x;
    var b :| 0 <= b < |hits| && hits[b] == y;
    RankedAt(c, hits, b, a);
    OneOfTwo(c, hits, x, y, a, b, 0);
    OneOfTwo(c, hits, x, y, a, b, |hits| - 1);
    if |hits| > 2 {
      OneOfTwo(c, hits, x, y, a, b, 1);
    }
  }

  /** In a ranked list, a row stands at one place only. */
  lemma OneOfTwo(c: Catalog, hits: seq<nat>, x: nat, y: nat, a: nat, b: nat, t: nat)
    requires x < |c| && y < |c| && InRange(c, hits) && Ranked(c, hits)
    requires a < |hits| && b < |hits| && hits[a] == x && hits[b] == y
    requires t < |hits| && (hits[t] == x || hits[t] == y)
    ensures t == a || t == b
  {
    var u := if hits[t] == x then a else b;
    RankedAt(c, hits, t, u);
    RankedAt(c, hits, u, t);
  }

  /** Of two places in a ranked list, the earlier holds the row ranked first. */
  lemma RankedAt(c: Catalog, hits: seq<nat>, i: nat, j: nat)
    requires InRange(c, hits) && Ranked(c, hits) && i < |hits| && j < |hits|
    ensures i < j ==> Precedes(c, hits[i], hits[j])
  {
  }

  /** "초콜릿" occurs in the sample sentence, spaces stripped. */
  lemma SampleHoldsChocolate()
    ensures Contains(StripSpaces(SAMPLE), StripSpaces(WATER_FOOTPRINT_DATA[17].key))
  {
    SampleRows();
    assert SAMPLE == [] + "초콜릿" + " 먹고 청바지 입기";
    StrippedHoldsWord([], "초콜릿", " 먹고 청바지 입기");
  }

  /** So does "청바지". */
  lemma SampleHoldsJeans()
    ensures Contains(StripSpaces(SAMPLE), StripSpaces(WATER_FOOTPRINT_DATA[26].key))
  {
    SampleRows();
    assert SAMPLE == "초콜릿 먹고 " + "청바지" + " 입기";
    StrippedHoldsWord("초콜릿 먹고 ", "청바지", " 입기");
  }

  lemma SampleRows()
    ensures WATER_FOOTPRINT_DATA[17] == Entry("초콜릿", 1700.0)
    ensures WATER_FOOTPRINT_DATA[26] == Entry("청바지", 10000.0)
    ensures StripSpaces("초콜릿") == "초콜릿" && StripSpaces("청바지") == "청바지"
  {
  }

  lemma ChocolateAndJeansShareNothing()
    ensures !Shares(WATER_FOOTPRINT_DATA, 17, 26)
    ensures !Precedes(WATER_FOOTPRINT_DATA, 26, 17)
  {
    SampleRows();
  }

  /** Of all keys, only "초콜릿" (row 17) and "청바지" (row 26) are made
      entirely of characters of the sample sentence. */
  lemma OnlyChocolateAndJeansFromSample()
    ensures forall e ::
      (0 <= e < |WATER_FOOTPRINT_DATA| && AllCharactersIn(StripSpaces(WATER_FOOTPRINT_DATA[e].key), SAMPLE))
      ==> e == 17 || e == 26
  {
    var c := WATER_FOOTPRINT_DATA;
    DataKeysStartWithWord();
    FirstLettersOutsideSample0();
    FirstLettersOutsideSample5();
    FirstLettersOutsideSample10();
    FirstLettersOutsideSample15();
    FirstLettersOutsideSample18();
    FirstLettersOutsideSample20();
    FirstLettersOutsideSample25();
    FirstLettersOutsideSample30();
    SecondLettersOutsideSample();
    forall e | 0 <= e < |c| && e != 12 && e != 17 && e != 23 && e != 26
      ensures !AllCharactersIn(StripSpaces(c[e].key), SAMPLE)
    {
      FirstLetterOutside(c[e].key);
    }
    SecondLetterOutside(c[12].key);
    SecondLetterOutside(c[23].key);
  }

  /** A key that starts with a letter the sample lacks is not made of the
      sample's letters. */
  lemma FirstLetterOutside(k: string)
    requires k != [] && k[0] != ' ' && k[0] !in SAMPLE
    ensures !AllCharactersIn(StripSpaces(k), SAMPLE)
  {
    StripKeepsFirstWord(k);
    assert StripSpaces(k)[0] in StripSpaces(k);
  }

  /** The same for a key without spaces whose second letter the sample lacks. */
  lemma SecondLetterOutside(k: string)
    requires ' ' !in k && |k| > 1 && k[1] !in SAMPLE
    ensures !AllCharactersIn(StripSpaces(k), SAMPLE)
  {
    assert StripSpaces(k)[1] in StripSpaces(k);
  }

  /** "바나나" (row 12) and "콜라" (row 23) start with a letter of the
      sample, but their second letter is not one. */
  lemma SecondLettersOutsideSample()
    ensures WATER_FOOTPRINT_DATA[12].key == "바나나" && '나' !in SAMPLE
    ensures WATER_FOOTPRINT_DATA[23].key == "콜라" && '라' !in SAMPLE
  {
    BananaOutsideSample();
    ColaOutsideSample();
  }

  lemma BananaOutsideSample()
    ensures WATER_FOOTPRINT_DATA[12].key == "바나나" && '나' !in SAMPLE
  {
  }

  lemma ColaOutsideSample()
    ensures WATER_FOOTPRINT_DATA[23].key == "콜라" && '라' !in SAMPLE
  {
  }

  // The table a block of rows at a time, only to keep each proof small.
  lemma FirstLettersOutsideSample0()
    ensures forall e :: 0 <= e < 5 ==> WATER_FOOTPRINT_DATA[e].key[0] !in SAMPLE
  {
  }

  lemma FirstLettersOutsideSample5()
    ensures forall e :: 5 <= e < 10 ==> WATER_FOOTPRINT_DATA[e].key[0] !in SAMPLE
  {
  }

  lemma FirstLettersOutsideSample10()
    ensures forall e :: 10 <= e < 15 && e != 12 ==> WATER_FOOTPRINT_DATA[e].key[0] !in SAMPLE
  {
  }

  lemma FirstLettersOutsideSample15()
    ensures forall e :: 15 <= e < 18 && e != 17 ==> WATER_FOOTPRINT_DATA[e].key[0] !in SAMPLE
  {
  }

  lemma FirstLettersOutsideSample18()
    ensures forall e :: 18 <= e < 20 ==> WATER_FOOTPRINT_DATA[e].key[0] !in SAMPLE
  {
  }

  lemma FirstLettersOutsideSample20()
    ensures forall e :: 20 <= e < 25 && e != 23 ==> WATER_FOOTPRINT_DATA[e].key[0] !in SAMPLE
  {
  }

  lemma FirstLettersOutsideSample25()
    ensures forall e :: 25 <= e < 30 && e != 26 ==> WATER_FOOTPRINT_DATA[e].key[0] !in SAMPLE
  {
  }

  lemma FirstLettersOutsideSample30()
    ensures forall e :: 30 <= e < |WATER_FOOTPRINT_DATA| ==> WATER_FOOTPRINT_DATA[e].key[0] !in SAMPLE
  {
  }

  /** Cola and orange juice, as declared in the shipped table. */
  const DRINKS: Catalog := [Entry("콜라", 75.0), Entry("오렌지주스", 200.0)]

  /** Orange juice is tried before cola. */
  lemma DrinksRanking()
    ensures RankByLength(DRINKS) == [1, 0]
  {
    RankingIsUnique(DRINKS, [1, 0]);
  }

  /** Cutting "오렌지주스" out of "콜오렌지주스라" leaves "콜라", which the
      shorter key then finds: cola is reported although the text never had
      those two characters side by side. */
  lemma SpliceJoinsNeighbours()
    ensures Extract(DRINKS, "콜오렌지주스라") == [Found("오렌지주스", 200.0), Found("콜라", 75.0)]
  {
    DrinksRanking();
    NoSpaceInDrinksText();
    ScanDrinks();
  }

  lemma NoSpaceInDrinksText()
    ensures StripSpaces("콜오렌지주스라") == "콜오렌지주스라"
  {
    assert ' ' !in "콜오렌지주스라";
  }

  lemma ScanDrinks()
    ensures Scan(DRINKS, [1, 0], "콜오렌지주스라") == [1, 0]
  {
    DrinkKeysHaveNoSpaces();
    CutOrangeJuice();
    ScanCola();
  }

  lemma ScanCola()
    ensures Scan(DRINKS, [0], "콜라") == [0]
  {
    DrinkKeysHaveNoSpaces();
    CutCola();
  }

  lemma DrinkKeysHaveNoSpaces()
    ensures StripSpaces(DRINKS[0].key) == "콜라"
    ensures StripSpaces(DRINKS[1].key) == "오렌지주스"
  {
  }

  lemma CutOrangeJuice()
    ensures Contains("콜오렌지주스라", "오렌지주스")
    ensures RemoveFirst("콜오렌지주스라", "오렌지주스") == "콜라"
  {
    var text, k := "콜오렌지주스라", "오렌지주스";
    assert text[0] != k[0];
    assert !OccursAt(text, k, 0);
    assert text[1..6] == k;
    assert FirstOccurrence(text, k, 1);
    var r := RemoveFirst(text, k);
    assert r[..1] == text[..1] && r[1..] == text[6..];
    assert r == r[..1] + r[1..];
  }

  lemma CutCola()
    ensures Contains("콜라", "콜라")
    ensures RemoveFirst("콜라", "콜라") == []
  {
    assert OccursAt("콜라", "콜라", 0);
    assert FirstOccurrence("콜라", "콜라", 0);
  }
}
