/** The water-footprint table and the order in which the extractor tries its
    keys: longest key first, keys of equal length in declaration order. */
module FootprintCatalog {
  import opened Text

  /** One row of the table: an item name and the litres of water per unit. */
  datatype Entry = Entry(key: string, litres: real)

  /** A table in declaration order (a Python dict keeps insertion order, and
      that order breaks ties when keys are ranked by length). */
  type Catalog = seq<Entry>

  /** The table the app ships with, in declaration order. */
  const WATER_FOOTPRINT_DATA: Catalog := [
    // meat and protein
    Entry("소고기", 1540.0),
    Entry("돼지고기", 600.0),
    Entry("닭고기", 430.0),
    Entry("계란", 200.0),
    Entry("치즈", 125.0),
    Entry("두부", 200.0),
    // grains
    Entry("쌀밥", 260.0),
    Entry("식빵", 40.0),
    Entry("라면", 550.0),
    Entry("햄버거", 2500.0),
    Entry("파스타", 185.0),
    // fruit and vegetables
    Entry("사과", 125.0),
    Entry("바나나", 100.0),
    Entry("오렌지", 80.0),
    Entry("토마토", 50.0),
    Entry("감자", 25.0),
    Entry("양상추", 20.0),
    // snacks
    Entry("초콜릿", 1700.0),
    Entry("감자칩", 185.0),
    Entry("견과류", 240.0),
    // drinks
    Entry("물", 0.2),
    Entry("우유", 200.0),
    Entry("커피", 140.0),
    Entry("콜라", 75.0),
    Entry("오렌지주스", 200.0),
    Entry("차", 30.0),
    // goods and clothing
    Entry("청바지", 10000.0),
    Entry("티셔츠", 2700.0),
    Entry("신발", 8000.0),
    Entry("종이", 10.0),
    Entry("공책", 200.0),
    // daily habits
    Entry("샤워", 60.0),
    Entry("세수", 12.0),
    Entry("양치", 6.0),
    Entry("손 씻기", 3.0),
    Entry("설거지", 120.0),
    Entry("세탁기", 150.0),
    Entry("화장실", 8.0)
  ]

  /** Dict keys are unique. */
  predicate UniqueKeys(c: Catalog)
  {
    forall i, j :: 0 <= i < j < |c| ==> c[i].key != c[j].key
  }

  /** No key is empty once its spaces are stripped (an empty key would be
      "in" every text). */
  predicate MatchableKeys(c: Catalog)
  {
    forall i :: 0 <= i < |c| ==> StripSpaces(c[i].key) != []
  }

  /** Every amount is a positive number of litres. */
  predicate PositiveAmounts(c: Catalog)
  {
    forall i :: 0 <= i < |c| ==> c[i].litres > 0.0
  }

  predicate WellFormed(c: Catalog)
  {
    UniqueKeys(c) && MatchableKeys(c) && PositiveAmounts(c)
  }

  /** The position of `key` in the table, if it is there. */
  function KeyPosition(c: Catalog, key: string): (r: Option<nat>)
    ensures r.Some? ==> r.value < |c| && c[r.value].key == key
    ensures r.Some? ==> forall q :: 0 <= q < r.value ==> c[q].key != key
    ensures r.None? ==> forall q :: 0 <= q < |c| ==> c[q].key != key
  {
    if c == [] then None
    else if c[0].key == key then Some(0)
    else match KeyPosition(c[1..], key)
      case None => None
      case Some(p) => Some(p + 1)
  }

  /** `WATER_FOOTPRINT_DATA[key]` when `key` is present. */
  function Lookup(c: Catalog, key: string): (r: Option<real>)
  {
    match KeyPosition(c, key)
    case None => None
    case Some(p) => Some(c[p].litres)
  }

  /** With unique keys every row is found at its own position. */
  lemma KeyPositionOfRow(c: Catalog, i: nat)
    requires UniqueKeys(c) && i < |c|
    ensures KeyPosition(c, c[i].key) == Some(i)
    ensures Lookup(c, c[i].key) == Some(c[i].litres)
  {
  }

  /** `key` is declared before `other`. */
  predicate DeclaredBefore(c: Catalog, key: string, other: string)
  {
    match (KeyPosition(c, key), KeyPosition(c, other))
    case (Some(p), Some(q)) => p < q
    case _ => false
  }

  // ---------------------------------------------------------------------
  // `sorted(WATER_FOOTPRINT_DATA.keys(), key=len, reverse=True)`

  /** Row `i` comes before row `j` in the ranking: its key is longer, or as
      long and declared earlier. Python's sort is stable also with
      `reverse=True`, so the tie goes to declaration order. The length is
      that of the key as declared, spaces included. */
  predicate Precedes(c: Catalog, i: nat, j: nat)
    requires i < |c| && j < |c|
  {
    |c[i].key| > |c[j].key| || (|c[i].key| == |c[j].key| && i < j)
  }

  /** Every element of `order` is a row of `c`. */
  predicate InRange(c: Catalog, order: seq<nat>)
  {
    forall p :: 0 <= p < |order| ==> order[p] < |c|
  }

  /** `order` lists rows of `c` strictly in ranking order (so each at most once). */
  predicate Ranked(c: Catalog, order: seq<nat>)
    requires InRange(c, order)
  {
    forall p, q :: 0 <= p < q < |order| ==> Precedes(c, order[p], order[q])
  }

  /** Puts row `x` into the ranked list `order` at its place. */
  function Insert(c: Catalog, x: nat, order: seq<nat>): (r: seq<nat>)
    requires x < |c| && InRange(c, order) && Ranked(c, order) && x !in order
    ensures InRange(c, r) && Ranked(c, r)
    ensures |r| == |order| + 1
    ensures forall y :: y in r <==> y == x || y in order
  {
    if order == [] || Precedes(c, x, order[0]) then [x] + order
    else
      var tail := Insert(c, x, order[1..]);
      assert forall y :: y in tail ==> Precedes(c, order[0], y);
      assert forall q :: 0 <= q < |tail| ==> tail[q] in tail;
      [order[0]] + tail
  }

  /** Insertion sort of distinct rows into ranking order. */
  function Rank(c: Catalog, rows: seq<nat>): (r: seq<nat>)
    requires InRange(c, rows)
    requires forall p, q :: 0 <= p < q < |rows| ==> rows[p] != rows[q]
    ensures InRange(c, r) && Ranked(c, r)
    ensures |r| == |rows|
    ensures forall y :: y in r <==> y in rows
  {
    if rows == [] then []
    else
      assert rows[0] !in rows[1..];
      Insert(c, rows[0], Rank(c, rows[1..]))
  }

  /** The keys of `c` in the order the extractor tries them: every row
      exactly once, longest key first, ties in declaration order. */
  function RankByLength(c: Catalog): (order: seq<nat>)
    ensures InRange(c, order) && Ranked(c, order)
    ensures |order| == |c|
    ensures forall i :: 0 <= i < |c| <==> i in order
  {
    var rows := seq(|c|, i => i);
    assert forall i :: 0 <= i < |c| ==> rows[i] == i;
    assert forall i :: i in rows ==> 0 <= i < |c|;
    forall i | 0 <= i < |c| ensures i in rows {
      assert rows[i] == i;
    }
    Rank(c, rows)
  }

  /** The head of a ranked list precedes every other row in it. */
  lemma HeadPrecedes(c: Catalog, order: seq<nat>, i: nat)
    requires InRange(c, order) && Ranked(c, order) && i in order
    ensures i < |c|
    ensures i == order[0] || Precedes(c, order[0], i)
  {
    var p :| 0 <= p < |order| && order[p] == i;
    if p > 0 {
      assert Precedes(c, order[0], order[p]);
    }
  }

  /** Two ranked lists of the same rows are the same list. */
  lemma {:induction false} RankedListsAgree(c: Catalog, order: seq<nat>, other: seq<nat>)
    requires InRange(c, order) && Ranked(c, order)
    requires InRange(c, other) && Ranked(c, other)
    requires |order| == |other|
    requires forall i :: i in order <==> i in other
    ensures order == other
    decreases |order|
  {
    if order != [] {
      // each head is in the other list, and neither can precede the other
      HeadPrecedes(c, order, other[0]);
      HeadPrecedes(c, other, order[0]);
      assert order[0] == other[0];
      forall i ensures i in order[1..] <==> i in other[1..] {
        if i in order[1..] {
          var p :| 1 <= p < |order| && order[p] == i;
          assert Precedes(c, order[0], order[p]);
          assert i in order && i in other;
          var q :| 0 <= q < |other| && other[q] == i;
          assert q != 0;
          assert other[1..][q - 1] == i;
        }
        if i in other[1..] {
          var q :| 1 <= q < |other| && other[q] == i;
          assert Precedes(c, other[0], other[q]);
          assert i in other && i in order;
          var p :| 0 <= p < |order| && order[p] == i;
          assert p != 0;
          assert order[1..][p - 1] == i;
        }
      }
      RankedListsAgree(c, order[1..], other[1..]);
    }
  }

  /** The ranking is the only one: any list that holds every row of `c`
      once and is strictly in ranking order is `RankByLength(c)`, so a
      caller that hands over keys already sorted this way gets the same scan. */
  lemma RankingIsUnique(c: Catalog, other: seq<nat>)
    requires InRange(c, other) && Ranked(c, other)
    requires |other| == |c|
    requires forall i :: 0 <= i < |c| ==> i in other
    ensures other == RankByLength(c)
  {
    RankedListsAgree(c, RankByLength(c), other);
  }

  /** The shipped table is well formed: unique keys, none empty once its
      spaces are stripped, every amount positive. */
  lemma DataWellFormed()
    ensures WellFormed(WATER_FOOTPRINT_DATA)
  {
    DataKeysUnique();
    DataMatchable();
    DataPositive();
  }

  lemma DataKeysUnique()
    ensures UniqueKeys(WATER_FOOTPRINT_DATA)
  {
    // the 703 pairs of keys, compared a block of rows at a time: the
    // blocks only keep each proof small, the row numbers mean nothing else
    DataKeysUniqueFrom0();
    DataKeysUniqueFrom2();
    DataKeysUniqueFrom4();
    DataKeysUniqueFrom6();
    DataKeysUniqueFrom8();
    DataKeysUniqueFrom10();
    DataKeysUniqueFrom12();
    DataKeysUniqueFrom15();
    DataKeysUniqueFrom20();
    DataKeysUniqueFrom28();
  }

  lemma DataKeysUniqueFrom0()
    ensures forall i, j :: 0 <= i < 2 && i < j < |WATER_FOOTPRINT_DATA| ==>
      WATER_FOOTPRINT_DATA[i].key != WATER_FOOTPRINT_DATA[j].key
  {
  }

  lemma DataKeysUniqueFrom2()
    ensures forall i, j :: 2 <= i < 4 && i < j < |WATER_FOOTPRINT_DATA| ==>
      WATER_FOOTPRINT_DATA[i].key != WATER_FOOTPRINT_DATA[j].key
  {
  }

  lemma DataKeysUniqueFrom4()
    ensures forall i, j :: 4 <= i < 6 && i < j < |WATER_FOOTPRINT_DATA| ==>
      WATER_FOOTPRINT_DATA[i].key != WATER_FOOTPRINT_DATA[j].key
  {
  }

  lemma DataKeysUniqueFrom6()
    ensures forall i, j :: 6 <= i < 8 && i < j < |WATER_FOOTPRINT_DATA| ==>
      WATER_FOOTPRINT_DATA[i].key != WATER_FOOTPRINT_DATA[j].key
  {
  }

  lemma DataKeysUniqueFrom8()
    ensures forall i, j :: 8 <= i < 10 && i < j < |WATER_FOOTPRINT_DATA| ==>
      WATER_FOOTPRINT_DATA[i].key != WATER_FOOTPRINT_DATA[j].key
  {
  }

  lemma DataKeysUniqueFrom10()
    ensures forall i, j :: 10 <= i < 12 && i < j < |WATER_FOOTPRINT_DATA| ==>
      WATER_FOOTPRINT_DATA[i].key != WATER_FOOTPRINT_DATA[j].key
  {
  }

  lemma DataKeysUniqueFrom12()
    ensures forall i, j :: 12 <= i < 15 && i < j < |WATER_FOOTPRINT_DATA| ==>
      WATER_FOOTPRINT_DATA[i].key != WATER_FOOTPRINT_DATA[j].key
  {
  }

  lemma DataKeysUniqueFrom15()
    ensures forall i, j :: 15 <= i < 20 && i < j < |WATER_FOOTPRINT_DATA| ==>
      WATER_FOOTPRINT_DATA[i].key != WATER_FOOTPRINT_DATA[j].key
  {
  }

  lemma DataKeysUniqueFrom20()
    ensures forall i, j :: 20 <= i < 28 && i < j < |WATER_FOOTPRINT_DATA| ==>
      WATER_FOOTPRINT_DATA[i].key != WATER_FOOTPRINT_DATA[j].key
  {
  }

  lemma DataKeysUniqueFrom28()
    ensures forall i, j :: 28 <= i < 38 && i < j < |WATER_FOOTPRINT_DATA| ==>
      WATER_FOOTPRINT_DATA[i].key != WATER_FOOTPRINT_DATA[j].key
  {
  }

  /** Only "손 씻기" (row 34) has a space in it; every other key is matched
      as written. */
  lemma OnlyHandWashingHasSpace()
    ensures forall e :: 0 <= e < |WATER_FOOTPRINT_DATA| && e != 34 ==> ' ' !in WATER_FOOTPRINT_DATA[e].key
    ensures ' ' in WATER_FOOTPRINT_DATA[34].key
  {
    NoSpacesBefore19();
    NoSpacesFrom19();
  }

  // The two halves of the table, checked apart only to keep each proof small.
  lemma NoSpacesBefore19()
    ensures forall e :: 0 <= e < 19 ==> ' ' !in WATER_FOOTPRINT_DATA[e].key
  {
  }

  lemma NoSpacesFrom19()
    ensures forall e :: 19 <= e < |WATER_FOOTPRINT_DATA| && e != 34 ==> ' ' !in WATER_FOOTPRINT_DATA[e].key
  {
  }

  /** "손 씻기" is four characters long but is matched as the three of "손씻기". */
  lemma HandWashing()
    ensures |WATER_FOOTPRINT_DATA[34].key| == 4
    ensures StripSpaces(WATER_FOOTPRINT_DATA[34].key) == "손씻기"
  {
  }

  /** Every key starts with a character other than a space, which stripping keeps. */
  lemma DataMatchable()
    ensures MatchableKeys(WATER_FOOTPRINT_DATA)
  {
    DataKeysStartWithWord();
    forall e | 0 <= e < |WATER_FOOTPRINT_DATA|
      ensures StripSpaces(WATER_FOOTPRINT_DATA[e].key) != []
    {
      StripKeepsFirstWord(WATER_FOOTPRINT_DATA[e].key);
    }
  }

  lemma DataKeysStartWithWord()
    ensures forall e :: 0 <= e < |WATER_FOOTPRINT_DATA| ==>
      WATER_FOOTPRINT_DATA[e].key != [] && WATER_FOOTPRINT_DATA[e].key[0] != ' '
  {
  }

  lemma DataPositive()
    ensures PositiveAmounts(WATER_FOOTPRINT_DATA)
  {
  }
}
