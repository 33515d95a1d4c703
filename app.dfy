/** What the page does when the button is pressed: refuse empty input,
    rewrite a set-menu order, run the extractor on the shipped table and
    add up the litres of what it found. Widgets and display are not here. */
module App {
  import opened Text
  import opened FootprintCatalog
  import opened Extractor

  const SET_WORD: string := "세트"
  const BURGER_WORD: string := "버거"
  const HAMBURGER_WORD: string := "햄버거"
  /** The sides a set menu brings: potato chips and a cola. */
  const SET_SIDES: string := " 감자칩 콜라"

  /** Every "햄버거" holds a "버거". */
  lemma HamburgerHoldsBurger(s: string)
    ensures Contains(s, HAMBURGER_WORD) ==> Contains(s, BURGER_WORD)
  {
    if Contains(s, HAMBURGER_WORD) {
      var j :| OccursAt(s, HAMBURGER_WORD, j);
      assert HAMBURGER_WORD[1..3] == BURGER_WORD;
      assert OccursAt(HAMBURGER_WORD, BURGER_WORD, 1);
      OccursWithin(s, HAMBURGER_WORD, BURGER_WORD, j, 1);
    }
  }

  /** The set-menu rewrite: an order that mentions a set and a burger gets
      the sides appended; anything else passes unchanged. The test for
      "햄버거" adds nothing to the test for "버거". */
  function SetMenuRewrite(userInput: string): (r: string)
    ensures r != userInput <==> Contains(userInput, SET_WORD) && Contains(userInput, BURGER_WORD)
    ensures r == userInput || r == userInput + SET_SIDES
    ensures |r| >= |userInput| && r[..|userInput|] == userInput
  {
    HamburgerHoldsBurger(userInput);
    if Contains(userInput, SET_WORD) && (Contains(userInput, BURGER_WORD) || Contains(userInput, HAMBURGER_WORD))
    then userInput + SET_SIDES
    else userInput
  }

  /** The sides, stripped, are "감자칩콜라". */
  lemma StrippedSides()
    ensures StripSpaces(SET_SIDES) == "감자칩콜라"
  {
    var chips, cola := "감자칩", "콜라";
    assert SET_SIDES == ((" " + chips) + " ") + cola;
    assert StripSpaces(" ") == [];
    assert StripSpaces(chips) == chips;
    assert StripSpaces(cola) == cola;
    StripSpacesConcat(" ", chips);
    StripSpacesConcat(" " + chips, " ");
    StripSpacesConcat((" " + chips) + " ", cola);
    assert [] + chips == chips;
    assert chips + [] == chips;
    assert chips + cola == "감자칩콜라";
  }

  /** After the rewrite the extractor sees the order followed by "감자칩콜라". */
  lemma SetMenuAddsSides(userInput: string)
    requires Contains(userInput, SET_WORD) && Contains(userInput, BURGER_WORD)
    ensures StripSpaces(SetMenuRewrite(userInput)) == StripSpaces(userInput) + "감자칩콜라"
  {
    StripSpacesConcat(userInput, SET_SIDES);
    StrippedSides();
  }

  /** The litres of all items, in list order. */
  function Sum(items: seq<Found>): (total: real)
  {
    if items == [] then 0.0 else items[0].litres + Sum(items[1..])
  }

  lemma {:induction false} SumAppend(a: seq<Found>, b: seq<Found>)
    ensures Sum(a + b) == Sum(a) + Sum(b)
  {
    if a == [] {
      assert a + b == b;
    } else {
      assert (a + b)[1..] == a[1..] + b;
      SumAppend(a[1..], b);
    }
  }

  lemma SumCons(x: Found, s: seq<Found>)
    ensures Sum([x] + s) == x.litres + Sum(s)
  {
    assert ([x] + s)[1..] == s;
  }

  /** Taking item `k` out of a list takes its litres out of the total. */
  lemma SumWithout(b: seq<Found>, k: nat)
    requires k < |b|
    ensures Sum(b) == b[k].litres + Sum(b[..k] + b[k + 1..])
  {
    var before, after := b[..k], b[k + 1..];
    assert b == before + ([b[k]] + after);
    SumAppend(before, [b[k]] + after);
    SumCons(b[k], after);
    SumAppend(before, after);
  }

  lemma MultisetWithout(b: seq<Found>, k: nat)
    requires k < |b|
    ensures multiset(b[..k] + b[k + 1..]) == multiset(b) - multiset{b[k]}
  {
    assert b == b[..k] + [b[k]] + b[k + 1..];
  }

  /** The first item of `a` sits somewhere in `b`, a reordering of `a`; what
      is left of the two lists is again one list reordered. */
  lemma MatchFirst(a: seq<Found>, b: seq<Found>) returns (k: nat)
    requires multiset(a) == multiset(b) && a != []
    ensures k < |b| && b[k] == a[0]
    ensures multiset(a[1..]) == multiset(b[..k] + b[k + 1..])
  {
    assert a[0] in multiset(a);
    assert a[0] in b;
    k :| 0 <= k < |b| && b[k] == a[0];
    calc {
      multiset(a[1..]);
      == { MultisetTail(a); }
      multiset(a) - multiset{a[0]};
      == // b is a reordering of a, and b[k] is a[0]
      multiset(b) - multiset{b[k]};
      == { MultisetWithout(b, k); }
      multiset(b[..k] + b[k + 1..]);
    }
  }

  lemma MultisetTail(a: seq<Found>)
    requires a != []
    ensures multiset(a[1..]) == multiset(a) - multiset{a[0]}
  {
    assert a == [a[0]] + a[1..];
  }

  /** The total does not depend on the order of the items. */
  lemma {:induction false} SumReorder(a: seq<Found>, b: seq<Found>)
    requires multiset(a) == multiset(b)
    ensures Sum(a) == Sum(b)
    decreases |a|
  {
    if a == [] {
      assert |b| == |multiset(b)| == 0;
    } else {
      var k := MatchFirst(a, b);
      SumReorder(a[1..], b[..k] + b[k + 1..]);
      SumWithout(b, k);
    }
  }

  /** The running total of lines 113-115. */
  method TotalFootprint(results: seq<Found>) returns (total: real)
    ensures total == Sum(results)
  {
    total := 0.0;
    for i := 0 to |results|
      invariant total == Sum(results[..i])
    {
      assert results[..i + 1] == results[..i] + [results[i]];
      SumAppend(results[..i], [results[i]]);
      total := total + results[i].litres;
    }
    assert results[..|results|] == results;
  }

  /** What the page shows: a request for input, a "nothing found" warning,
      or the items with their total (the total is displayed only for more
      than one item). */
  datatype Outcome =
    | MissingInput
    | NothingFound
    | Footprints(items: seq<Found>, total: real, showTotal: bool)

  /** One press of the button with `userInput` in the text box. */
  method Calculate(userInput: string) returns (outcome: Outcome)
    ensures userInput == [] <==> outcome == MissingInput
    ensures userInput != [] ==>
      var items := Extract(WATER_FOOTPRINT_DATA, SetMenuRewrite(userInput));
      if items == [] then outcome == NothingFound
      else outcome == Footprints(items, Sum(items), |items| > 1)
    ensures userInput != [] && (forall i :: 0 <= i < |userInput| ==> userInput[i] == ' ') ==>
      outcome == NothingFound
  {
    if userInput == [] {
      return MissingInput;
    }
    if forall i :: 0 <= i < |userInput| ==> userInput[i] == ' ' {
      SpacesOnlyFindNothing(userInput);
    }
    var text := SetMenuRewrite(userInput);
    var results := FindFootprints(WATER_FOOTPRINT_DATA, text);
    if results == [] {
      return NothingFound;
    }
    var total := TotalFootprint(results);
    outcome := Footprints(results, total, |results| > 1);
  }

  /** Input of spaces only passes the emptiness test (a non-empty string is
      true in Python) but finds nothing: the page warns instead of asking. */
  lemma SpacesOnlyFindNothing(userInput: string)
    requires forall i :: 0 <= i < |userInput| ==> userInput[i] == ' '
    ensures SetMenuRewrite(userInput) == userInput
    ensures Extract(WATER_FOOTPRINT_DATA, SetMenuRewrite(userInput)) == []
  {
    SpacesHoldNoWord(userInput, SET_WORD);
    DataMatchable();
    BlankInputFindsNothing(WATER_FOOTPRINT_DATA, userInput);
  }
}
