/** `find_footprints_from_text`: strip the spaces from the text, then try
    every key of the table, longest first; a key that occurs in what is left
    of the text is reported once, at the table's amount, and its leftmost
    occurrence is cut out of the text before the next key is tried. */
module Extractor {
  import opened Text
  import opened FootprintCatalog

  /** One reported item: the key as declared and the litres charged for it. */
  datatype Found = Found(item: string, litres: real)

  /** The quantity charged per match: the source reads no number from the
      text and always multiplies by one. */
  const COUNT: real := 1.0

  /** The rows of `c` whose keys hit, in the order tried, when the keys
      listed in `order` are tried one after the other on the working text. */
  function Scan(c: Catalog, order: seq<nat>, work: string): (hits: seq<nat>)
    requires InRange(c, order)
    ensures InRange(c, hits)
    ensures |hits| <= |order|
    decreases |order|
  {
    if order == [] then []
    else
      var key := StripSpaces(c[order[0]].key);
      if Contains(work, key) then [order[0]] + Scan(c, order[1..], RemoveFirst(work, key))
      else Scan(c, order[1..], work)
  }

  /** The report for the rows `hits`: the key of each and its amount times `COUNT`. */
  function Report(c: Catalog, hits: seq<nat>): (r: seq<Found>)
    requires InRange(c, hits)
    ensures |r| == |hits|
    ensures forall i :: 0 <= i < |r| ==> r[i] == Found(c[hits[i]].key, c[hits[i]].litres)
  {
    if hits == [] then []
    else [Found(c[hits[0]].key, c[hits[0]].litres * COUNT)] + Report(c, hits[1..])
  }

  /** Reporting a row and then more rows. */
  lemma ReportCons(c: Catalog, x: nat, hits: seq<nat>)
    requires x < |c| && InRange(c, hits)
    ensures Report(c, [x] + hits) == [Found(c[x].key, c[x].litres)] + Report(c, hits)
  {
    assert ([x] + hits)[1..] == hits;
  }

  /** What `find_footprints_from_text` returns for `text` over the table `c`. */
  function Extract(c: Catalog, text: string): (r: seq<Found>)
  {
    Report(c, Scan(c, RankByLength(c), StripSpaces(text)))
  }

  /** The extractor as the source runs it: one pass over the ranked keys with
      a growing result list and a shrinking working text. */
  method FindFootprints(c: Catalog, text: string) returns (found: seq<Found>)
    ensures found == Extract(c, text)
  {
    found := [];
    var work := StripSpaces(text);
    var keys := RankByLength(c);
    ghost var whole := Report(c, Scan(c, keys, work));
    while keys != []
      invariant InRange(c, keys)
      invariant found + Report(c, Scan(c, keys, work)) == whole
      decreases |keys|
    {
      var keyword := c[keys[0]].key;
      var key := StripSpaces(keyword);
      if Contains(work, key) {
        TakeHit(c, keys, work, found);
        found := found + [Found(keyword, c[keys[0]].litres * COUNT)];
        work := RemoveFirst(work, key);
      }
      keys := keys[1..];
    }
  }

  /** A key that hits: its item joins what was found so far and its
      occurrence leaves the working text, with the whole report unchanged. */
  lemma TakeHit(c: Catalog, keys: seq<nat>, work: string, found: seq<Found>)
    requires InRange(c, keys) && keys != []
    requires Contains(work, StripSpaces(c[keys[0]].key))
    ensures (found + [Found(c[keys[0]].key, c[keys[0]].litres * COUNT)])
        + Report(c, Scan(c, keys[1..], RemoveFirst(work, StripSpaces(c[keys[0]].key))))
      == found + Report(c, Scan(c, keys, work))
  {
    var later := Scan(c, keys[1..], RemoveFirst(work, StripSpaces(c[keys[0]].key)));
    ReportCons(c, keys[0], later);
    var item := Found(c[keys[0]].key, c[keys[0]].litres * COUNT);
    assert (found + [item]) + Report(c, later) == found + ([item] + Report(c, later));
  }

  // ---------------------------------------------------------------------
  // What the result is

  /** The rest of a ranked list is ranked, and its head precedes all of it. */
  lemma RankedTail(c: Catalog, order: seq<nat>)
    requires InRange(c, order) && Ranked(c, order) && order != []
    ensures InRange(c, order[1..]) && Ranked(c, order[1..])
    ensures forall h :: h in order[1..] ==> h < |c| && Precedes(c, order[0], h)
  {
    forall h | h in order[1..] ensures h < |c| && Precedes(c, order[0], h) {
      var q :| 0 <= q < |order[1..]| && order[1..][q] == h;
      assert order[q + 1] == h;
    }
  }

  /** A row that precedes every row of a ranked list can go in front of it. */
  lemma RankedCons(c: Catalog, x: nat, s: seq<nat>)
    requires x < |c| && InRange(c, s) && Ranked(c, s)
    requires forall h :: h in s ==> h < |c| && Precedes(c, x, h)
    ensures InRange(c, [x] + s) && Ranked(c, [x] + s)
  {
    var r := [x] + s;
    forall p, q | 0 <= p < q < |r| ensures Precedes(c, r[p], r[q]) {
      assert r[q] == s[q - 1];
      if p == 0 {
        assert s[q - 1] in s;
      } else {
        assert r[p] == s[p - 1];
      }
    }
  }

  /** Hits come out in the order the keys were tried. */
  lemma {:induction false} ScanKeepsRanking(c: Catalog, order: seq<nat>, work: string)
    requires InRange(c, order) && Ranked(c, order)
    ensures forall h :: h in Scan(c, order, work) ==> h in order
    ensures Ranked(c, Scan(c, order, work))
    decreases |order|
  {
    if order != [] {
      var key := StripSpaces(c[order[0]].key);
      var rest := order[1..];
      var work' := if Contains(work, key) then RemoveFirst(work, key) else work;
      RankedTail(c, order);
      ScanKeepsRanking(c, rest, work');
      var tail := Scan(c, rest, work');
      if Contains(work, key) {
        RankedCons(c, order[0], tail);
      }
    }
  }

  /** Every reported item is a key of the table and is charged exactly the
      table's amount for it; no key is reported twice; items come longest key
      first, and items with keys of equal length in declaration order. */
  lemma ExtractResults(c: Catalog, text: string)
    requires UniqueKeys(c)
    ensures var r := Extract(c, text);
      && (forall i :: 0 <= i < |r| ==> Lookup(c, r[i].item) == Some(r[i].litres))
      && (forall i, j :: 0 <= i < j < |r| ==> r[i].item != r[j].item)
      && (forall i, j :: 0 <= i < j < |r| ==> |r[i].item| >= |r[j].item|)
      && (forall i, j :: 0 <= i < j < |r| && |r[i].item| == |r[j].item| ==>
            DeclaredBefore(c, r[i].item, r[j].item))
  {
    var hits := Scan(c, RankByLength(c), StripSpaces(text));
    ScanKeepsRanking(c, RankByLength(c), StripSpaces(text));
    var r := Extract(c, text);
    forall i | 0 <= i < |r| ensures KeyPosition(c, r[i].item) == Some(hits[i]) {
      KeyPositionOfRow(c, hits[i]);
    }
  }

  // ---------------------------------------------------------------------
  // No character is counted twice

  /** The characters the rows `hits` take out of the working text: the
      length of each key with its spaces stripped. */
  function Consumed(c: Catalog, hits: seq<nat>): (n: nat)
    requires InRange(c, hits)
  {
    if hits == [] then 0
    else |StripSpaces(c[hits[0]].key)| + Consumed(c, hits[1..])
  }

  /** Every hit cuts its key out of the working text, so the keys reported
      by one scan together take up no more characters than the text has:
      no span of the input is counted for two items. */
  lemma {:induction false} ScanConsumes(c: Catalog, order: seq<nat>, work: string)
    requires InRange(c, order)
    ensures Consumed(c, Scan(c, order, work)) <= |work|
    decreases |order|
  {
    if order != [] {
      var key := StripSpaces(c[order[0]].key);
      if Contains(work, key) {
        var rest := Scan(c, order[1..], RemoveFirst(work, key));
        ScanConsumes(c, order[1..], RemoveFirst(work, key));
        assert ([order[0]] + rest)[1..] == rest;
      } else {
        ScanConsumes(c, order[1..], work);
      }
    }
  }

  /** The items `find_footprints_from_text` reports use up at most the
      non-space characters of the input. */
  lemma ExtractConsumes(c: Catalog, text: string)
    ensures Consumed(c, Scan(c, RankByLength(c), StripSpaces(text))) <= |StripSpaces(text)|
    ensures MatchableKeys(c) ==> |Extract(c, text)| <= |StripSpaces(text)|
  {
    var hits := Scan(c, RankByLength(c), StripSpaces(text));
    ScanConsumes(c, RankByLength(c), StripSpaces(text));
    if MatchableKeys(c) {
      ConsumedCountsHits(c, hits);
    }
  }

  /** When no key strips to nothing, each hit takes at least one character. */
  lemma {:induction false} ConsumedCountsHits(c: Catalog, hits: seq<nat>)
    requires InRange(c, hits) && MatchableKeys(c)
    ensures Consumed(c, hits) >= |hits|
    decreases |hits|
  {
    if hits != [] {
      ConsumedCountsHits(c, hits[1..]);
    }
  }

  // ---------------------------------------------------------------------
  // Blank input

  /** Over an empty working text no key with a character in it hits. */
  lemma {:induction false} ScanBlank(c: Catalog, order: seq<nat>)
    requires InRange(c, order) && MatchableKeys(c)
    ensures Scan(c, order, []) == []
    decreases |order|
  {
    if order != [] {
      EmptyContainsNothing(StripSpaces(c[order[0]].key));
      ScanBlank(c, order[1..]);
    }
  }

  /** Empty or all-space input yields no items (provided no key is empty once
      its spaces are stripped). */
  lemma BlankInputFindsNothing(c: Catalog, text: string)
    requires MatchableKeys(c)
    requires forall i :: 0 <= i < |text| ==> text[i] == ' '
    ensures Extract(c, text) == []
  {
    StripOnlySpaces(text);
    ScanBlank(c, RankByLength(c));
  }

  // ---------------------------------------------------------------------
  // Spaces do not matter

  /** Putting a space anywhere in the input changes nothing: "면 티셔츠" and
      "면티셔츠" give the same items. */
  lemma ExtractIgnoresSpaces(c: Catalog, before: string, after: string)
    ensures Extract(c, before + " " + after) == Extract(c, before + after)
  {
    StripSpacesConcat(before + " ", after);
    StripSpacesConcat(before, " ");
    StripSpacesConcat(before, after);
    assert StripSpaces(" ") == [];
    assert StripSpaces(before + " " + after) == StripSpaces(before + after);
  }

  // ---------------------------------------------------------------------
  // Longest key first

  /** Keys that do not occur are passed over without touching the text. */
  lemma {:induction false} ScanSkipsMisses(c: Catalog, order: seq<nat>, work: string, p: nat)
    requires InRange(c, order) && p <= |order|
    requires forall q :: 0 <= q < p ==> !Contains(work, StripSpaces(c[order[q]].key))
    ensures Scan(c, order, work) == Scan(c, order[p..], work)
    decreases p
  {
    if p > 0 {
      assert order[1..][p - 1..] == order[p..];
      ScanSkipsMisses(c, order[1..], work, p - 1);
    }
  }

  /** The first position, from `i` on, whose key occurs in the working
      text; the key at `p` occurs, so there is one no later than `p`. */
  function FirstHitFrom(c: Catalog, order: seq<nat>, work: string, i: nat, p: nat): (q: nat)
    requires InRange(c, order) && i <= p < |order|
    requires Contains(work, StripSpaces(c[order[p]].key))
    ensures i <= q <= p && Contains(work, StripSpaces(c[order[q]].key))
    ensures forall r :: i <= r < q ==> !Contains(work, StripSpaces(c[order[r]].key))
    decreases p - i
  {
    if Contains(work, StripSpaces(c[order[i]].key)) then i
    else FirstHitFrom(c, order, work, i + 1, p)
  }

  /** Rows `a` and `b` have a character in common once their spaces are
      stripped: only then can a cut of `a`'s key destroy an occurrence of
      `b`'s. */
  predicate Shares(c: Catalog, a: nat, b: nat)
    requires a < |c| && b < |c|
  {
    exists ch :: ch in StripSpaces(c[a].key) && ch in StripSpaces(c[b].key)
  }

  /** A key that occurs in the working text is found by the scan, unless a
      key tried before it that shares a character with it is found: a cut of
      a key with no character in common leaves the occurrence intact. */
  lemma {:induction false} ScanFindsOrShares(c: Catalog, order: seq<nat>, work: string, p: nat)
    requires InRange(c, order) && p < |order|
    requires Contains(work, StripSpaces(c[order[p]].key))
    ensures var hits := Scan(c, order, work);
      order[p] in hits || exists r :: 0 <= r < p && order[r] in hits && Shares(c, order[r], order[p])
    decreases p
  {
    var q := FirstHitFrom(c, order, work, 0, p);
    var k, m := StripSpaces(c[order[q]].key), StripSpaces(c[order[p]].key);
    var more, w' := order[q + 1..], RemoveFirst(work, k);
    FirstHitStep(c, order, work, q);
    var hits := Scan(c, order, work);
    assert order[q] in hits;
    if q < p && !Shares(c, order[q], order[p]) {
      var j :| OccursAt(work, m, j);
      CutKeepsOccurrence(work, k, m, j);
      assert more[p - q - 1] == order[p];
      ScanFindsOrShares(c, more, w', p - q - 1);
      LiftPastFirstHit(c, order, q, p, Scan(c, more, w'), hits);
    }
  }

  /** What holds of the scan after the first hit `order[q]` holds of the
      whole scan, with the positions shifted back past `q`. */
  lemma LiftPastFirstHit(c: Catalog, order: seq<nat>, q: nat, p: nat, tail: seq<nat>, hits: seq<nat>)
    requires InRange(c, order) && q < p < |order| && hits == [order[q]] + tail
    requires var more := order[q + 1..];
      order[p] in tail || exists r :: 0 <= r < p - q - 1 && more[r] in tail && Shares(c, more[r], order[p])
    ensures order[p] in hits || exists r :: 0 <= r < p && order[r] in hits && Shares(c, order[r], order[p])
  {
    var more := order[q + 1..];
    if order[p] !in tail {
      var r :| 0 <= r < p - q - 1 && more[r] in tail && Shares(c, more[r], order[p]);
      assert more[r] == order[q + 1 + r] && order[q + 1 + r] in hits;
    }
  }

  /** The scan passes over the keys before the first one that hits, reports
      that one and goes on with the rest of the keys on the cut text. */
  lemma FirstHitStep(c: Catalog, order: seq<nat>, work: string, q: nat)
    requires InRange(c, order) && q < |order|
    requires Contains(work, StripSpaces(c[order[q]].key))
    requires forall r :: 0 <= r < q ==> !Contains(work, StripSpaces(c[order[r]].key))
    ensures Scan(c, order, work) ==
      [order[q]] + Scan(c, order[q + 1..], RemoveFirst(work, StripSpaces(c[order[q]].key)))
  {
    ScanSkipsMisses(c, order, work, q);
    assert order[q..][0] == order[q];
    assert order[q..][1..] == order[q + 1..];
  }

  /** A first key that hits is the first hit. */
  lemma HeadHitLeads(c: Catalog, order: seq<nat>, work: string)
    requires InRange(c, order) && order != []
    requires Contains(work, StripSpaces(c[order[0]].key))
    ensures Scan(c, order, work) != [] && Scan(c, order, work)[0] == order[0]
  {
  }

  /** Every key that occurs in the input (spaces stripped from both) is
      reported, or a key ranked before it (longer, or as long and declared
      earlier) that shares a character with it is: only such a key can have
      taken the characters it needed. */
  lemma PresentIsFoundOrOverlapped(c: Catalog, text: string, e: nat)
    requires e < |c|
    requires Contains(StripSpaces(text), StripSpaces(c[e].key))
    ensures var hits := Scan(c, RankByLength(c), StripSpaces(text));
      e in hits || exists h :: h in hits && h < |c| && Precedes(c, h, e) && Shares(c, h, e)
  {
    var order := RankByLength(c);
    assert e in order;
    var p :| 0 <= p < |order| && order[p] == e;
    ScanFindsOrShares(c, order, StripSpaces(text), p);
    var hits := Scan(c, order, StripSpaces(text));
    if e !in hits {
      var q :| 0 <= q < p && order[q] in hits && Shares(c, order[q], order[p]);
      assert Precedes(c, order[q], order[p]);
    }
  }

  /** Every character of the keys of rows `hits` is a character of `work`. */
  predicate DrawnFrom(c: Catalog, hits: seq<nat>, work: string)
    requires InRange(c, hits)
  {
    forall i :: 0 <= i < |hits| ==> AllCharactersIn(StripSpaces(c[hits[i]].key), work)
  }

  /** Every character of a reported key is a character of the working text:
      the scan only ever cuts characters out of it. */
  lemma {:induction false} HitsUseTextCharacters(c: Catalog, order: seq<nat>, work: string)
    requires InRange(c, order)
    ensures DrawnFrom(c, Scan(c, order, work), work)
    decreases |order|
  {
    if order != [] {
      var key := StripSpaces(c[order[0]].key);
      if Contains(work, key) {
        var w' := RemoveFirst(work, key);
        HitsUseTextCharacters(c, order[1..], w');
        ContainedCharacters(work, key);
        RemoveFirstKeepsCharacters(work, key);
        DrawnCons(c, order[0], Scan(c, order[1..], w'), w', work);
      } else {
        HitsUseTextCharacters(c, order[1..], work);
      }
    }
  }

  /** Every reported key, spaces stripped, is made of characters of the
      input: the extractor never reports an item whose name is not spelt out
      in what the user typed. */
  lemma ExtractUsesInputCharacters(c: Catalog, text: string)
    ensures var r := Extract(c, text);
      forall i :: 0 <= i < |r| ==> AllCharactersIn(StripSpaces(r[i].item), text)
  {
    var hits := Scan(c, RankByLength(c), StripSpaces(text));
    HitsUseTextCharacters(c, RankByLength(c), StripSpaces(text));
    var r := Extract(c, text);
    forall i | 0 <= i < |r| ensures AllCharactersIn(StripSpaces(r[i].item), text) {
      assert r[i].item == c[hits[i]].key;
      assert AllCharactersIn(StripSpaces(c[hits[i]].key), StripSpaces(text));
    }
  }

  /** A hit whose characters are in the text, followed by hits drawn from
      a text whose characters are in it, is drawn from the text. */
  lemma DrawnCons(c: Catalog, x: nat, tail: seq<nat>, w': string, work: string)
    requires x < |c| && InRange(c, tail) && DrawnFrom(c, tail, w')
    requires AllCharactersIn(StripSpaces(c[x].key), work) && AllCharactersIn(w', work)
    ensures DrawnFrom(c, [x] + tail, work)
  {
    var hits := [x] + tail;
    forall i | 0 <= i < |hits| ensures AllCharactersIn(StripSpaces(c[hits[i]].key), work) {
      if i > 0 {
        assert hits[i] == tail[i - 1];
      }
    }
  }

  /** The extractor reports nothing exactly when no key of the table occurs
      in the input, spaces stripped from both. */
  lemma ExtractEmptyIff(c: Catalog, text: string)
    ensures Extract(c, text) == [] <==>
      forall e :: 0 <= e < |c| ==> !Contains(StripSpaces(text), StripSpaces(c[e].key))
  {
    var order := RankByLength(c);
    var work := StripSpaces(text);
    if forall e :: 0 <= e < |c| ==> !Contains(work, StripSpaces(c[e].key)) {
      ScanSkipsMisses(c, order, work, |order|);
      assert order[|order|..] == [];
    } else {
      var e :| 0 <= e < |c| && Contains(work, StripSpaces(c[e].key));
      PresentIsFoundOrOverlapped(c, text, e);
      assert Scan(c, order, work) != [];
    }
  }

  /** A text in which some key occurs (spaces stripped) finds something. */
  lemma PresentKeyFindsSomething(c: Catalog, text: string, e: nat)
    requires e < |c|
    requires Contains(StripSpaces(text), StripSpaces(c[e].key))
    ensures Extract(c, text) != []
  {
    ExtractEmptyIff(c, text);
  }

  /** When the text is exactly one key, only that key is reported, as long
      as no key tried before it occurs inside it: the key consumes all the
      characters before any shorter key that is part of it is tried. */
  lemma LongestKeyWins(c: Catalog, text: string, a: nat)
    requires MatchableKeys(c) && a < |c|
    requires StripSpaces(text) == StripSpaces(c[a].key)
    requires forall e :: 0 <= e < |c| && Precedes(c, e, a) ==>
      !Contains(StripSpaces(c[a].key), StripSpaces(c[e].key))
    ensures Extract(c, text) == [Found(c[a].key, c[a].litres)]
  {
    var order := RankByLength(c);
    var w := StripSpaces(text);
    assert a in order;
    var p :| 0 <= p < |order| && order[p] == a;
    forall q | 0 <= q < p ensures !Contains(w, StripSpaces(c[order[q]].key)) {
      assert Precedes(c, order[q], order[p]);
    }
    ScanSkipsMisses(c, order, w, p);
    WholeTextKey(c, order[p..], w);
  }

  /** A first key that is the whole working text takes all of it, and no
      later key finds anything. */
  lemma WholeTextKey(c: Catalog, order: seq<nat>, w: string)
    requires MatchableKeys(c) && InRange(c, order) && order != []
    requires StripSpaces(c[order[0]].key) == w
    ensures Scan(c, order, w) == [order[0]]
  {
    assert OccursAt(w, w, 0);
    assert FirstOccurrence(w, w, 0);
    assert RemoveFirst(w, w) == [];
    ScanBlank(c, order[1..]);
  }
}
