# Water-footprint keyword calculator: a Dafny model

The app is a one-page calculator. The user types a sentence such as
"초콜릿 먹고 청바지 입기". The app looks up every item of its built-in table that
occurs in the sentence and shows the litres of water each one takes. When
more than one item is found, it also shows the total.

This project models the part of the app that does the work:

- `text.dfy` (module `Text`) holds the three Python string operations the
  extractor is built from, as functions on `string`:
  - `str.replace(" ", "")` is `StripSpaces`;
  - `k in s` is `Contains`, defined through `IndexOf` (`str.find`);
  - `s.replace(k, "", 1)` is `RemoveFirst`.
- `catalog.dfy` (module `FootprintCatalog`) holds the table:
  - the 38 rows of `WATER_FOOTPRINT_DATA` in declaration order;
  - lookup by key;
  - the order in which keys are tried. `sorted(keys, key=len, reverse=True)`
    is stable, so the order is longest key first, and keys of equal length
    keep their declaration order. It is built by insertion and proved to be
    the only ordering of the rows with that property.
- `extractor.dfy` (module `Extractor`) holds `find_footprints_from_text`:
  - the specification function `Extract`;
  - the loop `FindFootprints`, proved equal to `Extract`;
  - the properties of its result.
- `app.dfy` (module `App`) holds what happens when the button is pressed:
  - empty input is refused;
  - the set-menu rewrite;
  - the extractor is run on the shipped table;
  - the running total is computed.
- `scenarios.dfy` (module `Scenarios`) holds the extractor on particular
  inputs:
  - longest-key precedence for "오렌지주스" and "감자칩";
  - spaces in the input do not matter;
  - the sample sentence shown on the page reports chocolate and jeans;
  - cutting a key out can join its two neighbours into another key.

Amounts are exact `real`s: "물" is 0.2 L and every other amount is a whole
number. A Python `str` is a sequence of code points, and a Dafny `string` is
a sequence of characters. Every Hangul syllable in the table is a single
character in both, so key lengths agree with Python's `len`.

## Model

| member | source | states |
|---|---|---|
| FootprintCatalog.DataWellFormed | streamlit_app.py:12-64 | The shipped table has pairwise distinct keys. No key is empty once its spaces are stripped. Every amount is positive. |
| FootprintCatalog.DataKeysUnique | streamlit_app.py:12-64 | No two rows of the shipped table have the same key, so a dict literal with these keys loses no entry. |
| FootprintCatalog.DataMatchable | streamlit_app.py:12-64 | Every key of the shipped table keeps at least one character after its spaces are stripped, so none matches every text. |
| FootprintCatalog.HandWashing | streamlit_app.py:60 | "손 씻기" is matched as "손씻기" (three characters) although its own length is four. |
| FootprintCatalog.OnlyHandWashingHasSpace | streamlit_app.py:14-63 | "손 씻기" (line 60) holds a space and no other key does, so every other key is matched as written. |
| FootprintCatalog.KeyPosition | streamlit_app.py:84 | The result is the first row holding the key, or none when no row holds it. |
| FootprintCatalog.KeyPositionOfRow | streamlit_app.py:84 | With distinct keys, looking up a row's key finds that row and its amount, as `WATER_FOOTPRINT_DATA[keyword]` does. |
| FootprintCatalog.Insert | streamlit_app.py:74 | Inserting a row into a ranked list of rows keeps it ranked: longer key first, equal lengths in declaration order. The result holds exactly the old rows and the new one. |
| FootprintCatalog.Rank | streamlit_app.py:74 | Ranking distinct rows gives a ranked list of the same length with the same rows. |
| FootprintCatalog.RankByLength | streamlit_app.py:74 | The order keys are tried in is a permutation of all rows, strictly ranked by descending raw key length, with ties in declaration order. This is what Python's stable `sorted(key=len, reverse=True)` gives. |
| FootprintCatalog.RankedListsAgree | streamlit_app.py:74 | Two ranked lists with the same rows are equal. |
| FootprintCatalog.RankingIsUnique | streamlit_app.py:74 | Any ranked permutation of the rows is `RankByLength`, so the ranking is fully determined by length and declaration order. |
| Text.StripSpaces | streamlit_app.py:71 | The result has no space, uses only characters of the input and is no longer than it. Input without spaces is returned unchanged. |
| Text.StripSpacesConcat | streamlit_app.py:71 | Stripping spaces distributes over concatenation. |
| Text.StripOnlySpaces | streamlit_app.py:71 | A text made only of spaces strips to the empty text. |
| Text.IndexOf | streamlit_app.py:78 | The result is the leftmost occurrence of the key, or none when the key occurs nowhere. |
| Text.Contains | streamlit_app.py:78 | `k in s` holds exactly when `k` occurs at some index of `s`. |
| Text.RemoveFirst | streamlit_app.py:85 | A miss leaves the text unchanged. A hit cuts out the leftmost occurrence: the text before and after it is kept, and the text is the result with the key put back at that index. |
| Text.ContainsNoLonger | streamlit_app.py:78 | A key at least as long as the text occurs in it only when it is the text. |
| Text.CutKeepsOccurrence | streamlit_app.py:85 | Cutting out the first occurrence of a key leaves an occurrence of any other key that shares no character with it. |
| Text.ContainedCharacters | streamlit_app.py:78 | Every character of a key that is `in` a text is a character of that text. |
| Text.RemoveFirstKeepsCharacters | streamlit_app.py:85 | Cutting a key out of a text brings in no new character. |
| Text.StrippedHoldsWord | streamlit_app.py:71-78 | A word without spaces, with any text on either side, is `in` the whole once its spaces are stripped. |
| Text.SpacesHoldNoWord | streamlit_app.py:106 | A text of spaces only holds no key that starts with another character. |
| Extractor.Scan | streamlit_app.py:76-85 | The rows that hit are rows of the table, and there are no more of them than keys tried. |
| Extractor.Report | streamlit_app.py:81-84 | Each reported item is the row's key with the row's amount (count is always one). |
| Extractor.FindFootprints | streamlit_app.py:67-87 | The loop over the ranked keys, with its growing result list and shrinking working text, returns exactly `Extract(c, text)`. |
| Extractor.ScanKeepsRanking | streamlit_app.py:76-85 | Hits come out as a sub-list of the ranked order, so they are still ranked. |
| Extractor.ExtractResults | streamlit_app.py:67-87 | With distinct keys, every reported item is a key of the table, charged exactly the table's amount. No key is reported twice. Items come in non-increasing key length, and items of equal length come in declaration order. |
| Extractor.ScanConsumes | streamlit_app.py:76-85 | Because each hit cuts its key out of the working text, the stripped keys of all hits together are no longer than the working text: no character is counted for two items. |
| Extractor.ExtractConsumes | streamlit_app.py:67-87 | The reported keys, stripped, take up at most the non-space characters of the input; when no key strips to nothing, there are at most that many items. |
| Extractor.ConsumedCountsHits | streamlit_app.py:77-85 | When no key strips to nothing, every hit takes at least one character out of the working text. |
| Extractor.ScanBlank | streamlit_app.py:76-78 | Over an empty working text no non-empty key hits. |
| Extractor.BlankInputFindsNothing | streamlit_app.py:67-87 | Empty or all-space input yields no items. |
| Extractor.ExtractIgnoresSpaces | streamlit_app.py:71 | Inserting a space anywhere in the input does not change the result. |
| Extractor.ScanSkipsMisses | streamlit_app.py:78 | Keys that do not occur are passed over without touching the working text. |
| Extractor.FirstHitFrom | streamlit_app.py:76-78 | The first position from `i` on whose key occurs in the working text: no earlier position from `i` on hits, and it is at most `p`, a position known to hit. |
| Extractor.ScanFindsOrShares | streamlit_app.py:76-85 | A key that occurs in the working text is among the hits, or else a key tried before it that shares a character with it is among the hits. A cut of a key with no character in common never destroys the occurrence. |
| Extractor.PresentIsFoundOrOverlapped | streamlit_app.py:67-87 | Every key that occurs in the input (spaces stripped from both) is reported, or else a key ranked before it (longer, or as long and declared earlier) that shares a character with it is reported. Every such key is therefore reported when no reported key shares a character with it, however many items come before it. |
| Extractor.HitsUseTextCharacters | streamlit_app.py:76-85 | Every character of every hit's stripped key is a character of the working text the scan started from. |
| Extractor.ExtractUsesInputCharacters | streamlit_app.py:67-87 | Every reported item's name, spaces stripped, is spelt with characters of the input. |
| Extractor.ExtractEmptyIff | streamlit_app.py:67-87 | The extractor reports nothing exactly when no key of the table occurs in the input, spaces stripped from both. |
| Extractor.PresentKeyFindsSomething | streamlit_app.py:67-87 | An input in which some key occurs, spaces stripped, yields at least one item. |
| Extractor.LongestKeyWins | streamlit_app.py:73-85 | A text that is exactly one key reports that key alone, when no key tried before it occurs inside it. The key takes its characters away before any shorter key inside it is tried. |
| Scenarios.OrangeJuiceOnly | streamlit_app.py:73-85 | "오렌지주스" reports orange juice (200 L) only, not also "오렌지". |
| Scenarios.SpacedOrangeJuiceOnly | streamlit_app.py:71 | "오렌지 주스" reports orange juice only, like "오렌지주스". |
| Scenarios.NothingBeforePotatoChipsMatches | streamlit_app.py:74-78 | No key tried before "감자칩" occurs in it. |
| Scenarios.PotatoChipsOnly | streamlit_app.py:73-85 | "감자칩" reports potato chips (185 L) only, not also "감자". |
| Scenarios.SampleSentenceReport | streamlit_app.py:92 | The sample sentence "초콜릿 먹고 청바지 입기" shown on the page reports exactly chocolate (1,700 L) and then jeans (10,000 L). |
| Scenarios.TwoKeysFound | streamlit_app.py:73-85 | Suppose only two rows have keys spelt with the text's characters. If both occur, share no character, and the second does not rank before the first, the scan hits exactly those two, in that order. |
| Scenarios.OnlyChocolateAndJeansFromSample | streamlit_app.py:14-63 | Of all the table's keys, only "초콜릿" and "청바지" are spelt entirely with characters of the sample sentence. |
| Scenarios.DrinksRanking | streamlit_app.py:74 | Over the cola and orange-juice rows, orange juice is tried first. |
| Scenarios.SpliceJoinsNeighbours | streamlit_app.py:85 | Over a table of just the cola and orange-juice rows (as declared at lines 45-46), cutting "오렌지주스" out of "콜오렌지주스라" leaves "콜라", and the shorter key then finds it: cola is reported although those two characters were never adjacent. |
| App.HamburgerHoldsBurger | streamlit_app.py:106 | Any text containing "햄버거" contains "버거". |
| App.SetMenuRewrite | streamlit_app.py:106-107 | The input changes exactly when it contains both "세트" and "버거". It then gets " 감자칩 콜라" appended, and otherwise it is unchanged. The input is always a prefix of the result. |
| App.SetMenuAddsSides | streamlit_app.py:106-109 | After a rewrite the extractor sees the stripped order followed by "감자칩콜라". |
| App.SumAppend | streamlit_app.py:113-115 | The total of two lists put together is the sum of their totals. |
| App.SumReorder | streamlit_app.py:113-115 | The total does not depend on the order of the items. |
| App.TotalFootprint | streamlit_app.py:113-115 | The running total equals the sum of the items' litres. |
| App.Calculate | streamlit_app.py:103-126 | Empty input and only empty input gives the request for input. Otherwise the page shows "nothing found" when the extractor finds nothing on the rewritten input. When it finds something, the page shows the items, their total, and whether the total is displayed (more than one item). Non-empty input of spaces only passes the emptiness test of line 104 and ends in "nothing found". |
| App.SpacesOnlyFindNothing | streamlit_app.py:104-109 | Input of spaces only is not rewritten (it holds no "세트"), and the extractor finds nothing in it. |

## Left out

- Streamlit page setup, title, text box, button, messages and expander (lines 1-8 and 90-126) are user interface. The model keeps only the decision `Calculate` makes.
- Number formatting with `:,.0f` is display only.
- Listing the sorted keys when nothing is found (line 124) is display only.
- Quantity recognition is not modelled: the source sets `count = 1` and never reads a number, and the model multiplies by the constant `COUNT` = 1.
- Python float arithmetic is not modelled. Amounts and the total are exact `real`s, so the rounding of a float sum is not captured.
- Extractor.FindFootprints takes the table as a parameter, where the source reads the global dict. `Calculate` passes the shipped table.
