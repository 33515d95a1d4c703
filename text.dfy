/** The three Python string built-ins the extractor is made of, as functions
    on `string` (a sequence of Unicode scalar values, which is what the text
    box delivers): `s.replace(" ", "")`, `k in s` and `s.replace(k, "", 1)`. */
module Text {

  datatype Option<T> = None | Some(value: T)

  /** `s.replace(" ", "")`: `s` with every space character taken out and the
      other characters kept in their order. */
  function StripSpaces(s: string): (r: string)
    ensures ' ' !in r
    ensures forall ch :: ch in r ==> ch in s
    ensures ' ' !in s ==> r == s
    ensures |r| <= |s|
  {
    if s == [] then []
    else if s[0] == ' ' then StripSpaces(s[1..])
    else [s[0]] + StripSpaces(s[1..])
  }

  /** Stripping works piece by piece; together with the one-character cases
      (a space goes, any other character stays) this pins `StripSpaces` down. */
  lemma {:induction false} StripSpacesConcat(a: string, b: string)
    ensures StripSpaces(a + b) == StripSpaces(a) + StripSpaces(b)
  {
    if a == [] {
      assert a + b == b;
    } else {
      assert (a + b)[0] == a[0];
      assert (a + b)[1..] == a[1..] + b;
      StripSpacesConcat(a[1..], b);
    }
  }

  /** A text of spaces only strips to nothing. */
  lemma {:induction false} StripOnlySpaces(s: string)
    requires forall i :: 0 <= i < |s| ==> s[i] == ' '
    ensures StripSpaces(s) == []
  {
    if s != [] {
      StripOnlySpaces(s[1..]);
    }
  }

  /** A text that starts with a character other than a space keeps that
      character in front when stripped. */
  lemma StripKeepsFirstWord(s: string)
    requires s != [] && s[0] != ' '
    ensures StripSpaces(s) != [] && StripSpaces(s)[0] == s[0]
  {
  }

  /** `k` occurs in `s` starting at index `j`. */
  predicate OccursAt(s: string, k: string, j: int)
  {
    0 <= j && j + |k| <= |s| && s[j..j + |k|] == k
  }

  /** `j` is the leftmost index at which `k` occurs in `s`. */
  predicate FirstOccurrence(s: string, k: string, j: int)
  {
    OccursAt(s, k, j) && forall i :: 0 <= i < j ==> !OccursAt(s, k, i)
  }

  /** Occurrences in `s[1..]` are the occurrences in `s` past index 0, shifted left by one. */
  lemma OccursInTail(s: string, k: string)
    requires s != []
    ensures forall j :: OccursAt(s, k, j) && j > 0 ==> OccursAt(s[1..], k, j - 1)
    ensures forall j :: OccursAt(s[1..], k, j) ==> OccursAt(s, k, j + 1)
  {
    forall j | OccursAt(s, k, j) && j > 0
      ensures OccursAt(s[1..], k, j - 1)
    {
      assert s[1..][j - 1..j - 1 + |k|] == s[j..j + |k|];
    }
    forall j | OccursAt(s[1..], k, j)
      ensures OccursAt(s, k, j + 1)
    {
      assert s[1..][j..j + |k|] == s[j + 1..j + 1 + |k|];
    }
  }

  /** `s.find(k)`: the leftmost index where `k` occurs in `s`, or none. */
  function IndexOf(s: string, k: string): (r: Option<nat>)
    ensures r.Some? ==> FirstOccurrence(s, k, r.value)
    ensures r.None? ==> forall j :: !OccursAt(s, k, j)
    decreases |s|
  {
    if |s| < |k| then None
    else if s[..|k|] == k then Some(0)
    else
      OccursInTail(s, k);
      match IndexOf(s[1..], k)
      case None => None
      case Some(i) => Some(i + 1)
  }

  /** `k in s`. */
  function Contains(s: string, k: string): (b: bool)
    ensures b <==> exists j :: OccursAt(s, k, j)
  {
    IndexOf(s, k).Some?
  }

  /** `s.replace(k, "", 1)`: `s` with the leftmost occurrence of `k` cut out;
      what stood before and after it is kept, and a miss changes nothing. */
  function RemoveFirst(s: string, k: string): (r: string)
    ensures !Contains(s, k) ==> r == s
    ensures Contains(s, k) ==> |r| == |s| - |k|
    ensures forall j :: FirstOccurrence(s, k, j) ==>
      j <= |r| && r[..j] == s[..j] && r[j..] == s[j + |k|..] && s == r[..j] + k + r[j..]
  {
    match IndexOf(s, k)
    case None => s
    case Some(i) =>
      assert forall j :: FirstOccurrence(s, k, j) ==> j == i;
      assert s == s[..i] + k + s[i + |k|..];
      s[..i] + s[i + |k|..]
  }

  /** An occurrence of `m` inside an occurrence of `k` is an occurrence of `m`. */
  lemma OccursWithin(s: string, k: string, m: string, j: int, offset: int)
    requires OccursAt(s, k, j) && OccursAt(k, m, offset)
    ensures OccursAt(s, m, j + offset)
  {
    forall i | 0 <= i < |m|
      ensures s[j + offset..j + offset + |m|][i] == m[i]
    {
      assert m[i] == k[offset + i] == s[j + offset + i];
    }
  }

  /** A key at least as long as the text occurs in it only if it is the text. */
  lemma ContainsNoLonger(s: string, k: string)
    requires |k| >= |s|
    ensures Contains(s, k) <==> k == s
  {
    if k == s {
      assert OccursAt(s, k, 0);
    }
  }

  /** A text of spaces only holds no key that starts with another character. */
  lemma SpacesHoldNoWord(s: string, k: string)
    requires forall i :: 0 <= i < |s| ==> s[i] == ' '
    requires k != [] && k[0] != ' '
    ensures !Contains(s, k)
  {
    forall j ensures !OccursAt(s, k, j) {
      if 0 <= j && j + |k| <= |s| {
        assert s[j..j + |k|][0] == s[j] == ' ';
      }
    }
  }

  /** Cutting the first occurrence of `k` leaves an occurrence of any `m`
      that shares no character with `k`: the cut cannot overlap `m`, so `m`
      survives on one side of it. */
  lemma CutKeepsOccurrence(w: string, k: string, m: string, j: nat)
    requires OccursAt(w, m, j) && Contains(w, k)
    requires forall ch :: !(ch in k && ch in m)
    ensures Contains(RemoveFirst(w, k), m)
  {
    var i := IndexOf(w, k).value;
    CutAt(w, RemoveFirst(w, k), k, m, i, j);
  }

  /** The same on the pieces: `r` is `w` with the occurrence of `k` at `i`
      cut out, and `m` occurs at `j`. */
  lemma CutAt(w: string, r: string, k: string, m: string, i: nat, j: nat)
    requires OccursAt(w, k, i) && OccursAt(w, m, j)
    requires i <= |r| && |r| == |w| - |k| && r[..i] == w[..i] && r[i..] == w[i + |k|..]
    requires forall ch :: !(ch in k && ch in m)
    ensures exists j' :: OccursAt(r, m, j')
  {
    if m == [] {
      assert OccursAt(r, m, 0);
    } else if k == [] {
      assert r == r[..i] + r[i..] == w[..i] + w[i..] == w;
      assert OccursAt(r, m, j);
    } else if i + |k| <= j {
      OccursAfterCut(w, r, m, i, |k|, j);
    } else if j + |m| <= i {
      OccursBeforeCut(w, r, m, i, j);
    } else {
      var x := if i < j then j else i;
      OccursAtHolds(w, k, i, x);
      OccursAtHolds(w, m, j, x);
    }
  }

  /** The character at index `x` of an occurrence of `k` is a character of `k`. */
  lemma OccursAtHolds(w: string, k: string, i: nat, x: nat)
    requires OccursAt(w, k, i) && i <= x < i + |k|
    ensures w[x] in k
  {
    assert w[i..i + |k|][x - i] == w[x];
  }

  /** An occurrence after the cut moves left by the cut's length. */
  lemma OccursAfterCut(w: string, r: string, m: string, i: nat, n: nat, j: nat)
    requires OccursAt(w, m, j) && i + n <= j
    requires i <= |r| && |r| == |w| - n && r[i..] == w[i + n..]
    ensures OccursAt(r, m, j - n)
  {
    forall t | 0 <= t < |m| ensures r[j - n..j - n + |m|][t] == m[t] {
      assert r[j - n + t] == r[i..][j - n + t - i] == w[i + n..][j - n + t - i];
      assert w[j..j + |m|][t] == m[t];
    }
  }

  /** An occurrence before the cut stays where it was. */
  lemma OccursBeforeCut(w: string, r: string, m: string, i: nat, j: nat)
    requires OccursAt(w, m, j) && j + |m| <= i <= |w|
    requires i <= |r| && r[..i] == w[..i]
    ensures OccursAt(r, m, j)
  {
    forall t | 0 <= t < |m| ensures r[j..j + |m|][t] == m[t] {
      assert r[j + t] == r[..i][j + t] == w[..i][j + t];
      assert w[j..j + |m|][t] == m[t];
    }
  }

  /** Every character of `k` is a character of `s`. */
  predicate AllCharactersIn(k: string, s: string)
  {
    forall ch :: ch in k ==> ch in s
  }

  /** Every character of a key that occurs in a text is a character of it. */
  lemma ContainedCharacters(w: string, k: string)
    requires Contains(w, k)
    ensures AllCharactersIn(k, w)
  {
    var j :| OccursAt(w, k, j);
    forall ch | ch in k ensures ch in w {
      var t :| 0 <= t < |k| && k[t] == ch;
      OccursAtHolds(w, k, j, j + t);
    }
  }

  /** Cutting a key out brings in no new character. */
  lemma RemoveFirstKeepsCharacters(w: string, k: string)
    ensures AllCharactersIn(RemoveFirst(w, k), w)
  {
    if Contains(w, k) {
      var i := IndexOf(w, k).value;
      assert FirstOccurrence(w, k, i);
      var r := RemoveFirst(w, k);
      forall ch | ch in r ensures ch in w {
        var t :| 0 <= t < |r| && r[t] == ch;
        if t < i {
          assert r[t] == r[..i][t] == w[..i][t];
        } else {
          assert r[t] == r[i..][t - i] == w[i + |k|..][t - i];
        }
      }
    }
  }

  /** A word without spaces between two texts is in the whole once its
      spaces are stripped. */
  lemma StrippedHoldsWord(x: string, k: string, y: string)
    requires ' ' !in k
    ensures Contains(StripSpaces(x + k + y), k)
  {
    StripSpacesConcat(x + k, y);
    StripSpacesConcat(x, k);
    var w := StripSpaces(x) + k + StripSpaces(y);
    assert w[|StripSpaces(x)|..|StripSpaces(x)| + |k|] == k;
    assert OccursAt(w, k, |StripSpaces(x)|);
  }

  /** The empty text holds no non-empty key. */
  lemma EmptyContainsNothing(k: string)
    requires k != []
    ensures !Contains([], k)
  {
  }
}
