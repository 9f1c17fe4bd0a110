/** The search form's submit handler: keep, in order, the rows whose
    lower-cased name or email contains the lower-cased search word. */
module Search {
  import opened ClientRecords

  /** `toLowerCase` on one character, for the ASCII letters. */
  function LowerChar(c: char): (d: char)
    ensures 'A' <= c <= 'Z' ==> d as int == c as int + 32
    ensures !('A' <= c <= 'Z') ==> d == c
    ensures !('A' <= d <= 'Z')
  {
    if 'A' <= c <= 'Z' then (c as int + 32) as char else c
  }

  /** `s.toLowerCase()`, character by character. */
  function Lower(s: string): (r: string)
    ensures |r| == |s|
    ensures forall k :: 0 <= k < |s| ==> r[k] == LowerChar(s[k])
  {
    seq(|s|, k requires 0 <= k < |s| => LowerChar(s[k]))
  }

  /** Lower-casing twice is lower-casing once. */
  lemma LowerIdempotent(s: string)
    ensures Lower(Lower(s)) == Lower(s)
  {
  }

  /** `needle` occurs in `hay` starting at index `i`. */
  predicate OccursAt(hay: string, needle: string, i: nat) {
    i + |needle| <= |hay| && hay[i..i + |needle|] == needle
  }

  /** `hay.includes(needle)`: try each start position from the left. */
  function Includes(hay: string, needle: string): (found: bool)
    ensures found ==> |needle| <= |hay|
    ensures |needle| == 0 ==> found
    decreases |hay|
  {
    if |needle| <= |hay| && hay[..|needle|] == needle then true
    else if |hay| == 0 then false
    else Includes(hay[1..], needle)
  }

  /** `Includes` holds exactly when the needle occurs at some position. */
  lemma {:induction false} IncludesIsOccurrence(hay: string, needle: string)
    ensures Includes(hay, needle) <==> exists i: nat :: OccursAt(hay, needle, i)
    decreases |hay|
  {
    if |needle| <= |hay| && hay[..|needle|] == needle {
      assert OccursAt(hay, needle, 0);
    } else if |hay| == 0 {
      forall i: nat | OccursAt(hay, needle, i) ensures false {
      }
    } else {
      IncludesIsOccurrence(hay[1..], needle);
      forall i: nat | OccursAt(hay[1..], needle, i) ensures OccursAt(hay, needle, i + 1) {
        assert hay[1..][i..i + |needle|] == hay[i + 1..i + 1 + |needle|];
      }
      if |needle| <= |hay| {
        assert hay[0..0 + |needle|] == hay[..|needle|];
      }
      assert !OccursAt(hay, needle, 0);
      forall i: nat | OccursAt(hay, needle, i) ensures i > 0 && OccursAt(hay[1..], needle, i - 1) {
        assert hay[1..][i - 1..i - 1 + |needle|] == hay[i..i + |needle|];
      }
    }
  }

  /** Every string includes the empty string. */
  lemma IncludesEmpty(hay: string)
    ensures Includes(hay, "")
  {
    assert OccursAt(hay, "", 0);
    IncludesIsOccurrence(hay, "");
  }

  /** The condition of the `if` in the loop body. */
  predicate Matches(item: Client, word: string)
    ensures word == "" ==> Matches(item, word)
    ensures Matches(item, word) ==> |word| <= |item.clientName| || |word| <= |item.clientEmail|
  {
    Includes(Lower(item.clientName), Lower(word)) || Includes(Lower(item.clientEmail), Lower(word))
  }

  /** The rows of `items` the search keeps, in order. */
  function Filter(items: seq<Client>, word: string): (kept: seq<Client>)
    ensures |kept| <= |items|
  {
    if items == [] then []
    else (Filter(items[..|items| - 1], word) +
      (if Matches(items[|items| - 1], word) then [items[|items| - 1]] else []))
  }

  /** The indices of the rows the search keeps, in increasing order. */
  function KeptIndices(items: seq<Client>, word: string): seq<nat>
  {
    if items == [] then []
    else (KeptIndices(items[..|items| - 1], word) +
      (if Matches(items[|items| - 1], word) then [|items| - 1] else []))
  }

  /** `handleSubmit`'s loop: `finalItems.forEach` pushes a copy of each
      matching row onto `tempRows`. */
  method FilterRows(finalItems: seq<Client>, word: string) returns (tempRows: seq<Client>)
    ensures tempRows == Filter(finalItems, word)
    ensures |tempRows| <= |finalItems|
    ensures forall r :: r in tempRows ==> r in finalItems && Matches(r, word)
  {
    tempRows := [];
    var i := 0;
    while i < |finalItems|
      invariant 0 <= i <= |finalItems|
      invariant tempRows == Filter(finalItems[..i], word)
    {
      var item := finalItems[i];
      if Matches(item, word) {
        tempRows := tempRows + [Client(item.clientId, item.clientName, item.clientEmail,
          item.clientWorkPhone, item.clientIndustry, item.clientPocName, item.clientWebsite)];
      }
      assert finalItems[..i + 1][..i] == finalItems[..i];
      i := i + 1;
    }
    assert finalItems[..i] == finalItems;
    FilterIsSubsequence(finalItems, word);
  }

  /** The search result is exactly the subsequence of the matching rows: it
      picks, in increasing order of index, every row that matches and no other. */
  lemma {:induction false} FilterIsSubsequence(items: seq<Client>, word: string)
    ensures |KeptIndices(items, word)| == |Filter(items, word)|
    ensures forall k :: 0 <= k < |Filter(items, word)| ==>
      KeptIndices(items, word)[k] < |items| && Filter(items, word)[k] == items[KeptIndices(items, word)[k]]
    ensures forall k, l :: 0 <= k < l < |KeptIndices(items, word)| ==>
      KeptIndices(items, word)[k] < KeptIndices(items, word)[l]
    ensures forall i :: 0 <= i < |items| ==> (Matches(items[i], word) <==> i in KeptIndices(items, word))
  {
    if items != [] {
      var n := |items| - 1;
      var front := items[..n];
      FilterIsSubsequence(front, word);
      forall i | 0 <= i < n ensures items[i] == front[i] { }
    }
  }

  /** A row is kept exactly when it is in the input and matches. */
  lemma {:induction false} FilterMembership(items: seq<Client>, word: string, r: Client)
    ensures r in Filter(items, word) <==> r in items && Matches(r, word)
  {
    if items != [] {
      var n := |items| - 1;
      FilterMembership(items[..n], word, r);
      assert items == items[..n] + [items[n]];
    }
  }

  /** Filtering a concatenation filters each part: searching the base rows
      followed by the overlay is searching each and concatenating. */
  lemma {:induction false} FilterAppend(a: seq<Client>, b: seq<Client>, word: string)
    ensures Filter(a + b, word) == Filter(a, word) + Filter(b, word)
    decreases |b|
  {
    if b != [] {
      var n := |b| - 1;
      assert (a + b)[..|a + b| - 1] == a + b[..n];
      FilterAppend(a, b[..n], word);
    } else {
      assert a + b == a;
    }
  }

  /** When every row matches, the search keeps every row. */
  lemma {:induction false} FilterAllMatching(items: seq<Client>, word: string)
    requires forall r :: r in items ==> Matches(r, word)
    ensures Filter(items, word) == items
  {
    if items != [] {
      var n := |items| - 1;
      FilterAllMatching(items[..n], word);
      assert items == items[..n] + [items[n]];
    }
  }

  /** An empty search word keeps every row. */
  lemma FilterEmptyWord(items: seq<Client>)
    ensures Filter(items, "") == items
  {
    forall r | r in items ensures Matches(r, "") {
      IncludesEmpty(Lower(r.clientName));
    }
    FilterAllMatching(items, "");
  }

  /** Searching the result again with the same word changes nothing. */
  lemma FilterIdempotent(items: seq<Client>, word: string)
    ensures Filter(Filter(items, word), word) == Filter(items, word)
  {
    forall r | r in Filter(items, word) ensures Matches(r, word) {
      FilterMembership(items, word, r);
    }
    FilterAllMatching(Filter(items, word), word);
  }

  /** The search ignores the case of the ASCII letters in the word. */
  lemma FilterIgnoresWordCase(items: seq<Client>, word: string)
    ensures Filter(items, Lower(word)) == Filter(items, word)
  {
    LowerIdempotent(word);
    assert forall r :: Matches(r, Lower(word)) == Matches(r, word);
    FilterSameMatches(items, Lower(word), word);
  }

  lemma {:induction false} FilterSameMatches(items: seq<Client>, w1: string, w2: string)
    requires forall r :: r in items ==> (Matches(r, w1) <==> Matches(r, w2))
    ensures Filter(items, w1) == Filter(items, w2)
  {
    if items != [] {
      var n := |items| - 1;
      FilterSameMatches(items[..n], w1, w2);
      assert items[n] in items;
    }
  }
}
