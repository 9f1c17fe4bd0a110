/** `stableSort(array, comparator)`: each row is tagged with its index, the
    tagged rows are sorted by the comparator with the index as tie-break, and
    the tags are stripped again. */
module StableSort {
  import opened ClientRecords
  import opened Comparator

  /** A row with its index in the input (`[el, index]`). */
  type Tagged = (Client, nat)

  /** `array.map((el, index) => [el, index])`. */
  function Tag(rows: seq<Client>): (t: seq<Tagged>)
    ensures |t| == |rows|
    ensures forall k :: 0 <= k < |rows| ==> t[k] == (rows[k], k)
  {
    seq(|rows|, k requires 0 <= k < |rows| => (rows[k], k))
  }

  /** `stabilizedThis.map((el) => el[0])`. */
  function Untag(t: seq<Tagged>): (rows: seq<Client>)
    ensures |rows| == |t|
    ensures forall k :: 0 <= k < |t| ==> rows[k] == t[k].0
  {
    if t == [] then [] else [t[0].0] + Untag(t[1..])
  }

  /** What the sort needs of a comparator: swapping the arguments negates the
      answer, and "ranks no later than" is transitive. */
  ghost predicate TotalPreorder(cmp: (Client, Client) -> int) {
    && (forall a, b :: cmp(a, b) == -cmp(b, a))
    && (forall a, b, c :: cmp(a, b) <= 0 && cmp(b, c) <= 0 ==> cmp(a, c) <= 0)
  }

  /** `getComparator(order, orderBy)`. */
  function GetComparator(order: Order, orderBy: Column): (cmp: (Client, Client) -> int)
    ensures forall a, b :: -1 <= cmp(a, b) <= 1
  {
    (a, b) => Compare(order, orderBy, a, b)
  }

  /** Both comparators the header can select are total preorders. */
  lemma GetComparatorIsTotalPreorder(order: Order, orderBy: Column)
    ensures TotalPreorder(GetComparator(order, orderBy))
  {
    var cmp := GetComparator(order, orderBy);
    forall a, b ensures cmp(a, b) == -cmp(b, a) {
      CompareAntisymmetric(order, orderBy, a, b);
    }
    forall a, b, c | cmp(a, b) <= 0 && cmp(b, c) <= 0 ensures cmp(a, c) <= 0 {
      CompareTransitive(order, orderBy, a, b, c);
    }
  }

  /** The comparison handed to `Array.prototype.sort`: the row comparator,
      and the difference of the indices when the rows rank level. */
  function PairCompare(cmp: (Client, Client) -> int, p: Tagged, q: Tagged): (r: int)
    ensures r == 0 ==> p.1 == q.1
    ensures cmp(p.0, q.0) != 0 ==> r == cmp(p.0, q.0)
  {
    var c := cmp(p.0, q.0);
    if c != 0 then c else p.1 - q.1
  }

  /** `p` goes before `q`: the pair comparison is negative. */
  predicate Precedes(cmp: (Client, Client) -> int, p: Tagged, q: Tagged) {
    PairCompare(cmp, p, q) < 0
  }

  /** Every earlier pair precedes every later one. */
  predicate Sorted(cmp: (Client, Client) -> int, t: seq<Tagged>) {
    forall i, j :: 0 <= i < j < |t| ==> Precedes(cmp, t[i], t[j])
  }

  /** No two pairs carry the same index. */
  predicate DistinctTags(t: seq<Tagged>) {
    forall i, j :: 0 <= i < j < |t| ==> t[i].1 != t[j].1
  }

  lemma PrecedesIrreflexive(cmp: (Client, Client) -> int, p: Tagged)
    requires TotalPreorder(cmp)
    ensures !Precedes(cmp, p, p)
  {
    assert cmp(p.0, p.0) == -cmp(p.0, p.0);
  }

  /** Of two pairs with different indices, one precedes the other. */
  lemma PrecedesTotal(cmp: (Client, Client) -> int, p: Tagged, q: Tagged)
    requires TotalPreorder(cmp) && p.1 != q.1
    ensures Precedes(cmp, p, q) || Precedes(cmp, q, p)
  {
    assert cmp(p.0, q.0) == -cmp(q.0, p.0);
  }

  lemma PrecedesTransitive(cmp: (Client, Client) -> int, p: Tagged, q: Tagged, r: Tagged)
    requires TotalPreorder(cmp)
    requires Precedes(cmp, p, q) && Precedes(cmp, q, r)
    ensures Precedes(cmp, p, r)
  {
    var a, b, c := p.0, q.0, r.0;
    assert cmp(a, b) <= 0 && cmp(b, c) <= 0;
    assert cmp(a, c) <= 0;
    if cmp(a, c) == 0 {
      // c ranks no later than a, so b ranks level with both
      assert cmp(c, a) <= 0;
      assert cmp(b, a) <= 0 && cmp(c, b) <= 0;
    }
  }

  /** Insert `x` into the sorted `t` before the first pair it precedes. */
  function Insert(cmp: (Client, Client) -> int, x: Tagged, t: seq<Tagged>): (r: seq<Tagged>)
    ensures multiset(r) == multiset(t) + multiset{x}
  {
    if t == [] then [x]
    else if Precedes(cmp, x, t[0]) then [x] + t
    else
      assert t == [t[0]] + t[1..];
      [t[0]] + Insert(cmp, x, t[1..])
  }

  /** The sort of the pairs: insertion of each pair into the sorted rest. */
  function SortTagged(cmp: (Client, Client) -> int, t: seq<Tagged>): (r: seq<Tagged>)
    ensures multiset(r) == multiset(t)
  {
    if t == [] then []
    else
      assert t == [t[0]] + t[1..];
      Insert(cmp, t[0], SortTagged(cmp, t[1..]))
  }

  /** `stableSort(rows, cmp)`. */
  function Sort(rows: seq<Client>, cmp: (Client, Client) -> int): (sorted: seq<Client>)
    ensures |sorted| == |rows|
  {
    var t := SortTagged(cmp, Tag(rows));
    assert |t| == |multiset(t)| == |rows|;
    Untag(t)
  }

  /** For each output position, the index in the input of the row placed there. */
  function Origin(rows: seq<Client>, cmp: (Client, Client) -> int): seq<nat>
  {
    var t := SortTagged(cmp, Tag(rows));
    seq(|t|, k requires 0 <= k < |t| => t[k].1)
  }

  /** The first pair of a sorted sequence precedes everything after it. */
  lemma HeadPrecedesInsert(cmp: (Client, Client) -> int, x: Tagged, t: seq<Tagged>)
    requires TotalPreorder(cmp) && Sorted(cmp, t) && t != []
    requires Precedes(cmp, t[0], x)
    ensures forall q :: q in Insert(cmp, x, t[1..]) ==> Precedes(cmp, t[0], q)
  {
    forall q | q in Insert(cmp, x, t[1..]) ensures Precedes(cmp, t[0], q) {
      assert q in multiset(Insert(cmp, x, t[1..]));
      if q != x {
        assert q in multiset(t[1..]);
        var j :| 0 <= j < |t[1..]| && t[1..][j] == q;
        assert t[j + 1] == q;
      }
    }
  }

  lemma {:induction false} InsertSorted(cmp: (Client, Client) -> int, x: Tagged, t: seq<Tagged>)
    requires TotalPreorder(cmp) && Sorted(cmp, t)
    requires forall q :: q in t ==> q.1 != x.1
    ensures Sorted(cmp, Insert(cmp, x, t))
  {
    if t == [] {
    } else if Precedes(cmp, x, t[0]) {
      forall j | 0 < j < |t| ensures Precedes(cmp, x, t[j]) {
        PrecedesTransitive(cmp, x, t[0], t[j]);
      }
    } else {
      PrecedesTotal(cmp, x, t[0]);
      InsertSorted(cmp, x, t[1..]);
      HeadPrecedesInsert(cmp, x, t);
      var rest := Insert(cmp, x, t[1..]);
      var r := [t[0]] + rest;
      forall i, j | 0 <= i < j < |r| ensures Precedes(cmp, r[i], r[j]) {
        if i == 0 {
          assert r[j] in rest;
        } else {
          assert r[i] == rest[i - 1] && r[j] == rest[j - 1];
        }
      }
    }
  }

  lemma {:induction false} SortTaggedSorted(cmp: (Client, Client) -> int, t: seq<Tagged>)
    requires TotalPreorder(cmp) && DistinctTags(t)
    ensures Sorted(cmp, SortTagged(cmp, t))
  {
    if t != [] {
      SortTaggedSorted(cmp, t[1..]);
      var rest := SortTagged(cmp, t[1..]);
      forall q | q in rest ensures q.1 != t[0].1 {
        assert q in multiset(t[1..]);
        var j :| 0 <= j < |t[1..]| && t[1..][j] == q;
        assert t[j + 1] == q;
      }
      InsertSorted(cmp, t[0], rest);
    }
  }

  lemma {:induction false} InsertDistinct(cmp: (Client, Client) -> int, x: Tagged, t: seq<Tagged>)
    requires DistinctTags(t)
    requires forall q :: q in t ==> q.1 != x.1
    ensures DistinctTags(Insert(cmp, x, t))
  {
    if t != [] && !Precedes(cmp, x, t[0]) {
      InsertDistinct(cmp, x, t[1..]);
      var rest := Insert(cmp, x, t[1..]);
      forall q | q in rest ensures q.1 != t[0].1 {
        assert q in multiset(rest);
        if q != x {
          assert q in multiset(t[1..]);
          var j :| 0 <= j < |t[1..]| && t[1..][j] == q;
          assert t[j + 1] == q;
        }
      }
      var r := [t[0]] + rest;
      forall i, j | 0 <= i < j < |r| ensures r[i].1 != r[j].1 {
        if i == 0 {
          assert r[j] in rest;
        } else {
          assert r[i] == rest[i - 1] && r[j] == rest[j - 1];
        }
      }
    }
  }

  lemma {:induction false} SortTaggedDistinct(cmp: (Client, Client) -> int, t: seq<Tagged>)
    requires DistinctTags(t)
    ensures DistinctTags(SortTagged(cmp, t))
  {
    if t != [] {
      SortTaggedDistinct(cmp, t[1..]);
      var rest := SortTagged(cmp, t[1..]);
      forall q | q in rest ensures q.1 != t[0].1 {
        assert q in multiset(t[1..]);
        var j :| 0 <= j < |t[1..]| && t[1..][j] == q;
        assert t[j + 1] == q;
      }
      InsertDistinct(cmp, t[0], rest);
    }
  }

  /** Equal multisets that start with the same pair agree on the rest. */
  lemma TailsHaveSameMultiset(s: seq<Tagged>, t: seq<Tagged>)
    requires s != [] && t != [] && s[0] == t[0]
    requires multiset(s) == multiset(t)
    ensures multiset(s[1..]) == multiset(t[1..])
  {
    assert s == [s[0]] + s[1..];
    assert t == [t[0]] + t[1..];
    calc {
      multiset(s[1..]);
      multiset(s) - multiset{s[0]};
      multiset(t) - multiset{t[0]};
      multiset(t[1..]);
    }
  }

  /** Two sorted arrangements of the same pairs start with the same pair. */
  lemma SortedSameHead(cmp: (Client, Client) -> int, s: seq<Tagged>, t: seq<Tagged>)
    requires TotalPreorder(cmp) && Sorted(cmp, s) && Sorted(cmp, t)
    requires s != [] && multiset(s) == multiset(t)
    ensures t != [] && s[0] == t[0]
  {
    assert s[0] in multiset(t);
    assert t[0] in multiset(s);
    if s[0] != t[0] {
      var i :| 0 <= i < |t| && t[i] == s[0];
      var j :| 0 <= j < |s| && s[j] == t[0];
      PrecedesTransitive(cmp, s[0], t[0], s[0]);
      PrecedesIrreflexive(cmp, s[0]);
    }
  }

  /** Two sorted arrangements of the same pairs are equal: any correct
      sorting algorithm returns the same order for the tagged rows. */
  lemma {:induction false} SortedUnique(cmp: (Client, Client) -> int, s: seq<Tagged>, t: seq<Tagged>)
    requires TotalPreorder(cmp) && Sorted(cmp, s) && Sorted(cmp, t)
    requires multiset(s) == multiset(t)
    ensures s == t
    decreases |s|
  {
    if s == [] {
      assert |t| == |multiset(t)| == 0;
    } else {
      SortedSameHead(cmp, s, t);
      TailsHaveSameMultiset(s, t);
      SortedUnique(cmp, s[1..], t[1..]);
      assert s == [s[0]] + s[1..] && t == [t[0]] + t[1..];
    }
  }

  lemma {:induction false} UntagTag(rows: seq<Client>)
    ensures Untag(Tag(rows)) == rows
  {
  }

  lemma {:induction false} UntagAppend(s: seq<Tagged>, t: seq<Tagged>)
    ensures Untag(s + t) == Untag(s) + Untag(t)
  {
  }

  lemma {:induction false} UntagInsert(cmp: (Client, Client) -> int, x: Tagged, t: seq<Tagged>)
    ensures multiset(Untag(Insert(cmp, x, t))) == multiset(Untag(t)) + multiset{x.0}
  {
    if t != [] {
      UntagAppend([t[0]], t[1..]);
      assert t == [t[0]] + t[1..];
      if Precedes(cmp, x, t[0]) {
        UntagAppend([x], t);
      } else {
        UntagInsert(cmp, x, t[1..]);
        UntagAppend([t[0]], Insert(cmp, x, t[1..]));
      }
    }
  }

  lemma {:induction false} UntagSortTagged(cmp: (Client, Client) -> int, t: seq<Tagged>)
    ensures multiset(Untag(SortTagged(cmp, t))) == multiset(Untag(t))
  {
    if t != [] {
      UntagSortTagged(cmp, t[1..]);
      UntagInsert(cmp, t[0], SortTagged(cmp, t[1..]));
      UntagAppend([t[0]], t[1..]);
      assert t == [t[0]] + t[1..];
    }
  }

  /** The sorted table holds exactly the input rows, each as often as before. */
  lemma SortIsPermutation(rows: seq<Client>, cmp: (Client, Client) -> int)
    ensures |Sort(rows, cmp)| == |rows|
    ensures multiset(Sort(rows, cmp)) == multiset(rows)
  {
    var t := Tag(rows);
    UntagSortTagged(cmp, t);
    UntagTag(rows);
    assert |SortTagged(cmp, t)| == |multiset(t)| == |rows|;
  }

  /** `Origin` names, for each output position, a distinct input index
      holding the row placed there. */
  lemma OriginIsBijection(rows: seq<Client>, cmp: (Client, Client) -> int)
    ensures |Origin(rows, cmp)| == |Sort(rows, cmp)| == |rows|
    ensures forall k :: 0 <= k < |rows| ==>
      (Origin(rows, cmp)[k] < |rows| && Sort(rows, cmp)[k] == rows[Origin(rows, cmp)[k]])
    ensures forall i, j :: 0 <= i < j < |rows| ==> Origin(rows, cmp)[i] != Origin(rows, cmp)[j]
  {
    var t := SortTagged(cmp, Tag(rows));
    var o := Origin(rows, cmp);
    assert |t| == |multiset(t)| == |rows|;
    forall k | 0 <= k < |rows| ensures o[k] < |rows| && t[k].0 == rows[o[k]] {
      assert t[k] in multiset(Tag(rows));
    }
    SortTaggedDistinct(cmp, Tag(rows));
  }

  /** Every earlier row of the output ranks no later than every later one,
      so in particular each adjacent pair satisfies `comparator(x, y) <= 0`. */
  lemma SortIsOrdered(rows: seq<Client>, cmp: (Client, Client) -> int)
    requires TotalPreorder(cmp)
    ensures |Sort(rows, cmp)| == |rows|
    ensures forall i, j :: 0 <= i < j < |rows| ==> cmp(Sort(rows, cmp)[i], Sort(rows, cmp)[j]) <= 0
  {
    var t := SortTagged(cmp, Tag(rows));
    assert |t| == |multiset(t)| == |rows|;
    SortTaggedSorted(cmp, Tag(rows));
    forall i, j | 0 <= i < j < |rows| ensures cmp(t[i].0, t[j].0) <= 0 {
      assert Precedes(cmp, t[i], t[j]);
    }
  }

  /** Stability: two rows that rank level keep their input order, and two
      rows appear in the opposite of their input order only when the
      comparator strictly orders them that way. */
  lemma SortIsStable(rows: seq<Client>, cmp: (Client, Client) -> int)
    requires TotalPreorder(cmp)
    ensures |Sort(rows, cmp)| == |Origin(rows, cmp)| == |rows|
    ensures forall i, j :: 0 <= i < j < |rows| && cmp(Sort(rows, cmp)[i], Sort(rows, cmp)[j]) == 0 ==>
      Origin(rows, cmp)[i] < Origin(rows, cmp)[j]
    ensures forall i, j :: 0 <= i < j < |rows| && Origin(rows, cmp)[i] > Origin(rows, cmp)[j] ==>
      cmp(Sort(rows, cmp)[i], Sort(rows, cmp)[j]) < 0
  {
    var t := SortTagged(cmp, Tag(rows));
    assert |t| == |multiset(t)| == |rows|;
    SortTaggedSorted(cmp, Tag(rows));
    forall i, j | 0 <= i < j < |rows| ensures Precedes(cmp, t[i], t[j]) {
    }
  }

  /** Sorting rows that all rank level leaves them in their input order. */
  lemma {:induction false} SortAllLevelIsIdentity(rows: seq<Client>, cmp: (Client, Client) -> int)
    requires TotalPreorder(cmp)
    requires forall i, j :: 0 <= i < j < |rows| ==> cmp(rows[i], rows[j]) == 0
    ensures Sort(rows, cmp) == rows
  {
    var t := Tag(rows);
    assert Sorted(cmp, t);
    SortTaggedSorted(cmp, t);
    SortedUnique(cmp, SortTagged(cmp, t), t);
    UntagTag(rows);
  }

  /** Sorting by the `editInfo` header, which names no field, leaves the rows
      in their input order, in either direction. */
  lemma SortByEditInfoIsIdentity(rows: seq<Client>, order: Order)
    ensures Sort(rows, GetComparator(order, EditInfo)) == rows
  {
    GetComparatorIsTotalPreorder(order, EditInfo);
    forall i, j | 0 <= i < j < |rows| ensures GetComparator(order, EditInfo)(rows[i], rows[j]) == 0 {
      EditInfoRanksAllLevel(order, rows[i], rows[j]);
    }
    SortAllLevelIsIdentity(rows, GetComparator(order, EditInfo));
  }

  /** The sorted rows are the input rows, no more and no fewer. */
  lemma SortKeepsMembers(rows: seq<Client>, cmp: (Client, Client) -> int)
    ensures forall r :: r in Sort(rows, cmp) <==> r in rows
  {
    SortIsPermutation(rows, cmp);
    forall r ensures r in Sort(rows, cmp) <==> r in rows {
      assert r in Sort(rows, cmp) <==> r in multiset(Sort(rows, cmp));
      assert r in rows <==> r in multiset(rows);
    }
  }

  /** What the table body gets for any header state: a permutation of the
      rows, ordered by the chosen column and direction, with rows of equal
      value in their input order. */
  lemma TableSortIsStableSort(rows: seq<Client>, order: Order, orderBy: Column)
    ensures multiset(Sort(rows, GetComparator(order, orderBy))) == multiset(rows)
    ensures |Sort(rows, GetComparator(order, orderBy))| == |Origin(rows, GetComparator(order, orderBy))| == |rows|
    ensures forall i, j :: 0 <= i < j < |rows| ==>
      Compare(order, orderBy, Sort(rows, GetComparator(order, orderBy))[i], Sort(rows, GetComparator(order, orderBy))[j]) <= 0
    ensures forall i, j :: (0 <= i < j < |rows| &&
      Field(Sort(rows, GetComparator(order, orderBy))[i], orderBy) == Field(Sort(rows, GetComparator(order, orderBy))[j], orderBy)) ==>
      Origin(rows, GetComparator(order, orderBy))[i] < Origin(rows, GetComparator(order, orderBy))[j]
  {
    var cmp := GetComparator(order, orderBy);
    GetComparatorIsTotalPreorder(order, orderBy);
    SortIsPermutation(rows, cmp);
    SortIsOrdered(rows, cmp);
    SortIsStable(rows, cmp);
    var s := Sort(rows, cmp);
    forall i, j | 0 <= i < j < |rows| && Field(s[i], orderBy) == Field(s[j], orderBy)
      ensures cmp(s[i], s[j]) == 0
    {
      DescendingComparatorMeaning(s[i], s[j], orderBy);
    }
  }
}
