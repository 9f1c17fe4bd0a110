/** The page slice taken at render time: `.slice(page * rowsPerPage,
    page * rowsPerPage + rowsPerPage)` of the sorted rows. */
module Paging {
  import opened ClientRecords

  function Min(a: int, b: int): int { if a < b then a else b }

  /** `s.slice(start, end)` for non-negative bounds: an end past the length
      stops at the length, and a start at or past the end gives no element. */
  function Slice(s: seq<Client>, start: nat, end: nat): (r: seq<Client>)
    ensures |r| == if start < Min(end, |s|) then Min(end, |s|) - start else 0
    ensures forall k :: 0 <= k < |r| ==> r[k] == s[start + k]
  {
    var e := Min(end, |s|);
    if start >= e then [] else s[start..e]
  }

  /** The rows shown on page `page` (zero-based). */
  function PageRows(sorted: seq<Client>, page: nat, rowsPerPage: nat): (shown: seq<Client>)
    ensures |shown| <= rowsPerPage
    ensures forall r :: r in shown ==> r in sorted
  {
    Slice(sorted, page * rowsPerPage, page * rowsPerPage + rowsPerPage)
  }

  /** A page holds the rows from `page * rowsPerPage` on, at most
      `rowsPerPage` of them: a full page while the rows last, the remainder on
      the last page, nothing beyond it. */
  lemma PageRowsBounds(sorted: seq<Client>, page: nat, rowsPerPage: nat)
    ensures |PageRows(sorted, page, rowsPerPage)| <= rowsPerPage
    ensures forall k :: 0 <= k < |PageRows(sorted, page, rowsPerPage)| ==>
      PageRows(sorted, page, rowsPerPage)[k] == sorted[page * rowsPerPage + k]
    ensures (page + 1) * rowsPerPage <= |sorted| ==> |PageRows(sorted, page, rowsPerPage)| == rowsPerPage
    ensures page * rowsPerPage <= |sorted| <= (page + 1) * rowsPerPage ==>
      PageRows(sorted, page, rowsPerPage) == sorted[page * rowsPerPage..]
    ensures |sorted| <= page * rowsPerPage ==> PageRows(sorted, page, rowsPerPage) == []
  {
    var start := page * rowsPerPage;
    assert (page + 1) * rowsPerPage == start + rowsPerPage;
    if start <= |sorted| <= start + rowsPerPage {
      assert PageRows(sorted, page, rowsPerPage) == sorted[start..];
    }
  }

  /** Pages `0 .. n - 1` laid end to end. */
  function FirstPages(sorted: seq<Client>, rowsPerPage: nat, n: nat): seq<Client>
  {
    if n == 0 then [] else FirstPages(sorted, rowsPerPage, n - 1) + PageRows(sorted, n - 1, rowsPerPage)
  }

  /** The first `n` pages are the first `n * rowsPerPage` rows, in order. */
  lemma {:induction false} FirstPagesArePrefix(sorted: seq<Client>, rowsPerPage: nat, n: nat)
    ensures FirstPages(sorted, rowsPerPage, n) == sorted[..Min(n * rowsPerPage, |sorted|)]
  {
    if n > 0 {
      FirstPagesArePrefix(sorted, rowsPerPage, n - 1);
      var a := Min((n - 1) * rowsPerPage, |sorted|);
      var b := Min(n * rowsPerPage, |sorted|);
      assert (n - 1) * rowsPerPage + rowsPerPage == n * rowsPerPage;
      assert a <= b;
      if (n - 1) * rowsPerPage < |sorted| {
        assert PageRows(sorted, n - 1, rowsPerPage) == sorted[a..b];
      } else {
        assert PageRows(sorted, n - 1, rowsPerPage) == [];
      }
      assert sorted[..a] + sorted[a..b] == sorted[..b];
    }
  }

  /** The number of pages the pagination control offers. */
  function PageCount(count: nat, rowsPerPage: nat): nat
    requires rowsPerPage > 0
  {
    (count + rowsPerPage - 1) / rowsPerPage
  }

  /** Paging through every page shows each row exactly once, in sorted order. */
  lemma PagesCoverRows(sorted: seq<Client>, rowsPerPage: nat)
    requires rowsPerPage > 0
    ensures FirstPages(sorted, rowsPerPage, PageCount(|sorted|, rowsPerPage)) == sorted
  {
    var n := PageCount(|sorted|, rowsPerPage);
    var m := |sorted| + rowsPerPage - 1;
    assert m == n * rowsPerPage + m % rowsPerPage;
    FirstPagesArePrefix(sorted, rowsPerPage, n);
    assert sorted[..|sorted|] == sorted;
  }
}
