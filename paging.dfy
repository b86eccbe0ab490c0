/** Paging of query results: LINQ `Skip`/`Take` and the page record the
    list and search queries return. */
module Paging {
  import Int32
  import opened Seqs

  function Min(a: int, b: int): int { if a <= b then a else b }
  function Max(a: int, b: int): int { if a <= b then b else a }

  /** LINQ `s.Skip(skip).Take(take)`: a count that is not positive skips,
      respectively takes, nothing. */
  function SkipTake<T>(s: seq<T>, skip: int, take: int): (r: seq<T>)
    ensures |r| == Min(Max(take, 0), Max(|s| - Max(skip, 0), 0))
    ensures forall i :: 0 <= i < |r| ==> r[i] == s[Max(skip, 0) + i]
  {
    var from := Min(Max(skip, 0), |s|);
    var to := Min(from + Max(take, 0), |s|);
    s[from..to]
  }

  /** The number of entries dropped before page `page`, as intended: computed
      without overflow. */
  function Offset(page: int, pageSize: int): (r: int)
    ensures 1 <= page && 0 <= pageSize ==> r >= 0
  {
    MulNonNegative(page - 1, pageSize);
    (page - 1) * pageSize
  }

  lemma MulNonNegative(a: int, b: int)
    ensures 0 <= a && 0 <= b ==> a * b >= 0
  {
  }

  /** The same offset computed as the service does, as a C# `int` product
      in an unchecked context, which wraps around modulo 2^32. */
  function OffsetAsWritten(page: int, pageSize: int): (r: int)
    ensures Int32.InRange(r) && (r - Offset(page, pageSize)) % 0x1_0000_0000 == 0
    ensures Int32.InRange(Offset(page, pageSize)) ==> r == Offset(page, pageSize)
  {
    Int32.Wrap((page - 1) * pageSize)
  }

  /** Page `page` (1-based) of `s` with `pageSize` entries per page. Page
      numbers and sizes are not checked: a page before the first starts at
      the beginning, and a size that is not positive gives an empty page. */
  function PageWindow<T>(s: seq<T>, page: int, pageSize: int): (r: seq<T>)
    ensures |r| <= Max(pageSize, 0)
    ensures |r| == Min(Max(pageSize, 0), Max(|s| - Max(Offset(page, pageSize), 0), 0))
    ensures forall i :: 0 <= i < |r| ==> r[i] == s[Max(Offset(page, pageSize), 0) + i]
  {
    SkipTake(s, Offset(page, pageSize), pageSize)
  }

  /** The page as the service computes it, with the wrapping offset. */
  function PageWindowAsWritten<T>(s: seq<T>, page: int, pageSize: int): (r: seq<T>)
    ensures |r| <= Max(pageSize, 0)
    ensures Int32.InRange(Offset(page, pageSize)) ==> r == PageWindow(s, page, pageSize)
  {
    SkipTake(s, OffsetAsWritten(page, pageSize), pageSize)
  }

  /** The number of pages: the ceiling of `totalCount / pageSize`. */
  function PageCount(totalCount: nat, pageSize: int): (r: nat)
    requires pageSize >= 1
  {
    (totalCount + pageSize - 1) / pageSize
  }

  /** The page record: the entries of one page, the size of the whole
      filtered set, and the requested page and page size echoed back. */
  datatype PagedResult<T> = PagedResult(items: seq<T>, totalCount: nat, page: int, pageSize: int)
  {
    function TotalPages(): nat
      requires pageSize >= 1
    {
      PageCount(totalCount, pageSize)
    }
  }

  /** `PageCount` is the ceiling: the fewest pages of `pageSize` entries that
      hold `totalCount` entries. */
  lemma PageCountIsCeiling(totalCount: nat, pageSize: int)
    requires pageSize >= 1
    ensures PageCount(totalCount, pageSize) * pageSize >= totalCount
    ensures PageCount(totalCount, pageSize) > 0 ==> (PageCount(totalCount, pageSize) - 1) * pageSize < totalCount
    ensures PageCount(totalCount, pageSize) == 0 <==> totalCount == 0
  {
    var n := totalCount + pageSize - 1;
    var q := n / pageSize;
    assert n == q * pageSize + n % pageSize;
    assert 0 <= n % pageSize < pageSize;
    if q > 0 {
      assert (q - 1) * pageSize == q * pageSize - pageSize;
    }
  }

  lemma MulMonotone(a: int, b: int, k: int)
    requires a <= b && 0 <= k
    ensures a * k <= b * k
  {
    MulNonNegative(b - a, k);
    assert (b - a) * k == b * k - a * k;
  }

  /** Consecutive pages start `pageSize` entries apart. */
  lemma OffsetStep(page: int, pageSize: int)
    ensures Offset(page + 1, pageSize) == Offset(page, pageSize) + pageSize
  {
    assert page * pageSize == (page - 1) * pageSize + pageSize;
  }

  /** A later page starts at least a whole page after an earlier one. */
  lemma OffsetsApart(page1: int, page2: int, pageSize: int)
    requires page1 < page2 && 0 <= pageSize
    ensures Offset(page1, pageSize) + pageSize <= Offset(page2, pageSize)
  {
    OffsetStep(page1, pageSize);
    MulMonotone(page1, page2 - 1, pageSize);
  }

  /** A page holds entries exactly when it is one of the first `PageCount`
      pages: pages past the end are empty. */
  lemma PageEmptyIffPastEnd<T>(s: seq<T>, page: int, pageSize: int)
    requires 1 <= page && 1 <= pageSize
    ensures PageWindow(s, page, pageSize) == [] <==> page > PageCount(|s|, pageSize)
  {
    PageCountIsCeiling(|s|, pageSize);
    var c := PageCount(|s|, pageSize);
    if page > c {
      MulMonotone(c, page - 1, pageSize);
    } else {
      MulMonotone(page - 1, c - 1, pageSize);
    }
  }

  /** Two different pages of a list without duplicates share no entry. */
  lemma PagesDisjoint<T>(s: seq<T>, page1: int, page2: int, pageSize: int, x: T)
    requires NoDuplicates(s)
    requires 1 <= page1 < page2 && 1 <= pageSize
    ensures !(x in PageWindow(s, page1, pageSize) && x in PageWindow(s, page2, pageSize))
  {
    var w1, w2 := PageWindow(s, page1, pageSize), PageWindow(s, page2, pageSize);
    if x in w1 && x in w2 {
      var i :| 0 <= i < |w1| && w1[i] == x;
      var j :| 0 <= j < |w2| && w2[j] == x;
      OffsetsApart(page1, page2, pageSize);
    }
  }

  /** Two different pages of a list with distinct values share no value. */
  lemma WindowsApart<T, K>(s: seq<T>, f: T -> K, page1: int, page2: int, pageSize: int)
    requires DistinctBy(s, f)
    requires 1 <= page1 < page2 && 1 <= pageSize
    ensures forall i, j :: 0 <= i < |PageWindow(s, page1, pageSize)| && 0 <= j < |PageWindow(s, page2, pageSize)| ==>
      f(PageWindow(s, page1, pageSize)[i]) != f(PageWindow(s, page2, pageSize)[j])
  {
    var w1, w2 := PageWindow(s, page1, pageSize), PageWindow(s, page2, pageSize);
    var off1, off2 := Offset(page1, pageSize), Offset(page2, pageSize);
    OffsetsApart(page1, page2, pageSize);
    if |w2| > 0 {
      SlicesApart(s, f, off1, off1 + |w1|, off2, off2 + |w2|);
      forall i, j | 0 <= i < |w1| && 0 <= j < |w2| ensures f(w1[i]) != f(w2[j]) {
        assert w1[i] == s[off1 + i] && w2[j] == s[off2 + j];
      }
    }
  }

  /** Every entry is on a page: entry `i` is on page `i / pageSize + 1`. */
  lemma EveryEntryOnItsPage<T>(s: seq<T>, i: int, pageSize: int)
    requires 0 <= i < |s| && 1 <= pageSize
    ensures s[i] in PageWindow(s, i / pageSize + 1, pageSize)
  {
    var page := i / pageSize + 1;
    var w := PageWindow(s, page, pageSize);
    var k := i % pageSize;
    assert i == (page - 1) * pageSize + k;
    assert w[k] == s[i];
  }

  /** So every entry is on some page. */
  lemma EntryHasPage<T>(s: seq<T>, i: int, pageSize: int)
    requires 0 <= i < |s| && 1 <= pageSize
    ensures exists page :: 1 <= page && s[i] in PageWindow(s, page, pageSize)
  {
    var page := i / pageSize + 1;
    assert page >= 1;
    EveryEntryOnItsPage(s, i, pageSize);
    assert s[i] in PageWindow(s, page, pageSize);
  }

  /** The page of requested number 65537 with 65536 entries per page begins
      at offset 2^32, which the service's 32-bit product wraps to 0. */
  lemma OffsetOverflowExample()
    ensures Offset(65537, 65536) == 0x1_0000_0000
    ensures OffsetAsWritten(65537, 65536) == 0
  {
  }

  /** As written, that page of any non-empty result set of fewer than 2^32
      entries is the first page, although it lies far past the end. */
  lemma {:induction false} PageOverflowShowsFirstPage<T>(s: seq<T>)
    requires 0 < |s| < 0x1_0000_0000
    ensures PageWindow(s, 65537, 65536) == []
    ensures PageWindowAsWritten(s, 65537, 65536) == s[..Min(|s|, 65536)]
    ensures PageWindowAsWritten(s, 65537, 65536) != []
  {
    OffsetOverflowExample();
  }
}
