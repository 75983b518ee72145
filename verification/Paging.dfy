/** Pages of a list, counted from its end (`storage/store/memory/util.go`). */
module Paging {
  import opened Arithmetic

  /** getStartAndEndIndex: (-1, -1) for impossible parameters; the end is negative past the last page. */
  function StartAndEnd(n: nat, page: int, pageSize: int): (int, int) {
    if page < 1 || pageSize < 0 then (-1, -1)
    else
      var start, end := n - page * pageSize, n - (page - 1) * pageSize;
      (if start > n then -1 else if start < 0 then 0 else start, if end > n then n else end)
  }

  /**
   Whenever neither index is negative, slicing with them cannot fail. That is the case exactly for possible parameters
   and a page that does not lie wholly before the list; the two corrections for indices beyond the list never apply.
   */
  lemma IndicesAreInRange(n: nat, page: int, pageSize: int)
    ensures var (start, end) := StartAndEnd(n, page, pageSize);
            && (start >= 0 && end >= 0 ==> start <= end <= n && end - start <= pageSize)
            && (start >= 0 && end >= 0 <==> page >= 1 && pageSize >= 0 && (page - 1) * pageSize <= n)
            && (page >= 1 && pageSize >= 0 ==> start >= 0 && end == n - (page - 1) * pageSize)
  {
    if page >= 1 && pageSize >= 0 {
      Products(page - 1, pageSize);
    }
  }

  lemma Products(p: nat, size: nat)
    ensures 0 <= p * size && (p + 1) * size == p * size + size
  {
  }

  /** The part of the list the shallow copies show. */
  function Page<T>(list: seq<T>, page: int, pageSize: int): seq<T> {
    var (start, end) := StartAndEnd(|list|, page, pageSize);
    IndicesAreInRange(|list|, page, pageSize);
    if start < 0 || end < 0 then [] else list[start..end]
  }

  /** Pages k, k - 1, ..., 1 one after the other. */
  function Pages<T>(list: seq<T>, k: nat, pageSize: nat): seq<T> {
    if k == 0 then [] else Page(list, k, pageSize) + Pages(list, k - 1, pageSize)
  }

  function Newest<T>(list: seq<T>, n: nat): seq<T> {
    if n <= |list| then list[|list| - n..] else list
  }

  lemma PageSpan<T>(list: seq<T>, page: nat, pageSize: nat)
    requires page >= 1
    ensures Newest(list, page * pageSize) == Page(list, page, pageSize) + Newest(list, (page - 1) * pageSize)
  {
    Products(page - 1, pageSize);
  }

  /** The first k pages together are the newest k * pageSize entries, in order, none missing and none twice. */
  lemma {:induction false} PagesAreTheNewest<T>(list: seq<T>, k: nat, pageSize: nat)
    ensures Pages(list, k, pageSize) == Newest(list, k * pageSize)
  {
    Products(k, pageSize);
    if k > 0 {
      Products(k - 1, pageSize);
      PagesAreTheNewest(list, k - 1, pageSize);
      PageSpan(list, k, pageSize);
    }
  }

  function LastPage(n: nat, pageSize: nat): nat
    requires pageSize >= 1
  {
    (n + pageSize - 1) / pageSize
  }

  lemma LastPageBounds(n: nat, pageSize: nat)
    requires pageSize >= 1
    ensures n <= LastPage(n, pageSize) * pageSize < n + pageSize
  {
    var q := LastPage(n, pageSize);
    assert n + pageSize - 1 == q * pageSize + (n + pageSize - 1) % pageSize;
  }

  /** The pages partition the list. */
  lemma PagesPartitionTheList<T>(list: seq<T>, pageSize: nat)
    requires pageSize >= 1
    ensures Pages(list, LastPage(|list|, pageSize), pageSize) == list
  {
    var k := LastPage(|list|, pageSize);
    LastPageBounds(|list|, pageSize);
    PagesAreTheNewest(list, k, pageSize);
  }

  /**
   Page 1 holds the newest entries; a page has entries exactly up to the last page, and only the last one may be
   short.
   */
  lemma PageSizes<T>(list: seq<T>, page: int, pageSize: nat)
    requires pageSize >= 1
    ensures Page(list, 1, pageSize) == Newest(list, pageSize)
    ensures Page(list, page, pageSize) != [] <==> 1 <= page <= LastPage(|list|, pageSize)
    ensures 1 <= page < LastPage(|list|, pageSize) ==> |Page(list, page, pageSize)| == pageSize
  {
    var last := LastPage(|list|, pageSize);
    LastPageBounds(|list|, pageSize);
    if page >= 1 {
      Products(page - 1, pageSize);
      if page <= last {
        Monotone(page - 1, last - 1, pageSize);
        Distribute(last - 1, 1, pageSize);
      }
      if (page - 1) * pageSize < |list| {
        Cancel(page - 1, last, pageSize);
      }
      if page < last {
        Monotone(page, last - 1, pageSize);
      }
    }
  }
}
