/**
 Client-side pagination of the data table: the pagination record the widget keeps, and the
 page `updateResultsFromJson` cuts out of the (filtered, ordered) data with `slice`.
 */
module Paging {
  import opened JsValues

  /**
   The widget's `pagination` object. After a reset both fields are integers; after a REST
   response without a Content-Range header it is `{}`, both fields undefined.
   */
  datatype Pagination = Pagination(currentPage: JsNum, total: JsNum)

  /** The record a reset installs: page 1 of `total` items. */
  function FirstPage(total: nat): Pagination {
    Pagination(Int(1), Int(total))
  }

  /**
   `items.slice((currentPage - 1) * pageSize, currentPage * pageSize)`, the page shown for
   `currentPage` of size `pageSize`. A missing or NaN page number selects nothing.
   */
  function PageOf<T>(items: seq<T>, currentPage: JsNum, pageSize: int): (r: seq<T>)
    ensures !currentPage.Int? ==> r == []
    ensures |r| <= |items|
  {
    Slice(items, currentPage.Plus(-1).Times(pageSize), currentPage.Times(pageSize))
  }

  /**
   For a page number from 1 on and a non-negative page size, the page is the run of items
   from index `(page-1)*pageSize` up to `page*pageSize`, cut off at the end of the data: at
   most `pageSize` items, none when the page starts past the end.
   */
  lemma PageWindow<T>(items: seq<T>, page: int, pageSize: int)
    requires page >= 1 && pageSize >= 0
    ensures var start := (page - 1) * pageSize;
            var r := PageOf(items, Int(page), pageSize);
            && 0 <= start
            && (start >= |items| ==> r == [])
            && (start < |items| ==> r == items[start..Min(start + pageSize, |items|)])
            && |r| <= pageSize
  {
    var start := (page - 1) * pageSize;
    assert page * pageSize == start + pageSize;
    assert 0 <= start by {
      assert page - 1 >= 0;
    }
  }

  /** Pages 1 to k, one after the other. */
  function FirstPages<T>(items: seq<T>, k: nat, pageSize: int): seq<T>
    decreases k
  {
    if k == 0 then [] else FirstPages(items, k - 1, pageSize) + PageOf(items, Int(k), pageSize)
  }

  /**
   Pages follow each other without gap or overlap: pages 1 to k together are exactly the
   first `k * pageSize` items (all of them once that passes the end).
   */
  lemma {:induction false} FirstPagesArePrefix<T>(items: seq<T>, k: nat, pageSize: int)
    requires pageSize >= 0
    ensures FirstPages(items, k, pageSize) == items[..Min(k * pageSize, |items|)]
    decreases k
  {
    if k > 0 {
      assert FirstPages(items, k, pageSize) == FirstPages(items, k - 1, pageSize) + PageOf(items, Int(k), pageSize);
      FirstPagesArePrefix(items, k - 1, pageSize);
      NextPrefix(items, k, pageSize);
    } else {
      assert k * pageSize == 0;
    }
  }

  /** Page `k` continues the prefix that pages 1 to `k - 1` cover. */
  lemma NextPrefix<T>(items: seq<T>, k: int, pageSize: int)
    requires k >= 1 && pageSize >= 0
    ensures items[..Min((k - 1) * pageSize, |items|)] + PageOf(items, Int(k), pageSize)
         == items[..Min(k * pageSize, |items|)]
  {
    var page := PageOf(items, Int(k), pageSize);
    var start := (k - 1) * pageSize;
    var end := start + pageSize;
    assert k * pageSize == end && 0 <= start by {
      NextMultiple(k, pageSize);
    }
    assert (start >= |items| ==> page == []) && (start < |items| ==> page == items[start..Min(end, |items|)]) by {
      PageWindow(items, k, pageSize);
    }
    PrefixStep(items, start, end, page);
  }

  lemma NextMultiple(k: int, pageSize: int)
    requires k >= 1 && pageSize >= 0
    ensures k * pageSize == (k - 1) * pageSize + pageSize && (k - 1) * pageSize >= 0
  {
  }

  lemma PrefixStep<T>(items: seq<T>, start: int, end: int, page: seq<T>)
    requires 0 <= start <= end
    requires start >= |items| ==> page == []
    requires start < |items| ==> page == items[start..Min(end, |items|)]
    ensures items[..Min(start, |items|)] + page == items[..Min(end, |items|)]
  {
    if start < |items| {
      assert items[..start] + items[start..Min(end, |items|)] == items[..Min(end, |items|)];
    }
  }

  /** The item at position `m` of page `page` is item `(page - 1) * pageSize + m` of the data, whenever that exists. */
  lemma ItemOnPage<T>(items: seq<T>, page: int, pageSize: int, m: int)
    requires page >= 1 && 0 <= m < pageSize
    requires (page - 1) * pageSize + m < |items|
    ensures var r := PageOf(items, Int(page), pageSize);
            m < |r| && r[m] == items[(page - 1) * pageSize + m]
  {
    PageWindow(items, page, pageSize);
    var start := (page - 1) * pageSize;
    WindowIndex(items, start, pageSize, m, PageOf(items, Int(page), pageSize));
  }

  lemma WindowIndex<T>(items: seq<T>, start: int, pageSize: int, m: int, r: seq<T>)
    requires 0 <= start && 0 <= m < pageSize && start + m < |items|
    requires r == items[start..Min(start + pageSize, |items|)]
    ensures m < |r| && r[m] == items[start + m]
  {
  }
}
