/** Offset pagination of a listed result (app/shared/pagination.py). */
module Pagination {
  import opened Common
  import opened Workspace
  import opened Board

  datatype PageParams = PageParams(page: nat, size: nat) {
    /** The bounds the query parameters are validated against. */
    predicate Valid() {
      page >= 1 && size >= 1
    }

    function Offset(): nat
      requires Valid()
    {
      (page - 1) * size
    }
  }

  datatype PaginationMeta = PaginationMeta(page: nat, size: nat, total: nat, pages: nat)

  /** OFFSET and LIMIT on an ordered result. */
  function Slice<T>(items: seq<T>, offset: nat, limit: nat): seq<T> {
    if offset >= |items| then []
    else if offset + limit >= |items| then items[offset..]
    else items[offset..offset + limit]
  }

  /** The number of pages, the last one possibly short; an empty result has none. */
  function Pages(total: nat, size: nat): nat
    requires size >= 1
  {
    if total == 0 then 0 else (total + size - 1) / size
  }

  function Paginate<T>(items: seq<T>, params: PageParams): (seq<T>, PaginationMeta)
    requires params.Valid()
  {
    (Slice(items, params.Offset(), params.size),
     PaginationMeta(params.page, params.size, |items|, Pages(|items|, params.size)))
  }

  function PageOf<T>(items: seq<T>, page: nat, size: nat): seq<T>
    requires page >= 1 && size >= 1
  {
    Paginate(items, PageParams(page, size)).0
  }

  /** Pages 1 to `n`, one after the other. */
  function FirstPages<T>(items: seq<T>, n: nat, size: nat): seq<T>
    requires size >= 1
  {
    if n == 0 then [] else FirstPages(items, n - 1, size) + PageOf(items, n, size)
  }

  lemma CeilingBounds(total: nat, size: nat, q: nat, r: nat)
    requires total > 0 && r < size && q * size + r == total + size - 1
    ensures q >= 1 && total <= q * size && (q - 1) * size < total
  {
    assert (q - 1) * size == q * size - size;
  }

  lemma DivisionParts(i: nat, size: nat) returns (q: nat, r: nat)
    requires size >= 1
    ensures q == i / size && i == q * size + r && r < size
  {
    q, r := i / size, i % size;
  }

  /** The page count is the least number of pages that holds every item. */
  lemma PagesBounds(total: nat, size: nat)
    requires size >= 1
    ensures total <= Pages(total, size) * size
    ensures total > 0 ==> Pages(total, size) >= 1 && (Pages(total, size) - 1) * size < total
  {
    if total > 0 {
      var q, r := DivisionParts(total + size - 1, size);
      CeilingBounds(total, size, q, r);
    }
  }

  lemma SliceExtendsPrefix<T>(items: seq<T>, start: nat, size: nat)
    requires size >= 1
    ensures (if start <= |items| then items[..start] else items) + Slice(items, start, size)
            == if start + size <= |items| then items[..start + size] else items
  {}

  lemma {:induction false} FirstPagesArePrefix<T>(items: seq<T>, n: nat, size: nat)
    requires size >= 1
    ensures FirstPages(items, n, size) == if n * size <= |items| then items[..n * size] else items
  {
    if n == 0 {
    } else {
      FirstPagesArePrefix(items, n - 1, size);
      var start := (n - 1) * size;
      assert n * size == start + size;
      assert PageOf(items, n, size) == Slice(items, start, size);
      SliceExtendsPrefix(items, start, size);
    }
  }

  /** Reading pages 1 to `pages` yields the whole list, in order, each item where it was. */
  lemma PagesCoverList<T>(items: seq<T>, size: nat)
    requires size >= 1
    ensures FirstPages(items, Pages(|items|, size), size) == items
  {
    PagesBounds(|items|, size);
    FirstPagesArePrefix(items, Pages(|items|, size), size);
  }

  lemma Monotone(a: nat, b: nat, size: nat)
    ensures a <= b ==> a * size <= b * size
  {}

  /** Every page before the last is full, the last is not empty, and pages after it are. */
  lemma PageSizes<T>(items: seq<T>, page: nat, size: nat)
    requires page >= 1 && size >= 1
    ensures page < Pages(|items|, size) ==> |PageOf(items, page, size)| == size
    ensures page == Pages(|items|, size) ==> 1 <= |PageOf(items, page, size)| <= size
    ensures page > Pages(|items|, size) ==> PageOf(items, page, size) == []
  {
    var pages := Pages(|items|, size);
    PagesBounds(|items|, size);
    if page < pages {
      assert page * size <= (pages - 1) * size by { Monotone(page, pages - 1, size); }
      assert page * size == (page - 1) * size + size;
    } else if page > pages {
      assert pages * size <= (page - 1) * size by { Monotone(pages, page - 1, size); }
    }
  }

  /** The least number of pages that holds every item; none when there are none. */
  predicate IsPageCount(total: nat, pages: nat, size: nat) {
    total <= pages * size && (if total == 0 then pages == 0 else pages >= 1 && (pages - 1) * size < total)
  }

  lemma PagesIsPageCount(total: nat, size: nat)
    requires size >= 1
    ensures IsPageCount(total, Pages(total, size), size)
  {
    PagesBounds(total, size);
  }

  ghost predicate PagesMakeUp<T>(items: seq<T>, pages: nat, size: nat) {
    size >= 1 && FirstPages(items, pages, size) == items
  }

  lemma PagesMakeUpList<T>(items: seq<T>, size: nat)
    requires size >= 1
    ensures PagesMakeUp(items, Pages(|items|, size), size)
  {
    PagesCoverList(items, size);
  }

  /** The metadata of an answer: what was asked for, the length of the list, and how many pages make it up. */
  lemma MetaIsAccurate<T>(items: seq<T>, params: PageParams)
    requires params.Valid()
    ensures var meta := Paginate(items, params).1;
            && meta.page == params.page && meta.size == params.size && meta.total == |items|
            && PagesMakeUp(items, meta.pages, meta.size) && IsPageCount(meta.total, meta.pages, meta.size)
  {
    PagesMakeUpList(items, params.size);
    PagesIsPageCount(|items|, params.size);
  }

  /** The rows of an answer, by its metadata: full pages of `size` up to the last, nothing beyond that one. */
  lemma RowsFitMeta<T>(items: seq<T>, params: PageParams)
    requires params.Valid()
    ensures var (rows, meta) := Paginate(items, params);
            && (meta.page < meta.pages ==> |rows| == meta.size)
            && (meta.page == meta.pages ==> 1 <= |rows| <= meta.size)
            && (meta.page > meta.pages ==> rows == [])
  {
    var rows := PageOf(items, params.page, params.size);
    PageSizes(items, params.page, params.size);
    assert Paginate(items, params)
        == (rows, PaginationMeta(params.page, params.size, |items|, Pages(|items|, params.size)));
  }

  /** Where an item is found: item `q * size + r` of the list is item `r` of page `q + 1`. */
  lemma ItemOnPage<T>(items: seq<T>, q: nat, r: nat, size: nat)
    requires r < size && q * size + r < |items|
    ensures r < |PageOf(items, q + 1, size)|
    ensures PageOf(items, q + 1, size)[r] == items[q * size + r]
  {}

  lemma ItemOnSomePage<T>(items: seq<T>, i: nat, size: nat) returns (page: nat, k: nat)
    requires size >= 1 && i < |items|
    ensures 1 <= page <= Pages(|items|, size) && k < |PageOf(items, page, size)|
    ensures PageOf(items, page, size)[k] == items[i]
  {
    var q;
    q, k := DivisionParts(i, size);
    page := q + 1;
    ItemOnPage(items, q, k, size);
    PageSizes(items, page, size);
  }

  lemma PageIndex<T>(items: seq<T>, page: nat, size: nat, k: nat)
    requires page >= 1 && size >= 1 && k < |PageOf(items, page, size)|
    ensures k < size && (page - 1) * size + k < |items|
    ensures PageOf(items, page, size)[k] == items[(page - 1) * size + k]
  {}

  lemma DivideUniquely(q: nat, r: nat, q': nat, r': nat, size: nat)
    requires r < size && r' < size && q * size + r == q' * size + r'
    ensures q == q' && r == r'
  {
    assert (q + 1) * size == q * size + size && (q' + 1) * size == q' * size + size;
    Monotone(q + 1, q', size);
    Monotone(q' + 1, q, size);
  }

  lemma PlaceIsUnique<T>(items: seq<T>, size: nat, page: nat, k: nat, page': nat, k': nat)
    requires size >= 1 && page >= 1 && page' >= 1
    requires forall i, j | 0 <= i < j < |items| :: items[i] != items[j]
    requires k < |PageOf(items, page, size)| && k' < |PageOf(items, page', size)|
    requires PageOf(items, page, size)[k] == PageOf(items, page', size)[k']
    ensures page == page' && k == k'
  {
    PageIndex(items, page, size, k);
    PageIndex(items, page', size, k');
    DivideUniquely(page - 1, k, page' - 1, k', size);
  }

  predicate OnPage(listed: seq<Id>, page: nat, size: nat, k: nat, task: Id)
    requires size >= 1
  {
    page >= 1 && k < |PageOf(listed, page, size)| && PageOf(listed, page, size)[k] == task
  }

  /** The default task listing: every live task of the project is on a page ... */
  lemma TaskOnSomePage(tasks: Tasks, project: Id, size: nat, task: Id) returns (page: nat, k: nat)
    requires size >= 1 && LiveTask(tasks, task) && tasks[task].project == project
    ensures 1 <= page <= Pages(|ListForProject(tasks, project)|, size)
    ensures OnPage(ListForProject(tasks, project), page, size, k, task)
  {
    var listed := ListForProject(tasks, project);
    ListedAreLive(tasks, project);
    var i: nat :| i < |listed| && listed[i] == task;
    page, k := ItemOnSomePage(listed, i, size);
  }

  /** ... and at one place of one page only. */
  lemma TaskOnOnePageOnly(tasks: Tasks, project: Id, size: nat, task: Id, page: nat, k: nat, page': nat, k': nat)
    requires size >= 1
    requires OnPage(ListForProject(tasks, project), page, size, k, task)
    requires OnPage(ListForProject(tasks, project), page', size, k', task)
    ensures page == page' && k == k'
  {
    ListedAreLive(tasks, project);
    PlaceIsUnique(ListForProject(tasks, project), size, page, k, page', k');
  }
}
