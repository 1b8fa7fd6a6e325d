/** Client-side pagination of the task list: the page count, the visible slice, and the page
    index that `addTodo`, `deleteTodo` and the Previous/Next buttons move to. */
module Paging {

  /** ITEMS_PER_PAGE: how many tasks one page shows. */
  const ItemsPerPage: nat := 5

  function Min(a: int, b: int): int { if a <= b then a else b }

  /** `Math.ceil(n / ITEMS_PER_PAGE)` for a length `n`: the fewest pages that hold `n` tasks. */
  function CeilPages(n: nat): (r: nat)
    ensures n <= r * ItemsPerPage
    ensures r == 0 || (r - 1) * ItemsPerPage < n
  {
    (n + ItemsPerPage - 1) / ItemsPerPage
  }

  /** `totalPages = Math.max(1, Math.ceil(todos.length / ITEMS_PER_PAGE))`:
      at least one page, and otherwise exactly as many as `n` tasks fill. */
  function TotalPages(n: nat): (r: nat)
    ensures 1 <= r && n <= r * ItemsPerPage
    ensures n == 0 ==> r == 1
    ensures n > 0 ==> (r - 1) * ItemsPerPage < n
  {
    var pages := CeilPages(n);
    if pages < 1 then 1 else pages
  }

  /** How `Array.prototype.slice` reads an index argument against a length `n`:
      a negative index counts from the end, and the result is clamped to `[0, n]`. */
  function SliceIndex(k: int, n: nat): (r: nat)
    ensures r <= n
    ensures 0 <= k ==> r == Min(k, n)
  {
    if k < 0 then (if n + k < 0 then 0 else n + k) else if k < n then k else n
  }

  /** `s.slice(start, end)`: for non-negative bounds, the part of `s` between them,
      both clamped to the length; empty when the clamped start is not before the clamped end. */
  function JsSlice<T>(s: seq<T>, start: int, end: int): (r: seq<T>)
    ensures |r| <= |s|
    ensures 0 <= start <= end ==> r == s[Min(start, |s|)..Min(end, |s|)]
  {
    var from, to := SliceIndex(start, |s|), SliceIndex(end, |s|);
    if from < to then s[from..to] else []
  }

  /** `currentTodos = todos.slice(currentPage * ITEMS_PER_PAGE, (currentPage + 1) * ITEMS_PER_PAGE)`:
      for a non-negative page, at most a page's worth of tasks, exactly those whose index falls in
      the page, in list order. */
  function CurrentTodos<T>(s: seq<T>, page: int): (r: seq<T>)
    ensures 0 <= page ==> |r| <= ItemsPerPage
    ensures 0 <= page ==> |r| == if |s| <= page * ItemsPerPage then 0 else Min(ItemsPerPage, |s| - page * ItemsPerPage)
    ensures 0 <= page ==> forall k :: 0 <= k < |r| ==> r[k] == s[page * ItemsPerPage + k]
  {
    JsSlice(s, page * ItemsPerPage, (page + 1) * ItemsPerPage)
  }

  /** A page that starts before the end of the list shows the window from its first index
      up to a page's worth further on, or to the end of the list. */
  lemma PageWindow<T>(s: seq<T>, page: int)
    requires 0 <= page && page * ItemsPerPage < |s|
    ensures CurrentTodos(s, page) == s[page * ItemsPerPage..Min(page * ItemsPerPage + ItemsPerPage, |s|)]
  {
  }

  /** The page index addresses one of the `TotalPages(n)` pages. */
  predicate PageValid(n: nat, page: int) {
    0 <= page < TotalPages(n)
  }

  /** On a non-empty list, a page is valid exactly when the slice it shows is non-empty. */
  lemma ValidPageIsNonEmpty<T>(s: seq<T>, page: int)
    requires |s| > 0 && 0 <= page
    ensures PageValid(|s|, page) <==> CurrentTodos(s, page) != []
  {
    var pages := TotalPages(|s|);
    if page < pages {
      assert page * ItemsPerPage <= (pages - 1) * ItemsPerPage;
    } else {
      assert pages * ItemsPerPage <= page * ItemsPerPage;
    }
  }

  /** The first `k` pages shown one after the other. */
  function PagesUpTo<T>(s: seq<T>, k: nat): seq<T> {
    if k == 0 then [] else PagesUpTo(s, k - 1) + CurrentTodos(s, k - 1)
  }

  /** The first `k` pages together are exactly the first `k * ITEMS_PER_PAGE` tasks (or all of them). */
  lemma {:induction false} PagesUpToIsPrefix<T>(s: seq<T>, k: nat)
    ensures PagesUpTo(s, k) == s[..Min(k * ItemsPerPage, |s|)]
  {
    if k > 0 {
      PagesUpToIsPrefix(s, k - 1);
      var lo := (k - 1) * ItemsPerPage;
      if lo < |s| {
        PageWindow(s, k - 1);
        var hi := Min(lo + ItemsPerPage, |s|);
        assert hi == Min(k * ItemsPerPage, |s|);
        assert s[..lo] + s[lo..hi] == s[..hi];
      } else {
        assert CurrentTodos(s, k - 1) == [];
      }
    }
  }

  /** The pages partition the list: read in order, pages 0 to `totalPages - 1` give back every task,
      each once and in list order. */
  lemma PagesCoverList<T>(s: seq<T>)
    ensures PagesUpTo(s, TotalPages(|s|)) == s
  {
    PagesUpToIsPrefix(s, TotalPages(|s|));
  }

  /** `Math.ceil((todos.length + 1) / ITEMS_PER_PAGE) - 1`, the page `addTodo` jumps to. */
  function PageAfterAdd(n: nat): (r: int)
    ensures 0 <= r && r * ItemsPerPage <= n < (r + 1) * ItemsPerPage
    ensures PageValid(n + 1, r)
  {
    CeilPages(n + 1) - 1
  }

  /** The page `addTodo` jumps to shows the task just appended, as its last entry. */
  lemma AddedTaskVisible<T>(s: seq<T>, t: T)
    ensures var v := CurrentTodos(s + [t], PageAfterAdd(|s|));
            v != [] && v[|v| - 1] == t
  {
    var p := PageAfterAdd(|s|);
    var v := CurrentTodos(s + [t], p);
    assert |v| == |s| + 1 - p * ItemsPerPage;
    assert v[|v| - 1] == (s + [t])[|s|];
  }

  /** The page index after `deleteTodo` leaves `newLength` tasks: one page back when the current
      page now starts at or past the end and is not the first one. */
  function PageAfterDelete(newLength: nat, page: int): (r: int)
    ensures page - 1 <= r <= page
    ensures page <= 0 ==> r == page
    ensures 0 < page ==> (r < page <==> newLength <= page * ItemsPerPage)
  {
    if newLength <= page * ItemsPerPage && page > 0 then page - 1 else page
  }

  /** A delete that removes at most one task keeps a valid page valid. */
  lemma DeleteKeepsPageValid(oldLength: nat, newLength: nat, page: int)
    requires PageValid(oldLength, page)
    requires newLength <= oldLength <= newLength + 1
    ensures PageValid(newLength, PageAfterDelete(newLength, page))
  {
    var pages := TotalPages(oldLength);
    assert page * ItemsPerPage <= (pages - 1) * ItemsPerPage;
    var p := PageAfterDelete(newLength, page);
    if newLength > 0 {
      assert p * ItemsPerPage < newLength;
      var q := TotalPages(newLength);
      assert p * ItemsPerPage < q * ItemsPerPage;
    }
  }

  /** Removing two or more tasks can strand the page: eleven tasks viewed on page 2, seven removed,
      leave four tasks and page 1, which does not exist. */
  lemma DeleteOfManyCanStrandPage()
    ensures PageValid(11, 2) && !PageValid(4, PageAfterDelete(4, 2))
  {
    assert TotalPages(11) == 3;
    assert TotalPages(4) == 1;
  }

  /** Previous is enabled when `currentPage !== 0`; its step keeps a valid page valid. */
  lemma PreviousKeepsPageValid(n: nat, page: int)
    requires PageValid(n, page) && page != 0
    ensures PageValid(n, page - 1)
  {
  }

  /** Next is enabled when `currentPage !== totalPages - 1`; its step keeps a valid page valid. */
  lemma NextKeepsPageValid(n: nat, page: int)
    requires PageValid(n, page) && page != TotalPages(n) - 1
    ensures PageValid(n, page + 1)
  {
  }
}
