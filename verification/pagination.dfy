/**
 * Page navigation of the applications list: the window of page buttons with
 * ellipses, and the clamps applied by the "previous" and "next" buttons and
 * after a delete. Pages are 0-based in state and 1-based on the buttons.
 */
module Pagination {

  /** One entry of the page bar: a 1-based page button or a "..." marker. */
  datatype PageItem = Number(n: int) | Ellipsis

  /** The buttons start..end, in order; empty when start > end. */
  function NumberRange(start: int, end: int): (r: seq<PageItem>)
    ensures |r| == if start <= end then end - start + 1 else 0
    ensures forall i :: 0 <= i < |r| ==> r[i] == Number(start + i)
  {
    seq(if start <= end then end - start + 1 else 0, i => Number(start + i))
  }

  function Max(a: int, b: int): int { if a >= b then a else b }
  function Min(a: int, b: int): int { if a <= b then a else b }

  /** Page numbers strictly increase from left to right, ignoring the ellipses. */
  predicate NumbersIncrease(s: seq<PageItem>) {
    forall i, j :: 0 <= i < j < |s| && s[i].Number? && s[j].Number? ==> s[i].n < s[j].n
  }

  /** No two "..." markers stand next to each other. */
  predicate NoAdjacentEllipses(s: seq<PageItem>) {
    forall i :: 0 <= i < |s| - 1 ==> !(s[i].Ellipsis? && s[i + 1].Ellipsis?)
  }

  /** First button of the middle window: one before the current (1-based) page, at least 2. */
  function WindowLeft(page: int): int { Max(2, (page + 1) - 1) }

  /** Last button of the middle window: one after the current page, at most totalPages - 1. */
  function WindowRight(page: int, totalPages: int): int { Min(totalPages - 1, (page + 1) + 1) }

  /** The addRange closure: appends the buttons start..end to out. */
  method AddRange(out: seq<PageItem>, start: int, end: int) returns (r: seq<PageItem>)
    ensures r == out + NumberRange(start, end)
  {
    r := out;
    var i := start;
    while i <= end
      invariant start <= end ==> start <= i <= end + 1
      invariant start > end ==> i == start
      invariant r == out + NumberRange(start, i - 1)
      decreases end - i
    {
      r := r + [Number(i)];
      i := i + 1;
    }
  }

  /** The ellipsis shown between the first page and the window, if pages are skipped there. */
  function Lead(page: int): seq<PageItem> {
    if WindowLeft(page) > 2 then [Ellipsis] else []
  }

  /** The ellipsis shown between the window and the last page, if pages are skipped there. */
  function Trail(page: int, totalPages: int): seq<PageItem> {
    if WindowRight(page, totalPages) < totalPages - 1 then [Ellipsis] else []
  }

  /** The page bar when there are more than 7 pages, assembled from its five parts. */
  function WideBar(page: int, totalPages: int): seq<PageItem> {
    [Number(1)] + Lead(page) + NumberRange(WindowLeft(page), WindowRight(page, totalPages))
    + Trail(page, totalPages) + [Number(totalPages)]
  }

  lemma WideBarShape(page: int, totalPages: int)
    requires totalPages > 7
    ensures var s := WideBar(page, totalPages);
      && 3 <= |s| <= 7
      && s[0] == Number(1)
      && s[|s| - 1] == Number(totalPages)
      && NoAdjacentEllipses(s)
  {
    var left, right := WindowLeft(page), WindowRight(page, totalPages);
    var lead, window, trail := Lead(page), NumberRange(left, right), Trail(page, totalPages);
    var s := WideBar(page, totalPages);
    assert left > 2 && right < totalPages - 1 ==> left <= right;
    assert |window| <= 3;
    assert |s| == 2 + |lead| + |window| + |trail|;
    forall i | 0 <= i < |s| - 1
      ensures !(s[i].Ellipsis? && s[i + 1].Ellipsis?)
    {
      if lead != [] && trail != [] {
        assert window != [];
      }
    }
  }

  lemma WideBarIncreasing(page: int, totalPages: int)
    requires totalPages > 7
    ensures NumbersIncrease(WideBar(page, totalPages))
    ensures forall i :: 0 <= i < |WideBar(page, totalPages)| && WideBar(page, totalPages)[i].Number? ==>
      1 <= WideBar(page, totalPages)[i].n <= totalPages
  {
    var left, right := WindowLeft(page), WindowRight(page, totalPages);
    var lead, window, trail := Lead(page), NumberRange(left, right), Trail(page, totalPages);
    var s := WideBar(page, totalPages);
    var k := 1 + |lead|;
    assert forall i :: k <= i < k + |window| ==> s[i] == Number(left + (i - k));
    assert forall i :: 0 < i < |s| - 1 && s[i].Number? ==> k <= i < k + |window|;
  }

  lemma WideBarEllipses(page: int, totalPages: int)
    requires totalPages > 7 && 0 <= page < totalPages
    ensures var s := WideBar(page, totalPages);
      && (s[1] == Ellipsis <==> WindowLeft(page) > 2)
      && (s[|s| - 2] == Ellipsis <==> WindowRight(page, totalPages) < totalPages - 1)
  {
    var left, right := WindowLeft(page), WindowRight(page, totalPages);
    assert left <= right;
  }

  lemma WideBarHasCurrent(page: int, totalPages: int)
    requires totalPages > 7 && 0 <= page < totalPages
    ensures Number(page + 1) in WideBar(page, totalPages)
  {
    var left, right := WindowLeft(page), WindowRight(page, totalPages);
    var s := WideBar(page, totalPages);
    var k := 1 + |Lead(page)|;
    if page == 0 {
      assert s[0] == Number(page + 1);
    } else if page + 1 == totalPages {
      assert s[|s| - 1] == Number(page + 1);
    } else {
      assert s[k + (page + 1 - left)] == Number(page + 1);
    }
  }

  /** All that the page bar promises, for 0-based page `page` out of `totalPages`. */
  predicate BarShape(out: seq<PageItem>, page: int, totalPages: int) {
    && (totalPages > 7 ==>
      && 3 <= |out| <= 7
      && out[0] == Number(1)
      && out[|out| - 1] == Number(totalPages)
      && NoAdjacentEllipses(out))
    && (totalPages > 7 && 0 <= page < totalPages ==>
      && (out[1] == Ellipsis <==> WindowLeft(page) > 2)
      && (out[|out| - 2] == Ellipsis <==> WindowRight(page, totalPages) < totalPages - 1))
    && NumbersIncrease(out)
    && (0 <= page < totalPages ==> Number(page + 1) in out)
    && (forall i :: 0 <= i < |out| && out[i].Number? ==> 1 <= out[i].n <= totalPages)
  }

  /** With more than 7 pages, the five-part bar has every promised property. */
  lemma WideBarMeetsShape(page: int, totalPages: int)
    requires totalPages > 7
    ensures BarShape(WideBar(page, totalPages), page, totalPages)
  {
    WideBarShape(page, totalPages);
    WideBarIncreasing(page, totalPages);
    if 0 <= page < totalPages {
      WideBarEllipses(page, totalPages);
      WideBarHasCurrent(page, totalPages);
    }
  }

  /** With at most 7 pages, listing every page has every promised property. */
  lemma NarrowBarMeetsShape(page: int, totalPages: int)
    requires totalPages <= 7
    ensures BarShape(NumberRange(1, totalPages), page, totalPages)
  {
    var s := NumberRange(1, totalPages);
    if 0 <= page < totalPages {
      assert s[page] == Number(page + 1);
    }
  }

  /**
   * The page bar for 0-based page `page` out of `totalPages`: every page when
   * there are at most 7, otherwise first and last page around a window of up
   * to three pages, with "..." where pages are skipped.
   */
  method PageNumbers(page: int, totalPages: int) returns (out: seq<PageItem>)
    ensures totalPages <= 7 ==> out == NumberRange(1, totalPages)
    ensures totalPages > 7 ==> out == WideBar(page, totalPages)
    ensures BarShape(out, page, totalPages)
  {
    var current := page + 1;
    var max := totalPages;
    out := [];
    if max <= 7 {
      out := AddRange(out, 1, max);
      NarrowBarMeetsShape(page, totalPages);
      return;
    }
    out := out + [Number(1)];
    var left := Max(2, current - 1);
    var right := Min(max - 1, current + 1);
    if left > 2 {
      out := out + [Ellipsis];
    }
    assert out == [Number(1)] + Lead(page);
    out := AddRange(out, left, right);
    if right < max - 1 {
      out := out + [Ellipsis];
    }
    assert out == [Number(1)] + Lead(page) + NumberRange(WindowLeft(page), WindowRight(page, totalPages))
      + Trail(page, totalPages);
    out := out + [Number(max)];
    WideBarMeetsShape(page, totalPages);
  }

  /** The page bar's "previous" button: Math.max(0, p - 1). */
  function PreviousPage(p: int): int {
    Max(0, p - 1)
  }

  /** The last valid 0-based page: Math.max(totalPages - 1, 0). */
  function LastPage(totalPages: int): nat {
    Max(totalPages - 1, 0)
  }

  /** The page bar's "next" button: Math.min(lastPage, p + 1). */
  function NextPage(p: int, totalPages: int): int {
    Min(LastPage(totalPages), p + 1)
  }

  /** Previous and next keep a valid page valid, move by exactly one when they can, and undo each other. */
  lemma NavigationStaysInRange(p: int, totalPages: int)
    requires 0 <= p <= LastPage(totalPages)
    ensures 0 <= PreviousPage(p) <= LastPage(totalPages)
    ensures 0 <= NextPage(p, totalPages) <= LastPage(totalPages)
    ensures PreviousPage(p) == if p == 0 then 0 else p - 1
    ensures NextPage(p, totalPages) == if p == LastPage(totalPages) then p else p + 1
    ensures p > 0 ==> NextPage(PreviousPage(p), totalPages) == p
    ensures p < LastPage(totalPages) ==> PreviousPage(NextPage(p, totalPages)) == p
  {
  }

  /** The page reloaded after deleting an item from the page `page` that showed `itemsOnPage` items. */
  function PageAfterDelete(page: int, itemsOnPage: nat): int {
    if page > 0 && itemsOnPage == 1 then page - 1 else page
  }

  /** Deleting steps back exactly when the last item of a later page goes, and never below page 0. */
  lemma DeleteStepsBackOnlyFromEmptiedPage(page: int, itemsOnPage: nat)
    requires page >= 0
    ensures 0 <= PageAfterDelete(page, itemsOnPage) <= page
    ensures PageAfterDelete(page, itemsOnPage) < page <==> page > 0 && itemsOnPage == 1
    ensures PageAfterDelete(page, itemsOnPage) >= page - 1
  {
  }
}
