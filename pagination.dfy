/**
 * The pager under the movie table: how many pages the item count makes, the
 * list of page links, which link is marked active, and what a click on a
 * link reports back.
 */
module Pagination {
  import opened JsValues

  /** `n` pages of `pageSize` items hold `itemsCount` items, and `n - 1` pages do not. */
  predicate IsCeiling(n: nat, itemsCount: nat, pageSize: nat) {
    (n - 1) * pageSize < itemsCount <= n * pageSize
  }

  lemma MulMonotone(a: int, b: int, p: nat)
    requires a <= b
    ensures a * p <= b * p
  {
  }

  lemma CeilingDivision(itemsCount: nat, pageSize: nat)
    requires pageSize > 0
    ensures var q := (itemsCount + pageSize - 1) / pageSize;
            (q == 0 <==> itemsCount == 0) && (itemsCount > 0 ==> IsCeiling(q, itemsCount, pageSize))
  {
    var total := itemsCount + pageSize - 1;
    var q, r := total / pageSize, total % pageSize;
    assert total == q * pageSize + r && 0 <= r < pageSize;
    assert (q - 1) * pageSize == q * pageSize - pageSize;
  }

  /**
   * The number of pages: `Math.ceil(itemsCount / pageSize)`, in integers.
   * Zero items make zero pages; otherwise `n` pages hold the items and
   * `n - 1` do not.
   */
  function PagesCount(itemsCount: nat, pageSize: nat): (n: nat)
    requires pageSize > 0
    ensures n == 0 <==> itemsCount == 0
    ensures itemsCount > 0 ==> IsCeiling(n, itemsCount, pageSize)
  {
    CeilingDivision(itemsCount, pageSize);
    (itemsCount + pageSize - 1) / pageSize
  }

  /** No page count other than `PagesCount` satisfies the ceiling bounds. */
  lemma PagesCountIsUnique(itemsCount: nat, pageSize: nat, n: nat)
    requires pageSize > 0 && itemsCount > 0
    requires IsCeiling(n, itemsCount, pageSize)
    ensures n == PagesCount(itemsCount, pageSize)
  {
    var q := PagesCount(itemsCount, pageSize);
    if n < q {
      MulMonotone(n, q - 1, pageSize);
    } else if n > q {
      MulMonotone(q, n - 1, pageSize);
    }
  }

  /** `_.range(1, pagesCount + 1)`: the page numbers `1, 2, …, pagesCount`. */
  function Pages(pagesCount: nat): (pages: seq<int>)
    ensures |pages| == pagesCount
    ensures forall i :: 0 <= i < |pages| ==> pages[i] == i + 1
  {
    if pagesCount == 0 then [] else Pages(pagesCount - 1) + [pagesCount]
  }

  /** The page list is strictly increasing and holds exactly the numbers `1..pagesCount`. */
  lemma PagesAreTheRange(pagesCount: nat)
    ensures forall i, j :: 0 <= i < j < |Pages(pagesCount)| ==> Pages(pagesCount)[i] < Pages(pagesCount)[j]
    ensures forall p :: p in Pages(pagesCount) <==> 1 <= p <= pagesCount
  {
    var pages := Pages(pagesCount);
    forall p | 1 <= p <= pagesCount ensures p in pages {
      assert pages[p - 1] == p;
    }
  }

  /** `activateCurrentPage`: the class of a page link, or `undefined` for a page that is not the current one. */
  function ActivateCurrentPage(page: int, currentPage: int): (classes: Option<string>)
    ensures classes.Some? <==> page == currentPage
    ensures classes.Some? ==> classes.value == "page-item active"
  {
    var classes := "page-item";
    if page == currentPage then Some(classes + " active") else None
  }

  /** One `<li>` of the pager: the page it shows, its class, and the page its click hands to `onPageClick`. */
  datatype PageLink = PageLink(page: int, className: Option<string>, clickPage: int)

  predicate IsActive(link: PageLink) {
    link.className.Some?
  }

  /** The `<li>` for `page`: it shows `page`, is marked active when `page` is current, and its click reports `page`. */
  function Link(page: int, currentPage: int): (link: PageLink)
    ensures link.page == page && link.clickPage == page
    ensures IsActive(link) <==> page == currentPage
  {
    PageLink(page, ActivateCurrentPage(page, currentPage), page)
  }

  /**
   * The component: `None` where it renders nothing (`return null`),
   * otherwise the links, one per page in order.
   */
  function Render(itemsCount: nat, pageSize: nat, currentPage: int): (pager: Option<seq<PageLink>>)
    requires pageSize > 0
    ensures pager.None? <==> PagesCount(itemsCount, pageSize) == 1
    ensures pager.Some? ==> |pager.value| == PagesCount(itemsCount, pageSize)
    ensures pager.Some? ==> forall i :: 0 <= i < |pager.value| ==>
              pager.value[i].page == i + 1 && pager.value[i].clickPage == i + 1 &&
              (IsActive(pager.value[i]) <==> i + 1 == currentPage)
  {
    var pagesCount := PagesCount(itemsCount, pageSize);
    if pagesCount == 1 then None
    else
      var pages := Pages(pagesCount);
      Some(seq(|pages|, i requires 0 <= i < |pages| => Link(pages[i], currentPage)))
  }

  /** The pager disappears exactly when at least one and at most `pageSize` items exist. */
  lemma HiddenIffOnePage(itemsCount: nat, pageSize: nat, currentPage: int)
    requires pageSize > 0
    ensures Render(itemsCount, pageSize, currentPage).None? <==> 0 < itemsCount <= pageSize
  {
    if 0 < itemsCount <= pageSize {
      assert IsCeiling(1, itemsCount, pageSize);
      PagesCountIsUnique(itemsCount, pageSize, 1);
    }
  }

  /** No items: the pager is shown, with no links (zero pages are not special-cased). */
  lemma NoItemsNoLinks(pageSize: nat, currentPage: int)
    requires pageSize > 0
    ensures Render(0, pageSize, currentPage) == Some([])
  {
  }

  /** At most one link is active, and one is exactly when the current page is among `1..pagesCount`. */
  lemma {:induction false} ActiveLink(itemsCount: nat, pageSize: nat, currentPage: int)
    requires pageSize > 0
    requires Render(itemsCount, pageSize, currentPage).Some?
    ensures var links := Render(itemsCount, pageSize, currentPage).value;
            forall i, j :: 0 <= i < |links| && 0 <= j < |links| && IsActive(links[i]) && IsActive(links[j]) ==> i == j
    ensures var links := Render(itemsCount, pageSize, currentPage).value;
            (exists i :: 0 <= i < |links| && IsActive(links[i])) <==> 1 <= currentPage <= PagesCount(itemsCount, pageSize)
  {
    var links := Render(itemsCount, pageSize, currentPage).value;
    if 1 <= currentPage <= PagesCount(itemsCount, pageSize) {
      assert IsActive(links[currentPage - 1]);
    }
  }

  /** Clicking the link at position `k` reports its own page, which then becomes the one active link. */
  lemma ClickedPageBecomesActive(itemsCount: nat, pageSize: nat, currentPage: int, k: nat)
    requires pageSize > 0
    requires Render(itemsCount, pageSize, currentPage).Some?
    requires k < |Render(itemsCount, pageSize, currentPage).value|
    ensures var clicked := Render(itemsCount, pageSize, currentPage).value[k];
            clicked.clickPage == clicked.page &&
            var after := Render(itemsCount, pageSize, clicked.clickPage);
            after.Some? && forall j :: 0 <= j < |after.value| ==> (IsActive(after.value[j]) <==> j == k)
  {
  }
}
