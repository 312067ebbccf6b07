/**
 * Page arithmetic shared by both editors: the page count
 * `Math.ceil(total / perPage)`, the page slice
 * `list.slice((page - 1) * perPage, (page - 1) * perPage + perPage)`
 * and the main editor's window of page buttons.
 */
module Paging {
  import opened Collections

  /** `Math.ceil(total / perPage)` */
  function TotalPages(total: nat, perPage: nat): (pages: nat)
    requires perPage >= 1
    ensures pages == 0 <==> total == 0
    ensures pages <= total
  {
    (total + perPage - 1) / perPage
  }

  /** The page count is the least number of pages of `perPage` items that holds every item. */
  lemma TotalPagesBounds(total: nat, perPage: nat)
    requires perPage >= 1
    ensures var pages := TotalPages(total, perPage);
      total <= pages * perPage && (pages == 0 || (pages - 1) * perPage < total)
  {
  }

  /** `Array.prototype.slice(start, end)` with non-negative bounds: both are clamped to the length. */
  function Slice<T>(s: seq<T>, start: nat, end: nat): (r: seq<T>)
    ensures start <= end <= |s| ==> r == s[start..end]
    ensures |s| <= start ==> r == []
    ensures |r| <= if end >= start then end - start else 0
  {
    var lo := if start <= |s| then start else |s|;
    var hi := if end <= |s| then end else |s|;
    if lo <= hi then s[lo..hi] else []
  }

  /** The items shown on page `page` (numbered from 1). */
  function PageOf<T>(s: seq<T>, page: nat, perPage: nat): (r: seq<T>)
    requires page >= 1 && perPage >= 1
    ensures |r| == PageLength(|s|, page, perPage) && |r| <= perPage
  {
    Slice(s, (page - 1) * perPage, (page - 1) * perPage + perPage)
  }

  /** How many of `total` items page `page` holds: `perPage`, what is left after the earlier pages, or none. */
  function PageLength(total: nat, page: nat, perPage: nat): nat
    requires page >= 1
  {
    var start := (page - 1) * perPage;
    if start >= total then 0 else if total - start < perPage then total - start else perPage
  }

  /** A page of positions below `bound` holds only positions below `bound`. */
  lemma PageOfBounded(s: seq<nat>, page: nat, perPage: nat, bound: nat)
    requires page >= 1 && perPage >= 1
    requires forall t :: 0 <= t < |s| ==> s[t] < bound
    ensures forall t :: 0 <= t < |PageOf(s, page, perPage)| ==> PageOf(s, page, perPage)[t] < bound
  {
    PageOfIndex(s, page, perPage);
  }

  /** Every page the page count admits holds at least one item, and all but the last are full. */
  lemma PageInRangeNonEmpty<T>(s: seq<T>, page: nat, perPage: nat)
    requires perPage >= 1 && 1 <= page <= TotalPages(|s|, perPage)
    ensures PageOf(s, page, perPage) != []
    ensures page < TotalPages(|s|, perPage) ==> |PageOf(s, page, perPage)| == perPage
  {
    var pages := TotalPages(|s|, perPage);
    TotalPagesBounds(|s|, perPage);
    MulMono(page - 1, pages - 1, perPage);
    if page < pages {
      MulMono(page, pages - 1, perPage);
      MulSucc(page - 1, perPage);
    }
  }

  /** Row `t` of page `page` is item `(page - 1) * perPage + t` of the list. */
  lemma PageOfIndex<T>(s: seq<T>, page: nat, perPage: nat)
    requires page >= 1 && perPage >= 1
    ensures var start := (page - 1) * perPage;
      forall t :: 0 <= t < |PageOf(s, page, perPage)| ==> start + t < |s| && PageOf(s, page, perPage)[t] == s[start + t]
  {
    var start := (page - 1) * perPage;
    if start < |s| {
      var end := if start + perPage <= |s| then start + perPage else |s|;
      assert PageOf(s, page, perPage) == s[start..end];
    } else {
      assert PageOf(s, page, perPage) == [];
    }
  }

  lemma MulMono(a: nat, b: nat, c: nat)
    requires a <= b
    ensures a * c <= b * c
  {
  }

  lemma MulSucc(a: nat, c: nat)
    ensures (a + 1) * c == a * c + c
  {
  }

  /** Item `k` of the list is shown on page `k / perPage + 1`, at row `k % perPage`. */
  lemma ItemOnItsPage<T>(s: seq<T>, k: nat, perPage: nat)
    requires perPage >= 1 && k < |s|
    ensures var page := k / perPage + 1;
      page <= TotalPages(|s|, perPage) &&
      k % perPage < |PageOf(s, page, perPage)| &&
      PageOf(s, page, perPage)[k % perPage] == s[k]
  {
    var page := k / perPage + 1;
    var start := (page - 1) * perPage;
    assert start + k % perPage == k;
    var pages := TotalPages(|s|, perPage);
    TotalPagesBounds(|s|, perPage);
    if page > pages {
      MulMono(pages, page - 1, perPage);
    }
  }

  lemma SliceConcat<T>(s: seq<T>, lo: nat, hi: nat)
    requires lo <= hi
    ensures Slice(s, 0, lo) + Slice(s, lo, hi) == Slice(s, 0, hi)
  {
    if hi <= |s| {
      assert s[0..lo] + s[lo..hi] == s[0..hi];
    } else if lo <= |s| {
      assert s[0..lo] + s[lo..|s|] == s[0..|s|];
    }
  }

  /** Laying the first `upTo` pages end to end gives the first `upTo * perPage` items. */
  lemma {:induction false} PagesCover<T>(s: seq<T>, perPage: nat, upTo: nat)
    requires perPage >= 1
    ensures Pages(s, perPage, upTo) == Slice(s, 0, upTo * perPage)
  {
    if upTo > 0 {
      PagesCover(s, perPage, upTo - 1);
      var lo := (upTo - 1) * perPage;
      MulSucc(upTo - 1, perPage);
      SliceConcat(s, lo, lo + perPage);
    }
  }

  /** Pages 1 to `upTo`, concatenated. */
  function Pages<T>(s: seq<T>, perPage: nat, upTo: nat): seq<T>
    requires perPage >= 1
  {
    if upTo == 0 then [] else Pages(s, perPage, upTo - 1) + PageOf(s, upTo, perPage)
  }

  /** The pages together show every item exactly once, in order. */
  lemma AllPagesCover<T>(s: seq<T>, perPage: nat)
    requires perPage >= 1
    ensures Pages(s, perPage, TotalPages(|s|, perPage)) == s
  {
    PagesCover(s, perPage, TotalPages(|s|, perPage));
    TotalPagesBounds(|s|, perPage);
  }

  // ---------------------------------------------------------------------
  // Page buttons. Both editors lay out the same five parts: a previous
  // arrow, page 1 with an ellipsis when the window starts later, the window
  // of numbered pages, an ellipsis with the last page when the window ends
  // earlier, and a next arrow. They differ in the window and in whether an
  // arrow with nowhere to go is left out or drawn disabled.

  /** An arrow drawn disabled (`page-item disabled`, `tabindex="-1"`) cannot be clicked. */
  datatype Button = Prev(target: int, enabled: bool) | PageButton(page: int, active: bool) | Ellipsis | Next(target: int, enabled: bool)

  /** The numbered buttons `startPage..endPage`. */
  function Window(first: int, last: int, current: int): (bs: seq<Button>)
    ensures |bs| == if first <= last then last - first + 1 else 0
    ensures forall i :: 0 <= i < |bs| ==> (bs[i] == PageButton(first + i, first + i == current))
    decreases last + 1 - first
  {
    if first > last then [] else [PageButton(first, first == current)] + Window(first + 1, last, current)
  }

  function FirstPart(startPage: int): seq<Button> {
    if startPage > 1 then [PageButton(1, false)] + (if startPage > 2 then [Ellipsis] else []) else []
  }

  function LastPart(endPage: int, totalPages: int): seq<Button> {
    if endPage < totalPages then (if endPage < totalPages - 1 then [Ellipsis] else []) + [PageButton(totalPages, false)] else []
  }

  /** The five parts in order: the arrow part `prev` opens the row and the arrow part `next` closes it. */
  function Layout(prev: seq<Button>, startPage: int, endPage: int, totalPages: int, current: int, next: seq<Button>): seq<Button> {
    prev + FirstPart(startPage) + Window(startPage, endPage, current) + LastPart(endPage, totalPages) + next
  }

  /**
   * `renderPagination` of the main editor: nothing for a single page; otherwise
   * a window of three pages starting one before the current page, and arrows
   * only where there is a page to go to.
   */
  function PaginationButtons(totalItems: nat, current: int, perPage: nat): (r: seq<Button>)
    requires perPage >= 1
    ensures r == [] <==> totalItems <= perPage
  {
    SinglePage(totalItems, perPage);
    ButtonsFor(TotalPages(totalItems, perPage), current)
  }

  /** Everything fits on one page exactly when there are at most `perPage` items. */
  lemma SinglePage(total: nat, perPage: nat)
    requires perPage >= 1
    ensures TotalPages(total, perPage) <= 1 <==> total <= perPage
  {
    var pages := TotalPages(total, perPage);
    TotalPagesBounds(total, perPage);
    if pages >= 2 {
      MulMono(1, pages - 1, perPage);
    }
  }

  function ButtonsFor(totalPages: int, current: int): (r: seq<Button>)
    ensures r == [] <==> totalPages <= 1
  {
    if totalPages <= 1 then []
    else
      var startPage := WindowStart(current);
      var endPage := WindowEnd(startPage, totalPages);
      Layout(PrevPart(current), startPage, endPage, totalPages, current, NextPart(current, totalPages))
  }

  /** `Math.max(1, currentPage - Math.floor(3 / 2))` */
  function WindowStart(current: int): int {
    if current - 1 > 1 then current - 1 else 1
  }

  /** `Math.min(totalPages, startPage + 3 - 1)` */
  function WindowEnd(startPage: int, totalPages: int): int {
    if startPage + 2 < totalPages then startPage + 2 else totalPages
  }

  function PrevPart(current: int): seq<Button> {
    if current > 1 then [Prev(current - 1, true)] else []
  }

  function NextPart(current: int, totalPages: int): seq<Button> {
    if current < totalPages then [Next(current + 1, true)] else []
  }

  /**
   * `renderPagination` of the JSON editor: nothing for a single page; otherwise
   * a window of up to two pages on each side of the current one, and both
   * arrows always, disabled on the first and on the last page.
   */
  function EditorButtonsFor(totalPages: int, current: int): (r: seq<Button>)
    ensures r == [] <==> totalPages <= 1
  {
    if totalPages <= 1 then []
    else
      var startPage := if current - 2 > 1 then current - 2 else 1;
      var endPage := if current + 2 < totalPages then current + 2 else totalPages;
      Layout([Prev(current - 1, current != 1)], startPage, endPage, totalPages, current,
             [Next(current + 1, current != totalPages)])
  }

  /**
   * The page a button names as its destination, if any: an enabled arrow or
   * a numbered button. The current page's button counts as leading to its
   * own page, although only the JSON editor gives it a click handler.
   */
  function Target(b: Button): seq<int> {
    match b
    case Prev(t, enabled) => if enabled then [t] else []
    case PageButton(p, _) => [p]
    case Ellipsis => []
    case Next(t, enabled) => if enabled then [t] else []
  }

  /** The pages the first `n` buttons lead to, in order. */
  function TargetsUpTo(bs: seq<Button>, n: nat): seq<int>
    requires n <= |bs|
  {
    if n == 0 then [] else TargetsUpTo(bs, n - 1) + Target(bs[n - 1])
  }

  function Targets(bs: seq<Button>): seq<int> {
    TargetsUpTo(bs, |bs|)
  }

  /** A page is a target exactly when one of the buttons leads to it. */
  lemma {:induction false} TargetsUpToMembers(bs: seq<Button>, n: nat)
    requires n <= |bs|
    ensures forall t :: t in TargetsUpTo(bs, n) <==> exists i :: 0 <= i < n && t in Target(bs[i])
  {
    if n > 0 {
      TargetsUpToMembers(bs, n - 1);
    }
  }

  lemma TargetsSingle(b: Button)
    ensures Targets([b]) == Target(b)
  {
    assert TargetsUpTo([b], 0) == [];
  }

  /** The first `n` buttons of `a + b` lead where the first `n` of `a` do. */
  lemma {:induction false} TargetsUpToPrefix(a: seq<Button>, b: seq<Button>, n: nat)
    requires n <= |a|
    ensures TargetsUpTo(a + b, n) == TargetsUpTo(a, n)
  {
    if n > 0 {
      TargetsUpToPrefix(a, b, n - 1);
      assert (a + b)[n - 1] == a[n - 1];
    }
  }

  lemma {:induction false} TargetsUpToAppend(a: seq<Button>, b: seq<Button>, k: nat)
    requires k <= |b|
    ensures TargetsUpTo(a + b, |a| + k) == Targets(a) + TargetsUpTo(b, k)
  {
    if k == 0 {
      TargetsUpToPrefix(a, b, |a|);
    } else {
      TargetsUpToAppend(a, b, k - 1);
      assert (a + b)[|a| + k - 1] == b[k - 1];
      AppendAssoc(Targets(a), TargetsUpTo(b, k - 1), Target(b[k - 1]));
    }
  }

  lemma TargetsAppend(a: seq<Button>, b: seq<Button>)
    ensures Targets(a + b) == Targets(a) + Targets(b)
  {
    TargetsUpToAppend(a, b, |b|);
  }

  lemma WindowTargets(first: int, last: int, current: int)
    ensures forall t :: t in Targets(Window(first, last, current)) ==> (first <= t <= last)
  {
    var w := Window(first, last, current);
    TargetsUpToMembers(w, |w|);
  }

  lemma WindowHasCurrent(first: int, last: int, current: int)
    requires first <= current <= last
    ensures PageButton(current, true) in Window(first, last, current)
  {
    assert Window(first, last, current)[current - first] == PageButton(current, true);
  }

  lemma EdgeTargets(startPage: int, endPage: int, totalPages: int)
    ensures Targets(FirstPart(startPage)) == (if startPage > 1 then [1] else [])
    ensures Targets(LastPart(endPage, totalPages)) == (if endPage < totalPages then [totalPages] else [])
  {
    TargetsSingle(Ellipsis);
    if startPage > 1 {
      var e := if startPage > 2 then [Ellipsis] else [];
      TargetsAppend([PageButton(1, false)], e);
      TargetsSingle(PageButton(1, false));
      assert [1] + Targets(e) == [1];
    }
    if endPage < totalPages {
      var e := if endPage < totalPages - 1 then [Ellipsis] else [];
      TargetsAppend(e, [PageButton(totalPages, false)]);
      TargetsSingle(PageButton(totalPages, false));
      assert Targets(e) + [totalPages] == [totalPages];
    }
  }

  /** The targets of a layout, part by part. */
  lemma LayoutTargets(prev: seq<Button>, startPage: int, endPage: int, totalPages: int, current: int, next: seq<Button>)
    ensures Targets(Layout(prev, startPage, endPage, totalPages, current, next)) ==
      Targets(prev) + (if startPage > 1 then [1] else []) + Targets(Window(startPage, endPage, current)) +
      (if endPage < totalPages then [totalPages] else []) + Targets(next)
  {
    var first := FirstPart(startPage);
    var w := Window(startPage, endPage, current);
    var last := LastPart(endPage, totalPages);
    TargetsAppend(prev + first + w + last, next);
    TargetsAppend(prev + first + w, last);
    TargetsAppend(prev + first, w);
    TargetsAppend(prev, first);
    EdgeTargets(startPage, endPage, totalPages);
  }

  /**
   * A layout whose window lies within the pages and contains the current page
   * marks that page active, offers the first and the last page, and, when its
   * arrows do, only pages that exist.
   */
  lemma LayoutSound(prev: seq<Button>, startPage: int, endPage: int, totalPages: int, current: int, next: seq<Button>)
    requires 1 <= startPage <= current <= endPage <= totalPages
    ensures var bs := Layout(prev, startPage, endPage, totalPages, current, next);
      PageButton(current, true) in bs && 1 in Targets(bs) && totalPages in Targets(bs) &&
      ((forall t :: t in Targets(prev) + Targets(next) ==> 1 <= t <= totalPages) ==>
         forall t :: t in Targets(bs) ==> 1 <= t <= totalPages)
  {
    LayoutShowsCurrent(prev, startPage, endPage, totalPages, current, next);
    LayoutReachesEnds(prev, startPage, endPage, totalPages, current, next);
    if forall t :: t in Targets(prev) + Targets(next) ==> 1 <= t <= totalPages {
      LayoutInRange(prev, startPage, endPage, totalPages, current, next);
    }
  }

  lemma LayoutShowsCurrent(prev: seq<Button>, startPage: int, endPage: int, totalPages: int, current: int, next: seq<Button>)
    requires startPage <= current <= endPage
    ensures PageButton(current, true) in Layout(prev, startPage, endPage, totalPages, current, next)
  {
    var w := Window(startPage, endPage, current);
    WindowHasCurrent(startPage, endPage, current);
    var i :| 0 <= i < |w| && w[i] == PageButton(current, true);
    var a := prev + FirstPart(startPage);
    var bs := Layout(prev, startPage, endPage, totalPages, current, next);
    assert bs == a + w + (LastPart(endPage, totalPages) + next);
    assert bs[|a| + i] == w[i];
  }

  lemma LayoutReachesEnds(prev: seq<Button>, startPage: int, endPage: int, totalPages: int, current: int, next: seq<Button>)
    requires 1 <= startPage <= endPage <= totalPages
    ensures 1 in Targets(Layout(prev, startPage, endPage, totalPages, current, next))
    ensures totalPages in Targets(Layout(prev, startPage, endPage, totalPages, current, next))
  {
    var bs := Layout(prev, startPage, endPage, totalPages, current, next);
    var f, w, l := FirstPart(startPage), Window(startPage, endPage, current), LastPart(endPage, totalPages);
    TargetsUpToMembers(bs, |bs|);
    var a := |prev| + |f|;
    var z := |prev| + |f| + |w| + |l| - 1;
    if startPage > 1 {
      assert bs[|prev|] == f[0] == PageButton(1, false);
      assert 1 in Target(bs[|prev|]);
    } else {
      assert bs[a] == w[0] == PageButton(1, 1 == current);
      assert 1 in Target(bs[a]);
    }
    if endPage < totalPages {
      assert bs[z] == l[|l| - 1] == PageButton(totalPages, false);
      assert totalPages in Target(bs[z]);
    } else {
      assert bs[z] == w[|w| - 1] == PageButton(totalPages, totalPages == current);
      assert totalPages in Target(bs[z]);
    }
  }

  lemma LayoutInRange(prev: seq<Button>, startPage: int, endPage: int, totalPages: int, current: int, next: seq<Button>)
    requires 1 <= startPage <= endPage <= totalPages
    requires forall t :: t in Targets(prev) + Targets(next) ==> 1 <= t <= totalPages
    ensures forall t :: t in Targets(Layout(prev, startPage, endPage, totalPages, current, next)) ==> 1 <= t <= totalPages
  {
    LayoutTargets(prev, startPage, endPage, totalPages, current, next);
    WindowTargets(startPage, endPage, current);
    var ts := Targets(Layout(prev, startPage, endPage, totalPages, current, next));
    forall t | t in ts ensures 1 <= t <= totalPages {
      assert t in Targets(prev) || t in Targets(next) || t == 1 || t == totalPages ||
             t in Targets(Window(startPage, endPage, current));
      if t in Targets(prev) || t in Targets(next) {
        assert t in Targets(prev) + Targets(next);
      }

    }
  }

  /** Whatever its arrows lead to, the layout offers too. */
  lemma ArrowTargets(prev: seq<Button>, startPage: int, endPage: int, totalPages: int, current: int, next: seq<Button>)
    ensures var ts := Targets(Layout(prev, startPage, endPage, totalPages, current, next));
      forall t :: t in Targets(prev) + Targets(next) ==> t in ts
  {
    LayoutTargets(prev, startPage, endPage, totalPages, current, next);
  }

  /**
   * The main editor's buttons lead only to existing pages; with more than one
   * page they mark the current page, reach the first and the last page, and
   * the neighbouring pages whenever they exist.
   */
  lemma ButtonsSound(totalPages: int, current: int)
    requires 1 <= current <= totalPages
    ensures var bs := ButtonsFor(totalPages, current);
      (forall t :: t in Targets(bs) ==> 1 <= t <= totalPages) &&
      (totalPages > 1 ==> PageButton(current, true) in bs && 1 in Targets(bs) && totalPages in Targets(bs)) &&
      (current > 1 ==> current - 1 in Targets(bs)) &&
      (current < totalPages ==> current + 1 in Targets(bs))
  {
    if totalPages > 1 {
      ButtonsInRange(totalPages, current);
      ButtonsMarks(totalPages, current);
      ButtonsNeighbours(totalPages, current);
    }
  }

  lemma ButtonsInRange(totalPages: int, current: int)
    requires 1 <= current <= totalPages && totalPages > 1
    ensures forall t :: t in Targets(ButtonsFor(totalPages, current)) ==> 1 <= t <= totalPages
  {
    var startPage := WindowStart(current);
    var prev, next := PrevPart(current), NextPart(current, totalPages);
    if current > 1 {
      TargetsSingle(prev[0]);
    }
    if current < totalPages {
      TargetsSingle(next[0]);
    }
    LayoutInRange(prev, startPage, WindowEnd(startPage, totalPages), totalPages, current, next);
  }

  lemma ButtonsMarks(totalPages: int, current: int)
    requires 1 <= current <= totalPages && totalPages > 1
    ensures var bs := ButtonsFor(totalPages, current);
      PageButton(current, true) in bs && 1 in Targets(bs) && totalPages in Targets(bs)
  {
    var startPage := WindowStart(current);
    var prev, next := PrevPart(current), NextPart(current, totalPages);
    LayoutShowsCurrent(prev, startPage, WindowEnd(startPage, totalPages), totalPages, current, next);
    LayoutReachesEnds(prev, startPage, WindowEnd(startPage, totalPages), totalPages, current, next);
  }

  lemma ButtonsNeighbours(totalPages: int, current: int)
    requires 1 <= current <= totalPages && totalPages > 1
    ensures var ts := Targets(ButtonsFor(totalPages, current));
      (current > 1 ==> current - 1 in ts) && (current < totalPages ==> current + 1 in ts)
  {
    var startPage := WindowStart(current);
    var endPage := WindowEnd(startPage, totalPages);
    var prev, next := PrevPart(current), NextPart(current, totalPages);
    var front := prev + FirstPart(startPage) + Window(startPage, endPage, current) + LastPart(endPage, totalPages);
    var bs := front + next;
    assert ButtonsFor(totalPages, current) == bs;
    TargetsUpToMembers(bs, |bs|);
    if current > 1 {
      assert bs[0] == Prev(current - 1, true);
      assert current - 1 in Target(bs[0]);
    }
    if current < totalPages {
      assert bs[|front|] == Next(current + 1, true);
      assert current + 1 in Target(bs[|front|]);
    }
  }

  /**
   * The JSON editor's clickable buttons lead only to existing pages; it marks
   * the current page and reaches the first and the last page.
   */
  lemma EditorButtonsSound(totalPages: int, current: int)
    requires 1 <= current <= totalPages && totalPages > 1
    ensures var bs := EditorButtonsFor(totalPages, current);
      (forall t :: t in Targets(bs) ==> 1 <= t <= totalPages) &&
      PageButton(current, true) in bs && 1 in Targets(bs) && totalPages in Targets(bs)
  {
    EditorButtonsInRange(totalPages, current);
    EditorButtonsMarks(totalPages, current);
  }

  lemma EditorButtonsInRange(totalPages: int, current: int)
    requires 1 <= current <= totalPages && totalPages > 1
    ensures forall t :: t in Targets(EditorButtonsFor(totalPages, current)) ==> 1 <= t <= totalPages
  {
    var startPage := if current - 2 > 1 then current - 2 else 1;
    var endPage := if current + 2 < totalPages then current + 2 else totalPages;
    var prev := [Prev(current - 1, current != 1)];
    var next := [Next(current + 1, current != totalPages)];
    TargetsSingle(prev[0]);
    TargetsSingle(next[0]);
    LayoutInRange(prev, startPage, endPage, totalPages, current, next);
  }

  lemma EditorButtonsMarks(totalPages: int, current: int)
    requires 1 <= current <= totalPages && totalPages > 1
    ensures var bs := EditorButtonsFor(totalPages, current);
      PageButton(current, true) in bs && 1 in Targets(bs) && totalPages in Targets(bs)
  {
    var startPage := if current - 2 > 1 then current - 2 else 1;
    var endPage := if current + 2 < totalPages then current + 2 else totalPages;
    var prev := [Prev(current - 1, current != 1)];
    var next := [Next(current + 1, current != totalPages)];
    LayoutShowsCurrent(prev, startPage, endPage, totalPages, current, next);
    LayoutReachesEnds(prev, startPage, endPage, totalPages, current, next);
  }

  /**
   * The JSON editor's arrows reach the neighbours that exist; its disabled
   * arrows point at page 0 and one past the last page, which `goToPage` ignores.
   */
  lemma EditorArrows(totalPages: int, current: int)
    requires 1 <= current <= totalPages && totalPages > 1
    ensures var bs := EditorButtonsFor(totalPages, current);
      (current > 1 ==> current - 1 in Targets(bs)) &&
      (current < totalPages ==> current + 1 in Targets(bs)) &&
      bs[0] == Prev(current - 1, current != 1) && bs[|bs| - 1] == Next(current + 1, current != totalPages)
  {
    var startPage := if current - 2 > 1 then current - 2 else 1;
    var endPage := if current + 2 < totalPages then current + 2 else totalPages;
    var prev := [Prev(current - 1, current != 1)];
    var next := [Next(current + 1, current != totalPages)];
    EditorNeighbours(totalPages, current);
    var front := prev + FirstPart(startPage) + Window(startPage, endPage, current) + LastPart(endPage, totalPages);
    assert EditorButtonsFor(totalPages, current) == front + next;
  }

  lemma EditorNeighbours(totalPages: int, current: int)
    requires 1 <= current <= totalPages && totalPages > 1
    ensures var ts := Targets(EditorButtonsFor(totalPages, current));
      (current > 1 ==> current - 1 in ts) && (current < totalPages ==> current + 1 in ts)
  {
    var startPage := if current - 2 > 1 then current - 2 else 1;
    var endPage := if current + 2 < totalPages then current + 2 else totalPages;
    var prev := [Prev(current - 1, current != 1)];
    var next := [Next(current + 1, current != totalPages)];
    TargetsSingle(prev[0]);
    TargetsSingle(next[0]);
    ArrowTargets(prev, startPage, endPage, totalPages, current, next);
  }
}
