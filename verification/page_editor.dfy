/** Integer arithmetic of the page editor's markup (tagger/render-page-editor.ts):
    the set of page numbers offered by the page jumper, and the frame drawn
    around a group of bounding boxes. The markup itself is not modelled. */
module RenderPageEditor {
  import opened Wrappers
  import Lists

  // ---------------------------------------------------------------------------
  // Page jumper (tagger/render-page-editor.ts:164-180)
  // ---------------------------------------------------------------------------

  /** `range(a, b)`: the integers `a, a+1, ..., b-1`. */
  function Range(a: int, b: int): (r: seq<int>)
    ensures |r| == if a <= b then b - a else 0
    ensures forall i :: 0 <= i < |r| ==> r[i] == a + i
    decreases b - a
  {
    if a >= b then [] else [a] + Range(a + 1, b)
  }

  /** `xs.map(v => v * factor + offset)`. */
  function Affine(xs: seq<int>, factor: int, offset: int): (r: seq<int>)
    ensures |r| == |xs|
    ensures forall i :: 0 <= i < |xs| ==> r[i] == xs[i] * factor + offset
  {
    seq(|xs|, i requires 0 <= i < |xs| => xs[i] * factor + offset)
  }

  /** The candidate page numbers, in the order the source lists them.
      `Math.floor(n / d)` for a positive `d` is Dafny's `n / d`. */
  function JumpTargets(current: int, total: int): seq<int> {
    [1] + Hundreds(total) + Tens(current) + Units(current) + Around(current, total)
  }

  function Hundreds(total: int): seq<int> {
    Affine(Range(1, total / 100 + 1), 100, 0)
  }

  function Tens(current: int): seq<int> {
    Affine(Range(0, 10), 10, current / 100 * 100)
  }

  function Units(current: int): seq<int> {
    Affine(Range(0, 10), 1, current / 10 * 10)
  }

  function Around(current: int, total: int): seq<int> {
    [current - 1, current - 2, current + 1, current + 2, total]
  }

  function InRange(total: int): int -> bool {
    p => 1 <= p <= total
  }

  const Identity: int -> int := x => x

  /** The page numbers `renderPageJumper` links to: the candidates, each once,
      those in `[1, total]`, in ascending order. */
  function PageJumper(current: int, total: int): (pages: seq<int>)
    ensures forall i, j :: 0 <= i < j < |pages| ==> pages[i] < pages[j]
    ensures forall p :: p in pages <==> p in JumpTargets(current, total) && 1 <= p <= total
  {
    SelectPages(JumpTargets(current, total), total)
  }

  /** `Array.from(new Set(targets)).filter(inRange).toSorted((a, b) => a - b)`. */
  function SelectPages(targets: seq<int>, total: int): (pages: seq<int>)
    ensures forall i, j :: 0 <= i < j < |pages| ==> pages[i] < pages[j]
    ensures forall p :: p in pages <==> p in targets && 1 <= p <= total
  {
    var unique := Lists.Dedup(targets);
    var kept := Lists.Filter(unique, InRange(total));
    assert Lists.Distinct(unique);
    Lists.FilterDistinct(unique, InRange(total));
    SortAscending(kept)
  }

  /** `toSorted((a, b) => a - b)` on distinct numbers: strictly ascending,
      same elements. */
  function SortAscending(s: seq<int>): (r: seq<int>)
    requires Lists.Distinct(s)
    ensures forall i, j :: 0 <= i < j < |r| ==> r[i] < r[j]
    ensures forall p :: p in r <==> p in s
  {
    var r := Lists.SortBy(s, Identity);
    Lists.SortKeepsDistinct(s, Identity);
    SortedDistinctAscending(r);
    SameMembers(r, s);
    r
  }

  /** A sorted list of distinct numbers is strictly ascending. */
  lemma SortedDistinctAscending(r: seq<int>)
    requires Lists.SortedBy(r, Identity) && Lists.Distinct(r)
    ensures forall i, j :: 0 <= i < j < |r| ==> r[i] < r[j]
  {
    forall i, j | 0 <= i < j < |r|
      ensures r[i] < r[j]
    {
      assert Identity(r[i]) <= Identity(r[j]);
    }
  }

  /** Lists with the same multiset have the same members. */
  lemma SameMembers(r: seq<int>, s: seq<int>)
    requires multiset(r) == multiset(s)
    ensures forall p :: p in r <==> p in s
  {
    forall p
      ensures p in r <==> p in s
    {
      assert p in r <==> p in multiset(r);
      assert p in s <==> p in multiset(s);
    }
  }

  /** The targets include the first and last pages, every hundredth page, and
      the current page with two neighbours on each side. */
  lemma TargetsInclude(current: int, total: int)
    ensures var targets := JumpTargets(current, total);
      && 1 in targets && total in targets
      && (forall p :: current - 2 <= p <= current + 2 ==> p in targets)
      && (forall k :: 1 <= k <= total / 100 ==> k * 100 in targets)
  {
    CurrentInUnits(current);
    HundredsIn(total);
    AroundIn(current, total);
  }

  /** The current page is among the ten pages of its own decade. */
  lemma CurrentInUnits(current: int)
    ensures current in Units(current)
  {
    assert Units(current)[current % 10] == current % 10 * 1 + current / 10 * 10;
  }

  /** Every hundredth page up to `total` is a hundreds target. */
  lemma HundredsIn(total: int)
    ensures forall k :: 1 <= k <= total / 100 ==> k * 100 in Hundreds(total)
  {
    forall k | 1 <= k <= total / 100
      ensures k * 100 in Hundreds(total)
    {
      assert Hundreds(total)[k - 1] == k * 100;
    }
  }

  /** The two neighbours on each side of the current page, and the last page. */
  lemma AroundIn(current: int, total: int)
    ensures total in Around(current, total)
    ensures forall p :: current - 2 <= p <= current + 2 && p != current ==> p in Around(current, total)
  {
    var around := Around(current, total);
    assert around[4] == total;
    forall p | current - 2 <= p <= current + 2 && p != current
      ensures p in around
    {
      if p == current - 1 { assert around[0] == p; }
      else if p == current - 2 { assert around[1] == p; }
      else if p == current + 1 { assert around[2] == p; }
      else { assert around[3] == p; }
    }
  }

  /** The jumper offers the first and last pages, every hundredth page, and
      the current page with up to two neighbours on each side, whenever they
      exist. */
  lemma PageJumperContains(current: int, total: int)
    ensures var pages := PageJumper(current, total);
      && (total >= 1 ==> 1 in pages && total in pages)
      && (forall p :: current - 2 <= p <= current + 2 && 1 <= p <= total ==> p in pages)
      && (forall k :: 1 <= k && k * 100 <= total ==> k * 100 in pages)
  {
    TargetsInclude(current, total);
    forall k | 1 <= k && k * 100 <= total
      ensures k <= total / 100
    {
    }
  }

  /** A link of the jumper; `isCurrent` is the class `current-page-jump`. */
  datatype Link = Link(page: int, isCurrent: bool)

  function JumperLinks(current: int, total: int): (links: seq<Link>)
    ensures |links| == |PageJumper(current, total)|
    ensures forall i :: 0 <= i < |links| ==>
      links[i].page == PageJumper(current, total)[i] && (links[i].isCurrent <==> links[i].page == current)
  {
    LinksFor(PageJumper(current, total), current)
  }

  /** One link per page, marked current when it is the current page. */
  function LinksFor(pages: seq<int>, current: int): (links: seq<Link>)
    ensures |links| == |pages|
    ensures forall i :: 0 <= i < |links| ==>
      links[i].page == pages[i] && (links[i].isCurrent <==> pages[i] == current)
  {
    seq(|pages|, i requires 0 <= i < |pages| => Link(pages[i], pages[i] == current))
  }

  /** One link is marked current when the current page exists, and none
      otherwise. */
  lemma OneCurrentLink(current: int, total: int)
    ensures var links := JumperLinks(current, total);
      && ((exists i :: 0 <= i < |links| && links[i].isCurrent) <==> 1 <= current <= total)
      && (forall i, j :: 0 <= i < j < |links| ==> !(links[i].isCurrent && links[j].isCurrent))
  {
    var pages := PageJumper(current, total);
    if 1 <= current <= total {
      PageJumperContains(current, total);
    }
    CurrentLinks(pages, current, JumperLinks(current, total));
  }

  /** Over strictly ascending pages, the links marked current are those of
      the current page, and there is at most one. */
  lemma CurrentLinks(pages: seq<int>, current: int, links: seq<Link>)
    requires forall i, j :: 0 <= i < j < |pages| ==> pages[i] < pages[j]
    requires |links| == |pages|
    requires forall i :: 0 <= i < |links| ==>
      links[i].page == pages[i] && (links[i].isCurrent <==> pages[i] == current)
    ensures (exists i :: 0 <= i < |links| && links[i].isCurrent) <==> current in pages
    ensures forall i, j :: 0 <= i < j < |links| ==> !(links[i].isCurrent && links[j].isCurrent)
  {
    if current in pages {
      var i :| 0 <= i < |pages| && pages[i] == current;
      assert links[i].isCurrent;
    }
  }

  // ---------------------------------------------------------------------------
  // Group frames (tagger/render-page-editor.ts:129-148, 335-395)
  // ---------------------------------------------------------------------------

  /** A bounding box on a scanned page. */
  datatype Box = Box(pageId: int, x: int, y: int, w: int, h: int)

  datatype Page = Page(width: int, height: int)

  /** The rectangle `[x, right] x [y, bottom]` of a group frame. */
  datatype Frame = Frame(x: int, y: int, right: int, bottom: int)

  datatype RenderError = EmptyGroup | MultiplePages | PageNotFound(pageId: int)

  const LeftOf: Box -> int := (b: Box) => b.x
  const TopOf: Box -> int := (b: Box) => b.y
  const RightOf: Box -> int := (b: Box) => b.x + b.w
  const BottomOf: Box -> int := (b: Box) => b.y + b.h

  /** `Math.max(Math.min(...boxes.map(edge)) - margin, 0)`: the value
      `margin` below the lowest edge, but not below 0. */
  function LowEdge(boxes: seq<Box>, edge: Box -> int, margin: int): (r: int)
    requires |boxes| > 0
    ensures r >= 0 && exists i :: 0 <= i < |boxes| && r >= edge(boxes[i]) - margin
    ensures r == 0 || forall i :: 0 <= i < |boxes| ==> r <= edge(boxes[i]) - margin
  {
    var m := Lists.MinOf(boxes, edge) - margin;
    if m < 0 then 0 else m
  }

  /** `Math.min(Math.max(...boxes.map(edge)) + margin, limit)`: the value
      `margin` beyond the highest edge, but not beyond `limit`. */
  function HighEdge(boxes: seq<Box>, edge: Box -> int, margin: int, limit: int): (r: int)
    requires |boxes| > 0
    ensures r <= limit && exists i :: 0 <= i < |boxes| && r <= edge(boxes[i]) + margin
    ensures r == limit || forall i :: 0 <= i < |boxes| ==> r >= edge(boxes[i]) + margin
  {
    var m := Lists.MaxOf(boxes, edge) + margin;
    if m > limit then limit else m
  }

  /** The frame around `boxes` with `margin` to spare, clipped to the page. */
  function GroupFrame(boxes: seq<Box>, margin: int, page: Page): (f: Frame)
    requires |boxes| > 0
    ensures f.x >= 0 && f.y >= 0 && f.right <= page.width && f.bottom <= page.height
  {
    Frame(LowEdge(boxes, LeftOf, margin), LowEdge(boxes, TopOf, margin),
          HighEdge(boxes, RightOf, margin, page.width), HighEdge(boxes, BottomOf, margin, page.height))
  }

  predicate WithinPage(b: Box, page: Page) {
    0 <= b.x && b.x + b.w <= page.width && 0 <= b.y && b.y + b.h <= page.height
  }

  /** For boxes lying on the page, the frame encloses every box. */
  lemma FrameEnclosesBoxes(boxes: seq<Box>, margin: int, page: Page)
    requires |boxes| > 0 && margin >= 0
    requires forall i :: 0 <= i < |boxes| ==> WithinPage(boxes[i], page)
    ensures var f := GroupFrame(boxes, margin, page);
      forall i :: 0 <= i < |boxes| ==>
        f.x <= boxes[i].x && boxes[i].x + boxes[i].w <= f.right
        && f.y <= boxes[i].y && boxes[i].y + boxes[i].h <= f.bottom
  {
    var f := GroupFrame(boxes, margin, page);
    forall i | 0 <= i < |boxes|
      ensures f.x <= boxes[i].x && boxes[i].x + boxes[i].w <= f.right
      ensures f.y <= boxes[i].y && boxes[i].y + boxes[i].h <= f.bottom
    {
      assert LeftOf(boxes[i]) == boxes[i].x && TopOf(boxes[i]) == boxes[i].y;
      assert RightOf(boxes[i]) == boxes[i].x + boxes[i].w && BottomOf(boxes[i]) == boxes[i].y + boxes[i].h;
    }
  }

  /** `renderGroup`'s margin. */
  const GroupMargin := 10

  /** The frame of `renderGroup`; an empty group is an error. */
  function RenderGroup(page: Page, boxes: seq<Box>): (r: Result<Frame, RenderError>)
    ensures r.Failure? <==> boxes == []
    ensures r.Failure? ==> r.error == EmptyGroup
    ensures r.Success? ==> r.value.x >= 0 && r.value.y >= 0
                           && r.value.right <= page.width && r.value.bottom <= page.height
    ensures r.Success? ==> r.value == GroupFrame(boxes, GroupMargin, page)
  {
    if |boxes| == 0 then Failure(EmptyGroup) else Success(GroupFrame(boxes, GroupMargin, page))
  }

  /** `renderStandaloneGroup`'s margin. */
  const StandaloneMargin := 75

  /** What `renderStandaloneGroup` draws: a placeholder for an empty group,
      or the frame and each box's position relative to the frame's corner. */
  datatype Standalone = Placeholder | Group(frame: Frame, offsets: seq<(int, int)>)

  predicate OnOnePage(boxes: seq<Box>)
    requires |boxes| > 0
  {
    forall i :: 0 <= i < |boxes| ==> boxes[i].pageId == boxes[0].pageId
  }

  /** Each box's position relative to the frame's top-left corner. */
  function Offsets(boxes: seq<Box>, f: Frame): (os: seq<(int, int)>)
    ensures |os| == |boxes|
    ensures forall i :: 0 <= i < |boxes| ==> os[i] == (boxes[i].x - f.x, boxes[i].y - f.y)
  {
    seq(|boxes|, i requires 0 <= i < |boxes| => (boxes[i].x - f.x, boxes[i].y - f.y))
  }

  /** `renderStandaloneGroup`, with the page table standing for the
      `selectScannedPage` query. */
  function RenderStandaloneGroup(boxes: seq<Box>, pages: map<int, Page>): (r: Result<Standalone, RenderError>)
    ensures boxes == [] <==> r == Success(Placeholder)
    ensures boxes != [] && !OnOnePage(boxes) ==> r == Failure(MultiplePages)
    ensures boxes != [] && OnOnePage(boxes) && boxes[0].pageId !in pages ==> r == Failure(PageNotFound(boxes[0].pageId))
    ensures boxes != [] && OnOnePage(boxes) && boxes[0].pageId in pages ==> r.Success? && r.value.Group?
    ensures r.Success? && r.value.Group? ==>
      && boxes != [] && OnOnePage(boxes) && boxes[0].pageId in pages
      && r.value.frame == GroupFrame(boxes, StandaloneMargin, pages[boxes[0].pageId])
      && r.value.offsets == Offsets(boxes, r.value.frame)
  {
    if |boxes| == 0 then Success(Placeholder)
    else if !OnOnePage(boxes) then Failure(MultiplePages)
    else if boxes[0].pageId !in pages then Failure(PageNotFound(boxes[0].pageId))
    else
      var f := GroupFrame(boxes, StandaloneMargin, pages[boxes[0].pageId]);
      Success(Group(f, Offsets(boxes, f)))
  }

  /** Boxes on the page are drawn inside the standalone frame: their offsets
      are non-negative and they end before the frame's width and height. */
  lemma StandaloneBoxesInside(boxes: seq<Box>, pages: map<int, Page>)
    requires RenderStandaloneGroup(boxes, pages).Success?
    requires boxes != [] && boxes[0].pageId in pages
    requires forall i :: 0 <= i < |boxes| ==> WithinPage(boxes[i], pages[boxes[0].pageId])
    ensures var g := RenderStandaloneGroup(boxes, pages).value;
      && g.Group?
      && forall i :: 0 <= i < |boxes| ==>
           0 <= g.offsets[i].0 && g.offsets[i].0 + boxes[i].w <= g.frame.right - g.frame.x
           && 0 <= g.offsets[i].1 && g.offsets[i].1 + boxes[i].h <= g.frame.bottom - g.frame.y
  {
    FrameEnclosesBoxes(boxes, StandaloneMargin, pages[boxes[0].pageId]);
  }
}
