/**
 The memory region object: its size fields and the three initialisations that link it.
 A fresh region is all zero; allocation itself is not part of this model.
 */
module MemRegions {
  import opened Arith
  import opened Ring
  import opened Shuffle
  import opened Wrappers
  import opened Layouts

  const DEFAULT_PAGE: nat := 4096

  class MemRegion {
    const size: nat
    const activeSize: nat
    const pageSize: nat
    const lineSize: nat
    const numAllPages: nat
    const numActivePages: nat
    const numLinesInPage: nat
    const mem: array<Cell>

    ghost predicate Valid() {
      && 0 < pageSize && 0 < lineSize
      && numAllPages == PageCount(size, pageSize)
      && numActivePages == PageCount(activeSize, pageSize)
      && numLinesInPage == LinesInPage(pageSize, lineSize)
      && mem.Length == size
    }

    // The size fields are divided by the given page size before an oversized page is
    // replaced, so a zero page or line size is the caller's error either way.
    constructor (size: nat, activeSize: nat, pageSize: nat, lineSize: nat)
      requires 0 < pageSize && 0 < lineSize
      ensures Valid() && fresh(mem)
      ensures this.size == size && this.activeSize == activeSize && this.lineSize == lineSize
      ensures this.pageSize == if pageSize > activeSize then 4096 else pageSize
      ensures forall o :: 0 <= o < size ==> mem[o] == Null
    {
      var fixed := if pageSize > activeSize then DEFAULT_PAGE else pageSize;
      this.size, this.activeSize, this.pageSize, this.lineSize := size, activeSize, fixed, lineSize;
      numAllPages := PageCount(size, fixed);
      numActivePages := PageCount(activeSize, fixed);
      numLinesInPage := LinesInPage(fixed, lineSize);
      mem := new Cell[size](_ => Null);
    }

    function NumActiveLines(): (n: nat)
      requires Valid()
      ensures n == ActiveLines(activeSize, pageSize, lineSize)
    {
      numActivePages * numLinesInPage
    }

    // *(char**)getOffsetAddr_(o) = getOffsetAddr_(target)
    method StorePointer(o: nat, target: nat)
      requires o + WORD <= mem.Length
      modifies mem
      ensures mem[..] == Store(old(mem[..]), o, target)
    {
      forall k | 0 <= k < mem.Length && Overlap(k, o) {
        mem[k] := if k == o then Ptr(target) else Torn;
      }
    }

    // The same store, seen as the next link of an order.
    method StoreLink(o: nat, target: nat, ghost start: seq<Cell>, ghost order: seq<nat>, ghost done: nat)
      requires |start| == mem.Length && Inside(order, |start|) && done < |order|
      requires mem[..] == Link(start, order, done)
      requires o == order[done] && target == order[Wrap(done + 1, |order|)]
      modifies mem
      ensures mem[..] == Link(start, order, done + 1)
    {
      StorePointer(o, target);
    }

    method StrideInit()
      requires Valid() && LayoutFits(0, size, activeSize, pageSize, lineSize)
      modifies mem
      ensures Inside(StrideOrder(activeSize, lineSize), size)
      ensures var order := StrideOrder(activeSize, lineSize); mem[..] == Link(old(mem[..]), order, |order|)
    {
      ghost var start, order := mem[..], StrideOrder(activeSize, lineSize);
      LayoutPlaced(0, size, activeSize, pageSize, lineSize, _ => 0);
      var i := lineSize;
      ghost var stored := 0;
      while i < activeSize
        invariant stored < |order| && i == stored * lineSize + lineSize
        invariant mem[..] == Link(start, order, stored)
      {
        NextStride(order, stored, i);
        StoreLink(i - lineSize, i, start, order, stored);
        stored := stored + 1;
        i := i + lineSize;
      }
      NextStride(order, stored, i);
      StoreLink(i - lineSize, 0, start, order, stored);
    }

    // The link the stride loop stores at its index i, and the one it ends with.
    lemma NextStride(order: seq<nat>, stored: nat, i: nat)
      requires Valid() && order == StrideOrder(activeSize, lineSize)
      requires stored < |order| && i == stored * lineSize + lineSize
      ensures order[stored] == i - lineSize
      ensures i < activeSize <==> stored + 1 < |order|
      ensures order[Wrap(stored + 1, |order|)] == if i < activeSize then i else 0
      ensures i + lineSize == (stored + 1) * lineSize + lineSize
    {
      assert i == (stored + 1) * lineSize;
      if activeSize > 0 {
        StrideBound(activeSize, lineSize, stored + 1);
      }
    }

    // The inner loop of page_random_init and the jump that follows it: the page at `base`,
    // whose first node is entry `row` of the order.
    method LinkPage(base: nat, nextBase: nat, lines: array<nat>,
                    ghost start: seq<Cell>, ghost order: seq<nat>, ghost row: nat)
      requires 0 < lines.Length && IsPageRow(order, row, lines[..], base, nextBase)
      requires |start| == mem.Length && Inside(order, |start|)
      requires mem[..] == Link(start, order, row)
      modifies mem
      ensures mem[..] == Link(start, order, row + lines.Length)
    {
      ghost var perm := lines[..];
      var j := 0;
      while j < lines.Length - 1
        invariant 0 <= j <= lines.Length - 1 && lines[..] == perm
        invariant mem[..] == Link(start, order, row + j)
      {
        assert order[row + j] == base + perm[j] && order[row + (j + 1)] == base + perm[j + 1];
        StoreLink(base + lines[j], base + lines[j + 1], start, order, row + j);
        j := j + 1;
      }
      assert order[row + j] == base + perm[j];
      StoreLink(base + lines[j], nextBase + lines[0], start, order, row + j);
    }

    // The outer loop of page_random_init.
    method LinkPages(pages: array<nat>, lines: array<nat>)
      requires 0 < lines.Length && pages[..] == Sequential(pages.Length, pageSize)
      requires Inside(PageOrder(lines[..], pages.Length, pageSize), mem.Length)
      modifies mem
      ensures var order := PageOrder(lines[..], pages.Length, pageSize);
              mem[..] == Link(old(mem[..]), order, |order|)
    {
      ghost var start, perm := mem[..], lines[..];
      ghost var order := PageOrder(perm, pages.Length, pageSize);
      var i := 0;
      ghost var row := 0;
      while i < pages.Length
        invariant 0 <= i <= pages.Length && row == i * lines.Length <= |order|
        invariant pages[..] == Sequential(pages.Length, pageSize) && lines[..] == perm
        invariant mem[..] == Link(start, order, row)
      {
        var nextPage := if i == pages.Length - 1 then 0 else i + 1;
        assert pages[i] == pages[..][i] == i * pageSize;
        assert pages[nextPage] == pages[..][nextPage] == nextPage * pageSize;
        RowStep(lines.Length, i, pages.Length, row);
        PageRow(perm, pages.Length, pageSize, i, row);
        LinkPage(pages[i], pages[nextPage], lines, start, order, row);
        i, row := i + 1, row + lines.Length;
      }
    }

    method PageRandomInit(rand: Stream)
      requires Valid() && LayoutFits(1, size, activeSize, pageSize, lineSize)
      requires DrawsFit(1, activeSize, pageSize, lineSize, rand)
      modifies mem
      ensures Inside(PageRandomOrder(activeSize, pageSize, lineSize, rand), size)
      ensures var order := PageRandomOrder(activeSize, pageSize, lineSize, rand);
              mem[..] == Link(old(mem[..]), order, |order|)
    {
      LayoutPlaced(1, size, activeSize, pageSize, lineSize, rand);
      LinesPositive(pageSize, lineSize);
      var pages := new nat[numActivePages];
      var lines := new nat[numLinesInPage];
      RandomizeSequence(pages, numActivePages, pageSize, true, rand);
      RandomizeSequence(lines, numLinesInPage, lineSize, false, rand);
      LinkPages(pages, lines);
    }

    method AllRandomInit(rand: Stream)
      requires Valid() && LayoutFits(2, size, activeSize, pageSize, lineSize)
      requires DrawsFit(2, activeSize, pageSize, lineSize, rand)
      modifies mem
      ensures Inside(AllRandomOrder(activeSize, pageSize, lineSize, rand), size)
      ensures var order := AllRandomOrder(activeSize, pageSize, lineSize, rand);
              mem[..] == Link(old(mem[..]), order, |order|)
    {
      ghost var start, order := mem[..], AllRandomOrder(activeSize, pageSize, lineSize, rand);
      LayoutPlaced(2, size, activeSize, pageSize, lineSize, rand);
      var numLines := NumActiveLines();
      ActiveLinesPositive(activeSize, pageSize, lineSize);
      var lines := new nat[numLines];
      RandomizeSequence(lines, numLines, lineSize, false, rand);
      var i := 0;
      while i < numLines - 1
        invariant 0 <= i <= numLines - 1 && lines[..] == order
        invariant mem[..] == Link(start, order, i)
      {
        StoreLink(lines[i], lines[i + 1], start, order, i);
        i := i + 1;
      }
      StoreLink(lines[numLines - 1], lines[0], start, order, i);
    }
  }
}
