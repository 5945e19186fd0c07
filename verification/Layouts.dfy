/**
 The three node orders a region can be linked in, their geometry, and what they have in
 common. `active`, `page` and `line` are the active, page and line sizes in bytes.
 */
module Layouts {
  import opened Arith
  import opened Ring
  import opened Shuffle
  import opened Wrappers

  function PageCount(active: nat, page: nat): nat
    requires 0 < page
  {
    active / page
  }

  function LinesInPage(page: nat, line: nat): nat
    requires 0 < line
  {
    page / line
  }

  function ActiveLines(active: nat, page: nat, line: nat): nat
    requires 0 < page && 0 < line
  {
    PageCount(active, page) * LinesInPage(page, line)
  }

  // Number of offsets the sequential stride links, the last one possibly only partly active.
  function StrideCount(active: nat, line: nat): (n: nat)
    requires 0 < line
  {
    if active == 0 then 1 else (active - 1) / line + 1
  }

  function StrideOrder(active: nat, line: nat): (order: seq<nat>)
    requires 0 < line
  {
    Sequential(StrideCount(active, line), line)
  }

  function Shift(lines: seq<nat>, base: nat): seq<nat> {
    seq(|lines|, j requires 0 <= j < |lines| => base + lines[j])
  }

  // Pages in order, the same in-page order of lines in each.
  function PageOrder(lines: seq<nat>, pages: nat, page: nat): (order: seq<nat>)
    ensures |order| == pages * |lines|
  {
    if pages == 0 then []
    else
      MulMono(page, 0, pages - 1);
      PageOrder(lines, pages - 1, page) + Shift(lines, (pages - 1) * page)
  }

  function PageRandomOrder(active: nat, page: nat, line: nat, rand: Stream): seq<nat>
    requires 0 < line <= page
  {
    LinesPositive(page, line);
    PageOrder(RandomOrder(LinesInPage(page, line), line, rand), PageCount(active, page), page)
  }

  function AllRandomOrder(active: nat, page: nat, line: nat, rand: Stream): seq<nat>
    requires 0 < line <= page <= active
  {
    ActiveLinesPositive(active, page, line);
    RandomOrder(ActiveLines(active, page, line), line, rand)
  }

  function Nodes(order: seq<nat>): set<nat> {
    set x | x in order
  }

  lemma LinesPositive(page: nat, line: nat)
    requires 0 < line <= page
    ensures 0 < LinesInPage(page, line)
    ensures LinesInPage(page, line) * line <= page
  {
  }

  lemma ActiveLinesPositive(active: nat, page: nat, line: nat)
    requires 0 < line <= page <= active
    ensures 0 < ActiveLines(active, page, line)
  {
    LinesPositive(page, line);
    LinesPositive(active, page);
    MulMono(LinesInPage(page, line), 1, PageCount(active, page));
  }

  // p pages of l lines each: what is left over at the end of each page and of the pages.
  lemma LeftOver(active: nat, page: nat, line: nat, p: nat, l: nat, a: nat, b: nat)
    requires active == page * p + a && page == line * l + b
    ensures p * l * line <= p * page <= active
    ensures p * l * line == active <==> a == 0 && (p == 0 || b == 0)
  {
    assert p * page == p * (line * l) + p * b;
    assert p * l * line == p * (line * l);
    MulMono(p, 1, b);
    MulMono(b, 1, p);
  }

  lemma ActiveLinesFit(active: nat, page: nat, line: nat)
    requires 0 < page && 0 < line
    ensures ActiveLines(active, page, line) * line <= PageCount(active, page) * page <= active
    ensures ActiveLines(active, page, line) * line == active
            <==> (active % page == 0 && (PageCount(active, page) == 0 || page % line == 0))
  {
    LeftOver(active, page, line, PageCount(active, page), LinesInPage(page, line), active % page, page % line);
  }

  // Offset k * line is stored by the stride loop exactly when it is below the active size.
  lemma StrideBound(active: nat, line: nat, k: nat)
    requires 0 < line && 0 < active
    ensures k * line < active <==> k < StrideCount(active, line)
  {
    var q, r := (active - 1) / line, (active - 1) % line;
    assert active - 1 == line * q + r;
    MulMono(line, q + 1, k);
    MulMono(line, k, q);
  }

  // ---- Where the nodes are

  lemma MultiplesApart(a: nat, b: nat, line: nat)
    requires a != b && WORD <= line
    ensures !Overlap(a * line, b * line)
  {
    MulMono(line, a + 1, b);
    MulMono(line, b + 1, a);
  }

  // An order that covers its units has all its words inside when the last unit's is.
  lemma CoveringInside(s: seq<nat>, n: nat, line: nat, limit: nat)
    requires StartsAndCovers(s, n, line) && (n - 1) * line + WORD <= limit
    ensures Inside(s, limit)
  {
    forall k | 0 <= k < n
      ensures s[k] + WORD <= limit
    {
      CoveringBound(s, n, line, k);
    }
  }

  lemma CoveringBound(s: seq<nat>, n: nat, line: nat, k: nat)
    requires StartsAndCovers(s, n, line) && k < n
    ensures s[k] <= (n - 1) * line
  {
    assert IsMultiple(s[k], n, line);
    var q :| 0 <= q < n && s[k] == q * line;
    MulMono(line, q, n - 1);
  }

  // And its words share no byte exactly when a unit is at least a word, or there is one.
  lemma CoveringSpacedIff(s: seq<nat>, n: nat, line: nat, limit: nat)
    requires 0 < line && StartsAndCovers(s, n, line) && Inside(s, limit)
    ensures Spaced(s, limit) <==> n == 1 || WORD <= line
  {
    if WORD <= line {
      forall j, k | 0 <= j < k < n
        ensures !Overlap(s[j], s[k])
      {
        CoveringApart(s, n, line, j, k);
      }
    } else if n > 1 {
      var k := SecondUnit(s, n, line);
      assert Overlap(s[0], s[k]);
    }
  }

  lemma CoveringApart(s: seq<nat>, n: nat, line: nat, j: nat, k: nat)
    requires WORD <= line && StartsAndCovers(s, n, line) && j < k < n
    ensures !Overlap(s[j], s[k])
  {
    assert s[j] != s[k] && IsMultiple(s[j], n, line) && IsMultiple(s[k], n, line);
    var a :| 0 <= a < n && s[j] == a * line;
    var b :| 0 <= b < n && s[k] == b * line;
    MultiplesApart(a, b, line);
  }

  lemma SecondUnit(s: seq<nat>, n: nat, line: nat) returns (k: nat)
    requires 0 < line && 1 < n && StartsAndCovers(s, n, line)
    ensures 0 < k < n && s[k] == line
  {
    assert Lists(s, 1, line);
    k :| 0 <= k < n && s[k] == 1 * line;
  }

  lemma SequentialCovers(n: nat, line: nat)
    requires 0 < n && 0 < line
    ensures StartsAndCovers(Sequential(n, line), n, line)
  {
    var s := Sequential(n, line);
    SequentialDistinct(n, line);
    forall q: nat | q < n
      ensures Lists(s, q, line)
    {
      assert s[q] == q * line;
    }
    forall k | 0 <= k < n
      ensures IsMultiple(s[k], n, line)
    {
      assert s[k] == k * line;
    }
  }

  // ---- Pages of lines

  lemma {:induction false} PageOrderAt(lines: seq<nat>, pages: nat, page: nat, i: nat, j: nat)
    requires i < pages && j < |lines|
    ensures i * |lines| + j < pages * |lines|
    ensures PageOrder(lines, pages, page)[i * |lines| + j] == i * page + lines[j]
  {
    RowsApart(|lines|, i, pages);
    if i < pages - 1 {
      PageOrderAt(lines, pages - 1, page, i, j);
    }
  }

  // Entries row, row + 1, ... of the order are the lines of the page at `base`, and the
  // entry after them (around the ring) is the first line of the page at `nextBase`.
  ghost predicate IsPageRow(order: seq<nat>, row: nat, lines: seq<nat>, base: nat, nextBase: nat) {
    && 0 < |lines| && row + |lines| <= |order|
    && (forall j :: 0 <= j < |lines| ==> order[row + j] == base + lines[j])
    && order[Wrap(row + |lines|, |order|)] == nextBase + lines[0]
  }

  lemma PageRow(lines: seq<nat>, pages: nat, page: nat, i: nat, row: nat)
    requires 0 < |lines| && i < pages && row == i * |lines|
    ensures IsPageRow(PageOrder(lines, pages, page), row, lines, i * page, Wrap(i + 1, pages) * page)
  {
    var order := PageOrder(lines, pages, page);
    var next := NextRow(lines, pages, page, i, row);
    forall j | 0 <= j < |lines|
      ensures order[row + j] == i * page + lines[j]
    {
      PageOrderAt(lines, pages, page, i, j);
    }
  }

  // The entry that follows a row around the ring.
  lemma NextRow(lines: seq<nat>, pages: nat, page: nat, i: nat, row: nat) returns (next: nat)
    requires 0 < |lines| && i < pages && row == i * |lines|
    ensures var order := PageOrder(lines, pages, page);
            && row + |lines| <= |order|
            && next == Wrap(row + |lines|, |order|) < |order|
            && order[next] == Wrap(i + 1, pages) * page + lines[0]
  {
    RowStep(|lines|, i, pages, row);
    if i + 1 < pages {
      PageOrderAt(lines, pages, page, i + 1, 0);
      next := row + |lines|;
    } else {
      PageOrderAt(lines, pages, page, 0, 0);
      next := 0;
    }
  }

  // Page and line of the k-th entry.
  lemma SplitIndex(k: nat, pages: nat, n: nat) returns (i: nat, j: nat)
    requires 0 < n && k < pages * n
    ensures i < pages && j < n && k == i * n + j
  {
    i, j := k / n, k % n;
    MulMono(n, pages, i);
  }

  lemma EntryOf(lines: seq<nat>, pages: nat, page: nat, k: nat) returns (i: nat, j: nat)
    requires k < pages * |lines|
    ensures i < pages && j < |lines| && k == i * |lines| + j
    ensures PageOrder(lines, pages, page)[k] == i * page + lines[j]
  {
    i, j := SplitIndex(k, pages, |lines|);
    PageOrderAt(lines, pages, page, i, j);
  }

  lemma PageOrderInside(lines: seq<nat>, pages: nat, page: nat, last: nat, limit: nat)
    requires forall j :: 0 <= j < |lines| ==> lines[j] <= last
    requires pages > 0 ==> (pages - 1) * page + last + WORD <= limit
    ensures Inside(PageOrder(lines, pages, page), limit)
  {
    var order := PageOrder(lines, pages, page);
    forall k | 0 <= k < |order|
      ensures order[k] + WORD <= limit
    {
      var i, j := EntryOf(lines, pages, page, k);
      MulMono(page, i, pages - 1);
    }
  }

  // Nodes in different pages are apart when every line leaves a gap to the end of its page.
  lemma PagesApart(page: nat, gap: nat, i: nat, i': nat, a: nat, b: nat)
    requires i != i' && a + gap <= page && b + gap <= page
    ensures i * page + a + gap <= i' * page + b || i' * page + b + gap <= i * page + a
  {
    RowsApart(page, i, i');
    RowsApart(page, i', i);
  }

  lemma PageOrderDistinct(lines: seq<nat>, pages: nat, page: nat)
    requires Distinct(lines) && forall j :: 0 <= j < |lines| ==> lines[j] < page
    ensures Distinct(PageOrder(lines, pages, page))
  {
    var order := PageOrder(lines, pages, page);
    forall a, b | 0 <= a < b < |order|
      ensures order[a] != order[b]
    {
      var i, j := EntryOf(lines, pages, page, a);
      var i', j' := EntryOf(lines, pages, page, b);
      if i != i' {
        PagesApart(page, 1, i, i', lines[j], lines[j']);
      } else {
        assert lines[j] != lines[j'];
      }
    }
  }

  lemma PageOrderSpaced(lines: seq<nat>, pages: nat, page: nat, gap: nat, limit: nat)
    requires Spaced(lines, page) && Inside(PageOrder(lines, pages, page), limit)
    requires WORD <= gap && forall j :: 0 <= j < |lines| ==> lines[j] + gap <= page
    ensures Spaced(PageOrder(lines, pages, page), limit)
  {
    var order := PageOrder(lines, pages, page);
    forall a, b | 0 <= a < b < |order|
      ensures !Overlap(order[a], order[b])
    {
      var i, j := EntryOf(lines, pages, page, a);
      var i', j' := EntryOf(lines, pages, page, b);
      if i != i' {
        PagesApart(page, gap, i, i', lines[j], lines[j']);
      } else {
        assert !Overlap(lines[j], lines[j']);
      }
    }
  }

  // The nodes of the random-in-page layout share no byte.
  predicate PagesFit(pages: nat, n: nat, page: nat, line: nat) {
    pages == 0 || if n > 1 then WORD <= line else pages == 1 || WORD <= page
  }

  lemma PagedSpacedIff(lines: seq<nat>, pages: nat, page: nat, line: nat, limit: nat)
    requires 0 < line && StartsAndCovers(lines, |lines|, line) && |lines| * line <= page
    requires Inside(PageOrder(lines, pages, page), limit)
    ensures Spaced(PageOrder(lines, pages, page), limit) <==> PagesFit(pages, |lines|, page, line)
  {
    var n := |lines|;
    if !PagesFit(pages, n, page, line) {
      PagedOverlap(lines, pages, page, line, limit);
    } else if n > 1 && pages > 0 {
      LinesLeaveGap(lines, page, line);
      CoveringSpacedIff(lines, n, line, page);
      PageOrderSpaced(lines, pages, page, line, limit);
    } else if pages > 1 {
      assert Spaced(lines, page);
      PageOrderSpaced(lines, pages, page, page, limit);
    } else {
      assert |PageOrder(lines, pages, page)| <= 1;
    }
  }

  lemma LinesLeaveGap(lines: seq<nat>, page: nat, line: nat)
    requires StartsAndCovers(lines, |lines|, line) && |lines| * line <= page
    ensures forall j :: 0 <= j < |lines| ==> lines[j] + line <= page
    ensures WORD <= line ==> Inside(lines, page)
  {
    assert (|lines| - 1) * line + line == |lines| * line;
    forall j | 0 <= j < |lines|
      ensures lines[j] + line <= page
    {
      CoveringBound(lines, |lines|, line, j);
    }
  }

  lemma PagedOverlap(lines: seq<nat>, pages: nat, page: nat, line: nat, limit: nat)
    requires 0 < line && StartsAndCovers(lines, |lines|, line) && |lines| * line <= page
    requires !PagesFit(pages, |lines|, page, line)
    ensures !Spaced(PageOrder(lines, pages, page), limit)
  {
    var order, n := PageOrder(lines, pages, page), |lines|;
    PageOrderAt(lines, pages, page, 0, 0);
    var k;
    if n > 1 {
      k := SecondUnit(lines, n, line);
      PageOrderAt(lines, pages, page, 0, k);
    } else {
      k := n;
      PageOrderAt(lines, pages, page, 1, 0);
    }
    assert order[0] == 0 && 0 < k < |order| && order[k] < WORD;
    assert Overlap(order[0], order[k]);
  }

  // ---- The random-in-page layout

  lemma PageRandomPlaced(active: nat, page: nat, line: nat, rand: Stream, limit: nat)
    requires 0 < line <= page
    requires var p := PageCount(active, page);
             p > 0 ==> (p - 1) * page + (LinesInPage(page, line) - 1) * line + WORD <= limit
    ensures var order := PageRandomOrder(active, page, line, rand);
            && |order| == ActiveLines(active, page, line)
            && Inside(order, limit) && Distinct(order)
            && (Spaced(order, limit) <==> PagesFit(PageCount(active, page), LinesInPage(page, line), page, line))
            && (page <= active ==> 0 < |order| && order[0] == 0)
            && (active < page ==> order == [])
  {
    var pages, n := PageCount(active, page), LinesInPage(page, line);
    LinesPositive(page, line);
    var perm := RandomOrder(n, line, rand);
    RandomOrderCovers(n, line, rand);
    LinesLeaveGap(perm, page, line);
    forall j | 0 <= j < n
      ensures perm[j] <= (n - 1) * line
    {
      CoveringBound(perm, n, line, j);
    }
    PageOrderInside(perm, pages, page, (n - 1) * line, limit);
    PageOrderDistinct(perm, pages, page);
    PagedSpacedIff(perm, pages, page, line, limit);
    if page <= active {
      LinesPositive(active, page);
      PageOrderAt(perm, pages, page, 0, 0);
    } else {
      DivModUnique(0, active, active, page);
    }
  }

  // The last word of the last page, in a region with whole pages of whole lines.
  lemma LastWordInside(active: nat, page: nat, line: nat)
    requires WORD <= line <= page <= active
    ensures (PageCount(active, page) - 1) * page + (LinesInPage(page, line) - 1) * line + WORD <= active
    ensures (ActiveLines(active, page, line) - 1) * line + WORD <= active
  {
    var p, n := PageCount(active, page), LinesInPage(page, line);
    LinesPositive(page, line);
    LinesPositive(active, page);
    ActiveLinesPositive(active, page, line);
    ActiveLinesFit(active, page, line);
    LastOf(p, page);
    LastOf(n, line);
    LastOf(p * n, line);
  }

  lemma LastOf(n: nat, c: nat)
    requires 0 < n
    ensures (n - 1) * c + c == n * c
  {
  }

  // Line j of page i on lap q of a ring of p pages of n lines is its hop n * (p * q + i) + j.
  lemma HopIndex(p: nat, n: nat, q: nat, i: nat, j: nat)
    requires i < p && j < n
    ensures n * (p * q + i) + j == (p * n) * q + (i * n + j)
    ensures i * n + j < p * n
  {
    RowsApart(n, i, p);
    assert n * (p * q + i) == n * (p * q) + n * i;
    assert n * (p * q) == (p * n) * q;
  }

  lemma WrapAt(k: nat, p: nat, n: nat, x: nat, q: nat, i: nat, j: nat)
    requires i < p && j < n && k == n * x + j && x == p * q + i
    ensures 0 < p * n && k % (p * n) == i * n + j
  {
    HopIndex(p, n, q, i, j);
    DivModUnique(q, i * n + j, k, p * n);
  }

  lemma WrapSplits(k: nat, p: nat, n: nat)
    requires 0 < p && 0 < n
    ensures 0 < p * n && k % (p * n) == ((k / n) % p) * n + k % n
  {
    WrapAt(k, p, n, k / n, (k / n) / p, (k / n) % p, k % n);
  }

  lemma PageHop(active: nat, page: nat, line: nat, rand: Stream, k: nat)
    requires 0 < line <= page <= active
    ensures var order := PageRandomOrder(active, page, line, rand);
            var perm := RandomOrder(LinesInPage(page, line), line, rand);
            && 0 < |order| && 0 < |perm|
            && order[k % |order|] == ((k / |perm|) % PageCount(active, page)) * page + perm[k % |perm|]
  {
    var pages, n := PageCount(active, page), LinesInPage(page, line);
    LinesPositive(page, line);
    LinesPositive(active, page);
    ActiveLinesPositive(active, page, line);
    var perm := RandomOrder(n, line, rand);
    WrapSplits(k, pages, n);
    PageOrderAt(perm, pages, page, (k / n) % pages, k % n);
  }

  // The random-in-page layout is one ring for every stream, and hop k from the start is at
  // line k mod L of the in-page order, in page (k div L) mod P: a page is used up before
  // the next is entered, and it is entered at its first line.
  lemma PageRandomRing(m: seq<Cell>, active: nat, page: nat, line: nat, rand: Stream, k: nat)
    requires WORD <= line <= page <= active <= |m|
    ensures var order := PageRandomOrder(active, page, line, rand);
            var perm := RandomOrder(LinesInPage(page, line), line, rand);
            && |order| == ActiveLines(active, page, line)
            && Spaced(order, |m|)
            && perm[0] == 0
            && var m' := Link(m, order, |order|);
               && IsRing(m', order)
               && Chase(m', 0, k) == Some(((k / |perm|) % PageCount(active, page)) * page + perm[k % |perm|])
  {
    var order := PageRandomOrder(active, page, line, rand);
    LastWordInside(active, page, line);
    PageRandomPlaced(active, page, line, rand, |m|);
    LinesPositive(page, line);
    RandomOrderCovers(LinesInPage(page, line), line, rand);
    LinkMakesRing(m, order);
    var ring := Link(m, order, |order|);
    assert Chase(ring, 0, k) == Some(order[k % |order|]) by {
      ChaseAround(ring, order, 0, k);
    }
    PageHop(active, page, line, rand, k);
  }

  // ---- The other layouts

  lemma CoveringRing(m: seq<Cell>, order: seq<nat>, n: nat, line: nat)
    requires WORD <= line && StartsAndCovers(order, n, line) && (n - 1) * line + WORD <= |m|
    ensures Spaced(order, |m|) && IsRing(Link(m, order, |order|), order)
  {
    CoveringInside(order, n, line, |m|);
    CoveringSpacedIff(order, n, line, |m|);
    LinkMakesRing(m, order);
  }

  lemma AllRandomRing(m: seq<Cell>, active: nat, page: nat, line: nat, rand: Stream)
    requires WORD <= line <= page <= active <= |m|
    ensures var order := AllRandomOrder(active, page, line, rand);
            && StartsAndCovers(order, ActiveLines(active, page, line), line)
            && Spaced(order, |m|) && IsRing(Link(m, order, |order|), order)
  {
    ActiveLinesPositive(active, page, line);
    LastWordInside(active, page, line);
    RandomOrderCovers(ActiveLines(active, page, line), line, rand);
    CoveringRing(m, AllRandomOrder(active, page, line, rand), ActiveLines(active, page, line), line);
  }

  lemma StrideRing(m: seq<Cell>, active: nat, line: nat)
    requires WORD <= line && (StrideCount(active, line) - 1) * line + WORD <= |m|
    ensures var order := StrideOrder(active, line);
            && Spaced(order, |m|) && IsRing(Link(m, order, |order|), order)
  {
    SequentialCovers(StrideCount(active, line), line);
    CoveringRing(m, StrideOrder(active, line), StrideCount(active, line), line);
  }

  // numActiveLines() counts the stride ring exactly when the sizes divide one another.
  lemma StrideCountIsActiveLinesIff(active: nat, page: nat, line: nat)
    requires 0 < line <= page <= active
    ensures StrideCount(active, line) == ActiveLines(active, page, line)
            <==> page % line == 0 && active % page == 0
  {
    var n := ActiveLines(active, page, line);
    LinesPositive(active, page);
    ActiveLinesFit(active, page, line);
    ActiveLinesPositive(active, page, line);
    StrideBound(active, line, n);
    StrideBound(active, line, n - 1);
    LastOf(n, line);
  }

  // ---- Node sets

  lemma SequentialNodes(s: seq<nat>, n: nat, line: nat)
    requires StartsAndCovers(s, n, line)
    ensures Nodes(s) == Nodes(Sequential(n, line))
  {
    forall x | x in Nodes(s)
      ensures x in Sequential(n, line)
    {
      var k :| 0 <= k < n && s[k] == x;
      assert IsMultiple(s[k], n, line);
      var q :| 0 <= q < n && s[k] == q * line;
      assert Sequential(n, line)[q] == x;
    }
    forall x | x in Nodes(Sequential(n, line))
      ensures x in s
    {
      var q :| 0 <= q < n && Sequential(n, line)[q] == x;
      assert Lists(s, q, line);
    }
  }

  // Line q of page i is line i * l + q of the region.
  lemma FlatIndex(i: nat, q: nat, l: nat, page: nat, line: nat, pages: nat) returns (at: nat)
    requires i < pages && q < l
    requires pages > 1 ==> page == line * l
    ensures at == i * l + q < pages * l
    ensures i * page + q * line == at * line
  {
    at := i * l + q;
    RowsApart(l, i, pages);
    if pages > 1 {
      assert i * (line * l) == (i * l) * line;
    }
    assert (i * l) * line + q * line == at * line;
  }

  lemma PageNodeIsFlat(perm: seq<nat>, pages: nat, page: nat, line: nat, i: nat, j: nat)
    requires pages > 1 ==> page == line * |perm|
    requires StartsAndCovers(perm, |perm|, line) && i < pages && j < |perm|
    ensures i * page + perm[j] in Sequential(pages * |perm|, line)
  {
    assert IsMultiple(perm[j], |perm|, line);
    var q :| 0 <= q < |perm| && perm[j] == q * line;
    var at := FlatIndex(i, q, |perm|, page, line, pages);
    assert Sequential(pages * |perm|, line)[at] == at * line;
  }

  lemma FlatNodeIsPaged(perm: seq<nat>, pages: nat, page: nat, line: nat, i: nat, q: nat)
    requires pages > 1 ==> page == line * |perm|
    requires StartsAndCovers(perm, |perm|, line) && i < pages && q < |perm|
    ensures (i * |perm| + q) * line in PageOrder(perm, pages, page)
  {
    assert Lists(perm, q, line);
    var j :| 0 <= j < |perm| && perm[j] == q * line;
    var at := FlatIndex(i, q, |perm|, page, line, pages);
    PageOrderAt(perm, pages, page, i, j);
  }

  lemma PageNodes(perm: seq<nat>, pages: nat, page: nat, line: nat)
    requires pages > 1 ==> page == line * |perm|
    requires StartsAndCovers(perm, |perm|, line)
    ensures Nodes(PageOrder(perm, pages, page)) == Nodes(Sequential(pages * |perm|, line))
  {
    var order, flat := PageOrder(perm, pages, page), Sequential(pages * |perm|, line);
    forall x | x in order
      ensures x in flat
    {
      var k :| 0 <= k < |order| && order[k] == x;
      var i, j := EntryOf(perm, pages, page, k);
      PageNodeIsFlat(perm, pages, page, line, i, j);
    }
    forall x | x in flat
      ensures x in order
    {
      var k :| 0 <= k < |flat| && flat[k] == x;
      var i, q := SplitIndex(k, pages, |perm|);
      FlatNodeIsPaged(perm, pages, page, line, i, q);
    }
  }

  lemma WholeLines(page: nat, line: nat)
    requires 0 < line && page % line == 0
    ensures page == line * LinesInPage(page, line)
  {
  }

  lemma MultipleOf(x: nat, q: nat, line: nat)
    requires 0 < line && x == q * line
    ensures x % line == 0
  {
    DivModUnique(q, 0, x, line);
  }

  // With P >= 2 pages, random-in-page and random-in-region use the same nodes exactly when
  // the line size divides the page size.
  lemma RandomLayoutsShareNodesIff(active: nat, page: nat, line: nat, rand: Stream, rand': Stream)
    requires 0 < line <= page <= active
    ensures Nodes(PageRandomOrder(active, page, line, rand)) == Nodes(AllRandomOrder(active, page, line, rand'))
            <==> PageCount(active, page) == 1 || page % line == 0
  {
    var pages, l, n := PageCount(active, page), LinesInPage(page, line), ActiveLines(active, page, line);
    var all := AllRandomOrder(active, page, line, rand');
    LinesPositive(page, line);
    LinesPositive(active, page);
    ActiveLinesPositive(active, page, line);
    var perm := RandomOrder(l, line, rand);
    RandomOrderCovers(l, line, rand);
    RandomOrderCovers(n, line, rand');
    if pages == 1 || page % line == 0 {
      if pages > 1 {
        WholeLines(page, line);
      }
      PageNodes(perm, pages, page, line);
      SequentialNodes(all, n, line);
    } else {
      SecondPageApart(perm, pages, page, line, all);
    }
  }

  // The first node of the second page is not a multiple of the line size.
  lemma SecondPageApart(perm: seq<nat>, pages: nat, page: nat, line: nat, all: seq<nat>)
    requires 0 < line && 1 < pages && page % line != 0
    requires StartsAndCovers(perm, |perm|, line) && StartsAndCovers(all, |all|, line)
    ensures Nodes(PageOrder(perm, pages, page)) != Nodes(all)
  {
    PageOrderAt(perm, pages, page, 1, 0);
    assert page in Nodes(PageOrder(perm, pages, page));
    if page in Nodes(all) {
      var k :| 0 <= k < |all| && all[k] == page;
      assert IsMultiple(all[k], |all|, line);
      var q :| 0 <= q < |all| && all[k] == q * line;
      MultipleOf(page, q, line);
    }
  }

  // ---- Whatever the access pattern

  // The order an access pattern links: anything but 0 and 2 is random-in-page.
  function LayoutOrder(pattern: nat, active: nat, page: nat, line: nat, rand: Stream): seq<nat>
    requires 0 < line && (pattern != 0 ==> line <= page) && (pattern == 2 ==> page <= active)
  {
    if pattern == 0 then StrideOrder(active, line)
    else if pattern == 2 then AllRandomOrder(active, page, line, rand)
    else PageRandomOrder(active, page, line, rand)
  }

  // Where hop k from the start of the ring is: at line k, going round, for pattern 0, and for
  // any but 0 and 2 in page k div L, going round, of L lines each.
  lemma PatternHops(m: seq<Cell>, pattern: nat, active: nat, page: nat, line: nat, rand: Stream, k: nat)
    requires WORD <= line <= page <= active <= |m| && pattern != 2
    requires pattern == 0 ==> (active - 1) / line * line + 8 <= |m|
    ensures var order := LayoutOrder(pattern, active, page, line, rand);
            && Inside(order, |m|)
            && var hop := Chase(Link(m, order, |order|), 0, k);
               && hop.Some?
               && if pattern == 0 then hop.value == k % ((active - 1) / line + 1) * line
                  else hop.value / page == (k / (page / line)) % (active / page)
  {
    var order := LayoutOrder(pattern, active, page, line, rand);
    if pattern == 0 {
      StrideRing(m, active, line);
      ChaseAround(Link(m, order, |order|), order, 0, k);
    } else {
      PageRandomRing(m, active, page, line, rand, k);
      var perm := RandomOrder(LinesInPage(page, line), line, rand);
      RandomOrderCovers(LinesInPage(page, line), line, rand);
      LineInPage(perm, page, line, k % |perm|);
      var p := (k / |perm|) % PageCount(active, page);
      DivModUnique(p, perm[k % |perm|], p * page + perm[k % |perm|], page);
    }
  }

  lemma LineInPage(perm: seq<nat>, page: nat, line: nat, k: nat)
    requires 0 < line <= page && StartsAndCovers(perm, LinesInPage(page, line), line) && k < |perm|
    ensures perm[k] < page
  {
  }

  // What it takes of the sizes: at least a line to shuffle, and the last word it stores
  // inside the region. An active size below a page has no page, and nothing is stored.
  predicate LayoutFits(pattern: nat, size: nat, active: nat, page: nat, line: nat) {
    && 0 < line && 0 < page
    && if pattern == 0 then (StrideCount(active, line) - 1) * line + WORD <= size
       else if pattern == 2 then
         line <= page <= active && (ActiveLines(active, page, line) - 1) * line + WORD <= size
       else
         && line <= page
         && var p := PageCount(active, page);
            p > 0 ==> (p - 1) * page + (LinesInPage(page, line) - 1) * line + WORD <= size
  }

  // And of the draws: that the shuffle ends, which up to 2^32 lines it always does.
  ghost predicate DrawsFit(pattern: nat, active: nat, page: nat, line: nat, rand: Stream)
    requires 0 < line && (pattern != 0 ==> line <= page) && (pattern == 2 ==> page <= active)
  {
    if pattern == 0 then true
    else if pattern == 2 then
      ActiveLinesPositive(active, page, line);
      ShuffleEnds(ActiveLines(active, page, line), line, rand)
    else
      LinesPositive(page, line);
      ShuffleEnds(LinesInPage(page, line), line, rand)
  }

  // The sizes with which the words stored share no byte, and there is one.
  predicate RingFits(pattern: nat, active: nat, page: nat, line: nat)
    requires 0 < line && 0 < page
  {
    if pattern == 0 then StrideCount(active, line) == 1 || WORD <= line
    else if pattern == 2 then ActiveLines(active, page, line) == 1 || WORD <= line
    else page <= active && PagesFit(PageCount(active, page), LinesInPage(page, line), page, line)
  }

  // Where an order puts its nodes: inside, apart from each other exactly when `apart`.
  ghost predicate Placed(order: seq<nat>, limit: nat, apart: bool) {
    && Inside(order, limit) && Distinct(order)
    && (0 < |order| ==> order[0] == 0)
    && (0 < |order| && Spaced(order, limit) <==> apart)
  }

  lemma CoveringPlaced(order: seq<nat>, n: nat, line: nat, limit: nat)
    requires 0 < line && StartsAndCovers(order, n, line) && (n - 1) * line + WORD <= limit
    ensures Placed(order, limit, n == 1 || WORD <= line)
  {
    CoveringInside(order, n, line, limit);
    CoveringSpacedIff(order, n, line, limit);
  }

  // A covering order has the last unit somewhere.
  lemma CoveringInsideIff(s: seq<nat>, n: nat, line: nat, limit: nat)
    requires StartsAndCovers(s, n, line)
    ensures Inside(s, limit) <==> (n - 1) * line + WORD <= limit
  {
    var k := LastUnit(s, n, line);
    if (n - 1) * line + WORD <= limit {
      CoveringInside(s, n, line, limit);
    }
  }

  lemma LastUnit(s: seq<nat>, n: nat, line: nat) returns (k: nat)
    requires StartsAndCovers(s, n, line)
    ensures k < n && s[k] == (n - 1) * line
  {
    assert Lists(s, n - 1, line);
    k :| 0 <= k < n && s[k] == (n - 1) * line;
  }

  lemma PageRandomInsideIff(active: nat, page: nat, line: nat, rand: Stream, limit: nat)
    requires 0 < line <= page
    ensures var p := PageCount(active, page);
            Inside(PageRandomOrder(active, page, line, rand), limit)
            <==> (p > 0 ==> (p - 1) * page + (LinesInPage(page, line) - 1) * line + WORD <= limit)
  {
    var p, n := PageCount(active, page), LinesInPage(page, line);
    LinesPositive(page, line);
    var perm := RandomOrder(n, line, rand);
    RandomOrderCovers(n, line, rand);
    if p > 0 {
      var j := LastUnit(perm, n, line);
      PageOrderAt(perm, p, page, p - 1, j);
    }
    if p > 0 ==> (p - 1) * page + (n - 1) * line + WORD <= limit {
      PageRandomPlaced(active, page, line, rand, limit);
    }
  }

  // Every store of a layout is inside the region exactly when `LayoutFits`.
  lemma LayoutInsideIff(pattern: nat, size: nat, active: nat, page: nat, line: nat, rand: Stream)
    requires 0 < line && 0 < page && (pattern != 0 ==> line <= page) && (pattern == 2 ==> page <= active)
    ensures Inside(LayoutOrder(pattern, active, page, line, rand), size)
            <==> LayoutFits(pattern, size, active, page, line)
  {
    if pattern == 0 {
      SequentialCovers(StrideCount(active, line), line);
      CoveringInsideIff(StrideOrder(active, line), StrideCount(active, line), line, size);
    } else if pattern == 2 {
      var n := ActiveLines(active, page, line);
      ActiveLinesPositive(active, page, line);
      RandomOrderCovers(n, line, rand);
      CoveringInsideIff(RandomOrder(n, line, rand), n, line, size);
    } else {
      PageRandomInsideIff(active, page, line, rand, size);
    }
  }

  // The random layouts have nothing to shuffle exactly when a page holds no line or, over
  // the whole region, the region holds no page.
  lemma NothingToShuffleIff(active: nat, page: nat, line: nat)
    requires 0 < line && 0 < page
    ensures LinesInPage(page, line) == 0 <==> page < line
    ensures ActiveLines(active, page, line) == 0 <==> page < line || active < page
  {
    if line <= page {
      LinesPositive(page, line);
    } else {
      DivModUnique(0, page, page, line);
    }
    if active < page {
      DivModUnique(0, active, active, page);
    } else if line <= page {
      ActiveLinesPositive(active, page, line);
    }
  }

  // For the sequential stride over a whole region: exactly when the last line has room for a
  // word, or is whole.
  lemma StrideFitsIff(active: nat, page: nat, line: nat)
    requires 0 < line && 0 < page
    ensures LayoutFits(0, active, active, page, line)
            <==> 0 < active && 8 <= (active - 1) % line + 1
  {
    if 0 < active {
      var q, r := (active - 1) / line, (active - 1) % line;
      assert active - 1 == line * q + r;
    }
  }

  // Sizes nothing checks: 512 MiB by strides of 11 bytes, and 16 KiB by strides of 4095. The
  // last word stored passes the end of the region.
  lemma StrideOverruns(page: nat)
    requires 0 < page
    ensures !LayoutFits(0, 0x2000_0000, 0x2000_0000, page, 11)
    ensures !LayoutFits(0, 0x4000, 0x4000, page, 4095)
  {
    StrideFitsIff(0x2000_0000, page, 11);
    StrideFitsIff(0x4000, page, 4095);
  }

  lemma LayoutPlaced(pattern: nat, size: nat, active: nat, page: nat, line: nat, rand: Stream)
    requires LayoutFits(pattern, size, active, page, line)
    ensures Placed(LayoutOrder(pattern, active, page, line, rand), size, RingFits(pattern, active, page, line))
  {
    if pattern == 0 {
      var n := StrideCount(active, line);
      SequentialCovers(n, line);
      CoveringPlaced(StrideOrder(active, line), n, line, size);
    } else if pattern == 2 {
      var n := ActiveLines(active, page, line);
      ActiveLinesPositive(active, page, line);
      RandomOrderCovers(n, line, rand);
      CoveringPlaced(AllRandomOrder(active, page, line, rand), n, line, size);
    } else {
      PageRandomPlaced(active, page, line, rand, size);
    }
  }

  // The layout is a ring exactly when the words it stores share no byte and there is one.
  lemma LayoutIsRingIff(m: seq<Cell>, pattern: nat, active: nat, page: nat, line: nat, rand: Stream)
    requires LayoutFits(pattern, |m|, active, page, line)
    ensures var order := LayoutOrder(pattern, active, page, line, rand);
            && Inside(order, |m|)
            && (IsRing(Link(m, order, |order|), order) <==> RingFits(pattern, active, page, line))
  {
    LayoutPlaced(pattern, |m|, active, page, line, rand);
    var order := LayoutOrder(pattern, active, page, line, rand);
    if 0 < |order| {
      LinkIsRingIff(m, order);
    }
  }

  // Sizes that divide one another fit every layout.
  lemma DividingFits(pattern: nat, size: nat, active: nat, page: nat, line: nat)
    requires WORD <= line <= page <= active <= size && page % line == 0 && active % page == 0
    ensures LayoutFits(pattern, size, active, page, line) && RingFits(pattern, active, page, line)
    ensures active / line == ActiveLines(active, page, line) == StrideCount(active, line)
  {
    var n := ActiveLines(active, page, line);
    LastWordInside(active, page, line);
    ActiveLinesFit(active, page, line);
    StrideCountIsActiveLinesIff(active, page, line);
    DivModUnique(n, 0, active, line);
  }

  lemma LayoutNodes(pattern: nat, active: nat, page: nat, line: nat, rand: Stream)
    requires 0 < line <= page <= active && page % line == 0 && active % page == 0
    ensures var order := LayoutOrder(pattern, active, page, line, rand);
            && |order| == ActiveLines(active, page, line)
            && Nodes(order) == Nodes(Sequential(ActiveLines(active, page, line), line))
  {
    var n := ActiveLines(active, page, line);
    ActiveLinesPositive(active, page, line);
    StrideCountIsActiveLinesIff(active, page, line);
    if pattern == 0 {
    } else if pattern == 2 {
      RandomOrderCovers(n, line, rand);
      SequentialNodes(RandomOrder(n, line, rand), n, line);
    } else {
      LinesPositive(page, line);
      RandomOrderCovers(LinesInPage(page, line), line, rand);
      WholeLines(page, line);
      PageNodes(RandomOrder(LinesInPage(page, line), line, rand), PageCount(active, page), page, line);
    }
  }

  // When line divides page and page divides the active size, all three layouts are rings
  // over the same nodes 0, line, 2*line, ..., and each first returns to the start after
  // numActiveLines() hops.
  lemma SameRing(m: seq<Cell>, active: nat, page: nat, line: nat, rand: Stream, pattern: nat)
    requires WORD <= line <= page <= active <= |m|
    requires page % line == 0 && active % page == 0
    ensures var order := LayoutOrder(pattern, active, page, line, rand);
            && Nodes(order) == Nodes(Sequential(active / line, line))
            && |order| == active / line == ActiveLines(active, page, line)
            && Inside(order, |m|)
            && var m' := Link(m, order, |order|);
               && IsRing(m', order)
               && Chase(m', 0, |order|) == Some(0)
               && forall k :: 0 < k < |order| ==> Chase(m', 0, k) != Some(0)
  {
    DividingFits(pattern, |m|, active, page, line);
    LayoutNodes(pattern, active, page, line, rand);
    LayoutIsRingIff(m, pattern, active, page, line, rand);
    var order := LayoutOrder(pattern, active, page, line, rand);
    FirstReturn(Link(m, order, |order|), order);
  }
}
