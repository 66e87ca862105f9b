/**
 The paged arena (`PagedArena` in arena/paged.h and arenas/paged.h; both files
 hold the same logic): a singly linked chain of pages of `page_size` bytes,
 each bump-allocated through its own `pos` cursor.

 The chain is kept in index form: `pages[0]` is `head`, `pages[i + 1]` is
 `pages[i]->next`, and `tail` is the index of the page receiving
 allocations. A chunk's address is a page index and an offset in that page.
 The bytes of the pages are never read by the arena and are not modelled.
 */
module PagedArenas {
  import opened Optional

  datatype Page = Page(pos: nat)

  datatype PagedArena = PagedArena(pageSize: nat, pages: seq<Page>, tail: nat)

  /** Where a chunk starts: a page of the chain and an offset into it. */
  datatype PageAddr = PageAddr(page: nat, offset: nat)

  /** `_paged_arena_page__new`: a page whose first unoccupied byte is its first byte. */
  function NewPage(): Page {
    Page(0)
  }

  /** `_paged_arena_page__reset`: the page becomes unoccupied. */
  function ResetPage(p: Page): Page {
    p.(pos := 0)
  }

  /** The chain's shape: `head` exists and `tail` points into the chain. */
  predicate WellFormed(a: PagedArena) {
    1 <= |a.pages| && a.tail < |a.pages|
  }

  /**
   The invariant every reachable arena keeps: no page is filled past its end,
   and every page after `tail` is unoccupied.
   */
  predicate Valid(a: PagedArena) {
    && WellFormed(a)
    && (forall i :: 0 <= i < |a.pages| ==> a.pages[i].pos <= a.pageSize)
    && (forall i :: a.tail < i < |a.pages| ==> a.pages[i].pos == 0)
  }

  /** `paged_arena__new(page_size)`: one empty page that is both `head` and `tail`. */
  function New(pageSize: nat): (a: PagedArena)
    ensures Valid(a) && a.pageSize == pageSize
    ensures |a.pages| == 1 && a.tail == 0 && a.pages[0].pos == 0
  {
    PagedArena(pageSize, [NewPage()], 0)
  }

  /**
   The free bytes of the `tail` page, `page_size - tail->pos`. The invariant
   keeps `pos <= page_size`, so the `size_t` subtraction never wraps.
   */
  function Room(a: PagedArena): (r: nat)
    requires Valid(a)
    ensures r <= a.pageSize
    ensures a.pages[a.tail].pos + r == a.pageSize
  {
    a.pageSize - a.pages[a.tail].pos
  }

  /**
   `paged_arena__alloc(n)`. A request larger than a page is refused with NULL
   and nothing changes. Otherwise, if `tail` cannot fit `n`, `tail` moves one
   page forward (reusing an existing next page, creating one only at the end
   of the chain), and the chunk is taken at `tail->pos`.
   */
  function Alloc(a: PagedArena, n: nat): (r: (PagedArena, Option<PageAddr>))
    requires Valid(a)
    ensures Valid(r.0) && r.0.pageSize == a.pageSize
    ensures r.1.None? <==> n > a.pageSize
    ensures r.1.None? ==> r.0 == a
    ensures n <= Room(a) ==>
      r.1 == Some(PageAddr(a.tail, a.pages[a.tail].pos)) && r.0.tail == a.tail
    ensures Room(a) < n <= a.pageSize ==>
      r.1 == Some(PageAddr(a.tail + 1, 0)) && r.0.tail == a.tail + 1
    ensures r.1.Some? ==>
      r.1.value.page == r.0.tail && r.0.pages[r.0.tail].pos == r.1.value.offset + n
    ensures |a.pages| <= |r.0.pages| <= |a.pages| + 1
    ensures |r.0.pages| == |a.pages| + 1 <==>
      Room(a) < n <= a.pageSize && a.tail == |a.pages| - 1
    ensures forall i :: 0 <= i < |a.pages| && i != r.0.tail ==> r.0.pages[i] == a.pages[i]
  {
    if n > a.pageSize then
      (a, None)
    else if Room(a) < n then
      var chain := if a.tail + 1 == |a.pages| then a.pages + [NewPage()] else a.pages;
      var t := a.tail + 1;
      var at := chain[t].pos;
      (a.(pages := chain[t := Page(at + n)], tail := t), Some(PageAddr(t, at)))
    else
      var at := a.pages[a.tail].pos;
      (a.(pages := a.pages[a.tail := Page(at + n)]), Some(PageAddr(a.tail, at)))
  }

  /** The loop of `paged_arena__reset`: every page of the chain, unoccupied. */
  function ResetAll(pages: seq<Page>): (r: seq<Page>)
    ensures |r| == |pages|
    ensures forall i :: 0 <= i < |r| ==> r[i].pos == 0
  {
    if |pages| == 0 then [] else [ResetPage(pages[0])] + ResetAll(pages[1..])
  }

  /** `paged_arena__reset` (soft): every page emptied, `tail` back at `head`, the chain kept. */
  function Reset(a: PagedArena): (r: PagedArena)
    requires WellFormed(a)
    ensures Valid(r) && r.pageSize == a.pageSize
    ensures |r.pages| == |a.pages| && r.tail == 0
    ensures forall i :: 0 <= i < |r.pages| ==> r.pages[i].pos == 0
  {
    PagedArena(a.pageSize, ResetAll(a.pages), 0)
  }

  /** `paged_arena__hard_reset`: every page after `head` released; `head` emptied and alone. */
  function HardReset(a: PagedArena): (r: PagedArena)
    requires WellFormed(a)
    ensures Valid(r) && r.pageSize == a.pageSize
    ensures |r.pages| == 1 && r.tail == 0 && r.pages[0].pos == 0
  {
    PagedArena(a.pageSize, [ResetPage(a.pages[0])], 0)
  }

  /** The point where the next chunk will start at the earliest. */
  function Frontier(a: PagedArena): PageAddr
    requires WellFormed(a)
  {
    PageAddr(a.tail, a.pages[a.tail].pos)
  }

  /** `p` comes no later than `q` in chain order. */
  predicate NoLater(p: PageAddr, q: PageAddr) {
    p.page < q.page || (p.page == q.page && p.offset <= q.offset)
  }

  /** The arena after each of a run of allocations, and each allocation's result. */
  function AllocAll(a: PagedArena, ns: seq<nat>): (r: (PagedArena, seq<Option<PageAddr>>))
    requires Valid(a)
    ensures Valid(r.0) && r.0.pageSize == a.pageSize
    ensures |r.1| == |ns|
    decreases |ns|
  {
    if |ns| == 0 then
      (a, [])
    else
      var (a1, p) := Alloc(a, ns[0]);
      var (a2, ps) := AllocAll(a1, ns[1..]);
      (a2, [p] + ps)
  }

  /** Where a chunk of `n` bytes at `p` ends. */
  function End(p: PageAddr, n: nat): PageAddr {
    PageAddr(p.page, p.offset + n)
  }

  /** One allocation: its chunk lies between the frontier before and the frontier after. */
  lemma AllocForward(a: PagedArena, n: nat)
    requires Valid(a)
    ensures var (b, p) := Alloc(a, n);
      && NoLater(Frontier(a), Frontier(b))
      && (p.Some? ==>
            && NoLater(Frontier(a), p.value)
            && p.value.offset + n <= a.pageSize
            && End(p.value, n) == Frontier(b))
  {
  }

  /**
   Allocation only moves forward: every chunk of a run of allocations starts
   at or after the frontier the run began at (so no page before `tail` is
   ever back-filled, and `tail` never moves backwards), fits in its page, and
   ends at or before the frontier the run ended at.
   */
  lemma {:induction false} AllocAllWithin(a: PagedArena, ns: seq<nat>)
    requires Valid(a)
    ensures var (b, ps) := AllocAll(a, ns);
      && NoLater(Frontier(a), Frontier(b))
      && (forall i :: 0 <= i < |ns| && ps[i].Some? ==>
            && NoLater(Frontier(a), ps[i].value)
            && ps[i].value.offset + ns[i] <= a.pageSize
            && NoLater(End(ps[i].value, ns[i]), Frontier(b)))
    decreases |ns|
  {
    if |ns| > 0 {
      var (a1, p) := Alloc(a, ns[0]);
      AllocForward(a, ns[0]);
      AllocAllWithin(a1, ns[1..]);
      var (b, ps) := AllocAll(a, ns);
      var (b1, rest) := AllocAll(a1, ns[1..]);
      assert b1 == b && ps == [p] + rest;
      forall i | 0 <= i < |ns| && ps[i].Some?
        ensures NoLater(Frontier(a), ps[i].value)
        ensures ps[i].value.offset + ns[i] <= a.pageSize
        ensures NoLater(End(ps[i].value, ns[i]), Frontier(b))
      {
        if i > 0 {
          assert ps[i] == rest[i - 1] && ns[i] == ns[1..][i - 1];
          assert NoLater(Frontier(a1), ps[i].value);
        }
      }
    }
  }

  /**
   Each chunk of a run starts no earlier than every earlier chunk of the run
   ends, so the chunks never overlap.
   */
  lemma {:induction false} AllocAllOrdered(a: PagedArena, ns: seq<nat>)
    requires Valid(a)
    ensures var (_, ps) := AllocAll(a, ns);
      forall i, j :: 0 <= i < j < |ns| && ps[i].Some? && ps[j].Some? ==>
        NoLater(End(ps[i].value, ns[i]), ps[j].value)
    decreases |ns|
  {
    if |ns| > 0 {
      var (a1, p) := Alloc(a, ns[0]);
      AllocForward(a, ns[0]);
      AllocAllWithin(a1, ns[1..]);
      AllocAllOrdered(a1, ns[1..]);
      var (_, ps) := AllocAll(a, ns);
      var (_, rest) := AllocAll(a1, ns[1..]);
      assert ps == [p] + rest;
      forall j | 0 < j < |ns| && p.Some? && ps[j].Some?
        ensures NoLater(End(p.value, ns[0]), ps[j].value)
      {
        assert ps[j] == rest[j - 1];
        assert NoLater(Frontier(a1), rest[j - 1].value);
      }
      forall i, j | 0 < i < j < |ns| && ps[i].Some? && ps[j].Some?
        ensures NoLater(End(ps[i].value, ns[i]), ps[j].value)
      {
        assert ps[i] == rest[i - 1] && ps[j] == rest[j - 1];
        assert ns[i] == ns[1..][i - 1];
      }
    }
  }

  /** The bytes in use over the whole chain, the sum of every page's `pos`. */
  function Used(pages: seq<Page>): nat
  {
    if |pages| == 0 then 0 else Used(pages[..|pages| - 1]) + pages[|pages| - 1].pos
  }

  /** Average utilization as the mean fill: bytes in use over bytes in the chain. */
  ghost function MeanUtil(a: PagedArena): real
    requires WellFormed(a) && a.pageSize > 0
  {
    (Used(a.pages) as real) / ((a.pageSize * |a.pages|) as real)
  }

  /** No page holds more than a page, so the chain holds at most `page_size` per page. */
  lemma {:induction false} UsedBound(pages: seq<Page>, pageSize: nat)
    requires forall i :: 0 <= i < |pages| ==> pages[i].pos <= pageSize
    ensures Used(pages) <= pageSize * |pages|
    decreases |pages|
  {
    if |pages| > 0 {
      UsedBound(pages[..|pages| - 1], pageSize);
    }
  }

  /** The utilization of a reachable arena is a fraction between 0 and 1. */
  lemma MeanUtilBounds(a: PagedArena)
    requires Valid(a) && a.pageSize > 0
    ensures 0.0 <= MeanUtil(a) <= 1.0
  {
    UsedBound(a.pages, a.pageSize);
    FractionInUnit(Used(a.pages) as real, (a.pageSize * |a.pages|) as real);
  }

  lemma FractionInUnit(x: real, d: real)
    requires 0.0 <= x <= d && d > 0.0
    ensures 0.0 <= x / d <= 1.0
  {
    var q := x / d;
    assert q * d == x;
  }

  /**
   `paged_arena__avg_util`: the loop over the chain summing `pos / page_size`,
   then divided by the page count; in exact arithmetic it is the mean fill.
   */
  method AvgUtil(a: PagedArena) returns (u: real)
    requires WellFormed(a) && a.pageSize > 0
    ensures u == MeanUtil(a)
  {
    var ps := a.pageSize as real;
    var sum := 0.0;
    var len := 0;
    while len < |a.pages|
      invariant len <= |a.pages|
      invariant sum == (Used(a.pages[..len]) as real) / ps
    {
      UsedPrefix(a.pages, len);
      SumOfQuotients(Used(a.pages[..len]) as real, a.pages[len].pos as real, ps);
      sum := sum + (a.pages[len].pos as real) / ps;
      len := len + 1;
    }
    assert a.pages[..len] == a.pages;
    MeanUtilAsQuotients(a);
    u := sum / (len as real);
  }

  lemma UsedPrefix(pages: seq<Page>, i: nat)
    requires i < |pages|
    ensures Used(pages[..i + 1]) == Used(pages[..i]) + pages[i].pos
  {
    assert pages[..i + 1][..i] == pages[..i];
  }

  lemma MeanUtilAsQuotients(a: PagedArena)
    requires WellFormed(a) && a.pageSize > 0
    ensures MeanUtil(a) == ((Used(a.pages) as real) / (a.pageSize as real)) / (|a.pages| as real)
  {
    var d, k := a.pageSize as real, |a.pages| as real;
    assert (a.pageSize * |a.pages|) as real == d * k;
    QuotientOfQuotient(Used(a.pages) as real, d, k);
  }

  lemma SumOfQuotients(x: real, y: real, d: real)
    requires d > 0.0
    ensures x / d + y / d == (x + y) / d
  {
  }

  lemma QuotientOfQuotient(x: real, d: real, k: real)
    requires d > 0.0 && k > 0.0
    ensures (x / d) / k == x / (d * k)
  {
  }

  /**
   The library's scenario on a 10-byte page: one allocation of 5 bytes gives
   a utilization of one half; a soft reset keeps the single page and empties
   it, and so does a hard reset.
   */
  lemma TenBytePageScenario()
    ensures var (a, p) := Alloc(New(10), 5);
      && p == Some(PageAddr(0, 0))
      && MeanUtil(a) == 0.5
      && Reset(a).tail == 0 && |Reset(a).pages| == 1 && Reset(a).pages[0].pos == 0
      && |HardReset(a).pages| == 1 && HardReset(a).pages[0].pos == 0
  {
    var (a, p) := Alloc(New(10), 5);
    assert a.pages == [Page(5)];
    assert Used(a.pages) == Used([]) + 5;
  }

  /**
   The demo's scenario on a 40-byte page: a 40-byte request succeeds and a
   64-byte request is refused with NULL.
   */
  lemma PageCeilingScenario()
    ensures var (a, p) := Alloc(New(40), 40);
      && p.Some?
      && Alloc(a, 64).1.None?
  {
  }
}
