/**
 The dynamic arena (`DynamicArena` in arena/dynamic.h and arenas/dynamic.h;
 both files hold the same logic): an append-only chain of blocks, each one
 host allocation holding exactly the bytes requested.

 A block's header (its size and its `next` link) is the `Block` value; its
 payload is the heap region `region`, so a block is named by its region.
 The arena keeps `head` and `tail` as the C struct does, plus the chain
 itself in index form (`blocks[0]` is the block `head` names, each block's
 `next` names the block after it).
 */
module DynamicArenas {
  import opened Optional
  import opened Memory

  datatype Block = Block(region: nat, size: nat, next: Option<nat>)

  datatype DynamicArena = DynamicArena(head: Option<nat>, tail: Option<nat>, blocks: seq<Block>)

  /** The block's payload is a live region of exactly `size` bytes. */
  predicate BlockBacked(h: Heap, b: Block) {
    b.region < |h.regions| && |h.regions[b.region]| == b.size
  }

  /**
   The chain invariant: `head` and `tail` are NULL together exactly when the
   chain is empty, otherwise they name its first and last block; each block
   links to the next one and the last links to NULL.
   */
  predicate Valid(a: DynamicArena) {
    && (a.head.None? <==> a.tail.None?)
    && (|a.blocks| == 0 <==> a.head.None?)
    && (|a.blocks| > 0 ==>
          && a.head == Some(a.blocks[0].region)
          && a.tail == Some(a.blocks[|a.blocks| - 1].region)
          && a.blocks[|a.blocks| - 1].next.None?)
    && forall i :: 0 <= i < |a.blocks| - 1 ==> a.blocks[i].next == Some(a.blocks[i + 1].region)
  }

  /** Every block is backed by its own live region. */
  predicate Backed(h: Heap, a: DynamicArena) {
    && (forall i :: 0 <= i < |a.blocks| ==> BlockBacked(h, a.blocks[i]))
    && (forall i, j :: 0 <= i < j < |a.blocks| ==> a.blocks[i].region != a.blocks[j].region)
  }

  /** The block sizes in chain order. */
  function Sizes(blocks: seq<Block>): (r: seq<nat>)
    ensures |r| == |blocks|
    ensures forall i :: 0 <= i < |blocks| ==> r[i] == blocks[i].size
  {
    if |blocks| == 0 then [] else [blocks[0].size] + Sizes(blocks[1..])
  }

  /** `_dynamic_arena_block__new(size, next)`: a new block of `size` bytes linked to `next`. */
  function NewBlock(h: Heap, size: nat, next: Option<nat>): (r: (Heap, Block))
    ensures r.1.size == size && r.1.next == next
    ensures BlockBacked(r.0, r.1) && !IsLive(h, r.1.region)
    ensures Extends(h, r.0) && |r.0.regions| == |h.regions| + 1
  {
    var (h1, region) := Acquire(h, size);
    (h1, Block(region, size, next))
  }

  /**
   `_dynamic_arena_block__clone`: a new allocation holding a copy of the
   header and the payload. The `next` link is copied as it is, so the clone
   points into the original's chain (a shallow copy).
   */
  function CloneBlock(h: Heap, b: Block): (r: (Heap, Block))
    requires BlockBacked(h, b)
    ensures r.1.size == b.size && r.1.next == b.next
    ensures BlockBacked(r.0, r.1) && !IsLive(h, r.1.region) && r.1.region != b.region
    ensures Extends(h, r.0)
    ensures r.0.regions[r.1.region] == h.regions[b.region]
  {
    var (h1, c) := NewBlock(h, b.size, b.next);
    var h2 := Copy(h1, Addr(c.region, 0), Addr(b.region, 0), b.size);
    assert Read(h2, Addr(c.region, 0), b.size) == h2.regions[c.region];
    assert Read(h1, Addr(b.region, 0), b.size) == h.regions[b.region];
    (h2, c)
  }

  /** `dynamic_arena__new`: an empty chain. */
  function New(): (a: DynamicArena)
    ensures Valid(a) && a.head.None? && a.tail.None? && |a.blocks| == 0
  {
    DynamicArena(None, None, [])
  }

  /**
   The linking step of `dynamic_arena__alloc`: `nb` becomes `tail->next` when
   there is a tail and `head` otherwise, and then the tail.
   */
  function Append(a: DynamicArena, nb: Block): (r: DynamicArena)
    requires Valid(a) && nb.next.None?
    requires forall i :: 0 <= i < |a.blocks| ==> a.blocks[i].region != nb.region
    ensures Valid(r)
    ensures |r.blocks| == |a.blocks| + 1 && r.blocks[|a.blocks|] == nb
    ensures forall i :: 0 <= i < |a.blocks| ==>
      r.blocks[i].region == a.blocks[i].region && r.blocks[i].size == a.blocks[i].size
    ensures r.tail == Some(nb.region)
    ensures r.head == if a.head.None? then Some(nb.region) else a.head
  {
    if a.tail.Some? then
      var last := |a.blocks| - 1;
      DynamicArena(a.head, Some(nb.region), a.blocks[last := a.blocks[last].(next := Some(nb.region))] + [nb])
    else
      DynamicArena(Some(nb.region), Some(nb.region), [nb])
  }

  /**
   `dynamic_arena__alloc(n)`: a new block of exactly `n` bytes appended at
   the end of the chain; the result is its payload. There is no size ceiling
   and no way to fail.
   */
  function Alloc(h: Heap, a: DynamicArena, n: nat): (r: (Heap, DynamicArena, Addr))
    requires Valid(a) && Backed(h, a)
    ensures Valid(r.1) && Backed(r.0, r.1) && Extends(h, r.0)
    ensures Sizes(r.1.blocks) == Sizes(a.blocks) + [n]
    ensures forall i :: 0 <= i < |a.blocks| ==> r.1.blocks[i].region == a.blocks[i].region
    ensures r.2.offset == 0 && InBounds(r.0, r.2, n) && |r.0.regions[r.2.region]| == n
    ensures !IsLive(h, r.2.region)
    ensures r.1.tail == Some(r.2.region)
    ensures r.1.head == if a.head.None? then Some(r.2.region) else a.head
  {
    var (h1, nb) := NewBlock(h, n, None);
    assert forall i :: 0 <= i < |a.blocks| ==> a.blocks[i].region < |h.regions| <= nb.region;
    var b := Append(a, nb);
    AppendKeepsBacked(h, h1, a, nb, b);
    AppendSizes(a.blocks, b.blocks);
    (h1, b, Addr(nb.region, 0))
  }

  /** Appending a freshly backed block to a backed chain keeps it backed in the grown heap. */
  lemma AppendKeepsBacked(h: Heap, h1: Heap, a: DynamicArena, nb: Block, b: DynamicArena)
    requires Backed(h, a) && Extends(h, h1) && BlockBacked(h1, nb) && !IsLive(h, nb.region)
    requires |b.blocks| == |a.blocks| + 1 && b.blocks[|a.blocks|] == nb
    requires forall i :: 0 <= i < |a.blocks| ==>
      b.blocks[i].region == a.blocks[i].region && b.blocks[i].size == a.blocks[i].size
    ensures Backed(h1, b)
  {
    forall i | 0 <= i < |a.blocks|
      ensures BlockBacked(h1, b.blocks[i]) && b.blocks[i].region < |h.regions|
    {
      assert BlockBacked(h, a.blocks[i]);
    }
  }

  /** A chain one block longer, with the earlier sizes kept, has the sizes one longer. */
  lemma AppendSizes(xs: seq<Block>, ys: seq<Block>)
    requires |ys| == |xs| + 1
    requires forall i :: 0 <= i < |xs| ==> ys[i].size == xs[i].size
    ensures Sizes(ys) == Sizes(xs) + [ys[|xs|].size]
  {
    var l, r := Sizes(ys), Sizes(xs) + [ys[|xs|].size];
    assert |l| == |r|;
    forall i | 0 <= i < |l|
      ensures l[i] == r[i]
    {
      if i < |xs| {
        assert r[i] == Sizes(xs)[i];
      }
    }
  }

  /**
   `dynamic_arena__reset`: every block released, `head` and `tail` NULL.
   `dynamic_arena__free` is this followed by releasing the arena itself.
   */
  function Reset(a: DynamicArena): (r: DynamicArena)
    ensures Valid(r) && r.head.None? && r.tail.None? && |r.blocks| == 0
  {
    DynamicArena(None, None, [])
  }

  /** The new block's payload overlaps no block already in the chain. */
  lemma AllocIsDisjoint(h: Heap, a: DynamicArena, n: nat)
    requires Valid(a) && Backed(h, a)
    ensures var (_, _, p) := Alloc(h, a, n);
      forall i :: 0 <= i < |a.blocks| ==> a.blocks[i].region != p.region
  {
    var (_, _, p) := Alloc(h, a, n);
    forall i | 0 <= i < |a.blocks|
      ensures a.blocks[i].region != p.region
    {
      assert BlockBacked(h, a.blocks[i]);
    }
  }

  /** After a reset the next allocation starts a fresh one-block chain. */
  lemma ResetThenAlloc(h: Heap, a: DynamicArena, n: nat)
    ensures var (_, b, p) := Alloc(h, Reset(a), n);
      && Sizes(b.blocks) == [n]
      && b.head == b.tail == Some(p.region)
  {
  }

  /**
   A run on a fresh arena: allocating 10 bytes (as the dynamic-arena test
   does) and then 20 builds a two-block chain in that order, linked head to
   tail; a reset empties it.
   */
  lemma TwoBlockScenario(h: Heap)
    ensures var (h1, a1, p1) := Alloc(h, New(), 10);
      var (_, a2, p2) := Alloc(h1, a1, 20);
      && Sizes(a2.blocks) == [10, 20]
      && a2.head == Some(p1.region) && a2.tail == Some(p2.region)
      && a2.blocks[0].next == Some(p2.region)
      && Reset(a2).head.None? && Reset(a2).tail.None?
  {
  }
}
