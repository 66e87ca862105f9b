/**
 The owned sized buffer (`SizedMemory` in sized_memory.h): one host
 allocation holding a header (`ptr`, `size`) and `size` payload bytes, with
 `ptr` naming the payload. It converts to a `Box` view by aliasing and from
 a `Box` by copying.
 */
module SizedMemories {
  import opened Memory
  import opened Boxes

  datatype SizedMemory = SizedMemory(ptr: Addr, size: nat)

  /** The payload is `size` live bytes at `ptr`. */
  predicate Backed(h: Heap, sm: SizedMemory) {
    InBounds(h, sm.ptr, sm.size)
  }

  function Payload(h: Heap, sm: SizedMemory): (bytes: seq<byte>)
    requires Backed(h, sm)
    ensures |bytes| == sm.size
  {
    Read(h, sm.ptr, sm.size)
  }

  /** The bytes a box views. */
  function Viewed(h: Heap, b: Box): (bytes: seq<byte>)
    requires InBounds(h, b.ptr, b.size)
    ensures |bytes| == b.size
  {
    Read(h, b.ptr, b.size)
  }

  /** `sized_memory__new(n)`: one fresh allocation, `ptr` at the start of its payload. */
  function New(h: Heap, n: nat): (r: (Heap, SizedMemory))
    ensures r.1.size == n && r.1.ptr.offset == 0
    ensures Backed(r.0, r.1) && |r.0.regions[r.1.ptr.region]| == n
    ensures !IsLive(h, r.1.ptr.region) && Extends(h, r.0)
  {
    var (h1, region) := Acquire(h, n);
    (h1, SizedMemory(Addr(region, 0), n))
  }

  /**
   `sized_memory__clone`: a new buffer of the same size whose payload is a
   byte copy of the original's, at a different address.
   */
  function Clone(h: Heap, sm: SizedMemory): (r: (Heap, SizedMemory))
    requires Backed(h, sm)
    ensures r.1.size == sm.size && Backed(r.0, r.1)
    ensures Payload(r.0, r.1) == Payload(h, sm)
    ensures !IsLive(h, r.1.ptr.region) && r.1.ptr.region != sm.ptr.region
    ensures Extends(h, r.0)
  {
    var (h1, other) := New(h, sm.size);
    (Copy(h1, other.ptr, sm.ptr, sm.size), other)
  }

  /** `sized_memory__as_box`: a view of the payload, with no copy. */
  function AsBox(sm: SizedMemory): Box
  {
    Box(sm.ptr, sm.size)
  }

  /** `sized_memory__from_box`: a new buffer holding a copy of the `size` bytes the box views. */
  function FromBox(h: Heap, b: Box): (r: (Heap, SizedMemory))
    requires InBounds(h, b.ptr, b.size)
    ensures r.1.size == b.size && Backed(r.0, r.1)
    ensures Payload(r.0, r.1) == Viewed(h, b)
    ensures !IsLive(h, r.1.ptr.region) && r.1.ptr.region != b.ptr.region
    ensures Extends(h, r.0)
  {
    var (h1, made) := New(h, b.size);
    (Copy(h1, made.ptr, b.ptr, b.size), made)
  }

  /**
   `as_box` aliases: the box views exactly the payload, and bytes stored
   through the box are what the buffer then holds.
   */
  lemma AsBoxAliases(h: Heap, sm: SizedMemory, data: seq<byte>)
    requires Backed(h, sm) && |data| == sm.size
    ensures Viewed(h, AsBox(sm)) == Payload(h, sm)
    ensures Backed(Write(h, AsBox(sm).ptr, data), sm)
    ensures Payload(Write(h, AsBox(sm).ptr, data), sm) == data
  {
    ReadAfterWrite(h, sm.ptr, data);
  }

  /**
   Round trip through a box: the buffer built from the view of `sm` has the
   same size and the same bytes as `sm`, at a new address.
   */
  lemma FromBoxAsBox(h: Heap, sm: SizedMemory)
    requires Backed(h, sm)
    ensures var (h1, copy) := FromBox(h, AsBox(sm));
      && copy.size == sm.size
      && Backed(h1, copy) && Backed(h1, sm)
      && Payload(h1, copy) == Payload(h1, sm) == Payload(h, sm)
      && copy.ptr.region != sm.ptr.region
  {
  }

  /**
   The copies of `clone` and `from_box` are independent: storing bytes in
   the new buffer leaves the source bytes as they were.
   */
  lemma CopiesAreIndependent(h: Heap, sm: SizedMemory, b: Box, data: seq<byte>)
    requires Backed(h, sm) && InBounds(h, b.ptr, b.size)
    requires |data| == sm.size && |data| == b.size
    ensures var (h1, c) := Clone(h, sm);
      && Backed(Write(h1, c.ptr, data), sm)
      && Payload(Write(h1, c.ptr, data), sm) == Payload(h, sm)
    ensures var (h2, f) := FromBox(h, b);
      && InBounds(Write(h2, f.ptr, data), b.ptr, b.size)
      && Viewed(Write(h2, f.ptr, data), b) == Viewed(h, b)
  {
    var (h1, c) := Clone(h, sm);
    WriteElsewhere(h1, c.ptr, data, sm.ptr, sm.size);
    var (h2, f) := FromBox(h, b);
    WriteElsewhere(h2, f.ptr, data, b.ptr, b.size);
  }
}
