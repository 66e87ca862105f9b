/**
 Host memory as the arenas see it.

 Every call of the host allocator (`_M_alloc`, by default `malloc`) yields a
 region of bytes. A region is identified by its index, and indices are never
 reused, so a freshly acquired region has an address distinct from every
 object allocated before it. Releasing memory (`_M_free`) is not modelled:
 reclamation is not observable here, and no object is used after release.
 */
module Memory {

  /** One byte of host memory (`uint8_t`). */
  newtype byte = x: int | 0 <= x < 256

  /** An address: a region handed out by the host allocator and an offset into it. */
  datatype Addr = Addr(region: nat, offset: nat)

  /** All regions handed out so far, in allocation order. */
  datatype Heap = Heap(regions: seq<seq<byte>>)

  predicate IsLive(h: Heap, region: nat) {
    region < |h.regions|
  }

  /** The `n` bytes starting at `p` lie inside one live region. */
  predicate InBounds(h: Heap, p: Addr, n: nat) {
    p.region < |h.regions| && p.offset + n <= |h.regions[p.region]|
  }

  /** `h2` agrees with `h1` on every region of `h1` (and may have more). */
  predicate Extends(h1: Heap, h2: Heap) {
    && |h1.regions| <= |h2.regions|
    && forall r :: 0 <= r < |h1.regions| ==> h2.regions[r] == h1.regions[r]
  }

  /**
   The host allocator: a new region of `n` bytes, distinct from every live one.
   The C allocator leaves the bytes indeterminate; they are zero here. No code
   path of the library checks for a NULL result, so allocation never fails.
   */
  function Acquire(h: Heap, n: nat): (r: (Heap, nat))
    ensures !IsLive(h, r.1) && IsLive(r.0, r.1)
    ensures |r.0.regions[r.1]| == n
    ensures Extends(h, r.0) && |r.0.regions| == |h.regions| + 1
  {
    (Heap(h.regions + [seq(n, _ => 0)]), |h.regions|)
  }

  /** The `n` bytes at `p`. */
  function Read(h: Heap, p: Addr, n: nat): (bytes: seq<byte>)
    requires InBounds(h, p, n)
    ensures |bytes| == n
  {
    h.regions[p.region][p.offset .. p.offset + n]
  }

  /** Stores `data` at `p`; nothing outside those `|data|` bytes changes. */
  function Write(h: Heap, p: Addr, data: seq<byte>): (h2: Heap)
    requires InBounds(h, p, |data|)
    ensures |h2.regions| == |h.regions|
    ensures forall r :: 0 <= r < |h.regions| && r != p.region ==> h2.regions[r] == h.regions[r]
    ensures |h2.regions[p.region]| == |h.regions[p.region]|
    ensures forall i :: 0 <= i < |h.regions[p.region]| ==>
      h2.regions[p.region][i] ==
        if p.offset <= i < p.offset + |data| then data[i - p.offset] else h.regions[p.region][i]
  {
    var bytes := h.regions[p.region];
    Heap(h.regions[p.region := bytes[..p.offset] + data + bytes[p.offset + |data|..]])
  }

  /** The ranges `[p, p + n)` and `[q, q + n)` share no byte. */
  predicate Disjoint(p: Addr, q: Addr, n: nat) {
    p.region != q.region || p.offset + n <= q.offset || q.offset + n <= p.offset
  }

  /**
   `memcpy(dst, src, n)`: afterwards `dst` holds what `src` held. The ranges
   must not overlap; `memcpy` leaves an overlapping copy undefined.
   */
  function Copy(h: Heap, dst: Addr, src: Addr, n: nat): (h2: Heap)
    requires InBounds(h, src, n) && InBounds(h, dst, n) && Disjoint(dst, src, n)
    ensures |h2.regions| == |h.regions|
    ensures forall r :: 0 <= r < |h.regions| && r != dst.region ==> h2.regions[r] == h.regions[r]
    ensures |h2.regions[dst.region]| == |h.regions[dst.region]|
    ensures InBounds(h2, dst, n) && Read(h2, dst, n) == Read(h, src, n)
  {
    var data := Read(h, src, n);
    var h2 := Write(h, dst, data);
    assert Read(h2, dst, n) == data by {
      forall k | 0 <= k < n
        ensures Read(h2, dst, n)[k] == data[k]
      {
        assert Read(h2, dst, n)[k] == h2.regions[dst.region][dst.offset + k];
      }
    }
    h2
  }

  /** A write reads back: the bytes at `p` are exactly the bytes stored there. */
  lemma ReadAfterWrite(h: Heap, p: Addr, data: seq<byte>)
    requires InBounds(h, p, |data|)
    ensures InBounds(Write(h, p, data), p, |data|)
    ensures Read(Write(h, p, data), p, |data|) == data
  {
    var h2 := Write(h, p, data);
    forall k | 0 <= k < |data|
      ensures Read(h2, p, |data|)[k] == data[k]
    {
      assert Read(h2, p, |data|)[k] == h2.regions[p.region][p.offset + k];
    }
  }

  /** A write does not disturb any byte range it does not overlap. */
  lemma WriteElsewhere(h: Heap, p: Addr, data: seq<byte>, q: Addr, n: nat)
    requires InBounds(h, p, |data|) && InBounds(h, q, n)
    requires q.region != p.region || q.offset + n <= p.offset || p.offset + |data| <= q.offset
    ensures InBounds(Write(h, p, data), q, n)
    ensures Read(Write(h, p, data), q, n) == Read(h, q, n)
  {
    var h2 := Write(h, p, data);
    if q.region == p.region {
      forall k | 0 <= k < n
        ensures Read(h2, q, n)[k] == Read(h, q, n)[k]
      {
        assert Read(h2, q, n)[k] == h2.regions[q.region][q.offset + k];
      }
    }
  }
}
