/** The `Box` record of box.h: a non-owning (pointer, length) view of memory. */
module Boxes {
  import opened Memory

  datatype Box = Box(ptr: Addr, size: nat)
}
