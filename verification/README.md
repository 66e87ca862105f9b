# CCMS arenas in Dafny

A model of the region allocators of CCMS, a header-only C library of memory
structures, together with the owned sized buffer built beside them and the
size macros:

- the **static arena** (`st_arena_t` in `include/ccms/arena/static.h`,
  `StaticArena` in `include/ccms/arenas/static.h`): a bump allocator over one
  region with a write cursor (`StaticArenas`, static_arena.dfy);
- the **paged arena** (`PagedArena`, `include/ccms/arena/paged.h` and
  `include/ccms/arenas/paged.h`): a chain of equal-size pages, each with its
  own `pos` cursor, reused across soft resets (`PagedArenas`, paged_arena.dfy);
- the **dynamic arena** (`DynamicArena`, `include/ccms/arena/dynamic.h` and
  `include/ccms/arenas/dynamic.h`): an append-only chain of blocks of exactly
  the requested sizes (`DynamicArenas`, dynamic_arena.dfy);
- **SizedMemory** (`include/ccms/sized_memory.h`): a header-plus-payload
  buffer, convertible to a `Box` view by aliasing and from one by copying
  (`SizedMemories`, sized_memory.dfy);
- the **size macros** of `include/ccms/_macros.h` (`Macros`, macros.dfy).

The `arena/` and `arenas/` directories hold two copies of each arena with
the same logic under different spellings (`st_arena__*` and
`static_arena__*`; `__CCMS__INLINE` and `extern inline`/`static inline`).
Each arena has one model, and it matches both files operation for operation:

| operation | arena/ | arenas/ |
|---|---|---|
| static new / clone / cap / reset / alloc | static.h:45-53, 60-69, 71-75, 77-80, 82-98 | static.h:25-33, 37-46, 48-51, 53-55, 57-73 |
| paged page new / page reset | paged.h:87-97, 119-122 | paged.h:25-34, 40-42 |
| paged new / reset / hard reset / alloc / avg util | paged.h:157-165, 193-199, 212-224, 242-277, 291-300 | paged.h:49-56, 66-71, 73-84, 86-109, 111-119 |
| dynamic block new / block clone | dynamic.h:79-89, 114-122 | dynamic.h:22-31, 37-44 |
| dynamic new / reset / alloc | dynamic.h:148-155, 164-172, 197-208 | dynamic.h:50-56, 58-65, 72-83 |

### How the model is built

- **Host memory** (`Memory.Heap`) is the list of regions the host allocator
  has handed out. A region's index is its identity and indices are never
  reused, so a fresh allocation is distinct from everything allocated
  before it. `Acquire` is `_M_alloc`; `Read`, `Write` and `Copy` (`memcpy`,
  on ranges that do not overlap) work on byte ranges. An address is a region
  and an offset.
- **Static arena**: the value holds the header fields (its region, `size`,
  and the cursor, the writehead's distance from the payload start); the
  payload bytes are the heap region. `Cap` keeps the C formula, in which the
  header size appears on both sides and cancels.
- **Paged arena**: a value with `page_size`, the chain as a sequence of
  pages (`pages[0]` is `head`, `pages[i + 1]` is `pages[i]->next`) and
  `tail` as an index. A chunk's address is a page index and an offset.
  `WellFormed` is the chain's shape (a head exists, `tail` is in the chain);
  `Valid` adds the numeric invariant (every `pos <= page_size`, every page
  after `tail` empty) that every operation keeps and that keeps the
  `size_t` subtraction `page_size - tail->pos` from wrapping.
- **Dynamic arena**: `head` and `tail` are kept as in the C struct, next to
  the chain of block headers (`size`, `next`); each block's payload is its
  own heap region.
- **Box** (`Boxes.Box`) is the (pointer, length) record of box.h.
- Each operation is a pure function from the old state (and heap) to the
  new one and its result; a NULL result is `None`.

### Where the sources and the model part ways

- The doc comment of `sized_memory__clone` (include/ccms/sized_memory.h:80-86)
  says the clone has "the same pointer"; the code allocates a new buffer and
  copies the bytes. The model follows the code: `SizedMemories.Clone` has a
  different address and equal bytes.
- test/test__arenas__static.c:41 expects 6 bytes left after allocating 5 of
  a 10-byte arena. The code leaves 5 (`StaticArenas.TenByteScenario`), so
  that assertion cannot hold (`StaticArenas.SixBytesAssertionFails`); the
  other static test file expects 5 (test/test__arena__static.c:90).
- test/test__arena__static.c includes `ccms/arena/static.h` but calls the
  `static_arena__*` names, which only `ccms/arenas/static.h` defines; its
  expected values are used as evidence for both copies.

## Model

| member | source | states |
|---|---|---|
| Memory.Acquire | include/ccms/_macros.h:14-16 | the host allocator yields a region of the requested length, distinct from every live region, and leaves every existing region as it was |
| StaticArenas.New | include/ccms/arena/static.h:45-53 | a fresh arena has the requested size, cursor at the payload start so the capacity is the whole size, and a region no other object uses |
| StaticArenas.Cap | include/ccms/arena/static.h:71-75 | the C formula (size plus header) minus (writehead minus base) equals size minus cursor, never more than the size; on a valid arena it does not wrap |
| StaticArenas.Alloc | include/ccms/arena/static.h:82-98 | NULL exactly when the capacity is below the request, and then the arena is unchanged; otherwise the chunk at the old cursor, inside the payload, and the capacity drops by exactly the request; the invariant cursor <= size is kept |
| StaticArenas.Reset | include/ccms/arena/static.h:77-80 | the capacity is the whole size again; region and size are kept, and the payload bytes are not touched |
| StaticArenas.Clone | include/ccms/arena/static.h:60-69 | a new arena in a new region with the same size, the same cursor offset and so the same capacity, and a byte-equal payload; no existing region changes |
| StaticArenas.CloneIsIndependent | include/ccms/arenas/static.h:37-46 | storing bytes into the clone leaves the original's payload as it was, and storing into the original leaves the clone's payload as it was |
| StaticArenas.AllocAllDisjoint | include/ccms/arena/static.h:94-97 | over any run of allocations between resets, every chunk handed out lies in the arena's region inside [0, size), and each chunk starts at or after the end of every earlier one, so chunks never overlap |
| StaticArenas.TenByteScenario | include/ccms/arena/static.h:45-98 | on a 10-byte arena: capacity 10, then 5 after allocating 5 (the values test/test__arena__static.c:58-93 checks), a request of 6 refused with the capacity still 5, and 10 after a reset |
| StaticArenas.SixBytesAssertionFails | test/test__arenas__static.c:37-42 | after allocating 5 bytes of a 10-byte arena the capacity is not 6 |
| PagedArenas.New | include/ccms/arena/paged.h:157-165 | one empty page that is both head and tail, with the given page size, satisfying the arena invariant |
| PagedArenas.Room | include/ccms/arena/paged.h:258 | on a valid arena the free room of the tail page is page_size minus pos with no wrap-around, at most one page |
| PagedArenas.Alloc | include/ccms/arena/paged.h:242-277 | NULL exactly when the request exceeds the page size, and then nothing changes; if the tail page fits the request the chunk is at its pos, otherwise tail moves exactly one page forward and the chunk is at offset 0 there; the chosen page's pos grows by the request; a page is added only when tail was the last page and the request did not fit, so the chain grows by at most one page; no page but the final tail changes; the invariant is kept |
| PagedArenas.ResetAll | include/ccms/arena/paged.h:194-196 | the reset loop leaves as many pages as it found, every one with pos 0 |
| PagedArenas.Reset | include/ccms/arena/paged.h:193-199 | soft reset: same page count and page size, every pos 0, tail back at head; the invariant holds |
| PagedArenas.HardReset | include/ccms/arena/paged.h:212-224 | only the head page is left, with pos 0, no next page, and tail at head; the page size is kept |
| PagedArenas.AllocAllWithin | include/ccms/arenas/paged.h:97-106 | over any run of allocations, every chunk starts at or after the starting frontier (tail, tail->pos), so no page before tail is back-filled; each fits in its page and ends at or before the final frontier, which is itself no earlier than the starting one, so tail never moves backwards |
| PagedArenas.AllocAllOrdered | include/ccms/arenas/paged.h:97-106 | over any run of allocations, every chunk starts at or after the end of every earlier chunk of the run, so chunks never overlap |
| PagedArenas.MeanUtilBounds | include/ccms/arena/paged.h:291-300 | the utilization of a valid arena is a fraction between 0 and 1 |
| PagedArenas.AvgUtil | include/ccms/arenas/paged.h:111-119 | the loop summing pos / page_size over the chain and dividing by the page count yields, in exact arithmetic, the bytes in use over the bytes in the chain |
| PagedArenas.TenBytePageScenario | test/test__arena__paged.c:76-128 | on 10-byte pages, allocating 5 returns the head page at offset 0 and gives utilization 1/2; both resets leave one empty page |
| PagedArenas.PageCeilingScenario | examples/main.c:26-35 | on 40-byte pages a 40-byte request succeeds and a following 64-byte request returns NULL |
| DynamicArenas.NewBlock | include/ccms/arena/dynamic.h:79-89 | a fresh block of exactly the requested size, linked to the given next block, in a new region |
| DynamicArenas.CloneBlock | include/ccms/arena/dynamic.h:114-122 | a new block in a new region with the same size, a byte-equal payload, and the same next link as the original (a shallow copy) |
| DynamicArenas.New | include/ccms/arena/dynamic.h:148-155 | an empty chain with head and tail both NULL, satisfying the chain invariant |
| DynamicArenas.Append | include/ccms/arena/dynamic.h:201-205 | the new block is linked as the old tail's next when there is a tail and becomes head otherwise, then becomes tail; earlier blocks keep their regions and sizes, and the chain invariant is kept |
| DynamicArenas.Alloc | include/ccms/arena/dynamic.h:197-208 | always succeeds; the chain's sizes become the old sizes followed by the request, earlier blocks keep their place; tail becomes the new block, head becomes it only if the chain was empty; the result is the new block's payload in a fresh region; head is NULL exactly when tail is |
| DynamicArenas.Reset | include/ccms/arena/dynamic.h:164-172 | the chain is empty with head and tail NULL, satisfying the chain invariant |
| DynamicArenas.AllocIsDisjoint | include/ccms/arenas/dynamic.h:72-83 | the new block's payload shares no region with any block already in the chain |
| DynamicArenas.ResetThenAlloc | include/ccms/arenas/dynamic.h:58-65 | after a reset, the next allocation starts a one-block chain whose head and tail are the new block |
| DynamicArenas.TwoBlockScenario | include/ccms/arena/dynamic.h:148-208 | on a fresh arena, allocating 10 bytes (the request test/test__arena__dynamic.c:90-100 makes) then 20 gives the chain [10, 20] in insertion order, linked head to tail, and a reset empties it |
| SizedMemories.New | include/ccms/sized_memory.h:54-63 | the buffer has the requested size and its pointer starts a payload of that many bytes in a new region |
| SizedMemories.Clone | include/ccms/sized_memory.h:88-95 | a new buffer at a different address with the same size and a byte-equal payload |
| SizedMemories.FromBox | include/ccms/sized_memory.h:125-132 | a new buffer at a different address whose size is the box's and whose payload equals the bytes the box views |
| SizedMemories.AsBoxAliases | include/ccms/sized_memory.h:109-112 | the box from as_box views exactly the buffer's payload, and bytes stored through the box are what the buffer then holds (no copy) |
| SizedMemories.FromBoxAsBox | include/ccms/sized_memory.h:110-132 | from_box of as_box of a buffer has the same size and bytes as the buffer, at a new address |
| SizedMemories.CopiesAreIndependent | include/ccms/sized_memory.h:89-95 | storing bytes into a clone, or into a buffer built from a box, leaves the source bytes unchanged |
| Macros.BinaryUnits | include/ccms/_macros.h:27-30 | KiB, MiB, GiB and TiB multiply by 2^10, 2^20, 2^30 and 2^40 |
| Macros.DecimalUnits | include/ccms/_macros.h:32-35 | KB, MB, GB and TB multiply by 10^3, 10^6, 10^9 and 10^12 |
| Macros.NewIsArrayOfOne | include/ccms/_macros.h:22-23 | `_M_new(T)` requests sizeof(T) bytes; it is the one-element case of `_M_new_arr`, as written and corrected alike |
| Macros.NewArrRequestProductsOnly | include/ccms/_macros.h:23 | as written, `_M_new_arr(T, len)` requests sizeof(T) times the value of len whenever every operator of len outside parentheses is `*`; the argument grammar covers `+`, `-`, `*`, `/`, `%` and `?:` with truncating division, and `Macros.Parsed` gives C's precedence and grouping |
| Macros.NewArrRequestParses | include/ccms/_macros.h:23 | the as-written request tree is what C builds from the text `sizeof(T) * len`: for every argument C can parse, the splice is again a C parse tree, with the argument's top operator on top (or `*` when the argument is a single token or parenthesised) |
| Macros.NewArrRequestSplitsLeftOperand | include/ccms/_macros.h:23 | as written, for every argument `a op b` whose `a` is a product and every operator, the request is `(sizeof(T) * a) op b`; for `+` that is `sizeof(T) * a + b` instead of `sizeof(T) * (a + b)` |
| Macros.NewArrRequestSplitCounterexamples | include/ccms/_macros.h:23 | as written, with sizeof(T) 4, `_M_new_arr(T, 2 + 3)` requests 11 bytes where the parenthesised form requests 20, and `_M_new_arr(T, 6 / 4)` requests 6 where it requests 4 |
| Macros.NewArrRequestFixed | include/ccms/_macros.h:23 | with len parenthesised the request is sizeof(T) times the value of len for every len, and has no value exactly when len divides by zero; it is a C parse tree whenever len is |

## Left out

- Releasing memory: `st_arena__free`, `paged_arena__free`, `_paged_arena_page__free`, `dynamic_arena__free`, `_dynamic_arena_block__free`, `sized_memory__free`. Reclamation is not observable in the model; a freed object is simply never used again. `DynamicArenas.Reset` covers the state `dynamic_arena__free` passes through before releasing the header.
- Host allocation failure: no code path checks `_M_alloc` for NULL, so `Memory.Acquire` always succeeds; the override hook (`_M_alloc`/`_M_free` redefined, as examples/main.c does) only changes where memory comes from.
- Fresh memory contents: `malloc` leaves them indeterminate; `Memory.Acquire` fills them with zeros. No property depends on those bytes.
- Header/payload layout and pointer arithmetic: each payload sits at offset 0 of its own region, and `sizeof(header) + size` is computed in unbounded integers (no `size_t` overflow of the allocation request).
- Warnings printed to stderr when a static or paged allocation is refused: output only.
- Floating point in `paged_arena__avg_util`: `PagedArenas.AvgUtil` computes with exact reals, and requires a non-zero page size (the C code divides by zero there).
- PagedArenas.NewPage, PagedArenas.ResetPage: the page constructor and page reset are helpers; their effect is stated by `New`, `Alloc`, `ResetAll` and `HardReset`.
- Page bytes of the paged arena: never read by the arena, so pages carry only `pos`.
- `box.h`: modelled only as the `Boxes.Box` record that `as_box`/`from_box` use; `box__ctor` and `box__clone` copy two fields.
- Macros.NewArrRequestProductsOnly: the argument grammar has `+`, `-`, `*`, `/`, `%` and `?:`; shifts, comparisons, bitwise and logical operators, casts and the comma operator inside parentheses are left out. Each of the binary ones binds more loosely than `*`, so it splits like `+`.
- Signed overflow of the size macros for `int` arguments, and the unsigned `size_t` wrap of `sizeof(T) * len` (so of a negative request such as `sizeof(T) * n - 1` with `n == 0`): C typing, not library logic; `Macros` works on unbounded integers.
- Build concerns: the `__CCMS__INLINE` linkage switch of `_defs.h` and the include guards the `arena/` and `arenas/` copies share.
- Concurrency: the library has none.

## Findings

| source | as written | input that shows it | evidently intended | confidence | as-written member | corrected member |
|---|---|---|---|---|---|---|
| include/ccms/_macros.h:23 | `sizeof(T) * len` with `len` not parenthesised | `_M_new_arr(T, 2 + 3)` with `sizeof(T) == 4` requests 4 * 2 + 3 = 11 bytes (and `_M_new_arr(T, 6 / 4)` requests (4 * 6) / 4 = 6) | `sizeof(T) * (len)`, 20 bytes | high; not executed | Macros.NewArrRequestSplitCounterexamples | Macros.NewArrRequestFixed |
