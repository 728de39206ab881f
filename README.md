# mem_allocator-C: a Dafny model of the word-granular first-fit heap allocator

The repository implements `alloc`, a malloc-like allocator over one fixed 1 MB
arena `memspace`. The arena is managed in 4-byte words. Each block starts with a
one-word header that packs three bitfields: a 30-bit size `w`, an `alloced`
flag and a `reserved` bit. `alloc(bytes)` rounds the request up to words. On an
untouched arena (header 0 reads `w == 0`) it takes the block at offset 0
directly. Otherwise it asks `findBlock_` for the first free header with
`w >= words`, walking the header chain from offset 0. `mkalloc` then
bounds-checks the request and marks the header allocated. The pointer handed
back is the word after the header. Failures set `errno` to `ErrNoMem` and
return NULL.

The model has three modules:

- `HeaderCodec` (header.dfy, from main.h): the `Word` type, the `Header`
  datatype, `Encode`/`Decode` between them, the constants `Maxwords`,
  `ArenaWords`, `ErrNoMem` and `ErrUnknown`, and `Result`. A `Result` is either
  a pointer or NULL together with the `errno` code that `reterr` sets.
- `Locator` (locator.dfy, from `findBlock_` in main.c): the scan as a function
  `Locate` of the arena's contents. Beside it are `Trail`, the offsets the scan
  examines, and `FirstFitWalk`, a description of first fit that does not
  depend on the scan. Lemmas show that the scan's result is exactly first fit
  along the header chain.
- `Allocator` (heap.dfy, from `mkalloc` and `alloc` in main.c): the functions
  `MkAllocOn` and `AllocOn`, which give the result and the new arena, and the
  class `Heap`. A `Heap` owns the arena as an `array<Word>` indexed by word
  offset. Its methods `FindBlock` (the tail recursion as a loop), `MkAlloc` and
  `Alloc` are proved equal to those functions.

A pointer is a word offset. The pointer handed to a caller is the header's
offset plus one, so the header sits at the pointer minus one.

Modelling choices:

- Bitfield layout. C leaves bitfield order to the compiler. The model fixes `w`
  in bits 0-29, `alloced` in bit 30 and `reserved` in bit 31.
- Truncation. Storing into `w` keeps only its low 30 bits, as a C bitfield
  store does.
- `w` counts data words only. The comment on `w` (main.h:36) says the size
  includes the header. `mkalloc` stores only the data words (main.c:61). The
  model follows the code.
- No splitting. Blocks are never split and no header is written after a block.
- The search bound. The scan fails once `n + allocation > Maxwords - 2`, as
  main.c:13 has it.
- The `findBlock` macro. It is declared with two parameters but called with
  three at main.c:99. The model uses the intended call, `findBlock_` from the
  arena base with start offset 0.

## Observed behaviour

These properties of the code, with the intended `findBlock` call, are proved
as lemmas. The code is not corrected.

- A block's next header is inside the block. `w` counts only data words, so
  for a block of at least one data word, the next header a scan reads after it
  is that block's own last data word (`NextHeaderIsInsideBlock`). For a block of
  0 words, the next header is the block's own header.
- After `alloc(2000)` on a fresh arena, a second request of 1 to
  `Maxwords - 502` words never returns, unless the caller has written to
  offset 500, the last data word of its block. The scan steps from header 0 to
  offset 500. If that word is still zero, it reads as a free header of size 0,
  so `findBlock_` never returns (`SecondAllocStalls`, `StalledHeader`). Other
  second requests do return: one of 0 words gets pointer 501, and one of more
  than `Maxwords - 502` words fails with `ErrNoMem`
  (`SecondAllocOutsideStallRange`).
- Two blocks can overlap. If the caller has stored into offset 500 a value that
  reads as a free header big enough for a next request of at most
  `Maxwords - 502` words, that request succeeds at pointer 501. `mkalloc` then
  overwrites the first block's last data word with the new header
  (`SecondAllocOverlapsFirst`).
- Zero-word requests share one pointer. A request of 0 words leaves header 0 at
  size 0, so the next such request returns the same pointer
  (`ZeroWordAllocAliases`). Zero words come from `alloc(0)` and from the three
  byte counts whose `bytes + 3` wraps.

## Model

| member | source | states |
|---|---|---|
| `HeaderCodec.Encode` | main.h:31-43 | packing keeps `w` modulo 2^30 in the low bits, and the word is below 2^31 exactly when `reserved` is clear |
| `HeaderCodec.Decode` | main.h:31-43 | the decoded `w` is below 2^30 and is the word's low 30 bits, and `reserved` is set exactly for words of 2^31 and above |
| `HeaderCodec.DecodeEncode` | main.h:34-41 | decoding an encoded header gives back `(w, alloced, reserved)` whenever `w < 2^30` |
| `HeaderCodec.EncodeFields` | main.h:36-40 | for any header, a store-and-load truncates `w` to 30 bits and keeps both flags |
| `HeaderCodec.EncodeDecode` | main.h:34-43 | every 32-bit word is the encoding of its own decoding, so a header is exactly one word |
| `HeaderCodec.ZeroWordIsEmptyHeader` | main.c:84-86 | an all-zero word decodes to `w = 0`, free, not reserved: the untouched-arena mark `alloc` tests |
| `HeaderCodec.ArenaConstants` | main.h:14-21 | `Maxwords = 262143`, one word less than the 1 MB arena and below 2^30; `ErrNoMem = 1`, `ErrUnknown = 2` |
| `Locator.Locate` | main.c:8-39 | the scan fails only with `ErrNoMem`; a found offset is at or after the start, inside the `Maxwords - 2` bound, and holds a free header with `w >= allocation` |
| `Locator.TrailIsFirstFitWalk` | main.c:13-38 | the headers examined form a first-fit walk from the start: every earlier one is in bounds, allocated or too small, and steps `w` words to the next; offsets strictly increase; the result is `Ok(last)` iff the last examined offset passes the bound, else `ErrNoMem` |
| `Locator.FirstFitWalkIsTrail` | main.c:13-38 | conversely, any first-fit walk along the chain makes the scan terminate, is exactly the sequence of offsets it examines, and fixes its result |
| `Locator.ScanReadsStayInArena` | main.c:13-22 | every header the scan reads lies at an offset at most `Maxwords - 2 - allocation`, inside the arena |
| `Locator.ScanSumsFitInWord` | main.c:13-34 | for requests below 2^30, the sums `n + allocation` and `n + w` never reach 2^32, so the unsigned arithmetic never wraps |
| `Locator.StalledHeader` | main.c:22-38 | an in-bounds header that is not a fit and has `w == 0` makes the scan never reach a verdict |
| `Allocator.Zeros` | main.h:60-63 | the untouched arena: `ArenaWords` words, all zero |
| `Allocator.WordsFor` | main.c:80-82 | `(bytes + 3) / 4` in 32-bit arithmetic is the ceiling of `bytes / 4` for `bytes <= 2^32 - 4`, wraps to 0 above that, and is always below 2^30 |
| `Allocator.MarkAllocated` | main.c:59-63 | after the store, the header reads `(words mod 2^30, allocated, old reserved bit)` |
| `Allocator.MkAllocOn` | main.c:46-68 | fails with `ErrNoMem` and leaves the arena unchanged iff `words > Maxwords - hdr`; otherwise `hdr + words <= Maxwords`, exactly the header at `hdr` becomes `(words, allocated)` and the pointer is `hdr + 1` |
| `Allocator.AllocOn` | main.c:74-109 | a failure is `ErrNoMem` and changes nothing; a success rewrites only the header before the returned pointer, to `(rounded words, allocated)`; on an untouched arena it fails iff `words > Maxwords` and otherwise returns 1; otherwise it fails iff the first-fit scan from offset 0 fails and returns the found offset plus one |
| `Allocator.FoundBlockNeverFailsMkAlloc` | main.c:50-57 | for a header found by the scan, `mkalloc`'s bound check always passes |
| `Allocator.StoredSizeFitsField` | main.c:54-61 | every size `alloc` stores is at most `Maxwords < 2^30`, so the 30-bit field never truncates it |
| `Allocator.AllocTwoThousandOnFreshArena` | main.c:117-145 | `alloc(2000)` on a fresh arena returns pointer 1 and sets header 0 to `(500, allocated)` |
| `Allocator.NextHeaderIsInsideBlock` | main.c:59-67 | after a successful allocation of at least one word, the next header on the chain is at the header's offset plus the rounded word count, which is the block's own last data word |
| `Allocator.SecondAllocStalls` | main.c:20-38 | after `alloc(2000)` on a fresh arena, every request of 1 to `Maxwords - 502` words fails to terminate |
| `Allocator.SecondAllocOutsideStallRange` | main.c:8-38 | after `alloc(2000)` on a fresh arena, a second request of 0 words returns pointer 501, and one of more than `Maxwords - 502` words fails with `ErrNoMem` |
| `Allocator.SecondAllocOverlapsFirst` | main.c:20-63 | after `alloc(2000)` on a fresh arena, if offset 500 holds a word that reads as a free header big enough for a next request of at most `Maxwords - 502` words, that request returns pointer 501, and its header, a data word of the first block, is overwritten |
| `Allocator.ZeroWordAllocAliases` | main.c:84-94 | two zero-word allocations on a fresh arena both return pointer 1 |
| `Allocator.Heap.constructor` | main.h:60-63 | a fresh heap owns a new arena of `ArenaWords` zero words |
| `Allocator.Heap.FindBlock` | main.c:8-39 | the iterative scan changes nothing and returns exactly `Locate` from offset `n` |
| `Allocator.Heap.MkAlloc` | main.c:46-68 | the result and the new arena are exactly `MkAllocOn` of the old arena |
| `Allocator.Heap.Alloc` | main.c:74-109 | the result and the new arena are exactly `AllocOn` of the old arena |

## Left out

- `freealloc` and `print_memory_layout` are declared in main.h:68-73 but have no body in the files modelled. There is no freeing, coalescing, splitting or layout dump.
- `main` (main.c:115-148) is the process entry point and prints diagnostics. Only its `alloc(2000)` scenario is kept, as `AllocTwoThousandOnFreshArena` and the client method `AllocScenario`. That method is a usage example with no contract of its own: it checks with assertions that a client of `Heap` gets pointer 1 and header `(500, allocated)`.
- The definition of `memspace` in heap.asm is not part of this model. Each `Heap` owns a zero-initialised array in its place.
- The global `errno` is replaced by the code carried in `Err`. `ErrUnknown` is defined but never produced, as in the source.
- Raw `char *` and `header *` pointer arithmetic is replaced by word offsets. This hides the byte product `hdr->w * 4` at main.c:31. The unsigned 30-bit field is promoted to a signed `int`, so the product overflows, which is undefined behaviour, for `w >= 2^29`. For smaller `w` that reaches past the arena, the product still forms an out-of-range pointer. In both cases the next offset `n_` fails the bound test at main.c:13 before that pointer is dereferenced. `ScanSumsFitInWord` covers only the unsigned sums.
- Compiler-specific bitfield order and the `packed` attribute are replaced by the explicit layout above.
- Non-termination is excluded by preconditions, not modelled as an outcome. Where the source would never return (a stack overflow or an endless loop, depending on whether the compiler turns the tail call at main.c:38 into a jump), the preconditions `ScanProgresses` and `AllocTerminates` exclude the call. `SecondAllocStalls` shows when this happens.
- Allocator.Heap.FindBlock: requires `allocation < 2^30` and a start offset `n <= Maxwords`, which covers every call `alloc` makes (`n = 0`). For larger arguments the source's 32-bit sum `n + allocation` can wrap and the scan can read past the arena; this is not modelled.
- Locator.Locate: takes `n` and `allocation` as unbounded integers. When `n + allocation` reaches 2^32, the source's unsigned sum at main.c:13 wraps and the scan goes on, where `Locate` returns `ErrNoMem`. `ScanSumsFitInWord` shows that the sums never wrap for `allocation < 2^30` and a start at or below `Maxwords`, which covers every call `alloc` makes.
- Concurrency: the source has none.
