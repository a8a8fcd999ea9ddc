# Linked-header malloc in Dafny

A model of `linked-malloc.c`, a small `malloc`/`free` replacement built on the
program break. It keeps a doubly linked chain of block headers in the
heap itself. Each header (`struct LinkedMallocHeader`) sits at the start of its
block and records the previous and next header and the block's total size,
header included. The global `start` is the first header.
`malloc(size)` does three things:

- It returns NULL for a zero request.
- It walks the chain from `start`, looking for the first header whose gap to
  its successor can take `size` plus one header.
- When the walk runs off the tail, it grows the break with `sbrk`, writes a new
  tail header at the old break, links it after the old tail (or makes it
  `start` when the chain is empty), and returns the address just past the
  header.

When the walk does find a gap, this version prints a message and returns NULL:
that placement is not written yet. `free` returns at once and releases nothing.

The model is for a 64-bit target (LP64). Pointers and `size_t` are 8 bytes, so
the header takes 24 bytes with no padding. Addresses are natural numbers and
NULL is address 0. Memory is covered only where headers are stored: a map
from header address to header record. The chain order is a ghost sequence of
header addresses; the allocator's invariant ties that sequence to the
`previous`/`next` fields.

Modules:

- `HeaderLayout` (`header_layout.dfy`): sizes, the header record, and the
  size arithmetic, both as written in C and corrected.
- `HeaderChain` (`header_chain.dfy`): the chain as a pure sequence of
  `(address, total size)` blocks. It defines first-fit placement on that
  sequence, plus the ordering and no-gap invariants and the lemmas about them.
- `HeaderLinks` (`header_links.dfy`): the header map and how its links spell
  out the chain, the one header update `malloc` makes (`LinkTail`), and the
  heap shape that update preserves.
- `LinkedMalloc` (`linked_malloc.dfy`): class `Heap`, with fields `start`,
  `headers` and `brk`, and methods for `sbrk`, the walk, the tail append,
  `malloc` and `free`.

`linked-malloc.c` has no sentinel header, alignment, unlinking `free`,
`realloc`, `calloc` or lock, and neither has the model. `free` does nothing,
and the gap branch of `malloc` returns NULL.

## Model

| member | source | states |
|---|---|---|
| HeaderLayout.RequiredSpaceAsWritten | linked-malloc.c:21 | the C sum `size + sizeof(header)` in size_t: the true sum when it fits, the sum minus 2^64 when it does not |
| HeaderLayout.RequiredSpaceAsWrittenWraps | linked-malloc.c:21 | for the 24 largest sizes the wrapped space is below the header size and below the request, and the block so claimed ends before the returned pointer |
| HeaderLayout.RequiredSpaceAsWrittenZero | linked-malloc.c:21 | the request SIZE_MAX - 23 claims zero bytes |
| HeaderLayout.RequiredSpaceAsWrittenOne | linked-malloc.c:21 | the request SIZE_MAX - 22 claims a single byte, less than its own header |
| HeaderLayout.RequiredSpace | linked-malloc.c:21 | there is a space exactly when size + header fits in size_t; it then exceeds the request by one header and agrees with the C sum |
| HeaderChain.FirstFitFrom | linked-malloc.c:28-44 | the walk from index `from` yields a block whose gap takes the request with no fitting block before it, or nothing when no block from `from` on fits |
| HeaderChain.FirstFitIsFirst | linked-malloc.c:28-44 | first-fit picks index k exactly when k fits and nothing before it does, and finds nothing exactly when no block fits |
| HeaderChain.ContiguousLeavesNoRoom | linked-malloc.c:31-38 | in a chain without gaps, no request of one byte or more finds room |
| HeaderChain.EmptyRequestFitsFirstGap | linked-malloc.c:31-38 | in an ordered chain of two or more blocks, a request for zero bytes fits the first gap, since the room is never negative |
| HeaderChain.OrderedApart | linked-malloc.c:8-12 | in an ordered chain every block ends at or before every later block starts |
| HeaderChain.OrderedDisjoint | linked-malloc.c:8-12 | in an ordered chain no two blocks overlap |
| HeaderChain.OrderedBelowTail | linked-malloc.c:46-54 | in an ordered chain every block ends at or before the tail's end, which is where the new header goes |
| HeaderChain.AppendOrdered | linked-malloc.c:49-57 | placing a new block at or past the tail's end keeps the chain ordered |
| HeaderChain.AppendContiguous | linked-malloc.c:49-57 | placing a new block exactly at the tail's end keeps the chain free of gaps |
| HeaderLinks.LinkTail | linked-malloc.c:54-64 | the new header records the old tail as previous, NULL as next and the required size; the old tail's next now names it; every other header is unchanged; the map gains exactly the new address |
| HeaderLinks.LinkedDistinct | linked-malloc.c:8-12 | in a linked chain of non-null headers no address occurs twice |
| HeaderLinks.LinkTailInterior | linked-malloc.c:60-61 | linking the new tail changes no header before the old tail |
| HeaderLinks.LinkTailPairs | linked-malloc.c:55-61 | after linking, each header of the longer chain and its successor name each other through next and previous |
| HeaderLinks.LinkTailLinked | linked-malloc.c:54-64 | linking a fresh header after the tail gives a consistently linked chain one longer, rooted at the new header when the chain was empty |
| HeaderLinks.LinkTailBlocks | linked-malloc.c:54-64 | after linking, the block view is the old one with the new block appended |
| HeaderLinks.AppendPopulated | linked-malloc.c:54-57 | appending a non-null block with at least one data byte keeps every block so |
| HeaderLinks.LinkTailKeepsShape | linked-malloc.c:49-64 | writing the new header at the break, linking it and moving the break by its size keeps the heap shape (links, order, break at the tail's end), appends exactly that block, and opens no gap |
| LinkedMalloc.Heap.constructor | linked-malloc.c:16 | the initial allocator has no chain, `start` is NULL, the break is where the OS placed it, and the invariant holds with no gaps |
| LinkedMalloc.Heap.Sbrk | linked-malloc.c:49 | moves the break up by the increment and returns the old break |
| LinkedMalloc.Heap.Search | linked-malloc.c:23-44 | the walk ends with NULL exactly when first-fit finds no gap, and the previous header is then the tail; otherwise it stops at the end of the first fitting block, with the previous header being that block's predecessor |
| LinkedMalloc.Heap.GrowTail | linked-malloc.c:46-66 | grows the break by the required space; writes and links the new header at the old break; the chain, block view, header map and `start` are exactly the appended ones; every old block ends at or before the new header; the invariant holds and no gap opens |
| LinkedMalloc.Heap.Malloc | linked-malloc.c:18-72 | NULL and no change for a zero request, for an oversized request and when a gap is found. Otherwise the header goes at the old break and the break grows by size + header. The returned pointer is just past the header, and the block holds exactly `size` data bytes after it, ending at the new break. The new block lies past every old one and is linked after the old tail (or becomes `start`). The invariant holds throughout and no gap ever opens |
| LinkedMalloc.Heap.ContiguousHeapAppends | linked-malloc.c:31-46 | on a heap without gaps every non-zero request that fits in size_t reaches the tail append, so in this model (oversized requests return NULL first) the gap branch is unreachable |
| LinkedMalloc.Heap.WrappedRequestStopsAtFirstGap | linked-malloc.c:21-38 | with the size computed as written, the request SIZE_MAX - 23 stops the walk at the first header of any valid heap holding two or more headers, so the source reaches its unfinished branch |
| LinkedMalloc.Heap.BackToBack | linked-malloc.c:46-66 | for any two non-zero requests that fit on a fresh heap, the first pointer is one header past the initial break, and the second is one block (first size plus header) past the first |
| LinkedMalloc.Heap.Free | linked-malloc.c:74-76 | `free` changes nothing, for NULL and for any other pointer |

## Left out

- LinkedMalloc.Heap.Malloc: requires that `sbrk` grants the growth (`GrowthSucceeds`). On failure (linked-malloc.c:50-52) the code logs and then writes the header through `(void *)-1` anyway. That is undefined behaviour and is not modelled.
- LinkedMalloc.Heap.Malloc: returns NULL for requests whose size plus header overflows size_t, where the code goes on with the wrapped sum (see Findings).
- LinkedMalloc.Heap.Sbrk: the operating system's break is a field `brk` plus a fixed ceiling `limit` that stays at most the largest intptr_t. So `sbrk` never receives a size that would become a negative increment once cast to intptr_t. No other code moves the break.
- The room computation at linked-malloc.c:33 is a size_t difference. It could wrap if a header lay below the end of its predecessor's block. The invariant rules that out (blocks are ordered), so the model uses plain integer subtraction.
- The contents of the data bytes: only the headers are modelled.
- The diagnostics written with `fprintf` and `errno` (linked-malloc.c:36, 51, 70): output only.
- Locking: the file has none (only a TODO), and the model is sequential.
- Alignment of the returned pointers: a TODO in the file, not implemented there.
- 32-bit targets, where the header would take 12 bytes: the model is for LP64 only.

## Findings

| source | as written | input that shows it | evidently intended | confidence | as-written member | corrected member |
|---|---|---|---|---|---|---|
| linked-malloc.c:21 | `required_space = size + sizeof(struct LinkedMallocHeader)` wraps around in size_t for the 24 largest sizes | `malloc(SIZE_MAX - 22)` on a heap without gaps: the required space is 1, so no gap takes it and sbrk(1) moves the break by one byte. The 24-byte header is written 23 bytes past the new break, and a pointer past the block's end is returned. (`malloc(SIZE_MAX - 23)` requires 0 bytes: it calls sbrk(0) on a heap of at most one header, and stops at the first gap on any larger one) | an allocation failure (NULL) when size plus header does not fit in size_t | not executed | HeaderLayout.RequiredSpaceAsWrittenWraps | HeaderLayout.RequiredSpace |
