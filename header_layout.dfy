/**
  Sizes, the block header record and the size arithmetic of the linked-header
  allocator, for a 64-bit target (LP64: pointers and size_t are 8 bytes).
  Addresses are natural numbers and the null pointer is address 0.
 */
module HeaderLayout {

  datatype Option<T> = None | Some(value: T)

  /** The null pointer. */
  const NULL: nat := 0

  /** 2^64: one past the largest value of size_t. */
  const SIZE_LIMIT: nat := 0x1_0000_0000_0000_0000

  /** The largest value of size_t. */
  const SIZE_MAX: nat := SIZE_LIMIT - 1

  /** The largest value of intptr_t, the type of sbrk's increment. */
  const INTPTR_MAX: nat := 0x7FFF_FFFF_FFFF_FFFF

  /** sizeof(struct LinkedMallocHeader): two pointers and a size_t, no padding. */
  const HEADER_SIZE: nat := 24

  /** A value of type size_t. */
  type SizeT = n: int | 0 <= n < SIZE_LIMIT

  /**
    The header stored at the start of every block: the addresses of the
    neighbouring headers in the chain (NULL at either end) and the size of
    header plus data.
   */
  datatype Header = Header(previous: nat, next: nat, totalSize: nat)

  /** The usable pointer handed to the caller for the header at address h. */
  function DataPointer(h: nat): nat
  {
    h + HEADER_SIZE
  }

  /**
    The space a request for `size` data bytes occupies, computed as the C
    expression `size + sizeof(struct LinkedMallocHeader)` does: in size_t,
    which wraps around modulo 2^64.
   */
  function RequiredSpaceAsWritten(size: SizeT): (r: SizeT)
    ensures size + HEADER_SIZE < SIZE_LIMIT ==> r == size + HEADER_SIZE
    ensures size + HEADER_SIZE >= SIZE_LIMIT ==> r == size + HEADER_SIZE - SIZE_LIMIT
  {
    (size + HEADER_SIZE) % SIZE_LIMIT
  }

  /**
    For the largest 24 request sizes the wrapped sum is smaller than the header
    itself: a block claimed at `at` ends before its own header does, and the
    pointer handed out lies past the block's end.
   */
  lemma RequiredSpaceAsWrittenWraps(size: SizeT, at: nat)
    requires size > SIZE_MAX - HEADER_SIZE
    ensures RequiredSpaceAsWritten(size) < HEADER_SIZE
    ensures RequiredSpaceAsWritten(size) < size
    ensures at + RequiredSpaceAsWritten(size) < DataPointer(at)
  {
  }

  /** The concrete request SIZE_MAX - 23 claims no space at all. */
  lemma RequiredSpaceAsWrittenZero()
    ensures RequiredSpaceAsWritten(SIZE_MAX - (HEADER_SIZE - 1)) == 0
  {
  }

  /** The concrete request SIZE_MAX - 22 claims a single byte, for a block whose header alone takes 24. */
  lemma RequiredSpaceAsWrittenOne()
    ensures RequiredSpaceAsWritten(SIZE_MAX - (HEADER_SIZE - 2)) == 1
  {
  }

  /**
    The space a request for `size` data bytes occupies, with the overflow
    rejected: None when `size + HEADER_SIZE` does not fit in size_t.
   */
  function RequiredSpace(size: SizeT): (r: Option<SizeT>)
    ensures r.Some? <==> size <= SIZE_MAX - HEADER_SIZE
    ensures r.Some? ==> r.value - size == HEADER_SIZE
    ensures r.Some? ==> r.value == RequiredSpaceAsWritten(size)
  {
    if size <= SIZE_MAX - HEADER_SIZE then Some(size + HEADER_SIZE) else None
  }
}
