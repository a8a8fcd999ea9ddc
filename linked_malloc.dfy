/**
  The allocator: the global chain root `start`, the headers it links together
  in memory, and the program break, with `malloc` (first-fit walk, then growth
  of the break for a new tail header) and `free` (which does nothing yet).
 */
module LinkedMalloc {
  import opened HeaderLayout
  import opened HeaderChain
  import opened HeaderLinks

  class Heap {
    /** The global `start`: the first header of the chain, NULL while the chain is empty. */
    var start: nat
    /** The headers in memory: the record stored at each header address. */
    var headers: map<nat, Header>
    /** The program break. */
    var brk: nat
    /** The highest break the operating system grants; sbrk fails beyond it. */
    const limit: nat
    /** The header addresses in chain order, as reached by following `next` from `start`. */
    ghost var chain: seq<nat>

    /** The chain as a value: each header's address and total size, in chain order. */
    ghost function Blocks(): seq<Block>
      reads this
      requires forall a :: a in chain ==> a in headers
    {
      BlocksOf(chain, headers)
    }

    /**
      The allocator's invariant: the links are consistent, the chain is ordered
      by address with no overlap, every block holds at least one data byte, the
      break is the end of the tail block, and the break stays where the
      operating system allows it.
     */
    ghost predicate Valid()
      reads this
    {
      HeapShape(chain, headers, start, brk) && brk <= limit <= INTPTR_MAX
    }

    /** The last header of the chain, NULL when the chain is empty. */
    ghost function Tail(): nat
      reads this
    {
      TailOf(chain)
    }

    /** `malloc(size)` reaches the tail-append path: a non-zero request and no gap that takes it. */
    ghost predicate Appends(size: SizeT)
      reads this
      requires Valid()
    {
      && size > 0
      && RequiredSpace(size).Some?
      && FirstFit(Blocks(), RequiredSpace(size).value).None?
    }

    /** Whenever `malloc(size)` calls sbrk, the operating system grants the growth. */
    ghost predicate GrowthSucceeds(size: SizeT)
      reads this
      requires Valid()
    {
      Appends(size) ==> brk + RequiredSpace(size).value <= limit
    }

    /** A process's allocator before its first call: no chain, and the break where the OS put it. */
    constructor (initialBreak: nat, limit: nat)
      requires 0 < initialBreak <= limit <= INTPTR_MAX
      ensures Valid() && Contiguous(Blocks())
      ensures start == NULL && headers == map[] && chain == []
      ensures brk == initialBreak && this.limit == limit
    {
      start := NULL;
      headers := map[];
      brk := initialBreak;
      this.limit := limit;
      chain := [];
    }

    /**
      The heap growth primitive: moves the break up by `increment` bytes and
      returns the old break.
     */
    method Sbrk(increment: nat) returns (oldBreak: nat)
      requires brk + increment <= limit
      modifies this`brk
      ensures oldBreak == old(brk) && brk == old(brk) + increment
    {
      oldBreak := brk;
      brk := brk + increment;
    }

    /**
      The walk of `malloc`: from `start`, stop at the first header whose gap to
      its successor takes `required` bytes. `destination` is then the end of
      that header's block, and NULL when the walk runs off the tail;
      `previous` is the last header passed over (NULL if none).
     */
    method Search(required: nat) returns (previous: nat, destination: nat)
      requires Valid()
      ensures destination == NULL <==> FirstFit(Blocks(), required).None?
      ensures FirstFit(Blocks(), required).None? ==> previous == Tail()
      ensures FirstFit(Blocks(), required).Some? ==>
                var k := FirstFit(Blocks(), required).value;
                && destination == End(Blocks()[k])
                && previous == (if k == 0 then NULL else chain[k - 1])
    {
      ghost var bs := Blocks();
      previous := NULL;
      destination := start;
      ghost var i: nat := 0;
      while destination != NULL
        invariant i <= |chain|
        invariant destination == (if i < |chain| then chain[i] else NULL)
        invariant previous == (if i == 0 then NULL else chain[i - 1])
        invariant forall j :: 0 <= j < i ==> !Fits(bs, j, required)
        decreases |chain| - i
      {
        var header := headers[destination];
        assert header == headers[chain[i]];
        if header.next != NULL {
          var dataEnd := destination + header.totalSize;
          var room := header.next - dataEnd;
          if room >= required {
            assert Fits(bs, i, required);
            FirstFitIsFirst(bs, required, i);
            destination := dataEnd;
            break;
          }
        }
        previous := destination;
        destination := header.next;
        i := i + 1;
      }
      if destination == NULL {
        FirstFitIsFirst(bs, required, 0);
      }
    }

    /**
      The tail-append path of `malloc`: grow the break by `required` bytes,
      write a header for them at the old break, and link it after `previous`,
      the tail, or make it the root when the chain is empty.
     */
    method GrowTail(previous: nat, required: nat) returns (header: nat)
      requires Valid()
      requires previous == Tail()
      requires HEADER_SIZE < required && brk + required <= limit
      modifies this
      ensures Valid()
      ensures header == old(brk) && brk == old(brk) + required
      ensures chain == old(chain) + [header]
      ensures Blocks() == Append(old(Blocks()), header, required)
      ensures headers == LinkTail(old(chain), old(headers), header, required)
      ensures start == (if old(chain) == [] then header else old(start))
      ensures forall i :: 0 <= i < |old(chain)| ==> End(old(Blocks())[i]) <= header
      ensures old(Contiguous(Blocks())) ==> Contiguous(Blocks())
    {
      ghost var oldChain, oldHeaders, oldStart, oldBrk := chain, headers, start, brk;
      forall i | 0 <= i < |chain| ensures End(Blocks()[i]) <= brk {
        OrderedBelowTail(Blocks(), i);
      }
      header := Sbrk(required);
      headers := headers[header := Header(previous, NULL, required)];
      if previous != NULL {
        headers := headers[previous := headers[previous].(next := header)];
      } else {
        start := header;
      }
      chain := chain + [header];
      LinkTailKeepsShape(oldChain, oldHeaders, oldStart, oldBrk, required, chain, headers, start, brk);
    }

    /**
      `malloc(size)`. A zero request, a request whose size with the header
      does not fit in size_t, and a request for which the walk finds a gap (a
      path this version leaves unfinished) all return NULL and change nothing.
      Otherwise the break grows by the required space, a new tail header is
      written at the old break and linked after the old tail (or made the
      root), and the pointer just past that header is returned.
     */
    method Malloc(size: SizeT) returns (p: nat)
      requires Valid()
      requires GrowthSucceeds(size)
      modifies this
      ensures Valid()
      ensures size == 0 ==> p == NULL && unchanged(this)
      ensures RequiredSpace(size).None? ==> p == NULL && unchanged(this)
      ensures size > 0 && RequiredSpace(size).Some? &&
              old(FirstFit(Blocks(), RequiredSpace(size).value)).Some? ==>
                p == NULL && unchanged(this)
      ensures old(Appends(size)) ==>
                var required, at := RequiredSpace(size).value, old(brk);
                && brk == at + required
                && p == DataPointer(at) && p + size == brk
                && (forall i :: 0 <= i < |old(chain)| ==> End(old(Blocks())[i]) <= at)
                && chain == old(chain) + [at]
                && Blocks() == Append(old(Blocks()), at, required)
                && headers == LinkTail(old(chain), old(headers), at, required)
                && start == (if old(chain) == [] then at else old(start))
      ensures old(Contiguous(Blocks())) ==> Contiguous(Blocks())
    {
      if size == 0 {
        return NULL;
      }
      var space := RequiredSpace(size);
      if space.None? {
        return NULL;
      }
      var required := space.value;
      var previous, destination := Search(required);
      if destination == NULL {
        var header := GrowTail(previous, required);
        return DataPointer(header);
      }
      p := NULL;
    }

    /**
      Since `free` never opens a gap, a heap grown only by `malloc` has none,
      and the walk never stops at a gap. In this model, where a request whose
      size with the header overflows size_t returns NULL before the walk, the
      unfinished branch of `malloc` is then unreachable, and every non-zero
      request that fits in size_t appends.
     */
    lemma ContiguousHeapAppends(size: SizeT)
      requires Valid() && Contiguous(Blocks())
      requires 0 < size <= SIZE_MAX - HEADER_SIZE
      ensures Appends(size)
    {
      ContiguousLeavesNoRoom(Blocks(), RequiredSpace(size).value);
    }

    /**
      With the size computed as the C code does, the overflowing request
      SIZE_MAX - 23 asks for no space, so once the chain holds two headers the
      walk stops at the first of them and `malloc` takes its unfinished branch,
      even on a heap without gaps.
     */
    lemma WrappedRequestStopsAtFirstGap()
      requires Valid() && |chain| >= 2
      ensures FirstFit(Blocks(), RequiredSpaceAsWritten(SIZE_MAX - (HEADER_SIZE - 1))) == Some(0)
    {
      RequiredSpaceAsWrittenZero();
      EmptyRequestFitsFirstGap(Blocks());
    }

    /**
      Two requests on a fresh heap: the second block starts right where the
      first ends, each block taking its data size plus one header.
     */
    static method BackToBack(initialBreak: nat, limit: nat, first: SizeT, second: SizeT) returns (p1: nat, p2: nat)
      requires 0 < first <= SIZE_MAX - HEADER_SIZE && 0 < second <= SIZE_MAX - HEADER_SIZE
      requires 0 < initialBreak && initialBreak + first + second + 2 * HEADER_SIZE <= limit <= INTPTR_MAX
      ensures p1 == DataPointer(initialBreak)
      ensures p2 == p1 + first + HEADER_SIZE
    {
      var heap := new Heap(initialBreak, limit);
      heap.ContiguousHeapAppends(first);
      p1 := heap.Malloc(first);
      heap.ContiguousHeapAppends(second);
      p2 := heap.Malloc(second);
    }

    /** `free(ptr)`: returns at once for NULL and does nothing otherwise. */
    method Free(ptr: nat)
      ensures unchanged(this)
    {
      if ptr == NULL {
        return;
      }
    }
  }
}
