/**
  The chain of block headers seen as a value: the sequence of blocks in chain
  order, each with the address of its header and its total size. The
  first-fit placement rule and the layout invariants are stated here, on that
  value, and the allocator's class is proved against them.
 */
module HeaderChain {
  import opened HeaderLayout

  /** A block: its header's address and the size of header plus data. */
  datatype Block = Block(addr: nat, totalSize: nat)

  /** The first address past the block. */
  function End(b: Block): nat
  {
    b.addr + b.totalSize
  }

  /**
    Each block ends at or before the address of its successor. The pair of
    adjacent indices is bound as `i, j` with `j == i + 1` rather than written
    `bs[i + 1]`, so the verifier never instantiates the quantifier with ever
    larger indices; `Contiguous` and the chain links follow the same pattern.
   */
  ghost predicate Ordered(bs: seq<Block>)
  {
    forall i, j :: 0 <= i && j == i + 1 && j < |bs| ==> End(bs[i]) <= bs[j].addr
  }

  /** Each block ends exactly where its successor starts: there are no gaps. */
  ghost predicate Contiguous(bs: seq<Block>)
  {
    forall i, j :: 0 <= i && j == i + 1 && j < |bs| ==> End(bs[i]) == bs[j].addr
  }

  /** The unused space between block i and its successor. */
  function Room(bs: seq<Block>, i: nat): int
    requires i + 1 < |bs|
  {
    bs[i + 1].addr - End(bs[i])
  }

  /** Block i has a successor and the gap up to it can take `required` bytes. */
  predicate Fits(bs: seq<Block>, i: nat, required: nat)
  {
    i + 1 < |bs| && Room(bs, i) >= required
  }

  /**
    The first block, from index `from` on, whose gap to its successor can take
    `required` bytes; None if there is none.
   */
  function FirstFitFrom(bs: seq<Block>, required: nat, from: nat): (r: Option<nat>)
    ensures r.Some? ==> from <= r.value && Fits(bs, r.value, required)
    ensures r.Some? ==> forall j :: from <= j < r.value ==> !Fits(bs, j, required)
    ensures r.None? ==> forall j :: from <= j < |bs| ==> !Fits(bs, j, required)
    decreases |bs| - from
  {
    if from >= |bs| then None
    else if Fits(bs, from, required) then Some(from)
    else FirstFitFrom(bs, required, from + 1)
  }

  /** First-fit placement: the first block, in chain order, with a large enough gap. */
  function FirstFit(bs: seq<Block>, required: nat): Option<nat>
  {
    FirstFitFrom(bs, required, 0)
  }

  /** k is the index first-fit placement chooses. */
  ghost predicate IsFirstFit(bs: seq<Block>, required: nat, k: nat)
  {
    Fits(bs, k, required) && forall j :: 0 <= j < k ==> !Fits(bs, j, required)
  }

  /** FirstFit picks exactly the first fitting block, and finds none only when none fits. */
  lemma FirstFitIsFirst(bs: seq<Block>, required: nat, k: nat)
    ensures FirstFit(bs, required) == Some(k) <==> IsFirstFit(bs, required, k)
    ensures FirstFit(bs, required).None? <==> forall j :: 0 <= j < |bs| ==> !Fits(bs, j, required)
  {
    if FirstFit(bs, required).Some? {
      assert FirstFit(bs, required).value < |bs|;
    }
  }

  /** Without gaps, no request of at least one byte finds room inside the chain. */
  lemma ContiguousLeavesNoRoom(bs: seq<Block>, required: nat)
    requires Contiguous(bs) && required > 0
    ensures FirstFit(bs, required) == None
  {
  }

  /**
    A request for no bytes at all fits the gap after the first block of any
    ordered chain of two or more blocks, since that gap is never negative.
   */
  lemma EmptyRequestFitsFirstGap(bs: seq<Block>)
    requires Ordered(bs) && |bs| >= 2
    ensures FirstFit(bs, 0) == Some(0)
  {
    assert Fits(bs, 0, 0);
  }

  /** In an ordered chain every block ends at or before the start of every later block. */
  lemma {:induction false} OrderedApart(bs: seq<Block>, i: nat, j: nat)
    requires Ordered(bs) && i < j < |bs|
    ensures End(bs[i]) <= bs[j].addr
    decreases j - i
  {
    if i + 1 < j {
      OrderedApart(bs, i + 1, j);
      assert End(bs[i]) <= bs[i + 1].addr;
    }
  }

  /** In an ordered chain the address ranges of any two distinct blocks do not overlap. */
  lemma OrderedDisjoint(bs: seq<Block>, i: nat, j: nat)
    requires Ordered(bs) && i < |bs| && j < |bs| && i != j
    ensures End(bs[i]) <= bs[j].addr || End(bs[j]) <= bs[i].addr
  {
    if i < j { OrderedApart(bs, i, j); } else { OrderedApart(bs, j, i); }
  }

  /** Every block of an ordered, non-empty chain ends at or before the last block's end. */
  lemma OrderedBelowTail(bs: seq<Block>, i: nat)
    requires Ordered(bs) && i < |bs|
    ensures End(bs[i]) <= End(bs[|bs| - 1])
  {
    if i < |bs| - 1 { OrderedApart(bs, i, |bs| - 1); }
  }

  /** The chain after a tail append of `size` bytes at address `at`. */
  function Append(bs: seq<Block>, at: nat, size: nat): seq<Block>
  {
    bs + [Block(at, size)]
  }

  /** Appending at or past the tail's end keeps the chain ordered. */
  lemma AppendOrdered(bs: seq<Block>, at: nat, size: nat)
    requires Ordered(bs)
    requires bs != [] ==> End(bs[|bs| - 1]) <= at
    ensures Ordered(Append(bs, at, size))
  {
    var r := Append(bs, at, size);
    forall i | 0 < i < |r| ensures End(r[i - 1]) <= r[i].addr {
      if i < |bs| { assert r[i - 1] == bs[i - 1] && r[i] == bs[i]; }
    }
  }

  /** Appending exactly at the tail's end keeps the chain free of gaps. */
  lemma AppendContiguous(bs: seq<Block>, at: nat, size: nat)
    requires Contiguous(bs)
    requires bs != [] ==> End(bs[|bs| - 1]) == at
    ensures Contiguous(Append(bs, at, size))
  {
    var r := Append(bs, at, size);
    forall i | 0 < i < |r| ensures End(r[i - 1]) == r[i].addr {
      if i < |bs| { assert r[i - 1] == bs[i - 1] && r[i] == bs[i]; }
    }
  }
}
