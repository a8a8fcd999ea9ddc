/**
  The headers as they sit in memory: a map from header address to header
  record, and the chain order those records' `previous`/`next` fields spell
  out from the root. Also the one update `malloc` makes to them, linking a new
  tail header after the old one.
 */
module HeaderLinks {
  import opened HeaderLayout
  import opened HeaderChain

  /** The last address of the chain, NULL when the chain is empty. */
  function TailOf(chain: seq<nat>): nat
  {
    if chain == [] then NULL else chain[|chain| - 1]
  }

  /**
    The headers in memory are exactly those of `chain`, `start` is the first
    of them, and each header's `previous` and `next` name its neighbours in
    `chain` (NULL at either end).
   */
  ghost predicate Linked(chain: seq<nat>, headers: map<nat, Header>, start: nat)
  {
    && (forall a :: a in headers <==> a in chain)
    && start == (if chain == [] then NULL else chain[0])
    && (chain != [] ==> headers[chain[0]].previous == NULL && headers[chain[|chain| - 1]].next == NULL)
    && (forall i, j :: 0 <= i && j == i + 1 && j < |chain| ==>
          headers[chain[i]].next == chain[j] && headers[chain[j]].previous == chain[i])
  }

  /** The chain as a value: each header's address and total size, in chain order. */
  function BlocksOf(chain: seq<nat>, headers: map<nat, Header>): seq<Block>
    requires forall a :: a in chain ==> a in headers
  {
    seq(|chain|, i requires 0 <= i < |chain| => Block(chain[i], headers[chain[i]].totalSize))
  }

  /** Every block has a non-null header address and at least one data byte. */
  ghost predicate Populated(bs: seq<Block>)
  {
    forall i :: 0 <= i < |bs| ==> NULL < bs[i].addr && HEADER_SIZE < bs[i].totalSize
  }

  /**
    The headers after `malloc` appends a block of `size` bytes at `at`: a new
    header at `at` whose `previous` is the old tail, and the old tail's `next`
    set to `at`.
   */
  function LinkTail(chain: seq<nat>, headers: map<nat, Header>, at: nat, size: nat): (r: map<nat, Header>)
    requires chain != [] ==> TailOf(chain) in headers
    requires at !in headers
    ensures r.Keys == headers.Keys + {at}
    ensures r[at] == Header(TailOf(chain), NULL, size)
    ensures chain != [] ==> r[TailOf(chain)] == headers[TailOf(chain)].(next := at)
    ensures forall a :: a in headers && (chain == [] || a != TailOf(chain)) ==> r[a] == headers[a]
  {
    var written := headers[at := Header(TailOf(chain), NULL, size)];
    if chain == [] then written
    else written[TailOf(chain) := written[TailOf(chain)].(next := at)]
  }

  /** In a linked chain of non-null addresses no address occurs twice. */
  lemma {:induction false} LinkedDistinct(chain: seq<nat>, headers: map<nat, Header>, start: nat, i: nat, j: nat)
    requires Linked(chain, headers, start)
    requires forall a :: a in chain ==> NULL < a
    requires i < j < |chain|
    ensures chain[i] != chain[j]
    decreases i
  {
    // Equal addresses would share one header, whose `previous` would then
    // name both chain[i - 1] (NULL when i == 0) and chain[j - 1].
    if i == 0 {
      assert chain[j - 1] in chain;
    } else {
      LinkedDistinct(chain, headers, start, i - 1, j - 1);
    }
  }

  /** Linking the new tail changes no header before the tail. */
  lemma LinkTailInterior(chain: seq<nat>, headers: map<nat, Header>, start: nat, at: nat, size: nat)
    requires Linked(chain, headers, start)
    requires forall a :: a in chain ==> NULL < a
    requires at !in headers
    ensures forall k :: 0 <= k < |chain| - 1 ==> LinkTail(chain, headers, at, size)[chain[k]] == headers[chain[k]]
  {
    forall k | 0 <= k < |chain| - 1 ensures chain[k] != TailOf(chain) && chain[k] in headers {
      LinkedDistinct(chain, headers, start, k, |chain| - 1);
    }
  }

  /** After linking the new tail, each header of the longer chain and its successor name each other. */
  lemma LinkTailPairs(chain: seq<nat>, headers: map<nat, Header>, start: nat, at: nat, size: nat)
    requires Linked(chain, headers, start)
    requires forall a :: a in chain ==> NULL < a
    requires at !in headers
    ensures var c, h := chain + [at], LinkTail(chain, headers, at, size);
            forall i, j :: 0 <= i && j == i + 1 && j < |c| ==>
              h[c[i]].next == c[j] && h[c[j]].previous == c[i]
  {
    var c, h := chain + [at], LinkTail(chain, headers, at, size);
    LinkTailInterior(chain, headers, start, at, size);
    forall i, j | 0 <= i && j == i + 1 && j < |c|
      ensures h[c[i]].next == c[j] && h[c[j]].previous == c[i]
    {
      if j < |chain| {
        assert c[i] == chain[i] && c[j] == chain[j];
      }
    }
  }

  /**
    Linking a fresh header after the tail yields a linked chain one longer,
    with the new header as root when the chain was empty.
   */
  lemma LinkTailLinked(chain: seq<nat>, headers: map<nat, Header>, start: nat, at: nat, size: nat)
    requires Linked(chain, headers, start)
    requires forall a :: a in chain ==> NULL < a
    requires NULL < at && at !in headers
    ensures Linked(chain + [at], LinkTail(chain, headers, at, size), if chain == [] then at else start)
  {
    var c := chain + [at];
    assert forall a :: a in c <==> a in chain || a == at;
    LinkTailPairs(chain, headers, start, at, size);
  }

  /** Linking the new tail leaves the blocks already in the chain as they were. */
  lemma LinkTailBlocks(chain: seq<nat>, headers: map<nat, Header>, at: nat, size: nat)
    requires forall a :: a in chain ==> a in headers
    requires at !in headers
    ensures BlocksOf(chain + [at], LinkTail(chain, headers, at, size)) == Append(BlocksOf(chain, headers), at, size)
  {
    var h := LinkTail(chain, headers, at, size);
    var r, s := BlocksOf(chain + [at], h), Append(BlocksOf(chain, headers), at, size);
    forall i | 0 <= i < |r| ensures r[i] == s[i] {
      if i < |chain| {
        assert (chain + [at])[i] == chain[i];
        assert h[chain[i]].totalSize == headers[chain[i]].totalSize;
      }
    }
  }

  /** Appending a block with a non-null header and at least one data byte keeps the chain populated. */
  lemma AppendPopulated(bs: seq<Block>, at: nat, size: nat)
    requires Populated(bs) && NULL < at && HEADER_SIZE < size
    ensures Populated(Append(bs, at, size))
  {
    var r := Append(bs, at, size);
    forall i | 0 <= i < |r| ensures NULL < r[i].addr && HEADER_SIZE < r[i].totalSize {
      if i < |bs| { assert r[i] == bs[i]; }
    }
  }

  /**
    The shape the allocator keeps: the links spell out the chain, the blocks
    are ordered and populated, and the break is the end of the tail block (and
    not NULL while the chain is empty).
   */
  ghost predicate HeapShape(chain: seq<nat>, headers: map<nat, Header>, start: nat, brk: nat)
  {
    && Linked(chain, headers, start)
    && NULL < brk && brk !in headers
    && Ordered(BlocksOf(chain, headers))
    && Populated(BlocksOf(chain, headers))
    && (chain != [] ==> brk == End(BlocksOf(chain, headers)[|chain| - 1]))
  }

  /**
    Writing a header for `size` bytes at the break, linking it after the tail
    and moving the break past it keeps the heap's shape, appends exactly that
    block to the chain, and opens no gap.
   */
  lemma LinkTailKeepsShape(chain: seq<nat>, headers: map<nat, Header>, start: nat, brk: nat, size: nat,
                           chain': seq<nat>, headers': map<nat, Header>, start': nat, brk': nat)
    requires HeapShape(chain, headers, start, brk)
    requires HEADER_SIZE < size
    requires chain' == chain + [brk] && headers' == LinkTail(chain, headers, brk, size)
    requires start' == (if chain == [] then brk else start) && brk' == brk + size
    ensures HeapShape(chain', headers', start', brk')
    ensures BlocksOf(chain', headers') == Append(BlocksOf(chain, headers), brk, size)
    ensures Contiguous(BlocksOf(chain, headers)) ==> Contiguous(BlocksOf(chain', headers'))
  {
    var bs := BlocksOf(chain, headers);
    forall a | a in chain ensures NULL < a < brk {
      var i :| 0 <= i < |chain| && chain[i] == a;
      OrderedBelowTail(bs, i);
    }
    LinkTailLinked(chain, headers, start, brk, size);
    LinkTailBlocks(chain, headers, brk, size);
    var bs' := BlocksOf(chain', headers');
    AppendOrdered(bs, brk, size);
    AppendPopulated(bs, brk, size);
    assert bs'[|chain'| - 1] == Block(brk, size);
    assert brk' !in headers' by {
      assert forall a :: a in headers' ==> a == brk || a in chain;
    }
    if Contiguous(bs) {
      AppendContiguous(bs, brk, size);
    }
  }
}
