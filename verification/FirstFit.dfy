/** The C library's first-fit allocator (src/libc/stdlib.c): the block list it computes. */
module FirstFit {
  import opened Machine
  import opened Memory
  import opened BlockList

  const HEADER: nat := 12          // sizeof(memory_block_t)
  const HEAP_SIZE: nat := 0x10_0000
  const MIN_REST: nat := 16

  /** The rounding of a request, in the arithmetic of `size_t`. */
  function RoundRequest(size: int): (n: int)
    requires IsUint32(size)
    ensures MIN_REST <= n < WORD && n % 8 == 0
  {
    var s := if size % 8 != 0 then Wrap((size / 8 + 1) * 8) else size;
    if s < 16 then 16 else s
  }

  /** The rounded size covers the request unless the rounding itself wraps. */
  lemma RoundingCovers(size: int)
    requires IsUint32(size)
    ensures RoundRequest(size) >= size <==> size <= WORD - 8
    ensures size > WORD - 8 ==> RoundRequest(size) == 16
    ensures size <= 16 ==> RoundRequest(size) == 16
    ensures 16 < size <= WORD - 8 ==> size <= RoundRequest(size) < size + 8 && RoundRequest(size) % 8 == 0
  {}

  /** The index of the first free block of at least `n` bytes; `|bs|` if there is none. */
  function FirstFitting(bs: seq<Block>, n: nat): (k: nat)
    ensures k <= |bs| && (k < |bs| ==> Fits(bs[k], n))
    ensures forall j :: 0 <= j < k ==> !Fits(bs[j], n)
  {
    if bs == [] then 0
    else
      var k := FirstFitting(bs[..|bs| - 1], n);
      if k < |bs| - 1 || Fits(bs[|bs| - 1], n) then k else |bs|
  }

  lemma FirstFittingUnique(bs: seq<Block>, n: nat, k: nat)
    requires k <= |bs| && (k < |bs| ==> Fits(bs[k], n))
    requires forall j :: 0 <= j < k ==> !Fits(bs[j], n)
    ensures k == FirstFitting(bs, n)
  {}

  /** Block `k` is given out, cut down first if what is left over can hold a header and 16 bytes. */
  function Carve(bs: seq<Block>, k: nat, n: nat): seq<Block>
    requires k < |bs|
  {
    if bs[k].size >= n + HEADER + MIN_REST then Take(Split(bs, k, n, HEADER), k) else Take(bs, k)
  }

  function MallocBlocks(bs: seq<Block>, n: nat): seq<Block>
  {
    var k := FirstFitting(bs, n);
    if k == |bs| then bs else Carve(bs, k, n)
  }

  /** The pointer that answers a request: behind the header of the first block that fits, or NULL. */
  function Answer(bs: seq<Block>, size: int): nat
    requires IsUint32(size)
  {
    var k := FirstFitting(bs, RoundRequest(size));
    if k < |bs| then Ptr(bs[k], HEADER) else 0
  }

  /** Block `k` becomes free and is merged with its predecessor if that is free, else with its successor. */
  function FreeBlocks(bs: seq<Block>, k: nat): seq<Block>
    requires k < |bs|
  {
    var r := Release(bs, k);
    if k > 0 && bs[k - 1].free then Join(r, k - 1, HEADER)
    else if k + 1 < |bs| && bs[k + 1].free then Join(r, k, HEADER)
    else r
  }

  /** Giving out block `k` adds exactly one pointer to the live ones and touches no other payload. */
  /**
   * The block used has exactly `n` bytes if what is left over has room for a header of 12 and 16 bytes more;
   * otherwise it keeps all it has, fewer than `n` + 28 bytes. The rest becomes one free block behind it.
   */
  lemma CarveSizes(bs: seq<Block>, k: nat, n: nat)
    requires k < |bs| && Fits(bs[k], n)
    ensures var r, b := Carve(bs, k, n), bs[k];
      && k < |r| && r[k].addr == b.addr && !r[k].free && n <= r[k].size < n + 28
      && if b.size >= n + 28 then
           && |r| == |bs| + 1 && r[k].size == n && r[k + 1] == Block(b.addr + 12 + n, b.size - n - 12, true)
           && r[..k] == bs[..k] && r[k + 2..] == bs[k + 1..]
         else r[k].size == b.size && |r| == |bs| && r[..k] == bs[..k] && r[k + 1..] == bs[k + 1..]
  {}

  lemma CarveContents(m: seq<byte>, bs: seq<Block>, k: nat, n: nat, lo: nat, hi: nat)
    requires Tiled(bs, HEADER, lo, hi) && hi <= |m| && k < |bs| && Fits(bs[k], n)
    ensures var r := Carve(bs, k, n);
      && Tiled(r, HEADER, lo, hi) && k < |r| && !r[k].free && n <= r[k].size && r[k].addr == bs[k].addr
      && Ptr(bs[k], HEADER) !in Contents(m, bs, HEADER)
      && Contents(m, r, HEADER) == Contents(m, bs, HEADER)[Ptr(bs[k], HEADER) := Payload(m, r[k], HEADER)]
  {
    hide Tiled, Contents;
    FreeIsNotLive(bs, HEADER, lo, hi, k);
    InBounds(bs, HEADER, lo, hi);
    if bs[k].size >= n + HEADER + MIN_REST {
      SplitContents(m, bs, k, n, HEADER, lo, hi);
      TakeContents(m, Split(bs, k, n, HEADER), k, HEADER, lo, hi);
    } else {
      TakeContents(m, bs, k, HEADER, lo, hi);
    }
  }

  /** The list once `ptr`, if it is live, has been freed. */
  ghost function Freed(bs: seq<Block>, ptr: nat): seq<Block>
  {
    if Live(bs, HEADER, ptr) then FreeBlocks(bs, IndexOf(bs, HEADER, ptr)) else bs
  }

  /** Freeing block `k` removes exactly its pointer. */
  lemma FreeContents(m: seq<byte>, bs: seq<Block>, k: nat, lo: nat, hi: nat)
    requires Tiled(bs, HEADER, lo, hi) && hi <= |m| && k < |bs| && !bs[k].free
    ensures Tiled(FreeBlocks(bs, k), HEADER, lo, hi)
    ensures Ptr(bs[k], HEADER) in Contents(m, bs, HEADER)
    ensures Contents(m, FreeBlocks(bs, k), HEADER) == Contents(m, bs, HEADER) - {Ptr(bs[k], HEADER)}
  {
    ReleaseContents(m, bs, k, HEADER, lo, hi);
    var r := Release(bs, k);
    if k > 0 && bs[k - 1].free {
      JoinContents(m, r, k - 1, HEADER, lo, hi);
    } else if k + 1 < |bs| && bs[k + 1].free {
      JoinContents(m, r, k, HEADER, lo, hi);
    }
  }

  /** Block `k` has a free block on either side. */
  predicate BetweenFree(bs: seq<Block>, k: nat)
  {
    0 < k && k + 1 < |bs| && bs[k - 1].free && bs[k + 1].free
  }

  /**
   * After a free there are two free neighbours exactly when there were two before, or when both neighbours of the
   * block were free: the merge stops after the predecessor, and never reaches any others.
   */
  lemma FreeCoalesces(bs: seq<Block>, k: nat)
    requires k < |bs| && !bs[k].free
    ensures NoFreeNeighbours(FreeBlocks(bs, k)) <==> NoFreeNeighbours(bs) && !BetweenFree(bs, k)
  {
    if NoFreeNeighbours(bs) {
      FreeAmongCoalesced(bs, k);
    } else {
      var i, j :| 0 <= i && j == i + 1 < |bs| && bs[i].free && bs[j].free;
      FreeKeepsPair(bs, k, i);
    }
  }

  /** The freed block goes to its free predecessor with a header of 12 bytes; only else it takes a free successor. */
  lemma FreeMerges(bs: seq<Block>, k: nat)
    requires k < |bs|
    ensures var r, b := FreeBlocks(bs, k), bs[k];
      r == if k > 0 && bs[k - 1].free then
             bs[..k - 1] + [Block(bs[k - 1].addr, bs[k - 1].size + 12 + b.size, true)] + bs[k + 1..]
           else if k + 1 < |bs| && bs[k + 1].free then
             bs[..k] + [Block(b.addr, b.size + 12 + bs[k + 1].size, true)] + bs[k + 2..]
           else bs[..k] + [Block(b.addr, b.size, true)] + bs[k + 1..]
  {}

  lemma FreeAmongCoalesced(bs: seq<Block>, k: nat)
    requires k < |bs| && !bs[k].free && NoFreeNeighbours(bs)
    ensures NoFreeNeighbours(FreeBlocks(bs, k)) <==> !BetweenFree(bs, k)
  {
    var r := FreeBlocks(bs, k);
    if k > 0 && bs[k - 1].free {
      assert forall i :: 0 <= i < |r| && i != k - 1 ==> r[i] == if i < k - 1 then bs[i] else bs[i + 1];
      if k + 1 < |bs| && bs[k + 1].free {
        assert r[k - 1].free && r[k].free;
      }
    } else if k + 1 < |bs| && bs[k + 1].free {
      assert forall i :: 0 <= i < |r| && i != k ==> r[i] == if i < k then bs[i] else bs[i + 1];
      var b := k + 2;
      assert b < |bs| ==> !(bs[k + 1].free && bs[b].free);
    }
  }

  /** Two free neighbours elsewhere stay neighbours. */
  lemma FreeKeepsPair(bs: seq<Block>, k: nat, i: nat)
    requires k < |bs| && !bs[k].free && i + 1 < |bs| && bs[i].free && bs[i + 1].free
    ensures !NoFreeNeighbours(FreeBlocks(bs, k))
  {
    var r := FreeBlocks(bs, k);
    var merged := |r| < |bs|;
    var x := if merged && i > k then i - 1 else i;
    var y := x + 1;
    assert r[x].free && r[y].free;
  }

  /** An allocation makes no new free neighbours. */
  lemma CarveCoalesced(bs: seq<Block>, k: nat, n: nat)
    requires k < |bs| && Fits(bs[k], n) && NoFreeNeighbours(bs)
    ensures NoFreeNeighbours(Carve(bs, k, n))
  {
    var r := Carve(bs, k, n);
    if bs[k].size >= n + HEADER + MIN_REST {
      forall i, j | 0 <= i && j == i + 1 < |r|
        ensures !(r[i].free && r[j].free)
      {
        if j < k { assert !(bs[i].free && bs[j].free); }
        if i > k { assert !(bs[i - 1].free && bs[j - 1].free); }
      }
    }
  }

  // ----- The header chain in memory -----

  datatype Header = Header(size: int, free: int, next: int)

  function HeaderAt(m: seq<byte>, a: nat): Header
    requires a + HEADER <= |m|
  {
    Header(Load(m, a), Load(m, a + 4), Load(m, a + 8))
  }

  lemma HeaderSame(m: seq<byte>, m': seq<byte>, a: nat)
    requires a + HEADER <= |m| && Same(m, m', a, a + HEADER)
    ensures HeaderAt(m', a) == HeaderAt(m, a)
  {
    LoadSame(m, m', a);
    LoadSame(m, m', a + 4);
    LoadSame(m, m', a + 8);
  }

  function HeaderOf(bs: seq<Block>, i: nat): Header
    requires i < |bs|
  {
    Header(bs[i].size, if bs[i].free then 1 else 0, AddrAt(bs, i + 1))
  }

  ghost predicate HeaderOk(m: seq<byte>, bs: seq<Block>, i: nat)
  {
    i < |bs| && bs[i].addr + HEADER <= |m| && HeaderAt(m, bs[i].addr) == HeaderOf(bs, i)
  }

  /** Following `next` from the first header visits exactly the blocks of `bs`, in order. */
  ghost predicate Chain(m: seq<byte>, bs: seq<Block>)
  {
    forall i :: 0 <= i < |bs| ==> HeaderOk(m, bs, i)
  }

  /** Outside the header of block `k` and, if it is to be split, the new header inside it. */
  ghost predicate OnlyHeader(m: seq<byte>, m': seq<byte>, a: nat)
  {
    Same(m, m', 0, a) && Same(m, m', a + HEADER, |m|)
  }

  /** One header is rewritten: block `k` stays where it is, `d` blocks behind it disappear. */
  lemma ChainRewritten(m: seq<byte>, m': seq<byte>, bs: seq<Block>, r: seq<Block>, k: nat, d: nat, lo: nat, hi: nat)
    requires Tiled(bs, HEADER, lo, hi) && hi <= |m| && Chain(m, bs)
    requires k + d < |bs| && |r| == |bs| - d
    requires r[..k] == bs[..k] && r[k].addr == bs[k].addr && r[k + 1..] == bs[k + 1 + d..]
    requires OnlyHeader(m, m', bs[k].addr) && HeaderAt(m', bs[k].addr) == HeaderOf(r, k)
    ensures Chain(m', r)
  {
    forall i | 0 <= i < |r|
      ensures HeaderOk(m', r, i)
    {
      if i != k {
        var j := if i < k then i else i + d;
        assert r[i] == bs[j] && AddrAt(r, i + 1) == AddrAt(bs, j + 1);
        assert HeaderOk(m, bs, j);
        assert if j < k then Behind(bs[j], bs[k], HEADER, k == j + 1) else Behind(bs[k], bs[j], HEADER, j == k + 1);
        assert Within(bs[j], HEADER, lo, hi);
        HeaderSame(m, m', bs[j].addr);
      }
    }
  }

  lemma SplitElement(bs: seq<Block>, k: nat, n: nat, i: nat)
    requires k < |bs| && n + HEADER <= bs[k].size && i <= |bs| && i != k && i != k + 1
    ensures var r := Take(Split(bs, k, n, HEADER), k);
      |r| == |bs| + 1 && (i < k ==> r[i] == bs[i]) && (i > k ==> r[i] == bs[i - 1])
      && AddrAt(r, i + 1) == AddrAt(bs, if i < k then i + 1 else i)
  {}

  /** Two headers are written: the shortened block `k` and the block split off behind it. */
  lemma ChainSplit(m: seq<byte>, m': seq<byte>, bs: seq<Block>, r: seq<Block>, k: nat, n: nat, lo: nat, hi: nat)
    requires Tiled(bs, HEADER, lo, hi) && hi <= |m| && Chain(m, bs)
    requires k < |bs| && n + HEADER <= bs[k].size && r == Take(Split(bs, k, n, HEADER), k)
    requires Same(m, m', 0, bs[k].addr) && Same(m, m', bs[k].addr + HEADER + n + HEADER, |m|)
    requires End(bs[k], HEADER) <= |m|
    requires HeaderAt(m', bs[k].addr) == HeaderOf(r, k)
    requires HeaderAt(m', bs[k].addr + HEADER + n) == HeaderOf(r, k + 1)
    ensures Chain(m', r)
  {
    forall i | 0 <= i < |r|
      ensures HeaderOk(m', r, i)
    {
      if i < k || k + 1 < i {
        var j := if i < k then i else i - 1;
        SplitElement(bs, k, n, i);
        assert r[i] == bs[j] && AddrAt(r, i + 1) == AddrAt(bs, j + 1);
        assert HeaderOk(m, bs, j);
        assert if j < k then Behind(bs[j], bs[k], HEADER, k == j + 1) else Behind(bs[k], bs[j], HEADER, j == k + 1);
        assert Within(bs[j], HEADER, lo, hi);
        HeaderSame(m, m', bs[j].addr);
      }
    }
  }

  /** Writing headers leaves the live payloads alone. */
  lemma HeadersAreNotPayload(m: seq<byte>, m': seq<byte>, bs: seq<Block>, k: nat, lo: nat, hi: nat)
    requires Tiled(bs, HEADER, lo, hi) && hi <= |m| == |m'| && k < |bs|
    requires Same(m, m', 0, bs[k].addr)
    requires Same(m, m', if bs[k].free then End(bs[k], HEADER) else bs[k].addr + HEADER, |m|)
    ensures Contents(m', bs, HEADER) == Contents(m, bs, HEADER)
  {
    InBounds(bs, HEADER, lo, hi);
    forall i | 0 <= i < |bs| && !bs[i].free
      ensures Same(m, m', Ptr(bs[i], HEADER), End(bs[i], HEADER))
    {
      assert i < k ==> Behind(bs[i], bs[k], HEADER, k == i + 1);
      assert i > k ==> Behind(bs[k], bs[i], HEADER, i == k + 1);
    }
    hide Tiled;
    ContentsFrame(m, m', bs, HEADER);
  }
}
