/** The kernel heap's best-fit policy (kernel/heap.c): the block list it computes. */
module BestFit {
  import opened Machine
  import opened Memory
  import opened BlockList

  const HEADER: nat := 20          // sizeof(heap_block_t)
  const MIN_ALLOC_SIZE: nat := 32
  const MAGIC_ALLOCATED: int := 0xABCDEF00
  const MAGIC_FREE: int := 0x12345678

  /** memory_align_up, in 32-bit arithmetic. */
  function AlignUp(addr: int, alignment: int): (r: int)
    requires IsUint32(addr) && 0 < alignment < WORD
    ensures IsUint32(r)
  {
    var remainder := addr % alignment;
    if remainder == 0 then addr else Wrap(addr + (alignment - remainder))
  }

  lemma AlignedTo16(addr: int)
    requires IsUint32(addr) && addr <= AlignUp(addr, 16)
    ensures AlignUp(addr, 16) % 16 == 0 && AlignUp(addr, 16) < addr + 16
  {}

  function RoundRequest(size: int): (n: int)
    requires IsUint32(size)
    ensures MIN_ALLOC_SIZE <= n < WORD
  {
    var s := AlignUp(size, 8);
    if s < MIN_ALLOC_SIZE then MIN_ALLOC_SIZE else s
  }

  /** The rounded size covers the request unless the alignment wraps. */
  lemma RoundingCovers(size: int)
    requires IsUint32(size)
    ensures RoundRequest(size) >= size <==> size <= WORD - 8
    ensures size <= 32 || size > WORD - 8 ==> RoundRequest(size) == 32
    ensures 32 < size <= WORD - 8 ==> size <= RoundRequest(size) < size + 8 && RoundRequest(size) % 8 == 0
  {}

  /** `k` is the first of the smallest free blocks of at least `n` bytes; `|bs|` if there is none. */
  predicate IsBest(bs: seq<Block>, n: nat, k: nat)
  {
    && k <= |bs|
    && (k < |bs| ==> Fits(bs[k], n))
    && (forall j :: 0 <= j < |bs| && Fits(bs[j], n) ==> k < |bs| && bs[k].size <= bs[j].size)
    && (forall j :: 0 <= j < k && Fits(bs[j], n) ==> k < |bs| && bs[k].size < bs[j].size)
  }

  function BestFitting(bs: seq<Block>, n: nat): (k: nat)
    ensures IsBest(bs, n, k)
  {
    if bs == [] then 0
    else
      var last := |bs| - 1;
      var k := BestFitting(bs[..last], n);
      if Fits(bs[last], n) && (k == last || bs[last].size < bs[k].size) then last
      else if k == last then |bs| else k
  }

  lemma BestUnique(bs: seq<Block>, n: nat, k: nat, k': nat)
    requires IsBest(bs, n, k) && IsBest(bs, n, k')
    ensures k == k'
  {}

  /** An exact fit cannot be beaten, so the search may stop there. */
  lemma ExactFitIsBest(bs: seq<Block>, n: nat, k: nat)
    requires k < |bs| && IsBest(bs[..k + 1], n, k) && bs[k].size == n
    ensures IsBest(bs, n, k)
  {
    assert forall j :: 0 <= j < k ==> bs[..k + 1][j] == bs[j];
  }

  /** One more block under the cursor. */
  lemma BestStep(bs: seq<Block>, n: nat, i: nat, k: nat)
    requires i < |bs| && IsBest(bs[..i], n, k)
    ensures var better := Fits(bs[i], n) && (k == i || bs[i].size < bs[k].size);
      IsBest(bs[..i + 1], n, if better then i else if k == i then i + 1 else k)
  {
    assert forall j :: 0 <= j < i ==> bs[..i + 1][j] == bs[..i][j];
  }

  /**
   * The size of the rest, computed in `size_t`, is the true size exactly if the chosen block can hold
   * the request and one more header.
   */
  predicate NoWrap(bs: seq<Block>, n: nat)
  {
    var k := BestFitting(bs, n);
    k == |bs| || bs[k].size >= n + HEADER
  }

  function Carve(bs: seq<Block>, k: nat, n: nat): seq<Block>
    requires k < |bs|
  {
    if bs[k].size >= n + HEADER + MIN_ALLOC_SIZE then Take(Split(bs, k, n, HEADER), k) else Take(bs, k)
  }

  function MallocBlocks(bs: seq<Block>, n: nat): seq<Block>
  {
    var k := BestFitting(bs, n);
    if k == |bs| then bs else Carve(bs, k, n)
  }

  /** Block `k` becomes free and is merged with whichever of its neighbours is free. */
  function FreeBlocks(bs: seq<Block>, k: nat): seq<Block>
    requires k < |bs|
  {
    var r := Release(bs, k);
    var r1 := if k + 1 < |bs| && bs[k + 1].free then Join(r, k, HEADER) else r;
    if k > 0 && bs[k - 1].free then Join(r1, k - 1, HEADER) else r1
  }

  /**
   * The block used has exactly `n` bytes if what is left over has room for a header of 20 and 32 bytes more;
   * otherwise it keeps all it has, fewer than `n` + 52 bytes. The rest becomes one free block behind it.
   */
  lemma CarveSizes(bs: seq<Block>, k: nat, n: nat)
    requires k < |bs| && Fits(bs[k], n)
    ensures var r, b := Carve(bs, k, n), bs[k];
      && k < |r| && r[k].addr == b.addr && !r[k].free && n <= r[k].size < n + 52
      && if b.size >= n + 52 then
           && |r| == |bs| + 1 && r[k].size == n && r[k + 1] == Block(b.addr + 20 + n, b.size - n - 20, true)
           && r[..k] == bs[..k] && r[k + 2..] == bs[k + 1..]
         else r[k].size == b.size && |r| == |bs| && r[..k] == bs[..k] && r[k + 1..] == bs[k + 1..]
  {}

  lemma CarveContents(m: seq<byte>, bs: seq<Block>, k: nat, n: nat, lo: nat, hi: nat)
    requires Tiled(bs, HEADER, lo, hi) && hi <= |m| && k < |bs| && Fits(bs[k], n)
    ensures var r := Carve(bs, k, n);
      && Tiled(r, HEADER, lo, hi) && k < |r| && !r[k].free && n <= r[k].size && r[k].addr == bs[k].addr
      && Ptr(bs[k], HEADER) !in Contents(m, bs, HEADER)
      && Contents(m, r, HEADER) == Contents(m, bs, HEADER)[Ptr(bs[k], HEADER) := Payload(m, r[k], HEADER)]
  {
    hide Tiled, Contents;
    FreeIsNotLive(bs, HEADER, lo, hi, k);
    InBounds(bs, HEADER, lo, hi);
    if bs[k].size >= n + HEADER + MIN_ALLOC_SIZE {
      SplitContents(m, bs, k, n, HEADER, lo, hi);
      TakeContents(m, Split(bs, k, n, HEADER), k, HEADER, lo, hi);
    } else {
      TakeContents(m, bs, k, HEADER, lo, hi);
    }
  }

  lemma FreeContents(m: seq<byte>, bs: seq<Block>, k: nat, lo: nat, hi: nat)
    requires Tiled(bs, HEADER, lo, hi) && hi <= |m| && k < |bs| && !bs[k].free
    ensures Tiled(FreeBlocks(bs, k), HEADER, lo, hi)
    ensures Ptr(bs[k], HEADER) in Contents(m, bs, HEADER)
    ensures Contents(m, FreeBlocks(bs, k), HEADER) == Contents(m, bs, HEADER) - {Ptr(bs[k], HEADER)}
  {
    ReleaseContents(m, bs, k, HEADER, lo, hi);
    var r := Release(bs, k);
    var r1 := if k + 1 < |bs| && bs[k + 1].free then Join(r, k, HEADER) else r;
    if k + 1 < |bs| && bs[k + 1].free { JoinContents(m, r, k, HEADER, lo, hi); }
    if k > 0 && bs[k - 1].free { JoinContents(m, r1, k - 1, HEADER, lo, hi); }
  }

  /** Neither operation ever leaves two free neighbours. */
  lemma CarveCoalesced(bs: seq<Block>, k: nat, n: nat)
    requires k < |bs| && Fits(bs[k], n) && NoFreeNeighbours(bs)
    ensures NoFreeNeighbours(Carve(bs, k, n))
  {
    var r := Carve(bs, k, n);
    if bs[k].size >= n + HEADER + MIN_ALLOC_SIZE {
      assert forall i :: 0 <= i < |r| ==>
        r[i].free == if i < k then bs[i].free else if i == k then false else bs[i - 1].free;
      forall i, j | 0 <= i && j == i + 1 < |r|
        ensures !(r[i].free && r[j].free)
      {
        if j < k { assert !(bs[i].free && bs[j].free); }
        if i > k { assert !(bs[i - 1].free && bs[j - 1].free); }
      }
    }
  }

  lemma FreeCoalesced(bs: seq<Block>, k: nat)
    requires k < |bs| && !bs[k].free && NoFreeNeighbours(bs)
    ensures NoFreeNeighbours(FreeBlocks(bs, k))
  {
    var before := k > 0 && bs[k - 1].free;
    var after := k + 1 < |bs| && bs[k + 1].free;
    var at := if before then k - 1 else k;              // where the freed bytes end up
    var end := if after then k + 2 else k + 1;          // what follows them
    var b := FreedBlock(bs, k, at, end);
    if before && k > 1 { var x, y := k - 2, k - 1; assert !(bs[y].free && bs[x].free); }
    if after && k + 2 < |bs| { var x, y := k + 1, k + 2; assert !(bs[x].free && bs[y].free); }
    Enclosed(bs[..at], b, bs[end..]);
  }

  /** The freed block, its free neighbours and the headers of 20 bytes between them become one block. */
  lemma FreedBlock(bs: seq<Block>, k: nat, at: nat, end: nat) returns (b: Block)
    requires k < |bs| && at == (if k > 0 && bs[k - 1].free then k - 1 else k)
    requires end == if k + 1 < |bs| && bs[k + 1].free then k + 2 else k + 1
    ensures end <= |bs| && FreeBlocks(bs, k) == bs[..at] + [b] + bs[end..]
    ensures b.addr == bs[at].addr && b.free
    ensures b.size ==
      (if at < k then bs[at].size + 20 else 0) + bs[k].size + if end > k + 1 then 20 + bs[k + 1].size else 0
  {
    var r := Release(bs, k);
    var r1 := if end == k + 2 then Join(r, k, HEADER) else r;
    assert |r1| == |bs| - (end - k - 1) && r1[..k] == bs[..k] && r1[k + 1..] == bs[end..];
    b := FreeBlocks(bs, k)[at];
    if at < k {
      assert r1[..at] == bs[..at];
    } else {
      assert r1 == r1[..k] + [r1[k]] + r1[k + 1..];
    }
  }

  lemma Enclosed(left: seq<Block>, b: Block, right: seq<Block>)
    requires NoFreeNeighbours(left) && NoFreeNeighbours(right)
    requires (left != [] ==> !left[|left| - 1].free) && (right != [] ==> !right[0].free)
    ensures NoFreeNeighbours(left + [b] + right)
  {
    var r := left + [b] + right;
    forall i, j | 0 <= i && j == i + 1 < |r|
      ensures !(r[i].free && r[j].free)
    {
      if j < |left| { assert !(left[i].free && left[j].free); }
      if i > |left| { var x, y := i - |left| - 1, j - |left| - 1; assert !(right[x].free && right[y].free); }
    }
  }

  // ----- The block counters -----

  function CountFree(bs: seq<Block>): nat
  {
    if bs == [] then 0 else CountFree(bs[..|bs| - 1]) + if bs[|bs| - 1].free then 1 else 0
  }

  lemma {:induction false} CountFreeConcat(a: seq<Block>, b: seq<Block>)
    ensures CountFree(a + b) == CountFree(a) + CountFree(b)
  {
    if b == [] {
      assert a + b == a;
    } else {
      CountFreeConcat(a, b[..|b| - 1]);
      assert (a + b)[..|a + b| - 1] == a + b[..|b| - 1];
    }
  }

  lemma CountFreeReplace(bs: seq<Block>, k: nat, a: nat, mid: seq<Block>)
    requires k + a <= |bs|
    ensures CountFree(bs[..k] + mid + bs[k + a..])
      == CountFree(bs) - CountFree(bs[k..k + a]) + CountFree(mid)
  {
    CountFreeConcat(bs[..k] + mid, bs[k + a..]);
    CountFreeConcat(bs[..k], mid);
    CountFreeConcat(bs[..k] + bs[k..k + a], bs[k + a..]);
    CountFreeConcat(bs[..k], bs[k..k + a]);
    assert bs == bs[..k] + bs[k..k + a] + bs[k + a..];
  }

  lemma CountOne(b: Block)
    ensures CountFree([b]) == if b.free then 1 else 0
  {
    assert [b][..0] == [];
  }

  lemma CountTwo(b: Block, c: Block)
    ensures CountFree([b, c]) == (if b.free then 1 else 0) + (if c.free then 1 else 0)
  {
    CountOne(b);
    assert [b, c][..1] == [b];
  }

  lemma CountSplit(bs: seq<Block>, k: nat, n: nat)
    requires k < |bs| && n + HEADER <= bs[k].size
    ensures CountFree(Split(bs, k, n, HEADER)) == CountFree(bs) + 1
  {
    var r := Split(bs, k, n, HEADER);
    CountFreeReplace(bs, k, 1, r[k..k + 2]);
    assert bs[k..k + 1] == [bs[k]] && r[k..k + 2] == [r[k], r[k + 1]];
    CountOne(bs[k]);
    CountTwo(r[k], r[k + 1]);
  }

  lemma CountJoin(bs: seq<Block>, k: nat)
    requires k + 1 < |bs| && bs[k].free && bs[k + 1].free
    ensures CountFree(Join(bs, k, HEADER)) == CountFree(bs) - 1
  {
    var r := Join(bs, k, HEADER);
    CountFreeReplace(bs, k, 2, [r[k]]);
    assert bs[k..k + 2] == [bs[k], bs[k + 1]];
    CountTwo(bs[k], bs[k + 1]);
    CountOne(r[k]);
  }

  lemma CountMark(bs: seq<Block>, k: nat, free: bool)
    requires k < |bs|
    ensures CountFree(bs[k := bs[k].(free := free)])
      == CountFree(bs) - (if bs[k].free then 1 else 0) + (if free then 1 else 0)
  {
    var b := bs[k].(free := free);
    CountFreeReplace(bs, k, 1, [b]);
    assert bs[k := b] == bs[..k] + [b] + bs[k + 1..] && bs[k..k + 1] == [bs[k]];
    CountOne(bs[k]);
    CountOne(b);
  }
}
