/** Whole runs of the kernel heap in which no split wraps. */
module KernelHeapRuns {
  import opened Machine
  import opened Memory
  import opened BlockList
  import opened BestFit
  import opened KernelChain
  import opened KernelHeap
  import opened AllocatorRuns

  /** What one call does to a heap whose end is `hi`, provided it does not wrap a split. */
  ghost predicate Step(s: State, c: Call, s': State, hi: nat)
  {
    match c
    case Malloc(size, p) =>
      && IsUint32(size)
      && if size == 0 then p == 0 && s' == s
        else
          var n := RoundRequest(size);
          var k := BestFitting(s.blocks, n);
          && NoWrap(s.blocks, n) && s'.blocks == MallocBlocks(s.blocks, n)
          && if k == |s.blocks| then p == 0 && s'.live == s.live
            else
              && p == Ptr(s.blocks[k], HEADER) && Granted(s.live, s'.live, p, n, hi)
              && k < |s'.blocks| && |s'.live[p]| == s'.blocks[k].size
    case Free(p) =>
      && Live(s.blocks, HEADER, p)
      && s' == State(FreeBlocks(s.blocks, IndexOf(s.blocks, HEADER, p)), s.live - {p})
    case Write(p, data) =>
      && p in s.live && |data| <= |s.live[p]|
      && s' == s.(live := s.live[p := data + s.live[p][|data|..]])
  }

  ghost function Snapshot(heap: Heap): State
    requires heap.Valid()
    reads heap, heap.ram
  {
    State(heap.blocks, heap.LiveBytes())
  }

  /**
   * Each method of an initialized heap is such a step and stays within the heap, unless it is an
   * allocation that wraps; that one leaves headers behind that lay out no block list.
   */
  method Perform(heap: Heap, c: Call) returns (done: Call)
    requires heap.Valid() && heap.initialized
    requires match c
      case Malloc(size, _) => IsUint32(size)
      case Free(p) => p in heap.LiveBytes()
      case Write(p, data) => p in heap.LiveBytes() && |data| <= |heap.LiveBytes()[p]|
    modifies heap, heap.ram
    ensures heap.heapEnd == old(heap.heapEnd) && heap.heapStart == old(heap.heapStart) && heap.initialized
    ensures if c.Malloc? then done.Malloc? && done.size == c.size else done == c
    ensures c.Malloc? && c.size > 0 && !NoWrap(old(heap.blocks), RoundRequest(c.size)) ==> heap.Corrupt()
    ensures !(c.Malloc? && c.size > 0 && !NoWrap(old(heap.blocks), RoundRequest(c.size))) ==>
      heap.Valid() && Step(old(Snapshot(heap)), done, Snapshot(heap), heap.heapEnd)
    ensures Same(old(heap.ram[..]), heap.ram[..], 0, heap.heapStart)
  {
    hide WellFormed, Contents, Same, RoundRequest, Load, Carve, FreeBlocks, Granted, NoFreeNeighbours, CountFree,
      IsBest;
    done := c;
    match c
    case Malloc(size, _) =>
      ghost var was, n := Snapshot(heap), RoundRequest(size);
      ghost var k := BestFitting(was.blocks, n);
      BestFits(was.blocks, n);
      var p := heap.Malloc(size);
      done := Malloc(size, p);
      if size > 0 && NoWrap(was.blocks, n) && k < |was.blocks| { GrantedSize(heap, was.blocks, k, n); }
    case Free(p) =>
      PointerBehindHeader(heap, p);
      heap.Free(p);
    case Write(p, data) =>
      heap.Write(p, data);
  }

  lemma BestFits(bs: seq<Block>, n: nat)
    ensures BestFitting(bs, n) <= |bs| && (BestFitting(bs, n) < |bs| ==> Fits(bs[BestFitting(bs, n)], n))
  {
    assert IsBest(bs, n, BestFitting(bs, n));
  }

  lemma GrantedSize(heap: Heap, bs: seq<Block>, k: nat, n: nat)
    requires heap.Valid() && heap.initialized && k < |bs| && heap.blocks == Carve(bs, k, n)
    ensures k < |heap.blocks| && Ptr(heap.blocks[k], HEADER) == Ptr(bs[k], HEADER)
    ensures Ptr(bs[k], HEADER) in heap.LiveBytes()
    ensures |heap.LiveBytes()[Ptr(bs[k], HEADER)]| == heap.blocks[k].size
  {
    ContentsAt(heap.ram[..], heap.blocks, HEADER, heap.heapStart, heap.heapEnd, k);
  }

  lemma PointerBehindHeader(heap: Heap, p: nat)
    requires heap.Valid() && heap.initialized && p in heap.LiveBytes()
    ensures HEADER < p <= heap.ram.Length
  {
    PointerBounds(heap.ram[..], heap.blocks, p, heap.heapStart, heap.heapEnd);
  }

  // ----- Runs -----

  /** The heap right after heap_init. */
  ghost predicate Fresh(s: State, lo: nat, hi: nat)
  {
    lo + HEADER <= hi && s == State([Block(lo, hi - lo - HEADER, true)], map[])
  }

  ghost predicate IsRun(states: seq<State>, calls: seq<Call>, lo: nat, hi: nat)
  {
    && |states| == |calls| + 1 && Fresh(states[0], lo, hi)
    && forall i, j :: 0 <= i && j == i + 1 < |states| ==> Step(states[i], calls[i], states[j], hi)
  }

  ghost predicate HeapInv(s: State, lo: nat, hi: nat)
  {
    Inv(s, HEADER, lo, hi) && NoFreeNeighbours(s.blocks)
  }

  lemma FreshInv(s: State, lo: nat, hi: nat)
    requires Fresh(s, lo, hi)
    ensures HeapInv(s, lo, hi)
  {
    assert LivePtrs(s.blocks, HEADER) == {};
  }

  lemma MallocInv(s: State, size: int, p: nat, s': State, lo: nat, hi: nat)
    requires HeapInv(s, lo, hi) && Step(s, Malloc(size, p), s', hi)
    ensures HeapInv(s', lo, hi)
  {
    hide RoundRequest, NoFreeNeighbours, IsBest, BestFitting;
    if size > 0 {
      var n, m := RoundRequest(size), Zeros(hi);
      var k := BestFitting(s.blocks, n);
      BestFits(s.blocks, n);
      if k < |s.blocks| {
        CarveCoalesced(s.blocks, k, n);
        CarveContents(m, s.blocks, k, n, lo, hi);
        InBounds(s'.blocks, HEADER, lo, hi);
        ContentsAt(m, s'.blocks, HEADER, lo, hi, k);
        Extended(s.live, s'.live, Contents(m, s.blocks, HEADER), Contents(m, s'.blocks, HEADER), p);
      }
    }
  }

  lemma FreeInv(s: State, p: nat, s': State, lo: nat, hi: nat)
    requires HeapInv(s, lo, hi) && Step(s, Free(p), s', hi)
    ensures HeapInv(s', lo, hi)
  {
    var k := IndexOf(s.blocks, HEADER, p);
    FreeCoalesced(s.blocks, k);
    FreeContents(Zeros(hi), s.blocks, k, lo, hi);
    InBounds(s'.blocks, HEADER, lo, hi);
  }

  lemma StepInv(s: State, c: Call, s': State, lo: nat, hi: nat)
    requires HeapInv(s, lo, hi) && Step(s, c, s', hi)
    ensures HeapInv(s', lo, hi)
  {
    hide Inv, RoundRequest, NoFreeNeighbours;
    match c
    case Malloc(size, p) => MallocInv(s, size, p, s', lo, hi);
    case Free(p) => FreeInv(s, p, s', lo, hi);
    case Write(p, data) => WriteKeepsShape(s, p, data, s', HEADER, lo, hi);
  }

  lemma {:induction false} RunInv(states: seq<State>, calls: seq<Call>, lo: nat, hi: nat, i: nat)
    requires IsRun(states, calls, lo, hi) && i < |states|
    ensures HeapInv(states[i], lo, hi)
  {
    if i == 0 {
      FreshInv(states[0], lo, hi);
    } else {
      RunInv(states, calls, lo, hi, i - 1);
      StepInv(states[i - 1], calls[i - 1], states[i], lo, hi);
    }
  }

  /**
   * At every point of such a run the blocks tile the heap, no two neighbours are both free, and the live
   * payloads are disjoint ranges inside the heap.
   */
  lemma RunSafety(states: seq<State>, calls: seq<Call>, lo: nat, hi: nat, i: nat)
    requires IsRun(states, calls, lo, hi) && i < |states|
    ensures var s := states[i];
      && Tiled(s.blocks, HEADER, lo, hi) && TotalBytes(s.blocks, HEADER) == hi - lo
      && NoFreeNeighbours(s.blocks)
      && s.live.Keys == LivePtrs(s.blocks, HEADER)
      && (forall p :: p in s.live ==> lo < p && p + |s.live[p]| <= hi)
      && forall p, q :: p in s.live && q in s.live && p != q ==> p + |s.live[p]| <= q || q + |s.live[q]| <= p
  {
    RunInv(states, calls, lo, hi, i);
    InvMeaning(states[i], HEADER, lo, hi);
  }

  /** No call other than freeing a pointer or writing through it changes a byte behind it. */
  lemma RunKeepsBytes(states: seq<State>, calls: seq<Call>, lo: nat, hi: nat, p: nat, i: nat, j: nat)
    requires IsRun(states, calls, lo, hi) && i <= j < |states| && p in states[i].live
    requires forall t :: i <= t < j ==> !Touches(calls[t], p)
    ensures p in states[j].live && states[j].live[p] == states[i].live[p]
  {
    forall x, y | 0 <= x && y == x + 1 < |states|
      ensures LiveStep(states[x], calls[x], states[y], hi)
    {
      RunInv(states, calls, lo, hi, x);
      assert Step(states[x], calls[x], states[y], hi);
    }
    RunKeepsPayload(states, calls, hi, p, i, j);
  }

  /**
   * A nonzero request is refused exactly when no free block holds the rounded size; otherwise the block
   * used is the first of the smallest that do.
   */
  lemma RunBestFit(states: seq<State>, calls: seq<Call>, lo: nat, hi: nat, i: nat)
    requires IsRun(states, calls, lo, hi) && i < |calls| && calls[i].Malloc? && calls[i].size != 0
    ensures IsUint32(calls[i].size)
    ensures var bs, size, p, live := states[i].blocks, calls[i].size, calls[i].result, states[i + 1].live;
      var n := RoundRequest(size);
      if forall k :: 0 <= k < |bs| ==> !Fits(bs[k], n) then p == 0 && states[i + 1] == states[i]
      else
        && (exists k :: 0 <= k < |bs| && IsBest(bs, n, k) && p == Ptr(bs[k], HEADER))
        && p in live && |live[p]| < 52 + (if size <= 32 then 32 else size + 8)
        && (size <= WORD - 8 ==> size <= |live[p]|)
  {
    var j := i + 1;
    assert Step(states[i], calls[i], states[j], hi);
    var bs, n := states[i].blocks, RoundRequest(calls[i].size);
    var k := BestFitting(bs, n);
    assert IsBest(bs, n, k);
    RoundingCovers(calls[i].size);
    if k < |bs| {
      assert Fits(bs[k], n);
      CarveSizes(bs, k, n);
    }
  }

  // ----- The wrapped split is reachable -----

  /** The kernel's own heap: 4 MB at 8 MB (kernel/kernel.c:1103). */
  const KERNEL_HEAP_START: nat := 0x80_0000
  const KERNEL_HEAP_SIZE: nat := 0x40_0000

  /**
   * On the fresh kernel heap a request wraps the split exactly if its rounded size is one of the last two
   * multiples of eight below the size of the one free block.
   */
  lemma FreshHeapWraps(size: int)
    requires 0 < size < WORD
    ensures var bs := [Block(KERNEL_HEAP_START, KERNEL_HEAP_SIZE - HEADER, true)];
      !NoWrap(bs, RoundRequest(size)) <==> 0x3F_FFD8 < size <= 0x3F_FFE8
  {
    var bs, n := [Block(KERNEL_HEAP_START, KERNEL_HEAP_SIZE - HEADER, true)], RoundRequest(size);
    var k := BestFitting(bs, n);
    assert IsBest(bs, n, k);
    assert k == 0 <==> Fits(bs[0], n);
  }

  /** The fresh kernel heap grants every request up to 0x3FFFE8 bytes, behind its first header, and none above. */
  lemma FreshCapacity(size: int)
    requires 0 < size <= WORD - 8
    ensures var bs := [Block(KERNEL_HEAP_START, KERNEL_HEAP_SIZE - HEADER, true)];
      var k := BestFitting(bs, RoundRequest(size));
      if size <= 0x3F_FFE8 then k == 0 && Ptr(bs[0], HEADER) == 0x80_0014 else k == 1
  {
    RoundingCovers(size);
    var bs, n := [Block(KERNEL_HEAP_START, KERNEL_HEAP_SIZE - HEADER, true)], RoundRequest(size);
    assert IsBest(bs, n, BestFitting(bs, n));
    assert BestFitting(bs, n) == 0 <==> Fits(bs[0], n);
  }

  /** Such a request, made of the freshly initialized kernel heap, destroys it. */
  method BigRequestCorruptsFreshHeap(ram: array<byte>, size: int) returns (heap: Heap)
    requires KERNEL_HEAP_START + KERNEL_HEAP_SIZE + HEADER <= ram.Length <= WORD
    requires 0x3F_FFD8 < size <= 0x3F_FFE8
    modifies ram
    ensures heap.Corrupt() && !heap.Valid()
  {
    heap := new Heap(ram);
    heap.Init(KERNEL_HEAP_START, KERNEL_HEAP_SIZE);
    FreshHeapWraps(size);
    var p := heap.Malloc(size);
  }

  /** Freeing a pointer twice in a row is freeing it once. */
  method FreeTwice(heap: Heap, p: nat)
    requires heap.Valid() && heap.initialized && p in heap.LiveBytes()
    modifies heap, heap.ram
    ensures heap.Valid() && heap.LiveBytes() == old(heap.LiveBytes()) - {p}
    ensures heap.blocks == FreeBlocks(old(heap.blocks), old(IndexOf(heap.blocks, HEADER, p)))
  {
    hide WellFormed, Contents, Same, FreeBlocks, NoFreeNeighbours, CountFree, Load;
    PointerBehindHeader(heap, p);
    heap.Free(p);
    heap.Free(p);
  }
}
