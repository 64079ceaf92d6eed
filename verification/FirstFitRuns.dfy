/** Whole runs of the first-fit allocator: any sequence of allocations, releases and stores by clients. */
module FirstFitRuns {
  import opened Machine
  import opened Memory
  import opened BlockList
  import opened FirstFit
  import opened LibcHeap
  import opened AllocatorRuns

  /** What one call does; `hi` is the end of the heap. */
  ghost predicate Step(s: State, c: Call, s': State, hi: nat)
  {
    match c
    case Malloc(size, p) =>
      && IsUint32(size) && s'.blocks == MallocBlocks(s.blocks, RoundRequest(size))
      && var k := FirstFitting(s.blocks, RoundRequest(size));
        if k == |s.blocks| then p == 0 && s'.live == s.live
        else
          && p == Ptr(s.blocks[k], HEADER) && Granted(s.live, s'.live, p, RoundRequest(size), hi)
          && k < |s'.blocks| && |s'.live[p]| == s'.blocks[k].size
    case Free(p) =>
      && Live(s.blocks, HEADER, p)
      && s' == State(FreeBlocks(s.blocks, IndexOf(s.blocks, HEADER, p)), s.live - {p})
    case Write(p, data) =>
      && p in s.live && |data| <= |s.live[p]|
      && s' == s.(live := s.live[p := data + s.live[p][|data|..]])
  }

  ghost function Snapshot(heap: Heap): State
    requires heap.Valid()
    reads heap, heap.ram
  {
    State(heap.Found(), heap.LiveBytes())
  }

  /** Each method of the heap is such a step. */
  method Perform(heap: Heap, c: Call) returns (done: Call)
    requires heap.Valid()
    requires match c
      case Malloc(size, _) => IsUint32(size)
      case Free(p) => p in heap.LiveBytes()
      case Write(p, data) => p in heap.LiveBytes() && |data| <= |heap.LiveBytes()[p]|
    modifies heap, heap.ram
    ensures heap.Valid()
    ensures if c.Malloc? then done.Malloc? && done.size == c.size else done == c
    ensures Step(old(Snapshot(heap)), done, Snapshot(heap), heap.Limit())
    ensures Same(old(heap.ram[..]), heap.ram[..], 0, heap.base)
    ensures Same(old(heap.ram[..]), heap.ram[..], heap.Limit(), heap.ram.Length)
  {
    hide WellFormed, Contents, Same, RoundRequest, Load, Carve, FreeBlocks, Granted;
    match c
    case Malloc(size, _) =>
      NoNullPointer(heap);
      ghost var k := FirstFitting(heap.Found(), RoundRequest(size));
      ghost var was := Snapshot(heap);
      var p := heap.Malloc(size);
      done := Malloc(size, p);
      if k < |was.blocks| { GrantedSize(heap, was.blocks, k, RoundRequest(size)); }
    case Free(p) =>
      NoNullPointer(heap);
      heap.Free(p);
      done := c;
    case Write(p, data) =>
      heap.Write(p, data);
      done := c;
  }

  lemma GrantedSize(heap: Heap, bs: seq<Block>, k: nat, n: nat)
    requires heap.Valid() && heap.initialized && k < |bs| && heap.blocks == Carve(bs, k, n)
    ensures k < |heap.blocks| && Ptr(heap.blocks[k], HEADER) == Ptr(bs[k], HEADER)
    ensures Ptr(bs[k], HEADER) in heap.LiveBytes()
    ensures |heap.LiveBytes()[Ptr(bs[k], HEADER)]| == heap.blocks[k].size
  {
    ContentsAt(heap.ram[..], heap.blocks, HEADER, heap.base, heap.Limit(), k);
  }

  lemma NoNullPointer(heap: Heap)
    requires heap.Valid()
    ensures 0 !in heap.LiveBytes()
    ensures forall k :: 0 <= k < |heap.Found()| ==> Ptr(heap.Found()[k], HEADER) != 0
    ensures heap.LiveBytes().Keys == LivePtrs(heap.Found(), HEADER)
  {
    if heap.initialized {
      NullIsNotLive(heap.ram[..], heap.blocks, heap.base, heap.Limit());
    }
  }

  // ----- Runs -----

  ghost function Start(lo: nat): State
  {
    State([Block(lo, HEAP_SIZE - HEADER, true)], map[])
  }

  ghost predicate IsRun(states: seq<State>, calls: seq<Call>, lo: nat)
  {
    && |states| == |calls| + 1 && states[0] == Start(lo)
    && forall i, j :: 0 <= i && j == i + 1 < |states| ==> Step(states[i], calls[i], states[j], lo + HEAP_SIZE)
  }

  lemma StartInv(lo: nat)
    ensures Inv(Start(lo), HEADER, lo, lo + HEAP_SIZE)
  {
    assert LivePtrs(Start(lo).blocks, HEADER) == {};
  }

  lemma MallocInv(s: State, size: int, p: nat, s': State, lo: nat, hi: nat)
    requires Inv(s, HEADER, lo, hi) && Step(s, Malloc(size, p), s', hi)
    ensures Inv(s', HEADER, lo, hi)
  {
    var n, m := RoundRequest(size), Zeros(hi);
    var k := FirstFitting(s.blocks, n);
    if k < |s.blocks| {
      CarveContents(m, s.blocks, k, n, lo, hi);
      InBounds(s'.blocks, HEADER, lo, hi);
      ContentsAt(m, s'.blocks, HEADER, lo, hi, k);
      Extended(s.live, s'.live, Contents(m, s.blocks, HEADER), Contents(m, s'.blocks, HEADER), p);
    }
  }

  lemma FreeInv(s: State, p: nat, s': State, lo: nat, hi: nat)
    requires Inv(s, HEADER, lo, hi) && Step(s, Free(p), s', hi)
    ensures Inv(s', HEADER, lo, hi)
  {
    FreeContents(Zeros(hi), s.blocks, IndexOf(s.blocks, HEADER, p), lo, hi);
    InBounds(s'.blocks, HEADER, lo, hi);
  }

  /** Every step keeps the invariant, whatever the client asks for. */
  lemma StepInv(s: State, c: Call, s': State, lo: nat, hi: nat)
    requires Inv(s, HEADER, lo, hi) && Step(s, c, s', hi)
    ensures Inv(s', HEADER, lo, hi)
  {
    hide Inv, RoundRequest;
    match c
    case Malloc(size, p) => MallocInv(s, size, p, s', lo, hi);
    case Free(p) => FreeInv(s, p, s', lo, hi);
    case Write(p, data) => WriteKeepsShape(s, p, data, s', HEADER, lo, hi);
  }

  lemma {:induction false} RunInv(states: seq<State>, calls: seq<Call>, lo: nat, i: nat)
    requires IsRun(states, calls, lo) && i < |states|
    ensures Inv(states[i], HEADER, lo, lo + HEAP_SIZE)
  {
    if i == 0 {
      StartInv(lo);
    } else {
      RunInv(states, calls, lo, i - 1);
      StepInv(states[i - 1], calls[i - 1], states[i], lo, lo + HEAP_SIZE);
    }
  }

  // ----- What holds over every run -----

  /**
   * At every point of every run the blocks tile the heap, so that no byte is lost, and the live payloads
   * are disjoint ranges inside the heap.
   */
  lemma RunSafety(states: seq<State>, calls: seq<Call>, lo: nat, i: nat)
    requires IsRun(states, calls, lo) && i < |states|
    ensures var s, hi := states[i], lo + HEAP_SIZE;
      && Tiled(s.blocks, HEADER, lo, hi) && TotalBytes(s.blocks, HEADER) == HEAP_SIZE
      && s.live.Keys == LivePtrs(s.blocks, HEADER)
      && (forall p :: p in s.live ==> lo < p && p + |s.live[p]| <= hi)
      && forall p, q :: p in s.live && q in s.live && p != q ==> p + |s.live[p]| <= q || q + |s.live[q]| <= p
  {
    RunInv(states, calls, lo, i);
    InvMeaning(states[i], HEADER, lo, lo + HEAP_SIZE);
  }

  /** No call other than freeing a pointer or writing through it changes a byte behind it. */
  lemma RunKeepsBytes(states: seq<State>, calls: seq<Call>, lo: nat, p: nat, i: nat, j: nat)
    requires IsRun(states, calls, lo) && i <= j < |states| && p in states[i].live
    requires forall t :: i <= t < j ==> !Touches(calls[t], p)
    ensures p in states[j].live && states[j].live[p] == states[i].live[p]
  {
    forall x, y | 0 <= x && y == x + 1 < |states|
      ensures LiveStep(states[x], calls[x], states[y], lo + HEAP_SIZE)
    {
      RunInv(states, calls, lo, x);
      assert Step(states[x], calls[x], states[y], lo + HEAP_SIZE);
    }
    RunKeepsPayload(states, calls, lo + HEAP_SIZE, p, i, j);
  }

  /** Whatever is handed out is at least as long as was asked for, exactly if rounding did not wrap. */
  lemma RunGrantsRequest(states: seq<State>, calls: seq<Call>, lo: nat, i: nat)
    requires IsRun(states, calls, lo) && i < |calls| && calls[i].Malloc? && calls[i].result != 0
    requires lo > 0 && lo + HEAP_SIZE <= WORD
    ensures calls[i].result !in states[i].live && calls[i].result in states[i + 1].live
    ensures |states[i + 1].live[calls[i].result]| >= calls[i].size <==> calls[i].size <= WORD - 8
    ensures |states[i + 1].live[calls[i].result]| < 28 + if calls[i].size <= 16 then 16 else calls[i].size + 8
  {
    var size, p: nat := calls[i].size, calls[i].result;
    var j := i + 1;
    assert Step(states[i], calls[i], states[j], lo + HEAP_SIZE);
    RoundingCovers(size);
    RunInv(states, calls, lo, i);
    var k := FirstFitting(states[i].blocks, RoundRequest(size));
    CarveSizes(states[i].blocks, k, RoundRequest(size));
    assert Within(states[i].blocks[k], HEADER, lo, lo + HEAP_SIZE);
    assert p + |states[j].live[p]| <= lo + HEAP_SIZE;
  }

  /** NULL is returned exactly when no free block holds the rounded request; then nothing changes. */
  lemma RunRefusesOnlyWhenFull(states: seq<State>, calls: seq<Call>, lo: nat, i: nat)
    requires IsRun(states, calls, lo) && i < |calls| && calls[i].Malloc? && lo > 0
    ensures IsUint32(calls[i].size)
    ensures calls[i].result == 0 <==>
      forall k :: 0 <= k < |states[i].blocks| ==> !Fits(states[i].blocks[k], RoundRequest(calls[i].size))
    ensures calls[i].result == 0 ==> states[i + 1] == states[i]
  {
    var j := i + 1;
    assert Step(states[i], calls[i], states[j], lo + HEAP_SIZE);
  }

  /** A fresh heap grants every request up to 1048560 bytes, behind its first header, and none above. */
  lemma FreshCapacity(lo: nat, size: int)
    requires 0 <= size <= WORD - 8
    ensures Answer(Start(lo).blocks, size) == if size <= 1048560 then lo + 12 else 0
  {
    RoundingCovers(size);
    var bs, n := Start(lo).blocks, RoundRequest(size);
    FirstFittingUnique(bs, n, if Fits(bs[0], n) then 0 else 1);
  }

  // ----- Two free neighbours -----

  /** The call frees a block that has a free block on either side. */
  ghost predicate FreesBetweenFree(s: State, c: Call)
  {
    c.Free? && Live(s.blocks, HEADER, c.ptr) && BetweenFree(s.blocks, IndexOf(s.blocks, HEADER, c.ptr))
  }

  /** One call on a heap without two free neighbours; and no free ever removes them again. */
  lemma StepCoalesces(s: State, c: Call, s': State, hi: nat)
    requires Step(s, c, s', hi)
    ensures NoFreeNeighbours(s.blocks) ==> (NoFreeNeighbours(s'.blocks) <==> !FreesBetweenFree(s, c))
    ensures c.Free? && !NoFreeNeighbours(s.blocks) ==> !NoFreeNeighbours(s'.blocks)
  {
    hide NoFreeNeighbours, FreeBlocks, BetweenFree, Carve, RoundRequest;
    match c
    case Malloc(size, _) =>
      var n := RoundRequest(size);
      var k := FirstFitting(s.blocks, n);
      if k < |s.blocks| && NoFreeNeighbours(s.blocks) { CarveCoalesced(s.blocks, k, n); }
    case Free(p) => FreeCoalesces(s.blocks, IndexOf(s.blocks, HEADER, p));
    case Write(_, _) =>
  }

  lemma StartIsCoalesced(lo: nat)
    ensures NoFreeNeighbours(Start(lo).blocks)
  {}

  /** A run never has two free neighbours exactly if it never frees a block between two free ones. */
  lemma {:induction false} RunCoalesces(states: seq<State>, calls: seq<Call>, lo: nat, i: nat)
    requires IsRun(states, calls, lo) && i < |states|
    ensures (forall k :: 0 <= k <= i ==> NoFreeNeighbours(states[k].blocks))
      <==> forall k :: 0 <= k < i ==> !FreesBetweenFree(states[k], calls[k])
  {
    hide NoFreeNeighbours, FreesBetweenFree, Step;
    if i == 0 {
      StartIsCoalesced(lo);
    } else {
      RunCoalesces(states, calls, lo, i - 1);
      assert Step(states[i - 1], calls[i - 1], states[i], lo + HEAP_SIZE);
      StepCoalesces(states[i - 1], calls[i - 1], states[i], lo + HEAP_SIZE);
    }
  }

  /** The fresh heap after `n` requests for 16 bytes. */
  function AfterRequests(lo: nat, n: nat): (bs: seq<Block>)
    requires n <= 3
    ensures |bs| == n + 1 && bs[n] == Block(lo + 28 * n, HEAP_SIZE - HEADER - 28 * n, true)
    ensures forall i :: 0 <= i < n ==> bs[i] == Block(lo + 28 * i, 16, false)
  {
    seq(n, i requires 0 <= i => Block(lo + 28 * i, 16, false)) + [Block(lo + 28 * n, HEAP_SIZE - HEADER - 28 * n, true)]
  }

  lemma NextRequest(lo: nat, n: nat)
    requires n < 3
    ensures RoundRequest(16) == 16 && FirstFitting(AfterRequests(lo, n), 16) == n
    ensures MallocBlocks(AfterRequests(lo, n), 16) == AfterRequests(lo, n + 1)
  {
    FirstFittingUnique(AfterRequests(lo, n), 16, n);
  }

  /** The outer two of three blocks are freed: the middle one then has a free block on either side. */
  lemma OuterTwoFreed(lo: nat)
    ensures var bs := AfterRequests(lo, 3);
      var r := FreeBlocks(FreeBlocks(bs, 0), 2);
      && |bs| == 4 && |FreeBlocks(bs, 0)| == 4 && FreeBlocks(bs, 0)[2] == bs[2] && FreeBlocks(bs, 0)[1] == bs[1]
      && |r| == 3 && r[1] == bs[1] && NoFreeNeighbours(r) && !NoFreeNeighbours(FreeBlocks(r, 1))
  {
    var bs := AfterRequests(lo, 3);
    var r1 := FreeBlocks(bs, 0);
    assert r1 == Release(bs, 0);
    var r := FreeBlocks(r1, 2);
    assert r == Join(Release(r1, 2), 2, HEADER);
    assert r[0].free && !r[1].free && r[2].free;
    FreeCoalesces(r, 1);
  }

  method Request16(heap: Heap, ghost n: nat) returns (p: nat)
    requires heap.Valid() && n < 3 && heap.Found() == AfterRequests(heap.base, n)
    modifies heap, heap.ram
    ensures heap.Valid() && heap.initialized && heap.blocks == AfterRequests(heap.base, n + 1)
    ensures p == heap.base + 28 * n + HEADER
  {
    hide WellFormed, Contents, Same, MallocBlocks, RoundRequest, FirstFitting, Granted;
    NextRequest(heap.base, n);
    p := heap.Malloc(16);
  }

  /** Three requests on a fresh heap, and the second block freed last. */
  method FreeingTheMiddleLast(ram: array<byte>, base: nat) returns (heap: Heap)
    requires 0 < base && base + HEAP_SIZE <= ram.Length <= WORD
    modifies ram
    ensures heap.Valid() && heap.initialized && !NoFreeNeighbours(heap.blocks)
  {
    hide WellFormed, Contents, Same, NoFreeNeighbours, Heap.LiveBytes;
    heap := new Heap(ram, base);
    assert heap.Found() == AfterRequests(base, 0);
    var a := Request16(heap, 0);
    var b := Request16(heap, 1);
    var c := Request16(heap, 2);
    OuterTwoFreed(base);
    FreeBlock(heap, a, 0);
    FreeBlock(heap, c, 2);
    FreeBlock(heap, b, 1);
  }

  method FreeBlock(heap: Heap, p: nat, ghost k: nat)
    requires heap.Valid() && heap.initialized && k < |heap.blocks| && !heap.blocks[k].free
    requires p == heap.blocks[k].addr + HEADER
    modifies heap, heap.ram
    ensures heap.Valid() && heap.initialized && heap.blocks == FreeBlocks(old(heap.blocks), k)
  {
    hide WellFormed, Contents, Same, FreeBlocks, Heap.LiveBytes;
    BlockIsLive(heap, k);
    heap.Free(p);
  }

  lemma BlockIsLive(heap: Heap, k: nat)
    requires heap.Valid() && heap.initialized && k < |heap.blocks| && !heap.blocks[k].free
    ensures var p := Ptr(heap.blocks[k], HEADER);
      p in heap.LiveBytes() && Live(heap.blocks, HEADER, p) && IndexOf(heap.blocks, HEADER, p) == k
  {
    IndexUnique(heap.blocks, HEADER, heap.base, heap.Limit(), k);
  }
}
