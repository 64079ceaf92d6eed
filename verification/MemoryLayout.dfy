/** Where the kernel heap lies among the frames that the frame allocator manages (kernel/pmm.c, kernel/kernel.c). */
module MemoryLayout {
  import opened FrameBitmap
  import opened KernelHeapRuns

  /** The frame handed out next holds a part of the kernel heap. */
  predicate InKernelHeap(addr: nat) { KERNEL_HEAP_START <= addr < KERNEL_HEAP_START + KERNEL_HEAP_SIZE }

  /** Nothing marks the frames of the kernel heap as used: they are handed out when their turn comes. */
  lemma HeapFramesAreHandedOut(used: set<nat>)
    ensures InKernelHeap(AllocAnswer(used)) <==> 1536 <= LowestFree(used) < 2560
  {
    AnswerIsFrame(used);
  }

  lemma LowestOfFirst(n: nat)
    requires n <= TOTAL_FRAMES
    ensures LowestFree(AllFrames(n)) == n
  {
    LowestFreeUnique(AllFrames(n), n);
  }

  /** After pmm_init, the 1536th allocation answers with the first byte of the kernel heap. */
  method AllocationsReachTheHeap() returns (pmm: Pmm, addr: nat)
    ensures pmm.Valid() && addr == KERNEL_HEAP_START && InKernelHeap(addr)
  {
    hide LowestFree, AllFrames;
    pmm := new Pmm();
    var i := 1;
    while i < 1536
      invariant 1 <= i <= 1536 && pmm.Valid() && pmm.used == AllFrames(i) && fresh(pmm) && fresh(pmm.bitmap)
    {
      LowestOfFirst(i);
      addr := pmm.AllocFrame();
      i := i + 1;
    }
    LowestOfFirst(1536);
    addr := pmm.AllocFrame();
  }
}
