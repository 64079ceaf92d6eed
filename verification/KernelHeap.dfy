/** The kernel heap working on its header chain in memory (kernel/heap.c). */
module KernelHeap {
  import opened Machine
  import opened Memory
  import opened BlockList
  import opened BestFit
  import opened KernelChain

  class Heap {
    const ram: array<byte>
    var initialized: bool
    var firstBlock: nat
    var heapStart: nat
    var heapEnd: nat
    var blocksAllocated: int
    var blocksFree: int
    ghost var blocks: seq<Block>

    /** The heap is laid out by its headers, fully coalesced, and both counters are exact. */
    ghost predicate Valid()
      reads this, ram
    {
      && ram.Length <= WORD
      && (initialized ==>
        && 0 < heapStart == firstBlock && heapEnd + HEADER <= ram.Length
        && WellFormed(ram[..], blocks, heapStart, heapEnd)
        && NoFreeNeighbours(blocks)
        && blocksFree == CountFree(blocks) && blocksAllocated == |blocks| - CountFree(blocks))
      && (!initialized ==> blocks == [])
    }

    ghost function LiveBytes(): map<nat, seq<byte>>
      requires Valid()
      reads this, ram
    {
      if initialized then Contents(ram[..], blocks, HEADER) else map[]
    }

    /** No list of blocks at all explains what the headers say. */
    ghost predicate Corrupt()
      reads this, ram
    {
      forall bs :: !WellFormed(ram[..], bs, heapStart, heapEnd)
    }

    constructor (ram: array<byte>)
      requires ram.Length <= WORD
      ensures Valid() && !initialized && this.ram == ram
    {
      this.ram := ram;
      initialized, firstBlock, heapStart, heapEnd := false, 0, 0, 0;
      blocksAllocated, blocksFree := 0, 0;
      blocks := [];
    }

    function Word(a: nat): (w: int)
      requires a + 4 <= ram.Length
      reads ram
      ensures IsUint32(w)
    {
      Load(ram[..], a)
    }

    /** One free block from the first 16-byte boundary to the end of the range. */
    method Init(start: nat, size: nat)
      requires Valid() && 0 < start && start + size + HEADER <= ram.Length
      requires start <= AlignUp(start, 16) && AlignUp(start, 16) + HEADER <= start + size
      modifies this, ram
      ensures Valid() && initialized && LiveBytes() == map[]
      ensures heapStart == AlignUp(start, 16) && heapEnd == start + size
      ensures heapStart % 16 == 0 && start <= heapStart < start + 16
      ensures blocks == [Block(heapStart, heapEnd - heapStart - HEADER, true)]
    {
      hide Load, AlignUp;
      AlignedTo16(start);
      heapStart := AlignUp(start, 16);
      var alignedSize := size - (heapStart - start);
      heapEnd := heapStart + alignedSize;
      blocksAllocated := 0;
      blocksFree := 1;
      firstBlock := heapStart;
      WriteHeader(firstBlock, Header(alignedSize - HEADER, 1, MAGIC_FREE, 0, 0));
      initialized := true;
      blocks := [Block(heapStart, heapEnd - heapStart - HEADER, true)];
      assert HeaderOk(ram[..], blocks, 0);
      CountOne(blocks[0]);
    }

    /** Fill in all five fields of a header. */
    method WriteHeader(a: nat, h: Header)
      requires a + HEADER <= ram.Length
      requires IsUint32(h.size) && IsUint32(h.free) && IsUint32(h.magic) && IsUint32(h.next) && IsUint32(h.prev)
      modifies ram
      ensures HeaderAt(ram[..], a) == h
      ensures forall b: nat {:trigger Load(ram[..], b)} ::
        b + 4 <= ram.Length && (b + 4 <= a || a + HEADER <= b) ==> Load(ram[..], b) == Load(old(ram[..]), b)
      ensures Same(old(ram[..]), ram[..], 0, a) && Same(old(ram[..]), ram[..], a + HEADER, ram.Length)
    {
      hide Load;
      StoreWord(ram, a, h.size);
      StoreWord(ram, a + 4, h.free);
      StoreWord(ram, a + 8, h.magic);
      StoreWord(ram, a + 12, h.next);
      StoreWord(ram, a + 16, h.prev);
    }

    /** The first of the smallest free blocks that hold `n` bytes; the search stops at an exact fit. */
    method FindBestFit(n: nat) returns (best: nat)
      requires Valid() && initialized && n < WORD
      ensures best == AddrAt(blocks, BestFitting(blocks, n))
      ensures best == 0 <==> BestFitting(blocks, n) == |blocks|
    {
      hide Load, WellFormed, BestFitting, IsBest;
      var current := firstBlock;
      best := 0;
      var bestSize := UINT_MAX;
      ghost var i: nat, k: nat := 0, 0;
      CursorStart(ram[..], blocks, heapStart, heapEnd);
      BestOfNone(blocks, n);
      while current != 0
        invariant i <= |blocks| && current == AddrAt(blocks, i)
        invariant k <= i && IsBest(blocks[..i], n, k)
        invariant if k == i then best == 0 && bestSize == UINT_MAX
          else best == blocks[k].addr && bestSize == blocks[k].size
        decreases |blocks| - i
      {
        NullBehindTheLast(ram[..], blocks, i, heapStart, heapEnd);
        CursorOk(ram[..], blocks, i, heapStart, heapEnd);
        BestStep(blocks, n, i, k);
        if Word(current + 4) != 0 && Word(current) >= n && Word(current) < bestSize {
          best := current;
          bestSize := Word(current);
          k := i;
          if Word(current) == n {
            ExactFitIsBest(blocks, n, k);
            BestUnique(blocks, n, k, BestFitting(blocks, n));
            BestExists(blocks, n);
            return;
          }
        } else if k == i {
          k := i + 1;
        }
        current := Word(current + 12);
        i := i + 1;
      }
      NullBehindTheLast(ram[..], blocks, i, heapStart, heapEnd);
      assert blocks[..i] == blocks;
      BestExists(blocks, n);
      BestUnique(blocks, n, k, BestFitting(blocks, n));
      NullBehindTheLast(ram[..], blocks, k, heapStart, heapEnd);
    }

    /**
     * Split off the rest of a free block. The size of the rest is computed modulo 2^32: if the block cannot
     * hold the request and one more header, the rest comes out huge and is linked in all the same.
     */
    method SplitBlock(block: nat, n: nat, ghost k: nat)
      requires Valid() && initialized && k < |blocks| && Fits(blocks[k], n) && block == blocks[k].addr
      modifies ram, `blocksFree
      ensures blocks[k].size >= n + HEADER + MIN_ALLOC_SIZE ==>
        && WellFormed(ram[..], Split(blocks, k, n, HEADER), heapStart, heapEnd)
        && Contents(ram[..], Split(blocks, k, n, HEADER), HEADER) == old(LiveBytes())
        && blocksFree == old(blocksFree) + 1
      ensures n + HEADER <= blocks[k].size < n + HEADER + MIN_ALLOC_SIZE ==>
        ram[..] == old(ram[..]) && blocksFree == old(blocksFree)
      ensures blocks[k].size < n + HEADER ==>
        && block + HEADER + n + HEADER <= ram.Length
        && HeaderAt(ram[..], block).next == block + HEADER + n
        && Load(ram[..], block + HEADER + n) == Wrap(blocks[k].size - n - HEADER)
        && Same(old(ram[..]), ram[..], 0, block)
      ensures Same(old(ram[..]), ram[..], 0, heapStart)
      ensures n + HEADER <= blocks[k].size ==> Same(old(ram[..]), ram[..], heapEnd, ram.Length)
    {
      hide Load, WellFormed, Contents, Same, NoFreeNeighbours, CountFree;
      SameRefl(ram[..]);
      ghost var m0 := ram[..];
      CursorOk(m0, blocks, k, heapStart, heapEnd);
      var remainingSize := Wrap(Word(block) - n - HEADER);
      if remainingSize >= MIN_ALLOC_SIZE {
        LinkRest(block, n, remainingSize, k);
        blocksFree := blocksFree + 1;
      }
    }

    /** Write the header of the rest, link it in behind the block and shorten the block. */
    method LinkRest(block: nat, n: nat, remainingSize: int, ghost k: nat)
      requires Valid() && initialized && k < |blocks| && Fits(blocks[k], n) && block == blocks[k].addr
      requires remainingSize == Wrap(blocks[k].size - n - HEADER)
      modifies ram
      ensures n + HEADER <= blocks[k].size ==>
        && WellFormed(ram[..], Split(blocks, k, n, HEADER), heapStart, heapEnd)
        && Contents(ram[..], Split(blocks, k, n, HEADER), HEADER) == old(LiveBytes())
        && Same(old(ram[..]), ram[..], heapEnd, ram.Length)
      ensures block + HEADER + n + HEADER <= ram.Length
      ensures HeaderAt(ram[..], block).next == block + HEADER + n
      ensures Load(ram[..], block + HEADER + n) == remainingSize
      ensures Same(old(ram[..]), ram[..], 0, block) && Same(old(ram[..]), ram[..], 0, heapStart)
    {
      hide Load, WellFormed, Contents, NoFreeNeighbours, CountFree;
      ghost var m0, bs := ram[..], blocks;
      CursorOk(m0, bs, k, heapStart, heapEnd);
      if k + 1 < |bs| {
        CursorOk(m0, bs, k + 1, heapStart, heapEnd);
        Neighbours(m0, bs, k, heapStart, heapEnd);
      }
      NullBehindTheLast(m0, bs, k + 1, heapStart, heapEnd);
      var newBlock := block + HEADER + n;
      WriteHeader(newBlock, Header(remainingSize, 1, MAGIC_FREE, Word(block + 12), block));
      if Word(block + 12) != 0 {
        StoreWord(ram, Word(block + 12) + 16, newBlock);
      }
      StoreWord(ram, block + 12, newBlock);
      StoreWord(ram, block, n);
      if n + HEADER <= bs[k].size {
        SplitWritten(m0, ram[..], bs, k, n, heapStart, heapEnd);
      }
    }

    /** Set the `free` and `magic` fields of a header. */
    method Mark(a: nat, free: bool)
      requires a + HEADER <= ram.Length
      modifies ram
      ensures HeaderAt(ram[..], a) == HeaderAt(old(ram[..]), a)
        .(free := if free then 1 else 0, magic := if free then MAGIC_FREE else MAGIC_ALLOCATED)
      ensures forall b: nat {:trigger Load(ram[..], b)} ::
        b + 4 <= ram.Length && (b + 4 <= a || a + HEADER <= b) ==> Load(ram[..], b) == Load(old(ram[..]), b)
      ensures Same(old(ram[..]), ram[..], 0, a) && Same(old(ram[..]), ram[..], a + HEADER, ram.Length)
    {
      hide Load;
      StoreWord(ram, a + 4, if free then 1 else 0);
      StoreWord(ram, a + 8, if free then MAGIC_FREE else MAGIC_ALLOCATED);
    }

    /** The pointer a request is answered with: behind the header of the best block. */
    ghost function Choice(n: nat): nat
      reads this
    {
      var k := BestFitting(blocks, n);
      if k < |blocks| then Ptr(blocks[k], HEADER) else 0
    }

    /**
     * Allocate. The heap stays well formed exactly if no request is made of a block that cannot hold it
     * and one more header; then the best-fitting block is used and no other payload is touched.
     */
    method Malloc(size: int) returns (p: nat)
      requires Valid() && IsUint32(size)
      modifies this, ram
      ensures initialized == old(initialized) && heapStart == old(heapStart) && heapEnd == old(heapEnd)
      ensures !initialized || size == 0 ==>
        p == 0 && Valid() && LiveBytes() == old(LiveBytes()) && blocks == old(blocks) && ram[..] == old(ram[..])
      ensures initialized && size != 0 ==> p == old(Choice(RoundRequest(size)))
      ensures initialized && size != 0 && old(NoWrap(blocks, RoundRequest(size))) ==>
        && Valid() && blocks == MallocBlocks(old(blocks), RoundRequest(size))
        && (if p == 0 then LiveBytes() == old(LiveBytes())
            else Granted(old(LiveBytes()), LiveBytes(), p, RoundRequest(size), heapEnd)
                 && |LiveBytes()[p]| < RoundRequest(size) + 52)
        && Same(old(ram[..]), ram[..], heapEnd, ram.Length)
      ensures initialized && size != 0 && !old(NoWrap(blocks, RoundRequest(size))) ==> Corrupt()
      ensures Same(old(ram[..]), ram[..], 0, heapStart)
    {
      hide RoundRequest, Contents, BestFitting, WellFormed, Granted, Same, NoFreeNeighbours, CountFree, Carve;
      SameRefl(ram[..]);
      if !initialized {
        return 0;
      }
      if size == 0 {
        return 0;
      }
      var n := RoundRequest(size);
      var block := FindBestFit(n);
      if block == 0 {
        return 0;
      }
      ghost var k := BestFitting(blocks, n);
      BestExists(blocks, n);
      ghost var bs := blocks;
      p := TakeBlock(block, n, k);
      if bs[k].size >= n + HEADER { GrantSize(ram[..], bs, k, n, heapStart, heapEnd); }
    }

    method TakeBlock(block: nat, n: nat, ghost k: nat) returns (p: nat)
      requires Valid() && initialized && k < |blocks| && Fits(blocks[k], n) && block == blocks[k].addr
      modifies this, ram
      ensures initialized && heapStart == old(heapStart) && heapEnd == old(heapEnd) && p == block + HEADER
      ensures old(blocks[k].size) >= n + HEADER ==>
        && Valid() && blocks == Carve(old(blocks), k, n)
        && Granted(old(LiveBytes()), LiveBytes(), p, n, heapEnd)
        && Same(old(ram[..]), ram[..], heapEnd, ram.Length)
      ensures old(blocks[k].size) < n + HEADER ==> Corrupt()
      ensures Same(old(ram[..]), ram[..], 0, heapStart)
    {
      hide Load, WellFormed, Contents, Granted, Same, NoFreeNeighbours, CountFree;
      ghost var m0, bs := ram[..], blocks;
      SameRefl(m0);
      CursorOk(m0, bs, k, heapStart, heapEnd);
      SplitBlock(block, n, k);
      ghost var m1 := ram[..];
      Mark(block, false);
      blocksAllocated := blocksAllocated + 1;
      blocksFree := blocksFree - 1;
      ghost var m2 := ram[..];
      if bs[k].size >= n + HEADER {
        ghost var bs1 := if bs[k].size >= n + HEADER + MIN_ALLOC_SIZE then Split(bs, k, n, HEADER) else bs;
        TakenBlock(m0, m1, m2, bs, bs1, k, n, heapStart, heapEnd);
        blocks := Carve(bs, k, n);
        SameTrans(m0, m1, m2, heapEnd, ram.Length);
        SameTrans(m0, m1, m2, 0, heapStart);
      } else {
        SameTrans(m0, m1, m2, 0, block);
        SamePart(m0, m2, 0, block, 0, heapStart);
        WrappedSplitCorrupts(m0, m2, bs, k, n, heapStart, heapEnd);
      }
      return block + HEADER;
    }

    /** The block takes over its successor: size, header and the link behind it. */
    method Absorb(block: nat, victim: nat, ghost bs: seq<Block>, ghost k: nat)
      requires ram.Length <= WORD && 0 < heapStart && WellFormed(ram[..], bs, heapStart, heapEnd)
      requires k + 1 < |bs| && bs[k].free && bs[k + 1].free
      requires block == bs[k].addr && victim == bs[k + 1].addr
      modifies ram
      ensures WellFormed(ram[..], Join(bs, k, HEADER), heapStart, heapEnd)
      ensures Contents(ram[..], Join(bs, k, HEADER), HEADER) == Contents(old(ram[..]), bs, HEADER)
      ensures victim + HEADER <= ram.Length && Load(ram[..], victim + 8) == MAGIC_FREE
      ensures Same(old(ram[..]), ram[..], 0, heapStart) && Same(old(ram[..]), ram[..], heapEnd, ram.Length)
    {
      hide Load, WellFormed, Contents;
      ghost var m0 := ram[..];
      CursorOk(m0, bs, k, heapStart, heapEnd);
      CursorOk(m0, bs, k + 1, heapStart, heapEnd);
      Neighbours(m0, bs, k, heapStart, heapEnd);
      if k + 2 < |bs| {
        CursorOk(m0, bs, k + 2, heapStart, heapEnd);
        Neighbours(m0, bs, k + 1, heapStart, heapEnd);
      }
      NullBehindTheLast(m0, bs, k + 2, heapStart, heapEnd);
      StoreWord(ram, block, Wrap(Word(block) + HEADER + Word(victim)));
      StoreWord(ram, block + 12, Word(victim + 12));
      if Word(victim + 12) != 0 {
        StoreWord(ram, Word(victim + 12) + 16, block);
      }
      JoinWritten(m0, ram[..], bs, k, heapStart, heapEnd);
    }

    method MergeWithPrevious(block: nat, ghost k: nat)
      requires ram.Length <= WORD && 0 < heapStart && WellFormed(ram[..], blocks, heapStart, heapEnd)
      requires k < |blocks| && blocks[k].free && block == blocks[k].addr && blocksFree == CountFree(blocks)
      modifies this`blocks, this`blocksFree, ram
      ensures WellFormed(ram[..], blocks, heapStart, heapEnd)
      ensures block + HEADER <= ram.Length && Load(ram[..], block + 8) == MAGIC_FREE
      ensures blocks == if k > 0 && old(blocks[k - 1].free) then Join(old(blocks), k - 1, HEADER) else old(blocks)
      ensures Contents(ram[..], blocks, HEADER) == Contents(old(ram[..]), old(blocks), HEADER)
      ensures blocksFree == CountFree(blocks) && |blocks| - blocksFree == old(|blocks| - blocksFree)
      ensures Same(old(ram[..]), ram[..], 0, heapStart) && Same(old(ram[..]), ram[..], heapEnd, ram.Length)
    {
      hide Load, WellFormed, Contents, Same, CountFree;
      SameRefl(ram[..]);
      CursorOk(ram[..], blocks, k, heapStart, heapEnd);
      NullBehindTheLast(ram[..], blocks, k, heapStart, heapEnd);
      if k > 0 { CursorOk(ram[..], blocks, k - 1, heapStart, heapEnd); }
      if Word(block + 16) != 0 && Word(Word(block + 16) + 4) != 0 {
        var prev := Word(block + 16);
        CountJoin(blocks, k - 1);
        Absorb(prev, block, blocks, k - 1);
        blocks := Join(blocks, k - 1, HEADER);
        blocksFree := blocksFree - 1;
      }
    }

    method MergeWithNext(block: nat, ghost k: nat)
      requires ram.Length <= WORD && 0 < heapStart && WellFormed(ram[..], blocks, heapStart, heapEnd)
      requires k < |blocks| && blocks[k].free && block == blocks[k].addr && blocksFree == CountFree(blocks)
      modifies this`blocks, this`blocksFree, ram
      ensures WellFormed(ram[..], blocks, heapStart, heapEnd)
      ensures blocks ==
        if k + 1 < old(|blocks|) && old(blocks[k + 1].free) then Join(old(blocks), k, HEADER) else old(blocks)
      ensures Contents(ram[..], blocks, HEADER) == Contents(old(ram[..]), old(blocks), HEADER)
      ensures blocksFree == CountFree(blocks) && |blocks| - blocksFree == old(|blocks| - blocksFree)
      ensures Same(old(ram[..]), ram[..], 0, heapStart) && Same(old(ram[..]), ram[..], heapEnd, ram.Length)
    {
      hide Load, WellFormed, Contents, Same, CountFree;
      SameRefl(ram[..]);
      CursorOk(ram[..], blocks, k, heapStart, heapEnd);
      NullBehindTheLast(ram[..], blocks, k + 1, heapStart, heapEnd);
      if k + 1 < |blocks| { CursorOk(ram[..], blocks, k + 1, heapStart, heapEnd); }
      if Word(block + 12) != 0 && Word(Word(block + 12) + 4) != 0 {
        var next := Word(block + 12);
        CountJoin(blocks, k);
        Absorb(block, next, blocks, k);
        blocks := Join(blocks, k, HEADER);
        blocksFree := blocksFree - 1;
      }
    }

    /** Merge the block just freed with its successor, then with its predecessor, if they are free. */
    method MergeFreeBlocks(block: nat, ghost bs: seq<Block>, ghost k: nat)
      requires ram.Length <= WORD && 0 < heapStart && WellFormed(ram[..], blocks, heapStart, heapEnd)
      requires k < |bs| && !bs[k].free && blocks == Release(bs, k) && block == bs[k].addr
      requires blocksFree == CountFree(blocks)
      modifies this`blocks, this`blocksFree, ram
      ensures WellFormed(ram[..], blocks, heapStart, heapEnd) && blocks == FreeBlocks(bs, k)
      ensures block + HEADER <= ram.Length && Load(ram[..], block + 8) == MAGIC_FREE
      ensures Contents(ram[..], blocks, HEADER) == Contents(old(ram[..]), old(blocks), HEADER)
      ensures blocksFree == CountFree(blocks) && |blocks| - blocksFree == old(|blocks| - blocksFree)
      ensures Same(old(ram[..]), ram[..], 0, heapStart) && Same(old(ram[..]), ram[..], heapEnd, ram.Length)
    {
      hide Load, WellFormed, Contents, Same, CountFree;
      ghost var m0 := ram[..];
      MergeWithNext(block, k);
      ghost var m1 := ram[..];
      MergeWithPrevious(block, k);
      SameTrans(m0, m1, ram[..], 0, heapStart);
      SameTrans(m0, m1, ram[..], heapEnd, ram.Length);
    }

    /**
     * Free. A pointer whose header does not carry the magic number of a used block is rejected and nothing
     * changes; otherwise exactly that pointer goes, and the heap is again fully coalesced. In either case the
     * header does not carry that number afterwards, so that freeing the pointer at once again is rejected.
     */
    method Free(ptr: nat)
      requires Valid()
      requires initialized && ptr != 0 ==> HEADER <= ptr <= ram.Length
      requires initialized && ptr != 0 && Load(ram[..], ptr - HEADER + 8) == MAGIC_ALLOCATED ==> ptr in LiveBytes()
      modifies this, ram
      ensures Valid()
      ensures initialized == old(initialized) && heapStart == old(heapStart) && heapEnd == old(heapEnd)
      ensures LiveBytes() == old(LiveBytes()) - {ptr}
      ensures blocks == if old(ptr in LiveBytes()) then FreeBlocks(old(blocks), old(IndexOf(blocks, HEADER, ptr)))
        else old(blocks)
      ensures initialized && ptr != 0 ==> Load(ram[..], ptr - HEADER + 8) != MAGIC_ALLOCATED
      ensures old(ptr in LiveBytes()) ==> initialized && ptr <= ram.Length && Load(ram[..], ptr - 12) == 0x1234_5678
      ensures Same(old(ram[..]), ram[..], 0, heapStart) && Same(old(ram[..]), ram[..], heapEnd, ram.Length)
    {
      hide Load, WellFormed, Contents, Same, CountFree, NoFreeNeighbours, FreeBlocks;
      SameRefl(ram[..]);
      if ptr == 0 || !initialized {
        NullIsNotLive(this);
        return;
      }
      var block := ptr - HEADER;
      LiveMagic(this, ptr);
      if Word(block + 8) != MAGIC_ALLOCATED {
        return;
      }
      ghost var m0, bs := ram[..], blocks;
      ghost var k := IndexOf(bs, HEADER, ptr);
      CursorOk(m0, bs, k, heapStart, heapEnd);
      Mark(block, true);
      ghost var m1 := ram[..];
      blocksAllocated := blocksAllocated - 1;
      blocksFree := blocksFree + 1;
      ReleasedBlock(m0, m1, bs, k, heapStart, heapEnd);
      blocks := Release(bs, k);
      MergeFreeBlocks(block, bs, k);
      SameTrans(m0, m1, ram[..], 0, heapStart);
      SameTrans(m0, m1, ram[..], heapEnd, ram.Length);
    }

    /** Count the headers and check each magic number and address; more than 10000 blocks is an error. */
    method Validate() returns (ok: bool)
      requires Valid()
      ensures ok <==> initialized && |blocks| <= 10000
    {
      hide Load, WellFormed, NoFreeNeighbours, CountFree;
      if !initialized {
        return false;
      }
      var current := firstBlock;
      var blockCount := 0;
      var errors := 0;
      CursorStart(ram[..], blocks, heapStart, heapEnd);
      NullBehindTheLast(ram[..], blocks, 0, heapStart, heapEnd);
      while current != 0
        invariant blockCount <= |blocks| && current == AddrAt(blocks, blockCount)
        invariant errors == 0 && blockCount <= 10000
        invariant current == 0 ==> blockCount == |blocks|
        decreases |blocks| - blockCount
      {
        CursorOk(ram[..], blocks, blockCount, heapStart, heapEnd);
        NullBehindTheLast(ram[..], blocks, blockCount + 1, heapStart, heapEnd);
        blockCount := blockCount + 1;
        var expectedMagic := if Word(current + 4) != 0 then MAGIC_FREE else MAGIC_ALLOCATED;
        if Word(current + 8) != expectedMagic {
          errors := errors + 1;
        }
        if current < heapStart || current >= heapEnd {
          errors := errors + 1;
        }
        current := Word(current + 12);
        if blockCount > 10000 {
          errors := errors + 1;
          break;
        }
      }
      return errors == 0;
    }

    /** A client storing `data` through a pointer it holds, with memcpy. */
    method Write(p: nat, data: seq<byte>)
      requires Valid() && p in LiveBytes() && |data| <= |LiveBytes()[p]|
      modifies ram
      ensures Valid() && LiveBytes() == old(LiveBytes())[p := data + old(LiveBytes())[p][|data|..]]
      ensures Same(old(ram[..]), ram[..], 0, heapStart) && Same(old(ram[..]), ram[..], heapEnd, ram.Length)
    {
      hide WellFormed, Contents, Same, NoFreeNeighbours, CountFree;
      PointerBounds(ram[..], blocks, p, heapStart, heapEnd);
      WrittenBlock(ram[..], blocks, p, data, heapStart, heapEnd);
      CopyIn(ram, p, data, |data|);
      assert data[..|data|] == data;
    }

    /**
     * Resize a block: keep it in place, or move its bytes to a larger one, or return NULL and change
     * nothing. The one request that is passed on to Malloc must not wrap there.
     */
    method Realloc(ptr: nat, size: int) returns (p: nat)
      requires Valid() && 0 <= size <= WORD - 8
      requires ptr != 0 ==> initialized && HEADER <= ptr <= ram.Length
      requires ptr != 0 && Load(ram[..], ptr - HEADER + 8) == MAGIC_ALLOCATED ==> ptr in LiveBytes()
      requires size > 0 && (ptr in LiveBytes() ==> |LiveBytes()[ptr]| < RoundRequest(size)) ==>
        NoWrap(blocks, RoundRequest(size))
      modifies this, ram
      ensures Valid() && heapStart == old(heapStart) && heapEnd == old(heapEnd)
      ensures ptr == 0 ==> p == if initialized && size > 0 then old(Choice(RoundRequest(size))) else 0
      ensures ptr == 0 && p == 0 ==> LiveBytes() == old(LiveBytes())
      ensures ptr == 0 && p != 0 ==> Granted(old(LiveBytes()), LiveBytes(), p, size, heapEnd)
      ensures ptr != 0 && size == 0 ==> p == 0 && LiveBytes() == old(LiveBytes()) - {ptr}
      ensures ptr != 0 && size > 0 && ptr in old(LiveBytes()) ==>
        p == if RoundRequest(size) <= old(|LiveBytes()[ptr]|) then ptr else old(Choice(RoundRequest(size)))
      ensures ptr != 0 && size > 0 && ptr in old(LiveBytes()) ==>
        Resized(old(LiveBytes()), LiveBytes(), ptr, p, size)
      ensures ptr != 0 && size > 0 && ptr !in old(LiveBytes()) ==> p == 0 && LiveBytes() == old(LiveBytes())
      ensures ptr != 0 && size > 0 && ptr in old(LiveBytes()) ==>
        (p == 0 <==> old(|LiveBytes()[ptr]|) < RoundRequest(size) && old(Choice(RoundRequest(size))) == 0)
      ensures Same(old(ram[..]), ram[..], 0, heapStart) && Same(old(ram[..]), ram[..], heapEnd, ram.Length)
    {
      hide Load, WellFormed, Contents, Same, NoFreeNeighbours, CountFree, RoundRequest, MallocBlocks, FreeBlocks,
        Choice, NoWrap;
      SameRefl(ram[..]);
      RoundingCovers(size);
      if ptr == 0 {
        p := Malloc(size);
        return;
      }
      if size == 0 {
        Free(ptr);
        return 0;
      }
      var block := ptr - HEADER;
      LiveMagic(this, ptr);
      if Word(block + 8) != MAGIC_ALLOCATED {
        return 0;
      }
      var n := RoundRequest(size);
      BlockSize(ram[..], blocks, ptr, heapStart, heapEnd);
      if n <= Word(block) {
        return ptr;
      }
      RoundingIdempotent(size);
      ghost var m0 := ram[..];
      p := Malloc(n);
      if p == 0 {
        return;
      }
      ghost var m1 := ram[..];
      MoveBlock(ptr, p);
      SameTrans(m0, m1, ram[..], 0, heapStart);
      SameTrans(m0, m1, ram[..], heapEnd, ram.Length);
    }

    /** Copy a block into a larger one and free it. */
    method MoveBlock(ptr: nat, p: nat)
      requires Valid() && ptr in LiveBytes() && p in LiveBytes() && p != ptr
      requires |LiveBytes()[ptr]| <= |LiveBytes()[p]|
      modifies this, ram
      ensures Valid() && heapStart == old(heapStart) && heapEnd == old(heapEnd)
      ensures LiveBytes() == var c := old(LiveBytes()); c[p := c[ptr] + c[p][|c[ptr]|..]] - {ptr}
      ensures Same(old(ram[..]), ram[..], 0, heapStart) && Same(old(ram[..]), ram[..], heapEnd, ram.Length)
    {
      hide WellFormed, Contents, Same, Load, FreeBlocks, NoFreeNeighbours, CountFree;
      var block := ptr - HEADER;
      ghost var m1, c, n := ram[..], LiveBytes(), |LiveBytes()[ptr]|;
      BlockSize(m1, blocks, ptr, heapStart, heapEnd);
      PointersApart(m1, blocks, ptr, p, heapStart, heapEnd);
      PointerBounds(m1, blocks, ptr, heapStart, heapEnd);
      PointerBounds(m1, blocks, p, heapStart, heapEnd);
      WrittenBlock(m1, blocks, p, c[ptr], heapStart, heapEnd);
      MemCopy(ram, p, ptr, Word(block));
      ghost var m2 := ram[..];
      Free(ptr);
      SameTrans(m1, m2, ram[..], 0, heapStart);
      SameTrans(m1, m2, ram[..], heapEnd, ram.Length);
    }
  }

  lemma BestOfNone(bs: seq<Block>, n: nat)
    ensures IsBest(bs[..0], n, 0)
  {}

  lemma BestExists(bs: seq<Block>, n: nat)
    ensures IsBest(bs, n, BestFitting(bs, n))
  {}

  lemma TakenBlock(m0: seq<byte>, m1: seq<byte>, m2: seq<byte>, bs: seq<Block>, bs1: seq<Block>, k: nat, n: nat,
                   lo: nat, hi: nat)
    requires WellFormed(m0, bs, lo, hi) && NoFreeNeighbours(bs) && |m0| == |m1| == |m2|
    requires k < |bs| && Fits(bs[k], n) && bs[k].size >= n + HEADER && bs[k].addr + HEADER <= |m0|
    requires bs1 == if bs[k].size >= n + HEADER + MIN_ALLOC_SIZE then Split(bs, k, n, HEADER) else bs
    requires WellFormed(m1, bs1, lo, hi) && Contents(m1, bs1, HEADER) == Contents(m0, bs, HEADER)
    requires HeaderAt(m2, bs[k].addr) == HeaderAt(m1, bs[k].addr).(free := 0, magic := MAGIC_ALLOCATED)
    requires Same(m1, m2, 0, bs[k].addr) && Same(m1, m2, bs[k].addr + HEADER, |m1|)
    ensures var r := Carve(bs, k, n);
      && WellFormed(m2, r, lo, hi) && NoFreeNeighbours(r)
      && Granted(Contents(m0, bs, HEADER), Contents(m2, r, HEADER), Ptr(bs[k], HEADER), n, hi)
      && CountFree(r) == CountFree(bs1) - 1 && |r| == |bs| + CountFree(bs1) - CountFree(bs)
      && CountFree(bs1) == CountFree(bs) + if bs[k].size >= n + HEADER + MIN_ALLOC_SIZE then 1 else 0
    ensures Same(m1, m2, 0, lo) && Same(m1, m2, hi, |m1|)
  {
    hide Tiled, NoFreeNeighbours, Contents, CountFree, Same, HeaderAt;
    var r := Take(bs1, k);
    CursorOk(m1, bs1, k, lo, hi);
    MarkedBlock(m1, m2, bs1, k, false, lo, hi);
    CarveCoalesced(bs, k, n);
    TakeContents(m2, bs1, k, HEADER, lo, hi);
    ContentsAt(m2, r, HEADER, lo, hi, k);
    CursorOk(m2, r, k, lo, hi);
    CountMark(bs1, k, false);
    if bs[k].size >= n + HEADER + MIN_ALLOC_SIZE { CountSplit(bs, k, n); }
    MapExtended(Contents(m0, bs, HEADER), Contents(m2, r, HEADER), Ptr(bs[k], HEADER));
  }

  /** The freed block, before merging. */
  lemma ReleasedBlock(m0: seq<byte>, m1: seq<byte>, bs: seq<Block>, k: nat, lo: nat, hi: nat)
    requires WellFormed(m0, bs, lo, hi) && NoFreeNeighbours(bs) && |m0| == |m1|
    requires k < |bs| && !bs[k].free && bs[k].addr + HEADER <= |m0|
    requires HeaderAt(m1, bs[k].addr) == HeaderAt(m0, bs[k].addr).(free := 1, magic := MAGIC_FREE)
    requires Same(m0, m1, 0, bs[k].addr) && Same(m0, m1, bs[k].addr + HEADER, |m0|)
    ensures WellFormed(m1, Release(bs, k), lo, hi) && NoFreeNeighbours(FreeBlocks(bs, k))
    ensures Contents(m1, Release(bs, k), HEADER) == Contents(m0, bs, HEADER) - {Ptr(bs[k], HEADER)}
    ensures CountFree(Release(bs, k)) == CountFree(bs) + 1
    ensures Same(m0, m1, 0, lo) && Same(m0, m1, hi, |m0|)
  {
    hide Tiled, NoFreeNeighbours, Contents, CountFree, Same, HeaderAt;
    CursorOk(m0, bs, k, lo, hi);
    MarkedBlock(m0, m1, bs, k, true, lo, hi);
    FreeCoalesced(bs, k);
    ReleaseContents(m1, bs, k, HEADER, lo, hi);
    CountMark(bs, k, true);
  }

  lemma RoundingIdempotent(size: int)
    requires 0 <= size <= WORD - 8
    ensures RoundRequest(RoundRequest(size)) == RoundRequest(size)
  {}

  lemma NullIsNotLive(heap: Heap)
    requires heap.Valid()
    ensures 0 !in heap.LiveBytes()
  {
    if 0 in heap.LiveBytes() {
      CursorOk(heap.ram[..], heap.blocks, IndexOf(heap.blocks, HEADER, 0), heap.heapStart, heap.heapEnd);
    }
  }

  /** A live pointer carries the magic number of a used block. */
  lemma LiveMagic(heap: Heap, p: nat)
    requires heap.Valid() && heap.initialized && HEADER <= p <= heap.ram.Length
    ensures p in heap.LiveBytes() ==> Load(heap.ram[..], p - 20 + 8) == MAGIC_ALLOCATED == 0xABCD_EF00
  {
    if p in heap.LiveBytes() {
      CursorOk(heap.ram[..], heap.blocks, IndexOf(heap.blocks, HEADER, p), heap.heapStart, heap.heapEnd);
    }
  }

  lemma GrantSize(m: seq<byte>, bs: seq<Block>, k: nat, n: nat, lo: nat, hi: nat)
    requires k < |bs| && Fits(bs[k], n) && WellFormed(m, Carve(bs, k, n), lo, hi)
    ensures var p, c := Ptr(bs[k], HEADER), Contents(m, Carve(bs, k, n), HEADER);
      p in c && |c[p]| == if bs[k].size >= n + 52 then n else bs[k].size
  {
    CarveSizes(bs, k, n);
    ContentsAt(m, Carve(bs, k, n), HEADER, lo, hi, k);
  }

  lemma PointerBounds(m: seq<byte>, bs: seq<Block>, p: nat, lo: nat, hi: nat)
    requires WellFormed(m, bs, lo, hi) && p in Contents(m, bs, HEADER)
    ensures lo + HEADER <= p && p + |Contents(m, bs, HEADER)[p]| <= hi <= |m|
    ensures Contents(m, bs, HEADER)[p] == m[p..p + |Contents(m, bs, HEADER)[p]|]
  {
    CursorOk(m, bs, IndexOf(bs, HEADER, p), lo, hi);
  }

  lemma BlockSize(m: seq<byte>, bs: seq<Block>, p: nat, lo: nat, hi: nat)
    requires WellFormed(m, bs, lo, hi) && p in Contents(m, bs, HEADER)
    ensures lo + HEADER <= p <= |m|
    ensures Load(m, p - HEADER) == |Contents(m, bs, HEADER)[p]|
  {
    CursorOk(m, bs, IndexOf(bs, HEADER, p), lo, hi);
  }

  lemma PointersApart(m: seq<byte>, bs: seq<Block>, p: nat, q: nat, lo: nat, hi: nat)
    requires WellFormed(m, bs, lo, hi) && p in Contents(m, bs, HEADER) && q in Contents(m, bs, HEADER) && p != q
    ensures var c := Contents(m, bs, HEADER); p + |c[p]| + HEADER <= q || q + |c[q]| + HEADER <= p
  {
    PayloadsDisjoint(m, bs, HEADER, lo, hi, p, q);
  }
}
