/** The C library's allocator working on its header chain in memory (src/libc/stdlib.c). */
module LibcHeap {
  import opened Machine
  import opened Memory
  import opened BlockList
  import opened FirstFit

  class Heap {
    const ram: array<byte>   // the memory the program runs in
    const base: nat          // where the linker placed the array `heap`
    var freeList: nat
    var initialized: bool
    ghost var blocks: seq<Block>

    ghost predicate Valid()
      reads this, ram
    {
      && 0 < base && Limit() <= ram.Length <= WORD
      && if initialized then
           freeList == base && WellFormed(ram[..], blocks, base, Limit())
         else
           freeList == 0 && blocks == []
    }

    ghost function Limit(): nat { base + HEAP_SIZE }

    /** The pointers currently handed out, each with the bytes behind it. */
    ghost function LiveBytes(): map<nat, seq<byte>>
      requires Valid()
      reads this, ram
    {
      if initialized then Contents(ram[..], blocks, HEADER) else map[]
    }

    /** The blocks that a call finds: before the first one the heap is a single free block. */
    ghost function Found(): seq<Block>
      reads this
    {
      if initialized then blocks else [Block(base, HEAP_SIZE - HEADER, true)]
    }

    constructor (ram: array<byte>, base: nat)
      requires 0 < base && base + HEAP_SIZE <= ram.Length <= WORD
      ensures Valid() && this.ram == ram && this.base == base
      ensures !initialized && LiveBytes() == map[]
    {
      this.ram := ram;
      this.base := base;
      freeList := 0;
      initialized := false;
      blocks := [];
    }

    /** NULL is never a pointer that was handed out, and every block fits into memory. */
    lemma PointersAreProper()
      requires Valid()
      ensures 0 !in LiveBytes() && forall p :: p in LiveBytes() ==> |LiveBytes()[p]| <= WORD - HEADER
    {
      if initialized {
        NullIsNotLive(ram[..], blocks, base, Limit());
        forall p | p in LiveBytes()
          ensures |LiveBytes()[p]| <= WORD - HEADER
        {
          PointerBounds(ram[..], blocks, p, base, Limit());
        }
      }
    }

    function Word(a: nat): (w: int)
      requires a + 4 <= ram.Length
      reads ram
      ensures IsUint32(w)
    {
      Load(ram[..], a)
    }

    method InitializeHeap()
      requires Valid()
      modifies this, ram
      ensures Valid() && initialized && blocks == old(Found()) && LiveBytes() == old(LiveBytes())
      ensures Same(old(ram[..]), ram[..], 0, base) && Same(old(ram[..]), ram[..], Limit(), ram.Length)
    {
      if initialized {
        return;
      }
      hide Load;
      freeList := base;
      StoreWord(ram, freeList, HEAP_SIZE - HEADER);
      StoreWord(ram, freeList + 4, 1);
      StoreWord(ram, freeList + 8, 0);
      initialized := true;
      blocks := [Block(base, HEAP_SIZE - HEADER, true)];
      assert HeaderOk(ram[..], blocks, 0);
      assert LiveBytes() == map[];
    }

    /** The pointer returned for a request. */
    ghost function Choice(size: int): nat
      requires IsUint32(size)
      reads this
    {
      Answer(Found(), size)
    }

    /** The search loop: the address of the first block that fits, or NULL. */
    method Search(n: nat) returns (current: nat)
      requires Valid() && initialized
      ensures current == AddrAt(blocks, FirstFitting(blocks, n))
      ensures current == 0 <==> FirstFitting(blocks, n) == |blocks|
    {
      hide Load, WellFormed;
      current := freeList;
      ghost var k := 0;
      CursorStart(ram[..], blocks, base, Limit());
      while current != 0
        invariant 0 <= k <= |blocks| && current == AddrAt(blocks, k)
        invariant forall j :: 0 <= j < k ==> !Fits(blocks[j], n)
        decreases |blocks| - k
      {
        CursorOk(ram[..], blocks, k, base, Limit());
        if Word(current + 4) != 0 && Word(current) >= n {
          FirstFittingUnique(blocks, n, k);
          return;
        }
        current := Word(current + 8);
        k := k + 1;
      }
      NullBehindTheLast(ram[..], blocks, k, base, Limit());
      FirstFittingUnique(blocks, n, k);
    }

    method Malloc(size: int) returns (p: nat)
      requires Valid() && IsUint32(size)
      modifies this, ram
      ensures Valid() && initialized
      ensures p == old(Choice(size)) && blocks == MallocBlocks(old(Found()), RoundRequest(size))
      ensures if p == 0 then LiveBytes() == old(LiveBytes())
        else Granted(old(LiveBytes()), LiveBytes(), p, RoundRequest(size), Limit())
      ensures p != 0 ==> p in LiveBytes() && |LiveBytes()[p]| < RoundRequest(size) + 28
      ensures Same(old(ram[..]), ram[..], 0, base) && Same(old(ram[..]), ram[..], Limit(), ram.Length)
    {
      hide RoundRequest, Contents, Carve, FirstFitting, WellFormed, Granted, Same;
      SameRefl(ram[..]);
      var n := RoundRequest(size);
      ghost var m0 := ram[..];
      InitializeHeap();
      ghost var bs := blocks;
      ghost var k := FirstFitting(bs, n);
      ghost var m1 := ram[..];
      var current := Search(n);
      if current == 0 {
        return 0;
      }
      TakeBlock(bs, k, current, n);
      SameTrans(m0, m1, ram[..], 0, base);
      SameTrans(m0, m1, ram[..], Limit(), ram.Length);
      blocks := Carve(bs, k, n);
      GrantSize(ram[..], bs, k, n, base, Limit());
      return current + HEADER;
    }

    /** Split the block under the cursor if it is large enough, and mark it used. */
    method TakeBlock(ghost bs: seq<Block>, ghost k: nat, current: nat, n: nat)
      requires WellFormed(ram[..], bs, base, Limit()) && ram.Length <= WORD
      requires k < |bs| && Fits(bs[k], n) && current == bs[k].addr
      modifies ram
      ensures WellFormed(ram[..], Carve(bs, k, n), base, Limit())
      ensures Granted(Contents(old(ram[..]), bs, HEADER), Contents(ram[..], Carve(bs, k, n), HEADER),
                      current + HEADER, n, Limit())
      ensures Same(old(ram[..]), ram[..], 0, base) && Same(old(ram[..]), ram[..], Limit(), ram.Length)
    {
      hide Load, WellFormed, Contents, Granted;
      ghost var m0 := ram[..];
      CursorOk(m0, bs, k, base, Limit());
      if Word(current) >= Wrap(n + HEADER + 16) {
        SplitHeaders(current, n);
        ghost var m1 := ram[..];
        MarkHeader(current, 0);
        SplitAndMarked(m0, m1, ram[..], bs, k, n, base, Limit());
      } else {
        MarkHeader(current, 0);
        TakenBlock(m0, ram[..], bs, k, n, base, Limit());
      }
    }

    /** Take over the block behind: its size, its header and its successor. */
    method Absorb(ghost bs: seq<Block>, ghost k: nat, current: nat, victim: nat)
      requires WellFormed(ram[..], bs, base, Limit()) && ram.Length <= WORD
      requires k + 1 < |bs| && bs[k].free && bs[k + 1].free
      requires current == bs[k].addr && victim == bs[k + 1].addr
      modifies ram
      ensures WellFormed(ram[..], Join(bs, k, HEADER), base, Limit())
      ensures Contents(ram[..], Join(bs, k, HEADER), HEADER) == Contents(old(ram[..]), bs, HEADER)
      ensures Same(old(ram[..]), ram[..], 0, base) && Same(old(ram[..]), ram[..], Limit(), ram.Length)
    {
      hide Load, WellFormed, Contents;
      ghost var m0 := ram[..];
      CursorOk(m0, bs, k, base, Limit());
      CursorOk(m0, bs, k + 1, base, Limit());
      Neighbours(m0, bs, k, base, Limit());
      StoreWord(ram, current, Wrap(Word(current) + HEADER + Word(victim)));
      StoreWord(ram, current + 8, Word(victim + 8));
      JoinedBlock(m0, ram[..], bs, k, base, Limit());
    }

    /**
     * Free a block handed out earlier. The walk over the whole chain merges it with a free predecessor;
     * only if there is none, with a free successor.
     */
    method Free(ptr: nat)
      requires Valid()
      requires ptr != 0 ==> ptr in LiveBytes()
      modifies this, ram
      ensures Valid() && LiveBytes() == old(LiveBytes()) - {ptr}
      ensures initialized == old(initialized)
      ensures ptr == 0 ==> blocks == old(blocks)
      ensures ptr != 0 ==> blocks == FreeBlocks(old(blocks), old(IndexOf(blocks, HEADER, ptr)))
      ensures Same(old(ram[..]), ram[..], 0, base) && Same(old(ram[..]), ram[..], Limit(), ram.Length)
    {
      hide Load, WellFormed, FreeBlocks, Same;
      SameRefl(ram[..]);
      if ptr == 0 {
        NullIsNotLive(ram[..], blocks, base, Limit());
        return;
      }
      ghost var m0, bs := ram[..], blocks;
      ghost var k := IndexOf(bs, HEADER, ptr);
      var block := ptr - HEADER;
      CursorOk(m0, bs, k, base, Limit());
      MarkHeader(block, 1);
      ReleasedBlock(m0, ram[..], bs, k, base, Limit());
      blocks := Release(bs, k);
      ghost var m1 := ram[..];
      Coalesce(block, bs, k);
      SameTrans(m0, m1, ram[..], 0, base);
      SameTrans(m0, m1, ram[..], Limit(), ram.Length);
    }

    /** The body of the merging walk: block `j` of the chain is under the cursor, `block` is number `i`. */
    method VisitBlock(block: nat, current: nat, ghost bs: seq<Block>, ghost k: nat, ghost j: nat, ghost i: nat,
                      ghost done: bool)
      returns (merged: nat, ghost i': nat, ghost done': bool)
      requires Valid() && initialized && WalkState(bs, k, blocks, j, i, done)
      requires j < |blocks| && current == blocks[j].addr && block == blocks[i].addr
      modifies this, ram
      ensures Valid() && initialized && LiveBytes() == old(LiveBytes()) && freeList == old(freeList)
      ensures WalkState(bs, k, blocks, j + 1, i', done') && |blocks| <= old(|blocks|)
      ensures j < |blocks| && current == blocks[j].addr && merged == blocks[i'].addr
      ensures Same(old(ram[..]), ram[..], 0, base) && Same(old(ram[..]), ram[..], Limit(), ram.Length)
    {
      hide Load, WellFormed, Contents, WalkState, Join, Same;
      ghost var cur := blocks;
      WalkBounds(bs, k, cur, j, i, done);
      merged, i', done' := block, i, true;
      SameRefl(ram[..]);
      CursorOk(ram[..], cur, j, base, Limit());
      PredecessorTest(ram[..], cur, j, i, base, Limit());
      if j + 1 < |cur| { CursorOk(ram[..], cur, j + 1, base, Limit()); }
      NullBehindTheLast(ram[..], cur, j + 1, base, Limit());
      WalkStep(bs, k, cur, j, i, done);
      if Word(current + 4) != 0 && current + HEADER + Word(current) == block {
        Absorb(cur, j, current, block);
        blocks := Join(cur, j, HEADER);
        merged, i' := current, j;
      } else if current == block && Word(current + 8) != 0 && Word(Word(current + 8) + 4) != 0 {
        var nextBlock := Word(current + 8);
        Absorb(cur, j, current, nextBlock);
        blocks := Join(cur, j, HEADER);
      } else {
        done' := done || j == i;
      }
    }

    /** The merging walk over the chain, started with block `k` already marked free. */
    method Coalesce(freed: nat, ghost bs: seq<Block>, ghost k: nat)
      requires Valid() && initialized && k < |bs| && !bs[k].free && blocks == Release(bs, k) && freed == bs[k].addr
      modifies this, ram
      ensures Valid() && initialized && blocks == FreeBlocks(bs, k) && LiveBytes() == old(LiveBytes())
      ensures Same(old(ram[..]), ram[..], 0, base) && Same(old(ram[..]), ram[..], Limit(), ram.Length)
    {
      hide Load, WellFormed, Contents, FreeBlocks, Join, Release, Same;
      var block := freed;
      var current := freeList;
      ghost var m0 := ram[..];
      ghost var j: nat, i: nat, done := 0, k, false;
      WalkStart(m0, bs, k, base, Limit());
      SameRefl(m0);
      while current != 0
        invariant Valid() && initialized && LiveBytes() == old(LiveBytes())
        invariant j <= |blocks| && current == AddrAt(blocks, j)
        invariant WalkState(bs, k, blocks, j, i, done) && block == blocks[i].addr
        invariant Same(m0, ram[..], 0, base) && Same(m0, ram[..], Limit(), ram.Length)
        decreases |blocks| - j
      {
        ghost var m := ram[..];
        NullBehindTheLast(m, blocks, j, base, Limit());
        block, i, done := VisitBlock(block, current, bs, k, j, i, done);
        SameTrans(m0, m, ram[..], 0, base);
        SameTrans(m0, m, ram[..], Limit(), ram.Length);
        CursorOk(ram[..], blocks, j, base, Limit());
        current := Word(current + 8);
        j := j + 1;
      }
      NullBehindTheLast(ram[..], blocks, j, base, Limit());
    }

    /** A client storing `data` through a pointer it holds, with memcpy. */
    method Write(p: nat, data: seq<byte>)
      requires Valid() && p in LiveBytes() && |data| <= |LiveBytes()[p]|
      modifies ram
      ensures Valid() && LiveBytes() == old(LiveBytes())[p := data + old(LiveBytes())[p][|data|..]]
      ensures Same(old(ram[..]), ram[..], 0, base) && Same(old(ram[..]), ram[..], Limit(), ram.Length)
    {
      hide WellFormed, Contents, Same;
      PointerBounds(ram[..], blocks, p, base, Limit());
      WrittenBlock(ram[..], blocks, p, data, base, Limit());
      CopyIn(ram, p, data, |data|);
      assert data[..|data|] == data;
    }

    /** Reading the first `n` bytes behind a pointer. */
    method Read(p: nat, n: nat) returns (data: seq<byte>)
      requires Valid() && p in LiveBytes() && n <= |LiveBytes()[p]|
      ensures data == LiveBytes()[p][..n]
    {
      hide WellFormed, Contents;
      PointerBounds(ram[..], blocks, p, base, Limit());
      data := ram[p..p + n];
      assert data == ram[..][p..p + |LiveBytes()[p]|][..n];
    }

    /**
     * Resize a block. Either the block is kept in place, or its bytes are moved to a new one, or NULL is
     * returned and nothing has changed.
     */
    method Realloc(ptr: nat, size: int) returns (p: nat)
      requires Valid() && 0 <= size <= WORD - 8
      requires ptr != 0 ==> ptr in LiveBytes()
      modifies this, ram
      ensures Valid()
      ensures ptr == 0 ==> p == old(Choice(size))
      ensures ptr == 0 && p == 0 ==> LiveBytes() == old(LiveBytes())
      ensures ptr == 0 && p != 0 ==> Granted(old(LiveBytes()), LiveBytes(), p, size, Limit())
      ensures ptr != 0 && size == 0 ==> p == 0 && LiveBytes() == old(LiveBytes()) - {ptr}
      ensures ptr != 0 && size > 0 ==>
        p == if size <= old(|LiveBytes()[ptr]|) then ptr else old(Choice(size))
      ensures ptr != 0 && size > 0 ==> Resized(old(LiveBytes()), LiveBytes(), ptr, p, size)
      ensures ptr != 0 && size > 0 ==> (p == 0 <==> old(|LiveBytes()[ptr]|) < size && old(Choice(size)) == 0)
      ensures Same(old(ram[..]), ram[..], 0, base) && Same(old(ram[..]), ram[..], Limit(), ram.Length)
    {
      hide WellFormed, Contents, Same, RoundRequest, Load, MallocBlocks, FreeBlocks, Choice;
      SameRefl(ram[..]);
      RoundingCovers(size);
      if ptr == 0 {
        p := Malloc(size);
        return;
      }
      if size == 0 {
        Free(ptr);
        return 0;
      }
      var block := ptr - HEADER;
      BlockSize(ram[..], blocks, ptr, base, Limit());
      if Word(block) >= size {
        return ptr;
      }
      ghost var m0 := ram[..];
      p := Malloc(size);
      if p == 0 {
        return;
      }
      ghost var m1 := ram[..];
      MoveBlock(ptr, p);
      SameTrans(m0, m1, ram[..], 0, base);
      SameTrans(m0, m1, ram[..], Limit(), ram.Length);
    }

    /** Copy a block into a larger one and free it. */
    method MoveBlock(ptr: nat, p: nat)
      requires Valid() && ptr in LiveBytes() && p in LiveBytes() && p != ptr
      requires |LiveBytes()[ptr]| <= |LiveBytes()[p]|
      modifies this, ram
      ensures Valid() && LiveBytes() == var c := old(LiveBytes());
        c[p := c[ptr] + c[p][|c[ptr]|..]] - {ptr}
      ensures Same(old(ram[..]), ram[..], 0, base) && Same(old(ram[..]), ram[..], Limit(), ram.Length)
    {
      hide WellFormed, Contents, Same, Load, FreeBlocks;
      var block := ptr - HEADER;
      ghost var m1, c, n := ram[..], LiveBytes(), |LiveBytes()[ptr]|;
      BlockSize(m1, blocks, ptr, base, Limit());
      PointersApart(m1, blocks, ptr, p, base, Limit());
      PointerBounds(m1, blocks, ptr, base, Limit());
      PointerBounds(m1, blocks, p, base, Limit());
      WrittenBlock(m1, blocks, p, c[ptr], base, Limit());
      MemCopy(ram, p, ptr, Word(block));
      ghost var m2 := ram[..];
      Free(ptr);
      SameTrans(m1, m2, ram[..], 0, base);
      SameTrans(m1, m2, ram[..], Limit(), ram.Length);
    }

    /** Write the header of the new block, then shorten the block under the cursor. */
    method SplitHeaders(current: nat, n: nat)
      requires current + HEADER + n + HEADER <= ram.Length <= WORD
      requires HeaderAt(ram[..], current).size >= n + HEADER
      modifies ram
      ensures HeaderAt(ram[..], current)
        == Header(n, HeaderAt(old(ram[..]), current).free, current + HEADER + n)
      ensures HeaderAt(ram[..], current + HEADER + n)
        == Header(HeaderAt(old(ram[..]), current).size - n - HEADER, 1, HeaderAt(old(ram[..]), current).next)
      ensures Same(old(ram[..]), ram[..], 0, current)
      ensures Same(old(ram[..]), ram[..], current + HEADER + n + HEADER, ram.Length)
    {
      hide Load;
      var newBlock := current + HEADER + n;
      StoreWord(ram, newBlock, Wrap(Word(current) - n - HEADER));
      StoreWord(ram, newBlock + 4, 1);
      StoreWord(ram, newBlock + 8, Word(current + 8));
      StoreWord(ram, current, n);
      StoreWord(ram, current + 8, newBlock);
    }

    /** Set the `free` field of a header. */
    method MarkHeader(a: nat, free: int)
      requires a + HEADER <= ram.Length && IsUint32(free)
      modifies ram
      ensures HeaderAt(ram[..], a) == HeaderAt(old(ram[..]), a).(free := free)
      ensures forall b: nat {:trigger HeaderAt(ram[..], b)} ::
        b + HEADER <= ram.Length && (b + HEADER <= a || a + HEADER <= b) ==>
        HeaderAt(ram[..], b) == HeaderAt(old(ram[..]), b)
      ensures OnlyHeader(old(ram[..]), ram[..], a)
    {
      hide Load;
      StoreWord(ram, a + 4, free);
    }
  }

  /** The header chain in memory lays out the block list `bs` over `lo..hi`. */
  ghost predicate WellFormed(m: seq<byte>, bs: seq<Block>, lo: nat, hi: nat)
  {
    && Tiled(bs, HEADER, lo, hi) && hi <= |m| && Chain(m, bs)
    && forall i :: 0 <= i < |bs| ==> End(bs[i], HEADER) <= hi
  }

  lemma PointerBounds(m: seq<byte>, bs: seq<Block>, p: nat, lo: nat, hi: nat)
    requires WellFormed(m, bs, lo, hi) && p in Contents(m, bs, HEADER)
    ensures lo + HEADER <= p && p + |Contents(m, bs, HEADER)[p]| <= hi <= |m|
    ensures Contents(m, bs, HEADER)[p] == m[p..p + |Contents(m, bs, HEADER)[p]|]
  {
    CursorOk(m, bs, IndexOf(bs, HEADER, p), lo, hi);
  }

  lemma GrantSize(m: seq<byte>, bs: seq<Block>, k: nat, n: nat, lo: nat, hi: nat)
    requires k < |bs| && Fits(bs[k], n) && WellFormed(m, Carve(bs, k, n), lo, hi)
    ensures var p, c := Ptr(bs[k], HEADER), Contents(m, Carve(bs, k, n), HEADER);
      p in c && |c[p]| == if bs[k].size >= n + 28 then n else bs[k].size
  {
    CarveSizes(bs, k, n);
    ContentsAt(m, Carve(bs, k, n), HEADER, lo, hi, k);
  }

  /** The size field in front of a live pointer is the number of its bytes. */
  lemma BlockSize(m: seq<byte>, bs: seq<Block>, p: nat, lo: nat, hi: nat)
    requires WellFormed(m, bs, lo, hi) && p in Contents(m, bs, HEADER)
    ensures lo + HEADER <= p <= |m|
    ensures Load(m, p - HEADER) == |Contents(m, bs, HEADER)[p]|
  {
    CursorOk(m, bs, IndexOf(bs, HEADER, p), lo, hi);
  }

  lemma PointersApart(m: seq<byte>, bs: seq<Block>, p: nat, q: nat, lo: nat, hi: nat)
    requires WellFormed(m, bs, lo, hi) && p in Contents(m, bs, HEADER) && q in Contents(m, bs, HEADER) && p != q
    ensures var c := Contents(m, bs, HEADER); p + |c[p]| + HEADER <= q || q + |c[q]| + HEADER <= p
  {
    PayloadsDisjoint(m, bs, HEADER, lo, hi, p, q);
  }

  lemma WrittenBlock(m: seq<byte>, bs: seq<Block>, p: nat, data: seq<byte>, lo: nat, hi: nat)
    requires WellFormed(m, bs, lo, hi) && p in Contents(m, bs, HEADER) && |data| <= |Contents(m, bs, HEADER)[p]|
    ensures p + |data| <= hi && WellFormed(Blit(m, p, data), bs, lo, hi)
    ensures Contents(Blit(m, p, data), bs, HEADER)
      == Contents(m, bs, HEADER)[p := data + Contents(m, bs, HEADER)[p][|data|..]]
    ensures Same(m, Blit(m, p, data), 0, lo) && Same(m, Blit(m, p, data), hi, |m|)
  {
    WriteContents(m, bs, HEADER, lo, hi, p, data);
    PointerBounds(m, bs, p, lo, hi);
    PayloadWriteKeepsHeaders(m, bs, IndexOf(bs, HEADER, p), data, lo, hi);
  }

  lemma PayloadWriteKeepsHeaders(m: seq<byte>, bs: seq<Block>, k: nat, data: seq<byte>, lo: nat, hi: nat)
    requires WellFormed(m, bs, lo, hi) && k < |bs| && |data| <= bs[k].size && End(bs[k], HEADER) <= |m|
    ensures Chain(Blit(m, Ptr(bs[k], HEADER), data), bs)
  {
    var m' := Blit(m, Ptr(bs[k], HEADER), data);
    forall i | 0 <= i < |bs|
      ensures HeaderOk(m', bs, i)
    {
      assert HeaderOk(m, bs, i) && Within(bs[i], HEADER, lo, hi);
      assert i < k ==> Behind(bs[i], bs[k], HEADER, k == i + 1);
      assert k < i ==> Behind(bs[k], bs[i], HEADER, i == k + 1);
      HeaderSame(m, m', bs[i].addr);
    }
  }

  lemma CursorStart(m: seq<byte>, bs: seq<Block>, lo: nat, hi: nat)
    requires WellFormed(m, bs, lo, hi)
    ensures AddrAt(bs, 0) == lo
  {}

  /** What the walk finds at the cursor. */
  lemma CursorOk(m: seq<byte>, bs: seq<Block>, k: nat, lo: nat, hi: nat)
    requires WellFormed(m, bs, lo, hi) && k < |bs|
    ensures lo <= bs[k].addr && End(bs[k], HEADER) <= hi <= |m|
    ensures HeaderAt(m, bs[k].addr) == HeaderOf(bs, k)
  {
    assert HeaderOk(m, bs, k) && Within(bs[k], HEADER, lo, hi);
  }

  lemma NullBehindTheLast(m: seq<byte>, bs: seq<Block>, k: nat, lo: nat, hi: nat)
    requires WellFormed(m, bs, lo, hi) && lo > 0 && k <= |bs|
    ensures AddrAt(bs, k) == 0 <==> k == |bs|
  {
    if k < |bs| { CursorOk(m, bs, k, lo, hi); }
  }

  lemma NullIsNotLive(m: seq<byte>, bs: seq<Block>, lo: nat, hi: nat)
    requires bs != [] ==> WellFormed(m, bs, lo, hi) && lo > 0
    ensures !Live(bs, HEADER, 0)
  {
    if Live(bs, HEADER, 0) { CursorOk(m, bs, IndexOf(bs, HEADER, 0), lo, hi); }
  }

  lemma Neighbours(m: seq<byte>, bs: seq<Block>, k: nat, lo: nat, hi: nat)
    requires WellFormed(m, bs, lo, hi) && k + 1 < |bs|
    ensures End(bs[k], HEADER) == bs[k + 1].addr
  {
    assert Behind(bs[k], bs[k + 1], HEADER, true);
  }

  /**
   * The merging walk is at block `j` of `cur`; the freed block is block `i`. Nothing has changed until the
   * walk reaches the freed block or a free block in front of it, and nothing changes afterwards.
   */
  ghost predicate WalkState(bs: seq<Block>, k: nat, cur: seq<Block>, j: nat, i: nat, done: bool)
  {
    && k < |bs| && i < |cur|
    && if done then cur == FreeBlocks(bs, k) && i < j
       else cur == Release(bs, k) && i == k && j <= k && (0 < j == k ==> !bs[k - 1].free)
  }

  lemma WalkStart(m: seq<byte>, bs: seq<Block>, k: nat, lo: nat, hi: nat)
    requires k < |bs| && !bs[k].free && WellFormed(m, Release(bs, k), lo, hi)
    ensures var cur := Release(bs, k);
      AddrAt(cur, 0) == lo && k < |cur| && cur[k].addr == bs[k].addr && WalkState(bs, k, cur, 0, k, false)
  {}

  lemma WalkBounds(bs: seq<Block>, k: nat, cur: seq<Block>, j: nat, i: nat, done: bool)
    requires WalkState(bs, k, cur, j, i, done)
    ensures i < |cur|
  {}

  lemma WalkStep(bs: seq<Block>, k: nat, cur: seq<Block>, j: nat, i: nat, done: bool)
    requires WalkState(bs, k, cur, j, i, done) && j < |cur|
    ensures cur[j].free && j + 1 == i ==> WalkState(bs, k, Join(cur, j, HEADER), j + 1, j, true) && cur[i].free
    ensures j == i ==> cur[i].free
    ensures j + 1 < |cur| ==> |Join(cur, j, HEADER)| == |cur| - 1 && Join(cur, j, HEADER)[j].addr == cur[j].addr
    ensures j == i && j + 1 < |cur| && cur[j + 1].free ==> WalkState(bs, k, Join(cur, j, HEADER), j + 1, i, true)
    ensures !(cur[j].free && j + 1 == i) && !(j == i && j + 1 < |cur| && cur[j + 1].free) ==>
      WalkState(bs, k, cur, j + 1, i, done || j == i)
  {}

  /** The test for "directly in front of the freed block". */
  lemma PredecessorTest(m: seq<byte>, bs: seq<Block>, j: nat, i: nat, lo: nat, hi: nat)
    requires WellFormed(m, bs, lo, hi) && j < |bs| && i < |bs|
    ensures End(bs[j], HEADER) == bs[i].addr <==> j + 1 == i
    ensures bs[j].addr == bs[i].addr <==> j == i
  {
    DistinctAddresses(bs, HEADER, lo, hi, i, j);
    if j + 1 < |bs| {
      assert Behind(bs[j], bs[j + 1], HEADER, true);
      DistinctAddresses(bs, HEADER, lo, hi, i, j + 1);
    } else {
      assert Within(bs[i], HEADER, lo, hi);
    }
  }

  lemma JoinedBlock(m: seq<byte>, m': seq<byte>, bs: seq<Block>, k: nat, lo: nat, hi: nat)
    requires WellFormed(m, bs, lo, hi) && |m'| == |m|
    requires k + 1 < |bs| && bs[k].free && bs[k + 1].free && bs[k].addr + HEADER <= |m|
    requires HeaderAt(m', bs[k].addr)
      == Header(bs[k].size + HEADER + bs[k + 1].size, 1, AddrAt(bs, k + 2))
    requires OnlyHeader(m, m', bs[k].addr)
    ensures WellFormed(m', Join(bs, k, HEADER), lo, hi)
    ensures Contents(m', Join(bs, k, HEADER), HEADER) == Contents(m, bs, HEADER)
    ensures Same(m, m', 0, lo) && Same(m, m', hi, |m|)
  {
    var r := Join(bs, k, HEADER);
    assert r[..k] == bs[..k] && r[k + 1..] == bs[k + 2..];
    CursorOk(m, bs, k, lo, hi);
    HeadersAreNotPayload(m, m', bs, k, lo, hi);
    JoinContents(m', bs, k, HEADER, lo, hi);
    InBounds(r, HEADER, lo, hi);
    hide Tiled;
    ChainRewritten(m, m', bs, r, k, 1, lo, hi);
  }

  lemma ReleasedBlock(m: seq<byte>, m': seq<byte>, bs: seq<Block>, k: nat, lo: nat, hi: nat)
    requires WellFormed(m, bs, lo, hi) && |m'| == |m|
    requires k < |bs| && !bs[k].free && bs[k].addr + HEADER <= |m|
    requires HeaderAt(m', bs[k].addr) == HeaderAt(m, bs[k].addr).(free := 1)
    requires OnlyHeader(m, m', bs[k].addr)
    ensures WellFormed(m', Release(bs, k), lo, hi)
    ensures Contents(m', Release(bs, k), HEADER) == Contents(m, bs, HEADER) - {Ptr(bs[k], HEADER)}
    ensures Same(m, m', 0, lo) && Same(m, m', hi, |m|)
  {
    var r := Release(bs, k);
    CursorOk(m, bs, k, lo, hi);
    HeadersAreNotPayload(m, m', bs, k, lo, hi);
    ReleaseContents(m', bs, k, HEADER, lo, hi);
    InBounds(r, HEADER, lo, hi);
    hide Tiled;
    ChainRewritten(m, m', bs, r, k, 0, lo, hi);
  }

  lemma SplitParts(bs: seq<Block>, k: nat, n: nat)
    requires k < |bs| && bs[k].size >= n + HEADER + MIN_REST
    ensures var r := Carve(bs, k, n);
      var rest := bs[k].addr + HEADER + n;
      && |r| == |bs| + 1
      && HeaderOf(r, k) == Header(n, 0, rest)
      && HeaderOf(r, k + 1) == Header(bs[k].size - n - HEADER, 1, AddrAt(bs, k + 1))
  {}

  lemma SplitAndMarked(m: seq<byte>, m1: seq<byte>, m': seq<byte>, bs: seq<Block>, k: nat, n: nat, lo: nat, hi: nat)
    requires WellFormed(m, bs, lo, hi) && |m'| == |m| == |m1|
    requires k < |bs| && Fits(bs[k], n) && End(bs[k], HEADER) <= |m|
    requires bs[k].size >= n + HEADER + MIN_REST
    requires var cur, rest := bs[k].addr, bs[k].addr + HEADER + n;
      && HeaderAt(m1, cur) == Header(n, 1, rest)
      && HeaderAt(m1, rest) == Header(bs[k].size - n - HEADER, 1, HeaderAt(m, cur).next)
      && Same(m, m1, 0, cur) && Same(m, m1, rest + HEADER, |m|)
      && OnlyHeader(m1, m', cur)
      && HeaderAt(m', cur) == HeaderAt(m1, cur).(free := 0) && HeaderAt(m', rest) == HeaderAt(m1, rest)
    ensures var r, p := Carve(bs, k, n), Ptr(bs[k], HEADER);
      && WellFormed(m', r, lo, hi)
      && Granted(Contents(m, bs, HEADER), Contents(m', r, HEADER), p, n, hi)
    ensures Same(m, m', 0, lo) && Same(m, m', hi, |m|)
  {
    CursorOk(m, bs, k, lo, hi);
    hide HeaderAt;
    hide WellFormed;
    SplitParts(bs, k, n);
    TakenBlock(m, m', bs, k, n, lo, hi);
  }

  lemma TakenBlock(m: seq<byte>, m': seq<byte>, bs: seq<Block>, k: nat, n: nat, lo: nat, hi: nat)
    requires WellFormed(m, bs, lo, hi) && |m'| == |m|
    requires k < |bs| && Fits(bs[k], n) && End(bs[k], HEADER) <= |m|
    requires var r := Carve(bs, k, n);
      if bs[k].size >= n + HEADER + MIN_REST then
        && HeaderAt(m', bs[k].addr) == HeaderOf(r, k)
        && HeaderAt(m', bs[k].addr + HEADER + n) == HeaderOf(r, k + 1)
        && Same(m, m', 0, bs[k].addr) && Same(m, m', bs[k].addr + HEADER + n + HEADER, |m|)
      else
        HeaderAt(m', bs[k].addr) == HeaderOf(r, k) && OnlyHeader(m, m', bs[k].addr)
    ensures var r, p := Carve(bs, k, n), Ptr(bs[k], HEADER);
      && WellFormed(m', r, lo, hi)
      && Granted(Contents(m, bs, HEADER), Contents(m', r, HEADER), p, n, hi)
    ensures Same(m, m', 0, lo) && Same(m, m', hi, |m|)
  {
    var r, p := Carve(bs, k, n), Ptr(bs[k], HEADER);
    assert Within(bs[k], HEADER, lo, hi);
    CarveContents(m', bs, k, n, lo, hi);
    InBounds(r, HEADER, lo, hi);
    hide Tiled;
    HeadersAreNotPayload(m, m', bs, k, lo, hi);
    ContentsAt(m', r, HEADER, lo, hi, k);
    if bs[k].size >= n + HEADER + MIN_REST {
      ChainSplit(m, m', bs, r, k, n, lo, hi);
    } else {
      ChainRewritten(m, m', bs, r, k, 0, lo, hi);
    }
    MapExtended(Contents(m, bs, HEADER), Contents(m', r, HEADER), p);
  }
}
