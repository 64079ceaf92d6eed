/** The virtual memory manager updating page tables in physical memory (kernel/vmm.c). */
module AddressSpaces {
  import opened Machine
  import opened Bits
  import opened FrameBitmap
  import opened Paging

  const BOOT_PAGES: nat := 1024               // 0x400000 / PAGE_SIZE
  const KERNEL_PAGE: nat := 0xC_0000          // KERNEL_VIRTUAL_BASE / PAGE_SIZE
  const PRESENT_WRITABLE: nat := 3

  /** The first `a` pages mapped to themselves and the first `b` kernel pages to the same frames. */
  ghost function BootMap(a: nat, b: nat): (m: map<nat, nat>)
    ensures forall q: nat :: q in m <==> q < PAGES && (q < a || KERNEL_PAGE <= q < KERNEL_PAGE + b)
    ensures forall q: nat :: q in m ==> m[q] == q % KERNEL_PAGE
  {
    map q: nat | q < PAGES && (q < a || KERNEL_PAGE <= q < KERNEL_PAGE + b) :: q % KERNEL_PAGE
  }

  class Vmm {
    const pmm: Pmm
    const kernelDir: nat       // the frame of kernel_page_directory, in the kernel image
    var tables: Tables         // physical memory, read as paging structures
    var current: nat           // the directory in use
    ghost var dirs: set<nat>

    ghost function Snapshot(): Vm
      reads this, pmm
    {
      Vm(tables, pmm.used, dirs)
    }

    ghost predicate Valid()
      reads this, pmm, pmm.bitmap
    {
      pmm.Valid() && Inv(Snapshot(), kernelDir)
    }

    constructor (pmm: Pmm, memory: Tables, kernelDir: nat)
      ensures this.pmm == pmm && this.kernelDir == kernelDir && tables == memory && dirs == {} && current == 0
    {
      this.pmm := pmm;
      this.kernelDir := kernelDir;
      tables := memory;
      current := 0;
      dirs := {};
    }

    method MapPage(dir: nat, virtualAddr: nat, physicalAddr: nat, flags: nat)
      requires pmm.Valid()
      modifies this`tables, pmm, pmm.bitmap
      ensures pmm.Valid() && Snapshot() == Paging.MapPage(old(Snapshot()), dir, virtualAddr, physicalAddr, flags)
    {
      hide AllocAnswer, AllocUsed, Bit, Pmm.Valid;
      var v := virtualAddr - virtualAddr % 0x1000;
      var p := physicalAddr - physicalAddr % 0x1000;
      AlignedIndices(virtualAddr);
      var pdIndex := PdIndex(v);
      var ptIndex := PtIndex(v);
      if !Get(tables, dir, pdIndex).present {
        var pageTablePhys := pmm.AllocFrame();
        if pageTablePhys == 0 {
          NoFrameNoChange(old(pmm.used));
          return;
        }
        tables := tables[pageTablePhys / 0x1000 := EmptyTable()];
        tables := Put(tables, dir, pdIndex, Entry(true, true, Bit(flags, 2), pageTablePhys / 0x1000));
      }
      var pageTable := Get(tables, dir, pdIndex).frame;
      tables := Put(tables, pageTable, ptIndex, Entry(Bit(flags, 0), Bit(flags, 1), Bit(flags, 2), p / 0x1000));
    }

    method UnmapPage(dir: nat, virtualAddr: nat)
      requires pmm.Valid()
      modifies this`tables, pmm, pmm.bitmap
      ensures pmm.Valid() && Snapshot() == Paging.UnmapPage(old(Snapshot()), dir, virtualAddr)
    {
      hide FreeUsed, Pmm.Valid;
      var v := virtualAddr - virtualAddr % 0x1000;
      AlignedIndices(virtualAddr);
      var pdIndex := PdIndex(v);
      var ptIndex := PtIndex(v);
      if !Get(tables, dir, pdIndex).present {
        return;
      }
      var pageTable := Get(tables, dir, pdIndex).frame;
      var physicalAddr := Get(tables, pageTable, ptIndex).frame * 0x1000;
      tables := Put(tables, pageTable, ptIndex, EMPTY);
      if physicalAddr != 0 {
        pmm.FreeFrame(physicalAddr);
      }
    }

    method GetPhysicalAddress(dir: nat, virtualAddr: nat) returns (addr: nat)
      requires virtualAddr < WORD
      ensures addr == Translate(tables, dir, virtualAddr)
      ensures var m := PageMap(tables, dir);
        addr == if PageOf(virtualAddr) in m then m[PageOf(virtualAddr)] * 0x1000 + virtualAddr % 0x1000 else 0
    {
      TranslateIsPageMap(tables, dir, virtualAddr);
      var pdIndex := PdIndex(virtualAddr);
      var ptIndex := PtIndex(virtualAddr);
      var offset := virtualAddr % 0x1000;
      if !Get(tables, dir, pdIndex).present {
        return 0;
      }
      var pageTable := Get(tables, dir, pdIndex).frame;
      if !Get(tables, pageTable, ptIndex).present {
        return 0;
      }
      return Get(tables, pageTable, ptIndex).frame * 0x1000 + offset;
    }

    /** Returns the frame of the new directory, or 0. */
    method CreatePageDirectory() returns (dir: nat)
      requires Valid()
      modifies this`tables, this`dirs, pmm, pmm.bitmap
      ensures Valid() && Snapshot() == CreateDirectory(old(Snapshot()), kernelDir)
      ensures dir == 0 <==> AllocAnswer(old(pmm.used)) == 0
      ensures dir != 0 ==> dir !in old(dirs) && dirs == old(dirs) + {dir}
      ensures dir != 0 ==> PageMap(tables, dir) == KernelPart(PageMap(old(tables), kernelDir))
    {
      hide AllocAnswer, AllocUsed, Inv, KernelPart, PageMap, Represents;
      ghost var vm := Snapshot();
      NewFrameRange(vm, kernelDir);
      if AllocAnswer(vm.used) != 0 { CreateDirectoryEffect(vm, kernelDir); }
      var pageDirPhys := pmm.AllocFrame();
      if pageDirPhys == 0 {
        NoFrameNoChange(old(pmm.used));
        return 0;
      }
      dir := pageDirPhys / 0x1000;
      tables := tables[dir := EmptyTable()];
      CopyStart(vm, kernelDir, dir);
      var i := KERNEL_INDEX;
      while i < ENTRIES
        invariant KERNEL_INDEX <= i <= ENTRIES
        invariant CopiedUpTo(vm, kernelDir, dir, tables, i)
        invariant pmm.Valid() && pmm.used == AllocUsed(vm.used) && dirs == vm.dirs
      {
        CopyStep(vm, kernelDir, dir, tables, i);
        tables := Put(tables, dir, i, Get(tables, kernelDir, i));
        i := i + 1;
      }
      CopyDone(vm, kernelDir, dir, tables);
      dirs := dirs + {dir};
    }

    /**
     * Boot: the first 4 MB are mapped to themselves, and once more from KERNEL_VIRTUAL_BASE on. Each of the
     * two mappings needs a table; without a frame for it, it is left out.
     */
    method Init()
      requires pmm.Valid()
      requires TablesOk(tables) && 0 < kernelDir < FIRST_FRAME
      modifies this, pmm, pmm.bitmap
      ensures Valid() && dirs == {kernelDir} && current == kernelDir
      ensures var free := old(pmm.freeFrames);
        PageMap(tables, kernelDir) == BootMap(if free >= 1 then BOOT_PAGES else 0, if free >= 2 then BOOT_PAGES else 0)
      ensures KernelRights(Snapshot(), kernelDir)
      ensures old(pmm.used) <= pmm.used
      ensures old(pmm.freeFrames) >= 1 ==>
        Pde(Snapshot(), kernelDir, 0) == Entry(true, true, false, NewFrame(old(pmm.used)))
    {
      hide Inv, AllocAnswer, AllocUsed, PageMap, BootMap, Paging.MapPage, Booting, TablesOk, KernelRights;
      ghost var before := pmm.used;
      BootStart(tables, pmm.used, kernelDir);
      tables := tables[kernelDir := EmptyTable()];
      dirs := {kernelDir};
      var addr := 0;
      while addr < 0x40_0000
        invariant 0 <= addr <= 0x40_0000 && addr % 0x1000 == 0
        invariant pmm.Valid() && dirs == {kernelDir}
        invariant Booting(Snapshot(), kernelDir, before, addr / 0x1000, 0) && KernelRights(Snapshot(), kernelDir)
        decreases 0x40_0000 - addr
      {
        BootStep(Snapshot(), kernelDir, before, addr / 0x1000, 0, addr, addr);
        MapPage(kernelDir, addr, addr, PRESENT_WRITABLE);
        addr := addr + 0x1000;
      }
      addr := 0;
      while addr < 0x40_0000
        invariant 0 <= addr <= 0x40_0000 && addr % 0x1000 == 0
        invariant pmm.Valid() && dirs == {kernelDir}
        invariant Booting(Snapshot(), kernelDir, before, BOOT_PAGES, addr / 0x1000)
        invariant KernelRights(Snapshot(), kernelDir)
        decreases 0x40_0000 - addr
      {
        BootStep(Snapshot(), kernelDir, before, BOOT_PAGES, addr / 0x1000, KERNEL_VIRTUAL_BASE + addr, addr);
        MapPage(kernelDir, KERNEL_VIRTUAL_BASE + addr, addr, PRESENT_WRITABLE);
        addr := addr + 0x1000;
      }
      BootDone(Snapshot(), kernelDir, before);
      current := kernelDir;
    }
  }

  /** Every call on the tables in memory is a step of the plain maps. */
  method Perform(vmm: Vmm, c: Paging.Call)
    requires vmm.Valid() && Allowed(vmm.Snapshot(), c)
    modifies vmm, vmm.pmm, vmm.pmm.bitmap
    ensures vmm.Valid() && vmm.Snapshot() == Paging.Step(old(vmm.Snapshot()), vmm.kernelDir, c)
  {
    hide Inv, FreesOwned, Paging.MapPage, Paging.UnmapPage, CreateDirectory;
    StepInv(vmm.Snapshot(), vmm.kernelDir, c);
    match c
    case Map(d, v, p, flags) => vmm.MapPage(d, v, p, flags);
    case Unmap(d, v) => vmm.UnmapPage(d, v);
    case Create => var dir := vmm.CreatePageDirectory();
  }

  lemma AlignedIndices(v: nat)
    ensures var a := v - v % 0x1000; PdIndex(a) == PdIndex(v) && PtIndex(a) == PtIndex(v) && a / 0x1000 == v / 0x1000
    ensures PageOf(v) / ENTRIES == PdIndex(v) && PageOf(v) % ENTRIES == PtIndex(v)
  {}

  lemma NoFrameNoChange(used: set<nat>)
    requires AllocAnswer(used) == 0
    ensures AllocUsed(used) == used
  {}

  // ----- Copying the kernel's entries -----

  lemma NewFrameRange(vm: Vm, kernelDir: nat)
    requires Inv(vm, kernelDir)
    ensures AllocAnswer(vm.used) != 0 ==> FIRST_FRAME <= NewFrame(vm.used) < PAGES
    ensures kernelDir < FIRST_FRAME && TablesOk(vm.tables)
  {
    if AllocAnswer(vm.used) != 0 { NewFrameIsFresh(vm.used); }
  }

  /** The new directory is `s`: so far it has the kernel's entries below `i`. */
  ghost predicate IsCopy(vm: Vm, kernelDir: nat, s: seq<Entry>, i: nat)
  {
    && |s| == ENTRIES
    && forall j: nat :: j < ENTRIES ==> s[j] == if KERNEL_INDEX <= j < i then Pde(vm, kernelDir, j) else EMPTY
  }

  ghost predicate CopiedUpTo(vm: Vm, kernelDir: nat, dir: nat, t: Tables, i: nat)
  {
    exists s: seq<Entry> :: IsCopy(vm, kernelDir, s, i) && t == vm.tables[dir := s]
  }

  lemma CopyStart(vm: Vm, kernelDir: nat, dir: nat)
    ensures CopiedUpTo(vm, kernelDir, dir, vm.tables[dir := EmptyTable()], KERNEL_INDEX)
  {
    assert IsCopy(vm, kernelDir, EmptyTable(), KERNEL_INDEX);
  }

  lemma CopyStep(vm: Vm, kernelDir: nat, dir: nat, t: Tables, i: nat)
    requires CopiedUpTo(vm, kernelDir, dir, t, i) && KERNEL_INDEX <= i < ENTRIES && dir != kernelDir
    ensures CopiedUpTo(vm, kernelDir, dir, Put(t, dir, i, Get(t, kernelDir, i)), i + 1)
  {
    var s: seq<Entry> :| IsCopy(vm, kernelDir, s, i) && t == vm.tables[dir := s];
    var s' := s[i := Pde(vm, kernelDir, i)];
    assert IsCopy(vm, kernelDir, s', i + 1);
    assert Get(t, kernelDir, i) == Pde(vm, kernelDir, i);
    assert Put(t, dir, i, Get(t, kernelDir, i)) == vm.tables[dir := s'];
  }

  lemma CopyDone(vm: Vm, kernelDir: nat, dir: nat, t: Tables)
    requires CopiedUpTo(vm, kernelDir, dir, t, ENTRIES)
    ensures t == vm.tables[dir := KernelHalf(vm, kernelDir)]
  {
    var s: seq<Entry> :| IsCopy(vm, kernelDir, s, ENTRIES) && t == vm.tables[dir := s];
    assert s == KernelHalf(vm, kernelDir);
  }

  // ----- The boot loops -----

  function FreeOf(used: set<nat>): int { TOTAL_FRAMES - |used| }

  /**
   * The loops have got through `a` identity pages and `b` kernel pages; `before` was in use when they began.
   * Pages whose table could not be had are not mapped.
   */
  ghost predicate Booting(vm: Vm, kernelDir: nat, before: set<nat>, a: nat, b: nat)
  {
    var low, high := a > 0 && FreeOf(before) >= 1, b > 0 && FreeOf(before) >= 2;
    && Inv(vm, kernelDir) && vm.dirs == {kernelDir} && FreeOf(before) >= 0
    && PageMap(vm.tables, kernelDir) == BootMap(if low then a else 0, if high then b else 0)
    && a <= BOOT_PAGES && b <= BOOT_PAGES && (b > 0 ==> a > 0)
    && (if low then before <= vm.used && Pde(vm, kernelDir, 0) == Entry(true, true, false, NewFrame(before))
        else vm.used == before && !Pde(vm, kernelDir, 0).present)
    && (Pde(vm, kernelDir, KERNEL_INDEX).present <==> high)
    && |vm.used| == |before| + (if low then 1 else 0) + (if high then 1 else 0)
  }

  /** Every mapped page may be written, and only by the kernel. */
  ghost predicate KernelRights(vm: Vm, d: nat)
  {
    forall q: nat :: q in PageMap(vm.tables, d) ==> Pte(vm, d, q).writable && !Pte(vm, d, q).user
  }

  /** Mapping with the flags of boot keeps it so. */
  lemma KernelRightsKept(vm: Vm, kernelDir: nat, d: nat, v: nat, p: nat)
    requires Inv(vm, kernelDir) && d in vm.dirs && v < WORD && p < WORD && KernelRights(vm, d)
    ensures KernelRights(MapPage(vm, d, v, p, PRESENT_WRITABLE), d)
  {
    hide Inv, AllocAnswer, AllocUsed, MapPage;
    MapPageEffect(vm, kernelDir, d, v, p, PRESENT_WRITABLE);
    if !OutOfFrames(vm, d, v) {
      var vm', i, isNew := MapPage(vm, d, v, p, PRESENT_WRITABLE), PdIndex(v), !Pde(vm, d, PdIndex(v)).present;
      IndexSplit(v);
      MapPageEntries(vm, kernelDir, d, v, p, PRESENT_WRITABLE);
      var g := Pde(vm', d, i).frame;
      InvParts(vm, kernelDir);
      if isNew {
        NewFrameIsFresh(vm.used);
        FreshIsNotOwned(vm, kernelDir, g);
      } else {
        TableIsNoDirectory(vm, kernelDir, d, i, d);
      }
      forall q: nat | q in PageMap(vm'.tables, d)
        ensures Pte(vm', d, q).writable && !Pte(vm', d, q).user
      {
        if q / ENTRIES != i {
          assert Pde(vm', d, q / ENTRIES) == Pde(vm, d, q / ENTRIES);
          PairFacts(vm, kernelDir, d, i, d, q / ENTRIES);
          TableIsNoDirectory(vm, kernelDir, d, q / ENTRIES, d);
        }
        if q / ENTRIES != i || (!isNew && q % ENTRIES != PtIndex(v)) { assert q in PageMap(vm.tables, d); }
      }
    }
  }

  lemma BootStart(t: Tables, used: set<nat>, kernelDir: nat)
    requires TablesOk(t) && Frames(used) && 0 < kernelDir < FIRST_FRAME
    ensures var vm := Vm(t[kernelDir := EmptyTable()], used, {kernelDir});
      Booting(vm, kernelDir, used, 0, 0) && KernelRights(vm, kernelDir)
  {
    hide AllocAnswer;
    CountUsed(used);
    var vm := Vm(t[kernelDir := EmptyTable()], used, {kernelDir});
    GetCleared(t, kernelDir);
    forall j: nat
      ensures !Pde(vm, kernelDir, j).present
    {}
    InvFromParts(vm, kernelDir);
    assert PageMap(vm.tables, kernelDir) == BootMap(0, 0);
  }

  lemma BootDone(vm: Vm, kernelDir: nat, before: set<nat>)
    requires Booting(vm, kernelDir, before, BOOT_PAGES, BOOT_PAGES)
    ensures Inv(vm, kernelDir) && before <= vm.used
    ensures PageMap(vm.tables, kernelDir) ==
      BootMap(if FreeOf(before) >= 1 then BOOT_PAGES else 0, if FreeOf(before) >= 2 then BOOT_PAGES else 0)
    ensures FreeOf(before) >= 1 ==> Pde(vm, kernelDir, 0) == Entry(true, true, false, NewFrame(before))
  {}

  /** One turn of either loop. */
  lemma BootStep(vm: Vm, kernelDir: nat, before: set<nat>, a: nat, b: nat, v: nat, p: nat)
    requires Booting(vm, kernelDir, before, a, b)
    requires (b == 0 && a < BOOT_PAGES && v == p == a * 0x1000)
      || (a == BOOT_PAGES && b < BOOT_PAGES && p == b * 0x1000 && v == KERNEL_VIRTUAL_BASE + p)
    ensures var vm' := MapPage(vm, kernelDir, v, p, PRESENT_WRITABLE);
      && (if v == p then Booting(vm', kernelDir, before, a + 1, b) else Booting(vm', kernelDir, before, a, b + 1))
      && (KernelRights(vm, kernelDir) ==> KernelRights(vm', kernelDir))
  {
    hide Inv, PageMap, BootMap, AllocAnswer, AllocUsed, MapPage, KernelRights;
    if KernelRights(vm, kernelDir) { KernelRightsKept(vm, kernelDir, kernelDir, v, p); }
    var vm' := MapPage(vm, kernelDir, v, p, PRESENT_WRITABLE);
    InvParts(vm, kernelDir);
    MapPageEffect(vm, kernelDir, kernelDir, v, p, PRESENT_WRITABLE);
    FrameForTable(vm.used);
    assert Bit(PRESENT_WRITABLE, 0) && !Bit(PRESENT_WRITABLE, 2);
    BootMapGrows(a, b);
    InvParts(vm', kernelDir);
    assert PdIndex(v) == if v == p then 0 else KERNEL_INDEX;
  }

  lemma FrameForTable(used: set<nat>)
    requires Frames(used)
    ensures |used| < TOTAL_FRAMES <==> AllocAnswer(used) != 0
    ensures |AllocUsed(used)| == |used| + (if AllocAnswer(used) != 0 then 1 else 0) && used <= AllocUsed(used)
  {
    CountUsed(used);
    AnswerIsFrame(used);
  }

  lemma BootMapGrows(a: nat, b: nat)
    requires a <= BOOT_PAGES && b <= BOOT_PAGES
    ensures a < BOOT_PAGES && b == 0 ==> BootMap(a, b)[a := a] == BootMap(a + 1, b)
    ensures a == BOOT_PAGES && b < BOOT_PAGES ==> BootMap(a, b)[KERNEL_PAGE + b := b] == BootMap(a, b + 1)
  {}

  /** After boot both views of the first 4 MB translate to it, and nothing else translates. */
  lemma BootTranslates(t: Tables, kernelDir: nat, v: nat)
    requires PageMap(t, kernelDir) == BootMap(BOOT_PAGES, BOOT_PAGES) && v < WORD
    ensures v < 0x40_0000 ==>
      Translate(t, kernelDir, v) == v && Translate(t, kernelDir, KERNEL_VIRTUAL_BASE + v) == v
    ensures Translate(t, kernelDir, v) != 0 ==>
      v < 0x40_0000 || KERNEL_VIRTUAL_BASE <= v < KERNEL_VIRTUAL_BASE + 0x40_0000
  {
    hide PageMap, Translate, Lookup;
    TranslateIsPageMap(t, kernelDir, v);
    if v < 0x40_0000 { TranslateIsPageMap(t, kernelDir, KERNEL_VIRTUAL_BASE + v); }
  }

  /**
   * The identity mapping covers the tables themselves: unmapping the page of the first table right after
   * boot gives a live page table back to the allocator, which will hand it out again.
   */
  method UnmappingATableFreesIt(pmm: Pmm, memory: Tables, kernelDir: nat) returns (vmm: Vmm)
    requires pmm.Valid() && pmm.used == {0} && TablesOk(memory) && 0 < kernelDir < FIRST_FRAME
    modifies pmm, pmm.bitmap
    ensures !vmm.Valid()
    ensures Owned(vmm.Snapshot(), FIRST_FRAME + 1) && AllocAnswer(vmm.pmm.used) == FrameAddr(1)
  {
    hide Inv, LowestFree, PageMap, BootMap, AllocAnswer, Represents, TablesOk, Lookup;
    FirstFrameIsOne(pmm.used);
    vmm := new Vmm(pmm, memory, kernelDir);
    vmm.Init();
    ghost var vm := vmm.Snapshot();
    BootedEntry(vm, kernelDir);
    FirstFrameIsOne(FreeUsed(vm.used, FrameAddr(1)));
    UnmapPageInv(vm, kernelDir, kernelDir, FrameAddr(1));
    EntryFacts(vm, kernelDir, kernelDir, 0);
    vmm.UnmapPage(kernelDir, FrameAddr(1));
    WriteEntryEffect(vm, kernelDir, kernelDir, FIRST_FRAME + 1, EMPTY);
    assert Pde(vmm.Snapshot(), kernelDir, 0) == Pde(vm, kernelDir, 0);
  }

  lemma FirstFrameIsOne(used: set<nat>)
    requires 0 in used && 1 !in used
    ensures AllocAnswer(used) == FrameAddr(1) && NewFrame(used) == FIRST_FRAME + 1
  {
    LowestFreeUnique(used, 1);
  }

  /** Right after boot, the page of frame 1 is mapped to frame 1. */
  lemma BootedEntry(vm: Vm, kernelDir: nat)
    requires PageMap(vm.tables, kernelDir) == BootMap(BOOT_PAGES, BOOT_PAGES)
    ensures Returned(vm, kernelDir, FrameAddr(1)) == FrameAddr(1)
  {
    var q: nat := FIRST_FRAME + 1;
    assert q in BootMap(BOOT_PAGES, BOOT_PAGES);
    assert PageMap(vm.tables, kernelDir)[q] == q;
    assert PdIndex(FrameAddr(1)) == q / ENTRIES && PtIndex(FrameAddr(1)) == q % ENTRIES;
  }
}
