/**
 * Two-level page tables held in physical frames, and what the operations on them do (kernel/vmm.c).
 * The 10/10/12 split of an address is that of 32-bit paging, Intel SDM Volume 3A, section 4.3.
 */
module Paging {
  import opened Machine
  import opened Bits
  import opened FrameBitmap

  const ENTRIES: nat := 1024
  const PAGES: nat := 0x10_0000               // pages of the address space, and frames of physical memory
  const KERNEL_VIRTUAL_BASE: nat := 0xC000_0000
  const KERNEL_INDEX: nat := 768              // GET_PD_INDEX(KERNEL_VIRTUAL_BASE)
  const FIRST_FRAME: nat := 512               // MEMORY_START / PAGE_SIZE

  datatype Option<T> = None | Some(value: T)

  datatype Entry = Entry(present: bool, writable: bool, user: bool, frame: nat)

  const EMPTY: Entry := Entry(false, false, false, 0)

  /** What every physical frame holds, read as a page directory or page table. */
  type Tables = map<nat, seq<Entry>>

  /** The paging structures in memory, the frames in use and the directories that exist. */
  datatype Vm = Vm(tables: Tables, used: set<nat>, dirs: set<nat>)

  ghost predicate TableOk(s: seq<Entry>) { |s| == ENTRIES && forall i :: 0 <= i < ENTRIES ==> s[i].frame < PAGES }

  ghost predicate TablesOk(t: Tables) { forall f: nat :: f < PAGES ==> f in t && TableOk(t[f]) }

  /** Entry `i` of the structure in frame `f`. */
  function Get(t: Tables, f: nat, i: nat): Entry { if f in t && i < |t[f]| then t[f][i] else EMPTY }

  function Put(t: Tables, f: nat, i: nat, e: Entry): Tables
  {
    if f in t && i < |t[f]| then t[f := t[f][i := e]] else t
  }

  function EmptyTable(): (s: seq<Entry>)
    ensures |s| == ENTRIES && forall i :: 0 <= i < ENTRIES ==> s[i] == EMPTY
  {
    seq(ENTRIES, i => EMPTY)
  }

  lemma GetPut(t: Tables, f: nat, i: nat, e: Entry)
    requires TablesOk(t) && f < PAGES && i < ENTRIES && e.frame < PAGES
    ensures TablesOk(Put(t, f, i, e))
    ensures forall g: nat, j: nat :: Get(Put(t, f, i, e), g, j) == if g == f && j == i then e else Get(t, g, j)
  {
    assert TableOk(t[f]);
  }

  lemma GetCleared(t: Tables, f: nat)
    requires TablesOk(t) && f < PAGES
    ensures TablesOk(t[f := EmptyTable()])
    ensures forall g: nat, j: nat :: Get(t[f := EmptyTable()], g, j) == if g == f then EMPTY else Get(t, g, j)
  {
    var r := t[f := EmptyTable()];
    forall g: nat, j: nat
      ensures Get(r, g, j) == if g == f then EMPTY else Get(t, g, j)
    {
      if g == f && j < ENTRIES { assert r[f][j] == EMPTY; }
    }
  }

  lemma FrameBound(t: Tables, f: nat, i: nat)
    requires TablesOk(t) && f < PAGES
    ensures Get(t, f, i).frame < PAGES
  {
    assert TableOk(t[f]);
  }

  // ----- Translation -----

  function PdIndex(v: nat): nat { v / 0x40_0000 }

  function PtIndex(v: nat): nat { v / 0x1000 % ENTRIES }

  function PageOf(v: nat): nat { v / 0x1000 }

  /** The three index fields determine the address. */
  lemma IndexSplit(v: nat)
    requires v < WORD
    ensures PdIndex(v) < ENTRIES && PtIndex(v) < ENTRIES
    ensures v == PdIndex(v) * 0x40_0000 + PtIndex(v) * 0x1000 + v % 0x1000
    ensures PageOf(v) == PdIndex(v) * ENTRIES + PtIndex(v) && PageOf(v) < PAGES
    ensures PageOf(v) / ENTRIES == PdIndex(v) && PageOf(v) % ENTRIES == PtIndex(v)
    ensures PdIndex(v) >= KERNEL_INDEX <==> v >= KERNEL_VIRTUAL_BASE
  {}

  /** The frame that directory `d` maps page `q` to. */
  function Lookup(t: Tables, d: nat, q: nat): Option<nat>
  {
    var pde := Get(t, d, q / ENTRIES);
    var pte := Get(t, pde.frame, q % ENTRIES);
    if pde.present && pte.present then Some(pte.frame) else None
  }

  /** The plain map from pages to frames that a directory stands for. */
  ghost function PageMap(t: Tables, d: nat): (m: map<nat, nat>)
    ensures forall q: nat :: q in m <==> q < PAGES && Lookup(t, d, q).Some?
    ensures forall q: nat :: q in m ==> m[q] == Lookup(t, d, q).value
  {
    map q: nat | q < PAGES && Lookup(t, d, q).Some? :: Lookup(t, d, q).value
  }

  /** vmm_get_physical_address: the physical address, or 0. */
  function Translate(t: Tables, d: nat, v: nat): nat
  {
    var pde := Get(t, d, PdIndex(v));
    if !pde.present then 0
    else
      var pte := Get(t, pde.frame, PtIndex(v));
      if !pte.present then 0 else pte.frame * 0x1000 + v % 0x1000
  }

  /** Walking the tables is looking the page up in the plain map and adding the offset. */
  lemma TranslateIsPageMap(t: Tables, d: nat, v: nat)
    requires v < WORD
    ensures var m := PageMap(t, d);
      Translate(t, d, v) == if PageOf(v) in m then m[PageOf(v)] * 0x1000 + v % 0x1000 else 0
  {
    IndexSplit(v);
  }

  // ----- The invariant -----

  /** A frame that the physical allocator manages and has given out. */
  predicate Given(used: set<nat>, f: nat) { FIRST_FRAME <= f && f - FIRST_FRAME in used }

  /** Entry `i` of directory `d`. */
  function Pde(vm: Vm, d: nat, i: nat): Entry { Get(vm.tables, d, i) }

  /** If directory entry `i` of `d` has a table, that is in a frame in use and not itself a directory. */
  ghost predicate TableGiven(vm: Vm, d: nat, i: nat)
  {
    Pde(vm, d, i).present ==> Given(vm.used, Pde(vm, d, i).frame) && Pde(vm, d, i).frame !in vm.dirs
  }

  /** Two directory entries share a table only at the same index, and then in the kernel's part. */
  ghost predicate Apart(vm: Vm, d: nat, i: nat, e: nat, j: nat)
  {
    Pde(vm, d, i).present && Pde(vm, e, j).present && Pde(vm, d, i).frame == Pde(vm, e, j).frame ==>
      i == j && (d == e || i >= KERNEL_INDEX)
  }

  ghost predicate DirOk(vm: Vm, d: nat, kernelDir: nat) { d < PAGES && (d != kernelDir ==> Given(vm.used, d)) }

  ghost predicate Inv(vm: Vm, kernelDir: nat)
  {
    && TablesOk(vm.tables) && Frames(vm.used)
    && 0 < kernelDir < FIRST_FRAME && kernelDir in vm.dirs
    && (forall d :: d in vm.dirs ==> DirOk(vm, d, kernelDir))
    && (forall d: nat, i: nat :: d in vm.dirs ==> TableGiven(vm, d, i))
    && forall d: nat, i: nat, e: nat, j: nat :: d in vm.dirs && e in vm.dirs ==> Apart(vm, d, i, e, j)
  }

  /** The frame holds a directory or a table of one. */
  ghost predicate Owned(vm: Vm, f: nat)
  {
    f in vm.dirs || exists d: nat, i: nat :: d in vm.dirs && Pde(vm, d, i).present && Pde(vm, d, i).frame == f
  }

  // ----- The operations -----

  function NewFrame(used: set<nat>): nat { AllocAnswer(used) / 0x1000 }

  lemma NewFrameIsFresh(used: set<nat>)
    requires Frames(used) && AllocAnswer(used) != 0
    ensures FIRST_FRAME <= NewFrame(used) < PAGES
    ensures !Given(used, NewFrame(used)) && Given(AllocUsed(used), NewFrame(used))
    ensures forall f: nat :: Given(AllocUsed(used), f) <==> f == NewFrame(used) || Given(used, f)
    ensures Frames(AllocUsed(used))
  {
    AnswerIsFrame(used);
  }

  /** Give directory entry `i` of `d` a fresh, empty table. */
  function AddTable(vm: Vm, d: nat, i: nat, user: bool): Vm
  {
    var g := NewFrame(vm.used);
    Vm(Put(vm.tables[g := EmptyTable()], d, i, Entry(true, true, user, g)), AllocUsed(vm.used), vm.dirs)
  }

  /** Write the entry of page `q` in the table that `d` has for it. */
  function WriteEntry(vm: Vm, d: nat, q: nat, entry: Entry): Vm
  {
    vm.(tables := Put(vm.tables, Pde(vm, d, q / ENTRIES).frame, q % ENTRIES, entry))
  }

  function EntryFor(p: nat, flags: nat): Entry
  {
    Entry(Bit(flags, 0), Bit(flags, 1), Bit(flags, 2), p / 0x1000)
  }

  /** vmm_map_page */
  function MapPage(vm: Vm, d: nat, v: nat, p: nat, flags: nat): Vm
  {
    if Pde(vm, d, PdIndex(v)).present then WriteEntry(vm, d, PageOf(v), EntryFor(p, flags))
    else if AllocAnswer(vm.used) == 0 then vm
    else WriteEntry(AddTable(vm, d, PdIndex(v), Bit(flags, 2)), d, PageOf(v), EntryFor(p, flags))
  }

  /** The frame address that unmapping `v` hands back to the allocator; 0 if none. */
  function Returned(vm: Vm, d: nat, v: nat): nat
  {
    var pde := Pde(vm, d, PdIndex(v));
    if pde.present then Get(vm.tables, pde.frame, PtIndex(v)).frame * 0x1000 else 0
  }

  /** vmm_unmap_page */
  function UnmapPage(vm: Vm, d: nat, v: nat): Vm
  {
    if !Pde(vm, d, PdIndex(v)).present then vm
    else
      var cleared := WriteEntry(vm, d, PageOf(v), EMPTY);
      if Returned(vm, d, v) == 0 then cleared else cleared.(used := FreeUsed(vm.used, Returned(vm, d, v)))
  }

  /** An empty directory with the kernel's entries copied from KERNEL_INDEX on. */
  function KernelHalf(vm: Vm, kernelDir: nat): (s: seq<Entry>)
    ensures |s| == ENTRIES
    ensures forall i: nat :: i < ENTRIES ==> s[i] == if i >= KERNEL_INDEX then Pde(vm, kernelDir, i) else EMPTY
  {
    seq(ENTRIES, (i: nat) => if i >= KERNEL_INDEX then Pde(vm, kernelDir, i) else EMPTY)
  }

  /** vmm_create_page_directory: the new directory is in frame `NewFrame(vm.used)`. */
  function CreateDirectory(vm: Vm, kernelDir: nat): Vm
  {
    if AllocAnswer(vm.used) == 0 then vm
    else
      var g := NewFrame(vm.used);
      Vm(vm.tables[g := KernelHalf(vm, kernelDir)], AllocUsed(vm.used), vm.dirs + {g})
  }

  // ----- What the operations do to the page maps -----

  /** What the invariant says about one directory entry. */
  lemma EntryFacts(vm: Vm, kernelDir: nat, d: nat, i: nat)
    requires Inv(vm, kernelDir) && d in vm.dirs
    ensures TablesOk(vm.tables) && d < PAGES && (d != kernelDir ==> Given(vm.used, d)) && kernelDir < FIRST_FRAME
    ensures Pde(vm, d, i).frame < PAGES && TableGiven(vm, d, i)
  {
    assert DirOk(vm, d, kernelDir);
    FrameBound(vm.tables, d, i);
  }

  lemma PairFacts(vm: Vm, kernelDir: nat, d: nat, i: nat, e: nat, j: nat)
    requires Inv(vm, kernelDir) && d in vm.dirs && e in vm.dirs
    ensures Apart(vm, d, i, e, j)
  {}

  /** A frame not in use holds neither a directory nor a table. */
  lemma FreshIsNotOwned(vm: Vm, kernelDir: nat, g: nat)
    requires Inv(vm, kernelDir) && FIRST_FRAME <= g && !Given(vm.used, g)
    ensures !Owned(vm, g)
  {
    assert g in vm.dirs ==> DirOk(vm, g, kernelDir);
    forall d: nat, i: nat | d in vm.dirs
      ensures !(Pde(vm, d, i).present && Pde(vm, d, i).frame == g)
    {
      assert TableGiven(vm, d, i);
    }
  }

  /** A new table changes no mapping of any directory. */
  lemma AddTableEffect(vm: Vm, kernelDir: nat, d: nat, i: nat, user: bool)
    requires Inv(vm, kernelDir) && d in vm.dirs && i < ENTRIES && !Pde(vm, d, i).present && AllocAnswer(vm.used) != 0
    ensures var vm' := AddTable(vm, d, i, user);
      && Inv(vm', kernelDir)
      && Pde(vm', d, i) == Entry(true, true, user, NewFrame(vm.used))
      && (forall e: nat, j: nat :: e in vm.dirs && (e != d || j != i) ==> Pde(vm', e, j) == Pde(vm, e, j))
      && forall e: nat, q: nat :: e in vm.dirs ==> Lookup(vm'.tables, e, q) == Lookup(vm.tables, e, q)
  {
    hide Inv, Put, AllocAnswer, AllocUsed, TablesOk;
    var g, vm' := NewFrame(vm.used), AddTable(vm, d, i, user);
    InvParts(vm, kernelDir);
    NewFrameIsFresh(vm.used);
    FreshIsNotOwned(vm, kernelDir, g);
    EntryFacts(vm, kernelDir, d, i);
    GetCleared(vm.tables, g);
    GetPut(vm.tables[g := EmptyTable()], d, i, Entry(true, true, user, g));
    forall e: nat, j: nat | e in vm.dirs
      ensures Pde(vm', e, j) == if e == d && j == i then Entry(true, true, user, g) else Pde(vm, e, j)
      ensures TableGiven(vm', e, j)
    {
      EntryFacts(vm, kernelDir, e, j);
    }
    forall e | e in vm.dirs
      ensures DirOk(vm', e, kernelDir)
    {
      EntryFacts(vm, kernelDir, e, 0);
    }
    forall a: nat, x: nat, b: nat, y: nat | a in vm.dirs && b in vm.dirs
      ensures Apart(vm', a, x, b, y)
    {
      PairFacts(vm, kernelDir, a, x, b, y);
      EntryFacts(vm, kernelDir, a, x);
      EntryFacts(vm, kernelDir, b, y);
    }
    forall e: nat, q: nat | e in vm.dirs
      ensures Lookup(vm'.tables, e, q) == Lookup(vm.tables, e, q)
    {
      EntryFacts(vm, kernelDir, e, q / ENTRIES);
      if e == d && q / ENTRIES == i {
        var k: nat := q % ENTRIES;
        assert g != d;
        assert Get(vm'.tables, g, k) == EMPTY;
      } else {
        var h := Pde(vm, e, q / ENTRIES).frame;
        assert Pde(vm', e, q / ENTRIES) == Pde(vm, e, q / ENTRIES);
        assert Pde(vm, e, q / ENTRIES).present ==> Get(vm'.tables, h, q % ENTRIES) == Get(vm.tables, h, q % ENTRIES);
      }
    }
    InvFromParts(vm', kernelDir);
  }

  /** Directory `e` uses the same table as `d` for the pages of entry `i`. */
  predicate Shares(vm: Vm, d: nat, e: nat, i: nat)
  {
    Pde(vm, e, i).present && Pde(vm, e, i).frame == Pde(vm, d, i).frame
  }

  /** What directory `e` maps page `x` to once `entry` is written for page `q` of `d`. */
  function Rewritten(vm: Vm, d: nat, q: nat, entry: Entry, e: nat, x: nat): Option<nat>
  {
    if x == q && Shares(vm, d, e, q / ENTRIES) then (if entry.present then Some(entry.frame) else None)
    else Lookup(vm.tables, e, x)
  }

  /** Writing a table entry changes one page, in the directories that use this table. */
  lemma WriteEntryEffect(vm: Vm, kernelDir: nat, d: nat, q: nat, entry: Entry)
    requires Inv(vm, kernelDir) && d in vm.dirs && q < PAGES && Pde(vm, d, q / ENTRIES).present && entry.frame < PAGES
    ensures var vm' := WriteEntry(vm, d, q, entry);
      && Inv(vm', kernelDir)
      && (forall e: nat, j: nat :: e in vm.dirs ==> Pde(vm', e, j) == Pde(vm, e, j))
      && forall e: nat, x: nat :: e in vm.dirs ==> Lookup(vm'.tables, e, x) == Rewritten(vm, d, q, entry, e, x)
  {
    hide Inv, Put, TablesOk;
    var i, vm' := q / ENTRIES, WriteEntry(vm, d, q, entry);
    var g := Pde(vm, d, i).frame;
    InvParts(vm, kernelDir);
    EntryFacts(vm, kernelDir, d, i);
    GetPut(vm.tables, g, q % ENTRIES, entry);
    forall e: nat, j: nat | e in vm.dirs
      ensures Pde(vm', e, j) == Pde(vm, e, j) && TableGiven(vm', e, j)
    {
      EntryFacts(vm, kernelDir, e, j);
    }
    forall e | e in vm.dirs
      ensures DirOk(vm', e, kernelDir)
    {
      EntryFacts(vm, kernelDir, e, 0);
    }
    forall a: nat, x: nat, b: nat, y: nat | a in vm.dirs && b in vm.dirs
      ensures Apart(vm', a, x, b, y)
    {
      PairFacts(vm, kernelDir, a, x, b, y);
    }
    InvFromParts(vm', kernelDir);
    forall e: nat, x: nat | e in vm.dirs
      ensures Lookup(vm'.tables, e, x) == Rewritten(vm, d, q, entry, e, x)
    {
      PairFacts(vm, kernelDir, d, i, e, x / ENTRIES);
      assert Pde(vm', e, x / ENTRIES) == Pde(vm, e, x / ENTRIES);
      if x / ENTRIES == i && x % ENTRIES == q % ENTRIES { assert x == q; }
    }
  }

  /** The page map with page `q` mapped as `entry` says. */
  ghost function Remapped(m: map<nat, nat>, q: nat, entry: Entry): map<nat, nat>
  {
    if entry.present then m[q := entry.frame] else m - {q}
  }

  lemma WriteEntryMaps(vm: Vm, kernelDir: nat, d: nat, q: nat, entry: Entry, e: nat)
    requires Inv(vm, kernelDir) && d in vm.dirs && q < PAGES && Pde(vm, d, q / ENTRIES).present && entry.frame < PAGES
    requires e in vm.dirs
    ensures PageMap(WriteEntry(vm, d, q, entry).tables, e) ==
      if Shares(vm, d, e, q / ENTRIES) then Remapped(PageMap(vm.tables, e), q, entry) else PageMap(vm.tables, e)
  {
    hide Inv, Lookup;
    WriteEntryEffect(vm, kernelDir, d, q, entry);
    var t' := WriteEntry(vm, d, q, entry).tables;
    forall x: nat
      ensures Lookup(t', e, x) == Rewritten(vm, d, q, entry, e, x)
    {}
  }

  /** No page table can be had for the page. */
  predicate OutOfFrames(vm: Vm, d: nat, v: nat)
  {
    !Pde(vm, d, PdIndex(v)).present && AllocAnswer(vm.used) == 0
  }

  /** Another directory sees what `d` maps at `v`. */
  predicate Sees(vm: Vm, d: nat, e: nat, v: nat)
  {
    e == d || (Pde(vm, d, PdIndex(v)).present && Shares(vm, d, e, PdIndex(v)))
  }

  /** The page map of directory `e` once `entry` is written for address `v` in `d`. */
  ghost function MapSeen(vm: Vm, d: nat, v: nat, entry: Entry, e: nat): map<nat, nat>
  {
    if Sees(vm, d, e, v) then Remapped(PageMap(vm.tables, e), PageOf(v), entry) else PageMap(vm.tables, e)
  }

  /** Below the kernel's part of the address space no directory sees another. */
  lemma LowIsPrivate(vm: Vm, kernelDir: nat, d: nat, e: nat, v: nat)
    requires Inv(vm, kernelDir) && d in vm.dirs && e in vm.dirs && v < KERNEL_VIRTUAL_BASE
    ensures Sees(vm, d, e, v) <==> e == d
  {
    PairFacts(vm, kernelDir, d, PdIndex(v), e, PdIndex(v));
  }

  /**
   * Mapping a page: nothing happens if a table is missing and cannot be had; otherwise exactly that page
   * changes, in this directory and those that see it.
   */
  lemma MapPageEffect(vm: Vm, kernelDir: nat, d: nat, v: nat, p: nat, flags: nat)
    requires Inv(vm, kernelDir) && d in vm.dirs && v < WORD && p < WORD
    ensures var vm' := MapPage(vm, d, v, p, flags);
      && Inv(vm', kernelDir) && vm'.dirs == vm.dirs
      && (forall e: nat, j: nat :: e in vm.dirs && (Pde(vm, e, j).present || e != d || j != PdIndex(v)) ==>
            Pde(vm', e, j) == Pde(vm, e, j))
      && vm'.used == (if Pde(vm, d, PdIndex(v)).present then vm.used else AllocUsed(vm.used))
      && if OutOfFrames(vm, d, v) then vm' == vm
        else
          && Pde(vm', d, PdIndex(v)) == (if Pde(vm, d, PdIndex(v)).present then Pde(vm, d, PdIndex(v))
            else Entry(true, true, Bit(flags, 2), NewFrame(vm.used)))
          && forall e :: e in vm.dirs ==> PageMap(vm'.tables, e) == MapSeen(vm, d, v, EntryFor(p, flags), e)
  {
    hide Inv, PageMap, Lookup, Remapped;
    IndexSplit(v);
    IndexSplit(p);
    var i, q, entry, vm' := PdIndex(v), PageOf(v), EntryFor(p, flags), MapPage(vm, d, v, p, flags);
    if !OutOfFrames(vm, d, v) {
      var vm1 := if Pde(vm, d, i).present then vm else AddTable(vm, d, i, Bit(flags, 2));
      if !Pde(vm, d, i).present { AddTableEffect(vm, kernelDir, d, i, Bit(flags, 2)); }
      WriteEntryEffect(vm1, kernelDir, d, q, entry);
      assert forall e: nat, j: nat :: e in vm.dirs ==> Pde(vm', e, j) == Pde(vm1, e, j);
      forall e | e in vm.dirs
        ensures PageMap(vm'.tables, e) == MapSeen(vm, d, v, entry, e)
      {
        WriteEntryMaps(vm1, kernelDir, d, q, entry, e);
        SameLookups(vm.tables, vm1.tables, e);
        PairFacts(vm1, kernelDir, d, i, e, i);
        if !Pde(vm, d, i).present && e != d { NewTableIsNotShared(vm, kernelDir, d, e, i, Bit(flags, 2)); }
      }
    }
  }

  lemma SameLookups(t: Tables, t': Tables, e: nat)
    requires forall q: nat :: Lookup(t', e, q) == Lookup(t, e, q)
    ensures PageMap(t', e) == PageMap(t, e)
  {}

  lemma NewTableIsNotShared(vm: Vm, kernelDir: nat, d: nat, e: nat, i: nat, user: bool)
    requires Inv(vm, kernelDir) && d in vm.dirs && e in vm.dirs && e != d
    requires i < ENTRIES && !Pde(vm, d, i).present && AllocAnswer(vm.used) != 0
    ensures !Shares(AddTable(vm, d, i, user), d, e, i)
  {
    AddTableEffect(vm, kernelDir, d, i, user);
    NewFrameIsFresh(vm.used);
    FreshIsNotOwned(vm, kernelDir, NewFrame(vm.used));
  }

  /** The entry of page `q`. */
  function Pte(vm: Vm, d: nat, q: nat): Entry { Get(vm.tables, Pde(vm, d, q / ENTRIES).frame, q % ENTRIES) }

  /**
   * Mapping a page, entry by entry: the page's own entry has the low three bits of the flags and the aligned frame.
   * Every other entry anywhere in memory is as before, but for a new table: that is empty otherwise, and the
   * directory has an entry for it.
   */
  lemma MapPageEntries(vm: Vm, kernelDir: nat, d: nat, v: nat, p: nat, flags: nat)
    requires Inv(vm, kernelDir) && d in vm.dirs && v < WORD && p < WORD && !OutOfFrames(vm, d, v)
    ensures var vm', i, j := MapPage(vm, d, v, p, flags), v / 0x40_0000, v / 0x1000 % 1024;
      var g, isNew := Pde(vm', d, i).frame, !Pde(vm, d, i).present;
      var e := Get(vm'.tables, g, j);
      && Pde(vm', d, i).present && (if isNew then g == NewFrame(vm.used) else g == Pde(vm, d, i).frame)
      && (e.present <==> flags % 2 == 1) && (e.writable <==> flags / 2 % 2 == 1) && (e.user <==> flags / 4 % 2 == 1)
      && e.frame == p / 0x1000
      && (isNew ==> Pde(vm', d, i) == Entry(true, true, flags / 4 % 2 == 1, g))
      && (isNew ==> forall x: nat :: x != j ==> Get(vm'.tables, g, x) == EMPTY)
      && forall f: nat, x: nat ::
           (if isNew then f != g && (f != d || x != i) else f != g || x != j) ==>
             Get(vm'.tables, f, x) == Get(vm.tables, f, x)
  {
    hide Inv, Put, TablesOk, AllocAnswer, AllocUsed, Bit;
    InvParts(vm, kernelDir);
    LowBits(flags);
    IndexSplit(v);
    IndexSplit(p);
    var i, j, entry := PdIndex(v), PtIndex(v), EntryFor(p, flags);
    EntryFacts(vm, kernelDir, d, i);
    if Pde(vm, d, i).present {
      GetPut(vm.tables, Pde(vm, d, i).frame, j, entry);
      TableIsNoDirectory(vm, kernelDir, d, i, d);
    } else {
      NewFrameIsFresh(vm.used);
      var g := NewFrame(vm.used);
      FreshIsNotOwned(vm, kernelDir, g);
      GetCleared(vm.tables, g);
      var t := vm.tables[g := EmptyTable()];
      var pde := Entry(true, true, Bit(flags, 2), g);
      GetPut(t, d, i, pde);
      GetPut(Put(t, d, i, pde), g, j, entry);
    }
  }

  lemma TableIsNoDirectory(vm: Vm, kernelDir: nat, d: nat, i: nat, e: nat)
    requires Inv(vm, kernelDir) && d in vm.dirs && e in vm.dirs && Pde(vm, d, i).present
    ensures Pde(vm, d, i).frame != e
  {
    EntryFacts(vm, kernelDir, d, i);
  }

  lemma LowBits(flags: nat)
    ensures Bit(flags, 0) <==> flags % 2 == 1
    ensures Bit(flags, 1) <==> flags / 2 % 2 == 1
    ensures Bit(flags, 2) <==> flags / 4 % 2 == 1
  {
    assert Pow2(0) == 1 && Pow2(1) == 2 && Pow2(2) == 4;
    BitWeight(flags, 0);
    BitWeight(flags, 1);
    BitWeight(flags, 2);
  }

  /**
   * Unmapping a page, entry by entry: its entry is cleared, every other entry anywhere in memory is as before, and
   * the frame that the entry held, present or not, is no longer in use. Frame 512 is the allocator's first.
   */
  lemma UnmapPageEntries(vm: Vm, kernelDir: nat, d: nat, v: nat)
    requires Inv(vm, kernelDir) && d in vm.dirs && v < WORD
    ensures var vm', i, j := UnmapPage(vm, d, v), v / 0x40_0000, v / 0x1000 % 1024;
      if !Pde(vm, d, i).present then vm' == vm
      else
        var g := Pde(vm, d, i).frame;
        var f := Get(vm.tables, g, j).frame;
        && Get(vm'.tables, g, j) == Entry(false, false, false, 0)
        && (forall h: nat, x: nat :: h != g || x != j ==> Get(vm'.tables, h, x) == Get(vm.tables, h, x))
        && vm'.used == (if f < 512 then vm.used else vm.used - {f - 512}) && vm'.dirs == vm.dirs
  {
    hide Inv, Put, TablesOk;
    InvParts(vm, kernelDir);
    IndexSplit(v);
    EntryFacts(vm, kernelDir, d, PdIndex(v));
    if Pde(vm, d, PdIndex(v)).present { GetPut(vm.tables, Pde(vm, d, PdIndex(v)).frame, PtIndex(v), EMPTY); }
  }

  /** A new directory, entry by entry: the kernel directory's from 768 on, rights included, and nothing else. */
  lemma CreateDirectoryEntries(vm: Vm, kernelDir: nat)
    requires Inv(vm, kernelDir) && AllocAnswer(vm.used) != 0
    ensures var vm', g := CreateDirectory(vm, kernelDir), NewFrame(vm.used);
      && (forall i: nat :: Pde(vm', g, i) == if 768 <= i < 1024 then Pde(vm, kernelDir, i) else EMPTY)
      && forall f: nat, i: nat :: f != g ==> Get(vm'.tables, f, i) == Get(vm.tables, f, i)
  {
    hide Inv, AllocAnswer, AllocUsed;
  }

  /** With the present flag, every address of the page translates to the aligned frame plus the offset. */
  lemma MappedPageTranslates(vm: Vm, kernelDir: nat, d: nat, v: nat, p: nat, flags: nat, w: nat)
    requires Inv(vm, kernelDir) && d in vm.dirs && v < WORD && p < WORD && w < WORD
    requires Bit(flags, 0) && !OutOfFrames(vm, d, v)
    ensures var t' := MapPage(vm, d, v, p, flags).tables;
      Translate(t', d, w) ==
        if PageOf(w) == PageOf(v) then p - p % 0x1000 + w % 0x1000 else Translate(vm.tables, d, w)
  {
    hide Inv, Translate;
    MapPageEffect(vm, kernelDir, d, v, p, flags);
    TranslateIsPageMap(vm.tables, d, w);
    TranslateIsPageMap(MapPage(vm, d, v, p, flags).tables, d, w);
  }

  /** Unmapping a page removes exactly that page, in this directory and those that see it. */
  lemma UnmapPageMaps(vm: Vm, kernelDir: nat, d: nat, v: nat, e: nat)
    requires Inv(vm, kernelDir) && d in vm.dirs && e in vm.dirs && v < WORD
    ensures PageMap(UnmapPage(vm, d, v).tables, e) == MapSeen(vm, d, v, EMPTY, e)
  {
    hide Inv, Lookup, PageMap;
    IndexSplit(v);
    if Pde(vm, d, PdIndex(v)).present {
      WriteEntryMaps(vm, kernelDir, d, PageOf(v), EMPTY, e);
    } else {
      NothingMapped(vm.tables, d, v);
    }
  }

  lemma NothingMapped(t: Tables, d: nat, v: nat)
    requires v < WORD && !Get(t, d, PdIndex(v)).present
    ensures PageMap(t, d) - {PageOf(v)} == PageMap(t, d)
  {
    IndexSplit(v);
    assert PageOf(v) !in PageMap(t, d);
  }

  /** A frame that the allocator takes back although a directory or table is in it. */
  ghost predicate FreesOwned(vm: Vm, d: nat, v: nat)
  {
    var f := Returned(vm, d, v) / 0x1000;
    Given(vm.used, f) && Owned(vm, f)
  }

  /**
   * The frame goes back to the allocator, and the structures stay sound exactly if that frame was none of
   * their own.
   */
  lemma UnmapPageInv(vm: Vm, kernelDir: nat, d: nat, v: nat)
    requires Inv(vm, kernelDir) && d in vm.dirs && v < WORD
    ensures var vm' := UnmapPage(vm, d, v);
      && vm'.dirs == vm.dirs
      && vm'.used == (if Returned(vm, d, v) == 0 then vm.used else FreeUsed(vm.used, Returned(vm, d, v)))
      && (Inv(vm', kernelDir) <==> !FreesOwned(vm, d, v))
  {
    hide Inv, Lookup, TablesOk;
    IndexSplit(v);
    InvParts(vm, kernelDir);
    var f, vm' := Returned(vm, d, v) / 0x1000, UnmapPage(vm, d, v);
    if Pde(vm, d, PdIndex(v)).present {
      EntryFacts(vm, kernelDir, d, PdIndex(v));
      FrameBound(vm.tables, Pde(vm, d, PdIndex(v)).frame, PtIndex(v));
      WriteEntryEffect(vm, kernelDir, d, PageOf(v), EMPTY);
      var cleared := WriteEntry(vm, d, PageOf(v), EMPTY);
      assert forall e: nat, j: nat :: e in vm.dirs ==> Pde(vm', e, j) == Pde(cleared, e, j) == Pde(vm, e, j);
      GivenAfterFree(vm.used, Returned(vm, d, v));
      SameOwned(vm, vm', f);
      if FreesOwned(vm, d, v) {
        OwnedMustBeGiven(vm', kernelDir, f);
      } else {
        FreeingOther(cleared, vm', kernelDir, f);
      }
    }
  }

  lemma GivenAfterFree(used: set<nat>, addr: nat)
    requires addr % 0x1000 == 0 && Frames(used)
    ensures forall g: nat :: Given(FreeUsed(used, addr), g) <==> Given(used, g) && g != addr / 0x1000
    ensures Frames(FreeUsed(used, addr))
  {}

  lemma SameOwned(vm: Vm, vm': Vm, f: nat)
    requires vm'.dirs == vm.dirs
    requires forall e: nat, j: nat :: e in vm.dirs ==> Pde(vm', e, j) == Pde(vm, e, j)
    ensures Owned(vm', f) <==> Owned(vm, f)
  {}

  lemma OwnedMustBeGiven(vm: Vm, kernelDir: nat, f: nat)
    requires FIRST_FRAME <= f && Owned(vm, f) && !Given(vm.used, f)
    ensures !Inv(vm, kernelDir)
  {
    if Inv(vm, kernelDir) { FreshIsNotOwned(vm, kernelDir, f); }
  }

  lemma FreeingOther(vm: Vm, vm': Vm, kernelDir: nat, f: nat)
    requires Inv(vm, kernelDir) && vm'.tables == vm.tables && vm'.dirs == vm.dirs && Frames(vm'.used)
    requires !(Given(vm.used, f) && Owned(vm, f))
    requires forall g: nat :: Given(vm.used, g) && g != f ==> Given(vm'.used, g)
    ensures Inv(vm', kernelDir)
  {
    hide Inv, TablesOk;
    InvParts(vm, kernelDir);
    forall d | d in vm.dirs
      ensures DirOk(vm', d, kernelDir)
    {
      EntryFacts(vm, kernelDir, d, 0);
    }
    forall d: nat, i: nat | d in vm.dirs
      ensures TableGiven(vm', d, i)
    {
      EntryFacts(vm, kernelDir, d, i);
      assert Pde(vm', d, i) == Pde(vm, d, i);
    }
    forall a: nat, x: nat, b: nat, y: nat | a in vm.dirs && b in vm.dirs
      ensures Apart(vm', a, x, b, y)
    {
      PairFacts(vm, kernelDir, a, x, b, y);
      assert Pde(vm', a, x) == Pde(vm, a, x) && Pde(vm', b, y) == Pde(vm, b, y);
    }
    InvFromParts(vm', kernelDir);
  }

  /** The kernel's part of a page map. */
  ghost function KernelPart(m: map<nat, nat>): map<nat, nat>
  {
    map q | q in m && q >= KERNEL_INDEX * ENTRIES :: m[q]
  }

  /**
   * A new directory maps every page of the kernel's part as the kernel directory does, and no other; all
   * existing directories map what they mapped before.
   */
  lemma CreateDirectoryEffect(vm: Vm, kernelDir: nat)
    requires Inv(vm, kernelDir) && AllocAnswer(vm.used) != 0
    ensures var vm' := CreateDirectory(vm, kernelDir);
      var g := NewFrame(vm.used);
      && Inv(vm', kernelDir) && g !in vm.dirs && vm'.dirs == vm.dirs + {g}
      && PageMap(vm'.tables, g) == KernelPart(PageMap(vm.tables, kernelDir))
      && forall e :: e in vm.dirs ==> PageMap(vm'.tables, e) == PageMap(vm.tables, e)
  {
    hide Inv, TablesOk, AllocAnswer, AllocUsed;
    var g, vm' := NewFrame(vm.used), CreateDirectory(vm, kernelDir);
    InvParts(vm, kernelDir);
    NewFrameIsFresh(vm.used);
    FreshIsNotOwned(vm, kernelDir, g);
    CopiedEntries(vm, kernelDir, g);
    forall e: nat, j: nat | e in vm'.dirs
      ensures Pde(vm', e, j) ==
        if e != g then Pde(vm, e, j) else if j >= KERNEL_INDEX then Pde(vm, kernelDir, j) else EMPTY
      ensures TableGiven(vm', e, j)
    {
      EntryFacts(vm, kernelDir, if e != g then e else kernelDir, j);
      if j >= ENTRIES { BeyondTable(vm.tables, kernelDir, j); }
    }
    forall e | e in vm'.dirs
      ensures DirOk(vm', e, kernelDir)
    {
      if e != g { EntryFacts(vm, kernelDir, e, 0); }
    }
    forall a: nat, x: nat, b: nat, y: nat | a in vm'.dirs && b in vm'.dirs
      ensures Apart(vm', a, x, b, y)
    {
      PairFacts(vm, kernelDir, if a != g then a else kernelDir, x, if b != g then b else kernelDir, y);
    }
    InvFromParts(vm', kernelDir);
    forall e: nat, q: nat | e in vm'.dirs
      ensures Lookup(vm'.tables, e, q) ==
        if e != g then Lookup(vm.tables, e, q)
        else if q / ENTRIES >= KERNEL_INDEX then Lookup(vm.tables, kernelDir, q) else None
    {
      EntryFacts(vm, kernelDir, if e != g then e else kernelDir, q / ENTRIES);
      assert Pde(vm', e, q / ENTRIES) == Get(vm'.tables, e, q / ENTRIES);
    }
    forall e | e in vm.dirs
      ensures PageMap(vm'.tables, e) == PageMap(vm.tables, e)
    {
      SameLookups(vm.tables, vm'.tables, e);
    }
  }

  lemma CopiedEntries(vm: Vm, kernelDir: nat, g: nat)
    requires TablesOk(vm.tables) && g < PAGES && kernelDir < PAGES
    ensures var t' := vm.tables[g := KernelHalf(vm, kernelDir)];
      && TablesOk(t')
      && (forall f: nat, j: nat :: f != g ==> Get(t', f, j) == Get(vm.tables, f, j))
      && (forall j: nat :: Get(t', g, j) == if KERNEL_INDEX <= j < ENTRIES then Pde(vm, kernelDir, j) else EMPTY)
  {
    var t' := vm.tables[g := KernelHalf(vm, kernelDir)];
    forall j: nat
      ensures Get(t', g, j) == if KERNEL_INDEX <= j < ENTRIES then Pde(vm, kernelDir, j) else EMPTY
    {
      if j < ENTRIES { assert t'[g][j] == KernelHalf(vm, kernelDir)[j]; }
    }
    forall j | 0 <= j < ENTRIES
      ensures t'[g][j].frame < PAGES
    {
      FrameBound(vm.tables, kernelDir, j);
      assert t'[g][j] == KernelHalf(vm, kernelDir)[j];
    }
    assert TableOk(t'[g]);
  }

  lemma BeyondTable(t: Tables, f: nat, j: nat)
    requires TablesOk(t) && f < PAGES && j >= ENTRIES
    ensures Get(t, f, j) == EMPTY
  {
    assert TableOk(t[f]);
  }

  // ----- Isolation over whole runs -----

  datatype Call = Map(dir: nat, v: nat, p: nat, flags: nat) | Unmap(dir: nat, v: nat) | Create

  /** The call names an existing directory and does not unmap a page that holds a paging structure. */
  ghost predicate Allowed(vm: Vm, c: Call)
  {
    match c
    case Map(d, v, p, _) => d in vm.dirs && v < WORD && p < WORD
    case Unmap(d, v) => d in vm.dirs && v < WORD && !FreesOwned(vm, d, v)
    case Create => true
  }

  function Step(vm: Vm, kernelDir: nat, c: Call): Vm
  {
    match c
    case Map(d, v, p, flags) => MapPage(vm, d, v, p, flags)
    case Unmap(d, v) => UnmapPage(vm, d, v)
    case Create => CreateDirectory(vm, kernelDir)
  }

  /** The call works on another directory than `e`, and below the kernel's part of the address space. */
  predicate Elsewhere(c: Call, e: nat)
  {
    c.Create? || (c.dir != e && c.v < KERNEL_VIRTUAL_BASE)
  }

  ghost predicate IsRun(vms: seq<Vm>, calls: seq<Call>, kernelDir: nat)
  {
    && |vms| == |calls| + 1 && Inv(vms[0], kernelDir)
    && forall i :: 0 <= i < |calls| ==> StepAt(vms, calls, kernelDir, i)
  }

  ghost predicate StepAt(vms: seq<Vm>, calls: seq<Call>, kernelDir: nat, i: nat)
    requires i < |calls| && |vms| == |calls| + 1
  {
    Allowed(vms[i], calls[i]) && vms[i + 1] == Step(vms[i], kernelDir, calls[i])
  }

  lemma StepInv(vm: Vm, kernelDir: nat, c: Call)
    requires Inv(vm, kernelDir) && Allowed(vm, c)
    ensures Inv(Step(vm, kernelDir, c), kernelDir) && vm.dirs <= Step(vm, kernelDir, c).dirs
  {
    hide Inv, FreesOwned, PageMap;
    match c
    case Map(d, v, p, flags) => MapPageEffect(vm, kernelDir, d, v, p, flags);
    case Unmap(d, v) => UnmapPageInv(vm, kernelDir, d, v);
    case Create => if AllocAnswer(vm.used) != 0 { CreateDirectoryEffect(vm, kernelDir); }
  }

  lemma StepElsewhere(vm: Vm, kernelDir: nat, c: Call, e: nat)
    requires Inv(vm, kernelDir) && Allowed(vm, c) && e in vm.dirs && Elsewhere(c, e)
    ensures PageMap(Step(vm, kernelDir, c).tables, e) == PageMap(vm.tables, e)
  {
    hide Inv, FreesOwned, PageMap, Sees;
    match c
    case Map(d, v, p, flags) =>
      MapPageEffect(vm, kernelDir, d, v, p, flags);
      LowIsPrivate(vm, kernelDir, d, e, v);
    case Unmap(d, v) =>
      UnmapPageMaps(vm, kernelDir, d, v, e);
      LowIsPrivate(vm, kernelDir, d, e, v);
    case Create => if AllocAnswer(vm.used) != 0 { CreateDirectoryEffect(vm, kernelDir); }
  }

  lemma {:induction false} RunInv(vms: seq<Vm>, calls: seq<Call>, kernelDir: nat, i: nat, j: nat)
    requires IsRun(vms, calls, kernelDir) && i <= j < |vms|
    ensures Inv(vms[j], kernelDir) && vms[i].dirs <= vms[j].dirs
    decreases j
  {
    if i < j {
      RunInv(vms, calls, kernelDir, i, j - 1);
      assert StepAt(vms, calls, kernelDir, j - 1);
      StepInv(vms[j - 1], kernelDir, calls[j - 1]);
    } else if j > 0 {
      RunInv(vms, calls, kernelDir, j - 1, j - 1);
      assert StepAt(vms, calls, kernelDir, j - 1);
      StepInv(vms[j - 1], kernelDir, calls[j - 1]);
    }
  }

  /**
   * No sequence of maps and unmaps below the kernel's part in other directories, and of creations, changes
   * any translation in a directory.
   */
  lemma {:induction false} RunIsolation(vms: seq<Vm>, calls: seq<Call>, kernelDir: nat, e: nat, i: nat, j: nat)
    requires IsRun(vms, calls, kernelDir) && i <= j < |vms| && e in vms[i].dirs
    requires forall t :: i <= t < j ==> Elsewhere(calls[t], e)
    ensures PageMap(vms[j].tables, e) == PageMap(vms[i].tables, e)
    ensures forall v: nat :: v < WORD ==> Translate(vms[j].tables, e, v) == Translate(vms[i].tables, e, v)
    decreases j
  {
    hide PageMap, Translate, Step, Inv;
    if i < j {
      RunIsolation(vms, calls, kernelDir, e, i, j - 1);
      RunInv(vms, calls, kernelDir, i, j - 1);
      assert Elsewhere(calls[j - 1], e) && StepAt(vms, calls, kernelDir, j - 1);
      StepElsewhere(vms[j - 1], kernelDir, calls[j - 1], e);
      forall v: nat | v < WORD
        ensures Translate(vms[j].tables, e, v) == Translate(vms[i].tables, e, v)
      {
        TranslateIsPageMap(vms[j].tables, e, v);
        TranslateIsPageMap(vms[i].tables, e, v);
      }
    }
  }

  lemma InvParts(vm: Vm, kernelDir: nat)
    requires Inv(vm, kernelDir)
    ensures TablesOk(vm.tables) && Frames(vm.used) && 0 < kernelDir < FIRST_FRAME && kernelDir in vm.dirs
  {}

  lemma InvFromParts(vm: Vm, kernelDir: nat)
    requires TablesOk(vm.tables) && Frames(vm.used)
    requires 0 < kernelDir < FIRST_FRAME && kernelDir in vm.dirs
    requires forall d :: d in vm.dirs ==> DirOk(vm, d, kernelDir)
    requires forall d: nat, i: nat :: d in vm.dirs ==> TableGiven(vm, d, i)
    requires forall d: nat, i: nat, e: nat, j: nat :: d in vm.dirs && e in vm.dirs ==> Apart(vm, d, i, e, j)
    ensures Inv(vm, kernelDir)
  {}
}
