/** The memory blocks that hold the contents of files (drivers/fs.c, src/libc/stdlib.c). */
module FileContents {
  import opened Machine
  import opened Memory
  import opened FileTree
  import BlockList
  import FirstFit

  type Blocks = map<nat, seq<byte>>

  /** Whether entry `e` is live and has a data block. */
  predicate HasBlock(t: Tables, e: int) { Live(t, e) && t.entries[e].data != 0 }

  /** Every live file's data block is a live block of its own, large enough for the file. */
  ghost predicate Owns(t: Tables, live: Blocks)
  {
    && 0 !in live
    && (forall e :: Live(t, e) ==> t.entries[e].size <= WORD - 8)
    && (forall e :: HasBlock(t, e) ==> t.entries[e].data in live && t.entries[e].size <= |live[t.entries[e].data]|)
    && (forall e, f :: HasBlock(t, e) && HasBlock(t, f) && e != f ==> t.entries[e].data != t.entries[f].data)
  }

  ghost function OwnedPtrs(t: Tables): (s: set<nat>)
    ensures forall p :: p in s <==> exists e :: HasBlock(t, e) && t.entries[e].data == p
  {
    set e: nat | e < |t.entries| && HasBlock(t, e) :: t.entries[e].data
  }

  /** `data` is a new block for `size` bytes, or NULL and nothing has changed. */
  ghost predicate Gained(live: Blocks, live': Blocks, data: nat, size: nat)
  {
    if data == 0 then live' == live
    else data !in live && data in live' && size <= |live'[data]| && live' - {data} == live
  }

  /** The live blocks that do not belong to the filesystem. */
  ghost function Foreign(t: Tables, live: Blocks): Blocks { live - OwnedPtrs(t) }

  // ----- When the calls succeed -----

  /** The state of the filesystem and of the allocator under it. */
  datatype FsState = FsState(tables: Tables, live: Blocks, blocks: seq<BlockList.Block>)
  {
    ghost function Tree(): View { ViewOf(tables, live) }
  }

  predicate CanGet(blocks: seq<BlockList.Block>, size: nat)
  {
    size <= WORD - 8 && FirstFit.Answer(blocks, size) != 0
  }

  /** Whether a block can be had: the request can be rounded up, and some free block is as large as it then is. */
  lemma CanGetMeans(blocks: seq<BlockList.Block>, size: nat)
    ensures CanGet(blocks, size) <==>
      && size <= 0xFFFF_FFF8
      && exists i :: 0 <= i < |blocks| && blocks[i].free && blocks[i].size >= FirstFit.RoundRequest(size)
  {
    hide FirstFit.RoundRequest;
    if size <= WORD - 8 && FirstFit.Answer(blocks, size) == 0 {
      assert forall i :: 0 <= i < |blocks| ==> !BlockList.Fits(blocks[i], FirstFit.RoundRequest(size));
    }
  }

  /** When directories and files can be created: a name free in a directory with room, and a slot in each table. */
  lemma CreationMeans(s: FsState, p: seq<string>, size: nat)
    requires Inv(s.tables)
    ensures var v := s.Tree();
      var vacant := p != [] && p !in v && (|p| == 1 || (p[..|p| - 1] in v && v[p[..|p| - 1]] == Folder))
        && |Children(v, p[..|p| - 1])| < 64;
      && (MkDirSucceeds(s, p) <==> vacant && |s.tables.dirs| < 32)
      && (CreateSucceeds(s, p, size) <==>
            vacant && |s.tables.entries| < 128 && (size == 0 || CanGet(s.blocks, size)))
  {
    hide Inv, ViewOf, Children, Creatable, CanGet;
    CreatableMeans(s.tables, s.live, p);
  }

  ghost predicate MkDirSucceeds(s: FsState, p: seq<string>)
  {
    Creatable(s.tables, p) && |s.tables.dirs| < FS_MAX_DIRECTORIES
  }

  ghost predicate CreateSucceeds(s: FsState, p: seq<string>, size: nat)
  {
    Creatable(s.tables, p) && |s.tables.entries| < FS_MAX_FILES && (size == 0 || CanGet(s.blocks, size))
  }

  /** The block that entry `e` is going to have for `size` bytes: its own, or a new one once that is freed. */
  ghost function BlockAnswer(t: Tables, blocks: seq<BlockList.Block>, e: nat, size: nat): nat
    requires e < |t.entries| && size <= WORD - 8
  {
    var n := t.entries[e];
    if n.data == 0 then FirstFit.Answer(blocks, size)
    else if n.size == size then n.data
    else FirstFit.Answer(FirstFit.Freed(blocks, n.data), size)
  }

  ghost predicate WriteSucceeds(s: FsState, p: seq<string>, size: nat)
  {
    Writable(s.Tree(), p) && size <= WORD - 8 && BlockAnswer(s.tables, s.blocks, EntryAt(s.tables, p), size) != 0
  }

  /** What a copy of entry `n` still needs once the destination is created: a buffer for its bytes. */
  predicate BufferAvailable(n: Entry, blocks: seq<BlockList.Block>)
  {
    n.data != 0 && n.size > 0 ==> CanGet(blocks, n.size)
  }

  /** The blocks once the destination of a copy of `size` bytes has got its own. */
  function BlocksAfterCreate(blocks: seq<BlockList.Block>, size: nat): seq<BlockList.Block>
  {
    if 0 < size < WORD then FirstFit.MallocBlocks(blocks, FirstFit.RoundRequest(size)) else blocks
  }

  ghost predicate CopySucceeds(s: FsState, src: seq<string>, dst: seq<string>)
  {
    && Writable(s.Tree(), src)
    && var n := s.tables.entries[EntryAt(s.tables, src)];
      CreateSucceeds(s, dst, n.size) && BufferAvailable(n, BlocksAfterCreate(s.blocks, n.size))
  }

  lemma WritableEntry(t: Tables, live: Blocks, p: seq<string>)
    ensures Writable(ViewOf(t, live), p) <==> EntryAt(t, p) >= 0 && !t.entries[EntryAt(t, p)].isDir
    ensures p in ViewOf(t, live) ==> !Creatable(t, p)
  {}

  // ----- What the filesystem owns -----

  lemma NoEntries(t: Tables, live: Blocks)
    requires t.entries == [] && 0 !in live
    ensures Owns(t, live) && ViewOf(t, live) == map[] && Foreign(t, live) == live
  {
    assert OwnedPtrs(t) == {};
    assert ViewOf(t, live).Keys == {};
  }

  /** What the blocks of the filesystem hold does not depend on other blocks. */
  lemma OtherBlocks(t: Tables, live: Blocks, live': Blocks)
    requires Inv(t) && Owns(t, live) && 0 !in live'
    requires forall p :: p in OwnedPtrs(t) && p in live ==> p in live' && live'[p] == live[p]
    ensures Owns(t, live') && ViewOf(t, live') == ViewOf(t, live)
  {
    hide Inv, ViewOf, EntryPath;
    forall e | HasBlock(t, e)
      ensures t.entries[e].data in live' && live'[t.entries[e].data] == live[t.entries[e].data]
    {
      assert t.entries[e].data in OwnedPtrs(t);
    }
    SameView(t, live, live');
  }

  lemma SameView(t: Tables, live: Blocks, live': Blocks)
    requires forall e :: Live(t, e) ==> NodeOf(t.entries[e], live') == NodeOf(t.entries[e], live)
    ensures ViewOf(t, live') == ViewOf(t, live)
  {
    hide NodeOf, EntryPath, ViewOf;
    var v, v' := ViewOf(t, live), ViewOf(t, live');
    forall p | p in v
      ensures p in v' && v'[p] == v[p]
    {
      assert Live(t, EntryAt(t, p));
    }
    assert v.Keys == v'.Keys;
  }

  /** Adding an entry whose data block, if any, was not live before. */
  lemma Created(t: Tables, live: Blocks, p: nat, n: Entry, t': Tables, live': Blocks)
    requires Inv(t) && Owns(t, live) && Room(t, p, n.name) && n.parent == p && Inv(t')
    requires Extends(t, p, n, t')
    requires n.size <= WORD - 8 && 0 !in live'
    requires if n.data == 0 then live' == live
      else n.data !in live && n.data in live' && n.size <= |live'[n.data]| && live' - {n.data} == live
    ensures Owns(t', live') && Foreign(t', live') == Foreign(t, live)
    ensures DirPath(t, p) + [n.name] !in ViewOf(t, live)
    ensures ViewOf(t', live') == ViewOf(t, live)[DirPath(t, p) + [n.name] := NodeOf(n, live')]
  {
    hide Inv, DirPath, EntryPath;
    InsertLists(t, p, n, t');
    PathsAfterInsert(t, p, n, t');
    SameBlocks(t, live, live', n.data);
    CreatedOwns(t, live, n, t', live');
    forall e: nat | Live(t, e)
      ensures Kept(t, live, t', live', e)
    {}
    ViewAfterInsert(t, live, t', live', |t.entries|);
  }

  lemma SameBlocks(t: Tables, live: Blocks, live': Blocks, x: nat)
    requires Owns(t, live) && 0 !in live' && x !in live && live' - {x} == live
    ensures forall e :: Live(t, e) ==> NodeOf(t.entries[e], live') == NodeOf(t.entries[e], live)
    ensures forall p :: p in live' <==> p in live || (p == x && x in live')
    ensures forall p :: p in live ==> live'[p] == live[p]
  {
    forall p
      ensures p in live' <==> p in live || (p == x && x in live')
      ensures p in live ==> p in live' && live'[p] == live[p]
    {
      assert p in live ==> p in live' - {x} && (live' - {x})[p] == live[p];
      assert p != x && p in live' ==> p in live' - {x};
    }
    forall e | Live(t, e)
      ensures NodeOf(t.entries[e], live') == NodeOf(t.entries[e], live)
    {
      if HasBlock(t, e) { assert t.entries[e].data in live; }
    }
  }

  lemma CreatedOwns(t: Tables, live: Blocks, n: Entry, t': Tables, live': Blocks)
    requires Owns(t, live) && t'.entries == t.entries + [n] && n.name != "" && n.size <= WORD - 8 && 0 !in live'
    requires forall p :: p in live' <==> p in live || (p == n.data && n.data in live')
    requires forall p :: p in live ==> live'[p] == live[p]
    requires n.data != 0 ==> n.data !in live && n.data in live' && n.size <= |live'[n.data]|
    ensures Owns(t', live') && Foreign(t', live') == Foreign(t, live)
  {
    assert forall e :: HasBlock(t', e) <==> HasBlock(t, e) || (e == |t.entries| && n.data != 0);
    assert forall e :: HasBlock(t, e) ==> t'.entries[e] == t.entries[e];
    forall p
      ensures p in OwnedPtrs(t') <==> p in OwnedPtrs(t) || (p == n.data && n.data != 0)
    {
      if p in OwnedPtrs(t) {
        var e :| HasBlock(t, e) && t.entries[e].data == p;
        assert HasBlock(t', e);
      }
      if p == n.data && n.data != 0 { assert HasBlock(t', |t.entries|); }
    }
  }

  lemma MadeDir(t: Tables, live: Blocks, p: seq<string>)
    requires Inv(t) && Owns(t, live) && Creatable(t, p) && GoodName(p[|p| - 1])
    requires |t.entries| < FS_MAX_FILES && |t.dirs| < FS_MAX_DIRECTORIES
    ensures Room(t, DirAt(t, Front(p)), p[|p| - 1])
    ensures var t' := MakeDir(t, DirAt(t, Front(p)), p[|p| - 1]);
      && Inv(t') && Owns(t', live) && Foreign(t', live) == Foreign(t, live)
      && p !in ViewOf(t, live) && ViewOf(t', live) == ViewOf(t, live)[p := Folder] && Resolves(t, t', p, |t.entries|)
  {
    hide Inv, Owns, EntryPath, DirPath, Resolves;
    var d, name := DirAt(t, Front(p)), p[|p| - 1];
    var t', n := MakeDir(t, d, name), Entry(name, true, 0, 0, d);
    RoomAt(t, p);
    assert t'.dirs[..|t.dirs|] == Insert(t, d, n).dirs;
    MakeDirInv(t, d, name);
    InsertResolves(t, d, n, t');
    NullIsNotOwned(t, live);
    Created(t, live, d, n, t', live);
  }

  lemma OwnedBlock(t: Tables, live: Blocks, e: nat)
    requires Inv(t) && Owns(t, live) && Live(t, e)
    ensures t.entries[e].isDir ==> t.entries[e].data == 0 && t.entries[e].size == 0
    ensures t.entries[e].data != 0 ==> t.entries[e].data in live && t.entries[e].size <= |live[t.entries[e].data]|
    ensures t.entries[e].size <= WORD - 8
  {
    assert EntryOk(t, e);
    if t.entries[e].data != 0 { assert HasBlock(t, e); }
  }

  /** Freeing the block of a file loses what was in it. */
  lemma Emptied(t: Tables, live: Blocks, e: nat)
    requires Inv(t) && Owns(t, live) && Live(t, e) && !t.entries[e].isDir && t.entries[e].data != 0
    ensures var t', live', p := SetData(t, e, 0, t.entries[e].size), live - {t.entries[e].data}, EntryPath(t, e);
      && Inv(t') && Owns(t', live') && Foreign(t', live') == Foreign(t, live)
      && p in ViewOf(t, live) && ViewOf(t', live') == ViewOf(t, live)[p := Spilled(ViewOf(t, live)[p])]
  {
    hide Inv, Owns, EntryPath, DirPath, Foreign;
    OwnedBlock(t, live, e);
    FileNode(t, live, e);
    NullIsNotOwned(t, live);
    Refilled(t, live, e, 0, t.entries[e].size, live - {t.entries[e].data});
  }

  /** Storing `data` in a block that is new or was the file's already. */
  lemma Stored(t: Tables, live: Blocks, e: nat, ptr: nat, data: seq<byte>, live': Blocks)
    requires Inv(t) && Owns(t, live) && Live(t, e) && !t.entries[e].isDir && |data| <= WORD - 8 && 0 !in live'
    requires ptr != 0 && ptr in live' && |data| <= |live'[ptr]| && live'[ptr][..|data|] == data
    requires t.entries[e].data == ptr || (t.entries[e].data == 0 && ptr !in live)
    requires live' - {ptr} == live - {ptr}
    ensures var t', p := SetData(t, e, ptr, |data|), EntryPath(t, e);
      && Inv(t') && Owns(t', live') && Foreign(t', live') == Foreign(t, live)
      && p in ViewOf(t, live) && ViewOf(t', live') == ViewOf(t, live)[p := File(data)]
  {
    hide Inv, EntryPath, DirPath;
    assert live - {t.entries[e].data, ptr} == live - {ptr};
    Refilled(t, live, e, ptr, |data|, live');
  }

  /** `ptr` has room for `size` bytes; it is the file's own block `own`, or new, the file having none. */
  ghost predicate Held(live: Blocks, live': Blocks, ptr: nat, size: nat, own: nat)
  {
    && ptr != 0 && ptr in live' && size <= |live'[ptr]| && live' - {ptr} == live - {ptr}
    && (own == ptr || (own == 0 && ptr !in live))
  }

  lemma GainedOrNot(live: Blocks, live': Blocks, ptr: nat, size: nat)
    requires Gained(live, live', ptr, size)
    ensures if ptr == 0 then live' == live else Held(live, live', ptr, size, 0)
  {
    assert ptr != 0 ==> live - {ptr} == live;
  }

  lemma HeldAlready(live: Blocks, ptr: nat, size: nat)
    requires ptr != 0 && ptr in live && size <= |live[ptr]|
    ensures Held(live, live, ptr, size, ptr)
  {}

  lemma Overwritten(live: Blocks, ptr: nat, data: seq<byte>)
    requires ptr in live && |data| <= |live[ptr]|
    ensures var live' := live[ptr := data + live[ptr][|data|..]];
      live' - {ptr} == live - {ptr} && |live'[ptr]| == |live[ptr]| && live'[ptr][..|data|] == data
  {}

  /** The data is written to the block that is held for the file. */
  lemma Filled(t: Tables, live: Blocks, e: nat, ptr: nat, data: seq<byte>, live1: Blocks, live2: Blocks)
    requires Inv(t) && Owns(t, live) && Live(t, e) && !t.entries[e].isDir && |data| <= WORD - 8 && 0 !in live2
    requires Held(live, live1, ptr, |data|, t.entries[e].data) && live2 == live1[ptr := data + live1[ptr][|data|..]]
    ensures var t', p := SetData(t, e, ptr, |data|), EntryPath(t, e);
      && Inv(t') && Owns(t', live2) && Foreign(t', live2) == Foreign(t, live)
      && p in ViewOf(t, live) && ViewOf(t', live2) == ViewOf(t, live)[p := File(data)]
  {
    hide Inv, Owns, ViewOf, Foreign, EntryPath;
    Overwritten(live1, ptr, data);
    Stored(t, live, e, ptr, data, live2);
  }

  lemma HeldFacts(live: Blocks, live': Blocks, ptr: nat, size: nat, own: nat)
    requires Held(live, live', ptr, size, own)
    ensures ptr in live' && size <= |live'[ptr]|
  {}

  /** A file keeps its block if that is for `size` bytes, and gives it up otherwise. */
  lemma ReleasedOrKept(t: Tables, live: Blocks, e: nat, size: nat)
    requires Inv(t) && Owns(t, live) && Live(t, e) && !t.entries[e].isDir
    ensures var v, p, n := ViewOf(t, live), EntryPath(t, e), t.entries[e];
      if n.data == 0 || n.size == size then Released(v, v, p, size, n.data) && SetData(t, e, n.data, n.size) == t
      else Released(v, v[p := Spilled(v[p])], p, size, 0)
  {
    hide Inv, ViewOf, EntryPath;
    FileNode(t, live, e);
  }

  // ----- Blocks of others -----

  /** A block that somebody else gets from the allocator is none of the filesystem's. */
  lemma Borrowed(t: Tables, live: Blocks, ptr: nat, size: nat, live': Blocks)
    requires Inv(t) && Owns(t, live) && Gained(live, live', ptr, size) && 0 !in live'
    ensures Owns(t, live') && ViewOf(t, live') == ViewOf(t, live)
    ensures Gained(Foreign(t, live), Foreign(t, live'), ptr, size)
  {
    hide Inv, ViewOf;
    if ptr != 0 {
      assert forall p :: p in live ==> p in live' - {ptr} && live'[p] == (live' - {ptr})[p] == live[p];
      assert ptr !in OwnedPtrs(t);
      assert (live' - OwnedPtrs(t)) - {ptr} == (live' - {ptr}) - OwnedPtrs(t);
    }
    OtherBlocks(t, live, live');
  }

  lemma ForeignIsLive(t: Tables, live: Blocks)
    ensures forall p :: p in Foreign(t, live) ==> p in live && live[p] == Foreign(t, live)[p]
  {}

  lemma ForeignWritten(t: Tables, live: Blocks, ptr: nat, bytes: seq<byte>)
    requires Inv(t) && Owns(t, live) && ptr in Foreign(t, live)
    ensures var live' := live[ptr := bytes];
      && Owns(t, live') && ViewOf(t, live') == ViewOf(t, live)
      && Foreign(t, live') == Foreign(t, live)[ptr := bytes]
  {
    hide Inv, ViewOf;
    OtherBlocks(t, live, live[ptr := bytes]);
  }

  lemma Returned(t: Tables, live: Blocks, ptr: nat)
    requires Inv(t) && Owns(t, live) && ptr in Foreign(t, live)
    ensures var live' := live - {ptr};
      && Owns(t, live') && ViewOf(t, live') == ViewOf(t, live)
      && Foreign(t, live') == Foreign(t, live) - {ptr}
  {
    hide Inv, ViewOf;
    OtherBlocks(t, live, live - {ptr});
  }

  /** What a file's entry says about the node it stands for. */
  lemma FileNode(t: Tables, live: Blocks, e: nat)
    requires Inv(t) && Owns(t, live) && Live(t, e) && !t.entries[e].isDir
    ensures var v, p := ViewOf(t, live), EntryPath(t, e);
      && Writable(v, p) && EntryAt(t, p) == e
      && (t.entries[e].data == 0 ==> Spilled(v[p]) == v[p] && v[p := Spilled(v[p])] == v)
      && (t.entries[e].data == 0 ==> v[p] == File([]) || v[p].Lost?)
      && (t.entries[e].data != 0 ==> t.entries[e].data in live && t.entries[e].size <= |live[t.entries[e].data]|)
      && (t.entries[e].data != 0 ==> v[p] == File(live[t.entries[e].data][..t.entries[e].size]))
      && (v[p].File? && v[p].bytes != [] ==> t.entries[e].data != 0 && t.entries[e].size == |v[p].bytes|)
  {
    hide Inv, EntryPath, DirPath;
    OwnedBlock(t, live, e);
    EntryAtIs(t, e);
  }

  lemma NullIsNotOwned(t: Tables, live: Blocks)
    requires Owns(t, live)
    ensures 0 !in live
  {}

  /** Creating a file with a data block that was not live before, or, if it is empty, with none. */
  lemma CreatedFile(t: Tables, live: Blocks, p: seq<string>, size: nat, data: nat, live': Blocks)
    requires Inv(t) && Owns(t, live) && Creatable(t, p) && GoodName(p[|p| - 1]) && |t.entries| < FS_MAX_FILES
    requires size <= WORD - 8 && 0 !in live'
    requires Gained(live, live', data, size) && (data == 0 ==> size == 0)
    ensures Room(t, DirAt(t, Front(p)), p[|p| - 1])
    ensures var d, name := DirAt(t, Front(p)), p[|p| - 1];
      var t' := Insert(t, d, Entry(name, false, size, data, d));
      && Inv(t') && Owns(t', live') && Foreign(t', live') == Foreign(t, live)
      && Resolves(t, t', p, |t.entries|) && NewFile(ViewOf(t, live), ViewOf(t', live'), p, size)
  {
    hide Inv, Owns, EntryPath, DirPath, Resolves;
    var d, name := DirAt(t, Front(p)), p[|p| - 1];
    var n := Entry(name, false, size, data, d);
    var t' := Insert(t, d, n);
    RoomAt(t, p);
    InsertInv(t, d, n);
    assert t'.dirs[..|t.dirs|] == t'.dirs;
    InsertResolves(t, d, n, t');
    Created(t, live, d, n, t', live');
    var bytes := if data == 0 then [] else live'[data][..size];
    assert ViewOf(t', live') == ViewOf(t, live)[p := File(bytes)];
  }

  /** Deleting an entry together with its data block. */
  lemma Deleted(t: Tables, live: Blocks, e: nat, i: nat, d: int, live': Blocks)
    requires Inv(t) && Owns(t, live) && Removable(t, e, i, d)
    requires live' == if t.entries[e].data == 0 then live else live - {t.entries[e].data}
    ensures var t' := Drop(t, e, i, d);
      && Inv(t') && Owns(t', live') && Foreign(t', live') == Foreign(t, live)
      && EntryPath(t, e) in ViewOf(t, live) && ViewOf(t', live') == ViewOf(t, live) - {EntryPath(t, e)}
      && Resolves(t, t', EntryPath(t, e), -1)
  {
    hide Inv, EntryPath;
    var t' := Drop(t, e, i, d);
    DropInv(t, e, i, d);
    DropResolves(t, e, i, d);
    DroppedOwns(t, live, e, t', live');
    forall f: nat | Live(t', f)
      ensures Kept(t, live, t', live', f)
    {
      PathsAfterDrop(t, e, i, d, f);
    }
    ViewAfterDrop(t, live, t', live', e);
  }

  lemma DroppedOwns(t: Tables, live: Blocks, e: nat, t': Tables, live': Blocks)
    requires Owns(t, live) && Live(t, e) && t'.entries == t.entries[e := t.entries[e].(name := "")]
    requires live' == if t.entries[e].data == 0 then live else live - {t.entries[e].data}
    ensures Owns(t', live') && Foreign(t', live') == Foreign(t, live)
    ensures forall f :: Live(t', f) ==> NodeOf(t'.entries[f], live') == NodeOf(t.entries[f], live)
  {
    assert forall f :: HasBlock(t', f) <==> HasBlock(t, f) && f != e;
    forall p
      ensures p in OwnedPtrs(t) <==> p in OwnedPtrs(t') || (p == t.entries[e].data && p != 0)
    {
      if p in OwnedPtrs(t) {
        var f :| HasBlock(t, f) && t.entries[f].data == p;
        assert f != e ==> HasBlock(t', f);
      }
      if p == t.entries[e].data && p != 0 { assert HasBlock(t, e); }
      if p in OwnedPtrs(t') {
        var f :| HasBlock(t', f) && t'.entries[f].data == p;
        assert HasBlock(t, f);
      }
    }
    forall f | Live(t', f)
      ensures NodeOf(t'.entries[f], live') == NodeOf(t.entries[f], live)
    {
      if HasBlock(t, f) && HasBlock(t, e) { assert t.entries[f].data != t.entries[e].data; }
    }
  }

  /**
   * Giving file `e` another data block, or none, and another size. `x` is the block it gives up (0: none) and
   * `data` the one it gets.
   */
  lemma Refilled(t: Tables, live: Blocks, e: nat, data: nat, size: nat, live': Blocks)
    requires Inv(t) && Owns(t, live) && Live(t, e) && !t.entries[e].isDir && size <= WORD - 8 && 0 !in live'
    requires data != 0 ==> data in live' && size <= |live'[data]|
    requires data != 0 && data != t.entries[e].data ==> data !in live
    requires live' - {data} == live - {t.entries[e].data, data}
    ensures var t', p := SetData(t, e, data, size), EntryPath(t, e);
      && Inv(t') && Owns(t', live') && Foreign(t', live') == Foreign(t, live)
      && p in ViewOf(t, live) && ViewOf(t', live') == ViewOf(t, live)[p := NodeOf(t'.entries[e], live')]
  {
    hide Inv, EntryPath;
    var t' := SetData(t, e, data, size);
    SetDataInv(t, e, data, size);
    RefilledOwns(t, live, e, data, size, live');
    forall f: nat | Live(t, f)
      ensures EntryPath(t', f) == EntryPath(t, f)
      ensures f != e ==> Kept(t, live, t', live', f)
    {
      PathsAfterSetData(t, e, data, size, f);
    }
    ViewAfterSetData(t, live, t', live', e);
  }

  lemma RefilledOwns(t: Tables, live: Blocks, e: nat, data: nat, size: nat, live': Blocks)
    requires Owns(t, live) && Live(t, e) && size <= WORD - 8 && 0 !in live'
    requires data != 0 ==> data in live' && size <= |live'[data]|
    requires data != 0 && data != t.entries[e].data ==> data !in live
    requires live' - {data} == live - {t.entries[e].data, data}
    ensures var t' := SetData(t, e, data, size);
      && Owns(t', live') && Foreign(t', live') == Foreign(t, live)
      && forall f :: Live(t, f) && f != e ==> NodeOf(t'.entries[f], live') == NodeOf(t.entries[f], live)
  {
    hide OwnedPtrs;
    var t', x := SetData(t, e, data, size), t.entries[e].data;
    forall p | p != data
      ensures p in live' <==> p in live && p != x
      ensures p in live && p != x ==> p in live' && live'[p] == live[p]
    {
      assert p in live' <==> p in live' - {data};
      assert p in live && p != x ==> p in live - {x, data} && (live' - {data})[p] == live[p];
    }
    assert forall f :: f != e ==> (HasBlock(t', f) <==> HasBlock(t, f));
    assert forall f :: HasBlock(t, f) && f != e ==> t.entries[f].data != x && t.entries[f].data != data;
    RefilledPtrs(t, e, data, size);
    if x != 0 { assert HasBlock(t, e); }
    RefilledForeign(live, live', OwnedPtrs(t), x, data);
  }

  lemma RefilledForeign(live: Blocks, live': Blocks, ps: set<nat>, x: nat, data: nat)
    requires 0 !in live && 0 !in live' && (x != 0 ==> x in ps) && (data == x || data !in live)
    requires forall p :: p != data ==> (p in live' <==> p in live && p != x)
    requires forall p :: p != data && p in live && p != x ==> live'[p] == live[p]
    ensures live' - (ps - {x} + if data == 0 then {} else {data}) == live - ps
  {
    var qs := ps - {x} + if data == 0 then {} else {data};
    forall p
      ensures p in live' - qs <==> p in live - ps
      ensures p in live - ps ==> p in live' - qs && (live' - qs)[p] == (live - ps)[p]
    {}
  }

  lemma RefilledPtrs(t: Tables, e: nat, data: nat, size: nat)
    requires Live(t, e)
    requires forall f :: HasBlock(t, f) && f != e ==> t.entries[f].data != t.entries[e].data
    ensures var x, ps, ps' := t.entries[e].data, OwnedPtrs(t), OwnedPtrs(SetData(t, e, data, size));
      ps' == ps - {x} + if data == 0 then {} else {data}
  {
    var t', x := SetData(t, e, data, size), t.entries[e].data;
    forall p
      ensures p in OwnedPtrs(t') <==> (p in OwnedPtrs(t) && p != x) || (p == data && p != 0)
    {
      if p in OwnedPtrs(t) && p != x {
        var f :| HasBlock(t, f) && t.entries[f].data == p;
        assert HasBlock(t', f);
      }
      if p in OwnedPtrs(t') {
        var f :| HasBlock(t', f) && t'.entries[f].data == p;
        assert f != e ==> HasBlock(t, f);
      }
      if p == data && p != 0 { assert HasBlock(t', e); }
    }
  }
}
