/** The in-memory filesystem: its tables, updated in place, over the C library's allocator (drivers/fs.c). */
module FileSystem {
  import opened Lists
  import opened Machine
  import opened Memory
  import opened PathTokens
  import opened FileTree
  import opened FileContents
  import FirstFit
  import LibcHeap

  /** A directory record with its fixed array of entry numbers, of which `fileCount` are in use. */
  datatype DirRecord = DirRecord(name: string, parent: nat, fileCount: nat, files: seq<nat>)

  const BLANK_DIR: DirRecord := DirRecord("", 0, 0, seq(FS_MAX_FILES_PER_DIR, _ => 0))
  const BLANK_ENTRY: Entry := Entry("", false, 0, 0, 0)

  /** Paths that fit into the buffers; longer ones make the original read past a buffer. */
  type Path = s: string | |s| < FS_MAX_PATH_LEN && NUL !in s

  predicate IsRoot(path: string) { path == "" || path == "/" }

  predicate RecordOk(r: DirRecord) { |r.files| == FS_MAX_FILES_PER_DIR && r.fileCount <= FS_MAX_FILES_PER_DIR }

  function AsDir(r: DirRecord): Dir
    requires RecordOk(r)
  {
    Dir(r.name, r.parent, r.files[..r.fileCount])
  }

  function TablesOf(ds: seq<DirRecord>, es: seq<Entry>, dirCount: nat, fileCount: nat): (t: Tables)
    requires dirCount <= |ds| && fileCount <= |es| && forall d :: 0 <= d < |ds| ==> RecordOk(ds[d])
    ensures |t.dirs| == dirCount && t.entries == es[..fileCount]
    ensures forall d :: 0 <= d < dirCount ==> t.dirs[d] == AsDir(ds[d])
  {
    Tables(seq(dirCount, d requires 0 <= d < dirCount => AsDir(ds[d])), es[..fileCount])
  }

  lemma TablesPut(ds: seq<DirRecord>, es: seq<Entry>, dirCount: nat, fileCount: nat, p: nat, r: DirRecord)
    requires dirCount <= |ds| && fileCount <= |es| && forall d :: 0 <= d < |ds| ==> RecordOk(ds[d])
    requires p < dirCount && RecordOk(r)
    ensures TablesOf(ds[p := r], es, dirCount, fileCount)
      == var t := TablesOf(ds, es, dirCount, fileCount); t.(dirs := t.dirs[p := AsDir(r)])
  {}

  lemma RootTables(ds: seq<DirRecord>, es: seq<Entry>)
    requires ds != [] && ds[0] == BLANK_DIR.(name := "/") && forall d :: 0 <= d < |ds| ==> RecordOk(ds[d])
    ensures TablesOf(ds, es, 1, 0) == Tables([Dir("/", 0, [])], [])
  {}

  /** A list in which the elements behind position `i` have been moved down by one as far as `j`. */
  function ShiftedTo(fs: seq<nat>, i: nat, j: nat): (r: seq<nat>)
    requires i <= j < |fs|
    ensures |r| == |fs|
  {
    fs[..i] + fs[i + 1..j + 1] + fs[j..]
  }

  lemma ShiftStep(fs: seq<nat>, i: nat, j: nat)
    requires i <= j && j + 1 < |fs|
    ensures var r := ShiftedTo(fs, i, j); r[j := r[j + 1]] == ShiftedTo(fs, i, j + 1)
  {}

  lemma Shifted(fs: seq<nat>, i: nat, n: nat)
    requires i < n <= |fs|
    ensures ShiftedTo(fs, i, i) == fs && ShiftedTo(fs, i, n - 1)[..n - 1] == fs[..n][..i] + fs[..n][i + 1..]
  {}

  class FileSystem {
    const heap: LibcHeap.Heap
    const dirs: array<DirRecord>
    const entries: array<Entry>
    var dirCount: nat
    var fileCount: nat
    var initialized: bool

    ghost predicate Shape()
      reads this, dirs, entries
    {
      && dirs.Length == FS_MAX_DIRECTORIES && entries.Length == FS_MAX_FILES
      && dirCount <= dirs.Length && fileCount <= entries.Length
      && (forall d :: 0 <= d < dirs.Length ==> RecordOk(dirs[d]))
      && (forall d :: dirCount <= d < dirs.Length ==> dirs[d].name == "" && dirs[d].fileCount == 0)
      && (forall e :: fileCount <= e < entries.Length ==> entries[e] == BLANK_ENTRY)
    }

    ghost function State(): Tables
      requires Shape()
      reads this, dirs, entries
    {
      TablesOf(dirs[..], entries[..], dirCount, fileCount)
    }

    lemma SlotIs(e: nat)
      requires Shape() && e < |State().entries|
      ensures e < fileCount <= entries.Length && |State().entries| == fileCount && State().entries[e] == entries[e]
    {}

    lemma DirSlotIs(d: nat)
      requires Shape() && d < |State().dirs|
      ensures |State().dirs| == dirCount <= dirs.Length && |State().entries| == fileCount <= entries.Length
      ensures dirs[d].fileCount == |State().dirs[d].files|
    {}

    ghost predicate Valid()
      reads this, dirs, entries, heap, heap.ram
    {
      && Shape() && heap.Valid()
      && (if initialized then Inv(State()) else dirCount == 0 && fileCount == 0)
      && Owns(State(), heap.LiveBytes())
    }

    /** The tree of names and contents that the filesystem stands for. */
    ghost function Tree(): View
      requires Valid()
      reads this, dirs, entries, heap, heap.ram
    {
      ViewOf(State(), heap.LiveBytes())
    }

    /** The blocks that others have got from the allocator. */
    ghost function Others(): Blocks
      requires Valid()
      reads this, dirs, entries, heap, heap.ram
    {
      Foreign(State(), heap.LiveBytes())
    }

    ghost function Now(): FsState
      requires Valid()
      reads this, dirs, entries, heap, heap.ram
    {
      FsState(State(), heap.LiveBytes(), heap.Found())
    }

    constructor (heap: LibcHeap.Heap)
      requires heap.Valid()
      ensures Valid() && this.heap == heap && !initialized && fresh(dirs) && fresh(entries)
      ensures Tree() == map[] && Others() == heap.LiveBytes()
    {
      this.heap := heap;
      dirs := new DirRecord[FS_MAX_DIRECTORIES](_ => BLANK_DIR);
      entries := new Entry[FS_MAX_FILES](_ => BLANK_ENTRY);
      dirCount, fileCount, initialized := 0, 0, false;
      new;
      hide Owns, ViewOf, Foreign;
      heap.PointersAreProper();
      NoEntries(State(), heap.LiveBytes());
    }

    /** fs_init */
    method Init()
      requires Valid() && !initialized
      modifies this, dirs, entries
      ensures Valid() && initialized && Tree() == map[] && Others() == old(Others())
      ensures State() == Tables([Dir("/", 0, [])], [])
    {
      hide Inv, Owns, ViewOf, Foreign, TablesOf, LibcHeap.Heap.LiveBytes, LibcHeap.Heap.Valid;
      heap.PointersAreProper();
      NoEntries(State(), heap.LiveBytes());
      forall d | 0 <= d < dirs.Length { dirs[d] := BLANK_DIR; }
      forall e | 0 <= e < entries.Length { entries[e] := BLANK_ENTRY; }
      dirs[0] := BLANK_DIR.(name := "/");
      dirCount, fileCount, initialized := 1, 0, true;
      RootTables(dirs[..], entries[..]);
      OnlyRoot(State());
      NoEntries(State(), heap.LiveBytes());
    }

    // ----- Looking paths up -----

    /** The inner search of fs_find_parent_dir: the record of the subdirectory `name` of directory `cur`. */
    method FindRecord(name: string, cur: nat) returns (k: int)
      requires Valid() && initialized && Component(name)
      ensures k == -1 ==> !HasRecord(State(), cur, name)
      ensures k != -1 ==> 0 < k < dirCount && State().dirs[k].name == name && State().dirs[k].parent == cur
    {
      ghost var t := State();
      assert "/"[0] in "/";
      var i := 0;
      while i < dirCount
        invariant i <= dirCount
        invariant forall j :: 0 <= j < i ==> !(t.dirs[j].name == name && t.dirs[j].parent == cur)
      {
        if dirs[i].name == name && dirs[i].parent == cur {
          return i;
        }
        i := i + 1;
      }
      k := -1;
    }

    /** One step of the walk: the subdirectory `name` of directory `cur`, or -1. */
    method ChildDir(name: string, cur: nat) returns (k: int)
      requires Valid() && initialized && Component(name) && LiveDir(State(), cur)
      ensures k == -1 ==> !HasRecord(State(), cur, name)
      ensures k != -1 ==> 0 < k < dirCount && State().dirs[k].name == name && State().dirs[k].parent == cur
    {
      hide Inv;
      ghost var t := State();
      ListFacts(t, cur);
      var j := 0;
      while j < dirs[cur].fileCount
        invariant j <= dirs[cur].fileCount
        invariant forall i :: 0 <= i < j ==>
          !(t.entries[t.dirs[cur].files[i]].isDir && t.entries[t.dirs[cur].files[i]].name == name
            && HasRecord(t, cur, name))
      {
        var e := dirs[cur].files[j];
        assert e == t.dirs[cur].files[j];
        if entries[e].isDir && entries[e].name == name {
          k := FindRecord(name, cur);
          if k != -1 {
            return;
          }
        }
        j := j + 1;
      }
      if HasRecord(t, cur, name) { RecordIsListed(t, cur, name); }
      k := -1;
    }

    /** fs_find_parent_dir: the directory that all components but the last lead to. */
    method FindParentDir(path: Path) returns (cur: int)
      requires Valid() && initialized
      ensures cur == DirAt(State(), Front(Tokens(path, "/")))
    {
      hide Inv, Owns, EntryPath, DirPath, HasRecord, LibcHeap.Heap.LiveBytes, LibcHeap.Heap.Valid;
      ghost var t := State();
      RootIsThere(t);
      cur := 0;
      if IsRoot(path) {
        assert Tokens(path, "/") == [];
        return;
      }
      var parts := ParsePath(path);
      JoinOfTokens(path);
      var i := 0;
      while i < |parts| - 1
        invariant i <= |Front(parts)| && 0 <= cur == DirAt(t, Front(parts)[..i])
      {
        assert Front(parts)[..i + 1] == Front(parts)[..i] + [parts[i]];
        var next := ChildDir(parts[i], cur);
        if next == -1 {
          NoChild(t, Front(parts)[..i], parts[i]);
          NothingBelow(t, Front(parts), i + 1);
          return -1;
        }
        ChildFound(t, Front(parts)[..i], parts[i], next);
        cur := next;
        i := i + 1;
      }
      assert Front(parts)[..i] == Front(parts);
    }

    /** fs_get_filename */
    method GetFilename(path: Path) returns (name: string)
      ensures name == if Place(path) == [] then "" else Place(path)[|Place(path)| - 1]
      ensures var parts := Tokens(path, "/");
        if parts == [] then name == ""
        else name <= parts[|parts| - 1] && |name| == if |parts[|parts| - 1]| < 31 then |parts[|parts| - 1]| else 31
    {
      var parts := ParsePath(path);
      if |parts| > 0 {
        name := parts[|parts| - 1];
        if |name| >= FS_MAX_FILENAME_LEN {
          name := name[..FS_MAX_FILENAME_LEN - 1];
        }
      } else {
        name := "";
      }
    }

    /** The search for a name in the list of one directory. */
    method Search(name: string, parent: nat) returns (r: int)
      requires Valid() && initialized && LiveDir(State(), parent)
      ensures r == -1 ==> Unlisted(State(), parent, name)
      ensures r != -1 ==> Live(State(), r) && State().entries[r].parent == parent && State().entries[r].name == name
    {
      hide Inv;
      ghost var t := State();
      ListFacts(t, parent);
      var i := 0;
      while i < dirs[parent].fileCount
        invariant i <= dirs[parent].fileCount
        invariant forall j :: 0 <= j < i ==> t.entries[t.dirs[parent].files[j]].name != name
      {
        var e := dirs[parent].files[i];
        assert e == t.dirs[parent].files[i];
        if entries[e].name == name {
          return e;
        }
        i := i + 1;
      }
      r := -1;
    }

    /** fs_find: the entry that a path leads to; -2 stands for the root and -1 for nothing. */
    method Find(path: Path) returns (r: int)
      requires Valid() && initialized
      ensures r == if IsRoot(path) then -2 else EntryAt(State(), Place(path))
      ensures r == -2 <==> path == "" || path == "/"
    {
      hide Inv, Place, EntryPath, DirPath, Unlisted;
      if IsRoot(path) {
        return -2;
      }
      ghost var t := State();
      PlaceParts(path);
      var parent := FindParentDir(path);
      if parent < 0 {
        if Place(path) != [] { NoEntry(t, Place(path)); }
        return -1;
      }
      var name := GetFilename(path);
      r := Search(name, parent);
      if Place(path) != [] {
        if r == -1 { NoEntry(t, Place(path)); } else { EntryAtParent(t, Place(path), r); }
      } else {
        RootIsNoEntry(t);
      }
    }

    // ----- Changing the tree -----

    /** A new entry goes to the end of the entry table and of its directory's list. */
    method AddEntry(n: Entry)
      requires Shape() && Room(State(), n.parent, n.name)
      modifies this`fileCount, dirs, entries
      ensures Shape() && State() == Insert(old(State()), n.parent, n)
    {
      ghost var t := State();
      var e, p := fileCount, n.parent;
      fileCount := fileCount + 1;
      entries[e] := n;
      dirs[p] := dirs[p].(files := dirs[p].files[dirs[p].fileCount := e], fileCount := dirs[p].fileCount + 1);
      assert State().dirs[p].files == t.dirs[p].files + [e];
      assert State().dirs == Insert(t, p, n).dirs;
      assert State().entries == Insert(t, p, n).entries;
    }

    /** The checks that fs_mkdir and fs_create start with: nothing is there yet, but the directory is. */
    method ParentForNew(path: Path) returns (parent: int)
      requires Valid() && initialized && Place(path) != []
      ensures parent == -1 || (parent >= 0 && parent == DirAt(State(), Front(Place(path))))
      ensures parent >= 0 <==> EntryAt(State(), Place(path)) == -1 && DirAt(State(), Front(Place(path))) >= 0
    {
      hide Inv, Owns, EntryPath, DirPath, Place;
      PlaceParts(path);
      var existing := Find(path);
      if existing >= 0 {
        return -1;
      }
      parent := FindParentDir(path);
    }

    /** The two halves of a new directory: the entry and the record. */
    method AddDir(parent: nat, name: string, ghost p: seq<string>)
      requires Valid() && initialized && fileCount < FS_MAX_FILES && dirCount < FS_MAX_DIRECTORIES
      requires Creatable(State(), p) && GoodName(name) && p[|p| - 1] == name && parent == DirAt(State(), Front(p))
      modifies this, dirs, entries
      ensures Valid() && initialized && Others() == old(Others()) && Tree() == old(Tree())[p := Folder]
      ensures Resolves(old(State()), State(), p, old(fileCount))
    {
      hide Inv, Owns, ViewOf, Foreign, EntryPath, DirPath, Room, Resolves;
      ghost var t := State();
      MadeDir(t, heap.LiveBytes(), p);
      AddEntry(entries[fileCount].(name := name, isDir := true, size := 0, parent := parent));
      dirs[dirCount] := dirs[dirCount].(name := name, parent := parent);
      dirCount := dirCount + 1;
      assert State().dirs == MakeDir(t, parent, name).dirs;
    }

    /** fs_mkdir. The entry table must not be full: the original does not check that. */
    method MkDir(path: Path) returns (r: int)
      requires Valid() && Place(path) != [] && fileCount < FS_MAX_FILES
      modifies this, dirs, entries
      ensures Valid() && initialized == old(initialized) && Others() == old(Others())
      ensures r == 0 || r == -1
      ensures r == 0 <==> initialized && old(MkDirSucceeds(Now(), Place(path)))
      ensures r == 0 ==> Tree() == old(Tree())[Place(path) := Folder]
      ensures r == 0 ==> Resolves(old(State()), State(), Place(path), old(fileCount))
      ensures r != 0 ==> State() == old(State())
    {
      hide Inv, Owns, ViewOf, Foreign, EntryPath, DirPath, Place, Resolves;
      if !initialized {
        return -1;
      }
      PlaceParts(path);
      var parent := ParentForNew(path);
      if parent < 0 {
        return -1;
      }
      if dirCount >= FS_MAX_DIRECTORIES {
        return -1;
      }
      if dirs[parent].fileCount >= FS_MAX_FILES_PER_DIR {
        return -1;
      }
      var name := GetFilename(path);
      AddDir(parent, name, Place(path));
      r := 0;
    }

    /** The entry of a new file with its data block already allocated. */
    method AddFile(parent: nat, name: string, size: nat, data: nat, ghost p: seq<string>, ghost live: Blocks)
      requires Shape() && heap.Valid() && initialized && Inv(State()) && Owns(State(), live) && fileCount < FS_MAX_FILES
      requires Creatable(State(), p) && GoodName(name) && p[|p| - 1] == name && parent == DirAt(State(), Front(p))
      requires size <= WORD - 8
      requires Gained(live, heap.LiveBytes(), data, size) && (data == 0 ==> size == 0)
      modifies this`fileCount, dirs, entries
      ensures Valid() && Others() == Foreign(old(State()), live)
      ensures NewFile(ViewOf(old(State()), live), Tree(), p, size)
      ensures Resolves(old(State()), State(), p, old(fileCount)) && fileCount == old(fileCount) + 1
      ensures forall e :: 0 <= e < old(fileCount) ==> entries[e] == old(entries[e])
    {
      hide Inv, Owns, ViewOf, Foreign, EntryPath, DirPath, Room;
      hide Creatable, Gained, NewFile, LibcHeap.Heap.LiveBytes, LibcHeap.Heap.Valid, Resolves;
      heap.PointersAreProper();
      ghost var t := State();
      CreatedFile(t, live, p, size, data, heap.LiveBytes());
      AddEntry(Entry(name, false, size, data, parent));
      assert forall e :: 0 <= e < old(fileCount) ==> entries[e] == State().entries[e] == t.entries[e];
    }

    /** fs_create */
    method Create(path: Path, size: nat) returns (r: int)
      requires Valid() && Place(path) != [] && size <= WORD - 8
      modifies this, dirs, entries, heap, heap.ram
      ensures Valid() && initialized == old(initialized) && Others() == old(Others())
      ensures r == 0 || r == -1
      ensures r == 0 <==> initialized && old(CreateSucceeds(Now(), Place(path), size))
      ensures r == 0 ==> NewFile(old(Tree()), Tree(), Place(path), size)
      ensures r == 0 ==> Resolves(old(State()), State(), Place(path), old(fileCount)) && fileCount == old(fileCount) + 1
      ensures forall e :: 0 <= e < old(fileCount) ==> entries[e] == old(entries[e])
      ensures r == 0 ==> heap.Found() == BlocksAfterCreate(old(heap.Found()), size)
      ensures r != 0 ==> State() == old(State()) && heap.LiveBytes() == old(heap.LiveBytes())
    {
      hide Inv, Owns, ViewOf, Foreign, EntryPath, DirPath;
      hide Place, NewFile, LibcHeap.Heap.LiveBytes, LibcHeap.Heap.Valid, Resolves;
      hide State, Shape, FirstFit.Answer, FirstFit.MallocBlocks, FirstFit.RoundRequest;
      if !initialized {
        return -1;
      }
      ghost var live := heap.LiveBytes();
      PlaceParts(path);
      var parent := ParentForNew(path);
      if parent < 0 {
        return -1;
      }
      DirSlotIs(parent);
      if fileCount >= FS_MAX_FILES {
        return -1;
      }
      if dirs[parent].fileCount >= FS_MAX_FILES_PER_DIR {
        return -1;
      }
      var name := GetFilename(path);
      var data := 0;
      if size > 0 {
        data := AllocateBlock(size);
        if data == 0 {
          return -1;
        }
      }
      AddFile(parent, name, size, data, Place(path), live);
      r := 0;
    }

    /** malloc, as the filesystem uses it. */
    method AllocateBlock(size: nat) returns (data: nat)
      requires heap.Valid() && size <= WORD - 8
      modifies heap, heap.ram
      ensures heap.Valid() && data == FirstFit.Answer(old(heap.Found()), size)
      ensures heap.Found() == FirstFit.MallocBlocks(old(heap.Found()), FirstFit.RoundRequest(size))
      ensures Gained(old(heap.LiveBytes()), heap.LiveBytes(), data, size)
    {
      FirstFit.RoundingCovers(size);
      data := heap.Malloc(size);
    }

    /** Move what is behind position `i` of a file list down by one. */
    method ShiftDown(p: nat, i: nat)
      requires p < dirs.Length && RecordOk(dirs[p]) && i < dirs[p].fileCount
      modifies dirs
      ensures dirs[..] == var r := old(dirs[p]); old(dirs[..])[p := r.(files := ShiftedTo(r.files, i, r.fileCount - 1))]
    {
      hide ShiftedTo;
      ghost var r, ds := dirs[p], dirs[..];
      Shifted(r.files, i, r.fileCount);
      var j := i;
      while j < dirs[p].fileCount - 1
        invariant i <= j <= r.fileCount - 1 && dirs[..] == ds[p := r.(files := ShiftedTo(r.files, i, j))]
      {
        ShiftStep(r.files, i, j);
        dirs[p] := dirs[p].(files := dirs[p].files[j := dirs[p].files[j + 1]]);
        j := j + 1;
      }
    }

    /** Close the gap at position `i` of a file list. */
    method CutFromList(p: nat, i: nat)
      requires Shape() && p < dirCount && i < dirs[p].fileCount
      modifies dirs
      ensures Shape() && State().entries == old(State().entries)
      ensures State().dirs == var ds, fs := old(State().dirs), old(State().dirs[p].files);
        ds[p := ds[p].(files := fs[..i] + fs[i + 1..])]
    {
      hide TablesOf;
      ghost var r, ds := dirs[p], dirs[..];
      ShiftDown(p, i);
      Shifted(r.files, i, r.fileCount);
      dirs[p] := dirs[p].(fileCount := dirs[p].fileCount - 1);
      TablesPut(ds, entries[..], dirCount, fileCount, p, dirs[p]);
      assert dirs[..] == ds[p := dirs[p]];
    }

    /** Take an entry out of its directory's list and clear its name. */
    method RemoveEntry(e: nat, p: nat, ghost i: nat)
      requires Shape() && e < fileCount && p == entries[e].parent < dirCount
      requires i < |State().dirs[p].files| && State().dirs[p].files[i] == e && NoDuplicates(State().dirs[p].files)
      modifies dirs, entries
      ensures Shape() && State() == Remove(old(State()), e, i)
    {
      ghost var t := State();
      var k := 0;
      while k < dirs[p].fileCount && dirs[p].files[k] != e
        invariant k <= i
      {
        assert dirs[p].files[k] == t.dirs[p].files[k];
        assert dirs[p].files[i] == t.dirs[p].files[i];
        k := k + 1;
      }
      assert dirs[p].files[i] == t.dirs[p].files[i];
      assert dirs[p].files[k] == t.dirs[p].files[k];
      CutFromList(p, k);
      entries[e] := entries[e].(name := "");
      assert State().entries == Remove(t, e, i).entries;
    }

    /** Mark a directory's record as unused. */
    method ClearRecord(d: nat)
      requires Shape() && d < dirCount
      modifies dirs
      ensures Shape() && State() == ForgetDir(old(State()), d)
    {
      ghost var t := State();
      dirs[d] := dirs[d].(name := "");
      assert State().dirs == ForgetDir(t, d).dirs;
    }

    /** The last step of a deletion: the block and the directory record are already gone. */
    method Detach(e: nat, ghost i: nat, ghost d: int, ghost t: Tables, ghost live: Blocks)
      requires Shape() && heap.Valid() && initialized && Inv(t) && Owns(t, live) && Removable(t, e, i, d)
      requires NoDuplicates(t.dirs[t.entries[e].parent].files)
      requires State() == (if d < 0 then t else ForgetDir(t, d))
      requires heap.LiveBytes() == if t.entries[e].data == 0 then live else live - {t.entries[e].data}
      modifies dirs, entries
      ensures Valid() && Others() == Foreign(t, live)
      ensures EntryPath(t, e) in ViewOf(t, live) && Tree() == ViewOf(t, live) - {EntryPath(t, e)}
      ensures Resolves(t, State(), EntryPath(t, e), -1)
    {
      hide Inv, Owns, ViewOf, Foreign, EntryPath, DirPath, LibcHeap.Heap.LiveBytes, LibcHeap.Heap.Valid, Resolves;
      RemoveEntry(e, entries[e].parent, i);
      Deleted(t, live, e, i, d, heap.LiveBytes());
    }

    /** fs_delete */
    method Delete(path: Path) returns (r: int)
      requires Valid()
      modifies dirs, entries, heap, heap.ram
      ensures Valid() && Others() == old(Others())
      ensures r == 0 || r == -1
      ensures r == 0 <==> initialized && Deletable(old(Tree()), Place(path))
      ensures r == 0 ==> Tree() == old(Tree()) - {Place(path)}
      ensures r == 0 ==> Resolves(old(State()), State(), Place(path), -1)
      ensures r != 0 ==> State() == old(State()) && heap.LiveBytes() == old(heap.LiveBytes())
    {
      hide Inv, Owns, ViewOf, Foreign, EntryPath, DirPath;
      hide Place, LibcHeap.Heap.LiveBytes, LibcHeap.Heap.Valid, Resolves;
      if !initialized {
        return -1;
      }
      PlaceParts(path);
      RootIsNoEntry(State());
      if IsRoot(path) {
        return -1;
      }
      var e := Find(path);
      if e < 0 {
        return -1;
      }
      r := DeleteEntry(e);
    }

    method DeleteEntry(e: nat) returns (r: int)
      requires Valid() && initialized && Live(State(), e)
      modifies dirs, entries, heap, heap.ram
      ensures Valid() && Others() == old(Others())
      ensures r == if Deletable(old(Tree()), old(EntryPath(State(), e))) then 0 else -1
      ensures r == 0 ==> Tree() == old(Tree()) - {old(EntryPath(State(), e))}
      ensures r == 0 ==> Resolves(old(State()), State(), old(EntryPath(State(), e)), -1)
      ensures r != 0 ==> State() == old(State()) && heap.LiveBytes() == old(heap.LiveBytes())
    {
      hide Inv, Owns, ViewOf, Foreign, EntryPath, DirPath;
      hide LibcHeap.Heap.LiveBytes, LibcHeap.Heap.Valid, Resolves, State, Shape;
      SlotIs(e);
      ghost var t, live := State(), heap.LiveBytes();
      ghost var i := PositionOf(t, e);
      OwnedBlock(t, live, e);
      EntryAtIs(t, e);
      if entries[e].isDir {
        var d := EmptyRecord(e);
        if d == -1 {
          return -1;
        }
        ClearRecord(d);
        Detach(e, i, d, t, live);
      } else {
        if entries[e].data != 0 {
          heap.Free(entries[e].data);
        }
        Detach(e, i, -1, t, live);
      }
      r := 0;
    }

    /** The record of a directory about to be deleted; -1 if it is not empty. */
    method EmptyRecord(e: nat) returns (d: int)
      requires Valid() && initialized && Live(State(), e) && State().entries[e].isDir
      ensures d == -1 || (0 <= d < dirCount && Halves(State(), d, e))
      ensures d == -1 <==> !Deletable(Tree(), EntryPath(State(), e))
      ensures d != -1 ==> State().dirs[d].files == []
    {
      hide Inv, Owns, ViewOf, EntryPath, DirPath, Deletable, LibcHeap.Heap.LiveBytes, LibcHeap.Heap.Valid;
      ghost var t := State();
      EntryFacts(t, e);
      ghost var c := RecordOf(t, e);
      d := FindRecord(entries[e].name, entries[e].parent);
      if d == -1 {
        assert false;
      }
      assert Halves(t, d, e);
      EmptyDirDeletable(t, heap.LiveBytes(), e, d);
      if dirs[d].fileCount > 0 {
        return -1;
      }
    }

    // ----- Contents -----

    method SetBlock(e: nat, data: nat, size: nat)
      requires Shape() && e < fileCount
      modifies entries
      ensures Shape() && State() == SetData(old(State()), e, data, size)
    {
      ghost var t := State();
      entries[e] := entries[e].(data := data, size := size);
      assert State().entries == SetData(t, e, data, size).entries;
    }

    /** free, as the filesystem uses it. */
    method FreeBlock(data: nat)
      requires heap.Valid() && data != 0 && data in heap.LiveBytes()
      modifies heap, heap.ram
      ensures heap.Valid() && heap.LiveBytes() == old(heap.LiveBytes()) - {data}
      ensures heap.Found() == FirstFit.Freed(old(heap.Found()), data)
    {
      hide FirstFit.FreeBlocks;
      heap.Free(data);
    }

    /** Give a file's block back if it is not for `size` bytes. */
    method ReleaseBlock(e: nat, size: nat)
      requires Valid() && initialized && Live(State(), e) && !entries[e].isDir && size <= WORD - 8
      modifies entries, heap, heap.ram
      ensures Valid() && Others() == old(Others())
      ensures State() == SetData(old(State()), e, entries[e].data, old(entries[e].size))
      ensures entries[e].data == 0 || (entries[e].data == old(entries[e].data) && entries[e].size == size)
      ensures old(BlockAnswer(State(), heap.Found(), e, size)) ==
        if entries[e].data == 0 then FirstFit.Answer(heap.Found(), size) else entries[e].data
      ensures Released(old(Tree()), Tree(), old(EntryPath(State(), e)), size, entries[e].data)
    {
      hide Inv, Owns, ViewOf, Foreign, EntryPath, DirPath, Released, LibcHeap.Heap.LiveBytes, LibcHeap.Heap.Valid;
      hide State, Shape;
      ghost var t, live := State(), heap.LiveBytes();
      SlotIs(e);
      OwnedBlock(t, live, e);
      ReleasedOrKept(t, live, e, size);
      if entries[e].data != 0 && entries[e].size != size {
        Emptied(t, live, e);
        FreeBlock(entries[e].data);
        SetBlock(e, 0, entries[e].size);
        SlotIs(e);
      }
    }

    /** Copy the data into the file's block, which it may just have been given. */
    method Fill(e: nat, ptr: nat, data: seq<byte>, ghost live: Blocks)
      requires Shape() && heap.Valid() && initialized && Inv(State()) && Owns(State(), live)
      requires Live(State(), e) && !entries[e].isDir && |data| <= WORD - 8
      requires Held(live, heap.LiveBytes(), ptr, |data|, entries[e].data)
      modifies entries, heap, heap.ram
      ensures Valid() && Others() == Foreign(old(State()), live)
      ensures Tree() == ViewOf(old(State()), live)[old(EntryPath(State(), e)) := File(data)]
    {
      hide Inv, Owns, ViewOf, Foreign, EntryPath, DirPath;
      hide Held, LibcHeap.Heap.LiveBytes, LibcHeap.Heap.Valid, State, Shape;
      SlotIs(e);
      ghost var live1 := heap.LiveBytes();
      HeldFacts(live, live1, ptr, |data|, entries[e].data);
      heap.Write(ptr, data);
      heap.PointersAreProper();
      Filled(State(), live, e, ptr, data, live1, heap.LiveBytes());
      SetBlock(e, ptr, |data|);
    }

    /** The file's block, after giving up one of the wrong size and getting a new one; NULL if there is none. */
    method BlockFor(e: nat, size: nat) returns (ptr: nat, ghost live: Blocks)
      requires Valid() && initialized && Live(State(), e) && !entries[e].isDir && size <= WORD - 8
      modifies entries, heap, heap.ram
      ensures Shape() && heap.Valid() && Inv(State()) && Owns(State(), live) && Foreign(State(), live) == old(Others())
      ensures State() == SetData(old(State()), e, entries[e].data, old(entries[e].size))
      ensures Prepared(old(Tree()), ViewOf(State(), live), old(EntryPath(State(), e)), size, ptr)
      ensures ptr == old(BlockAnswer(State(), heap.Found(), e, size))
      ensures if ptr == 0 then heap.LiveBytes() == live
        else Held(live, heap.LiveBytes(), ptr, size, entries[e].data)
    {
      hide Inv, Owns, ViewOf, Foreign, EntryPath, DirPath, Released, Prepared, Held, Gained, State, Shape;
      hide LibcHeap.Heap.LiveBytes, LibcHeap.Heap.Valid;
      SlotIs(e);
      ghost var v, p := Tree(), EntryPath(State(), e);
      ReleaseBlock(e, size);
      SlotIs(e);
      live := heap.LiveBytes();
      OwnedBlock(State(), live, e);
      ptr := entries[e].data;
      if ptr == 0 {
        ptr := AllocateBlock(size);
        GainedOrNot(live, heap.LiveBytes(), ptr, size);
      } else {
        HeldAlready(live, ptr, size);
      }
      ReleasedIsPrepared(v, ViewOf(State(), live), p, size, entries[e].data, ptr);
    }

    method WriteEntry(e: nat, data: seq<byte>) returns (r: int)
      requires Valid() && initialized && Live(State(), e) && !entries[e].isDir && |data| <= WORD - 8
      modifies entries, heap, heap.ram
      ensures Valid() && Others() == old(Others())
      ensures r == 0 || r == -1
      ensures Written(old(Tree()), Tree(), old(EntryPath(State(), e)), data, r)
      ensures r == -1 <==> old(BlockAnswer(State(), heap.Found(), e, |data|)) == 0
    {
      hide Inv, Owns, ViewOf, Foreign, EntryPath, DirPath, Written, Prepared, Held, State, Shape;
      hide LibcHeap.Heap.LiveBytes, LibcHeap.Heap.Valid;
      SlotIs(e);
      ghost var t, v := State(), Tree();
      var ptr, live := BlockFor(e, |data|);
      SlotIs(e);
      SetDataPath(t, e, entries[e].data, entries[e].size);
      PreparedIsWritten(v, ViewOf(State(), live), EntryPath(t, e), data, ptr);
      if ptr == 0 {
        return -1;
      }
      Fill(e, ptr, data, live);
      r := 0;
    }

    /** fs_write. If no block can be had for a file that needs one, its old contents are lost. */
    method Write(path: Path, data: seq<byte>) returns (r: int)
      requires Valid() && |data| <= WORD - 8
      modifies entries, heap, heap.ram
      ensures Valid() && Others() == old(Others())
      ensures r == 0 || r == -1
      ensures r == 0 <==> initialized && old(WriteSucceeds(Now(), Place(path), |data|))
      ensures initialized && Writable(old(Tree()), Place(path)) ==> Written(old(Tree()), Tree(), Place(path), data, r)
      ensures !(initialized && Writable(old(Tree()), Place(path))) ==>
        r == -1 && State() == old(State()) && heap.LiveBytes() == old(heap.LiveBytes())
    {
      hide Inv, Owns, ViewOf, Foreign, EntryPath, DirPath, Place, Written, LibcHeap.Heap.LiveBytes, LibcHeap.Heap.Valid;
      if !initialized {
        return -1;
      }
      PlaceParts(path);
      RootIsNoEntry(State());
      var e := Find(path);
      if e < 0 {
        return -1;
      }
      if entries[e].isDir {
        return -1;
      }
      FileNode(State(), heap.LiveBytes(), e);
      r := WriteEntry(e, data);
    }

    /** Copy bytes out of a file's block. */
    method ReadBlock(e: nat, n: nat) returns (bytes: seq<byte>)
      requires Valid() && initialized && Live(State(), e) && !entries[e].isDir
      requires entries[e].data != 0 && n <= entries[e].size
      ensures var v, p := Tree(), EntryPath(State(), e);
        Writable(v, p) && v[p].File? && |v[p].bytes| == entries[e].size && bytes == v[p].bytes[..n]
    {
      hide Inv, Owns, ViewOf, EntryPath, DirPath, LibcHeap.Heap.LiveBytes, LibcHeap.Heap.Valid;
      FileNode(State(), heap.LiveBytes(), e);
      bytes := heap.Read(entries[e].data, n);
    }

    /** fs_read; `buffer` is what is copied into the caller's buffer. */
    method Read(path: Path, size: nat) returns (r: int, buffer: seq<byte>)
      requires Valid()
      ensures r == -1 <==> !(initialized && Writable(Tree(), Place(path)))
      ensures r != -1 ==> r == |buffer| && buffer == ReadBytes(Tree()[Place(path)], size)
      ensures r != -1 ==> match Tree()[Place(path)]
                case File(bytes) => buffer <= bytes && r == if size < |bytes| then size else |bytes|
                case _ => r == 0
    {
      hide Inv, Owns, ViewOf, EntryPath, DirPath, Place, LibcHeap.Heap.LiveBytes, LibcHeap.Heap.Valid;
      if !initialized {
        return -1, [];
      }
      PlaceParts(path);
      RootIsNoEntry(State());
      var e := Find(path);
      if e < 0 {
        return -1, [];
      }
      if entries[e].isDir {
        return -1, [];
      }
      FileNode(State(), heap.LiveBytes(), e);
      if entries[e].data == 0 {
        return 0, [];
      }
      var n := size;
      if n > entries[e].size {
        n := entries[e].size;
      }
      buffer := ReadBlock(e, n);
      r := n;
    }

    // ----- Copying and moving -----

    /** malloc by somebody else. */
    method Borrow(size: nat) returns (ptr: nat)
      requires Valid() && initialized && size <= WORD - 8
      modifies heap, heap.ram
      ensures Valid() && Tree() == old(Tree()) && Gained(old(Others()), Others(), ptr, size)
      ensures ptr == FirstFit.Answer(old(heap.Found()), size)
    {
      hide Inv, Owns, ViewOf, Foreign, Gained, LibcHeap.Heap.LiveBytes, LibcHeap.Heap.Valid;
      ghost var live := heap.LiveBytes();
      ptr := AllocateBlock(size);
      heap.PointersAreProper();
      Borrowed(State(), live, ptr, size, heap.LiveBytes());
    }

    /** Somebody else's block is filled with memcpy; the tree does not notice. */
    method WriteBorrowed(ptr: nat, bytes: seq<byte>)
      requires Valid() && initialized && ptr in Others() && |bytes| <= |Others()[ptr]|
      modifies heap.ram
      ensures Valid() && Tree() == old(Tree())
      ensures Others() == old(Others())[ptr := bytes + old(Others())[ptr][|bytes|..]]
    {
      hide Inv, Owns, ViewOf, LibcHeap.Heap.LiveBytes, LibcHeap.Heap.Valid;
      ForeignWritten(State(), heap.LiveBytes(), ptr, bytes + heap.LiveBytes()[ptr][|bytes|..]);
      heap.Write(ptr, bytes);
    }

    /** free by somebody else. */
    method GiveBack(ptr: nat)
      requires Valid() && initialized && ptr in Others()
      modifies heap, heap.ram
      ensures Valid() && Tree() == old(Tree()) && Others() == old(Others()) - {ptr}
    {
      hide Inv, Owns, ViewOf, LibcHeap.Heap.LiveBytes, LibcHeap.Heap.Valid;
      Returned(State(), heap.LiveBytes(), ptr);
      heap.Free(ptr);
    }

    /** The buffer that a copy goes through: a block, with the source's bytes in it. NULL if there is none. */
    method ReadIntoBuffer(s: nat) returns (buffer: nat, data: seq<byte>)
      requires Valid() && initialized && Live(State(), s) && !entries[s].isDir && entries[s].data != 0
      modifies heap, heap.ram
      ensures Valid() && Tree() == old(Tree())
      ensures if buffer == 0 then Others() == old(Others())
        else buffer in Others() && Others() - {buffer} == old(Others())
      ensures entries[s].size <= WORD - 8 && buffer == FirstFit.Answer(old(heap.Found()), entries[s].size)
      ensures var p := EntryPath(State(), s); p in Tree() && (buffer != 0 ==> Tree()[p] == File(data))
    {
      hide Inv, Owns, ViewOf, EntryPath, DirPath, Foreign, LibcHeap.Heap.LiveBytes, LibcHeap.Heap.Valid;
      hide FirstFit.Answer;
      OwnedBlock(State(), heap.LiveBytes(), s);
      FileNode(State(), heap.LiveBytes(), s);
      ghost var others := Others();
      buffer := Borrow(entries[s].size);
      data := [];
      if buffer == 0 {
        return;
      }
      var bytes := ReadBlock(s, entries[s].size);
      data := PassThrough(buffer, bytes);
      assert others - {buffer} == others;
    }

    /** Write bytes to a buffer and read them back. */
    method PassThrough(buffer: nat, bytes: seq<byte>) returns (data: seq<byte>)
      requires Valid() && initialized && buffer in Others() && |bytes| <= |Others()[buffer]|
      modifies heap.ram
      ensures Valid() && Tree() == old(Tree()) && data == bytes
      ensures buffer in Others() && Others() - {buffer} == old(Others()) - {buffer}
    {
      hide Inv, Owns, ViewOf, Foreign, LibcHeap.Heap.LiveBytes, LibcHeap.Heap.Valid;
      ghost var others := Others();
      WriteBorrowed(buffer, bytes);
      ForeignIsLive(State(), heap.LiveBytes());
      data := heap.Read(buffer, |bytes|);
      assert Others() - {buffer} == others - {buffer};
    }

    /** The part of fs_copy that moves the bytes, the destination having been created with the source's size. */
    method CopyBytes(s: nat, dst: Path) returns (r: int)
      requires Valid() && initialized && Live(State(), s) && !entries[s].isDir
      requires entries[s].data != 0 && entries[s].size > 0
      requires Place(dst) in Tree() && Tree()[Place(dst)].File?
      requires |Tree()[Place(dst)].bytes| == entries[s].size && Place(dst) != EntryPath(State(), s)
      modifies dirs, entries, heap, heap.ram
      ensures Valid() && Others() == old(Others())
      ensures r == if old(CanGet(heap.Found(), entries[s].size)) then 0 else -1
      ensures old(EntryPath(State(), s)) in old(Tree()) && old(Tree())[old(EntryPath(State(), s))].File?
      ensures var p := old(EntryPath(State(), s));
        Tree() == if r == 0 then old(Tree())[Place(dst) := old(Tree())[p]] else old(Tree()) - {Place(dst)}
    {
      hide Inv, Owns, ViewOf, EntryPath, DirPath, Foreign, Place, LibcHeap.Heap.LiveBytes, LibcHeap.Heap.Valid;
      hide FirstFit.Answer, Deletable, Written, WriteSucceeds, Writable;
      FileStands(Tree(), Place(dst));
      OwnedBlock(State(), heap.LiveBytes(), s);
      FileNode(State(), heap.LiveBytes(), s);
      var buffer, data := ReadIntoBuffer(s);
      if buffer == 0 {
        var deleted := Delete(dst);
        return -1;
      }
      r := Write(dst, data);
      GiveBack(buffer);
      if r != 0 {
        assert false;   // the destination's block already has the right size
      }
    }

    /** The checks that fs_copy starts with: the source is a file and nothing is at the destination. */
    method SourceForCopy(src: Path, dst: Path) returns (s: int)
      requires Valid() && initialized
      ensures s == -1 || (Live(State(), s) && !entries[s].isDir && s == EntryAt(State(), Place(src)))
      ensures s == -1 <==> !Writable(Tree(), Place(src)) || Place(dst) in Tree()
    {
      hide Inv, Owns, ViewOf, EntryPath, DirPath, Place, LibcHeap.Heap.LiveBytes, LibcHeap.Heap.Valid;
      WritableEntry(State(), heap.LiveBytes(), Place(src));
      RootIsNoEntry(State());
      PlaceParts(src);
      PlaceParts(dst);
      s := Find(src);
      if s < 0 {
        return -1;
      }
      if entries[s].isDir {
        return -1;
      }
      FileNode(State(), heap.LiveBytes(), s);
      var existing := Find(dst);
      if existing >= 0 {
        return -1;
      }
    }

    /** The destination has been created with the size of the source, entry `s`; the tree was `v` before. */
    method FinishCopy(s: nat, dst: Path, ghost p: seq<string>, ghost v: View) returns (r: int)
      requires Valid() && initialized && Live(State(), s) && !entries[s].isDir && p == EntryPath(State(), s)
      requires Writable(v, p) && NewFile(v, Tree(), Place(dst), entries[s].size)
      modifies dirs, entries, heap, heap.ram
      ensures Valid() && Others() == old(Others())
      ensures r == if old(BufferAvailable(entries[s], heap.Found())) then 0 else -1
      ensures if r == 0 then Copied(v, Tree(), p, Place(dst)) else Tree() == v
    {
      hide Inv, Owns, ViewOf, EntryPath, DirPath, Foreign, Place, NewFile, Copied, State, Shape;
      hide LibcHeap.Heap.LiveBytes, LibcHeap.Heap.Valid;
      SlotIs(s);
      ghost var v1 := Tree();
      FileNode(State(), heap.LiveBytes(), s);
      NewFileFacts(v, v1, Place(dst), entries[s].size);
      if entries[s].data != 0 && entries[s].size > 0 {
        r := CopyBytes(s, dst);
        CopyDone(v, v1, Tree(), p, Place(dst), r);
      } else {
        r := 0;
        CopyOfNothing(v, v1, p, Place(dst), entries[s].size);
      }
    }

    /** Create the destination and copy the bytes; entry `s` is the source, its path `p`. */
    method CopyEntry(s: nat, dst: Path, ghost p: seq<string>) returns (r: int)
      requires Valid() && initialized && Live(State(), s) && !entries[s].isDir && p == EntryPath(State(), s)
      requires Place(dst) != []
      modifies this, dirs, entries, heap, heap.ram
      ensures Valid() && initialized && Others() == old(Others())
      ensures r == 0 || r == -1
      ensures var n := old(entries[s]);
        r == 0 <==> CreateSucceeds(old(Now()), Place(dst), n.size)
                    && BufferAvailable(n, BlocksAfterCreate(old(heap.Found()), n.size))
      ensures r == 0 ==> Copied(old(Tree()), Tree(), p, Place(dst))
      ensures r != 0 ==> Tree() == old(Tree())
    {
      hide Inv, Owns, ViewOf, EntryPath, DirPath, Foreign, Place, Creatable, NewFile, Copied, State, Shape;
      hide CreateSucceeds, BufferAvailable, BlocksAfterCreate;
      hide LibcHeap.Heap.LiveBytes, LibcHeap.Heap.Valid;
      SlotIs(s);
      FileNode(State(), heap.LiveBytes(), s);
      OwnedBlock(State(), heap.LiveBytes(), s);
      ghost var v, size := Tree(), entries[s].size;
      r := Create(dst, entries[s].size);
      if r != 0 {
        return -1;
      }
      NewFileFacts(v, Tree(), Place(dst), size);
      assert EntryAt(State(), p) == s;
      r := FinishCopy(s, dst, p, v);
    }

    /** fs_copy */
    method Copy(src: Path, dst: Path) returns (r: int)
      requires Valid() && Place(dst) != []
      modifies this, dirs, entries, heap, heap.ram
      ensures Valid() && initialized == old(initialized) && Others() == old(Others())
      ensures r == 0 || r == -1
      ensures r == 0 <==> initialized && old(CopySucceeds(Now(), Place(src), Place(dst)))
      ensures r == 0 ==> Copied(old(Tree()), Tree(), Place(src), Place(dst))
      ensures r != 0 ==> Tree() == old(Tree())
    {
      hide Inv, Owns, ViewOf, EntryPath, DirPath, Foreign, Place, Creatable, Copied;
      hide LibcHeap.Heap.LiveBytes, LibcHeap.Heap.Valid;
      if !initialized {
        return -1;
      }
      WritableEntry(State(), heap.LiveBytes(), Place(dst));
      var s := SourceForCopy(src, dst);
      if s < 0 {
        return -1;
      }
      r := CopyEntry(s, dst, Place(src));
    }

    /** fs_move: a copy, and then the source is deleted. */
    method Move(src: Path, dst: Path) returns (r: int)
      requires Valid() && Place(dst) != []
      modifies this, dirs, entries, heap, heap.ram
      ensures Valid() && initialized == old(initialized) && Others() == old(Others())
      ensures r == 0 || r == -1
      ensures r == 0 <==> initialized && old(CopySucceeds(Now(), Place(src), Place(dst)))
      ensures r == 0 ==> exists v :: Copied(old(Tree()), v, Place(src), Place(dst)) && Tree() == v - {Place(src)}
      ensures r != 0 ==> Tree() == old(Tree())
    {
      hide Inv, Owns, ViewOf, EntryPath, DirPath, Foreign, Place, Creatable, Copied, Resolves;
      hide LibcHeap.Heap.LiveBytes, LibcHeap.Heap.Valid;
      if !initialized {
        return -1;
      }
      r := Copy(src, dst);
      if r != 0 {
        return -1;
      }
      ghost var v := Tree();
      CopiedFacts(old(Tree()), v, Place(src), Place(dst));
      r := Delete(src);
      if r != 0 {
        assert false;   // the source is still there, and it is a file
      }
    }
  }
}
