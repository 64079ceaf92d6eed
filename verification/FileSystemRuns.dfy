/** Runs of filesystem calls, as changes of the tree they stand for (drivers/fs.c). */
module FileSystemRuns {
  import opened Machine
  import opened Memory
  import opened PathTokens
  import opened FileTree
  import opened FileContents
  import opened FileSystem
  import BlockList
  import FirstFit
  import LibcHeap

  datatype Call =
    | MkDirCall(path: Path)
    | CreateCall(path: Path, size: nat)
    | DeleteCall(path: Path)
    | WriteCall(path: Path, data: seq<byte>)
    | CopyCall(path: Path, to: Path)
    | MoveCall(path: Path, to: Path)

  /** What a call that returned `r` has made of the tree; only what is in a new file is left open. */
  ghost predicate Changes(v: View, c: Call, r: int, v': View)
  {
    var p := Place(c.path);
    match c
    case MkDirCall(_) => if r == 0 then p !in v && HasParent(v, p) && v' == v[p := Folder] else v' == v
    case CreateCall(_, size) => if r == 0 then HasParent(v, p) && NewFile(v, v', p, size) else v' == v
    case DeleteCall(_) => if r == 0 then Deletable(v, p) && v' == v - {p} else v' == v
    case WriteCall(_, data) => if Writable(v, p) then Written(v, v', p, data, r) else r != 0 && v' == v
    case CopyCall(_, to) => if r == 0 then HasParent(v, Place(to)) && Copied(v, v', p, Place(to)) else v' == v
    case MoveCall(_, to) => if r == 0 then HasParent(v, Place(to)) && Moved(v, v', p, Place(to)) else v' == v
  }

  /** One call; the state before it decides whether it succeeds. */
  ghost predicate Step(s: FsState, c: Call, r: int, s': FsState)
  {
    (r == 0 <==> Succeeds(s, c)) && Changes(s.Tree(), c, r, s'.Tree())
  }

  ghost predicate Succeeds(s: FsState, c: Call)
  {
    var p := Place(c.path);
    match c
    case MkDirCall(_) => MkDirSucceeds(s, p)
    case CreateCall(_, size) => CreateSucceeds(s, p, size)
    case DeleteCall(_) => Deletable(s.Tree(), p)
    case WriteCall(_, data) => WriteSucceeds(s, p, |data|)
    case CopyCall(_, to) => CopySucceeds(s, p, Place(to))
    case MoveCall(_, to) => CopySucceeds(s, p, Place(to))
  }

  ghost predicate Moved(v: View, v': View, s: seq<string>, d: seq<string>)
  {
    exists w :: Copied(v, w, s, d) && v' == w - {s}
  }

  /** Creations need a name, and sizes are at most what a request can be rounded up to. */
  predicate CallOk(c: Call)
  {
    match c
    case MkDirCall(path) => Place(path) != []
    case CreateCall(path, size) => Place(path) != [] && size <= WORD - 8
    case DeleteCall(_) => true
    case WriteCall(_, data) => |data| <= WORD - 8
    case CopyCall(_, to) => Place(to) != []
    case MoveCall(_, to) => Place(to) != []
  }

  /** Every call is a step of the tree, and never touches a block of anybody else. */
  method Perform(fs: FileSystem, c: Call) returns (r: int)
    requires fs.Valid() && fs.initialized && CallOk(c) && (c.MkDirCall? ==> fs.fileCount < FS_MAX_FILES)
    modifies fs, fs.dirs, fs.entries, fs.heap, fs.heap.ram
    ensures fs.Valid() && fs.initialized && fs.Others() == old(fs.Others())
    ensures Step(old(fs.Now()), c, r, fs.Now())
  {
    hide Inv, Owns, ViewOf, Foreign, Place, HasParent, Creatable, NewFile, Copied, Written, Resolves;
    hide WriteSucceeds, BufferAvailable, BlocksAfterCreate, Deletable, Writable;
    CreatableParents(fs);
    match c {
      case MkDirCall(path) => r := fs.MkDir(path);
      case CreateCall(path, size) => r := fs.Create(path, size);
      case DeleteCall(path) => r := fs.Delete(path);
      case WriteCall(path, data) => r := fs.Write(path, data);
      case CopyCall(path, to) => r := fs.Copy(path, to);
      case MoveCall(path, to) => r := fs.Move(path, to);
    }
  }

  lemma CreatableParents(fs: FileSystem)
    requires fs.Valid() && fs.initialized
    ensures forall p :: Creatable(fs.State(), p) ==> HasParent(fs.Tree(), p) && p !in fs.Tree()
  {
    hide Inv, ViewOf, HasParent, Creatable;
    forall p | Creatable(fs.State(), p)
      ensures HasParent(fs.Tree(), p) && p !in fs.Tree()
    {
      CreatableHasParent(fs.State(), fs.heap.LiveBytes(), p);
    }
  }

  // ----- Runs -----

  ghost predicate StepAt(ss: seq<FsState>, cs: seq<Call>, rs: seq<int>, i: nat)
    requires i < |cs| && |ss| == |cs| + 1 && |rs| == |cs|
  {
    Step(ss[i], cs[i], rs[i], ss[i + 1])
  }

  ghost predicate IsRun(ss: seq<FsState>, cs: seq<Call>, rs: seq<int>)
  {
    && |ss| == |cs| + 1 && |rs| == |cs|
    && forall i :: 0 <= i < |cs| ==> StepAt(ss, cs, rs, i)
  }

  ghost predicate IsTree(v: View) { forall p :: p in v ==> HasParent(v, p) }

  lemma PutKeepsTree(v: View, p: seq<string>, n: Node)
    requires IsTree(v) && HasParent(v, p) && (p in v && v[p] == Folder ==> n == Folder)
    ensures IsTree(v[p := n])
  {}

  lemma DropKeepsTree(v: View, p: seq<string>)
    requires IsTree(v) && Deletable(v, p)
    ensures IsTree(v - {p})
  {}

  lemma CopyKeepsTree(v: View, v': View, s: seq<string>, d: seq<string>)
    requires IsTree(v) && HasParent(v, d) && Copied(v, v', s, d)
    ensures IsTree(v')
  {
    hide IsTree, HasParent;
    if v[s].Lost? {
      var bytes :| |bytes| == v[s].size && v' == v[d := File(bytes)];
      PutKeepsTree(v, d, File(bytes));
    } else {
      PutKeepsTree(v, d, v[s]);
    }
  }

  lemma StepKeepsTree(v: View, c: Call, r: int, v': View)
    requires IsTree(v) && Changes(v, c, r, v')
    ensures IsTree(v')
  {
    hide HasParent, Deletable, Copied, Place;
    var p := Place(c.path);
    match c
    case MkDirCall(_) => if r == 0 { PutKeepsTree(v, p, Folder); }
    case CreateCall(_, size) =>
      if r == 0 {
        var bytes :| |bytes| == size && v' == v[p := File(bytes)];
        PutKeepsTree(v, p, File(bytes));
      }
    case DeleteCall(_) => if r == 0 { DropKeepsTree(v, p); }
    case WriteCall(_, data) =>
      if Writable(v, p) { PutKeepsTree(v, p, if r == 0 then File(data) else Spilled(v[p])); }
    case CopyCall(_, to) => if r == 0 { CopyKeepsTree(v, v', p, Place(to)); }
    case MoveCall(_, to) =>
      if r == 0 {
        var w :| Copied(v, w, p, Place(to)) && v' == w - {p};
        CopyKeepsTree(v, w, p, Place(to));
        CopiedFacts(v, w, p, Place(to));
        DropKeepsTree(w, p);
      }
  }

  /** In every state of every run, whatever is above a path in the tree is a directory. */
  lemma {:induction false} RunKeepsTree(ss: seq<FsState>, cs: seq<Call>, rs: seq<int>, i: nat)
    requires IsRun(ss, cs, rs) && i < |ss| && IsTree(ss[0].Tree())
    ensures IsTree(ss[i].Tree())
  {
    hide Changes, Succeeds, IsTree, ViewOf;
    if i > 0 {
      RunKeepsTree(ss, cs, rs, i - 1);
      assert StepAt(ss, cs, rs, i - 1);
      StepKeepsTree(ss[i - 1].Tree(), cs[i - 1], rs[i - 1], ss[i].Tree());
    }
  }

  /** The call does not delete, write or move what is at `p`; it may name `p` in any other way. */
  predicate Spares(c: Call, p: seq<string>)
  {
    (c.DeleteCall? || c.WriteCall? || c.MoveCall?) ==> Place(c.path) != p
  }

  lemma StepSpares(v: View, c: Call, r: int, v': View, p: seq<string>)
    requires Changes(v, c, r, v') && p in v && Spares(c, p)
    ensures p in v' && v'[p] == v[p]
  {
    hide HasParent, Place;
  }

  lemma {:induction false} RunSpares(ss: seq<FsState>, cs: seq<Call>, rs: seq<int>, p: seq<string>, i: nat, j: nat)
    requires IsRun(ss, cs, rs) && i <= j < |ss| && p in ss[i].Tree()
    requires forall k :: i <= k < j ==> Spares(cs[k], p)
    ensures p in ss[j].Tree() && ss[j].Tree()[p] == ss[i].Tree()[p]
  {
    hide Changes, Succeeds, Spares, ViewOf;
    if i < j {
      RunSpares(ss, cs, rs, p, i, j - 1);
      assert StepAt(ss, cs, rs, j - 1);
      StepSpares(ss[j - 1].Tree(), cs[j - 1], rs[j - 1], ss[j].Tree(), p);
    }
  }

  lemma WritePuts(v: View, c: Call, v': View)
    requires c.WriteCall? && Changes(v, c, 0, v')
    ensures Place(c.path) in v' && v'[Place(c.path)] == File(c.data)
  {}

  /**
   * What a successful write put into a file is what is read from it, whatever happens in between to anything
   * else, until the file itself is written, deleted or moved away.
   */
  lemma RunReadsLastWritten(ss: seq<FsState>, cs: seq<Call>, rs: seq<int>, i: nat, j: nat, size: nat)
    requires IsRun(ss, cs, rs) && i < j < |ss| && cs[i].WriteCall? && rs[i] == 0
    requires forall k :: i < k < j ==> Spares(cs[k], Place(cs[i].path))
    ensures var p, data, v := Place(cs[i].path), cs[i].data, ss[j].Tree();
      Writable(v, p) && ReadBytes(v[p], size) == if size < |data| then data[..size] else data
  {
    hide Spares, Place, ViewOf, Succeeds, Changes;
    assert StepAt(ss, cs, rs, i);
    WritePuts(ss[i].Tree(), cs[i], ss[i + 1].Tree());
    RunSpares(ss, cs, rs, Place(cs[i].path), i + 1, j);
  }

  /** A moved file is found at its new place with the contents it had, and not at the old one. */
  lemma MovedContents(v: View, c: Call, v': View, size: nat)
    requires Changes(v, c, 0, v') && c.MoveCall? && v[Place(c.path)].File?
    ensures var p, q := Place(c.path), Place(c.to);
      p !in v' && q in v' && ReadBytes(v'[q], size) == ReadBytes(v[p], size)
  {
    hide HasParent, Place;
  }

  /** A copied file reads the same at both places, and nothing else changes. */
  lemma CopiedContents(v: View, c: Call, v': View, size: nat)
    requires Changes(v, c, 0, v') && c.CopyCall? && v[Place(c.path)].File?
    ensures var p, q := Place(c.path), Place(c.to);
      && q !in v && v'.Keys == v.Keys + {q} && (forall o :: o in v ==> v'[o] == v[o])
      && ReadBytes(v'[q], size) == ReadBytes(v[p], size) && v'[q] == v[p]
  {
    hide HasParent, Place;
  }

  // ----- Losing contents -----

  ghost predicate NothingLost(v: View) { forall p :: p in v ==> !v[p].Lost? }

  /**
   * What can be seen before the call: the file has something in it, and there is no block for the new size
   * even once its own, being of another size, is freed.
   */
  ghost predicate Loses(s: FsState, c: Call)
  {
    var v, p := s.Tree(), Place(c.path);
    c.WriteCall? && Writable(v, p) && v[p].File? && v[p].bytes != [] && !WriteSucceeds(s, p, |c.data|)
  }

  lemma ChangesLoseNothing(v: View, c: Call, r: int, v': View)
    requires NothingLost(v) && Changes(v, c, r, v')
    ensures var p := Place(c.path);
      NothingLost(v') <==> !(c.WriteCall? && r != 0 && Writable(v, p) && v[p].File? && v[p].bytes != [])
  {
    hide HasParent, Place, Deletable;
    var p := Place(c.path);
    if c.WriteCall? && r != 0 && Writable(v, p) && v[p].File? && v[p].bytes != [] { assert v'[p].Lost?; }
  }

  lemma StepLosesNothing(s: FsState, c: Call, r: int, s': FsState)
    requires NothingLost(s.Tree()) && Step(s, c, r, s')
    ensures NothingLost(s'.Tree()) <==> !Loses(s, c)
  {
    hide Changes, NothingLost, Place, ViewOf, Writable, WriteSucceeds;
    ChangesLoseNothing(s.Tree(), c, r, s'.Tree());
  }

  /** A run keeps all contents exactly if none of its writes is one that loses them. */
  lemma {:induction false} RunLosesNothing(ss: seq<FsState>, cs: seq<Call>, rs: seq<int>, i: nat)
    requires IsRun(ss, cs, rs) && i < |ss| && NothingLost(ss[0].Tree())
    ensures (forall k :: 0 <= k <= i ==> NothingLost(ss[k].Tree())) <==> forall k :: 0 <= k < i ==> !Loses(ss[k], cs[k])
  {
    hide Step, Loses, NothingLost, ViewOf;
    if i > 0 {
      RunLosesNothing(ss, cs, rs, i - 1);
      assert StepAt(ss, cs, rs, i - 1);
      if NothingLost(ss[i - 1].Tree()) { StepLosesNothing(ss[i - 1], cs[i - 1], rs[i - 1], ss[i]); }
    }
  }

  /** No leak: when the tree is empty again, all live blocks are other people's. */
  lemma EmptyTreeOwnsNothing(t: Tables, live: Blocks)
    requires Inv(t) && ViewOf(t, live) == map[]
    ensures OwnedPtrs(t) == {} && Foreign(t, live) == live
  {
    forall e: nat
      ensures !HasBlock(t, e)
    {
      if Live(t, e) { EntryAtIs(t, e); }
    }
  }

  // ----- Contents are lost -----

  lemma PlaceOfA()
    ensures Place("/a") == ["a"]
  {
    assert Tokens("/a", "/") == ["a"] by {
      assert "/a" == Join(["a"], '/');
      TokensOfJoin(["a"]);
    }
  }

  lemma FirstFileFits(s: FsState, base: nat)
    requires s.tables == Tables([Dir("/", 0, [])], []) && Inv(s.tables)
    requires s.blocks == [BlockList.Block(base, FirstFit.HEAP_SIZE - FirstFit.HEADER, true)]
    ensures CreateSucceeds(s, ["a"], 1000)
  {
    RootIsThere(s.tables);
    FirstFit.FirstFittingUnique(s.blocks, FirstFit.RoundRequest(1000), 0);
  }

  /** No heap has room for a request of its own size. */
  lemma NoRoomForAll(bs: seq<BlockList.Block>, base: nat)
    requires BlockList.Tiled(bs, FirstFit.HEADER, base, base + FirstFit.HEAP_SIZE)
    ensures FirstFit.Answer(bs, FirstFit.HEAP_SIZE) == 0
  {
    forall i | 0 <= i < |bs|
      ensures !BlockList.Fits(bs[i], FirstFit.HEAP_SIZE)
    {
      assert BlockList.Within(bs[i], FirstFit.HEADER, base, base + FirstFit.HEAP_SIZE);
    }
    FirstFit.FirstFittingUnique(bs, FirstFit.HEAP_SIZE, |bs|);
  }

  lemma NoBlockForAll(fs: FileSystem, e: nat)
    requires fs.Valid() && fs.initialized && Live(fs.State(), e) && !fs.State().entries[e].isDir
    requires fs.State().entries[e].data != 0 && fs.State().entries[e].size != FirstFit.HEAP_SIZE
    ensures BlockAnswer(fs.State(), fs.heap.Found(), e, FirstFit.HEAP_SIZE) == 0
  {
    hide Inv, FirstFit.Chain, BlockList.Tiled, FirstFit.Answer, FirstFit.FreeBlocks, BlockList.Live;
    var heap, ptr := fs.heap, fs.State().entries[e].data;
    OwnedBlock(fs.State(), heap.LiveBytes(), e);
    if BlockList.Live(heap.blocks, FirstFit.HEADER, ptr) {
      var k := BlockList.IndexOf(heap.blocks, FirstFit.HEADER, ptr);
      FirstFit.FreeContents(heap.ram[..], heap.blocks, k, heap.base, heap.Limit());
    }
    NoRoomForAll(FirstFit.Freed(heap.blocks, ptr), heap.base);
  }

  /** A fresh filesystem with one file, "/a", of 1000 bytes. */
  method OneFile(ram: array<byte>, base: nat) returns (fs: FileSystem)
    requires 0 < base && base + FirstFit.HEAP_SIZE <= ram.Length <= WORD
    modifies ram
    ensures fs.Valid() && fs.initialized && NewFile(map[], fs.Tree(), ["a"], 1000)
    ensures fresh(fs) && fresh(fs.dirs) && fresh(fs.entries) && fresh(fs.heap) && fs.heap.ram == ram
  {
    hide Inv, Owns, ViewOf, Foreign, Place, Creatable, Resolves, CreateSucceeds, NewFile;
    hide LibcHeap.Heap.LiveBytes;
    PlaceOfA();
    var heap := new LibcHeap.Heap(ram, base);
    fs := new FileSystem(heap);
    fs.Init();
    FirstFileFits(fs.Now(), base);
    var r := fs.Create("/a", 1000);
  }

  /** This file is overwritten with as much data as the whole heap has: it is lost. */
  method OverwritingLosesContents(ram: array<byte>, base: nat) returns (fs: FileSystem, r: int)
    requires 0 < base && base + FirstFit.HEAP_SIZE <= ram.Length <= WORD
    modifies ram
    ensures fs.Valid() && r == -1 && fs.Tree() == map[["a"] := Lost(1000)]
  {
    hide Inv, Owns, ViewOf, Foreign, Place, BlockAnswer, LibcHeap.Heap.LiveBytes, LibcHeap.Heap.Valid;
    PlaceOfA();
    fs := OneFile(ram, base);
    NewFileFacts(map[], fs.Tree(), ["a"], 1000);
    FileNode(fs.State(), fs.heap.LiveBytes(), EntryAt(fs.State(), ["a"]));
    NoBlockForAll(fs, EntryAt(fs.State(), ["a"]));
    var data: seq<byte> := seq(FirstFit.HEAP_SIZE, _ => 0);
    r := fs.Write("/a", data);
  }
}
