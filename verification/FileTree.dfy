/** The tables of the in-memory filesystem and the tree of names they stand for (drivers/fs.c). */
module FileTree {
  import opened Lists
  import opened Memory
  import opened PathTokens

  const FS_MAX_FILENAME_LEN: nat := 32
  const FS_MAX_FILES_PER_DIR: nat := 64
  const FS_MAX_DIRECTORIES: nat := 32
  const FS_MAX_FILES: nat := 128

  datatype Entry = Entry(name: string, isDir: bool, size: nat, data: nat, parent: nat)

  datatype Dir = Dir(name: string, parent: nat, files: seq<nat>)

  /** The used parts of the directory table and of the entry table. */
  datatype Tables = Tables(dirs: seq<Dir>, entries: seq<Entry>)

  /** An entry or a directory record is deleted by making its name empty; its slot is not used again. */
  predicate Live(t: Tables, e: int) { 0 <= e < |t.entries| && t.entries[e].name != "" }

  predicate LiveDir(t: Tables, d: int) { 0 <= d < |t.dirs| && t.dirs[d].name != "" }

  predicate GoodName(s: string) { s != "" && |s| < FS_MAX_FILENAME_LEN && NoneIn(s, "/") }

  /** Directory record `d` and entry `e` are the two halves of one directory. */
  predicate Halves(t: Tables, d: int, e: int)
  {
    && 0 < d < |t.dirs| && Live(t, e) && t.entries[e].isDir
    && t.dirs[d].name == t.entries[e].name && t.dirs[d].parent == t.entries[e].parent
  }

  ghost predicate DirOk(t: Tables, d: nat)
    requires d < |t.dirs|
  {
    var r := t.dirs[d];
    && |r.files| <= FS_MAX_FILES_PER_DIR && NoDuplicates(r.files)
    && (forall e :: e in r.files ==> Live(t, e) && t.entries[e].parent == d)
    && (r.name == "" ==> r.files == [])
    && (d > 0 ==> r.parent < d)
    && (d > 0 && r.name != "" ==> GoodName(r.name) && exists e :: Halves(t, d, e))
  }

  ghost predicate EntryOk(t: Tables, e: nat)
    requires e < |t.entries|
  {
    var n := t.entries[e];
    && GoodName(n.name) && n.parent < |t.dirs| && e in t.dirs[n.parent].files
    && (n.isDir ==> n.size == 0 && n.data == 0 && exists d :: Halves(t, d, e))
  }

  ghost predicate NamesDiffer(t: Tables)
  {
    && (forall e, f :: Live(t, e) && Live(t, f) && e != f && t.entries[e].parent == t.entries[f].parent ==>
          t.entries[e].name != t.entries[f].name)
    && (forall c, d :: LiveDir(t, c) && LiveDir(t, d) && c != d && t.dirs[c].parent == t.dirs[d].parent ==>
          t.dirs[c].name != t.dirs[d].name)
  }

  /**
   * Each live entry is in exactly one file list, that of its parent; names are unique within a directory;
   * live directory records other than the root and live directory entries are paired; parents come first.
   */
  ghost predicate Inv(t: Tables)
  {
    && 1 <= |t.dirs| <= FS_MAX_DIRECTORIES && |t.entries| <= FS_MAX_FILES
    && t.dirs[0].name == "/" && t.dirs[0].parent == 0
    && (forall d: nat :: d < |t.dirs| ==> DirOk(t, d))
    && (forall e: nat :: Live(t, e) ==> EntryOk(t, e))
    && NamesDiffer(t)
  }

  lemma OnlyRoot(t: Tables)
    requires t == Tables([Dir("/", 0, [])], [])
    ensures Inv(t)
  {
    assert DirOk(t, 0);
  }

  // ----- The names of entries -----

  /** The names on the way from the root to a directory. */
  function DirPath(t: Tables, d: nat): seq<string>
    decreases d
  {
    if d == 0 || d >= |t.dirs| || t.dirs[d].parent >= d then [] else DirPath(t, t.dirs[d].parent) + [t.dirs[d].name]
  }

  function EntryPath(t: Tables, e: nat): (p: seq<string>)
    requires e < |t.entries|
    ensures p != []
  {
    DirPath(t, t.entries[e].parent) + [t.entries[e].name]
  }

  lemma DirFacts(t: Tables, d: nat)
    requires Inv(t) && LiveDir(t, d) && d > 0
    ensures t.dirs[d].parent < d && LiveDir(t, t.dirs[d].parent) && GoodName(t.dirs[d].name)
    ensures DirPath(t, d) == DirPath(t, t.dirs[d].parent) + [t.dirs[d].name]
    ensures exists e :: Halves(t, d, e) && e in t.dirs[t.dirs[d].parent].files
  {
    assert DirOk(t, d);
    var e :| Halves(t, d, e);
    assert EntryOk(t, e);
    assert DirOk(t, t.dirs[d].parent);
  }

  lemma EntryFacts(t: Tables, e: nat)
    requires Inv(t) && Live(t, e)
    ensures GoodName(t.entries[e].name) && LiveDir(t, t.entries[e].parent)
    ensures e in t.dirs[t.entries[e].parent].files
  {
    assert EntryOk(t, e);
    assert DirOk(t, t.entries[e].parent);
  }

  /** A directory entry has exactly one record. */
  lemma RecordOf(t: Tables, e: nat) returns (d: nat)
    requires Inv(t) && Live(t, e) && t.entries[e].isDir
    ensures Halves(t, d, e) && LiveDir(t, d)
    ensures forall c :: Halves(t, c, e) ==> c == d
  {
    assert EntryOk(t, e);
    d :| Halves(t, d, e);
  }

  /** The entries have the same name in the same directory. */
  predicate SameName(m: Entry, n: Entry) { m.parent == n.parent && m.name == n.name }

  /** What the invariant means for an entry: one list, one name, one record. */
  lemma EntryInvariant(t: Tables, e: nat)
    requires Inv(t) && Live(t, e)
    ensures forall d :: 0 <= d < |t.dirs| ==> (e in t.dirs[d].files <==> d == t.entries[e].parent)
    ensures forall f :: Live(t, f) && SameName(t.entries[f], t.entries[e]) ==> f == e
    ensures t.entries[e].isDir ==>
      exists d :: Halves(t, d, e) && LiveDir(t, d) && forall c :: Halves(t, c, e) ==> c == d
  {
    EntryFacts(t, e);
    forall d | 0 <= d < |t.dirs| && e in t.dirs[d].files
      ensures d == t.entries[e].parent
    {
      assert DirOk(t, d);
    }
    if t.entries[e].isDir { var d := RecordOf(t, e); }
  }

  /** What the invariant means for a directory record other than the root's: one entry, and a walk up that ends. */
  lemma RecordInvariant(t: Tables, d: nat)
    requires Inv(t) && LiveDir(t, d) && d > 0
    ensures t.dirs[d].parent < d && LiveDir(t, t.dirs[d].parent)
    ensures exists e :: Halves(t, d, e) && forall f :: Halves(t, d, f) ==> f == e
  {
    DirFacts(t, d);
    var e :| Halves(t, d, e) && e in t.dirs[t.dirs[d].parent].files;
    assert forall f :: Halves(t, d, f) ==> f == e;
  }

  /** Different directories have different paths. */
  lemma {:induction false} DirPathInjective(t: Tables, c: nat, d: nat)
    requires Inv(t) && LiveDir(t, c) && LiveDir(t, d) && DirPath(t, c) == DirPath(t, d)
    ensures c == d
    decreases c
  {
    hide Inv;
    if c > 0 { DirFacts(t, c); }
    if d > 0 { DirFacts(t, d); }
    if c > 0 && d > 0 {
      var p, q := DirPath(t, t.dirs[c].parent), DirPath(t, t.dirs[d].parent);
      assert (p + [t.dirs[c].name])[..|p|] == (q + [t.dirs[d].name])[..|p|];
      assert p == q;
      DirPathInjective(t, t.dirs[c].parent, t.dirs[d].parent);
      NoTwoDirs(t, c, d);
    }
  }

  lemma NoTwoDirs(t: Tables, c: nat, d: nat)
    requires Inv(t) && LiveDir(t, c) && LiveDir(t, d)
    requires t.dirs[c].parent == t.dirs[d].parent && t.dirs[c].name == t.dirs[d].name
    ensures c == d
  {}

  /** Different entries have different paths. */
  lemma EntryPathInjective(t: Tables, e: nat, f: nat)
    requires Inv(t) && Live(t, e) && Live(t, f) && EntryPath(t, e) == EntryPath(t, f)
    ensures e == f
  {
    EntryFacts(t, e);
    EntryFacts(t, f);
    var p, q := DirPath(t, t.entries[e].parent), DirPath(t, t.entries[f].parent);
    assert EntryPath(t, e)[..|p|] == p && EntryPath(t, f)[..|q|] == q;
    DirPathInjective(t, t.entries[e].parent, t.entries[f].parent);
    assert EntryPath(t, e)[|p|] == t.entries[e].name;
  }

  /** The live entry with a given path, or -1. */
  ghost function EntryAt(t: Tables, p: seq<string>): (e: int)
    ensures e == -1 || (Live(t, e) && EntryPath(t, e) == p)
  {
    if exists e :: Live(t, e) && EntryPath(t, e) == p then
      var e :| Live(t, e) && EntryPath(t, e) == p;
      e
    else -1
  }

  /** The live directory with a given path, or -1. */
  ghost function DirAt(t: Tables, p: seq<string>): (d: int)
    ensures d == -1 || (LiveDir(t, d) && DirPath(t, d) == p)
  {
    if exists d :: LiveDir(t, d) && DirPath(t, d) == p then
      var d :| LiveDir(t, d) && DirPath(t, d) == p;
      d
    else -1
  }

  lemma EntryAtIs(t: Tables, e: nat)
    requires Inv(t) && Live(t, e)
    ensures EntryAt(t, EntryPath(t, e)) == e
  {
    EntryPathInjective(t, e, EntryAt(t, EntryPath(t, e)));
  }

  lemma DirAtIs(t: Tables, d: nat)
    requires Inv(t) && LiveDir(t, d)
    ensures DirAt(t, DirPath(t, d)) == d
  {
    DirPathInjective(t, d, DirAt(t, DirPath(t, d)));
  }

  function Front(p: seq<string>): seq<string> { if p == [] then [] else p[..|p| - 1] }

  function Truncated(s: string): string { if |s| < FS_MAX_FILENAME_LEN then s else s[..FS_MAX_FILENAME_LEN - 1] }

  /** Where a path leads: only its last component is cut to the length of a name. */
  function Place(path: string): seq<string>
  {
    var parts := Tokens(path, "/");
    if parts == [] then [] else Front(parts) + [Truncated(parts[|parts| - 1])]
  }

  /** A name is stored with its first 31 characters, and nothing else about a path is cut. */
  lemma PlaceIsPrefix(path: string)
    ensures var parts, p := Tokens(path, "/"), Place(path);
      && |p| == |parts| && (forall i :: 0 <= i && i + 1 < |parts| ==> p[i] == parts[i])
      && (parts != [] ==>
            var name, last := p[|p| - 1], parts[|parts| - 1];
            name <= last && |name| == if |last| < 31 then |last| else 31)
  {}

  /** The parent directory and the last component decide which entry a path leads to. */
  lemma EntryAtParent(t: Tables, p: seq<string>, e: nat)
    requires Inv(t) && p != [] && Live(t, e)
    ensures EntryAt(t, p) == e <==>
      DirAt(t, Front(p)) == t.entries[e].parent && t.entries[e].name == p[|p| - 1]
  {
    hide Inv, DirPath;
    EntryFacts(t, e);
    EntryAtIs(t, e);
    DirAtIs(t, t.entries[e].parent);
    var q := EntryPath(t, e);
    assert Front(q) == DirPath(t, t.entries[e].parent) && q[|q| - 1] == t.entries[e].name;
    assert p == Front(p) + [p[|p| - 1]];
  }

  /** A directory's path leads through its parent. */
  lemma DirAtParent(t: Tables, p: seq<string>, d: nat)
    requires Inv(t) && p != [] && LiveDir(t, d)
    ensures DirAt(t, p) == d <==>
      d > 0 && DirAt(t, Front(p)) == t.dirs[d].parent && t.dirs[d].name == p[|p| - 1]
  {
    hide Inv, EntryPath;
    DirAtIs(t, d);
    if d > 0 {
      DirFacts(t, d);
      DirAtIs(t, t.dirs[d].parent);
      var q := DirPath(t, d);
      assert Front(q) == DirPath(t, t.dirs[d].parent) && q[|q| - 1] == t.dirs[d].name;
    }
    assert p == Front(p) + [p[|p| - 1]];
  }

  // ----- Looking names up -----

  lemma RootIsThere(t: Tables)
    requires Inv(t)
    ensures LiveDir(t, 0) && DirAt(t, []) == 0
  {
    DirAtIs(t, 0);
  }

  lemma ChildFound(t: Tables, p: seq<string>, name: string, k: nat)
    requires Inv(t) && LiveDir(t, k) && k > 0 && DirAt(t, p) == t.dirs[k].parent && t.dirs[k].name == name
    ensures DirAt(t, p + [name]) == k
  {
    hide Inv;
    assert Front(p + [name]) == p;
    DirAtParent(t, p + [name], k);
  }

  lemma NoChild(t: Tables, p: seq<string>, name: string)
    requires Inv(t) && DirAt(t, p) >= 0 && !HasRecord(t, DirAt(t, p), name)
    ensures DirAt(t, p + [name]) == -1
  {
    hide Inv;
    assert Front(p + [name]) == p;
    if DirAt(t, p + [name]) >= 0 { DirAtParent(t, p + [name], DirAt(t, p + [name])); }
  }

  lemma RootIsNoEntry(t: Tables)
    ensures EntryAt(t, []) == -1
  {}

  lemma ListFacts(t: Tables, d: nat)
    requires Inv(t) && d < |t.dirs|
    ensures forall i :: 0 <= i < |t.dirs[d].files| ==>
      Live(t, t.dirs[d].files[i]) && t.entries[t.dirs[d].files[i]].parent == d
  {
    assert DirOk(t, d);
  }

  /** `name` is a subdirectory of `cur` according to the records; then it is one according to the entries. */
  ghost predicate HasRecord(t: Tables, cur: nat, name: string)
  {
    exists d :: 0 < d < |t.dirs| && t.dirs[d].parent == cur && t.dirs[d].name == name
  }

  lemma RecordIsListed(t: Tables, cur: nat, name: string)
    requires Inv(t) && HasRecord(t, cur, name) && name != "" && cur < |t.dirs|
    ensures exists e :: e in t.dirs[cur].files && e < |t.entries| && t.entries[e].isDir && t.entries[e].name == name
  {
    var d :| 0 < d < |t.dirs| && t.dirs[d].parent == cur && t.dirs[d].name == name;
    DirFacts(t, d);
  }

  /** Nothing is below a path that does not lead to a directory. */
  lemma {:induction false} NothingBelow(t: Tables, p: seq<string>, n: nat)
    requires Inv(t) && n <= |p| && DirAt(t, p[..n]) == -1
    ensures DirAt(t, p) == -1
    decreases |p|
  {
    hide Inv;
    if n == |p| {
      assert p[..n] == p;
    } else {
      assert Front(p)[..n] == p[..n];
      NothingBelow(t, Front(p), n);
      if DirAt(t, p) >= 0 { DirAtParent(t, p, DirAt(t, p)); }
    }
  }

  ghost predicate Unlisted(t: Tables, d: nat, name: string)
  {
    d < |t.dirs| && forall e :: e in t.dirs[d].files ==> e < |t.entries| && t.entries[e].name != name
  }

  lemma NoEntry(t: Tables, p: seq<string>)
    requires Inv(t) && p != []
    requires DirAt(t, Front(p)) >= 0 ==> Unlisted(t, DirAt(t, Front(p)), p[|p| - 1])
    ensures EntryAt(t, p) == -1
  {
    var e := EntryAt(t, p);
    if e >= 0 {
      EntryAtParent(t, p, e);
      EntryFacts(t, e);
    }
  }

  /** A directory is empty when nothing in the tree is directly below its path. */
  lemma EmptyDir(t: Tables, live: map<nat, seq<byte>>, e: nat, d: nat)
    requires Inv(t) && Halves(t, d, e) && LiveDir(t, d)
    ensures DirPath(t, d) == EntryPath(t, e)
    ensures t.dirs[d].files == [] <==> forall q :: q in ViewOf(t, live) ==> Front(q) != EntryPath(t, e)
  {
    hide NodeOf;
    DirFacts(t, d);
    if t.dirs[d].files != [] {
      var f := t.dirs[d].files[0];
      assert DirOk(t, d);
      EntryAtIs(t, f);
      assert Front(EntryPath(t, f)) == DirPath(t, d);
    }
    forall q | q in ViewOf(t, live) && Front(q) == EntryPath(t, e)
      ensures t.dirs[d].files != []
    {
      var f := EntryAt(t, q);
      EntryFacts(t, f);
      assert Front(q) == DirPath(t, t.entries[f].parent);
      DirPathInjective(t, d, t.entries[f].parent);
    }
  }

  lemma PlaceParts(path: string)
    ensures Place(path) == [] <==> Tokens(path, "/") == []
    ensures Front(Place(path)) == Front(Tokens(path, "/"))
    ensures Place(path) != [] ==> GoodName(Place(path)[|Place(path)| - 1])
  {
    JoinOfTokens(path);
    var parts := Tokens(path, "/");
    if parts != [] {
      var last := parts[|parts| - 1];
      assert Component(last);
      assert forall c :: c in Truncated(last) ==> c in last;
    }
  }

  // ----- What the operations do to the tables -----

  function Insert(t: Tables, p: nat, n: Entry): Tables
    requires p < |t.dirs|
  {
    Tables(t.dirs[p := t.dirs[p].(files := t.dirs[p].files + [|t.entries|])], t.entries + [n])
  }

  function MakeDir(t: Tables, p: nat, name: string): Tables
    requires p < |t.dirs|
  {
    var t1 := Insert(t, p, Entry(name, true, 0, 0, p));
    t1.(dirs := t1.dirs + [Dir(name, p, [])])
  }

  /** Entry `e`, number `i` of its directory's list, goes. */
  function Remove(t: Tables, e: nat, i: nat): Tables
    requires e < |t.entries| && t.entries[e].parent < |t.dirs| && i < |t.dirs[t.entries[e].parent].files|
  {
    var p := t.entries[e].parent;
    var files := t.dirs[p].files;
    Tables(t.dirs[p := t.dirs[p].(files := files[..i] + files[i + 1..])], t.entries[e := t.entries[e].(name := "")])
  }

  function ForgetDir(t: Tables, d: nat): Tables
    requires d < |t.dirs|
  {
    t.(dirs := t.dirs[d := t.dirs[d].(name := "")])
  }

  function SetData(t: Tables, e: nat, data: nat, size: nat): Tables
    requires e < |t.entries|
  {
    t.(entries := t.entries[e := t.entries[e].(data := data, size := size)])
  }

  /** `name` can be used for a new entry of directory `p`. */
  ghost predicate Room(t: Tables, p: nat, name: string)
  {
    && LiveDir(t, p) && GoodName(name)
    && |t.entries| < FS_MAX_FILES && |t.dirs[p].files| < FS_MAX_FILES_PER_DIR
    && forall e :: Live(t, e) && t.entries[e].parent == p ==> t.entries[e].name != name
  }

  /** Something can be created at path `p`: nothing is there, and its directory is and has room. */
  ghost predicate Creatable(t: Tables, p: seq<string>)
  {
    && p != [] && EntryAt(t, p) == -1 && DirAt(t, Front(p)) >= 0
    && |t.dirs[DirAt(t, Front(p))].files| < FS_MAX_FILES_PER_DIR
  }

  lemma RoomAt(t: Tables, p: seq<string>)
    requires Inv(t) && Creatable(t, p) && GoodName(p[|p| - 1]) && |t.entries| < FS_MAX_FILES
    ensures Room(t, DirAt(t, Front(p)), p[|p| - 1])
    ensures DirPath(t, DirAt(t, Front(p))) + [p[|p| - 1]] == p
  {
    hide Inv, EntryPath, DirPath, GoodName;
    forall e | Live(t, e) && t.entries[e].parent == DirAt(t, Front(p))
      ensures t.entries[e].name != p[|p| - 1]
    {
      EntryAtParent(t, p, e);
    }
    assert p == Front(p) + [p[|p| - 1]];
  }

  /** `t'` is `t` with entry `n` in directory `p`, and perhaps more directory records. */
  ghost predicate Extends(t: Tables, p: nat, n: Entry, t': Tables)
    requires p < |t.dirs|
  {
    && |t.dirs| <= |t'.dirs| && t'.dirs[..|t.dirs|] == Insert(t, p, n).dirs
    && t'.entries == Insert(t, p, n).entries
  }

  /**
   * A directory is found under the cut name, but the walk to anything below it compares the name uncut: a path
   * that leads to a directory can be walked through, and something created below it, only if its last component
   * has fewer than 32 characters.
   */
  lemma LongNamesEndTheWalk(t: Tables, path: string)
    requires Inv(t) && EntryAt(t, Place(path)) >= 0 && t.entries[EntryAt(t, Place(path))].isDir
    ensures var parts := Tokens(path, "/");
      && parts != []
      && (DirAt(t, parts) >= 0 <==> |parts[|parts| - 1]| < FS_MAX_FILENAME_LEN)
      && (|parts[|parts| - 1]| >= FS_MAX_FILENAME_LEN ==> forall p :: Front(p) == parts ==> !Creatable(t, p))
  {
    hide Inv;
    var parts, e := Tokens(path, "/"), EntryAt(t, Place(path));
    var d := RecordOf(t, e);
    DirFacts(t, d);
    DirAtIs(t, d);
    if |parts[|parts| - 1]| < FS_MAX_FILENAME_LEN {
      assert Place(path) == parts;
    } else if DirAt(t, parts) >= 0 {
      DirAtParent(t, parts, DirAt(t, parts));
      DirFacts(t, DirAt(t, parts));
    }
  }

  lemma InsertLists(t: Tables, p: nat, n: Entry, t': Tables)
    requires Inv(t) && Room(t, p, n.name) && n.parent == p
    requires Extends(t, p, n, t')
    ensures forall e :: Live(t', e) <==> Live(t, e) || e == |t.entries|
    ensures forall e :: Live(t, e) ==> t'.entries[e] == t.entries[e]
    ensures forall d, e :: Halves(t, d, e) ==> Halves(t', d, e)
    ensures forall d: nat :: d < |t.dirs| ==> DirOk(t', d)
  {
    assert forall d :: 0 <= d < |t.dirs| ==> t'.dirs[d] == t'.dirs[..|t.dirs|][d];
    forall d: nat | d < |t.dirs|
      ensures DirOk(t', d)
    {
      assert DirOk(t, d);
      assert |t.entries| !in t.dirs[d].files;
      if d > 0 && t.dirs[d].name != "" {
        var e :| Halves(t, d, e);
        assert Halves(t', d, e);
      }
    }
  }

  lemma InsertedEntries(t: Tables, p: nat, n: Entry, t': Tables)
    requires Inv(t) && Room(t, p, n.name) && n.parent == p
    requires Extends(t, p, n, t')
    requires n.isDir ==> n.size == 0 && n.data == 0 && exists d :: Halves(t', d, |t.entries|)
    ensures forall e: nat :: Live(t', e) ==> EntryOk(t', e)
  {
    InsertLists(t, p, n, t');
    assert forall d :: 0 <= d < |t.dirs| ==> t'.dirs[d] == t'.dirs[..|t.dirs|][d];
    forall e: nat | Live(t', e)
      ensures EntryOk(t', e)
    {
      if e < |t.entries| {
        assert EntryOk(t, e);
        KeepsHalf(t, t', e);
      }
    }
  }

  lemma InsertInv(t: Tables, p: nat, n: Entry)
    requires Inv(t) && Room(t, p, n.name) && n.parent == p && !n.isDir
    ensures Inv(Insert(t, p, n))
  {
    hide DirOk, EntryOk;
    InsertLists(t, p, n, Insert(t, p, n));
    InsertedEntries(t, p, n, Insert(t, p, n));
  }

  lemma KeepsHalf(t: Tables, t': Tables, e: nat)
    requires Live(t, e) && EntryOk(t, e)
    requires forall d :: Halves(t, d, e) ==> Halves(t', d, e)
    ensures t.entries[e].isDir ==> exists d :: Halves(t', d, e)
  {
    if t.entries[e].isDir {
      var d :| Halves(t, d, e);
      assert Halves(t', d, e);
    }
  }

  lemma MakeDirInv(t: Tables, p: nat, name: string)
    requires Inv(t) && Room(t, p, name) && |t.dirs| < FS_MAX_DIRECTORIES
    ensures Inv(MakeDir(t, p, name))
  {
    hide DirOk, EntryOk, NamesDiffer;
    var t', n := MakeDir(t, p, name), Entry(name, true, 0, 0, p);
    assert t'.dirs[..|t.dirs|] == Insert(t, p, n).dirs;
    assert Halves(t', |t.dirs|, |t.entries|);
    InsertLists(t, p, n, t');
    InsertedEntries(t, p, n, t');
    NewDirOk(t', |t.dirs|, |t.entries|);
    MakeDirNames(t, p, name);
  }

  lemma NewDirOk(t: Tables, d: nat, e: nat)
    requires Halves(t, d, e) && t.dirs[d].files == [] && t.dirs[d].parent < d && GoodName(t.dirs[d].name)
    ensures DirOk(t, d)
  {}

  lemma MakeDirNames(t: Tables, p: nat, name: string)
    requires Inv(t) && Room(t, p, name)
    ensures NamesDiffer(MakeDir(t, p, name))
  {
    hide DirOk, EntryOk;
    var t' := MakeDir(t, p, name);
    forall c | LiveDir(t, c) && t.dirs[c].parent == p
      ensures t'.dirs[c].name != name
    {
      NameIsNew(t, p, name, c);
    }
  }

  lemma NameIsNew(t: Tables, p: nat, name: string, c: nat)
    requires Inv(t) && Room(t, p, name) && LiveDir(t, c) && t.dirs[c].parent == p
    ensures t.dirs[c].name != name
  {
    if c == 0 {
      assert "/"[0] in "/";
    } else {
      DirFacts(t, c);
    }
  }

  // ----- Removing -----

  /** Entry `e` can be deleted: it is number `i` in its list and, if a directory, record `d` is empty. */
  ghost predicate Removable(t: Tables, e: nat, i: nat, d: int)
  {
    && Live(t, e) && t.entries[e].parent < |t.dirs|
    && i < |t.dirs[t.entries[e].parent].files| && t.dirs[t.entries[e].parent].files[i] == e
    && if t.entries[e].isDir then Halves(t, d, e) && t.dirs[d].files == [] else d == -1
  }

  function Drop(t: Tables, e: nat, i: nat, d: int): Tables
    requires e < |t.entries| && t.entries[e].parent < |t.dirs| && i < |t.dirs[t.entries[e].parent].files|
    requires d < |t.dirs|
  {
    Remove(if d < 0 then t else ForgetDir(t, d), e, i)
  }

  lemma DropLists(t: Tables, e: nat, i: nat, d: int)
    requires Inv(t) && Removable(t, e, i, d)
    ensures d != t.entries[e].parent
    ensures forall c: nat :: c < |t.dirs| ==> DirOk(Drop(t, e, i, d), c)
  {
    if d >= 0 { assert DirOk(t, d); }
    forall c: nat | c < |t.dirs|
      ensures DirOk(Drop(t, e, i, d), c)
    {
      DropList(t, e, i, d, c);
    }
  }

  lemma DropList(t: Tables, e: nat, i: nat, d: int, c: nat)
    requires Inv(t) && Removable(t, e, i, d) && d != t.entries[e].parent && c < |t.dirs|
    ensures DirOk(Drop(t, e, i, d), c)
  {
    hide EntryOk;
    var t', p := Drop(t, e, i, d), t.entries[e].parent;
    assert DirOk(t, c) && DirOk(t, p);
    CutList(t.dirs[p].files, i);
    forall f | f in t'.dirs[c].files
      ensures f != e && f in t.dirs[c].files
    {}
    if c > 0 && t'.dirs[c].name != "" {
      var f :| Halves(t, c, f);
      assert c != d && f != e;
      assert Halves(t', c, f);
    }
  }

  lemma CutList(q: seq<nat>, i: nat)
    requires NoDuplicates(q) && i < |q|
    ensures var r := q[..i] + q[i + 1..]; NoDuplicates(r) && forall x :: x in r <==> x in q && x != q[i]
  {
    var r := q[..i] + q[i + 1..];
    forall x | x in q && x != q[i]
      ensures x in r
    {
      var k :| 0 <= k < |q| && q[k] == x;
      assert r[if k < i then k else k - 1] == x;
    }
  }

  lemma DropEntries(t: Tables, e: nat, i: nat, d: int)
    requires Inv(t) && Removable(t, e, i, d) && d != t.entries[e].parent
    ensures var t' := Drop(t, e, i, d); forall f: nat :: Live(t', f) ==> EntryOk(t', f)
  {
    var t' := Drop(t, e, i, d);
    forall f: nat | Live(t', f)
      ensures EntryOk(t', f)
    {
      assert EntryOk(t, f);
      if t.entries[f].isDir {
        var c :| Halves(t, c, f);
        assert c != d;
        assert Halves(t', c, f);
      }
    }
  }

  lemma DropInv(t: Tables, e: nat, i: nat, d: int)
    requires Inv(t) && Removable(t, e, i, d)
    ensures Inv(Drop(t, e, i, d))
    ensures forall f :: Live(Drop(t, e, i, d), f) <==> Live(t, f) && f != e
  {
    hide DirOk, EntryOk;
    DropLists(t, e, i, d);
    DropEntries(t, e, i, d);
  }

  lemma SetDataInv(t: Tables, e: nat, data: nat, size: nat)
    requires Inv(t) && Live(t, e) && !t.entries[e].isDir
    ensures Inv(SetData(t, e, data, size))
  {
    var t' := SetData(t, e, data, size);
    forall d: nat | d < |t.dirs|
      ensures DirOk(t', d)
    {
      assert DirOk(t, d);
      if d > 0 && t.dirs[d].name != "" {
        var f :| Halves(t, d, f);
        assert Halves(t', d, f);
      }
    }
    forall f: nat | Live(t', f)
      ensures EntryOk(t', f)
    {
      assert EntryOk(t, f);
      if t.entries[f].isDir {
        var c :| Halves(t, c, f);
        assert Halves(t', c, f);
      }
    }
  }

  lemma PositionOf(t: Tables, e: nat) returns (i: nat)
    requires Inv(t) && Live(t, e)
    ensures LiveDir(t, t.entries[e].parent) && i < |t.dirs[t.entries[e].parent].files|
    ensures t.dirs[t.entries[e].parent].files[i] == e && NoDuplicates(t.dirs[t.entries[e].parent].files)
  {
    EntryFacts(t, e);
    assert DirOk(t, t.entries[e].parent);
    i :| 0 <= i < |t.dirs[t.entries[e].parent].files| && t.dirs[t.entries[e].parent].files[i] == e;
  }

  // ----- Paths of entries that stay -----

  lemma {:induction false} DirPathSame(t: Tables, t': Tables, d: nat)
    requires |t.dirs| <= |t'.dirs| && d < |t.dirs|
    requires forall c :: 0 <= c < |t.dirs| ==>
      t'.dirs[c].parent == t.dirs[c].parent && t'.dirs[c].name == t.dirs[c].name
    ensures DirPath(t', d) == DirPath(t, d)
    decreases d
  {
    if d > 0 && t.dirs[d].parent < d { DirPathSame(t, t', t.dirs[d].parent); }
  }

  lemma {:induction false} DirPathAfterDrop(t: Tables, e: nat, i: nat, d: int, c: nat)
    requires Inv(t) && Removable(t, e, i, d) && LiveDir(t, c) && c != d
    ensures DirPath(Drop(t, e, i, d), c) == DirPath(t, c)
    decreases c
  {
    hide Inv;
    if c > 0 {
      DirFacts(t, c);
      DirPathAfterDrop(t, e, i, d, t.dirs[c].parent);
    }
  }

  /** Every other entry keeps its path when one is deleted. */
  lemma PathsAfterDrop(t: Tables, e: nat, i: nat, d: int, f: nat)
    requires Inv(t) && Removable(t, e, i, d) && Live(t, f) && f != e
    ensures EntryPath(Drop(t, e, i, d), f) == EntryPath(t, f)
  {
    EntryFacts(t, f);
    DirPathAfterDrop(t, e, i, d, t.entries[f].parent);
  }

  /** Every entry keeps its path when one is added, and the new one is where it was wanted. */
  lemma PathsAfterInsert(t: Tables, p: nat, n: Entry, t': Tables)
    requires Inv(t) && Room(t, p, n.name) && n.parent == p
    requires Extends(t, p, n, t')
    ensures forall e: nat :: Live(t, e) ==> EntryPath(t', e) == EntryPath(t, e)
    ensures EntryPath(t', |t.entries|) == DirPath(t, p) + [n.name]
  {
    assert forall d :: 0 <= d < |t.dirs| ==> t'.dirs[d] == t'.dirs[..|t.dirs|][d];
    DirPathSame(t, t', p);
    forall e: nat | Live(t, e)
      ensures EntryPath(t', e) == EntryPath(t, e)
    {
      EntryFacts(t, e);
      DirPathSame(t, t', t.entries[e].parent);
    }
  }

  lemma PathsAfterSetData(t: Tables, e: nat, data: nat, size: nat, f: nat)
    requires Inv(t) && e < |t.entries| && Live(t, f)
    ensures EntryPath(SetData(t, e, data, size), f) == EntryPath(t, f)
  {
    EntryFacts(t, f);
    DirPathSame(t, SetData(t, e, data, size), t.entries[f].parent);
  }

  lemma SetDataPath(t: Tables, e: nat, data: nat, size: nat)
    requires Inv(t) && Live(t, e)
    ensures EntryPath(SetData(t, e, data, size), e) == EntryPath(t, e)
  {
    PathsAfterSetData(t, e, data, size, e);
  }

  // ----- Where paths lead after each operation -----

  ghost predicate SamePlace(t: Tables, t': Tables, e: nat)
  {
    Live(t, e) && Live(t', e) && EntryPath(t', e) == EntryPath(t, e)
  }

  /** Path `p` leads to entry `n` now (-1: to nothing), and every other path leads where it led before. */
  ghost predicate Resolves(t: Tables, t': Tables, p: seq<string>, n: int)
  {
    forall q :: EntryAt(t', q) == if q == p then n else EntryAt(t, q)
  }

  lemma ResolvesAsBefore(t: Tables, t': Tables, n: nat, q: seq<string>)
    requires Inv(t) && Inv(t') && EntryAt(t, q) != n && EntryAt(t', q) != n
    requires forall e: nat :: e != n && (Live(t, e) || Live(t', e)) ==> SamePlace(t, t', e)
    ensures EntryAt(t', q) == EntryAt(t, q)
  {
    hide Inv;
    var e, e' := EntryAt(t, q), EntryAt(t', q);
    if e >= 0 { assert SamePlace(t, t', e); EntryAtIs(t', e); }
    if e' >= 0 { assert SamePlace(t, t', e'); EntryAtIs(t, e'); }
  }

  /** A new entry is found under its path, and every other path leads where it led before. */
  lemma InsertResolves(t: Tables, p: nat, n: Entry, t': Tables)
    requires Inv(t) && Inv(t') && Room(t, p, n.name) && n.parent == p
    requires Extends(t, p, n, t')
    ensures Resolves(t, t', DirPath(t, p) + [n.name], |t.entries|)
  {
    hide Inv, EntryPath, DirPath;
    PathsAfterInsert(t, p, n, t');
    EntryAtIs(t', |t.entries|);
    forall q
      ensures EntryAt(t', q) == if q == DirPath(t, p) + [n.name] then |t.entries| else EntryAt(t, q)
    {
      if q != DirPath(t, p) + [n.name] { ResolvesAsBefore(t, t', |t.entries|, q); }
    }
  }

  /** A deleted entry is not found any more, and every other path leads where it led before. */
  lemma DropResolves(t: Tables, e: nat, i: nat, d: int)
    requires Inv(t) && Removable(t, e, i, d)
    ensures Resolves(t, Drop(t, e, i, d), EntryPath(t, e), -1)
  {
    hide Inv, EntryPath;
    var t' := Drop(t, e, i, d);
    DropInv(t, e, i, d);
    EntryAtIs(t, e);
    forall f: nat | Live(t, f) && f != e
      ensures SamePlace(t, t', f)
    {
      PathsAfterDrop(t, e, i, d, f);
    }
    forall q
      ensures EntryAt(t', q) == if q == EntryPath(t, e) then -1 else EntryAt(t, q)
    {
      if q == EntryPath(t, e) {
        var f := EntryAt(t', q);
        if f >= 0 { EntryAtIs(t, f); }
      } else {
        ResolvesAsBefore(t, t', e, q);
      }
    }
  }

  // ----- The tree -----

  /**
   * What a path names. `Lost` is a file of which a failed write has freed the contents but not cleared the size.
   */
  datatype Node = Folder | File(bytes: seq<byte>) | Lost(size: nat)

  type View = map<seq<string>, Node>

  ghost function NodeOf(n: Entry, live: map<nat, seq<byte>>): Node
  {
    if n.isDir then Folder
    else if n.data in live && n.size <= |live[n.data]| then File(live[n.data][..n.size])
    else if n.size == 0 then File([])
    else Lost(n.size)
  }

  ghost function Paths(t: Tables): (ps: set<seq<string>>)
    ensures forall p :: p in ps <==> EntryAt(t, p) >= 0
  {
    set e: nat | e < |t.entries| && Live(t, e) :: EntryPath(t, e)
  }

  ghost function ViewOf(t: Tables, live: map<nat, seq<byte>>): (v: View)
    ensures forall p :: p in v <==> EntryAt(t, p) >= 0
    ensures forall p :: p in v ==> v[p] == NodeOf(t.entries[EntryAt(t, p)], live)
  {
    map p | p in Paths(t) :: NodeOf(t.entries[EntryAt(t, p)], live)
  }

  /** Every entry that is live in `t` is live in `t'`, with the same path and naming the same thing. */
  ghost predicate Kept(t: Tables, live: map<nat, seq<byte>>, t': Tables, live': map<nat, seq<byte>>, e: nat)
  {
    && Live(t, e) && Live(t', e) && EntryPath(t', e) == EntryPath(t, e)
    && NodeOf(t'.entries[e], live') == NodeOf(t.entries[e], live)
  }

  lemma SameNode(t: Tables, live: map<nat, seq<byte>>, t': Tables, live': map<nat, seq<byte>>, e: nat)
    requires Inv(t) && Inv(t') && Kept(t, live, t', live', e)
    ensures var p, v, v' := EntryPath(t, e), ViewOf(t, live), ViewOf(t', live');
      EntryAt(t, p) == e && EntryAt(t', p) == e && p in v && p in v' && v'[p] == v[p]
  {
    hide Inv, NodeOf;
    EntryAtIs(t, e);
    EntryAtIs(t', e);
  }

  /** A path that does not lead to entry `n` names the same thing before and after. */
  lemma OtherPath(t: Tables, live: map<nat, seq<byte>>, t': Tables, live': map<nat, seq<byte>>, n: nat, p: seq<string>)
    requires Inv(t) && Inv(t') && EntryAt(t, p) != n && EntryAt(t', p) != n
    requires forall e: nat :: e != n && (Live(t, e) || Live(t', e)) ==> Kept(t, live, t', live', e)
    ensures p in ViewOf(t', live') <==> p in ViewOf(t, live)
    ensures p in ViewOf(t, live) ==> p in ViewOf(t', live') && ViewOf(t', live')[p] == ViewOf(t, live)[p]
  {
    hide Inv, NodeOf, ViewOf;
    var e, e' := EntryAt(t, p), EntryAt(t', p);
    if e >= 0 { SameNode(t, live, t', live', e); }
    if e' >= 0 { SameNode(t, live, t', live', e'); }
  }

  lemma PutOne(v: View, v': View, q: seq<string>)
    requires q in v' && forall p :: p != q ==> (p in v' <==> p in v) && (p in v ==> v'[p] == v[p])
    ensures v' == v[q := v'[q]]
  {}

  lemma ViewAfterInsert(t: Tables, live: map<nat, seq<byte>>, t': Tables, live': map<nat, seq<byte>>, n: nat)
    requires Inv(t) && Inv(t') && !Live(t, n) && Live(t', n) && n < |t'.entries|
    requires forall e :: Live(t', e) <==> Live(t, e) || e == n
    requires forall e: nat :: Live(t, e) ==> Kept(t, live, t', live', e)
    ensures EntryPath(t', n) !in ViewOf(t, live)
    ensures ViewOf(t', live') == ViewOf(t, live)[EntryPath(t', n) := NodeOf(t'.entries[n], live')]
  {
    hide Inv, NodeOf, Kept, ViewOf, EntryPath, Live;
    var v, v', q := ViewOf(t, live), ViewOf(t', live'), EntryPath(t', n);
    EntryAtIs(t', n);
    if q in v { SameNode(t, live, t', live', EntryAt(t, q)); }
    forall p | p != q
      ensures p in v' <==> p in v
      ensures p in v ==> p in v' && v'[p] == v[p]
    {
      OtherPath(t, live, t', live', n, p);
    }
    PutOne(v, v', q);
  }

  lemma ViewAfterDrop(t: Tables, live: map<nat, seq<byte>>, t': Tables, live': map<nat, seq<byte>>, n: nat)
    requires Inv(t) && Inv(t') && Live(t, n) && n < |t.entries|
    requires forall e :: Live(t', e) <==> Live(t, e) && e != n
    requires forall e: nat :: Live(t', e) ==> Kept(t, live, t', live', e)
    ensures EntryPath(t, n) in ViewOf(t, live)
    ensures ViewOf(t', live') == ViewOf(t, live) - {EntryPath(t, n)}
  {
    hide Inv, ViewOf, NodeOf;
    forall e: nat | Live(t', e)
      ensures Kept(t', live', t, live, e)
    {
      assert Kept(t, live, t', live', e);
    }
    ViewAfterInsert(t', live', t, live, n);
    var q, node := EntryPath(t, n), NodeOf(t.entries[n], live);
    assert ViewOf(t', live')[q := node] - {q} == ViewOf(t', live');
  }

  lemma ViewAfterSetData(t: Tables, live: map<nat, seq<byte>>, t': Tables, live': map<nat, seq<byte>>, n: nat)
    requires Inv(t) && Inv(t') && Live(t, n) && Live(t', n) && n < |t.entries| && n < |t'.entries|
    requires EntryPath(t', n) == EntryPath(t, n)
    requires forall e :: Live(t', e) <==> Live(t, e)
    requires forall e: nat :: Live(t, e) && e != n ==> Kept(t, live, t', live', e)
    ensures EntryPath(t, n) in ViewOf(t, live)
    ensures ViewOf(t', live') == ViewOf(t, live)[EntryPath(t, n) := NodeOf(t'.entries[n], live')]
  {
    hide Inv, NodeOf, Kept, ViewOf, EntryPath, Live;
    var v, v', q := ViewOf(t, live), ViewOf(t', live'), EntryPath(t, n);
    EntryAtIs(t, n);
    EntryAtIs(t', n);
    forall p | p != q
      ensures p in v' <==> p in v
      ensures p in v ==> p in v' && v'[p] == v[p]
    {
      OtherPath(t, live, t', live', n, p);
    }
    PutOne(v, v', q);
  }

  /** The directory that `p` would be in is there; the root always is. */
  ghost predicate HasParent(v: View, p: seq<string>)
  {
    p != [] && (Front(p) == [] || (Front(p) in v && v[Front(p)] == Folder))
  }

  lemma CreatableHasParent(t: Tables, live: map<nat, seq<byte>>, p: seq<string>)
    requires Inv(t) && Creatable(t, p)
    ensures HasParent(ViewOf(t, live), p) && p !in ViewOf(t, live)
  {
    var d := DirAt(t, Front(p));
    if Front(p) != [] {
      DirFacts(t, d);
      var e :| Halves(t, d, e) && e in t.dirs[t.dirs[d].parent].files;
      EntryAtIs(t, e);
    }
  }

  /** What is directly in the directory at `d`. */
  ghost function Children(v: View, d: seq<string>): set<seq<string>> { set q | q in v && q != [] && Front(q) == d }

  lemma {:induction false} PathsOfList(t: Tables, fs: seq<nat>) returns (ps: set<seq<string>>)
    requires Inv(t) && NoDuplicates(fs) && forall e :: e in fs ==> Live(t, e)
    ensures |ps| == |fs| && forall q :: q in ps <==> exists e :: e in fs && e < |t.entries| && EntryPath(t, e) == q
  {
    hide Inv, EntryPath;
    if fs == [] {
      ps := {};
    } else {
      var front, last := fs[..|fs| - 1], fs[|fs| - 1];
      assert forall e :: e in fs <==> e in front || e == last;
      ps := PathsOfList(t, front);
      assert Live(t, last);
      if EntryPath(t, last) in ps {
        var e :| e in front && e < |t.entries| && EntryPath(t, e) == EntryPath(t, last);
        EntryPathInjective(t, e, last);
        assert false;
      }
      ps := ps + {EntryPath(t, last)};
    }
  }

  /** A directory's list has as many entries as there is directly in the directory. */
  lemma ListCounts(t: Tables, live: map<nat, seq<byte>>, d: nat)
    requires Inv(t) && LiveDir(t, d)
    ensures |Children(ViewOf(t, live), DirPath(t, d))| == |t.dirs[d].files|
  {
    hide NodeOf, DirPath, ViewOf;
    assert DirOk(t, d);
    var v := ViewOf(t, live);
    var ps := PathsOfList(t, t.dirs[d].files);
    forall q
      ensures q in ps <==> q in Children(v, DirPath(t, d))
    {
      if q in ps {
        var e :| e in t.dirs[d].files && e < |t.entries| && EntryPath(t, e) == q;
        EntryAtIs(t, e);
        assert Front(q) == DirPath(t, t.entries[e].parent);
      }
      if q in Children(v, DirPath(t, d)) {
        var e := EntryAt(t, q);
        EntryFacts(t, e);
        assert Front(q) == DirPath(t, t.entries[e].parent);
        DirPathInjective(t, d, t.entries[e].parent);
      }
    }
    assert ps == Children(v, DirPath(t, d));
  }

  /**
   * Something can be created exactly where nothing is yet, in the root or in a directory that is there and has
   * fewer than 64 things in it.
   */
  lemma CreatableMeans(t: Tables, live: map<nat, seq<byte>>, p: seq<string>)
    requires Inv(t)
    ensures var v := ViewOf(t, live);
      Creatable(t, p) <==>
        && p != [] && p !in v && (|p| == 1 || (p[..|p| - 1] in v && v[p[..|p| - 1]] == Folder))
        && |Children(v, p[..|p| - 1])| < 64
  {
    hide Inv, NodeOf, EntryPath, DirPath, ViewOf, Children;
    var v := ViewOf(t, live);
    if Creatable(t, p) { CreatableHasParent(t, live, p); }
    if HasParent(v, p) {
      ParentIsThere(t, live, p);
      ListCounts(t, live, DirAt(t, Front(p)));
    }
  }

  lemma ParentIsThere(t: Tables, live: map<nat, seq<byte>>, p: seq<string>)
    requires Inv(t) && HasParent(ViewOf(t, live), p)
    ensures DirAt(t, Front(p)) >= 0
  {
    hide Inv, EntryPath, DirPath, ViewOf;
    if Front(p) == [] {
      RootIsThere(t);
    } else {
      var e := EntryAt(t, Front(p));
      var d := RecordOf(t, e);
      EmptyDir(t, live, e, d);
      DirAtIs(t, d);
    }
  }

  /** Something is at `p`, and if it is a directory, nothing is in it. */
  ghost predicate Deletable(v: View, p: seq<string>)
  {
    p in v && (v[p] == Folder ==> forall q :: q in v ==> Front(q) != p)
  }

  /** A directory can be deleted iff its record's list is empty. */
  lemma EmptyDirDeletable(t: Tables, live: map<nat, seq<byte>>, e: nat, d: nat)
    requires Inv(t) && Halves(t, d, e)
    ensures Deletable(ViewOf(t, live), EntryPath(t, e)) <==> t.dirs[d].files == []
  {
    hide Inv, EntryPath, DirPath;
    EntryFacts(t, e);
    EntryAtIs(t, e);
    EmptyDir(t, live, e, d);
  }

  ghost predicate Writable(v: View, p: seq<string>) { p in v && v[p] != Folder }

  /** What is left of a file when its block is freed. */
  function Spilled(n: Node): Node { if n.File? && n.bytes != [] then Lost(|n.bytes|) else n }

  /** What a write of `data` to the file at `p` does to the tree, the result being `r`. */
  ghost predicate Written(v: View, v': View, p: seq<string>, data: seq<byte>, r: int)
  {
    && Writable(v, p)
    && (r == 0 ==> v' == v[p := File(data)])
    && (r != 0 ==> v' == v[p := Spilled(v[p])])
    && (v[p].File? && |v[p].bytes| == |data| > 0 ==> r == 0)
  }

  /** What reading up to `size` bytes from the start of a file gives. */
  function ReadBytes(n: Node, size: nat): seq<byte>
  {
    if !n.File? then [] else if size < |n.bytes| then n.bytes[..size] else n.bytes
  }

  /** The tree when the file at `p` has given up a block that is not for `size` bytes; `own` is what it has now. */
  ghost predicate Released(v: View, v': View, p: seq<string>, size: nat, own: nat)
  {
    && Writable(v, p)
    && v' == (if own == 0 then v[p := Spilled(v[p])] else v)
    && (v[p].File? && |v[p].bytes| == size > 0 ==> own != 0)
  }

  lemma ReleasedIsPrepared(v: View, v': View, p: seq<string>, size: nat, own: nat, ptr: nat)
    requires Released(v, v', p, size, own) && (own != 0 ==> ptr == own)
    ensures Prepared(v, v', p, size, ptr)
  {}

  /** Copying to `d`; the copy of a file without its contents has whatever is in the block it gets. */
  ghost predicate Copied(v: View, v': View, s: seq<string>, d: seq<string>)
  {
    && Writable(v, s) && d !in v
    && (v[s].File? ==> v' == v[d := v[s]])
    && (v[s].Lost? ==> NewFile(v, v', d, v[s].size))
  }

  /** A file can be deleted, and written with as many bytes as it has. */
  lemma FileStands(v: View, p: seq<string>)
    requires p in v && v[p].File?
    ensures Deletable(v, p) && Writable(v, p)
    ensures forall v', data, r :: Written(v, v', p, data, r) && |data| == |v[p].bytes| > 0 ==>
      r == 0 && v' == v[p := File(data)]
  {}

  /** A file made with the source's size is then given the source's bytes, or is deleted again. */
  lemma CopyDone(v: View, v1: View, v2: View, s: seq<string>, d: seq<string>, r: int)
    requires Writable(v, s) && v[s].File? && NewFile(v, v1, d, |v[s].bytes|)
    requires if r == 0 then v2 == v1[d := v[s]] else v2 == v1 - {d}
    ensures if r == 0 then Copied(v, v2, s, d) else v2 == v
  {}

  lemma CopyOfNothing(v: View, v1: View, s: seq<string>, d: seq<string>, size: nat)
    requires Writable(v, s) && NewFile(v, v1, d, size)
    requires if v[s].File? then v[s].bytes == [] && size == 0 else v[s] == Lost(size)
    ensures Copied(v, v1, s, d)
  {}

  lemma CopiedFacts(v: View, v': View, s: seq<string>, d: seq<string>)
    requires Copied(v, v', s, d)
    ensures s != d && Deletable(v', s) && Writable(v', d)
  {}

  lemma NewFileFacts(v: View, v': View, d: seq<string>, size: nat)
    requires NewFile(v, v', d, size)
    ensures d !in v && Writable(v', d) && Deletable(v', d) && v'[d].File? && |v'[d].bytes| == size
    ensures forall p :: p in v ==> p in v' && p != d && v'[p] == v[p]
  {}

  /** The tree has got a file of `size` bytes at `p`; what is in it is not said. */
  ghost predicate NewFile(v: View, v': View, p: seq<string>, size: nat)
  {
    p !in v && exists bytes :: |bytes| == size && v' == v[p := File(bytes)]
  }

  /** The tree while a file is being given a block for `size` bytes; `ptr` is NULL if there is none. */
  ghost predicate Prepared(v: View, v': View, p: seq<string>, size: nat, ptr: nat)
  {
    && Writable(v, p)
    && (v' == v[p := Spilled(v[p])] || (ptr != 0 && v' == v))
    && (v[p].File? && |v[p].bytes| == size > 0 ==> ptr != 0)
  }

  lemma PreparedIsWritten(v: View, v1: View, p: seq<string>, data: seq<byte>, ptr: nat)
    requires Prepared(v, v1, p, |data|, ptr)
    ensures if ptr == 0 then Written(v, v1, p, data, -1) else Written(v, v1[p := File(data)], p, data, 0)
  {}

  /** The view is a tree: whatever is above a path in it is a directory. */
  lemma ViewIsTree(t: Tables, live: map<nat, seq<byte>>, p: seq<string>)
    requires Inv(t) && p in ViewOf(t, live)
    ensures HasParent(ViewOf(t, live), p)
  {
    var e := EntryAt(t, p);
    EntryFacts(t, e);
    var d := t.entries[e].parent;
    assert Front(p) == DirPath(t, d);
    if |p| > 1 {
      DirFacts(t, d);
      var f :| Halves(t, d, f) && f in t.dirs[t.dirs[d].parent].files;
      EntryAtIs(t, f);
    }
  }
}
