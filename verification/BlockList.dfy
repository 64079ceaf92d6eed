/**
 * The block list that a header chain lays over one range of memory, and what splitting, joining, taking
 * and releasing a block do to it. Shared by the two allocators; `h` is the size of a header.
 */
module BlockList {
  import opened Memory

  datatype Block = Block(addr: nat, size: nat, free: bool)

  function End(b: Block, h: nat): nat { b.addr + h + b.size }

  /** `b` lies behind `a`; right behind it if they are neighbours. */
  predicate Behind(a: Block, b: Block, h: nat, neighbours: bool)
  {
    End(a, h) <= b.addr && (neighbours ==> End(a, h) == b.addr)
  }

  predicate Within(b: Block, h: nat, lo: nat, hi: nat) { lo <= b.addr && End(b, h) <= hi }

  /** The blocks fill `lo..hi` in address order, without gap or overlap. */
  ghost predicate Tiled(bs: seq<Block>, h: nat, lo: nat, hi: nat)
  {
    && h > 0 && |bs| > 0 && bs[0].addr == lo && End(bs[|bs| - 1], h) == hi
    && (forall i, j :: 0 <= i < j < |bs| ==> Behind(bs[i], bs[j], h, j == i + 1))
    && (forall i :: 0 <= i < |bs| ==> Within(bs[i], h, lo, hi))
  }

  /** The bytes accounted for by a list of blocks, headers included. */
  function TotalBytes(bs: seq<Block>, h: nat): nat
  {
    if bs == [] then 0 else TotalBytes(bs[..|bs| - 1], h) + h + bs[|bs| - 1].size
  }

  /** Tiling implies conservation: no byte is lost and none is counted twice. */
  lemma {:induction false} TiledConserves(bs: seq<Block>, h: nat, lo: nat, hi: nat)
    requires Tiled(bs, h, lo, hi)
    ensures TotalBytes(bs, h) == hi - lo
  {
    if |bs| == 1 {
      assert bs[..0] == [];
      assert TotalBytes(bs[..0], h) == 0;
    } else {
      var front := bs[..|bs| - 1];
      assert Behind(bs[|bs| - 2], bs[|bs| - 1], h, true);
      forall i | 0 <= i < |front|
        ensures Within(front[i], h, lo, bs[|bs| - 1].addr)
      {
        assert Behind(bs[i], bs[|bs| - 1], h, i + 1 == |bs| - 1);
      }
      TiledConserves(front, h, lo, bs[|bs| - 1].addr);
    }
  }

  // ----- What the clients see -----

  /** The pointer handed out for a block: the address behind its header. */
  function Ptr(b: Block, h: nat): nat { b.addr + h }

  ghost predicate Live(bs: seq<Block>, h: nat, p: nat)
  {
    exists i :: 0 <= i < |bs| && !bs[i].free && Ptr(bs[i], h) == p
  }

  ghost function IndexOf(bs: seq<Block>, h: nat, p: nat): (i: nat)
    requires Live(bs, h, p)
    ensures i < |bs| && !bs[i].free && Ptr(bs[i], h) == p
  {
    var i :| 0 <= i < |bs| && !bs[i].free && Ptr(bs[i], h) == p;
    i
  }

  lemma DistinctAddresses(bs: seq<Block>, h: nat, lo: nat, hi: nat, i: nat, j: nat)
    requires Tiled(bs, h, lo, hi) && i < |bs| && j < |bs|
    ensures bs[i].addr == bs[j].addr <==> i == j
  {
    if i < j { assert Behind(bs[i], bs[j], h, j == i + 1); }
    if j < i { assert Behind(bs[j], bs[i], h, i == j + 1); }
  }

  lemma IndexUnique(bs: seq<Block>, h: nat, lo: nat, hi: nat, i: nat)
    requires Tiled(bs, h, lo, hi) && i < |bs| && !bs[i].free
    ensures Live(bs, h, Ptr(bs[i], h)) && IndexOf(bs, h, Ptr(bs[i], h)) == i
  {
    assert Live(bs, h, Ptr(bs[i], h));
    DistinctAddresses(bs, h, lo, hi, i, IndexOf(bs, h, Ptr(bs[i], h)));
  }

  ghost function LivePtrs(bs: seq<Block>, h: nat): (s: set<nat>)
    ensures forall p :: p in s <==> Live(bs, h, p)
  {
    set i | 0 <= i < |bs| && !bs[i].free :: Ptr(bs[i], h)
  }

  /** Every live pointer with all the bytes it gives access to. */
  ghost function Contents(m: seq<byte>, bs: seq<Block>, h: nat): (c: map<nat, seq<byte>>)
    requires forall i :: 0 <= i < |bs| ==> End(bs[i], h) <= |m|
    ensures c.Keys == LivePtrs(bs, h)
  {
    map p | p in LivePtrs(bs, h) :: Payload(m, bs[IndexOf(bs, h, p)], h)
  }

  function Payload(m: seq<byte>, b: Block, h: nat): (s: seq<byte>)
    requires End(b, h) <= |m|
    ensures |s| == b.size
  {
    m[Ptr(b, h)..End(b, h)]
  }

  lemma ContentsAt(m: seq<byte>, bs: seq<Block>, h: nat, lo: nat, hi: nat, i: nat)
    requires Tiled(bs, h, lo, hi) && hi <= |m| && i < |bs| && !bs[i].free
    ensures Ptr(bs[i], h) in Contents(m, bs, h)
    ensures Contents(m, bs, h)[Ptr(bs[i], h)] == Payload(m, bs[i], h)
  {
    IndexUnique(bs, h, lo, hi, i);
  }

  /** Different live pointers give access to disjoint ranges inside the heap. */
  lemma PayloadsDisjoint(m: seq<byte>, bs: seq<Block>, h: nat, lo: nat, hi: nat, p: nat, q: nat)
    requires Tiled(bs, h, lo, hi) && hi <= |m|
    requires p in Contents(m, bs, h) && q in Contents(m, bs, h) && p != q
    ensures var c := Contents(m, bs, h);
      && lo + h <= p && p + |c[p]| <= hi
      && (p + |c[p]| + h <= q || q + |c[q]| + h <= p)
  {
    var i, j := IndexOf(bs, h, p), IndexOf(bs, h, q);
    ContentsAt(m, bs, h, lo, hi, i);
    ContentsAt(m, bs, h, lo, hi, j);
    if i < j { assert Behind(bs[i], bs[j], h, j == i + 1); } else { assert Behind(bs[j], bs[i], h, i == j + 1); }
  }

  /** The contents depend on the live payloads only. */
  ghost predicate SamePayloads(m: seq<byte>, m': seq<byte>, bs: seq<Block>, h: nat)
  {
    |m| == |m'| && forall i :: 0 <= i < |bs| && !bs[i].free ==> Same(m, m', Ptr(bs[i], h), End(bs[i], h))
  }

  lemma ContentsFrame(m: seq<byte>, m': seq<byte>, bs: seq<Block>, h: nat)
    requires forall i :: 0 <= i < |bs| ==> End(bs[i], h) <= |m|
    requires SamePayloads(m, m', bs, h)
    ensures Contents(m', bs, h) == Contents(m, bs, h)
  {
    forall p | p in LivePtrs(bs, h)
      ensures Contents(m', bs, h)[p] == Contents(m, bs, h)[p]
    {
      var b := bs[IndexOf(bs, h, p)];
      assert Same(m, m', Ptr(b, h), End(b, h));
      assert Payload(m', b, h) == Payload(m, b, h);
    }
  }

  lemma LiveTransfers(bs: seq<Block>, bs': seq<Block>, h: nat, lo: nat, hi: nat, p: nat)
    requires Tiled(bs', h, lo, hi) && Live(bs, h, p)
    requires bs[IndexOf(bs, h, p)] in bs'
    ensures Live(bs', h, p) && bs'[IndexOf(bs', h, p)] == bs[IndexOf(bs, h, p)]
  {
    var b := bs[IndexOf(bs, h, p)];
    var j :| 0 <= j < |bs'| && bs'[j] == b;
    IndexUnique(bs', h, lo, hi, j);
  }

  /** Two lists with the same live blocks have the same contents. */
  lemma ContentsDependOnLive(m: seq<byte>, bs: seq<Block>, bs': seq<Block>, h: nat, lo: nat, hi: nat)
    requires Tiled(bs, h, lo, hi) && Tiled(bs', h, lo, hi) && hi <= |m|
    requires forall b: Block :: !b.free ==> (b in bs <==> b in bs')
    ensures Contents(m, bs', h) == Contents(m, bs, h)
  {
    hide Tiled, Live;
    InBounds(bs, h, lo, hi);
    InBounds(bs', h, lo, hi);
    forall p
      ensures p in LivePtrs(bs, h) <==> p in LivePtrs(bs', h)
      ensures p in LivePtrs(bs, h) ==> bs'[IndexOf(bs', h, p)] == bs[IndexOf(bs, h, p)]
    {
      if p in LivePtrs(bs, h) { LiveTransfers(bs, bs', h, lo, hi, p); }
      if p in LivePtrs(bs', h) { LiveTransfers(bs', bs, h, lo, hi, p); }
    }
    assert LivePtrs(bs, h) == LivePtrs(bs', h);
  }

  lemma InBounds(bs: seq<Block>, h: nat, lo: nat, hi: nat)
    requires Tiled(bs, h, lo, hi)
    ensures forall i :: 0 <= i < |bs| ==> End(bs[i], h) <= hi
  {}

  predicate Fits(b: Block, n: nat) { b.free && b.size >= n }

  function AddrAt(bs: seq<Block>, i: nat): nat { if i < |bs| then bs[i].addr else 0 }

  ghost predicate NoFreeNeighbours(bs: seq<Block>)
  {
    forall i, j :: 0 <= i && j == i + 1 < |bs| ==> !(bs[i].free && bs[j].free)
  }

  /** `p` is the only new pointer, it has at least `n` bytes below `hi`, and no other payload changed. */
  ghost predicate Granted(c: map<nat, seq<byte>>, c': map<nat, seq<byte>>, p: nat, n: nat, hi: nat)
  {
    p !in c && p in c' && c' - {p} == c && |c'[p]| >= n && p + |c'[p]| <= hi
  }

  /** What realloc may make of the contents `c` when asked to resize `ptr` to `size` bytes. */
  ghost predicate Resized(c: map<nat, seq<byte>>, c': map<nat, seq<byte>>, ptr: nat, p: nat, size: nat)
    requires ptr in c
  {
    || (p == 0 && c' == c)
    || (p == ptr && c' == c && size <= |c[ptr]|)
    || (p != ptr && p !in c && p in c' && c' - {p} == c - {ptr}
        && size <= |c'[p]| && |c[ptr]| <= |c'[p]| && c'[p][..|c[ptr]|] == c[ptr])
  }

  // ----- The four changes to the list -----

  /** Block `k` is cut down to `n` bytes; the rest becomes a free block of its own. */
  function Split(bs: seq<Block>, k: nat, n: nat, h: nat): seq<Block>
    requires k < |bs| && n + h <= bs[k].size
  {
    var b := bs[k];
    bs[..k] + [Block(b.addr, n, b.free), Block(b.addr + h + n, b.size - n - h, true)] + bs[k + 1..]
  }

  /** Block `k` swallows its successor. */
  function Join(bs: seq<Block>, k: nat, h: nat): seq<Block>
    requires k + 1 < |bs|
  {
    bs[..k] + [Block(bs[k].addr, bs[k].size + h + bs[k + 1].size, bs[k].free)] + bs[k + 2..]
  }

  function Take(bs: seq<Block>, k: nat): seq<Block>
    requires k < |bs|
  {
    bs[k := bs[k].(free := false)]
  }

  function Release(bs: seq<Block>, k: nat): seq<Block>
    requires k < |bs|
  {
    bs[k := bs[k].(free := true)]
  }

  lemma SplitElements(bs: seq<Block>, k: nat, n: nat, h: nat)
    requires k < |bs| && n + h <= bs[k].size
    ensures var r := Split(bs, k, n, h);
      && |r| == |bs| + 1 && r[k] == Block(bs[k].addr, n, bs[k].free)
      && r[k + 1] == Block(bs[k].addr + h + n, bs[k].size - n - h, true)
      && (forall i :: 0 <= i < k ==> r[i] == bs[i]) && forall i :: k + 1 < i < |r| ==> r[i] == bs[i - 1]
  {}

  lemma SplitTiled(bs: seq<Block>, k: nat, n: nat, h: nat, lo: nat, hi: nat)
    requires Tiled(bs, h, lo, hi) && k < |bs| && n + h <= bs[k].size
    ensures Tiled(Split(bs, k, n, h), h, lo, hi)
  {
    hide Split;
    var r := Split(bs, k, n, h);
    SplitElements(bs, k, n, h);
    forall i, j | 0 <= i < j < |r|
      ensures Behind(r[i], r[j], h, j == i + 1)
    {
      var i', j' := if i <= k then i else i - 1, if j <= k then j else j - 1;
      assert i' < j' ==> Behind(bs[i'], bs[j'], h, j' == i' + 1);
    }
    forall i | 0 <= i < |r|
      ensures Within(r[i], h, lo, hi)
    {
      assert Within(bs[if i <= k then i else i - 1], h, lo, hi);
    }
  }

  lemma JoinTiled(bs: seq<Block>, k: nat, h: nat, lo: nat, hi: nat)
    requires Tiled(bs, h, lo, hi) && k + 1 < |bs|
    ensures Tiled(Join(bs, k, h), h, lo, hi)
  {
    var r := Join(bs, k, h);
    assert r[..k] == bs[..k] && r[k + 1..] == bs[k + 2..];
    assert Behind(bs[k], bs[k + 1], h, true);
    forall i, j | 0 <= i < j < |r|
      ensures Behind(r[i], r[j], h, j == i + 1)
    {
      var i', j' := if i < k then i else i + 1, if j <= k then j else j + 1;
      assert Behind(bs[i'], bs[j'], h, j' == i' + 1);
    }
    forall i | 0 <= i < |r|
      ensures Within(r[i], h, lo, hi)
    {
      assert Within(bs[if i < k then i else i + 1], h, lo, hi);
      assert Within(bs[k], h, lo, hi);
    }
  }

  lemma SplitContents(m: seq<byte>, bs: seq<Block>, k: nat, n: nat, h: nat, lo: nat, hi: nat)
    requires Tiled(bs, h, lo, hi) && hi <= |m| && k < |bs| && n + h <= bs[k].size && bs[k].free
    ensures Tiled(Split(bs, k, n, h), h, lo, hi)
    ensures Contents(m, Split(bs, k, n, h), h) == Contents(m, bs, h)
  {
    SplitTiled(bs, k, n, h, lo, hi);
    var r := Split(bs, k, n, h);
    forall b: Block | !b.free
      ensures b in bs <==> b in r
    {
      assert bs == bs[..k] + [bs[k]] + bs[k + 1..];
    }
    ContentsDependOnLive(m, bs, r, h, lo, hi);
  }

  lemma JoinContents(m: seq<byte>, bs: seq<Block>, k: nat, h: nat, lo: nat, hi: nat)
    requires Tiled(bs, h, lo, hi) && hi <= |m| && k + 1 < |bs| && bs[k].free && bs[k + 1].free
    ensures Tiled(Join(bs, k, h), h, lo, hi)
    ensures Contents(m, Join(bs, k, h), h) == Contents(m, bs, h)
  {
    JoinTiled(bs, k, h, lo, hi);
    var r := Join(bs, k, h);
    forall b: Block | !b.free
      ensures b in bs <==> b in r
    {
      assert bs == bs[..k] + [bs[k], bs[k + 1]] + bs[k + 2..];
    }
    ContentsDependOnLive(m, bs, r, h, lo, hi);
  }

  lemma TakeTiled(bs: seq<Block>, k: nat, free: bool, h: nat, lo: nat, hi: nat)
    requires Tiled(bs, h, lo, hi) && k < |bs|
    ensures Tiled(bs[k := bs[k].(free := free)], h, lo, hi)
  {
    var r := bs[k := bs[k].(free := free)];
    forall i, j | 0 <= i < j < |r|
      ensures Behind(r[i], r[j], h, j == i + 1)
    {
      assert Behind(bs[i], bs[j], h, j == i + 1);
    }
    forall i | 0 <= i < |r|
      ensures Within(r[i], h, lo, hi)
    {
      assert Within(bs[i], h, lo, hi);
    }
  }

  lemma FreeIsNotLive(bs: seq<Block>, h: nat, lo: nat, hi: nat, k: nat)
    requires Tiled(bs, h, lo, hi) && k < |bs| && bs[k].free
    ensures !Live(bs, h, Ptr(bs[k], h))
  {
    if Live(bs, h, Ptr(bs[k], h)) {
      DistinctAddresses(bs, h, lo, hi, k, IndexOf(bs, h, Ptr(bs[k], h)));
    }
  }

  lemma TakeContents(m: seq<byte>, bs: seq<Block>, k: nat, h: nat, lo: nat, hi: nat)
    requires Tiled(bs, h, lo, hi) && hi <= |m| && k < |bs| && bs[k].free
    ensures Tiled(Take(bs, k), h, lo, hi)
    ensures Ptr(bs[k], h) !in Contents(m, bs, h)
    ensures Contents(m, Take(bs, k), h) == Contents(m, bs, h)[Ptr(bs[k], h) := Payload(m, bs[k], h)]
  {
    hide Tiled, Live;
    var r, p := Take(bs, k), Ptr(bs[k], h);
    TakeTiled(bs, k, false, h, lo, hi);
    FreeIsNotLive(bs, h, lo, hi, k);
    IndexUnique(r, h, lo, hi, k);
    SameOthers(bs, r, k, h, lo, hi);
    InBounds(bs, h, lo, hi);
    InBounds(r, h, lo, hi);
    var c, c' := Contents(m, bs, h), Contents(m, r, h);
    forall q
      ensures q in c' <==> q == p || q in c
      ensures q in c ==> c'[q] == c[q]
    {}
    MapExtended(c, c', p);
  }

  lemma MapExtended(c: map<nat, seq<byte>>, c': map<nat, seq<byte>>, p: nat)
    requires p !in c && forall q :: q in c' <==> q == p || q in c
    requires forall q :: q in c ==> c'[q] == c[q]
    ensures c' == c[p := c'[p]] && c' - {p} == c
  {}

  lemma ReleaseContents(m: seq<byte>, bs: seq<Block>, k: nat, h: nat, lo: nat, hi: nat)
    requires Tiled(bs, h, lo, hi) && hi <= |m| && k < |bs| && !bs[k].free
    ensures Tiled(Release(bs, k), h, lo, hi)
    ensures Ptr(bs[k], h) in Contents(m, bs, h)
    ensures Contents(m, Release(bs, k), h) == Contents(m, bs, h) - {Ptr(bs[k], h)}
  {
    hide Tiled, Live, Contents;
    var r, p := Release(bs, k), Ptr(bs[k], h);
    TakeTiled(bs, k, true, h, lo, hi);
    assert Take(r, k) == bs;
    TakeContents(m, r, k, h, lo, hi);
    InBounds(bs, h, lo, hi);
    InBounds(r, h, lo, hi);
    var c, c' := Contents(m, r, h), Contents(m, bs, h);
    MapExtended(c, c', p);
  }

  lemma SameOthers(bs: seq<Block>, r: seq<Block>, k: nat, h: nat, lo: nat, hi: nat)
    requires Tiled(bs, h, lo, hi) && Tiled(r, h, lo, hi)
    requires k < |bs| == |r| && bs[k].free && r == bs[k := bs[k].(free := false)]
    ensures forall p :: p != Ptr(bs[k], h) ==> (Live(bs, h, p) <==> Live(r, h, p))
    ensures forall p :: p != Ptr(bs[k], h) && Live(bs, h, p) ==> r[IndexOf(r, h, p)] == bs[IndexOf(bs, h, p)]
  {
    hide Tiled;
    forall p | p != Ptr(bs[k], h)
      ensures Live(bs, h, p) <==> Live(r, h, p)
      ensures Live(bs, h, p) ==> r[IndexOf(r, h, p)] == bs[IndexOf(bs, h, p)]
    {
      if Live(bs, h, p) { IndexUnique(r, h, lo, hi, IndexOf(bs, h, p)); }
      if Live(r, h, p) { IndexUnique(bs, h, lo, hi, IndexOf(r, h, p)); }
    }
  }

  /** Writing through a live pointer, within its bounds, changes that payload and no other. */
  lemma WriteContents(m: seq<byte>, bs: seq<Block>, h: nat, lo: nat, hi: nat, p: nat, data: seq<byte>)
    requires Tiled(bs, h, lo, hi) && hi <= |m|
    requires p in Contents(m, bs, h) && |data| <= |Contents(m, bs, h)[p]|
    ensures p + |data| <= hi
    ensures Contents(Blit(m, p, data), bs, h)
      == Contents(m, bs, h)[p := data + Contents(m, bs, h)[p][|data|..]]
  {
    hide Tiled;
    var k := IndexOf(bs, h, p);
    InBounds(bs, h, lo, hi);
    var c := Contents(m, bs, h);
    var d := c[p := data + c[p][|data|..]];
    var m' := Blit(m, p, data);
    forall q | q in LivePtrs(bs, h)
      ensures Payload(m', bs[IndexOf(bs, h, q)], h) == d[q]
    {
      WritePayload(m, bs, h, lo, hi, k, IndexOf(bs, h, q), data);
    }
  }

  lemma WritePayload(m: seq<byte>, bs: seq<Block>, h: nat, lo: nat, hi: nat, k: nat, i: nat, data: seq<byte>)
    requires Tiled(bs, h, lo, hi) && hi <= |m| && k < |bs| && i < |bs| && |data| <= bs[k].size
    ensures var m' := Blit(m, Ptr(bs[k], h), data);
      Payload(m', bs[i], h) ==
      if i == k then data + Payload(m, bs[k], h)[|data|..] else Payload(m, bs[i], h)
  {
    if i < k { assert Behind(bs[i], bs[k], h, k == i + 1); }
    if k < i { assert Behind(bs[k], bs[i], h, i == k + 1); }
  }
}
