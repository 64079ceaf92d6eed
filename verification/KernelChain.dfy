/** The doubly linked header chain of the kernel heap in memory (kernel/heap.c). */
module KernelChain {
  import opened Machine
  import opened Memory
  import opened BlockList
  import opened BestFit

  datatype Header = Header(size: int, free: int, magic: int, next: int, prev: int)

  function HeaderAt(m: seq<byte>, a: nat): Header
    requires a + HEADER <= |m|
  {
    Header(Load(m, a), Load(m, a + 4), Load(m, a + 8), Load(m, a + 12), Load(m, a + 16))
  }

  lemma HeaderSame(m: seq<byte>, m': seq<byte>, a: nat)
    requires a + HEADER <= |m| && Same(m, m', a, a + HEADER)
    ensures HeaderAt(m', a) == HeaderAt(m, a)
  {
    hide Load;
    LoadSame(m, m', a);
    LoadSame(m, m', a + 4);
    LoadSame(m, m', a + 8);
    LoadSame(m, m', a + 12);
    LoadSame(m, m', a + 16);
  }

  function PrevAddr(bs: seq<Block>, i: nat): nat
    requires i <= |bs|
  {
    if i > 0 then bs[i - 1].addr else 0
  }

  function HeaderOf(bs: seq<Block>, i: nat): Header
    requires i < |bs|
  {
    Header(bs[i].size, if bs[i].free then 1 else 0, if bs[i].free then MAGIC_FREE else MAGIC_ALLOCATED,
           AddrAt(bs, i + 1), PrevAddr(bs, i))
  }

  ghost predicate HeaderOk(m: seq<byte>, bs: seq<Block>, i: nat)
  {
    i < |bs| && bs[i].addr + HEADER <= |m| && HeaderAt(m, bs[i].addr) == HeaderOf(bs, i)
  }

  /**
   * The headers in memory lay out the blocks `bs`: `next` and `prev` mirror each other in address order and
   * the magic number says what the free flag says.
   */
  ghost predicate WellFormed(m: seq<byte>, bs: seq<Block>, lo: nat, hi: nat)
  {
    && Tiled(bs, HEADER, lo, hi) && hi <= |m|
    && (forall i :: 0 <= i < |bs| ==> HeaderOk(m, bs, i))
    && forall i :: 0 <= i < |bs| ==> End(bs[i], HEADER) <= hi
  }

  lemma CursorOk(m: seq<byte>, bs: seq<Block>, k: nat, lo: nat, hi: nat)
    requires WellFormed(m, bs, lo, hi) && k < |bs|
    ensures lo <= bs[k].addr && End(bs[k], HEADER) <= hi <= |m|
    ensures HeaderAt(m, bs[k].addr) == HeaderOf(bs, k)
  {
    assert HeaderOk(m, bs, k) && Within(bs[k], HEADER, lo, hi);
  }

  lemma CursorStart(m: seq<byte>, bs: seq<Block>, lo: nat, hi: nat)
    requires WellFormed(m, bs, lo, hi)
    ensures AddrAt(bs, 0) == lo
  {}

  lemma NullBehindTheLast(m: seq<byte>, bs: seq<Block>, k: nat, lo: nat, hi: nat)
    requires WellFormed(m, bs, lo, hi) && lo > 0 && k <= |bs|
    ensures AddrAt(bs, k) == 0 <==> k == |bs|
    ensures PrevAddr(bs, k) == 0 <==> k == 0
  {
    if k < |bs| { CursorOk(m, bs, k, lo, hi); }
    if k > 0 { CursorOk(m, bs, k - 1, lo, hi); }
  }

  lemma Neighbours(m: seq<byte>, bs: seq<Block>, k: nat, lo: nat, hi: nat)
    requires WellFormed(m, bs, lo, hi) && k + 1 < |bs|
    ensures End(bs[k], HEADER) == bs[k + 1].addr
  {
    assert Behind(bs[k], bs[k + 1], HEADER, true);
  }

  /** The end of the header behind block `k`, or of the heap if there is none. */
  function BehindHeader(bs: seq<Block>, k: nat, hi: nat): nat
  {
    if k < |bs| then bs[k].addr + HEADER else hi
  }

  /**
   * Blocks `k..k+a` of `bs` are replaced by blocks `k..k+b` of `r`. Only their headers and the one behind
   * them are rewritten; all others read as before.
   */
  lemma ChainRewritten(m: seq<byte>, m': seq<byte>, bs: seq<Block>, r: seq<Block>, k: nat, a: nat, b: nat,
                       lo: nat, hi: nat)
    requires WellFormed(m, bs, lo, hi) && |m'| == |m| && Tiled(r, HEADER, lo, hi)
    requires a > 0 && b > 0 && k + a <= |bs| && |r| + a == |bs| + b
    requires r[..k] == bs[..k] && r[k + b..] == bs[k + a..] && r[k].addr == bs[k].addr
    requires Same(m, m', 0, bs[k].addr) && Same(m, m', BehindHeader(bs, k + a, hi), |m|)
    requires forall i :: k <= i <= k + b && i < |r| ==> HeaderOk(m', r, i)
    ensures WellFormed(m', r, lo, hi)
  {
    InBounds(r, HEADER, lo, hi);
    forall i | 0 <= i < |r|
      ensures HeaderOk(m', r, i)
    {
      if i < k { HeaderBefore(m, m', bs, r, k, lo, hi, i); }
      if k + b < i { HeaderAfter(m, m', bs, r, k + a, k + b, lo, hi, i - k - b); }
    }
  }

  /** A header before the rewritten place is as it was. */
  lemma HeaderBefore(m: seq<byte>, m': seq<byte>, bs: seq<Block>, r: seq<Block>, k: nat, lo: nat, hi: nat, i: nat)
    requires WellFormed(m, bs, lo, hi) && |m'| == |m|
    requires i < k < |bs| && k < |r| && r[..k] == bs[..k] && r[k].addr == bs[k].addr && Same(m, m', 0, bs[k].addr)
    ensures HeaderOk(m', r, i)
  {
    hide Tiled;
    assert r[i] == bs[i] && AddrAt(r, i + 1) == AddrAt(bs, i + 1) && PrevAddr(r, i) == PrevAddr(bs, i);
    CursorOk(m, bs, i, lo, hi);
    InOrder(bs, lo, hi, i, k);
    HeaderSame(m, m', bs[i].addr);
  }

  /** So is a header behind it, other than the first there, which is number `x` now `y`. */
  lemma HeaderAfter(m: seq<byte>, m': seq<byte>, bs: seq<Block>, r: seq<Block>, x: nat, y: nat,
                    lo: nat, hi: nat, n: nat)
    requires WellFormed(m, bs, lo, hi) && |m'| == |m| && n > 0 && x <= |bs| && y <= |r|
    requires y + n < |r| && r[y..] == bs[x..] && Same(m, m', BehindHeader(bs, x, hi), |m|)
    ensures HeaderOk(m', r, y + n)
  {
    hide Tiled;
    var i, j := y + n, x + n;
    assert |bs| - x == |r| - y && r[i] == r[y..][n] == bs[x..][n] == bs[j];
    assert r[i - 1] == r[y..][n - 1] == bs[x..][n - 1] == bs[j - 1];
    if i + 1 < |r| { assert r[i + 1] == r[y..][n + 1] == bs[x..][n + 1] == bs[j + 1]; }
    CursorOk(m, bs, j, lo, hi);
    InOrder(bs, lo, hi, x, j);
    HeaderSame(m, m', bs[j].addr);
  }

  lemma InOrder(bs: seq<Block>, lo: nat, hi: nat, i: nat, j: nat)
    requires Tiled(bs, HEADER, lo, hi) && i < j < |bs|
    ensures End(bs[i], HEADER) <= bs[j].addr
  {
    assert Behind(bs[i], bs[j], HEADER, j == i + 1);
  }

  /** Rewriting the headers around free blocks leaves the live payloads alone. */
  lemma HeadersAreNotPayload(m: seq<byte>, m': seq<byte>, bs: seq<Block>, k: nat, a: nat, lo: nat, hi: nat)
    requires WellFormed(m, bs, lo, hi) && |m'| == |m| && k + a <= |bs| && k < |bs|
    requires forall i :: k <= i < k + a ==> bs[i].free
    requires Same(m, m', 0, bs[k].addr) && Same(m, m', BehindHeader(bs, k + a, hi), |m|)
    ensures Contents(m', bs, HEADER) == Contents(m, bs, HEADER)
    ensures Same(m, m', 0, lo) && Same(m, m', hi, |m|)
  {
    CursorOk(m, bs, k, lo, hi);
    if k + a < |bs| { CursorOk(m, bs, k + a, lo, hi); }
    forall i | 0 <= i < |bs| && !bs[i].free
      ensures Same(m, m', Ptr(bs[i], HEADER), End(bs[i], HEADER))
    {
      if i < k { assert Behind(bs[i], bs[k], HEADER, k == i + 1); }
      if k + a < i { assert Behind(bs[k + a], bs[i], HEADER, i == k + a + 1); }
    }
    ContentsFrame(m, m', bs, HEADER);
  }

  // ----- The four writes -----

  /** Rewriting the one header of block `k` leaves the live payloads and the header behind it alone. */
  lemma OneHeader(m: seq<byte>, m': seq<byte>, bs: seq<Block>, k: nat, lo: nat, hi: nat)
    requires WellFormed(m, bs, lo, hi) && |m'| == |m| && k < |bs|
    requires Same(m, m', 0, bs[k].addr) && Same(m, m', bs[k].addr + HEADER, |m|)
    ensures Contents(m', bs, HEADER) == Contents(m, bs, HEADER)
    ensures Same(m, m', 0, lo) && Same(m, m', hi, |m|) && Same(m, m', BehindHeader(bs, k + 1, hi), |m|)
    ensures k + 1 < |bs| ==> HeaderAt(m', bs[k + 1].addr) == HeaderOf(bs, k + 1)
  {
    CursorOk(m, bs, k, lo, hi);
    if k + 1 < |bs| {
      CursorOk(m, bs, k + 1, lo, hi);
      Neighbours(m, bs, k, lo, hi);
      HeaderSame(m, m', bs[k + 1].addr);
    }
    forall i | 0 <= i < |bs| && !bs[i].free
      ensures Same(m, m', Ptr(bs[i], HEADER), End(bs[i], HEADER))
    {
      if i < k { assert Behind(bs[i], bs[k], HEADER, k == i + 1); }
      if k < i { assert Behind(bs[k], bs[i], HEADER, i == k + 1); }
    }
    ContentsFrame(m, m', bs, HEADER);
  }

  /** The block under the cursor is marked used or free. */
  lemma MarkedBlock(m: seq<byte>, m': seq<byte>, bs: seq<Block>, k: nat, free: bool, lo: nat, hi: nat)
    requires WellFormed(m, bs, lo, hi) && |m'| == |m| && k < |bs| && bs[k].addr + HEADER <= |m|
    requires HeaderAt(m', bs[k].addr) == HeaderOf(bs[k := bs[k].(free := free)], k)
    requires Same(m, m', 0, bs[k].addr) && Same(m, m', bs[k].addr + HEADER, |m|)
    ensures WellFormed(m', bs[k := bs[k].(free := free)], lo, hi)
    ensures Same(m, m', 0, lo) && Same(m, m', hi, |m|)
    ensures Contents(m', bs, HEADER) == Contents(m, bs, HEADER)
  {
    hide HeaderAt, Contents, Same;
    var r := bs[k := bs[k].(free := free)];
    TakeTiled(bs, k, free, HEADER, lo, hi);
    OneHeader(m, m', bs, k, lo, hi);
    if k + 1 < |bs| {
      CursorOk(m, bs, k + 1, lo, hi);
      assert HeaderOk(m', r, k + 1);
    }
    ChainRewritten(m, m', bs, r, k, 1, 1, lo, hi);
  }

  /** The rest of a free block becomes a block of its own. */
  lemma SplitChain(m: seq<byte>, m': seq<byte>, bs: seq<Block>, k: nat, n: nat, lo: nat, hi: nat)
    requires WellFormed(m, bs, lo, hi) && |m'| == |m| && k < |bs| && bs[k].free && n + HEADER <= bs[k].size
    requires End(bs[k], HEADER) <= hi
    requires Same(m, m', 0, bs[k].addr) && Same(m, m', BehindHeader(bs, k + 1, hi), |m|)
    requires var r := Split(bs, k, n, HEADER);
      HeaderOk(m', r, k) && HeaderOk(m', r, k + 1) && (k + 2 < |r| ==> HeaderOk(m', r, k + 2))
    ensures WellFormed(m', Split(bs, k, n, HEADER), lo, hi)
    ensures Contents(m', Split(bs, k, n, HEADER), HEADER) == Contents(m, bs, HEADER)
    ensures Same(m, m', 0, lo) && Same(m, m', hi, |m|)
  {
    hide HeaderAt, HeaderOf, Contents, Tiled, Same;
    var r := Split(bs, k, n, HEADER);
    assert r[..k] == bs[..k] && r[k + 2..] == bs[k + 1..] && r[k].addr == bs[k].addr;
    assert |r| == |bs| + 1;
    HeadersAreNotPayload(m, m', bs, k, 1, lo, hi);
    SplitContents(m', bs, k, n, HEADER, lo, hi);
    ChainRewritten(m, m', bs, r, k, 1, 2, lo, hi);
  }

  /** The same, from the header fields as they are written. */
  lemma SplitWritten(m: seq<byte>, m': seq<byte>, bs: seq<Block>, k: nat, n: nat, lo: nat, hi: nat)
    requires WellFormed(m, bs, lo, hi) && |m'| == |m| && k < |bs| && bs[k].free && n + HEADER <= bs[k].size
    requires End(bs[k], HEADER) <= hi <= |m|
    requires Same(m, m', 0, bs[k].addr) && Same(m, m', BehindHeader(bs, k + 1, hi), |m|)
    requires HeaderAt(m', bs[k].addr) == HeaderOf(bs, k).(size := n, next := bs[k].addr + HEADER + n)
    requires HeaderAt(m', bs[k].addr + HEADER + n)
      == Header(bs[k].size - n - HEADER, 1, MAGIC_FREE, AddrAt(bs, k + 1), bs[k].addr)
    requires k + 1 < |bs| ==> bs[k + 1].addr + HEADER <= |m|
    requires k + 1 < |bs| ==> HeaderAt(m', bs[k + 1].addr) == HeaderOf(bs, k + 1).(prev := bs[k].addr + HEADER + n)
    ensures WellFormed(m', Split(bs, k, n, HEADER), lo, hi)
    ensures Contents(m', Split(bs, k, n, HEADER), HEADER) == Contents(m, bs, HEADER)
    ensures Same(m, m', 0, lo) && Same(m, m', hi, |m|)
  {
    hide HeaderAt, Contents, Same, WellFormed;
    var r := Split(bs, k, n, HEADER);
    assert forall i :: 0 <= i < |r| ==> r[i] == (if i < k then bs[i] else if i == k then Block(bs[k].addr, n, true)
      else if i == k + 1 then Block(bs[k].addr + HEADER + n, bs[k].size - n - HEADER, true) else bs[i - 1]);
    SplitChain(m, m', bs, k, n, lo, hi);
  }

  /** A free block swallows its free successor. */
  lemma JoinChain(m: seq<byte>, m': seq<byte>, bs: seq<Block>, k: nat, lo: nat, hi: nat)
    requires WellFormed(m, bs, lo, hi) && |m'| == |m| && k + 1 < |bs| && bs[k].free && bs[k + 1].free
    requires Same(m, m', 0, bs[k].addr) && Same(m, m', BehindHeader(bs, k + 2, hi), |m|)
    requires var r := Join(bs, k, HEADER);
      HeaderOk(m', r, k) && (k + 1 < |r| ==> HeaderOk(m', r, k + 1))
    ensures WellFormed(m', Join(bs, k, HEADER), lo, hi)
    ensures Contents(m', Join(bs, k, HEADER), HEADER) == Contents(m, bs, HEADER)
    ensures Same(m, m', 0, lo) && Same(m, m', hi, |m|)
  {
    hide HeaderAt, HeaderOf, Contents, Tiled, Same;
    var r := Join(bs, k, HEADER);
    assert r[..k] == bs[..k] && r[k + 1..] == bs[k + 2..];
    HeadersAreNotPayload(m, m', bs, k, 2, lo, hi);
    JoinContents(m', bs, k, HEADER, lo, hi);
    ChainRewritten(m, m', bs, r, k, 2, 1, lo, hi);
  }

  /** The same, from the header fields as they are written. */
  lemma JoinWritten(m: seq<byte>, m': seq<byte>, bs: seq<Block>, k: nat, lo: nat, hi: nat)
    requires WellFormed(m, bs, lo, hi) && |m'| == |m| && k + 1 < |bs| && bs[k].free && bs[k + 1].free
    requires bs[k].addr + HEADER <= |m|
    requires Same(m, m', 0, bs[k].addr) && Same(m, m', BehindHeader(bs, k + 2, hi), |m|)
    requires HeaderAt(m', bs[k].addr)
      == HeaderOf(bs, k).(size := bs[k].size + HEADER + bs[k + 1].size, next := AddrAt(bs, k + 2))
    requires k + 2 < |bs| ==> bs[k + 2].addr + HEADER <= |m|
    requires k + 2 < |bs| ==> HeaderAt(m', bs[k + 2].addr) == HeaderOf(bs, k + 2).(prev := bs[k].addr)
    ensures WellFormed(m', Join(bs, k, HEADER), lo, hi)
    ensures Contents(m', Join(bs, k, HEADER), HEADER) == Contents(m, bs, HEADER)
    ensures Same(m, m', 0, lo) && Same(m, m', hi, |m|)
  {
    hide HeaderAt, Contents, Same, WellFormed;
    JoinChain(m, m', bs, k, lo, hi);
  }

  /** A store through a live pointer touches no header. */
  lemma WrittenBlock(m: seq<byte>, bs: seq<Block>, p: nat, data: seq<byte>, lo: nat, hi: nat)
    requires WellFormed(m, bs, lo, hi) && p in Contents(m, bs, HEADER) && |data| <= |Contents(m, bs, HEADER)[p]|
    ensures p + |data| <= hi && WellFormed(Blit(m, p, data), bs, lo, hi)
    ensures Contents(Blit(m, p, data), bs, HEADER)
      == Contents(m, bs, HEADER)[p := data + Contents(m, bs, HEADER)[p][|data|..]]
    ensures Same(m, Blit(m, p, data), 0, lo) && Same(m, Blit(m, p, data), hi, |m|)
  {
    WriteContents(m, bs, HEADER, lo, hi, p, data);
    var m', k := Blit(m, p, data), IndexOf(bs, HEADER, p);
    CursorOk(m, bs, k, lo, hi);
    forall i | 0 <= i < |bs|
      ensures HeaderOk(m', bs, i)
    {
      CursorOk(m, bs, i, lo, hi);
      assert i < k ==> Behind(bs[i], bs[k], HEADER, k == i + 1);
      assert k < i ==> Behind(bs[k], bs[i], HEADER, i == k + 1);
      HeaderSame(m, m', bs[i].addr);
    }
  }

  // ----- The wrapped split -----

  /** Two chains read from the same memory agree as far as both reach. */
  lemma {:induction false} ChainAgrees(m: seq<byte>, m': seq<byte>, bs: seq<Block>, bs': seq<Block>, k: nat,
                                       lo: nat, hi: nat)
    requires WellFormed(m, bs, lo, hi) && WellFormed(m', bs', lo, hi) && lo > 0 && |m'| == |m|
    requires k < |bs| && Same(m, m', lo, bs[k].addr)
    ensures k < |bs'| && bs'[k].addr == bs[k].addr
  {
    if k == 0 {
      CursorStart(m, bs, lo, hi);
      CursorStart(m', bs', lo, hi);
    } else {
      CursorOk(m, bs, k - 1, lo, hi);
      CursorOk(m, bs, k, lo, hi);
      Neighbours(m, bs, k - 1, lo, hi);
      ChainAgrees(m, m', bs, bs', k - 1, lo, hi);
      HeaderSame(m, m', bs[k - 1].addr);
      CursorOk(m', bs', k - 1, lo, hi);
      NullBehindTheLast(m, bs, k, lo, hi);
    }
  }

  /**
   * After a split whose remaining size has wrapped, the headers lay out no list of blocks at all: the one
   * reached from block `k` claims more bytes than the machine has.
   */
  lemma WrappedSplitCorrupts(m: seq<byte>, m': seq<byte>, bs: seq<Block>, k: nat, n: nat, lo: nat, hi: nat)
    requires WellFormed(m, bs, lo, hi) && |m'| == |m| && 0 < lo && hi + HEADER <= |m| <= WORD
    requires k < |bs| && End(bs[k], HEADER) <= hi && n <= bs[k].size < n + HEADER
    requires Same(m, m', 0, bs[k].addr)
    requires HeaderAt(m', bs[k].addr).next == bs[k].addr + HEADER + n
    requires Load(m', bs[k].addr + HEADER + n) == Wrap(bs[k].size - n - HEADER)
    ensures forall bs' :: !WellFormed(m', bs', lo, hi)
  {
    hide Load, WellFormed, Same;
    forall bs'
      ensures !WellFormed(m', bs', lo, hi)
    {
      if WellFormed(m', bs', lo, hi) {
        ChainReachesRest(m, m', bs, bs', k, n, lo, hi);
        CursorOk(m', bs', k + 1, lo, hi);
        assert false;
      }
    }
  }

  lemma ChainReachesRest(m: seq<byte>, m': seq<byte>, bs: seq<Block>, bs': seq<Block>, k: nat, n: nat, lo: nat, hi: nat)
    requires WellFormed(m, bs, lo, hi) && WellFormed(m', bs', lo, hi)
    requires |m'| == |m| && 0 < lo && hi + HEADER <= |m|
    requires k < |bs| && End(bs[k], HEADER) <= hi && n <= bs[k].size
    requires Same(m, m', 0, bs[k].addr)
    requires HeaderAt(m', bs[k].addr).next == bs[k].addr + HEADER + n
    ensures k + 1 < |bs'| && bs'[k + 1].size == Load(m', bs[k].addr + HEADER + n)
  {
    hide Load, WellFormed, Same;
    SamePart(m, m', 0, bs[k].addr, lo, bs[k].addr);
    CursorOk(m, bs, k, lo, hi);
    ChainAgrees(m, m', bs, bs', k, lo, hi);
    CursorOk(m', bs', k, lo, hi);
    NullBehindTheLast(m', bs', k + 1, lo, hi);
    CursorOk(m', bs', k + 1, lo, hi);
  }
}
