/**
 * Runs of an allocator as its clients see them: the block list and the bytes behind every pointer that is
 * handed out, through any sequence of allocations, releases and stores.
 */
module AllocatorRuns {
  import opened Memory
  import opened BlockList

  datatype State = State(blocks: seq<Block>, live: map<nat, seq<byte>>)

  datatype Call = Malloc(size: int, result: nat) | Free(ptr: nat) | Write(ptr: nat, data: seq<byte>)

  /** What a call may do to the live bytes, whatever the placement policy. */
  ghost predicate LiveStep(s: State, c: Call, s': State, hi: nat)
  {
    match c
    case Malloc(size, p) => if p == 0 then s'.live == s.live else Granted(s.live, s'.live, p, 0, hi)
    case Free(p) => p in s.live && s'.live == s.live - {p}
    case Write(p, data) =>
      p in s.live && |data| <= |s.live[p]| && s'.live == s.live[p := data + s.live[p][|data|..]]
  }

  ghost predicate IsLiveRun(states: seq<State>, calls: seq<Call>, hi: nat)
  {
    && |states| == |calls| + 1
    && forall i, j :: 0 <= i && j == i + 1 < |states| ==> LiveStep(states[i], calls[i], states[j], hi)
  }

  ghost predicate Touches(c: Call, p: nat)
  {
    match c
    case Malloc(_, _) => false
    case Free(q) => q == p
    case Write(q, _) => q == p
  }

  /**
   * The bytes behind a live pointer stay what they are for as long as the client neither frees it nor
   * writes through it, whatever it does with other pointers.
   */
  lemma {:induction false} RunKeepsPayload(states: seq<State>, calls: seq<Call>, hi: nat, p: nat, i: nat, j: nat)
    requires IsLiveRun(states, calls, hi) && i <= j < |states| && p in states[i].live
    requires forall t :: i <= t < j ==> !Touches(calls[t], p)
    ensures p in states[j].live && states[j].live[p] == states[i].live[p]
  {
    if i < j {
      RunKeepsPayload(states, calls, hi, p, i, j - 1);
      var s, s' := states[j - 1], states[j];
      assert LiveStep(s, calls[j - 1], s', hi);
      assert !Touches(calls[j - 1], p);
      if calls[j - 1].Malloc? && calls[j - 1].result != 0 {
        assert s.live[p] == (s'.live - {calls[j - 1].result})[p];
      }
    }
  }

  // ----- Pointers and blocks -----

  /** The same pointers, with the same number of bytes behind each. */
  ghost predicate SameShape(c: map<nat, seq<byte>>, d: map<nat, seq<byte>>)
  {
    c.Keys == d.Keys && forall p :: p in c ==> |c[p]| == |d[p]|
  }

  function Zeros(n: nat): (m: seq<byte>)
    ensures |m| == n
  {
    seq(n, i => 0)
  }

  /** The blocks tile the heap, and the live pointers give access to the used blocks, to all of each. */
  ghost predicate Inv(s: State, h: nat, lo: nat, hi: nat)
  {
    && Tiled(s.blocks, h, lo, hi)
    && (forall i :: 0 <= i < |s.blocks| ==> End(s.blocks[i], h) <= hi)
    && SameShape(s.live, Contents(Zeros(hi), s.blocks, h))
  }

  lemma Extended(c: map<nat, seq<byte>>, c': map<nat, seq<byte>>, d: map<nat, seq<byte>>, d': map<nat, seq<byte>>,
                 p: nat)
    requires SameShape(c, d) && p !in c && p in c' && c' - {p} == c
    requires p in d' && d' == d[p := d'[p]] && |c'[p]| == |d'[p]|
    ensures SameShape(c', d')
  {
    forall q
      ensures q in c' <==> q in d'
      ensures q in c' ==> |c'[q]| == |d'[q]|
    {
      if q != p { assert q in c' <==> q in c' - {p}; }
    }
  }

  lemma WriteKeepsShape(s: State, p: nat, data: seq<byte>, s': State, h: nat, lo: nat, hi: nat)
    requires Inv(s, h, lo, hi) && p in s.live && |data| <= |s.live[p]|
    requires s' == s.(live := s.live[p := data + s.live[p][|data|..]])
    ensures Inv(s', h, lo, hi)
  {
    hide Tiled, Contents;
    var d := Contents(Zeros(hi), s.blocks, h);
    forall q | q in s'.live
      ensures |s'.live[q]| == |s.live[q]|
    {}
    assert SameShape(s'.live, d);
  }

  /**
   * What the invariant means to the clients: no byte of the heap is lost, and the live payloads are
   * disjoint ranges inside it, each a whole used block.
   */
  lemma InvMeaning(s: State, h: nat, lo: nat, hi: nat)
    requires Inv(s, h, lo, hi)
    ensures TotalBytes(s.blocks, h) == hi - lo
    ensures s.live.Keys == LivePtrs(s.blocks, h)
    ensures forall p :: p in s.live ==> lo < p && p + |s.live[p]| <= hi
    ensures forall p, q :: p in s.live && q in s.live && p != q ==>
      p + |s.live[p]| <= q || q + |s.live[q]| <= p
  {
    TiledConserves(s.blocks, h, lo, hi);
    forall p | p in s.live
      ensures lo < p && p + |s.live[p]| <= hi
    {
      PayloadInside(Zeros(hi), s.blocks, h, lo, hi, p);
    }
    forall p, q | p in s.live && q in s.live && p != q
      ensures p + |s.live[p]| <= q || q + |s.live[q]| <= p
    {
      PayloadsDisjoint(Zeros(hi), s.blocks, h, lo, hi, p, q);
    }
  }

  lemma PayloadInside(m: seq<byte>, bs: seq<Block>, h: nat, lo: nat, hi: nat, p: nat)
    requires Tiled(bs, h, lo, hi) && hi <= |m|
    requires forall i :: 0 <= i < |bs| ==> End(bs[i], h) <= |m|
    requires p in Contents(m, bs, h)
    ensures lo < p && p + |Contents(m, bs, h)[p]| <= hi
  {
    assert Within(bs[IndexOf(bs, h, p)], h, lo, hi);
  }
}
