/** The physical frame allocator: a bitmap with a search hint (kernel/pmm.c). */
module FrameBitmap {
  import opened Bits

  const MEMORY_START: nat := 0x20_0000
  const MEMORY_SIZE: nat := 0x1E0_0000
  const PAGE_SIZE: nat := 4096
  const TOTAL_FRAMES: nat := 7680

  // ----- The simple allocator -----

  function FrameAddr(f: nat): nat { MEMORY_START + f * PAGE_SIZE }

  /** The lowest frame from `i` on that is not in use; TOTAL_FRAMES if there is none. */
  function LowestFrom(used: set<nat>, i: nat): (f: nat)
    requires i <= TOTAL_FRAMES
    ensures i <= f <= TOTAL_FRAMES && (f < TOTAL_FRAMES ==> f !in used)
    ensures forall g :: i <= g < f ==> g in used
    decreases TOTAL_FRAMES - i
  {
    if i == TOTAL_FRAMES || i !in used then i else LowestFrom(used, i + 1)
  }

  function LowestFree(used: set<nat>): nat { LowestFrom(used, 0) }

  lemma LowestFreeUnique(used: set<nat>, f: nat)
    requires f <= TOTAL_FRAMES && (f < TOTAL_FRAMES ==> f !in used)
    requires forall g :: 0 <= g < f ==> g in used
    ensures f == LowestFree(used)
  {}

  /** What an allocation answers, and what is in use afterwards. */
  function AllocAnswer(used: set<nat>): nat
  {
    var f := LowestFree(used);
    if f == TOTAL_FRAMES then 0 else FrameAddr(f)
  }

  function AllocUsed(used: set<nat>): set<nat>
  {
    var f := LowestFree(used);
    if f == TOTAL_FRAMES then used else used + {f}
  }

  /** Freeing an address outside the managed range, or of a frame not in use, changes nothing. */
  function FreeUsed(used: set<nat>, addr: nat): set<nat>
  {
    if addr < MEMORY_START then used else used - {(addr - MEMORY_START) / PAGE_SIZE}
  }

  predicate Frames(used: set<nat>) { forall f :: f in used ==> f < TOTAL_FRAMES }

  /**
   * The address handed out is that of the lowest free one of 7680 frames of 4 KB from 2 MB on: a page address above
   * all unmanaged memory, and never NULL.
   */
  lemma AnswerIsFrame(used: set<nat>)
    ensures AllocAnswer(used) == if LowestFree(used) == 7680 then 0 else 0x20_0000 + 4096 * LowestFree(used)
    ensures AllocAnswer(used) == 0 <==> LowestFree(used) == TOTAL_FRAMES
    ensures AllocAnswer(used) != 0 ==>
      && MEMORY_START <= AllocAnswer(used) < MEMORY_START + MEMORY_SIZE && AllocAnswer(used) % PAGE_SIZE == 0
      && (AllocAnswer(used) - MEMORY_START) / PAGE_SIZE == LowestFree(used)
  {}

  /** Freeing an address frees the frame that it lies in, and no other. */
  lemma FreedFrame(used: set<nat>, addr: nat, f: nat)
    ensures f in FreeUsed(used, addr) <==> f in used && !(0x20_0000 + 4096 * f <= addr < 0x20_0000 + 4096 * (f + 1))
  {}

  function AllFrames(n: nat): (s: set<nat>)
    ensures forall f: nat :: f in s <==> f < n
    ensures |s| == n
  {
    if n == 0 then {} else AllFrames(n - 1) + {n - 1}
  }

  lemma CountUsed(used: set<nat>)
    requires Frames(used)
    ensures |used| <= TOTAL_FRAMES
    ensures |used| == TOTAL_FRAMES <==> LowestFree(used) == TOTAL_FRAMES
  {
    hide AllFrames, LowestFrom;
    var all := AllFrames(TOTAL_FRAMES);
    assert used <= all;
    SubsetSize(used, all);
    if LowestFree(used) == TOTAL_FRAMES { assert used == all; }
  }

  lemma {:induction false} SubsetSize(a: set<nat>, b: set<nat>)
    requires a <= b
    ensures |a| <= |b| && (|a| == |b| ==> a == b)
  {
    if a != {} {
      var x :| x in a;
      SubsetSize(a - {x}, b - {x});
      assert a == (a - {x}) + {x} && b == (b - {x}) + {x};
    }
  }

  // ----- The bitmap -----

  /** Frame `f` is marked in the bitmap. */
  predicate Marked(words: seq<nat>, f: nat)
    requires f / 32 < |words|
  {
    Bit(words[f / 32], f % 32)
  }

  /** The words are 32 bits wide, and exactly the frames in `used` are marked in them. */
  ghost predicate Represents(words: seq<nat>, used: set<nat>)
  {
    && |words| * 32 == TOTAL_FRAMES
    && (forall i :: 0 <= i < |words| ==> words[i] < Pow2(32))
    && Frames(used)
    && forall f: nat :: f < TOTAL_FRAMES ==> (Marked(words, f) <==> f in used)
  }

  lemma MarkOne(words: seq<nat>, used: set<nat>, f: nat)
    requires Represents(words, used) && f < TOTAL_FRAMES
    ensures f / 32 < |words|
    ensures Represents(words[f / 32 := SetBit(words[f / 32], f % 32)], used + {f})
    ensures Represents(words[f / 32 := ClearBit(words[f / 32], f % 32)], used - {f})
  {
    hide Bit, SetBit, ClearBit, Pow2;
    SameWidth(words[f / 32], f % 32, 32);
    var set1, clr := words[f / 32 := SetBit(words[f / 32], f % 32)], words[f / 32 := ClearBit(words[f / 32], f % 32)];
    forall g: nat | g < TOTAL_FRAMES
      ensures Marked(set1, g) <==> g in used + {f}
      ensures Marked(clr, g) <==> g in used - {f}
    {
      SetBitChanges(words[f / 32], f % 32, g % 32);
      ClearBitChanges(words[f / 32], f % 32, g % 32);
      assert Marked(words, g) <==> g in used;
      if g / 32 == f / 32 && g % 32 == f % 32 { assert g == f; }
    }
  }

  lemma MarkedIffUsed(words: seq<nat>, used: set<nat>, f: nat)
    requires Represents(words, used) && f < TOTAL_FRAMES
    ensures f / 32 < |words| && (Bit(words[f / 32], f % 32) <==> f in used)
  {
    assert Marked(words, f) <==> f in used;
  }

  lemma OnlyFrames(words: seq<nat>, used: set<nat>)
    requires Represents(words, used)
    ensures Frames(used)
  {}

  lemma NoneMarked(words: seq<nat>)
    requires |words| * 32 == TOTAL_FRAMES && forall i :: 0 <= i < |words| ==> words[i] == 0
    ensures Represents(words, {})
  {
    hide Bit, Pow2;
    forall f: nat | f < TOTAL_FRAMES
      ensures !Marked(words, f)
    {
      ZeroHasNoBits(f % 32);
    }
  }

  class Pmm {
    const bitmap: array<nat>
    var freeFrames: int
    var firstFreeFrame: nat
    ghost var used: set<nat>

    /** The bitmap marks the frames in use, the counter is exact and nothing below the hint is free. */
    ghost predicate Valid()
      reads this, bitmap
    {
      && Represents(bitmap[..], used)
      && freeFrames == TOTAL_FRAMES - |used|
      && firstFreeFrame <= TOTAL_FRAMES
      && forall f :: 0 <= f < firstFreeFrame ==> f in used
    }

    constructor ()
      ensures Valid() && fresh(bitmap)
      ensures used == {0}
    {
      bitmap := new nat[TOTAL_FRAMES / 32](_ => 0);
      freeFrames := TOTAL_FRAMES;
      firstFreeFrame := 0;
      used := {};
      new;
      hide Represents;
      NoneMarked(bitmap[..]);
      var bitmapFrames := (bitmap.Length * 4 + PAGE_SIZE - 1) / PAGE_SIZE;
      var i := 0;
      while i < bitmapFrames
        invariant 0 <= i <= bitmapFrames && bitmapFrames == 1
        invariant Valid() && used == if i == 0 then {} else {0}
      {
        MarkFrameUsed(i);
        i := i + 1;
      }
    }

    /** `!(bitmap[word] & (1 << bit))` */
    predicate IsClear(f: nat)
      requires f / 32 < bitmap.Length
      reads this, bitmap
    {
      !Bit(bitmap[f / 32], f % 32)
    }

    method MarkFrameUsed(frame: nat)
      requires Valid()
      modifies this, bitmap
      ensures Valid() && used == if frame < TOTAL_FRAMES then old(used) + {frame} else old(used)
    {
      hide Bit, SetBit, Represents;
      if frame >= TOTAL_FRAMES {
        return;
      }
      MarkedIffUsed(bitmap[..], used, frame);
      MarkOne(bitmap[..], used, frame);
      if IsClear(frame) {
        bitmap[frame / 32] := SetBit(bitmap[frame / 32], frame % 32);
        freeFrames := freeFrames - 1;
        used := used + {frame};
      } else {
        assert used + {frame} == used;
      }
    }

    /**
     * The lowest free frame, found from the hint on. The second loop of the source never finds one:
     * everything below the hint is in use.
     */
    method AllocFrame() returns (addr: nat)
      requires Valid()
      modifies this, bitmap
      ensures Valid() && used == AllocUsed(old(used)) && addr == AllocAnswer(old(used))
    {
      hide Bit, SetBit, LowestFree, Represents;
      OnlyFrames(bitmap[..], used);
      if freeFrames == 0 {
        CountUsed(used);
        return 0;
      }
      var i := firstFreeFrame;
      while i < TOTAL_FRAMES
        invariant firstFreeFrame <= i <= TOTAL_FRAMES && Valid() && used == old(used)
        invariant forall f :: 0 <= f < i ==> f in used
      {
        MarkedIffUsed(bitmap[..], used, i);
        if IsClear(i) {
          LowestFreeUnique(used, i);
          MarkOne(bitmap[..], used, i);
          bitmap[i / 32] := SetBit(bitmap[i / 32], i % 32);
          freeFrames := freeFrames - 1;
          used := used + {i};
          if i == firstFreeFrame {
            firstFreeFrame := firstFreeFrame + 1;
          }
          return FrameAddr(i);
        }
        i := i + 1;
      }
      LowestFreeUnique(used, TOTAL_FRAMES);
      i := 0;
      while i < firstFreeFrame
        invariant 0 <= i <= firstFreeFrame && Valid() && used == old(used)
      {
        MarkedIffUsed(bitmap[..], used, i);
        if IsClear(i) {
          assert false;
        }
        i := i + 1;
      }
      return 0;
    }

    method FreeFrame(addr: nat)
      requires Valid()
      modifies this, bitmap
      ensures Valid() && used == FreeUsed(old(used), addr)
    {
      hide Bit, ClearBit, Represents;
      OnlyFrames(bitmap[..], used);
      if addr < MEMORY_START {
        return;
      }
      var frame := (addr - MEMORY_START) / PAGE_SIZE;
      if frame >= TOTAL_FRAMES {
        assert used - {frame} == used;
        return;
      }
      MarkedIffUsed(bitmap[..], used, frame);
      MarkOne(bitmap[..], used, frame);
      if !IsClear(frame) {
        bitmap[frame / 32] := ClearBit(bitmap[frame / 32], frame % 32);
        freeFrames := freeFrames + 1;
        used := used - {frame};
        if frame < firstFreeFrame {
          firstFreeFrame := frame;
        }
      } else {
        assert used - {frame} == used;
      }
    }
  }

  // ----- Whole runs -----

  datatype Call = Alloc(answer: nat) | Free(addr: nat) | Mark(frame: nat)

  predicate Step(used: set<nat>, c: Call, used': set<nat>)
  {
    match c
    case Alloc(r) => r == AllocAnswer(used) && used' == AllocUsed(used)
    case Free(a) => used' == FreeUsed(used, a)
    case Mark(f) => used' == if f < TOTAL_FRAMES then used + {f} else used
  }

  ghost predicate IsRun(states: seq<set<nat>>, calls: seq<Call>)
  {
    && |states| == |calls| + 1
    && forall i, j :: 0 <= i && j == i + 1 < |states| ==> Step(states[i], calls[i], states[j])
  }

  /** Every call on the bitmap is such a step. */
  method Perform(pmm: Pmm, c: Call) returns (done: Call)
    requires pmm.Valid()
    modifies pmm, pmm.bitmap
    ensures pmm.Valid() && Step(old(pmm.used), done, pmm.used)
    ensures if c.Alloc? then done.Alloc? else done == c
  {
    hide LowestFree;
    done := c;
    match c
    case Alloc(_) =>
      var addr := pmm.AllocFrame();
      done := Alloc(addr);
    case Free(a) => pmm.FreeFrame(a);
    case Mark(f) => pmm.MarkFrameUsed(f);
  }

  /** The call gives back the frame at address `a`. */
  predicate FreesFrameOf(c: Call, a: nat)
  {
    c.Free? && c.addr >= MEMORY_START && (c.addr - MEMORY_START) / PAGE_SIZE == (a - MEMORY_START) / PAGE_SIZE
  }

  /** A frame in use stays in use until it is freed. */
  lemma {:induction false} StaysUsed(states: seq<set<nat>>, calls: seq<Call>, f: nat, i: nat, j: nat)
    requires IsRun(states, calls) && i <= j < |states| && f in states[i]
    requires forall t :: i <= t < j ==> !FreesFrameOf(calls[t], FrameAddr(f))
    ensures f in states[j]
  {
    if i < j {
      StaysUsed(states, calls, f, i, j - 1);
      assert Step(states[j - 1], calls[j - 1], states[j]) && !FreesFrameOf(calls[j - 1], FrameAddr(f));
    }
  }

  /** No frame is handed out twice without having been freed in between. */
  lemma NeverTwice(states: seq<set<nat>>, calls: seq<Call>, i: nat, j: nat)
    requires IsRun(states, calls) && i < j < |calls|
    requires calls[i].Alloc? && calls[j].Alloc? && calls[i].answer != 0
    requires forall t :: i < t < j ==> !FreesFrameOf(calls[t], calls[i].answer)
    ensures calls[i].answer != calls[j].answer
  {
    var x := i + 1;
    var f := LowestFree(states[i]);
    assert Step(states[i], calls[i], states[x]);
    AnswerIsFrame(states[i]);
    StaysUsed(states, calls, f, x, j);
    var y := j + 1;
    assert Step(states[j], calls[j], states[y]);
    AnswerIsFrame(states[j]);
  }

  /** What is freed last is what is handed out next, if nothing lower is free. */
  lemma FreeThenAlloc(used: set<nat>, f: nat)
    requires f in used && f < TOTAL_FRAMES && forall g :: 0 <= g < f ==> g in used
    ensures AllocAnswer(FreeUsed(used, FrameAddr(f))) == FrameAddr(f)
    ensures AllocUsed(FreeUsed(used, FrameAddr(f))) == used
  {
    var u := FreeUsed(used, FrameAddr(f));
    assert u == used - {f};
    LowestFreeUnique(u, f);
  }
}
