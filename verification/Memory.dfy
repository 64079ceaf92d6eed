/** Byte-addressed memory with little-endian 32-bit words. */
module Memory {
  import opened Machine

  type byte = b: int | 0 <= b < 256

  function Load(m: seq<byte>, a: nat): (w: int)
    requires a + 4 <= |m|
    ensures IsUint32(w)
  {
    (m[a] as int) + 0x100 * (m[a + 1] as int) + 0x1_0000 * (m[a + 2] as int) + 0x100_0000 * (m[a + 3] as int)
  }

  /** The two memories agree on the addresses from `lo` up to `hi`. */
  ghost predicate Same(m: seq<byte>, m': seq<byte>, lo: int, hi: int)
  {
    |m| == |m'| && forall k :: 0 <= k < |m| && lo <= k < hi ==> m'[k] == m[k]
  }

  lemma SameRefl(m: seq<byte>)
    ensures forall lo, hi {:trigger Same(m, m, lo, hi)} :: Same(m, m, lo, hi)
  {}

  lemma SameTrans(m: seq<byte>, m': seq<byte>, m'': seq<byte>, lo: int, hi: int)
    requires Same(m, m', lo, hi) && Same(m', m'', lo, hi)
    ensures Same(m, m'', lo, hi)
  {}

  lemma SamePart(m: seq<byte>, m': seq<byte>, lo: int, hi: int, lo': int, hi': int)
    requires Same(m, m', lo, hi) && lo <= lo' && hi' <= hi
    ensures Same(m, m', lo', hi')
  {}

  lemma LoadSame(m: seq<byte>, m': seq<byte>, a: nat)
    requires a + 4 <= |m| && Same(m, m', a, a + 4)
    ensures Load(m', a) == Load(m, a)
  {}

  /** Storing a word makes it readable at its address and leaves every other byte alone. */
  method StoreWord(mem: array<byte>, a: nat, w: int)
    requires a + 4 <= mem.Length && IsUint32(w)
    modifies mem
    ensures Load(mem[..], a) == w
    ensures forall b: nat {:trigger Load(mem[..], b)} ::
      b + 4 <= mem.Length && (b + 4 <= a || a + 4 <= b) ==> Load(mem[..], b) == Load(old(mem[..]), b)
    ensures Same(old(mem[..]), mem[..], 0, a) && Same(old(mem[..]), mem[..], a + 4, mem.Length)
  {
    ghost var m := mem[..];
    mem[a] := w % 0x100;
    mem[a + 1] := (w / 0x100) % 0x100;
    mem[a + 2] := (w / 0x1_0000) % 0x100;
    mem[a + 3] := (w / 0x100_0000) % 0x100;
    WordBytes(w);
  }

  lemma WordBytes(w: int)
    requires IsUint32(w)
    ensures w == w % 0x100 + 0x100 * (w / 0x100 % 0x100) + 0x1_0000 * (w / 0x1_0000 % 0x100)
      + 0x100_0000 * (w / 0x100_0000 % 0x100)
  {
    var a := w / 0x100;
    var b := a / 0x100;
    var c := b / 0x100;
    assert w == 0x100 * a + w % 0x100 && a == 0x100 * b + a % 0x100 && b == 0x100 * c + b % 0x100;
    assert b == w / 0x1_0000 && c == w / 0x100_0000 && c < 0x100;
  }

  /** The memory `m` with the bytes `s` written from address `a` on. */
  function Blit(m: seq<byte>, a: nat, s: seq<byte>): (r: seq<byte>)
    requires a + |s| <= |m|
    ensures |r| == |m|
    ensures forall k {:trigger r[k]} :: 0 <= k < |m| ==> r[k] == if a <= k < a + |s| then s[k - a] else m[k]
  {
    m[..a] + s + m[a + |s|..]
  }

  /** memcpy between two ranges that do not overlap. */
  method MemCopy(mem: array<byte>, dest: nat, src: nat, n: nat)
    requires dest + n <= mem.Length && src + n <= mem.Length
    requires dest + n <= src || src + n <= dest
    modifies mem
    ensures mem[..] == Blit(old(mem[..]), dest, old(mem[src..src + n]))
  {
    ghost var m := mem[..];
    ghost var s := mem[src..src + n];
    var i := 0;
    while i < n
      invariant 0 <= i <= n
      invariant forall k :: 0 <= k < mem.Length ==> mem[k] == if dest <= k < dest + i then s[k - dest] else m[k]
    {
      mem[dest + i] := mem[src + i];
      i := i + 1;
    }
    assert mem[..] == Blit(m, dest, s);
  }

  /** memcpy from outside the modelled memory. */
  method CopyIn(mem: array<byte>, dest: nat, data: seq<byte>, n: nat)
    requires n <= |data| && dest + n <= mem.Length
    modifies mem
    ensures mem[..] == Blit(old(mem[..]), dest, data[..n])
  {
    ghost var m := mem[..];
    var i := 0;
    while i < n
      invariant 0 <= i <= n
      invariant forall k :: 0 <= k < mem.Length ==> mem[k] == if dest <= k < dest + i then data[k - dest] else m[k]
    {
      mem[dest + i] := data[i];
      i := i + 1;
    }
    assert mem[..] == Blit(m, dest, data[..n]);
  }
}
