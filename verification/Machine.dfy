/** Fixed-width arithmetic of the 32-bit machine the kernel is compiled for. */
module Machine {

  const WORD: int := 0x1_0000_0000
  const HALF: int := 0x8000_0000
  const INT_MIN: int := -0x8000_0000
  const INT_MAX: int := 0x7FFF_FFFF
  const UINT_MAX: int := 0xFFFF_FFFF

  predicate IsUint32(x: int) { 0 <= x < WORD }

  predicate IsInt32(x: int) { INT_MIN <= x <= INT_MAX }

  /** Conversion to `uint32_t`. */
  function Wrap(x: int): (r: int)
    ensures IsUint32(r)
    ensures IsUint32(x) ==> r == x
  {
    x % WORD
  }

  /** The two's complement reading of the low 32 bits. */
  function ToInt32(x: int): (r: int)
    ensures IsInt32(r)
    ensures IsInt32(x) ==> r == x
  {
    var w := x % WORD;
    if w < HALF then w else w - WORD
  }

  /** Both conversions keep the number modulo 2^32 and bring it into their range, so they are determined. */
  lemma LowWord(x: int)
    ensures 0 <= Wrap(x) < 0x1_0000_0000 && (x - Wrap(x)) % 0x1_0000_0000 == 0
    ensures -0x8000_0000 <= ToInt32(x) < 0x8000_0000 && (x - ToInt32(x)) % 0x1_0000_0000 == 0
  {
    assert x == x / WORD * WORD + x % WORD;
  }

  /** Division as C defines it: the quotient is truncated toward zero. */
  function TruncDiv(a: int, b: int): int
    requires b > 0
  {
    if a >= 0 then a / b else -((-a) / b)
  }

  lemma MulOrder(a: int, b: int, c: int)
    requires a <= b && 0 <= c
    ensures a * c <= b * c
  {}
}
