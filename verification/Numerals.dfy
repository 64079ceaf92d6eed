/** Number printing (itoa, kernel/pmm.c) and number parsing (atoi, src/libc/stdlib.c). */
module Numerals {
  import opened Machine

  const DIGITS: string := "0123456789abcdef"

  predicate IsDigit(c: char) { '0' <= c <= '9' }

  /** The positional numeral of `n`, most significant digit first. */
  function Numeral(n: nat, base: int): (s: string)
    requires 2 <= base <= 16
    ensures s != []
    decreases n
  {
    (if n < base then "" else Numeral(n / base, base)) + [DIGITS[n % base]]
  }

  /** What is printed: a minus sign only in base ten. */
  function Text(value: int, base: int): string
    requires 2 <= base <= 16
  {
    if value < 0 then "-" + Numeral(-value, base) else Numeral(value, base)
  }

  /** The value of a digit. */
  function DigitValue(c: char): int { if '0' <= c <= '9' then c as int - '0' as int else c as int - 'a' as int + 10 }

  /** The number that a string of digits denotes; the empty one denotes 0. */
  function Value(s: string, base: int): int
  {
    if s == "" then 0 else Value(s[..|s| - 1], base) * base + DigitValue(s[|s| - 1])
  }

  ghost predicate IsNumeral(s: string, base: int)
  {
    forall k :: 0 <= k < |s| ==>
      ('0' <= s[k] <= '9' || 'a' <= s[k] <= 'f') && DigitValue(s[k]) < base
  }

  lemma TableDigit(d: nat)
    requires d < 16
    ensures ('0' <= DIGITS[d] <= '9' || 'a' <= DIGITS[d] <= 'f') && DigitValue(DIGITS[d]) == d
  {
    assert DIGITS[d] == [
      '0', '1', '2', '3', '4', '5', '6', '7', '8', '9', 'a', 'b', 'c', 'd', 'e', 'f'][d];
  }

  /** The numeral of `n` denotes `n`, has digits of its base only, and no zero in front. */
  lemma {:induction false} NumeralDenotes(n: nat, base: int)
    requires 2 <= base <= 16
    ensures var s := Numeral(n, base);
      Value(s, base) == n && IsNumeral(s, base) && (s[0] == '0' ==> n == 0 && |s| == 1)
    decreases n
  {
    hide Numeral, Value;
    NumeralStep(n, base);
    var front, d := if n < base then "" else Numeral(n / base, base), n % base;
    TableDigit(d);
    if n >= base { NumeralDenotes(n / base, base); }
    ValueSnoc(front, DIGITS[d], base);
    assert Numeral(n, base) == front + [DIGITS[d]];
  }

  lemma ValueSnoc(s: string, c: char, base: int)
    ensures Value(s + [c], base) == Value(s, base) * base + DigitValue(c)
    ensures Value("", base) == 0
  {
    assert (s + [c])[..|s|] == s;
  }

  lemma NumeralStep(n: nat, base: int)
    requires 2 <= base <= 16
    ensures 0 <= n % base < base && n / base * base + n % base == n
    ensures n < base ==> Numeral(n, base) == [DIGITS[n % base]] && n / base == 0 && n % base == n
    ensures n >= base ==>
      0 < n / base < n && Numeral(n, base) == Numeral(n / base, base) + [DIGITS[n % base]]
  {
    QuotientAndDigit(n, base);
  }

  /** So it is the only such string. */
  lemma {:induction false} NumeralOfValue(s: string, base: int)
    requires 2 <= base <= 16 && s != "" && IsNumeral(s, base) && (s[0] == '0' ==> |s| == 1)
    ensures Value(s, base) >= 0 && Numeral(Value(s, base), base) == s
  {
    hide Numeral, Value, DigitValue;
    var front, c := s[..|s| - 1], s[|s| - 1];
    DigitOfValue(c);
    ValueSnoc(front, c, base);
    assert s == front + [c];
    var q := Value(front, base);
    if front != "" {
      NumeralOfValue(front, base);
      NumeralStep(0, base);
      assert q != 0;
    }
    DivMod(q, DigitValue(c), base);
    NumeralStep(q * base + DigitValue(c), base);
  }

  lemma DigitOfValue(c: char)
    requires ('0' <= c <= '9' || 'a' <= c <= 'f')
    ensures 0 <= DigitValue(c) < 16 && DIGITS[DigitValue(c)] == c
  {
    TableDigit(DigitValue(c));
  }

  lemma DivMod(q: nat, d: nat, base: int)
    requires 2 <= base && d < base
    ensures (q * base + d) / base == q && (q * base + d) % base == d && (q > 0 ==> q * base + d >= base)
  {
    var n := q * base + d;
    assert n == n / base * base + n % base;
    if n / base < q { MulOrder(n / base + 1, q, base); }
    if q < n / base { MulOrder(q + 1, n / base, base); }
    if q > 0 { MulOrder(1, q, base); }
  }

  /** The printed text is the numeral of the magnitude, after a minus sign for a negative value. */
  lemma TextDenotes(value: int, base: int)
    requires 2 <= base <= 16
    ensures var t := Text(value, base);
      if value < 0 then t[0] == '-' && IsNumeral(t[1..], base) && Value(t[1..], base) == -value
      else IsNumeral(t, base) && Value(t, base) == value
  {
    NumeralDenotes(if value < 0 then -value else value, base);
    if value < 0 { assert Text(value, base)[1..] == Numeral(-value, base); }
  }

  /** Swapping the ends of `a[lo..hi]` until they meet reverses that stretch and nothing else. */
  method ReverseInPlace(a: array<char>, lo: nat, hi: nat)
    requires lo <= hi <= a.Length
    modifies a
    ensures forall k :: lo <= k < hi ==> a[k] == old(a[lo + hi - 1 - k])
    ensures forall k :: 0 <= k < lo || hi <= k < a.Length ==> a[k] == old(a[k])
  {
    var left: int, right: int := lo, hi - 1;
    while left < right
      invariant lo <= left <= hi && left + right == lo + hi - 1
      invariant forall k :: 0 <= k < lo || hi <= k < a.Length ==> a[k] == old(a[k])
      invariant forall k :: left <= k <= right ==> a[k] == old(a[k])
      invariant forall k :: lo <= k < left || right < k < hi ==> a[k] == old(a[lo + hi - 1 - k])
      decreases right - left
    {
      var tmp := a[right];
      a[right] := a[left];
      a[left] := tmp;
      right := right - 1;
      left := left + 1;
    }
  }

  /**
   * One digit index, computed from a quotient truncated toward zero, is an index of the digit string for
   * every non-negative value; for a negative one only if no remainder is left.
   */
  lemma DigitIndexInRange(value: int, base: int)
    requires 2 <= base <= 16
    ensures 0 <= value - TruncDiv(value, base) * base < base <==> value >= 0 || (-value) % base == 0
  {
    var q := (-value) / base;
    assert -value == q * base + (-value) % base;
    assert value == value / base * base + value % base;
    assert (-q) * base == -(q * base);
  }

  /** Every digit index of the loop that itoa starts at `v` is one of the digit string. */
  ghost predicate InRange(v: int, base: int)
    requires 2 <= base <= 16
    decreases Magnitude(v)
  {
    var q := TruncDiv(v, base);
    QuotientShrinks(v, base);
    0 <= v - q * base < |DIGITS| && (q != 0 ==> InRange(q, base))
  }

  function Magnitude(v: int): nat { if v < 0 then -v else v }

  lemma QuotientShrinks(v: int, base: int)
    requires 2 <= base
    ensures TruncDiv(v, base) != 0 ==> Magnitude(TruncDiv(v, base)) < Magnitude(v)
    ensures v >= 0 ==> TruncDiv(v, base) >= 0
    ensures v < 0 ==> TruncDiv(v, base) <= 0
  {
    var m := Magnitude(v);
    assert m == m / base * base + m % base;
    if m > 0 && m / base >= m { MulOrder(2, base, m / base); }
  }

  lemma {:induction false} InRangeIffNonNegative(v: int, base: int)
    requires 2 <= base <= 16
    ensures InRange(v, base) <==> v >= 0
    decreases Magnitude(v)
  {
    var q := TruncDiv(v, base);
    QuotientShrinks(v, base);
    DigitIndexInRange(v, base);
    if q != 0 { InRangeIffNonNegative(q, base); }
    if v < 0 && (-v) % base == 0 { assert -v == (-v) / base * base; }
  }

  predicate Printable(value: int, base: int)
  {
    IsInt32(value) && 2 <= base <= 16 && (value >= 0 || (base == 10 && value != INT_MIN))
  }

  /** What the digit loop of itoa starts at: a negative value is negated, in base ten only, in 32 bits. */
  function LoopStart(value: int, base: int): int
  {
    if value < 0 && base == 10 then ToInt32(-value) else value
  }

  /**
   * itoa stays within its digit string exactly for the printable values: all that are not negative, and in
   * base ten the negative ones except INT_MIN, whose negation wraps to itself.
   */
  lemma ItoaInRange(value: int, base: int)
    requires IsInt32(value) && 2 <= base <= 16
    ensures InRange(LoopStart(value, base), base) <==> Printable(value, base)
  {
    InRangeIffNonNegative(LoopStart(value, base), base);
  }

  /** One digit does not decide it: -16 leaves no remainder in base 16, but the second turn has index -1. */
  lemma UnprintableValues()
    ensures var q := TruncDiv(-16, 16); -16 - q * 16 == 0 && q - TruncDiv(q, 16) * 16 == -1
    ensures INT_MIN - TruncDiv(LoopStart(INT_MIN, 10), 10) * 10 == -8
    ensures !InRange(LoopStart(-16, 16), 16) && !InRange(LoopStart(INT_MIN, 10), 10)
  {
    ItoaInRange(-16, 16);
    ItoaInRange(INT_MIN, 10);
  }

  /** The digit loop: least significant digit first. */
  method EmitDigits(value: nat, str: array<char>, start: nat, base: int) returns (ptr: nat)
    requires 2 <= base <= 16
    requires start + |Numeral(value, base)| < str.Length
    modifies str
    ensures ptr == start + |Numeral(value, base)|
    ensures forall k :: start <= k < ptr ==> str[k] == Numeral(value, base)[ptr - 1 - k]
    ensures forall k :: 0 <= k < start || ptr <= k < str.Length ==> str[k] == old(str[k])
  {
    ptr := start;
    var v: int := value;
    ghost var done := "";
    var more := true;
    hide Numeral;
    hide TruncDiv;
    hide LowDigit;
    while more
      invariant 0 <= v && (!more ==> v == 0)
      invariant ptr == start + |done| < str.Length
      invariant forall k :: start <= k < ptr ==> str[k] == done[ptr - 1 - k]
      invariant forall k :: 0 <= k < start || ptr <= k < str.Length ==> str[k] == old(str[k])
      invariant Numeral(value, base) == (if more then Numeral(v, base) else "") + done
      decreases more, v
    {
      var tmpValue := v;
      v := TruncDiv(v, base);
      NumeralUnfold(tmpValue, base);
      ghost var c := LowDigit(tmpValue, base);
      str[ptr] := LowDigit(tmpValue, base);
      ptr := ptr + 1;
      more := v != 0;
      ConcatAssoc(if more then Numeral(v, base) else "", [c], done);
      ghost var longer := [c] + done;
      forall k | start <= k < ptr
        ensures str[k] == longer[ptr - 1 - k]
      {
        if k < ptr - 1 { assert longer[ptr - 1 - k] == done[ptr - 2 - k]; }
      }
      done := longer;
    }
    assert "" + done == done;
  }

  lemma ConcatAssoc(a: string, b: string, c: string)
    ensures a + b + c == a + (b + c)
  {}

  /** The digits of `value` from index `start` on, in reading order, and the terminator. */
  method PrintDigits(value: nat, str: array<char>, start: nat, base: int)
    requires 2 <= base <= 16
    requires start + |Numeral(value, base)| < str.Length
    modifies str
    ensures forall k :: 0 <= k < |Numeral(value, base)| ==> str[start + k] == Numeral(value, base)[k]
    ensures str[start + |Numeral(value, base)|] == '\0'
    ensures forall k :: 0 <= k < start || start + |Numeral(value, base)| < k < str.Length ==> str[k] == old(str[k])
  {
    hide Numeral;
    var ptr := EmitDigits(value, str, start, base);
    str[ptr] := '\0';
    ReverseInPlace(str, start, ptr);
  }

  /** The buffer holds the text and its terminator; the rest is untouched. */
  method Itoa(value: int, str: array<char>, base: int)
    requires Printable(value, base)
    requires |Text(value, base)| < str.Length
    modifies str
    ensures forall k :: 0 <= k < |Text(value, base)| ==> str[k] == Text(value, base)[k]
    ensures str[|Text(value, base)|] == '\0'
    ensures forall k :: |Text(value, base)| < k < str.Length ==> str[k] == old(str[k])
  {
    var v := value;
    var start := 0;
    hide Numeral;
    if v < 0 && base == 10 {
      str[0] := '-';
      v := -v;
      start := 1;
    }
    PrintDigits(v, str, start, base);
    ghost var digits := Numeral(v, base);
    forall k | 0 <= k < |Text(value, base)|
      ensures str[k] == Text(value, base)[k]
    {
      if k >= start { assert str[start + (k - start)] == digits[k - start]; }
    }
  }

  lemma QuotientAndDigit(v: nat, base: int)
    requires 2 <= base <= 16
    ensures var q := TruncDiv(v, base);
      && q == v / base && v - q * base == v % base && 0 <= v % base < base
      && 0 <= q && (q < v || q == v == 0) && (q == 0 <==> v < base)
  {
    var q := v / base;
    assert v == q * base + v % base;
    if v >= base { DivPositive(v, base); } else { SmallQuotient(v, base); }
    if q >= v > 0 { MulGrows(q, base); }
  }

  lemma MulGrows(q: nat, base: int)
    requires base >= 2
    ensures q * base >= 2 * q
  {}

  /** The last digit of `v`, as the table lookup in the source computes it. */
  function LowDigit(v: nat, base: int): char
    requires 2 <= base <= 16
  {
    QuotientAndDigit(v, base);
    DIGITS[v - TruncDiv(v, base) * base]
  }

  lemma NumeralUnfold(v: nat, base: int)
    requires 2 <= base <= 16
    ensures var q := TruncDiv(v, base);
      && 0 <= q && (q < v || q == v == 0)
      && Numeral(v, base) == (if q != 0 then Numeral(q, base) else "") + [LowDigit(v, base)]
  {
    QuotientAndDigit(v, base);
  }

  lemma DivPositive(v: nat, base: int)
    requires 2 <= base <= v
    ensures v / base >= 1
  {
    assert v == v / base * base + v % base;
  }

  lemma SmallQuotient(v: nat, base: int)
    requires v < base
    ensures v / base == 0
  {}

  // ----- Parsing -----

  predicate IsBlank(c: char) { c == ' ' || c == '\t' || c == '\n' }

  function SkipBlanks(s: string): string
  {
    if s != [] && IsBlank(s[0]) then SkipBlanks(s[1..]) else s
  }

  /** The value read from the leading decimal digits of `s`, continuing from `acc`. */
  function Digits(s: string, acc: int): int
  {
    if s != [] && IsDigit(s[0]) then Digits(s[1..], acc * 10 + (s[0] as int - '0' as int)) else acc
  }

  /** The integer that a string denotes, exactly, before it is cut to 32 bits. */
  function Parse(s: string): int
  {
    var t := SkipBlanks(s);
    if t != [] && t[0] == '-' then -Digits(t[1..], 0)
    else if t != [] && t[0] == '+' then Digits(t[1..], 0)
    else Digits(t, 0)
  }

  /** The C string that starts at `at`. */
  function CString(a: seq<char>, at: nat): (s: string)
    requires at <= |a| && '\0' in a[at..]
    decreases |a| - at
  {
    if a[at] == '\0' then "" else [a[at]] + CString(a, at + 1)
  }

  lemma WrapStep(r: int, exact: int, d: int)
    requires r == ToInt32(exact)
    ensures ToInt32(r * 10 + d) == ToInt32(exact * 10 + d)
    ensures ToInt32(-r) == ToInt32(-exact)
  {
    var k := (exact - r) / WORD;
    assert exact == r + k * WORD;
    assert exact * 10 + d == (r * 10 + d) + (k * 10) * WORD;
    assert -exact == -r + (-k) * WORD;
    ModShift(r * 10 + d, k * 10);
    ModShift(-r, -k);
  }

  lemma ModShift(x: int, k: int)
    ensures (x + k * WORD) % WORD == x % WORD
  {}

  lemma CStringStep(a: seq<char>, at: nat)
    requires at < |a| && '\0' in a[at..]
    ensures a[at] == '\0' ==> CString(a, at) == ""
    ensures a[at] != '\0' ==>
      && at + 1 < |a| && '\0' in a[at + 1..]
      && CString(a, at) == [a[at]] + CString(a, at + 1) && CString(a, at)[1..] == CString(a, at + 1)
  {}

  lemma SkipBlanksStep(a: seq<char>, at: nat)
    requires at < |a| && '\0' in a[at..]
    ensures var s := CString(a, at);
      SkipBlanks(s) == if IsBlank(a[at]) then SkipBlanks(CString(a, at + 1)) else s
  {
    CStringStep(a, at);
  }

  lemma DigitsStep(a: seq<char>, at: nat, acc: int)
    requires at < |a| && '\0' in a[at..]
    ensures var s := CString(a, at);
      Digits(s, acc) ==
        if IsDigit(a[at]) then Digits(CString(a, at + 1), acc * 10 + (a[at] as int - '0' as int)) else acc
  {
    CStringStep(a, at);
  }

  /** atoi computes the denoted integer modulo 2^32, hence exactly when that fits an `int`. */
  method Atoi(a: array<char>) returns (r: int)
    requires '\0' in a[..]
    ensures r == ToInt32(Parse(CString(a[..], 0)))
  {
    hide CString, Digits, SkipBlanks, ToInt32;
    var result := 0;
    var sign := 1;
    var p := 0;
    ghost var text := a[..];
    assert text[0..] == text;
    while a[p] == ' ' || a[p] == '\t' || a[p] == '\n'
      invariant p < |text| && '\0' in text[p..]
      invariant SkipBlanks(CString(text, 0)) == SkipBlanks(CString(text, p))
      decreases |text| - p
    {
      CStringStep(text, p);
      SkipBlanksStep(text, p);
      p := p + 1;
    }
    CStringStep(text, p);
    SkipBlanksStep(text, p);
    if a[p] == '-' {
      sign := -1;
      p := p + 1;
    } else if a[p] == '+' {
      p := p + 1;
    }
    ghost var digits := CString(text, p);
    ghost var exact := 0;
    assert Parse(CString(text, 0)) == if sign == 1 then Digits(digits, 0) else -Digits(digits, 0);
    hide Parse;
    ToInt32Small(0);
    while '0' <= a[p] <= '9'
      invariant p < |text| && '\0' in text[p..]
      invariant result == ToInt32(exact)
      invariant Digits(digits, 0) == Digits(CString(text, p), exact)
      invariant sign == 1 || sign == -1
      decreases |text| - p
    {
      CStringStep(text, p);
      ghost var d := a[p] as int - '0' as int;
      DigitsStep(text, p, exact);
      WrapStep(result, exact, d);
      result := ToInt32(result * 10 + (a[p] as int - '0' as int));
      exact := exact * 10 + d;
      p := p + 1;
    }
    DigitsStep(text, p, exact);
    WrapStep(result, exact, 0);
    ToInt32Small(result);
    r := ToInt32(sign * result);
    assert sign * result == if sign == 1 then result else -result;
  }

  lemma ToInt32Small(x: int)
    requires IsInt32(x)
    ensures ToInt32(x) == x
  {}

  // ----- The round trip -----

  lemma {:induction false} DigitsOfValue(ds: string, rest: string)
    requires forall k :: 0 <= k < |ds| ==> '0' <= ds[k] <= '9'
    ensures Digits(ds + rest, 0) == Digits(rest, Value(ds, 10))
  {
    if ds == "" {
      assert ds + rest == rest;
    } else {
      var front, c := ds[..|ds| - 1], ds[|ds| - 1];
      DigitsOfValue(front, [c] + rest);
      assert ds + rest == front + ([c] + rest);
      assert ([c] + rest)[1..] == rest;
    }
  }

  lemma {:induction false} SkipAllBlanks(blanks: string, s: string)
    requires forall k :: 0 <= k < |blanks| ==> IsBlank(blanks[k])
    requires s == "" || !IsBlank(s[0])
    ensures SkipBlanks(blanks + s) == s
  {
    if blanks == "" {
      assert blanks + s == s;
    } else {
      SkipAllBlanks(blanks[1..], s);
      assert (blanks + s)[1..] == blanks[1..] + s;
    }
  }

  /** What is read: blanks, a sign or none, digits or none (zero then), and whatever follows. */
  lemma ParseMeaning(blanks: string, sign: string, ds: string, rest: string)
    requires forall k :: 0 <= k < |blanks| ==> blanks[k] in " \t\n"
    requires sign == "" || sign == "+" || sign == "-"
    requires forall k :: 0 <= k < |ds| ==> '0' <= ds[k] <= '9'
    requires rest != "" ==> !('0' <= rest[0] <= '9')
    requires sign + ds == "" && rest != "" ==> rest[0] !in " \t\n+-"
    ensures Parse(blanks + (sign + (ds + rest))) == if sign == "-" then -Value(ds, 10) else Value(ds, 10)
  {
    hide Value;
    var t := sign + (ds + rest);
    assert sign != "" ==> t[0] == sign[0] && t[1..] == ds + rest;
    assert sign == "" ==> t == ds + rest;
    assert ds != "" ==> (ds + rest)[0] == ds[0];
    assert ds == "" ==> ds + rest == rest;
    SkipAllBlanks(blanks, t);
    DigitsOfValue(ds, rest);
  }

  /** Reading a printed number gives it back, whatever blanks precede it and non-digits follow it. */
  lemma ParseText(blanks: string, value: int, rest: string)
    requires forall k :: 0 <= k < |blanks| ==> blanks[k] in " \t\n"
    requires rest != "" ==> !('0' <= rest[0] <= '9')
    ensures Parse(blanks + (Text(value, 10) + rest)) == value
  {
    hide Numeral, Value, Parse;
    var n: nat := if value < 0 then -value else value;
    NumeralDenotes(n, 10);
    var sign := if value < 0 then "-" else "";
    ParseMeaning(blanks, sign, Numeral(n, 10), rest);
    assert sign + (Numeral(n, 10) + rest) == Text(value, 10) + rest;
  }

  /** The two routines, one after the other on the same buffer, for every `int` but INT_MIN. */
  method PrintThenParse(value: int, str: array<char>) returns (r: int)
    requires IsInt32(value) && value != INT_MIN
    requires |Text(value, 10)| < str.Length
    modifies str
    ensures r == value
  {
    Itoa(value, str, 10);
    ghost var s := str[..];
    ghost var len := |Text(value, 10)|;
    assert s[len] == '\0' && s[len] in s;
    assert s[0..len] == Text(value, 10);
    ParseText("", value, "");
    assert "" + (Text(value, 10) + "") == Text(value, 10);
    TextHasNoNul(value);
    CStringIs(s, 0, Text(value, 10));
    r := Atoi(str);
  }

  lemma {:induction false} CStringIs(a: seq<char>, at: nat, s: string)
    requires at + |s| < |a| && a[at..at + |s|] == s && a[at + |s|] == '\0' && '\0' !in s
    ensures '\0' in a[at..] && CString(a, at) == s
    decreases |s|
  {
    assert a[at..][|s|] == '\0';
    if s != "" {
      assert a[at] == s[0] && s[0] in s;
      CStringIs(a, at + 1, s[1..]);
    }
  }

  lemma TextHasNoNul(value: int)
    ensures '\0' !in Text(value, 10)
  {
    hide Numeral, Value;
    NumeralDenotes(if value < 0 then -value else value, 10);
  }
}
