/**
 * Bytes of source text and the pieces of the C library both lexers rely on:
 * the `<ctype.h>` classes in the "C" locale, `strtoll`/`strtol` with base 0
 * (C11 7.22.1.4) started on a digit, and the escape decoding `unescape`,
 * which is the same code in both revisions (src/lexer.c:116-144 and
 * lexer.c:103-132).
 */
module CText {
  import opened Bits

  type byte = x: int | 0 <= x < 256

  /** LLONG_MAX, the value `strtoll` and `strtol` saturate to (both are 64-bit here). */
  const LLongMax: nat := 0x7FFF_FFFF_FFFF_FFFF

  /**
   * The byte at index `i` of the source. The driver allocates one byte more
   * than the file and stores NUL there (src/parser.c:222-226), so reading at
   * the end yields 0; the lexers never read further.
   */
  function At(src: seq<byte>, i: int): byte
  {
    if 0 <= i < |src| then src[i] else 0
  }

  function Ord(c: char): byte
    requires c as int < 256
  {
    c as int
  }

  predicate IsSpace(c: byte) { c == 0x20 || 0x09 <= c <= 0x0D }
  predicate IsDigit(c: byte) { 0x30 <= c <= 0x39 }
  predicate IsLower(c: byte) { 0x61 <= c <= 0x7A }
  predicate IsUpper(c: byte) { 0x41 <= c <= 0x5A }
  predicate IsAlnum(c: byte) { IsDigit(c) || IsLower(c) || IsUpper(c) }
  /** Printable, neither alphanumeric nor space. Bytes of 0x80 and above are `char` values below zero and in no class. */
  predicate IsPunct(c: byte) { 0x21 <= c <= 0x7E && !IsAlnum(c) }
  /** What the identifier loops accept: `isalnum(c) || c == '_'`. */
  predicate IsWordByte(c: byte) { IsAlnum(c) || c == 0x5F }

  predicate IsDigitIn(c: byte, base: nat)
    requires base == 8 || base == 10 || base == 16
  {
    if base == 8 then 0x30 <= c <= 0x37
    else if base == 10 then IsDigit(c)
    else IsDigit(c) || 0x41 <= c <= 0x46 || 0x61 <= c <= 0x66
  }

  function DigitValue(c: byte): (r: nat)
    ensures r < 16 || !(IsDigit(c) || 0x41 <= c <= 0x46 || 0x61 <= c <= 0x66)
  {
    if IsDigit(c) then c - 0x30
    else if 0x41 <= c <= 0x46 then c - 0x41 + 10
    else if 0x61 <= c <= 0x66 then c - 0x61 + 10
    else 0
  }

  /** End of the longest run of digits of `base` starting at `j`. */
  function RunEnd(src: seq<byte>, j: nat, base: nat): (r: nat)
    requires j <= |src| && (base == 8 || base == 10 || base == 16)
    ensures j <= r <= |src|
    ensures !IsDigitIn(At(src, r), base)
    ensures forall k :: j <= k < r ==> IsDigitIn(src[k], base)
    decreases |src| - j
  {
    if j < |src| && IsDigitIn(src[j], base) then RunEnd(src, j + 1, base) else j
  }

  /** The value of the digits `src[i..j]` read in `base`. */
  function RunValue(src: seq<byte>, i: nat, j: nat, base: nat): nat
    requires i <= j <= |src|
    decreases j - i
  {
    if j == i then 0 else RunValue(src, i, j - 1, base) * base + DigitValue(src[j - 1])
  }

  datatype Number = Number(value: nat, end: nat)

  /**
   * `strtoll(src + i, &end, 0)` when `src[i]` is a digit: a `0x`/`0X` prefix
   * followed by a hexadecimal digit selects base 16, any other leading `0`
   * base 8, anything else base 10; the value saturates at LLONG_MAX. The
   * cursor stops at the first byte that is not a digit of the chosen base,
   * so `"0x"` alone reads only the `0`, and `"08"` reads only the `0`.
   */
  function StrToLL(src: seq<byte>, i: nat): (r: Number)
    requires i < |src| && IsDigit(src[i])
    ensures i < r.end <= |src| && r.value <= LLongMax
    ensures IsDigit(At(src, r.end)) ==> src[i] == Ord('0')
  {
    var n :=
      if src[i] == Ord('0') && (At(src, i + 1) == Ord('x') || At(src, i + 1) == Ord('X'))
         && IsDigitIn(At(src, i + 2), 16)
      then var e := RunEnd(src, i + 2, 16); Number(RunValue(src, i + 2, e, 16), e)
      else if src[i] == Ord('0')
      then var e := RunEnd(src, i, 8); Number(RunValue(src, i, e, 8), e)
      else var e := RunEnd(src, i, 10); Number(RunValue(src, i, e, 10), e);
    Number(if n.value <= LLongMax then n.value else LLongMax, n.end)
  }

  datatype Escape = Escape(c: byte, end: nat)

  /**
   * `unescape(&s)`: a digit starts a number read by `strtol` with base 0
   * (truncated to a `char`) and moves the cursor past it; a letter of the C
   * escape set, GNU `\e` or a backslash gives its code and does NOT move the
   * cursor; anything else gives 0 and does not move it either.
   */
  function Unescape(src: seq<byte>, i: nat): (r: Escape)
    requires i < |src|
    ensures IsDigit(src[i]) ==> i < r.end <= |src|
    ensures !IsDigit(src[i]) ==> r.end == i
  {
    var c := src[i];
    if IsDigit(c) then
      var n := StrToLL(src, i);
      Escape(Wrap8(n.value), n.end)
    else
      Escape(EscapeCode(c), i)
  }

  /** The code a non-digit escape letter stands for (C11 6.4.4.4 plus GNU `\e`), 0 for any other byte. */
  function EscapeCode(c: byte): byte
  {
    if c == Ord('a') then 0x07
    else if c == Ord('b') then 0x08
    else if c == Ord('t') then 0x09
    else if c == Ord('n') then 0x0A
    else if c == Ord('v') then 0x0B
    else if c == Ord('f') then 0x0C
    else if c == Ord('r') then 0x0D
    else if c == Ord('e') then 0x1B
    else if c == Ord('\\') then Ord('\\')
    else 0
  }

  /** Base-0 examples: hexadecimal, octal, decimal, and the prefixes that stop early. */
  lemma StrToLLExamples()
    ensures StrToLL([0x30, 0x78, 0x31, 0x46], 0) == Number(31, 4)   // "0x1F"
    ensures StrToLL([0x30, 0x31, 0x37], 0) == Number(15, 3)         // "017"
    ensures StrToLL([0x34, 0x32, 0x3B], 0) == Number(42, 2)         // "42;"
    ensures StrToLL([0x30, 0x38], 0) == Number(0, 1)                // "08"
    ensures StrToLL([0x30, 0x78, 0x3B], 0) == Number(0, 1)          // "0x;"
  {
    var a: seq<byte> := [0x30, 0x78, 0x31, 0x46];
    assert RunEnd(a, 2, 16) == 4;
    var b: seq<byte> := [0x30, 0x31, 0x37];
    assert RunEnd(b, 0, 8) == 3;
    var c: seq<byte> := [0x34, 0x32, 0x3B];
    assert RunEnd(c, 0, 10) == 2;
    var d: seq<byte> := [0x30, 0x38];
    assert RunEnd(d, 0, 8) == 1;
    var e: seq<byte> := [0x30, 0x78, 0x3B];
    assert RunEnd(e, 0, 8) == 1;
  }
}
