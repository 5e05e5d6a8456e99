/**
 * The token vocabulary of the src/ lexer (src/lexer.h:13-83) and its pure
 * helpers in src/lexer.c: the tag values, the 8-byte `Token` whose second
 * word is a union read as tag (low 8 bits) plus aux data (upper 24 bits),
 * the `Intern` record, keyword classification and the bracket hash.
 */
module Tokens {
  import opened Bits
  import opened CText

  const TokInvalid: byte := 0x00
  const TokLitInt: byte := 0x02
  const TokLitStr: byte := 0x03
  const TokValId: byte := 0x08
  const TokTypeId: byte := 0x09
  const TokParenO: byte := 0x28
  const TokParenC: byte := 0x29
  const TokHyphon: byte := 0x2D
  const TokColon: byte := 0x3A
  const TokSemi: byte := 0x3B
  const TokLess: byte := 0x3C
  const TokBrackO: byte := 0x5B
  const TokBrackC: byte := 0x5D
  const TokBraceO: byte := 0x7B
  const TokBraceC: byte := 0x7D
  const TokKwFn: byte := 0x81
  const TokKwU8: byte := 0x82
  const TokKwS8: byte := 0x83
  const TokKwArrow: byte := 0x86
  const TokKwSubty: byte := 0x87
  const TokKwAss: byte := 0x90
  const TokKwAsu: byte := 0x91
  const TokKwLet: byte := 0x92
  const TokKwU16: byte := 0x93
  const TokKwU32: byte := 0x94
  const TokKwU64: byte := 0x95
  const TokKwS16: byte := 0x96
  const TokKwS32: byte := 0x97
  const TokKwS64: byte := 0x98
  const TokKwHole: byte := 0xA0
  const TokKwRetrn: byte := 0xB0

  /**
   * A token: `pos` (a u32) and the union word split into `tag`, its low
   * byte, and `aux`, its upper 24 bits.
   */
  datatype Token = Token(pos: nat, tag: byte, aux: nat)

  /** The all-zero `Token tok = {0}`: tag TOK_INVALID. */
  const ZeroToken := Token(0, 0, 0)

  predicate WellFormed(t: Token)
  {
    t.pos < U32 && t.aux < U24
  }

  /** The union word `tag | aux << 8`. */
  function Word(t: Token): (w: nat)
    requires WellFormed(t)
    ensures w < U32 && w % U8 == t.tag && w / U8 == t.aux
  {
    t.tag + U8 * t.aux
  }

  /** The token whose union word is `w`. */
  function OfWord(pos: nat, w: nat): (t: Token)
    requires pos < U32 && w < U32
    ensures WellFormed(t) && t.pos == pos && Word(t) == w
  {
    Token(pos, w % U8, w / U8)
  }

  /** Splitting a token's word and reassembling it gives the token back. */
  lemma WordRoundTrip(t: Token)
    requires WellFormed(t)
    ensures OfWord(t.pos, Word(t)) == t
  {
  }

  /** `matching_scp >> 8`: the aux bits as a signed 24-bit number (an arithmetic shift of the int32 word). */
  function Signed24(aux: nat): (d: int)
    requires aux < U24
    ensures -0x80_0000 <= d < 0x80_0000 && Wrap24(d) == aux
  {
    if aux < 0x80_0000 then aux else aux - U24
  }

  /** A displacement stored with `<< 8` reads back unchanged when it fits in 24 signed bits. */
  lemma Signed24RoundTrip(d: int)
    requires -0x80_0000 <= d < 0x80_0000
    ensures Signed24(Wrap24(d)) == d
  {
  }

  /** `Intern {uint16_t len; uint16_t idx;}`; in the union word `len` is the low half. */
  datatype Intern = Intern(len: nat, idx: nat)

  function InternWord(i: Intern): (w: nat)
    requires i.len < U16 && i.idx < U16
    ensures w < U32
  {
    i.len + U16 * i.idx
  }

  /** `as_intern`: the Intern record overlaid on a token's union word. */
  function AsIntern(t: Token): (i: Intern)
    requires WellFormed(t)
    ensures i.len < U16 && i.idx < U16 && InternWord(i) == Word(t)
  {
    Intern(Word(t) % U16, Word(t) / U16)
  }

  /** Storing an Intern in a token and reading `as_intern` back gives the record back. */
  lemma InternRoundTrip(pos: nat, i: Intern)
    requires pos < U32 && i.len < U16 && i.idx < U16
    ensures AsIntern(OfWord(pos, InternWord(i))) == i
  {
  }

  /**
   * The length field written for an `n`-byte text, `(uint16_t)(n << 8)`,
   * and what `len >> 8` gives back: `n` modulo 256. It is `n` exactly when
   * `n <= 255`.
   */
  function LenField(n: nat): (f: nat)
    ensures f < U16 && f % U8 == 0
  {
    Wrap16(n * U8)
  }

  lemma LenFieldReadBack(n: nat)
    ensures LenField(n) / U8 == n % U8
    ensures LenField(n) / U8 == n <==> n <= 255
  {
  }

  /** An interned token: the Intern word with `kind` OR-ed into its (zero) low byte. */
  lemma InternTokenTag(pos: nat, n: nat, idx: nat, kind: byte)
    requires pos < U32 && idx < U16
    ensures var t := OfWord(pos, InternWord(Intern(LenField(n), idx)));
      t.tag == 0 && BitOr(t.tag, kind) == kind && t.aux == n % U8 + U8 * idx
  {
  }

  datatype Kw = Kw(text: seq<byte>, tag: byte)

  const KwFn: seq<byte> := [0x66, 0x6E]                  // "fn"
  const KwU8: seq<byte> := [0x75, 0x38]                  // "u8"
  const KwS8: seq<byte> := [0x73, 0x38]                  // "s8"
  const KwAss: seq<byte> := [0x61, 0x73, 0x73]           // "ass"
  const KwAsu: seq<byte> := [0x61, 0x73, 0x75]           // "asu"
  const KwLet: seq<byte> := [0x6C, 0x65, 0x74]           // "let"
  const KwU16: seq<byte> := [0x75, 0x31, 0x36]           // "u16"
  const KwU32: seq<byte> := [0x75, 0x33, 0x32]           // "u32"
  const KwU64: seq<byte> := [0x75, 0x36, 0x34]           // "u64"
  const KwS16: seq<byte> := [0x73, 0x31, 0x36]           // "s16"
  const KwS32: seq<byte> := [0x73, 0x33, 0x32]           // "s32"
  const KwS64: seq<byte> := [0x73, 0x36, 0x34]           // "s64"
  const KwHole: seq<byte> := [0x68, 0x6F, 0x6C, 0x65]    // "hole"
  const KwReturn: seq<byte> := [0x72, 0x65, 0x74, 0x75, 0x72, 0x6E]  // "return"

  /** Every keyword with its tag (src/lexer.h:48-70). */
  const Keywords: seq<Kw> := [
    Kw(KwFn, TokKwFn), Kw(KwU8, TokKwU8), Kw(KwS8, TokKwS8),
    Kw(KwAss, TokKwAss), Kw(KwAsu, TokKwAsu), Kw(KwLet, TokKwLet),
    Kw(KwU16, TokKwU16), Kw(KwU32, TokKwU32), Kw(KwU64, TokKwU64),
    Kw(KwS16, TokKwS16), Kw(KwS32, TokKwS32), Kw(KwS64, TokKwS64),
    Kw(KwHole, TokKwHole), Kw(KwReturn, TokKwRetrn)]

  predicate IsKeyword(w: seq<byte>)
  {
    exists k :: 0 <= k < |Keywords| && Keywords[k].text == w
  }

  /**
   * hash_kw as compiled on x86-64 (src/lexer.c:198-262): by length, the
   * masked load of the identifier is compared lane by lane with the
   * keywords of that length, and the first matching lane's index is added
   * to the tag of the first keyword of that length.
   */
  function HashKw(w: seq<byte>): (r: byte)
    ensures r == TokValId || TokKwFn <= r
  {
    if |w| == 2 then
      if w == KwFn then TokKwFn + 0
      else if w == KwU8 then TokKwFn + 1
      else if w == KwS8 then TokKwFn + 2
      else TokValId
    else if |w| == 3 then
      if w == KwAss then TokKwAss + 0
      else if w == KwAsu then TokKwAss + 1
      else if w == KwLet then TokKwAss + 2
      else if w == KwU16 then TokKwAss + 3
      else if w == KwU32 then TokKwAss + 4
      else if w == KwU64 then TokKwAss + 5
      else if w == KwS16 then TokKwAss + 6
      else if w == KwS32 then TokKwAss + 7
      else if w == KwS64 then TokKwAss + 8
      else TokValId
    else if |w| == 4 then
      if w == KwHole then TokKwHole else TokValId
    else if |w| == 6 then
      if w == KwReturn then TokKwRetrn else TokValId
    else TokValId
  }

  /** hash_kw yields exactly the keyword's own tag for a keyword and TOK_VAL_ID for anything else. */
  lemma HashKwClassifies(w: seq<byte>)
    ensures forall k :: 0 <= k < |Keywords| && Keywords[k].text == w ==> HashKw(w) == Keywords[k].tag
    ensures !IsKeyword(w) <==> HashKw(w) == TokValId
  {
    if HashKw(w) != TokValId {
      var k :| 0 <= k < |Keywords| && Keywords[k].text == w && Keywords[k].tag == HashKw(w) by {
        if w == KwFn { assert Keywords[0].text == w; }
        else if w == KwU8 { assert Keywords[1].text == w; }
        else if w == KwS8 { assert Keywords[2].text == w; }
        else if w == KwAss { assert Keywords[3].text == w; }
        else if w == KwAsu { assert Keywords[4].text == w; }
        else if w == KwLet { assert Keywords[5].text == w; }
        else if w == KwU16 { assert Keywords[6].text == w; }
        else if w == KwU32 { assert Keywords[7].text == w; }
        else if w == KwU64 { assert Keywords[8].text == w; }
        else if w == KwS16 { assert Keywords[9].text == w; }
        else if w == KwS32 { assert Keywords[10].text == w; }
        else if w == KwS64 { assert Keywords[11].text == w; }
        else if w == KwHole { assert Keywords[12].text == w; }
        else { assert Keywords[13].text == w; }
      }
    }
  }

  /**
   * `!memcmp(s, lit, len)` for an identifier `s` of `len` bytes against a
   * NUL-terminated literal. Identifiers hold no NUL byte, so the bytes
   * differ at the literal's terminator at the latest: the comparison
   * succeeds exactly when `s` is a prefix of the literal.
   */
  predicate PrefixOf(w: seq<byte>, lit: seq<byte>)
  {
    |w| <= |lit| && forall i :: 0 <= i < |w| ==> w[i] == lit[i]
  }

  /**
   * hash_kw without x86-64 (src/lexer.c:147-182): for lengths 2, 3, 4 and
   * 6, the first literal in the memcmp chain that the identifier is a
   * prefix of decides the tag.
   */
  function HashKwPortable(w: seq<byte>): byte
  {
    if |w| != 2 && |w| != 6 && |w| != 3 && |w| != 4 then TokValId
    else if PrefixOf(w, KwReturn) then TokKwRetrn
    else if PrefixOf(w, KwAss) then TokKwAss
    else if PrefixOf(w, KwAsu) then TokKwAsu
    else if PrefixOf(w, KwU8) then TokKwU8
    else if PrefixOf(w, KwU16) then TokKwU16
    else if PrefixOf(w, KwU32) then TokKwU32
    else if PrefixOf(w, KwU64) then TokKwU64
    else if PrefixOf(w, KwS8) then TokKwS8
    else if PrefixOf(w, KwS16) then TokKwS16
    else if PrefixOf(w, KwS32) then TokKwS32
    else if PrefixOf(w, KwS64) then TokKwS64
    else if PrefixOf(w, KwLet) then TokKwLet
    else if PrefixOf(w, KwFn) then TokKwFn
    else if PrefixOf(w, KwHole) then TokKwHole
    else TokValId
  }

  /** The portable chain maps each keyword's text to the keyword's tag. */
  lemma PortableKeywordTag(k: nat)
    requires k < |Keywords|
    ensures HashKwPortable(Keywords[k].text) == Keywords[k].tag
  {
    if k < 3 {
      PortableTwoLetter(k);
    } else if k < 12 {
      PortableThreeLetter(k);
    } else {
      var w := Keywords[k].text;
      assert w[0] == Keywords[k].text[0] && w[1] == Keywords[k].text[1] && w[2] == Keywords[k].text[2];
      assert !PrefixOf(w, KwU16) && !PrefixOf(w, KwU32) && !PrefixOf(w, KwU64);
    }
  }

  /** The two-letter keywords `fn`, `u8` and `s8`. */
  lemma PortableTwoLetter(k: nat)
    requires k < 3
    ensures HashKwPortable(Keywords[k].text) == Keywords[k].tag
  {
    var w := Keywords[k].text;
    assert w[0] == Keywords[k].text[0] && w[1] == Keywords[k].text[1];
    assert !PrefixOf(w, KwReturn) && !PrefixOf(w, KwAss) && !PrefixOf(w, KwAsu);
  }

  /** The three-letter keywords, from `ass` to `s64`. */
  lemma PortableThreeLetter(k: nat)
    requires 3 <= k < 12
    ensures HashKwPortable(Keywords[k].text) == Keywords[k].tag
  {
    var w := Keywords[k].text;
    assert w[0] == Keywords[k].text[0] && w[1] == Keywords[k].text[1] && w[2] == Keywords[k].text[2];
    assert !PrefixOf(w, KwReturn) by {
      FirstDiffers(w, KwReturn);
    }
    if k < 6 {
      PortableThreeAL(k);
    } else {
      PortableThreeUS(k);
    }
  }

  /** A word whose first byte differs from a literal's is not a prefix of it. */
  lemma FirstDiffers(w: seq<byte>, lit: seq<byte>)
    requires |w| > 0 && |lit| > 0 && w[0] != lit[0]
    ensures !PrefixOf(w, lit)
  {
  }

  /** `ass`, `asu` and `let`. */
  lemma PortableThreeAL(k: nat)
    requires 3 <= k < 6
    ensures HashKwPortable(Keywords[k].text) == Keywords[k].tag
  {
    var w := Keywords[k].text;
    assert w[0] == Keywords[k].text[0] && w[1] == Keywords[k].text[1] && w[2] == Keywords[k].text[2];
  }

  /** `u16` to `s64`: no `a` word comes first in the chain. */
  lemma PortableThreeUS(k: nat)
    requires 6 <= k < 12
    ensures HashKwPortable(Keywords[k].text) == Keywords[k].tag
  {
    var w := Keywords[k].text;
    assert w[0] == Keywords[k].text[0] && w[1] == Keywords[k].text[1] && w[2] == Keywords[k].text[2];
    FirstDiffers(w, KwReturn);
    FirstDiffers(w, KwAss);
    FirstDiffers(w, KwAsu);
  }

  /** On the exact keywords the portable chain agrees with the x86-64 classification. */
  lemma PortableAgreesOnKeywords(w: seq<byte>)
    requires IsKeyword(w)
    ensures HashKwPortable(w) == HashKw(w)
  {
    var k :| 0 <= k < |Keywords| && Keywords[k].text == w;
    PortableKeywordTag(k);
    HashKwClassifies(w);
  }

  /**
   * The two classifications differ only on identifiers that are a proper
   * prefix of a keyword, such as "as" (TOK_KW_ASS on the portable path)
   * and "re" (TOK_KW_RETRN).
   */
  lemma PortableDiffersOnPrefixes(w: seq<byte>)
    requires HashKwPortable(w) != HashKw(w)
    ensures exists k :: 0 <= k < |Keywords| && |w| < |Keywords[k].text| && PrefixOf(w, Keywords[k].text)
  {
    HashKwClassifies(w);
    if IsKeyword(w) {
      PortableAgreesOnKeywords(w);
    }
    var lit :=
      if PrefixOf(w, KwReturn) then 13 else if PrefixOf(w, KwAss) then 3
      else if PrefixOf(w, KwAsu) then 4 else if PrefixOf(w, KwU8) then 1
      else if PrefixOf(w, KwU16) then 6 else if PrefixOf(w, KwU32) then 7
      else if PrefixOf(w, KwU64) then 8 else if PrefixOf(w, KwS8) then 2
      else if PrefixOf(w, KwS16) then 9 else if PrefixOf(w, KwS32) then 10
      else if PrefixOf(w, KwS64) then 11 else if PrefixOf(w, KwLet) then 5
      else if PrefixOf(w, KwFn) then 0 else 12;
    assert PrefixOf(w, Keywords[lit].text);
  }

  /** "as" and "re" are identifiers, but the portable chain takes them for `ass` and `return`. */
  lemma PortablePrefixKeywords()
    ensures HashKw([0x61, 0x73]) == TokValId && HashKwPortable([0x61, 0x73]) == TokKwAss
    ensures HashKw([0x72, 0x65]) == TokValId && HashKwPortable([0x72, 0x65]) == TokKwRetrn
  {
    var wAs, wRe: seq<byte> := [0x61, 0x73], [0x72, 0x65];
    assert wAs[0] == 0x61 && wAs[1] == 0x73;
    assert wRe[0] == 0x72 && wRe[1] == 0x65;
  }

  predicate IsOpener(c: byte) { c == TokParenO || c == TokBrackO || c == TokBraceO }
  predicate IsCloser(c: byte) { c == TokParenC || c == TokBrackC || c == TokBraceC }

  /** The closing bracket of an opening one. */
  function CloserOf(c: byte): byte
    requires IsOpener(c)
  {
    if c == TokParenO then TokParenC else if c == TokBrackO then TokBrackC else TokBraceC
  }

  /** `((uint8_t)((c & 0xf) + (c >> 4)) - bias) >> 2` with u8 arithmetic (src/lexer.c:380-382, 395-397). */
  function BracketHash(c: byte, bias: nat): nat
  {
    Wrap8(Wrap8(c % 16 + c / 16) - bias) / 4
  }

  /** The hash sends `(`, `[`, `{` with bias 10 and `)`, `]`, `}` with bias 11 to rows 0, 1, 2. */
  lemma BracketHashRows()
    ensures BracketHash(TokParenO, 10) == 0 && BracketHash(TokParenC, 11) == 0
    ensures BracketHash(TokBrackO, 10) == 1 && BracketHash(TokBrackC, 11) == 1
    ensures BracketHash(TokBraceO, 10) == 2 && BracketHash(TokBraceC, 11) == 2
  {
    BracketHashOf(TokParenO, 10, 2, 8);
    BracketHashOf(TokParenC, 11, 2, 9);
    BracketHashOf(TokBrackO, 10, 5, 11);
    BracketHashOf(TokBrackC, 11, 5, 13);
    BracketHashOf(TokBraceO, 10, 7, 11);
    BracketHashOf(TokBraceC, 11, 7, 13);
  }

  /** The hash of a byte with high nibble `hi` and low nibble `lo` whose sum is at least the bias. */
  lemma BracketHashOf(c: byte, bias: nat, hi: nat, lo: nat)
    requires c == 16 * hi + lo && lo < 16 && bias <= lo + hi
    ensures BracketHash(c, bias) == (lo + hi - bias) / 4
  {
    DivModUnique(c, 16, hi, lo);
    DivModUnique(lo + hi, U8, 0, lo + hi);
    DivModUnique(lo + hi - bias, U8, 0, lo + hi - bias);
  }

  /** The bracket row of an opener or closer: both of a matching pair share it. */
  function Row(c: byte): (h: nat)
    requires IsOpener(c) || IsCloser(c)
    ensures h < 3
    ensures IsOpener(c) ==> h == BracketHash(c, 10)
    ensures IsCloser(c) ==> h == BracketHash(c, 11)
  {
    BracketHashRows();
    if c == TokParenO || c == TokParenC then 0
    else if c == TokBrackO || c == TokBrackC then 1
    else 2
  }

  /** Each bracket is the opener of its row, or that opener's closer. */
  lemma RowBracket(c: byte)
    requires IsOpener(c) || IsCloser(c)
    ensures IsOpener(c) ==> c == OpenerOfRow(Row(c))
    ensures IsCloser(c) ==> c == CloserOf(OpenerOfRow(Row(c)))
  {
  }

  /** An opening bracket and its closing bracket share a row. */
  lemma RowPair(c: byte)
    requires IsOpener(c)
    ensures Row(CloserOf(c)) == Row(c)
  {
  }

  /** The opener of row `h`. */
  function OpenerOfRow(h: nat): (c: byte)
    requires h < 3
    ensures IsOpener(c) && Row(c) == h
  {
    if h == 0 then TokParenO else if h == 1 then TokBrackO else TokBraceO
  }
}
