/**
 * The lexer of the earlier revision (lexer.c with lexer.h). It walks an
 * index `pos` up to `end` over the source, emits one token per iteration
 * into growable buffers, and pairs brackets by storing ABSOLUTE token
 * indices in the upper 24 bits of both partners' union word.
 *
 * The source is `src: seq<byte>` and `end <= |src|` the `Lexer.end` bound;
 * bytes at and after `end` are still readable (the driver stores a NUL
 * after the file), and reads past `|src|` yield that NUL (`At`).
 *
 * The loop can fail to terminate: an unmatched closer neither advances nor
 * changes any state except the token buffer, so it is re-lexed forever.
 * The model reports that as `Hangs`. An out-of-bounds access reports
 * `Faults`.
 */
module RootLexer {
  import opened Bits
  import opened CText
  import RootBuffer

  const MaxInternLen: nat := 0xFF
  const MaxScopeDepth: nat := 10
  /** Sources are kept below 2^21 bytes, so every buffer, the token buffer included, stays inside `next_pow2`'s domain. */
  const MaxSrc: nat := 0x20_0000

  /** Token tags (lexer.h:15-44). */
  const Invalid: nat := 0x00
  const LitInt: nat := 0x02
  const LitStr: nat := 0x03
  const ValId: nat := 0x08
  const TypeId: nat := 0x09
  const Hyphon: nat := 0x2D
  const KwFn: nat := 0x81
  const KwAs: nat := 0x82
  const KwRet: nat := 0x83
  const KwArrow: nat := 0x84

  const Newline: byte := 0x0A
  const Quote: byte := 0x22
  const Star: byte := 0x2A
  const Minus: byte := 0x2D
  const Slash: byte := 0x2F
  const Greater: byte := 0x3E
  const Backslash: byte := 0x5C

  /** The keyword spellings `hash_kw` compares against. */
  const ReturnText: seq<byte> := [0x72, 0x65, 0x74, 0x75, 0x72, 0x6E]
  const AsText: seq<byte> := [0x61, 0x73]
  const FnText: seq<byte> := [0x66, 0x6E]
  /** The first two bytes of `return`, which `hash_kw` also takes for `return`. */
  const ReText: seq<byte> := [0x72, 0x65]

  /**
   * Token (lexer.h:46-56): a position and the 32-bit union word. The low
   * byte of the word is read as the tag; bracket partners, literal indices
   * and `Intern` records share the same word.
   */
  datatype Token = Token(pos: nat, word: nat)

  /** `Token tok = {0}`: position 0, tag INVALID. */
  const ZeroToken: Token := Token(0, 0)

  /** `tok.tag & 0xff`. */
  function TagOf(t: Token): nat
  {
    t.word % U8
  }

  /** Intern (lexer.h:9-13): two 16-bit fields, the length field first. */
  datatype Intern = Intern(len: nat, idx: nat)

  /** The union word holding an `Intern`: `len` in the low half, `idx` in the high half (little-endian layout). */
  function InternWord(i: Intern): (w: nat)
    requires i.len < U16 && i.idx < U16
    ensures w < U32 && w % U16 == i.len && w / U16 == i.idx
  {
    DivModUnique(i.len + i.idx * U16, U16, i.idx, i.len);
    i.len + i.idx * U16
  }

  /** `len << 8` truncated to the 16-bit field leaves the low byte clear. */
  lemma ShiftedLenLowByte(n: nat)
    ensures Wrap16(Wrap32(n * U8)) % U8 == 0
  {
    var x := n * U8;
    var q := x / U32;
    var y := x - q * U32;
    assert y == Wrap32(x);
    var t := y / U16;
    var z := y - t * U16;
    assert z == Wrap16(y);
    DivModUnique(z, U8, n - q * U24 - t * U8, 0);
  }

  /**
   * OR-ing a tag into an `Intern` word whose length field is `len << 8`
   * only fills the clear low byte: the tag reads back and the record is kept.
   */
  lemma TaggedIntern(i: Intern, n: nat, tag: nat)
    requires i.len == Wrap16(Wrap32(n * U8)) && i.idx < U16 && tag < U8
    ensures BitOr(InternWord(i), tag) == InternWord(i) + tag
    ensures (InternWord(i) + tag) % U8 == tag && (InternWord(i) + tag) / U16 == i.idx
  {
    ShiftedLenLowByte(n);
    var w := InternWord(i);
    var q := i.len / U8;
    assert i.len == q * U8 && q < U8;
    assert w == i.len + i.idx * U16;
    DivModUnique(w, U8, q + i.idx * U8, 0);
    Pow2Constants();
    OrDisjoint(w, tag, 8);
    DivModUnique(w + tag, U8, q + i.idx * U8, tag);
    assert i.len + tag < U16;
    DivModUnique(w + tag, U16, i.idx, i.len + tag);
  }

  // ---------------------------------------------------------------------
  // Keywords

  /**
   * `strncmp(s + i, t + i, n - i) == 0` with both strings NUL-terminated:
   * equal bytes up to `n`, or up to a NUL they share.
   */
  function StrNEq(s: seq<byte>, t: seq<byte>, i: nat, n: nat): bool
    requires i <= n
    decreases n - i
  {
    i == n || (At(s, i) == At(t, i) && (At(s, i) == 0 || StrNEq(s, t, i + 1, n)))
  }

  predicate NoNul(s: seq<byte>)
  {
    forall k :: 0 <= k < |s| ==> s[k] != 0
  }

  /** Against a literal without NUL, `strncmp` over the whole run is a prefix test. */
  lemma {:induction false} StrNEqPrefix(s: seq<byte>, t: seq<byte>, i: nat)
    requires i <= |s| && NoNul(s) && NoNul(t)
    ensures StrNEq(s, t, i, |s|) <==> i == |s| || (|s| <= |t| && s[i..] == t[i..|s|])
    decreases |s| - i
  {
    if i < |s| {
      StrNEqPrefix(s, t, i + 1);
      if |s| <= |t| {
        assert s[i..] == [s[i]] + s[i + 1..];
        assert t[i..|s|] == [t[i]] + t[i + 1..|s|];
      }
    }
  }

  /**
   * hash_kw (lexer.c:134-147): only runs of length 2 or 6 are compared,
   * with `strncmp` over the run's length, against `return`, `as` and `fn`
   * in that order.
   */
  function HashKw(w: seq<byte>): nat
  {
    var n := |w|;
    if n != 2 && n != 6 then ValId
    else if StrNEq(w, ReturnText, 0, n) then KwRet
    else if StrNEq(w, AsText, 0, n) then KwAs
    else if StrNEq(w, FnText, 0, n) then KwFn
    else ValId
  }

  /**
   * The classification `hash_kw` computes for a run without NUL bytes:
   * `return` and also `re` (a prefix of it) are KW_RET, `as` is KW_AS,
   * `fn` is KW_FN, and everything else is VAL_ID.
   */
  lemma HashKwClassifies(w: seq<byte>)
    requires NoNul(w)
    ensures HashKw(w) == KwRet <==> w == ReturnText || w == ReText
    ensures HashKw(w) == KwAs <==> w == AsText
    ensures HashKw(w) == KwFn <==> w == FnText
    ensures HashKw(w) == ValId <==> w != ReturnText && w != ReText && w != AsText && w != FnText
  {
    if |w| == 2 || |w| == 6 {
      StrNEqPrefix(w, ReturnText, 0);
      StrNEqPrefix(w, AsText, 0);
      StrNEqPrefix(w, FnText, 0);
      assert w[0..] == w;
      assert ReturnText[..2] == ReText;
    }
  }

  // ---------------------------------------------------------------------
  // Brackets

  predicate IsOpener(c: byte) { c == 0x28 || c == 0x5B || c == 0x7B }
  predicate IsCloser(c: byte) { c == 0x29 || c == 0x5D || c == 0x7D }

  /**
   * The scope row of an opener (lexer.c:259-261): `(c & 0xf) + (c >> 4)`
   * in 8 bits, minus 10 in 8 bits, shifted right by 2. `(` `[` `{` get rows
   * 0, 1, 2.
   */
  function OpenRow(c: byte): (h: nat)
    requires IsOpener(c)
    ensures h == if c == 0x28 then 0 else if c == 0x5B then 1 else 2
  {
    Wrap8(Wrap8(c % 16 + c / 16) - 10) / 4
  }

  /** The scope row of a closer (lexer.c:274-276), with 11 subtracted: `)` `]` `}` share their opener's row. */
  function CloseRow(c: byte): (h: nat)
    requires IsCloser(c)
    ensures h == if c == 0x29 then 0 else if c == 0x5D then 1 else 2
  {
    Wrap8(Wrap8(c % 16 + c / 16) - 11) / 4
  }

  /** The scope stacks `uint32_t stacks[3][10]`, stored row by row: slot `(h, c)` is at `h * 10 + c`. */
  function Addr(h: nat, c: nat): nat
  {
    h * MaxScopeDepth + c
  }

  // ---------------------------------------------------------------------
  // Lexer state

  /**
   * What one loop iteration of `lex` reads and writes: the cursor, the
   * `ScopeStacks` (lexer.c:151-155) and the three buffers of `LexBuf`
   * (lexer.c:15-25). Of the buffers' capacities only the intern buffer's
   * matters, because `intern_strview` copies into it unchecked.
   */
  datatype LexState = LexState(pos: nat, stacks: seq<nat>, cursors: seq<byte>,
                               tokens: seq<Token>, lits: seq<nat>, intern: seq<byte>, internCap: nat)

  /** `LexBuf res_buf = {}; ScopeStacks scopes = {0};` at position 0. */
  const Start: LexState := LexState(0, [0, 0, 0, 0, 0, 0, 0, 0, 0, 0, 0, 0, 0, 0, 0, 0, 0, 0, 0, 0, 0, 0, 0, 0, 0, 0, 0, 0, 0, 0], [0, 0, 0], [], [], [], 0)

  ghost predicate Good(src: seq<byte>, end: nat, s: LexState)
  {
    end <= |src| < MaxSrc && s.pos <= |src| + 2 &&
    |s.intern| <= s.pos && |s.intern| <= s.internCap &&
    |s.stacks| == 3 * MaxScopeDepth && |s.cursors| == 3
  }

  // ---------------------------------------------------------------------
  // Whitespace and comments

  /** consume_ws (lexer.c:70-74): the first index from `p` that is `end` or not a space. */
  function SkipWs(src: seq<byte>, end: nat, p: nat): (r: nat)
    requires end <= |src|
    ensures p <= r && (r > p ==> r <= end)
    ensures r < end ==> !IsSpace(src[r])
    ensures forall k :: p <= k < r ==> IsSpace(src[k])
    decreases if p < end then end - p else 0
  {
    if p < end && IsSpace(src[p]) then SkipWs(src, end, p + 1) else p
  }

  /** The line-comment loop of consume_comment (lexer.c:84-85): up to the newline, which stays. */
  function LineEnd(src: seq<byte>, end: nat, p: nat): (r: nat)
    requires end <= |src|
    ensures p <= r && (r > p ==> r <= end)
    ensures r < end ==> src[r] == Newline
    ensures forall k :: p <= k < r ==> src[k] != Newline
    decreases if p < end then end - p else 0
  {
    if p < end && src[p] != Newline then LineEnd(src, end, p + 1) else p
  }

  /**
   * The block-comment loop of consume_comment (lexer.c:91-96), from the
   * cursor `p` before its `++`: each round steps to the next byte; a `*`
   * also steps over the byte after it, and that byte being `/` ends the
   * loop. The first round already looks at the `*` of the opening slash-star.
   */
  function BlockLoop(src: seq<byte>, end: nat, p: nat): (r: nat)
    requires end <= |src| && p <= end
    ensures p < r <= end + 1
    decreases end - p
  {
    var q := p + 1;
    if q >= end then q
    else if src[q] == Star then
      if At(src, q + 1) == Slash then q + 1 else BlockLoop(src, end, q + 1)
    else BlockLoop(src, end, q)
  }

  /**
   * consume_comment (lexer.c:76-101): nothing unless `p < end` holds a `/`
   * followed by `/` (skip to the newline) or `*` (run the block loop, then
   * step over the closing `/`).
   */
  function SkipComment(src: seq<byte>, end: nat, p: nat): (r: nat)
    requires end <= |src|
    ensures p <= r && (r > p ==> r <= end + 2)
  {
    if p + 1 > end then p
    else if src[p] != Slash then p
    else if At(src, p + 1) == Slash then LineEnd(src, end, p)
    else if At(src, p + 1) == Star then BlockLoop(src, end, p) + 1
    else p
  }

  /** One iteration's skipping (lexer.c:166-168): white space, one comment, white space. */
  function SkipTrivia(src: seq<byte>, end: nat, p: nat): (r: nat)
    requires end <= |src|
    ensures p <= r && (r > p ==> r <= end + 2)
  {
    SkipWs(src, end, SkipComment(src, end, SkipWs(src, end, p)))
  }

  /** A byte that is neither a space nor `/` is never skipped. */
  lemma TriviaStays(src: seq<byte>, end: nat, p: nat)
    requires end <= |src| && p < end && !IsSpace(src[p]) && src[p] != Slash
    ensures SkipTrivia(src, end, p) == p
  {
  }

  /** Slash, star, slash is a complete comment: the opening `*` is taken for the closing one. */
  lemma BlockCommentSharesStar()
    ensures SkipComment([Slash, Star, Slash], 3, 0) == 3
  {
  }

  /** In slash, star, space, star, star, slash the first `*` of `**` swallows the second, so the comment does not end there and runs past `end`. */
  lemma BlockCommentMissesDoubleStar()
    ensures SkipComment([Slash, Star, 0x20, Star, Star, Slash], 6, 0) == 7
  {
    var s: seq<byte> := [Slash, Star, 0x20, Star, Star, Slash];
    assert BlockLoop(s, 6, 5) == 6;
    assert BlockLoop(s, 6, 4) == 6;
  }

  // ---------------------------------------------------------------------
  // One token

  /** The identifier loops (lexer.c:197-199, 219-221): `isalnum` or `_` bytes up to `end`. */
  function WordEnd(src: seq<byte>, end: nat, p: nat): (r: nat)
    requires end <= |src|
    ensures p <= r && (r > p ==> r <= end)
    ensures r < end ==> !IsWordByte(src[r])
    ensures forall k :: p <= k < r ==> IsWordByte(src[k])
    decreases if p < end then end - p else 0
  {
    if p < end && IsWordByte(src[p]) then WordEnd(src, end, p + 1) else p
  }

  /** The intern buffer after `intern_strview`, or `Overrun` when its copy runs past the capacity. */
  datatype Interned = Interned(bytes: seq<byte>, cap: nat, rec: Intern) | Overrun

  /**
   * intern_strview (lexer.c:37-51): the length is raised by
   * `min(|w|, 255)` and the buffer grows if that exceeds the capacity, but
   * `memcpy` then copies all `|w|` bytes. The record holds the start index
   * and `|w| << 8`, both truncated to 16 bits.
   */
  function InternView(intern: seq<byte>, cap: nat, w: seq<byte>): (r: Interned)
    requires |intern| + MaxInternLen <= RootBuffer.MaxLen && |intern| <= cap
    ensures r.Interned? ==> |r.bytes| <= r.cap && r.rec.len < U16 && r.rec.idx < U16
  {
    var n := if |w| < MaxInternLen then |w| else MaxInternLen;
    var len := |intern| + n;
    var cap' := RootBuffer.Regrown(len, cap);
    if len - n + |w| > cap' then Overrun
    else Interned(intern + w[..n], cap', Intern(Wrap16(Wrap32(|w| * U8)), Wrap16(len - n)))
  }

  /**
   * What `intern_strview` promises and where it breaks: at most 255 bytes
   * are kept; a run of up to 255 bytes is appended whole and its length
   * reads back from the record; a longer run is cut to 255 bytes, its
   * length field wraps, and the copy overruns the storage when the extra
   * bytes do not fit the capacity.
   */
  lemma InternViewFacts(intern: seq<byte>, cap: nat, w: seq<byte>)
    requires |intern| + MaxInternLen <= RootBuffer.MaxLen && |intern| <= cap
    ensures InternView(intern, cap, w).Overrun? ==> |w| > MaxInternLen
    ensures var r := InternView(intern, cap, w);
      |w| <= MaxInternLen ==> r.Interned? && r.bytes == intern + w && r.rec.len / U8 == |w|
    ensures var r := InternView(intern, cap, w);
      r.Interned? && |w| > MaxInternLen ==> r.bytes == intern + w[..MaxInternLen] && r.rec.len / U8 == |w| % U8
    ensures var r := InternView(intern, cap, w);
      r.Interned? ==> r.rec.idx == Wrap16(|intern|)
  {
    LengthField(|w|);
    if |w| <= MaxInternLen {
      assert w[..|w|] == w;
    }
  }

  /** The length field of a record keeps the run's length modulo 256. */
  lemma LengthField(m: nat)
    ensures Wrap16(Wrap32(m * U8)) / U8 == m % U8
  {
    var x := m * U8;
    var q := x / U32;
    var y := x - q * U32;
    assert y == Wrap32(x);
    var t := y / U16;
    var z := y - t * U16;
    assert z == Wrap16(y);
    DivModUnique(x, U16, q * U16 + t, z);
    DivModUnique(m, U8, q * U16 + t, z / U8);
  }

  /** A 300-byte run into an empty intern buffer overruns: 255 bytes reserve a capacity of 256. */
  lemma InternOverrunExample(w: seq<byte>)
    requires |w| == 300
    ensures InternView([], 0, w).Overrun?
  {
    Pow2Constants();
    NextPow2Least(255, 8);
  }

  /** What one branch of the loop body produced: the token to push and the state before the push. */
  datatype Emitted = Emit(tok: Token, next: LexState) | Faulted

  /**
   * A number (lexer.c:177-192): `strtoll` base 0 from `p`, the value
   * appended to the literals, and the literal's index OR-ed UNSHIFTED into
   * the word with LIT_INT.
   */
  function NumberAt(src: seq<byte>, end: nat, p: nat, s: LexState): (r: Emitted)
    requires Good(src, end, s) && s.pos <= p < end && IsDigit(src[p])
    ensures r.Emit? && Good(src, end, r.next) && r.next.pos > p
  {
    var n := StrToLL(src, p);
    Emit(Token(p, BitOr(|s.lits|, LitInt)), s.(pos := n.end, lits := s.lits + [n.value]))
  }

  /** The literal index shares the tag's bits: the second literal of a source reads back as tag LIT_STR. */
  lemma LitIndexClobbersTag()
    ensures BitOr(1, LitInt) % U8 == LitStr
    ensures forall idx: nat :: idx % 4 == 0 && idx < U8 ==> BitOr(idx, LitInt) % U8 == LitInt + idx
  {
    assert BitOr(1, LitInt) == 3 by {
      assert BitOr(0, 1) == 1;
    }
    forall idx: nat | idx % 4 == 0 && idx < U8
      ensures BitOr(idx, LitInt) % U8 == LitInt + idx
    {
      assert Pow2(2) == 4;
      OrDisjoint(idx, LitInt, 2);
    }
  }

  /**
   * A lower-case run (lexer.c:193-214): `hash_kw` decides; a keyword's
   * word is its tag, anything else is interned and tagged VAL_ID.
   */
  function LowerAt(src: seq<byte>, end: nat, p: nat, s: LexState): (r: Emitted)
    requires Good(src, end, s) && s.pos <= p < end && IsLower(src[p])
    ensures r.Emit? ==> Good(src, end, r.next) && r.next.pos > p && r.next.tokens == s.tokens
  {
    var e := WordEnd(src, end, p);
    var w := src[p..e];
    var kind := HashKw(w);
    if kind != ValId then Emit(Token(p, kind), s.(pos := e))
    else match InternView(s.intern, s.internCap, w)
      case Overrun => Faulted
      case Interned(bytes, cap, i) =>
        Emit(Token(p, BitOr(InternWord(i), ValId)), s.(pos := e, intern := bytes, internCap := cap))
  }

  /** An upper-case run (lexer.c:215-228): always interned and tagged TYPE_ID. */
  function UpperAt(src: seq<byte>, end: nat, p: nat, s: LexState): (r: Emitted)
    requires Good(src, end, s) && s.pos <= p < end && IsUpper(src[p])
    ensures r.Emit? ==> Good(src, end, r.next) && r.next.pos > p && r.next.tokens == s.tokens
  {
    var e := WordEnd(src, end, p);
    var w := src[p..e];
    match InternView(s.intern, s.internCap, w)
    case Overrun => Faulted
    case Interned(bytes, cap, i) =>
      Emit(Token(p, BitOr(InternWord(i), TypeId)), s.(pos := e, intern := bytes, internCap := cap))
  }

  datatype StrRun = StrRun(q: nat, bytes: seq<byte>, cap: nat)

  /**
   * The string loop (lexer.c:235-249) from `q`: a byte after a backslash
   * is decoded by `unescape`, which moves the cursor only past a number,
   * and its value is interned with `intern_char`; any other byte is only
   * stepped over, noting whether it is a backslash. An unescaped `"` or
   * `end` stops the loop. Only escape values are interned.
   */
  function StrLoop(src: seq<byte>, end: nat, q: nat, escaped: bool, bytes: seq<byte>, cap: nat): (r: StrRun)
    requires end <= |src| < MaxSrc && q <= |src| && |bytes| <= cap && |bytes| + (if escaped then 1 else 0) <= q
    ensures q <= r.q <= |src| && |r.bytes| <= r.cap
    ensures |r.bytes| <= |bytes| + (r.q - q) + (if escaped then 1 else 0)
    ensures r.q < end ==> src[r.q] == Quote
    decreases 2 * (|src| - q) + (if escaped then 1 else 0)
  {
    if !(q < end && !(src[q] == Quote && !escaped)) then StrRun(q, bytes, cap)
    else if escaped then
      var u := Unescape(src, q);
      StrLoop(src, end, u.end, false, bytes + [u.c], RootBuffer.Regrown(|bytes| + 1, cap))
    else StrLoop(src, end, q + 1, src[q] == Backslash, bytes, cap)
  }

  /**
   * A string (lexer.c:229-255): the token starts after the quote, records
   * the intern mark and a length field computed as `(mark - pos) << 8`
   * from the intern mark and the SOURCE position, and is tagged LIT_INT.
   */
  function StringAt(src: seq<byte>, end: nat, p: nat, s: LexState): (r: Emitted)
    requires Good(src, end, s) && s.pos <= p < end && src[p] == Quote
    ensures r.Emit? && Good(src, end, r.next) && r.next.pos > p && r.next.tokens == s.tokens
  {
    var mark := Wrap16(|s.intern|);
    var run := StrLoop(src, end, p + 1, false, s.intern, s.internCap);
    var i := Intern(Wrap16(Wrap32(mark as int - run.q) * U8), mark);
    Emit(Token(p + 1, BitOr(InternWord(i), LitInt)),
         s.(pos := run.q + 1, intern := run.bytes, internCap := run.cap))
  }

  /**
   * An opener (lexer.c:256-270): the row's counter is post-incremented in
   * 8 bits. Above depth 10 the token is INVALID and the cursor stays; at
   * depths 0 to 10 (10 is one past the row) the current token count is
   * stored and the bracket byte becomes the word.
   */
  function OpenAt(src: seq<byte>, end: nat, p: nat, s: LexState): (r: Emitted)
    requires Good(src, end, s) && s.pos <= p < end && IsOpener(src[p])
    ensures r.Emit? ==> Good(src, end, r.next) && r.next.tokens == s.tokens
  {
    var h := OpenRow(src[p]);
    var c := s.cursors[h];
    var s1 := s.(cursors := s.cursors[h := Wrap8(c + 1)]);
    if c > MaxScopeDepth then Emit(ZeroToken, s1.(pos := p))
    else if Addr(h, c) >= |s.stacks| then Faulted
    else Emit(Token(p, src[p]), s1.(pos := p + 1, stacks := s.stacks[Addr(h, c) := |s.tokens|]))
  }

  /**
   * A closer (lexer.c:271-298): the row's counter is pre-decremented in 8
   * bits. Above 10 the token is INVALID, the cursor stays, and an
   * underflow to 255 resets the counter to 0. Otherwise the opener's index
   * is read from the stack, the closer's index is OR-ed into the opener's
   * word (shifted by 8, in 32 bits) and the opener's index into the
   * closer's.
   */
  function CloseAt(src: seq<byte>, end: nat, p: nat, s: LexState): (r: Emitted)
    requires Good(src, end, s) && s.pos <= p < end && IsCloser(src[p])
    ensures r.Emit? ==> Good(src, end, r.next) && |r.next.tokens| == |s.tokens|
  {
    var h := CloseRow(src[p]);
    var c := Wrap8(s.cursors[h] as int - 1);
    if c > MaxScopeDepth then
      Emit(ZeroToken, s.(pos := p, cursors := s.cursors[h := if c == 0xFF then 0 else c]))
    else if Addr(h, c) >= |s.stacks| || s.stacks[Addr(h, c)] >= |s.tokens| then Faulted
    else
      var o := s.stacks[Addr(h, c)];
      var j := |s.tokens|;
      Emit(Token(p, BitOr(src[p], Wrap32(o * U8))),
           s.(pos := p + 1, cursors := s.cursors[h := c],
              tokens := s.tokens[o := s.tokens[o].(word := BitOr(s.tokens[o].word, Wrap32(j * U8)))]))
  }

  /**
   * Punctuation (lexer.c:299-320): `-` always consumes two bytes and is
   * KW_ARROW when the second is `>`, HYPHON otherwise; any other
   * punctuation byte is its own tag.
   */
  function PunctAt(src: seq<byte>, end: nat, p: nat, s: LexState): (r: Emitted)
    requires Good(src, end, s) && s.pos <= p < end && IsPunct(src[p])
    ensures r.Emit? && Good(src, end, r.next) && r.next.pos > p && r.next.tokens == s.tokens
  {
    if src[p] == Minus then
      Emit(Token(p, if At(src, p + 1) == Greater then KwArrow else Hyphon), s.(pos := p + 2))
    else Emit(Token(p, src[p]), s.(pos := p + 1))
  }

  /** How one loop iteration ends: back to the loop test, out of the loop, or an out-of-bounds access. */
  datatype StepResult = Continue(s: LexState) | Stop(s: LexState) | Fault

  /** Which branch of the loop body a byte selects, in the order of lexer.c:177-324. */
  function Branch(src: seq<byte>, end: nat, p: nat, s: LexState): (r: Emitted)
    requires Good(src, end, s) && s.pos <= p < end
    ensures r.Emit? ==> Good(src, end, r.next) && |r.next.tokens| == |s.tokens| && |r.next.lits| <= |s.lits| + 1
  {
    var c := src[p];
    if IsDigit(c) then NumberAt(src, end, p, s)
    else if IsLower(c) then LowerAt(src, end, p, s)
    else if IsUpper(c) then UpperAt(src, end, p, s)
    else if c == Quote then StringAt(src, end, p, s)
    else if IsOpener(c) then OpenAt(src, end, p, s)
    else if IsCloser(c) then CloseAt(src, end, p, s)
    else if IsPunct(c) then PunctAt(src, end, p, s)
    else Emit(ZeroToken, s.(pos := p + 1))
  }

  /**
   * One iteration of the loop of `lex` (lexer.c:164-328): skip trivia;
   * leave the loop at `end`; otherwise run the byte's branch and push its
   * token (`next_token:`).
   */
  function Step(src: seq<byte>, end: nat, s: LexState): (r: StepResult)
    requires Good(src, end, s) && s.pos < end
    ensures r.Continue? ==> Good(src, end, r.s) && |r.s.tokens| == |s.tokens| + 1 && |r.s.lits| <= |s.lits| + 1
    ensures r.Stop? ==> Good(src, end, r.s) && r.s.tokens == s.tokens && r.s.pos >= end
  {
    var p := SkipTrivia(src, end, s.pos);
    if p >= end then Stop(s.(pos := p))
    else match Branch(src, end, p, s)
      case Faulted => Fault
      case Emit(tok, n) => Continue(n.(tokens := n.tokens + [tok]))
  }

  /**
   * An iteration that re-lexes the byte it started on and changes nothing
   * but the token count: no trivia before it, and it is a closer whose row
   * counter is 0. The counter underflows to 255 and is reset to 0, the
   * cursor stays, and an INVALID token is pushed (lexer.c:278-289).
   */
  predicate Stalled(src: seq<byte>, end: nat, s: LexState)
    requires Good(src, end, s)
  {
    s.pos < end && SkipTrivia(src, end, s.pos) == s.pos &&
    IsCloser(src[s.pos]) && s.cursors[CloseRow(src[s.pos])] == 0
  }

  /**
   * Iterations left before the cursor must move: for an opener above depth
   * 10 the increments until the 8-bit counter wraps to 0, for a closer its
   * counter's value.
   */
  function Budget(src: seq<byte>, end: nat, s: LexState): (b: nat)
    requires Good(src, end, s)
    ensures b <= U8
  {
    var p := SkipTrivia(src, end, s.pos);
    if p < end && IsOpener(src[p]) then
      var c := s.cursors[OpenRow(src[p])];
      if c > MaxScopeDepth then U8 - c else 0
    else if p < end && IsCloser(src[p]) then s.cursors[CloseRow(src[p])]
    else 0
  }

  /** The termination measure of the loop: the cursor's distance past the end of the source, then the budget. */
  function Measure(src: seq<byte>, end: nat, s: LexState): (m: nat)
    requires Good(src, end, s)
    ensures m <= (|src| + 3) * 512 + U8
  {
    (|src| + 3 - s.pos) * 512 + Budget(src, end, s)
  }

  /**
   * Where a branch leaves the cursor: past the byte, or on it when an
   * opener above depth 10 only bumped its row counter, or when a closer
   * above depth 10 only lowered it (or reset it from 255 to 0).
   */
  lemma BranchMoves(src: seq<byte>, end: nat, p: nat, s: LexState)
    requires Good(src, end, s) && s.pos <= p < end && Branch(src, end, p, s).Emit?
    ensures var n := Branch(src, end, p, s).next;
      n.pos > p ||
      (n.pos == p && IsOpener(src[p]) && s.cursors[OpenRow(src[p])] > MaxScopeDepth &&
       n.cursors == s.cursors[OpenRow(src[p]) := Wrap8(s.cursors[OpenRow(src[p])] as int + 1)]) ||
      (n.pos == p && IsCloser(src[p]) && Wrap8(s.cursors[CloseRow(src[p])] as int - 1) > MaxScopeDepth &&
       n.cursors == s.cursors[CloseRow(src[p]) := if s.cursors[CloseRow(src[p])] == 0 then 0 else s.cursors[CloseRow(src[p])] - 1])
  {
  }

  /** Every iteration that is not stalled lowers the measure: the loop of `lex` can only run forever by stalling. */
  lemma {:induction false} Progress(src: seq<byte>, end: nat, s: LexState)
    requires Good(src, end, s) && s.pos < end && !Stalled(src, end, s) && Step(src, end, s).Continue?
    ensures Measure(src, end, Step(src, end, s).s) < Measure(src, end, s)
  {
    var p := SkipTrivia(src, end, s.pos);
    var t := Step(src, end, s).s;
    BranchMoves(src, end, p, s);
    if t.pos == s.pos {
      assert p == s.pos && SkipTrivia(src, end, t.pos) == p;
      if IsOpener(src[p]) {
        var h := OpenRow(src[p]);
        assert Budget(src, end, s) == U8 - s.cursors[h];
        assert t.cursors[h] == Wrap8(s.cursors[h] as int + 1);
      } else {
        var h := CloseRow(src[p]);
        assert s.cursors[h] != 0;
        assert Budget(src, end, s) == s.cursors[h];
        assert t.cursors[h] == s.cursors[h] - 1;
      }
    }
  }

  /**
   * A stalled iteration pushes one INVALID token and leaves everything
   * else as it was, so the next iteration stalls again: the C loop never
   * ends and the token buffer grows without bound.
   */
  lemma StalledRepeats(src: seq<byte>, end: nat, s: LexState)
    requires Good(src, end, s) && Stalled(src, end, s)
    ensures Step(src, end, s) == Continue(s.(tokens := s.tokens + [ZeroToken]))
    ensures Stalled(src, end, s.(tokens := s.tokens + [ZeroToken]))
  {
    var p := s.pos;
    var h := CloseRow(src[p]);
    CloseCases(src, end, p, s, h, 0xFF);
    assert s.cursors[h := 0] == s.cursors;
    assert Branch(src, end, p, s) == Emit(ZeroToken, s);
  }

  /** The result of `lex` (lexer.h:58-63); `tok_num` is `|tokens|`. */
  datatype LexResult = Lexed(tokens: seq<Token>, lits: seq<nat>, intern: seq<byte>) | Hangs | Faults

  /**
   * The loop of `lex` (lexer.c:164-328) from state `s`. A stalled
   * iteration repeats forever (`StalledRepeats`), reported as `Hangs`;
   * every other iteration lowers the measure (`Progress`).
   */
  function Run(src: seq<byte>, end: nat, s: LexState): LexResult
    requires Good(src, end, s)
    decreases Measure(src, end, s)
  {
    if s.pos >= end then Lexed(s.tokens, s.lits, s.intern)
    else if Stalled(src, end, s) then Hangs
    else match Step(src, end, s)
      case Stop(t) => Lexed(t.tokens, t.lits, t.intern)
      case Fault => Faults
      case Continue(t) =>
        Progress(src, end, s);
        Run(src, end, t)
  }

  /** lex (lexer.c:159-337). */
  function LexSpec(src: seq<byte>, end: nat): LexResult
    requires end <= |src| < MaxSrc
  {
    Run(src, end, Start)
  }
  // ---------------------------------------------------------------------
  // Matched brackets

  /** The closer of an opener's row. */
  function Closing(c: byte): (d: byte)
    requires IsOpener(c)
    ensures IsCloser(d) && CloseRow(d) == OpenRow(c)
  {
    if c == 0x28 then 0x29 else if c == 0x5B then 0x5D else 0x7D
  }

  /**
   * An opener directly followed by its closer, at a depth below 10: the two
   * iterations push both tokens, and each word carries the other's absolute
   * token index above its low byte (lexer.c:262-268, 291-297). The row
   * counter is back where it was.
   */
  lemma AdjacentPair(src: seq<byte>, end: nat, s: LexState)
    requires Good(src, end, s) && s.pos + 1 < end && IsOpener(src[s.pos]) && src[s.pos + 1] == Closing(src[s.pos])
    requires s.cursors[OpenRow(src[s.pos])] < MaxScopeDepth
    ensures Step(src, end, s).Continue? && Step(src, end, Step(src, end, s).s).Continue?
    ensures var h := OpenRow(src[s.pos]);
      Step(src, end, s).s.pos == s.pos + 1 && Step(src, end, s).s.cursors == s.cursors[h := s.cursors[h] + 1]
    ensures var i := |s.tokens|;
      var u := Step(src, end, Step(src, end, s).s).s;
      u.pos == s.pos + 2 && u.cursors == s.cursors && u.lits == s.lits && u.intern == s.intern &&
      u.tokens == s.tokens + [Token(s.pos, BitOr(src[s.pos], Wrap32((i + 1) * U8))),
                              Token(s.pos + 1, BitOr(src[s.pos + 1], Wrap32(i * U8)))]
  {
    var h := OpenRow(src[s.pos]);
    var c := s.cursors[h];
    var i := |s.tokens|;
    OpenStep(src, end, s);
    var t := s.(pos := s.pos + 1, cursors := s.cursors[h := c + 1], stacks := s.stacks[Addr(h, c) := i],
                tokens := s.tokens + [Token(s.pos, src[s.pos])]);
    assert Step(src, end, s) == Continue(t);
    CloseStep(src, end, t, h, c, i);
    var w := Wrap32((i + 1) * U8);
    var opener := Token(s.pos, BitOr(src[s.pos], w));
    var closer := Token(s.pos + 1, BitOr(src[s.pos + 1], Wrap32(i * U8)));
    assert t.tokens[i].(word := BitOr(t.tokens[i].word, w)) == opener;
    var u := t.(pos := t.pos + 1, cursors := t.cursors[h := c], tokens := t.tokens[i := opener] + [closer]);
    assert Step(src, end, t) == Continue(u);
    SnocUpdate(s.tokens, Token(s.pos, src[s.pos]), opener);
    UpdateBack(s.cursors, h, c + 1);
  }

  /** Replacing the last element of `a + [x]` gives `a + [y]`. */
  lemma SnocUpdate<T>(a: seq<T>, x: T, y: T)
    ensures (a + [x])[|a| := y] == a + [y]
  {
  }

  /** Overwriting a slot and then writing its old value back restores the sequence. */
  lemma UpdateBack<T>(a: seq<T>, k: nat, v: T)
    requires k < |a|
    ensures a[k := v][k := a[k]] == a
  {
  }

  /** An opener below depth 10 at the cursor: its index is stored in its row's slot and its byte is its word. */
  lemma OpenStep(src: seq<byte>, end: nat, s: LexState)
    requires Good(src, end, s) && s.pos < end && IsOpener(src[s.pos])
    requires s.cursors[OpenRow(src[s.pos])] < MaxScopeDepth
    ensures var h := OpenRow(src[s.pos]);
      var c := s.cursors[h];
      Step(src, end, s) ==
        Continue(s.(pos := s.pos + 1, cursors := s.cursors[h := c + 1], stacks := s.stacks[Addr(h, c) := |s.tokens|],
                    tokens := s.tokens + [Token(s.pos, src[s.pos])]))
  {
    var h := OpenRow(src[s.pos]);
    var c := s.cursors[h];
    DivModUnique(c + 1, U8, 0, c + 1);
    assert h < 3 && Addr(h, c) < |s.stacks|;
    assert Branch(src, end, s.pos, s) == OpenAt(src, end, s.pos, s);
    StepEmits(src, end, s);
  }

  /** A closer whose row holds the opener `o` on top: both words are patched with the other's index. */
  lemma CloseStep(src: seq<byte>, end: nat, t: LexState, h: nat, c: nat, o: nat)
    requires Good(src, end, t) && t.pos < end && IsCloser(src[t.pos]) && h == CloseRow(src[t.pos])
    requires c < MaxScopeDepth && t.cursors[h] == c + 1 && t.stacks[Addr(h, c)] == o && o + 1 == |t.tokens|
    ensures Step(src, end, t) ==
      Continue(t.(pos := t.pos + 1, cursors := t.cursors[h := c],
                  tokens := t.tokens[o := t.tokens[o].(word := BitOr(t.tokens[o].word, Wrap32(|t.tokens| * U8)))] +
                            [Token(t.pos, BitOr(src[t.pos], Wrap32(o * U8)))]))
  {
    CloseBranch(src, end, t, h, c, o);
    StepEmits(src, end, t);
  }

  /** The closer branch under the conditions of `CloseStep`. */
  lemma CloseBranch(src: seq<byte>, end: nat, t: LexState, h: nat, c: nat, o: nat)
    requires Good(src, end, t) && t.pos < end && IsCloser(src[t.pos]) && h == CloseRow(src[t.pos])
    requires c < MaxScopeDepth && t.cursors[h] == c + 1 && t.stacks[Addr(h, c)] == o && o + 1 == |t.tokens|
    ensures Branch(src, end, t.pos, t) ==
      Emit(Token(t.pos, BitOr(src[t.pos], Wrap32(o * U8))),
           t.(pos := t.pos + 1, cursors := t.cursors[h := c],
              tokens := t.tokens[o := t.tokens[o].(word := BitOr(t.tokens[o].word, Wrap32(|t.tokens| * U8)))]))
  {
    BranchOfCloser(src, end, t.pos, t);
    DivModUnique(c, U8, 0, c);
    assert h < 3 && Addr(h, c) < |t.stacks|;
    CloseCases(src, end, t.pos, t, h, c);
  }

  /** A closer byte selects the closer branch. */
  lemma BranchOfCloser(src: seq<byte>, end: nat, p: nat, s: LexState)
    requires Good(src, end, s) && s.pos <= p < end && IsCloser(src[p])
    ensures Branch(src, end, p, s) == CloseAt(src, end, p, s)
  {
  }

  /** With nothing to skip, an iteration whose branch emits pushes the branch's token onto the branch's state. */
  lemma StepEmits(src: seq<byte>, end: nat, s: LexState)
    requires Good(src, end, s) && s.pos < end && !IsSpace(src[s.pos]) && src[s.pos] != Slash
    requires Branch(src, end, s.pos, s).Emit?
    ensures var e := Branch(src, end, s.pos, s);
      Step(src, end, s) == Continue(e.next.(tokens := e.next.tokens + [e.tok]))
  {
    TriviaStays(src, end, s.pos);
  }

  /** `()` at the start of a state with no tokens and empty rows lexes to two tokens that name each other. */
  lemma ParensRun(src: seq<byte>, s: LexState)
    requires |src| == 2 && src[0] == 0x28 && src[1] == 0x29
    requires Bounded(src, 2, s) && s.pos == 0 && s.tokens == [] && s.cursors[OpenRow(0x28)] == 0
    ensures Run(src, 2, s) == Lexed([Token(0, 0x128), Token(1, 0x29)], s.lits, s.intern)
  {
    AdjacentPair(src, 2, s);
    var t := Step(src, 2, s).s;
    assert !Stalled(src, 2, s);
    RunContinues(src, 2, s);
    assert t.pos == 1 && t.cursors[0] == 1;
    TriviaStays(src, 2, 1);
    assert !Stalled(src, 2, t);
    RunContinues(src, 2, t);
    var u := Step(src, 2, t).s;
    RunEnds(src, 2, u);
    ParenWords();
  }

  /** The words of `()`: the opener's byte with index 1 above it, the closer's with index 0. */
  lemma ParenWords()
    ensures BitOr(0x28, Wrap32(1 * U8)) == 0x128 && BitOr(0x29, Wrap32(0 * U8)) == 0x29
  {
    DivModUnique(U8, U32, 0, U8);
    assert BitOr(1, 8) == 9;
    assert BitOr(2, 16) == 18;
    assert BitOr(5, 32) == 37;
    assert BitOr(10, 64) == 74;
    assert BitOr(20, 128) == 148;
    assert BitOr(40, 256) == 296;
  }

  /** At or past `end` the loop is over and its buffers are the result. */
  lemma RunEnds(src: seq<byte>, end: nat, s: LexState)
    requires Good(src, end, s) && s.pos >= end
    ensures Run(src, end, s) == Lexed(s.tokens, s.lits, s.intern)
  {
  }

  /** `()` lexes to two tokens that name each other: the opener carries index 1, the closer index 0. */
  lemma EmptyParens(src: seq<byte>)
    requires |src| == 2 && src[0] == 0x28 && src[1] == 0x29
    ensures LexSpec(src, 2) == Lexed([Token(0, 0x128), Token(1, 0x29)], [], [])
  {
    assert Budget(src, 2, Start) == 0;
    ParensRun(src, Start);
  }

  /**
   * The eleventh opener of a row (counter 10) is stored one past the row
   * (lexer.c:263-267): for `(` and `[` that is slot 0 of the next row,
   * which it overwrites; for `{` it is past the 30 slots.
   */
  lemma EleventhOpenerAliases(src: seq<byte>, end: nat, p: nat, s: LexState)
    requires Good(src, end, s) && s.pos <= p < end && IsOpener(src[p]) && s.cursors[OpenRow(src[p])] == MaxScopeDepth
    ensures var h := OpenRow(src[p]);
      h < 2 ==> Addr(h, MaxScopeDepth) == Addr(h + 1, 0) && OpenAt(src, end, p, s).Emit? &&
                OpenAt(src, end, p, s).next.stacks == s.stacks[Addr(h + 1, 0) := |s.tokens|]
    ensures OpenRow(src[p]) == 2 ==> OpenAt(src, end, p, s) == Faulted
  {
  }

  // ---------------------------------------------------------------------
  // The lexer as written: buffers, scope arrays and the loop

  /** The three buffers of `LexBuf` (lexer.c:15-25). */
  class LexBuf {
    const intern: RootBuffer.DynBuf<byte>
    const tokens: RootBuffer.DynBuf<Token>
    const lits: RootBuffer.DynBuf<nat>
    ghost var Repr: set<object>

    ghost predicate Valid()
      reads this, Repr
    {
      this in Repr && intern in Repr && tokens in Repr && lits in Repr &&
      Repr == {this} + intern.Repr + tokens.Repr + lits.Repr &&
      this !in intern.Repr && this !in tokens.Repr && this !in lits.Repr &&
      intern.Repr !! tokens.Repr && intern.Repr !! lits.Repr && tokens.Repr !! lits.Repr &&
      intern.Valid() && tokens.Valid() && lits.Valid()
    }

    /** `LexBuf res_buf = {}`: three empty buffers. */
    constructor ()
      ensures Valid() && fresh(Repr)
      ensures intern.Contents == [] && tokens.Contents == [] && lits.Contents == [] && intern.cap == 0
    {
      intern := new RootBuffer.DynBuf<byte>();
      tokens := new RootBuffer.DynBuf<Token>();
      lits := new RootBuffer.DynBuf<nat>();
      new;
      Repr := {this} + intern.Repr + tokens.Repr + lits.Repr;
    }

    /** The `LexResult` `lex` returns (lexer.c:330-336): the three buffers' live elements. */
    method Result() returns (r: LexResult)
      requires Valid()
      ensures r == Lexed(tokens.Contents, lits.Contents, intern.Contents)
    {
      var t := tokens.Items();
      var l := lits.Items();
      var i := intern.Items();
      r := Lexed(t, l, i);
    }

    /** intern_char (lexer.c:27-30): one byte pushed onto the intern buffer. */
    method InternChar(c: byte)
      requires Valid() && intern.len < RootBuffer.MaxLen
      modifies Repr
      ensures Valid() && fresh(Repr - old(Repr))
      ensures intern.Contents == old(intern.Contents) + [c]
      ensures intern.cap == RootBuffer.Regrown(|old(intern.Contents)| + 1, old(intern.cap))
      ensures tokens.Contents == old(tokens.Contents) && lits.Contents == old(lits.Contents)
    {
      var _ := intern.PushElem(c);
      Repr := {this} + intern.Repr + tokens.Repr + lits.Repr;
    }

    /**
     * intern_strview (lexer.c:37-51), proved against `InternView`. When the
     * copy would run past the storage, `fits` is false and the buffers are
     * left in no particular state.
     */
    method InternStrview(w: seq<byte>) returns (i: Intern, fits: bool)
      requires Valid() && intern.len + MaxInternLen <= RootBuffer.MaxLen && |w| < MaxSrc
      modifies Repr
      ensures fresh(Repr - old(Repr)) && i.len < U16 && i.idx < U16
      ensures var r := InternView(old(intern.Contents), old(intern.cap), w);
        fits == r.Interned? &&
        (fits ==> Valid() && intern.Contents == r.bytes && intern.cap == r.cap && i == r.rec &&
                  tokens.Contents == old(tokens.Contents) && lits.Contents == old(lits.Contents))
    {
      InternViewIs(intern.Contents, intern.cap, w, RootBuffer.Regrown(intern.len + (if |w| < MaxInternLen then |w| else MaxInternLen), intern.cap));
      i, fits := InternInto(intern, w);
      Repr := {this} + intern.Repr + tokens.Repr + lits.Repr;
    }

    /** push_lit (lexer.c:53-56): appends a literal value and returns its index. */
    method PushLit(v: nat) returns (idx: nat)
      requires Valid() && lits.len < RootBuffer.MaxLen
      modifies Repr
      ensures Valid() && fresh(Repr - old(Repr))
      ensures idx == |old(lits.Contents)| && lits.Contents == old(lits.Contents) + [v]
      ensures tokens.Contents == old(tokens.Contents) && intern.Contents == old(intern.Contents) && intern.cap == old(intern.cap)
    {
      idx := lits.PushElem(v);
      Repr := {this} + intern.Repr + tokens.Repr + lits.Repr;
    }

    /** push_token (lexer.c:58-61). */
    method PushToken(t: Token)
      requires Valid() && tokens.len < RootBuffer.MaxLen
      modifies Repr
      ensures Valid() && fresh(Repr - old(Repr))
      ensures tokens.Contents == old(tokens.Contents) + [t]
      ensures intern.Contents == old(intern.Contents) && intern.cap == old(intern.cap) && lits.Contents == old(lits.Contents)
    {
      var _ := tokens.PushElem(t);
      Repr := {this} + intern.Repr + tokens.Repr + lits.Repr;
    }

    /** The in-place fix-up of an opener already pushed (lexer.c:293). */
    method PatchToken(o: nat, t: Token)
      requires Valid() && o < |tokens.Contents|
      modifies tokens, tokens.buffer
      ensures Valid() && Repr == old(Repr)
      ensures tokens.Contents == old(tokens.Contents)[o := t]
      ensures intern.Contents == old(intern.Contents) && intern.cap == old(intern.cap) && lits.Contents == old(lits.Contents)
    {
      tokens.buffer[o] := t;
      tokens.Slots := tokens.Slots[o := t];
      tokens.Contents := tokens.Contents[o := t];
    }
  }

  /**
   * intern_strview on the intern buffer: the length is raised by
   * `min(|w|, 255)`, the storage grows if that exceeds the capacity, and
   * then all `|w|` bytes are copied from the old length on; `fits` says
   * whether that copy stays inside the storage.
   */
  method InternInto(buf: RootBuffer.DynBuf<byte>, w: seq<byte>) returns (i: Intern, fits: bool)
    requires buf.Valid() && buf.len + MaxInternLen <= RootBuffer.MaxLen && |w| < MaxSrc
    modifies buf.Repr
    ensures fresh(buf.Repr - old(buf.Repr)) && i == Intern(Wrap16(Wrap32(|w| * U8)), Wrap16(old(buf.len)))
    ensures buf.cap == RootBuffer.Regrown(old(buf.len) + (if |w| < MaxInternLen then |w| else MaxInternLen), old(buf.cap))
    ensures fits == (old(buf.len) + |w| <= buf.cap)
    ensures fits ==> buf.Valid() && buf.Contents == old(buf.Contents) + w[..if |w| < MaxInternLen then |w| else MaxInternLen]
  {
    var n := if |w| < MaxInternLen then |w| else MaxInternLen;
    var start := buf.len;
    ReserveIntern(buf, n);
    i := Intern(Wrap16(Wrap32(|w| * U8)), Wrap16(start));
    fits := start + |w| <= buf.cap;
    if fits {
      StoreWord(buf, w, start, n);
    }
  }

  /**
   * The `memcpy` of intern_strview (lexer.c:47-48) into storage already
   * reserved for `n` more bytes: all of `w` is copied at `start`, and the
   * first `n` of its bytes become live.
   */
  method StoreWord(buf: RootBuffer.DynBuf<byte>, w: seq<byte>, start: nat, n: nat)
    requires buf.Repr == {buf, buf.buffer} && buf.cap == buf.buffer.Length && (buf.cap == 0 || IsPow2(buf.cap))
    requires buf.len == start + n && n <= |w| && start + |w| <= buf.cap
    requires start <= |buf.Slots| <= buf.cap && buf.buffer[..|buf.Slots|] == buf.Slots && buf.Contents == buf.Slots[..start]
    modifies buf, buf.buffer
    ensures buf.Valid() && buf.Repr == old(buf.Repr) && buf.len == old(buf.len) && buf.cap == old(buf.cap)
    ensures buf.Contents == old(buf.Contents) + w[..n]
  {
    ghost var before, written := buf.Contents, buf.Slots;
    ghost var a0 := buf.buffer[..];
    assert a0[..|written|] == written;
    CopyInto(buf.buffer, start, w);
    ghost var a := buf.buffer[..];
    ghost var slots := if start + |w| >= |written| then a[..start + |w|] else a[..|written|];
    CopiedSlots(a0, a, before, written, start, n, w, slots);
    buf.Contents := before + w[..n];
    buf.Slots := slots;
  }

  /** After the copy the written slots run at least to the end of the copy, and the live ones hold the old contents and the first `n` bytes. */
  lemma CopiedSlots(a0: seq<byte>, a: seq<byte>, before: seq<byte>, written: seq<byte>, start: nat, n: nat, w: seq<byte>, slots: seq<byte>)
    requires |a0| == |a| && start <= |written| <= |a0| && n <= |w| && start + |w| <= |a|
    requires a0[..|written|] == written && before == written[..start]
    requires a[..start] == a0[..start] && a[start..start + |w|] == w
    requires slots == if start + |w| >= |written| then a[..start + |w|] else a[..|written|]
    ensures slots == a[..|slots|] && start + n <= |slots| <= |a| && slots[..start + n] == before + w[..n]
  {
    assert a[..start + n] == a[..start] + a[start..start + n];
    assert a[start..start + n] == w[..n];
    assert slots[..start + n] == a[..start + n];
  }

  /** `InternView` spelled out once the capacity after the reservation is known. */
  lemma InternViewIs(intern: seq<byte>, cap: nat, w: seq<byte>, cap': nat)
    requires |intern| + MaxInternLen <= RootBuffer.MaxLen && |intern| <= cap
    requires cap' == RootBuffer.Regrown(|intern| + (if |w| < MaxInternLen then |w| else MaxInternLen), cap)
    ensures var n := if |w| < MaxInternLen then |w| else MaxInternLen;
      InternView(intern, cap, w) ==
        if |intern| + |w| > cap' then Overrun
        else Interned(intern + w[..n], cap', Intern(Wrap16(Wrap32(|w| * U8)), Wrap16(|intern|)))
  {
  }

  /** The first half of intern_strview (lexer.c:39-42): the length is raised by `n` and the storage grows if that exceeds the capacity. */
  method ReserveIntern(buf: RootBuffer.DynBuf<byte>, n: nat)
    requires buf.Valid() && buf.len + n <= RootBuffer.MaxLen
    modifies buf
    ensures buf.len == old(buf.len) + n && buf.cap == RootBuffer.Regrown(buf.len, old(buf.cap)) == buf.buffer.Length
    ensures buf.len <= buf.cap && (buf.cap == 0 || IsPow2(buf.cap))
    ensures buf.buffer == old(buf.buffer) || fresh(buf.buffer)
    ensures buf.buffer[..|old(buf.Slots)|] == old(buf.Slots) && |old(buf.Slots)| <= buf.cap
    ensures buf.Contents == old(buf.Contents) && buf.Slots == old(buf.Slots) && buf.Repr == {buf, buf.buffer}
  {
    ghost var held := buf.buffer[..];
    buf.len := buf.len + n;
    if buf.len > buf.cap {
      buf.GrowArray();
      assert buf.buffer[..|held|] == held;
    }
  }

  /** The `memcpy` of intern_strview (lexer.c:47-48): all of `w` lands at `start`, nothing else changes. */
  method CopyInto(a: array<byte>, start: nat, w: seq<byte>)
    requires start + |w| <= a.Length
    modifies a
    ensures a[..start] == old(a[..start]) && a[start..start + |w|] == w
    ensures forall k :: start + |w| <= k < a.Length ==> a[k] == old(a[k])
  {
    forall k | 0 <= k < |w| {
      a[start + k] := w[k];
    }
  }

  /** intern_mark (lexer.c:32-35): the intern length truncated to 16 bits. */
  function InternMark(lb: LexBuf): (m: nat)
    reads lb, lb.intern
    ensures m < U16 && (lb.intern.len < U16 ==> m == lb.intern.len)
  {
    Wrap16(lb.intern.len)
  }

  /** consume_ws (lexer.c:70-74), proved against `SkipWs`. */
  method ConsumeWs(src: seq<byte>, end: nat, p: nat) returns (q: nat)
    requires end <= |src|
    ensures q == SkipWs(src, end, p)
  {
    q := p;
    while q < end && IsSpace(src[q])
      invariant p <= q && SkipWs(src, end, q) == SkipWs(src, end, p)
      decreases end - q
    {
      q := q + 1;
    }
  }

  /** consume_comment (lexer.c:76-101), proved against `SkipComment`. */
  method ConsumeComment(src: seq<byte>, end: nat, p: nat) returns (q: nat)
    requires end <= |src|
    ensures q == SkipComment(src, end, p)
  {
    q := p;
    if q + 1 > end || src[q] != Slash {
      return;
    }
    if At(src, q + 1) == Slash {
      while q < end && src[q] != Newline
        invariant p <= q && LineEnd(src, end, q) == LineEnd(src, end, p)
        decreases end - q
      {
        q := q + 1;
      }
      return;
    }
    if At(src, q + 1) == Star {
      while true
        invariant p <= q <= end && BlockLoop(src, end, q) == BlockLoop(src, end, p)
        decreases end - q
      {
        q := q + 1;
        if q >= end {
          break;
        }
        if src[q] == Star {
          q := q + 1;
          if At(src, q) == Slash {
            break;
          }
        }
      }
      q := q + 1;
    }
  }

  /** The three skips at the top of each iteration (lexer.c:166-168). */
  method ConsumeTrivia(src: seq<byte>, end: nat, p: nat) returns (q: nat)
    requires end <= |src|
    ensures q == SkipTrivia(src, end, p)
  {
    q := ConsumeWs(src, end, p);
    q := ConsumeComment(src, end, q);
    q := ConsumeWs(src, end, q);
  }

  /** The identifier loops (lexer.c:197-199, 219-221), proved against `WordEnd`. */
  method WordRun(src: seq<byte>, end: nat, p: nat) returns (q: nat)
    requires end <= |src|
    ensures q == WordEnd(src, end, p)
  {
    q := p;
    while q < end && IsWordByte(src[q])
      invariant p <= q && WordEnd(src, end, q) == WordEnd(src, end, p)
      decreases end - q
    {
      q := q + 1;
    }
  }

  /**
   * The state one iteration of `lex` sees: the cursor `pos`, the scope
   * arrays `stacks` (the rows of `uint32_t stacks[3][10]` one after the
   * other) and `cursors`, and the buffers.
   */
  ghost function Snap(pos: nat, stacks: array<nat>, cursors: array<byte>, lb: LexBuf): LexState
    reads stacks, cursors, lb, lb.intern, lb.tokens, lb.lits
  {
    LexState(pos, stacks[..], cursors[..], lb.tokens.Contents, lb.lits.Contents, lb.intern.Contents, lb.intern.cap)
  }

  /** The buffers are valid and the scope arrays lie outside them. */
  ghost predicate Apart(lb: LexBuf, stacks: array<nat>, cursors: array<byte>)
    reads lb, lb.Repr
  {
    lb.Valid() && stacks !in lb.Repr && cursors !in lb.Repr
  }

  /** What a branch method may assume: the state `s` it starts from and the byte `p` it is entered at. */
  ghost predicate Entry(src: seq<byte>, end: nat, p: nat, lb: LexBuf, stacks: array<nat>, cursors: array<byte>, s: LexState)
    reads lb, lb.Repr, stacks, cursors
  {
    Apart(lb, stacks, cursors) && Good(src, end, s) && s.pos <= p < end &&
    s == Snap(s.pos, stacks, cursors, lb) && |s.lits| < RootBuffer.MaxLen
  }

  /** The number branch (lexer.c:177-192), proved against `NumberAt`. */
  method LexNumber(src: seq<byte>, end: nat, p: nat, lb: LexBuf, stacks: array<nat>, cursors: array<byte>, ghost s: LexState)
    returns (tok: Token, next: nat)
    requires Entry(src, end, p, lb, stacks, cursors, s) && IsDigit(src[p])
    modifies lb.Repr
    ensures Apart(lb, stacks, cursors) && fresh(lb.Repr - old(lb.Repr))
    ensures NumberAt(src, end, p, s) == Emit(tok, Snap(next, stacks, cursors, lb))
  {
    var num := StrToLL(src, p);
    var idx := lb.PushLit(num.value);
    tok := Token(p, BitOr(idx, LitInt));
    next := num.end;
  }

  /** The lower-case branch (lexer.c:193-214), proved against `LowerAt`. */
  method LexLower(src: seq<byte>, end: nat, p: nat, lb: LexBuf, stacks: array<nat>, cursors: array<byte>, ghost s: LexState)
    returns (tok: Token, next: nat, ok: bool)
    requires Entry(src, end, p, lb, stacks, cursors, s) && IsLower(src[p])
    modifies lb.Repr
    ensures fresh(lb.Repr - old(lb.Repr))
    ensures ok == LowerAt(src, end, p, s).Emit?
    ensures ok ==> Apart(lb, stacks, cursors) && LowerAt(src, end, p, s) == Emit(tok, Snap(next, stacks, cursors, lb))
  {
    next := WordRun(src, end, p);
    var w := src[p..next];
    var kind := HashKw(w);
    if kind != ValId {
      tok, ok := Token(p, kind), true;
      return;
    }
    var i;
    i, ok := lb.InternStrview(w);
    tok := Token(p, BitOr(InternWord(i), ValId));
  }

  /** The upper-case branch (lexer.c:215-228), proved against `UpperAt`. */
  method LexUpper(src: seq<byte>, end: nat, p: nat, lb: LexBuf, stacks: array<nat>, cursors: array<byte>, ghost s: LexState)
    returns (tok: Token, next: nat, ok: bool)
    requires Entry(src, end, p, lb, stacks, cursors, s) && IsUpper(src[p])
    modifies lb.Repr
    ensures fresh(lb.Repr - old(lb.Repr))
    ensures ok == UpperAt(src, end, p, s).Emit?
    ensures ok ==> Apart(lb, stacks, cursors) && UpperAt(src, end, p, s) == Emit(tok, Snap(next, stacks, cursors, lb))
  {
    next := WordRun(src, end, p);
    var w := src[p..next];
    var i;
    i, ok := lb.InternStrview(w);
    tok := Token(p, BitOr(InternWord(i), TypeId));
  }

  /** The string loop at `q`: the rest of the loop yields `goal`, and only the intern buffer has changed. */
  ghost predicate InString(src: seq<byte>, end: nat, start: nat, q: nat, escaped: bool, lb: LexBuf, goal: StrRun,
                           toks: seq<Token>, lits: seq<nat>)
    reads lb, lb.Repr
  {
    lb.Valid() && end <= |src| < MaxSrc &&
    start <= q <= |src| && |lb.intern.Contents| + (if escaped then 1 else 0) <= q &&
    StrLoop(src, end, q, escaped, lb.intern.Contents, lb.intern.cap) == goal &&
    lb.tokens.Contents == toks && lb.lits.Contents == lits
  }

  /** The string loop (lexer.c:234-249), proved against `StrLoop`. */
  method StringBody(src: seq<byte>, end: nat, start: nat, lb: LexBuf) returns (q: nat)
    requires lb.Valid() && end <= |src| < MaxSrc && start <= |src| && |lb.intern.Contents| <= start
    modifies lb.Repr
    ensures lb.Valid() && fresh(lb.Repr - old(lb.Repr))
    ensures var r := StrLoop(src, end, start, false, old(lb.intern.Contents), old(lb.intern.cap));
      q == r.q && lb.intern.Contents == r.bytes && lb.intern.cap == r.cap
    ensures lb.tokens.Contents == old(lb.tokens.Contents) && lb.lits.Contents == old(lb.lits.Contents)
  {
    q := start;
    var escaped := false;
    ghost var goal := StrLoop(src, end, start, false, lb.intern.Contents, lb.intern.cap);
    ghost var toks, lits := lb.tokens.Contents, lb.lits.Contents;
    while q < end && !(src[q] == Quote && !escaped)
      invariant fresh(lb.Repr - old(lb.Repr)) && InString(src, end, start, q, escaped, lb, goal, toks, lits)
      decreases 2 * (|src| - q) + (if escaped then 1 else 0)
    {
      if escaped {
        var u := Unescape(src, q);
        q := u.end;
        lb.InternChar(u.c);
        escaped := false;
      } else {
        escaped := src[q] == Backslash;
        q := q + 1;
      }
    }
  }

  /** `StringAt` in terms of the intern mark and the run of the string loop. */
  lemma StringAtIs(src: seq<byte>, end: nat, p: nat, s: LexState, mark: nat, run: StrRun)
    requires Good(src, end, s) && s.pos <= p < end && src[p] == Quote
    requires mark == Wrap16(|s.intern|) && run == StrLoop(src, end, p + 1, false, s.intern, s.internCap)
    ensures StringAt(src, end, p, s) ==
      Emit(Token(p + 1, BitOr(InternWord(Intern(Wrap16(Wrap32(mark as int - run.q) * U8), mark)), LitInt)),
           s.(pos := run.q + 1, intern := run.bytes, internCap := run.cap))
  {
  }

  /** The string branch (lexer.c:229-255), proved against `StringAt`. */
  method LexString(src: seq<byte>, end: nat, p: nat, lb: LexBuf, stacks: array<nat>, cursors: array<byte>, ghost s: LexState)
    returns (tok: Token, next: nat)
    requires Entry(src, end, p, lb, stacks, cursors, s) && src[p] == Quote
    modifies lb.Repr
    ensures fresh(lb.Repr - old(lb.Repr)) && Placed(lb, stacks, cursors, StringAt(src, end, p, s), tok, next)
  {
    var start := p + 1;
    var mark := InternMark(lb);
    ghost var run := StrLoop(src, end, start, false, s.intern, s.internCap);
    StringAtIs(src, end, p, s, mark, run);
    var q := StringBody(src, end, start, lb);
    var i := Intern(Wrap16(Wrap32(mark as int - q) * U8), mark);
    tok := Token(start, BitOr(InternWord(i), LitInt));
    next := q + 1;
    assert Snap(next, stacks, cursors, lb) == s.(pos := run.q + 1, intern := run.bytes, internCap := run.cap);
  }

  /** The opener branch (lexer.c:256-270), proved against `OpenAt`; `ok` is false where `stacks[2][10]` is written. */
  method LexOpen(src: seq<byte>, end: nat, p: nat, lb: LexBuf, stacks: array<nat>, cursors: array<byte>, ghost s: LexState)
    returns (tok: Token, next: nat, ok: bool)
    requires Entry(src, end, p, lb, stacks, cursors, s) && IsOpener(src[p])
    modifies stacks, cursors
    ensures ok == OpenAt(src, end, p, s).Emit?
    ensures ok ==> OpenAt(src, end, p, s) == Emit(tok, Snap(next, stacks, cursors, lb))
  {
    tok, next := ZeroToken, p;
    var c := src[p];
    var h := OpenRow(c);
    var cursor := cursors[h];
    cursors[h] := Wrap8(cursor as int + 1);
    if cursor > MaxScopeDepth {
      tok, next, ok := ZeroToken, p, true;
      return;
    }
    if Addr(h, cursor) >= stacks.Length {
      ok := false;
      return;
    }
    stacks[Addr(h, cursor)] := lb.tokens.len;
    tok, next, ok := Token(p, c), p + 1, true;
  }

  /** The outcomes of `CloseAt` by the lowered counter `cursor` of row `h`. */
  lemma CloseCases(src: seq<byte>, end: nat, p: nat, s: LexState, h: nat, cursor: nat)
    requires Good(src, end, s) && s.pos <= p < end && IsCloser(src[p])
    requires h == CloseRow(src[p]) && cursor == Wrap8(s.cursors[h] as int - 1)
    ensures cursor > MaxScopeDepth ==>
      CloseAt(src, end, p, s) == Emit(ZeroToken, s.(pos := p, cursors := s.cursors[h := if cursor == 0xFF then 0 else cursor]))
    ensures cursor <= MaxScopeDepth && (Addr(h, cursor) >= |s.stacks| || s.stacks[Addr(h, cursor)] >= |s.tokens|) ==>
      CloseAt(src, end, p, s) == Faulted
    ensures cursor <= MaxScopeDepth && Addr(h, cursor) < |s.stacks| && s.stacks[Addr(h, cursor)] < |s.tokens| ==>
      var o := s.stacks[Addr(h, cursor)];
      var patched := s.tokens[o].(word := BitOr(s.tokens[o].word, Wrap32(|s.tokens| * U8)));
      CloseAt(src, end, p, s) ==
        Emit(Token(p, BitOr(src[p], Wrap32(o * U8))), s.(pos := p + 1, cursors := s.cursors[h := cursor], tokens := s.tokens[o := patched]))
  {
  }

  /** The closer branch (lexer.c:271-298), proved against `CloseAt`. */
  method LexClose(src: seq<byte>, end: nat, p: nat, lb: LexBuf, stacks: array<nat>, cursors: array<byte>, ghost s: LexState)
    returns (tok: Token, next: nat, ok: bool)
    requires Entry(src, end, p, lb, stacks, cursors, s) && IsCloser(src[p])
    modifies cursors, lb.tokens, lb.tokens.buffer
    ensures ok == CloseAt(src, end, p, s).Emit?
    ensures ok ==> Apart(lb, stacks, cursors) && lb.Repr == old(lb.Repr)
    ensures ok ==> CloseAt(src, end, p, s) == Emit(tok, Snap(next, stacks, cursors, lb))
  {
    tok, next := ZeroToken, p;
    assert s.cursors == cursors[..] && s.stacks == stacks[..] && s.tokens == lb.tokens.Contents;
    var c := src[p];
    var h := CloseRow(c);
    var cursor := Wrap8(cursors[h] as int - 1);
    CloseCases(src, end, p, s, h, cursor);
    if cursor > MaxScopeDepth {
      var reset := if cursor == 0xFF then 0 else cursor;
      cursors[h] := reset;
      ok := true;
      assert cursors[..] == s.cursors[h := reset];
      assert Snap(p, stacks, cursors, lb) == s.(pos := p, cursors := s.cursors[h := reset]);
      return;
    }
    tok, next, ok := ClosePair(src, end, p, lb, stacks, cursors, s, h, cursor);
  }

  /** A closer whose lowered counter is at most 10 (lexer.c:291-297): the pairing half of `LexClose`. */
  method ClosePair(src: seq<byte>, end: nat, p: nat, lb: LexBuf, stacks: array<nat>, cursors: array<byte>, ghost s: LexState, h: nat, cursor: nat)
    returns (tok: Token, next: nat, ok: bool)
    requires Entry(src, end, p, lb, stacks, cursors, s) && IsCloser(src[p])
    requires h == CloseRow(src[p]) && cursor == Wrap8(s.cursors[h] as int - 1) && cursor <= MaxScopeDepth
    modifies cursors, lb.tokens, lb.tokens.buffer
    ensures ok == CloseAt(src, end, p, s).Emit?
    ensures ok ==> Apart(lb, stacks, cursors) && lb.Repr == old(lb.Repr)
    ensures ok ==> CloseAt(src, end, p, s) == Emit(tok, Snap(next, stacks, cursors, lb))
  {
    tok, next := ZeroToken, p;
    assert s.cursors == cursors[..] && s.stacks == stacks[..] && s.tokens == lb.tokens.Contents;
    CloseCases(src, end, p, s, h, cursor);
    cursors[h] := cursor;
    assert cursors[..] == s.cursors[h := cursor];
    if Addr(h, cursor) >= stacks.Length {
      ok := false;
      return;
    }
    var o := stacks[Addr(h, cursor)];
    var n := lb.tokens.len;
    if o >= n {
      ok := false;
      return;
    }
    var opener := lb.tokens.buffer[o];
    assert opener == s.tokens[o];
    var patched := opener.(word := BitOr(opener.word, Wrap32(n * U8)));
    lb.PatchToken(o, patched);
    tok, next, ok := Token(p, BitOr(src[p], Wrap32(o * U8))), p + 1, true;
    assert Snap(next, stacks, cursors, lb) == s.(pos := p + 1, cursors := s.cursors[h := cursor], tokens := s.tokens[o := patched]);
  }

  /** The punctuation branch (lexer.c:299-320), proved against `PunctAt`. */
  method LexPunct(src: seq<byte>, end: nat, p: nat, lb: LexBuf, stacks: array<nat>, cursors: array<byte>, ghost s: LexState)
    returns (tok: Token, next: nat)
    requires Entry(src, end, p, lb, stacks, cursors, s) && IsPunct(src[p])
    ensures PunctAt(src, end, p, s) == Emit(tok, Snap(next, stacks, cursors, lb))
  {
    var c := src[p];
    if c == Minus {
      next := p + 1;
      tok := Token(p, if At(src, next) == Greater then KwArrow else Hyphon);
      next := next + 1;
    } else {
      tok, next := Token(p, c), p + 1;
    }
  }

  /** A branch's outcome `e` is the token `tok` with the buffers and arrays as they now stand, resumed at `next`. */
  ghost predicate Placed(lb: LexBuf, stacks: array<nat>, cursors: array<byte>, e: Emitted, tok: Token, next: nat)
    reads lb, lb.Repr, stacks, cursors
  {
    Apart(lb, stacks, cursors) && e == Emit(tok, Snap(next, stacks, cursors, lb))
  }

  /** The if-chain of the loop body (lexer.c:177-324), proved against `Branch`. */
  method Dispatch(src: seq<byte>, end: nat, p: nat, lb: LexBuf, stacks: array<nat>, cursors: array<byte>, ghost s: LexState)
    returns (tok: Token, next: nat, ok: bool)
    requires Entry(src, end, p, lb, stacks, cursors, s)
    modifies lb.Repr, stacks, cursors
    ensures fresh(lb.Repr - old(lb.Repr))
    ensures ok == Branch(src, end, p, s).Emit?
    ensures ok ==> Placed(lb, stacks, cursors, Branch(src, end, p, s), tok, next)
  {
    var c := src[p];
    if IsDigit(c) || IsLower(c) || IsUpper(c) || c == Quote {
      tok, next, ok := DispatchWord(src, end, p, lb, stacks, cursors, s);
    } else {
      tok, next, ok := DispatchSymbol(src, end, p, lb, stacks, cursors, s);
    }
  }

  /** The branches for numbers, words and strings (lexer.c:177-255). */
  method DispatchWord(src: seq<byte>, end: nat, p: nat, lb: LexBuf, stacks: array<nat>, cursors: array<byte>, ghost s: LexState)
    returns (tok: Token, next: nat, ok: bool)
    requires Entry(src, end, p, lb, stacks, cursors, s)
    requires IsDigit(src[p]) || IsLower(src[p]) || IsUpper(src[p]) || src[p] == Quote
    modifies lb.Repr, stacks, cursors
    ensures fresh(lb.Repr - old(lb.Repr))
    ensures ok == Branch(src, end, p, s).Emit?
    ensures ok ==> Placed(lb, stacks, cursors, Branch(src, end, p, s), tok, next)
  {
    var c := src[p];
    ok := true;
    if IsDigit(c) {
      tok, next := LexNumber(src, end, p, lb, stacks, cursors, s);
    } else if IsLower(c) {
      tok, next, ok := LexLower(src, end, p, lb, stacks, cursors, s);
    } else if IsUpper(c) {
      tok, next, ok := LexUpper(src, end, p, lb, stacks, cursors, s);
    } else {
      tok, next := LexString(src, end, p, lb, stacks, cursors, s);
    }
  }

  /** The branches for brackets, punctuation and any other byte (lexer.c:256-324). */
  method DispatchSymbol(src: seq<byte>, end: nat, p: nat, lb: LexBuf, stacks: array<nat>, cursors: array<byte>, ghost s: LexState)
    returns (tok: Token, next: nat, ok: bool)
    requires Entry(src, end, p, lb, stacks, cursors, s)
    requires !(IsDigit(src[p]) || IsLower(src[p]) || IsUpper(src[p]) || src[p] == Quote)
    modifies lb.Repr, stacks, cursors
    ensures fresh(lb.Repr - old(lb.Repr))
    ensures ok == Branch(src, end, p, s).Emit?
    ensures ok ==> Placed(lb, stacks, cursors, Branch(src, end, p, s), tok, next)
  {
    var c := src[p];
    ok := true;
    if IsOpener(c) || IsCloser(c) {
      tok, next, ok := DispatchBracket(src, end, p, lb, stacks, cursors, s);
    } else if IsPunct(c) {
      tok, next := LexPunct(src, end, p, lb, stacks, cursors, s);
    } else {
      tok, next := ZeroToken, p + 1;
    }
  }

  /** The branches for opening and closing brackets (lexer.c:256-298). */
  method DispatchBracket(src: seq<byte>, end: nat, p: nat, lb: LexBuf, stacks: array<nat>, cursors: array<byte>, ghost s: LexState)
    returns (tok: Token, next: nat, ok: bool)
    requires Entry(src, end, p, lb, stacks, cursors, s) && (IsOpener(src[p]) || IsCloser(src[p]))
    requires !(IsDigit(src[p]) || IsLower(src[p]) || IsUpper(src[p]) || src[p] == Quote)
    modifies stacks, cursors, lb.tokens, lb.tokens.buffer
    ensures ok == Branch(src, end, p, s).Emit?
    ensures ok ==> lb.Repr == old(lb.Repr) && Placed(lb, stacks, cursors, Branch(src, end, p, s), tok, next)
  {
    if IsOpener(src[p]) {
      tok, next, ok := LexOpen(src, end, p, lb, stacks, cursors, s);
    } else {
      tok, next, ok := LexClose(src, end, p, lb, stacks, cursors, s);
    }
  }

  /** How an iteration ended: back to the loop test, out of the loop at `end`, stalled, or faulted. */
  datatype Exit = Again | Ended | Stall | Crash

  /**
   * One iteration of the loop of `lex` (lexer.c:164-328), proved against
   * `Step`. A stalled iteration is reported instead of being run: the C
   * loop would repeat it forever (`StalledRepeats`).
   */
  method Iterate(src: seq<byte>, end: nat, pos: nat, lb: LexBuf, stacks: array<nat>, cursors: array<byte>, ghost s: LexState)
    returns (x: Exit, next: nat)
    requires Entry(src, end, pos, lb, stacks, cursors, s) && s.pos == pos && |s.tokens| < RootBuffer.MaxLen
    modifies lb.Repr, stacks, cursors
    ensures fresh(lb.Repr - old(lb.Repr))
    ensures x == Stall <==> Stalled(src, end, s)
    ensures x == Crash <==> !Stalled(src, end, s) && Step(src, end, s).Fault?
    ensures x == Ended ==> Step(src, end, s).Stop?
    ensures x == Again ==> !Stalled(src, end, s) && Step(src, end, s).Continue?
    ensures x == Again || x == Ended ==> Apart(lb, stacks, cursors) && Step(src, end, s).s == Snap(next, stacks, cursors, lb)
  {
    var p := ConsumeTrivia(src, end, pos);
    if p >= end {
      x, next := Ended, p;
      return;
    }
    if p == pos && IsCloser(src[p]) && cursors[CloseRow(src[p])] == 0 {
      x, next := Stall, pos;
      return;
    }
    var ok;
    next, ok := EmitOne(src, end, p, lb, stacks, cursors, s);
    x := if ok then Again else Crash;
  }

  /** The branch for the byte at `p` and the push at `next_token:` (lexer.c:173-327). */
  method EmitOne(src: seq<byte>, end: nat, p: nat, lb: LexBuf, stacks: array<nat>, cursors: array<byte>, ghost s: LexState)
    returns (next: nat, ok: bool)
    requires Entry(src, end, p, lb, stacks, cursors, s) && |s.tokens| < RootBuffer.MaxLen
    modifies lb.Repr, stacks, cursors
    ensures fresh(lb.Repr - old(lb.Repr))
    ensures ok == Branch(src, end, p, s).Emit?
    ensures ok ==> Apart(lb, stacks, cursors)
    ensures ok ==> var b := Branch(src, end, p, s); Snap(next, stacks, cursors, lb) == b.next.(tokens := b.next.tokens + [b.tok])
  {
    var tok;
    tok, next, ok := Dispatch(src, end, p, lb, stacks, cursors, s);
    if ok {
      lb.PushToken(tok);
    }
  }

  /** The bounds the loop of `lex` keeps: at most one literal per token, and room for every token still to come. */
  ghost predicate Bounded(src: seq<byte>, end: nat, s: LexState)
  {
    Good(src, end, s) && |s.lits| <= |s.tokens| && |s.tokens| + Measure(src, end, s) <= (|src| + 3) * 512 + U8
  }

  /** The loop of `lex` at `pos` in state `s`: the heap holds `s`, and the bounds hold. */
  ghost predicate Looping(src: seq<byte>, end: nat, pos: nat, lb: LexBuf, stacks: array<nat>, cursors: array<byte>, s: LexState)
    reads lb, lb.Repr, stacks, cursors
  {
    Apart(lb, stacks, cursors) && s == Snap(pos, stacks, cursors, lb) && Bounded(src, end, s)
  }

  /**
   * One pass of the loop body of `lex` with its meaning: a stall or a
   * fault decides the result of the loop, leaving at `end` yields the
   * buffers, and otherwise the loop goes on from the state reached, with
   * the same result and a lower measure.
   */
  method Advance(src: seq<byte>, end: nat, pos: nat, lb: LexBuf, stacks: array<nat>, cursors: array<byte>, ghost s: LexState)
    returns (x: Exit, next: nat, ghost t: LexState)
    requires Looping(src, end, pos, lb, stacks, cursors, s) && pos < end
    modifies lb.Repr, stacks, cursors
    ensures fresh(lb.Repr - old(lb.Repr))
    ensures x == Stall ==> Run(src, end, s) == Hangs
    ensures x == Crash ==> Run(src, end, s) == Faults
    ensures x == Ended ==> Apart(lb, stacks, cursors) && Run(src, end, s) == Lexed(lb.tokens.Contents, lb.lits.Contents, lb.intern.Contents)
    ensures x == Again ==> Looping(src, end, next, lb, stacks, cursors, t)
    ensures x == Again ==> Run(src, end, s) == Run(src, end, t) && Measure(src, end, t) < Measure(src, end, s)
  {
    x, next := Iterate(src, end, pos, lb, stacks, cursors, s);
    t := s;
    if x == Again {
      t := Step(src, end, s).s;
      RunContinues(src, end, s);
    }
  }

  /** The locals of `lex` before its loop (lexer.c:160-163): empty buffers, zeroed scope arrays. */
  method Setup() returns (lb: LexBuf, stacks: array<nat>, cursors: array<byte>)
    ensures fresh(lb.Repr) && fresh(stacks) && fresh(cursors)
    ensures Apart(lb, stacks, cursors) && Snap(0, stacks, cursors, lb) == Start
  {
    lb := new LexBuf();
    stacks := new nat[3 * MaxScopeDepth](_ => 0);
    cursors := new byte[3](_ => 0);
    assert stacks[..] == Start.stacks;
  }

  /**
   * lex (lexer.c:159-337) proved equal to `LexSpec`: the loop keeps the
   * specification's result of the current state, and the measure of
   * `Progress` bounds both the iterations and the token count.
   */
  method Lex(src: seq<byte>, end: nat) returns (r: LexResult)
    requires end <= |src| < MaxSrc
    ensures r == LexSpec(src, end)
  {
    var lb, stacks, cursors := Setup();
    r := LexLoop(src, end, 0, lb, stacks, cursors, Start);
  }

  /** The loop of `lex` (lexer.c:164-328) and its return (lexer.c:330-336), from the state `s0` at `start`. */
  method LexLoop(src: seq<byte>, end: nat, start: nat, lb: LexBuf, stacks: array<nat>, cursors: array<byte>, ghost s0: LexState)
    returns (r: LexResult)
    requires Looping(src, end, start, lb, stacks, cursors, s0)
    modifies lb.Repr, stacks, cursors
    ensures r == Run(src, end, s0)
  {
    var pos: nat := start;
    ghost var st := s0;
    ghost var repr := lb.Repr;
    while pos < end
      invariant fresh(lb.Repr - repr) && Looping(src, end, pos, lb, stacks, cursors, st)
      invariant Run(src, end, st) == Run(src, end, s0)
      decreases Measure(src, end, st)
    {
      var x, next;
      x, next, st := Advance(src, end, pos, lb, stacks, cursors, st);
      if x == Stall {
        return Hangs;
      } else if x == Crash {
        return Faults;
      } else if x == Ended {
        break;
      }
      pos := next;
    }
    r := lb.Result();
  }

  /**
   * A non-stalled iteration that continues leaves the result of the loop
   * unchanged, lowers the measure, and adds one token and at most one
   * literal, so the bounds of `Lex` carry over.
   */
  lemma RunContinues(src: seq<byte>, end: nat, s: LexState)
    requires Bounded(src, end, s) && s.pos < end && !Stalled(src, end, s) && Step(src, end, s).Continue?
    ensures var t := Step(src, end, s).s;
      Bounded(src, end, t) && Run(src, end, s) == Run(src, end, t) && Measure(src, end, t) < Measure(src, end, s)
  {
    Progress(src, end, s);
  }
}
