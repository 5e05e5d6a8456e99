/**
 * The lexer of the `src/` revision (src/lexer.c): one pass over the source
 * that appends tokens, literal values and interned text to three growable
 * buffers, and pairs every bracket with its partner through three small
 * scope stacks.
 *
 * The C `Lexer {src, cur, end}` is a cursor into a byte array; here the
 * source is `src: seq<byte>`, the cursor an index `cur`, and `end` is
 * `|src|`. Token positions are `(uint32_t)(src - cur)`, the negated offset
 * wrapped to 32 bits.
 */
module Lexer {
  import opened Bits
  import opened CText
  import opened Buffer
  import opened Tokens

  const MaxInternLen: nat := 0xFF
  const MaxScopeDepth: nat := 10

  const Tab: byte := 0x09
  const Newline: byte := 0x0A
  const Quote: byte := 0x22
  const Star: byte := 0x2A
  const Minus: byte := 0x2D
  const Slash: byte := 0x2F
  const Colon: byte := 0x3A
  const Less: byte := 0x3C
  const Greater: byte := 0x3E
  const Backslash: byte := 0x5C

  /** `(uint32_t)(l.src - p)`: the position stored in a token read at offset `p`. */
  function PosOf(p: nat): (r: nat)
    ensures r < U32 && (r + p) % U32 == 0
  {
    Wrap32(-(p as int))
  }

  /** The three buffers of `LexBuf` (src/lexer.c:11-18). */
  class LexBuf {
    const intern: DynBuf<byte>
    const tokens: DynBuf<Token>
    const lits: DynBuf<nat>
    ghost var Repr: set<object>

    ghost predicate Valid()
      reads this, Repr
    {
      this in Repr && intern in Repr && tokens in Repr && lits in Repr &&
      Repr == {this} + intern.Repr + tokens.Repr + lits.Repr &&
      this !in intern.Repr && this !in tokens.Repr && this !in lits.Repr &&
      intern.Repr !! tokens.Repr && intern.Repr !! lits.Repr && tokens.Repr !! lits.Repr &&
      intern.Valid() && tokens.Valid() && lits.Valid()
    }

    /** `LexBuf res_buf = {}`: three empty buffers. */
    constructor ()
      ensures Valid() && fresh(Repr)
      ensures intern.Contents == [] && tokens.Contents == [] && lits.Contents == []
    {
      intern := new DynBuf<byte>();
      tokens := new DynBuf<Token>();
      lits := new DynBuf<nat>();
      new;
      Repr := {this} + intern.Repr + tokens.Repr + lits.Repr;
    }

    /** intern_char (src/lexer.c:20-23): one byte appended to the intern buffer. */
    method InternChar(c: byte)
      requires Valid() && intern.len < MaxLen
      modifies Repr
      ensures Valid() && fresh(Repr - old(Repr))
      ensures intern.Contents == old(intern.Contents) + [c]
      ensures tokens.Contents == old(tokens.Contents) && lits.Contents == old(lits.Contents)
    {
      var _ := intern.PushElem(c);
      Repr := {this} + intern.Repr + tokens.Repr + lits.Repr;
    }

    /**
     * intern_strview (src/lexer.c:30-45): at most 255 bytes of `s` are
     * copied to the end of the intern buffer. The buffer grows only when the
     * new length EXCEEDS the capacity, so afterwards `len <= cap` (not
     * `len < cap` as after a push). The record holds the start index and the
     * FULL length shifted left by 8, both truncated to 16 bits.
     */
    method InternStrview(s: seq<byte>) returns (i: Intern)
      requires Valid() && intern.len + MaxInternLen < MaxLen && |s| < U32
      modifies Repr
      ensures Valid() && fresh(Repr - old(Repr))
      ensures var n := if |s| < MaxInternLen then |s| else MaxInternLen;
        intern.Contents == old(intern.Contents) + s[..n]
      ensures i == Intern(LenField(|s|), Wrap16(|old(intern.Contents)|))
      ensures tokens.Contents == old(tokens.Contents) && lits.Contents == old(lits.Contents)
    {
      i := InternInto(intern, s);
      Repr := {this} + intern.Repr + tokens.Repr + lits.Repr;
    }

    /** The string loop of src/lexer.c:356-369, pushing through intern_char. */
    method InternString(src: seq<byte>, start: nat) returns (p: nat)
      requires Valid() && start <= |src| && intern.len + 2 * |src| < MaxLen
      modifies Repr
      ensures Valid() && fresh(Repr - old(Repr))
      ensures intern.Contents == old(intern.Contents) + StrBody(src, start, false).0
      ensures p == StrBody(src, start, false).1
      ensures tokens.Contents == old(tokens.Contents) && lits.Contents == old(lits.Contents)
    {
      p := InternStringBody(src, start, intern);
      Repr := {this} + intern.Repr + tokens.Repr + lits.Repr;
    }

    /** push_lit (src/lexer.c:47-50): appends a literal value and returns its index. */
    method PushLit(v: nat) returns (idx: nat)
      requires Valid() && lits.len < MaxLen
      modifies Repr
      ensures Valid() && fresh(Repr - old(Repr))
      ensures idx == |old(lits.Contents)| && lits.Contents == old(lits.Contents) + [v]
      ensures tokens.Contents == old(tokens.Contents) && intern.Contents == old(intern.Contents)
    {
      idx := lits.PushElem(v);
      Repr := {this} + intern.Repr + tokens.Repr + lits.Repr;
    }

    /** push_token (src/lexer.c:52-55). */
    method PushToken(t: Token)
      requires Valid() && tokens.len < MaxLen
      modifies Repr
      ensures Valid() && fresh(Repr - old(Repr))
      ensures tokens.Contents == old(tokens.Contents) + [t]
      ensures intern.Contents == old(intern.Contents) && lits.Contents == old(lits.Contents)
    {
      var _ := tokens.PushElem(t);
      Repr := {this} + intern.Repr + tokens.Repr + lits.Repr;
    }

    /** The in-place rewrite of an already pushed token. */
    method PatchToken(o: nat, t: Token)
      requires Valid() && o < |tokens.Contents|
      modifies tokens, tokens.buffer
      ensures Valid() && Repr == old(Repr)
      ensures tokens.Contents == old(tokens.Contents)[o := t]
      ensures intern.Contents == old(intern.Contents) && lits.Contents == old(lits.Contents)
    {
      tokens.buffer[o] := t;
      tokens.Contents := tokens.Contents[o := t];
    }

    /** The opener fix-up of src/lexer.c:413-416: or the distance to the closer about to be pushed into token `o`. */
    method PatchScope(o: nat)
      requires Valid() && o < |tokens.Contents|
      modifies tokens, tokens.buffer
      ensures Valid() && Repr == old(Repr)
      ensures tokens.Contents == PatchOpener(old(tokens.Contents), o)
      ensures intern.Contents == old(intern.Contents) && lits.Contents == old(lits.Contents)
    {
      var len := tokens.len;
      var opener := tokens.buffer[o];
      PatchToken(o, opener.(aux := BitOr(opener.aux, Wrap24(len - o))));
    }
  }

  /**
   * The first half of intern_strview (src/lexer.c:34-36): the length is
   * raised by `n` and the storage grows only when that exceeds the capacity.
   */
  method ReserveIntern(buf: DynBuf<byte>, n: nat)
    requires buf.Valid() && buf.len + n < MaxLen
    modifies buf
    ensures buf.len == old(buf.len) + n && buf.len <= buf.cap == buf.buffer.Length
    ensures buf.cap == 0 || IsPow2(buf.cap)
    ensures buf.buffer == old(buf.buffer) || fresh(buf.buffer)
    ensures buf.buffer[..old(buf.len)] == old(buf.Contents)
    ensures buf.Contents == old(buf.Contents) && buf.Repr == {buf, buf.buffer}
  {
    ghost var held := buf.buffer[..];
    buf.len := buf.len + n;
    if buf.len > buf.cap {
      buf.GrowArray();
      assert buf.buffer[..|held|] == held;
    }
  }

  /** intern_strview on the intern buffer alone: reserve, then copy at most 255 bytes. */
  method InternInto(buf: DynBuf<byte>, s: seq<byte>) returns (i: Intern)
    requires buf.Valid() && buf.len + MaxInternLen < MaxLen && |s| < U32
    modifies buf.Repr
    ensures buf.Valid() && fresh(buf.Repr - old(buf.Repr))
    ensures var n := if |s| < MaxInternLen then |s| else MaxInternLen;
      buf.Contents == old(buf.Contents) + s[..n]
    ensures i == Intern(LenField(|s|), Wrap16(|old(buf.Contents)|))
  {
    var n := if |s| < MaxInternLen then |s| else MaxInternLen;
    ghost var before := buf.Contents;
    var start := buf.len;
    ReserveIntern(buf, n);
    var a := buf.buffer;
    i := Intern(LenField(|s|), Wrap16(start));
    forall k | 0 <= k < n {
      a[start + k] := s[k];
    }
    assert a[..start + n] == before + s[..n] by {
      assert a[..start + n] == a[..start] + a[start..start + n];
    }
    buf.Contents := before + s[..n];
  }

  /** intern_mark (src/lexer.c:25-28): the intern length truncated to 16 bits. */
  function InternMark(lb: LexBuf): (m: nat)
    reads lb, lb.intern
    ensures m < U16 && (lb.intern.len < U16 ==> m == lb.intern.len)
  {
    Wrap16(lb.intern.len)
  }

  /**
   * consume_ws (src/lexer.c:64-75): skips the run of white space at `cur`
   * and says whether it was non-empty.
   */
  method ConsumeWs(src: seq<byte>, cur: nat) returns (next: nat, skipped: bool)
    requires cur <= |src|
    ensures cur <= next <= |src|
    ensures forall k :: cur <= k < next ==> IsSpace(src[k])
    ensures next == |src| || !IsSpace(src[next])
    ensures skipped <==> next > cur
    ensures next == WsEnd(src, cur)
  {
    next, skipped := cur, false;
    while next < |src| && IsSpace(src[next])
      invariant cur <= next <= |src| && WsEnd(src, next) == WsEnd(src, cur)
      invariant forall k :: cur <= k < next ==> IsSpace(src[k])
      invariant skipped <==> next > cur
    {
      skipped := true;
      next := next + 1;
    }
  }

  /** consume_char (src/lexer.c:77-87): advances past `c` when it is the next byte. */
  function ConsumeChar(src: seq<byte>, cur: nat, c: byte): (r: (nat, bool))
    ensures r.1 <==> cur < |src| && src[cur] == c
    ensures r.0 == if r.1 then cur + 1 else cur
  {
    if cur + 1 > |src| then (cur, false)
    else if src[cur] == c then (cur + 1, true)
    else (cur, false)
  }

  // The comment closer "*" "/" starts at `k`.
  predicate CloseAt(src: seq<byte>, k: nat)
  {
    k + 1 < |src| && src[k] == Star && src[k + 1] == Slash
  }

  // The block-comment scan passes over `k`: a byte follows it and no closer starts there.
  predicate ScanPast(src: seq<byte>, k: nat)
  {
    k + 1 < |src| && !CloseAt(src, k)
  }

  // consume_comment (src/lexer.c:89-114). A line comment ("//") runs to the
  // next newline, which is consumed too (or to one past the end). A block
  // comment ("/" "*") ends after the first closer found from the FOURTH byte
  // of the comment on (the loop pre-increments past the byte after the
  // opener), or two past the last byte when none is found. On a `/` that
  // starts no comment the result is false but the `/` HAS been consumed.
  method ConsumeComment(src: seq<byte>, cur: nat) returns (next: nat, ok: bool)
    requires cur < |src|
    ensures ok <==> cur + 1 < |src| && src[cur] == Slash && (src[cur + 1] == Slash || src[cur + 1] == Star)
    ensures !ok ==> next == if src[cur] == Slash then cur + 1 else cur
    ensures next <= |src| + 3
    ensures ok && src[cur + 1] == Slash ==>
      && cur + 3 <= next <= |src| + 1
      && (next - 1 == |src| || src[next - 1] == Newline)
      && forall k :: cur + 2 <= k < next - 1 ==> src[k] != Newline
    ensures ok && src[cur + 1] == Star ==>
      && cur + 5 <= next
      && (next - 1 >= |src| || CloseAt(src, next - 2))
      && forall k :: cur + 3 <= k < next - 2 ==> ScanPast(src, k)
    ensures ok ==> next == CommentEnd(src, cur)
  {
    next, ok := cur, false;
    var r := ConsumeChar(src, next, Slash);
    if r.1 {
      next := r.0;
      r := ConsumeChar(src, next, Slash);
      if r.1 {
        next := r.0;
        while next < |src| && src[next] != Newline
          invariant cur + 2 <= next <= |src| && LineEnd(src, next) == LineEnd(src, cur + 2)
          invariant forall k :: cur + 2 <= k < next ==> src[k] != Newline
        {
          next := next + 1;
        }
        next, ok := next + 1, true;
        return;
      }
      r := ConsumeChar(src, next, Star);
      if r.1 {
        var e := r.0 + 1;
        while e + 1 < |src| && !CloseAt(src, e)
          invariant cur + 3 <= e && (e == cur + 3 || e < |src|) && BlockEnd(src, e) == BlockEnd(src, cur + 3)
          invariant forall k :: cur + 3 <= k < e ==> ScanPast(src, k)
        {
          e := e + 1;
        }
        next, ok := e + 2, true;
      }
    }
  }

  /** The identifier loops of src/lexer.c:321-322 and 342-343: the end of the run of word bytes at `cur`. */
  method ScanWord(src: seq<byte>, cur: nat) returns (next: nat)
    requires cur <= |src|
    ensures cur <= next <= |src|
    ensures forall k :: cur <= k < next ==> IsWordByte(src[k])
    ensures next == |src| || !IsWordByte(src[next])
    ensures next == WordEnd(src, cur)
  {
    next := cur;
    while next < |src| && IsWordByte(src[next])
      invariant cur <= next <= |src| && WordEnd(src, next) == WordEnd(src, cur)
      invariant forall k :: cur <= k < next ==> IsWordByte(src[k])
    {
      next := next + 1;
    }
  }

  /** Truncating to 16 bits keeps the low byte. */
  lemma LowByteOfWrap16(d: nat)
    ensures Wrap16(d) % U8 == d % U8
  {
    var q := d / U16;
    assert d == q * U16 + Wrap16(d);
    assert q * U16 == (q * U8) * U8;
  }

  /** `idx << 8` in a 32-bit word: the low byte is zero and the upper 24 bits hold `idx` modulo 2^24. */
  lemma ShiftedIndex(idx: nat)
    ensures Wrap32(idx * U8) % U8 == 0 && Wrap32(idx * U8) / U8 == Wrap24(idx)
  {
    var q, r := idx / U24, idx % U24;
    assert idx * U8 == q * U32 + r * U8;
    DivModUnique(idx * U8, U32, q, r * U8);
    DivModUnique(r * U8, U8, r, 0);
  }

  /**
   * The number branch (src/lexer.c:303-316): `strtoll` with base 0 from the
   * digit, the value pushed to the literal buffer, and a LIT_INT token
   * holding the literal's index; its position is taken AFTER the number.
   */
  method LexNumber(src: seq<byte>, cur: nat, lb: LexBuf) returns (tok: Token, next: nat)
    requires lb.Valid() && cur < |src| && IsDigit(src[cur]) && lb.lits.len < MaxLen
    modifies lb.Repr
    ensures lb.Valid() && fresh(lb.Repr - old(lb.Repr))
    ensures var n := StrToLL(src, cur);
      next == n.end && lb.lits.Contents == old(lb.lits.Contents) + [n.value]
    ensures tok == Token(PosOf(next), TokLitInt, Wrap24(|old(lb.lits.Contents)|))
    ensures lb.tokens.Contents == old(lb.tokens.Contents) && lb.intern.Contents == old(lb.intern.Contents)
  {
    var n := StrToLL(src, cur);
    next := n.end;
    var idx := lb.PushLit(n.value);
    ShiftedIndex(idx);
    tok := OfWord(PosOf(next), Wrap32(idx * U8));
    tok := tok.(tag := BitOr(tok.tag, TokLitInt));
  }

  /**
   * The value-identifier branch (src/lexer.c:317-337): the word is
   * classified by hash_kw; a keyword token is just its tag, a VAL_ID token
   * carries the Intern record of the word (at most 255 bytes of it copied;
   * `aux % 256` is its length modulo 256 and `aux / 256` its 16-bit start).
   */
  method LexWord(src: seq<byte>, cur: nat, lb: LexBuf) returns (tok: Token, next: nat)
    requires lb.Valid() && cur < |src| < U32 && IsLower(src[cur]) && lb.intern.len + MaxInternLen < MaxLen
    modifies lb.Repr
    ensures lb.Valid() && fresh(lb.Repr - old(lb.Repr))
    ensures next == WordEnd(src, cur)
    ensures cur < next <= |src| && (next == |src| || !IsWordByte(src[next]))
    ensures forall k :: cur <= k < next ==> IsWordByte(src[k])
    ensures tok.pos == PosOf(cur) && tok.tag == HashKw(src[cur..next])
    ensures HashKw(src[cur..next]) == TokValId ==>
      && lb.intern.Contents == old(lb.intern.Contents) + Clip(src[cur..next])
      && tok.aux == InternAux(next - cur, old(lb.intern.Contents))
    ensures HashKw(src[cur..next]) != TokValId ==> tok.aux == 0 && lb.intern.Contents == old(lb.intern.Contents)
    ensures lb.tokens.Contents == old(lb.tokens.Contents) && lb.lits.Contents == old(lb.lits.Contents)
  {
    next := ScanWord(src, cur);
    var w := src[cur..next];
    var kind := HashKw(w);
    tok := ZeroToken;
    if kind == TokValId {
      var i := lb.InternStrview(w);
      InternTokenTag(0, |w|, i.idx, kind);
      tok := OfWord(0, InternWord(i));
    }
    tok := tok.(tag := BitOr(tok.tag, kind), pos := PosOf(cur));
  }

  /** The type-identifier branch (src/lexer.c:338-350): always interned, tag TYPE_ID. */
  method LexTypeWord(src: seq<byte>, cur: nat, lb: LexBuf) returns (tok: Token, next: nat)
    requires lb.Valid() && cur < |src| < U32 && IsUpper(src[cur]) && lb.intern.len + MaxInternLen < MaxLen
    modifies lb.Repr
    ensures lb.Valid() && fresh(lb.Repr - old(lb.Repr))
    ensures next == WordEnd(src, cur)
    ensures cur < next <= |src| && (next == |src| || !IsWordByte(src[next]))
    ensures forall k :: cur <= k < next ==> IsWordByte(src[k])
    ensures lb.intern.Contents == old(lb.intern.Contents) + Clip(src[cur..next])
    ensures tok == Token(PosOf(cur), TokTypeId, InternAux(next - cur, old(lb.intern.Contents)))
    ensures lb.tokens.Contents == old(lb.tokens.Contents) && lb.lits.Contents == old(lb.lits.Contents)
  {
    next := ScanWord(src, cur);
    var w := src[cur..next];
    var i := lb.InternStrview(w);
    InternTokenTag(PosOf(cur), |w|, i.idx, TokTypeId);
    tok := OfWord(PosOf(cur), InternWord(i));
    tok := tok.(tag := BitOr(tok.tag, TokTypeId));
  }

  /**
   * What the string loop of src/lexer.c:356-369 interns from index `i` on,
   * and where it stops, with `escaped` the state on entry. Outside an escape
   * every byte is interned as it stands (the backslash too) and a backslash
   * starts an escape; inside one, the decoded byte is interned as well, and
   * only a numeric escape moves the cursor, so after `\n` the `n` is
   * interned again as a plain byte. The loop stops at an unescaped quote or
   * at the end.
   */
  function StrBody(src: seq<byte>, i: nat, escaped: bool): (r: (seq<byte>, nat))
    requires i <= |src|
    ensures i <= r.1 <= |src|
    ensures r.1 == |src| || src[r.1] == Quote
    ensures |r.0| <= 2 * (r.1 - i) + (if escaped then 1 else 0)
    decreases |src| - i, if escaped then 1 else 0
  {
    if i == |src| || (src[i] == Quote && !escaped) then ([], i)
    else if escaped then
      var e := Unescape(src, i);
      var rest := StrBody(src, e.end, false);
      ([e.c] + rest.0, rest.1)
    else
      var rest := StrBody(src, i + 1, src[i] == Backslash);
      ([src[i]] + rest.0, rest.1)
  }

  /** A non-empty slice is its first byte followed by the rest. */
  lemma SliceCons(s: seq<byte>, i: nat, e: nat)
    requires i < e <= |s|
    ensures s[i..e] == [s[i]] + s[i + 1..e]
  {
  }

  /** A string without backslashes is interned byte for byte up to its closing quote. */
  lemma {:induction false} StrBodyPlain(src: seq<byte>, i: nat, e: nat)
    requires i <= e <= |src| && (e == |src| || src[e] == Quote)
    requires forall k :: i <= k < e ==> src[k] != Quote && src[k] != Backslash
    ensures StrBody(src, i, false) == (src[i..e], e)
    decreases e - i
  {
    if i < e {
      StrBodyPlain(src, i + 1, e);
      assert src[i] != Quote && src[i] != Backslash;
      var rest := StrBody(src, i + 1, false);
      assert StrBody(src, i, false) == ([src[i]] + rest.0, rest.1);
      SliceCons(src, i, e);
    } else {
      assert src[i..e] == [];
    }
  }

  /** `"a\n"` interns `a`, the backslash, the newline it stands for, and the `n` once more. */
  lemma StrBodyNewlineEscape()
    ensures StrBody([0x22, 0x61, 0x5C, 0x6E, 0x22], 1, false) == ([0x61, 0x5C, 0x0A, 0x6E], 4)
  {
    var src: seq<byte> := [0x22, 0x61, 0x5C, 0x6E, 0x22];
    assert src[1] == 0x61 && src[2] == 0x5C && src[3] == 0x6E && src[4] == 0x22;
    assert StrBody(src, 4, false) == ([], 4);
    assert src[3] != Quote && src[3] != Backslash;
    assert StrBody(src, 3, false) == ([0x6E] + StrBody(src, 4, false).0, 4);
    assert [0x6E] + StrBody(src, 4, false).0 == [0x6E];
    assert src[3] == Ord('n') && !IsDigit(src[3]);
    assert Unescape(src, 3) == Escape(0x0A, 3);
    assert StrBody(src, 3, true) == ([0x0A] + StrBody(src, 3, false).0, 4);
    assert [0x0A] + [0x6E] == [0x0A, 0x6E];
    assert StrBody(src, 2, false) == ([0x5C] + StrBody(src, 3, true).0, 4);
    assert [0x5C] + [0x0A, 0x6E] == [0x5C, 0x0A, 0x6E];
    assert src[1] != Quote && src[1] != Backslash;
    assert StrBody(src, 1, false) == ([0x61] + StrBody(src, 2, false).0, 4);
    assert [0x61] + [0x5C, 0x0A, 0x6E] == [0x61, 0x5C, 0x0A, 0x6E];
  }

  /**
   * The string branch (src/lexer.c:351-376). The token is tagged LIT_INT,
   * not LIT_STR; its Intern record holds the intern length at the start
   * (truncated to 16 bits) and the number of SOURCE bytes between the
   * quotes, which differs from the number of interned bytes once an escape
   * occurs. The position is that of the first byte after the opening quote.
   */
  method LexString(src: seq<byte>, cur: nat, lb: LexBuf) returns (tok: Token, next: nat)
    requires lb.Valid() && cur < |src| && src[cur] == Quote && lb.intern.len + 2 * |src| + 2 < MaxLen
    modifies lb.Repr
    ensures lb.Valid() && fresh(lb.Repr - old(lb.Repr))
    ensures var b := StrBody(src, cur + 1, false);
      && lb.intern.Contents == old(lb.intern.Contents) + b.0
      && next == b.1 + 1
      && tok == Token(PosOf(cur + 1), TokLitInt, InternAux(b.1 - cur - 1, old(lb.intern.Contents)))
    ensures lb.tokens.Contents == old(lb.tokens.Contents) && lb.lits.Contents == old(lb.lits.Contents)
  {
    var start := cur + 1;
    var mark := InternMark(lb);
    assert mark == Wrap16(|old(lb.intern.Contents)|);
    var p := lb.InternString(src, start);
    LowByteOfWrap16(p - start);
    var i := Intern(LenField(Wrap16(p - start)), mark);
    InternTokenTag(PosOf(start), Wrap16(p - start), mark, TokLitInt);
    next := p + 1;
    tok := OfWord(PosOf(start), InternWord(i));
    tok := tok.(tag := BitOr(tok.tag, TokLitInt));
  }

  /** The loop of the string branch (src/lexer.c:356-369) on the intern buffer: interns `StrBody` and returns where it stopped. */
  method InternStringBody(src: seq<byte>, start: nat, buf: DynBuf<byte>) returns (p: nat)
    requires buf.Valid() && start <= |src| && buf.len + 2 * |src| < MaxLen
    modifies buf.Repr
    ensures buf.Valid() && fresh(buf.Repr - old(buf.Repr))
    ensures buf.Contents == old(buf.Contents) + StrBody(src, start, false).0
    ensures p == StrBody(src, start, false).1
  {
    p := start;
    var escaped := false;
    ghost var pushed: seq<byte> := [];
    assert pushed + StrBody(src, p, escaped).0 == StrBody(src, p, escaped).0;
    assert StrLoopInv(src, start, pushed, p, escaped);
    while p < |src| && !(src[p] == Quote && !escaped)
      invariant start <= p <= |src|
      invariant buf.Valid() && fresh(buf.Repr - old(buf.Repr))
      invariant buf.Contents == old(buf.Contents) + pushed
      invariant StrLoopInv(src, start, pushed, p, escaped)
      decreases |src| - p, if escaped then 1 else 0
    {
      ghost var p0, e0 := p, escaped;
      var c: byte;
      if escaped {
        var e := Unescape(src, p);
        c, p, escaped := e.c, e.end, false;
      } else {
        c, escaped := src[p], src[p] == Backslash;
        p := p + 1;
      }
      StrLoopStep(src, start, pushed, p0, e0, c, p, escaped);
      var _ := buf.PushElem(c);
      pushed := pushed + [c];
    }
    assert StrBody(src, p, escaped).0 == [];
    assert pushed + [] == pushed;
  }

  /** Between two bytes of the string loop: `pushed` has been interned, and what is left of `StrBody` makes up the rest. */
  ghost predicate StrLoopInv(src: seq<byte>, start: nat, pushed: seq<byte>, p: nat, escaped: bool)
    requires start <= p <= |src|
  {
    |pushed| + (if escaped then 1 else 0) <= 2 * (p - start) &&
    StrBody(src, start, false) == (pushed + StrBody(src, p, escaped).0, StrBody(src, p, escaped).1)
  }

  /** One byte of the string loop keeps `StrLoopInv`. */
  lemma StrLoopStep(src: seq<byte>, start: nat, pushed: seq<byte>, p0: nat, e0: bool, c: byte, p1: nat, e1: bool)
    requires start <= p0 < |src| && !(src[p0] == Quote && !e0) && StrLoopInv(src, start, pushed, p0, e0)
    requires e0 ==> c == Unescape(src, p0).c && p1 == Unescape(src, p0).end && !e1
    requires !e0 ==> c == src[p0] && p1 == p0 + 1 && e1 == (src[p0] == Backslash)
    ensures p0 <= p1 <= |src| && StrLoopInv(src, start, pushed + [c], p1, e1)
  {
    var rest := StrBody(src, p0, e0);
    assert rest.0 == [c] + StrBody(src, p1, e1).0 && rest.1 == StrBody(src, p1, e1).1;
    assert pushed + rest.0 == (pushed + [c]) + StrBody(src, p1, e1).0;
  }

  /**
   * The punctuation branch (src/lexer.c:422-445), entered at `p` with the
   * byte `c`: the position is taken at `p` and `c` consumed; `-` followed by
   * `>` and `<` followed by `:` are the two-byte ARROW and SUBTY tokens, any
   * other byte is its own tag.
   */
  function Punct(src: seq<byte>, p: nat, c: byte): (r: (Token, nat))
    requires IsPunct(c)
    ensures r.0.pos == PosOf(p) && r.0.aux == 0
    ensures r.0.tag == TokKwArrow <==> c == Minus && At(src, p + 1) == Greater
    ensures r.0.tag == TokKwSubty <==> c == Less && At(src, p + 1) == Colon
    ensures r.0.tag != TokKwArrow && r.0.tag != TokKwSubty ==> r.0.tag == c
    ensures r.1 == if r.0.tag == TokKwArrow || r.0.tag == TokKwSubty then p + 2 else p + 1
  {
    if c == Minus && At(src, p + 1) == Greater then (Token(PosOf(p), TokKwArrow, 0), p + 2)
    else if c == Less && At(src, p + 1) == Colon then (Token(PosOf(p), TokKwSubty, 0), p + 2)
    else (Token(PosOf(p), c, 0), p + 1)
  }

  /** A row of ten zeroed slots. */
  function EmptyRow(): (r: seq<nat>)
    ensures |r| == MaxScopeDepth && forall k :: 0 <= k < |r| ==> r[k] == 0
  {
    seq(MaxScopeDepth, _ => 0)
  }

  /**
   * `ScopeStacks` (src/lexer.c:268-274): for each of the three bracket rows
   * a stack of up to ten token indices of still-open brackets, and a u8
   * cursor counting the brackets opened in that row (it keeps counting past
   * ten). The fixed-size C arrays are fields of fixed-length sequences here.
   */
  class ScopeStacks {
    var stacks: seq<seq<nat>>
    var cursors: seq<nat>

    ghost predicate Shaped()
      reads this
    {
      |stacks| == 3 && |cursors| == 3 && forall h :: 0 <= h < 3 ==> |stacks[h]| == MaxScopeDepth
    }

    /** `ScopeStacks scopes = {}`. */
    constructor ()
      ensures Shaped() && stacks == [EmptyRow(), EmptyRow(), EmptyRow()] && cursors == [0, 0, 0]
    {
      stacks := [EmptyRow(), EmptyRow(), EmptyRow()];
      cursors := [0, 0, 0];
    }
  }

  /** How many entries of a stack whose cursor is `c` hold open brackets. */
  function Live(c: nat): (n: nat)
    ensures n <= MaxScopeDepth && n <= c
  {
    if c < MaxScopeDepth then c else MaxScopeDepth
  }

  /** Token `o` is the opener of token `j`, and the two point at each other. */
  ghost predicate Paired(toks: seq<Token>, o: nat, j: nat)
  {
    o < j < |toks| && IsOpener(toks[o].tag) && toks[j].tag == CloserOf(toks[o].tag) &&
    toks[o].aux == Wrap24(j - o) && toks[j].aux == Wrap24(o as int - j)
  }

  /**
   * Bracket matching: `partner` sends every closing-bracket token, and only
   * those, to a distinct opener; each pair records the signed distance to
   * the other in its upper 24 bits; an opener nobody closed has zero there.
   */
  ghost predicate Matched(toks: seq<Token>, partner: map<nat, nat>)
  {
    (forall j :: 0 <= j < |toks| ==> (IsCloser(toks[j].tag) <==> j in partner)) &&
    (forall j :: j in partner ==> Paired(toks, partner[j], j)) &&
    (forall j1, j2 :: j1 in partner && j2 in partner && j1 != j2 ==> partner[j1] != partner[j2]) &&
    (forall o :: 0 <= o < |toks| && IsOpener(toks[o].tag) && o !in partner.Values ==> toks[o].aux == 0)
  }

  /** Entry `o` of row `h` is an opener of that row not yet closed. */
  ghost predicate OpenEntry(toks: seq<Token>, partner: map<nat, nat>, h: nat, o: nat)
    requires h < 3
  {
    o < |toks| && toks[o].tag == OpenerOfRow(h) && o !in partner.Values
  }

  /** The live stack entries are open brackets of their row, innermost last. */
  ghost predicate ScopesOk(toks: seq<Token>, stacks: seq<seq<nat>>, cursors: seq<nat>, partner: map<nat, nat>)
  {
    StacksShaped(stacks, cursors) && LiveEntries(toks, stacks, cursors, partner) && Matched(toks, partner)
  }

  /** Three rows of ten slots and three 8-bit counters. */
  predicate StacksShaped(stacks: seq<seq<nat>>, cursors: seq<nat>)
  {
    |stacks| == 3 && |cursors| == 3 && (forall h :: 0 <= h < 3 ==> |stacks[h]| == MaxScopeDepth) &&
    (forall h :: 0 <= h < 3 ==> cursors[h] < U8)
  }

  /** The live slots of each row hold open brackets of that row, in increasing token order. */
  ghost predicate LiveEntries(toks: seq<Token>, stacks: seq<seq<nat>>, cursors: seq<nat>, partner: map<nat, nat>)
  {
    StacksShaped(stacks, cursors) &&
    (forall h, k :: 0 <= h < 3 && 0 <= k < Live(cursors[h]) ==> OpenEntry(toks, partner, h, stacks[h][k])) &&
    (forall h, k1, k2 :: 0 <= h < 3 && 0 <= k1 < k2 < Live(cursors[h]) ==> stacks[h][k1] < stacks[h][k2])
  }

  /** A token that is no bracket, or an opener with zero upper bits, can be appended without disturbing the scopes. */
  lemma AppendPlain(toks: seq<Token>, t: Token, stacks: seq<seq<nat>>, cursors: seq<nat>, partner: map<nat, nat>)
    requires ScopesOk(toks, stacks, cursors, partner) && !IsCloser(t.tag) && (IsOpener(t.tag) ==> t.aux == 0)
    ensures ScopesOk(toks + [t], stacks, cursors, partner)
  {
    var toks' := toks + [t];
    forall j | j in partner ensures Paired(toks', partner[j], j) {
      assert Paired(toks, partner[j], j);
    }
    forall h, k | 0 <= h < 3 && 0 <= k < Live(cursors[h])
      ensures OpenEntry(toks', partner, h, stacks[h][k])
    {
      assert OpenEntry(toks, partner, h, stacks[h][k]);
    }
    forall o | 0 <= o < |toks'| && IsOpener(toks'[o].tag) && o !in partner.Values
      ensures toks'[o].aux == 0
    {
      if o < |toks| {
        assert toks'[o] == toks[o];
      }
    }
  }

  /**
   * How often the lexer can still stop at `cur` without advancing: an
   * opener whose row already holds ten brackets yields an INVALID token,
   * bumps the row's cursor and is lexed again, until the cursor wraps to 0.
   */
  function Stall(src: seq<byte>, cur: nat, cursors: seq<nat>): nat
    requires |cursors| == 3
  {
    if cur < |src| && IsOpener(src[cur]) && MaxScopeDepth <= cursors[Row(src[cur])] < U8
    then U8 - cursors[Row(src[cur])]
    else 0
  }

  /** `stacks[h][k] = v`. */
  function Record(stacks: seq<seq<nat>>, h: nat, k: nat, v: nat): (r: seq<seq<nat>>)
    requires h < |stacks| && k < |stacks[h]|
    ensures |r| == |stacks| && forall g :: 0 <= g < |r| ==> |r[g]| == |stacks[g]|
    ensures forall g, j :: 0 <= g < |r| && 0 <= j < |r[g]| ==> r[g][j] == if g == h && j == k then v else stacks[g][j]
  {
    var row: seq<nat> := stacks[h][k := v];
    stacks[h := row]
  }

  /** Pushing a new opener on a row with room keeps the scopes consistent. */
  lemma OpenPush(toks: seq<Token>, stacks: seq<seq<nat>>, cursors: seq<nat>, partner: map<nat, nat>, h: nat, t: Token)
    requires ScopesOk(toks, stacks, cursors, partner) && h < 3 && cursors[h] < MaxScopeDepth
    requires t.tag == OpenerOfRow(h) && t.aux == 0
    ensures ScopesOk(toks + [t], Record(stacks, h, cursors[h], |toks|), cursors[h := Wrap8(cursors[h] + 1)], partner)
  {
    var stacks' := Record(stacks, h, cursors[h], |toks|);
    var cursors' := cursors[h := Wrap8(cursors[h] + 1)];
    AppendPlain(toks, t, stacks, cursors, partner);
    var toks' := toks + [t];
    forall g, k | 0 <= g < 3 && 0 <= k < Live(cursors'[g])
      ensures OpenEntry(toks', partner, g, stacks'[g][k])
    {
      if g == h && k == cursors[h] {
        assert |toks| !in partner.Values;
      } else {
        assert OpenEntry(toks', partner, g, stacks[g][k]);
      }
    }
    forall g, k1, k2 | 0 <= g < 3 && 0 <= k1 < k2 < Live(cursors'[g])
      ensures stacks'[g][k1] < stacks'[g][k2]
    {
      if g == h && k2 == cursors[h] {
        assert OpenEntry(toks, partner, g, stacks[g][k1]);
      }
    }
  }

  /** An opener on a full row only bumps (and possibly wraps) the row's cursor. */
  lemma OpenOverflow(toks: seq<Token>, stacks: seq<seq<nat>>, cursors: seq<nat>, partner: map<nat, nat>, h: nat)
    requires ScopesOk(toks, stacks, cursors, partner) && h < 3 && cursors[h] >= MaxScopeDepth
    ensures ScopesOk(toks + [ZeroToken], stacks, cursors[h := Wrap8(cursors[h] + 1)], partner)
  {
    AppendPlain(toks, ZeroToken, stacks, cursors, partner);
    assert Live(Wrap8(cursors[h] + 1)) <= Live(cursors[h]);
  }

  /** Adding a key adds its value to the map's values. */
  lemma ValuesExtend(m: map<nat, nat>, k: nat, v: nat)
    requires k !in m
    ensures m[k := v].Values == m.Values + {v}
  {
    var m' := m[k := v];
    forall x | x in m.Values ensures x in m'.Values {
      var j :| j in m && m[j] == x;
      assert m'[j] == x;
    }
    assert m'[k] == v;
    forall x | x in m'.Values ensures x in m.Values + {v} {
      var j :| j in m' && m'[j] == x;
      if j != k {
        assert m[j] == x;
      }
    }
  }

  /** A closer on an empty row, or on one deeper than ten, leaves the stacks and yields an INVALID token. */
  lemma CloseUnmatched(toks: seq<Token>, stacks: seq<seq<nat>>, cursors: seq<nat>, partner: map<nat, nat>, h: nat)
    requires ScopesOk(toks, stacks, cursors, partner) && h < 3 && Wrap8(cursors[h] as int - 1) >= MaxScopeDepth
    ensures var c := Wrap8(cursors[h] as int - 1);
      ScopesOk(toks + [ZeroToken], stacks, cursors[h := if c == 0xFF then 0 else c], partner)
  {
    AppendPlain(toks, ZeroToken, stacks, cursors, partner);
  }

  /** Closing the open bracket `o` with a new last token `t` keeps the pairing consistent. */
  lemma ClosePairs(toks: seq<Token>, partner: map<nat, nat>, o: nat, t: Token)
    requires Matched(toks, partner) && o < |toks| && IsOpener(toks[o].tag) && o !in partner.Values
    requires t.tag == CloserOf(toks[o].tag) && t.aux == Wrap24(o as int - |toks|)
    ensures Matched(toks[o := toks[o].(aux := Wrap24(|toks| - o))] + [t], partner[|toks| := o])
  {
    var toks' := toks[o := toks[o].(aux := Wrap24(|toks| - o))] + [t];
    var partner' := partner[|toks| := o];
    assert |toks| !in partner;
    ValuesExtend(partner, |toks|, o);
    assert Paired(toks', o, |toks|);
    forall j | j in partner' ensures Paired(toks', partner'[j], j) {
      if j != |toks| {
        assert Paired(toks, partner[j], j);
        assert partner[j] != o && j != o;
      }
    }
    forall j | 0 <= j < |toks'| ensures IsCloser(toks'[j].tag) <==> j in partner' {
      if j < |toks| {
        assert toks'[j].tag == toks[j].tag;
      }
    }
    forall j1, j2 | j1 in partner' && j2 in partner' && j1 != j2 ensures partner'[j1] != partner'[j2] {
      if j1 != |toks| && j2 != |toks| {
        assert partner'[j1] == partner[j1] && partner'[j2] == partner[j2];
      } else if j1 == |toks| {
        assert partner[j2] in partner.Values;
      } else {
        assert partner[j1] in partner.Values;
      }
    }
    forall q | 0 <= q < |toks'| && IsOpener(toks'[q].tag) && q !in partner'.Values
      ensures toks'[q].aux == 0
    {
      assert q != o && q < |toks|;
      assert toks'[q] == toks[q];
    }
  }

  /** The entries left live after popping row `h` down to `c` are still open in the patched tokens. */
  lemma CloseEntries(toks: seq<Token>, stacks: seq<seq<nat>>, cursors: seq<nat>, partner: map<nat, nat>, h: nat, c: nat, t: Token)
    requires ScopesOk(toks, stacks, cursors, partner) && h < 3 && c < MaxScopeDepth && c + 1 == cursors[h]
    ensures var o := stacks[h][c];
      forall g, k | 0 <= g < 3 && 0 <= k < Live(cursors[h := c][g]) ::
        OpenEntry(toks[o := toks[o].(aux := Wrap24(|toks| - o))] + [t], partner[|toks| := o], g, stacks[g][k])
  {
    var o := stacks[h][c];
    assert OpenEntry(toks, partner, h, o);
    var toks' := toks[o := toks[o].(aux := Wrap24(|toks| - o))] + [t];
    var partner' := partner[|toks| := o];
    var cursors' := cursors[h := c];
    assert |toks| !in partner;
    ValuesExtend(partner, |toks|, o);
    forall g, k | 0 <= g < 3 && 0 <= k < Live(cursors'[g])
      ensures OpenEntry(toks', partner', g, stacks[g][k])
    {
      var e := stacks[g][k];
      assert OpenEntry(toks, partner, g, e);
      if g == h {
        assert e < o;
      } else {
        assert toks[e].tag != toks[o].tag;
      }
      assert toks'[e] == toks[e];
    }
  }

  /**
   * A closer whose row has an open bracket `o` on top pops it: the opener's
   * upper bits get the distance forward to the closer, the closer's the
   * distance back, and the pair joins `partner`.
   */
  lemma CloseMatch(toks: seq<Token>, stacks: seq<seq<nat>>, cursors: seq<nat>, partner: map<nat, nat>, h: nat, c: nat, p: Token, t: Token)
    requires ScopesOk(toks, stacks, cursors, partner) && h < 3 && c == Wrap8(cursors[h] as int - 1) && c < MaxScopeDepth
    requires var o := stacks[h][c];
      && o < |toks| && p == toks[o].(aux := Wrap24(|toks| - o))
      && t.tag == CloserOf(OpenerOfRow(h)) && t.aux == Wrap24(o as int - |toks|)
    ensures ScopesOk(toks[stacks[h][c] := p] + [t], stacks, cursors[h := c], partner[|toks| := stacks[h][c]])
  {
    assert 1 <= cursors[h] <= MaxScopeDepth && c == cursors[h] - 1;
    var o := stacks[h][c];
    assert OpenEntry(toks, partner, h, o);
    ClosePairs(toks, partner, o, t);
    CloseEntries(toks, stacks, cursors, partner, h, c, t);
  }

  /** The entry on top of a row whose cursor drops to `c` is an opener of that row with zero upper bits. */
  lemma OpenTop(toks: seq<Token>, stacks: seq<seq<nat>>, cursors: seq<nat>, partner: map<nat, nat>, h: nat, c: nat)
    requires ScopesOk(toks, stacks, cursors, partner) && h < 3 && c == Wrap8(cursors[h] as int - 1) && c < MaxScopeDepth
    ensures var o := stacks[h][c]; o < |toks| && toks[o].tag == OpenerOfRow(h) && toks[o].aux == 0
  {
    assert 1 <= cursors[h] <= MaxScopeDepth && c == cursors[h] - 1;
    assert OpenEntry(toks, partner, h, stacks[h][c]);
  }

  /**
   * Every opener of row `h` still open lies at or below the top of its row:
   * one above the `i`-th live entry is at or above the next live entry, so
   * none lies above the last one.
   */
  ghost predicate Gapless(toks: seq<Token>, stacks: seq<seq<nat>>, cursors: seq<nat>, partner: map<nat, nat>)
  {
    StacksShaped(stacks, cursors) &&
    forall h, i, k :: 0 <= h < 3 && 0 <= i < Live(cursors[h]) && stacks[h][i] < k && OpenEntry(toks, partner, h, k) ==>
      i + 1 < Live(cursors[h]) && stacks[h][i + 1] <= k
  }

  /**
   * The pairs of a row nest: a pair encloses only openers of its row that
   * are already closed, and two pairs of a row never cross.
   */
  ghost predicate Nested(toks: seq<Token>, partner: map<nat, nat>)
  {
    (forall j, k :: j in partner && partner[j] < k < j < |toks| && toks[k].tag == toks[partner[j]].tag ==> k in partner.Values) &&
    (forall j1, j2 :: j1 in partner && j2 in partner && partner[j1] < partner[j2] < j1 < |toks| && toks[partner[j2]].tag == toks[partner[j1]].tag ==> j2 < j1)
  }

  /** The scope stacks pair every closer with the innermost opener of its row still open. */
  ghost predicate Nesting(toks: seq<Token>, stacks: seq<seq<nat>>, cursors: seq<nat>, partner: map<nat, nat>)
  {
    Gapless(toks, stacks, cursors, partner) && Nested(toks, partner)
  }

  /**
   * Bracket matching is by nearest opener: every opener of the closer's row
   * that lies between a closer and its opener is closed before the closer.
   */
  lemma NearestOpener(toks: seq<Token>, partner: map<nat, nat>, j: nat, k: nat)
    requires Matched(toks, partner) && Nested(toks, partner)
    requires j in partner && partner[j] < k < j && toks[k].tag == toks[partner[j]].tag
    ensures exists j' :: j' in partner && partner[j'] == k && k < j' < j
  {
    assert Paired(toks, partner[j], j);
    assert k in partner.Values;
    var j' :| j' in partner && partner[j'] == k;
    assert Paired(toks, k, j');
  }

  /** Every closer of a matching lies before the end of the tokens. */
  lemma PartnersBelow(toks: seq<Token>, partner: map<nat, nat>)
    requires Matched(toks, partner)
    ensures forall j :: j in partner ==> j < |toks|
  {
    forall j | j in partner ensures j < |toks| {
      assert Paired(toks, partner[j], j);
    }
  }

  /** A token appended after every pair lies inside none of them. */
  lemma NestedAppend(toks: seq<Token>, t: Token, partner: map<nat, nat>)
    requires Nested(toks, partner) && forall j :: j in partner ==> j < |toks|
    ensures Nested(toks + [t], partner)
  {
  }

  /** A token that opens nothing can be appended without disturbing the nesting. */
  lemma NestAppend(toks: seq<Token>, t: Token, stacks: seq<seq<nat>>, cursors: seq<nat>, partner: map<nat, nat>)
    requires Matched(toks, partner) && Nesting(toks, stacks, cursors, partner) && !IsOpener(t.tag)
    ensures Nesting(toks + [t], stacks, cursors, partner)
  {
    var toks' := toks + [t];
    forall h: nat, k: nat | h < 3 && OpenEntry(toks', partner, h, k) ensures OpenEntry(toks, partner, h, k) {
      assert k < |toks| && toks'[k] == toks[k];
    }
    PartnersBelow(toks, partner);
    NestedAppend(toks, t, partner);
  }

  /** Changing the cursors keeps the order of the open openers when every row keeps its live entries or drops them all. */
  lemma NestLive(toks: seq<Token>, stacks: seq<seq<nat>>, cursors: seq<nat>, cursors': seq<nat>, partner: map<nat, nat>)
    requires Gapless(toks, stacks, cursors, partner) && StacksShaped(stacks, cursors')
    requires forall h :: 0 <= h < 3 ==> Live(cursors'[h]) == 0 || Live(cursors'[h]) == Live(cursors[h])
    ensures Gapless(toks, stacks, cursors', partner)
  {
  }

  /** An opener on a full row appends an INVALID token and keeps every row's live entries or drops them all. */
  lemma OpenOverflowNests(toks: seq<Token>, stacks: seq<seq<nat>>, cursors: seq<nat>, partner: map<nat, nat>, h: nat)
    requires Matched(toks, partner) && Nesting(toks, stacks, cursors, partner) && h < 3 && cursors[h] >= MaxScopeDepth
    ensures Nesting(toks + [ZeroToken], stacks, cursors[h := Wrap8(cursors[h] + 1)], partner)
  {
    NestAppend(toks, ZeroToken, stacks, cursors, partner);
    NestLive(toks + [ZeroToken], stacks, cursors, cursors[h := Wrap8(cursors[h] + 1)], partner);
  }

  /** A closer that matches nothing appends an INVALID token and keeps every row's live entries or drops them all. */
  lemma CloseUnmatchedNests(toks: seq<Token>, stacks: seq<seq<nat>>, cursors: seq<nat>, partner: map<nat, nat>, h: nat)
    requires Matched(toks, partner) && Nesting(toks, stacks, cursors, partner) && h < 3 && Wrap8(cursors[h] as int - 1) >= MaxScopeDepth
    ensures var c := Wrap8(cursors[h] as int - 1);
      Nesting(toks + [ZeroToken], stacks, cursors[h := if c == 0xFF then 0 else c], partner)
  {
    var c := Wrap8(cursors[h] as int - 1);
    NestAppend(toks, ZeroToken, stacks, cursors, partner);
    NestLive(toks + [ZeroToken], stacks, cursors, cursors[h := if c == 0xFF then 0 else c], partner);
  }

  /** Pushing an opener on a row with room keeps the nesting. */
  lemma NestPush(toks: seq<Token>, stacks: seq<seq<nat>>, cursors: seq<nat>, partner: map<nat, nat>, h: nat, t: Token)
    requires ScopesOk(toks, stacks, cursors, partner) && Nesting(toks, stacks, cursors, partner)
    requires h < 3 && cursors[h] < MaxScopeDepth && t.tag == OpenerOfRow(h)
    ensures Nesting(toks + [t], Record(stacks, h, cursors[h], |toks|), cursors[h := Wrap8(cursors[h] + 1)], partner)
  {
    PartnersBelow(toks, partner);
    NestedAppend(toks, t, partner);
    forall i | 0 <= i < cursors[h] ensures stacks[h][i] < |toks| {
      assert OpenEntry(toks, partner, h, stacks[h][i]);
    }
    NestPushGapless(toks, stacks, cursors, partner, h, t);
  }

  /** The pushed opener is the new top of its row, above every opener still open. */
  lemma NestPushGapless(toks: seq<Token>, stacks: seq<seq<nat>>, cursors: seq<nat>, partner: map<nat, nat>, h: nat, t: Token)
    requires Gapless(toks, stacks, cursors, partner) && h < 3 && cursors[h] < MaxScopeDepth && t.tag == OpenerOfRow(h)
    requires forall i :: 0 <= i < cursors[h] ==> stacks[h][i] < |toks|
    ensures Gapless(toks + [t], Record(stacks, h, cursors[h], |toks|), cursors[h := Wrap8(cursors[h] + 1)], partner)
  {
    var toks' := toks + [t];
    var stacks' := Record(stacks, h, cursors[h], |toks|);
    var cursors' := cursors[h := Wrap8(cursors[h] + 1)];
    var c := cursors[h];
    assert cursors'[h] == c + 1;
    forall g, i, k | 0 <= g < 3 && 0 <= i < Live(cursors'[g]) && stacks'[g][i] < k && OpenEntry(toks', partner, g, k)
      ensures i + 1 < Live(cursors'[g]) && stacks'[g][i + 1] <= k
    {
      if k < |toks| {
        assert toks'[k] == toks[k];
        assert OpenEntry(toks, partner, g, k);
        if g == h && i < c {
          assert stacks'[g][i] == stacks[g][i];
        }
      } else {
        assert g == h && i < c;
        if i + 1 < c {
          assert stacks'[h][i + 1] == stacks[h][i + 1];
        }
      }
    }
  }

  /** Closing the top opener `o` of row `h` with a new last token keeps the nesting. */
  lemma NestClose(toks: seq<Token>, stacks: seq<seq<nat>>, cursors: seq<nat>, partner: map<nat, nat>, h: nat, c: nat, p: Token, t: Token)
    requires ScopesOk(toks, stacks, cursors, partner) && Nesting(toks, stacks, cursors, partner)
    requires h < 3 && c < MaxScopeDepth && c + 1 == cursors[h]
    requires var o := stacks[h][c]; o < |toks| && p.tag == toks[o].tag && !IsOpener(t.tag)
    ensures Nesting(toks[stacks[h][c] := p] + [t], stacks, cursors[h := c], partner[|toks| := stacks[h][c]])
  {
    var o := stacks[h][c];
    assert OpenEntry(toks, partner, h, o);
    assert |toks| !in partner;
    ValuesExtend(partner, |toks|, o);
    forall j | j in partner ensures j < |toks| {
      assert Paired(toks, partner[j], j);
    }
    NestCloseGapless(toks, stacks, cursors, partner, h, c, p, t);
    NestCloseNested(toks, stacks, cursors, partner, h, c, p, t);
  }

  /** After the pop, the open openers still lie at or below the new top of each row. */
  lemma NestCloseGapless(toks: seq<Token>, stacks: seq<seq<nat>>, cursors: seq<nat>, partner: map<nat, nat>, h: nat, c: nat, p: Token, t: Token)
    requires Gapless(toks, stacks, cursors, partner)
    requires h < 3 && c < MaxScopeDepth && c + 1 == cursors[h]
    requires var o := stacks[h][c]; o < |toks| && p.tag == toks[o].tag && !IsOpener(t.tag)
    requires partner[|toks| := stacks[h][c]].Values == partner.Values + {stacks[h][c]}
    ensures Gapless(toks[stacks[h][c] := p] + [t], stacks, cursors[h := c], partner[|toks| := stacks[h][c]])
  {
    var o := stacks[h][c];
    var toks' := toks[o := p] + [t];
    var partner' := partner[|toks| := o];
    var cursors' := cursors[h := c];
    forall g, i, k | 0 <= g < 3 && 0 <= i < Live(cursors'[g]) && stacks[g][i] < k && OpenEntry(toks', partner', g, k)
      ensures i + 1 < Live(cursors'[g]) && stacks[g][i + 1] <= k
    {
      assert k < |toks| && k != o && toks'[k].tag == toks[k].tag;
      assert OpenEntry(toks, partner, g, k);
    }
  }

  /** The new pair encloses only closed openers of its row and crosses no older pair. */
  lemma NestCloseNested(toks: seq<Token>, stacks: seq<seq<nat>>, cursors: seq<nat>, partner: map<nat, nat>, h: nat, c: nat, p: Token, t: Token)
    requires Gapless(toks, stacks, cursors, partner) && Nested(toks, partner)
    requires h < 3 && c < MaxScopeDepth && c + 1 == cursors[h]
    requires var o := stacks[h][c]; o < |toks| && p.tag == toks[o].tag && OpenEntry(toks, partner, h, o)
    requires partner[|toks| := stacks[h][c]].Values == partner.Values + {stacks[h][c]}
    requires forall j :: j in partner ==> j < |toks|
    ensures Nested(toks[stacks[h][c] := p] + [t], partner[|toks| := stacks[h][c]])
  {
    var o := stacks[h][c];
    var n := |toks|;
    var toks' := toks[o := p] + [t];
    var partner' := partner[n := o];
    forall k | 0 <= k < n ensures toks'[k].tag == toks[k].tag {
    }
    forall j, k | j in partner' && partner'[j] < k < j < |toks'| && toks'[k].tag == toks'[partner'[j]].tag
      ensures k in partner'.Values
    {
      if j == n && k !in partner.Values {
        assert OpenEntry(toks, partner, h, k);
      }
    }
    forall j1, j2 | j1 in partner' && j2 in partner' && partner'[j1] < partner'[j2] < j1 < |toks'| && toks'[partner'[j2]].tag == toks'[partner'[j1]].tag
      ensures j2 < j1
    {
      if j1 != n && j2 == n {
        assert false;
      }
    }
  }

  /** A source the lexer can run on: no NUL byte (`strchr` would match the terminator of its bracket set and index the scopes out of bounds). */
  predicate NoNul(src: seq<byte>)
  {
    forall k :: 0 <= k < |src| ==> src[k] != 0
  }

  /** Sources below 4 MiB keep every buffer far below the lengths `DynBuf` admits. */
  const MaxSrc: nat := 0x40_0000

  /** A 24-bit word from a byte and a 16-bit half. */
  lemma PackBelow(a: nat, b: nat)
    requires a < U8 && b < U16
    ensures a + U8 * b < U24
  {
  }

  /** The bytes that start white space or a comment, which yield no token. */
  predicate Silent(src: seq<byte>, cur: nat)
    requires cur < |src|
  {
    IsSpace(src[cur]) || (src[cur] == Slash && cur + 1 < |src| && (src[cur + 1] == Slash || src[cur + 1] == Star))
  }

  // ---------------------------------------------------------------------
  // One pass of `lex` as a function of its state. The methods below are
  // proved to compute exactly these functions.

  /** The end of the run of white space at `cur` (consume_ws). */
  function WsEnd(src: seq<byte>, cur: nat): (r: nat)
    requires cur <= |src|
    ensures cur <= r <= |src| && (r == |src| || !IsSpace(src[r]))
    ensures forall k :: cur <= k < r ==> IsSpace(src[k])
    decreases |src| - cur
  {
    if cur < |src| && IsSpace(src[cur]) then WsEnd(src, cur + 1) else cur
  }

  /** The end of the run of identifier bytes at `cur`. */
  function WordEnd(src: seq<byte>, cur: nat): (r: nat)
    requires cur <= |src|
    ensures cur <= r <= |src| && (r == |src| || !IsWordByte(src[r]))
    ensures forall k :: cur <= k < r ==> IsWordByte(src[k])
    decreases |src| - cur
  {
    if cur < |src| && IsWordByte(src[cur]) then WordEnd(src, cur + 1) else cur
  }

  /** The first newline at or after `k`, or the end of the source. */
  function LineEnd(src: seq<byte>, k: nat): (r: nat)
    requires k <= |src|
    ensures k <= r <= |src| && (r == |src| || src[r] == Newline)
    ensures forall i :: k <= i < r ==> src[i] != Newline
    decreases |src| - k
  {
    if k < |src| && src[k] != Newline then LineEnd(src, k + 1) else k
  }

  /** Where the block-comment scan stops when it starts at `e`: at a closer, or at the last byte. */
  function BlockEnd(src: seq<byte>, e: nat): (r: nat)
    ensures e <= r && (r == e || r < |src|)
    ensures r + 1 >= |src| || CloseAt(src, r)
    ensures forall k :: e <= k < r ==> ScanPast(src, k)
    decreases |src| - e
  {
    if ScanPast(src, e) then BlockEnd(src, e + 1) else e
  }

  /** Where the cursor lands after the comment at `cur`. */
  function CommentEnd(src: seq<byte>, cur: nat): (r: nat)
    requires cur + 1 < |src| && src[cur] == Slash && (src[cur + 1] == Slash || src[cur + 1] == Star)
    ensures cur + 3 <= r <= |src| + 3
  {
    if src[cur + 1] == Slash then LineEnd(src, cur + 2) + 1 else BlockEnd(src, cur + 3) + 2
  }

  /** What intern_strview copies of a word: at most its first 255 bytes. */
  function Clip(w: seq<byte>): (r: seq<byte>)
    ensures |r| <= |w| && |r| <= MaxInternLen && r == w[..|r|]
  {
    w[..if |w| < MaxInternLen then |w| else MaxInternLen]
  }

  /** The upper 24 bits of an interned token: a length modulo 256, then the intern length at the start truncated to 16 bits. */
  function InternAux(n: nat, intern: seq<byte>): (a: nat)
    ensures a < U24 && a % U8 == n % U8 && a / U8 == Wrap16(|intern|)
  {
    PackBelow(n % U8, Wrap16(|intern|));
    DivModUnique(n % U8 + U8 * Wrap16(|intern|), U8, Wrap16(|intern|), n % U8);
    n % U8 + U8 * Wrap16(|intern|)
  }

  /** What a branch that leaves the scope stacks alone yields: the token, where the cursor goes, and the literal and intern buffers after it. */
  datatype Scanned = Scanned(tok: Token, next: nat, lits: seq<nat>, intern: seq<byte>)

  /**
   * The identifier, type-name and string branches (src/lexer.c:317-376). A
   * keyword is just its tag; a value identifier and a type name intern at
   * most 255 bytes of the word; a string interns its decoded body and its
   * token is tagged LIT_INT at the byte after the quote.
   */
  function InternedSpec(src: seq<byte>, cur: nat, lits: seq<nat>, intern: seq<byte>): (r: Scanned)
    requires cur < |src| && (IsLower(src[cur]) || IsUpper(src[cur]) || src[cur] == Quote)
    ensures cur < r.next <= |src| + 1 && r.lits == lits
    ensures WellFormed(r.tok) && !IsOpener(r.tok.tag) && !IsCloser(r.tok.tag)
    ensures |intern| <= |r.intern| <= |intern| + 2 * (r.next - cur) && r.intern[..|intern|] == intern
  {
    var c := src[cur];
    if IsLower(c) then
      var e := WordEnd(src, cur);
      var w := src[cur..e];
      if HashKw(w) == TokValId then Scanned(Token(PosOf(cur), TokValId, InternAux(|w|, intern)), e, lits, intern + Clip(w))
      else Scanned(Token(PosOf(cur), HashKw(w), 0), e, lits, intern)
    else if IsUpper(c) then
      var e := WordEnd(src, cur);
      var w := src[cur..e];
      Scanned(Token(PosOf(cur), TokTypeId, InternAux(|w|, intern)), e, lits, intern + Clip(w))
    else
      var b := StrBody(src, cur + 1, false);
      Scanned(Token(PosOf(cur + 1), TokLitInt, InternAux(b.1 - cur - 1, intern)), b.1 + 1, lits, intern + b.0)
  }

  /** A lower-case word as `LexWord` leaves it is what `InternedSpec` describes. */
  lemma WordScanned(src: seq<byte>, cur: nat, lits: seq<nat>, intern: seq<byte>, tok: Token, next: nat, intern': seq<byte>)
    requires cur < |src| && IsLower(src[cur]) && next == WordEnd(src, cur)
    requires tok.pos == PosOf(cur) && tok.tag == HashKw(src[cur..next])
    requires HashKw(src[cur..next]) == TokValId ==> intern' == intern + Clip(src[cur..next]) && tok.aux == InternAux(next - cur, intern)
    requires HashKw(src[cur..next]) != TokValId ==> tok.aux == 0 && intern' == intern
    ensures Scanned(tok, next, lits, intern') == InternedSpec(src, cur, lits, intern)
  {
  }

  /** A capitalised word as `LexTypeWord` leaves it is what `InternedSpec` describes. */
  lemma TypeWordScanned(src: seq<byte>, cur: nat, lits: seq<nat>, intern: seq<byte>, tok: Token, next: nat, intern': seq<byte>)
    requires cur < |src| && IsUpper(src[cur]) && next == WordEnd(src, cur)
    requires intern' == intern + Clip(src[cur..next]) && tok == Token(PosOf(cur), TokTypeId, InternAux(next - cur, intern))
    ensures Scanned(tok, next, lits, intern') == InternedSpec(src, cur, lits, intern)
  {
  }

  /** A string literal as `LexString` leaves it is what `InternedSpec` describes. */
  lemma StringScanned(src: seq<byte>, cur: nat, lits: seq<nat>, intern: seq<byte>, tok: Token, next: nat, intern': seq<byte>)
    requires cur < |src| && src[cur] == Quote
    requires var b := StrBody(src, cur + 1, false);
      && intern' == intern + b.0 && next == b.1 + 1
      && tok == Token(PosOf(cur + 1), TokLitInt, InternAux(b.1 - cur - 1, intern))
    ensures Scanned(tok, next, lits, intern') == InternedSpec(src, cur, lits, intern)
  {
  }

  /**
   * The branches of one iteration of `lex` that leave the scope stacks alone
   * (src/lexer.c:298-376 and 422-449). A `/` that starts no comment has been
   * consumed by consume_comment, so the punctuation that follows is read
   * at the NEXT byte; a number is parsed by strtoll and its value pushed; a
   * byte that fits no branch yields an INVALID token and is skipped.
   */
  function PlainSpec(src: seq<byte>, cur: nat, lits: seq<nat>, intern: seq<byte>): (r: Scanned)
    requires cur < |src| && src[cur] != 0 && !Silent(src, cur) && !IsOpener(src[cur]) && !IsCloser(src[cur])
    ensures cur < r.next <= |src| + 3 && r.next > cur
    ensures WellFormed(r.tok) && !IsOpener(r.tok.tag) && !IsCloser(r.tok.tag)
    ensures |r.intern| <= |intern| + 2 * (r.next - cur) && |r.lits| <= |lits| + 1
  {
    var c := src[cur];
    if c == Slash then
      var p := Punct(src, cur + 1, Slash);
      Scanned(p.0, p.1, lits, intern)
    else if IsDigit(c) then
      var n := StrToLL(src, cur);
      Scanned(Token(PosOf(n.end), TokLitInt, Wrap24(|lits|)), n.end, lits + [n.value], intern)
    else if IsLower(c) || IsUpper(c) || c == Quote then
      InternedSpec(src, cur, lits, intern)
    else if IsPunct(c) then
      var p := Punct(src, cur, c);
      Scanned(p.0, p.1, lits, intern)
    else
      Scanned(ZeroToken, cur + 1, lits, intern)
  }

  /** The state of `lex` between two iterations: the cursor into the source, the three buffers and the scope stacks. */
  datatype LexState = LexState(cur: nat, tokens: seq<Token>, lits: seq<nat>, intern: seq<byte>, stacks: seq<seq<nat>>, cursors: seq<nat>)

  /** The stacks are shaped as in C and every live entry indexes a token already pushed. */
  predicate Sane(s: LexState)
  {
    StacksShaped(s.stacks, s.cursors) &&
    forall h, k :: 0 <= h < 3 && 0 <= k < Live(s.cursors[h]) ==> s.stacks[h][k] < |s.tokens|
  }

  /** `LexBuf res_buf = {}` and `ScopeStacks scopes = {}` at the first byte. */
  function LexStart(): (s: LexState)
    ensures Sane(s) && s.cur == 0 && s.tokens == [] && s.cursors == [0, 0, 0]
  {
    LexState(0, [], [], [], [EmptyRow(), EmptyRow(), EmptyRow()], [0, 0, 0])
  }

  /** `uint8_t` arithmetic on a row cursor below 256. */
  lemma Wrap8Step(x: nat)
    requires x < U8
    ensures Wrap8(x + 1) == if x == 0xFF then 0 else x + 1
    ensures Wrap8(x as int - 1) == if x == 0 then 0xFF else x - 1
  {
    if x == 0 {
      DivModUnique(-1, U8, -1, 0xFF);
    }
    if x == 0xFF {
      DivModUnique(U8, U8, 1, 0);
    }
  }

  /** The opener patched by a closer: its upper bits or-ed with the distance forward (src/lexer.c:413-416). */
  function PatchOpener(toks: seq<Token>, o: nat): (r: seq<Token>)
    requires o < |toks|
    ensures |r| == |toks| && forall i :: 0 <= i < |toks| && i != o ==> r[i] == toks[i]
    ensures r[o].tag == toks[o].tag && r[o].pos == toks[o].pos
    ensures toks[o].aux == 0 ==> r[o].aux == Wrap24(|toks| - o)
  {
    toks[o := toks[o].(aux := BitOr(toks[o].aux, Wrap24(|toks| - o)))]
  }

  /**
   * The opening-bracket branch (src/lexer.c:377-391). The row's cursor is
   * bumped, wrapping at 256, in every case. Below ten the token index is
   * recorded and a token tagged with the bracket is produced; at ten or
   * more the token stays INVALID and the cursor into the source does NOT
   * move, so the same byte is lexed again.
   */
  function OpenSpec(src: seq<byte>, s: LexState): (r: (Token, LexState))
    requires s.cur < |src| && IsOpener(src[s.cur]) && Sane(s)
    ensures Sane(r.1.(tokens := r.1.tokens + [r.0]))
    ensures r.1.tokens == s.tokens && r.1.lits == s.lits && r.1.intern == s.intern
    ensures r.1.cur == s.cur + 1 || (r.1.cur == s.cur && Stall(src, r.1.cur, r.1.cursors) < Stall(src, s.cur, s.cursors))
  {
    var h := Row(src[s.cur]);
    var k := s.cursors[h];
    Wrap8Step(k);
    var cursors := s.cursors[h := Wrap8(k + 1)];
    if k < MaxScopeDepth then
      (Token(PosOf(s.cur), src[s.cur], 0), s.(cur := s.cur + 1, stacks := Record(s.stacks, h, k, |s.tokens|), cursors := cursors))
    else
      (ZeroToken, s.(cursors := cursors))
  }

  /**
   * The closing-bracket branch (src/lexer.c:392-421). The row's cursor is
   * decremented (wrapping at 256) and the byte consumed. If the result is
   * ten or more the token stays INVALID, and a cursor that wrapped from 0 is
   * put back to 0. Otherwise the opener on top of the row is patched with
   * the distance forward, and the closer carries the distance back; its
   * position is taken TWO bytes past the bracket.
   */
  function CloseSpec(src: seq<byte>, s: LexState): (r: (Token, LexState))
    requires s.cur < |src| && IsCloser(src[s.cur]) && Sane(s)
    ensures Sane(r.1.(tokens := r.1.tokens + [r.0]))
    ensures |r.1.tokens| == |s.tokens| && r.1.lits == s.lits && r.1.intern == s.intern && r.1.cur == s.cur + 1
  {
    var h := Row(src[s.cur]);
    Wrap8Step(s.cursors[h]);
    var k := Wrap8(s.cursors[h] as int - 1);
    if k >= MaxScopeDepth then
      (ZeroToken, s.(cur := s.cur + 1, cursors := s.cursors[h := if k == 0xFF then 0 else k]))
    else
      var o := s.stacks[h][k];
      (Token(PosOf(s.cur + 2), src[s.cur], Wrap24(o as int - |s.tokens|)),
       s.(cur := s.cur + 1, tokens := PatchOpener(s.tokens, o), cursors := s.cursors[h := k]))
  }

  /** `CloseSpec` in each of its two cases. */
  lemma CloseSpecAt(src: seq<byte>, s: LexState)
    requires s.cur < |src| && IsCloser(src[s.cur]) && Sane(s)
    ensures var h := Row(src[s.cur]); var k := Wrap8(s.cursors[h] as int - 1);
      && (k >= MaxScopeDepth ==> CloseSpec(src, s) == (ZeroToken, s.(cur := s.cur + 1, cursors := s.cursors[h := if k == 0xFF then 0 else k])))
      && (k < MaxScopeDepth ==>
            && s.stacks[h][k] < |s.tokens|
            && CloseSpec(src, s) == (Token(PosOf(s.cur + 2), src[s.cur], Wrap24(s.stacks[h][k] as int - |s.tokens|)),
                                     s.(cur := s.cur + 1, tokens := PatchOpener(s.tokens, s.stacks[h][k]), cursors := s.cursors[h := k])))
  {
    Wrap8Step(s.cursors[Row(src[s.cur])]);
  }

  /** The token-producing part of one iteration: the token and the state before it is pushed. */
  function ScanSpec(src: seq<byte>, s: LexState): (r: (Token, LexState))
    requires s.cur < |src| && src[s.cur] != 0 && !Silent(src, s.cur) && Sane(s)
    ensures Sane(r.1.(tokens := r.1.tokens + [r.0])) && |r.1.tokens| == |s.tokens| && r.1.cur <= |src| + 3
    ensures r.1.cur > s.cur || (r.1.cur == s.cur && Stall(src, r.1.cur, r.1.cursors) < Stall(src, s.cur, s.cursors))
  {
    var c := src[s.cur];
    if IsOpener(c) then OpenSpec(src, s)
    else if IsCloser(c) then CloseSpec(src, s)
    else
      var p := PlainSpec(src, s.cur, s.lits, s.intern);
      (p.tok, s.(cur := p.next, lits := p.lits, intern := p.intern))
  }

  /**
   * One iteration of the loop of `lex` (src/lexer.c:283-450): white space
   * and comments yield no token, every other byte exactly one. The cursor
   * advances, except at an opener on a full row, where the row's cursor
   * moves instead.
   */
  function StepSpec(src: seq<byte>, s: LexState): (r: LexState)
    requires s.cur < |src| && NoNul(src) && Sane(s)
    ensures Sane(r) && r.cur <= |src| + 3
    ensures r.cur > s.cur || (r.cur == s.cur && Stall(src, r.cur, r.cursors) < Stall(src, s.cur, s.cursors))
    ensures |r.tokens| == |s.tokens| + if Silent(src, s.cur) then 0 else 1
  {
    if IsSpace(src[s.cur]) then s.(cur := WsEnd(src, s.cur))
    else if Silent(src, s.cur) then s.(cur := CommentEnd(src, s.cur))
    else
      var r := ScanSpec(src, s);
      r.1.(tokens := r.1.tokens + [r.0])
  }

  /** `LexRes` (src/lexer.h:85-91): the token, literal and intern buffers handed to the parser. */
  datatype LexRes = LexRes(tokens: seq<Token>, lits: seq<nat>, intern: seq<byte>)

  /** The rest of the loop of `lex` from state `s`, and the buffers it returns (src/lexer.c:452-458). */
  function LexFrom(src: seq<byte>, s: LexState): (res: LexRes)
    requires NoNul(src) && Sane(s) && s.cur <= |src| + 3
    ensures |res.tokens| >= |s.tokens|
    decreases |src| + 3 - s.cur, Stall(src, s.cur, s.cursors)
  {
    if s.cur >= |src| then LexRes(s.tokens, s.lits, s.intern)
    else LexFrom(src, StepSpec(src, s))
  }

  /** One iteration of the loop of lex unfolded. */
  lemma LexFromStep(src: seq<byte>, s: LexState)
    requires NoNul(src) && Sane(s) && s.cur < |src|
    ensures LexFrom(src, s) == LexFrom(src, StepSpec(src, s))
  {
  }

  /** When the loop stops, the result is the state's buffers and the invariant speaks about them. */
  lemma LexDone(src: seq<byte>, s: LexState, partner: map<nat, nat>)
    requires StateOk(src, s, partner) && s.cur >= |src|
    ensures LexFrom(src, s) == LexRes(s.tokens, s.lits, s.intern)
    ensures Matched(s.tokens, partner) && Nested(s.tokens, partner)
    ensures forall t :: t in s.tokens ==> WellFormed(t)
    ensures |s.tokens| <= 248 * (|src| + 4) && |s.intern| <= 2 * (|src| + 3) && |s.lits| <= |src| + 3
  {
  }

  /** What lex (src/lexer.c:278-459) returns for `src`. */
  function LexSpec(src: seq<byte>): LexRes
    requires NoNul(src)
  {
    LexFrom(src, LexStart())
  }

  /**
   * A byte that no branch of `lex` classifies (a control byte, DEL, or any
   * byte of 0x80 and above) yields one INVALID token with zero fields and is
   * skipped.
   */
  lemma InvalidByteStep(src: seq<byte>, s: LexState)
    requires s.cur < |src| && NoNul(src) && Sane(s)
    requires !IsSpace(src[s.cur]) && !IsAlnum(src[s.cur]) && !IsPunct(src[s.cur])
    ensures StepSpec(src, s) == s.(cur := s.cur + 1, tokens := s.tokens + [ZeroToken])
  {
    assert !Silent(src, s.cur) && !IsOpener(src[s.cur]) && !IsCloser(src[s.cur]);
  }

  /**
   * `()` lexes to an opener and a closer that point at each other: the
   * opener's upper bits hold +1 and the closer's -1 in 24 bits. The closer's
   * position is the negated offset of the byte two past it.
   */
  lemma ParenPairExample()
    ensures LexSpec([0x28, 0x29]) == LexRes([Token(PosOf(0), 0x28, 1), Token(PosOf(3), 0x29, U24 - 1)], [], [])
  {
    var src: seq<byte> := [0x28, 0x29];
    var s0 := LexStart();
    var h := Row(0x28);
    RowBracket(0x28);
    RowBracket(0x29);
    StepAtOpener(src, s0);
    var s1 := StepSpec(src, s0);
    assert s1.cur == 1 && s1.tokens == [Token(PosOf(0), 0x28, 0)] && s1.stacks[h][0] == 0 && s1.cursors[h] == 1;
    StepAtCloser(src, s1);
    var s2 := StepSpec(src, s1);
    assert s2.cur == 2 && s2.tokens == [Token(PosOf(0), 0x28, 1), Token(PosOf(3), 0x29, U24 - 1)];
    LexFromStep(src, s0);
    LexFromStep(src, s1);
  }

  // ---------------------------------------------------------------------
  // What each iteration preserves

  /**
   * What holds between two iterations: the bracket invariants, well-formed
   * tokens, and buffers linear in the cursor (an opener on a full row can
   * stall the cursor for at most 246 iterations, each adding a token).
   */
  ghost predicate StateOk(src: seq<byte>, s: LexState, partner: map<nat, nat>)
  {
    |src| < MaxSrc && NoNul(src) && Sane(s) && Sizes(src, s) && AllWellFormed(s.tokens) &&
    ScopesOk(s.tokens, s.stacks, s.cursors, partner) && Nesting(s.tokens, s.stacks, s.cursors, partner)
  }

  /** The cursor stays within three bytes past the end and the buffers grow at most linearly in it. */
  predicate Sizes(src: seq<byte>, s: LexState)
    requires |s.cursors| == 3
  {
    s.cur <= |src| + 3 && |s.tokens| + Stall(src, s.cur, s.cursors) <= 248 * (s.cur + 1) &&
    |s.intern| <= 2 * s.cur && |s.lits| <= s.cur
  }

  /** Every token fits its 32-bit position and 24-bit upper word. */
  predicate AllWellFormed(toks: seq<Token>)
  {
    forall t :: t in toks ==> WellFormed(t)
  }

  /** The invariant from its parts. */
  lemma StateOkIntro(src: seq<byte>, r: LexState, partner: map<nat, nat>)
    requires |src| < MaxSrc && NoNul(src) && Sane(r)
    requires Sizes(src, r)
    requires AllWellFormed(r.tokens)
    requires ScopesOk(r.tokens, r.stacks, r.cursors, partner)
    requires Nesting(r.tokens, r.stacks, r.cursors, partner)
    ensures StateOk(src, r, partner)
  {
  }

  /** Consistent scopes index only tokens already pushed. */
  lemma SaneOf(s: LexState, partner: map<nat, nat>)
    requires ScopesOk(s.tokens, s.stacks, s.cursors, partner)
    ensures Sane(s)
  {
    forall h, k | 0 <= h < 3 && 0 <= k < Live(s.cursors[h]) ensures s.stacks[h][k] < |s.tokens| {
      assert OpenEntry(s.tokens, partner, h, s.stacks[h][k]);
    }
  }

  /** Appending a well-formed token keeps every token well formed. */
  lemma WellFormedAppend(toks: seq<Token>, t: Token)
    requires WellFormed(t) && forall x :: x in toks ==> WellFormed(x)
    ensures forall x :: x in toks + [t] ==> WellFormed(x)
  {
  }

  /** At most 246 stalls are left at any point. */
  lemma StallBound(src: seq<byte>, cur: nat, cursors: seq<nat>)
    requires |cursors| == 3
    ensures Stall(src, cur, cursors) <= U8 - MaxScopeDepth
  {
  }

  /** An iteration over white space or a comment moves only the cursor. */
  lemma SilentKeeps(src: seq<byte>, s: LexState, partner: map<nat, nat>)
    requires StateOk(src, s, partner) && s.cur < |src| && Silent(src, s.cur)
    ensures StateOk(src, StepSpec(src, s), partner)
  {
    var r := StepSpec(src, s);
    assert r == s.(cur := r.cur) && r.cur > s.cur;
    StallBound(src, r.cur, r.cursors);
  }

  /** An iteration through a branch that leaves the stacks alone appends a token that is no bracket. */
  lemma PlainKeeps(src: seq<byte>, s: LexState, partner: map<nat, nat>)
    requires StateOk(src, s, partner) && s.cur < |src| && !Silent(src, s.cur)
    requires !IsOpener(src[s.cur]) && !IsCloser(src[s.cur])
    ensures StateOk(src, StepSpec(src, s), partner)
  {
    var p := PlainSpec(src, s.cur, s.lits, s.intern);
    var r := StepSpec(src, s);
    assert r == s.(cur := p.next, lits := p.lits, intern := p.intern, tokens := s.tokens + [p.tok]);
    AppendPlain(s.tokens, p.tok, s.stacks, s.cursors, partner);
    NestAppend(s.tokens, p.tok, s.stacks, s.cursors, partner);
    StallBound(src, r.cur, r.cursors);
  }

  /** The iteration at an opening bracket, spelt out. */
  lemma StepAtOpener(src: seq<byte>, s: LexState)
    requires s.cur < |src| && NoNul(src) && Sane(s) && IsOpener(src[s.cur])
    ensures var h := Row(src[s.cur]); var k := s.cursors[h];
      StepSpec(src, s) ==
        if k < MaxScopeDepth
        then s.(cur := s.cur + 1, tokens := s.tokens + [Token(PosOf(s.cur), src[s.cur], 0)], stacks := Record(s.stacks, h, k, |s.tokens|), cursors := s.cursors[h := Wrap8(k + 1)])
        else s.(tokens := s.tokens + [ZeroToken], cursors := s.cursors[h := Wrap8(k + 1)])
  {
    assert !Silent(src, s.cur);
  }

  /** The iteration at a closing bracket, spelt out. */
  lemma StepAtCloser(src: seq<byte>, s: LexState)
    requires s.cur < |src| && NoNul(src) && Sane(s) && IsCloser(src[s.cur])
    ensures var h := Row(src[s.cur]); var c := Wrap8(s.cursors[h] as int - 1);
      StepSpec(src, s) ==
        if c >= MaxScopeDepth
        then s.(cur := s.cur + 1, tokens := s.tokens + [ZeroToken], cursors := s.cursors[h := if c == 0xFF then 0 else c])
        else s.(cur := s.cur + 1, tokens := PatchOpener(s.tokens, s.stacks[h][c]) + [Token(PosOf(s.cur + 2), src[s.cur], Wrap24(s.stacks[h][c] as int - |s.tokens|))], cursors := s.cursors[h := c])
  {
    assert !Silent(src, s.cur) && !IsOpener(src[s.cur]);
  }

  /** An iteration at an opening bracket pushes it, or on a full row appends INVALID and stalls. */
  lemma OpenKeeps(src: seq<byte>, s: LexState, partner: map<nat, nat>)
    requires StateOk(src, s, partner) && s.cur < |src| && IsOpener(src[s.cur])
    ensures StateOk(src, StepSpec(src, s), partner)
  {
    var h := Row(src[s.cur]);
    var k := s.cursors[h];
    RowBracket(src[s.cur]);
    Wrap8Step(k);
    StepAtOpener(src, s);
    if k < MaxScopeDepth {
      OpenPushKeeps(src, s, partner, h, Token(PosOf(s.cur), src[s.cur], 0), StepSpec(src, s));
    } else {
      OpenFullKeeps(src, s, partner, h, StepSpec(src, s));
    }
  }

  /** A push on a row with room: the new entry is the token about to be appended. */
  lemma OpenPushKeeps(src: seq<byte>, s: LexState, partner: map<nat, nat>, h: nat, t: Token, r: LexState)
    requires StateOk(src, s, partner) && s.cur < |src| && h < 3 && s.cursors[h] < MaxScopeDepth
    requires t == Token(PosOf(s.cur), OpenerOfRow(h), 0)
    requires r == s.(cur := s.cur + 1, tokens := s.tokens + [t], stacks := Record(s.stacks, h, s.cursors[h], |s.tokens|), cursors := s.cursors[h := Wrap8(s.cursors[h] + 1)])
    requires Sane(r)
    ensures StateOk(src, r, partner)
  {
    OpenPush(s.tokens, s.stacks, s.cursors, partner, h, t);
    NestPush(s.tokens, s.stacks, s.cursors, partner, h, t);
    StallBound(src, r.cur, r.cursors);
    WellFormedAppend(s.tokens, t);
    StateOkIntro(src, r, partner);
  }

  /** An opener on a full row: INVALID is appended and only the row's cursor moves. */
  lemma OpenFullKeeps(src: seq<byte>, s: LexState, partner: map<nat, nat>, h: nat, r: LexState)
    requires StateOk(src, s, partner) && s.cur < |src| && IsOpener(src[s.cur]) && h == Row(src[s.cur]) && s.cursors[h] >= MaxScopeDepth
    requires r == s.(tokens := s.tokens + [ZeroToken], cursors := s.cursors[h := Wrap8(s.cursors[h] + 1)])
    requires Stall(src, r.cur, r.cursors) < Stall(src, s.cur, s.cursors)
    requires Sane(r)
    ensures StateOk(src, r, partner)
  {
    OpenOverflow(s.tokens, s.stacks, s.cursors, partner, h);
    OpenOverflowNests(s.tokens, s.stacks, s.cursors, partner, h);
    WellFormedAppend(s.tokens, ZeroToken);
    StateOkIntro(src, r, partner);
  }

  /** An iteration at a closing bracket pops and pairs its row's top, or appends INVALID. */
  lemma CloseKeeps(src: seq<byte>, s: LexState, partner: map<nat, nat>) returns (partner': map<nat, nat>)
    requires StateOk(src, s, partner) && s.cur < |src| && IsCloser(src[s.cur])
    ensures StateOk(src, StepSpec(src, s), partner')
  {
    var h := Row(src[s.cur]);
    var c := Wrap8(s.cursors[h] as int - 1);
    RowBracket(src[s.cur]);
    StepAtCloser(src, s);
    if c >= MaxScopeDepth {
      CloseLoneKeeps(src, s, partner, h, StepSpec(src, s));
      partner' := partner;
    } else {
      var o := s.stacks[h][c];
      var t := Token(PosOf(s.cur + 2), src[s.cur], Wrap24(o as int - |s.tokens|));
      ClosePairKeeps(src, s, partner, h, c, t, StepSpec(src, s));
      partner' := partner[|s.tokens| := o];
    }
  }

  /** A closer with nothing to match: INVALID is appended and the row's cursor drops, or returns to 0. */
  lemma CloseLoneKeeps(src: seq<byte>, s: LexState, partner: map<nat, nat>, h: nat, r: LexState)
    requires StateOk(src, s, partner) && s.cur < |src| && h < 3
    requires Wrap8(s.cursors[h] as int - 1) >= MaxScopeDepth
    requires r == s.(cur := s.cur + 1, tokens := s.tokens + [ZeroToken], cursors := s.cursors[h := if Wrap8(s.cursors[h] as int - 1) == 0xFF then 0 else Wrap8(s.cursors[h] as int - 1)])
    requires Sane(r)
    ensures StateOk(src, r, partner)
  {
    CloseUnmatched(s.tokens, s.stacks, s.cursors, partner, h);
    CloseUnmatchedNests(s.tokens, s.stacks, s.cursors, partner, h);
    StallBound(src, r.cur, r.cursors);
  }

  /** A closer that pops the top opener `o` of its row: `o` is patched to `p`, the closer `t` appended and the pair recorded. */
  lemma ClosePairKeeps(src: seq<byte>, s: LexState, partner: map<nat, nat>, h: nat, c: nat, t: Token, r: LexState)
    requires StateOk(src, s, partner) && s.cur < |src| && h < 3 && c == Wrap8(s.cursors[h] as int - 1) && c < MaxScopeDepth
    requires t.tag == CloserOf(OpenerOfRow(h)) && t.aux == Wrap24(s.stacks[h][c] as int - |s.tokens|) && t.pos < U32
    requires r == s.(cur := s.cur + 1, tokens := PatchOpener(s.tokens, s.stacks[h][c]) + [t], cursors := s.cursors[h := c])
    requires Sane(r)
    ensures StateOk(src, r, partner[|s.tokens| := s.stacks[h][c]])
  {
    var o := s.stacks[h][c];
    var n := |s.tokens|;
    Wrap8Step(s.cursors[h]);
    OpenTop(s.tokens, s.stacks, s.cursors, partner, h, c);
    var p := s.tokens[o].(aux := Wrap24(n - o));
    assert PatchOpener(s.tokens, o) == s.tokens[o := p];
    CloseMatch(s.tokens, s.stacks, s.cursors, partner, h, c, p, t);
    NestClose(s.tokens, s.stacks, s.cursors, partner, h, c, p, t);
    StallBound(src, r.cur, r.cursors);
    forall x | x in r.tokens ensures WellFormed(x) {
      var i :| 0 <= i < |r.tokens| && r.tokens[i] == x;
      if i < n {
        assert s.tokens[i] in s.tokens;
      }
    }
  }

  /** Every iteration keeps the invariant, with the pairing extended by the closer it pairs, if any. */
  lemma StepKeeps(src: seq<byte>, s: LexState, partner: map<nat, nat>) returns (partner': map<nat, nat>)
    requires StateOk(src, s, partner) && s.cur < |src|
    ensures StateOk(src, StepSpec(src, s), partner')
  {
    partner' := partner;
    if IsCloser(src[s.cur]) {
      partner' := CloseKeeps(src, s, partner);
    } else {
      if Silent(src, s.cur) {
        SilentKeeps(src, s, partner);
      } else if IsOpener(src[s.cur]) {
        OpenKeeps(src, s, partner);
      } else {
        PlainKeeps(src, s, partner);
      }
    }
  }

  /** The size bounds alone survive every iteration. */
  lemma StepSizes(src: seq<byte>, s: LexState)
    requires s.cur < |src| && NoNul(src) && Sane(s) && Sizes(src, s)
    ensures Sizes(src, StepSpec(src, s))
  {
    var r := StepSpec(src, s);
    StallBound(src, r.cur, r.cursors);
    if IsSpace(src[s.cur]) || Silent(src, s.cur) {
      assert r == s.(cur := r.cur);
    } else if IsOpener(src[s.cur]) {
      var o := OpenSpec(src, s);
      assert r == o.1.(tokens := s.tokens + [o.0]);
    } else if IsCloser(src[s.cur]) {
      var c := CloseSpec(src, s);
      assert r == c.1.(tokens := c.1.tokens + [c.0]);
    } else {
      var p := PlainSpec(src, s.cur, s.lits, s.intern);
      assert r == s.(cur := p.next, lits := p.lits, intern := p.intern, tokens := s.tokens + [p.tok]);
    }
  }

  /** From any state satisfying the invariant, the rest of the loop yields matched, nested, well-formed tokens in bounded buffers. */
  lemma {:induction false} LexFromOk(src: seq<byte>, s: LexState, partner: map<nat, nat>) returns (partner': map<nat, nat>)
    requires StateOk(src, s, partner)
    ensures var res := LexFrom(src, s);
      && Matched(res.tokens, partner') && Nested(res.tokens, partner')
      && (forall t :: t in res.tokens ==> WellFormed(t))
      && |res.tokens| <= 248 * (|src| + 4) && |res.intern| <= 2 * (|src| + 3) && |res.lits| <= |src| + 3
    decreases |src| + 3 - s.cur, Stall(src, s.cur, s.cursors)
  {
    if s.cur >= |src| {
      LexDone(src, s, partner);
      partner' := partner;
    } else {
      var p := StepKeeps(src, s, partner);
      LexFromStep(src, s);
      partner' := LexFromOk(src, StepSpec(src, s), p);
    }
  }

  /**
   * What `lex` returns for any source it accepts: every token well formed,
   * brackets matched and nested, buffers linear in the source length.
   */
  lemma LexSpecOk(src: seq<byte>) returns (partner: map<nat, nat>)
    requires |src| < MaxSrc && NoNul(src)
    ensures var res := LexSpec(src);
      && Matched(res.tokens, partner) && Nested(res.tokens, partner)
      && (forall t :: t in res.tokens ==> WellFormed(t))
      && |res.tokens| <= 248 * (|src| + 4) && |res.intern| <= 2 * (|src| + 3) && |res.lits| <= |src| + 3
  {
    StartOk(src);
    partner := LexFromOk(src, LexStart(), map[]);
  }

  /** Before the first iteration every row is empty and nothing is paired. */
  lemma StartOk(src: seq<byte>)
    requires |src| < MaxSrc && NoNul(src)
    ensures StateOk(src, LexStart(), map[])
  {
    var s := LexStart();
    assert Stall(src, 0, s.cursors) == 0;
  }

  // ---------------------------------------------------------------------
  // The lexer's loop

  /** The lexer state held in `lb` and `sc` with the cursor at `cur`. */
  ghost function StateOf(cur: nat, lb: LexBuf, sc: ScopeStacks): LexState
    reads lb, lb.tokens, lb.lits, lb.intern, sc
  {
    LexState(cur, lb.tokens.Contents, lb.lits.Contents, lb.intern.Contents, sc.stacks, sc.cursors)
  }

  /** The opening-bracket branch (src/lexer.c:377-391), computing `OpenSpec`. */
  method OpenBracket(src: seq<byte>, cur: nat, lb: LexBuf, sc: ScopeStacks) returns (tok: Token, next: nat)
    requires lb.Valid() && sc !in lb.Repr && cur < |src| && IsOpener(src[cur]) && Sane(StateOf(cur, lb, sc))
    modifies sc
    ensures (tok, StateOf(next, lb, sc)) == OpenSpec(src, old(StateOf(cur, lb, sc)))
  {
    var c := src[cur];
    var h := BracketHash(c, 10);
    RowBracket(c);
    var cursor := sc.cursors[h];
    if cursor >= MaxScopeDepth {
      tok, next := ZeroToken, cur;
    } else {
      tok, next := Token(PosOf(cur), c, 0), cur + 1;
      sc.stacks := Record(sc.stacks, h, cursor, lb.tokens.len);
    }
    sc.cursors := sc.cursors[h := Wrap8(cursor + 1)];
  }

  /** The closing-bracket branch (src/lexer.c:392-421), computing `CloseSpec`. */
  method CloseBracket(src: seq<byte>, cur: nat, lb: LexBuf, sc: ScopeStacks) returns (tok: Token, next: nat)
    requires lb.Valid() && sc !in lb.Repr && cur < |src| && IsCloser(src[cur]) && Sane(StateOf(cur, lb, sc))
    modifies lb.tokens, lb.tokens.buffer, sc
    ensures lb.Valid() && lb.Repr == old(lb.Repr)
    ensures (tok, StateOf(next, lb, sc)) == CloseSpec(src, old(StateOf(cur, lb, sc)))
  {
    ghost var s := StateOf(cur, lb, sc);
    CloseSpecAt(src, s);
    var c := src[cur];
    var h := BracketHash(c, 11);
    RowBracket(c);
    var cursor := Wrap8(sc.cursors[h] as int - 1);
    next := cur + 1;
    if cursor >= MaxScopeDepth {
      sc.cursors := sc.cursors[h := if cursor == 0xFF then 0 else cursor];
      tok := ZeroToken;
    } else {
      tok := PopScope(src, cur, lb, sc, h, cursor);
    }
  }

  /** A closer whose row has an open bracket on top (src/lexer.c:413-420): the row's cursor drops and the pair is patched. */
  method PopScope(src: seq<byte>, cur: nat, lb: LexBuf, sc: ScopeStacks, h: nat, cursor: nat) returns (tok: Token)
    requires lb.Valid() && sc !in lb.Repr && cur < |src| && IsCloser(src[cur]) && Sane(StateOf(cur, lb, sc))
    requires h == Row(src[cur]) && cursor == Wrap8(sc.cursors[h] as int - 1) && cursor < MaxScopeDepth
    modifies lb.tokens, lb.tokens.buffer, sc
    ensures lb.Valid() && lb.Repr == old(lb.Repr)
    ensures (tok, StateOf(cur + 1, lb, sc)) == CloseSpec(src, old(StateOf(cur, lb, sc)))
  {
    ghost var s := StateOf(cur, lb, sc);
    Wrap8Step(sc.cursors[h]);
    sc.cursors := sc.cursors[h := cursor];
    var o := sc.stacks[h][cursor];
    var len := lb.tokens.len;
    lb.PatchScope(o);
    tok := Token(PosOf(cur + 2), src[cur], 0);
    tok := tok.(aux := BitOr(tok.aux, Wrap24(o as int - len)));
    CloseSpecAt(src, s);
  }

  /** The branches of `lex` that intern bytes (src/lexer.c:317-376), computing `InternedSpec`. */
  method ScanInterned(src: seq<byte>, cur: nat, lb: LexBuf) returns (tok: Token, next: nat)
    requires lb.Valid() && cur < |src| < MaxSrc && (IsLower(src[cur]) || IsUpper(src[cur]) || src[cur] == Quote)
    requires |lb.intern.Contents| <= 2 * cur
    modifies lb.Repr
    ensures lb.Valid() && fresh(lb.Repr - old(lb.Repr)) && lb.tokens.Contents == old(lb.tokens.Contents)
    ensures Scanned(tok, next, lb.lits.Contents, lb.intern.Contents) == InternedSpec(src, cur, old(lb.lits.Contents), old(lb.intern.Contents))
  {
    ghost var lits, intern := lb.lits.Contents, lb.intern.Contents;
    var c := src[cur];
    if IsLower(c) {
      tok, next := LexWord(src, cur, lb);
      WordScanned(src, cur, lits, intern, tok, next, lb.intern.Contents);
    } else if IsUpper(c) {
      tok, next := LexTypeWord(src, cur, lb);
      TypeWordScanned(src, cur, lits, intern, tok, next, lb.intern.Contents);
    } else {
      tok, next := LexString(src, cur, lb);
      StringScanned(src, cur, lits, intern, tok, next, lb.intern.Contents);
    }
  }

  /** The branches of one iteration that leave the scope stacks alone, computing `PlainSpec`. */
  method ScanPlain(src: seq<byte>, cur: nat, lb: LexBuf) returns (tok: Token, next: nat)
    requires lb.Valid() && cur < |src| < MaxSrc && src[cur] != 0 && !Silent(src, cur)
    requires |lb.intern.Contents| <= 2 * cur && |lb.lits.Contents| <= cur
    requires !IsOpener(src[cur]) && !IsCloser(src[cur])
    modifies lb.Repr
    ensures lb.Valid() && fresh(lb.Repr - old(lb.Repr)) && lb.tokens.Contents == old(lb.tokens.Contents)
    ensures Scanned(tok, next, lb.lits.Contents, lb.intern.Contents) == PlainSpec(src, cur, old(lb.lits.Contents), old(lb.intern.Contents))
  {
    var c := src[cur];
    if c == Slash {
      var ok;
      next, ok := ConsumeComment(src, cur);
      var r := Punct(src, next, Slash);
      tok, next := r.0, r.1;
    } else if IsDigit(c) {
      tok, next := LexNumber(src, cur, lb);
    } else if IsLower(c) || IsUpper(c) || c == Quote {
      tok, next := ScanInterned(src, cur, lb);
    } else if IsPunct(c) {
      var r := Punct(src, cur, c);
      tok, next := r.0, r.1;
    } else {
      tok, next := ZeroToken, cur + 1;
    }
  }

  /**
   * The token-producing branches of one iteration of `lex`
   * (src/lexer.c:298-446), computing `ScanSpec`.
   */
  method Scan(src: seq<byte>, cur: nat, lb: LexBuf, sc: ScopeStacks) returns (tok: Token, next: nat)
    requires lb.Valid() && sc !in lb.Repr && cur < |src| < MaxSrc && src[cur] != 0 && !Silent(src, cur)
    requires Sane(StateOf(cur, lb, sc)) && |lb.intern.Contents| <= 2 * cur && |lb.lits.Contents| <= cur
    modifies lb.Repr, sc
    ensures lb.Valid() && sc !in lb.Repr && fresh(lb.Repr - old(lb.Repr))
    ensures (tok, StateOf(next, lb, sc)) == ScanSpec(src, old(StateOf(cur, lb, sc)))
  {
    var c := src[cur];
    if IsOpener(c) {
      tok, next := OpenBracket(src, cur, lb, sc);
    } else if IsCloser(c) {
      tok, next := CloseBracket(src, cur, lb, sc);
    } else {
      tok, next := ScanPlain(src, cur, lb);
    }
  }

  /** An iteration that scans a token and pushes it (src/lexer.c:299-449). */
  method StepToken(src: seq<byte>, cur: nat, lb: LexBuf, sc: ScopeStacks) returns (next: nat)
    requires lb.Valid() && sc !in lb.Repr && cur < |src| < MaxSrc && src[cur] != 0 && !Silent(src, cur)
    requires Sane(StateOf(cur, lb, sc)) && |lb.intern.Contents| <= 2 * cur && |lb.lits.Contents| <= cur
    requires |lb.tokens.Contents| < MaxLen
    modifies lb.Repr, sc
    ensures lb.Valid() && sc !in lb.Repr && fresh(lb.Repr - old(lb.Repr))
    ensures var r := ScanSpec(src, old(StateOf(cur, lb, sc))); StateOf(next, lb, sc) == r.1.(tokens := r.1.tokens + [r.0])
  {
    var tok;
    tok, next := Scan(src, cur, lb, sc);
    lb.PushToken(tok);
  }

  /** One iteration of the loop of `lex` (src/lexer.c:283-450), computing `StepSpec`. */
  method Step(src: seq<byte>, cur: nat, lb: LexBuf, sc: ScopeStacks) returns (next: nat)
    requires lb.Valid() && sc !in lb.Repr && cur < |src| < MaxSrc && NoNul(src)
    requires Sane(StateOf(cur, lb, sc)) && Sizes(src, StateOf(cur, lb, sc))
    modifies lb.Repr, sc
    ensures lb.Valid() && sc !in lb.Repr && forall o :: o in lb.Repr ==> o in old(lb.Repr) || fresh(o)
    ensures StateOf(next, lb, sc) == StepSpec(src, old(StateOf(cur, lb, sc)))
  {
    if IsSpace(src[cur]) {
      var skipped;
      next, skipped := ConsumeWs(src, cur);
    } else if Silent(src, cur) {
      var ok;
      next, ok := ConsumeComment(src, cur);
    } else {
      next := StepToken(src, cur, lb, sc);
    }
  }

  /** The result of lex (src/lexer.c:452-458): the three buffers as they stand when the loop ends. */
  method Collect(lb: LexBuf) returns (res: LexRes)
    requires lb.Valid()
    ensures res == LexRes(lb.tokens.Contents, lb.lits.Contents, lb.intern.Contents)
  {
    res := LexRes(lb.tokens.buffer[..lb.tokens.len], lb.lits.buffer[..lb.lits.len], lb.intern.buffer[..lb.intern.len]);
  }

  /**
   * lex (src/lexer.c:278-459) returns `LexSpec(src)`. Every token is well
   * formed; brackets are matched as `Matched` describes, each closer with
   * the nearest opener of its row still open (`Nested`), so the parser can
   * jump from an opener to its closer by the distance stored in it; the
   * buffers stay within bounds linear in the source length.
   */
  method Lex(src: seq<byte>) returns (res: LexRes, ghost partner: map<nat, nat>)
    requires |src| < MaxSrc && NoNul(src)
    ensures res == LexSpec(src)
    ensures Matched(res.tokens, partner) && Nested(res.tokens, partner)
    ensures forall t :: t in res.tokens ==> WellFormed(t)
    ensures |res.tokens| <= 248 * (|src| + 4) && |res.intern| <= 2 * (|src| + 3) && |res.lits| <= |src| + 3
  {
    var lb := new LexBuf();
    var sc := new ScopeStacks();
    var cur := 0;
    ghost var s := LexStart();
    while cur < |src|
      invariant lb.Valid() && sc !in lb.Repr && fresh(lb.Repr) && fresh(sc)
      invariant s == StateOf(cur, lb, sc) && Sane(s) && Sizes(src, s)
      invariant LexFrom(src, s) == LexSpec(src)
      decreases |src| + 3 - cur, Stall(src, cur, sc.cursors)
    {
      StepSizes(src, s);
      LexFromStep(src, s);
      cur := Step(src, cur, lb, sc);
      s := StepSpec(src, s);
    }
    partner := LexSpecOk(src);
    res := Collect(lb);
  }
}
