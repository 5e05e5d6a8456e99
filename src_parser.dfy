/**
 * The parser of the `src/` revision (src/parser.c): recursive descent over
 * the lexer's token buffer, filling six per-kind arrays (functions,
 * implicit and explicit arguments, types, statements, expressions) and
 * interning every name into a string set.
 *
 * `FunctionDef`, `ExplicitArg`, `ImplicitArg`, `ParsedType`, `Statement`
 * and `Expression` are not declared in any header of the repository; their
 * fields are the ones src/parser.c reads and writes. Names are `StrView`s
 * into the string set's backing buffer, modelled as `View`s; the parse is
 * specified by functions over the same records with every name replaced by
 * its bytes.
 *
 * Every `err`, failed `assert` and `abort` ends the process: `Fatal`.
 * Reading a token at or past `tkeptr`, a literal past the table or interned
 * text past the intern buffer is `OutOfBounds`. A string-set probe that
 * never ends is `Hangs`.
 */
module Parser {
  import opened Bits
  import opened CText
  import opened Buffer
  import opened StringSet
  import opened Tokens
  import opened Lexer

  datatype Status = Ok | Fatal | OutOfBounds | Hangs

  const Comma: byte := 0x2C

  /** The token count below which the name buffer's u32 length cannot come near its limit (each token interns at most 255 bytes). */
  const MaxTokens: nat := 0x80_0000

  // The records the parser fills, over the type `N` of names: `View` in
  // the program, the bytes themselves in the specification. Zero-initialised
  // enum fields get an explicit zero constructor.
  datatype TypeKind = NoType | Named
  datatype ExprKind = NoExpr | LitInt
  datatype ParsedType<N> = ParsedType(kind: TypeKind, named: N)
  datatype ExplicitArg<N> = ExplicitArg(name: N, ty: nat)
  datatype ImplicitArg = ImplicitArg
  datatype Statement = Statement
  datatype Expression = Expression(kind: ExprKind, litInt: nat)
  datatype FunctionDef<N> = FunctionDef(name: N, iaBeg: nat, iaLen: nat, eaBeg: nat, eaLen: nat, ty: nat, blBeg: nat, blLen: nat)

  /** The contents of the six arrays of a `ParseBuf`. */
  datatype Bufs<N> = Bufs(funcs: seq<FunctionDef<N>>, iargs: seq<ImplicitArg>, eargs: seq<ExplicitArg<N>>,
                          types: seq<ParsedType<N>>, stmts: seq<Statement>, exprs: seq<Expression>)

  type Tree = Bufs<seq<byte>>

  /** Every token the lexer can hand over: well formed, and few enough for the name buffer. */
  predicate LexOk(lr: LexRes)
  {
    |lr.tokens| < MaxTokens && forall k :: 0 <= k < |lr.tokens| ==> WellFormed(lr.tokens[k])
  }

  // ---------------------------------------------------------------------
  // Names: views into the string set's buffer and the bytes they denote
  // ---------------------------------------------------------------------

  /** The bytes a view denotes in `data` (none when it does not lie inside). */
  function Text(data: seq<byte>, v: View): seq<byte>
  {
    if Inside(data, v) then data[v.off .. v.off + v.len] else []
  }

  /** A view that matches `key` in `data` denotes exactly `key`. */
  lemma TextEqual(data: seq<byte>, v: View, key: seq<byte>)
    requires Equal(data, v, key)
    ensures Inside(data, v) && Text(data, v) == key
  {
  }

  predicate IsPrefix(a: seq<byte>, b: seq<byte>)
  {
    |a| <= |b| && b[..|a|] == a
  }

  function Max(a: nat, b: nat): nat
  {
    if a < b then b else a
  }

  /** The furthest end (offset plus length) of a function name, an argument name and a type name. */
  function EndFns(fs: seq<FunctionDef<View>>): nat
  {
    if |fs| == 0 then 0 else Max(EndFns(fs[..|fs| - 1]), fs[|fs| - 1].name.off + fs[|fs| - 1].name.len)
  }

  function EndArgs(es: seq<ExplicitArg<View>>): nat
  {
    if |es| == 0 then 0 else Max(EndArgs(es[..|es| - 1]), es[|es| - 1].name.off + es[|es| - 1].name.len)
  }

  function EndTypes(ts: seq<ParsedType<View>>): nat
  {
    if |ts| == 0 then 0 else Max(EndTypes(ts[..|ts| - 1]), ts[|ts| - 1].named.off + ts[|ts| - 1].named.len)
  }

  /** Every name the arrays hold lies inside `data`. */
  predicate AllInside(data: seq<byte>, b: Bufs<View>)
  {
    EndFns(b.funcs) <= |data| && EndArgs(b.eargs) <= |data| && EndTypes(b.types) <= |data|
  }

  function NameFn(data: seq<byte>, f: FunctionDef<View>): FunctionDef<seq<byte>>
  {
    FunctionDef(Text(data, f.name), f.iaBeg, f.iaLen, f.eaBeg, f.eaLen, f.ty, f.blBeg, f.blLen)
  }

  function NameArg(data: seq<byte>, a: ExplicitArg<View>): ExplicitArg<seq<byte>>
  {
    ExplicitArg(Text(data, a.name), a.ty)
  }

  function NameType(data: seq<byte>, t: ParsedType<View>): ParsedType<seq<byte>>
  {
    ParsedType(t.kind, Text(data, t.named))
  }

  function NameFns(data: seq<byte>, fs: seq<FunctionDef<View>>): (r: seq<FunctionDef<seq<byte>>>)
    ensures |r| == |fs|
  {
    if |fs| == 0 then [] else NameFns(data, fs[..|fs| - 1]) + [NameFn(data, fs[|fs| - 1])]
  }

  function NameArgs(data: seq<byte>, es: seq<ExplicitArg<View>>): (r: seq<ExplicitArg<seq<byte>>>)
    ensures |r| == |es|
  {
    if |es| == 0 then [] else NameArgs(data, es[..|es| - 1]) + [NameArg(data, es[|es| - 1])]
  }

  function NameTypes(data: seq<byte>, ts: seq<ParsedType<View>>): (r: seq<ParsedType<seq<byte>>>)
    ensures |r| == |ts|
  {
    if |ts| == 0 then [] else NameTypes(data, ts[..|ts| - 1]) + [NameType(data, ts[|ts| - 1])]
  }

  /** The arrays with every view replaced by the bytes it denotes in `data`. */
  function Names(data: seq<byte>, b: Bufs<View>): (r: Tree)
    ensures |r.funcs| == |b.funcs| && |r.eargs| == |b.eargs| && |r.types| == |b.types|
    ensures r.iargs == b.iargs && r.stmts == b.stmts && r.exprs == b.exprs
  {
    Bufs(NameFns(data, b.funcs), b.iargs, NameArgs(data, b.eargs), NameTypes(data, b.types), b.stmts, b.exprs)
  }

  /** Appending to the string set's buffer leaves the bytes of every stored view as they were. */
  lemma NamesGrow(data: seq<byte>, data': seq<byte>, b: Bufs<View>)
    requires AllInside(data, b) && IsPrefix(data, data')
    ensures AllInside(data', b) && Names(data', b) == Names(data, b)
  {
    FnsGrow(data, data', b.funcs);
    ArgsGrow(data, data', b.eargs);
    TypesGrow(data, data', b.types);
  }

  lemma {:induction false} FnsGrow(data: seq<byte>, data': seq<byte>, fs: seq<FunctionDef<View>>)
    requires IsPrefix(data, data') && EndFns(fs) <= |data|
    ensures NameFns(data', fs) == NameFns(data, fs)
  {
    if |fs| > 0 {
      FnsGrow(data, data', fs[..|fs| - 1]);
      TextGrow(data, data', fs[|fs| - 1].name);
    }
  }

  lemma {:induction false} ArgsGrow(data: seq<byte>, data': seq<byte>, es: seq<ExplicitArg<View>>)
    requires IsPrefix(data, data') && EndArgs(es) <= |data|
    ensures NameArgs(data', es) == NameArgs(data, es)
  {
    if |es| > 0 {
      ArgsGrow(data, data', es[..|es| - 1]);
      TextGrow(data, data', es[|es| - 1].name);
    }
  }

  lemma {:induction false} TypesGrow(data: seq<byte>, data': seq<byte>, ts: seq<ParsedType<View>>)
    requires IsPrefix(data, data') && EndTypes(ts) <= |data|
    ensures NameTypes(data', ts) == NameTypes(data, ts)
  {
    if |ts| > 0 {
      TypesGrow(data, data', ts[..|ts| - 1]);
      TextGrow(data, data', ts[|ts| - 1].named);
    }
  }

  /** The same for a single view. */
  lemma TextGrow(data: seq<byte>, data': seq<byte>, v: View)
    requires Inside(data, v) && IsPrefix(data, data')
    ensures Inside(data', v) && Text(data', v) == Text(data, v)
  {
    assert data'[v.off .. v.off + v.len] == data'[..|data|][v.off .. v.off + v.len];
  }

  lemma PrefixTrans(a: seq<byte>, b: seq<byte>, c: seq<byte>)
    requires IsPrefix(a, b) && IsPrefix(b, c)
    ensures IsPrefix(a, c)
  {
    assert c[..|a|] == c[..|b|][..|a|];
  }

  /** Pushing an argument whose name lies inside `data` keeps every name inside, and adds its bytes. */
  lemma PushArg(data: seq<byte>, b: Bufs<View>, a: ExplicitArg<View>)
    requires AllInside(data, b) && Inside(data, a.name)
    ensures var b' := b.(eargs := b.eargs + [a]);
      AllInside(data, b') && Names(data, b') == Names(data, b).(eargs := Names(data, b).eargs + [NameArg(data, a)])
  {
    assert (b.eargs + [a])[..|b.eargs|] == b.eargs;
  }

  /** The same for a type. */
  lemma PushType(data: seq<byte>, b: Bufs<View>, t: ParsedType<View>)
    requires AllInside(data, b) && Inside(data, t.named)
    ensures var b' := b.(types := b.types + [t]);
      AllInside(data, b') && Names(data, b') == Names(data, b).(types := Names(data, b).types + [NameType(data, t)])
  {
    assert (b.types + [t])[..|b.types|] == b.types;
  }

  /** The same for a function definition. */
  lemma PushFn(data: seq<byte>, b: Bufs<View>, f: FunctionDef<View>)
    requires AllInside(data, b) && Inside(data, f.name)
    ensures var b' := b.(funcs := b.funcs + [f]);
      AllInside(data, b') && Names(data, b') == Names(data, b).(funcs := Names(data, b).funcs + [NameFn(data, f)])
  {
    assert (b.funcs + [f])[..|b.funcs|] == b.funcs;
  }

  // ---------------------------------------------------------------------
  // The specification: the parse as functions of the token buffer
  // ---------------------------------------------------------------------

  /** Where a parsing function leaves things: its status and, on `Ok`, the cursor, the arrays and the count it returns. */
  datatype Outcome = Outcome(st: Status, at: nat, bufs: Tree, n: nat)

  /** expect_token (src/parser.c:28-35): the token at `at` must carry `tag` in its low byte. */
  function Expect(lr: LexRes, at: nat, tag: byte): Status
  {
    if at >= |lr.tokens| then OutOfBounds else if lr.tokens[at].tag == tag then Ok else Fatal
  }

  /** insert_intern (src/parser.c:23-26): the `len >> 8` bytes at `idx` in the lexer's intern buffer. */
  function NameOf(intern: seq<byte>, t: Token): Option<seq<byte>>
    requires WellFormed(t)
  {
    var i := AsIntern(t);
    var n := i.len / U8;
    if i.idx + n <= |intern| then Some(intern[i.idx .. i.idx + n]) else None
  }

  datatype NameOutcome = NameOutcome(st: Status, bytes: seq<byte>)

  /** A token tagged `tag` (VAL_ID or TYPE_ID) and the interned name it carries (src/parser.c:51-54, 75-76 and 151-152). */
  function NameSpec(lr: LexRes, at: nat, tag: byte): NameOutcome
    requires LexOk(lr)
  {
    var st := Expect(lr, at, tag);
    if st != Ok then NameOutcome(st, [])
    else match NameOf(lr.intern, lr.tokens[at])
      case None => NameOutcome(OutOfBounds, [])
      case Some(name) => NameOutcome(Ok, name)
  }

  /** parse_type (src/parser.c:48-56): one TYPE_ID, recorded as a NAMED type. */
  function TypeSpec(lr: LexRes, at: nat, b: Tree): (r: Outcome)
    requires LexOk(lr)
    ensures r.st == Ok ==> r.at == at + 1 <= |lr.tokens|
  {
    var nm := NameSpec(lr, at, TokTypeId);
    if nm.st != Ok then Outcome(nm.st, at, b, 0)
    else Outcome(Ok, at + 1, b.(types := b.types + [ParsedType(Named, nm.bytes)]), 0)
  }

  /** parse_expr (src/parser.c:92-103): one LIT_INT, recorded with the literal it indexes. */
  function ExprSpec(lr: LexRes, at: nat, b: Tree): Outcome
  {
    var st := Expect(lr, at, TokLitInt);
    if st != Ok then Outcome(st, at, b, 0)
    else if lr.tokens[at].aux >= |lr.lits| then Outcome(OutOfBounds, at, b, 0)
    else Outcome(Ok, at + 1, b.(exprs := b.exprs + [Expression(LitInt, lr.lits[lr.tokens[at].aux])]), 0)
  }

  /** parse_stmt (src/parser.c:105-128): `return`, an expression, `;`. */
  function StmtSpec(lr: LexRes, at: nat, b: Tree): (r: Outcome)
    ensures r.st == Ok ==> r.at == at + 3 <= |lr.tokens|
  {
    if at >= |lr.tokens| then Outcome(Fatal, at, b, 0)
    else if lr.tokens[at].tag != TokKwRetrn then Outcome(Fatal, at, b, 0)
    else
      var e := ExprSpec(lr, at + 1, b);
      if e.st != Ok then e
      else
        var st := Expect(lr, e.at, TokSemi);
        if st != Ok then Outcome(st, e.at, e.bufs, 0) else Outcome(Ok, e.at + 1, e.bufs, 0)
  }

  /** The loop of parse_block (src/parser.c:137-142), from cursor `at` with `n` statements parsed. */
  function BlockLoop(lr: LexRes, at: nat, end: int, b: Tree, n: nat): (r: Outcome)
    requires at <= |lr.tokens| + 1
    ensures r.st == Ok ==> at <= r.at <= |lr.tokens| + 1
    decreases |lr.tokens| + 1 - at
  {
    if at >= end then Outcome(Ok, at, b, n)
    else if at >= |lr.tokens| then Outcome(OutOfBounds, at, b, n)
    else if lr.tokens[at].tag == TokBraceC then Outcome(Ok, at + 1, b, n)
    else
      var s := StmtSpec(lr, at, b);
      if s.st != Ok then s
      else BlockLoop(lr, s.at, end, s.bufs, n + 1)
  }

  /** One test and body of the loop of parse_block, unfolded. */
  lemma BlockLoopStep(lr: LexRes, at: nat, end: int, b: Tree, n: nat)
    requires at < end && at <= |lr.tokens| + 1
    ensures BlockLoop(lr, at, end, b, n) ==
      if at >= |lr.tokens| then Outcome(OutOfBounds, at, b, n)
      else if lr.tokens[at].tag == TokBraceC then Outcome(Ok, at + 1, b, n)
      else
        var s := StmtSpec(lr, at, b);
        if s.st != Ok then s else BlockLoop(lr, s.at, end, s.bufs, n + 1)
  {
  }

  /** parse_block (src/parser.c:130-145): `{`, then statements up to the `}` or the brace's partner. */
  function BlockSpec(lr: LexRes, at: nat, b: Tree): (r: Outcome)
    requires LexOk(lr)
    ensures r.st == Ok ==> at < r.at <= |lr.tokens| + 1
  {
    var st := Expect(lr, at, TokBraceO);
    if st != Ok then Outcome(st, at, b, 0)
    else BlockLoop(lr, at + 1, at + 1 + Signed24(lr.tokens[at].aux), b, 0)
  }

  /** One argument of parse_explicit_args (src/parser.c:73-85): `name`, `:`, a type; the argument records the index of its type. */
  function ArgSpec(lr: LexRes, a: nat, b: Tree): (r: Outcome)
    requires LexOk(lr)
    ensures r.st == Ok ==> r.at == a + 3 <= |lr.tokens|
  {
    var nm := NameSpec(lr, a, TokValId);
    if nm.st != Ok then Outcome(nm.st, a, b, 0)
    else
      var st := Expect(lr, a + 1, TokColon);
      if st != Ok then Outcome(st, a + 1, b, 0)
      else
        var t := TypeSpec(lr, a + 2, b);
        if t.st != Ok then t
        else Outcome(Ok, t.at, t.bufs.(eargs := t.bufs.eargs + [ExplicitArg(nm.bytes, |b.types|)]), 0)
  }

  /** A successful argument: its name, then the type parsed after the `:`, recorded with the type's index. */
  lemma ArgSpecOk(lr: LexRes, a: nat, b: Tree)
    requires LexOk(lr) && ArgSpec(lr, a, b).st == Ok
    ensures var N := NameSpec(lr, a, TokValId); var T := TypeSpec(lr, a + 2, b);
      && N.st == Ok && T.st == Ok
      && ArgSpec(lr, a, b) == Outcome(Ok, T.at, T.bufs.(eargs := T.bufs.eargs + [ExplicitArg(N.bytes, |b.types|)]), 0)
  {
  }

  /** One argument of parse_explicit_args with its optional trailing comma (src/parser.c:73-84). */
  function ArgItem(lr: LexRes, a: nat, b: Tree): (r: Outcome)
    requires LexOk(lr)
    ensures r.st == Ok ==> a < r.at <= |lr.tokens|
  {
    var r := ArgSpec(lr, a, b);
    if r.st != Ok then r
    else if r.at >= |lr.tokens| then Outcome(OutOfBounds, r.at, r.bufs, 0)
    else Outcome(Ok, if lr.tokens[r.at].tag == Comma then r.at + 1 else r.at, r.bufs, 0)
  }

  /** The loop of parse_explicit_args (src/parser.c:71-87): the cursor is bumped before each test against `end`; a `,` after an argument is optional. */
  function ArgsLoop(lr: LexRes, at: nat, end: int, b: Tree, n: nat): (r: Outcome)
    requires LexOk(lr) && at <= |lr.tokens|
    ensures r.st == Ok ==> at < r.at <= |lr.tokens| + 1
    decreases |lr.tokens| + 1 - at
  {
    var a := at + 1;
    if a >= end then Outcome(Ok, a, b, n)
    else
      var r := ArgItem(lr, a, b);
      if r.st != Ok then Outcome(r.st, r.at, r.bufs, n)
      else ArgsLoop(lr, r.at, end, r.bufs, n + 1)
  }

  /** The loop of parse_explicit_args ends once the bumped cursor reaches `end`. */
  lemma ArgsLoopEnd(lr: LexRes, at: nat, end: int, b: Tree, n: nat)
    requires LexOk(lr) && at <= |lr.tokens| && at + 1 >= end
    ensures ArgsLoop(lr, at, end, b, n) == Outcome(Ok, at + 1, b, n)
  {
  }

  /** An argument that fails to parse ends the loop of parse_explicit_args with its status. */
  lemma ArgsLoopFail(lr: LexRes, at: nat, end: int, b: Tree, n: nat, st: Status)
    requires LexOk(lr) && at <= |lr.tokens| && at + 1 < end
    requires ArgItem(lr, at + 1, b).st == st && st != Ok
    ensures ArgsLoop(lr, at, end, b, n).st == st
  {
  }

  /** An argument that parses leaves the rest of the loop of parse_explicit_args to run from after it. */
  lemma ArgsLoopNext(lr: LexRes, at: nat, end: int, b: Tree, n: nat, at': nat, b': Tree)
    requires LexOk(lr) && at <= |lr.tokens| && at + 1 < end
    requires var r := ArgItem(lr, at + 1, b); r.st == Ok && r.at == at' && r.bufs == b'
    ensures at < at' <= |lr.tokens| && ArgsLoop(lr, at, end, b, n) == ArgsLoop(lr, at', end, b', n + 1)
  {
  }

  /** parse_explicit_args (src/parser.c:64-90): `(`, then arguments up to the paren's partner. */
  function ArgsSpec(lr: LexRes, at: nat, b: Tree): (r: Outcome)
    requires LexOk(lr)
    ensures r.st == Ok ==> at < r.at <= |lr.tokens| + 1
  {
    var st := Expect(lr, at, TokParenO);
    if st != Ok then Outcome(st, at, b, 0)
    else ArgsLoop(lr, at + 1, at + 1 + Signed24(lr.tokens[at].aux), b, 0)
  }

  /**
   * The argument lists of parse_fn (src/parser.c:154-165): the end of the
   * tokens or a `[` (implicit arguments, not implemented) is fatal,
   * otherwise the explicit arguments follow.
   */
  function ArgListSpec(lr: LexRes, at: nat, b: Tree): (r: Outcome)
    requires LexOk(lr)
    ensures r.st == Ok ==> at < r.at <= |lr.tokens| + 1
  {
    if at >= |lr.tokens| then Outcome(Fatal, at, b, 0)
    else if lr.tokens[at].tag == TokBrackO then Outcome(Fatal, at, b, 0)
    else ArgsSpec(lr, at, b)
  }

  /**
   * The return type of parse_fn (src/parser.c:167-176): one token is
   * consumed whatever it is, and a type follows only when that token is
   * `->`; the outcome's count is the type's index, 0 when there is none.
   */
  function RetSpec(lr: LexRes, at: nat, b: Tree): (r: Outcome)
    requires LexOk(lr)
    ensures r.st == Ok ==> at < r.at <= |lr.tokens| + 1
  {
    if at >= |lr.tokens| then Outcome(Fatal, at, b, 0)
    else if lr.tokens[at].tag == TokKwArrow then
      var t := TypeSpec(lr, at + 1, b);
      t.(n := |b.types|)
    else Outcome(Ok, at + 1, b, 0)
  }

  /** The block of parse_fn and the push of the definition (src/parser.c:178-181); `ty` is the return type's index. */
  function FnBody(lr: LexRes, at: nat, b: Tree, name: seq<byte>, iaBeg: nat, iaLen: nat, ty: nat): (r: Outcome)
    requires LexOk(lr)
    ensures r.st == Ok ==> at < r.at <= |lr.tokens| + 1
  {
    var k := BlockSpec(lr, at, b);
    if k.st != Ok then k
    else
      var f := FunctionDef(name, iaBeg, iaLen, 0, 0, ty, |b.stmts|, k.n);
      Outcome(Ok, k.at, k.bufs.(funcs := k.bufs.funcs + [f]), 0)
  }

  /** The rest of parse_fn (src/parser.c:167-181): return type, block, then the definition is pushed. */
  function FnTail(lr: LexRes, at: nat, b: Tree, name: seq<byte>, iaBeg: nat, iaLen: nat): (r: Outcome)
    requires LexOk(lr)
    ensures r.st == Ok ==> at < r.at <= |lr.tokens| + 1
  {
    var t := RetSpec(lr, at, b);
    if t.st != Ok then t
    else FnBody(lr, t.at, t.bufs, name, iaBeg, iaLen, t.n)
  }

  /** parse_fn after the name (src/parser.c:154-181): the argument lists, then the rest. */
  function FnRest(lr: LexRes, at: nat, b: Tree, name: seq<byte>): (r: Outcome)
    requires LexOk(lr)
    ensures r.st == Ok ==> at < r.at <= |lr.tokens| + 1
  {
    var a := ArgListSpec(lr, at, b);
    if a.st != Ok then a
    else FnTail(lr, a.at, a.bufs, name, |b.iargs|, a.n)
  }

  /**
   * parse_fn (src/parser.c:147-182), from the token after `fn`: the name,
   * the argument lists, the return type and the block.
   */
  function FnSpec(lr: LexRes, at: nat, b: Tree): (r: Outcome)
    requires LexOk(lr)
    ensures r.st == Ok ==> at < r.at <= |lr.tokens| + 1
  {
    var nm := NameSpec(lr, at, TokValId);
    if nm.st != Ok then Outcome(nm.st, at, b, 0)
    else FnRest(lr, at + 1, b, nm.bytes)
  }

  /** The loop of parse (src/parser.c:197-208): only `fn` may start a top-level item. */
  function ParseLoop(lr: LexRes, at: nat, b: Tree): Outcome
    requires LexOk(lr) && at <= |lr.tokens| + 1
    decreases |lr.tokens| + 1 - at
  {
    if at >= |lr.tokens| then Outcome(Ok, at, b, 0)
    else if lr.tokens[at].tag != TokKwFn then Outcome(Fatal, at + 1, b, 0)
    else
      var f := FnSpec(lr, at + 1, b);
      if f.st != Ok then f
      else ParseLoop(lr, f.at, f.bufs)
  }

  /** One pass of the loop of parse, unfolded. */
  lemma ParseLoopStep(lr: LexRes, at: nat, b: Tree)
    requires LexOk(lr) && at < |lr.tokens|
    ensures lr.tokens[at].tag != TokKwFn ==> ParseLoop(lr, at, b) == Outcome(Fatal, at + 1, b, 0)
    ensures lr.tokens[at].tag == TokKwFn ==>
      var f := FnSpec(lr, at + 1, b);
      ParseLoop(lr, at, b) == if f.st != Ok then f else ParseLoop(lr, f.at, f.bufs)
  {
  }

  /** The zeroed element pushed onto every array before parsing starts (src/parser.c:188-193). */
  function Sentinels<N>(zero: N): Bufs<N>
  {
    Bufs([FunctionDef(zero, 0, 0, 0, 0, 0, 0, 0)], [ImplicitArg], [ExplicitArg(zero, 0)],
         [ParsedType(NoType, zero)], [Statement], [Expression(NoExpr, 0)])
  }

  /** parse (src/parser.c:184-211). */
  function ParseSpec(lr: LexRes): Outcome
    requires LexOk(lr)
  {
    ParseLoop(lr, 0, Sentinels([]))
  }

  // ---------------------------------------------------------------------
  // Worked examples
  // ---------------------------------------------------------------------

  /** The tokens of `fn f() -> T { return 1; }`: partners as relative displacements, names interned as `f` then `T`. */
  function OneFnTokens(): seq<Token>
  {
    [Token(0, TokKwFn, 0), Token(3, TokValId, 1), Token(4, TokParenO, 1), Token(5, TokParenC, U24 - 1),
     Token(7, TokKwArrow, 0), Token(10, TokTypeId, 257), Token(12, TokBraceO, 4), Token(14, TokKwRetrn, 0),
     Token(21, TokLitInt, 0), Token(22, TokSemi, 0), Token(24, TokBraceC, U24 - 4)]
  }

  /** The two names of the example: `f` at intern offset 0 and `T` at offset 1, one byte each. */
  lemma OneFnNames(lr: LexRes)
    requires lr.tokens == OneFnTokens() && lr.intern == [0x66, 0x54]
    ensures LexOk(lr)
    ensures NameSpec(lr, 1, TokValId) == NameOutcome(Ok, [0x66])
    ensures NameSpec(lr, 5, TokTypeId) == NameOutcome(Ok, [0x54])
  {
    assert AsIntern(lr.tokens[1]) == Intern(U8 + TokValId, 0);
    assert AsIntern(lr.tokens[5]) == Intern(U8 + TokTypeId, 1);
  }

  /**
   * `fn f() -> T { return 1; }` parses: one function named `f` with no
   * arguments, return type 1 and a block of one statement, the type `T`
   * and the expression `1`, each after its array's zeroed first element.
   */
  lemma ParseOneFunction(lr: LexRes)
    requires lr == LexRes(OneFnTokens(), [1], [0x66, 0x54])
    ensures LexOk(lr)
    ensures var r := ParseSpec(lr);
      r.st == Ok &&
      r.bufs.funcs == [FunctionDef([], 0, 0, 0, 0, 0, 0, 0), FunctionDef([0x66], 1, 0, 0, 0, 1, 1, 1)] &&
      r.bufs.types == [ParsedType(NoType, []), ParsedType(Named, [0x54])] &&
      r.bufs.exprs == [Expression(NoExpr, 0), Expression(LitInt, 1)] &&
      r.bufs.eargs == [ExplicitArg([], 0)] && r.bufs.iargs == [ImplicitArg] && r.bufs.stmts == [Statement]
  {
    OneFnNames(lr);
    var b0 := Sentinels([]);
    assert ArgListSpec(lr, 2, b0) == Outcome(Ok, 4, b0, 0);
    var b1 := b0.(types := b0.types + [ParsedType(Named, [0x54])]);
    assert RetSpec(lr, 4, b0) == Outcome(Ok, 6, b1, 1);
    var b2 := b1.(exprs := b1.exprs + [Expression(LitInt, 1)]);
    assert StmtSpec(lr, 7, b1) == Outcome(Ok, 10, b2, 0);
    BlockLoopStep(lr, 7, 11, b1, 0);
    BlockLoopStep(lr, 10, 11, b2, 1);
    assert BlockSpec(lr, 6, b1) == Outcome(Ok, 11, b2, 1);
    var b3 := b2.(funcs := b2.funcs + [FunctionDef([0x66], 1, 0, 0, 0, 1, 1, 1)]);
    assert FnSpec(lr, 1, b0) == Outcome(Ok, 11, b3, 0);
    ParseLoopStep(lr, 0, b0);
  }

  /** The tokens of `fn f(x: T) { }`, names interned as `f`, `x`, `T`. */
  function OneArgTokens(): seq<Token>
  {
    [Token(0, TokKwFn, 0), Token(3, TokValId, 1), Token(4, TokParenO, 4), Token(5, TokValId, 257),
     Token(6, TokColon, 0), Token(8, TokTypeId, 513), Token(9, TokParenC, U24 - 4), Token(11, TokBraceO, 1),
     Token(13, TokBraceC, U24 - 1)]
  }

  /**
   * `fn f(x: T) { }` does not parse: the loop of parse_explicit_args bumps
   * the cursor before its first test, so the first argument is read from
   * the `:` after `x`, and expect_token fails.
   */
  lemma OneArgumentFatal(lr: LexRes)
    requires lr == LexRes(OneArgTokens(), [], [0x66, 0x78, 0x54])
    ensures LexOk(lr) && ParseSpec(lr).st == Fatal
  {
    var b0 := Sentinels([]);
    assert AsIntern(lr.tokens[1]) == Intern(U8 + TokValId, 0);
    assert NameSpec(lr, 1, TokValId) == NameOutcome(Ok, [0x66]);
    assert ArgSpec(lr, 4, b0).st == Fatal;
    assert ArgsSpec(lr, 2, b0).st == Fatal;
    assert FnSpec(lr, 1, b0).st == Fatal;
    ParseLoopStep(lr, 0, b0);
  }

  /** The tokens of `fn f() { return 1; }`. */
  function NoArrowTokens(): seq<Token>
  {
    [Token(0, TokKwFn, 0), Token(3, TokValId, 1), Token(4, TokParenO, 1), Token(5, TokParenC, U24 - 1),
     Token(7, TokBraceO, 4), Token(9, TokKwRetrn, 0), Token(16, TokLitInt, 0), Token(17, TokSemi, 0),
     Token(19, TokBraceC, U24 - 4)]
  }

  /**
   * `fn f() { return 1; }` does not parse: the token after the argument
   * list is consumed whether or not it is `->`, so without a return type
   * the block's `{` is gone and parse_block fails on `return`.
   */
  lemma NoArrowFatal(lr: LexRes)
    requires lr == LexRes(NoArrowTokens(), [1], [0x66])
    ensures LexOk(lr) && ParseSpec(lr).st == Fatal
  {
    var b0 := Sentinels([]);
    assert AsIntern(lr.tokens[1]) == Intern(U8 + TokValId, 0);
    assert NameSpec(lr, 1, TokValId) == NameOutcome(Ok, [0x66]);
    assert ArgListSpec(lr, 2, b0) == Outcome(Ok, 4, b0, 0);
    assert RetSpec(lr, 4, b0) == Outcome(Ok, 5, b0, 0);
    assert FnSpec(lr, 1, b0).st == Fatal;
    ParseLoopStep(lr, 0, b0);
  }

  /**
   * For every token buffer: when the token after the argument list is the
   * block's `{` (no return type), the function parses only if a second `{`
   * follows it.
   */
  lemma NoArrowNeedsSecondBrace(lr: LexRes, at: nat, b: Tree, name: seq<byte>, iaBeg: nat, iaLen: nat)
    requires LexOk(lr) && at < |lr.tokens| && lr.tokens[at].tag == TokBraceO
    requires at + 1 >= |lr.tokens| || lr.tokens[at + 1].tag != TokBraceO
    ensures FnTail(lr, at, b, name, iaBeg, iaLen).st != Ok
  {
    assert RetSpec(lr, at, b) == Outcome(Ok, at + 1, b, 0);
    assert BlockSpec(lr, at + 1, b).st != Ok;
  }

  // ---------------------------------------------------------------------
  // The argument list and the return type as evidently intended
  // ---------------------------------------------------------------------

  /**
   * The loop of parse_explicit_args as evidently intended: arguments are
   * read from the token after `(` while the cursor is before the partner
   * `)` at `close`, and the `)` is then stepped over.
   */
  function ArgsLoopIntended(lr: LexRes, a: nat, close: int, b: Tree, n: nat): (r: Outcome)
    requires LexOk(lr) && a <= |lr.tokens|
    ensures r.st == Ok ==> a < r.at <= |lr.tokens| + 1
    decreases |lr.tokens| - a
  {
    if a >= close then Outcome(Ok, a + 1, b, n)
    else
      var r := ArgItem(lr, a, b);
      if r.st != Ok then Outcome(r.st, r.at, r.bufs, n)
      else ArgsLoopIntended(lr, r.at, close, r.bufs, n + 1)
  }

  /** parse_explicit_args as evidently intended: `(`, the arguments up to its partner, the `)`. */
  function ArgsIntended(lr: LexRes, at: nat, b: Tree): (r: Outcome)
    requires LexOk(lr)
    ensures r.st == Ok ==> at < r.at <= |lr.tokens| + 1
  {
    var st := Expect(lr, at, TokParenO);
    if st != Ok then Outcome(st, at, b, 0)
    else ArgsLoopIntended(lr, at + 1, at + Signed24(lr.tokens[at].aux), b, 0)
  }

  /** On an empty argument list `()` the intended loop and the loop as written agree. */
  lemma EmptyArgsAgree(lr: LexRes, at: nat, b: Tree)
    requires LexOk(lr) && at < |lr.tokens| && lr.tokens[at].tag == TokParenO && Signed24(lr.tokens[at].aux) == 1
    ensures ArgsIntended(lr, at, b) == ArgsSpec(lr, at, b) == Outcome(Ok, at + 2, b, 0)
  {
  }

  /** The intended loop reads `x: T` of `fn f(x: T) { }` as one argument named `x` of type `T`, and steps past the `)`. */
  lemma OneArgumentIntended(lr: LexRes)
    requires lr == LexRes(OneArgTokens(), [], [0x66, 0x78, 0x54])
    ensures LexOk(lr)
    ensures var b := Sentinels([]);
      ArgsIntended(lr, 2, b) ==
        Outcome(Ok, 7, b.(types := b.types + [ParsedType(Named, [0x54])], eargs := b.eargs + [ExplicitArg([0x78], 1)]), 1)
  {
    var b0 := Sentinels([]);
    assert AsIntern(lr.tokens[3]) == Intern(U8 + TokValId, 1);
    assert AsIntern(lr.tokens[5]) == Intern(U8 + TokTypeId, 2);
    assert NameSpec(lr, 3, TokValId) == NameOutcome(Ok, [0x78]);
    assert NameSpec(lr, 5, TokTypeId) == NameOutcome(Ok, [0x54]);
    var b1 := b0.(types := b0.types + [ParsedType(Named, [0x54])], eargs := b0.eargs + [ExplicitArg([0x78], 1)]);
    assert ArgItem(lr, 3, b0) == Outcome(Ok, 6, b1, 0);
  }

  /** The return type as evidently intended: the token after the argument list is consumed only when it is `->`. */
  function RetIntended(lr: LexRes, at: nat, b: Tree): (r: Outcome)
    requires LexOk(lr)
    ensures r.st == Ok ==> at <= r.at <= |lr.tokens| + 1
  {
    if at >= |lr.tokens| then Outcome(Fatal, at, b, 0)
    else if lr.tokens[at].tag == TokKwArrow then
      var t := TypeSpec(lr, at + 1, b);
      t.(n := |b.types|)
    else Outcome(Ok, at, b, 0)
  }

  /** The rest of parse_fn with the intended return type. */
  function FnTailIntended(lr: LexRes, at: nat, b: Tree, name: seq<byte>, iaBeg: nat, iaLen: nat): (r: Outcome)
    requires LexOk(lr)
    ensures r.st == Ok ==> at < r.at <= |lr.tokens| + 1
  {
    var t := RetIntended(lr, at, b);
    if t.st != Ok then t
    else FnBody(lr, t.at, t.bufs, name, iaBeg, iaLen, t.n)
  }

  /**
   * For every token buffer: with `->` the intended tail is the tail as
   * written; without it the block is parsed from the token after the
   * argument list, with return type 0.
   */
  lemma IntendedTail(lr: LexRes, at: nat, b: Tree, name: seq<byte>, iaBeg: nat, iaLen: nat)
    requires LexOk(lr) && at < |lr.tokens|
    ensures lr.tokens[at].tag == TokKwArrow ==> FnTailIntended(lr, at, b, name, iaBeg, iaLen) == FnTail(lr, at, b, name, iaBeg, iaLen)
    ensures lr.tokens[at].tag != TokKwArrow ==> FnTailIntended(lr, at, b, name, iaBeg, iaLen) == FnBody(lr, at, b, name, iaBeg, iaLen, 0)
  {
  }

  /** With the intended return type, `fn f() { return 1; }` yields one function with return type 0 and a one-statement block. */
  lemma NoArrowIntended(lr: LexRes)
    requires lr == LexRes(NoArrowTokens(), [1], [0x66])
    ensures LexOk(lr)
    ensures var b := Sentinels([]);
      FnTailIntended(lr, 4, b, [0x66], 1, 0) ==
        Outcome(Ok, 9, b.(exprs := b.exprs + [Expression(LitInt, 1)],
                          funcs := b.funcs + [FunctionDef([0x66], 1, 0, 0, 0, 0, 1, 1)]), 0)
  {
    var b0 := Sentinels([]);
    var b1 := b0.(exprs := b0.exprs + [Expression(LitInt, 1)]);
    assert StmtSpec(lr, 5, b0) == Outcome(Ok, 8, b1, 0);
    BlockLoopStep(lr, 5, 9, b0, 0);
    BlockLoopStep(lr, 8, 9, b1, 1);
    assert BlockSpec(lr, 4, b0) == Outcome(Ok, 9, b1, 1);
  }

  // ---------------------------------------------------------------------
  // What the parse appends
  // ---------------------------------------------------------------------

  /** Each array of `b'` starts with the matching array of `b`. */
  predicate Extends(b: Tree, b': Tree)
  {
    b.funcs <= b'.funcs && b.iargs <= b'.iargs && b.eargs <= b'.eargs &&
    b.types <= b'.types && b.stmts <= b'.stmts && b.exprs <= b'.exprs
  }

  /** The loop of parse_block appends only expressions. */
  lemma {:induction false} BlockLoopAppends(lr: LexRes, at: nat, end: int, b: Tree, n: nat)
    requires at <= |lr.tokens| + 1
    ensures var r := BlockLoop(lr, at, end, b, n);
      r.st == Ok ==> b.exprs <= r.bufs.exprs && r.bufs == b.(exprs := r.bufs.exprs)
    decreases |lr.tokens| + 1 - at
  {
    if at < end && at < |lr.tokens| && lr.tokens[at].tag != TokBraceC {
      var s := StmtSpec(lr, at, b);
      if s.st == Ok {
        BlockLoopAppends(lr, s.at, end, s.bufs, n + 1);
      }
    }
  }

  /** The loop of parse_explicit_args appends one explicit argument and one type per argument it counts. */
  lemma {:induction false} ArgsLoopAppends(lr: LexRes, at: nat, end: int, b: Tree, n: nat)
    requires LexOk(lr) && at <= |lr.tokens|
    ensures var r := ArgsLoop(lr, at, end, b, n);
      r.st == Ok ==>
        (Extends(b, r.bufs) && n <= r.n &&
         |r.bufs.eargs| == |b.eargs| + (r.n - n) && |r.bufs.types| == |b.types| + (r.n - n) &&
         r.bufs.funcs == b.funcs && r.bufs.iargs == b.iargs && r.bufs.stmts == b.stmts && r.bufs.exprs == b.exprs)
    decreases |lr.tokens| + 1 - at
  {
    var a := at + 1;
    if a < end {
      var r := ArgItem(lr, a, b);
      if r.st == Ok {
        ArgsLoopAppends(lr, r.at, end, r.bufs, n + 1);
      }
    }
  }

  /** Appending is transitive. */
  lemma ExtendsTrans(b: Tree, b': Tree, b'': Tree)
    requires Extends(b, b') && Extends(b', b'')
    ensures Extends(b, b'')
  {
  }

  /** The argument lists append one explicit argument and one type per argument they count. */
  lemma ArgListAppends(lr: LexRes, at: nat, b: Tree)
    requires LexOk(lr)
    ensures var r := ArgListSpec(lr, at, b);
      r.st == Ok ==>
        (Extends(b, r.bufs) && |r.bufs.eargs| == |b.eargs| + r.n &&
         r.bufs.funcs == b.funcs && r.bufs.iargs == b.iargs && r.bufs.stmts == b.stmts)
  {
    if at < |lr.tokens| && lr.tokens[at].tag != TokBrackO && Expect(lr, at, TokParenO) == Ok {
      ArgsLoopAppends(lr, at + 1, at + 1 + Signed24(lr.tokens[at].aux), b, 0);
    }
  }

  /** The return type appends at most a type. */
  lemma RetAppends(lr: LexRes, at: nat, b: Tree)
    requires LexOk(lr)
    ensures var r := RetSpec(lr, at, b);
      r.st == Ok ==> b.types <= r.bufs.types && r.bufs == b.(types := r.bufs.types)
  {
  }

  /** The block and the push of the definition: the definition records its arguments, return type and block. */
  lemma FnBodyAppends(lr: LexRes, at: nat, b: Tree, name: seq<byte>, iaBeg: nat, iaLen: nat, ty: nat)
    requires LexOk(lr)
    ensures var r := FnBody(lr, at, b, name, iaBeg, iaLen, ty);
      r.st == Ok ==>
        (Extends(b, r.bufs) && |r.bufs.funcs| == |b.funcs| + 1 &&
         r.bufs.iargs == b.iargs && r.bufs.eargs == b.eargs && r.bufs.stmts == b.stmts &&
         var f := r.bufs.funcs[|b.funcs|];
         f.name == name && f.iaBeg == iaBeg && f.iaLen == iaLen && f.eaBeg == 0 && f.eaLen == 0 && f.ty == ty &&
         f.blBeg == |b.stmts|)
  {
    if Expect(lr, at, TokBraceO) == Ok {
      BlockLoopAppends(lr, at + 1, at + 1 + Signed24(lr.tokens[at].aux), b, 0);
    }
  }

  /**
   * A function that parses appends its definition, and nothing to the
   * implicit arguments or the statements. The definition's implicit-argument
   * fields describe the EXPLICIT arguments (src/parser.c:160-165): `iaBeg`
   * is the implicit array's length and `iaLen` counts the explicit arguments
   * appended; `eaBeg` and `eaLen` stay 0. Its block starts at the statement
   * array's length.
   */
  lemma FnSpecAppends(lr: LexRes, at: nat, b: Tree)
    requires LexOk(lr)
    ensures var r := FnSpec(lr, at, b);
      r.st == Ok ==>
        (Extends(b, r.bufs) && |r.bufs.funcs| == |b.funcs| + 1 && r.bufs.iargs == b.iargs && r.bufs.stmts == b.stmts &&
         var f := r.bufs.funcs[|b.funcs|];
         f.iaBeg == |b.iargs| && f.iaLen == |r.bufs.eargs| - |b.eargs| && f.eaBeg == 0 && f.eaLen == 0 && f.blBeg == |b.stmts|)
  {
    var nm := NameSpec(lr, at, TokValId);
    if nm.st == Ok {
      var a := ArgListSpec(lr, at + 1, b);
      ArgListAppends(lr, at + 1, b);
      if a.st == Ok {
        var t := RetSpec(lr, a.at, a.bufs);
        RetAppends(lr, a.at, a.bufs);
        if t.st == Ok {
          FnBodyAppends(lr, t.at, t.bufs, nm.bytes, |b.iargs|, a.n, t.n);
          var r := FnBody(lr, t.at, t.bufs, nm.bytes, |b.iargs|, a.n, t.n);
          assert FnSpec(lr, at, b) == r;
          if r.st == Ok {
            ExtendsTrans(b, a.bufs, t.bufs);
            ExtendsTrans(b, t.bufs, r.bufs);
          }
        }
      }
    }
  }

  /** The loop of parse only appends. */
  lemma {:induction false} ParseLoopAppends(lr: LexRes, at: nat, b: Tree)
    requires LexOk(lr) && at <= |lr.tokens| + 1
    ensures var r := ParseLoop(lr, at, b);
      r.st == Ok ==> Extends(b, r.bufs) && r.bufs.iargs == b.iargs && r.bufs.stmts == b.stmts
    decreases |lr.tokens| + 1 - at
  {
    if at < |lr.tokens| && lr.tokens[at].tag == TokKwFn {
      var f := FnSpec(lr, at + 1, b);
      FnSpecAppends(lr, at + 1, b);
      if f.st == Ok {
        ParseLoopAppends(lr, f.at, f.bufs);
        var r := ParseLoop(lr, f.at, f.bufs);
        if r.st == Ok {
          ExtendsTrans(b, f.bufs, r.bufs);
        }
      }
    }
  }

  /**
   * A successful parse keeps the zeroed element at index 0 of every array
   * (src/parser.c:188-193), and never appends an implicit argument or a
   * statement: parse_stmt pushes nothing, so every block starts at
   * statement 1.
   */
  lemma ParseKeepsSentinels(lr: LexRes)
    requires LexOk(lr)
    ensures var r := ParseSpec(lr);
      r.st == Ok ==>
        (|r.bufs.funcs| > 0 && |r.bufs.eargs| > 0 && |r.bufs.types| > 0 && |r.bufs.exprs| > 0 &&
         r.bufs.funcs[0] == FunctionDef([], 0, 0, 0, 0, 0, 0, 0) && r.bufs.eargs[0] == ExplicitArg([], 0) &&
         r.bufs.types[0] == ParsedType(NoType, []) && r.bufs.exprs[0] == Expression(NoExpr, 0) &&
         r.bufs.iargs == [ImplicitArg] && r.bufs.stmts == [Statement])
  {
    ParseLoopAppends(lr, 0, Sentinels([]));
  }

  // ---------------------------------------------------------------------
  // The program: a token cursor, the six arrays and the string set
  // ---------------------------------------------------------------------

  /** `ParseBuf` (src/parser.c:10-21): the six arrays, each a growable buffer in the source. */
  class ParseBuf {
    var funcs: seq<FunctionDef<View>>
    var iargs: seq<ImplicitArg>
    var eargs: seq<ExplicitArg<View>>
    var types: seq<ParsedType<View>>
    var stmts: seq<Statement>
    var exprs: seq<Expression>

    /** `ParseBuf buf = {}`: six empty arrays. */
    constructor ()
      ensures Snapshot() == Bufs([], [], [], [], [], [])
    {
      funcs, iargs, eargs, types, stmts, exprs := [], [], [], [], [], [];
    }

    function Snapshot(): Bufs<View>
      reads this
    {
      Bufs(funcs, iargs, eargs, types, stmts, exprs)
    }
  }

  /** The `LexRes` the parser walks, with `lr->tokens` as an index `at` into the token buffer. */
  class LexCursor {
    const lr: LexRes
    var at: nat

    constructor (lr: LexRes)
      ensures this.lr == lr && at == 0
    {
      this.lr := lr;
      at := 0;
    }
  }

  /** The arrays as the specification sees them: every view replaced by its bytes in the string set's buffer. */
  ghost function Parsed(p: ParseBuf, hs: HSet): Tree
    reads p, hs, hs.intrn
  {
    Names(hs.intrn.Contents, p.Snapshot())
  }

  /**
   * What holds between parsing steps: the string set is valid and holds at
   * most 255 bytes and one entry per token consumed, and every view in the
   * arrays lies inside its buffer.
   */
  ghost predicate Inv(p: ParseBuf, c: LexCursor, hs: HSet)
    reads p, c, hs, hs.Repr
  {
    hs.Valid() && p !in hs.Repr && c !in hs.Repr &&
    LexOk(c.lr) && c.at <= |c.lr.tokens| + 1 &&
    hs.intrn.len <= 255 * c.at && hs.inuse <= c.at &&
    AllInside(hs.intrn.Contents, p.Snapshot())
  }

  /** With fewer than 2^24 entries the table never needs the doubling past 2^31 slots that aborts. */
  lemma NoGrowAbort(inuse: nat, encap: nat)
    requires inuse < U24
    ensures !(NeedsGrow(inuse, encap) && encap == 0x8000_0000)
  {
    if encap == 0x8000_0000 {
      assert inuse * 1_618_034 < U24 * 1_618_034;
    }
  }

  /** expect_token (src/parser.c:28-35): reads the token under the cursor, always advances by one, and fails unless the tag matches. */
  method ExpectToken(ghost p: ParseBuf, c: LexCursor, ghost hs: HSet, tag: byte) returns (st: Status, tok: Token)
    requires Inv(p, c, hs)
    modifies c
    ensures c.at == old(c.at) + 1 && (old(c.at) <= |c.lr.tokens| ==> Inv(p, c, hs))
    ensures st == Expect(c.lr, old(c.at), tag)
    ensures st == Ok <==> old(c.at) < |c.lr.tokens| && c.lr.tokens[old(c.at)].tag == tag
    ensures old(c.at) < |c.lr.tokens| ==> tok == c.lr.tokens[old(c.at)]
  {
    if c.at >= |c.lr.tokens| {
      st, tok := OutOfBounds, ZeroToken;
    } else {
      tok := c.lr.tokens[c.at];
      st := if tok.tag == tag then Ok else Fatal;
    }
    c.at := c.at + 1;
  }

  /** opt_munch_token (src/parser.c:37-46): advances by one exactly when the token under the cursor carries `tag`. */
  method OptMunchToken(ghost p: ParseBuf, c: LexCursor, ghost hs: HSet, tag: byte) returns (st: Status, matched: bool)
    requires Inv(p, c, hs)
    modifies c
    ensures Inv(p, c, hs)
    ensures st == (if old(c.at) < |c.lr.tokens| then Ok else OutOfBounds)
    ensures st == Ok ==> (matched <==> c.lr.tokens[old(c.at)].tag == tag)
    ensures st == Ok ==> c.at == old(c.at) + (if matched then 1 else 0)
  {
    if c.at >= |c.lr.tokens| {
      return OutOfBounds, false;
    }
    st := Ok;
    matched := c.lr.tokens[c.at].tag == tag;
    if matched {
      c.at := c.at + 1;
    }
  }

  /** `lr->tokens++` outside expect_token: the cursor moves one token on. */
  method Advance(ghost p: ParseBuf, c: LexCursor, ghost hs: HSet)
    requires Inv(p, c, hs) && c.at <= |c.lr.tokens|
    modifies c
    ensures c.at == old(c.at) + 1 && Inv(p, c, hs) && Parsed(p, hs) == old(Parsed(p, hs))
  {
    c.at := c.at + 1;
  }

  /**
   * insert_intern (src/parser.c:23-26): the `len >> 8` bytes at `idx` of
   * the lexer's intern buffer go into the string set; the view returned
   * denotes exactly those bytes.
   */
  method InsertIntern(hs: HSet, intern: seq<byte>, t: Token) returns (st: Status, v: View)
    requires hs.Valid() && WellFormed(t) && hs.intrn.len + 255 < MaxLen && hs.inuse < U24
    modifies hs.Repr
    ensures st == Ok || st == OutOfBounds || st == Hangs
    ensures st == OutOfBounds <==> NameOf(intern, t).None?
    ensures st == Ok ==> hs.Valid() && (forall o :: o in hs.Repr ==> o in old(hs.Repr) || fresh(o))
    ensures st == Ok ==> Equal(hs.intrn.Contents, v, NameOf(intern, t).value)
    ensures st == Ok ==> IsPrefix(old(hs.intrn.Contents), hs.intrn.Contents) && hs.intrn.len <= old(hs.intrn.len) + 255
    ensures st == Ok ==> hs.inuse <= old(hs.inuse) + 1
  {
    var i := AsIntern(t);
    var n := i.len / U8;
    if i.idx + n > |intern| {
      return OutOfBounds, View(0, 0);
    }
    NoGrowAbort(hs.inuse, hs.encap);
    var r := hs.Insert(intern[i.idx..], n);
    assert intern[i.idx..][..n] == intern[i.idx .. i.idx + n];
    match r
    case Existing(w) =>
      st, v := Ok, w;
    case Inserted(w) =>
      st, v := Ok, w;
    case ProbeSpins =>
      st, v := Hangs, View(0, 0);
  }

  /** parse_type (src/parser.c:48-56), proved against `TypeSpec`. */
  method ParseType(p: ParseBuf, c: LexCursor, hs: HSet) returns (st: Status)
    requires Inv(p, c, hs)
    modifies p, c, hs.Repr
    ensures var S := TypeSpec(c.lr, old(c.at), old(Parsed(p, hs)));
      st != Hangs ==> st == S.st && (st == Ok ==> c.at == S.at && Parsed(p, hs) == S.bufs)
    ensures st == Ok ==> Inv(p, c, hs) && (forall o :: o in hs.Repr ==> o in old(hs.Repr) || fresh(o)) && IsPrefix(old(hs.intrn.Contents), hs.intrn.Contents)
  {
    var name;
    st, name := ExpectName(p, c, hs, TokTypeId);
    if st != Ok {
      return;
    }
    PushTypeNamed(p, c, hs, ParsedType(Named, name));
  }

  /** push_elem of a type onto `buf->types` (src/parser.c:55). */
  method PushTypeNamed(p: ParseBuf, c: LexCursor, hs: HSet, t: ParsedType<View>)
    requires Inv(p, c, hs) && Inside(hs.intrn.Contents, t.named)
    modifies p
    ensures Inv(p, c, hs) && p.types == old(p.types) + [t]
    ensures Parsed(p, hs) == old(Parsed(p, hs)).(types := old(Parsed(p, hs)).types + [NameType(hs.intrn.Contents, t)])
  {
    ghost var data, snap := hs.intrn.Contents, p.Snapshot();
    PushType(data, snap, t);
    p.types := p.types + [t];
    assert hs.intrn.Contents == data && p.Snapshot() == snap.(types := snap.types + [t]);
  }

  /** parse_expr (src/parser.c:92-103), proved against `ExprSpec`. */
  method ParseExpr(p: ParseBuf, c: LexCursor, hs: HSet) returns (st: Status)
    requires Inv(p, c, hs)
    modifies p, c
    ensures var S := ExprSpec(c.lr, old(c.at), old(Parsed(p, hs)));
      st == S.st && (st == Ok ==> Inv(p, c, hs) && c.at == S.at && Parsed(p, hs) == S.bufs)
  {
    var lit;
    st, lit := ExpectToken(p, c, hs, TokLitInt);
    if st != Ok {
      return;
    }
    if lit.aux >= |c.lr.lits| {
      return OutOfBounds;
    }
    p.exprs := p.exprs + [Expression(LitInt, c.lr.lits[lit.aux])];
  }

  /** parse_stmt (src/parser.c:105-128), proved against `StmtSpec`. */
  method ParseStmt(p: ParseBuf, c: LexCursor, hs: HSet) returns (st: Status)
    requires Inv(p, c, hs)
    modifies p, c
    ensures var S := StmtSpec(c.lr, old(c.at), old(Parsed(p, hs)));
      st == S.st && (st == Ok ==> Inv(p, c, hs) && c.at == S.at && Parsed(p, hs) == S.bufs)
  {
    if c.at + 1 > |c.lr.tokens| {
      return Fatal;
    }
    var start := c.lr.tokens[c.at];
    Advance(p, c, hs);
    if start.tag != TokKwRetrn {
      return Fatal;
    }
    st := ParseExpr(p, c, hs);
    if st != Ok {
      return;
    }
    var semi;
    st, semi := ExpectToken(p, c, hs, TokSemi);
  }

  /** One test and body of the loop of parse_block (src/parser.c:137-142): a `}` ends the block, anything else is a statement. */
  method BlockStep(p: ParseBuf, c: LexCursor, hs: HSet, end: int, len: nat) returns (st: Status, closed: bool)
    requires Inv(p, c, hs) && c.at < end
    modifies p, c
    ensures var S := BlockLoop(c.lr, old(c.at), end, old(Parsed(p, hs)), len);
      && (st != Ok ==> st == S.st)
      && (st == Ok ==> Inv(p, c, hs) && old(c.at) < c.at)
      && (st == Ok && closed ==> S == Outcome(Ok, c.at, Parsed(p, hs), len))
      && (st == Ok && !closed ==> BlockLoop(c.lr, c.at, end, Parsed(p, hs), len + 1) == S)
  {
    BlockLoopStep(c.lr, c.at, end, Parsed(p, hs), len);
    st, closed := OptMunchToken(p, c, hs, TokBraceC);
    if st != Ok || closed {
      return;
    }
    st := ParseStmt(p, c, hs);
  }

  /** parse_block (src/parser.c:130-145), proved against `BlockSpec`; `len` is the statement count. */
  method ParseBlock(p: ParseBuf, c: LexCursor, hs: HSet) returns (st: Status, len: nat)
    requires Inv(p, c, hs)
    modifies p, c
    ensures var S := BlockSpec(c.lr, old(c.at), old(Parsed(p, hs)));
      st == S.st && (st == Ok ==> Inv(p, c, hs) && c.at == S.at && Parsed(p, hs) == S.bufs && len == S.n)
  {
    var intro;
    st, intro := ExpectToken(p, c, hs, TokBraceO);
    if st != Ok {
      return st, 0;
    }
    var end := c.at + Signed24(intro.aux);
    len := 0;
    ghost var S := BlockLoop(c.lr, c.at, end, Parsed(p, hs), 0);
    assert S == BlockSpec(c.lr, old(c.at), old(Parsed(p, hs)));
    while c.at < end
      invariant Inv(p, c, hs)
      invariant BlockLoop(c.lr, c.at, end, Parsed(p, hs), len) == S
      decreases |c.lr.tokens| + 1 - c.at
    {
      var closed;
      st, closed := BlockStep(p, c, hs, end, len);
      if st != Ok || closed {
        return;
      }
      len := len + 1;
    }
    st := Ok;
  }

  /** expect_token for a VAL_ID or TYPE_ID followed by insert_intern of its name (src/parser.c:51-54, 75-76 and 151-152). */
  method ExpectName(p: ParseBuf, c: LexCursor, hs: HSet, tag: byte) returns (st: Status, name: View)
    requires Inv(p, c, hs)
    modifies c, hs.Repr
    ensures var N := NameSpec(c.lr, old(c.at), tag);
      && (st != Hangs ==> st == N.st)
      && (st == Ok ==> Inv(p, c, hs) && (forall o :: o in hs.Repr ==> o in old(hs.Repr) || fresh(o)) && IsPrefix(old(hs.intrn.Contents), hs.intrn.Contents))
      && (st == Ok ==> c.at == old(c.at) + 1 && Parsed(p, hs) == old(Parsed(p, hs)))
      && (st == Ok ==> Inside(hs.intrn.Contents, name) && Text(hs.intrn.Contents, name) == N.bytes)
  {
    name := View(0, 0);
    var tok;
    st, tok := ExpectToken(p, c, hs, tag);
    if st != Ok {
      return;
    }
    ghost var data0 := hs.intrn.Contents;
    st, name := InsertIntern(hs, c.lr.intern, tok);
    if st != Ok {
      return;
    }
    NamesGrow(data0, hs.intrn.Contents, p.Snapshot());
    TextEqual(hs.intrn.Contents, name, NameOf(c.lr.intern, tok).value);
  }

  /** The body of the loop of parse_explicit_args up to the type (src/parser.c:73-81), proved against `ArgSpec`. */
  method ParseArg(p: ParseBuf, c: LexCursor, hs: HSet) returns (st: Status, name: View, ty: nat)
    requires Inv(p, c, hs)
    modifies p, c, hs.Repr
    ensures var A := ArgSpec(c.lr, old(c.at), old(Parsed(p, hs)));
      && (st != Hangs ==> st == A.st)
      && (st == Ok ==> Inv(p, c, hs) && (forall o :: o in hs.Repr ==> o in old(hs.Repr) || fresh(o)) && IsPrefix(old(hs.intrn.Contents), hs.intrn.Contents))
      && (st == Ok ==> c.at == A.at && Inside(hs.intrn.Contents, name) &&
                       A.bufs == Parsed(p, hs).(eargs := Parsed(p, hs).eargs + [NameArg(hs.intrn.Contents, ExplicitArg(name, ty))]))
  {
    ty := 0;
    ghost var a0, b0 := c.at, Parsed(p, hs);
    st, name := ExpectName(p, c, hs, TokValId);
    if st != Ok {
      return;
    }
    ghost var data1 := hs.intrn.Contents;
    st, ty := ParseArgType(p, c, hs);
    if st != Ok {
      return;
    }
    ArgSpecOk(c.lr, a0, b0);
    TextGrow(data1, hs.intrn.Contents, name);
    PrefixTrans(old(hs.intrn.Contents), data1, hs.intrn.Contents);
  }

  /** The `:` and the type of one explicit argument (src/parser.c:78-81); `ty` is the index the type gets. */
  method ParseArgType(p: ParseBuf, c: LexCursor, hs: HSet) returns (st: Status, ty: nat)
    requires Inv(p, c, hs)
    modifies p, c, hs.Repr
    ensures var E := Expect(c.lr, old(c.at), TokColon); var T := TypeSpec(c.lr, old(c.at) + 1, old(Parsed(p, hs)));
      && (st != Hangs ==> st == if E != Ok then E else T.st)
      && (st == Ok ==> Inv(p, c, hs) && (forall o :: o in hs.Repr ==> o in old(hs.Repr) || fresh(o)) && IsPrefix(old(hs.intrn.Contents), hs.intrn.Contents))
      && (st == Ok ==> c.at == T.at && Parsed(p, hs) == T.bufs && ty == |old(Parsed(p, hs)).types|)
  {
    var colon;
    st, colon := ExpectToken(p, c, hs, TokColon);
    ty := |p.types|;
    if st != Ok {
      return;
    }
    st := ParseType(p, c, hs);
  }

  /** push_elem of an explicit argument onto `buf->eargs` (src/parser.c:84). */
  method PushEarg(p: ParseBuf, c: LexCursor, hs: HSet, a: ExplicitArg<View>)
    requires Inv(p, c, hs) && Inside(hs.intrn.Contents, a.name)
    modifies p
    ensures Inv(p, c, hs) && p.eargs == old(p.eargs) + [a]
    ensures Parsed(p, hs) == old(Parsed(p, hs)).(eargs := old(Parsed(p, hs)).eargs + [NameArg(hs.intrn.Contents, a)])
  {
    ghost var data, snap := hs.intrn.Contents, p.Snapshot();
    PushArg(data, snap, a);
    p.eargs := p.eargs + [a];
    assert hs.intrn.Contents == data && p.Snapshot() == snap.(eargs := snap.eargs + [a]);
  }

  /** The body of the loop of parse_explicit_args (src/parser.c:73-85), proved against `ArgItem`. */
  method ArgBody(p: ParseBuf, c: LexCursor, hs: HSet) returns (st: Status)
    requires Inv(p, c, hs)
    modifies p, c, hs.Repr
    ensures var I := ArgItem(c.lr, old(c.at), old(Parsed(p, hs)));
      && (st != Hangs ==> st == I.st)
      && (st == Ok ==> Inv(p, c, hs) && (forall o :: o in hs.Repr ==> o in old(hs.Repr) || fresh(o)) && IsPrefix(old(hs.intrn.Contents), hs.intrn.Contents))
      && (st == Ok ==> c.at == I.at && Parsed(p, hs) == I.bufs)
  {
    var name, ty;
    st, name, ty := ParseArg(p, c, hs);
    if st != Ok {
      return;
    }
    var comma;
    st, comma := OptMunchToken(p, c, hs, Comma);
    if st != Ok {
      return;
    }
    PushEarg(p, c, hs, ExplicitArg(name, ty));
  }

  /** One bump, test and body of the loop of parse_explicit_args (src/parser.c:71-86), proved against `ArgsLoop`. */
  method ArgsStep(p: ParseBuf, c: LexCursor, hs: HSet, end: int, len: nat) returns (st: Status, done: bool)
    requires Inv(p, c, hs) && c.at <= |c.lr.tokens|
    modifies p, c, hs.Repr
    ensures var S := ArgsLoop(c.lr, old(c.at), end, old(Parsed(p, hs)), len);
      && (st != Ok && st != Hangs ==> st == S.st)
      && (st == Ok ==> Inv(p, c, hs) && (forall o :: o in hs.Repr ==> o in old(hs.Repr) || fresh(o)) && IsPrefix(old(hs.intrn.Contents), hs.intrn.Contents))
      && (st == Ok && done ==> S == Outcome(Ok, c.at, Parsed(p, hs), len))
      && (st == Ok && !done ==> old(c.at) < c.at <= |c.lr.tokens| && ArgsLoop(c.lr, c.at, end, Parsed(p, hs), len + 1) == S)
  {
    ghost var at0, b0 := c.at, Parsed(p, hs);
    Advance(p, c, hs);
    if c.at >= end {
      ArgsLoopEnd(c.lr, at0, end, b0, len);
      return Ok, true;
    }
    done := false;
    st := ArgBody(p, c, hs);
    if st == Ok {
      ArgsLoopNext(c.lr, at0, end, b0, len, c.at, Parsed(p, hs));
    } else if st != Hangs {
      ArgsLoopFail(c.lr, at0, end, b0, len, st);
    }
  }

  /** parse_explicit_args (src/parser.c:64-90), proved against `ArgsSpec`; `len` is the argument count. */
  method ParseExplicitArgs(p: ParseBuf, c: LexCursor, hs: HSet) returns (st: Status, len: nat)
    requires Inv(p, c, hs)
    modifies p, c, hs.Repr
    ensures var S := ArgsSpec(c.lr, old(c.at), old(Parsed(p, hs)));
      st != Hangs ==> st == S.st && (st == Ok ==> c.at == S.at && Parsed(p, hs) == S.bufs && len == S.n)
    ensures st == Ok ==> Inv(p, c, hs) && (forall o :: o in hs.Repr ==> o in old(hs.Repr) || fresh(o)) && IsPrefix(old(hs.intrn.Contents), hs.intrn.Contents)
  {
    ghost var S := ArgsSpec(c.lr, c.at, Parsed(p, hs));
    var intro;
    st, intro := ExpectToken(p, c, hs, TokParenO);
    if st != Ok {
      return st, 0;
    }
    var end := c.at + Signed24(intro.aux);
    assert S == ArgsLoop(c.lr, c.at, end, Parsed(p, hs), 0);
    st, len := ArgsRun(p, c, hs, end);
  }

  /** The loop of parse_explicit_args (src/parser.c:71-87) up to `end`, proved against `ArgsLoop`. */
  method ArgsRun(p: ParseBuf, c: LexCursor, hs: HSet, end: int) returns (st: Status, len: nat)
    requires Inv(p, c, hs) && c.at <= |c.lr.tokens|
    modifies p, c, hs.Repr
    ensures var S := ArgsLoop(c.lr, old(c.at), end, old(Parsed(p, hs)), 0);
      st != Hangs ==> st == S.st && (st == Ok ==> c.at == S.at && Parsed(p, hs) == S.bufs && len == S.n)
    ensures st == Ok ==> Inv(p, c, hs) && (forall o :: o in hs.Repr ==> o in old(hs.Repr) || fresh(o)) && IsPrefix(old(hs.intrn.Contents), hs.intrn.Contents)
  {
    len := 0;
    ghost var S := ArgsLoop(c.lr, c.at, end, Parsed(p, hs), 0);
    while true
      invariant Inv(p, c, hs) && c.at <= |c.lr.tokens|
      invariant ArgsLoop(c.lr, c.at, end, Parsed(p, hs), len) == S
      invariant (forall o :: o in hs.Repr ==> o in old(hs.Repr) || fresh(o)) && IsPrefix(old(hs.intrn.Contents), hs.intrn.Contents)
      decreases |c.lr.tokens| - c.at
    {
      var done;
      st, done := ArgsStep(p, c, hs, end, len);
      if st != Ok || done {
        return;
      }
      len := len + 1;
    }
  }

  /** parse_implicit_args (src/parser.c:58-62): not written yet in the source; it always ends the process. */
  method ParseImplicitArgs() returns (st: Status)
    ensures st == Fatal
  {
    st := Fatal;
  }

  /** push_elem of a function definition onto `buf->funcs` (src/parser.c:181). */
  method PushFunc(p: ParseBuf, c: LexCursor, hs: HSet, f: FunctionDef<View>)
    requires Inv(p, c, hs) && Inside(hs.intrn.Contents, f.name)
    modifies p
    ensures Inv(p, c, hs) && p.funcs == old(p.funcs) + [f]
    ensures Parsed(p, hs) == old(Parsed(p, hs)).(funcs := old(Parsed(p, hs)).funcs + [NameFn(hs.intrn.Contents, f)])
  {
    ghost var data, snap := hs.intrn.Contents, p.Snapshot();
    PushFn(data, snap, f);
    p.funcs := p.funcs + [f];
    assert hs.intrn.Contents == data && p.Snapshot() == snap.(funcs := snap.funcs + [f]);
  }

  /** The argument lists of parse_fn (src/parser.c:154-165), proved against `ArgListSpec`. */
  method ParseArgLists(p: ParseBuf, c: LexCursor, hs: HSet) returns (st: Status, iaLen: nat)
    requires Inv(p, c, hs)
    modifies p, c, hs.Repr
    ensures var S := ArgListSpec(c.lr, old(c.at), old(Parsed(p, hs)));
      st != Hangs ==> st == S.st && (st == Ok ==> c.at == S.at && Parsed(p, hs) == S.bufs && iaLen == S.n)
    ensures st == Ok ==> Inv(p, c, hs) && (forall o :: o in hs.Repr ==> o in old(hs.Repr) || fresh(o)) && IsPrefix(old(hs.intrn.Contents), hs.intrn.Contents)
  {
    if c.at >= |c.lr.tokens| {
      return Fatal, 0;
    }
    if c.lr.tokens[c.at].tag == TokBrackO {
      st := ParseImplicitArgs();
      return st, 0;
    }
    st, iaLen := ParseExplicitArgs(p, c, hs);
  }

  /** The return type of parse_fn (src/parser.c:167-176), proved against `RetSpec`. */
  method ParseRet(p: ParseBuf, c: LexCursor, hs: HSet) returns (st: Status, ty: nat)
    requires Inv(p, c, hs)
    modifies p, c, hs.Repr
    ensures var S := RetSpec(c.lr, old(c.at), old(Parsed(p, hs)));
      st != Hangs ==> st == S.st && (st == Ok ==> c.at == S.at && Parsed(p, hs) == S.bufs && ty == S.n)
    ensures st == Ok ==> Inv(p, c, hs) && (forall o :: o in hs.Repr ==> o in old(hs.Repr) || fresh(o)) && IsPrefix(old(hs.intrn.Contents), hs.intrn.Contents)
  {
    ghost var S := RetSpec(c.lr, c.at, Parsed(p, hs));
    if c.at >= |c.lr.tokens| {
      return Fatal, 0;
    }
    var arrOrBl := c.lr.tokens[c.at];
    ghost var at0, b0 := c.at, Parsed(p, hs);
    Advance(p, c, hs);
    ty := 0;
    if arrOrBl.tag == TokKwArrow {
      ty := |p.types|;
      assert ty == |b0.types|;
      RetArrow(c.lr, at0, b0, ty);
      st := ParseType(p, c, hs);
      assert S.n == ty;
    } else {
      st := Ok;
    }
  }

  /** After `->` the return type is parsed and its index is the number of types before it. */
  lemma RetArrow(lr: LexRes, at: nat, b: Tree, ty: nat)
    requires LexOk(lr) && at < |lr.tokens| && lr.tokens[at].tag == TokKwArrow && ty == |b.types|
    ensures RetSpec(lr, at, b) == TypeSpec(lr, at + 1, b).(n := ty)
  {
  }

  /** The block of parse_fn and the push of the definition (src/parser.c:178-181), proved against `FnBody`. */
  method ParseFnBody(p: ParseBuf, c: LexCursor, hs: HSet, name: View, iaBeg: nat, iaLen: nat, ty: nat) returns (st: Status)
    requires Inv(p, c, hs) && Inside(hs.intrn.Contents, name)
    modifies p, c
    ensures var S := FnBody(c.lr, old(c.at), old(Parsed(p, hs)), Text(hs.intrn.Contents, name), iaBeg, iaLen, ty);
      st == S.st && (st == Ok ==> Inv(p, c, hs) && c.at == S.at && Parsed(p, hs) == S.bufs)
  {
    var blBeg := |p.stmts|;
    var blLen;
    st, blLen := ParseBlock(p, c, hs);
    if st != Ok {
      return;
    }
    PushFunc(p, c, hs, FunctionDef(name, iaBeg, iaLen, 0, 0, ty, blBeg, blLen));
  }

  /** The rest of parse_fn (src/parser.c:167-181), proved against `FnTail`. */
  method ParseFnTail(p: ParseBuf, c: LexCursor, hs: HSet, name: View, iaBeg: nat, iaLen: nat) returns (st: Status)
    requires Inv(p, c, hs) && Inside(hs.intrn.Contents, name)
    modifies p, c, hs.Repr
    ensures var S := FnTail(c.lr, old(c.at), old(Parsed(p, hs)), Text(old(hs.intrn.Contents), name), iaBeg, iaLen);
      st != Hangs ==> st == S.st && (st == Ok ==> c.at == S.at && Parsed(p, hs) == S.bufs)
    ensures st == Ok ==> Inv(p, c, hs) && (forall o :: o in hs.Repr ==> o in old(hs.Repr) || fresh(o)) && IsPrefix(old(hs.intrn.Contents), hs.intrn.Contents)
  {
    var ty;
    st, ty := ParseRet(p, c, hs);
    if st != Ok {
      return;
    }
    TextGrow(old(hs.intrn.Contents), hs.intrn.Contents, name);
    st := ParseFnBody(p, c, hs, name, iaBeg, iaLen, ty);
  }

  /** parse_fn after the name (src/parser.c:154-181), proved against `FnRest`. */
  method ParseFnRest(p: ParseBuf, c: LexCursor, hs: HSet, name: View) returns (st: Status)
    requires Inv(p, c, hs) && Inside(hs.intrn.Contents, name)
    modifies p, c, hs.Repr
    ensures var S := FnRest(c.lr, old(c.at), old(Parsed(p, hs)), Text(old(hs.intrn.Contents), name));
      st != Hangs ==> st == S.st && (st == Ok ==> c.at == S.at && Parsed(p, hs) == S.bufs)
    ensures st == Ok ==> Inv(p, c, hs) && (forall o :: o in hs.Repr ==> o in old(hs.Repr) || fresh(o)) && IsPrefix(old(hs.intrn.Contents), hs.intrn.Contents)
  {
    var iaBeg := |p.iargs|;
    var iaLen;
    st, iaLen := ParseArgLists(p, c, hs);
    if st != Ok {
      return;
    }
    ghost var data1 := hs.intrn.Contents;
    TextGrow(old(hs.intrn.Contents), data1, name);
    st := ParseFnTail(p, c, hs, name, iaBeg, iaLen);
    if st == Ok {
      PrefixTrans(old(hs.intrn.Contents), data1, hs.intrn.Contents);
    }
  }

  /** parse_fn (src/parser.c:147-182), from the token after `fn`, proved against `FnSpec`. */
  method ParseFn(p: ParseBuf, c: LexCursor, hs: HSet) returns (st: Status)
    requires Inv(p, c, hs)
    modifies p, c, hs.Repr
    ensures var S := FnSpec(c.lr, old(c.at), old(Parsed(p, hs)));
      st != Hangs ==> st == S.st && (st == Ok ==> c.at == S.at && Parsed(p, hs) == S.bufs)
    ensures st == Ok ==> Inv(p, c, hs) && (forall o :: o in hs.Repr ==> o in old(hs.Repr) || fresh(o)) && IsPrefix(old(hs.intrn.Contents), hs.intrn.Contents)
  {
    var name;
    st, name := ExpectName(p, c, hs, TokValId);
    if st != Ok {
      return;
    }
    ghost var data1 := hs.intrn.Contents;
    st := ParseFnRest(p, c, hs, name);
    if st == Ok {
      PrefixTrans(old(hs.intrn.Contents), data1, hs.intrn.Contents);
    }
  }

  /** One pass of the loop of parse (src/parser.c:199-207), proved against `ParseLoop`. */
  method ParseItem(p: ParseBuf, c: LexCursor, hs: HSet) returns (st: Status)
    requires Inv(p, c, hs) && c.at < |c.lr.tokens|
    modifies p, c, hs.Repr
    ensures var S := ParseLoop(c.lr, old(c.at), old(Parsed(p, hs)));
      && (st != Ok && st != Hangs ==> st == S.st)
      && (st == Ok ==> Inv(p, c, hs) && (forall o :: o in hs.Repr ==> o in old(hs.Repr) || fresh(o)) && old(c.at) < c.at)
      && (st == Ok ==> ParseLoop(c.lr, c.at, Parsed(p, hs)) == S)
  {
    ParseLoopStep(c.lr, c.at, Parsed(p, hs));
    var top := c.lr.tokens[c.at];
    Advance(p, c, hs);
    if top.tag != TokKwFn {
      return Fatal;
    }
    st := ParseFn(p, c, hs);
  }

  /** The loop of parse (src/parser.c:197-208), proved against `ParseLoop`. */
  method ParseItems(p: ParseBuf, c: LexCursor, hs: HSet) returns (st: Status)
    requires Inv(p, c, hs)
    modifies p, c, hs.Repr
    ensures var S := ParseLoop(c.lr, old(c.at), old(Parsed(p, hs)));
      st != Hangs ==> st == S.st && (st == Ok ==> Inv(p, c, hs) && Parsed(p, hs) == S.bufs)
  {
    ghost var S := ParseLoop(c.lr, c.at, Parsed(p, hs));
    st := Ok;
    while c.at < |c.lr.tokens|
      invariant Inv(p, c, hs)
      invariant st == Ok && ParseLoop(c.lr, c.at, Parsed(p, hs)) == S
      invariant (forall o :: o in hs.Repr ==> o in old(hs.Repr) || fresh(o))
      decreases |c.lr.tokens| - c.at
    {
      st := ParseItem(p, c, hs);
      if st != Ok {
        return;
      }
    }
  }

  /** The six arrays of parse (src/parser.c:186-193), each holding its zeroed sentinel element. */
  method NewParseBuf() returns (p: ParseBuf)
    ensures fresh(p) && p.Snapshot() == Sentinels(View(0, 0))
  {
    p := new ParseBuf();
    p.funcs := p.funcs + [FunctionDef(View(0, 0), 0, 0, 0, 0, 0, 0, 0)];
    p.iargs := p.iargs + [ImplicitArg];
    p.eargs := p.eargs + [ExplicitArg(View(0, 0), 0)];
    p.types := p.types + [ParsedType(NoType, View(0, 0))];
    p.stmts := p.stmts + [Statement];
    p.exprs := p.exprs + [Expression(NoExpr, 0)];
  }

  /**
   * parse (src/parser.c:184-211): the six arrays start with one zeroed
   * element each, then `fn` items are parsed until the tokens run out;
   * `names` is the string set's byte buffer the views point into.
   */
  method Parse(lr: LexRes) returns (st: Status, p: ParseBuf, names: seq<byte>)
    requires LexOk(lr)
    ensures var S := ParseSpec(lr);
      st != Hangs ==> st == S.st && (st == Ok ==> AllInside(names, p.Snapshot()) && Names(names, p.Snapshot()) == S.bufs)
  {
    p := NewParseBuf();
    var hs := new HSet();
    var c := new LexCursor(lr);
    assert Inv(p, c, hs) && Parsed(p, hs) == Sentinels([]);
    st := ParseItems(p, c, hs);
    names := [];
    if st == Ok {
      assert hs.intrn.Valid();
      names := hs.intrn.buffer[..hs.intrn.len];
    }
  }
}
