/**
 * The parser of the earlier revision (parser.c): a machine over a stack of
 * rule states. Each iteration pops the focus rule, matches the current
 * token against it, may push the rules that must follow, and then adjusts
 * the stack length by the focus rule's flags. Matched value identifiers
 * become nodes whose text is copied out of the lexer's intern buffer.
 *
 * A rule kind is a 32-bit word: a rule number in the low 16 bits and flag
 * bits 26-31. The loop never advances its token index (parser.c:158), so
 * every iteration looks at the first token again; `Parse` is proved to
 * halt within two iterations whenever there is a token at all.
 *
 * `err` is `Fatal`, `abort` and a failed `assert` are `Aborts`, and a read
 * outside the written storage is `Fault`. Raising `len` above the slots
 * ever written is judged a `Fault` at once: the loop always pops next, and
 * that pop would read a slot that holds no state.
 */
module RootParser {
  import opened Bits
  import opened CText
  import RootBuffer
  import RL = RootLexer

  /** Flag bits of a rule kind (parser.c:84-95). */
  const Nothing: nat := 0x8000_0000
  const Many: nat := 0x4000_0000
  const SequenceStart: nat := 0x2000_0000
  const SequenceEnd: nat := 0x1000_0000
  const Function: nat := 0x0800_0000
  const Misc: nat := 0x0400_0000

  /** Rule numbers, kept in the low 16 bits (parser.c:97-111). */
  const ArgBindListBegin: nat := 1
  const ArgBindListBody: nat := 2
  const ImplicitArgsBegin: nat := 4
  const RuleBlock: nat := 5
  const RuleArrow: nat := 6
  const RuleColon: nat := 7
  const RuleType: nat := 8
  const RuleValId: nat := 9

  /** The tag of `(` (lexer.h:24). */
  const ParenO: nat := 0x28

  // ---------------------------------------------------------------------
  // Bits of a rule kind

  /** Bit `k` of `x`, counted from the least significant one. */
  predicate Bit(x: nat, k: nat)
    decreases k
  {
    if k == 0 then x % 2 == 1 else Bit(x / 2, k - 1)
  }

  /** The flag bits as powers of two. */
  lemma FlagPowers()
    ensures Pow2(26) == Misc && Pow2(27) == Function && Pow2(28) == SequenceEnd
    ensures Pow2(29) == SequenceStart && Pow2(30) == Many && Pow2(31) == Nothing
  {
    Pow2Constants();
    assert Pow2(25) == 2 * Pow2(24);
    assert Pow2(26) == 2 * Pow2(25);
    assert Pow2(27) == 2 * Pow2(26);
    assert Pow2(28) == 2 * Pow2(27);
    assert Pow2(29) == 2 * Pow2(28);
    assert Pow2(30) == 2 * Pow2(29);
  }

  /** One step of the bitwise AND, also when the first operand is zero. */
  lemma AndStep(a: nat, b: nat)
    requires b > 0
    ensures BitAnd(a, b) == 2 * BitAnd(a / 2, b / 2) + (if a % 2 == 1 && b % 2 == 1 then 1 else 0)
  {
  }

  /** AND of a number with itself is the number. */
  lemma {:induction false} AndSelf(a: nat)
    ensures BitAnd(a, a) == a
    decreases a
  {
    if a > 0 {
      AndSelf(a / 2);
    }
  }

  /** A number below `2^k` has no bit `k`. */
  lemma {:induction false} AndBelowPow2(a: nat, k: nat)
    requires a < Pow2(k)
    ensures BitAnd(a, Pow2(k)) == 0
    decreases k
  {
    if k > 0 && a > 0 {
      AndBelowPow2(a / 2, k - 1);
    }
  }

  /** AND with a single bit keeps that bit or clears everything. */
  lemma {:induction false} AndPow2(a: nat, k: nat)
    ensures BitAnd(a, Pow2(k)) == if Bit(a, k) then Pow2(k) else 0
    decreases k
  {
    if a == 0 {
      ZeroBits(k);
    } else if k == 0 {
      AndStep(a, 1);
    } else {
      var p := Pow2(k - 1);
      assert Pow2(k) == 2 * p;
      AndStep(a, 2 * p);
      AndPow2(a / 2, k - 1);
    }
  }

  /** Dividing by `2p` is halving and then dividing by `p`. */
  lemma DivHalf(x: nat, p: nat)
    requires p > 0
    ensures x / (2 * p) == (x / 2) / p && x % (2 * p) == 2 * ((x / 2) % p) + x % 2
  {
    var q, r := (x / 2) / p, (x / 2) % p;
    assert x / 2 == q * p + r;
    assert x == q * (2 * p) + (2 * r + x % 2);
    DivModUnique(x, 2 * p, q, 2 * r + x % 2);
  }

  /** Bit `k` is the parity of `x / 2^k`. */
  lemma {:induction false} BitDiv(x: nat, k: nat)
    ensures Bit(x, k) == ((x / Pow2(k)) % 2 == 1)
    decreases k
  {
    if k > 0 {
      BitDiv(x / 2, k - 1);
      DivHalf(x, Pow2(k - 1));
    }
  }

  /** AND with `m - 1` for a power of two `m` is the remainder modulo `m`. */
  lemma {:induction false} MaskLow(a: nat, m: nat)
    requires IsPow2(m)
    ensures BitAnd(a, m - 1) == a % m
    decreases m
  {
    if m >= 2 && a > 0 {
      var h := m / 2;
      assert m == 2 * h;
      DivModUnique(m - 1, 2, h - 1, 1);
      AndStep(a, m - 1);
      MaskLow(a / 2, h);
      DivHalf(a, h);
    }
  }

  /** flags_present (parser.c:116-119). */
  predicate FlagsPresent(st: nat, flags: nat)
  {
    BitAnd(st, flags) == flags
  }

  /** `flags_present(st, f)` holds exactly when every bit of `f` is set in `st`. */
  lemma {:induction false} FlagsPresentBits(st: nat, f: nat)
    ensures FlagsPresent(st, f) ==> forall k: nat :: Bit(f, k) ==> Bit(st, k)
    ensures (forall k: nat :: Bit(f, k) ==> Bit(st, k)) ==> FlagsPresent(st, f)
    decreases f
  {
    if f == 0 {
      forall k: nat ensures !Bit(0, k) {
        ZeroBits(k);
      }
    } else {
      FlagsPresentBits(st / 2, f / 2);
      AndStep(st, f);
      if FlagsPresent(st, f) {
        forall k: nat | Bit(f, k) ensures Bit(st, k) {
        }
      } else if f % 2 == 1 && st % 2 == 0 {
        assert Bit(f, 0) && !Bit(st, 0);
        assert !(forall k: nat :: Bit(f, k) ==> Bit(st, k));

      } else {
        var k: nat :| Bit(f / 2, k) && !Bit(st / 2, k);
        assert Bit(f, k + 1) && !Bit(st, k + 1);
      }
    }
  }

  /** Zero has no bit set. */
  lemma {:induction false} ZeroBits(k: nat)
    ensures !Bit(0, k)
    decreases k
  {
    if k > 0 {
      ZeroBits(k - 1);
    }
  }

  /** extract_rule (parser.c:114): the rule number in the low 16 bits. */
  function ExtractRule(st: nat): nat
  {
    BitAnd(st, 0xFFFF)
  }

  /** The rule number is the kind modulo 2^16. */
  lemma ExtractRuleLow(st: nat)
    ensures ExtractRule(st) == st % U16
  {
    Pow2Constants();
    Pow2IsPow2(16);
    MaskLow(st, U16);
  }

  /** The flag bits 26-31 never reach the rule number: a rule below 2^16 reads back whatever flags are added. */
  lemma ExtractRuleDropsFlags(rule: nat, f: nat)
    requires rule < U16 && f < 64
    ensures ExtractRule(rule + Misc * f) == rule
  {
    ExtractRuleLow(rule + Misc * f);
    DivModUnique(rule + Misc * f, U16, 0x400 * f, rule);
  }

  // ---------------------------------------------------------------------
  // The VAL_ID match

  /**
   * The VAL_ID case as written (parser.c:173): the focus matches when its
   * rule number shares a bit with RULE_VAL_ID (9), so rules 1, 3, 5, 7 and
   * 8 match as well.
   */
  predicate ValIdMatchAsWritten(kind: nat)
  {
    BitAnd(ExtractRule(kind), RuleValId) != 0
  }

  /** The VAL_ID case as intended: the focus rule is RULE_VAL_ID, whatever its flags. */
  predicate ExpectsValId(kind: nat)
  {
    ExtractRule(kind) == RuleValId
  }

  /** Among the nine rules, the written test accepts every odd one and RULE_TYPE; the corrected one accepts RULE_VAL_ID only. */
  lemma ValIdOverreach()
    ensures forall rule: nat :: 1 <= rule <= 9 ==>
      (ValIdMatchAsWritten(rule) <==> rule % 2 == 1 || rule == RuleType)
    ensures forall rule: nat :: 1 <= rule <= 9 ==> (ExpectsValId(rule) <==> rule == RuleValId)
    ensures ValIdMatchAsWritten(RuleType + SequenceEnd + Many) && !ExpectsValId(RuleType + SequenceEnd + Many)
  {
    forall rule: nat | 1 <= rule <= 9
      ensures ValIdMatchAsWritten(rule) <==> rule % 2 == 1 || rule == RuleType
      ensures ExpectsValId(rule) <==> rule == RuleValId
    {
      ExtractRuleDropsFlags(rule, 0);
      AndNine(rule);
    }
    ExtractRuleDropsFlags(RuleType, 20);
    AndNine(RuleType);
  }

  /** `rule & 9` for the nine rule numbers. */
  lemma AndNine(rule: nat)
    requires 1 <= rule <= 9
    ensures BitAnd(rule, 9) != 0 <==> rule % 2 == 1 || rule == 8
  {
    if rule == 1 { assert BitAnd(1, 9) == 1; }
    else if rule == 2 { assert BitAnd(2, 9) == 0; }
    else if rule == 3 { assert BitAnd(3, 9) == 1; }
    else if rule == 4 { assert BitAnd(4, 9) == 0; }
    else if rule == 5 { assert BitAnd(5, 9) == 1; }
    else if rule == 6 { assert BitAnd(6, 9) == 0; }
    else if rule == 7 { assert BitAnd(7, 9) == 1; }
    else if rule == 8 { assert BitAnd(8, 9) == 8; }
    else { assert BitAnd(9, 9) == 9; }
  }

  /** The corrected test ignores the flags and only narrows the written one. */
  lemma ExpectsValIdExact(rule: nat, f: nat)
    requires rule < U16 && f < 64
    ensures ExpectsValId(rule + Misc * f) <==> rule == RuleValId
    ensures ExpectsValId(rule + Misc * f) ==> ValIdMatchAsWritten(rule + Misc * f)
  {
    ExtractRuleDropsFlags(rule, f);
    AndSelf(9);
  }

  // ---------------------------------------------------------------------
  // The state machine

  /** ParserState (parser.c:121-125): a rule kind and a 32-bit length used by sequences. */
  datatype ParserState = ParserState(kind: nat, data: nat)

  /** ParseNodeKind (parser.c:12-17). */
  datatype NodeKind = BindingName | BindingUse | Literal

  /**
   * ParseNode (parser.c:19-35) as `intern_lex_interned_into` fills it: the
   * text as an offset into the parser's intern buffer, its size, and the
   * kind. `pos` and `subtree_size` stay zero.
   */
  datatype ParseNode = ParseNode(text: nat, size: nat, kind: NodeKind)

  /** ParseStack (parser.c:127-131) as the slots written so far and the live length. */
  datatype Stack = Stack(slots: seq<ParserState>, len: nat)

  /** The live length never exceeds the written slots. */
  predicate Wf(s: Stack)
  {
    s.len <= |s.slots|
  }

  /** What `parse` holds between iterations: the stack, the node buffer and the intern buffer. */
  datatype Machine = Machine(stack: Stack, tree: seq<ParseNode>, intern: seq<byte>)

  datatype Halt = Aborts | Fatal | Fault
  datatype StepResult = Next(m: Machine) | Halted(h: Halt)
  /** The stack after the length adjustment at the end of an iteration, or the halt it causes. */
  datatype Settled = Resume(s: Stack) | Stop(h: Halt)

  /** push_state (parser.c:133-137): the state lands in slot `len`, overwriting a popped one. */
  function Push(s: Stack, e: ParserState): (r: Stack)
    requires Wf(s)
    ensures Wf(r) && r.len == s.len + 1 && r.slots[..r.len] == s.slots[..s.len] + [e]
    ensures |r.slots| == if s.len < |s.slots| then |s.slots| else s.len + 1
    ensures forall i :: r.len <= i < |r.slots| ==> r.slots[i] == s.slots[i]
  {
    Stack(if s.len < |s.slots| then s.slots[s.len := e] else s.slots + [e], s.len + 1)
  }

  /** Pushing states one after another: they become the top of the stack in order, and no slot above them changes. */
  function PushAll(s: Stack, es: seq<ParserState>): (r: Stack)
    requires Wf(s)
    ensures Wf(r) && r.len == s.len + |es| && r.slots[..r.len] == s.slots[..s.len] + es
    ensures |r.slots| == if s.len + |es| <= |s.slots| then |s.slots| else s.len + |es|
    ensures forall i :: r.len <= i < |r.slots| ==> r.slots[i] == s.slots[i]
    decreases |es|
  {
    if es == [] then s
    else
      var t := Push(s, es[0]);
      var r := PushAll(t, es[1..]);
      assert r.slots[..r.len] == s.slots[..s.len] + es by {
        assert t.slots[..t.len] + es[1..] == s.slots[..s.len] + es;
      }
      r
  }

  /**
   * The rules `fn` pushes (parser.c:225-236), bottom first: the block, an
   * optional return type, an optional arrow, the argument list, optional
   * implicit arguments and the function's name. They pop in reverse.
   */
  function FnRules(data: nat): seq<ParserState>
  {
    [ParserState(RuleBlock, data), ParserState(RuleType + Nothing, data), ParserState(RuleArrow + Nothing, data),
     ParserState(ArgBindListBegin, data), ParserState(ImplicitArgsBegin + Nothing, data), ParserState(Misc + RuleValId, data)]
  }

  /**
   * The rules `(` pushes over an argument list (parser.c:192-206), bottom
   * first: the list body, a repeating type that re-exposes three states, a
   * colon, and an optional binding name that starts a sequence of three.
   */
  function ArgRules(): seq<ParserState>
  {
    [ParserState(ArgBindListBody, 0), ParserState(RuleType + SequenceEnd + Many, 3),
     ParserState(RuleColon, 0), ParserState(RuleValId + SequenceStart + Nothing + Misc, 3)]
  }

  /** A direct store to `len`; a length above the written slots faults at the next pop. */
  function Expose(s: Stack, n: nat): (r: Settled)
    requires Wf(s)
    ensures r.Resume? ==> Wf(r.s) && r.s.slots == s.slots
  {
    if n <= |s.slots| then Resume(s.(len := n)) else Stop(Fault)
  }

  /**
   * The end of an iteration (parser.c:244-261) for the popped focus `cur`:
   * an unmatched optional rule is dropped, a SEQUENCE_START one also drops
   * `data - 1` states (32-bit arithmetic), an unmatched mandatory rule
   * aborts; a matched SEQUENCE_END|MANY rule raises `len` by `data` and a
   * matched MANY rule by one.
   */
  function Settle(s: Stack, cur: ParserState, matched: bool): (r: Settled)
    requires Wf(s)
    ensures r.Resume? ==> Wf(r.s) && r.s.slots == s.slots
  {
    if !matched then
      if BitAnd(cur.kind, Nothing) != 0 then
        if FlagsPresent(cur.kind, SequenceStart) then Expose(s, Wrap32(s.len - Wrap32(cur.data - 1)))
        else Resume(s)
      else Stop(Aborts)
    else if FlagsPresent(cur.kind, SequenceEnd + Many) then Expose(s, Wrap32(s.len + cur.data))
    else if FlagsPresent(cur.kind, Many) then Expose(s, Wrap32(s.len + 1))
    else Resume(s)
  }

  /** The KW_FN case (parser.c:213-238): under a FUNCTION focus the six rules are pushed with `data`. */
  function FnCase(s: Stack, cur: ParserState, data: nat): (r: Settled)
    requires Wf(s)
    ensures r.Resume? ==> Wf(r.s)
  {
    if BitAnd(cur.kind, Function) != 0 then Settle(PushAll(s, FnRules(data)), cur, true)
    else Settle(s, cur, false)
  }

  /**
   * The PAREN_O case (parser.c:185-212): the state under the focus is read;
   * on an empty stack that read is out of bounds. Over ARGBINDLIST_BEGIN it
   * is replaced by the argument rules and `data` becomes 3. Either way the
   * case falls through into KW_FN, whose test decides the match.
   */
  function ParenCase(s: Stack, cur: ParserState): (r: Settled)
    requires Wf(s)
    ensures r.Resume? ==> Wf(r.s)
  {
    if s.len == 0 then Stop(Fault)
    else if s.slots[s.len - 1].kind == ArgBindListBegin then
      FnCase(PushAll(s.(len := s.len - 1), ArgRules()), cur, 3)
    else FnCase(s, cur, 0)
  }

  /** The bytes a name record designates in the lexer's intern, or a read past its end. */
  datatype Name = Name(bytes: seq<byte>) | PastEnd

  /**
   * The copy of intern_lex_interned_into (parser.c:51-65): `intern.len >> 8`
   * bytes from `intern.idx`. The record is the token's word, `len` in the
   * low 16 bits (whose low byte holds the tag) and `idx` in the high 16.
   */
  function CopyName(lexIntern: seq<byte>, word: nat): (r: Name)
    ensures r.Name? ==> |r.bytes| < U8
  {
    var n := (word % U16) / U8;
    var idx := (word / U16) % U16;
    if idx + n <= |lexIntern| then Name(lexIntern[idx..idx + n]) else PastEnd
  }

  /** `current.kind & MISC ? BINDING_NAME : BINDING_USE` (parser.c:178). */
  function NodeKindOf(kind: nat): NodeKind
  {
    if BitAnd(kind, Misc) != 0 then BindingName else BindingUse
  }

  /** The VAL_ID case (parser.c:171-184), with the corrected match. */
  function ValIdCase(m: Machine, cur: ParserState, word: nat, lexIntern: seq<byte>): (r: StepResult)
    requires Wf(m.stack)
    ensures r.Next? ==> Wf(r.m.stack)
  {
    if !ExpectsValId(cur.kind) then Lift(m, Settle(m.stack, cur, false))
    else match CopyName(lexIntern, word)
      case PastEnd => Halted(Fault)
      case Name(bytes) =>
        var node := ParseNode(|m.intern|, |bytes|, NodeKindOf(cur.kind));
        Lift(m.(tree := m.tree + [node], intern := m.intern + bytes), Settle(m.stack, cur, true))
  }

  function Lift(m: Machine, r: Settled): StepResult
  {
    match r
    case Resume(s) => Next(m.(stack := s))
    case Stop(h) => Halted(h)
  }

  /**
   * One iteration of `parse` (parser.c:158-262) on the token `tok`: the
   * focus is popped (`pop_elem` asserts a non-empty stack) and the low
   * byte of the token's word selects the case; any other tag is fatal.
   */
  function Step(m: Machine, tok: RL.Token, lexIntern: seq<byte>): (r: StepResult)
    requires Wf(m.stack)
    ensures r.Next? ==> Wf(r.m.stack)
  {
    if m.stack.len == 0 then Halted(Aborts)
    else
      var cur := m.stack.slots[m.stack.len - 1];
      var m' := m.(stack := m.stack.(len := m.stack.len - 1));
      var tag := tok.word % U8;
      if tag == RL.ValId then ValIdCase(m', cur, tok.word, lexIntern)
      else if tag == ParenO then Lift(m', ParenCase(m'.stack, cur))
      else if tag == RL.KwFn then Lift(m', FnCase(m'.stack, cur, 0))
      else Halted(Fatal)
  }

  datatype Outcome = Stopped(h: Halt) | Running(m: Machine)

  /** `fuel` iterations of the loop on the same token, or the halt that ends it first. */
  function Run(m: Machine, tok: RL.Token, lexIntern: seq<byte>, fuel: nat): (r: Outcome)
    requires Wf(m.stack)
    ensures r.Running? ==> Wf(r.m.stack)
    decreases fuel
  {
    if fuel == 0 then Running(m)
    else match Step(m, tok, lexIntern)
      case Halted(h) => Stopped(h)
      case Next(m') => Run(m', tok, lexIntern, fuel - 1)
  }

  // ---------------------------------------------------------------------
  // What one iteration does

  /**
   * `fn` under a FUNCTION focus that is not MANY replaces the focus with the
   * six rules, so the next pops see the name, the implicit arguments, the
   * argument list, the arrow, the return type and the block, in that order.
   */
  lemma FnPushesSix(m: Machine, tok: RL.Token, lexIntern: seq<byte>)
    requires Wf(m.stack) && m.stack.len > 0 && tok.word % U8 == RL.KwFn
    requires var cur := m.stack.slots[m.stack.len - 1];
      BitAnd(cur.kind, Function) != 0 && !FlagsPresent(cur.kind, Many)
    ensures var r := Step(m, tok, lexIntern);
      r.Next? && r.m.tree == m.tree && r.m.intern == m.intern &&
      r.m.stack.slots[..r.m.stack.len] == m.stack.slots[..m.stack.len - 1] + FnRules(0)
    ensures var t := Step(m, tok, lexIntern).m.stack;
      t.slots[t.len - 1].kind == Misc + RuleValId && t.slots[t.len - 2].kind == ImplicitArgsBegin + Nothing &&
      t.slots[t.len - 3].kind == ArgBindListBegin && t.slots[t.len - 4].kind == RuleArrow + Nothing &&
      t.slots[t.len - 5].kind == RuleType + Nothing && t.slots[t.len - 6].kind == RuleBlock
  {
    var cur := m.stack.slots[m.stack.len - 1];
    ManyImplied(cur.kind);
    var t := Step(m, tok, lexIntern).m.stack;
    assert t.slots[..t.len][t.len - 6..] == FnRules(0);
  }

  /** SEQUENCE_END|MANY contains MANY. */
  lemma ManyImplied(kind: nat)
    ensures FlagsPresent(kind, SequenceEnd + Many) ==> FlagsPresent(kind, Many)
  {
    FlagPowers();
    FlagsPresentBits(kind, SequenceEnd + Many);
    AndPow2(kind, 30);
    BitDiv(SequenceEnd + Many, 30);
  }

  /**
   * A matched VAL_ID under a focus that is not MANY emits one node: its
   * text starts at the parser's intern length, it holds the copied name,
   * and it is a BINDING_NAME exactly when the focus carries MISC.
   */
  lemma ValIdEmitsNode(m: Machine, tok: RL.Token, lexIntern: seq<byte>)
    requires Wf(m.stack) && m.stack.len > 0 && tok.word % U8 == RL.ValId
    requires var cur := m.stack.slots[m.stack.len - 1];
      ExpectsValId(cur.kind) && !FlagsPresent(cur.kind, Many) && CopyName(lexIntern, tok.word).Name?
    ensures var cur := m.stack.slots[m.stack.len - 1];
      var bytes := CopyName(lexIntern, tok.word).bytes;
      var r := Step(m, tok, lexIntern);
      r.Next? && r.m.stack == m.stack.(len := m.stack.len - 1) && r.m.intern == m.intern + bytes &&
      |r.m.tree| == |m.tree| + 1 && r.m.tree[..|m.tree|] == m.tree &&
      r.m.tree[|m.tree|].text == |m.intern| && r.m.tree[|m.tree|].size == |bytes| &&
      (r.m.tree[|m.tree|].kind == BindingName <==> BitAnd(cur.kind, Misc) != 0)
  {
    var cur := m.stack.slots[m.stack.len - 1];
    ManyImplied(cur.kind);
    var r := Step(m, tok, lexIntern);
    assert r.m.tree[..|m.tree|] == m.tree;
  }

  /**
   * An unmatched optional rule consumes nothing: without SEQUENCE_START the
   * machine goes on from the popped stack; with it, `data - 1` further
   * states are dropped, and a `data` of 0 wraps round to re-expose one.
   */
  lemma NothingSkips(s: Stack, cur: ParserState)
    requires Wf(s) && |s.slots| < RootBuffer.MaxLen && BitAnd(cur.kind, Nothing) != 0
    ensures !FlagsPresent(cur.kind, SequenceStart) ==> Settle(s, cur, false) == Resume(s)
    ensures FlagsPresent(cur.kind, SequenceStart) && 1 <= cur.data <= s.len + 1 ==>
      Settle(s, cur, false) == Resume(s.(len := s.len - (cur.data - 1))) &&
      s.slots[..s.len - (cur.data - 1)] == s.slots[..s.len][..s.len - (cur.data - 1)]
    ensures FlagsPresent(cur.kind, SequenceStart) && cur.data == 0 ==>
      Settle(s, cur, false) == Expose(s, s.len + 1)
  {
    if FlagsPresent(cur.kind, SequenceStart) {
      if cur.data == 0 {
        DivModUnique(-1, U32, -1, U32 - 1);
        DivModUnique(s.len - (U32 - 1), U32, -1, s.len + 1);
        assert Wrap32(s.len - Wrap32(cur.data - 1)) == s.len + 1;
      } else if cur.data <= s.len + 1 {
        var k := s.len - (cur.data - 1);
        DivModUnique(cur.data - 1, U32, 0, cur.data - 1);
        DivModUnique(k, U32, 0, k);
        assert Wrap32(s.len - Wrap32(cur.data - 1)) == k;
        assert s.slots[..k] == s.slots[..s.len][..k];
      }
    }
  }

  /** An unmatched mandatory rule aborts, and so does popping an empty stack. */
  lemma MandatoryAborts(m: Machine, s: Stack, cur: ParserState, tok: RL.Token, lexIntern: seq<byte>)
    requires Wf(s) && Wf(m.stack)
    ensures BitAnd(cur.kind, Nothing) == 0 ==> Settle(s, cur, false) == Stop(Aborts)
    ensures m.stack.len == 0 ==> Step(m, tok, lexIntern) == Halted(Aborts)
  {
  }

  /** A token whose tag is none of VAL_ID, `(` and `fn` ends the parse with `err`. */
  lemma UnknownTagFatal(m: Machine, tok: RL.Token, lexIntern: seq<byte>)
    requires Wf(m.stack) && m.stack.len > 0
    requires tok.word % U8 !in {RL.ValId, ParenO, RL.KwFn}
    ensures Step(m, tok, lexIntern) == Halted(Fatal)
  {
  }

  /**
   * A matched MANY rule re-exposes itself: the slot just above the live
   * stack still holds the popped focus. A matched SEQUENCE_END|MANY rule
   * re-exposes the `data` states above the live stack, itself first.
   */
  lemma ManyReexposes(s: Stack, cur: ParserState)
    requires Wf(s) && |s.slots| < U32
    ensures FlagsPresent(cur.kind, SequenceEnd + Many) && s.len + cur.data <= |s.slots| ==>
      Settle(s, cur, true) == Resume(s.(len := s.len + cur.data)) &&
      s.slots[..s.len + cur.data] == s.slots[..s.len] + s.slots[s.len..s.len + cur.data]
    ensures !FlagsPresent(cur.kind, SequenceEnd + Many) && FlagsPresent(cur.kind, Many) && s.len < |s.slots| ==>
      Settle(s, cur, true) == Resume(s.(len := s.len + 1)) &&
      s.slots[..s.len + 1] == s.slots[..s.len] + [s.slots[s.len]]
    ensures !FlagsPresent(cur.kind, Many) ==> Settle(s, cur, true) == Resume(s)
  {
    ManyImplied(cur.kind);
    if FlagsPresent(cur.kind, SequenceEnd + Many) && s.len + cur.data <= |s.slots| {
      assert s.slots[..s.len + cur.data] == s.slots[..s.len] + s.slots[s.len..s.len + cur.data];
    }
    if s.len < |s.slots| {
      assert s.slots[..s.len + 1] == s.slots[..s.len] + [s.slots[s.len]];
    }
  }

  /**
   * `(` over ARGBINDLIST_BEGIN falls through into the KW_FN case: the
   * argument rules replace the list start, and if the focus has FUNCTION
   * (and is not MANY) the six function rules follow with `data` 3. If it
   * has not, the four pushes stay even though nothing matched.
   */
  lemma ParenFallsThrough(m: Machine, tok: RL.Token, lexIntern: seq<byte>)
    requires Wf(m.stack) && m.stack.len >= 2 && tok.word % U8 == ParenO
    requires m.stack.slots[m.stack.len - 2].kind == ArgBindListBegin
    ensures var cur := m.stack.slots[m.stack.len - 1];
      var r := Step(m, tok, lexIntern);
      BitAnd(cur.kind, Function) != 0 && !FlagsPresent(cur.kind, Many) ==>
        r.Next? && r.m.stack.slots[..r.m.stack.len] == m.stack.slots[..m.stack.len - 2] + ArgRules() + FnRules(3)
    ensures var cur := m.stack.slots[m.stack.len - 1];
      var r := Step(m, tok, lexIntern);
      BitAnd(cur.kind, Function) == 0 && BitAnd(cur.kind, Nothing) != 0 && !FlagsPresent(cur.kind, SequenceStart) ==>
        r.Next? && r.m.stack.slots[..r.m.stack.len] == m.stack.slots[..m.stack.len - 2] + ArgRules()
    ensures var cur := m.stack.slots[m.stack.len - 1];
      BitAnd(cur.kind, Function) == 0 && BitAnd(cur.kind, Nothing) == 0 ==> Step(m, tok, lexIntern) == Halted(Aborts)
  {
    var cur := m.stack.slots[m.stack.len - 1];
    ManyImplied(cur.kind);
    var s := m.stack.(len := m.stack.len - 2);
    var a := PushAll(s, ArgRules());
    assert s.slots[..s.len] == m.stack.slots[..m.stack.len - 2];
    if BitAnd(cur.kind, Function) != 0 {
      var b := PushAll(a, FnRules(3));
      assert b.slots[..b.len] == m.stack.slots[..m.stack.len - 2] + ArgRules() + FnRules(3);
    }
  }

  // ---------------------------------------------------------------------
  // The names

  /**
   * A name interned by the lexer reads back in the parser: for a run `w`
   * interned at `|intern| < 2^16` and tagged VAL_ID, the parser copies the
   * first `|w| mod 256` bytes of `w`, which is all of `w` when it is
   * shorter than 256 bytes.
   */
  lemma NameRoundTrip(intern: seq<byte>, cap: nat, w: seq<byte>, lexIntern: seq<byte>)
    requires |intern| + RL.MaxInternLen <= RootBuffer.MaxLen && |intern| <= cap && |intern| < U16
    requires RL.InternView(intern, cap, w).Interned?
    requires var b := RL.InternView(intern, cap, w).bytes; |b| <= |lexIntern| && lexIntern[..|b|] == b
    ensures var i := RL.InternView(intern, cap, w).rec;
      CopyName(lexIntern, BitOr(RL.InternWord(i), RL.ValId)) == Name(LengthPrefix(w))
    ensures var i := RL.InternView(intern, cap, w).rec;
      |w| <= RL.MaxInternLen ==> CopyName(lexIntern, BitOr(RL.InternWord(i), RL.ValId)) == Name(w)
  {
    if |w| <= RL.MaxInternLen {
      ShortNameRoundTrip(intern, cap, w, lexIntern);
    } else {
      LongNameRoundTrip(intern, cap, w, lexIntern);
    }
  }

  /** A run of at most 255 bytes reads back whole. */
  lemma ShortNameRoundTrip(intern: seq<byte>, cap: nat, w: seq<byte>, lexIntern: seq<byte>)
    requires |intern| + RL.MaxInternLen <= RootBuffer.MaxLen && |intern| <= cap && |intern| < U16
    requires |w| <= RL.MaxInternLen && RL.InternView(intern, cap, w).Interned?
    requires var b := RL.InternView(intern, cap, w).bytes; |b| <= |lexIntern| && lexIntern[..|b|] == b
    ensures var i := RL.InternView(intern, cap, w).rec;
      CopyName(lexIntern, BitOr(RL.InternWord(i), RL.ValId)) == Name(w) && LengthPrefix(w) == w
  {
    RL.InternViewFacts(intern, cap, w);
    var r := RL.InternView(intern, cap, w);
    DivModUnique(|w|, U8, 0, |w|);
    ReadBack(lexIntern, intern, w, r.rec, |w|);
    assert w[..|w|] == w;
  }

  /** A longer run was cut to 255 bytes; it reads back as the first `|w| mod 256` of them. */
  lemma LongNameRoundTrip(intern: seq<byte>, cap: nat, w: seq<byte>, lexIntern: seq<byte>)
    requires |intern| + RL.MaxInternLen <= RootBuffer.MaxLen && |intern| <= cap && |intern| < U16
    requires |w| > RL.MaxInternLen && RL.InternView(intern, cap, w).Interned?
    requires var b := RL.InternView(intern, cap, w).bytes; |b| <= |lexIntern| && lexIntern[..|b|] == b
    ensures var i := RL.InternView(intern, cap, w).rec;
      CopyName(lexIntern, BitOr(RL.InternWord(i), RL.ValId)) == Name(LengthPrefix(w))
  {
    RL.InternViewFacts(intern, cap, w);
    var r := RL.InternView(intern, cap, w);
    ReadBack(lexIntern, intern, w[..RL.MaxInternLen], r.rec, |w|);
    assert w[..RL.MaxInternLen][..|w| % U8] == LengthPrefix(w);
  }

  /** The bytes a record's 8-bit length field keeps of a run: the first `|w| mod 256`. */
  function LengthPrefix(w: seq<byte>): (p: seq<byte>)
    ensures |p| == |w| % U8 && p == w[..|p|]
    ensures |w| < U8 ==> p == w
  {
    w[..|w| % U8]
  }

  /** A record interned right after `intern`, holding `v`, reads back as the first `len / 256` bytes of `v`. */
  lemma ReadBack(lexIntern: seq<byte>, intern: seq<byte>, v: seq<byte>, i: RL.Intern, n: nat)
    requires |intern| + |v| <= |lexIntern| && lexIntern[..|intern| + |v|] == intern + v
    requires i.len == Wrap16(Wrap32(n * U8)) && i.idx == |intern| < U16 && i.len / U8 <= |v|
    ensures CopyName(lexIntern, BitOr(RL.InternWord(i), RL.ValId)) == Name(v[..i.len / U8])
  {
    TaggedFields(i, n);
    PrefixSlice(lexIntern, intern, v, i.len / U8);
  }

  /** The fields `intern_lex_interned_into` reads back from a tagged record word. */
  lemma TaggedFields(i: RL.Intern, n: nat)
    requires i.len == Wrap16(Wrap32(n * U8)) && i.idx < U16
    ensures var word := BitOr(RL.InternWord(i), RL.ValId);
      (word % U16) / U8 == i.len / U8 && (word / U16) % U16 == i.idx
  {
    RL.TaggedIntern(i, n, RL.ValId);
    var word := RL.InternWord(i) + RL.ValId;
    assert i.len % U8 == 0 by {
      RL.ShiftedLenLowByte(n);
    }
    DivModUnique(word, U16, i.idx, i.len + RL.ValId);
    DivModUnique(i.len + RL.ValId, U8, i.len / U8, RL.ValId);
  }

  /** A storage whose prefix is `intern + v` holds every prefix of `v` right after `intern`. */
  lemma PrefixSlice(lexIntern: seq<byte>, intern: seq<byte>, v: seq<byte>, m: nat)
    requires |intern| + |v| <= |lexIntern| && lexIntern[..|intern| + |v|] == intern + v
    requires m <= |v|
    ensures lexIntern[|intern|..|intern| + m] == v[..m]
  {
    var pre := lexIntern[..|intern| + |v|];
    var seg := lexIntern[|intern|..|intern| + m];
    forall k | 0 <= k < m
      ensures seg[k] == v[k]
    {
      assert seg[k] == pre[|intern| + k];
    }
  }

  // ---------------------------------------------------------------------
  // The whole parse

  /** The machine after the first `push_state` of `parse` (parser.c:156). */
  function Initial(): Machine
  {
    Machine(Stack([ParserState(Function, 0)], 1), [], [])
  }

  /** The machine after `fn` under the initial focus: the six rules over the popped slot. */
  function AfterFn(): Machine
  {
    Machine(Stack(FnRules(0), 6), [], [])
  }

  /**
   * The first iteration decides by the first token's tag: VAL_ID aborts
   * (the FUNCTION focus has rule 0), `(` reads below an empty stack, `fn`
   * pushes the six rules, anything else is fatal.
   */
  lemma FirstStep(tok: RL.Token, lexIntern: seq<byte>)
    ensures var tag := tok.word % U8;
      Step(Initial(), tok, lexIntern) ==
        if tag == RL.ValId then Halted(Aborts)
        else if tag == ParenO then Halted(Fault)
        else if tag == RL.KwFn then Next(AfterFn())
        else Halted(Fatal)
    ensures !ValIdMatchAsWritten(Function)
  {
    var top := ParserState(Function, 0);
    var empty := Stack([top], 0);
    FunctionFlags();
    var tag := tok.word % U8;
    if tag == RL.ValId {
      assert ValIdCase(Initial().(stack := empty), top, tok.word, lexIntern) == Halted(Aborts);
    } else if tag == RL.KwFn {
      FnUnderFunction();
    }
  }

  /** The FUNCTION flag alone: no rule in its low half, NOTHING clear, FUNCTION set. */
  lemma FunctionFlags()
    ensures ExtractRule(Function) == 0 && !ExpectsValId(Function) && !ValIdMatchAsWritten(Function)
    ensures BitAnd(Function, Nothing) == 0 && BitAnd(Function, Function) != 0
  {
    FunctionRule();
    FunctionBits();
  }

  lemma FunctionRule()
    ensures ExtractRule(Function) == 0
  {
    ExtractRuleDropsFlags(0, 2);
  }

  lemma FunctionBits()
    ensures BitAnd(Function, Nothing) == 0 && BitAnd(Function, Function) == Function
  {
    FlagPowers();
    AndBelowPow2(Function, 31);
    AndSelf(Function);
  }

  /** `fn` under the initial focus pushes the six rules over the popped slot and settles on them. */
  lemma FnUnderFunction()
    ensures FnCase(Stack([ParserState(Function, 0)], 0), ParserState(Function, 0), 0) == Resume(Stack(FnRules(0), 6))
  {
    FunctionFlags();
    FunctionNoMany();
    SixOverOne();
  }

  /** FUNCTION carries neither MANY nor SEQUENCE_END: a match on it settles without re-exposing. */
  lemma FunctionNoMany()
    ensures !FlagsPresent(Function, SequenceEnd + Many) && !FlagsPresent(Function, Many)
  {
    assert BitAnd(Function, SequenceEnd + Many) <= Function < SequenceEnd + Many;
    assert BitAnd(Function, Many) <= Function < Many;
  }

  /** Pushing the six rules over a popped single slot leaves exactly those six. */
  lemma SixOverOne()
    ensures PushAll(Stack([ParserState(Function, 0)], 0), FnRules(0)) == Stack(FnRules(0), 6)
  {
    var t := PushAll(Stack([ParserState(Function, 0)], 0), FnRules(0));
    assert t.slots == t.slots[..t.len];
  }

  /** The second iteration sees `fn` again under the name rule, which has neither FUNCTION nor NOTHING: abort. */
  lemma SecondStep(tok: RL.Token, lexIntern: seq<byte>)
    requires tok.word % U8 == RL.KwFn
    ensures Step(AfterFn(), tok, lexIntern) == Halted(Aborts)
  {
    FlagPowers();
    AndBelowPow2(Misc + RuleValId, 27);
    AndBelowPow2(Misc + RuleValId, 31);
  }

  /**
   * Because the token index never advances, a parse with at least one
   * token halts within two iterations: `(` faults, VAL_ID and `fn` abort,
   * and every other tag is fatal. It never returns a tree.
   */
  lemma ParseHalts(tok: RL.Token, lexIntern: seq<byte>)
    ensures var tag := tok.word % U8;
      Run(Initial(), tok, lexIntern, 2) ==
        Stopped(if tag == ParenO then Fault else if tag == RL.ValId || tag == RL.KwFn then Aborts else Fatal)
  {
    FirstStep(tok, lexIntern);
    if tok.word % U8 == RL.KwFn {
      SecondStep(tok, lexIntern);
    }
  }

  // ---------------------------------------------------------------------
  // The imperative parser

  datatype Status = Proceed | Halting(h: Halt)

  function Reported(st: Status, m: Machine): StepResult
  {
    if st.Proceed? then Next(m) else Halted(st.h)
  }

  function SettledOf(st: Status, s: Stack): Settled
  {
    if st.Proceed? then Resume(s) else Stop(st.h)
  }

  ghost function Stk(stack: RootBuffer.DynBuf<ParserState>): Stack
    reads stack
  {
    Stack(stack.Slots, stack.len)
  }

  ghost function Snap(stack: RootBuffer.DynBuf<ParserState>, tree: RootBuffer.DynBuf<ParseNode>, intern: RootBuffer.DynBuf<byte>): Machine
    reads stack, tree, intern
  {
    Machine(Stk(stack), tree.Contents, intern.Contents)
  }

  /** The three buffers are valid and share no storage. */
  ghost predicate Apart(stack: RootBuffer.DynBuf<ParserState>, tree: RootBuffer.DynBuf<ParseNode>, intern: RootBuffer.DynBuf<byte>)
    reads stack, stack.Repr, tree, tree.Repr, intern, intern.Repr
  {
    stack.Valid() && tree.Valid() && intern.Valid() &&
    stack.Repr !! tree.Repr && stack.Repr !! intern.Repr && tree.Repr !! intern.Repr
  }

  /** Room for one iteration's pushes and copy below the 2^31 limit of `next_pow2`. */
  ghost predicate Room(stack: RootBuffer.DynBuf<ParserState>, tree: RootBuffer.DynBuf<ParseNode>, intern: RootBuffer.DynBuf<byte>)
    reads stack, tree, intern
  {
    |stack.Slots| + 10 <= RootBuffer.MaxLen && tree.len < RootBuffer.MaxLen && intern.len + 0xFF <= RootBuffer.MaxLen
  }

  /** cur_state (parser.c:146-149): the top state, or an out-of-bounds read on an empty stack. */
  method CurState(stack: RootBuffer.DynBuf<ParserState>) returns (present: bool, s: ParserState)
    requires stack.Valid()
    ensures present == (stack.len > 0) && (present ==> s == stack.Contents[stack.len - 1])
  {
    present := stack.len > 0;
    s := if present then stack.buffer[stack.len - 1] else ParserState(0, 0);
  }

  /**
   * intern_lex_interned_into (parser.c:51-65): the node's text starts at the
   * old intern length, `intern.len >> 8` bytes are reserved (growing the
   * buffer if needed) and copied from `intern.idx` of the lexer's intern;
   * `ok` is false when that copy reads past the lexer's intern.
   */
  method InternLexInternedInto(buf: RootBuffer.DynBuf<byte>, lexIntern: seq<byte>, word: nat)
    returns (text: nat, size: nat, ok: bool)
    requires buf.Valid() && buf.len + 0xFF <= RootBuffer.MaxLen
    modifies buf.Repr
    ensures text == old(buf.len) && ok == CopyName(lexIntern, word).Name?
    ensures ok ==> size == |CopyName(lexIntern, word).bytes|
    ensures ok ==> buf.Valid() && fresh(buf.Repr - old(buf.Repr)) && buf.Contents == old(buf.Contents) + CopyName(lexIntern, word).bytes
  {
    text := buf.len;
    size := (word % U16) / U8;
    var idx := (word / U16) % U16;
    RL.ReserveIntern(buf, size);
    ok := idx + size <= |lexIntern|;
    if ok {
      var w := lexIntern[idx..idx + size];
      RL.StoreWord(buf, w, text, size);
      assert w[..size] == w;
    }
  }

  /** The end of an iteration (parser.c:244-261) on the live stack; `written` counts the slots ever written. */
  method Finish(stack: RootBuffer.DynBuf<ParserState>, current: ParserState, matched: bool, written: nat) returns (st: Status)
    requires stack.Valid() && written == |stack.Slots|
    modifies stack
    ensures stack.Valid() && stack.Repr == old(stack.Repr) && stack.Slots == old(stack.Slots)
    ensures SettledOf(st, Stk(stack)) == Settle(old(Stk(stack)), current, matched)
  {
    ghost var s0 := Stk(stack);
    ghost var S := Settle(s0, current, matched);
    var n := stack.len;
    if !matched {
      if BitAnd(current.kind, Nothing) == 0 {
        assert S == Stop(Aborts);
        return Halting(Aborts);
      }
      if !FlagsPresent(current.kind, SequenceStart) {
        assert S == Resume(s0);
        return Proceed;
      }
      n := Wrap32(stack.len - Wrap32(current.data - 1));
      assert S == Expose(s0, n);
    } else if FlagsPresent(current.kind, SequenceEnd + Many) {
      n := Wrap32(stack.len + current.data);
      assert S == Expose(s0, n);
    } else if FlagsPresent(current.kind, Many) {
      n := Wrap32(stack.len + 1);
      assert S == Expose(s0, n);
    } else {
      assert S == Resume(s0) == Expose(s0, n);
    }
    if n > written {
      return Halting(Fault);
    }
    stack.SetLen(n);
    st := Proceed;
  }

  /** `push_state` (parser.c:133-137): one state on top of the stack. */
  method PushState(stack: RootBuffer.DynBuf<ParserState>, e: ParserState)
    requires stack.Valid() && stack.len < RootBuffer.MaxLen
    modifies stack.Repr
    ensures stack.Valid() && fresh(stack.Repr - old(stack.Repr))
    ensures Stk(stack) == Push(old(Stk(stack)), e)
  {
    var i := stack.PushElem(e);
  }

  /** Two `push_state` calls in a row. */
  method PushPair(stack: RootBuffer.DynBuf<ParserState>, e0: ParserState, e1: ParserState)
    requires stack.Valid() && stack.len + 2 <= RootBuffer.MaxLen
    modifies stack.Repr
    ensures stack.Valid() && fresh(stack.Repr - old(stack.Repr))
    ensures Stk(stack) == Push(Push(old(Stk(stack)), e0), e1)
    ensures stack.len == old(stack.len) + 2
    ensures |stack.Slots| == if old(stack.len) + 2 <= old(|stack.Slots|) then old(|stack.Slots|) else old(stack.len) + 2
  {
    PushState(stack, e0);
    PushState(stack, e1);
  }

  /** The six `push_state` calls of the KW_FN case (parser.c:225-236); returns the new count of written slots. */
  method PushFnRules(stack: RootBuffer.DynBuf<ParserState>, data: nat, written: nat) returns (written': nat)
    requires stack.Valid() && written == |stack.Slots| && written + 6 <= RootBuffer.MaxLen
    modifies stack.Repr
    ensures stack.Valid() && fresh(stack.Repr - old(stack.Repr))
    ensures Stk(stack) == PushAll(old(Stk(stack)), FnRules(data)) && written' == |stack.Slots|
  {
    ghost var s0 := Stk(stack);
    var es := FnRules(data);
    written' := if stack.len + 6 <= written then written else stack.len + 6;
    PushPair(stack, es[0], es[1]);
    PushPair(stack, es[2], es[3]);
    PushPair(stack, es[4], es[5]);
    PushSix(s0, es);
  }

  /** The four `push_state` calls over an argument list (parser.c:192-206). */
  method PushArgRules(stack: RootBuffer.DynBuf<ParserState>, written: nat) returns (written': nat)
    requires stack.Valid() && written == |stack.Slots| && written + 4 <= RootBuffer.MaxLen
    modifies stack.Repr
    ensures stack.Valid() && fresh(stack.Repr - old(stack.Repr))
    ensures Stk(stack) == PushAll(old(Stk(stack)), ArgRules()) && written' == |stack.Slots|
  {
    ghost var s0 := Stk(stack);
    var es := ArgRules();
    written' := if stack.len + 4 <= written then written else stack.len + 4;
    PushPair(stack, es[0], es[1]);
    PushPair(stack, es[2], es[3]);
    PushFour(s0, es);
  }

  /** Six single pushes are one push of the six. */
  lemma PushSix(s: Stack, es: seq<ParserState>)
    requires Wf(s) && |es| == 6
    ensures PushAll(s, es) == Push(Push(Push(Push(Push(Push(s, es[0]), es[1]), es[2]), es[3]), es[4]), es[5])
  {
    PushAllCons(s, es);
    PushAllCons(Push(s, es[0]), es[1..]);
    assert es[1..][1..] == es[2..];
    PushFour(Push(Push(s, es[0]), es[1]), es[2..]);
  }

  /** Four single pushes are one push of the four. */
  lemma PushFour(s: Stack, es: seq<ParserState>)
    requires Wf(s) && |es| == 4
    ensures PushAll(s, es) == Push(Push(Push(Push(s, es[0]), es[1]), es[2]), es[3])
  {
    PushAllCons(s, es);
    var t1 := Push(s, es[0]);
    PushAllCons(t1, es[1..]);
    var t2 := Push(t1, es[1]);
    PushAllCons(t2, es[2..]);
    var t3 := Push(t2, es[2]);
    PushAllCons(t3, es[3..]);
    assert es[1..][1..] == es[2..] && es[2..][1..] == es[3..] && es[3..][1..] == [];
  }

  /** Pushing a non-empty sequence is pushing its first state, then the rest. */
  lemma PushAllCons(s: Stack, es: seq<ParserState>)
    requires Wf(s) && es != []
    ensures PushAll(s, es) == PushAll(Push(s, es[0]), es[1..])
  {
  }

  /** The KW_FN case on the stack (parser.c:213-238), the focus already popped. */
  method FnStep(stack: RootBuffer.DynBuf<ParserState>, current: ParserState, data: nat, written: nat)
    returns (st: Status, written': nat)
    requires stack.Valid() && written == |stack.Slots| && written + 6 <= RootBuffer.MaxLen
    modifies stack.Repr
    ensures stack.Valid() && fresh(stack.Repr - old(stack.Repr)) && written' == |stack.Slots|
    ensures SettledOf(st, Stk(stack)) == FnCase(old(Stk(stack)), current, data)
  {
    written' := written;
    var matched := BitAnd(current.kind, Function) != 0;
    if matched {
      written' := PushFnRules(stack, data, written);
    }
    st := Finish(stack, current, matched, written');
  }

  /** The PAREN_O case on the stack (parser.c:185-212), falling through into KW_FN. */
  method ParenStep(stack: RootBuffer.DynBuf<ParserState>, current: ParserState, written: nat)
    returns (st: Status, written': nat)
    requires stack.Valid() && written == |stack.Slots| && written + 10 <= RootBuffer.MaxLen
    modifies stack.Repr
    ensures stack.Valid() && fresh(stack.Repr - old(stack.Repr)) && written' == |stack.Slots|
    ensures SettledOf(st, Stk(stack)) == ParenCase(old(Stk(stack)), current)
  {
    var present, below := CurState(stack);
    if !present {
      return Halting(Fault), written;
    }
    var data := 0;
    written' := written;
    if below.kind == ArgBindListBegin {
      var _ := stack.PopElem();
      written' := PushArgRules(stack, written);
      data := 3;
    }
    st, written' := FnStep(stack, current, data, written');
  }

  /** The VAL_ID case (parser.c:171-184) with the corrected match: one node and its copied text. */
  method ValIdStep(stack: RootBuffer.DynBuf<ParserState>, tree: RootBuffer.DynBuf<ParseNode>, intern: RootBuffer.DynBuf<byte>,
                   current: ParserState, word: nat, lexIntern: seq<byte>, written: nat) returns (st: Status)
    requires Apart(stack, tree, intern) && Room(stack, tree, intern) && written == |stack.Slots|
    modifies stack, tree.Repr, intern.Repr
    ensures Reported(st, Snap(stack, tree, intern)) == ValIdCase(old(Snap(stack, tree, intern)), current, word, lexIntern)
    ensures st.Proceed? ==> Apart(stack, tree, intern) && stack.Slots == old(stack.Slots) && stack.Repr == old(stack.Repr)
    ensures st.Proceed? ==> fresh(tree.Repr - old(tree.Repr)) && fresh(intern.Repr - old(intern.Repr))
  {
    var matched := ExpectsValId(current.kind);
    if matched {
      var kind := if BitAnd(current.kind, Misc) != 0 then BindingName else BindingUse;
      var text, size, ok := InternLexInternedInto(intern, lexIntern, word);
      if !ok {
        return Halting(Fault);
      }
      var _ := tree.PushElem(ParseNode(text, size, kind));
    }
    st := Finish(stack, current, matched, written);
  }

  /**
   * One iteration of the loop of `parse` (parser.c:158-262), proved equal
   * to `Step`; `written` counts the slots of the stack ever written.
   */
  method Iterate(stack: RootBuffer.DynBuf<ParserState>, tree: RootBuffer.DynBuf<ParseNode>, intern: RootBuffer.DynBuf<byte>,
                 tok: RL.Token, lexIntern: seq<byte>, written: nat) returns (st: Status, written': nat)
    requires Apart(stack, tree, intern) && Room(stack, tree, intern) && written == |stack.Slots|
    modifies stack.Repr, tree.Repr, intern.Repr
    ensures Reported(st, Snap(stack, tree, intern)) == Step(old(Snap(stack, tree, intern)), tok, lexIntern)
    ensures st.Proceed? ==> Apart(stack, tree, intern) && written' == |stack.Slots|
    ensures st.Proceed? ==> fresh(stack.Repr - old(stack.Repr)) && fresh(tree.Repr - old(tree.Repr)) && fresh(intern.Repr - old(intern.Repr))
  {
    ghost var m0 := Snap(stack, tree, intern);
    ghost var S := Step(m0, tok, lexIntern);
    written' := written;
    if stack.len == 0 {
      return Halting(Aborts), written;
    }
    var current := stack.PopElem();
    ghost var m1 := Snap(stack, tree, intern);
    var tag := tok.word % U8;
    if tag == RL.ValId {
      assert S == ValIdCase(m1, current, tok.word, lexIntern);
      st := ValIdStep(stack, tree, intern, current, tok.word, lexIntern, written);
    } else if tag == ParenO {
      assert S == Lift(m1, ParenCase(m1.stack, current));
      st, written' := ParenStep(stack, current, written);
    } else if tag == RL.KwFn {
      assert S == Lift(m1, FnCase(m1.stack, current, 0));
      st, written' := FnStep(stack, current, 0, written);
    } else {
      st := Halting(Fatal);
    }
  }

  /** What `parse` ends with: the returned buffers, or the halt. */
  datatype ParseRes = ParseRes(intern: seq<byte>, tree: seq<ParseNode>)
  datatype Parsed = Returned(res: ParseRes) | Halts(h: Halt)

  /**
   * parse (parser.c:151-268): the loop runs while the token index, which
   * is never advanced, is below the token count. With no tokens the empty
   * buffers are returned; otherwise the machine halts within two
   * iterations of the first token, as `Run` says.
   */
  method Parse(tokens: seq<RL.Token>, lexIntern: seq<byte>) returns (r: Parsed)
    ensures r.Returned? <==> |tokens| == 0
    ensures r.Returned? ==> r.res == ParseRes([], [])
    ensures |tokens| > 0 ==> r.Halts? && Run(Initial(), tokens[0], lexIntern, 2) == Stopped(r.h)
  {
    var stack := new RootBuffer.DynBuf<ParserState>();
    var tree := new RootBuffer.DynBuf<ParseNode>();
    var intern := new RootBuffer.DynBuf<byte>();
    var _ := stack.PushElem(ParserState(Function, 0));
    var written := 1;
    var tokIdx := 0;
    ghost var iter := 0;
    while tokIdx < |tokens|
      invariant Apart(stack, tree, intern) && written == |stack.Slots|
      invariant fresh(stack.Repr + tree.Repr + intern.Repr)
      invariant tokIdx == 0 && iter <= 1 && (iter > 0 ==> |tokens| > 0)
      invariant EarlyState(Snap(stack, tree, intern), iter, tokens)
      decreases 2 - iter
    {
      var st, w := Turn(stack, tree, intern, tokens[tokIdx], lexIntern, written, iter);
      if st.Halting? {
        return Halts(st.h);
      }
      written := w;
      iter := iter + 1;
    }
    var bytes := intern.Items();
    var nodes := tree.Items();
    r := Returned(ParseRes(bytes, nodes));
  }

  /** Where `parse` stands before iteration `iter` on its first token. */
  predicate EarlyState(m: Machine, iter: nat, tokens: seq<RL.Token>)
  {
    if iter == 0 then m == Initial() else |tokens| > 0 && tokens[0].word % U8 == RL.KwFn && m == AfterFn()
  }

  /** One turn of the loop of `parse` on its first token, which the loop never leaves. */
  method Turn(stack: RootBuffer.DynBuf<ParserState>, tree: RootBuffer.DynBuf<ParseNode>, intern: RootBuffer.DynBuf<byte>,
              tok: RL.Token, lexIntern: seq<byte>, written: nat, ghost iter: nat) returns (st: Status, written': nat)
    requires Apart(stack, tree, intern) && written == |stack.Slots|
    requires EarlyState(Snap(stack, tree, intern), iter, [tok])
    modifies stack.Repr, tree.Repr, intern.Repr
    ensures st.Halting? ==> Run(Initial(), tok, lexIntern, 2) == Stopped(st.h)
    ensures st.Proceed? ==> iter == 0 && EarlyState(Snap(stack, tree, intern), 1, [tok])
    ensures st.Proceed? ==> Apart(stack, tree, intern) && written' == |stack.Slots|
    ensures st.Proceed? ==> fresh((stack.Repr + tree.Repr + intern.Repr) - old(stack.Repr + tree.Repr + intern.Repr))
  {
    ghost var m := Snap(stack, tree, intern);
    RoomAtStart(stack, tree, intern);
    st, written' := Iterate(stack, tree, intern, tok, lexIntern, written);
    EarlySteps(m, tok, lexIntern);
  }

  /** Before either of the two iterations the buffers are nearly empty: every push of a step fits. */
  lemma RoomAtStart(stack: RootBuffer.DynBuf<ParserState>, tree: RootBuffer.DynBuf<ParseNode>, intern: RootBuffer.DynBuf<byte>)
    requires Apart(stack, tree, intern)
    requires Snap(stack, tree, intern) == Initial() || Snap(stack, tree, intern) == AfterFn()
    ensures Room(stack, tree, intern)
  {
    assert |tree.Contents| == tree.len && |intern.Contents| == intern.len;
  }

  /**
   * The two iterations `parse` can take on its first token: from the
   * initial machine, and after `fn` from the six rules. A step that halts
   * ends the two-iteration run the same way; only `fn` from the initial
   * machine goes on, to `AfterFn`.
   */
  lemma EarlySteps(m: Machine, tok: RL.Token, lexIntern: seq<byte>)
    requires m == Initial() || (m == AfterFn() && tok.word % U8 == RL.KwFn)
    ensures Step(m, tok, lexIntern).Next? ==> m == Initial() && tok.word % U8 == RL.KwFn && Step(m, tok, lexIntern).m == AfterFn()
    ensures Step(m, tok, lexIntern).Halted? ==> Run(Initial(), tok, lexIntern, 2) == Stopped(Step(m, tok, lexIntern).h)
  {
    FirstStep(tok, lexIntern);
    ParseHalts(tok, lexIntern);
    if m == AfterFn() {
      SecondStep(tok, lexIntern);
    }
  }
}
