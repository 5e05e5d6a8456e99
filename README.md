# funlang front end, modelled in Dafny

This project models the C front end of the funlang compiler in two revisions.

The current revision lives under `src/`:
- `src/common.h`: the growable `DynamicArray`;
- `src/hashtable.c`: `HSet`, an open-addressing string set that interns names;
- `src/lexer.c`: `lex`, which turns a NUL-terminated source into tokens, literals and interned bytes, and pairs brackets;
- `src/parser.c`: `parse`, a recursive-descent parser for `fn` items.

The older revision lives at the repository root:
- `common.h`;
- `lexer.c` with `lexer.h`;
- `parser.c`: a table-driven parser whose stack holds rule states.

Modules:

| module | file | models |
|---|---|---|
| `Bits` | bits.dfy | C integer widths, `next_pow2`, bitwise AND/OR/XOR on naturals, masking a probe index |
| `CText` | ctext.dfy | ctype classes, `strtoll`/`strtol` with base 0, and `unescape` (identical in both revisions) |
| `Buffer` | src_common.dfy | `DynamicArray` of `src/common.h`, as a class over an array |
| `StringSet` | src_hashtable.dfy | `fnv_32_str` and the class `HSet` |
| `Tokens` | src_tokens.dfy | the token word of `src/lexer.h`, both `hash_kw` variants, bracket rows |
| `Lexer` | src_lexer.dfy | `lex` of `src/lexer.c` |
| `Parser` | src_parser.dfy | `parse` of `src/parser.c` |
| `RootBuffer` | root_common.dfy | `DynamicArray` of the root `common.h` |
| `RootLexer` | root_lexer.dfy | the root `lex` |
| `RootParser` | root_parser.dfy | the root `parse` |

## How each operation is modelled

Each imperative C function is modelled by:
- a Dafny `method` over arrays and classes;
- a specification function computing the same thing on values;
- an `ensures` tying the method to that function.

What the C code promises is then proved as lemmas about the specification functions.

`lex` in both revisions is proved equal to a functional loop:
- `Lexer.LexSpec` / `Lexer.LexFrom` for `src/`;
- `RootLexer.LexSpec` / `RootLexer.Run` for the root.

The src `parse` is proved equal to `Parser.ParseSpec`. The root `parse` is proved equal to `RootParser.Run`.

Outcomes that end the C process or leave it undefined are values of the model:

| outcome | what causes it |
|---|---|
| `Fatal` | `err` |
| `Aborts` | `abort`, or a failed `assert` |
| `OutOfBounds` / `Faults` | a read past a buffer or through NULL |
| `Hangs` / `Spins` | a loop that never ends |

The source is read as NUL-terminated: a read at or past the end yields 0.

The models follow the code as written, including these behaviours:
- **src lexer:**
  - a closer's position is the negated offset of the byte two past it (`PosOf(cur + 2)`): src/lexer.c:399 steps past the closer and src/lexer.c:418 subtracts one more;
  - an opener whose row cursor is 10 or more yields an INVALID token and is read again without advancing, once per increment of its 8-bit cursor; from cursor 10 that is 246 INVALID tokens, after which the cursor has wrapped to 0 and the opener is stored at slot 0 of its row (`Lexer.OpenSpec`, `Lexer.OpenOverflow`); a closer always consumes its byte, so the src lexer never stalls for good;
  - a string literal is tagged `TOK_LIT_INT`;
  - a string's length field counts source bytes, not interned bytes;
  - the search for the end of a block comment starts at `cur + 3`, so `/**/` does not close;
  - a `/` that starts no comment is read as punctuation from the byte after it;
  - the portable `hash_kw` takes `as` and `re` for keywords.
- **src string set:**
  - `insert_str` spins when the home slot holds another key;
  - `remove_str` removes a key that agrees with another key on their common prefix, and decrements `inuse` even when nothing was removed.
- **root lexer:**
  - the literal index is OR-ed unshifted into the tag;
  - `re` is `KW_RET`;
  - `/*` followed by `/` is a complete comment;
  - an opener at depth 10 is stored one past its row;
  - a closer whose row counter is 0 (no opener of its row is open) stalls the loop forever: the counter falls to 0xFF, is reset to 0, and the same byte is read again (`RootLexer.StalledRepeats`);
  - an opener whose row counter is above 10 yields an INVALID token and is read again without advancing, once per increment, until its 8-bit counter wraps to 0; it is then stored at slot 0 of its row (`RootLexer.Budget`, `RootLexer.Progress`);
  - a closer whose row counter is 12 or more yields an INVALID token in place and lowers the counter, until the counter is 11; it then pairs with slot 10;
  - so twelve nested `(` followed by twelve `)` hang at the second `)`: the twelfth `(` is stored at slot 0 after 245 INVALID tokens, the first `)` pairs with it, and the second finds counter 0.
- **root parser:** the token index is never advanced, so a parse with a token halts within two iterations.

## Model

| member | source | states |
|---|---|---|
| Bits.NextPow2 | src/common.h:48-54 | `next_pow2(n)` is a power of two above `n`, at most 2^31, and at most twice `n` (or 1) |
| Bits.NextPow2Least | src/common.h:48-54 | `next_pow2(n)` is the least power of two above `n` |
| Bits.MaskBelow | src/hashtable.c:29 | masking with `cap - 1` for a power-of-two `cap` yields a slot index |
| Bits.MaskIdentity | src/hashtable.c:32 | masking leaves every slot index unchanged |
| Bits.MaskWrap | src/hashtable.c:32 | masking `cap` itself wraps to slot 0 |
| Bits.MaskedIncrement | src/hashtable.c:32 | `(idx + 1) & cap_mask` is the next slot, wrapping from the last to slot 0 |
| Bits.ProbeAtIs | src/hashtable.c:31-32 | within one round, probing from `home` for `k` steps lands on `home + k` wrapped once |
| Bits.ProbeReaches | src/hashtable.c:31-32 | linear probing reaches every slot within fewer than `cap` steps |
| Bits.OrDisjoint | src/lexer.c:314-315 | OR-ing a tag into a word whose low byte is clear is addition |
| Bits.XorBelow | src/hashtable.c:18 | XOR of two 32-bit values stays 32-bit |
| CText.StrToLL | src/lexer.c:310 | `strtoll` with base 0 consumes at least the digit, stops at the end of the source, saturates at `LLONG_MAX`, and a digit can follow only a leading `0` |
| CText.StrToLLExamples | src/lexer.c:310 | base detection on `0x1F`, `017`, `42;`, `08` and a bare `0x` |
| CText.Unescape | src/lexer.c:116-144 | a digit is read as a base-0 number past which the cursor moves; any other escape leaves the cursor on its letter |
| Buffer.DynBuf.constructor | src/common.h:21-25 | the zeroed array has no elements and no capacity |
| Buffer.DynBuf.GrowArray | src/common.h:57-68 | the capacity becomes `next_pow2(len + 1)` and the live elements are kept |
| Buffer.DynBuf.PushElem | src/common.h:70-78 | appends `e`, returns the old length, grows exactly when the new length reaches the capacity, and keeps `len < cap` |
| Buffer.DynBuf.PopElem | src/common.h:80-85 | on a non-empty array, returns the last element and drops it; the storage is unchanged |
| Buffer.DynBuf.InsertElem | src/common.h:87-100 | the contents become the old ones with `e` inserted at `idx` |
| Buffer.DynBuf.AppendBuf | src/common.h:102-112 | appends all of `elems` and returns where they start |
| Buffer.MoveUp | src/common.h:97 | the `memmove` shifts slots `[idx, n)` up by one |
| Buffer.InsertSlots | src/common.h:94-99 | shifting the tail and storing `e` yields the insertion |
| RootBuffer.Regrown | common.h:62-63 | the capacity after a length change is unchanged, or a power of two above the length |
| RootBuffer.DynBuf.constructor | common.h:16-20 | the zeroed array has no elements, no written slots and no capacity |
| RootBuffer.DynBuf.GrowArray | common.h:45-57 | the capacity becomes `next_pow2(len)`, above `len`, and the slots are kept |
| RootBuffer.DynBuf.PushElem | common.h:59-68 | appends `e` and returns the old length; grows only when the new length exceeds the capacity, so `len == cap` remains possible |
| RootBuffer.DynBuf.PopElem | common.h:70-76 | returns and drops the last element; the slot keeps its value |
| RootBuffer.DynBuf.SetLen | parser.c:248-259 | a direct store to `len` exposes or hides written slots without changing them |
| RootBuffer.DynBuf.InsertElem | common.h:78-93 | with the move length corrected: `e` is inserted at `idx` and the slots past the new length are untouched |
| RootBuffer.DynBuf.InsertElemAsWritten | common.h:78-93 | as written: the move overruns the storage exactly when the new length equals the capacity; otherwise `e` is inserted at `idx` |
| RootBuffer.DynBuf.ShiftAt | common.h:87-92 | the move of `len - idx` elements and the store yield the insertion in the live slots |
| RootBuffer.DynBuf.PlaceAt | common.h:87-92 | the corrected move and the store yield the insertion, with the rest of the slots unchanged |
| RootBuffer.MoveTail | common.h:90 | the corrected `memmove` shifts the live tail up by one and changes nothing else |
| RootBuffer.InsertSpan | common.h:84-90 | the as-written move writes up to slot `len + 1` against a capacity of at least `len + 1` |
| RootBuffer.InsertOverrun | common.h:84-90 | the as-written move passes the storage exactly when the new length equals the capacity, e.g. inserting into a buffer after one push |
| StringSet.FnvHash | src/hashtable.c:5-23 | the byte loop computes the FNV-0 fold `Fnv0(key)` |
| StringSet.FnvSnoc | src/hashtable.c:12-19 | one more byte applies one more multiply-and-XOR step |
| StringSet.FnvCompose | src/hashtable.c:11-19 | equal hashes of two prefixes stay equal after the same suffix |
| StringSet.FnvLeadingZero | src/hashtable.c:11 | with offset basis 0 a leading zero byte never changes the hash |
| StringSet.Home | src/hashtable.c:73 | the home slot is an index of the table |
| StringSet.ProbeStep | src/hashtable.c:32 | one `idx = (idx + 1) & cap_mask` step advances the probe by one |
| StringSet.RoomLeft | src/hashtable.c:31 | a table with fewer used slots than slots has an empty one, so `insert_unique_in_cap` terminates |
| StringSet.NoGrowRoom | src/hashtable.c:70 | when no growth is due, the table has slots and more of them than are in use |
| StringSet.InsertUniqueInCap | src/hashtable.c:25-35 | the view is stored in the first empty slot probing from the key's home, and no other slot changes |
| StringSet.FindEmpty | src/hashtable.c:28-32 | the probe loop stops at the first empty slot from `home` |
| StringSet.GrownCapacity | src/hashtable.c:39 | the new capacity is 0x1000 or the doubled one, a larger power of two, and is 0 exactly when 2^31 doubles |
| StringSet.Rehash | src/hashtable.c:46-57 | the new table holds exactly the views of old slots 1 to `encap`, slot 0 skipped |
| StringSet.HSet.constructor | src/parser.c:195 | `HSet hs = {}` has no slots, nothing in use, and an empty buffer |
| StringSet.HSet.Grow | src/hashtable.c:37-63 | aborts exactly when the capacity is 2^31; otherwise doubles it (or sets 0x1000) and keeps every view but slot 0's |
| StringSet.HSet.ProbeInsert | src/hashtable.c:72-88 | an empty home slot gets the appended key; a home slot holding the key returns its view; any other home slot spins |
| StringSet.HSet.MatchHome | src/hashtable.c:75-80 | an occupied home slot is returned exactly when it has the key's length and bytes |
| StringSet.HSet.StoreAt | src/hashtable.c:82-88 | appends the key's bytes, stores their view in the slot, changes no other slot, and counts it |
| StringSet.HSet.InsertStr | src/hashtable.c:65-89 | grows when `inuse * PHI >= encap`; returns an equal stored view or inserts the key at its home; every other slot is unchanged, and after a growth the old views (slot 0 aside) are kept |
| StringSet.HSet.InsertTwice | src/hashtable.c:65-89 | inserting the same bytes twice returns the first view the second time |
| StringSet.HSet.Insert | src/hashtable.c:117-120 | `insert` is `insert_str` on the first `len` bytes |
| StringSet.HSet.RemoveStr | src/hashtable.c:91-115 | faults on an empty table; otherwise clears the first prefix-agreeing slot on the probe run, or finds an empty slot, or spins; `inuse` is decremented in both cases |
| StringSet.HSet.RemoveProbe | src/hashtable.c:94-110 | the probe passes only occupied, disagreeing slots and stops at an empty or agreeing one |
| StringSet.ProbeRun | src/hashtable.c:100-110 | linear probing up to the first empty or agreeing slot, or over all slots |
| Tokens.Word | src/lexer.h:73-83 | the union word holds the tag in its low byte and `aux` above it |
| Tokens.OfWord | src/lexer.h:73-83 | a word splits into a well-formed token with that word |
| Tokens.WordRoundTrip | src/lexer.h:73-83 | splitting and re-assembling a token's word gives the token back |
| Tokens.Signed24 | src/parser.c:68 | `matching_scp >> 8` is a signed 24-bit value whose low 24 bits are `aux` |
| Tokens.Signed24RoundTrip | src/lexer.c:415-420 | a bracket distance stored with `<< 8` reads back unchanged |
| Tokens.AsIntern | src/lexer.h:13-18 | `as_intern` overlays two 16-bit fields on the union word |
| Tokens.InternRoundTrip | src/lexer.h:76-82 | an `Intern` stored in a token reads back unchanged |
| Tokens.LenField | src/lexer.c:38-39 | the length field `(uint16_t)(n << 8)` has a clear low byte |
| Tokens.LenFieldReadBack | src/lexer.c:38-39 | `len >> 8` gives back `n` modulo 256, and `n` exactly when `n <= 255` |
| Tokens.InternTokenTag | src/lexer.c:330-335 | OR-ing the kind into an interned token sets only the tag and keeps the record |
| Tokens.HashKw | src/lexer.c:198-262 | the x86-64 `hash_kw` yields `TOK_VAL_ID` or a keyword tag |
| Tokens.HashKwClassifies | src/lexer.c:198-262 | a keyword gets exactly its own tag, and only non-keywords get `TOK_VAL_ID` |
| Tokens.PortableKeywordTag | src/lexer.c:147-182 | the portable chain maps each keyword to its tag |
| Tokens.PortableAgreesOnKeywords | src/lexer.c:147-182 | on every keyword the portable and x86-64 versions agree |
| Tokens.PortableDiffersOnPrefixes | src/lexer.c:147-182 | where they disagree, the word is a proper prefix of a keyword |
| Tokens.PortablePrefixKeywords | src/lexer.c:152-157 | `as` and `re` are identifiers on x86-64 but `ass` and `return` on the portable path |
| Tokens.BracketHashRows | src/lexer.c:380-397 | the bracket hash sends `( [ {` with bias 10 and `) ] }` with bias 11 to rows 0, 1, 2 |
| Tokens.Row | src/lexer.c:380-397 | each bracket's row is below 3 and is the hash with its bias |
| Tokens.RowBracket | src/lexer.c:377-397 | each bracket is its row's opener or that opener's closer |
| Tokens.RowPair | src/lexer.c:395-397 | an opener and its closer share a row |
| Lexer.PosOf | src/lexer.c:313 | `(uint32_t)(l.src - p)` is the 32-bit negation of the offset |
| Lexer.LexBuf.constructor | src/lexer.c:11-18 | `LexBuf res_buf = {}` holds three empty buffers |
| Lexer.LexBuf.InternChar | src/lexer.c:20-23 | appends one byte to the intern buffer and nothing else |
| Lexer.LexBuf.InternStrview | src/lexer.c:30-45 | appends at most 255 bytes and returns the record with the truncated length field and the start offset |
| Lexer.LexBuf.InternString | src/lexer.c:356-369 | the string loop interns `StrBody` and stops at the closing quote |
| Lexer.LexBuf.PushLit | src/lexer.c:47-50 | appends a literal and returns its index |
| Lexer.LexBuf.PushToken | src/lexer.c:52-55 | appends a token |
| Lexer.LexBuf.PatchScope | src/lexer.c:413-416 | the opener fix-up changes only the opener, as `PatchOpener` describes |
| Lexer.ReserveIntern | src/lexer.c:34-36 | the length is raised by `n`, with growth only when it exceeds the capacity; the old bytes are kept |
| Lexer.InternInto | src/lexer.c:30-45 | reserving and copying append the clipped bytes and return their record |
| Lexer.InternMark | src/lexer.c:25-28 | the intern length truncated to 16 bits |
| Lexer.ConsumeWs | src/lexer.c:64-75 | skips exactly the run of white space and says whether it was non-empty |
| Lexer.ConsumeChar | src/lexer.c:77-87 | advances past `c` exactly when it is the next byte |
| Lexer.ConsumeComment | src/lexer.c:89-114 | says whether a comment starts; a line comment ends after its newline; a block comment ends after the first closer found from `cur + 3`; a lone `/` is consumed |
| Lexer.ScanWord | src/lexer.c:321-322 | the identifier loop stops at the first byte that is not alphanumeric or `_` |
| Lexer.LexNumber | src/lexer.c:303-316 | pushes `strtoll`'s value and a LIT_INT token holding its index, at the position after the number |
| Lexer.LexWord | src/lexer.c:317-337 | a keyword is its tag; any other word is interned (at most 255 bytes) and tagged VAL_ID |
| Lexer.LexTypeWord | src/lexer.c:338-350 | a capitalised word is interned and tagged TYPE_ID |
| Lexer.StrBody | src/lexer.c:356-369 | the string loop stops at an unescaped quote or the end, and interns at most two bytes per source byte |
| Lexer.StrBodyPlain | src/lexer.c:356-369 | a string without backslashes is interned byte for byte |
| Lexer.StrBodyNewlineEscape | src/lexer.c:356-369 | in `"a\n"` both the backslash and the decoded newline are interned, then the `n` again |
| Lexer.LexString | src/lexer.c:351-376 | interns `StrBody`, skips both quotes, and tags the token LIT_INT with the mark and the source length |
| Lexer.InternStringBody | src/lexer.c:356-369 | the string loop on the intern buffer computes `StrBody` |
| Lexer.Punct | src/lexer.c:422-445 | `->` and `<:` are the two-byte tokens; any other punctuation byte is its own tag |
| Lexer.ScopeStacks.constructor | src/lexer.c:268-274 | `ScopeStacks scopes = {}` holds three zeroed rows with zero cursors |
| Lexer.OpenPush | src/lexer.c:384-390 | pushing an opener on a row with room keeps the scopes consistent |
| Lexer.OpenOverflow | src/lexer.c:384-387 | an opener on a full row only bumps the row's cursor, wrapping at 256 |
| Lexer.CloseUnmatched | src/lexer.c:399-411 | a closer on an empty or overfull row yields INVALID and resets an underflowed cursor to 0 |
| Lexer.ClosePairs | src/lexer.c:413-420 | patching the opener and pushing the closer keeps every recorded pair pointing at each other |
| Lexer.CloseMatch | src/lexer.c:413-420 | a closer pops its row's top opener: the opener gets the distance forward, the closer the distance back |
| Lexer.NearestOpener | src/lexer.c:384-420 | a closer pairs with the nearest opener of its row that is still open |
| Lexer.NestPush | src/lexer.c:384-390 | a pushed opener keeps the pairs properly nested |
| Lexer.NestClose | src/lexer.c:413-420 | closing the top opener keeps the pairs properly nested |
| Lexer.NestCloseNested | src/lexer.c:413-420 | the new pair crosses no older pair |
| Lexer.Clip | src/lexer.c:32 | `intern_strview` copies the first `min(len, 255)` bytes |
| Lexer.InternAux | src/lexer.c:38-39 | an interned token's upper bits are the length modulo 256 and the 16-bit start |
| Lexer.InternedSpec | src/lexer.c:317-376 | the interning branches yield a non-bracket token, advance, and only append to the intern buffer |
| Lexer.WordScanned | src/lexer.c:317-337 | `LexWord` computes `InternedSpec` |
| Lexer.TypeWordScanned | src/lexer.c:338-350 | `LexTypeWord` computes `InternedSpec` |
| Lexer.StringScanned | src/lexer.c:351-376 | `LexString` computes `InternedSpec` |
| Lexer.PlainSpec | src/lexer.c:298-376 | the branches that leave the stacks alone yield one non-bracket token and advance |
| Lexer.PatchOpener | src/lexer.c:413-416 | the fix-up changes only the opener, whose zero upper bits become the forward distance |
| Lexer.OpenSpec | src/lexer.c:377-391 | the opener branch keeps the buffers, and advances or stalls with a smaller stall measure |
| Lexer.CloseSpec | src/lexer.c:392-421 | the closer branch always consumes its byte and keeps the literals and intern bytes |
| Lexer.CloseSpecAt | src/lexer.c:399-420 | a lowered cursor of 10 or more gives INVALID; below 10 the row's top opener is patched and paired |
| Lexer.ScanSpec | src/lexer.c:298-446 | each token-producing iteration advances or lowers the stall measure |
| Lexer.StepSpec | src/lexer.c:283-450 | white space and comments add no token; every other iteration adds one |
| Lexer.LexFrom | src/lexer.c:452-458 | the loop's result extends the tokens so far |
| Lexer.LexFromStep | src/lexer.c:283-450 | the loop's result is that of the state after one iteration |
| Lexer.LexDone | src/lexer.c:452-458 | when the loop ends, the result is the current buffers |
| Lexer.InvalidByteStep | src/lexer.c:446-449 | an unclassified byte yields one zero INVALID token and is skipped |
| Lexer.ParenPairExample | src/lexer.c:377-421 | `()` lexes to two tokens whose upper bits are +1 and -1 |
| Lexer.SilentKeeps | src/lexer.c:293-302 | skipping white space or a comment keeps the pairing invariant |
| Lexer.PlainKeeps | src/lexer.c:303-376 | a non-bracket token keeps the pairing invariant |
| Lexer.OpenKeeps | src/lexer.c:377-391 | an opener keeps the pairing invariant |
| Lexer.CloseKeeps | src/lexer.c:392-421 | a closer keeps the pairing invariant, extended by its pair |
| Lexer.StepKeeps | src/lexer.c:283-450 | every iteration keeps the pairing invariant |
| Lexer.StepSizes | src/lexer.c:283-450 | every iteration keeps the buffers linear in the source length |
| Lexer.LexFromOk | src/lexer.c:283-458 | from any good state the rest of the loop yields matched, nested, well-formed tokens in bounded buffers |
| Lexer.LexSpecOk | src/lexer.c:278-459 | what `lex` returns is matched, nested and well formed, and linear in size |
| Lexer.StartOk | src/lexer.c:280-281 | the initial state satisfies the invariant |
| Lexer.OpenBracket | src/lexer.c:377-391 | the opener branch computes `OpenSpec` |
| Lexer.CloseBracket | src/lexer.c:392-421 | the closer branch computes `CloseSpec` |
| Lexer.PopScope | src/lexer.c:413-420 | the pairing half of the closer branch computes `CloseSpec` |
| Lexer.ScanInterned | src/lexer.c:317-376 | the interning branches compute `InternedSpec` |
| Lexer.ScanPlain | src/lexer.c:298-376 | the non-bracket branches compute `PlainSpec` |
| Lexer.Scan | src/lexer.c:298-446 | the token-producing branches compute `ScanSpec` |
| Lexer.StepToken | src/lexer.c:299-449 | the branch and the push compute `ScanSpec` plus the push |
| Lexer.Step | src/lexer.c:283-450 | one iteration computes `StepSpec` |
| Lexer.Collect | src/lexer.c:452-458 | the result is the three buffers' contents |
| Lexer.Lex | src/lexer.c:278-459 | `lex` returns `LexSpec(src)`: well-formed tokens, each closer paired with the nearest open opener of its row, and bounded buffers |
| Parser.TextEqual | src/hashtable.c:77-79 | a view that matches a key denotes exactly the key's bytes |
| Parser.NamesGrow | src/hashtable.c:82 | appending to the set's buffer keeps the bytes of every stored view |
| Parser.TypeSpec | src/parser.c:48-56 | `parse_type` consumes exactly one token on success |
| Parser.StmtSpec | src/parser.c:105-128 | `parse_stmt` consumes exactly three tokens on success |
| Parser.BlockLoop | src/parser.c:137-142 | the block loop never moves the cursor back |
| Parser.BlockSpec | src/parser.c:130-145 | `parse_block` consumes at least the `{` |
| Parser.ArgSpec | src/parser.c:73-81 | one argument consumes exactly three tokens |
| Parser.ArgSpecOk | src/parser.c:73-85 | a parsed argument records its name and the index of its type |
| Parser.ArgItem | src/parser.c:73-84 | one argument and its optional comma consume at least one token |
| Parser.ArgsLoop | src/parser.c:71-87 | the argument loop bumps the cursor before every test |
| Parser.ArgsSpec | src/parser.c:64-90 | `parse_explicit_args` consumes at least the `(` |
| Parser.ArgListSpec | src/parser.c:154-165 | `[` and the end of the tokens are fatal; otherwise explicit arguments follow |
| Parser.RetSpec | src/parser.c:167-176 | one token is consumed whatever it is |
| Parser.FnBody | src/parser.c:178-181 | the block is parsed and the definition pushed |
| Parser.FnTail | src/parser.c:167-181 | return type, block, definition |
| Parser.FnRest | src/parser.c:154-181 | argument lists, then the rest |
| Parser.FnSpec | src/parser.c:147-182 | `parse_fn` consumes at least one token on success |
| Parser.ParseOneFunction | src/parser.c:184-211 | `fn f() -> T { return 1; }` parses to one function, one type and one expression after the sentinels |
| Parser.OneArgumentFatal | src/parser.c:71 | `fn f(x: T) { }` is fatal, because the first argument is read from the `:` |
| Parser.NoArrowFatal | src/parser.c:170 | `fn f() { return 1; }` is fatal, because the `{` is consumed as the arrow slot |
| Parser.NoArrowNeedsSecondBrace | src/parser.c:170-179 | for every input, a function without `->` parses only if a second `{` follows |
| Parser.ArgsLoopIntended | src/parser.c:71-87 | the intended loop reads from the token after `(` up to its partner |
| Parser.ArgsIntended | src/parser.c:64-90 | the intended `parse_explicit_args` steps over the `)` |
| Parser.EmptyArgsAgree | src/parser.c:64-90 | on `()` the intended and written loops agree |
| Parser.OneArgumentIntended | src/parser.c:71-87 | the intended loop parses `x: T` as one argument of type `T` |
| Parser.RetIntended | src/parser.c:170-176 | the intended return type consumes a token only when it is `->` |
| Parser.FnTailIntended | src/parser.c:167-181 | the rest of `parse_fn` with the intended return type |
| Parser.IntendedTail | src/parser.c:170-176 | with `->` the intended and written tails agree; without it, the block starts at that token |
| Parser.NoArrowIntended | src/parser.c:170-181 | with the intended return type, `fn f() { return 1; }` yields a function of return type 0 |
| Parser.ArgsLoopAppends | src/parser.c:71-87 | the loop appends one argument and one type per argument counted |
| Parser.ArgListAppends | src/parser.c:154-165 | the argument lists append one argument per argument counted |
| Parser.FnBodyAppends | src/parser.c:178-181 | the definition records its arguments, return type and block |
| Parser.FnSpecAppends | src/parser.c:160-165 | the definition's `ia_beg`/`ia_len` describe the explicit arguments |
| Parser.ParseLoopAppends | src/parser.c:197-208 | the loop of `parse` only appends, and never to the implicit arguments or statements |
| Parser.ParseKeepsSentinels | src/parser.c:188-193 | a successful parse keeps the zeroed element at index 0 of every array |
| Parser.NoGrowAbort | src/hashtable.c:39-44 | fewer than 2^24 names never reach the doubling that aborts |
| Parser.ExpectToken | src/parser.c:28-35 | always advances by one, and fails unless the tag matches |
| Parser.OptMunchToken | src/parser.c:37-46 | advances exactly when the tag matches |
| Parser.InsertIntern | src/parser.c:23-26 | the view returned denotes the `len >> 8` bytes at `idx` of the lexer's intern buffer |
| Parser.ParseType | src/parser.c:48-56 | computes `TypeSpec` |
| Parser.ParseExpr | src/parser.c:92-103 | computes `ExprSpec` |
| Parser.ParseStmt | src/parser.c:105-128 | computes `StmtSpec` |
| Parser.BlockStep | src/parser.c:137-142 | one block iteration follows `BlockLoop` |
| Parser.ParseBlock | src/parser.c:130-145 | computes `BlockSpec` |
| Parser.ExpectName | src/parser.c:151-152 | a name token is expected and interned |
| Parser.ParseArg | src/parser.c:73-81 | computes `ArgSpec` |
| Parser.ParseArgType | src/parser.c:78-81 | the `:` and the type of one argument |
| Parser.ArgBody | src/parser.c:73-85 | computes `ArgItem` |
| Parser.ArgsStep | src/parser.c:71-86 | one loop iteration follows `ArgsLoop` |
| Parser.ParseExplicitArgs | src/parser.c:64-90 | computes `ArgsSpec` |
| Parser.ArgsRun | src/parser.c:71-87 | computes `ArgsLoop` |
| Parser.ParseImplicitArgs | src/parser.c:58-62 | always fatal |
| Parser.ParseArgLists | src/parser.c:154-165 | computes `ArgListSpec` |
| Parser.ParseRet | src/parser.c:167-176 | computes `RetSpec` |
| Parser.RetArrow | src/parser.c:172-175 | after `->` the return type's index is the number of types before it |
| Parser.ParseFnBody | src/parser.c:178-181 | computes `FnBody` |
| Parser.ParseFnTail | src/parser.c:167-181 | computes `FnTail` |
| Parser.ParseFnRest | src/parser.c:154-181 | computes `FnRest` |
| Parser.ParseFn | src/parser.c:147-182 | computes `FnSpec` |
| Parser.ParseItem | src/parser.c:199-207 | one pass follows `ParseLoop` |
| Parser.ParseItems | src/parser.c:197-208 | computes `ParseLoop` |
| Parser.NewParseBuf | src/parser.c:186-193 | every array starts with its zeroed element |
| Parser.Parse | src/parser.c:184-211 | `parse` computes `ParseSpec`, unless the string set spins |
| Parser.ParseBuf.constructor | src/parser.c:186 | `ParseBuf buf = {}` holds six empty arrays |
| RootLexer.InternWord | lexer.h:9-13 | the Intern record's word holds `len` in the low half and `idx` in the high half |
| RootLexer.TaggedIntern | lexer.c:209-212 | OR-ing a tag into an Intern word fills only the clear low byte |
| RootLexer.StrNEqPrefix | lexer.c:139-144 | `strncmp` over the run against a literal is a prefix test |
| RootLexer.HashKwClassifies | lexer.c:134-147 | `return` and `re` are KW_RET, `as` is KW_AS, `fn` is KW_FN, anything else VAL_ID |
| RootLexer.OpenRow | lexer.c:259-261 | `(`, `[`, `{` hash to rows 0, 1, 2 |
| RootLexer.CloseRow | lexer.c:274-276 | `)`, `]`, `}` hash to their openers' rows |
| RootLexer.SkipWs | lexer.c:70-74 | `consume_ws` stops at `end` or the first non-space |
| RootLexer.LineEnd | lexer.c:84-85 | a line comment runs to its newline, which stays |
| RootLexer.BlockLoop | lexer.c:91-96 | the block-comment loop advances at least one byte |
| RootLexer.SkipComment | lexer.c:76-101 | `consume_comment` skips at most two bytes past `end` |
| RootLexer.SkipTrivia | lexer.c:166-168 | the three skips at the top of an iteration |
| RootLexer.TriviaStays | lexer.c:166-168 | a byte that is not a space and not `/` is never skipped |
| RootLexer.BlockCommentSharesStar | lexer.c:91-97 | `/*` followed by `/` is a complete comment |
| RootLexer.BlockCommentMissesDoubleStar | lexer.c:91-97 | in `/* **/` the first `*` of `**` swallows the second, and the comment runs past the end |
| RootLexer.WordEnd | lexer.c:197-199 | the identifier loop stops at `end` or a non-word byte |
| RootLexer.InternView | lexer.c:37-51 | `intern_strview` reserves at most 255 bytes but copies all of them |
| RootLexer.InternViewFacts | lexer.c:37-51 | runs of at most 255 bytes are interned whole and read back; only longer runs overrun |
| RootLexer.LengthField | lexer.c:45 | the length field keeps the run's length modulo 256 |
| RootLexer.InternOverrunExample | lexer.c:39-48 | a 300-byte run into an empty buffer overruns the 256-byte storage |
| RootLexer.NumberAt | lexer.c:177-192 | a number advances and emits a token |
| RootLexer.LitIndexClobbersTag | lexer.c:186-189 | the unshifted literal index shares the tag's bits: the second literal reads back as LIT_STR |
| RootLexer.LowerAt | lexer.c:193-214 | a lower-case run advances without changing the tokens |
| RootLexer.UpperAt | lexer.c:215-228 | an upper-case run advances without changing the tokens |
| RootLexer.StrLoop | lexer.c:235-249 | the string loop stops at an unescaped quote or the end |
| RootLexer.StringAt | lexer.c:229-255 | a string advances and emits a token |
| RootLexer.OpenAt | lexer.c:256-270 | the opener branch keeps the tokens |
| RootLexer.CloseAt | lexer.c:271-298 | the closer branch keeps the token count |
| RootLexer.PunctAt | lexer.c:299-320 | punctuation advances and emits a token |
| RootLexer.Branch | lexer.c:177-324 | the branch adds at most one literal |
| RootLexer.Step | lexer.c:164-328 | an iteration that goes on adds one token; one that stops adds none |
| RootLexer.Budget | lexer.c:263-289 | at most 255 in-place iterations before the cursor must move: an opener's counter rises until it wraps to 0, a closer's falls until it reaches 11 |
| RootLexer.Measure | lexer.c:164 | the termination measure is bounded |
| RootLexer.BranchMoves | lexer.c:256-298 | the cursor stays only when an opener or closer above depth 10 moves its row counter |
| RootLexer.Progress | lexer.c:164-328 | every iteration that does not stall lowers the measure |
| RootLexer.StalledRepeats | lexer.c:263-289 | a stalled iteration pushes INVALID and stalls again: the loop never ends |
| RootLexer.AdjacentPair | lexer.c:262-297 | an opener followed by its closer: each word carries the other's absolute token index |
| RootLexer.OpenStep | lexer.c:256-270 | an opener below depth 10 stores its index in its row slot |
| RootLexer.CloseStep | lexer.c:291-297 | a closer patches both words with the other's index |
| RootLexer.ParensRun | lexer.c:256-298 | `()` lexes to two tokens that name each other |
| RootLexer.EmptyParens | lexer.c:159-337 | `lex` on `()` yields the opener carrying index 1 and the closer index 0 |
| RootLexer.EleventhOpenerAliases | lexer.c:263-267 | an opener at depth 10 overwrites slot 0 of the next row |
| RootLexer.LexBuf.constructor | lexer.c:161 | `LexBuf res_buf = {}` holds three empty buffers |
| RootLexer.LexBuf.Result | lexer.c:330-336 | the result is the three buffers' contents |
| RootLexer.LexBuf.InternChar | lexer.c:27-30 | pushes one byte onto the intern buffer |
| RootLexer.LexBuf.InternStrview | lexer.c:37-51 | computes `InternView`, or reports the overrun |
| RootLexer.LexBuf.PushLit | lexer.c:53-56 | appends a literal and returns its index |
| RootLexer.LexBuf.PushToken | lexer.c:58-61 | appends a token |
| RootLexer.LexBuf.PatchToken | lexer.c:293 | rewrites one token in place |
| RootLexer.InternInto | lexer.c:37-51 | reserves the clipped length and copies the whole run |
| RootLexer.StoreWord | lexer.c:47-48 | the copy makes the reserved bytes live |
| RootLexer.ReserveIntern | lexer.c:39-42 | raises the length and grows when it exceeds the capacity |
| RootLexer.CopyInto | lexer.c:47-48 | `memcpy` writes the run at `start` and nothing else |
| RootLexer.InternMark | lexer.c:32-35 | the intern length truncated to 16 bits |
| RootLexer.ConsumeWs | lexer.c:70-74 | computes `SkipWs` |
| RootLexer.ConsumeComment | lexer.c:76-101 | computes `SkipComment` |
| RootLexer.ConsumeTrivia | lexer.c:166-168 | computes `SkipTrivia` |
| RootLexer.WordRun | lexer.c:197-199 | computes `WordEnd` |
| RootLexer.LexNumber | lexer.c:177-192 | computes `NumberAt` |
| RootLexer.LexLower | lexer.c:193-214 | computes `LowerAt` |
| RootLexer.LexUpper | lexer.c:215-228 | computes `UpperAt` |
| RootLexer.StringBody | lexer.c:234-249 | computes `StrLoop` |
| RootLexer.StringAtIs | lexer.c:250-254 | the string token holds the mark and `(mark - pos) << 8` |
| RootLexer.LexString | lexer.c:229-255 | computes `StringAt` |
| RootLexer.LexOpen | lexer.c:256-270 | computes `OpenAt` |
| RootLexer.CloseCases | lexer.c:278-297 | a closer above depth 10 gives INVALID; otherwise it pairs with its row's top |
| RootLexer.LexClose | lexer.c:271-298 | computes `CloseAt` |
| RootLexer.ClosePair | lexer.c:291-297 | the pairing half of the closer branch computes `CloseAt` |
| RootLexer.LexPunct | lexer.c:299-320 | computes `PunctAt` |
| RootLexer.Dispatch | lexer.c:177-324 | computes `Branch` |
| RootLexer.DispatchWord | lexer.c:177-255 | computes `Branch` for numbers, words and strings |
| RootLexer.DispatchSymbol | lexer.c:256-324 | computes `Branch` for brackets, punctuation and other bytes |
| RootLexer.DispatchBracket | lexer.c:256-298 | computes `Branch` for brackets |
| RootLexer.Iterate | lexer.c:164-328 | one iteration computes `Step`, and reports a stall instead of running it |
| RootLexer.EmitOne | lexer.c:173-327 | the branch and the push |
| RootLexer.Advance | lexer.c:164-328 | a stall means the loop hangs, a fault means it faults, and leaving at `end` yields the buffers |
| RootLexer.Setup | lexer.c:160-163 | empty buffers and zeroed scope arrays |
| RootLexer.Lex | lexer.c:159-337 | `lex` returns `LexSpec(src)` |
| RootLexer.LexLoop | lexer.c:164-336 | the loop computes `Run` |
| RootLexer.RunContinues | lexer.c:164-328 | an iteration that goes on keeps the loop's result and lowers the measure |
| RootParser.FlagPowers | parser.c:84-95 | the flags are bits 26 to 31 |
| RootParser.FlagsPresentBits | parser.c:116-119 | `flags_present` holds exactly when every flag bit is set |
| RootParser.ExtractRuleLow | parser.c:114 | `extract_rule` is the kind modulo 2^16 |
| RootParser.ExtractRuleDropsFlags | parser.c:114 | flag bits never reach the rule number |
| RootParser.ValIdOverreach | parser.c:173 | the written `& RULE_VAL_ID` accepts every odd rule and RULE_TYPE; `==` accepts only RULE_VAL_ID |
| RootParser.AndNine | parser.c:173 | `rule & 9` is non-zero exactly for odd rules and 8 |
| RootParser.ExpectsValIdExact | parser.c:173 | the corrected test ignores flags and only narrows the written one |
| RootParser.Push | parser.c:133-137 | `push_state` puts the state on top and leaves the other slots |
| RootParser.PushAll | parser.c:225-236 | successive pushes put the states on top in order |
| RootParser.Expose | parser.c:248-259 | storing a length keeps the slots |
| RootParser.Settle | parser.c:244-261 | the end of an iteration keeps the slots |
| RootParser.FnCase | parser.c:213-238 | the KW_FN case keeps the stack well formed |
| RootParser.ParenCase | parser.c:185-212 | the PAREN_O case keeps the stack well formed |
| RootParser.CopyName | parser.c:51-65 | the copied name is shorter than 256 bytes |
| RootParser.ValIdCase | parser.c:171-184 | the VAL_ID case, with the corrected `== RULE_VAL_ID` test, keeps the stack well formed |
| RootParser.Step | parser.c:158-262 | an iteration keeps the stack well formed |
| RootParser.Run | parser.c:158-262 | the iterations, with the corrected VAL_ID test, keep the stack well formed |
| RootParser.FnPushesSix | parser.c:225-236 | `fn` under FUNCTION replaces the focus with the six rules in order |
| RootParser.ValIdEmitsNode | parser.c:171-184 | a matched VAL_ID emits one node holding the copied name, a BINDING_NAME exactly under MISC |
| RootParser.NothingSkips | parser.c:244-251 | an unmatched optional rule consumes nothing; with SEQUENCE_START it drops `data - 1` more states |
| RootParser.MandatoryAborts | parser.c:253-254 | an unmatched mandatory rule aborts, and so does popping an empty stack |
| RootParser.UnknownTagFatal | parser.c:240-241 | any other tag is fatal |
| RootParser.ManyReexposes | parser.c:256-259 | a matched MANY rule re-exposes itself; SEQUENCE_END with MANY re-exposes `data` states |
| RootParser.ParenFallsThrough | parser.c:185-238 | `(` over ARGBINDLIST_BEGIN falls through into the KW_FN case |
| RootParser.NameRoundTrip | parser.c:51-65 | a name interned by the lexer reads back as its first `len mod 256` bytes |
| RootParser.ShortNameRoundTrip | parser.c:51-65 | a name of at most 255 bytes reads back whole |
| RootParser.LongNameRoundTrip | parser.c:51-65 | a longer name reads back as its first `len mod 256` bytes |
| RootParser.LengthPrefix | parser.c:56 | the bytes the 8-bit length keeps |
| RootParser.ReadBack | parser.c:56-64 | a record reads back as its first `len >> 8` bytes |
| RootParser.FirstStep | parser.c:156-262 | the first iteration: VAL_ID aborts, `(` faults, `fn` pushes six rules, anything else is fatal |
| RootParser.SecondStep | parser.c:158-262 | after `fn`, the second iteration aborts |
| RootParser.ParseHalts | parser.c:158-262 | a parse with a token halts within two iterations |
| RootParser.CurState | parser.c:146-149 | the top state, or a read below an empty stack |
| RootParser.InternLexInternedInto | parser.c:51-65 | the node's text starts at the old length and holds the copied bytes |
| RootParser.Finish | parser.c:244-261 | computes `Settle` |
| RootParser.PushState | parser.c:133-137 | computes `Push` |
| RootParser.PushFnRules | parser.c:225-236 | pushes the six rules |
| RootParser.PushArgRules | parser.c:192-206 | pushes the four argument rules |
| RootParser.FnStep | parser.c:213-238 | computes `FnCase` |
| RootParser.ParenStep | parser.c:185-212 | computes `ParenCase` |
| RootParser.ValIdStep | parser.c:171-184 | computes `ValIdCase`, with the corrected VAL_ID test |
| RootParser.Iterate | parser.c:158-262 | one iteration computes `Step`, with the corrected VAL_ID test |
| RootParser.Parse | parser.c:151-268 | no tokens give empty buffers; otherwise the parse halts as `Run` says within two iterations |
| RootParser.Turn | parser.c:158-262 | one turn of the loop on its first token |
| RootParser.EarlySteps | parser.c:158-262 | only `fn` continues, from the initial machine to the six rules |

## Left out

- `printf`, `err` messages, `main`, file reading, `mmap`/`munmap` and `free` are not modelled. `err`, `abort` and failed `assert`s become outcomes.
- `src/typer.c`, `arena.c` and the drivers' `main` are not part of this model.
- Floating point: `PHI` in `(float)inuse * PHI >= (float)encap` (src/hashtable.c:70) is approximated by 1.618034 in exact integer arithmetic. The rounding of the two `float` conversions is not modelled.
- `hash_kw` on x86-64 uses SIMD loads. It is modelled by the classification it computes.
- Pointers are modelled as offsets. Out-of-bounds reads and writes become `OutOfBounds`/`Faults`/`Faulted`/`Overrun` outcomes instead of undefined behaviour. The writes are the `{` stored at `stacks[2][10]` (lexer.c:267, `RootLexer.EleventhOpenerAliases`), the `memcpy` of a whole run longer than the reserved bytes (lexer.c:47-48, the `Overrun` case of `RootLexer.InternView`) and the as-written `insert_elem` move (common.h:90, `RootBuffer.DynBuf.InsertElemAsWritten`).
- RootParser.Expose and RootParser.Finish: a store to the state stack's `len` that exposes a slot inside the capacity that was never written is an immediate `Fault`, although the C would read whatever that slot holds.
- Parser.InsertIntern and Parser.ExpectName: src/parser.c:54, 76 and 152 read `as_typ_ident` and `as_val_ident`, which src/lexer.h does not define. Both are read as the `as_intern` view that src/lexer.h:13-18 does define.
- Buffer.DynBuf and RootBuffer.DynBuf: every operation that raises `len` requires it to stay below `MaxLen` (2^31 - 2 and 2^31 - 1), the domain in which `next_pow2` returns a power of two. The top-level bounds of `Lexer.Lex`, `RootLexer.Lex` and `Parser.Parse` below imply these for every buffer they use.
- `src/parser.c:188-193` pushes each sentinel with `sizeof(ExplicitArg)`. The element size is not modelled; each array gets one zeroed element of its own type.
- Parser.ParseBuf: holds `seq` fields instead of `DynamicArray`s. Growth of those six arrays is not modelled; `src/common.h` growth is modelled in `Buffer`.
- Lexer.Lex:
  - requires a source without NUL bytes, because a NUL reaches `strchr("({[", 0)` and then an out-of-range row;
  - requires fewer than 4 MiB of source, so that positions and counts fit their fields.
- Lexer.Lex: full pairing of balanced input is not proved. Balanced brackets of depth at most ten, outside strings and comments, are fully paired; the contract only states that every pair recorded is a nearest-opener pair and properly nested.
- RootLexer.Lex: requires a source shorter than 2^21 bytes, so every buffer, the token buffer included, stays inside the domain of `next_pow2`.
- Parser.Parse:
  - requires a lexer result with fewer than 2^23 tokens, all well formed;
  - does not state the outcome when the string set spins.
- StringSet.Rehash: `while (ben++ < een)` (src/hashtable.c:52) reads the slot one past the old table. The model treats that slot as empty.
- RootParser.Step: uses the corrected VAL_ID match (`== RULE_VAL_ID`), not the `&` at parser.c:173. `RootParser.FirstStep` shows the two agree on every state `parse` reaches.
- RootParser.ValIdCase: tests `== RULE_VAL_ID` where parser.c:173 tests `& RULE_VAL_ID`; the written test also accepts every odd rule and `RULE_TYPE` (`RootParser.ValIdOverreach`).
- RootParser.ValIdStep: computes `ValIdCase`, so it carries the same corrected test.
- RootParser.Run: iterates `Step`, so on every machine it uses the corrected VAL_ID test; `RootParser.Parse` is unaffected, as `RootParser.FirstStep` and `RootParser.SecondStep` show.
- RootParser.Iterate: computes `Step`, so it carries the same corrected test.
- Parser.Parse: follows the code as written. The intended argument loop and return type are specification functions only, `Parser.ArgsIntended` and `Parser.FnTailIntended`.
- Concurrency, allocation failure (`realloc` returning NULL) and memory release are not modelled.

## Findings

| source | as written | input that shows it | evidently intended | confidence | as-written member | corrected member |
|---|---|---|---|---|---|---|
| common.h:84-90 | `insert_elem` moves `len - idx` elements after the length was raised, so it writes slot `len` | insert at 0 into a buffer holding one pushed element (length 1, capacity 2) | move the `len - 1 - idx` live elements | not executed | RootBuffer.DynBuf.InsertElemAsWritten | RootBuffer.DynBuf.InsertElem |
| parser.c:173 | `extract_rule(kind) & RULE_VAL_ID` is a bitwise test | a VAL_ID token under RULE_TYPE (8) or RULE_COLON | `extract_rule(kind) == RULE_VAL_ID` | not executed | RootParser.ValIdOverreach | RootParser.ExpectsValIdExact |
| src/parser.c:170 | the token after the argument list is consumed whether or not it is `->` | `fn f() { return 1; }` | consume it only when it is `->` | not executed | Parser.NoArrowFatal | Parser.NoArrowIntended |
| src/parser.c:71 | `++lr->tokens` runs before the first test, so the first argument is read from its second token | `fn f(x: T) { }` | read from the token after `(` and step over the `)` | not executed | Parser.OneArgumentFatal | Parser.OneArgumentIntended |
