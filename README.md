# MiniC recursive-descent parser and ARM32 simple register allocator

This project models two hand-written parts of the MiniC educational compiler and proves
properties of them in Dafny.

**The recursive-descent parser** (`RecursiveDescentParser.cpp`):
- It is an LL(1) parser that builds the abstract syntax tree of a one-function MiniC program.
- Rules: `expr`, `returnStatement`, `assignExprStmt`/`assignExprStmtTail`, `statement`,
  `varDeclList`, `localVarDecl`, `BlockItem`, `BlockItemList`, `Block`, `funcDef`, `compileUnit`
  and the entry point `rd_parse`.
- Each rule is a method that threads the parser state through. The state is a `PState`: how many
  tokens the lexer has handed out, the error counter, and the diagnostics printed so far.
- The token stream is a `seq<Token>`. The lookahead is token `read - 1`. It is `T_EMPTY` before
  the first read, and the lexer answers `T_EOF` for ever once the input is used up.
- Trees are values of the datatype `Ast` (module `MiniCAst`).

**The simple register allocator** (`SimpleRegisterAllocator.cpp`):
- It hands out the registers 0 .. MaxUsableRegNum-1 to IR Values.
- When all registers are taken, it spills the oldest tracked Value.
- Module `RegisterPool` describes its state as a value `Pool`:
  - occupied registers;
  - registers ever used;
  - the tracked Values in allocation order;
  - the spill log;
  - the register id stored in each Value.
- `RegisterPool` also gives each operation as a function on `Pool` and proves the invariant and
  the allocation policy with lemmas.
- The class `Arm32RegisterAllocator.SimpleRegisterAllocator` is the imperative allocator. Its two
  bitmaps are arrays, updated in place. It has a `for` loop for the lowest free register and a
  `while` loop for `std::find_if`. Each public method is proved to compute the `RegisterPool`
  function of the old state. `Track` and `LogSpill`, which model steps inside Allocate (lines
  91-92 and 86), state their field updates directly.

Files:
- `wrappers.dfy`: `Option`.
- `ast.dfy`: tokens, tree nodes, messages.
- `parser.dfy`: the parser rules.
- `parser_props.dfy`: whole-program properties of the parser, concrete inputs, and the
  as-written `varDeclList`.
- `regpool.dfy`: the allocator as functions and lemmas.
- `allocator.dfy`: the allocator class.

The model follows the code as written:
- `statement` (lines 160-184) recognises only `return`. `localVarDecl` (line 231) and
  `assignExprStmt` (line 152) have no caller, so they are modelled stand-alone.
- Whenever Allocate spills, the code at line 83 reads the spilled Value's register after `free`
  has reset it. This happens on a full allocator and also when a requested register is held by a
  tracked Value. The model records this as Finding 1 below.
- The model follows the code's behaviour when assertions are compiled out: the fault path returns
  `(-1, null)`. It does not model a halt.

## Model

| member | source | states |
|---|---|---|
| RecursiveDescent.Advance | frontend/recursivedescent/RecursiveDescentParser.cpp:34-37 | the new lookahead is the next token of the stream; one more token read, counter and log untouched |
| RecursiveDescent.Match | frontend/recursivedescent/RecursiveDescentParser.cpp:44-57 | succeeds iff the lookahead carries the tag; then exactly one token is consumed, otherwise the state is unchanged |
| RecursiveDescent.SemError | frontend/recursivedescent/RecursiveDescentParser.cpp:63-78 | the counter grows by exactly one and one diagnostic with the lexer's current line is appended; no token is consumed |
| RecursiveDescent.Expr | frontend/recursivedescent/RecursiveDescentParser.cpp:82-96 | a literal node for the lookahead and one token consumed iff the lookahead is a digit; otherwise no node and nothing consumed |
| RecursiveDescent.ReturnStatement | frontend/recursivedescent/RecursiveDescentParser.cpp:100-118 | on `return`: a return node wrapping the optional literal, with the `;` consumed or exactly one error reported; otherwise no node and no change |
| RecursiveDescent.AssignExprStmtTail | frontend/recursivedescent/RecursiveDescentParser.cpp:121-146 | `=` with a left side builds an assignment of the optional literal; `=` without one reports one error and yields no node; any other lookahead returns the left side unchanged |
| RecursiveDescent.AssignExprStmt | frontend/recursivedescent/RecursiveDescentParser.cpp:152-158 | the four cases digit with `=`, digit alone, bare `=` (one error) and neither, each with its node and the tokens consumed |
| RecursiveDescent.Statement | frontend/recursivedescent/RecursiveDescentParser.cpp:165-184 | recognises only `return`: a return node, a missing `;` costs exactly one error but the node is kept; any other lookahead gives no node and consumes nothing |
| RecursiveDescent.VarDeclList | frontend/recursivedescent/RecursiveDescentParser.cpp:190-223 | for every input, the node keeps its kind and gains exactly one declared variable per identifier the rule picks out, in source order: `, ID` declares ID and goes on, a `,` without an identifier, `;` or the end of input stop, and any other token is skipped; the new state is the one the rule's recovery determines |
| RecursiveDescent.DeclListEndSpec | frontend/recursivedescent/RecursiveDescentParser.cpp:190-223 | the lexer only moves forward and the log only grows; errors never exceed the tokens consumed, plus one at the end of input; `;` ends the list one token on; `,` without an identifier is consumed and reported once; the end of input is reported once |
| RecursiveDescent.DeclListComplete | frontend/recursivedescent/RecursiveDescentParser.cpp:192-212 | a complete list `, id ... ;` declares exactly its identifiers, consumes its 2n+1 tokens and reports no error |
| RecursiveDescent.DeclListStep | frontend/recursivedescent/RecursiveDescentParser.cpp:192-208 | a declaration list starting with `, ID` declares that identifier first and continues two tokens on |
| RecursiveDescent.LocalVarDecl | frontend/recursivedescent/RecursiveDescentParser.cpp:231-262 | no node without `int`; `int` without an identifier reports one error and yields no node; otherwise, for every input, a declaration statement of the first variable followed by exactly the variables `varDeclList` declares; for a complete list, exactly the listed variables and no error |
| RecursiveDescent.BlockItem | frontend/recursivedescent/RecursiveDescentParser.cpp:267-270 | the same result as `statement` |
| RecursiveDescent.StepReturnsAt | frontend/recursivedescent/RecursiveDescentParser.cpp:284-291 | one loop step on `return` reads exactly the next statement of the input: its node, its width and its error |
| RecursiveDescent.RunExists | frontend/recursivedescent/RecursiveDescentParser.cpp:277-292 | every position starts a run of return statements, so the contracts of BlockItemList, Block and FuncDef stated for such a run cover every input |
| RecursiveDescent.BlockItemList | frontend/recursivedescent/RecursiveDescentParser.cpp:275-293 | appends return nodes after the existing children and stops at a lookahead that is not `return`; on a run of return statements the children are exactly their nodes in order, with one error per missing `;` |
| RecursiveDescent.RunStep | frontend/recursivedescent/RecursiveDescentParser.cpp:277-292 | one iteration of the loop keeps its invariant: the items read so far are the first statements of the input |
| RecursiveDescent.RunEnd | frontend/recursivedescent/RecursiveDescentParser.cpp:277-292 | when the loop stops, every statement of the input has been read |
| RecursiveDescent.Block | frontend/recursivedescent/RecursiveDescentParser.cpp:298-324 | no node and nothing consumed without `{`; `{ }` is an empty block; otherwise a block of return nodes, with a missing `}` reported exactly once; on return statements the block holds exactly their nodes |
| RecursiveDescent.FuncDef | frontend/recursivedescent/RecursiveDescentParser.cpp:331-377 | no `int`: no change; `int` then no identifier: no node and no error; missing `(` or `)`: exactly one error and no node; otherwise a function node named by the identifier holding the block, exactly determined by the statements of the body |
| RecursiveDescent.UnitFuncDef | frontend/recursivedescent/RecursiveDescentParser.cpp:385-394 | a compile-unit root with at most one child, added only when the lookahead is `int`; on a one-function program the root holds exactly that function |
| RecursiveDescent.ClosedProgram | frontend/recursivedescent/RecursiveDescentParser.cpp:388-394 | after a one-function program's function, the root holds it and the lookahead is the end of input |
| RecursiveDescent.CompileUnit | frontend/recursivedescent/RecursiveDescentParser.cpp:382-402 | a compile-unit node with at most one function child, added only on `int`; exactly one more error when the end of input does not follow; the exact tree and error count for a one-function program |
| RecursiveDescent.RdParse | frontend/recursivedescent/RecursiveDescentParser.cpp:408-424 | the tree is returned iff no error was counted; the counter starts at 0 and grows by one per diagnostic; for a one-function program the result is its tree or none, with one error per missing `;` |
| ParserProperties.MissingZeroIff | frontend/recursivedescent/RecursiveDescentParser.cpp:174-178 | the statements produce no error exactly when every return statement has its `;` |
| ParserProperties.PrintedReturns | frontend/recursivedescent/RecursiveDescentParser.cpp:272-275 | a printed run of return statements followed by `}` is read back as exactly those statements |
| ParserProperties.PrintedIsProgram | frontend/recursivedescent/RecursiveDescentParser.cpp:379-381 | a printed one-function program is a well-formed `funcDef EOF` input |
| ParserProperties.ParsePrinted | frontend/recursivedescent/RecursiveDescentParser.cpp:408-424 | round trip: parsing a printed program gives back its tree iff every `;` is there, otherwise no tree and one diagnostic per missing `;` |
| ParserProperties.ParseReturnOne | frontend/recursivedescent/RecursiveDescentParser.cpp:408-424 | `int main() { return 1; }` parses without error into compile unit / function / block / return / literal |
| ParserProperties.ParseMissingSemicolon | frontend/recursivedescent/RecursiveDescentParser.cpp:165-184 | `int main() { return 1 }` is rejected with exactly one diagnostic |
| ParserProperties.DeclareThree | frontend/recursivedescent/RecursiveDescentParser.cpp:231-252 | `int a, b, c;` declares a, b, c in order with no error, reading all seven tokens and leaving the end of input as the lookahead |
| ParserProperties.AsWrittenNeverEndsAtEof | frontend/recursivedescent/RecursiveDescentParser.cpp:214-221 | the written fallback never returns once the lexer is at the end of input, whatever the fuel |
| ParserProperties.AsWrittenOnDeclList | frontend/recursivedescent/RecursiveDescentParser.cpp:190-212 | on a complete declaration list the written rule gives the modelled rule's result |
| ParserProperties.AsWrittenAgrees | frontend/recursivedescent/RecursiveDescentParser.cpp:190-221 | whenever the written rule returns, its tree and state are the modelled rule's: the two differ only by looping at the end of input |
| ParserProperties.VarDeclListAsWritten | frontend/recursivedescent/RecursiveDescentParser.cpp:190-221 | the rule exactly as written, with fuel bounding its recursion; when it returns, the node keeps its kind and at least one token was read |
| ParserProperties.UnfinishedDeclaration | frontend/recursivedescent/RecursiveDescentParser.cpp:214-221 | `int a` then end of input: the written rule never returns; the modelled rule reports the end of input once and stops |
| RegisterPool.LowestFreeFrom | backend/arm32/SimpleRegisterAllocator.cpp:55-60 | the first register from k on that is free, -1 iff all from k on are occupied, and every register before it is occupied |
| RegisterPool.IndexOfReg | backend/arm32/SimpleRegisterAllocator.cpp:146-148 | the position of the first tracked Value with register no, or the end; no earlier Value holds no |
| RegisterPool.BitmapSet | backend/arm32/SimpleRegisterAllocator.cpp:164-168 | register no ends occupied and used, usedBitmap keeps covering regBitmap, and the tracked Values, ids and spill log are unchanged |
| RegisterPool.Free | backend/arm32/SimpleRegisterAllocator.cpp:133-158 | free(no) keeps usedBitmap and the spill log; a real no is left free; a returned Value held no and now has id -1 |
| RegisterPool.Assign | backend/arm32/SimpleRegisterAllocator.cpp:89-96 | the register ends occupied and used; a given Value gets it as its id and is appended to regValues; without a Value, the tracked list and ids are unchanged |
| RegisterPool.Allocate | backend/arm32/SimpleRegisterAllocator.cpp:32-99 | Allocate(var, no) with the line-83 fix: the register returned is -1 or a real one; -1 spills nothing; the spill log grows by exactly the spilled Value, if any |
| RegisterPool.ForceAllocate | backend/arm32/SimpleRegisterAllocator.cpp:105-117 | Allocate(no): register no ends occupied and used, and the spill log is unchanged |
| RegisterPool.FreeValue | backend/arm32/SimpleRegisterAllocator.cpp:123-127 | free(var): usedBitmap and the spill log are unchanged; the Value's register, if any, is left free; a Value with no register changes nothing |
| RegisterPool.FreeSpec | backend/arm32/SimpleRegisterAllocator.cpp:133-158 | a negative no changes nothing; otherwise register no is released, its holder (if any) is returned, loses its id and leaves the tracked list with the others in order, and nothing else changes |
| RegisterPool.FreeHolder | backend/arm32/SimpleRegisterAllocator.cpp:143-155 | the exact state after freeing the register of the i-th tracked Value |
| RegisterPool.FreeNoHolder | backend/arm32/SimpleRegisterAllocator.cpp:143-150 | freeing a register no tracked Value holds only clears its bit and returns nothing |
| RegisterPool.RemoveTrackedPreserves | backend/arm32/SimpleRegisterAllocator.cpp:150-155 | releasing a tracked Value's register keeps the invariant |
| RegisterPool.FreePreserves | backend/arm32/SimpleRegisterAllocator.cpp:133-158 | free keeps the invariant |
| RegisterPool.AssignPreserves | backend/arm32/SimpleRegisterAllocator.cpp:89-96 | giving a free register to an untracked Value keeps the invariant |
| RegisterPool.SpillPreserves | backend/arm32/SimpleRegisterAllocator.cpp:68-96 | the spill path keeps the invariant, forgets no used register and only appends to the spill log |
| RegisterPool.AllocatePreserves | backend/arm32/SimpleRegisterAllocator.cpp:32-99 | Allocate keeps the invariant when the Value is untracked or already holds no; usedBitmap only grows and spillValues only gets appended to |
| RegisterPool.IdempotentRequest | backend/arm32/SimpleRegisterAllocator.cpp:42-44 | requesting the register a Value already holds returns it, spills nothing and changes no state |
| RegisterPool.LowestFreeGranted | backend/arm32/SimpleRegisterAllocator.cpp:53-98 | with a free register and no request, the lowest free register is granted with no spill; both bitmaps gain it, the Value is appended and gets its id, and every other Value keeps its id |
| RegisterPool.FifoSpill | backend/arm32/SimpleRegisterAllocator.cpp:63-87 | with every register occupied and no request, the oldest tracked Value is spilled: it loses its id and leaves the list, is logged, and its register goes to the new Value, which becomes the newest; both bitmaps are unchanged and every other Value keeps its id |
| RegisterPool.RequestedFreeGranted | backend/arm32/SimpleRegisterAllocator.cpp:46-51 | a requested free register is granted as is, with no spill |
| RegisterPool.RequestedDisplaces | backend/arm32/SimpleRegisterAllocator.cpp:46-96 | a requested register held by a tracked Value evicts exactly that Value, logs it, keeps the others in order and gives the register to the new Value; both bitmaps are unchanged and every other Value keeps its id |
| RegisterPool.FaultIff | backend/arm32/SimpleRegisterAllocator.cpp:68-79 | Allocate returns -1 iff a register was requested that is occupied but held by no tracked Value; the fault spills nothing and leaves the pool with only that register released, since `free(no)` runs before the check |
| RegisterPool.ForceAllocatePreserves | backend/arm32/SimpleRegisterAllocator.cpp:105-117 | Allocate(no) keeps the invariant |
| RegisterPool.ForceAllocateSpec | backend/arm32/SimpleRegisterAllocator.cpp:105-117 | register no becomes occupied and used and the spill log is unchanged; a tracked holder leaves the list with the others in order and is the only Value whose id changes, to -1; with no tracked holder the tracked Values and all ids are unchanged; no tracked Value holds no afterwards |
| RegisterPool.FreeValueSpec | backend/arm32/SimpleRegisterAllocator.cpp:123-127 | for a tracked Value, the exact new state: its register is cleared, it leaves the list with the others in order, only its id changes, to -1, and usedBitmap and the spill log are unchanged; a Value with id -1 changes nothing; the invariant is kept |
| RegisterPool.HeldBySize | backend/arm32/SimpleRegisterAllocator.cpp:89-96 | the first n tracked Values hold n distinct occupied registers |
| RegisterPool.TrackedCount | backend/arm32/SimpleRegisterAllocator.cpp:89-96 | no more Values are tracked than registers are occupied, and no more than MaxUsableRegNum |
| RegisterPool.FillStep | backend/arm32/SimpleRegisterAllocator.cpp:53-98 | from the empty allocator, the i-th new Value with no request gets register i, with no spill |
| RegisterPool.FullThenFifo | backend/arm32/SimpleRegisterAllocator.cpp:63-87 | after MaxUsableRegNum Values fill the allocator, one more evicts the first and takes register 0 |
| RegisterPool.FreeThenReallocate | backend/arm32/SimpleRegisterAllocator.cpp:133-158 | after a tracked Value's register is freed, the next unrequested allocation spills nothing and gets at most that register, exactly it when all lower ones are occupied |
| RegisterPool.AllocateFreeRoundTrip | backend/arm32/SimpleRegisterAllocator.cpp:89-158 | allocating a fresh Value and freeing its register restores the allocator, except that the register stays marked used |
| RegisterPool.AsWrittenSpillLosesRegister | backend/arm32/SimpleRegisterAllocator.cpp:68-96 | on either spill path (all registers occupied and no request, or a requested register held by a tracked Value) the written code throws out of bitmapSet(-1): the spill is logged and the new Value is tracked with id -1, but nothing is returned, the freed register stays free and the invariant breaks; the corrected Allocate returns the freed register and the spilled Value |
| RegisterPool.AllocateAsWritten | backend/arm32/SimpleRegisterAllocator.cpp:32-99 | Allocate(var, no) as written, with the throw of `std::bitset::set`: a throw happens only after a spill was logged, and a returned register is a real one or -1 |
| RegisterPool.AsWrittenWithoutSpill | backend/arm32/SimpleRegisterAllocator.cpp:32-99 | where the corrected Allocate spills nothing, the written one leaves the same state and returns the same result |
| Arm32RegisterAllocator.SimpleRegisterAllocator.constructor | backend/arm32/SimpleRegisterAllocator.cpp:24-25 | a new allocator is empty and satisfies the invariant |
| Arm32RegisterAllocator.SimpleRegisterAllocator.BitmapSet | backend/arm32/SimpleRegisterAllocator.cpp:164-168 | sets the bit of no in both bitmaps and nothing else |
| Arm32RegisterAllocator.SimpleRegisterAllocator.LowestFreeRegister | backend/arm32/SimpleRegisterAllocator.cpp:55-60 | the loop finds the lowest free register, or -1 when all are occupied |
| Arm32RegisterAllocator.SimpleRegisterAllocator.FindHolder | backend/arm32/SimpleRegisterAllocator.cpp:146-148 | the scan stops at the first tracked Value holding no, or at the end |
| Arm32RegisterAllocator.SimpleRegisterAllocator.Free | backend/arm32/SimpleRegisterAllocator.cpp:133-158 | computes free(no) on the old state and keeps the invariant |
| Arm32RegisterAllocator.SimpleRegisterAllocator.FreeValue | backend/arm32/SimpleRegisterAllocator.cpp:123-127 | computes free(var) on the old state and keeps the invariant |
| Arm32RegisterAllocator.SimpleRegisterAllocator.ForceAllocate | backend/arm32/SimpleRegisterAllocator.cpp:105-117 | computes Allocate(no) on the old state and keeps the invariant |
| Arm32RegisterAllocator.SimpleRegisterAllocator.Track | backend/arm32/SimpleRegisterAllocator.cpp:91-92 | sets the Value's register id and appends it to regValues; nothing else changes |
| Arm32RegisterAllocator.SimpleRegisterAllocator.LogSpill | backend/arm32/SimpleRegisterAllocator.cpp:86 | appends the spilled Value to spillValues; nothing else changes |
| Arm32RegisterAllocator.SimpleRegisterAllocator.Allocate | backend/arm32/SimpleRegisterAllocator.cpp:32-99 | returns the register and spilled Value of the intended Allocate(var, no) and leaves its new state; keeps the invariant when the Value is untracked or already holds no |

## Left out

- The lexer `rd_flex`, with `rd_lval` and `rd_line_no`, is not part of this model. Its output is
  the token sequence, and each token carries its literal, name and line.
- The model assumes the lexer answers `T_EOF` again and again at the end of input.
  ParserProperties.AsWrittenAgrees also assumes that no token of the sequence is `T_EOF`; the end of input lies past it.
- Diagnostic formatting (`vsnprintf`, `printf`) is left out. A diagnostic keeps only the line and
  the message; an illegal token keeps its tag.
- The AST helpers (`create_contain_node`, `create_func_def`, `add_var_decl_node`,
  `insert_son_node`, `ast_node::New`) are datatype constructors and child appends here.
  - A null child is never inserted.
  - Both ways `return` nodes are built are taken to drop a null expression.
  - The `int` type attribute of functions and declarations is not stored, since it is always `int`.
- Memory ownership and the partial trees leaked when `rd_parse` returns null are left out.
- RecursiveDescent.VarDeclList: deviation from the source. At the end of input the fallback
  reports once and returns, instead of skipping the token and calling itself again, so the rule
  terminates. The written behaviour is Finding 2.
- RecursiveDescent.RdParse: the exact tree is stated only for inputs of the form
  `int id ( ) { return statements } EOF`. For other inputs it states the root's shape and the
  error accounting.
- RecursiveDescent.CompileUnit: the same limit as RdParse.
- `PlatformArm32::maxUsableRegNum` comes from a platform header that is not part of this model.
  The model uses 13 (r0 to r12).
- A Value object is its identity `ValueId`. Its register id, set by `Value::setRegId`, is the
  allocator's `regIds` map; a missing entry means -1.
- `assert(false && ...)` at line 78 is not modelled as a halt. The fault is the result
  `(-1, none)`, as when assertions are compiled out, and FaultIff says exactly when it happens.
- Arm32RegisterAllocator.SimpleRegisterAllocator.Allocate: requires `-1 <= no < MaxUsableRegNum`,
  because the bitset is indexed directly.
  - It also requires a tracked Value whenever no register is free and none is requested, because
    the source reads `regValues[0]`.
  - It promises the invariant only when the Value is untracked or already holds `no`. Otherwise
    the source tracks the Value twice.
- Arm32RegisterAllocator.SimpleRegisterAllocator.ForceAllocate: requires a real register.
  `std::bitset::test` rejects other indices.
- RegisterPool.Free: requires `no < MaxUsableRegNum`. For a larger no, `std::bitset::reset` at
  line 143 throws `std::out_of_range`, and the model does not represent that throw.
- Arm32RegisterAllocator.SimpleRegisterAllocator.Free: the same requires as RegisterPool.Free, for
  the same reason.
- Arm32RegisterAllocator.SimpleRegisterAllocator.FreeValue: requires the Value's id to be below
  MaxUsableRegNum, for the same reason.

## Findings

| source | as written | input that shows it | evidently intended | confidence | as-written member | corrected member |
|---|---|---|---|---|---|---|
| backend/arm32/SimpleRegisterAllocator.cpp:83 | after spilling, the register number is read back from the spilled Value after free has reset its id to -1; the new Value is tracked with id -1 and the spill is logged, then `bitmapSet(-1)` throws `std::out_of_range` from `std::bitset::set`, so nothing is returned and the freed register stays free | every register held by a tracked Value, then `Allocate(v, -1)`; or `Allocate(v, r)` with r held by a tracked Value | hand over the register just freed (`no`, or the id of `regValues[0]` before the free) | not executed | RegisterPool.AsWrittenSpillLosesRegister | RegisterPool.FifoSpill |
| frontend/recursivedescent/RecursiveDescentParser.cpp:214-221 | the fallback of varDeclList reports the lookahead, advances and calls itself again, also when the lookahead is the end of input; the loop is latent, since `localVarDecl` (line 231) has no caller and `statement` accepts only `return`, so `rd_parse` as shipped cannot reach it | calling `localVarDecl` directly on `int a` followed by the end of input | report the end of input once and stop | not executed; assumes the lexer keeps answering end of input | ParserProperties.AsWrittenNeverEndsAtEof | RecursiveDescent.VarDeclList |
