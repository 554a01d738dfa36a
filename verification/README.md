# kedi-lang compiler core in Dafny

A model of the middle and back end of the kedi-lang compiler. The model is pure functions over immutable datatypes, with every counter, table, depth stack and fuel count threaded through explicitly. The repository has two snapshots and both are modelled:

- the newer `compiler/`: source locations and tags, the renamer, the simplifier, the peephole passes, its partial code generator, its primitive table, its pairwise call linker and its module assembly;
- the older `compiler_old/`: the structured code generator with break-depth accounting, the primitive table with boxing, the demand-driven linker, module assembly with type interning, and the fuel-bounded reference interpreter.

Files, one module each:

- `wrappers.dfy` (`Wrappers`): `Option` and `Result`.
- `ints.dfy` (`Ints`): 32-bit literals and `as u32`.
- `ax.dfy` (`AxPair`): the attachment/value pair.
- `loc.dfy` (`Loc`): spans, `SrcLoc`, the tag table.
- `located.dfy` (`Located`): the parser's located nodes.
- `syntax.dfy` (`Syntax`), `plain.dfy` (`PlainIR`), `simple_ir.dfy` (`SimpleIR`): the three trees the passes read and write. One simplified IR serves both snapshots, whose field names differ.
- `renamer.dfy` (`Renamer`), `simplifier.dfy` (`Simplifier`), `peephole.dfy` (`Peephole`): the middle end.
- `wasm.dfy` (`Wasm`): one instruction datatype for both back ends. It also holds the label discipline of section 2.4.8 of the WebAssembly Core Specification 2.0, used to state that generated code is balanced.
- `codegen_old.dfy` (`CodegenOld`), `codegen_new.dfy` (`CodegenNew`): the two code generators.
- `prims.dfy` (`Prims`): both primitive tables.
- `linker_old.dfy` (`LinkerOld`), `linker_new.dfy` (`LinkerNew`): the two linkers.
- `mk_wasm.dfy` (`MkWasm`): both module assemblers. Sections are abstract sequences in the order of section 5.5 of the WebAssembly Core Specification 2.0.
- `value.dfy` (`Values`), `interpreter.dfy` (`Interpreter`): the reference interpreter.

A `todo!` or `unimplemented!` arm is a precondition, except in the interpreter, where they are outcomes. A panic on data (`unwrap`, `panic!`, and an unsigned underflow with overflow checks on, as in debug and test builds) is an explicit error outcome.

## Model

| member | source | states |
|---|---|---|
| AxPair.Map | compiler/src/util/ax.rs:33-35 | `map` keeps the attachment and applies `f` to the value |
| AxPair.MapA | compiler/src/util/ax.rs:37-39 | `map_a` keeps the value and applies `f` to the attachment |
| AxPair.TransposeResult | compiler/src/util/ax.rs:52-56 | `Ok(v)` becomes `Ok(ax(a, v))`; an error passes through unchanged |
| AxPair.TransposeOption | compiler/src/util/ax.rs:58-62 | `Some(v)` becomes `Some(ax(a, v))`; `None` stays `None` |
| AxPair.UnitEqIsEquality | compiler/src/util/ax.rs:16-20 | with a unit attachment, comparing only the values is exactly equality of the pairs |
| AxPair.MapIdentity | compiler/src/util/ax.rs:33-35 | `map` with the identity changes nothing |
| AxPair.MapCompose | compiler/src/util/ax.rs:33-35 | mapping twice is mapping once with the composition |
| AxPair.MapCommutesWithMapA | compiler/src/util/ax.rs:33-39 | `map` and `map_a` commute |
| AxPair.TransposeOfMapOk | compiler/src/util/ax.rs:33-56 | `transpose` undoes `map(Ok)` |
| Loc.Enclosing | compiler/src/util/loc.rs:64-78 | the merged span starts at the smaller start, ends at the larger end, and contains both inputs |
| Loc.EnclosingIsLeast | compiler/src/util/loc.rs:64-78 | every span containing both inputs contains their merge |
| Loc.EnclosingCommutative | compiler/src/util/loc.rs:64-78 | argument order does not matter |
| Loc.EnclosingIdempotent | compiler/src/util/loc.rs:64-78 | merging a span with itself gives the span |
| Loc.EnclosingAssociative | compiler/src/util/loc.rs:64-78 | merging is associative, so a fold's grouping does not matter |
| Loc.FromOffsetsAsWritten | compiler/src/util/loc.rs:80-85 | the code as written yields a span exactly when `start <= end`, and its length is `end - start`; reversed offsets underflow |
| Loc.FromOffsetsReversedFails | compiler/src/util/loc.rs:80-85 | offsets 5 and 3 make the code as written fail, while the clamp gives an empty span at 5 |
| Loc.FromOffsets | compiler/src/util/loc.rs:80-89 | the clamped span starts at `start`, ends at `end` when `start <= end` and is empty otherwise, and agrees with the code as written wherever that succeeds |
| Loc.FromOffsetLen | compiler/src/util/loc.rs:91-96 | no contract of its own: `FromOffsetLenAgrees` states it equals `from_offsets(s, s + n)` |
| Loc.FromOffsetLenAgrees | compiler/src/util/loc.rs:91-96 | `from_offset_len(s, n)` is `from_offsets(s, s + n)` and ends at `s + n` |
| Loc.SrcLocEnclosing | compiler/src/util/loc.rs:110-117 | `Unknown` is the identity on either side; two known spans merge with `Span::enclosing`; two `Unknown`s give `Unknown` |
| Loc.SrcLocEnclosingCommutative | compiler/src/util/loc.rs:110-117 | merging locations is commutative |
| Loc.AllEnclosing | compiler/src/util/loc.rs:119-122 | the fold is `Unknown` exactly when every location is; otherwise it contains every known span, and its start and end are each attained by one of them |
| Loc.Attach | compiler/src/util/loc.rs:106-108 | `attach` keeps the payload and makes the location its attachment |
| Loc.KnownAt | compiler/src/util/loc.rs:20-22 | `WithLoc::known` is `attach` of a known span |
| Loc.UnknownAt | compiler/src/util/loc.rs:24-26 | `WithLoc::unknown` is `attach` of `Unknown` |
| Loc.NewTagMap | compiler/src/util/loc.rs:179-184 | a new table has issued no tag |
| Loc.ResolveTag | compiler/src/util/loc.rs:196-201 | no contract of its own: `ResolveUnissued` (an unissued tag gives `Unknown`), `GetTag` and `GetTags` (an issued tag gives its location) state it |
| Loc.ResolveUnissued | compiler/src/util/loc.rs:196-201 | a tag never issued resolves to `Unknown` |
| Loc.GetTag | compiler/src/util/loc.rs:186-194 | the tag is the counter's value and was not issued before; it resolves to the given location; every other tag resolves as before |
| Loc.ToTagged | compiler/src/util/loc.rs:28-31 | the payload is unchanged; the fresh tag resolves back to the replaced location |
| Loc.GetTags | compiler/src/util/loc.rs:186-194 | repeated `get_tag` issues the consecutive counter values, each resolving to its own location, and leaves earlier tags alone |
| Loc.FreshTagsAreDistinct | compiler/src/util/loc.rs:179-201 | from a new table the tags are 0, 1, 2, ... in call order, pairwise distinct, each resolving to its location |
| Located.Known | compiler/src/parser/located.rs:16-21 | `known` attaches `Known(span)` and keeps the value |
| Located.Unknown | compiler/src/parser/located.rs:23-28 | `unknown` attaches `Unknown` and keeps the value |
| Located.Map | compiler/src/parser/located.rs:30-35 | `map` keeps the location and applies `f` to the value |
| Located.AgreesWithWithLoc | compiler/src/parser/located.rs:16-35 | the parser's `known`, `unknown` and `map` agree with the newer `WithLoc` ones |
| Located.AttachAsWritten | compiler/src/parser/located.rs:90-95 | `attach` always yields an `Unknown` location, whatever `self` is |
| Located.AttachDropsKnownLocation | compiler/src/parser/located.rs:90-95 | attaching a known location loses it, while the newer `attach` keeps it |
| Renamer.IndexOf | compiler/src/renamer/renamer.rs:99-100 | the id of a bound name is its unique position in the duplicate-free table |
| Renamer.NewEnv | compiler/src/renamer/renamer.rs:104-111 | a new environment binds nothing and is valid |
| Renamer.MkNewLocal | compiler/src/renamer/renamer.rs:113-123 | fails with a duplicate error exactly when the name is bound; otherwise returns the next local id and appends the name |
| Renamer.GetGlobal | compiler/src/renamer/renamer.rs:125-136 | a known name keeps its id and the environment; a new name gets the next id; the id names the name afterwards |
| Renamer.GetGlobalIdempotent | compiler/src/renamer/renamer.rs:125-136 | interning a name twice gives the same id and environment as once |
| Renamer.GetGlobalDistinct | compiler/src/renamer/renamer.rs:125-136 | two different names never share a global id |
| Renamer.Resolve | compiler/src/renamer/renamer.rs:138-143 | a locally bound name becomes its `Local` id with the environment unchanged; any other name becomes an interned `Global` |
| Renamer.RenameExpr | compiler/src/renamer/renamer.rs:75-83 | locals are untouched, globals only grow, and the result mentions only ids bound afterwards |
| Renamer.RenameArgs | compiler/src/renamer/renamer.rs:85-93 | the arguments are renamed left to right, one result each, all in scope |
| Renamer.RenameParams | compiler/src/renamer/renamer.rs:34-40 | fails exactly when a parameter repeats or is already bound; otherwise the i-th parameter gets the i-th next local id |
| Renamer.RenameStmt | compiler/src/renamer/renamer.rs:58-73 | a `let` binds its name before its value is renamed and fails exactly on a name already bound; `return` never fails |
| Renamer.RenameStmts | compiler/src/renamer/renamer.rs:42-45 | on success the `let` names are appended to the locals in order, and every statement is in scope |
| Renamer.RenameStmtsOkIff | compiler/src/renamer/renamer.rs:42-45 | renaming a body succeeds exactly when its `let` names are fresh, and a failure names one of them |
| Renamer.RenameStmtsLetIds | compiler/src/renamer/renamer.rs:58-64 | the i-th `let` of the renamed body binds the i-th next local id |
| Renamer.RenameFunctionEnv | compiler/src/renamer/renamer.rs:28-45 | succeeds exactly when parameters and `let`s hold no name twice; parameters are locals 0..P-1 and the `let`s follow in order |
| Renamer.RenameFunction | compiler/src/renamer/renamer.rs:28-56 | as written: same success condition, parameters 0..P-1, name kept, and `refs` always empty |
| Renamer.RenamedCallHasNoRef | compiler/src/renamer/renamer.rs:54 | `fun f() { return g() }` renames to a call of global 0 that `refs` does not name |
| Renamer.RenameFunctionWithRefs | compiler/src/renamer/renamer.rs:28-56 | with the global table as `refs`: each name once, every id of the body in scope, and the body reads back to the source through the tables |
| Renamer.RenameExprRoundTrip | compiler/src/renamer/renamer.rs:75-93 | reading the renamed expression back through the final tables gives the original expression |
| Renamer.RenameArgsRoundTrip | compiler/src/renamer/renamer.rs:85-93 | the renamed arguments read back to the original arguments |
| Renamer.RenameStmtRoundTrip | compiler/src/renamer/renamer.rs:58-73 | a renamed statement reads back to the original |
| Renamer.RenameStmtsRoundTrip | compiler/src/renamer/renamer.rs:42-45 | a renamed body reads back to the original |
| Renamer.RenameFunctionRoundTrip | compiler/src/renamer/renamer.rs:28-56 | a renamed function's parameter ids and body read back to the source function |
| Renamer.RenameModule | compiler/src/renamer/renamer.rs:8-17 | as written: succeeds exactly when no function repeats a binding; then the i-th result is `rename_function` of the i-th function, with empty `refs` |
| Renamer.RenameModuleWithRefs | compiler/src/renamer/renamer.rs:8-17 | with the corrected `rename_function`: same success condition, and the i-th result carries its function's global table as `refs` |
| Renamer.RenameModuleDropsRefs | compiler/src/renamer/renamer.rs:8-17 | the as-written and corrected modules succeed together and differ only in `refs`, which the code as written empties |
| Simplifier.NewState | compiler/src/simplifier/simplifier.rs:173-179 | temporaries and labels both start at 1 |
| Simplifier.FreshSingleUse | compiler/src/simplifier/simplifier.rs:181-187 | hands out the counter and advances it; labels untouched |
| Simplifier.FreshLabel | compiler/src/simplifier/simplifier.rs:241-245 | hands out the label counter and advances it; temporaries untouched |
| Simplifier.CompileExpr | compiler/src/simplifier/simplifier.rs:189-239 | the temporaries assigned are exactly the next ones, in order; a variable emits nothing and is its own result; a literal emits one assignment of a fresh temporary; a call ends with the `Call` assignment of the last temporary |
| Simplifier.CompileArgs | compiler/src/simplifier/simplifier.rs:218-221 | arguments compile left to right, one identifier each, a variable exactly when the argument is one, temporaries in order |
| Simplifier.SimplifyStmt | compiler/src/simplifier/simplifier.rs:78-138 | assigns exactly the next temporaries, opens exactly the next labels, and every `Break` names its innermost loop |
| Simplifier.SimplifyBlock | compiler/src/simplifier/simplifier.rs:71-164 | the same three facts for a whole block, state threaded in order |
| Simplifier.SimplifyBlockAppend | compiler/src/simplifier/simplifier.rs:71-77 | the code of `a + b` is the code of `a` followed by the code of `b`, lowered from the state `a` leaves |
| Simplifier.StmtLoweringCorrect | compiler/src/simplifier/simplifier.rs:78-138 | `return e`, `let x = e` and `x = e` lower to straight-line code that leaves the value of `e` in one identifier, then `Return` of it or its assignment to the local `x` |
| Simplifier.WhileLowering | compiler/src/simplifier/simplifier.rs:96-123 | `while c { body }` lowers to one `Loop` under the next label: the code computing `c` into the tested identifier, `If(c) {} else { Break }` out of that loop, then the lowered body |
| Simplifier.LoopBodyFacts | compiler/src/simplifier/simplifier.rs:96-123 | the lowered `while` body is the condition's code, `If(c, [], else [Break(l)])`, then the body: its temporaries and labels come in that order, and it breaks only to its own loop |
| Simplifier.SingleLoopFacts | compiler/src/simplifier/simplifier.rs:116-122 | the `Loop` adds its label before its body's labels and keeps the body's temporaries |
| Simplifier.ExitFacts | compiler/src/simplifier/simplifier.rs:105-111 | the exit test assigns nothing, opens no label, and breaks to the loop it is in |
| Simplifier.FlatCodeFacts | compiler/src/simplifier/simplifier.rs:78-138 | `return`, `let` and assignment emit flat code plus one final statement, with no label and no break |
| Simplifier.SimplifyFunction | compiler/src/simplifier/simplifier.rs:32-69 | a fresh state per function: temporaries and labels are 1, 2, ... with no gap, and every break names its innermost loop; name, parameters and `refs` are kept |
| Simplifier.OptimizeFunction | compiler/src/simplifier/simplifier.rs:19 | the peephole passes (prune, then filter) leave no top-level `Nop`, never lengthen the body, and keep the name, parameters and `refs` |
| Simplifier.SimplifyModule | compiler/src/simplifier/simplifier.rs:11-22 | every function is simplified and then optimised, in order |
| Simplifier.CompileExprCorrect | compiler/src/simplifier/simplifier.rs:189-239 | run from any older temporaries, the flattened code never gets stuck, only adds entries, and leaves the value of the expression in the result identifier |
| Simplifier.CompileArgsCorrect | compiler/src/simplifier/simplifier.rs:215-235 | the arguments' flattened code leaves each argument's value in its identifier |
| Peephole.TargetTemp | compiler/src/simplifier/optimizations/prune_single_use.rs:34-41 | a temporary exactly when the statement assigns a single-use identifier, and then that one |
| Peephole.ValueTemp | compiler/src/simplifier/optimizations/prune_single_use.rs:43-50 | a temporary exactly when the statement copies a single-use identifier, and then that one |
| Peephole.Fires | compiler/src/simplifier/optimizations/prune_single_use.rs:13-21 | no contract of its own: `FiresMeans` states it fires exactly on an assignment to a temporary followed by an assignment copying that temporary |
| Peephole.FiresMeans | compiler/src/simplifier/optimizations/prune_single_use.rs:13-21 | the rewrite fires exactly on two assignments, the first to a temporary and the second copying that temporary |
| Peephole.PruneSingleUse | compiler/src/simplifier/optimizations/prune_single_use.rs:3-31 | the in-place two-index scan computes the recursive definition of the pass |
| Peephole.ScanFires | compiler/src/simplifier/optimizations/prune_single_use.rs:21-24 | a firing step keeps the loop invariant: the second statement takes the value, the first becomes `Nop` with its tag |
| Peephole.ScanSkips | compiler/src/simplifier/optimizations/prune_single_use.rs:26-30 | a non-firing step keeps the loop invariant |
| Peephole.PrunePointwise | compiler/src/simplifier/optimizations/prune_single_use.rs:10-31 | the scan equals a pointwise description in terms of the input: length and tags kept, exactly the firing positions become `Nop`, the value carried along a chain of firings reaches its end |
| Peephole.PruneProperties | compiler/src/simplifier/optimizations/prune_single_use.rs:3-31 | same length and tags; non-assignments such as `Loop`/`If` untouched; non-firing pairs untouched; `Nop` exactly where it fired or was; afterwards no surviving statement fires with its successor |
| Peephole.RemoveNops | compiler/src/simplifier/optimizations/remove_nops.rs:3-8 | no `Nop` is left and the body never grows |
| Peephole.RemoveNopsContents | compiler/src/simplifier/optimizations/remove_nops.rs:3-8 | the result holds exactly the statements that are not `Nop` |
| Peephole.RemoveNopsAppend | compiler/src/simplifier/optimizations/remove_nops.rs:3-8 | the filter distributes over concatenation, so relative order is kept |
| Peephole.RemoveNopsLength | compiler/src/simplifier/optimizations/remove_nops.rs:3-8 | the length drops by exactly the number of `Nop`s |
| Peephole.RemoveNopsNoNops | compiler/src/simplifier/optimizations/remove_nops.rs:3-8 | a body with no `Nop` is unchanged |
| Peephole.RemoveNopsIdempotent | compiler/src/simplifier/optimizations/remove_nops.rs:3-8 | filtering twice is filtering once |
| Peephole.RemoveNopsOld | compiler_old/src/simplifier/optimizations/remove_nops.rs:3-8 | the older filter leaves no top-level `Nop` |
| Peephole.RemoveNopsOldContents | compiler_old/src/simplifier/optimizations/remove_nops.rs:3-8 | the older filter keeps exactly the statements that are not `Nop` |
| Peephole.RemoveNopsOldAgrees | compiler_old/src/simplifier/optimizations/remove_nops.rs:3-8 | once tags are erased the older filter is the newer one, so it keeps order too |
| Peephole.RemoveNopsOldIdempotent | compiler_old/src/simplifier/optimizations/remove_nops.rs:3-8 | the older filter is idempotent |
| Peephole.Optimize | compiler_old/src/simplifier/optimizations/mod.rs:6-16 | prune, then filter: no `Nop` left and no growth |
| Peephole.OptimizeKeepsTags | compiler_old/src/simplifier/optimizations/mod.rs:6-16 | every tag of the result is the tag of some input statement |
| CodegenOld.EmptySlots | compiler_old/src/codegen_wasm/codegen.rs:195-203 | new tables hand out no slot |
| CodegenOld.RegisterParam | compiler_old/src/codegen_wasm/codegen.rs:205-211 | fails exactly once a local or temporary exists; otherwise the parameter takes the next parameter slot |
| CodegenOld.ParamsTakeLeadingSlots | compiler_old/src/codegen_wasm/codegen.rs:32-34 | distinct parameters take slots 0..P-1 in order and the tables are well formed |
| CodegenOld.NoLocalsNoFailure | compiler_old/src/codegen_wasm/codegen.rs:205-211 | registering parameters never fails while no local or temporary exists |
| CodegenOld.RegisterParams | compiler_old/src/codegen_wasm/codegen.rs:32-34 | registering in order fails exactly when there is a parameter to register and a local or temporary already has a slot; otherwise every parameter has a slot, earlier ones keep theirs, and no local or temporary is added |
| CodegenOld.RegisterParamsFromEmpty | compiler_old/src/codegen_wasm/codegen.rs:32-34 | registering the parameters first never fails |
| CodegenOld.ResolveIdent | compiler_old/src/codegen_wasm/codegen.rs:213-245 | a known identifier keeps its slot and the tables; a new one gets slot = number handed out so far |
| CodegenOld.ResolveIdentOk | compiler_old/src/codegen_wasm/codegen.rs:213-245 | resolving keeps every earlier slot and keeps slots distinct and below the count |
| CodegenOld.ResolveAll | compiler_old/src/codegen_wasm/codegen.rs:95-99 | each argument gets the slot it holds in the final tables; earlier slots kept |
| CodegenOld.ResolveAllOk | compiler_old/src/codegen_wasm/codegen.rs:95-99 | resolving the arguments keeps the tables well formed |
| CodegenOld.FindRef | compiler_old/src/codegen_wasm/codegen.rs:266 | the first position of the name in the reference table, or none exactly when absent |
| CodegenOld.RegisterCall | compiler_old/src/codegen_wasm/codegen.rs:265-276 | a known name keeps its id and the table; a new one is added under id `refs.len()`; earlier entries kept |
| CodegenOld.CodegenLit | compiler_old/src/codegen_wasm/codegen.rs:77-85 | a literal is `i32.const n`, then a placeholder of arity 1 naming `__prim_pack_i32` |
| CodegenOld.CodegenCall | compiler_old/src/codegen_wasm/codegen.rs:91-105 | one `local.get` per argument, each of its slot, then the placeholder with the argument count as arity |
| CodegenOld.CodegenValue | compiler_old/src/codegen_wasm/codegen.rs:76-106 | per value kind, the instructions of the literal, the `local.get` or the call; only a literal may grow `refs`, and only by the packing primitive |
| CodegenOld.Bump | compiler_old/src/codegen_wasm/codegen.rs:253-263 | inside an `if` arm the innermost loop is one label further away |
| CodegenOld.LoopDepths | compiler_old/src/codegen_wasm/codegen.rs:152-173 | inside a loop body a new break target is open at depth 0 |
| CodegenOld.CodegenAssign | compiler_old/src/codegen_wasm/codegen.rs:73-111 | the value's code followed by `local.set` of the target's slot |
| CodegenOld.CodegenStmt | compiler_old/src/codegen_wasm/codegen.rs:67-181 | no contract of its own: `CodegenStmtSucceeds` (success), `CodegenStmtStructured` and `BreakExits` (labels and branch targets), `CodegenStmtSlots` (slots) and `CodegenStmtRefs` (`refs`) state what a statement's code is |
| CodegenOld.CodegenIf | compiler_old/src/codegen_wasm/codegen.rs:119-150 | no contract of its own: `IfSucceeds` (both arms generated), `IfStructured` (a balanced `if` frame, both arms one label deeper) |
| CodegenOld.CodegenLoop | compiler_old/src/codegen_wasm/codegen.rs:151-174 | no contract of its own: `LoopStructured` (the `block`/`loop` frame with its closing back edge is balanced) and `AgreeLoop` (the body's breaks leave through the `block`) |
| CodegenOld.CodegenBlock | compiler_old/src/codegen_wasm/codegen.rs:36-38 | no contract of its own: `CodegenSucceeds`, `CodegenStructured`, `CodegenSlots` and `CodegenRefs` state the statements' code in order |
| CodegenOld.CodegenFunction | compiler_old/src/codegen_wasm/codegen.rs:26-65 | succeeds exactly when every `Break` is inside a loop; keeps the name, is exported, one object parameter per parameter, `refs` grows only by the packing primitive |
| CodegenOld.CodegenSucceeds | compiler_old/src/codegen_wasm/codegen.rs:175-179 | a block's code is generated exactly when no `Break` lies outside every loop (the empty depth stack panics) |
| CodegenOld.CodegenStmtSucceeds | compiler_old/src/codegen_wasm/codegen.rs:67-181 | the same per statement |
| CodegenOld.IfSucceeds | compiler_old/src/codegen_wasm/codegen.rs:119-150 | the same for an `if`, through both arms |
| CodegenOld.InnermostImpliesInLoops | compiler_old/src/codegen_wasm/codegen.rs:175-179 | code whose breaks name their innermost loop, as the simplifier emits it, never reaches the panic |
| CodegenOld.CodegenStructured | compiler_old/src/codegen_wasm/codegen.rs:119-179 | generated code leaves the label stack as it found it; every `br` either leaves the innermost loop through the `block` around it, or is that loop's back edge, directly inside it and last before its `end` (so a break compiled as a continue is refused) |
| CodegenOld.CodegenStmtStructured | compiler_old/src/codegen_wasm/codegen.rs:67-181 | the same per statement; a `Break` is one `br` whose target is the `block` around the innermost loop |
| CodegenOld.BreakExits | compiler_old/src/codegen_wasm/codegen.rs:175-179 | inside a loop, `Break` succeeds as one `br` to the `block` directly around the innermost loop, which leaves the loop, and slots and `refs` are untouched |
| CodegenOld.IfStructured | compiler_old/src/codegen_wasm/codegen.rs:119-150 | `local.get`, `if`, then-arm, optional `else` arm, `end` is balanced |
| CodegenOld.LoopStructured | compiler_old/src/codegen_wasm/codegen.rs:151-174 | `block`, `loop`, body, `br 0`, `end`, `end` is balanced, with `br 0` the loop's back edge |
| CodegenOld.LastLoopPush | compiler_old/src/codegen_wasm/codegen.rs:253-263 | opening a non-loop label keeps the innermost loop |
| CodegenOld.AgreePush | compiler_old/src/codegen_wasm/codegen.rs:253-263 | `with_non_break_target`'s increment tracks an opened `if` arm |
| CodegenOld.AgreeLoop | compiler_old/src/codegen_wasm/codegen.rs:247-251 | `with_break_target`'s fresh 0 matches the opened `block` and `loop` |
| CodegenOld.FunctionBodyBalanced | compiler_old/src/codegen_wasm/codegen.rs:26-65 | a generated function body is balanced and valid under the standard's branch rule |
| CodegenOld.CodegenSlots | compiler_old/src/codegen_wasm/codegen.rs:67-181 | generation keeps earlier slots, keeps the tables well formed, and every `local.get`/`local.set` names a handed-out slot |
| CodegenOld.CodegenStmtSlots | compiler_old/src/codegen_wasm/codegen.rs:67-181 | the same per statement |
| CodegenOld.CodegenRefs | compiler_old/src/codegen_wasm/codegen.rs:67-181 | `refs` grows only by the packing primitive, and when the calls name known globals every placeholder names an entry |
| CodegenOld.CodegenStmtRefs | compiler_old/src/codegen_wasm/codegen.rs:67-181 | the same per statement |
| CodegenNew.NewState | compiler/src/codegen/codegen.rs:163-170 | the counter starts at 0 with no slot handed out |
| CodegenNew.RegisterParam | compiler/src/codegen/codegen.rs:172-175 | the parameter takes the counter's value and the counter advances, duplicates included |
| CodegenNew.RegisterParams | compiler/src/codegen/codegen.rs:37-39 | the counter advances by the number of parameters |
| CodegenNew.Resolve | compiler/src/codegen/codegen.rs:177-210 | a known identifier keeps its slot; a new one takes the counter's value and the counter advances |
| CodegenNew.ResolveAgrees | compiler/src/codegen/codegen.rs:177-210 | with the counter equal to the slots handed out, the counter-based allocator makes the older allocator's choice |
| CodegenNew.ResolveAll | compiler/src/codegen/codegen.rs:86-90 | one slot per argument |
| CodegenNew.ResolveAllAgrees | compiler/src/codegen/codegen.rs:86-90 | the argument slots agree with the older allocator's |
| CodegenNew.CodegenValue | compiler/src/codegen/codegen.rs:71-97 | a literal is `i32.const` alone; an identifier is one `local.get`; a call is its `local.get`s then the placeholder |
| CodegenNew.CodegenStmt | compiler/src/codegen/codegen.rs:62-109 | no contract of its own: `StmtMatchesOld` states it is the older generator's statement code minus the boxing calls, with the same slots |
| CodegenNew.CodegenBlock | compiler/src/codegen/codegen.rs:41-43 | no contract of its own: `NewMatchesOld` (the older generator's code minus the boxing calls) and `BlockPlain` (no label instruction) |
| CodegenNew.CodegenFunction | compiler/src/codegen/codegen.rs:33-60 | name and `refs` kept, one `i32` parameter per parameter, and the body touches no label |
| CodegenNew.BlockPlain | compiler/src/codegen/codegen.rs:62-109 | the supported statements emit no label instruction |
| CodegenNew.ParamsAgree | compiler/src/codegen/codegen.rs:172-175 | distinct parameters get the same slots as in the older generator |
| CodegenNew.StripBoxingAppend | compiler/src/codegen/codegen.rs:72-76 | removing the boxing calls distributes over concatenation |
| CodegenNew.StripNoConst | compiler/src/codegen/codegen.rs:72-76 | code without a constant has no boxing call to remove |
| CodegenNew.NewMatchesOld | compiler/src/codegen/codegen.rs:62-109 | on straight-line bodies the newer code is the older code without the boxing call after each literal, with the same slots |
| CodegenNew.StmtMatchesOld | compiler/src/codegen/codegen.rs:62-109 | the same per statement |
| CodegenNew.AssignMatchesOld | compiler/src/codegen/codegen.rs:68-102 | the same for an assignment |
| CodegenNew.ValueMatchesOld | compiler/src/codegen/codegen.rs:71-97 | the same for a value |
| CodegenNew.FunctionMatchesOld | compiler/src/codegen/codegen.rs:33-60 | for distinct parameters and a straight-line body, the newer function body is the older one minus the boxing calls |
| Prims.PrimName | compiler_old/src/codegen_wasm/prims.rs:31 | the name is `__prim_` followed by the base name |
| Prims.PrimNameInjective | compiler_old/src/codegen_wasm/prims.rs:31 | distinct base names give distinct primitive names |
| Prims.MkPrim | compiler_old/src/codegen_wasm/prims.rs:24-36 | a primitive is named with the prefix, not exported, with the given parameters, body and `refs` |
| Prims.OldPrims | compiler_old/src/codegen_wasm/prims.rs:9-22 | the older table has eight entries |
| Prims.MkBinop | compiler_old/src/codegen_wasm/prims.rs:38-59 | no contract of its own: `OldPrimAt` places it at entries 0-5, `OldPrimsClosed` states its only reference is `unpack_i32`, the table's entry 7, and `NewPrimsFacts` that the newer binop's body is its body without that unboxing call |
| Prims.MkPack | compiler_old/src/codegen_wasm/prims.rs:61-75 | no contract of its own: `OldPrimAt` places it at entry 6, and `BoxingPrimsCallNothing` states it has no references and no placeholder |
| Prims.MkUnpack | compiler_old/src/codegen_wasm/prims.rs:77-108 | no contract of its own: `BoxingPrimsCallNothing` (no references, no placeholder) and `UnpackBalanced` (its `if`/`else`/`end` is balanced) state it |
| Prims.OldPrimAt | compiler_old/src/codegen_wasm/prims.rs:9-22 | entries 0-5 are the binary primitives in order `gt?`, `gte?`, `lt?`, `lte?`, `eq?`, `add`; then pack, then unpack |
| Prims.OldPrimsNamed | compiler_old/src/codegen_wasm/prims.rs:24-36 | each entry is named with the prefix and not exported |
| Prims.OldNamesDistinct | compiler_old/src/codegen_wasm/prims.rs:10-19 | the eight base names are pairwise distinct |
| Prims.OldPrimsDistinct | compiler_old/src/codegen_wasm/prims.rs:10-36 | the eight primitive names are pairwise distinct |
| Prims.OldPrimsClosed | compiler_old/src/codegen_wasm/prims.rs:38-59 | every placeholder has a `refs` entry naming the unpacking primitive, another entry of the table |
| Prims.BoxingPrimsCallNothing | compiler_old/src/codegen_wasm/prims.rs:61-108 | packing and unpacking have empty `refs` and no placeholder |
| Prims.UnpackBalanced | compiler_old/src/codegen_wasm/prims.rs:77-108 | unpacking's `if` ... `else` ... `end` is balanced |
| Prims.MkPrimNew | compiler/src/linker/prims.rs:21-27 | a newer primitive is named with the prefix and has empty `refs` |
| Prims.NewPrims | compiler/src/linker/prims.rs:8-19 | the newer table has six entries |
| Prims.MkBinopNew | compiler/src/linker/prims.rs:29-39 | no contract of its own: `NewPrimAt` places it at entry i, and `NewPrimsFacts` states it has the older binop's two parameters, no references, no label or placeholder, and the older body without its unboxing call |
| Prims.NewPrimAt | compiler/src/linker/prims.rs:8-19 | entry i is the binary primitive for the i-th name and operator |
| Prims.NewPrimsFacts | compiler/src/linker/prims.rs:21-39 | the names are the older first six, pairwise distinct; two `i32` parameters; no `refs` or placeholder; each body is `local.get 0`, `local.get 1`, the operator |
| LinkerOld.Lookup | compiler_old/src/codegen_wasm/linker.rs:94-97 | no contract of its own: `LastRegisteredWins` and `LookupKeyed` state that a lookup finds the last registered fragment of the name asked for |
| LinkerOld.Available | compiler_old/src/codegen_wasm/linker.rs:8-24 | no contract of its own: `AvailableInv` states the table of primitives then user functions is keyed by name and calls only through placeholders, and `LastRegisteredWins` that a user function replaces a primitive of its name |
| LinkerOld.Register | compiler_old/src/codegen_wasm/linker.rs:94-97 | a lookup after registering finds the last registered fragment of that name, else the earlier one |
| LinkerOld.LookupKeyed | compiler_old/src/codegen_wasm/linker.rs:94-97 | a lookup finds a fragment of the name asked for |
| LinkerOld.RegisterKeyed | compiler_old/src/codegen_wasm/linker.rs:94-97 | every registered fragment is keyed by its own name |
| LinkerOld.LastRegisteredWins | compiler_old/src/codegen_wasm/linker.rs:10-24 | a user function registered after a primitive of the same name replaces it |
| LinkerOld.Resolve | compiler_old/src/codegen_wasm/linker.rs:99-115 | memoised: a known name returns its index unchanged; an unknown fragment fails; re-entering a name being linked diverges; otherwise the index is the new last one |
| LinkerOld.LinkCode | compiler_old/src/codegen_wasm/linker.rs:48-67 | length kept; raw instructions copied; each placeholder becomes a call of its reference's index; a missing reference fails |
| LinkerOld.ResolveRoots | compiler_old/src/codegen_wasm/linker.rs:26-34 | every exported user function ends up with an index |
| LinkerOld.Run | compiler_old/src/codegen_wasm/linker.rs:7-46 | on success every exported user function is linked |
| LinkerOld.LinkedAtMono | compiler_old/src/codegen_wasm/linker.rs:48-67 | linked code stays linked as the index table grows |
| LinkerOld.LinksViaMono | compiler_old/src/codegen_wasm/linker.rs:48-77 | a linked function stays linked as the index table grows |
| LinkerOld.AppendInv | compiler_old/src/codegen_wasm/linker.rs:110-113 | recording a freshly linked function at the end keeps indices dense and post-ordered |
| LinkerOld.ResolveInv | compiler_old/src/codegen_wasm/linker.rs:99-115 | resolution keeps the memo's invariants |
| LinkerOld.LinkCodeInv | compiler_old/src/codegen_wasm/linker.rs:48-67 | linking a body keeps the memo's invariants |
| LinkerOld.LookupFrom | compiler_old/src/codegen_wasm/linker.rs:94-97 | a lookup finds a registered fragment or the earlier one |
| LinkerOld.AvailableInv | compiler_old/src/codegen_wasm/linker.rs:10-24 | the available table is keyed by name and calls only through placeholders |
| LinkerOld.ResolveRootsInv | compiler_old/src/codegen_wasm/linker.rs:26-34 | resolving the roots keeps the memo's invariants |
| LinkerOld.RunLinks | compiler_old/src/codegen_wasm/linker.rs:7-46 | a linked program has dense indices, callees before callers, every exported user function, and each function is its fragment with placeholders turned into calls |
| LinkerOld.CallTargetsNamedFunction | compiler_old/src/codegen_wasm/linker.rs:53-61 | a linked call targets the function its placeholder's reference names |
| LinkerOld.ResolveTwice | compiler_old/src/codegen_wasm/linker.rs:99-101 | resolving a name again returns the same index and links nothing more |
| LinkerOld.SelfCallDiverges | compiler_old/src/codegen_wasm/linker.rs:108-113 | a self-recursive function re-enters its own resolution and is never given an index |
| LinkerOld.ResolveFixed | compiler_old/src/codegen_wasm/linker.rs:99-115 | the corrected resolution reserves the index before linking the body: memoised, an unknown fragment fails, the result is the name's index |
| LinkerOld.LinkCodeFixed | compiler_old/src/codegen_wasm/linker.rs:48-67 | the corrected body linking keeps the length |
| LinkerOld.ResolveFixedFills | compiler_old/src/codegen_wasm/linker.rs:99-115 | every name the corrected resolution resolves has its function linked at its index |
| LinkerOld.LinkCodeFixedFills | compiler_old/src/codegen_wasm/linker.rs:48-67 | each linked instruction is its fragment's instruction with placeholders resolved |
| LinkerOld.ResolveFixedSucceeds | compiler_old/src/codegen_wasm/linker.rs:99-115 | with every reference resolvable, the corrected resolution always succeeds, cycles included |
| LinkerOld.LinkCodeFixedSucceeds | compiler_old/src/codegen_wasm/linker.rs:48-67 | the corrected body linking succeeds when every reference resolves |
| LinkerOld.SelfCallLinksFixed | compiler_old/src/codegen_wasm/linker.rs:108-113 | the corrected linker links a self-recursive function to a call of its own index |
| LinkerOld.ResolveRootsFixed | compiler_old/src/codegen_wasm/linker.rs:26-34 | the corrected roots loop gives every exported user function an index and keeps earlier indices |
| LinkerOld.RunFixed | compiler_old/src/codegen_wasm/linker.rs:7-46 | on success the corrected `run` has linked every exported user function |
| LinkerOld.RunFixedSucceeds | compiler_old/src/codegen_wasm/linker.rs:7-46 | when every reference names an available fragment, the corrected `run` succeeds, recursive call graphs included |
| LinkerOld.RunFixedFills | compiler_old/src/codegen_wasm/linker.rs:7-46 | every name the corrected `run` resolves has its linked function at its index |
| Ints.AsU32 | compiler/src/linker/linker.rs:63 | `as u32` keeps a non-negative value and adds 2^32 to a negative one |
| LinkerNew.Scan | compiler/src/linker/linker.rs:47-79 | the pair rewrite keeps the instruction count |
| LinkerNew.ScanRewritesPairs | compiler/src/linker/linker.rs:56-77 | every changed position is half of a pair of the input, now `nop` and a call of the name its constant selects |
| LinkerNew.ScanComplete | compiler/src/linker/linker.rs:47-79 | no `i32.const`/`call_indirect` pair is left |
| LinkerNew.ScanHead | compiler/src/linker/linker.rs:56-77 | the first instruction becomes `nop` where a pair starts and is kept otherwise |
| LinkerNew.ScanNoPairs | compiler/src/linker/linker.rs:75-77 | code without pairs is unchanged |
| LinkerNew.ScanIdempotent | compiler/src/linker/linker.rs:47-79 | rewriting twice is rewriting once |
| LinkerNew.ScanFails | compiler/src/linker/linker.rs:61-64 | the rewrite fails only on a pair whose constant names no reference, and succeeds when every pair's does |
| LinkerNew.LinkFunctionAsWritten | compiler/src/linker/linker.rs:41-80 | as written, a body of at least two instructions is rewritten pairwise; a shorter one panics |
| LinkerNew.ShortBodyRejected | compiler/src/linker/linker.rs:48 | a one-instruction body has no pair, yet the code as written rejects it |
| LinkerNew.LinkFunction | compiler/src/linker/linker.rs:41-80 | the in-place loop fails on a non-inline body and otherwise computes the scan, short bodies included |
| LinkerNew.Link | compiler/src/linker/linker.rs:31-39 | corrected `link`: succeeds exactly when every function is inline and rewrites, short bodies included; then each function gets its rewritten body, the rest unchanged |
| LinkerNew.LinkAsWritten | compiler/src/linker/linker.rs:31-48 | as written: succeeds exactly when every function is inline, has at least two instructions and rewrites; then each function gets its rewritten body |
| LinkerNew.EmptyBodyStopsLink | compiler/src/linker/linker.rs:48 | the empty body of `fun f() {}` stops `link` as written, while the rewrite leaves it unchanged |
| MkWasm.Sections | compiler_old/src/codegen_wasm/mk_wasm.rs:66-72 | four sections: type, function, export, code, in increasing id order |
| MkWasm.MaxLocalSet | compiler_old/src/codegen_wasm/mk_wasm.rs:78-89 | bounds every `local.set` index and is attained when positive |
| MkWasm.Locals | compiler_old/src/codegen_wasm/mk_wasm.rs:78-92 | at least one local, all of the given type |
| MkWasm.LocalsExact | compiler_old/src/codegen_wasm/mk_wasm.rs:78-92 | the locals cover every `local.set` index, and the last one is a target unless there is none |
| MkWasm.ExportsFrom | compiler_old/src/codegen_wasm/mk_wasm.rs:54-61 | export entries name functions of the range |
| MkWasm.ExportsFromNamed | compiler_old/src/codegen_wasm/mk_wasm.rs:54-61 | each entry names an exported function, under its own name |
| MkWasm.ExportsFromIncreasing | compiler_old/src/codegen_wasm/mk_wasm.rs:35-64 | entries are in function order |
| MkWasm.ExportsFromComplete | compiler_old/src/codegen_wasm/mk_wasm.rs:54-61 | function i has an export entry exactly when it is exported |
| MkWasm.InternedDistinct | compiler_old/src/codegen_wasm/mk_wasm.rs:111-127 | an interned type section holds no type twice |
| MkWasm.GetTypeIx | compiler_old/src/codegen_wasm/mk_wasm.rs:111-127 | a known type keeps its index and the environment; a new one is appended at the end; the index names the type |
| MkWasm.GetTypeIxTwice | compiler_old/src/codegen_wasm/mk_wasm.rs:111-127 | asking twice gives the same index and changes nothing |
| MkWasm.AddFunc | compiler_old/src/codegen_wasm/mk_wasm.rs:143-158 | appends a function and its code closed by `end`, and returns the new last index |
| MkWasm.AddDecl | compiler_old/src/codegen_wasm/mk_wasm.rs:39-52 | one loop step: the function gets the next index and its own type with an object result |
| MkWasm.Build | compiler_old/src/codegen_wasm/mk_wasm.rs:35-64 | every function is added and the exports are exactly the exported functions |
| MkWasm.Start | compiler_old/src/codegen_wasm/mk_wasm.rs:11-26 | the object struct is interned first |
| MkWasm.MkWasmOld | compiler_old/src/codegen_wasm/mk_wasm.rs:8-76 | no contract of its own: `MkWasmOldFunctions`, `MkWasmOldObjectFirst`, `MkWasmOldExports`, `MkWasmOldWellFormed`, `MkWasmOldDistinctTypes` and `MkWasmOldSharesTypes` state its sections |
| MkWasm.MkWasmOldFunctions | compiler_old/src/codegen_wasm/mk_wasm.rs:8-76 | function i's type entry is the function type of its parameters with an object result, and its code is its body closed by `end` |
| MkWasm.MkWasmOldObjectFirst | compiler_old/src/codegen_wasm/mk_wasm.rs:11-26 | the object struct is type 0, as the source asserts |
| MkWasm.MkWasmOldExports | compiler_old/src/codegen_wasm/mk_wasm.rs:54-61 | the exports are exactly the exported functions at their indices |
| MkWasm.MkWasmOldWellFormed | compiler_old/src/codegen_wasm/mk_wasm.rs:8-76 | every function has a code entry and a function type, every export names a function, every code entry ends with `end` |
| MkWasm.MkWasmOldDistinctTypes | compiler_old/src/codegen_wasm/mk_wasm.rs:111-127 | the type section holds no type twice |
| MkWasm.MkWasmOldSharesTypes | compiler_old/src/codegen_wasm/mk_wasm.rs:39-42 | functions with equal parameter lists share one type |
| MkWasm.MkWasmNew | compiler/src/linker/mk_wasm.rs:7-64 | no contract of its own: `MkWasmNewFunctions`, `MkWasmNewWellFormed`, `SameExports` and `SameCodeShapes` state its sections and their agreement with the older assembler |
| MkWasm.MkWasmNewFunctions | compiler/src/linker/mk_wasm.rs:7-64 | one type per function, function i uses type i with an `i32` result, code is the body with `end` and `i32` locals |
| MkWasm.MkWasmNewWellFormed | compiler/src/linker/mk_wasm.rs:7-64 | the newer module is well formed |
| MkWasm.SameExports | compiler/src/linker/mk_wasm.rs:21-36 | both snapshots export the same functions at the same indices |
| MkWasm.SameCodeShapes | compiler/src/linker/mk_wasm.rs:38-52 | both snapshots emit the same code bodies and local counts |
| Values.Num | compiler_old/src/interpreter/value.rs:9-11 | `num(n)` holds `n` |
| Values.From | compiler_old/src/interpreter/value.rs:20-24 | the converted value holds `n`, and is truthy exactly when `n` is not 0 |
| Values.IsTruthy | compiler_old/src/interpreter/value.rs:13-17 | no contract of its own: `TruthyIffNonZero` states a value is truthy exactly when its number is not 0 |
| Values.TruthyIffNonZero | compiler_old/src/interpreter/value.rs:13-17 | a value is truthy exactly when its number is not 0 |
| Values.NumInjective | compiler_old/src/interpreter/value.rs:4-11 | `num` is injective and every value is `num` of its number |
| Interpreter.Functions | compiler_old/src/interpreter/interpret.rs:43-51 | no contract of its own: `FunctionsLookup` states its keys and that a later function replaces an earlier one of its name |
| Interpreter.Resolve | compiler_old/src/interpreter/interpret.rs:134-139 | no contract of its own: `ResolveAll` and `Write` state what it finds; `None` is the `unwrap` panic, which `Stmt` turns into an outcome |
| Interpreter.FunctionsLookup | compiler_old/src/interpreter/interpret.rs:43-51 | a name is in the table exactly when some function has it, and maps to the last such function |
| Interpreter.ResolveAll | compiler_old/src/interpreter/interpret.rs:186-193 | the arguments resolve exactly when each does, to their values in order |
| Interpreter.Write | compiler_old/src/interpreter/interpret.rs:207-214 | a local or temporary target then holds the value and nothing else changes; a global target is refused |
| Interpreter.Bind | compiler_old/src/interpreter/interpret.rs:91-93 | the bound names are exactly the parameters |
| Interpreter.BindLast | compiler_old/src/interpreter/interpret.rs:91-93 | a parameter no later parameter repeats is bound to its own argument |
| Interpreter.BindDistinct | compiler_old/src/interpreter/interpret.rs:91-93 | with distinct parameters, parameter i is bound to argument i |
| Interpreter.Call | compiler_old/src/interpreter/interpret.rs:79-111 | a success has used more fuel than at the call and no more than the limit |
| Interpreter.Stmts | compiler_old/src/interpreter/interpret.rs:146-162 | running a list never lowers the fuel count nor passes the limit |
| Interpreter.Iterate | compiler_old/src/interpreter/interpret.rs:228-241 | a loop never finishes normally |
| Interpreter.Stmt | compiler_old/src/interpreter/interpret.rs:164-245 | each statement charges fuel before it runs |
| Interpreter.Assign | compiler_old/src/interpreter/interpret.rs:207-215 | an assignment stores the value in its target at unchanged fuel; only a global target, which the older IR cannot express, panics |
| Interpreter.Run | compiler_old/src/interpreter/interpret.rs:35-55 | a success reports between 1 and the limit units of fuel |
| Interpreter.StmtsAppend | compiler_old/src/interpreter/interpret.rs:146-162 | running `a + b` runs `b` only when `a` finished normally; a return, error, panic or exhaustion skips the rest |
| Interpreter.LiteralsCostOneEach | compiler_old/src/interpreter/interpret.rs:164-171 | literal assignments charge exactly one unit each; with too little fuel the list runs out |
| Interpreter.StmtRaise | compiler_old/src/interpreter/interpret.rs:164-245 | a statement that did not run out of fuel behaves the same under any larger limit |
| Interpreter.StmtsRaise | compiler_old/src/interpreter/interpret.rs:146-162 | the same for a list |
| Interpreter.IterateRaise | compiler_old/src/interpreter/interpret.rs:228-241 | the same for a loop |
| Interpreter.CallRaise | compiler_old/src/interpreter/interpret.rs:79-111 | the same for a call |
| Interpreter.RunRaise | compiler_old/src/interpreter/interpret.rs:35-55 | a run that finishes under some limit finishes the same way under every larger one |
| Interpreter.RunUnknown | compiler_old/src/interpreter/interpret.rs:80-83 | calling an unknown name gives the error `Function <name> not found` |
| Interpreter.SpinRunsOut | compiler_old/src/interpreter/interpret.rs:228-241 | the lowered `while 1 {}` body always runs out of fuel |
| Interpreter.InfiniteLoopRunsOutOfFuel | compiler_old/tests/tests/unit.rs:27-31 | the infinite-loop example, lowered as the newer simplifier lowers `while`, ends in `OutOfFuel` under any limit |
| Interpreter.IdReturnsArgument | compiler_old/tests/tests/unit.rs:12 | the identity example returns its argument after one unit of fuel, and runs out at limit 0 |

## Left out

- Parsing, pretty printing and s-expressions, diagnostics, the command line, the web front end and the test harnesses: outside the compiler core.
- Byte encoding: the `wasm_encoder`/`wast` calls of both `mk_wasm.rs` files and of the newer `linker.rs`'s `run` are outside the model. Sections are abstract sequences.
- `bimap` and `kcache`: modelled as Dafny maps and sequences. A global reference table is a sequence whose positions are the ids.
- Source locations and tags are not threaded through the renamer, the simplifier or the code generators. The tag table is modelled on its own (`Loc.GetTag`), and the peephole passes carry a generic tag per statement.
- located.rs's `Span::enclosing` (66-80) and `SrcLoc::enclosing` (97-104) are the same code as loc.rs's. `Loc.Enclosing` and `Loc.SrcLocEnclosing` model both.
- `WithLoc::to_tag` and `from_offset_bytes` are one-line delegations to `get_tag` and `from_offsets`.
- Integer width: counters, slots, ids and span arithmetic are unbounded, so u32 and usize overflow is not modelled, except the underflow of `from_offsets` (`Loc.FromOffsetsAsWritten`) and of the newer linker's `instrs.len() - 2`. Number literals are a 32-bit signed type. The newer linker's `as u32` is explicit (`Ints.AsU32`).
- Statements outside the shared IR: the simplifier's `InlineWasm`, the newer IR's `Branch`, string literals (the simplifier's `todo!`), and the plain `If`/`Inv` statements that reach the newer simplifier's `_ => todo!()` (compiler/src/simplifier/simplifier.rs:161), which `PStmt` cannot express. The renamer's infix operators and its statements other than `let`/`return` are `unimplemented!`, so these are preconditions.
- The newer code generator's `If`/`Loop`/`Break` arms are `todo!`, so they are a precondition (`CodegenNew.Supported`).
- Both code generators' per-module `run` loops only map `codegen_function` over the functions. They are not modelled separately.
- The older code generator's `locals` vector is computed and then dropped, so it is not modelled.
- The older binary primitives' mismatch between the unboxing call and the parameter types is not modelled. Instructions carry no operand types.
- LinkerOld.Run: reachability is not stated. The model shows that every exported function and every callee it links is present, not that nothing else is.
- The older linker's output is the memo's function sequence, already in index order, so the sort by index is implicit.
- Old linker cycles: as written, a recursive call graph makes `resolve` recurse without end. The model detects re-entry with a stack of names being linked (`Diverges`). `LinkerOld.ResolveFixed` and `LinkerOld.RunFixed` are the corrected linker.
- Loc.FromOffsetsAsWritten: models the build with overflow checks on, where `end - start` panics. In a release build the subtraction wraps, so `from_offsets(5, 3)` returns a span of length 2^64 - 2 without panicking; that wrapped span is not modelled. The newer linker's short-body underflow is unaffected, because its slice `instrs[idx..idx + 2]` panics in either build.
- The newer linker's non-inline function kind is the `NotInline` error, and its short-body underflow is the `TooShort` error of `LinkerNew.LinkFunctionAsWritten` and `LinkerNew.LinkAsWritten`.
- LinkerNew.Link: models the corrected `link`, so a body shorter than two instructions is left unchanged, where the code as written panics at linker.rs:48. `LinkerNew.LinkAsWritten` is the code as written.
- Renamer.RenameModule: models `rename` as written, with empty `refs`; `Renamer.RenameModuleWithRefs` is the corrected module.
- Simplifier.SimplifyStmt: the contract states only the counter, label and break bookkeeping. The shape and meaning of the lowering are stated by `Simplifier.StmtLoweringCorrect`, `Simplifier.WhileLowering` and `Simplifier.SimplifyBlockAppend`.
- Simplifier.OptimizeFunction: the newer pipeline's optimizations/mod.rs is not part of this model. Its prune-then-filter order is assumed to be that of compiler_old/src/simplifier/optimizations/mod.rs:6-16.
- Interpreter.InfiniteLoopRunsOutOfFuel: the older pipeline's simplifier is not part of this model. The example uses the newer simplifier's `while` lowering.
- The newer `mk_wasm` takes the linked functions' parameter types; the model uses one function shape for both snapshots.
- Interpreter: only a finite fuel limit is modelled. Without a limit the source may run forever, which a terminating Dafny function cannot express.
- Interpreter panics are explicit outcomes: an unbound identifier, a missing reference, an arity mismatch, `Break`/`Nop` (`todo!`), and a body ending without `return`.
- Interpreter: a loop with an empty body repeats forever without charging fuel. It is the outcome `Hung`.
- Interpreter: a global identifier, which the older IR cannot express, is treated as unbound.
- Interpreter.Call: states fuel bounds and not the full result. The result is pinned by `StmtsAppend`, `LiteralsCostOneEach`, the `Raise` lemmas and the examples.
- Interpreter.Stmt: likewise states only the fuel accounting of one statement.
- Interpreter.Iterate: likewise states only that a loop never finishes normally.

## Findings

| source | as written | input that shows it | evidently intended | confidence | as-written member | corrected member |
|---|---|---|---|---|---|---|
| compiler/src/util/loc.rs:83 | `max(end - start, 0)` subtracts unsigned offsets, so it underflows before the clamp | start 5, end 3 (`Loc.FromOffsetsReversedFails`) | an empty span at `start` | high, not executed | Loc.FromOffsetsAsWritten | Loc.FromOffsets |
| compiler/src/parser/located.rs:90-95 | `attach` ignores `self` and attaches `Unknown` | `Known(s).attach(v)` (`Located.AttachDropsKnownLocation`) | attach `self`, as loc.rs:106-108 does | high, not executed | Located.AttachAsWritten | Loc.Attach |
| compiler/src/renamer/renamer.rs:54 | `refs` is always an empty map; the global table is dropped | `fun f() { return g() }` (`Renamer.RenamedCallHasNoRef`) | `refs` maps each global id of the body to its name | medium, not executed | Renamer.RenameFunction | Renamer.RenameFunctionWithRefs |
| compiler_old/src/codegen_wasm/linker.rs:108-113 | the index is recorded only after the body is linked, so a recursive call re-enters `resolve` | a function `f` whose body calls `f` (`LinkerOld.SelfCallDiverges`) | reserve the index before linking, so a cycle finds it | high, not executed | LinkerOld.Resolve | LinkerOld.ResolveFixed |
| compiler/src/linker/linker.rs:48 | `instrs.len() - 2` is unsigned and underflows on a body shorter than two | a body `[return]` (`LinkerNew.ShortBodyRejected`) | a short body has no pair and is left as it is | high, not executed | LinkerNew.LinkFunctionAsWritten | LinkerNew.LinkFunction |
