# The middle end of onejit, its data structures, and two Go front-end algorithms

This project models parts of the onejit C++ compiler and of the Go front end beside it, and proves what
they are for. `dafny verify dfyconfig.toml` checks all of it. The numbers in a file are unbounded unless a
word size is written out; where it matters it is (`2^bits` of a kind, 32-bit offsets, 64-bit words).

## Parts

| part | files | main results |
|---|---|---|
| Values and expressions: kinds, wrap-around, operators, evaluation | `Bits`, `Values`, `Ir`, `Monoid`, `OperatorLaws` | what each operator computes, by arithmetic, bit by bit and with the sign rules of division; n-ary operators form a monoid on the canonical values of a kind |
| Lowering of structured statements to flat code, and the machine that runs it | `Stmts`, `Flat`, `Lowering`, `LoweringAgain`, `LoweringDomain`, `LoweringExprs`, `LoweringStmts`, `LoweringFunc`, `LoweringLabels`, `LoweringErrors`, `LoweringLength`, `LoweringStops`, `LoweringContinue`, `LoweringLoops`, `LoweringDiverges`, `LoweringLimits`, `Compiler` | `FuncSim`, `StmtSim`, `SwitchSim`, `HaltsExact`, `FuncLabels`, `FuncErrors`, `FuncLength`, `RunsExact`; class `Compiler` refines it all |
| Optimizer | `Imm`, `Nodes`, `OptimizerSpec`, `OptimizerMeaning`, `OptimizerTuples`, `OptimizerTyped`, `OptimizerForm`, `OptimizerReduced`, `OptimizerComma`, `OptimizerAssign`, `OptimizerStmts`, `OptimizerReducedStmts`, `OptimizerLowered`, `OptimizerDomain`, `OptimizerPlain`, `OptimizerLimits`, `Optimizer` | `OptimizeMeans`, `OptimizeReduced`, `TupleNormalForm`, `AssignKeeps`, `CommaExact`, termination by size; `CompileSim`, `LowerableExact`, `PlainSim` and `PlainHalts` compose it with the lowering; class `Optimizer` |
| Flow graph | `FlowGraphSpec`, `FlowGraph`, `FlowGraphLowered` | `BlocksPartition`, `BoundaryExact`, `NextExact`, `StepStaysExact`, `PrevInverse`, `CapacityEnough`; class `FlowGraph` |
| IR codec | `Imm`, `Codec`, `CodecLayout`, `CodecWriter`, `Code`, `ExprCodec`, `SharedNodes` | `EncodeExact`, `ChildrenByType`, `WriteReads`, `Relocate`, `ParseWrite`, `NodesEqualExact`; classes `Code` and `CodeParser` |
| Bit set and dense graph | `WordBits`, `BitSet`, `GraphSpec`, `Graph` | `FindExact`, `AnswerExact`, `Handshake`; classes `BitSet` and `Graph` |
| Go expression parser | `GoParser`, `GoBinding` | `ParsePrint` and `Binding` (Operator precedence in the Go Programming Language Specification); class `Parser` |
| Go declaration order | `GoResolver` | `DeclareGlobals` for every order of the maps, with the exact condition under which it declares everything; class `Resolver` |

What the source does as expressions is a function here. What it does by changing fields is a class or a
method with the same loops, whose `ensures` equates the new state with a function of the old one; the
properties are then lemmas about that function.

How the main results fit together:

- A source program has a big-step meaning (`Stmts.Exec`; its `fuel` bounds the turns of loops). Flat code
  has a small-step machine (`Flat.Step`). `StmtSim` relates them for every statement and every fuel with
  which it ends, with the three stacks of jump destinations as part of the statement; `StmtLasts` is the
  other half, for every fuel that does not do, and `HaltsExact` joins them. `FuncLabels` shows, for any body
  at all, that labels are unique and jumps closed, which `FuncSim` needs to start the machine.
- An expression of the domain is `Shaped`, a condition on its jumps, and `Quiet`, a static condition under
  which the operands that the source would skip cannot fail. `ExprSim` needs only `Runs`, the exact condition
  in one store; `QuietRuns` says that the static one is enough.
- The code of a function is more than what running it shows: `FuncErrors` says which errors are reported with
  it, and `FuncLength` how long it is, both for every body and as sums over the source, so that nothing is
  left out of it or emitted twice, and what can be decided when compiling is.
- `OptimizeMeans` compares `Eval` before and after, and `OptimizeReduced` says what has been achieved then: a
  normal form of the whole result, given operator by operator on the trees, which no rewrite is left for.
  `OptimizeStmtReduced` is its form for statements. `CompileSim` is the pipeline: optimize, lower, run.
  Its condition is on the program that goes in and on what its tests are optimized to, and `LowerableExact`
  says that it is exact. `PlainSim` has a condition on the source alone, good for every setting of the two
  flags. `CompileHalts` and `PlainHalts` say that the code of the pipeline stops exactly when its source ends.
- The lowered code is what `FlowGraphLowered` gives to the flow graph: `LoweredResolves` says that
  building it never reports an error.
- `ExprCodec` connects the expressions of the first parts with the words that the codec writes.

## Where the code does less than its documentation promises

The code is modelled as it is. Each of these has a lemma with a concrete input, and a lemma with the exact
condition under which the code is right, for all inputs (`…Exact`).

- `negate_condjump()` has no case for ASM_JL and ASM_JLE, which `opstmt3.hpp` lists: `SignedLessSkipsBranch`;
  `JumpOpExact` by operator, kind and negation, `EmitJumpExact` for every test. The domain predicate `TestOk`
  is that condition.
- && and || with a variable as right operand are left alone, and no conditional jump exists for them:
  `VariableOperandHasNoJump`; the same two lemmas.
- `is_cond_jump()` does not know ASM_JLE: `ElseIsOverlooked`; `StepStaysExact`.
- `continue` goes behind `post`: `ContinueSkipsPost`; `ContinueExact` for one turn in one store, `TurnsExact`
  for the turns and `LoopsExact` for the whole of all loops around a body and a `post`. `MovedCode` and
  `MovedSim` say what the code does in every other case: it is the code of another loop.
- A constant loop test lowers to `init` alone, also when it is true: `TrueLoopIsDropped`; `ConstantTestExact`.
- Both operands of && and || are compiled before the jump between them: `HoistedDivisionFaults`; `RunsExact`
  and `SkippedOperandExact`.
- The optimizer makes tests that lower wrongly of tests that lower well: `SignedTestFlips`, `LoopTestFolds`;
  `LowerableExact`.
- `deep_equal()` with divisions forbidden accepts a shared node that has one inside: `SharedDivision`;
  `SharingMatters`.
- `deep_equal()` does not compare the payload of indirect leaves: `DifferenceLost`; `LeavesEqualExact`,
  `DifferenceExact`, `CopyExact`. The optimizer theorems ask for direct leaves only where two expressions are compared:
  kinds of 8 and 16 bits or Bool, and variable ids below 2^21.
- `Value::min()` is not sign-extended for Int8 to Int32: `MaximumOfOne`; `IdentityExact`. MAX on these kinds is
  out of the other value theorems.
- The optimizer drops all constants at the end of a COMMA, also the last one, whose value the COMMA has:
  `CommaDropsConstant`; `CommaExact` for children that are optimized already, `OptimizeCommaExact` for whole
  expressions. COMMA is out of the other value theorems.
- A cast whose operand changes in compile(Unary) is rebuilt without its kind: `CastForgetsKind`; `CastExact`.
- An indirect constant of 32 bits is read back without its sign: `NegativeIndirect`; `ConstExact`.
- `BitSet::find(false, …)` from a position inside of a word can stop at a zero that was shifted in, although
  `bitset.hpp` promises the first matching bit: `ClearBitMissed`; `FindExact`.
- `Graph::operator()` multiplies in 32 bits: `IndexWraps`; `IndexExact` for the index, `AnswerExact` for the
  answer.

Operations that C++ leaves undefined (division by zero, the quotient of the smallest int64 by -1, a shift
by 64 or more) have the value `Invalid`; a program that computes one has no result, and the theorems say
nothing about it.

## Model

| member | source | states |
|---|---|---|
| `LoweringFunc.FuncSim` | onejit/compiler.cpp:93-114 | For every function body of the domain and every store on which the body ends: the flat code, run from its first instruction, comes to the final return with the same source variables. |
| `LoweringFunc.NeverLeaves` | onejit/compiler.cpp:343-373 | A function body in the domain ends normally: nothing in it breaks, continues or falls through outwards. |
| `LoweringDiverges.HaltsExact` | onejit/compiler.cpp:93-114 | A function of the domain whose source never faults stops on the machine if and only if its source ends with some fuel: endless loops stay endless. |
| `LoweringDiverges.StmtLasts` | onejit/compiler.cpp:377-409 | Every statement: when the fuel does not do for its source run, the machine makes at least as many steps as there was fuel, and is still running. |
| `LoweringDiverges.LoopLasts` | onejit/compiler.cpp:561-580 | Each turn of a loop makes the machine leave the `continue` label at least once. |
| `LoweringStmts.StmtSim` | onejit/compiler.cpp:377-409 | Forward simulation of every statement: the code reaches its end, or the label that break, continue or fallthrough names, with the source variables of the source run; only fresh variables differ. |
| `LoweringStmts.AddSim` | onejit/compiler.cpp:898-903 | The same for compile_add(), which also leaves an expression statement in the code. |
| `LoweringStmts.IfSim` | onejit/compiler.cpp:510-534 | if: a constant test picks its branch at compile time, any other runs exactly the branch that the source runs. |
| `LoweringStmts.BranchSim` | onejit/compiler.cpp:518-533 | if with a test that is not constant: with and without an else branch, by the jump over the branch that is not taken. |
| `LoweringStmts.ForSim` | onejit/compiler.cpp:548-582 | for: `init`, then the jump to the test at the `continue` label; a constant test leaves `init` alone. |
| `LoweringStmts.LoopSim` | onejit/compiler.cpp:561-580 | One arrival at the test of a loop does what the rest of the loop does, for every number of turns, whichever way the body ends a turn. |
| `LoweringStmts.RunBody` | onejit/compiler.cpp:569-572 | The loop body goes to the `break` label, the `continue` label, its end, or an outer fallthrough label, as its source outcome says. |
| `LoweringStmts.CondSim` | onejit/compiler.cpp:627-651 | cond: the first clause whose test is true runs its body, for any number of clauses. |
| `LoweringStmts.SwitchSim` | onejit/compiler.cpp:694-769 | switch with any number of cases and Default at any place: the code runs the selected body and those it falls through to, and leaves at the end label. |
| `LoweringStmts.DispatchSim` | onejit/compiler.cpp:725-754 | The tests of a switch come to the body of the first equal case; when there is none, to Default wherever it stands, else to the end. |
| `LoweringStmts.DefaultDispatch` | onejit/compiler.cpp:738-747 | A Default before the last case is skipped by the tests and entered through its label after they all fail. |
| `LoweringStmts.BodiesSim` | onejit/compiler.cpp:752-767 | From the body that was selected on: its end leaves the switch, fallthrough enters the next body behind its test, continue goes to the loop around. |
| `LoweringStmts.BlockSim` | onejit/compiler.cpp:620-625 | A block runs its statements in order and stops at the first that leaves. |
| `LoweringStmts.GotoTopSim` | onejit/compiler.cpp:343-373 | break, continue and fallthrough jump to the innermost label of their stack. |
| `LoweringStmts.AssignSim` | onejit/compiler.cpp:411-423 | An assignment stores the value of its source expression, computed by the code in front of it. |
| `LoweringStmts.ToVarSim` | onejit/compiler.cpp:813-822 | to_var() leaves the value of an expression in a variable. |
| `LoweringExprs.ExprSim` | onejit/compiler.cpp:160-204 | In every store in which the code of an expression runs (`Runs`), it ends behind itself with the variables in scope unchanged, and the compiled expression has the value of the source one, or like it none. |
| `LoweringExprs.TupleSim` | onejit/compiler.cpp:273-305 | The arguments of a tuple are copied to variables one after the other without changing its value. |
| `LoweringExprs.SimplifySim` | onejit/compiler.cpp:215-271 | && and || on compiled operands: the result is the left operand when that decides, else the right one. |
| `LoweringExprs.StoreSim` | onejit/compiler.cpp:227-242 | The stored form of && and ||: a fresh variable gets the left operand or the constant it decides for, and a jump skips the right one. |
| `LoweringExprs.EmitJumpSim` | onejit/compiler.cpp:452-496 | The jump that is emitted for a test goes to its target when the test is true and falls through when it is false. |
| `LoweringExprs.EmitJumpExact` | onejit/compiler.cpp:452-496 | For every well-typed test and every store in which it has a value: the emitted jump goes the right way if and only if `TestOk` holds of the test, a condition on its form alone. |
| `LoweringExprs.JumpOpExact` | onejit/opstmt.cpp:188-218 | For every operator: the conditional jump decides the operation, negated or not, for all operands of the kind if and only if the operator is a comparison and the jump is not the negation of a signed < or <=. |
| `LoweringExprs.StripMeaning` | onejit/compiler.cpp:458-465 | Taking off leading negations and counting them modulo 2 keeps the truth of a test. |
| `LoweringDomain.CompiledShape` | onejit/compiler.cpp:160-204 | Compiling keeps type and kind, and its result depends on names of variables only: one shape per expression. |
| `LoweringDomain.TestOkErased` | onejit/compiler.cpp:466-493 | Whether the jump for a compiled test is right depends on the shape of the test, not on the variables that lowering creates. |
| `LoweringDomain.EmitsNothing` | onejit/compiler.cpp:160-204 | Compiling emits code for &&, || and tuples with inner operations, and for nothing else. |
| `LoweringDomain.QuietRuns` | onejit/compiler.cpp:160-204 | In the static domain the code of an expression runs in every store in which the expression has a value. |
| `LoweringDomain.ExecContinues` | onejit/compiler.cpp:352-358 | Only a statement with a `continue` of its own leaves through one. |
| `LoweringLabels.FuncLabels` | onejit/compiler.cpp:93-114 | In the code of a whole function each created label stands exactly once and no other label stands, every jump has its label, the three stacks are empty again, and the one return is last. |
| `LoweringLabels.StmtTracks` | onejit/compiler.cpp:510-582 | For every statement: the labels it creates are placed exactly once, and its jumps go to those or to the tops of the stacks. |
| `LoweringLabels.SwitchTracks` | onejit/compiler.cpp:694-769 | The same for switch, whose two labels per case are placed by the following case or by the end. |
| `LoweringLabels.ForTracks` | onejit/compiler.cpp:548-582 | The same for loops: three labels, each placed once. |
| `LoweringErrors.AddErrors` | onejit/compiler.cpp:343-373 | Lowering any statement from any state reports exactly one error for each break, continue and fallthrough outside of its scope and for each switch with two Defaults, in the parts that are compiled, and no other. |
| `LoweringErrors.FuncErrors` | onejit/compiler.cpp:93-114 | So a function is lowered without errors if and only if nothing in it is misplaced. |
| `LoweringErrors.LowerableErrors` | onejit/compiler.cpp:93-114 | Nothing is in functions of the domain. |
| `LoweringErrors.TopErrors` | onejit/compiler.cpp:343-373 | A jump to the innermost destination, or one error when there is none, and never both. |
| `LoweringErrors.DefaultCountExact` | onejit/compiler.cpp:698-712 | A switch is refused exactly when two of its cases are Default. |
| `LoweringErrors.DecidedExact` | onejit/compiler.cpp:206-271 | An expression compiles to a constant exactly when constants in it decide it, and to that constant. |
| `LoweringLength.FuncLength` | onejit/compiler.cpp:93-114 | How many instructions the code of every function has, as a sum over the source; all expressions in it are compiled, and no conditional jump in it compares two constants of one kind. |
| `LoweringLength.AddGrows` | onejit/compiler.cpp:500-769 | The same for every statement from every state: one instruction for each assignment, jump, label and expression statement, and none for branches, loops and tests that are decided. |
| `LoweringLength.ExprGrows` | onejit/compiler.cpp:160-271 | The same for every expression: a copy for each argument of a tuple that is no variable or constant, and the three or four instructions of a stored && or ||. |
| `LoweringLength.JumpGrows` | onejit/compiler.cpp:452-496 | A jump on a test: one instruction, none when the test is decided and never true. |
| `LoweringLength.FormExact` | onejit/compiler.cpp:160-271 | The form of a compiled expression, as far as the code around it depends on it, is fixed by the source. |
| `LoweringLimits.SignedLessSkipsBranch` | onejit/opstmt.cpp:188-218 | Outside the domain: the branch of an `if` on a signed < is skipped exactly where the source takes it; `JumpOpExact` and `EmitJumpExact` have the condition. |
| `LoweringLimits.ContinueSkipsPost` | onejit/compiler.cpp:561-576 | Outside the domain: a loop that its `post` would end runs forever on the machine, for every number of steps; `ContinueExact` has the condition. |
| `LoweringContinue.MovedCode` | onejit/compiler.cpp:548-582 | A loop lowers to the same code, from every state, as the loop with `post` moved to the end of its body. |
| `LoweringContinue.MovedSim` | onejit/compiler.cpp:548-582 | So the code of any loop with good parts does what the moved loop does, also with `continue` in front of a `post`. |
| `LoweringContinue.ContinueExact` | onejit/compiler.cpp:561-576 | From a given store, a turn that ends in `continue` does the same on both sides, whatever the loop around it and its well-typed test, if and only if `post` has no effect in that store. |
| `LoweringContinue.TurnsExact` | onejit/compiler.cpp:561-576 | For a body and a `post`: the turns that end in `continue` are right in every loop around them, for every init, well-typed test and store, if and only if `post` has no effect wherever the body continues (`Harmless`). |
| `LoweringContinue.HarmlessForms` | onejit/compiler.cpp:561-576 | It has none behind a body without a `continue` of its own, and when it is empty. |
| `LoweringLoops.LoopsExact` | onejit/compiler.cpp:548-582 | For a body and a `post`: every loop around them with a well-typed test does on every store and with every fuel what its code does, if and only if no effect of `post` behind a `continue` can be noticed (`Hidden`): it has none, or the body has changed nothing that can be read and `post` changes nothing that can be read either, or does not end. |
| `LoweringLoops.MovedAgrees` | onejit/compiler.cpp:561-576 | So a loop and its code agree when all its turns are right. |
| `LoweringLimits.TrueLoopIsDropped` | onejit/compiler.cpp:553-558 | A loop on `true` that sets a variable and breaks lowers to nothing, from every state. |
| `LoweringLimits.ConstantTestExact` | onejit/compiler.cpp:553-558 | A loop on a constant lowers to `init` alone; for all its other parts, stores and fuels that is what the loop does if and only if the constant is zero. |
| `LoweringLimits.HoistedDivisionFaults` | onejit/compiler.cpp:187-204 | Outside the domain: the code of a right operand of && divides by zero where the source gives false; `RunsExact` and `SkippedOperandExact` have the condition. |
| `LoweringStops.RunsExact` | onejit/compiler.cpp:160-204 | The code of an expression comes to its end in a store if and only if everything it computes has a value there, the operands of && and || also where the source skips them (`Runs`). |
| `LoweringExprs.CastExact` | onejit/compiler.cpp:178-185 | A cast of any operand whose code runs: the code comes to its end, and the compiled cast has the value of the source if and only if it casts to the kind of its operand or compiling gives the operand back (`CastOk`). |
| `LoweringAgain.CompiledExact` | onejit/compiler.cpp:160-204 | Compiling gives an expression back if and only if it has the form of what compiling gives (`Compiled`), and then emits nothing. |
| `LoweringLimits.CastForgetsKind` | onejit/compiler.cpp:178-185 | Outside the domain: the cast to uint8 of a tuple of one int8 becomes a cast to int8, and gives -1 for 255; `CastExact` has the condition. |
| `LoweringStops.SkippedOperandExact` | onejit/compiler.cpp:187-204 | Where the left operand decides, the code comes to its end if and only if the code of both operands runs; it is enough that the right one emits nothing or never fails. |
| `LoweringStops.ExprStops` | onejit/compiler.cpp:160-204 | Otherwise the machine stops inside of that code. |
| `LoweringLimits.VariableOperandHasNoJump` | onejit/compiler.cpp:227-229 | Outside the domain: && with a variable on the right has no jump, and the code stops at it in every store; `EmitJumpExact` has the condition. |
| `LoweringLimits.CycleNeverStops` | onejit/compiler.cpp:561-576 | A machine that comes back to a configuration never stops; the argument behind the endless loop. |
| `LoweringAgain.CompiledResult` | onejit/compiler.cpp:160-204 | Compiling gives a compiled expression that is no larger than its source. |
| `LoweringAgain.CompiledAgain` | onejit/compiler.cpp:160-204 | Compiling a compiled expression changes nothing and emits nothing. |
| `Compilers.Compiler.Function` | onejit/compiler.cpp:93-114 | The stateful compiler emits prologue, body and epilogue exactly as the specification does, from an empty state. |
| `Compilers.Compiler.Statement` | onejit/compiler.cpp:377-409 | The state after a statement, with code, stacks, labels, variables and errors, is the specified one. |
| `Compilers.Compiler.Expression` | onejit/compiler.cpp:160-176 | The state after an expression and the compiled expression are the specified ones. |
| `Compilers.Compiler.SimplifyLand` | onejit/compiler.cpp:215-242 | simplify_land(): the same branches; None stands for the node that stays. |
| `Compilers.Compiler.SimplifyLor` | onejit/compiler.cpp:244-271 | simplify_lor(), likewise. |
| `Compilers.Compiler.TupleNode` | onejit/compiler.cpp:273-305 | The loop over the children of a tuple gives the specified arguments and code. |
| `Compilers.Compiler.JumpIf` | onejit/compiler.cpp:452-496 | The loop over negations and the emitted jump are the specified ones. |
| `Compilers.Compiler.GotoTop` | onejit/compiler.cpp:343-373 | break, continue and fallthrough: with a destination exactly one Goto to the top label and no error, without one exactly one more error and no code. |
| `Compilers.Compiler.IfNode` | onejit/compiler.cpp:510-534 | if, as specified. |
| `Compilers.Compiler.ForNode` | onejit/compiler.cpp:548-582 | for, as specified; the stacks are pushed and popped around the body. |
| `Compilers.Compiler.CondNode` | onejit/compiler.cpp:627-651 | The loop over clauses gives the code of the recursive specification. |
| `Compilers.Compiler.SwitchNode` | onejit/compiler.cpp:694-769 | The loop over cases with its four label variables gives the code of the recursive specification. |
| `Compilers.Compiler.BlockNode` | onejit/compiler.cpp:620-625 | The loop over statements gives the code of the recursive specification. |
| `Compilers.Compiler.CaseStart` | onejit/compiler.cpp:725-754 | What precedes a body, and the labels that the next case gets. |
| `Lowering.LoopScopeEnds` | onejit/compiler.cpp:799-811 | exit_loop() undoes enter_loop(), around anything that was compiled in between. |
| `Lowering.CaseScopeEnds` | onejit/compiler.cpp:785-797 | exit_case() undoes enter_case(), likewise. |
| `Values.EvalTuple` | onejit/eval.cpp:170-232 | The loops of eval_tuple_op() compute the fold over the operands, and Invalid when one is missing. |
| `OperatorLaws.ArithmeticExact` | onejit/value.cpp:317-354 | +, - and * give the one number of the kind that differs from the sum, difference or product of the integers by a multiple of 2^bits. |
| `OperatorLaws.NegationsExact` | onejit/value.cpp:297-315 | So do the negative, and the complement, which is one less. |
| `OperatorLaws.ConversionsExact` | onejit/value.cpp:36-38 | CAST and BITCOPY between integer kinds keep the number, up to a multiple of 2^bits of the new kind. |
| `OperatorLaws.DivisionFails` | onejit/value.cpp:356-380 | QUO and REM have no value exactly for a zero divisor and for the smallest int64 by -1. |
| `OperatorLaws.DivisionExact` | onejit/value.cpp:356-380 | Otherwise they are the one quotient and remainder with a = q * b + r, |r| < |b|, and r of the sign of a, the quotient up to a multiple of 2^bits. |
| `OperatorLaws.BitwiseExact` | onejit/value.cpp:382-407 | &, | and ^ bit by bit, for every bit of the kind. |
| `OperatorLaws.ShiftExact` | onejit/value.cpp:409-427 | Shifts bit by bit: << puts zeros, >> repeats the sign of signed kinds; they have a value exactly for counts from 0 to 63. |
| `OperatorLaws.ComparisonsExact` | onejit/eval.cpp:141-158 | Each comparison by the numbers of its operands; operands of different kinds have no value. |
| `OperatorLaws.BooleansExact` | onejit/eval.cpp:135-140 | &&, || and ! on the two booleans. |
| `OperatorLaws.ExtremesExact` | onejit/eval.cpp:198-217 | MAX and MIN of any number of operands: one of them, and none of them is larger or smaller. |
| `Values.WrapHomomorphism` | onejit/value.cpp:21-34 | Truncation with sign extension is idempotent and respects sums, products and differences. |
| `Values.CanonicalRange` | onejit/value.cpp:21-34 | The canonical numbers of a kind are exactly its unsigned or two's complement range. |
| `OperatorLaws.KindRanges` | onejit/kind.cpp:36-42 | The numbers of each kind, kind by kind. |
| `Ir.EvalTyped` | onejit/eval.cpp:61-92 | A typed expression evaluates to a canonical value of its kind, or to nothing. |
| `Ir.EvalAgree` | onejit/eval.cpp:61-92 | The value of an expression depends only on the variables that it reads. |
| `Monoid.StepIdentity` | onejit/value.cpp:241-269 | Value::identity() is the identity of its operator on canonical values. |
| `Monoid.Absorbs` | onejit/value.cpp:272-293 | Value::absorbing() absorbs every canonical operand. |
| `OperatorLaws.AbsorbingExact` | onejit/value.cpp:272-293 | Value::absorbing() gives an operand if and only if that operand decides the result against every other one, for every kind but Void; for MIN not on Int8 to Int32. |
| `Monoid.StepAssociates` | onejit/eval.cpp:170-232 | Every n-ary operator is associative on canonical values. |
| `Monoid.StepCommutes` | onejit/eval.cpp:170-232 | Every n-ary operator but COMMA is commutative. |
| `Monoid.TupleConcat` | onejit/eval.cpp:170-232 | The tuple of two lists is the join of their tuples. |
| `OptimizerTuples.OptimizeMeans` | onejit/optimizer.cpp:59-95 | Optimizing a typed expression of the domain, under any flags and without checks, gives a typed expression of the same kind that has the same value in every environment in which the source has one. |
| `OptimizerTuples.FlattenMeans` | onejit/optimizer_tuple.cpp:50-69 | Flattening nested tuples of one header keeps the value of the tuple. |
| `OptimizerTuples.PartialMeans` | onejit/optimizer_tuple.cpp:71-118 | Sorting, folding the trailing constants, and dropping identities keep the value of a tuple. |
| `OptimizerTuples.SortMeans` | onejit/optimizer_tuple.cpp:77-86 | Reordering the children of a commutative tuple keeps its value. |
| `OptimizerTuples.FoldTailMeans` | onejit/optimizer_tuple.cpp:87-104 | The loop that folds trailing constants joins exactly their values. |
| `OptimizerMeaning.UnaryReplaced` | onejit/optimizer.cpp:113-165 | Folding and simplifying unary operators keeps the value, modulo 2^bits. |
| `OptimizerMeaning.BinaryReplaced` | onejit/optimizer_binary.cpp:28-94 | Folding and rewriting binary operators keeps the value where there is one; that they are folded and rewritten is `BinaryReduced`. |
| `OptimizerMeaning.PartialReplaces` | onejit/optimizer_binary.cpp:96-125 | Swapping a comparison and dropping a right identity keep the value. |
| `OptimizerMeaning.RewriteReplaces` | onejit/optimizer_binary.cpp:127-149 | x - x, x / x, x % x, and subtraction of one keep the value where the division is defined. |
| `OptimizerMeaning.BooleanReplaces` | onejit/optimizer_binary.cpp:159-199 | The rewrites of && and || keep the value. |
| `OptimizerMeaning.ComparisonReplaces` | onejit/optimizer_binary.cpp:201-243 | The rewrites of comparisons, with themselves and with zero, keep the value. |
| `OptimizerMeaning.ZeroComparison` | onejit/optimizer_binary.cpp:203-226 | Comparing an unsigned expression with zero. |
| `OptimizerMeaning.NegationPairs` | onejit/optimizer.cpp:135-165 | ~~x, --x, ~-x and -~x on every kind. |
| `OptimizerMeaning.EqualOperands` | onejit/ir/node.cpp:180-203 | In the domain, operands that deep_equal() takes for equal are equal and cannot fail. |
| `Optimizing.Optimize` | onejit/optimizer.cpp:59-111 | The result is no larger than its source; with FlattenChild this is why the mutual recursion ends although optimized children are entered again. |
| `Optimizing.FlattenChild` | onejit/optimizer_tuple.cpp:50-69 | What replaces a child is no larger than the child. |
| `Optimizing.PartialEvalTuple` | onejit/optimizer_tuple.cpp:71-118 | The new tuple is no larger than the old one. |
| `OptimizerForm.TupleNormalForm` | onejit/optimizer_tuple.cpp:50-118 | With folding and simplification on, for every check mask and whatever the children are: an optimized commutative tuple that still has its header has several children, none with that header, sorted, and a constant only in the last place; or it is the tuple as it was, all its flattened children are constants, and they do not combine to a value. |
| `OptimizerReduced.OptimizeReduced` | onejit/optimizer.cpp:59-165 | With folding and simplification on, for every expression and every check mask, at any depth of the result: no unary operator on a constant, no two constant operands that have a value together, no ~~x, --x, -~x, ~-x, negated comparison or conversion to the same kind, no right operand that changes nothing, no difference, quotient, remainder or comparison of equal operands, no constant left of a comparison or beside && and ||, no unsigned order against zero; tuples flat, sorted, with at most one constant, last, neither identity nor absorbing variables; except inside of tuples of constants that do not combine, which do not arise from well-typed expressions without checks. |
| `OptimizerReduced.UnaryReduced` | onejit/optimizer.cpp:113-165 | For one unary operator on a reduced operand. |
| `OptimizerReduced.BinaryReduced` | onejit/optimizer_binary.cpp:28-94 | For one binary operator on reduced operands. |
| `OptimizerReduced.RewriteReduced` | onejit/optimizer_binary.cpp:127-243 | What the rewrites by operator give is reduced; where they give nothing, the node is. |
| `OptimizerReduced.PartialReduced` | onejit/optimizer_tuple.cpp:71-118 | For the tuple of flattened, reduced children. |
| `OptimizerReduced.FoldsOnly` | onejit/optimizer.cpp:113-133 | With folding alone, for every expression, also one that is not well typed: parts become the constants that they are in every store, nothing else changes, and outside of tuples no operator on constants of one kind is left. |
| `OptimizerReduced.SimplifiesOnly` | onejit/optimizer.cpp:113-133 | With simplification alone, unary operators on constants (but conversions to the same kind), shifts of constants by constants other than zero, and sums of two constants stay, the sums in order. |
| `OptimizerReduced.NothingDone` | onejit/optimizer.cpp:49-57 | With neither, nothing changes. |
| `OptimizerForm.TypedNormalForm` | onejit/optimizer_tuple.cpp:50-118 | Without checks the second case does not occur in well-typed tuples: every one is normal while it keeps its header. |
| `OptimizerTyped.OptimizeTyped` | onejit/optimizer.cpp:59-111 | Without checks, optimizing keeps every well-typed expression well typed and of its kind, also where it does not keep the value. |
| `OptimizerForm.SortSorted` | onejit/optimizer_tuple.cpp:77-86 | The children are sorted by deep_compare(). |
| `OptimizerForm.SortUnique` | onejit/optimizer_tuple.cpp:77-86 | Children with direct leaves have one sorted order only, so the sorting algorithm does not matter. |
| `OptimizerForm.DifferenceExact` | onejit/ir/node.cpp:180-203 | Optimizing a - b of two variables keeps its value exactly when they are the same or one id is below 2^21. |
| `OptimizerForm.DifferenceLost` | onejit/ir/node.cpp:180-203 | The difference of the int32 variables 2^21 and 2^21 + 1 is optimized to zero, and is 1 in some store. |
| `OptimizerForm.IdentityExact` | onejit/value.cpp:211-220 | A tuple of one operand has the value of the operand exactly when its identity is right: not for MAX on Int8, Int16 and Int32, where the minimum is not sign-extended. |
| `OptimizerForm.MaximumOfOne` | onejit/value.cpp:211-220 | MAX of the single int8 5 is 128; `IdentityExact` has the condition. |
| `OptimizerComma.CommaExact` | onejit/optimizer_tuple.cpp:87-118 | A COMMA of optimized children keeps its value in a store if and only if it has none, or no constant stands at its end, or what is last without the constants has the value of the last constant (and that constant is the zero of the kind when nothing else is left). |
| `OptimizerComma.CommaStays` | onejit/optimizer_tuple.cpp:87-118 | It keeps its value in every store when its last child is no constant. |
| `OptimizerComma.OptimizeCommaExact` | onejit/optimizer_tuple.cpp:50-118 | The same condition for optimizing a whole COMMA of expressions of the domain and of further COMMAs to any depth. |
| `OptimizerComma.CommaDropsConstant` | onejit/optimizer_tuple.cpp:87-118 | The COMMA of an int8 variable and 5, which is 5 in every store (`eval.cpp` takes the last value), is optimized to the variable. |
| `Nodes.DeepEqualExact` | onejit/ir/node.cpp:180-203 | On two trees with direct leaves that share no node, deep_equal() holds exactly for equal trees without a forbidden division. |
| `SharedNodes.NodesEqualExact` | onejit/ir/node.cpp:180-203 | On nodes of one buffer, which may share parts at any depth: deep_equal() holds exactly when the trees are equal and no forbidden division is met outside of shared nodes. |
| `SharedNodes.SharedEqualExact` | onejit/ir/node.cpp:180-203 | So it is the comparison of trees where nothing is shared, equality where divisions are allowed, and yes for the same node unless that is a forbidden division itself; what it takes for equal is equal. |
| `SharedNodes.SharedDivision` | onejit/ir/node.cpp:189-192 | With divisions forbidden, the node of -(1 / v0) is equal to itself in every buffer, and its tree is not equal to its copy. |
| `SharedNodes.SharingMatters` | onejit/ir/node.cpp:189-192 | For one node the answer differs from that for two copies if and only if a forbidden division is inside of it and not on top. |
| `Nodes.LeavesEqualExact` | onejit/ir/node.cpp:180-203 | On two leaves of one kind, deep_equal() holds exactly when they are equal or both indirect. |
| `Nodes.CompareSwap` | onejit/ir/node.cpp:209-236 | deep_compare() is antisymmetric and gives -1, 0 or 1. |
| `Nodes.CompareTransitive` | onejit/ir/node.cpp:209-236 | deep_compare() is transitive, also through equivalent nodes: a strict weak order. |
| `Nodes.CompareZero` | onejit/ir/node.cpp:209-236 | deep_compare() gives 0 exactly where deep_equal() holds. |
| `Nodes.ConstantsLast` | onejit/ir/header.hpp:85-92 | Nothing but constants compares behind a constant. |
| `Nodes.HeaderDecides` | onejit/ir/node.cpp:209-220 | Nodes are ordered by type, then by the number of the kind, then by that of the operator; of one header, direct ones come first, in the order of their data. |
| `Nodes.OperandsDecide` | onejit/ir/node.cpp:221-236 | Nodes of one header that have offsets are ordered by their operands, the left one first. |
| `Nodes.FirstDecides` | onejit/ir/node.cpp:221-236 | Of two lists of operands the first two that differ decide, and else the number of operands. |
| `Nodes.OrderExact` | onejit/ir/header.hpp:85-92 | The order of headers tells all headers apart. |
| `Nodes.IsDeepPure` | onejit/ir/node.cpp:238-261 | The loop down the last child decides whether any node of the tree is forbidden. |
| `OptimizerAssign.AssignKeeps` | onejit/optimizer.cpp:171-218 | Every rewrite of an assignment to a variable with a direct id leaves the same store whenever the assignment itself ends, through any chain of rewrites. |
| `OptimizerAssign.SimplifyAssignKeeps` | onejit/optimizer.cpp:228-264 | op= with a constant: absorbing, identity, one and minus one. |
| `OptimizerAssign.SelfAssignKeeps` | onejit/optimizer.cpp:178-197 | op= with the variable itself. |
| `OptimizerAssign.ShortenKeeps` | onejit/optimizer.cpp:198-215 | dst = dst op y stores what dst op= y stores. |
| `OptimizerAssign.CopyExact` | onejit/optimizer.cpp:171-218 | dst = src of two variables keeps the store exactly when they are the same or one id is below 2^21. |
| `OptimizerAssign.AssignTables` | onejit/opstmt.cpp:77-146 | to_assign_op() and to_op2() / to_opn() are inverse to each other. |
| `OptimizerReducedStmts.OptimizeStmtReduced` | onejit/optimizer.cpp:59-264 | The same for statements: every expression in an optimized statement is reduced, and no assignment in it has a shorter form: op= with an operand that does nothing, decides, or is one step up or down, op= of a variable with itself, and dst = dst op y. |
| `OptimizerReducedStmts.AssignReduced` | onejit/optimizer.cpp:171-264 | For one assignment of a reduced expression. |
| `OptimizerStmts.StmtKeeps` | onejit/optimizer.cpp:59-95 | Optimizing a statement, with every expression and assignment in it, keeps outcome and store of every run that does not fault, and running out of fuel. |
| `OptimizerStmts.SwitchKeeps` | onejit/optimizer.cpp:97-111 | The optimized cases of a switch select the same case and run the same bodies. |
| `OptimizerLowered.OptimizedSim` | onejit/compiler.cpp:93-114 | Optimizing and then lowering a function whose optimized body is in the domain: the flat code comes to its return with what the source leaves in every source variable, as its kind reads it. |
| `OptimizerDomain.CompileSim` | onejit/compiler.cpp:93-114 | The same with conditions on the source body: steady expressions, and no test that the optimizer makes one its jump gets wrong. |
| `OptimizerDomain.LowerableExact` | onejit/optimizer.cpp:59-95 | On programs of steady expressions: the optimized program is in the domain of the lowering theorems if and only if none of its tests becomes a signed < or <= where its jump is negated, a constant that is not zero as a loop test, or leaves a `post` behind a `continue`. |
| `OptimizerLowered.OptimizedHalts` | onejit/compiler.cpp:93-114 | A function without faults whose optimized body is in the domain: what it is compiled to stops on the machine if and only if its source ends. |
| `OptimizerDomain.CompileHalts` | onejit/compiler.cpp:93-114 | The same with the conditions on the source body. |
| `OptimizerPlain.PlainSim` | onejit/compiler.cpp:93-114 | The same as `CompileSim`, without checks and for all settings of the two flags, also none, where the optimizer is not run, with conditions on the source alone: steady expressions, no ordered comparison of signed operands in a test of `if`, `cond` or `for`, and loop tests that nothing decides. |
| `OptimizerPlain.PlainHalts` | onejit/compiler.cpp:93-114 | And such a function stops on the machine if and only if its source ends, when that does not fault. |
| `OptimizerPlain.PlainLowers` | onejit/compiler.cpp:377-409 | Such programs are in the domain of the lowering theorems also without the optimizer. |
| `OptimizerPlain.PlainSafe` | onejit/optimizer.cpp:59-95 | The tests of such programs are safe from the optimizer, without checks and for every setting of its flags. |
| `OptimizerPlain.PlainTest` | onejit/opstmt.cpp:188-218 | A test without ordered comparisons of signed operands is optimized to no signed < or <=, however many negations are around it. |
| `OptimizerDomain.TestExact` | onejit/opstmt.cpp:188-218 | A test serves if, cond and for exactly when its compiled form is no signed < or <=, counted with its negations. |
| `OptimizerDomain.OptimizeSteady` | onejit/optimizer.cpp:59-111 | Optimizing keeps expressions steady: no casts, right operands of && and || that cannot fail, left ones of && that are no signed < or <=. |
| `OptimizerDomain.SteadyLowers` | onejit/compiler.cpp:160-204 | Steady expressions are in the domain of the lowering theorems. |
| `OptimizerLimits.SignedTestFlips` | onejit/optimizer.cpp:59-95 | A negated >= on int8 is in the domain, and the optimizer makes it the signed < that lowers to the wrong jump. |
| `OptimizerLimits.LoopTestFolds` | onejit/compiler.cpp:553-558 | A loop test that the optimizer folds to true is dropped by lowering. |
| `Optimizers.Optimizer.Run` | onejit/optimizer.cpp:49-57 | The optimizer with its node buffer computes the specified expression; without flags it does nothing. |
| `Optimizers.Optimizer.OptimizeNode` | onejit/optimizer.cpp:59-103 | Gives the specified expression, whose value `OptimizeMeans` and whose form `OptimizeReduced` are about, and leaves the buffer as it was. |
| `Optimizers.Optimizer.OptimizeChildren` | onejit/optimizer.cpp:97-111 | Resizing the buffer and filling it slot by slot appends the optimized children. |
| `Optimizers.Optimizer.FlattenToBuffer` | onejit/optimizer_tuple.cpp:50-69 | The buffer grows by the flattened children. |
| `Optimizers.Optimizer.SortFrom` | onejit/optimizer_tuple.cpp:77-86 | Sorts the end of the buffer in place and leaves the rest. |
| `Optimizers.Optimizer.PartialEval` | onejit/optimizer_tuple.cpp:71-118 | In place on the buffer: the specified tuple, and the part before it untouched. |
| `Optimizers.Optimizer.FoldConstants` | onejit/optimizer_tuple.cpp:87-104 | The loop over trailing constants stops at the last child that is not constant, with their folded value. |
| `FlowGraphs.BlocksPartition` | onejit/flowgraph.cpp:51-90 | The blocks follow each other from 0 to the end, none is empty, labels are first in a block and recognised jumps last, and a block ends at nothing but such a jump, a label that follows another instruction, or the end. |
| `FlowGraphs.PartitionAt` | onejit/flowgraph.cpp:51-90 | Each block starts where the one before it ends, and exactly the last ends at the end of the code. |
| `FlowGraphs.BlockOfExact` | onejit/flowgraph.cpp:51-90 | Every instruction lies in exactly one block. |
| `FlowGraphs.BoundaryExact` | onejit/flowgraph.cpp:51-90 | A block begins behind each Goto, return and conditional jump but ASM_JLE, at each label that does not follow another one, and nowhere else. |
| `FlowGraphs.StepStays` | onejit/flowgraph.cpp:105-140 | Every step of the machine that executes anything but ASM_JLE goes on inside its block, enters a member of `next`, or leaves the code. |
| `FlowGraphs.StepStaysExact` | onejit/flowgraph.cpp:105-140 | A step of the machine stays in the graph if and only if it does not execute ASM_JLE, or goes to the instruction behind it, or the block of its label is in `next` for another reason. |
| `FlowGraphs.LabelHolder` | onejit/flowgraph.cpp:92-103 | The label table finds the block that holds a label. |
| `FlowGraphs.NextExact` | onejit/flowgraph.cpp:105-140 | `next` of a block: the following block, unless its last instruction is a Goto or a return, and the block of the label of a Goto or of a conditional jump but ASM_JLE; no other. |
| `FlowGraphs.PrevInverse` | onejit/flowgraph.cpp:142-164 | A block is in `prev` of another exactly when that one is in its `next`, and no block is listed twice. |
| `FlowGraphBuilder.CapacityEnough` | onejit/flowgraph.cpp:64-89 | 1 + label_max + 2 * jumps bounds the label table and all successor and predecessor lists, for every code. |
| `FlowGraphBuilder.NextWeight` | onejit/flowgraph.cpp:71-85 | A block has no more successors than it adds to the count, exactly as many when its jump has a label that stands, and one less behind a return. |
| `FlowGraphBuilder.PrevFits` | onejit/flowgraph.cpp:142-164 | There are no more predecessor than successor entries. |
| `FlowGraphBuilder.FlowGraph.Build` | onejit/flowgraph.cpp:34-45 | Builds the blocks and the two exact link lists in the preallocated array; false with one more error exactly when a recognised jump at the end of a block has no label. |
| `FlowGraphBuilder.FlowGraph.BuildBlocks` | onejit/flowgraph.cpp:51-90 | The nested loops find the specified blocks and allocate the array of that size. |
| `FlowGraphBuilder.FlowGraph.ScanBlock` | onejit/flowgraph.cpp:58-84 | The inner loops find the end of a block, its weight and the new maximum of the labels. |
| `FlowGraphBuilder.FlowGraph.ResolveLabels` | onejit/flowgraph.cpp:92-103 | Fills the table that gives the block of each label. |
| `FlowGraphBuilder.FlowGraph.ResolveNext` | onejit/flowgraph.cpp:105-140 | Writes all successor lists behind the table, and stops at the first jump without a label. |
| `FlowGraphBuilder.FlowGraph.ResolvePrev` | onejit/flowgraph.cpp:142-164 | Writes all predecessor lists behind the successors, and changes nothing that was written before. |
| `FlowGraphLowered.ResolveExact` | onejit/flowgraph.cpp:105-140 | Building the graph succeeds exactly when every Goto and every conditional jump but ASM_JLE has its label in the code. |
| `FlowGraphLowered.LoweredResolves` | onejit/compiler.cpp:93-114 | The flow graph of every compiled function is built without an error. |
| `FlowGraphLowered.ElseIsOverlooked` | onejit/ir/util.cpp:37-93 | The graph of a signed `if` overlooks its ASM_JLE, and the step to the else branch enters no successor of its block; `StepStaysExact` has the condition. |
| `Imm.EncodeExact` | onejit/imm.hpp:130-192 | A direct constant decodes to its kind and 64 bits, and a constant is direct exactly when some byte rotation of its bits or of their complement fits 23 bits. |
| `Imm.EncodeFirst` | onejit/imm.hpp:130-192 | The fields of a direct constant: the least rotation that fits, the bits flipped only if they do not fit as they are, and the 23 bits that are left of them. |
| `Imm.EncodeInjective` | onejit/imm.hpp:130-192 | Equal direct forms of canonical constants of one kind mean equal constants. |
| `Imm.SmallIsDirect` | onejit/imm.hpp:111-134 | Every number of at most 23 bits, signed or not, is direct. |
| `Imm.LocalExact` | onejit/local.hpp:78-105 | A variable is direct exactly when its id is below 2^21, and then decodes to its kind and id. |
| `Imm.TagsDiffer` | onejit/local.hpp:83-87 | The low bits of the two direct forms tell them from each other and from offsets. |
| `Codec.HeaderBack` | onejit/ir/header.hpp:60-66 | A header is read back from its item, whose low bits tell it from every other item; `HeaderFields` has its layout. |
| `CodecLayout.HeaderFields` | onejit/ir/header.hpp:60-66 | The fields of a header item: the tag 0xE, 4 bits of type, 8 of kind, 16 of op, from the low end. |
| `CodecLayout.ChildrenByType` | onejit/type.cpp:22-41 | How many children a node of each type has, by the numbers of the types. |
| `CodecLayout.ChildByType` | onejit/ir/node.cpp:55-103 | Where the item of child i lies, and what it means by its low bits. |
| `CodecLayout.LengthByType` | onejit/ir/node.cpp:105-129 | How many words a node of each type takes. |
| `CodecLayout.BitsByKind` | onejit/kind.cpp:36-42 | How many bits a constant of each kind has, by the numbers of the kinds, doubled by each step of the repetitions. |
| `CodecLayout.KindNumbers` | onejit/kind.hpp:26-46 | The number of each integer kind stands for a kind of its width. |
| `Codec.ReadBack` | onejit/ir/node.cpp:51-103 | What the buffer represents is what children() and child() read, at any depth. |
| `Codec.Relocate` | onejit/ir/node.cpp:55-103 | A tree moves with its segment to any place in any buffer of less than 2^32 bytes and stays the same tree. |
| `Codec.AppendStable` | onejit/code.cpp:65-80 | Appending to the buffer changes none of the trees in it. |
| `CodecWriter.WriteReads` | onejit/ir/node.cpp:131-148 | A tree that is written children first reads back as the same tree and lies in what was appended. |
| `CodecWriter.NodeReads` | onejit/ir/node.cpp:131-148 | A node over references to represented children represents its tree. |
| `CodecWriter.ChildBack` | onejit/code.cpp:120-128 | The distance that is stored modulo 2^32 gives back the child. |
| `CodecWriter.DistanceBack` | onejit/code.cpp:120-128 | A distance modulo 2^32 is no direct item, and leads back to the node it was taken from. |
| `CodecWriter.ParseWrite` | onejit/codeparser.cpp:22-29 | Sequential parsing of what a tree wrote visits its nodes in the order of their creation and consumes all of it. |
| `Codes.CodeParser.Next` | onejit/codeparser.cpp:22-29 | On any buffer, next() gives its offset and moves forward, or gives None exactly at the end; along the nodes that were written it gives one after the other. |
| `Codes.Code.Build` | onejit/ir/node.cpp:131-148 | Builds a tree with the appending methods: the buffer is the written one, reads back as the tree, and parses as the nodes made. |
| `Codes.Code.constructor` | onejit/code.cpp:47-51 | A new buffer is the signature written as a node, which parses from offset 0. |
| `Codes.SignatureValid` | onejit/code.cpp:47-51 | The signature is a valid tree of two words. |
| `Codes.ParseOnward` | onejit/codeparser.cpp:22-29 | Parsing from offset 0 visits the nodes that were there before a tree was written and then those of the tree. |
| `Codes.Code.CreateIndirect` | onejit/ir/node.cpp:131-148 | Appends header, length and children, and returns the offset of the node. |
| `Codes.Code.AddUint64` | onejit/code.cpp:53-75 | What is appended at the end reads back as the same 64 bits. |
| `Codes.Code.CreateConst` | onejit/imm.cpp:32-38 | A constant appends nothing when it is direct, else its header and one or two words. |
| `Codes.ConstExact` | onejit/imm.cpp:22-38 | The words of an indirect constant are as many as length_items() says; reading them gives the bits back exactly when it has 64 bits or is not negative. |
| `Codes.NegativeIndirect` | onejit/imm.cpp:22-30 | There is an int32 constant that does not come back. |
| `ExprCodec.ExprBack` | onejit/ir/node.cpp:51-103 | The tree of an expression is valid and stands for that expression only. |
| `ExprCodec.StoreLoad` | onejit/ir/node.cpp:131-148 | Writing an expression into any buffer and reading it gives the expression back. |
| `BitSets.FindExact` | onestl/bitset.cpp:117-139 | find() gives the first matching position, or none, for true from every start; for false exactly when no shifted-in zero is taken for a match, a condition on the start and two ranges of bits. |
| `BitSets.ClearBitMissed` | onestl/bitset.cpp:117-139 | With bits 1 to 64 set, the search for a clear bit from 1 on does not give the first clear bit; `FindExact` has the condition. |
| `BitSets.FindWordsExact` | onestl/bitset.cpp:124-138 | From a word-aligned start, find() is right for both values. |
| `BitSets.BitSet.FindBit` | onestl/bitset.cpp:117-139 | The loop over words computes the specified search. |
| `BitSets.BlendFills` | onestl/bitset.cpp:145-197 | A masked write changes exactly the bits under the mask. |
| `BitSets.BitSet.Fill` | onestl/bitset.cpp:141-198 | Head, bulk and tail together set exactly the bits of [start, min(end, size)) and no other bit of any word. |
| `BitSets.BitSet.FillMiddle` | onestl/bitset.cpp:153-169 | The part inside of one word. |
| `BitSets.BitSet.Set` | onestl/bitset.cpp:106-115 | Changes one bit, or nothing outside. |
| `BitSets.BitSet.Get` | onestl/bitset.hpp:92-96 | The bit, or false outside. |
| `BitSets.BitSet.Truncate` | onestl/bitset.hpp:86-90 | Keeps a prefix; the words keep the old bits. |
| `BitSets.BitSet.Resize` | onestl/bitset.hpp:108-116 | Keeps the old bits and reads false for all new ones, whatever was truncated before. |
| `BitSets.BitSet.Grow` | onestl/bitset.cpp:204-217 | The same for growing, with or without new memory. |
| `BitSets.BitSet.Reserve` | onestl/bitset.hpp:120-125 | More capacity is had, and size and contents stay. |
| `BitSets.BitSet.Realloc` | onestl/bitset.cpp:224-244 | More capacity with the same bits. |
| `BitSets.BitSet.Copy` | onestl/bitset.cpp:246-251 | The contents become those of the source. |
| `WordBits.FirstSetExact` | onestl/bitset.cpp:28-65 | ffs() is one more than the index of the lowest set bit, or 0. |
| `WordBits.BitAtShift` | onestl/bitset.hpp:145-147 | 1 & (a >> i) is bit i. |
| `GraphSpec.IndexExact` | onestl/graph.cpp:38-47 | The 32-bit index of operator() is the index of set() for every pair of nodes exactly when there are at most 65536 nodes. |
| `GraphSpec.IndexWraps` | onestl/graph.cpp:38-47 | With 65537 nodes the index of the last self-edge is 0x20000. |
| `GraphSpec.AnswerExact` | onestl/graph.cpp:38-47 | operator() tells the edges of every graph of n nodes if and only if n is at most 65536. |
| `GraphSpec.SetBits` | onestl/graph.cpp:49-67 | Writing the two bits of an edge changes that edge, in both directions, and no other. |
| `GraphSpec.DegreesChanged` | onestl/graph.cpp:49-67 | One edge changes the degree of each end by one, and of the one end of a self-edge by two, and no other degree. |
| `GraphSpec.Handshake` | onestl/graph.cpp:49-67 | The degrees sum to twice the number of edges. |
| `Graphs.Graph.SetEdge` | onestl/graph.cpp:49-67 | Changes one edge and nothing outside; the matrix stays symmetric and the degrees stay those of the matrix. |
| `Graphs.Graph.Remove` | onestl/graph.cpp:84-92 | Every edge at the node goes and no other; the invariant holds. |
| `Graphs.Graph.Reset` | onestl/graph.cpp:24-36 | n nodes without an edge; the invariant holds. |
| `Graphs.Graph.Dup` | onestl/graph.cpp:94-104 | The same nodes, edges and degrees as the other graph; the invariant holds. |
| `Graphs.Graph.Connected` | onestl/graph.cpp:38-47 | What operator() answers with its 32-bit index, for every number of nodes; it is the edge for up to 65536 of them. |
| `Graphs.Graph.FirstNeighbour` | onestl/graph.cpp:69-82 | The first neighbour from a position on, and None when there is none. |
| `Graphs.Graph.DegreeOf` | onestl/graph.hpp:74-76 | The number of neighbours in the matrix, a self-edge counting twice; 0 outside. |
| `GoParser.ParsePrint` | go/parser/expr.go:113-170 | For every tree of atoms, unary and binary operators: printed with minimal parentheses and parsed it is the same, left-associative tree, and parsing stops at the first token that is no binary operator and begins no suffix (call, index, selector, and composite literal where the flag allows it), however suffixes are parsed; which operators there are and how they bind is `Binding`. |
| `GoParser.ParsePrinted` | go/parser/expr.go:113-127 | The same at every precedence, in front of any operator that binds no tighter and begins no suffix: the climb goes on with the printed tree. |
| `GoParser.ParseTight` | go/parser/expr.go:129-170 | Atoms, unary operators and parentheses parse as one operand in front of a token that begins no suffix. |
| `GoParser.ParenthesesMatter` | go/token/token.go:325-339 | Without the parentheses around a right operand of the same precedence, operators group to the left, also around operands with looser parts. |
| `GoBinding.Binding` | go/token/token.go:325-339 | `x f y g z` for any two of the 19 binary operators, named in their five groups, and any operands: the operator of the tighter group takes its operands first, and of one group the left one does. |
| `GoBinding.UnaryBinding` | go/parser/expr.go:129-136 | Each of the seven unary operators binds tighter than each binary one. |
| `GoBinding.BinaryExact` | go/token/token.go:325-339 | `a t b` is a binary operation exactly for these operators; another token ends the operand, unless it begins a suffix. |
| `GoBinding.UnaryExact` | go/parser/token.go:95-102 | `t a` is a unary operation exactly for the seven. |
| `GoBinding.SuffixExact` | go/parser/expr.go:138-170 | Behind a name, a suffix is parsed exactly at ( [ . and, where composite literals are allowed, at {. |
| `GoBinding.SuffixesExact` | go/parser/expr.go:138-170 | Suffixes are parsed one after the other, until none begins. |
| `GoBinding.LeaveExact` | go/parser/parser.go:181-195 | At the closing token nothing is skipped and nothing marked; otherwise the node is marked, and everything through the next closing token, or up to the end, is skipped. |
| `GoParser.ParseExpr` | go/parser/expr.go:113-127 | Parsing any tokens, well-formed or not, ends and moves forward only, for any suffix parser that does. |
| `GoParser.Parser.ParseExprOrType` | go/parser/expr.go:113-127 | The parser with its position computes the specified tree and position; its loop rebuilds the node. |
| `GoParser.Parser.ParseUnaryExpr` | go/parser/expr.go:129-136 | Likewise for unary operators. |
| `GoParser.Parser.ParsePrimaryExpr` | go/parser/expr.go:138-170 | Likewise for an operand and the loop over its suffixes, which is left when one says so. |
| `GoParser.Parser.ParseOperandExpr` | go/parser/expr.go:172-188 | Likewise for operands and parentheses, and for what is neither. |
| `GoParser.Parser.LeaveNode` | go/parser/parser.go:181-195 | Skips to the closing token and marks the node when that was not the current one. |
| `GoResolver.Resolver.Deps` | go/typecheck/resolver.go:258-276 | Adds the edges from a list of objects, except a lone self-edge, to the graph and its inverse. |
| `GoResolver.LinkedInverse` | go/typecheck/resolver.go:266-275 | Adding one edge to both graphs keeps them inverse. |
| `GoResolver.Resolver.DeclareGlobals` | go/typecheck/resolver.go:279-300 | For every order of the maps: each object is declared at most once, and each batch is one object whose dependencies are all declared before, or, only when no object left is such, exactly what one of those left reaches among them, all types. All are declared, without an error, if and only if no non-empty set of objects is blocked: each depends on one of the set and reaches one in it that is no type. Otherwise there is one error, and what is left is blocked. |
| `GoResolver.OutcomeExact` | go/typecheck/resolver.go:279-300 | Whether all are declared does not depend on the order of the maps. |
| `GoResolver.AcyclicDeclarable` | go/typecheck/resolver.go:279-300 | A graph without cycles is declared completely, whatever its objects are. |
| `GoResolver.TypesDeclarable` | go/typecheck/resolver.go:287-293 | So is any graph of types only, with any cycles. |
| `GoResolver.Resolver.NextBatch` | go/typecheck/resolver.go:281-298 | An object without dependencies whenever there is one; only when there is none, exactly what some object reaches, if these are all types; else nothing, and then there is neither. |
| `GoResolver.Resolver.Declare` | go/typecheck/resolver.go:283-298 | Declaring such a batch keeps the order safe and right, and takes it out of the dependencies of the rest. |
| `GoResolver.RestClosed` | go/typecheck/resolver.go:323-338 | What is left after a batch depends on nothing outside of it. |
| `GoResolver.NextIsRight` | go/typecheck/resolver.go:281-298 | What is right for the graph that is left is right for the whole graph. |
| `GoResolver.Resolver.PickWithoutDeps` | go/typecheck/resolver.go:314-321 | Any object without dependencies; None only when there is none. |
| `GoResolver.Resolver.RemoveDeps` | go/typecheck/resolver.go:323-332 | Removes an object from all dependencies through the inverse graph, and from nothing else. |
| `GoResolver.Resolver.RemoveDepsSet` | go/typecheck/resolver.go:334-338 | The same for a set. |
| `GoResolver.Resolver.GetTransitiveDeps` | go/typecheck/resolver_type.go:312-330 | Exactly the objects that are reachable when all are of the class; None only when one that is reachable is not. |
| `GoResolver.Resolver.FindObjCycle` | go/typecheck/resolver_type.go:299-307 | The reachable set of some object, all of the class; None only when no object has one. |
| `GoResolver.Resolver.Pick` | go/typecheck/resolver_type.go:333-339 | Any element of a set, and the set without it. |

## Left out

- Floating point and SIMD kinds, memory operands, calls, AssignCall, and `return` inside of a body; prologue and epilogue are modelled.
- CAST and BITCOPY in the theorems that compose optimizer and lowering (`Steady` leaves them out), because the optimizer can make the operand of a cast one that compiling changes. Each half has them: the optimizer theorems all casts, the lowering theorems those that `CastOk` admits.
- COMMA (except in `OptimizerComma`) and MAX on Int8, Int16, Int32 in the optimizer theorems, for the reasons above.
- Check masks other than CheckNone in the value theorems (`o.division` says that no check is configured), because with one the optimizer keeps dropped operands in COMMA tuples of kind Void, which are out; and OptFastMath, which is about floating point only.
- Allocation failure and the `good_` flags: memory is available.
- The widths of label indices (16 bits) and of variable ids (24 bits) in the lowering; the optimizer and the codec bound ids by 2^24.
- The flags of compile(Expr): the code receives them and does not look at them.
- An odd number of children of `cond`, which the source reports as an error: clauses are pairs here.
- The order in which std::sort() moves elements; it is modelled by insertion, and `SortUnique` says that the result is the same for children with direct leaves.
- Strings, NAME nodes and SIMD data in the codec; `Code::add_ranges()` and create_indirect_from_ranges(), which append the same words from several ranges.
- The fallback of find_first_set() for builds without ffs(), which counts from 0; the ffs() builds are modelled.
- swap() and moves of BitSet and Graph.
- In the Go parser: types, function literals and comments; an operand is a name, a literal or a parenthesis, anything else is a bad node. What a call, an index, a selector or a composite literal looks like is a parameter, any function that consumes tokens; the loop over them is modelled, with the flag that allows composite literals and without the one for type switches.
- In the Go resolver: what declaring an object does, the text of errors, and names; the worklist is a set of objects.
- The register allocator, the x64 and MIR back ends, formatting, and the REPL.
- LoweringFunc.FuncSim: assumes a body of the domain, as the counterexamples above make necessary, and says nothing of a source that faults; FuncLabels and LoweredResolves hold for every body.
- OptimizerComma.OptimizeCommaExact: the children are expressions of the value theorems or COMMAs of the same kind with at least one child; a COMMA below another operator is not part of it.
- Imm.EncodeExact: assumes that a shift of a 64-bit word by 64, which the last step of the search for a rotation makes and which C++ leaves undefined, gives the word or zero, as the usual processors do.
- Nodes.DeepEqualExact: is about trees that share no node, which is what the optimizer model compares; SharedNodes has deep_equal() on nodes that may share parts, where it can say yes more often but never of different trees.
- OptimizerDomain.CompileSim: assumes steady expressions, which is more than the lowering domain; LowerableExact is exact for the tests.
- OptimizerPlain.PlainSim: its conditions are enough, not necessary: a signed comparison in a test can survive the optimizer, which LowerableExact decides. Like the other value theorems it is about a configuration without checks.
- LoweringDiverges.HaltsExact, OptimizerLowered.OptimizedHalts: about sources that do not fault; code can stop early where the source faults.
- OptimizerForm.TupleNormalForm: its second case, constants that do not combine because their kinds differ, is one that the source leaves alone as well.
- OptimizerReduced.OptimizeReduced: inside of such tuples, which are left as they were, nothing is said; with a check configured they can arise from well-typed expressions too, where a dropped operand is kept in a COMMA tuple of kind Void. Right operands that change nothing are left out for the kind Void, whose one is zero.
- LoweringLength.FuncLength: counts the instructions of the model, where a parameter list is one.
- OperatorLaws.AbsorbingExact: leaves out Void, where every operand decides, and MIN on Int8 to Int32, for which Value::min() gives no number of the kind.
- GoResolver.Resolver.DeclareGlobals: takes as given that both graphs are inverse and that dependencies lie inside of the worklist, which Deps keeps and the rest of the resolver establishes.
- FlowGraphs.StepStaysExact: assumes unique labels, which FuncLabels proves of lowered code.
- Codes.CodeParser.Next: assumes a buffer of less than 2^32 bytes, which the offsets of the source do as well.
