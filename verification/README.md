# A verified model of pydbg

pydbg is a Windows debugger library. It has a static analyzer for PE images, a breakpoint
engine, and a converter that turns a subset of C into LLVM IR for injected probes. This
project models the parts in which state and control flow are intricate and proves what they
promise. `dafny verify dfyconfig.toml` checks all of it. Nothing was executed.

Code that changes state is modelled by classes whose methods are tied to functions of the old
state; what the code promises is proved about those functions, over every input and every run.

**The converter.** `CSource` is the C subset with a reference semantics taken from C11
(sections 6.5.5 to 6.5.16, 6.8.4.1 and 6.8.5.1), `LlvmIr` a small IR with the meanings the LLVM
Language Reference gives its instructions. `Converter` walks the tree and moves its insert point
as the original does; `Emission` says what each routine adds; `ExprMeaning`, `Waiting`,
`StmtMeaning` and `FunctionMeaning` prove that the emitted blocks of one function return the same
value after the same calls as the source, and run forever exactly when it does. `Acceptance` says
of the C text alone which definitions are emitted and verify. `Programs` links the functions of a
unit, in C and as a machine with a call stack, and `ModuleMeaning` proves the same for whole
modules. `Hazards` says exactly when the converter's shortcuts outside the fragment agree with C.

**Breakpoints.** `Breakpoints` is the INT3 life cycle with every call to the operating system
that can fail; `BreakpointSafety` the invariant over all interleavings of set, remove, hit and
step, and exactly which failures break it; `Transparency` the event loop and the simulation by
which a run under breakpoints is the run without them. `Hardware` does the same for debug
registers, their replication to new threads, and roll-back. `TolerantRead` is the two-level read
that reports its gaps, `Instrument` near allocation, near jumps, and installing and restoring a
probe, `Detour` the execution of an instrumented function, `Processes` the listing of descendants.

**The analyzer.** `Image` has sections, addresses and the references of an instruction; the
disassembler is a function from addresses to instructions of 1 to 15 bytes (Intel SDM Volume 2A,
section 2.3.11). `Consts` is constant propagation and a machine it is held against; `Decoder` the
decoder with its cache and coverage accounting; `Functions` starts, extents, ownership and
pruning; `Descent` the edges of recursive descent and the least set closed under them; `Names`
the starts, branch targets, thunks and claims that go with it; `Analyzer` the traversal and its
budgets; `Cfg` the control-flow graph; `Values` the value-set join, cells and guards; `Ownership`
boundaries, range counts and coverage attribution; `Scan` the linear scan.

## Where the code decides

The model follows the code where its comments or documentation say something else.

- `prune_starts_inside_functions` counts every instruction up to the next *trusted* start toward
  a trusted function, so a tentative start above a trusted one goes as soon as it was itself
  decoded (`Functions.DecodedTentativeStartGoes`), whether or not it lies inside that function.
- `unaccounted_bytes` is described as always 0; it is the tail behind the point where the scan
  stopped (`Scan.UnaccountedIsTail`).
- `build_function_cfg` says that it walks decoded instructions only; it decodes whatever it
  reaches, and without an extent it is not bounded by one. Behind a conditional jump whose target
  is unknown it records no fallthrough either, and says that the graph is not complete.
- `is_fully_owned` is described as accepting function starts and bodies; it accepts gaps as well.
- Narrowing by guards forgets the count of unresolved writes (`Values.NarrowedKeepsCountExactly`),
  and bounds from unsigned branches are exact only for values of the same sign
  (`Values.BoundsAreExact`).
- A tolerant read that starts off a page boundary on an unreadable byte counts pages from there,
  and loses the start of the next readable page of the same region
  (`TolerantRead.ReadableBytesLost`); otherwise it keeps every readable byte.
- A failed hardware `set` is not always undone (`Hardware.FailedSetExactly`), and replication to a
  new thread can end in an exception that `wait_event` does not catch.
- `classify_range` says that an instruction across a function boundary is not attributed to one
  side; it is if both its ends lie in bodies (`Ownership.StraddledStartIsMissed`).
- `boundary_by_kind` counts the interior bytes of an instruction taken whole as starts
  (`Ownership.InteriorCountsAsStart`).
- Replication to a new thread passes over a failed open in silence, so the thread runs without
  the breakpoint (`Hardware.CreateKeepsExactly`).
- A trampoline is said to hold relocated instructions; they are copied as they are
  (`Detour.RelocatableExactly`).
- An instruction that stores the flags sees the trap flag when it is stepped over
  (`Transparency.FlagsReadUnderStep`).
- In the converter a plain assignment stores a comparison's one bit, and a bare variable operand
  is loaded after both sides are emitted (`Hazards.TruthAssigned`, `Hazards.LateLoad`).

## Model

| member | source | states |
|---|---|---|
| FunctionMeaning.MeaningPreserved | src/pydbg/instrument/llvm_backend/clang_to_ir.cpp:200-575 | for every function of the fragment whose emission verifies, whatever its calls do: the emitted blocks return a value after a trace of calls exactly when the C function does, so neither side ends where the other does not |
| FunctionMeaning.CallMeans | src/pydbg/instrument/llvm_backend/clang_to_ir.cpp:200-270 | the simulation behind it, with the number of machine steps: a C call that is not over after n loop iterations, or waits for a call of its own, has blocks still running after n steps |
| FunctionMeaning.PrologueMeans | src/pydbg/instrument/llvm_backend/clang_to_ir.cpp:244-256 | after the entry allocas every parameter's slot holds its argument |
| ModuleMeaning.ProgramMeans | src/pydbg/instrument/llvm_backend/clang_to_ir.cpp:128-270 | in a module that `convert` hands out for a unit of the fragment, calls between its functions enter the callee, mutual recursion included: a call of any definition ends exactly when it ends in C, with the same value after the same sequence of calls to functions outside |
| ModuleMeaning.CallAdvances | src/pydbg/instrument/llvm_backend/clang_to_ir.cpp:200-270 | the simulation behind it, whatever calls are under way below: a call that is over in C returns to its caller with the value; one that is not over within a depth and a number of iterations keeps the process running for as many steps |
| ModuleMeaning.StepAdvances | src/pydbg/instrument/llvm_backend/clang_to_ir.cpp:546-575 | one step of a call, a nested call counting as one, is some steps of the process with its stack |
| StmtMeaning.StmtMeans | src/pydbg/instrument/llvm_backend/clang_to_ir.cpp:276-310 | a statement emitted at any insert point does to memory, trace and control what C does, including early returns |
| StmtMeaning.IfMeans | src/pydbg/instrument/llvm_backend/clang_to_ir.cpp:342-387 | both arms of an `if`, falling through or returning, meet in the merge block as in C |
| StmtMeaning.WhileMeans | src/pydbg/instrument/llvm_backend/clang_to_ir.cpp:393-419 | condition, body and end blocks run the loop iteration by iteration |
| StmtMeaning.DeclMeans | src/pydbg/instrument/llvm_backend/clang_to_ir.cpp:425-438 | a declaration with its alloca in the entry block gives the name a fresh object |
| ExprMeaning.ExprMeans | src/pydbg/instrument/llvm_backend/clang_to_ir.cpp:444-485 | a faithful expression's code computes C's value and side effects, whichever of i1, i32 or an address it is emitted as |
| ExprMeaning.BinMeans | src/pydbg/instrument/llvm_backend/clang_to_ir.cpp:491-540 | operands keep their values across both sides being emitted and the late loads |
| ExprMeaning.CallMeans | src/pydbg/instrument/llvm_backend/clang_to_ir.cpp:546-575 | arguments are evaluated and coerced left to right, and the call leaves what it answers |
| Waiting.ExprWaits | src/pydbg/instrument/llvm_backend/clang_to_ir.cpp:444-575 | where evaluation in C comes to a call that does not end, the emitted code comes to that call as well |
| ExprMeaning.OperatorAgreesExactly | src/pydbg/instrument/llvm_backend/clang_to_ir.cpp:491-540 | an operator emitted at a type agrees with C on all operands exactly when it is i32, or one of the operators for which i1 is enough |
| Hazards.NegationAgreesExactly | src/pydbg/instrument/llvm_backend/clang_to_ir.cpp:616-636 | negation in the operand's own type is C's exactly at i32 |
| Hazards.TruthAssigned | src/pydbg/instrument/llvm_backend/clang_to_ir.cpp:491-540 | assigning a comparison stores one byte, so the variable holds the value afterwards exactly if its slot held something from 0 to 255 before; one that was never assigned is left without a value |
| Hazards.TruthAssignedWrong | src/pydbg/instrument/llvm_backend/clang_to_ir.cpp:491-540 | `x = 0 < 1` with x at 256 |
| Hazards.LateLoad | src/pydbg/instrument/llvm_backend/clang_to_ir.cpp:491-540 | `x op (x = e)` applies the operator to the new value twice |
| Hazards.LateLoadAgreesExactly | src/pydbg/instrument/llvm_backend/clang_to_ir.cpp:491-540 | for `&&` and `||`, which have a sequence point, that is C's value exactly when the new value is zero or the old was not, or the other way round for `||` |
| Hazards.LateLoadDiffers | src/pydbg/instrument/llvm_backend/clang_to_ir.cpp:491-540 | `x && (x = 1)` with x at 0 |
| Hazards.ShadowingRebinds | src/pydbg/instrument/llvm_backend/clang_to_ir.cpp:425-438 | a visible name still means its own variable after a statement exactly when no declaration inside the statement uses the name |
| Converter.ClangToIRConverter.EmitBinaryOperator | src/pydbg/instrument/llvm_backend/clang_to_ir.cpp:491-540 | the walk adds exactly the code the meaning proof is about, or records the error |
| Converter.ClangToIRConverter.EmitUnaryOperator | src/pydbg/instrument/llvm_backend/clang_to_ir.cpp:616-636 | likewise for unary operators |
| Converter.ClangToIRConverter.EmitCallExpr | src/pydbg/instrument/llvm_backend/clang_to_ir.cpp:546-575 | likewise for calls; a call of an unknown function, or with another number of arguments, is an error, and by `Acceptance.ExprEmits` no other is |
| Converter.ClangToIRConverter.EmitVarDecl | src/pydbg/instrument/llvm_backend/clang_to_ir.cpp:425-438 | likewise for declarations |
| Converter.ClangToIRConverter.EmitReturnStmt | src/pydbg/instrument/llvm_backend/clang_to_ir.cpp:316-335 | likewise for returns |
| Converter.ClangToIRConverter.EmitIfStmt | src/pydbg/instrument/llvm_backend/clang_to_ir.cpp:342-387 | likewise, with the insert point ending in the merge block |
| Converter.ClangToIRConverter.EmitWhileStmt | src/pydbg/instrument/llvm_backend/clang_to_ir.cpp:393-419 | likewise, with the insert point ending behind the loop |
| Converter.ClangToIRConverter.CoerceToInt | src/pydbg/instrument/llvm_backend/clang_to_ir.cpp:651-659 | an i1 becomes an i32, an i32 stays |
| Converter.ClangToIRConverter.LoadIfAlloca | src/pydbg/instrument/llvm_backend/clang_to_ir.cpp:661-667 | an address is loaded where it is used |
| Converter.ClangToIRConverter.EmitFunction | src/pydbg/instrument/llvm_backend/clang_to_ir.cpp:200-270 | prototypes and definitions, with the default return where a body falls through |
| Converter.ClangToIRConverter.Convert | src/pydbg/instrument/llvm_backend/clang_to_ir.cpp:128-194 | a module is handed out exactly if every definition is accepted, as read off its C text and the declarations above it; it then holds exactly their code, which verifies; otherwise there is an error |
| Converter.SigsAreFirst | src/pydbg/instrument/llvm_backend/clang_to_ir.cpp:200-226 | a name has the prototype of the first declaration of it |
| Acceptance.ExprEmits | src/pydbg/instrument/llvm_backend/clang_to_ir.cpp:444-575 | there is code for an expression exactly when every name in it is a local or a function, every callee is declared with that many parameters, and nothing in it is outside the subset |
| Acceptance.StmtEmits | src/pydbg/instrument/llvm_backend/clang_to_ir.cpp:276-438 | likewise for a statement, with the names that are declared behind it |
| Acceptance.ExprTypes | src/pydbg/instrument/llvm_backend/clang_to_ir.cpp:444-575 | that code is well typed exactly when operands have the types their operators take, and has the value type of the expression; no instruction in it ends its block |
| Acceptance.StmtLays | src/pydbg/instrument/llvm_backend/clang_to_ir.cpp:276-438 | a statement's blocks pass the verifier exactly when it is well typed, its returns fit the function, and nothing is emitted behind a return in its block |
| Acceptance.DefinitionEmits | src/pydbg/instrument/llvm_backend/clang_to_ir.cpp:200-270 | there is code for a definition exactly when there is for its body |
| Acceptance.AcceptedExactly | src/pydbg/instrument/llvm_backend/clang_to_ir.cpp:128-270 | there is code for a definition, and the verifier passes it, exactly when its body is supported, well typed with returns that fit, and has nothing behind a return |
| Transparency.BreakpointsAreTransparent | src/pydbg/core/debugger.py:597-647 | set breakpoints on a fresh target and run it with a callback that continues: the instructions executed so far, with the memory and registers they saw, are always a prefix of the run alone, every moment of that run is reached, and the process exits with the same code exactly when it does alone |
| Transparency.Transparent | src/pydbg/breakpoint/software.py:144-220 | safety of the simulation, transition by transition, with no failure and no other exit |
| Transparency.Progress | src/pydbg/core/debugger.py:597-647 | four transitions are enough for each instruction of the run alone |
| Transparency.CycleSimulates | src/pydbg/breakpoint/software.py:144-220 | trap, rewind, step over and re-arm each keep the simulation |
| Transparency.SteppedOverExactly | src/pydbg/breakpoint/software.py:144-201 | the instruction under a breakpoint, which runs with the trap flag set, fits the run alone exactly when it does not look at that flag |
| Transparency.FlagsReadUnderStep | src/pydbg/breakpoint/software.py:170-180 | an instruction like `pushf`, for which it does not |
| Transparency.Debugger.RunFor | src/pydbg/core/debugger.py:597-647 | the event loop passes traps and steps to the manager and returns the process's exit code |
| BreakpointSafety.RunKeeps | src/pydbg/breakpoint/software.py:81-220 | over every interleaving of set, remove, hit, step and the target's own writes by many threads: saved bytes are pristine, a breakpoint's byte is 0xCC unless some thread is stepping over it, all other bytes are untouched |
| BreakpointSafety.CountsAreTraps | src/pydbg/breakpoint/software.py:81-220 | over any such run in which it stays, a breakpoint's hit count grows by the number of traps at its address |
| BreakpointSafety.SetKeepsExactly | src/pydbg/breakpoint/software.py:102-120 | setting at a mapped address keeps that exactly when no breakpoint is there, and succeeds exactly on mapped memory |
| BreakpointSafety.RemoveKeeps | src/pydbg/breakpoint/software.py:81-100 | removing puts the pristine byte back, even while a step is pending |
| BreakpointSafety.HitKeepsExactly | src/pydbg/breakpoint/software.py:144-201 | a hit keeps it exactly when the thread has no other step pending that it would forget |
| BreakpointSafety.StepKeeps | src/pydbg/breakpoint/software.py:203-220 | re-arming keeps it, whether or not the breakpoint is still there |
| BreakpointSafety.RemoveAllRestoresExactly | src/pydbg/core/debugger.py:875-881 | whatever calls fail: memory is restored exactly when each breakpoint is reached and given back, or pristine already; without a failure always, and steps still pending leave it so |
| BreakpointSafety.FailedSetExactly | src/pydbg/breakpoint/software.py:102-120 | which of the calls failing in a set breaks the invariant |
| BreakpointSafety.FailedRemoveExactly | src/pydbg/breakpoint/software.py:81-131 | likewise for a remove |
| BreakpointSafety.FailedHitExactly | src/pydbg/breakpoint/software.py:144-201 | likewise for a hit, degraded or not |
| BreakpointSafety.FailedStepExactly | src/pydbg/breakpoint/software.py:203-220 | likewise for a re-arm |
| BreakpointSafety.DuplicateAddressBreaks | src/pydbg/breakpoint/software.py:102-120 | a second breakpoint at one address, which is not refused, saves 0xCC and leaves it behind |
| BreakpointSafety.HitCountsOnce | src/pydbg/breakpoint/software.py:144-201 | whatever fails, a hit counts once on the breakpoint that is there and on no other, and is degraded exactly if the thread could not be set up but the breakpoint was re-armed |
| BreakpointSafety.CountStartsAtNone | src/pydbg/breakpoint/software.py:115-120 | a new breakpoint has no hits, and the others keep theirs |
| BreakpointSafety.SetAnswersExactly | src/pydbg/breakpoint/software.py:102-120 | a set succeeds exactly if the byte can be read and 0xCC written; the breakpoint is then the newest and has the byte that was there |
| BreakpointSafety.HitAnswersExactly | src/pydbg/breakpoint/software.py:144-201 | a trap is answered for exactly if a breakpoint is there, and raises exactly if its byte cannot be written, or the 0xCC where the thread is gone |
| BreakpointSafety.StepAnswersExactly | src/pydbg/breakpoint/software.py:203-220 | a step is answered for exactly if the thread has one pending, and raises exactly if the breakpoint is there and cannot be re-armed |
| BreakpointSafety.RemoveAnswersExactly | src/pydbg/breakpoint/software.py:81-100 | a remove succeeds exactly if there is such a breakpoint and its byte can be written; record, count and note of loss go either way |
| Breakpoints.SoftwareBreakpointManager.SetHandle | src/pydbg/breakpoint/software.py:102-120 | the new state after every outcome of the three calls |
| Breakpoints.SoftwareBreakpointManager.Remove | src/pydbg/breakpoint/software.py:81-100 | the record goes before the byte comes back |
| Breakpoints.SoftwareBreakpointManager.HandleBreakpointHit | src/pydbg/breakpoint/software.py:144-201 | count, restore, rewind, trap flag, pending step; or re-arm and count a degraded hit |
| Breakpoints.SoftwareBreakpointManager.HandleSingleStep | src/pydbg/breakpoint/software.py:203-220 | the pending step is consumed, and re-arms what still exists |
| Breakpoints.SoftwareBreakpointManager.FindBreakpoint | src/pydbg/breakpoint/software.py:222-226 | the first record at an address |
| Breakpoints.SoftwareBreakpointManager.RemoveAllBreakpoints | src/pydbg/core/debugger.py:875-881 | every software breakpoint in table order, stopping at the first that fails |
| Hardware.RunKeepsExactly | src/pydbg/breakpoint/hardware.py:79-189 | over every run of set, remove, clear, thread creation and exit, whatever fails in it: slots are used once and every live thread's slot holds exactly what its record says, or nothing, all along, exactly when every failure on the way is of a harmless kind |
| Hardware.StepKeepsExactly | src/pydbg/breakpoint/hardware.py:79-189 | one action keeps that exactly when its failures are harmless, each kind read off the calls |
| Hardware.SetKeeps | src/pydbg/breakpoint/hardware.py:119-166 | a successful set arms every thread in scope and no other slot |
| Hardware.SetSucceedsExactly | src/pydbg/breakpoint/hardware.py:119-166 | a set succeeds exactly when the debug registers can watch what is asked (`x` on one byte, `w` and `rw` on 1, 2, 4 or, outside 32-bit targets, 8; four slots), no record has the slot, and every thread of its scope is alive and takes it |
| Hardware.FailedSetExactly | src/pydbg/breakpoint/hardware.py:79-102 | a failed set leaves the registers as they were exactly when no armed thread's handle failed to close and every roll-back step worked |
| Hardware.FailedSetLeavesArmed | src/pydbg/breakpoint/hardware.py:79-102 | a thread whose handle cannot be closed stays armed without a record |
| Hardware.RemoveKeepsExactly | src/pydbg/breakpoint/hardware.py:178-189 | a successful remove keeps the agreement exactly when every live thread in its scope could be opened |
| Hardware.RemoveSucceedsExactly | src/pydbg/breakpoint/hardware.py:178-189 | a remove succeeds exactly when there is such a record, its threads can be listed, and none that is alive refuses |
| Hardware.ClearSucceedsExactly | src/pydbg/breakpoint/hardware.py:168-170 | clearing succeeds exactly when the threads can be listed and none that is alive refuses |
| Hardware.FailedRemoveExactly | src/pydbg/breakpoint/hardware.py:104-117 | a failed remove keeps it exactly when no thread before the one that refused was live and could be opened |
| Hardware.ClearKeepsExactly | src/pydbg/breakpoint/hardware.py:168-170 | clearing a slot keeps it exactly when none of the threads it got to had a record for the slot |
| Hardware.CreateKeepsExactly | src/pydbg/core/debugger.py:402-419 | replication makes a new thread agree exactly when no record is meant for a thread that had its identifier before, and the thread could be opened and written for every process-wide record; a failed write is reported, a failed open is not |
| Hardware.SilentlyUnarmed | src/pydbg/core/debugger.py:402-419 | a new thread that cannot be opened: nothing raised, and no breakpoint on it |
| Hardware.ExitKeeps | src/pydbg/breakpoint/hardware.py:104-112 | a thread that exits takes its registers with it |
| Hardware.HardwareBreakpointManager.Set | src/pydbg/breakpoint/hardware.py:119-166 | argument checks, slot in use, scope, arming, record |
| Hardware.HardwareBreakpointManager.ArmScope | src/pydbg/breakpoint/hardware.py:79-102 | thread by thread, with roll-back |
| Hardware.HardwareBreakpointManager.DisarmScope | src/pydbg/breakpoint/hardware.py:104-117 | threads that cannot be opened are passed over, one that refuses stops it |
| Hardware.HardwareBreakpointManager.Remove | src/pydbg/breakpoint/hardware.py:178-189 | the record goes only when all threads are disarmed |
| Hardware.HardwareBreakpointManager.ThreadCreated | src/pydbg/core/debugger.py:402-419 | process-wide records in table order, skipping a thread that is gone, stopping at a failed write |
| TolerantRead.MemoryManager.ReadSafe | src/pydbg/memory/manager.py:117-175 | the data has the requested length; every byte is transferred and the target's, or in a gap and zero; gaps ascend, are disjoint and not empty; `complete` means every byte; `readable_bytes` is how many were transferred; each gap carries the error of the call that made it; and when the system's answers fit one page-wise set of readable bytes, exactly those are kept if and only if the first piece starts on a page or on a readable byte, or has nothing readable |
| TolerantRead.MemoryManager.ReadSpan | src/pydbg/memory/manager.py:177-199 | a span, by pages where it does not transfer whole, extends that to its end, and keeps exactly its readable bytes under the same condition |
| TolerantRead.ReadableBytesLost | src/pydbg/memory/manager.py:187-199 | a concrete target and start where that condition fails: pages are counted from where the read stopped, so a readable page start is lost |
| TolerantRead.EachByteOnce | src/pydbg/memory/manager.py:31-44 | a byte is in exactly one gap or in none |
| Instrument.JumpLands | src/pydbg/patch/encoding.py:11-22 | the jump exists exactly when its distance fits 32 bits, and decoding its five bytes gives the intended address |
| Instrument.AllocNear | src/pydbg/instrument/instrumenter.py:190-229 | what is returned comes from the first region that offers memory, and lies in reach of the target; zero is returned exactly if none does |
| Instrument.HintInReach | src/pydbg/instrument/instrumenter.py:202-223 | with hints rounded down to 64 KiB and regions starting at or above the window's low end; and a hint is never zero |
| Instrument.RoundUpIsLeast | src/pydbg/instrument/instrumenter.py:202-223 | a region's first allocation boundary is the least at or above its base |
| Instrument.AllJumpsLand | src/pydbg/instrument/templates.py:11-26 | in such memory target to stub, trampoline to resume and payload to trampoline all fit, and land |
| Instrument.InstallPatches | src/pydbg/instrument/instrumenter.py:88-143 | an install patches five bytes of the target and nothing else outside its region |
| Detour.HookRedirects | src/pydbg/instrument/instrumenter.py:93-143 | a processor that fetches from the patched memory goes from the target to the payload in one step, registers and memory unchanged |
| Detour.TrampolineRuns | src/pydbg/instrument/templates.py:16-26 | from the trampoline it does with the copied instructions what it did with the replaced ones, and comes back behind them, if those are relocatable |
| Detour.RelocatableExactly | src/pydbg/instrument/instrumenter.py:161-171 | a copied instruction does what it did in every state exactly when it is: no call, no branch with an immediate target outside the replaced code, and no operand or jump relative to the instruction pointer whose two addresses the instruction can tell apart |
| Detour.CopiedJumpGoesElsewhere | src/pydbg/instrument/templates.py:16-26 | a relative jump that is copied goes elsewhere |
| Instrument.FailedInstallExactly | src/pydbg/instrument/instrumenter.py:102-128 | a failed install adds no hook and, if it can free, no region; and it leaves everything outside its region as it was exactly when no byte of a jump that was written in part stays, where putting the original back failed as well |
| Instrument.InstallSucceedsExactly | src/pydbg/instrument/instrumenter.py:58-143 | an install succeeds exactly when there is no hook yet, five bytes of whole instructions and memory were found, the payload compiled and fits, both jumps reach, and the three writes succeed |
| Instrument.RestoreUndoesInstall | src/pydbg/instrument/instrumenter.py:145-157 | restoring gives back memory, regions and hooks |
| Instrument.RestoreSucceedsExactly | src/pydbg/instrument/instrumenter.py:145-157 | a restore succeeds exactly when there is no hook or both its calls succeed |
| Instrument.RestoreCanBeRepeated | src/pydbg/instrument/instrumenter.py:145-157 | a failed restore followed by a successful one is a successful one |
| Instrument.Instrumenter.Install | src/pydbg/instrument/instrumenter.py:58-143 | the new state after every step that can fail |
| Instrument.Instrumenter.Restore | src/pydbg/instrument/instrumenter.py:145-157 | likewise for restoring |
| Processes.EnumerateChildProcesses | src/pydbg/core/debugger.py:504-518 | each process reachable by parent links once, never the root, in non-decreasing depth, ending even on cycles; or the direct children only |
| Processes.ChainDescends | src/pydbg/core/debugger.py:506-518 | being listed by level is being at the end of a chain of parent links |
| Processes.DescendsByChain | src/pydbg/core/debugger.py:506-518 | and the other way round |
| Analyzer.StaticAnalyzer.Run | src/pydbg/analysis/engine.py:71-128 | a run that does not report an exhausted budget visited the least closed set with the executable seeds; it reports one only if it spent the whole or followed a run as long as a sweep may be, and always if it spent the whole; every run reports only what is justified, open sites included; its branch targets, trusted starts and import thunks are exactly those of the instructions visited, whose bytes are the covered ones, each claimed once; starts and code seeds are the queued addresses and thunks; caches are right and pruning exact at the end, where trusted functions have the extents they have among themselves |
| Analyzer.StaticAnalyzer.SweepFrom | src/pydbg/analysis/engine.py:262-341 | a sweep keeps soundness always and completeness unless it reports the budget gone, and pays for each instruction once |
| Analyzer.StaticAnalyzer.FollowFrom | src/pydbg/analysis/engine.py:286-333 | its loop: a straight run of instructions not visited before, one of the grant for each |
| Analyzer.BudgetsMean | src/pydbg/analysis/engine.py:94-103 | an exhausted budget means as many instructions visited as the whole limit, or a straight run of them as long as the limit of a sweep; never more are visited than the whole limit |
| Analyzer.StaticAnalyzer.SweepToFixpoint | src/pydbg/analysis/engine.py:94-103 | rounds end, because executable addresses are finite |
| Analyzer.StaticAnalyzer.Enqueue | src/pydbg/analysis/engine.py:186-196 | exactly the executable addresses are queued and named, once |
| Analyzer.StaticAnalyzer.EnqueueCodeSeed | src/pydbg/analysis/engine.py:242-258 | likewise without naming a start |
| Analyzer.StaticAnalyzer.SeedBranchTarget | src/pydbg/analysis/engine.py:219-240 | a call target is a trusted start; a jump target is a start only if it looks like an entry (`EntryLikeExactly`), and never trusted |
| Analyzer.EntryLikeExactly | src/pydbg/analysis/seeds.py:30-60 | an address looks like an entry exactly when no recorded instruction has it inside, and it starts its section or follows one of the five bytes that pad or end code |
| Analyzer.StaticAnalyzer.ResolveIndirect | src/pydbg/analysis/engine.py:198-217 | a resolved branch is recorded, another kept as a site |
| Analyzer.StaticAnalyzer.RecordRefs | src/pydbg/analysis/engine.py:365-383 | the references of an instruction are recorded and what they name in code is queued |
| Analyzer.StaticAnalyzer.AbsorbJumpTable | src/pydbg/analysis/engine.py:429-482 | the entries of a table are queued and recorded |
| Analyzer.StaticAnalyzer.AbsorbIndirectJump | src/pydbg/analysis/engine.py:385-404 | tables behind a jump's memory operand are read too |
| Analyzer.StaticAnalyzer.NoteIfThunk | src/pydbg/analysis/engine.py:406-427 | exactly the jumps through an import slot are trusted starts of thunks |
| Names.ThunkSlotExactly | src/pydbg/analysis/engine.py:406-427 | the slot of a thunk is the first import slot that an operand names by an address without registers |
| Names.BranchesAfter | src/pydbg/analysis/engine.py:300-321 | visiting an instruction adds to the branches exactly its direct target, or what it was resolved to |
| Names.VisitNames | src/pydbg/analysis/engine.py:286-327 | a visit keeps branch targets, trusted starts, thunks and claims what the instructions visited make them |
| Names.ClaimsCover | src/pydbg/analysis/engine.py:262-300 | then a byte is covered exactly when it lies in an instruction visited |
| Descent.FixpointIsLeast | src/pydbg/analysis/engine.py:71-108 | what a completed run visits is contained in every closed set with the seeds |
| Descent.OrderDoesNotMatter | src/pydbg/analysis/engine.py:71-108 | completed runs that resolved the same branches, in particular none, visit the same addresses in whatever order |
| Descent.ResolvingOnlyAdds | src/pydbg/analysis/engine.py:198-217 | resolving more branches never loses an address |
| Descent.DoneIsFixpoint | src/pydbg/analysis/engine.py:262-341 | with nothing pending, soundness and completeness are the fixpoint |
| Descent.VisitSound | src/pydbg/analysis/engine.py:286-327 | visiting an instruction queues and records only what its edges reach and its operands name |
| Descent.VisitComplete | src/pydbg/analysis/engine.py:286-327 | and forgets nothing |
| Descent.TableIsLongestRun | src/pydbg/analysis/engine.py:452-464 | a table is the longest run of executable entries, at most 512 |
| Descent.EdgeExactly | src/pydbg/analysis/engine.py:286-333 | control goes on behind what neither returns nor jumps for good, to an executable immediate target, to what the operands queue, and to what a branch was resolved to |
| Descent.OperandTargetsExactly | src/pydbg/analysis/engine.py:365-404 | operands queue their executable immediates and the entries of the tables they name: the first 512 slots, up to the first that does not hold the address of code |
| Descent.OperandXrefsExactly | src/pydbg/analysis/engine.py:365-482 | the references recorded are those that operands make, and those of the tables to their entries |
| Descent.TracedBranchIsReal | src/pydbg/analysis/engine.py:198-217 | an edge added for an indirect branch is the one taken in every machine that runs the traced instructions |
| Image.IndirectHasNoTarget | src/pydbg/analysis/refs.py:56-84 | an indirect branch has no direct target and makes no branch reference |
| Image.AddressesExactly | src/pydbg/analysis/image.py:99-143 | an address is mapped if a section holds it in memory or in the file, executable if one that may execute does; virtual addresses translate in the window from the base to the end of the furthest section |
| Image.TargetExactly | src/pydbg/analysis/refs.py:56-84 | a branch has a direct target exactly when its first immediate is an address of the image |
| Image.ClassifyRefs | src/pydbg/analysis/refs.py:26-53 | the references in operand order |
| Image.ReferenceFromOperand | src/pydbg/analysis/refs.py:26-53 | a reference is reported exactly when some operand makes it: an immediate of the image, a scaled index on a bare displacement, or an address that is all in the encoding |
| Consts.ResolvedBranchIsReal | src/pydbg/analysis/consts.py:88-114 | on any straight-line run in a machine whose memory agrees with the image, a resolved target is exactly where the branch goes, and executable |
| Consts.TrackedIsReal | src/pydbg/analysis/consts.py:42-79 | every tracked value stays congruent to the real register |
| Consts.FoldsExactly | src/pydbg/analysis/consts.py:42-86 | the tracker follows a move of an immediate, a `lea` whose address is known, and a load whose address is known and names a readable pointer of the image, and nothing else: after those the destination holds what they move, after any other nothing is known |
| Consts.FoldedIsMoved | src/pydbg/analysis/consts.py:51-86 | and what it holds is what they move in every machine that fits |
| Consts.KnownExactly | src/pydbg/analysis/consts.py:42-79 | a register is known after a run exactly when one instruction produced it last and nothing unrecognised followed, with the value that one produced |
| Consts.KnownIsFolded | src/pydbg/analysis/consts.py:42-79 | which is: exactly when one that can be followed set it last and all behind it can be followed, with the value that one moves |
| Consts.ResolvesExactly | src/pydbg/analysis/consts.py:88-114 | a branch resolves exactly to where the first operand leads whose slot has a known address and holds the address of executable code |
| Consts.ChainResolves | src/pydbg/analysis/consts.py:88-135 | a branch through such a register, as base or scaled index, resolves exactly when the slot it names holds an executable address, and to that address |
| Consts.ObserveExactly | src/pydbg/analysis/consts.py:42-79 | one observation is right in every outcome exactly when no other tracked register overlaps the destination and the width keeps the value |
| Consts.OperandAddressExactly | src/pydbg/analysis/consts.py:116-135 | a computed address is the effective one exactly when the operand's segment starts at zero |
| Consts.SlotHoldsPointer | src/pydbg/analysis/consts.py:81-86 | accepting only addresses in the window makes reading the image reading that memory |
| Consts.SegmentFabricatesEdge | src/pydbg/analysis/consts.py:128-134 | a concrete image and operand with a segment override whose edge is fabricated |
| Consts.PartialWriteFabricatesEdge | src/pydbg/analysis/consts.py:42-79 | `mov eax, k; mov ah, j; call [eax]`, for which an edge is fabricated as well |
| Consts.ConstantTracker.Observe | src/pydbg/analysis/consts.py:42-49 | unrecognised instructions forget everything |
| Consts.ConstantTracker.Resolve | src/pydbg/analysis/consts.py:88-114 | the first memory operand that leads to executable memory decides |
| Decoder.InstructionDecoder.DecodeOne | src/pydbg/analysis/decoder.py:53-134 | in every reachable state the answer is that of decoding without a cache, failures keep their reason, the cache stays within its bound and holds the most recently used addresses |
| Decoder.RecencyStep | src/pydbg/analysis/decoder.py:79-81 | moving to the end and dropping the oldest keep the last n by recency |
| Decoder.EnclosingExactly | src/pydbg/analysis/decoder.py:163-180 | an enclosing instruction is found exactly when one is recorded, and the closest, by the 15-byte limit |
| Decoder.InstructionDecoder.EnclosingInstruction | src/pydbg/analysis/decoder.py:163-180 | that walk |
| Decoder.InstructionDecoder.MarkCovered | src/pydbg/analysis/decoder.py:136-161 | over any sequence of claims the clipped sizes add up to the covered bytes plus the overlap, which is also the sum of what is charged to pairs of classes |
| Decoder.InstructionDecoder.OriginOfByte | src/pydbg/analysis/decoder.py:182-191 | the closest instruction that starts before the byte |
| Decoder.InstructionDecoder.CoveredIn | src/pydbg/analysis/decoder.py:204-208 | the claimed bytes of a range, clipped to the image |
| Functions.ExtentsDisjoint | src/pydbg/analysis/functions.py:202-229 | extents are pairwise disjoint |
| Functions.ExtentsUnique | src/pydbg/analysis/functions.py:202-229 | and determined byte by byte by starts and claims |
| Functions.FunctionTable.Extents | src/pydbg/analysis/functions.py:202-229 | one pass gives the naive definition: before the next start, and below the end of some instruction in between |
| Functions.FunctionTable.OwnerOf | src/pydbg/analysis/functions.py:150-192 | start, body, gap, after, before and unmapped exactly as that definition implies |
| Functions.FunctionTable.Containing | src/pydbg/analysis/functions.py:127-148 | the nearest start at or before an address, however far |
| Functions.FunctionTable.PruneStartsInsideFunctions | src/pydbg/analysis/functions.py:65-117 | exactly the tentative starts inside a trusted function's extent move to the code seeds, and their number is returned |
| Functions.PruningIsExact | src/pydbg/analysis/functions.py:65-117 | nothing tentative is left inside, nothing is lost, trusted starts stay, a second pruning finds nothing |
| Functions.SurvivesExactly | src/pydbg/analysis/functions.py:86-115 | a tentative start stays exactly when nothing up to the next trusted start was decoded past it |
| Functions.DecodedTentativeStartGoes | src/pydbg/analysis/functions.py:86-115 | so a decoded one above a trusted start never stays |
| Functions.TrustedExtentsStand | src/pydbg/analysis/functions.py:65-117 | and trusted functions have the extents they have among themselves |
| Functions.StaleExactly | src/pydbg/analysis/functions.py:37-45 | a start added behind the cached list leaves it right only if it was known |
| Cfg.BuildFunctionCfg | src/pydbg/analysis/cfg.py:78-158 | the builder ends, and its graph is what it claims to be, over the function's extent; it has no more blocks than allowed, and one that is cut has that many and leaves something out |
| Cfg.BuiltIsOk | src/pydbg/analysis/cfg.py:56-75 | `complete` holds exactly when nothing is unresolved and the graph is not truncated; known destinations of an untruncated graph are keys |
| Cfg.EdgesExactly | src/pydbg/analysis/cfg.py:109-154 | in every graph a block is a straight run that only its last instruction may end; that one has a jump edge exactly to the target of an unconditional jump, a taken edge exactly to that of a conditional one and a fallthrough edge exactly behind it, and is unresolved exactly where its target is not known or the next address does not decode inside |
| Cfg.UndecodedExactly | src/pydbg/analysis/cfg.py:109-158 | undecoded is given as the reason exactly when some block runs on to such an address |
| Cfg.CompleteMeansAll | src/pydbg/analysis/cfg.py:36-53 | in a complete graph everything control reaches from the entry decodes, lies inside, and is in a block |
| Cfg.GraphIsReachable | src/pydbg/analysis/cfg.py:78-158 | an untruncated graph holds exactly the instructions that can be reached |
| Cfg.BlocksAgree | src/pydbg/analysis/cfg.py:112-149 | blocks that share an instruction share its suffix and successors |
| Cfg.WalkBlock | src/pydbg/analysis/cfg.py:109-154 | one block, whatever order blocks are taken in |
| Values.WidenIsDefined | src/pydbg/analysis/values.py:218-271 | the join never raises on well-formed sets, stays well-formed, and names all writers of both sides |
| Values.WidenIsSound | src/pydbg/analysis/values.py:218-271 | it admits whatever either side admits, parts included |
| Values.WidenIsTight | src/pydbg/analysis/values.py:218-271 | and nothing else but what lies between two ranges |
| Values.WidenKeepsReasons | src/pydbg/analysis/values.py:218-271 | why a side is unbounded is kept, of both if both are |
| Values.WidenCountsExactly | src/pydbg/analysis/values.py:218-226 | unresolved writes add up exactly when no counting set meets an empty one |
| Values.CountLost | src/pydbg/analysis/values.py:218-226 | a count that is lost in a join |
| Values.KindAssociatesExactly | src/pydbg/analysis/values.py:249-271 | the form of a join of three does not depend on the order exactly unless a set meets two ranges that hold it together, but its neighbour alone does not |
| Values.KindIsNotAssociative | src/pydbg/analysis/values.py:249-271 | a set and two ranges for which it does |
| Values.JoinOfWriters | src/pydbg/analysis/values.py:313-325 | the join over the writers is undecided as soon as one is not modelled, else their values |
| Values.AnswerIsExact | src/pydbg/analysis/values.py:277-325 | there is always an answer, with the count of open writes; it is empty exactly if nothing writes the address and no call might, unmodelled exactly if some call might or some writer is anything but a move of an immediate, and else the set of exactly the immediates moved there |
| Values.EvidenceIsExact | src/pydbg/analysis/values.py:277-325 | its evidence names each writer that moves an immediate with it, each other with the reason, each call that might write, and nothing else |
| Values.CountIsExact | src/pydbg/analysis/values.py:328-351 | the count of open writes is the number of written operands that refer to no address of the image |
| Values.CellHoldsMember | src/pydbg/analysis/values.py:277-325 | with a decided answer and no unresolved writes, in every run over the decoded instructions the cell holds its initial value or a member |
| Values.WordHoldsMember | src/pydbg/analysis/values.py:277-325 | the same over bytes, with operand widths: in every run the word of a cell is the initial one or a member cut to its width, if writes to the cell have its width and no decoded write at another address reaches into it |
| Values.OverlappingWriteIsMissed | src/pydbg/analysis/values.py:285-310 | a write one byte further on that does, and is not listed |
| Values.WritesTo | src/pydbg/analysis/values.py:277-310 | every decoded write and every unresolved call is listed |
| Values.ValueSetOf | src/pydbg/analysis/values.py:313-325 | the join of those, with the count of unresolved writes |
| Values.UnresolvedWriteCount | src/pydbg/analysis/values.py:328-351 | written operands without a known address |
| Values.NarrowedIsExact | src/pydbg/analysis/values.py:405-419 | a narrowed decided set has exactly the members within the bounds of every guard |
| Values.NarrowedFallsThrough | src/pydbg/analysis/values.py:380-419 | for chains of any length: a member stays exactly when the branch of every guard falls through on it, if and only if each guard compares signed or two values of one sign, or both the bounds and the branches reject the member |
| Values.UnsignedGuardKeepsNegative | src/pydbg/analysis/values.py:405-419 | `cmp [a], 5; ja` keeps -1, on which the branch is taken |
| Values.BoundsAreExact | src/pydbg/analysis/values.py:467-487 | there are bounds for exactly the eight ordered comparisons, and they are what falling through means exactly for signed branches or values of one sign |
| Values.GuardExactly | src/pydbg/analysis/values.py:354-402 | a guard is exactly a comparison of the address with an immediate that one of the eight jumps follows; it ends behind the jump |
| Values.UnsignedBoundMisjudges | src/pydbg/analysis/values.py:467-487 | `ja` at 5 on -1 |
| Values.NarrowedKeepsCountExactly | src/pydbg/analysis/values.py:405-419 | the count of unresolved writes survives exactly when it is zero, the base has no values, or is a range of which none passes the guards |
| Values.NarrowedCountLost | src/pydbg/analysis/values.py:405-419 | a set whose count is lost |
| Values.NarrowedNamesGuards | src/pydbg/analysis/values.py:405-419 | a narrowed set keeps the evidence of the base and adds that of each guard |
| Values.SingleGuardChain | src/pydbg/analysis/values.py:422-447 | all guards, exactly when there are any and each starts where the one before it goes on |
| Values.NarrowByGuards | src/pydbg/analysis/values.py:354-419 | narrowed by that chain, or the base |
| Ownership.BoundaryOf | src/pydbg/analysis/owners.py:92-138 | an exact three-way split of mapped addresses, with the covering instruction and its origin, or the decoder's reason |
| Ownership.ClassifyRange | src/pydbg/analysis/owners.py:193-232 | every scanned byte is counted once in each tally, the scan covers min(end - start, limit), and each owner kind, each boundary kind and the instruction starts have the count of the walk by instructions |
| Ownership.CountsExactly | src/pydbg/analysis/owners.py:193-232 | of whatever kind, owner or boundary, the walk counts every range right exactly when no instruction taken whole has a byte that differs in that kind from its first |
| Ownership.InteriorCountsAsStart | src/pydbg/analysis/owners.py:213-222 | an instruction of four bytes counts as four starts in the tally of boundaries, and as one instruction start |
| Ownership.StartsExactly | src/pydbg/analysis/owners.py:213-224 | the number of instruction starts is right over every range exactly when none lies inside an instruction taken whole |
| Ownership.AlignedIsUniform | src/pydbg/analysis/owners.py:213-217 | none does where no function starts inside a decoded instruction and its bytes are mapped |
| Ownership.StraddledStartIsMissed | src/pydbg/analysis/owners.py:198-217 | a function start inside an instruction whose ends are both bodies counts as body |
| Ownership.ChunkIsUniform | src/pydbg/analysis/owners.py:213-217 | an instruction whose first and last bytes have one kind has it throughout |
| Ownership.FullyOwnedExactly | src/pydbg/analysis/owners.py:164-174 | where the counts are exact, fully owned is: scanned to the end, and every byte in a function's span |
| Ownership.UncoveredRuns | src/pydbg/analysis/attribution.py:155-168 | the maximal unclaimed stretches, ascending and disjoint |
| Ownership.AttributeSection | src/pydbg/analysis/attribution.py:171-200 | covered bytes and the four buckets make up the section, and each bucket has the bytes of the runs classified as that |
| Scan.Scan | src/pydbg/analysis/scan.py:171-224 | instructions and gaps tile the range up to the cursor; gaps are maximal and have their resync unless they reach the end; why it stopped, and never more instructions than the limit; the decoder has recorded them, and their bytes are claimed, once and for the given origin, exactly if the scan was to mark |
| Scan.TilesPartition | src/pydbg/analysis/scan.py:171-224 | every byte up to the cursor is in exactly one instruction or one gap |
| Scan.UnaccountedIsTail | src/pydbg/analysis/scan.py:92-100 | the unaccounted bytes are the tail, and none exactly when the scan was not cut |
| Scan.CompleteExactly | src/pydbg/analysis/scan.py:83-90 | complete exactly when the instructions alone tile the range |
| Scan.ScanIsShaped | src/pydbg/analysis/scan.py:171-224 | instructions and resyncs ascend, and no instruction starts in what a resync skips |
| Scan.UnprovenRuns | src/pydbg/analysis/scan.py:120-147 | one stretch a resync, with how many instructions it has |
| Scan.StretchesExactly | src/pydbg/analysis/scan.py:120-147 | a stretch goes from a resume point to the next stop or the end, has as many instructions as start there, and is listed exactly if any do |
| Scan.InExactlyOneStretch | src/pydbg/analysis/scan.py:120-147 | every instruction from the first resync on lies in exactly one |
| Scan.StretchesCountAll | src/pydbg/analysis/scan.py:120-147 | and is counted once |

## Left out

- PE parsing, capstone, keystone, dbghelp, clang's parser, LLVM's code generation and the Win32 calls: foreign code, taken as functions or as calls that may fail.
- FunctionMeaning.MeaningPreserved: does not cover comparisons used as operands of arithmetic or assigned to variables, assignments inside operands, and shadowed names, because the converter differs from C there; `Hazards` says exactly when.
- FunctionMeaning.MeaningPreserved: takes signed overflow as wrapping, operands as evaluated from left to right, and `&&` and `||` as strict, as the project documents; literals beyond `int` and `_Bool` are outside.
- ModuleMeaning.ProgramMeans: a call to a function outside the module is an event that the outside answers with an `int`; it always returns and does not call back; the stack is unbounded.
- Converter.ClangToIRConverter.Convert: does not model constant folding by IRBuilder, the textual order of blocks, the order in which the C++ compiler evaluates two loads (taken as left first), and the verifier's dominance test.
- Transparency.BreakpointsAreTransparent: one thread, a target that raises no exceptions of its own, neither reads nor writes breakpoint bytes, and does not look at its flags in an instruction under a breakpoint; a fixed memory map; the trap flag is cleared when a step is reported.
- BreakpointSafety.RunKeeps: assumes one process and distinct addresses; `DuplicateAddressBreaks` shows what the second assumption excludes.
- Breakpoints.SoftwareBreakpointManager.HandleBreakpointHit: does not model closing the thread handle failing after the context was set; `verify` and `armed_state` only read and are not modelled.
- Hardware.HardwareBreakpointManager.ArmScope: does not model the suspension of 32-bit threads around a write.
- TolerantRead.MemoryManager.ReadSafe: assumes that a region found from an address ends beyond it and that the target's answers stay the same during one read; which bytes are kept is stated for answers that fit one page-wise set of readable bytes (`Honest`).
- Detour.TrampolineRuns: the replaced instructions do not change code, nothing jumps into the middle of them, and code is fetched from a memory of its own; a call among them is counted as not relocatable because it pushes its own address.
- Instrument.AllocNear: a target at address 0 is allocated without regard to reach; hooks whose patched ranges overlap are not modelled.
- Consts.TrackedIsReal: assumes full-width registers that do not overlap and no segment override on tracked operands; `ObserveExactly` and `OperandAddressExactly` say how far that is needed.
- Analyzer.StaticAnalyzer.Run: the cause an address is queued with is passed on and nothing is claimed about it; seed discovery, DATA references from pointer seeds, access records and slot-table records are left out; an instruction that runs past the image counts as visited.
- Decoder.InstructionDecoder.OriginOfByte: which class an overlap is charged to is modelled as it is, and nothing is claimed about it being the class that decoded the byte.
- Values.CellHoldsMember: writes go through operands, to whole cells, and `WordHoldsMember` has bytes and widths; implicit stack writes are not modelled.
- Ownership.AttributeSection: what makes a run padding, data or code is a parameter.
- `receiver_of`, rendering, the CLI, names, the workspace file, DOT output, the window probe, symbol and module resolution, resources and minidumps, and the demonstration hooks: mostly text, files or thin wrappers.
