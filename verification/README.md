# A verified model of the guest boundary of Wine on ppc64le

Wine on ppc64le runs x86-64 Windows programs: Wine itself is native ppc64le
code, the program is guest code inside an emulator, and the two call each
other, throw exceptions across each other and share a thread's data. This
project models the code at that boundary and proves what it keeps. Each module
models one piece of the repository:

- `RipCache`: the lock-free cache from a trapping guest address to its native
  function, one writer and any number of readers in every interleaving.
- `GuestUnwind`, `UnwindFate`, `GuestDispatch`: structured exception handling
  over a guest stack: the search for an `__except`, the unwind with its
  `__finally` blocks, unwinds started from inside unwinds, and C++ `catch`; where
  every unwind ends, and why.
- `Marshal`, `NativeCall`: a guest's call into native code, from the descriptor
  words a generator packs to the registers the native function reads.
- `Ppc`, `CallbackStub`, `CallbackPool`: native code's call into a guest
  function, through machine code emitted at run time and kept in a pool.
- `Ordinals`: export numbering, in winebuild's C and in the thunk generator's
  Python, and the export table made from it.
- `GuestRun`, `GuestRegisters`: what a thread's TEB says of its stack, what a
  debugger can read of its guest registers, and which registers the guest goes on
  with, over nested runs, traps and fibers.
- `StackMarkers`: marks, records and counters that a thread leaves behind when a
  native handler unwinds past the code that would have removed them.
- `SteamRpc`: a Steam call carried to a helper process and back.
- `TocRestore`: r2 across unwound frames.
- `Riff`: RIFF chunk stepping.

`dafny verify dfyconfig.toml` checks all of it.

## How the model is made

Guest code is never fixed: a guest's funclets, handlers and callees are
functions of everything that happened before, and results hold for all of them.
Protocols over time (`RipCache`, `GuestRun`, `StackMarkers`, the window events
of `CallbackPool`) are state machines whose steps are the source's own
accesses; the source's loops are methods proved against specification
functions, and the pool is a class. No lemma relies on automatic induction:
every inductive step is written out.

Some promises made in comments or in the repository's README.md do not hold of
the code as it stands. The code is modelled as it is, and beside a concrete
failing case the exact condition is proved:

- A seqlock read can be torn when exactly 2^32 stores fall inside it
  (`RipCache.WrapAroundTearsARead`), and never unless their number is a nonzero
  multiple of 2^32 (`RipCache.ReadAnswersTruth`).
- A deferred unwind does not run the `__finally` blocks of the handler that
  asked for it (`GuestUnwind.DeferralDropsTheHandlersFrames`).
- The search accepts an `__except` in the 257th frame, which the unwind cannot
  reach, and does not look at handlers that are called for unwinding only, one of
  which can lie outside every guest image and stop the unwind
  (`GuestDispatch.FirstTakerIsEnteredIffInReach`,
  `GuestDispatch.DeepExceptIsFoundAndLost`,
  `GuestDispatch.ForeignUnwindHandlerLosesTheExcept`).
- The mark of an unhandled report is a stack address that nothing removes when
  the report is swallowed; a thread that later goes deeper is ended although no
  report is running (`StackMarkers.RaiseRefusedIff`). The comment at
  dlls/ntdll/signal_ppc64.c:5511-5520 says the new frame is above the mark by
  construction.
- Pruning the list of unwinds does not reach an abandoned record behind one in
  progress (`StackMarkers.AbandonedRecordOutlivesALook`), and a record put at the
  address of an abandoned one closes the list into a circle
  (`StackMarkers.ListEndsIff`, `StackMarkers.RecordMeetsItself`). The results
  about the list are for threads to which that has not happened; the others are
  for all.
- The nesting depth of exceptions is a counter and leaks at every swallowed
  exception; at eight the thread serves no exception any more
  (`StackMarkers.DispatchRefusedIff`).
- How far a guest stack has grown is forgotten at the next trap, and
  SwitchToFiber parks the forgotten value, although its comment
  (dlls/ntdll/signal_ppc64.c:7722-7726) says the limit is read back
  (`GuestRun.TrapForgetsGrowth`, `GuestRun.GrowthIsForgotten`,
  `GuestRun.ParkedLimitIsTheRecordedOne`).
- SwitchToFiber parks what the innermost run has on record under the name of
  the thread's current fiber, which may belong to a run further out. When that
  fiber is switched back to, the TEB claims pages that are not committed
  (`GuestRun.StraySwitchMisleads`). Which bounds are wrong is a function of the
  events (`GuestRun.TebDescribesTheExecutingMachine`), and none are if each switch
  is made by the run that its fiber executes in and no stack is freed that
  somebody is on (`GuestRun.OrderlyRunsAreRight`).
- A run that ends on an exception, which a deferred unwind also is, leaves its
  own registers published while the thread is back in the enclosing trap
  (`GuestRun.QueriesAreExact`, `GuestRun.NestedRunLeavesItsRegisters`).
- A guest window procedure, in a module or generated, whose address looks like a
  winproc handle is not wrapped (`CallbackPool.WndprocIsCallableIff`), and a trampoline whose own
  address does is not unwrapped (`CallbackPool.GuestReadsBackWhatItInstalled`).
- A negative signed 32-bit argument arrives zero-extended
  (`NativeCall.PassedIsPromisedIff`).
- A counted Steam buffer is cut short when its size wraps 32 bits
  (`SteamRpc.BufferIsWholeIff`); a refused Steam call still returns the params
  struct (`SteamRpc.RefusalReturnsTheParams`).

README.md:621-626 of the repository lists collided unwinds as refused;
dlls/ntdll/signal_ppc64.c implements them, and the model follows the code.

## Model

| member | source | states |
|---|---|---|
| RipCache.StepKeepsInv | dlls/ntdll/signal_ppc64.c:9188-9380 | each access of a writer, a flush, the loader or a reader keeps the invariant: a slot outside a write holds nothing or one whole true entry, and a reader whose slot was not written holds a consistent part of it |
| RipCache.RunKeepsInv | dlls/ntdll/signal_ppc64.c:9188-9380 | the same over every interleaving of every length |
| RipCache.ReadAnswersTruth | dlls/ntdll/signal_ppc64.c:9188-9233 | a completed lock-free read hands its caller exactly what a locked lookup would answer at its second sequence read, and changes nothing else, unless the stores inside it are a nonzero multiple of 2^32 |
| RipCache.ReadBeginsUnlessWriting | dlls/ntdll/signal_ppc64.c:9193-9199 | in every reachable state a read misses at once if and only if a writer is inside the slot, and otherwise begins with nothing loaded |
| RipCache.PutIsFound | dlls/ntdll/signal_ppc64.c:9311-9349 | from every reachable idle state, one put and one read of that address end with the whole answer in the reader's hand |
| RipCache.FlushEmpties | dlls/ntdll/signal_ppc64.c:9361-9380 | from every idle state that the invariant allows, the flush can be run to its end, and leaves every slot empty before the module's answers go |
| RipCache.WrapAroundTearsARead | dlls/ntdll/signal_ppc64.c:9036-9039 | with exactly 2^32 stores inside, a run exists in which the reader is handed another stub's function |
| RipCache.KeyCheckAloneTears | dlls/ntdll/signal_ppc64.c:9031-9035 | comparing keys instead of sequence words splices two entries after one put; the sequence word makes that read a miss |
| RipCache.HashCollides | dlls/ntdll/signal_ppc64.c:9144-9153 | stub addresses do share slots under the source's hash, through each of its three steps |
| RipCache.SlotOf | dlls/ntdll/signal_ppc64.c:9144-9153 | every address has a slot inside the table |
| GuestUnwind.FinallysOfFrame | dlls/ntdll/signal_ppc64.c:4150-4188 | one pass over a scope table runs exactly its live `__finally` scopes in order, up to the target's scope or the scope that collided |
| GuestUnwind.UnwindRunsWhatIsOwed | dlls/ntdll/signal_ppc64.c:4489-4713 | for every guest, an unwind runs all live `__finally` scopes of the frames it passed in one outward sweep, and on success stands in the frame the last request names |
| GuestUnwind.EachFinallyExactlyOnce | README.md:556-565 | each `__finally` between the fault and the resumed frame runs exactly once, innermost first, and no other one runs: each scope without a jump target that its frame's pc lies in, up to the first one that the resume address lies in |
| GuestUnwind.CollisionsRunWhatOneUnwindWould | dlls/ntdll/signal_ppc64.c:4489-4713 | a chain of collided unwinds runs what one undisturbed unwind to the last target would, if and only if the last collision is not past that unwind's stopping scope |
| GuestUnwind.OnlyTheLastTargetCounts | dlls/ntdll/signal_ppc64.c:3701-3710 | two guests whose unwinds come to the same last target resume in the same frame with the same registers and write-back, each consolidation routine naming its own address; they ran the same `__finally` blocks if and only if they stopped at the same scope of that frame or past its last |
| UnwindFate.EveryUnwindConcludes | dlls/ntdll/signal_ppc64.c:4489-4713 | for every guest: the frame in which an unwind ends, one turn spent on each frame and each request, is the first from where the last request was made that is its target or cannot be passed, and the status is the one for that reason; a request is adopted if and only if it does not name a frame further in and does not repeat the place of the one before |
| UnwindFate.CollisionGoesThroughIff | dlls/ntdll/signal_ppc64.c:4589-4643 | a second unwind that a `__finally` starts goes through if and only if its frame is that `__finally`'s own or one further out, in reach with one more turn spent, and its routine, if it names one, can be entered and answers an address |
| UnwindFate.CalmUnwindSucceedsIff | dlls/ntdll/signal_ppc64.c:4489-4713 | an unwind nobody disturbs goes through if and only if its target frame is on the stack with fewer than 256 frames inside it, no handler that it would be given up to there lies outside every guest image, and a consolidation routine can be entered and answers an address |
| GuestUnwind.LocalUnwindsStayLocal | dlls/ntdll/signal_ppc64.c:4782-4890 | whoever asks, an unwind to a frame of the asking run's own stack is served in place; one handed on keeps everything except a ContextRecord on the stack that ends |
| GuestUnwind.RoadIff | dlls/ntdll/signal_ppc64.c:4782-4890 | each of the four roads, served in place, deferred, collided and refused, is taken if and only if its condition on the asking run and the frame's stack holds |
| GuestUnwind.DeferralDropsTheHandlersFrames | dlls/ntdll/signal_ppc64.c:4782-4830 | a handler's unwind handed to the frame walk, against the same unwind with the handler's frames on one stack: the same status, registers, write-back and outer `__finally` blocks, for every guest that is quiet in the handler's frames; those frames' own live blocks are dropped, so the sequences agree if and only if there are none |
| GuestUnwind.CatchResumesWhereItsRoutineSays | dlls/ntdll/signal_ppc64.c:4317-4369 | a consolidating unwind that succeeds names a routine, runs it once, last, with the whole record, and resumes where it answers, never at TargetIp |
| GuestUnwind.RunScopeTable | dlls/ntdll/signal_ppc64.c:4150-4188 | the loop over a scope table computes the specified pass |
| GuestUnwind.GuestUnwindToTarget | dlls/ntdll/signal_ppc64.c:4489-4713 | the loop over frames, collisions adopted in place, computes the specified unwind |
| GuestDispatch.DispatchFinds | dlls/ntdll/signal_ppc64.c:4938-5136 | for every guest and every stack, the search asks each filter and each handler that is called for exceptions once, innermost first, and ends with the first that takes, resumes or cannot be served, all earlier ones having declined, or with none; with the registers and the status that each ending has |
| GuestDispatch.DispatchUnwinds | dlls/ntdll/signal_ppc64.c:4938-5040 | both phases for every guest: whoever takes the exception, a scope or a handler's own RtlUnwindEx, each live `__finally` before the point reached runs exactly once, innermost first; nobody taking it, none runs |
| GuestDispatch.FirstTakerIsEnteredIffInReach | dlls/ntdll/signal_ppc64.c:4938-5136 | for a guest whose funclets return: the first taking `__except` is entered, at its jump target with the exception's code in rax and every `__finally` inside it run once, if and only if fewer than 256 frames lie inside it and none of them names a handler for unwinding outside every guest image; an unwind asked for by a guest's own handler goes through if and only if its target is in reach |
| GuestDispatch.DeepExceptIsFoundAndLost | dlls/ntdll/signal_ppc64.c:5121-5136 | a stack on which an `__except` is accepted in the 257th frame and not entered |
| GuestDispatch.ForeignUnwindHandlerLosesTheExcept | dlls/ntdll/signal_ppc64.c:4533-4658 | a stack whose inner frame has a handler for unwinding only, outside every guest image: the search passes it and an outer `__except` takes the exception, and the unwind fails |
| GuestDispatch.DispatchGuestFrames | dlls/ntdll/signal_ppc64.c:4938-5136 | the loop over frames computes the specified dispatch |
| Marshal.PackedWordsSaySlots | tools/spec2thunk/spec2thunk:1711-1740 | for every accepted signature, the slot the dispatcher reads out of the packed words at each position is the one that parameter's type calls for |
| Marshal.PackedWordsFit | dlls/ntdll/signal_ppc64.c:1499-1514 | no measurement is lost: the packed widths fit 32 bits, the masks 16, the floating-point masks 8 |
| Marshal.WithoutWidthsNarrowDecides | dlls/ntdll/signal_ppc64.c:10168-10199 | with no width word, the narrow mask cuts to 32 bits exactly the arguments whose type is no wider |
| Marshal.SignExtendKeepsTheNumber | dlls/ntdll/signal_ppc64.c:1555-1564 | a cut value that is extended with its sign is the same signed number in 64 bits |
| Marshal.WordsAreWhereThePlacesAre | dlls/ntdll/signal_ppc64.c:10176-10186 | the dispatcher looks for each argument where the guest's calling convention puts it: four registers, then the stack past the return address and the shadow space |
| Marshal.MarshalArgsFp | dlls/ntdll/signal_ppc64.c:10367-10439 | the loop leaves each integer argument, cut to its width, at its position, zeros elsewhere, and the floating-point arguments in order |
| Marshal.MarshalArgs | dlls/ntdll/signal_ppc64.c:10168-10199 | the integer path leaves the same image for the arguments there are and touches no other entry |
| NativeCall.RegistersAreLoaded | dlls/ntdll/signal_ppc64.c:10268-10322 | executing the assembly up to its branch puts the two arrays into r3-r10, the parameter save area and f1-f8, for all values, links the new frame to the caller's, and keeps what the caller needs |
| NativeCall.ResultsComeBack | dlls/ntdll/signal_ppc64.c:10322-10329 | from any return that honours the ABI, f1 reaches the result cell, r3 is untouched, and stack, TOC and return address are the caller's |
| NativeCall.CalleeFindsEveryArgument | README.md:337-343 | for every accepted signature, all argument values and anything above an argument's width, the native function finds the caller's i-th argument where its own declaration puts the i-th parameter |
| NativeCall.PassedIsPromisedIff | dlls/ntdll/signal_ppc64.c:1544-1564 | what is passed is what the ABI promises, if and only if it is not a negative signed 32-bit argument |
| NativeCall.VaListReadsTheRest | dlls/ntdll/signal_ppc64.c:10222-10231 | the k-th slot of the made-up va_list is the guest's k-th argument after the fixed ones, and only the shadow space is written |
| NativeCall.PackedDownIsRightIff | dlls/ntdll/signal_ppc64.c:10346-10357 | closing the integers up delivers all values right if and only if no integer argument follows a floating-point one |
| NativeCall.LdexpIsLeast | dlls/ntdll/signal_ppc64.c:10353-10357 | ldexp(double, int) fails under that rule, and no signature of fewer than two parameters does |
| CallbackStub.LoadDecodes | dlls/ntdll/signal_ppc64.c:6856-6864 | the five emitted words decode to the five intended instructions, for every register and value |
| CallbackStub.LoadRuns | dlls/ntdll/signal_ppc64.c:6855-6864 | executing them leaves any 64-bit value in the register and changes nothing else |
| CallbackStub.DispatcherGetsArgumentsAndTarget | dlls/ntdll/signal_ppc64.c:6985-7033 | executing an emitted stub, of either shape, enters the dispatcher with the caller's 4 to 9 arguments and the guest function as one more, and disturbs nothing the caller relies on |
| CallbackStub.StubReturnsTheResult | dlls/ntdll/signal_ppc64.c:6999-7033 | the call-shaped stub comes back to the native caller, on its stack, with the dispatcher's r3 |
| CallbackStub.TailShapeServesSevenAtMost | dlls/ntdll/signal_ppc64.c:6374-6394 | the jumping shape delivers the guest function if and only if there are at most seven arguments, or the caller's frame held it already |
| CallbackStub.StubFitsItsSlot | dlls/ntdll/signal_ppc64.c:6414-6436 | a stub is 12, 20 or 22 words, never more than its slot has |
| CallbackPool.WrapKeepsValid | dlls/ntdll/signal_ppc64.c:6885-7047 | every registration keeps blocks disjoint, one stub per identity, and each stub's code its own |
| CallbackPool.UnwrapUndoesWrap | dlls/ntdll/signal_ppc64.c:6511-6521 | what a registration hands out unwraps to the pointer registered, whether or not it was wrapped |
| CallbackPool.WrapOfTrampoline | dlls/ntdll/signal_ppc64.c:6921-6926 | wrapping a trampoline gives it back and changes nothing |
| CallbackPool.WrapAgainGivesTheSame | dlls/ntdll/signal_ppc64.c:6944-6961 | a later registration of the same target, width and arity gives the same address, however the pool has grown |
| CallbackPool.OneStubPerIdentity | dlls/ntdll/signal_ppc64.c:6944-6961 | two stubs are at one address if and only if target, width and arity agree |
| CallbackPool.WrapIsRawIff | dlls/ntdll/signal_ppc64.c:6885-6990 | native code gets the very pointer back, and the pool is unchanged, if and only if it is null, a trampoline or native code, the arity is unsupported, wrapping is switched off, or a new stub is needed and the pool is full or out of memory; otherwise it gets a stub, and one is added only if there was none |
| CallbackPool.OwnsIff | dlls/ntdll/signal_ppc64.c:6454-6466 | an address counts as the pool's if and only if it lies inside a stub that was handed out |
| CallbackPool.TrampolineReachesItsTarget | dlls/ntdll/signal_ppc64.c:6985-7038 | in a sound pool, executing any stub's stored code enters the dispatcher of its width and arity with its own target |
| CallbackPool.ResultWidth | dlls/ntdll/signal_ppc64.c:6614-6640 | a 32-bit result arrives as the same number whatever lies above it; the narrow form loses a 64-bit one exactly when it is not a sign extension |
| CallbackPool.Trampolines.OwnsAddress | dlls/ntdll/signal_ppc64.c:6454-6466 | the loop over blocks answers whether an address lies in used stubs |
| CallbackPool.Trampolines.Target | dlls/ntdll/signal_ppc64.c:6472-6489 | the loop finds the target of the stub that begins at an address, and none for an address inside one |
| CallbackPool.Trampolines.UnwrapCallback | dlls/ntdll/signal_ppc64.c:6511-6521 | the method computes the specified unwrapping |
| CallbackPool.Trampolines.FindStub | dlls/ntdll/signal_ppc64.c:6950-6961 | the nested search finds the first stub of an identity, or none |
| CallbackPool.Trampolines.WrapCallback | dlls/ntdll/signal_ppc64.c:6885-7047 | the method's new pool and answer are the specified ones |
| CallbackPool.NativeNeverHoldsRawGuestCode | README.md:376-400 | over every run of class registrations, subclassings and calls in which no procedure goes raw, every window procedure native code holds or was told to call is one it can call |
| CallbackPool.StepKeepsInvIff | dlls/ntdll/signal_ppc64.c:7261-7349 | one registration or CallWindowProc, of a module's code, generated code, a winproc handle or a native procedure, keeps that so if and only if the procedure does not go raw |
| CallbackPool.WndprocIsCallableIff | dlls/ntdll/signal_ppc64.c:7099-7128 | what native code is given is callable if and only if the procedure is not guest code, of a module or generated, shaped like a handle and not in need of a stub there is no room for; a live winproc handle always is |
| CallbackPool.HandleShapedProcedureGoesRaw | dlls/ntdll/signal_ppc64.c:7099-7108 | a guest procedure at 0xffff1230, in a module or generated, is installed, and called, raw |
| CallbackPool.GuestReadsBackWhatItInstalled | dlls/ntdll/signal_ppc64.c:7295-7340 | native code holds the wide trampoline of the procedure the guest installed, and through any later run the guest reads back that procedure, if and only if the trampoline's address does not look like a handle |
| CallbackPool.TrampolineShapedLikeAHandle | dlls/ntdll/signal_ppc64.c:6546-6554 | with a block of stubs at 0xffff0000 the guest reads back the trampoline |
| CallbackPool.NativeProceduresPassThrough | dlls/ntdll/signal_ppc64.c:7099-7127 | a null pointer, a winproc handle and a native procedure go in and come back untouched, whoever installs them |
| Ordinals.NumberingIsUnique | tools/spec2thunk/spec2thunk:682-696 | the numbering rule has one solution, whoever follows it |
| Ordinals.NumberingIsNumbering | tools/winebuild/parser.c:919-931 | the greedy loop's answer satisfies the rule: given ordinals kept, the others lowest-free in file order |
| Ordinals.NumberingIsInjective | tools/winebuild/parser.c:904-931 | no two entries share an ordinal unless the file gives one twice |
| Ordinals.NumberingAscends | tools/winebuild/parser.c:919-931 | entries without an ordinal get increasing ones, in file order |
| Ordinals.RoomInTable | tools/winebuild/parser.c:900-902 | each entry's number lies below base + n, so that the search for it never leaves the allocated table |
| Ordinals.BaseIsLeast | tools/winebuild/parser.c:888-898 | the base is the least ordinal given, or 1 if none is |
| Ordinals.FindBounds | tools/winebuild/parser.c:888-898 | the first pass finds the base and the limit |
| Ordinals.PlaceGiven | tools/winebuild/parser.c:904-917 | the second pass places the first entry for each given ordinal and complains if and only if one is given twice |
| Ordinals.AssignOrdinals | tools/winebuild/parser.c:882-933 | all three passes: ends in "too many" if and only if an unnumbered entry would get 65535 or more; otherwise the numbering, a table inverse to it when no ordinal is given twice, and the limit |
| Ordinals.AssignRecords | tools/spec2thunk/spec2thunk:707-740 | the Python, with the least and greatest of the given ordinals for base and limit, numbers a file if and only if all ordinals are in range, none is given twice and none overflows, and then exactly as winebuild does |
| Ordinals.LimitsAgreeUnlessEmpty | tools/spec2thunk/spec2thunk:740 | the two tools' limits agree if and only if the module has an entry |
| Ordinals.EmitDef | tools/spec2thunk/spec2thunk:2537-2589 | the emitted table has each served entry at its ordinal, nothing else in the module's range, and the tool's own structures right past it |
| Ordinals.OrdinalIsTheRealEntryOrAHole | README.md:411-418 | an ordinal of the thunk resolves to the entry the real module has there, if that one is served, and to nothing otherwise |
| Ordinals.RefusingMoreMovesNothing | tools/spec2thunk/spec2thunk:694-701 | refusing more entries opens holes and moves no other entry |
| GuestRun.TebDescribesTheExecutingMachine | README.md:348-358 | over every nesting of runs, traps, fiber switches, and stacks that grow, are freed and are made again at the same address: while native code executes, the TEB describes the native stack and claims no more committed than is; while guest code does, it describes that code's stack if and only if the events have not marked its bounds wrong; a leaf call is served with the TEB on the guest's stack |
| GuestRun.OrderlyRunsAreRight | dlls/ntdll/signal_ppc64.c:7703-7760 | in every run in which each switch is made by the run its fiber executes in and nothing is freed that somebody is on, all bounds on record and parked stay right, and so does the TEB |
| GuestRun.StraySwitchMisleads | dlls/ntdll/signal_ppc64.c:7722-7756 | a nested run makes a fiber, goes over to it and back under the outer run's fiber: its guest executes on its own stack while the TEB has the outer one's, claiming pages that are not committed |
| GuestRun.StackIsUsedAgain | dlls/ntdll/unix/loader.c:2460-2495 | after a run has ended without an exception, another one can be made at the same address |
| GuestRun.FiberSwitchIsReachable | dlls/ntdll/signal_ppc64.c:7597-7760 | a new thread's guest becomes a fiber, makes another one and switches to it: the TEB then has the new fiber's bounds, and the first one's are parked |
| GuestRun.ClosingRestores | dlls/ntdll/unix/loader.c:2441-2443 | whatever happened inside a run, closing it puts back the guest bounds in force when it was opened and a TEB of the same native stack |
| GuestRun.TrapForgetsGrowth | dlls/ntdll/unix/loader.c:1715-1728 | in every run, a call out of guest code and back keeps the TEB's limit if and only if the stack has not grown since its bounds were last put there; otherwise the limit that comes back is above what is committed, if the run's bounds were not wrong already |
| GuestRun.GrowthIsForgotten | dlls/ntdll/unix/loader.c:1715-1728 | a run of four events after which it does |
| GuestRun.StopKeepsGrowth | dlls/ntdll/unix/loader.c:2351-2358 | growth survives a stop and resume of the run |
| GuestRun.ParkedLimitIsTheRecordedOne | dlls/ntdll/signal_ppc64.c:7703-7760 | the limit a fiber is parked with by its own run is that run's recorded one, and equals what is committed if and only if the growth did not move it |
| GuestRun.QueriesAreExact | README.md:663-675 | in every run of events whatever, a debugger reads the registers of the innermost activation or none, unless a run that closed on an exception has left its own at this level, which are read then until that level's guest executes or stops |
| GuestRegisters.RegistersFollowTheEvents | dlls/ntdll/unix/loader.c:1851-1868 | in every run that can happen, each level's registers are those the events alone say: the last that were started, computed, written into the trap frame, switched in or resumed with there, a call beginning with its run's and ending into them; and a debugger reads those |
| GuestRegisters.FiberGoesOnWhereItLeft | dlls/ntdll/signal_ppc64.c:7722-7745 | whatever happens in between and whichever run switches back, a fiber goes on with the registers it left with, its call having returned 0 to its own caller |
| GuestRun.NothingIsAnsweredInTheEmulator | dlls/ntdll/unix/loader.c:1505-1551 | in every run of events whatever, no context is answered while guest code executes, and a trap frame is read only while it is live |
| GuestRun.CloseOnExceptionIsExactIff | dlls/ntdll/unix/loader.c:2445-2458 | after every run of events whatever, closing one more is answered exactly if and only if it closes without an exception over a level with nothing left, or what is left equals the enclosing guest's registers |
| GuestRun.NestedRunLeavesItsRegisters | dlls/ntdll/unix/loader.c:2445-2458 | inside any trap, a nested run that ends in an exception leaves its registers to be read as the trap's |
| StackMarkers.NeverTwoReports | README.md:431-444 | in every run of calls, raises, unwinds, swallows and resumes a thread never has two live unhandled-exception reports |
| StackMarkers.RaiseRefusedIff | dlls/ntdll/signal_ppc64.c:5494-5543 | after every run, a re-raise ends the process if and only if a report is running, the report last swallowed began above this frame, or less than 64 KiB of stack is left |
| StackMarkers.StaleMarkEndsTheProcess | dlls/ntdll/signal_ppc64.c:5511-5531 | a run in which that happens with no report running |
| StackMarkers.CounterNeverRecovers | README.md:441-444 | with a counter in the mark's place, one swallowed report makes every later one be refused |
| StackMarkers.CounterIsExactUnlessSwallowed | README.md:441-444 | until then that counter is exact: over every run without a swallow it counts the live reports, and a raise is served if and only if there is none |
| StackMarkers.CurrentKeepsTheLive | dlls/ntdll/signal_ppc64.c:3838-3854 | pruning a list that ends keeps every unwind in progress with all that is behind it, and drops a record if and only if neither it nor any in front of it is above the present frame |
| StackMarkers.InsideUnwindIff | dlls/ntdll/signal_ppc64.c:3816-3854 | a thread whose list ends is taken to be inside an unwind if and only if it is, or stands deeper than an abandoned one |
| StackMarkers.DispatchInsideUnwindIff | dlls/ntdll/signal_ppc64.c:5394-5400 | a dispatch prunes before it begins, so that the same holds of the list it goes on with |
| StackMarkers.CurrentIsTheInnermostIff | dlls/ntdll/signal_ppc64.c:3838-3854 | the unwind it is taken to be inside is the innermost one in progress if and only if every unwind begun inside that one and abandoned was deeper than here |
| StackMarkers.ReturnRestoresTheList | dlls/ntdll/signal_ppc64.c:4496-4527 | an unwind that returns leaves the list exactly as it found it, over every run inside it in which no record meets itself |
| StackMarkers.AbandonedRecordOutlivesALook | dlls/ntdll/signal_ppc64.c:4496-4527 | a run in which an abandoned record survives a prune from above it and heads the list again |
| StackMarkers.ListEndsIff | dlls/ntdll/signal_ppc64.c:4496-4527 | linking a record in leaves a list that ends if and only if its address is not that of a record still in the list |
| StackMarkers.RecordMeetsItself | dlls/ntdll/signal_ppc64.c:4803-4812 | a run in which it is, after a handler's local unwind was abandoned |
| StackMarkers.NoRecordLinksToItself | dlls/ntdll/signal_ppc64.c:4851-4889 | an unwind started after a prune meets an old record only if that one is abandoned and kept in the list by a record above the pruning frame |
| StackMarkers.Current | dlls/ntdll/signal_ppc64.c:3838-3854 | the loop computes the specified pruning |
| StackMarkers.DepthCountsTheAbandoned | dlls/ntdll/signal_ppc64.c:5414-5439 | over every run whatever the nesting depth exceeds the dispatches in progress by exactly those unwound past |
| StackMarkers.DispatchRefusedIff | dlls/ntdll/signal_ppc64.c:5414-5420 | an exception is refused as nested too deep if and only if dispatches in progress and abandoned ones make eight |
| StackMarkers.EightSwallowedDispatchesEndDispatching | dlls/ntdll/signal_ppc64.c:5414-5420 | after eight swallowed dispatches a thread with no frame left serves no exception |
| SteamRpc.Measure | dlls/steamclient64/steamrpc.c:602-629 | the measuring loop refuses if and only if some pointer's length is unusable or the frame would pass 16 MiB, and otherwise finds every pointer and length |
| SteamRpc.CallGoesOutIff | dlls/steamclient64/steamrpc.c:602-664 | what is measured is the size of the frame that is built: a call goes out if and only if every pointer's length is usable and the whole frame, if it has a blob, is at most 16 MiB |
| SteamRpc.BufferIsWholeIff | dlls/steamclient64/steamrpc.c:336-386 | for every kind of field: a buffer is refused if and only if its count passes the cap or its size is all ones in 32 bits, and is otherwise sent whole if and only if its bytes fit 32 bits |
| SteamRpc.SizedCanWrapToNothing | dlls/steamclient64/steamrpc.c:347-364 | a count within the cap whose buffer is sent as empty |
| SteamRpc.BuildFrame | dlls/steamclient64/steamrpc.c:638-664 | the frame holds the params struct and a blob for each pointer that is not null |
| SteamRpc.HelperIsSentTheCallersBuffers | dlls/steamclient64/steamrpc.c:646-664 | each blob sent holds the caller's buffer, over its whole measured length |
| SteamRpc.OwnBlobsAreDistinct | dlls/steamclient64/steamrpc.c:646-664 | no two blobs of a call are for one pointer |
| SteamRpc.ReadFrame | ppc64le/steamapi/helper/steamhelper.c:509-560 | the helper's loop computes the specified loading, or refuses the frame |
| SteamRpc.PointersLeadToCopies | ppc64le/steamapi/helper/steamhelper.c:534-556 | every pointer the callee can follow, in the params or one level in, leads to the helper's copy of what the caller's pointer led to |
| SteamRpc.CopiesAreFaithful | ppc64le/steamapi/helper/steamhelper.c:509-560 | a copy's cells are the caller's, except pointer cells patched to other copies |
| SteamRpc.RedZonesAreIntact | ppc64le/steamapi/helper/steamhelper.c:525-529 | no red zone is touched before the callee runs |
| SteamRpc.OtherParamsAsSent | ppc64le/steamapi/helper/steamhelper.c:505-507 | params that are no pointers reach the callee as sent |
| SteamRpc.BlobOverrun | ppc64le/steamapi/helper/steamhelper.c:474-482 | answers 0 if and only if the red zone is whole, otherwise the position past the last changed byte |
| SteamRpc.Receive | dlls/steamclient64/steamrpc.c:687-760 | the client's loops compute the specified memory |
| SteamRpc.RepliesReachTheirFields | dlls/steamclient64/steamrpc.c:703-743 | the reply's blobs, matched by offset and nesting, write each field's result into that field's own buffer |
| SteamRpc.OutputsArriveWhole | README.md:745-766 | each output buffer holds exactly what the callee left, over exactly its declared length, with the caller's own pointers inside |
| SteamRpc.PointersAreTheCallers | dlls/steamclient64/steamrpc.c:696-760 | every pointer field, also one level in, is the caller's again |
| SteamRpc.ScalarsAreTheCallees | dlls/steamclient64/steamrpc.c:693-701 | every other params cell is what the callee left |
| SteamRpc.OtherMemoryIsUntouched | README.md:745-766 | no other cell of the caller's memory changes, however its buffers overlap |
| SteamRpc.RefusalTouchesNoBuffer | ppc64le/steamapi/helper/steamhelper.c:604-640 | after a refused call no cell outside the params struct has changed |
| SteamRpc.RefusalReturnsTheParams | ppc64le/steamapi/helper/steamhelper.c:632-640 | of a refused call too the params come back, the callee's scalars and the caller's pointers |
| SteamRpc.CompletesIff | dlls/steamclient64/steamrpc.c:687-760 | the helper refuses a call if and only if a byte of a red zone has changed; the caller's memory is that of a completed call if and only if none has, or the callee left every buffer as it was |
| SteamRpc.OwnFrameIsLoadedIff | ppc64le/steamapi/helper/steamhelper.c:509-560 | the helper loads a sound call's own frame if and only if every nested pointer's outer object is sent before it and is long enough for it |
| SteamRpc.CalleeFindsTheCall | README.md:745-766 | from the caller's memory to the callee's: each pointer leads to a copy of that buffer over its whole length, pointers in it led on likewise, with an intact red zone behind |
| SteamRpc.CalleeFindsTheScalars | ppc64le/steamapi/helper/steamhelper.c:505-507 | the other params are as the caller set them |
| TocRestore.RestoreSaved | libs/unwind/src/DwarfInstructions.hpp:166-195 | the loop restores each saved register from its slot and sets the return address aside |
| TocRestore.R2FollowsTheFrames | README.md:785-800 | after any number of unwind steps r2 is the TOC of the module whose frame was reached |
| TocRestore.RegistersFollowTheFrames | libs/unwind/src/DwarfInstructions.hpp:166-195 | after any number of unwind steps each register that the callees keep, in a slot or in place, is the reached frame's |
| TocRestore.StepIsRightIff | libs/unwind/src/DwarfInstructions.hpp:236-262 | one step is right about r2 if and only if the save-and-reload rule of either ABI holds, or the save slot is empty and the TOCs agree anyway |
| TocRestore.UnsavedReturnEndsTheWalk | libs/unwind/src/DwarfInstructions.hpp:166-195 | a function that saved no return address leads to address 0, with r2 as it was |
| TocRestore.ByPcFollowsTheFramesIff | README.md:797-800 | over a whole stack, reading the marker through the pc field keeps r2 right at every frame if and only if neighbouring frames differ in their marker only where the save slot or the TOCs make it harmless |
| TocRestore.ByPcLoadsGarbage | README.md:797-800 | a stack on which it loads a word that is no TOC, while the code's own rule is right |
| Riff.ReadUndoesLayOut | include/aviriff.h:26-44 | for every tree of chunks and lists whose lengths do not wrap, walking the layout with RIFFNEXT gives the tree back |
| Riff.WalkVisitsTheWrittenStarts | include/aviriff.h:43-44 | stepping visits exactly the starts that were written |
| Riff.WalksEnd | include/aviriff.h:43-44 | over any bytes a bounded walk ends within n/8 steps, on starts of one parity |
| Riff.Walk | include/aviriff.h:43-44 | the walking loop visits the specified starts |
| Riff.StepCoversTheChunkIff | include/aviriff.h:43-44 | a step covers its chunk if and only if the length is not 0xffffffff, which is stepped over as empty |

## Left out

- RipCache: the order in which weakly ordered processors make the seqlock's stores visible is represented by free order of the payload accesses between the two fenced accesses to the sequence word, not by a memory model.
- GuestUnwind.UnwindRunsWhatIsOwed: handlers that return ExceptionCollidedUnwind (dlls/ntdll/signal_ppc64.c:4644-4656) are left out, because the position they hand back is arbitrary guest memory.
- GuestUnwind.EachFinallyExactlyOnce: leaves out the same handlers.
- GuestUnwind.GuestUnwindToTarget: leaves out the same handlers.
- GuestDispatch.DispatchFinds: leaves out the same disposition in the search (dlls/ntdll/signal_ppc64.c:5035-5049), which two handlers can answer in turns without end.
- GuestDispatch.DispatchGuestFrames: leaves out the same disposition.
- GuestUnwind: run stacks kept for a record's pointers.
- GuestDispatch: handlers registered on the TEB chain, vectored handlers run before the frames, and access-violation reporting.
- Marshal: exports whose widths the generator could not measure, which are passed uncut; the environment switches that turn cuts off; the i386 frame word. The conversion of a float to a double is an arbitrary function.
- NativeCall: the integer-only call is compiled C, so only its argument array is modelled; the conversion of the result into XMM0.
- CallbackStub: the emitted words are sums of fields that do not overlap, where the source ors them; addresses are doublewords, and a stack that leaves no page below or above the stack pointer is not considered.
- CallbackPool: GetClassInfo and GetClassLongPtr, which unwrap in the same way as GetWindowLongPtr; RegisterClassEx with a wrong size, which native code rejects.
- Ordinals: spec-file syntax and the processor filter, which both tools apply before numbering; names; the linker's own numbering of a module without ordinals.
- GuestRun: DeleteFiber and ConvertFiberToThread, the crossing log, and signals that arrive between the two stores of a publication.
- StackMarkers: an abandoned record's link is taken to be intact, although its frame may be overwritten before the next prune.
- SteamRpc: a pointer is one cell instead of eight bytes; the socket, lost connections, the temp-path image and path conversion; strlen and the generated length functions are given numbers; the limit of 32 fields.
- TocRestore: float and vector registers, and the decoding of call-frame information, which is taken to be right.
- Part-size structs in include/commctrl.h, index views in include/aviriff.h, the UUID matcher in include/bthledef.h and the conversions in include/basetsd.h would only add easy members.
- The emulator and its JIT, the loader, COM and vtable dispatch, graphics, windowing and the build are not modelled.
