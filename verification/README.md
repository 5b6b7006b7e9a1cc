# TinyGo: verified models of compiler and builder algorithms

This project models, in Dafny, the parts of TinyGo whose correctness is an argument over a
whole run, a whole graph or a whole file, and proves that argument:

- **Defer lowering.** Tarjan's algorithm decides which blocks are in loops; sites outside loops
  get one stack slot. `Tarjan` is the algorithm over one mutable state shared by all queries,
  `DeferRun` the generated code as a state machine, with panics in any deferred call, `DeferText`
  what its runs mean for the program text.
- **The parallel job runner.** Dependency order, the books of waiting, ready, running and
  finished jobs, the semaphore, and what happens after a failure, for every interleaving of
  starts and completions.
- **Call properties.** The memoised depth-first analysis of which functions may suspend or
  unwind, against reachability in the call graph.
- **Calling convention.** The planner that passes large aggregates by pointer, the splitting and
  joining of struct parameters, and the WebAssembly parameter limit.
- **The cache of compiled C files**, as histories of file edits and calls.
- **Size attribution**, **C constant expressions**, **ROM extraction and UF2**, **ESP32 and
  ESP32-S3 images**, and **bounds checks for slicing and make**.

Code that changes state in the source is a class or a method with loops here, proved against
functions on values; the promises are lemmas about those functions.

Three terms recur. `Reach` and `InCycle` speak of paths in a graph, a cycle having at least one
edge. A *ghost view* is the value of an object's fields. An operation is *exact* when its
condition is stated as an if-and-only-if.

## What does not hold

Some natural promises fail, and the model keeps the code as it is:

- Ill-formed C constants are not always rejected: the error of an operand is overwritten when a
  later operand is parsed (cgo/const.go:155), which leaves a hole in the tree.
  `ConstAccept.AcceptsIffSloppy` describes the accepted token sequences exactly, by a grammar of
  their own, and `ConstAccept.AcceptsIllFormedIff` the ill-formed ones among them.
- A job that names a dependency twice may start twice. With enough permits it does in some run,
  in whatever order ready jobs are popped, exactly when no other dependency of the job leads to
  the repeated one, so that this one can complete last (`JobPlays.StartsOnceIff`,
  `JobPlays.BadStartsTwice`); `JobRunner.RunJobs` is proved for all other graphs, with harmless
  repetitions. With few permits the order of popping may avoid it.
- On a dependency cycle the recursive collection of jobs does not return
  (`JobOrder.AddJobsEndsIffAcyclic`), so the dependency-cycle error is not reported there; and on
  the graphs of `JobRunner.RunJobs` it does not occur.
- Cached C objects are right in every history exactly for compilers whose result depends only on
  the file, the configuration and the reported dependencies (`CObjectCache.RightIffLocal`). The
  comment at builder/cc.go:60-63 allows for stale objects; under that condition there are none.
  This is for calls during which the files do not change: an edit between compiling and hashing
  stores the old object under the name of the new files (`CObjectCache.EditedNextRightIff`).
- With 16-bit pointers, where `int` is wider than `uintptr`, a negative length can pass the check
  of make (`SliceOps.NegativeLengthAccepted`). `SliceOps.MakeRightIff`, `SliceTypes.SliceRightIff`
  and `SliceTypes.StringRightIff` say, on every target and for all operand types, whether make and
  slicing are right for all their values. `SliceOps.MadeStaysInside` holds even where they are not.
- In emulator images the hash covers the 4096 zero bytes before the image too, so it is the hash
  of what the bootloader reads exactly for other images (`EspTheorems.HashCoversLoadedIff`).
- The builder accepts ESP32 flash segments that the startup code does not show at their own
  addresses. It maps DROM from 0x3F400000 on and IROM from 0x400D0000 on, so a DROM segment at
  0x3F410000 is not shown there (`EspStartup.DromTooHigh`); and without DROM data it takes IROM to
  follow at once, where the builder leaves a page free, although a comment says that the two
  computations match (`EspStartup.IromWithoutDrom`, `EspStartup.IromPages`).
  `EspStartup.DromInPlaceIff` and `EspStartup.IromInPlaceIff` have the exact conditions.
- The same holds of IROM on the ESP32-S3, which the startup code maps from 0x42000000 on whatever
  its address (`EspStartup.S3IromTooHigh`, `EspStartup.S3IromInPlaceIff`).
- The builder takes the last part of the ESP32's IROM region, from 0x40400000 on, for RAM
  (`EspWhole.IromTakenForRam`); `EspWhole.LinkedRegions` says where its ranges are the linker's.

## Model

| member | source | states |
|---|---|---|
| TarjanSpec.InitialIdle | compiler/defer.go:367-380 | The fresh state satisfies the invariant that holds between queries. |
| TarjanSpec.PushScanning | compiler/defer.go:296-306 | Numbering a block and pushing it establishes the invariant of a scan over its successors. |
| TarjanSpec.ScanSelf | compiler/defer.go:312-316 | Marking a block with a self edge as cyclic keeps the scan invariant. |
| TarjanSpec.ScanDone | compiler/defer.go:324-327 | A successor that left the stack can be skipped: no path leads from it back to the stack. |
| TarjanSpec.ScanOn | compiler/defer.go:335-337 | The low link update for a successor on the stack keeps the scan invariant. |
| TarjanSpec.ScanNew | compiler/defer.go:320-337 | The invariant survives a nested visit, whether the successor stayed on the stack or left with its component. |
| TarjanSpec.FinishInner | compiler/defer.go:340-340 | A block whose low link is below its number stays on the stack, connected to a block below it. |
| TarjanSpec.FinishRoot | compiler/defer.go:340-364 | Popping down to a root leaves the invariant intact, with exact flags for everything popped. |
| TarjanSpec.PoppedClosed | compiler/defer.go:340-364 | No edge leads from popped blocks to blocks that are not popped: components leave the stack complete. |
| TarjanSpec.ComponentCycle | compiler/defer.go:350-361 | Every block popped together with another one is on a cycle. |
| TarjanSpec.LoneRoot | compiler/defer.go:344-350 | A root popped alone is on a cycle if and only if it was flagged for a self edge. |
| TarjanSpec.VisitedMore | compiler/defer.go:296-306 | Every visit lowers the number of unvisited blocks, so the recursion ends. |
| TarjanSpec.IdleStackEmpty | compiler/defer.go:286-291 | Between queries the stack is empty. |
| TarjanSpec.IdleExact | compiler/defer.go:286-291 | Between queries the flag of every visited block equals being on a cycle. |
| Tarjan.LoopFinder.IsInLoop | compiler/defer.go:286-291 | Any query in any sequence of queries on one shared state returns true if and only if a non-empty path leads from the block to itself, and leaves the stack empty. |
| Tarjan.LoopFinder.StrongConnect | compiler/defer.go:293-365 | The recursive visit, against the specification of a completed visit; terminates on the number of unvisited blocks. |
| Tarjan.LoopFinder.PushBlock | compiler/defer.go:296-306 | The fields after numbering and pushing a block are exactly those of the specification. |
| Tarjan.LoopFinder.ScanSuccessor | compiler/defer.go:309-338 | One round of the successor loop keeps the scan invariant, in all four cases. |
| Tarjan.LoopFinder.PopTop | compiler/defer.go:344-348 | Pops one block and changes nothing else. |
| Tarjan.LoopFinder.PopComponent | compiler/defer.go:343-363 | The loop pops down to the root and flags all popped blocks if there are several. |
| Defer.CallbackTable.Register | compiler/defer.go:426-540 | The number returned for a callee selects that callee in the table, earlier numbers keep their meaning, and a known callee gets no second number. |
| Defer.CompileBlock | compiler/defer.go:420-563 | Every defer of a block gets a valid callback number, and a heap record if and only if the block is on a cycle. |
| Defer.CompileDefers | compiler/compiler.go:1416-1482 | The same for a whole function compiled in any block order, against the complete callback table. |
| Defer.BlockOkGrows | compiler/compiler.go:1416-1482 | Code compiled against a smaller callback table stays right when the table grows. |
| DeferRun.AtMostOnce | compiler/defer.go:543-563 | Along every walk through the control flow graph a block on no cycle occurs at most once. |
| DeferRun.FreshAddress | compiler/defer.go:543-563 | In every reachable state the record a defer writes is not linked in the list. |
| DeferRun.DeferKeeps | compiler/defer.go:542-564 | Executing a defer keeps the list invariant with the new record in front. |
| DeferRun.JumpKeeps | compiler/defer.go:543-563 | A jump to a successor keeps the invariant, including which stack slots may be in use. |
| DeferRun.PopKeeps | compiler/defer.go:586-616 | Popping the head before its call keeps the invariant, whether or not the call panics. |
| DeferRun.StepKeeps | compiler/defer.go:566-771 | Every step of the generated code keeps the invariant. |
| DeferRun.RunKeeps | compiler/defer.go:566-771 | Every state of every run satisfies the invariant. |
| DeferRun.ListIsLifo | compiler/defer.go:566-771 | In every state of every run the calls made are the newest defers, newest first, the list holds exactly the others, and the default case of the switch is not reached. |
| DeferRun.AllCalledOnce | compiler/defer.go:566-616 | When the loop ends every executed defer was called exactly once, last in first out, whichever calls panicked. |
| DeferRun.PanicsLand | compiler/defer.go:566-616 | In every run a panic and nothing else leads to the landing pad or leaves the unwind flag set, by the way panics unwind on the target. |
| DeferText.TextKept | compiler/defer.go:445-564 | In every state of every run the defers executed are, with the arguments of their own statements, those that the text holds along the path of control, up to the present site. |
| DeferText.CallsOfTheText | compiler/defer.go:445-616 | When the loop ends the calls made are, backwards, exactly those that the text defers along the path of control from the entry, all of them after a regular exit and a prefix after a panic, each with its own arguments. |
| DeferRun.LoopProgress | compiler/defer.go:586-616 | After the body a run can always go on until it is finished, and every step lowers a rank. |
| DeferRun.OverwriteNeverEnds | compiler/defer.go:543-563 | Storing over a record that is still linked would make a list without end: the loop test is needed. |
| JobOrder.JobList.AddJobs | builder/jobs.go:53-68 | Appends exactly the jobs below the given one that are not yet listed, each once and after its dependencies. |
| JobOrder.AddedIsAcyclic | builder/jobs.go:53-68 | If the recursion returns, nothing it added leads to a cycle. |
| JobOrder.AcyclicEnds | builder/jobs.go:53-68 | Without a cycle a recursion depth of the number of jobs below is enough. |
| JobOrder.AddJobsEndsIffAcyclic | builder/jobs.go:53-68 | The recursion returns if and only if no dependency cycle is reachable. |
| Jobs.LogStart | builder/jobs.go:102-112 | Starting a job whose dependencies are done keeps the safety of the log: permits bounded, every job once, dependencies first. |
| Jobs.LogFinish | builder/jobs.go:114-127 | Receiving a completion keeps the safety of the log. |
| Jobs.VisitCounts | builder/jobs.go:142-151 | What the update loop leaves waiting, and how often it makes each job ready. |
| Jobs.MadeReadyCount | builder/jobs.go:142-151 | A completion makes a job ready exactly as often as the job lists it, provided nothing else is awaited, and not at all otherwise. |
| Jobs.DoneClosed | builder/jobs.go:139-151 | Everything below a finished job is finished. |
| Jobs.PushedOnce | builder/jobs.go:142-151 | Where every repeated dependency is reached by another one of the job, no completion makes a job ready twice. |
| Jobs.DistinctIsFine | builder/jobs.go:86-89 | A job that repeats no dependency is among those. |
| JobRunner.StartKeepsBooks | builder/jobs.go:102-112 | Starting any ready job keeps every job in exactly one of waiting, ready, running and done. |
| JobRunner.VisitOutcome | builder/jobs.go:142-151 | Without bad duplicates the update loop makes ready exactly the jobs that awaited only the completed one, each once. |
| JobRunner.CompleteKeepsBooks | builder/jobs.go:139-151 | Without bad duplicates a successful completion keeps every job in exactly one of waiting, ready, running and done. |
| JobRunner.AllDone | builder/jobs.go:96-156 | When nothing is ready or running, every listed job is done. |
| JobRunner.EnterDependencies | builder/jobs.go:81-89 | Each dependency's list gains the job as often as the job lists the dependency. |
| JobRunner.Prepare | builder/jobs.go:69-90 | The initial books are in order for any ordered job list. |
| JobRunner.UpdateDependents | builder/jobs.go:142-151 | The update loop equals the function whose effect is proved above. |
| JobRunner.Drain | builder/jobs.go:128-133 | After a failure the remaining completions are received with the outcome each job has, nothing starts, and all permits are returned. |
| JobRunner.FailRun | builder/jobs.go:128-137 | A failing run ends drained, with no start after the failing completion was received, and every received outcome is the one of its job. |
| JobRunner.RunListed | builder/jobs.go:96-156 | For every interleaving and any set of failing jobs the main loop ends with zero permits held and every received outcome right; it succeeds if and only if no listed job fails, and otherwise reports a started job that fails, after whose completion nothing started. |
| JobRunner.RunJobs | builder/jobs.go:48-170 | The same for the root job and all jobs below it: success if and only if none of them fails, failure if and only if a started job fails; zero capacity is the only other outcome, and the cycle error never occurs. |
| JobPlays.PlayKeeps | builder/jobs.go:96-151 | Without bad duplicates, every stage of every run, in whatever order jobs are popped, keeps the books in order and the log safe. |
| JobPlays.LooseComplete | builder/jobs.go:139-151 | What a completion keeps even when jobs were made ready more than once. |
| JobPlays.RunTargets | builder/jobs.go:96-151 | With enough permits, in whatever order jobs are popped, everything that gets ready can be started while just a given set of jobs with all below them completes. |
| JobPlays.BadStartsTwice | builder/jobs.go:96-151 | For every bad duplicate, every order of popping and as many permits as there are jobs and listed dependencies, some run starts the job twice. |
| JobPlays.StartsOnceIff | builder/jobs.go:96-151 | For every order of popping: no run with any number of permits starts a job twice if and only if no job has a bad duplicate, a repeated dependency that none of its others leads to. |
| CallSpec.VerdictCovers | compiler/calls.go:386-437 | The verdict of a function includes what every function reachable from it does. |
| CallSpec.ReachableLeast | compiler/calls.go:386-437 | The properties of reachable code are below every solution of the flow equations. |
| CallSpec.ReachableSolves | compiler/calls.go:386-437 | They are a solution themselves, so they are the least one. |
| CallSpec.TotalIsVerdict | compiler/calls.go:397-430 | A function's own properties joined with the verdicts of its callees are its verdict: the least solution, or both flags when a call cycle is reachable. |
| CallMeaning.VerdictMeaning | compiler/calls.go:386-437 | Over the instructions alone: a function may suspend (unwind) by the verdict if and only if a chain of static calls from it meets a function twice, or leads to one without body, with a call of a function value, with an instruction that may suspend (unwind), that is task.Pause (that calls close, delete or panic). |
| CallMeaning.DynamicCallBehind | compiler/calls.go:421-424 | One call of a function value in any function behind f gives f both flags. |
| CallMeaning.HarmlessCode | compiler/calls.go:397-430 | A function without recursion behind it, all of whose reachable code only makes static calls and nothing that may suspend or unwind, gets neither flag. |
| CallProps.CallAnalysis.Properties | compiler/calls.go:386-437 | Every query returns the verdict of the program, whatever was queried before: the flags say exactly what the code behind the function may do. |
| CallProps.CallAnalysis.FunctionCallProperties | compiler/calls.go:386-437 | The memoised recursion returns the verdict and stores only verdicts. |
| CallProps.CallAnalysis.Scan | compiler/calls.go:397-431 | Adding up the blocks gives the total of the function. |
| CallProps.CallAnalysis.ScanBlock | compiler/calls.go:406-429 | A block scan that stops once both flags are set misses nothing. |
| CallProps.CalledAgain | compiler/calls.go:391-393 | Returning both flags for a function that is being visited is its verdict. |
| CallProps.ExternalVerdict | compiler/calls.go:391-393 | Returning both flags for a function without body is its verdict. |
| LlvmTypes.CountLimitExact | compiler/func.go:188-226 | The 64-bit leaf counter never wraps: it reports exceeding exactly when the count plus the leaves is over the limit, and otherwise the sum. |
| LlvmTypes.FlattenLeaves | compiler/calls.go:693-737 | Flattening a type and dropping fields without size keeps the number of leaves. |
| LlvmTypes.ExpandLeaves | compiler/calls.go:601-613 | So does the expansion of a parameter type. |
| Flatten.FlattenLengths | compiler/calls.go:812-830 | Flattening a value gives as many fragments as flattening its type. |
| Flatten.OffsetLengths | compiler/calls.go:785-810 | So do the offsets. |
| Flatten.OffsetsLoad | compiler/calls.go:785-810 | Loading an object at flattened offset i gives fragment i of its value. |
| Flatten.ExpandOffsetsLoad | compiler/calls.go:649-667 | The offset given for each fragment of a parameter is where the object holds it; a value passed whole is at offset 0. |
| Flatten.ZeroSizeUnique | compiler/calls.go:845-860 | A type without size has one value, so skipped fields are restored by the null value. |
| Flatten.CollapseFlattened | compiler/calls.go:843-867 | Joining fragments followed by any others returns the value and exactly those others. |
| Flatten.CollapseExpand | compiler/calls.go:668-691 | Splitting never panics, gives one fragment per parameter type, and joining returns the value with none left over, for all types and values. |
| Flatten.ExpandTyped | compiler/calls.go:669-691 | Every fragment has the parameter type at its place. |
| AbiCall.TypeAtPosition | compiler/func.go:303-314 | In the function type the LLVM parameters of parameter i follow those of all earlier ones: one pointer if it is indirect, the types of its fragments otherwise. |
| AbiCall.FunctionTypeEnds | compiler/func.go:293-318 | The result pointer is the first parameter exactly when the result is indirect, and the context is the last. |
| AbiCall.ExpandFormalParams | compiler/calls.go:100-107 | The loop lays the fragments of the values out one after the other, with the expanded types. |
| AbiCall.GetCallArguments | compiler/calls.go:633-639 | Indirect arguments become addresses, the others stay values. |
| AbiCall.PassArguments | compiler/compiler.go:2471-2497 | The arguments of a call have the types of the function type one by one, result storage first and context last, and every argument can be read back at its positions. |
| AbiCall.LoadParameters | compiler/compiler.go:1328-1381 | The walk over the LLVM parameters reads each parameter at its own positions, and fails only where joining fails. |
| AbiCall.Call | compiler/compiler.go:2471-2497 | For every plan the callee reads exactly the arguments, result address and context that the caller passed, whether split, whole or by address. |
| AbiBudget.SaturationHarmless | compiler/func.go:77-128 | Counting each parameter only up to the limit decides about the limit as the true counts do. |
| AbiBudget.FewerSaveLess | compiler/func.go:118-128 | No set of fewer candidates saves more than the largest ones. |
| AbiBudget.GreedySmallest | compiler/func.go:121-128 | Stopping at the first fit gives a smallest choice. |
| AbiBudget.SmallestOfAny | compiler/func.go:109-118 | Passing anything but the candidates by pointer saves nothing, so a smallest choice among them is a smallest choice of any parameters. |
| Abi.OrderIsCandidates | compiler/func.go:100-120 | The sorted list holds exactly the lowerable parameters, each once, largest first. |
| Abi.LoweredSmallest | compiler/func.go:60-138 | The planner passes as few aggregates as possible by pointer so that the true leaf count is within the limit, or all of them if that is impossible. |
| Abi.LoweredBest | compiler/func.go:100-128 | No set of parameters of any kind does better: if passing it by pointer meets the limit, so does the choice of the planner, with no more of them. |
| Abi.LeafCount | compiler/func.go:77-80 | The computed count is the number of leaves, saturated. |
| Abi.InitialParams | compiler/func.go:72-86 | The first plan: which parameters are indirect from the start. |
| Abi.CountParams | compiler/func.go:100-117 | The loop computes the total of the plan and the candidate list. |
| Abi.LowerLargest | compiler/func.go:121-128 | The loop lowers the first candidates up to the first fit, keeps the count equal to the total, and touches nothing else. |
| Abi.GetFunctionAbi | compiler/func.go:60-138 | The whole computation equals the plan whose minimality is proved. |
| AbiCheck.MethodsAgree | compiler/func.go:43-58 | A concrete method and an interface method of the same signature pass results and every ordinary parameter alike, whatever the receiver. |
| AbiCheck.InvokeDeclarationAgrees | compiler/interface.go:1278-1299 | Planning with a synthetic typecode parameter and declaring it as a last ordinary one give the same plan. |
| AbiCheck.WasmParamsOf | compiler/func.go:285-318 | The number of WebAssembly parameters of the declared type is the total of the plan; where each one lies is AbiCall.TypeAtPosition. |
| AbiCheck.PlanPassesCheck | compiler/func.go:142-162 | A function without receiver passes the final check if and only if its plan meets the limit. |
| AbiCheck.MethodPassesCheck | compiler/func.go:129-162 | A concrete method passes the final check if and only if its plan, which includes a typecode, is at most one over the limit, or two over with a receiver without size: a receiver that would not fit was made indirect. |
| AbiCheck.CheckFunction | compiler/func.go:147-159 | One function is accepted exactly when its parameters are within the limit. |
| AbiCheck.ValidateWasmFunctionParameters | compiler/func.go:142-162 | A module is accepted exactly when every function in use is within the limit. |
| CObjectCache.UniquePaths | builder/cc.go:174-183 | Keeps every path, once. |
| CObjectCache.MakeCFileCachePath | builder/cc.go:225-252 | The key is made of the contents of all files of the list, or fails for a missing one. |
| CObjectCache.CFileCache.CompileAndCacheCFile | builder/cc.go:64-220 | Every call, with files that may change between lookup, compiling and hashing, follows the transition relation of which all histories below are made. |
| CObjectCache.HitRight | builder/cc.go:96-120 | An object found in a sound cache is what compiling now would give. |
| CObjectCache.StoreKeeps | builder/cc.go:126-220 | Storing a fresh object keeps the cache sound and answers right. |
| CObjectCache.CallRight | builder/cc.go:64-220 | Any call on a sound cache answers right and keeps it sound, whatever files changed. |
| CObjectCache.HistoryRight | builder/cc.go:64-220 | Every answer in every history of edits and calls is right. |
| CObjectCache.RepeatHits | builder/cc.go:96-120 | A second call with the same files is a hit with the same object. |
| CObjectCache.NonLocalIsStale | builder/cc.go:56-63 | A compiler that depends on an unreported file is answered with an old object. |
| CObjectCache.RightIffLocal | builder/cc.go:56-63 | All answers in all histories are right if and only if the compiler is local. |
| CObjectCache.UneditedRight | builder/cc.go:126-220 | Edits during a call do no harm to files that the compilation does not use. |
| CObjectCache.EditedNextRightIff | builder/cc.go:159-214 | After an edit between compiling and hashing the next call is a hit, and right if and only if the edit does not change the object. |
| Sweep.CoversMeaning | builder/sizes.go:890-895 | A line counts for a section exactly if all its bytes are in the section. |
| Sweep.GapStep | builder/sizes.go:897-914 | Charging a gap before a line keeps the sweep invariant. |
| Sweep.LineStep | builder/sizes.go:915-932 | Charging the uncovered rest of a line keeps the sweep invariant. |
| Sweep.EndStep | builder/sizes.go:934-946 | The sweep ends with every byte of the section charged. |
| Sweep.TilesSum | builder/sizes.go:881-947 | The charged amounts add up to the size of the section. |
| Sweep.ByteOwner | builder/sizes.go:881-947 | Every byte is in exactly one charge, owned by the first line that covers it, if any. |
| Sweep.AlignmentGapMeaning | builder/sizes.go:901-905 | For a power of two the padding test holds exactly when no aligned address lies in the gap. |
| Sizes.AddToTotals | builder/sizes.go:100-115 | Adding a size raises exactly one field of the totals and keeps packages equal to the sum of their files. |
| Sizes.SectionTotal | builder/sizes.go:881-947 | A section raises the grand total by exactly its size, in the fields of its kind. |
| SizeOwners.CountsField | builder/sizes.go:842-865 | Which sections and lines each number counts: non-variables of code sections; constants of read-only sections and variables of code sections; data; zeroed memory. |
| SizeOwners.ChargeAmount | builder/sizes.go:929-932 | A charge raises the number of a file by the bytes of the charge that the file owns. |
| SizeOwners.SectionAmount | builder/sizes.go:881-947 | A section raises each number of each file by exactly the bytes whose first covering line is in that file and counts there. |
| ProgramSize.SortPermutes | builder/sizes.go:823-832 | Sorting neither loses nor invents line entries. |
| ProgramSize.SortLinesSorts | builder/sizes.go:823-832 | There is a sorted order of any line entries. |
| ProgramSize.OwnerStartsFirst | builder/sizes.go:823-832 | For any outcome of sorting, a byte belongs to a line that starts first among all that cover it and is the longest of those that start there. |
| ProgramSize.Program.AddSize | builder/sizes.go:57-115 | Finding or creating the package and adding to it equals the function above. |
| ProgramSize.Program.AddGap | builder/sizes.go:901-913 | A gap is charged to padding or unknown by the alignment test. |
| ProgramSize.Program.SweepLine | builder/sizes.go:890-933 | One round of the loop keeps the sweep invariant, for skipped, covered, overlapping and separate lines. |
| ProgramSize.Program.ReadSection | builder/sizes.go:881-947 | The loop charges every byte of the section as specified. |
| ProgramSize.Program.ReadSections | builder/sizes.go:840-866 | Reading all sections raises the grand total by their bytes, the totals of data, zeroed memory and code with constants by the bytes of the sections of these kinds, and each number of a file by the bytes it owns. |
| ProgramSize.Program.Summarize | builder/sizes.go:868-874 | The program fields become the sums over all packages. |
| ProgramSize.LoadProgramSize | builder/sizes.go:823-876 | For any outcome of sorting, code, read-only data, data and zero-initialised data together are exactly the bytes of all sections, data those of the data sections, zero-initialised data those of the zeroed and stack sections, code and read-only data those of the other two, every package is the sum of its files, and every number of a file is the count of bytes it owns. |
| ConstExpr.Attach | cgo/const.go:14-40 | Two canonical trees around an operator that binds less tightly than the right one can be regrouped into a canonical tree of the same tokens. |
| ConstExpr.Join | cgo/const.go:14-40 | Two canonical trees around an operator can always be regrouped into a canonical tree of the same tokens. |
| ConstExpr.Negate | cgo/const.go:14-40 | The same for a minus sign before a canonical tree. |
| ConstExpr.Normalize | cgo/const.go:14-40 | Every tree can be regrouped into the canonical one of its tokens. |
| ConstExpr.ParsePrint | cgo/const.go:123-160 | Parsing the tokens of a canonical tree gives the tree back. |
| ConstExpr.CanonicalUnique | cgo/const.go:14-40 | A token sequence has at most one canonical tree. |
| ConstExpr.ParsesWellFormed | cgo/const.go:123-160 | Every well-formed sequence is accepted and parsed to its one canonical tree. |
| ConstExpr.ExprFaithful | cgo/const.go:135-160 | A parse without a hole succeeded and consumed exactly the tokens of its tree. |
| ConstExpr.AcceptsExactly | cgo/const.go:123-160 | Well-formed if and only if accepted with a hole-free tree. |
| CGrammar.Layers | cgo/const.go:16-40 | The precedence table is C's: the layers of the C grammar, from unary to inclusive-OR expressions, each left-recursive over the next, hold exactly the trees that the table makes canonical. |
| CGrammar.ParsesByGrammar | cgo/const.go:123-160 | Every well-formed sequence is parsed to the one tree that the layered C grammar derives for it. |
| CGrammar.WellFormedIffDerivable | cgo/const.go:16-40 | Derivable with any grouping and derivable by the layered grammar are the same. |
| CGrammar.AcceptedIsDerived | cgo/const.go:123-160 | A hole-free tree is the result if and only if the grammar derives it with these tokens. |
| ConstExpr.AcceptsIllFormed | cgo/const.go:150-158 | An ill-formed sequence that is accepted with a hole. |
| ConstAccept.FlatClimb | cgo/const.go:149-159 | Climbing by precedence ends in the same state as going through the operands one by one. |
| ConstAccept.OperandParses | cgo/const.go:239-280 | Every operand of the grammar, good or in error, is parsed as one, and leaves an error exactly if it is not good. |
| ConstAccept.ChainFound | cgo/const.go:135-160 | Every parse that does not end in an error went through a chain of the grammar. |
| ConstAccept.AcceptsChain | cgo/const.go:123-132 | Every chain of the grammar is accepted, with a hole-free tree exactly when none of its operands is in error. |
| ConstAccept.AcceptsIffSloppy | cgo/const.go:123-160 | Accepted if and only if in the grammar: operands with operators between them, the first starting an expression, the last good, the others possibly in error. |
| ConstAccept.AcceptsIllFormedIff | cgo/const.go:123-160 | An ill-formed sequence is accepted if and only if it is such a chain with an operand in error. |
| ConstAccept.ErrorsAccepted | cgo/const.go:239-269 | An example of each of the three kinds of error that is accepted. |
| ConstAccept.ErrorsRejected | cgo/const.go:239-269 | Errors at the start or at the end of a chain that are rejected. |
| ConstParser.Tokenizer.Next | cgo/const.go:321-334 | Shifts the two-token window along the stream. |
| ConstParser.ParseConstant | cgo/const.go:123-132 | The whole parse equals the function above; a hole-free tree is returned if and only if the C grammar derives it with these tokens. |
| ConstParser.ParseConstExpr | cgo/const.go:135-160 | The climbing loop equals the function, result and position. |
| ConstParser.ParsePrefixExpr | cgo/const.go:135-146 | Dispatch to the prefix functions, result and position. |
| ConstParser.ParseParenExpr | cgo/const.go:239-256 | Parentheses, including both error cases. |
| ConstParser.ParseBinaryExpr | cgo/const.go:258-269 | The right operand is parsed at the operator's own precedence. |
| ConstParser.ParseUnaryExpr | cgo/const.go:271-280 | The operand of a minus is parsed at prefix precedence. |
| Rom.AppendSegment | builder/objcopy.go:76-94 | With 64-bit wrap-around, a segment is accepted exactly when it starts at or up to 4095 bytes after the end; the gap is filled with zeros. |
| Rom.Assemble | builder/objcopy.go:74-95 | Succeeds exactly for contiguous segments and then yields their memory image. |
| Rom.SortPermutes | builder/objcopy.go:72-72 | Sorting neither loses nor invents segments. |
| Rom.ExtractROM | builder/objcopy.go:51-105 | The whole extraction, with the cut at the lowest section; its failures are no segments, segments that are not contiguous, and a lowest section beyond the image, where slicing panics. |
| Rom.EndsRise | builder/objcopy.go:76-94 | In an accepted list every segment ends before any later one starts. |
| Rom.SegmentsDisjoint | builder/objcopy.go:76-94 | Segments of an extracted image are pairwise disjoint. |
| Rom.ImageHolds | builder/objcopy.go:74-95 | Every segment byte is at its physical address. |
| Rom.ImageZero | builder/objcopy.go:74-95 | Every other byte is zero. |
| Rom.ExtractedMemory | builder/objcopy.go:96-105 | Both hold for the image as returned, after the cut. |
| Uf2.SplitBytes | builder/uf2.go:140-153 | The loop computes the pieces. |
| Uf2.SplitConcat | builder/uf2.go:140-153 | The pieces put together are the input, and only the last may be short. |
| Uf2.SplitAt | builder/uf2.go:140-153 | Piece i holds the input from byte limit * i on. |
| Uf2.BlockCount | builder/uf2.go:140-153 | The number of pieces is the number the input needs. |
| Uf2.DecodeEncode | builder/uf2.go:102-116 | Reading a written 512-byte block gives the block back. |
| Uf2.Uf2Block.Bytes | builder/uf2.go:102-116 | The bytes written are the encoding of the fields. |
| Uf2.ConvertBinToUF2 | builder/uf2.go:33-52 | The file is the encoding of all pieces at consecutive addresses; fails exactly for a malformed family. |
| Uf2.DecodeEncodeFile | builder/uf2.go:33-52 | Reading a written file gives all its blocks back. |
| Uf2.FileHoldsInput | builder/uf2.go:33-52 | Reading the file gives blocks numbered in order out of the right number, marked with the family exactly when one is given, and the input at its addresses, followed only by zeros. |
| Firmware.SegmentCovered | builder/uf2.go:18-30 | The file covers every segment byte at or above the start of the image. |
| Firmware.FlashedMemory | builder/uf2.go:18-30 | From segments to file: every address that the file covers, to the end of its last block, reads as the segment byte there, or zero where no segment is. |
| EspImage.ChecksumDetects | builder/esp.go:307-314 | Changing any one byte of any segment changes the checksum. |
| EspImage.ChecksumIsXor | builder/esp.go:307-314 | The checksum is 0xEF exclusive-ored with all data bytes. |
| EspImage.PredictionExact | builder/esp.go:134-142 | The RAM image size computed in advance is the number of bytes written. |
| EspImage.PredictionShift | builder/esp.go:203-211 | Leading bytes in multiples of 16 only shift the prediction. |
| EspImage.ReadWritten | builder/esp.go:396-407 | Reading the written segment headers and data gives the segments back. |
| EspImage.HeaderFields | builder/esp.go:345-374 | Every field of the header is at its place in the header format: count, mode, speed, entry address modulo 2^32, chip ID and hash flag. |
| EspImage.LoadWritten | builder/esp.go:345-419 | The bootloader of the chip, which checks magic number, chip ID, hash flag and checksum, reads exactly the segments and the entry address written and the flash mode and speed, and finds the hash of everything before it; the bootloader of the other chip rejects the image. |
| EspLayout.HoldsWordMeaning | builder/esp.go:161-162 | The test for a symbol holds exactly when all four bytes of the word lie in the segment. |
| EspLayout.LookupFirst | builder/esp.go:271-280 | A symbol is found exactly if there is one of the name, with the value of the first. |
| EspLayout.OffsetForVma | builder/esp.go:215-224 | The offset is at or after the minimum, less than a page on, with the low 16 bits of the address. |
| EspLayout.OffsetLeast | builder/esp.go:215-224 | No smaller offset will do. |
| EspLayout.FirstHolding | builder/esp.go:282-290 | The first segment that holds the whole word, if any. |
| EspLayout.PatchKeeps | builder/esp.go:267-297 | Patching succeeds if and only if a segment holds the word, and changes no address, length, size or other byte. |
| EspLayout.PatchReads | builder/esp.go:282-290 | The patched word reads back. |
| EspLayout.PatchSpares | builder/esp.go:282-290 | Words that do not overlap it read as before. |
| EspTheorems.Esp32Addresses | builder/esp.go:144-145 | Both flash addresses are page-aligned; DROM is the first page after the RAM image, IROM the first after DROM. |
| EspTheorems.Esp32RamEnds | builder/esp.go:128-145 | What is written ends exactly where the address computation assumed, in both output forms. |
| EspTheorems.Esp32Appends | builder/esp.go:421-477 | Neither overlap error can occur, and the flash holds DROM and IROM data at the chosen addresses. |
| EspTheorems.DataAt | builder/esp.go:450-475 | Each segment's data is at the place given by the lengths of the earlier ones. |
| EspTheorems.Esp32Correct | builder/esp.go:123-171 | An ESP32 image fails exactly for a missing symbol; otherwise the ESP32 bootloader, and no other, loads the patched segments and jumps to the entry address, and the patched word names the page that holds the data. |
| EspTheorems.RomsExact | builder/esp.go:180-201 | The search succeeds exactly when there is one IROM and one DROM segment. |
| EspTheorems.PaddingExact | builder/esp.go:235-253 | A plain image is refused exactly when the alignment would need padding before IROM, or 16 or more bytes before DROM. |
| EspTheorems.S3PatchCorrect | builder/esp.go:262-304 | Patching fails exactly for a missing symbol; both pages read back, the first if the words do not overlap. |
| EspTheorems.S3Appends | builder/esp.go:479-493 | Neither overlap error can occur, and both segments are at their offsets. |
| EspTheorems.ImageBoots | builder/esp.go:316-419 | Any image that starts with the written RAM part is loaded as its segments and entry address by the bootloader of the chip and by no other, whatever follows. |
| EspTheorems.HashCoversLoadedIff | builder/esp.go:316-419 | The stored hash is that of exactly what the bootloader reads if and only if the image is not one for an emulator. |
| EspTheorems.GrownKeeps | builder/esp.go:511-519 | Growing an emulator image to 4 MiB keeps everything before. |
| EspTheorems.S3Correct | builder/esp.go:173-305 | An ESP32-S3 image fails exactly for refused padding or missing symbols; otherwise the ESP32-S3 bootloader, and no other, loads the patched segments and jumps to the entry address, and the patched words name the flash pages in which the segments lie, at the offsets of their addresses. |
| EspWhole.LinkedRegions | builder/esp.go:87-121 | The address ranges by which the builder separates RAM, DROM and IROM are the memory regions of the linker scripts, except that the ESP32 range for IROM ends at 0x40400000; no RAM address is taken for flash. |
| EspWhole.IromTakenForRam | builder/esp.go:87-94 | An address of the ESP32 IROM region (targets/esp32.ld:41) that the builder takes for RAM. |
| EspWhole.WindowsStart | targets/esp32.ld:40-41 | The startup code maps flash at the origins of the linker's regions. |
| EspWhole.SplitKeeps | builder/esp.go:87-121 | Separating the segments loses and duplicates none. |
| EspWhole.SplitByRegion | builder/esp.go:87-121 | Each of the three lists holds exactly the segments of its own region. |
| EspWhole.Esp32KeepsAll | builder/esp.go:82-522 | In every ESP32 image that is built, each input segment is loaded by the bootloader at its address and length, or its data lies in flash. |
| EspWhole.S3KeepsAll | builder/esp.go:82-522 | The same for the ESP32-S3. |
| EspStartup.ConsecutiveRead | src/device/esp/esp32.S:152-202 | Through a window to their data, segments that are consecutive from its start on are read at their own addresses. |
| EspStartup.DromInPlaceIff | src/device/esp/esp32.S:152-169 | In the built image, whatever the data, DROM is read at its own addresses if and only if its segments are consecutive from 0x3F400000 on. |
| EspStartup.IromPages | src/device/esp/esp32.S:180-191 | Builder and startup code compute the same IROM page if there is DROM data, and differ by one page if there is none. |
| EspStartup.IromInPlaceIff | src/device/esp/esp32.S:172-201 | In the built image, whatever the data, IROM is read at its own addresses if and only if its segments are consecutive from 0x400D0000 on and there is DROM data. |
| EspStartup.DromTooHigh | src/device/esp/esp32.S:152-169 | A DROM segment at 0x3F410000 is not read at its address. |
| EspStartup.IromWithoutDrom | src/device/esp/esp32.S:180-191 | Without DROM data an IROM segment at 0x400D0000 is not read at its address. |
| EspStartup.Esp32RunsInPlace | builder/esp.go:421-477 | Through the patched word, consecutive DROM and IROM segments of an ESP32 image are read at their own addresses. |
| EspStartup.S3DromReads | src/device/esp/esp32s3.S:305-318 | On the ESP32-S3 a DROM segment in the named page is always read at its own address. |
| EspStartup.S3IromReads | src/device/esp/esp32s3.S:287-303 | An IROM segment that starts in the first page of its window, before the entries of DROM, is read at its own address. |
| EspStartup.S3IromInPlaceIff | src/device/esp/esp32s3.S:276-303 | In the built image, whatever the data, IROM is read at its own addresses if and only if it starts in the page of 0x42000000 and its page table entries are before those of DROM. |
| EspStartup.S3IromTooHigh | src/device/esp/esp32s3.S:287-303 | An IROM segment at 0x42010000 is not read at its address. |
| EspStartup.S3RunsInPlace | builder/esp.go:479-493 | Through the patched words, DROM of an ESP32-S3 image is read at its own addresses, and IROM if it fits its window. |
| Esp.SplitSegments | builder/esp.go:82-121 | The loop separates RAM from flash segments, in order. |
| Esp.PredictSize | builder/esp.go:134-142 | The loop computes the predicted size. |
| Esp.LookupSymbol | builder/esp.go:271-280 | The first symbol of a name. |
| Esp.PatchWord | builder/esp.go:159-170 | Patching in place changes the segments as specified, or not at all. |
| Esp.PatchNamed | builder/esp.go:267-297 | The same by name, with both errors. |
| Esp.ComputeChecksum | builder/esp.go:307-314 | The loop computes the checksum of the data as it is after patching. |
| Esp.WriteRamImage | builder/esp.go:316-419 | The bytes written are the specified RAM image. |
| Esp.AppendEsp32 | builder/esp.go:424-477 | DROM and IROM are appended as specified, in 32-bit arithmetic. |
| Esp.FindRomSegments | builder/esp.go:181-201 | The loop finds the two segments or the specified error. |
| Esp.AppendS3 | builder/esp.go:479-493 | IROM and DROM are appended as specified. |
| Esp.BuildEsp32 | builder/esp.go:123-171 | The ESP32 image or error, from the segments before patching. |
| Esp.BuildS3 | builder/esp.go:173-305 | The ESP32-S3 image or error, from the segments before patching. |
| Esp.MakeFirmwareImage | builder/esp.go:82-522 | The whole image or error. |
| SliceBounds.ExtendKeeps | compiler/asserts.go:285-299 | Extension by the sign of the type keeps the meaning of a value. |
| SliceBounds.CheckExact | compiler/asserts.go:47-86 | For all widths and signs that keep negative operands above the capacity the emitted check passes if and only if 0 <= low <= high <= max <= cap, with any redundant comparison left out; unsigned operands need no condition. |
| SliceBounds.BelowSignBit | compiler/asserts.go:47-86 | A capacity below the sign bit of the comparison is enough for all types. |
| SliceBounds.ElisionHarmless | compiler/asserts.go:74-84 | Leaving out the redundant comparisons changes nothing. |
| SliceBounds.StringCheckExact | compiler/compiler.go:3047-3059 | The check for strings, whose upper bound is also passed as an unsigned maximum, is exact too. |
| SliceBounds.CapacityBoundNeeded | compiler/asserts.go:47-86 | A capacity at or above the sign bit lets a negative operand through. |
| SliceOps.MaxSliceSizeExact | compiler/compiler.go:2543-2563 | A length is allowed if and only if it fits in an int and it and its byte size fit in a uintptr. |
| SliceOps.MaxAllocationExact | compiler/compiler.go:2569-2580 | Allocations are limited to 48 bits besides, on wider targets. |
| SliceOps.ConvertLossless | compiler/compiler.go:2978-2989 | After the check conversion to uintptr loses nothing. |
| SliceOps.MakeSafe | compiler/compiler.go:2844-2896 | On every target the allocated size is the exact product, and length and capacity are ordered and within the limit. |
| SliceOps.MakeSliceExact | compiler/compiler.go:2844-2896 | Make panics exactly for negative, too large or unordered numbers and otherwise stores them unchanged; refused at compile time exactly for elements larger than the address space. |
| SliceOps.MakeRightIff | compiler/compiler.go:2844-2896 | On every target, for every element size and all operand types, that holds for all values if and only if negative numbers of the types are kept apart. |
| SliceOps.NegativeLengthAccepted | compiler/compiler.go:2858-2863 | With 16-bit pointers a length of -1 is accepted. |
| SliceOps.SliceSafe | compiler/compiler.go:3003-3041 | On every target the result of slicing is within the old slice. |
| SliceOps.SliceRightIf | compiler/compiler.go:2926-3041 | Slicing panics exactly when the rule is broken and otherwise gives the exact pointer, length and capacity, for operands that the check does not let through as negative numbers. |
| SliceOps.SliceAllInside | compiler/compiler.go:3003-3041 | However often a slice is sliced again, it stays within the memory of the first. |
| SliceOps.MadeStaysInside | compiler/compiler.go:2844-2896 | Every slice obtained from a made one lies within the allocated block. |
| SliceOps.StringRightIf | compiler/compiler.go:3043-3075 | The same for strings. |
| SliceTypes.SliceExact | compiler/compiler.go:2926-3041 | Slicing is right for all bounds of safe types. |
| SliceTypes.SliceRightIff | compiler/compiler.go:2926-3041 | On every target, for every slice and all operand types, slicing is right for all bounds of these types if and only if negative numbers of each type are above the largest number that it is compared with. |
| SliceTypes.SliceStringExact | compiler/compiler.go:3043-3075 | Slicing a string is right for all bounds of safe types. |
| SliceTypes.StringRightIff | compiler/compiler.go:3043-3075 | The same if-and-only-if for strings. |
| SliceTypes.AllSafe | compiler/compiler.go:142-148 | Where int is no wider than uintptr all types are safe. |

## Left out

- Defer lowering: the setjmp assembly and register clobbers, and targets without recover, where a panic does not return to the deferred calls.
- JobRunner.RunJobs: requires an acyclic graph without bad duplicates, because otherwise the collection does not return or a job may start twice, as the lemmas named above show; the order in which ready jobs are popped, durations and debug output are not modelled, and no one else takes permits.
- JobPlays.StartsOnceIff: how many permits a given order of popping needs to start a job twice is not determined.
- CallProps.CallAnalysis.Properties: takes the properties of single instructions as given by the program; their table (compiler/calls.go:455-521) is not modelled.
- Abi.GetFunctionAbi: the map that caches plans is not modelled, and a parameter has no size exactly when it has no leaves.
- Flatten.CollapseExpand: names, flags and debug types of the fragments are not modelled.
- AbiCall.Call: scalars of different width are one type, memory is a load at an address, and exported functions, which take no context and no indirect values, are not modelled.
- CObjectCache.CFileCache.CompileAndCacheCFile: hashes are taken as free of collisions and the calls as one after another; histories are of calls during which the files do not change; lock files, renames, the JSON form of the dependency list, its sorting and the joining of relative paths are not modelled.
- ProgramSize.LoadProgramSize: the numbers of the padding, unknown and stack entries are not counted byte by byte; package sizes are values in a map, not shared objects; reading of ELF, Mach-O, COFF, WebAssembly and DWARF is not modelled, and addresses are taken not to wrap.
- Sweep.AlignmentGapMeaning: is about powers of two, the only alignments there are.
- ConstParser.ParseConstant: tokens are given; scanning, literals and macro expansion are not modelled. An EOF token ends a stream and never stands inside one.
- Rom.ExtractROM: segments are taken to lie within 2^64 and less than 2^63 bytes apart, the longest byte slice there is; the selection of segments and sections from the ELF file is given.
- Firmware.FlashedMemory: is about images below 2^32, the addresses that fit in a block; Intel HEX output is not modelled.
- EspTheorems.Esp32Correct: is about images whose addresses fit in 32 bits, with fewer than 256 RAM segments, the number that fits the header; symbol addresses are taken not to wrap at 2^64.
- EspTheorems.S3Correct: the same limits; the hash is any function to 32 bytes.
- EspStartup.Esp32RunsInPlace: the startup code is modelled by the windows that it maps, for one read-only data and one code section as in targets/esp32.ld, so that their sizes are those of the DROM and IROM data; the cache, the mapping functions in ROM and the sizes of the windows are not modelled.
- EspStartup.S3RunsInPlace: the same, for targets/esp32s3.ld; the entries for the flash area of the program come after those of DROM and are left out.
- Esp.MakeFirmwareImage: starts from segments already read, padded to four bytes and sorted, whose data is not shared; ESP32-C3, C6, H2 and ESP8266 images are not modelled.
- SliceTypes.SliceRightIff: a maximum is given only with an upper bound, as Go demands; the nil check for array pointers and the nobounds pragma are not modelled.
- The other checks of compiler/asserts.go (lookup, channels, shifts, unsafe.Slice).
- The rest of the compiler, the linker driver, the runtime and the command line.
