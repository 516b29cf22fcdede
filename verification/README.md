# zpoline-rs: a verified model of system call interception

zpoline-rs hooks the system calls of a Linux x86-64 program by binary rewriting. At start-up it maps a trampoline at
address 0, replaces every two-byte `syscall`/`sysenter` instruction of the program by `call rax`, and optionally
installs a hook. A rewritten system call jumps to the address equal to its system call number, slides down a run of
`nop`s into a stub that builds a register block on the stack, and calls the hook entry point; from there the call
goes to the kernel or to a user's hook.

The project models the four parts over one machine state (registers, byte-addressed memory, page permissions, kernel,
hook library) and proves that together they preserve the meaning of the program:

* `Bytes`, `Machine`, `Cpu`: bytes and words; a byte-level decoder and encoder for the instructions involved
  (Intel 64 and IA-32 Architectures Software Developer's Manual, volume 2, sections 2.1, 2.2.1, 3.3 and 4.3); one
  step of the processor, of an arbitrary kernel behind `syscall`, and of the compiled hook entry point.
* `Trampoline`, `Stub`: the generator that writes the trampoline's bytes in place, and what executing those bytes
  does from any machine state.
* `Decoding`, `Rewriting`, `RewriterLaws`: the linear sweep over any instruction decoder that meets a stated contract,
  in-place patching under temporary permissions, statistics, and whole passes over many regions.
* `Maps`: the parser of the memory listing.
* `Dispatch`, `HookApi`, `HookProtocol`: typed dispatch of system calls; the hook library as one thread sees it, with
  nested calls; and the same library as a step machine for any number of threads under any interleaving.
* `Init`: exclusions, the loop over the regions, the trampoline mapping, and start-up as a whole.
* `Simulation`, `Transparency`: the whole-run theorem, for the machine and for the program that start-up leaves behind.

`dafny verify dfyconfig.toml` checks everything.

## The main result

`Transparency.TransparentBoot` (and, for any sequence of rewriting steps, `Transparency.TransparentStart`): take any
program, any decoder that meets the contract, any memory listing of disjoint regions, any exclusions, and any answers of
the kernel to the permission changes. For every number of steps that the original program takes safely, the program in
the memory left by start-up reaches a related state: same instruction pointer, same general registers and memory except
where a system call leaves them undefined, the same kernel calls with the same data and results in the same order, and
one pass through the hook entry point for each patched system call. At no moment in between has it made any other kernel
call. It holds with the built-in fallback hook, for every kernel, and with the typed dispatcher over default methods, for
every kernel that reads its arguments at their declared widths.

Which system calls are patched is told from the listing alone (`Init.ListedSite`): those on a boundary of the sweep over a
region that is executable, not one of the kernel's own, not excluded, not on the first page, and whose pages the kernel
opens. `Init.Loader.ZpolineInit` promises that after start-up exactly their bytes are `ff d0` and every other byte above
64 KiB is as it was.

"Safely" is a condition on the original program alone (`Simulation.Safe`): at a patched site the number is at most
512 (`Stub.PastTheSled` shows what happens at 513), the stack below rsp is free for use and the kernel does not look
there, nothing reads rcx, r11, the zero flag or the bytes below rsp after a system call before writing them again, no
data access touches patched code or the first 64 KiB, and execution does not enter a patched instruction in the middle.
`Transparency.BoundaryIsSafe` proves the last part for execution along the boundaries of the sweep.

## Where the code and its documentation differ

The model follows the code. Each of these is stated by a lemma.

* The comment on the stub's padding derives 16-byte alignment from the pushed bytes alone
  (`zpoline_loader/src/trampoline.rs:102-105`). The call is aligned exactly when rsp was 8 modulo 16 at the system
  call instruction (`Stub.StackAlignment`).
* "Restoring" the permissions of a region always grants read access, so an execute-only region does not get its
  permissions back (`RewriterLaws.PermissionsRestored`).
* `raw_syscall_impl` holds the instruction that must not be patched, but the exclusion is computed from the address of
  `raw_syscall`. It is protected when both lie in one region; otherwise its instruction survives exactly when its own
  region was not patched (`Init.RawRegionKept`, `Init.RawImplKept`).
* `brk` goes through a method that returns a C int, so a heap address above 2 GiB comes back truncated
  (`Dispatch.BrkIsTruncated`; the exact condition for every call is `Dispatch.FitsIsRoundTrip`, and what comes back
  otherwise is in `Dispatch.DispatchExactly`).
* The dispatcher keeps the mutex across the system call. A thread that ends by `exit` inside the dispatcher never
  gives it back, and every later dispatched call of any thread waits forever (`HookProtocol.ExitInDispatch`,
  `HookProtocol.LockedForGood`, and the exact condition `HookProtocol.AliveExactly`).
* The dispatcher can be installed by hand before any object is registered; calls then take its fallback
  (`HookProtocol.EarlyInstallFallsBack`, and the exact condition `HookProtocol.PublicationOrder`).
* The parser accepts regions that end before they start (`Maps.BackwardsRegionParses`).
* A dry run books all instructions found under `syscalls_replaced`, prefixed forms and `sysenter` included
  (`RewriterLaws.DryRunBound`).

## Model

| member | source | states |
|---|---|---|
| Trampoline.GenerateTrampolineCode | zpoline_loader/src/trampoline.rs:72-87 | whatever the buffer held, its first 562 bytes become 512 `nop`s and the assembled stub program, and the rest is untouched |
| Trampoline.GenerateHookStub | zpoline_loader/src/trampoline.rs:93-223 | writes exactly the 50 bytes of the stub at the given offset |
| Trampoline.EmitSave | zpoline_loader/src/trampoline.rs:107-141 | the seven pushes, written at the running offset |
| Trampoline.EmitAlign | zpoline_loader/src/trampoline.rs:143-159 | padding and argument register |
| Trampoline.EmitCall | zpoline_loader/src/trampoline.rs:161-172 | entry point address, little-endian, and the call |
| Trampoline.EmitUnwind | zpoline_loader/src/trampoline.rs:174-190 | padding and saved rax dropped |
| Trampoline.EmitRestore | zpoline_loader/src/trampoline.rs:192-220 | the six pops and the return |
| Trampoline.StubIsProgram | zpoline_loader/src/trampoline.rs:97-220 | the emitted bytes are the encoding of the instruction list the comments name, for every entry point address |
| Machine.DecodeEncode | zpoline_loader/src/trampoline.rs:112-220 | every modelled instruction decodes to itself with its own length, whatever bytes follow |
| Machine.DecodeLocal | zpoline_rewriter/src/rewriter.rs:229-233 | decoding depends only on the bytes consumed |
| Machine.DecodeComplete | zpoline_rewriter/src/rewriter.rs:229-233 | a complete instruction decodes the same in every longer or shorter buffer that holds it |
| Cpu.HookOnlyAtEntry | zpoline_hook_api/src/lib.rs:88-95 | the entry counter grows in exactly the steps at the entry point's address, and no other step touches the library |
| Stub.SledRun | zpoline_loader/src/trampoline.rs:76-81 | from any address n up to 512, 512 - n steps lead to the stub with nothing else changed |
| Stub.PushRun | zpoline_loader/src/trampoline.rs:107-141 | executing pushes puts the registers on the stack in order and changes no memory at or above rsp |
| Stub.PopRun | zpoline_loader/src/trampoline.rs:192-217 | executing pops loads each register from its own word |
| Stub.CallRun | zpoline_loader/src/trampoline.rs:143-172 | the call reaches the entry point with the block's address in rdi and the padding slot outside the block and the return addresses |
| Stub.StubEnter | zpoline_loader/src/trampoline.rs:79-172 | from any of the 513 entry addresses and any state the entry point is reached once, rdi pointing at a register block with the seven entry registers in field order; no byte at or above rsp changes |
| Stub.PastTheSled | zpoline_loader/src/trampoline.rs:17-24 | the bound is exact: entered at 513 the stub hands the hook rcx in place of the sixth argument |
| Stub.StubLeave | zpoline_loader/src/trampoline.rs:174-220 | after the hook the stub resumes at the pushed return address, argument registers taken from the block as the hook left it |
| Stub.StubAroundHook | zpoline_loader/src/trampoline.rs:93-223 | around any hook that keeps the calling convention: return address, rsp and callee-saved registers are the program's, rax is the hook's result |
| Stub.StackAlignment | zpoline_loader/src/trampoline.rs:102-172 | the hook is called on a 16-byte boundary if and only if rsp was 8 modulo 16 at the system call |
| Decoding.SweepPreserved | zpoline_rewriter/src/rewriter.rs:188-206 | decoding the patched code visits the same boundaries, each unprefixed system call having become `call rax` and everything else unchanged |
| Decoding.PatchedSites | zpoline_rewriter/src/rewriter.rs:224-249 | a sweep over patched code finds exactly the prefixed forms |
| Decoding.PatchIdempotent | zpoline_rewriter/src/rewriter.rs:191-206 | patching patched code changes nothing |
| Decoding.SitesWellPlaced | zpoline_rewriter/src/rewriter.rs:224-249 | sites lie inside the code, never overlap, and hold the bytes their kind says |
| Decoding.SitesExactly | zpoline_rewriter/src/rewriter.rs:232-246 | an offset is found, with a kind, if and only if it is a boundary of the sweep at which the decoder sees a system call instruction of that kind |
| Decoding.PlainAtExactly | zpoline_rewriter/src/rewriter.rs:194-196 | an offset is patched if and only if a boundary instruction there is a system call that starts with `0f` |
| Decoding.PatchPointwise | zpoline_rewriter/src/rewriter.rs:188-206 | byte by byte: `ff`/`d0` at the two bytes of an unprefixed site found by the sweep, the original byte everywhere else, so a pair `0f 05` inside another instruction survives |
| Decoding.BoundaryInsn | zpoline_rewriter/src/rewriter.rs:232-246 | an instruction on a sweep boundary is a whole unprefixed system call or shares no byte with one |
| Decoding.CpuDecoderMeetsContract | zpoline_rewriter/src/rewriter.rs:229-246 | the decoder contract can be met: the byte-level decoder with REX prefixes and immediates meets it |
| Decoding.PrefixedSyscallExists | zpoline_rewriter/src/rewriter.rs:194-196 | a REX-prefixed `syscall` is found by the sweep and left alone by the patch |
| Rewriting.RewriteConfig.constructor | zpoline_rewriter/src/rewriter.rs:43-57 | nothing excluded, no dry run |
| Rewriting.RewriteConfig.ExcludePath | zpoline_rewriter/src/rewriter.rs:59-63 | adds one path and nothing else |
| Rewriting.RewriteConfig.ExcludeRange | zpoline_rewriter/src/rewriter.rs:65-69 | appends one range and nothing else |
| Rewriting.RewriteConfig.DryRun | zpoline_rewriter/src/rewriter.rs:71-75 | sets the mode and nothing else |
| Rewriting.RewriteConfig.IsExcluded | zpoline_rewriter/src/rewriter.rs:77-96 | true if and only if the path lies under an excluded one or the region overlaps an excluded range |
| Rewriting.Rewriter.constructor | zpoline_rewriter/src/rewriter.rs:121-127 | starts with zero statistics |
| Rewriting.Rewriter.FindSyscalls | zpoline_rewriter/src/rewriter.rs:223-249 | the loop returns the offset and kind of every system call instruction of the linear sweep, in order, and no others |
| Rewriting.Rewriter.PatchSite | zpoline_rewriter/src/rewriter.rs:194-198 | the two bytes are replaced if and only if they are `0f 05` or `0f 34`; every access is in bounds and on writable pages |
| Rewriting.Rewriter.PatchSites | zpoline_rewriter/src/rewriter.rs:188-206 | earlier patches leave later sites as found, so all unprefixed sites are patched and counted by kind |
| Rewriting.Rewriter.RewriteRegion | zpoline_rewriter/src/rewriter.rs:130-221 | statistics, memory, permissions and result of the call, on every path: not executable, excluded, nothing found, dry run, page 0, failed permission changes, success |
| Rewriting.AlignedInterval | zpoline_rewriter/src/rewriter.rs:171-173 | the interval is page-aligned, and covers the region if and only if the 64-bit sum does not overflow |
| Rewriting.AlignedIntervalLeast | zpoline_rewriter/src/rewriter.rs:171-173 | no page-aligned interval that covers the region is smaller |
| Rewriting.PageInInterval | zpoline_rewriter/src/rewriter.rs:171-185 | every byte of the region is on a page whose permissions are changed |
| RewriterLaws.SiteInside | zpoline_rewriter/src/rewriter.rs:191-197 | both bytes of a patched site lie in its region |
| RewriterLaws.RegionBytes | zpoline_rewriter/src/rewriter.rs:188-206 | after a call a byte differs from its original if and only if it belongs to a patched site |
| RewriterLaws.TwoBytesPerSite | zpoline_rewriter/src/rewriter.rs:197-199 | the number of changed bytes is twice the number of counted replacements |
| RewriterLaws.RegionReport | zpoline_rewriter/src/rewriter.rs:130-221 | all five counters and the result of a call, told from the bytes: each `0f 05` turned into `ff d0` counts as a system call, each `0f 34` as a sysenter; skipped grows exactly for an excluded executable region, rewritten exactly when a byte changed and the restore succeeded; which error is returned when |
| RewriterLaws.DryRunReport | zpoline_rewriter/src/rewriter.rs:158-162 | all counters and the result of a dry run, which leaves memory and permissions alone |
| RewriterLaws.PagesAfter | zpoline_rewriter/src/rewriter.rs:164-214 | the permissions of every page after a call: writable afterwards if and only if listed so or the restore failed, and unchanged outside the interval |
| RewriterLaws.SecondPass | zpoline_rewriter/src/rewriter.rs:191-220 | a second call on a rewritten region changes no byte, returns 0 and leaves the replaced and rewritten counters alone |
| RewriterLaws.DryRunBound | zpoline_rewriter/src/rewriter.rs:158-162 | a dry run touches neither memory nor permissions and counts the real run's sites plus the prefixed ones, all under one counter |
| RewriterLaws.PermissionsRestored | zpoline_rewriter/src/rewriter.rs:164-214 | a patched region has its permissions back if and only if it was readable |
| RewriterLaws.PermissionsKept | zpoline_rewriter/src/rewriter.rs:164-214 | a call on a readable region whose restore succeeds, or one that does not patch, leaves all permissions as they were |
| RewriterLaws.PassSnoc | zpoline_loader/src/init.rs:17-56 | what a longer loop over the regions does, in terms of a shorter one |
| RewriterLaws.PassPointwise | zpoline_loader/src/init.rs:17-56 | for disjoint regions and any kernel answers, the final memory is a pointwise function of the initial memory |
| RewriterLaws.PassOrder | zpoline_loader/src/init.rs:17-56 | the final memory does not depend on the order of the regions |
| RewriterLaws.RegionUntouched | zpoline_rewriter/src/rewriter.rs:133-142 | a region that is not executable, is excluded, or whose first permission change fails keeps every byte, whatever happens to the others |
| RewriterLaws.OneCallCounts | zpoline_rewriter/src/rewriter.rs:188-220 | the reported count is the number of replaced pairs, unless the restoring call fails; then the counters have grown and no count is reported |
| RewriterLaws.StatsConserved | zpoline_rewriter/src/rewriter.rs:130-221 | over any sequence of calls: each replacement counter is the number of its own pairs replaced in memory; together they are at least the sum of the reported counts, and equal to it when no restore fails; skipped is the number of excluded executable regions |
| RewriterLaws.PassKeepsPermissions | zpoline_rewriter/src/rewriter.rs:164-214 | after a pass over readable regions whose restores succeed every page has its initial permissions |
| Maps.ParseMapsFile | zpoline_rewriter/src/maps.rs:53-66 | the regions of the parsable lines in order, or an error if any line could not be read |
| Maps.ParseMeans | zpoline_rewriter/src/maps.rs:71-129 | a line parses to a region if and only if its words describe it: two hexadecimal addresses around one dash, four permission characters each in its place, offset, device, inode, path |
| Maps.ParseUndoesPrint | zpoline_rewriter/src/maps.rs:71-129 | parsing a printed region gives it back if and only if its device is one word and its path is nonempty words joined by single spaces |
| Maps.ParsePrintParse | zpoline_rewriter/src/maps.rs:71-129 | every region the parser returns prints to a line that parses to the same region |
| Maps.Hex8RoundTrip | zpoline_rewriter/src/maps.rs:83-84 | hexadecimal round trip for all 64-bit values |
| Maps.DecimalRoundTrip | zpoline_rewriter/src/maps.rs:107-108 | decimal round trip for all 64-bit values |
| Maps.SplitGlues | zpoline_loader/src/init.rs:88-92 | the parts between separators contain none, and put together again they are the string |
| Maps.BackwardsRegionParses | zpoline_rewriter/src/maps.rs:77-84 | a region that ends before it starts is accepted |
| Dispatch.HookSeesKernelView | zpoline_hook_api/src/syscall_hooks.rs:669-766 | after the casts a hook method sees exactly the argument values the kernel would read, for all 28 calls and all register values |
| Dispatch.DefaultRegsArgs | zpoline_hook_api/src/syscall_hooks.rs:222-663 | each default puts its arguments, widened, into the argument registers in order |
| Dispatch.DefaultKeepsView | zpoline_hook_api/src/syscall_hooks.rs:222-663 | narrowing and widening again does not change the call the kernel sees |
| Dispatch.MethodOfNumber | zpoline_hook_api/src/syscall_hooks.rs:669-766 | each of the 28 numbers reaches the method of its name, and that method's default issues the same number |
| Dispatch.DispatchLog | zpoline_hook_api/src/syscall_hooks.rs:669-766 | a dispatch makes exactly one kernel call |
| Dispatch.DispatchExactly | zpoline_hook_api/src/syscall_hooks.rs:222-766 | for every register block: the block that reaches the kernel, register by register, with arguments at their prototype widths and the rest zero, and the reply: cut to 32 bits and sign-extended, a whole word for the four calls that return one, none for the two exits |
| Dispatch.DispatchTransparent | zpoline_hook_api/src/syscall_hooks.rs:669-766 | with all methods at their defaults the kernel sees the call it would have seen, and the caller gets the kernel's own result if and only if it fits the method's return type |
| Dispatch.FitsIsRoundTrip | zpoline_hook_api/src/syscall_hooks.rs:30-215 | a result survives the method's return type if and only if it is in the range the type can carry; `exit` and `exit_group` never return one |
| Dispatch.UntypedHasNoPrototype | zpoline_hook_api/src/syscall_hooks.rs:760-766 | the dispatcher and the prototype table cover the same numbers |
| Dispatch.BrkIsTruncated | zpoline_hook_api/src/syscall_hooks.rs:414-427 | a heap address above 2 GiB comes back truncated |
| HookApi.HookRuntime.constructor | zpoline_hook_api/src/lib.rs:64-88 | fallback hook, no object, flag clear |
| HookApi.HookRuntime.RawSyscall | zpoline_hook_api/src/lib.rs:127-132 | one kernel call with the block's registers |
| HookApi.HookRuntime.HookEntry | zpoline_hook_api/src/lib.rs:93-119 | for any tree of nested calls: counters, flag, mutex, actions, kernel log and reply as the specification `Entry` has them |
| HookApi.HookRuntime.TraitBasedHook | zpoline_hook_api/src/lib.rs:227-246 | entered with the flag set and the mutex not held by the thread; both branches |
| HookApi.HookRuntime.IssueNested | zpoline_hook_api/src/lib.rs:93-109 | calls issued by a running hook, one after the other |
| HookApi.HookRuntime.HookInit | zpoline_hook_api/src/lib.rs:71-75 | replaces the pointer and nothing else |
| HookApi.HookRuntime.RegisterSyscallHooks | zpoline_hook_api/src/lib.rs:212-220 | object stored, dispatcher published, mutex free again |
| HookApi.EntryInHook | zpoline_hook_api/src/lib.rs:97-109 | inside a hook a call is one kernel call with the caller's registers |
| HookApi.NestedKeepsThread | zpoline_hook_api/src/lib.rs:93-119 | any list of nested calls goes straight to the kernel in order and leaves hook, flag and mutex alone |
| HookApi.EntryFromOutside | zpoline_hook_api/src/lib.rs:93-119 | for every finite tree and each hook: the hook runs once, at the root; every nested call is bypassed; flag and mutex end as they began; the counter grows by the calls executed; the caller gets the kernel's answer to the root's own call, made after the nested ones |
| HookApi.ThreadHistory | zpoline_hook_api/src/lib.rs:93-119 | over any sequence of calls of a thread, entries are hook runs plus bypasses and the hook ran once per top-level call |
| HookApi.EntryFollowsPlan | zpoline_hook_api/src/lib.rs:93-119 | what a call asks of the kernel can be computed before it is made |
| HookApi.IssuedKeepsView | zpoline_hook_api/src/lib.rs:58-62 | whatever hook is installed, the kernel learns what the caller's registers said |
| HookApi.PlanAnswer | zpoline_hook_api/src/lib.rs:227-246 | a result that fits is handed back unchanged |
| HookProtocol.ReachableSafe | zpoline_hook_api/src/lib.rs:93-119 | in every state of every interleaving: a thread's flag is set if and only if it is between setting and clearing it, always inside the dispatcher; the mutex owner is the one thread past the lock; none waits for the mutex it holds; a call from inside a hook is only ever counted, checked and bypassed |
| HookProtocol.ReachableCounts | zpoline_hook_api/src/lib.rs:93-119 | the entry counter is hooks run plus calls bypassed plus calls under way, at most two per thread |
| HookProtocol.BlockedOnlyByHolder | zpoline_hook_api/src/lib.rs:227-246 | a thread with a call under way can move, or waits for a mutex that another thread holds |
| HookProtocol.SomeThreadMoves | zpoline_hook_api/src/lib.rs:212-246 | while the holder lives some thread can always move |
| HookProtocol.BoundedWork | zpoline_hook_api/src/lib.rs:93-119 | calls under way take a bounded number of steps under every schedule |
| HookProtocol.CallsReturn | zpoline_hook_api/src/lib.rs:93-246 | a schedule that only lets calls go on is bounded, and where it is stuck every live thread's calls have returned |
| HookProtocol.AliveExactly | zpoline_hook_api/src/lib.rs:227-246 | the mutex is free or its holder alive if and only if no thread ended while holding it |
| HookProtocol.LockedForGood | zpoline_hook_api/src/lib.rs:232-246 | after such an end the mutex is never free again and no waiting call ever gets on |
| HookProtocol.ExitInDispatch | zpoline_hook_api/src/syscall_hooks.rs:493-507 | a dispatched `exit` is such an end |
| HookProtocol.SoloRegister | zpoline_hook_api/src/lib.rs:212-220 | a registration left undisturbed stores the object, publishes the dispatcher and gives the mutex back |
| HookProtocol.StepPublishes | zpoline_hook_api/src/lib.rs:71-75 | in any state the last step of a registration publishes the dispatcher, an installation publishes the hook it is given, and no other step touches the pointer; an object is stored by registrations only and stays |
| HookProtocol.StepLoads | zpoline_hook_api/src/lib.rs:111-113 | a call runs the hook published at the moment it loads the pointer |
| HookProtocol.HookIsLastPublished | zpoline_hook_api/src/lib.rs:64-81 | after any run of any interleaving the pointer holds what was last published |
| HookProtocol.PublicationOrder | zpoline_hook_api/src/lib.rs:212-246 | in every state of a run the published dispatcher has an object if and only if nobody installed it by hand before a registration, and then no call takes its fallback |
| HookProtocol.PublishedFromStart | zpoline_hook_api/src/lib.rs:64-81 | the same for every run from the start: no fallback is ever taken without an early installation |
| HookProtocol.EarlyInstallFallsBack | zpoline_hook_api/src/lib.rs:240-245 | an early installation does send calls to the fallback |
| HookProtocol.SoloCall | zpoline_hook_api/src/lib.rs:93-119 | the step machine refines the sequential account: a thread left undisturbed takes a call tree to the state the sequential specification computes |
| Init.BuildRewriteConfig | zpoline_loader/src/init.rs:62-96 | the mandatory exclusions, the loader's own library and the nonempty parts of the variable, and nothing else |
| Init.RewriteSyscalls | zpoline_loader/src/init.rs:5-59 | the loop applies the rewriter to exactly the executable regions that are not special, in order, and goes on after errors |
| Init.StepIsListed | zpoline_loader/src/init.rs:18-33 | a region is handed to the rewriter, with its answers, if and only if it is listed, executable, and its path mentions neither "[vdso]" nor "[vsyscall]" |
| Init.StepOfRegion | zpoline_loader/src/init.rs:18-35 | it is handed over once for each listing position, in listing order |
| Init.SpecialUntouched | zpoline_loader/src/init.rs:18-33 | a listed region that is not executable or mentions one of the two names keeps every byte through the whole run |
| Init.MustRewriteMeans | zpoline_loader/src/init.rs:62-96 | the exclusions spelled out: the first 64 KiB, the 4096 bytes from `raw_syscall` on, the loader's library and the nonempty parts of the variable exclude a region, and nothing else does |
| Init.SetupTrampoline | zpoline_loader/src/trampoline.rs:31-63 | zeroed read-write-execute pages at 0 holding the generated code, or nothing changed when the mapping fails |
| Init.Loader.constructor | zpoline_loader/src/lib.rs:8-8 | not initialised |
| Init.Loader.ZpolineInit | zpoline_loader/src/lib.rs:12-60 | runs once; after a start-up that got through, every byte above 64 KiB is `ff` or `d0` exactly at the sites of the listing and as before elsewhere; the library's hook is published only then; a failed mapping or listing ends the process with no hook published and, respectively, nothing or only the trampoline changed |
| Init.BootRewrites | zpoline_loader/src/lib.rs:16-43 | from the lines of the listing alone: where the trampoline stands and what every byte above 64 KiB holds afterwards |
| Init.ListedSiteRewritten | zpoline_loader/src/init.rs:17-56 | each system call instruction on a sweep boundary of a line's region that must be rewritten and whose pages the kernel opens held `0f 05` or `0f 34` and holds `ff d0` |
| Init.TrampolineBytes | zpoline_loader/src/trampoline.rs:38-62 | code, then zeros to the end of the mapping, then the old memory |
| Init.TrampolineExecutable | zpoline_loader/src/trampoline.rs:39-48 | the trampoline's pages stay readable, writable and executable through start-up |
| Init.BootConfigExcludes | zpoline_loader/src/init.rs:74-81 | every configuration excludes the low addresses and the range at `raw_syscall` |
| Init.SitesAreHigh | zpoline_loader/src/init.rs:80-81 | no patched site lies below 64 KiB |
| Init.StartupMemory | zpoline_loader/src/lib.rs:16-43 | after start-up the trampoline stands as generated, and every byte above is its original or part of a patched site |
| Init.RawRegionKept | zpoline_loader/src/init.rs:74-78 | the whole listed region that contains `raw_syscall` keeps every byte |
| Init.RawImplKept | zpoline_hook_api/src/lib.rs:134-162 | a system call found in any region survives if and only if its own region is not patched |
| Simulation.ExecRelated | zpoline_rewriter/src/rewriter.rs:188-206 | an instruction with clean operands keeps the two programs related |
| Simulation.OrdinaryStep | zpoline_rewriter/src/rewriter.rs:188-206 | outside the sites the rewritten program executes the same instruction to a related state |
| Simulation.SiteReachesHook | zpoline_loader/src/trampoline.rs:65-172 | a patched call reaches the hook entry point with the program's registers in the block |
| Simulation.HookReply | zpoline_hook_api/src/lib.rs:58-62 | the kernel's answer through the library is its answer to the original call |
| Simulation.SiteStep | zpoline_loader/src/trampoline.rs:72-223 | one original system call is matched by the sled, the stub, one pass through the entry point and the way back |
| Simulation.Simulation | zpoline_loader/src/trampoline.rs:72-223 | whole runs: every safe run of the original is matched by a run of the rewritten program to a related state, one hook entry per patched call |
| Simulation.NoOtherCalls | zpoline_hook_api/src/lib.rs:58-62 | at every moment of the matching run the kernel calls made are a prefix of the original's |
| Simulation.SafeRunExists | zpoline_loader/src/trampoline.rs:72-87 | safe runs with patched calls exist |
| Transparency.BootStarts | zpoline_loader/src/lib.rs:12-60 | every loader configuration meets the premises of the main result |
| Transparency.StartedRelated | zpoline_loader/src/lib.rs:16-43 | start-up establishes the relation the simulation needs, with nothing undefined |
| Transparency.TransparentStart | zpoline_loader/src/lib.rs:12-60 | the main result, as stated above |
| Transparency.TransparentBoot | zpoline_loader/src/lib.rs:12-60 | the main result for the loader itself, from the listing, the exclusions, the kernel's answers and the hook library it finds |
| Transparency.BoundaryIsSafe | zpoline_rewriter/src/rewriter.rs:224-249 | execution along the boundaries of the sweep never enters a patched instruction in the middle |
| Transparency.RawSyscallIsReal | zpoline_hook_api/src/lib.rs:127-162 | a `syscall` in the region of `raw_syscall` still makes exactly one kernel call and does not re-enter the trampoline |

## Left out

- Foreign calls: `mmap`, `mprotect`, `dlmopen`, reading the listing, the environment and the executable's path are inputs; a failed permission change is taken to change nothing.
- The instruction decoder of iced-x86: any decoder meeting `Decoding.Contract`; that iced meets it is an assumption.
- Instructions beyond those the stub uses plus moves, loads, stores and jumps: the processor model stops on them, so the main result speaks of programs made of the modelled ones; memory faults other than running off the address space are not modelled.
- Vector registers, flags other than zero, the red zone's contents: the stub does not save them, and safe runs do not rely on them.
- Programs with several threads of machine code, signals, and system calls that do not return on the same stack (`rt_sigreturn`, `vfork`, `clone` with a new stack, the child of `fork`): the simulation is of one thread; threads are covered by `HookProtocol`.
- `sysenter` as an instruction: it is found, patched and counted, but the processor model does not execute it.
- The machine code of the hook entry point: `Cpu.HookCall` takes its effect from `HookApi` and the calling convention, with arbitrary values in everything a callee may clobber; registers of the block are not changed by it.
- Hooks written by users: a hook is the fallback, the dispatcher over default methods, or a library function, each with the nested calls it makes; what overridden methods compute is not modelled.
- HookApi.HookRuntime.HookEntry: one thread's view, in which the mutex is never contended; contention is in `HookProtocol`.
- HookApi.ThreadHistory: calls of `exit` and `exit_group` are excluded, as they do not return.
- HookProtocol.ReachableSafe: registration from inside a hook, registrations that themselves issue hooked system calls, mutex poisoning and panics are not steps of the machine; a raw system call and its return are one step, so calls that block until another thread acts are outside.
- Counters are unbounded; their wrap-around at 2^64 is not modelled.
- Rewriting.Rewriter.RewriteRegion: requires, as the source's comments do, that the region is mapped and well-formed, and that its page arithmetic fits 64 bits (`Rewriting.AlignedInterval` says what happens otherwise).
- Rewriting.RewriteConfig.IsExcluded: the component-wise path prefix test is an arbitrary relation on strings; paths are strings, without the lossy conversion of bytes that are not UTF-8.
- `reset_stats`, tracing output, the table of system call names, sample hook libraries and the path search for the loader's library: simple or input/output.
