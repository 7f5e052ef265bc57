# jexec-host, modelled in Dafny

`jexec <jail> <command> [args...]` runs a command inside an existing FreeBSD
jail. It classifies the command's binary as statically or dynamically linked
by scanning its ELF program headers for `PT_DYNAMIC`. A static binary is
opened, the process attaches to the jail, and the open descriptor is
executed with `fexecve`. Opening before attaching and executing by
descriptor keeps the jail's file system out of path resolution. The dynamic
path was meant to bootstrap the runtime linker `/libexec/ld-elf.so.1` by
hand. As written it opens, loads, looks up and stats the linker, then asks
`mmap` for a file mapping of descriptor `-1`. On FreeBSD that mapping fails
with `EBADF`, so on an x86_64 build the path ends in `err(-1, ...)` there.
The rest of the code after `mmap` fills in an auxiliary vector, closes the
linker handle and exits with `ENOSYS`. The model keeps `mmap`'s outcome a
free parameter, so it also covers that rest.

The model is a log of the calls one run makes, each call logged with the
outcome it got (`Trace.Event`). Every outcome of the operating system,
libelf and the dynamic linker is a parameter, so the model covers all of
them at once. The parameters are `Classifier.Probe`, `Launch.StaticOs`,
`Launch.LoaderOs` and, for a whole run, `Entry.World`.

- `trace.dfy`: the events, plus three properties a log can have:
  - `Terminates`: exactly one exit or image replacement, at the end.
  - `FailFast`: every failed call goes straight to cleanup and `exit(-1)`.
  - `JailOrdered`: open by path, then attach to the jail, then exec through
    that descriptor, with no path opened after the attach.
- `classifier.dfy`: `is_dynamic`. `IsDynamic` is the loop as written. It is
  proved equal to the specification functions `Classify` and `ProbeLog`.
  Lemmas give those functions their meaning.
- `auxv.dfy`: the six-entry `auxinfo` vector, and how a reader of an
  auxiliary vector sees it.
- `launch.dfy`: `jexec_static` and `jexec_dynamic`, each as a specification
  function over the call outcomes plus a method that appends its steps to a
  log.
- `entry.dfy`: `jexec` and `main`, which only route, as functions. `Run`
  proves the three properties above for every run of the program.

Where the code departs from what its own comments and names say
(jexec-host.c:88 calls `fd` the descriptor of the target executable;
:95-98 and :120-128 describe the intended loader), the model follows the
code:
- The dynamic path never attaches to the jail, never executes anything and
  never opens the target.
- `fd` is set to `-1` at jexec-host.c:88 and never assigned again.
  `mmap` is given `fd`, not `loader_fd`, so it asks for a mapping of `-1`.
  `AT_EXECFD` is also `fd`, so it is `-1` as well.
- The classifier releases its libelf handle with `free`, not `elf_end`.
- On an x86_64 build the process ends in `errc(-1, ENOSYS, ...)` only when
  every preparation step succeeds. A failed step ends in `err(-1, ...)`
  first. Either way the exit status is `-1`. `ENOSYS` is the reported error
  number.

`argv` in `Entry.Run` is `main`'s whole argument vector, so `argc` is
`|argv|`. The command passed to `jexec` is `argv[2..]`. The classifier and
the static launcher each open the command's path themselves, so a run
classified static logs two independent `Open` events for the same path. A
run that fails classification, or is classified dynamic, opens the command
once.

Constants are FreeBSD's:
- `PT_DYNAMIC = 2` (program header types in chapter 5 of the System V gABI).
- `AT_NULL = 0`, `AT_EXECFD = 2`, `AT_BASE = 7`, `AT_OSRELDATE = 18`,
  `AT_PAGESIZES = 20` and `AT_STACKPROT = 23` (the auxiliary vector of
  section 3.4.3 of the System V AMD64 psABI).
- `ENOSYS = 78`.

## Model

| member | source | states |
|---|---|---|
| Classifier.StopFrom | jexec-host.c:47-57 | the header scan from index i stops at the first header that failed or is PT_DYNAMIC, or at phnum; every header before that point was read and is not PT_DYNAMIC |
| Classifier.ProbeLog | jexec-host.c:31-67 | the classifier's calls begin with a read-only open of the target path |
| Classifier.ProbeLogFailFast | jexec-host.c:31-67 | a failed open, elf_begin, elf_getphdrnum or gelf_getphdr is followed only by free, close and exit(-1) |
| Classifier.ProbeLogQuiet | jexec-host.c:59-67 | the classifier ends the process exactly when it reaches no verdict; on the way to a verdict every call succeeds; it never attaches, executes or loads anything |
| Classifier.ClassifyDynamicIff | jexec-host.c:26-57 | is_dynamic returns 1 iff some header is PT_DYNAMIC and every header before it was read successfully (both directions) |
| Classifier.ClassifyStaticIff | jexec-host.c:26-62 | is_dynamic returns 0 iff all phnum headers were read and none is PT_DYNAMIC, which includes phnum == 0 (both directions) |
| Classifier.ClassifyFatalIff | jexec-host.c:31-67 | is_dynamic exits instead of returning iff open, elf_begin or elf_getphdrnum fails, or a header read fails before any PT_DYNAMIC is seen (both directions) |
| Classifier.ShortCircuit | jexec-host.c:47-56 | headers are fetched in index order, and header i only when every header before it was read and is not PT_DYNAMIC, so nothing after the first PT_DYNAMIC is fetched |
| Classifier.ClosesOnce | jexec-host.c:59-67 | the classifier closes its descriptor exactly once, right after free(elf), as the last call before returning or exiting; after a failed open nothing is closed |
| Classifier.IsDynamic | jexec-host.c:23-68 | the loop with its early exits returns the classification of Classify and makes exactly the calls of ProbeLog |
| Auxv.ReadSeesEveryEntry | jexec-host.c:130-144 | in an AT_NULL-terminated vector with distinct types, a reader sees every entry before the terminator with its own value, and nothing else |
| Auxv.AuxInfo | jexec-host.c:130-144 | the vector has six entries with distinct types; AT_NULL occurs once, as the last; entry 0 is AT_BASE with the loader address; entry 1 is AT_EXECFD with the descriptor |
| Auxv.AuxInfoAsRead | jexec-host.c:130-144 | a reader of the vector sees exactly AT_BASE = loader, AT_EXECFD = fd, and NULL for AT_PAGESIZES, AT_OSRELDATE and AT_STACKPROT |
| Launch.StaticLaunch | jexec-host.c:70-81 | jexec_static's calls start with opening argv[0] for execution; the process ends exactly once; each failure exits with -1 at once; open precedes attach, which precedes fexecve on the opened descriptor |
| Launch.StaticSteps | jexec-host.c:73-80 | attach to jid happens iff open succeeded; fexecve(fd, argv, envp) with argv and envp unchanged happens iff attach succeeded too; the image is replaced iff all three succeed; nothing is loaded |
| Launch.JexecStatic | jexec-host.c:70-81 | the step-by-step launcher makes exactly the calls of StaticLaunch |
| Launch.DynamicLaunch | jexec-host.c:86-154 | jexec_dynamic never attaches or executes; it ends the process exactly once, with exit status -1; each failure exits at once |
| Launch.DynamicEnding | jexec-host.c:87-153 | it ends with ENOSYS iff it is not an x86_64 build or every preparation step succeeded; dlclose of the dlopen handle happens iff every step succeeded, once, right before the exit |
| Launch.DynamicAux | jexec-host.c:112-144 | an auxiliary vector is built iff every preparation step succeeded on an x86_64 build |
| Launch.JexecDynamic | jexec-host.c:86-154 | the step-by-step bootstrap makes exactly the calls of DynamicLaunch and builds the vector of DynamicAux |
| Launch.MapsUnopenedDescriptor | jexec-host.c:88-112 | the mmap of the loader is given descriptor -1, not the loader descriptor that was opened |
| Launch.AuxCarriesUnopenedDescriptor | jexec-host.c:88-136 | the vector built on the dynamic path advertises -1 as AT_EXECFD, the mapped address as AT_BASE, and NULL page sizes |
| Trace.QuietPrefix | jexec-host.c:157-174 | putting successful calls that neither attach nor execute in front of a log keeps the log terminating, fail-fast and jail-ordered |
| Entry.Jexec | jexec-host.c:156-161 | the command is classified completely before anything is launched; nothing is launched when classification fails; a static verdict runs jexec_static and a dynamic verdict runs jexec_dynamic; the whole log terminates, is fail-fast and is jail-ordered |
| Entry.JexecRoutes | jexec-host.c:156-161 | only a static verdict reaches the jail and only a dynamic one loads the runtime linker; the jail entered is jid; argv and envp reach fexecve unchanged |
| Entry.Run | jexec-host.c:163-175 | argc < 3 exits with -1 with no jail lookup and no launch; an unknown jail exits with -1 before jexec; otherwise jexec runs argv[2..] in the resolved jail with envp unchanged; every run terminates, is fail-fast and is jail-ordered |
| Entry.RunPassesThrough | jexec-host.c:171-174 | across a whole run the only jail attached to is the one jail_getid resolved, and fexecve receives argv[2..] of main and main's envp, which needs at least three arguments |

## Left out

- Real system calls (`open`, `jail_attach`, `fexecve`, `fstat`, `mmap`, `jail_getid`) have outcomes but no semantics here: they are parameters of the model.
- libelf: `elf_version` is not modelled, because its result is discarded and it has no failure path. `elf_begin`, `elf_getphdrnum` and `gelf_getphdr` are reduced to "fails or not", the header count and each header's `p_type`.
- `dlopen`, `dlsym` and `dlclose` are reduced to a handle or failure. The `_rtld` entry point is looked up but never called by the code, so calling it is not modelled.
- The new stack and the argv/envp/argc copy on the dynamic path are only TODO comments in the code, so they are not modelled.
- Diagnostic text from `err`, `warn`, `errx`, `errc` and the usage `printf` is left out. Only the exit status and a cause remain (`Trace.Cause`).
- `#ifdef __x86_64__` is the boolean `LoaderOs.x86_64`, not a build configuration.
- The exit status is kept as `-1`. Its truncation to 255 by the operating system is not modelled.
- The header loop's `int index` is compared with a `size_t` count. The model's index is unbounded, so overflow past `INT_MAX` headers is not modelled.
- Launch.DynamicLaunch: `mmap`'s outcome is left free even though the call passes descriptor `-1` without `MAP_ANON`, which FreeBSD refuses with `EBADF`. So the branch where every loader step succeeds is reachable only in the model. That branch is `DynamicAux` returning a vector, the `dlclose` half of `DynamicEnding`, and `AuxCarriesUnopenedDescriptor`.
- `jexec_static`'s own `fd` is never closed when `jail_attach` or `fexecve` fails (jexec-host.c:76-80). The model reproduces this by logging no `Close` on those paths.
- `loader_fd` is never closed on any path. The model simply has no `Close` event for it, and no lemma states this.
