/**
 * The log of one run of jexec: every call the program makes into the
 * operating system, libelf or the dynamic linker, in program order, each
 * with the outcome it got. The predicates at the end state what a log of a
 * well-behaved run looks like; the launch and entry modules prove them.
 */
module Trace {
  import opened Wrappers

  /** Access modes of open(2) used by the program. */
  datatype Mode =
    | ReadOnly   // O_RDONLY
    | ReadExec   // O_RDONLY | O_EXEC

  /** Why the process terminated (the four classes of error of the program). */
  datatype Cause =
    | UsageError             // too few arguments: main returns -1
    | ResolutionError        // jail_getid found no such jail: errx(-1, ...)
    | SyscallError           // a call failed: err(-1, ...) or warn + exit(-1)
    | Unsupported(errno: int) // errc(-1, ENOSYS, ...): dynamic launch not implemented

  /** FreeBSD's "function not implemented" error number. */
  const ENOSYS := 78

  /** The exit status every failure of the program uses (err(-1, ...), exit(-1), return -1). */
  const FAILURE := -1

  datatype Event =
    | Open(path: string, mode: Mode, fd: int)          // fd < 0: open failed
    | ElfBegin(fd: int, ok: bool)                      // elf_begin(fd, ELF_C_READ, NULL)
    | PhdrCount(count: Option<nat>)                    // elf_getphdrnum
    | PhdrFetch(index: nat, ptype: Option<int>)        // gelf_getphdr: p_type of that header
    | FreeElf                                          // free(elf), where elf_end was due
    | Close(fd: int)
    | JailGetId(name: string, jid: int)                // jid == -1: no such jail
    | JailAttach(jid: int, rc: int)                    // rc != 0: attach failed
    | Fexecve(fd: int, argv: seq<string>, envp: seq<string>, ok: bool) // ok: image replaced
    | DlOpen(path: string, loaded: Option<nat>)
    | DlSym(handle: nat, symbol: string, addr: Option<nat>)
    | Fstat(fd: int, size: Option<nat>)
    | Mmap(length: nat, fd: int, addr: Option<nat>)    // None: MAP_FAILED
    | DlClose(handle: nat)
    | Exit(status: int, cause: Cause)

  /** The call reported failure, by the test the program applies to its result. */
  predicate Failed(e: Event)
  {
    match e
    case Open(_, _, fd) => fd < 0
    case ElfBegin(_, ok) => !ok
    case PhdrCount(count) => count.None?
    case PhdrFetch(_, ptype) => ptype.None?
    case JailGetId(_, jid) => jid == -1
    case JailAttach(_, rc) => rc != 0
    case Fexecve(_, _, _, ok) => !ok
    case DlOpen(_, loaded) => loaded.None?
    case DlSym(_, _, addr) => addr.None?
    case Fstat(_, size) => size.None?
    case Mmap(_, _, addr) => addr.None?
    case _ => false
  }

  /** The process ends with this event: it exits, or its image is replaced. */
  predicate Final(e: Event)
  {
    e.Exit? || (e.Fexecve? && e.ok)
  }

  /** Releasing a resource; the only thing allowed between a failure and the exit. */
  predicate Cleanup(e: Event)
  {
    e.FreeElf? || e.Close?
  }

  /** An event that succeeded, did not end the process and did not touch the jail. */
  predicate Quiet(e: Event)
  {
    !Failed(e) && !Final(e) && !e.JailAttach? && !e.Fexecve?
  }

  /** Exactly one event ends the process, and it is the last one. */
  predicate Terminates(t: seq<Event>)
  {
    |t| > 0 && Final(t[|t| - 1]) && forall i :: 0 <= i < |t| - 1 ==> !Final(t[i])
  }

  /** From position k on, only cleanup happens, and then the process exits with -1. */
  predicate ExitsAfterCleanup(t: seq<Event>, k: nat)
  {
    k < |t| && t[|t| - 1].Exit? && t[|t| - 1].status == FAILURE &&
    forall j :: k <= j < |t| - 1 ==> Cleanup(t[j])
  }

  /** No failure is recovered from: each one leads straight to exit(-1). */
  predicate FailFast(t: seq<Event>)
  {
    forall i :: 0 <= i < |t| && Failed(t[i]) ==> ExitsAfterCleanup(t, i + 1)
  }

  predicate Attached(e: Event)
  {
    e.JailAttach? && e.rc == 0
  }

  predicate OpenedForExec(e: Event)
  {
    e.Open? && e.mode == ReadExec && e.fd >= 0
  }

  /**
   * The ordering that keeps the jail boundary safe: the target is opened by
   * path before the process enters the jail, the process enters the jail
   * before it executes anything, execution goes through a descriptor opened
   * that way, and no path is resolved once inside the jail.
   */
  predicate JailOrdered(t: seq<Event>)
  {
    (forall i :: 0 <= i < |t| && t[i].JailAttach? ==>
       exists h :: 0 <= h < i && OpenedForExec(t[h])) &&
    (forall j :: 0 <= j < |t| && t[j].Fexecve? ==>
       exists h, i :: 0 <= h < i < j && OpenedForExec(t[h]) && t[h].fd == t[j].fd && Attached(t[i])) &&
    (forall i, k :: 0 <= i < k < |t| && Attached(t[i]) ==> !t[k].Open?)
  }

  /** A prefix of quiet calls neither ends the process nor leaves the last call non-final. */
  lemma {:induction false} QuietPrefixTerminates(a: seq<Event>, b: seq<Event>)
    requires forall e | e in a :: Quiet(e)
    requires Terminates(b)
    ensures Terminates(a + b)
  {
    var t := a + b;
    forall i | 0 <= i < |t| - 1
      ensures !Final(t[i])
    {
      if i < |a| { assert t[i] == a[i] && a[i] in a; } else { assert t[i] == b[i - |a|]; }
    }
  }

  /** A prefix of quiet calls has no failure, and the failures after it still lead straight to exit(-1). */
  lemma {:induction false} QuietPrefixFailFast(a: seq<Event>, b: seq<Event>)
    requires forall e | e in a :: Quiet(e)
    requires FailFast(b)
    ensures FailFast(a + b)
  {
    var t := a + b;
    assert forall k :: 0 <= k < |a| ==> t[k] == a[k] && a[k] in a;
    forall i | 0 <= i < |t| && Failed(t[i])
      ensures ExitsAfterCleanup(t, i + 1)
    {
      assert b[i - |a|] == t[i];
      assert ExitsAfterCleanup(b, i - |a| + 1);
      forall j | i + 1 <= j < |t| - 1 ensures Cleanup(t[j]) {
        assert t[j] == b[j - |a|];
      }
    }
  }

  /** A prefix of quiet calls neither attaches nor executes, so the ordering of what follows stands. */
  lemma {:induction false} QuietPrefixOrdered(a: seq<Event>, b: seq<Event>)
    requires forall e | e in a :: Quiet(e)
    requires JailOrdered(b)
    ensures JailOrdered(a + b)
  {
    var t := a + b;
    assert forall k :: 0 <= k < |a| ==> t[k] == a[k] && a[k] in a;
    forall i | 0 <= i < |t| && t[i].JailAttach?
      ensures exists h :: 0 <= h < i && OpenedForExec(t[h])
    {
      assert t[i] == b[i - |a|];
      var h :| 0 <= h < i - |a| && OpenedForExec(b[h]);
      assert t[h + |a|] == b[h];
    }
    forall j | 0 <= j < |t| && t[j].Fexecve?
      ensures exists h, i :: 0 <= h < i < j && OpenedForExec(t[h]) && t[h].fd == t[j].fd && Attached(t[i])
    {
      assert t[j] == b[j - |a|];
      var h, i :| 0 <= h < i < j - |a| && OpenedForExec(b[h]) && b[h].fd == b[j - |a|].fd && Attached(b[i]);
      assert t[h + |a|] == b[h] && t[i + |a|] == b[i];
    }
    forall i, k | 0 <= i < k < |t| && Attached(t[i])
      ensures !t[k].Open?
    {
      assert t[i] == b[i - |a|] && t[k] == b[k - |a|];
    }
  }

  /**
   * Running quiet steps first does not spoil the properties of what follows:
   * the entry point and the dispatcher put a jail lookup and a successful
   * classification in front of a launcher.
   */
  lemma QuietPrefix(a: seq<Event>, b: seq<Event>)
    requires forall e | e in a :: Quiet(e)
    requires Terminates(b) && FailFast(b) && JailOrdered(b)
    ensures Terminates(a + b) && FailFast(a + b) && JailOrdered(a + b)
  {
    QuietPrefixTerminates(a, b);
    QuietPrefixFailFast(a, b);
    QuietPrefixOrdered(a, b);
  }
}
