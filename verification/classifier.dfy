/**
 * The ELF linkage classifier, is_dynamic: open the target read-only, hand it
 * to libelf, and scan the program header table for a PT_DYNAMIC entry,
 * stopping at the first one. Every failure frees the libelf handle, closes
 * the descriptor and exits with -1; no classification is returned then.
 */
module Classifier {
  import opened Wrappers
  import opened Trace

  /** Segment type of the dynamic linking information (System V gABI, chapter 5, Program Header). */
  const PT_DYNAMIC := 2

  /** What libelf makes of the opened file. */
  datatype ElfFile =
    | BeginFails                              // elf_begin returns NULL
    | NoPhdrCount                         // elf_getphdrnum fails
    | Headers(fetch: seq<Option<int>>)    // phnum == |fetch|; fetch[i]: p_type of header i, or None when gelf_getphdr fails

  /** The outcomes of the calls is_dynamic makes: the descriptor open returns, and the file behind it. */
  datatype Probe = Probe(fd: int, elf: ElfFile)

  datatype Classification = Static | Dynamic | Fatal

  /** A header that was read and is not PT_DYNAMIC: the scan moves on past it. */
  predicate PassesOver(h: Option<int>)
  {
    h.Some? && h.value != PT_DYNAMIC
  }

  /** The index at which the scan starting at i stops: the first header it does not pass over, or |hs|. */
  function StopFrom(hs: seq<Option<int>>, i: nat): (k: nat)
    requires i <= |hs|
    ensures i <= k <= |hs|
    ensures forall j :: i <= j < k ==> PassesOver(hs[j])
    ensures k < |hs| ==> !PassesOver(hs[k])
    decreases |hs| - i
  {
    if i == |hs| || !PassesOver(hs[i]) then i else StopFrom(hs, i + 1)
  }

  function Stop(hs: seq<Option<int>>): (k: nat)
    ensures k <= |hs|
  {
    StopFrom(hs, 0)
  }

  /** The first k headers before a stop at k are passed over, so the stop index is unique. */
  lemma StopIsFirst(hs: seq<Option<int>>, k: nat)
    requires k <= |hs|
    requires forall j :: 0 <= j < k ==> PassesOver(hs[j])
    requires k < |hs| ==> !PassesOver(hs[k])
    ensures Stop(hs) == k
  {
  }

  /** The value is_dynamic returns (Static for 0, Dynamic for 1), or Fatal where it exits. */
  function Classify(p: Probe): Classification
  {
    if p.fd < 0 then Fatal
    else match p.elf
      case BeginFails => Fatal
      case NoPhdrCount => Fatal
      case Headers(hs) =>
        var k := Stop(hs);
        if k == |hs| then Static
        else if hs[k].None? then Fatal
        else Dynamic
  }

  /** The header fetches of indices 0 .. n-1, in order. */
  function Fetches(hs: seq<Option<int>>, n: nat): seq<Event>
    requires n <= |hs|
  {
    seq(n, j requires 0 <= j < n => PhdrFetch(j, hs[j]))
  }

  /** How many headers the scan fetches: up to and including the one it stops at. */
  function Fetched(hs: seq<Option<int>>): (n: nat)
    ensures n <= |hs|
  {
    if Stop(hs) == |hs| then |hs| else Stop(hs) + 1
  }

  /** The calls is_dynamic makes on the target at path. */
  function ProbeLog(path: string, p: Probe): (t: seq<Event>)
    ensures |t| > 0 && t[0] == Open(path, ReadOnly, p.fd)
  {
    var fd := p.fd;
    [Open(path, ReadOnly, fd)] +
      if fd < 0 then [Exit(FAILURE, SyscallError)]
      else match p.elf
        case BeginFails => [ElfBegin(fd, false), FreeElf, Close(fd), Exit(FAILURE, SyscallError)]
        case NoPhdrCount => [ElfBegin(fd, true), PhdrCount(None), FreeElf, Close(fd), Exit(FAILURE, SyscallError)]
        case Headers(hs) =>
          [ElfBegin(fd, true), PhdrCount(Some(|hs|))] + Fetches(hs, Fetched(hs)) + [FreeElf, Close(fd)] +
          if Classify(p) == Fatal then [Exit(FAILURE, SyscallError)] else []
  }

  /** The scan stops at a header that could not be read. */
  predicate ScanFails(hs: seq<Option<int>>)
  {
    Stop(hs) < |hs| && hs[Stop(hs)].None?
  }

  /**
   * Where each call sits in t, the log of a classifier that opened fd and got
   * the header count of hs: the open, elf_begin, elf_getphdrnum, the fetches
   * in index order, free, close, and the exit when the scan failed.
   */
  predicate ScanLayout(t: seq<Event>, fd: int, hs: seq<Option<int>>)
  {
    var n := Fetched(hs);
    |t| == (if ScanFails(hs) then 6 + n else 5 + n) &&
    t[0].Open? && t[0].fd == fd && fd >= 0 && t[0].mode == ReadOnly &&
    t[1] == ElfBegin(fd, true) && t[2] == PhdrCount(Some(|hs|)) &&
    (forall j :: 0 <= j < n ==> t[3 + j] == PhdrFetch(j, hs[j])) &&
    t[3 + n] == FreeElf && t[4 + n] == Close(fd) &&
    (ScanFails(hs) ==> t[5 + n] == Exit(FAILURE, SyscallError))
  }

  lemma {:induction false} ScanLogLayout(path: string, p: Probe)
    requires p.fd >= 0 && p.elf.Headers?
    ensures ScanLayout(ProbeLog(path, p), p.fd, p.elf.fetch)
    ensures Classify(p) == Fatal <==> ScanFails(p.elf.fetch)
  {
    var hs := p.elf.fetch;
    var n := Fetched(hs);
    var f := Fetches(hs, n);
    var tail := if Classify(p) == Fatal then [Exit(FAILURE, SyscallError)] else [];
    var u := [Open(path, ReadOnly, p.fd), ElfBegin(p.fd, true), PhdrCount(Some(|hs|))] + f;
    var v := u + [FreeElf, Close(p.fd)];
    var t := v + tail;
    assert ProbeLog(path, p) == t;
    assert |u| == 3 + n && |v| == 5 + n;
    forall j | 0 <= j < n ensures t[3 + j] == PhdrFetch(j, hs[j]) {
      assert t[3 + j] == v[3 + j] == u[3 + j] == f[j];
    }
    assert t[3 + n] == v[3 + n] && t[4 + n] == v[4 + n];
  }

  /** Only the header the scan stops at can have failed, and then the scan fails. */
  lemma FetchFailureIsLast(hs: seq<Option<int>>, j: nat)
    requires j < Fetched(hs) && hs[j].None?
    ensures j == Fetched(hs) - 1 && ScanFails(hs)
  {
  }

  /** The calls of a scan that got the header count that are not fetches. */
  lemma ScanLayoutAt(t: seq<Event>, fd: int, hs: seq<Option<int>>, i: nat)
    requires ScanLayout(t, fd, hs) && i < |t|
    ensures var n := Fetched(hs);
      (i == 0 ==> t[i].Open?) && (i == 1 ==> t[i].ElfBegin? && t[i].ok) &&
      (i == 2 ==> t[i].PhdrCount? && t[i].count.Some?) &&
      (3 <= i < 3 + n ==> t[i] == PhdrFetch(i - 3, hs[i - 3])) &&
      (i == 3 + n ==> t[i] == FreeElf) && (i == 4 + n ==> t[i] == Close(fd)) &&
      (i >= 5 + n ==> i == 5 + n && t[i] == Exit(FAILURE, SyscallError))
  {
  }

  /** In a scan that got the header count, only the last fetch can fail, and cleanup and exit follow it. */
  lemma ScanFailFast(t: seq<Event>, fd: int, hs: seq<Option<int>>)
    requires ScanLayout(t, fd, hs)
    ensures FailFast(t)
  {
    var n := Fetched(hs);
    forall i | 0 <= i < |t| && Failed(t[i])
      ensures ExitsAfterCleanup(t, i + 1)
    {
      ScanLayoutAt(t, fd, hs, i);
      assert 3 <= i < 3 + n;
      FetchFailureIsLast(hs, i - 3);
      assert |t| == 6 + n;
    }
  }

  /** Such a scan never attaches, executes or loads, and only its last call can end the process. */
  lemma ScanStaysOut(t: seq<Event>, fd: int, hs: seq<Option<int>>)
    requires ScanLayout(t, fd, hs)
    ensures forall i :: 0 <= i < |t| ==>
      !t[i].JailAttach? && !t[i].Fexecve? && !t[i].DlOpen? && (i < |t| - 1 ==> !Final(t[i]))
  {
    forall i | 0 <= i < |t|
      ensures !t[i].JailAttach? && !t[i].Fexecve? && !t[i].DlOpen? && (i < |t| - 1 ==> !Final(t[i]))
    {
      ScanLayoutAt(t, fd, hs, i);
    }
  }

  /** In such a scan that does not fail, every call succeeds. */
  lemma ScanQuiet(t: seq<Event>, fd: int, hs: seq<Option<int>>)
    requires ScanLayout(t, fd, hs) && !ScanFails(hs)
    ensures forall i :: 0 <= i < |t| ==> Quiet(t[i])
  {
    ScanStaysOut(t, fd, hs);
    forall i | 0 <= i < |t|
      ensures !Failed(t[i])
    {
      ScanLayoutAt(t, fd, hs, i);
      if 3 <= i < 3 + Fetched(hs) && hs[i - 3].None? {
        FetchFailureIsLast(hs, i - 3);
      }
    }
  }

  /**
   * The whole log when open, elf_begin or elf_getphdrnum fails: a failed open
   * exits at once; otherwise the libelf handle is released, the descriptor
   * closed, and the process exits with -1.
   */
  lemma EarlyExitLog(path: string, p: Probe)
    ensures p.fd < 0 ==> ProbeLog(path, p) == [Open(path, ReadOnly, p.fd), Exit(FAILURE, SyscallError)]
    ensures p.fd >= 0 && p.elf.BeginFails? ==>
      ProbeLog(path, p) == [Open(path, ReadOnly, p.fd), ElfBegin(p.fd, false), FreeElf, Close(p.fd), Exit(FAILURE, SyscallError)]
    ensures p.fd >= 0 && p.elf.NoPhdrCount? ==>
      ProbeLog(path, p) == [Open(path, ReadOnly, p.fd), ElfBegin(p.fd, true), PhdrCount(None), FreeElf, Close(p.fd), Exit(FAILURE, SyscallError)]
  {
  }

  /** Every failure in the classifier's log goes straight to cleanup and exit(-1). */
  lemma ProbeLogFailFast(path: string, p: Probe)
    ensures FailFast(ProbeLog(path, p))
  {
    var t := ProbeLog(path, p);
    if p.fd < 0 || !p.elf.Headers? {
      EarlyExitLog(path, p);
    } else {
      ScanLogLayout(path, p);
      ScanFailFast(t, p.fd, p.elf.fetch);
    }
  }

  /**
   * The classifier ends the process exactly when it reaches no verdict, and
   * on the way to a verdict every call succeeds; it never enters the jail,
   * executes or loads anything.
   */
  lemma ProbeLogQuiet(path: string, p: Probe)
    ensures var t := ProbeLog(path, p);
      (Terminates(t) <==> Classify(p) == Fatal) &&
      (Classify(p) != Fatal ==> forall e | e in t :: Quiet(e)) &&
      (forall e | e in t :: !e.JailAttach? && !e.Fexecve? && !e.DlOpen?)
  {
    var t := ProbeLog(path, p);
    if p.fd < 0 || !p.elf.Headers? {
      EarlyExitLog(path, p);
    } else {
      ScanLogLayout(path, p);
      ScanOutcome(t, p.fd, p.elf.fetch);
    }
  }

  /** A scan that got the header count ends the process exactly when it fails, and stays quiet otherwise. */
  lemma ScanOutcome(t: seq<Event>, fd: int, hs: seq<Option<int>>)
    requires ScanLayout(t, fd, hs)
    ensures Terminates(t) <==> ScanFails(hs)
    ensures !ScanFails(hs) ==> forall e | e in t :: Quiet(e)
    ensures forall e | e in t :: !e.JailAttach? && !e.Fexecve? && !e.DlOpen?
  {
    ScanStaysOut(t, fd, hs);
    if !ScanFails(hs) { ScanQuiet(t, fd, hs); }
    ScanLayoutAt(t, fd, hs, |t| - 1);
    assert forall e | e in t :: exists i :: 0 <= i < |t| && t[i] == e;
  }

  /**
   * is_dynamic reports DYNAMIC exactly when some header is PT_DYNAMIC and
   * every header before the first such one was read successfully.
   */
  lemma ClassifyDynamicIff(p: Probe)
    ensures Classify(p) == Dynamic <==>
      p.fd >= 0 && p.elf.Headers? &&
      exists k :: 0 <= k < |p.elf.fetch| && p.elf.fetch[k] == Some(PT_DYNAMIC) &&
        forall j :: 0 <= j < k ==> p.elf.fetch[j].Some?
  {
    if p.fd >= 0 && p.elf.Headers? {
      var hs := p.elf.fetch;
      var s := Stop(hs);
      if Classify(p) == Dynamic {
        assert hs[s] == Some(PT_DYNAMIC) && forall j :: 0 <= j < s ==> hs[j].Some?;
      }
      if k :| 0 <= k < |hs| && hs[k] == Some(PT_DYNAMIC) && forall j :: 0 <= j < k ==> hs[j].Some? {
        if s < k {
          assert hs[s].Some?;
        } else {
          assert !PassesOver(hs[k]);
        }
      }
    }
  }

  /**
   * is_dynamic reports STATIC exactly when every one of the phnum headers was
   * read and none is PT_DYNAMIC; with phnum == 0 that holds trivially.
   */
  lemma ClassifyStaticIff(p: Probe)
    ensures Classify(p) == Static <==>
      p.fd >= 0 && p.elf.Headers? &&
      forall j :: 0 <= j < |p.elf.fetch| ==> p.elf.fetch[j].Some? && p.elf.fetch[j] != Some(PT_DYNAMIC)
  {
    if p.fd >= 0 && p.elf.Headers? {
      var hs := p.elf.fetch;
      if forall j :: 0 <= j < |hs| ==> hs[j].Some? && hs[j] != Some(PT_DYNAMIC) {
        StopIsFirst(hs, |hs|);
      }
    }
  }

  /**
   * Every other case ends the process: open, elf_begin or elf_getphdrnum
   * failed, or a header could not be read before any PT_DYNAMIC was seen.
   */
  lemma ClassifyFatalIff(p: Probe)
    ensures Classify(p) == Fatal <==>
      p.fd < 0 || p.elf.BeginFails? || p.elf.NoPhdrCount? ||
      exists k :: 0 <= k < |p.elf.fetch| && p.elf.fetch[k].None? &&
        forall j :: 0 <= j < k ==> PassesOver(p.elf.fetch[j])
  {
    if p.fd >= 0 && p.elf.Headers? {
      var hs := p.elf.fetch;
      if k :| 0 <= k < |hs| && hs[k].None? && forall j :: 0 <= j < k ==> PassesOver(hs[j]) {
        StopIsFirst(hs, k);
      }
    }
  }

  /**
   * The scan reads headers in index order and only while every earlier one
   * was read and was not PT_DYNAMIC: no header after the first PT_DYNAMIC
   * (or after a failed read) is ever fetched.
   */
  lemma ShortCircuit(path: string, p: Probe)
    ensures var t := ProbeLog(path, p);
      forall i :: 0 <= i < |t| && t[i].PhdrFetch? ==>
        p.elf.Headers? && i == 3 + t[i].index && t[i].index < |p.elf.fetch| &&
        t[i].ptype == p.elf.fetch[t[i].index] &&
        forall j :: 0 <= j < t[i].index ==> PassesOver(p.elf.fetch[j])
  {
    var t := ProbeLog(path, p);
    if p.fd < 0 || !p.elf.Headers? {
      EarlyExitLog(path, p);
    } else {
      ScanLogLayout(path, p);
      ScanShortCircuit(t, p.fd, p.elf.fetch);
    }
  }

  /** In a scan that got the header count, fetch k sits at position 3 + k and follows only passed-over headers. */
  lemma ScanShortCircuit(t: seq<Event>, fd: int, hs: seq<Option<int>>)
    requires ScanLayout(t, fd, hs)
    ensures forall i :: 0 <= i < |t| && t[i].PhdrFetch? ==>
      i == 3 + t[i].index && t[i].index < |hs| && t[i].ptype == hs[t[i].index] &&
      forall j :: 0 <= j < t[i].index ==> PassesOver(hs[j])
  {
    forall i | 0 <= i < |t| && t[i].PhdrFetch?
      ensures i == 3 + t[i].index && t[i].index < |hs| && t[i].ptype == hs[t[i].index]
      ensures forall j :: 0 <= j < t[i].index ==> PassesOver(hs[j])
    {
      ScanLayoutAt(t, fd, hs, i);
    }
  }

  /**
   * The classifier closes the descriptor it opened exactly once, right after
   * releasing the libelf handle (with free, not elf_end), as its last call
   * before returning or exiting; when open failed there is nothing to close.
   */
  lemma ClosesOnce(path: string, p: Probe)
    ensures var t := ProbeLog(path, p);
      (p.fd < 0 ==> forall e | e in t :: !e.Close?) &&
      (p.fd >= 0 ==>
        var c := if Classify(p) == Fatal then |t| - 2 else |t| - 1;
        2 <= c < |t| && t[c - 1] == FreeElf && t[c] == Close(p.fd) &&
        (Classify(p) == Fatal ==> t[c + 1] == Exit(FAILURE, SyscallError)) &&
        forall i :: 0 <= i < |t| && t[i].Close? ==> i == c)
  {
    var t := ProbeLog(path, p);
    if p.fd < 0 || !p.elf.Headers? {
      EarlyExitLog(path, p);
    } else {
      var hs := p.elf.fetch;
      ScanLogLayout(path, p);
      forall i | 0 <= i < |t| && t[i].Close?
        ensures i == 4 + Fetched(hs)
      {
        ScanLayoutAt(t, p.fd, hs, i);
      }
    }
  }

  /**
   * is_dynamic itself: open, begin the ELF parse, read the header count, and
   * scan the headers in a loop that leaves early on a PT_DYNAMIC (to the
   * cleanup block) or on a failed read (to the error block).
   */
  method IsDynamic(path: string, p: Probe) returns (c: Classification, log: seq<Event>)
    ensures c == Classify(p)
    ensures log == ProbeLog(path, p)
  {
    var fd := p.fd;
    log := [Open(path, ReadOnly, fd)];
    if fd < 0 {
      log := log + [Exit(FAILURE, SyscallError)];
      return Fatal, log;
    }
    match p.elf
    case BeginFails =>
      log := log + [ElfBegin(fd, false)];
      log := log + [FreeElf, Close(fd), Exit(FAILURE, SyscallError)];
      return Fatal, log;
    case NoPhdrCount =>
      log := log + [ElfBegin(fd, true), PhdrCount(None)];
      log := log + [FreeElf, Close(fd), Exit(FAILURE, SyscallError)];
      return Fatal, log;
    case Headers(hs) =>
      log := log + [ElfBegin(fd, true), PhdrCount(Some(|hs|))];
      ghost var head := log;
      ghost var tail := if Classify(p) == Fatal then [Exit(FAILURE, SyscallError)] else [];
      assert ProbeLog(path, p) == head + Fetches(hs, Fetched(hs)) + [FreeElf, Close(fd)] + tail;
      var phnum := |hs|;
      var index := 0;
      var ret := Static;
      while index < phnum
        invariant index <= phnum
        invariant forall j :: 0 <= j < index ==> PassesOver(hs[j])
        invariant log == head + Fetches(hs, index)
        invariant ret == Static
      {
        var header := hs[index];
        log := log + [PhdrFetch(index, header)];
        assert Fetches(hs, index + 1) == Fetches(hs, index) + [PhdrFetch(index, header)];
        assert log == head + Fetches(hs, index + 1);
        if header.None? {
          StopIsFirst(hs, index);
          assert Fetched(hs) == index + 1 && Classify(p) == Fatal;
          log := log + [FreeElf, Close(fd)];
          log := log + [Exit(FAILURE, SyscallError)];
          return Fatal, log;
        }
        if header.value == PT_DYNAMIC {
          StopIsFirst(hs, index);
          assert Fetched(hs) == index + 1 && Classify(p) == Dynamic;
          ret := Dynamic;
          log := log + [FreeElf, Close(fd)];
          assert log == head + Fetches(hs, Fetched(hs)) + [FreeElf, Close(fd)] + tail;
          return ret, log;
        }
        index := index + 1;
      }
      StopIsFirst(hs, index);
      assert Fetched(hs) == index && Classify(p) == Static;
      log := log + [FreeElf, Close(fd)];
      assert log == head + Fetches(hs, Fetched(hs)) + [FreeElf, Close(fd)] + tail;
      return ret, log;
  }
}
