/**
 * The two launchers. jexec_static opens the target, enters the jail and
 * executes the open descriptor. jexec_dynamic, as written, only prepares
 * for a runtime-linker bootstrap that it never performs: it never enters the
 * jail nor executes anything, and always ends in exit(-1).
 */
module Launch {
  import opened Wrappers
  import opened Trace
  import opened Auxv

  /** The outcomes of the calls jexec_static makes. */
  datatype StaticOs = StaticOs(openFd: int, attachRc: int, execOk: bool)

  /** The calls jexec_static makes for the command argv in jail jid. */
  function StaticLaunch(jid: int, argv: seq<string>, envp: seq<string>, o: StaticOs): (t: seq<Event>)
    requires |argv| > 0
    ensures Terminates(t) && FailFast(t) && JailOrdered(t)
    ensures t[0] == Open(argv[0], ReadExec, o.openFd)
  {
    var fd := o.openFd;
    var fail := [Exit(FAILURE, SyscallError)];
    var afterOpen := [Open(argv[0], ReadExec, fd)];
    var afterAttach := afterOpen + [JailAttach(jid, o.attachRc)];
    var afterExec := afterAttach + [Fexecve(fd, argv, envp, o.execOk)];
    var t :=
      if fd < 0 then afterOpen + fail
      else if o.attachRc != 0 then afterAttach + fail
      else if !o.execOk then afterExec + fail
      else afterExec;
    assert fd >= 0 ==> t[1].JailAttach?;
    assert fd >= 0 && o.attachRc == 0 ==> OpenedForExec(t[0]) && Attached(t[1]) && t[2].Fexecve?;
    t
  }

  /**
   * Which steps of jexec_static happen: the jail is attached (to jid) exactly
   * when the target was opened, the descriptor is executed, with argv and
   * envp unchanged, exactly when the attach succeeded too, and the image is
   * replaced exactly when all three succeed. Nothing is loaded.
   */
  lemma StaticSteps(jid: int, argv: seq<string>, envp: seq<string>, o: StaticOs)
    requires |argv| > 0
    ensures var t := StaticLaunch(jid, argv, envp, o);
      ((exists i :: 0 <= i < |t| && t[i].JailAttach?) <==> o.openFd >= 0) &&
      (forall i :: 0 <= i < |t| && t[i].JailAttach? ==> t[i] == JailAttach(jid, o.attachRc)) &&
      ((exists i :: 0 <= i < |t| && t[i].Fexecve?) <==> o.openFd >= 0 && o.attachRc == 0) &&
      (forall i :: 0 <= i < |t| && t[i].Fexecve? ==> t[i] == Fexecve(o.openFd, argv, envp, o.execOk)) &&
      (t[|t| - 1].Fexecve? <==> o.openFd >= 0 && o.attachRc == 0 && o.execOk) &&
      (forall e | e in t :: !e.DlOpen?)
  {
    var t := StaticLaunch(jid, argv, envp, o);
    var open, fail := Open(argv[0], ReadExec, o.openFd), Exit(FAILURE, SyscallError);
    var attach, exec := JailAttach(jid, o.attachRc), Fexecve(o.openFd, argv, envp, o.execOk);
    if o.openFd < 0 {
      assert t == [open, fail];
    } else if o.attachRc != 0 {
      assert t == [open, attach, fail];
      assert t[1].JailAttach?;
    } else if !o.execOk {
      assert t == [open, attach, exec, fail];
      assert t[1].JailAttach? && t[2].Fexecve?;
    } else {
      assert t == [open, attach, exec];
      assert t[1].JailAttach? && t[2].Fexecve?;
    }
  }

  /** jexec_static: each step's failure ends the process before the next step runs. */
  method JexecStatic(jid: int, argv: seq<string>, envp: seq<string>, o: StaticOs) returns (log: seq<Event>)
    requires |argv| > 0
    ensures log == StaticLaunch(jid, argv, envp, o)
  {
    var fd := o.openFd;
    log := [Open(argv[0], ReadExec, fd)];
    if fd < 0 {
      log := log + [Exit(FAILURE, SyscallError)];
      return;
    }
    log := log + [JailAttach(jid, o.attachRc)];
    if o.attachRc != 0 {
      log := log + [Exit(FAILURE, SyscallError)];
      return;
    }
    log := log + [Fexecve(fd, argv, envp, o.execOk)];
    if !o.execOk {
      log := log + [Exit(FAILURE, SyscallError)];
    }
  }

  /** The runtime linker jexec_dynamic loads, and the entry symbol it looks up. */
  const LOADER_PATH := "/libexec/ld-elf.so.1"
  const RTLD_SYMBOL := "_rtld"

  /**
   * The outcomes of the calls jexec_dynamic makes, and whether it was built
   * for x86_64 (the only architecture with a bootstrap body).
   */
  datatype LoaderOs = LoaderOs(
    x86_64: bool,
    loaderFd: int,            // open(LOADER_PATH)
    dlopen: Option<nat>,      // handle, or NULL
    dlsym: Option<nat>,       // address of _rtld, or NULL
    fstat: Option<nat>,       // st_size, or failure
    mmap: Option<nat>)        // mapped address, or MAP_FAILED

  /** Every preparation step succeeded on an x86_64 build. */
  predicate LoaderReady(o: LoaderOs)
  {
    o.x86_64 && o.loaderFd >= 0 && o.dlopen.Some? && o.dlsym.Some? && o.fstat.Some? && o.mmap.Some?
  }

  /**
   * The descriptor jexec_dynamic holds for the target executable: it is
   * initialised to -1 and never opened, and it is what mmap and AT_EXECFD get.
   */
  const UNOPENED_FD := -1

  /** The calls jexec_dynamic makes. */
  function DynamicLaunch(jid: int, argv: seq<string>, envp: seq<string>, o: LoaderOs): (t: seq<Event>)
    ensures Terminates(t) && FailFast(t)
    ensures forall e | e in t :: !e.JailAttach? && !e.Fexecve?
    ensures t[|t| - 1].Exit? && t[|t| - 1].status == FAILURE
  {
    var notSupported := Exit(FAILURE, Unsupported(ENOSYS));
    var fail := Exit(FAILURE, SyscallError);
    var open := Open(LOADER_PATH, ReadExec, o.loaderFd);
    var load := DlOpen(LOADER_PATH, o.dlopen);
    var t :=
      if !o.x86_64 then [notSupported]
      else if o.loaderFd < 0 then [open, fail]
      else if o.dlopen.None? then [open, load, fail]
      else
        var handle := o.dlopen.value;
        var lookup := DlSym(handle, RTLD_SYMBOL, o.dlsym);
        var stat := Fstat(o.loaderFd, o.fstat);
        if o.dlsym.None? then [open, load, lookup, fail]
        else if o.fstat.None? then [open, load, lookup, stat, fail]
        else
          var mapped := Mmap(o.fstat.value, UNOPENED_FD, o.mmap);
          if o.mmap.None? then [open, load, lookup, stat, mapped, fail]
          else [open, load, lookup, stat, mapped, DlClose(handle), notSupported];
    t
  }

  /**
   * How jexec_dynamic ends: with ENOSYS when it is not built for x86_64 or
   * when every preparation step succeeded, and only then does it dlclose the
   * loader handle, once, right before exiting; any failed step exits first.
   */
  lemma DynamicEnding(jid: int, argv: seq<string>, envp: seq<string>, o: LoaderOs)
    ensures var t := DynamicLaunch(jid, argv, envp, o);
      (t[|t| - 1] == Exit(FAILURE, Unsupported(ENOSYS)) <==> !o.x86_64 || LoaderReady(o)) &&
      ((exists i :: 0 <= i < |t| && t[i].DlClose?) <==> LoaderReady(o)) &&
      (forall i :: 0 <= i < |t| && t[i].DlClose? ==> i == |t| - 2 && o.dlopen == Some(t[i].handle))
  {
    var t := DynamicLaunch(jid, argv, envp, o);
    if LoaderReady(o) {
      assert t == [Open(LOADER_PATH, ReadExec, o.loaderFd), DlOpen(LOADER_PATH, o.dlopen),
        DlSym(o.dlopen.value, RTLD_SYMBOL, o.dlsym), Fstat(o.loaderFd, o.fstat),
        Mmap(o.fstat.value, UNOPENED_FD, o.mmap), DlClose(o.dlopen.value), Exit(FAILURE, Unsupported(ENOSYS))];
      assert t[5].DlClose?;
    } else {
      forall i | 0 <= i < |t| ensures !t[i].DlClose? {
        if o.x86_64 && o.loaderFd >= 0 && o.dlopen.Some? && o.dlsym.Some? && o.fstat.Some? {
          assert t == [Open(LOADER_PATH, ReadExec, o.loaderFd), DlOpen(LOADER_PATH, o.dlopen),
            DlSym(o.dlopen.value, RTLD_SYMBOL, o.dlsym), Fstat(o.loaderFd, o.fstat),
            Mmap(o.fstat.value, UNOPENED_FD, o.mmap), Exit(FAILURE, SyscallError)];
        } else if o.x86_64 && o.loaderFd >= 0 && o.dlopen.Some? {
          assert |t| <= 5 && t[|t| - 1].Exit?;
          assert i < 2 || t[i].DlSym? || t[i].Fstat? || t[i].Exit?;
        }
      }
    }
  }

  /** The auxiliary vector jexec_dynamic has built by the time it gives up, if it got that far. */
  function DynamicAux(o: LoaderOs): (aux: Option<seq<AuxEntry>>)
    ensures aux.Some? <==> LoaderReady(o)
  {
    if LoaderReady(o) then Some(AuxInfo(o.mmap.value, UNOPENED_FD)) else None
  }

  /**
   * jexec_dynamic, with the auxiliary vector it fills in; the stack it
   * would build and the call into the runtime linker are not in the code.
   */
  method JexecDynamic(jid: int, argv: seq<string>, envp: seq<string>, o: LoaderOs)
    returns (log: seq<Event>, aux: Option<seq<AuxEntry>>)
    ensures log == DynamicLaunch(jid, argv, envp, o)
    ensures aux == DynamicAux(o)
  {
    aux := None;
    if o.x86_64 {
      var fd := UNOPENED_FD;
      var loaderFd := o.loaderFd;
      log := [Open(LOADER_PATH, ReadExec, loaderFd)];
      if loaderFd < 0 {
        log := log + [Exit(FAILURE, SyscallError)];
        return;
      }
      log := log + [DlOpen(LOADER_PATH, o.dlopen)];
      if o.dlopen.None? {
        log := log + [Exit(FAILURE, SyscallError)];
        return;
      }
      var ldElf := o.dlopen.value;
      log := log + [DlSym(ldElf, RTLD_SYMBOL, o.dlsym)];
      if o.dlsym.None? {
        log := log + [Exit(FAILURE, SyscallError)];
        return;
      }
      log := log + [Fstat(loaderFd, o.fstat)];
      if o.fstat.None? {
        log := log + [Exit(FAILURE, SyscallError)];
        return;
      }
      var size := o.fstat.value;
      log := log + [Mmap(size, fd, o.mmap)];
      if o.mmap.None? {
        log := log + [Exit(FAILURE, SyscallError)];
        return;
      }
      var loader := o.mmap.value;
      aux := Some(AuxInfo(loader, fd));
      log := log + [DlClose(ldElf)];
    } else {
      log := [];
    }
    log := log + [Exit(FAILURE, Unsupported(ENOSYS))];
  }

  /**
   * The mapping jexec_dynamic asks for names the target descriptor, which is
   * still -1, rather than the loader's descriptor it just opened and stat'ed.
   */
  lemma MapsUnopenedDescriptor(jid: int, argv: seq<string>, envp: seq<string>, o: LoaderOs)
    ensures forall e | e in DynamicLaunch(jid, argv, envp, o) :: e.Mmap? ==> e.fd == -1 && e.fd != o.loaderFd
  {
  }

  /**
   * The vector it builds takes AT_EXECFD from the same fd, which is never
   * assigned after it is set to -1, so it advertises -1 as the executable's
   * descriptor, beside the address the mapping returned as the loader base.
   */
  lemma AuxCarriesUnopenedDescriptor(o: LoaderOs)
    requires LoaderReady(o)
    ensures var m := AuxRead(DynamicAux(o).value);
      AT_EXECFD in m && m[AT_EXECFD] == -1 &&
      AT_BASE in m && m[AT_BASE] == o.mmap.value &&
      AT_PAGESIZES in m && m[AT_PAGESIZES] == 0
  {
    AuxInfoAsRead(o.mmap.value, UNOPENED_FD);
  }
}
