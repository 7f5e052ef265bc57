/**
 * The dispatcher, jexec, and the entry point, main: check the argument
 * count, resolve the jail, classify the command, and hand it to the
 * launcher its linkage calls for.
 */
module Entry {
  import opened Trace
  import opened Classifier
  import opened Launch

  /** The outcomes of every call one run can make. */
  datatype World = World(jid: int, probe: Probe, launch: StaticOs, loader: LoaderOs)

  /** A log that satisfies the three process-level properties. */
  predicate WellBehaved(t: seq<Event>)
  {
    Terminates(t) && FailFast(t) && JailOrdered(t)
  }

  /** A log without jail attachment or execution is trivially ordered. */
  lemma JailFree(t: seq<Event>)
    requires forall e | e in t :: !e.JailAttach? && !e.Fexecve?
    ensures JailOrdered(t)
  {
    assert forall i :: 0 <= i < |t| ==> t[i] in t;
  }

  /**
   * jexec: the command argv is classified first, completely, and only then
   * launched, statically when is_dynamic returned 0 and dynamically when it
   * returned 1; when classification fails nothing is launched.
   */
  function Jexec(jid: int, argv: seq<string>, envp: seq<string>, w: World): (t: seq<Event>)
    requires |argv| > 0
    ensures WellBehaved(t)
    ensures var c := ProbeLog(argv[0], w.probe);
      |c| <= |t| && t[..|c|] == c &&
      (Classify(w.probe) == Fatal ==> t == c) &&
      (Classify(w.probe) == Static ==> t[|c|..] == StaticLaunch(jid, argv, envp, w.launch)) &&
      (Classify(w.probe) == Dynamic ==> t[|c|..] == DynamicLaunch(jid, argv, envp, w.loader))
  {
    var c := ProbeLog(argv[0], w.probe);
    ProbeLogFailFast(argv[0], w.probe);
    ProbeLogQuiet(argv[0], w.probe);
    var launched :=
      match Classify(w.probe)
      case Fatal => []
      case Static => StaticLaunch(jid, argv, envp, w.launch)
      case Dynamic => DynamicLaunch(jid, argv, envp, w.loader);
    var t := c + launched;
    assert t[..|c|] == c && t[|c|..] == launched;
    assert WellBehaved(t) by {
      if Classify(w.probe) == Fatal {
        assert t == c;
        JailFree(c);
      } else if Classify(w.probe) == Static {
        QuietPrefix(c, launched);
      } else {
        JailFree(launched);
        QuietPrefix(c, launched);
      }
    }
    t
  }

  /**
   * Only a command classified static reaches the jail, and only one
   * classified dynamic loads the runtime linker; the jail entered is jid, and
   * the command is executed with argv and envp as given.
   */
  lemma JexecRoutes(jid: int, argv: seq<string>, envp: seq<string>, w: World)
    requires |argv| > 0
    ensures var t := Jexec(jid, argv, envp, w);
      ((exists i :: 0 <= i < |t| && t[i].JailAttach?) ==> Classify(w.probe) == Static) &&
      ((exists i :: 0 <= i < |t| && t[i].DlOpen?) ==> Classify(w.probe) == Dynamic) &&
      (forall i :: 0 <= i < |t| && t[i].JailAttach? ==> t[i].jid == jid) &&
      (forall i :: 0 <= i < |t| && t[i].Fexecve? ==> t[i].argv == argv && t[i].envp == envp)
  {
    var t := Jexec(jid, argv, envp, w);
    var c := ProbeLog(argv[0], w.probe);
    ProbeLogQuiet(argv[0], w.probe);
    var launched := t[|c|..];
    assert t == c + launched;
    forall i | 0 <= i < |t|
      ensures t[i].JailAttach? ==> Classify(w.probe) == Static && t[i].jid == jid
      ensures t[i].DlOpen? ==> Classify(w.probe) == Dynamic
      ensures t[i].Fexecve? ==> t[i].argv == argv && t[i].envp == envp
    {
      if i < |c| {
        assert t[i] == c[i] && c[i] in c;
      } else {
        var e := launched[i - |c|];
        assert t[i] == e && e in launched;
        if Classify(w.probe) == Static {
          StaticSteps(jid, argv, envp, w.launch);
        }
      }
    }
  }

  /**
   * main: fewer than three arguments is a usage error with no jail lookup
   * and no launch; a jail that cannot be resolved ends the run before jexec
   * is called; otherwise jexec runs argv[2..] in the resolved jail with the
   * environment unchanged.
   */
  function Run(argv: seq<string>, envp: seq<string>, w: World): (t: seq<Event>)
    ensures WellBehaved(t)
    ensures |argv| < 3 ==> t == [Exit(FAILURE, UsageError)]
    ensures |argv| >= 3 ==> t[0] == JailGetId(argv[1], w.jid)
    ensures |argv| >= 3 && w.jid == -1 ==> t == [JailGetId(argv[1], w.jid), Exit(FAILURE, ResolutionError)]
    ensures |argv| >= 3 && w.jid != -1 ==> t[1..] == Jexec(w.jid, argv[2..], envp, w)
  {
    if |argv| < 3 then
      [Exit(FAILURE, UsageError)]
    else if w.jid == -1 then
      [JailGetId(argv[1], w.jid), Exit(FAILURE, ResolutionError)]
    else
      var lookup := [JailGetId(argv[1], w.jid)];
      var rest := Jexec(w.jid, argv[2..], envp, w);
      QuietPrefix(lookup, rest);
      assert (lookup + rest)[1..] == rest;
      lookup + rest
  }

  /**
   * Across a whole run, the only jail entered is the one jail_getid
   * resolved, and the command reaches fexecve as argv[2..] with main's
   * environment.
   */
  lemma RunPassesThrough(argv: seq<string>, envp: seq<string>, w: World)
    ensures var t := Run(argv, envp, w);
      (forall i :: 0 <= i < |t| && t[i].JailAttach? ==> t[i].jid == w.jid) &&
      (forall i :: 0 <= i < |t| && t[i].Fexecve? ==> |argv| >= 3 && t[i].argv == argv[2..] && t[i].envp == envp)
  {
    var t := Run(argv, envp, w);
    if |argv| >= 3 && w.jid != -1 {
      var rest := Jexec(w.jid, argv[2..], envp, w);
      JexecRoutes(w.jid, argv[2..], envp, w);
      assert t[1..] == rest;
      forall i | 1 <= i < |t| ensures t[i] == rest[i - 1] {
        assert t[1..][i - 1] == t[i];
      }
    }
  }
}
