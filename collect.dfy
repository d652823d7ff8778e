/**
 * Finding the test runner's configuration file (config.py lines 64-126).
 *
 * The test runner is run with `--collect-only` and a plugin, CollectConfig,
 * whose command-line hook records the runner's ini file and stops the run.
 * The runner itself is outside the model: `host` says, for each
 * invocation, whether the runner reaches the hook (and with which
 * configuration object) and how the run ends when the hook does not stop
 * it.  A raised `StopCollect` is the hook returning `true`.
 */
module Collect {
  import opened Outcomes

  /** The option appended to the runner's arguments on line 94. */
  const CollectOnlyFlag: string := "--collect-only"

  /**
   * The runner's configuration object as the hook sees it (lines 81-86):
   * newer runners have an `inifile` attribute, older ones keep the path at
   * `inicfg.config.path`.  None is Python's `None`; a path is its text.
   */
  datatype HostConfig = WithInifile(inifile: Option<string>) | WithInicfg(inicfgPath: Option<string>)

  /** The ini file the hook reads from either spelling. */
  function IniFile(config: HostConfig): Option<string> {
    match config
    case WithInifile(p) => p
    case WithInicfg(p) => p
  }

  /** Python truthiness of the ini file: set, and not the empty text. */
  predicate Truthy(p: Option<string>) {
    p.Some? && p.value != ""
  }

  /**
   * The plugin of lines 72-89.  `path` is None until the hook has seen a
   * truthy ini file.
   */
  class CollectConfig {
    var path: Option<string>

    /** Line 78. */
    constructor ()
      ensures path == None
    {
      path := None;
    }

    /**
     * `pytest_cmdline_main` (lines 80-89): records the ini file and stops
     * the run (`stop`, the raised StopCollect) exactly when the ini file is
     * truthy; otherwise the run goes on and nothing is recorded.
     */
    method PytestCmdlineMain(config: HostConfig) returns (stop: bool)
      modifies this
      ensures stop <==> Truthy(IniFile(config))
      ensures stop ==> path == IniFile(config)
      ensures !stop ==> path == old(path)
    {
      var inifile := IniFile(config);
      stop := false;
      if inifile.Some? && inifile.value != "" {
        path := Some(inifile.value);
        stop := true;
      }
    }
  }

  /** One call of the runner: its arguments, and whether output is silenced. */
  datatype Invocation = Invocation(argv: seq<string>, silenced: bool)

  /** How the runner's main function ends when the hook does not stop it. */
  datatype HostEnd = Exited(code: int) | Threw(exc: Exc)

  /** What the runner does on one invocation: the hook call it makes, if any, then how it ends. */
  datatype HostRun = HostRun(hook: Option<HostConfig>, end: HostEnd)

  /** The runner's exit codes used on lines 101-104; their values are not part of this model. */
  datatype ExitCodes = ExitCodes(ok: int, noTestsCollected: int, interrupted: int)

  /** The hook was reached with a truthy ini file, so the run stopped. */
  predicate Stopped(run: HostRun) {
    run.hook.Some? && Truthy(IniFile(run.hook.value))
  }

  /**
   * The outcome of `_run_pytest_collect` for one run of the runner: the
   * recorded path when the hook stopped the run, the runner's own
   * exception, KeyboardInterrupt for the interrupted exit code, CollectError
   * for any exit code other than the two good ones, else the unset path.
   */
  function CollectOutcome(run: HostRun, codes: ExitCodes): Outcome<Option<string>> {
    if Stopped(run) then Returned(IniFile(run.hook.value))
    else
      match run.end
      case Threw(e) => Raised(e)
      case Exited(code) =>
        if code == codes.interrupted then Raised(KeyboardInterrupt)
        else if code != codes.ok && code != codes.noTestsCollected then Raised(CollectError)
        else Returned(None)
  }

  /**
   * A path comes back only when the hook stopped the run, and it is then
   * the ini file's text; a run the hook did not stop gives no path.
   */
  lemma PathOnlyFromHook(run: HostRun, codes: ExitCodes)
    ensures CollectOutcome(run, codes).Returned? && CollectOutcome(run, codes).value.Some?
        <==> Stopped(run)
    ensures Stopped(run) ==> CollectOutcome(run, codes) == Returned(Some(IniFile(run.hook.value).value))
  {
  }

  /**
   * For a run that ends with an exit code: KeyboardInterrupt exactly for
   * the interrupted code, CollectError exactly for the other codes outside
   * the two good ones, and the unset path exactly for the good ones.
   */
  lemma ExitCodeMapping(run: HostRun, codes: ExitCodes)
    requires !Stopped(run) && run.end.Exited?
    requires codes.interrupted != codes.ok && codes.interrupted != codes.noTestsCollected
    ensures var c := run.end.code; var r := CollectOutcome(run, codes);
      && (r == Raised(KeyboardInterrupt) <==> c == codes.interrupted)
      && (r == Raised(CollectError) <==> c !in {codes.ok, codes.noTestsCollected, codes.interrupted})
      && (r == Returned(None) <==> c in {codes.ok, codes.noTestsCollected})
  {
  }

  /** The invocation of the runner for the given arguments. */
  function CollectInvocation(pytestArgs: seq<string>, silenced: bool): Invocation {
    Invocation(pytestArgs + [CollectOnlyFlag], silenced)
  }

  /**
   * `_run_pytest_collect` (lines 92-107): a fresh plugin, the runner called
   * with the arguments followed by `--collect-only`, the StopCollect caught
   * and the exit code checked.  Its outcome is CollectOutcome of what the
   * runner does on that invocation.
   */
  method RunPytestCollect(pytestArgs: seq<string>, silenced: bool, host: Invocation -> HostRun, codes: ExitCodes)
    returns (r: Outcome<Option<string>>, invocation: Invocation)
    ensures invocation.argv == pytestArgs + [CollectOnlyFlag] && invocation.silenced == silenced
    ensures r == CollectOutcome(host(invocation), codes)
  {
    var plugin := new CollectConfig();
    invocation := CollectInvocation(pytestArgs, silenced);
    var run := host(invocation);
    if run.hook.Some? {
      var stop := plugin.PytestCmdlineMain(run.hook.value);
      if stop {
        return Returned(plugin.path), invocation;
      }
    }
    match run.end {
      case Threw(e) =>
        r := Raised(e);
      case Exited(code) =>
        if code == codes.interrupted {
          r := Raised(KeyboardInterrupt);
        } else if code != codes.ok && code != codes.noTestsCollected {
          r := Raised(CollectError);
        } else {
          r := Returned(plugin.path);
        }
    }
  }

  /** What discovery did: its outcome, the runner invocations in order, and the warnings printed. */
  datatype Discovered = Discovered(outcome: Outcome<Option<string>>, runs: seq<Invocation>, warnings: nat)

  /**
   * The retry policy of `_collect_config` (lines 110-126): a silenced
   * attempt first when `silent`; if it raises one of the exceptions its
   * `except` names, a warning and a second attempt without silencing.
   */
  function Discovery(pytestArgs: seq<string>, silent: bool, host: Invocation -> HostRun, codes: ExitCodes): Discovered {
    var loud := CollectInvocation(pytestArgs, false);
    if !silent then Discovered(CollectOutcome(host(loud), codes), [loud], 0)
    else
      var quiet := CollectInvocation(pytestArgs, true);
      var first := CollectOutcome(host(quiet), codes);
      if first.Returned? || !CaughtBySilentAttempt(first.exc) then Discovered(first, [quiet], 0)
      else Discovered(CollectOutcome(host(loud), codes), [quiet, loud], 1)
  }

  /**
   * The retry policy's guarantees: one or two runs, each with
   * `--collect-only` appended; without `silent` exactly one unsilenced run;
   * a second run only after a silenced first run raised a caught exception,
   * in which case one warning is printed, the second run is unsilenced and
   * its outcome is the result; and a caught exception from the silenced
   * run always causes that retry, while a return or an uncaught exception
   * ends discovery after the one run.
   */
  lemma RetryPolicy(pytestArgs: seq<string>, silent: bool, host: Invocation -> HostRun, codes: ExitCodes)
    ensures var d := Discovery(pytestArgs, silent, host, codes);
      && 1 <= |d.runs| <= 2
      && (forall i :: 0 <= i < |d.runs| ==> d.runs[i].argv == pytestArgs + [CollectOnlyFlag])
      && (!silent ==> d.runs == [CollectInvocation(pytestArgs, false)] && d.warnings == 0)
      && (silent ==> d.runs[0].silenced)
      && (d.warnings == 1 <==> |d.runs| == 2)
      && (|d.runs| == 2 ==>
            && var first := CollectOutcome(host(d.runs[0]), codes);
            && first.Raised? && CaughtBySilentAttempt(first.exc)
            && !d.runs[1].silenced
            && d.outcome == CollectOutcome(host(d.runs[1]), codes))
      && (|d.runs| == 1 ==> d.outcome == CollectOutcome(host(d.runs[0]), codes))
      && var first := CollectOutcome(host(CollectInvocation(pytestArgs, true)), codes);
      && (silent && first.Raised? && CaughtBySilentAttempt(first.exc) ==>
            d == Discovered(CollectOutcome(host(CollectInvocation(pytestArgs, false)), codes),
                            [CollectInvocation(pytestArgs, true), CollectInvocation(pytestArgs, false)], 1))
      && (silent && !(first.Raised? && CaughtBySilentAttempt(first.exc)) ==>
            d == Discovered(first, [CollectInvocation(pytestArgs, true)], 0))
  {
  }

  /** A base exception outside the caught families, raised by the silenced attempt, ends discovery with it. */
  lemma UncaughtPropagates(pytestArgs: seq<string>, host: Invocation -> HostRun, codes: ExitCodes)
    requires CollectOutcome(host(CollectInvocation(pytestArgs, true)), codes) == Raised(OtherBaseException)
    ensures Discovery(pytestArgs, true, host, codes) == Discovered(Raised(OtherBaseException), [CollectInvocation(pytestArgs, true)], 0)
  {
  }

  /**
   * `_collect_config` (lines 110-126), running the runner through
   * RunPytestCollect: its outcome, the invocations it made and the warnings
   * it printed are those of Discovery.
   */
  method CollectConfigPath(pytestArgs: seq<string>, silent: bool, host: Invocation -> HostRun, codes: ExitCodes)
    returns (r: Outcome<Option<string>>, runs: seq<Invocation>, warnings: nat)
    ensures Discovered(r, runs, warnings) == Discovery(pytestArgs, silent, host, codes)
  {
    runs, warnings := [], 0;
    if silent {
      var first, invocation := RunPytestCollect(pytestArgs, true, host, codes);
      runs := [invocation];
      if first.Returned? || !CaughtBySilentAttempt(first.exc) {
        return first, runs, warnings;
      }
      warnings := 1;
    }
    var invocation;
    r, invocation := RunPytestCollect(pytestArgs, false, host, codes);
    runs := runs + [invocation];
  }
}
