/** `start_vpn`: the argument vector the client is started with, and the order
    of the steps around the start (privilege check, stopping running clients,
    log file setup, credentials, the start itself, the outcome test and the
    log file's removal). Processes, the terminal and time are not modelled:
    their outcomes are inputs. */
module Launch {
  import opened Wrappers
  import opened Seqs
  import opened Classifier
  import opened Discovery
  import opened Credentials

  const DebugLog: string := "/tmp/openvpn-debug.log"
  const NormalLog: string := "/tmp/openvpn.log"

  /** The log file of a run. */
  function LogFile(debug: bool): (r: string)
    ensures r == DebugLog <==> debug
  {
    if debug then DebugLog else NormalLog
  }

  /** The options that depend on the mode. */
  function ModeOptions(debug: bool): seq<string>
  {
    if debug then ["--verb", "4", "--daemon", "openvpn-debug", "--log", LogFile(debug)]
    else ["--daemon", "openvpn", "--log", LogFile(debug)]
  }

  /** The whole argument vector, as the successive `cmd.extend` calls leave it. */
  function ClientCommand(debug: bool, fullPath: string, user: string, cred: Option<string>): (r: seq<string>)
    ensures |r| == (if debug then 12 else 10) + (if cred.Some? then 2 else 0)
  {
    ["sudo", "openvpn"] + ModeOptions(debug) + ["--config", fullPath, "--user", user]
      + (if cred.Some? then ["--auth-user-pass", cred.value] else [])
  }

  /** Building the vector step by step. */
  method BuildCommand(debug: bool, fullPath: string, user: string, cred: Option<string>) returns (cmd: seq<string>)
    ensures cmd == ClientCommand(debug, fullPath, user, cred)
  {
    var logFile := LogFile(debug);
    cmd := ["sudo", "openvpn"];
    if debug {
      cmd := cmd + ["--verb", "4", "--daemon", "openvpn-debug", "--log", logFile];
    } else {
      cmd := cmd + ["--daemon", "openvpn", "--log", logFile];
    }
    cmd := cmd + ["--config", fullPath, "--user", user];
    if cred.Some? {
      cmd := cmd + ["--auth-user-pass", cred.value];
    }
  }

  /** How the client reads the arguments after the program name: as flag and
      value pairs. */
  function Pairs(args: seq<string>): seq<(string, string)>
    requires |args| % 2 == 0
  {
    if args == [] then [] else [(args[0], args[1])] + Pairs(args[2..])
  }

  /** The value given for `flag`, if any (the first one). */
  function Lookup(pairs: seq<(string, string)>, flag: string): (r: Option<string>)
    ensures r.Some? <==> exists k :: 0 <= k < |pairs| && pairs[k].0 == flag
  {
    if pairs == [] then None
    else if pairs[0].0 == flag then Some(pairs[0].1)
    else Lookup(pairs[1..], flag)
  }

  function Flags(pairs: seq<(string, string)>): (r: seq<string>)
    ensures |r| == |pairs|
    ensures forall k :: 0 <= k < |pairs| ==> r[k] == pairs[k].0
  {
    seq(|pairs|, k requires 0 <= k < |pairs| => pairs[k].0)
  }

  lemma {:induction false} PairsAppend(a: seq<string>, b: seq<string>)
    requires |a| % 2 == 0 && |b| % 2 == 0
    ensures Pairs(a + b) == Pairs(a) + Pairs(b)
    decreases |a|
  {
    if a == [] {
      assert a + b == b;
    } else {
      assert (a + b)[2..] == a[2..] + b;
      PairsAppend(a[2..], b);
    }
  }

  /** The options of a start, flag by flag, in the three groups the source
      adds them in. */
  function ModePairs(debug: bool): seq<(string, string)>
  {
    if debug then [("--verb", "4"), ("--daemon", "openvpn-debug"), ("--log", LogFile(debug))]
    else [("--daemon", "openvpn"), ("--log", LogFile(debug))]
  }

  function AuthPairs(cred: Option<string>): seq<(string, string)>
  {
    if cred.Some? then [("--auth-user-pass", cred.value)] else []
  }

  function ClientOptions(debug: bool, fullPath: string, user: string, cred: Option<string>): seq<(string, string)>
  {
    ModePairs(debug) + [("--config", fullPath), ("--user", user)] + AuthPairs(cred)
  }

  lemma PairsCons(flag: string, value: string, rest: seq<string>)
    requires |rest| % 2 == 0
    ensures Pairs([flag, value] + rest) == [(flag, value)] + Pairs(rest)
  {
    assert ([flag, value] + rest)[2..] == rest;
  }

  lemma ModeOptionsPairs(debug: bool)
    ensures |ModeOptions(debug)| % 2 == 0 && Pairs(ModeOptions(debug)) == ModePairs(debug)
  {
    var log := LogFile(debug);
    PairsCons("--log", log, []);
    assert ["--log", log] == ["--log", log] + [];
    if debug {
      PairsCons("--daemon", "openvpn-debug", ["--log", log]);
      PairsCons("--verb", "4", ["--daemon", "openvpn-debug"] + ["--log", log]);
      assert ModeOptions(debug) == ["--verb", "4"] + (["--daemon", "openvpn-debug"] + ["--log", log]);
    } else {
      PairsCons("--daemon", "openvpn", ["--log", log]);
      assert ModeOptions(debug) == ["--daemon", "openvpn"] + ["--log", log];
    }
  }

  lemma CommonOptionsPairs(fullPath: string, user: string, cred: Option<string>)
    ensures var auth := if cred.Some? then ["--auth-user-pass", cred.value] else [];
      Pairs(["--config", fullPath, "--user", user] + auth) == [("--config", fullPath), ("--user", user)] + AuthPairs(cred)
  {
    var auth := if cred.Some? then ["--auth-user-pass", cred.value] else [];
    assert Pairs(auth) == AuthPairs(cred) by {
      if cred.Some? {
        PairsCons("--auth-user-pass", cred.value, []);
        assert auth == ["--auth-user-pass", cred.value] + [];
      }
    }
    PairsCons("--user", user, auth);
    PairsCons("--config", fullPath, ["--user", user] + auth);
    assert ["--config", fullPath, "--user", user] + auth == ["--config", fullPath] + (["--user", user] + auth);
  }

  /** The vector is `sudo openvpn` followed by the options of the start, as
      flag and value pairs. */
  lemma CommandPairs(debug: bool, fullPath: string, user: string, cred: Option<string>)
    ensures var cmd := ClientCommand(debug, fullPath, user, cred);
      && cmd[..2] == ["sudo", "openvpn"]
      && |cmd| % 2 == 0
      && Pairs(cmd[2..]) == ClientOptions(debug, fullPath, user, cred)
  {
    var cmd := ClientCommand(debug, fullPath, user, cred);
    var auth := if cred.Some? then ["--auth-user-pass", cred.value] else [];
    var head := ["sudo", "openvpn"];
    var mode := ModeOptions(debug);
    var rest := ["--config", fullPath, "--user", user] + auth;
    assert cmd[2..] == mode + rest;
    ModeOptionsPairs(debug);
    CommonOptionsPairs(fullPath, user, cred);
    PairsAppend(mode, rest);
  }

  /** A flag given once reads back as its value. */
  lemma {:induction false} LookupFound(pairs: seq<(string, string)>, k: nat)
    requires k < |pairs|
    requires forall j :: 0 <= j < k ==> pairs[j].0 != pairs[k].0
    ensures Lookup(pairs, pairs[k].0) == Some(pairs[k].1)
  {
    if k > 0 {
      LookupFound(pairs[1..], k - 1);
    }
  }

  /** The six flags differ from each other (at their third character). */
  lemma FlagsDiffer()
    ensures "--verb"[2] == 'v' && "--daemon"[2] == 'd' && "--log"[2] == 'l'
    ensures "--config"[2] == 'c' && "--user"[2] == 'u' && "--auth-user-pass"[2] == 'a'
  {
  }

  /** A flag that is not given reads back as nothing. */
  lemma LookupMissing(pairs: seq<(string, string)>, flag: string)
    requires forall k :: 0 <= k < |pairs| ==> pairs[k].0 != flag
    ensures Lookup(pairs, flag) == None
  {
  }

  /** The options of a debug start read back as given. */
  lemma DebugOptionsRead(fullPath: string, user: string, cred: Option<string>)
    ensures var opts := ClientOptions(true, fullPath, user, cred);
      && Lookup(opts, "--verb") == Some("4")
      && Lookup(opts, "--daemon") == Some("openvpn-debug")
      && Lookup(opts, "--log") == Some(DebugLog)
      && Lookup(opts, "--config") == Some(fullPath)
      && Lookup(opts, "--user") == Some(user)
      && Lookup(opts, "--auth-user-pass") == cred
  {
    var opts := ClientOptions(true, fullPath, user, cred);
    FlagsDiffer();
    LookupFound(opts, 0);
    LookupFound(opts, 1);
    LookupFound(opts, 2);
    LookupFound(opts, 3);
    LookupFound(opts, 4);
    if cred.Some? {
      LookupFound(opts, 5);
    } else {
      LookupMissing(opts, "--auth-user-pass");
    }
  }

  /** The options of a normal start read back as given, and there is no
      verbosity option. */
  lemma NormalOptionsRead(fullPath: string, user: string, cred: Option<string>)
    ensures var opts := ClientOptions(false, fullPath, user, cred);
      && Lookup(opts, "--verb") == None
      && Lookup(opts, "--daemon") == Some("openvpn")
      && Lookup(opts, "--log") == Some(NormalLog)
      && Lookup(opts, "--config") == Some(fullPath)
      && Lookup(opts, "--user") == Some(user)
      && Lookup(opts, "--auth-user-pass") == cred
  {
    var opts := ClientOptions(false, fullPath, user, cred);
    FlagsDiffer();
    LookupMissing(opts, "--verb");
    LookupFound(opts, 0);
    LookupFound(opts, 1);
    LookupFound(opts, 2);
    LookupFound(opts, 3);
    if cred.Some? {
      LookupFound(opts, 4);
    } else {
      LookupMissing(opts, "--auth-user-pass");
    }
  }

  /** The options come in the order verbosity (debug only), daemon name, log
      file, configuration, user, credentials file (only when there is one). */
  lemma ClientFlags(debug: bool, fullPath: string, user: string, cred: Option<string>)
    ensures Flags(ClientOptions(debug, fullPath, user, cred))
      == (if debug then ["--verb", "--daemon"] else ["--daemon"])
         + ["--log", "--config", "--user"] + (if cred.Some? then ["--auth-user-pass"] else [])
  {
  }

  /** The steps `start_vpn` takes, in order. */
  datatype Step =
    | VerifySudo
    | KillClients
    | SetupLog(logFile: string)
    | ObtainCredentials(configName: string)
    | Start(cmd: seq<string>)
    | FollowLog(logFile: string)
    | CheckRunning
    | RemoveLog(logFile: string)

  /** The credentials file `get_credentials` hands back, if any. */
  function CredFileOf(o: CredOutcome): (r: Option<string>)
    ensures r.Some? <==> !o.SaveFailed?
  {
    match o
    case Reused(path) => Some(path)
    case Saved(path, _) => Some(path)
    case SaveFailed => None
  }

  /** The steps of `start_vpn` before the start, on a run that reaches it: the
      sudo check, the kill, the log setup, and the credentials when needed. */
  function StartPrefix(debug: bool, needsCreds: bool, configName: string): seq<Step>
  {
    [VerifySudo, KillClients, SetupLog(LogFile(debug))]
    + (if needsCreds then [ObtainCredentials(configName)] else [])
  }

  /** The steps of the `try` block after the start and of its `finally`. */
  function ClientSteps(debug: bool, logFile: string, startOk: bool): seq<Step>
  {
    (if !startOk then [] else if debug then [FollowLog(logFile)] else [CheckRunning])
    + (if debug then [] else [RemoveLog(logFile)])
  }

  /** Whether `start_vpn` gets as far as starting the client: sudo and the log
      setup succeed, and credentials, when the configuration needs them, are
      obtained. */
  predicate Proceeds(sudoOk: bool, logSetupOk: bool, configText: string, credentials: CredOutcome)
  {
    sudoOk && logSetupOk && (NeedsCredentials(configText) ==> !credentials.SaveFailed?)
  }

  /** The steps `start_vpn` takes, in order, for the given outcomes. */
  function LaunchSteps(config: ConfigEntry, debug: bool, user: string, sudoOk: bool, logSetupOk: bool,
                       configText: string, credentials: CredOutcome, startOk: bool): seq<Step>
  {
    var needs := NeedsCredentials(configText);
    if !sudoOk then [VerifySudo]
    else if !logSetupOk then [VerifySudo, KillClients, SetupLog(LogFile(debug))]
    else if needs && credentials.SaveFailed? then StartPrefix(debug, true, config.name)
    else
      StartPrefix(debug, needs, config.name)
      + [Start(ClientCommand(debug, config.fullPath, user, if needs then CredFileOf(credentials) else None))]
      + ClientSteps(debug, LogFile(debug), startOk)
  }

  /** What the client's steps hold: no start and no credentials request; the
      log is followed exactly after a successful debug start, the running check
      happens exactly after a successful normal start, and the log file is
      removed, last, exactly in normal mode. */
  lemma ClientStepsFacts(debug: bool, logFile: string, startOk: bool)
    ensures var t := ClientSteps(debug, logFile, startOk);
      && (forall k :: 0 <= k < |t| ==> !t[k].Start? && !t[k].ObtainCredentials?)
      && (RemoveLog(logFile) in t <==> !debug)
      && (!debug ==> |t| > 0 && t[|t| - 1] == RemoveLog(logFile))
      && (FollowLog(logFile) in t <==> debug && startOk)
      && (CheckRunning in t <==> !debug && startOk)
  {
  }

  /** The aborts of `start_vpn`: the sudo check always comes first; a failing
      sudo check stops at once; otherwise the kill and the log setup follow,
      a failing log setup stops there, and a failed credentials request stops
      right after it. */
  lemma LaunchAborts(config: ConfigEntry, debug: bool, user: string, sudoOk: bool, logSetupOk: bool,
                     configText: string, credentials: CredOutcome, startOk: bool)
    ensures var steps := LaunchSteps(config, debug, user, sudoOk, logSetupOk, configText, credentials, startOk);
      && |steps| >= 1 && steps[0] == VerifySudo
      && (!sudoOk ==> steps == [VerifySudo])
      && (sudoOk ==> |steps| >= 3 && steps[1] == KillClients && steps[2] == SetupLog(LogFile(debug)))
      && (sudoOk && !logSetupOk ==> |steps| == 3)
      && (sudoOk && logSetupOk && NeedsCredentials(configText) && credentials.SaveFailed? ==>
            steps == [VerifySudo, KillClients, SetupLog(LogFile(debug)), ObtainCredentials(config.name)])
  {
  }

  /** Credentials are asked for exactly when sudo and the log setup succeed
      and the configuration needs them; the client is started exactly when
      `start_vpn` proceeds, after the first three steps, with the vector built
      from the configuration and the credentials file. */
  lemma LaunchCredentialsAndStart(config: ConfigEntry, debug: bool, user: string, sudoOk: bool, logSetupOk: bool,
                                  configText: string, credentials: CredOutcome, startOk: bool)
    ensures var steps := LaunchSteps(config, debug, user, sudoOk, logSetupOk, configText, credentials, startOk);
      && (ObtainCredentials(config.name) in steps <==> sudoOk && logSetupOk && NeedsCredentials(configText))
      && ((exists k :: 0 <= k < |steps| && steps[k].Start?) <==> Proceeds(sudoOk, logSetupOk, configText, credentials))
      && (forall k :: 0 <= k < |steps| && steps[k].Start? ==>
            k > 2 && steps[k].cmd == ClientCommand(debug, config.fullPath, user,
                                                   if NeedsCredentials(configText) then CredFileOf(credentials) else None))
  {
    var steps := LaunchSteps(config, debug, user, sudoOk, logSetupOk, configText, credentials, startOk);
    var needs := NeedsCredentials(configText);
    if Proceeds(sudoOk, logSetupOk, configText, credentials) {
      var prefix := StartPrefix(debug, needs, config.name);
      var cmd := ClientCommand(debug, config.fullPath, user, if needs then CredFileOf(credentials) else None);
      var tail := ClientSteps(debug, LogFile(debug), startOk);
      ClientStepsFacts(debug, LogFile(debug), startOk);
      StartSplits(prefix, Start(cmd), tail, ObtainCredentials(config.name));
      assert steps[|prefix|].Start?;
    }
  }

  /** The order of the steps on a run that gets as far as the start: exactly
      the sudo check, the kill, the log setup and the credentials request when
      needed, then the one start, and after it no start and no credentials
      request; the log is followed exactly after a successful debug start,
      the running check happens exactly after a successful normal start, and
      the log file is removed, last, exactly in normal mode. */
  predicate InOrder(steps: seq<Step>, debug: bool, needsCreds: bool, configName: string, startOk: bool)
  {
    var p := if needsCreds then 4 else 3;
    && |steps| > p
    && steps[..p] == [VerifySudo, KillClients, SetupLog(LogFile(debug))]
                     + (if needsCreds then [ObtainCredentials(configName)] else [])
    && steps[p].Start?
    && (forall k :: p < k < |steps| ==> !steps[k].Start? && !steps[k].ObtainCredentials?)
    && (FollowLog(LogFile(debug)) in steps <==> debug && startOk)
    && (CheckRunning in steps <==> !debug && startOk)
    && (RemoveLog(LogFile(debug)) in steps <==> !debug)
    && (!debug ==> steps[|steps| - 1] == RemoveLog(LogFile(debug)))
  }

  /** On a run that proceeds, the steps are in the order `InOrder` describes. */
  lemma LaunchSuccessOrder(config: ConfigEntry, debug: bool, user: string, sudoOk: bool, logSetupOk: bool,
                           configText: string, credentials: CredOutcome, startOk: bool)
    requires Proceeds(sudoOk, logSetupOk, configText, credentials)
    ensures InOrder(LaunchSteps(config, debug, user, sudoOk, logSetupOk, configText, credentials, startOk),
                    debug, NeedsCredentials(configText), config.name, startOk)
  {
    var needs := NeedsCredentials(configText);
    var prefix := StartPrefix(debug, needs, config.name);
    var cmd := ClientCommand(debug, config.fullPath, user, if needs then CredFileOf(credentials) else None);
    var tail := ClientSteps(debug, LogFile(debug), startOk);
    ClientStepsFacts(debug, LogFile(debug), startOk);
    StartSplits(prefix, Start(cmd), tail, FollowLog(LogFile(debug)));
    StartSplits(prefix, Start(cmd), tail, CheckRunning);
    StartSplits(prefix, Start(cmd), tail, RemoveLog(LogFile(debug)));
  }

  /** How the steps of a run that proceeds split around the start: the prefix,
      the start itself, then the client's steps, which start nothing and ask
      for no credentials. A step that is neither in the prefix nor the start
      occurs exactly when the client's steps hold it. */
  lemma StartSplits(prefix: seq<Step>, start: Step, tail: seq<Step>, x: Step)
    requires start.Start?
    requires forall k :: 0 <= k < |tail| ==> !tail[k].Start? && !tail[k].ObtainCredentials?
    ensures var s := prefix + [start] + tail;
      && s[..|prefix|] == prefix
      && s[|prefix|] == start
      && (forall k :: |prefix| < k < |s| ==> !s[k].Start? && !s[k].ObtainCredentials?)
      && (x !in prefix && x != start ==> (x in s <==> x in tail))
  {
    var s := prefix + [start] + tail;
    assert s[..|prefix|] == prefix;
    forall k | |prefix| < k < |s|
      ensures !s[k].Start? && !s[k].ObtainCredentials?
    {
      assert s[k] == tail[k - |prefix| - 1];
    }
  }

  /** `start_vpn`. The inputs stand for what the outside world does: whether
      `sudo -v` and the log file setup succeed, the configuration's text, what
      `get_credentials` ends with, whether the client starts, the log lines of
      a debug run, and whether a client is running after a normal start. After
      a connection in debug mode the user returns to the menu. The steps are
      those of `LaunchSteps`, and the lemmas above give what they hold. */
  method StartVpn(config: ConfigEntry, debug: bool, user: string, sudoOk: bool, logSetupOk: bool,
                  configText: string, credentials: CredOutcome, startOk: bool,
                  events: seq<ReadEvent>, running: bool)
    returns (ok: bool, steps: seq<Step>)
    ensures steps == LaunchSteps(config, debug, user, sudoOk, logSetupOk, configText, credentials, startOk)
    ensures ok <==> Proceeds(sudoOk, logSetupOk, configText, credentials) && startOk
                    && (if debug then Classify(events) else running)
    ensures |steps| >= 1 && steps[0] == VerifySudo
    ensures !sudoOk ==> !ok && steps == [VerifySudo]
    ensures sudoOk ==> |steps| >= 3 && steps[1] == KillClients && steps[2] == SetupLog(LogFile(debug))
    ensures sudoOk && !logSetupOk ==> !ok && |steps| == 3
    ensures sudoOk && logSetupOk && NeedsCredentials(configText) && credentials.SaveFailed? ==>
      !ok && steps == [VerifySudo, KillClients, SetupLog(LogFile(debug)), ObtainCredentials(config.name)]
    ensures ObtainCredentials(config.name) in steps <==> sudoOk && logSetupOk && NeedsCredentials(configText)
    ensures (exists k :: 0 <= k < |steps| && steps[k].Start?) <==>
      Proceeds(sudoOk, logSetupOk, configText, credentials)
    ensures forall k :: 0 <= k < |steps| && steps[k].Start? ==>
      k > 2 && steps[k].cmd == ClientCommand(debug, config.fullPath, user,
                                             if NeedsCredentials(configText) then CredFileOf(credentials) else None)
    ensures Proceeds(sudoOk, logSetupOk, configText, credentials) ==>
      InOrder(steps, debug, NeedsCredentials(configText), config.name, startOk)
  {
    steps := [VerifySudo];
    ok := false;
    if sudoOk {
      steps := steps + [KillClients];
      var logFile := LogFile(debug);
      steps := steps + [SetupLog(logFile)];
      if logSetupOk {
        var proceed, cred, credSteps := ObtainCredFile(config.name, NeedsCredentials(configText), credentials);
        steps := steps + credSteps;
        assert steps == StartPrefix(debug, NeedsCredentials(configText), config.name);
        if proceed {
          var cmd := BuildCommand(debug, config.fullPath, user, cred);
          var tail;
          ok, tail := RunClient(debug, logFile, startOk, events, running);
          steps := steps + [Start(cmd)] + tail;
        }
      }
    }
    // Every property below is one of the lemmas about `LaunchSteps`.
    assert steps == LaunchSteps(config, debug, user, sudoOk, logSetupOk, configText, credentials, startOk);
    LaunchAborts(config, debug, user, sudoOk, logSetupOk, configText, credentials, startOk);
    LaunchCredentialsAndStart(config, debug, user, sudoOk, logSetupOk, configText, credentials, startOk);
    if Proceeds(sudoOk, logSetupOk, configText, credentials) {
      LaunchSuccessOrder(config, debug, user, sudoOk, logSetupOk, configText, credentials, startOk);
    }
  }

  /** The credentials step: `get_credentials` is asked only for a
      configuration that needs credentials, and a failure there aborts. */
  method ObtainCredFile(configName: string, needsCreds: bool, credentials: CredOutcome)
    returns (proceed: bool, cred: Option<string>, steps: seq<Step>)
    ensures steps == if needsCreds then [ObtainCredentials(configName)] else []
    ensures proceed <==> !(needsCreds && credentials.SaveFailed?)
    ensures cred == if needsCreds then CredFileOf(credentials) else None
  {
    steps := [];
    cred := None;
    proceed := true;
    if needsCreds {
      steps := [ObtainCredentials(configName)];
      cred := CredFileOf(credentials);
      proceed := cred.Some?;
    }
  }

  /** The `try` block from the start on, and its `finally`: in debug mode the
      log is followed and the classifier decides; in normal mode the running
      check decides and the log file is removed. */
  method RunClient(debug: bool, logFile: string, startOk: bool, events: seq<ReadEvent>, running: bool)
    returns (ok: bool, steps: seq<Step>)
    ensures ok <==> startOk && (if debug then Classify(events) else running)
    ensures steps == ClientSteps(debug, logFile, startOk)
    ensures forall k :: 0 <= k < |steps| ==> !steps[k].Start? && !steps[k].ObtainCredentials?
    ensures RemoveLog(logFile) in steps <==> !debug
    ensures !debug ==> |steps| > 0 && steps[|steps| - 1] == RemoveLog(logFile)
    ensures FollowLog(logFile) in steps <==> debug && startOk
    ensures CheckRunning in steps <==> !debug && startOk
  {
    ClientStepsFacts(debug, logFile, startOk);
    steps := [];
    if !startOk {
      ok := false;
    } else if debug {
      steps := steps + [FollowLog(logFile)];
      ok := WaitForInitialization(events);
    } else {
      steps := steps + [CheckRunning];
      ok := running;
    }
    if !debug {
      steps := steps + [RemoveLog(logFile)];
    }
  }
}
