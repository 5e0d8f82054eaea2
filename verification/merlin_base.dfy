/** `pkg/nuclide-ocaml-base/lib/MerlinProcess.js` beyond the shared protocol: a
    single (2.3.1) dialect, a spawn environment whose PATH also holds opam's
    binary directory, and the module-wide instance `getInstance` hands out. */
module MerlinBase {
  import opened Wrappers
  import opened Text
  import JsObject
  import Paths
  import opened MerlinProtocol

  /** The environment: variable names to values, in `process.env` order. */
  type Env = JsObject.Obj<string>

  /** The outcome of `checkOutput('opam', ['config', 'var', 'bin'])`. */
  datatype Exec = Exec(exitCode: int, stdout: string)

  /** `${env.PATH}`: an unset variable prints as "undefined". */
  function PathText(env: Env): (t: string)
    ensures JsObject.Get(env, "PATH").Some? ==> t == JsObject.Get(env, "PATH").value
    ensures JsObject.Get(env, "PATH").None? ==> t == "undefined"
  {
    match JsObject.Get(env, "PATH")
    case Some(p) => p
    case None => "undefined"
  }

  /** `getEnvWithOpamBin`: when opam answers with exit code 0, a copy of the
      environment whose PATH gets the delimiter and opam's trimmed output
      appended, all other variables unchanged; otherwise the environment
      itself. `None` for `opam` failing to run (the promise rejects). */
  function EnvWithOpamBin(env: Env, opam: Option<Exec>, delimiter: string): (r: Result<Env, string>)
    ensures opam.None? <==> r.Err?
    ensures opam.Some? && opam.value.exitCode != 0 ==> r == Ok(env)
    ensures opam.Some? && opam.value.exitCode == 0 ==>
              r.Ok? && JsObject.Get(r.value, "PATH") == Some(PathText(env) + delimiter + Trim(opam.value.stdout))
    ensures r.Ok? ==> forall k :: k != "PATH" ==> JsObject.Get(r.value, k) == JsObject.Get(env, k)
    ensures r.Ok? && JsObject.Wf(env) ==> JsObject.Wf(r.value)
  {
    match opam
    case None => Err("opam could not be run")
    case Some(ret) =>
      if ret.exitCode == 0 then Ok(JsObject.SetProperty(env, "PATH", PathText(env) + delimiter + Trim(ret.stdout)))
      else Ok(env)
  }

  /** The opam directory is appended to whatever PATH held, so every directory
      searched before is still searched first. */
  lemma OpamBinExtendsPath(env: Env, out: string, delimiter: string)
    ensures var r := EnvWithOpamBin(env, Some(Exec(0, out)), delimiter);
            r.Ok? && JsObject.Get(r.value, "PATH").Some? &&
            StartsWith(JsObject.Get(r.value, "PATH").value, PathText(env) + delimiter)
  {
    var p := PathText(env) + delimiter;
    assert (p + Trim(out))[..|p|] == p;
  }

  /** A spawned ocamlmerlin behind the single wrapper class. */
  datatype Instance = Instance(channel: Channel, running: bool)

  /** `merlinProcessInstance` and `isInstalledCache`. */
  datatype State = State(instance: Option<Instance>, installedCache: Option<bool>)

  datatype Config = Config(pathToMerlin: Option<string>, merlinFlags: Option<string>)

  /** What the environment answers: the process environment and path
      delimiter, each `opam config var bin` run in turn, `which`'s exit code,
      the nearest `.merlin`, and the lines the new process will print. */
  datatype World = World(env: Env, delimiter: string, opamRuns: seq<Option<Exec>>, whichExitCode: int,
                         dotMerlin: Option<string>, output: seq<Option<Json>>)

  datatype Spawn = Spawn(path: string, args: seq<string>, cwd: string, env: Env)

  /** `getInstance`'s promise: an instance or null, rejected (opam could not be
      run), or never settled. */
  datatype Answer = Returned(instance: Option<Instance>) | Failed | Pending

  function HasDotMerlin(w: World): bool {
    w.dotMerlin.Some? && w.dotMerlin.value != ""
  }

  /** The next opam run, and the rest; an environment that has no more runs
      scripted makes opam fail to run. */
  function NextOpam(runs: seq<Option<Exec>>): (r: (Option<Exec>, seq<Option<Exec>>))
    ensures |runs| > 0 ==> r == (runs[0], runs[1..])
    ensures |runs| == 0 ==> r == (None, [])
  {
    if |runs| == 0 then (None, []) else (runs[0], runs[1..])
  }

  /** `isInstalled`: on the first call, computes the opam environment and runs
      `which` through a shell in it; afterwards answers from the cache. The
      second component is the opam runs left. */
  function IsInstalledWithOpam(cache: Option<bool>, w: World): (r: (Result<(Option<bool>, bool), string>, seq<Option<Exec>>))
    ensures cache.Some? ==> r == (Ok((cache, cache.value)), w.opamRuns)
    ensures cache.None? && r.0.Ok? ==> r.0.value.0 == Some(r.0.value.1)
                                       && (r.0.value.1 <==> w.whichExitCode == 0)
    ensures cache.None? ==> (r.0.Err? <==> NextOpam(w.opamRuns).0.None?)
  {
    if cache.Some? then (Ok((cache, cache.value)), w.opamRuns)
    else
      var (run, rest) := NextOpam(w.opamRuns);
      match EnvWithOpamBin(w.env, run, w.delimiter)
      case Err(e) => (Err(e), rest)
      case Ok(_) =>
        var (c, installed, _) := IsInstalled(cache, w.whichExitCode);
        (Ok((c, installed)), rest)
  }

  /** `getInstance(file)`. */
  function GetInstance(st: State, cfg: Config, w: World): (r: (State, Answer, Option<Spawn>))
    ensures st.instance.Some? && st.instance.value.running ==> r == (st, Returned(st.instance), None)
    ensures r.1 == Returned(None) ==> r.0.instance == st.instance && r.2.None?
    ensures r.1.Failed? ==> r.0.instance == st.instance && r.2.None?
    // the process gets the configured binary and flags, the `.merlin`
    // directory, and the environment with opam's directory on PATH
    ensures r.2.Some? ==>
              r.2.value.path == PathToMerlin(cfg.pathToMerlin) && r.2.value.args == MerlinFlags(cfg.merlinFlags)
              && r.2.value.cwd == SpawnCwd(w.dotMerlin, Paths.Dirname)
              && exists run :: EnvWithOpamBin(w.env, run, w.delimiter) == Ok(r.2.value.env)
    // every spawned process becomes the instance, before the `.merlin` push settles
    ensures r.2.Some? ==> r.0.instance.Some? && r.0.instance.value.running
    ensures r.1.Returned? && r.1.instance.Some? && r.2.Some? ==>
              r.0.instance == r.1.instance
              && r.1.instance.value.channel.sent ==
                 if HasDotMerlin(w) then [DotMerlinCommand(w.dotMerlin.value)] else []
  {
    if st.instance.Some? && st.instance.value.running then (st, Returned(st.instance), None)
    else
      var path := PathToMerlin(cfg.pathToMerlin);
      var flags := MerlinFlags(cfg.merlinFlags);
      var (installed, runs) := IsInstalledWithOpam(st.installedCache, w);
      match installed
      case Err(_) => (st, Failed, None)
      case Ok((cache, ok)) =>
        var st1 := st.(installedCache := cache);
        if !ok then (st1, Returned(None), None)
        else
          var (run, _) := NextOpam(runs);
          match EnvWithOpamBin(w.env, run, w.delimiter)
          case Err(_) => (st1, Failed, None)
          case Ok(env) =>
            var spawn := Spawn(path, flags, SpawnCwd(w.dotMerlin, Paths.Dirname), env);
            var inst := Instance(Channel([], w.output), true);
            if !HasDotMerlin(w) then (st1.(instance := Some(inst)), Returned(Some(inst)), Some(spawn))
            else
              var (ch, pushed) := PushDotMerlinPath(inst.channel, w.dotMerlin.value);
              var inst2 := inst.(channel := ch);
              (st1.(instance := Some(inst2)), if pushed.Resolved? then Returned(Some(inst2)) else Pending, Some(spawn))
  }

  /** On a first call, opam is asked twice: once for `which` and once for the
      spawn; the spawn sees the second answer. */
  lemma SpawnUsesSecondOpamRun(st: State, cfg: Config, w: World, a: string, b: string)
    requires !(st.instance.Some? && st.instance.value.running) && st.installedCache.None?
    requires w.whichExitCode == 0 && !HasDotMerlin(w)
    requires w.opamRuns == [Some(Exec(0, a)), Some(Exec(0, b))]
    ensures GetInstance(st, cfg, w).2.Some?
    ensures JsObject.Get(GetInstance(st, cfg, w).2.value.env, "PATH") == Some(PathText(w.env) + w.delimiter + Trim(b))
  {
  }
}
