/** `pkg/nuclide-ocaml-rpc/lib/MerlinProcess.js` beyond the shared protocol:
    probing ocamlmerlin's version, choosing the dialect from it, and the
    module-wide instance `getInstance` hands out. */
module MerlinRpc {
  import opened Wrappers
  import opened Text
  import JsObject
  import Paths
  import opened MerlinProtocol

  const VersionPrefix := "The Merlin toolkit version "
  const LegacyVersion := "2.3.1"
  const CurrentVersion := "2.5.0"

  predicate IsDigit(c: char) {
    '0' <= c <= '9'
  }

  /** `(\.\d)*` matched against the whole of `s`. */
  predicate DotPairs(s: string)
    decreases |s|
  {
    |s| == 0 || (|s| >= 2 && s[0] == '.' && IsDigit(s[1]) && DotPairs(s[2..]))
  }

  /** What may follow the first digit of `\d+(\.\d)*`: more digits, then dot pairs. */
  predicate VersionTail(s: string)
    decreases |s|
  {
    |s| == 0 || (IsDigit(s[0]) && VersionTail(s[1..])) || (s[0] == '.' && DotPairs(s))
  }

  /** `\d+(\.\d)*` matched against the whole of `v`. */
  predicate IsVersion(v: string) {
    |v| > 0 && IsDigit(v[0]) && VersionTail(v[1..])
  }

  lemma DotPairsHaveNoComma(s: string)
    requires DotPairs(s)
    ensures forall j :: 0 <= j < |s| ==> s[j] != ','
    decreases |s|
  {
    if |s| > 0 {
      DotPairsHaveNoComma(s[2..]);
      assert forall j :: 2 <= j < |s| ==> s[j] == s[2..][j - 2];
    }
  }

  lemma VersionTailHasNoComma(s: string)
    requires VersionTail(s)
    ensures forall j :: 0 <= j < |s| ==> s[j] != ','
    decreases |s|
  {
    if |s| > 0 {
      if IsDigit(s[0]) && VersionTail(s[1..]) {
        VersionTailHasNoComma(s[1..]);
        assert forall j :: 1 <= j < |s| ==> s[j] == s[1..][j - 1];
      } else {
        DotPairsHaveNoComma(s);
      }
    }
  }

  /** The version the regular expression `^The Merlin toolkit version
      (\d+(\.\d)*),` captures: the text between the prefix and the first comma,
      when it is a version. */
  function ParseVersion(s: string): (r: Option<string>)
  {
    if !StartsWith(s, VersionPrefix) then None
    else
      var rest := s[|VersionPrefix|..];
      if !Contains(rest, ",") then None
      else
        var v := BeforeFirst(rest, ",");
        if IsVersion(v) then Some(v) else None
  }

  /** The match succeeds with capture `v` exactly when the banner starts with
      the prefix, then `v`, then a comma, and `v` is a version. */
  lemma ParseVersionMeans(s: string, v: string)
    ensures ParseVersion(s) == Some(v) <==> StartsWith(s, VersionPrefix + v + ",") && IsVersion(v)
  {
    var P := VersionPrefix;
    if StartsWith(s, P + v + ",") && IsVersion(v) {
      var rest := s[|P|..];
      assert rest[..|v|] == v by {
        assert s[..|P + v + ","|][|P|..|P| + |v|] == v;
      }
      assert rest[|v|..|v| + 1] == "," by {
        assert s[..|P + v + ","|][|P| + |v|..|P| + |v| + 1] == ",";
      }
      assert StartsWith(rest, v) && OccursAt(rest, ",", |v|);
      OccursAtImpliesContains(rest, ",", |v|);
      VersionTailHasNoComma(v[1..]);
      assert forall j :: 1 <= j < |v| ==> v[j] == v[1..][j - 1];
      BeforeFirstUnique(rest, ",", v);
      assert s[..|P|] == P by {
        assert s[..|P + v + ","|][..|P|] == P;
      }
    }
    if ParseVersion(s) == Some(v) {
      var rest := s[|P|..];
      assert OccursAt(rest, ",", |v|);
      assert s[..|P + v + ","|] == s[..|P|] + rest[..|v|] + rest[|v|..|v| + 1];
    }
  }

  /** The banner ocamlmerlin prints for version `v` reads back as `v`. */
  lemma ParseVersionRoundTrip(v: string, rest: string)
    requires IsVersion(v)
    ensures ParseVersion(VersionPrefix + v + "," + rest) == Some(v)
  {
    var s := VersionPrefix + v + "," + rest;
    assert s[..|VersionPrefix + v + ","|] == VersionPrefix + v + ",";
    ParseVersionMeans(s, v);
  }

  /** `getVersion`, given the answer to `protocol version 2`: the captured
      version, or '2.3.1' when the command failed (2.3.1 has no `protocol`
      command), when the answer's `merlin` is not a string (reading or matching
      it throws) or when it does not match. */
  function GetVersion(answer: Result<Json, Failure>): (v: string)
    ensures answer.Err? ==> v == LegacyVersion
    ensures v == LegacyVersion || IsVersion(v)
    ensures answer.Ok? && answer.value.JObj? && JsObject.Get(answer.value.fields, "merlin").Some?
            && JsObject.Get(answer.value.fields, "merlin").value.JStr?
            && ParseVersion(JsObject.Get(answer.value.fields, "merlin").value.s).Some?
            ==> Some(v) == ParseVersion(JsObject.Get(answer.value.fields, "merlin").value.s)
  {
    match answer
    case Err(_) => LegacyVersion
    case Ok(JObj(fields)) =>
      var banner: Option<Json> := JsObject.Get(fields, "merlin");
      if banner.Some? && banner.value.JStr? && ParseVersion(banner.value.s).Some?
      then ParseVersion(banner.value.s).value
      else LegacyVersion
    case Ok(_) => LegacyVersion
  }

  /** `getVersion`'s dialect switch: '2.5.0' and '2.3.1' are supported. */
  function ProtocolFor(version: string): (p: Option<Protocol>)
    ensures p == Some(V2_5) <==> version == CurrentVersion
    ensures p == Some(V2_3_1) <==> version == LegacyVersion
  {
    if version == CurrentVersion then Some(V2_5)
    else if version == LegacyVersion then Some(V2_3_1)
    else None
  }

  /** A spawned ocamlmerlin and the wrapper that speaks its dialect. */
  datatype Instance = Instance(protocol: Protocol, channel: Channel, running: bool)

  /** The module-level state: `merlinProcessInstance` and `isInstalledCache`. */
  datatype State = State(instance: Option<Instance>, installedCache: Option<bool>)

  /** Atom settings `pathToMerlin` and `merlinFlags`. */
  datatype Config = Config(pathToMerlin: Option<string>, merlinFlags: Option<string>)

  /** What the environment answers: `which`'s exit code, the nearest `.merlin`
      above the file, and the lines the new process will print. */
  datatype World = World(whichExitCode: int, dotMerlin: Option<string>, output: seq<Option<Json>>)

  /** How a process was spawned: binary, arguments and working directory. */
  datatype Spawn = Spawn(path: string, args: seq<string>, cwd: string)

  /** `getInstance`'s promise: resolved with an instance or null, or never
      settled because a command it awaits got no answer or failed inside the
      dot-merlin push. */
  datatype Answer = Returned(instance: Option<Instance>) | Pending

  function HasDotMerlin(w: World): bool {
    w.dotMerlin.Some? && w.dotMerlin.value != ""
  }

  /** `getInstance(file)`. */
  function GetInstance(st: State, cfg: Config, w: World): (r: (State, Answer, Option<Spawn>))
    // a running instance is reused and nothing is spawned
    ensures st.instance.Some? && st.instance.value.running ==>
              r == (st, Returned(st.instance), None)
    // otherwise `which` decides, and its answer is cached
    ensures !(st.instance.Some? && st.instance.value.running) ==>
              r.0.installedCache == IsInstalled(st.installedCache, w.whichExitCode).0
    ensures !(st.instance.Some? && st.instance.value.running) && !IsInstalled(st.installedCache, w.whichExitCode).1 ==>
              r.1 == Returned(None) && r.2.None? && r.0.instance == st.instance
    // a spawn uses the configured binary and flags, in the `.merlin` directory
    ensures r.2.Some? ==> r.2.value == Spawn(PathToMerlin(cfg.pathToMerlin), MerlinFlags(cfg.merlinFlags),
                                             SpawnCwd(w.dotMerlin, Paths.Dirname))
    // a new instance asks for the version first, and is kept only for a supported one
    ensures r.1.Returned? && r.1.instance.Some? && r.2.Some? ==>
              r.0.instance == r.1.instance && |r.1.instance.value.channel.sent| > 0
              && r.1.instance.value.channel.sent[0] == VersionCommand()
              && r.1.instance.value.running
    // after the version, a `.merlin` is pushed exactly when one was found
    ensures r.1.Returned? && r.1.instance.Some? && r.2.Some? ==>
              r.1.instance.value.channel.sent ==
              [VersionCommand()] + if HasDotMerlin(w) then [DotMerlinCommand(w.dotMerlin.value)] else []
    // an unsupported version returns null and keeps the previous instance
    ensures r.1 == Returned(None) ==> r.0.instance == st.instance
  {
    if st.instance.Some? && st.instance.value.running then (st, Returned(st.instance), None)
    else
      var path := PathToMerlin(cfg.pathToMerlin);
      var flags := MerlinFlags(cfg.merlinFlags);
      var (cache, installed, _) := IsInstalled(st.installedCache, w.whichExitCode);
      var st1 := st.(installedCache := cache);
      if !installed then (st1, Returned(None), None)
      else Launch(st1, w, Spawn(path, flags, SpawnCwd(w.dotMerlin, Paths.Dirname)))
  }

  /** The spawn half of `getInstance`: the version is asked for first, and the
      new instance is kept only for a supported version. */
  function Launch(st1: State, w: World, spawn: Spawn): (r: (State, Answer, Option<Spawn>))
    ensures r.2 == Some(spawn) && r.0.installedCache == st1.installedCache
    ensures r.1.Returned? && r.1.instance.Some? ==>
              r.0.instance == r.1.instance && r.1.instance.value.running
              && r.1.instance.value.channel.sent ==
                 [VersionCommand()] + if HasDotMerlin(w) then [DotMerlinCommand(w.dotMerlin.value)] else []
    ensures r.1 == Returned(None) ==> r.0.instance == st1.instance
  {
    var (ch, reply) := RunSingleCommand(Channel([], w.output), VersionCommand());
    if reply.None? then (st1, Pending, Some(spawn))
    else
      match ProtocolFor(GetVersion(reply.value))
      case None => (st1, Returned(None), Some(spawn))
      case Some(p) =>
        var inst := Instance(p, ch, true);
        if !HasDotMerlin(w) then (st1.(instance := Some(inst)), Returned(Some(inst)), Some(spawn))
        else
          var (ch2, pushed) := PushDotMerlinPath(ch, w.dotMerlin.value);
          var inst2 := inst.(channel := ch2);
          (st1.(instance := Some(inst2)), if pushed.Resolved? then Returned(Some(inst2)) else Pending, Some(spawn))
  }

  /** A running process is handed out unchanged however often it is asked for. */
  lemma GetInstanceReusesRunning(st: State, cfg: Config, w1: World, w2: World)
    requires st.instance.Some? && st.instance.value.running
    ensures GetInstance(GetInstance(st, cfg, w1).0, cfg, w2) == (st, Returned(st.instance), None)
  {
  }

  /** A banner naming 2.5.0 gets the 2.5 dialect. */
  lemma VersionSelectsDialect(st: State, cfg: Config, w: World, rest: string)
    requires !(st.instance.Some? && st.instance.value.running)
    requires IsInstalled(st.installedCache, w.whichExitCode).1
    requires !HasDotMerlin(w)
    requires |w.output| > 0
    requires w.output[0] == Some(Envelope("return", JObj([("merlin", JStr(VersionPrefix + CurrentVersion + "," + rest))])))
    ensures GetInstance(st, cfg, w).1.Returned?
    ensures GetInstance(st, cfg, w).1.instance.Some?
    ensures GetInstance(st, cfg, w).1.instance.value.protocol == V2_5
  {
    var ans := JObj([("merlin", JStr(VersionPrefix + CurrentVersion + "," + rest))]);
    assert Classify(w.output[0]) == Ok(ans) by {
      assert !IsErrorStatus(JStr("return"));
    }
    BannerOfCurrentVersion(rest);
    var (ch, reply) := RunSingleCommand(Channel([], w.output), VersionCommand());
    assert reply == Some(Ok(ans));
  }

  /** An answer whose banner names 2.5.0 is read as version 2.5.0. */
  lemma BannerOfCurrentVersion(rest: string)
    ensures GetVersion(Ok(JObj([("merlin", JStr(VersionPrefix + CurrentVersion + "," + rest))]))) == CurrentVersion
  {
    assert IsVersion(CurrentVersion) by {
      assert CurrentVersion[1..] == ".5.0";
      assert ".5.0"[2..] == ".0";
      assert ".0"[2..] == "";
    }
    ParseVersionRoundTrip(CurrentVersion, rest);
    var fields := [("merlin", JStr(VersionPrefix + CurrentVersion + "," + rest))];
    assert JsObject.Get(fields, "merlin") == Some(JStr(VersionPrefix + CurrentVersion + "," + rest));
  }
}
