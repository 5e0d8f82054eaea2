/** The ocamlmerlin command/response layer shared by both MerlinProcess wrappers
    (pkg/nuclide-ocaml-rpc/lib/MerlinProcess.js and
    pkg/nuclide-ocaml-base/lib/MerlinProcess.js): JSON values, the positional
    `[status, content]` response envelope, the command vectors, and a channel
    that pairs each command with the next line ocamlmerlin prints. */
module MerlinProtocol {
  import opened Wrappers
  import JsObject
  import opened Text

  /** A JSON value as `JSON.parse` produces it (numbers restricted to integers,
      which is all the protocol's positions use). */
  datatype Json =
    | JNull
    | JBool(b: bool)
    | JNum(n: int)
    | JStr(s: string)
    | JArr(items: seq<Json>)
    | JObj(fields: seq<(string, Json)>)

  /** JavaScript truthiness of a parsed value. */
  predicate Truthy(v: Json) {
    match v
    case JNull => false
    case JBool(b) => b
    case JNum(n) => n != 0
    case JStr(s) => |s| > 0
    case _ => true
  }

  /** Why a command failed: the two fixed protocol errors, the message of a
      `locate` that answered with a string, or a TypeError thrown by the
      wrapper's own code. */
  datatype Failure = UnexpectedFormat | ReturnedError | LocateMessage(text: string) | TypeError

  const UnexpectedFormatMessage := "Unexpected ocamlmerlin output format"
  const ReturnedErrorMessage := "Ocamlmerlin returned an error"

  /** The statuses in `ERROR_RESPONSES`. */
  predicate IsErrorStatus(status: Json) {
    status == JStr("failure") || status == JStr("error") || status == JStr("exception")
  }

  /** The `line` handler of `runSingleCommand`: `parsed` is `None` when the line
      is not JSON. Anything but a two-element array is an unexpected format; an
      error status is an error; otherwise the content element is the answer. */
  function Classify(parsed: Option<Json>): (r: Result<Json, Failure>)
    ensures r.Ok? <==> parsed.Some? && parsed.value.JArr? && |parsed.value.items| == 2
                       && !IsErrorStatus(parsed.value.items[0])
    ensures r.Ok? ==> r.value == parsed.value.items[1]
    ensures r.Err? ==> (r.error == UnexpectedFormat <==>
                        !(parsed.Some? && parsed.value.JArr? && |parsed.value.items| == 2))
    ensures r.Err? ==> r.error == UnexpectedFormat || r.error == ReturnedError
  {
    match parsed
    case None => Err(UnexpectedFormat)
    case Some(JArr(items)) =>
      if |items| != 2 then Err(UnexpectedFormat)
      else if IsErrorStatus(items[0]) then Err(ReturnedError)
      else Ok(items[1])
    case Some(_) => Err(UnexpectedFormat)
  }

  /** The message a failed command's `Error` carries. */
  function FailureMessage(f: Failure): (m: string)
    ensures f == UnexpectedFormat ==> m == UnexpectedFormatMessage
    ensures f == ReturnedError ==> m == ReturnedErrorMessage
    ensures f.LocateMessage? ==> m == f.text
  {
    match f
    case UnexpectedFormat => UnexpectedFormatMessage
    case ReturnedError => ReturnedErrorMessage
    case LocateMessage(t) => t
    case TypeError => "TypeError"
  }

  /** What ocamlmerlin prints for an answer: `[status, content]`. */
  function Envelope(status: string, content: Json): Json {
    JArr([JStr(status), content])
  }

  /** Wrapping content in an envelope and classifying it gives the content back
      exactly when the status is not an error status. */
  lemma EnvelopeRoundTrip(status: string, content: Json)
    ensures Classify(Some(Envelope(status, content))) == Ok(content)
            <==> status !in {"failure", "error", "exception"}
    ensures status in {"failure", "error", "exception"} ==>
            Classify(Some(Envelope(status, content))) == Err(ReturnedError)
  {
  }

  // -------------------------------------------------------------- commands

  /** A 0-based editor position sent as ocamlmerlin's 1-based line. */
  function At(line: int, col: int): Json {
    JObj([("line", JNum(line)), ("col", JNum(col))])
  }

  function Strs(words: seq<string>): (r: seq<Json>)
    ensures |r| == |words| && forall i :: 0 <= i < |r| ==> r[i] == JStr(words[i])
  {
    if |words| == 0 then [] else [JStr(words[0])] + Strs(words[1..])
  }

  function DotMerlinCommand(file: string): Json {
    JArr([JStr("reset"), JStr("dot_merlin"), JArr([JStr(file)]), JStr("auto")])
  }

  function ResetCommand(name: string): Json {
    JArr(Strs(["reset", "auto", name]))
  }

  function SeekStartCommand(): Json {
    JArr(Strs(["seek", "exact"]) + [At(1, 0)])
  }

  function DropCommand(): Json {
    JArr(Strs(["drop"]))
  }

  function TellEofCommand(content: string): Json {
    JArr(Strs(["tell", "source-eof", content]))
  }

  function TellStartEndCommand(content: string): Json {
    JArr(Strs(["tell", "start", "end", content]))
  }

  /** `locate` sends the line shifted to 1-based and the column unchanged. */
  function LocateCommand(line: int, col: int, kind: string): Json {
    JArr(Strs(["locate", "", kind, "at"]) + [At(line + 1, col)])
  }

  /** `type enclosing` sends the line shifted to 1-based and the column unchanged. */
  function EnclosingTypeCommand(line: int, col: int): Json {
    JArr(Strs(["type", "enclosing", "at"]) + [At(line + 1, col)])
  }

  /** `complete` shifts both line and column by one. */
  function CompleteCommand(line: int, col: int, prefix: string): Json {
    JArr(Strs(["complete", "prefix", prefix, "at"]) + [At(line + 1, col + 1)])
  }

  function ErrorsCommand(): Json {
    JArr(Strs(["errors"]))
  }

  function OutlineCommand(): Json {
    JArr(Strs(["outline"]))
  }

  function VersionCommand(): Json {
    JArr(Strs(["protocol", "version"]) + [JNum(2)])
  }

  /** The editor (0-based) position a query command is about, read back from the
      command vector: the `at` object is last, with ocamlmerlin's 1-based line and,
      for `complete` only, a 1-based column. */
  function QueriedPosition(cmd: Json): (r: Option<(int, int)>)
  {
    if !cmd.JArr? || |cmd.items| < 2 then None
    else
      var at := cmd.items[|cmd.items| - 1];
      var shift := if cmd.items[0] == JStr("complete") then 1 else 0;
      if at.JObj? && |at.fields| == 2 && at.fields[0].0 == "line" && at.fields[1].0 == "col"
         && at.fields[0].1.JNum? && at.fields[1].1.JNum?
      then Some((at.fields[0].1.n - 1, at.fields[1].1.n - shift))
      else None
  }

  /** Every query command carries the editor position it was built from, after
      the protocol's 0-based to 1-based shifts. */
  lemma QueriedPositionRoundTrip(line: int, col: int, kind: string, prefix: string)
    ensures QueriedPosition(LocateCommand(line, col, kind)) == Some((line, col))
    ensures QueriedPosition(EnclosingTypeCommand(line, col)) == Some((line, col))
    ensures QueriedPosition(CompleteCommand(line, col, prefix)) == Some((line, col))
  {
    assert LocateCommand(line, col, kind).items[0] == JStr("locate");
    assert EnclosingTypeCommand(line, col).items[0] == JStr("type");
    assert CompleteCommand(line, col, prefix).items[0] == JStr("complete");
  }

  // --------------------------------------------------------------- channel

  /** The child process as the wrapper sees it: the commands written to stdin so
      far (each as `JSON.stringify(command)`, no newline appended) and the lines
      stdout has yet to deliver, parsed (`None` for a line that is not JSON). */
  datatype Channel = Channel(sent: seq<Json>, lines: seq<Option<Json>>)

  /** `runSingleCommand`: writes the command and classifies the next line;
      `None` when ocamlmerlin prints nothing more (the promise never settles). */
  function RunSingleCommand(ch: Channel, cmd: Json): (r: (Channel, Option<Result<Json, Failure>>))
    ensures r.0.sent == ch.sent + [cmd]
    ensures |ch.lines| == 0 ==> r.1.None? && r.0.lines == []
    ensures |ch.lines| > 0 ==> r.0.lines == ch.lines[1..] && r.1 == Some(Classify(ch.lines[0]))
  {
    if |ch.lines| == 0 then (ch.(sent := ch.sent + [cmd]), None)
    else (Channel(ch.sent + [cmd], ch.lines[1..]), Some(Classify(ch.lines[0])))
  }

  /** Runs commands one after another, each awaiting the previous one, and
      stops at the first that fails or gets no line; the answer is the last
      command's. */
  function RunSequence(ch: Channel, cmds: seq<Json>): (r: (Channel, Option<Result<Json, Failure>>))
    requires |cmds| > 0
    ensures |r.0.sent| <= |ch.sent| + |cmds|
    ensures |r.0.sent| > |ch.sent| && r.0.sent[..|ch.sent|] == ch.sent
    ensures r.0.sent[|ch.sent|..] == cmds[..|r.0.sent| - |ch.sent|]
    ensures |r.0.sent| < |ch.sent| + |cmds| ==> r.1.None? || r.1.value.Err?
    ensures r.1.Some? && r.1.value.Ok? ==> |r.0.sent| == |ch.sent| + |cmds|
    decreases |cmds|
  {
    var (c1, res) := RunSingleCommand(ch, cmds[0]);
    if |cmds| == 1 || res.None? || res.value.Err? then
      assert c1.sent[|ch.sent|..] == [cmds[0]] == cmds[..1];
      (c1, res)
    else
      var (c2, res2) := RunSequence(c1, cmds[1..]);
      assert c2.sent[..|ch.sent|] == c1.sent[..|c1.sent|][..|ch.sent|];
      assert c2.sent[|ch.sent|..] == [cmds[0]] + c2.sent[|c1.sent|..];
      assert cmds[..|c2.sent| - |ch.sent|] == [cmds[0]] + cmds[1..][..|c2.sent| - |c1.sent|];
      (c2, res2)
  }

  /** How a wrapper method's promise ends up. `Unsettled` is a failure inside an
      `async` executor handed to the wrapper's promise queue: the executor's own
      promise rejects and the method's resolve/reject is never called.
      `NoReply` is a command that never got a line. */
  datatype Outcome = Resolved(value: Json) | Rejected(failure: Failure) | Unsettled(failure: Failure) | NoReply

  /** A method whose executor awaits its commands: any failure is unsettled. */
  function AwaitedOutcome(res: Option<Result<Json, Failure>>): (o: Outcome)
    ensures o.Resolved? <==> res.Some? && res.value.Ok?
    ensures o.Resolved? ==> o.value == res.value.value
    ensures !o.Rejected?
  {
    match res
    case None => NoReply
    case Some(Ok(v)) => Resolved(v)
    case Some(Err(f)) => Unsettled(f)
  }

  /** A method whose executor chains `.then(resolve).catch(reject)`: failures reject. */
  function ChainedOutcome(res: Option<Result<Json, Failure>>): (o: Outcome)
    ensures o.Resolved? <==> res.Some? && res.value.Ok?
    ensures o.Resolved? ==> o.value == res.value.value
    ensures o.Rejected? <==> res.Some? && res.value.Err?
    ensures o.Rejected? ==> o.failure == res.value.error
    ensures !o.Unsettled?
  {
    match res
    case None => NoReply
    case Some(Ok(v)) => Resolved(v)
    case Some(Err(f)) => Rejected(f)
  }

  // ----------------------------------------------------------------- methods

  /** The two dialects: 2.3.1 (also the only one the ocaml-base wrapper speaks)
      and 2.5. */
  datatype Protocol = V2_3_1 | V2_5

  /** The commands `pushNewBuffer` sends: 2.3.1 resets the buffer under its name,
      seeks to the start, drops everything and tells the whole content; 2.5
      tells the content from start to end in one command. */
  function PushNewBufferCommands(p: Protocol, name: string, content: string): (cmds: seq<Json>)
    ensures p == V2_3_1 ==>
              |cmds| == 4 && cmds[0] == ResetCommand(name) && cmds[1] == SeekStartCommand()
              && cmds[2] == DropCommand() && cmds[3] == TellEofCommand(content)
    ensures p == V2_5 ==> cmds == [TellStartEndCommand(content)]
  {
    match p
    case V2_3_1 => [ResetCommand(name), SeekStartCommand(), DropCommand(), TellEofCommand(content)]
    case V2_5 => [TellStartEndCommand(content)]
  }

  /** `pushNewBuffer`: its commands in order, resolving with the last answer.
      Every command was sent exactly when the answer resolves. */
  function PushNewBuffer(p: Protocol, ch: Channel, name: string, content: string): (r: (Channel, Outcome))
    ensures |ch.sent| < |r.0.sent| <= |ch.sent| + |PushNewBufferCommands(p, name, content)|
    ensures r.0.sent[..|ch.sent|] == ch.sent
    ensures r.0.sent[|ch.sent|..] == PushNewBufferCommands(p, name, content)[..|r.0.sent| - |ch.sent|]
    ensures r.1.Resolved? ==> r.0.sent == ch.sent + PushNewBufferCommands(p, name, content)
    ensures !r.1.Rejected?
  {
    var cmds := PushNewBufferCommands(p, name, content);
    var (c, res) := RunSequence(ch, cmds);
    assert c.sent == c.sent[..|ch.sent|] + c.sent[|ch.sent|..];
    (c, AwaitedOutcome(res))
  }

  /** With every reply a success, 2.3.1's `pushNewBuffer` sends reset, seek,
      drop and tell in that order and resolves with the tell's answer. */
  lemma PushNewBufferLegacyOrder(ch: Channel, name: string, content: string, a: Json, b: Json, c: Json, d: Json)
    requires ch.lines == [Some(Envelope("return", a)), Some(Envelope("return", b)),
                          Some(Envelope("return", c)), Some(Envelope("return", d))]
    ensures PushNewBuffer(V2_3_1, ch, name, content).0.sent ==
            ch.sent + [ResetCommand(name), SeekStartCommand(), DropCommand(), TellEofCommand(content)]
    ensures PushNewBuffer(V2_3_1, ch, name, content).1 == Resolved(d)
  {
    var cmds := PushNewBufferCommands(V2_3_1, name, content);
    assert cmds == [ResetCommand(name), SeekStartCommand(), DropCommand(), TellEofCommand(content)];
    RunSequenceAllReturn(ch, cmds, [a, b, c, d]);
  }

  /** A line of ocamlmerlin's reporting success with `v`. */
  function Returning(v: Json): Option<Json> {
    Some(Envelope("return", v))
  }

  /** When every command gets a successful answer, every command is sent and
      the sequence answers with the last command's answer. */
  lemma {:induction false} RunSequenceAllReturn(ch: Channel, cmds: seq<Json>, answers: seq<Json>)
    requires |cmds| > 0 && |answers| == |cmds| && |cmds| <= |ch.lines|
    requires forall i :: 0 <= i < |cmds| ==> ch.lines[i] == Returning(answers[i])
    ensures RunSequence(ch, cmds) == (Channel(ch.sent + cmds, ch.lines[|cmds|..]), Some(Ok(answers[|cmds| - 1])))
    decreases |cmds|
  {
    EnvelopeRoundTrip("return", answers[0]);
    var (c1, res) := RunSingleCommand(ch, cmds[0]);
    assert res == Some(Ok(answers[0]));
    if |cmds| > 1 {
      forall i | 0 <= i < |cmds| - 1 ensures c1.lines[i] == Returning(answers[1..][i]) {
        assert c1.lines[i] == ch.lines[i + 1];
      }
      RunSequenceAllReturn(c1, cmds[1..], answers[1..]);
      assert c1.sent + cmds[1..] == ch.sent + cmds;
      assert c1.lines[|cmds| - 1..] == ch.lines[|cmds|..];
      assert RunSequence(ch, cmds) == RunSequence(c1, cmds[1..]);
    } else {
      assert cmds == [cmds[0]];
      assert RunSequence(ch, cmds) == (c1, res);
    }
  }

  /** `pushDotMerlinPath`: one `reset dot_merlin [file] auto` command. */
  function PushDotMerlinPath(ch: Channel, file: string): (r: (Channel, Outcome))
    ensures r.0.sent == ch.sent + [DotMerlinCommand(file)]
    ensures !r.1.Rejected?
  {
    var (c, res) := RunSingleCommand(ch, DotMerlinCommand(file));
    (c, AwaitedOutcome(res))
  }

  /** What `locate` does with the answer: a string is an error message; an
      object whose `file` is missing or falsy gets the queried file; an array
      resolves as it is; any other value makes the wrapper throw. */
  function LocateResult(v: Json, file: string): (o: Outcome)
    ensures v.JStr? <==> o.Rejected?
    ensures v.JStr? ==> o.failure == LocateMessage(v.s)
    ensures (v.JNull? || v.JBool? || v.JNum?) <==> o.Unsettled?
    ensures o.Unsettled? ==> o.failure == TypeError
    ensures v.JArr? ==> o == Resolved(v)
    ensures v.JObj? ==> o.Resolved? && o.value.JObj?
    ensures v.JObj? ==>
              JsObject.Get(o.value.fields, "file") ==
              (match JsObject.Get(v.fields, "file")
               case Some(f) => if Truthy(f) then Some(f) else Some(JStr(file))
               case None => Some(JStr(file)))
    ensures v.JObj? ==> forall k :: k != "file" ==> JsObject.Get(o.value.fields, k) == JsObject.Get(v.fields, k)
  {
    match v
    case JStr(m) => Rejected(LocateMessage(m))
    case JArr(_) => Resolved(v)
    case JObj(fields) =>
      var current := JsObject.Get(fields, "file");
      if current.Some? && Truthy(current.value) then Resolved(v)
      else Resolved(JObj(JsObject.SetProperty(fields, "file", JStr(file))))
    case _ => Unsettled(TypeError)
  }

  /** `locate`: sends the shifted position and post-processes the answer. */
  function Locate(ch: Channel, file: string, line: int, col: int, kind: string): (r: (Channel, Outcome))
    ensures r.0.sent == ch.sent + [LocateCommand(line, col, kind)]
    ensures |ch.lines| > 0 && Classify(ch.lines[0]).Ok? ==>
            r.1 == LocateResult(Classify(ch.lines[0]).value, file)
    ensures |ch.lines| > 0 && Classify(ch.lines[0]).Err? ==> r.1 == Unsettled(Classify(ch.lines[0]).error)
  {
    var (c, res) := RunSingleCommand(ch, LocateCommand(line, col, kind));
    match res
    case None => (c, NoReply)
    case Some(Err(f)) => (c, Unsettled(f))
    case Some(Ok(v)) => (c, LocateResult(v, file))
  }

  /** `enclosingType`, `complete`, `errors` and `outline`: one command each,
      answered with the content or rejected with the failure. */
  function Query(ch: Channel, cmd: Json): (r: (Channel, Outcome))
    ensures r.0.sent == ch.sent + [cmd]
    ensures |ch.lines| > 0 ==> r.1 == ChainedOutcome(Some(Classify(ch.lines[0])))
    ensures |ch.lines| == 0 ==> r.1 == NoReply
  {
    var (c, res) := RunSingleCommand(ch, cmd);
    (c, ChainedOutcome(res))
  }

  // ------------------------------------------------------------ configuration

  /** `getMerlinFlags`: the non-white-space runs of the configured flags string;
      none for a missing, empty or all-blank setting. */
  function MerlinFlags(config: Option<string>): (flags: seq<string>)
    ensures config.None? ==> flags == []
    ensures config.Some? ==> flags == Tokens(config.value)
    ensures forall i :: 0 <= i < |flags| ==> |flags[i]| > 0 && NoWhitespace(flags[i])
  {
    match config
    case None => []
    case Some(c) => if |c| == 0 then [] else Tokens(c)
  }

  /** The flags are the setting with its white space taken out, cut at the white
      space; and flags written out with single spaces read back the same. */
  lemma MerlinFlagsRoundTrip(config: string, flags: seq<string>)
    requires forall i :: 0 <= i < |flags| ==> |flags[i]| > 0 && NoWhitespace(flags[i])
    ensures Concat(MerlinFlags(Some(config))) == StripWhitespace(config)
    ensures MerlinFlags(Some(JoinWith(flags, " "))) == flags
  {
    TokensKeepEveryOtherCharacter(config);
    TokensOfJoin(flags);
  }

  /** `getPathToMerlin`: the configured path, or 'ocamlmerlin' when unset or empty. */
  function PathToMerlin(config: Option<string>): (p: string)
    ensures |p| > 0
    ensures config.Some? && |config.value| > 0 ==> p == config.value
    ensures (config.None? || config.value == "") ==> p == "ocamlmerlin"
  {
    match config
    case Some(c) => if |c| > 0 then c else "ocamlmerlin"
    case None => "ocamlmerlin"
  }

  /** `isInstalled`: the first call runs `which` and caches whether it exited 0;
      later calls answer from the cache without running anything. */
  function IsInstalled(cache: Option<bool>, whichExitCode: int): (r: (Option<bool>, bool, bool))
    ensures cache.Some? ==> r == (cache, cache.value, false)
    ensures cache.None? ==> r.2 && r.0 == Some(r.1) && (r.1 <==> whichExitCode == 0)
  {
    match cache
    case Some(b) => (cache, b, false)
    case None => (Some(whichExitCode == 0), whichExitCode == 0, true)
  }

  /** Once computed, the answer never changes and `which` never runs again,
      whatever later exit codes would have been. */
  lemma IsInstalledCachedForever(cache: Option<bool>, e1: int, e2: int)
    ensures var r1 := IsInstalled(cache, e1);
            IsInstalled(r1.0, e2) == (r1.0, r1.1, false)
  {
  }

  /** The spawn directory: the directory of the nearest `.merlin`, or '.' when
      none was found. */
  function SpawnCwd(dotMerlinPath: Option<string>, dirname: string -> string): (cwd: string)
    ensures (dotMerlinPath.None? || dotMerlinPath.value == "") ==> cwd == "."
    ensures dotMerlinPath.Some? && dotMerlinPath.value != "" ==> cwd == dirname(dotMerlinPath.value)
  {
    match dotMerlinPath
    case Some(p) => if p != "" then dirname(p) else "."
    case None => "."
  }
}
