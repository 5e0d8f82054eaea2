/** `pkg/nuclide/flow/lib/FlowLinter.js`: turns Flow's diagnostics into linter
    messages for the file being linted. The Flow service call is not modelled:
    the diagnostics it reports are a parameter. */
module FlowLinter {
  import opened Wrappers
  import opened Seqs
  import opened Text
  import opened LinterAdapter

  /** One element of a Flow diagnostic's `message` array. Positions are
      1-based. */
  datatype FlowError = FlowError(level: string, descr: string, path: string, line: int, start: int, endline: int, end: int)

  /** A diagnostic is the non-empty array of its errors; the first is blamed,
      the rest are its trace. */
  type FlowDiagnostic = seq<FlowError>

  /** `extractRange`: rows become 0-based, the start column 0-based and the
      end column stays as it is (0-based and exclusive). */
  function ExtractRange(e: FlowError): (r: Range)
    ensures r.start.row == e.line - 1 && r.end.row == e.endline - 1
    ensures r.start.column == e.start - 1 && r.end.column == e.end
  {
    Range(Point(e.line - 1, e.start - 1), Point(e.endline - 1, e.end))
  }

  /** Flow's 1-based positions read back from a range. */
  function FlowPositions(r: Range): (int, int, int, int) {
    (r.start.row + 1, r.start.column + 1, r.end.row + 1, r.end.column)
  }

  /** The range keeps all four of Flow's positions. */
  lemma ExtractRangeKeepsPositions(e: FlowError)
    ensures FlowPositions(ExtractRange(e)) == (e.line, e.start, e.endline, e.end)
  {
  }

  /** `flowMessageToTrace`. */
  function FlowMessageToTrace(e: FlowError): (t: LinterTrace)
    ensures t.text == Some(e.descr) && t.html.None?
    ensures t.filePath == e.path && t.range == Some(ExtractRange(e))
  {
    LinterTrace(Some(e.descr), None, e.path, Some(ExtractRange(e)))
  }

  function Descriptions(arr: FlowDiagnostic): (ds: seq<string>)
    ensures |ds| == |arr|
    ensures forall i :: 0 <= i < |arr| ==> ds[i] == arr[i].descr
  {
    seq(|arr|, i requires 0 <= i < |arr| => arr[i].descr)
  }

  /** `flowMessageToLinterMessage`: the first error gives the level (or
      'Error'), file and range, every error's description goes into the text,
      and the errors after the first make the trace. An empty array has no
      first element, and reading its level throws. */
  function FlowMessageToLinterMessage(arr: FlowDiagnostic): (r: Result<LinterMessage, string>)
    ensures r.Err? <==> |arr| == 0
    ensures r.Ok? ==> r.value.messageType == (if arr[0].level != "" then arr[0].level else "Error")
    ensures r.Ok? ==> r.value.text == Some(JoinWith(Descriptions(arr), " ")) && r.value.html.None?
    ensures r.Ok? ==> r.value.filePath == Some(arr[0].path) && r.value.range == Some(ExtractRange(arr[0]))
    // a trace exactly when there is more than one error, one entry for each further error
    ensures r.Ok? ==> (r.value.trace.Some? <==> |arr| > 1)
    ensures r.Ok? && r.value.trace.Some? ==>
              |r.value.trace.value| == |arr| - 1
              && forall i :: 1 <= i < |arr| ==> r.value.trace.value[i - 1] == FlowMessageToTrace(arr[i])
  {
    if |arr| == 0 then Err("TypeError: Cannot read property 'level' of undefined")
    else
      var first := arr[0];
      var trace := if |arr| > 1 then Some(seq(|arr| - 1, i requires 0 <= i < |arr| - 1 => FlowMessageToTrace(arr[i + 1])))
                   else None;
      Ok(LinterMessage(
        if first.level != "" then first.level else "Error",
        Some(JoinWith(Descriptions(arr), " ")),
        None,
        Some(first.path),
        Some(ExtractRange(first)),
        trace))
  }

  /** Descriptions that are single words can be read back from the text. */
  lemma TextSplitsIntoDescriptions(arr: FlowDiagnostic)
    requires |arr| > 0
    requires forall i :: 0 <= i < |arr| ==> |arr[i].descr| > 0 && NoWhitespace(arr[i].descr)
    ensures Tokens(FlowMessageToLinterMessage(arr).value.text.value) == Descriptions(arr)
  {
    TokensOfJoin(Descriptions(arr));
  }

  /** Whether the blamed error of a diagnostic is in `target`. */
  function BlamesFile(target: string): FlowDiagnostic -> bool {
    (arr: FlowDiagnostic) => |arr| > 0 && arr[0].path == target
  }

  function IsInFile(target: string): LinterMessage -> bool {
    (m: LinterMessage) => m.filePath == Some(target)
  }

  /** Every diagnostic converted, stopping at the first that throws. */
  function ConvertAll(diagnostics: seq<FlowDiagnostic>): (r: Result<seq<LinterMessage>, string>)
    ensures r.Ok? <==> forall i :: 0 <= i < |diagnostics| ==> |diagnostics[i]| > 0
    ensures r.Ok? ==> |r.value| == |diagnostics|
    ensures r.Ok? ==> forall i :: 0 <= i < |diagnostics| ==> Ok(r.value[i]) == FlowMessageToLinterMessage(diagnostics[i])
  {
    if |diagnostics| == 0 then Ok([])
    else
      match FlowMessageToLinterMessage(diagnostics[0])
      case Err(e) => Err(e)
      case Ok(m) =>
        match ConvertAll(diagnostics[1..])
        case Err(e) => Err(e)
        case Ok(ms) => Ok([m] + ms)
  }

  /** `processDiagnostics`: the converted diagnostics whose message is about
      `targetFile`, in Flow's order. */
  function ProcessDiagnostics(diagnostics: seq<FlowDiagnostic>, targetFile: string): (r: Result<seq<LinterMessage>, string>)
    ensures r.Ok? <==> forall i :: 0 <= i < |diagnostics| ==> |diagnostics[i]| > 0
    ensures r.Ok? ==> forall m :: m in r.value ==> m.filePath == Some(targetFile)
  {
    match ConvertAll(diagnostics)
    case Err(e) => Err(e)
    case Ok(ms) => Ok(Filter(ms, IsInFile(targetFile)))
  }

  /** Filtering after converting keeps exactly the diagnostics that blame
      the target file, converted, in order. */
  lemma ProcessKeepsBlamed(diagnostics: seq<FlowDiagnostic>, targetFile: string)
    requires forall i :: 0 <= i < |diagnostics| ==> |diagnostics[i]| > 0
    ensures ConvertAll(Filter(diagnostics, BlamesFile(targetFile))).Ok?
    ensures ProcessDiagnostics(diagnostics, targetFile) == ConvertAll(Filter(diagnostics, BlamesFile(targetFile)))
  {
    FilterAfterConvert(diagnostics, targetFile);
  }

  lemma {:induction false} FilterAfterConvert(diagnostics: seq<FlowDiagnostic>, targetFile: string)
    requires forall i :: 0 <= i < |diagnostics| ==> |diagnostics[i]| > 0
    ensures ConvertAll(Filter(diagnostics, BlamesFile(targetFile))).Ok?
    ensures Filter(ConvertAll(diagnostics).value, IsInFile(targetFile))
            == ConvertAll(Filter(diagnostics, BlamesFile(targetFile))).value
    decreases |diagnostics|
  {
    if |diagnostics| > 0 {
      var d, rest := diagnostics[0], diagnostics[1..];
      FilterAfterConvert(rest, targetFile);
      var m := FlowMessageToLinterMessage(d).value;
      var ms := ConvertAll(rest).value;
      var kept := Filter(rest, BlamesFile(targetFile));
      assert ConvertAll(diagnostics).value == [m] + ms;
      FilterCons(m, ms, IsInFile(targetFile));
      assert IsInFile(targetFile)(m) == BlamesFile(targetFile)(d);
      if BlamesFile(targetFile)(d) {
        assert Filter(diagnostics, BlamesFile(targetFile)) == [d] + kept;
        ConvertCons(d, kept);
      } else {
        assert Filter(diagnostics, BlamesFile(targetFile)) == kept;
      }
    }
  }

  lemma ConvertCons(d: FlowDiagnostic, rest: seq<FlowDiagnostic>)
    requires |d| > 0 && ConvertAll(rest).Ok?
    ensures ConvertAll([d] + rest) == Ok([FlowMessageToLinterMessage(d).value] + ConvertAll(rest).value)
  {
    assert ([d] + rest)[1..] == rest;
  }

  /** The linter's `lint`: nothing for an unsaved editor or when Flow reports
      nothing; otherwise the processed diagnostics for the editor's file. */
  function Lint(path: Option<string>, diagnostics: seq<FlowDiagnostic>): (r: Result<seq<LinterMessage>, string>)
    ensures !Truthy(path) ==> r == Ok([])
    ensures Truthy(path) && |diagnostics| == 0 ==> r == Ok([])
    ensures Truthy(path) && |diagnostics| > 0 ==> r == ProcessDiagnostics(diagnostics, path.value)
  {
    if !Truthy(path) then Ok([])
    else if |diagnostics| == 0 then Ok([])
    else ProcessDiagnostics(diagnostics, path.value)
  }

  /** The provider the package registers: file-scoped, linting on the fly. */
  function FlowProvider(jsGrammars: seq<string>): (p: Provider)
    ensures p.providerName.None? && p.grammarScopes == jsGrammars && !p.allGrammarScopes && p.lintOnFly
  {
    Provider(None, jsGrammars, false, true)
  }

  /** Each message `lint` returns is about the editor's own file, so the
      adapter files all of them under that path and none under the project. */
  lemma LintMessagesAreFileScoped(path: string, diagnostics: seq<FlowDiagnostic>, name: string, i: nat)
    requires path != ""
    requires Lint(Some(path), diagnostics).Ok? && i < |Lint(Some(path), diagnostics).value|
    ensures var m := Lint(Some(path), diagnostics).value[i];
            ToDiagnostic(m, name).scope == FileScope && ToDiagnostic(m, name).filePath == Some(path)
  {
    var ms := Lint(Some(path), diagnostics).value;
    assert ms[i] in ms;
  }
}
