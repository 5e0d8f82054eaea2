/** `pkg/nuclide/diagnostics/store/lib/LinterAdapter.js`: adapts a provider of
    the `linter` package to a Nuclide diagnostics provider. Messages are
    converted to diagnostics and grouped by file into the update the
    diagnostics store publishes. The provider's `lint` call, the request
    serializer and the publishing base class are not modelled: their outcomes
    are parameters and the update is returned. */
module LinterAdapter {
  import opened Wrappers
  import opened Seqs
  import opened JsObject

  /** A buffer position. */
  datatype Point = Point(row: int, column: int)

  /** `atom$Range`. */
  datatype Range = Range(start: Point, end: Point)

  /** `LinterTrace` (its `type` is always 'Trace'). */
  datatype LinterTrace = LinterTrace(text: Option<string>, html: Option<string>, filePath: string, range: Option<Range>)

  /** `LinterMessage`; `messageType` is its `type` field. */
  datatype LinterMessage = LinterMessage(
    messageType: string,
    text: Option<string>,
    html: Option<string>,
    filePath: Option<string>,
    range: Option<Range>,
    trace: Option<seq<LinterTrace>>)

  datatype Scope = FileScope | ProjectScope

  /** `DiagnosticMessage`: a project message has no file path. */
  datatype DiagnosticMessage = DiagnosticMessage(
    scope: Scope,
    providerName: string,
    messageType: string,
    filePath: Option<string>,
    text: Option<string>,
    html: Option<string>,
    range: Option<Range>,
    trace: Option<seq<LinterTrace>>)

  /** A truthy path: present and not ''. */
  predicate Truthy(path: Option<string>) {
    path.Some? && path.value != ""
  }

  /** `linterMessageToDiagnosticMessage`: a message with a (truthy) file path
      is about that file, any other is about the project. */
  function ToDiagnostic(msg: LinterMessage, providerName: string): (d: DiagnosticMessage)
    ensures d.scope == FileScope <==> Truthy(msg.filePath)
    ensures d.filePath == if Truthy(msg.filePath) then msg.filePath else None
    ensures d.providerName == providerName
  {
    if Truthy(msg.filePath) then
      DiagnosticMessage(FileScope, providerName, msg.messageType, msg.filePath, msg.text, msg.html, msg.range, msg.trace)
    else
      DiagnosticMessage(ProjectScope, providerName, msg.messageType, None, msg.text, msg.html, msg.range, msg.trace)
  }

  /** The linter message a diagnostic carries. */
  function ToLinterMessage(d: DiagnosticMessage): LinterMessage {
    LinterMessage(d.messageType, d.text, d.html, d.filePath, d.range, d.trace)
  }

  /** Conversion loses nothing but an empty file path, which becomes none. */
  lemma DiagnosticKeepsMessage(msg: LinterMessage, providerName: string)
    ensures msg.filePath != Some("") ==> ToLinterMessage(ToDiagnostic(msg, providerName)) == msg
    ensures msg.filePath == Some("") ==> ToLinterMessage(ToDiagnostic(msg, providerName)) == msg.(filePath := None)
  {
  }

  /** The `providerName` parameter's default. */
  function ProviderNameOrDefault(providerName: Option<string>): (name: string)
    ensures providerName.Some? ==> name == providerName.value
    ensures providerName.None? ==> name == "Unnamed Linter"
  {
    match providerName
    case Some(n) => n
    case None => "Unnamed Linter"
  }

  /** `DiagnosticProviderUpdate`: the messages of each file, in the order the
      files were first met, and the project's messages. */
  datatype Update = Update(filePathToMessages: Obj<seq<DiagnosticMessage>>, projectMessages: seq<DiagnosticMessage>)

  function Converted(msgs: seq<LinterMessage>, providerName: string): (ds: seq<DiagnosticMessage>)
    ensures |ds| == |msgs|
    ensures forall i :: 0 <= i < |msgs| ==> ds[i] == ToDiagnostic(msgs[i], providerName)
  {
    seq(|msgs|, i requires 0 <= i < |msgs| => ToDiagnostic(msgs[i], providerName))
  }

  predicate About(d: DiagnosticMessage, path: string) {
    d.scope == FileScope && d.filePath == Some(path)
  }

  function IsAbout(path: string): DiagnosticMessage -> bool {
    (d: DiagnosticMessage) => About(d, path)
  }

  function IsProjectWide(): DiagnosticMessage -> bool {
    (d: DiagnosticMessage) => d.scope == ProjectScope
  }

  /** The diagnostics about one file, in order. */
  function AboutFile(ds: seq<DiagnosticMessage>, path: string): seq<DiagnosticMessage> {
    Filter(ds, IsAbout(path))
  }

  /** The paths of the file diagnostics, in order and with repeats. */
  function FilePaths(ds: seq<DiagnosticMessage>): seq<string> {
    if |ds| == 0 then []
    else
      var last := ds[|ds| - 1];
      FilePaths(ds[..|ds| - 1]) + if last.scope == FileScope && last.filePath.Some? then [last.filePath.value] else []
  }

  /** The path whose messages are invalidated even when none are reported. */
  function CurrentKeys(currentPath: Option<string>): seq<string> {
    if Truthy(currentPath) then [currentPath.value] else []
  }

  /** An entry for the current path and for every file met, in first-met
      order. */
  predicate KeysFor(files: Obj<seq<DiagnosticMessage>>, currentPath: Option<string>, ds: seq<DiagnosticMessage>) {
    Wf(files) && Keys(files) == Union(CurrentKeys(currentPath), FilePaths(ds))
  }

  /** Each entry holds exactly the diagnostics about its file, in order. */
  ghost predicate ValuesFor(files: Obj<seq<DiagnosticMessage>>, ds: seq<DiagnosticMessage>) {
    forall k :: Has(files, k) ==> Get(files, k) == Some(AboutFile(ds, k))
  }

  /** No diagnostic is about a file without an entry. */
  ghost predicate NoneMissing(files: Obj<seq<DiagnosticMessage>>, ds: seq<DiagnosticMessage>) {
    forall k :: !Has(files, k) ==> AboutFile(ds, k) == []
  }

  /** What an update for these diagnostics holds: the file entries above, and
      the project diagnostics in their order. */
  ghost predicate Describes(u: Update, currentPath: Option<string>, ds: seq<DiagnosticMessage>) {
    KeysFor(u.filePathToMessages, currentPath, ds)
    && ValuesFor(u.filePathToMessages, ds)
    && u.projectMessages == Filter(ds, IsProjectWide())
  }

  /** One pass of the loop: a file diagnostic goes last in its file's list
      (created if new), any other last among the project's. */
  function AddDiagnostic(u: Update, d: DiagnosticMessage): Update
    requires d.scope == FileScope ==> d.filePath.Some?
  {
    if d.scope == FileScope then
      var path := d.filePath.value;
      var current := Get(u.filePathToMessages, path);
      var previous := if current.Some? then current.value else [];
      u.(filePathToMessages := SetProperty(u.filePathToMessages, path, previous + [d]))
    else
      u.(projectMessages := u.projectMessages + [d])
  }

  /** `linterMessagesToDiagnosticUpdate`. */
  method MessagesToUpdate(currentPath: Option<string>, msgs: seq<LinterMessage>, providerName: Option<string>)
    returns (u: Update)
    ensures Describes(u, currentPath, Converted(msgs, ProviderNameOrDefault(providerName)))
  {
    var name := ProviderNameOrDefault(providerName);
    ghost var ds := Converted(msgs, name);
    u := Update([], []);
    if Truthy(currentPath) {
      u := Update([(currentPath.value, [])], []);
    }
    ghost var seen: seq<DiagnosticMessage> := [];
    for i := 0 to |msgs|
      invariant seen == ds[..i]
      invariant Describes(u, currentPath, seen) && NoneMissing(u.filePathToMessages, seen)
    {
      var d := ToDiagnostic(msgs[i], name);
      if d.scope == FileScope {
        AddFileKeepsDescribes(u, currentPath, seen, d);
      } else {
        AddProjectKeepsDescribes(u, currentPath, seen, d);
      }
      u := AddDiagnostic(u, d);
      assert d == ds[i];
      SnocSlice(ds, i);
      seen := seen + [d];
    }
    WholeSlice(ds);
  }

  /** Every message lands in the update: under its file when it has a path,
      among the project's messages otherwise. */
  lemma EveryMessagePlaced(u: Update, currentPath: Option<string>, msgs: seq<LinterMessage>, name: string, i: nat)
    requires Describes(u, currentPath, Converted(msgs, name)) && i < |msgs|
    ensures var d := ToDiagnostic(msgs[i], name);
            if Truthy(msgs[i].filePath) then
              Has(u.filePathToMessages, msgs[i].filePath.value)
              && d in Get(u.filePathToMessages, msgs[i].filePath.value).value
            else d in u.projectMessages
  {
    var ds := Converted(msgs, name);
    var d := ds[i];
    if Truthy(msgs[i].filePath) {
      var path := msgs[i].filePath.value;
      FileOfPathIsMet(ds, i);
      assert path in Keys(u.filePathToMessages);
      assert IsAbout(path)(d);
    } else {
      assert IsProjectWide()(d);
    }
  }

  lemma {:induction false} FileOfPathIsMet(ds: seq<DiagnosticMessage>, i: nat)
    requires i < |ds| && ds[i].scope == FileScope && ds[i].filePath.Some?
    ensures ds[i].filePath.value in FilePaths(ds)
    decreases |ds|
  {
    var init := ds[..|ds| - 1];
    if i < |ds| - 1 {
      assert init[i] == ds[i];
      FileOfPathIsMet(init, i);
    }
  }

  lemma SnocSlice<T>(s: seq<T>, i: nat)
    requires i < |s|
    ensures s[..i] + [s[i]] == s[..i + 1]
  {
  }

  lemma WholeSlice<T>(s: seq<T>)
    ensures s[..|s|] == s
  {
  }

  lemma AddFileKeepsDescribes(u: Update, currentPath: Option<string>, a: seq<DiagnosticMessage>, d: DiagnosticMessage)
    requires d.scope == FileScope && d.filePath.Some?
    requires Describes(u, currentPath, a) && NoneMissing(u.filePathToMessages, a)
    ensures Describes(AddDiagnostic(u, d), currentPath, a + [d])
    ensures NoneMissing(AddDiagnostic(u, d).filePathToMessages, a + [d])
  {
    FilePathsSnoc(a, d);
    FiltersSnoc(a, d);
    FilterAppend(a, [d], IsProjectWide());
    var files := u.filePathToMessages;
    var path := d.filePath.value;
    var previous := if Get(files, path).Some? then Get(files, path).value else [];
    assert previous == AboutFile(a, path);
    assert AddDiagnostic(u, d) == Update(SetProperty(files, path, previous + [d]), u.projectMessages);
    KeysAfterFile(files, currentPath, a, d);
    ValuesAfterFile(files, a, d, previous);
    NoneMissingAfterFile(files, a, d, previous);
  }

  lemma AddProjectKeepsDescribes(u: Update, currentPath: Option<string>, a: seq<DiagnosticMessage>, d: DiagnosticMessage)
    requires d.scope == ProjectScope
    requires Describes(u, currentPath, a) && NoneMissing(u.filePathToMessages, a)
    ensures Describes(AddDiagnostic(u, d), currentPath, a + [d])
    ensures NoneMissing(AddDiagnostic(u, d).filePathToMessages, a + [d])
  {
    FilePathsSnoc(a, d);
    FiltersSnoc(a, d);
    FilterAppend(a, [d], IsProjectWide());
    assert FilePaths(a + [d]) == FilePaths(a);
    forall k ensures AboutFile(a + [d], k) == AboutFile(a, k) {
      assert AboutFile(a, k) + [] == AboutFile(a, k);
    }
  }

  lemma FilePathsSnoc(a: seq<DiagnosticMessage>, d: DiagnosticMessage)
    ensures FilePaths(a + [d]) == FilePaths(a) + if d.scope == FileScope && d.filePath.Some? then [d.filePath.value] else []
  {
    assert (a + [d])[..|a|] == a;
  }

  lemma FiltersSnoc(a: seq<DiagnosticMessage>, d: DiagnosticMessage)
    ensures forall k :: AboutFile(a + [d], k) == AboutFile(a, k) + if About(d, k) then [d] else []
  {
    forall k ensures AboutFile(a + [d], k) == AboutFile(a, k) + if About(d, k) then [d] else [] {
      FilterAppend(a, [d], IsAbout(k));
      assert Filter([d], IsAbout(k)) == if About(d, k) then [d] else [];
    }
  }

  lemma KeysAfterFile(files: Obj<seq<DiagnosticMessage>>, currentPath: Option<string>, a: seq<DiagnosticMessage>,
                      d: DiagnosticMessage)
    requires d.scope == FileScope && d.filePath.Some? && KeysFor(files, currentPath, a)
    requires FilePaths(a + [d]) == FilePaths(a) + [d.filePath.value]
    ensures forall v :: KeysFor(SetProperty(files, d.filePath.value, v), currentPath, a + [d])
  {
    UnionSnoc(CurrentKeys(currentPath), FilePaths(a), [d.filePath.value]);
  }

  lemma ValuesAfterFile(files: Obj<seq<DiagnosticMessage>>, a: seq<DiagnosticMessage>, d: DiagnosticMessage,
                        previous: seq<DiagnosticMessage>)
    requires d.scope == FileScope && d.filePath.Some?
    requires ValuesFor(files, a) && previous == AboutFile(a, d.filePath.value)
    requires forall k :: AboutFile(a + [d], k) == AboutFile(a, k) + if About(d, k) then [d] else []
    ensures ValuesFor(SetProperty(files, d.filePath.value, previous + [d]), a + [d])
  {
    forall k ensures Has(SetProperty(files, d.filePath.value, previous + [d]), k) ==>
                     Get(SetProperty(files, d.filePath.value, previous + [d]), k) == Some(AboutFile(a + [d], k)) {
      ValueAfterFileAt(files, a, d, previous, k);
    }
  }

  lemma ValueAfterFileAt(files: Obj<seq<DiagnosticMessage>>, a: seq<DiagnosticMessage>, d: DiagnosticMessage,
                         previous: seq<DiagnosticMessage>, k: string)
    requires d.scope == FileScope && d.filePath.Some?
    requires Has(files, k) ==> Get(files, k) == Some(AboutFile(a, k))
    requires previous == AboutFile(a, d.filePath.value)
    requires AboutFile(a + [d], k) == AboutFile(a, k) + if About(d, k) then [d] else []
    ensures var r := SetProperty(files, d.filePath.value, previous + [d]);
            Has(r, k) ==> Get(r, k) == Some(AboutFile(a + [d], k))
  {
    var path := d.filePath.value;
    var r := SetProperty(files, path, previous + [d]);
    if k == path {
      assert About(d, k);
      assert Get(r, k) == Some(previous + [d]);
    } else {
      assert !About(d, k);
      assert AboutFile(a + [d], k) == AboutFile(a, k);
      assert Get(r, k) == Get(files, k);
    }
  }

  lemma NoneMissingAfterFile(files: Obj<seq<DiagnosticMessage>>, a: seq<DiagnosticMessage>, d: DiagnosticMessage,
                             previous: seq<DiagnosticMessage>)
    requires d.scope == FileScope && d.filePath.Some?
    requires NoneMissing(files, a)
    requires forall k :: AboutFile(a + [d], k) == AboutFile(a, k) + if About(d, k) then [d] else []
    ensures NoneMissing(SetProperty(files, d.filePath.value, previous + [d]), a + [d])
  {
    var r := SetProperty(files, d.filePath.value, previous + [d]);
    forall k | !Has(r, k) ensures AboutFile(a + [d], k) == [] {
      assert Get(r, k) == Get(files, k);
      assert AboutFile(a + [d], k) == AboutFile(a, k) + [];
    }
  }

  /** Adding the paths of one more diagnostic to the keys met so far. */
  lemma {:induction false} UnionSnoc(a: seq<string>, b: seq<string>, c: seq<string>)
    requires |c| <= 1
    ensures Union(a, b + c) == if |c| == 0 then Union(a, b) else Add(Union(a, b), c[0])
    decreases |b|
  {
    if |b| == 0 {
      assert b + c == c;
      if |c| == 1 {
        assert c[1..] == [];
      }
    } else {
      assert (b + c)[1..] == b[1..] + c;
      UnionSnoc(Add(a, b[0]), b[1..], c);
    }
  }

  /** A lint run's outcome as the request serializer reports it: the
      messages, or outdated because a later run was started. */
  datatype LintResult = Success(result: seq<LinterMessage>) | Outdated

  /** `LinterProvider`, without `lint`, whose results are a parameter. */
  datatype Provider = Provider(providerName: Option<string>, grammarScopes: seq<string>, allGrammarScopes: bool, lintOnFly: bool)

  /** The adapter's state and the options it gives its provider base. */
  datatype Adapter = Adapter(provider: Provider, enabled: bool, runOnTheFly: bool)

  /** The constructor: enabled, running on the fly as the provider asks. */
  function NewAdapter(provider: Provider): (a: Adapter)
    ensures a.enabled && a.provider == provider
    ensures a.runOnTheFly == provider.lintOnFly
  {
    Adapter(provider, true, provider.lintOnFly)
  }

  /** The adapter lints on the fly only if its provider does. */
  predicate Inv(a: Adapter) {
    a.runOnTheFly ==> a.provider.lintOnFly
  }

  function SetEnabled(a: Adapter, enabled: bool): (r: Adapter)
    ensures r.enabled == enabled && r.provider == a.provider && r.runOnTheFly == a.runOnTheFly
  {
    a.(enabled := enabled)
  }

  /** `setLintOnFly`: the user can switch linting on the fly off, but not on
      for a provider that does not support it. */
  function SetLintOnFly(a: Adapter, lintOnFly: bool): (r: Adapter)
    ensures r.runOnTheFly <==> lintOnFly && a.provider.lintOnFly
    ensures r.enabled == a.enabled && r.provider == a.provider
  {
    a.(runOnTheFly := lintOnFly && a.provider.lintOnFly)
  }

  /** Every reachable adapter keeps `Inv`, and switching on the fly back on
      restores the constructor's choice. */
  lemma AdapterInvariant(p: Provider, a: Adapter, enabled: bool, lintOnFly: bool)
    ensures Inv(NewAdapter(p))
    ensures Inv(a) ==> Inv(SetEnabled(a, enabled)) && Inv(SetLintOnFly(a, lintOnFly))
    ensures SetLintOnFly(a, true).runOnTheFly == NewAdapter(a.provider).runOnTheFly
  {
  }

  /** `_runLint`: publishes the update for the editor's path when enabled and
      the run was not outdated; `None` means nothing is published. */
  method RunLint(a: Adapter, editorPath: Option<string>, result: LintResult) returns (published: Option<Update>)
    ensures published.Some? <==> a.enabled && result.Success?
    ensures published.Some? ==>
              Describes(published.value, editorPath,
                        Converted(result.result, ProviderNameOrDefault(a.provider.providerName)))
  {
    if a.enabled && result.Success? {
      var u := MessagesToUpdate(editorPath, result.result, a.provider.providerName);
      published := Some(u);
    } else {
      published := None;
    }
  }

  /** The active editor as `_newUpdateSubscriber` sees it. */
  datatype Editor = Editor(path: Option<string>, scopeName: string)

  /** `_newUpdateSubscriber`: the editor to lint for a new subscriber, if any.
      Only the provider's own grammar scopes count here, even for a provider
      that lints every grammar. */
  function NewUpdateSubscriber(a: Adapter, activeEditor: Option<Editor>, lintInProgress: bool): (lint: Option<Editor>)
    ensures lint.Some? <==> activeEditor.Some? && !lintInProgress && activeEditor.value.scopeName in a.provider.grammarScopes
    ensures lint.Some? ==> lint == activeEditor
  {
    match activeEditor
    case None => None
    case Some(e) =>
      if !lintInProgress && FirstIndex(a.provider.grammarScopes, e.scopeName) != -1 then Some(e) else None
  }
}
