# Nuclide core, modelled in Dafny

This project models the parts of Nuclide, the Atom IDE package set, that hold
its core logic, as pure Dafny functions over immutable data, and proves what
that code promises. Each `.dfy` file names the source file it models in its
header comment.

- **Clang server client** (`clang_server.dfy`). This is `ClangServer`: request
  ids and framing, one listener per request, flag look-up and change
  notification, settling of replies, and `_cleanup`/`dispose` failing every
  pending request in order.
- **ocamlmerlin client.** Both `MerlinProcess` files are modelled: the RPC
  one (`merlin_rpc.dfy`, two protocol dialects chosen by the reported
  version) and the base one (`merlin_base.dfy`, with opam's binary
  directory added to PATH). They share `merlin_protocol.dfy`: reply
  classification against `ERROR_RESPONSES`, the command builders, the
  command sequences that load a buffer, the post-processing of `locate`,
  the configured binary and flags, and the cached install check. Most
  methods are the same in both files; a row below cites the RPC file's
  lines when the base file's code is the same.
- **File tree.**
  - `file_tree_store.dfy`: `FileTreeStore`'s data. This covers the
    per-root expansion and selection, the child key map, the filter, the
    working set, export and load, and the JavaScript object helpers.
  - `file_tree_expansion.dfy`: expanding, including the remembered
    expansion of children and the bounded deep expansion.
  - `file_tree_collapse.dfy`: collapsing, including unselecting, recording
    expanded children and dropping subscriptions.
  - `file_tree_purge.dfy`: `_purgeNode`, `_purgeDirectoryWithinARoot`,
    `_purgeDirectory`, `_purgeRoot` and `_setChildKeys`.
  - `file_tree_visible.dfy`: `getVisibleNodes`, the stack walk that lists
    the nodes shown under one root.
  - `file_tree_controller.dfy`: `FileTreeController`'s keyboard movement
    (`_moveDown`, `_moveUp`, to top and to bottom), revealing a node, and
    collapsing the selection.
  - `file_tree_view.dfy`: the windowed rendering of `FileTree.js`.
- **Diagnostics and blame.**
  - `linter_adapter.dfy`: `LinterAdapter`, which turns linter messages into
    a diagnostic update, plus its enable and lint-on-the-fly gating.
  - `flow_linter.dfy`: `FlowLinter`, which turns Flow errors into linter
    messages.
  - `git_blame_provider.dfy`: `GitBlameProvider`'s formatting of blame lines.
- **Small utilities.**
  - `watch_expression_list.dfy`: the debugger's watch expression list.
  - `buck_utils.dfy`: the Buck query helpers of the Rust package.
  - `which.dfy`: `which`.

Helpers:
- `wrappers.dfy`: `Option`/`Result`.
- `seqs.dfy`: sequence filtering, duplicate-free sets and the like.
- `text.dfy`: string search, `/\S+/g` matching and `trim`.
- `js_object.dfy`: JavaScript objects as ordered key/value lists.
- `paths.dfy`: file-tree keys and `dirname`/`basename`.

How the model is built:
- I/O, clocks and child processes are parameters: a reply line, an exit
  code, the output of a command, a configuration value.
- Promises and queues become sequential state transitions. The result of an
  operation is either a new state plus what was settled, or an outcome
  such as resolved, rejected, unsettled, or threw.
- A JavaScript object whose key order can be observed is an ordered list of
  pairs. Other maps are Dafny maps.
- An Immutable.js `Set` or `OrderedSet` is a duplicate-free sequence in
  insertion order.

## Model

| member | source | states |
|---|---|---|
| ClangServer.Init | pkg/nuclide-clang/lib/ClangServer.js:78-89 | a new server has request ids from 0, nothing processed (-1), no pending compile, is not disposed, has seen no flag change and has not asked for flags; the server invariant holds |
| ClangServer.Admit | pkg/nuclide-clang/lib/ClangServer.js:163-176 | a disposed server refuses; a non-compile, non-blocking call during a compile returns null at once; otherwise the call is admitted and a compile raises the pending count by one; nothing is written |
| ClangServer.Finish | pkg/nuclide-clang/lib/ClangServer.js:179-183 | the finished call leaves the active calls and a compile gives its count back; nothing else changes |
| ClangServer.CompileCallsAdd | pkg/nuclide-clang/lib/ClangServer.js:170-171 | admitting a call adds one compile call exactly when it is a compile |
| ClangServer.CompileCallsRemove | pkg/nuclide-clang/lib/ClangServer.js:180-181 | finishing a call removes one compile call exactly when it was a compile |
| ClangServer.AdmitFinishKeepInv | pkg/nuclide-clang/lib/ClangServer.js:163-184 | admitting and finishing keep the pending-compile count equal to the number of compile calls in flight, so it is never negative |
| ClangServer.CompileRoundTrip | pkg/nuclide-clang/lib/ClangServer.js:163-184 | a compile call that runs to its finally leaves the pending count where it found it |
| ClangServer.GetFlags | pkg/nuclide-clang/lib/ClangServer.js:131-151 | cached flags are returned without asking; the first call asks the manager once, caches its answer (the entry's flags, or none) and subscribes to changes when there is an entry; nothing else changes |
| ClangServer.FlagsAskedOnce | pkg/nuclide-clang/lib/ClangServer.js:131-151 | two flag requests, with any replies, ask the manager once and give the first answer both times |
| ClangServer.FlagsChangeNotified | pkg/nuclide-clang/lib/ClangServer.js:138-139 | a change event sets the changed flag while subscribed and changes nothing else |
| ClangServer.FlagsStreamEnded | pkg/nuclide-clang/lib/ClangServer.js:140-143 | an errored change stream leaves the server unsubscribed and nothing else changed |
| ClangServer.ResolveFlags | pkg/nuclide-clang/lib/ClangServer.js:191-199 | real flags are used and marked accurate; without them and without default flags the request gives null; otherwise the augmented default flags are used and marked inaccurate |
| ClangServer.Connect | pkg/nuclide-clang/lib/ClangServer.js:251-279 | an existing connection is reused; otherwise a spawn is tried and the connection exists exactly when it succeeded |
| ClangServer.Issue | pkg/nuclide-clang/lib/ClangServer.js:206-227 | the request takes the next id, which then grows by one; one frame with the method and flags is written; a listener for the id is added; nothing else changes |
| ClangServer.SendRequest | pkg/nuclide-clang/lib/ClangServer.js:186-227 | a sent request takes the next id, appends exactly one frame of its method and waits on its id; a request resolved early to null writes nothing and takes no id; the invariant is kept |
| ClangServer.IdsIncrease | pkg/nuclide-clang/lib/ClangServer.js:247-249 | of two requests sent in turn the second has the larger id, and it is one nobody was waiting on |
| ClangServer.SettleAsWritten | pkg/nuclide-clang/lib/ClangServer.js:226-244 | as written: an error on a live server rejects; otherwise a compile with no result throws out of the listener |
| ClangServer.Settle | pkg/nuclide-clang/lib/ClangServer.js:226-244 | corrected: never throws; an error on a live server rejects with it; otherwise the result is resolved, a compile result gains the accuracy flag, and whenever the code as written does not throw the outcomes agree |
| ClangServer.RespondAsWritten | pkg/nuclide-clang/lib/ClangServer.js:227-243 | as written: a response for an unknown id changes nothing; otherwise the id becomes the last processed and its listener is removed, and the listener throws exactly for a compile response without a result that is not rejected; the pending compile count is left raised |
| ClangServer.Respond | pkg/nuclide-clang/lib/ClangServer.js:227-243 | corrected: the same state change, and the request always settles; whenever the code as written does not throw, the outcomes agree |
| ClangServer.CompileWithoutResultStalls | pkg/nuclide-clang/lib/ClangServer.js:170-183 | as written, a compile response `{id}` on a live server throws in the listener, so the compile count stays raised and a non-blocking completion request gets the early null; the corrected listener resolves it with null |
| ClangServer.Range | pkg/nuclide-clang/lib/ClangServer.js:118 | the ids the kill loop walks: from the first up to but excluding the last, in order |
| ClangServer.EmitKilledAsWritten | pkg/nuclide-clang/lib/ClangServer.js:118-120 | as written the kill loop only removes listeners and keeps the ids, disposal and connection |
| ClangServer.EmitKilledAsWrittenThrows | pkg/nuclide-clang/lib/ClangServer.js:118-120 | as written the kill loop throws exactly when the server is disposed and a compile request is still waiting in the loop's range |
| ClangServer.CleanupAsWritten | pkg/nuclide-clang/lib/ClangServer.js:114-129 | as written, a listener throws exactly when the server is disposed and a compile request is waiting, and then the connection and the change subscription are left as they were; otherwise all listeners are removed and the subscription is dropped |
| ClangServer.DisposeAsWritten | pkg/nuclide-clang/lib/ClangServer.js:91-94 | as written disposal marks the server disposed, and stops early with the connection open exactly when a compile request is waiting; otherwise every listener is removed |
| ClangServer.KilledSettlement | pkg/nuclide-clang/lib/ClangServer.js:118-120 | a killed request is rejected with "Server was killed." on a live server and resolved empty on a disposed one |
| ClangServer.EmitKilled | pkg/nuclide-clang/lib/ClangServer.js:118-120 | every request the loop settles gets the killed settlement, only the processed id and the listeners change, and the processed id stays in the loop's range |
| ClangServer.EmitKilledSettlesWaitingIds | pkg/nuclide-clang/lib/ClangServer.js:118-120 | the loop settles exactly the ids in the range that have a listener, in increasing order |
| ClangServer.SkipStep | pkg/nuclide-clang/lib/ClangServer.js:118-120 | an id without a listener is skipped |
| ClangServer.SettleStep | pkg/nuclide-clang/lib/ClangServer.js:118-120 | a waiting id is settled and the loop goes on with the rest |
| ClangServer.EmitOneKilled | pkg/nuclide-clang/lib/ClangServer.js:118-120 | settling the first waiting id removes only its listener before the rest of the loop |
| ClangServer.FilterOnRest | pkg/nuclide-clang/lib/ClangServer.js:118-120 | removing one listener does not change which later ids are waiting |
| ClangServer.Cleanup | pkg/nuclide-clang/lib/ClangServer.js:114-129 | every unprocessed waiting request is settled as killed, in id order; then no listener remains, the change subscription is dropped and a live connection is killed; ids, flags and disposal stay |
| ClangServer.Dispose | pkg/nuclide-clang/lib/ClangServer.js:91-94 | after disposal the server is disposed, has no listeners, and every pending request resolved empty, in id order |
| ClangServer.StreamError | pkg/nuclide-clang/lib/ClangServer.js:261-272 | a stream error drops the connection and marks every issued id processed; on a live server it first cleans up, rejecting the waiting requests as killed; on a disposed one it settles nothing |
| ClangServer.FlagsChangedIsSticky | pkg/nuclide-clang/lib/ClangServer.js:138-155 | once flags changed, no event sets the changed flag back |
| ClangServer.DisposeWithPendingCompileAborts | pkg/nuclide-clang/lib/ClangServer.js:114-129 | disposing with a compile and another request outstanding: as written the compile's listener throws, the other request keeps its listener and the connection stays live, while the corrected clean-up removes all listeners |
| MerlinProtocol.Classify | pkg/nuclide-ocaml-rpc/lib/MerlinProcess.js:483-507 | a reply line is accepted exactly when it parses to a two-element array whose status is not one of 'failure', 'error', 'exception', and the answer is then the second element; a line that is not such an array fails with the format error, a two-element array with an error status fails with the returned-error failure, and no other failure is possible |
| MerlinProtocol.FailureMessage | pkg/nuclide-ocaml-rpc/lib/MerlinProcess.js:491-503 | the format failure carries 'Unexpected ocamlmerlin output format', the error-status failure carries 'Ocamlmerlin returned an error', and a locate failure carries ocamlmerlin's own text |
| MerlinProtocol.EnvelopeRoundTrip | pkg/nuclide-ocaml-rpc/lib/MerlinProcess.js:25-29 | an envelope `[status, content]` reads back as `content` if and only if the status is not in the error set; a status in the error set always reads back as the returned-error failure |
| MerlinProtocol.Strs | pkg/nuclide-ocaml-rpc/lib/MerlinProcess.js:136-146 | the command words become a JSON array of the same length holding the same strings in the same order |
| MerlinProtocol.QueriedPositionRoundTrip | pkg/nuclide-ocaml-rpc/lib/MerlinProcess.js:173-226 | the editor position can be recovered from the `locate`, `type enclosing` and `complete` commands, so the 1-based shift of the line (and, for `complete`, of the column) loses nothing |
| MerlinProtocol.RunSingleCommand | pkg/nuclide-ocaml-rpc/lib/MerlinProcess.js:472-511 | the command is written to ocamlmerlin; with no reply line the call never settles; otherwise exactly one reply line is consumed and its classification is the result |
| MerlinProtocol.RunSequence | pkg/nuclide-ocaml-rpc/lib/MerlinProcess.js:148-171 | the commands written are a non-empty prefix of the sequence, in order, after what was already written; the sequence stops early only on a failure or a missing reply, and a success means every command was written |
| MerlinProtocol.AwaitedOutcome | pkg/nuclide-ocaml-rpc/lib/MerlinProcess.js:148-171 | a method whose executor awaits its commands resolves exactly when the last command succeeded, with that answer, and never rejects: a failure leaves the queued promise unsettled |
| MerlinProtocol.ChainedOutcome | pkg/nuclide-ocaml-rpc/lib/MerlinProcess.js:203-213 | a method whose executor chains `.then(resolve).catch(reject)` resolves exactly on success with the answer and rejects exactly on failure with that failure; with a reply it never stays unsettled |
| MerlinProtocol.PushNewBufferCommands | pkg/nuclide-ocaml-rpc/lib/MerlinProcess.js:148-171 | the 2.3.1 dialect loads a buffer with the four commands reset, seek before start, drop, tell source-eof, in that order; the 2.5 dialect sends the single tell start end command |
| MerlinProtocol.PushNewBuffer | pkg/nuclide-ocaml-rpc/lib/MerlinProcess.js:148-171 | `pushNewBuffer` writes a non-empty prefix of its dialect's command list, resolves only after writing all of it, and never rejects |
| MerlinProtocol.PushNewBufferLegacyOrder | pkg/nuclide-ocaml-rpc/lib/MerlinProcess.js:148-171 | when ocamlmerlin answers all four 2.3.1 commands with 'return', all four are written in order and the call resolves with the last answer |
| MerlinProtocol.RunSequenceAllReturn | pkg/nuclide-ocaml-rpc/lib/MerlinProcess.js:148-171 | when every command of a sequence is answered with 'return', the whole sequence is written, one reply per command is consumed, and the result is the last answer |
| MerlinProtocol.PushDotMerlinPath | pkg/nuclide-ocaml-rpc/lib/MerlinProcess.js:136-146 | `pushDotMerlinPath` writes the single `reset dot_merlin [file] auto` command and never rejects |
| MerlinProtocol.LocateResult | pkg/nuclide-ocaml-rpc/lib/MerlinProcess.js:189-200 | a string answer rejects with that string as the message, and only a string does; null, a boolean or a number leaves the promise unsettled by a TypeError, and only those do; an array resolves unchanged; an object resolves as an object whose `file` is the queried file when its own is missing or falsy, with every other property unchanged |
| MerlinProtocol.Locate | pkg/nuclide-ocaml-rpc/lib/MerlinProcess.js:173-201 | `locate` writes the command with the 1-based line; a successful reply is post-processed by the locate result rules, and a failed one leaves the promise unsettled with that failure |
| MerlinProtocol.Query | pkg/nuclide-ocaml-rpc/lib/MerlinProcess.js:203-242 | `type enclosing`, `complete`, `errors` and `outline` write their command and settle with the chained outcome of the first reply, and never settle without one |
| MerlinProtocol.MerlinFlags | pkg/nuclide-ocaml-rpc/lib/MerlinProcess.js:446-453 | an unset flag setting gives no flags; a set one gives its maximal non-whitespace runs, each non-empty and free of whitespace |
| MerlinProtocol.MerlinFlagsRoundTrip | pkg/nuclide-ocaml-rpc/lib/MerlinProcess.js:446-453 | the flags concatenate to the setting with its whitespace removed, and flags joined by single spaces split back to exactly the same flags |
| MerlinProtocol.PathToMerlin | pkg/nuclide-ocaml-rpc/lib/MerlinProcess.js:438-441 | the binary is the configured path when it is set and non-empty and 'ocamlmerlin' otherwise, so it is never empty |
| MerlinProtocol.IsInstalled | pkg/nuclide-ocaml-rpc/lib/MerlinProcess.js:455-465 | a cached answer is returned without running `which`; without one, `which` runs and the answer, which is cached, is true exactly when it exited with 0 |
| MerlinProtocol.IsInstalledCachedForever | pkg/nuclide-ocaml-rpc/lib/MerlinProcess.js:455-465 | after the first call, a later call returns the same cache and never runs `which` again, whatever its exit code would be |
| MerlinProtocol.SpawnCwd | pkg/nuclide-ocaml-rpc/lib/MerlinProcess.js:387-389 | the process runs in the directory holding the nearest `.merlin`, or in '.' when none was found |
| MerlinRpc.DotPairsHaveNoComma | pkg/nuclide-ocaml-rpc/lib/MerlinProcess.js:424 | text matched by `(\.\d)*` holds no comma |
| MerlinRpc.VersionTailHasNoComma | pkg/nuclide-ocaml-rpc/lib/MerlinProcess.js:424 | text matched by the rest of `\d+(\.\d)*` holds no comma |
| MerlinRpc.ParseVersionMeans | pkg/nuclide-ocaml-rpc/lib/MerlinProcess.js:424-425 | the banner yields version `v` if and only if it starts with 'The Merlin toolkit version ', then `v`, then a comma, and `v` matches `\d+(\.\d)*` |
| MerlinRpc.ParseVersionRoundTrip | pkg/nuclide-ocaml-rpc/lib/MerlinProcess.js:424-425 | the banner printed for any version `v`, whatever follows its comma, reads back as `v` |
| MerlinRpc.GetVersion | pkg/nuclide-ocaml-rpc/lib/MerlinProcess.js:415-431 | a failed `protocol version` command gives '2.3.1'; the result is always '2.3.1' or a version string; a banner that matches gives the version it names |
| MerlinRpc.ProtocolFor | pkg/nuclide-ocaml-rpc/lib/MerlinProcess.js:394-404 | version '2.5.0', and only it, selects the 2.5 dialect; '2.3.1', and only it, selects the 2.3.1 dialect; every other version is unsupported |
| MerlinRpc.GetInstance | pkg/nuclide-ocaml-rpc/lib/MerlinProcess.js:373-413 | a running instance is returned with no spawn; otherwise the `which` answer is cached and, when it says not installed, null is returned with no spawn; a spawn uses the configured binary, the split flags and the `.merlin` directory; a new instance is kept, running, after the version command and, exactly when a `.merlin` was found, the dot-merlin command; a null answer keeps the previous instance |
| MerlinRpc.Launch | pkg/nuclide-ocaml-rpc/lib/MerlinProcess.js:391-412 | the spawn always happens and leaves the `which` cache alone; a returned instance is the kept one, running, with the version command and the optional dot-merlin command written; an unsupported version keeps the previous instance |
| MerlinRpc.GetInstanceReusesRunning | pkg/nuclide-ocaml-rpc/lib/MerlinProcess.js:374-376 | once an instance is running, two calls in a row return it without spawning or changing any state |
| MerlinRpc.VersionSelectsDialect | pkg/nuclide-ocaml-rpc/lib/MerlinProcess.js:393-397 | when ocamlmerlin answers the version command with a 2.5.0 banner, the new instance speaks the 2.5 dialect |
| MerlinRpc.BannerOfCurrentVersion | pkg/nuclide-ocaml-rpc/lib/MerlinProcess.js:424-425 | a banner naming 2.5.0 is read as '2.5.0' |
| MerlinBase.PathText | pkg/nuclide-ocaml-base/lib/MerlinProcess.js:241 | the template `${env.PATH}` prints the PATH value, or 'undefined' when PATH is unset |
| MerlinBase.EnvWithOpamBin | pkg/nuclide-ocaml-base/lib/MerlinProcess.js:237-247 | without an `opam` answer the promise rejects; a non-zero exit returns the environment unchanged; exit 0 sets PATH to the old PATH, the delimiter and opam's trimmed output; every other variable is kept and a well-formed environment stays well formed |
| MerlinBase.OpamBinExtendsPath | pkg/nuclide-ocaml-base/lib/MerlinProcess.js:239-242 | after a successful `opam config var bin`, PATH starts with the old PATH followed by the delimiter |
| MerlinBase.NextOpam | pkg/nuclide-ocaml-base/lib/MerlinProcess.js:238 | each `opam` run takes the next scripted answer, and none is left when the script is exhausted |
| MerlinBase.IsInstalledWithOpam | pkg/nuclide-ocaml-base/lib/MerlinProcess.js:305-321 | a cached answer is returned without running `opam` or `which`; otherwise the answer, which is cached, is true exactly when `which` exited with 0, and the call rejects exactly when the `opam` run fails |
| MerlinBase.GetInstance | pkg/nuclide-ocaml-base/lib/MerlinProcess.js:251-281 | a running instance is returned with no spawn; null or a failure keeps the previous instance and spawns nothing; a spawn uses the configured binary, the split flags, the `.merlin` directory and an environment extended by an `opam` run; the spawned process becomes the instance before the dot-merlin command, which is written exactly when a `.merlin` was found |
| MerlinBase.SpawnUsesSecondOpamRun | pkg/nuclide-ocaml-base/lib/MerlinProcess.js:259-271 | with nothing cached, the install check consumes the first `opam` run and the spawn's PATH is built from the second |
| FileTreeStore.Defaults | pkg/nuclide-file-tree/lib/FileTreeStore.js:202-227 | a fresh store has no roots, no selection and no expanded keys, hides ignored names, excludes VCS-ignored paths and is not editing a working set |
| FileTreeStore.ExpandedKeys | pkg/nuclide-file-tree/lib/FileTreeStore.js:841-843 | a root without an entry has the empty expanded set |
| FileTreeStore.SelectedKeys | pkg/nuclide-file-tree/lib/FileTreeStore.js:471-486 | a root without a selection entry reads as the empty ordered set |
| FileTreeStore.PreviouslyExpanded | pkg/nuclide-file-tree/lib/FileTreeStore.js:829-831 | a root without an entry reads as the empty memory map |
| FileTreeStore.RootForKey | pkg/nuclide-file-tree/lib/FileTreeStore.js:364-366 | the answer is a root the key starts with, the first such in root order, and none only when no root is a prefix of the key |
| FileTreeStore.FirstPrefix | pkg/nuclide-file-tree/lib/FileTreeStore.js:364-366 | the search over the root list returns a listed prefix of the key, or none when no listed root is a prefix |
| FileTreeStore.SetExpandedKeys | pkg/nuclide-file-tree/lib/FileTreeStore.js:854-859 | the root's expanded set becomes the given one; every other root's set and every other store field stay |
| FileTreeStore.SetPreviouslyExpanded | pkg/nuclide-file-tree/lib/FileTreeStore.js:833-839 | the root's memory map becomes the given one; other roots and other fields stay |
| FileTreeStore.SetSelectedKeys | pkg/nuclide-file-tree/lib/FileTreeStore.js:865-876 | the root's selection becomes the given keys, the tracked node is cleared, other roots keep their selection, and duplicate-free selections stay duplicate-free |
| FileTreeStore.SetPropertyKeepsSelectionWf | pkg/nuclide-file-tree/lib/FileTreeStore.js:1247-1258 | writing a duplicate-free key list into a well-formed selection object keeps it well formed |
| FileTreeStore.DeleteSelectedKeys | pkg/nuclide-file-tree/lib/FileTreeStore.js:861-863 | the root loses its selection entry and every other root keeps its own |
| FileTreeStore.SetSelectionOfRoots | pkg/nuclide-file-tree/lib/FileTreeStore.js:882-890 | each listed root takes its entry from the new selection (or loses its entry), others keep theirs, and the tracked node is cleared exactly when some root received keys |
| FileTreeStore.SetSelectedKeysByRoot | pkg/nuclide-file-tree/lib/FileTreeStore.js:882-890 | for the store's own roots: a root present in the new selection takes its keys, an absent root loses its entry, non-roots are untouched, roots and expansion stay |
| FileTreeStore.MergeSelections | pkg/nuclide-file-tree/lib/FileTreeStore.js:471-479 | merging ordered sets keeps the accumulator as a prefix, stays duplicate-free, and holds exactly the accumulated keys plus every key some root selects |
| FileTreeStore.AllSelectedKeys | pkg/nuclide-file-tree/lib/FileTreeStore.js:471-479 | getSelectedKeys() with no root lists each selected key once, every key selected under any root appears, nothing else does, and the first root's selection comes first |
| FileTreeStore.SelectedAreMerged | pkg/nuclide-file-tree/lib/FileTreeStore.js:471-479 | a key selected under any root appears in the merged selection |
| FileTreeStore.MergeFirstFresh | pkg/nuclide-file-tree/lib/FileTreeStore.js:471-479 | the merged selection starts with the first root's own keys |
| FileTreeStore.SingleSelectedNode | pkg/nuclide-file-tree/lib/FileTreeStore.js:544-557 | there is a single selected node exactly when one root has a selection entry and that entry holds one key; the node is that root and key |
| FileTreeStore.OmitHiddenPaths | pkg/nuclide-file-tree/lib/FileTreeStore.js:1151-1161 | the result is an order-preserving subsequence of the keys; with no hiding option on it is the input, otherwise it holds exactly the keys that are not hidden |
| FileTreeStore.AddFilterLetter | pkg/nuclide-file-tree/lib/FileTreeStore.js:635-639 | the filter becomes the old filter (a missing one read as empty) followed by the letter; nothing else changes |
| FileTreeStore.ClearFilter | pkg/nuclide-file-tree/lib/FileTreeStore.js:641-646 | a non-empty filter becomes the empty string; an empty or missing filter leaves the store as it was |
| FileTreeStore.RemoveFilterLetter | pkg/nuclide-file-tree/lib/FileTreeStore.js:648-653 | a non-empty filter loses its last character; an empty or missing filter leaves the store as it was |
| FileTreeStore.RemoveUndoesAdd | pkg/nuclide-file-tree/lib/FileTreeStore.js:635-653 | removing a letter right after adding one gives back the old filter text |
| FileTreeStore.SetFilterFound | pkg/nuclide-file-tree/lib/FileTreeStore.js:655-660 | the found flag is set to the argument and nothing else changes |
| FileTreeStore.FilterFound | pkg/nuclide-file-tree/lib/FileTreeStore.js:662-664 | the getter is true exactly when the flag was set to true |
| FileTreeStore.StartEditingWorkingSet | pkg/nuclide-file-tree/lib/FileTreeStore.js:1092-1097 | editing starts with the given working set only when not already editing; otherwise nothing changes |
| FileTreeStore.FinishEditingWorkingSet | pkg/nuclide-file-tree/lib/FileTreeStore.js:1099-1104 | editing stops and the edited set becomes empty; when not editing nothing changes |
| FileTreeStore.CheckNode | pkg/nuclide-file-tree/lib/FileTreeStore.js:1106-1126 | outside editing nothing changes; while editing exactly one key is appended to the edited set, and that key is the node itself or one of its ancestors at or below the root, and nothing else changes |
| FileTreeStore.UncheckNode | pkg/nuclide-file-tree/lib/FileTreeStore.js:1128-1149 | outside editing nothing changes; unchecking a root removes it; otherwise, when the parent is not in the edited set the node is removed, and when it is, the parent is unchecked first and then the node's siblings are appended |
| FileTreeStore.RemoveSubscription | pkg/nuclide-file-tree/lib/FileTreeStore.js:962-981 | the watcher of a key is kept exactly when another root still shows the key expanded; a dropped watcher marks the key dirty; other keys are untouched |
| FileTreeStore.RemoveSubscriptions | pkg/nuclide-file-tree/lib/FileTreeStore.js:1046-1050 | applying the removal to a list of keys affects each listed key as the single removal would and leaves the unlisted keys alone |
| FileTreeStore.DirChildren | pkg/nuclide-file-tree/lib/FileTreeStore.js:1045-1065 | the keys whose lists a root purge drops are exactly the root's cached children that are directories |
| FileTreeStore.DropExpanded | pkg/nuclide-file-tree/lib/FileTreeStore.js:1045-1065 | the root leaves the expanded map and every other root's expanded set stays |
| FileTreeStore.DropChildLists | pkg/nuclide-file-tree/lib/FileTreeStore.js:1045-1065 | the root's list and its directory children's lists are dropped, every other list stays, and the tree invariant is kept |
| FileTreeStore.PurgeRoot | pkg/nuclide-file-tree/lib/FileTreeStore.js:1045-1065 | a purged root loses its expanded set, selection, VCS statuses and child lists; every other root's entries stay; the store invariants are kept |
| FileTreeStore.DeletePropertyKeepsSelectionWf | pkg/nuclide-file-tree/lib/FileTreeStore.js:1237-1244 | deleting a key from a well-formed selection object keeps it well formed |
| FileTreeStore.PurgeRoots | pkg/nuclide-file-tree/lib/FileTreeStore.js:892-898 | every removed root is purged, every other root keeps its expanded set, selection and statuses, and the store invariants are kept |
| FileTreeStore.SetRootKeys | pkg/nuclide-file-tree/lib/FileTreeStore.js:892-898 | the root list becomes the new one, roots that left are purged, roots that stay keep their expanded sets and statuses, and the store invariants are kept |
| FileTreeStore.RemovedRoots | pkg/nuclide-file-tree/lib/FileTreeStore.js:892-898 | the removed roots are exactly the old roots missing from the new list |
| FileTreeStore.KeptRootsUnchanged | pkg/nuclide-file-tree/lib/FileTreeStore.js:892-898 | after the root list is replaced, each root in the new list has the expanded set it had before |
| FileTreeStore.AllExpanded | pkg/nuclide-file-tree/lib/FileTreeStore.js:133-138 | a key is in the set exactly when some root has it expanded |
| FileTreeStore.Export | pkg/nuclide-file-tree/lib/FileTreeStore.js:129-146 | the export carries the current version, the child lists of exactly the expanded keys, and the expanded sets, roots and selection as they are |
| FileTreeStore.Load | pkg/nuclide-file-tree/lib/FileTreeStore.js:151-168 | data of another version leaves the store alone; otherwise the store is the defaults plus the loaded lists, expansion, roots and selection, with a watcher on every loaded list key |
| FileTreeStore.ExportLoadRoundTrip | pkg/nuclide-file-tree/lib/FileTreeStore.js:129-168 | loading an export restores the roots, expanded sets, selection and the child lists of expanded nodes |
| FileTreeStore.LoadOtherVersionIgnored | pkg/nuclide-file-tree/lib/FileTreeStore.js:151-155 | data whose version differs leaves the store unchanged |
| FileTreeExpansion.SubsetCard | pkg/nuclide-file-tree/lib/FileTreeStore.js:737-749 | a subset of keys has no more elements than the set (the measure that makes re-expansion terminate) |
| FileTreeExpansion.RecordsShrinkCard | pkg/nuclide-file-tree/lib/FileTreeStore.js:737-749 | a memory map that lost some keys has no more entries, so each recursive expansion consumes memory |
| FileTreeExpansion.ExpandFrom | pkg/nuclide-file-tree/lib/FileTreeStore.js:737-749 | the node and every remembered child are expanded, the node's record is gone, records only shrink; with the stale write-back the memory is the old one less the node, without it the children's records are consumed too |
| FileTreeExpansion.ExpandChildren | pkg/nuclide-file-tree/lib/FileTreeStore.js:742-744 | each remaining remembered child ends expanded with no record of its own, and nothing is unexpanded |
| FileTreeExpansion.ExpandFromWithoutRecord | pkg/nuclide-file-tree/lib/FileTreeStore.js:737-749 | a node with no record only joins the expanded set |
| FileTreeExpansion.ExpandNodeWith | pkg/nuclide-file-tree/lib/FileTreeStore.js:737-749 | expanding touches only the expanded sets and memory maps, only of this root, and leaves the memory alone when the node has no record |
| FileTreeExpansion.ExpandNodeWithState | pkg/nuclide-file-tree/lib/FileTreeStore.js:737-749 | the store's expanded set and memory for the root are the result of the expansion walk |
| FileTreeExpansion.ExpandNodeAsWritten | pkg/nuclide-file-tree/lib/FileTreeStore.js:737-749 | as written: the node and its remembered children are expanded, but the root's memory is the one read before recursing, less the node only |
| FileTreeExpansion.ExpandNode | pkg/nuclide-file-tree/lib/FileTreeStore.js:737-749 | corrected: the node is expanded, nothing is unexpanded, memory only shrinks and stays well formed, the node's record is gone, and every remembered child is expanded with its own record consumed |
| FileTreeExpansion.ExpandNodeWithoutRecord | pkg/nuclide-file-tree/lib/FileTreeStore.js:737-749 | with no record, expanding a node adds exactly that node to the root's expanded set and changes nothing else |
| FileTreeExpansion.ExpandKeepsConsumedRecord | pkg/nuclide-file-tree/lib/FileTreeStore.js:740-747 | on a two-level memory the as-written expansion leaves the child's record behind while the corrected one consumes it |
| FileTreeExpansion.DirKeys | pkg/nuclide-file-tree/lib/FileTreeStore.js:1313-1314 | the next level of the walk is exactly the directory keys among the children |
| FileTreeExpansion.BfsStep | pkg/nuclide-file-tree/lib/FileTreeStore.js:1310-1324 | one resolution of the iterator appends the current node to the traversal, keeps the breadth-first invariant, and either counts more children or shortens the queue |
| FileTreeExpansion.BfsTraversal | pkg/nuclide-file-tree/lib/FileTreeStore.js:1285-1339 | the walk starts at the node (none for the empty key), visits at most the limit, each later node is a directory child of an earlier one, and a walk stopped under the limit reaches every directory below |
| FileTreeExpansion.ExpandNodeDeep | pkg/nuclide-file-tree/lib/FileTreeStore.js:755-784 | the deep expansion adds exactly the traversed keys to the root's expanded set and removes exactly their records; other roots and other fields stay |
| FileTreeCollapse.KeysFrom | pkg/nuclide-file-tree/lib/FileTreeStore.js:789-827 | the cached keys at least as long as a bound, the measure under which the recursive collapse and purge terminate |
| FileTreeCollapse.KeysFromShrinks | pkg/nuclide-file-tree/lib/FileTreeStore.js:806-810 | recursing into a longer child key strictly shrinks the measure |
| FileTreeCollapse.Unsubscribe | pkg/nuclide-file-tree/lib/FileTreeStore.js:962-981 | the key's watcher survives exactly when it is shared with another root; a dropped watcher marks the key dirty; other keys are untouched |
| FileTreeCollapse.UnselectChild | pkg/nuclide-file-tree/lib/FileTreeStore.js:796-804 | unselecting one child touches only the selection being collapsed |
| FileTreeCollapse.CollapseFrom | pkg/nuclide-file-tree/lib/FileTreeStore.js:789-827 | a collapse only removes keys from the expanded set (the node among them), only drops watchers and only adds dirty marks |
| FileTreeCollapse.CollapseChildren | pkg/nuclide-file-tree/lib/FileTreeStore.js:793-813 | the child loop only removes expanded keys, only drops watchers and only adds dirty marks |
| FileTreeCollapse.CollapseFromExpanded | pkg/nuclide-file-tree/lib/FileTreeStore.js:789-827 | the expanded set loses exactly the collapsed keys, which end with the node and otherwise are expanded keys below it |
| FileTreeCollapse.CollapseChildrenExpanded | pkg/nuclide-file-tree/lib/FileTreeStore.js:793-813 | the child loop unexpands exactly the keys it collapses, all expanded and below the node |
| FileTreeCollapse.CollapseDirStepExpanded | pkg/nuclide-file-tree/lib/FileTreeStore.js:806-810 | one child directory's collapse followed by the rest of the loop unexpands exactly the union of both key lists |
| FileTreeCollapse.ClosedJoin | pkg/nuclide-file-tree/lib/FileTreeStore.js:806-810 | two collapsed key lists with no expanded directory under them join into one such list |
| FileTreeCollapse.CollapseFromClosed | pkg/nuclide-file-tree/lib/FileTreeStore.js:789-827 | after a collapse no cached directory under a collapsed key is still expanded |
| FileTreeCollapse.CollapseChildrenClosed | pkg/nuclide-file-tree/lib/FileTreeStore.js:793-813 | after the child loop no cached directory under a collapsed key is still expanded |
| FileTreeCollapse.RecordsJoin | pkg/nuclide-file-tree/lib/FileTreeStore.js:814-824 | memory that keeps untouched keys and records child directories composes over two steps |
| FileTreeCollapse.CollapseFromRecords | pkg/nuclide-file-tree/lib/FileTreeStore.js:814-824 | the node is remembered exactly when a child directory was collapsed with it, its record lists expanded child directories, and keys outside the collapse keep their records |
| FileTreeCollapse.CollapseChildrenRecords | pkg/nuclide-file-tree/lib/FileTreeStore.js:805-811 | the loop records exactly the expanded child directories it collapses, and leaves other records alone |
| FileTreeCollapse.CollapseFromSelection | pkg/nuclide-file-tree/lib/FileTreeStore.js:796-804 | a collapse only unselects keys, and every cached child of the node ends unselected |
| FileTreeCollapse.CollapseChildrenSelection | pkg/nuclide-file-tree/lib/FileTreeStore.js:794-812 | the child loop only unselects keys and leaves every visited child unselected |
| FileTreeCollapse.SubSelTrans | pkg/nuclide-file-tree/lib/FileTreeStore.js:796-804 | "only unselects" is transitive |
| FileTreeCollapse.LacksSub | pkg/nuclide-file-tree/lib/FileTreeStore.js:796-804 | a key unselected earlier stays unselected after further unselection |
| FileTreeCollapse.CollapseFromSelectionShape | pkg/nuclide-file-tree/lib/FileTreeStore.js:796-804 | a collapse keeps the selection duplicate-free and present, and writes it only when it changes it |
| FileTreeCollapse.CollapseChildrenSelectionShape | pkg/nuclide-file-tree/lib/FileTreeStore.js:794-812 | the child loop keeps the selection duplicate-free and present, and writes it only when it changes it |
| FileTreeCollapse.DeselectedJoin | pkg/nuclide-file-tree/lib/FileTreeStore.js:796-804 | "no child of these keys is selected" composes over two steps that only unselect |
| FileTreeCollapse.CollapseFromDeselects | pkg/nuclide-file-tree/lib/FileTreeStore.js:789-827 | with the current selection re-read, no cached child of any collapsed key stays selected |
| FileTreeCollapse.CollapseChildrenDeselects | pkg/nuclide-file-tree/lib/FileTreeStore.js:794-812 | with the current selection re-read, the loop leaves no child of a collapsed key selected |
| FileTreeCollapse.UnsubscribedJoin | pkg/nuclide-file-tree/lib/FileTreeStore.js:962-981 | removing watchers over two key lists is removing them over the joined list |
| FileTreeCollapse.CollapseFromUnsubscribes | pkg/nuclide-file-tree/lib/FileTreeStore.js:826 | each collapsed key's watcher is removed as a single removal would, and other watchers stay |
| FileTreeCollapse.CollapseChildrenUnsubscribes | pkg/nuclide-file-tree/lib/FileTreeStore.js:805-811 | the loop removes the watchers of exactly the keys it collapses |
| FileTreeCollapse.StoreCollapse | pkg/nuclide-file-tree/lib/FileTreeStore.js:818-826 | writing the collapse state back sets the root's expanded set, memory, watchers and (when written) selection, leaves other roots alone and keeps the selection well formed |
| FileTreeCollapse.CollapseWith | pkg/nuclide-file-tree/lib/FileTreeStore.js:789-827 | the store after a collapse holds exactly the walk's expanded set, memory, selection and watchers for the root |
| FileTreeCollapse.CollapseNodeAsWritten | pkg/nuclide-file-tree/lib/FileTreeStore.js:789-827 | as written (stale selection copy): the node is collapsed, nothing is expanded, its cached children end unselected and child directories collapsed, no key becomes selected, other roots and the child lists stay |
| FileTreeCollapse.CollapseNode | pkg/nuclide-file-tree/lib/FileTreeStore.js:789-827 | corrected (selection re-read per child): the same guarantees as the as-written collapse, and the selection under every collapsed key is cleared |
| FileTreeCollapse.CollapseStore | pkg/nuclide-file-tree/lib/FileTreeStore.js:789-827 | the store-level facts both collapses share: node collapsed, children unselected, child directories collapsed, other roots untouched |
| FileTreeCollapse.CollapseWithExpanded | pkg/nuclide-file-tree/lib/FileTreeStore.js:789-827 | the root's expanded set loses exactly the collapsed keys (the node last, the rest expanded keys below it) and no directory under them stays expanded |
| FileTreeCollapse.CollapseWithRecords | pkg/nuclide-file-tree/lib/FileTreeStore.js:814-824 | the node is remembered exactly when a child directory was collapsed, the record lists expanded child directories, and keys outside the collapse keep their records |
| FileTreeCollapse.CollapseWithKeepsWf | pkg/nuclide-file-tree/lib/FileTreeStore.js:789-827 | a collapse keeps the store invariants |
| FileTreeCollapse.StoreCollapseKeepsWf | pkg/nuclide-file-tree/lib/FileTreeStore.js:818-826 | writing back a well-formed collapse state keeps the store invariants |
| FileTreeCollapse.RecordsMemoryWf | pkg/nuclide-file-tree/lib/FileTreeStore.js:818-824 | memory that records cached child directories stays well formed |
| FileTreeCollapse.CollapseWithUnsubscribes | pkg/nuclide-file-tree/lib/FileTreeStore.js:826 | the watcher of each collapsed key is kept exactly when another root shares it, dropped watchers are marked dirty, other keys are untouched |
| FileTreeCollapse.CollapseNodeDeselects | pkg/nuclide-file-tree/lib/FileTreeStore.js:796-804 | with the selection re-read, no cached child of any collapsed key is selected afterwards |
| FileTreeCollapse.SelectionExample | pkg/nuclide-file-tree/lib/FileTreeStore.js:789-827 | the example store behind the collapse finding is well formed |
| FileTreeCollapse.CollapseRestoresSelection | pkg/nuclide-file-tree/lib/FileTreeStore.js:791-804 | as written, collapsing the root of the example re-selects a grandchild that the nested collapse had unselected |
| FileTreeCollapse.CollapseNodeKeepsUnselected | pkg/nuclide-file-tree/lib/FileTreeStore.js:791-804 | the corrected collapse leaves that grandchild unselected |
| FileTreeCollapse.CollapseChildrenRecordsSome | pkg/nuclide-file-tree/lib/FileTreeStore.js:805-811 | the loop records something whenever one of the remaining children is an expanded directory |
| FileTreeCollapse.CollapseWithRemembers | pkg/nuclide-file-tree/lib/FileTreeStore.js:814-824 | the node is remembered exactly when one of its cached child directories was expanded |
| FileTreeCollapse.CollapseExpandRoundTrip | pkg/nuclide-file-tree/lib/FileTreeStore.js:737-827 | collapsing then expanding a node expands it again, re-expands exactly the child directories that were expanded, and consumes the memory |
| FileTreeCollapse.PurgeNode | pkg/nuclide-file-tree/lib/FileTreeStore.js:991-1008 | a purged key leaves the expanded set and memory; with unselect it leaves the selection, which otherwise only loses that key |
| FileTreeCollapse.PurgeFromPurges | pkg/nuclide-file-tree/lib/FileTreeStore.js:1010-1021 | a deep collapse unexpands and forgets exactly the purged keys, which end with the node, lie below it and include every directory under them |
| FileTreeCollapse.PurgeChildrenPurges | pkg/nuclide-file-tree/lib/FileTreeStore.js:1012-1018 | the child loop purges exactly the keys it visits, all below the node and closed under child directories |
| FileTreeCollapse.PurgeDirStep | pkg/nuclide-file-tree/lib/FileTreeStore.js:1014-1016 | one child directory's purge followed by the rest of the loop purges the union of both key lists |
| FileTreeCollapse.PurgeFromUnselects | pkg/nuclide-file-tree/lib/FileTreeStore.js:1010-1021 | the purge only unselects, unselects every purged key below the node (and the node itself with unselect), and keeps every other selection |
| FileTreeCollapse.PurgeChildrenUnselects | pkg/nuclide-file-tree/lib/FileTreeStore.js:1012-1018 | the child loop unselects every key it purges and keeps every other selection |
| FileTreeCollapse.PurgeFromSelectionShape | pkg/nuclide-file-tree/lib/FileTreeStore.js:991-1021 | the purge keeps the selection duplicate-free and present and writes it only when it changes it |
| FileTreeCollapse.PurgeChildrenSelectionShape | pkg/nuclide-file-tree/lib/FileTreeStore.js:1012-1018 | the child loop keeps the selection duplicate-free and present |
| FileTreeCollapse.PurgeFromUnsubscribes | pkg/nuclide-file-tree/lib/FileTreeStore.js:1019 | each purged key's watcher is removed as a single removal would, other watchers stay |
| FileTreeCollapse.PurgeChildrenUnsubscribes | pkg/nuclide-file-tree/lib/FileTreeStore.js:1012-1018 | the child loop removes the watchers of exactly the keys it purges |
| FileTreeCollapse.PurgeWith | pkg/nuclide-file-tree/lib/FileTreeStore.js:1010-1021 | the store after a deep collapse holds exactly the walk's expanded set, memory, selection and watchers for the root |
| FileTreeCollapse.PurgeDirectoryWithinARoot | pkg/nuclide-file-tree/lib/FileTreeStore.js:1010-1021 | the node is unexpanded and forgotten (and unselected with unselect), its child directories are unexpanded, unselected and forgotten, nothing is selected anew, other roots and the child lists stay |
| FileTreeCollapse.PurgeWithPurges | pkg/nuclide-file-tree/lib/FileTreeStore.js:1010-1021 | the root's expanded set and memory lose exactly the purged keys: the node last, the others below it, closed under cached child directories |
| FileTreeCollapse.PurgeWithUnselects | pkg/nuclide-file-tree/lib/FileTreeStore.js:997-1002 | every purged key below the node (and the node with unselect) ends unselected, and every key outside the purge keeps its selection state |
| FileTreeCollapse.PurgeWithUnsubscribes | pkg/nuclide-file-tree/lib/FileTreeStore.js:1019 | each purged key's watcher is kept exactly when another root shares it, dropped watchers are marked dirty, others are untouched |
| FileTreeCollapse.PurgeWithKeepsWf | pkg/nuclide-file-tree/lib/FileTreeStore.js:1010-1021 | a deep collapse keeps the store invariants |
| FileTreePurge.SubMapTreeWf | pkg/nuclide-file-tree/lib/FileTreeStore.js:1033 | deleting cached child lists keeps every cached child longer than its parent |
| FileTreePurge.SubMapTrans | pkg/nuclide-file-tree/lib/FileTreeStore.js:1026-1041 | list deletions compose: a map with entries deleted from one with entries deleted is one with entries deleted |
| FileTreePurge.PurgedForgets | pkg/nuclide-file-tree/lib/FileTreeStore.js:1023-1025 | after a purge of a set of keys, none of them has a child list, a watcher, or an expanded, remembered or selected entry in any root |
| FileTreePurge.PurgedKeeps | pkg/nuclide-file-tree/lib/FileTreeStore.js:1026-1041 | after a purge, every key outside the purged set keeps its child list, watcher, and expansion, memory and selection in every root |
| FileTreePurge.RootPurgedTrans | pkg/nuclide-file-tree/lib/FileTreeStore.js:1026-1041 | purging one set of keys from a root and then another purges their union |
| FileTreePurge.PurgedTrans | pkg/nuclide-file-tree/lib/FileTreeStore.js:1026-1041 | purging one set of directories and then another purges their union |
| FileTreePurge.PurgedNothing | pkg/nuclide-file-tree/lib/FileTreeStore.js:1026-1041 | the unchanged store is the purge of no keys |
| FileTreePurge.PurgeNodeIn | pkg/nuclide-file-tree/lib/FileTreeStore.js:991-1008 | with unselect, the key leaves the root's expanded set, memory and selection and nothing else of that root changes; other roots are untouched; the tracked node is kept or cleared; the selection stays well formed |
| FileTreePurge.PurgeNodeSteps | pkg/nuclide-file-tree/lib/FileTreeStore.js:991-1008 | the three steps of the node purge together purge exactly that key from the root and keep other roots |
| FileTreePurge.UnexpandKey | pkg/nuclide-file-tree/lib/FileTreeStore.js:992-995 | the key leaves the root's expanded set, and nothing else changes |
| FileTreePurge.UnselectKey | pkg/nuclide-file-tree/lib/FileTreeStore.js:997-1002 | the root selects what it selected less the key, other roots keep their selection, the tracked node is kept or cleared, and the selection stays well formed |
| FileTreePurge.ForgetRecord | pkg/nuclide-file-tree/lib/FileTreeStore.js:1004-1007 | the key leaves the root's memory, and nothing else changes |
| FileTreePurge.MinusAbsent | pkg/nuclide-file-tree/lib/FileTreeStore.js:993 | deleting an absent key from a set leaves it as it was (the guarded branch) |
| FileTreePurge.MapMinusAbsent | pkg/nuclide-file-tree/lib/FileTreeStore.js:1005 | deleting an absent key from a map leaves it as it was (the guarded branch) |
| FileTreePurge.SelectionEntryNoDup | pkg/nuclide-file-tree/lib/FileTreeStore.js:999-1001 | removing a key from one root's selection keeps the selection object well formed |
| FileTreePurge.PurgeNodeInRoots | pkg/nuclide-file-tree/lib/FileTreeStore.js:1037-1040 | purging the key in each root touches only expansion, memory, selection and tracking, and keeps or clears the tracked node |
| FileTreePurge.PurgeNodeInRootsPurges | pkg/nuclide-file-tree/lib/FileTreeStore.js:1037-1040 | every listed root forgets the key in its expansion, memory and selection, every other root is untouched, and the selection stays well formed |
| FileTreePurge.PurgeNodeInRootsStep | pkg/nuclide-file-tree/lib/FileTreeStore.js:1037-1040 | the first root's purge followed by the rest purges the key from every listed root and keeps the others |
| FileTreePurge.RootPurgedThenKept | pkg/nuclide-file-tree/lib/FileTreeStore.js:1037-1040 | a root purged and then left alone is purged |
| FileTreePurge.RootKeptThenPurged | pkg/nuclide-file-tree/lib/FileTreeStore.js:1037-1040 | a root left alone and then purged is purged |
| FileTreePurge.PurgeSelf | pkg/nuclide-file-tree/lib/FileTreeStore.js:1033-1040 | the directory's own list and watcher are deleted and the roots stay |
| FileTreePurge.PurgeSelfPurges | pkg/nuclide-file-tree/lib/FileTreeStore.js:1033-1040 | the directory's own step is a purge of exactly that key |
| FileTreePurge.PurgeSelfRoots | pkg/nuclide-file-tree/lib/FileTreeStore.js:1036-1040 | deleting the list and watcher first does not change what the per-root purge does to the roots |
| FileTreePurge.PurgedInIntro | pkg/nuclide-file-tree/lib/FileTreeStore.js:1026-1041 | the separate facts about lists, watchers, roots and tracking make up a purge |
| FileTreePurge.PurgeDirectory | pkg/nuclide-file-tree/lib/FileTreeStore.js:1026-1041 | a directory purge only deletes child lists and keeps the roots |
| FileTreePurge.PurgeDirChildren | pkg/nuclide-file-tree/lib/FileTreeStore.js:1028-1032 | the loop over child directories only deletes child lists and keeps the roots |
| FileTreePurge.PurgeDirectoryPurges | pkg/nuclide-file-tree/lib/FileTreeStore.js:1026-1041 | purging a directory purges exactly a list of keys that ends with it, all at or below it |
| FileTreePurge.PurgeSelfStep | pkg/nuclide-file-tree/lib/FileTreeStore.js:1033-1040 | after the keys below the directory are purged, its own step completes the directory purge |
| FileTreePurge.PurgeDirChildrenPurges | pkg/nuclide-file-tree/lib/FileTreeStore.js:1028-1032 | the child loop purges keys below the directory only, and every remaining child directory among them |
| FileTreePurge.PurgeDirChildPurges | pkg/nuclide-file-tree/lib/FileTreeStore.js:1029-1031 | at a child directory the loop purges it and the rest, all below the parent |
| FileTreePurge.PurgeChildStep | pkg/nuclide-file-tree/lib/FileTreeStore.js:1029-1031 | one child directory's purge followed by the rest of the loop is the loop's purge |
| FileTreePurge.PurgeAll | pkg/nuclide-file-tree/lib/FileTreeStore.js:918 | purging a list of directories only deletes child lists and keeps the roots |
| FileTreePurge.PurgeAllPurges | pkg/nuclide-file-tree/lib/FileTreeStore.js:918 | purging a list of directories purges every listed directory and only keys at or below one of them |
| FileTreePurge.PurgeAllStep | pkg/nuclide-file-tree/lib/FileTreeStore.js:918 | the first directory's purge followed by the rest's is the purge of the whole list |
| FileTreePurge.RemovedDirs | pkg/nuclide-file-tree/lib/FileTreeStore.js:914-917 | the removed directories are, each once, exactly the old children that are directories and not in the new list |
| FileTreePurge.SetChildKeys | pkg/nuclide-file-tree/lib/FileTreeStore.js:911-921 | afterwards the node's cached list is the new list, the tree invariant holds when the new children lie below the node, and only purge-touched fields change |
| FileTreePurge.CacheRoundTrip | pkg/nuclide-file-tree/lib/FileTreeStore.js:911-921 | reading the purge-touched fields back out of a store written with them gives them back |
| FileTreePurge.SetChildKeysIn | pkg/nuclide-file-tree/lib/FileTreeStore.js:911-921 | the node's list becomes the new list, roots stay, the tree invariant holds when the children lie below, and a node with no old list only gains the list |
| FileTreePurge.SetChildKeysPurges | pkg/nuclide-file-tree/lib/FileTreeStore.js:911-921 | replacing a list forgets every directory that left it everywhere; every key not at or below one of those keeps its expansion, memory, selection and watcher, and every such key but the node keeps its own list too |
| FileTreePurge.PurgeRemovedForgets | pkg/nuclide-file-tree/lib/FileTreeStore.js:913-918 | purging the removed directories forgets each of them |
| FileTreePurge.PurgeRemovedKeeps | pkg/nuclide-file-tree/lib/FileTreeStore.js:913-918 | purging the removed directories keeps every key that is not at or below one of them |
| FileTreePurge.ChildIsLonger | pkg/nuclide-file-tree/lib/FileTreeStore.js:1028-1032 | a cached child key is longer than its parent's key |
| FileTreePurge.ReplaceKeepsForgotten | pkg/nuclide-file-tree/lib/FileTreeStore.js:920 | writing the new list does not bring back a forgotten directory other than the node |
| FileTreePurge.ReplaceKeepsKept | pkg/nuclide-file-tree/lib/FileTreeStore.js:920 | writing the new list keeps what the purge kept, except the node's own list |
| FileTreeVisible.VisibleNodes | pkg/nuclide-file-tree/lib/FileTreeStore.js:494-529 | a key that is not a root lists nothing and a collapsed root lists only itself; otherwise the stack walk lists exactly what the recursive listing of the root gives, in the same order |
| FileTreeVisible.ReadChildren | pkg/nuclide-file-tree/lib/FileTreeStore.js:511-527 | a popped key with no cached or with dirty children adds nothing; otherwise its file children are listed in order and its directory children are pushed in order only when it is expanded |
| FileTreeVisible.PopStep | pkg/nuclide-file-tree/lib/FileTreeStore.js:509-527 | popping a key lists it and its files, and what its pushed children list comes before the rest of the stack |
| FileTreeVisible.InListed | pkg/nuclide-file-tree/lib/FileTreeStore.js:509-527 | a node is listed from a key exactly when it is the key, one of its listed files, or listed from a directory child it pushes |
| FileTreeVisible.Sublisting | pkg/nuclide-file-tree/lib/FileTreeStore.js:507-527 | every node listed below a popped directory is in the root's listing |
| FileTreeVisible.ListableListed | pkg/nuclide-file-tree/lib/FileTreeStore.js:489-490 | every visible key (the root, or a cached child of a visible, expanded, clean directory) is listed, as its own node if a directory and under its parent if a file, with or without the fix |
| FileTreeVisible.ListedListable | pkg/nuclide-file-tree/lib/FileTreeStore.js:489-490 | with files also waiting for their directory's expansion, every node listed below a visible directory is visible and listed in its own shape |
| FileTreeVisible.VisibleNodesAreListable | pkg/nuclide-file-tree/lib/FileTreeStore.js:489-490 | with files also waiting for their directory's expansion, the walk from a root lists exactly the visible keys |
| FileTreeVisible.CollapsedFilesListed | pkg/nuclide-file-tree/lib/FileTreeStore.js:518-526 | as written, a file of a directory that is collapsed under the root but has clean cached children is listed although it is not visible; with files also waiting for their directory's expansion it is not listed |
| FileTreeVisible.NestedRootsCollapsed | pkg/nuclide-file-tree/lib/FileTreeStore.js:962-980 | with roots `/x/` and `/x/y/`, where `/x/y/` is collapsed under `/x/` but stays expanded as its own root, `/x/y/` keeps its watcher and stays clean, so its file `/x/y/f` meets the conditions of the case above |
| FileTreeVisible.PopAdvances | pkg/nuclide-file-tree/lib/FileTreeStore.js:507-527 | one turn of the walk keeps what is listed, followed by what the stack still lists, equal to the whole listing, and strictly shrinks what the stack lists |
| FileTreeController.RootsNoDup | pkg/nuclide-file-tree/lib/FileTreeController.js:498-502 | roots that do not nest in one another are listed once each |
| FileTreeController.PrefixesNest | pkg/nuclide-file-tree/lib/FileTreeStore.js:364-366 | two prefixes of one key nest: the shorter is a prefix of the longer |
| FileTreeController.RootForKeyUnique | pkg/nuclide-file-tree/lib/FileTreeStore.js:364-366 | with non-nesting roots, the root a key lies under is the one getRootForKey returns |
| FileTreeController.BelowRootIsNoRoot | pkg/nuclide-file-tree/lib/FileTreeStore.js:386-388 | a key strictly below a root is not itself a root |
| FileTreeController.FrameBelowRoot | pkg/nuclide-file-tree/lib/FileTreeController.js:503-509 | for a key strictly below a root, the invariant holds and the frame is that root with the parent's cached children |
| FileTreeController.CachedChildrenWf | pkg/nuclide-file-tree/lib/FileTreeStore.js:433-435 | a cached child list holds each key once and every child lies one segment below its parent |
| FileTreeController.Shown | pkg/nuclide-file-tree/lib/FileTreeStore.js:494-529 | what a node lists on screen starts with the node itself |
| FileTreeController.ShownList | pkg/nuclide-file-tree/lib/FileTreeStore.js:494-529 | a non-empty child list lists something |
| FileTreeController.LowermostDescendant | pkg/nuclide-file-tree/lib/FileTreeController.js:649-664 | the result lies at or below the key, lists no children of its own, and is the key itself exactly when the key lists no children |
| FileTreeController.LastCachedChild | pkg/nuclide-file-tree/lib/FileTreeController.js:649-664 | the last cached child of a node that lists children lies below it |
| FileTreeController.LowermostIsLastShown | pkg/nuclide-file-tree/lib/FileTreeController.js:649-664 | the lowermost descendant is the last row the tree lists under the key |
| FileTreeController.ShownOfLeaf | pkg/nuclide-file-tree/lib/FileTreeController.js:649-664 | a node that lists no children lists only itself |
| FileTreeController.ShownEndsWithLastChild | pkg/nuclide-file-tree/lib/FileTreeController.js:649-664 | what an expanded directory lists ends with what its last child lists |
| FileTreeController.NearestAncestorSibling | pkg/nuclide-file-tree/lib/FileTreeController.js:679-709 | from a root the answer is the next root, if any; from below a root it is a node of that root or a later root; a missing root or parent throws |
| FileTreeController.Frame | pkg/nuclide-file-tree/lib/FileTreeController.js:495-515 | a root's siblings are the roots; another key's frame is its root with its parent's cached children, or none when the root or parent is missing |
| FileTreeController.MoveDownFrom | pkg/nuclide-file-tree/lib/FileTreeController.js:495-549 | an expanded directory with children selects its first child; a failed frame throws; a root never throws |
| FileTreeController.MoveUpFrom | pkg/nuclide-file-tree/lib/FileTreeController.js:564-607 | from the first root nothing happens, from a first child the parent is selected, a selection lies under its root, a failed frame throws |
| FileTreeController.MoveToTop | pkg/nuclide-file-tree/lib/FileTreeController.js:610-617 | an empty tree stays put; otherwise the first root is selected as its own root |
| FileTreeController.MoveToBottom | pkg/nuclide-file-tree/lib/FileTreeController.js:619-631 | an empty tree stays put; otherwise a node of the last root is selected |
| FileTreeController.LastSelected | pkg/nuclide-file-tree/lib/FileTreeController.js:488 | there is a last selected key exactly when anything is selected, and it is selected under some root |
| FileTreeController.MoveDown | pkg/nuclide-file-tree/lib/FileTreeController.js:483-550 | an empty tree stays put; with no selection the first root is selected |
| FileTreeController.MoveUp | pkg/nuclide-file-tree/lib/FileTreeController.js:552-608 | an empty tree stays put; with no selection the bottom of the last root, a node listing no children, is selected |
| FileTreeController.UpFromFirstChild | pkg/nuclide-file-tree/lib/FileTreeController.js:586-591 | moving up from the first child of an expanded directory selects the directory |
| FileTreeController.UpFromNextSibling | pkg/nuclide-file-tree/lib/FileTreeController.js:594-607 | moving up from a later sibling selects the lowermost descendant of the sibling before it |
| FileTreeController.UpFromNextRoot | pkg/nuclide-file-tree/lib/FileTreeController.js:594-607 | moving up from a later root selects the lowermost descendant of the root before it |
| FileTreeController.AncestorSiblingThenUp | pkg/nuclide-file-tree/lib/FileTreeController.js:679-709 | from a visible key the nearest ancestor sibling never throws, and moving up from it returns to the key's lowermost descendant |
| FileTreeController.NextSiblingStep | pkg/nuclide-file-tree/lib/FileTreeController.js:679-709 | the case of a key with a next sibling of the ancestor-sibling walk |
| FileTreeController.LastSiblingStep | pkg/nuclide-file-tree/lib/FileTreeController.js:679-709 | the case of a last sibling, which climbs to the parent, of the ancestor-sibling walk |
| FileTreeController.VisibleParent | pkg/nuclide-file-tree/lib/FileTreeController.js:679-709 | a visible key below its root has an expanded, visible parent that lists it |
| FileTreeController.LastChildLowermost | pkg/nuclide-file-tree/lib/FileTreeController.js:649-664 | an expanded directory's lowermost descendant is its last child's |
| FileTreeController.MoveDownThenUp | pkg/nuclide-file-tree/lib/FileTreeController.js:483-608 | moving down from a visible key never throws, and moving up from where it lands comes back to the key |
| FileTreeController.LowermostOnLastSpine | pkg/nuclide-file-tree/lib/FileTreeController.js:619-631 | the lowermost descendant of a key on the last root's last spine is on that spine |
| FileTreeController.AncestorSiblingOnLastSpine | pkg/nuclide-file-tree/lib/FileTreeController.js:679-709 | on the last spine of the last root there is no ancestor sibling |
| FileTreeController.MoveDownAtBottom | pkg/nuclide-file-tree/lib/FileTreeController.js:541-547 | moving down from the bottom of the tree selects nothing |
| FileTreeController.RevealSteps | pkg/nuclide-file-tree/lib/FileTreeController.js:316-320 | each step on the path makes sure of the child and then expands the parent, in order |
| FileTreeController.LengthsIncrease | pkg/nuclide-file-tree/lib/FileTreeController.js:309-315 | the path from the root down has strictly growing keys |
| FileTreeController.RevealActions | pkg/nuclide-file-tree/lib/FileTreeController.js:301-323 | two actions per key on the path |
| FileTreeController.RevealActionsExpandBetween | pkg/nuclide-file-tree/lib/FileTreeController.js:301-323 | revealing expands only directories from the root down to the key, the key excluded |
| FileTreeController.RevealActionsExpandEvery | pkg/nuclide-file-tree/lib/FileTreeController.js:301-323 | revealing expands every directory from the root down to the key |
| FileTreeController.RevealActionsTopDown | pkg/nuclide-file-tree/lib/FileTreeController.js:314-320 | parents are expanded before their children |
| FileTreeController.RevealActionsPairs | pkg/nuclide-file-tree/lib/FileTreeController.js:316-320 | each child is made sure of right before its parent is expanded |
| FileTreeController.AncestorsChain | pkg/nuclide-file-tree/lib/FileTreeController.js:309-315 | the stack built by climbing parent keys is the chain from the root down to the key |
| FileTreeController.AncestorsBetween | pkg/nuclide-file-tree/lib/FileTreeController.js:309-315 | the keys of the chain are exactly the directories from the root down to the key |
| FileTreeController.RevealActionsEnds | pkg/nuclide-file-tree/lib/FileTreeController.js:321-322 | the reveal ends by selecting and tracking the key; every earlier action ensures a child or expands |
| FileTreeController.RevealStepsReveal | pkg/nuclide-file-tree/lib/FileTreeController.js:301-323 | the actions built from the climbed chain reveal the key |
| FileTreeController.RevealNodeKey | pkg/nuclide-file-tree/lib/FileTreeController.js:301-323 | no key, the empty key or a key under no root does nothing; otherwise the actions reveal the key under its root |
| FileTreeController.SelectedNodes | pkg/nuclide-file-tree/lib/FileTreeStore.js:534-542 | a node is listed exactly when its root is a root and it is selected there |
| FileTreeController.CollapseEach | pkg/nuclide-file-tree/lib/FileTreeController.js:401-413 | one collapse of the requested depth per directory node, and only those |
| FileTreeController.CollapseSelection | pkg/nuclide-file-tree/lib/FileTreeController.js:388-415 | a single non-root, non-expanded selection reveals its parent and collapses nothing; otherwise exactly the selected directories are collapsed at the requested depth |
| FileTreeController.RevealParent | pkg/nuclide-file-tree/lib/FileTreeController.js:391-400 | the single selected node's parent is revealed under its root, or nothing happens when it has no root; nothing is collapsed |
| FileTreeController.RevealsNoCollapse | pkg/nuclide-file-tree/lib/FileTreeController.js:301-323 | revealing collapses nothing |
| FileTreeController.CollapseSelected | pkg/nuclide-file-tree/lib/FileTreeController.js:401-413 | every selected directory is collapsed and nothing else |
| FileTreeView.ListedLength | pkg/nuclide-file-tree/components/FileTree.js:249 | a node's shown-children count is the number of rows it lists in the order the next-node walk visits |
| FileTreeView.AllListedLength | pkg/nuclide-file-tree/components/FileTree.js:307-309 | the shown-node count of the roots is the number of rows they list together |
| FileTreeView.ListedAllAppend | pkg/nuclide-file-tree/components/FileTree.js:307-309 | the rows of two runs of roots are the rows of the first followed by those of the second |
| FileTreeView.FindPastEnd | pkg/nuclide-file-tree/components/FileTree.js:271-296 | a first row at or past the total count finds no node |
| FileTreeView.FindInPastEnd | pkg/nuclide-file-tree/components/FileTree.js:277-288 | the root search from any position finds nothing when the row is past the end |
| FileTreeView.PrefixSumAtMost | pkg/nuclide-file-tree/components/FileTree.js:275-284 | the rows skipped so far never exceed the total |
| FileTreeView.FindRootRow | pkg/nuclide-file-tree/components/FileTree.js:290-292 | asking for the row a root sits on finds that root |
| FileTreeView.FindInRootRow | pkg/nuclide-file-tree/components/FileTree.js:277-292 | the root search finds a root on its own row |
| FileTreeView.FindFirstIsListed | pkg/nuclide-file-tree/components/FileTree.js:271-296 | the node found for a row is the node listed on that row, and none past the last row |
| FileTreeView.FindInIsListed | pkg/nuclide-file-tree/components/FileTree.js:277-295 | the search from a given root finds the node listed on the row |
| FileTreeView.FoundRow | pkg/nuclide-file-tree/components/FileTree.js:286-295 | at the root that holds the row, the result (the root itself or the recursive search in its children) is the listed row |
| FileTreeView.RowInRoot | pkg/nuclide-file-tree/components/FileTree.js:295 | the rows of the roots before one come first, then its own |
| FileTreeView.ListedAllSplit | pkg/nuclide-file-tree/components/FileTree.js:307-309 | the rows of the roots split around any one root |
| FileTreeView.ListedAllPrefix | pkg/nuclide-file-tree/components/FileTree.js:307-309 | the rows of a run of roots extended by one root end with that root's rows |
| FileTreeView.CeilDiv | pkg/nuclide-file-tree/components/FileTree.js:155 | the rounded-up quotient is the least count of rows that fills the height |
| FileTreeView.WindowFor | pkg/nuclide-file-tree/components/FileTree.js:152-162 | as many rows as fill the container; the window starts the buffer above the top row, pulled back so it does not start past the last full screen, and never before row 0 |
| FileTreeView.WindowCoversScreen | pkg/nuclide-file-tree/components/FileTree.js:152-162 | every existing row on screen lies inside the rendered window |
| FileTreeView.PreviewFor | pkg/nuclide-file-tree/components/FileTree.js:169-195 | a drag preview exists exactly when the source was found, a target and target index exist and the index changes, and it is placed at the target |
| FileTreeView.RenderEntries | pkg/nuclide-file-tree/components/FileTree.js:197-251 | the loop renders at most the window of rows, in listing order with keys cycling modulo the window size, and puts the preview beside its target row; without a preview it renders exactly the rows up to the window's end |
| FileTreeView.RowsOfEntries | pkg/nuclide-file-tree/components/FileTree.js:208-250 | every row key is below the window size, and without a preview the entries are exactly the expected rows |
| FileTreeView.NextKey | pkg/nuclide-file-tree/components/FileTree.js:250 | the next key is the row's successor modulo the window size |
| FileTreeView.ExpectedRowsStep | pkg/nuclide-file-tree/components/FileTree.js:209-251 | one more loop round adds the next listed node with the next key |
| FileTreeView.AddRow | pkg/nuclide-file-tree/components/FileTree.js:209-251 | one round of the loop keeps the rows and previews in place |
| FileTreeView.AddedPreviewsPlaced | pkg/nuclide-file-tree/components/FileTree.js:220-228 | a preview pushed above or below its target row stays beside it |
| FileTreeView.LoopShowsListing | pkg/nuclide-file-tree/components/FileTree.js:199-251 | the rendered rows are the listing from the window's first row on, keyed by row position modulo the window size |
| FileTreeView.RenderChildren | pkg/nuclide-file-tree/components/FileTree.js:144-268 | no shown nodes renders the project selection; otherwise the top placeholder covers the rows before the window, the bottom one the rows after what was rendered, the rendered rows follow the listing, and without a preview every row to the window's end is rendered |
| FileTreeView.KeyFromFirst | pkg/nuclide-file-tree/components/FileTree.js:208 | starting the keys at the first row modulo the window size gives each row its position modulo the window size |
| JsObject.SetProperty | pkg/nuclide-file-tree/lib/FileTreeStore.js:1247-1258 | `setProperty` returns the object itself when the key already holds the value; otherwise the key holds the new value, every other key keeps its value, a new key goes last in the key order, and distinct keys stay distinct |
| JsObject.DeleteProperty | pkg/nuclide-file-tree/lib/FileTreeStore.js:1237-1244 | `deleteProperty` returns the object itself when the key is absent; otherwise the key is gone, every other key keeps its value and its place, and distinct keys stay distinct |
| JsObject.MapValues | pkg/nuclide-file-tree/lib/FileTreeStore.js:1259-1264 | `mapValues` keeps the keys in their order and maps each value |
| JsObject.GetMapValues | pkg/nuclide-file-tree/lib/FileTreeStore.js:1259-1264 | a key of the mapped object holds the mapped value of the key in the original, and a missing key stays missing |
| JsObject.MapValuesInverse | pkg/nuclide-file-tree/lib/FileTreeStore.js:1259-1264 | mapping the values and mapping them back with an inverse gives the object back |
| Paths.ParentKey | pkg/nuclide-file-tree/lib/FileTreeController.js:309-314 | the parent key of a non-empty key is a strictly shorter prefix of it that is a directory key (or empty), so the climb towards the root ends |
| Paths.ParentStaysUnderRoot | pkg/nuclide-file-tree/lib/FileTreeController.js:311-314 | the parent of a key strictly below a root is still under that root |
| Paths.ParentOfChild | pkg/nuclide-file-tree/lib/FileTreeController.js:313 | the parent of a directory key extended by one segment is that directory key |
| Paths.AncestorsBelow | pkg/nuclide-file-tree/lib/FileTreeController.js:309-316 | the stack `revealNodeKey` builds: empty for the root itself; otherwise it ends with the key, every entry is under the root but not the root, each entry is the parent of the next, and the first entry's parent is the root |
| Paths.AncestorsAreDirPrefixes | pkg/nuclide-file-tree/lib/FileTreeController.js:309-316 | the keys whose children get expanded are exactly the directory keys between the root (included) and the key (excluded) that prefix the key |
| Text.Tokens | pkg/nuclide-ocaml-rpc/lib/MerlinProcess.js:451 | every match of `/\S+/g` is non-empty and holds no white space |
| Text.TokensKeepEveryOtherCharacter | pkg/nuclide-ocaml-rpc/lib/MerlinProcess.js:451 | the matches of `/\S+/g`, concatenated, are the text with its white space removed |
| Text.TokensOfLeadingWhitespace | pkg/nuclide-ocaml-rpc/lib/MerlinProcess.js:449-451 | leading white space does not change the matches |
| Text.TokensOfJoin | pkg/nuclide-ocaml-rpc/lib/MerlinProcess.js:451 | words without white space joined by single spaces match back as exactly those words |
| Text.Trim | pkg/nuclide-ocaml-base/lib/MerlinProcess.js:241 | `trim()` leaves no white space at either end and removes only white space from the ends |
| WatchExpressionList.Serialize | pkg/nuclide-debugger/lib/WatchExpressionListStore.js:96-100 | saving throws a TypeError exactly when a slot is `undefined`; otherwise the saved list has one entry per slot, in order: the slot's expression, or nothing for a hole, which `map` skips |
| WatchExpressionList.Deserialize | pkg/nuclide-debugger/lib/WatchExpressionListStore.js:51-59 | every saved expression becomes one slot, in order, evaluated anew, and the list has no holes |
| WatchExpressionList.DeserializeThenSerialize | pkg/nuclide-debugger/lib/WatchExpressionListStore.js:51-100 | saving a restored list succeeds and gives back exactly the expressions that were restored |
| WatchExpressionList.Spread | pkg/nuclide-debugger/lib/WatchExpressionListStore.js:106-109 | the spread copy keeps the length, turns every hole into `undefined` and copies the other slots; a list without holes is copied unchanged, and the copy has no `undefined` slot exactly when every slot held an expression |
| WatchExpressionList.Add | pkg/nuclide-debugger/lib/WatchExpressionListStore.js:102-110 | the empty expression leaves the list alone; any other expression is appended, evaluated, after the old slots, each hole among them turned into `undefined`; a list without holes is kept unchanged in front and gains none |
| WatchExpressionList.SpliceStart | pkg/nuclide-debugger/lib/WatchExpressionListStore.js:114 | `splice`'s start position: a non-negative index clamped to the length, a negative one counted from the end and clamped at 0 |
| WatchExpressionList.Remove | pkg/nuclide-debugger/lib/WatchExpressionListStore.js:112-116 | an index inside the list drops that slot; a negative index down to minus the length drops the slot counted from the end; an index at or past the end changes nothing; at most one slot goes and no hole appears |
| WatchExpressionList.Update | pkg/nuclide-debugger/lib/WatchExpressionListStore.js:118-125 | the empty expression removes the slot instead; an index inside the list replaces only that slot with the new evaluated expression; an index past the end, up to the largest array index, grows the list to that index plus one with holes in between; a negative or larger index changes no element |
| WatchExpressionList.Refetch | pkg/nuclide-debugger/lib/WatchExpressionListStore.js:127-133 | refetching throws a TypeError exactly when a slot is `undefined`; otherwise each slot is evaluated again in place, holes staying holes |
| WatchExpressionList.RefetchKeepsExpressions | pkg/nuclide-debugger/lib/WatchExpressionListStore.js:127-133 | a refetch that does not throw keeps the saved expressions and their order |
| WatchExpressionList.HandlePayload | pkg/nuclide-debugger/lib/WatchExpressionListStore.js:61-83 | an unknown action, or a mode change to anything but starting, leaves the list alone; starting throws exactly when a slot is `undefined` and otherwise refetches without changing the saved expressions; the edits never throw; no action introduces a hole into a list without holes except an update past the end |
| WatchExpressionList.RemoveUndoesAdd | pkg/nuclide-debugger/lib/WatchExpressionListStore.js:102-116 | removing the just-added entry, by its index or by -1, gives back the spread copy of the old list: the old list itself when it had no holes, with `undefined` for each hole otherwise |
| WatchExpressionList.AddOverHoleThenStartThrows | pkg/nuclide-debugger/lib/WatchExpressionListStore.js:61-133 | a hole left by updating index 1 of an empty list is skipped by a restart, but after an add the hole is `undefined` and both the restart and saving throw a TypeError |
| WatchExpressionList.UpdateBackRestores | pkg/nuclide-debugger/lib/WatchExpressionListStore.js:118-125 | updating a slot and then writing its old expression back restores the saved list |
| BuckUtils.TargetOf | pkg/nuclide-rust/lib/BuckUtils.js:16-48 | a query yields a target exactly when it starts with the given prefix and ends with the given suffix without their overlapping, and the query is then the prefix, the target and the suffix |
| BuckUtils.QueriesHoldTarget | pkg/nuclide-rust/lib/BuckUtils.js:16-48 | the build-file, inputs and deps queries each embed the build target between fixed text from which it can be read back unchanged |
| BuckUtils.TargetBetween | pkg/nuclide-rust/lib/BuckUtils.js:22 | any text placed between a prefix and a suffix is recovered from the result |
| BuckUtils.FirstBuildFile | pkg/nuclide-rust/lib/BuckUtils.js:24 | `getRustBuildFile` answers the first build file exactly when there is one and it is not the empty string, and null otherwise |
| BuckUtils.SaveAnalysisTargets | pkg/nuclide-rust/lib/BuckUtils.js:46-47 | every dependency, and only those, in the same order, comes back with '#save-analysis' appended |
| BuckUtils.NormalizeNameForBuckQuery | pkg/nuclide-rust/lib/BuckUtils.js:52-67 | the result holds no '#'; a name with a ':' or a '.' and no '//' gets '//' in front of its part before the first '#', and any other name is cut at its first '#' |
| BuckUtils.NormalizeIdempotent | pkg/nuclide-rust/lib/BuckUtils.js:52-67 | normalising twice is normalising once for every name whose '//' (if any) comes before its flavour |
| BuckUtils.SaveAnalysisFlavorStripped | pkg/nuclide-rust/lib/BuckUtils.js:47-65 | normalising a save-analysis target built from a normalised dependency gives the dependency back |
| BuckUtils.FlavorStartsAt | pkg/nuclide-rust/lib/BuckUtils.js:47 | the '#' of the save-analysis flavour sits right after the dependency's name |
| Which.WhichInvocation | pkg/commons-node/which.js:22-26 | on 'win32' the command is `where` with the single argument `dirname:basename` of the path; on any other platform it is `which` with the path unchanged |
| Which.WhereSplitsPath | pkg/commons-node/which.js:24 | on Windows an absolute path `dir/name` is searched as `dir:name` |
| Which.WhereOfEmptyPath | pkg/commons-node/which.js:24 | on Windows an empty path is searched as '.:' |
| Which.EmptyPathParts | pkg/commons-node/which.js:24 | the dirname of the empty path is '.' and its basename is empty |
| Which.Which | pkg/commons-node/which.js:21-31 | a failed command gives null, and only it does; otherwise the answer is the prefix of the output before the first end-of-line, the whole output when it holds none |
| Which.FirstMatch | pkg/commons-node/which.js:27 | with several matches on separate lines, the first line is returned |
| Which.WhichExamples | pkg/commons-node/which.js:21-31 | on Windows, output 'hello\r\nhello.exe\r\n' gives 'hello'; on Linux, output 'hello\n/bin/hello\n' gives 'hello' |
| Paths.Dirname | pkg/commons-node/which.js:24 | a directory name is no longer than the path, or is '.' |
| Paths.Basename | pkg/commons-node/which.js:24 | a base name holds no '/' unless it is '/' itself |
| Paths.DirnameBasenameOfJoin | pkg/commons-node/which.js:24 | for an absolute directory and a segment without '/', the dirname and basename of their join are the directory and the segment |
| GitBlameProvider.LocalRunBefore | pkg/nuclide/blame-provider-git/lib/GitBlameProvider.js:105 | the run of local-part characters `[A-Za-z0-9._%+-]` that ends at a position is maximal: it fits before the position and the character before it, if any, is not a local-part character |
| GitBlameProvider.FirstAddressAt | pkg/nuclide/blame-provider-git/lib/GitBlameProvider.js:105-115 | the position found is an '@' preceded by a local-part character, and no earlier '@' from the start position is; when none is found, no '@' from there is preceded by one |
| GitBlameProvider.ShortenBlameName | pkg/nuclide/blame-provider-git/lib/GitBlameProvider.js:114-118 | a name without an address is kept; otherwise the result is the whole non-empty run of local-part characters that ends at the first address's '@' |
| GitBlameProvider.ShortenAddress | pkg/nuclide/blame-provider-git/lib/GitBlameProvider.js:106-113 | a name made of text without '@' (not ending in a local-part character), a local part, '@' and a domain shortens to exactly that local part |
| GitBlameProvider.ShortenAt | pkg/nuclide/blame-provider-git/lib/GitBlameProvider.js:115-117 | the short name is the local run that ends at the first address |
| GitBlameProvider.LocalOfAddress | pkg/nuclide/blame-provider-git/lib/GitBlameProvider.js:116 | the local part sits right after the prefix in an address built from its parts |
| GitBlameProvider.RunBeforeAddress | pkg/nuclide/blame-provider-git/lib/GitBlameProvider.js:105 | in an address built from its parts, the local run before the '@' is exactly the local part |
| GitBlameProvider.AddressAfterPrefix | pkg/nuclide/blame-provider-git/lib/GitBlameProvider.js:115 | in an address built from its parts, the first address is the '@' after the local part |
| GitBlameProvider.FirstAddressIs | pkg/nuclide/blame-provider-git/lib/GitBlameProvider.js:115 | a qualifying '@' with no qualifying '@' before it is the one the search finds |
| GitBlameProvider.LocalRunIs | pkg/nuclide/blame-provider-git/lib/GitBlameProvider.js:105 | a maximal run of local-part characters ending at a position is the one the scan measures |
| GitBlameProvider.ShortenBareAddress | pkg/nuclide/blame-provider-git/lib/GitBlameProvider.js:108-112 | 'foo@bar.com' becomes 'foo' |
| GitBlameProvider.ShortenNamedAddress | pkg/nuclide/blame-provider-git/lib/GitBlameProvider.js:109-112 | 'Foo Bar <foo@bar.com>' becomes 'foo' |
| GitBlameProvider.Changeset | pkg/nuclide/blame-provider-git/lib/GitBlameProvider.js:88-93 | the changeset is the revision's first space-separated token, so it starts the revision and holds no space; it is null exactly when that token is 'null' |
| GitBlameProvider.FormatBlameInfo | pkg/nuclide/blame-provider-git/lib/GitBlameProvider.js:78-101 | the entries are keyed by the raw line numbers minus one, each entry is its raw line formatted, and without short names every author passes through unchanged |
| GitBlameProvider.FormatKeepsLineCount | pkg/nuclide/blame-provider-git/lib/GitBlameProvider.js:85-97 | there is exactly one entry per raw blame line |
| GitBlameProvider.Lower | pkg/nuclide/blame-provider-git/lib/GitBlameProvider.js:96 | a line number is in the result exactly when the number one higher is in the input |
| GitBlameProvider.LowerCard | pkg/nuclide/blame-provider-git/lib/GitBlameProvider.js:96 | shifting the line numbers down keeps their count |
| GitBlameProvider.BlameForEditor | pkg/nuclide/blame-provider-git/lib/GitBlameProvider.js:49-69 | an editor without a path gets an empty map; outside a repository the call fails; otherwise the result is the formatted blame, with short names unless verbose blame is configured |
| FlowLinter.ExtractRange | pkg/nuclide/flow/lib/FlowLinter.js:33-40 | the range starts at row `line - 1`, column `start - 1` and ends at row `endline - 1`, column `end` |
| FlowLinter.ExtractRangeKeepsPositions | pkg/nuclide/flow/lib/FlowLinter.js:33-40 | Flow's four positions can be read back from the range, so the shift loses nothing |
| FlowLinter.FlowMessageToTrace | pkg/nuclide/flow/lib/FlowLinter.js:43-50 | a trace carries the error's description as text, no HTML, the error's path and its extracted range |
| FlowLinter.Descriptions | pkg/nuclide/flow/lib/FlowLinter.js:57 | one description per error, in order |
| FlowLinter.FlowMessageToLinterMessage | pkg/nuclide/flow/lib/FlowLinter.js:52-69 | an empty error array throws, and only it does; otherwise the type is the first error's level or 'Error' when that is empty, the text is every description joined by single spaces, the path and range are the first error's, and a trace exists exactly when there is more than one error, holding one trace per further error in order |
| FlowLinter.TextSplitsIntoDescriptions | pkg/nuclide/flow/lib/FlowLinter.js:57 | when every description is one word, splitting the text on white space gives the descriptions back |
| FlowLinter.ConvertAll | pkg/nuclide/flow/lib/FlowLinter.js:91-93 | converting every diagnostic succeeds exactly when none is empty, and then gives one message per diagnostic, each its conversion, in order |
| FlowLinter.ProcessDiagnostics | pkg/nuclide/flow/lib/FlowLinter.js:85-95 | `processDiagnostics` succeeds exactly when no diagnostic is empty, and every message it keeps is in the target file |
| FlowLinter.ProcessKeepsBlamed | pkg/nuclide/flow/lib/FlowLinter.js:85-95 | the result is exactly the conversions, in order, of the diagnostics whose first error is in the target file |
| FlowLinter.FilterAfterConvert | pkg/nuclide/flow/lib/FlowLinter.js:91-94 | filtering the converted messages by file equals converting the diagnostics filtered by their first error's file |
| FlowLinter.ConvertCons | pkg/nuclide/flow/lib/FlowLinter.js:93 | converting a list converts its head and then its tail |
| FlowLinter.Lint | pkg/nuclide/flow/lib/FlowLinter.js:101-113 | an editor without a path, or no diagnostics, gives no messages; otherwise the result is `processDiagnostics` on the file |
| FlowLinter.FlowProvider | pkg/nuclide/flow/lib/FlowLinter.js:97-100 | the registered provider has no name, lints the JavaScript grammars only, and lints on the fly |
| FlowLinter.LintMessagesAreFileScoped | pkg/nuclide/flow/lib/FlowLinter.js:85-113 | every message `lint` returns becomes a file-scope diagnostic of the linted file |
| LinterAdapter.ToDiagnostic | pkg/nuclide/diagnostics/store/lib/LinterAdapter.js:62-93 | a message gets file scope exactly when its path is truthy and then keeps that path; otherwise it gets project scope and no path; the provider name is the one given |
| LinterAdapter.DiagnosticKeepsMessage | pkg/nuclide/diagnostics/store/lib/LinterAdapter.js:71-92 | the diagnostic carries the message's type, text, HTML, range and trace unchanged, and its path unless that path is the empty string, which is dropped |
| LinterAdapter.ProviderNameOrDefault | pkg/nuclide/diagnostics/store/lib/LinterAdapter.js:99 | the provider name is the one given, or 'Unnamed Linter' when none is |
| LinterAdapter.Converted | pkg/nuclide/diagnostics/store/lib/LinterAdapter.js:109-110 | one diagnostic per message, in order, each its conversion |
| LinterAdapter.MessagesToUpdate | pkg/nuclide/diagnostics/store/lib/LinterAdapter.js:96-125 | the file map has an entry for a truthy current path and for every file met, in first-met order and without repeats; each entry holds exactly the diagnostics about its file, in order (possibly none for the current path); the project list holds exactly the project diagnostics, in order |
| LinterAdapter.EveryMessagePlaced | pkg/nuclide/diagnostics/store/lib/LinterAdapter.js:108-124 | every message lands in the update: under its path when it has one, among the project messages otherwise |
| LinterAdapter.FileOfPathIsMet | pkg/nuclide/diagnostics/store/lib/LinterAdapter.js:111-115 | the path of every file diagnostic is among the files met |
| LinterAdapter.AddFileKeepsDescribes | pkg/nuclide/diagnostics/store/lib/LinterAdapter.js:111-116 | appending a file diagnostic to its path's list, created empty if new, keeps the update describing the diagnostics seen so far |
| LinterAdapter.AddProjectKeepsDescribes | pkg/nuclide/diagnostics/store/lib/LinterAdapter.js:117-119 | appending a project diagnostic to the project list keeps the update describing the diagnostics seen so far |
| LinterAdapter.KeysAfterFile | pkg/nuclide/diagnostics/store/lib/LinterAdapter.js:113-116 | setting a file's entry keeps the map's keys the current path and the files met, in first-met order |
| LinterAdapter.ValuesAfterFile | pkg/nuclide/diagnostics/store/lib/LinterAdapter.js:116 | after the push every entry still holds exactly the diagnostics about its file |
| LinterAdapter.ValueAfterFileAt | pkg/nuclide/diagnostics/store/lib/LinterAdapter.js:116 | after the push one given entry holds exactly the diagnostics about its file |
| LinterAdapter.NoneMissingAfterFile | pkg/nuclide/diagnostics/store/lib/LinterAdapter.js:113-116 | after the push no diagnostic is about a file without an entry |
| LinterAdapter.NewAdapter | pkg/nuclide/diagnostics/store/lib/LinterAdapter.js:147-162 | a new adapter is enabled, wraps its provider and runs on the fly exactly when the provider lints on the fly |
| LinterAdapter.SetEnabled | pkg/nuclide/diagnostics/store/lib/LinterAdapter.js:189-191 | `setEnabled` sets the flag and changes nothing else |
| LinterAdapter.SetLintOnFly | pkg/nuclide/diagnostics/store/lib/LinterAdapter.js:193-195 | the adapter runs on the fly exactly when asked to and the provider lints on the fly; nothing else changes |
| LinterAdapter.AdapterInvariant | pkg/nuclide/diagnostics/store/lib/LinterAdapter.js:147-195 | an adapter lints on the fly only if its provider does, from construction and through both setters, and turning on-the-fly linting back on restores the constructor's setting |
| LinterAdapter.RunLint | pkg/nuclide/diagnostics/store/lib/LinterAdapter.js:164-176 | an update is published exactly when the adapter is enabled and the lint run succeeded, and it is the update for the editor's path and the run's messages under the provider's name or the default |
| LinterAdapter.NewUpdateSubscriber | pkg/nuclide/diagnostics/store/lib/LinterAdapter.js:178-187 | a new subscriber lints the active editor exactly when there is one, no lint is in progress, and its grammar is among the provider's scopes |

## Left out

- Process, file and network I/O is not modelled: spawning clang_server.py and ocamlmerlin, `asyncExecute`/`checkOutput`, readline, `findNearestFile`, `git blame`, the Flow service and Buck queries. Their results are parameters: a reply line, an exit code and output, a found path, raw blame lines.
- Logging, analytics timing and `console.log` are left out: they do not change any result.
- Concurrency is sequential. `PromiseQueue`, `RequestSerializer`, the `EventEmitter` that pairs replies with requests, and `serializeAsyncCall` become state transitions whose interleaving the caller chooses.
- ClangServer: `getMemoryUsage` is left out because it only runs `ps`. The spawn inside `createAsyncConnection` is a parameter.
- ClangServer: a reply line that is not JSON is modelled as the stream error it raises, which tears the connection down, as the code does. It is not dropped.
- Merlin: the command JSON is written with no trailing newline, following the code.
- Merlin: ocamlmerlin is assumed to print one line per command; a reply is the next line.
- Merlin: `enclosingType`, `complete`, `errors` and `outline` share one member (`Query`), because their bodies differ only in the command.
- MerlinProtocol.LocateResult: `location.file = file` on a primitive throws only in strict mode. The compiled module is strict, so the model takes that branch.
- FileTreeHelpers is not part of this model. `isDirKey` is read as "ends in '/'". `getParentKey` is the key cut after its last '/' before the end.
- FileTreeNode is not part of this model. `isRoot` is read as the node's key being its root key, and `isContainer` as `isDirKey`. `shownChildrenCount` comes from the store's expanded and cached child lists.
- nuclideUri is not part of this model; `dirname` and `basename` are modelled on '/' paths.
- Paths.Dirname: only states its length bound; the value is everything before the last '/', ignoring one trailing '/'. DirnameBasenameOfJoin states what `which` relies on.
- Paths.Basename: only states that it holds no '/'; the value is the last segment, ignoring one trailing '/'.
- WorkingSet membership, Minimatch ignore patterns and repository ignore checks are left out as code. They are oracle functions that are parameters of the store.
- FileTreeStore: `_fetchChildKeys`, `_deleteSelectedNodes`, the VCS status map and the `setImmediate` batching of change events are left out because they are I/O or event plumbing. `_set` is a plain record update.
- FileTreeVisible.VisibleNodes: `getNode` is modelled as the `{rootKey, nodeKey}` pair it is built from; the node objects and their fields are left out.
- FileTreeStore: `Immutable.Set` iteration in `_setChildKeys` is modelled in the order of the old child list.
- FileTreeStore.CheckNode: states that exactly one key is added: the node, or one of its ancestors at or below the root. It does not say which ancestor the climb stops at.
- FileTreeStore: `clearFilter` leaves a null filter null, following the code.
- The purges require a well-formed child key map (each cached child is strictly longer than its parent and has it as its parent key) so that the walk terminates. The store keeps that shape because children are listed from the disk tree.
- FileTreeController: when the selected key is missing from its sibling list, `_moveUp` finds index -1 and reads `siblingKeys[-2]`. That case is modelled as a throw, because FileTreeHelpers, which receives the `undefined`, is not part of this model.
- FileTreeController: prefix navigation by typed letters (`_handlePrefixKeypress` and the like) is left out.
- FileTree.js: heights are whole pixels, and `Math.ceil`/`Math.floor` are integer division.
  - With a preview node the bottom placeholder count can be negative, as in the code.
  - Scrolling to the tracked node and measuring the DOM are left out.
- LinterAdapter: the conversion of an array `range` into a `Range` is left out because the range is carried opaquely.
- LinterAdapter: `_newUpdateSubscriber` checks only `grammarScopes`, as the code does, even for a provider with `allGrammarScopes`.
- LinterAdapter: `DiagnosticsProviderBase` and the publishing are parameters.
- FlowLinter: `JS_GRAMMARS` comes from constants.js, which is not part of this model, so it is a parameter.
- FileTreeStore.RemoveFilterLetter: strings are sequences of Unicode scalar values, not UTF-16 units. A filter ending in a character outside the Basic Multilingual Plane loses that whole character here, where `substr(0, length - 1)` drops only its low surrogate.
- FileTreeStore.RemoveUndoesAdd: for the same reason it holds here for every letter, while in the code it fails for a letter outside the Basic Multilingual Plane, which leaves a lone surrogate behind.
- GitBlameProvider.ShortenBlameName: `EMAIL_REGEX` is simplified.
  - The match is the first '@' preceded by a local-part character, and the result is the whole run of such characters before it.
  - The domain part (`[A-Za-z0-9.-]+\.[A-Za-z]{2,4}\b`) and the leading `\b` are not checked. A name like 'a@b' therefore shortens here but not in the code.
- GitBlameProvider: `canProvideBlameForEditor` and `getUrlForRevision` are left out because they are editor and notification glue.
- GitBlameProvider: the configuration read and the blame runner are parameters.
- WatchExpressionListStore: indices are integers; a fractional or non-numeric index is not modelled. Holes from assigning past the end are modelled, and so are the `undefined` elements the spread in `_addWatchExpression` makes of them.
- WatchExpressionList.HandlePayload: a thrown TypeError is returned as an error and the list is left as it was; the dispatcher's handling of the exception is not modelled.
- BuckUtils: normalising is not idempotent when '//' occurs only inside the flavour. NormalizeIdempotent therefore requires the '//' to come before any '#'.
- which: on Windows the argument is rewritten to `dirname:basename`, following the code.

## Findings

| source | as written | input that shows it | evidently intended | confidence | as-written member | corrected member |
|---|---|---|---|---|---|---|
| pkg/nuclide-clang/lib/ClangServer.js:114-129 | `dispose()` emits 'Server was killed.' for each pending id. The listener of a `compile` request then takes the `disposed` branch and runs `result.accurateFlags = …` on the missing `result`. That throws out of `emit` and aborts `_cleanup` | a disposed server with a `compile` request (id 0) and a `get_completions` request (id 1) pending: id 0 throws, id 1 is never settled, its listener stays registered and the connection stays open | every pending request settles and the connection is closed | not executed | ClangServer.DisposeWithPendingCompileAborts | ClangServer.Dispose |
| pkg/nuclide-clang/lib/ClangServer.js:236-241 | the listener of a `compile` request that is not rejected runs `result.accurateFlags = …` without checking that the response has a result. `once` has already removed the listener, so the promise never settles and `makeRequest`'s `finally` never lowers the pending compile count | a live server with a `compile` request pending receives the response `{id}`: the listener throws, and every later non-blocking request resolves to null at once | a response without a result resolves the compile request with null, and the count goes back down | not executed | ClangServer.CompileWithoutResultStalls | ClangServer.Respond |
| pkg/nuclide-file-tree/lib/FileTreeStore.js:789-813 | `_collapseNode` reads the root's selection once on entry. It writes that copy back after each child it unselects, so a grandchild unselected by the nested collapse of an earlier child is selected again | root `/` expanded with children `/a/` (expanded, with child `/a/x`) and `/b`, and `/a/`, `/a/x`, `/b` selected; collapsing `/` leaves `/a/x` selected under the collapsed `/a/` | every child of a collapsed directory, at any depth the collapse reaches, ends up unselected, as the comment at lines 798-802 says | not executed | FileTreeCollapse.CollapseRestoresSelection | FileTreeCollapse.CollapseNodeDeselects |
| pkg/nuclide-file-tree/lib/FileTreeStore.js:737-749 | `_expandNode` reads `previouslyExpanded` before re-expanding the remembered children, and writes that copy back after deleting its own record, so a child's record that the child's own expansion consumed comes back | records `/a/` → [`/a/b/`] and `/a/b/` → [`/a/b/c/`]; expanding `/a/` leaves the record of `/a/b/` in place | each record is consumed once by the expansion that uses it | not executed | FileTreeExpansion.ExpandKeepsConsumedRecord | FileTreeExpansion.ExpandNode |
| pkg/nuclide-file-tree/lib/FileTreeStore.js:518-526 | `getVisibleNodes` asks whether the popped key is expanded before pushing a directory child, but lists every file child unasked. A directory that is collapsed and still has clean cached children therefore shows its files | roots `/x/` and `/x/y/`, both expanded as roots; `/x/y/` expanded under `/x/` and then collapsed, which keeps its watcher because root `/x/y/` still has it expanded, so it is not marked dirty; with `/x/y/f` cached, `getVisibleNodes('/x/')` lists `/x/y/f` | only the nodes currently visible are listed, as the comment at lines 489-490 says: file children only of an expanded directory | not executed | FileTreeVisible.CollapsedFilesListed | FileTreeVisible.VisibleNodesAreListable |
