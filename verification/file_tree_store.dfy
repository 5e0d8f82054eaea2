/** The file tree's store (pkg/nuclide-file-tree/lib/FileTreeStore.js): one
    immutable record replaced on every action. Expanded sets are Dafny sets
    (`Immutable.Set`, whose order nothing here observes); selections are
    duplicate-free sequences (`Immutable.OrderedSet`) kept in a key-ordered
    object, because callers observe both the order of roots and of keys. */
module FileTreeStore {
  import opened Wrappers
  import opened Seqs
  import opened Text
  import JsObject
  import opened Paths

  /** The version `exportData` writes and `loadData` insists on. */
  const Version := 1

  /** `{rootKey, nodeKey}`. */
  datatype NodeRef = NodeRef(rootKey: string, nodeKey: string)

  /** A working set, by its URIs. `append` and `remove` edit that list;
      whether a key is inside it is a question for `Env`. */
  datatype WorkingSet = WorkingSet(uris: seq<string>)
  {
    predicate IsEmpty() {
      |uris| == 0
    }
  }

  /** What the store asks outside code: the ignored-names patterns, the
      repository's ignore list, working-set membership of files and
      directories, and whether a key names an existing directory. */
  datatype Env = Env(
    matchesIgnoredName: string -> bool,
    isVcsIgnored: string -> bool,
    containsFile: (WorkingSet, string) -> bool,
    containsDir: (WorkingSet, string) -> bool,
    isDirectory: string -> bool)

  datatype Store = Store(
    cwdKey: Option<string>,
    filter: Option<string>,
    filterFound: Option<bool>,
    childKeyMap: map<string, seq<string>>,
    dirty: set<string>,
    expandedKeysByRoot: map<string, set<string>>,
    trackedNode: Option<NodeRef>,
    previouslyExpanded: map<string, map<string, seq<string>>>,
    loading: set<string>,
    rootKeys: seq<string>,
    selectedKeysByRoot: JsObject.Obj<seq<string>>,
    subscriptions: set<string>,
    vcsStatusesByRoot: map<string, map<string, int>>,
    hideIgnoredNames: bool,
    excludeVcsIgnoredPaths: bool,
    workingSet: WorkingSet,
    openFilesWorkingSet: WorkingSet,
    isEditingWorkingSet: bool,
    editedWorkingSet: WorkingSet)

  /** `_getDefaults()`. */
  function Defaults(): (s: Store)
    ensures |s.rootKeys| == 0 && s.selectedKeysByRoot == [] && s.expandedKeysByRoot == map[]
    ensures s.hideIgnoredNames && s.excludeVcsIgnoredPaths && !s.isEditingWorkingSet
  {
    Store(None, None, None, map[], {}, map[], None, map[], {}, [], [], {}, map[],
          true, true, WorkingSet([]), WorkingSet([]), false, WorkingSet([]))
  }

  // ---------------------------------------------------------------- invariants

  /** Cached children extend their parent's key. */
  predicate TreeWf(ckm: map<string, seq<string>>) {
    forall k, c :: k in ckm && c in ckm[k] ==> |k| < |c| && StartsWith(c, k)
  }

  /** A remembered list of expanded children holds keys longer than its node. */
  predicate MemoryWf(pe: map<string, seq<string>>) {
    forall k, c :: k in pe && c in pe[k] ==> |k| < |c|
  }

  predicate SelectionWf(sel: JsObject.Obj<seq<string>>) {
    JsObject.Wf(sel) && forall i :: 0 <= i < |sel| ==> NoDup(sel[i].1)
  }

  predicate Wf(s: Store) {
    TreeWf(s.childKeyMap)
    && (forall r :: r in s.previouslyExpanded ==> MemoryWf(s.previouslyExpanded[r]))
    && SelectionWf(s.selectedKeysByRoot)
  }

  // ----------------------------------------------------------------- accessors

  /** `_getExpandedKeys(rootKey)`. */
  function ExpandedKeys(s: Store, root: string): (e: set<string>)
    ensures root !in s.expandedKeysByRoot ==> e == {}
  {
    if root in s.expandedKeysByRoot then s.expandedKeysByRoot[root] else {}
  }

  predicate IsExpanded(s: Store, root: string, k: string) {
    k in ExpandedKeys(s, root)
  }

  /** `getSelectedKeys(rootKey)`: empty for a root without an entry. */
  function SelectedKeys(s: Store, root: string): (keys: seq<string>)
    ensures JsObject.Get(s.selectedKeysByRoot, root).None? ==> keys == []
  {
    JsObject.Get(s.selectedKeysByRoot, root).GetOr([])
  }

  predicate IsSelected(s: Store, root: string, k: string) {
    k in SelectedKeys(s, root)
  }

  /** `_getPreviouslyExpanded(rootKey)`. */
  function PreviouslyExpanded(s: Store, root: string): (pe: map<string, seq<string>>)
    ensures root !in s.previouslyExpanded ==> pe == map[]
  {
    if root in s.previouslyExpanded then s.previouslyExpanded[root] else map[]
  }

  function ChildKeys(s: Store, k: string): seq<string> {
    if k in s.childKeyMap then s.childKeyMap[k] else []
  }

  predicate IsRootKey(s: Store, k: string) {
    k in s.rootKeys
  }

  /** `getRootForKey`: the first root the key starts with. */
  function RootForKey(s: Store, k: string): (r: Option<string>)
    ensures r.Some? ==> r.value in s.rootKeys && StartsWith(k, r.value)
    ensures r.None? ==> forall i :: 0 <= i < |s.rootKeys| ==> !StartsWith(k, s.rootKeys[i])
    ensures r.Some? ==> exists i :: 0 <= i < |s.rootKeys| && s.rootKeys[i] == r.value
                         && forall j :: 0 <= j < i ==> !StartsWith(k, s.rootKeys[j])
  {
    FirstPrefix(s.rootKeys, k)
  }

  function FirstPrefix(roots: seq<string>, k: string): (r: Option<string>)
    ensures r.Some? ==> exists i :: 0 <= i < |roots| && roots[i] == r.value && StartsWith(k, r.value)
                         && forall j :: 0 <= j < i ==> !StartsWith(k, roots[j])
    ensures r.None? ==> forall i :: 0 <= i < |roots| ==> !StartsWith(k, roots[i])
  {
    if |roots| == 0 then None
    else if StartsWith(k, roots[0]) then Some(roots[0])
    else
      var rest := FirstPrefix(roots[1..], k);
      assert forall i :: 1 <= i < |roots| ==> roots[i] == roots[1..][i - 1];
      rest
  }

  // ------------------------------------------------------------------ setters

  /** `_setExpandedKeys(rootKey, keys)`. */
  function SetExpandedKeys(s: Store, root: string, e: set<string>): (r: Store)
    ensures ExpandedKeys(r, root) == e
    ensures forall q :: q != root ==> ExpandedKeys(r, q) == ExpandedKeys(s, q)
    ensures r == s.(expandedKeysByRoot := r.expandedKeysByRoot)
  {
    s.(expandedKeysByRoot := s.expandedKeysByRoot[root := e])
  }

  /** `_setPreviouslyExpanded(rootKey, map)`. */
  function SetPreviouslyExpanded(s: Store, root: string, pe: map<string, seq<string>>): (r: Store)
    ensures PreviouslyExpanded(r, root) == pe
    ensures forall q :: q != root ==> PreviouslyExpanded(r, q) == PreviouslyExpanded(s, q)
    ensures r == s.(previouslyExpanded := r.previouslyExpanded)
  {
    s.(previouslyExpanded := s.previouslyExpanded[root := pe])
  }

  /** `_setSelectedKeys(rootKey, keys)`: a new selection also stops tracking
      the previously tracked node. */
  function SetSelectedKeys(s: Store, root: string, keys: seq<string>): (r: Store)
    ensures r.trackedNode.None?
    ensures JsObject.Get(r.selectedKeysByRoot, root) == Some(keys)
    ensures forall q :: q != root ==> JsObject.Get(r.selectedKeysByRoot, q) == JsObject.Get(s.selectedKeysByRoot, q)
    ensures SelectionWf(s.selectedKeysByRoot) && NoDup(keys) ==> SelectionWf(r.selectedKeysByRoot)
    ensures r == s.(trackedNode := None, selectedKeysByRoot := r.selectedKeysByRoot)
  {
    var sel := JsObject.SetProperty(s.selectedKeysByRoot, root, keys);
    assert SelectionWf(s.selectedKeysByRoot) && NoDup(keys) ==> SelectionWf(sel) by {
      if SelectionWf(s.selectedKeysByRoot) && NoDup(keys) {
        SetPropertyKeepsSelectionWf(s.selectedKeysByRoot, root, keys);
      }
    }
    s.(trackedNode := None, selectedKeysByRoot := sel)
  }

  lemma SetPropertyKeepsSelectionWf(sel: JsObject.Obj<seq<string>>, root: string, keys: seq<string>)
    requires SelectionWf(sel) && NoDup(keys)
    ensures SelectionWf(JsObject.SetProperty(sel, root, keys))
  {
    var r := JsObject.SetProperty(sel, root, keys);
    forall i | 0 <= i < |r| ensures NoDup(r[i].1) {
      var k := r[i].0;
      assert k in JsObject.Keys(r);
      var v := JsObject.Get(r, k);
      assert v == if k == root then Some(keys) else JsObject.Get(sel, k);
      JsObject.GetAt(r, i);
      if k != root {
        var j :| 0 <= j < |sel| && sel[j] == (k, v.value);
      }
    }
  }

  /** `_deleteSelectedKeys(rootKey)`. */
  function DeleteSelectedKeys(s: Store, root: string): (r: Store)
    ensures JsObject.Get(r.selectedKeysByRoot, root).None?
    ensures forall q :: q != root ==> JsObject.Get(r.selectedKeysByRoot, q) == JsObject.Get(s.selectedKeysByRoot, q)
    ensures r == s.(selectedKeysByRoot := r.selectedKeysByRoot)
  {
    s.(selectedKeysByRoot := JsObject.DeleteProperty(s.selectedKeysByRoot, root))
  }

  /** `_setSelectedKeysByRoot(selection)`, walking `roots` (the store's roots). */
  function SetSelectionOfRoots(s: Store, roots: seq<string>, selection: JsObject.Obj<seq<string>>): (r: Store)
    ensures forall q :: q in roots ==> JsObject.Get(r.selectedKeysByRoot, q) == JsObject.Get(selection, q)
    ensures forall q :: q !in roots ==> JsObject.Get(r.selectedKeysByRoot, q) == JsObject.Get(s.selectedKeysByRoot, q)
    ensures (exists q :: q in roots && JsObject.Has(selection, q)) ==> r.trackedNode.None?
    ensures (forall q :: q in roots ==> !JsObject.Has(selection, q)) ==> r.trackedNode == s.trackedNode
    ensures r == s.(trackedNode := r.trackedNode, selectedKeysByRoot := r.selectedKeysByRoot)
    decreases |roots|
  {
    if |roots| == 0 then s
    else
      var q := roots[0];
      var s1 := match JsObject.Get(selection, q)
                case Some(keys) => SetSelectedKeys(s, q, keys)
                case None => DeleteSelectedKeys(s, q);
      var r := SetSelectionOfRoots(s1, roots[1..], selection);
      assert forall x :: x in roots <==> x == q || x in roots[1..];
      r
  }

  /** `_setSelectedKeysByRoot(selection)`: every root takes its entry from
      `selection`, and a root missing from it is left with no entry at all. */
  function SetSelectedKeysByRoot(s: Store, selection: JsObject.Obj<seq<string>>): (r: Store)
    ensures forall q :: q in s.rootKeys ==> JsObject.Get(r.selectedKeysByRoot, q) == JsObject.Get(selection, q)
    ensures forall q :: q in s.rootKeys && !JsObject.Has(selection, q) ==> !JsObject.Has(r.selectedKeysByRoot, q)
    ensures forall q :: q !in s.rootKeys ==> JsObject.Get(r.selectedKeysByRoot, q) == JsObject.Get(s.selectedKeysByRoot, q)
    ensures (exists q :: q in s.rootKeys && JsObject.Has(selection, q)) ==> r.trackedNode.None?
    ensures r.rootKeys == s.rootKeys && r.expandedKeysByRoot == s.expandedKeysByRoot
  {
    SetSelectionOfRoots(s, s.rootKeys, selection)
  }

  /** Whether some entry of `sel` holds `k`. */
  predicate SelectsKey(sel: JsObject.Obj<seq<string>>, k: string) {
    exists i :: 0 <= i < |sel| && k in sel[i].1
  }

  /** `getSelectedKeys()` with no root: starting from `acc`, each root's
      selection merged in, in the order of the selection object. */
  function MergeSelections(acc: seq<string>, sel: JsObject.Obj<seq<string>>): (keys: seq<string>)
    ensures NoDup(acc) ==> NoDup(keys)
    ensures StartsWithSeq(keys, acc)
    ensures forall k :: k in keys <==> k in acc || SelectsKey(sel, k)
    decreases |sel|
  {
    if |sel| == 0 then acc
    else
      var keys := MergeSelections(Union(acc, sel[0].1), sel[1..]);
      MergeStep(acc, sel, keys);
      keys
  }

  /** Merging the first entry and then the rest meets the contract for all of
      `sel`. */
  lemma MergeStep(acc: seq<string>, sel: JsObject.Obj<seq<string>>, keys: seq<string>)
    requires |sel| > 0
    requires NoDup(Union(acc, sel[0].1)) ==> NoDup(keys)
    requires StartsWithSeq(keys, Union(acc, sel[0].1))
    requires forall k :: k in keys <==> k in Union(acc, sel[0].1) || SelectsKey(sel[1..], k)
    ensures NoDup(acc) ==> NoDup(keys)
    ensures StartsWithSeq(keys, acc)
    ensures forall k :: k in keys <==> k in acc || SelectsKey(sel, k)
  {
    var u := Union(acc, sel[0].1);
    assert keys[..|acc|] == keys[..|u|][..|acc|];
    forall k ensures SelectsKey(sel, k) <==> k in sel[0].1 || SelectsKey(sel[1..], k) {
      if SelectsKey(sel, k) {
        var i :| 0 <= i < |sel| && k in sel[i].1;
        if i > 0 { assert sel[1..][i - 1] == sel[i]; }
      }
      if SelectsKey(sel[1..], k) {
        var i :| 0 <= i < |sel[1..]| && k in sel[1..][i].1;
        assert sel[i + 1] == sel[1..][i];
      }
    }
  }

  /** Every key selected under any root, each once, the first root's selection first. */
  function AllSelectedKeys(s: Store): (keys: seq<string>)
    ensures NoDup(keys)
    ensures forall root, k :: IsSelected(s, root, k) ==> k in keys
    ensures forall k :: k in keys ==> SelectsKey(s.selectedKeysByRoot, k)
    ensures |s.selectedKeysByRoot| > 0 && NoDup(s.selectedKeysByRoot[0].1) ==>
              StartsWithSeq(keys, s.selectedKeysByRoot[0].1)
  {
    var sel := s.selectedKeysByRoot;
    var keys := MergeSelections([], sel);
    SelectedAreMerged(s, keys);
    if |sel| > 0 && NoDup(sel[0].1) then
      MergeFirstFresh(sel);
      keys
    else keys
  }

  lemma SelectedAreMerged(s: Store, keys: seq<string>)
    requires keys == MergeSelections([], s.selectedKeysByRoot)
    ensures forall root, k :: IsSelected(s, root, k) ==> k in keys
  {
    var sel := s.selectedKeysByRoot;
    forall root, k | IsSelected(s, root, k) ensures k in keys {
      var v := JsObject.Get(sel, root);
      var i :| 0 <= i < |sel| && sel[i] == (root, v.value);
      assert SelectsKey(sel, k);
    }
  }

  lemma MergeFirstFresh(sel: JsObject.Obj<seq<string>>)
    requires |sel| > 0 && NoDup(sel[0].1)
    ensures StartsWithSeq(MergeSelections([], sel), sel[0].1)
  {
    assert [] + sel[0].1 == sel[0].1;
    UnionOfFresh([], sel[0].1);
    assert MergeSelections([], sel) == MergeSelections(sel[0].1, sel[1..]);
  }

  /** `getSingleSelectedNode()`: a node only when exactly one root has a
      selection entry and that entry holds exactly one key. */
  function SingleSelectedNode(s: Store): (n: Option<NodeRef>)
    ensures n.Some? <==> |s.selectedKeysByRoot| == 1 && |s.selectedKeysByRoot[0].1| == 1
    ensures n.Some? ==> n.value == NodeRef(s.selectedKeysByRoot[0].0, s.selectedKeysByRoot[0].1[0])
  {
    var roots := JsObject.Keys(s.selectedKeysByRoot);
    if |roots| != 1 then None
    else
      var keys := SelectedKeys(s, roots[0]);
      assert keys == s.selectedKeysByRoot[0].1;
      if |keys| == 1 then Some(NodeRef(roots[0], keys[0])) else None
  }

  // ------------------------------------------------------------- hidden paths

  predicate IsIgnoredPath(s: Store, env: Env, k: string) {
    (s.hideIgnoredNames && env.matchesIgnoredName(k)) || (s.excludeVcsIgnoredPaths && env.isVcsIgnored(k))
  }

  /** `_isExcludedFromWorkingSet`: never while editing. */
  predicate ExcludedFromWorkingSet(s: Store, env: Env, k: string) {
    !s.isEditingWorkingSet &&
    (if IsDirKey(k) then !env.containsDir(s.workingSet, k) else !env.containsFile(s.workingSet, k))
  }

  /** `_isExcludedFromOpenFilesWorkingSet`: never while editing; always when
      no file is open. */
  predicate ExcludedFromOpenFiles(s: Store, env: Env, k: string) {
    !s.isEditingWorkingSet &&
    (s.openFilesWorkingSet.IsEmpty() ||
     (if IsDirKey(k) then !env.containsDir(s.openFilesWorkingSet, k) else !env.containsFile(s.openFilesWorkingSet, k)))
  }

  predicate ShouldHidePath(s: Store, env: Env, k: string) {
    IsIgnoredPath(s, env, k) || (ExcludedFromWorkingSet(s, env, k) && ExcludedFromOpenFiles(s, env, k))
  }

  /** Whether `_omitHiddenPaths` filters at all. */
  predicate Hides(s: Store) {
    s.hideIgnoredNames || s.excludeVcsIgnoredPaths || !s.workingSet.IsEmpty()
  }

  /** `_omitHiddenPaths(keys)`: the input itself when nothing can be hidden;
      otherwise the keys that should not be hidden, in their order. */
  function OmitHiddenPaths(s: Store, env: Env, keys: seq<string>): (r: seq<string>)
    ensures !Hides(s) ==> r == keys
    ensures IsSubsequence(r, keys)
    ensures forall k :: k in r <==> k in keys && (!Hides(s) || !ShouldHidePath(s, env, k))
  {
    if !Hides(s) then
      SubsequenceOfSelf(keys);
      keys
    else
      var keep := (k: string) => !ShouldHidePath(s, env, k);
      FilterIsSubsequence(keys, keep);
      Filter(keys, keep)
  }

  lemma SubsequenceOfSelf<T>(s: seq<T>)
    ensures IsSubsequence(s, s)
  {
    if |s| > 0 {
      SubsequenceOfSelf(s[1..]);
    }
  }

  /** `getCachedChildKeys(rootKey, nodeKey)`. */
  function CachedChildKeys(s: Store, env: Env, k: string): seq<string> {
    OmitHiddenPaths(s, env, ChildKeys(s, k))
  }

  // ------------------------------------------------------------------- filter

  /** `addFitlerLetter(letter)`: a missing filter counts as ''. */
  function AddFilterLetter(s: Store, letter: string): (r: Store)
    ensures r.filter.Some? && r.filter.value == s.filter.GetOr("") + letter
    ensures r == s.(filter := r.filter)
  {
    s.(filter := Some(s.filter.GetOr("") + letter))
  }

  /** `clearFilter()`: only a non-empty filter is touched. */
  function ClearFilter(s: Store): (r: Store)
    ensures s.filter.Some? && |s.filter.value| > 0 ==> r.filter == Some("")
    ensures !(s.filter.Some? && |s.filter.value| > 0) ==> r == s
    ensures r == s.(filter := r.filter)
  {
    if s.filter.Some? && |s.filter.value| > 0 then s.(filter := Some("")) else s
  }

  /** `removeFilterLetter()`: drops the last character of a non-empty filter. */
  function RemoveFilterLetter(s: Store): (r: Store)
    ensures !(s.filter.Some? && |s.filter.value| > 0) ==> r == s
    ensures s.filter.Some? && |s.filter.value| > 0 ==>
              r.filter.Some? && r.filter.value + [s.filter.value[|s.filter.value| - 1]] == s.filter.value
    ensures r == s.(filter := r.filter)
  {
    if s.filter.Some? && |s.filter.value| > 0 then
      var f := s.filter.value;
      assert f[..|f| - 1] + [f[|f| - 1]] == f;
      s.(filter := Some(f[..|f| - 1]))
    else s
  }

  /** Removing a letter undoes adding one. */
  lemma RemoveUndoesAdd(s: Store, c: char)
    ensures RemoveFilterLetter(AddFilterLetter(s, [c])).filter == Some(s.filter.GetOr(""))
  {
    var f := s.filter.GetOr("") + [c];
    assert f[..|f| - 1] == s.filter.GetOr("");
  }

  /** `setFilterFound(found)` and `getFilterFound()`. */
  function SetFilterFound(s: Store, found: bool): (r: Store)
    ensures r.filterFound == Some(found)
    ensures r == s.(filterFound := r.filterFound)
  {
    if s.filterFound == Some(found) then s else s.(filterFound := Some(found))
  }

  function FilterFound(s: Store): (found: bool)
    ensures found <==> s.filterFound == Some(true)
  {
    s.filterFound.GetOr(false)
  }

  // -------------------------------------------------------- working-set edits

  /** `_startEditingWorkingSet(ws)`: only when not already editing. */
  function StartEditingWorkingSet(s: Store, ws: WorkingSet): (r: Store)
    ensures s.isEditingWorkingSet ==> r == s
    ensures !s.isEditingWorkingSet ==> r == s.(isEditingWorkingSet := true, editedWorkingSet := ws)
  {
    if s.isEditingWorkingSet then s else s.(isEditingWorkingSet := true, editedWorkingSet := ws)
  }

  /** `_finishEditingWorkingSet()`: stops editing and empties the edited set. */
  function FinishEditingWorkingSet(s: Store): (r: Store)
    ensures !r.isEditingWorkingSet
    ensures s.isEditingWorkingSet ==> r.editedWorkingSet.IsEmpty()
    ensures !s.isEditingWorkingSet ==> r == s
    ensures r == s.(isEditingWorkingSet := r.isEditingWorkingSet, editedWorkingSet := r.editedWorkingSet)
  {
    if s.isEditingWorkingSet then s.(isEditingWorkingSet := false, editedWorkingSet := WorkingSet([])) else s
  }

  /** `_checkNode(rootKey, nodeKey)`: adds the node to the edited set, or, when
      that completes its parent's children, checks the parent instead. A node
      is its tree's root when its key is the root key. */
  function CheckNode(s: Store, env: Env, root: string, n: string): (r: Store)
    requires IsDirKey(root) && StartsWith(n, root)
    ensures !s.isEditingWorkingSet ==> r == s
    ensures s.isEditingWorkingSet ==>
              exists m :: StartsWith(n, m) && StartsWith(m, root)
                          && r == s.(editedWorkingSet := WorkingSet(s.editedWorkingSet.uris + [m]))
    decreases |n|
  {
    if !s.isEditingWorkingSet then s
    else
      var edited := WorkingSet(s.editedWorkingSet.uris + [n]);
      if n == root then
        assert StartsWith(n, n);
        s.(editedWorkingSet := edited)
      else
        var parent := ParentKey(n);
        ParentStaysUnderRoot(root, n);
        var siblings := CachedChildKeys(s, env, parent);
        if forall i :: 0 <= i < |siblings| ==> env.containsFile(edited, siblings[i]) then
          var r := CheckNode(s, env, root, parent);
          var m :| StartsWith(parent, m) && StartsWith(m, root)
                   && r == s.(editedWorkingSet := WorkingSet(s.editedWorkingSet.uris + [m]));
          PrefixOfPrefix(n, parent, m);
          r
        else
          assert StartsWith(n, n);
          s.(editedWorkingSet := edited)
  }

  lemma PrefixOfPrefix(a: string, b: string, c: string)
    requires StartsWith(a, b) && StartsWith(b, c)
    ensures StartsWith(a, c)
  {
    assert a[..|c|] == a[..|b|][..|c|];
  }

  /** `_uncheckNode(rootKey, nodeKey)`: removes the node, or, when its parent
      was checked as a whole, unchecks the parent and checks the node's
      siblings one by one instead. */
  function UncheckNode(s: Store, env: Env, root: string, n: string): (r: Store)
    requires IsDirKey(root) && StartsWith(n, root)
    ensures !s.isEditingWorkingSet ==> r == s
    ensures r == s.(editedWorkingSet := r.editedWorkingSet)
    ensures s.isEditingWorkingSet && n == root ==> r.editedWorkingSet.uris == Remove(s.editedWorkingSet.uris, n)
    ensures s.isEditingWorkingSet && n != root && !env.containsFile(s.editedWorkingSet, ParentKey(n)) ==>
              r.editedWorkingSet.uris == Remove(s.editedWorkingSet.uris, n)
    ensures s.isEditingWorkingSet && n != root && env.containsFile(s.editedWorkingSet, ParentKey(n)) ==>
              var up := UncheckNode(s, env, root, ParentKey(n));
              r.editedWorkingSet.uris ==
              up.editedWorkingSet.uris + Filter(CachedChildKeys(up, env, ParentKey(n)), (k: string) => k != n)
    decreases |n|
  {
    if !s.isEditingWorkingSet then s
    else if n == root then s.(editedWorkingSet := WorkingSet(Remove(s.editedWorkingSet.uris, n)))
    else
      var parent := ParentKey(n);
      ParentStaysUnderRoot(root, n);
      if env.containsFile(s.editedWorkingSet, parent) then
        var up := UncheckNode(s, env, root, parent);
        var siblings := Filter(CachedChildKeys(up, env, parent), (k: string) => k != n);
        up.(editedWorkingSet := WorkingSet(up.editedWorkingSet.uris + siblings))
      else
        s.(editedWorkingSet := WorkingSet(Remove(s.editedWorkingSet.uris, n)))
  }

  // --------------------------------------------------------- subscriptions

  /** Another root still shows `k` expanded, so its watcher must stay. */
  predicate HasOtherSubscriber(s: Store, root: string, k: string) {
    exists i :: 0 <= i < |s.rootKeys| && s.rootKeys[i] != root && IsExpanded(s, s.rootKeys[i], k)
  }

  /** `_removeSubscription(rootKey, nodeKey)`: a watcher no other root needs is
      dropped; the node is marked dirty unless its watcher stays. */
  function RemoveSubscription(s: Store, root: string, k: string): (r: Store)
    ensures k in r.subscriptions <==> k in s.subscriptions && HasOtherSubscriber(s, root, k)
    ensures k in r.dirty <==> k in s.dirty || !(k in s.subscriptions && HasOtherSubscriber(s, root, k))
    ensures forall q :: q != k ==> (q in r.subscriptions <==> q in s.subscriptions) && (q in r.dirty <==> q in s.dirty)
    ensures r == s.(subscriptions := r.subscriptions, dirty := r.dirty)
  {
    if k in s.subscriptions && HasOtherSubscriber(s, root, k) then s
    else s.(subscriptions := s.subscriptions - {k}, dirty := s.dirty + {k})
  }

  /** `_removeSubscription` for every key of `keys`. Each step reads only the
      other roots' expanded sets, which the loop does not change, so the keys
      can be handled at once. */
  function RemoveSubscriptions(s: Store, root: string, keys: set<string>): (r: Store)
    ensures forall k :: k in keys ==> (k in r.subscriptions <==> RemoveSubscription(s, root, k).subscriptions == s.subscriptions && k in s.subscriptions)
    ensures forall k :: k in keys ==> (k in r.dirty <==> k in RemoveSubscription(s, root, k).dirty)
    ensures forall q :: q !in keys ==> (q in r.subscriptions <==> q in s.subscriptions) && (q in r.dirty <==> q in s.dirty)
    ensures r == s.(subscriptions := r.subscriptions, dirty := r.dirty)
  {
    var dropped := set k | k in keys && !(k in s.subscriptions && HasOtherSubscriber(s, root, k));
    s.(subscriptions := s.subscriptions - dropped, dirty := s.dirty + dropped)
  }

  // -------------------------------------------------------------------- roots

  /** The directory children of `root` whose cached lists `_purgeRoot` drops. */
  function DirChildren(s: Store, root: string): (ks: set<string>)
    ensures forall c :: c in ks <==> c in ChildKeys(s, root) && IsDirKey(c)
  {
    set c | c in ChildKeys(s, root) && IsDirKey(c)
  }

  /** The first step of `_purgeRoot`: the watchers of the root's expanded
      keys are released and its expanded set dropped. */
  function DropExpanded(s: Store, root: string): (r: Store)
    ensures r.expandedKeysByRoot.Keys == s.expandedKeysByRoot.Keys - {root}
    ensures forall q :: q != root ==> ExpandedKeys(r, q) == ExpandedKeys(s, q)
    ensures r == s.(expandedKeysByRoot := r.expandedKeysByRoot, subscriptions := r.subscriptions, dirty := r.dirty)
  {
    if root in s.expandedKeysByRoot then
      var s0 := RemoveSubscriptions(s, root, s.expandedKeysByRoot[root]);
      s0.(expandedKeysByRoot := s0.expandedKeysByRoot - {root})
    else s
  }

  /** The cached-children step of `_purgeRoot`: the lists of the root and of
      its directory children go, so that re-adding the root fetches again. */
  function DropChildLists(s: Store, root: string): (r: Store)
    ensures root !in r.childKeyMap
    ensures forall c :: c in DirChildren(s, root) ==> c !in r.childKeyMap
    ensures forall q :: q != root && q !in DirChildren(s, root) && q in s.childKeyMap ==>
              q in r.childKeyMap && r.childKeyMap[q] == s.childKeyMap[q]
    ensures r.childKeyMap.Keys <= s.childKeyMap.Keys
    ensures TreeWf(s.childKeyMap) ==> TreeWf(r.childKeyMap)
    ensures r == s.(childKeyMap := r.childKeyMap)
  {
    if root in s.childKeyMap then s.(childKeyMap := s.childKeyMap - DirChildren(s, root) - {root}) else s
  }

  /** `_purgeRoot(rootKey)`: drops the root's expanded set (releasing the
      watchers of its expanded keys), selection, VCS statuses, and the cached
      children of the root and of its directory children. */
  function PurgeRoot(s: Store, root: string): (r: Store)
    ensures root !in r.expandedKeysByRoot && !JsObject.Has(r.selectedKeysByRoot, root)
    ensures root !in r.vcsStatusesByRoot && root !in r.childKeyMap
    ensures forall c :: c in DirChildren(s, root) ==> c !in r.childKeyMap
    ensures forall q :: q != root ==> ExpandedKeys(r, q) == ExpandedKeys(s, q)
    ensures forall q :: q != root ==> JsObject.Get(r.selectedKeysByRoot, q) == JsObject.Get(s.selectedKeysByRoot, q)
    ensures forall q :: q != root && q in s.vcsStatusesByRoot ==> q in r.vcsStatusesByRoot && r.vcsStatusesByRoot[q] == s.vcsStatusesByRoot[q]
    ensures forall q :: q != root && q !in DirChildren(s, root) && q in s.childKeyMap ==>
              q in r.childKeyMap && r.childKeyMap[q] == s.childKeyMap[q]
    ensures r.childKeyMap.Keys <= s.childKeyMap.Keys
    ensures r.expandedKeysByRoot.Keys <= s.expandedKeysByRoot.Keys
    ensures r.vcsStatusesByRoot.Keys <= s.vcsStatusesByRoot.Keys
    ensures r.rootKeys == s.rootKeys && r.trackedNode == s.trackedNode
    ensures TreeWf(s.childKeyMap) ==> TreeWf(r.childKeyMap)
    ensures SelectionWf(s.selectedKeysByRoot) ==> SelectionWf(r.selectedKeysByRoot)
  {
    var s1 := DropExpanded(s, root);
    var s2 := DeleteSelectedKeys(s1, root);
    assert SelectionWf(s.selectedKeysByRoot) ==> SelectionWf(s2.selectedKeysByRoot) by {
      if SelectionWf(s.selectedKeysByRoot) {
        DeletePropertyKeepsSelectionWf(s1.selectedKeysByRoot, root);
      }
    }
    assert DirChildren(s2, root) == DirChildren(s, root);
    var s3 := DropChildLists(s2, root);
    s3.(vcsStatusesByRoot := s3.vcsStatusesByRoot - {root})
  }

  lemma DeletePropertyKeepsSelectionWf(sel: JsObject.Obj<seq<string>>, root: string)
    requires SelectionWf(sel)
    ensures SelectionWf(JsObject.DeleteProperty(sel, root))
  {
    var r := JsObject.DeleteProperty(sel, root);
    forall i | 0 <= i < |r| ensures NoDup(r[i].1) {
      var k := r[i].0;
      assert k in JsObject.Keys(r);
      JsObject.GetAt(r, i);
      var v := JsObject.Get(r, k);
      assert v == JsObject.Get(sel, k);
      var j :| 0 <= j < |sel| && sel[j] == (k, v.value);
    }
  }

  /** Purges the roots of `removed` in order. */
  function PurgeRoots(s: Store, removed: seq<string>): (r: Store)
    ensures forall q :: q in removed ==> q !in r.expandedKeysByRoot && !JsObject.Has(r.selectedKeysByRoot, q)
                                         && q !in r.vcsStatusesByRoot && q !in r.childKeyMap
    ensures forall q :: q !in removed ==> ExpandedKeys(r, q) == ExpandedKeys(s, q)
    ensures forall q :: q !in removed ==> JsObject.Get(r.selectedKeysByRoot, q) == JsObject.Get(s.selectedKeysByRoot, q)
    ensures forall q :: q !in removed && q in s.vcsStatusesByRoot ==>
              q in r.vcsStatusesByRoot && r.vcsStatusesByRoot[q] == s.vcsStatusesByRoot[q]
    ensures r.childKeyMap.Keys <= s.childKeyMap.Keys
    ensures r.expandedKeysByRoot.Keys <= s.expandedKeysByRoot.Keys
    ensures r.vcsStatusesByRoot.Keys <= s.vcsStatusesByRoot.Keys
    ensures r.rootKeys == s.rootKeys && r.trackedNode == s.trackedNode
    ensures TreeWf(s.childKeyMap) ==> TreeWf(r.childKeyMap)
    ensures SelectionWf(s.selectedKeysByRoot) ==> SelectionWf(r.selectedKeysByRoot)
    decreases |removed|
  {
    if |removed| == 0 then s
    else
      var s1 := PurgeRoot(s, removed[0]);
      var r := PurgeRoots(s1, removed[1..]);
      assert forall x :: x in removed <==> x == removed[0] || x in removed[1..];
      r
  }

  /** `_setRootKeys(rootKeys)`: every old root missing from the new list is
      purged, then the list is replaced. Kept roots keep
      their expanded sets, selections and statuses. The source walks an
      `Immutable.Set` difference; the model purges in the old list's order. */
  function SetRootKeys(s: Store, roots: seq<string>): (r: Store)
    ensures r.rootKeys == roots
    ensures forall q :: q in s.rootKeys && q !in roots ==>
              q !in r.expandedKeysByRoot && !JsObject.Has(r.selectedKeysByRoot, q)
              && q !in r.vcsStatusesByRoot && q !in r.childKeyMap
    ensures forall q :: q in roots ==> ExpandedKeys(r, q) == ExpandedKeys(s, q)
                                       && JsObject.Get(r.selectedKeysByRoot, q) == JsObject.Get(s.selectedKeysByRoot, q)
    ensures forall q :: q in roots && q in s.vcsStatusesByRoot ==>
              q in r.vcsStatusesByRoot && r.vcsStatusesByRoot[q] == s.vcsStatusesByRoot[q]
    ensures Wf(s) ==> TreeWf(r.childKeyMap) && SelectionWf(r.selectedKeysByRoot)
  {
    var removed := RemovedRoots(s.rootKeys, roots);
    var p := PurgeRoots(s, removed);
    KeptRootsUnchanged(s, p, roots);
    p.(rootKeys := roots)
  }

  function NotIn(roots: seq<string>): string -> bool {
    (q: string) => q !in roots
  }

  /** The old roots missing from `roots`, each once, in the old order. */
  function RemovedRoots(before: seq<string>, roots: seq<string>): (removed: seq<string>)
    ensures forall q :: q in removed <==> q in before && q !in roots
  {
    Dedup(Filter(before, NotIn(roots)))
  }

  /** Replacing the root list leaves every root's expanded set where it was. */
  lemma KeptRootsUnchanged(s: Store, p: Store, roots: seq<string>)
    requires forall q :: q !in RemovedRoots(s.rootKeys, roots) ==> ExpandedKeys(p, q) == ExpandedKeys(s, q)
    ensures forall q :: q in roots ==> ExpandedKeys(p.(rootKeys := roots), q) == ExpandedKeys(s, q)
  {
    forall q | q in roots ensures ExpandedKeys(p.(rootKeys := roots), q) == ExpandedKeys(s, q) {
      assert q !in RemovedRoots(s.rootKeys, roots);
      assert ExpandedKeys(p.(rootKeys := roots), q) == ExpandedKeys(p, q);
    }
  }

  // ------------------------------------------------------------ export / load

  /** `ExportStoreData`. A child list is `None` where the exported node had
      no cached children (the exported object holds `undefined` there). */
  datatype ExportData = ExportData(
    version: int,
    childKeyMap: map<string, Option<seq<string>>>,
    expandedKeysByRoot: map<string, set<string>>,
    rootKeys: seq<string>,
    selectedKeysByRoot: JsObject.Obj<seq<string>>)

  /** Every key expanded under some root. */
  function AllExpanded(e: map<string, set<string>>): (ks: set<string>)
    ensures forall k :: k in ks <==> exists root :: root in e && k in e[root]
  {
    set root, k | root in e && k in e[root] :: k
  }

  /** `exportData()`: the child lists of the expanded nodes only. */
  function Export(s: Store): (d: ExportData)
    ensures d.version == Version
    ensures d.childKeyMap.Keys == AllExpanded(s.expandedKeysByRoot)
    ensures forall k :: k in d.childKeyMap ==>
              d.childKeyMap[k] == if k in s.childKeyMap then Some(s.childKeyMap[k]) else None
    ensures d.expandedKeysByRoot == s.expandedKeysByRoot && d.rootKeys == s.rootKeys
    ensures d.selectedKeysByRoot == s.selectedKeysByRoot
  {
    var ks := AllExpanded(s.expandedKeysByRoot);
    ExportData(Version,
               map k | k in ks :: if k in s.childKeyMap then Some(s.childKeyMap[k]) else None,
               s.expandedKeysByRoot, s.rootKeys,
               JsObject.MapValues(s.selectedKeysByRoot, (keys: seq<string>) => keys))
  }

  /** `loadData(data)`: ignored unless written by this version; otherwise
      defaults plus the exported fields, a fetch started and a watcher added
      (for keys naming a directory) for every exported child list. */
  function Load(s: Store, env: Env, d: ExportData): (r: Store)
    ensures d.version != Version ==> r == s
    ensures d.version == Version ==>
              r.rootKeys == d.rootKeys && r.expandedKeysByRoot == d.expandedKeysByRoot
              && r.loading == d.childKeyMap.Keys
              && r.subscriptions == set k | k in d.childKeyMap && env.isDirectory(k)
              && (forall k :: k in r.childKeyMap <==> k in d.childKeyMap && d.childKeyMap[k].Some?)
              && (forall k :: k in r.childKeyMap ==> r.childKeyMap[k] == d.childKeyMap[k].value)
              && JsObject.Keys(r.selectedKeysByRoot) == JsObject.Keys(d.selectedKeysByRoot)
              && (forall i :: 0 <= i < |r.selectedKeysByRoot| ==>
                    r.selectedKeysByRoot[i].1 == Dedup(d.selectedKeysByRoot[i].1))
  {
    if d.version != Version then s
    else
      var ckm := map k | k in d.childKeyMap && d.childKeyMap[k].Some? :: d.childKeyMap[k].value;
      Defaults().(childKeyMap := ckm,
                  expandedKeysByRoot := d.expandedKeysByRoot,
                  rootKeys := d.rootKeys,
                  selectedKeysByRoot := JsObject.MapValues(d.selectedKeysByRoot, Dedup),
                  loading := d.childKeyMap.Keys,
                  subscriptions := set k | k in d.childKeyMap && env.isDirectory(k))
  }

  /** Loading an export gives back the roots, expanded sets and selections,
      and the child lists of the expanded nodes. */
  lemma ExportLoadRoundTrip(s: Store, t: Store, env: Env)
    requires SelectionWf(s.selectedKeysByRoot)
    ensures var r := Load(t, env, Export(s));
            r.rootKeys == s.rootKeys && r.expandedKeysByRoot == s.expandedKeysByRoot
            && r.selectedKeysByRoot == s.selectedKeysByRoot
            && r.childKeyMap == map k | k in s.childKeyMap && k in AllExpanded(s.expandedKeysByRoot) :: s.childKeyMap[k]
  {
    var d := Export(s);
    var r := Load(t, env, d);
    var sel := s.selectedKeysByRoot;
    assert d.selectedKeysByRoot == sel;
    assert |r.selectedKeysByRoot| == |sel|;
    forall i | 0 <= i < |sel| ensures r.selectedKeysByRoot[i] == sel[i] {
      assert r.selectedKeysByRoot[i] == (sel[i].0, Dedup(sel[i].1));
    }
  }

  /** An export from another version leaves the store as it was. */
  lemma LoadOtherVersionIgnored(s: Store, env: Env, d: ExportData)
    requires d.version != Version
    ensures Load(s, env, d) == s
  {
  }
}
