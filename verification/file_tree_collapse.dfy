/** Collapsing and purging nodes of the file tree's store
    (pkg/nuclide-file-tree/lib/FileTreeStore.js): `_collapseNode`, which
    unselects the children, collapses the expanded child directories first
    and remembers them for the next expansion, and `_purgeNode` and
    `_purgeDirectoryWithinARoot`, which forget a directory that went away. */
module FileTreeCollapse {
  import opened Wrappers
  import opened Seqs
  import opened Text
  import JsObject
  import opened Paths
  import opened FileTreeStore
  import opened FileTreeExpansion

  /** The cached keys of `m` at least `len` characters long. A walk down the
      cached tree visits longer and longer keys, so this set shrinks. */
  function KeysFrom(m: map<string, seq<string>>, len: nat): (ks: set<string>)
    ensures forall k :: k in ks <==> k in m && |k| >= len
  {
    set k | k in m && |k| >= len
  }

  lemma KeysFromShrinks(m: map<string, seq<string>>, n: string, c: string)
    requires n in m && |c| > |n|
    ensures |KeysFrom(m, |c|)| < |KeysFrom(m, |n|)|
  {
    SubsetCard(KeysFrom(m, |c|), KeysFrom(m, |n|) - {n});
  }

  /** What one root's collapse reads and writes: the expanded set, the
      `previouslyExpanded` records, the root's selection (absent when the root
      has no entry) and whether it was written, and the watched and dirty
      directories. */
  datatype Collapse = Collapse(expanded: set<string>, records: map<string, seq<string>>,
                               selection: Option<seq<string>>, written: bool,
                               subscriptions: set<string>, dirty: set<string>)

  /** `_removeSubscription(rootKey, k)` on the collapse state; `shared` says
      whether another root still shows `k` expanded, which a collapse of this
      root cannot change. */
  function Unsubscribe(c: Collapse, shared: bool, k: string): (r: Collapse)
    ensures k in r.subscriptions <==> k in c.subscriptions && shared
    ensures k in r.dirty <==> k in c.dirty || !(k in c.subscriptions && shared)
    ensures forall q :: q != k ==> (q in r.subscriptions <==> q in c.subscriptions) && (q in r.dirty <==> q in c.dirty)
    ensures r == c.(subscriptions := r.subscriptions, dirty := r.dirty)
  {
    if k in c.subscriptions && shared then c
    else c.(subscriptions := c.subscriptions - {k}, dirty := c.dirty + {k})
  }

  /** `cs[i..]` is what is left of the cached children of `n`. */
  predicate ChildLoop(s0: Store, n: string, cs: seq<string>, i: nat) {
    TreeWf(s0.childKeyMap) && n in s0.childKeyMap && cs == s0.childKeyMap[n] && i <= |cs|
  }

  /** The loop body's first half for child `x`: with `stale` it deletes `x`
      from the call's own copy `local` of the selection, otherwise from the
      current one, and writes the result when `x` was selected. Returns the
      state and the call's new copy. */
  function UnselectChild(c: Collapse, local: Option<seq<string>>, x: string, stale: bool): (r: (Collapse, Option<seq<string>>))
    ensures r.0 == c.(selection := r.0.selection, written := r.0.written)
  {
    var sel := if stale then local else c.selection;
    if sel.Some? && x in sel.value
    then var keys := Remove(sel.value, x); (c.(selection := Some(keys), written := true), Some(keys))
    else (c, sel)
  }

  /** `_collapseNode(rootKey, n)` from state `c`, the child lists read from
      `s0`, whose child lists and other roots the collapse does not change.
      Returns the final state and the collapsed keys, each after the keys
      collapsed below it. With `stale` each child is unselected from the
      selection this call read on entry, as the source does; otherwise from the
      current one. */
  function CollapseFrom(s0: Store, root: string, c: Collapse, n: string, stale: bool): (r: (Collapse, seq<string>))
    requires TreeWf(s0.childKeyMap)
    ensures r.0.expanded <= c.expanded - {n}
    ensures r.0.subscriptions <= c.subscriptions && c.dirty <= r.0.dirty
    decreases |KeysFrom(s0.childKeyMap, |n|)|, 1, 0
  {
    var (c1, recorded, collapsed) :=
      if n in s0.childKeyMap
      then CollapseChildren(s0, root, c, n, s0.childKeyMap[n], 0, c.selection, stale)
      else (c, [], []);
    var records := if |recorded| > 0 then c1.records[n := recorded] else c1.records - {n};
    var c2 := c1.(records := records, expanded := c1.expanded - {n});
    (Unsubscribe(c2, HasOtherSubscriber(s0, root, n), n), collapsed + [n])
  }

  /** The loop of `_collapseNode` over `cs[i..]`, the children of `n`, with
      `local` the call's own copy of the selection. Returns the state, the
      expanded child directories it met (the record `n` will get) and the keys
      it collapsed. */
  function CollapseChildren(s0: Store, root: string, c: Collapse, n: string, cs: seq<string>, i: nat,
                            local: Option<seq<string>>, stale: bool): (r: (Collapse, seq<string>, seq<string>))
    requires ChildLoop(s0, n, cs, i)
    ensures r.0.expanded <= c.expanded
    ensures r.0.subscriptions <= c.subscriptions && c.dirty <= r.0.dirty
    decreases |KeysFrom(s0.childKeyMap, |n|)|, 0, |cs| - i
  {
    if i == |cs| then (c, [], [])
    else
      var x := cs[i];
      var (c1, local1) := UnselectChild(c, local, x, stale);
      if IsDirKey(x) && x in c1.expanded then
        KeysFromShrinks(s0.childKeyMap, n, x);
        var (c2, sub) := CollapseFrom(s0, root, c1, x, stale);
        var (c3, rec, col) := CollapseChildren(s0, root, c2, n, cs, i + 1, local1, stale);
        (c3, [x] + rec, sub + col)
      else
        CollapseChildren(s0, root, c1, n, cs, i + 1, local1, stale)
  }

  // ------------------------------------------------------- what collapses

  /** `k` lies strictly below `n` in the key hierarchy. */
  predicate Below(k: string, n: string) {
    |k| > |n| && StartsWith(k, n)
  }

  /** Collapsing `n` takes exactly the collapsed keys out of the expanded set:
      `n` itself, collapsed last, and directories below it that were expanded. */
  lemma {:induction false} CollapseFromExpanded(s0: Store, root: string, c: Collapse, n: string, stale: bool)
    requires TreeWf(s0.childKeyMap)
    ensures var r := CollapseFrom(s0, root, c, n, stale);
            r.0.expanded == c.expanded - ToSet(r.1)
            && |r.1| > 0 && r.1[|r.1| - 1] == n
            && forall k :: k in r.1 ==> k == n || (Below(k, n) && k in c.expanded)
    decreases |KeysFrom(s0.childKeyMap, |n|)|, 1, 0
  {
    if n in s0.childKeyMap {
      CollapseChildrenExpanded(s0, root, c, n, s0.childKeyMap[n], 0, c.selection, stale);
    }
  }

  lemma {:induction false} CollapseChildrenExpanded(s0: Store, root: string, c: Collapse, n: string, cs: seq<string>, i: nat,
                                                    local: Option<seq<string>>, stale: bool)
    requires ChildLoop(s0, n, cs, i)
    ensures var r := CollapseChildren(s0, root, c, n, cs, i, local, stale);
            r.0.expanded == c.expanded - ToSet(r.2)
            && forall k :: k in r.2 ==> Below(k, n) && k in c.expanded
    decreases |KeysFrom(s0.childKeyMap, |n|)|, 0, |cs| - i
  {
    if i < |cs| {
      var x := cs[i];
      var (c1, local1) := UnselectChild(c, local, x, stale);
      if IsDirKey(x) && x in c1.expanded {
        KeysFromShrinks(s0.childKeyMap, n, x);
        CollapseFromExpanded(s0, root, c1, x, stale);
        var (c2, sub) := CollapseFrom(s0, root, c1, x, stale);
        CollapseChildrenExpanded(s0, root, c2, n, cs, i + 1, local1, stale);
        var (c3, rec, col) := CollapseChildren(s0, root, c2, n, cs, i + 1, local1, stale);
        CollapseDirStepExpanded(s0, n, cs, i, c, c1, c2, c3, sub, col);
      } else {
        CollapseChildrenExpanded(s0, root, c1, n, cs, i + 1, local1, stale);
      }
    }
  }

  /** One expanded directory child `cs[i]`: collapsing it and then the rest
      of the loop combine into the loop's contract. */
  lemma CollapseDirStepExpanded(s0: Store, n: string, cs: seq<string>, i: nat, c: Collapse, c1: Collapse, c2: Collapse,
                                c3: Collapse, sub: seq<string>, col: seq<string>)
    requires ChildLoop(s0, n, cs, i) && i < |cs|
    requires c1.expanded == c.expanded
    requires c2.expanded == c1.expanded - ToSet(sub)
    requires forall k :: k in sub ==> k == cs[i] || (Below(k, cs[i]) && k in c1.expanded)
    requires cs[i] in c1.expanded
    requires c3.expanded == c2.expanded - ToSet(col)
    requires forall k :: k in col ==> Below(k, n) && k in c2.expanded
    ensures c3.expanded == c.expanded - ToSet(sub + col)
    ensures forall k :: k in sub + col ==> Below(k, n) && k in c.expanded
  {
    var x := cs[i];
    forall k | k in sub
      ensures Below(k, n)
    {
      if k != x {
        PrefixOfPrefix(k, x, n);
      }
    }
    assert ToSet(sub + col) == ToSet(sub) + ToSet(col);
  }

  /** No directory cached under one of `ks` is in `expanded`. */
  predicate Closed(s0: Store, ks: seq<string>, expanded: set<string>) {
    forall k, x :: k in ks && x in ChildKeys(s0, k) && IsDirKey(x) ==> x !in expanded
  }

  lemma ClosedJoin(s0: Store, a: seq<string>, b: seq<string>, e: set<string>, f: set<string>)
    requires Closed(s0, a, e) && Closed(s0, b, f) && f <= e
    ensures Closed(s0, a + b, f)
  {
  }

  /** No directory cached under a collapsed key stays expanded: each was
      either collapsed in turn or was not expanded to begin with. */
  lemma {:induction false} CollapseFromClosed(s0: Store, root: string, c: Collapse, n: string, stale: bool)
    requires TreeWf(s0.childKeyMap)
    ensures var r := CollapseFrom(s0, root, c, n, stale);
            Closed(s0, r.1, r.0.expanded)
    decreases |KeysFrom(s0.childKeyMap, |n|)|, 1, 0
  {
    if n in s0.childKeyMap {
      CollapseChildrenClosed(s0, root, c, n, s0.childKeyMap[n], 0, c.selection, stale);
    }
  }

  lemma {:induction false} CollapseChildrenClosed(s0: Store, root: string, c: Collapse, n: string, cs: seq<string>, i: nat,
                                                  local: Option<seq<string>>, stale: bool)
    requires ChildLoop(s0, n, cs, i)
    ensures var r := CollapseChildren(s0, root, c, n, cs, i, local, stale);
            (forall j :: i <= j < |cs| && IsDirKey(cs[j]) ==> cs[j] !in r.0.expanded)
            && Closed(s0, r.2, r.0.expanded)
    decreases |KeysFrom(s0.childKeyMap, |n|)|, 0, |cs| - i
  {
    if i < |cs| {
      var x := cs[i];
      var (c1, local1) := UnselectChild(c, local, x, stale);
      if IsDirKey(x) && x in c1.expanded {
        KeysFromShrinks(s0.childKeyMap, n, x);
        CollapseFromClosed(s0, root, c1, x, stale);
        var (c2, sub) := CollapseFrom(s0, root, c1, x, stale);
        CollapseChildrenClosed(s0, root, c2, n, cs, i + 1, local1, stale);
        var (c3, rec, col) := CollapseChildren(s0, root, c2, n, cs, i + 1, local1, stale);
        ClosedJoin(s0, sub, col, c2.expanded, c3.expanded);
      } else {
        CollapseChildrenClosed(s0, root, c1, n, cs, i + 1, local1, stale);
      }
    }
  }

  // -------------------------------------------------------- what is recorded

  /** Records of keys outside `ks` are as they were. */
  ghost predicate RecordsKept(before: map<string, seq<string>>, after: map<string, seq<string>>, ks: seq<string>) {
    forall k :: k !in ks ==> (k in after <==> k in before) && (k in before ==> after[k] == before[k])
  }

  /** The records of keys in `ks` list cached child directories of those keys. */
  predicate RecordsOfChildren(s0: Store, recs: map<string, seq<string>>, ks: seq<string>) {
    forall k, x :: k in ks && k in recs && x in recs[k] ==> DirChildOf(s0, k, x)
  }

  /** `x` is a cached child directory of `k`. */
  predicate DirChildOf(s0: Store, k: string, x: string) {
    x in ChildKeys(s0, k) && IsDirKey(x)
  }

  lemma RecordsJoin(s0: Store, a: map<string, seq<string>>, b: map<string, seq<string>>, c: map<string, seq<string>>,
                    ks: seq<string>, ls: seq<string>)
    requires RecordsKept(a, b, ks) && RecordsOfChildren(s0, b, ks)
    requires RecordsKept(b, c, ls) && RecordsOfChildren(s0, c, ls)
    ensures RecordsKept(a, c, ks + ls) && RecordsOfChildren(s0, c, ks + ls)
  {
  }

  /** Collapsing `n` records for it the child directories it collapsed, all
      of which were expanded, and records nothing when none was; only the
      records of collapsed keys change. */
  lemma {:induction false} CollapseFromRecords(s0: Store, root: string, c: Collapse, n: string, stale: bool)
    requires TreeWf(s0.childKeyMap)
    ensures var r := CollapseFrom(s0, root, c, n, stale);
            RecordsKept(c.records, r.0.records, r.1) && RecordsOfChildren(s0, r.0.records, r.1)
            && (n in r.0.records <==> |r.1| > 1)
            && (n in r.0.records ==> forall x :: x in r.0.records[n] ==> x in c.expanded && x in r.1)
    decreases |KeysFrom(s0.childKeyMap, |n|)|, 1, 0
  {
    var (c1, recorded, collapsed) :=
      if n in s0.childKeyMap
      then CollapseChildren(s0, root, c, n, s0.childKeyMap[n], 0, c.selection, stale)
      else (c, [], []);
    if n in s0.childKeyMap {
      CollapseChildrenRecords(s0, root, c, n, s0.childKeyMap[n], 0, c.selection, stale);
    }
    var records := if |recorded| > 0 then c1.records[n := recorded] else c1.records - {n};
    assert CollapseFrom(s0, root, c, n, stale).0.records == records;
    assert RecordsKept(c1.records, records, [n]);
    assert RecordsOfChildren(s0, records, [n]);
    RecordsJoin(s0, c.records, c1.records, records, collapsed, [n]);
  }

  lemma {:induction false} CollapseChildrenRecords(s0: Store, root: string, c: Collapse, n: string, cs: seq<string>, i: nat,
                                                   local: Option<seq<string>>, stale: bool)
    requires ChildLoop(s0, n, cs, i)
    ensures var r := CollapseChildren(s0, root, c, n, cs, i, local, stale);
            RecordsKept(c.records, r.0.records, r.2) && RecordsOfChildren(s0, r.0.records, r.2)
            && (forall x :: x in r.1 ==> x in cs && IsDirKey(x) && x in c.expanded && x in r.2)
            && (r.1 == [] <==> r.2 == [])
    decreases |KeysFrom(s0.childKeyMap, |n|)|, 0, |cs| - i
  {
    if i < |cs| {
      var x := cs[i];
      var (c1, local1) := UnselectChild(c, local, x, stale);
      if IsDirKey(x) && x in c1.expanded {
        KeysFromShrinks(s0.childKeyMap, n, x);
        CollapseFromRecords(s0, root, c1, x, stale);
        CollapseFromExpanded(s0, root, c1, x, stale);
        var (c2, sub) := CollapseFrom(s0, root, c1, x, stale);
        CollapseChildrenRecords(s0, root, c2, n, cs, i + 1, local1, stale);
        var (c3, rec, col) := CollapseChildren(s0, root, c2, n, cs, i + 1, local1, stale);
        RecordsJoin(s0, c1.records, c2.records, c3.records, sub, col);
        assert x in sub;
      } else {
        CollapseChildrenRecords(s0, root, c1, n, cs, i + 1, local1, stale);
      }
    }
  }

  // ------------------------------------------------------- what is unselected

  /** Selection `a` keeps only keys of selection `b`. */
  predicate SubSel(a: Option<seq<string>>, b: Option<seq<string>>) {
    a.Some? ==> b.Some? && forall k :: k in a.value ==> k in b.value
  }

  /** `x` is not selected in `a`. */
  predicate Lacks(a: Option<seq<string>>, x: string) {
    a.None? || x !in a.value
  }

  predicate SelNoDup(a: Option<seq<string>>) {
    a.None? || NoDup(a.value)
  }

  /** Collapsing `n` only unselects keys, and leaves no child of `n` selected,
      also as the source writes it. */
  lemma {:induction false} CollapseFromSelection(s0: Store, root: string, c: Collapse, n: string, stale: bool)
    requires TreeWf(s0.childKeyMap)
    ensures var r := CollapseFrom(s0, root, c, n, stale);
            SubSel(r.0.selection, c.selection)
            && forall x :: x in ChildKeys(s0, n) ==> Lacks(r.0.selection, x)
    decreases |KeysFrom(s0.childKeyMap, |n|)|, 1, 0
  {
    if n in s0.childKeyMap {
      CollapseChildrenSelection(s0, root, c, n, s0.childKeyMap[n], 0, c.selection, stale);
    }
  }

  lemma {:induction false} CollapseChildrenSelection(s0: Store, root: string, c: Collapse, n: string, cs: seq<string>, i: nat,
                                                     local: Option<seq<string>>, stale: bool)
    requires ChildLoop(s0, n, cs, i)
    requires stale ==> SubSel(c.selection, local)
    ensures var r := CollapseChildren(s0, root, c, n, cs, i, local, stale);
            SubSel(r.0.selection, if stale then local else c.selection)
            && forall j :: i <= j < |cs| ==> Lacks(r.0.selection, cs[j])
    decreases |KeysFrom(s0.childKeyMap, |n|)|, 0, |cs| - i
  {
    if i < |cs| {
      var x := cs[i];
      var (c1, local1) := UnselectChild(c, local, x, stale);
      assert Lacks(c1.selection, x) && (stale ==> SubSel(c1.selection, local1) && Lacks(local1, x));
      assert SubSel(c1.selection, if stale then local else c.selection);
      assert stale ==> SubSel(local1, local);
      // the selection the rest of the loop starts from
      var c2 := if IsDirKey(x) && x in c1.expanded then CollapseFrom(s0, root, c1, x, stale).0 else c1;
      if IsDirKey(x) && x in c1.expanded {
        KeysFromShrinks(s0.childKeyMap, n, x);
        CollapseFromSelection(s0, root, c1, x, stale);
      }
      assert SubSel(c2.selection, c1.selection);
      CollapseChildrenSelection(s0, root, c2, n, cs, i + 1, local1, stale);
      var r := CollapseChildren(s0, root, c2, n, cs, i + 1, local1, stale);
      assert CollapseChildren(s0, root, c, n, cs, i, local, stale).0 == r.0;
      SubSelTrans(r.0.selection, if stale then local1 else c2.selection, if stale then local else c.selection);
      LacksSub(r.0.selection, if stale then local1 else c2.selection, x);
    }
  }

  lemma SubSelTrans(a: Option<seq<string>>, b: Option<seq<string>>, c: Option<seq<string>>)
    requires SubSel(a, b) && SubSel(b, c)
    ensures SubSel(a, c)
  {
  }

  lemma LacksSub(a: Option<seq<string>>, b: Option<seq<string>>, x: string)
    requires SubSel(a, b) && Lacks(b, x)
    ensures Lacks(a, x)
  {
  }

  /** A selection is written only when there is one, stays once there is one,
      without duplicates gets none, and is as it was unless written. */
  lemma {:induction false} CollapseFromSelectionShape(s0: Store, root: string, c: Collapse, n: string, stale: bool)
    requires TreeWf(s0.childKeyMap)
    ensures var r := CollapseFrom(s0, root, c, n, stale);
            (SelNoDup(c.selection) ==> SelNoDup(r.0.selection))
            && (c.selection.Some? ==> r.0.selection.Some?)
            && (r.0.written ==> c.written || r.0.selection.Some?)
            && (!r.0.written ==> !c.written && r.0.selection == c.selection)
    decreases |KeysFrom(s0.childKeyMap, |n|)|, 1, 0
  {
    if n in s0.childKeyMap {
      CollapseChildrenSelectionShape(s0, root, c, n, s0.childKeyMap[n], 0, c.selection, stale);
    }
  }

  lemma {:induction false} CollapseChildrenSelectionShape(s0: Store, root: string, c: Collapse, n: string, cs: seq<string>, i: nat,
                                                          local: Option<seq<string>>, stale: bool)
    requires ChildLoop(s0, n, cs, i)
    ensures var r := CollapseChildren(s0, root, c, n, cs, i, local, stale);
            (SelNoDup(c.selection) && SelNoDup(local) ==> SelNoDup(r.0.selection))
            && (c.selection.Some? ==> r.0.selection.Some?)
            && (r.0.written ==> c.written || r.0.selection.Some?)
            && (!r.0.written ==> !c.written && r.0.selection == c.selection)
    decreases |KeysFrom(s0.childKeyMap, |n|)|, 0, |cs| - i
  {
    if i < |cs| {
      var x := cs[i];
      var (c1, local1) := UnselectChild(c, local, x, stale);
      assert !c1.written ==> c1.selection == c.selection;
      var c2 := if IsDirKey(x) && x in c1.expanded then CollapseFrom(s0, root, c1, x, stale).0 else c1;
      if IsDirKey(x) && x in c1.expanded {
        KeysFromShrinks(s0.childKeyMap, n, x);
        CollapseFromSelectionShape(s0, root, c1, x, stale);
      }
      CollapseChildrenSelectionShape(s0, root, c2, n, cs, i + 1, local1, stale);
      assert CollapseChildren(s0, root, c, n, cs, i, local, stale).0 == CollapseChildren(s0, root, c2, n, cs, i + 1, local1, stale).0;
    }
  }

  /** No cached child of a key in `ks` is selected in `sel`. */
  predicate DeselectedUnder(s0: Store, ks: seq<string>, sel: Option<seq<string>>) {
    forall k, x :: k in ks && x in ChildKeys(s0, k) ==> Lacks(sel, x)
  }

  lemma DeselectedJoin(s0: Store, a: seq<string>, b: seq<string>, selA: Option<seq<string>>, selB: Option<seq<string>>)
    requires DeselectedUnder(s0, a, selA) && DeselectedUnder(s0, b, selB) && SubSel(selB, selA)
    ensures DeselectedUnder(s0, a + b, selB)
  {
    forall k, x | k in a + b && x in ChildKeys(s0, k)
      ensures Lacks(selB, x)
    {
      if k in a {
        LacksSub(selB, selA, x);
      }
    }
  }

  /** Unselecting from the current selection, every child of every collapsed
      key ends up unselected. */
  lemma {:induction false} CollapseFromDeselects(s0: Store, root: string, c: Collapse, n: string)
    requires TreeWf(s0.childKeyMap)
    ensures var r := CollapseFrom(s0, root, c, n, false);
            DeselectedUnder(s0, r.1, r.0.selection)
    decreases |KeysFrom(s0.childKeyMap, |n|)|, 1, 0
  {
    CollapseFromSelection(s0, root, c, n, false);
    var (c1, recorded, collapsed) :=
      if n in s0.childKeyMap
      then CollapseChildren(s0, root, c, n, s0.childKeyMap[n], 0, c.selection, false)
      else (c, [], []);
    if n in s0.childKeyMap {
      CollapseChildrenDeselects(s0, root, c, n, s0.childKeyMap[n], 0, c.selection);
    }
    var r := CollapseFrom(s0, root, c, n, false);
    assert r.0.selection == c1.selection && r.1 == collapsed + [n];
    assert DeselectedUnder(s0, [n], r.0.selection);
  }

  lemma {:induction false} CollapseChildrenDeselects(s0: Store, root: string, c: Collapse, n: string, cs: seq<string>, i: nat,
                                                     local: Option<seq<string>>)
    requires ChildLoop(s0, n, cs, i)
    ensures var r := CollapseChildren(s0, root, c, n, cs, i, local, false);
            DeselectedUnder(s0, r.2, r.0.selection)
    decreases |KeysFrom(s0.childKeyMap, |n|)|, 0, |cs| - i
  {
    if i < |cs| {
      var x := cs[i];
      var (c1, local1) := UnselectChild(c, local, x, false);
      if IsDirKey(x) && x in c1.expanded {
        KeysFromShrinks(s0.childKeyMap, n, x);
        CollapseFromDeselects(s0, root, c1, x);
        var (c2, sub) := CollapseFrom(s0, root, c1, x, false);
        CollapseChildrenDeselects(s0, root, c2, n, cs, i + 1, local1);
        CollapseChildrenSelection(s0, root, c2, n, cs, i + 1, local1, false);
        var (c3, rec, col) := CollapseChildren(s0, root, c2, n, cs, i + 1, local1, false);
        DeselectedJoin(s0, sub, col, c2.selection, c3.selection);
      } else {
        CollapseChildrenDeselects(s0, root, c1, n, cs, i + 1, local1);
      }
    }
  }

  // ------------------------------------------------------------ watchers

  /** From `before` to `after`, each key of `ks` had `_removeSubscription`
      applied, and no other key's watcher or dirty flag changed. */
  ghost predicate Unsubscribed(s0: Store, root: string, before: Collapse, after: Collapse, ks: seq<string>) {
    forall k ::
      && (k in ks ==>
            (k in after.subscriptions <==> k in before.subscriptions && HasOtherSubscriber(s0, root, k))
            && (k in after.dirty <==> k in before.dirty || !(k in before.subscriptions && HasOtherSubscriber(s0, root, k))))
      && (k !in ks ==>
            (k in after.subscriptions <==> k in before.subscriptions) && (k in after.dirty <==> k in before.dirty))
  }

  /** Removing a subscription twice is removing it once. */
  lemma UnsubscribedJoin(s0: Store, root: string, a: Collapse, b: Collapse, c: Collapse, ks: seq<string>, ls: seq<string>)
    requires Unsubscribed(s0, root, a, b, ks) && Unsubscribed(s0, root, b, c, ls)
    ensures Unsubscribed(s0, root, a, c, ks + ls)
  {
  }

  /** Each collapsed key loses its watcher unless another root shows it
      expanded, and is marked dirty unless its watcher stays; no other key's
      watcher changes. */
  lemma {:induction false} CollapseFromUnsubscribes(s0: Store, root: string, c: Collapse, n: string, stale: bool)
    requires TreeWf(s0.childKeyMap)
    ensures var r := CollapseFrom(s0, root, c, n, stale);
            Unsubscribed(s0, root, c, r.0, r.1)
    decreases |KeysFrom(s0.childKeyMap, |n|)|, 1, 0
  {
    var (c1, recorded, collapsed) :=
      if n in s0.childKeyMap
      then CollapseChildren(s0, root, c, n, s0.childKeyMap[n], 0, c.selection, stale)
      else (c, [], []);
    if n in s0.childKeyMap {
      CollapseChildrenUnsubscribes(s0, root, c, n, s0.childKeyMap[n], 0, c.selection, stale);
    }
    var records := if |recorded| > 0 then c1.records[n := recorded] else c1.records - {n};
    var c2 := c1.(records := records, expanded := c1.expanded - {n});
    var r := CollapseFrom(s0, root, c, n, stale);
    assert r == (Unsubscribe(c2, HasOtherSubscriber(s0, root, n), n), collapsed + [n]);
    assert Unsubscribed(s0, root, c1, r.0, [n]);
    UnsubscribedJoin(s0, root, c, c1, r.0, collapsed, [n]);
  }

  lemma {:induction false} CollapseChildrenUnsubscribes(s0: Store, root: string, c: Collapse, n: string, cs: seq<string>, i: nat,
                                                        local: Option<seq<string>>, stale: bool)
    requires ChildLoop(s0, n, cs, i)
    ensures var r := CollapseChildren(s0, root, c, n, cs, i, local, stale);
            Unsubscribed(s0, root, c, r.0, r.2)
    decreases |KeysFrom(s0.childKeyMap, |n|)|, 0, |cs| - i
  {
    if i < |cs| {
      var x := cs[i];
      var (c1, local1) := UnselectChild(c, local, x, stale);
      if IsDirKey(x) && x in c1.expanded {
        KeysFromShrinks(s0.childKeyMap, n, x);
        CollapseFromUnsubscribes(s0, root, c1, x, stale);
        var (c2, sub) := CollapseFrom(s0, root, c1, x, stale);
        CollapseChildrenUnsubscribes(s0, root, c2, n, cs, i + 1, local1, stale);
        var (c3, rec, col) := CollapseChildren(s0, root, c2, n, cs, i + 1, local1, stale);
        UnsubscribedJoin(s0, root, c1, c2, c3, sub, col);
      } else {
        CollapseChildrenUnsubscribes(s0, root, c1, n, cs, i + 1, local1, stale);
      }
    }
  }

  // ------------------------------------------------------------ on the store

  /** What a collapse of `root` in `s` starts from. */
  function CollapseOf(s: Store, root: string): Collapse {
    Collapse(ExpandedKeys(s, root), PreviouslyExpanded(s, root), JsObject.Get(s.selectedKeysByRoot, root),
             false, s.subscriptions, s.dirty)
  }

  /** Writes a collapse state back into root `root` of `s`: the selection only
      when the walk wrote it, which it does only when there is one. */
  function StoreCollapse(s: Store, root: string, c: Collapse): (r: Store)
    requires c.written ==> c.selection.Some?
    ensures ExpandedKeys(r, root) == c.expanded && PreviouslyExpanded(r, root) == c.records
    ensures JsObject.Get(r.selectedKeysByRoot, root) == if c.written then c.selection else JsObject.Get(s.selectedKeysByRoot, root)
    ensures r.subscriptions == c.subscriptions && r.dirty == c.dirty
    ensures forall q :: q != root ==>
              ExpansionOf(r, q) == ExpansionOf(s, q) && JsObject.Get(r.selectedKeysByRoot, q) == JsObject.Get(s.selectedKeysByRoot, q)
    ensures SelectionWf(s.selectedKeysByRoot) && SelNoDup(c.selection) ==> SelectionWf(r.selectedKeysByRoot)
    ensures r == s.(expandedKeysByRoot := r.expandedKeysByRoot, previouslyExpanded := r.previouslyExpanded,
                    selectedKeysByRoot := r.selectedKeysByRoot, trackedNode := r.trackedNode,
                    subscriptions := r.subscriptions, dirty := r.dirty)
  {
    var s1 := if c.written then SetSelectedKeys(s, root, c.selection.value) else s;
    SetPreviouslyExpanded(SetExpandedKeys(s1, root, c.expanded), root, c.records).(subscriptions := c.subscriptions, dirty := c.dirty)
  }

  /** `_collapseNode(root, n)` on the store, `stale` as in `CollapseFrom`;
      also returns the keys it collapsed. */
  function CollapseWith(s: Store, root: string, n: string, stale: bool): (r: (Store, seq<string>))
    requires TreeWf(s.childKeyMap)
    ensures var w := CollapseFrom(s, root, CollapseOf(s, root), n, stale);
            r.1 == w.1 && ExpandedKeys(r.0, root) == w.0.expanded && PreviouslyExpanded(r.0, root) == w.0.records
            && JsObject.Get(r.0.selectedKeysByRoot, root) == w.0.selection
            && r.0.subscriptions == w.0.subscriptions && r.0.dirty == w.0.dirty
  {
    var c := CollapseOf(s, root);
    CollapseFromSelectionShape(s, root, c, n, stale);
    var w := CollapseFrom(s, root, c, n, stale);
    (StoreCollapse(s, root, w.0), w.1)
  }

  /** `_collapseNode` as the source writes it: each child is unselected from
      the selection the call read on entry. The node and its child directories
      end up collapsed, its children unselected, nothing becomes expanded or
      selected, and the other roots, the cached children and the roots are
      untouched. */
  function CollapseNodeAsWritten(s: Store, root: string, n: string): (r: Store)
    requires TreeWf(s.childKeyMap)
    ensures !IsExpanded(r, root, n) && ExpandedKeys(r, root) <= ExpandedKeys(s, root)
    ensures forall x :: x in ChildKeys(s, n) ==> !IsSelected(r, root, x)
    ensures forall x :: x in ChildKeys(s, n) && IsDirKey(x) ==> !IsExpanded(r, root, x)
    ensures forall k :: IsSelected(r, root, k) ==> IsSelected(s, root, k)
    ensures forall q :: q != root ==> ExpansionOf(r, q) == ExpansionOf(s, q) && SelectedKeys(r, q) == SelectedKeys(s, q)
    ensures r.childKeyMap == s.childKeyMap && r.rootKeys == s.rootKeys
  {
    CollapseStore(s, root, n, true);
    CollapseWith(s, root, n, true).0
  }

  /** `_collapseNode` unselecting each child from the current selection. */
  function CollapseNode(s: Store, root: string, n: string): (r: Store)
    requires TreeWf(s.childKeyMap)
    ensures !IsExpanded(r, root, n) && ExpandedKeys(r, root) <= ExpandedKeys(s, root)
    ensures forall x :: x in ChildKeys(s, n) ==> !IsSelected(r, root, x)
    ensures forall x :: x in ChildKeys(s, n) && IsDirKey(x) ==> !IsExpanded(r, root, x)
    ensures forall k :: IsSelected(r, root, k) ==> IsSelected(s, root, k)
    ensures forall q :: q != root ==> ExpansionOf(r, q) == ExpansionOf(s, q) && SelectedKeys(r, q) == SelectedKeys(s, q)
    ensures r.childKeyMap == s.childKeyMap && r.rootKeys == s.rootKeys
  {
    CollapseStore(s, root, n, false);
    CollapseWith(s, root, n, false).0
  }

  /** The store-level facts shared by both collapses. */
  lemma CollapseStore(s: Store, root: string, n: string, stale: bool)
    requires TreeWf(s.childKeyMap)
    ensures var r := CollapseWith(s, root, n, stale).0;
            !IsExpanded(r, root, n) && ExpandedKeys(r, root) <= ExpandedKeys(s, root)
            && (forall x :: x in ChildKeys(s, n) ==> !IsSelected(r, root, x))
            && (forall x :: x in ChildKeys(s, n) && IsDirKey(x) ==> !IsExpanded(r, root, x))
            && (forall k :: IsSelected(r, root, k) ==> IsSelected(s, root, k))
            && (forall q :: q != root ==> ExpansionOf(r, q) == ExpansionOf(s, q) && SelectedKeys(r, q) == SelectedKeys(s, q))
            && r.childKeyMap == s.childKeyMap && r.rootKeys == s.rootKeys
  {
    var c := CollapseOf(s, root);
    CollapseFromSelection(s, root, c, n, stale);
    CollapseFromClosed(s, root, c, n, stale);
    CollapseFromExpanded(s, root, c, n, stale);
    var w := CollapseFrom(s, root, c, n, stale);
    assert n in w.1;
    assert Closed(s, w.1, w.0.expanded);
  }

  /** Collapsing `n` takes exactly the collapsed keys out of the root's
      expanded set: `n`, last, and expanded directories below it, with no
      directory cached under any of them left expanded. */
  lemma CollapseWithExpanded(s: Store, root: string, n: string, stale: bool)
    requires TreeWf(s.childKeyMap)
    ensures var (r, ks) := CollapseWith(s, root, n, stale);
            ExpandedKeys(r, root) == ExpandedKeys(s, root) - ToSet(ks)
            && |ks| > 0 && ks[|ks| - 1] == n
            && (forall k :: k in ks ==> k == n || (Below(k, n) && IsExpanded(s, root, k)))
            && Closed(s, ks, ExpandedKeys(r, root))
  {
    CollapseFromExpanded(s, root, CollapseOf(s, root), n, stale);
    CollapseFromClosed(s, root, CollapseOf(s, root), n, stale);
  }

  /** The node remembers the expanded child directories it collapsed, and
      only when there was one; only the records of collapsed keys change. */
  lemma CollapseWithRecords(s: Store, root: string, n: string, stale: bool)
    requires TreeWf(s.childKeyMap)
    ensures var (r, ks) := CollapseWith(s, root, n, stale);
            var pe := PreviouslyExpanded(r, root);
            (n in pe <==> |ks| > 1)
            && (n in pe ==> forall x :: x in pe[n] ==> x in ChildKeys(s, n) && IsDirKey(x) && IsExpanded(s, root, x) && x in ks)
            && (forall k :: k !in ks ==> (k in pe <==> k in PreviouslyExpanded(s, root))
                                         && (k in pe ==> pe[k] == PreviouslyExpanded(s, root)[k]))
  {
    var c := CollapseOf(s, root);
    CollapseFromRecords(s, root, c, n, stale);
    var w := CollapseFrom(s, root, c, n, stale);
    assert n in w.1;
    assert n in w.0.records ==> forall x :: x in w.0.records[n] ==> DirChildOf(s, n, x);
  }

  /** A collapse keeps the store well formed. */
  lemma CollapseWithKeepsWf(s: Store, root: string, n: string, stale: bool)
    requires Wf(s)
    ensures Wf(CollapseWith(s, root, n, stale).0)
  {
    var c := CollapseOf(s, root);
    CollapseFromRecords(s, root, c, n, stale);
    CollapseFromSelectionShape(s, root, c, n, stale);
    var w := CollapseFrom(s, root, c, n, stale);
    RecordsMemoryWf(s, c.records, w.0.records, w.1);
    StoreCollapseKeepsWf(s, root, w.0);
  }

  lemma StoreCollapseKeepsWf(s: Store, root: string, c: Collapse)
    requires Wf(s) && (c.written ==> c.selection.Some?) && MemoryWf(c.records) && SelNoDup(c.selection)
    ensures Wf(StoreCollapse(s, root, c))
  {
    var r := StoreCollapse(s, root, c);
    forall q | q in r.previouslyExpanded
      ensures MemoryWf(r.previouslyExpanded[q])
    {
      assert PreviouslyExpanded(r, q) == r.previouslyExpanded[q];
      if q != root {
        assert PreviouslyExpanded(r, q) == PreviouslyExpanded(s, q);
      }
    }
  }

  /** Records that list cached children of their keys keep the memory well
      formed. */
  lemma RecordsMemoryWf(s: Store, before: map<string, seq<string>>, after: map<string, seq<string>>, ks: seq<string>)
    requires TreeWf(s.childKeyMap) && MemoryWf(before)
    requires RecordsKept(before, after, ks) && RecordsOfChildren(s, after, ks)
    ensures MemoryWf(after)
  {
    forall k, x | k in after && x in after[k]
      ensures |k| < |x|
    {
      if k in ks {
        assert DirChildOf(s, k, x);
      } else {
        assert k in before;
      }
    }
  }

  /** Every collapsed key loses its watcher unless another root shows it
      expanded, and is marked dirty unless its watcher stays; the watchers
      and dirty marks of all other keys are as they were. */
  lemma CollapseWithUnsubscribes(s: Store, root: string, n: string, stale: bool)
    requires TreeWf(s.childKeyMap)
    ensures var (r, ks) := CollapseWith(s, root, n, stale);
            (forall k :: k in ks ==>
               (k in r.subscriptions <==> k in s.subscriptions && HasOtherSubscriber(s, root, k))
               && (k in r.dirty <==> k in s.dirty || !(k in s.subscriptions && HasOtherSubscriber(s, root, k))))
            && (forall k :: k !in ks ==> (k in r.subscriptions <==> k in s.subscriptions) && (k in r.dirty <==> k in s.dirty))
  {
    CollapseFromUnsubscribes(s, root, CollapseOf(s, root), n, false);
    CollapseFromUnsubscribes(s, root, CollapseOf(s, root), n, true);
  }

  /** Unselecting from the current selection, no cached child of any
      collapsed key stays selected. */
  lemma CollapseNodeDeselects(s: Store, root: string, n: string)
    requires TreeWf(s.childKeyMap)
    ensures var ks := CollapseWith(s, root, n, false).1;
            forall k, x :: k in ks && x in ChildKeys(s, k) ==> !IsSelected(CollapseNode(s, root, n), root, x)
  {
    CollapseFromDeselects(s, root, CollapseOf(s, root), n);
    var w := CollapseFrom(s, root, CollapseOf(s, root), n, false);
    var r := CollapseNode(s, root, n);
    assert JsObject.Get(r.selectedKeysByRoot, root) == w.0.selection;
    forall k, x | k in w.1 && x in ChildKeys(s, k)
      ensures !IsSelected(r, root, x)
    {
      assert Lacks(w.0.selection, x);
    }
  }

  /** Root `/` with `/a/` expanded under it and `/a/`, `/a/x` and `/b`
      selected. */
  function SelectionExample(): (s: Store)
    ensures TreeWf(s.childKeyMap)
  {
    Defaults().(rootKeys := ["/"],
                childKeyMap := map["/" := ["/a/", "/b"], "/a/" := ["/a/x"]],
                expandedKeysByRoot := map["/" := {"/", "/a/"}],
                selectedKeysByRoot := [("/", ["/a/", "/a/x", "/b"])])
  }

  /** The source's stale copy of the selection puts a grandchild's
      unselection back: collapsing `/` in the example leaves `/a/x`, under the
      now collapsed `/a/`, selected. */
  lemma CollapseRestoresSelection()
    ensures IsSelected(CollapseNodeAsWritten(SelectionExample(), "/", "/"), "/", "/a/x")
  {
    var s := SelectionExample();
    var cs := ["/a/", "/b"];
    assert s.childKeyMap["/"] == cs;
    var c := CollapseOf(s, "/");
    assert c.selection == Some(["/a/", "/a/x", "/b"]);
    // `/a/` is dropped from the call's copy, then its walk drops `/a/x` ...
    var (c1, l1) := UnselectChild(c, c.selection, "/a/", true);
    assert "/a/x" in l1.value && "/b" in l1.value && "/a/" in c1.expanded;
    var c2 := CollapseFrom(s, "/", c1, "/a/", true).0;
    // ... and `/b` is dropped from the copy, which still holds `/a/x`
    var (c3, l3) := UnselectChild(c2, l1, "/b", true);
    assert "/a/x" in c3.selection.value;
    assert CollapseChildren(s, "/", c2, "/", cs, 1, l1, true).0 == c3;
    assert CollapseChildren(s, "/", c, "/", cs, 0, c.selection, true).0 == c3;
    assert CollapseFrom(s, "/", c, "/", true).0.selection == c3.selection;
  }

  /** Unselecting from the current selection, the same collapse leaves
      `/a/x` unselected. */
  lemma CollapseNodeKeepsUnselected()
    ensures !IsSelected(CollapseNode(SelectionExample(), "/", "/"), "/", "/a/x")
  {
    var s := SelectionExample();
    assert "/a/" in ChildKeys(s, "/") && "/a/x" in ChildKeys(s, "/a/");
    CollapseWithExpanded(s, "/", "/", false);
    CollapseNodeDeselects(s, "/", "/");
  }

  /** The loop records a child directory whenever one is still expanded. */
  lemma {:induction false} CollapseChildrenRecordsSome(s0: Store, root: string, c: Collapse, n: string, cs: seq<string>, i: nat,
                                                       local: Option<seq<string>>, stale: bool)
    requires ChildLoop(s0, n, cs, i)
    requires exists j :: i <= j < |cs| && IsDirKey(cs[j]) && cs[j] in c.expanded
    ensures CollapseChildren(s0, root, c, n, cs, i, local, stale).1 != []
    decreases |cs| - i
  {
    var x := cs[i];
    var (c1, local1) := UnselectChild(c, local, x, stale);
    if !(IsDirKey(x) && x in c1.expanded) {
      var j :| i <= j < |cs| && IsDirKey(cs[j]) && cs[j] in c.expanded;
      assert j != i;
      CollapseChildrenRecordsSome(s0, root, c1, n, cs, i + 1, local1, stale);
    }
  }

  /** The node gets a record exactly when one of its cached child
      directories was expanded. */
  lemma CollapseWithRemembers(s: Store, root: string, n: string, stale: bool)
    requires TreeWf(s.childKeyMap)
    ensures n in PreviouslyExpanded(CollapseWith(s, root, n, stale).0, root)
            <==> exists x :: x in ChildKeys(s, n) && IsDirKey(x) && IsExpanded(s, root, x)
  {
    CollapseWithRecords(s, root, n, stale);
    var c := CollapseOf(s, root);
    var pe := PreviouslyExpanded(CollapseWith(s, root, n, stale).0, root);
    if n in pe {
      assert |pe[n]| > 0 by {
        CollapseChildrenRecords(s, root, c, n, s.childKeyMap[n], 0, c.selection, stale);
      }
      var x := pe[n][0];
      assert x in ChildKeys(s, n) && IsDirKey(x) && IsExpanded(s, root, x);
    }
    if exists x :: x in ChildKeys(s, n) && IsDirKey(x) && IsExpanded(s, root, x) {
      var x :| x in ChildKeys(s, n) && IsDirKey(x) && IsExpanded(s, root, x);
      var cs := s.childKeyMap[n];
      var j :| 0 <= j < |cs| && cs[j] == x;
      CollapseChildrenRecordsSome(s, root, c, n, cs, 0, c.selection, stale);
      CollapseChildrenRecords(s, root, c, n, cs, 0, c.selection, stale);
      CollapseFromExpanded(s, root, c, n, stale);
    }
  }

  /** Expanding a collapsed node again expands it and every child directory
      the collapse remembered for it (exactly those that were expanded), and
      consumes the record. */
  lemma CollapseExpandRoundTrip(s: Store, root: string, n: string)
    requires TreeWf(s.childKeyMap) && MemoryWf(PreviouslyExpanded(s, root))
    ensures MemoryWf(PreviouslyExpanded(CollapseNode(s, root, n), root))
    ensures var r1 := CollapseNode(s, root, n);
            var r2 := ExpandNode(r1, root, n);
            IsExpanded(r2, root, n) && n !in PreviouslyExpanded(r2, root)
            && ExpandedKeys(r1, root) <= ExpandedKeys(r2, root)
            && (n in PreviouslyExpanded(r1, root) <==> exists x :: x in ChildKeys(s, n) && IsDirKey(x) && IsExpanded(s, root, x))
            && (n in PreviouslyExpanded(r1, root) ==>
                  forall x :: x in PreviouslyExpanded(r1, root)[n] ==>
                    IsExpanded(r2, root, x) && x in ChildKeys(s, n) && IsDirKey(x) && IsExpanded(s, root, x))
  {
    var c := CollapseOf(s, root);
    CollapseFromRecords(s, root, c, n, false);
    var w := CollapseFrom(s, root, c, n, false);
    RecordsMemoryWf(s, c.records, w.0.records, w.1);
    CollapseWithRecords(s, root, n, false);
    CollapseWithRemembers(s, root, n, false);
  }

  // ----------------------------------------------------------------- purging

  /** `_purgeNode(rootKey, k, unselect)` on the collapse state: `k` leaves
      the expanded set and the records, and with `unselect` the current
      selection. */
  function PurgeNode(c: Collapse, k: string, unselect: bool): (r: Collapse)
    ensures r.expanded == c.expanded - {k} && r.records == c.records - {k}
    ensures unselect ==> Lacks(r.selection, k)
    ensures SubSel(r.selection, c.selection) && (r.selection.Some? <==> c.selection.Some?)
    ensures forall q :: q != k && c.selection.Some? && q in c.selection.value ==> q in r.selection.value
    ensures r == c.(expanded := r.expanded, records := r.records, selection := r.selection, written := r.written)
  {
    var c1 := if unselect then UnselectChild(c, c.selection, k, false).0 else c;
    c1.(expanded := c1.expanded - {k}, records := c1.records - {k})
  }

  /** `_purgeDirectoryWithinARoot(rootKey, n, unselect)`: the cached child
      directories are purged first, always unselecting them, then `n` loses
      its watcher and is purged. Returns the state and the purged keys, each
      after the keys purged below it. */
  function PurgeFrom(s0: Store, root: string, c: Collapse, n: string, unselect: bool): (r: (Collapse, seq<string>))
    requires TreeWf(s0.childKeyMap)
    decreases |KeysFrom(s0.childKeyMap, |n|)|, 1, 0
  {
    var (c1, purged) :=
      if n in s0.childKeyMap then PurgeChildren(s0, root, c, n, s0.childKeyMap[n], 0) else (c, []);
    (PurgeNode(Unsubscribe(c1, HasOtherSubscriber(s0, root, n), n), n, unselect), purged + [n])
  }

  /** The loop of `_purgeDirectoryWithinARoot` over `cs[i..]`, the children
      of `n`. */
  function PurgeChildren(s0: Store, root: string, c: Collapse, n: string, cs: seq<string>, i: nat): (r: (Collapse, seq<string>))
    requires ChildLoop(s0, n, cs, i)
    decreases |KeysFrom(s0.childKeyMap, |n|)|, 0, |cs| - i
  {
    if i == |cs| then (c, [])
    else if IsDirKey(cs[i]) then
      KeysFromShrinks(s0.childKeyMap, n, cs[i]);
      var (c1, sub) := PurgeFrom(s0, root, c, cs[i], true);
      var (c2, rest) := PurgeChildren(s0, root, c1, n, cs, i + 1);
      (c2, sub + rest)
    else PurgeChildren(s0, root, c, n, cs, i + 1)
  }

  /** Every cached child directory of a key in `ks` is in `ks`. */
  ghost predicate DirClosed(s0: Store, ks: seq<string>) {
    forall k, x :: k in ks && DirChildOf(s0, k, x) ==> x in ks
  }

  /** Purging `n` takes exactly the purged keys out of the expanded set and
      the records: `n`, last, and every directory cached below it. */
  lemma {:induction false} PurgeFromPurges(s0: Store, root: string, c: Collapse, n: string, unselect: bool)
    requires TreeWf(s0.childKeyMap)
    ensures var r := PurgeFrom(s0, root, c, n, unselect);
            r.0.expanded == c.expanded - ToSet(r.1) && r.0.records == c.records - ToSet(r.1)
            && |r.1| > 0 && r.1[|r.1| - 1] == n
            && (forall k :: k in r.1 ==> k == n || Below(k, n))
            && DirClosed(s0, r.1)
    decreases |KeysFrom(s0.childKeyMap, |n|)|, 1, 0
  {
    if n in s0.childKeyMap {
      PurgeChildrenPurges(s0, root, c, n, s0.childKeyMap[n], 0);
    }
    var r := PurgeFrom(s0, root, c, n, unselect);
    var (c1, purged) :=
      if n in s0.childKeyMap then PurgeChildren(s0, root, c, n, s0.childKeyMap[n], 0) else (c, []);
    assert ToSet(r.1) == ToSet(purged) + {n};
    forall k, x | k in r.1 && DirChildOf(s0, k, x)
      ensures x in r.1
    {
      if k == n {
        assert x in s0.childKeyMap[n];
      }
    }
  }

  lemma {:induction false} PurgeChildrenPurges(s0: Store, root: string, c: Collapse, n: string, cs: seq<string>, i: nat)
    requires ChildLoop(s0, n, cs, i)
    ensures var r := PurgeChildren(s0, root, c, n, cs, i);
            r.0.expanded == c.expanded - ToSet(r.1) && r.0.records == c.records - ToSet(r.1)
            && (forall k :: k in r.1 ==> Below(k, n))
            && (forall j :: i <= j < |cs| && IsDirKey(cs[j]) ==> cs[j] in r.1)
            && (forall k, x :: k in r.1 && k != n && DirChildOf(s0, k, x) ==> x in r.1)
    decreases |KeysFrom(s0.childKeyMap, |n|)|, 0, |cs| - i
  {
    if i < |cs| {
      var x := cs[i];
      if IsDirKey(x) {
        KeysFromShrinks(s0.childKeyMap, n, x);
        PurgeFromPurges(s0, root, c, x, true);
        var (c1, sub) := PurgeFrom(s0, root, c, x, true);
        PurgeChildrenPurges(s0, root, c1, n, cs, i + 1);
        var (c2, rest) := PurgeChildren(s0, root, c1, n, cs, i + 1);
        PurgeDirStep(s0, n, cs, i, c, c1, c2, sub, rest);
      } else {
        PurgeChildrenPurges(s0, root, c, n, cs, i + 1);
      }
    }
  }

  /** One directory child `cs[i]` of the purge loop: what purging it did and
      what the rest of the loop did combine into the loop's contract. */
  lemma PurgeDirStep(s0: Store, n: string, cs: seq<string>, i: nat, c: Collapse, c1: Collapse, c2: Collapse,
                     sub: seq<string>, rest: seq<string>)
    requires ChildLoop(s0, n, cs, i) && i < |cs| && IsDirKey(cs[i])
    requires c1.expanded == c.expanded - ToSet(sub) && c1.records == c.records - ToSet(sub)
    requires |sub| > 0 && sub[|sub| - 1] == cs[i]
    requires forall k :: k in sub ==> k == cs[i] || Below(k, cs[i])
    requires DirClosed(s0, sub)
    requires c2.expanded == c1.expanded - ToSet(rest) && c2.records == c1.records - ToSet(rest)
    requires forall k :: k in rest ==> Below(k, n)
    requires forall j :: i + 1 <= j < |cs| && IsDirKey(cs[j]) ==> cs[j] in rest
    requires forall k, x :: k in rest && k != n && DirChildOf(s0, k, x) ==> x in rest
    ensures c2.expanded == c.expanded - ToSet(sub + rest) && c2.records == c.records - ToSet(sub + rest)
    ensures forall k :: k in sub + rest ==> Below(k, n)
    ensures forall j :: i <= j < |cs| && IsDirKey(cs[j]) ==> cs[j] in sub + rest
    ensures forall k, x :: k in sub + rest && k != n && DirChildOf(s0, k, x) ==> x in sub + rest
  {
    var x := cs[i];
    assert ToSet(sub + rest) == ToSet(sub) + ToSet(rest);
    assert x in sub;
    forall k | k in sub
      ensures Below(k, n)
    {
      if k != x {
        PrefixOfPrefix(k, x, n);
      }
    }
  }

  /** Every key of `ks` is unselected in `sel`. */
  predicate AllLack(sel: Option<seq<string>>, ks: seq<string>) {
    forall k :: k in ks ==> Lacks(sel, k)
  }

  /** Every key selected in `before` and not in `ks` is selected in `after`. */
  ghost predicate SelKept(before: Option<seq<string>>, after: Option<seq<string>>, ks: seq<string>) {
    forall q :: q !in ks && before.Some? && q in before.value ==> after.Some? && q in after.value
  }

  /** Purging unselects exactly the purged keys, except `n` itself when
      `unselect` is off. */
  lemma {:induction false} PurgeFromUnselects(s0: Store, root: string, c: Collapse, n: string, unselect: bool)
    requires TreeWf(s0.childKeyMap)
    ensures var r := PurgeFrom(s0, root, c, n, unselect);
            SubSel(r.0.selection, c.selection)
            && AllLack(r.0.selection, if unselect then r.1 else r.1[..|r.1| - 1])
            && SelKept(c.selection, r.0.selection, r.1)
    decreases |KeysFrom(s0.childKeyMap, |n|)|, 1, 0
  {
    var (c1, purged) :=
      if n in s0.childKeyMap then PurgeChildren(s0, root, c, n, s0.childKeyMap[n], 0) else (c, []);
    if n in s0.childKeyMap {
      PurgeChildrenUnselects(s0, root, c, n, s0.childKeyMap[n], 0);
    }
    var r := PurgeFrom(s0, root, c, n, unselect);
    assert r.1 == purged + [n] && r.1[..|r.1| - 1] == purged;
    assert SubSel(r.0.selection, c1.selection);
    SubSelTrans(r.0.selection, c1.selection, c.selection);
    forall k | k in purged
      ensures Lacks(r.0.selection, k)
    {
      LacksSub(r.0.selection, c1.selection, k);
    }
  }

  lemma {:induction false} PurgeChildrenUnselects(s0: Store, root: string, c: Collapse, n: string, cs: seq<string>, i: nat)
    requires ChildLoop(s0, n, cs, i)
    ensures var r := PurgeChildren(s0, root, c, n, cs, i);
            SubSel(r.0.selection, c.selection) && AllLack(r.0.selection, r.1) && SelKept(c.selection, r.0.selection, r.1)
    decreases |KeysFrom(s0.childKeyMap, |n|)|, 0, |cs| - i
  {
    if i < |cs| {
      var x := cs[i];
      if IsDirKey(x) {
        KeysFromShrinks(s0.childKeyMap, n, x);
        PurgeFromUnselects(s0, root, c, x, true);
        var (c1, sub) := PurgeFrom(s0, root, c, x, true);
        PurgeChildrenUnselects(s0, root, c1, n, cs, i + 1);
        var (c2, rest) := PurgeChildren(s0, root, c1, n, cs, i + 1);
        SubSelTrans(c2.selection, c1.selection, c.selection);
        forall k | k in sub
          ensures Lacks(c2.selection, k)
        {
          LacksSub(c2.selection, c1.selection, k);
        }
      } else {
        PurgeChildrenUnselects(s0, root, c, n, cs, i + 1);
      }
    }
  }

  /** The selection is written only when there is one, and is as it was
      unless written. */
  lemma {:induction false} PurgeFromSelectionShape(s0: Store, root: string, c: Collapse, n: string, unselect: bool)
    requires TreeWf(s0.childKeyMap)
    ensures var r := PurgeFrom(s0, root, c, n, unselect);
            (SelNoDup(c.selection) ==> SelNoDup(r.0.selection))
            && (c.selection.Some? ==> r.0.selection.Some?)
            && (r.0.written ==> c.written || r.0.selection.Some?)
            && (!r.0.written ==> !c.written && r.0.selection == c.selection)
    decreases |KeysFrom(s0.childKeyMap, |n|)|, 1, 0
  {
    if n in s0.childKeyMap {
      PurgeChildrenSelectionShape(s0, root, c, n, s0.childKeyMap[n], 0);
    }
  }

  lemma {:induction false} PurgeChildrenSelectionShape(s0: Store, root: string, c: Collapse, n: string, cs: seq<string>, i: nat)
    requires ChildLoop(s0, n, cs, i)
    ensures var r := PurgeChildren(s0, root, c, n, cs, i);
            (SelNoDup(c.selection) ==> SelNoDup(r.0.selection))
            && (c.selection.Some? ==> r.0.selection.Some?)
            && (r.0.written ==> c.written || r.0.selection.Some?)
            && (!r.0.written ==> !c.written && r.0.selection == c.selection)
    decreases |KeysFrom(s0.childKeyMap, |n|)|, 0, |cs| - i
  {
    if i < |cs| {
      var x := cs[i];
      if IsDirKey(x) {
        KeysFromShrinks(s0.childKeyMap, n, x);
        PurgeFromSelectionShape(s0, root, c, x, true);
        var (c1, sub) := PurgeFrom(s0, root, c, x, true);
        PurgeChildrenSelectionShape(s0, root, c1, n, cs, i + 1);
        assert PurgeChildren(s0, root, c, n, cs, i).0 == PurgeChildren(s0, root, c1, n, cs, i + 1).0;
      } else {
        PurgeChildrenSelectionShape(s0, root, c, n, cs, i + 1);
      }
    }
  }

  /** Each purged key loses its watcher unless another root shows it
      expanded; no other key's watcher changes. */
  lemma {:induction false} PurgeFromUnsubscribes(s0: Store, root: string, c: Collapse, n: string, unselect: bool)
    requires TreeWf(s0.childKeyMap)
    ensures var r := PurgeFrom(s0, root, c, n, unselect);
            Unsubscribed(s0, root, c, r.0, r.1)
    decreases |KeysFrom(s0.childKeyMap, |n|)|, 1, 0
  {
    var (c1, purged) :=
      if n in s0.childKeyMap then PurgeChildren(s0, root, c, n, s0.childKeyMap[n], 0) else (c, []);
    if n in s0.childKeyMap {
      PurgeChildrenUnsubscribes(s0, root, c, n, s0.childKeyMap[n], 0);
    }
    var r := PurgeFrom(s0, root, c, n, unselect);
    assert r.0.subscriptions == Unsubscribe(c1, HasOtherSubscriber(s0, root, n), n).subscriptions;
    assert r.0.dirty == Unsubscribe(c1, HasOtherSubscriber(s0, root, n), n).dirty;
    assert Unsubscribed(s0, root, c1, r.0, [n]);
    UnsubscribedJoin(s0, root, c, c1, r.0, purged, [n]);
  }

  lemma {:induction false} PurgeChildrenUnsubscribes(s0: Store, root: string, c: Collapse, n: string, cs: seq<string>, i: nat)
    requires ChildLoop(s0, n, cs, i)
    ensures var r := PurgeChildren(s0, root, c, n, cs, i);
            Unsubscribed(s0, root, c, r.0, r.1)
    decreases |KeysFrom(s0.childKeyMap, |n|)|, 0, |cs| - i
  {
    if i < |cs| {
      var x := cs[i];
      if IsDirKey(x) {
        KeysFromShrinks(s0.childKeyMap, n, x);
        PurgeFromUnsubscribes(s0, root, c, x, true);
        var (c1, sub) := PurgeFrom(s0, root, c, x, true);
        PurgeChildrenUnsubscribes(s0, root, c1, n, cs, i + 1);
        var (c2, rest) := PurgeChildren(s0, root, c1, n, cs, i + 1);
        UnsubscribedJoin(s0, root, c, c1, c2, sub, rest);
      } else {
        PurgeChildrenUnsubscribes(s0, root, c, n, cs, i + 1);
      }
    }
  }

  /** `_purgeDirectoryWithinARoot(root, n, unselect)` on the store; also
      returns the purged keys. */
  function PurgeWith(s: Store, root: string, n: string, unselect: bool): (r: (Store, seq<string>))
    requires TreeWf(s.childKeyMap)
    ensures var w := PurgeFrom(s, root, CollapseOf(s, root), n, unselect);
            r.1 == w.1 && ExpandedKeys(r.0, root) == w.0.expanded && PreviouslyExpanded(r.0, root) == w.0.records
            && JsObject.Get(r.0.selectedKeysByRoot, root) == w.0.selection
            && r.0.subscriptions == w.0.subscriptions && r.0.dirty == w.0.dirty
  {
    var c := CollapseOf(s, root);
    PurgeFromSelectionShape(s, root, c, n, unselect);
    var w := PurgeFrom(s, root, c, n, unselect);
    (StoreCollapse(s, root, w.0), w.1)
  }

  /** `_purgeDirectoryWithinARoot`, the deep collapse: the node and its
      cached child directories leave the root's expanded set and records, the
      child directories are unselected (the node too with `unselect`), nothing
      becomes expanded or selected, and the other roots, the cached children
      and the roots are untouched. */
  function PurgeDirectoryWithinARoot(s: Store, root: string, n: string, unselect: bool): (r: Store)
    requires TreeWf(s.childKeyMap)
    ensures !IsExpanded(r, root, n) && ExpandedKeys(r, root) <= ExpandedKeys(s, root) && n !in PreviouslyExpanded(r, root)
    ensures unselect ==> !IsSelected(r, root, n)
    ensures forall x :: DirChildOf(s, n, x) ==>
              !IsExpanded(r, root, x) && !IsSelected(r, root, x) && x !in PreviouslyExpanded(r, root)
    ensures forall k :: IsSelected(r, root, k) ==> IsSelected(s, root, k)
    ensures forall q :: q != root ==> ExpansionOf(r, q) == ExpansionOf(s, q) && SelectedKeys(r, q) == SelectedKeys(s, q)
    ensures r.childKeyMap == s.childKeyMap && r.rootKeys == s.rootKeys
  {
    var c := CollapseOf(s, root);
    PurgeFromPurges(s, root, c, n, unselect);
    PurgeFromUnselects(s, root, c, n, unselect);
    var w := PurgeFrom(s, root, c, n, unselect);
    assert n in w.1;
    forall x | DirChildOf(s, n, x)
      ensures x in w.1[..|w.1| - 1]
    {
      assert x in w.1 && x != n;
    }
    PurgeWith(s, root, n, unselect).0
  }

  /** The purged keys are the node, last, and directories cached below it,
      closed under cached child directories; exactly they leave the root's
      expanded set and records. */
  lemma PurgeWithPurges(s: Store, root: string, n: string, unselect: bool)
    requires TreeWf(s.childKeyMap)
    ensures var (r, ks) := PurgeWith(s, root, n, unselect);
            ExpandedKeys(r, root) == ExpandedKeys(s, root) - ToSet(ks)
            && PreviouslyExpanded(r, root) == PreviouslyExpanded(s, root) - ToSet(ks)
            && |ks| > 0 && ks[|ks| - 1] == n
            && (forall k :: k in ks ==> k == n || Below(k, n))
            && DirClosed(s, ks)
  {
    PurgeFromPurges(s, root, CollapseOf(s, root), n, unselect);
  }

  /** Exactly the purged keys are unselected, except the node itself without
      `unselect`. */
  lemma PurgeWithUnselects(s: Store, root: string, n: string, unselect: bool)
    requires TreeWf(s.childKeyMap)
    ensures var (r, ks) := PurgeWith(s, root, n, unselect);
            (forall k :: k in ks && (k != n || unselect) ==> !IsSelected(r, root, k))
            && (forall q :: q !in ks ==> (IsSelected(r, root, q) <==> IsSelected(s, root, q)))
  {
    var c := CollapseOf(s, root);
    PurgeFromUnselects(s, root, c, n, unselect);
    PurgeFromPurges(s, root, c, n, unselect);
    var w := PurgeFrom(s, root, c, n, unselect);
    forall k | k in w.1 && (k != n || unselect)
      ensures Lacks(w.0.selection, k)
    {
      if k != n {
        var j :| 0 <= j < |w.1| && w.1[j] == k;
        assert j < |w.1| - 1;
        assert k in w.1[..|w.1| - 1];
      }
    }
  }

  /** Each purged key loses its watcher unless another root shows it
      expanded, and is marked dirty unless its watcher stays; no other key's
      watcher changes. */
  lemma PurgeWithUnsubscribes(s: Store, root: string, n: string, unselect: bool)
    requires TreeWf(s.childKeyMap)
    ensures var (r, ks) := PurgeWith(s, root, n, unselect);
            (forall k :: k in ks ==>
               (k in r.subscriptions <==> k in s.subscriptions && HasOtherSubscriber(s, root, k))
               && (k in r.dirty <==> k in s.dirty || !(k in s.subscriptions && HasOtherSubscriber(s, root, k))))
            && (forall k :: k !in ks ==> (k in r.subscriptions <==> k in s.subscriptions) && (k in r.dirty <==> k in s.dirty))
  {
    PurgeFromUnsubscribes(s, root, CollapseOf(s, root), n, unselect);
  }

  /** A deep collapse keeps the store well formed. */
  lemma PurgeWithKeepsWf(s: Store, root: string, n: string, unselect: bool)
    requires Wf(s)
    ensures Wf(PurgeWith(s, root, n, unselect).0)
  {
    var c := CollapseOf(s, root);
    PurgeFromPurges(s, root, c, n, unselect);
    PurgeFromSelectionShape(s, root, c, n, unselect);
    assert SelNoDup(c.selection);
    StoreCollapseKeepsWf(s, root, PurgeFrom(s, root, c, n, unselect).0);
  }
}
