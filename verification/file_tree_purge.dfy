/** Forgetting directories that went away from disk
    (pkg/nuclide-file-tree/lib/FileTreeStore.js): `_setChildKeys`, which
    replaces a cached child list and purges the child directories that left
    it, and `_purgeDirectory`, which purges a directory and, first, the cached
    child directories below it, in every root.

    A purge reads the root list and writes six parts of the store; those seven
    fields are lifted into a `Cache`, the walk runs on it, and the result is
    written back. */
module FileTreePurge {
  import opened Wrappers
  import opened Seqs
  import opened Text
  import JsObject
  import opened Paths
  import opened FileTreeStore
  import opened FileTreeCollapse

  /** The parts of the store a purge reads or writes. */
  datatype Cache = Cache(
    childKeyMap: map<string, seq<string>>,
    subscriptions: set<string>,
    expanded: map<string, set<string>>,
    records: map<string, map<string, seq<string>>>,
    selection: JsObject.Obj<seq<string>>,
    trackedNode: Option<NodeRef>,
    roots: seq<string>)

  function CacheOf(s: Store): Cache {
    Cache(s.childKeyMap, s.subscriptions, s.expandedKeysByRoot, s.previouslyExpanded,
          s.selectedKeysByRoot, s.trackedNode, s.rootKeys)
  }

  function WithCache(s: Store, c: Cache): Store {
    s.(childKeyMap := c.childKeyMap, subscriptions := c.subscriptions, expandedKeysByRoot := c.expanded,
       previouslyExpanded := c.records, selectedKeysByRoot := c.selection, trackedNode := c.trackedNode,
       rootKeys := c.roots)
  }

  /** The expanded set of root `q` (`_getExpandedKeys`). */
  function Exp(c: Cache, q: string): set<string> {
    if q in c.expanded then c.expanded[q] else {}
  }

  /** The remembered expansions of root `q` (`_getPreviouslyExpanded`). */
  function Rec(c: Cache, q: string): map<string, seq<string>> {
    if q in c.records then c.records[q] else map[]
  }

  function Sel(c: Cache, q: string): Option<seq<string>> {
    JsObject.Get(c.selection, q)
  }

  /** Root `q` selects `x`. */
  predicate Selects(c: Cache, q: string, x: string) {
    Sel(c, q).Some? && x in Sel(c, q).value
  }

  /** Every entry of `a` is an entry of `b`: `a` is `b` with entries deleted. */
  predicate SubMap(a: map<string, seq<string>>, b: map<string, seq<string>>) {
    forall k :: k in a ==> k in b && a[k] == b[k]
  }

  /** Deleting entries keeps every cached child longer than its parent. */
  lemma SubMapTreeWf(a: map<string, seq<string>>, b: map<string, seq<string>>)
    requires SubMap(a, b) && TreeWf(b)
    ensures TreeWf(a)
  {
  }

  lemma SubMapTrans(a: map<string, seq<string>>, b: map<string, seq<string>>, m: map<string, seq<string>>)
    requires SubMap(a, b) && SubMap(b, m)
    ensures SubMap(a, m)
  {
  }

  // ------------------------------------------------------ what purging means

  /** In root `q`, the keys `p` left the expanded set, the records and the
      selection, and nothing else did. */
  ghost predicate RootPurged(c: Cache, r: Cache, q: string, p: set<string>) {
    Exp(r, q) == Exp(c, q) - p
    && Rec(r, q) == Rec(c, q) - p
    && (forall x :: Selects(r, q, x) <==> Selects(c, q, x) && x !in p)
  }

  /** Root `q` is as it was. */
  predicate RootKept(c: Cache, r: Cache, q: string) {
    Exp(r, q) == Exp(c, q) && Rec(r, q) == Rec(c, q) && Sel(r, q) == Sel(c, q)
  }

  /** `r` is `c` with the directories `p` purged: their cached child lists
      and watchers are gone and every root forgot them; nothing else changed,
      except that a new selection stops the tracking of a node. */
  ghost predicate PurgedIn(c: Cache, r: Cache, p: set<string>) {
    r.roots == c.roots
    && SubMap(r.childKeyMap, c.childKeyMap)
    && (forall k :: k in r.childKeyMap <==> k in c.childKeyMap && k !in p)
    && r.subscriptions == c.subscriptions - p
    && (forall q :: q in c.roots ==> RootPurged(c, r, q, p))
    && (forall q :: q !in c.roots ==> RootKept(c, r, q))
    && (r.trackedNode == c.trackedNode || r.trackedNode.None?)
    && (SelectionWf(c.selection) ==> SelectionWf(r.selection))
  }

  /** Key `x` is nowhere in `r`: no cached child list, no watcher, and no root
      has it expanded, remembered or selected. */
  ghost predicate Forgotten(r: Cache, x: string) {
    x !in r.childKeyMap && x !in r.subscriptions
    && forall q :: q in r.roots ==> x !in Exp(r, q) && x !in Rec(r, q) && !Selects(r, q, x)
  }

  /** Every root has `x` expanded, remembered and selected in `r` just as in
      `c`. */
  ghost predicate KeptInRoots(c: Cache, r: Cache, x: string) {
    forall q ::
      (x in Exp(r, q) <==> x in Exp(c, q))
      && (x in Rec(r, q) <==> x in Rec(c, q))
      && (x in Rec(r, q) ==> Rec(r, q)[x] == Rec(c, q)[x])
      && (Selects(r, q, x) <==> Selects(c, q, x))
  }

  /** Key `x` is in `r` just as it was in `c`. */
  ghost predicate Kept(c: Cache, r: Cache, x: string) {
    (x in r.childKeyMap <==> x in c.childKeyMap)
    && (x in r.childKeyMap ==> r.childKeyMap[x] == c.childKeyMap[x])
    && (x in r.subscriptions <==> x in c.subscriptions)
    && KeptInRoots(c, r, x)
  }

  /** A purge of `p` forgets every key of `p`. */
  lemma PurgedForgets(c: Cache, r: Cache, p: set<string>)
    requires PurgedIn(c, r, p)
    ensures forall x :: x in p ==> Forgotten(r, x)
  {
    forall x | x in p ensures Forgotten(r, x) {
      forall q | q in r.roots ensures x !in Exp(r, q) && x !in Rec(r, q) && !Selects(r, q, x) {
        assert RootPurged(c, r, q, p);
      }
    }
  }

  /** A purge of `p` keeps every key outside `p`. */
  lemma PurgedKeeps(c: Cache, r: Cache, p: set<string>)
    requires PurgedIn(c, r, p)
    ensures forall x :: x !in p ==> Kept(c, r, x)
  {
    forall x | x !in p ensures Kept(c, r, x) {
      forall q ensures (x in Exp(r, q) <==> x in Exp(c, q)) && (x in Rec(r, q) <==> x in Rec(c, q))
                       && (x in Rec(r, q) ==> Rec(r, q)[x] == Rec(c, q)[x]) && (Selects(r, q, x) <==> Selects(c, q, x)) {
        if q in c.roots {
          assert RootPurged(c, r, q, p);
        } else {
          assert RootKept(c, r, q);
        }
      }
    }
  }

  lemma RootPurgedTrans(c: Cache, t: Cache, r: Cache, q: string, p: set<string>, p': set<string>)
    requires RootPurged(c, t, q, p) && RootPurged(t, r, q, p')
    ensures RootPurged(c, r, q, p + p')
  {
    assert Exp(r, q) == Exp(c, q) - (p + p');
    assert Rec(r, q) == Rec(c, q) - (p + p');
  }

  /** Purging `p` and then `p'` purges both. */
  lemma PurgedTrans(c: Cache, t: Cache, r: Cache, p: set<string>, p': set<string>)
    requires PurgedIn(c, t, p) && PurgedIn(t, r, p')
    ensures PurgedIn(c, r, p + p')
  {
    forall q | q in c.roots ensures RootPurged(c, r, q, p + p') {
      RootPurgedTrans(c, t, r, q, p, p');
    }
    assert r.subscriptions == c.subscriptions - (p + p');
  }

  lemma PurgedNothing(c: Cache)
    ensures PurgedIn(c, c, {})
  {
    forall q ensures RootPurged(c, c, q, {}) {
      assert Exp(c, q) - {} == Exp(c, q);
      assert Rec(c, q) - {} == Rec(c, q);
    }
    assert c.subscriptions - {} == c.subscriptions;
  }

  // ------------------------------------------------------------ one node

  /** `_purgeNode(root, k, true)`: `k` leaves the root's expanded set, its
      selection and its records, each written only when it held `k`. */
  function PurgeNodeIn(c: Cache, root: string, k: string): (r: Cache)
    ensures RootPurged(c, r, root, {k})
    ensures forall q :: q != root ==> RootKept(c, r, q)
    ensures r == c.(expanded := r.expanded, records := r.records, selection := r.selection, trackedNode := r.trackedNode)
    ensures r.trackedNode == c.trackedNode || r.trackedNode.None?
    ensures SelectionWf(c.selection) ==> SelectionWf(r.selection)
  {
    var c1 := UnexpandKey(c, root, k);
    var c2 := UnselectKey(c1, root, k);
    var r := ForgetRecord(c2, root, k);
    PurgeNodeSteps(c, c1, c2, r, root, k);
    r
  }

  /** The three steps of `_purgeNode` together. */
  lemma PurgeNodeSteps(c: Cache, c1: Cache, c2: Cache, r: Cache, root: string, k: string)
    requires Exp(c1, root) == Exp(c, root) - {k} && forall q :: q != root ==> Exp(c1, q) == Exp(c, q)
    requires c1 == c.(expanded := c1.expanded)
    requires forall x :: Selects(c2, root, x) <==> Selects(c1, root, x) && x != k
    requires forall q :: q != root ==> Sel(c2, q) == Sel(c1, q)
    requires c2 == c1.(selection := c2.selection, trackedNode := c2.trackedNode)
    requires Rec(r, root) == Rec(c2, root) - {k} && forall q :: q != root ==> Rec(r, q) == Rec(c2, q)
    requires r == c2.(records := r.records)
    ensures RootPurged(c, r, root, {k})
    ensures forall q :: q != root ==> RootKept(c, r, q)
  {
    assert r.expanded == c2.expanded == c1.expanded;
    assert r.selection == c2.selection && c1.selection == c.selection;
    assert c2.records == c1.records == c.records;
    assert Exp(r, root) == Exp(c1, root);
    assert Rec(r, root) == Rec(c, root) - {k};
    forall x ensures Selects(r, root, x) <==> Selects(c, root, x) && x != k {
      assert Selects(r, root, x) == Selects(c2, root, x);
      assert Selects(c1, root, x) == Selects(c, root, x);
    }
    forall q | q != root ensures RootKept(c, r, q) {
      assert Exp(c1, q) == Exp(c, q) && Sel(c2, q) == Sel(c1, q) && Rec(r, q) == Rec(c2, q);
    }
  }

  /** The expanded-set step of `_purgeNode`. */
  function UnexpandKey(c: Cache, root: string, k: string): (r: Cache)
    ensures Exp(r, root) == Exp(c, root) - {k}
    ensures forall q :: q != root ==> Exp(r, q) == Exp(c, q)
    ensures r == c.(expanded := r.expanded)
  {
    var e := Exp(c, root);
    if k in e then c.(expanded := c.expanded[root := e - {k}])
    else
      MinusAbsent(e, k);
      c
  }

  /** The selection step of `_purgeNode` with `unselect`; a new selection
      stops the tracking of a node. */
  function UnselectKey(c: Cache, root: string, k: string): (r: Cache)
    ensures forall x :: Selects(r, root, x) <==> Selects(c, root, x) && x != k
    ensures forall q :: q != root ==> Sel(r, q) == Sel(c, q)
    ensures r == c.(selection := r.selection, trackedNode := r.trackedNode)
    ensures r.trackedNode == c.trackedNode || r.trackedNode.None?
    ensures SelectionWf(c.selection) ==> SelectionWf(r.selection)
  {
    var sel := Sel(c, root);
    if sel.Some? && k in sel.value then
      SelectionEntryNoDup(c.selection, root, k);
      c.(selection := JsObject.SetProperty(c.selection, root, Remove(sel.value, k)), trackedNode := None)
    else c
  }

  /** The records step of `_purgeNode`. */
  function ForgetRecord(c: Cache, root: string, k: string): (r: Cache)
    ensures Rec(r, root) == Rec(c, root) - {k}
    ensures forall q :: q != root ==> Rec(r, q) == Rec(c, q)
    ensures r == c.(records := r.records)
  {
    var pe := Rec(c, root);
    if k in pe then c.(records := c.records[root := pe - {k}])
    else
      MapMinusAbsent(pe, k);
      c
  }

  lemma MinusAbsent(e: set<string>, k: string)
    requires k !in e
    ensures e - {k} == e
  {
    assert forall x :: x in e - {k} <==> x in e;
  }

  lemma MapMinusAbsent(m: map<string, seq<string>>, k: string)
    requires k !in m
    ensures m - {k} == m
  {
    assert (m - {k}).Keys == m.Keys;
  }

  /** An entry of a well-formed selection holds no key twice, and neither
      does that entry with a key removed. */
  lemma SelectionEntryNoDup(sel: JsObject.Obj<seq<string>>, q: string, k: string)
    requires JsObject.Get(sel, q).Some?
    ensures SelectionWf(sel) ==> SelectionWf(JsObject.SetProperty(sel, q, Remove(JsObject.Get(sel, q).value, k)))
  {
    if SelectionWf(sel) {
      var v := JsObject.Get(sel, q).value;
      var i :| 0 <= i < |sel| && sel[i] == (q, v);
      assert NoDup(sel[i].1);
      SetPropertyKeepsSelectionWf(sel, q, Remove(v, k));
    }
  }

  /** `getRootKeys().forEach(root => _purgeNode(root, k, true))`. */
  function PurgeNodeInRoots(c: Cache, roots: seq<string>, k: string): (r: Cache)
    ensures r == c.(expanded := r.expanded, records := r.records, selection := r.selection, trackedNode := r.trackedNode)
    ensures r.trackedNode == c.trackedNode || r.trackedNode.None?
    decreases |roots|
  {
    if |roots| == 0 then c else PurgeNodeInRoots(PurgeNodeIn(c, roots[0], k), roots[1..], k)
  }

  /** Each listed root forgets `k`, and every other root is untouched. */
  lemma {:induction false} PurgeNodeInRootsPurges(c: Cache, roots: seq<string>, k: string)
    ensures var r := PurgeNodeInRoots(c, roots, k);
            (forall q :: q in roots ==> RootPurged(c, r, q, {k}))
            && (forall q :: q !in roots ==> RootKept(c, r, q))
            && (SelectionWf(c.selection) ==> SelectionWf(r.selection))
    decreases |roots|
  {
    if |roots| > 0 {
      var c1 := PurgeNodeIn(c, roots[0], k);
      PurgeNodeInRootsPurges(c1, roots[1..], k);
      PurgeNodeInRootsStep(c, c1, PurgeNodeInRoots(c, roots, k), roots, k);
    }
  }

  /** One root of the loop: the first root is purged, then the rest. */
  lemma PurgeNodeInRootsStep(c: Cache, c1: Cache, r: Cache, roots: seq<string>, k: string)
    requires |roots| > 0
    requires RootPurged(c, c1, roots[0], {k}) && forall q :: q != roots[0] ==> RootKept(c, c1, q)
    requires forall q :: q in roots[1..] ==> RootPurged(c1, r, q, {k})
    requires forall q :: q !in roots[1..] ==> RootKept(c1, r, q)
    ensures forall q :: q in roots ==> RootPurged(c, r, q, {k})
    ensures forall q :: q !in roots ==> RootKept(c, r, q)
  {
    forall q | q !in roots ensures RootKept(c, r, q) {
      assert q != roots[0] && q !in roots[1..];
      assert RootKept(c, c1, q) && RootKept(c1, r, q);
    }
    forall q | q in roots ensures RootPurged(c, r, q, {k}) {
      if q == roots[0] {
        if q in roots[1..] {
          RootPurgedTrans(c, c1, r, q, {k}, {k});
          assert {k} + {k} == {k};
        } else {
          RootPurgedThenKept(c, c1, r, q, {k});
        }
      } else {
        assert q in roots[1..];
        RootKeptThenPurged(c, c1, r, q, {k});
      }
    }
  }

  lemma RootPurgedThenKept(c: Cache, t: Cache, r: Cache, q: string, p: set<string>)
    requires RootPurged(c, t, q, p) && RootKept(t, r, q)
    ensures RootPurged(c, r, q, p)
  {
  }

  lemma RootKeptThenPurged(c: Cache, t: Cache, r: Cache, q: string, p: set<string>)
    requires RootKept(c, t, q) && RootPurged(t, r, q, p)
    ensures RootPurged(c, r, q, p)
  {
  }

  /** The tail of `_purgeDirectory(n)`: the cached child list of `n` is
      deleted, its watcher released, and every root forgets `n`. */
  function PurgeSelf(c: Cache, n: string): (r: Cache)
    ensures r.childKeyMap == c.childKeyMap - {n}
    ensures r.subscriptions == c.subscriptions - {n}
    ensures r.roots == c.roots
  {
    var c1 := if n in c.childKeyMap then c.(childKeyMap := c.childKeyMap - {n}) else c;
    var c2 := c1.(subscriptions := c1.subscriptions - {n});
    assert c2.childKeyMap == c.childKeyMap - {n};
    PurgeNodeInRoots(c2, c2.roots, n)
  }

  /** Purging `n` by itself purges exactly `n`. */
  lemma PurgeSelfPurges(c: Cache, n: string)
    ensures PurgedIn(c, PurgeSelf(c, n), {n})
  {
    var c1 := if n in c.childKeyMap then c.(childKeyMap := c.childKeyMap - {n}) else c;
    var c2 := c1.(subscriptions := c1.subscriptions - {n});
    PurgeNodeInRootsPurges(c2, c2.roots, n);
    var r := PurgeSelf(c, n);
    PurgeSelfRoots(c, c2, r, n);
    PurgedInIntro(c, r, {n});
  }

  /** The roots' part of purging `n`: `c2` differs from `c` only outside the
      roots' state, and the loop over the roots purged `n` from `c2`. */
  lemma PurgeSelfRoots(c: Cache, c2: Cache, r: Cache, n: string)
    requires c2.expanded == c.expanded && c2.records == c.records && c2.selection == c.selection && c2.roots == c.roots
    requires forall q :: q in c.roots ==> RootPurged(c2, r, q, {n})
    requires forall q :: q !in c.roots ==> RootKept(c2, r, q)
    ensures forall q :: q in c.roots ==> RootPurged(c, r, q, {n})
    ensures forall q :: q !in c.roots ==> RootKept(c, r, q)
  {
    forall q | q in c.roots ensures RootPurged(c, r, q, {n}) {
      assert RootPurged(c2, r, q, {n});
      assert Exp(c2, q) == Exp(c, q) && Rec(c2, q) == Rec(c, q) && Sel(c2, q) == Sel(c, q);
    }
    forall q | q !in c.roots ensures RootKept(c, r, q) {
      assert RootKept(c2, r, q);
      assert Exp(c2, q) == Exp(c, q) && Rec(c2, q) == Rec(c, q) && Sel(c2, q) == Sel(c, q);
    }
  }

  lemma PurgedInIntro(c: Cache, r: Cache, p: set<string>)
    requires r.roots == c.roots && r.subscriptions == c.subscriptions - p
    requires SubMap(r.childKeyMap, c.childKeyMap) && forall k :: k in r.childKeyMap <==> k in c.childKeyMap && k !in p
    requires forall q :: q in c.roots ==> RootPurged(c, r, q, p)
    requires forall q :: q !in c.roots ==> RootKept(c, r, q)
    requires r.trackedNode == c.trackedNode || r.trackedNode.None?
    requires SelectionWf(c.selection) ==> SelectionWf(r.selection)
    ensures PurgedIn(c, r, p)
  {
  }

  // ------------------------------------------------------- the directory walk

  /** `_purgeDirectory(n)`: the directories in the current cached child list
      of `n` are purged first, then `n` itself. `m0` is the child map the
      whole walk started from; the walk only deletes entries of it. Returns the
      cache and the purged keys, each after the keys purged below it. */
  function PurgeDirectory(c: Cache, m0: map<string, seq<string>>, n: string): (r: (Cache, seq<string>))
    requires TreeWf(m0) && SubMap(c.childKeyMap, m0)
    ensures SubMap(r.0.childKeyMap, c.childKeyMap) && r.0.roots == c.roots
    decreases |KeysFrom(m0, |n|)|, 1, 0
  {
    var (c1, sub) := if n in c.childKeyMap then PurgeDirChildren(c, m0, n, c.childKeyMap[n], 0) else (c, []);
    (PurgeSelf(c1, n), sub + [n])
  }

  /** The `forEach` of `_purgeDirectory` over `cs[i..]`, the child list of
      `n` it read on entry. */
  function PurgeDirChildren(c: Cache, m0: map<string, seq<string>>, n: string, cs: seq<string>, i: nat)
    : (r: (Cache, seq<string>))
    requires TreeWf(m0) && SubMap(c.childKeyMap, m0) && n in m0 && cs == m0[n] && i <= |cs|
    ensures SubMap(r.0.childKeyMap, c.childKeyMap) && r.0.roots == c.roots
    decreases |KeysFrom(m0, |n|)|, 0, |cs| - i
  {
    if i == |cs| then (c, [])
    else if IsDirKey(cs[i]) then
      KeysFromShrinks(m0, n, cs[i]);
      var (c1, sub) := PurgeDirectory(c, m0, cs[i]);
      var (c2, rest) := PurgeDirChildren(c1, m0, n, cs, i + 1);
      (c2, sub + rest)
    else PurgeDirChildren(c, m0, n, cs, i + 1)
  }

  /** Purging `n` purges exactly the returned keys: `n`, last, and keys
      below it. */
  lemma {:induction false} PurgeDirectoryPurges(c: Cache, m0: map<string, seq<string>>, n: string)
    requires TreeWf(m0) && SubMap(c.childKeyMap, m0)
    ensures var r := PurgeDirectory(c, m0, n);
            DirPurged(c, r.0, n, r.1)
    decreases |KeysFrom(m0, |n|)|, 1, 0, 0
  {
    var (c1, sub) := if n in c.childKeyMap then PurgeDirChildren(c, m0, n, c.childKeyMap[n], 0) else (c, []);
    if n in c.childKeyMap {
      PurgeDirChildrenPurges(c, m0, n, c.childKeyMap[n], 0);
    } else {
      PurgedNothing(c);
      assert ToSet(sub) == {};
    }
    PurgeSelfStep(c, c1, n, sub);
  }

  /** What purging directory `n` promises. */
  ghost predicate DirPurged(c: Cache, r: Cache, n: string, purged: seq<string>) {
    PurgedIn(c, r, ToSet(purged))
    && |purged| > 0 && purged[|purged| - 1] == n
    && (forall k :: k in purged ==> AtOrBelow(k, n))
  }

  /** After the keys `sub` below `n`, `n` itself. */
  lemma PurgeSelfStep(c: Cache, c1: Cache, n: string, sub: seq<string>)
    requires PurgedIn(c, c1, ToSet(sub)) && forall k :: k in sub ==> Below(k, n)
    ensures DirPurged(c, PurgeSelf(c1, n), n, sub + [n])
  {
    PurgeSelfPurges(c1, n);
    PurgedTrans(c, c1, PurgeSelf(c1, n), ToSet(sub), {n});
    assert ToSet(sub + [n]) == ToSet(sub) + {n};
  }

  /** `k` is `n` or a key below it. */
  predicate AtOrBelow(k: string, n: string) {
    k == n || Below(k, n)
  }

  lemma {:induction false} PurgeDirChildrenPurges(c: Cache, m0: map<string, seq<string>>, n: string, cs: seq<string>, i: nat)
    requires TreeWf(m0) && SubMap(c.childKeyMap, m0) && n in m0 && cs == m0[n] && i <= |cs|
    ensures var r := PurgeDirChildren(c, m0, n, cs, i);
            ChildrenPurged(c, r.0, n, r.1, cs, i)
    decreases |KeysFrom(m0, |n|)|, 0, |cs| - i, 1
  {
    if i == |cs| {
      PurgedNothing(c);
      assert ToSet(PurgeDirChildren(c, m0, n, cs, i).1) == {};
    } else if IsDirKey(cs[i]) {
      PurgeDirChildPurges(c, m0, n, cs, i);
    } else {
      PurgeDirChildrenPurges(c, m0, n, cs, i + 1);
    }
  }

  /** The loop at a child directory `cs[i]`: it is purged, then the rest. */
  lemma {:induction false} PurgeDirChildPurges(c: Cache, m0: map<string, seq<string>>, n: string, cs: seq<string>, i: nat)
    requires TreeWf(m0) && SubMap(c.childKeyMap, m0) && n in m0 && cs == m0[n] && i < |cs| && IsDirKey(cs[i])
    ensures var r := PurgeDirChildren(c, m0, n, cs, i);
            ChildrenPurged(c, r.0, n, r.1, cs, i)
    decreases |KeysFrom(m0, |n|)|, 0, |cs| - i, 0
  {
    var x := cs[i];
    assert x in m0[n];
    KeysFromShrinks(m0, n, x);
    var (c1, sub) := PurgeDirectory(c, m0, x);
    var (c2, rest) := PurgeDirChildren(c1, m0, n, cs, i + 1);
    assert PurgeDirChildren(c, m0, n, cs, i) == (c2, sub + rest);
    PurgeDirectoryPurges(c, m0, x);
    SubMapTrans(c1.childKeyMap, c.childKeyMap, m0);
    PurgeDirChildrenPurges(c1, m0, n, cs, i + 1);
    PurgeChildStep(c, c1, c2, n, x, sub, rest, cs, i);
  }

  /** What purging the child directories `cs[i..]` of `n` promises. */
  ghost predicate ChildrenPurged(c: Cache, r: Cache, n: string, purged: seq<string>, cs: seq<string>, i: nat) {
    PurgedIn(c, r, ToSet(purged))
    && (forall k :: k in purged ==> Below(k, n))
    && (forall j :: i <= j < |cs| && IsDirKey(cs[j]) ==> cs[j] in purged)
  }

  /** A child directory `x` of `n`: the keys purged with it and those of the
      rest of the loop lie below `n`, and together cover `x` and the later
      child directories. */
  lemma PurgeChildStep(c: Cache, c1: Cache, c2: Cache, n: string, x: string, sub: seq<string>, rest: seq<string>,
                       cs: seq<string>, i: nat)
    requires i < |cs| && cs[i] == x && Below(x, n)
    requires PurgedIn(c, c1, ToSet(sub))
    requires |sub| > 0 && sub[|sub| - 1] == x && forall k :: k in sub ==> AtOrBelow(k, x)
    requires ChildrenPurged(c1, c2, n, rest, cs, i + 1)
    ensures ChildrenPurged(c, c2, n, sub + rest, cs, i)
  {
    PurgedTrans(c, c1, c2, ToSet(sub), ToSet(rest));
    assert ToSet(sub + rest) == ToSet(sub) + ToSet(rest);
    assert x in sub;
    forall k | k in sub ensures Below(k, n) {
      if k != x {
        PrefixOfPrefix(k, x, n);
      }
    }
  }

  // ------------------------------------------------------- replacing children

  /** `removedDirectoryKeys.forEach(_purgeDirectory)`: each purge walks the
      child map as it is when that purge starts. */
  function PurgeAll(c: Cache, ks: seq<string>): (r: (Cache, seq<string>))
    requires TreeWf(c.childKeyMap)
    ensures SubMap(r.0.childKeyMap, c.childKeyMap) && r.0.roots == c.roots
    decreases |ks|
  {
    if |ks| == 0 then (c, [])
    else
      var (c1, sub) := PurgeDirectory(c, c.childKeyMap, ks[0]);
      SubMapTreeWf(c1.childKeyMap, c.childKeyMap);
      var (c2, rest) := PurgeAll(c1, ks[1..]);
      (c2, sub + rest)
  }

  /** Some key of `ks` is `x` or lies above it. */
  ghost predicate UnderSome(x: string, ks: seq<string>) {
    exists k :: k in ks && AtOrBelow(x, k)
  }

  /** Purging each of `ks` purges the returned keys: every key of `ks`, and
      otherwise only keys below one of them. */
  lemma {:induction false} PurgeAllPurges(c: Cache, ks: seq<string>)
    requires TreeWf(c.childKeyMap)
    ensures var r := PurgeAll(c, ks);
            AllPurged(c, r.0, ks, r.1)
    decreases |ks|
  {
    if |ks| == 0 {
      PurgedNothing(c);
      assert ToSet(PurgeAll(c, ks).1) == {};
    } else {
      PurgeDirectoryPurges(c, c.childKeyMap, ks[0]);
      var (c1, sub) := PurgeDirectory(c, c.childKeyMap, ks[0]);
      SubMapTreeWf(c1.childKeyMap, c.childKeyMap);
      PurgeAllPurges(c1, ks[1..]);
      var (c2, rest) := PurgeAll(c1, ks[1..]);
      PurgeAllStep(c, c1, c2, ks, sub, rest);
    }
  }

  /** What purging each of `ks` promises. */
  ghost predicate AllPurged(c: Cache, r: Cache, ks: seq<string>, purged: seq<string>) {
    PurgedIn(c, r, ToSet(purged))
    && (forall k :: k in ks ==> k in purged)
    && (forall x :: x in purged ==> UnderSome(x, ks))
  }

  lemma PurgeAllStep(c: Cache, c1: Cache, c2: Cache, ks: seq<string>, sub: seq<string>, rest: seq<string>)
    requires |ks| > 0 && DirPurged(c, c1, ks[0], sub)
    requires AllPurged(c1, c2, ks[1..], rest)
    ensures AllPurged(c, c2, ks, sub + rest)
  {
    PurgedTrans(c, c1, c2, ToSet(sub), ToSet(rest));
    assert ToSet(sub + rest) == ToSet(sub) + ToSet(rest);
    assert ks[0] in sub;
    forall k | k in ks ensures k in sub + rest {
      if k != ks[0] {
        assert k in ks[1..];
      }
    }
    forall x | x in sub + rest ensures UnderSome(x, ks) {
      if x in sub {
        assert ks[0] in ks && AtOrBelow(x, ks[0]);
      } else {
        var k :| k in ks[1..] && AtOrBelow(x, k);
        assert k in ks;
      }
    }
  }

  function RemovedDir(childKeys: seq<string>): string -> bool {
    k => k !in childKeys && IsDirKey(k)
  }

  /** `new Immutable.Set(before).subtract(childKeys).filter(isDirKey)`, in the
      order of `before`. */
  function RemovedDirs(before: seq<string>, childKeys: seq<string>): (removed: seq<string>)
    ensures NoDup(removed)
    ensures forall k :: k in removed <==> k in before && k !in childKeys && IsDirKey(k)
  {
    Dedup(Filter(before, RemovedDir(childKeys)))
  }

  /** `_setChildKeys(nodeKey, childKeys)`: when `nodeKey` had a cached child
      list, the directories that left it are purged; then the list is
      replaced. */
  function SetChildKeys(s: Store, nodeKey: string, childKeys: seq<string>): (r: Store)
    requires TreeWf(s.childKeyMap)
    ensures nodeKey in r.childKeyMap && r.childKeyMap[nodeKey] == childKeys
    ensures (forall x :: x in childKeys ==> |nodeKey| < |x| && StartsWith(x, nodeKey)) ==> TreeWf(r.childKeyMap)
    ensures r == WithCache(s, CacheOf(r))
  {
    var c := SetChildKeysIn(CacheOf(s), nodeKey, childKeys);
    CacheRoundTrip(s, c);
    WithCache(s, c)
  }

  lemma CacheRoundTrip(s: Store, c: Cache)
    requires c.roots == s.rootKeys
    ensures CacheOf(WithCache(s, c)) == c
    ensures WithCache(s, c) == WithCache(s, CacheOf(WithCache(s, c)))
  {
  }

  /** `_setChildKeys` on the cache. */
  function SetChildKeysIn(c: Cache, nodeKey: string, childKeys: seq<string>): (r: Cache)
    requires TreeWf(c.childKeyMap)
    ensures nodeKey in r.childKeyMap && r.childKeyMap[nodeKey] == childKeys && r.roots == c.roots
    ensures (forall x :: x in childKeys ==> |nodeKey| < |x| && StartsWith(x, nodeKey)) ==> TreeWf(r.childKeyMap)
    ensures nodeKey !in c.childKeyMap ==> r == c.(childKeyMap := r.childKeyMap)
  {
    var c1 := if nodeKey in c.childKeyMap then PurgeAll(c, RemovedDirs(c.childKeyMap[nodeKey], childKeys)).0 else c;
    SubMapTreeWf(c1.childKeyMap, c.childKeyMap);
    c1.(childKeyMap := c1.childKeyMap[nodeKey := childKeys])
  }

  /** `x` is, or lies below, a directory that left the list `before`. */
  ghost predicate UnderRemoved(x: string, before: seq<string>, childKeys: seq<string>) {
    exists d :: d in before && d !in childKeys && IsDirKey(d) && AtOrBelow(x, d)
  }

  /** Replacing a cached child list forgets every directory that left it,
      everywhere, and keeps every key that is not at or below one of them. */
  lemma SetChildKeysPurges(c: Cache, nodeKey: string, childKeys: seq<string>)
    requires TreeWf(c.childKeyMap) && nodeKey in c.childKeyMap
    ensures var r := SetChildKeysIn(c, nodeKey, childKeys);
            var before := c.childKeyMap[nodeKey];
            (forall d :: d in before && d !in childKeys && IsDirKey(d) ==> Forgotten(r, d))
            && (forall x :: !UnderRemoved(x, before, childKeys) ==> KeptInRoots(c, r, x) && (x in r.subscriptions <==> x in c.subscriptions))
            && (forall x :: x != nodeKey && !UnderRemoved(x, before, childKeys) ==> Kept(c, r, x))
  {
    var before := c.childKeyMap[nodeKey];
    var c1 := PurgeAll(c, RemovedDirs(before, childKeys)).0;
    PurgeRemovedForgets(c, before, childKeys);
    PurgeRemovedKeeps(c, before, childKeys);
    forall d | d in before && d !in childKeys && IsDirKey(d)
      ensures Forgotten(c1.(childKeyMap := c1.childKeyMap[nodeKey := childKeys]), d)
    {
      ChildIsLonger(c.childKeyMap, nodeKey, d);
      ReplaceKeepsForgotten(c1, nodeKey, childKeys, d);
    }
    forall x | !UnderRemoved(x, before, childKeys)
      ensures var r := c1.(childKeyMap := c1.childKeyMap[nodeKey := childKeys]);
              KeptInRoots(c, r, x) && (x in r.subscriptions <==> x in c.subscriptions) && (x != nodeKey ==> Kept(c, r, x))
    {
      ReplaceKeepsKept(c, c1, nodeKey, childKeys, x);
    }
  }

  /** Purging the directories that left `before` forgets them. */
  lemma PurgeRemovedForgets(c: Cache, before: seq<string>, childKeys: seq<string>)
    requires TreeWf(c.childKeyMap)
    ensures var c1 := PurgeAll(c, RemovedDirs(before, childKeys)).0;
            forall d :: d in before && d !in childKeys && IsDirKey(d) ==> Forgotten(c1, d)
  {
    var removed := RemovedDirs(before, childKeys);
    PurgeAllPurges(c, removed);
    var (c1, purged) := PurgeAll(c, removed);
    PurgedForgets(c, c1, ToSet(purged));
    forall d | d in before && d !in childKeys && IsDirKey(d) ensures d in ToSet(purged) {
      assert d in removed;
    }
  }

  /** Purging the directories that left `before` keeps every key not at or
      below one of them. */
  lemma PurgeRemovedKeeps(c: Cache, before: seq<string>, childKeys: seq<string>)
    requires TreeWf(c.childKeyMap)
    ensures var c1 := PurgeAll(c, RemovedDirs(before, childKeys)).0;
            forall x :: !UnderRemoved(x, before, childKeys) ==> Kept(c, c1, x)
  {
    var removed := RemovedDirs(before, childKeys);
    PurgeAllPurges(c, removed);
    var (c1, purged) := PurgeAll(c, removed);
    PurgedKeeps(c, c1, ToSet(purged));
    forall x | x in purged ensures UnderRemoved(x, before, childKeys) {
      var d :| d in removed && AtOrBelow(x, d);
      assert d in before && d !in childKeys && IsDirKey(d);
    }
  }

  lemma ChildIsLonger(m: map<string, seq<string>>, k: string, x: string)
    requires TreeWf(m) && k in m && x in m[k]
    ensures |k| < |x|
  {
  }

  lemma ReplaceKeepsForgotten(c1: Cache, nodeKey: string, childKeys: seq<string>, d: string)
    requires Forgotten(c1, d) && d != nodeKey
    ensures Forgotten(c1.(childKeyMap := c1.childKeyMap[nodeKey := childKeys]), d)
  {
  }

  lemma ReplaceKeepsKept(c: Cache, c1: Cache, nodeKey: string, childKeys: seq<string>, x: string)
    requires Kept(c, c1, x)
    ensures var r := c1.(childKeyMap := c1.childKeyMap[nodeKey := childKeys]);
            KeptInRoots(c, r, x) && (x in r.subscriptions <==> x in c.subscriptions)
            && (x != nodeKey ==> Kept(c, r, x))
  {
  }
}
