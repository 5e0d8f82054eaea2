/** `FileTreeController`'s keyboard navigation and the commands built on it:
    moving the selection up, down, to the top and to the bottom of the listed
    tree, revealing a key, and collapsing the selection. Each navigation
    answers with the node it selects and tracks; revealing and collapsing
    answer with the store actions they dispatch, in order. */
module FileTreeController {
  import opened Wrappers
  import opened Text
  import opened Seqs
  import opened Paths
  import opened FileTreeStore
  import FileTreeCollapse

  /** What a move does: select and track a node, do nothing, or throw (an
      `invariant` that fails, or a key helper handed `undefined`). */
  datatype Move = Select(node: NodeRef) | Stay | Throws

  /** The store actions the controller dispatches. */
  datatype Action =
    | EnsureChild(root: string, parent: string, child: string)
    | Expand(node: NodeRef)
    | SelectSingle(node: NodeRef)
    | Track(node: NodeRef)
    | Collapse(node: NodeRef)
    | CollapseDeep(node: NodeRef)

  // --------------------------------------------------------------- invariants

  /** Root keys are directory keys and no root lies inside another. */
  predicate RootsWf(roots: seq<string>) {
    (forall i :: 0 <= i < |roots| ==> IsDirKey(roots[i]))
    && (forall i, j :: 0 <= i < |roots| && 0 <= j < |roots| && i != j ==> !StartsWith(roots[j], roots[i]))
  }

  /** Child lists extend their directory by one segment and hold each key once. */
  predicate ChildrenWf(ckm: map<string, seq<string>>) {
    TreeWf(ckm)
    && (forall p, c :: p in ckm && c in ckm[p] ==> ParentKey(c) == p)
    && (forall p :: p in ckm ==> NoDup(ckm[p]))
  }

  /** What the file tree keeps true of its roots and its cached children, and
      what the navigation below relies on. */
  predicate NavWf(s: Store) {
    ChildrenWf(s.childKeyMap) && RootsWf(s.rootKeys)
  }

  lemma RootsNoDup(roots: seq<string>)
    requires RootsWf(roots)
    ensures NoDup(roots)
  {
    forall i, j | 0 <= i < j < |roots| ensures roots[i] != roots[j] {
      assert !StartsWith(roots[j], roots[i]);
    }
  }

  /** Two prefixes of one key: the shorter is a prefix of the longer. */
  lemma PrefixesNest(k: string, a: string, b: string)
    requires StartsWith(k, a) && StartsWith(k, b) && |a| <= |b|
    ensures StartsWith(b, a)
  {
    assert b[..|a|] == k[..|b|][..|a|];
  }

  /** With roots that do not nest, the root a key lies under is the one
      `getRootForKey` finds. */
  lemma RootForKeyUnique(s: Store, r: string, k: string)
    requires RootsWf(s.rootKeys) && r in s.rootKeys && StartsWith(k, r)
    ensures RootForKey(s, k) == Some(r)
  {
    var i :| 0 <= i < |s.rootKeys| && s.rootKeys[i] == r;
    var f := RootForKey(s, k);
    var j :| 0 <= j < |s.rootKeys| && s.rootKeys[j] == f.value;
    if |r| <= |f.value| {
      PrefixesNest(k, r, f.value);
    } else {
      PrefixesNest(k, f.value, r);
    }
  }

  /** A key strictly below a root is no root itself. */
  lemma BelowRootIsNoRoot(s: Store, r: string, k: string)
    requires RootsWf(s.rootKeys) && r in s.rootKeys && StartsWith(k, r) && |k| > |r|
    ensures k !in s.rootKeys
  {
    var i :| 0 <= i < |s.rootKeys| && s.rootKeys[i] == r;
    assert forall j :: 0 <= j < |s.rootKeys| && j != i ==> !StartsWith(s.rootKeys[j], r);
  }

  /** Strictly below a root, a move works under that root and among the
      cached children of the key's parent. */
  lemma FrameBelowRoot(s: Store, env: Env, root: string, k: string)
    requires NavWf(s) && root in s.rootKeys && StartsWith(k, root) && |k| > |root|
    ensures k !in s.rootKeys && |ParentKey(k)| > 0 && StartsWith(ParentKey(k), root)
    ensures Frame(s, env, k) == Some((root, CachedChildKeys(s, env, ParentKey(k))))
  {
    var i :| 0 <= i < |s.rootKeys| && s.rootKeys[i] == root;
    BelowRootIsNoRoot(s, root, k);
    RootForKeyUnique(s, root, k);
    ParentStaysUnderRoot(root, k);
  }

  lemma CachedChildrenWf(s: Store, env: Env, p: string)
    requires ChildrenWf(s.childKeyMap)
    ensures NoDup(CachedChildKeys(s, env, p))
    ensures forall c :: c in CachedChildKeys(s, env, p) ==>
              p in s.childKeyMap && c in s.childKeyMap[p] && ParentKey(c) == p && StartsWith(c, p) && |p| < |c|
  {
    var cs := CachedChildKeys(s, env, p);
    SubsequenceMembers(cs, ChildKeys(s, p));
    if p in s.childKeyMap {
      SubsequenceNoDup(cs, ChildKeys(s, p));
    }
  }

  // ------------------------------------------------------------ listed order

  /** The node lists children: an expanded directory with cached children. */
  predicate ShowsChildren(s: Store, env: Env, root: string, k: string) {
    IsDirKey(k) && IsExpanded(s, root, k) && |CachedChildKeys(s, env, k)| > 0
  }

  /** The keys the tree lists from `k` down, top to bottom: `k`, then, for an
      expanded directory, what each cached child lists, in order. */
  function Shown(s: Store, env: Env, root: string, k: string): (keys: seq<string>)
    requires TreeWf(s.childKeyMap)
    ensures |keys| > 0 && keys[0] == k
    decreases |FileTreeCollapse.KeysFrom(s.childKeyMap, |k|)|, 1
  {
    [k] + if IsDirKey(k) && IsExpanded(s, root, k) then ShownList(s, env, root, k, CachedChildKeys(s, env, k)) else []
  }

  /** What the children `cs` of `parent` list, one after the other. */
  function ShownList(s: Store, env: Env, root: string, parent: string, cs: seq<string>): (keys: seq<string>)
    requires TreeWf(s.childKeyMap)
    requires forall c :: c in cs ==> c in ChildKeys(s, parent)
    ensures |cs| > 0 ==> |keys| > 0
    decreases |FileTreeCollapse.KeysFrom(s.childKeyMap, |parent|)|, 0, |cs|
  {
    if |cs| == 0 then []
    else
      var c := cs[|cs| - 1];
      assert c in cs && c in ChildKeys(s, parent);
      assert parent in s.childKeyMap && c in s.childKeyMap[parent];
      FileTreeCollapse.KeysFromShrinks(s.childKeyMap, parent, c);
      ShownList(s, env, root, parent, cs[..|cs| - 1]) + Shown(s, env, root, c)
  }

  /** `k` is listed under `root`: it is the root, or a cached child of its
      parent, which is expanded and listed in turn. */
  predicate Visible(s: Store, env: Env, root: string, k: string)
    decreases |k|
  {
    k == root
    || (|k| > |root| && StartsWith(k, root)
        && IsExpanded(s, root, ParentKey(k)) && k in CachedChildKeys(s, env, ParentKey(k))
        && Visible(s, env, root, ParentKey(k)))
  }

  // ------------------------------------------------------------- descendants

  /** `_findLowermostDescendantKey(rootKey, nodeKey)`: down the last cached
      child while the node is an expanded directory with cached children. */
  function LowermostDescendant(s: Store, env: Env, root: string, k: string): (r: string)
    requires TreeWf(s.childKeyMap)
    ensures StartsWith(r, k)
    ensures !ShowsChildren(s, env, root, r)
    ensures r == k <==> !ShowsChildren(s, env, root, k)
    decreases |FileTreeCollapse.KeysFrom(s.childKeyMap, |k|)|
  {
    if !ShowsChildren(s, env, root, k) then k
    else
      var cs := CachedChildKeys(s, env, k);
      var c := cs[|cs| - 1];
      LastCachedChild(s, env, root, k);
      FileTreeCollapse.KeysFromShrinks(s.childKeyMap, k, c);
      var r := LowermostDescendant(s, env, root, c);
      PrefixOfPrefix(r, c, k);
      r
  }

  /** The last cached child of a node listing children lies below it. */
  lemma LastCachedChild(s: Store, env: Env, root: string, k: string)
    requires TreeWf(s.childKeyMap) && ShowsChildren(s, env, root, k)
    ensures var cs := CachedChildKeys(s, env, k);
            k in s.childKeyMap && StartsWith(cs[|cs| - 1], k) && |k| < |cs[|cs| - 1]|
  {
    var cs := CachedChildKeys(s, env, k);
    var c := cs[|cs| - 1];
    assert c in cs;
    assert c in ChildKeys(s, k);
  }

  /** The lowermost descendant is the last key the tree lists under `k`. */
  lemma {:induction false} LowermostIsLastShown(s: Store, env: Env, root: string, k: string)
    requires TreeWf(s.childKeyMap)
    ensures var shown := Shown(s, env, root, k);
            LowermostDescendant(s, env, root, k) == shown[|shown| - 1]
    decreases |FileTreeCollapse.KeysFrom(s.childKeyMap, |k|)|
  {
    if ShowsChildren(s, env, root, k) {
      var cs := CachedChildKeys(s, env, k);
      var c := cs[|cs| - 1];
      FileTreeCollapse.KeysFromShrinks(s.childKeyMap, k, c);
      LowermostIsLastShown(s, env, root, c);
      ShownEndsWithLastChild(s, env, root, k);
      LastChildLowermost(s, env, root, k, c);
    } else {
      ShownOfLeaf(s, env, root, k);
    }
  }

  /** A node that lists no children lists only itself. */
  lemma ShownOfLeaf(s: Store, env: Env, root: string, k: string)
    requires TreeWf(s.childKeyMap) && !ShowsChildren(s, env, root, k)
    ensures Shown(s, env, root, k) == [k]
  {
    if IsDirKey(k) && IsExpanded(s, root, k) {
      assert ShownList(s, env, root, k, CachedChildKeys(s, env, k)) == [];
    }
  }

  /** What an expanded directory lists ends with what its last child lists. */
  lemma ShownEndsWithLastChild(s: Store, env: Env, root: string, k: string)
    requires TreeWf(s.childKeyMap) && ShowsChildren(s, env, root, k)
    ensures var cs := CachedChildKeys(s, env, k);
            var shown := Shown(s, env, root, k);
            var last := Shown(s, env, root, cs[|cs| - 1]);
            shown[|shown| - 1] == last[|last| - 1]
  {
    var cs := CachedChildKeys(s, env, k);
    var rest := ShownList(s, env, root, k, cs[..|cs| - 1]);
    var last := Shown(s, env, root, cs[|cs| - 1]);
    assert ShownList(s, env, root, k, cs) == rest + last;
    assert Shown(s, env, root, k) == [k] + (rest + last);
  }

  // ---------------------------------------------------------------- siblings

  /** `_findNearestAncestorSibling(rootKey, nodeKey)`: the next sibling of the
      node, or of its nearest ancestor that has one; at root level the next
      root, which becomes the root key as well. */
  function NearestAncestorSibling(s: Store, env: Env, root: string, k: string): (r: Move)
    ensures root == k ==> (r.Select? <==> FirstIndex(s.rootKeys, k) < |s.rootKeys| - 1)
    ensures r.Select? && root == k ==> r.node.rootKey == r.node.nodeKey && r.node.nodeKey in s.rootKeys
    ensures r.Select? && root != k ==>
              r.node.rootKey == root || (r.node.rootKey == r.node.nodeKey && r.node.nodeKey in s.rootKeys)
    ensures root != k && (root == "" || ParentKey(k) == "") ==> r == Throws
    decreases |k|
  {
    if root == k then
      var sibs := s.rootKeys;
      var i := FirstIndex(sibs, k);
      if i < |sibs| - 1 then Select(NodeRef(sibs[i + 1], sibs[i + 1])) else Stay
    else
      var parent := ParentKey(k);
      if root == "" || parent == "" then Throws
      else
        var sibs := CachedChildKeys(s, env, parent);
        var i := FirstIndex(sibs, k);
        if i < |sibs| - 1 then Select(NodeRef(root, sibs[i + 1]))
        else NearestAncestorSibling(s, env, root, parent)
  }

  // ------------------------------------------------------------------- moves

  /** The root a move works under and the keys it treats as siblings: for a
      root, the roots; otherwise `getRootForKey` and the parent's cached
      children. `None` where `invariant(rootKey && parentKey)` throws. */
  function Frame(s: Store, env: Env, k: string): (f: Option<(string, seq<string>)>)
    ensures k in s.rootKeys ==> f == Some((k, s.rootKeys))
    ensures k !in s.rootKeys && f.Some? ==>
              RootForKey(s, k) == Some(f.value.0) && f.value.0 != "" && ParentKey(k) != ""
              && f.value.1 == CachedChildKeys(s, env, ParentKey(k))
    ensures k !in s.rootKeys && f.None? ==>
              RootForKey(s, k).None? || RootForKey(s, k) == Some("") || ParentKey(k) == ""
  {
    if k in s.rootKeys then Some((k, s.rootKeys))
    else
      var root := RootForKey(s, k);
      var parent := ParentKey(k);
      if root.None? || root.value == "" || parent == "" then None
      else Some((root.value, CachedChildKeys(s, env, parent)))
  }

  /** The body of `_moveDown` once the last selected key is known. */
  function MoveDownFrom(s: Store, env: Env, k: string): (r: Move)
    // an expanded directory with cached children selects its first child
    ensures Frame(s, env, k).Some? && ShowsChildren(s, env, Frame(s, env, k).value.0, k) ==>
              r == Select(NodeRef(Frame(s, env, k).value.0, CachedChildKeys(s, env, k)[0]))
    ensures Frame(s, env, k).None? ==> r == Throws
    ensures k in s.rootKeys ==> r != Throws
  {
    match Frame(s, env, k)
    case None => Throws
    case Some((root, sibs)) =>
      if ShowsChildren(s, env, root, k) then Select(NodeRef(root, CachedChildKeys(s, env, k)[0]))
      else
        var i := FirstIndex(sibs, k);
        if i < |sibs| - 1 then
          if k in s.rootKeys then Select(NodeRef(sibs[i + 1], sibs[i + 1]))
          else Select(NodeRef(root, sibs[i + 1]))
        else
          NearestAncestorSibling(s, env, root, k)
  }

  /** The body of `_moveUp` once the last selected key is known. A key missing
      from its siblings makes `siblingKeys[index - 1]` undefined, which the key
      helpers do not accept. */
  function MoveUpFrom(s: Store, env: Env, k: string): (r: Move)
    requires TreeWf(s.childKeyMap)
    // from the first root nothing happens
    ensures |s.rootKeys| > 0 && k == s.rootKeys[0] ==> r == Stay
    // from a first child the parent is selected
    ensures k !in s.rootKeys && Frame(s, env, k).Some? && FirstIndex(Frame(s, env, k).value.1, k) == 0 ==>
              r == Select(NodeRef(Frame(s, env, k).value.0, ParentKey(k)))
    ensures r.Select? ==> StartsWith(r.node.nodeKey, r.node.rootKey) || k !in s.rootKeys
    ensures Frame(s, env, k).None? ==> r == Throws
  {
    match Frame(s, env, k)
    case None => Throws
    case Some((root, sibs)) =>
      var i := FirstIndex(sibs, k);
      if i == 0 then
        if k !in s.rootKeys then Select(NodeRef(root, ParentKey(k))) else Stay
      else if i < 0 then Throws
      else
        var prev := sibs[i - 1];
        var root' := if k in s.rootKeys then prev else root;
        Select(NodeRef(root', LowermostDescendant(s, env, root', prev)))
  }

  /** `_moveToTop`: the first root. */
  function MoveToTop(s: Store): (r: Move)
    ensures |s.rootKeys| == 0 <==> r == Stay
    ensures r != Throws
    ensures r.Select? ==> r.node.rootKey == r.node.nodeKey && r.node.nodeKey in s.rootKeys
  {
    if |s.rootKeys| == 0 then Stay
    else Select(NodeRef(s.rootKeys[0], s.rootKeys[0]))
  }

  /** `_moveToBottom`: the lowermost descendant of the last root. */
  function MoveToBottom(s: Store, env: Env): (r: Move)
    requires TreeWf(s.childKeyMap)
    ensures |s.rootKeys| == 0 <==> r == Stay
    ensures r != Throws
    ensures r.Select? ==> r.node.rootKey == s.rootKeys[|s.rootKeys| - 1]
                          && StartsWith(r.node.nodeKey, r.node.rootKey)
                          && !ShowsChildren(s, env, r.node.rootKey, r.node.nodeKey)
  {
    if |s.rootKeys| == 0 then Stay
    else
      var last := s.rootKeys[|s.rootKeys| - 1];
      Select(NodeRef(last, LowermostDescendant(s, env, last, last)))
  }

  /** The key `getSelectedKeys().last()` names. */
  function LastSelected(s: Store): (k: Option<string>)
    ensures k.Some? <==> |AllSelectedKeys(s)| > 0
    ensures k.Some? ==> SelectsKey(s.selectedKeysByRoot, k.value)
  {
    var keys := AllSelectedKeys(s);
    if |keys| == 0 then None
    else
      assert keys[|keys| - 1] in keys;
      Some(keys[|keys| - 1])
  }

  /** `_moveDown`: nothing in an empty tree, the top without a selection. */
  function MoveDown(s: Store, env: Env): (r: Move)
    ensures |s.rootKeys| == 0 ==> r == Stay
    ensures |s.rootKeys| > 0 && |AllSelectedKeys(s)| == 0 ==>
              r == Select(NodeRef(s.rootKeys[0], s.rootKeys[0]))
  {
    if |s.rootKeys| == 0 then Stay
    else
      match LastSelected(s)
      case None => MoveToTop(s)
      case Some(k) => MoveDownFrom(s, env, k)
  }

  /** `_moveUp`: nothing in an empty tree, the bottom without a selection. */
  function MoveUp(s: Store, env: Env): (r: Move)
    requires TreeWf(s.childKeyMap)
    ensures |s.rootKeys| == 0 ==> r == Stay
    ensures |s.rootKeys| > 0 && |AllSelectedKeys(s)| == 0 ==>
              var last := s.rootKeys[|s.rootKeys| - 1];
              r.Select? && r.node.rootKey == last && StartsWith(r.node.nodeKey, last)
              && !ShowsChildren(s, env, last, r.node.nodeKey)
  {
    if |s.rootKeys| == 0 then Stay
    else
      match LastSelected(s)
      case None => MoveToBottom(s, env)
      case Some(k) => MoveUpFrom(s, env, k)
  }

  // ------------------------------------------------------- moves round trip

  /** Up from a first child: its parent. */
  lemma UpFromFirstChild(s: Store, env: Env, root: string, k: string)
    requires NavWf(s) && root in s.rootKeys && StartsWith(k, root) && ShowsChildren(s, env, root, k)
    ensures MoveUpFrom(s, env, CachedChildKeys(s, env, k)[0]) == Select(NodeRef(root, k))
  {
    CachedChildrenWf(s, env, k);
    var c := CachedChildKeys(s, env, k)[0];
    PrefixOfPrefix(c, k, root);
    FrameBelowRoot(s, env, root, c);
  }

  /** Up from a next sibling: the lowermost descendant of the one before. */
  lemma UpFromNextSibling(s: Store, env: Env, root: string, p: string, i: int)
    requires NavWf(s) && root in s.rootKeys && StartsWith(p, root)
    requires 0 <= i < |CachedChildKeys(s, env, p)| - 1
    ensures var sibs := CachedChildKeys(s, env, p);
            MoveUpFrom(s, env, sibs[i + 1]) == Select(NodeRef(root, LowermostDescendant(s, env, root, sibs[i])))
  {
    CachedChildrenWf(s, env, p);
    var sibs := CachedChildKeys(s, env, p);
    var next := sibs[i + 1];
    PrefixOfPrefix(next, p, root);
    FrameBelowRoot(s, env, root, next);
    FirstIndexNoDup(sibs, i + 1);
  }

  /** Up from a next root: the lowermost descendant of the root before. */
  lemma UpFromNextRoot(s: Store, env: Env, i: int)
    requires NavWf(s) && 0 <= i < |s.rootKeys| - 1
    ensures var r := s.rootKeys[i];
            MoveUpFrom(s, env, s.rootKeys[i + 1]) == Select(NodeRef(r, LowermostDescendant(s, env, r, r)))
  {
    RootsNoDup(s.rootKeys);
    FirstIndexNoDup(s.rootKeys, i + 1);
  }

  /** Leaving a listed key through its nearest ancestor sibling and moving up
      again lands on the lowermost descendant of that key. */
  lemma {:induction false} AncestorSiblingThenUp(s: Store, env: Env, root: string, a: string)
    requires NavWf(s) && root in s.rootKeys && Visible(s, env, root, a)
    ensures var m := NearestAncestorSibling(s, env, root, a);
            m != Throws
            && (m.Select? ==> MoveUpFrom(s, env, m.node.nodeKey) == Select(NodeRef(root, LowermostDescendant(s, env, root, a))))
    decreases |a|
  {
    if a == root {
      var i := FirstIndex(s.rootKeys, a);
      if i < |s.rootKeys| - 1 {
        assert NearestAncestorSibling(s, env, root, a) == Select(NodeRef(s.rootKeys[i + 1], s.rootKeys[i + 1]));
        UpFromNextRoot(s, env, i);
      }
    } else {
      var p := ParentKey(a);
      VisibleParent(s, env, root, a);
      var sibs := CachedChildKeys(s, env, p);
      if FirstIndex(sibs, a) < |sibs| - 1 {
        NextSiblingStep(s, env, root, a);
      } else {
        AncestorSiblingThenUp(s, env, root, p);
        LastSiblingStep(s, env, root, a);
      }
    }
  }

  /** The contract of `AncestorSiblingThenUp` for `a`. */
  ghost predicate UpFromAncestorSibling(s: Store, env: Env, root: string, a: string)
    requires NavWf(s)
  {
    var m := NearestAncestorSibling(s, env, root, a);
    m != Throws
    && (m.Select? ==> MoveUpFrom(s, env, m.node.nodeKey) == Select(NodeRef(root, LowermostDescendant(s, env, root, a))))
  }

  /** A node with a next sibling: that sibling is selected, and moving up
      from it comes back to the node's lowermost descendant. */
  lemma NextSiblingStep(s: Store, env: Env, root: string, a: string)
    requires NavWf(s) && root in s.rootKeys && Visible(s, env, root, a) && a != root
    requires FirstIndex(CachedChildKeys(s, env, ParentKey(a)), a) < |CachedChildKeys(s, env, ParentKey(a))| - 1
    ensures UpFromAncestorSibling(s, env, root, a)
  {
    var p := ParentKey(a);
    VisibleParent(s, env, root, a);
    FrameBelowRoot(s, env, root, a);
    var sibs := CachedChildKeys(s, env, p);
    var i := FirstIndex(sibs, a);
    assert NearestAncestorSibling(s, env, root, a) == Select(NodeRef(root, sibs[i + 1]));
    UpFromNextSibling(s, env, root, p, i);
  }

  /** The last child of its parent: the parent's answer is the node's, and so
      is the parent's lowermost descendant. */
  lemma LastSiblingStep(s: Store, env: Env, root: string, a: string)
    requires NavWf(s) && root in s.rootKeys && Visible(s, env, root, a) && a != root
    requires FirstIndex(CachedChildKeys(s, env, ParentKey(a)), a) >= |CachedChildKeys(s, env, ParentKey(a))| - 1
    requires UpFromAncestorSibling(s, env, root, ParentKey(a))
    ensures UpFromAncestorSibling(s, env, root, a)
  {
    var p := ParentKey(a);
    VisibleParent(s, env, root, a);
    FrameBelowRoot(s, env, root, a);
    var sibs := CachedChildKeys(s, env, p);
    assert NearestAncestorSibling(s, env, root, a) == NearestAncestorSibling(s, env, root, p);
    LastOfFirstIndex(sibs, a);
    LastChildLowermost(s, env, root, p, a);
  }

  lemma VisibleParent(s: Store, env: Env, root: string, a: string)
    requires Visible(s, env, root, a) && a != root
    ensures |a| > |root| && StartsWith(a, root)
    ensures IsExpanded(s, root, ParentKey(a)) && a in CachedChildKeys(s, env, ParentKey(a))
    ensures Visible(s, env, root, ParentKey(a))
  {
  }

  /** Below an expanded directory whose last cached child is `a`, the
      lowermost descendants of the two agree. */
  lemma LastChildLowermost(s: Store, env: Env, root: string, p: string, a: string)
    requires TreeWf(s.childKeyMap) && IsDirKey(p) && IsExpanded(s, root, p)
    requires |CachedChildKeys(s, env, p)| > 0 && CachedChildKeys(s, env, p)[|CachedChildKeys(s, env, p)| - 1] == a
    ensures LowermostDescendant(s, env, root, p) == LowermostDescendant(s, env, root, a)
  {
  }

  /** Moving down from a listed key and then up comes back to it: from the
      first child to its parent, from the next sibling to this key, and from an
      ancestor's next sibling to this key, the lowermost node above it. A listed
      key never trips the controller's invariant. */
  lemma MoveDownThenUp(s: Store, env: Env, root: string, k: string)
    requires NavWf(s) && root in s.rootKeys && Visible(s, env, root, k)
    ensures MoveDownFrom(s, env, k) != Throws
    ensures MoveDownFrom(s, env, k).Select? ==>
              MoveUpFrom(s, env, MoveDownFrom(s, env, k).node.nodeKey) == Select(NodeRef(root, k))
  {
    if k != root {
      FrameBelowRoot(s, env, root, k);
    }
    var sibs := Frame(s, env, k).value.1;
    if ShowsChildren(s, env, root, k) {
      UpFromFirstChild(s, env, root, k);
    } else {
      var i := FirstIndex(sibs, k);
      if i < |sibs| - 1 {
        if k == root {
          UpFromNextRoot(s, env, i);
        } else {
          UpFromNextSibling(s, env, root, ParentKey(k), i);
        }
      } else {
        AncestorSiblingThenUp(s, env, root, k);
      }
    }
  }

  // -------------------------------------------------------------- the bottom

  /** `a` is the last key listed under `root`'s last child chain: the root, or
      the last cached child of a parent that is such a key. */
  predicate OnLastSpine(s: Store, env: Env, root: string, a: string)
    decreases |a|
  {
    a == root
    || (|a| > |root| && StartsWith(a, root)
        && var cs := CachedChildKeys(s, env, ParentKey(a));
        |cs| > 0 && cs[|cs| - 1] == a && OnLastSpine(s, env, root, ParentKey(a)))
  }

  lemma {:induction false} LowermostOnLastSpine(s: Store, env: Env, root: string, a: string)
    requires NavWf(s) && OnLastSpine(s, env, root, a)
    ensures OnLastSpine(s, env, root, LowermostDescendant(s, env, root, a))
    decreases |FileTreeCollapse.KeysFrom(s.childKeyMap, |a|)|
  {
    if ShowsChildren(s, env, root, a) {
      var cs := CachedChildKeys(s, env, a);
      var c := cs[|cs| - 1];
      CachedChildrenWf(s, env, a);
      FileTreeCollapse.KeysFromShrinks(s.childKeyMap, a, c);
      if a != root {
        PrefixOfPrefix(c, a, root);
      }
      assert OnLastSpine(s, env, root, c);
      LowermostOnLastSpine(s, env, root, c);
    }
  }

  lemma {:induction false} AncestorSiblingOnLastSpine(s: Store, env: Env, root: string, a: string)
    requires NavWf(s) && |s.rootKeys| > 0 && root == s.rootKeys[|s.rootKeys| - 1]
    requires OnLastSpine(s, env, root, a)
    ensures NearestAncestorSibling(s, env, root, a) == Stay
    decreases |a|
  {
    if a == root {
      RootsNoDup(s.rootKeys);
      FirstIndexNoDup(s.rootKeys, |s.rootKeys| - 1);
    } else {
      var p := ParentKey(a);
      ParentStaysUnderRoot(root, a);
      CachedChildrenWf(s, env, p);
      var cs := CachedChildKeys(s, env, p);
      FirstIndexNoDup(cs, |cs| - 1);
      AncestorSiblingOnLastSpine(s, env, root, p);
    }
  }

  /** At the bottom of the tree moving down selects nothing. */
  lemma MoveDownAtBottom(s: Store, env: Env)
    requires NavWf(s) && |s.rootKeys| > 0
    ensures MoveToBottom(s, env).Select?
    ensures MoveDownFrom(s, env, MoveToBottom(s, env).node.nodeKey) == Stay
  {
    RootsNoDup(s.rootKeys);
    var last := s.rootKeys[|s.rootKeys| - 1];
    var k := LowermostDescendant(s, env, last, last);
    LowermostOnLastSpine(s, env, last, last);
    if k in s.rootKeys {
      if k != last {
        BelowRootIsNoRoot(s, last, k);
      }
      FirstIndexNoDup(s.rootKeys, |s.rootKeys| - 1);
    } else {
      RootForKeyUnique(s, last, k);
      ParentStaysUnderRoot(last, k);
      var p := ParentKey(k);
      CachedChildrenWf(s, env, p);
      var cs := CachedChildKeys(s, env, p);
      FirstIndexNoDup(cs, |cs| - 1);
      AncestorSiblingOnLastSpine(s, env, last, k);
    }
  }

  // ------------------------------------------------------------------ reveal

  /** `a` is a directory key from `root` down to `k`, `k` itself excluded. */
  predicate Between(root: string, a: string, k: string) {
    IsDirKey(a) && StartsWith(k, a) && StartsWith(a, root) && a != k
  }

  /** What `revealNodeKey` dispatches to reveal `k` under `root`: every
      directory from the root down to `k` expanded, each after making sure of
      the child below it and in order from the root down, then `k` selected
      and tracked. */
  ghost predicate RevealsUnder(acts: seq<Action>, root: string, k: string) {
    |acts| >= 2
    && acts[|acts| - 2] == SelectSingle(NodeRef(root, k)) && acts[|acts| - 1] == Track(NodeRef(root, k))
    && (forall i :: 0 <= i < |acts| - 2 ==> acts[i].EnsureChild? || acts[i].Expand?)
    && ExpandsBetween(acts, root, k) && ExpandsEvery(acts, root, k)
    && ExpandsTopDown(acts) && EnsuresBeforeExpand(acts, root)
  }

  /** Only the directories from `root` down to `k` are expanded. */
  predicate ExpandsBetween(acts: seq<Action>, root: string, k: string) {
    forall i :: 0 <= i < |acts| && acts[i].Expand? ==> acts[i].node.rootKey == root && Between(root, acts[i].node.nodeKey, k)
  }

  /** Every directory from `root` down to `k` is expanded. */
  ghost predicate ExpandsEvery(acts: seq<Action>, root: string, k: string) {
    forall a :: Between(root, a, k) ==> exists i :: 0 <= i < |acts| && acts[i] == Expand(NodeRef(root, a))
  }

  /** Parents are expanded before their children. */
  predicate ExpandsTopDown(acts: seq<Action>) {
    forall i, j :: 0 <= i < j < |acts| && acts[i].Expand? && acts[j].Expand? ==>
      |acts[i].node.nodeKey| < |acts[j].node.nodeKey|
  }

  /** Each child is made sure of right before its parent is expanded. */
  predicate EnsuresBeforeExpand(acts: seq<Action>, root: string) {
    forall i :: 0 <= i < |acts| && acts[i].EnsureChild? ==>
      acts[i].root == root && ParentKey(acts[i].child) == acts[i].parent
      && i + 1 < |acts| && acts[i + 1] == Expand(NodeRef(root, acts[i].parent))
  }

  /** The keys `revealNodeKey` walks: the root, then each key's child on the
      way to `k`, the keys before `k` being the directories between. */
  ghost predicate RevealChain(keys: seq<string>, root: string, k: string) {
    |keys| > 0 && keys[0] == root && keys[|keys| - 1] == k
    && (forall i :: 0 < i < |keys| ==> keys[i - 1] == ParentKey(keys[i]) && |keys[i - 1]| < |keys[i]|)
    && (forall a :: a in keys[..|keys| - 1] <==> Between(root, a, k))
  }

  /** For each key after the first, make sure of it as a child of the key
      before, then expand that key. */
  function RevealSteps(root: string, keys: seq<string>): (acts: seq<Action>)
    requires |keys| > 0
    ensures |acts| == 2 * (|keys| - 1)
    ensures forall j :: 0 <= j < |acts| ==>
              acts[j] == if j % 2 == 0 then EnsureChild(root, keys[j / 2], keys[j / 2 + 1])
                         else Expand(NodeRef(root, keys[j / 2]))
  {
    seq(2 * (|keys| - 1), j requires 0 <= j < 2 * (|keys| - 1) =>
      if j % 2 == 0 then EnsureChild(root, keys[j / 2], keys[j / 2 + 1])
      else Expand(NodeRef(root, keys[j / 2])))
  }

  lemma {:induction false} LengthsIncrease(keys: seq<string>)
    requires forall i :: 0 < i < |keys| ==> |keys[i - 1]| < |keys[i]|
    ensures forall i, j :: 0 <= i < j < |keys| ==> |keys[i]| < |keys[j]|
  {
    if |keys| > 1 {
      var rest := keys[1..];
      assert forall j :: 1 <= j < |keys| ==> keys[j] == rest[j - 1];
      LengthsIncrease(rest);
      forall i, j | 0 <= i < j < |keys| ensures |keys[i]| < |keys[j]| {
        if i > 0 {
          assert |rest[i - 1]| < |rest[j - 1]|;
        } else if j > 1 {
          assert |rest[0]| < |rest[j - 1]|;
        }
      }
    }
  }

  function RevealActions(root: string, keys: seq<string>, k: string): (acts: seq<Action>)
    requires |keys| > 0
    ensures |acts| == 2 * |keys|
  {
    RevealSteps(root, keys) + [SelectSingle(NodeRef(root, k)), Track(NodeRef(root, k))]
  }

  lemma RevealActionsExpandBetween(root: string, keys: seq<string>, k: string)
    requires RevealChain(keys, root, k)
    ensures ExpandsBetween(RevealActions(root, keys, k), root, k)
  {
    var acts := RevealActions(root, keys, k);
    forall i | 0 <= i < |acts| && acts[i].Expand?
      ensures acts[i].node.rootKey == root && Between(root, acts[i].node.nodeKey, k)
    {
      assert i < 2 * (|keys| - 1);
      assert acts[i] == Expand(NodeRef(root, keys[i / 2]));
      assert keys[i / 2] in keys[..|keys| - 1];
    }
  }

  lemma RevealActionsExpandEvery(root: string, keys: seq<string>, k: string)
    requires RevealChain(keys, root, k)
    ensures ExpandsEvery(RevealActions(root, keys, k), root, k)
  {
    var acts := RevealActions(root, keys, k);
    forall a | Between(root, a, k)
      ensures exists i :: 0 <= i < |acts| && acts[i] == Expand(NodeRef(root, a))
    {
      var m :| 0 <= m < |keys| - 1 && keys[..|keys| - 1][m] == a;
      assert (2 * m + 1) / 2 == m && (2 * m + 1) % 2 == 1;
      assert acts[2 * m + 1] == Expand(NodeRef(root, a));
    }
  }

  lemma RevealActionsTopDown(root: string, keys: seq<string>, k: string)
    requires RevealChain(keys, root, k)
    ensures ExpandsTopDown(RevealActions(root, keys, k))
  {
    var acts := RevealActions(root, keys, k);
    LengthsIncrease(keys);
    forall i, j | 0 <= i < j < |acts| && acts[i].Expand? && acts[j].Expand?
      ensures |acts[i].node.nodeKey| < |acts[j].node.nodeKey|
    {
      assert j < 2 * (|keys| - 1);
      assert acts[i] == Expand(NodeRef(root, keys[i / 2])) && acts[j] == Expand(NodeRef(root, keys[j / 2]));
      assert i % 2 == 1 && j % 2 == 1;
      assert i / 2 < j / 2;
    }
  }

  lemma RevealActionsPairs(root: string, keys: seq<string>, k: string)
    requires RevealChain(keys, root, k)
    ensures EnsuresBeforeExpand(RevealActions(root, keys, k), root)
  {
    var acts := RevealActions(root, keys, k);
    forall i | 0 <= i < |acts| && acts[i].EnsureChild?
      ensures acts[i].root == root && ParentKey(acts[i].child) == acts[i].parent
              && i + 1 < |acts| && acts[i + 1] == Expand(NodeRef(root, acts[i].parent))
    {
      assert i < 2 * (|keys| - 1) && i % 2 == 0;
      assert (i + 1) / 2 == i / 2 && (i + 1) % 2 == 1;
    }
  }

  lemma AncestorsChain(root: string, k: string)
    requires IsDirKey(root) && StartsWith(k, root)
    ensures RevealChain([root] + AncestorsBelow(root, k), root, k)
  {
    var path := AncestorsBelow(root, k);
    var keys := [root] + path;
    forall i | 0 < i < |keys| ensures keys[i - 1] == ParentKey(keys[i]) && |keys[i - 1]| < |keys[i]| {
      assert keys[i] == path[i - 1] && |path[i - 1]| > 0;
      if i > 1 {
        assert keys[i - 1] == path[i - 2];
      }
    }
    AncestorsBetween(root, k);
  }

  lemma AncestorsBetween(root: string, k: string)
    requires IsDirKey(root) && StartsWith(k, root)
    ensures var keys := [root] + AncestorsBelow(root, k);
            forall a :: a in keys[..|keys| - 1] <==> Between(root, a, k)
  {
    var path := AncestorsBelow(root, k);
    var keys := [root] + path;
    assert keys[..|keys| - 1] == ([root] + path)[..|path|];
    forall a ensures a in ([root] + path)[..|path|] <==> Between(root, a, k) {
      AncestorsAreDirPrefixes(root, k, a);
    }
  }

  lemma RevealActionsEnds(root: string, keys: seq<string>, k: string)
    requires |keys| > 0
    ensures var acts := RevealActions(root, keys, k);
            |acts| >= 2
            && acts[|acts| - 2] == SelectSingle(NodeRef(root, k)) && acts[|acts| - 1] == Track(NodeRef(root, k))
            && (forall i :: 0 <= i < |acts| - 2 ==> acts[i].EnsureChild? || acts[i].Expand?)
  {
  }

  lemma RevealStepsReveal(root: string, k: string)
    requires IsDirKey(root) && StartsWith(k, root)
    ensures RevealsUnder(RevealActions(root, [root] + AncestorsBelow(root, k), k), root, k)
  {
    var keys := [root] + AncestorsBelow(root, k);
    AncestorsChain(root, k);
    RevealActionsEnds(root, keys, k);
    RevealActionsExpandBetween(root, keys, k);
    RevealActionsExpandEvery(root, keys, k);
    RevealActionsTopDown(root, keys, k);
    RevealActionsPairs(root, keys, k);
  }

  /** `revealNodeKey(nodeKey)`: nothing for a missing or empty key or one no
      root contains; otherwise the actions that reveal it under its root. */
  function RevealNodeKey(s: Store, k: Option<string>): (acts: seq<Action>)
    requires forall i :: 0 <= i < |s.rootKeys| ==> IsDirKey(s.rootKeys[i])
    ensures k.None? || k.value == "" || RootForKey(s, k.value).None? <==> acts == []
    ensures acts != [] ==> RevealsUnder(acts, RootForKey(s, k.value).value, k.value)
  {
    if k.None? || k.value == "" then []
    else
      match RootForKey(s, k.value)
      case None => []
      case Some(root) =>
        RevealStepsReveal(root, k.value);
        RevealActions(root, [root] + AncestorsBelow(root, k.value), k.value)
  }

  // -------------------------------------------------------------- collapsing

  /** `getSelectedNodes()`: each root's selected keys as nodes, roots in order. */
  function SelectedNodes(s: Store, roots: seq<string>): (nodes: seq<NodeRef>)
    ensures forall n :: n in nodes <==> n.rootKey in roots && IsSelected(s, n.rootKey, n.nodeKey)
  {
    if |roots| == 0 then []
    else
      var keys := SelectedKeys(s, roots[0]);
      var here := seq(|keys|, i requires 0 <= i < |keys| => NodeRef(roots[0], keys[i]));
      var rest := SelectedNodes(s, roots[1..]);
      assert forall n :: n in here <==> n.rootKey == roots[0] && n.nodeKey in keys by {
        forall n: NodeRef | n.rootKey == roots[0] && n.nodeKey in keys ensures n in here {
          var i :| 0 <= i < |keys| && keys[i] == n.nodeKey;
          assert here[i] == n;
        }
      }
      assert forall r :: r in roots <==> r == roots[0] || r in roots[1..];
      here + rest
  }

  /** A node `FileTreeNode` calls a root: its key is its root key. */
  predicate IsRootNode(n: NodeRef) {
    n.rootKey == n.nodeKey
  }

  /** The case in which `_collapseSelection` reveals the parent instead: a
      single selected node that is neither a root nor an expanded directory. */
  predicate SelectsParent(s: Store) {
    var nodes := SelectedNodes(s, s.rootKeys);
    |nodes| == 1 && !IsRootNode(nodes[0])
    && !(IsDirKey(nodes[0].nodeKey) && IsExpanded(s, nodes[0].rootKey, nodes[0].nodeKey))
  }

  function CollapseAction(n: NodeRef, deep: bool): Action {
    if deep then CollapseDeep(n) else Collapse(n)
  }

  /** One collapse per directory node, in order. */
  function CollapseEach(nodes: seq<NodeRef>, deep: bool): (acts: seq<Action>)
    ensures forall i :: 0 <= i < |acts| ==>
              (if deep then acts[i].CollapseDeep? else acts[i].Collapse?)
              && acts[i].node in nodes && IsDirKey(acts[i].node.nodeKey)
    ensures forall n :: n in nodes && IsDirKey(n.nodeKey) ==> CollapseAction(n, deep) in acts
  {
    if |nodes| == 0 then []
    else
      var rest := CollapseEach(nodes[1..], deep);
      assert forall n :: n in nodes ==> n == nodes[0] || n in nodes[1..];
      (if IsDirKey(nodes[0].nodeKey) then [CollapseAction(nodes[0], deep)] else []) + rest
  }

  /** `_collapseSelection(deep)`: collapse every selected directory, or, for a
      single selected file or collapsed directory below a root, reveal its
      parent (selecting it). */
  function CollapseSelection(s: Store, deep: bool): (acts: seq<Action>)
    requires forall i :: 0 <= i < |s.rootKeys| ==> IsDirKey(s.rootKeys[i])
    // the single-node case collapses nothing and ends on the parent
    ensures SelectsParent(s) ==>
              var n := SelectedNodes(s, s.rootKeys)[0];
              (forall i :: 0 <= i < |acts| ==> !acts[i].Collapse? && !acts[i].CollapseDeep?)
              && (acts != [] ==> RootForKey(s, ParentKey(n.nodeKey)).Some?
                                 && RevealsUnder(acts, RootForKey(s, ParentKey(n.nodeKey)).value, ParentKey(n.nodeKey)))
              && (acts == [] <==> ParentKey(n.nodeKey) == "" || RootForKey(s, ParentKey(n.nodeKey)).None?)
    // otherwise exactly the selected directories, nodes of the roots, are collapsed
    ensures !SelectsParent(s) ==>
              (forall i :: 0 <= i < |acts| ==>
                 (if deep then acts[i].CollapseDeep? else acts[i].Collapse?) && acts[i].node.rootKey in s.rootKeys
                 && IsSelected(s, acts[i].node.rootKey, acts[i].node.nodeKey) && IsDirKey(acts[i].node.nodeKey))
              && (forall n: NodeRef :: n.rootKey in s.rootKeys && IsSelected(s, n.rootKey, n.nodeKey) && IsDirKey(n.nodeKey) ==>
                    CollapseAction(n, deep) in acts)
  {
    if SelectsParent(s) then RevealParent(s) else CollapseSelected(s, deep)
  }

  /** The single selected node's parent revealed; nothing is collapsed. */
  function RevealParent(s: Store): (acts: seq<Action>)
    requires forall i :: 0 <= i < |s.rootKeys| ==> IsDirKey(s.rootKeys[i])
    requires SelectsParent(s)
    ensures var n := SelectedNodes(s, s.rootKeys)[0];
            (forall i :: 0 <= i < |acts| ==> !acts[i].Collapse? && !acts[i].CollapseDeep?)
            && (acts != [] ==> RootForKey(s, ParentKey(n.nodeKey)).Some?
                               && RevealsUnder(acts, RootForKey(s, ParentKey(n.nodeKey)).value, ParentKey(n.nodeKey)))
            && (acts == [] <==> ParentKey(n.nodeKey) == "" || RootForKey(s, ParentKey(n.nodeKey)).None?)
  {
    var k := ParentKey(SelectedNodes(s, s.rootKeys)[0].nodeKey);
    var acts := RevealNodeKey(s, Some(k));
    if acts != [] then
      RevealsNoCollapse(acts, RootForKey(s, k).value, k);
      acts
    else acts
  }

  /** Revealing collapses nothing. */
  lemma RevealsNoCollapse(acts: seq<Action>, root: string, k: string)
    requires RevealsUnder(acts, root, k)
    ensures forall i :: 0 <= i < |acts| ==> !acts[i].Collapse? && !acts[i].CollapseDeep?
  {
    forall i | 0 <= i < |acts| ensures !acts[i].Collapse? && !acts[i].CollapseDeep? {
      if i < |acts| - 2 {
        assert acts[i].EnsureChild? || acts[i].Expand?;
      }
    }
  }

  /** Every selected directory collapsed. */
  function CollapseSelected(s: Store, deep: bool): (acts: seq<Action>)
    ensures forall i :: 0 <= i < |acts| ==>
              (if deep then acts[i].CollapseDeep? else acts[i].Collapse?) && acts[i].node.rootKey in s.rootKeys
              && IsSelected(s, acts[i].node.rootKey, acts[i].node.nodeKey) && IsDirKey(acts[i].node.nodeKey)
    ensures forall n: NodeRef :: n.rootKey in s.rootKeys && IsSelected(s, n.rootKey, n.nodeKey) && IsDirKey(n.nodeKey) ==>
              CollapseAction(n, deep) in acts
  {
    CollapseEach(SelectedNodes(s, s.rootKeys), deep)
  }
}
