/** `FileTreeStore.getVisibleNodes`: the nodes the file tree lists under one
    root. A walk pops directory keys off a stack, lists each one, then its
    file children, and pushes its directory children when it is expanded
    under the root. A directory whose children are not cached, or are marked
    dirty, is listed without them. As written, the file children of a popped
    directory are listed whether or not it is expanded; `gated` switches on
    the check that the directory children already have. */
module FileTreeVisible {
  import opened Seqs
  import opened Paths
  import opened FileTreeStore
  import FileTreeCollapse
  import FileTreeExpansion
  import FileTreeController

  /** Whether the walk reads the children of `k`: they are cached and not dirty. */
  predicate ChildrenKnown(s: Store, k: string) {
    k in s.childKeyMap && k !in s.dirty
  }

  /** The file keys among `cs`, in order, each listed under `k`. */
  function FileRefs(k: string, cs: seq<string>): (refs: seq<NodeRef>)
    ensures forall n :: n in refs <==> n.rootKey == k && n.nodeKey in cs && !IsDirKey(n.nodeKey)
    ensures |refs| <= |cs|
  {
    if |cs| == 0 then []
    else
      var c := cs[|cs| - 1];
      assert cs == cs[..|cs| - 1] + [c];
      FileRefs(k, cs[..|cs| - 1]) + (if IsDirKey(c) then [] else [NodeRef(k, c)])
  }

  /** Everything the walk lists from popping `k` until the stack is back to
      what it held below `k`: `k` itself, its file children, then what each
      of its directory children lists, the last one first because it was
      pushed last. */
  function Listed(s: Store, root: string, k: string, gated: bool): seq<NodeRef>
    requires TreeWf(s.childKeyMap)
    decreases |FileTreeCollapse.KeysFrom(s.childKeyMap, |k|)|, 1, 0
  {
    if !ChildrenKnown(s, k) then [NodeRef(k, k)]
    else
      var cs := s.childKeyMap[k];
      var expanded := IsExpanded(s, root, k);
      [NodeRef(k, k)]
      + (if expanded || !gated then FileRefs(k, cs) else [])
      + (if expanded then ListedDirs(s, root, k, FileTreeExpansion.DirKeys(cs), gated) else [])
  }

  /** What the children `ds` of `k` list once pushed, the last one first. */
  function ListedDirs(s: Store, root: string, k: string, ds: seq<string>, gated: bool): seq<NodeRef>
    requires TreeWf(s.childKeyMap) && k in s.childKeyMap
    requires forall d :: d in ds ==> d in s.childKeyMap[k]
    decreases |FileTreeCollapse.KeysFrom(s.childKeyMap, |k|)|, 0, |ds|
  {
    if |ds| == 0 then []
    else
      var d := ds[|ds| - 1];
      FileTreeCollapse.KeysFromShrinks(s.childKeyMap, k, d);
      Listed(s, root, d, gated) + ListedDirs(s, root, k, ds[..|ds| - 1], gated)
  }

  /** What a stack of keys still lists, the top (last) key first. */
  function ListedStack(s: Store, root: string, stack: seq<string>, gated: bool): seq<NodeRef>
    requires TreeWf(s.childKeyMap)
  {
    if |stack| == 0 then []
    else Listed(s, root, stack[|stack| - 1], gated) + ListedStack(s, root, stack[..|stack| - 1], gated)
  }

  // ------------------------------------------------------------------ the walk

  /** `getVisibleNodes(rootKey)`: nothing for a key that is not a root, the
      root alone when it is collapsed, and otherwise what the stack walk lists
      from the root. `gated` false is the code as written. */
  method VisibleNodes(s: Store, root: string, gated: bool) returns (nodes: seq<NodeRef>)
    requires TreeWf(s.childKeyMap)
    ensures !IsRootKey(s, root) ==> nodes == []
    ensures IsRootKey(s, root) && !IsExpanded(s, root, root) ==> nodes == [NodeRef(root, root)]
    ensures IsRootKey(s, root) && IsExpanded(s, root, root) ==> nodes == Listed(s, root, root, gated)
  {
    if !IsRootKey(s, root) {
      return [];
    }
    if !IsExpanded(s, root, root) {
      return [NodeRef(root, root)];
    }
    nodes := [];
    var stack := [root];
    ghost var target := Listed(s, root, root, gated);
    StackTop(s, root, [], root, gated);
    assert [] + [root] == stack;
    while |stack| != 0
      invariant nodes + ListedStack(s, root, stack, gated) == target
      decreases |ListedStack(s, root, stack, gated)|
    {
      var key := stack[|stack| - 1];
      var rest := stack[..|stack| - 1];
      var files, dirs := ReadChildren(s, root, key, gated);
      PopAdvances(s, root, gated, target, nodes, stack, files, dirs);
      nodes := nodes + ([NodeRef(key, key)] + files);
      stack := rest + dirs;
    }
  }

  /** One turn of the walk keeps what is listed plus what the stack still
      lists equal to the whole listing, and shrinks what the stack lists. */
  lemma PopAdvances(s: Store, root: string, gated: bool, target: seq<NodeRef>, done: seq<NodeRef>,
                    stack: seq<string>, files: seq<NodeRef>, dirs: seq<string>)
    requires TreeWf(s.childKeyMap) && |stack| > 0
    requires done + ListedStack(s, root, stack, gated) == target
    requires files == PoppedFiles(s, root, stack[|stack| - 1], gated)
    requires dirs == PushedDirs(s, root, stack[|stack| - 1])
    ensures (done + ([NodeRef(stack[|stack| - 1], stack[|stack| - 1])] + files))
            + ListedStack(s, root, stack[..|stack| - 1] + dirs, gated) == target
    ensures |ListedStack(s, root, stack[..|stack| - 1] + dirs, gated)| < |ListedStack(s, root, stack, gated)|
  {
    var key := stack[|stack| - 1];
    var rest := stack[..|stack| - 1];
    assert stack == rest + [key];
    PopStep(s, root, rest, key, gated);
    Shift(target, done, ListedStack(s, root, stack, gated),
          done + ([NodeRef(key, key)] + files), [NodeRef(key, key)] + files, ListedStack(s, root, rest + dirs, gated));
  }

  /** The loop over one popped key's cached children: the file nodes it
      lists, and the directory keys it pushes, in order. */
  method ReadChildren(s: Store, root: string, key: string, gated: bool) returns (files: seq<NodeRef>, dirs: seq<string>)
    ensures files == PoppedFiles(s, root, key, gated)
    ensures dirs == PushedDirs(s, root, key)
  {
    files, dirs := [], [];
    if key in s.childKeyMap && key !in s.dirty {
      var cs := s.childKeyMap[key];
      var expanded := IsExpanded(s, root, key);
      for i := 0 to |cs|
        invariant dirs == (if expanded then FileTreeExpansion.DirKeys(cs[..i]) else [])
        invariant files == (if expanded || !gated then FileRefs(key, cs[..i]) else [])
      {
        assert cs[..i + 1] == cs[..i] + [cs[i]];
        DirKeysSnoc(cs[..i], cs[i]);
        assert cs[..i + 1][..i] == cs[..i];
        if IsDirKey(cs[i]) {
          if expanded {
            dirs := dirs + [cs[i]];
          }
        } else if expanded || !gated {
          files := files + [NodeRef(key, cs[i])];
        }
      }
      assert cs[..|cs|] == cs;
    }
  }

  /** The file children the walk lists when it pops `k`. */
  function PoppedFiles(s: Store, root: string, k: string, gated: bool): seq<NodeRef> {
    if ChildrenKnown(s, k) && (IsExpanded(s, root, k) || !gated) then FileRefs(k, s.childKeyMap[k]) else []
  }

  /** The directory children the walk pushes when it pops `k`. */
  function PushedDirs(s: Store, root: string, k: string): seq<string> {
    if ChildrenKnown(s, k) && IsExpanded(s, root, k) then FileTreeExpansion.DirKeys(s.childKeyMap[k]) else []
  }

  /** The top of a stack lists first. */
  lemma StackTop(s: Store, root: string, rest: seq<string>, k: string, gated: bool)
    requires TreeWf(s.childKeyMap)
    ensures ListedStack(s, root, rest + [k], gated) == Listed(s, root, k, gated) + ListedStack(s, root, rest, gated)
  {
    assert (rest + [k])[..|rest + [k]| - 1] == rest;
  }

  /** What `k` lists is itself, its files, and then what its pushed children
      list from the stack. */
  lemma ListedUnfold(s: Store, root: string, k: string, gated: bool)
    requires TreeWf(s.childKeyMap)
    ensures Listed(s, root, k, gated)
         == [NodeRef(k, k)] + PoppedFiles(s, root, k, gated) + ListedStack(s, root, PushedDirs(s, root, k), gated)
  {
    if ChildrenKnown(s, k) && IsExpanded(s, root, k) {
      DirsAsStack(s, root, k, PushedDirs(s, root, k), gated);
    }
  }

  /** Popping `k` lists it and its files, and leaves its pushed children to
      list before the rest of the stack. */
  lemma PopStep(s: Store, root: string, rest: seq<string>, k: string, gated: bool)
    requires TreeWf(s.childKeyMap)
    ensures ListedStack(s, root, rest + [k], gated)
         == [NodeRef(k, k)] + PoppedFiles(s, root, k, gated) + ListedStack(s, root, rest + PushedDirs(s, root, k), gated)
  {
    var dirs := PushedDirs(s, root, k);
    StackTop(s, root, rest, k, gated);
    ListedUnfold(s, root, k, gated);
    StackAppend(s, root, rest, dirs, gated);
    Regroup(ListedStack(s, root, rest + [k], gated), Listed(s, root, k, gated), ListedStack(s, root, rest, gated),
            [NodeRef(k, k)] + PoppedFiles(s, root, k, gated), ListedStack(s, root, dirs, gated),
            ListedStack(s, root, rest + dirs, gated));
  }

  lemma Regroup<T>(a: seq<T>, l: seq<T>, r: seq<T>, x: seq<T>, d: seq<T>, b: seq<T>)
    requires a == l + r && l == x + d && b == d + r
    ensures a == x + b
  {
  }

  lemma Shift<T>(t: seq<T>, p: seq<T>, r: seq<T>, n: seq<T>, d: seq<T>, b: seq<T>)
    requires t == p + r && r == d + b && n == p + d && |d| > 0
    ensures t == n + b && |b| < |r|
  {
  }

  lemma {:induction false} DirKeysSnoc(cs: seq<string>, c: string)
    ensures FileTreeExpansion.DirKeys(cs + [c]) == FileTreeExpansion.DirKeys(cs) + (if IsDirKey(c) then [c] else [])
    decreases |cs|
  {
    if |cs| > 0 {
      assert (cs + [c])[1..] == cs[1..] + [c];
      DirKeysSnoc(cs[1..], c);
    }
  }

  /** Pushing more keys lists theirs first, then what was below. */
  lemma {:induction false} StackAppend(s: Store, root: string, a: seq<string>, b: seq<string>, gated: bool)
    requires TreeWf(s.childKeyMap)
    ensures ListedStack(s, root, a + b, gated) == ListedStack(s, root, b, gated) + ListedStack(s, root, a, gated)
    decreases |b|
  {
    if |b| == 0 {
      assert a + b == a;
    } else {
      assert (a + b)[..|a + b| - 1] == a + b[..|b| - 1];
      StackAppend(s, root, a, b[..|b| - 1], gated);
    }
  }

  /** The children of a directory list from the stack as they do below it. */
  lemma {:induction false} DirsAsStack(s: Store, root: string, k: string, ds: seq<string>, gated: bool)
    requires TreeWf(s.childKeyMap) && k in s.childKeyMap
    requires forall d :: d in ds ==> d in s.childKeyMap[k]
    ensures ListedDirs(s, root, k, ds, gated) == ListedStack(s, root, ds, gated)
    decreases |ds|
  {
    if |ds| > 0 {
      DirsAsStack(s, root, k, ds[..|ds| - 1], gated);
    }
  }

  // -------------------------------------------------------- what gets listed

  /** The node the walk lists for key `k`: a directory as its own node, a
      file under its parent. */
  function Entry(k: string): NodeRef {
    if IsDirKey(k) then NodeRef(k, k) else NodeRef(ParentKey(k), k)
  }

  /** Whether `k` is visible under `root`: the root itself, or a cached child
      of a visible directory that is expanded under the root and not dirty. */
  predicate Listable(s: Store, root: string, k: string)
    decreases |k|
  {
    k == root
    || (|k| > 0 && ChildrenKnown(s, ParentKey(k)) && k in s.childKeyMap[ParentKey(k)]
        && IsExpanded(s, root, ParentKey(k)) && Listable(s, root, ParentKey(k)))
  }

  /** A stack lists exactly what its keys list. */
  lemma {:induction false} InStack(s: Store, root: string, ds: seq<string>, gated: bool, n: NodeRef)
    requires TreeWf(s.childKeyMap)
    ensures n in ListedStack(s, root, ds, gated) <==> exists d :: d in ds && n in Listed(s, root, d, gated)
    decreases |ds|
  {
    if |ds| > 0 {
      var d := ds[|ds| - 1];
      var init := ds[..|ds| - 1];
      InStack(s, root, init, gated, n);
      assert ListedStack(s, root, ds, gated) == Listed(s, root, d, gated) + ListedStack(s, root, init, gated);
      assert ds == init + [d];
      if n in ListedStack(s, root, ds, gated) && n !in Listed(s, root, d, gated) {
        var e :| e in init && n in Listed(s, root, e, gated);
        assert e in ds;
      }
      if e :| e in ds && n in Listed(s, root, e, gated) {
        if e != d {
          assert e in init;
        }
      }
    }
  }

  /** A node is listed from `k` when it is `k`, one of its listed files, or
      listed from a child directory it pushes. */
  lemma InListed(s: Store, root: string, k: string, gated: bool, n: NodeRef)
    requires TreeWf(s.childKeyMap)
    ensures n in Listed(s, root, k, gated)
        <==> n == NodeRef(k, k) || n in PoppedFiles(s, root, k, gated)
             || exists d :: d in PushedDirs(s, root, k) && n in Listed(s, root, d, gated)
  {
    ListedUnfold(s, root, k, gated);
    InStack(s, root, PushedDirs(s, root, k), gated, n);
  }

  /** The walk lists every node below a directory it pops. */
  lemma {:induction false} Sublisting(s: Store, root: string, k: string, p: string, gated: bool, n: NodeRef)
    requires TreeWf(s.childKeyMap)
    requires NodeRef(p, p) in Listed(s, root, k, gated) && n in Listed(s, root, p, gated)
    ensures n in Listed(s, root, k, gated)
    decreases |FileTreeCollapse.KeysFrom(s.childKeyMap, |k|)|
  {
    if p != k {
      var d := ListedFrom(s, root, k, gated, NodeRef(p, p));
      PushedShrinks(s, root, k, d);
      Sublisting(s, root, d, p, gated, n);
      ListedBelow(s, root, k, d, gated, n);
    }
  }

  /** A node listed from `k` that is not one of `k`'s own lines comes from a
      child directory `k` pushes. */
  lemma ListedFrom(s: Store, root: string, k: string, gated: bool, n: NodeRef) returns (d: string)
    requires TreeWf(s.childKeyMap)
    requires n in Listed(s, root, k, gated) && n.rootKey != k
    ensures d in PushedDirs(s, root, k) && n in Listed(s, root, d, gated)
  {
    InListed(s, root, k, gated, n);
    d :| d in PushedDirs(s, root, k) && n in Listed(s, root, d, gated);
  }

  /** What a pushed child lists is listed from its parent. */
  lemma ListedBelow(s: Store, root: string, k: string, d: string, gated: bool, n: NodeRef)
    requires TreeWf(s.childKeyMap)
    requires d in PushedDirs(s, root, k) && n in Listed(s, root, d, gated)
    ensures n in Listed(s, root, k, gated)
  {
    InListed(s, root, k, gated, n);
  }

  /** A pushed child is a longer cached key. */
  lemma PushedShrinks(s: Store, root: string, k: string, d: string)
    requires TreeWf(s.childKeyMap)
    requires d in PushedDirs(s, root, k)
    ensures |FileTreeCollapse.KeysFrom(s.childKeyMap, |d|)| < |FileTreeCollapse.KeysFrom(s.childKeyMap, |k|)|
  {
    FileTreeCollapse.KeysFromShrinks(s.childKeyMap, k, d);
  }

  /** Every visible key's node is listed, with or without the gate. */
  lemma {:induction false} ListableListed(s: Store, root: string, k: string, gated: bool)
    requires FileTreeController.ChildrenWf(s.childKeyMap) && IsDirKey(root)
    requires Listable(s, root, k)
    ensures Entry(k) in Listed(s, root, root, gated)
    decreases |k|
  {
    if k == root {
      InListed(s, root, root, gated, Entry(root));
    } else {
      var p := ParentKey(k);
      ListableListed(s, root, p, gated);
      assert Entry(p) == NodeRef(p, p);
      InListed(s, root, p, gated, Entry(k));
      if IsDirKey(k) {
        InListed(s, root, k, gated, Entry(k));
        assert k in PushedDirs(s, root, p);
      } else {
        assert Entry(k) in PoppedFiles(s, root, p, gated);
      }
      Sublisting(s, root, root, p, gated, Entry(k));
    }
  }

  /** With the gate, everything listed below a visible directory is visible
      and listed as its own entry. */
  lemma {:induction false} ListedListable(s: Store, root: string, k: string)
    requires FileTreeController.ChildrenWf(s.childKeyMap)
    requires Listable(s, root, k) && IsDirKey(k)
    ensures forall n :: n in Listed(s, root, k, true) ==> n == Entry(n.nodeKey) && Listable(s, root, n.nodeKey)
    decreases |FileTreeCollapse.KeysFrom(s.childKeyMap, |k|)|
  {
    forall n | n in Listed(s, root, k, true)
      ensures n == Entry(n.nodeKey) && Listable(s, root, n.nodeKey)
    {
      InListed(s, root, k, true, n);
      if n in PoppedFiles(s, root, k, true) {
        assert ParentKey(n.nodeKey) == k;
      } else if n != NodeRef(k, k) {
        var d :| d in PushedDirs(s, root, k) && n in Listed(s, root, d, true);
        assert ParentKey(d) == k;
        FileTreeCollapse.KeysFromShrinks(s.childKeyMap, k, d);
        ListedListable(s, root, d);
      }
    }
  }

  /** With the gate, the walk from an expanded root lists exactly the visible
      keys, each as its own entry. */
  lemma VisibleNodesAreListable(s: Store, root: string)
    requires FileTreeController.ChildrenWf(s.childKeyMap) && IsDirKey(root)
    ensures forall n :: n in Listed(s, root, root, true) ==> n == Entry(n.nodeKey) && Listable(s, root, n.nodeKey)
    ensures forall k :: Listable(s, root, k) ==> Entry(k) in Listed(s, root, root, true)
  {
    ListedListable(s, root, root);
    forall k | Listable(s, root, k)
      ensures Entry(k) in Listed(s, root, root, true)
    {
      ListableListed(s, root, k, true);
    }
  }

  // ------------------------------------------------------------ as written

  /** As written, a file of a directory that is collapsed under the root but
      has clean cached children is listed, although it is not visible; with
      the gate it is not listed. */
  lemma CollapsedFilesListed(s: Store, root: string, d: string, f: string)
    requires FileTreeController.ChildrenWf(s.childKeyMap) && IsDirKey(root)
    requires ChildrenKnown(s, root) && IsExpanded(s, root, root) && d in s.childKeyMap[root] && IsDirKey(d)
    requires ChildrenKnown(s, d) && !IsExpanded(s, root, d) && f in s.childKeyMap[d] && !IsDirKey(f)
    ensures NodeRef(d, f) in Listed(s, root, root, false)
    ensures !Listable(s, root, f)
    ensures NodeRef(d, f) !in Listed(s, root, root, true)
  {
    var n := NodeRef(d, f);
    assert n in PoppedFiles(s, root, d, false);
    InListed(s, root, d, false, n);
    assert d in PushedDirs(s, root, root);
    ListedBelow(s, root, root, d, false, n);
    assert ParentKey(f) == d;
    VisibleNodesAreListable(s, root);
  }

  /** Two roots, `/x/` and `/x/y/`, the second also a directory of the first.
      `/x/y/` is collapsed under `/x/` but expanded as its own root, so
      collapsing it under `/x/` kept its watcher and left it clean. */
  function NestedRoots(): Store {
    Defaults().(
      rootKeys := ["/x/", "/x/y/"],
      childKeyMap := map["/x/" := ["/x/y/"], "/x/y/" := ["/x/y/f"]],
      expandedKeysByRoot := map["/x/" := {"/x/"}, "/x/y/" := {"/x/y/"}],
      subscriptions := {"/x/", "/x/y/"})
  }

  /** Nested roots reach that state: `/x/y/f` is a file of the clean,
      collapsed `/x/y/` below the expanded root `/x/`, and `/x/y/` keeps its
      watcher because the other root has it expanded. */
  lemma NestedRootsCollapsed()
    ensures HasOtherSubscriber(NestedRoots(), "/x/", "/x/y/")
    ensures FileTreeController.ChildrenWf(NestedRoots().childKeyMap) && IsDirKey("/x/")
    ensures ChildrenKnown(NestedRoots(), "/x/") && IsExpanded(NestedRoots(), "/x/", "/x/")
    ensures "/x/y/" in NestedRoots().childKeyMap["/x/"] && IsDirKey("/x/y/")
    ensures ChildrenKnown(NestedRoots(), "/x/y/") && !IsExpanded(NestedRoots(), "/x/", "/x/y/")
    ensures "/x/y/f" in NestedRoots().childKeyMap["/x/y/"] && !IsDirKey("/x/y/f")
  {
    var s := NestedRoots();
    assert s.rootKeys[1] == "/x/y/";
    assert ParentKey("/x/y/f") == "/x/y/" by {
      assert Paths.LastSlashBefore("/x/y/f", 5) == 4;
    }
    assert ParentKey("/x/y/") == "/x/" by {
      assert Paths.LastSlashBefore("/x/y/", 4) == 2;
    }
    assert "/x/y/" != "/x/";
  }
}
