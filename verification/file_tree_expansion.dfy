/** Expanding nodes of the file tree's store
    (pkg/nuclide-file-tree/lib/FileTreeStore.js): `_expandNode` with the
    `previouslyExpanded` memory, and the breadth-first `_expandNodeDeep`. */
module FileTreeExpansion {
  import opened Wrappers
  import opened Seqs
  import opened Text
  import JsObject
  import opened Paths
  import opened FileTreeStore

  /** A record map that is `before` less some keys. */
  predicate RecordsShrink(before: map<string, seq<string>>, after: map<string, seq<string>>) {
    after.Keys <= before.Keys && forall k :: k in after ==> after[k] == before[k]
  }

  /** The part of the store one root's expansion touches: its expanded set and
      its `previouslyExpanded` records. */
  datatype Expansion = Expansion(expanded: set<string>, records: map<string, seq<string>>)

  // ------------------------------------------------------------------ expand

  /** A subset has no more elements than the set. */
  lemma {:induction false} SubsetCard<T>(a: set<T>, b: set<T>)
    requires a <= b
    ensures |a| <= |b|
    decreases a
  {
    if a != {} {
      var x :| x in a;
      SubsetCard(a - {x}, b - {x});
    }
  }

  /** A record map that is `before` less some keys has no more entries. */
  lemma RecordsShrinkCard(before: map<string, seq<string>>, after: map<string, seq<string>>)
    requires RecordsShrink(before, after)
    ensures |after| <= |before|
  {
    SubsetCard(after.Keys, before.Keys);
  }

  /** `_expandNode(rootKey, nodeKey)` on one root: the node joins the expanded
      set and, when a collapse remembered expanded children for it, each of
      them is expanded the same way before the record is dropped. With
      `stale` the record map written at the end is the one read before the
      children were expanded, as the source does; otherwise it is read again.
      The node's own record is set aside while the children are walked: every
      remembered key is longer than the node, so nothing below looks it up. */
  function ExpandFrom(e: Expansion, n: string, stale: bool): (r: Expansion)
    requires MemoryWf(e.records)
    ensures e.expanded + {n} <= r.expanded
    ensures n in e.records ==> forall c :: c in e.records[n] ==> c in r.expanded
    ensures RecordsShrink(e.records, r.records) && n !in r.records
    ensures stale && n in e.records ==> r.records == e.records - {n}
    ensures !stale && n in e.records ==> forall c :: c in e.records[n] ==> c !in r.records
    decreases |e.records|, 1, 0
  {
    var e1 := e.(expanded := e.expanded + {n});
    if n !in e.records then e1
    else
      assert |e.records - {n}| < |e.records| by {
        assert (e.records - {n}).Keys == e.records.Keys - {n};
      }
      var e2 := ExpandChildren(e1.(records := e.records - {n}), e.records[n], 0, stale);
      var pe := if stale then e.records else e2.records;
      e2.(records := pe - {n})
  }

  /** The loop of `_expandNode` over the remembered children `cs[i..]`: each
      ends up expanded and without a record. */
  function ExpandChildren(e: Expansion, cs: seq<string>, i: nat, stale: bool): (r: Expansion)
    requires MemoryWf(e.records)
    requires i <= |cs|
    ensures e.expanded <= r.expanded
    ensures forall j :: i <= j < |cs| ==> cs[j] in r.expanded && cs[j] !in r.records
    ensures RecordsShrink(e.records, r.records)
    decreases |e.records|, 2, |cs| - i
  {
    if i == |cs| then e
    else
      var e1 := ExpandFrom(e, cs[i], stale);
      RecordsShrinkCard(e.records, e1.records);
      ExpandChildren(e1, cs, i + 1, stale)
  }

  /** Without a record only the node itself joins the expanded set. */
  lemma ExpandFromWithoutRecord(e: Expansion, n: string, stale: bool)
    requires MemoryWf(e.records) && n !in e.records
    ensures ExpandFrom(e, n, stale) == e.(expanded := e.expanded + {n})
  {
  }

  /** The expansion state of one root. */
  function ExpansionOf(s: Store, root: string): Expansion {
    Expansion(ExpandedKeys(s, root), PreviouslyExpanded(s, root))
  }

  /** `_expandNode` on the store; `stale` as in `ExpandFrom`. The source writes
      `previouslyExpanded` only for a node that has a record. Nothing outside
      the root's expansion state changes. */
  function ExpandNodeWith(s: Store, root: string, n: string, stale: bool): (r: Store)
    requires MemoryWf(PreviouslyExpanded(s, root))
    ensures r == s.(expandedKeysByRoot := r.expandedKeysByRoot, previouslyExpanded := r.previouslyExpanded)
    ensures forall q :: q != root ==> ExpansionOf(r, q) == ExpansionOf(s, q)
    ensures n !in PreviouslyExpanded(s, root) ==> r.previouslyExpanded == s.previouslyExpanded
  {
    var e := ExpandFrom(ExpansionOf(s, root), n, stale);
    var s1 := SetExpandedKeys(s, root, e.expanded);
    if n in PreviouslyExpanded(s, root) then SetPreviouslyExpanded(s1, root, e.records) else s1
  }

  /** What `ExpandNodeWith` leaves in the root's expansion state. */
  lemma ExpandNodeWithState(s: Store, root: string, n: string, stale: bool)
    requires MemoryWf(PreviouslyExpanded(s, root))
    ensures var e := ExpandFrom(ExpansionOf(s, root), n, stale);
            ExpandedKeys(ExpandNodeWith(s, root, n, stale), root) == e.expanded
            && PreviouslyExpanded(ExpandNodeWith(s, root, n, stale), root) == e.records
  {
    var e := ExpandFrom(ExpansionOf(s, root), n, stale);
    if n !in PreviouslyExpanded(s, root) {
      ExpandFromWithoutRecord(ExpansionOf(s, root), n, stale);
    }
  }

  /** `_expandNode` as the source writes it: the node and the children a
      collapse remembered for it are expanded and its record is dropped, but
      every other record is written back as it was read before the children
      were expanded. */
  function ExpandNodeAsWritten(s: Store, root: string, n: string): (r: Store)
    requires MemoryWf(PreviouslyExpanded(s, root))
    ensures IsExpanded(r, root, n) && ExpandedKeys(s, root) <= ExpandedKeys(r, root)
    ensures n in PreviouslyExpanded(s, root) ==>
              (forall c :: c in PreviouslyExpanded(s, root)[n] ==> IsExpanded(r, root, c))
              && PreviouslyExpanded(r, root) == PreviouslyExpanded(s, root) - {n}
  {
    ExpandNodeWithState(s, root, n, true);
    ExpandNodeWith(s, root, n, true)
  }

  /** `_expandNode` with the record map read again before the final write:
      the node and its remembered children are expanded, and every record
      they consumed stays consumed. */
  function ExpandNode(s: Store, root: string, n: string): (r: Store)
    requires MemoryWf(PreviouslyExpanded(s, root))
    ensures IsExpanded(r, root, n) && ExpandedKeys(s, root) <= ExpandedKeys(r, root)
    ensures RecordsShrink(PreviouslyExpanded(s, root), PreviouslyExpanded(r, root)) && n !in PreviouslyExpanded(r, root)
    ensures MemoryWf(PreviouslyExpanded(r, root))
    ensures n in PreviouslyExpanded(s, root) ==>
              forall c :: c in PreviouslyExpanded(s, root)[n] ==>
                IsExpanded(r, root, c) && c !in PreviouslyExpanded(r, root)
  {
    ExpandNodeWithState(s, root, n, false);
    ExpandNodeWith(s, root, n, false)
  }

  /** Without a record, expanding only adds the node. */
  lemma ExpandNodeWithoutRecord(s: Store, root: string, n: string)
    requires MemoryWf(PreviouslyExpanded(s, root)) && n !in PreviouslyExpanded(s, root)
    ensures ExpandedKeys(ExpandNode(s, root, n), root) == ExpandedKeys(s, root) + {n}
    ensures ExpandNode(s, root, n) == s.(expandedKeysByRoot := s.expandedKeysByRoot[root := ExpandedKeys(s, root) + {n}])
  {
    ExpandFromWithoutRecord(ExpansionOf(s, root), n, false);
  }

  /** The source's final write brings back the record of a child that the
      child's own expansion had just consumed. */
  lemma ExpandKeepsConsumedRecord()
    ensures var s := Defaults().(previouslyExpanded := map["/" := map["/a/" := ["/a/b/"], "/a/b/" := ["/a/b/c/"]]]);
            "/a/b/" in PreviouslyExpanded(ExpandNodeAsWritten(s, "/", "/a/"), "/")
            && "/a/b/" !in PreviouslyExpanded(ExpandNode(s, "/", "/a/"), "/")
  {
    var s := Defaults().(previouslyExpanded := map["/" := map["/a/" := ["/a/b/"], "/a/b/" := ["/a/b/c/"]]]);
    var pe := PreviouslyExpanded(s, "/");
    assert "/a/" in pe && pe["/a/"] == ["/a/b/"] && "/a/b/" in pe;
    assert "/a/b/" in pe["/a/"];
  }

  // ------------------------------------------------------------- deep expand

  /** The number of nodes after which `_expandNodeDeep` stops. */
  const DeepExpandLimit := 100

  /** The directory keys among `cs`, in order. */
  function DirKeys(cs: seq<string>): (r: seq<string>)
    ensures forall x :: x in r <==> x in cs && IsDirKey(x)
    ensures |r| <= |cs|
  {
    if |cs| == 0 then [] else (if IsDirKey(cs[0]) then [cs[0]] else []) + DirKeys(cs[1..])
  }

  /** What holds of the walk from `n` between two steps: `queue` starts with
      the iterator's current node, `from` and `queuedFrom` say in whose
      children each traversed and each queued key was found. */
  ghost predicate BfsInv(n: string, childKeys: string -> seq<string>, traversed: seq<string>, from: seq<nat>,
                         queue: seq<string>, queuedFrom: seq<nat>, counted: nat)
  {
    && (|queue| > 0 ==> counted < DeepExpandLimit)
    && |traversed| + |queue| <= counted + 1
    && |traversed| <= DeepExpandLimit
    && ((|traversed| > 0 && traversed[0] == n) || (traversed == [] && queue == [n]))
    && |from| == |traversed| && |queuedFrom| == |queue|
    && (forall j :: 0 < j < |traversed| ==>
          IsDirKey(traversed[j]) && from[j] < j && traversed[j] in childKeys(traversed[from[j]]))
    && (|traversed| > 0 ==> forall j :: 0 <= j < |queue| ==>
          IsDirKey(queue[j]) && queuedFrom[j] < |traversed| && queue[j] in childKeys(traversed[queuedFrom[j]]))
    && (counted < DeepExpandLimit ==>
          forall i, c :: 0 <= i < |traversed| && c in childKeys(traversed[i]) && IsDirKey(c) ==>
            c in traversed || c in queue)
  }

  /** One step of `FileTreeStoreBfsIterator`: the current node is traversed
      and its children fetched and counted; its directories are queued while
      the count is under the limit, and otherwise the walk ends. */
  method BfsStep(ghost n: string, childKeys: string -> seq<string>, traversed: seq<string>, ghost from: seq<nat>,
                 queue: seq<string>, ghost queuedFrom: seq<nat>, counted: nat)
    returns (traversed': seq<string>, ghost from': seq<nat>, queue': seq<string>, ghost queuedFrom': seq<nat>, counted': nat)
    requires |queue| > 0 && BfsInv(n, childKeys, traversed, from, queue, queuedFrom, counted)
    ensures BfsInv(n, childKeys, traversed', from', queue', queuedFrom', counted')
    ensures traversed' == traversed + [queue[0]]
    ensures counted' > counted || (counted' == counted && |queue'| < |queue|)
  {
    var k := queue[0];
    traversed', from' := traversed + [k], from + [queuedFrom[0]];
    var cs := childKeys(k);
    counted' := counted + |cs|;
    if counted' < DeepExpandLimit {
      var dirs := DirKeys(cs);
      queue', queuedFrom' := queue[1..] + dirs, queuedFrom[1..] + seq(|dirs|, _ => |traversed|);
      forall j | 0 <= j < |queue'|
        ensures IsDirKey(queue'[j]) && queuedFrom'[j] < |traversed'|
                && queue'[j] in childKeys(traversed'[queuedFrom'[j]])
      {
        if j < |queue| - 1 {
          assert queue'[j] == queue[j + 1] && queuedFrom'[j] == queuedFrom[j + 1];
          if traversed == [] {
            assert false;
          }
          assert traversed'[queuedFrom'[j]] == traversed[queuedFrom[j + 1]];
        } else {
          assert queue'[j] == dirs[j - (|queue| - 1)] && queuedFrom'[j] == |traversed|;
        }
      }
      forall i, c | 0 <= i < |traversed'| && c in childKeys(traversed'[i]) && IsDirKey(c)
        ensures c in traversed' || c in queue'
      {
        if i < |traversed| {
          assert traversed'[i] == traversed[i];
          if c !in traversed && c != k {
            assert c in queue[1..];
          }
        } else {
          assert c in dirs;
        }
      }
    } else {
      queue', queuedFrom' := [], [];
    }
    forall j | 0 < j < |traversed'|
      ensures IsDirKey(traversed'[j]) && from'[j] < j && traversed'[j] in childKeys(traversed'[from'[j]])
    {
      if j < |traversed| {
        assert traversed'[j] == traversed[j] && from'[j] == from[j];
        assert traversed'[from'[j]] == traversed[from[j]];
      } else {
        assert traversed'[j] == queue[0] && from'[j] == queuedFrom[0];
        assert traversed'[from'[j]] == traversed[queuedFrom[0]];
      }
    }
  }

  /** `FileTreeStoreBfsIterator`: breadth-first from `n`, each traversed node's
      children are fetched (`childKeys` answers the fetch) and counted; the
      walk goes on to the queued directories only while the count is under
      the limit. An empty key is falsy and ends the walk at once. Returns the
      traversed keys and the final count. */
  method BfsTraversal(n: string, childKeys: string -> seq<string>) returns (traversed: seq<string>, counted: nat)
    ensures n == "" ==> traversed == []
    ensures n != "" ==> |traversed| > 0 && traversed[0] == n
    ensures |traversed| <= DeepExpandLimit
    // breadth-first: every later node is a directory child of an earlier one
    ensures forall j :: 0 < j < |traversed| ==>
              IsDirKey(traversed[j]) && exists i :: 0 <= i < j && traversed[j] in childKeys(traversed[i])
    // a walk that stopped under the limit reached every directory below
    ensures counted < DeepExpandLimit ==>
              forall i, c :: 0 <= i < |traversed| && c in childKeys(traversed[i]) && IsDirKey(c) ==> c in traversed
  {
    if n == "" {
      return [], 0;
    }
    traversed, counted := [], 0;
    var queue: seq<string> := [n];
    ghost var from: seq<nat> := [];
    ghost var queuedFrom: seq<nat> := [0];
    while |queue| > 0
      invariant BfsInv(n, childKeys, traversed, from, queue, queuedFrom, counted)
      decreases DeepExpandLimit - counted, |queue|
    {
      traversed, from, queue, queuedFrom, counted := BfsStep(n, childKeys, traversed, from, queue, queuedFrom, counted);
    }
    forall j | 0 < j < |traversed|
      ensures exists i :: 0 <= i < j && traversed[j] in childKeys(traversed[i])
    {
      var i := from[j];
      assert traversed[j] in childKeys(traversed[i]);
    }
  }

  /** `_expandNodeDeep(rootKey, nodeKey)`: every traversed node is expanded and
      its record forgotten, since all of its children will be expanded anyway. */
  method ExpandNodeDeep(s: Store, root: string, n: string, childKeys: string -> seq<string>)
    returns (r: Store, traversed: seq<string>)
    ensures n == "" ==> r == s
    ensures |traversed| <= DeepExpandLimit
    ensures ExpandedKeys(r, root) == ExpandedKeys(s, root) + ToSet(traversed)
    ensures PreviouslyExpanded(r, root) == PreviouslyExpanded(s, root) - ToSet(traversed)
    ensures forall q :: q != root ==> ExpandedKeys(r, q) == ExpandedKeys(s, q) && PreviouslyExpanded(r, q) == PreviouslyExpanded(s, q)
    ensures r == s.(expandedKeysByRoot := r.expandedKeysByRoot, previouslyExpanded := r.previouslyExpanded)
  {
    var counted;
    traversed, counted := BfsTraversal(n, childKeys);
    if traversed == [] {
      r := s;
    } else {
      var s1 := SetExpandedKeys(s, root, ExpandedKeys(s, root) + ToSet(traversed));
      r := SetPreviouslyExpanded(s1, root, PreviouslyExpanded(s, root) - ToSet(traversed));
    }
  }
}
