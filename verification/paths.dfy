/** File-tree node keys. A key is a path; directory keys end in '/'. The parent
    key of a key is its longest proper prefix ending in '/' (the key with its
    last segment removed), or '' when there is none. This is the convention the
    file tree's key helpers follow; those helpers are not part of this model. */
module Paths {
  import opened Text

  /** `FileTreeHelpers.isDirKey`. */
  predicate IsDirKey(k: string) {
    |k| > 0 && k[|k| - 1] == '/'
  }

  /** Index of the last '/' in `s[..end]`, or -1. */
  function LastSlashBefore(s: string, end: nat): (i: int)
    requires end <= |s|
    ensures -1 <= i < end
    ensures i >= 0 ==> s[i] == '/'
    ensures forall j :: i < j < end ==> s[j] != '/'
  {
    if end == 0 then -1
    else if s[end - 1] == '/' then end - 1
    else LastSlashBefore(s, end - 1)
  }

  /** `FileTreeHelpers.getParentKey`: the key with its last segment (and that
      segment's trailing '/') removed; '' for a key with no '/' before its last
      character. */
  function ParentKey(k: string): (p: string)
    ensures |k| > 0 ==> |p| < |k|
    ensures |k| == 0 ==> p == []
    ensures StartsWith(k, p)
    ensures p == [] || IsDirKey(p)
  {
    if |k| == 0 then []
    else
      var i := LastSlashBefore(k, |k| - 1);
      k[..i + 1]
  }

  /** Below a directory key `root`, parents stay below `root`: the walk from a
      key up to its root never leaves the root. */
  lemma {:induction false} ParentStaysUnderRoot(root: string, k: string)
    requires IsDirKey(root) && StartsWith(k, root) && k != root
    ensures StartsWith(ParentKey(k), root)
  {
    var i := LastSlashBefore(k, |k| - 1);
    assert k[|root| - 1] == root[|root| - 1] == '/';
    assert |root| - 1 < |k| - 1;
    assert i >= |root| - 1;
    assert ParentKey(k)[..|root|] == root;
  }

  /** `ParentKey` inverts appending one segment to a directory key. */
  lemma ParentOfChild(dir: string, name: string)
    requires IsDirKey(dir)
    requires |name| > 0 && forall i :: 0 <= i < |name| - 1 ==> name[i] != '/'
    ensures ParentKey(dir + name) == dir
  {
    var k := dir + name;
    var i := LastSlashBefore(k, |k| - 1);
    assert k[|dir| - 1] == '/';
    forall j | |dir| - 1 < j < |k| - 1 ensures k[j] != '/' {
      assert k[j] == name[j - |dir|];
    }
    assert i == |dir| - 1;
    assert k[..i + 1] == dir;
  }

  /** The keys strictly between `root` and `k`, parent before child, ending with
      `k`: the keys `revealNodeKey` walks, in the order it expands them. */
  function AncestorsBelow(root: string, k: string): (path: seq<string>)
    requires IsDirKey(root) && StartsWith(k, root)
    ensures k == root ==> path == []
    ensures k != root ==> |path| > 0 && path[|path| - 1] == k
    ensures forall i :: 0 <= i < |path| ==> StartsWith(path[i], root) && path[i] != root
    ensures forall i :: 0 < i < |path| ==> path[i - 1] == ParentKey(path[i])
    ensures |path| > 0 ==> ParentKey(path[0]) == root
    decreases |k|
  {
    if k == root then []
    else
      ParentStaysUnderRoot(root, k);
      AncestorsBelow(root, ParentKey(k)) + [k]
  }

  /** The keys `revealNodeKey` expands — the root, then every key of the path
      but the last — are exactly the directory keys from `root` down to `k`,
      `k` itself excluded. */
  lemma {:induction false} AncestorsAreDirPrefixes(root: string, k: string, a: string)
    requires IsDirKey(root) && StartsWith(k, root)
    ensures a in ([root] + AncestorsBelow(root, k))[..|AncestorsBelow(root, k)|] <==>
            IsDirKey(a) && StartsWith(k, a) && StartsWith(a, root) && a != k
    decreases |k|
  {
    var path := AncestorsBelow(root, k);
    if k == root {
      if StartsWith(k, a) && StartsWith(a, root) {
        assert a == root[..|a|];
      }
    } else {
      var p := ParentKey(k);
      ParentStaysUnderRoot(root, k);
      AncestorsAreDirPrefixes(root, p, a);
      var pp := AncestorsBelow(root, p);
      assert path == pp + [k];
      assert ([root] + pp)[|pp|] == p;
      assert ([root] + path)[..|path|] == ([root] + pp)[..|pp|] + [p];
      if IsDirKey(a) && StartsWith(k, a) && a != k {
        ParentStaysUnderRoot(a, k);
      }
      if StartsWith(p, a) {
        assert k[..|a|] == k[..|p|][..|a|];
      }
    }
  }

  /** `nuclideUri.dirname` on '/'-separated paths: everything before the last
      '/', '/' for a path whose only '/' leads, '.' for a bare name. */
  function Dirname(path: string): (d: string)
    ensures |d| <= |path| || d == "."
  {
    var t := if |path| > 1 && path[|path| - 1] == '/' then path[..|path| - 1] else path;
    var i := LastSlashBefore(t, |t|);
    if i < 0 then "."
    else if i == 0 then "/"
    else t[..i]
  }

  /** `nuclideUri.basename`: the last segment, ignoring one trailing '/'. */
  function Basename(path: string): (b: string)
    ensures '/' !in b || b == "/"
  {
    var t := if |path| > 1 && path[|path| - 1] == '/' then path[..|path| - 1] else path;
    var i := LastSlashBefore(t, |t|);
    if |t| == 1 && t[0] == '/' then "/" else t[i + 1..]
  }

  /** Joining a directory with a plain file name and taking dirname and basename
      splits the path back into its parts. */
  lemma DirnameBasenameOfJoin(dir: string, name: string)
    requires |dir| > 1 && dir[0] == '/' && dir[|dir| - 1] != '/'
    requires |name| > 0 && forall j :: 0 <= j < |name| ==> name[j] != '/'
    ensures Dirname(dir + "/" + name) == dir
    ensures Basename(dir + "/" + name) == name
  {
    var p := dir + "/" + name;
    var i := LastSlashBefore(p, |p|);
    forall j | |dir| < j < |p| ensures p[j] != '/' {
      assert p[j] == name[j - |dir| - 1];
    }
    assert p[|dir|] == '/';
    assert i == |dir|;
    assert p[..i] == dir;
    assert p[i + 1..] == name;
  }
}
