/** `pkg/nuclide/blame-provider-git/lib/GitBlameProvider.js`: turns the raw
    blame of a file (line number to author and revision) into what the blame
    gutter shows. Running `git blame` and reading the configuration are not
    modelled: their results are parameters. */
module GitBlameProvider {
  import opened Wrappers
  import opened Text

  /** One raw blame line: the author as git prints it and the revision line. */
  datatype BlameLine = BlameLine(author: string, rev: string)

  /** What the gutter shows for a line; no changeset for uncommitted lines. */
  datatype BlameInfo = BlameInfo(author: string, changeset: Option<string>)

  /** A character `EMAIL_REGEX` allows in an address's local part. */
  predicate IsLocalChar(c: char) {
    ('A' <= c <= 'Z') || ('a' <= c <= 'z') || ('0' <= c <= '9')
    || c == '.' || c == '_' || c == '%' || c == '+' || c == '-'
  }

  /** The length of the run of local-part characters that ends at `end`. */
  function LocalRunBefore(s: string, end: nat): (n: nat)
    requires end <= |s|
    ensures n <= end
    ensures forall j :: end - n <= j < end ==> IsLocalChar(s[j])
    ensures n < end ==> !IsLocalChar(s[end - n - 1])
  {
    if end == 0 || !IsLocalChar(s[end - 1]) then 0 else LocalRunBefore(s, end - 1) + 1
  }

  /** The first '@' at or after `from` that a local-part character precedes. */
  function FirstAddressAt(s: string, from: nat): (a: Option<nat>)
    ensures a.Some? ==> from <= a.value < |s| && a.value > 0 && s[a.value] == '@' && IsLocalChar(s[a.value - 1])
    ensures a.None? ==> forall j :: from <= j < |s| && j > 0 && s[j] == '@' ==> !IsLocalChar(s[j - 1])
    ensures a.Some? ==> forall j :: from <= j < a.value && j > 0 && s[j] == '@' ==> !IsLocalChar(s[j - 1])
    decreases |s| - from
  {
    if from >= |s| then None
    else if from > 0 && s[from] == '@' && IsLocalChar(s[from - 1]) then Some(from)
    else FirstAddressAt(s, from + 1)
  }

  /** `shortenBlameName`: the local part of the first e-mail address in the
      name, or the name itself when it holds none. */
  function ShortenBlameName(blameName: string): (r: string)
    // without an address the name is kept
    ensures FirstAddressAt(blameName, 0).None? ==> r == blameName
    // with one, the result is the whole run of local-part characters before its '@'
    ensures FirstAddressAt(blameName, 0).Some? ==>
              var a := FirstAddressAt(blameName, 0).value;
              0 < |r| <= a && r == blameName[a - |r|..a]
              && (forall j :: 0 <= j < |r| ==> IsLocalChar(r[j]))
              && (|r| < a ==> !IsLocalChar(blameName[a - |r| - 1]))
  {
    match FirstAddressAt(blameName, 0)
    case None => blameName
    case Some(a) => blameName[a - LocalRunBefore(blameName, a)..a]
  }

  /** A name holding one address, after text free of '@' that does not end
      in a local-part character, shortens to the address's local part. */
  lemma ShortenAddress(pre: string, local: string, domain: string)
    requires forall j :: 0 <= j < |pre| ==> pre[j] != '@'
    requires |pre| > 0 ==> !IsLocalChar(pre[|pre| - 1])
    requires |local| > 0 && forall j :: 0 <= j < |local| ==> IsLocalChar(local[j])
    ensures ShortenBlameName(pre + local + "@" + domain) == local
  {
    var s := pre + local + "@" + domain;
    var a := |pre| + |local|;
    AddressAfterPrefix(pre, local, domain);
    RunBeforeAddress(pre, local, domain);
    ShortenAt(s, a, |local|);
    LocalOfAddress(pre, local, domain);
  }

  lemma ShortenAt(name: string, a: nat, n: nat)
    requires FirstAddressAt(name, 0) == Some(a) && a <= |name| && LocalRunBefore(name, a) == n
    ensures ShortenBlameName(name) == name[a - n..a]
  {
  }

  lemma LocalOfAddress(pre: string, local: string, domain: string)
    ensures (pre + local + "@" + domain)[|pre|..|pre| + |local|] == local
  {
  }

  lemma RunBeforeAddress(pre: string, local: string, domain: string)
    requires |pre| > 0 ==> !IsLocalChar(pre[|pre| - 1])
    requires forall j :: 0 <= j < |local| ==> IsLocalChar(local[j])
    ensures LocalRunBefore(pre + local + "@" + domain, |pre| + |local|) == |local|
  {
    var s := pre + local + "@" + domain;
    var a := |pre| + |local|;
    assert s[..a] == pre + local;
    LocalRunIs(s, a, |local|);
  }

  lemma AddressAfterPrefix(pre: string, local: string, domain: string)
    requires forall j :: 0 <= j < |pre| ==> pre[j] != '@'
    requires |local| > 0 && forall j :: 0 <= j < |local| ==> IsLocalChar(local[j])
    ensures FirstAddressAt(pre + local + "@" + domain, 0) == Some(|pre| + |local|)
  {
    var s := pre + local + "@" + domain;
    var a := |pre| + |local|;
    assert s[a] == '@' && s[a - 1] == local[|local| - 1];
    // '@' is no local-part character: there is none before `a`
    forall j | 0 <= j < a ensures s[j] != '@' {
      if j >= |pre| {
        assert s[j] == local[j - |pre|];
      } else {
        assert s[j] == pre[j];
      }
    }
    FirstAddressIs(s, 0, a);
  }

  lemma {:induction false} FirstAddressIs(s: string, from: nat, a: nat)
    requires from <= a < |s| && a > 0 && s[a] == '@' && IsLocalChar(s[a - 1])
    requires forall j :: from <= j < a && j > 0 && s[j] == '@' ==> !IsLocalChar(s[j - 1])
    ensures FirstAddressAt(s, from) == Some(a)
    decreases a - from
  {
    if from < a {
      FirstAddressIs(s, from + 1, a);
    }
  }

  lemma {:induction false} LocalRunIs(s: string, end: nat, n: nat)
    requires n <= end <= |s|
    requires forall j :: end - n <= j < end ==> IsLocalChar(s[j])
    requires n < end ==> !IsLocalChar(s[end - n - 1])
    ensures LocalRunBefore(s, end) == n
    decreases n
  {
    if n > 0 {
      LocalRunIs(s, end - 1, n - 1);
    }
  }

  /** The examples `shortenBlameName` documents: a bare address and a name
      with an address. */
  lemma ShortenBareAddress()
    ensures ShortenBlameName("foo@bar.com") == "foo"
  {
    assert "" + "foo" + "@" + "bar.com" == "foo@bar.com";
    ShortenAddress("", "foo", "bar.com");
  }

  lemma ShortenNamedAddress()
    ensures ShortenBlameName("Foo Bar <foo@bar.com>") == "foo"
  {
    assert "Foo Bar <" + "foo" + "@" + "bar.com>" == "Foo Bar <foo@bar.com>";
    ShortenAddress("Foo Bar <", "foo", "bar.com>");
  }

  /** `rev.split(' ')[0]`, with 'null' for uncommitted changes. */
  function Changeset(rev: string): (c: Option<string>)
    ensures c.Some? ==> c.value != "null" && StartsWith(rev, c.value) && !Contains(c.value, " ")
    // the token runs up to the first space, or to the end when there is none
    ensures c.Some? ==> |c.value| == |rev| || rev[|c.value|] == ' '
    ensures c.None? <==> BeforeFirst(rev, " ") == "null"
  {
    var id := BeforeFirst(rev, " ");
    if id != "null" then Some(id) else None
  }

  function FormatLine(line: BlameLine, useShortName: bool): BlameInfo {
    BlameInfo(if useShortName then ShortenBlameName(line.author) else line.author, Changeset(line.rev))
  }

  /** `formatBlameInfo`: raw line `n` (1-based) becomes entry `n - 1`. */
  function FormatBlameInfo(raw: map<int, BlameLine>, useShortName: bool): (r: map<int, BlameInfo>)
    ensures r.Keys == Lower(raw.Keys)
    ensures forall k :: k in r ==> r[k] == FormatLine(raw[k + 1], useShortName)
    // without the short-name option the author passes through unchanged
    ensures !useShortName ==> forall k :: k in r ==> r[k].author == raw[k + 1].author
  {
    var keys := Lower(raw.Keys);
    map k | k in keys :: FormatLine(raw[k + 1], useShortName)
  }

  /** One entry for every raw line. */
  lemma FormatKeepsLineCount(raw: map<int, BlameLine>, useShortName: bool)
    ensures |FormatBlameInfo(raw, useShortName)| == |raw|
  {
    var r := FormatBlameInfo(raw, useShortName);
    assert r.Keys == Lower(raw.Keys);
    LowerCard(raw.Keys);
  }

  /** The line numbers one lower. */
  function Lower(s: set<int>): (t: set<int>)
    ensures forall m {:trigger m in t} :: m in t <==> m + 1 in s
  {
    set n | n in s :: n - 1
  }

  lemma {:induction false} LowerCard(s: set<int>)
    ensures |Lower(s)| == |s|
    decreases |s|
  {
    if |s| > 0 {
      if forall x :: x !in s { EmptyIfNoMember(s); assert false; }
      var x :| x in s;
      var s' := s - {x};
      LowerCard(s');
      assert forall m :: m in Lower(s) <==> m in Lower(s') + {x - 1};
      assert Lower(s) == Lower(s') + {x - 1};
    }
  }

  lemma EmptyIfNoMember(s: set<int>)
    requires forall x :: x !in s
    ensures |s| == 0
  {
    assert forall x :: x in s <==> x in {};
    assert s == {};
  }

  /** `doGetBlameForEditor`: nothing to show for an unsaved editor, an error
      outside a repository, and otherwise the formatted blame, shortened
      unless verbose blame is configured. */
  function BlameForEditor(path: Option<string>, hasRepo: bool, raw: map<int, BlameLine>, showVerboseBlame: bool)
    : (r: Result<map<int, BlameInfo>, string>)
    ensures (path.None? || path.value == "") ==> r == Ok(map[])
    ensures path.Some? && path.value != "" && !hasRepo ==> r.Err?
    ensures path.Some? && path.value != "" && hasRepo ==>
              r.Ok? && r.value.Keys == Lower(raw.Keys)
              && forall k :: k in r.value ==> r.value[k] == FormatLine(raw[k + 1], !showVerboseBlame)
  {
    if path.None? || path.value == "" then Ok(map[])
    else if !hasRepo then
      Err("GitBlameProvider could not fetch blame for " + path.value + ": no Git repo found.")
    else
      var r := FormatBlameInfo(raw, !showVerboseBlame);
      assert r.Keys == Lower(raw.Keys);
      Ok(r)
  }
}
