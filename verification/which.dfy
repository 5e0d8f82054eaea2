/** `pkg/commons-node/which.js`: asks the platform's lookup command where a
    binary is. The process run is not modelled: its outcome is a parameter
    (`None` when `checkOutput` rejects). */
module Which {
  import opened Wrappers
  import opened Text
  import Paths

  /** The command and its single argument. */
  datatype Invocation = Invocation(command: string, args: seq<string>)

  /** `where` on Windows, `which` elsewhere; `where` takes the directory and
      the file name as `dir:pattern`. */
  function WhichInvocation(platform: string, path: string): (inv: Invocation)
    ensures inv.command == if platform == "win32" then "where" else "which"
    ensures |inv.args| == 1
    ensures platform != "win32" ==> inv.args[0] == path
    ensures platform == "win32" ==> inv.args[0] == Paths.Dirname(path) + ":" + Paths.Basename(path)
  {
    if platform == "win32" then Invocation("where", [Paths.Dirname(path) + ":" + Paths.Basename(path)])
    else Invocation("which", [path])
  }

  /** A path naming a file in a directory is handed to `where` as exactly that
      directory and that file name. */
  lemma WhereSplitsPath(dir: string, name: string)
    requires |dir| > 1 && dir[0] == '/' && dir[|dir| - 1] != '/'
    requires |name| > 0 && forall j :: 0 <= j < |name| ==> name[j] != '/'
    ensures WhichInvocation("win32", dir + "/" + name).args == [dir + ":" + name]
  {
    Paths.DirnameBasenameOfJoin(dir, name);
  }

  /** An empty path reaches `where` as ".:", not as the empty string. */
  lemma WhereOfEmptyPath()
    ensures WhichInvocation("win32", "").args == [".:"]
  {
    EmptyPathParts();
    assert "." + ":" + "" == ".:";
  }

  lemma EmptyPathParts()
    ensures Paths.Dirname("") == "." && Paths.Basename("") == ""
  {
    assert Paths.LastSlashBefore("", 0) == -1;
  }

  /** `which(path)`: the first line of the command's output, or `None` when
      the command fails. `eol` is `os.EOL`. */
  function Which(platform: string, eol: string, path: string, stdout: Option<string>): (r: Option<string>)
    requires |eol| > 0
    ensures stdout.None? <==> r.None?
    // the result is a line: text the output starts with, free of line ends
    ensures r.Some? ==> StartsWith(stdout.value, r.value) && !Contains(r.value, eol)
    // which ends where the output's first line end is, if it has one
    ensures r.Some? ==> (Contains(stdout.value, eol) <==> |r.value| < |stdout.value|)
    ensures r.Some? && |r.value| < |stdout.value| ==> OccursAt(stdout.value, eol, |r.value|)
  {
    match stdout
    case None => None
    case Some(out) => Some(BeforeFirst(out, eol))
  }

  /** The first of several matches is the answer, with either platform's line
      end. */
  lemma FirstMatch(platform: string, eol: string, path: string, first: string, rest: string)
    requires eol == "\n" || eol == "\r\n"
    requires forall j :: 0 <= j < |first| ==> first[j] != '\n' && first[j] != '\r'
    ensures Which(platform, eol, path, Some(first + eol + rest)) == Some(first)
  {
    var s := first + eol + rest;
    assert OccursAt(s, eol, |first|) by {
      assert s[|first|..|first| + |eol|] == eol;
    }
    // no line end starts inside `first`: its first character would be there
    forall j: nat | j < |first| ensures !OccursAt(s, eol, j) {
      assert s[j] == first[j];
      if j + |eol| <= |s| {
        assert s[j..j + |eol|][0] == s[j];
      }
    }
    BeforeFirstAt(s, eol, |first|);
    assert s[..|first|] == first;
  }

  /** The test's examples: the first match on each platform. */
  lemma WhichExamples()
    ensures Which("win32", "\r\n", "bla", Some("hello" + "\r\n" + "hello.exe\r\n")) == Some("hello")
    ensures Which("linux", "\n", "bla", Some("hello" + "\n" + "/bin/hello\n")) == Some("hello")
  {
    FirstMatch("win32", "\r\n", "bla", "hello", "hello.exe\r\n");
    FirstMatch("linux", "\n", "bla", "hello", "/bin/hello\n");
  }
}
