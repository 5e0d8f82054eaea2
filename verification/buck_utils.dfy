/** `pkg/nuclide-rust/lib/BuckUtils.js`: Buck target names and the queries the
    Rust support sends to Buck. The query service itself is not modelled: its
    answers are parameters. */
module BuckUtils {
  import opened Wrappers
  import opened Text

  /** The flavour `getSaveAnalysisTargets` asks for. */
  const SaveAnalysisFlavor: string := "#save-analysis"

  /** `getRustBuildFile`'s query. */
  function BuildFileQuery(target: string): string {
    "buildfile(kind('^rust_.*', " + target + "))"
  }

  /** `getRustInputs`' query. */
  function InputsQuery(target: string): string {
    "filter('.*\\.rs$', inputs(kind('^rust_.*', " + target + ")))"
  }

  /** `getSaveAnalysisTargets`' query. */
  function DepsQuery(target: string): string {
    "kind('^rust_.*', deps(" + target + "))"
  }

  /** The target a query was built around: the text between a template's
      fixed prefix and suffix. */
  function TargetOf(query: string, prefix: string, suffix: string): (t: Option<string>)
    ensures t.Some? <==> |prefix| + |suffix| <= |query| && StartsWith(query, prefix) && query[|query| - |suffix|..] == suffix
    ensures t.Some? ==> query == prefix + t.value + suffix
  {
    if |prefix| + |suffix| <= |query| && StartsWith(query, prefix) && query[|query| - |suffix|..] == suffix then
      var t := query[|prefix|..|query| - |suffix|];
      assert query == query[..|prefix|] + t + query[|query| - |suffix|..];
      Some(t)
    else None
  }

  /** Each query holds its target between fixed text: the target can be read
      back from it. */
  lemma QueriesHoldTarget(target: string)
    ensures TargetOf(BuildFileQuery(target), "buildfile(kind('^rust_.*', ", "))") == Some(target)
    ensures TargetOf(InputsQuery(target), "filter('.*\\.rs$', inputs(kind('^rust_.*', ", ")))") == Some(target)
    ensures TargetOf(DepsQuery(target), "kind('^rust_.*', deps(", "))") == Some(target)
  {
    TargetBetween("buildfile(kind('^rust_.*', ", target, "))");
    TargetBetween("filter('.*\\.rs$', inputs(kind('^rust_.*', ", target, ")))");
    TargetBetween("kind('^rust_.*', deps(", target, "))");
  }

  lemma TargetBetween(prefix: string, target: string, suffix: string)
    ensures TargetOf(prefix + target + suffix, prefix, suffix) == Some(target)
  {
    var q := prefix + target + suffix;
    assert q[..|prefix|] == prefix;
    assert q[|q| - |suffix|..] == suffix;
    assert q[|prefix|..|q| - |suffix|] == target;
  }

  /** `getRustBuildFile`: `buildfiles[0] || null`: the first answer, unless
      there is none or it is empty. */
  function FirstBuildFile(buildfiles: seq<string>): (r: Option<string>)
    ensures r.Some? <==> |buildfiles| > 0 && buildfiles[0] != ""
    ensures r.Some? ==> r.value == buildfiles[0]
  {
    if |buildfiles| > 0 && buildfiles[0] != "" then Some(buildfiles[0]) else None
  }

  /** `getSaveAnalysisTargets`: every dependency with the save-analysis
      flavour. */
  function SaveAnalysisTargets(deps: seq<string>): (r: seq<string>)
    ensures |r| == |deps|
    ensures forall i :: 0 <= i < |deps| ==> r[i] == deps[i] + SaveAnalysisFlavor
  {
    seq(|deps|, i requires 0 <= i < |deps| => deps[i] + SaveAnalysisFlavor)
  }

  /** A target, as opposed to an alias: it has a ':' or a '.', and no '//'. */
  predicate NeedsSlashes(name: string) {
    (Contains(name, ":") || Contains(name, ".")) && !Contains(name, "//")
  }

  /** `normalizeNameForBuckQuery`: '//' in front of a target that lacks it,
      and the flavour (from the first '#') cut off. */
  function NormalizeNameForBuckQuery(aliasOrTarget: string): (r: string)
    ensures !Contains(r, "#")
    ensures NeedsSlashes(aliasOrTarget) ==> r == "//" + BeforeFirst(aliasOrTarget, "#")
    ensures !NeedsSlashes(aliasOrTarget) ==> r == BeforeFirst(aliasOrTarget, "#")
  {
    var canonical := if NeedsSlashes(aliasOrTarget) then "//" + aliasOrTarget else aliasOrTarget;
    if NeedsSlashes(aliasOrTarget) then
      ContainsChar("//", '#');
      BeforeFirstAfterPrefix("//", aliasOrTarget, "#");
      BeforeFirst(canonical, "#")
    else BeforeFirst(canonical, "#")
  }

  /** Normalising a normalised name changes nothing, unless the only '//' of
      the name was inside the flavour. */
  lemma NormalizeIdempotent(name: string)
    requires Contains(name, "//") ==> Contains(BeforeFirst(name, "#"), "//")
    ensures NormalizeNameForBuckQuery(NormalizeNameForBuckQuery(name)) == NormalizeNameForBuckQuery(name)
  {
    var r := NormalizeNameForBuckQuery(name);
    BeforeFirstWithout(r, "#");
    if NeedsSlashes(name) {
      OccursAtImpliesContains(r, "//", 0);
    } else if !Contains(name, "//") {
      // no ':', '.' or '//' in the name, so none in its prefix either
      var b := BeforeFirst(name, "#");
      NotInPrefix(name, b, ":");
      NotInPrefix(name, b, ".");
    }
  }

  /** The flavour `getSaveAnalysisTargets` adds is what normalising takes off
      again. */
  lemma SaveAnalysisFlavorStripped(dep: string)
    requires StartsWith(dep, "//") && !Contains(dep, "#")
    ensures NormalizeNameForBuckQuery(dep + SaveAnalysisFlavor) == dep
  {
    var s := dep + SaveAnalysisFlavor;
    assert StartsWith(s, dep);
    OccursAtImpliesContains(s, "//", 0);
    FlavorStartsAt(dep);
    ContainsChar(dep, '#');
    BeforeFirstUnique(s, "#", dep);
  }

  lemma FlavorStartsAt(dep: string)
    ensures OccursAt(dep + SaveAnalysisFlavor, "#", |dep|)
  {
    var s := dep + SaveAnalysisFlavor;
    assert s[|dep|] == '#';
    assert s[|dep|..|dep| + 1] == [s[|dep|]];
  }
}
