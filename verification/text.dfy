/** String helpers with the semantics of the JavaScript built-ins the modelled
    code calls: `indexOf`, `startsWith`, `split(sep)[0]`, `trim`, `match(/\S+/g)`
    and `join`. Strings are sequences of Unicode scalar values, where JavaScript strings
    are sequences of UTF-16 code units: a character outside the Basic
    Multilingual Plane is one element here and two units there. */
module Text {

  /** `s.startsWith(prefix)`. */
  predicate StartsWith(s: string, prefix: string) {
    |prefix| <= |s| && s[..|prefix|] == prefix
  }

  /** `sub` occurs in `s` starting at index `i`. */
  predicate OccursAt(s: string, sub: string, i: nat) {
    i + |sub| <= |s| && s[i..i + |sub|] == sub
  }

  /** `s.indexOf(sub, from)`: the first occurrence at or after `from`, or -1. */
  function IndexOfFrom(s: string, sub: string, from: nat): (r: int)
    ensures r == -1 || (from <= r && OccursAt(s, sub, r))
    ensures r == -1 ==> forall j: nat :: from <= j ==> !OccursAt(s, sub, j)
    ensures r >= 0 ==> forall j: nat :: from <= j < r ==> !OccursAt(s, sub, j)
    decreases |s| - from
  {
    if from + |sub| > |s| then -1
    else if OccursAt(s, sub, from) then from
    else IndexOfFrom(s, sub, from + 1)
  }

  /** `s.indexOf(sub)`. */
  function IndexOf(s: string, sub: string): int {
    IndexOfFrom(s, sub, 0)
  }

  /** `s.indexOf(sub) !== -1`. */
  predicate Contains(s: string, sub: string) {
    IndexOf(s, sub) >= 0
  }

  lemma OccursAtImpliesContains(s: string, sub: string, i: nat)
    requires OccursAt(s, sub, i)
    ensures Contains(s, sub)
  {
  }

  /** An occurrence inside a prefix of `s` is an occurrence in `s`. */
  lemma OccursInPrefix(s: string, p: string, sub: string, i: nat)
    requires StartsWith(s, p) && OccursAt(p, sub, i)
    ensures OccursAt(s, sub, i)
  {
    assert s[i..i + |sub|] == p[i..i + |sub|];
  }

  /** `s.split(sep)[0]` for a non-empty separator: the text before the first
      occurrence of `sep`, or all of `s` when `sep` does not occur. */
  function BeforeFirst(s: string, sep: string): (r: string)
    requires |sep| > 0
    ensures StartsWith(s, r)
    ensures !Contains(r, sep)
    ensures Contains(s, sep) <==> |r| < |s|
    ensures Contains(s, sep) ==> OccursAt(s, sep, |r|)
    ensures forall j: nat :: j < |r| ==> !OccursAt(s, sep, j)
  {
    var i := IndexOf(s, sep);
    if i < 0 then s
    else
      var r := s[..i];
      assert StartsWith(s, r);
      assert !Contains(r, sep) by {
        if Contains(r, sep) {
          OccursInPrefix(s, r, sep, IndexOf(r, sep) as nat);
        }
      }
      r
  }

  /** For a one-character separator, `BeforeFirst` is the only prefix free of the
      separator that the separator follows. */
  lemma BeforeFirstUnique(s: string, sep: string, v: string)
    requires |sep| == 1
    requires StartsWith(s, v) && OccursAt(s, sep, |v|)
    requires forall j :: 0 <= j < |v| ==> v[j] != sep[0]
    ensures BeforeFirst(s, sep) == v
  {
    forall j: nat | OccursAt(s, sep, j) ensures s[j] == sep[0] {
      assert s[j..j + 1][0] == s[j];
    }
    assert forall j :: 0 <= j < |v| ==> v[j] == s[..|v|][j];
  }

  /** The first part of `s` ends where the first separator starts. */
  lemma BeforeFirstAt(s: string, sep: string, i: nat)
    requires |sep| > 0 && OccursAt(s, sep, i)
    requires forall j: nat :: j < i ==> !OccursAt(s, sep, j)
    ensures BeforeFirst(s, sep) == s[..i]
  {
    OccursAtImpliesContains(s, sep, i);
  }

  /** A string without `sub` has no prefix with `sub`. */
  lemma NotInPrefix(s: string, p: string, sub: string)
    requires StartsWith(s, p) && !Contains(s, sub)
    ensures !Contains(p, sub)
  {
    if Contains(p, sub) {
      OccursInPrefix(s, p, sub, IndexOf(p, sub) as nat);
    }
  }

  /** A string without the separator is its own first part. */
  lemma BeforeFirstWithout(s: string, sep: string)
    requires |sep| > 0 && !Contains(s, sep)
    ensures BeforeFirst(s, sep) == s
  {
  }

  /** A string of one character occurs exactly where that character is. */
  lemma OccursAtChar(s: string, c: char, j: nat)
    requires j < |s|
    ensures OccursAt(s, [c], j) <==> s[j] == c
  {
    assert s[j..j + 1] == [s[j]];
  }

  /** A one-character string is contained where that character occurs. */
  lemma ContainsChar(s: string, c: char)
    ensures Contains(s, [c]) <==> exists j :: 0 <= j < |s| && s[j] == c
  {
    if Contains(s, [c]) {
      var i := IndexOf(s, [c]);
      OccursAtChar(s, c, i as nat);
    }
    forall j: nat | j < |s| && s[j] == c ensures Contains(s, [c]) {
      OccursAtChar(s, c, j);
      OccursAtImpliesContains(s, [c], j);
    }
  }

  /** Splitting on a one-character separator skips a prefix free of it. */
  lemma BeforeFirstAfterPrefix(p: string, x: string, sep: string)
    requires |sep| == 1 && !Contains(p, sep)
    ensures BeforeFirst(p + x, sep) == p + BeforeFirst(x, sep)
  {
    var s := p + x;
    var b := BeforeFirst(x, sep);
    assert sep == [sep[0]];
    ContainsChar(p, sep[0]);
    forall j | 0 <= j < |b| ensures b[j] != sep[0] {
      assert b[j] == x[j];
      OccursAtChar(x, sep[0], j);
      assert sep == [sep[0]];
    }
    if Contains(x, sep) {
      assert x[|b|..|b| + 1] == sep;
      assert s[|p| + |b|..|p| + |b| + 1] == sep;
      assert s[..|p| + |b|] == p + b;
      forall j | 0 <= j < |p + b| ensures (p + b)[j] != sep[0] {
      }
      BeforeFirstUnique(s, sep, p + b);
    } else {
      assert b == x;
      forall j: nat ensures !OccursAt(s, sep, j) {
        if j < |s| {
          OccursAtChar(s, sep[0], j);
          assert sep == [sep[0]];
          if j >= |p| {
            assert s[j] == x[j - |p|];
            OccursAtChar(x, sep[0], j - |p|);
          }
        }
      }
      assert !Contains(s, sep);
    }
  }

  /** The characters JavaScript's `\s` and `String.prototype.trim` treat as
      white space (WhiteSpace and LineTerminator of ECMA-262). */
  predicate IsWhitespace(c: char) {
    || c == ' ' || c == '\t' || c == '\n' || c == '\r'
    || c == '\U{B}' || c == '\U{C}' || c == '\U{A0}' || c == '\U{1680}'
    || ('\U{2000}' <= c <= '\U{200A}')
    || c == '\U{2028}' || c == '\U{2029}' || c == '\U{202F}' || c == '\U{205F}'
    || c == '\U{3000}' || c == '\U{FEFF}'
  }

  predicate AllWhitespace(s: string) {
    forall i :: 0 <= i < |s| ==> IsWhitespace(s[i])
  }

  predicate NoWhitespace(s: string) {
    forall i :: 0 <= i < |s| ==> !IsWhitespace(s[i])
  }

  /** The length of the leading run of non-white-space characters. */
  function WordLength(s: string): (n: nat)
    ensures n <= |s|
    ensures NoWhitespace(s[..n])
    ensures n < |s| ==> IsWhitespace(s[n])
  {
    if |s| == 0 || IsWhitespace(s[0]) then 0
    else
      var n := 1 + WordLength(s[1..]);
      assert s[..n] == [s[0]] + s[1..][..n - 1];
      n
  }

  /** `s.match(/\S+/g) || []`: the maximal runs of non-white-space characters,
      left to right. */
  function Tokens(s: string): (ts: seq<string>)
    ensures forall i :: 0 <= i < |ts| ==> |ts[i]| > 0 && NoWhitespace(ts[i])
    decreases |s|
  {
    if |s| == 0 then []
    else if IsWhitespace(s[0]) then Tokens(s[1..])
    else
      var n := WordLength(s);
      [s[..n]] + Tokens(s[n..])
  }

  /** The characters of `s` that are not white space, in order. */
  function StripWhitespace(s: string): string {
    if |s| == 0 then []
    else (if IsWhitespace(s[0]) then [] else [s[0]]) + StripWhitespace(s[1..])
  }

  function Concat(parts: seq<string>): string {
    if |parts| == 0 then [] else parts[0] + Concat(parts[1..])
  }

  /** `parts.join(sep)`. */
  function JoinWith(parts: seq<string>, sep: string): string {
    if |parts| == 0 then []
    else if |parts| == 1 then parts[0]
    else parts[0] + sep + JoinWith(parts[1..], sep)
  }

  lemma StripAppend(a: string, b: string)
    ensures StripWhitespace(a + b) == StripWhitespace(a) + StripWhitespace(b)
  {
    if |a| == 0 {
      assert a + b == b;
    } else {
      assert (a + b)[1..] == a[1..] + b;
      StripAppend(a[1..], b);
    }
  }

  lemma StripNoWhitespace(s: string)
    requires NoWhitespace(s)
    ensures StripWhitespace(s) == s
  {
    if |s| > 0 {
      StripNoWhitespace(s[1..]);
    }
  }

  lemma StripAllWhitespace(s: string)
    requires AllWhitespace(s)
    ensures StripWhitespace(s) == []
  {
    if |s| > 0 {
      StripAllWhitespace(s[1..]);
    }
  }

  /** Tokenising loses only the white space: the tokens, glued together, are the
      input with its white space removed. */
  lemma {:induction false} TokensKeepEveryOtherCharacter(s: string)
    ensures Concat(Tokens(s)) == StripWhitespace(s)
    decreases |s|
  {
    if |s| == 0 {
    } else if IsWhitespace(s[0]) {
      TokensKeepEveryOtherCharacter(s[1..]);
    } else {
      var n := WordLength(s);
      TokensKeepEveryOtherCharacter(s[n..]);
      assert s == s[..n] + s[n..];
      StripAppend(s[..n], s[n..]);
      StripNoWhitespace(s[..n]);
    }
  }

  lemma TokensOfLeadingWhitespace(w: string, s: string)
    requires AllWhitespace(w)
    ensures Tokens(w + s) == Tokens(s)
    decreases |w|
  {
    if |w| > 0 {
      assert (w + s)[1..] == w[1..] + s;
      TokensOfLeadingWhitespace(w[1..], s);
    } else {
      assert w + s == s;
    }
  }

  lemma WordLengthOfWord(t: string, rest: string)
    requires |t| > 0 && NoWhitespace(t)
    requires |rest| == 0 || IsWhitespace(rest[0])
    ensures WordLength(t + rest) == |t|
    decreases |t|
  {
    if |t| > 1 {
      assert (t + rest)[1..] == t[1..] + rest;
      WordLengthOfWord(t[1..], rest);
    } else {
      assert (t + rest)[1..] == rest;
    }
  }

  /** Joining white-space-free words with one space and tokenising again gives the
      words back. */
  lemma {:induction false} TokensOfJoin(ts: seq<string>)
    requires forall i :: 0 <= i < |ts| ==> |ts[i]| > 0 && NoWhitespace(ts[i])
    ensures Tokens(JoinWith(ts, " ")) == ts
  {
    if |ts| == 0 {
    } else if |ts| == 1 {
      var t := ts[0];
      WordLengthOfWord(t, []);
      assert t + [] == t;
      assert t[|t|..] == [];
      assert t[..|t|] == t;
    } else {
      var t := ts[0];
      var rest := JoinWith(ts[1..], " ");
      var s := t + " " + rest;
      assert s == t + (" " + rest);
      WordLengthOfWord(t, " " + rest);
      assert s[..|t|] == t;
      assert s[|t|..] == " " + rest;
      TokensOfLeadingWhitespace(" ", rest);
      TokensOfJoin(ts[1..]);
      assert Tokens(s) == [t] + ts[1..];
    }
  }

  /** The number of leading white-space characters. */
  function LeadingWhitespace(s: string): (n: nat)
    ensures n <= |s|
    ensures AllWhitespace(s[..n])
    ensures n < |s| ==> !IsWhitespace(s[n])
  {
    if |s| == 0 || !IsWhitespace(s[0]) then 0
    else
      var n := 1 + LeadingWhitespace(s[1..]);
      assert s[..n] == [s[0]] + s[1..][..n - 1];
      n
  }

  /** The number of trailing white-space characters. */
  function TrailingWhitespace(s: string): (n: nat)
    ensures n <= |s|
    ensures AllWhitespace(s[|s| - n..])
    ensures n < |s| ==> !IsWhitespace(s[|s| - n - 1])
  {
    if |s| == 0 || !IsWhitespace(s[|s| - 1]) then 0
    else
      var n := 1 + TrailingWhitespace(s[..|s| - 1]);
      assert s[|s| - n..] == s[..|s| - 1][|s| - 1 - (n - 1)..] + [s[|s| - 1]];
      n
  }

  /** `r` is `s` with white space `s[..i]` cut from the front and white space
      cut from the back. */
  predicate TrimmedAt(s: string, r: string, i: nat) {
    i + |r| <= |s| && s[i..i + |r|] == r && AllWhitespace(s[..i]) && AllWhitespace(s[i + |r|..])
  }

  /** `s.trim()`. */
  function Trim(s: string): (r: string)
    ensures |r| == 0 || (!IsWhitespace(r[0]) && !IsWhitespace(r[|r| - 1]))
    ensures exists i: nat :: TrimmedAt(s, r, i)
  {
    var lead := LeadingWhitespace(s);
    if lead == |s| then
      assert TrimmedAt(s, [], |s|);
      []
    else
      var t := s[lead..];
      var trail := TrailingWhitespace(t);
      assert trail < |t|;
      var r := t[..|t| - trail];
      assert s[lead..lead + |r|] == r;
      assert s[lead + |r|..] == t[|t| - trail..];
      assert TrimmedAt(s, r, lead);
      r
  }
}
