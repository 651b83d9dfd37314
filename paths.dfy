/** The path arithmetic the search documents are built on: POSIX
    `os.path.split` and `os.path.join`, `str.split('/')` and `sep.join`,
    the anchored one-shot prefix rewrite of the subtree operations, and
    the `agave://` address of a document. */
module Paths {

  /** The first `|p|` characters of `s` are `p`. */
  predicate StartsWith(s: string, p: string)
  {
    |p| <= |s| && s[..|p|] == p
  }

  predicate HasNoSlash(s: string)
  {
    forall i :: 0 <= i < |s| ==> s[i] != '/'
  }

  predicate AllSlashes(s: string)
  {
    forall i :: 0 <= i < |s| ==> s[i] == '/'
  }

  /** `p.rfind('/') + 1`: the position just after the last slash, 0 when
      there is none. */
  function AfterLastSlash(p: string): (k: nat)
    ensures k <= |p|
    ensures k > 0 ==> p[k - 1] == '/'
    ensures HasNoSlash(p[k..])
    decreases |p|
  {
    if p == [] then 0
    else if p[|p| - 1] == '/' then |p|
    else
      var k := AfterLastSlash(p[..|p| - 1]);
      assert p[k..] == p[..|p| - 1][k..] + [p[|p| - 1]];
      k
  }

  /** `s.rstrip('/')`. */
  function RStripSlashes(s: string): (r: string)
    ensures StartsWith(s, r)
    ensures r == [] || r[|r| - 1] != '/'
    ensures AllSlashes(s[|r|..])
    decreases |s|
  {
    if s == [] then []
    else if s[|s| - 1] == '/' then
      var r := RStripSlashes(s[..|s| - 1]);
      assert s[|r|..] == s[..|s| - 1][|r|..] + ['/'];
      r
    else s
  }

  /** `os.path.split(p)`: the head (with trailing slashes removed unless it
      is made of slashes only) and the last component. */
  function Split(p: string): (string, string)
  {
    var i := AfterLastSlash(p);
    var head := p[..i];
    var tail := p[i..];
    if head != [] && !AllSlashes(head) then (RStripSlashes(head), tail) else (head, tail)
  }

  function Dirname(p: string): string { Split(p).0 }

  function Basename(p: string): string { Split(p).1 }

  /** `os.path.join(a, b)` for two components. */
  function Join(a: string, b: string): string
  {
    if |b| > 0 && b[0] == '/' then b
    else if a == [] || a[|a| - 1] == '/' then a + b
    else a + "/" + b
  }

  /** The last component never contains a slash, ends `p`, and is empty
      exactly when `p` is empty or ends with a slash. */
  lemma SplitTail(p: string)
    ensures HasNoSlash(Basename(p))
    ensures |Basename(p)| <= |p| && p[|p| - |Basename(p)|..] == Basename(p)
    ensures Basename(p) == [] <==> p == [] || p[|p| - 1] == '/'
  {
    var i := AfterLastSlash(p);
    assert |p| - (|p| - i) == i;
    if p != [] && p[|p| - 1] != '/' {
      assert p[|p| - 1] in p[i..] by { assert p[i..][|p| - 1 - i] == p[|p| - 1]; }
    }
  }

  /** No two slashes stand next to each other. */
  predicate NoDoubleSlash(p: string)
  {
    forall i :: 0 < i < |p| ==> !(p[i - 1] == '/' && p[i] == '/')
  }

  /** Splitting a path without doubled slashes and joining the two parts
      again gives the path back. */
  lemma JoinSplit(p: string)
    requires NoDoubleSlash(p)
    ensures Join(Dirname(p), Basename(p)) == p
  {
    var i := AfterLastSlash(p);
    var head, tail := p[..i], p[i..];
    assert p == head + tail;
    if tail != [] {
      assert tail[0] != '/';
    }
    if head == [] {
      assert Split(p) == (head, tail);
    } else if AllSlashes(head) {
      assert Split(p) == (head, tail);
      assert head[|head| - 1] == '/';
    } else {
      var r := RStripSlashes(head);
      assert Split(p) == (r, tail);
      // head ends with exactly one slash, which rstrip removes
      assert head[i - 1] == '/';
      var j :| 0 <= j < i && head[j] != '/';
      assert j < i - 1;
      var front := head[..i - 1];
      assert head[..|head| - 1] == front;
      assert front[|front| - 1] == p[i - 2];
      assert p[i - 2] != '/';
      assert RStripSlashes(front) == front;
      assert r == front;
      assert head == r + "/";
    }
  }

  /** `re.sub('^' + from, to, s, count=1)` with `from` and `to` taken
      literally: the leading `from`, if present, is replaced once by `to`.
      Regular-expression metacharacters in `from` and backslash escapes in
      `to` are not modelled. */
  function ReplacePrefix(s: string, from: string, to: string): string
  {
    if StartsWith(s, from) then to + s[|from|..] else s
  }

  /** A rewritten path starts with the to prefix followed by exactly what
      followed the from one; a path without the from prefix is untouched. */
  lemma ReplacePrefixOnce(s: string, from: string, to: string)
    ensures StartsWith(s, from) ==>
      StartsWith(ReplacePrefix(s, from, to), to) &&
      ReplacePrefix(s, from, to)[|to|..] == s[|from|..]
    ensures !StartsWith(s, from) ==> ReplacePrefix(s, from, to) == s
  {
  }

  /** Rewriting `from` to `to` and then `to` back to `from` restores every
      path that carried the from prefix. */
  lemma ReplacePrefixInverse(s: string, from: string, to: string)
    requires StartsWith(s, from)
    ensures ReplacePrefix(ReplacePrefix(s, from, to), to, from) == s
  {
    var t := to + s[|from|..];
    assert t[..|to|] == to;
    assert t[|to|..] == s[|from|..];
    assert s == from + s[|from|..] by { assert s[..|from|] == from; }
  }

  /** `'agave://{}/{}'.format(system, full_path)`. */
  function AgavePath(system: string, fullPath: string): string
  {
    "agave://" + system + "/" + fullPath
  }

  /** Two documents share an address only when they share the system and
      the full path, as long as system ids carry no slash. */
  lemma {:induction false} AgavePathInjective(s1: string, f1: string, s2: string, f2: string)
    requires HasNoSlash(s1) && HasNoSlash(s2)
    requires AgavePath(s1, f1) == AgavePath(s2, f2)
    ensures s1 == s2 && f1 == f2
  {
    var a1, a2 := AgavePath(s1, f1), AgavePath(s2, f2);
    assert a1[8..] == s1 + "/" + f1;
    assert a2[8..] == s2 + "/" + f2;
    SlashSplitUnique(s1, f1, s2, f2);
  }

  lemma {:induction false} SlashSplitUnique(s1: string, f1: string, s2: string, f2: string)
    requires HasNoSlash(s1) && HasNoSlash(s2)
    requires s1 + "/" + f1 == s2 + "/" + f2
    ensures s1 == s2 && f1 == f2
    decreases |s1|
  {
    var a, b := s1 + "/" + f1, s2 + "/" + f2;
    assert (a[0] == '/') == (s1 == []);
    assert (b[0] == '/') == (s2 == []);
    if s1 == [] || s2 == [] {
      assert a[|s1| + 1..] == f1 && b[|s2| + 1..] == f2;
    } else {
      assert a[0] == s1[0] && b[0] == s2[0];
      assert a[1..] == s1[1..] + "/" + f1;
      assert b[1..] == s2[1..] + "/" + f2;
      SlashSplitUnique(s1[1..], f1, s2[1..], f2);
      assert s1 == [s1[0]] + s1[1..];
      assert s2 == [s2[0]] + s2[1..];
    }
  }

  /** `s.split(sep)` for a one-character separator. */
  function SplitOn(s: string, sep: char): (r: seq<string>)
    ensures |r| >= 1
    ensures forall k :: 0 <= k < |r| ==> sep !in r[k]
    decreases |s|
  {
    if s == [] then [""]
    else if s[0] == sep then [""] + SplitOn(s[1..], sep)
    else
      var rest := SplitOn(s[1..], sep);
      [[s[0]] + rest[0]] + rest[1..]
  }

  /** `sep.join(comps)`. */
  function JoinWith(sep: string, comps: seq<string>): string
    decreases |comps|
  {
    if comps == [] then ""
    else if |comps| == 1 then comps[0]
    else comps[0] + sep + JoinWith(sep, comps[1..])
  }

  /** Splitting on a character and joining with it again is the identity. */
  lemma {:induction false} JoinSplitOn(s: string, sep: char)
    ensures JoinWith([sep], SplitOn(s, sep)) == s
    decreases |s|
  {
    if s != [] {
      JoinSplitOn(s[1..], sep);
      var rest := SplitOn(s[1..], sep);
      if s[0] == sep {
        assert SplitOn(s, sep) == [""] + rest;
        if |rest| == 1 {
          assert JoinWith([sep], [""] + rest) == "" + [sep] + rest[0];
        } else {
          assert ([""] + rest)[1..] == rest;
        }
      } else {
        var r := SplitOn(s, sep);
        assert r == [[s[0]] + rest[0]] + rest[1..];
        if |rest| == 1 {
          assert JoinWith([sep], r) == [s[0]] + rest[0];
        } else {
          assert r[1..] == rest[1..];
          assert JoinWith([sep], rest) == rest[0] + [sep] + JoinWith([sep], rest[1..]);
        }
      }
    }
  }

  /** Joining a leading part of the components and then joining the rest
      onto it gives the join of all of them. */
  lemma {:induction false} JoinWithPrefix(sep: string, comps: seq<string>, k: nat)
    requires 0 < k < |comps|
    ensures JoinWith(sep, comps) == JoinWith(sep, comps[..k]) + sep + JoinWith(sep, comps[k..])
    decreases k
  {
    if k > 1 {
      JoinWithPrefix(sep, comps[1..], k - 1);
      assert comps[1..][..k - 1] == comps[..k][1..];
      assert comps[1..][k - 1..] == comps[k..];
    }
  }
}
