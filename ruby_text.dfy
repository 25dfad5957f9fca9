/**
 * The parts of Ruby's string and path library that the bundle manager relies on:
 * ASCII case folding (what the `/i` regex option does to the letters compared here)
 * and `File.basename`, with and without an extension to strip, as Ruby implements it
 * on a POSIX file system.
 */
module RubyText {

  /** Lower-cases an ASCII letter; every other character is its own fold. */
  function Fold(c: char): char
  {
    if 'A' <= c <= 'Z' then (c as int - 'A' as int + 'a' as int) as char else c
  }

  /** `a` and `b` are the same string up to ASCII case: letter by letter after folding. */
  predicate SameIgnoringCase(a: string, b: string)
  {
    |a| == |b| && forall i :: 0 <= i < |a| ==> Fold(a[i]) == Fold(b[i])
  }

  /** `s` begins with `prefix` up to ASCII case. */
  predicate StartsWithIgnoringCase(s: string, prefix: string)
  {
    |prefix| <= |s| && SameIgnoringCase(s[..|prefix|], prefix)
  }

  /** `s` ends with exactly `suffix` (case-sensitive). */
  predicate EndsWith(s: string, suffix: string)
  {
    |suffix| <= |s| && s[|s| - |suffix|..] == suffix
  }

  /** `s` without its trailing run of '/'. */
  function ChompSlashes(s: string): string
  {
    if s != [] && s[|s| - 1] == '/' then ChompSlashes(s[..|s| - 1]) else s
  }

  /** What is chomped is a prefix that does not end in '/', and only slashes are dropped. */
  lemma {:induction false} ChompSlashesSpec(s: string)
    ensures var r := ChompSlashes(s);
      && |r| <= |s| && r == s[..|r|]
      && (r == [] || r[|r| - 1] != '/')
      && forall i :: |r| <= i < |s| ==> s[i] == '/'
  {
    if s != [] && s[|s| - 1] == '/' {
      var init := s[..|s| - 1];
      ChompSlashesSpec(init);
      var r := ChompSlashes(init);
      assert s[..|r|] == init[..|r|];
    }
  }

  /** The last '/'-separated segment of `s`: its longest suffix that holds no '/'. */
  function AfterLastSlash(s: string): string
  {
    if s == [] then []
    else if s[|s| - 1] == '/' then []
    else AfterLastSlash(s[..|s| - 1]) + [s[|s| - 1]]
  }

  /**
   * The three clauses determine the last segment: a slash-free suffix that is either
   * all of `s` or starts right after a '/'.
   */
  lemma {:induction false} AfterLastSlashSpec(s: string)
    ensures var r := AfterLastSlash(s);
      && |r| <= |s| && r == s[|s| - |r|..]
      && '/' !in r
      && (|r| < |s| ==> s[|s| - |r| - 1] == '/')
  {
    if s != [] && s[|s| - 1] != '/' {
      var init := s[..|s| - 1];
      AfterLastSlashSpec(init);
      var r := AfterLastSlash(s);
      assert s[|s| - |r|..] == init[|init| - |r| + 1..] + [s[|s| - 1]];
    }
  }

  /**
   * Ruby's `File.basename(path)`: "" for "", "/" for a path made only of slashes,
   * otherwise the last segment once trailing slashes are dropped.
   */
  function Basename(path: string): string
  {
    if path == [] then []
    else
      var trimmed := ChompSlashes(path);
      if trimmed == [] then "/" else AfterLastSlash(trimmed)
  }

  /**
   * Ruby's `File.basename(path, ext)` for a literal `ext` (the two-character form
   * ".*", "any extension", is another rule and is not modelled): the extension is
   * removed, case-sensitively, only when the base name ends with it and is strictly
   * longer than it, so a base name equal to `ext` is kept whole.
   */
  function BasenameWithout(path: string, ext: string): string
    requires !(|ext| == 2 && ext[1] == '*')
  {
    var base := Basename(path);
    if |ext| > 0 && |base| > |ext| && EndsWith(base, ext) then base[..|base| - |ext|] else base
  }

  /** Characters after the last slash are unaffected by what comes before it. */
  lemma {:induction false} AfterLastSlashAppend(s: string, t: string)
    requires '/' !in t
    ensures AfterLastSlash(s + t) == AfterLastSlash(s) + t
  {
    if t != [] {
      var t' := t[..|t| - 1];
      assert (s + t)[..|s + t| - 1] == s + t';
      assert t[|t| - 1] in t;
      AfterLastSlashAppend(s, t');
      calc {
        AfterLastSlash(s + t);
        AfterLastSlash(s + t') + [t[|t| - 1]];
        AfterLastSlash(s) + (t' + [t[|t| - 1]]);
        { assert t' + [t[|t| - 1]] == t; }
        AfterLastSlash(s) + t;
      }
    } else {
      assert s + t == s && AfterLastSlash(s) + t == AfterLastSlash(s);
    }
  }

  /** A path that ends in a non-empty slash-free part `t` has base name: the last segment of `s`, then `t`. */
  lemma BasenameAppend(s: string, t: string)
    requires t != [] && '/' !in t
    ensures Basename(s + t) == AfterLastSlash(s) + t
    ensures '/' !in Basename(s + t)
  {
    var g := s + t;
    assert g[|g| - 1] == t[|t| - 1] && t[|t| - 1] in t;
    assert ChompSlashes(g) == g;
    AfterLastSlashAppend(s, t);
    AfterLastSlashSpec(s);
    NotInAppend('/', AfterLastSlash(s), t);
  }

  /** The same for a path that ends in two slash-free parts. */
  lemma BasenameAppendTwo(s: string, t: string, u: string)
    requires u != [] && '/' !in t && '/' !in u
    ensures Basename(s + t + u) == AfterLastSlash(s) + t + u
    ensures '/' !in Basename(s + t + u)
  {
    var v := t + u;
    NotInAppend('/', t, u);
    BasenameAppend(s, v);
    assert s + t + u == s + v;
    assert AfterLastSlash(s) + t + u == AfterLastSlash(s) + v;
  }

  /** A character in neither of two strings is not in their concatenation. */
  lemma NotInAppend(c: char, a: string, b: string)
    requires c !in a && c !in b
    ensures c !in a + b
  {
    forall i | 0 <= i < |a + b| ensures (a + b)[i] != c {
      if i < |a| { assert (a + b)[i] == a[i]; } else { assert (a + b)[i] == b[i - |a|]; }
    }
  }

  /** A slash-free string is its own last segment. */
  lemma AfterLastSlashOfSlashFree(s: string)
    requires '/' !in s
    ensures AfterLastSlash(s) == s
  {
    AfterLastSlashAppend([], s);
    assert [] + s == s;
  }

  /** A slash-free segment after a directory part is the base name of the path. */
  lemma BasenameOfJoin(dir: string, segment: string)
    requires segment != [] && '/' !in segment
    ensures Basename(dir + "/" + segment) == segment
    ensures Basename(segment) == segment
  {
    AfterLastSlashAppend(dir + "/", segment);
    AfterLastSlashAppend([], segment);
    assert [] + segment == segment;
  }

  /** Trailing slashes do not change the base name of a path that has a segment. */
  lemma BasenameIgnoresTrailingSlash(path: string)
    requires ChompSlashes(path) != []
    ensures Basename(path + "/") == Basename(path)
  {
    assert (path + "/")[..|path|] == path;
  }

  /**
   * A path whose last segment is not made of slashes and does not end in '/' has
   * that segment as base name, with `ext` removed when the segment is longer.
   */
  lemma BasenameWithoutOfJoin(dir: string, segment: string, ext: string)
    requires segment != [] && '/' !in segment
    requires |ext| > 0 && !(|ext| == 2 && ext[1] == '*')
    ensures BasenameWithout(dir + "/" + segment, ext)
         == if |segment| > |ext| && EndsWith(segment, ext) then segment[..|segment| - |ext|] else segment
  {
    BasenameOfJoin(dir, segment);
  }
}
