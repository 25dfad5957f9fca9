/**
 * `TMBundle::BundleName`: turns the name a user types for `install` into the
 * directory name to clone into, the GitHub repository name and the clone URL.
 *
 * The suffix rules are two Ruby regular expressions, matched case-insensitively:
 *   /([\.\-_]tmbundle)?$/i  (install_name, through `gsub`)
 *   /([\.\-_]tmbundle)$/i   (repo_name, through `=~`)
 * They are modelled exactly: `$` is Ruby's end of LINE (the end of the string or
 * just before a '\n'), the group is tried before it is skipped, and `gsub` scans
 * the way Ruby's `String#gsub` does.
 */
module BundleNames {
  import opened Optional
  import opened RubyText
  import opened Bundles

  /** The word of the suffix, after its separator. */
  const Token: string := "tmbundle"

  /** The host part of every clone URL. */
  const GitHub: string := "https://github.com/"

  predicate IsSeparator(c: char)
  {
    c == '.' || c == '-' || c == '_'
  }

  /** The group ([\.\-_]tmbundle) matches `s` at `p`, in any ASCII case. */
  predicate SuffixAt(s: string, p: nat)
  {
    p + |Ext| <= |s| && IsSeparator(s[p]) && SameIgnoringCase(s[p + 1..p + |Ext|], Token)
  }

  /** Ruby's `$`: the end of the string, or just before a newline. */
  predicate AtLineEnd(s: string, p: nat)
    requires p <= |s|
  {
    p == |s| || s[p] == '\n'
  }

  /** The name ends with a separator and "tmbundle" in any case. */
  predicate HasSuffix(name: string)
  {
    |name| >= |Ext| && SuffixAt(name, |name| - |Ext|)
  }

  /**
   * Where a match of the suffix pattern tried at `p` ends, if it matches there.
   * `optional` selects /([\.\-_]tmbundle)?$/ rather than /([\.\-_]tmbundle)$/: the
   * greedy `?` first tries the group and falls back to the empty match.
   */
  function MatchAt(s: string, p: nat, optional: bool): (r: Option<nat>)
    requires p <= |s|
  {
    if SuffixAt(s, p) && AtLineEnd(s, p + |Ext|) then Some(p + |Ext|)
    else if optional && AtLineEnd(s, p) then Some(p)
    else None
  }

  /**
   * The leftmost match at or after `from`, as (start, end): Ruby's regex search.
   */
  function Search(s: string, from: nat, optional: bool): (r: Option<(nat, nat)>)
    requires from <= |s|
    ensures r.Some? ==> from <= r.value.0 <= |s| && MatchAt(s, r.value.0, optional) == Some(r.value.1)
    ensures r.Some? ==> forall p :: from <= p < r.value.0 ==> MatchAt(s, p, optional).None?
    ensures r.None? ==> forall p :: from <= p <= |s| ==> MatchAt(s, p, optional).None?
    decreases |s| - from
  {
    match MatchAt(s, from, optional)
    case Some(e) => Some((from, e))
    case None => if from == |s| then None else Search(s, from + 1, optional)
  }

  /**
   * Ruby's `s.gsub(/([\.\-_]tmbundle)?$/i, repl)` from `offset` on: copy up to the
   * next match, emit `repl`, and resume at the match's end; after an empty match
   * copy one more character and resume behind it, or stop at the end of the string.
   * A non-empty match that ends at the end of the string is followed by one more
   * search there, which finds the empty match.
   */
  function GsubFrom(s: string, repl: string, offset: nat): string
    requires offset <= |s|
    decreases |s| - offset
  {
    match Search(s, offset, true)
    case None => s[offset..]
    case Some((b, e)) =>
      if b < e then s[offset..b] + repl + GsubFrom(s, repl, e)
      else if e == |s| then s[offset..b] + repl
      else s[offset..b] + repl + [s[e]] + GsubFrom(s, repl, e + 1)
  }

  /** A name as typed for `install`. */
  datatype BundleName = BundleName(name: string)
  {
    /** `File.basename(name.gsub(/([\.\-_]tmbundle)?$/i, '.tmbundle'))`. */
    function InstallName(): string
    {
      Basename(GsubFrom(name, Ext, 0))
    }

    /** `name + '.tmbundle' unless name =~ /([\.\-_]tmbundle)$/i`; `nil` is `None`. */
    function RepoName(): Option<string>
    {
      if Search(name, 0, false).Some? then None else Some(name + Ext)
    }

    /** `"https://github.com/#{repo_name}.git"`; `nil` interpolates as "". */
    function GitUrl(): string
    {
      GitHub + (match RepoName() case Some(r) => r case None => "") + ".git"
    }

    /** What `install_name` is evidently meant to give: a recognised suffix replaced once. */
    function IntendedInstallName(): string
    {
      Basename(Stem(name) + Ext)
    }

    /** What `repo_name` is evidently meant to give: the name itself when already suffixed. */
    function IntendedRepoName(): string
    {
      if Search(name, 0, false).Some? then name else name + Ext
    }

    /** The clone URL built from the intended repository name. */
    function IntendedGitUrl(): string
    {
      GitHub + IntendedRepoName() + ".git"
    }
  }

  /** The name without a recognised suffix at its very end. */
  function Stem(name: string): (r: string)
    ensures |r| <= |name| && r == name[..|r|]
  {
    if HasSuffix(name) then name[..|name| - |Ext|] else name
  }

  // ---------------------------------------------------------------------------
  // The two patterns on newline-free names
  // ---------------------------------------------------------------------------

  /** Without newlines, the optional pattern matches only the suffix or the very end. */
  lemma MatchAtNoNewline(s: string, p: nat, optional: bool)
    requires '\n' !in s && p <= |s|
    ensures MatchAt(s, p, optional)
         == if p + |Ext| == |s| && SuffixAt(s, p) then Some(|s|)
            else if optional && p == |s| then Some(p)
            else None
  {
    if p < |s| { assert s[p] in s; }
    if p + |Ext| < |s| { assert s[p + |Ext|] in s; }
  }

  /** A search finds the first position where the pattern matches. */
  lemma SearchFinds(s: string, from: nat, optional: bool, q: nat, e: nat)
    requires from <= q <= |s| && MatchAt(s, q, optional) == Some(e)
    requires forall p :: from <= p < q ==> MatchAt(s, p, optional).None?
    ensures Search(s, from, optional) == Some((q, e))
  {
    var r := Search(s, from, optional);
    assert r.Some?;
    assert r.value.0 <= q;
    assert r.value.0 == q;
  }

  /** In a newline-free name, nothing matches before the last nine characters or the end. */
  lemma NoEarlyMatch(s: string, p: nat, optional: bool)
    requires '\n' !in s && p < |s| && p + |Ext| != |s|
    ensures MatchAt(s, p, optional).None?
  {
    assert s[p] in s;
    if p + |Ext| < |s| { assert s[p + |Ext|] in s; }
  }

  /** At the very end only the empty match is possible. */
  lemma MatchAtEnd(s: string)
    ensures MatchAt(s, |s|, true) == Some(|s|) && MatchAt(s, |s|, false) == None
  {
  }

  /** In a newline-free name with a suffix, the pattern matches nowhere before the suffix. */
  lemma NoMatchBeforeSuffix(s: string, optional: bool)
    requires '\n' !in s && HasSuffix(s)
    ensures forall p :: 0 <= p < |s| - |Ext| ==> MatchAt(s, p, optional).None?
  {
    forall p | 0 <= p < |s| - |Ext| ensures MatchAt(s, p, optional).None? {
      NoEarlyMatch(s, p, optional);
    }
  }

  /** A suffix at the end of the name is matched whole. */
  lemma MatchAtSuffix(s: string, optional: bool)
    requires HasSuffix(s)
    ensures MatchAt(s, |s| - |Ext|, optional) == Some(|s|)
  {
  }

  /** Either pattern first matches a newline-free name with a suffix at the suffix. */
  lemma SuffixedSearch(s: string, optional: bool)
    requires '\n' !in s && HasSuffix(s)
    ensures Search(s, 0, optional) == Some((|s| - |Ext|, |s|))
  {
    NoMatchBeforeSuffix(s, optional);
    MatchAtSuffix(s, optional);
    SearchFinds(s, 0, optional, |s| - |Ext|, |s|);
  }

  /** In a newline-free name without a suffix, the optional pattern matches nowhere before the end. */
  lemma NoMatchBeforeEnd(s: string)
    requires '\n' !in s && !HasSuffix(s)
    ensures forall p :: 0 <= p < |s| ==> MatchAt(s, p, true).None?
  {
    forall p | 0 <= p < |s| ensures MatchAt(s, p, true).None? {
      if p + |Ext| == |s| {
        assert !SuffixAt(s, p);
        assert s[p] in s;
      } else {
        NoEarlyMatch(s, p, true);
      }
    }
  }

  /** The first match of the optional pattern in a newline-free name without a suffix. */
  lemma FirstOptionalMatchUnsuffixed(s: string)
    requires '\n' !in s && !HasSuffix(s)
    ensures Search(s, 0, true) == Some((|s|, |s|))
  {
    NoMatchBeforeEnd(s);
    MatchAtEnd(s);
    SearchFinds(s, 0, true, |s|, |s|);
  }

  /** The first match of the optional pattern in a newline-free name. */
  lemma FirstOptionalMatch(s: string)
    requires '\n' !in s
    ensures Search(s, 0, true) == if HasSuffix(s) then Some((|s| - |Ext|, |s|)) else Some((|s|, |s|))
  {
    if HasSuffix(s) { SuffixedSearch(s, true); } else { FirstOptionalMatchUnsuffixed(s); }
  }

  /** The required pattern, on any name, matches iff some line of it ends in a suffix. */
  lemma RequiredMatchIff(s: string)
    ensures Search(s, 0, false).Some? <==> exists p: nat :: SuffixAt(s, p) && AtLineEnd(s, p + |Ext|)
  {
    if exists p: nat :: SuffixAt(s, p) && AtLineEnd(s, p + |Ext|) {
      var p: nat :| SuffixAt(s, p) && AtLineEnd(s, p + |Ext|);
      assert MatchAt(s, p, false).Some?;
    }
  }

  /** On a newline-free name, the required pattern matches iff the name ends in a suffix. */
  lemma RequiredMatchNoNewline(s: string)
    requires '\n' !in s
    ensures Search(s, 0, false).Some? <==> HasSuffix(s)
  {
    RequiredMatchIff(s);
    forall p | 0 <= p <= |s| { MatchAtNoNewline(s, p, false); }
    if HasSuffix(s) { assert MatchAt(s, |s| - |Ext|, false).Some?; }
  }

  /** The gsub result on a newline-free name. */
  lemma GsubNoNewline(s: string, repl: string)
    requires '\n' !in s
    ensures GsubFrom(s, repl, 0) == if HasSuffix(s) then s[..|s| - |Ext|] + repl + repl else s + repl
  {
    FirstOptionalMatch(s);
    if HasSuffix(s) {
      assert MatchAt(s, |s|, true) == Some(|s|);
      assert Search(s, |s|, true) == Some((|s|, |s|));
      assert GsubFrom(s, repl, |s|) == repl;
    } else {
      assert s[0..|s|] == s;
    }
  }

  // ---------------------------------------------------------------------------
  // install_name, repo_name and git_url as the code computes them
  // ---------------------------------------------------------------------------

  /** Appending ".tmbundle" always gives a name with a recognised suffix. */
  lemma ExtEndsAnySuffixed(stem: string)
    ensures HasSuffix(stem + Ext) && EndsWith(stem + Ext, Ext)
    ensures (stem + Ext)[..|stem + Ext| - |Ext|] == stem
  {
    var r := stem + Ext;
    var p := |r| - |Ext|;
    assert r[p..] == Ext;
    assert r[p + 1..p + |Ext|] == Token;
    assert SuffixAt(r, p);
  }

  lemma ExtIsSlashFree()
    ensures '/' !in Ext && '/' !in Token && |Ext| == 9
  {
  }

  /**
   * For a newline-free name with no recognised suffix, install_name is the last
   * '/'-segment of `name + ".tmbundle"`: no slash in it, and it ends with ".tmbundle".
   */
  lemma InstallNameUnsuffixed(name: string)
    requires '\n' !in name && !HasSuffix(name)
    ensures BundleName(name).InstallName() == AfterLastSlash(name) + Ext
    ensures '/' !in BundleName(name).InstallName()
    ensures EndsWith(BundleName(name).InstallName(), Ext)
    ensures '/' !in name ==> BundleName(name).InstallName() == name + Ext
  {
    GsubNoNewline(name, Ext);
    ExtIsSlashFree();
    BasenameAppend(name, Ext);
    var r := AfterLastSlash(name) + Ext;
    assert r[|r| - |Ext|..] == Ext;
    if '/' !in name { AfterLastSlashOfSlashFree(name); }
  }

  /**
   * For a newline-free name that ends in a recognised suffix, the global `gsub`
   * replaces the suffix AND the empty match left at the end, so install_name ends
   * in ".tmbundle.tmbundle".
   */
  lemma InstallNameSuffixed(name: string)
    requires '\n' !in name && HasSuffix(name)
    ensures BundleName(name).InstallName() == AfterLastSlash(name[..|name| - |Ext|]) + Ext + Ext
    ensures '/' !in BundleName(name).InstallName()
  {
    GsubNoNewline(name, Ext);
    ExtIsSlashFree();
    BasenameAppendTwo(name[..|name| - |Ext|], Ext, Ext);
  }

  /**
   * repo_name is `nil` exactly when some line of the name ends in a recognised suffix
   * (for a newline-free name: when the name does); otherwise it is the name with
   * ".tmbundle" appended. It never returns the raw name.
   */
  lemma RepoNameSpec(name: string)
    ensures BundleName(name).RepoName().None? <==> exists p: nat :: SuffixAt(name, p) && AtLineEnd(name, p + |Ext|)
    ensures '\n' !in name ==> (BundleName(name).RepoName().None? <==> HasSuffix(name))
    ensures BundleName(name).RepoName().Some? ==> BundleName(name).RepoName().value == name + Ext
  {
    RequiredMatchIff(name);
    if '\n' !in name { RequiredMatchNoNewline(name); }
  }

  /**
   * git_url wraps repo_name in the GitHub template; when repo_name is `nil` the
   * URL degenerates to "https://github.com/.git".
   */
  lemma GitUrlSpec(name: string)
    requires '\n' !in name
    ensures !HasSuffix(name) ==> BundleName(name).GitUrl() == GitHub + name + Ext + ".git"
    ensures HasSuffix(name) ==> BundleName(name).GitUrl() == GitHub + ".git"
  {
    RepoNameSpec(name);
  }

  /** "Foo-TmBundle" is newline-free and ends in a recognised suffix after "Foo". */
  lemma DashSuffixedName(n: string)
    requires n == "Foo-TmBundle"
    ensures '\n' !in n && HasSuffix(n) && n[..|n| - |Ext|] == "Foo"
  {
    var p := |n| - |Ext|;
    assert n[p + 1..p + |Ext|] == "TmBundle";
    assert SameIgnoringCase("TmBundle", "tmbundle");
    assert SuffixAt(n, p);
  }

  /** `install "Foo-TmBundle"` clones into "Foo.tmbundle.tmbundle" from "https://github.com/.git". */
  lemma DashSuffixExample(n: string)
    requires n == "Foo-TmBundle"
    ensures BundleName(n).InstallName() == "Foo" + Ext + Ext
    ensures BundleName(n).RepoName() == None
    ensures BundleName(n).GitUrl() == GitHub + ".git"
  {
    DashSuffixedName(n);
    var foo := n[..|n| - |Ext|];
    assert '/' !in foo;
    calc {
      BundleName(n).InstallName();
      { InstallNameSuffixed(n); }
      AfterLastSlash(foo) + Ext + Ext;
      { AfterLastSlashOfSlashFree(foo); }
      foo + Ext + Ext;
    }
    GitUrlSpec(n);
  }

  /** `install "ruby"` clones "https://github.com/ruby.tmbundle.git" into "ruby.tmbundle". */
  lemma PlainNameExample(n: string)
    requires n == "ruby"
    ensures BundleName(n).InstallName() == n + Ext
    ensures BundleName(n).GitUrl() == GitHub + n + Ext + ".git"
  {
    assert !HasSuffix(n) && '\n' !in n && '/' !in n;
    InstallNameUnsuffixed(n);
    GitUrlSpec(n);
  }

  // ---------------------------------------------------------------------------
  // The evidently intended behaviour, beside the code's
  // ---------------------------------------------------------------------------

  /**
   * As written, install_name is not idempotent: for a plain name without '/', a first
   * pass appends ".tmbundle" and a second pass on that result appends another.
   */
  lemma InstallNameNotIdempotent(n: string)
    requires '\n' !in n && '/' !in n
    ensures !HasSuffix(n) ==> BundleName(n).InstallName() == n + Ext
    ensures BundleName(n + Ext).InstallName() == n + Ext + Ext
  {
    if !HasSuffix(n) { InstallNameUnsuffixed(n); }
    ExtEndsAnySuffixed(n);
    ExtIsSlashFree();
    assert '\n' !in Ext;
    NotInAppend('\n', n, Ext);
    InstallNameSuffixed(n + Ext);
    AfterLastSlashOfSlashFree(n);
  }

  /**
   * The intended install name carries one ".tmbundle", replacing a recognised suffix,
   * and normalising an already normalised name changes nothing.
   */
  lemma IntendedInstallNameNormalises(name: string)
    requires '\n' !in name
    ensures var r := BundleName(name).IntendedInstallName();
      '/' !in r && EndsWith(r, Ext) && HasSuffix(r)
      && r == AfterLastSlash(Stem(name)) + Ext
      && BundleName(r).IntendedInstallName() == r
  {
    ExtIsSlashFree();
    BasenameAppend(Stem(name), Ext);
    AfterLastSlashSpec(Stem(name));
    var r := AfterLastSlash(Stem(name)) + Ext;
    NotInAppend('/', AfterLastSlash(Stem(name)), Ext);
    ExtEndsAnySuffixed(AfterLastSlash(Stem(name)));
    assert Stem(r) == AfterLastSlash(Stem(name));
    BasenameAppend(AfterLastSlash(Stem(name)), Ext);
    AfterLastSlashOfSlashFree(AfterLastSlash(Stem(name)));
  }

  /** Where the name has no suffix, the code already does what was intended. */
  lemma InstallNameAgreesWhenUnsuffixed(name: string)
    requires '\n' !in name
    ensures !HasSuffix(name) ==> BundleName(name).InstallName() == BundleName(name).IntendedInstallName()
    ensures HasSuffix(name) ==> BundleName(name).InstallName() == BundleName(name).IntendedInstallName() + Ext
  {
    IntendedInstallNameNormalises(name);
    if HasSuffix(name) { InstallNameSuffixed(name); } else { InstallNameUnsuffixed(name); }
  }

  /** A newline-free name, given ".tmbundle" when it has no suffix, has one and stays newline-free. */
  lemma SuffixedForm(name: string)
    requires '\n' !in name
    ensures var r := if HasSuffix(name) then name else name + Ext;
      HasSuffix(r) && '\n' !in r
  {
    if !HasSuffix(name) {
      ExtEndsAnySuffixed(name);
      assert '\n' !in Ext;
      NotInAppend('\n', name, Ext);
    }
  }

  /**
   * The intended repository name always ends in a recognised suffix, so the URL always
   * names a repository: the name itself when it has one, else the name with ".tmbundle".
   */
  lemma IntendedRepoNameSpec(name: string)
    requires '\n' !in name
    ensures HasSuffix(BundleName(name).IntendedRepoName())
    ensures BundleName(name).IntendedRepoName() == (if HasSuffix(name) then name else name + Ext)
    ensures '\n' !in BundleName(name).IntendedRepoName()
  {
    RequiredMatchNoNewline(name);
    SuffixedForm(name);
  }

  /** Wherever repo_name is not `nil`, the intended URL is the code's. */
  lemma IntendedGitUrlAgrees(name: string)
    ensures BundleName(name).RepoName().Some? ==> BundleName(name).IntendedGitUrl() == BundleName(name).GitUrl()
  {
  }

  /** The intended repository name of an intended repository name is itself. */
  lemma IntendedRepoNameIdempotent(name: string)
    requires '\n' !in name
    ensures var r := BundleName(name).IntendedRepoName();
      BundleName(r).IntendedRepoName() == r
  {
    IntendedRepoNameSpec(name);
    RequiredMatchNoNewline(BundleName(name).IntendedRepoName());
  }

  /** The suffixed name that the code sends to "https://github.com/.git" gets its own URL. */
  lemma IntendedGitUrlExample(n: string)
    requires n == "Foo-TmBundle"
    ensures BundleName(n).IntendedGitUrl() == GitHub + n + ".git"
  {
    DashSuffixedName(n);
    IntendedRepoNameSpec(n);
  }
}
