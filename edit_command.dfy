/**
 * The `edit PARTIAL_NAME` command: select the installed bundles whose name matches
 * `/^#{partial_name}/i`, then either list them (more than one), report that nothing
 * was found (none), or hand the one bundle's path to the editor.
 */
module EditCommand {
  import opened RubyText
  import opened Bundles

  /** Characters that mean something in a Ruby regular expression outside a class. */
  predicate IsRegexMeta(c: char)
  {
    c in ".*?+^$|()[]{}\\"
  }

  /** A partial name that, interpolated into a pattern, stands for itself. */
  predicate IsLiteral(partial: string)
  {
    forall i :: 0 <= i < |partial| ==> !IsRegexMeta(partial[i])
  }

  /** Ruby's `^`: the start of the string, or just after a newline that is not the last character. */
  predicate AtLineStart(s: string, p: nat)
    requires p <= |s|
  {
    p == 0 || (p < |s| && s[p - 1] == '\n')
  }

  /** The regex search for `/^#{partial}/i` from position `p` on, for a literal partial name. */
  predicate MatchesFrom(name: string, partial: string, p: nat)
    requires p <= |name|
    decreases |name| - p
  {
    (AtLineStart(name, p) && StartsWithIgnoringCase(name[p..], partial))
    || (p < |name| && MatchesFrom(name, partial, p + 1))
  }

  /** `name =~ /^#{partial}/i` for a literal partial name. */
  predicate Matches(name: string, partial: string)
  {
    MatchesFrom(name, partial, 0)
  }

  /** The bundle is picked by the partial name. */
  predicate Wanted(b: Bundle, partial: string)
  {
    Matches(b.Name(), partial)
  }

  /** Ruby's `Array#select`: the elements the block keeps, in order. */
  function Filter(s: seq<Bundle>, keep: Bundle -> bool): seq<Bundle>
  {
    if s == [] then [] else (if keep(s[0]) then [s[0]] else []) + Filter(s[1..], keep)
  }

  /** The block given to `select`. */
  function WantedBy(partial: string): Bundle -> bool
  {
    b => Wanted(b, partial)
  }

  /** `installed_bundles.select { |bundle| bundle.name =~ /^#{partial_name}/i }`. */
  function Select(installed: seq<Bundle>, partial: string): seq<Bundle>
  {
    Filter(installed, WantedBy(partial))
  }

  /** One line of the list shown for an ambiguous partial name: " #{i+1}) #{m.name}". */
  datatype Choice = Choice(number: nat, name: string)

  /** What `edit` does. */
  datatype EditOutcome =
    | Ambiguous(choices: seq<Choice>)  // "please be more specific:", the list; returns false
    | NothingFound                     // "nothing found"; returns false
    | Open(path: string)               // `mate path`, which replaces the process

  /** `matches.each_with_index`: the matches numbered from 1, in order. */
  function Numbered(matches: seq<Bundle>): seq<Choice>
  {
    seq(|matches|, k requires 0 <= k < |matches| => Choice(k + 1, matches[k].Name()))
  }

  /** The `edit` command on the installed bundles, in enumeration order. */
  function Edit(installed: seq<Bundle>, partial: string): EditOutcome
    requires IsLiteral(partial)
  {
    var matches := Select(installed, partial);
    if |matches| > 1 then Ambiguous(Numbered(matches))
    else if matches == [] then NothingFound
    else Open(matches[0].path)
  }

  // ---------------------------------------------------------------------------

  /** On a name without newlines, the anchored match is a case-insensitive prefix test. */
  lemma MatchesIsPrefix(name: string, partial: string)
    requires '\n' !in name
    ensures Matches(name, partial) <==> StartsWithIgnoringCase(name, partial)
  {
    assert name[0..] == name;
    if 0 < |name| { NoLaterMatch(name, partial, 1); }
  }

  /** Past the start, a name without newlines has no line start to match at. */
  lemma {:induction false} NoLaterMatch(name: string, partial: string, p: nat)
    requires '\n' !in name && 0 < p <= |name|
    ensures !MatchesFrom(name, partial, p)
    decreases |name| - p
  {
    assert name[p - 1] in name;
    if p < |name| { NoLaterMatch(name, partial, p + 1); }
  }

  /** Filtering a concatenation filters from each part, keeping the order. */
  lemma {:induction false} FilterAppend(a: seq<Bundle>, b: seq<Bundle>, keep: Bundle -> bool)
    ensures Filter(a + b, keep) == Filter(a, keep) + Filter(b, keep)
  {
    if a == [] {
      assert a + b == b;
    } else {
      var head := if keep(a[0]) then [a[0]] else [];
      calc {
        Filter(a + b, keep);
        { assert (a + b)[0] == a[0]; }
        head + Filter((a + b)[1..], keep);
        { assert (a + b)[1..] == a[1..] + b; }
        head + Filter(a[1..] + b, keep);
        { FilterAppend(a[1..], b, keep); }
        head + (Filter(a[1..], keep) + Filter(b, keep));
        Filter(a, keep) + Filter(b, keep);
      }
    }
  }

  /** Exactly the kept elements remain. */
  lemma {:induction false} FilterMembers(installed: seq<Bundle>, keep: Bundle -> bool)
    ensures forall b :: b in Filter(installed, keep) <==> b in installed && keep(b)
  {
    if installed != [] {
      FilterMembers(installed[1..], keep);
      assert installed == [installed[0]] + installed[1..];
    }
  }

  /** Nothing remains iff no element is kept. */
  lemma {:induction false} FilterEmpty(s: seq<Bundle>, keep: Bundle -> bool)
    ensures Filter(s, keep) == [] <==> forall i :: 0 <= i < |s| ==> !keep(s[i])
  {
    if s != [] {
      FilterEmpty(s[1..], keep);
      assert forall i :: 1 <= i < |s| ==> s[i] == s[1..][i - 1];
    }
  }

  /** Two or more elements remain iff two positions hold kept elements. */
  lemma {:induction false} FilterSeveral(s: seq<Bundle>, keep: Bundle -> bool)
    ensures |Filter(s, keep)| >= 2
        <==> exists i, j :: 0 <= i < j < |s| && keep(s[i]) && keep(s[j])
  {
    if s != [] {
      var t := s[1..];
      FilterSeveral(t, keep);
      FilterEmpty(t, keep);
      if keep(s[0]) && Filter(t, keep) != [] {
        var j :| 0 <= j < |t| && keep(t[j]);
        assert s[j + 1] == t[j];
      }
      if exists i, j :: 0 <= i < j < |s| && keep(s[i]) && keep(s[j]) {
        var i, j :| 0 <= i < j < |s| && keep(s[i]) && keep(s[j]);
        assert s[j] == t[j - 1];
        if i > 0 {
          assert s[i] == t[i - 1];
        }
      }
      if exists i, j :: 0 <= i < j < |t| && keep(t[i]) && keep(t[j]) {
        var i, j :| 0 <= i < j < |t| && keep(t[i]) && keep(t[j]);
        assert s[i + 1] == t[i] && s[j + 1] == t[j];
      }
    }
  }

  /** When exactly one element remains, it is the only kept one. */
  lemma {:induction false} FilterSingle(s: seq<Bundle>, keep: Bundle -> bool)
    requires |Filter(s, keep)| == 1
    ensures exists i :: 0 <= i < |s| && keep(s[i]) && Filter(s, keep)[0] == s[i]
              && forall j :: 0 <= j < |s| && j != i ==> !keep(s[j])
  {
    var t := s[1..];
    if keep(s[0]) {
      assert Filter(t, keep) == [];
      FilterEmpty(t, keep);
      assert forall j :: 1 <= j < |s| ==> s[j] == t[j - 1];
      assert Filter(s, keep)[0] == s[0];
    } else {
      FilterSingle(t, keep);
      var i :| 0 <= i < |t| && keep(t[i]) && Filter(t, keep)[0] == t[i]
        && forall j :: 0 <= j < |t| && j != i ==> !keep(t[j]);
      assert s[i + 1] == t[i];
      forall j | 0 <= j < |s| && j != i + 1 ensures !keep(s[j]) {
        if j > 0 { assert s[j] == t[j - 1]; }
      }
    }
  }

  /**
   * `edit` has exactly one of three outcomes, tested in this order: two or more
   * wanted bundles give the numbered list of all of them in enumeration order; none
   * gives "nothing found"; otherwise the one wanted bundle's path is opened.
   */
  lemma EditOutcomes(installed: seq<Bundle>, partial: string)
    requires IsLiteral(partial)
    ensures var o := Edit(installed, partial);
      && (o.Ambiguous? <==> exists i, j :: 0 <= i < j < |installed|
                              && Wanted(installed[i], partial) && Wanted(installed[j], partial))
      && (o.NothingFound? <==> forall i :: 0 <= i < |installed| ==> !Wanted(installed[i], partial))
      && (o.Open? ==> exists i :: 0 <= i < |installed| && Wanted(installed[i], partial)
                        && o.path == installed[i].path
                        && forall j :: 0 <= j < |installed| && j != i ==> !Wanted(installed[j], partial))
      && (o.Ambiguous? ==> (|o.choices| >= 2 && |o.choices| == |Select(installed, partial)|
                         && forall k :: 0 <= k < |o.choices| ==>
                              o.choices[k] == Choice(k + 1, Select(installed, partial)[k].Name())))
  {
    var keep := WantedBy(partial);
    FilterEmpty(installed, keep);
    FilterSeveral(installed, keep);
    if |Select(installed, partial)| == 1 { FilterSingle(installed, keep); }
  }

  /** An installed "stem.tmbundle" is wanted iff the partial name is a prefix of `stem` up to case. */
  lemma WantedEntry(dir: string, stem: string, partial: string)
    requires stem != [] && '/' !in stem && '\n' !in stem
    ensures Wanted(Bundle(dir + "/" + (stem + Ext)), partial) <==> StartsWithIgnoringCase(stem, partial)
  {
    NameRoundTrip(dir, stem);
    MatchesIsPrefix(stem, partial);
  }

  /** A bundle whose stem differs from the partial name in the first letter is not wanted. */
  lemma EntryNotWanted(dir: string, stem: string, partial: string)
    requires stem != [] && '/' !in stem && '\n' !in stem
    requires partial != [] && Fold(stem[0]) != Fold(partial[0])
    ensures !Wanted(Bundle(dir + "/" + (stem + Ext)), partial)
  {
    WantedEntry(dir, stem, partial);
  }

  /** A bundle whose stem starts with the partial name, up to case, is wanted. */
  lemma EntryWanted(dir: string, stem: string, partial: string)
    requires stem != [] && '/' !in stem && '\n' !in stem
    requires StartsWithIgnoringCase(stem, partial)
    ensures Wanted(Bundle(dir + "/" + (stem + Ext)), partial)
    ensures Bundle(dir + "/" + (stem + Ext)).Name() == stem
  {
    WantedEntry(dir, stem, partial);
    NameRoundTrip(dir, stem);
  }

  /** Of three elements, keeping the first two leaves exactly those two. */
  lemma FilterFirstTwoOfThree(s: seq<Bundle>, keep: Bundle -> bool)
    requires |s| == 3 && keep(s[0]) && keep(s[1]) && !keep(s[2])
    ensures Filter(s, keep) == [s[0], s[1]]
  {
    assert s[1..][1..] == [s[2]];
    assert Filter(s[1..][1..], keep) == [];
  }

  /** A one-letter partial name is a prefix of every stem that starts with that letter in either case. */
  lemma InitialIsPrefix(stem: string, partial: string)
    requires |partial| == 1 && stem != [] && Fold(stem[0]) == Fold(partial[0])
    ensures StartsWithIgnoringCase(stem, partial)
  {
  }

  /** A name whose first letter differs, up to case, from the partial name's is not picked. */
  lemma FirstLetterDiffers(name: string, partial: string)
    requires '\n' !in name && name != [] && partial != [] && Fold(name[0]) != Fold(partial[0])
    ensures !Matches(name, partial)
  {
    MatchesIsPrefix(name, partial);
    if |partial| <= |name| { assert name[..|partial|][0] == name[0]; }
  }

  /** A one-letter partial name picks the names that start with that letter in either case. */
  lemma InitialMatches(name: string, partial: string)
    requires '\n' !in name && name != [] && |partial| == 1 && Fold(name[0]) == Fold(partial[0])
    ensures Matches(name, partial)
  {
    MatchesIsPrefix(name, partial);
    InitialIsPrefix(name, partial);
  }

  /** "a" picks "Alpha" and "Avro" but not "Beta"; "Gamma" picks none of them. */
  lemma MatchesExamples(alpha: string, avro: string, beta: string, a: string, gamma: string)
    requires alpha == "Alpha" && avro == "Avro" && beta == "Beta" && a == "a" && gamma == "Gamma"
    ensures Matches(alpha, a) && Matches(avro, a) && !Matches(beta, a)
    ensures !Matches(alpha, gamma) && !Matches(avro, gamma) && !Matches(beta, gamma)
  {
    InitialMatches(alpha, a);
    InitialMatches(avro, a);
    FirstLetterDiffers(beta, a);
    FirstLetterDiffers(alpha, gamma);
    FirstLetterDiffers(avro, gamma);
    FirstLetterDiffers(beta, gamma);
  }

  /** Of three bundles, when the first two are wanted, `edit` lists those two, numbered 1 and 2. */
  lemma AmbiguousExample(installed: seq<Bundle>, partial: string)
    requires IsLiteral(partial) && |installed| == 3
    requires Wanted(installed[0], partial) && Wanted(installed[1], partial) && !Wanted(installed[2], partial)
    ensures Edit(installed, partial) == Ambiguous([Choice(1, installed[0].Name()), Choice(2, installed[1].Name())])
  {
    FilterFirstTwoOfThree(installed, WantedBy(partial));
    var choices := Numbered(Select(installed, partial));
    assert choices == [Choice(1, installed[0].Name()), Choice(2, installed[1].Name())];
  }
}
