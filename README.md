# tmbundle-manager, modelled in Dafny

`tmbundle` is a small Thor command-line tool that manages the TextMate bundles
installed under `~/Library/Application Support/Avian/Bundles`. This project models
the logic of `lib/tmbundle.rb` that is not a shell-out:

- `TMBundle::BundleName` (module `BundleNames`): how a name typed for `install`
  becomes the directory to clone into (`install_name`), the GitHub repository name
  (`repo_name`) and the clone URL (`git_url`). The two suffix patterns
  `/([\.\-_]tmbundle)?$/i` and `/([\.\-_]tmbundle)$/i` are modelled exactly as Ruby
  runs them: leftmost search, group tried before it is skipped, `$` as the end of a
  line, and `gsub`'s scan, which after a match that ends at the end of the string
  searches once more there and finds the empty match.
- `TMBundle::Bundle#name` (module `Bundles`): `File.basename(path, '.tmbundle')`,
  with Ruby's rules for trailing slashes and for a base name equal to the extension
  (module `RubyText`).
- `edit PARTIAL_NAME` (module `EditCommand`): the `select` by
  `/^#{partial_name}/i` and the three outcomes: a numbered list, "nothing found", or
  opening the single bundle's path.
- `update` (module `UpdateCommand`): the loop over `installed_bundles[0..4]` as a
  method with the three arrays it appends to, proved equal to a specification
  function `Expected`. What the loop learns from the outside world (does the bundle
  have `.git`? what status did `git pull --ff-only` return? how many INT signals
  arrived while this bundle was handled?) comes in as one `Probe` per bundle.

The code's evident intent differs from what it computes. The optional group in the
`gsub` pattern, and the `unless` in `repo_name`, suggest that `install_name` was
meant to end in exactly one `.tmbundle` and `repo_name` to return a suffixed name
unchanged. The code does neither: `gsub` adds a second `.tmbundle` after a replaced
suffix, and `repo_name` is `nil` for a suffixed name, so `git_url` becomes
`https://github.com/.git`. The model follows the code. It states the intended
behaviour beside it, under "Findings".

Names given to `install` and bundle names are taken to contain no newline wherever
a closed form is stated. The functions themselves are total and follow Ruby's
line-based `^` and `$` on any string. Partial names given to `edit` are taken to
hold no regex metacharacter (`EditCommand.IsLiteral`).

## Model

| member | source | states |
|---|---|---|
| RubyText.Basename | lib/tmbundle.rb:79 | `File.basename(path)`; its contract is stated by RubyText.BasenameAppend, RubyText.BasenameOfJoin and RubyText.BasenameIgnoresTrailingSlash |
| RubyText.BasenameWithout | lib/tmbundle.rb:109 | `File.basename(path, ext)`; its contract is stated by RubyText.BasenameWithoutOfJoin |
| RubyText.ChompSlashesSpec | lib/tmbundle.rb:109 | dropping trailing slashes leaves a prefix that does not end in '/', and everything dropped was '/' |
| RubyText.AfterLastSlashSpec | lib/tmbundle.rb:79 | the last segment is a slash-free suffix of the path that is either the whole path or starts right after a '/' |
| RubyText.AfterLastSlashAppend | lib/tmbundle.rb:79 | appending slash-free text to a path appends it to the path's last segment |
| RubyText.BasenameAppend | lib/tmbundle.rb:79 | the base name of a path ending in non-empty slash-free text is the last segment before it followed by that text, and holds no '/' |
| RubyText.BasenameAppendTwo | lib/tmbundle.rb:79 | the same for a path ending in two slash-free parts, the last non-empty |
| RubyText.BasenameOfJoin | lib/tmbundle.rb:109 | the base name of `dir/segment`, and of `segment` alone, is `segment` for any directory part |
| RubyText.BasenameIgnoresTrailingSlash | lib/tmbundle.rb:109 | a trailing '/' does not change the base name of a path that has a segment |
| RubyText.BasenameWithoutOfJoin | lib/tmbundle.rb:109 | `File.basename(dir/segment, ext)` strips `ext` only when the segment ends with it exactly and is longer than it |
| Bundles.Bundle.Name | lib/tmbundle.rb:107-111 | `File.basename(path, '.tmbundle')`; its contract is stated by Bundles.NameOfEntry and Bundles.NameRoundTrip |
| Bundles.NameOfEntry | lib/tmbundle.rb:107-111 | a bundle's name is its directory entry, less one exact ".tmbundle" when something is left in front of it |
| Bundles.NameRoundTrip | lib/tmbundle.rb:107-111 | the bundle installed as `dir/stem.tmbundle` is named `stem` |
| Bundles.NameKeepsOtherCasing | lib/tmbundle.rb:109 | "Ruby.TMBundle" keeps its whole name: the extension is stripped case-sensitively |
| Bundles.NameOfBareExt | lib/tmbundle.rb:109 | a directory called just ".tmbundle" is named ".tmbundle" |
| BundleNames.MatchAt | lib/tmbundle.rb:79 | one attempt of either suffix pattern at one position; its contract is stated by BundleNames.MatchAtNoNewline and BundleNames.RequiredMatchIff |
| BundleNames.Search | lib/tmbundle.rb:79 | the regex search returns the leftmost position where the pattern matches and where that match ends, or nothing when it matches nowhere |
| BundleNames.SearchFinds | lib/tmbundle.rb:79 | a position where the pattern matches, with no match before it, is what the search returns |
| BundleNames.MatchAtNoNewline | lib/tmbundle.rb:79 | on a newline-free name the pattern matches only the suffix in the last nine characters or, when the group is optional, the empty string at the end |
| BundleNames.FirstOptionalMatch | lib/tmbundle.rb:79 | the first match of `/([\.\-_]tmbundle)?$/i` is the suffix when there is one, else the empty match at the end |
| BundleNames.SuffixedSearch | lib/tmbundle.rb:79 | in a newline-free name with a suffix, either pattern first matches exactly that suffix |
| BundleNames.RequiredMatchIff | lib/tmbundle.rb:83 | `name =~ /([\.\-_]tmbundle)$/i` holds iff some line of the name ends with a separator and "tmbundle" in any case |
| BundleNames.RequiredMatchNoNewline | lib/tmbundle.rb:83 | on a newline-free name that test holds iff the name ends in a recognised suffix |
| BundleNames.GsubNoNewline | lib/tmbundle.rb:79 | the global substitution appends the replacement to an unsuffixed name, and turns a suffixed one into its stem followed by the replacement twice |
| BundleNames.GsubFrom | lib/tmbundle.rb:79 | Ruby's global substitution scan; its contract is stated by BundleNames.GsubNoNewline |
| BundleNames.BundleName.InstallName | lib/tmbundle.rb:78-80 | `install_name`; its contract is stated by BundleNames.InstallNameUnsuffixed and BundleNames.InstallNameSuffixed |
| BundleNames.InstallNameUnsuffixed | lib/tmbundle.rb:78-80 | without a suffix, install_name is the last '/'-segment of the name followed by ".tmbundle": slash-free, ending in ".tmbundle", and `name + ".tmbundle"` when the name has no '/' |
| BundleNames.InstallNameSuffixed | lib/tmbundle.rb:78-80 | with a suffix, install_name is the last segment of the stem followed by ".tmbundle.tmbundle", and holds no '/' |
| BundleNames.BundleName.RepoName | lib/tmbundle.rb:82-84 | `repo_name`; its contract is stated by BundleNames.RepoNameSpec |
| BundleNames.RepoNameSpec | lib/tmbundle.rb:82-84 | repo_name is `nil` iff a line of the name ends in a recognised suffix, and otherwise the name with ".tmbundle" appended; never the raw name |
| BundleNames.BundleName.GitUrl | lib/tmbundle.rb:86-88 | `git_url`; its contract is stated by BundleNames.GitUrlSpec |
| BundleNames.GitUrlSpec | lib/tmbundle.rb:86-88 | git_url is "https://github.com/" + name + ".tmbundle.git" for an unsuffixed name and "https://github.com/.git" for a suffixed one |
| BundleNames.DashSuffixExample | lib/tmbundle.rb:78-88 | "Foo-TmBundle" installs into "Foo.tmbundle.tmbundle", has no repo_name, and is cloned from "https://github.com/.git" |
| BundleNames.DashSuffixedName | lib/tmbundle.rb:79 | "Foo-TmBundle" ends in a suffix the case-insensitive pattern recognises, with "Foo" in front of it |
| BundleNames.PlainNameExample | lib/tmbundle.rb:78-88 | "ruby" installs into "ruby.tmbundle" cloned from "https://github.com/ruby.tmbundle.git" |
| BundleNames.InstallNameNotIdempotent | lib/tmbundle.rb:78-80 | for every newline- and slash-free name n, install_name of n + ".tmbundle" is n + ".tmbundle.tmbundle"; when n has no suffix, install_name of n is n + ".tmbundle", so a second pass on that result adds another ".tmbundle" |
| BundleNames.IntendedInstallNameNormalises | lib/tmbundle.rb:79 | the corrected install name is slash-free, ends in exactly the canonical suffix replacing any recognised one, and is idempotent |
| BundleNames.InstallNameAgreesWhenUnsuffixed | lib/tmbundle.rb:79 | the code's install_name equals the corrected one on unsuffixed names and has one extra ".tmbundle" on suffixed names |
| BundleNames.IntendedRepoNameSpec | lib/tmbundle.rb:83 | the corrected repository name always carries a recognised suffix: the name itself when suffixed, else the name with ".tmbundle" |
| BundleNames.SuffixedForm | lib/tmbundle.rb:83 | a newline-free name, given ".tmbundle" when the pattern finds no suffix, carries a suffix and stays newline-free |
| BundleNames.IntendedGitUrlAgrees | lib/tmbundle.rb:86-88 | wherever repo_name is not `nil`, the corrected URL is the code's |
| BundleNames.IntendedRepoNameIdempotent | lib/tmbundle.rb:83 | the corrected repository name of a corrected repository name is itself |
| BundleNames.IntendedGitUrlExample | lib/tmbundle.rb:87 | "Foo-TmBundle" is cloned, once corrected, from "https://github.com/Foo-TmBundle.git" |
| EditCommand.Matches | lib/tmbundle.rb:8 | `name =~ /^partial/i`; its contract is stated by EditCommand.MatchesIsPrefix and EditCommand.NoLaterMatch |
| EditCommand.Select | lib/tmbundle.rb:7-9 | `installed_bundles.select`; its contract is stated by EditCommand.FilterMembers, EditCommand.FilterAppend and EditCommand.FilterEmpty |
| EditCommand.Edit | lib/tmbundle.rb:6-24 | the `edit` command; its contract is stated by EditCommand.EditOutcomes |
| EditCommand.MatchesIsPrefix | lib/tmbundle.rb:8 | on a newline-free name, `name =~ /^partial/i` holds iff the partial name is a prefix of the name up to ASCII case |
| EditCommand.NoLaterMatch | lib/tmbundle.rb:8 | a newline-free name offers no line start past position 0 |
| EditCommand.FilterAppend | lib/tmbundle.rb:7-9 | `select` over a concatenation is the concatenation of the selections, order kept |
| EditCommand.FilterMembers | lib/tmbundle.rb:7-9 | exactly the bundles the block accepts are selected |
| EditCommand.FilterEmpty | lib/tmbundle.rb:7-9 | nothing is selected iff the block accepts no bundle |
| EditCommand.FilterSeveral | lib/tmbundle.rb:7-11 | two or more are selected iff the block accepts bundles at two positions |
| EditCommand.FilterSingle | lib/tmbundle.rb:17-22 | when exactly one is selected, it is the only accepted bundle |
| EditCommand.EditOutcomes | lib/tmbundle.rb:6-24 | `edit` lists all matches numbered 1..k in enumeration order iff two bundles match, says "nothing found" iff none does, and otherwise opens the path of the one matching bundle |
| EditCommand.WantedEntry | lib/tmbundle.rb:7-9 | a bundle installed as `dir/stem.tmbundle` is picked iff the partial name is a prefix of `stem` up to case |
| EditCommand.EntryWanted | lib/tmbundle.rb:7-9 | a bundle whose stem starts with the partial name is picked and shown by its stem |
| EditCommand.EntryNotWanted | lib/tmbundle.rb:7-9 | a bundle whose stem starts with another letter is not picked |
| EditCommand.FirstLetterDiffers | lib/tmbundle.rb:8 | a name whose first letter differs from the partial name's, up to case, does not match |
| EditCommand.InitialMatches | lib/tmbundle.rb:8 | a one-letter partial name matches every name starting with that letter in either case |
| EditCommand.MatchesExamples | lib/tmbundle.rb:8 | "a" matches "Alpha" and "Avro" but not "Beta"; "Gamma" matches none of them |
| EditCommand.AmbiguousExample | lib/tmbundle.rb:11-15 | when the first two of three bundles match, `edit` lists exactly those two as 1) and 2) |
| UpdateCommand.Batch | lib/tmbundle.rb:36 | `installed_bundles[0..4]` is the first five bundles, or all of them when there are fewer |
| UpdateCommand.FirstExit | lib/tmbundle.rb:50 | the run exits after the first pulled bundle after which a signal is queued, and after no earlier one |
| UpdateCommand.Classify | lib/tmbundle.rb:38-48 | the bucket of a visited bundle; its contract is stated by UpdateCommand.ExpectedBuckets |
| UpdateCommand.Expected | lib/tmbundle.rb:27-61 | the report a run produces; its contract is stated by UpdateCommand.ExpectedBuckets, UpdateCommand.ExpectedExit and UpdateCommand.SummarySpec |
| UpdateCommand.Update | lib/tmbundle.rb:27-61 | the loop with its three arrays and the signal queue produces exactly the report `Expected` describes |
| UpdateCommand.InBucketPrefix | lib/tmbundle.rb:36-48 | appending to a bucket never changes what it already holds |
| UpdateCommand.InBucketPosition | lib/tmbundle.rb:36-48 | each visited bundle sits in its bucket right after the bundles visited before it that went to the same bucket: buckets keep visiting order |
| UpdateCommand.InBucketMembers | lib/tmbundle.rb:36-48 | a bundle is in a bucket iff it was visited and classified into that bucket |
| UpdateCommand.BucketsPartition | lib/tmbundle.rb:36-48 | the three buckets together hold each visited bundle exactly once |
| UpdateCommand.BucketGrows | lib/tmbundle.rb:38-48 | visiting a bundle adds it to the bucket it is classified into and leaves the others unchanged |
| UpdateCommand.BucketsGrow | lib/tmbundle.rb:38-48 | visiting a bundle adds it to exactly one bucket |
| UpdateCommand.SignalsGrow | lib/tmbundle.rb:30 | queued signals are only ever added to until they are looked at |
| UpdateCommand.ExpectedBuckets | lib/tmbundle.rb:36-48 | a run handles at most the first five bundles, in order, and puts each handled one in exactly the bucket its probe decides: skipped without `.git`, else updated iff the pull status is 0, else errored |
| UpdateCommand.Handled | lib/tmbundle.rb:36-50 | a run handles no more bundles than the batch of the first five |
| UpdateCommand.ExpectedExit | lib/tmbundle.rb:41-60 | a run exits iff a signal is queued when a pulled bundle is done; it then stops right after the first such bundle with no summary, and otherwise handles all five and prints the summary |
| UpdateCommand.UnhandledInNoBucket | lib/tmbundle.rb:36-52 | bundles past the last handled one appear in no bucket |
| UpdateCommand.SignalWaitsForNextPull | lib/tmbundle.rb:41-50 | a signal that arrives while a bundle is handled ends the run after the next pulled bundle at the latest, never at a skipped one |
| UpdateCommand.ListedAppend | lib/tmbundle.rb:58-60 | the names listed by consecutive sections add up |
| UpdateCommand.SummarySpec | lib/tmbundle.rb:54-60 | the summary shows Skipped, Updated, Errored in that order, only the non-empty ones, each listing its own bucket's names |
| UpdateCommand.SummaryListsAll | lib/tmbundle.rb:58-60 | the summary lists every bucketed bundle once |

## Left out

- The Thor wiring and `desc` help texts (lib/tmbundle.rb:4-5, 26, 63): command-line plumbing.
- The `install` command (lib/tmbundle.rb:63-68): it joins `install_name` to the bundles directory and runs `git clone`; the names it uses are modelled, the path join and the clone are file-system and process I/O.
- `mate`/`exec` (lib/tmbundle.rb:113-115) and the `system` git calls (lib/tmbundle.rb:45, 67): foreign processes; `edit` ends in `Open(path)` and the pull's exit status is an input of the `update` loop.
- `Dir.chdir` in `within` (lib/tmbundle.rb:93-97), the `Dir[...]` listing and the `~` expansion of the bundles directory (lib/tmbundle.rb:99-105): file-system I/O; the installed bundles are a given sequence, and the `.git` test is an input.
- The `||=` memoisation of `@installed_bundles`, `@bundles_dir` and `@name`: caching with no effect on results within one command.
- `trap('INT')` and the thread-safe `Queue` (lib/tmbundle.rb:28-30): asynchronous signal delivery is reduced to the number of signals queued while each bundle is handled. The drain loop at lib/tmbundle.rb:50 is reduced to "some signal is queued", because every queued token is `:int`, so the first `pop` exits.
- Console output beyond what is printed and in which order: progress lines, blank lines and the exact bytes of the summary are not modelled; a summary section is its title and its list of names.
- `edit`'s return value `false` and the partial names that hold regex metacharacters (lib/tmbundle.rb:8), which Ruby would interpret as a pattern rather than literally.
- Case folding beyond ASCII: the `/i` comparisons fold only 'A'..'Z'.
- `File.basename`'s `".*"` extension form: the code always passes the literal ".tmbundle".
- BundleNames.RequiredMatchNoNewline, BundleNames.FirstOptionalMatch, BundleNames.SuffixedSearch, BundleNames.GsubNoNewline, BundleNames.InstallNameUnsuffixed, BundleNames.InstallNameSuffixed and BundleNames.GitUrlSpec: stated for newline-free names only; the functions follow Ruby's line anchors on any string, but the closed forms assume no '\n'.
- EditCommand.MatchesIsPrefix: stated for newline-free bundle names; a name holding '\n' can also match after the newline.
- UpdateCommand.UnhandledInNoBucket: assumes the installed bundles are distinct, as paths from one directory listing are.

## Findings

| source | as written | input that shows it | evidently intended | confidence | as-written member | corrected member |
|---|---|---|---|---|---|---|
| lib/tmbundle.rb:79 | `gsub(/([\.\-_]tmbundle)?$/i, '.tmbundle')` replaces a suffix, then the empty match left at the end of the string, so a suffixed name gets ".tmbundle" twice | `install "Foo-TmBundle"` clones into "Foo.tmbundle.tmbundle" | "Foo.tmbundle": the recognised suffix replaced by one canonical ".tmbundle" | high; not executed | BundleNames.DashSuffixExample | BundleNames.IntendedInstallNameNormalises |
| lib/tmbundle.rb:83 | `repo_name` is `nil` for a name that already carries a suffix, and `git_url` interpolates `nil` as "" | `install "Foo-TmBundle"` clones from "https://github.com/.git" | "https://github.com/Foo-TmBundle.git": the name itself as repository when it is already suffixed | high; not executed | BundleNames.GitUrlSpec | BundleNames.IntendedRepoNameSpec |
