/**
 * The `update` command: visit the first five installed bundles in order, skip those
 * that are not Git checkouts, `git pull --ff-only` the others and sort them into
 * updated and errored by the pull's status, leave at once when an interrupt is
 * pending after a pull, and otherwise print a summary of the three buckets.
 *
 * What the loop learns from outside (the `.git` test inside the bundle, the pull's
 * status, the INT signals that arrive) is given as one `Probe` per visited bundle.
 */
module UpdateCommand {
  import opened Optional
  import opened Bundles

  /** `installed_bundles[0..4]` handles at most this many bundles. */
  const BatchSize: nat := 5

  /** What the loop finds out about the bundle it is visiting. */
  datatype Probe = Probe(
    hasGitDir: bool,  // `File.exist?('./.git')` inside the bundle
    pullStatus: int,  // `$?` after `git pull --ff-only`; 0 is success
    signals: nat)     // INT signals trapped (queued) while this bundle was handled

  datatype Bucket = Skipped | Updated | Errored

  /** A summary section: its title, printed with the count of names, then one "- name" per bundle. */
  datatype Section = Section(title: string, names: seq<string>)

  /**
   * The outcome of a run: the three buckets, whether it left through `exit` on an
   * interrupt (after printing "Exiting…"), and the summary it printed.
   */
  datatype Report = Report(
    skipped: seq<Bundle>, updated: seq<Bundle>, errored: seq<Bundle>,
    exited: bool, summary: seq<Section>)

  /** `installed_bundles[0..4]`. */
  function Batch(installed: seq<Bundle>): (r: seq<Bundle>)
    ensures |r| <= BatchSize && |r| <= |installed| && r == installed[..|r|]
    ensures |installed| >= BatchSize ==> |r| == BatchSize
    ensures |installed| <= BatchSize ==> r == installed
  {
    if |installed| <= BatchSize then installed else installed[..BatchSize]
  }

  /** The bucket a visited bundle lands in. */
  function Classify(p: Probe): Bucket
  {
    if !p.hasGitDir then Skipped else if p.pullStatus == 0 then Updated else Errored
  }

  /** Signals queued while the first `k` bundles were handled. */
  function SignalsBy(probes: seq<Probe>, k: nat): nat
    requires k <= |probes|
  {
    if k == 0 then 0 else SignalsBy(probes, k - 1) + probes[k - 1].signals
  }

  /**
   * The run exits right after bundle `i`: the queue is only looked at after a pull,
   * and it then holds every signal queued so far (none was taken off before, since
   * taking one off exits).
   */
  predicate ExitsAfter(probes: seq<Probe>, i: nat)
    requires i < |probes|
  {
    probes[i].hasGitDir && SignalsBy(probes, i + 1) > 0
  }

  /** The first bundle in [from, n) after which the run exits. */
  function FirstExit(probes: seq<Probe>, from: nat, n: nat): (r: Option<nat>)
    requires from <= n <= |probes|
    ensures r.Some? ==> from <= r.value < n && ExitsAfter(probes, r.value)
    ensures r.Some? ==> forall j :: from <= j < r.value ==> !ExitsAfter(probes, j)
    ensures r.None? ==> forall j :: from <= j < n ==> !ExitsAfter(probes, j)
    decreases n - from
  {
    if from == n then None
    else if ExitsAfter(probes, from) then Some(from)
    else FirstExit(probes, from + 1, n)
  }

  /** The first exit is the bundle after which the run exits and before which it did not. */
  lemma FirstExitAt(probes: seq<Probe>, n: nat, i: nat)
    requires i < n <= |probes|
    requires ExitsAfter(probes, i) && forall j :: 0 <= j < i ==> !ExitsAfter(probes, j)
    ensures FirstExit(probes, 0, n) == Some(i)
  {
  }

  /** The visited bundles that land in bucket `b`, in visiting order; `probes[k]` is about `bs[k]`. */
  function InBucket(bs: seq<Bundle>, probes: seq<Probe>, b: Bucket): seq<Bundle>
    requires |bs| <= |probes|
  {
    if bs == [] then []
    else
      var last := |bs| - 1;
      InBucket(bs[..last], probes, b) + (if Classify(probes[last]) == b then [bs[last]] else [])
  }

  /** `bucket.map(&:name)`. */
  function Names(bs: seq<Bundle>): seq<string>
  {
    seq(|bs|, k requires 0 <= k < |bs| => bs[k].Name())
  }

  /** The printed summary: Skipped, Updated, Errored, each only when its bucket is not empty. */
  function Summary(skipped: seq<Bundle>, updated: seq<Bundle>, errored: seq<Bundle>): seq<Section>
  {
    (if skipped != [] then [Section("Skipped", Names(skipped))] else [])
    + (if updated != [] then [Section("Updated", Names(updated))] else [])
    + (if errored != [] then [Section("Errored", Names(errored))] else [])
  }

  /** What a run over `installed` reports, given what it finds out along the way. */
  function Expected(installed: seq<Bundle>, probes: seq<Probe>): Report
    requires |Batch(installed)| <= |probes|
  {
    var batch := Batch(installed);
    var exit := FirstExit(probes, 0, |batch|);
    var handled := Handled(installed, probes);
    var skipped := InBucket(batch[..handled], probes, Skipped);
    var updated := InBucket(batch[..handled], probes, Updated);
    var errored := InBucket(batch[..handled], probes, Errored);
    Report(skipped, updated, errored, exit.Some?, if exit.Some? then [] else Summary(skipped, updated, errored))
  }

  /** `TMBundle#update`, with the three arrays it appends to and the interrupt queue it drains. */
  method Update(installed: seq<Bundle>, probes: seq<Probe>) returns (report: Report)
    requires |Batch(installed)| <= |probes|
    ensures report == Expected(installed, probes)
  {
    var batch := Batch(installed);
    var updated: seq<Bundle> := [];
    var skipped: seq<Bundle> := [];
    var errored: seq<Bundle> := [];
    var queued := 0;
    var i := 0;
    while i < |batch|
      invariant i <= |batch|
      invariant queued == SignalsBy(probes, i)
      invariant skipped == InBucket(batch[..i], probes, Skipped)
      invariant updated == InBucket(batch[..i], probes, Updated)
      invariant errored == InBucket(batch[..i], probes, Errored)
      invariant forall j :: 0 <= j < i ==> !ExitsAfter(probes, j)
    {
      var bundle, probe := batch[i], probes[i];
      queued := queued + probe.signals;
      assert batch[..i + 1][..i] == batch[..i];
      if !probe.hasGitDir {
        skipped := skipped + [bundle];
      } else {
        if probe.pullStatus == 0 {
          updated := updated + [bundle];
        } else {
          errored := errored + [bundle];
        }
        if queued > 0 {
          // "Exiting…", then `exit`: no summary
          FirstExitAt(probes, |batch|, i);
          report := Report(skipped, updated, errored, true, []);
          return;
        }
      }
      i := i + 1;
    }
    assert batch[..i] == batch;
    assert FirstExit(probes, 0, |batch|) == None;
    report := Report(skipped, updated, errored, false, Summary(skipped, updated, errored));
  }

  // ---------------------------------------------------------------------------
  // Properties of a run
  // ---------------------------------------------------------------------------

  /** The bucket of a report named by `b`. */
  function BucketOf(r: Report, b: Bucket): seq<Bundle>
  {
    match b
    case Skipped => r.skipped
    case Updated => r.updated
    case Errored => r.errored
  }

  /** What a bucket holds after the first `m` visits is a prefix of what it holds later. */
  lemma {:induction false} InBucketPrefix(bs: seq<Bundle>, probes: seq<Probe>, b: Bucket, m: nat)
    requires m <= |bs| <= |probes|
    ensures InBucket(bs[..m], probes, b) <= InBucket(bs, probes, b)
    decreases |bs|
  {
    if m < |bs| {
      var init := bs[..|bs| - 1];
      assert init[..m] == bs[..m];
      InBucketPrefix(init, probes, b, m);
    } else {
      assert bs[..m] == bs;
    }
  }

  /**
   * Buckets keep visiting order: the k-th visited bundle sits in its bucket right
   * after the bundles visited before it that went to the same bucket.
   */
  lemma InBucketPosition(bs: seq<Bundle>, probes: seq<Probe>, k: nat)
    requires k < |bs| <= |probes|
    ensures var b := Classify(probes[k]);
      var p := |InBucket(bs[..k], probes, b)|;
      p < |InBucket(bs, probes, b)| && InBucket(bs, probes, b)[p] == bs[k]
  {
    var b := Classify(probes[k]);
    assert bs[..k + 1][..k] == bs[..k];
    assert InBucket(bs[..k + 1], probes, b) == InBucket(bs[..k], probes, b) + [bs[k]];
    InBucketPrefix(bs, probes, b, k + 1);
  }

  /** A bundle is in a bucket only if it was visited and classified into that bucket. */
  lemma {:induction false} InBucketMembers(bs: seq<Bundle>, probes: seq<Probe>, b: Bucket, x: Bundle)
    requires |bs| <= |probes|
    ensures x in InBucket(bs, probes, b) <==> exists k :: 0 <= k < |bs| && bs[k] == x && Classify(probes[k]) == b
  {
    if bs != [] {
      var init := bs[..|bs| - 1];
      InBucketMembers(init, probes, b, x);
      if exists k :: 0 <= k < |bs| && bs[k] == x && Classify(probes[k]) == b {
        var k :| 0 <= k < |bs| && bs[k] == x && Classify(probes[k]) == b;
        if k < |init| { assert init[k] == x; }
      }
    }
  }

  /** The three buckets split the visited bundles: each one lands in exactly one bucket. */
  lemma {:induction false} BucketsPartition(bs: seq<Bundle>, probes: seq<Probe>)
    requires |bs| <= |probes|
    ensures multiset(InBucket(bs, probes, Skipped)) + multiset(InBucket(bs, probes, Updated))
            + multiset(InBucket(bs, probes, Errored)) == multiset(bs)
    ensures |InBucket(bs, probes, Skipped)| + |InBucket(bs, probes, Updated)| + |InBucket(bs, probes, Errored)| == |bs|
  {
    if bs != [] {
      var last := |bs| - 1;
      var init := bs[..last];
      BucketsPartition(init, probes);
      BucketsGrow(bs, probes);
      calc {
        multiset(InBucket(bs, probes, Skipped)) + multiset(InBucket(bs, probes, Updated))
          + multiset(InBucket(bs, probes, Errored));
        multiset(InBucket(init, probes, Skipped)) + multiset(InBucket(init, probes, Updated))
          + multiset(InBucket(init, probes, Errored)) + multiset{bs[last]};
        multiset(init) + multiset{bs[last]};
        { assert bs == init + [bs[last]]; }
        multiset(bs);
      }
    }
  }

  /** Visiting one more bundle adds it to the bucket it is classified into and to no other. */
  lemma BucketGrows(bs: seq<Bundle>, probes: seq<Probe>, b: Bucket)
    requires 0 < |bs| <= |probes|
    ensures var last := |bs| - 1;
      var before, after := InBucket(bs[..last], probes, b), InBucket(bs, probes, b);
      if Classify(probes[last]) == b
      then multiset(after) == multiset(before) + multiset{bs[last]} && |after| == |before| + 1
      else after == before
  {
  }

  /** Visiting one more bundle adds it to exactly one of the buckets. */
  lemma BucketsGrow(bs: seq<Bundle>, probes: seq<Probe>)
    requires 0 < |bs| <= |probes|
    ensures var init, x := bs[..|bs| - 1], bs[|bs| - 1];
      && multiset(InBucket(bs, probes, Skipped)) + multiset(InBucket(bs, probes, Updated))
         + multiset(InBucket(bs, probes, Errored))
         == multiset(InBucket(init, probes, Skipped)) + multiset(InBucket(init, probes, Updated))
         + multiset(InBucket(init, probes, Errored)) + multiset{x}
      && |InBucket(bs, probes, Skipped)| + |InBucket(bs, probes, Updated)| + |InBucket(bs, probes, Errored)|
         == |InBucket(init, probes, Skipped)| + |InBucket(init, probes, Updated)| + |InBucket(init, probes, Errored)| + 1
  {
    BucketGrows(bs, probes, Skipped);
    BucketGrows(bs, probes, Updated);
    BucketGrows(bs, probes, Errored);
  }

  /** Signals once queued stay counted. */
  lemma {:induction false} SignalsGrow(probes: seq<Probe>, k: nat, m: nat)
    requires k < m <= |probes|
    ensures SignalsBy(probes, m) >= SignalsBy(probes, k + 1) >= probes[k].signals
    decreases m
  {
    if m > k + 1 { SignalsGrow(probes, k, m - 1); }
  }

  /** How many bundles a run handles before it ends. */
  function Handled(installed: seq<Bundle>, probes: seq<Probe>): (n: nat)
    requires |Batch(installed)| <= |probes|
    ensures n <= |Batch(installed)|
  {
    var exit := FirstExit(probes, 0, |Batch(installed)|);
    if exit.Some? then exit.value + 1 else |Batch(installed)|
  }

  /**
   * A run handles at most the first five bundles, in order, and each handled bundle
   * lands in exactly one bucket: skipped without `.git`, else updated when the pull's
   * status is 0, else errored.
   */
  lemma ExpectedBuckets(installed: seq<Bundle>, probes: seq<Probe>)
    requires |Batch(installed)| <= |probes|
    ensures var r := Expected(installed, probes);
      var n := Handled(installed, probes);
      && n <= BatchSize && n <= |installed|
      && |r.skipped| + |r.updated| + |r.errored| == n
      && multiset(r.skipped) + multiset(r.updated) + multiset(r.errored) == multiset(installed[..n])
      && (forall k :: 0 <= k < n ==> installed[k] in BucketOf(r, Classify(probes[k])))
  {
    var n := Handled(installed, probes);
    var done := Batch(installed)[..n];
    assert done == installed[..n];
    BucketsPartition(done, probes);
    var r := Expected(installed, probes);
    forall k | 0 <= k < n ensures installed[k] in BucketOf(r, Classify(probes[k])) {
      InBucketPosition(done, probes, k);
    }
  }

  /**
   * A run exits iff, after some pulled bundle among the first five, a signal is
   * queued; it then stops right after the first such bundle and prints no summary.
   * Otherwise it handles all of them and prints the summary.
   */
  lemma ExpectedExit(installed: seq<Bundle>, probes: seq<Probe>)
    requires |Batch(installed)| <= |probes|
    ensures var r := Expected(installed, probes);
      var n := Handled(installed, probes);
      && (r.exited <==> exists j :: 0 <= j < |Batch(installed)| && ExitsAfter(probes, j))
      && (r.exited ==> 0 < n && probes[n - 1].hasGitDir && SignalsBy(probes, n) > 0 && r.summary == []
                       && forall j :: 0 <= j < n - 1 ==> !ExitsAfter(probes, j))
      && (!r.exited ==> n == |Batch(installed)| && r.summary == Summary(r.skipped, r.updated, r.errored))
  {
  }

  /**
   * Bundles past the handled ones are in no bucket (bundle paths come from one
   * directory listing, so they are distinct).
   */
  lemma UnhandledInNoBucket(installed: seq<Bundle>, probes: seq<Probe>, k: nat)
    requires |Batch(installed)| <= |probes|
    requires forall i, j :: 0 <= i < j < |installed| ==> installed[i] != installed[j]
    requires Handled(installed, probes) <= k < |installed|
    ensures var r := Expected(installed, probes);
      installed[k] !in r.skipped && installed[k] !in r.updated && installed[k] !in r.errored
  {
    var n := Handled(installed, probes);
    var done := Batch(installed)[..n];
    var x := installed[k];
    assert done == installed[..n];
    assert x !in done;
    InBucketMembers(done, probes, Skipped, x);
    InBucketMembers(done, probes, Updated, x);
    InBucketMembers(done, probes, Errored, x);
  }

  /**
   * A signal trapped while bundle k is handled is only noticed after the next pulled
   * bundle m: the run exits after m at the latest, never while skipping.
   */
  lemma SignalWaitsForNextPull(installed: seq<Bundle>, probes: seq<Probe>, k: nat, m: nat)
    requires |Batch(installed)| <= |probes|
    requires k <= m < |Batch(installed)| && probes[k].signals > 0 && probes[m].hasGitDir
    ensures var r := Expected(installed, probes);
      r.exited && |r.skipped| + |r.updated| + |r.errored| <= m + 1
  {
    SignalsGrow(probes, k, m + 1);
    assert ExitsAfter(probes, m);
    ExpectedExit(installed, probes);
    ExpectedBuckets(installed, probes);
  }

  /** The position of a section title in the summary's fixed order. */
  function TitleRank(title: string): nat
  {
    if title == "Skipped" then 0 else if title == "Updated" then 1 else 2
  }

  /** How many names the sections list in all. */
  function Listed(sections: seq<Section>): nat
  {
    if sections == [] then 0 else |sections[0].names| + Listed(sections[1..])
  }

  lemma {:induction false} ListedAppend(a: seq<Section>, b: seq<Section>)
    ensures Listed(a + b) == Listed(a) + Listed(b)
  {
    if a != [] {
      assert (a + b)[1..] == a[1..] + b;
      ListedAppend(a[1..], b);
    } else {
      assert a + b == b;
    }
  }

  /**
   * The summary lists Skipped, Updated and Errored in that order, leaves out the
   * empty buckets, and lists each bucket's names under its own title.
   */
  lemma SummarySpec(skipped: seq<Bundle>, updated: seq<Bundle>, errored: seq<Bundle>)
    ensures var sum := Summary(skipped, updated, errored);
      && (forall k :: 0 <= k < |sum| ==> sum[k].names != [])
      && (forall k, l :: 0 <= k < l < |sum| ==> TitleRank(sum[k].title) < TitleRank(sum[l].title))
      && (skipped != [] <==> Section("Skipped", Names(skipped)) in sum)
      && (updated != [] <==> Section("Updated", Names(updated)) in sum)
      && (errored != [] <==> Section("Errored", Names(errored)) in sum)
  {
    var sum := Summary(skipped, updated, errored);
    assert "Skipped" != "Updated" && "Skipped" != "Errored" && "Updated" != "Errored";
    assert TitleRank("Skipped") == 0 && TitleRank("Updated") == 1 && TitleRank("Errored") == 2;
  }

  /** The summary lists every bucketed bundle once. */
  lemma SummaryListsAll(skipped: seq<Bundle>, updated: seq<Bundle>, errored: seq<Bundle>)
    ensures Listed(Summary(skipped, updated, errored)) == |skipped| + |updated| + |errored|
  {
    var a := if skipped != [] then [Section("Skipped", Names(skipped))] else [];
    var b := if updated != [] then [Section("Updated", Names(updated))] else [];
    var c := if errored != [] then [Section("Errored", Names(errored))] else [];
    ListedAppend(a, b);
    ListedAppend(a + b, c);
    assert Listed(a) == |skipped| && Listed(b) == |updated| && Listed(c) == |errored|;
  }
}
