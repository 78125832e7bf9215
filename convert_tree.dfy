/**
 * The tree walker: count the `.pub` files under an input root, then walk the
 * tree again, mirror every directory that holds `.pub` files into the output
 * root, skip documents whose output is already there and hand the rest to the
 * conversion supervisor, keeping a tally of converted and skipped files.
 *
 * `os.walk` is an oracle: a walk is the sequence of directories it yields, each
 * with its path relative to the input root ("" for the root) and its file
 * names.  The count pass and the conversion pass take a walk each, so that a
 * tree that changes between the passes can be stated.
 */
module TreeWalk {
  import opened Wrappers
  import opened FileSystem
  import Convert

  datatype Listing = Listing(rel: string, files: seq<string>)

  /** What happened to one `.pub` file of the conversion pass. */
  datatype Decision =
    | Skipped(pubFile: string)
    | Converted(pubFile: string, remaining: int, outcome: Result<string, Convert.ConvertError>)

  datatype WalkError = InputNotFound(path: string) | MakeDirsFailed(path: string)

  /** `[f for f in files if f.lower().endswith('.pub')]`. */
  function PubFiles(files: seq<string>): (r: seq<string>)
    ensures |r| <= |files|
    ensures forall f :: f in r <==> f in files && IsPubName(f)
  {
    if files == [] then []
    else
      var f := files[|files| - 1];
      PubFiles(files[..|files| - 1]) + if IsPubName(f) then [f] else []
  }

  /** The directory a listing stands for, under `root`. */
  function DirPath(root: string, rel: string): string {
    if rel == "" then root else root + "/" + rel
  }

  /** The number of `.pub` files in a walk. */
  function TotalPub(walk: seq<Listing>): nat {
    if walk == [] then 0
    else TotalPub(walk[..|walk| - 1]) + |PubFiles(walk[|walk| - 1].files)|
  }


  /**
   * One `.pub` file of the conversion pass: the directory it is in, the
   * output directory it goes to, its name, and whether it is the first file of
   * its directory, the one before which that output directory is made.
   */
  datatype Job = Job(dir: string, outDir: string, name: string, first: bool)

  /** The jobs of the files `pubs` of `dir`, in listing order. */
  function DirJobs(dir: string, outDir: string, pubs: seq<string>): (r: seq<Job>)
    ensures |r| == |pubs|
    ensures forall i :: 0 <= i < |pubs| ==> r[i] == Job(dir, outDir, pubs[i], i == 0)
  {
    seq(|pubs|, i requires 0 <= i < |pubs| => Job(dir, outDir, pubs[i], i == 0))
  }

  /** The jobs of one listing of the walk: its `.pub` files, mirrored under `outputRoot`. */
  function ListingJobs(inputRoot: string, outputRoot: string, l: Listing): seq<Job> {
    DirJobs(DirPath(inputRoot, l.rel), DirPath(outputRoot, l.rel), PubFiles(l.files))
  }

  /** The jobs of a whole walk, in walk order. */
  function Jobs(inputRoot: string, outputRoot: string, walk: seq<Listing>): seq<Job> {
    if walk == [] then []
    else Jobs(inputRoot, outputRoot, walk[..|walk| - 1]) + ListingJobs(inputRoot, outputRoot, walk[|walk| - 1])
  }

  /** The output directories the conversion pass creates, in walk order. */
  function MadeDirs(outputRoot: string, walk: seq<Listing>): seq<string> {
    if walk == [] then []
    else
      var l := walk[|walk| - 1];
      MadeDirs(outputRoot, walk[..|walk| - 1]) + if PubFiles(l.files) != [] then [DirPath(outputRoot, l.rel)] else []
  }

  function ConvertedCount(log: seq<Decision>): nat {
    if log == [] then 0
    else ConvertedCount(log[..|log| - 1]) + if log[|log| - 1].Converted? then 1 else 0
  }

  function SkippedCount(log: seq<Decision>): nat {
    if log == [] then 0
    else SkippedCount(log[..|log| - 1]) + if log[|log| - 1].Skipped? then 1 else 0
  }

  // ---------------------------------------------------------------------------
  // What the conversion pass does, file by file

  /** `os.makedirs(out_dir, exist_ok=True)` before the first file of a directory. */
  function Made(fs: FS, job: Job): FS {
    if job.first then fs[job.outDir := Dir] else fs
  }

  /** The supervisor, run on file `name` of `dir` from `before`, returns `outcome` and leaves `after`. */
  predicate Converts(before: FS, dir: string, outDir: string, name: string, attempt: nat -> Convert.Attempt,
                     outcome: Result<string, Convert.ConvertError>, after: FS)
  {
    var r := Convert.ConvertSpec(before, Join(dir, name), outDir, Convert.HtmlFormat, Convert.DefaultMaxRetries, attempt);
    outcome == r.result && after == r.fs
  }

  /**
   * Decision `d` is the one the walker takes on file `name` of `dir`, the file
   * after `processed` others, on the fs `before`, and leaves the fs `after`:
   * a skip exactly when the output is already there, and then nothing changes;
   * otherwise a conversion by the supervisor with `attempt` as the Publisher
   * oracle, which records how many of the `total` files are still to come.
   */
  predicate Fits(d: Decision, before: FS, after: FS, dir: string, outDir: string, name: string,
                 total: nat, processed: nat, attempt: nat -> Convert.Attempt)
  {
    && d.pubFile == Join(dir, name)
    && (d.Skipped? <==> Convert.OutputExists(before, Join(outDir, Stem(name))))
    && (d.Skipped? ==> after == before)
    && (d.Converted? ==> d.remaining == total - (processed + 1))
    && (d.Converted? ==> Converts(before, dir, outDir, name, attempt, d.outcome, after))
    && (d.Converted? && d.outcome.Success? && '/' !in name ==>
          d.outcome.value == Convert.HtmlFile(Join(outDir, Stem(name)))
          && Convert.OutputExists(after, Join(outDir, Stem(name))))
  }

  /** The fs after the last of the files, or `fs` when there are none. */
  function Last(fs: FS, after: seq<FS>): FS {
    if after == [] then fs else after[|after| - 1]
  }

  /**
   * What the walker does with file number `n` of the pass, `job`: decision
   * `d` on the fs `before`, leaving `after`, with `attemptsFor(n)` as the
   * Publisher oracle and `total` files counted by the first pass.
   */
  function WalkStep(total: nat, attemptsFor: nat -> nat -> Convert.Attempt): (Decision, FS, FS, Job, nat) -> bool {
    (d: Decision, before: FS, after: FS, job: Job, n: nat) =>
      Fits(d, before, after, job.dir, job.outDir, job.name, total, n, attemptsFor(n))
  }

  /**
   * `log` is what the walker does with `jobs`, starting on `fs` after `start`
   * files, when each file is handled as `step` says: the fs after job `i` is
   * `after[i]`, and job `i` starts on the fs after job `i - 1`, with its output
   * directory made when it is the first of its directory.
   */
  ghost predicate Threaded(fs: FS, log: seq<Decision>, after: seq<FS>, jobs: seq<Job>, start: nat,
                           step: (Decision, FS, FS, Job, nat) -> bool)
    decreases |jobs|
  {
    && |log| == |jobs| && |after| == |jobs|
    && (jobs != [] ==>
          var n := |jobs| - 1;
          && Threaded(fs, log[..n], after[..n], jobs[..n], start, step)
          && step(log[n], Made(Last(fs, after[..n]), jobs[n]), after[n], jobs[n], start + n))
  }

  /** Every job's output directory is there and its output is already valid. */
  ghost predicate AlreadyConverted(fs: FS, jobs: seq<Job>) {
    forall i :: 0 <= i < |jobs| ==>
      IsDir(fs, jobs[i].outDir) && Convert.OutputExists(fs, Join(jobs[i].outDir, Stem(jobs[i].name)))
  }

  // ---------------------------------------------------------------------------
  // Properties of the specification

  /** Making a directory that is already there changes nothing. */
  lemma MadeExisting(fs: FS, job: Job)
    requires IsDir(fs, job.outDir)
    ensures Made(fs, job) == fs
  {
    assert fs[job.outDir := Dir] == fs;
  }

  /** Every decision is a skip or a conversion, so the two counts add up to the log. */
  lemma {:induction false} TallyCoversLog(log: seq<Decision>)
    ensures ConvertedCount(log) + SkippedCount(log) == |log|
  {
    if log != [] {
      TallyCoversLog(log[..|log| - 1]);
    }
  }

  /** Appending one decision adds it to exactly one of the two counts. */
  lemma CountsSnoc(log: seq<Decision>, d: Decision)
    ensures ConvertedCount(log + [d]) == ConvertedCount(log) + if d.Converted? then 1 else 0
    ensures SkippedCount(log + [d]) == SkippedCount(log) + if d.Skipped? then 1 else 0
  {
    assert (log + [d])[..|log|] == log;
  }

  /** The counts of a concatenated log are the sums of the counts of its parts. */
  lemma {:induction false} CountsAppend(a: seq<Decision>, b: seq<Decision>)
    ensures ConvertedCount(a + b) == ConvertedCount(a) + ConvertedCount(b)
    ensures SkippedCount(a + b) == SkippedCount(a) + SkippedCount(b)
    decreases |b|
  {
    if b == [] {
      assert a + b == a;
    } else {
      var init := b[..|b| - 1];
      CountsAppend(a, init);
      assert a + b == (a + init) + [b[|b| - 1]];
      CountsSnoc(a + init, b[|b| - 1]);
      CountsSnoc(init, b[|b| - 1]);
      assert init + [b[|b| - 1]] == b;
    }
  }

  /** A log of skips only: no conversion, and every file skipped. */
  lemma {:induction false} AllSkippedCounts(log: seq<Decision>)
    requires forall i :: 0 <= i < |log| ==> log[i].Skipped?
    ensures ConvertedCount(log) == 0 && SkippedCount(log) == |log|
  {
    if log != [] {
      AllSkippedCounts(log[..|log| - 1]);
    }
  }

  /** The walk has one job per counted `.pub` file. */
  lemma {:induction false} JobsCounted(inputRoot: string, outputRoot: string, walk: seq<Listing>)
    ensures |Jobs(inputRoot, outputRoot, walk)| == TotalPub(walk)
  {
    if walk != [] {
      JobsCounted(inputRoot, outputRoot, walk[..|walk| - 1]);
    }
  }

  lemma WalkSnoc(inputRoot: string, outputRoot: string, walk: seq<Listing>, i: nat)
    requires i < |walk|
    ensures Jobs(inputRoot, outputRoot, walk[..i + 1])
            == Jobs(inputRoot, outputRoot, walk[..i]) + ListingJobs(inputRoot, outputRoot, walk[i])
    ensures MadeDirs(outputRoot, walk[..i + 1]) == MadeDirs(outputRoot, walk[..i])
              + if PubFiles(walk[i].files) != [] then [DirPath(outputRoot, walk[i].rel)] else []
  {
    assert walk[..i + 1][..i] == walk[..i];
  }

  /** A file name joined under a directory has that name as its basename. */
  lemma {:induction false} BaseNameOfJoin(d: string, name: string)
    requires '/' !in name
    ensures BaseName(d + "/" + name) == name
  {
    if name != [] {
      var init := name[..|name| - 1];
      assert d + "/" + name == (d + "/" + init) + [name[|name| - 1]];
      assert (d + "/" + name)[..|d + "/" + name| - 1] == d + "/" + init;
      BaseNameOfJoin(d, init);
      assert name == init + [name[|name| - 1]];
    } else {
      assert (d + "/")[|d + "/"| - 1] == '/';
    }
  }

  /**
   * The walker's "already converted" check and the supervisor's look at the
   * same output base: the supervisor derives it from the file's path.
   */
  lemma SameOutputBase(dir: string, outDir: string, name: string)
    requires '/' !in name
    ensures Convert.OutputBase(Join(dir, name), outDir) == Join(outDir, Stem(name))
  {
    BaseNameOfJoin(dir, name);
  }

  /** Appending a non-empty sequence is appending all of it but its last element, then that element. */
  lemma AppendSplit<T>(a: seq<T>, b: seq<T>)
    requires b != []
    ensures a + b == (a + b[..|b| - 1]) + [b[|b| - 1]]
  {
    assert b == b[..|b| - 1] + [b[|b| - 1]];
  }

  /** One more job done: its step starts on `before`, the fs the run left, with its output directory made. */
  lemma ThreadedSnoc(fs: FS, log: seq<Decision>, after: seq<FS>, jobs: seq<Job>, start: nat,
                     step: (Decision, FS, FS, Job, nat) -> bool, d: Decision, before: FS, a: FS, job: Job, n: nat)
    requires Threaded(fs, log, after, jobs, start, step)
    requires before == Made(Last(fs, after), job) && n == start + |jobs|
    requires step(d, before, a, job, n)
    ensures Threaded(fs, log + [d], after + [a], jobs + [job], start, step)
    ensures Last(fs, after + [a]) == a
  {
    assert (log + [d])[..|log|] == log;
    assert (after + [a])[..|after|] == after;
    assert (jobs + [job])[..|jobs|] == jobs;
  }

  /**
   * Two runs of jobs one after the other: the second starts on `mid`, the fs
   * the first ends on, after the `start2` files of the first.
   */
  lemma {:induction false} ThreadedAppend(fs: FS, log: seq<Decision>, after: seq<FS>, jobs: seq<Job>, start: nat,
                                          mid: FS, log2: seq<Decision>, after2: seq<FS>, jobs2: seq<Job>, start2: nat,
                                          step: (Decision, FS, FS, Job, nat) -> bool)
    requires Threaded(fs, log, after, jobs, start, step)
    requires Threaded(mid, log2, after2, jobs2, start2, step)
    requires mid == Last(fs, after) && start2 == start + |jobs|
    ensures Threaded(fs, log + log2, after + after2, jobs + jobs2, start, step)
    ensures Last(fs, after + after2) == Last(mid, after2)
    decreases |jobs2|
  {
    if jobs2 == [] {
      assert log + log2 == log && after + after2 == after && jobs + jobs2 == jobs;
    } else {
      var n := |jobs2| - 1;
      ThreadedAppend(fs, log, after, jobs, start, mid, log2[..n], after2[..n], jobs2[..n], start2, step);
      ghost var before := Made(Last(mid, after2[..n]), jobs2[n]);
      assert step(log2[n], before, after2[n], jobs2[n], start2 + n);
      AppendSplit(log, log2);
      AppendSplit(after, after2);
      AppendSplit(jobs, jobs2);
      ThreadedSnoc(fs, log + log2[..n], after + after2[..n], jobs + jobs2[..n], start, step,
                   log2[n], before, after2[n], jobs2[n], start2 + n);
    }
  }

  /**
   * Runs from `fs` and from `fs1` are the same when the first job starts on
   * the same fs from either: the output directory made on `fs` is `fs1`.
   */
  lemma {:induction false} ThreadedRebase(fs: FS, fs1: FS, log: seq<Decision>, after: seq<FS>, jobs: seq<Job>,
                                          start: nat, step: (Decision, FS, FS, Job, nat) -> bool)
    requires Threaded(fs1, log, after, jobs, start, step)
    requires jobs != [] && Made(fs, jobs[0]) == Made(fs1, jobs[0])
    ensures Threaded(fs, log, after, jobs, start, step) && Last(fs, after) == Last(fs1, after)
    decreases |jobs|
  {
    var n := |jobs| - 1;
    if n > 0 {
      assert jobs[..n][0] == jobs[0];
      ThreadedRebase(fs, fs1, log[..n], after[..n], jobs[..n], start, step);
    }
  }

  /**
   * Each file handled as `step` says is named in its decision, and each
   * conversion records how many of the `total` files are still to come.
   */
  ghost predicate Records(step: (Decision, FS, FS, Job, nat) -> bool, total: nat) {
    forall d: Decision, before: FS, after: FS, job: Job, n: nat :: step(d, before, after, job, n) ==>
      d.pubFile == Join(job.dir, job.name) && (d.Converted? ==> d.remaining == total - (n + 1))
  }

  /** A file whose output is already there is skipped and nothing changes. */
  ghost predicate SkipsDone(step: (Decision, FS, FS, Job, nat) -> bool) {
    forall d: Decision, before: FS, after: FS, job: Job, n: nat :: step(d, before, after, job, n) ==>
      (Convert.OutputExists(before, Join(job.outDir, Stem(job.name))) ==> d.Skipped? && after == before)
  }

  /** The walker's own step records its files and skips converted ones. */
  lemma WalkStepProperties(total: nat, attemptsFor: nat -> nat -> Convert.Attempt)
    ensures Records(WalkStep(total, attemptsFor), total) && SkipsDone(WalkStep(total, attemptsFor))
  {
    var step := WalkStep(total, attemptsFor);
    forall d: Decision, before: FS, after: FS, job: Job, n: nat | step(d, before, after, job, n)
      ensures d.pubFile == Join(job.dir, job.name) && (d.Converted? ==> d.remaining == total - (n + 1))
      ensures Convert.OutputExists(before, Join(job.outDir, Stem(job.name))) ==> d.Skipped? && after == before
    {
      assert Fits(d, before, after, job.dir, job.outDir, job.name, total, n, attemptsFor(n));
    }
  }

  /** Each decision of a run names its job's file and, when a conversion, the files still to come. */
  lemma {:induction false} ThreadedVisits(fs: FS, log: seq<Decision>, after: seq<FS>, jobs: seq<Job>, start: nat,
                                          step: (Decision, FS, FS, Job, nat) -> bool, total: nat)
    requires Threaded(fs, log, after, jobs, start, step) && Records(step, total)
    ensures forall i :: 0 <= i < |log| ==> log[i].pubFile == Join(jobs[i].dir, jobs[i].name)
    ensures forall i :: 0 <= i < |log| && log[i].Converted? ==> log[i].remaining == total - (start + i + 1)
    decreases |jobs|
  {
    if jobs != [] {
      var n := |jobs| - 1;
      ThreadedVisits(fs, log[..n], after[..n], jobs[..n], start, step, total);
      forall i | 0 <= i < n
        ensures log[i].pubFile == Join(jobs[i].dir, jobs[i].name)
        ensures log[i].Converted? ==> log[i].remaining == total - (start + i + 1)
      {
        assert log[..n][i] == log[i] && jobs[..n][i] == jobs[i];
      }
    }
  }

  /**
   * When every file's output is already there, a walker that skips converted
   * files converts nothing, skips every file and leaves the fs as it was.
   */
  lemma {:induction false} AlreadyConvertedIsSkipped(fs: FS, log: seq<Decision>, after: seq<FS>, jobs: seq<Job>,
                                                     start: nat, step: (Decision, FS, FS, Job, nat) -> bool)
    requires Threaded(fs, log, after, jobs, start, step) && SkipsDone(step)
    requires AlreadyConverted(fs, jobs)
    ensures Last(fs, after) == fs
    ensures forall i :: 0 <= i < |log| ==> log[i].Skipped?
    ensures ConvertedCount(log) == 0 && SkippedCount(log) == |jobs|
    decreases |jobs|
  {
    if jobs != [] {
      var n := |jobs| - 1;
      AlreadyConvertedPrefix(fs, jobs);
      AlreadyConvertedIsSkipped(fs, log[..n], after[..n], jobs[..n], start, step);
      SkipsLast(fs, log, after, jobs, start, step);
      SkippedSnoc(log, log[..n]);
    }
    AllSkippedCounts(log);
  }

  /** The jobs before the last of an already converted run are already converted too. */
  lemma AlreadyConvertedPrefix(fs: FS, jobs: seq<Job>)
    requires AlreadyConverted(fs, jobs) && jobs != []
    ensures AlreadyConverted(fs, jobs[..|jobs| - 1])
  {
    var init := jobs[..|jobs| - 1];
    forall i | 0 <= i < |init|
      ensures IsDir(fs, init[i].outDir) && Convert.OutputExists(fs, Join(init[i].outDir, Stem(init[i].name)))
    {
      assert init[i] == jobs[i];
    }
  }

  /** The last job of a run that starts on an fs where its output is already there is a skip. */
  lemma SkipsLast(fs: FS, log: seq<Decision>, after: seq<FS>, jobs: seq<Job>, start: nat,
                  step: (Decision, FS, FS, Job, nat) -> bool)
    requires Threaded(fs, log, after, jobs, start, step) && SkipsDone(step) && jobs != []
    requires Last(fs, after[..|jobs| - 1]) == fs && AlreadyConverted(fs, jobs)
    ensures log[|jobs| - 1].Skipped? && Last(fs, after) == fs
  {
    var n := |jobs| - 1;
    var job := jobs[n];
    assert IsDir(fs, job.outDir) && Convert.OutputExists(fs, Join(job.outDir, Stem(job.name)));
    MadeExisting(fs, job);
    assert step(log[n], fs, after[n], job, start + n);
  }

  /** A log whose init and last decision are skips is all skips. */
  lemma SkippedSnoc(log: seq<Decision>, init: seq<Decision>)
    requires log != [] && init == log[..|log| - 1] && log[|log| - 1].Skipped?
    requires forall i :: 0 <= i < |init| ==> init[i].Skipped?
    ensures forall i :: 0 <= i < |log| ==> log[i].Skipped?
  {
    forall i | 0 <= i < |init| ensures log[i].Skipped? {
      assert init[i] == log[i];
    }
  }

  /** No step removes an entry of the fs. */
  ghost predicate Grows(step: (Decision, FS, FS, Job, nat) -> bool) {
    forall d: Decision, before: FS, after: FS, job: Job, n: nat
      {:trigger step(d, before, after, job, n), Entries(after)} ::
      step(d, before, after, job, n) ==> Entries(before) <= Entries(after)
  }

  /** The paths an fs holds; named so that `Grows` is used only where a proof asks for it. */
  ghost function Entries(fs: FS): set<string> {
    fs.Keys
  }

  /**
   * One listing's run appended to the run so far: the whole is one run, the
   * counts add up to its length, and every output directory made so far is
   * still there at its end.
   */
  lemma ListingAppended(fs: FS, log: seq<Decision>, after: seq<FS>, jobs: seq<Job>, made: seq<string>,
                        mid: FS, log2: seq<Decision>, after2: seq<FS>, jobs2: seq<Job>, next: FS,
                        newDirs: seq<string>, step: (Decision, FS, FS, Job, nat) -> bool)
    requires Threaded(fs, log, after, jobs, 0, step) && mid == Last(fs, after)
    requires ConvertedCount(log) + SkippedCount(log) == |log|
    requires Threaded(mid, log2, after2, jobs2, |jobs|, step) && next == Last(mid, after2)
    requires forall p :: p in made ==> p in mid
    requires mid.Keys <= next.Keys
    requires forall p :: p in newDirs ==> p in next
    ensures Threaded(fs, log + log2, after + after2, jobs + jobs2, 0, step) && next == Last(fs, after + after2)
    ensures ConvertedCount(log + log2) == ConvertedCount(log) + ConvertedCount(log2)
    ensures SkippedCount(log + log2) == SkippedCount(log) + SkippedCount(log2)
    ensures ConvertedCount(log + log2) + SkippedCount(log + log2) == |log + log2|
    ensures forall p :: p in made + newDirs ==> p in next
  {
    ThreadedAppend(fs, log, after, jobs, 0, mid, log2, after2, jobs2, |jobs|, step);
    CountsAppend(log, log2);
    TallyCoversLog(log2);
  }

  /** The walker's own step never removes an entry: a skip changes nothing and a conversion only adds. */
  lemma WalkStepGrows(total: nat, attemptsFor: nat -> nat -> Convert.Attempt)
    ensures Grows(WalkStep(total, attemptsFor))
  {
    var step := WalkStep(total, attemptsFor);
    forall d: Decision, before: FS, after: FS, job: Job, n: nat | step(d, before, after, job, n)
      ensures Entries(before) <= Entries(after)
    {
      assert Fits(d, before, after, job.dir, job.outDir, job.name, total, n, attemptsFor(n));
      if d.Converted? {
        Convert.ConvertKeepsEntries(before, Join(job.dir, job.name), job.outDir, Convert.HtmlFormat,
                                    Convert.DefaultMaxRetries, attemptsFor(n));
      }
    }
  }

  /** A run of steps that never remove an entry ends on an fs holding every entry it started with. */
  lemma {:induction false} ThreadedGrows(fs: FS, log: seq<Decision>, after: seq<FS>, jobs: seq<Job>, start: nat,
                                         step: (Decision, FS, FS, Job, nat) -> bool)
    requires Threaded(fs, log, after, jobs, start, step) && Grows(step)
    ensures fs.Keys <= Last(fs, after).Keys
    decreases |jobs|
  {
    if jobs != [] {
      var n := |jobs| - 1;
      ThreadedGrows(fs, log[..n], after[..n], jobs[..n], start, step);
      assert Last(fs, after[..n]).Keys <= Made(Last(fs, after[..n]), jobs[n]).Keys;
      assert Entries(Made(Last(fs, after[..n]), jobs[n])) <= Entries(after[n]);
    }
  }

  /** `step` allows every decision the walker takes: it contains `WalkStep(total, attemptsFor)`. */
  ghost predicate Walks(step: (Decision, FS, FS, Job, nat) -> bool, total: nat, attemptsFor: nat -> nat -> Convert.Attempt) {
    forall d: Decision, before: FS, after: FS, job: Job, n: nat
      {:trigger Fits(d, before, after, job.dir, job.outDir, job.name, total, n, attemptsFor(n))} ::
      Fits(d, before, after, job.dir, job.outDir, job.name, total, n, attemptsFor(n)) ==> step(d, before, after, job, n)
  }

  lemma WalkStepWalks(total: nat, attemptsFor: nat -> nat -> Convert.Attempt)
    ensures Walks(WalkStep(total, attemptsFor), total, attemptsFor)
  {
  }

  // ---------------------------------------------------------------------------
  // The two passes

  /** count_pub_files: the first pass. */
  method CountPubFiles(walk: seq<Listing>) returns (count: nat)
    ensures count == TotalPub(walk)
  {
    count := 0;
    for i := 0 to |walk|
      invariant count == TotalPub(walk[..i])
    {
      assert walk[..i + 1][..i] == walk[..i];
      count := count + |PubFiles(walk[i].files)|;
    }
    assert walk[..|walk|] == walk;
  }

  /**
   * The try/except around one conversion: the supervisor's error is kept as
   * the outcome and does not stop the walk.
   */
  method ConvertCatching(fs: FS, dir: string, name: string, outDir: string, attempt: nat -> Convert.Attempt)
    returns (outcome: Result<string, Convert.ConvertError>, fs': FS)
    ensures Converts(fs, dir, outDir, name, attempt, outcome, fs')
    ensures fs.Keys <= fs'.Keys
    ensures outcome.Success? && '/' !in name ==>
              outcome.value == Convert.HtmlFile(Join(outDir, Stem(name)))
              && Convert.OutputExists(fs', Join(outDir, Stem(name)))
  {
    var calls, attempts;
    outcome, calls, fs', attempts :=
      Convert.ConvertPubToHtml(fs, Join(dir, name), outDir, Convert.HtmlFormat, Convert.DefaultMaxRetries, attempt);
    Convert.ConvertKeepsEntries(fs, Join(dir, name), outDir, Convert.HtmlFormat, Convert.DefaultMaxRetries, attempt);
    if '/' !in name {
      SameOutputBase(dir, outDir, name);
    }
  }

  /**
   * One `.pub` file of the inner loop: skip it when its output is already
   * there, otherwise count it, note how many files are still to come and
   * convert it with `attempt` as the Publisher oracle.
   */
  method VisitFile(fs: FS, dir: string, outDir: string, name: string, first: bool, total: nat,
                   converted: nat, skipped: nat, attemptsFor: nat -> nat -> Convert.Attempt,
                   ghost step: (Decision, FS, FS, Job, nat) -> bool)
    returns (fs': FS, d: Decision, converted': nat, skipped': nat)
    requires Walks(step, total, attemptsFor)
    ensures step(d, fs, fs', Job(dir, outDir, name, first), converted + skipped)
    ensures converted' == converted + (if d.Converted? then 1 else 0)
    ensures skipped' == skipped + (if d.Skipped? then 1 else 0)
  {
    fs', converted', skipped' := fs, converted, skipped;
    var pubFile := Join(dir, name);
    if Convert.OutputExists(fs, Join(outDir, Stem(name))) {
      skipped' := skipped' + 1;
      d := Skipped(pubFile);
    } else {
      converted' := converted' + 1;
      var processed := converted' + skipped';
      var outcome;
      outcome, fs' := ConvertCatching(fs, dir, name, outDir, attemptsFor(converted + skipped));
      d := Converted(pubFile, total - processed, outcome);
    }
    ghost var job := Job(dir, outDir, name, first);
    assert Fits(d, fs, fs', job.dir, job.outDir, job.name, total, converted + skipped, attemptsFor(converted + skipped));
  }

  /**
   * The inner loop of the conversion pass over the `.pub` files `pubs` of
   * directory `dir`, whose output directory `outDir` has just been made.
   * `converted` and `skipped` are the running counters on entry; file number
   * `n` of the pass uses `attemptsFor(n)` as its Publisher oracle, and each
   * decision is one `step` allows.
   */
  method VisitDirectory(fs: FS, dir: string, outDir: string, pubs: seq<string>, total: nat,
                        converted: nat, skipped: nat, attemptsFor: nat -> nat -> Convert.Attempt,
                        ghost step: (Decision, FS, FS, Job, nat) -> bool)
    returns (fs': FS, decisions: seq<Decision>, converted': nat, skipped': nat, ghost after: seq<FS>)
    requires IsDir(fs, outDir) && Walks(step, total, attemptsFor)
    ensures Threaded(fs, decisions, after, DirJobs(dir, outDir, pubs), converted + skipped, step)
    ensures fs' == Last(fs, after)
    ensures converted' == converted + ConvertedCount(decisions) && skipped' == skipped + SkippedCount(decisions)
  {
    fs' := fs;
    decisions, after := [], [];
    converted', skipped' := converted, skipped;
    ghost var start := converted + skipped;
    ghost var jobs := DirJobs(dir, outDir, pubs);
    ghost var done: seq<Job> := [];
    for j := 0 to |pubs|
      invariant done == jobs[..j]
      invariant Threaded(fs, decisions, after, done, start, step) && fs' == Last(fs, after)
      invariant converted' == converted + ConvertedCount(decisions) && skipped' == skipped + SkippedCount(decisions)
      invariant converted' + skipped' == start + |done|
    {
      ghost var job := Job(dir, outDir, pubs[j], j == 0);
      assert jobs[j] == job;
      assert jobs[..j + 1] == done + [job];
      if j == 0 {
        MadeExisting(fs', job);
      }
      ghost var n := converted' + skipped';
      ghost var before := fs';
      var d, next;
      next, d, converted', skipped' := VisitFile(fs', dir, outDir, pubs[j], j == 0, total, converted', skipped', attemptsFor, step);
      ThreadedSnoc(fs, decisions, after, done, start, step, d, before, next, job, n);
      CountsSnoc(decisions, d);
      decisions, after, fs', done := decisions + [d], after + [next], next, done + [job];
    }
    assert jobs[..|pubs|] == jobs;
  }

  /**
   * One listing of the conversion pass: when it holds `.pub` files, make its
   * output directory (which fails when a file is in the way) and visit them.
   * `converted` and `skipped` are the counters before it.
   */
  method ConvertListing(fs: FS, inputRoot: string, outputRoot: string, l: Listing, total: nat,
                        converted: nat, skipped: nat, attemptsFor: nat -> nat -> Convert.Attempt,
                        ghost step: (Decision, FS, FS, Job, nat) -> bool)
    returns (failed: bool, fs': FS, decisions: seq<Decision>, converted': nat, skipped': nat, ghost after: seq<FS>)
    requires Walks(step, total, attemptsFor) && Grows(step)
    ensures failed <==> PubFiles(l.files) != [] && IsFile(fs, DirPath(outputRoot, l.rel))
    ensures failed ==> fs' == fs && decisions == [] && after == []
    ensures !failed ==> Threaded(fs, decisions, after, ListingJobs(inputRoot, outputRoot, l), converted + skipped, step)
    ensures fs' == Last(fs, after)
    ensures !failed && PubFiles(l.files) != [] ==> DirPath(outputRoot, l.rel) in fs'
    ensures fs.Keys <= fs'.Keys
    ensures converted' == converted + ConvertedCount(decisions) && skipped' == skipped + SkippedCount(decisions)
  {
    fs', decisions, converted', skipped', after := fs, [], converted, skipped, [];
    var pubs := PubFiles(l.files);
    if pubs == [] {
      return false, fs', decisions, converted', skipped', after;
    }
    var outDir := DirPath(outputRoot, l.rel);
    if IsFile(fs, outDir) {
      return true, fs', decisions, converted', skipped', after;
    }
    failed := false;
    var made := fs[outDir := Dir];
    fs', decisions, converted', skipped', after :=
      VisitDirectory(made, DirPath(inputRoot, l.rel), outDir, pubs, total, converted, skipped, attemptsFor, step);
    ghost var jobs := ListingJobs(inputRoot, outputRoot, l);
    assert Made(fs, jobs[0]) == made && Made(made, jobs[0]) == made;
    ThreadedRebase(fs, made, decisions, after, jobs, converted + skipped, step);
    ThreadedGrows(made, decisions, after, jobs, converted + skipped, step);
  }

  /**
   * The loop of convert_directory over the listings of the walk, from the fs
   * `fs`, with `total` files counted by the first pass.  The loop stops after
   * `stopped` listings: all of them on success, and otherwise at the listing
   * whose output directory cannot be made.  On success the result is the pair
   * of counters; `made` lists the output directories created, in order, and
   * `after` the fs after each file.
   */
  method ConvertListings(fs: FS, inputRoot: string, outputRoot: string, walk: seq<Listing>, total: nat,
                         attemptsFor: nat -> nat -> Convert.Attempt, ghost step: (Decision, FS, FS, Job, nat) -> bool)
    returns (result: Result<(nat, nat), WalkError>, log: seq<Decision>, made: seq<string>, fs': FS,
             ghost after: seq<FS>, ghost stopped: nat)
    requires Walks(step, total, attemptsFor) && Grows(step)
    ensures stopped <= |walk| && (result.Success? <==> stopped == |walk|)
    ensures Threaded(fs, log, after, Jobs(inputRoot, outputRoot, walk[..stopped]), 0, step)
    ensures made == MadeDirs(outputRoot, walk[..stopped])
    ensures result.Success? ==> result.value == (ConvertedCount(log), SkippedCount(log))
    ensures fs' == Last(fs, after)
    ensures forall p :: p in made ==> p in fs'
    ensures result.Failure? ==>
              && result.error == MakeDirsFailed(DirPath(outputRoot, walk[stopped].rel))
              && PubFiles(walk[stopped].files) != [] && IsFile(fs', result.error.path)
  {
    log, made, fs', after := [], [], fs, [];
    var converted, skipped := 0, 0;
    ghost var prior: seq<Job> := [];
    for i := 0 to |walk|
      invariant prior == Jobs(inputRoot, outputRoot, walk[..i])
      invariant Threaded(fs, log, after, prior, 0, step)
      invariant fs' == Last(fs, after) && made == MadeDirs(outputRoot, walk[..i])
      invariant converted == ConvertedCount(log) && skipped == SkippedCount(log)
      invariant converted + skipped == |log|
      invariant forall p :: p in made ==> p in fs'
    {
      WalkSnoc(inputRoot, outputRoot, walk, i);
      var l := walk[i];
      var outDir := DirPath(outputRoot, l.rel);
      assert converted + skipped == |prior|;
      var failed, decisions, next;
      ghost var more;
      failed, next, decisions, converted, skipped, more :=
        ConvertListing(fs', inputRoot, outputRoot, l, total, converted, skipped, attemptsFor, step);
      if failed {
        return Failure(MakeDirsFailed(outDir)), log, made, fs', after, i;
      }
      var newDirs := if PubFiles(l.files) != [] then [outDir] else [];
      ghost var jobs := ListingJobs(inputRoot, outputRoot, l);
      ListingAppended(fs, log, after, prior, made, fs', decisions, more, jobs, next, newDirs, step);
      log, after, fs', made, prior := log + decisions, after + more, next, made + newDirs, prior + jobs;
    }
    stopped := |walk|;
    result := Success((converted, skipped));
  }

  /**
   * convert_directory: the second pass.  `countWalk` is what the first pass
   * sees and `walk` what the second pass sees; `made` lists the output
   * directories created, in order, and `after` the fs after each file.  File
   * number `n` of the pass uses `attemptsFor(n)` as its Publisher oracle.  On
   * success the result is the pair of counters.
   */
  method ConvertDirectory(fs: FS, inputRoot: string, outputRoot: string, countWalk: seq<Listing>,
                          walk: seq<Listing>, attemptsFor: nat -> nat -> Convert.Attempt)
    returns (result: Result<(nat, nat), WalkError>, log: seq<Decision>, made: seq<string>, fs': FS,
             ghost after: seq<FS>, ghost stopped: nat)
    ensures inputRoot !in fs <==> result == Failure(InputNotFound(inputRoot))
    ensures inputRoot !in fs || TotalPub(countWalk) == 0 ==> log == [] && made == [] && fs' == fs
    ensures inputRoot in fs && TotalPub(countWalk) == 0 ==> result == Success((0, 0))
    ensures result.Success? && TotalPub(countWalk) > 0 ==>
              Threaded(fs, log, after, Jobs(inputRoot, outputRoot, walk), 0, WalkStep(TotalPub(countWalk), attemptsFor))
              && made == MadeDirs(outputRoot, walk)
    ensures fs' == Last(fs, after)
    ensures forall p :: p in made ==> p in fs'
    ensures fs.Keys <= fs'.Keys
    ensures result.Success? ==> result.value == (ConvertedCount(log), SkippedCount(log))
    ensures result.Success? && TotalPub(countWalk) > 0 ==> result.value.0 + result.value.1 == TotalPub(walk)
    ensures result.Success? && countWalk == walk ==>
              forall i :: 0 <= i < |log| && log[i].Converted? ==> log[i].remaining >= 0
    ensures result.Success? && TotalPub(countWalk) > 0 && AlreadyConverted(fs, Jobs(inputRoot, outputRoot, walk)) ==>
              result.value == (0, TotalPub(walk)) && fs' == fs
    ensures result.Failure? && result.error.MakeDirsFailed? ==>
              && TotalPub(countWalk) > 0 && stopped < |walk|
              && Threaded(fs, log, after, Jobs(inputRoot, outputRoot, walk[..stopped]), 0,
                          WalkStep(TotalPub(countWalk), attemptsFor))
              && made == MadeDirs(outputRoot, walk[..stopped])
              && result.error == MakeDirsFailed(DirPath(outputRoot, walk[stopped].rel))
              && PubFiles(walk[stopped].files) != [] && IsFile(fs', result.error.path)
  {
    log, made, fs', after, stopped := [], [], fs, [], 0;
    if inputRoot !in fs {
      return Failure(InputNotFound(inputRoot)), log, made, fs', after, stopped;
    }
    var total := CountPubFiles(countWalk);
    if total == 0 {
      return Success((0, 0)), log, made, fs', after, stopped;
    }
    ghost var step := WalkStep(total, attemptsFor);
    WalkStepWalks(total, attemptsFor);
    WalkStepGrows(total, attemptsFor);
    result, log, made, fs', after, stopped := ConvertListings(fs, inputRoot, outputRoot, walk, total, attemptsFor, step);
    ghost var jobs := Jobs(inputRoot, outputRoot, walk[..stopped]);
    ThreadedGrows(fs, log, after, jobs, 0, step);
    if result.Success? {
      assert walk[..stopped] == walk;
      JobsCounted(inputRoot, outputRoot, walk);
      TallyCoversLog(log);
      WalkStepProperties(total, attemptsFor);
      ThreadedVisits(fs, log, after, jobs, 0, step, total);
      if AlreadyConverted(fs, jobs) {
        AlreadyConvertedIsSkipped(fs, log, after, jobs, 0, step);
      }
    }
  }
}
