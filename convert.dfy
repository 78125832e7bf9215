/**
 * The single-file conversion supervisor: drive Publisher over COM to save one
 * `.pub` document as HTML, validate the output, and retry only when Publisher
 * reports that a modal dialog blocked automation.
 *
 * Publisher itself is an oracle: `attempt(k)` says how the k-th attempt goes
 * (which COM call raised, with what error, or what SaveAs wrote).  The model
 * records the COM calls made, in order, as a trace of `Call`s.
 */
module Convert {
  import opened Wrappers
  import opened FileSystem

  /** The HRESULT Publisher reports when a modal dialog blocks automation. */
  const ModalDialogFault: int := -2147221457

  /** msoAutomationSecurityForceDisable: macros and active content are off. */
  const ForceDisable: int := 3

  /** Publisher's SaveAs format code for HTML, the default format. */
  const HtmlFormat: int := 7

  /** The default number of attempts. */
  const DefaultMaxRetries: int := 3

  // ---------------------------------------------------------------------------
  // Expected output

  function HtmlFile(base: string): string { base + ".htm" }

  function FilesDir(base: string): string { base + "_files" }

  /** check_output_exists: the page and a non-empty resource directory are there. */
  predicate OutputExists(fs: FS, base: string) {
    HtmlFile(base) in fs && IsDir(fs, FilesDir(base)) && HasChildren(fs, FilesDir(base))
  }

  datatype ValidationError =
    | HtmlMissing(htmlFile: string)
    | FilesDirMissing(filesDir: string)
    | FilesDirEmpty(filesDir: string)
  {
    function Message(): string {
      match this
      case HtmlMissing(f) => "HTML file was not created at " + f
      case FilesDirMissing(d) => "Supporting files directory not found at " + d
      case FilesDirEmpty(d) => "Supporting files directory is empty: " + d
    }
  }

  /**
   * validate_html: `None` when validation passes, otherwise the error of the
   * first check that fails (page, then directory, then its contents).
   */
  function ValidateHtml(fs: FS, base: string): (r: Option<ValidationError>)
    ensures r.None? <==> OutputExists(fs, base)
    ensures r == Some(HtmlMissing(HtmlFile(base))) <==> HtmlFile(base) !in fs
    ensures r == Some(FilesDirMissing(FilesDir(base)))
            <==> HtmlFile(base) in fs && !IsDir(fs, FilesDir(base))
    ensures r == Some(FilesDirEmpty(FilesDir(base)))
            <==> HtmlFile(base) in fs && IsDir(fs, FilesDir(base)) && !HasChildren(fs, FilesDir(base))
  {
    if HtmlFile(base) !in fs then Some(HtmlMissing(HtmlFile(base)))
    else if !IsDir(fs, FilesDir(base)) then Some(FilesDirMissing(FilesDir(base)))
    else if !HasChildren(fs, FilesDir(base)) then Some(FilesDirEmpty(FilesDir(base)))
    else None
  }

  // ---------------------------------------------------------------------------
  // Lingering Publisher processes

  /** One entry of the process table; `killable` says whether killing it succeeds. */
  datatype Process = Process(pid: int, name: string, killable: bool)

  predicate IsPublisher(name: string) {
    Contains(Upper(name), "MSPUB.EXE")
  }

  /** The pids that the kill loop kills, in table order. */
  function Killed(procs: seq<Process>): seq<int> {
    if procs == [] then []
    else
      var p := procs[|procs| - 1];
      Killed(procs[..|procs| - 1]) + if IsPublisher(p.name) && p.killable then [p.pid] else []
  }

  lemma {:induction false} KilledExactly(procs: seq<Process>, pid: int)
    ensures pid in Killed(procs) <==>
            exists i :: 0 <= i < |procs| && procs[i] == Process(pid, procs[i].name, true) && IsPublisher(procs[i].name)
  {
    if procs != [] {
      var init := procs[..|procs| - 1];
      KilledExactly(init, pid);
      if pid in Killed(init) {
        var i :| 0 <= i < |init| && init[i] == Process(pid, init[i].name, true) && IsPublisher(init[i].name);
        assert procs[i] == init[i];
      }
      if exists i :: 0 <= i < |procs| && procs[i] == Process(pid, procs[i].name, true) && IsPublisher(procs[i].name) {
        var i :| 0 <= i < |procs| && procs[i] == Process(pid, procs[i].name, true) && IsPublisher(procs[i].name);
        if i < |init| { assert init[i] == procs[i]; }
      }
    }
  }

  /**
   * kill_publisher_processes over a process table `procs` and the table
   * `rescan` read again after the pause: true when nothing was killed, or when
   * no Publisher process is left in the rescan.
   */
  method KillPublisherProcesses(procs: seq<Process>, rescan: seq<string>)
    returns (allGone: bool, killedPids: seq<int>)
    ensures killedPids == Killed(procs)
    ensures allGone <==> killedPids == [] || forall i :: 0 <= i < |rescan| ==> !IsPublisher(rescan[i])
  {
    var killed := false;
    killedPids := [];
    for i := 0 to |procs|
      invariant killedPids == Killed(procs[..i])
      invariant killed <==> killedPids != []
    {
      assert procs[..i + 1][..i] == procs[..i];
      if IsPublisher(procs[i].name) && procs[i].killable {
        killedPids := killedPids + [procs[i].pid];
        killed := true;
      }
    }
    assert procs[..|procs|] == procs;
    if killed {
      for i := 0 to |rescan|
        invariant forall j :: 0 <= j < i ==> !IsPublisher(rescan[j])
      {
        if IsPublisher(rescan[i]) {
          return false, killedPids;
        }
      }
    }
    allGone := true;
  }

  // ---------------------------------------------------------------------------
  // Attempts, errors and their classification

  /** One entry of a COM error's `excepinfo` tuple. */
  datatype Field = IntField(n: int) | OtherField

  /**
   * What a raised exception carries: no `excepinfo` attribute at all (every
   * non-COM exception), an `excepinfo` of None, or the tuple with its `repr`.
   */
  datatype ExcepInfo =
    | NoExcepInfo
    | ExcepInfoNone
    | ExcepInfo(fields: seq<Field>, repr: string)

  datatype Fault = Fault(message: string, info: ExcepInfo)

  /** The COM step that raised. */
  datatype Stage = AtDispatch | AtSecurity | AtOpen | AtSaveAs

  /** How one attempt goes: a COM step raises, or SaveAs returns having written `writes`. */
  datatype Attempt = Raised(stage: Stage, fault: Fault) | Saved(writes: FS)

  /** The COM calls the supervisor makes. */
  datatype Call =
    | KillLingering
    | Dispatch
    | SetAutomationSecurity(level: int)
    | Open(path: string, readOnly: bool, openAndRepair: bool)
    | SaveAs(path: string, format: int)
    | Close
    | Quit

  /** The only failure that earns another attempt: excepinfo[5] is the modal-dialog fault. */
  predicate Retryable(info: ExcepInfo) {
    info.ExcepInfo? && |info.fields| > 5 && info.fields[5] == IntField(ModalDialogFault)
  }

  function FaultOf(a: Attempt): Option<Fault> {
    if a.Raised? then Some(a.fault) else None
  }

  predicate Transient(a: Attempt) {
    a.Raised? && Retryable(a.fault.info)
  }

  datatype ConvertError =
    | FileNotFound(path: string)
    | NotPubFile
    | OutputDirIsFile(path: string)
    | RetriesExhausted(maxRetries: int, last: Option<Fault>)

  /** `os.path.join(output_dir, splitext(basename(pub_path))[0])`. */
  function OutputBase(pubPath: string, outputDir: string): string {
    Join(outputDir, Stem(BaseName(pubPath)))
  }

  // ---------------------------------------------------------------------------
  // The specification of the retry loop

  /** Close the document if it was opened, then quit Publisher if it was started. */
  function Release(docOpen: bool, publisherOpen: bool): seq<Call> {
    (if docOpen then [Close] else []) + (if publisherOpen then [Quit] else [])
  }

  predicate HasDocument(a: Attempt) {
    a.Saved? || a.stage == AtSaveAs
  }

  predicate HasPublisher(a: Attempt) {
    a.Saved? || a.stage != AtDispatch
  }

  /** The COM calls of attempt `a` up to the one that raised, or all of them. */
  function Reached(a: Attempt, pubPath: string, base: string, format: int): seq<Call> {
    var started := [Dispatch, SetAutomationSecurity(ForceDisable)];
    if a.Saved? then started + [Open(pubPath, false, false), SaveAs(base, format)]
    else
      match a.stage
      case AtDispatch => [Dispatch]
      case AtSecurity => started
      case AtOpen => started + [Open(pubPath, false, false)]
      case AtSaveAs => started + [Open(pubPath, false, false), SaveAs(base, format)]
  }

  /** The fs after attempt `a`. */
  function After(fs: FS, a: Attempt): FS {
    if a.Saved? then fs + a.writes else fs
  }

  /** The exception attempt `a` ends with, if any: a COM fault or a validation error. */
  function AttemptFault(fs: FS, a: Attempt, base: string): Option<Fault> {
    if a.Raised? then Some(a.fault)
    else
      match ValidateHtml(After(fs, a), base)
      case None => None
      case Some(v) => Some(Fault(v.Message(), NoExcepInfo))
  }

  /**
   * All calls of attempt number `k`: the kill on a retry, the COM calls reached,
   * the cleanup in the except clause when it failed, then the finally clause.
   */
  function AttemptCalls(k: nat, a: Attempt, failed: bool, pubPath: string, base: string, format: int): seq<Call> {
    (if k > 0 then [KillLingering] else [])
    + Reached(a, pubPath, base, format)
    + (if failed then Release(HasDocument(a), HasPublisher(a)) else [])
    + Release(HasDocument(a), HasPublisher(a))
  }

  /** The outcome of the supervisor, with its trace, the final fs and the attempts made. */
  datatype Run = Run(result: Result<string, ConvertError>, calls: seq<Call>, fs: FS, attempts: nat)

  function Prepend(calls: seq<Call>, n: nat, r: Run): Run {
    Run(r.result, calls + r.calls, r.fs, r.attempts + n)
  }

  lemma PrependTwice(a: seq<Call>, b: seq<Call>, m: nat, n: nat, r: Run)
    ensures Prepend(a, m, Prepend(b, n, r)) == Prepend(a + b, m + n, r)
  {
    assert a + (b + r.calls) == (a + b) + r.calls;
  }

  /** Attempts `k`, `k + 1`, ... of the `for attempt in range(max_retries)` loop. */
  function RunAttempts(fs: FS, attempt: nat -> Attempt, k: nat, maxRetries: int,
                       pubPath: string, base: string, format: int, last: Option<Fault>): Run
    decreases if k < maxRetries then maxRetries - k else 0
  {
    if maxRetries <= k then Run(Failure(RetriesExhausted(maxRetries, last)), [], fs, 0)
    else
      var a := attempt(k);
      var fault := AttemptFault(fs, a, base);
      var calls := AttemptCalls(k, a, fault.Some?, pubPath, base, format);
      if fault.None? then Run(Success(HtmlFile(base)), calls, After(fs, a), 1)
      else if Retryable(fault.value.info) then
        Prepend(calls, 1, RunAttempts(After(fs, a), attempt, k + 1, maxRetries, pubPath, base, format, fault))
      else Run(Failure(RetriesExhausted(maxRetries, fault)), calls, After(fs, a), 1)
  }

  /** convert_pub_to_html, as a function of the fs and the Publisher oracle. */
  function ConvertSpec(fs: FS, pubPath: string, outputDir: string, format: int, maxRetries: int,
                       attempt: nat -> Attempt): Run
  {
    if pubPath !in fs then Run(Failure(FileNotFound(pubPath)), [], fs, 0)
    else if !IsPubName(pubPath) then Run(Failure(NotPubFile), [], fs, 0)
    else if IsFile(fs, outputDir) then Run(Failure(OutputDirIsFile(outputDir)), [], fs, 0)
    else
      var fs1 := fs[outputDir := Dir];
      var base := OutputBase(pubPath, outputDir);
      if OutputExists(fs1, base) then Run(Success(HtmlFile(base)), [], fs1, 0)
      else RunAttempts(fs1, attempt, 0, maxRetries, pubPath, base, format, None)
  }

  // ---------------------------------------------------------------------------
  // The supervisor

  /**
   * The body of one pass of the retry loop: the try block, its except clause
   * and its finally clause.  Returns the calls made, the new fs and the
   * exception the attempt ended with.
   */
  method TryAttempt(k: nat, fs: FS, a: Attempt, pubPath: string, base: string, format: int)
    returns (step: seq<Call>, fs': FS, fault: Option<Fault>)
    ensures step == AttemptCalls(k, a, fault.Some?, pubPath, base, format)
    ensures fs' == After(fs, a) && fault == AttemptFault(fs, a, base)
  {
    step := if k > 0 then [KillLingering] else [];
    var publisherOpen, docOpen := false, false;
    fault := None;
    fs' := fs;
    match a {
      case Raised(stage, f) =>
        step := step + [Dispatch];
        if stage != AtDispatch {
          publisherOpen := true;
          step := step + [SetAutomationSecurity(ForceDisable)];
          if stage != AtSecurity {
            step := step + [Open(pubPath, false, false)];
            if stage != AtOpen {
              docOpen := true;
              step := step + [SaveAs(base, format)];
            }
          }
        }
        fault := Some(f);
      case Saved(writes) =>
        publisherOpen := true;
        step := step + [Dispatch, SetAutomationSecurity(ForceDisable), Open(pubPath, false, false)];
        docOpen := true;
        step := step + [SaveAs(base, format)];
        fs' := fs + writes;
        var invalid := ValidateHtml(fs', base);
        if invalid.Some? {
          fault := Some(Fault(invalid.value.Message(), NoExcepInfo));
        }
    }
    assert step == (if k > 0 then [KillLingering] else []) + Reached(a, pubPath, base, format);
    assert docOpen == HasDocument(a) && publisherOpen == HasPublisher(a);
    if fault.Some? {
      // the except clause releases the handles
      step := step + Release(docOpen, publisherOpen);
    }
    // the finally clause releases them again
    step := step + Release(docOpen, publisherOpen);
  }

  /**
   * convert_pub_to_html: check the input, make the output directory, return at
   * once when the output is already there, otherwise run the attempts.
   */
  method ConvertPubToHtml(fs: FS, pubPath: string, outputDir: string, format: int, maxRetries: int,
                          attempt: nat -> Attempt)
    returns (result: Result<string, ConvertError>, calls: seq<Call>, fs': FS, attempts: nat)
    ensures Run(result, calls, fs', attempts) == ConvertSpec(fs, pubPath, outputDir, format, maxRetries, attempt)
    ensures pubPath !in fs ==> result == Failure(FileNotFound(pubPath)) && calls == []
    ensures pubPath in fs && !IsPubName(pubPath) ==> result == Failure(NotPubFile) && calls == []
    ensures result.Success? ==>
              result.value == HtmlFile(OutputBase(pubPath, outputDir))
              && OutputExists(fs', OutputBase(pubPath, outputDir))
    ensures attempts <= if maxRetries < 0 then 0 else maxRetries
  {
    if pubPath !in fs {
      return Failure(FileNotFound(pubPath)), [], fs, 0;
    }
    if !IsPubName(pubPath) {
      return Failure(NotPubFile), [], fs, 0;
    }
    if IsFile(fs, outputDir) {
      return Failure(OutputDirIsFile(outputDir)), [], fs, 0;
    }
    var cur := fs[outputDir := Dir];
    var base := OutputBase(pubPath, outputDir);
    if OutputExists(cur, base) {
      return Success(HtmlFile(base)), [], cur, 0;
    }
    RunSucceedsOnlyValidated(cur, attempt, 0, maxRetries, pubPath, base, format, None);
    RunAttemptsBound(cur, attempt, 0, maxRetries, pubPath, base, format, None);
    result, calls, fs', attempts := RetryLoop(cur, attempt, maxRetries, pubPath, base, format);
  }

  /** The `for attempt in range(max_retries)` loop and the RuntimeError after it. */
  method RetryLoop(fs: FS, attempt: nat -> Attempt, maxRetries: int, pubPath: string, base: string, format: int)
    returns (result: Result<string, ConvertError>, calls: seq<Call>, fs': FS, attempts: nat)
    ensures Run(result, calls, fs', attempts) == RunAttempts(fs, attempt, 0, maxRetries, pubPath, base, format, None)
  {
    var cur := fs;
    var last: Option<Fault> := None;
    calls, attempts := [], 0;
    var k: nat := 0;
    while k < maxRetries
      invariant attempts == k
      invariant RunAttempts(fs, attempt, 0, maxRetries, pubPath, base, format, None)
                == Prepend(calls, k, RunAttempts(cur, attempt, k, maxRetries, pubPath, base, format, last))
      decreases maxRetries - k
    {
      ghost var before, lastBefore, callsBefore := cur, last, calls;
      var step, fault;
      step, cur, fault := TryAttempt(k, cur, attempt(k), pubPath, base, format);
      PrependTwice(callsBefore, step, k, 1, RunAttempts(cur, attempt, k + 1, maxRetries, pubPath, base, format, fault));
      calls, attempts := calls + step, attempts + 1;
      if fault.None? {
        return Success(HtmlFile(base)), calls, cur, attempts;
      }
      last := fault;
      if !Retryable(fault.value.info) {
        return Failure(RetriesExhausted(maxRetries, last)), calls, cur, attempts;
      }
      assert RunAttempts(before, attempt, k, maxRetries, pubPath, base, format, lastBefore)
             == Prepend(step, 1, RunAttempts(cur, attempt, k + 1, maxRetries, pubPath, base, format, last));
      k := k + 1;
    }
    result, fs' := Failure(RetriesExhausted(maxRetries, last)), cur;
  }

  // ---------------------------------------------------------------------------
  // Properties of the retry loop

  /** Success is reported only once validate_html passes on the final fs. */
  lemma {:induction false} RunSucceedsOnlyValidated(fs: FS, attempt: nat -> Attempt, k: nat, maxRetries: int,
                                                    pubPath: string, base: string, format: int, last: Option<Fault>)
    ensures var r := RunAttempts(fs, attempt, k, maxRetries, pubPath, base, format, last);
            r.result.Success? ==> r.result.value == HtmlFile(base) && OutputExists(r.fs, base)
    decreases if k < maxRetries then maxRetries - k else 0
  {
    if k < maxRetries {
      var fault := AttemptFault(fs, attempt(k), base);
      if fault.Some? && Retryable(fault.value.info) {
        RunSucceedsOnlyValidated(After(fs, attempt(k)), attempt, k + 1, maxRetries, pubPath, base, format, fault);
      }
    }
  }

  /** No more than `maxRetries - k` attempts run from attempt `k` on. */
  lemma {:induction false} RunAttemptsBound(fs: FS, attempt: nat -> Attempt, k: nat, maxRetries: int,
                                            pubPath: string, base: string, format: int, last: Option<Fault>)
    ensures var r := RunAttempts(fs, attempt, k, maxRetries, pubPath, base, format, last);
            r.attempts <= if k < maxRetries then maxRetries - k else 0
    decreases if k < maxRetries then maxRetries - k else 0
  {
    if k < maxRetries {
      var fault := AttemptFault(fs, attempt(k), base);
      if fault.Some? && Retryable(fault.value.info) {
        RunAttemptsBound(After(fs, attempt(k)), attempt, k + 1, maxRetries, pubPath, base, format, fault);
      }
    }
  }

  /** The keys of the fs only grow while the attempts run. */
  lemma {:induction false} RunKeepsEntries(fs: FS, attempt: nat -> Attempt, k: nat, maxRetries: int,
                                           pubPath: string, base: string, format: int, last: Option<Fault>)
    ensures fs.Keys <= RunAttempts(fs, attempt, k, maxRetries, pubPath, base, format, last).fs.Keys
    decreases if k < maxRetries then maxRetries - k else 0
  {
    if k < maxRetries {
      var fault := AttemptFault(fs, attempt(k), base);
      if fault.Some? && Retryable(fault.value.info) {
        RunKeepsEntries(After(fs, attempt(k)), attempt, k + 1, maxRetries, pubPath, base, format, fault);
      }
    }
  }

  /** A whole conversion never removes a filesystem entry. */
  lemma ConvertKeepsEntries(fs: FS, pubPath: string, outputDir: string, format: int, maxRetries: int,
                            attempt: nat -> Attempt)
    ensures fs.Keys <= ConvertSpec(fs, pubPath, outputDir, format, maxRetries, attempt).fs.Keys
  {
    if pubPath in fs && IsPubName(pubPath) && !IsFile(fs, outputDir) {
      var fs1 := fs[outputDir := Dir];
      var base := OutputBase(pubPath, outputDir);
      if !OutputExists(fs1, base) {
        RunKeepsEntries(fs1, attempt, 0, maxRetries, pubPath, base, format, None);
      }
    }
  }

  /** The fs after attempts `k .. j-1`, each starting on the fs the previous one left. */
  function AfterAttempts(fs: FS, attempt: nat -> Attempt, k: nat, j: nat): FS
    decreases j - k
  {
    if j <= k then fs else AfterAttempts(After(fs, attempt(k)), attempt, k + 1, j)
  }

  /**
   * When attempts `k .. j-1` fail with the modal-dialog fault and attempt `j`
   * does not (or `j` is past the bound), the loop makes attempts up to `j`
   * inclusive, or stops at the bound.  Stopping at `j` succeeds exactly when
   * attempt `j` saved valid output, and otherwise the error carries attempt
   * `j`'s fault; when the bound is reached the error carries the fault of the
   * last attempt.
   */
  lemma {:induction false} AttemptsUntilSettled(fs: FS, attempt: nat -> Attempt, k: nat, maxRetries: int,
                                                pubPath: string, base: string, format: int, last: Option<Fault>, j: nat)
    requires k <= j
    requires forall i :: k <= i < j ==> Transient(attempt(i))
    requires j < maxRetries ==> !Transient(attempt(j))
    ensures var r := RunAttempts(fs, attempt, k, maxRetries, pubPath, base, format, last);
            && r.attempts == (if j < maxRetries then j - k + 1 else if k < maxRetries then maxRetries - k else 0)
            && (maxRetries <= j && k < maxRetries ==>
                  r.result == Failure(RetriesExhausted(maxRetries, FaultOf(attempt(maxRetries - 1)))))
            && (j < maxRetries ==>
                  var fault := AttemptFault(AfterAttempts(fs, attempt, k, j), attempt(j), base);
                  r.result == if fault.None? then Success(HtmlFile(base)) else Failure(RetriesExhausted(maxRetries, fault)))
    decreases j - k
  {
    if maxRetries <= j && k < maxRetries {
      assert Transient(attempt(maxRetries - 1));
    }
    if k < maxRetries && k < j {
      var fault := AttemptFault(fs, attempt(k), base);
      assert Transient(attempt(k));
      assert fault == Some(attempt(k).fault) && Retryable(fault.value.info);
      AttemptsUntilSettled(After(fs, attempt(k)), attempt, k + 1, maxRetries, pubPath, base, format, fault, j);
    }
  }

  /** The checks before any attempt pass and the output is not there yet. */
  predicate ReadyToAttempt(fs: FS, pubPath: string, outputDir: string) {
    pubPath in fs && IsPubName(pubPath) && !IsFile(fs, outputDir)
    && !OutputExists(fs[outputDir := Dir], OutputBase(pubPath, outputDir))
  }

  /** A modal-dialog fault on every attempt: exactly `maxRetries` attempts, then RuntimeError. */
  lemma ExhaustsOnModalDialog(fs: FS, pubPath: string, outputDir: string, format: int, maxRetries: int,
                              attempt: nat -> Attempt)
    requires ReadyToAttempt(fs, pubPath, outputDir)
    requires maxRetries >= 1 && forall i :: 0 <= i < maxRetries ==> Transient(attempt(i))
    ensures var r := ConvertSpec(fs, pubPath, outputDir, format, maxRetries, attempt);
            r.attempts == maxRetries
            && r.result == Failure(RetriesExhausted(maxRetries, FaultOf(attempt(maxRetries - 1))))
  {
    assert Transient(attempt(maxRetries - 1));
    AttemptsUntilSettled(fs[outputDir := Dir], attempt, 0, maxRetries, pubPath,
                         OutputBase(pubPath, outputDir), format, None, maxRetries);
  }

  /**
   * Any other outcome of the first attempt ends the loop after it: success when
   * SaveAs produced valid output, otherwise RuntimeError carrying that error.
   */
  lemma StopsAfterOneAttempt(fs: FS, pubPath: string, outputDir: string, format: int, maxRetries: int,
                             attempt: nat -> Attempt)
    requires ReadyToAttempt(fs, pubPath, outputDir)
    requires maxRetries >= 1 && !Transient(attempt(0))
    ensures var r := ConvertSpec(fs, pubPath, outputDir, format, maxRetries, attempt);
            var fault := AttemptFault(fs[outputDir := Dir], attempt(0), OutputBase(pubPath, outputDir));
            && r.attempts == 1
            && r.result == (if fault.None? then Success(HtmlFile(OutputBase(pubPath, outputDir)))
                            else Failure(RetriesExhausted(maxRetries, fault)))
  {
    AttemptsUntilSettled(fs[outputDir := Dir], attempt, 0, maxRetries, pubPath,
                         OutputBase(pubPath, outputDir), format, None, 0);
  }

  /**
   * A successful conversion leaves the document, the output directory and the
   * validated output in the fs, and returns the page of the output base.
   */
  lemma SuccessLeavesOutput(fs: FS, pubPath: string, outputDir: string, format: int, maxRetries: int,
                            attempt: nat -> Attempt)
    requires ConvertSpec(fs, pubPath, outputDir, format, maxRetries, attempt).result.Success?
    ensures var r := ConvertSpec(fs, pubPath, outputDir, format, maxRetries, attempt);
            var base := OutputBase(pubPath, outputDir);
            && pubPath in r.fs && IsPubName(pubPath) && outputDir in r.fs
            && OutputExists(r.fs, base) && r.result == Success(HtmlFile(base))
  {
    var fs1 := fs[outputDir := Dir];
    var base := OutputBase(pubPath, outputDir);
    assert pubPath in fs && IsPubName(pubPath) && !IsFile(fs, outputDir);
    if !OutputExists(fs1, base) {
      RunKeepsEntries(fs1, attempt, 0, maxRetries, pubPath, base, format, None);
      RunSucceedsOnlyValidated(fs1, attempt, 0, maxRetries, pubPath, base, format, None);
    }
  }

  /**
   * A second conversion on the fs the first one left behind returns the same
   * path without a single COM call, whatever Publisher would do.
   */
  lemma SecondConversionIsNoOp(fs: FS, pubPath: string, outputDir: string, format: int, maxRetries: int,
                               attempt: nat -> Attempt, again: nat -> Attempt)
    requires ConvertSpec(fs, pubPath, outputDir, format, maxRetries, attempt).result.Success?
    requires !IsFile(ConvertSpec(fs, pubPath, outputDir, format, maxRetries, attempt).fs, outputDir)
    ensures var r := ConvertSpec(fs, pubPath, outputDir, format, maxRetries, attempt);
            var r2 := ConvertSpec(r.fs, pubPath, outputDir, format, maxRetries, again);
            r2.result == r.result && r2.calls == [] && r2.attempts == 0
  {
    var r := ConvertSpec(fs, pubPath, outputDir, format, maxRetries, attempt);
    SuccessLeavesOutput(fs, pubPath, outputDir, format, maxRetries, attempt);
    assert r.fs[outputDir := Dir] == r.fs;
  }

  // ---------------------------------------------------------------------------
  // Order of the COM calls

  /**
   * Each Open is the document's, with ReadOnly and OpenAndRepair off, right
   * after AutomationSecurity was set to force-disable; each SaveAs is to the
   * output base in the requested format, right after Open; and the security
   * level is set right after Publisher was started.
   */
  predicate CallsInOrder(c: seq<Call>, pubPath: string, base: string, format: int) {
    forall i :: 0 <= i < |c| ==> InOrderAt(c, i, pubPath, base, format)
  }

  predicate InOrderAt(c: seq<Call>, i: int, pubPath: string, base: string, format: int)
    requires 0 <= i < |c|
  {
    && (c[i].SetAutomationSecurity? ==> c[i].level == ForceDisable && i > 0 && c[i - 1] == Dispatch)
    && (c[i].Open? ==> c[i] == Open(pubPath, false, false) && i > 0 && c[i - 1] == SetAutomationSecurity(ForceDisable))
    && (c[i].SaveAs? ==> c[i] == SaveAs(base, format) && i > 0 && c[i - 1] == Open(pubPath, false, false))
  }

  lemma {:induction false} CallsInOrderAppend(a: seq<Call>, b: seq<Call>, pubPath: string, base: string, format: int)
    requires CallsInOrder(a, pubPath, base, format) && CallsInOrder(b, pubPath, base, format)
    ensures CallsInOrder(a + b, pubPath, base, format)
  {
    forall i | 0 <= i < |a + b| ensures InOrderAt(a + b, i, pubPath, base, format) {
      if i < |a| {
        assert InOrderAt(a, i, pubPath, base, format);
      } else {
        assert InOrderAt(b, i - |a|, pubPath, base, format);
      }
    }
  }

  /** A trace with no start, security, Open or SaveAs call is trivially in order. */
  lemma CleanupInOrder(c: seq<Call>, pubPath: string, base: string, format: int)
    requires forall i :: 0 <= i < |c| ==> c[i] == Close || c[i] == Quit
    ensures CallsInOrder(c, pubPath, base, format)
  {
  }

  lemma ReachedInOrder(a: Attempt, pubPath: string, base: string, format: int)
    ensures var c := Reached(a, pubPath, base, format);
            CallsInOrder(c, pubPath, base, format) && KillLingering !in c && c[0] == Dispatch
  {
    var c := Reached(a, pubPath, base, format);
    forall i | 0 <= i < |c| ensures InOrderAt(c, i, pubPath, base, format) {
    }
  }

  lemma AttemptCallsInOrder(k: nat, a: Attempt, failed: bool, pubPath: string, base: string, format: int)
    ensures var c := AttemptCalls(k, a, failed, pubPath, base, format);
            CallsInOrder(c, pubPath, base, format)
  {
    var pre: seq<Call> := if k > 0 then [KillLingering] else [];
    var reached := Reached(a, pubPath, base, format);
    var release := Release(HasDocument(a), HasPublisher(a));
    var tail := (if failed then release else []) + release;
    assert AttemptCalls(k, a, failed, pubPath, base, format) == (pre + reached) + tail;
    ReachedInOrder(a, pubPath, base, format);
    assert CallsInOrder(pre, pubPath, base, format);
    CallsInOrderAppend(pre, reached, pubPath, base, format);
    assert forall i :: 0 <= i < |release| ==> release[i] == Close || release[i] == Quit;
    assert forall i :: 0 <= i < |tail| ==> tail[i] == Close || tail[i] == Quit;
    CleanupInOrder(tail, pubPath, base, format);
    CallsInOrderAppend(pre + reached, tail, pubPath, base, format);
  }

  /** The number of kill steps in a trace. */
  function Kills(c: seq<Call>): nat {
    if c == [] then 0 else (if c[0] == KillLingering then 1 else 0) + Kills(c[1..])
  }

  lemma {:induction false} KillsAppend(a: seq<Call>, b: seq<Call>)
    ensures Kills(a + b) == Kills(a) + Kills(b)
  {
    if a != [] {
      assert (a + b)[1..] == a[1..] + b;
      KillsAppend(a[1..], b);
    } else {
      assert a + b == b;
    }
  }

  lemma {:induction false} NoKills(c: seq<Call>)
    requires KillLingering !in c
    ensures Kills(c) == 0
  {
    if c != [] {
      NoKills(c[1..]);
    }
  }

  /** Each attempt but the first begins with the kill; the first begins by starting Publisher. */
  lemma AttemptCallsStart(k: nat, a: Attempt, failed: bool, pubPath: string, base: string, format: int)
    ensures var c := AttemptCalls(k, a, failed, pubPath, base, format);
            Kills(c) == (if k > 0 then 1 else 0) && c[0] == (if k > 0 then KillLingering else Dispatch)
  {
    var pre: seq<Call> := if k > 0 then [KillLingering] else [];
    var reached := Reached(a, pubPath, base, format);
    var release := Release(HasDocument(a), HasPublisher(a));
    var tail := (if failed then release else []) + release;
    var c := AttemptCalls(k, a, failed, pubPath, base, format);
    assert c == pre + (reached + tail);
    ReachedInOrder(a, pubPath, base, format);
    assert KillLingering !in release;
    assert KillLingering !in reached + tail;
    NoKills(reached + tail);
    KillsAppend(pre, reached + tail);
    assert Kills(pre) == if k > 0 then 1 else 0;
  }

  /** Over all attempts, the calls are in order. */
  lemma {:induction false} RunCallsInOrder(fs: FS, attempt: nat -> Attempt, k: nat, maxRetries: int,
                                           pubPath: string, base: string, format: int, last: Option<Fault>)
    ensures CallsInOrder(RunAttempts(fs, attempt, k, maxRetries, pubPath, base, format, last).calls,
                         pubPath, base, format)
    decreases if k < maxRetries then maxRetries - k else 0
  {
    if k < maxRetries {
      var a := attempt(k);
      var fault := AttemptFault(fs, a, base);
      var calls := AttemptCalls(k, a, fault.Some?, pubPath, base, format);
      AttemptCallsInOrder(k, a, fault.Some?, pubPath, base, format);
      if fault.Some? && Retryable(fault.value.info) {
        var rest := RunAttempts(After(fs, a), attempt, k + 1, maxRetries, pubPath, base, format, fault);
        RunCallsInOrder(After(fs, a), attempt, k + 1, maxRetries, pubPath, base, format, fault);
        CallsInOrderAppend(calls, rest.calls, pubPath, base, format);
      }
    }
  }

  /** One step of the retry loop: the calls of attempt `k`, then those of the attempts after it, if any. */
  lemma RunShape(fs: FS, attempt: nat -> Attempt, k: nat, maxRetries: int,
                 pubPath: string, base: string, format: int, last: Option<Fault>)
    requires k < maxRetries
    ensures var a := attempt(k);
            var fault := AttemptFault(fs, a, base);
            var calls := AttemptCalls(k, a, fault.Some?, pubPath, base, format);
            var r := RunAttempts(fs, attempt, k, maxRetries, pubPath, base, format, last);
            if fault.Some? && Retryable(fault.value.info) then
              var rest := RunAttempts(After(fs, a), attempt, k + 1, maxRetries, pubPath, base, format, fault);
              r.calls == calls + rest.calls && r.attempts == rest.attempts + 1
            else r.calls == calls && r.attempts == 1
  {
  }

  /**
   * Over all attempts, the first call starts Publisher (or, on a retry, kills
   * the lingering processes first), and there are calls exactly when there
   * are attempts.
   */
  lemma {:induction false} RunStartsWith(fs: FS, attempt: nat -> Attempt, k: nat, maxRetries: int,
                                         pubPath: string, base: string, format: int, last: Option<Fault>)
    ensures var r := RunAttempts(fs, attempt, k, maxRetries, pubPath, base, format, last);
            && (r.calls == [] <==> r.attempts == 0)
            && (r.calls != [] ==> r.calls[0] == if k > 0 then KillLingering else Dispatch)
    decreases if k < maxRetries then maxRetries - k else 0
  {
    if k < maxRetries {
      var a := attempt(k);
      var fault := AttemptFault(fs, a, base);
      AttemptCallsStart(k, a, fault.Some?, pubPath, base, format);
      RunShape(fs, attempt, k, maxRetries, pubPath, base, format, last);
    }
  }

  /** Lingering processes are killed once before each attempt but the first. */
  lemma {:induction false} RunKillsBeforeRetries(fs: FS, attempt: nat -> Attempt, k: nat, maxRetries: int,
                                                 pubPath: string, base: string, format: int, last: Option<Fault>)
    ensures var r := RunAttempts(fs, attempt, k, maxRetries, pubPath, base, format, last);
            Kills(r.calls) == if k == 0 && r.attempts > 0 then r.attempts - 1 else r.attempts
    decreases if k < maxRetries then maxRetries - k else 0
  {
    if k < maxRetries {
      var a := attempt(k);
      var fault := AttemptFault(fs, a, base);
      var calls := AttemptCalls(k, a, fault.Some?, pubPath, base, format);
      AttemptCallsStart(k, a, fault.Some?, pubPath, base, format);
      RunShape(fs, attempt, k, maxRetries, pubPath, base, format, last);
      if fault.Some? && Retryable(fault.value.info) {
        var rest := RunAttempts(After(fs, a), attempt, k + 1, maxRetries, pubPath, base, format, fault);
        RunKillsBeforeRetries(After(fs, a), attempt, k + 1, maxRetries, pubPath, base, format, fault);
        KillsAppend(calls, rest.calls);
      }
    } else {
      assert Kills([]) == 0;
    }
  }

  // ---------------------------------------------------------------------------
  // The excepinfo of None case, as written

  datatype Verdict = Retry | Stop | TypeErrorRaised

  /**
   * The classification as the except clause writes it: `len(e.excepinfo)` is
   * taken even when `excepinfo` is None, which raises TypeError out of the
   * loop instead of ending it.
   */
  function ClassifyAsWritten(info: ExcepInfo): Verdict {
    match info
    case NoExcepInfo => Stop
    case ExcepInfoNone => TypeErrorRaised
    case ExcepInfo(fields, _) =>
      var code := if |fields| > 5 then Some(fields[5]) else None;
      if code != Some(IntField(ModalDialogFault)) then Stop else Retry
  }

  /** A COM error whose excepinfo is None escapes as TypeError; the model stops the loop instead. */
  lemma ExcepInfoNoneEscapes()
    ensures ClassifyAsWritten(ExcepInfoNone) == TypeErrorRaised && !Retryable(ExcepInfoNone)
  {
  }

  /** On every other error the written classification and `Retryable` agree. */
  lemma ClassifyAgreesOtherwise(info: ExcepInfo)
    requires info != ExcepInfoNone
    ensures ClassifyAsWritten(info) == if Retryable(info) then Retry else Stop
  {
  }
}
