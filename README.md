# pubtopdf: a verified model of the Publisher conversion supervisor

This project models the core of a set of scripts that drive Microsoft
Publisher over COM automation:

- **convert.py** is the conversion supervisor. It checks the input, creates
  the output directory and skips a document whose output is already valid.
  Otherwise it opens the document in a fresh Publisher instance and saves it
  as HTML with `SaveAs`. It then checks that the page and its non-empty
  `_files` directory exist. Only the modal-dialog COM fault earns a retry,
  and lingering `MSPUB.EXE` processes are killed before each retry.
- **convert_tree_to_pub.py** walks a directory tree twice. The first pass
  counts the `.pub` files. The second pass converts each one whose output is
  not there yet, into the mirrored directory of the output tree, and tallies
  conversions and skips.
- **explore_formats.py** probes `SaveAs` format codes. For each code in a
  range it cleans a scratch directory, saves the document with that code and
  labels every file that appeared. It keeps the interesting results and
  renders them as report rows.

How the system is represented:

- The filesystem is a map from `/`-separated paths to `File` or `Dir`. A
  directory's listing is the set of its direct child keys (module
  `FileSystem`).
- Publisher is an oracle. Attempt number `k` either raises at one COM step
  with a fault (a message and an `excepinfo`), or returns from `SaveAs`
  having written a set of entries.
- The supervisor returns its result together with the trace of COM calls it
  made: `Dispatch`, `SetAutomationSecurity`, `Open`, `SaveAs`, `Close`,
  `Quit`, and the kill of lingering processes.
- Each routine with a loop is a method. Where the source computes a value,
  the method is proved equal to a specification function: `ConvertSpec`
  (with `RunAttempts`), `TotalPub`, `Cleaned`, `Kept` and `Rows`.
- The conversion pass and the probe sweep are specified file by file.
  `Fits` says what the walker does with one `.pub` file, and `Threaded`
  says that a whole log is a chain of such steps, each on the fs the
  previous file left. `Probes` and `ProbeChain` do the same for the format
  codes. The properties are proved as lemmas about these definitions.
- The supervisor's specification (`ConvertSpec`, `RunAttempts`) uses the
  corrected classification of a COM error whose `excepinfo` is None: it
  stops the retry loop like any other non-retryable error. The source as
  written raises TypeError there instead (see "Findings"). Everything built
  on `ConvertSpec`, the tree walker included, inherits the corrected
  behaviour.
- `os.listdir` returns entries in an unspecified order, so the loops over a
  listing pick the next entry nondeterministically. Their contracts hold for
  every order.
- `os.walk` gives the tree walker its listings as a parameter. The counting
  pass and the conversion pass receive separate walks, because the tree may
  change between them.

## Model

| member | source | states |
|---|---|---|
| Convert.ValidateHtml | convert.py:37-57 | passes exactly when the output exists as check_output_exists (convert.py:77-87) defines it; otherwise returns the first failing check (page missing, files directory missing, files directory empty), each characterised by an if-and-only-if |
| Convert.OutputExists | convert.py:77-87 | the output with base `b` exists iff `b.htm` is an entry of the fs and `b_files` is a directory with at least one entry |
| Convert.OutputBase | convert.py:116-118 | the output base is the output directory joined with the document's name without its last extension |
| Convert.KillPublisherProcesses | convert.py:12-35 | the killed pids are exactly `Killed(procs)`; the result is true iff nothing was killed or the rescan holds no process whose upper-cased name contains `MSPUB.EXE` |
| Convert.KilledExactly | convert.py:15-22 | a pid is killed iff some table entry with that pid has a Publisher name and its kill succeeds |
| Convert.TryAttempt | convert.py:127-206 | one attempt's calls (a kill on a retry, the COM calls reached before the raise, the except cleanup when it failed, the finally cleanup), its new fs and the fault it ends with, including a failed validation |
| Convert.RetryLoop | convert.py:127-209 | the loop's result, trace, fs and attempt count equal `RunAttempts` from attempt 0 |
| Convert.ConvertPubToHtml | convert.py:89-209 | equals `ConvertSpec`; a missing input gives FileNotFoundError and a non-`.pub` name gives ValueError, both with no COM call; success returns the `.htm` path of the output base, and that output is valid on the final fs; at most `max_retries` attempts |
| Convert.RunSucceedsOnlyValidated | convert.py:168-171 | a successful run returns `<base>.htm` and validate_html holds on its final fs |
| Convert.RunAttemptsBound | convert.py:127 | no more than `max_retries - k` attempts run from attempt `k` |
| Convert.RunKeepsEntries | convert.py:127-206 | the attempts never remove a filesystem entry |
| Convert.ConvertKeepsEntries | convert.py:89-209 | a whole conversion never removes a filesystem entry |
| Convert.AttemptsUntilSettled | convert.py:127-195 | modal-dialog faults on attempts `k..j-1` and anything else on `j`: exactly `j-k+1` attempts, ending in success iff attempt `j` saved valid output and otherwise in RuntimeError with attempt `j`'s fault; if the faults last up to the bound, `max_retries - k` attempts and RuntimeError with the last fault |
| Convert.ExhaustsOnModalDialog | convert.py:189-209 | modal-dialog faults on every attempt: exactly `max_retries` attempts, then RuntimeError carrying the last fault |
| Convert.StopsAfterOneAttempt | convert.py:168-195 | a first attempt without the modal-dialog fault ends the loop: success if SaveAs produced valid output, otherwise RuntimeError with that error |
| Convert.SuccessLeavesOutput | convert.py:104-171 | after a success, the document and the output directory are in the fs and the output base validates |
| Convert.SecondConversionIsNoOp | convert.py:117-124 | converting again on the fs a success left behind returns the same path with no COM call and no attempt, whatever Publisher would do |
| Convert.RunCallsInOrder | convert.py:138-154 | in the whole trace, each security call follows Dispatch and sets force-disable; each Open is the document's, read-write without repair, right after it; each SaveAs targets the output base in the requested format, right after Open |
| Convert.RunStartsWith | convert.py:127-140 | the trace is empty iff no attempt ran; it begins with Dispatch, or with the kill when started at a retry |
| Convert.RunKillsBeforeRetries | convert.py:129-136 | the trace holds exactly one kill per attempt after the first |
| Convert.AttemptCallsStart | convert.py:129-140 | one attempt's calls hold one kill on a retry and none on the first attempt, and start with it or with Dispatch |
| Convert.ExcepInfoNoneEscapes | convert.py:189-190 | as written, a COM error whose `excepinfo` is None raises TypeError from `len`; the corrected classification stops instead |
| Convert.ClassifyAgreesOtherwise | convert.py:189-195 | for every other error, the written classification and `Retryable` agree: retry iff `excepinfo[5]` is the modal-dialog code |
| TreeWalk.PubFiles | convert_tree_to_pub.py:14-18 | a name is kept iff it is in the listing and ends in `.pub` in any case |
| TreeWalk.CountPubFiles | convert_tree_to_pub.py:8-20 | the count is the number of `.pub` names over all listings of the walk |
| TreeWalk.JobsCounted | convert_tree_to_pub.py:8-20 | the conversion pass has one job per file the counting pass counts, when both see the same walk |
| TreeWalk.TallyCoversLog | convert_tree_to_pub.py:66-72 | each decision is a skip or a conversion, so the two counts add up to the number of files visited |
| TreeWalk.SameOutputBase | convert_tree_to_pub.py:60-66 | the walker's existence check and the supervisor look at the same output base |
| TreeWalk.Fits | convert_tree_to_pub.py:60-91 | one file's step: the decision names the file; it is a skip iff the output exists, and a skip changes nothing; a conversion records `total - processed`, and its outcome and new fs are those of the supervisor run with the HTML format and the default retries; a successful conversion returns the page and leaves a valid output |
| TreeWalk.Threaded | convert_tree_to_pub.py:45-91 | the log is one step per job in order, job `i` starting on the fs job `i - 1` left, with its output directory made first when it is the first of its directory |
| TreeWalk.WalkStepProperties | convert_tree_to_pub.py:60-72 | every step of the walker names its file, records the files still to come, and skips a file whose output exists without changing the fs |
| TreeWalk.WalkStepGrows | convert_tree_to_pub.py:66-91 | no step of the walker removes a filesystem entry |
| TreeWalk.ThreadedVisits | convert_tree_to_pub.py:60-77 | in a whole run, decision `i` names the path of job `i` and, when a conversion, records `total - (i + 1)` files to come |
| TreeWalk.AlreadyConvertedIsSkipped | convert_tree_to_pub.py:60-69 | when every job's output already exists, the run skips every file, converts none and leaves the fs unchanged |
| TreeWalk.ThreadedGrows | convert_tree_to_pub.py:45-91 | a run of steps that never remove an entry ends on an fs that holds every entry it started with |
| TreeWalk.ConvertCatching | convert_tree_to_pub.py:85-91 | the outcome and new fs are those of the supervisor (`ConvertSpec` with the HTML format and the default retries) on the file's path; a conversion error is kept as the outcome; no entry is removed; a success returns the file's page, whose output is valid afterwards |
| TreeWalk.VisitFile | convert_tree_to_pub.py:60-91 | the decision is one that `Fits` the file (a skip iff its output exists, and then the fs is unchanged; otherwise the supervisor's outcome and fs); exactly the matching counter grows |
| TreeWalk.VisitDirectory | convert_tree_to_pub.py:60-91 | the decisions are `Threaded` over the directory's `.pub` files in listing order, from the running count; the counters match the decisions |
| TreeWalk.ConvertListing | convert_tree_to_pub.py:50-91 | making the output directory fails iff the listing has `.pub` files and a file is in the way, and then nothing changes; otherwise a listing with `.pub` files has its output directory in the fs afterwards, no entry is removed, and its decisions are `Threaded` over its files from the running count, with matching counters |
| TreeWalk.ConvertListings | convert_tree_to_pub.py:45-91 | the log is `Threaded` over the jobs of the listings processed; success iff all were, and the result is then (conversions, skips) of the log; a failure names the output directory of the listing where a file was in the way; the directories made are those of the listings with `.pub` files, and all are in the final fs |
| TreeWalk.ConvertDirectory | convert_tree_to_pub.py:22-102 | a missing input is the only FileNotFoundError; a zero count returns (0, 0) and touches nothing; otherwise the log is `Threaded` with the walker's own step over the walk's jobs, the directories made are those with `.pub` files and are in the final fs, no entry is removed, and the returned pair is (conversions, skips) of the log and sums to the number of files; the files still to come are never negative when the tree did not change between passes; on a tree already converted the result is (0, number of files) and the fs is unchanged; when makedirs fails, the error names the output directory of the listing where the pass stopped, a listing with `.pub` files whose output directory is a file, and the log, the fs and the directories made are those of the listings before it, whose conversions stay in the fs |
| FormatProbe.DetectFileType | explore_formats.py:14-47 | a directory is "Directory"; an exception of the lookup gives "Error detecting type: " and its message; otherwise the label follows the lowercased suffix |
| FormatProbe.LabelForOracles | explore_formats.py:22-45 | the PDF reader is consulted only for `.pdf`; the MIME guess only for a suffix other than `.pdf`, `.htm`, `.html`, `.txt`, `.rtf` and `.pub`, and then a truthy guess is the label and otherwise "Unknown (<ext>)" |
| FormatProbe.LabelIgnoresCase | explore_formats.py:22 | two regular files whose suffixes agree up to case get the same label, for the same MIME guess and PDF reading |
| FormatProbe.CleanOutputDir | explore_formats.py:49-60 | listing a missing directory raises; otherwise the fs becomes `Cleaned` (every entry but `.gitkeep` removed, directories with their whole tree), and exactly the failed deletions are logged |
| FormatProbe.CleanLeavesOnlyKeep | explore_formats.py:51-60 | after a clean, `.gitkeep` and the entries whose deletion failed are the only ones left in the directory |
| FormatProbe.CleanStaysInside | explore_formats.py:51-60 | a clean touches nothing outside the directory |
| FormatProbe.CleanIdempotent | explore_formats.py:49-60 | cleaning twice is cleaning once |
| FormatProbe.ListCreatedFiles | explore_formats.py:94-102 | the list holds, once each, every listed entry but `.gitkeep`, with the label detect_file_type gives it |
| FormatProbe.ErrorText | explore_formats.py:106-110 | the stored error is `COM Error: ` and the excepinfo's repr when the exception has one (`COM Error: None` for an excepinfo of None), and the message otherwise |
| FormatProbe.Probes | explore_formats.py:62-121 | keeps the format code; a missing output directory gives its listing error and changes nothing; a raised COM call gives its error text on the cleaned fs; a saved document gives the cleaned fs plus what SaveAs wrote; when SaveAs leaves no directory there, the listing error; no error iff a saved document with the directory still there, and then the files describe the directory; an error has no files |
| FormatProbe.TestFormatConstant | explore_formats.py:62-121 | the result and the new fs are as `Probes` describes for the code, its session and the fs on entry |
| FormatProbe.ProbeChain | explore_formats.py:140-144 | each probed result is what test_format_constant returns for its code on the fs the previous code left, with that code's own Publisher session, failing deletions and PDF readings |
| FormatProbe.ProbeRange | explore_formats.py:140-146 | one result per code from start to end inclusive, in order, each as `Probes` describes on the fs the previous code left with that code's own oracles, an error never with files; the final fs is the one the last code left; the collected results are exactly the kept ones |
| FormatProbe.Interesting | explore_formats.py:145 | a result is interesting iff it produced files or its error is not `COM Error: None` |
| FormatProbe.RowFor | explore_formats.py:152-161 | the row holds the code and either `Error: ` with the error when the error is truthy, or the files' `name: type` lines joined by newlines, or `No files created` |
| FormatProbe.RenderRows | explore_formats.py:151-161 | the table data is one row per kept result, as `RowFor` renders it |
| FormatProbe.ExploreFormatConstants | explore_formats.py:123-167 | probes every code from start to end inclusive, in order, each on the fs the previous code left with its own oracles, as `ProbeChain` says; the results are exactly the kept ones and the rows are theirs; the final clean raises iff the output directory is missing after the last code, and otherwise cleans the fs that code left with its own failing deletions, after which only `.gitkeep` and those remain |
| FormatProbe.KeptExactly | explore_formats.py:145-146 | a result is kept iff it was probed and produced files or did not fail with "COM Error: None" |
| FormatProbe.KeptAscending | explore_formats.py:140-146 | the kept results stay in ascending order of format code, within the probed range |
| FormatProbe.ExcepInfoNoneDropped | explore_formats.py:106-110 | a COM error whose excepinfo is None, with no files, is dropped by the filter |
| FormatProbe.RowShows | explore_formats.py:151-161 | a row shows "Error: " and the error when there is a non-empty one; otherwise it reads "No files created" iff no file was produced |

## Left out

- The COM bridge itself is not modelled. Publisher's behaviour is an oracle per attempt, and `SaveAs` either raises or writes a set of entries all at once.
- Exceptions raised by `Close` or `Quit` during cleanup are not modelled. The source swallows them or only prints a warning.
- Sleeps, clocks and the ETA are not modelled. The elapsed-time and time formatting of the tree walker are left out too, and so are all prints and logging. The probe's clean reports the entries whose deletion failed as a set.
- check_output_files (the glob at convert.py:63-75) is used only for printing and is not part of this model.
- Path resolution (`Path.resolve`, `os.path.abspath`) is not modelled. Paths are normalised `/`-separated strings; there are no Windows separators and no case-insensitive filesystem.
- `os.makedirs` creates only the named directory. Missing parents are not created.
- `str.lower`/`str.upper` are modelled on ASCII letters only.
- Convert.KillPublisherProcesses: a process whose name is None, and any exception that psutil raises, are left out. The process table and its rescan after the pause are parameters. Whether the kill loop reported success only decides a sleep, so that boolean does not affect the rest of the model.
- The order of `os.listdir` and `os.walk` is left open rather than fixed. Every contract holds for every order.
- `shutil.rmtree` either removes a whole tree or fails without removing anything. A partly removed tree is not modelled.
- The text of an OSError is a parameter (`listdirError`), and so is the MIME guesser, per path. The PDF reader is a parameter per format code and path, and the deletions that fail are a parameter per clean, because a file Publisher still holds may fail to delete before one code and not before the next.
- FormatProbe.TestFormatConstant: the probe's COM calls are not recorded as a trace, and a failing SaveAs is assumed to have written nothing.
- FormatProbe.ExploreFormatConstants: the exception of the final clean is reported as the flag `finalCleanRaised`. The report's rendering into a text table (tabulate) is left out; only its rows are modelled.
- The walker's skip check (convert_tree_to_pub.py:62) takes `pathlib`'s stem, and the supervisor (convert.py:117) takes `os.path.splitext`'s. The two differ only for a name in which every character before the last dot is a dot, and there are at least two such dots (such as `..pub`). The model uses the splitext rule for both.
- inspect_constants.py is not part of this model. It only prints the constants of the COM type library.
- The `main` functions and their argument parsing are not modelled. Neither are the exit codes.

## Findings

| source | as written | input that shows it | evidently intended | confidence | as-written member | corrected member |
|---|---|---|---|---|---|---|
| convert.py:189-195 | `len(e.excepinfo)` is taken whenever the exception has an `excepinfo` attribute | a COM error whose `excepinfo` is None (as pywin32 raises for failures outside `IDispatch::Invoke`) raises TypeError from the except clause and escapes the retry loop | a missing excepinfo stops the loop like any non-retryable error and ends in the RuntimeError of convert.py:209 | medium, not executed | Convert.ExcepInfoNoneEscapes | Convert.StopsAfterOneAttempt |

The probe's filter (explore_formats.py:145-146) drops results that fail with
"COM Error: None". That text is produced exactly when a COM error carries an
`excepinfo` of None (explore_formats.py:106-110), so the filter can fire. The
model follows the code here.
