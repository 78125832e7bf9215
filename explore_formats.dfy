/**
 * The format probe: save one `.pub` document with every SaveAs format code of
 * a range, look at what each code produced in a scratch output directory, keep
 * the interesting outcomes and render them as the rows of a report table.
 *
 * Publisher, the MIME-type guesser and the PDF reader are oracles.  The order
 * in which `os.listdir` returns a directory's entries is left open: the loops
 * over a listing pick the next entry nondeterministically.
 */
module FormatProbe {
  import opened Wrappers
  import opened FileSystem
  import Convert

  // ---------------------------------------------------------------------------
  // File-type detection

  /** What `mimetypes.guess_type(path)[0]` gives: a guess (possibly None), or an exception. */
  datatype MimeGuess = Guessed(mime: Option<string>) | LookupRaised(message: string)

  /** What reading a file with the PDF reader gives: its page count, or any exception. */
  datatype PdfRead = Pages(count: nat) | Unreadable

  const ErrorPrefix: string := "Error detecting type: "

  /** The extensions with a fixed label, the `elif` branches after `.pdf`. */
  function FixedLabel(ext: string): Option<string> {
    match ext
    case ".htm" => Some("HTML document")
    case ".html" => Some("HTML document")
    case ".txt" => Some("Text document")
    case ".rtf" => Some("Rich Text document")
    case ".pub" => Some("Publisher document")
    case _ => None
  }

  /** A guess is used only when it is a non-empty string, as Python's truth test has it. */
  predicate Truthy(s: Option<string>) {
    s.Some? && s.value != ""
  }

  function PdfLabel(pdf: PdfRead): string {
    match pdf
    case Pages(n) => "Valid PDF (" + NatToString(n) + " pages)"
    case Unreadable => "Invalid PDF"
  }

  /**
   * detect_file_type: "Directory" for a directory, whatever its name; otherwise
   * the MIME lookup runs (and its exception gives the error label), then the
   * lowercased suffix of the last path component picks the label.
   */
  function DetectFileType(fs: FS, path: string, mime: MimeGuess, pdf: PdfRead): (desc: string)
    ensures IsDir(fs, path) ==> desc == "Directory"
    ensures !IsDir(fs, path) && mime.LookupRaised? ==> desc == ErrorPrefix + mime.message
  {
    if IsDir(fs, path) then "Directory"
    else
      var ext := LowerSuffix(BaseName(path));
      match mime
      case LookupRaised(message) => ErrorPrefix + message
      case Guessed(guess) => LabelFor(ext, guess, pdf)
  }

  /** The if/elif dispatch on the lowercased extension `ext`. */
  function LabelFor(ext: string, guess: Option<string>, pdf: PdfRead): string {
    if ext == ".pdf" then PdfLabel(pdf)
    else if FixedLabel(ext).Some? then FixedLabel(ext).value
    else if Truthy(guess) then guess.value
    else "Unknown (" + ext + ")"
  }

  /**
   * Which oracle a label consults: the PDF reader only for ".pdf", the MIME
   * guess only for an extension with no label of its own, and then the guess
   * when it is truthy and "Unknown (<ext>)" otherwise.
   */
  lemma LabelForOracles(ext: string, guess: Option<string>, pdf: PdfRead, guess': Option<string>, pdf': PdfRead)
    ensures ext != ".pdf" ==> LabelFor(ext, guess, pdf) == LabelFor(ext, guess, pdf')
    ensures ext == ".pdf" || FixedLabel(ext).Some? ==> LabelFor(ext, guess, pdf) == LabelFor(ext, guess', pdf)
    ensures ext != ".pdf" && FixedLabel(ext).None? ==>
              LabelFor(ext, guess, pdf) == if Truthy(guess) then guess.value else "Unknown (" + ext + ")"
  {
  }

  /**
   * The label of a regular file depends on its name only through the lowercased
   * suffix: two names whose suffixes agree up to case get the same label.
   */
  lemma {:induction false} LabelIgnoresCase(fs: FS, p: string, q: string, mime: MimeGuess, pdf: PdfRead)
    requires !IsDir(fs, p) && !IsDir(fs, q)
    requires LowerSuffix(BaseName(p)) == LowerSuffix(BaseName(q))
    ensures DetectFileType(fs, p, mime, pdf) == DetectFileType(fs, q, mime, pdf)
  {
  }

  // ---------------------------------------------------------------------------
  // Cleaning the output directory

  const KeepName: string := ".gitkeep"

  /** `q` lies strictly inside the tree rooted at `c`. */
  predicate Below(c: string, q: string) {
    |q| > |c| && q[..|c|] == c && q[|c|] == '/'
  }

  /** The entries `os.listdir(dir)` returns, as full paths. */
  function ListDir(fs: FS, dir: string): set<string> {
    set c | c in fs && IsChild(dir, c)
  }

  /** An entry of `dir` the clean deletes: anything but `.gitkeep`, unless deleting it fails. */
  predicate Deletable(dir: string, failing: set<string>, c: string) {
    IsChild(dir, c) && c != Join(dir, KeepName) && c !in failing
  }

  /** `q` goes when entry `c` is deleted: it is `c`, or inside `c` when `c` is a directory. */
  predicate GoesWith(fs: FS, c: string, q: string)
    requires c in fs
  {
    q == c || (fs[c] == Dir && Below(c, q))
  }

  /** `q` goes with one of the deletable entries `among`. */
  predicate SweptBy(fs: FS, dir: string, failing: set<string>, among: set<string>, q: string) {
    exists c | c in among && c in fs && Deletable(dir, failing, c) :: GoesWith(fs, c, q)
  }

  /** `cur` is `fs` less exactly what the entries `among` of `dir` take with them. */
  ghost predicate CleanedUpTo(fs: FS, dir: string, failing: set<string>, among: set<string>, cur: FS) {
    && (forall q {:trigger q in cur} :: q in cur <==> q in fs && !SweptBy(fs, dir, failing, among, q))
    && (forall q {:trigger cur[q]} :: q in cur ==> cur[q] == fs[q])
  }

  /** The fs after clean_output_dir(dir), when deleting the entries `failing` raises. */
  function Cleaned(fs: FS, dir: string, failing: set<string>): (r: FS)
    ensures CleanedUpTo(fs, dir, failing, ListDir(fs, dir), r)
  {
    map q | q in fs && !SweptBy(fs, dir, failing, ListDir(fs, dir), q) :: fs[q]
  }

  /** `shutil.rmtree(c)`: `c` and everything inside it go. */
  function RemoveTree(fs: FS, c: string): (r: FS)
    ensures forall q :: q in r <==> q in fs && q != c && !Below(c, q)
    ensures forall q :: q in r ==> r[q] == fs[q]
  {
    map q | q in fs && q != c && !Below(c, q) :: fs[q]
  }

  /** Two distinct entries of one directory are not inside each other. */
  lemma SiblingsApart(dir: string, c: string, d: string)
    requires IsChild(dir, c) && IsChild(dir, d) && c != d
    ensures !Below(c, d)
  {
  }

  /** Whatever lies inside an entry of `dir` lies inside `dir`. */
  lemma BelowChild(dir: string, c: string, q: string)
    requires IsChild(dir, c) && (q == c || Below(c, q))
    ensures Below(dir, q)
  {
    if q != c {
      assert q[..|c|][..|dir|] == q[..|dir|];
    }
  }

  lemma SweptByAdd(fs: FS, dir: string, failing: set<string>, done: set<string>, c: string, q: string)
    requires c in fs
    ensures SweptBy(fs, dir, failing, done + {c}, q) <==>
              SweptBy(fs, dir, failing, done, q) || (Deletable(dir, failing, c) && GoesWith(fs, c, q))
  {
    if SweptBy(fs, dir, failing, done + {c}, q) {
      var d :| d in done + {c} && d in fs && Deletable(dir, failing, d) && GoesWith(fs, d, q);
      if d != c {
        assert SweptBy(fs, dir, failing, done, q);
      }
    }
    if SweptBy(fs, dir, failing, done, q) {
      var d :| d in done && d in fs && Deletable(dir, failing, d) && GoesWith(fs, d, q);
      assert d in done + {c};
    }
  }

  /** An entry not handled yet is still there, untouched. */
  lemma EntryStillThere(fs: FS, dir: string, failing: set<string>, done: set<string>, cur: FS, c: string)
    requires CleanedUpTo(fs, dir, failing, done, cur)
    requires done <= ListDir(fs, dir) && c in ListDir(fs, dir) - done
    ensures c in cur && cur[c] == fs[c]
  {
    if SweptBy(fs, dir, failing, done, c) {
      var d :| d in done && d in fs && Deletable(dir, failing, d) && GoesWith(fs, d, c);
      SiblingsApart(dir, d, c);
    }
  }

  /** Deleting entry `c` (when it is deletable) takes exactly what goes with it. */
  lemma CleanStep(fs: FS, dir: string, failing: set<string>, done: set<string>, cur: FS, c: string, next: FS)
    requires CleanedUpTo(fs, dir, failing, done, cur)
    requires c in cur && cur[c] == fs[c]
    requires Deletable(dir, failing, c) ==> next == if fs[c] == File then cur - {c} else RemoveTree(cur, c)
    requires !Deletable(dir, failing, c) ==> next == cur
    ensures CleanedUpTo(fs, dir, failing, done + {c}, next)
  {
    forall q {
      SweptByAdd(fs, dir, failing, done, c, q);
    }
  }

  lemma {:induction false} CleanedUnique(fs: FS, dir: string, failing: set<string>, among: set<string>, a: FS, b: FS)
    requires CleanedUpTo(fs, dir, failing, among, a) && CleanedUpTo(fs, dir, failing, among, b)
    ensures a == b
  {
    assert a.Keys == b.Keys;
  }

  /** `logged` holds exactly the entries among `done` whose deletion raised. */
  ghost predicate LoggedFrom(logged: set<string>, dir: string, failing: set<string>, done: set<string>) {
    forall c {:trigger c in logged} :: c in logged <==> c in done && c != Join(dir, KeepName) && c in failing
  }

  lemma LoggedStep(logged: set<string>, dir: string, failing: set<string>, done: set<string>, c: string, failed: bool)
    requires LoggedFrom(logged, dir, failing, done)
    requires failed <==> c != Join(dir, KeepName) && c in failing
    ensures LoggedFrom(if failed then logged + {c} else logged, dir, failing, done + {c})
  {
  }

  /** One pass of the clean loop: delete entry `c` unless it is `.gitkeep`; report whether deleting it raised. */
  method DeleteEntry(fs: FS, dir: string, failing: set<string>, c: string) returns (fs': FS, failed: bool)
    requires c in fs
    ensures failed <==> c != Join(dir, KeepName) && c in failing
    ensures Deletable(dir, failing, c) ==> fs' == if fs[c] == File then fs - {c} else RemoveTree(fs, c)
    ensures !Deletable(dir, failing, c) && IsChild(dir, c) ==> fs' == fs
  {
    fs', failed := fs, false;
    if c != Join(dir, KeepName) {
      if c in failing {
        failed := true;
      } else if IsFile(fs, c) {
        fs' := fs - {c};
      } else if IsDir(fs, c) {
        fs' := RemoveTree(fs, c);
      }
    }
  }

  /** One pass of the clean loop, the entries `done` having been handled before `c`. */
  method CleanEntry(ghost fs: FS, dir: string, failing: set<string>, ghost done: set<string>, cur: FS, c: string)
    returns (next: FS, failed: bool)
    requires CleanedUpTo(fs, dir, failing, done, cur)
    requires done <= ListDir(fs, dir) && c in ListDir(fs, dir) - done
    ensures CleanedUpTo(fs, dir, failing, done + {c}, next)
    ensures failed <==> c != Join(dir, KeepName) && c in failing
  {
    EntryStillThere(fs, dir, failing, done, cur, c);
    next, failed := DeleteEntry(cur, dir, failing, c);
    CleanStep(fs, dir, failing, done, cur, c, next);
  }

  /**
   * clean_output_dir: delete every entry of `dir` except `.gitkeep`; deleting
   * an entry in `failing` raises, is logged and the loop goes on.  Listing a
   * `dir` that is not a directory raises out of the function.
   */
  method CleanOutputDir(fs: FS, dir: string, failing: set<string>) returns (fs': FS, logged: set<string>, raised: bool)
    ensures raised <==> !IsDir(fs, dir)
    ensures raised ==> fs' == fs && logged == {}
    ensures !raised ==> fs' == Cleaned(fs, dir, failing)
    ensures !raised ==> forall c :: c in logged <==> c in ListDir(fs, dir) && c != Join(dir, KeepName) && c in failing
  {
    fs', logged := fs, {};
    if !IsDir(fs, dir) {
      return fs', logged, true;
    }
    raised := false;
    ghost var all := ListDir(fs, dir);
    var items := ListDir(fs, dir);
    var done: set<string> := {};
    while items != {}
      invariant done <= all && items == all - done
      invariant CleanedUpTo(fs, dir, failing, done, fs')
      invariant LoggedFrom(logged, dir, failing, done)
      decreases |items|
    {
      var c :| c in items;
      var failed;
      fs', failed := CleanEntry(fs, dir, failing, done, fs', c);
      LoggedStep(logged, dir, failing, done, c, failed);
      if failed {
        logged := logged + {c};
      }
      items := items - {c};
      done := done + {c};
    }
    CleanedUnique(fs, dir, failing, ListDir(fs, dir), fs', Cleaned(fs, dir, failing));
  }

  /** After a clean, the only entries left in `dir` are `.gitkeep` and those whose deletion failed. */
  lemma {:induction false} CleanLeavesOnlyKeep(fs: FS, dir: string, failing: set<string>, q: string)
    requires q in Cleaned(fs, dir, failing) && IsChild(dir, q)
    ensures q == Join(dir, KeepName) || q in failing
  {
    if q != Join(dir, KeepName) && q !in failing {
      assert GoesWith(fs, q, q);
    }
  }

  /** A clean touches nothing outside `dir`. */
  lemma {:induction false} CleanStaysInside(fs: FS, dir: string, failing: set<string>, q: string)
    requires q in fs && !Below(dir, q)
    ensures q in Cleaned(fs, dir, failing) && Cleaned(fs, dir, failing)[q] == fs[q]
  {
    if SweptBy(fs, dir, failing, ListDir(fs, dir), q) {
      var c :| c in ListDir(fs, dir) && c in fs && Deletable(dir, failing, c) && GoesWith(fs, c, q);
      BelowChild(dir, c, q);
    }
  }

  /** Cleaning twice is cleaning once. */
  lemma {:induction false} CleanIdempotent(fs: FS, dir: string, failing: set<string>)
    ensures Cleaned(Cleaned(fs, dir, failing), dir, failing) == Cleaned(fs, dir, failing)
  {
    var once := Cleaned(fs, dir, failing);
    forall c | c in ListDir(once, dir)
      ensures !Deletable(dir, failing, c)
    {
      CleanLeavesOnlyKeep(fs, dir, failing, c);
    }
    assert Cleaned(once, dir, failing).Keys == once.Keys;
  }

  // ---------------------------------------------------------------------------
  // Probing one format code

  /** How the probe's Publisher session goes: a step before SaveAs returns raises, or SaveAs writes `writes`. */
  datatype Session = SessionRaised(fault: Convert.Fault) | SessionSaved(writes: FS)

  /** One entry of the `files` list: a file's name and its detected type. */
  datatype FileInfo = FileInfo(name: string, fileType: string)

  /** The dictionary test_format_constant returns. */
  datatype FormatResult = FormatResult(constant: int, files: seq<FileInfo>, error: Option<string>)

  /** What the except clause stores: the COM error's excepinfo when it has one, `str(e)` otherwise. */
  function ErrorText(f: Convert.Fault): string {
    match f.info
    case NoExcepInfo => f.message
    case ExcepInfoNone => "COM Error: None"
    case ExcepInfo(_, repr) => "COM Error: " + repr
  }

  function Names(files: seq<FileInfo>): (r: seq<string>)
    ensures |r| == |files| && forall i :: 0 <= i < |files| ==> r[i] == files[i].name
  {
    if files == [] then [] else Names(files[..|files| - 1]) + [files[|files| - 1].name]
  }

  /** The name of entry `c` of `dir`, as `os.listdir` gives it. */
  function EntryName(dir: string, c: string): string
    requires |c| > |dir|
  {
    c[|dir| + 1..]
  }

  lemma JoinEntryName(dir: string, c: string)
    requires IsChild(dir, c)
    ensures Join(dir, EntryName(dir, c)) == c
  {
    assert c == c[..|dir|] + [c[|dir|]] + c[|dir| + 1..];
  }

  /** Each of `files` names a different entry among `among`, not `.gitkeep`, with its detected type. */
  ghost predicate ListedFrom(files: seq<FileInfo>, fs: FS, dir: string, mime: string -> MimeGuess, pdf: string -> PdfRead,
                             among: set<string>) {
    && (forall i :: 0 <= i < |files| ==>
          var p := Join(dir, files[i].name);
          && p in among && files[i].name != KeepName
          && files[i].fileType == DetectFileType(fs, p, mime(p), pdf(p)))
    && (forall i, j :: 0 <= i < j < |files| ==> files[i].name != files[j].name)
  }

  /** `files` lists the entries of `dir` other than `.gitkeep`, each once, with its detected type. */
  ghost predicate Describes(files: seq<FileInfo>, fs: FS, dir: string, mime: string -> MimeGuess, pdf: string -> PdfRead) {
    && ListedFrom(files, fs, dir, mime, pdf, ListDir(fs, dir))
    && (forall c :: c in ListDir(fs, dir) && c != Join(dir, KeepName) ==> EntryName(dir, c) in Names(files))
  }

  /** Every entry among `done` but `.gitkeep` has its name in `files`. */
  ghost predicate NamesCover(files: seq<FileInfo>, dir: string, done: set<string>) {
    forall c :: c in done && IsChild(dir, c) && c != Join(dir, KeepName) ==> EntryName(dir, c) in Names(files)
  }

  lemma ListedFromSnoc(files: seq<FileInfo>, fs: FS, dir: string, mime: string -> MimeGuess, pdf: string -> PdfRead,
                       done: set<string>, c: string)
    requires ListedFrom(files, fs, dir, mime, pdf, done) && IsChild(dir, c) && c !in done
    requires EntryName(dir, c) != KeepName
    ensures ListedFrom(files + [FileInfo(EntryName(dir, c), DetectFileType(fs, c, mime(c), pdf(c)))],
                       fs, dir, mime, pdf, done + {c})
  {
    JoinEntryName(dir, c);
    var info := FileInfo(EntryName(dir, c), DetectFileType(fs, c, mime(c), pdf(c)));
    assert (files + [info])[..|files|] == files;
  }

  lemma ListedFromGrow(files: seq<FileInfo>, fs: FS, dir: string, mime: string -> MimeGuess, pdf: string -> PdfRead,
                       done: set<string>, c: string)
    requires ListedFrom(files, fs, dir, mime, pdf, done)
    ensures ListedFrom(files, fs, dir, mime, pdf, done + {c})
  {
  }

  lemma NamesCoverSnoc(files: seq<FileInfo>, info: FileInfo, dir: string, done: set<string>, c: string)
    requires NamesCover(files, dir, done) && IsChild(dir, c) && info.name == EntryName(dir, c)
    ensures NamesCover(files + [info], dir, done + {c})
  {
    assert (files + [info])[..|files|] == files;
    assert Names(files + [info]) == Names(files) + [info.name];
  }

  lemma NamesCoverGrow(files: seq<FileInfo>, dir: string, done: set<string>, c: string)
    requires NamesCover(files, dir, done) && c == Join(dir, KeepName)
    ensures NamesCover(files, dir, done + {c})
  {
  }

  /**
   * The loop over `os.listdir(output_dir)` after SaveAs: one entry per name
   * other than `.gitkeep`, with the type detect_file_type gives it.
   */
  method ListCreatedFiles(fs: FS, dir: string, mime: string -> MimeGuess, pdf: string -> PdfRead)
    returns (files: seq<FileInfo>)
    ensures Describes(files, fs, dir, mime, pdf)
  {
    files := [];
    ghost var all := ListDir(fs, dir);
    var items := ListDir(fs, dir);
    ghost var done: set<string> := {};
    while items != {}
      invariant done <= all && items == all - done
      invariant ListedFrom(files, fs, dir, mime, pdf, done) && NamesCover(files, dir, done)
      decreases |items|
    {
      var c :| c in items;
      var name := EntryName(dir, c);
      JoinEntryName(dir, c);
      if name != KeepName {
        var info := FileInfo(name, DetectFileType(fs, c, mime(c), pdf(c)));
        ListedFromSnoc(files, fs, dir, mime, pdf, done, c);
        NamesCoverSnoc(files, info, dir, done, c);
        files := files + [info];
      } else {
        ListedFromGrow(files, fs, dir, mime, pdf, done, c);
        NamesCoverGrow(files, dir, done, c);
      }
      items := items - {c};
      done := done + {c};
    }
  }

  /**
   * What test_format_constant does with format code `constant` on the fs `fs`:
   * it returns `result` and leaves `fs'`.  The output directory is cleaned
   * first; when it is missing, listing it raises with `listdirError`.  A
   * failing Publisher session is recorded as its error text; otherwise the
   * files SaveAs wrote are listed with their detected types.
   */
  ghost predicate Probes(fs: FS, outputDir: string, constant: int, session: Session, failing: set<string>,
                         listdirError: string, mime: string -> MimeGuess, pdf: string -> PdfRead,
                         result: FormatResult, fs': FS)
  {
    && result.constant == constant
    && (result.error.Some? ==> result.files == [])
    && (forall i :: 0 <= i < |result.files| ==> result.files[i].name != KeepName)
    && (!IsDir(fs, outputDir) ==> result.error == Some(listdirError) && fs' == fs)
    && (IsDir(fs, outputDir) && session.SessionRaised? ==>
          result.error == Some(ErrorText(session.fault)) && fs' == Cleaned(fs, outputDir, failing))
    && (IsDir(fs, outputDir) && session.SessionSaved? ==> fs' == Cleaned(fs, outputDir, failing) + session.writes)
    && (IsDir(fs, outputDir) && session.SessionSaved? && !IsDir(fs', outputDir) ==> result.error == Some(listdirError))
    && (result.error.None? <==> IsDir(fs, outputDir) && session.SessionSaved? && IsDir(fs', outputDir))
    && (result.error.None? ==> Describes(result.files, fs', outputDir, mime, pdf))
  }

  /**
   * test_format_constant: clean the output directory, open the document, save
   * it with format code `constant`, then list what appeared.  `listdirError`
   * is `str(e)` of the error listing a missing output directory raises.
   */
  method TestFormatConstant(fs: FS, outputDir: string, constant: int, session: Session, failing: set<string>,
                            listdirError: string, mime: string -> MimeGuess, pdf: string -> PdfRead)
    returns (result: FormatResult, fs': FS)
    ensures Probes(fs, outputDir, constant, session, failing, listdirError, mime, pdf, result, fs')
  {
    result := FormatResult(constant, [], None);
    var logged, raised;
    fs', logged, raised := CleanOutputDir(fs, outputDir, failing);
    if raised {
      result := result.(error := Some(listdirError));
      return;
    }
    match session {
      case SessionRaised(fault) =>
        result := result.(error := Some(ErrorText(fault)));
      case SessionSaved(writes) =>
        fs' := fs' + writes;
        if !IsDir(fs', outputDir) {
          result := result.(error := Some(listdirError));
        } else {
          var files := ListCreatedFiles(fs', outputDir, mime, pdf);
          result := result.(files := files);
        }
    }
  }

  // ---------------------------------------------------------------------------
  // The sweep over a range of format codes and its report

  /** The filter on results: keep those that produced files or did not fail with an excepinfo of None. */
  predicate Interesting(r: FormatResult) {
    r.files != [] || r.error != Some("COM Error: None")
  }

  function Kept(rs: seq<FormatResult>): seq<FormatResult> {
    if rs == [] then []
    else Kept(rs[..|rs| - 1]) + if Interesting(rs[|rs| - 1]) then [rs[|rs| - 1]] else []
  }

  /** One row of the report table: the format code and what it produced. */
  datatype Row = Row(constant: int, output: string)

  function Line(f: FileInfo): string {
    f.name + ": " + f.fileType
  }

  /** `"\n".join(lines)`. */
  function JoinLines(lines: seq<string>): string {
    if lines == [] then ""
    else if |lines| == 1 then lines[0]
    else JoinLines(lines[..|lines| - 1]) + "\n" + lines[|lines| - 1]
  }

  function Lines(files: seq<FileInfo>): (r: seq<string>)
    ensures |r| == |files| && forall i :: 0 <= i < |files| ==> r[i] == Line(files[i])
  {
    if files == [] then [] else Lines(files[..|files| - 1]) + [Line(files[|files| - 1])]
  }

  const NoFiles: string := "No files created"

  /** The table row for one kept result. */
  function RowFor(r: FormatResult): Row {
    var filesText := if r.files != [] then JoinLines(Lines(r.files)) else NoFiles;
    Row(r.constant, if !Truthy(r.error) then filesText else "Error: " + r.error.value)
  }

  function Rows(rs: seq<FormatResult>): (rows: seq<Row>)
    ensures |rows| == |rs| && forall i :: 0 <= i < |rs| ==> rows[i] == RowFor(rs[i])
  {
    if rs == [] then [] else Rows(rs[..|rs| - 1]) + [RowFor(rs[|rs| - 1])]
  }

  /**
   * `probed` holds one result per format code from `start` on, in order, and
   * a result with an error has no files.
   */
  predicate ProbedFrom(probed: seq<FormatResult>, start: int) {
    forall k :: 0 <= k < |probed| ==> probed[k].constant == start + k && (probed[k].error.Some? ==> probed[k].files == [])
  }

  /**
   * `probed` is what test_format_constant returns for the codes from `start`
   * on, one after the other from the fs `fs`: code `start + k` runs on
   * `states[k]`, with its own Publisher session, its own failing deletions and
   * its own PDF readings, and leaves `states[k + 1]`.
   */
  ghost predicate ProbeChain(fs: FS, outputDir: string, start: int, sessionFor: int -> Session, failingFor: int -> set<string>,
                             listdirError: string, mime: string -> MimeGuess, pdfFor: int -> string -> PdfRead,
                             probed: seq<FormatResult>, states: seq<FS>)
  {
    && |states| == |probed| + 1 && states[0] == fs
    && forall k :: 0 <= k < |probed| ==>
         Probes(states[k], outputDir, start + k, sessionFor(start + k), failingFor(start + k), listdirError, mime, pdfFor(start + k),
                probed[k], states[k + 1])
  }

  /** One more code probed, on the fs the previous codes left. */
  lemma ProbeChainSnoc(fs: FS, outputDir: string, start: int, sessionFor: int -> Session, failingFor: int -> set<string>,
                       listdirError: string, mime: string -> MimeGuess, pdfFor: int -> string -> PdfRead,
                       probed: seq<FormatResult>, states: seq<FS>, constant: int, result: FormatResult, fs': FS)
    requires ProbeChain(fs, outputDir, start, sessionFor, failingFor, listdirError, mime, pdfFor, probed, states)
    requires constant == start + |probed|
    requires Probes(states[|probed|], outputDir, constant, sessionFor(constant), failingFor(constant), listdirError, mime, pdfFor(constant),
                    result, fs')
    ensures ProbeChain(fs, outputDir, start, sessionFor, failingFor, listdirError, mime, pdfFor,
                       probed + [result], states + [fs'])
  {
    var probed', states' := probed + [result], states + [fs'];
    forall k | 0 <= k < |probed'|
      ensures Probes(states'[k], outputDir, start + k, sessionFor(start + k), failingFor(start + k), listdirError, mime, pdfFor(start + k),
                     probed'[k], states'[k + 1])
    {
      if k < |probed| {
        assert probed'[k] == probed[k] && states'[k] == states[k] && states'[k + 1] == states[k + 1];
      }
    }
  }

  /** One more code probed: the chain, the codes and the kept results all grow by it. */
  lemma ProbeStep(fs: FS, outputDir: string, start: int, sessionFor: int -> Session, failingFor: int -> set<string>,
                  listdirError: string, mime: string -> MimeGuess, pdfFor: int -> string -> PdfRead,
                  probed: seq<FormatResult>, states: seq<FS>, results: seq<FormatResult>,
                  constant: int, result: FormatResult, fs': FS)
    requires ProbeChain(fs, outputDir, start, sessionFor, failingFor, listdirError, mime, pdfFor, probed, states)
    requires ProbedFrom(probed, start) && results == Kept(probed)
    requires constant == start + |probed|
    requires Probes(states[|probed|], outputDir, constant, sessionFor(constant), failingFor(constant), listdirError,
                    mime, pdfFor(constant), result, fs')
    ensures ProbeChain(fs, outputDir, start, sessionFor, failingFor, listdirError, mime, pdfFor,
                       probed + [result], states + [fs'])
    ensures ProbedFrom(probed + [result], start)
    ensures results + (if Interesting(result) then [result] else []) == Kept(probed + [result])
  {
    ProbeChainSnoc(fs, outputDir, start, sessionFor, failingFor, listdirError, mime, pdfFor, probed, states,
                   constant, result, fs');
    assert (probed + [result])[..|probed|] == probed;
  }

  /** The loop over `range(start, end + 1)`: probe each code and keep the interesting results. */
  method ProbeRange(fs: FS, outputDir: string, start: int, end: int, sessionFor: int -> Session,
                    failingFor: int -> set<string>, listdirError: string, mime: string -> MimeGuess,
                    pdfFor: int -> string -> PdfRead)
    returns (results: seq<FormatResult>, fs': FS, ghost probed: seq<FormatResult>, ghost states: seq<FS>)
    ensures |probed| == if start <= end then end - start + 1 else 0
    ensures ProbeChain(fs, outputDir, start, sessionFor, failingFor, listdirError, mime, pdfFor, probed, states)
    ensures fs' == states[|probed|]
    ensures ProbedFrom(probed, start)
    ensures results == Kept(probed)
  {
    results, probed, fs', states := [], [], fs, [fs];
    var i := start;
    while i <= end
      invariant start <= end ==> start <= i <= end + 1
      invariant |probed| == if start <= end then i - start else 0
      invariant ProbeChain(fs, outputDir, start, sessionFor, failingFor, listdirError, mime, pdfFor, probed, states)
      invariant fs' == states[|probed|]
      invariant ProbedFrom(probed, start)
      invariant results == Kept(probed)
      decreases end - i
    {
      var result, next;
      result, next := TestFormatConstant(fs', outputDir, i, sessionFor(i), failingFor(i), listdirError, mime, pdfFor(i));
      ProbeStep(fs, outputDir, start, sessionFor, failingFor, listdirError, mime, pdfFor, probed, states, results,
                i, result, next);
      results := results + if Interesting(result) then [result] else [];
      probed, states, fs' := probed + [result], states + [next], next;
      i := i + 1;
    }
  }

  /** The loop that builds the table data from the kept results. */
  method RenderRows(results: seq<FormatResult>) returns (rows: seq<Row>)
    ensures rows == Rows(results)
  {
    rows := [];
    for j := 0 to |results|
      invariant rows == Rows(results[..j])
    {
      assert results[..j + 1][..j] == results[..j];
      rows := rows + [RowFor(results[j])];
    }
    assert results[..|results|] == results;
  }

  /** After a clean, every entry left in `dir` is `.gitkeep` or one whose deletion failed. */
  lemma CleanLeavesOnlyKeepAll(fs: FS, dir: string, failing: set<string>)
    ensures forall q :: q in Cleaned(fs, dir, failing) && IsChild(dir, q) ==> q == Join(dir, KeepName) || q in failing
  {
    forall q | q in Cleaned(fs, dir, failing) && IsChild(dir, q)
      ensures q == Join(dir, KeepName) || q in failing
    {
      CleanLeavesOnlyKeep(fs, dir, failing, q);
    }
  }

  /**
   * explore_format_constants: probe every format code from `start` to `end`
   * inclusive, keep the interesting results, render them as rows and clean
   * the output directory a last time.  Code `i` sees the deletions
   * `failingFor(i)` fail and the PDF readings `pdfFor(i)`; the last clean sees
   * `finalFailing` fail.  `probed` is every result, kept or not, and `states`
   * the fs before and after each code.
   */
  method ExploreFormatConstants(fs: FS, outputDir: string, start: int, end: int, sessionFor: int -> Session,
                                failingFor: int -> set<string>, finalFailing: set<string>, listdirError: string,
                                mime: string -> MimeGuess, pdfFor: int -> string -> PdfRead)
    returns (results: seq<FormatResult>, rows: seq<Row>, finalCleanRaised: bool, fs': FS,
             ghost probed: seq<FormatResult>, ghost states: seq<FS>)
    ensures |probed| == if start <= end then end - start + 1 else 0
    ensures ProbeChain(fs, outputDir, start, sessionFor, failingFor, listdirError, mime, pdfFor, probed, states)
    ensures forall i :: 0 <= i < |probed| ==> probed[i].constant == start + i
    ensures forall i :: 0 <= i < |probed| && probed[i].error.Some? ==> probed[i].files == []
    ensures results == Kept(probed)
    ensures rows == Rows(results)
    ensures finalCleanRaised <==> !IsDir(states[|probed|], outputDir)
    ensures finalCleanRaised ==> fs' == states[|probed|]
    ensures !finalCleanRaised ==> fs' == Cleaned(states[|probed|], outputDir, finalFailing)
    ensures !finalCleanRaised ==>
              forall q :: q in fs' && IsChild(outputDir, q) ==> q == Join(outputDir, KeepName) || q in finalFailing
  {
    results, fs', probed, states := ProbeRange(fs, outputDir, start, end, sessionFor, failingFor, listdirError, mime, pdfFor);
    rows := RenderRows(results);
    ghost var before := fs';
    var logged;
    fs', logged, finalCleanRaised := CleanOutputDir(fs', outputDir, finalFailing);
    CleanLeavesOnlyKeepAll(before, outputDir, finalFailing);
  }

  // ---------------------------------------------------------------------------
  // Properties of the filter and of the rows

  /** The filter keeps exactly the interesting results. */
  lemma {:induction false} KeptExactly(rs: seq<FormatResult>, r: FormatResult)
    ensures r in Kept(rs) <==> r in rs && Interesting(r)
  {
    if rs != [] {
      KeptExactly(rs[..|rs| - 1], r);
      assert rs == rs[..|rs| - 1] + [rs[|rs| - 1]];
    }
  }

  /** Results probed in ascending order of format code stay in ascending order once filtered. */
  lemma {:induction false} KeptAscending(rs: seq<FormatResult>, start: int)
    requires forall i :: 0 <= i < |rs| ==> rs[i].constant == start + i
    ensures forall i :: 0 <= i < |Kept(rs)| ==> start <= Kept(rs)[i].constant < start + |rs|
    ensures forall i, j :: 0 <= i < j < |Kept(rs)| ==> Kept(rs)[i].constant < Kept(rs)[j].constant
  {
    if rs != [] {
      KeptAscending(rs[..|rs| - 1], start);
    }
  }

  /** A COM error whose excepinfo is None, with no files, is the one result the filter drops. */
  lemma ExcepInfoNoneDropped(constant: int, f: Convert.Fault)
    requires f.info.ExcepInfoNone?
    ensures !Interesting(FormatResult(constant, [], Some(ErrorText(f))))
  {
  }

  /** The joined lines start with the first line. */
  lemma {:induction false} JoinLinesStartsWithFirst(lines: seq<string>)
    requires lines != []
    ensures |lines[0]| <= |JoinLines(lines)| && JoinLines(lines)[..|lines[0]|] == lines[0]
  {
    if |lines| > 1 {
      JoinLinesStartsWithFirst(lines[..|lines| - 1]);
    }
  }

  /**
   * A row shows the error when there is a non-empty one; otherwise it reads
   * "No files created" exactly when the result has no files.
   */
  lemma RowShows(r: FormatResult)
    ensures Truthy(r.error) ==> RowFor(r).output == "Error: " + r.error.value
    ensures !Truthy(r.error) ==> (RowFor(r).output == NoFiles <==> r.files == [])
  {
    if !Truthy(r.error) && r.files != [] {
      var lines := Lines(r.files);
      JoinLinesStartsWithFirst(lines);
      var first := Line(r.files[0]);
      assert first[|r.files[0].name|] == ':';
      assert JoinLines(lines)[|r.files[0].name|] == ':';
    }
  }
}
