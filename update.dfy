/**
 * Updating installed repositories: resolve each configured repository's
 * target revision, preview which command files changed (with a line diff),
 * ask once for confirmation, write the changed files and record the new
 * revisions in the lock.
 */
module UpdateCmd {
  import opened Common
  import opened JsString
  import opened Dict
  import opened FileTree
  import opened Documents
  import opened Paths
  import opened GitHub

  // ------------------------------------------------------------------ diff

  /** `lines[i] || ''`: a line past the end reads as empty. */
  function LineAt(lines: seq<string>, i: nat): string
  {
    if i < |lines| then lines[i] else ""
  }

  function Max(a: nat, b: nat): nat
  {
    if a < b then b else a
  }

  /** The two texts agree line by line, a missing line counting as an empty one. */
  predicate SameLines(oldLines: seq<string>, newLines: seq<string>, n: nat)
  {
    forall i :: 0 <= i < n ==> LineAt(oldLines, i) == LineAt(newLines, i)
  }

  /** The three lines every diff starts with. */
  function DiffHeader(filename: string): seq<string>
  {
    ["--- " + filename + " (current)", "+++ " + filename + " (new)", ""]
  }

  /** `l.startsWith(' ')`: a context line. */
  predicate IsContext(l: string)
  {
    |l| > 0 && l[0] == ' '
  }

  /** `diff.filter(l => l.startsWith(' ')).length`. */
  function ContextCount(lines: seq<string>): nat
  {
    if |lines| == 0 then 0
    else ContextCount(lines[..|lines| - 1]) + (if IsContext(lines[|lines| - 1]) then 1 else 0)
  }

  /** The diff built so far and whether context lines are still being shown. */
  datatype DiffState = DiffState(lines: seq<string>, hasChanges: bool)

  /** One round of the diff loop, for line `i`. */
  function DiffStep(st: DiffState, oldLines: seq<string>, newLines: seq<string>, i: nat): DiffState
  {
    var oldLine := LineAt(oldLines, i);
    var newLine := LineAt(newLines, i);
    if oldLine != newLine then
      var withOld := if i < |oldLines| then st.lines + ["-" + oldLine] else st.lines;
      var withNew := if i < |newLines| then withOld + ["+" + newLine] else withOld;
      DiffState(withNew, true)
    else if st.hasChanges then
      var withContext := st.lines + [" " + oldLine];
      DiffState(withContext, ContextCount(withContext) < 3)
    else st
  }

  /**
   * One round only appends lines; a differing line always turns change
   * tracking on; an equal line outside a run of changes adds nothing.
   */
  lemma DiffStepGrows(st: DiffState, oldLines: seq<string>, newLines: seq<string>, i: nat)
    ensures var r := DiffStep(st, oldLines, newLines, i);
            && |st.lines| <= |r.lines| && r.lines[..|st.lines|] == st.lines
            && (LineAt(oldLines, i) != LineAt(newLines, i) ==> r.hasChanges)
            && (LineAt(oldLines, i) == LineAt(newLines, i) && !st.hasChanges ==> r == st)
  {
  }

  /** The diff after the first `n` rounds. */
  function DiffAfter(oldLines: seq<string>, newLines: seq<string>, filename: string, n: nat): DiffState
  {
    if n == 0 then DiffState(DiffHeader(filename), false)
    else DiffStep(DiffAfter(oldLines, newLines, filename, n - 1), oldLines, newLines, n - 1)
  }

  /**
   * After `n` rounds the diff still starts with its header, and it has grown
   * past the header exactly when some round saw two different lines.
   */
  lemma {:induction false} DiffAfterShape(oldLines: seq<string>, newLines: seq<string>, filename: string, n: nat)
    ensures var st := DiffAfter(oldLines, newLines, filename, n);
            |st.lines| >= 3 && st.lines[..3] == DiffHeader(filename)
            && (|st.lines| > 3 <==> !SameLines(oldLines, newLines, n))
            && (st.hasChanges ==> !SameLines(oldLines, newLines, n))
  {
    if n > 0 {
      DiffAfterShape(oldLines, newLines, filename, n - 1);
      var prev := DiffAfter(oldLines, newLines, filename, n - 1);
      var st := DiffAfter(oldLines, newLines, filename, n);
      assert st == DiffStep(prev, oldLines, newLines, n - 1);
      assert |prev.lines| <= |st.lines| && st.lines[..|prev.lines|] == prev.lines;
      assert st.lines[..3] == prev.lines[..3];
      if LineAt(oldLines, n - 1) != LineAt(newLines, n - 1) {
        assert n - 1 < |oldLines| || n - 1 < |newLines|;
        assert !SameLines(oldLines, newLines, n);
      } else {
        if SameLines(oldLines, newLines, n - 1) {
          assert SameLines(oldLines, newLines, n);
        }
        if !SameLines(oldLines, newLines, n - 1) {
          var j :| 0 <= j < n - 1 && LineAt(oldLines, j) != LineAt(newLines, j);
          assert !SameLines(oldLines, newLines, n);
        }
      }
    }
  }

  /**
   * Two context lines in a row occur only while fewer than three context
   * lines precede the second: once three have been shown, each later run of
   * equal lines after a change shows at most one.
   */
  predicate ContextRuns(lines: seq<string>)
  {
    forall j :: 1 <= j < |lines| && IsContext(lines[j - 1]) && IsContext(lines[j]) ==> ContextCount(lines[..j]) < 3
  }

  /** The state invariant behind `ContextRuns`: a saturated context run has switched context off. */
  predicate ContextSettled(st: DiffState)
  {
    |st.lines| > 0 && IsContext(st.lines[|st.lines| - 1]) && ContextCount(st.lines) >= 3 ==> !st.hasChanges
  }

  /** Appending a line adds one to the context count exactly when it is a context line. */
  lemma ContextCountAppend(lines: seq<string>, x: string)
    ensures ContextCount(lines + [x]) == ContextCount(lines) + (if IsContext(x) then 1 else 0)
  {
    assert (lines + [x])[..|lines|] == lines;
  }

  /** Appending one line keeps `ContextRuns` unless it makes a fourth-or-later context run of two. */
  lemma ContextRunsAppend(lines: seq<string>, x: string)
    requires ContextRuns(lines)
    requires |lines| > 0 && IsContext(lines[|lines| - 1]) && IsContext(x) ==> ContextCount(lines) < 3
    ensures ContextRuns(lines + [x])
  {
    var ext := lines + [x];
    forall j | 1 <= j < |ext| && IsContext(ext[j - 1]) && IsContext(ext[j])
      ensures ContextCount(ext[..j]) < 3
    {
      if j < |lines| {
        assert ext[..j] == lines[..j];
        assert ext[j - 1] == lines[j - 1] && ext[j] == lines[j];
      } else {
        assert ext[..j] == lines;
      }
    }
  }

  /** One round of the diff loop keeps both `ContextRuns` and `ContextSettled`. */
  lemma DiffStepContext(st: DiffState, oldLines: seq<string>, newLines: seq<string>, i: nat)
    requires ContextRuns(st.lines) && ContextSettled(st)
    ensures ContextRuns(DiffStep(st, oldLines, newLines, i).lines)
    ensures ContextSettled(DiffStep(st, oldLines, newLines, i))
  {
    var oldLine := LineAt(oldLines, i);
    var newLine := LineAt(newLines, i);
    if oldLine != newLine {
      var withOld := if i < |oldLines| then st.lines + ["-" + oldLine] else st.lines;
      assert !IsContext("-" + oldLine) && !IsContext("+" + newLine);
      if i < |oldLines| {
        ContextRunsAppend(st.lines, "-" + oldLine);
      }
      if i < |newLines| {
        ContextRunsAppend(withOld, "+" + newLine);
      }
      assert i < |oldLines| || i < |newLines|;
    } else if st.hasChanges {
      ContextRunsAppend(st.lines, " " + oldLine);
      ContextCountAppend(st.lines, " " + oldLine);
    }
  }

  /** The context rule holds after any number of rounds. */
  lemma {:induction false} DiffContextRule(oldLines: seq<string>, newLines: seq<string>, filename: string, n: nat)
    ensures ContextRuns(DiffAfter(oldLines, newLines, filename, n).lines)
    ensures ContextSettled(DiffAfter(oldLines, newLines, filename, n))
  {
    if n == 0 {
      var h := DiffHeader(filename);
      assert !IsContext(h[0]) && !IsContext(h[1]) && !IsContext(h[2]);
    } else {
      var prev := DiffAfter(oldLines, newLines, filename, n - 1);
      DiffContextRule(oldLines, newLines, filename, n - 1);
      DiffStepContext(prev, oldLines, newLines, n - 1);
      assert DiffAfter(oldLines, newLines, filename, n) == DiffStep(prev, oldLines, newLines, n - 1);
    }
  }

  /**
   * `createSimpleDiff`: the diff lines, or nothing when the diff would be
   * only its header, which is exactly when every line agrees.
   */
  function SimpleDiff(oldContent: string, newContent: string, filename: string): (r: Option<seq<string>>)
    ensures var oldLines := Split(oldContent, '\n');
            var newLines := Split(newContent, '\n');
            r.None? <==> SameLines(oldLines, newLines, Max(|oldLines|, |newLines|))
    ensures r.Some? ==> |r.value| > 3 && r.value[..3] == DiffHeader(filename)
  {
    var oldLines := Split(oldContent, '\n');
    var newLines := Split(newContent, '\n');
    var n := Max(|oldLines|, |newLines|);
    DiffAfterShape(oldLines, newLines, filename, n);
    var st := DiffAfter(oldLines, newLines, filename, n);
    if |st.lines| > 3 then Some(st.lines) else None
  }

  /** `createSimpleDiff`, as the loop it is. */
  method CreateSimpleDiff(oldContent: string, newContent: string, filename: string) returns (r: Option<seq<string>>)
    ensures r == SimpleDiff(oldContent, newContent, filename)
  {
    var oldLines := Split(oldContent, '\n');
    var newLines := Split(newContent, '\n');
    var diff := DiffHeader(filename);
    var hasChanges := false;
    var maxLines := Max(|oldLines|, |newLines|);
    var i := 0;
    while i < maxLines
      invariant 0 <= i <= maxLines
      invariant DiffState(diff, hasChanges) == DiffAfter(oldLines, newLines, filename, i)
    {
      var oldLine := LineAt(oldLines, i);
      var newLine := LineAt(newLines, i);
      if oldLine != newLine {
        hasChanges := true;
        if i < |oldLines| {
          diff := diff + ["-" + oldLine];
        }
        if i < |newLines| {
          diff := diff + ["+" + newLine];
        }
      } else if hasChanges && oldLine == newLine {
        diff := diff + [" " + oldLine];
        if ContextCount(diff) >= 3 {
          hasChanges := false;
        }
      }
      i := i + 1;
    }
    if |diff| > 3 {
      return Some(diff);
    }
    return None;
  }

  /** Identical texts have no diff. */
  lemma NoDiffOfSameText(content: string, filename: string)
    ensures SimpleDiff(content, content, filename) == None
  {
  }

  /** Splitting a text with one more separator at its end adds one empty part. */
  lemma {:induction false} SplitAppendSeparator(s: string, sep: char)
    ensures Split(s + [sep], sep) == Split(s, sep) + [""]
    decreases |s|
  {
    var t := s + [sep];
    if |s| == 0 {
      assert t[1..] == [];
    } else {
      SplitAppendSeparator(s[1..], sep);
      assert t[1..] == s[1..] + [sep];
    }
  }

  /**
   * A text and the same text with one more trailing newline give no diff:
   * the extra empty last line reads like a missing one.
   */
  lemma TrailingNewlineIsNoChange(content: string, filename: string)
    ensures content != content + "\n"
    ensures SimpleDiff(content, content + "\n", filename) == None
  {
    var oldLines := Split(content, '\n');
    SplitAppendSeparator(content, '\n');
    var newLines := Split(content + "\n", '\n');
    assert newLines == oldLines + [""];
    assert SameLines(oldLines, newLines, Max(|oldLines|, |newLines|)) by {
      forall i | 0 <= i < |newLines| ensures LineAt(oldLines, i) == LineAt(newLines, i) {
        if i < |oldLines| {
          assert newLines[i] == oldLines[i];
        }
      }
    }
  }

  // --------------------------------------------------------------- preview

  /** A changed command file: its name, local path, new text, diff, and whether it is new. */
  datatype FileChange = FileChange(name: string, path: Path, content: string, diff: seq<string>, isNew: bool)

  /** A file to look at: the command name and the remote path to fetch. */
  datatype Candidate = Candidate(name: string, fetchPath: string)

  /** The local text: empty when the file does not exist, nothing when it exists but cannot be read. */
  function LocalContent(fs: Node, p: Path): (r: Option<string>)
    ensures !Exists(fs, p) ==> r == Some("")
    ensures Exists(fs, p) ==> r == ReadFile(fs, p)
  {
    if Exists(fs, p) then ReadFile(fs, p) else Some("")
  }

  /**
   * The preview of one file: fetch it, read the local copy, and report a
   * change when the texts differ and the diff is not empty. A failure skips
   * the file.
   */
  function PreviewFile(fs: Node, targetDir: Path, remote: Remote, c: Candidate): (r: Option<FileChange>)
    ensures r.Some? ==> c.fetchPath in remote.files && r.value.content == remote.files[c.fetchPath]
    ensures r.Some? ==> r.value.name == c.name && r.value.path == targetDir + [c.name + Md]
    ensures r.Some? ==> LocalContent(fs, r.value.path).Some? && LocalContent(fs, r.value.path).value != r.value.content
  {
    match FileContent(remote, c.fetchPath)
    case Err(_) => None
    case Ok(newContent) =>
      var localFile := targetDir + [c.name + Md];
      match LocalContent(fs, localFile)
      case None => None
      case Some(oldContent) =>
        if oldContent == newContent then None
        else match SimpleDiff(oldContent, newContent, c.name + Md)
          case None => None
          case Some(diff) => Some(FileChange(c.name, localFile, newContent, diff, oldContent == ""))
  }

  /** The previews of all candidates, in order. */
  function PreviewAll(fs: Node, targetDir: Path, remote: Remote, cs: seq<Candidate>): seq<FileChange>
  {
    if |cs| == 0 then []
    else
      var front := PreviewAll(fs, targetDir, remote, cs[..|cs| - 1]);
      match PreviewFile(fs, targetDir, remote, cs[|cs| - 1])
      case None => front
      case Some(change) => front + [change]
  }

  /** A change reported for candidate `c`: the remote text, the local path, a different local text. */
  predicate ChangeOf(fs: Node, targetDir: Path, remote: Remote, c: Candidate, ch: FileChange)
  {
    && ch.name == c.name
    && ch.path == targetDir + [c.name + Md]
    && c.fetchPath in remote.files
    && ch.content == remote.files[c.fetchPath]
    && LocalContent(fs, ch.path).Some?
    && LocalContent(fs, ch.path).value != ch.content
    && ch.isNew == (LocalContent(fs, ch.path).value == "")
    && SimpleDiff(LocalContent(fs, ch.path).value, ch.content, c.name + Md) == Some(ch.diff)
  }

  /**
   * Every reported change belongs to a candidate; and every candidate that
   * can be fetched and read and whose lines differ is reported.
   */
  lemma {:induction false} PreviewAllSound(fs: Node, targetDir: Path, remote: Remote, cs: seq<Candidate>)
    ensures forall ch :: ch in PreviewAll(fs, targetDir, remote, cs) ==>
              exists c :: c in cs && ChangeOf(fs, targetDir, remote, c, ch)
  {
    if |cs| > 0 {
      var front := cs[..|cs| - 1];
      PreviewAllSound(fs, targetDir, remote, front);
      assert forall c :: c in front ==> c in cs;
      var c := cs[|cs| - 1];
      match PreviewFile(fs, targetDir, remote, c)
      case None =>
      case Some(ch) =>
        assert ChangeOf(fs, targetDir, remote, c, ch);
    }
  }

  lemma {:induction false} PreviewAllComplete(fs: Node, targetDir: Path, remote: Remote, cs: seq<Candidate>, c: Candidate)
    requires c in cs && c.fetchPath in remote.files
    requires LocalContent(fs, targetDir + [c.name + Md]).Some?
    requires var oldLines := Split(LocalContent(fs, targetDir + [c.name + Md]).value, '\n');
             var newLines := Split(remote.files[c.fetchPath], '\n');
             !SameLines(oldLines, newLines, Max(|oldLines|, |newLines|))
    ensures exists ch :: ch in PreviewAll(fs, targetDir, remote, cs) && ch.name == c.name
              && ch.content == remote.files[c.fetchPath] && ch.path == targetDir + [c.name + Md]
  {
    var last := cs[|cs| - 1];
    var front := cs[..|cs| - 1];
    if c == last {
      var ch := PreviewFile(fs, targetDir, remote, c);
      assert ch.Some?;
      assert ch.value in PreviewAll(fs, targetDir, remote, cs);
    } else {
      assert c in front;
      PreviewAllComplete(fs, targetDir, remote, front, c);
      var ch :| ch in PreviewAll(fs, targetDir, remote, front) && ch.name == c.name
                && ch.content == remote.files[c.fetchPath] && ch.path == targetDir + [c.name + Md];
      assert ch in PreviewAll(fs, targetDir, remote, cs);
    }
  }

  /** The preview loop over the candidates. */
  method PreviewCandidates(fs: Node, targetDir: Path, remote: Remote, cs: seq<Candidate>) returns (changes: seq<FileChange>)
    ensures changes == PreviewAll(fs, targetDir, remote, cs)
  {
    changes := [];
    var i := 0;
    while i < |cs|
      invariant 0 <= i <= |cs|
      invariant changes == PreviewAll(fs, targetDir, remote, cs[..i])
    {
      var c := cs[i];
      assert cs[..i + 1][..i] == cs[..i] && cs[..i + 1][i] == c;
      var newContent := FileContent(remote, c.fetchPath);
      if newContent.Ok? {
        var localFile := targetDir + [c.name + Md];
        var oldContent := LocalContent(fs, localFile);
        if oldContent.Some? && oldContent.value != newContent.value {
          var diff := CreateSimpleDiff(oldContent.value, newContent.value, c.name + Md);
          if diff.Some? {
            changes := changes + [FileChange(c.name, localFile, newContent.value, diff.value, oldContent.value == "")];
          }
        }
      }
      i := i + 1;
    }
    assert cs[..i] == cs;
  }

  /** The configured commands as candidates: `commandDef.path`, with ".md" added when missing. */
  function ConfiguredCandidates(only: seq<CommandSpec>): (r: seq<Candidate>)
    ensures |r| == |only|
    ensures forall i :: 0 <= i < |only| ==> r[i] == Candidate(only[i].name, FetchPath(only[i].path))
  {
    if |only| == 0 then []
    else ConfiguredCandidates(only[..|only| - 1]) + [Candidate(only[|only| - 1].name, FetchPath(only[|only| - 1].path))]
  }

  /**
   * `onlyCommands.includes(file.name)`: strict equality, so only a legacy
   * bare name can match; an object item never does.
   */
  predicate Listed(only: seq<OnlyItem>, name: string)
  {
    Legacy(name) in only
  }

  /** `files.filter(file => onlyCommands.includes(file.name))`. */
  function FilterOnly(files: seq<MarkdownFile>, only: seq<OnlyItem>): seq<MarkdownFile>
  {
    if |files| == 0 then []
    else
      var front := FilterOnly(files[..|files| - 1], only);
      var f := files[|files| - 1];
      if Listed(only, f.name) then front + [f] else front
  }

  /** A file survives the filter exactly when a legacy item of the lock names it. */
  lemma {:induction false} FilterOnlyMembers(files: seq<MarkdownFile>, only: seq<OnlyItem>)
    ensures forall f :: f in FilterOnly(files, only) <==> f in files && Listed(only, f.name)
  {
    if |files| > 0 {
      var front := files[..|files| - 1];
      FilterOnlyMembers(front, only);
      assert files == front + [files[|files| - 1]];
    }
  }

  /** The files of a whole-repository entry, limited to the lock's `only` when that is non-empty. */
  function ListedCandidates(files: seq<MarkdownFile>, only: seq<OnlyItem>): (r: seq<Candidate>)
    ensures |only| == 0 ==> |r| == |files|
    ensures |only| == 0 ==> forall i :: 0 <= i < |files| ==> r[i] == Candidate(files[i].name, files[i].path)
    ensures forall c :: c in r ==> exists f :: f in files && c == Candidate(f.name, f.path)
                                      && (|only| > 0 ==> Listed(only, f.name))
    ensures forall f :: f in files && Listed(only, f.name) ==> Candidate(f.name, f.path) in r
  {
    var chosen := if |only| > 0 then FilterOnly(files, only) else files;
    FilterOnlyMembers(files, only);
    AsCandidates(chosen)
  }

  function AsCandidates(files: seq<MarkdownFile>): (r: seq<Candidate>)
    ensures |r| == |files|
    ensures forall i :: 0 <= i < |files| ==> r[i] == Candidate(files[i].name, files[i].path)
  {
    if |files| == 0 then []
    else AsCandidates(files[..|files| - 1]) + [Candidate(files[|files| - 1].name, files[|files| - 1].path)]
  }

  datatype UpdateError =
    | CommandsDirUnavailable(pathError: PathError)
    | UndefinedRepository
    | ListingUnavailable
    | RevisionUnavailable(revisionError: GitHubError)

  /**
   * `previewRepositoryChanges`: ensure the commands directory (which may
   * create it), then preview the configured commands, or else every listed
   * Markdown file of the repository, filtered by the lock's `only`. A
   * key without a second segment leaves `repo` undefined, which `path.join`
   * rejects.
   */
  function Preview(fs: Node, isLocal: bool, cwd: Path, home: Path, user: string, repo: Option<string>,
                   rc: RepositoryConfig, lockInfo: Option<RepositoryLockInfo>, remote: Remote)
    : (r: (Node, Result<seq<FileChange>, UpdateError>))
    ensures r.1.Ok? ==> repo.Some? && EnsureCommandsDir(fs, isLocal, cwd, home).Ok?
    ensures r.1.Ok? && |rc.only| == 0 ==> MarkdownFiles(remote).Some?
  {
    match EnsureCommandsDir(fs, isLocal, cwd, home)
    case Err(e) => (fs, Err(CommandsDirUnavailable(e)))
    case Ok((dir, fs1)) =>
      if repo.None? then (fs1, Err(UndefinedRepository))
      else
        var targetDir := dir + [user, repo.value];
        if |rc.only| > 0 then (fs1, Ok(PreviewAll(fs1, targetDir, remote, ConfiguredCandidates(rc.only))))
        else match MarkdownFiles(remote)
          case None => (fs1, Err(ListingUnavailable))
          case Some(files) =>
            var onlyCommands := if lockInfo.Some? then lockInfo.value.only else [];
            (fs1, Ok(PreviewAll(fs1, targetDir, remote, ListedCandidates(files, onlyCommands))))
  }

  /**
   * For a whole-repository entry with a non-empty lock `only`, every
   * previewed change is a file the lock lists by its bare name.
   */
  lemma PreviewRespectsLockOnly(fs: Node, isLocal: bool, cwd: Path, home: Path, user: string, repo: Option<string>,
                                rc: RepositoryConfig, lockInfo: Option<RepositoryLockInfo>, remote: Remote)
    requires |rc.only| == 0 && lockInfo.Some? && |lockInfo.value.only| > 0
    ensures var (_, r) := Preview(fs, isLocal, cwd, home, user, repo, rc, lockInfo, remote);
            r.Ok? ==> forall ch :: ch in r.value ==> Listed(lockInfo.value.only, ch.name)
  {
    var (fs', r) := Preview(fs, isLocal, cwd, home, user, repo, rc, lockInfo, remote);
    if r.Ok? {
      var (dir, fs1) := EnsureCommandsDir(fs, isLocal, cwd, home).value;
      var targetDir := dir + [user, repo.value];
      var files := MarkdownFiles(remote).value;
      var cs := ListedCandidates(files, lockInfo.value.only);
      PreviewAllSound(fs1, targetDir, remote, cs);
    }
  }

  // -------------------------------------------------------------- checking

  /** A repository to update: its key, the revision to record, and its changed files. */
  datatype RepoUpdate = RepoUpdate(key: string, revision: string, changes: seq<FileChange>)

  /** The repository a request for `user/repo` reaches; an unknown one answers nothing. */
  function RemoteOf(remotes: map<(string, string), Remote>, user: string, repo: Option<string>): Remote
  {
    var name := if repo.Some? then repo.value else "undefined";
    if (user, name) in remotes then remotes[(user, name)] else Remote(map[], None, map[], map[])
  }

  /** `const [user, repo] = repoKey.split('/')`. */
  function KeyUser(key: string): string
  {
    Split(key, '/')[0]
  }

  function KeyRepo(key: string): Option<string>
  {
    var parts := Split(key, '/');
    if |parts| >= 2 then Some(parts[1]) else None
  }

  /** The preview the first pass takes of `key` on the tree `fs`. */
  function PreviewOf(fs: Node, key: string, rc: RepositoryConfig, lock: Lock,
                     remotes: map<(string, string), Remote>, isLocal: bool, cwd: Path, home: Path)
    : (Node, Result<seq<FileChange>, UpdateError>)
  {
    Preview(fs, isLocal, cwd, home, KeyUser(key), KeyRepo(key), rc, Get(lock.repositories, key),
            RemoteOf(remotes, KeyUser(key), KeyRepo(key)))
  }

  /**
   * A repository the first pass must queue: its revision resolves, differs
   * from the locked one (or nothing is locked), and its preview succeeds,
   * whether or not it found any file changes.
   */
  predicate Qualifies(fs: Node, key: string, rc: RepositoryConfig, lock: Lock,
                      remotes: map<(string, string), Remote>, isLocal: bool, cwd: Path, home: Path)
  {
    var rev := ResolveRevisionForUpdate(RemoteOf(remotes, KeyUser(key), KeyRepo(key)), rc);
    && rev.Ok?
    && (Get(lock.repositories, key).None? || Get(lock.repositories, key).value.revision != rev.value)
    && PreviewOf(fs, key, rc, lock, remotes, isLocal, cwd, home).1.Ok?
  }

  /**
   * One round of the first pass: resolve the revision, skip the repository
   * when it matches the locked one, otherwise preview it. Any failure skips
   * the repository.
   */
  function CheckRepository(fs: Node, key: string, rc: RepositoryConfig, lock: Lock,
                           remotes: map<(string, string), Remote>, isLocal: bool, cwd: Path, home: Path)
    : (r: (Node, Option<RepoUpdate>))
    ensures r.1.Some? <==> Qualifies(fs, key, rc, lock, remotes, isLocal, cwd, home)
    ensures r.1.Some? ==> r.1.value.changes == PreviewOf(fs, key, rc, lock, remotes, isLocal, cwd, home).1.value
    ensures r.1.Some? ==> r.1.value.key == key
    ensures r.1.Some? ==> ResolveRevisionForUpdate(RemoteOf(remotes, KeyUser(key), KeyRepo(key)), rc) == Ok(r.1.value.revision)
    ensures r.1.Some? ==> Get(lock.repositories, key).None? || Get(lock.repositories, key).value.revision != r.1.value.revision
  {
    var user := KeyUser(key);
    var repo := KeyRepo(key);
    var remote := RemoteOf(remotes, user, repo);
    match ResolveRevisionForUpdate(remote, rc)
    case Err(_) => (fs, None)
    case Ok(newRevision) =>
      var existing := Get(lock.repositories, key);
      if existing.Some? && existing.value.revision == newRevision then (fs, None)
      else
        var (fs', preview) := Preview(fs, isLocal, cwd, home, user, repo, rc, existing, remote);
        match preview
        case Err(_) => (fs', None)
        case Ok(changes) => (fs', Some(RepoUpdate(key, newRevision, changes)))
  }

  /** The first pass over the configured keys, in order. */
  function CheckAll(fs: Node, keys: seq<string>, config: Config, lock: Lock,
                    remotes: map<(string, string), Remote>, isLocal: bool, cwd: Path, home: Path)
    : (Node, seq<RepoUpdate>)
    requires forall k :: k in keys ==> k in config.repositories.values
  {
    if |keys| == 0 then (fs, [])
    else
      var key := keys[|keys| - 1];
      var (fs1, front) := CheckAll(fs, keys[..|keys| - 1], config, lock, remotes, isLocal, cwd, home);
      var (fs2, u) := CheckRepository(fs1, key, config.repositories.values[key], lock, remotes, isLocal, cwd, home);
      if u.Some? then (fs2, front + [u.value]) else (fs2, front)
  }

  /** One more key extends the first pass by that key's check. */
  lemma CheckAllStep(fs: Node, keys: seq<string>, config: Config, lock: Lock,
                     remotes: map<(string, string), Remote>, isLocal: bool, cwd: Path, home: Path, i: nat)
    requires i < |keys| && forall k :: k in keys ==> k in config.repositories.values
    ensures var prev := CheckAll(fs, keys[..i], config, lock, remotes, isLocal, cwd, home);
            var step := CheckRepository(prev.0, keys[i], config.repositories.values[keys[i]], lock, remotes, isLocal, cwd, home);
            CheckAll(fs, keys[..i + 1], config, lock, remotes, isLocal, cwd, home)
              == (step.0, if step.1.Some? then prev.1 + [step.1.value] else prev.1)
  {
    assert keys[..i + 1][..i] == keys[..i] && keys[..i + 1][i] == keys[i];
  }

  /** No update is for key `k`. */
  predicate Untouched(ups: seq<RepoUpdate>, k: string)
  {
    forall u :: u in ups ==> u.key != k
  }

  predicate DistinctKeys(ups: seq<RepoUpdate>)
  {
    forall i, j :: 0 <= i < j < |ups| ==> ups[i].key != ups[j].key
  }

  /**
   * An update the first pass may pick: its revision is the one resolved for
   * the repository, and it differs from the locked one.
   */
  predicate Picked(u: RepoUpdate, rc: RepositoryConfig, lock: Lock, remotes: map<(string, string), Remote>)
  {
    && ResolveRevisionForUpdate(RemoteOf(remotes, KeyUser(u.key), KeyRepo(u.key)), rc) == Ok(u.revision)
    && (Get(lock.repositories, u.key).Some? ==> Get(lock.repositories, u.key).value.revision != u.revision)
  }

  /** One repository's check picks only an update for that repository that `Picked` allows. */
  lemma CheckRepositoryPicks(fs: Node, key: string, rc: RepositoryConfig, lock: Lock,
                             remotes: map<(string, string), Remote>, isLocal: bool, cwd: Path, home: Path)
    ensures var u := CheckRepository(fs, key, rc, lock, remotes, isLocal, cwd, home).1;
            u.Some? ==> u.value.key == key && Picked(u.value, rc, lock, remotes)
  {
  }

  /** The soundness half of `CheckAllPicks`, by induction on the keys. */
  lemma {:induction false} CheckAllSound(fs: Node, keys: seq<string>, config: Config, lock: Lock,
                                         remotes: map<(string, string), Remote>, isLocal: bool, cwd: Path, home: Path)
    requires forall k :: k in keys ==> k in config.repositories.values
    requires Distinct(keys)
    ensures var ups := CheckAll(fs, keys, config, lock, remotes, isLocal, cwd, home).1;
            DistinctKeys(ups)
            && forall u :: u in ups ==> u.key in keys && Picked(u, config.repositories.values[u.key], lock, remotes)
  {
    if |keys| > 0 {
      var front := keys[..|keys| - 1];
      var key := keys[|keys| - 1];
      assert forall k :: k in front ==> k in keys;
      DistinctFront(keys);
      CheckAllSound(fs, front, config, lock, remotes, isLocal, cwd, home);
      var prev := CheckAll(fs, front, config, lock, remotes, isLocal, cwd, home);
      var rc := config.repositories.values[key];
      var step := CheckRepository(prev.0, key, rc, lock, remotes, isLocal, cwd, home);
      assert CheckAll(fs, keys, config, lock, remotes, isLocal, cwd, home).1
             == if step.1.Some? then prev.1 + [step.1.value] else prev.1;
      if step.1.Some? {
        CheckRepositoryPicks(prev.0, key, rc, lock, remotes, isLocal, cwd, home);
        var ups := prev.1 + [step.1.value];
        forall i, j | 0 <= i < j < |ups| ensures ups[i].key != ups[j].key {
          if j == |prev.1| {
            assert ups[i] in prev.1;
          }
        }
        forall u | u in ups ensures u.key in keys && Picked(u, config.repositories.values[u.key], lock, remotes) {
          if u !in prev.1 {
            assert u == step.1.value;
          }
        }
      }
    }
  }

  /** Each step of the first pass keeps what the steps before it picked. */
  lemma {:induction false} CheckAllKeepsEarlier(fs: Node, keys: seq<string>, config: Config, lock: Lock,
                                                remotes: map<(string, string), Remote>, isLocal: bool, cwd: Path, home: Path,
                                                j: nat, u: RepoUpdate)
    requires j <= |keys| && forall k :: k in keys ==> k in config.repositories.values
    requires u in CheckAll(fs, keys[..j], config, lock, remotes, isLocal, cwd, home).1
    ensures u in CheckAll(fs, keys, config, lock, remotes, isLocal, cwd, home).1
    decreases |keys| - j
  {
    if j == |keys| {
      assert keys[..j] == keys;
    } else {
      CheckAllStep(fs, keys, config, lock, remotes, isLocal, cwd, home, j);
      assert forall k :: k in keys[..j + 1] ==> k in keys;
      CheckAllKeepsEarlier(fs, keys, config, lock, remotes, isLocal, cwd, home, j + 1, u);
    }
  }

  /**
   * Every configured repository that qualifies on the tree the earlier
   * checks left is queued, with its resolved revision and its preview's
   * changes, even when those changes are empty.
   */
  lemma CheckAllQueues(fs: Node, keys: seq<string>, config: Config, lock: Lock,
                       remotes: map<(string, string), Remote>, isLocal: bool, cwd: Path, home: Path, i: nat)
    requires i < |keys| && forall k :: k in keys ==> k in config.repositories.values
    requires Qualifies(CheckAll(fs, keys[..i], config, lock, remotes, isLocal, cwd, home).0, keys[i],
                       config.repositories.values[keys[i]], lock, remotes, isLocal, cwd, home)
    ensures var rc := config.repositories.values[keys[i]];
            var prev := CheckAll(fs, keys[..i], config, lock, remotes, isLocal, cwd, home).0;
            RepoUpdate(keys[i], ResolveRevisionForUpdate(RemoteOf(remotes, KeyUser(keys[i]), KeyRepo(keys[i])), rc).value,
                       PreviewOf(prev, keys[i], rc, lock, remotes, isLocal, cwd, home).1.value)
              in CheckAll(fs, keys, config, lock, remotes, isLocal, cwd, home).1
  {
    var rc := config.repositories.values[keys[i]];
    var prev := CheckAll(fs, keys[..i], config, lock, remotes, isLocal, cwd, home).0;
    var step := CheckRepository(prev, keys[i], rc, lock, remotes, isLocal, cwd, home);
    CheckAllStep(fs, keys, config, lock, remotes, isLocal, cwd, home, i);
    assert step.1.value in CheckAll(fs, keys[..i + 1], config, lock, remotes, isLocal, cwd, home).1;
    CheckAllKeepsEarlier(fs, keys, config, lock, remotes, isLocal, cwd, home, i + 1, step.1.value);
  }

  /**
   * Every repository picked for update is configured, resolved to the
   * revision it records, and that revision differs from the locked one;
   * no repository is picked twice; and every configured repository that
   * qualifies on the tree the earlier checks left is picked.
   */
  lemma CheckAllPicks(fs: Node, keys: seq<string>, config: Config, lock: Lock,
                      remotes: map<(string, string), Remote>, isLocal: bool, cwd: Path, home: Path)
    requires forall k :: k in keys ==> k in config.repositories.values
    requires Distinct(keys)
    ensures var ups := CheckAll(fs, keys, config, lock, remotes, isLocal, cwd, home).1;
            DistinctKeys(ups)
            && forall u :: u in ups ==> u.key in keys && Picked(u, config.repositories.values[u.key], lock, remotes)
    ensures var ups := CheckAll(fs, keys, config, lock, remotes, isLocal, cwd, home).1;
            forall i :: 0 <= i < |keys| &&
                        Qualifies(CheckAll(fs, keys[..i], config, lock, remotes, isLocal, cwd, home).0, keys[i],
                                  config.repositories.values[keys[i]], lock, remotes, isLocal, cwd, home)
                        ==> exists u :: u in ups && u.key == keys[i]
  {
    forall i | 0 <= i < |keys| &&
               Qualifies(CheckAll(fs, keys[..i], config, lock, remotes, isLocal, cwd, home).0, keys[i],
                         config.repositories.values[keys[i]], lock, remotes, isLocal, cwd, home)
      ensures exists u :: u in CheckAll(fs, keys, config, lock, remotes, isLocal, cwd, home).1 && u.key == keys[i]
    {
      CheckAllQueues(fs, keys, config, lock, remotes, isLocal, cwd, home, i);
    }
    CheckAllSound(fs, keys, config, lock, remotes, isLocal, cwd, home);
  }

  /** A repository whose resolved revision is the locked one is never picked. */
  lemma UpToDateIsSkipped(fs: Node, key: string, rc: RepositoryConfig, lock: Lock,
                          remotes: map<(string, string), Remote>, isLocal: bool, cwd: Path, home: Path)
    requires Get(lock.repositories, key).Some?
    requires ResolveRevisionForUpdate(RemoteOf(remotes, KeyUser(key), KeyRepo(key)), rc)
             == Ok(Get(lock.repositories, key).value.revision)
    ensures CheckRepository(fs, key, rc, lock, remotes, isLocal, cwd, home) == (fs, None)
  {
  }

  /** The first-pass loop. */
  method CheckRepositories(fs: Node, config: Config, lock: Lock, remotes: map<(string, string), Remote>,
                           isLocal: bool, cwd: Path, home: Path)
    returns (fs': Node, ups: seq<RepoUpdate>)
    ensures (fs', ups) == CheckAll(fs, config.repositories.keys, config, lock, remotes, isLocal, cwd, home)
  {
    var keys := config.repositories.keys;
    fs' := fs;
    ups := [];
    var i := 0;
    while i < |keys|
      invariant 0 <= i <= |keys|
      invariant (fs', ups) == CheckAll(fs, keys[..i], config, lock, remotes, isLocal, cwd, home)
    {
      var key := keys[i];
      CheckAllStep(fs, keys, config, lock, remotes, isLocal, cwd, home, i);
      var checked := CheckRepository(fs', key, config.repositories.values[key], lock, remotes, isLocal, cwd, home);
      fs' := checked.0;
      if checked.1.Some? {
        ups := ups + [checked.1.value];
      }
      i := i + 1;
    }
    assert keys[..i] == keys;
  }

  // ----------------------------------------------------------------- apply

  /** `path.dirname` on segments. */
  function Dirname(p: Path): Path
  {
    if |p| == 0 then [] else p[..|p| - 1]
  }

  /** One file of `applyChanges`: create its directory, write it; a failure skips it. */
  function ApplyFile(fs: Node, ch: FileChange): (Node, bool)
  {
    if |ch.path| == 0 then (fs, false)
    else match EnsureDir(fs, Dirname(ch.path))
    case None => (fs, false)
    case Some(fs1) =>
      match WriteFile(fs1, ch.path, ch.content)
      case None => (fs1, false)
      case Some(fs2) => (fs2, true)
  }

  /** `applyChanges`: the tree afterwards and the names written, in order. */
  function ApplyAll(fs: Node, changes: seq<FileChange>): (Node, seq<string>)
  {
    if |changes| == 0 then (fs, [])
    else
      var (fs1, names) := ApplyAll(fs, changes[..|changes| - 1]);
      var ch := changes[|changes| - 1];
      var (fs2, ok) := ApplyFile(fs1, ch);
      (fs2, if ok then names + [ch.name] else names)
  }

  /** Whether change `i` is written, on the tree the earlier changes have left. */
  predicate WriteSucceeds(fs: Node, changes: seq<FileChange>, i: int)
    requires 0 <= i < |changes|
  {
    ApplyFile(ApplyAll(fs, changes[..i]).0, changes[i]).1
  }

  /** For each change in turn, whether its write succeeds. */
  function Outcomes(fs: Node, changes: seq<FileChange>): (r: seq<bool>)
    ensures |r| == |changes|
  {
    if |changes| == 0 then []
    else
      var front := changes[..|changes| - 1];
      Outcomes(fs, front) + [ApplyFile(ApplyAll(fs, front).0, changes[|changes| - 1]).1]
  }

  /** `Outcomes` records, for each change, whether its write succeeds. */
  lemma {:induction false} OutcomesAt(fs: Node, changes: seq<FileChange>, i: int)
    requires 0 <= i < |changes|
    ensures Outcomes(fs, changes)[i] == WriteSucceeds(fs, changes, i)
  {
    var front := changes[..|changes| - 1];
    if i < |front| {
      OutcomesAt(fs, front, i);
      assert front[..i] == changes[..i] && front[i] == changes[i];
    }
  }

  /** The positions holding `true`, in increasing order. */
  function Positions(oks: seq<bool>): (r: seq<int>)
    ensures forall k :: 0 <= k < |r| ==> 0 <= r[k] < |oks|
  {
    if |oks| == 0 then []
    else Positions(oks[..|oks| - 1]) + (if oks[|oks| - 1] then [|oks| - 1] else [])
  }

  /** There are no more positions than flags. */
  lemma {:induction false} PositionsBound(oks: seq<bool>)
    ensures |Positions(oks)| <= |oks|
  {
    if |oks| > 0 {
      PositionsBound(oks[..|oks| - 1]);
    }
  }

  /** `Positions` lists, in increasing order, exactly the positions holding `true`. */
  lemma {:induction false} PositionsShape(oks: seq<bool>)
    ensures var idx := Positions(oks);
            && (forall j, k :: 0 <= j < k < |idx| ==> idx[j] < idx[k])
            && (forall i :: 0 <= i < |oks| ==> (i in idx <==> oks[i]))
  {
    if |oks| > 0 {
      PositionsShape(oks[..|oks| - 1]);
    }
  }

  /** The names of the changes whose flag is `true`, in order. */
  function NamesWhere(changes: seq<FileChange>, oks: seq<bool>): seq<string>
    requires |oks| == |changes|
  {
    if |changes| == 0 then []
    else
      var n := |changes| - 1;
      NamesWhere(changes[..n], oks[..n]) + (if oks[n] then [changes[n].name] else [])
  }

  /** The names reported are the names of the changes whose write succeeded. */
  lemma {:induction false} ApplyAllExact(fs: Node, changes: seq<FileChange>)
    ensures ApplyAll(fs, changes).1 == NamesWhere(changes, Outcomes(fs, changes))
  {
    if |changes| > 0 {
      var n := |changes| - 1;
      ApplyAllExact(fs, changes[..n]);
      assert Outcomes(fs, changes)[..n] == Outcomes(fs, changes[..n]);
    }
  }

  /** The names of the changes at the given positions, in that order. */
  function NamesAt(changes: seq<FileChange>, idx: seq<int>): (r: seq<string>)
    requires forall k :: 0 <= k < |idx| ==> 0 <= idx[k] < |changes|
    ensures |r| == |idx| && forall k :: 0 <= k < |idx| ==> r[k] == changes[idx[k]].name
  {
    if |idx| == 0 then [] else NamesAt(changes, idx[..|idx| - 1]) + [changes[idx[|idx| - 1]].name]
  }

  /** Filtering by flag is taking the names at the flagged positions. */
  lemma {:induction false} NamesWherePositions(changes: seq<FileChange>, oks: seq<bool>)
    requires |oks| == |changes|
    ensures NamesWhere(changes, oks) == NamesAt(changes, Positions(oks))
  {
    if |changes| > 0 {
      var n := |changes| - 1;
      NamesWherePositions(changes[..n], oks[..n]);
      var idx := Positions(oks[..n]);
      var front := NamesAt(changes[..n], idx);
      assert front == NamesAt(changes, idx) by {
        var whole := NamesAt(changes, idx);
        assert |front| == |whole|;
        forall k | 0 <= k < |idx|
          ensures front[k] == whole[k]
        {
        }
      }
      if oks[n] {
        assert (idx + [n])[..|idx|] == idx;
      }
    }
  }

  /** With every flag `true`, every change's name is kept. */
  lemma {:induction false} NamesWhereAll(changes: seq<FileChange>, oks: seq<bool>)
    requires |oks| == |changes|
    requires forall i :: 0 <= i < |oks| ==> oks[i]
    ensures NamesWhere(changes, oks) == seq(|changes|, i requires 0 <= i < |changes| => changes[i].name)
  {
    if |changes| > 0 {
      var n := |changes| - 1;
      NamesWhereAll(changes[..n], oks[..n]);
    }
  }

  /**
   * The names reported as updated are exactly the names of the changes whose
   * write succeeded, in the order of the changes; so none is invented, and
   * when every write succeeds every change's name is reported.
   */
  lemma {:induction false} ApplyAllNames(fs: Node, changes: seq<FileChange>)
    ensures var names := ApplyAll(fs, changes).1;
            |names| <= |changes| && forall n :: n in names ==> exists ch :: ch in changes && ch.name == n
    ensures ApplyAll(fs, changes).1 == NamesAt(changes, Positions(Outcomes(fs, changes)))
    ensures (forall i :: 0 <= i < |changes| ==> WriteSucceeds(fs, changes, i)) ==>
              ApplyAll(fs, changes).1 == seq(|changes|, i requires 0 <= i < |changes| => changes[i].name)
  {
    var oks := Outcomes(fs, changes);
    ApplyAllExact(fs, changes);
    NamesWherePositions(changes, oks);
    var names := NamesAt(changes, Positions(oks));
    assert |Positions(oks)| <= |oks| by {
      PositionsShape(oks);
      PositionsBound(oks);
    }
    forall n | n in names
      ensures exists ch :: ch in changes && ch.name == n
    {
      var k :| 0 <= k < |names| && names[k] == n;
      assert changes[Positions(oks)[k]] in changes;
    }
    if forall i :: 0 <= i < |changes| ==> WriteSucceeds(fs, changes, i) {
      forall i | 0 <= i < |changes|
        ensures oks[i]
      {
        OutcomesAt(fs, changes, i);
      }
      NamesWhereAll(changes, oks);
    }
  }

  /** A write reported as done left the new text at the file's path. */
  lemma ApplyFileWrites(fs: Node, ch: FileChange)
    requires ApplyFile(fs, ch).1
    ensures Lookup(ApplyFile(fs, ch).0, ch.path) == Some(File(ch.content))
  {
    var fs1 := EnsureDir(fs, Dirname(ch.path)).value;
    LookupWriteFile(fs1, ch.path, ch.content, ch.path);
  }

  /** The `applyChanges` loop. */
  method ApplyChanges(fs: Node, changes: seq<FileChange>) returns (fs': Node, installed: seq<string>)
    ensures (fs', installed) == ApplyAll(fs, changes)
  {
    fs' := fs;
    installed := [];
    var i := 0;
    while i < |changes|
      invariant 0 <= i <= |changes|
      invariant (fs', installed) == ApplyAll(fs, changes[..i])
    {
      var file := changes[i];
      assert changes[..i + 1][..i] == changes[..i] && changes[..i + 1][i] == file;
      var created := if |file.path| == 0 then None else EnsureDir(fs', Dirname(file.path));
      if created.Some? {
        fs' := created.value;
        var written := WriteFile(fs', file.path, file.content);
        if written.Some? {
          fs' := written.value;
          installed := installed + [file.name];
        }
      }
      i := i + 1;
    }
    assert changes[..i] == changes;
  }

  function LegacyItems(names: seq<string>): (r: seq<OnlyItem>)
    ensures |r| == |names|
    ensures forall i :: 0 <= i < |names| ==> r[i] == Legacy(names[i])
  {
    if |names| == 0 then [] else [Legacy(names[0])] + LegacyItems(names[1..])
  }

  /**
   * The lock entry after an update: the new revision, and the names just
   * written, or when none was written the previous `only` (or none).
   */
  function UpdatedEntry(lock: Lock, u: RepoUpdate, installed: seq<string>): (e: RepositoryLockInfo)
    ensures e.revision == u.revision
    ensures |installed| > 0 ==> |e.only| == |installed|
  {
    var previous := Get(lock.repositories, u.key);
    RepositoryLockInfo(u.revision,
      if |installed| > 0 then LegacyItems(installed)
      else if previous.Some? then previous.value.only else [])
  }

  /** The apply pass: each repository's files, then its lock entry. */
  function ApplyRepos(fs: Node, lock: Lock, ups: seq<RepoUpdate>): (Node, Lock)
  {
    if |ups| == 0 then (fs, lock)
    else
      var (fs1, lock1) := ApplyRepos(fs, lock, ups[..|ups| - 1]);
      var u := ups[|ups| - 1];
      var (fs2, installed) := ApplyAll(fs1, u.changes);
      (fs2, Lock(lock1.lockfileVersion, Put(lock1.repositories, u.key, UpdatedEntry(lock1, u, installed))))
  }

  /** The last update puts its repository's entry, with its revision, and leaves the rest. */
  lemma ApplyReposLast(fs: Node, lock: Lock, ups: seq<RepoUpdate>)
    requires |ups| > 0
    ensures var prev := ApplyRepos(fs, lock, ups[..|ups| - 1]).1;
            var last := ups[|ups| - 1];
            var lock' := ApplyRepos(fs, lock, ups).1;
            && lock'.lockfileVersion == prev.lockfileVersion
            && Get(lock'.repositories, last.key).Some?
            && Get(lock'.repositories, last.key).value.revision == last.revision
            && forall k :: k != last.key ==> Get(lock'.repositories, k) == Get(prev.repositories, k)
  {
  }

  /** Every update's repository has a lock entry with that update's revision. */
  predicate RecordsRevisions(lock: Lock, ups: seq<RepoUpdate>)
  {
    forall u :: u in ups ==>
      Get(lock.repositories, u.key).Some? && Get(lock.repositories, u.key).value.revision == u.revision
  }

  /** Every repository no update names has the same lock entry in both locks. */
  ghost predicate KeepsOthers(lock': Lock, lock: Lock, ups: seq<RepoUpdate>)
  {
    forall k :: Untouched(ups, k) ==> Get(lock'.repositories, k) == Get(lock.repositories, k)
  }

  /** The apply pass keeps the lock's version. */
  lemma {:induction false} ApplyReposVersion(fs: Node, lock: Lock, ups: seq<RepoUpdate>)
    ensures ApplyRepos(fs, lock, ups).1.lockfileVersion == lock.lockfileVersion
  {
    if |ups| > 0 {
      ApplyReposVersion(fs, lock, ups[..|ups| - 1]);
      ApplyReposLast(fs, lock, ups);
    }
  }

  /** The apply pass records each update's revision. */
  lemma {:induction false} ApplyReposRecords(fs: Node, lock: Lock, ups: seq<RepoUpdate>)
    requires DistinctKeys(ups)
    ensures RecordsRevisions(ApplyRepos(fs, lock, ups).1, ups)
  {
    if |ups| > 0 {
      var front := ups[..|ups| - 1];
      var last := ups[|ups| - 1];
      var lock' := ApplyRepos(fs, lock, ups).1;
      assert DistinctKeys(front) by {
        forall i, j | 0 <= i < j < |front| ensures front[i].key != front[j].key {
          assert front[i] == ups[i] && front[j] == ups[j];
        }
      }
      ApplyReposRecords(fs, lock, front);
      ApplyReposLast(fs, lock, ups);
      forall u | u in ups
        ensures Get(lock'.repositories, u.key).Some? && Get(lock'.repositories, u.key).value.revision == u.revision
      {
        var i :| 0 <= i < |ups| && ups[i] == u;
        if i < |ups| - 1 {
          assert front[i] == u;
          assert u.key != last.key;
        }
      }
    }
  }

  /** The apply pass leaves the entries of repositories no update names. */
  lemma {:induction false} ApplyReposKeeps(fs: Node, lock: Lock, ups: seq<RepoUpdate>)
    ensures KeepsOthers(ApplyRepos(fs, lock, ups).1, lock, ups)
  {
    if |ups| > 0 {
      var front := ups[..|ups| - 1];
      var last := ups[|ups| - 1];
      var lock' := ApplyRepos(fs, lock, ups).1;
      ApplyReposKeeps(fs, lock, front);
      ApplyReposLast(fs, lock, ups);
      forall k | Untouched(ups, k) ensures Get(lock'.repositories, k) == Get(lock.repositories, k) {
        assert last in ups;
        assert Untouched(front, k) by {
          forall u | u in front ensures u.key != k {
            var i :| 0 <= i < |front| && front[i] == u;
            assert ups[i] == u;
          }
        }
      }
    }
  }

  /**
   * After the apply pass each updated repository's lock entry records its
   * new revision, every other entry is unchanged, and so is the lock's
   * version.
   */
  lemma ApplyReposLock(fs: Node, lock: Lock, ups: seq<RepoUpdate>)
    requires DistinctKeys(ups)
    ensures var lock' := ApplyRepos(fs, lock, ups).1;
            && lock'.lockfileVersion == lock.lockfileVersion
            && (forall u :: u in ups ==> Get(lock'.repositories, u.key).Some?
                                         && Get(lock'.repositories, u.key).value.revision == u.revision)
            && (forall k :: Untouched(ups, k) ==> Get(lock'.repositories, k) == Get(lock.repositories, k))
  {
    ApplyReposVersion(fs, lock, ups);
    ApplyReposRecords(fs, lock, ups);
    ApplyReposKeeps(fs, lock, ups);
  }

  /** The written names become the entry's `only`, as bare names. */
  lemma UpdatedEntryOnly(lock: Lock, u: RepoUpdate, installed: seq<string>)
    ensures var only := UpdatedEntry(lock, u, installed).only;
            |installed| > 0 ==> forall i :: 0 <= i < |only| ==> only[i].Legacy? && only[i].name in installed
    ensures |installed| > 0 ==> UpdatedEntry(lock, u, installed).only == LegacyItems(installed)
    ensures |installed| == 0 && Get(lock.repositories, u.key).None? ==> UpdatedEntry(lock, u, installed).only == []
    ensures |installed| == 0 && Get(lock.repositories, u.key).Some? ==>
              UpdatedEntry(lock, u, installed).only == Get(lock.repositories, u.key).value.only
  {
  }

  // ---------------------------------------------------------------- command

  /** The reply to the confirmation prompt, lower-cased and trimmed, is "y" or "yes". */
  predicate Confirms(answer: string)
    ensures Confirms(answer) ==> |answer| > 0
  {
    var a := Trim(ToLower(answer));
    a == "y" || a == "yes"
  }

  /**
   * Any casing of "y" or "yes", with any white space around it, confirms:
   * the reply is lower-cased and trimmed before it is compared.
   */
  lemma ConfirmsAnyPadding(pre: string, w: string, post: string)
    requires AllSpace(pre) && AllSpace(post)
    requires ToLower(w) == "y" || ToLower(w) == "yes"
    ensures Confirms(pre + w + post)
  {
    var lw := ToLower(w);
    ToLowerPadded(pre, w, post);
    assert !IsSpace(lw[0]) && !IsSpace(lw[|lw| - 1]);
    TrimStartSpaces(pre, lw + post);
    TrimEndSpaces(lw, post);
    assert Trim(ToLower(pre + w + post)) == lw;
  }

  /** An empty reply and "n" decline. */
  lemma EmptyReplyDeclines()
    ensures !Confirms("") && !Confirms("n")
  {
    var n := ToLower("n");
    assert n[0] == 'n';
    assert n == "n";
  }

  predicate AnyChanges(ups: seq<RepoUpdate>)
  {
    exists u :: u in ups && |u.changes| > 0
  }

  datatype UpdateStatus = NothingConfigured | UpToDate | Cancelled | Applied

  /** The tree afterwards, the lock written (if any), and how the run ended. */
  datatype UpdateOutcome = UpdateOutcome(fs: Node, savedLock: Option<Lock>, status: UpdateStatus)

  /**
   * `updateCommand`: nothing to do without configured repositories; after the
   * first pass, nothing to do when no repository needs updating; the reply
   * is asked for only when some file changed; then apply and save the lock.
   */
  function UpdateSpec(config: Config, lock: Lock, fs: Node, remotes: map<(string, string), Remote>,
                      answer: string, global: bool, cwd: Path, home: Path): UpdateOutcome
  {
    var isLocal := !global;
    if |config.repositories.keys| == 0 then UpdateOutcome(fs, None, NothingConfigured)
    else
      var (fs1, ups) := CheckAll(fs, config.repositories.keys, config, lock, remotes, isLocal, cwd, home);
      if |ups| == 0 then UpdateOutcome(fs1, None, UpToDate)
      else if AnyChanges(ups) && !Confirms(answer) then UpdateOutcome(fs1, None, Cancelled)
      else
        var (fs2, lock') := ApplyRepos(fs1, lock, ups);
        UpdateOutcome(fs2, Some(lock'), Applied)
  }

  /** One more update applied on top of the ones before it. */
  lemma ApplyReposStep(fs: Node, lock: Lock, ups: seq<RepoUpdate>, i: int)
    requires 0 <= i < |ups|
    ensures var prev := ApplyRepos(fs, lock, ups[..i]);
            var step := ApplyAll(prev.0, ups[i].changes);
            ApplyRepos(fs, lock, ups[..i + 1])
              == (step.0, Lock(prev.1.lockfileVersion,
                               Put(prev.1.repositories, ups[i].key, UpdatedEntry(prev.1, ups[i], step.1))))
  {
    assert ups[..i + 1][..i] == ups[..i];
  }

  /** The apply loop over the picked repositories. */
  method ApplyUpdates(fs: Node, lock: Lock, ups: seq<RepoUpdate>) returns (fs': Node, lock': Lock)
    ensures (fs', lock') == ApplyRepos(fs, lock, ups)
  {
    fs' := fs;
    lock' := lock;
    var i := 0;
    while i < |ups|
      invariant 0 <= i <= |ups|
      invariant (fs', lock') == ApplyRepos(fs, lock, ups[..i])
    {
      var u := ups[i];
      ApplyReposStep(fs, lock, ups, i);
      var installed;
      fs', installed := ApplyChanges(fs', u.changes);
      lock' := Lock(lock'.lockfileVersion, Put(lock'.repositories, u.key, UpdatedEntry(lock', u, installed)));
      i := i + 1;
    }
    assert ups[..i] == ups;
  }

  /** `updateCommand`. */
  method UpdateCommand(config: Config, lock: Lock, fs: Node, remotes: map<(string, string), Remote>,
                       answer: string, global: bool, cwd: Path, home: Path)
    returns (out: UpdateOutcome)
    ensures out == UpdateSpec(config, lock, fs, remotes, answer, global, cwd, home)
  {
    var isLocal := !global;
    if |config.repositories.keys| == 0 {
      return UpdateOutcome(fs, None, NothingConfigured);
    }
    var fs1, repositoriesToUpdate := CheckRepositories(fs, config, lock, remotes, isLocal, cwd, home);
    if |repositoriesToUpdate| == 0 {
      return UpdateOutcome(fs1, None, UpToDate);
    }
    if AnyChanges(repositoriesToUpdate) && !Confirms(answer) {
      return UpdateOutcome(fs1, None, Cancelled);
    }
    var fs2, lock' := ApplyUpdates(fs1, lock, repositoriesToUpdate);
    return UpdateOutcome(fs2, Some(lock'), Applied);
  }

  /** The lock is written exactly on the Applied path, and a cancelled run was refused by the reply. */
  lemma UpdateSavesOnlyWhenApplied(config: Config, lock: Lock, fs: Node, remotes: map<(string, string), Remote>,
                                   answer: string, global: bool, cwd: Path, home: Path)
    ensures var out := UpdateSpec(config, lock, fs, remotes, answer, global, cwd, home);
            (out.savedLock.Some? <==> out.status == Applied)
            && (out.status == Cancelled ==> !Confirms(answer))
  {
  }

  /**
   * A written lock is the result of the apply pass over the repositories the
   * first pass picked, after a confirmed (or unneeded) prompt.
   */
  lemma UpdateSavedLock(config: Config, lock: Lock, fs: Node, remotes: map<(string, string), Remote>,
                        answer: string, global: bool, cwd: Path, home: Path)
    requires UpdateSpec(config, lock, fs, remotes, answer, global, cwd, home).savedLock.Some?
    ensures var checked := CheckAll(fs, config.repositories.keys, config, lock, remotes, !global, cwd, home);
            && |checked.1| > 0
            && (AnyChanges(checked.1) ==> Confirms(answer))
            && UpdateSpec(config, lock, fs, remotes, answer, global, cwd, home).savedLock.value
               == ApplyRepos(checked.0, lock, checked.1).1
  {
  }

  /**
   * In a written lock every picked repository records its resolved revision
   * and every other entry is as it was.
   */
  lemma UpdatedLockEntries(config: Config, lock: Lock, fs: Node, remotes: map<(string, string), Remote>,
                           isLocal: bool, cwd: Path, home: Path)
    ensures var checked := CheckAll(fs, config.repositories.keys, config, lock, remotes, isLocal, cwd, home);
            var saved := ApplyRepos(checked.0, lock, checked.1).1;
            && saved.lockfileVersion == lock.lockfileVersion
            && (forall u :: u in checked.1 ==>
                  && u.key in config.repositories.values
                  && Get(saved.repositories, u.key).Some?
                  && Get(saved.repositories, u.key).value.revision == u.revision
                  && ResolveRevisionForUpdate(RemoteOf(remotes, KeyUser(u.key), KeyRepo(u.key)),
                                              config.repositories.values[u.key]) == Ok(u.revision))
            && (forall k :: Untouched(checked.1, k) ==> Get(saved.repositories, k) == Get(lock.repositories, k))
    ensures var keys := config.repositories.keys;
            var checked := CheckAll(fs, keys, config, lock, remotes, isLocal, cwd, home);
            var saved := ApplyRepos(checked.0, lock, checked.1).1;
            forall i :: 0 <= i < |keys| &&
                        Qualifies(CheckAll(fs, keys[..i], config, lock, remotes, isLocal, cwd, home).0, keys[i],
                                  config.repositories.values[keys[i]], lock, remotes, isLocal, cwd, home)
                        ==> Get(saved.repositories, keys[i]).Some?
                            && Ok(Get(saved.repositories, keys[i]).value.revision)
                               == ResolveRevisionForUpdate(RemoteOf(remotes, KeyUser(keys[i]), KeyRepo(keys[i])),
                                                           config.repositories.values[keys[i]])
  {
    var keys := config.repositories.keys;
    forall i | 0 <= i < |keys| &&
               Qualifies(CheckAll(fs, keys[..i], config, lock, remotes, isLocal, cwd, home).0, keys[i],
                         config.repositories.values[keys[i]], lock, remotes, isLocal, cwd, home)
      ensures var checked := CheckAll(fs, keys, config, lock, remotes, isLocal, cwd, home);
              var saved := ApplyRepos(checked.0, lock, checked.1).1;
              Get(saved.repositories, keys[i]).Some?
              && Ok(Get(saved.repositories, keys[i]).value.revision)
                 == ResolveRevisionForUpdate(RemoteOf(remotes, KeyUser(keys[i]), KeyRepo(keys[i])),
                                             config.repositories.values[keys[i]])
    {
      QualifiedIsRecorded(config, lock, fs, remotes, isLocal, cwd, home, i);
    }
    var checked := CheckAll(fs, config.repositories.keys, config, lock, remotes, isLocal, cwd, home);
    CheckAllPicks(fs, config.repositories.keys, config, lock, remotes, isLocal, cwd, home);
    ApplyReposLock(checked.0, lock, checked.1);
  }

  /**
   * A configured repository whose revision changed and whose preview
   * succeeded is recorded in a written lock with its new revision, even when
   * none of its files changed.
   */
  lemma QualifiedIsRecorded(config: Config, lock: Lock, fs: Node, remotes: map<(string, string), Remote>,
                            isLocal: bool, cwd: Path, home: Path, i: nat)
    requires i < |config.repositories.keys|
    requires var keys := config.repositories.keys;
             Qualifies(CheckAll(fs, keys[..i], config, lock, remotes, isLocal, cwd, home).0, keys[i],
                       config.repositories.values[keys[i]], lock, remotes, isLocal, cwd, home)
    ensures var keys := config.repositories.keys;
            var checked := CheckAll(fs, keys, config, lock, remotes, isLocal, cwd, home);
            var saved := ApplyRepos(checked.0, lock, checked.1).1;
            var rev := ResolveRevisionForUpdate(RemoteOf(remotes, KeyUser(keys[i]), KeyRepo(keys[i])),
                                                config.repositories.values[keys[i]]);
            rev.Ok? && Get(saved.repositories, keys[i]).Some? && Get(saved.repositories, keys[i]).value.revision == rev.value
  {
    var keys := config.repositories.keys;
    var checked := CheckAll(fs, keys, config, lock, remotes, isLocal, cwd, home);
    CheckAllQueues(fs, keys, config, lock, remotes, isLocal, cwd, home, i);
    CheckAllPicks(fs, keys, config, lock, remotes, isLocal, cwd, home);
    ApplyReposLock(checked.0, lock, checked.1);
  }

  /** A cancelled run leaves the tree as the first pass left it. */
  lemma CancelWritesNothing(config: Config, lock: Lock, fs: Node, remotes: map<(string, string), Remote>,
                            answer: string, global: bool, cwd: Path, home: Path)
    requires UpdateSpec(config, lock, fs, remotes, answer, global, cwd, home).status == Cancelled
    ensures var checked := CheckAll(fs, config.repositories.keys, config, lock, remotes, !global, cwd, home);
            && UpdateSpec(config, lock, fs, remotes, answer, global, cwd, home) == UpdateOutcome(checked.0, None, Cancelled)
            && AnyChanges(checked.1) && !Confirms(answer)
  {
  }

  /** The reply is consulted only when some repository has changed files. */
  lemma AnswerMattersOnlyWithChanges(config: Config, lock: Lock, fs: Node, remotes: map<(string, string), Remote>,
                                     answer1: string, answer2: string, global: bool, cwd: Path, home: Path)
    requires !AnyChanges(CheckAll(fs, config.repositories.keys, config, lock, remotes, !global, cwd, home).1)
    ensures UpdateSpec(config, lock, fs, remotes, answer1, global, cwd, home)
            == UpdateSpec(config, lock, fs, remotes, answer2, global, cwd, home)
  {
  }

  /** With nothing configured, nothing is touched and no lock is written. */
  lemma EmptyConfigDoesNothing(config: Config, lock: Lock, fs: Node, remotes: map<(string, string), Remote>,
                               answer: string, global: bool, cwd: Path, home: Path)
    requires config.repositories.keys == []
    ensures UpdateSpec(config, lock, fs, remotes, answer, global, cwd, home) == UpdateOutcome(fs, None, NothingConfigured)
  {
  }
}
