/**
 * Adding commands from a GitHub repository: one command (`user/repo/path`)
 * or every Markdown file of a repository (`user/repo`). The configuration and
 * lock updates are recorded as effects in the order they happen.
 */
module AddCmd {
  import opened Common
  import opened JsString
  import opened FileTree
  import opened Documents
  import opened Paths
  import opened GitHub

  datatype AddError =
    | InvalidPath(parseError: GitHubError)
    | CommandsDirUnavailable(pathError: PathError)
    | CannotCreateDir(dir: Path)
    | StatFailed(path: Path)
    | Conflict(name: string, at: Path)
    | Conflicts(found: seq<(string, Path)>)
    | FetchFailed(fetchError: GitHubError)
    | WriteFailed(target: Path)
    | ListingUnavailable
    | NoMarkdownFiles

  /** What an add does besides changing the tree, in order. */
  datatype Effect =
    | Wrote(path: Path)
    | ConfigUpdated(repository: string, alias: Option<string>)
    | LockUpdated(repository: string, name: string, user: string, repo: string, filePath: string)

  /** The tree afterwards, the effects in order, and the error that stopped the run, if any. */
  datatype AddOutcome = AddOutcome(fs: Node, effects: seq<Effect>, error: Option<AddError>)

  // --------------------------------------------------------------- conflict

  /**
   * The conflict check over the listed names of `dir`: a direct entry called
   * `target` that is not a directory, or `target` listed inside a direct
   * subdirectory. An entry `stat` cannot read makes the check fail.
   */
  function ConflictIn(fs: Node, dir: Path, names: seq<string>, target: string): (r: Result<Option<Path>, AddError>)
    ensures r.Err? ==> r.error.StatFailed?
  {
    if |names| == 0 then Ok(None)
    else
      var p := dir + [names[0]];
      if !Stats(fs, p) then Err(StatFailed(p))
      else if IsDirectory(fs, p) then
        if target in ReadDirOrEmpty(fs, p) then Ok(Some(p + [target]))
        else ConflictIn(fs, dir, names[1..], target)
      else if names[0] == target then Ok(Some(p))
      else ConflictIn(fs, dir, names[1..], target)
  }

  /** `checkCommandConflict(name, dir)`: a listing failure of `dir` counts as no entries. */
  function CheckConflict(fs: Node, dir: Path, name: string): (r: Result<Option<Path>, AddError>)
    ensures r.Err? ==> r.error.StatFailed?
  {
    ConflictIn(fs, dir, ReadDirOrEmpty(fs, dir), name + Md)
  }

  /** An entry the conflict check reports: `target` one or two levels below `dir`. */
  predicate ConflictAt(fs: Node, dir: Path, names: seq<string>, target: string, p: Path)
  {
    (|p| == |dir| + 1 && p == dir + [target] && target in names && !IsDirectory(fs, p))
    || (|p| == |dir| + 2 && p == dir + [p[|dir|], target] && p[|dir|] in names
        && IsDirectory(fs, dir + [p[|dir|]]) && target in ReadDirOrEmpty(fs, dir + [p[|dir|]]))
  }

  /**
   * What the check reports is such an entry; when it reports nothing, every
   * listed entry could be read, no non-directory among them is called
   * `target` and no subdirectory lists `target`.
   */
  lemma {:induction false} ConflictInSound(fs: Node, dir: Path, names: seq<string>, target: string)
    ensures ConflictIn(fs, dir, names, target).Ok? && ConflictIn(fs, dir, names, target).value.Some? ==>
              ConflictAt(fs, dir, names, target, ConflictIn(fs, dir, names, target).value.value)
    ensures ConflictIn(fs, dir, names, target) == Ok(None) ==>
              forall i :: 0 <= i < |names| ==>
                Stats(fs, dir + [names[i]])
                && (IsDirectory(fs, dir + [names[i]]) ==> target !in ReadDirOrEmpty(fs, dir + [names[i]]))
                && (!IsDirectory(fs, dir + [names[i]]) ==> names[i] != target)
    ensures ConflictIn(fs, dir, names, target).Err? ==> exists i :: 0 <= i < |names| && !Stats(fs, dir + [names[i]])
  {
    if |names| > 0 {
      ConflictInSound(fs, dir, names[1..], target);
      var r := ConflictIn(fs, dir, names, target);
      var p := dir + [names[0]];
      if r.Ok? && r.value.Some? && r.value.value != p && r.value.value != p + [target] {
        var q := r.value.value;
        if |q| == |dir| + 2 {
          assert q[|dir|] in names[1..];
        } else {
          assert target in names[1..];
        }
      }
      if r.Ok? && r.value.Some? && r.value.value == p + [target] && Stats(fs, p) && IsDirectory(fs, p) {
        assert (p + [target])[|dir|] == names[0];
        assert dir + [names[0], target] == p + [target];
      }
      if r == Ok(None) {
        assert forall i :: 1 <= i < |names| ==> names[i] == names[1..][i - 1];
      }
      if r.Err? && Stats(fs, p) {
        var i :| 0 <= i < |names[1..]| && !Stats(fs, dir + [names[1..][i]]);
        assert names[i + 1] == names[1..][i];
      }
    }
  }

  /** Entry `name` of `dir` is a hit: a directory listing `target`, or a non-directory called `target`. */
  predicate Hit(fs: Node, dir: Path, name: string, target: string)
  {
    if IsDirectory(fs, dir + [name]) then target in ReadDirOrEmpty(fs, dir + [name]) else name == target
  }

  /** Where a hit at entry `name` is reported. */
  function HitPath(fs: Node, dir: Path, name: string, target: string): Path
  {
    if IsDirectory(fs, dir + [name]) then dir + [name, target] else dir + [name]
  }

  /** The first `j` entries could all be read and none is a hit. */
  predicate ClearBefore(fs: Node, dir: Path, names: seq<string>, target: string, j: int)
    requires 0 <= j <= |names|
  {
    forall i :: 0 <= i < j ==> Stats(fs, dir + [names[i]]) && !Hit(fs, dir, names[i], target)
  }

  /**
   * The check stops at the first entry, in listing order, that is a hit or
   * cannot be read: a reported path is the first hit's, and an error names
   * the first entry `stat` fails on.
   */
  lemma {:induction false} ConflictInFirst(fs: Node, dir: Path, names: seq<string>, target: string)
    ensures var r := ConflictIn(fs, dir, names, target);
            r.Ok? && r.value.Some? ==>
              exists j :: 0 <= j < |names| && ClearBefore(fs, dir, names, target, j)
                          && Stats(fs, dir + [names[j]]) && Hit(fs, dir, names[j], target)
                          && r.value.value == HitPath(fs, dir, names[j], target)
    ensures var r := ConflictIn(fs, dir, names, target);
            r.Err? ==>
              exists j :: 0 <= j < |names| && ClearBefore(fs, dir, names, target, j)
                          && !Stats(fs, dir + [names[j]]) && r.error == StatFailed(dir + [names[j]])
  {
    if |names| > 0 {
      var r := ConflictIn(fs, dir, names, target);
      var p := dir + [names[0]];
      assert ClearBefore(fs, dir, names, target, 0);
      assert p + [target] == dir + [names[0], target];
      if Stats(fs, p) && !Hit(fs, dir, names[0], target) {
        var rest := names[1..];
        assert r == ConflictIn(fs, dir, rest, target);
        ConflictInFirst(fs, dir, rest, target);
        if r.Ok? && r.value.Some? {
          var j :| 0 <= j < |rest| && ClearBefore(fs, dir, rest, target, j)
                   && Stats(fs, dir + [rest[j]]) && Hit(fs, dir, rest[j], target)
                   && r.value.value == HitPath(fs, dir, rest[j], target);
          assert names[j + 1] == rest[j];
          assert ClearBefore(fs, dir, names, target, j + 1) by {
            forall i | 1 <= i < j + 1
              ensures Stats(fs, dir + [names[i]]) && !Hit(fs, dir, names[i], target)
            {
              assert names[i] == rest[i - 1];
            }
          }
        }
        if r.Err? {
          var j :| 0 <= j < |rest| && ClearBefore(fs, dir, rest, target, j)
                   && !Stats(fs, dir + [rest[j]]) && r.error == StatFailed(dir + [rest[j]]);
          assert names[j + 1] == rest[j];
          assert ClearBefore(fs, dir, names, target, j + 1) by {
            forall i | 1 <= i < j + 1
              ensures Stats(fs, dir + [names[i]]) && !Hit(fs, dir, names[i], target)
            {
              assert names[i] == rest[i - 1];
            }
          }
        }
      }
    }
  }

  /**
   * `checkCommandConflict`: the direct entries of `dir` in listing order,
   * looking one level into each directory; the first hit is returned.
   */
  method CheckCommandConflict(fs: Node, dir: Path, name: string) returns (r: Result<Option<Path>, AddError>)
    ensures r == CheckConflict(fs, dir, name)
  {
    var target := name + Md;
    var rest := ReadDirOrEmpty(fs, dir);
    while |rest| > 0
      invariant ConflictIn(fs, dir, rest, target) == CheckConflict(fs, dir, name)
    {
      var file := rest[0];
      var filePath := dir + [file];
      if !Stats(fs, filePath) {
        return Err(StatFailed(filePath));
      }
      if IsDirectory(fs, filePath) {
        var subFiles := ReadDirOrEmpty(fs, filePath);
        var found := ListsName(subFiles, target);
        if found {
          return Ok(Some(filePath + [target]));
        }
      } else if file == target {
        return Ok(Some(filePath));
      }
      rest := rest[1..];
    }
    return Ok(None);
  }

  /** The scan of one subdirectory's listing for the target file name. */
  method ListsName(names: seq<string>, target: string) returns (found: bool)
    ensures found <==> target in names
  {
    var k := 0;
    while k < |names|
      invariant 0 <= k <= |names|
      invariant target !in names[..k]
    {
      if names[k] == target {
        return true;
      }
      assert names[..k + 1] == names[..k] + [names[k]];
      k := k + 1;
    }
    assert names[..k] == names;
    return false;
  }

  /** When every entry can be read and none is a hit, the check reports nothing. */
  lemma {:induction false} ClearIsNoConflict(fs: Node, dir: Path, names: seq<string>, target: string)
    requires ClearBefore(fs, dir, names, target, |names|)
    ensures ConflictIn(fs, dir, names, target) == Ok(None)
  {
    if |names| > 0 {
      assert Stats(fs, dir + [names[0]]) && !Hit(fs, dir, names[0], target);
      assert forall i :: 0 <= i < |names[1..]| ==> names[1..][i] == names[i + 1];
      ClearIsNoConflict(fs, dir, names[1..], target);
    }
  }

  /**
   * Whatever is installed three levels down, at `<dir>/<o>/<r>/<name>.md`,
   * the check reports no conflict once the first two levels hold no hit.
   */
  lemma ConflictMissesDepthThree(fs: Node, dir: Path, o: string, r: string, name: string)
    requires ClearBefore(fs, dir, ReadDirOrEmpty(fs, dir), name + Md, |ReadDirOrEmpty(fs, dir)|)
    requires Lookup(fs, dir + [o, r, name + Md]).Some? && Lookup(fs, dir + [o, r, name + Md]).value.File?
    ensures CheckConflict(fs, dir, name) == Ok(None)
  {
    ClearIsNoConflict(fs, dir, ReadDirOrEmpty(fs, dir), name + Md);
  }

  // --------------------------------------------------------- single command

  /** `options.alias || path.basename(commandPath)`: the basename keeps any ".md". */
  function InstallName(commandPath: string, alias: Option<string>): (r: string)
    ensures Given(alias) ==> r == alias.value
    ensures !Given(alias) ==> r == Basename(commandPath)
  {
    if Given(alias) then alias.value else Basename(commandPath)
  }

  /** Without an alias, `user/repo/dir/x.md` installs as `x.md`, i.e. the file `x.md.md`. */
  lemma InstallNameKeepsExtension(dir: string)
    ensures InstallName(dir + "/" + "x.md", None) == "x.md"
  {
    BasenameAfterSlash(dir, "x.md");
  }

  /**
   * The single-command flow: create `<commands>/<user>/<repo>`, check for a
   * conflict (which blocks only without an alias), fetch, write
   * `<name>.md`, then update the configuration and then the lock.
   */
  function SingleAdd(repository: string, user: string, repo: string, commandPath: string, isLocal: bool,
                     alias: Option<string>, fs: Node, remote: Remote, cwd: Path, home: Path): (r: AddOutcome)
    ensures r.error.None? <==> |r.effects| > 0
  {
    var filePath := FetchPath(commandPath);
    var name := InstallName(commandPath, alias);
    match EnsureCommandsDir(fs, isLocal, cwd, home)
    case Err(e) => AddOutcome(fs, [], Some(CommandsDirUnavailable(e)))
    case Ok((dir, fs1)) =>
      var targetDir := dir + [user, repo];
      match EnsureDir(fs1, targetDir)
      case None => AddOutcome(fs1, [], Some(CannotCreateDir(targetDir)))
      case Some(fs2) =>
        match CheckConflict(fs2, dir, name)
        case Err(e) => AddOutcome(fs2, [], Some(e))
        case Ok(conflict) =>
          if conflict.Some? && !Given(alias) then AddOutcome(fs2, [], Some(Conflict(name, conflict.value)))
          else match FileContent(remote, filePath)
            case Err(e) => AddOutcome(fs2, [], Some(FetchFailed(e)))
            case Ok(content) =>
              var target := targetDir + [name + Md];
              match WriteFile(fs2, target, content)
              case None => AddOutcome(fs2, [], Some(WriteFailed(target)))
              case Some(fs3) =>
                AddOutcome(fs3, [Wrote(target), ConfigUpdated(repository, alias), LockUpdated(repository, name, user, repo, filePath)], None)
  }

  // ------------------------------------------------------- whole repository

  /** The conflicts of every listed file, in listing order; a failing check fails them all. */
  function BatchConflicts(fs: Node, dir: Path, files: seq<MarkdownFile>): Result<seq<(string, Path)>, AddError>
  {
    if |files| == 0 then Ok([])
    else
      var f := files[|files| - 1];
      match BatchConflicts(fs, dir, files[..|files| - 1])
      case Err(e) => Err(e)
      case Ok(cs) =>
        match CheckConflict(fs, dir, f.name)
        case Err(e) => Err(e)
        case Ok(None) => Ok(cs)
        case Ok(Some(p)) => Ok(cs + [(f.name, p)])
  }

  /**
   * The gate checks every file: no conflict is reported exactly when every
   * file's check found nothing.
   */
  lemma {:induction false} BatchConflictsEmpty(fs: Node, dir: Path, files: seq<MarkdownFile>)
    ensures BatchConflicts(fs, dir, files) == Ok([]) <==>
              forall i :: 0 <= i < |files| ==> CheckConflict(fs, dir, files[i].name) == Ok(None)
  {
    if |files| > 0 {
      var front := files[..|files| - 1];
      BatchConflictsEmpty(fs, dir, front);
      assert forall i :: 0 <= i < |front| ==> front[i] == files[i];
      if BatchConflicts(fs, dir, files) == Ok([]) {
        assert BatchConflicts(fs, dir, front) == Ok([]);
      }
    }
  }

  /** One file of the batch: fetch and write, then record it in the lock; a failure skips it. */
  function InstallOne(fs: Node, targetDir: Path, remote: Remote, user: string, repo: string, f: MarkdownFile): (Node, seq<Effect>)
  {
    match FileContent(remote, f.path)
    case Err(_) => (fs, [])
    case Ok(content) =>
      var target := targetDir + [f.name + Md];
      match WriteFile(fs, target, content)
      case None => (fs, [])
      case Some(fs') => (fs', [Wrote(target), LockUpdated(user + "/" + repo + "/" + f.path, f.name, user, repo, f.path)])
  }

  /** The batch loop over all files, in order. */
  function InstallAll(fs: Node, targetDir: Path, remote: Remote, user: string, repo: string, files: seq<MarkdownFile>): (Node, seq<Effect>)
  {
    if |files| == 0 then (fs, [])
    else
      var (fs1, e1) := InstallAll(fs, targetDir, remote, user, repo, files[..|files| - 1]);
      var (fs2, e2) := InstallOne(fs1, targetDir, remote, user, repo, files[|files| - 1]);
      (fs2, e1 + e2)
  }

  /**
   * The batch writes only below the target directory, only files named
   * after listed files, and never touches the configuration.
   */
  lemma {:induction false} InstallAllEffects(fs: Node, targetDir: Path, remote: Remote, user: string, repo: string, files: seq<MarkdownFile>)
    ensures var effects := InstallAll(fs, targetDir, remote, user, repo, files).1;
            forall e :: e in effects ==>
              !e.ConfigUpdated?
              && (e.Wrote? ==> exists f :: f in files && e.path == targetDir + [f.name + Md] && f.path in remote.files)
  {
    if |files| > 0 {
      var front := files[..|files| - 1];
      InstallAllEffects(fs, targetDir, remote, user, repo, front);
      assert forall f :: f in front ==> f in files;
    }
  }

  /**
   * Every file of `all` can be written into `targetDir`: it is a listable
   * directory, and each file's target names nothing or a file.
   */
  predicate Writable(fs: Node, targetDir: Path, all: seq<MarkdownFile>)
  {
    && Lookup(fs, targetDir).Some? && Lookup(fs, targetDir).value.Dir?
    && forall f :: f in all ==> var t := Lookup(fs, targetDir + [f.name + Md]); t.None? || t.value.File?
  }

  /** Writing one file of the batch keeps every file of `all` writable. */
  lemma InstallOneWritable(fs: Node, targetDir: Path, remote: Remote, user: string, repo: string,
                           g: MarkdownFile, all: seq<MarkdownFile>)
    requires Writable(fs, targetDir, all)
    ensures Writable(InstallOne(fs, targetDir, remote, user, repo, g).0, targetDir, all)
  {
    var p := targetDir + [g.name + Md];
    if FileContent(remote, g.path).Ok? && WriteFile(fs, p, remote.files[g.path]).Some? {
      var content := remote.files[g.path];
      var fs' := WriteFile(fs, p, content).value;
      assert p[..|p| - 1] == targetDir;
      WriteFileParent(fs, p, content);
      forall f | f in all
        ensures var t := Lookup(fs', targetDir + [f.name + Md]); t.None? || t.value.File?
      {
        var q := targetDir + [f.name + Md];
        LookupWriteFile(fs, p, content, q);
        if q != p {
          assert q[|targetDir|] != p[|targetDir|];
          assert Apart(p, q);
        }
      }
    }
  }

  /** Installing files of `all` keeps every file of `all` writable. */
  lemma {:induction false} InstallAllWritable(fs: Node, targetDir: Path, remote: Remote, user: string, repo: string,
                                              files: seq<MarkdownFile>, all: seq<MarkdownFile>)
    requires Writable(fs, targetDir, all)
    ensures Writable(InstallAll(fs, targetDir, remote, user, repo, files).0, targetDir, all)
  {
    if |files| > 0 {
      var front := files[..|files| - 1];
      InstallAllWritable(fs, targetDir, remote, user, repo, front, all);
      InstallOneWritable(InstallAll(fs, targetDir, remote, user, repo, front).0, targetDir, remote, user, repo,
                         files[|files| - 1], all);
    }
  }

  /**
   * A failed fetch or write skips only its own file: when every target can be
   * written, each listed file the repository can serve is written and locked,
   * whatever happens to the others.
   */
  lemma {:induction false} InstallAllWrites(fs: Node, targetDir: Path, remote: Remote, user: string, repo: string,
                                            files: seq<MarkdownFile>, f: MarkdownFile)
    requires Writable(fs, targetDir, files)
    requires f in files && f.path in remote.files
    ensures var effects := InstallAll(fs, targetDir, remote, user, repo, files).1;
            && Wrote(targetDir + [f.name + Md]) in effects
            && LockUpdated(user + "/" + repo + "/" + f.path, f.name, user, repo, f.path) in effects
  {
    var n := |files| - 1;
    var front := files[..n];
    var (fs1, e1) := InstallAll(fs, targetDir, remote, user, repo, front);
    var e2 := InstallOne(fs1, targetDir, remote, user, repo, files[n]).1;
    assert InstallAll(fs, targetDir, remote, user, repo, files).1 == e1 + e2;
    if f in front {
      assert Writable(fs, targetDir, front);
      InstallAllWrites(fs, targetDir, remote, user, repo, front, f);
    } else {
      assert f == files[n];
      InstallAllWritable(fs, targetDir, remote, user, repo, front, files);
      var p := targetDir + [f.name + Md];
      assert p[..|p| - 1] == targetDir;
      WriteFileSucceeds(fs1, p, remote.files[f.path]);
    }
  }

  /**
   * The whole-repository flow: list the repository's Markdown files (none is
   * an error), create the target directory, check every file for a conflict
   * and stop at any, then install file by file and finally switch the
   * configuration to whole-repository mode.
   */
  function BatchAdd(repository: string, user: string, repo: string, isLocal: bool,
                    fs: Node, remote: Remote, cwd: Path, home: Path): (r: AddOutcome)
    ensures r.error.None? <==> |r.effects| > 0
  {
    match MarkdownFiles(remote)
    case None => AddOutcome(fs, [], Some(ListingUnavailable))
    case Some(files) =>
      if |files| == 0 then AddOutcome(fs, [], Some(NoMarkdownFiles))
      else match EnsureCommandsDir(fs, isLocal, cwd, home)
        case Err(e) => AddOutcome(fs, [], Some(CommandsDirUnavailable(e)))
        case Ok((dir, fs1)) =>
          var targetDir := dir + [user, repo];
          match EnsureDir(fs1, targetDir)
          case None => AddOutcome(fs1, [], Some(CannotCreateDir(targetDir)))
          case Some(fs2) =>
            match BatchConflicts(fs2, dir, files)
            case Err(e) => AddOutcome(fs2, [], Some(e))
            case Ok(cs) =>
              if |cs| > 0 then AddOutcome(fs2, [], Some(Conflicts(cs)))
              else
                var (fs3, effects) := InstallAll(fs2, targetDir, remote, user, repo, files);
                AddOutcome(fs3, effects + [ConfigUpdated(repository, None)], None)
  }

  /** `addCommand(repository, {global, alias})`: the single or the whole-repository flow. */
  function AddSpec(repository: string, global: bool, alias: Option<string>, fs: Node, remote: Remote, cwd: Path, home: Path): (r: AddOutcome)
    ensures r.error.None? <==> |r.effects| > 0
  {
    match ParseRepositoryPath(repository)
    case Err(e) => AddOutcome(fs, [], Some(InvalidPath(e)))
    case Ok(parsed) =>
      match parsed.commandPath
      case Some(cp) => SingleAdd(repository, parsed.user, parsed.repo, cp, !global, alias, fs, remote, cwd, home)
      case None => BatchAdd(repository, parsed.user, parsed.repo, !global, fs, remote, cwd, home)
  }

  /** The per-file loop of the batch. */
  method InstallFiles(fs: Node, targetDir: Path, remote: Remote, user: string, repo: string, files: seq<MarkdownFile>)
    returns (fs': Node, effects: seq<Effect>)
    ensures (fs', effects) == InstallAll(fs, targetDir, remote, user, repo, files)
  {
    fs' := fs;
    effects := [];
    var i := 0;
    while i < |files|
      invariant 0 <= i <= |files|
      invariant (fs', effects) == InstallAll(fs, targetDir, remote, user, repo, files[..i])
    {
      var file := files[i];
      assert files[..i + 1][..i] == files[..i] && files[..i + 1][i] == file;
      ghost var step := InstallOne(fs', targetDir, remote, user, repo, file);
      ghost var before := effects;
      var content := FileContent(remote, file.path);
      if content.Ok? {
        var targetFile := targetDir + [file.name + Md];
        var written := WriteFile(fs', targetFile, content.value);
        if written.Some? {
          fs' := written.value;
          var added := [Wrote(targetFile), LockUpdated(user + "/" + repo + "/" + file.path, file.name, user, repo, file.path)];
          effects := effects + added;
          assert step == (fs', added);
        } else {
          assert step == (fs', []);
        }
      } else {
        assert step == (fs', []);
      }
      assert before + step.1 == effects;
      assert fs' == step.0;
      i := i + 1;
    }
    assert files[..i] == files;
  }

  /** The conflict-gathering loop of the batch. */
  method GatherConflicts(fs: Node, dir: Path, files: seq<MarkdownFile>) returns (r: Result<seq<(string, Path)>, AddError>)
    ensures r == BatchConflicts(fs, dir, files)
  {
    var conflicts := [];
    var i := 0;
    while i < |files|
      invariant 0 <= i <= |files|
      invariant BatchConflicts(fs, dir, files[..i]) == Ok(conflicts)
    {
      var file := files[i];
      assert files[..i + 1][..i] == files[..i] && files[..i + 1][i] == file;
      var conflictPath := CheckCommandConflict(fs, dir, file.name);
      if conflictPath.Err? {
        BatchErrorSpreads(fs, dir, files, i + 1);
        return Err(conflictPath.error);
      }
      if conflictPath.value.Some? {
        conflicts := conflicts + [(file.name, conflictPath.value.value)];
      }
      i := i + 1;
    }
    assert files[..i] == files;
    return Ok(conflicts);
  }

  /** A failing check on a prefix of the files fails the whole gate with the same error. */
  lemma {:induction false} BatchErrorSpreads(fs: Node, dir: Path, files: seq<MarkdownFile>, k: nat)
    requires k <= |files| && BatchConflicts(fs, dir, files[..k]).Err?
    ensures BatchConflicts(fs, dir, files) == BatchConflicts(fs, dir, files[..k])
    decreases |files| - k
  {
    if k < |files| {
      assert files[..k + 1][..k] == files[..k];
      BatchErrorSpreads(fs, dir, files, k + 1);
    } else {
      assert files[..k] == files;
    }
  }

  /**
   * The single-command flow of `addCommand`, statement by statement: it runs
   * the stat loop `CheckCommandConflict` rather than the function `ConflictIn`,
   * and the contract says that this sequence of steps ends where `SingleAdd`
   * says it does.
   */
  method AddSingleCommand(repository: string, user: string, repo: string, commandPath: string, isLocal: bool,
                          alias: Option<string>, fs: Node, remote: Remote, cwd: Path, home: Path)
    returns (out: AddOutcome)
    ensures out == SingleAdd(repository, user, repo, commandPath, isLocal, alias, fs, remote, cwd, home)
  {
    var filePath := FetchPath(commandPath);
    var commandName := InstallName(commandPath, alias);
    var commands := EnsureCommandsDir(fs, isLocal, cwd, home);
    if commands.Err? {
      return AddOutcome(fs, [], Some(CommandsDirUnavailable(commands.error)));
    }
    var (commandsDir, fs1) := commands.value;
    var targetDir := commandsDir + [user, repo];
    var created := EnsureDir(fs1, targetDir);
    if created.None? {
      return AddOutcome(fs1, [], Some(CannotCreateDir(targetDir)));
    }
    var fs2 := created.value;
    var conflictPath := CheckCommandConflict(fs2, commandsDir, commandName);
    if conflictPath.Err? {
      return AddOutcome(fs2, [], Some(conflictPath.error));
    }
    if conflictPath.value.Some? && !Given(alias) {
      return AddOutcome(fs2, [], Some(Conflict(commandName, conflictPath.value.value)));
    }
    var content := FileContent(remote, filePath);
    if content.Err? {
      return AddOutcome(fs2, [], Some(FetchFailed(content.error)));
    }
    var targetFile := targetDir + [commandName + Md];
    var written := WriteFile(fs2, targetFile, content.value);
    if written.None? {
      return AddOutcome(fs2, [], Some(WriteFailed(targetFile)));
    }
    return AddOutcome(written.value,
      [Wrote(targetFile), ConfigUpdated(repository, alias), LockUpdated(repository, commandName, user, repo, filePath)], None);
  }

  /**
   * The whole-repository flow of `addCommand`, statement by statement: it
   * composes the loops `FindMarkdownFiles`, `GatherConflicts` and
   * `InstallFiles`, and the contract says that it ends where `BatchAdd` says.
   */
  method AddAllCommands(repository: string, user: string, repo: string, isLocal: bool,
                        fs: Node, remote: Remote, cwd: Path, home: Path)
    returns (out: AddOutcome)
    ensures out == BatchAdd(repository, user, repo, isLocal, fs, remote, cwd, home)
  {
    var listed := FindMarkdownFiles(remote);
    if listed.Err? {
      return AddOutcome(fs, [], Some(ListingUnavailable));
    }
    var files := listed.value;
    if |files| == 0 {
      return AddOutcome(fs, [], Some(NoMarkdownFiles));
    }
    var commands := EnsureCommandsDir(fs, isLocal, cwd, home);
    if commands.Err? {
      return AddOutcome(fs, [], Some(CommandsDirUnavailable(commands.error)));
    }
    var (commandsDir, fs1) := commands.value;
    var targetDir := commandsDir + [user, repo];
    var created := EnsureDir(fs1, targetDir);
    if created.None? {
      return AddOutcome(fs1, [], Some(CannotCreateDir(targetDir)));
    }
    var fs2 := created.value;
    var conflicts := GatherConflicts(fs2, commandsDir, files);
    if conflicts.Err? {
      return AddOutcome(fs2, [], Some(conflicts.error));
    }
    if |conflicts.value| > 0 {
      return AddOutcome(fs2, [], Some(Conflicts(conflicts.value)));
    }
    var fs3, effects := InstallFiles(fs2, targetDir, remote, user, repo, files);
    return AddOutcome(fs3, effects + [ConfigUpdated(repository, None)], None);
  }

  /** `addCommand`: parses the path and runs one of the two flows above. */
  method AddCommand(repository: string, global: bool, alias: Option<string>, fs: Node, remote: Remote, cwd: Path, home: Path)
    returns (out: AddOutcome)
    ensures out == AddSpec(repository, global, alias, fs, remote, cwd, home)
  {
    var parsed := ParseRepositoryPath(repository);
    if parsed.Err? {
      return AddOutcome(fs, [], Some(InvalidPath(parsed.error)));
    }
    var user, repo, commandPath := parsed.value.user, parsed.value.repo, parsed.value.commandPath;
    if commandPath.Some? {
      out := AddSingleCommand(repository, user, repo, commandPath.value, !global, alias, fs, remote, cwd, home);
    } else {
      out := AddAllCommands(repository, user, repo, !global, fs, remote, cwd, home);
    }
  }

  // ----------------------------------------------------------- properties

  /**
   * A successful single add writes `<commands>/<user>/<repo>/<name>.md` with
   * the fetched text, then updates the configuration, then the lock.
   */
  lemma SingleAddSucceeds(repository: string, user: string, repo: string, commandPath: string, isLocal: bool,
                          alias: Option<string>, fs: Node, remote: Remote, cwd: Path, home: Path)
    requires SingleAdd(repository, user, repo, commandPath, isLocal, alias, fs, remote, cwd, home).error.None?
    ensures var out := SingleAdd(repository, user, repo, commandPath, isLocal, alias, fs, remote, cwd, home);
            var name := InstallName(commandPath, alias);
            var target := CommandsPath(isLocal, cwd, home) + [user, repo, name + Md];
            FetchPath(commandPath) in remote.files
            && out.effects == [Wrote(target), ConfigUpdated(repository, alias),
                               LockUpdated(repository, name, user, repo, FetchPath(commandPath))]
            && Lookup(out.fs, target) == Some(File(remote.files[FetchPath(commandPath)]))
  {
    var out := SingleAdd(repository, user, repo, commandPath, isLocal, alias, fs, remote, cwd, home);
    var filePath := FetchPath(commandPath);
    var name := InstallName(commandPath, alias);
    var commands := EnsureCommandsDir(fs, isLocal, cwd, home);
    assert commands.Ok?;
    var (dir, fs1) := commands.value;
    var targetDir := dir + [user, repo];
    assert EnsureDir(fs1, targetDir).Some?;
    var fs2 := EnsureDir(fs1, targetDir).value;
    var conflict := CheckConflict(fs2, dir, name);
    assert conflict.Ok? && !(conflict.value.Some? && !Given(alias));
    assert FileContent(remote, filePath).Ok?;
    var content := remote.files[filePath];
    var target := targetDir + [name + Md];
    assert WriteFile(fs2, target, content).Some?;
    assert out == AddOutcome(WriteFile(fs2, target, content).value,
      [Wrote(target), ConfigUpdated(repository, alias), LockUpdated(repository, name, user, repo, filePath)], None);
    assert target == CommandsPath(isLocal, cwd, home) + [user, repo, name + Md];
    LookupWriteFile(fs2, target, content, target);
  }

  /** With an alias, a conflict never stops the single add. */
  lemma AliasOverridesConflict(repository: string, user: string, repo: string, commandPath: string, isLocal: bool,
                               alias: Option<string>, fs: Node, remote: Remote, cwd: Path, home: Path)
    requires Given(alias)
    ensures var out := SingleAdd(repository, user, repo, commandPath, isLocal, alias, fs, remote, cwd, home);
            !(out.error.Some? && out.error.value.Conflict?)
  {
  }

  /**
   * Without an alias a conflict stops the single add before any fetch or
   * write, leaving only the created directories, and the reported path is
   * the one the check found.
   */
  lemma ConflictStopsSingleAdd(repository: string, user: string, repo: string, commandPath: string, isLocal: bool,
                               alias: Option<string>, fs: Node, remote: Remote, cwd: Path, home: Path)
    requires var out := SingleAdd(repository, user, repo, commandPath, isLocal, alias, fs, remote, cwd, home);
             out.error.Some? && out.error.value.Conflict?
    ensures var out := SingleAdd(repository, user, repo, commandPath, isLocal, alias, fs, remote, cwd, home);
            !Given(alias) && out.effects == []
            && EnsureCommandsDir(fs, isLocal, cwd, home).Ok?
            && var (dir, fs1) := EnsureCommandsDir(fs, isLocal, cwd, home).value;
               EnsureDir(fs1, dir + [user, repo]) == Some(out.fs)
               && CheckConflict(out.fs, dir, InstallName(commandPath, alias)) == Ok(Some(out.error.value.at))
  {
    var out := SingleAdd(repository, user, repo, commandPath, isLocal, alias, fs, remote, cwd, home);
    var commands := EnsureCommandsDir(fs, isLocal, cwd, home);
    assert commands.Ok?;
    var (dir, fs1) := commands.value;
    assert EnsureDir(fs1, dir + [user, repo]).Some?;
    var fs2 := EnsureDir(fs1, dir + [user, repo]).value;
    var name := InstallName(commandPath, alias);
    var c := CheckConflict(fs2, dir, name);
    assert c.Ok?;
    assert c.value.Some? && !Given(alias);
    assert out == AddOutcome(fs2, [], Some(Conflict(name, c.value.value)));
  }

  /**
   * The whole-repository gate is all-or-nothing: a write happens only when
   * every listed file passed the conflict check, and the configuration is
   * switched to whole-repository mode last, once.
   */
  lemma BatchAddGate(repository: string, user: string, repo: string, isLocal: bool,
                     fs: Node, remote: Remote, cwd: Path, home: Path)
    ensures var out := BatchAdd(repository, user, repo, isLocal, fs, remote, cwd, home);
            out.effects != [] ==>
              MarkdownFiles(remote).Some? && |MarkdownFiles(remote).value| > 0
              && EnsureCommandsDir(fs, isLocal, cwd, home).Ok?
              && var (dir, fs1) := EnsureCommandsDir(fs, isLocal, cwd, home).value;
                 EnsureDir(fs1, dir + [user, repo]).Some?
                 && (forall f :: f in MarkdownFiles(remote).value ==>
                       CheckConflict(EnsureDir(fs1, dir + [user, repo]).value, dir, f.name) == Ok(None))
                 && out.effects[|out.effects| - 1] == ConfigUpdated(repository, None)
                 && (forall i :: 0 <= i < |out.effects| - 1 ==> !out.effects[i].ConfigUpdated?)
  {
    var out := BatchAdd(repository, user, repo, isLocal, fs, remote, cwd, home);
    if out.effects != [] {
      assert MarkdownFiles(remote).Some?;
      var files := MarkdownFiles(remote).value;
      assert |files| > 0;
      var commands := EnsureCommandsDir(fs, isLocal, cwd, home);
      assert commands.Ok?;
      var (dir, fs1) := commands.value;
      var targetDir := dir + [user, repo];
      assert EnsureDir(fs1, targetDir).Some?;
      var fs2 := EnsureDir(fs1, targetDir).value;
      assert BatchConflicts(fs2, dir, files) == Ok([]);
      BatchConflictsEmpty(fs2, dir, files);
      InstallAllEffects(fs2, targetDir, remote, user, repo, files);
      var effects := InstallAll(fs2, targetDir, remote, user, repo, files).1;
      assert out.effects == effects + [ConfigUpdated(repository, None)];
      forall i | 0 <= i < |out.effects| - 1 ensures !out.effects[i].ConfigUpdated? {
        assert out.effects[i] == effects[i] && effects[i] in effects;
      }
      forall f | f in files ensures CheckConflict(fs2, dir, f.name) == Ok(None) {
        var i :| 0 <= i < |files| && files[i] == f;
      }
    }
  }

  /** An empty repository is an error, and nothing is created. */
  lemma EmptyRepositoryIsAnError(repository: string, user: string, repo: string, isLocal: bool,
                                 fs: Node, remote: Remote, cwd: Path, home: Path)
    requires MarkdownFiles(remote) == Some([])
    ensures BatchAdd(repository, user, repo, isLocal, fs, remote, cwd, home) == AddOutcome(fs, [], Some(NoMarkdownFiles))
  {
  }
}
