/**
 * Listing the installed commands: the read-only walk owner → repository →
 * `*.md` file under a commands directory, and the choice of which scopes to
 * list.
 */
module List {
  import opened JsString
  import opened FileTree
  import opened Paths

  /** One listed command. */
  datatype ListedCommand = ListedCommand(name: string, repository: string, displayName: string)

  /** "/user:" for the global directory, "/project:" for a local one. */
  function Prefix(isGlobal: bool): string
  {
    if isGlobal then "/user:" else "/project:"
  }

  /** The entry for file `file` of repository directory `owner/repo`. */
  function Listed(owner: string, repo: string, file: string, isGlobal: bool): ListedCommand
  {
    var name := ReplaceFirst(file, Md, "");
    ListedCommand(name, owner + "/" + repo, Prefix(isGlobal) + name)
  }

  /** The entries of one repository directory's files. */
  function FileCommands(owner: string, repo: string, files: seq<string>, isGlobal: bool): seq<ListedCommand>
  {
    if |files| == 0 then []
    else
      var f := files[|files| - 1];
      FileCommands(owner, repo, files[..|files| - 1], isGlobal)
      + (if EndsWith(f, Md) then [Listed(owner, repo, f, isGlobal)] else [])
  }

  /** The entries under `root/owner/repo`: none unless it is a directory that can be listed. */
  function RepoCommands(fs: Node, root: Path, owner: string, repo: string, isGlobal: bool): seq<ListedCommand>
  {
    if !IsDirectory(fs, root + [owner, repo]) then []
    else match ReadDir(fs, root + [owner, repo])
      case None => []
      case Some(files) => FileCommands(owner, repo, files, isGlobal)
  }

  function ReposCommands(fs: Node, root: Path, owner: string, repos: seq<string>, isGlobal: bool): seq<ListedCommand>
  {
    if |repos| == 0 then []
    else ReposCommands(fs, root, owner, repos[..|repos| - 1], isGlobal)
         + RepoCommands(fs, root, owner, repos[|repos| - 1], isGlobal)
  }

  /** The entries under `root/owner`: none unless it is a directory that can be listed. */
  function OwnerCommands(fs: Node, root: Path, owner: string, isGlobal: bool): seq<ListedCommand>
  {
    if !IsDirectory(fs, root + [owner]) then []
    else match ReadDir(fs, root + [owner])
      case None => []
      case Some(repos) => ReposCommands(fs, root, owner, repos, isGlobal)
  }

  function OwnersCommands(fs: Node, root: Path, owners: seq<string>, isGlobal: bool): seq<ListedCommand>
  {
    if |owners| == 0 then []
    else OwnersCommands(fs, root, owners[..|owners| - 1], isGlobal)
         + OwnerCommands(fs, root, owners[|owners| - 1], isGlobal)
  }

  /** Everything listed under `root`: nothing when it is missing or cannot be listed. */
  function ListedCommands(fs: Node, root: Path, isGlobal: bool): seq<ListedCommand>
  {
    if !Exists(fs, root) then []
    else match ReadDir(fs, root)
      case None => []
      case Some(owners) => OwnersCommands(fs, root, owners, isGlobal)
  }

  lemma FileCommandsStep(owner: string, repo: string, files: seq<string>, k: nat, isGlobal: bool)
    requires k < |files|
    ensures FileCommands(owner, repo, files[..k + 1], isGlobal)
            == FileCommands(owner, repo, files[..k], isGlobal)
               + (if EndsWith(files[k], Md) then [Listed(owner, repo, files[k], isGlobal)] else [])
  {
    assert files[..k + 1][..k] == files[..k];
  }

  lemma ReposCommandsStep(fs: Node, root: Path, owner: string, repos: seq<string>, j: nat, isGlobal: bool)
    requires j < |repos|
    ensures ReposCommands(fs, root, owner, repos[..j + 1], isGlobal)
            == ReposCommands(fs, root, owner, repos[..j], isGlobal) + RepoCommands(fs, root, owner, repos[j], isGlobal)
  {
    assert repos[..j + 1][..j] == repos[..j];
  }

  lemma OwnersCommandsStep(fs: Node, root: Path, owners: seq<string>, i: nat, isGlobal: bool)
    requires i < |owners|
    ensures OwnersCommands(fs, root, owners[..i + 1], isGlobal)
            == OwnersCommands(fs, root, owners[..i], isGlobal) + OwnerCommands(fs, root, owners[i], isGlobal)
  {
    assert owners[..i + 1][..i] == owners[..i];
  }

  /**
   * `listCommandsInDirectory`: owners, then repositories, then files, in
   * listing order; an owner or repository that is not a listable directory
   * is skipped, and so is every file not ending in ".md". The three nested
   * loops of the source are the loops of this method and the two below.
   */
  method ListCommandsInDirectory(fs: Node, root: Path, isGlobal: bool) returns (commands: seq<ListedCommand>)
    ensures commands == ListedCommands(fs, root, isGlobal)
    ensures !Exists(fs, root) ==> commands == []
  {
    commands := [];
    if !Exists(fs, root) {
      return;
    }
    var entries := ReadDir(fs, root);
    if entries.None? {
      return;
    }
    var owners := entries.value;
    var i := 0;
    while i < |owners|
      invariant 0 <= i <= |owners|
      invariant commands == OwnersCommands(fs, root, owners[..i], isGlobal)
    {
      OwnersCommandsStep(fs, root, owners, i, isGlobal);
      var found := ListOwnerDirectory(fs, root, owners[i], isGlobal);
      commands := commands + found;
      i := i + 1;
    }
    assert owners[..i] == owners;
  }

  /** The repositories loop for one owner directory. */
  method ListOwnerDirectory(fs: Node, root: Path, owner: string, isGlobal: bool) returns (commands: seq<ListedCommand>)
    ensures commands == OwnerCommands(fs, root, owner, isGlobal)
  {
    commands := [];
    var userPath := root + [owner];
    if !IsDirectory(fs, userPath) {
      return;
    }
    var entries := ReadDir(fs, userPath);
    if entries.None? {
      return;
    }
    var repos := entries.value;
    var j := 0;
    while j < |repos|
      invariant 0 <= j <= |repos|
      invariant commands == ReposCommands(fs, root, owner, repos[..j], isGlobal)
    {
      ReposCommandsStep(fs, root, owner, repos, j, isGlobal);
      var found := ListRepoDirectory(fs, root, owner, repos[j], isGlobal);
      commands := commands + found;
      j := j + 1;
    }
    assert repos[..j] == repos;
  }

  /** The files loop for one repository directory. */
  method ListRepoDirectory(fs: Node, root: Path, owner: string, repo: string, isGlobal: bool) returns (commands: seq<ListedCommand>)
    ensures commands == RepoCommands(fs, root, owner, repo, isGlobal)
  {
    commands := [];
    var repoPath := root + [owner, repo];
    if !IsDirectory(fs, repoPath) {
      return;
    }
    var entries := ReadDir(fs, repoPath);
    if entries.None? {
      return;
    }
    var files := entries.value;
    var k := 0;
    while k < |files|
      invariant 0 <= k <= |files|
      invariant commands == FileCommands(owner, repo, files[..k], isGlobal)
    {
      var file := files[k];
      FileCommandsStep(owner, repo, files, k, isGlobal);
      if EndsWith(file, Md) {
        var commandName := ReplaceFirst(file, Md, "");
        commands := commands + [ListedCommand(commandName, owner + "/" + repo, Prefix(isGlobal) + commandName)];
      }
      k := k + 1;
    }
    assert files[..k] == files;
  }

  /**
   * A command file installed at `root/owner/repo/file`: each of the three
   * directories can be listed and lists the next name, and the file name
   * ends in ".md".
   */
  predicate InstalledAt(fs: Node, root: Path, owner: string, repo: string, file: string)
  {
    ReadDir(fs, root).Some? && owner in ReadDir(fs, root).value
    && ReadDir(fs, root + [owner]).Some? && repo in ReadDir(fs, root + [owner]).value
    && ReadDir(fs, root + [owner, repo]).Some? && file in ReadDir(fs, root + [owner, repo]).value
    && EndsWith(file, Md)
  }

  lemma {:induction false} InFileCommands(owner: string, repo: string, files: seq<string>, isGlobal: bool, c: ListedCommand)
    ensures c in FileCommands(owner, repo, files, isGlobal) <==>
              exists f :: f in files && EndsWith(f, Md) && c == Listed(owner, repo, f, isGlobal)
  {
    if |files| > 0 {
      var front := files[..|files| - 1];
      InFileCommands(owner, repo, front, isGlobal, c);
      assert files == front + [files[|files| - 1]];
    }
  }

  lemma {:induction false} InReposCommands(fs: Node, root: Path, owner: string, repos: seq<string>, isGlobal: bool, c: ListedCommand)
    ensures c in ReposCommands(fs, root, owner, repos, isGlobal) <==>
              exists r :: r in repos && c in RepoCommands(fs, root, owner, r, isGlobal)
  {
    if |repos| > 0 {
      var front := repos[..|repos| - 1];
      var last := repos[|repos| - 1];
      InReposCommands(fs, root, owner, front, isGlobal, c);
      assert repos == front + [last];
      assert ReposCommands(fs, root, owner, repos, isGlobal)
          == ReposCommands(fs, root, owner, front, isGlobal) + RepoCommands(fs, root, owner, last, isGlobal);
      if c in ReposCommands(fs, root, owner, front, isGlobal) {
        var r :| r in front && c in RepoCommands(fs, root, owner, r, isGlobal);
        assert r in repos;
      }
      if exists r :: r in repos && c in RepoCommands(fs, root, owner, r, isGlobal) {
        var r :| r in repos && c in RepoCommands(fs, root, owner, r, isGlobal);
        if r != last {
          assert r in front;
        }
      }
    }
  }

  lemma {:induction false} InOwnersCommands(fs: Node, root: Path, owners: seq<string>, isGlobal: bool, c: ListedCommand)
    ensures c in OwnersCommands(fs, root, owners, isGlobal) <==>
              exists u :: u in owners && c in OwnerCommands(fs, root, u, isGlobal)
  {
    if |owners| > 0 {
      var front := owners[..|owners| - 1];
      InOwnersCommands(fs, root, front, isGlobal, c);
      assert owners == front + [owners[|owners| - 1]];
    }
  }

  /** A listable path is an existing directory. */
  lemma ListableIsDirectory(fs: Node, p: Path)
    ensures ReadDir(fs, p).Some? ==> Exists(fs, p) && IsDirectory(fs, p)
  {
  }

  /**
   * The listing holds exactly the commands installed two directories below
   * the root, each named after its file without the first ".md", attributed
   * to "owner/repo" and shown with the scope's prefix.
   */
  lemma ListedCommandsMembership(fs: Node, root: Path, isGlobal: bool, c: ListedCommand)
    ensures c in ListedCommands(fs, root, isGlobal) <==>
              exists u, r, f :: InstalledAt(fs, root, u, r, f) && c == Listed(u, r, f, isGlobal)
  {
    if c in ListedCommands(fs, root, isGlobal) {
      ListedIsInstalled(fs, root, isGlobal, c);
    }
    if exists u, r, f :: InstalledAt(fs, root, u, r, f) && c == Listed(u, r, f, isGlobal) {
      var u, r, f :| InstalledAt(fs, root, u, r, f) && c == Listed(u, r, f, isGlobal);
      InstalledIsListed(fs, root, u, r, f, isGlobal);
    }
  }

  /** Every listed command is installed. */
  lemma ListedIsInstalled(fs: Node, root: Path, isGlobal: bool, c: ListedCommand)
    requires c in ListedCommands(fs, root, isGlobal)
    ensures exists u, r, f :: InstalledAt(fs, root, u, r, f) && c == Listed(u, r, f, isGlobal)
  {
    var owners := ReadDir(fs, root).value;
    InOwnersCommands(fs, root, owners, isGlobal, c);
    var u :| u in owners && c in OwnerCommands(fs, root, u, isGlobal);
    var repos := ReadDir(fs, root + [u]).value;
    InReposCommands(fs, root, u, repos, isGlobal, c);
    var r :| r in repos && c in RepoCommands(fs, root, u, r, isGlobal);
    var files := ReadDir(fs, root + [u, r]).value;
    InFileCommands(u, r, files, isGlobal, c);
    var f :| f in files && EndsWith(f, Md) && c == Listed(u, r, f, isGlobal);
    assert InstalledAt(fs, root, u, r, f);
  }

  /** Every installed command is listed. */
  lemma InstalledIsListed(fs: Node, root: Path, u: string, r: string, f: string, isGlobal: bool)
    requires InstalledAt(fs, root, u, r, f)
    ensures Listed(u, r, f, isGlobal) in ListedCommands(fs, root, isGlobal)
  {
    var c := Listed(u, r, f, isGlobal);
    ListableIsDirectory(fs, root);
    ListableIsDirectory(fs, root + [u]);
    ListableIsDirectory(fs, root + [u, r]);
    InFileCommands(u, r, ReadDir(fs, root + [u, r]).value, isGlobal, c);
    assert c in RepoCommands(fs, root, u, r, isGlobal);
    InReposCommands(fs, root, u, ReadDir(fs, root + [u]).value, isGlobal, c);
    assert c in OwnerCommands(fs, root, u, isGlobal);
    InOwnersCommands(fs, root, ReadDir(fs, root).value, isGlobal, c);
  }

  /** One printed section of `listCommand`: the scope and what was found there. */
  datatype Section = Section(isGlobal: bool, commands: seq<ListedCommand>)

  /**
   * `listCommand`'s scope selection: global-only, local-only, or local and
   * then global when both or neither flag is given.
   */
  function Scopes(global: bool, local: bool): (scopes: seq<bool>)
    ensures global && !local ==> scopes == [true]
    ensures local && !global ==> scopes == [false]
    ensures global == local ==> scopes == [false, true]
  {
    if global && !local then [true]
    else if local && !global then [false]
    else [false, true]
  }

  /** `listCommand`: one section per selected scope, in order. */
  method ListCommand(fs: Node, cwd: Path, home: Path, global: bool, local: bool) returns (sections: seq<Section>)
    ensures |sections| == |Scopes(global, local)|
    ensures forall i :: 0 <= i < |sections| ==>
              sections[i].isGlobal == Scopes(global, local)[i]
              && sections[i].commands ==
                 ListedCommands(fs, if sections[i].isGlobal then GlobalCommandsPath(home) else LocalCommandsPath(cwd), sections[i].isGlobal)
  {
    if global && !local {
      var found := ListCommandsInDirectory(fs, GlobalCommandsPath(home), true);
      sections := [Section(true, found)];
    } else if local && !global {
      var found := ListCommandsInDirectory(fs, LocalCommandsPath(cwd), false);
      sections := [Section(false, found)];
    } else {
      var localCommands := ListCommandsInDirectory(fs, LocalCommandsPath(cwd), false);
      var globalCommands := ListCommandsInDirectory(fs, GlobalCommandsPath(home), true);
      sections := [Section(false, localCommands), Section(true, globalCommands)];
    }
  }
}
