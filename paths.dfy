/**
 * Where the tool keeps things, for the local scope (relative to the working
 * directory) and the global scope (relative to the home directory). Both
 * directories are parameters; paths are segment sequences.
 */
module Paths {
  import opened Common
  import opened FileTree

  /** The scope a command runs in when none is given: global. */
  const DefaultIsLocal: bool := false

  /** The segments every commands directory ends with. */
  const CommandsSuffix: Path := [".claude", "commands", "cccsc"]

  /** The directory a scope is rooted at. */
  function BasePath(isLocal: bool, cwd: Path, home: Path): Path
  {
    if isLocal then cwd else home
  }

  /** `getGlobalCommandsPath`. */
  function GlobalCommandsPath(home: Path): (p: Path)
    ensures p == home + [".claude", "commands", "cccsc"]
  {
    home + CommandsSuffix
  }

  /** `getLocalCommandsPath`. */
  function LocalCommandsPath(cwd: Path): (p: Path)
    ensures p == cwd + [".claude", "commands", "cccsc"]
  {
    cwd + CommandsSuffix
  }

  /** `getCommandsPath`: the local directory for the local scope, else the global one. */
  function CommandsPath(isLocal: bool, cwd: Path, home: Path): (p: Path)
    ensures isLocal ==> p == LocalCommandsPath(cwd)
    ensures !isLocal ==> p == GlobalCommandsPath(home)
  {
    if isLocal then LocalCommandsPath(cwd) else GlobalCommandsPath(home)
  }

  /** With no scope given, commands live in the global directory. */
  lemma DefaultScopeIsGlobal(cwd: Path, home: Path)
    ensures CommandsPath(DefaultIsLocal, cwd, home) == GlobalCommandsPath(home)
  {
  }

  /** The directory `checkClaudeDir` demands: `<base>/.claude`. */
  function ClaudeDir(isLocal: bool, cwd: Path, home: Path): (p: Path)
    ensures p == BasePath(isLocal, cwd, home) + [".claude"]
  {
    BasePath(isLocal, cwd, home) + [".claude"]
  }

  /** The commands directory of either scope lies two levels inside its `.claude`. */
  lemma CommandsInsideClaudeDir(isLocal: bool, cwd: Path, home: Path)
    ensures var c := CommandsPath(isLocal, cwd, home);
            IsPrefix(ClaudeDir(isLocal, cwd, home), c)
            && |c| == |ClaudeDir(isLocal, cwd, home)| + 2
  {
  }

  /** The directory holding the configuration and lock of a scope. */
  function ConfigDir(isLocal: bool, cwd: Path, home: Path): Path
  {
    if isLocal then cwd else home + [".cccsc"]
  }

  /** `getCccscConfigPath`: `<cwd>/cccsc.json` or `<home>/.cccsc/cccsc.json`. */
  function ConfigPath(isLocal: bool, cwd: Path, home: Path): (p: Path)
    ensures isLocal ==> p == cwd + ["cccsc.json"]
    ensures !isLocal ==> p == home + [".cccsc", "cccsc.json"]
  {
    ConfigDir(isLocal, cwd, home) + ["cccsc.json"]
  }

  /** `getCccscLockPath`: `<cwd>/cccsc-lock.json` or `<home>/.cccsc/cccsc-lock.json`. */
  function LockPath(isLocal: bool, cwd: Path, home: Path): (p: Path)
    ensures isLocal ==> p == cwd + ["cccsc-lock.json"]
    ensures !isLocal ==> p == home + [".cccsc", "cccsc-lock.json"]
  {
    ConfigDir(isLocal, cwd, home) + ["cccsc-lock.json"]
  }

  /** The configuration and the lock are always siblings, and never the same file. */
  lemma ConfigAndLockSiblings(isLocal: bool, cwd: Path, home: Path)
    ensures var c := ConfigPath(isLocal, cwd, home);
            var l := LockPath(isLocal, cwd, home);
            |c| == |l| >= 1 && c[..|c| - 1] == l[..|l| - 1] && c != l
  {
    var c := ConfigPath(isLocal, cwd, home);
    var l := LockPath(isLocal, cwd, home);
    assert c[|c| - 1] != l[|l| - 1];
  }

  datatype PathError =
    | ClaudeDirMissing(isLocal: bool)
    | CannotCreate(path: Path)

  /** `checkClaudeDir`: fails unless `<base>/.claude` exists. */
  function CheckClaudeDir(fs: Node, isLocal: bool, cwd: Path, home: Path): (r: Result<Path, PathError>)
    ensures r.Ok? <==> Exists(fs, ClaudeDir(isLocal, cwd, home))
    ensures r.Ok? ==> r.value == ClaudeDir(isLocal, cwd, home)
    ensures r.Err? ==> r.error == ClaudeDirMissing(isLocal)
  {
    var claude := ClaudeDir(isLocal, cwd, home);
    if Exists(fs, claude) then Ok(claude) else Err(ClaudeDirMissing(isLocal))
  }

  /** Every path apart from `p` is untouched by a successful `ensureDir(p)`. */
  lemma EnsureDirFrame(fs: Node, p: Path)
    requires EnsureDir(fs, p).Some?
    ensures IsDirectory(EnsureDir(fs, p).value, p)
    ensures forall q :: Apart(p, q) ==> Lookup(EnsureDir(fs, p).value, q) == Lookup(fs, q)
  {
    LookupEnsureDir(fs, p, p);
    forall q | Apart(p, q) ensures Lookup(EnsureDir(fs, p).value, q) == Lookup(fs, q) {
      LookupEnsureDir(fs, p, q);
    }
  }

  /**
   * `ensureCommandsDir`: check `.claude` first, then create the commands
   * directory; returns its path and the new filesystem. When `.claude` is
   * absent nothing is created.
   */
  function EnsureCommandsDir(fs: Node, isLocal: bool, cwd: Path, home: Path)
    : (r: Result<(Path, Node), PathError>)
    ensures !Exists(fs, ClaudeDir(isLocal, cwd, home)) ==> r == Err(ClaudeDirMissing(isLocal))
    ensures r.Ok? ==>
              && Exists(fs, ClaudeDir(isLocal, cwd, home))
              && r.value.0 == CommandsPath(isLocal, cwd, home)
              && IsDirectory(r.value.1, r.value.0)
              && forall q :: Apart(r.value.0, q) ==> Lookup(r.value.1, q) == Lookup(fs, q)
  {
    var _ :- CheckClaudeDir(fs, isLocal, cwd, home);
    var commands := CommandsPath(isLocal, cwd, home);
    match EnsureDir(fs, commands)
    case Some(fs') => EnsureDirFrame(fs, commands); Ok((commands, fs'))
    case None => Err(CannotCreate(commands))
  }

  /** `ensureCccscConfigDir`: only the global scope has a directory of its own to create. */
  function EnsureConfigDir(fs: Node, isLocal: bool, home: Path): (r: Option<Node>)
    ensures isLocal ==> r == Some(fs)
    ensures !isLocal && r.Some? ==> IsDirectory(r.value, home + [".cccsc"])
  {
    if isLocal then Some(fs)
    else
      var p := home + [".cccsc"];
      match EnsureDir(fs, p)
      case Some(fs') => LookupEnsureDir(fs, p, p); Some(fs')
      case None => None
  }
}
