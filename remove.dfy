/**
 * Removing an installed command: locating it through the configuration (by
 * name or alias, or as a file of a whole-repository entry), deleting its file
 * and the directories that deletion leaves empty, pruning the configuration
 * and the lock, and, when the configuration knows nothing, a walk over the
 * commands directory that deletes the first file of that name.
 */
module RemoveCmd {
  import opened Common
  import opened JsString
  import opened Dict
  import opened FileTree
  import opened Documents
  import opened Paths
  import Store = Config

  datatype RemoveError =
    | NoCommandsDirectory
    | NotFound(name: string)
    | InvalidRepositoryKey(key: string)

  /**
   * `const [user, repo] = repoKey.split('/')`, used where `path.join` needs
   * both as strings: a key without '/' leaves `repo` undefined, which throws.
   */
  function KeyParts(key: string): (r: Option<(string, string)>)
    ensures r.None? <==> '/' !in key
    ensures r.Some? ==> '/' !in r.value.0 && '/' !in r.value.1
  {
    SplitSingle(key, '/');
    var parts := Split(key, '/');
    if |parts| < 2 then None else Some((parts[0], parts[1]))
  }

  /** A key built from two '/'-free parts splits back into them. */
  lemma KeyPartsOfRepoKey(user: string, repo: string)
    requires '/' !in user && '/' !in repo
    ensures KeyParts(RepoKey(user, repo)) == Some((user, repo))
  {
    SplitTwo(user, repo, '/');
  }

  // ---------------------------------------------------------------- lookup

  /** A command the configuration accounts for: its entry, its index (-1 for whole-repository mode) and the command. */
  datatype ConfigMatch = ConfigMatch(repoKey: string, commandIndex: int, command: CommandSpec)

  predicate CommandMatches(cmd: CommandSpec, name: string)
  {
    cmd.name == name || cmd.alias == Some(name)
  }

  /** `only.findIndex(cmd => cmd.name === name || cmd.alias === name)`. */
  function FindByNameOrAlias(only: seq<CommandSpec>, name: string): (i: int)
    ensures -1 <= i < |only|
    ensures i >= 0 ==> CommandMatches(only[i], name)
    ensures i == -1 <==> forall j :: 0 <= j < |only| ==> !CommandMatches(only[j], name)
    ensures forall j :: 0 <= j < i ==> !CommandMatches(only[j], name)
  {
    if |only| == 0 then -1
    else if CommandMatches(only[0], name) then 0
    else
      var k := FindByNameOrAlias(only[1..], name);
      if k == -1 then -1 else k + 1
  }

  /** The file a whole-repository entry `user/repo` would hold for `name`. */
  function InstalledFile(commandsPath: Path, user: string, repo: string, name: string): Path
  {
    commandsPath + [user, repo, name + Md]
  }

  /**
   * What one configuration entry says about `name`: an entry with commands
   * matches by name or alias; a whole-repository entry matches when the
   * command's file is installed, with a synthesised command.
   */
  function MatchInEntry(fs: Node, commandsPath: Path, key: string, rc: RepositoryConfig, name: string)
    : (r: Result<Option<ConfigMatch>, RemoveError>)
    ensures |rc.only| > 0 ==> r.Ok?
    ensures r.Ok? && r.value.Some? ==> r.value.value.repoKey == key
    ensures r.Ok? && r.value.Some? && r.value.value.commandIndex >= 0 ==>
              var m := r.value.value;
              m.commandIndex < |rc.only| && m.command == rc.only[m.commandIndex]
              && CommandMatches(m.command, name)
              && forall j :: 0 <= j < m.commandIndex ==> !CommandMatches(rc.only[j], name)
    ensures r.Ok? && r.value.Some? && r.value.value.commandIndex < 0 ==>
              r.value.value.commandIndex == -1 && rc.only == []
              && r.value.value.command == CommandSpec(name, name + Md, None)
              && KeyParts(key).Some?
              && Exists(fs, InstalledFile(commandsPath, KeyParts(key).value.0, KeyParts(key).value.1, name))
    ensures r == Ok(None) && |rc.only| > 0 ==> forall j :: 0 <= j < |rc.only| ==> !CommandMatches(rc.only[j], name)
    ensures r.Err? <==> rc.only == [] && KeyParts(key).None?
  {
    if |rc.only| > 0 then
      var i := FindByNameOrAlias(rc.only, name);
      if i != -1 then Ok(Some(ConfigMatch(key, i, rc.only[i]))) else Ok(None)
    else match KeyParts(key)
      case None => Err(InvalidRepositoryKey(key))
      case Some((user, repo)) =>
        if Exists(fs, InstalledFile(commandsPath, user, repo, name))
        then Ok(Some(ConfigMatch(key, -1, CommandSpec(name, name + Md, None))))
        else Ok(None)
  }

  /** The configuration entries visited in key order: the first match, or the first failure, wins. */
  function FindInKeys(fs: Node, commandsPath: Path, repos: Dict<RepositoryConfig>, keys: seq<string>, name: string)
    : Result<Option<ConfigMatch>, RemoveError>
    requires forall k :: k in keys ==> k in repos.values
  {
    if |keys| == 0 then Ok(None)
    else match MatchInEntry(fs, commandsPath, keys[0], repos.values[keys[0]], name)
      case Err(e) => Err(e)
      case Ok(Some(m)) => Ok(Some(m))
      case Ok(None) => FindInKeys(fs, commandsPath, repos, keys[1..], name)
  }

  /** The configuration's own lookup: every entry, in insertion order. */
  function FindInConfig(fs: Node, commandsPath: Path, config: Config, name: string): Result<Option<ConfigMatch>, RemoveError>
  {
    FindInKeys(fs, commandsPath, config.repositories, config.repositories.keys, name)
  }

  /** None of the first `n` entries of `keys` matches `name`. */
  predicate MissesFirst(fs: Node, commandsPath: Path, repos: Dict<RepositoryConfig>, keys: seq<string>, n: int, name: string)
    requires forall k :: k in keys ==> k in repos.values
    requires 0 <= n <= |keys|
  {
    forall j :: 0 <= j < n ==> MatchInEntry(fs, commandsPath, keys[j], repos.values[keys[j]], name) == Ok(None)
  }

  /** A non-matching entry in front keeps the entries after it non-matching. */
  lemma MissesFirstCons(fs: Node, commandsPath: Path, repos: Dict<RepositoryConfig>, keys: seq<string>, n: int, name: string)
    requires forall k :: k in keys ==> k in repos.values
    requires 0 <= n < |keys|
    requires MatchInEntry(fs, commandsPath, keys[0], repos.values[keys[0]], name) == Ok(None)
    requires MissesFirst(fs, commandsPath, repos, keys[1..], n, name)
    ensures MissesFirst(fs, commandsPath, repos, keys, n + 1, name)
  {
    forall j | 0 < j < n + 1
      ensures MatchInEntry(fs, commandsPath, keys[j], repos.values[keys[j]], name) == Ok(None)
    {
      assert keys[j] == keys[1..][j - 1];
    }
  }

  /**
   * A match comes from the first entry, in key order, that matches; every
   * entry before it matches nothing. No match means no entry matches.
   */
  lemma {:induction false} FindInKeysFirst(fs: Node, commandsPath: Path, repos: Dict<RepositoryConfig>, keys: seq<string>, name: string)
    requires forall k :: k in keys ==> k in repos.values
    ensures var r := FindInKeys(fs, commandsPath, repos, keys, name);
            r.Ok? && r.value.Some? ==>
              exists i :: 0 <= i < |keys| && keys[i] == r.value.value.repoKey
                && MatchInEntry(fs, commandsPath, keys[i], repos.values[keys[i]], name) == r
                && MissesFirst(fs, commandsPath, repos, keys, i, name)
    ensures FindInKeys(fs, commandsPath, repos, keys, name) == Ok(None) ==>
              MissesFirst(fs, commandsPath, repos, keys, |keys|, name)
  {
    if |keys| > 0 {
      var tail := keys[1..];
      FindInKeysFirst(fs, commandsPath, repos, tail, name);
      var r := FindInKeys(fs, commandsPath, repos, keys, name);
      var head := MatchInEntry(fs, commandsPath, keys[0], repos.values[keys[0]], name);
      if head == Ok(None) {
        assert r == FindInKeys(fs, commandsPath, repos, tail, name);
        if r.Ok? && r.value.Some? {
          var i :| 0 <= i < |tail| && tail[i] == r.value.value.repoKey
                   && MatchInEntry(fs, commandsPath, tail[i], repos.values[tail[i]], name) == r
                   && MissesFirst(fs, commandsPath, repos, tail, i, name);
          assert keys[i + 1] == tail[i];
          MissesFirstCons(fs, commandsPath, repos, keys, i, name);
        }
        if r == Ok(None) {
          MissesFirstCons(fs, commandsPath, repos, keys, |tail|, name);
        }
      } else if head.Ok? {
        assert r == head;
        assert MissesFirst(fs, commandsPath, repos, keys, 0, name);
      }
    }
  }

  /** `findCommandInConfig`: the entries in key order, returning at the first match. */
  method FindCommandInConfig(name: string, config: Config, fs: Node, commandsPath: Path)
    returns (r: Result<Option<ConfigMatch>, RemoveError>)
    ensures r == FindInConfig(fs, commandsPath, config, name)
  {
    var rest := config.repositories.keys;
    while |rest| > 0
      invariant forall k :: k in rest ==> k in config.repositories.values
      invariant FindInKeys(fs, commandsPath, config.repositories, rest, name) == FindInConfig(fs, commandsPath, config, name)
    {
      var repoKey := rest[0];
      var repoConfig := config.repositories.values[repoKey];
      var found := MatchInEntry(fs, commandsPath, repoKey, repoConfig, name);
      if found.Err? || found.value.Some? {
        return found;
      }
      assert forall k :: k in rest[1..] ==> k in rest;
      rest := rest[1..];
    }
    return Ok(None);
  }

  // --------------------------------------------------------------- cascade

  /**
   * Deleting `commandsPath/user/repo/file` and then the repository directory
   * if that left it empty, and then the owner directory if that left it
   * empty (a listing that fails counts as empty).
   */
  function CascadeRemove(fs: Node, commandsPath: Path, user: string, repo: string, file: string): Node
  {
    var fs1 := Remove(fs, commandsPath + [user, repo, file]);
    if |ReadDirOrEmpty(fs1, commandsPath + [user, repo])| != 0 then fs1
    else
      var fs2 := Remove(fs1, commandsPath + [user, repo]);
      if |ReadDirOrEmpty(fs2, commandsPath + [user])| != 0 then fs2
      else Remove(fs2, commandsPath + [user])
  }

  lemma PrefixOfPrefix(p: Path, q: Path, s: Path)
    requires IsPrefix(p, q) && IsPrefix(q, s)
    ensures IsPrefix(p, s)
  {
    assert s[..|p|] == s[..|q|][..|p|];
  }

  /** The cascade leaves nothing at the file's path. */
  lemma CascadeRemovesFile(fs: Node, commandsPath: Path, user: string, repo: string, file: string)
    ensures Lookup(CascadeRemove(fs, commandsPath, user, repo, file), commandsPath + [user, repo, file]) == None
  {
    var filePath := commandsPath + [user, repo, file];
    var repoPath := commandsPath + [user, repo];
    var userPath := commandsPath + [user];
    assert IsPrefix(repoPath, filePath) && IsPrefix(userPath, filePath);
    var fs1 := Remove(fs, filePath);
    var fs2 := Remove(fs1, repoPath);
    LookupRemove(fs, filePath, filePath);
    LookupRemove(fs1, repoPath, filePath);
    LookupRemove(fs2, userPath, filePath);
  }

  /** A path inside the repository directory, beside the file, keeps what it held. */
  lemma CascadeFrameInRepo(fs: Node, commandsPath: Path, user: string, repo: string, file: string, q: Path)
    requires IsPrefix(commandsPath + [user, repo], q) && Apart(q, commandsPath + [user, repo, file])
    ensures Lookup(CascadeRemove(fs, commandsPath, user, repo, file), q) == Lookup(fs, q)
  {
    var filePath := commandsPath + [user, repo, file];
    var repoPath := commandsPath + [user, repo];
    var userPath := commandsPath + [user];
    var fs1 := Remove(fs, filePath);
    var fs2 := Remove(fs1, repoPath);
    LookupRemove(fs, filePath, q);
    if |ReadDirOrEmpty(fs1, repoPath)| == 0 {
      assert IsPrefix(repoPath, filePath);
      assert |q| > |repoPath|;
      LookupBelowEmpty(fs1, repoPath, q);
      LookupRemove(fs1, repoPath, q);
      assert IsPrefix(userPath, repoPath);
      PrefixOfPrefix(userPath, repoPath, q);
      LookupRemove(fs2, userPath, q);
    }
  }

  /** A path inside the owner directory but outside the repository directory keeps what it held. */
  lemma CascadeFrameInOwner(fs: Node, commandsPath: Path, user: string, repo: string, file: string, q: Path)
    requires IsPrefix(commandsPath + [user], q) && !IsPrefix(commandsPath + [user, repo], q)
    requires Apart(q, commandsPath + [user, repo, file])
    ensures Lookup(CascadeRemove(fs, commandsPath, user, repo, file), q) == Lookup(fs, q)
  {
    var filePath := commandsPath + [user, repo, file];
    var repoPath := commandsPath + [user, repo];
    var userPath := commandsPath + [user];
    var fs1 := Remove(fs, filePath);
    var fs2 := Remove(fs1, repoPath);
    assert IsPrefix(repoPath, filePath);
    if IsPrefix(q, repoPath) {
      PrefixOfPrefix(q, repoPath, filePath);
    }
    assert Apart(q, repoPath);
    LookupRemove(fs, filePath, q);
    LookupRemove(fs1, repoPath, q);
    if |ReadDirOrEmpty(fs1, repoPath)| == 0 && |ReadDirOrEmpty(fs2, userPath)| == 0 {
      assert IsPrefix(userPath, repoPath);
      PrefixOfPrefix(userPath, repoPath, filePath);
      assert |q| > |userPath|;
      LookupBelowEmpty(fs2, userPath, q);
      LookupRemove(fs2, userPath, q);
    }
  }

  /** A path outside the owner directory, and not above the file, keeps what it held. */
  lemma CascadeFrameOutside(fs: Node, commandsPath: Path, user: string, repo: string, file: string, q: Path)
    requires !IsPrefix(commandsPath + [user], q) && Apart(q, commandsPath + [user, repo, file])
    ensures Lookup(CascadeRemove(fs, commandsPath, user, repo, file), q) == Lookup(fs, q)
  {
    var filePath := commandsPath + [user, repo, file];
    var repoPath := commandsPath + [user, repo];
    var userPath := commandsPath + [user];
    var fs1 := Remove(fs, filePath);
    var fs2 := Remove(fs1, repoPath);
    assert IsPrefix(repoPath, filePath) && IsPrefix(userPath, filePath) && IsPrefix(userPath, repoPath);
    if IsPrefix(q, repoPath) {
      PrefixOfPrefix(q, repoPath, filePath);
    }
    if IsPrefix(q, userPath) {
      PrefixOfPrefix(q, userPath, filePath);
    }
    if IsPrefix(repoPath, q) {
      PrefixOfPrefix(userPath, repoPath, q);
    }
    assert Apart(q, repoPath) && Apart(q, userPath);
    LookupRemove(fs, filePath, q);
    LookupRemove(fs1, repoPath, q);
    LookupRemove(fs2, userPath, q);
  }

  /**
   * The cascade deletes the file and nothing else that held anything: every
   * path apart from the file leads where it led before, because the two
   * directories are only removed once they are empty.
   */
  lemma CascadeFrame(fs: Node, commandsPath: Path, user: string, repo: string, file: string, q: Path)
    ensures Lookup(CascadeRemove(fs, commandsPath, user, repo, file), commandsPath + [user, repo, file]) == None
    ensures Apart(q, commandsPath + [user, repo, file]) ==>
              Lookup(CascadeRemove(fs, commandsPath, user, repo, file), q) == Lookup(fs, q)
  {
    CascadeRemovesFile(fs, commandsPath, user, repo, file);
    if Apart(q, commandsPath + [user, repo, file]) {
      if IsPrefix(commandsPath + [user, repo], q) {
        CascadeFrameInRepo(fs, commandsPath, user, repo, file, q);
      } else if IsPrefix(commandsPath + [user], q) {
        CascadeFrameInOwner(fs, commandsPath, user, repo, file, q);
      } else {
        CascadeFrameOutside(fs, commandsPath, user, repo, file, q);
      }
    }
  }

  /** The repository directory goes exactly when deleting the file emptied it. */
  lemma CascadeRepoDirectory(fs: Node, commandsPath: Path, user: string, repo: string, file: string)
    ensures var fs1 := Remove(fs, commandsPath + [user, repo, file]);
            var r := CascadeRemove(fs, commandsPath, user, repo, file);
            (|ReadDirOrEmpty(fs1, commandsPath + [user, repo])| == 0 ==> Lookup(r, commandsPath + [user, repo]) == None)
            && (|ReadDirOrEmpty(fs1, commandsPath + [user, repo])| != 0 ==> r == fs1)
  {
    var repoPath := commandsPath + [user, repo];
    var userPath := commandsPath + [user];
    var fs1 := Remove(fs, commandsPath + [user, repo, file]);
    var fs2 := Remove(fs1, repoPath);
    LookupRemove(fs1, repoPath, repoPath);
    assert IsPrefix(userPath, repoPath);
    LookupRemove(fs2, userPath, repoPath);
  }

  // ------------------------------------------------------------------ lock

  /** `only.indexOf(name)`: strict equality, so only a legacy string item can match. */
  function IndexOfLegacy(only: seq<OnlyItem>, name: string): (i: int)
    ensures -1 <= i < |only|
    ensures i >= 0 ==> only[i] == Legacy(name)
    ensures i == -1 <==> Legacy(name) !in only
    ensures forall j :: 0 <= j < i ==> only[j] != Legacy(name)
  {
    if |only| == 0 then -1
    else if only[0] == Legacy(name) then 0
    else
      var k := IndexOfLegacy(only[1..], name);
      if k == -1 then -1 else k + 1
  }

  /** The names that `filter(f => f.endsWith('.md'))` keeps. */
  function MdFiles(names: seq<string>): (r: seq<string>)
    ensures forall x :: x in r <==> x in names && EndsWith(x, Md)
    ensures |r| <= |names|
  {
    if |names| == 0 then []
    else MdFiles(names[..|names| - 1]) + (if EndsWith(names[|names| - 1], Md) then [names[|names| - 1]] else [])
  }

  /**
   * `removeCommandFromLock(name, repoKey, lock)`: returns the new lock and
   * whether an entry changed. A whole-repository entry is dropped when its
   * directory under the GLOBAL commands path holds at most one ".md" file.
   */
  function RemoveFromLock(name: string, key: string, lock: Lock, fs: Node, home: Path)
    : (r: Result<(Lock, bool), RemoveError>)
    ensures r.Ok? ==> r.value.0.lockfileVersion == lock.lockfileVersion
    ensures r.Ok? && !r.value.1 ==> r.value.0 == lock
    ensures key !in lock.repositories.values ==> r == Ok((lock, false))
    ensures r.Err? <==> key in lock.repositories.values && |lock.repositories.values[key].only| == 0 && KeyParts(key).None?
    ensures r.Err? ==> r.error == InvalidRepositoryKey(key)
    ensures r.Ok? ==> forall k :: k != key ==>
              (k in r.value.0.repositories.values <==> k in lock.repositories.values)
              && (k in lock.repositories.values ==> r.value.0.repositories.values[k] == lock.repositories.values[k])
  {
    if key !in lock.repositories.values then Ok((lock, false))
    else
      var entry := lock.repositories.values[key];
      if |entry.only| > 0 then
        var i := IndexOfLegacy(entry.only, name);
        if i == -1 then Ok((lock, false))
        else
          var rest := entry.only[..i] + entry.only[i + 1..];
          if |rest| == 0 then Ok((Lock(lock.lockfileVersion, Delete(lock.repositories, key)), true))
          else Ok((Lock(lock.lockfileVersion, Put(lock.repositories, key, RepositoryLockInfo(entry.revision, rest))), true))
      else match KeyParts(key)
        case None => Err(InvalidRepositoryKey(key))
        case Some((user, repo)) =>
          var repoPath := GlobalCommandsPath(home) + [user, repo];
          if Exists(fs, repoPath) && |MdFiles(ReadDirOrEmpty(fs, repoPath))| <= 1
          then Ok((Lock(lock.lockfileVersion, Delete(lock.repositories, key)), true))
          else Ok((lock, false))
  }

  /**
   * Pruning a listed entry removes the first legacy item equal to the name,
   * keeps the others in order and the revision, and drops the entry when
   * nothing is left; an entry listing the command only as a `{name, path,
   * alias}` object is left alone.
   */
  lemma RemoveFromLockListed(name: string, key: string, lock: Lock, fs: Node, home: Path)
    requires key in lock.repositories.values && |lock.repositories.values[key].only| > 0
    ensures var entry := lock.repositories.values[key];
            var r := RemoveFromLock(name, key, lock, fs, home);
            r.Ok?
            && (r.value.1 <==> Legacy(name) in entry.only)
            && (Legacy(name) in entry.only ==>
                  var i := IndexOfLegacy(entry.only, name);
                  var rest := entry.only[..i] + entry.only[i + 1..];
                  |rest| == |entry.only| - 1
                  && multiset(rest) == multiset(entry.only) - multiset{Legacy(name)}
                  && (rest == [] ==> key !in r.value.0.repositories.values)
                  && (rest != [] ==> r.value.0.repositories.values[key] == RepositoryLockInfo(entry.revision, rest)
                                     && r.value.0.repositories.keys == lock.repositories.keys))
  {
    var entry := lock.repositories.values[key];
    var r := RemoveFromLock(name, key, lock, fs, home);
    var i := IndexOfLegacy(entry.only, name);
    if Legacy(name) in entry.only {
      RemovedLegacyItem(entry.only, name);
      var rest := entry.only[..i] + entry.only[i + 1..];
      if |rest| == 0 {
        assert r == Ok((Lock(lock.lockfileVersion, Delete(lock.repositories, key)), true));
      } else {
        var put := Put(lock.repositories, key, RepositoryLockInfo(entry.revision, rest));
        assert r == Ok((Lock(lock.lockfileVersion, put), true));
        assert put.keys == lock.repositories.keys;
      }
    } else {
      assert i == -1;
      assert r == Ok((lock, false));
    }
  }

  /** Splicing out the first legacy item equal to `name` removes exactly one copy of it. */
  lemma RemovedLegacyItem(only: seq<OnlyItem>, name: string)
    requires Legacy(name) in only
    ensures var i := IndexOfLegacy(only, name);
            var rest := only[..i] + only[i + 1..];
            |rest| == |only| - 1 && multiset(rest) == multiset(only) - multiset{Legacy(name)}
  {
    var i := IndexOfLegacy(only, name);
    assert only == only[..i] + [only[i]] + only[i + 1..];
  }

  /**
   * Pruning a whole-repository entry looks at the repository's directory
   * under the global commands path: the entry goes exactly when that
   * directory exists and holds at most one ".md" file.
   */
  lemma RemoveFromLockWholeRepository(name: string, key: string, lock: Lock, fs: Node, home: Path)
    requires key in lock.repositories.values && lock.repositories.values[key].only == []
    requires KeyParts(key).Some?
    ensures var (user, repo) := KeyParts(key).value;
            var repoPath := GlobalCommandsPath(home) + [user, repo];
            var r := RemoveFromLock(name, key, lock, fs, home);
            r.Ok?
            && (r.value.1 <==> Exists(fs, repoPath) && |MdFiles(ReadDirOrEmpty(fs, repoPath))| <= 1)
            && (r.value.1 ==> key !in r.value.0.repositories.values)
  {
  }

  /** The concrete case: a command recorded as an object is not pruned. */
  lemma RemoveFromLockIgnoresObjects(lock: Lock, fs: Node, home: Path)
    requires "o/r" in lock.repositories.values
    requires lock.repositories.values["o/r"].only == [Spec("x", "x.md", None)]
    ensures RemoveFromLock("x", "o/r", lock, fs, home) == Ok((lock, false))
  {
  }

  // -------------------------------------------------------------- config

  /** The configuration after removing the matched command. */
  function ConfigAfterRemoval(config: Config, m: ConfigMatch): (r: Config)
    requires m.repoKey in config.repositories.values
    requires -1 <= m.commandIndex < |config.repositories.values[m.repoKey].only|
    ensures forall k :: k != m.repoKey ==>
              (k in r.repositories.values <==> k in config.repositories.values)
              && (k in config.repositories.values ==> r.repositories.values[k] == config.repositories.values[k])
    ensures m.commandIndex == -1 ==> m.repoKey !in r.repositories.values
    ensures m.commandIndex >= 0 ==>
              var rc := config.repositories.values[m.repoKey];
              var rest := rc.only[..m.commandIndex] + rc.only[m.commandIndex + 1..];
              (rest == [] ==> m.repoKey !in r.repositories.values)
              && (rest != [] ==> m.repoKey in r.repositories.values
                                 && r.repositories.values[m.repoKey] == rc.(only := rest)
                                 && r.repositories.keys == config.repositories.keys)
  {
    var repos := config.repositories;
    if m.commandIndex == -1 then Config(Delete(repos, m.repoKey))
    else
      var rc := repos.values[m.repoKey];
      var rest := rc.only[..m.commandIndex] + rc.only[m.commandIndex + 1..];
      if |rest| == 0 then Config(Delete(repos, m.repoKey))
      else Config(Put(repos, m.repoKey, rc.(only := rest)))
  }

  /** Removing index `i` drops exactly the command at `i`, keeping the rest in order. */
  lemma RemovedExactlyOne(only: seq<CommandSpec>, i: nat)
    requires i < |only|
    ensures var rest := only[..i] + only[i + 1..];
            |rest| == |only| - 1
            && (forall j :: 0 <= j < i ==> rest[j] == only[j])
            && (forall j :: i <= j < |rest| ==> rest[j] == only[j + 1])
  {
  }

  // --------------------------------------------------------------- outcome

  /**
   * What a removal leaves behind: the tree, the configuration and lock that
   * were saved (none when the run stopped first), and the repository the
   * command came from or the error.
   */
  datatype RemoveOutcome = RemoveOutcome(
    fs: Node,
    savedConfig: Option<Config>,
    savedLock: Option<Lock>,
    result: Result<string, RemoveError>)

  /**
   * The configuration branch of `removeCommand`: delete the matched entry's
   * file `<user>/<repo>/<command.name>.md` if it exists (the entry's name,
   * also when the match was on the alias) with the cascade, then prune the
   * configuration and the lock, then save both. `RemoveFromLock` fails only
   * on a key without '/', which this branch has already rejected, so with a
   * well-formed key both documents are always saved and its error case
   * cannot arise here.
   */
  function RemoveMatched(fs: Node, commandsPath: Path, config: Config, lock: Lock, m: ConfigMatch, home: Path)
    : (out: RemoveOutcome)
    requires m.repoKey in config.repositories.values
    requires -1 <= m.commandIndex < |config.repositories.values[m.repoKey].only|
    ensures KeyParts(m.repoKey).None? ==> out == RemoveOutcome(fs, None, None, Err(InvalidRepositoryKey(m.repoKey)))
    ensures out.savedConfig.Some? ==> out.savedConfig.value == ConfigAfterRemoval(config, m) && out.result == Ok(m.repoKey)
    ensures out.savedConfig.Some? <==> out.savedLock.Some?
    ensures KeyParts(m.repoKey).Some? ==>
              (out.savedLock.Some? <==> RemoveFromLock(m.command.name, m.repoKey, lock, out.fs, home).Ok?)
    ensures out.savedLock.Some? ==>
              && RemoveFromLock(m.command.name, m.repoKey, lock, out.fs, home).Ok?
              && out.savedLock.value == RemoveFromLock(m.command.name, m.repoKey, lock, out.fs, home).value.0
    ensures KeyParts(m.repoKey).Some? ==> out.savedConfig.Some? && out.savedLock.Some? && out.result == Ok(m.repoKey)
    ensures KeyParts(m.repoKey).Some? && RemoveFromLock(m.command.name, m.repoKey, lock, out.fs, home).Err? ==>
              out.savedConfig.None? && out.result == Err(RemoveFromLock(m.command.name, m.repoKey, lock, out.fs, home).error)
  {
    match KeyParts(m.repoKey)
    case None => RemoveOutcome(fs, None, None, Err(InvalidRepositoryKey(m.repoKey)))
    case Some((user, repo)) =>
      var file := m.command.name + Md;
      var fs' := if Exists(fs, commandsPath + [user, repo, file]) then CascadeRemove(fs, commandsPath, user, repo, file) else fs;
      var config' := ConfigAfterRemoval(config, m);
      match RemoveFromLock(m.command.name, m.repoKey, lock, fs', home)
      case Err(e) => RemoveOutcome(fs', None, None, Err(e))
      case Ok((lock', _)) => RemoveOutcome(fs', Some(config'), Some(lock'), Ok(m.repoKey))
  }

  /**
   * Whatever the configuration branch does to the tree, it touches only the
   * matched command's file and the directories that file leaves empty: the
   * file is gone and every path apart from it is as before.
   */
  lemma RemoveMatchedFrame(fs: Node, commandsPath: Path, config: Config, lock: Lock, m: ConfigMatch, home: Path, q: Path)
    requires m.repoKey in config.repositories.values
    requires -1 <= m.commandIndex < |config.repositories.values[m.repoKey].only|
    requires KeyParts(m.repoKey).Some?
    ensures var (user, repo) := KeyParts(m.repoKey).value;
            var filePath := commandsPath + [user, repo, m.command.name + Md];
            var out := RemoveMatched(fs, commandsPath, config, lock, m, home);
            !Exists(out.fs, filePath)
            && (Apart(q, filePath) ==> Lookup(out.fs, q) == Lookup(fs, q))
  {
    var (user, repo) := KeyParts(m.repoKey).value;
    CascadeFrame(fs, commandsPath, user, repo, m.command.name + Md, q);
  }

  // -------------------------------------------------------------- fallback

  /** The first repository of `owner` that is a directory holding `file`. */
  function RepoHolding(fs: Node, root: Path, owner: string, repos: seq<string>, file: string): (r: Option<string>)
    ensures r.Some? ==> r.value in repos
  {
    if |repos| == 0 then None
    else if IsDirectory(fs, root + [owner, repos[0]]) && Exists(fs, root + [owner, repos[0], file]) then Some(repos[0])
    else RepoHolding(fs, root, owner, repos[1..], file)
  }

  /** The first owner, in listing order, with such a repository. */
  function OwnerHolding(fs: Node, root: Path, owners: seq<string>, file: string): (r: Option<(string, string)>)
    ensures r.Some? ==> r.value.0 in owners
  {
    if |owners| == 0 then None
    else
      var o := owners[0];
      var inOwner := if IsDirectory(fs, root + [o]) then RepoHolding(fs, root, o, ReadDirOrEmpty(fs, root + [o]), file) else None;
      match inOwner
      case Some(r) => Some((o, r))
      case None => OwnerHolding(fs, root, owners[1..], file)
  }

  /** Where the fallback walk finds `name`: the first owner/repo holding `name.md`. */
  function FallbackMatch(fs: Node, root: Path, name: string): Option<(string, string)>
  {
    OwnerHolding(fs, root, ReadDirOrEmpty(fs, root), name + Md)
  }

  /** `file` is installed in `root/owner/repo`, which the walk can reach. */
  predicate Holds(fs: Node, root: Path, owner: string, repo: string, file: string)
  {
    owner in ReadDirOrEmpty(fs, root) && IsDirectory(fs, root + [owner])
    && repo in ReadDirOrEmpty(fs, root + [owner]) && IsDirectory(fs, root + [owner, repo])
    && Exists(fs, root + [owner, repo, file])
  }

  lemma {:induction false} RepoHoldingIff(fs: Node, root: Path, owner: string, repos: seq<string>, file: string)
    ensures RepoHolding(fs, root, owner, repos, file).Some? <==>
              exists r :: r in repos && IsDirectory(fs, root + [owner, r]) && Exists(fs, root + [owner, r, file])
    ensures RepoHolding(fs, root, owner, repos, file).Some? ==>
              var r := RepoHolding(fs, root, owner, repos, file).value;
              IsDirectory(fs, root + [owner, r]) && Exists(fs, root + [owner, r, file])
  {
    if |repos| > 0 {
      RepoHoldingIff(fs, root, owner, repos[1..], file);
      assert forall r :: r in repos <==> r == repos[0] || r in repos[1..];
    }
  }

  lemma {:induction false} OwnerHoldingIff(fs: Node, root: Path, owners: seq<string>, file: string)
    ensures OwnerHolding(fs, root, owners, file).Some? <==>
              exists o, r :: o in owners && IsDirectory(fs, root + [o]) && r in ReadDirOrEmpty(fs, root + [o])
                && IsDirectory(fs, root + [o, r]) && Exists(fs, root + [o, r, file])
    ensures OwnerHolding(fs, root, owners, file).Some? ==>
              var (o, r) := OwnerHolding(fs, root, owners, file).value;
              IsDirectory(fs, root + [o]) && r in ReadDirOrEmpty(fs, root + [o])
              && IsDirectory(fs, root + [o, r]) && Exists(fs, root + [o, r, file])
  {
    if |owners| > 0 {
      var o := owners[0];
      OwnerHoldingIff(fs, root, owners[1..], file);
      RepoHoldingIff(fs, root, o, ReadDirOrEmpty(fs, root + [o]), file);
      assert forall x :: x in owners <==> x == o || x in owners[1..];
    }
  }

  /**
   * The fallback finds a file exactly when some owner and repository
   * directory reachable by the walk holds `name.md`, and what it finds is
   * such a place.
   */
  lemma FallbackMatchIff(fs: Node, root: Path, name: string)
    ensures FallbackMatch(fs, root, name).Some? <==> exists o, r :: Holds(fs, root, o, r, name + Md)
    ensures FallbackMatch(fs, root, name).Some? ==>
              Holds(fs, root, FallbackMatch(fs, root, name).value.0, FallbackMatch(fs, root, name).value.1, name + Md)
  {
    var owners := ReadDirOrEmpty(fs, root);
    OwnerHoldingIff(fs, root, owners, name + Md);
    if FallbackMatch(fs, root, name).Some? {
      var (o, r) := FallbackMatch(fs, root, name).value;
      assert Holds(fs, root, o, r, name + Md);
    }
    if exists o, r :: Holds(fs, root, o, r, name + Md) {
      var o, r :| Holds(fs, root, o, r, name + Md);
      assert o in owners && IsDirectory(fs, root + [o]) && r in ReadDirOrEmpty(fs, root + [o])
             && IsDirectory(fs, root + [o, r]) && Exists(fs, root + [o, r, name + Md]);
    }
  }

  /** The repository directory `root/owner/r` holds `file`. */
  predicate RepoHit(fs: Node, root: Path, owner: string, r: string, file: string)
  {
    IsDirectory(fs, root + [owner, r]) && Exists(fs, root + [owner, r, file])
  }

  /**
   * The repository walk stops at the first repository in listing order that
   * holds the file: every repository before it does not.
   */
  lemma {:induction false} RepoHoldingFirst(fs: Node, root: Path, owner: string, repos: seq<string>, file: string)
    ensures RepoHolding(fs, root, owner, repos, file).Some? ==>
              exists k :: 0 <= k < |repos| && repos[k] == RepoHolding(fs, root, owner, repos, file).value
                && RepoHit(fs, root, owner, repos[k], file)
                && forall l :: 0 <= l < k ==> !RepoHit(fs, root, owner, repos[l], file)
  {
    if |repos| > 0 && RepoHolding(fs, root, owner, repos, file).Some? {
      if RepoHit(fs, root, owner, repos[0], file) {
        assert repos[0] == RepoHolding(fs, root, owner, repos, file).value;
      } else {
        RepoHoldingFirst(fs, root, owner, repos[1..], file);
        var k :| 0 <= k < |repos[1..]| && repos[1..][k] == RepoHolding(fs, root, owner, repos[1..], file).value
                 && RepoHit(fs, root, owner, repos[1..][k], file)
                 && forall l :: 0 <= l < k ==> !RepoHit(fs, root, owner, repos[1..][l], file);
        forall l | 0 <= l < k + 1 ensures !RepoHit(fs, root, owner, repos[l], file) {
          if l > 0 {
            assert repos[l] == repos[1..][l - 1];
          }
        }
        assert repos[k + 1] == repos[1..][k];
      }
    }
  }

  /**
   * The owner walk stops at the first owner in listing order that is a
   * directory with a repository holding the file: no repository of any
   * earlier owner holds it.
   */
  lemma {:induction false} OwnerHoldingFirst(fs: Node, root: Path, owners: seq<string>, file: string)
    ensures OwnerHolding(fs, root, owners, file).Some? ==>
              var (o, r) := OwnerHolding(fs, root, owners, file).value;
              exists i :: 0 <= i < |owners| && owners[i] == o && IsDirectory(fs, root + [o])
                && RepoHolding(fs, root, o, ReadDirOrEmpty(fs, root + [o]), file) == Some(r)
                && forall j :: 0 <= j < i ==>
                     forall r' :: r' in ReadDirOrEmpty(fs, root + [owners[j]]) && IsDirectory(fs, root + [owners[j]])
                       ==> !RepoHit(fs, root, owners[j], r', file)
  {
    if |owners| > 0 && OwnerHolding(fs, root, owners, file).Some? {
      var o0 := owners[0];
      var repos0 := ReadDirOrEmpty(fs, root + [o0]);
      var inOwner := if IsDirectory(fs, root + [o0]) then RepoHolding(fs, root, o0, repos0, file) else None;
      if inOwner.Some? {
        assert OwnerHolding(fs, root, owners, file).value == (o0, inOwner.value);
      } else {
        if IsDirectory(fs, root + [o0]) {
          RepoHoldingIff(fs, root, o0, repos0, file);
        }
        assert forall r' :: r' in repos0 && IsDirectory(fs, root + [o0]) ==> !RepoHit(fs, root, o0, r', file);
        var rest := owners[1..];
        assert OwnerHolding(fs, root, owners, file) == OwnerHolding(fs, root, rest, file);
        OwnerHoldingFirst(fs, root, rest, file);
        var (o, r) := OwnerHolding(fs, root, rest, file).value;
        var i :| 0 <= i < |rest| && rest[i] == o && IsDirectory(fs, root + [o])
                 && RepoHolding(fs, root, o, ReadDirOrEmpty(fs, root + [o]), file) == Some(r)
                 && forall j :: 0 <= j < i ==>
                      forall r' :: r' in ReadDirOrEmpty(fs, root + [rest[j]]) && IsDirectory(fs, root + [rest[j]])
                        ==> !RepoHit(fs, root, rest[j], r', file);
        forall j | 0 <= j < i + 1
          ensures forall r' :: r' in ReadDirOrEmpty(fs, root + [owners[j]]) && IsDirectory(fs, root + [owners[j]])
                    ==> !RepoHit(fs, root, owners[j], r', file)
        {
          if j > 0 {
            assert owners[j] == rest[j - 1];
          }
        }
        assert owners[i + 1] == rest[i];
      }
    }
  }

  /**
   * The fallback deletes the first hit of the walk: the owner is the first
   * in the listing of `root` with a repository holding `name.md`, and the
   * repository is the first such in that owner's listing.
   */
  lemma FallbackMatchFirst(fs: Node, root: Path, name: string)
    ensures FallbackMatch(fs, root, name).Some? ==>
              var (o, r) := FallbackMatch(fs, root, name).value;
              var owners := ReadDirOrEmpty(fs, root);
              var repos := ReadDirOrEmpty(fs, root + [o]);
              && (exists i :: 0 <= i < |owners| && owners[i] == o
                    && forall j :: 0 <= j < i ==> forall r' :: !Holds(fs, root, owners[j], r', name + Md))
              && (exists k :: 0 <= k < |repos| && repos[k] == r
                    && forall l :: 0 <= l < k ==> !Holds(fs, root, o, repos[l], name + Md))
  {
    var owners := ReadDirOrEmpty(fs, root);
    var file := name + Md;
    if FallbackMatch(fs, root, name).Some? {
      var (o, r) := FallbackMatch(fs, root, name).value;
      var repos := ReadDirOrEmpty(fs, root + [o]);
      OwnerHoldingFirst(fs, root, owners, file);
      var i :| 0 <= i < |owners| && owners[i] == o && IsDirectory(fs, root + [o])
               && RepoHolding(fs, root, o, repos, file) == Some(r)
               && forall j :: 0 <= j < i ==>
                    forall r' :: r' in ReadDirOrEmpty(fs, root + [owners[j]]) && IsDirectory(fs, root + [owners[j]])
                      ==> !RepoHit(fs, root, owners[j], r', file);
      assert forall j :: 0 <= j < i ==> forall r' :: !Holds(fs, root, owners[j], r', file);
      RepoHoldingFirst(fs, root, o, repos, file);
      var k :| 0 <= k < |repos| && repos[k] == r && RepoHit(fs, root, o, repos[k], file)
               && forall l :: 0 <= l < k ==> !RepoHit(fs, root, o, repos[l], file);
      assert forall l :: 0 <= l < k ==> !Holds(fs, root, o, repos[l], file);
    }
  }

  /**
   * `findAndRemoveCommand`: owners, then their repositories, in listing
   * order; the first `name.md` found is deleted with the cascade.
   */
  method FindAndRemoveCommand(name: string, commandsPath: Path, fs: Node) returns (fs': Node, found: Option<(string, string)>)
    ensures found == FallbackMatch(fs, commandsPath, name)
    ensures found.None? ==> fs' == fs
    ensures found.Some? ==> fs' == CascadeRemove(fs, commandsPath, found.value.0, found.value.1, name + Md)
  {
    var file := name + Md;
    var rest := ReadDirOrEmpty(fs, commandsPath);
    while |rest| > 0
      invariant OwnerHolding(fs, commandsPath, rest, file) == FallbackMatch(fs, commandsPath, name)
    {
      var userDir := rest[0];
      var userPath := commandsPath + [userDir];
      if IsDirectory(fs, userPath) {
        var repoDir := FindInOwner(fs, commandsPath, userDir, file);
        if repoDir.Some? {
          fs' := CascadeRemove(fs, commandsPath, userDir, repoDir.value, file);
          found := Some((userDir, repoDir.value));
          return;
        }
      }
      rest := rest[1..];
    }
    fs' := fs;
    found := None;
  }

  /** The walk over one owner's repositories: the first one holding `file`. */
  method FindInOwner(fs: Node, commandsPath: Path, userDir: string, file: string) returns (r: Option<string>)
    ensures r == RepoHolding(fs, commandsPath, userDir, ReadDirOrEmpty(fs, commandsPath + [userDir]), file)
  {
    var rest := ReadDirOrEmpty(fs, commandsPath + [userDir]);
    while |rest| > 0
      invariant RepoHolding(fs, commandsPath, userDir, rest, file)
             == RepoHolding(fs, commandsPath, userDir, ReadDirOrEmpty(fs, commandsPath + [userDir]), file)
    {
      var repoDir := rest[0];
      var repoPath := commandsPath + [userDir, repoDir];
      var commandFile := commandsPath + [userDir, repoDir, file];
      if IsDirectory(fs, repoPath) && Exists(fs, commandFile) {
        return Some(repoDir);
      }
      rest := rest[1..];
    }
    return None;
  }

  /**
   * `removeCommand(name, {global})`: without a commands directory nothing
   * happens; a configuration match takes the configuration branch; otherwise
   * the fallback walk, which never saves the configuration or the lock; no
   * match anywhere is an error.
   */
  method RemoveCommand(name: string, isLocal: bool, fs: Node, storedConfig: Stored<Config>, storedLock: Stored<Lock>, cwd: Path, home: Path)
    returns (out: RemoveOutcome)
    ensures var commandsPath := CommandsPath(isLocal, cwd, home);
            !Exists(fs, commandsPath) ==> out == RemoveOutcome(fs, None, None, Err(NoCommandsDirectory))
    ensures var commandsPath := CommandsPath(isLocal, cwd, home);
            var config := Store.LoadConfig(storedConfig);
            var lock := Store.LoadLock(storedLock);
            Exists(fs, commandsPath) ==>
              match FindInConfig(fs, commandsPath, config, name)
              case Err(e) => out == RemoveOutcome(fs, None, None, Err(e))
              case Ok(Some(m)) =>
                m.repoKey in config.repositories.values
                && -1 <= m.commandIndex < |config.repositories.values[m.repoKey].only|
                && out == RemoveMatched(fs, commandsPath, config, lock, m, home)
              case Ok(None) =>
                match FallbackMatch(fs, commandsPath, name)
                case None => out == RemoveOutcome(fs, None, None, Err(NotFound(name)))
                case Some((user, repo)) =>
                  out == RemoveOutcome(CascadeRemove(fs, commandsPath, user, repo, name + Md), None, None, Ok(user + "/" + repo))
  {
    var commandsPath := CommandsPath(isLocal, cwd, home);
    if !Exists(fs, commandsPath) {
      return RemoveOutcome(fs, None, None, Err(NoCommandsDirectory));
    }
    var config := Store.LoadConfig(storedConfig);
    var lock := Store.LoadLock(storedLock);
    var configResult := FindCommandInConfig(name, config, fs, commandsPath);
    if configResult.Err? {
      return RemoveOutcome(fs, None, None, Err(configResult.error));
    }
    if configResult.value.Some? {
      var m := configResult.value.value;
      FindInKeysFirst(fs, commandsPath, config.repositories, config.repositories.keys, name);
      return RemoveMatched(fs, commandsPath, config, lock, m, home);
    }
    var fs', found := FindAndRemoveCommand(name, commandsPath, fs);
    if found.None? {
      return RemoveOutcome(fs, None, None, Err(NotFound(name)));
    }
    return RemoveOutcome(fs', None, None, Ok(found.value.0 + "/" + found.value.1));
  }
}
