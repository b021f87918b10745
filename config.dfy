/**
 * Loading the configuration and lock documents, and the two merge operations
 * that record an added command: the configuration merges commands by path,
 * the lock merges them by name.
 */
module Config {
  import opened Common
  import opened Dict
  import opened JsString
  import opened Documents
  import opened LockHelpers

  /** The lock format version written into a fresh lock. */
  const CurrentLockfileVersion: int := 3

  /** The configuration used when none can be read: `{repositories: {}}`. */
  function DefaultConfig(): (c: Config)
    ensures c.repositories.keys == [] && c.repositories.values == map[]
  {
    Config(Empty())
  }

  /** The lock used when none can be read: `{lockfileVersion: 3, repositories: {}}`. */
  function DefaultLock(): (l: Lock)
    ensures l.lockfileVersion == 3
    ensures l.repositories.keys == [] && l.repositories.values == map[]
  {
    Lock(CurrentLockfileVersion, Empty())
  }

  /** `loadCccscConfig`: the stored document, or the default when missing or unreadable. */
  function LoadConfig(s: Stored<Config>): (c: Config)
    ensures s.Present? ==> c == s.doc
    ensures !s.Present? ==> c.repositories.values == map[]
  {
    if s.Present? then s.doc else DefaultConfig()
  }

  /** `loadCccscLock`: the stored document, or the default when missing or unreadable. */
  function LoadLock(s: Stored<Lock>): (l: Lock)
    ensures s.Present? ==> l == s.doc
    ensures !s.Present? ==> l.repositories.values == map[] && l.lockfileVersion == 3
  {
    if s.Present? then s.doc else DefaultLock()
  }

  /** The name a command path gets: its last segment with the first ".md" removed. */
  function CommandName(commandPath: string): string
  {
    ReplaceFirst(Last(Split(commandPath, '/')), Md, "")
  }

  /** The first position of a command with path `path`, or -1. */
  function IndexOfPath(only: seq<CommandSpec>, path: string): (i: int)
    ensures -1 <= i < |only|
    ensures i >= 0 ==> only[i].path == path
    ensures i == -1 <==> forall j :: 0 <= j < |only| ==> only[j].path != path
    ensures forall j :: 0 <= j < i ==> only[j].path != path
  {
    if |only| == 0 then -1
    else if only[0].path == path then 0
    else
      var k := IndexOfPath(only[1..], path);
      if k == -1 then -1 else k + 1
  }

  /** No two commands of an entry share a path. */
  predicate DistinctPaths(only: seq<CommandSpec>)
  {
    forall i, j :: 0 <= i < j < |only| ==> only[i].path != only[j].path
  }

  /** Appending a command whose path is new keeps the paths distinct. */
  lemma DistinctPathsAppend(only: seq<CommandSpec>, c: CommandSpec)
    requires DistinctPaths(only)
    requires forall j :: 0 <= j < |only| ==> only[j].path != c.path
    ensures DistinctPaths(only + [c])
  {
  }

  /** Replacing a command by one with the same path keeps the paths distinct. */
  lemma DistinctPathsUpdate(only: seq<CommandSpec>, i: int, c: CommandSpec)
    requires 0 <= i < |only| && only[i].path == c.path
    requires DistinctPaths(only)
    ensures DistinctPaths(only[i := c])
  {
  }

  /** The entry a repository gets when it is first configured. */
  const NewEntry: RepositoryConfig := RepositoryConfig(None, None, None, [])

  /**
   * `addRepositoryToConfig`: load the configuration, make sure the repository
   * has an entry, record the branch when one is given, then either merge the
   * command by path or switch the entry to "every command"; the result is the
   * document saved.
   */
  method AddRepositoryToConfig(
    stored: Stored<Config>, user: string, repo: string,
    commandPath: Option<string>, alias: Option<string>, branch: Option<string>)
    returns (saved: Config)
    ensures var before := LoadConfig(stored).repositories;
            var key := RepoKey(user, repo);
            var old_entry := Get(before, key).GetOr(NewEntry);
            && key in saved.repositories.values
            && saved.repositories.keys == (if key in before.values then before.keys else before.keys + [key])
            && (forall k :: k != key ==> Get(saved.repositories, k) == Get(before, k))
            && var entry := saved.repositories.values[key];
            && entry.branch == (if Given(branch) then branch else old_entry.branch)
            && entry.version == old_entry.version
            && entry.tag == old_entry.tag
            && (!Given(commandPath) ==> entry.only == [])
            && (Given(commandPath) ==>
                  var path := commandPath.value;
                  var i := IndexOfPath(old_entry.only, path);
                  if i == -1 then
                    entry.only == old_entry.only + [CommandSpec(CommandName(path), path, OrNull(alias))]
                  else
                    && |entry.only| == |old_entry.only|
                    && entry.only[i] == old_entry.only[i].(alias :=
                         if alias == old_entry.only[i].alias then alias else OrNull(alias))
                    && forall j :: 0 <= j < |entry.only| && j != i ==> entry.only[j] == old_entry.only[j])
            && (DistinctPaths(old_entry.only) ==> DistinctPaths(entry.only))
  {
    var config := LoadConfig(stored);
    var key := RepoKey(user, repo);
    var entry := NewEntry;
    if key in config.repositories.values {
      entry := config.repositories.values[key];
    }
    ghost var old_entry := entry;
    if Given(branch) {
      entry := entry.(branch := branch);
    }
    if Given(commandPath) {
      var path := commandPath.value;
      var originalName := CommandName(path);
      var i := IndexOfPath(entry.only, path);
      if i == -1 {
        if DistinctPaths(entry.only) {
          DistinctPathsAppend(entry.only, CommandSpec(originalName, path, OrNull(alias)));
        }
        entry := entry.(only := entry.only + [CommandSpec(originalName, path, OrNull(alias))]);
      } else if alias != entry.only[i].alias {
        if DistinctPaths(entry.only) {
          DistinctPathsUpdate(entry.only, i, entry.only[i].(alias := OrNull(alias)));
        }
        entry := entry.(only := entry.only[i := entry.only[i].(alias := OrNull(alias))]);
      }
    } else {
      entry := entry.(only := []);
    }
    config := config.(repositories := Put(config.repositories, key, entry));
    saved := config;
  }

  /**
   * `addRepositoryToLock`: the repository's lock entry gets the new revision
   * and a copy of its previous `only` list; a named command then replaces the
   * first item with its name or is appended. The entry keeps `revision` and
   * `only` and nothing else; the result is the document saved.
   */
  method AddRepositoryToLock(
    stored: Stored<Lock>, user: string, repo: string, revision: string,
    commandPath: Option<string>, alias: Option<string>)
    returns (saved: Lock)
    ensures var before := LoadLock(stored);
            var key := RepoKey(user, repo);
            var base := if key in before.repositories.values then before.repositories.values[key].only else [];
            && saved.lockfileVersion == before.lockfileVersion
            && key in saved.repositories.values
            && saved.repositories.keys ==
                 (if key in before.repositories.values then before.repositories.keys
                  else before.repositories.keys + [key])
            && (forall k :: k != key ==> Get(saved.repositories, k) == Get(before.repositories, k))
            && var entry := saved.repositories.values[key];
            && entry.revision == revision
            && (!Given(commandPath) ==> entry.only == base)
            && (Given(commandPath) ==>
                  var path := commandPath.value;
                  var name := CommandName(path);
                  var i := FindCommandIndex(base, name);
                  if i == -1 then entry.only == base + [Spec(name, path, alias)]
                  else entry.only == base[i := Spec(name, path, alias)])
  {
    var lock := LoadLock(stored);
    var key := RepoKey(user, repo);
    var existing := Get(lock.repositories, key);
    var entry := RepositoryLockInfo(revision, []);
    if existing.Some? {
      entry := entry.(only := existing.value.only);
    }
    if Given(commandPath) {
      var path := commandPath.value;
      var name := CommandName(path);
      var i := FindCommandIndex(entry.only, name);
      if i != -1 {
        entry := entry.(only := entry.only[i := Spec(name, path, alias)]);
      } else {
        entry := entry.(only := entry.only + [Spec(name, path, alias)]);
      }
    } else if existing.None? || |existing.value.only| == 0 {
      entry := entry.(only := []);
    }
    lock := lock.(repositories := Put(lock.repositories, key, entry));
    saved := lock;
  }

  /** `getRepositoryFromLock`: the repository's lock entry, or null. */
  function GetRepositoryFromLock(stored: Stored<Lock>, user: string, repo: string): (r: Option<RepositoryLockInfo>)
    ensures r.Some? <==> RepoKey(user, repo) in LoadLock(stored).repositories.values
    ensures r.Some? ==> r.value == LoadLock(stored).repositories.values[RepoKey(user, repo)]
    ensures !stored.Present? ==> r.None?
  {
    Get(LoadLock(stored).repositories, RepoKey(user, repo))
  }

  /** A command file `name + ".md"` at the top of a repository is named `name`. */
  lemma CommandNameOfInstalledFile(name: string)
    requires '/' !in name && !Includes(name, Md)
    ensures CommandName(name + Md) == name
  {
    assert '/' !in name + Md;
    SplitSingle(name + Md, '/');
    StripMdAppended(name);
  }
}
