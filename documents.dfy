/**
 * The two persisted documents: the configuration (what the user asked for)
 * and the lock (what was installed, pinned to a revision), after the shapes
 * declared in src/types/index.d.ts.
 */
module Documents {
  import opened Common
  import opened Dict

  /** An optional string that JavaScript treats as true: present and non-empty. */
  predicate Given(s: Option<string>)
  {
    s.Some? && s.value != ""
  }

  /** `s || null`. */
  function OrNull(s: Option<string>): (r: Option<string>)
    ensures Given(s) ==> r == s
    ensures !Given(s) ==> r == None
  {
    if Given(s) then s else None
  }

  /** One command of a configuration entry: `{name, path, alias}`. */
  datatype CommandSpec = CommandSpec(name: string, path: string, alias: Option<string>)

  /**
   * One item of a lock entry's `only` list: a legacy bare command name, or a
   * `{name, path, alias}` object. Both carry a `name`.
   */
  datatype OnlyItem =
    | Legacy(name: string)
    | Spec(name: string, path: string, alias: Option<string>)

  /** A configuration entry; an empty `only` means "every command". */
  datatype RepositoryConfig = RepositoryConfig(
    branch: Option<string>,
    version: Option<string>,
    tag: Option<string>,
    only: seq<CommandSpec>)

  datatype Config = Config(repositories: Dict<RepositoryConfig>)

  datatype RepositoryLockInfo = RepositoryLockInfo(revision: string, only: seq<OnlyItem>)

  datatype Lock = Lock(lockfileVersion: int, repositories: Dict<RepositoryLockInfo>)

  /** What a document file holds: nothing, something unreadable, or a document. */
  datatype Stored<T> = Missing | Unreadable | Present(doc: T)

  /** The key of a repository: "owner/repo". */
  function RepoKey(user: string, repo: string): string
  {
    user + "/" + repo
  }
}
