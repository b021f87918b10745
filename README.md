# jumon (cccsc): a verified model of the command installer

jumon installs Claude slash commands. These are Markdown files kept in GitHub
repositories. It copies them into a commands directory, `.claude/commands/cccsc/<user>/<repo>/`,
which lives in the working directory (local scope) or the home directory (global scope).
It records what it installed in two files:

- a configuration file, `cccsc.json`: the repositories and the commands chosen from each;
- a lock file, `cccsc-lock.json`: the resolved commit of each repository.

Four commands drive it:
- `add` installs one command, or every Markdown file of a repository, refusing name conflicts;
- `update` resolves new revisions, previews a line diff, asks once, then writes and re-locks;
- `list` walks the commands directory;
- `remove` deletes a command, from the configuration or else by walking the directory.

The model is in Dafny. Every piece of state is a value that is passed in and handed back:

- the filesystem is one tree of directories and files (`FileTree`);
- GitHub is a `Remote` value: branch heads, tags, file contents and a directory listing;
- the configuration and the lock are documents (`Documents`), keyed in insertion order like a JavaScript object (`Dict`).

Each source loop becomes a `method` with a `while` loop. The method is proved equal to a
recursive specification function, and the properties the program promises are lemmas
about those functions.

Modules, one per source file, plus shared helpers:

| module | models |
|---|---|
| `Config` | `src/utils/config.js`: loading, defaults, adding to the configuration and the lock |
| `LockHelpers` | `src/utils/lock-helpers.js`: legacy and object `only` entries |
| `GitHub` | `src/utils/github.js` and the revision resolver of `src/commands/update.js` |
| `Repository`, `CommandParams` | the validators of `src/utils/repository.js` and `src/utils/command-params.js`, over dynamic JSON values (`JsValue`) |
| `ErrorTypes` | `src/utils/error-types.js` |
| `Paths` | `src/utils/paths.js` |
| `AddCmd`, `UpdateCmd`, `List`, `RemoveCmd` | the four commands |

The helper modules model JavaScript and Node built-ins: `JsString` for `split`, `join`, `replace`,
`includes`, `toLowerCase`, `trim` and `path.basename`; `FileTree` for the fs-extra calls.

## Model

| member | source | states |
|---|---|---|
| Config.DefaultConfig | src/utils/config.js:19-21 | a missing configuration reads as one with no repositories |
| Config.DefaultLock | src/utils/config.js:41-44 | a missing lock reads as lockfile version 3 with no repositories |
| Config.LoadConfig | src/utils/config.js:8-22 | a present configuration is returned as stored; an absent or unreadable one is empty |
| Config.LoadLock | src/utils/config.js:30-45 | a present lock is returned as stored; an absent or unreadable one is empty, at version 3 |
| Config.IndexOfPath | src/utils/config.js:76 | the first command whose path matches, or -1 exactly when none matches |
| Config.AddRepositoryToConfig | src/utils/config.js:53-94 | the saved configuration gains the key at the end, or keeps its position when present; other keys are unchanged; the branch is overwritten only when given; version and tag are kept; without a command path `only` is emptied; with one, an existing entry for that path has its alias replaced (null when empty) in place, otherwise a new entry is appended; distinct paths stay distinct |
| Config.AddRepositoryToLock | src/utils/config.js:97-147 | the lockfile version is kept; the key keeps its position or is appended; other keys are unchanged; the revision is overwritten; the previous `only` list is copied; with a command path, the first item with the command's name (string or object) is replaced by an object entry, or the entry is appended; without one the list is kept |
| Config.GetRepositoryFromLock | src/utils/config.js:149-152 | the entry under `user/repo` exactly when one is present; nothing when there is no lock |
| Config.CommandNameOfInstalledFile | src/utils/config.js:75 | the command name of `name.md` is `name` |
| LockHelpers.NormalizeOnlyItem | src/utils/lock-helpers.js:12-24 | a legacy name becomes an object entry with `path` = name + ".md" and no alias; an object entry is unchanged; the name is kept |
| LockHelpers.NormalizeIdempotent | src/utils/lock-helpers.js:12-24 | normalising twice is normalising once |
| LockHelpers.NormalizeAll | src/utils/lock-helpers.js:12-24 | item-wise normalisation, length preserved |
| LockHelpers.FindCommandIndex | src/utils/lock-helpers.js:34-38 | the first index whose name matches, or -1 exactly when no name matches |
| LockHelpers.FindCommandIndexNormalized | src/utils/lock-helpers.js:34-38 | normalising the list first gives the same index |
| LockHelpers.CommandExists | src/utils/lock-helpers.js:48-49 | true exactly when some entry has the name |
| Paths.CommandsPath | src/utils/paths.js:5-15 | the local scope uses `<cwd>/.claude/commands/cccsc`, the global one `<home>/.claude/commands/cccsc` |
| Paths.DefaultScopeIsGlobal | src/utils/paths.js:13-15 | with no scope given the global directory is used |
| Paths.CommandsInsideClaudeDir | src/utils/paths.js:33-50 | the commands directory lies two levels below the `.claude` directory the scope checks |
| Paths.ConfigPath | src/utils/paths.js:17-23 | `<cwd>/cccsc.json` locally, `<home>/.cccsc/cccsc.json` globally |
| Paths.LockPath | src/utils/paths.js:25-31 | `<cwd>/cccsc-lock.json` locally, `<home>/.cccsc/cccsc-lock.json` globally |
| Paths.ConfigAndLockSiblings | src/utils/paths.js:17-31 | configuration and lock sit in the same directory and are different files |
| Paths.CheckClaudeDir | src/utils/paths.js:33-43 | succeeds exactly when `<base>/.claude` exists, and fails naming the scope otherwise |
| Paths.EnsureCommandsDir | src/utils/paths.js:45-50 | without `.claude` nothing is created and the scope's error is returned; on success the commands directory exists and every path apart from it is unchanged |
| Paths.EnsureConfigDir | src/utils/paths.js:52-56 | the local scope creates nothing; the global one makes `<home>/.cccsc` a directory |
| Repository.ParseRepositoryKey | src/utils/repository.js:11-26 | a non-string is rejected; accepted keys are exactly `user/repo` with two non-empty slash-free parts; other strings are rejected as malformed |
| Repository.ParseRepositoryKeyAccepts | src/utils/repository.js:11-26 | every well-formed `user/repo` parses back into its parts |
| Repository.ValidateRepositoryConfig | src/utils/repository.js:33-59 | an accepted configuration is an object, and its version is absent or a string |
| Repository.ValidateRepositoryConfigCases | src/utils/repository.js:33-59 | valid exactly when the value is an object or array and each optional field has the required type (a falsy branch or `only` is allowed, an undefined version or tag is allowed) |
| Repository.NormalizeRepositoryConfig | src/utils/repository.js:66-76 | an error exactly when validation fails; otherwise an object with exactly branch, version, tag and only, where the branch defaults to "main", `only` to [] and falsy version or tag to null |
| Repository.NormalizeThenValidate | src/utils/repository.js:33-76 | a normalised configuration validates again exactly when both version and tag were set, since a null version or tag is rejected |
| Repository.NormalizeNotIdempotent | src/utils/repository.js:33-76 | normalising `{}` succeeds, but normalising the result fails, because a null version does not validate |
| CommandParams.OptionalString | src/utils/command-params.js:36-45 | a falsy value becomes null; a truthy one becomes its string form |
| CommandParams.CreateAddParams | src/utils/command-params.js:36-45 | exactly the six fields; user and repo as strings, optional fields through the null rule, isLocal as a boolean |
| CommandParams.CreateLockParams | src/utils/command-params.js:58-67 | exactly the six fields, with the revision as a string |
| CommandParams.ValidateCommandParams | src/utils/command-params.js:75-94 | accepted parameters have a non-empty string user and repo |
| CommandParams.ValidateCommandParamsCases | src/utils/command-params.js:75-93 | valid exactly when the value is an object or array with non-empty string user and repo and, when the key is present, a non-empty string revision |
| CommandParams.ValidAddParams | src/utils/command-params.js:36-45 | built add parameters are valid exactly when user and repo have non-empty string forms |
| CommandParams.ValidLockParams | src/utils/command-params.js:58-67 | built lock parameters are valid exactly when user, repo and revision have non-empty string forms |
| ErrorTypes.Code | src/utils/error-types.js:5-30 | every error type has a non-empty code |
| ErrorTypes.CodeInjective | src/utils/error-types.js:5-30 | no two error types share a code |
| ErrorTypes.ClassifyError | src/utils/error-types.js:38-83 | a config or lock context yields a parse, not-found, permission or read error; a github or network one an authentication, network or GitHub API error; any other a command-path, not-found, permission, disk-space or unknown error |
| ErrorTypes.ClassifyConfigContext | src/utils/error-types.js:42-53 | in a config context: parse or JSON means a parse error, then not-found, then permission, else a read error |
| ErrorTypes.ClassifyRemoteContext | src/utils/error-types.js:56-64 | in a github or network context: a message containing "unauthorized" or "auth" means an authentication error, then "network" or "timeout" a network error, else a GitHub API error |
| ErrorTypes.ClassifyOtherContext | src/utils/error-types.js:67-82 | elsewhere, each category exactly when its words occur and no earlier category's do: an invalid command path, then not-found, then permission, then disk space, else unknown; so "permission" wins over "enospc" |
| ErrorTypes.ClassifyNeverYields | src/utils/error-types.js:38-83 | the classifier never produces the types that only callers raise |
| ErrorTypes.ClassifyIgnoresMessageCase | src/utils/error-types.js:38-40 | the message is compared in lower case |
| ErrorTypes.ClassifyContextCaseSensitive | src/utils/error-types.js:42 | the context is not lower-cased: "Config" is not a config context |
| GitHub.ParseRepositoryPath | src/utils/github.js:3-15 | an error exactly when there is no '/'; user and repo are the first two segments; the command path is the rest, rejoined with '/', and absent when empty |
| GitHub.LatestCommit | src/utils/github.js:17-32 | the head of the branch when it exists; for a missing "main" the head of "master" is tried; any other missing branch is an error |
| GitHub.StripVersionOperators | src/commands/update.js:12 | removes the leading run of `~^>=<` and white space, and nothing else |
| GitHub.StripVersionOperatorsIdempotent | src/commands/update.js:12 | stripping twice is stripping once |
| GitHub.RevisionPrecedence | src/utils/github.js:95-117 | a resolvable version tag wins, then a resolvable tag; with a version, the tag field is irrelevant |
| GitHub.UpdateRevisionFromVersion | src/commands/update.js:10-19 | in the update resolver a resolvable version tag, operators stripped, wins |
| GitHub.UpdateRevisionFromTag | src/commands/update.js:22-30 | without a version, a resolvable tag wins |
| GitHub.UpdateRevisionIgnoresBranch | src/commands/update.js:9-37 | with a version or tag set, the configured branch plays no part |
| GitHub.UpdateRevisionFollowsBranch | src/commands/update.js:32-36 | with neither set, it agrees with the github.js resolver, which follows the branch or "main" |
| GitHub.UpdateRevisionKnown | src/commands/update.js:9-37 | every result is a known tag or branch head |
| GitHub.ResolveRevisionForUpdate | src/commands/update.js:9-37 | it fails only on a missing branch, and with a version or tag set only when neither "main" nor "master" exists |
| GitHub.ResolveRevision | src/utils/github.js:95-117 | it fails only on a missing branch; every result is a known tag or branch head |
| GitHub.ResolversAgreeOnDefaultBranch | src/commands/update.js:9-37 | the two resolvers agree when no branch other than "main" is configured |
| GitHub.ResolversDisagreeOnFallback | src/commands/update.js:20-31 | with branch "dev" and a missing tag, github.js picks the head of "dev" and update.js the head of "main" |
| GitHub.FileContent | src/utils/github.js:53-66 | succeeds exactly when the file exists, with its content |
| GitHub.FindMarkdownFilesIn | src/utils/github.js:68-93 | the recursive walk succeeds exactly when `ListingFiles` does and then returns its files; any unlistable subdirectory fails the whole walk |
| GitHub.FindMarkdownFiles | src/utils/github.js:68-93 | the walk from the repository root |
| GitHub.ListingFilesShape | src/utils/github.js:74-86 | every file found has a path ending in ".md" that lies under the directory being walked |
| GitHub.KeptInListing | src/utils/github.js:75-81 | every Markdown file of a listing is in the result, at its relative path, named with its first ".md" removed |
| GitHub.ListingFilesMembership | src/utils/github.js:68-93 | when the walk succeeds, a file is returned exactly when it is a `.md` file item somewhere in the tree, nested directories included, kept under its path relative to the root and its name without the first ".md" |
| GitHub.EntryFilesMembership | src/utils/github.js:75-85 | the files one item contributes are exactly the Markdown files below it |
| GitHub.ListingHoldsSome | src/utils/github.js:74-86 | a file lies below a listing exactly when it lies below one of its items |
| GitHub.TopLevelFileKept | src/utils/github.js:75-81 | every Markdown file at the root is found |
| GitHub.NoneSpreads | src/utils/github.js:82-91 | one unlistable subdirectory makes the whole listing fail |
| GitHub.FetchPath | src/commands/add.js:37 | the fetched path always ends in ".md", and ".md" is added only when missing |
| AddCmd.CheckCommandConflict | src/commands/add.js:7-27 | the loop over the directory's entries, looking one level into each subdirectory, returns what `CheckConflict` defines: the first `name.md` hit, or a failure for an entry `stat` cannot read |
| AddCmd.ConflictIn | src/commands/add.js:10-26 | the only error the check gives is a failed `stat` |
| AddCmd.ListsName | src/commands/add.js:16-20 | the scan of a subdirectory finds the target exactly when the listing holds it |
| AddCmd.ConflictInSound | src/commands/add.js:7-27 | a reported path is a top-level file with the name, or a file with the name one level down; no report means every entry was stat-able and neither case holds; an error means some entry could not be stat-ed |
| AddCmd.ConflictInFirst | src/commands/add.js:7-27 | the check stops at the first entry in listing order that is a hit or cannot be stat-ed: every earlier entry was stat-able and no hit; a reported path is that entry's hit; an error names that entry |
| AddCmd.ClearIsNoConflict | src/commands/add.js:7-27 | when every entry can be read and none is a hit, no conflict is reported |
| AddCmd.ConflictMissesDepthThree | src/commands/add.js:7-27 | for any tree with no hit in the first two levels, a command file installed at `<dir>/<o>/<r>/<name>.md` is not reported |
| AddCmd.InstallName | src/commands/add.js:38 | the alias when given, else the basename of the command path |
| AddCmd.InstallNameKeepsExtension | src/commands/add.js:38 | a command path ending in `x.md` installs under the name `x.md` |
| AddCmd.SingleAdd | src/commands/add.js:36-64 | a run records effects exactly when it succeeds |
| AddCmd.SingleAddSucceeds | src/commands/add.js:36-64 | on success the fetched file exists and holds the fetched content at `<dir>/<user>/<repo>/<name>.md`; the effects are, in order, the write, the configuration update with the alias, and the lock update |
| AddCmd.AliasOverridesConflict | src/commands/add.js:44-50 | with an alias a conflict never stops the install |
| AddCmd.ConflictStopsSingleAdd | src/commands/add.js:44-50 | a conflict stops the install only without an alias, before anything is written or recorded, after the target directory was created |
| AddCmd.BatchConflictsEmpty | src/commands/add.js:77-83 | no conflicts exactly when every file's check finds nothing |
| AddCmd.BatchErrorSpreads | src/commands/add.js:77-83 | a stat failure in the conflict loop aborts the whole loop |
| AddCmd.GatherConflicts | src/commands/add.js:77-83 | the loop returns what `BatchConflicts` defines: every listed file's conflict, in listing order, or the first failing check |
| AddCmd.InstallFiles | src/commands/add.js:96-107 | the loop reaches `InstallAll`'s tree and effects: each file fetched and written in listing order, a failed fetch or write skipping that file only |
| AddCmd.InstallAllEffects | src/commands/add.js:96-107 | the loop never updates the configuration; each write targets some listed file's name and only happens when the file can be fetched |
| AddCmd.InstallAllWrites | src/commands/add.js:96-107 | when the target directory is a directory and each target is absent or a file, every listed file the repository serves is written and locked, whatever happens to the other files |
| AddCmd.InstallOneWritable | src/commands/add.js:97-104 | installing one file keeps the target directory listable and every target writable |
| AddCmd.BatchAdd | src/commands/add.js:65-111 | a run records effects exactly when it succeeds |
| AddCmd.BatchAddGate | src/commands/add.js:77-111 | all or nothing: any effect implies every file passed the conflict check, and the configuration update comes last, once, without an alias |
| AddCmd.EmptyRepositoryIsAnError | src/commands/add.js:68-71 | a repository without Markdown files is an error and changes nothing |
| AddCmd.AddSpec | src/commands/add.js:29-115 | the command records effects exactly when it succeeds |
| AddCmd.AddSingleCommand | src/commands/add.js:36-64 | the single-command flow, step by step, reaches the outcome `SingleAdd` describes |
| AddCmd.AddAllCommands | src/commands/add.js:65-111 | the whole-repository flow, step by step, reaches the outcome `BatchAdd` describes |
| AddCmd.AddCommand | src/commands/add.js:29-115 | a path that does not parse fails before anything is touched; otherwise the single or the whole-repository flow runs, as `AddSpec` describes |
| UpdateCmd.SimpleDiff | src/commands/update.js:53-84 | no diff exactly when the split texts agree line by line (a missing line reads as empty); a diff is longer than its three-line header, which it starts with |
| UpdateCmd.DiffStepGrows | src/commands/update.js:63-80 | one round of the diff only appends lines; a differing line always turns change tracking on; an equal line outside a change run changes nothing |
| UpdateCmd.CreateSimpleDiff | src/commands/update.js:53-84 | the line loop builds the diff `SimpleDiff` defines: a header and the differing lines, `None` when every line agrees |
| UpdateCmd.DiffAfterShape | src/commands/update.js:57-81 | after each round the diff starts with its header and has grown exactly when some line differed |
| UpdateCmd.DiffContextRule | src/commands/update.js:74-80 | two context lines in a row only occur while fewer than three context lines precede them, in the whole diff: once three are shown, later runs show at most one |
| UpdateCmd.NoDiffOfSameText | src/commands/update.js:53-84 | identical texts have no diff |
| UpdateCmd.TrailingNewlineIsNoChange | src/commands/update.js:63-66 | adding a trailing newline changes the text but yields no diff |
| UpdateCmd.LocalContent | src/commands/update.js:101-104 | a missing local file reads as empty text |
| UpdateCmd.PreviewFile | src/commands/update.js:95-161 | a reported change carries the fetched text, the candidate's name, the local path `<target>/<name>.md`, and a local text that is readable and differs |
| UpdateCmd.PreviewCandidates | src/commands/update.js:95-162 | the loop over candidate files yields the changes `PreviewAll` defines, in candidate order |
| UpdateCmd.PreviewAllSound | src/commands/update.js:95-162 | every reported change belongs to a candidate: fetched content, the local file's path, a diff, and "new" exactly when the local text is empty |
| UpdateCmd.PreviewAllComplete | src/commands/update.js:95-162 | every fetchable, readable candidate whose lines differ is reported |
| UpdateCmd.ConfiguredCandidates | src/commands/update.js:93-99 | with configured commands, each is fetched at its path with ".md" ensured and compared under its name |
| UpdateCmd.FilterOnlyMembers | src/commands/update.js:128-132 | the lock filter keeps exactly the files whose name is a legacy string entry |
| UpdateCmd.ListedCandidates | src/commands/update.js:127-137 | without lock entries the candidates are the listed files, position by position; every candidate is a listed file, named by the lock when it has entries; every listed file the lock names is a candidate |
| UpdateCmd.PreviewRespectsLockOnly | src/commands/update.js:125-137 | with lock entries, every change is a listed file named by a legacy string entry |
| UpdateCmd.Preview | src/commands/update.js:86-166 | a preview succeeds only when the commands directory exists or could be made and the key names a repository, and, without configured commands, only when the repository could be listed |
| UpdateCmd.CheckRepository | src/commands/update.js:203-249 | an update is kept exactly when the revision resolves, differs from the locked one (or nothing is locked) and the preview succeeds, also with no file changes; it carries its own key, the resolved revision and the preview's changes |
| UpdateCmd.CheckRepositories | src/commands/update.js:202-250 | the first pass over the configured repositories, in key order, yields the updates and tree `CheckAll` defines |
| UpdateCmd.CheckAllPicks | src/commands/update.js:202-250 | the repositories kept have distinct keys, are configured, carry the revision the resolver gives, and differ from the locked revision; every configured repository that qualifies on the tree the earlier checks left is kept |
| UpdateCmd.CheckAllQueues | src/commands/update.js:224-241 | a qualifying repository is queued with its resolved revision and exactly its preview's changes, empty or not |
| UpdateCmd.UpToDateIsSkipped | src/commands/update.js:211-217 | a repository already at its locked revision is skipped: nothing is previewed and the tree is untouched |
| UpdateCmd.ApplyChanges | src/commands/update.js:168-183 | the write loop reaches `ApplyAll`'s tree and installed names, in change order |
| UpdateCmd.ApplyAllNames | src/commands/update.js:168-183 | the names reported are exactly the names of the changes at the positions whose write succeeded, in change order; none is invented; when every write succeeds, every change's name is reported in order |
| UpdateCmd.OutcomesAt | src/commands/update.js:171-180 | the success flag recorded for change `i` is whether its directory creation and write succeed on the tree the earlier changes left |
| UpdateCmd.PositionsShape | src/commands/update.js:171-180 | the positions listed are increasing and are exactly those whose write succeeded |
| UpdateCmd.ApplyAllExact | src/commands/update.js:168-183 | the names reported are the changes' names filtered by their success flags |
| UpdateCmd.ApplyFileWrites | src/commands/update.js:173-174 | a successful write leaves the new content at the file's path |
| UpdateCmd.ApplyUpdates | src/commands/update.js:287-308 | the apply loop reaches `ApplyRepos`'s tree and lock: each repository's files, then its lock entry, in update order |
| UpdateCmd.ApplyReposLock | src/commands/update.js:287-308 | every updated repository records its new revision; other repositories and the lockfile version are unchanged |
| UpdateCmd.UpdatedEntryOnly | src/commands/update.js:297-300 | with names written, the new `only` is exactly those names as bare strings, in order; with none, it is the previous entry's `only` when the key is locked, and empty when it is not |
| UpdateCmd.UpdatedEntry | src/commands/update.js:297-300 | the new entry carries the new revision, and one `only` item per written name when any was written |
| UpdateCmd.UpdateCommand | src/commands/update.js:185-320 | the command reaches the outcome `UpdateSpec` describes: the first pass, a confirmation asked for only when some file changed, then the apply pass, and the lock saved only when the apply ran |
| UpdateCmd.EmptyConfigDoesNothing | src/commands/update.js:191-194 | an empty configuration touches nothing |
| UpdateCmd.UpdateSavesOnlyWhenApplied | src/commands/update.js:252-311 | the lock is saved exactly when updates are applied |
| UpdateCmd.UpdateSavedLock | src/commands/update.js:252-311 | a saved lock means some repository changed revision and, when any file changed, the reply confirmed; the saved lock is the result of the apply loop |
| UpdateCmd.UpdatedLockEntries | src/commands/update.js:287-311 | in the saved lock each picked repository records its resolved revision, every configured repository whose revision changed and whose preview succeeded is recorded with its new revision, the lock version is kept and every other entry is as it was |
| UpdateCmd.QualifiedIsRecorded | src/commands/update.js:224-232 | a repository whose revision changed is recorded in the saved lock with the new revision even when none of its files changed |
| UpdateCmd.CancelWritesNothing | src/commands/update.js:258-280 | a declined reply leaves the tree as the first pass left it and saves nothing |
| UpdateCmd.Confirms | src/commands/update.js:274-279 | an empty reply never confirms |
| UpdateCmd.ConfirmsAnyPadding | src/commands/update.js:274-279 | every casing of "y" or "yes", with any white space before and after it, confirms, because the reply is lower-cased and trimmed |
| UpdateCmd.EmptyReplyDeclines | src/commands/update.js:274-279 | an empty reply and "n" decline |
| UpdateCmd.AnswerMattersOnlyWithChanges | src/commands/update.js:258-280 | the reply is consulted only when some file changed |
| List.ListCommandsInDirectory | src/commands/list.js:6-69 | the three-level walk returns `ListedCommands` (every `owner/repo/*.md`, in listing order); a missing directory lists nothing |
| List.ListOwnerDirectory | src/commands/list.js:18-54 | the loop over an owner's repositories returns `OwnerCommands`, in listing order |
| List.ListRepoDirectory | src/commands/list.js:26-49 | the loop over a repository directory's files returns `RepoCommands`: its `.md` files, in listing order |
| List.ListedCommandsMembership | src/commands/list.js:6-69 | a command is listed exactly when some owner directory, repository directory and ".md" file produce it |
| List.ListedIsInstalled | src/commands/list.js:6-69 | every listed command is a ".md" file at depth three |
| List.InstalledIsListed | src/commands/list.js:6-69 | every ".md" file at depth three in listable directories is listed |
| List.Scopes | src/commands/list.js:73-85 | `--global` alone lists the global scope; `--local` alone the local one; neither or both list local then global |
| List.ListCommand | src/commands/list.js:71-89 | one section per selected scope, in order, each listing its own commands directory |
| RemoveCmd.KeyParts | src/commands/remove.js:147-148 | no parts exactly when the key has no '/' |
| RemoveCmd.KeyPartsOfRepoKey | src/commands/remove.js:147-148 | a key built as `user/repo` (src/utils/config.js:60) from two parts without '/' splits back into those two parts |
| RemoveCmd.FindByNameOrAlias | src/commands/remove.js:14-16 | the first command whose name or alias matches, or -1 exactly when none matches |
| RemoveCmd.MatchInEntry | src/commands/remove.js:12-37 | an entry with commands matches its first command with that name or alias; a whole-repository entry matches, with index -1, exactly when `<user>/<repo>/<name>.md` exists; an error exactly for a whole-repository entry whose key has no '/' |
| RemoveCmd.FindInKeysFirst | src/commands/remove.js:11-41 | the earliest matching repository in configuration order wins; no match means no entry matched |
| RemoveCmd.FindCommandInConfig | src/commands/remove.js:6-42 | the loop over the configuration's entries, in key order, returns the first entry's match or failure, as `FindInConfig` defines |
| RemoveCmd.CascadeFrame | src/commands/remove.js:151-166 | the file is gone, and every path apart from it leads where it did, since directories are removed only once empty |
| RemoveCmd.CascadeRemovesFile | src/commands/remove.js:151-166 | after the cascade nothing is left at the command file's path |
| RemoveCmd.CascadeRepoDirectory | src/commands/remove.js:155-158 | the repository directory is removed when deleting the file left it empty, and nothing else changes when it did not |
| RemoveCmd.MdFiles | src/commands/remove.js:71 | exactly the names ending in ".md" |
| RemoveCmd.RemoveFromLock | src/commands/remove.js:44-81 | it fails exactly on a whole-repository entry whose key has no '/', where the source's path join throws; otherwise the version is kept, an absent key or no change leaves the lock as it was, and other keys are unchanged |
| RemoveCmd.IndexOfLegacy | src/commands/remove.js:51 | the first index holding the bare name, -1 exactly when none does; object items never match |
| RemoveCmd.RemoveFromLockListed | src/commands/remove.js:50-61 | with an `only` list, a change happens exactly when a legacy string equals the name; the first such is removed, the rest kept in order with the revision, and the entry goes when the list empties |
| RemoveCmd.RemoveFromLockWholeRepository | src/commands/remove.js:62-78 | a whole-repository entry goes exactly when its directory under the global commands path exists and holds at most one ".md" file |
| RemoveCmd.RemoveFromLockIgnoresObjects | src/commands/remove.js:50-53 | an object entry with the name is not removed from the lock |
| RemoveCmd.ConfigAfterRemoval | src/commands/remove.js:168-180 | other repositories are unchanged; a whole-repository match deletes the key; a command match deletes that one command, and the entry when none remain |
| RemoveCmd.RemovedExactlyOne | src/commands/remove.js:174 | deleting index i removes exactly that element and keeps the order |
| RemoveCmd.RemoveMatched | src/commands/remove.js:144-190 | a malformed key is an error that changes nothing; with a well-formed key the configuration after removal and the lock are always saved, the lock being `RemoveFromLock` under the entry's own name on the tree after the file deletion |
| RemoveCmd.RemoveMatchedFrame | src/commands/remove.js:144-166 | only the command's file and the directories it empties can change |
| RemoveCmd.RepoHoldingIff | src/commands/remove.js:83-125 | the repository search finds a holder exactly when one holds the file, and what it finds holds it |
| RemoveCmd.OwnerHoldingIff | src/commands/remove.js:83-125 | the owner search finds a holder exactly when one holds the file |
| RemoveCmd.FallbackMatchIff | src/commands/remove.js:83-125 | the fallback finds `name.md` exactly when some owner and repository directory hold it |
| RemoveCmd.FindInOwner | src/commands/remove.js:91-100 | the loop over one owner's repositories, in listing order, stops at the first directory that holds the command file, as `RepoHolding` defines |
| RemoveCmd.FindAndRemoveCommand | src/commands/remove.js:83-125 | the walk finds what `FallbackMatch` defines; without a match nothing changes; with one, the file is removed and then empty directories cleaned up |
| RemoveCmd.FallbackMatchFirst | src/commands/remove.js:83-125 | the match is the first owner in listing order with a repository holding `name.md`, and the first such repository of that owner |
| RemoveCmd.OwnerHoldingFirst | src/commands/remove.js:86-122 | the owner found is the first directory in the listing with a holding repository; no earlier owner's repository holds the file |
| RemoveCmd.RepoHoldingFirst | src/commands/remove.js:93-120 | the repository found is the first in the owner's listing holding the file |
| RemoveCmd.RemoveCommand | src/commands/remove.js:128-204 | without a commands directory nothing happens; a configuration match takes the configuration branch; otherwise the fallback, which saves neither configuration nor lock; no match anywhere is an error |

## Left out

- Configuration and lock access in `add` and `update`. These commands import `loadJumonConfig`, `loadJumonLock`, `saveJumonLock`, `addCommandToConfig` and `addCommandToLock`, which `src/utils/config.js` does not export. `update` therefore takes the configuration and lock as parameters and returns the lock to save. `add` records each configuration or lock update as an effect rather than performing it.
- HTTP, base64 decoding and non-404 HTTP errors. GitHub is a value holding branch heads, tags, file contents and one listing. Contents and listings are read at ref `main`, which `getRepositoryContents` and `findMarkdownFiles` pass by default (src/utils/github.js:34-40, 68).
- A repository without a `main` branch: its contents and listing requests fail in the source, but the model's `Remote` holds one set of contents and one listing whatever the branches are, so that failure is not modelled.
- JSON parsing and writing. A stored document is present with its content, absent, or unreadable (`Stored.Unreadable`, standing for a read or parse failure); `LoadConfig` and `LoadLock` fall back to the default for both of the last two, as the `catch` in `loadCccscConfig` and `loadCccscLock` does. The text of a document is not modelled.
- Console output, `process.exit`, and the diff text being printed. A failure is an error value instead.
- The interactive prompt: the user's reply is a string parameter.
- `path.join` normalisation (".", "..", empty segments, an alias containing '/'): paths are sequences of segments that are concatenated.
- JavaScript numbers: only the integers that appear are modelled.
- Object key order: `Object.entries` on integer-like keys is kept in insertion order, not index order.
- Unicode case mapping: `toLowerCase` is modelled on ASCII letters only.
- Documents always carry their `only` and `repositories` fields, so the source's guards for missing fields have no counterpart.
- The `fullPath` field of a listed file is not kept, because no core operation reads it.
- Remotes are keyed by the (user, repo) pair. A key without '/' gives the repository name "undefined", as the source's template string does.
- The whole-repository lock branch of `remove` counts the `.md` files under the global commands path (`getCommandsPath()` with its default argument) in every scope, as the source does; the lock it edits and saves is the current scope's.
- A failed `stat` during the `add` conflict check ends the command with an error, through the outer `catch`.
- InstallAllWrites and ApplyFileWrites: neither states the final content of a target that two changes share. In `add`, two listed files with the same base name write the same `<name>.md`; in `update`, two changes can name the same file. The later write overwrites the earlier one in both the source and the model, but no lemma states which content is left.
- `src/commands/install.js`, `src/utils/filesystem.js`, `src/utils/command-error.js` and `src/utils/errors.js` (including `createDetailedError`) are not part of this model.
- Concurrency and the ordering of asynchronous calls are not modelled: every loop runs its awaits in sequence.
