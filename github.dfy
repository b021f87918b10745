/**
 * The decisions built on the GitHub API: splitting "user/repo[/path]",
 * resolving a configured ref to a commit, and collecting the Markdown files
 * of a repository's listing. The API itself is an oracle: one `Remote` per
 * repository with its file contents, its directory listing, its tags and its
 * branches.
 */
module GitHub {
  import opened Common
  import opened JsString
  import opened Documents

  /**
   * An item of a contents listing: a file, a directory together with its own
   * listing, a directory whose listing fails, or anything else.
   */
  datatype RemoteEntry =
    | RemoteFile(name: string)
    | RemoteDir(name: string, entries: seq<RemoteEntry>)
    | RemoteUnlistable(name: string)
    | RemoteOther(name: string)

  /**
   * One repository as the API shows it at its default ref: `files` maps
   * repository-relative paths of files to their decoded text, `listing` is
   * the root directory's listing (`None` when it cannot be listed), `tags`
   * and `branches` map ref names to commit hashes.
   */
  datatype Remote = Remote(
    files: map<string, string>,
    listing: Option<seq<RemoteEntry>>,
    tags: map<string, string>,
    branches: map<string, string>)

  datatype GitHubError =
    | InvalidRepositoryPath(input: string)
    | BranchNotFound(branch: string)
    | FileNotFound(path: string)
    | ListingFailed

  datatype ParsedPath = ParsedPath(user: string, repo: string, commandPath: Option<string>)

  /** A string joined from parts is empty only for no parts or one empty part. */
  lemma JoinEmpty(parts: seq<string>, sep: char)
    ensures Join(parts, sep) == "" ==> |parts| == 0 || parts == [""]
  {
    if |parts| >= 2 {
      JoinCons(parts, sep);
    }
  }

  /**
   * `parseRepositoryPath`: the first two '/'-parts are user and repository;
   * the remaining parts, rejoined, are the command path, or null when that
   * is empty. Input without '/' is rejected; empty parts are not.
   */
  function ParseRepositoryPath(s: string): (r: Result<ParsedPath, GitHubError>)
    ensures r.Err? <==> '/' !in s
    ensures r.Err? ==> r.error == InvalidRepositoryPath(s)
    ensures r.Ok? ==> '/' !in r.value.user && '/' !in r.value.repo
    ensures r.Ok? && r.value.commandPath.Some? ==>
              r.value.commandPath.value != "" &&
              r.value.user + "/" + r.value.repo + "/" + r.value.commandPath.value == s
    ensures r.Ok? && r.value.commandPath.None? ==>
              s == r.value.user + "/" + r.value.repo || s == r.value.user + "/" + r.value.repo + "/"
  {
    var parts := Split(s, '/');
    SplitSingle(s, '/');
    if |parts| < 2 then Err(InvalidRepositoryPath(s))
    else
      var rest := Join(parts[2..], '/');
      PartsRejoin(s, parts);
      if rest == "" then Ok(ParsedPath(parts[0], parts[1], None))
      else Ok(ParsedPath(parts[0], parts[1], Some(rest)))
  }

  /** How the '/'-parts of a path put it back together. */
  lemma PartsRejoin(s: string, parts: seq<string>)
    requires parts == Split(s, '/') && |parts| >= 2
    ensures Join(parts[2..], '/') != "" ==> parts[0] + "/" + parts[1] + "/" + Join(parts[2..], '/') == s
    ensures Join(parts[2..], '/') == "" ==> s == parts[0] + "/" + parts[1] || s == parts[0] + "/" + parts[1] + "/"
  {
    JoinSplit(s, '/');
    JoinCons(parts, '/');
    assert parts[1..][1..] == parts[2..];
    if |parts| >= 3 {
      JoinCons(parts[1..], '/');
      if Join(parts[2..], '/') == "" {
        JoinEmpty(parts[2..], '/');
        assert parts[2..] == [""];
        assert parts[1..] == [parts[1], ""];
        assert Join(parts[1..][1..], '/') == "";
      }
    } else {
      assert parts[1..] == [parts[1]];
      assert parts[2..] == [];
    }
  }

  /** The branch tried first, and the one tried when it does not exist. */
  const DefaultBranch: string := "main"
  const FallbackBranch: string := "master"

  /**
   * `getLatestCommitHash`: the head commit of `branch`; a missing "main"
   * is retried once as "master", any other missing branch is an error.
   */
  function LatestCommit(remote: Remote, branch: string): (r: Result<string, GitHubError>)
    ensures branch in remote.branches ==> r == Ok(remote.branches[branch])
    ensures branch !in remote.branches && branch != DefaultBranch ==> r == Err(BranchNotFound(branch))
    ensures branch !in remote.branches && branch == DefaultBranch ==>
              r == (if FallbackBranch in remote.branches then Ok(remote.branches[FallbackBranch])
                    else Err(BranchNotFound(FallbackBranch)))
    decreases if branch == DefaultBranch then 1 else 0
  {
    if branch in remote.branches then Ok(remote.branches[branch])
    else if branch == DefaultBranch then LatestCommit(remote, FallbackBranch)
    else Err(BranchNotFound(branch))
  }

  /** A character of the leading run `/^[~^>=<\s]+/` strips from a version. */
  predicate IsVersionOperator(c: char)
  {
    c == '~' || c == '^' || c == '>' || c == '=' || c == '<' || IsSpace(c)
  }

  /** `version.replace(/^[~^>=<\s]+/, '')`. */
  function StripVersionOperators(v: string): (r: string)
    ensures |r| <= |v| && r == v[|v| - |r|..]
    ensures forall i :: 0 <= i < |v| - |r| ==> IsVersionOperator(v[i])
    ensures |r| > 0 ==> !IsVersionOperator(r[0])
  {
    if |v| > 0 && IsVersionOperator(v[0]) then StripVersionOperators(v[1..]) else v
  }

  /** Stripping is idempotent: nothing strippable is left at the front. */
  lemma StripVersionOperatorsIdempotent(v: string)
    ensures StripVersionOperators(StripVersionOperators(v)) == StripVersionOperators(v)
  {
  }

  /** The commit a tag points to, if the tag exists. */
  function TagCommit(remote: Remote, tag: string): Option<string>
  {
    if tag in remote.tags then Some(remote.tags[tag]) else None
  }

  /**
   * `resolveRepositoryRevision` of update.js: the version (operators
   * stripped) as a tag, else the tag, else the branch or "main". A failed tag
   * lookup falls back to the head of "main", whatever branch is configured.
   */
  function ResolveRevisionForUpdate(remote: Remote, rc: RepositoryConfig): (r: Result<string, GitHubError>)
    ensures r.Err? ==> r.error.BranchNotFound?
    ensures r.Err? && (Given(rc.version) || Given(rc.tag)) ==> r.error == BranchNotFound(FallbackBranch)
  {
    if Given(rc.version) then
      match TagCommit(remote, StripVersionOperators(rc.version.value))
      case Some(sha) => Ok(sha)
      case None => LatestCommit(remote, DefaultBranch)
    else if Given(rc.tag) then
      match TagCommit(remote, rc.tag.value)
      case Some(sha) => Ok(sha)
      case None => LatestCommit(remote, DefaultBranch)
    else
      LatestCommit(remote, if Given(rc.branch) then rc.branch.value else DefaultBranch)
  }

  /**
   * `resolveRepositoryRevision` of github.js: the same precedence, but a
   * failed tag lookup falls back to the configured branch (or "main").
   */
  function ResolveRevision(remote: Remote, rc: RepositoryConfig): (r: Result<string, GitHubError>)
    ensures r.Err? ==> r.error.BranchNotFound?
    ensures r.Ok? ==> r.value in remote.tags.Values || r.value in remote.branches.Values
  {
    var branch := if Given(rc.branch) then rc.branch.value else DefaultBranch;
    if Given(rc.version) then
      match TagCommit(remote, StripVersionOperators(rc.version.value))
      case Some(sha) => Ok(sha)
      case None => LatestCommit(remote, branch)
    else if Given(rc.tag) then
      match TagCommit(remote, rc.tag.value)
      case Some(sha) => Ok(sha)
      case None => LatestCommit(remote, branch)
    else
      LatestCommit(remote, branch)
  }

  /**
   * A version takes precedence over a tag, which takes precedence over the
   * branch: an existing tag named by the version (or, without a version, by
   * the tag) is the answer whatever else is configured.
   */
  lemma RevisionPrecedence(remote: Remote, rc: RepositoryConfig, other: RepositoryConfig)
    ensures Given(rc.version) && TagCommit(remote, StripVersionOperators(rc.version.value)).Some? ==>
              ResolveRevision(remote, rc) == Ok(TagCommit(remote, StripVersionOperators(rc.version.value)).value)
    ensures !Given(rc.version) && Given(rc.tag) && TagCommit(remote, rc.tag.value).Some? ==>
              ResolveRevision(remote, rc) == Ok(TagCommit(remote, rc.tag.value).value)
    ensures Given(rc.version) && other.version == rc.version && other.branch == rc.branch ==>
              ResolveRevision(remote, other) == ResolveRevision(remote, rc)
  {
  }

  /** Both resolvers agree unless a branch other than "main" is configured. */
  lemma ResolversAgreeOnDefaultBranch(remote: Remote, rc: RepositoryConfig)
    requires !Given(rc.branch) || rc.branch.value == DefaultBranch
    ensures ResolveRevision(remote, rc) == ResolveRevisionForUpdate(remote, rc)
  {
  }

  /** With a branch configured and a missing tag, the two resolvers disagree. */
  lemma ResolversDisagreeOnFallback()
    ensures var remote := Remote(map[], None, map[], map["main" := "a1", "dev" := "d4"]);
            var rc := RepositoryConfig(Some("dev"), None, Some("v9"), []);
            ResolveRevision(remote, rc) == Ok("d4") && ResolveRevisionForUpdate(remote, rc) == Ok("a1")
  {
  }

  /** In the update resolver a resolvable version tag wins. */
  lemma UpdateRevisionFromVersion(remote: Remote, rc: RepositoryConfig)
    ensures Given(rc.version) && TagCommit(remote, StripVersionOperators(rc.version.value)).Some? ==>
              ResolveRevisionForUpdate(remote, rc) == Ok(TagCommit(remote, StripVersionOperators(rc.version.value)).value)
  {
  }

  /** Without a version, a resolvable tag wins. */
  lemma UpdateRevisionFromTag(remote: Remote, rc: RepositoryConfig)
    ensures !Given(rc.version) && Given(rc.tag) && TagCommit(remote, rc.tag.value).Some? ==>
              ResolveRevisionForUpdate(remote, rc) == Ok(TagCommit(remote, rc.tag.value).value)
  {
  }

  /**
   * With a version or a tag set, a failed lookup falls back to the head of
   * "main" (or "master"), so the configured branch plays no part.
   */
  lemma UpdateRevisionIgnoresBranch(remote: Remote, rc: RepositoryConfig)
    ensures Given(rc.version) || Given(rc.tag) ==>
              ResolveRevisionForUpdate(remote, rc) == ResolveRevisionForUpdate(remote, rc.(branch := None))
  {
  }

  /** Only with neither set does it follow the branch, like `resolveRepositoryRevision`. */
  lemma UpdateRevisionFollowsBranch(remote: Remote, rc: RepositoryConfig)
    ensures !Given(rc.version) && !Given(rc.tag) ==> ResolveRevisionForUpdate(remote, rc) == ResolveRevision(remote, rc)
  {
  }

  /** Whatever the update resolver returns is a known tag or branch head. */
  lemma UpdateRevisionKnown(remote: Remote, rc: RepositoryConfig)
    ensures ResolveRevisionForUpdate(remote, rc).Ok? ==>
              ResolveRevisionForUpdate(remote, rc).value in remote.tags.Values
              || ResolveRevisionForUpdate(remote, rc).value in remote.branches.Values
  {
  }

  /** A listed Markdown file: its repository-relative path and its command name. */
  datatype MarkdownFile = MarkdownFile(path: string, name: string)

  /** `basePath ? basePath + "/" + name : name`. */
  function SubPath(base: string, name: string): string
  {
    if base != "" then base + "/" + name else name
  }

  /** `getFileContent`: the text of a file; anything else at the path is an error. */
  function FileContent(remote: Remote, path: string): (r: Result<string, GitHubError>)
    ensures r.Ok? <==> path in remote.files
    ensures r.Ok? ==> r.value == remote.files[path]
  {
    if path in remote.files then Ok(remote.files[path]) else Err(FileNotFound(path))
  }

  /** A size for the listing tree, so that the walk terminates. */
  function EntrySize(e: RemoteEntry): nat
  {
    match e
    case RemoteDir(_, es) => 1 + ListingSize(es)
    case _ => 1
  }

  function ListingSize(items: seq<RemoteEntry>): nat
  {
    if |items| == 0 then 0 else ListingSize(items[..|items| - 1]) + EntrySize(items[|items| - 1])
  }

  lemma {:induction false} ItemSmallerThanListing(items: seq<RemoteEntry>, i: nat)
    requires i < |items|
    ensures EntrySize(items[i]) <= ListingSize(items)
    decreases |items|
  {
    if i < |items| - 1 {
      ItemSmallerThanListing(items[..|items| - 1], i);
    }
  }

  /** The kept file of a Markdown file item: its path under `base` and its name without the first ".md". */
  function Kept(base: string, name: string): MarkdownFile
  {
    MarkdownFile(SubPath(base, name), ReplaceFirst(name, Md, ""))
  }

  /**
   * The Markdown files of one listing item found under `base`; `None` when a
   * directory below it cannot be listed, which aborts the whole walk.
   */
  function EntryFiles(e: RemoteEntry, base: string): Option<seq<MarkdownFile>>
    decreases EntrySize(e), 0
  {
    match e
    case RemoteFile(name) => if EndsWith(name, Md) then Some([Kept(base, name)]) else Some([])
    case RemoteUnlistable(_) => None
    case RemoteDir(name, es) => ListingFiles(es, SubPath(base, name))
    case RemoteOther(_) => Some([])
  }

  /** The Markdown files of a listing, depth first, in listing order. */
  function ListingFiles(items: seq<RemoteEntry>, base: string): Option<seq<MarkdownFile>>
    decreases ListingSize(items), 1
  {
    if |items| == 0 then Some([])
    else
      ItemSmallerThanListing(items, |items| - 1);
      match ListingFiles(items[..|items| - 1], base)
      case None => None
      case Some(front) =>
        match EntryFiles(items[|items| - 1], base)
        case None => None
        case Some(back) => Some(front + back)
  }

  /**
   * `findMarkdownFiles` over one listed directory: keep each ".md" file,
   * descend into each directory (whose listing must succeed), skip
   * everything else.
   */
  method FindMarkdownFilesIn(items: seq<RemoteEntry>, base: string) returns (r: Result<seq<MarkdownFile>, GitHubError>)
    ensures r.Ok? <==> ListingFiles(items, base).Some?
    ensures r.Ok? ==> r.value == ListingFiles(items, base).value
    decreases ListingSize(items)
  {
    var files := [];
    var i := 0;
    while i < |items|
      invariant 0 <= i <= |items|
      invariant ListingFiles(items[..i], base) == Some(files)
    {
      var item := items[i];
      assert items[..i + 1][..i] == items[..i];
      assert items[..i + 1][i] == item;
      if item.RemoteFile? && EndsWith(item.name, Md) {
        var relativePath := SubPath(base, item.name);
        ListingStep(items, i, base, files, [Kept(base, item.name)]);
        files := files + [MarkdownFile(relativePath, ReplaceFirst(item.name, Md, ""))];
      } else if item.RemoteUnlistable? {
        NoneSpreads(items, i + 1, base);
        return Err(ListingFailed);
      } else if item.RemoteDir? {
        ItemSmallerThanListing(items, i);
        var sub := FindMarkdownFilesIn(item.entries, SubPath(base, item.name));
        if sub.Err? {
          NoneSpreads(items, i + 1, base);
          return sub;
        }
        assert EntryFiles(item, base) == ListingFiles(item.entries, SubPath(base, item.name));
        ListingStep(items, i, base, files, sub.value);
        files := files + sub.value;
      } else {
        assert EntryFiles(item, base) == Some([]);
        ListingStep(items, i, base, files, []);
        assert files + [] == files;
      }
      i := i + 1;
    }
    assert items[..i] == items;
    return Ok(files);
  }

  /** One more item of a listing adds that item's files at the end. */
  lemma ListingStep(items: seq<RemoteEntry>, k: nat, base: string, front: seq<MarkdownFile>, back: seq<MarkdownFile>)
    requires k < |items|
    requires ListingFiles(items[..k], base) == Some(front) && EntryFiles(items[k], base) == Some(back)
    ensures ListingFiles(items[..k + 1], base) == Some(front + back)
  {
    assert items[..k + 1][..k] == items[..k];
    assert items[..k + 1][k] == items[k];
  }

  /** A walk that fails on a prefix of the listing fails on the whole listing. */
  lemma {:induction false} NoneSpreads(items: seq<RemoteEntry>, k: nat, base: string)
    requires k <= |items| && ListingFiles(items[..k], base).None?
    ensures ListingFiles(items, base).None?
    decreases |items| - k
  {
    if k < |items| {
      assert items[..k + 1][..k] == items[..k];
      NoneSpreads(items, k + 1, base);
    } else {
      assert items[..k] == items;
    }
  }

  /** The Markdown files of a repository: `None` when a listing on the way fails. */
  function MarkdownFiles(remote: Remote): Option<seq<MarkdownFile>>
  {
    match remote.listing
    case None => None
    case Some(items) => ListingFiles(items, "")
  }

  /** `findMarkdownFiles(user, repo)`: the walk from the repository root. */
  method FindMarkdownFiles(remote: Remote) returns (r: Result<seq<MarkdownFile>, GitHubError>)
    ensures r.Ok? <==> MarkdownFiles(remote).Some?
    ensures r.Ok? ==> r.value == MarkdownFiles(remote).value
  {
    if remote.listing.None? {
      return Err(ListingFailed);
    }
    r := FindMarkdownFilesIn(remote.listing.value, "");
  }

  /** "a" + "/" + "b" + ".md" ends with ".md". */
  lemma SubPathEndsWithMd(base: string, name: string)
    requires EndsWith(name, Md)
    ensures EndsWith(SubPath(base, name), Md)
  {
    var p := SubPath(base, name);
    assert p[|p| - |name|..] == name;
    assert p[|p| - 3..] == name[|name| - 3..];
  }

  /** What every file a walk under `base` returns looks like. */
  predicate WellPlaced(f: MarkdownFile, base: string)
  {
    EndsWith(f.path, Md) && (base != "" ==> StartsWith(f.path, base + "/"))
  }

  /**
   * Every file the walk returns has a path ending with ".md" that lies under
   * `base`.
   */
  lemma {:induction false} ListingFilesShape(items: seq<RemoteEntry>, base: string)
    ensures ListingFiles(items, base).Some? ==>
              forall f :: f in ListingFiles(items, base).value ==> WellPlaced(f, base)
    decreases ListingSize(items), 1
  {
    if |items| > 0 {
      ItemSmallerThanListing(items, |items| - 1);
      ListingFilesShape(items[..|items| - 1], base);
      EntryFilesShape(items[|items| - 1], base);
    }
  }

  lemma {:induction false} EntryFilesShape(e: RemoteEntry, base: string)
    ensures EntryFiles(e, base).Some? ==>
              forall f :: f in EntryFiles(e, base).value ==> WellPlaced(f, base)
    decreases EntrySize(e), 0
  {
    match e
    case RemoteFile(name) =>
      if EndsWith(name, Md) {
        SubPathEndsWithMd(base, name);
        var p := SubPath(base, name);
        assert base != "" ==> p[..|base + "/"|] == base + "/";
      }
    case RemoteUnlistable(_) =>
    case RemoteDir(name, es) =>
      var sub := SubPath(base, name);
      ListingFilesShape(es, sub);
      if EntryFiles(e, base).Some? {
        forall f | f in EntryFiles(e, base).value
          ensures WellPlaced(f, base)
        {
          assert WellPlaced(f, sub);
          if base != "" {
            assert f.path[..|base + "/"|] == (sub + "/")[..|base + "/"|];
          }
        }
      }
    case RemoteOther(_) =>
  }

  /**
   * `f` is a Markdown file somewhere in the tree below item `e`, seen from
   * `base`: a ".md" file item kept as `f`, or one inside a directory item.
   */
  predicate EntryHolds(e: RemoteEntry, base: string, f: MarkdownFile)
    decreases EntrySize(e), 0
  {
    match e
    case RemoteFile(name) => EndsWith(name, Md) && f == Kept(base, name)
    case RemoteDir(name, es) => ListingHolds(es, SubPath(base, name), f)
    case _ => false
  }

  /** `f` is a Markdown file somewhere in the tree below some item of the listing. */
  predicate ListingHolds(items: seq<RemoteEntry>, base: string, f: MarkdownFile)
    decreases ListingSize(items), 1
  {
    if |items| == 0 then false
    else
      ItemSmallerThanListing(items, |items| - 1);
      ListingHolds(items[..|items| - 1], base, f) || EntryHolds(items[|items| - 1], base, f)
  }

  /** `ListingHolds` holds exactly when some item of the listing holds `f`. */
  lemma ListingHoldsSome(items: seq<RemoteEntry>, base: string, f: MarkdownFile)
    ensures ListingHolds(items, base, f) <==> exists i :: 0 <= i < |items| && EntryHolds(items[i], base, f)
  {
    if ListingHolds(items, base, f) {
      var i := HoldingItem(items, base, f);
    }
    if exists i :: 0 <= i < |items| && EntryHolds(items[i], base, f) {
      var i :| 0 <= i < |items| && EntryHolds(items[i], base, f);
      HoldsFromItem(items, base, f, i);
    }
  }

  /** An item that holds `f`, when the listing does. */
  lemma {:induction false} HoldingItem(items: seq<RemoteEntry>, base: string, f: MarkdownFile) returns (i: int)
    requires ListingHolds(items, base, f)
    ensures 0 <= i < |items| && EntryHolds(items[i], base, f)
  {
    var n := |items| - 1;
    var front := items[..n];
    assert ListingHolds(items, base, f) == (ListingHolds(front, base, f) || EntryHolds(items[n], base, f));
    if EntryHolds(items[n], base, f) {
      i := n;
    } else {
      i := HoldingItem(front, base, f);
      assert front[i] == items[i];
    }
  }

  /** A listing holds whatever one of its items holds. */
  lemma {:induction false} HoldsFromItem(items: seq<RemoteEntry>, base: string, f: MarkdownFile, i: int)
    requires 0 <= i < |items| && EntryHolds(items[i], base, f)
    ensures ListingHolds(items, base, f)
  {
    var n := |items| - 1;
    var front := items[..n];
    assert ListingHolds(items, base, f) == (ListingHolds(front, base, f) || EntryHolds(items[n], base, f));
    if i < n {
      assert front[i] == items[i];
      HoldsFromItem(front, base, f, i);
    }
  }

  /**
   * When the walk succeeds it returns exactly the Markdown files of the whole
   * tree, nested directories included, and nothing else.
   */
  lemma {:induction false} ListingFilesMembership(items: seq<RemoteEntry>, base: string, f: MarkdownFile)
    requires ListingFiles(items, base).Some?
    ensures f in ListingFiles(items, base).value <==> ListingHolds(items, base, f)
    decreases ListingSize(items), 1
  {
    if |items| > 0 {
      ItemSmallerThanListing(items, |items| - 1);
      var front := items[..|items| - 1];
      ListingFilesMembership(front, base, f);
      EntryFilesMembership(items[|items| - 1], base, f);
    }
  }

  lemma {:induction false} EntryFilesMembership(e: RemoteEntry, base: string, f: MarkdownFile)
    requires EntryFiles(e, base).Some?
    ensures f in EntryFiles(e, base).value <==> EntryHolds(e, base, f)
    decreases EntrySize(e), 0
  {
    match e
    case RemoteFile(name) =>
    case RemoteDir(name, es) => ListingFilesMembership(es, SubPath(base, name), f);
    case RemoteOther(_) =>
  }

  /** A Markdown file at the top of the listing is kept, named without ".md". */
  lemma TopLevelFileKept(items: seq<RemoteEntry>, i: nat)
    requires i < |items| && IsMarkdownItem(items[i]) && ListingFiles(items, "").Some?
    ensures Kept("", items[i].name) in ListingFiles(items, "").value
  {
    KeptInListing(items, i, "");
  }

  /** A file item the walk keeps: a file whose name ends with ".md". */
  predicate IsMarkdownItem(e: RemoteEntry)
  {
    e.RemoteFile? && EndsWith(e.name, Md)
  }

  lemma {:induction false} KeptInListing(items: seq<RemoteEntry>, i: nat, base: string)
    requires i < |items| && IsMarkdownItem(items[i]) && ListingFiles(items, base).Some?
    ensures Kept(base, items[i].name) in ListingFiles(items, base).value
    decreases |items|
  {
    ItemSmallerThanListing(items, |items| - 1);
    if i < |items| - 1 {
      KeptInListing(items[..|items| - 1], i, base);
    }
  }

  /** The remote file of a command path: `path.endsWith('.md') ? path : path + '.md'`. */
  function FetchPath(commandPath: string): (r: string)
    ensures EndsWith(r, Md)
    ensures EndsWith(commandPath, Md) ==> r == commandPath
    ensures !EndsWith(commandPath, Md) ==> r == commandPath + Md
  {
    if EndsWith(commandPath, Md) then commandPath
    else
      var r := commandPath + Md;
      assert r[|r| - 3..] == Md;
      r
  }
}
