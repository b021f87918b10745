/**
 * Parsing a configuration key and validating and normalising a repository
 * configuration that came from JSON.
 */
module Repository {
  import opened Common
  import opened JsString
  import opened JsValue

  datatype RepositoryKeyError =
    | KeyNotString
    | InvalidKeyFormat(key: string)

  datatype RepositoryKey = RepositoryKey(user: string, repo: string)

  /**
   * `parseRepositoryKey`: a string of exactly two non-empty '/'-parts. It
   * succeeds exactly when the key is `user + "/" + repo` for two non-empty
   * parts without '/', and then returns those parts.
   */
  function ParseRepositoryKey(key: Value): (r: Result<RepositoryKey, RepositoryKeyError>)
    ensures !key.Str? ==> r == Err(KeyNotString)
    ensures r.Ok? ==> key.Str? && key.s == r.value.user + "/" + r.value.repo
    ensures r.Ok? ==> r.value.user != "" && r.value.repo != "" && '/' !in r.value.user && '/' !in r.value.repo
    ensures key.Str? && r.Err? ==> r == Err(InvalidKeyFormat(key.s))
  {
    if !key.Str? then Err(KeyNotString)
    else
      var parts := Split(key.s, '/');
      if |parts| != 2 || parts[0] == "" || parts[1] == "" then Err(InvalidKeyFormat(key.s))
      else
        JoinSplit(key.s, '/');
        JoinCons(parts, '/');
        assert parts[1..] == [parts[1]];
        Ok(RepositoryKey(parts[0], parts[1]))
  }

  /** Every well-formed key is accepted, with its own two parts. */
  lemma ParseRepositoryKeyAccepts(user: string, repo: string)
    requires user != "" && repo != "" && '/' !in user && '/' !in repo
    ensures ParseRepositoryKey(Str(user + "/" + repo)) == Ok(RepositoryKey(user, repo))
  {
    SplitTwo(user, repo, '/');
  }

  /** `validateRepositoryConfig`. */
  predicate ValidateRepositoryConfig(v: Value)
    ensures ValidateRepositoryConfig(v) ==> v.Obj? || v.Arr?
    ensures ValidateRepositoryConfig(v) ==> Get(v, "version").Undefined? || Get(v, "version").Str?
  {
    Truthy(v) && IsObjectType(v)
    && !(Truthy(Get(v, "branch")) && !Get(v, "branch").Str?)
    && !(!Get(v, "version").Undefined? && (Get(v, "version").Null? || !Get(v, "version").Str?))
    && !(!Get(v, "tag").Undefined? && (Get(v, "tag").Null? || !Get(v, "tag").Str?))
    && !(Truthy(Get(v, "only")) && !Get(v, "only").Arr?)
  }

  /**
   * The rejections, field by field: an input that is falsy or not an object,
   * a truthy non-string branch, a version or tag that is present but not a
   * string (null included), a truthy non-array `only`.
   */
  lemma ValidateRepositoryConfigCases(v: Value)
    ensures ValidateRepositoryConfig(v) <==>
              (v.Arr? || v.Obj?)
              && (!Truthy(Get(v, "branch")) || Get(v, "branch").Str?)
              && (Get(v, "version").Undefined? || Get(v, "version").Str?)
              && (Get(v, "tag").Undefined? || Get(v, "tag").Str?)
              && (!Truthy(Get(v, "only")) || Get(v, "only").Arr?)
  {
  }

  datatype InvalidRepositoryConfig = InvalidRepositoryConfig

  /** `normalizeRepositoryConfig`: defaults for every falsy field of a valid input. */
  function NormalizeRepositoryConfig(v: Value): (r: Result<Value, InvalidRepositoryConfig>)
    ensures r.Err? <==> !ValidateRepositoryConfig(v)
    ensures r.Ok? ==> r.value.Obj? && r.value.fields.Keys == {"branch", "version", "tag", "only"}
    ensures r.Ok? ==> r.value.fields["branch"].Str? && r.value.fields["branch"].s != ""
    ensures r.Ok? ==> r.value.fields["only"].Arr?
    ensures r.Ok? ==> (r.value.fields["version"].Null? <==> !Truthy(Get(v, "version")))
    ensures r.Ok? ==> (r.value.fields["tag"].Null? <==> !Truthy(Get(v, "tag")))
    ensures r.Ok? && Truthy(Get(v, "branch")) ==> r.value.fields["branch"] == Get(v, "branch")
    ensures r.Ok? && !Truthy(Get(v, "branch")) ==> r.value.fields["branch"] == Str("main")
    ensures r.Ok? && Truthy(Get(v, "version")) ==> r.value.fields["version"] == Get(v, "version")
    ensures r.Ok? && Truthy(Get(v, "tag")) ==> r.value.fields["tag"] == Get(v, "tag")
    ensures r.Ok? && Truthy(Get(v, "only")) ==> r.value.fields["only"] == Get(v, "only")
    ensures r.Ok? && !Truthy(Get(v, "only")) ==> r.value.fields["only"] == Arr([])
  {
    if !ValidateRepositoryConfig(v) then Err(InvalidRepositoryConfig)
    else
      Ok(Obj(map[
        "branch" := if Truthy(Get(v, "branch")) then Get(v, "branch") else Str("main"),
        "version" := if Truthy(Get(v, "version")) then Get(v, "version") else Null,
        "tag" := if Truthy(Get(v, "tag")) then Get(v, "tag") else Null,
        "only" := if Truthy(Get(v, "only")) then Get(v, "only") else Arr([])]))
  }

  /**
   * Normalising is not idempotent: a normalised configuration validates
   * again exactly when both its version and its tag were non-empty strings,
   * because the null that stands in for a missing one is rejected.
   */
  lemma {:induction false} NormalizeThenValidate(v: Value)
    requires ValidateRepositoryConfig(v)
    ensures ValidateRepositoryConfig(NormalizeRepositoryConfig(v).value) <==>
              Truthy(Get(v, "version")) && Truthy(Get(v, "tag"))
  {
    var n := NormalizeRepositoryConfig(v).value;
    assert Get(n, "version") == n.fields["version"];
    assert Get(n, "tag") == n.fields["tag"];
    assert Get(n, "branch") == n.fields["branch"];
    assert Get(n, "only") == n.fields["only"];
  }

  /** A concrete witness: `{}` normalises to a configuration that fails validation. */
  lemma NormalizeNotIdempotent()
    ensures ValidateRepositoryConfig(Obj(map[]))
    ensures NormalizeRepositoryConfig(Obj(map[])).Ok?
    ensures NormalizeRepositoryConfig(NormalizeRepositoryConfig(Obj(map[])).value).Err?
  {
    NormalizeThenValidate(Obj(map[]));
  }
}
