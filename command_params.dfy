/**
 * The standardised parameter objects for config and lock operations, and
 * their validator.
 */
module CommandParams {
  import opened JsValue

  /** `x ? String(x) : null`. */
  function OptionalString(x: Value): (r: Value)
    ensures r.Null? <==> !Truthy(x)
    ensures r.Str? <==> Truthy(x)
    ensures r.Str? ==> r.s == ToJsString(x)
  {
    if Truthy(x) then Str(ToJsString(x)) else Null
  }

  /** `createAddParams`: user and repository as strings, optional fields as string or null, a boolean scope. */
  function CreateAddParams(user: Value, repo: Value, commandPath: Value, alias: Value, branch: Value, isLocal: Value): (r: Value)
    ensures r.Obj? && r.fields.Keys == {"user", "repo", "commandPath", "alias", "branch", "isLocal"}
    ensures r.fields["user"] == Str(ToJsString(user)) && r.fields["repo"] == Str(ToJsString(repo))
    ensures r.fields["commandPath"] == OptionalString(commandPath)
    ensures r.fields["alias"] == OptionalString(alias)
    ensures r.fields["branch"] == OptionalString(branch)
    ensures r.fields["isLocal"] == Bool(Truthy(isLocal))
  {
    Obj(map[
      "user" := Str(ToJsString(user)),
      "repo" := Str(ToJsString(repo)),
      "commandPath" := OptionalString(commandPath),
      "alias" := OptionalString(alias),
      "branch" := OptionalString(branch),
      "isLocal" := Bool(Truthy(isLocal))])
  }

  /** `createLockParams`: as `createAddParams`, with a revision string instead of a branch. */
  function CreateLockParams(user: Value, repo: Value, revision: Value, commandPath: Value, alias: Value, isLocal: Value): (r: Value)
    ensures r.Obj? && r.fields.Keys == {"user", "repo", "revision", "commandPath", "alias", "isLocal"}
    ensures r.fields["user"] == Str(ToJsString(user)) && r.fields["repo"] == Str(ToJsString(repo))
    ensures r.fields["revision"] == Str(ToJsString(revision))
    ensures r.fields["commandPath"] == OptionalString(commandPath)
    ensures r.fields["alias"] == OptionalString(alias)
    ensures r.fields["isLocal"] == Bool(Truthy(isLocal))
  {
    Obj(map[
      "user" := Str(ToJsString(user)),
      "repo" := Str(ToJsString(repo)),
      "revision" := Str(ToJsString(revision)),
      "commandPath" := OptionalString(commandPath),
      "alias" := OptionalString(alias),
      "isLocal" := Bool(Truthy(isLocal))])
  }

  /** `validateCommandParams`. */
  predicate ValidateCommandParams(p: Value)
    ensures ValidateCommandParams(p) ==>
              Get(p, "user").Str? && Get(p, "user").s != "" && Get(p, "repo").Str? && Get(p, "repo").s != ""
  {
    Truthy(p) && IsObjectType(p)
    && Truthy(Get(p, "user")) && Truthy(Get(p, "repo"))
    && Get(p, "user").Str? && Get(p, "repo").Str?
    && (Has(p, "revision") ==> Truthy(Get(p, "revision")) && Get(p, "revision").Str?)
  }

  /**
   * What the validator accepts: an object or array whose user and repository
   * are non-empty strings and whose revision, when the key is present, is a
   * non-empty string too.
   */
  lemma ValidateCommandParamsCases(p: Value)
    ensures ValidateCommandParams(p) <==>
              (p.Obj? || p.Arr?)
              && Get(p, "user").Str? && Get(p, "user").s != ""
              && Get(p, "repo").Str? && Get(p, "repo").s != ""
              && (Has(p, "revision") ==> Get(p, "revision").Str? && Get(p, "revision").s != "")
  {
  }

  /** Built add parameters are valid exactly when user and repository stringify to non-empty text. */
  lemma ValidAddParams(user: Value, repo: Value, commandPath: Value, alias: Value, branch: Value, isLocal: Value)
    ensures ValidateCommandParams(CreateAddParams(user, repo, commandPath, alias, branch, isLocal)) <==>
              ToJsString(user) != "" && ToJsString(repo) != ""
    ensures user.Str? && repo.Str? && user.s != "" && repo.s != "" ==>
              ValidateCommandParams(CreateAddParams(user, repo, commandPath, alias, branch, isLocal))
  {
    var p := CreateAddParams(user, repo, commandPath, alias, branch, isLocal);
    assert !Has(p, "revision");
  }

  /** Built lock parameters are valid exactly when user, repository and revision stringify to non-empty text. */
  lemma ValidLockParams(user: Value, repo: Value, revision: Value, commandPath: Value, alias: Value, isLocal: Value)
    ensures ValidateCommandParams(CreateLockParams(user, repo, revision, commandPath, alias, isLocal)) <==>
              ToJsString(user) != "" && ToJsString(repo) != "" && ToJsString(revision) != ""
  {
    var p := CreateLockParams(user, repo, revision, commandPath, alias, isLocal);
    assert Has(p, "revision");
  }
}
