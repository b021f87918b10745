/**
 * The error categories and the classifier that picks one from an error's
 * message and the context it was raised in.
 */
module ErrorTypes {
  import opened JsString

  /** The members of `ErrorTypes`. */
  datatype ErrorType =
    | ConfigReadError
    | ConfigWriteError
    | ConfigParseError
    | ConfigValidationError
    | NetworkError
    | GitHubApiError
    | AuthenticationError
    | FileNotFound
    | PermissionError
    | DiskSpaceError
    | InvalidCommandPath
    | CommandNotFound
    | RepositoryNotFound
    | UnknownError
    | ValidationError

  /** The string each member stands for; every member's value is its own key. */
  function Code(t: ErrorType): (c: string)
    ensures c != ""
  {
    match t
    case ConfigReadError => "CONFIG_READ_ERROR"
    case ConfigWriteError => "CONFIG_WRITE_ERROR"
    case ConfigParseError => "CONFIG_PARSE_ERROR"
    case ConfigValidationError => "CONFIG_VALIDATION_ERROR"
    case NetworkError => "NETWORK_ERROR"
    case GitHubApiError => "GITHUB_API_ERROR"
    case AuthenticationError => "AUTHENTICATION_ERROR"
    case FileNotFound => "FILE_NOT_FOUND"
    case PermissionError => "PERMISSION_ERROR"
    case DiskSpaceError => "DISK_SPACE_ERROR"
    case InvalidCommandPath => "INVALID_COMMAND_PATH"
    case CommandNotFound => "COMMAND_NOT_FOUND"
    case RepositoryNotFound => "REPOSITORY_NOT_FOUND"
    case UnknownError => "UNKNOWN_ERROR"
    case ValidationError => "VALIDATION_ERROR"
  }

  /** Distinct members have distinct strings, so a string names at most one member. */
  lemma CodeInjective(a: ErrorType, b: ErrorType)
    ensures Code(a) == Code(b) ==> a == b
  {
  }

  /** The context marks a config or lock file operation (case-sensitive). */
  predicate ConfigContext(context: string)
  {
    Includes(context, "config") || Includes(context, "lock")
  }

  /** The context marks a GitHub or network operation (case-sensitive). */
  predicate RemoteContext(context: string)
  {
    Includes(context, "github") || Includes(context, "network")
  }

  predicate SaysNotFound(m: string) { Includes(m, "enoent") || Includes(m, "not found") }
  predicate SaysPermission(m: string) { Includes(m, "permission") || Includes(m, "eacces") }

  /** `classifyError(error, context)`, on the error's message. */
  function ClassifyError(message: string, context: string): (t: ErrorType)
    ensures ConfigContext(context) ==> t in {ConfigParseError, FileNotFound, PermissionError, ConfigReadError}
    ensures !ConfigContext(context) && RemoteContext(context) ==> t in {AuthenticationError, NetworkError, GitHubApiError}
    ensures !ConfigContext(context) && !RemoteContext(context) ==>
              t in {InvalidCommandPath, FileNotFound, PermissionError, DiskSpaceError, UnknownError}
  {
    ClassifyLowered(ToLower(message), context)
  }

  /** The decision chain of `classifyError`, on the already lower-cased message `m`. */
  function ClassifyLowered(m: string, context: string): ErrorType
  {
    if ConfigContext(context) then
      if Includes(m, "parse") || Includes(m, "json") then ConfigParseError
      else if SaysNotFound(m) then FileNotFound
      else if SaysPermission(m) then PermissionError
      else ConfigReadError
    else if RemoteContext(context) then
      if Includes(m, "unauthorized") || Includes(m, "auth") then AuthenticationError
      else if Includes(m, "network") || Includes(m, "timeout") then NetworkError
      else GitHubApiError
    else if Includes(m, "invalid command path") then InvalidCommandPath
    else if SaysNotFound(m) then FileNotFound
    else if SaysPermission(m) then PermissionError
    else if Includes(m, "enospc") || Includes(m, "disk space") then DiskSpaceError
    else UnknownError
  }

  /**
   * In a config or lock context only the four file-related categories occur,
   * and which one is decided by the message alone; the config/lock rule wins
   * over the GitHub/network rule.
   */
  lemma ClassifyConfigContext(message: string, context: string)
    requires ConfigContext(context)
    ensures var m := ToLower(message);
            var t := ClassifyError(message, context);
            (t == ConfigParseError <==> Includes(m, "parse") || Includes(m, "json"))
            && (t == FileNotFound <==> !Includes(m, "parse") && !Includes(m, "json") && SaysNotFound(m))
            && (t == PermissionError <==>
                  !Includes(m, "parse") && !Includes(m, "json") && !SaysNotFound(m) && SaysPermission(m))
            && (t in {ConfigParseError, FileNotFound, PermissionError, ConfigReadError})
  {
  }

  /** In a GitHub or network context (and no config/lock one), the three remote categories. */
  lemma ClassifyRemoteContext(message: string, context: string)
    requires !ConfigContext(context) && RemoteContext(context)
    ensures var m := ToLower(message);
            var t := ClassifyError(message, context);
            (t == AuthenticationError <==> Includes(m, "unauthorized") || Includes(m, "auth"))
            && (t == NetworkError <==>
                  !Includes(m, "unauthorized") && !Includes(m, "auth") && (Includes(m, "network") || Includes(m, "timeout")))
            && (t in {AuthenticationError, NetworkError, GitHubApiError})
  {
  }

  /** In any other context, the general chain ending in `UNKNOWN_ERROR`. */
  lemma ClassifyOtherContext(message: string, context: string)
    requires !ConfigContext(context) && !RemoteContext(context)
    ensures var m := ToLower(message);
            var t := ClassifyError(message, context);
            (t == InvalidCommandPath <==> Includes(m, "invalid command path"))
            && (t == FileNotFound <==> !Includes(m, "invalid command path") && SaysNotFound(m))
            && (t == PermissionError <==> !Includes(m, "invalid command path") && !SaysNotFound(m) && SaysPermission(m))
            && (t == DiskSpaceError <==>
                  !Includes(m, "invalid command path") && !SaysNotFound(m) && !SaysPermission(m)
                  && (Includes(m, "enospc") || Includes(m, "disk space")))
            && (t == UnknownError <==>
                  !Includes(m, "invalid command path") && !SaysNotFound(m) && !SaysPermission(m)
                  && !Includes(m, "enospc") && !Includes(m, "disk space"))
            && (t in {InvalidCommandPath, FileNotFound, PermissionError, DiskSpaceError, UnknownError})
  {
  }

  /** Five members of `ErrorTypes` are never produced by the classifier. */
  lemma ClassifyNeverYields(message: string, context: string)
    ensures ClassifyError(message, context) !in
              {ConfigWriteError, ConfigValidationError, CommandNotFound, RepositoryNotFound, ValidationError}
  {
  }

  /** The message's case does not matter. */
  lemma ClassifyIgnoresMessageCase(message: string, context: string)
    ensures ClassifyError(ToLower(message), context) == ClassifyError(message, context)
  {
    ToLowerIdempotent(message);
  }

  /** The context's case does: "Config" is not a config context. */
  lemma ClassifyContextCaseSensitive()
    ensures ClassifyError("JSON", "config") == ConfigParseError
    ensures ClassifyError("JSON", "Config") == UnknownError
  {
    assert ToLower("JSON") == "json";
    assert OccursAt("json", "json", 0);
    assert OccursAt("config", "config", 0);
    CharAbsent("Config", "config", 0);
    CharAbsent("Config", "lock", 0);
    CharAbsent("Config", "github", 5);
    NotInShort("Config", "network");
    NotInShort("json", "invalid command path");
    NotInShort("json", "enoent");
    NotInShort("json", "not found");
    NotInShort("json", "permission");
    NotInShort("json", "eacces");
    NotInShort("json", "enospc");
    NotInShort("json", "disk space");
  }

  /** A pattern longer than the text never occurs in it. */
  lemma NotInShort(s: string, t: string)
    requires |t| > |s|
    ensures !Includes(s, t)
  {
  }

  /** A pattern with a character the text lacks never occurs in it. */
  lemma CharAbsent(s: string, t: string, k: nat)
    requires k < |t| && t[k] !in s
    ensures !Includes(s, t)
  {
    forall j | 0 <= j && j + |t| <= |s|
      ensures !OccursAt(s, t, j)
    {
      assert s[j..j + |t|][k] == s[j + k] && s[j + k] in s;
    }
  }
}
