/** The start-up environment check `validate_environment` (backend/config.py): every
    required variable must be set to a non-empty value, and the MCP server URL must
    start with `http://` or `https://`. */
module EnvConfig {
  import opened Text

  /** `REQUIRED_KEYS`, in declaration order. */
  const RequiredKeys: seq<string> := ["DEEPGRAM_API_KEY", "COMPOSIO_MCP_URL", "MEM0_API_KEY", "OPENROUTER_API_KEY"]

  const UrlKey: string := "COMPOSIO_MCP_URL"

  /** The process environment. */
  type Env = map<string, string>

  /** The variable is present and not empty. */
  predicate IsSet(env: Env, k: string) {
    k in env && env[k] != ""
  }

  /** The keys whose variable is unset or empty, in the keys' order. */
  function MissingFrom(keys: seq<string>, env: Env): (r: seq<string>)
    ensures forall k :: k in r <==> k in keys && !IsSet(env, k)
    ensures r == [] <==> forall k :: k in keys ==> IsSet(env, k)
    ensures IsSubsequence(r, keys)
  {
    if keys == [] then []
    else if IsSet(env, keys[0]) then MissingFrom(keys[1..], env)
    else [keys[0]] + MissingFrom(keys[1..], env)
  }

  /** `a` is `b` with some elements left out, the rest in their order. */
  predicate IsSubsequence(a: seq<string>, b: seq<string>)
    decreases |b|
  {
    if a == [] then true
    else if b == [] then false
    else if a[0] == b[0] then IsSubsequence(a[1..], b[1..])
    else IsSubsequence(a, b[1..])
  }

  /** The missing-key list of the required keys. */
  function Missing(env: Env): seq<string> {
    MissingFrom(RequiredKeys, env)
  }

  /** The server URL variable, or `""` when it is unset. */
  function ServerUrl(env: Env): string {
    if UrlKey in env then env[UrlKey] else ""
  }

  /** How validation ends: success, or the `ValueError` raised for missing variables or
      for a malformed URL. */
  datatype Validation = Valid | MissingVariables(keys: seq<string>) | InvalidUrl(url: string)

  /** `validate_environment()`. */
  function ValidateEnvironment(env: Env): Validation {
    var missing := Missing(env);
    if missing != [] then MissingVariables(missing)
    else if !(StartsWith(ServerUrl(env), "http://") || StartsWith(ServerUrl(env), "https://")) then
      InvalidUrl(ServerUrl(env))
    else Valid
  }

  /** Python's `repr` of a list of identifier strings: `['A', 'B']`. */
  function ReprList(keys: seq<string>): string {
    "[" + ReprItems(keys) + "]"
  }

  function ReprItems(keys: seq<string>): string {
    if keys == [] then ""
    else if |keys| == 1 then "'" + keys[0] + "'"
    else "'" + keys[0] + "', " + ReprItems(keys[1..])
  }

  /** The text of the raised `ValueError`. */
  function ErrorMessage(v: Validation): string {
    match v
    case Valid => ""
    case MissingVariables(keys) => "Missing required environment variables: " + ReprList(keys)
    case InvalidUrl(url) => "Invalid COMPOSIO_MCP_URL format: " + url
  }

  /** The missing list names exactly the required keys that are unset or empty, in
      their declared order, each once. */
  lemma MissingExact(env: Env)
    ensures var m := Missing(env);
      && (forall k :: k in m <==> k in RequiredKeys && !IsSet(env, k))
      && IsSubsequence(m, RequiredKeys)
      && (forall i, j :: 0 <= i < j < |m| ==> m[i] != m[j])
  {
    var m := Missing(env);
    SubsequenceOfDistinct(m, RequiredKeys);
  }

  /** A subsequence of a list without repeats has no repeats. */
  lemma {:induction false} SubsequenceOfDistinct(a: seq<string>, b: seq<string>)
    requires IsSubsequence(a, b)
    requires forall i, j :: 0 <= i < j < |b| ==> b[i] != b[j]
    ensures forall i, j :: 0 <= i < j < |a| ==> a[i] != a[j]
    ensures forall x :: x in a ==> x in b
    decreases |b|
  {
    if a != [] && b != [] {
      assert forall i, j :: 0 <= i < j < |b[1..]| ==> b[1..][i] != b[1..][j] by {
        forall i, j | 0 <= i < j < |b[1..]|
          ensures b[1..][i] != b[1..][j]
        {
          assert b[1..][i] == b[i + 1] && b[1..][j] == b[j + 1];
        }
      }
      if a[0] == b[0] {
        SubsequenceOfDistinct(a[1..], b[1..]);
        forall j | 0 < j < |a|
          ensures a[0] != a[j]
        {
          assert a[j] == a[1..][j - 1];
          assert a[j] in b[1..];
          var t :| 0 <= t < |b[1..]| && b[1..][t] == a[j];
          assert b[t + 1] == a[j];
        }
        forall i, j | 0 <= i < j < |a|
          ensures a[i] != a[j]
        {
          if i > 0 {
            assert a[i] == a[1..][i - 1] && a[j] == a[1..][j - 1];
          }
        }
        forall x | x in a
          ensures x in b
        {
          if x != a[0] {
            assert x in a[1..];
          }
        }
      } else {
        SubsequenceOfDistinct(a, b[1..]);
      }
    }
  }

  /** Missing variables are reported first, before the URL is looked at, and the
      message names them in order. */
  lemma MissingReportedFirst(env: Env)
    requires Missing(env) != []
    ensures ValidateEnvironment(env) == MissingVariables(Missing(env))
    ensures ErrorMessage(ValidateEnvironment(env)) ==
      "Missing required environment variables: " + ReprList(Missing(env))
  {
  }

  /** Once every variable is set, a URL without an `http://` or `https://` prefix is
      rejected, and one with such a prefix is accepted. */
  lemma UrlChecked(env: Env)
    requires forall k :: k in RequiredKeys ==> IsSet(env, k)
    ensures ValidateEnvironment(env) == (
      if StartsWith(ServerUrl(env), "http://") || StartsWith(ServerUrl(env), "https://") then Valid
      else InvalidUrl(ServerUrl(env)))
  {
    MissingExact(env);
    assert UrlKey in RequiredKeys;
  }

  /** Validation succeeds exactly when all four required variables are non-empty and
      the URL starts with `http://` or `https://`. */
  lemma ValidIff(env: Env)
    ensures ValidateEnvironment(env) == Valid <==>
      (forall k :: k in RequiredKeys ==> IsSet(env, k))
      && UrlKey in env
      && (StartsWith(env[UrlKey], "http://") || StartsWith(env[UrlKey], "https://"))
  {
    MissingExact(env);
    assert UrlKey in RequiredKeys;
  }
}
