/** Credential resolution (dkdc-md-cli/src/auth.rs): the bearer token comes from
    the `--token` flag if one was given (`-` meaning "read it from stdin"), and
    otherwise from the first of four environment variables that holds a
    non-empty value. The process environment and stdin are parameters. */
module Auth {
  import opened Wrappers
  import opened Text
  import opened Errors

  /** The environment variables consulted, highest priority first. */
  const EnvVars: seq<string> :=
    ["motherduck_token", "MOTHERDUCK_TOKEN", "motherduck_api_key", "MOTHERDUCK_API_KEY"]

  /** `std::env::var`: `None` when the variable is unset (or not valid
      Unicode, which the source treats the same way). */
  type Env = string -> Option<string>

  /** An environment value the resolver accepts: present and non-empty. */
  predicate IsSet(v: Option<string>) {
    v.Some? && v.value != ""
  }

  /** `names[k]` is the first of `names` whose value is set. */
  predicate FirstSetAt(names: seq<string>, env: Env, k: int) {
    0 <= k < |names| && IsSet(env(names[k])) && forall j :: 0 <= j < k ==> !IsSet(env(names[j]))
  }

  /** The loop over `ENV_VARS`: the value of the first name in `names` whose
      value is set, or nothing when none is. */
  function FirstSet(names: seq<string>, env: Env): (r: Option<string>)
    ensures r.None? <==> forall k :: 0 <= k < |names| ==> !IsSet(env(names[k]))
    ensures r.Some? ==> r.value != ""
    ensures forall k :: FirstSetAt(names, env, k) ==> r == env(names[k])
  {
    if names == [] then None
    else if IsSet(env(names[0])) then
      FirstSetAtHead(names, env);
      env(names[0])
    else
      var r := FirstSet(names[1..], env);
      FirstSetAtTail(names, env);
      r
  }

  lemma FirstSetAtHead(names: seq<string>, env: Env)
    requires |names| > 0 && IsSet(env(names[0]))
    ensures forall k :: FirstSetAt(names, env, k) ==> k == 0
  {
  }

  /** When the first name is unset, the first set name is found in the rest. */
  lemma FirstSetAtTail(names: seq<string>, env: Env)
    requires |names| > 0 && !IsSet(env(names[0]))
    ensures forall k :: FirstSetAt(names, env, k) ==> FirstSetAt(names[1..], env, k - 1)
    ensures (forall k :: 0 <= k < |names[1..]| ==> !IsSet(env(names[1..][k])))
            ==> forall k :: 0 <= k < |names| ==> !IsSet(env(names[k]))
  {
    forall k | FirstSetAt(names, env, k) ensures FirstSetAt(names[1..], env, k - 1) {
      assert forall j :: 0 <= j < k - 1 ==> names[1..][j] == names[j + 1];
    }
    if forall k :: 0 <= k < |names[1..]| ==> !IsSet(env(names[1..][k])) {
      forall k | 0 <= k < |names| ensures !IsSet(env(names[k])) {
        if k > 0 {
          assert names[k] == names[1..][k - 1];
        }
      }
    }
  }

  /** `resolve_token_with`: the environment alone decides. */
  function ResolveTokenWith(env: Env): (r: Result<string, Error>)
    ensures r.Success? ==> r.value != ""
    ensures r.Failure? ==> r.error == NoTokenFound(EnvVars)
  {
    match FirstSet(EnvVars, env)
    case Some(v) => Success(v)
    case None => Failure(NoTokenFound(EnvVars))
  }

  /** `read_token_from_reader`: the trimmed contents of stdin, which must not
      be empty. `None` stands for a stdin that could not be read as text. */
  function ReadTokenFromReader(stdin: Option<string>): (r: Result<string, Error>)
    ensures r.Success? <==> stdin.Some? && !AllWhitespace(stdin.value)
    ensures r.Success? ==> r.value == Trim(stdin.value) && r.value != ""
    ensures r.Failure? ==> r.error == (if stdin.None? then StdinUnreadable else StdinEmpty)
  {
    match stdin
    case None => Failure(StdinUnreadable)
    case Some(text) =>
      var trimmed := Trim(text);
      TrimEmptyIff(text);
      if trimmed == "" then Failure(StdinEmpty) else Success(trimmed)
  }

  /** `resolve_token_or_with`: a `--token` value, when present, decides alone. */
  function ResolveTokenOrWith(cli: Option<string>, env: Env, stdin: Option<string>): (r: Result<string, Error>)
    ensures r.Success? ==> r.value != ""
  {
    match cli
    case Some(token) =>
      if token == "-" then ReadTokenFromReader(stdin)
      else
        var trimmed := Trim(token);
        if trimmed == "" then Failure(TokenFlagEmpty) else Success(trimmed)
    case None => ResolveTokenWith(env)
  }

  // ---------------------------------------------------------------- properties

  /** With `--token -` the token is the trimmed standard input; an input of
      nothing but whitespace is an error, and the environment is never read. */
  lemma DashReadsStdin(env: Env, env': Env, stdin: Option<string>)
    ensures var r := ResolveTokenOrWith(Some("-"), env, stdin);
            && r == ResolveTokenOrWith(Some("-"), env', stdin)
            && (r.Success? <==> stdin.Some? && !AllWhitespace(stdin.value))
            && (r.Success? ==> r.value == Trim(stdin.value))
            && (stdin.Some? && AllWhitespace(stdin.value) ==> r == Failure(StdinEmpty))
  {
  }

  /** Any other `--token` value is used trimmed; if nothing is left the run
      fails, whatever the environment holds: emptiness never falls through. */
  lemma FlagValueDecides(token: string, env: Env, env': Env, stdin: Option<string>, stdin': Option<string>)
    requires token != "-"
    ensures var r := ResolveTokenOrWith(Some(token), env, stdin);
            && r == ResolveTokenOrWith(Some(token), env', stdin')
            && (r.Success? <==> !AllWhitespace(token))
            && (r.Success? ==> r.value == Trim(token))
            && (r.Failure? ==> r.error == TokenFlagEmpty)
  {
    TrimEmptyIff(token);
  }

  /** A usable `--token` value wins over every environment variable. */
  lemma FlagBeatsEnvironment(token: string, env: Env, stdin: Option<string>)
    requires token != "-" && !AllWhitespace(token)
    ensures ResolveTokenOrWith(Some(token), env, stdin) == Success(Trim(token))
  {
    TrimEmptyIff(token);
  }

  /** Without `--token`, the result is the value of the highest-priority
      variable that is set, whichever subset of the four is set. */
  lemma EnvironmentPriority(env: Env, stdin: Option<string>, k: nat)
    requires k < |EnvVars| && IsSet(env(EnvVars[k]))
    requires forall j :: 0 <= j < k ==> !IsSet(env(EnvVars[j]))
    ensures ResolveTokenOrWith(None, env, stdin) == Success(env(EnvVars[k]).value)
  {
  }

  /** Without `--token` and with none of the four variables set, resolution
      fails, naming all four in priority order. */
  lemma NoSourceFails(env: Env, stdin: Option<string>)
    requires forall k :: 0 <= k < |EnvVars| ==> !IsSet(env(EnvVars[k]))
    ensures ResolveTokenOrWith(None, env, stdin) == Failure(NoTokenFound(EnvVars))
  {
  }

  /** The text of that failure names every variable consulted. */
  lemma NoTokenMessageNamesAll(k: nat)
    requires k < |EnvVars|
    ensures Contains(NoTokenFound(EnvVars).Message(), EnvVars[k])
  {
    var prefix := "No MotherDuck token found. Set one of: ";
    JoinContainsParts(EnvVars, ", ", k);
    var i :| OccursAt(Join(EnvVars, ", "), EnvVars[k], i);
    OccursWithin(prefix, Join(EnvVars, ", "), "", EnvVars[k], i);
    assert prefix + Join(EnvVars, ", ") + "" == NoTokenFound(EnvVars).Message();
  }

  /** Environments that agree on which of `names` are set, and on the values
      of those that are, pick the same value. */
  lemma {:induction false} FirstSetCongruent(names: seq<string>, env: Env, env': Env)
    requires forall k :: 0 <= k < |names| ==>
               IsSet(env(names[k])) == IsSet(env'(names[k]))
               && (IsSet(env(names[k])) ==> env(names[k]) == env'(names[k]))
    ensures FirstSet(names, env) == FirstSet(names, env')
    decreases |names|
  {
    if names != [] && !IsSet(env(names[0])) {
      assert forall k :: 1 <= k < |names| ==> names[1..][k - 1] == names[k];
      FirstSetCongruent(names[1..], env, env');
    }
  }

  /** A variable set to the empty string is indistinguishable from an unset
      one: environments that agree on which variables are set, and on their
      values, resolve alike. */
  lemma EmptyIsUnset(env: Env, env': Env, stdin: Option<string>)
    requires forall k :: 0 <= k < |EnvVars| ==>
               IsSet(env(EnvVars[k])) == IsSet(env'(EnvVars[k]))
               && (IsSet(env(EnvVars[k])) ==> env(EnvVars[k]) == env'(EnvVars[k]))
    ensures ResolveTokenOrWith(None, env, stdin) == ResolveTokenOrWith(None, env', stdin)
  {
    FirstSetCongruent(EnvVars, env, env');
  }

  // The cases exercised in the repository's tests, one lemma each.

  lemma OnlyLowestPrioritySet()
    ensures ResolveTokenWith(k => if k == "MOTHERDUCK_API_KEY" then Some("key4") else None) == Success("key4")
  {
    EnvironmentPriority(k => if k == "MOTHERDUCK_API_KEY" then Some("key4") else None, None, 3);
  }

  lemma HigherPriorityWins()
    ensures ResolveTokenWith(k => if k == "motherduck_api_key" then Some("key3")
                                  else if k == "MOTHERDUCK_API_KEY" then Some("key4") else None) == Success("key3")
  {
    EnvironmentPriority(k => if k == "motherduck_api_key" then Some("key3")
                             else if k == "MOTHERDUCK_API_KEY" then Some("key4") else None, None, 2);
  }

  lemma EmptyVariableSkipped()
    ensures ResolveTokenWith(k => if k == "motherduck_token" then Some("")
                                  else if k == "MOTHERDUCK_TOKEN" then Some("real-token") else None) == Success("real-token")
  {
    EnvironmentPriority(k => if k == "motherduck_token" then Some("")
                             else if k == "MOTHERDUCK_TOKEN" then Some("real-token") else None, None, 1);
  }

  lemma FlagTrimmed()
    ensures ResolveTokenOrWith(Some("  tok  \n"), _ => None, None) == Success("tok")
  {
    var t := "  tok  \n";
    assert t[2] == 't';
    FlagBeatsEnvironment(t, _ => None, None);
    TrimExampleToken();
  }

  lemma FlagEmpty()
    ensures ResolveTokenOrWith(Some(""), _ => None, None) == Failure(TokenFlagEmpty)
  {
  }

  lemma StdinBlank()
    ensures ResolveTokenOrWith(Some("-"), _ => None, Some("   \n")) == Failure(StdinEmpty)
  {
    TrimExampleBlank();
  }
}
