/** The command layer (dkdc-md-cli/src/cli.rs): the API names of the enum
    arguments, the confirmation gate, the read-modify-write merge of
    `duckling set`, and the handlers that turn a parsed command into requests
    and output. The HTTP server is a parameter mapping each request to what
    came back; the terminal is a parameter holding the `--yes` flag, whether
    stdin is a terminal, and the line the user would type. */
module Cli {
  import opened Wrappers
  import opened Text
  import opened Json
  import opened Errors
  import opened Auth
  import opened Client
  import opened Render

  // ---------------------------------------------------------------- argument enums

  datatype OutputMode = TextMode | JsonMode

  datatype InstanceSize = Pulse | Standard | Jumbo | Mega | Giga {
    /** `InstanceSize::as_api_str`. */
    function ApiStr(): string {
      match this
      case Pulse => "pulse"
      case Standard => "standard"
      case Jumbo => "jumbo"
      case Mega => "mega"
      case Giga => "giga"
    }
  }

  datatype TokenType = ReadWrite | ReadScaling {
    /** `TokenType::as_api_str`. */
    function ApiStr(): string {
      match this
      case ReadWrite => "read_write"
      case ReadScaling => "read_scaling"
    }
  }

  /** The size an API name stands for, if any. */
  function InstanceSizeFromApi(s: string): (r: Option<InstanceSize>)
    ensures r.Some? ==> r.value.ApiStr() == s
  {
    if s == "pulse" then Some(Pulse)
    else if s == "standard" then Some(Standard)
    else if s == "jumbo" then Some(Jumbo)
    else if s == "mega" then Some(Mega)
    else if s == "giga" then Some(Giga)
    else None
  }

  function TokenTypeFromApi(s: string): (r: Option<TokenType>)
    ensures r.Some? ==> r.value.ApiStr() == s
  {
    if s == "read_write" then Some(ReadWrite)
    else if s == "read_scaling" then Some(ReadScaling)
    else None
  }

  /** Every size has its own API name: reading the name back gives the size,
      so no two sizes share a name. */
  lemma InstanceSizeApiRoundTrip(size: InstanceSize, other: InstanceSize)
    ensures InstanceSizeFromApi(size.ApiStr()) == Some(size)
    ensures size.ApiStr() == other.ApiStr() ==> size == other
  {
    assert InstanceSizeFromApi(other.ApiStr()) == Some(other);
  }

  lemma TokenTypeApiRoundTrip(t: TokenType, other: TokenType)
    ensures TokenTypeFromApi(t.ApiStr()) == Some(t)
    ensures t.ApiStr() == other.ApiStr() ==> t == other
  {
    assert TokenTypeFromApi(other.ApiStr()) == Some(other);
  }

  // ---------------------------------------------------------------- confirmation

  /** The answer line, trimmed and lower-cased, is `y` or `yes`. */
  predicate Affirmative(answer: string) {
    var a := ToLower(Trim(answer));
    a == "y" || a == "yes"
  }

  /** The same answers, spelt out: after trimming, `y` or `yes` in any mix of
      upper and lower case. */
  predicate AffirmativeSpelled(t: string) {
    (|t| == 1 && (t[0] == 'y' || t[0] == 'Y'))
    || (|t| == 3 && (t[0] == 'y' || t[0] == 'Y') && (t[1] == 'e' || t[1] == 'E') && (t[2] == 's' || t[2] == 'S'))
  }

  lemma LowerCharIs(c: char, lower: char, upper: char)
    requires 'a' <= lower <= 'z' && upper as int == lower as int - 32
    ensures LowerChar(c) == lower <==> c == lower || c == upper
  {
  }

  /** The accepted answers are exactly the ten spellings of `y` and `yes`,
      with any surrounding whitespace. */
  lemma AffirmativeIff(answer: string)
    ensures Affirmative(answer) <==> AffirmativeSpelled(Trim(answer))
  {
    var t := Trim(answer);
    var a := ToLower(t);
    if |t| == 1 {
      LowerCharIs(t[0], 'y', 'Y');
      assert a == "y" <==> a[0] == 'y';
    } else if |t| == 3 {
      LowerCharIs(t[0], 'y', 'Y');
      LowerCharIs(t[1], 'e', 'E');
      LowerCharIs(t[2], 's', 'S');
      assert a == "yes" <==> a[0] == 'y' && a[1] == 'e' && a[2] == 's';
    }
  }

  /** `confirm`: `--yes` or a stdin that is not a terminal confirm without
      asking; otherwise the typed answer decides and anything but yes aborts. */
  function Confirm(yes: bool, isTerminal: bool, answer: string): (r: Result<(), Error>)
    ensures r.Success? <==> yes || !isTerminal || AffirmativeSpelled(Trim(answer))
    ensures r.Failure? ==> r.error == Aborted
  {
    AffirmativeIff(answer);
    if yes || !isTerminal then Success(())
    else if Affirmative(answer) then Success(()) else Failure(Aborted)
  }

  /** Without a terminal to ask, or with `--yes`, the answer is never read. */
  lemma ConfirmSkipsAnswer(yes: bool, isTerminal: bool, answer: string, answer': string)
    requires yes || !isTerminal
    ensures Confirm(yes, isTerminal, answer) == Confirm(yes, isTerminal, answer') == Success(())
  {
  }

  /** An answer with no surrounding whitespace is read as typed: one of the
      affirmative spellings confirms. */
  lemma ConfirmAcceptsPlain(answer: string)
    requires answer != [] && !IsWhitespace(answer[0]) && !IsWhitespace(answer[|answer| - 1])
    requires AffirmativeSpelled(answer)
    ensures Confirm(false, true, answer) == Success(())
  {
    TrimUnchanged(answer);
  }

  /** An answer with no surrounding whitespace that is not an affirmative
      spelling aborts. */
  lemma ConfirmRejectsPlain(answer: string)
    requires answer != [] && !IsWhitespace(answer[0]) && !IsWhitespace(answer[|answer| - 1])
    requires !AffirmativeSpelled(answer)
    ensures Confirm(false, true, answer) == Failure(Aborted)
  {
    TrimUnchanged(answer);
  }

  /** A blank answer, pressing enter included, aborts. */
  lemma ConfirmRejectsBlank(answer: string)
    requires AllWhitespace(answer)
    ensures Confirm(false, true, answer) == Failure(Aborted)
  {
    TrimEmptyIff(answer);
  }

  // The answers exercised below, one lemma each: a shouted yes with
  // surrounding whitespace and a bare `y` confirm; a blank line, `no` and
  // `yess` abort.

  lemma ConfirmShoutedYes()
    ensures Confirm(false, true, "  YES\n") == Success(())
  {
    TrimExampleYes();
    assert AffirmativeSpelled("YES");
  }

  lemma ConfirmBareY()
    ensures Confirm(false, true, "y") == Success(())
  {
    ConfirmAcceptsPlain("y");
  }

  lemma ConfirmBlankAborts()
    ensures Confirm(false, true, "\n") == Failure(Aborted)
  {
    assert AllWhitespace("\n");
    ConfirmRejectsBlank("\n");
  }

  lemma ConfirmNoAborts()
    ensures Confirm(false, true, "no") == Failure(Aborted)
  {
    ConfirmRejectsPlain("no");
  }

  lemma ConfirmYessAborts()
    ensures Confirm(false, true, "yess") == Failure(Aborted)
  {
    ConfirmRejectsPlain("yess");
  }

  lemma TrimExampleYes()
    ensures Trim("  YES\n") == "YES"
  {
    var s := "  YES\n";
    assert !IsWhitespace(s[2]);
    assert TrimStart(s) == "YES\n" by {
      assert s[..2] == "  " && s[2..] == "YES\n";
    }
    assert TrimEnd("YES\n") == "YES" by {
      assert "YES\n"[..3] == "YES";
    }
  }

  // ---------------------------------------------------------------- duckling set

  /** The `--rw-size`, `--rs-size` and `--flock-size` arguments. */
  datatype Overrides = Overrides(rwSize: Option<InstanceSize>, rsSize: Option<InstanceSize>, flockSize: Option<U32>)

  /** The three settings `set_duckling_config` sends. */
  datatype DucklingSettings = DucklingSettings(rw: string, rs: string, flock: U32)

  /** The current read-write size: `current["read_write"]["instance_size"]`. */
  function CurrentRw(current: Value): Option<string> {
    ExtractStr(Index(current, "read_write"), "instance_size")
  }

  function CurrentRs(current: Value): Option<string> {
    ExtractStr(Index(current, "read_scaling"), "instance_size")
  }

  /** The current flock size: an unsigned 64-bit integer that also fits in
      32 bits (`as_u64` then `u32::try_from`). */
  function CurrentFlock(current: Value): (r: Option<U32>)
    ensures r.Some? <==> Index(Index(current, "read_scaling"), "flock_size").Int?
                         && 0 <= Index(Index(current, "read_scaling"), "flock_size").i < U32_LIMIT
    ensures r.Some? ==> r.value == Index(Index(current, "read_scaling"), "flock_size").i
  {
    match AsU64(Index(Index(current, "read_scaling"), "flock_size"))
    case Some(n) => if n < U32_LIMIT then Some(n) else None
    case None => None
  }

  /** Each setting is its override when one is given, and otherwise the
      current configuration's value; a value needed but missing fails the
      merge, checked in the order read-write, read-scaling, flock. */
  function Merge(current: Value, o: Overrides): (r: Result<DucklingSettings, Error>)
    ensures r.Success? <==> (o.rwSize.Some? || CurrentRw(current).Some?)
                            && (o.rsSize.Some? || CurrentRs(current).Some?)
                            && (o.flockSize.Some? || CurrentFlock(current).Some?)
    ensures r.Success? ==> r.value.rw == (if o.rwSize.Some? then o.rwSize.value.ApiStr() else CurrentRw(current).value)
    ensures r.Success? ==> r.value.rs == (if o.rsSize.Some? then o.rsSize.value.ApiStr() else CurrentRs(current).value)
    ensures r.Success? ==> r.value.flock == (if o.flockSize.Some? then o.flockSize.value else CurrentFlock(current).value)
    ensures r.Failure? ==> r.error.CurrentConfigMissing?
  {
    var rw :- match o.rwSize
      case Some(s) => Success(s.ApiStr())
      case None => if CurrentRw(current).Some? then Success(CurrentRw(current).value)
                   else Failure(CurrentConfigMissing("read_write.instance_size"));
    var rs :- match o.rsSize
      case Some(s) => Success(s.ApiStr())
      case None => if CurrentRs(current).Some? then Success(CurrentRs(current).value)
                   else Failure(CurrentConfigMissing("read_scaling.instance_size"));
    var flock :- match o.flockSize
      case Some(n) => Success(n)
      case None => if CurrentFlock(current).Some? then Success(CurrentFlock(current).value)
                   else Failure(CurrentConfigMissing("read_scaling.flock_size"));
    Success(DucklingSettings(rw, rs, flock))
  }

  /** The configuration value the server reports for given settings: the
      `config` object of the body `duckling set` sends. */
  function ConfigOf(s: DucklingSettings): Value {
    Index(DucklingConfigJson(s.rw, s.rs, s.flock), "config")
  }

  /** Merging with no overrides reads back exactly the settings a
      configuration was written from. */
  lemma MergeReadsBack(s: DucklingSettings)
    ensures Merge(ConfigOf(s), Overrides(None, None, None)) == Success(s)
  {
  }

  /** An override always wins, whatever the current configuration holds. */
  lemma OverridesWin(current: Value, o: Overrides)
    requires o.rwSize.Some? && o.rsSize.Some? && o.flockSize.Some?
    ensures Merge(current, o) == Success(DucklingSettings(o.rwSize.value.ApiStr(), o.rsSize.value.ApiStr(), o.flockSize.value))
  {
  }

  /** Overriding only the read-write size keeps the current read-scaling size
      and flock size. */
  lemma SingleOverrideKeepsRest(s: DucklingSettings, size: InstanceSize)
    ensures Merge(ConfigOf(s), Overrides(Some(size), None, None)) == Success(DucklingSettings(size.ApiStr(), s.rs, s.flock))
  {
  }

  lemma JumboOverrideExample()
    ensures Merge(ConfigOf(DucklingSettings("pulse", "standard", 4)), Overrides(Some(Jumbo), None, None))
            == Success(DucklingSettings("jumbo", "standard", 4))
  {
    SingleOverrideKeepsRest(DucklingSettings("pulse", "standard", 4), Jumbo);
  }

  /** The first missing field names the error, in the order the source
      checks them. */
  lemma MergeMissingField(current: Value, o: Overrides)
    ensures o.rwSize.None? && CurrentRw(current).None?
            ==> Merge(current, o) == Failure(CurrentConfigMissing("read_write.instance_size"))
    ensures (o.rwSize.Some? || CurrentRw(current).Some?) && o.rsSize.None? && CurrentRs(current).None?
            ==> Merge(current, o) == Failure(CurrentConfigMissing("read_scaling.instance_size"))
    ensures (o.rwSize.Some? || CurrentRw(current).Some?) && (o.rsSize.Some? || CurrentRs(current).Some?)
            && o.flockSize.None? && CurrentFlock(current).None?
            ==> Merge(current, o) == Failure(CurrentConfigMissing("read_scaling.flock_size"))
  {
  }

  /** A current flock size that does not fit in 32 bits cannot be kept. */
  lemma WideFlockRejected(rw: InstanceSize)
    ensures var current := Object(map[
              "read_write" := Object(map["instance_size" := Str("pulse")]),
              "read_scaling" := Object(map["instance_size" := Str("standard"), "flock_size" := Int(U32_LIMIT)])]);
            Merge(current, Overrides(Some(rw), None, None)) == Failure(CurrentConfigMissing("read_scaling.flock_size"))
  {
  }

  // ---------------------------------------------------------------- commands

  /** The parsed subcommands (clap's `ServiceAccountCommands`,
      `TokenCommands`, `DucklingCommands`, `AccountCommands`). */
  datatype Command =
    | ServiceAccountCreate(username: string)
    | ServiceAccountDelete(username: string)
    | TokenList(username: string)
    | TokenCreate(username: string, name: string, ttl: Option<U64>, tokenType: TokenType)
    | TokenDelete(username: string, tokenId: string)
    | DucklingGet(username: string)
    | DucklingSet(username: string, overrides: Overrides)
    | AccountListActive
  {
    predicate IsDelete() {
      ServiceAccountDelete? || TokenDelete?
    }
  }

  const MinTtl: int := 300
  const MaxTtl: int := 31536000
  const MaxFlock: int := 64

  /** What the argument parser guarantees before a command runs: a TTL in
      range, a flock size of at most 64, and at least one override for
      `duckling set`. */
  predicate ValidCommand(cmd: Command) {
    match cmd
    case TokenCreate(_, _, ttl, _) => ttl.None? || MinTtl <= ttl.value <= MaxTtl
    case DucklingSet(_, o) =>
      (o.rwSize.Some? || o.rsSize.Some? || o.flockSize.Some?)
      && (o.flockSize.None? || o.flockSize.value <= MaxFlock)
    case _ => true
  }

  /** The terminal as the confirmation gate sees it. */
  datatype Console = Console(yes: bool, isTerminal: bool, answer: string)

  /** One write to stdout: text (newlines included), or a value printed as
      pretty JSON by `print_json`. */
  datatype Emit = Chars(text: string) | PrettyJson(value: Value)

  /** What a run did: the requests it sent, in order, what it wrote to
      stdout, the confirmation prompts it wrote to stderr, and how it ended. */
  datatype Outcome = Outcome(calls: seq<Request>, stdout: seq<Emit>, prompts: seq<string>, result: Result<(), Error>)

  /** The HTTP exchange for each request. */
  type Server = Request -> Exchange

  /** `println!("{}", text)`. */
  function PrintLine(text: string): seq<Emit> {
    [Chars(text + "\n")]
  }

  /** A table, written only when it has rows. */
  function PrintTable(headers: seq<string>, rows: seq<seq<string>>): (r: seq<Emit>)
    requires Rectangular(headers, rows)
    ensures r == [] <==> rows == []
    ensures r != [] ==> r == [Chars(Unlines(TableLines(headers, rows)))]
  {
    TableTextIsLines(headers, rows);
    var t := TableText(headers, rows);
    if t == "" then [] else [Chars(t)]
  }

  /** A table for rows that may be missing: nothing when they are. */
  function PrintRows(headers: seq<string>, rows: Option<seq<seq<string>>>): (r: seq<Emit>)
    requires rows.Some? ==> Rectangular(headers, rows.value)
    ensures forall k :: 0 <= k < |r| ==> r[k].Chars?
    ensures r == [] <==> rows.None? || rows.value == []
    ensures r != [] ==> r == [Chars(Unlines(TableLines(headers, rows.value)))]
  {
    match rows
    case Some(rs) => PrintTable(headers, rs)
    case None => []
  }

  /** `print_duckling_config`: its two lines, one `println!` each. */
  function PrintDucklingConfig(config: Value): (r: seq<Emit>)
    ensures |r| == 2 && r[0].Chars? && r[1].Chars?
    ensures r[0].text + r[1].text == Unlines(DucklingConfigLines(config))
  {
    var lines := DucklingConfigLines(config);
    assert Unlines(lines) == lines[0] + "\n" + (lines[1] + "\n" + "") by {
      assert lines[1..][0] == lines[1] && lines[1..][1..] == [];
      assert Unlines(lines[1..]) == lines[1] + "\n" + Unlines([]);
    }
    PrintLine(lines[0]) + PrintLine(lines[1])
  }

  /** The prompt `confirm` writes before reading the answer, if it asks. */
  function Prompt(console: Console, question: string): seq<string> {
    if console.yes || !console.isTerminal then [] else [question]
  }

  /** What a delete asks about: the service account's name, or the token's
      id. */
  function DeleteSubject(cmd: Command): string
    requires cmd.IsDelete()
  {
    if cmd.ServiceAccountDelete? then cmd.username else cmd.tokenId
  }

  const PromptEnd: string := "'? [y/N] "

  /** What a delete's question opens with: the kind of thing deleted. */
  function DeleteLead(cmd: Command): string
    requires cmd.IsDelete()
  {
    if cmd.ServiceAccountDelete? then "Delete service account '" else "Delete token '"
  }

  /** `subject` between `lead` and `tail`, each at its place. */
  function Framed(lead: string, subject: string, tail: string): (r: string)
    ensures |r| == |lead| + |subject| + |tail|
    ensures OccursAt(r, lead, 0) && OccursAt(r, subject, |lead|) && OccursAt(r, tail, |r| - |tail|)
  {
    var r := lead + subject + tail;
    assert r[..|lead|] == lead && r[|lead|..|lead| + |subject|] == subject && r[|r| - |tail|..] == tail;
    r
  }

  /** The question a delete asks: what kind of thing is deleted, its name or
      id in quotes, and the `[y/N]` choice with no as the default. */
  function DeletePrompt(cmd: Command): (r: string)
    requires cmd.IsDelete()
    ensures |r| == |DeleteLead(cmd)| + |DeleteSubject(cmd)| + |PromptEnd|
    ensures OccursAt(r, DeleteLead(cmd), 0)
    ensures OccursAt(r, DeleteSubject(cmd), |DeleteLead(cmd)|)
    ensures OccursAt(r, PromptEnd, |r| - |PromptEnd|)
  {
    Framed(DeleteLead(cmd), DeleteSubject(cmd), PromptEnd)
  }

  /** The prompt names what is deleted: prompts of the same kind of delete
      differ exactly when their subjects do. */
  lemma DeletePromptNamesSubject(cmd: Command, cmd': Command)
    requires cmd.IsDelete() && cmd'.IsDelete() && cmd.ServiceAccountDelete? == cmd'.ServiceAccountDelete?
    ensures DeletePrompt(cmd) == DeletePrompt(cmd') <==> DeleteSubject(cmd) == DeleteSubject(cmd')
  {
    var lead := DeleteLead(cmd);
    assert DeleteLead(cmd') == lead;
    var p, p' := DeletePrompt(cmd), DeletePrompt(cmd');
    if p == p' {
      assert DeleteSubject(cmd) == p[|lead|..|p| - |PromptEnd|] == DeleteSubject(cmd');
    }
  }

  /** The one request a command other than `duckling set` sends. */
  function RequestFor(cmd: Command): Request
    requires !cmd.DucklingSet?
  {
    match cmd
    case ServiceAccountCreate(username) => CreateUser(username)
    case ServiceAccountDelete(username) => DeleteUser(username)
    case TokenList(username) => ListTokens(username)
    case TokenCreate(username, name, ttl, tokenType) =>
      CreateToken(username, CreateTokenRequest(name, ttl, Some(tokenType.ApiStr())))
    case TokenDelete(username, tokenId) => DeleteToken(username, tokenId)
    case DucklingGet(username) => GetDucklingConfig(username)
    case AccountListActive => ListActiveAccounts()
  }

  /** What a command writes in text mode for the value its call returned. */
  function TextOutput(cmd: Command, result: Value): (r: seq<Emit>)
    ensures forall k :: 0 <= k < |r| ==> r[k].Chars?
    ensures cmd.IsDelete() ==> r == []
    ensures cmd.ServiceAccountCreate? ==> r == [Chars(DisplayField(result, "username") + "\n")]
    ensures cmd.TokenCreate? ==> r == [Chars(DisplayField(result, "token") + "\n")]
    ensures cmd.DucklingGet? || cmd.DucklingSet? ==>
              |r| == 2 && r[0].text + r[1].text == Unlines(DucklingConfigLines(result))
    ensures cmd.TokenList? ==>
              (r == [] <==> TokenRows(result).None? || TokenRows(result).value == [])
              && (r != [] ==> r == [Chars(Unlines(TableLines(TokenHeaders, TokenRows(result).value)))])
    ensures cmd.AccountListActive? ==>
              (r == [] <==> AccountRows(result).None? || AccountRows(result).value == [])
              && (r != [] ==> r == [Chars(Unlines(TableLines(AccountHeaders, AccountRows(result).value)))])
  {
    match cmd
    case ServiceAccountCreate(_) => PrintLine(DisplayField(result, "username"))
    case ServiceAccountDelete(_) => []
    case TokenList(_) => PrintRows(TokenHeaders, TokenRows(result))
    case TokenCreate(_, _, _, _) => PrintLine(DisplayField(result, "token"))
    case TokenDelete(_, _) => []
    case DucklingGet(_) => PrintDucklingConfig(result)
    case DucklingSet(_, _) => PrintDucklingConfig(result)
    case AccountListActive => PrintRows(AccountHeaders, AccountRows(result))
  }

  /** The output for a successful call's value in either mode. */
  function Output(cmd: Command, mode: OutputMode, result: Value): seq<Emit> {
    if mode == JsonMode then [PrettyJson(result)] else TextOutput(cmd, result)
  }

  /** Send `req` after `earlier` requests; print the value on success, stop
      with the error otherwise. */
  function Finish(cmd: Command, mode: OutputMode, earlier: seq<Request>, prompts: seq<string>,
                  req: Request, server: Server): (out: Outcome)
    ensures out.calls == earlier + [req] && out.prompts == prompts
    ensures out.result.Success? <==> Call(req, server(req)).Success?
    ensures out.result.Success? ==> out.stdout == Output(cmd, mode, Call(req, server(req)).value)
  {
    match Call(req, server(req))
    case Success(v) => Outcome(earlier + [req], Output(cmd, mode, v), prompts, Success(()))
    case Failure(e) => Outcome(earlier + [req], [], prompts, Failure(e))
  }

  /** `handle_service_account`, `handle_token`, `handle_duckling` and
      `handle_account` for an already constructed client. */
  function Execute(cmd: Command, mode: OutputMode, console: Console, server: Server): (out: Outcome)
    requires ValidCommand(cmd)
    ensures out.result.Failure? ==> out.stdout == []
    ensures cmd.IsDelete() ==> out.prompts == Prompt(console, DeletePrompt(cmd))
    ensures !cmd.IsDelete() ==> out.prompts == []
    ensures !cmd.DucklingSet? ==> out.calls == [] || out.calls == [RequestFor(cmd)]
    ensures !cmd.DucklingSet? && !cmd.IsDelete() ==> out.calls == [RequestFor(cmd)]
    ensures cmd.IsDelete() ==>
              (out.calls == [RequestFor(cmd)] <==> Confirm(console.yes, console.isTerminal, console.answer).Success?)
  {
    match cmd
    case ServiceAccountDelete(_) =>
      (match Confirm(console.yes, console.isTerminal, console.answer)
       case Failure(e) => Outcome([], [], Prompt(console, DeletePrompt(cmd)), Failure(e))
       case Success(_) => Finish(cmd, mode, [], Prompt(console, DeletePrompt(cmd)), RequestFor(cmd), server))
    case TokenDelete(_, _) =>
      (match Confirm(console.yes, console.isTerminal, console.answer)
       case Failure(e) => Outcome([], [], Prompt(console, DeletePrompt(cmd)), Failure(e))
       case Success(_) => Finish(cmd, mode, [], Prompt(console, DeletePrompt(cmd)), RequestFor(cmd), server))
    case DucklingSet(username, o) =>
      var get := GetDucklingConfig(username);
      (match Call(get, server(get))
       case Failure(e) => Outcome([get], [], [], Failure(e))
       case Success(current) =>
         (match Merge(current, o)
          case Failure(e) => Outcome([get], [], [], Failure(e))
          case Success(s) => Finish(cmd, mode, [get], [], SetDucklingConfig(username, s.rw, s.rs, s.flock), server)))
    case _ => Finish(cmd, mode, [], [], RequestFor(cmd), server)
  }

  /** `run` after argument parsing: resolve the token, build the client,
      dispatch. */
  function Run(tokenFlag: Option<string>, env: Env, stdin: Option<string>,
               cmd: Command, mode: OutputMode, console: Console, server: Server): (out: Outcome)
    requires ValidCommand(cmd)
    ensures ResolveTokenOrWith(tokenFlag, env, stdin).Failure? ==>
              out == Outcome([], [], [], Failure(ResolveTokenOrWith(tokenFlag, env, stdin).error))
    ensures ResolveTokenOrWith(tokenFlag, env, stdin).Success? ==> out == Execute(cmd, mode, console, server)
  {
    match ResolveTokenOrWith(tokenFlag, env, stdin)
    case Failure(e) => Outcome([], [], [], Failure(e))
    case Success(token) =>
      (match NewClient(token)
       case Failure(e) => Outcome([], [], [], Failure(e))
       case Success(_) => Execute(cmd, mode, console, server))
  }

  // ---------------------------------------------------------------- properties of the handlers

  /** A delete that is not confirmed sends nothing, prints nothing, and ends
      with "aborted". */
  lemma DeclinedDeleteSendsNothing(cmd: Command, mode: OutputMode, console: Console, server: Server)
    requires cmd.IsDelete()
    requires !console.yes && console.isTerminal && !AffirmativeSpelled(Trim(console.answer))
    ensures var out := Execute(cmd, mode, console, server);
            out.calls == [] && out.stdout == [] && out.result == Failure(Aborted)
            && out.prompts == [DeletePrompt(cmd)]
  {
    assert Confirm(console.yes, console.isTerminal, console.answer) == Failure(Aborted);
    assert Prompt(console, DeletePrompt(cmd)) == [DeletePrompt(cmd)];
  }

  /** A confirmed delete sends exactly the one delete request. */
  lemma ConfirmedDeleteSendsDelete(cmd: Command, mode: OutputMode, console: Console, server: Server)
    requires cmd.IsDelete()
    requires console.yes || !console.isTerminal || AffirmativeSpelled(Trim(console.answer))
    ensures var out := Execute(cmd, mode, console, server);
            && out.calls == [RequestFor(cmd)]
            && out.calls[0].verb == Delete
  {
  }

  /** In text mode a delete prints nothing, whether or not it succeeds. */
  lemma TextDeleteIsSilent(cmd: Command, console: Console, server: Server)
    requires cmd.IsDelete()
    ensures Execute(cmd, TextMode, console, server).stdout == []
  {
  }

  /** A run's last call succeeded and its value is all the run printed. */
  predicate PrintedLastValue(out: Outcome, server: Server) {
    |out.calls| >= 1
    && var last := out.calls[|out.calls| - 1];
       Call(last, server(last)).Success?
       && out.stdout == [PrettyJson(Call(last, server(last)).value)]
  }

  lemma FinishJsonPrintsLast(cmd: Command, earlier: seq<Request>, prompts: seq<string>, req: Request, server: Server)
    ensures var out := Finish(cmd, JsonMode, earlier, prompts, req, server);
            out.result.Success? ==> PrintedLastValue(out, server)
  {
    var out := Finish(cmd, JsonMode, earlier, prompts, req, server);
    assert out.calls[|out.calls| - 1] == req;
  }

  /** In JSON mode a successful command's last call succeeded, and the
      command prints that call's value whole, even when a list in it is
      empty. */
  lemma JsonModePrintsResult(cmd: Command, console: Console, server: Server)
    requires ValidCommand(cmd)
    ensures var out := Execute(cmd, JsonMode, console, server);
            out.result.Success? ==> PrintedLastValue(out, server)
  {
    var out := Execute(cmd, JsonMode, console, server);
    if out.result.Success? {
      match cmd
      case DucklingSet(username, o) =>
        var get := GetDucklingConfig(username);
        var s := Merge(Call(get, server(get)).value, o).value;
        var put := SetDucklingConfig(username, s.rw, s.rs, s.flock);
        assert out == Finish(cmd, JsonMode, [get], [], put, server);
        FinishJsonPrintsLast(cmd, [get], [], put, server);
      case ServiceAccountDelete(_) =>
        assert out == Finish(cmd, JsonMode, [], Prompt(console, DeletePrompt(cmd)), RequestFor(cmd), server);
        FinishJsonPrintsLast(cmd, [], Prompt(console, DeletePrompt(cmd)), RequestFor(cmd), server);
      case TokenDelete(_, _) =>
        assert out == Finish(cmd, JsonMode, [], Prompt(console, DeletePrompt(cmd)), RequestFor(cmd), server);
        FinishJsonPrintsLast(cmd, [], Prompt(console, DeletePrompt(cmd)), RequestFor(cmd), server);
      case _ =>
        assert out == Finish(cmd, JsonMode, [], [], RequestFor(cmd), server);
        FinishJsonPrintsLast(cmd, [], [], RequestFor(cmd), server);
    }
  }

  /** Only the delete commands look at the console. */
  lemma OnlyDeletesConsultConsole(cmd: Command, mode: OutputMode, console: Console, console': Console, server: Server)
    requires ValidCommand(cmd) && !cmd.IsDelete()
    ensures Execute(cmd, mode, console, server) == Execute(cmd, mode, console', server)
  {
  }

  /** `duckling set` reads the current configuration first and then writes
      the merged settings; the write is sent only when the read succeeded
      and the merge found every value it needed. */
  lemma DucklingSetReadsThenWrites(username: string, o: Overrides, mode: OutputMode, console: Console, server: Server)
    requires ValidCommand(DucklingSet(username, o))
    ensures var out := Execute(DucklingSet(username, o), mode, console, server);
            var get := GetDucklingConfig(username);
            && |out.calls| >= 1 && out.calls[0] == get
            && (|out.calls| == 2 <==> Call(get, server(get)).Success? && Merge(Call(get, server(get)).value, o).Success?)
            && |out.calls| <= 2
            && (|out.calls| == 2 ==>
                  var s := Merge(Call(get, server(get)).value, o).value;
                  out.calls[1] == SetDucklingConfig(username, s.rw, s.rs, s.flock))
  {
  }

  /** A `duckling set` whose current configuration lacks a field it needs
      never writes, and reports the missing field. */
  lemma IncompleteConfigNeverWritten(username: string, o: Overrides, mode: OutputMode, console: Console, server: Server)
    requires ValidCommand(DucklingSet(username, o))
    requires var get := GetDucklingConfig(username);
             Call(get, server(get)).Success? && Merge(Call(get, server(get)).value, o).Failure?
    ensures var out := Execute(DucklingSet(username, o), mode, console, server);
            && out.calls == [GetDucklingConfig(username)]
            && out.result.Failure? && out.result.error.CurrentConfigMissing?
  {
  }

  /** Once a token is resolved the client is always built: the empty-token
      check in the client can never fire after resolution. */
  lemma ResolvedTokenBuildsClient(tokenFlag: Option<string>, env: Env, stdin: Option<string>)
    requires ResolveTokenOrWith(tokenFlag, env, stdin).Success?
    ensures NewClient(ResolveTokenOrWith(tokenFlag, env, stdin).value).Success?
  {
  }

  /** A run whose token cannot be resolved sends no request and prints
      nothing. */
  lemma UnresolvedTokenSendsNothing(tokenFlag: Option<string>, env: Env, stdin: Option<string>,
                                    cmd: Command, mode: OutputMode, console: Console, server: Server)
    requires ValidCommand(cmd)
    requires ResolveTokenOrWith(tokenFlag, env, stdin).Failure?
    ensures Run(tokenFlag, env, stdin, cmd, mode, console, server).calls == []
    ensures Run(tokenFlag, env, stdin, cmd, mode, console, server).stdout == []
  {
  }

  /** A `token list` in text mode prints the token table and nothing else;
      an empty list prints nothing. */
  lemma TokenListText(username: string, console: Console, server: Server)
    ensures var req := ListTokens(username);
            var out := Execute(TokenList(username), TextMode, console, server);
            && out.calls == [req]
            && (Call(req, server(req)).Success? && TokenRows(Call(req, server(req)).value).Some? ==>
                  var rows := TokenRows(Call(req, server(req)).value).value;
                  out.stdout == (if rows == [] then [] else [Chars(Unlines(TableLines(TokenHeaders, rows)))]))
            && (Call(req, server(req)).Success? && TokenRows(Call(req, server(req)).value).None? ==> out.stdout == [])
  {
  }
}
