# dkdc-md-cli in Dafny

A model of the core of `md`, a command-line client for the MotherDuck REST
API. The model covers:

- how the client finds its bearer token: the `--token` flag, standard input,
  or four environment variables in a fixed order;
- how each command becomes an HTTP request: the path, with user-supplied
  segments percent-encoded, and the JSON body;
- how a response is classified as a value or an API error;
- how `duckling set` merges overrides into the current configuration;
- how a delete is gated behind a confirmation;
- how text mode renders results: single fields, the token and account
  tables, and the two-line duckling configuration.

The modules follow the program's source files:

| module | models |
|---|---|
| `Wrappers` | `Option` and `Result` |
| `Text` | the ASCII string operations the program uses: `trim`, `to_lowercase`, `{:<w$}` padding, `join` and decimal `to_string`; also `Split`, which the program never calls and which serves only to state how a path falls into segments |
| `Json` | `serde_json::Value` and its `get`, `[]`, `as_str`, `as_array` and `as_u64` accessors |
| `Errors` | every failure modelled, with the text `{:#}` prints for it; failures to flush stderr, to read the confirmation answer and to serialise a request body are not among them (see below) |
| `Auth` | `auth.rs` |
| `PercentEncoding` | `encode_path`: UTF-8 encoding, then percent-encoding of each byte, with a decoder as in section 2.1 of RFC 3986 |
| `Client` | `client.rs`: requests, bodies, `parse_response`, and the context added to failures |
| `Render` | the text rendering in `cli.rs` |
| `Cli` | the enums, `confirm`, the merge, and the handlers in `cli.rs` |

Parameters stand in for everything outside the process:

- The environment is a function from a name to an optional value.
- Standard input is an optional string, `None` when it cannot be read.
- The terminal is a `Console`: the `--yes` flag, whether stdin is a terminal, and the line the user types.
- The HTTP server is a function from a `Request` to an `Exchange`: no response, an unreadable body, or a status with its text and, if that text is JSON, the decoded value.

A run produces an `Outcome`:

- the requests sent, in order;
- what went to stdout;
- the confirmation prompts written to stderr;
- the final `Result`.

## Model

| member | source | states |
|---|---|---|
| `Auth.FirstSet` | dkdc-md-cli/src/auth.rs:47-53 | nothing is found exactly when no listed variable is set to a non-empty value; otherwise the value of the first name that is set, which is non-empty |
| `Auth.ResolveTokenWith` | dkdc-md-cli/src/auth.rs:44-59 | success carries a non-empty token; failure is the "no token found" error naming the four variables |
| `Auth.ReadTokenFromReader` | dkdc-md-cli/src/auth.rs:34-42 | succeeds exactly when stdin was read and is not all whitespace; the token is the trimmed input; the two failures are told apart |
| `Auth.ResolveTokenOrWith` | dkdc-md-cli/src/auth.rs:18-32 | every successful resolution returns a non-empty token |
| `Auth.DashReadsStdin` | dkdc-md-cli/src/auth.rs:23-26 | with `--token -` the result is the trimmed stdin, blank stdin is "stdin was empty", and the environment has no influence |
| `Auth.FlagValueDecides` | dkdc-md-cli/src/auth.rs:27-29 | any other flag value is used trimmed; an all-whitespace value fails with "must not be empty" and never falls through to the environment or stdin |
| `Auth.FlagBeatsEnvironment` | dkdc-md-cli/src/auth.rs:23-30 | a usable flag value wins over every environment variable |
| `Auth.EnvironmentPriority` | dkdc-md-cli/src/auth.rs:5-10 | without a flag, the highest-priority set variable supplies the token, whichever others are set |
| `Auth.NoSourceFails` | dkdc-md-cli/src/auth.rs:55-58 | without a flag and with none of the four set, resolution fails with the no-token error |
| `Auth.NoTokenMessageNamesAll` | dkdc-md-cli/src/auth.rs:55-58 | the no-token message contains each of the four variable names |
| `Auth.FirstSetCongruent` | dkdc-md-cli/src/auth.rs:47-52 | environments that agree on which names are set, and on their values, choose the same value |
| `Auth.EmptyIsUnset` | dkdc-md-cli/src/auth.rs:48-49 | a variable set to the empty string resolves exactly like an unset one |
| `Auth.OnlyLowestPrioritySet` | dkdc-md-cli/src/auth.rs:82-84 | only `MOTHERDUCK_API_KEY=key4` set gives `key4` |
| `Auth.HigherPriorityWins` | dkdc-md-cli/src/auth.rs:86-91 | `motherduck_api_key` wins over `MOTHERDUCK_API_KEY` |
| `Auth.EmptyVariableSkipped` | dkdc-md-cli/src/auth.rs:111-115 | an empty `motherduck_token` is skipped in favour of `MOTHERDUCK_TOKEN` |
| `Auth.FlagTrimmed` | dkdc-md-cli/src/auth.rs:132-136 | `--token "  tok  \n"` gives `tok` |
| `Auth.FlagEmpty` | dkdc-md-cli/src/auth.rs:138-147 | `--token ""` fails with the empty-flag error |
| `Auth.StdinBlank` | dkdc-md-cli/src/auth.rs:174-179 | `--token -` with stdin `"   \n"` fails with "stdin was empty" |
| `Text.TrimEmptyIff` | dkdc-md-cli/src/auth.rs:27-28 | a string trims to nothing exactly when it is all ASCII whitespace |
| `Text.JoinPartAt` | dkdc-md-cli/src/cli.rs:415 | in a joined string, part k sits at the sum of the earlier parts' lengths plus one separator each |
| `Text.JoinSeparatorAt` | dkdc-md-cli/src/cli.rs:415 | between part k and part k+1 stands exactly one separator, and nothing else |
| `Text.JoinLength` | dkdc-md-cli/src/cli.rs:415 | the joined string ends with the last part: its length is the last part's start plus its length |
| `Errors.Error.Message` | dkdc-md-cli/src/client.rs:57-67 | every error's text is non-empty; a context layer prints its context, `: `, and then exactly the text of the error it wraps |
| `Errors.ApiMessageNamesStatusAndMessage` | dkdc-md-cli/src/client.rs:198-201 | an API error's text starts with `API error (`, contains the decimal status, and ends with the message |
| `Errors.ApiMessageStatusReadable` | dkdc-md-cli/src/client.rs:198 | the digits between `(` and `): ` read back as the status |
| `PercentEncoding.Utf8` | dkdc-md-cli/src/client.rs:16-17 | a string of ASCII characters encodes to its code points, one byte each |
| `PercentEncoding.Utf8CharRoundTrip` | dkdc-md-cli/src/client.rs:16-17 | decoding a character's UTF-8 bytes gives back its code point |
| `PercentEncoding.Utf8Injective` | dkdc-md-cli/src/client.rs:16-17 | distinct strings have distinct UTF-8 encodings |
| `PercentEncoding.Utf8Char` | dkdc-md-cli/src/client.rs:16-17 | one to four bytes per character; an ASCII character is its own code; every byte of a non-ASCII character is 0x80 or above |
| `PercentEncoding.EncodeBytes` | dkdc-md-cli/src/client.rs:14-18 | every output character is `%` or a plain ASCII character outside the reserved set |
| `PercentEncoding.DecodeEncodeBytes` | dkdc-md-cli/src/client.rs:14-18 | percent-decoding the encoding of any byte string gives those bytes back |
| `PercentEncoding.EncodePath` | dkdc-md-cli/src/client.rs:16-18 | the encoded segment percent-decodes to the UTF-8 bytes of the input |
| `PercentEncoding.DecodeEncodePath` | dkdc-md-cli/src/client.rs:16-18 | percent-decoding `encode_path(s)` gives the UTF-8 bytes of `s` |
| `PercentEncoding.EncodePathInjective` | dkdc-md-cli/src/client.rs:16-18 | two strings with the same encoding are the same string |
| `PercentEncoding.EncodedHasNoDelimiters` | dkdc-md-cli/src/client.rs:14 | an encoded segment contains no `/`, `?`, `#` or space |
| `PercentEncoding.PlainStringUnchanged` | dkdc-md-cli/src/client.rs:14-18 | a string of ASCII characters outside the reserved set encodes to itself |
| `PercentEncoding.EscapeForm` | dkdc-md-cli/src/client.rs:14-18 | an escaped byte becomes `%` and two upper-case hex digits whose value is the byte |
| `PercentEncoding.NonAsciiEscaped` | dkdc-md-cli/src/client.rs:16-17 | every UTF-8 byte of a non-ASCII character is escaped |
| `PercentEncoding.EncodeBytesConcat` | dkdc-md-cli/src/client.rs:16-17 | encoding works byte by byte: the encoding of a concatenation is the concatenation of the encodings |
| `PercentEncoding.SafeIdentifierUnchanged` | dkdc-md-cli/src/client.rs:209-212 | `svc_test-user.1` encodes to itself |
| `PercentEncoding.UnsafeCharactersEscaped` | dkdc-md-cli/src/client.rs:214-217 | `a/b?c#d e` encodes to `a%2Fb%3Fc%23d%20e` |
| `Client.NewClient` | dkdc-md-cli/src/client.rs:43-55 | succeeds exactly when the token is non-empty; the credential is `Bearer ` followed by the token |
| `Client.CreateTokenJson` | dkdc-md-cli/src/client.rs:33-40 | the keys are `name` plus `ttl` and `token_type` exactly when each is present, each holding its field |
| `Client.CreateTokenJsonRoundTrip` | dkdc-md-cli/src/client.rs:33-40 | reading the serialised request back gives the request |
| `Client.CreateTokenJsonNameOnly` | dkdc-md-cli/src/client.rs:251-259 | with no TTL and no type the body is `{"name": ...}` alone |
| `Client.DucklingConfigJson` | dkdc-md-cli/src/client.rs:165-170 | the body has only `config`, holding `read_write.instance_size`, `read_scaling.instance_size` and `read_scaling.flock_size` with the given values |
| `Client.CreateUser` | dkdc-md-cli/src/client.rs:111-113 | `POST /v1/users` with body `{"username": ...}` |
| `Client.DeleteUser` | dkdc-md-cli/src/client.rs:115-117 | `DELETE`, no body; the path's segments are `v1`, `users` and the encoded username |
| `Client.ListTokens` | dkdc-md-cli/src/client.rs:121-123 | `GET`, no body; the segments are `v1`, `users`, the encoded username and `tokens` |
| `Client.CreateToken` | dkdc-md-cli/src/client.rs:125-140 | `POST` of the serialised request to the user's `tokens` segment |
| `Client.DeleteToken` | dkdc-md-cli/src/client.rs:142-148 | `DELETE`; the segments end with the encoded username, `tokens` and the encoded token id |
| `Client.GetDucklingConfig` | dkdc-md-cli/src/client.rs:152-154 | `GET`, no body, to the user's `instances` segment |
| `Client.SetDucklingConfig` | dkdc-md-cli/src/client.rs:156-172 | `PUT` of the nested configuration body to the user's `instances` segment |
| `Client.ListActiveAccounts` | dkdc-md-cli/src/client.rs:176-178 | `GET /v1/active_accounts`, no body |
| `Client.UserPathSegments` | dkdc-md-cli/src/client.rs:116 | whatever the username, a user's path splits into exactly `v1`, `users` and its encoding |
| `Client.UserSubpathSegments` | dkdc-md-cli/src/client.rs:122 | a fixed leaf after the user's path adds exactly one segment |
| `Client.ParseResponse` | dkdc-md-cli/src/client.rs:190-203 | success exactly for 2xx; a 2xx value is the decoded body, or the raw text as a string when the body is not JSON; otherwise an API error with the status and the body's string `message`, falling back to the raw text |
| `Client.Call` | dkdc-md-cli/src/client.rs:57-67 | succeeds exactly for an answered 2xx; a transport failure carries no context; every later failure is wrapped with the method and path |
| `Client.ParseResponseExamples` | dkdc-md-cli/src/client.rs:219-249 | the five classifications in the repository's tests |
| `Render.ExtractStr` | dkdc-md-cli/src/cli.rs:183-186 | present exactly when the field exists and is a string, and then it is that string |
| `Render.DisplayField` | dkdc-md-cli/src/cli.rs:178-181 | the field's string when there is one, `-` otherwise |
| `Render.DisplayFieldCases` | dkdc-md-cli/src/cli.rs:178-181 | missing, null and non-string fields all show as `-`; any other text is the field's own string |
| `Render.MaxCellBound` | dkdc-md-cli/src/cli.rs:197-201 | the longest cell in a column is at least every cell length in it, equal to one of them, and 0 without rows |
| `Render.Widths` | dkdc-md-cli/src/cli.rs:194-204 | one width per header |
| `Render.WidthsBound` | dkdc-md-cli/src/cli.rs:194-204 | each column's width is at least its header and every cell below it, and equals one of those lengths |
| `Render.TableText` | dkdc-md-cli/src/cli.rs:189-192 | nothing is printed exactly when there are no rows |
| `Render.TableLines` | dkdc-md-cli/src/cli.rs:206-226 | no lines without rows; otherwise a header line and one line per row |
| `Render.RowTextIsLine` | dkdc-md-cli/src/cli.rs:218-226 | a full row is written as its padded line and one newline |
| `Render.RowsTextIsLines` | dkdc-md-cli/src/cli.rs:217-226 | the rows are written as their lines, one after another |
| `Render.TableTextIsLines` | dkdc-md-cli/src/cli.rs:189-227 | the stream `print_table` writes equals the header line and row lines, each ending in a newline |
| `Render.CellStartsAtColumn` | dkdc-md-cli/src/cli.rs:209-215 | in a line whose cells fit their widths, cell k starts after the earlier widths plus two spaces each |
| `Render.TableColumnsAligned` | dkdc-md-cli/src/cli.rs:206-226 | on every line, header and rows alike, column k starts at the same offset |
| `Render.LineCellsFit` | dkdc-md-cli/src/cli.rs:194-204 | each line has one cell per column and every cell fits its column's width |
| `Render.LineLength` | dkdc-md-cli/src/cli.rs:213 | the last cell is printed without padding: a line ends where its last cell does |
| `Render.LineGapsAreSpaces` | dkdc-md-cli/src/cli.rs:211 | between the end of a cell and the start of the next column every character is a space |
| `Render.TableLineLength` | dkdc-md-cli/src/cli.rs:206-224 | every table line, header and rows alike, is as long as its last column's start plus its last cell |
| `Render.TableGapsAreSpaces` | dkdc-md-cli/src/cli.rs:209-224 | on every table line, whatever lies between a cell and the next column is spaces |
| `Render.ExampleWidths` | dkdc-md-cli/src/cli.rs:656-664 | headers `ID`/`NAME` over rows `1`/`alice` and `1000`/`b` give widths 4 and 5 |
| `Render.ExampleLines` | dkdc-md-cli/src/cli.rs:656-664 | that table prints `ID    NAME`, `1     alice`, `1000  b` |
| `Render.EmptyTablePrintsNothing` | dkdc-md-cli/src/cli.rs:645-649 | no rows, no output |
| `Render.ExpiryCell` | dkdc-md-cli/src/cli.rs:310-313 | the expiry cell is never empty |
| `Render.ExpiryCellCases` | dkdc-md-cli/src/cli.rs:310-313 | `never` for a missing, non-string or empty `expire_at`; any other cell is the token's own non-empty expiry |
| `Render.TokenRow` | dkdc-md-cli/src/cli.rs:305-315 | four cells under the four headers: id, name, type and expiry |
| `Render.TokenRows` | dkdc-md-cli/src/cli.rs:302-316 | rows exist exactly when `tokens` is an array; row j is the row of token j, one row per token, each with one cell per header |
| `Render.DucklingLabel` | dkdc-md-cli/src/cli.rs:408-412 | the label is the duckling's type, ` (`, its status and `)`, nothing more |
| `Render.DucklingsCell` | dkdc-md-cli/src/cli.rs:403-417 | empty exactly when there is no `ducklings` array or it is empty |
| `Render.DucklingsCellIsJoin` | dkdc-md-cli/src/cli.rs:403-417 | for a `ducklings` array the cell is its labels joined with `, ` |
| `Render.DucklingsCellShowsEach` | dkdc-md-cli/src/cli.rs:405-415 | duckling k's label starts after the earlier labels plus two characters each |
| `Render.DucklingsCellSeparated` | dkdc-md-cli/src/cli.rs:415 | each label but the last is followed by `, `, and the next label starts right after it |
| `Render.DucklingsCellEnds` | dkdc-md-cli/src/cli.rs:405-415 | the cell ends with the last duckling's label |
| `Render.DucklingsExample` | dkdc-md-cli/src/cli.rs:405-415 | two ducklings, one without a status, render as `read_write (running), read_scaling (-)` |
| `Render.AccountRow` | dkdc-md-cli/src/cli.rs:401-418 | two cells: the username and the ducklings |
| `Render.AccountRows` | dkdc-md-cli/src/cli.rs:398-420 | rows exist exactly when `accounts` is an array; row j is the row of account j, one row per account, each with one cell per header |
| `Render.DucklingConfigLines` | dkdc-md-cli/src/cli.rs:236-237 | exactly two lines |
| `Render.DucklingConfigLinesShowSettings` | dkdc-md-cli/src/cli.rs:229-238 | a configuration shows its two sizes and its flock size in decimal, which reads back as the number |
| `Render.DucklingConfigLinesEmpty` | dkdc-md-cli/src/cli.rs:229-238 | an empty configuration shows `-` for all three values |
| `Render.FlockText` | dkdc-md-cli/src/cli.rs:232-235 | `-` without an unsigned 64-bit flock size; otherwise decimal digits without a leading zero that read back as the size |
| `Render.FlockOutOfRangeShowsDash` | dkdc-md-cli/src/cli.rs:232-235 | a flock size that is not an unsigned 64-bit integer shows as `-` |
| `Cli.InstanceSizeFromApi` | dkdc-md-cli/src/cli.rs:26-34 | a name it recognises is the API string of the size it returns |
| `Cli.TokenTypeFromApi` | dkdc-md-cli/src/cli.rs:44-49 | a name it recognises is the API string of the token type it returns |
| `Cli.InstanceSizeApiRoundTrip` | dkdc-md-cli/src/cli.rs:463-469 | every size's API string reads back as that size, so no two sizes share one |
| `Cli.TokenTypeApiRoundTrip` | dkdc-md-cli/src/cli.rs:471-475 | the two token types' API strings are distinct and read back |
| `Cli.AffirmativeIff` | dkdc-md-cli/src/cli.rs:255-256 | the trimmed, lower-cased answer is `y` or `yes` exactly when the trimmed answer is one of the ten case spellings of `y` and `yes` |
| `Cli.Confirm` | dkdc-md-cli/src/cli.rs:242-261 | confirmed exactly when `--yes` is set, stdin is not a terminal, or the answer is yes in some spelling; otherwise "aborted" |
| `Cli.ConfirmSkipsAnswer` | dkdc-md-cli/src/cli.rs:243-245 | with `--yes` or without a terminal, whatever would be typed is irrelevant |
| `Cli.ConfirmAcceptsPlain` | dkdc-md-cli/src/cli.rs:255-257 | an answer without surrounding whitespace that spells yes confirms |
| `Cli.ConfirmRejectsPlain` | dkdc-md-cli/src/cli.rs:255-260 | an answer without surrounding whitespace that does not spell yes aborts |
| `Cli.ConfirmRejectsBlank` | dkdc-md-cli/src/cli.rs:255-260 | a blank answer, a bare newline included, aborts |
| `Cli.ConfirmShoutedYes` | dkdc-md-cli/src/cli.rs:255-257 | `  YES` followed by a newline confirms |
| `Cli.ConfirmBareY` | dkdc-md-cli/src/cli.rs:255-257 | `y` confirms |
| `Cli.ConfirmBlankAborts` | dkdc-md-cli/src/cli.rs:255-260 | a bare newline aborts |
| `Cli.ConfirmNoAborts` | dkdc-md-cli/src/cli.rs:255-260 | `no` aborts |
| `Cli.ConfirmYessAborts` | dkdc-md-cli/src/cli.rs:255-260 | `yess` aborts: only the exact spellings count |
| `Cli.CurrentFlock` | dkdc-md-cli/src/cli.rs:372-375 | present exactly when the current flock size is an integer in 0 to 2^32-1 |
| `Cli.Merge` | dkdc-md-cli/src/cli.rs:359-376 | succeeds exactly when every field without an override is present in the current configuration; each field is its override, else the current value |
| `Cli.MergeReadsBack` | dkdc-md-cli/src/cli.rs:359-377 | merging nothing into a configuration written from settings gives those settings |
| `Cli.OverridesWin` | dkdc-md-cli/src/cli.rs:360-371 | with all three overrides the current configuration is irrelevant |
| `Cli.SingleOverrideKeepsRest` | dkdc-md-cli/src/cli.rs:360-376 | overriding only the read-write size keeps the current read-scaling size and flock size |
| `Cli.JumboOverrideExample` | dkdc-md-cli/src/cli.rs:359-377 | pulse/standard/4 with `--rw-size jumbo` becomes jumbo/standard/4 |
| `Cli.MergeMissingField` | dkdc-md-cli/src/cli.rs:362-375 | the first missing field, in the order read-write, read-scaling, flock, names the error |
| `Cli.WideFlockRejected` | dkdc-md-cli/src/cli.rs:372-375 | a current flock size of 2^32 cannot be kept |
| `Cli.PrintTable` | dkdc-md-cli/src/cli.rs:189-227 | a table writes nothing exactly when it has no rows, and otherwise its lines |
| `Cli.PrintRows` | dkdc-md-cli/src/cli.rs:302-318 | rows that could not be built, or no rows, print nothing; otherwise the table's lines |
| `Cli.PrintDucklingConfig` | dkdc-md-cli/src/cli.rs:236-237 | two writes whose text is the configuration's two lines, each ending in a newline |
| `Cli.DeletePrompt` | dkdc-md-cli/src/cli.rs:280 | the question opens with the kind of thing deleted, names the subject in quotes, and ends with `'? [y/N] ` |
| `Cli.DeletePromptNamesSubject` | dkdc-md-cli/src/cli.rs:336 | two deletes of the same kind ask the same question exactly when they name the same subject |
| `Cli.TextOutput` | dkdc-md-cli/src/cli.rs:272-421 | in text mode a delete prints nothing; a create prints the new username or token on its own line; a duckling command prints its two configuration lines; a list prints its table, or nothing when rows are missing or empty |
| `Cli.Execute` | dkdc-md-cli/src/cli.rs:265-428 | a failed command prints nothing; only deletes prompt; every command except `duckling set` sends its one request; a delete sends its request exactly when the confirmation succeeds |
| `Cli.Run` | dkdc-md-cli/src/cli.rs:438-450 | a token that cannot be resolved ends the run before any request; otherwise the command runs |
| `Cli.DeclinedDeleteSendsNothing` | dkdc-md-cli/src/cli.rs:279-285 | a declined delete prompts once, sends nothing, prints nothing and ends with "aborted" |
| `Cli.ConfirmedDeleteSendsDelete` | dkdc-md-cli/src/cli.rs:335-341 | a confirmed delete sends exactly its one DELETE request |
| `Cli.TextDeleteIsSilent` | dkdc-md-cli/src/cli.rs:282-284 | in text mode a delete prints nothing |
| `Cli.JsonModePrintsResult` | dkdc-md-cli/src/cli.rs:380-383 | in JSON mode a successful command's last request succeeded, and its whole value is all that is printed |
| `Cli.OnlyDeletesConsultConsole` | dkdc-md-cli/src/cli.rs:444-449 | commands other than the deletes behave the same whatever the console holds |
| `Cli.DucklingSetReadsThenWrites` | dkdc-md-cli/src/cli.rs:353-378 | `duckling set` first reads the configuration; it writes the merged settings, as a second and last request, exactly when the read and the merge succeed |
| `Cli.IncompleteConfigNeverWritten` | dkdc-md-cli/src/cli.rs:362-377 | when the merge lacks a field, only the read is sent and the run fails naming the field |
| `Cli.ResolvedTokenBuildsClient` | dkdc-md-cli/src/cli.rs:441-442 | a resolved token is never refused by the client's empty-token check |
| `Cli.UnresolvedTokenSendsNothing` | dkdc-md-cli/src/cli.rs:441 | a run whose token cannot be resolved sends nothing and prints nothing |
| `Cli.TokenListText` | dkdc-md-cli/src/cli.rs:297-321 | in text mode `token list` prints the token table as lines, and nothing when there are no tokens or no `tokens` array |

## Left out

- Argument parsing (clap): a command arrives already parsed. Its value constraints become the precondition `Cli.ValidCommand`: a TTL from 300 to 31536000, a flock size of at most 64, and at least one override for `duckling set`.
- HTTP transport (ureq): the agent, the 10-second timeout, the `Authorization`, `User-Agent` and `Content-Type` headers, and body serialisation. The server's answer is an input. Requests carry method, path and body, but no headers.
- Client.Call: a transport failure is the bare "request failed"; the message of the underlying ureq error is not modelled.
- Auth.ReadTokenFromReader: an unreadable stdin is "failed to read token from stdin"; the message of the underlying I/O error is not modelled.
- Confirmation I/O errors: a failure to flush stderr or to read the answer is not modelled. The answer line is an input.
- Serialisation errors: `serde_json::to_vec` of a request body is taken to succeed, so "failed to serialize request" is not an `Errors.Error`.
- Environment: a variable whose value is not valid Unicode is treated like an unset one, as the source's `if let Ok(val)` does.
- Parsing and printing JSON text (serde_json): a response's decoded value is an input. `print_json` output is an `Emit` holding the value, not its pretty-printed text.
- Unicode: `trim` and `to_lowercase` are modelled for ASCII whitespace and ASCII letters only. Table widths count characters, which equal the byte lengths the source uses for ASCII text.
- Render.Widths: its own contract states only that there is one width per header; the widths' values are stated by `Render.WidthsBound`.
- Render.DucklingConfigLines: its own contract states only that there are two lines; the contents are stated by `Render.DucklingConfigLinesShowSettings`, `Render.DucklingConfigLinesEmpty` and `Render.FlockOutOfRangeShowsDash`.
- Auth.ResolveTokenOrWith: its own contract states only that the token is non-empty; the precedence rules are stated by the `Auth` lemmas listed above.
- `main.rs` and `lib.rs` (exit codes, printing the error, module declarations), the Python wrapper `src/dkdc_md_cli/__init__.py`, and `tests/dashboard.py` (a plotting UI): none of them is part of the command logic.
