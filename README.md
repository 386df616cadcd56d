# md2googleslides: authorization and front-end dispatch, in Dafny

This project models the part of md2googleslides that is not slide
rendering. It covers three pieces:

- **The user authorizer** (`src/auth.ts`). It extracts an OAuth
  authorization code from what the user pastes: a full callback URL or the
  bare code. It classifies failed token exchanges. It runs the
  credentials flow: read the lazily created lowdb token store, use a
  cached token if the probe accepts it, otherwise prompt, extract the
  code, exchange it, store the tokens and write the store.
- **The command-line front end** (`bin/md2gslides.js`). It picks the
  `web` or `installed` client from `client_id.json` and checks it. Its
  prompt trims the reply and rejects an empty one. It chooses which slide
  generator to build from the arguments and when to erase slides.
- **The MCP server** (`bin/mcp-server.js`). It advertises three tools and
  picks the client configuration in its own way. Its prompt always fails,
  so it works only with a cached token. It dispatches a tool call, and
  every error becomes a reply with `isError` set.

The JavaScript details the code depends on are written out:

- `String.prototype.trim` and its white-space set.
- `decodeURIComponent`, including multi-byte UTF-8 and its URIError.
- `URLSearchParams` parsing of the query, with an
  `application/x-www-form-urlencoded` serializer as its partner.
- A WHATWG-style parse of `http:`/`https:` URLs, down to host, port and
  query.
- ECMAScript truthiness on parsed JSON values.
- Destructuring defaults, which replace `undefined` only.

Mutable state is modelled with classes:

- `Disk` is the token files.
- `LowDb` is a lowdb database over one file: `read`/`write` and its
  in-memory `data`.
- `UserAuthorizer` holds the lazily created `db` field.

Each method is specified by a pure function: `ExchangeFlow`,
`ReauthorizationFlow`, `CredentialsFlow` or `SessionFlow`. The properties
of the flow are proved about those functions.

Files and modules, in dependency order:

| file | module | contents |
|---|---|---|
| wrappers.dfy | Wrappers | `Option`, `Result` |
| jstext.dfy | JsText | `trim`, `startsWith`, `includes` |
| utf8.dfy | Utf8 | UTF-8 encoder and the WHATWG decoder step |
| uri_component.dfy | UriComponent | `decodeURIComponent` and an `encodeURIComponent`-style encoder |
| form_urlencoded.dfy | FormUrlEncoded | `URLSearchParams` parsing, `get`, and a serializer |
| http_url.dfy | HttpUrl | parsing of special http(s) URLs |
| authorization.dfy | Authorization | `UserAuthorizer`, `LowDb`, the extractor, the flow |
| json_value.dfy | JsonValue | parsed JSON and the JS operations on it |
| client_config.dfy | ClientConfig | the parsed `client_id.json` and the choice of its entry |
| slide_generator_api.dfy | SlideGeneratorApi | the three `SlideGenerator` constructors |
| md2gslides.dfy | Md2gslides | the command-line front end |
| mcp_server.dfy | McpServer | the MCP server |

Two points of the extractor are easy to misread:

- The `code` parameter of a callback URL is decoded twice: first by
  `URLSearchParams` (src/auth.ts:75), then by `decodeURIComponent`
  (src/auth.ts:82). The model does the same, so a `%` escape that survives
  the first decoding is decoded again (`ExtractFromCallback`), and a
  malformed one is a URIError.
- An *empty* `code` parameter is refused like a missing one, because the
  code tests `!code` (src/auth.ts:77).

## Model

| member | source | states |
|---|---|---|
| Authorization.RedirectUriOrDefault | src/auth.ts:52 | a configured non-empty redirect URI is kept; a missing or empty one becomes `urn:ietf:wg:oauth:2.0:oob`; the result is never empty |
| Authorization.UserAuthorizer.constructor | src/auth.ts:47-54 | the authorizer starts with no database and keeps the credentials, the file path and the defaulted redirect URI |
| Authorization.UserAuthorizer.InitDb | src/auth.ts:56-61 | the first call creates an empty database over the configured path (the empty path without one); every later call returns that same database |
| Authorization.UserAuthorizer.OpenStore | src/auth.ts:126-128 | after `initDb` and `read`, the database exists; its view is the file's contents if the file exists and was read, otherwise the view it had (empty when new); a failed read is reported |
| Authorization.LowDb.constructor | src/auth.ts:185-200 | a new database over a file starts with empty data |
| Authorization.LowDb.Read | src/auth.ts:128 | reading replaces the view with the file's contents; a missing file leaves it unchanged; a file that cannot be read or parsed makes the read fail and leaves it unchanged |
| Authorization.LowDb.Write | src/auth.ts:163 | a successful write stores the view as the file's contents; a failed one changes no file and reports the failure |
| Authorization.LowDb.WriteThenReload | src/auth.ts:160-163 | tokens stored and written for a user are read back by a fresh database over the same file, and no other user's entry in the file changes |
| Authorization.StoredOnlyChangesUser | src/auth.ts:162 | storing tokens for a user sets that user's entry, adds no other user, and leaves every other entry unchanged |
| Authorization.ExtractAuthorizationCode | src/auth.ts:68-113 | white-space-only input, and only such input, gives "No authorization code provided."; a code is never empty; a trimmed non-URL text gives its percent-decoding when that succeeds and itself otherwise, and itself when it holds no `%`; a URIError comes only from a URL |
| Authorization.ExtractFromUrl | src/auth.ts:72-94 | the URL branch never reports "No authorization code provided." and never yields an empty code |
| Authorization.ExtractFromCallbackUrl | src/auth.ts:72-94 | for URL-like input: "Invalid URL format" exactly when the URL does not parse; the missing-code error exactly when `code` is absent or empty; a code is the percent-decoding of the `code` parameter |
| Authorization.ExtractFromCallback | src/auth.ts:72-86 | a callback URL with a plain host, any port up to 65535 and a plain path, whose query serializes the provider's parameters, gives back the `code` parameter decoded once more by `decodeURIComponent`; without a non-empty `code` parameter it is refused |
| Authorization.ExtractFromLocalCallback | src/auth.ts:72-86 | the URL form the command line asks for, `http://localhost:3000/oauth/callback?code=...`, gives back the decoded code |
| Authorization.ExtractBareCode | src/auth.ts:96-112 | a bare code that does not look like a URL, with any white-space padding, is trimmed and decoded, and kept as typed when the decoding fails |
| Authorization.ExtractEmpty | src/auth.ts:97-99 | the empty reply is refused with "No authorization code provided." |
| Authorization.ExtractTrimmedCode | src/auth.ts:101-107 | `"  abc123  "` gives `abc123` |
| Authorization.ExtractEncodedCode | src/auth.ts:101-107 | `4%2F0Ab` gives `4/0Ab` |
| Authorization.ExtractPlainText | src/auth.ts:96-107 | a text that is neither a URL nor an escaped code is passed through unchanged |
| Authorization.ExtractUndecodableCode | src/auth.ts:108-112 | `4%2`, whose escape is cut short, is kept as typed |
| Authorization.ClassifyExchangeError | src/auth.ts:166-181 | the fixed "invalid or malformed" diagnostic is given exactly when the message contains `invalid_grant` or `Malformed auth code`; otherwise the error passes through with its own message |
| Authorization.RefusedCodeAnywhere | src/auth.ts:171-178 | a message with `invalid_grant` or `Malformed auth code` anywhere in it gets the fixed diagnostic |
| Authorization.ExchangeFlow | src/auth.ts:157-182 | the extracted code is exchanged; granted tokens are stored and then written; a refused exchange stores nothing; a refusal or a failed write is classified; success exactly when the write succeeded |
| Authorization.ReauthorizationFlow | src/auth.ts:144-156 | a new authorization always calls the prompt |
| Authorization.CredentialsFlow | src/auth.ts:130-182 | a cached token that passes the probe is used with no prompt, exchange or write; otherwise the prompt is called; a prompt error, an extraction error, a refusal and a write failure each give their error; the code exchanged is the extracted one; success exactly on a valid cached token or a completed write |
| Authorization.SessionFlow | src/auth.ts:127-182 | a failed read of the token file rejects with its own error, before any prompt, exchange or write; otherwise the course is that of `CredentialsFlow` |
| Authorization.UserAuthorizer.ExchangeCode | src/auth.ts:157-165 | the exchange follows `ExchangeFlow`: what is recorded as exchanged, the view, the write count and the file |
| Authorization.UserAuthorizer.Reauthorize | src/auth.ts:144-165 | one prompt, then the course of `ReauthorizationFlow` on the view and the file |
| Authorization.UserAuthorizer.UseStore | src/auth.ts:130-182 | after the read, the course of `CredentialsFlow` on the user's entry: result, prompts, exchanged codes, view, write count and file |
| Authorization.UserAuthorizer.GetUserCredentials | src/auth.ts:115-183 | the call reads the store and follows `SessionFlow` on the read's outcome and the user's entry; the returned client holds the flow's credentials; prompts, exchanged codes, the view, the write count and the file change as the flow says |
| JsText.Trim | src/auth.ts:69 | the result has no white space at either end, is no longer than the input, and is empty exactly for white-space-only input |
| JsText.TrimIdempotent | src/auth.ts:69 | trimming twice is trimming once |
| JsText.TrimPadded | src/auth.ts:69 | white space around a text with no white space at its ends is removed, and only that |
| JsText.IncludesIffOccurs | src/auth.ts:171 | `includes` holds exactly when the substring occurs at some position |
| UriComponent.Decode | src/auth.ts:103 | text without `%` decodes to itself; decoding never lengthens a text or empties a non-empty one |
| UriComponent.DecodeEncode | src/auth.ts:82 | every string is recovered by decoding its encoding |
| UriComponent.AnyStrayPercentFails | src/auth.ts:102-112 | a `%` anywhere in the text that is not followed by two hex digits makes decoding fail |
| UriComponent.DecodeEscapedSlash | src/auth.ts:103 | `4%2F0Ab` decodes to `4/0Ab` |
| UriComponent.DecodeTruncatedEscape | src/auth.ts:108-112 | `4%2` does not decode |
| Utf8.DecodeLossyEncodeString | src/auth.ts:75 | UTF-8 decoding inverts UTF-8 encoding |
| Utf8.EncodeLatin1 | src/auth.ts:75 | ASCII bytes read as characters encode back to themselves |
| FormUrlEncoded.Get | src/auth.ts:75 | `searchParams.get` is the value of the first pair with that name, and `None` exactly when no pair has it |
| FormUrlEncoded.ParseSerialize | src/auth.ts:75 | parsing a serialized list of pairs gives back that list |
| FormUrlEncoded.SerializedAreQueryBytes | src/auth.ts:75 | a serialized list of pairs uses only characters a query keeps as they are |
| HttpUrl.ParseHttpUrl | src/auth.ts:73 | a parsed URL has a non-empty host with no forbidden code point, a port of at most 65535, and a query without `#` |
| HttpUrl.ParsePlainUrl | src/auth.ts:73 | a URL written with a plain host, an optional port up to 65535, a plain path and query parses back to that host and query, and to that port unless it is the scheme's default port |
| HttpUrl.LargePortRejected | src/auth.ts:73 | a plain URL whose port is above 65535 is not a URL |
| HttpUrl.EmptyHostRejected | src/auth.ts:73 | `http://` or `https://` followed by nothing or by a query alone has no host and is not a URL |
| HttpUrl.EmptyHostAfterUserRejected | src/auth.ts:73 | user information followed by `@` and then a path or a query leaves an empty host and is not a URL |
| JsonValue.PositiveLengthOfSequence | bin/md2gslides.js:174 | for an array or a string, `length > 0` holds exactly when element 0 exists |
| ClientConfig.ClientEntry | bin/md2gslides.js:169-192 | a truthy `web` entry is chosen over `installed`; `installed` is chosen otherwise when truthy; no entry exactly when neither is truthy |
| Md2gslides.CliRedirectUri | bin/md2gslides.js:169-192 | an installed client uses the out-of-band URI; a web client is accepted exactly when `redirect_uris` is truthy with a positive `length`, and then takes its element 0; otherwise "Web client missing redirect_uris" |
| Md2gslides.SelectClient | bin/md2gslides.js:150-197 | read and parse errors are rethrown; an accepted configuration passes on the kind, `client_id`, `client_secret` and redirect URI of the chosen entry, whose credentials are truthy; an installed client uses the out-of-band URI |
| Md2gslides.AcceptedConfiguration | bin/md2gslides.js:169-197 | a parsed configuration is accepted exactly when it has an entry whose redirect URI is accepted and whose credentials are present |
| Md2gslides.WebTakesPrecedence | bin/md2gslides.js:169-183 | with a truthy `web` entry the format is never rejected, and the chosen client is the web one |
| Md2gslides.WebRedirectUris | bin/md2gslides.js:174-182 | a missing or empty `redirect_uris` is rejected; otherwise its first element is the redirect URI |
| Md2gslides.NeitherShape | bin/md2gslides.js:189-192 | "Invalid client_id.json format" exactly when neither `web` nor `installed` is truthy |
| Md2gslides.MissingCredentialsRejected | bin/md2gslides.js:194-197 | "Invalid client credentials" exactly when an entry and its redirect URI were found but `client_id` or `client_secret` is falsy |
| Md2gslides.CliPrompt | bin/md2gslides.js:138-146 | the prompt answers exactly when the reply is not all white space; the answer is the trimmed reply, which trimming leaves unchanged; otherwise it rejects with "No authorization code or URL provided" |
| Md2gslides.CliPromptThenExtract | bin/md2gslides.js:140-145 | the extractor's second trim changes nothing, and an answered prompt never gives "No authorization code provided." |
| Md2gslides.BuildSlideGenerator | bin/md2gslides.js:212-224 | a given id appends to that presentation; otherwise a given copy id copies it; otherwise a new presentation; the title is `--title` or the file, `null` when neither is given |
| Md2gslides.EraseFollowsGenerator | bin/md2gslides.js:226-234 | slides are erased exactly when `--erase` is given or the generator is not for an existing presentation; new and copied presentations are always erased |
| McpServer.McpRedirectUri | bin/mcp-server.js:153-163 | an installed client uses the out-of-band URI; a web client succeeds exactly when `redirect_uris?.[0]` is truthy, else "Web client requires redirect_uris in client_id.json" |
| McpServer.SelectClient | bin/mcp-server.js:139-170 | a read error is wrapped as "Error loading client secret file: …", a parse error passes through; an accepted configuration passes on the kind, `client_id`, `client_secret` and redirect URI of the chosen entry, all truthy |
| McpServer.AcceptedConfiguration | bin/mcp-server.js:153-170 | a parsed configuration is accepted exactly when it has an entry whose redirect URI is accepted and whose credentials are present |
| McpServer.WebTakesPrecedence | bin/mcp-server.js:153-166 | with a truthy `web` entry the format is never rejected, and the chosen client is the web one |
| McpServer.NeitherShape | bin/mcp-server.js:164-166 | the format error exactly when neither `web` nor `installed` is truthy |
| McpServer.MissingCredentialsRejected | bin/mcp-server.js:168-170 | "Missing client_id or client_secret in configuration" exactly when an entry and its redirect URI were found but a credential is falsy |
| McpServer.PromptMessage | bin/mcp-server.js:178 | the prompt's message starts with "Authentication required. Please visit: " |
| McpServer.Prompt | bin/mcp-server.js:177-179 | the prompt always throws, with the URL in its message |
| McpServer.AuthorizationNeedsCachedToken | bin/mcp-server.js:177-183 | under the server's prompt, authorization succeeds exactly with a cached token that passes the probe; it never exchanges a code, stores tokens or writes |
| McpServer.Authorize | bin/mcp-server.js:139-184 | `authorizeUser` succeeds exactly when the configuration is accepted, the token file is read and a cached token passes the probe, and then gives that token; a rejected configuration gives its own message, a failed read its error, and otherwise the prompt's message |
| McpServer.CatalogWellFormed | bin/mcp-server.js:41-137 | the tools are create, append and copy, in that order and with distinct names; each schema requires `markdown` and declares every property it requires |
| McpServer.Server.constructor | bin/mcp-server.js:41-137 | a new server advertises exactly that catalog |
| McpServer.BuildSlideGenerator | bin/mcp-server.js:209-217 | a truthy presentation id appends; otherwise a truthy copy source copies; otherwise a new presentation with the given title |
| McpServer.PlanTool | bin/mcp-server.js:244-289 | only the three known names have a plan; create and copy always erase, append erases exactly when `erase` is truthy; the markdown is passed on, and the style defaults to "default" when undefined |
| McpServer.ToolGenerators | bin/mcp-server.js:244-289 | create builds a new presentation titled "Generated Presentation" by default; append uses the truthy presentation id; copy copies a truthy `copyFromId` with title "Copy of Presentation" by default |
| McpServer.ErrorResponse | bin/mcp-server.js:233-241 | an error reply is one text item, "Error: " followed by the message, with `isError` set |
| McpServer.HandleTool | bin/mcp-server.js:219-242 | an authorization error is answered first; then an unknown name gives "Unknown tool: …"; then the tool's own result or error; `isError` is set exactly on one of those failures |
| McpServer.CallWithoutCachedToken | bin/mcp-server.js:219-241 | with an accepted configuration but no valid cached token, every call, known tool or not, answers with an error: the read error of the token file, or else the prompt's instructions |

## Left out

- The JSON text: reading and parsing `client_id.json`. Its outcome (the parsed value, or the message of the error `readFileSync` or `JSON.parse` threw) is an input, `ClientConfig.ConfigFile`.
- The CLI's `data === undefined` check (bin/md2gslides.js:159-162). `readFileSync` never returns `undefined`, so this check is dead code.
- Handing the chosen values to `UserAuthorizer`. The front ends stop at the `Selection`. JavaScript would pass a non-string JSON value (a number `client_id`, say) unchanged into the string-typed options, and that is not modelled.
- The wording of V8's TypeErrors. `null` in the file is modelled with V8's message; other TypeErrors are not produced. These include `"x".length` tests on odd JSON types and destructuring of undefined or null tool arguments.
- JsonValue.GreaterThanZero: does not model ToNumber on strings, arrays or objects. `"5" > 0` is true in JavaScript, but the model treats such values as not greater than 0.
- JsonValue.Get: counts a string's `length` in Unicode scalar values, not UTF-16 code units. The two differ only for characters outside the Basic Multilingual Plane, and only `length > 0` is observed.
- HttpUrl.ParseHttpUrl: does not model IDNA mapping or IPv4/IPv6 host parsing. It does not model percent-encoding of the query or of non-ASCII text. Path and fragment are not kept. The host is checked only for being non-empty and free of forbidden domain code points.
- Lone surrogates: strings are sequences of Unicode scalar values, so `decodeURIComponent` and `trim` are not modelled on text that holds one.
- The OAuth client: `OAuth2Client`, the token endpoint, `getAccessToken` and `generateAuthUrl` with its scopes. Their outcomes are parameters: the probe result, the exchange outcome and the authorization URL.
- mkdirp and the file adapter: creating the parent directory is not modelled; files are a map in `Disk`, and whether a file can be read and parsed is an input of the read. The in-memory store is the file with the empty path.
- Authorization.Lookup: treats every stored entry as truthy, because the store only ever holds token records.
- The `user` argument of the CLI: it is the key under which tokens are stored, as in `GetUserCredentials`.
- Interaction and terminal I/O: readline, the opener, argparse, the console and debug logs. The prompt's outcome is an input of the flow.
- Slide generation: the MCP transport and `run()`, `loadCss`, `generateSlides`, `displayResults`, and `SlideGenerator` itself. What generating the slides of a plan gives is the `run` parameter of `HandleTool`. The exact success texts of the tools are therefore not modelled.
- Md2gslides.EraseIfNeeded and Md2gslides.Title: have no contract of their own; `EraseFollowsGenerator` and `BuildSlideGenerator` state what they mean.
- Authorization.ReauthorizationFlow: its own contract says only that it prompts. Its full course is stated through `CredentialsFlow`, which delegates to it.
- Concurrency: the `async`/`await` scheduling is not modelled; each call runs to completion.
