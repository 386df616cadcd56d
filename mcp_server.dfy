/**
 * The Model Context Protocol server `md2gslides-mcp`: the tools it
 * advertises, how it chooses the OAuth client configuration, its prompt
 * that never answers, and how a tool call is dispatched, planned and
 * answered.
 */
module McpServer {
  import opened Wrappers
  import opened JsonValue
  import opened ClientConfig
  import JsText
  import Authorization
  import opened SlideGeneratorApi

  // ---------------------------------------------------------------------
  // Client configuration
  // ---------------------------------------------------------------------

  const MissingRedirectUrisMessage := "Web client requires redirect_uris in client_id.json"
  const InvalidFormatMessage := "client_id.json must contain either \"web\" or \"installed\" client configuration"
  const MissingCredentialsMessage := "Missing client_id or client_secret in configuration"
  const ReadErrorPrefix := "Error loading client secret file: "

  /** `creds.redirect_uris?.[0]` for a web client, which must be truthy;
      the out-of-band URI for an installed client. */
  function McpRedirectUri(kind: ClientType, creds: Json): (r: Result<Option<Json>, string>)
    requires creds != JNull
    ensures kind == Installed ==> r == Ok(Some(JString(Authorization.OutOfBandRedirectUri)))
    ensures kind == Web && r.Ok? ==> Truthy(r.value)
    ensures kind == Web ==> (r.Ok? <==> var uris := Get(creds, "redirect_uris");
      uris.Some? && uris.value != JNull && Truthy(Index0(uris.value)))
    ensures r.Err? ==> r.error == MissingRedirectUrisMessage
  {
    if kind == Installed then Ok(Some(JString(Authorization.OutOfBandRedirectUri)))
    else
      var uris := Get(creds, "redirect_uris");
      var first := if uris.None? || uris.value == JNull then None else Index0(uris.value);
      if Truthy(first) then Ok(first) else Err(MissingRedirectUrisMessage)
  }

  /** `authorizeUser` up to the construction of the authorizer: a read error
      is wrapped, a parse error passes through, the `web` entry wins over
      `installed`, the redirect URI is checked before the credentials. */
  function SelectClient(file: ConfigFile): (r: Result<Selection, string>)
    ensures file.ReadFailed? ==> r == Err(ReadErrorPrefix + file.message)
    ensures file.ParseFailed? ==> r == Err(file.message)
    ensures r.Ok? ==> file.Parsed? && file.json != JNull
    ensures r.Ok? ==> Truthy(Some(r.value.clientId)) && Truthy(Some(r.value.clientSecret)) && Truthy(r.value.redirectUri)
    ensures r.Ok? && r.value.clientType == Installed ==> r.value.redirectUri == Some(JString(Authorization.OutOfBandRedirectUri))
    // the values passed on are the chosen entry's own
    ensures r.Ok? ==> (
      file.Parsed? && file.json != JNull && ClientEntry(file.json).Some? &&
      var (kind, creds) := ClientEntry(file.json).value;
      && r.value.clientType == kind
      && Get(creds, "client_id") == Some(r.value.clientId)
      && Get(creds, "client_secret") == Some(r.value.clientSecret)
      && McpRedirectUri(kind, creds) == Ok(r.value.redirectUri))
  {
    match file
    case ReadFailed(m) => Err(ReadErrorPrefix + m)
    case ParseFailed(m) => Err(m)
    case Parsed(config) =>
      if config == JNull then Err(NullConfigMessage)
      else match ClientEntry(config)
        case None => Err(InvalidFormatMessage)
        case Some((kind, creds)) =>
          match McpRedirectUri(kind, creds)
          case Err(m) => Err(m)
          case Ok(redirect) =>
            if MissingCredentials(creds) then Err(MissingCredentialsMessage)
            else Ok(Selection(kind, Get(creds, "client_id").value, Get(creds, "client_secret").value, redirect))
  }

  /** A configuration is accepted exactly when it has an entry, the entry's
      redirect URI is accepted and its credentials are present. */
  lemma AcceptedConfiguration(config: Json)
    requires config != JNull
    ensures SelectClient(Parsed(config)).Ok? <==>
      match ClientEntry(config)
      case None => false
      case Some((kind, creds)) => McpRedirectUri(kind, creds).Ok? && !MissingCredentials(creds)
  {
  }

  /** A truthy `web` entry is always the one used, whatever `installed` holds. */
  lemma WebTakesPrecedence(config: Json)
    requires config != JNull && Truthy(Get(config, "web"))
    ensures var r := SelectClient(Parsed(config));
      && r != Err(InvalidFormatMessage)
      && (r.Ok? ==> r.value.clientType == Web)
  {
  }

  /** A configuration with neither shape is rejected, and only such a one
      is rejected for its format. */
  lemma NeitherShape(config: Json)
    requires config != JNull
    ensures SelectClient(Parsed(config)) == Err(InvalidFormatMessage) <==>
      !Truthy(Get(config, "web")) && !Truthy(Get(config, "installed"))
  {
  }

  lemma MissingCredentialsRejected(config: Json)
    requires config != JNull
    ensures SelectClient(Parsed(config)) == Err(MissingCredentialsMessage) <==>
      match ClientEntry(config)
      case None => false
      case Some((kind, creds)) => McpRedirectUri(kind, creds).Ok? && MissingCredentials(creds)
  {
  }

  // ---------------------------------------------------------------------
  // Authorization without a terminal
  // ---------------------------------------------------------------------

  function PromptMessage(url: string): (m: string)
    ensures JsText.StartsWith(m, "Authentication required. Please visit: ")
  {
    "Authentication required. Please visit: " + url + "\nThen run the CLI tool first to authenticate."
  }

  /** The prompt callback the server passes to `UserAuthorizer`: it throws
      whatever the URL. */
  function Prompt(url: string): (p: Authorization.PromptOutcome)
    ensures p.Rejected? && p.message == PromptMessage(url)
  {
    Authorization.Rejected(PromptMessage(url))
  }

  /** Under the server's prompt, authorization succeeds exactly when a cached
      token passes the probe; otherwise it fails with the prompt's message,
      and no code is exchanged and nothing is stored or written. */
  lemma AuthorizationNeedsCachedToken(
    cached: Option<Authorization.Credentials>, probeSucceeds: bool, url: string,
    exchange: Authorization.ExchangeOutcome, writeFailure: Option<string>)
    ensures var f := Authorization.CredentialsFlow(cached, probeSucceeds, Prompt(url), exchange, writeFailure);
      && (f.result.Ok? <==> cached.Some? && probeSucceeds)
      && (f.result.Ok? ==> f.result.value == cached.value && !f.prompted)
      && (f.result.Err? ==> f.result.error == Authorization.PromptRejected(PromptMessage(url)))
      && f.exchangedCode.None? && f.stored.None? && !f.written
  {
  }

  /** `authorizeUser()` as a whole, for the user "default": the credentials,
      or the message of the error it throws. `readFailure` is the error
      reading the token file throws, if it does. */
  function Authorize(
    file: ConfigFile, url: string, readFailure: Option<string>, cached: Option<Authorization.Credentials>,
    probeSucceeds: bool, exchange: Authorization.ExchangeOutcome, writeFailure: Option<string>)
    : (r: Result<Authorization.Credentials, string>)
    ensures r.Ok? <==> SelectClient(file).Ok? && readFailure.None? && cached.Some? && probeSucceeds
    ensures r.Ok? ==> r.value == cached.value
    ensures SelectClient(file).Err? ==> r == Err(SelectClient(file).error)
    ensures SelectClient(file).Ok? && readFailure.Some? ==> r == Err(readFailure.value)
    ensures SelectClient(file).Ok? && readFailure.None? && r.Err? ==> r.error == PromptMessage(url)
  {
    match SelectClient(file)
    case Err(m) => Err(m)
    case Ok(_) =>
      AuthorizationNeedsCachedToken(cached, probeSucceeds, url, exchange, writeFailure);
      var f := Authorization.SessionFlow(readFailure, cached, probeSucceeds, Prompt(url), exchange, writeFailure);
      match f.result
      case Ok(c) => Ok(c)
      case Err(e) => Err(Authorization.ErrorMessage(e))
  }

  // ---------------------------------------------------------------------
  // Tools
  // ---------------------------------------------------------------------

  datatype Property = Property(name: string, kind: string, description: string, default: Option<Json>)

  datatype Tool = Tool(name: string, description: string, properties: seq<Property>, required: seq<string>)

  const CreateTool := "create-google-slides"
  const AppendTool := "append-to-slides"
  const CopyTool := "copy-and-create-slides"

  const StyleDescription := "Highlight.js theme for code formatting (default: \"default\")"
  const FileioDescription := "Allow uploading local/generated images to file.io (optional)"

  const CreateSchema := Tool(CreateTool, "Create a Google Slides presentation from markdown content",
    [ Property("markdown", "string", "Markdown content to convert to slides", None),
      Property("title", "string", "Title of the presentation (optional)", None),
      Property("style", "string", StyleDescription, Some(JString("default"))),
      Property("useFileio", "boolean", FileioDescription, Some(JBool(false))) ],
    ["markdown"])

  const AppendSchema := Tool(AppendTool, "Append markdown content to an existing Google Slides presentation",
    [ Property("presentationId", "string", "ID of the existing presentation to append to", None),
      Property("markdown", "string", "Markdown content to convert and append as slides", None),
      Property("style", "string", StyleDescription, Some(JString("default"))),
      Property("erase", "boolean", "Erase existing slides before appending (optional)", Some(JBool(false))),
      Property("useFileio", "boolean", FileioDescription, Some(JBool(false))) ],
    ["presentationId", "markdown"])

  const CopySchema := Tool(CopyTool, "Copy an existing presentation and create new slides from markdown",
    [ Property("copyFromId", "string", "ID of the presentation to copy as a base", None),
      Property("markdown", "string", "Markdown content to convert to slides", None),
      Property("title", "string", "Title of the new presentation (optional)", None),
      Property("style", "string", StyleDescription, Some(JString("default"))),
      Property("useFileio", "boolean", FileioDescription, Some(JBool(false))) ],
    ["copyFromId", "markdown"])

  /** The tools the constructor advertises, with their input schemas. */
  const Catalog: seq<Tool> := [CreateSchema, AppendSchema, CopySchema]

  /** The names `handleTool` dispatches on. */
  const KnownTools: seq<string> := [CreateTool, AppendTool, CopyTool]

  function ToolNames(tools: seq<Tool>): (names: seq<string>)
    ensures |names| == |tools| && forall i | 0 <= i < |tools| :: names[i] == tools[i].name
  {
    if tools == [] then [] else [tools[0].name] + ToolNames(tools[1..])
  }

  predicate Declares(tool: Tool, name: string)
  {
    exists i | 0 <= i < |tool.properties| :: tool.properties[i].name == name
  }

  /** A schema is well formed when it requires `markdown` and every input it
      requires is one of its declared properties. */
  predicate WellFormedSchema(tool: Tool)
  {
    && "markdown" in tool.required
    && forall k | 0 <= k < |tool.required| :: Declares(tool, tool.required[k])
  }

  lemma CreateSchemaWellFormed()
    ensures WellFormedSchema(CreateSchema)
  {
    assert CreateSchema.properties[0].name == "markdown";
  }

  lemma AppendSchemaWellFormed()
    ensures WellFormedSchema(AppendSchema)
  {
    assert AppendSchema.properties[0].name == "presentationId";
    assert AppendSchema.properties[1].name == "markdown";
  }

  lemma CopySchemaWellFormed()
    ensures WellFormedSchema(CopySchema)
  {
    assert CopySchema.properties[0].name == "copyFromId";
    assert CopySchema.properties[1].name == "markdown";
  }

  /** The advertised tools are exactly the ones dispatched on, each once,
      and each schema is well formed. */
  lemma CatalogWellFormed()
    ensures ToolNames(Catalog) == KnownTools
    ensures forall i, j | 0 <= i < j < |KnownTools| :: KnownTools[i] != KnownTools[j]
    ensures forall i | 0 <= i < |Catalog| :: WellFormedSchema(Catalog[i])
  {
    CreateSchemaWellFormed();
    AppendSchemaWellFormed();
    CopySchemaWellFormed();
  }

  /** The server object; its constructor sets the `tools` field. */
  class Server {
    var tools: seq<Tool>

    constructor()
      ensures tools == Catalog
    {
      tools := Catalog;
    }
  }

  // ---------------------------------------------------------------------
  // Dispatch
  // ---------------------------------------------------------------------

  /** The arguments of a tool call: a JSON object, where an absent
      property reads as `undefined`. */
  type Arguments = map<string, Json>

  function Arg(args: Arguments, key: string): Option<Json>
  {
    if key in args then Some(args[key]) else None
  }

  /** A destructuring default: it replaces `undefined` only, not `null`. */
  function WithDefault(v: Option<Json>, default: Json): (r: Json)
    ensures v.Some? ==> r == v.value
    ensures v.None? ==> r == default
  {
    if v.Some? then v.value else default
  }

  /** `buildSlideGenerator(client, { title, presentationId, copyFromId })`. */
  function BuildSlideGenerator(title: Option<Json>, presentationId: Option<Json>, copyFromId: Option<Json>)
    : (g: GeneratorCall<Option<Json>>)
    ensures g.ForPresentation? <==> Truthy(presentationId)
    ensures g.ForPresentation? ==> g.presentationId == presentationId
    ensures g.CopyPresentation? <==> !Truthy(presentationId) && Truthy(copyFromId)
    ensures g.CopyPresentation? ==> g.copyId == copyFromId
    ensures !g.ForPresentation? ==> g.title == title
  {
    if Truthy(presentationId) then ForPresentation(presentationId)
    else if Truthy(copyFromId) then CopyPresentation(title, copyFromId)
    else NewPresentation(title)
  }

  /** What a tool does before it generates slides: the generator it builds,
      whether it erases the slides, and the inputs it passes on. */
  datatype ToolPlan = ToolPlan(
    generator: GeneratorCall<Option<Json>>, erase: bool,
    markdown: Option<Json>, style: Json, useFileio: Json)

  /** The plan of a known tool; `None` for a name no tool has. */
  function PlanTool(name: string, args: Arguments): (p: Option<ToolPlan>)
    ensures p.Some? <==> name in KnownTools
    // creating and copying always erase; appending erases only on request
    ensures p.Some? && name != AppendTool ==> p.value.erase
    ensures p.Some? && name == AppendTool ==> (p.value.erase <==> Truthy(Arg(args, "erase")))
    ensures p.Some? ==> p.value.markdown == Arg(args, "markdown")
    ensures p.Some? ==> p.value.style == WithDefault(Arg(args, "style"), JString("default"))
  {
    var markdown := Arg(args, "markdown");
    var style := WithDefault(Arg(args, "style"), JString("default"));
    var useFileio := WithDefault(Arg(args, "useFileio"), JBool(false));
    if name == CreateTool then
      var title := WithDefault(Arg(args, "title"), JString("Generated Presentation"));
      Some(ToolPlan(BuildSlideGenerator(Some(title), None, None), true, markdown, style, useFileio))
    else if name == AppendTool then
      var erase := WithDefault(Arg(args, "erase"), JBool(false));
      Some(ToolPlan(BuildSlideGenerator(None, Arg(args, "presentationId"), None), Truthy(Some(erase)), markdown, style, useFileio))
    else if name == CopyTool then
      var title := WithDefault(Arg(args, "title"), JString("Copy of Presentation"));
      Some(ToolPlan(BuildSlideGenerator(Some(title), None, Arg(args, "copyFromId")), true, markdown, style, useFileio))
    else None
  }

  /** The generator each tool builds: creating always makes a new
      presentation, appending uses the given id (and, without a truthy id,
      makes a new untitled one), copying copies when given a truthy source. */
  lemma ToolGenerators(args: Arguments)
    ensures PlanTool(CreateTool, args).value.generator ==
      NewPresentation(Some(WithDefault(Arg(args, "title"), JString("Generated Presentation"))))
    ensures var g := PlanTool(AppendTool, args).value.generator;
      if Truthy(Arg(args, "presentationId")) then g == ForPresentation(Arg(args, "presentationId"))
      else g == NewPresentation(None)
    ensures var g := PlanTool(CopyTool, args).value.generator;
      var title := Some(WithDefault(Arg(args, "title"), JString("Copy of Presentation")));
      if Truthy(Arg(args, "copyFromId")) then g == CopyPresentation(title, Arg(args, "copyFromId"))
      else g == NewPresentation(title)
  {
  }

  datatype Content = Text(text: string)

  datatype ToolResponse = ToolResponse(content: seq<Content>, isError: bool)

  /** The `catch` of `handleTool`: the error's message as one text item. */
  function ErrorResponse(message: string): (r: ToolResponse)
    ensures r.isError && |r.content| == 1 && JsText.StartsWith(r.content[0].text, "Error: ")
    ensures r.content[0].text[|"Error: "|..] == message
  {
    ToolResponse([Text("Error: " + message)], true)
  }

  /** `handleTool(name, args)`: authorization comes first, then the tool is
      looked up and run. `authorization` is the outcome of `authorizeUser`
      and `run` what generating the slides of a plan gives: the content of
      the success reply, or the message of the error it threw. Every error
      becomes an error reply; nothing is thrown. */
  function HandleTool(
    name: string, args: Arguments, authorization: Result<Authorization.Credentials, string>,
    run: ToolPlan -> Result<seq<Content>, string>): (r: ToolResponse)
    ensures authorization.Err? ==> r == ErrorResponse(authorization.error)
    ensures authorization.Ok? && name !in KnownTools ==> r == ErrorResponse("Unknown tool: " + name)
    ensures authorization.Ok? && name in KnownTools ==>
      match run(PlanTool(name, args).value)
      case Ok(content) => r == ToolResponse(content, false)
      case Err(m) => r == ErrorResponse(m)
    ensures r.isError <==>
      authorization.Err? || name !in KnownTools || run(PlanTool(name, args).value).Err?
  {
    match authorization
    case Err(m) => ErrorResponse(m)
    case Ok(_) =>
      match PlanTool(name, args)
      case None => ErrorResponse("Unknown tool: " + name)
      case Some(plan) =>
        match run(plan)
        case Ok(content) => ToolResponse(content, false)
        case Err(m) => ErrorResponse(m)
  }

  /** Without a cached token that passes the probe, every tool call, known or
      not, answers with an error: the prompt's instructions, or the error
      reading the token file threw. */
  lemma CallWithoutCachedToken(
    name: string, args: Arguments, file: ConfigFile, url: string, readFailure: Option<string>,
    cached: Option<Authorization.Credentials>, probeSucceeds: bool,
    exchange: Authorization.ExchangeOutcome, writeFailure: Option<string>,
    run: ToolPlan -> Result<seq<Content>, string>)
    requires SelectClient(file).Ok? && !(cached.Some? && probeSucceeds)
    ensures HandleTool(name, args, Authorize(file, url, readFailure, cached, probeSucceeds, exchange, writeFailure), run)
      == ErrorResponse(if readFailure.Some? then readFailure.value else PromptMessage(url))
  {
  }
}
