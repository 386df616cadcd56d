/**
 * The command-line front end `md2gslides`: choosing the OAuth client
 * configuration, the answer the authorization prompt gives back, which
 * slide generator is built from the arguments, and when its slides are
 * erased.
 */
module Md2gslides {
  import opened Wrappers
  import opened JsonValue
  import opened ClientConfig
  import JsText
  import Authorization
  import opened SlideGeneratorApi

  const MissingRedirectUrisMessage := "Web client missing redirect_uris"
  const InvalidFormatMessage := "Invalid client_id.json format"
  const InvalidCredentialsMessage := "Invalid client credentials"
  const NoInputMessage := "No authorization code or URL provided"

  /** The redirect URI of the chosen entry: element 0 of a truthy
      `redirect_uris` whose length is positive, for a web client; the
      out-of-band URI for an installed client. */
  function CliRedirectUri(kind: ClientType, creds: Json): (r: Result<Option<Json>, string>)
    requires creds != JNull
    ensures kind == Installed ==> r == Ok(Some(JString(Authorization.OutOfBandRedirectUri)))
    ensures kind == Web ==> (r.Ok? <==> var uris := Get(creds, "redirect_uris");
      Truthy(uris) && HasPositiveLength(uris.value))
    ensures kind == Web && r.Ok? ==> Get(creds, "redirect_uris").Some? && r.value == Index0(Get(creds, "redirect_uris").value)
    ensures r.Err? ==> r.error == MissingRedirectUrisMessage
  {
    if kind == Installed then Ok(Some(JString(Authorization.OutOfBandRedirectUri)))
    else
      var uris := Get(creds, "redirect_uris");
      if Truthy(uris) && HasPositiveLength(uris.value) then Ok(Index0(uris.value))
      else Err(MissingRedirectUrisMessage)
  }

  /** `authorizeUser` up to the construction of the authorizer: a read or
      parse error is rethrown, the `web` entry wins over `installed`, the
      redirect URI is checked before the credentials. */
  function SelectClient(file: ConfigFile): (r: Result<Selection, string>)
    ensures file.ReadFailed? ==> r == Err(file.message)
    ensures file.ParseFailed? ==> r == Err(file.message)
    ensures r.Ok? ==> file.Parsed? && file.json != JNull
    // the chosen credentials are present and non-empty
    ensures r.Ok? ==> Truthy(Some(r.value.clientId)) && Truthy(Some(r.value.clientSecret))
    ensures r.Ok? && r.value.clientType == Installed ==> r.value.redirectUri == Some(JString(Authorization.OutOfBandRedirectUri))
    // the values passed on are the chosen entry's own
    ensures r.Ok? ==> (
      file.Parsed? && file.json != JNull && ClientEntry(file.json).Some? &&
      var (kind, creds) := ClientEntry(file.json).value;
      && r.value.clientType == kind
      && Get(creds, "client_id") == Some(r.value.clientId)
      && Get(creds, "client_secret") == Some(r.value.clientSecret)
      && CliRedirectUri(kind, creds) == Ok(r.value.redirectUri))
  {
    match file
    case ReadFailed(m) => Err(m)
    case ParseFailed(m) => Err(m)
    case Parsed(config) =>
      if config == JNull then Err(NullConfigMessage)
      else match ClientEntry(config)
        case None => Err(InvalidFormatMessage)
        case Some((kind, creds)) =>
          match CliRedirectUri(kind, creds)
          case Err(m) => Err(m)
          case Ok(redirect) =>
            if MissingCredentials(creds) then Err(InvalidCredentialsMessage)
            else Ok(Selection(kind, Get(creds, "client_id").value, Get(creds, "client_secret").value, redirect))
  }

  /** A configuration is accepted exactly when it has an entry, the entry's
      redirect URI is accepted and its credentials are present. */
  lemma AcceptedConfiguration(config: Json)
    requires config != JNull
    ensures SelectClient(Parsed(config)).Ok? <==>
      match ClientEntry(config)
      case None => false
      case Some((kind, creds)) => CliRedirectUri(kind, creds).Ok? && !MissingCredentials(creds)
  {
  }

  /** A truthy `web` entry is always the one used, whatever `installed` holds. */
  lemma WebTakesPrecedence(config: Json)
    requires config != JNull && Truthy(Get(config, "web"))
    ensures var r := SelectClient(Parsed(config));
      && r != Err(InvalidFormatMessage)
      && (r.Ok? ==> r.value.clientType == Web)
  {
  }

  /** A web client takes element 0 of a non-empty `redirect_uris` array, and
      fails with "Web client missing redirect_uris" when the array is missing
      or empty. */
  lemma WebRedirectUris(config: Json)
    requires config != JNull && Truthy(Get(config, "web"))
    ensures var creds := Get(config, "web").value; var uris := Get(creds, "redirect_uris");
      var r := SelectClient(Parsed(config));
      && (uris.None? || uris == Some(JArray([])) ==> r == Err(MissingRedirectUrisMessage))
      && (uris.Some? && uris.value.JArray? && uris.value.items != [] && r.Ok? ==>
            r.value.redirectUri == Some(uris.value.items[0]))
  {
  }

  /** A configuration with neither shape is rejected, and only such a one
      is rejected for its format. */
  lemma NeitherShape(config: Json)
    requires config != JNull
    ensures SelectClient(Parsed(config)) == Err(InvalidFormatMessage) <==>
      !Truthy(Get(config, "web")) && !Truthy(Get(config, "installed"))
  {
  }

  /** Missing credentials are reported only after a shape and, for a web
      client, a redirect URI were found. */
  lemma MissingCredentialsRejected(config: Json)
    requires config != JNull
    ensures SelectClient(Parsed(config)) == Err(InvalidCredentialsMessage) <==>
      match ClientEntry(config)
      case None => false
      case Some((kind, creds)) => CliRedirectUri(kind, creds).Ok? && MissingCredentials(creds)
  {
  }

  /** The reply typed at the prompt: the trimmed reply when anything is
      left, otherwise a rejection. */
  function CliPrompt(reply: string): (r: Authorization.PromptOutcome)
    ensures r.Answered? <==> !JsText.AllWhiteSpace(reply)
    ensures r.Answered? ==> r.reply != [] && JsText.Trim(r.reply) == r.reply && r.reply == JsText.Trim(reply)
    ensures r.Rejected? ==> r.message == NoInputMessage
  {
    var input := JsText.Trim(reply);
    if |input| > 0 then
      JsText.TrimIdempotent(reply);
      Authorization.Answered(input)
    else Authorization.Rejected(NoInputMessage)
  }

  /** Behind the command-line prompt, the extractor sees what the user
      typed, trimmed twice to no further effect, and never reports a
      missing code: an empty reply is already rejected by the prompt. */
  lemma CliPromptThenExtract(reply: string)
    ensures var p := CliPrompt(reply);
      && (p.Answered? ==> Authorization.ExtractAuthorizationCode(p.reply) == Authorization.ExtractAuthorizationCode(reply))
      && (p.Answered? ==> Authorization.ExtractAuthorizationCode(p.reply) != Err(Authorization.NoCodeProvided))
  {
    var p := CliPrompt(reply);
    if p.Answered? {
      JsText.TrimIdempotent(reply);
      ExtractTrimmedAgain(reply);
    }
  }

  lemma ExtractTrimmedAgain(reply: string)
    ensures Authorization.ExtractAuthorizationCode(JsText.Trim(reply)) == Authorization.ExtractAuthorizationCode(reply)
  {
    JsText.TrimIdempotent(reply);
  }

  /** The parsed command line, as far as these rules read it; an option
      that was not given is `None` (argparse's `null`), and so is the
      optional markdown file. */
  datatype CliArgs = CliArgs(
    file: Option<string>, user: string, id: Option<string>, erase: bool,
    title: Option<string>, copy: Option<string>)

  /** A string option that is given and non-empty, hence truthy. */
  predicate Given(v: Option<string>)
  {
    v.Some? && v.value != []
  }

  /** `args.title || args.file`: `null` when neither is given. */
  function Title(args: CliArgs): Option<string>
  {
    if Given(args.title) then args.title else args.file
  }

  /** `buildSlideGenerator`: an append id wins over a copy id, which wins
      over a new presentation. */
  function BuildSlideGenerator(args: CliArgs): (g: GeneratorCall<Option<string>>)
    ensures g.ForPresentation? <==> Given(args.id)
    ensures g.ForPresentation? ==> g.presentationId == args.id
    ensures g.CopyPresentation? <==> !Given(args.id) && Given(args.copy)
    ensures g.CopyPresentation? ==> g.copyId == args.copy
    ensures !g.ForPresentation? ==> g.title == Title(args)
  {
    if Given(args.id) then ForPresentation(args.id)
    else if Given(args.copy) then CopyPresentation(Title(args), args.copy)
    else NewPresentation(Title(args))
  }

  /** `eraseIfNeeded`: slides are erased when `--erase` is set or no
      presentation to append to was named. */
  function EraseIfNeeded(args: CliArgs): bool
  {
    args.erase || !Given(args.id)
  }

  /** A new or copied presentation is always erased; a presentation appended
      to keeps its slides unless `--erase` is given. */
  lemma EraseFollowsGenerator(args: CliArgs)
    ensures EraseIfNeeded(args) <==> args.erase || !BuildSlideGenerator(args).ForPresentation?
    ensures !BuildSlideGenerator(args).ForPresentation? ==> EraseIfNeeded(args)
  {
  }
}
