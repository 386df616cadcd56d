/**
 * The user authorizer of `src/auth.ts`: extraction of the authorization code
 * from what the user pastes, classification of token-exchange failures, and
 * the cache-probe-prompt-exchange-persist flow over a lazily created token
 * store. The OAuth client, the token endpoint and the prompt callback are
 * oracles: their outcomes are parameters of the operations that use them.
 */
module Authorization {
  import opened Wrappers
  import JsText
  import Utf8
  import UriComponent
  import FormUrlEncoded
  import HttpUrl

  /** The redirect URI of the out-of-band flow, the default when none is configured. */
  const OutOfBandRedirectUri := "urn:ietf:wg:oauth:2.0:oob"

  /** The options the authorizer is constructed with (the prompt callback is
      an oracle of `GetUserCredentials`). */
  datatype AuthOptions = AuthOptions(clientId: string, clientSecret: string, filePath: Option<string>, redirectUri: Option<string>)

  /** `options.redirectUri || 'urn:ietf:wg:oauth:2.0:oob'`. */
  function RedirectUriOrDefault(configured: Option<string>): (uri: string)
    ensures uri != []
    ensures configured.Some? && configured.value != [] ==> uri == configured.value
    ensures configured.None? || configured.value == [] ==> uri == OutOfBandRedirectUri
  {
    if configured.Some? && configured.value != [] then configured.value else OutOfBandRedirectUri
  }

  // ---------------------------------------------------------------------
  // Authorization-code extraction

  datatype ExtractError = InvalidUrlFormat | MissingCodeParameter | MalformedUri | NoCodeProvided

  function ExtractErrorMessage(e: ExtractError): string
  {
    match e
    case InvalidUrlFormat =>
      "Invalid URL format. Please provide either the complete callback URL or just the authorization code."
    case MissingCodeParameter =>
      "No \"code\" parameter found in the URL. Please ensure you copied the complete callback URL."
    // the URIError of decodeURIComponent, rethrown with the runtime's own message
    case MalformedUri => "URI malformed"
    case NoCodeProvided => "No authorization code provided."
  }

  predicate LooksLikeUrl(t: string)
  {
    JsText.StartsWith(t, "http://") || JsText.StartsWith(t, "https://")
  }

  /** Text that does not begin with 'h' is never taken for a URL. */
  lemma NotUrlLike(t: string)
    requires t == [] || t[0] != 'h'
    ensures !LooksLikeUrl(t)
  {
    if |t| >= 7 {
      assert t[..7][0] != "http://"[0];
    }
    if |t| >= 8 {
      assert t[..8][0] != "https://"[0];
    }
  }

  /** `url.searchParams.get('code')`; a URL without a query has no parameters. */
  function CodeParameter(url: HttpUrl.Url): Option<string>
  {
    match url.query
    case None => None
    case Some(q) => FormUrlEncoded.Get(FormUrlEncoded.Parse(Utf8.EncodeString(q)), "code")
  }

  /** The callback-URL branch of the extractor: the `code` parameter of the
      URL, percent-decoded; an unparsable URL, a missing or empty parameter
      and a malformed encoding are errors. */
  function ExtractFromUrl(t: string): (r: Result<string, ExtractError>)
    ensures r != Err(NoCodeProvided)
    ensures r.Ok? ==> r.value != []
  {
    match HttpUrl.ParseHttpUrl(t)
    case None => Err(InvalidUrlFormat)
    case Some(url) =>
      match CodeParameter(url)
      case None => Err(MissingCodeParameter)
      case Some(code) =>
        if code == [] then Err(MissingCodeParameter)
        else match UriComponent.Decode(code)
          case None => Err(MalformedUri)
          case Some(decoded) => Ok(decoded)
  }

  /** `extractAuthorizationCode`: a callback URL yields its twice-decoded
      `code` parameter or an error; anything else is the code itself,
      percent-decoded when that succeeds and taken as it is otherwise. */
  function ExtractAuthorizationCode(userInput: string): (r: Result<string, ExtractError>)
    // empty or white-space-only input never yields a code
    ensures r == Err(NoCodeProvided) <==> JsText.AllWhiteSpace(userInput)
    ensures r.Ok? ==> r.value != []
    // the raw path never fails: the trimmed text, percent-decoded when that
    // succeeds and kept as it is otherwise
    ensures var t := JsText.Trim(userInput);
      !LooksLikeUrl(t) && t != [] ==>
        r == Ok(if UriComponent.Decode(t).Some? then UriComponent.Decode(t).value else t)
    ensures var t := JsText.Trim(userInput);
      !LooksLikeUrl(t) && t != [] && UriComponent.Decode(t).None? ==> r == Ok(t)
    ensures var t := JsText.Trim(userInput);
      !LooksLikeUrl(t) && t != [] && '%' !in t ==> r == Ok(t)
    // a decoding failure is an error only on the URL path
    ensures r == Err(MalformedUri) ==> LooksLikeUrl(JsText.Trim(userInput))
  {
    var t := JsText.Trim(userInput);
    if LooksLikeUrl(t) then ExtractFromUrl(t)
    else if t == [] then Err(NoCodeProvided)
    else match UriComponent.Decode(t)
      case None => Ok(t)
      case Some(decoded) => Ok(decoded)
  }

  /** The callback-URL path of the extractor: an unparsable URL and a missing
      or empty `code` parameter are errors, never a fallback to the raw text,
      and a code comes out only as the percent-decoding of that parameter. */
  lemma ExtractFromCallbackUrl(userInput: string)
    ensures var r := ExtractAuthorizationCode(userInput); var t := JsText.Trim(userInput);
      LooksLikeUrl(t) ==> (r == Err(InvalidUrlFormat) <==> HttpUrl.ParseHttpUrl(t).None?)
    ensures var r := ExtractAuthorizationCode(userInput); var t := JsText.Trim(userInput); var url := HttpUrl.ParseHttpUrl(t);
      LooksLikeUrl(t) && url.Some? ==>
        (r == Err(MissingCodeParameter) <==> CodeParameter(url.value) in {None, Some([])})
    ensures var r := ExtractAuthorizationCode(userInput); var t := JsText.Trim(userInput); var url := HttpUrl.ParseHttpUrl(t);
      LooksLikeUrl(t) && r.Ok? ==>
        url.Some? && CodeParameter(url.value).Some? && UriComponent.Decode(CodeParameter(url.value).value) == Some(r.value)
  {
    var t := JsText.Trim(userInput);
    if LooksLikeUrl(t) {
      assert ExtractAuthorizationCode(userInput) == ExtractFromUrl(t) by { ExtractOfUrlLike(userInput); }
      var url := HttpUrl.ParseHttpUrl(t);
      if url.Some? {
        var code := CodeParameter(url.value);
        if code.Some? && code.value != [] {
          assert ExtractAuthorizationCode(userInput) ==
            (match UriComponent.Decode(code.value)
             case None => Err(MalformedUri)
             case Some(decoded) => Ok(decoded));
        } else {
          assert ExtractAuthorizationCode(userInput) == Err(MissingCodeParameter);
        }
      } else {
        assert ExtractAuthorizationCode(userInput) == Err(InvalidUrlFormat);
      }
    }
  }

  /** A bare code, however it is padded with white space, is trimmed and
      percent-decoded, and kept as typed when it does not decode. */
  lemma ExtractBareCode(left: string, t: string, right: string)
    requires JsText.AllWhiteSpace(left) && JsText.AllWhiteSpace(right)
    requires t != [] && !JsText.IsWhiteSpace(t[0]) && !JsText.IsWhiteSpace(t[|t| - 1]) && !LooksLikeUrl(t)
    ensures ExtractAuthorizationCode(left + t + right) ==
      Ok(if UriComponent.Decode(t).Some? then UriComponent.Decode(t).value else t)
  {
    assert JsText.Trim(left + t + right) == t by { JsText.TrimPadded(left, t, right); }
  }

  lemma ExtractEmpty()
    ensures ExtractAuthorizationCode("") == Err(NoCodeProvided)
  {
  }

  /** Literal cases: a padded code, an escaped code, a truncated escape. */
  lemma ExtractTrimmedCode(s: string)
    requires s == "  abc123  "
    ensures ExtractAuthorizationCode(s) == Ok("abc123")
  {
    assert s == "  " + "abc123" + "  ";
    assert UriComponent.Decode("abc123") == Some("abc123") by { assert '%' !in "abc123"; }
    NotUrlLike("abc123");
    ExtractBareCode("  ", "abc123", "  ");
  }

  lemma ExtractEncodedCode(s: string)
    requires s == "4%2F0Ab"
    ensures ExtractAuthorizationCode(s) == Ok("4/0Ab")
  {
    assert s == [] + s + [];
    UriComponent.DecodeEscapedSlash(s);
    NotUrlLike(s);
    ExtractBareCode([], s, []);
  }

  lemma ExtractPlainText(s: string)
    requires s == "not a url, not a code??"
    ensures ExtractAuthorizationCode(s) == Ok(s)
  {
    assert s == [] + s + [];
    assert UriComponent.Decode(s) == Some(s) by { assert '%' !in "not a url, not a code??"; }
    NotUrlLike(s);
    ExtractBareCode([], s, []);
  }

  lemma ExtractUndecodableCode(s: string)
    requires s == "4%2"
    ensures ExtractAuthorizationCode(s) == Ok(s)
  {
    assert s == [] + s + [];
    UriComponent.DecodeTruncatedEscape(s);
    NotUrlLike(s);
    ExtractBareCode([], s, []);
  }

  /** The callback URL a provider redirects to: a plain host, port and
      path, and the response parameters written as a form-urlencoded query. */
  function CallbackUrl(
    secure: bool, host: string, port: Option<nat>, path: string, params: Option<seq<(string, string)>>): string
  {
    var query := if params.Some? then Some(Utf8.Latin1(FormUrlEncoded.Serialize(params.value))) else None;
    HttpUrl.UrlText(secure, host, port, path, query)
  }

  /** What the extractor makes of a non-empty `code` parameter: its
      percent-decoding, or the URIError of a malformed one. */
  function DecodedCode(code: string): Result<string, ExtractError>
  {
    match UriComponent.Decode(code)
    case None => Err(MalformedUri)
    case Some(decoded) => Ok(decoded)
  }

  /** A URL written in plain characters is already trimmed, looks like a
      URL to the extractor and parses to its host and query. */
  lemma CallbackUrlShape(secure: bool, host: string, port: Option<nat>, path: string, query: Option<string>)
    requires HttpUrl.IsPlainUrl(host, port, path, query)
    ensures var url := HttpUrl.UrlText(secure, host, port, path, query);
      && JsText.Trim(url) == url && LooksLikeUrl(url)
      && HttpUrl.ParseHttpUrl(url) == Some(HttpUrl.Url(host, HttpUrl.EffectivePort(secure, port), query))
  {
    var url := HttpUrl.UrlText(secure, host, port, path, query);
    assert JsText.Trim(url) == url by { PlainUrlTrimmed(secure, host, port, path, query); }
    assert LooksLikeUrl(url) by { PlainUrlLooksLikeUrl(secure, host, port, path, query); }
    assert HttpUrl.ParseHttpUrl(url) == Some(HttpUrl.Url(host, HttpUrl.EffectivePort(secure, port), query)) by {
      HttpUrl.ParsePlainUrl(secure, host, port, path, query);
    }
  }

  lemma PlainUrlTrimmed(secure: bool, host: string, port: Option<nat>, path: string, query: Option<string>)
    requires HttpUrl.IsPlainUrl(host, port, path, query)
    ensures var url := HttpUrl.UrlText(secure, host, port, path, query); JsText.Trim(url) == url
  {
    var url := HttpUrl.UrlText(secure, host, port, path, query);
    HttpUrl.PlainUrlPrintable(secure, host, port, path, query);
    JsText.TrimPrintable(url);
  }

  lemma PlainUrlLooksLikeUrl(secure: bool, host: string, port: Option<nat>, path: string, query: Option<string>)
    ensures LooksLikeUrl(HttpUrl.UrlText(secure, host, port, path, query))
  {
    var url := HttpUrl.UrlText(secure, host, port, path, query);
    assert url[..|HttpUrl.SchemePrefix(secure)|] == HttpUrl.SchemePrefix(secure);
  }

  /** Text that looks like a URL after trimming takes the callback-URL branch. */
  lemma ExtractOfUrlLike(userInput: string)
    requires LooksLikeUrl(JsText.Trim(userInput))
    ensures ExtractAuthorizationCode(userInput) == ExtractFromUrl(JsText.Trim(userInput))
  {
  }

  /** On a text that parses as a URL, the callback-URL branch reads the `code` parameter. */
  lemma ExtractFromParsedUrl(t: string, url: HttpUrl.Url)
    requires HttpUrl.ParseHttpUrl(t) == Some(url)
    ensures var code := CodeParameter(url);
      && (code.None? || code == Some([]) ==> ExtractFromUrl(t) == Err(MissingCodeParameter))
      && (code.Some? && code.value != [] ==> ExtractFromUrl(t) == DecodedCode(code.value))
  {
  }

  /** On trimmed text that parses as a URL, the extractor reads the `code` parameter. */
  lemma ExtractFromTrimmedUrl(t: string, url: HttpUrl.Url)
    requires JsText.Trim(t) == t && LooksLikeUrl(t) && HttpUrl.ParseHttpUrl(t) == Some(url)
    ensures var code := CodeParameter(url); var r := ExtractAuthorizationCode(t);
      && (code.None? || code == Some([]) ==> r == Err(MissingCodeParameter))
      && (code.Some? && code.value != [] ==> r == DecodedCode(code.value))
  {
    var code := CodeParameter(url);
    var x := if code.None? || code == Some([]) then Err(MissingCodeParameter) else DecodedCode(code.value);
    assert ExtractFromUrl(t) == x by { ExtractFromParsedUrl(t, url); }
    assert ExtractAuthorizationCode(t) == ExtractFromUrl(t) by { ExtractOfUrlLike(t); }
  }

  /** The query a provider writes is plain query text, read back as the parameters it encodes. */
  lemma SerializedQuery(params: seq<(string, string)>)
    ensures var q := Utf8.Latin1(FormUrlEncoded.Serialize(params));
      && (forall i | 0 <= i < |q| :: HttpUrl.IsPlainQueryChar(q[i]))
      && FormUrlEncoded.Parse(Utf8.EncodeString(q)) == params
  {
    var bs := FormUrlEncoded.Serialize(params);
    FormUrlEncoded.SerializedAreQueryBytes(params);
    Utf8.EncodeLatin1(bs);
    FormUrlEncoded.ParseSerialize(params);
  }

  /** Pasting a provider's callback URL gives back the `code` parameter the
      provider wrote, decoded by `decodeURIComponent` once more after the
      query parser has decoded it; a URL without a non-empty `code` parameter
      is refused. */
  lemma ExtractFromCallback(
    secure: bool, host: string, port: Option<nat>, path: string, params: Option<seq<(string, string)>>)
    requires HttpUrl.IsPlainUrl(host, port, path, None)
    ensures var code := if params.Some? then FormUrlEncoded.Get(params.value, "code") else None;
      var r := ExtractAuthorizationCode(CallbackUrl(secure, host, port, path, params));
      && (code.None? || code == Some([]) ==> r == Err(MissingCodeParameter))
      && (code.Some? && code.value != [] ==> r == DecodedCode(code.value))
  {
    var query := if params.Some? then Some(Utf8.Latin1(FormUrlEncoded.Serialize(params.value))) else None;
    var code := if params.Some? then FormUrlEncoded.Get(params.value, "code") else None;
    var parsed := HttpUrl.Url(host, HttpUrl.EffectivePort(secure, port), query);
    assert HttpUrl.IsPlainUrl(host, port, path, query) && CodeParameter(parsed) == code by {
      if params.Some? {
        SerializedQuery(params.value);
      }
    }
    var url := HttpUrl.UrlText(secure, host, port, path, query);
    assert CallbackUrl(secure, host, port, path, params) == url;
    CallbackUrlShape(secure, host, port, path, query);
    ExtractFromTrimmedUrl(url, parsed);
  }

  /** The callback URL the command line asks for,
      `http://localhost:3000/oauth/callback?code=...`, gives back its code. */
  lemma ExtractFromLocalCallback(code: string)
    requires code != []
    ensures ExtractAuthorizationCode(CallbackUrl(false, "localhost", Some(3000), "/oauth/callback", Some([("code", code)])))
      == DecodedCode(code)
  {
    assert HttpUrl.IsPlainUrl("localhost", Some(3000), "/oauth/callback", None) by {
      assert forall i | 0 <= i < |"localhost"| :: HttpUrl.IsPlainHostChar("localhost"[i]);
    }
    assert FormUrlEncoded.Get([("code", code)], "code") == Some(code);
    ExtractFromCallback(false, "localhost", Some(3000), "/oauth/callback", Some([("code", code)]));
  }

  // ---------------------------------------------------------------------
  // Token exchange errors

  datatype AuthError =
    | StoreUnreadable(message: string)     // reading the token file threw
    | PromptRejected(message: string)      // the prompt callback threw
    | InputRejected(error: ExtractError)   // the reply held no authorization code
    | InvalidAuthCode                      // the token endpoint refused the code
    | Rethrown(message: string)            // any other failure, passed on unchanged

  const InvalidAuthCodeMessage :=
    "Authorization code is invalid or malformed. This can happen if:\n"
    + "- The code has expired (codes are only valid for ~10 minutes)\n"
    + "- The redirect URI doesn't match your OAuth client configuration\n"
    + "- The code was corrupted during copy/paste\n"
    + "\nPlease try the authorization process again with a fresh authorization URL."

  function ErrorMessage(e: AuthError): string
  {
    match e
    case StoreUnreadable(m) => m
    case PromptRejected(m) => m
    case InputRejected(x) => ExtractErrorMessage(x)
    case InvalidAuthCode => InvalidAuthCodeMessage
    case Rethrown(m) => m
  }

  /** The `catch` around the token exchange: a refused grant or a malformed
      code becomes the fixed diagnostic, anything else is rethrown unchanged. */
  function ClassifyExchangeError(message: string): (e: AuthError)
    ensures e == InvalidAuthCode <==>
      JsText.Includes(message, "invalid_grant") || JsText.Includes(message, "Malformed auth code")
    ensures e != InvalidAuthCode ==> e == Rethrown(message) && ErrorMessage(e) == message
  {
    if JsText.Includes(message, "invalid_grant") || JsText.Includes(message, "Malformed auth code")
    then InvalidAuthCode
    else Rethrown(message)
  }

  /** An error message that mentions either marker anywhere gets the fixed diagnostic. */
  lemma RefusedCodeAnywhere(before: string, after: string)
    ensures ClassifyExchangeError(before + "invalid_grant" + after) == InvalidAuthCode
    ensures ClassifyExchangeError(before + "Malformed auth code" + after) == InvalidAuthCode
  {
    JsText.IncludesOccurrence(before, "invalid_grant", after);
    JsText.IncludesOccurrence(before, "Malformed auth code", after);
  }

  // ---------------------------------------------------------------------
  // The credentials flow

  /** The token record the OAuth library hands back; opaque to the authorizer. */
  datatype Credentials = Credentials(
    accessToken: Option<string>, refreshToken: Option<string>, expiryDate: Option<int>,
    scope: Option<string>, tokenType: Option<string>, idToken: Option<string>)

  /** The OAuth client handed to the caller, with the credentials set on it. */
  datatype OAuth2Client = OAuth2Client(clientId: string, clientSecret: string, redirectUri: string, credentials: Credentials)

  /** What the prompt callback does when it is called. */
  datatype PromptOutcome = Answered(reply: string) | Rejected(message: string)

  /** What the token endpoint does with the code. */
  datatype ExchangeOutcome = Granted(tokens: Credentials) | Refused(message: string)

  /** The observable course of one `getUserCredentials` call: its result
      (the credentials on the returned client), whether the prompt was
      called, which code was exchanged, what was stored for the user, and
      whether the store was written. */
  datatype Flow = Flow(
    result: Result<Credentials, AuthError>, prompted: bool, exchangedCode: Option<string>,
    stored: Option<Credentials>, written: bool)

  /** The `try` block around the token exchange: the tokens granted for
      `code` are stored and written; any failure goes through the
      classification. */
  function ExchangeFlow(code: string, exchange: ExchangeOutcome, writeFailure: Option<string>): (f: Flow)
    ensures f.prompted && f.exchangedCode == Some(code)
    // a failed exchange is classified and nothing is stored
    ensures exchange.Refused? ==> f.result == Err(ClassifyExchangeError(exchange.message)) && f.stored.None?
    // a granted exchange stores the new tokens, then writes
    ensures f.stored.Some? <==> exchange.Granted?
    ensures f.stored.Some? ==> f.stored.value == exchange.tokens
    ensures f.written <==> exchange.Granted? && writeFailure.None?
    // a failed write goes through the same classification
    ensures exchange.Granted? && writeFailure.Some? ==> f.result == Err(ClassifyExchangeError(writeFailure.value))
    ensures f.result.Ok? <==> f.written
    ensures f.written ==> f.result == Ok(exchange.tokens)
  {
    match exchange
    case Refused(m) => Flow(Err(ClassifyExchangeError(m)), true, Some(code), None, false)
    case Granted(tokens) =>
      match writeFailure
      case Some(m) => Flow(Err(ClassifyExchangeError(m)), true, Some(code), Some(tokens), false)
      case None => Flow(Ok(tokens), true, Some(code), Some(tokens), true)
  }

  /** A new authorization: prompt, extract the code, exchange it. */
  function ReauthorizationFlow(prompt: PromptOutcome, exchange: ExchangeOutcome, writeFailure: Option<string>): (f: Flow)
    ensures f.prompted
  {
    match prompt
    case Rejected(m) => Flow(Err(PromptRejected(m)), true, None, None, false)
    case Answered(reply) =>
      match ExtractAuthorizationCode(reply)
      case Err(e) => Flow(Err(InputRejected(e)), true, None, None, false)
      case Ok(code) => ExchangeFlow(code, exchange, writeFailure)
  }

  /** The decision procedure of `getUserCredentials`, given the cached
      entry, the outcome of the probe and of each oracle it may call. */
  function CredentialsFlow(
    cached: Option<Credentials>, probeSucceeds: bool, prompt: PromptOutcome,
    exchange: ExchangeOutcome, writeFailure: Option<string>): (f: Flow)
    // a cached token that passes the probe is used: no prompt, no exchange, no write
    ensures cached.Some? && probeSucceeds ==> f == Flow(Ok(cached.value), false, None, None, false)
    // otherwise (no entry, or a failed probe, which is swallowed) the prompt is called
    ensures !(cached.Some? && probeSucceeds) ==> f.prompted
    ensures f.prompted && prompt.Rejected? ==> f.result == Err(PromptRejected(prompt.message))
    ensures f.prompted && prompt.Answered? && ExtractAuthorizationCode(prompt.reply).Err? ==>
      f.result == Err(InputRejected(ExtractAuthorizationCode(prompt.reply).error))
    // the code exchanged is the one extracted from the reply
    ensures f.exchangedCode.Some? <==>
      f.prompted && prompt.Answered? && ExtractAuthorizationCode(prompt.reply).Ok?
    ensures f.exchangedCode.Some? ==> ExtractAuthorizationCode(prompt.reply) == Ok(f.exchangedCode.value)
    // a failed exchange is classified and nothing is stored
    ensures f.exchangedCode.Some? && exchange.Refused? ==>
      f.result == Err(ClassifyExchangeError(exchange.message)) && f.stored.None?
    // a granted exchange stores the new tokens, then writes
    ensures f.stored.Some? <==> f.exchangedCode.Some? && exchange.Granted?
    ensures f.stored.Some? ==> f.stored.value == exchange.tokens
    ensures f.written <==> f.stored.Some? && writeFailure.None?
    // a failed write goes through the same classification
    ensures f.stored.Some? && writeFailure.Some? ==> f.result == Err(ClassifyExchangeError(writeFailure.value))
    // success exactly on a valid cache hit or a completed write
    ensures f.result.Ok? <==> (cached.Some? && probeSucceeds) || f.written
    ensures f.written ==> f.result == Ok(exchange.tokens)
  {
    if cached.Some? && probeSucceeds then Flow(Ok(cached.value), false, None, None, false)
    else ReauthorizationFlow(prompt, exchange, writeFailure)
  }

  /** `getUserCredentials` from the read of the store on: a failed read
      rejects before anything else happens; otherwise the credentials flow
      runs on the entry that was read. */
  function SessionFlow(
    readFailure: Option<string>, cached: Option<Credentials>, probeSucceeds: bool, prompt: PromptOutcome,
    exchange: ExchangeOutcome, writeFailure: Option<string>): (f: Flow)
    ensures readFailure.Some? ==> f == Flow(Err(StoreUnreadable(readFailure.value)), false, None, None, false)
    ensures readFailure.None? ==> f == CredentialsFlow(cached, probeSucceeds, prompt, exchange, writeFailure)
  {
    if readFailure.Some? then Flow(Err(StoreUnreadable(readFailure.value)), false, None, None, false)
    else CredentialsFlow(cached, probeSucceeds, prompt, exchange, writeFailure)
  }

  // ---------------------------------------------------------------------
  // The token store

  /** The token-cache files on disk, each as the user-to-credentials map it holds. */
  class Disk {
    var files: map<string, map<string, Credentials>>

    constructor (files: map<string, map<string, Credentials>>)
      ensures this.files == files
    {
      this.files := files;
    }
  }

  /** The lowdb database over one JSON file: `data` is its in-memory view. */
  class LowDb {
    const disk: Disk
    const path: string
    var data: map<string, Credentials>
    ghost var writes: nat

    constructor (disk: Disk, path: string)
      ensures this.disk == disk && this.path == path
      ensures data == map[] && writes == 0
    {
      this.disk := disk;
      this.path := path;
      data := map[];
      writes := 0;
    }

    /** `db.read()`: the file's contents, if it exists, replace the view. A
        file that exists but cannot be read or parsed (`failure`) makes the
        read throw, and the view stays as it was. */
    method Read(failure: Option<string>) returns (error: Option<string>)
      modifies this`data
      ensures error == failure
      ensures data == if failure.None? && path in disk.files then disk.files[path] else old(data)
    {
      error := failure;
      if failure.None? && path in disk.files {
        data := disk.files[path];
      }
    }

    /** `db.write()`: the view replaces the file, unless the write fails. */
    method Write(failure: Option<string>) returns (error: Option<string>)
      modifies disk`files, this`writes
      ensures error == failure && writes == old(writes) + 1
      ensures disk.files == if failure.None? then old(disk.files)[path := data] else old(disk.files)
    {
      writes := writes + 1;
      error := failure;
      if failure.None? {
        disk.files := disk.files[path := data];
      }
    }

    /** A record written by one database is what another database over the
        same file reads back. */
    static method WriteThenReload(disk: Disk, path: string, user: string, record: Credentials)
      returns (reloaded: Option<Credentials>)
      modifies disk
      ensures reloaded == Some(record)
      ensures path in disk.files && disk.files[path] == (if path in old(disk.files) then old(disk.files)[path] else map[])[user := record]
    {
      var first := new LowDb(disk, path);
      var _ := first.Read(None);
      first.data := first.data[user := record];
      var _ := first.Write(None);
      var second := new LowDb(disk, path);
      var _ := second.Read(None);
      reloaded := if user in second.data then Some(second.data[user]) else None;
    }
  }

  /** The file a store is kept in: `filePath`, or the empty path of the
      in-memory variant when no path is configured. */
  function StorePath(filePath: Option<string>): string
  {
    if filePath.Some? then filePath.value else ""
  }

  /** The view after `db.read()`. */
  function Loaded(
    files: map<string, map<string, Credentials>>, path: string, failure: Option<string>,
    current: map<string, Credentials>): map<string, Credentials>
  {
    if failure.None? && path in files then files[path] else current
  }

  function Lookup(data: map<string, Credentials>, user: string): Option<Credentials>
  {
    if user in data then Some(data[user]) else None
  }

  /** The view after `db.data[user] = entry`, when there is an entry to store. */
  function Stored(data: map<string, Credentials>, user: string, entry: Option<Credentials>): map<string, Credentials>
  {
    if entry.Some? then data[user := entry.value] else data
  }

  /** Storing an entry for `user` replaces that user's entry, adds no other
      user and leaves every other user's entry as it was. */
  lemma StoredOnlyChangesUser(data: map<string, Credentials>, user: string, tokens: Credentials)
    ensures var after := Stored(data, user, Some(tokens));
      && user in after && after[user] == tokens
      && after.Keys == data.Keys + {user}
      && forall u | u in data && u != user :: after[u] == data[u]
  {
  }

  function Codes(code: Option<string>): seq<string>
  {
    if code.Some? then [code.value] else []
  }

  class UserAuthorizer {
    var db: LowDb?
    const clientId: string
    const clientSecret: string
    const redirectUri: string
    const filePath: Option<string>
    const disk: Disk
    ghost var prompts: nat
    ghost var exchangedCodes: seq<string>

    ghost predicate Valid()
      reads this
    {
      db != null ==> db.disk == disk && db.path == StorePath(filePath)
    }

    constructor (options: AuthOptions, disk: Disk)
      ensures Valid() && db == null && this.disk == disk
      ensures clientId == options.clientId && clientSecret == options.clientSecret
      ensures redirectUri == RedirectUriOrDefault(options.redirectUri) && filePath == options.filePath
      ensures prompts == 0 && exchangedCodes == []
    {
      db := null;
      clientId := options.clientId;
      clientSecret := options.clientSecret;
      redirectUri := RedirectUriOrDefault(options.redirectUri);
      filePath := options.filePath;
      this.disk := disk;
      prompts := 0;
      exchangedCodes := [];
    }

    /** `initDb`: creates the database on first use, then always returns it. */
    method InitDb() returns (d: LowDb)
      requires Valid()
      modifies this`db
      ensures Valid() && db == d
      ensures old(db) != null ==> d == old(db)
      ensures old(db) == null ==> fresh(d) && d.data == map[] && d.writes == 0
    {
      if db == null {
        db := new LowDb(disk, StorePath(filePath));
      }
      d := db;
    }

    /** `const db = await this.initDb(); await db.read();`: the database
        exists afterwards even when the read throws. */
    method OpenStore(readFailure: Option<string>) returns (d: LowDb, error: Option<string>)
      requires Valid()
      modifies this`db, (if db == null then {} else {db})`data
      ensures Valid() && db == d && error == readFailure
      ensures old(db) != null ==> d == old(db) && d.writes == old(db.writes)
      ensures old(db) == null ==> fresh(d) && d.writes == 0
      ensures d.data == Loaded(disk.files, StorePath(filePath), readFailure, if old(db) == null then map[] else old(db.data))
    {
      d := InitDb();
      error := d.Read(readFailure);
    }

    function ClientWith(credentials: Credentials): OAuth2Client
      reads this
    {
      OAuth2Client(clientId, clientSecret, redirectUri, credentials)
    }

    /** The `try` block of `getUserCredentials`: exchange the code, store
        and write the tokens, classify a failure. */
    method ExchangeCode(d: LowDb, user: string, code: string, exchange: ExchangeOutcome, writeFailure: Option<string>)
      returns (result: Result<Credentials, AuthError>)
      requires Valid() && d == db
      modifies d, disk, this`exchangedCodes
      ensures var f := ExchangeFlow(code, exchange, writeFailure);
        && result == f.result
        && exchangedCodes == old(exchangedCodes) + [code]
        && d.data == Stored(old(d.data), user, f.stored)
        && d.writes == old(d.writes) + (if f.stored.Some? then 1 else 0)
        && disk.files == (if f.written then old(disk.files)[d.path := d.data] else old(disk.files))
    {
      exchangedCodes := exchangedCodes + [code];
      match exchange {
        case Refused(m) =>
          return Err(ClassifyExchangeError(m));
        case Granted(tokens) =>
          d.data := d.data[user := tokens];
          var failed := d.Write(writeFailure);
          if failed.Some? {
            return Err(ClassifyExchangeError(failed.value));
          }
          return Ok(tokens);
      }
    }

    /** A new authorization: call the prompt, extract the code from the reply, exchange it. */
    method Reauthorize(d: LowDb, user: string, prompt: PromptOutcome, exchange: ExchangeOutcome, writeFailure: Option<string>)
      returns (result: Result<Credentials, AuthError>)
      requires Valid() && d == db
      modifies d, disk, this`exchangedCodes, this`prompts
      ensures var f := ReauthorizationFlow(prompt, exchange, writeFailure);
        && result == f.result
        && prompts == old(prompts) + 1
        && exchangedCodes == old(exchangedCodes) + Codes(f.exchangedCode)
        && d.data == Stored(old(d.data), user, f.stored)
        && d.writes == old(d.writes) + (if f.stored.Some? then 1 else 0)
        && disk.files == (if f.written then old(disk.files)[d.path := d.data] else old(disk.files))
    {
      prompts := prompts + 1;
      match prompt {
        case Rejected(m) =>
          return Err(PromptRejected(m));
        case Answered(reply) =>
          var code := ExtractAuthorizationCode(reply);
          if code.Err? {
            return Err(InputRejected(code.error));
          }
          result := ExchangeCode(d, user, code.value, exchange, writeFailure);
      }
    }

    /** `getUserCredentials` once the store is read: use the cached entry
        if the probe accepts it, otherwise authorize anew. On the cached path
        the client holds the stored credentials as they were read: a token
        refresh done by `getAccessToken` during the probe is not modelled. */
    method UseStore(
      d: LowDb, user: string, probeSucceeds: bool, prompt: PromptOutcome,
      exchange: ExchangeOutcome, writeFailure: Option<string>)
      returns (r: Result<OAuth2Client, AuthError>)
      requires Valid() && d == db
      modifies d, disk, this`exchangedCodes, this`prompts
      ensures
        var f := CredentialsFlow(Lookup(old(d.data), user), probeSucceeds, prompt, exchange, writeFailure);
        && (r.Ok? <==> f.result.Ok?)
        && (r.Ok? ==> r.value == ClientWith(f.result.value))
        && (r.Err? ==> r.error == f.result.error)
        && prompts == old(prompts) + (if f.prompted then 1 else 0)
        && exchangedCodes == old(exchangedCodes) + Codes(f.exchangedCode)
        && d.data == Stored(old(d.data), user, f.stored)
        && d.writes == old(d.writes) + (if f.stored.Some? then 1 else 0)
        && disk.files == (if f.written then old(disk.files)[d.path := d.data] else old(disk.files))
    {
      var cached := Lookup(d.data, user);
      if cached.Some? && probeSucceeds {
        return Ok(ClientWith(cached.value));
      }
      assert CredentialsFlow(cached, probeSucceeds, prompt, exchange, writeFailure)
        == ReauthorizationFlow(prompt, exchange, writeFailure);
      var result := Reauthorize(d, user, prompt, exchange, writeFailure);
      r := if result.Ok? then Ok(ClientWith(result.value)) else Err(result.error);
    }

    /** `getUserCredentials(user, scopes)`: follows `SessionFlow` on the
        outcome of reading the file and the entry it holds for `user`. */
    method GetUserCredentials(
      user: string, readFailure: Option<string>, probeSucceeds: bool, prompt: PromptOutcome,
      exchange: ExchangeOutcome, writeFailure: Option<string>)
      returns (r: Result<OAuth2Client, AuthError>)
      requires Valid()
      modifies this, db, disk
      ensures Valid() && db != null
      ensures old(db) != null ==> db == old(db)
      ensures old(db) == null ==> fresh(db)
      ensures
        var loaded := Loaded(old(disk.files), StorePath(filePath), readFailure, if old(db) == null then map[] else old(db.data));
        var f := SessionFlow(readFailure, Lookup(loaded, user), probeSucceeds, prompt, exchange, writeFailure);
        && (r.Ok? <==> f.result.Ok?)
        && (r.Ok? ==> r.value == ClientWith(f.result.value))
        && (r.Err? ==> r.error == f.result.error)
        && prompts == old(prompts) + (if f.prompted then 1 else 0)
        && exchangedCodes == old(exchangedCodes) + Codes(f.exchangedCode)
        && db.data == Stored(loaded, user, f.stored)
        && db.writes == (if old(db) == null then 0 else old(db.writes)) + (if f.stored.Some? then 1 else 0)
        && disk.files == (if f.written then old(disk.files)[StorePath(filePath) := db.data] else old(disk.files))
    {
      ghost var loaded := Loaded(disk.files, StorePath(filePath), readFailure, if db == null then map[] else db.data);
      ghost var before := if db == null then 0 else db.writes;
      var d, readError := OpenStore(readFailure);
      assert d.data == loaded && d.writes == before;
      if readError.Some? {
        return Err(StoreUnreadable(readError.value));
      }
      ghost var f := CredentialsFlow(Lookup(loaded, user), probeSucceeds, prompt, exchange, writeFailure);
      assert SessionFlow(readFailure, Lookup(loaded, user), probeSucceeds, prompt, exchange, writeFailure) == f;
      r := UseStore(d, user, probeSucceeds, prompt, exchange, writeFailure);
    }
  }
}
