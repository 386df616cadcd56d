/**
 * What both front ends make of `~/.md2googleslides/client_id.json`: the
 * outcome of reading and parsing it, and the client configuration chosen
 * from its `web` or `installed` entry.
 */
module ClientConfig {
  import opened Wrappers
  import opened JsonValue

  /** `fs.readFileSync` followed by `JSON.parse`: either the parsed value or
      the message of the error one of them threw. */
  datatype ConfigFile =
    | Parsed(json: Json)
    | ReadFailed(message: string)
    | ParseFailed(message: string)

  datatype ClientType = Web | Installed

  /** The values `authorizeUser` hands to `UserAuthorizer`: both credentials
      are truthy, and the redirect URI is whatever value was chosen. */
  datatype Selection = Selection(clientType: ClientType, clientId: Json, clientSecret: Json, redirectUri: Option<Json>)

  /** The message of the TypeError V8 throws for `credsJson.web` when the
      file holds `null`. */
  const NullConfigMessage := "Cannot read properties of null (reading 'web')"

  /** The entry the configuration takes its shape from: `web` when it is
      truthy, otherwise `installed` when that is truthy. */
  function ClientEntry(config: Json): (r: Option<(ClientType, Json)>)
    requires config != JNull
    ensures r.Some? ==> Truthy(Some(r.value.1)) && r.value.1 != JNull
    ensures Truthy(Get(config, "web")) ==> r == Some((Web, Get(config, "web").value))
    ensures !Truthy(Get(config, "web")) && Truthy(Get(config, "installed")) ==>
      r == Some((Installed, Get(config, "installed").value))
    ensures r.None? <==> !Truthy(Get(config, "web")) && !Truthy(Get(config, "installed"))
  {
    var web := Get(config, "web");
    var installed := Get(config, "installed");
    if Truthy(web) then Some((Web, web.value))
    else if Truthy(installed) then Some((Installed, installed.value))
    else None
  }

  /** `!creds.client_id || !creds.client_secret`. */
  predicate MissingCredentials(creds: Json)
    requires creds != JNull
  {
    !Truthy(Get(creds, "client_id")) || !Truthy(Get(creds, "client_secret"))
  }
}
