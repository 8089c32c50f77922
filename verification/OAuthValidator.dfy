/** The OAuth2 request validator over its tables of authorization codes and of bearer tokens, and the order in which the
  * server calls it: sections 4.1 and 6 of RFC 6749, section 4.6 of RFC 7636. */
module OAuthValidator {
  import opened Wrappers

  datatype Error =
    | InvalidClientId | InvalidClient | InvalidGrant | MismatchingRedirectUri | BadRequest
    | MissingCodeChallenge | UnsupportedCodeChallengeMethod | MissingCodeVerifier | ServerError | AssertionFailed

  datatype Client =
    Client(id: int, clientId: string, secret: string, redirectUri: string, stateRequired: bool, pkceRequired: bool)

  datatype CodeRow =
    CodeRow(client: int, user: int, code: string, redirectUri: string, state: Option<string>,
            challenge: Option<string>, challengeMethod: Option<string>, expireAt: int)

  datatype TokenRow = TokenRow(client: int, user: int, access: string, refresh: string, expireAt: int, state: Option<string>)

  /** At most one row is selected: the query does not fail. */
  predicate AtMostOne<T(!new)>(table: seq<T>, select: T -> bool) {
    forall i, j :: 0 <= i < j < |table| ==> !(select(table[i]) && select(table[j]))
  }

  /** The only selected row, by its place in the table. */
  function OneOrNone<T(!new)>(table: seq<T>, select: T -> bool): (row: Option<nat>)
    requires AtMostOne(table, select)
    ensures row.Some? ==> row.value < |table| && select(table[row.value])
    ensures row.None? ==> forall k :: 0 <= k < |table| ==> !select(table[k])
  {
    if exists k :: 0 <= k < |table| && select(table[k]) then
      var k :| 0 <= k < |table| && select(table[k]);
      Some(k)
    else None
  }

  predicate UniqueClients(clients: seq<Client>) {
    forall i, j :: 0 <= i < j < |clients| ==> clients[i].id != clients[j].id && clients[i].clientId != clients[j].clientId
  }

  /** One row for a client and a user, and no code twice. */
  predicate UniqueCodes(codes: seq<CodeRow>) {
    forall i, j :: 0 <= i < j < |codes| ==>
      codes[i].code != codes[j].code && !(codes[i].client == codes[j].client && codes[i].user == codes[j].user)
  }

  /** One row for a client and a user, and no access or refresh token twice. */
  predicate UniqueTokens(tokens: seq<TokenRow>) {
    forall i, j :: 0 <= i < j < |tokens| ==>
      && tokens[i].access != tokens[j].access && tokens[i].refresh != tokens[j].refresh
      && !(tokens[i].client == tokens[j].client && tokens[i].user == tokens[j].user)
  }

  // The client.

  /** The secret comes in the body or in an Authorization header. */
  datatype Credentials = NoSecret | Body(secret: string) | Basic(username: string, secret: string)

  function FindClient(clients: seq<Client>, clientId: string): (client: Option<Client>)
    requires UniqueClients(clients)
    ensures client.Some? ==> client.value in clients && client.value.clientId == clientId
  {
    match OneOrNone(clients, (c: Client) => c.clientId == clientId)
    case Some(k) => Some(clients[k])
    case None => None
  }

  /** Another user name in the header is an error of the program, not an answer. */
  function Authenticate(clients: seq<Client>, clientId: string, credentials: Credentials): (client: Result<Client, Error>)
    requires UniqueClients(clients)
    ensures client.Ok? ==>
              && client.value in clients && client.value.clientId == clientId
              && !credentials.NoSecret? && client.value.secret == credentials.secret
  {
    if credentials.NoSecret? then Err(InvalidClient)
    else if credentials.Basic? && credentials.username != clientId then Err(AssertionFailed)
    else
      match OneOrNone(clients, (c: Client) => c.clientId == clientId && c.secret == credentials.secret)
      case Some(k) => Ok(clients[k])
      case None => Err(InvalidClient)
  }

  // The tables.

  datatype Grant = Grant(code: string, redirectUri: string, state: Option<string>, challenge: Option<string>, challengeMethod: Option<string>)

  /** Saves a code: over the row of the client and the user, whose state stays, or in a new row. Nothing is saved when a
    * required state is missing. */
  function SaveCode(codes: seq<CodeRow>, client: Client, user: int, grant: Grant, expireAt: int): Option<seq<CodeRow>>
    requires UniqueCodes(codes)
  {
    if client.stateRequired && (grant.state.None? || grant.state.value == "") then None
    else
      var found := OneOrNone(codes, (r: CodeRow) => r.client == client.id && r.user == user);
      var row := if found.Some? then codes[found.value] else CodeRow(client.id, user, "", "", grant.state, None, None, 0);
      var saved := row.(code := grant.code, redirectUri := grant.redirectUri, expireAt := expireAt);
      var challenged :=
        if client.pkceRequired then saved.(challenge := grant.challenge, challengeMethod := grant.challengeMethod) else saved;
      Some(if found.Some? then codes[found.value := challenged] else codes + [challenged])
  }

  function SaveToken(tokens: seq<TokenRow>, row: TokenRow): seq<TokenRow>
    requires UniqueTokens(tokens)
  {
    match OneOrNone(tokens, (r: TokenRow) => r.client == row.client && r.user == row.user)
    case Some(k) => tokens[k := row]
    case None => tokens + [row]
  }

  /** The row of a code that the client may redeem now. */
  function ValidCode(codes: seq<CodeRow>, client: Client, code: string, state: Option<string>, now: int): Option<nat>
    requires UniqueCodes(codes)
  {
    OneOrNone(codes, (r: CodeRow) => r.code == code && r.client == client.id && r.expireAt > now
                                     && (client.stateRequired ==> r.state == state))
  }

  function CodeWith(codes: seq<CodeRow>, code: string): (row: Option<CodeRow>)
    requires UniqueCodes(codes)
  {
    match OneOrNone(codes, (r: CodeRow) => r.code == code)
    case Some(k) => Some(codes[k])
    case None => None
  }

  function ConfirmRedirect(codes: seq<CodeRow>, client: Client, code: string, redirectUri: string, now: int): bool
    requires UniqueCodes(codes)
  {
    OneOrNone(codes, (r: CodeRow) => r.code == code && r.client == client.id && r.redirectUri == redirectUri
                                     && r.expireAt > now).Some?
  }

  /** The place of the row to delete; `None` would be the failure of the query for exactly one row. */
  function Redeemable(codes: seq<CodeRow>, client: Client, code: string, user: int): Option<nat>
    requires UniqueCodes(codes)
  {
    OneOrNone(codes, (r: CodeRow) => r.code == code && r.client == client.id && r.user == user)
  }

  /** The user of an access token that is valid now. */
  function BearerUser(tokens: seq<TokenRow>, access: string, now: int): Option<int>
    requires UniqueTokens(tokens)
  {
    match OneOrNone(tokens, (r: TokenRow) => r.access == access && r.expireAt > now)
    case Some(k) => Some(tokens[k].user)
    case None => None
  }

  /** The user of a refresh token; it does not expire. */
  function RefreshUser(tokens: seq<TokenRow>, client: Client, refresh: string): Option<int>
    requires UniqueTokens(tokens)
  {
    match OneOrNone(tokens, (r: TokenRow) => r.refresh == refresh && r.client == client.id)
    case Some(k) => Some(tokens[k].user)
    case None => None
  }

  // Proof Key for Code Exchange.

  const METHODS := ["plain", "S256"]

  /** Section 4.6 of RFC 7636, over the transformation of the method S256. */
  predicate Verifies(s256: string -> string, challengeMethod: string, verifier: string, challenge: string) {
    if challengeMethod == "plain" then verifier == challenge else challengeMethod == "S256" && s256(verifier) == challenge
  }

  /** The check of the verifier of a token request against the row of its code. */
  function CheckVerifier(s256: string -> string, client: Client, row: CodeRow, verifier: Option<string>): Option<Error> {
    if row.challenge.Some? then
      if verifier.None? then Some(MissingCodeVerifier)
      else if row.challengeMethod.None? then Some(InvalidGrant)
      else if row.challengeMethod.value !in METHODS then Some(ServerError)
      else if !Verifies(s256, row.challengeMethod.value, verifier.value, row.challenge.value) then Some(InvalidGrant)
      else None
    else if client.pkceRequired then Some(if verifier.None? then MissingCodeVerifier else InvalidGrant)
    else None
  }

  // The requests.

  /** What does not change: the clients, the lifetime of a code in minutes and of an access token in seconds. */
  datatype Config = Config(clients: seq<Client>, codeMinutes: nat, tokenSeconds: nat, s256: string -> string)

  datatype Tables = Tables(codes: seq<CodeRow>, tokens: seq<TokenRow>)

  predicate Unique(t: Tables) {
    UniqueCodes(t.codes) && UniqueTokens(t.tokens)
  }

  datatype AuthorizeRequest =
    AuthorizeRequest(clientId: string, user: int, redirectUri: string, state: Option<string>,
                     challenge: Option<string>, challengeMethod: Option<string>)

  datatype TokenRequest =
    TokenRequest(clientId: string, credentials: Credentials, code: string, redirectUri: string, state: Option<string>,
                 verifier: Option<string>)

  datatype RefreshRequest = RefreshRequest(clientId: string, credentials: Credentials, refresh: string, state: Option<string>)

  /** The generated access and refresh tokens. */
  datatype Pair = Pair(access: string, refresh: string)

  /** The method is "plain" when a challenge comes without one. */
  function MethodOf(r: AuthorizeRequest): Option<string> {
    if r.challenge.Some? && r.challengeMethod.None? then Some("plain") else r.challengeMethod
  }

  /** What the server checks before it asks for a code; the client on success. */
  function CheckAuthorize(cfg: Config, r: AuthorizeRequest): (client: Result<Client, Error>)
    requires UniqueClients(cfg.clients)
    ensures client.Ok? ==> client.value in cfg.clients && client.value.clientId == r.clientId
  {
    var client := FindClient(cfg.clients, r.clientId);
    if client.None? then Err(InvalidClientId)
    else if OneOrNone(cfg.clients, (c: Client) => c.clientId == r.clientId && c.redirectUri == r.redirectUri).None? then
      Err(MismatchingRedirectUri)
    else if client.value.pkceRequired && r.challenge.None? then Err(MissingCodeChallenge)
    else if r.challenge.Some? && MethodOf(r).value !in METHODS then Err(UnsupportedCodeChallengeMethod)
    else Ok(client.value)
  }

  /** Section 4.1.1 of RFC 6749: the logged in user gives the client a code. */
  function Authorize(cfg: Config, t: Tables, r: AuthorizeRequest, code: string, now: int): Result<Tables, Error>
    requires UniqueClients(cfg.clients) && Unique(t)
  {
    match CheckAuthorize(cfg, r)
    case Err(e) => Err(e)
    case Ok(client) =>
      var grant := Grant(code, r.redirectUri, r.state, r.challenge, MethodOf(r));
      match SaveCode(t.codes, client, r.user, grant, now + 60 * cfg.codeMinutes)
      case None => Err(BadRequest)
      case Some(codes) => Ok(t.(codes := codes))
  }

  /** What the server checks before it gives tokens for a code, reading the clock twice; the client and the row of the
    * code on success. */
  function CheckToken(cfg: Config, t: Tables, r: TokenRequest, now: int, later: int): (checked: Result<(Client, nat), Error>)
    requires UniqueClients(cfg.clients) && Unique(t)
    ensures checked.Ok? ==> checked.value.0 in cfg.clients && checked.value.1 < |t.codes|
  {
    var client := Authenticate(cfg.clients, r.clientId, r.credentials);
    if client.Err? then Err(client.error)
    else
      var row := ValidCode(t.codes, client.value, r.code, r.state, now);
      if row.None? then Err(InvalidGrant)
      else
        var failed := CheckVerifier(cfg.s256, client.value, t.codes[row.value], r.verifier);
        if failed.Some? then Err(failed.value)
        else if !ConfirmRedirect(t.codes, client.value, r.code, r.redirectUri, later) then Err(MismatchingRedirectUri)
        else Ok((client.value, row.value))
  }

  /** Section 4.1.3 of RFC 6749: tokens for a code, which is then deleted. */
  function Token(cfg: Config, t: Tables, r: TokenRequest, pair: Pair, now: int, later: int): Result<Tables, Error>
    requires UniqueClients(cfg.clients) && Unique(t)
  {
    match CheckToken(cfg, t, r, now, later)
    case Err(e) => Err(e)
    case Ok((client, k)) =>
      var row := TokenRow(client.id, t.codes[k].user, pair.access, pair.refresh, later + cfg.tokenSeconds, r.state);
      Ok(Tables(t.codes[..k] + t.codes[k + 1..], SaveToken(t.tokens, row)))
  }

  /** The client and the user of a refresh request. */
  function CheckRefresh(cfg: Config, t: Tables, r: RefreshRequest): (checked: Result<(Client, int), Error>)
    requires UniqueClients(cfg.clients) && Unique(t)
    ensures checked.Ok? ==> checked.value.0 in cfg.clients
  {
    var client := Authenticate(cfg.clients, r.clientId, r.credentials);
    if client.Err? then Err(client.error)
    else
      match RefreshUser(t.tokens, client.value, r.refresh)
      case None => Err(InvalidGrant)
      case Some(user) => Ok((client.value, user))
  }

  /** Section 6 of RFC 6749: new tokens for a refresh token. */
  function Refresh(cfg: Config, t: Tables, r: RefreshRequest, pair: Pair, now: int): Result<Tables, Error>
    requires UniqueClients(cfg.clients) && Unique(t)
  {
    match CheckRefresh(cfg, t, r)
    case Err(e) => Err(e)
    case Ok((client, user)) =>
      Ok(t.(tokens := SaveToken(t.tokens, TokenRow(client.id, user, pair.access, pair.refresh, now + cfg.tokenSeconds, r.state))))
  }

  /** The row that validate_code found is the one that the others find. */
  lemma ValidCodeIsCodeWith(codes: seq<CodeRow>, client: Client, code: string, state: Option<string>, now: int)
    requires UniqueCodes(codes) && ValidCode(codes, client, code, state, now).Some?
    ensures var k := ValidCode(codes, client, code, state, now).value;
            && CodeWith(codes, code) == Some(codes[k])
            && Redeemable(codes, client, code, codes[k].user) == Some(k)
  {
    var k := ValidCode(codes, client, code, state, now).value;
    var i := OneOrNone(codes, (r: CodeRow) => r.code == code);
    var j := Redeemable(codes, client, code, codes[k].user);
    assert i.Some? && j.Some?;
    assert !(i.value < k) && !(k < i.value) && !(j.value < k) && !(k < j.value);
  }
}
