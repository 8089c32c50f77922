/** What the requests of the OAuth2 server ask of the rows of its tables, when they fail and with which error, and which rows
  * they leave. */
module OAuthRequests {
  import opened Wrappers
  import opened OAuthValidator

  /** The client has this id, and the secret that comes with the request. */
  predicate Identifies(client: Client, clientId: string, credentials: Credentials) {
    && client.clientId == clientId
    && match credentials
       case NoSecret => false
       case Body(secret) => client.secret == secret
       case Basic(username, secret) => username == clientId && client.secret == secret
  }

  /** The header has the user name of another client. */
  predicate OtherUserName(clientId: string, credentials: Credentials) {
    credentials.Basic? && credentials.username != clientId
  }

  /** The verifier fits the challenge by one of the two methods. */
  predicate VerifierFits(s256: string -> string, challengeMethod: string, verifier: string, challenge: string) {
    (challengeMethod == "plain" && verifier == challenge) || (challengeMethod == "S256" && s256(verifier) == challenge)
  }

  lemma AuthenticateIff(clients: seq<Client>, clientId: string, credentials: Credentials)
    requires UniqueClients(clients)
    ensures var client := Authenticate(clients, clientId, credentials);
            && (client.Ok? ==> client.value in clients && Identifies(client.value, clientId, credentials))
            && (forall c :: c in clients && Identifies(c, clientId, credentials) ==> client == Ok(c))
            && (client == Err(AssertionFailed) <==> OtherUserName(clientId, credentials))
            && (client.Err? && client.error != AssertionFailed ==> client.error == InvalidClient)
  {
    forall c | c in clients && Identifies(c, clientId, credentials) ensures Authenticate(clients, clientId, credentials) == Ok(c) {
      var k :| 0 <= k < |clients| && clients[k] == c;
      var found := OneOrNone(clients, (d: Client) => d.clientId == clientId && d.secret == credentials.secret);
      assert found.Some?;
      assert !(found.value < k) && !(k < found.value);
    }
  }

  // Authorization.

  /** The client is registered with this id and this redirect URI. */
  predicate Registered(c: Client, r: AuthorizeRequest) {
    c.clientId == r.clientId && c.redirectUri == r.redirectUri
  }

  predicate ChallengeGiven(c: Client, r: AuthorizeRequest) {
    c.pkceRequired ==> r.challenge.Some?
  }

  /** A challenge comes with one of the two methods, or with none, which means "plain". */
  predicate MethodSupported(r: AuthorizeRequest) {
    r.challenge.Some? ==> r.challengeMethod.None? || r.challengeMethod.value == "plain" || r.challengeMethod.value == "S256"
  }

  predicate StateGiven(c: Client, r: AuthorizeRequest) {
    c.stateRequired ==> r.state.Some? && r.state.value != ""
  }

  /** The client may get a code by this request. */
  predicate MayAuthorize(c: Client, r: AuthorizeRequest) {
    Registered(c, r) && ChallengeGiven(c, r) && MethodSupported(r) && StateGiven(c, r)
  }

  /** Some registered client may. */
  ghost predicate CanAuthorize(clients: seq<Client>, r: AuthorizeRequest) {
    exists c :: c in clients && MayAuthorize(c, r)
  }

  /** The error of an authorization, by the first condition that fails. */
  ghost predicate AuthorizeFails(clients: seq<Client>, r: AuthorizeRequest, e: Error) {
    match e
    case InvalidClientId => forall c :: c in clients ==> c.clientId != r.clientId
    case MismatchingRedirectUri =>
      (exists c :: c in clients && c.clientId == r.clientId) && forall c :: c in clients ==> !Registered(c, r)
    case MissingCodeChallenge => exists c :: c in clients && Registered(c, r) && !ChallengeGiven(c, r)
    case UnsupportedCodeChallengeMethod =>
      exists c :: c in clients && Registered(c, r) && ChallengeGiven(c, r) && !MethodSupported(r)
    case BadRequest =>
      exists c :: c in clients && Registered(c, r) && ChallengeGiven(c, r) && MethodSupported(r) && !StateGiven(c, r)
    case _ => false
  }

  lemma FindClientIff(clients: seq<Client>, clientId: string, c: Client)
    requires UniqueClients(clients) && c in clients && c.clientId == clientId
    ensures FindClient(clients, clientId) == Some(c)
  {
    var k :| 0 <= k < |clients| && clients[k] == c;
    var found := OneOrNone(clients, (d: Client) => d.clientId == clientId);
    assert found.Some?;
    assert !(found.value < k) && !(k < found.value);
  }

  lemma CheckAuthorizeIs(cfg: Config, r: AuthorizeRequest, c: Client)
    requires UniqueClients(cfg.clients) && c in cfg.clients && c.clientId == r.clientId
    ensures CheckAuthorize(cfg, r)
         == if !Registered(c, r) then Err(MismatchingRedirectUri)
            else if !ChallengeGiven(c, r) then Err(MissingCodeChallenge)
            else if !MethodSupported(r) then Err(UnsupportedCodeChallengeMethod)
            else Ok(c)
  {
    FindClientIff(cfg.clients, r.clientId, c);
    var k :| 0 <= k < |cfg.clients| && cfg.clients[k] == c;
    var found := OneOrNone(cfg.clients, (d: Client) => d.clientId == r.clientId && d.redirectUri == r.redirectUri);
    if found.Some? {
      assert !(found.value < k) && !(k < found.value);
    }
    assert r.challenge.Some? ==> (MethodOf(r).value in METHODS <==> MethodSupported(r));
  }

  /** The client gets a code exactly when one is registered that may; otherwise the error is that of the first condition that
    * fails. */
  lemma AuthorizeIff(cfg: Config, t: Tables, r: AuthorizeRequest, code: string, now: int)
    requires UniqueClients(cfg.clients) && Unique(t)
    ensures var answer := Authorize(cfg, t, r, code, now);
            && (answer.Ok? <==> CanAuthorize(cfg.clients, r))
            && forall e :: answer == Err(e) <==> AuthorizeFails(cfg.clients, r, e)
  {
    var clients := cfg.clients;
    forall c, d | c in clients && d in clients && c.clientId == d.clientId ensures c == d {
      FindClientIff(clients, c.clientId, c);
      FindClientIff(clients, c.clientId, d);
    }
    if c :| c in clients && c.clientId == r.clientId {
      CheckAuthorizeIs(cfg, r, c);
      assert forall d :: d in clients && d.clientId == r.clientId ==> d == c;
    } else {
      assert FindClient(clients, r.clientId) == None;
    }
  }

  lemma AuthorizeOkIff(cfg: Config, t: Tables, r: AuthorizeRequest, code: string, now: int)
    requires UniqueClients(cfg.clients) && Unique(t)
    ensures Authorize(cfg, t, r, code, now).Ok? <==> CanAuthorize(cfg.clients, r)
  {
    AuthorizeIff(cfg, t, r, code, now);
  }

  predicate OfPair(row: CodeRow, client: int, user: int) {
    row.client == client && row.user == user
  }

  /** The row of an issued code: the state, and the challenge when the client needs none, stay those of the row before. */
  ghost predicate IsIssued(codes: seq<CodeRow>, c: Client, r: AuthorizeRequest, code: string, expireAt: int, row: CodeRow) {
    && OfPair(row, c.id, r.user) && row.code == code && row.redirectUri == r.redirectUri && row.expireAt == expireAt
    && (c.pkceRequired ==>
          && row.challenge == r.challenge
          && row.challengeMethod == if r.challenge.Some? && r.challengeMethod.None? then Some("plain") else r.challengeMethod)
    && (forall before :: before in codes && OfPair(before, c.id, r.user) ==>
          && row.state == before.state
          && (!c.pkceRequired ==> row.challenge == before.challenge && row.challengeMethod == before.challengeMethod))
    && ((forall before :: before in codes ==> !OfPair(before, c.id, r.user)) ==>
          row.state == r.state && (!c.pkceRequired ==> row.challenge.None? && row.challengeMethod.None?))
  }

  /** One row was issued for the client and the user, in place of theirs, and no other row changed. */
  ghost predicate Issues(codes: seq<CodeRow>, after: seq<CodeRow>, c: Client, r: AuthorizeRequest, code: string, expireAt: int) {
    && (exists row :: row in after && IsIssued(codes, c, r, code, expireAt, row))
    && (forall row :: row in after && OfPair(row, c.id, r.user) ==> IsIssued(codes, c, r, code, expireAt, row))
    && (forall row :: !OfPair(row, c.id, r.user) ==> (row in after <==> row in codes))
  }

  lemma AuthorizeIssues(cfg: Config, t: Tables, r: AuthorizeRequest, code: string, now: int, c: Client)
    requires UniqueClients(cfg.clients) && Unique(t) && c in cfg.clients && MayAuthorize(c, r)
    ensures var answer := Authorize(cfg, t, r, code, now);
            && answer.Ok? && answer.value.tokens == t.tokens
            && Issues(t.codes, answer.value.codes, c, r, code, now + 60 * cfg.codeMinutes)
  {
    CheckAuthorizeIs(cfg, r, c);
    var codes := t.codes;
    var after := Authorize(cfg, t, r, code, now).value.codes;
    var found := OneOrNone(codes, (row: CodeRow) => row.client == c.id && row.user == r.user);
    var place := if found.Some? then found.value else |codes|;
    assert found.Some? ==> OfPair(codes[place], c.id, r.user);
    forall k | 0 <= k < |codes| && OfPair(codes[k], c.id, r.user) ensures found == Some(k) {
      assert !(found.value < k) && !(k < found.value);
    }
    assert IsIssued(codes, c, r, code, now + 60 * cfg.codeMinutes, after[place]);
    OthersStay(codes, after, place, c.id, r.user);
  }

  lemma OthersStay(codes: seq<CodeRow>, after: seq<CodeRow>, place: nat, client: int, user: int)
    requires place < |after| && |codes| <= |after| <= |codes| + 1 && (|after| > |codes| ==> place == |codes|)
    requires OfPair(after[place], client, user) && (place < |codes| ==> OfPair(codes[place], client, user))
    requires forall k :: 0 <= k < |codes| && k != place ==> after[k] == codes[k] && !OfPair(codes[k], client, user)
    ensures forall row :: row in after && OfPair(row, client, user) ==> row == after[place]
    ensures forall row :: !OfPair(row, client, user) ==> (row in after <==> row in codes)
  {
    forall row | !OfPair(row, client, user) ensures row in after <==> row in codes {
      if row in codes {
        var k :| 0 <= k < |codes| && codes[k] == row;
        assert after[k] == row;
      }
      if row in after {
        var k :| 0 <= k < |after| && after[k] == row;
        assert codes[k] == row;
      }
    }
  }

  /** The answer to an authorization, over the rows before and after: a code for a client that may get one, and otherwise the
    * error of the first condition that fails. */
  ghost predicate AuthorizationAnswered(cfg: Config, t: Tables, after: Tables, r: AuthorizeRequest, code: string, now: int,
                                        error: Option<Error>)
  {
    && (error == None <==> CanAuthorize(cfg.clients, r))
    && (forall e :: error == Some(e) <==> AuthorizeFails(cfg.clients, r, e))
    && after.tokens == t.tokens
    && if error.Some? then after.codes == t.codes
       else forall c :: c in cfg.clients && MayAuthorize(c, r) ==> Issues(t.codes, after.codes, c, r, code, now + 60 * cfg.codeMinutes)
  }

  lemma AuthorizeAnswers(cfg: Config, t: Tables, r: AuthorizeRequest, code: string, now: int)
    requires UniqueClients(cfg.clients) && Unique(t)
    ensures match Authorize(cfg, t, r, code, now)
            case Ok(after) => AuthorizationAnswered(cfg, t, after, r, code, now, None)
            case Err(e) => AuthorizationAnswered(cfg, t, t, r, code, now, Some(e))
  {
    AuthorizeIff(cfg, t, r, code, now);
    forall c | c in cfg.clients && MayAuthorize(c, r)
      ensures var answer := Authorize(cfg, t, r, code, now);
              && answer.Ok? && answer.value.tokens == t.tokens
              && Issues(t.codes, answer.value.codes, c, r, code, now + 60 * cfg.codeMinutes)
    {
      AuthorizeIssues(cfg, t, r, code, now, c);
    }
  }

  // Tokens.

  /** The row is that of the code, for this client, live at both times, with the redirect URI and the state that it needs. */
  predicate FitsRow(c: Client, row: CodeRow, r: TokenRequest, now: int) {
    row.code == r.code && row.client == c.id && row.expireAt > now && (c.stateRequired ==> row.state == r.state)
  }

  /** What is wrong with the verifier of a request. */
  predicate VerifierFails(s256: string -> string, c: Client, row: CodeRow, verifier: Option<string>, e: Error) {
    match e
    case MissingCodeVerifier => verifier.None? && (row.challenge.Some? || c.pkceRequired)
    case ServerError =>
      && row.challenge.Some? && verifier.Some? && row.challengeMethod.Some?
      && row.challengeMethod.value != "plain" && row.challengeMethod.value != "S256"
    case InvalidGrant =>
      && verifier.Some?
      && (if row.challenge.Some? then
            row.challengeMethod.None?
            || (row.challengeMethod.value in ["plain", "S256"]
                && !VerifierFits(s256, row.challengeMethod.value, verifier.value, row.challenge.value))
          else c.pkceRequired)
    case _ => false
  }

  /** A row with a challenge needs a verifier that fits it; a client that needs a challenge needs such a row. */
  predicate VerifierPasses(s256: string -> string, c: Client, row: CodeRow, verifier: Option<string>) {
    if row.challenge.Some? then
      verifier.Some? && row.challengeMethod.Some?
      && VerifierFits(s256, row.challengeMethod.value, verifier.value, row.challenge.value)
    else !c.pkceRequired
  }

  lemma CheckVerifierIff(s256: string -> string, c: Client, row: CodeRow, verifier: Option<string>)
    ensures forall e :: CheckVerifier(s256, c, row, verifier) == Some(e) <==> VerifierFails(s256, c, row, verifier, e)
    ensures CheckVerifier(s256, c, row, verifier).None? <==> VerifierPasses(s256, c, row, verifier)
  {
  }

  /** The client of the request and the row of its code, which meet all conditions. */
  predicate Redeems(cfg: Config, c: Client, row: CodeRow, r: TokenRequest, now: int, later: int) {
    && Identifies(c, r.clientId, r.credentials) && FitsRow(c, row, r, now)
    && VerifierPasses(cfg.s256, c, row, r.verifier)
    && row.redirectUri == r.redirectUri && row.expireAt > later
  }

  ghost predicate NoneIdentified(clients: seq<Client>, clientId: string, credentials: Credentials) {
    forall c :: c in clients ==> !Identifies(c, clientId, credentials)
  }

  ghost predicate NoRowFits(codes: seq<CodeRow>, c: Client, r: TokenRequest, now: int) {
    forall row :: row in codes ==> !FitsRow(c, row, r, now)
  }

  /** The error of a token request, by the first condition that fails. */
  ghost predicate TokenFails(cfg: Config, t: Tables, r: TokenRequest, now: int, later: int, e: Error) {
    || (e == AssertionFailed && OtherUserName(r.clientId, r.credentials))
    || (e == InvalidClient && !OtherUserName(r.clientId, r.credentials) && NoneIdentified(cfg.clients, r.clientId, r.credentials))
    || exists c :: c in cfg.clients && Identifies(c, r.clientId, r.credentials) && CodeFails(cfg, t.codes, c, r, now, later, e)
  }

  ghost predicate CodeFails(cfg: Config, codes: seq<CodeRow>, c: Client, r: TokenRequest, now: int, later: int, e: Error) {
    || (e == InvalidGrant && NoRowFits(codes, c, r, now))
    || exists row :: row in codes && FitsRow(c, row, r, now) && RowFails(cfg, c, row, r, later, e)
  }

  predicate RowFails(cfg: Config, c: Client, row: CodeRow, r: TokenRequest, later: int, e: Error) {
    || VerifierFails(cfg.s256, c, row, r.verifier, e)
    || (e == MismatchingRedirectUri && VerifierPasses(cfg.s256, c, row, r.verifier)
        && (row.redirectUri != r.redirectUri || row.expireAt <= later))
  }

  lemma ValidCodeIff(codes: seq<CodeRow>, c: Client, r: TokenRequest, now: int)
    requires UniqueCodes(codes)
    ensures var found := ValidCode(codes, c, r.code, r.state, now);
            && (found.Some? ==> FitsRow(c, codes[found.value], r, now))
            && (forall row :: row in codes && FitsRow(c, row, r, now) ==> found.Some? && codes[found.value] == row)
  {
    var found := ValidCode(codes, c, r.code, r.state, now);
    forall row | row in codes && FitsRow(c, row, r, now) ensures found.Some? && codes[found.value] == row {
      var k :| 0 <= k < |codes| && codes[k] == row;
      assert found.Some?;
      assert !(found.value < k) && !(k < found.value);
    }
  }

  lemma ConfirmRedirectIff(codes: seq<CodeRow>, c: Client, code: string, redirectUri: string, now: int, row: CodeRow)
    requires UniqueCodes(codes) && row in codes && row.code == code && row.client == c.id
    ensures ConfirmRedirect(codes, c, code, redirectUri, now) <==> row.redirectUri == redirectUri && row.expireAt > now
  {
    var k :| 0 <= k < |codes| && codes[k] == row;
    var found := OneOrNone(codes, (d: CodeRow) => d.code == code && d.client == c.id && d.redirectUri == redirectUri
                                                  && d.expireAt > now);
    if found.Some? {
      assert !(found.value < k) && !(k < found.value);
    }
  }

  lemma CheckTokenIs(cfg: Config, t: Tables, r: TokenRequest, now: int, later: int, c: Client)
    requires UniqueClients(cfg.clients) && Unique(t) && c in cfg.clients && Identifies(c, r.clientId, r.credentials)
    ensures var checked := CheckToken(cfg, t, r, now, later);
            && (forall e :: checked == Err(e) <==> CodeFails(cfg, t.codes, c, r, now, later, e))
            && (checked.Ok? ==> checked.value.0 == c && Redeems(cfg, c, t.codes[checked.value.1], r, now, later))
            && (forall row :: row in t.codes && Redeems(cfg, c, row, r, now, later) ==>
                  checked.Ok? && t.codes[checked.value.1] == row)
  {
    AuthenticateIff(cfg.clients, r.clientId, r.credentials);
    ValidCodeIff(t.codes, c, r, now);
    var found := ValidCode(t.codes, c, r.code, r.state, now);
    if found.Some? {
      var row := t.codes[found.value];
      CheckVerifierIff(cfg.s256, c, row, r.verifier);
      ConfirmRedirectIff(t.codes, c, r.code, r.redirectUri, later, row);
      assert forall d :: d in t.codes && FitsRow(c, d, r, now) ==> d == row;
    }
  }

  /** A token request passes exactly when a client and a row meet all conditions; otherwise the error is that of the first
    * condition that fails. */
  lemma TokenIff(cfg: Config, t: Tables, r: TokenRequest, now: int, later: int)
    requires UniqueClients(cfg.clients) && Unique(t)
    ensures var checked := CheckToken(cfg, t, r, now, later);
            && (checked.Ok? <==> exists c, row :: c in cfg.clients && row in t.codes && Redeems(cfg, c, row, r, now, later))
            && forall e :: checked == Err(e) <==> TokenFails(cfg, t, r, now, later, e)
  {
    AuthenticateIff(cfg.clients, r.clientId, r.credentials);
    var client := Authenticate(cfg.clients, r.clientId, r.credentials);
    if client.Ok? {
      CheckTokenIs(cfg, t, r, now, later, client.value);
      assert forall c :: c in cfg.clients && Identifies(c, r.clientId, r.credentials) ==> c == client.value;
      assert !OtherUserName(r.clientId, r.credentials);
    }
  }

  predicate OfTokenPair(row: TokenRow, client: int, user: int) {
    row.client == client && row.user == user
  }

  /** The tokens of the client and the user are these, and no other row changed. */
  ghost predicate Grants(tokens: seq<TokenRow>, after: seq<TokenRow>, row: TokenRow) {
    row in after
    && forall other :: other != row ==> (other in after <==> other in tokens && !OfTokenPair(other, row.client, row.user))
  }

  lemma SaveTokenGrants(tokens: seq<TokenRow>, row: TokenRow)
    requires UniqueTokens(tokens)
    ensures Grants(tokens, SaveToken(tokens, row), row)
  {
    var after := SaveToken(tokens, row);
    var found := OneOrNone(tokens, (r: TokenRow) => r.client == row.client && r.user == row.user);
    var place := if found.Some? then found.value else |tokens|;
    assert after[place] == row;
    forall other | other != row ensures other in after <==> other in tokens && !OfTokenPair(other, row.client, row.user) {
      if other in tokens && !OfTokenPair(other, row.client, row.user) {
        var k :| 0 <= k < |tokens| && tokens[k] == other;
        assert after[k] == other;
      }
      if other in after {
        var k :| 0 <= k < |after| && after[k] == other;
        assert k != place && tokens[k] == other;
        assert found.Some? ==> !(found.value < k && OfTokenPair(other, row.client, row.user));
      }
    }
  }

  /** The code is gone and the tokens are those of its client and user. */
  ghost predicate Exchanges(cfg: Config, t: Tables, after: Tables, r: TokenRequest, pair: Pair, now: int, later: int) {
    exists c, row :: c in cfg.clients && row in t.codes && Redeems(cfg, c, row, r, now, later)
      && Grants(t.tokens, after.tokens, TokenRow(c.id, row.user, pair.access, pair.refresh, later + cfg.tokenSeconds, r.state))
      && forall other :: other in after.codes <==> other in t.codes && other.code != r.code
  }

  lemma TokenExchanges(cfg: Config, t: Tables, r: TokenRequest, pair: Pair, now: int, later: int)
    requires UniqueClients(cfg.clients) && Unique(t) && CheckToken(cfg, t, r, now, later).Ok?
    ensures Token(cfg, t, r, pair, now, later).Ok?
    ensures Exchanges(cfg, t, Token(cfg, t, r, pair, now, later).value, r, pair, now, later)
  {
    AuthenticateIff(cfg.clients, r.clientId, r.credentials);
    var c := Authenticate(cfg.clients, r.clientId, r.credentials).value;
    CheckTokenIs(cfg, t, r, now, later, c);
    var k := CheckToken(cfg, t, r, now, later).value.1;
    var row := t.codes[k];
    SaveTokenGrants(t.tokens, TokenRow(c.id, row.user, pair.access, pair.refresh, later + cfg.tokenSeconds, r.state));
    RemovedCode(t.codes, k);
  }

  /** The answer to a token request, over the rows before and after. */
  ghost predicate TokenAnswered(cfg: Config, t: Tables, after: Tables, r: TokenRequest, pair: Pair, now: int, later: int,
                                error: Option<Error>)
  {
    && (forall e :: error == Some(e) <==> TokenFails(cfg, t, r, now, later, e))
    && if error.Some? then after == t else Exchanges(cfg, t, after, r, pair, now, later)
  }

  lemma TokenAnswers(cfg: Config, t: Tables, r: TokenRequest, pair: Pair, now: int, later: int)
    requires UniqueClients(cfg.clients) && Unique(t)
    ensures match Token(cfg, t, r, pair, now, later)
            case Ok(after) => TokenAnswered(cfg, t, after, r, pair, now, later, None)
            case Err(e) => TokenAnswered(cfg, t, t, r, pair, now, later, Some(e))
  {
    TokenIff(cfg, t, r, now, later);
    if CheckToken(cfg, t, r, now, later).Ok? {
      TokenExchanges(cfg, t, r, pair, now, later);
    }
  }

  lemma RemovedCode(codes: seq<CodeRow>, k: nat)
    requires UniqueCodes(codes) && k < |codes|
    ensures forall r :: r in codes[..k] + codes[k + 1..] <==> r in codes && r.code != codes[k].code
  {
    var after := codes[..k] + codes[k + 1..];
    forall r | r in codes && r.code != codes[k].code ensures r in after {
      var i :| 0 <= i < |codes| && codes[i] == r;
      assert after[if i < k then i else i - 1] == r;
    }
  }

  // Refreshing.

  predicate Refreshes(c: Client, row: TokenRow, r: RefreshRequest) {
    Identifies(c, r.clientId, r.credentials) && row.refresh == r.refresh && row.client == c.id
  }

  ghost predicate RefreshFails(cfg: Config, t: Tables, r: RefreshRequest, e: Error) {
    || (e == AssertionFailed && OtherUserName(r.clientId, r.credentials))
    || (e == InvalidClient && !OtherUserName(r.clientId, r.credentials) && NoneIdentified(cfg.clients, r.clientId, r.credentials))
    || (e == InvalidGrant && !NoneIdentified(cfg.clients, r.clientId, r.credentials)
        && forall c, row :: c in cfg.clients && row in t.tokens ==> !Refreshes(c, row, r))
  }

  /** The tokens of the row are replaced. */
  ghost predicate Replaces(cfg: Config, t: Tables, after: Tables, r: RefreshRequest, pair: Pair, now: int) {
    after.codes == t.codes
    && exists c, row :: c in cfg.clients && row in t.tokens && Refreshes(c, row, r)
         && Grants(t.tokens, after.tokens, TokenRow(c.id, row.user, pair.access, pair.refresh, now + cfg.tokenSeconds, r.state))
  }

  lemma RefreshUserIff(tokens: seq<TokenRow>, c: Client, refresh: string, row: TokenRow)
    requires UniqueTokens(tokens) && row in tokens && row.refresh == refresh && row.client == c.id
    ensures RefreshUser(tokens, c, refresh) == Some(row.user)
  {
    var k :| 0 <= k < |tokens| && tokens[k] == row;
    var found := OneOrNone(tokens, (d: TokenRow) => d.refresh == refresh && d.client == c.id);
    assert found.Some?;
    assert !(found.value < k) && !(k < found.value);
  }

  lemma RefreshRow(tokens: seq<TokenRow>, c: Client, refresh: string) returns (row: TokenRow)
    requires UniqueTokens(tokens) && RefreshUser(tokens, c, refresh).Some?
    ensures row in tokens && row.refresh == refresh && row.client == c.id && RefreshUser(tokens, c, refresh) == Some(row.user)
  {
    row := tokens[OneOrNone(tokens, (d: TokenRow) => d.refresh == refresh && d.client == c.id).value];
  }

  /** A refresh request succeeds exactly when a client has the id and the secret, and a row of this client the refresh token;
    * the tokens of the row are then replaced. Otherwise the error is that of the first condition that fails. */
  lemma RefreshIff(cfg: Config, t: Tables, r: RefreshRequest, pair: Pair, now: int)
    requires UniqueClients(cfg.clients) && Unique(t)
    ensures var answer := Refresh(cfg, t, r, pair, now);
            && (answer.Ok? <==> exists c, row :: c in cfg.clients && row in t.tokens && Refreshes(c, row, r))
            && (answer.Ok? ==> Replaces(cfg, t, answer.value, r, pair, now))
            && forall e :: answer == Err(e) <==> RefreshFails(cfg, t, r, e)
  {
    AuthenticateIff(cfg.clients, r.clientId, r.credentials);
    var client := Authenticate(cfg.clients, r.clientId, r.credentials);
    if client.Ok? {
      var c := client.value;
      assert forall d :: d in cfg.clients && Identifies(d, r.clientId, r.credentials) ==> d == c;
      forall row | row in t.tokens && Refreshes(c, row, r) ensures RefreshUser(t.tokens, c, r.refresh) == Some(row.user) {
        RefreshUserIff(t.tokens, c, r.refresh, row);
      }
      if RefreshUser(t.tokens, c, r.refresh).Some? {
        var row := RefreshRow(t.tokens, c, r.refresh);
        assert Refreshes(c, row, r);
        SaveTokenGrants(t.tokens, TokenRow(c.id, row.user, pair.access, pair.refresh, now + cfg.tokenSeconds, r.state));
      }
    }
  }
}
