/** The methods of the request validator, which change its tables, and the server that calls them. */
module OAuthServer {
  import opened Wrappers
  import opened OAuthValidator
  import opened OAuthRequests

  /** Generated strings are new: no row has them. */
  predicate NewCode(codes: seq<CodeRow>, code: string) {
    forall k :: 0 <= k < |codes| ==> codes[k].code != code
  }

  predicate NewPair(tokens: seq<TokenRow>, pair: Pair) {
    forall k :: 0 <= k < |tokens| ==> tokens[k].access != pair.access && tokens[k].refresh != pair.refresh
  }

  lemma SaveCodeUnique(codes: seq<CodeRow>, client: Client, user: int, grant: Grant, expireAt: int)
    requires UniqueCodes(codes) && NewCode(codes, grant.code)
    requires SaveCode(codes, client, user, grant, expireAt).Some?
    ensures UniqueCodes(SaveCode(codes, client, user, grant, expireAt).value)
  {
  }

  lemma SaveTokenUnique(tokens: seq<TokenRow>, row: TokenRow)
    requires UniqueTokens(tokens) && NewPair(tokens, Pair(row.access, row.refresh))
    ensures UniqueTokens(SaveToken(tokens, row))
  {
  }

  lemma RemoveUnique(codes: seq<CodeRow>, k: nat)
    requires UniqueCodes(codes) && k < |codes|
    ensures UniqueCodes(codes[..k] + codes[k + 1..])
  {
  }

  /** The client with this row id has this client id: the join with the table of clients. */
  predicate HasClientId(clients: seq<Client>, id: int, clientId: string) {
    exists k :: 0 <= k < |clients| && clients[k].id == id && clients[k].clientId == clientId
  }

  lemma JoinOnClient(clients: seq<Client>, client: Client, id: int)
    requires UniqueClients(clients) && client in clients
    ensures HasClientId(clients, id, client.clientId) <==> id == client.id
  {
  }

  /** The access token of the row is this one and has not expired. */
  predicate AcceptedNow(r: TokenRow, access: string, now: int) {
    r.access == access && r.expireAt > now
  }

  /** The refresh token of the row is this one, for this client. */
  predicate RefreshableBy(r: TokenRow, client: Client, refresh: string) {
    r.refresh == refresh && r.client == client.id
  }

  /** The code of the row is this one, for this client, has not expired, and has the state if the client requires one. */
  predicate RedeemableNow(r: CodeRow, client: Client, code: string, state: Option<string>, now: int) {
    r.code == code && r.client == client.id && r.expireAt > now && (client.stateRequired ==> r.state == state)
  }

  /** The code of the row is this one, for this client, with this redirect URI, and has not expired. */
  predicate Redirects(r: CodeRow, client: Client, code: string, redirectUri: string, now: int) {
    r.code == code && r.client == client.id && r.redirectUri == redirectUri && r.expireAt > now
  }

  predicate IsCode(r: CodeRow, code: string) {
    r.code == code
  }

  /** The row of a code for this client and this user. */
  predicate IsCodeOf(r: CodeRow, client: Client, code: string, user: int) {
    r.code == code && r.client == client.id && r.user == user
  }

  /** The same rows selected in two ways. */
  lemma SameRow<T(!new)>(table: seq<T>, p: T -> bool, q: T -> bool)
    requires AtMostOne(table, p) && forall k :: 0 <= k < |table| ==> p(table[k]) == q(table[k])
    ensures AtMostOne(table, q) && OneOrNone(table, p) == OneOrNone(table, q)
  {
  }

  class RequestValidator {
    const cfg: Config
    var codes: seq<CodeRow>
    var tokens: seq<TokenRow>

    predicate Valid()
      reads this
    {
      UniqueClients(cfg.clients) && UniqueCodes(codes) && UniqueTokens(tokens)
    }

    function Contents(): Tables
      reads this
    {
      Tables(codes, tokens)
    }

    constructor (cfg: Config)
      requires UniqueClients(cfg.clients)
      ensures Valid() && this.cfg == cfg && Contents() == Tables([], [])
    {
      this.cfg := cfg;
      codes, tokens := [], [];
    }

    /** The client on success; a header with another user name makes the program fail. */
    method AuthenticateClientId(clientId: string, credentials: Credentials) returns (client: Result<Client, Error>)
      requires Valid()
      ensures client == Authenticate(cfg.clients, clientId, credentials)
      ensures client.Ok? <==> exists k :: 0 <= k < |cfg.clients| && Identifies(cfg.clients[k], clientId, credentials)
      ensures client.Ok? ==> client.value in cfg.clients && Identifies(client.value, clientId, credentials)
      ensures client == Err(AssertionFailed) <==> credentials.Basic? && credentials.username != clientId
    {
      client := Err(InvalidClient);
      var secret;
      match credentials {
        case Body(s) => secret := s;
        case Basic(username, s) =>
          if username != clientId {
            return Err(AssertionFailed);
          }
          secret := s;
        case NoSecret =>
          return;
      }
      var found := OneOrNone(cfg.clients, (c: Client) => c.clientId == clientId && c.secret == secret);
      if found.Some? {
        client := Ok(cfg.clients[found.value]);
      }
    }

    method SaveAuthorizationCode(client: Client, user: int, grant: Grant, now: int) returns (saved: bool)
      requires Valid() && client in cfg.clients && NewCode(codes, grant.code)
      modifies `codes
      ensures Valid()
      ensures var after := SaveCode(old(codes), client, user, grant, now + 60 * cfg.codeMinutes);
              saved == after.Some? && codes == if saved then after.value else old(codes)
    {
      SaveCodeLemma(client, user, grant, now);
      var found := OneOrNone(codes, (r: CodeRow) => r.client == client.id && r.user == user);
      var row;
      if found.Some? {
        row := codes[found.value].(expireAt := now + 60 * cfg.codeMinutes);
      } else {
        row := CodeRow(client.id, user, "", "", grant.state, None, None, now + 60 * cfg.codeMinutes);
      }
      row := row.(code := grant.code, redirectUri := grant.redirectUri);
      if client.stateRequired && (grant.state.None? || grant.state.value == "") {
        // The error undoes what the request did.
        return false;
      }
      if client.pkceRequired {
        row := row.(challenge := grant.challenge, challengeMethod := grant.challengeMethod);
      }
      codes := if found.Some? then codes[found.value := row] else codes + [row];
      saved := true;
    }

    lemma SaveCodeLemma(client: Client, user: int, grant: Grant, now: int)
      requires Valid() && NewCode(codes, grant.code)
      ensures var after := SaveCode(codes, client, user, grant, now + 60 * cfg.codeMinutes);
              after.Some? ==> UniqueCodes(after.value)
    {
    }

    method SaveBearerToken(client: Client, user: int, pair: Pair, state: Option<string>, now: int)
      requires Valid() && NewPair(tokens, pair)
      modifies `tokens
      ensures Valid()
      ensures tokens
           == SaveToken(old(tokens), TokenRow(client.id, user, pair.access, pair.refresh, now + cfg.tokenSeconds, state))
    {
      SaveTokenUnique(tokens, TokenRow(client.id, user, pair.access, pair.refresh, now + cfg.tokenSeconds, state));
      var found := OneOrNone(tokens, (r: TokenRow) => r.client == client.id && r.user == user);
      var place;
      if found.None? {
        place := |tokens|;
        tokens := tokens + [TokenRow(client.id, user, "", "", 0, None)];
      } else {
        place := found.value;
      }
      tokens := tokens[place := tokens[place].(access := pair.access, refresh := pair.refresh,
                                               expireAt := now + cfg.tokenSeconds, state := state)];
    }

    method ValidateBearerToken(access: string, now: int) returns (user: Option<int>)
      requires Valid()
      ensures user == BearerUser(tokens, access, now)
      ensures user.Some? <==> exists k {:trigger AcceptedNow(tokens[k], access, now)} :: 0 <= k < |tokens| && AcceptedNow(tokens[k], access, now)
      ensures forall k {:trigger AcceptedNow(tokens[k], access, now)} :: 0 <= k < |tokens| && AcceptedNow(tokens[k], access, now)
                ==> user == Some(tokens[k].user)
    {
      var found := OneOrNone(tokens, (r: TokenRow) => r.access == access && r.expireAt > now);
      user := None;
      if found.Some? {
        assert AcceptedNow(tokens[found.value], access, now);
        user := Some(tokens[found.value].user);
      }
    }

    method ValidateCode(client: Client, code: string, state: Option<string>, now: int) returns (row: Option<CodeRow>)
      requires Valid()
      ensures var found := ValidCode(codes, client, code, state, now);
              row == if found.Some? then Some(codes[found.value]) else None
      ensures row.Some? <==>
              exists k {:trigger RedeemableNow(codes[k], client, code, state, now)} ::
                0 <= k < |codes| && RedeemableNow(codes[k], client, code, state, now)
      ensures forall k {:trigger RedeemableNow(codes[k], client, code, state, now)} ::
                0 <= k < |codes| && RedeemableNow(codes[k], client, code, state, now) ==> row == Some(codes[k])
    {
      var found := ValidCode(codes, client, code, state, now);
      row := None;
      if found.Some? {
        assert RedeemableNow(codes[found.value], client, code, state, now);
        row := Some(codes[found.value]);
      }
    }

    method GetCodeChallenge(code: string) returns (challenge: Option<string>, challengeMethod: Option<string>)
      requires Valid()
      ensures var row := CodeWith(codes, code);
              if row.Some? then challenge == row.value.challenge && challengeMethod == row.value.challengeMethod
              else challenge == None && challengeMethod == None
      ensures forall k {:trigger IsCode(codes[k], code)} :: 0 <= k < |codes| && IsCode(codes[k], code) ==>
                challenge == codes[k].challenge && challengeMethod == codes[k].challengeMethod
      ensures (forall k {:trigger IsCode(codes[k], code)} :: 0 <= k < |codes| ==> !IsCode(codes[k], code)) ==>
                challenge == None && challengeMethod == None
    {
      challenge, challengeMethod := None, None;
      var found := OneOrNone(codes, (r: CodeRow) => r.code == code);
      if found.Some? {
        assert IsCode(codes[found.value], code);
        challenge, challengeMethod := codes[found.value].challenge, codes[found.value].challengeMethod;
      }
    }

    method ConfirmRedirectUri(client: Client, code: string, redirectUri: string, now: int) returns (confirmed: bool)
      requires Valid() && client in cfg.clients
      ensures confirmed == ConfirmRedirect(codes, client, code, redirectUri, now)
      ensures confirmed <==>
              exists k {:trigger Redirects(codes[k], client, code, redirectUri, now)} ::
                0 <= k < |codes| && Redirects(codes[k], client, code, redirectUri, now)
    {
      forall r: CodeRow ensures HasClientId(cfg.clients, r.client, client.clientId) <==> r.client == client.id {
        JoinOnClient(cfg.clients, client, r.client);
      }
      SameRow(codes,
              (r: CodeRow) => r.code == code && r.client == client.id && r.redirectUri == redirectUri && r.expireAt > now,
              (r: CodeRow) => r.code == code && HasClientId(cfg.clients, r.client, client.clientId)
                              && r.redirectUri == redirectUri && r.expireAt > now);
      var found := OneOrNone(codes, (r: CodeRow) => r.code == code && HasClientId(cfg.clients, r.client, client.clientId)
                                                    && r.redirectUri == redirectUri && r.expireAt > now);
      assert found.Some? ==> Redirects(codes[found.value], client, code, redirectUri, now);
      confirmed := found.Some?;
    }

    /** Deletes the row of a code. Without a row the query for exactly one fails, and nothing is deleted. */
    method InvalidateAuthorizationCode(client: Client, code: string, user: int) returns (deleted: bool)
      requires Valid() && client in cfg.clients
      modifies `codes
      ensures Valid()
      ensures var found := Redeemable(old(codes), client, code, user);
              && deleted == found.Some?
              && codes == if deleted then old(codes)[..found.value] + old(codes)[found.value + 1..] else old(codes)
      ensures deleted <==>
              exists k {:trigger IsCodeOf(old(codes)[k], client, code, user)} ::
                0 <= k < |old(codes)| && IsCodeOf(old(codes)[k], client, code, user)
      ensures forall r {:trigger IsCodeOf(r, client, code, user)} ::
                r in codes <==> r in old(codes) && !IsCodeOf(r, client, code, user)
    {
      forall r: CodeRow ensures HasClientId(cfg.clients, r.client, client.clientId) <==> r.client == client.id {
        JoinOnClient(cfg.clients, client, r.client);
      }
      SameRow(codes, (r: CodeRow) => r.code == code && r.client == client.id && r.user == user,
              (r: CodeRow) => r.code == code && HasClientId(cfg.clients, r.client, client.clientId) && r.user == user);
      var found := OneOrNone(codes, (r: CodeRow) =>
        r.code == code && HasClientId(cfg.clients, r.client, client.clientId) && r.user == user);
      if found.None? {
        return false;
      }
      assert IsCodeOf(codes[found.value], client, code, user);
      RemoveUnique(codes, found.value);
      RemovedCode(codes, found.value);
      codes := codes[..found.value] + codes[found.value + 1..];
      deleted := true;
    }

    method ValidateRefreshToken(client: Client, refresh: string) returns (user: Option<int>)
      requires Valid()
      ensures user == RefreshUser(tokens, client, refresh)
      ensures user.Some? <==>
              exists k {:trigger RefreshableBy(tokens[k], client, refresh)} ::
                0 <= k < |tokens| && RefreshableBy(tokens[k], client, refresh)
      ensures forall k {:trigger RefreshableBy(tokens[k], client, refresh)} ::
                0 <= k < |tokens| && RefreshableBy(tokens[k], client, refresh) ==> user == Some(tokens[k].user)
    {
      var found := OneOrNone(tokens, (r: TokenRow) => r.refresh == refresh && r.client == client.id);
      user := None;
      if found.Some? {
        assert RefreshableBy(tokens[found.value], client, refresh);
        user := Some(tokens[found.value].user);
      }
    }

    // The server.

    method CreateAuthorizationResponse(r: AuthorizeRequest, code: string, now: int) returns (error: Option<Error>)
      requires Valid() && NewCode(codes, code)
      modifies `codes
      ensures Valid()
      ensures match Authorize(cfg, old(Contents()), r, code, now)
              case Ok(after) => error == None && Contents() == after
              case Err(e) => error == Some(e) && Contents() == old(Contents())
      ensures error == None <==> CanAuthorize(cfg.clients, r)
    {
      AuthorizeOkIff(cfg, Contents(), r, code, now);
      var checked := CheckAuthorize(cfg, r);
      if checked.Err? {
        return Some(checked.error);
      }
      var saved := SaveAuthorizationCode(checked.value, r.user, Grant(code, r.redirectUri, r.state, r.challenge, MethodOf(r)), now);
      error := if saved then None else Some(BadRequest);
    }

    /** The checks of a token request; the client and the row of the code on success. */
    method ValidateTokenRequest(r: TokenRequest, now: int, later: int) returns (checked: Result<(Client, CodeRow), Error>)
      requires Valid()
      ensures match CheckToken(cfg, Contents(), r, now, later)
              case Ok((client, k)) => checked == Ok((client, codes[k]))
              case Err(e) => checked == Err(e)
      ensures checked.Ok? ==> Redeemable(codes, checked.value.0, r.code, checked.value.1.user).Some?
    {
      var client := AuthenticateClientId(r.clientId, r.credentials);
      if client.Err? {
        return Err(client.error);
      }
      var row := ValidateCode(client.value, r.code, r.state, now);
      if row.None? {
        return Err(InvalidGrant);
      }
      ValidCodeIsCodeWith(codes, client.value, r.code, r.state, now);
      var challenge, challengeMethod := GetCodeChallenge(r.code);
      if challenge.Some? {
        if r.verifier.None? {
          return Err(MissingCodeVerifier);
        }
        if challengeMethod.None? {
          return Err(InvalidGrant);
        }
        if challengeMethod.value !in METHODS {
          return Err(ServerError);
        }
        if !Verifies(cfg.s256, challengeMethod.value, r.verifier.value, challenge.value) {
          return Err(InvalidGrant);
        }
      } else if client.value.pkceRequired {
        return Err(if r.verifier.None? then MissingCodeVerifier else InvalidGrant);
      }
      var confirmed := ConfirmRedirectUri(client.value, r.code, r.redirectUri, later);
      if !confirmed {
        return Err(MismatchingRedirectUri);
      }
      checked := Ok((client.value, row.value));
    }

    /** Saves the tokens and deletes the code; its row is there. */
    method CreateTokenResponse(r: TokenRequest, pair: Pair, now: int, later: int) returns (error: Option<Error>)
      requires Valid() && NewPair(tokens, pair)
      modifies `codes, `tokens
      ensures Valid()
      ensures match Token(cfg, old(Contents()), r, pair, now, later)
              case Ok(after) => error == None && Contents() == after
              case Err(e) => error == Some(e) && Contents() == old(Contents())
    {
      var checked := ValidateTokenRequest(r, now, later);
      if checked.Err? {
        return Some(checked.error);
      }
      var (client, row) := checked.value;
      CheckedCode(r, now, later);
      SaveBearerToken(client, row.user, pair, r.state, later);
      var deleted := InvalidateAuthorizationCode(client, r.code, row.user);
      assert deleted;
      error := None;
    }

    /** The row to delete is the one that was checked. */
    lemma CheckedCode(r: TokenRequest, now: int, later: int)
      requires Valid() && CheckToken(cfg, Contents(), r, now, later).Ok?
      ensures var (client, k) := CheckToken(cfg, Contents(), r, now, later).value;
              Redeemable(codes, client, r.code, codes[k].user) == Some(k)
    {
      var (client, k) := CheckToken(cfg, Contents(), r, now, later).value;
      ValidCodeIsCodeWith(codes, client, r.code, r.state, now);
    }

    method CreateRefreshResponse(r: RefreshRequest, pair: Pair, now: int) returns (error: Option<Error>)
      requires Valid() && NewPair(tokens, pair)
      modifies `tokens
      ensures Valid()
      ensures match Refresh(cfg, old(Contents()), r, pair, now)
              case Ok(after) => error == None && Contents() == after
              case Err(e) => error == Some(e) && Contents() == old(Contents())
      ensures forall e :: error == Some(e) <==> RefreshFails(cfg, old(Contents()), r, e)
      ensures error == None ==> Replaces(cfg, old(Contents()), Contents(), r, pair, now)
    {
      RefreshIff(cfg, Contents(), r, pair, now);
      var client := AuthenticateClientId(r.clientId, r.credentials);
      if client.Err? {
        return Some(client.error);
      }
      var user := ValidateRefreshToken(client.value, r.refresh);
      if user.None? {
        return Some(InvalidGrant);
      }
      SaveBearerToken(client.value, user.value, pair, r.state, now);
      error := None;
    }
  }
}
