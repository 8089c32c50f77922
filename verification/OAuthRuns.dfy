/** Runs of the OAuth2 server: what is known of codes and tokens after any sequence of requests. Clocks go forward, and the
  * generated strings are new. */
module OAuthRuns {
  import opened Wrappers
  import opened OAuthValidator
  import opened OAuthRequests
  import opened OAuthServer

  /** What happened: a code was issued, redeemed, or tokens were granted. */
  datatype Event =
    | Issued(at: int, client: int, user: int, code: string, redirectUri: string, state: Option<string>,
             challenge: Option<string>, challengeMethod: Option<string>)
    | Redeemed(at: int, client: int, user: int, code: string, redirectUri: string, verifier: Option<string>)
    | Granted(at: int, client: int, user: int, access: string, refresh: string)

  type Log = seq<Event>

  datatype Run = Run(tables: Tables, now: int, log: Log)

  /** A token request takes some time. */
  datatype Step =
    | Tick(seconds: nat)
    | AuthorizeStep(authorize: AuthorizeRequest, newCode: string)
    | TokenStep(token: TokenRequest, pair: Pair, pause: nat)
    | RefreshStep(again: RefreshRequest, pair: Pair)

  function Start(now: int): Run {
    Run(Tables([], []), now, [])
  }

  function AfterAuthorize(cfg: Config, s: Run, r: AuthorizeRequest, code: string): Run
    requires UniqueClients(cfg.clients) && Unique(s.tables)
  {
    match Authorize(cfg, s.tables, r, code, s.now)
    case Err(_) => s
    case Ok(after) =>
      var client := CheckAuthorize(cfg, r).value;
      s.(tables := after,
         log := s.log + [Issued(s.now, client.id, r.user, code, r.redirectUri, r.state, r.challenge, MethodOf(r))])
  }

  function AfterToken(cfg: Config, s: Run, r: TokenRequest, pair: Pair, later: int): Run
    requires UniqueClients(cfg.clients) && Unique(s.tables)
  {
    match Token(cfg, s.tables, r, pair, s.now, later)
    case Err(_) => s.(now := later)
    case Ok(after) =>
      var (client, k) := CheckToken(cfg, s.tables, r, s.now, later).value;
      var user := s.tables.codes[k].user;
      Run(after, later, s.log + [Redeemed(later, client.id, user, r.code, r.redirectUri, r.verifier)]
                        + [Granted(later, client.id, user, pair.access, pair.refresh)])
  }

  function AfterRefresh(cfg: Config, s: Run, r: RefreshRequest, pair: Pair): Run
    requires UniqueClients(cfg.clients) && Unique(s.tables)
  {
    match Refresh(cfg, s.tables, r, pair, s.now)
    case Err(_) => s
    case Ok(after) =>
      var (client, user) := CheckRefresh(cfg, s.tables, r).value;
      s.(tables := after, log := s.log + [Granted(s.now, client.id, user, pair.access, pair.refresh)])
  }

  function Next(cfg: Config, s: Run, step: Step): Run
    requires UniqueClients(cfg.clients) && Unique(s.tables)
  {
    match step
    case Tick(seconds) => s.(now := s.now + seconds)
    case AuthorizeStep(r, code) => AfterAuthorize(cfg, s, r, code)
    case TokenStep(r, pair, pause) => AfterToken(cfg, s, r, pair, s.now + pause)
    case RefreshStep(r, pair) => AfterRefresh(cfg, s, r, pair)
  }

  predicate FreshCode(log: Log, code: string) {
    forall i :: 0 <= i < |log| && log[i].Issued? ==> log[i].code != code
  }

  predicate FreshPair(log: Log, pair: Pair) {
    forall i :: 0 <= i < |log| && log[i].Granted? ==> log[i].access != pair.access && log[i].refresh != pair.refresh
  }

  /** The generated strings of a step were not generated before. */
  predicate Fresh(log: Log, step: Step) {
    match step
    case Tick(_) => true
    case AuthorizeStep(_, code) => FreshCode(log, code)
    case TokenStep(_, pair, _) => FreshPair(log, pair)
    case RefreshStep(_, pair) => FreshPair(log, pair)
  }

  // What the log says.

  function LastIssue(log: Log, client: int, user: int): (last: Option<nat>)
    ensures last.Some? ==>
              last.value < |log| && log[last.value].Issued? && log[last.value].client == client && log[last.value].user == user
  {
    if log == [] then None
    else
      var e := log[|log| - 1];
      if e.Issued? && e.client == client && e.user == user then Some(|log| - 1) else LastIssue(log[..|log| - 1], client, user)
  }

  function LastGrant(log: Log, client: int, user: int): (last: Option<nat>)
    ensures last.Some? ==>
              last.value < |log| && log[last.value].Granted? && log[last.value].client == client && log[last.value].user == user
  {
    if log == [] then None
    else
      var e := log[|log| - 1];
      if e.Granted? && e.client == client && e.user == user then Some(|log| - 1) else LastGrant(log[..|log| - 1], client, user)
  }

  /** The state sent with the first code issued to the client for the user since one was redeemed. */
  function StateSince(log: Log, client: int, user: int): Option<Option<string>> {
    if log == [] then None
    else
      var e, before := log[|log| - 1], StateSince(log[..|log| - 1], client, user);
      if e.Issued? && e.client == client && e.user == user then (if before.Some? then before else Some(e.state))
      else if e.Redeemed? && e.client == client && e.user == user then None
      else before
  }

  /** No later event of this kind for the same client and user. */
  lemma {:induction false} LastGrantIsLast(log: Log, i: nat, j: nat)
    requires i < j < |log| && log[i].Granted? && log[j].Granted?
    requires log[i].client == log[j].client && log[i].user == log[j].user
    ensures LastGrant(log, log[i].client, log[i].user) != Some(i)
  {
    if j < |log| - 1 {
      LastGrantIsLast(log[..|log| - 1], i, j);
    }
  }

  lemma {:induction false} LastIssueIsLast(log: Log, i: nat, j: nat)
    requires i < j < |log| && log[i].Issued? && log[j].Issued?
    requires log[i].client == log[j].client && log[i].user == log[j].user
    ensures LastIssue(log, log[i].client, log[i].user) != Some(i)
  {
    if j < |log| - 1 {
      LastIssueIsLast(log[..|log| - 1], i, j);
    }
  }

  predicate RedeemedIn(log: Log, code: string) {
    exists k :: 0 <= k < |log| && log[k].Redeemed? && log[k].code == code
  }

  /** A client that needs a challenge has the one sent when the code was issued; the verifier fits. */
  predicate ChallengeMet(cfg: Config, issue: Event, redemption: Event)
    requires issue.Issued? && redemption.Redeemed?
  {
    forall k :: 0 <= k < |cfg.clients| && cfg.clients[k].id == issue.client && cfg.clients[k].pkceRequired ==>
      && issue.challenge.Some? && issue.challengeMethod.Some? && redemption.verifier.Some?
      && VerifierFits(cfg.s256, issue.challengeMethod.value, redemption.verifier.value, issue.challenge.value)
  }

  /** The code that was redeemed had been issued to this client, for this user and this redirect URI, and had not expired. */
  predicate RedeemsIssue(cfg: Config, log: Log, j: nat, k: nat)
    requires k < |log| && log[k].Redeemed? && j < k
  {
    && log[j].Issued? && log[j].code == log[k].code
    && log[j].client == log[k].client && log[j].user == log[k].user && log[j].redirectUri == log[k].redirectUri
    && log[j].at <= log[k].at < log[j].at + 60 * cfg.codeMinutes
    && ChallengeMet(cfg, log[j], log[k])
  }

  predicate WellRedeemed(cfg: Config, log: Log, k: nat)
    requires k < |log| && log[k].Redeemed?
  {
    exists j :: 0 <= j < k && RedeemsIssue(cfg, log, j, k)
  }

  /** The user had authorized the client. */
  predicate Authorized(log: Log, i: nat)
    requires i < |log| && log[i].Granted?
  {
    exists j :: 0 <= j < i && log[j].Issued? && log[j].client == log[i].client && log[j].user == log[i].user
  }

  /** Codes are issued once and redeemed once, and tokens are granted once. */
  predicate Apart(a: Event, b: Event) {
    && (a.Issued? && b.Issued? ==> a.code != b.code)
    && (a.Redeemed? && b.Redeemed? ==> a.code != b.code)
    && (a.Granted? && b.Granted? ==> a.access != b.access && a.refresh != b.refresh)
  }

  /** What holds of the log of every run. */
  ghost predicate LogOk(cfg: Config, log: Log) {
    && (forall k {:trigger WellRedeemed(cfg, log, k)} :: 0 <= k < |log| && log[k].Redeemed? ==> WellRedeemed(cfg, log, k))
    && (forall i {:trigger Authorized(log, i)} :: 0 <= i < |log| && log[i].Granted? ==> Authorized(log, i))
    && (forall i, j {:trigger Apart(log[i], log[j])} :: 0 <= i < j < |log| ==> Apart(log[i], log[j]))
  }

  // The tables follow the log.

  /** The row of a code is as it was issued. */
  predicate RowOfIssue(cfg: Config, r: CodeRow, e: Event) {
    && e.Issued? && e.client == r.client && e.user == r.user && e.code == r.code && e.redirectUri == r.redirectUri
    && r.expireAt == e.at + 60 * cfg.codeMinutes
    && forall k :: 0 <= k < |cfg.clients| && cfg.clients[k].id == r.client ==>
      if cfg.clients[k].pkceRequired then
        e.challenge.Some? && e.challengeMethod.Some? && r.challenge == e.challenge && r.challengeMethod == e.challengeMethod
      else r.challenge.None?
  }

  predicate HasCode(codes: seq<CodeRow>, client: int, user: int) {
    exists k :: 0 <= k < |codes| && codes[k].client == client && codes[k].user == user
  }

  /** The rows of codes are the last issues of the clients and users that were not redeemed. */
  ghost predicate CodesFollow(cfg: Config, codes: seq<CodeRow>, log: Log) {
    && (forall k {:trigger CodeFollows(cfg, codes[k], log)} :: 0 <= k < |codes| ==> CodeFollows(cfg, codes[k], log))
    && forall client, user {:trigger HasCode(codes, client, user)} :: LastIssue(log, client, user).Some? && !HasCode(codes, client, user)
                              ==> RedeemedIn(log, log[LastIssue(log, client, user).value].code)
  }

  predicate CodeFollows(cfg: Config, r: CodeRow, log: Log) {
    && LastIssue(log, r.client, r.user).Some?
    && RowOfIssue(cfg, r, log[LastIssue(log, r.client, r.user).value])
    && !RedeemedIn(log, r.code)
  }

  /** The rows of codes keep the state of the first issue. */
  ghost predicate StatesFollow(codes: seq<CodeRow>, log: Log) {
    && (forall k {:trigger codes[k]} :: 0 <= k < |codes| ==>
          StateSince(log, codes[k].client, codes[k].user) == Some(codes[k].state))
    && forall client, user {:trigger HasCode(codes, client, user)} :: !HasCode(codes, client, user) ==>
         StateSince(log, client, user) == None
  }

  predicate RowOfGrant(cfg: Config, r: TokenRow, e: Event) {
    && e.Granted? && e.client == r.client && e.user == r.user && e.access == r.access && e.refresh == r.refresh
    && r.expireAt == e.at + cfg.tokenSeconds
  }

  predicate HasToken(tokens: seq<TokenRow>, client: int, user: int) {
    exists k :: 0 <= k < |tokens| && tokens[k].client == client && tokens[k].user == user
  }

  /** The rows of tokens are the last grants of the clients and users. */
  ghost predicate TokensFollow(cfg: Config, tokens: seq<TokenRow>, log: Log) {
    && (forall k {:trigger TokenFollows(cfg, tokens[k], log)} :: 0 <= k < |tokens| ==> TokenFollows(cfg, tokens[k], log))
    && forall client, user {:trigger HasToken(tokens, client, user)} :: LastGrant(log, client, user).Some? ==> HasToken(tokens, client, user)
  }

  predicate TokenFollows(cfg: Config, r: TokenRow, log: Log) {
    && LastGrant(log, r.client, r.user).Some?
    && RowOfGrant(cfg, r, log[LastGrant(log, r.client, r.user).value])
  }

  predicate Past(log: Log, now: int) {
    forall i :: 0 <= i < |log| ==> log[i].at <= now
  }

  ghost predicate Invariant(cfg: Config, s: Run) {
    && UniqueClients(cfg.clients) && Unique(s.tables)
    && LogOk(cfg, s.log) && Past(s.log, s.now)
    && CodesFollow(cfg, s.tables.codes, s.log) && TokensFollow(cfg, s.tables.tokens, s.log)
    && StatesFollow(s.tables.codes, s.log)
  }

  // One more event.

  lemma LogOkMore(cfg: Config, log: Log, e: Event)
    requires LogOk(cfg, log)
    requires e.Issued? ==> FreshCode(log, e.code)
    requires e.Granted? ==> FreshPair(log, Pair(e.access, e.refresh))
    requires e.Redeemed? ==> !RedeemedIn(log, e.code) && WellRedeemed(cfg, log + [e], |log|)
    requires e.Granted? ==> Authorized(log + [e], |log|)
    ensures LogOk(cfg, log + [e])
  {
    var more := log + [e];
    forall k | 0 <= k < |log| && log[k].Redeemed? ensures WellRedeemed(cfg, more, k) {
      assert WellRedeemed(cfg, log, k);
      var j :| 0 <= j < k && RedeemsIssue(cfg, log, j, k);
      assert RedeemsIssue(cfg, more, j, k);
    }
    forall i | 0 <= i < |log| && log[i].Granted? ensures Authorized(more, i) {
      assert Authorized(log, i);
      var j :| 0 <= j < i && log[j].Issued? && log[j].client == log[i].client && log[j].user == log[i].user;
      assert more[j] == log[j];
    }
    forall i, j | 0 <= i < j < |more| ensures Apart(more[i], more[j]) {
      if j < |log| {
        assert Apart(log[i], log[j]);
      } else {
        assert more[i] == log[i] && more[j] == e;
      }
    }
  }

  lemma LastMore(log: Log, e: Event, client: int, user: int)
    ensures LastIssue(log + [e], client, user)
         == if e.Issued? && e.client == client && e.user == user then Some(|log|) else LastIssue(log, client, user)
    ensures LastGrant(log + [e], client, user)
         == if e.Granted? && e.client == client && e.user == user then Some(|log|) else LastGrant(log, client, user)
  {
  }

  lemma StateMore(log: Log, e: Event, client: int, user: int)
    ensures e.Issued? && e.client == client && e.user == user ==>
              StateSince(log + [e], client, user)
              == if StateSince(log, client, user).Some? then StateSince(log, client, user) else Some(e.state)
    ensures e.Redeemed? && e.client == client && e.user == user ==> StateSince(log + [e], client, user) == None
    ensures e.Granted? || e.client != client || e.user != user ==>
              StateSince(log + [e], client, user) == StateSince(log, client, user)
  {
    assert (log + [e])[..|log|] == log;
  }

  lemma RedeemedMore(log: Log, e: Event, code: string)
    ensures RedeemedIn(log + [e], code) <==> RedeemedIn(log, code) || (e.Redeemed? && e.code == code)
  {
    var more := log + [e];
    if RedeemedIn(log, code) {
      var k :| 0 <= k < |log| && log[k].Redeemed? && log[k].code == code;
      assert more[k] == log[k];
    }
    if e.Redeemed? && e.code == code {
      assert more[|log|] == e;
    }
  }

  /** Tokens follow the log when the event is no grant. */
  lemma TokensFollowMore(cfg: Config, tokens: seq<TokenRow>, log: Log, e: Event)
    requires TokensFollow(cfg, tokens, log) && !e.Granted?
    ensures TokensFollow(cfg, tokens, log + [e])
  {
    var more := log + [e];
    forall k | 0 <= k < |tokens| ensures TokenFollows(cfg, tokens[k], more) {
      assert TokenFollows(cfg, tokens[k], log);
      LastMore(log, e, tokens[k].client, tokens[k].user);
    }
    forall client, user | LastGrant(more, client, user).Some? ensures HasToken(tokens, client, user) {
      LastMore(log, e, client, user);
    }
  }

  lemma TokensFollowGrant(cfg: Config, tokens: seq<TokenRow>, log: Log, e: Event, row: TokenRow)
    requires UniqueTokens(tokens) && TokensFollow(cfg, tokens, log) && RowOfGrant(cfg, row, e)
    ensures TokensFollow(cfg, SaveToken(tokens, row), log + [e])
  {
    var after, more := SaveToken(tokens, row), log + [e];
    var found := OneOrNone(tokens, (r: TokenRow) => r.client == row.client && r.user == row.user);
    var place := if found.Some? then found.value else |tokens|;
    assert after[place] == row;
    forall k | 0 <= k < |after| ensures TokenFollows(cfg, after[k], more) {
      LastMore(log, e, after[k].client, after[k].user);
      if k != place {
        assert after[k] == tokens[k] && TokenFollows(cfg, tokens[k], log);
        assert found.Some? ==> !(k < place && tokens[k].client == row.client && tokens[k].user == row.user);
      }
    }
    forall client, user | LastGrant(more, client, user).Some? ensures HasToken(after, client, user) {
      LastMore(log, e, client, user);
      if client != row.client || user != row.user {
        assert HasToken(tokens, client, user);
        var k :| 0 <= k < |tokens| && tokens[k].client == client && tokens[k].user == user;
        assert after[k] == tokens[k];
      }
    }
  }

  /** Codes follow the log when the event is a grant. */
  lemma CodesFollowGrant(cfg: Config, codes: seq<CodeRow>, log: Log, e: Event)
    requires CodesFollow(cfg, codes, log) && e.Granted?
    ensures CodesFollow(cfg, codes, log + [e])
  {
    var more := log + [e];
    forall k | 0 <= k < |codes| ensures CodeFollows(cfg, codes[k], more) {
      assert CodeFollows(cfg, codes[k], log);
      LastMore(log, e, codes[k].client, codes[k].user);
      RedeemedMore(log, e, codes[k].code);
    }
    forall client, user | LastIssue(more, client, user).Some? && !HasCode(codes, client, user)
      ensures RedeemedIn(more, more[LastIssue(more, client, user).value].code)
    {
      LastMore(log, e, client, user);
      RedeemedMore(log, e, log[LastIssue(log, client, user).value].code);
    }
  }

  lemma CodesFollowRedeemed(cfg: Config, codes: seq<CodeRow>, log: Log, e: Event, k: nat)
    requires UniqueCodes(codes) && CodesFollow(cfg, codes, log) && e.Redeemed? && k < |codes| && codes[k].code == e.code
    ensures CodesFollow(cfg, codes[..k] + codes[k + 1..], log + [e])
  {
    var after, more := codes[..k] + codes[k + 1..], log + [e];
    forall i | 0 <= i < |after| ensures CodeFollows(cfg, after[i], more) {
      var old_i := if i < k then i else i + 1;
      assert after[i] == codes[old_i] && CodeFollows(cfg, codes[old_i], log);
      LastMore(log, e, after[i].client, after[i].user);
      RedeemedMore(log, e, after[i].code);
    }
    forall client, user | HasCode(codes, client, user) && !(codes[k].client == client && codes[k].user == user)
      ensures HasCode(after, client, user)
    {
      var i :| 0 <= i < |codes| && codes[i].client == client && codes[i].user == user;
      assert after[if i < k then i else i - 1] == codes[i];
    }
    forall client, user | LastIssue(more, client, user).Some? && !HasCode(after, client, user)
      ensures RedeemedIn(more, more[LastIssue(more, client, user).value].code)
    {
      LastMore(log, e, client, user);
      RedeemedMore(log, e, log[LastIssue(log, client, user).value].code);
      assert CodeFollows(cfg, codes[k], log);
    }
  }

  lemma CodesFollowIssue(cfg: Config, codes: seq<CodeRow>, after: seq<CodeRow>, log: Log, e: Event, place: nat)
    requires UniqueCodes(codes) && CodesFollow(cfg, codes, log) && e.Issued? && !RedeemedIn(log, e.code)
    requires place < |after| && RowOfIssue(cfg, after[place], e)
    requires forall i :: 0 <= i < |after| && i != place ==> i < |codes| && after[i] == codes[i]
                                                            && !(codes[i].client == e.client && codes[i].user == e.user)
    requires |codes| <= |after|
    requires place < |codes| ==> codes[place].client == e.client && codes[place].user == e.user
    ensures CodesFollow(cfg, after, log + [e])
  {
    var more := log + [e];
    forall i | 0 <= i < |after| ensures CodeFollows(cfg, after[i], more) {
      LastMore(log, e, after[i].client, after[i].user);
      RedeemedMore(log, e, after[i].code);
      if i != place {
        assert CodeFollows(cfg, codes[i], log);
      }
    }
    forall client, user | HasCode(codes, client, user) ensures HasCode(after, client, user) {
      var i :| 0 <= i < |codes| && codes[i].client == client && codes[i].user == user;
      assert after[i].client == client && after[i].user == user;
    }
    assert HasCode(after, e.client, e.user);
    forall client, user | LastIssue(more, client, user).Some? && !HasCode(after, client, user)
      ensures RedeemedIn(more, more[LastIssue(more, client, user).value].code)
    {
      LastMore(log, e, client, user);
      RedeemedMore(log, e, log[LastIssue(log, client, user).value].code);
    }
  }

  lemma StatesFollowGrant(codes: seq<CodeRow>, log: Log, e: Event)
    requires StatesFollow(codes, log) && e.Granted?
    ensures StatesFollow(codes, log + [e])
  {
    forall client, user ensures StateSince(log + [e], client, user) == StateSince(log, client, user) {
      StateMore(log, e, client, user);
    }
  }

  lemma StatesFollowRedeemed(codes: seq<CodeRow>, log: Log, e: Event, k: nat)
    requires UniqueCodes(codes) && StatesFollow(codes, log) && e.Redeemed?
    requires k < |codes| && codes[k].client == e.client && codes[k].user == e.user
    ensures StatesFollow(codes[..k] + codes[k + 1..], log + [e])
  {
    var after := codes[..k] + codes[k + 1..];
    forall i | 0 <= i < |after| ensures StateSince(log + [e], after[i].client, after[i].user) == Some(after[i].state) {
      assert after[i] == codes[if i < k then i else i + 1];
      StateMore(log, e, after[i].client, after[i].user);
    }
    forall client, user | HasCode(codes, client, user) && !(client == e.client && user == e.user)
      ensures HasCode(after, client, user)
    {
      var i :| 0 <= i < |codes| && codes[i].client == client && codes[i].user == user;
      assert after[if i < k then i else i - 1] == codes[i];
    }
    forall client, user | !HasCode(after, client, user) ensures StateSince(log + [e], client, user) == None {
      StateMore(log, e, client, user);
    }
  }

  lemma StatesFollowIssue(codes: seq<CodeRow>, after: seq<CodeRow>, log: Log, e: Event, place: nat)
    requires StatesFollow(codes, log) && e.Issued? && |codes| <= |after|
    requires place < |after| && after[place].client == e.client && after[place].user == e.user
    requires forall i :: 0 <= i < |after| && i != place ==> i < |codes| && after[i] == codes[i]
                                                            && !(codes[i].client == e.client && codes[i].user == e.user)
    requires place < |codes| ==> codes[place].client == e.client && codes[place].user == e.user
    requires after[place].state == if place < |codes| then codes[place].state else e.state
    ensures StatesFollow(after, log + [e])
  {
    forall i | 0 <= i < |after| ensures StateSince(log + [e], after[i].client, after[i].user) == Some(after[i].state) {
      StateMore(log, e, after[i].client, after[i].user);
      if i == place && place >= |codes| {
        assert !HasCode(codes, e.client, e.user) by {
          assert forall l :: 0 <= l < |codes| ==> after[l] == codes[l];
        }
      }
    }
    forall client, user | HasCode(codes, client, user) ensures HasCode(after, client, user) {
      var l :| 0 <= l < |codes| && codes[l].client == client && codes[l].user == user;
      assert after[l].client == client && after[l].user == user;
    }
    assert HasCode(after, e.client, e.user);
    forall client, user | !HasCode(after, client, user) ensures StateSince(log + [e], client, user) == None {
      StateMore(log, e, client, user);
    }
  }

  // Every step keeps the invariant.

  lemma CodeIsNew(cfg: Config, codes: seq<CodeRow>, log: Log, code: string)
    requires CodesFollow(cfg, codes, log) && FreshCode(log, code)
    ensures NewCode(codes, code)
  {
    forall k | 0 <= k < |codes| ensures codes[k].code != code {
      assert CodeFollows(cfg, codes[k], log);
    }
  }

  lemma PairIsNew(cfg: Config, tokens: seq<TokenRow>, log: Log, pair: Pair)
    requires TokensFollow(cfg, tokens, log) && FreshPair(log, pair)
    ensures NewPair(tokens, pair)
  {
    forall k | 0 <= k < |tokens| ensures tokens[k].access != pair.access && tokens[k].refresh != pair.refresh {
      assert TokenFollows(cfg, tokens[k], log);
    }
  }

  lemma FreshNotRedeemed(cfg: Config, log: Log, code: string)
    requires LogOk(cfg, log) && FreshCode(log, code)
    ensures !RedeemedIn(log, code)
  {
    forall k | 0 <= k < |log| && log[k].Redeemed? ensures log[k].code != code {
      assert WellRedeemed(cfg, log, k);
      var j :| 0 <= j < k && RedeemsIssue(cfg, log, j, k);
    }
  }

  lemma SameClient(clients: seq<Client>, client: Client, k: nat)
    requires UniqueClients(clients) && client in clients && k < |clients| && clients[k].id == client.id
    ensures clients[k] == client
  {
  }

  /** The saved row, and the others. */
  lemma SavedCode(codes: seq<CodeRow>, client: Client, user: int, grant: Grant, expireAt: int) returns (place: nat)
    requires UniqueCodes(codes) && SaveCode(codes, client, user, grant, expireAt).Some?
    ensures var after := SaveCode(codes, client, user, grant, expireAt).value;
            && place < |after| && |codes| <= |after|
            && (place < |codes| ==> codes[place].client == client.id && codes[place].user == user)
            && (forall i :: 0 <= i < |after| && i != place ==> i < |codes| && after[i] == codes[i]
                                                               && !(codes[i].client == client.id && codes[i].user == user))
            && after[place].client == client.id && after[place].user == user && after[place].code == grant.code
            && after[place].redirectUri == grant.redirectUri && after[place].expireAt == expireAt
            && (if client.pkceRequired then
                  after[place].challenge == grant.challenge && after[place].challengeMethod == grant.challengeMethod
                else after[place].challenge == if place < |codes| then codes[place].challenge else None)
            && after[place].state == if place < |codes| then codes[place].state else grant.state
  {
    var found := OneOrNone(codes, (r: CodeRow) => r.client == client.id && r.user == user);
    place := if found.Some? then found.value else |codes|;
    assert found.Some? ==> forall i :: 0 <= i < |codes| && i != place ==>
      !(codes[i].client == codes[place].client && codes[i].user == codes[place].user);
  }

  lemma NextAuthorize(cfg: Config, s: Run, r: AuthorizeRequest, code: string) returns (codes: seq<CodeRow>)
    requires UniqueClients(cfg.clients) && Unique(s.tables)
    requires Authorize(cfg, s.tables, r, code, s.now).Ok?
    ensures CheckAuthorize(cfg, r).Ok?
    ensures var client := CheckAuthorize(cfg, r).value;
            var grant := Grant(code, r.redirectUri, r.state, r.challenge, MethodOf(r));
            && SaveCode(s.tables.codes, client, r.user, grant, s.now + 60 * cfg.codeMinutes) == Some(codes)
            && (client.pkceRequired ==> grant.challenge.Some? && grant.challengeMethod.Some?)
            && AfterAuthorize(cfg, s, r, code)
               == Run(s.tables.(codes := codes), s.now,
                      s.log + [Issued(s.now, client.id, r.user, code, r.redirectUri, r.state, r.challenge, MethodOf(r))])
  {
    var grant := Grant(code, r.redirectUri, r.state, r.challenge, MethodOf(r));
    codes := SaveCode(s.tables.codes, CheckAuthorize(cfg, r).value, r.user, grant, s.now + 60 * cfg.codeMinutes).value;
  }

  /** The invariant is one of the state only. */
  lemma SameRun(cfg: Config, s: Run, t: Run)
    requires s == t && Invariant(cfg, s)
    ensures Invariant(cfg, t)
  {
  }

  lemma AuthorizeKeeps(cfg: Config, s: Run, r: AuthorizeRequest, code: string)
    requires Invariant(cfg, s) && FreshCode(s.log, code)
    ensures Invariant(cfg, AfterAuthorize(cfg, s, r, code))
  {
    if Authorize(cfg, s.tables, r, code, s.now).Ok? {
      var codes := NextAuthorize(cfg, s, r, code);
      var client := CheckAuthorize(cfg, r).value;
      IssueKeepsAll(cfg, s.tables, s.now, s.log, client, Grant(code, r.redirectUri, r.state, r.challenge, MethodOf(r)), r.user,
                    codes);
      var e := Issued(s.now, client.id, r.user, code, r.redirectUri, r.state, r.challenge, MethodOf(r));
      SameRun(cfg, Run(s.tables.(codes := codes), s.now, s.log + [e]), AfterAuthorize(cfg, s, r, code));
    } else {
      SameRun(cfg, s, AfterAuthorize(cfg, s, r, code));
    }
  }

  lemma IssueKeepsAll(cfg: Config, t: Tables, now: int, log: Log, client: Client, grant: Grant, user: int, after: seq<CodeRow>)
    requires Invariant(cfg, Run(t, now, log)) && client in cfg.clients && FreshCode(log, grant.code)
    requires client.pkceRequired ==> grant.challenge.Some? && grant.challengeMethod.Some?
    requires SaveCode(t.codes, client, user, grant, now + 60 * cfg.codeMinutes) == Some(after)
    ensures Invariant(cfg, Run(t.(codes := after), now,
                               log + [Issued(now, client.id, user, grant.code, grant.redirectUri, grant.state, grant.challenge,
                                             grant.challengeMethod)]))
  {
    var e := Issued(now, client.id, user, grant.code, grant.redirectUri, grant.state, grant.challenge, grant.challengeMethod);
    IssueKeepsCodes(cfg, t.codes, log, client, grant, e, after);
    IssueKeepsStates(t.codes, log, client, grant, e, now + 60 * cfg.codeMinutes, after);
    IssueKeepsRest(cfg, t, now, log, e, after);
  }

  lemma IssueKeepsRest(cfg: Config, t: Tables, now: int, log: Log, e: Event, after: seq<CodeRow>)
    requires Invariant(cfg, Run(t, now, log)) && e.Issued? && e.at == now && FreshCode(log, e.code)
    requires UniqueCodes(after) && CodesFollow(cfg, after, log + [e]) && StatesFollow(after, log + [e])
    ensures Invariant(cfg, Run(t.(codes := after), now, log + [e]))
  {
    LogOkMore(cfg, log, e);
    TokensFollowMore(cfg, t.tokens, log, e);
  }

  lemma IssueKeepsStates(codes: seq<CodeRow>, log: Log, client: Client, grant: Grant, e: Event, expireAt: int,
                         after: seq<CodeRow>)
    requires UniqueCodes(codes) && StatesFollow(codes, log)
    requires e.Issued? && e.client == client.id && e.state == grant.state
    requires SaveCode(codes, client, e.user, grant, expireAt) == Some(after)
    ensures StatesFollow(after, log + [e])
  {
    var place := SavedCode(codes, client, e.user, grant, expireAt);
    StatesFollowIssue(codes, after, log, e, place);
  }

  lemma IssueKeepsCodes(cfg: Config, codes: seq<CodeRow>, log: Log, client: Client, grant: Grant, e: Event, after: seq<CodeRow>)
    requires UniqueClients(cfg.clients) && client in cfg.clients
    requires UniqueCodes(codes) && CodesFollow(cfg, codes, log) && LogOk(cfg, log) && FreshCode(log, grant.code)
    requires e.Issued? && e.client == client.id && e.code == grant.code && e.redirectUri == grant.redirectUri
    requires e.challenge == grant.challenge && e.challengeMethod == grant.challengeMethod
    requires client.pkceRequired ==> grant.challenge.Some? && grant.challengeMethod.Some?
    requires SaveCode(codes, client, e.user, grant, e.at + 60 * cfg.codeMinutes) == Some(after)
    ensures UniqueCodes(after) && CodesFollow(cfg, after, log + [e])
  {
    CodeIsNew(cfg, codes, log, grant.code);
    SaveCodeUnique(codes, client, e.user, grant, e.at + 60 * cfg.codeMinutes);
    FreshNotRedeemed(cfg, log, grant.code);
    IssueKeeps(cfg, codes, log, client, grant, e, after);
  }

  lemma IssueKeeps(cfg: Config, codes: seq<CodeRow>, log: Log, client: Client, grant: Grant, e: Event, after: seq<CodeRow>)
    requires UniqueClients(cfg.clients) && client in cfg.clients && UniqueCodes(codes) && CodesFollow(cfg, codes, log)
    requires e.Issued? && e.client == client.id && e.code == grant.code && e.redirectUri == grant.redirectUri
    requires e.challenge == grant.challenge && e.challengeMethod == grant.challengeMethod
    requires client.pkceRequired ==> grant.challenge.Some? && grant.challengeMethod.Some?
    requires !RedeemedIn(log, e.code) && SaveCode(codes, client, e.user, grant, e.at + 60 * cfg.codeMinutes) == Some(after)
    ensures CodesFollow(cfg, after, log + [e])
  {
    var place := SavedCode(codes, client, e.user, grant, e.at + 60 * cfg.codeMinutes);
    forall k | 0 <= k < |cfg.clients| && cfg.clients[k].id == client.id ensures cfg.clients[k] == client {
      SameClient(cfg.clients, client, k);
    }
    var own :| 0 <= own < |cfg.clients| && cfg.clients[own] == client;
    assert place < |codes| ==> CodeFollows(cfg, codes[place], log);
    assert RowOfIssue(cfg, after[place], e);
    CodesFollowIssue(cfg, codes, after, log, e, place);
  }

  /** What a token request that succeeds has found. */
  lemma TokenFound(cfg: Config, s: Run, r: TokenRequest, later: int)
    requires Invariant(cfg, s) && s.now <= later && CheckToken(cfg, s.tables, r, s.now, later).Ok?
    ensures var (client, k) := CheckToken(cfg, s.tables, r, s.now, later).value;
            var row := s.tables.codes[k];
            && row.client == client.id && row.code == r.code && row.redirectUri == r.redirectUri && later < row.expireAt
            && (client.stateRequired ==> row.state == r.state)
            && Authenticate(cfg.clients, r.clientId, r.credentials) == Ok(client)
            && CheckVerifier(cfg.s256, client, row, r.verifier).None?
  {
  }

  /** A user had authorized a client. */
  predicate HasAuthorized(log: Log, client: int, user: int) {
    exists j :: 0 <= j < |log| && log[j].Issued? && log[j].client == client && log[j].user == user
  }

  function WithoutCode(t: Tables, k: nat): Tables
    requires k < |t.codes|
  {
    t.(codes := t.codes[..k] + t.codes[k + 1..])
  }

  lemma RedemptionKeeps(cfg: Config, s: Run, r: TokenRequest, later: int)
    requires Invariant(cfg, s) && s.now <= later && CheckToken(cfg, s.tables, r, s.now, later).Ok?
    ensures var (client, k) := CheckToken(cfg, s.tables, r, s.now, later).value;
            var user := s.tables.codes[k].user;
            var log := s.log + [Redeemed(later, client.id, user, r.code, r.redirectUri, r.verifier)];
            Invariant(cfg, Run(WithoutCode(s.tables, k), later, log)) && HasAuthorized(log, client.id, user)
  {
    TokenFound(cfg, s, r, later);
    var (client, k) := CheckToken(cfg, s.tables, r, s.now, later).value;
    var row := s.tables.codes[k];
    var e := Redeemed(later, client.id, row.user, r.code, r.redirectUri, r.verifier);
    var more := s.log + [e];
    assert CodeFollows(cfg, row, s.log);
    var j := LastIssue(s.log, row.client, row.user).value;
    assert RedeemsIssue(cfg, more, j, |s.log|) by {
      assert more[j] == s.log[j];
      forall i | 0 <= i < |cfg.clients| && cfg.clients[i].id == client.id ensures cfg.clients[i] == client {
        SameClient(cfg.clients, client, i);
      }
    }
    assert more[j].Issued?;
    LogOkMore(cfg, s.log, e);
    RemoveUnique(s.tables.codes, k);
    CodesFollowRedeemed(cfg, s.tables.codes, s.log, e, k);
    StatesFollowRedeemed(s.tables.codes, s.log, e, k);
    TokensFollowMore(cfg, s.tables.tokens, s.log, e);
  }

  /** A grant to a client that the user has authorized. */
  lemma GrantKeeps(cfg: Config, t: Tables, now: int, log: Log, row: TokenRow)
    requires Invariant(cfg, Run(t, now, log)) && FreshPair(log, Pair(row.access, row.refresh))
    requires row.expireAt == now + cfg.tokenSeconds && HasAuthorized(log, row.client, row.user)
    ensures Invariant(cfg, Run(t.(tokens := SaveToken(t.tokens, row)), now,
                               log + [Granted(now, row.client, row.user, row.access, row.refresh)]))
  {
    var e := Granted(now, row.client, row.user, row.access, row.refresh);
    PairIsNew(cfg, t.tokens, log, Pair(row.access, row.refresh));
    SaveTokenUnique(t.tokens, row);
    assert Authorized(log + [e], |log|) by {
      var j :| 0 <= j < |log| && log[j].Issued? && log[j].client == row.client && log[j].user == row.user;
      assert (log + [e])[j] == log[j];
    }
    LogOkMore(cfg, log, e);
    CodesFollowGrant(cfg, t.codes, log, e);
    StatesFollowGrant(t.codes, log, e);
    TokensFollowGrant(cfg, t.tokens, log, e, row);
  }

  /** The state after a token request that succeeds. */
  function TokenRun(cfg: Config, s: Run, r: TokenRequest, pair: Pair, later: int): Run
    requires UniqueClients(cfg.clients) && Unique(s.tables) && CheckToken(cfg, s.tables, r, s.now, later).Ok?
  {
    var (client, k) := CheckToken(cfg, s.tables, r, s.now, later).value;
    var user := s.tables.codes[k].user;
    var row := TokenRow(client.id, user, pair.access, pair.refresh, later + cfg.tokenSeconds, r.state);
    Run(WithoutCode(s.tables, k).(tokens := SaveToken(s.tables.tokens, row)), later,
        s.log + [Redeemed(later, client.id, user, r.code, r.redirectUri, r.verifier)]
        + [Granted(later, client.id, user, pair.access, pair.refresh)])
  }

  lemma NextToken(cfg: Config, s: Run, r: TokenRequest, pair: Pair, later: int)
    requires UniqueClients(cfg.clients) && Unique(s.tables)
    requires Token(cfg, s.tables, r, pair, s.now, later).Ok?
    ensures CheckToken(cfg, s.tables, r, s.now, later).Ok?
    ensures AfterToken(cfg, s, r, pair, later) == TokenRun(cfg, s, r, pair, later)
  {
  }

  lemma TokenRunKeeps(cfg: Config, s: Run, r: TokenRequest, pair: Pair, later: int)
    requires Invariant(cfg, s) && FreshPair(s.log, pair)
    requires s.now <= later && CheckToken(cfg, s.tables, r, s.now, later).Ok?
    ensures Invariant(cfg, TokenRun(cfg, s, r, pair, later))
  {
    RedemptionKeeps(cfg, s, r, later);
    var (client, k) := CheckToken(cfg, s.tables, r, s.now, later).value;
    var user := s.tables.codes[k].user;
    GrantAfter(cfg, s.log, pair, Redeemed(later, client.id, user, r.code, r.redirectUri, r.verifier),
               WithoutCode(s.tables, k), later,
               TokenRow(client.id, user, pair.access, pair.refresh, later + cfg.tokenSeconds, r.state));
  }

  lemma GrantAfter(cfg: Config, log: Log, pair: Pair, e: Event, t: Tables, later: int, row: TokenRow)
    requires e.Redeemed? && Invariant(cfg, Run(t, later, log + [e])) && FreshPair(log, pair)
    requires row.access == pair.access && row.refresh == pair.refresh && row.expireAt == later + cfg.tokenSeconds
    requires HasAuthorized(log + [e], row.client, row.user)
    ensures Invariant(cfg, Run(t.(tokens := SaveToken(t.tokens, row)), later,
                               log + [e] + [Granted(later, row.client, row.user, row.access, row.refresh)]))
  {
    assert FreshPair(log + [e], pair);
    GrantKeeps(cfg, t, later, log + [e], row);
  }

  lemma RefreshKeeps(cfg: Config, s: Run, r: RefreshRequest, pair: Pair)
    requires Invariant(cfg, s) && FreshPair(s.log, pair)
    ensures Invariant(cfg, AfterRefresh(cfg, s, r, pair))
  {
    if Refresh(cfg, s.tables, r, pair, s.now).Ok? {
      var (client, user) := CheckRefresh(cfg, s.tables, r).value;
      var row := TokenRow(client.id, user, pair.access, pair.refresh, s.now + cfg.tokenSeconds, r.state);
      RefreshedHasAuthorized(cfg, s, client, user, r.refresh);
      GrantKeeps(cfg, s.tables, s.now, s.log, row);
      var e := Granted(s.now, client.id, user, pair.access, pair.refresh);
      SameRun(cfg, Run(s.tables.(tokens := SaveToken(s.tables.tokens, row)), s.now, s.log + [e]), AfterRefresh(cfg, s, r, pair));
    } else {
      SameRun(cfg, s, AfterRefresh(cfg, s, r, pair));
    }
  }

  lemma RefreshedHasAuthorized(cfg: Config, s: Run, client: Client, user: int, refresh: string)
    requires Invariant(cfg, s) && RefreshUser(s.tables.tokens, client, refresh) == Some(user)
    ensures HasAuthorized(s.log, client.id, user)
  {
    var k := OneOrNone(s.tables.tokens, (row: TokenRow) => row.refresh == refresh && row.client == client.id).value;
    assert TokenFollows(cfg, s.tables.tokens[k], s.log);
    var i := LastGrant(s.log, client.id, user).value;
    assert Authorized(s.log, i);
    var j :| 0 <= j < i && s.log[j].Issued? && s.log[j].client == s.log[i].client && s.log[j].user == s.log[i].user;
  }

  lemma LaterKeeps(cfg: Config, s: Run, later: int)
    requires Invariant(cfg, s) && s.now <= later
    ensures Invariant(cfg, s.(now := later))
  {
  }

  lemma TokenKeeps(cfg: Config, s: Run, r: TokenRequest, pair: Pair, later: int)
    requires Invariant(cfg, s) && FreshPair(s.log, pair) && s.now <= later
    ensures Invariant(cfg, AfterToken(cfg, s, r, pair, later))
  {
    if Token(cfg, s.tables, r, pair, s.now, later).Ok? {
      NextToken(cfg, s, r, pair, later);
      TokenRunKeeps(cfg, s, r, pair, later);
    } else {
      LaterKeeps(cfg, s, later);
    }
  }

  lemma TickKeeps(cfg: Config, s: Run, seconds: nat)
    requires Invariant(cfg, s)
    ensures Invariant(cfg, Next(cfg, s, Tick(seconds)))
  {
    LaterKeeps(cfg, s, s.now + seconds);
    SameRun(cfg, s.(now := s.now + seconds), Next(cfg, s, Tick(seconds)));
  }

  lemma AuthorizeStepKeeps(cfg: Config, s: Run, r: AuthorizeRequest, code: string)
    requires Invariant(cfg, s) && FreshCode(s.log, code)
    ensures Invariant(cfg, Next(cfg, s, AuthorizeStep(r, code)))
  {
    AuthorizeKeeps(cfg, s, r, code);
    SameRun(cfg, AfterAuthorize(cfg, s, r, code), Next(cfg, s, AuthorizeStep(r, code)));
  }

  lemma NextIsAfterToken(cfg: Config, s: Run, r: TokenRequest, pair: Pair, pause: nat)
    requires UniqueClients(cfg.clients) && Unique(s.tables)
    ensures Next(cfg, s, TokenStep(r, pair, pause)) == AfterToken(cfg, s, r, pair, s.now + pause)
  {
  }

  lemma TokenStepKeeps(cfg: Config, s: Run, r: TokenRequest, pair: Pair, pause: nat)
    requires Invariant(cfg, s) && FreshPair(s.log, pair)
    ensures Invariant(cfg, Next(cfg, s, TokenStep(r, pair, pause)))
  {
    NextIsAfterToken(cfg, s, r, pair, pause);
    var later := s.now + pause;
    TokenKeeps(cfg, s, r, pair, later);
    SameRun(cfg, AfterToken(cfg, s, r, pair, later), Next(cfg, s, TokenStep(r, pair, pause)));
  }

  lemma RefreshStepKeeps(cfg: Config, s: Run, r: RefreshRequest, pair: Pair)
    requires Invariant(cfg, s) && FreshPair(s.log, pair)
    ensures Invariant(cfg, Next(cfg, s, RefreshStep(r, pair)))
  {
    RefreshKeeps(cfg, s, r, pair);
    SameRun(cfg, AfterRefresh(cfg, s, r, pair), Next(cfg, s, RefreshStep(r, pair)));
  }

  /** Every step keeps the invariant. */
  lemma StepKeeps(cfg: Config, s: Run, step: Step)
    requires Invariant(cfg, s) && Fresh(s.log, step)
    ensures Invariant(cfg, Next(cfg, s, step))
  {
    match step
    case Tick(seconds) => TickKeeps(cfg, s, seconds);
    case AuthorizeStep(r, code) => AuthorizeStepKeeps(cfg, s, r, code);
    case TokenStep(r, pair, pause) => TokenStepKeeps(cfg, s, r, pair, pause);
    case RefreshStep(r, pair) => RefreshStepKeeps(cfg, s, r, pair);
  }

  // Whole runs.

  /** Steps whose generated strings are new each time. */
  ghost predicate Possible(cfg: Config, s: Run, steps: seq<Step>)
    requires Invariant(cfg, s)
    decreases |steps|
  {
    steps == []
    || (Fresh(s.log, steps[0]) && (StepKeeps(cfg, s, steps[0]); Possible(cfg, Next(cfg, s, steps[0]), steps[1..])))
  }

  ghost function After(cfg: Config, s: Run, steps: seq<Step>): (after: Run)
    requires Invariant(cfg, s) && Possible(cfg, s, steps)
    ensures Invariant(cfg, after) && s.log <= after.log
    decreases |steps|
  {
    if steps == [] then s
    else
      StepKeeps(cfg, s, steps[0]);
      After(cfg, Next(cfg, s, steps[0]), steps[1..])
  }

  lemma StartInvariant(cfg: Config, now: int)
    requires UniqueClients(cfg.clients)
    ensures Invariant(cfg, Start(now))
  {
  }

  /** The states of the runs that start with empty tables. */
  ghost predicate Reachable(cfg: Config, s: Run) {
    && UniqueClients(cfg.clients)
    && exists now, steps :: Reaches(cfg, now, steps, s)
  }

  ghost predicate Reaches(cfg: Config, now: int, steps: seq<Step>, s: Run)
    requires UniqueClients(cfg.clients)
  {
    StartInvariant(cfg, now);
    Possible(cfg, Start(now), steps) && s == After(cfg, Start(now), steps)
  }

  lemma ReachableInvariant(cfg: Config, s: Run)
    requires Reachable(cfg, s)
    ensures Invariant(cfg, s)
  {
    var now, steps :| Reaches(cfg, now, steps, s);
    StartInvariant(cfg, now);
  }

  /** In every run, there is at most one row of a code and one of tokens for a client and a user; each code was redeemed at
    * most once, by its client, with its redirect URI, before it expired and, for a client that needs a challenge, with a
    * verifier that fits the challenge sent when this code was issued. */
  lemma CodesAreRedeemedProperly(cfg: Config, s: Run)
    requires Reachable(cfg, s)
    ensures Unique(s.tables)
    ensures forall k :: 0 <= k < |s.log| && s.log[k].Redeemed? ==> WellRedeemed(cfg, s.log, k)
    ensures forall k, l :: 0 <= k < l < |s.log| && s.log[k].Redeemed? && s.log[l].Redeemed? ==> s.log[k].code != s.log[l].code
  {
    ReachableInvariant(cfg, s);
    forall k | 0 <= k < |s.log| && s.log[k].Redeemed? ensures WellRedeemed(cfg, s.log, k) {
    }
    forall k, l | 0 <= k < l < |s.log| && s.log[k].Redeemed? && s.log[l].Redeemed? ensures s.log[k].code != s.log[l].code {
      assert Apart(s.log[k], s.log[l]);
    }
  }

  /** The code was issued to a registered client, to the redirect URI of this client, with the challenge and the state that it
    * requires. */
  ghost predicate ProperIssue(cfg: Config, e: Event)
    requires e.Issued?
  {
    exists c :: c in cfg.clients && c.id == e.client && c.redirectUri == e.redirectUri
      && (c.pkceRequired ==> e.challenge.Some? && (e.challengeMethod == Some("plain") || e.challengeMethod == Some("S256")))
      && (c.stateRequired ==> e.state.Some? && e.state.value != "")
  }

  ghost predicate ProperIssues(cfg: Config, log: Log) {
    forall k :: 0 <= k < |log| && log[k].Issued? ==> ProperIssue(cfg, log[k])
  }

  lemma AuthorizeProper(cfg: Config, s: Run, r: AuthorizeRequest, code: string)
    requires Invariant(cfg, s) && ProperIssues(cfg, s.log)
    ensures ProperIssues(cfg, AfterAuthorize(cfg, s, r, code).log)
  {
    AuthorizeIff(cfg, s.tables, r, code, s.now);
    if Authorize(cfg, s.tables, r, code, s.now).Ok? {
      var c :| c in cfg.clients && MayAuthorize(c, r);
      CheckAuthorizeIs(cfg, r, c);
      var e := Issued(s.now, c.id, r.user, code, r.redirectUri, r.state, r.challenge, MethodOf(r));
      assert ProperIssue(cfg, e);
      assert AfterAuthorize(cfg, s, r, code).log == s.log + [e];
    }
  }

  lemma StepProper(cfg: Config, s: Run, step: Step)
    requires Invariant(cfg, s) && ProperIssues(cfg, s.log)
    ensures ProperIssues(cfg, Next(cfg, s, step).log)
  {
    match step
    case Tick(_) =>
    case AuthorizeStep(r, code) =>
      AuthorizeProper(cfg, s, r, code);
    case TokenStep(_, _, _) =>
    case RefreshStep(_, _) =>
  }

  lemma {:induction false} RunProper(cfg: Config, s: Run, steps: seq<Step>)
    requires Invariant(cfg, s) && Possible(cfg, s, steps) && ProperIssues(cfg, s.log)
    ensures ProperIssues(cfg, After(cfg, s, steps).log)
    decreases |steps|
  {
    if steps != [] {
      StepKeeps(cfg, s, steps[0]);
      StepProper(cfg, s, steps[0]);
      RunProper(cfg, Next(cfg, s, steps[0]), steps[1..]);
    }
  }

  /** In every run, codes are issued to registered clients only, to their own redirect URIs, with the challenges and the states
    * that they require. */
  lemma IssuesAreProper(cfg: Config, s: Run)
    requires Reachable(cfg, s)
    ensures ProperIssues(cfg, s.log)
  {
    var now, steps :| Reaches(cfg, now, steps, s);
    StartInvariant(cfg, now);
    RunProper(cfg, Start(now), steps);
  }

  /** A code that its client can redeem at this time: the last one issued to the client for the user, not redeemed. */
  predicate LiveIssue(cfg: Config, log: Log, j: nat, at: int) {
    && j < |log| && log[j].Issued? && LastIssue(log, log[j].client, log[j].user) == Some(j)
    && !RedeemedIn(log, log[j].code) && at < log[j].at + 60 * cfg.codeMinutes
  }

  /** The request is made by the client of the code, with its redirect URI, a verifier that fits, and the state of the row
    * of the code, if the client requires one. */
  predicate RequestFits(cfg: Config, log: Log, j: nat, r: TokenRequest)
    requires j < |log| && log[j].Issued?
  {
    && log[j].code == r.code && log[j].redirectUri == r.redirectUri
    && exists c :: c in cfg.clients && c.id == log[j].client && ClientFits(cfg, log, j, r, c)
  }

  /** The client has the id and the secret of the request, and what it requires. */
  predicate ClientFits(cfg: Config, log: Log, j: nat, r: TokenRequest, c: Client)
    requires j < |log| && log[j].Issued?
  {
    && Identifies(c, r.clientId, r.credentials)
    && (c.pkceRequired ==>
          && r.verifier.Some? && log[j].challenge.Some? && log[j].challengeMethod.Some?
          && VerifierFits(cfg.s256, log[j].challengeMethod.value, r.verifier.value, log[j].challenge.value))
    && (c.stateRequired ==> StateSince(log, log[j].client, log[j].user) == Some(r.state))
  }

  /** The row of a live issue is in the table. */
  lemma LiveRow(cfg: Config, s: Run, j: nat, at: int) returns (k: nat)
    requires Invariant(cfg, s) && LiveIssue(cfg, s.log, j, at)
    ensures k < |s.tables.codes| && RowOfIssue(cfg, s.tables.codes[k], s.log[j])
  {
    var client, user := s.log[j].client, s.log[j].user;
    assert HasCode(s.tables.codes, client, user);
    k :| 0 <= k < |s.tables.codes| && s.tables.codes[k].client == client && s.tables.codes[k].user == user;
    assert CodeFollows(cfg, s.tables.codes[k], s.log);
  }

  lemma RowIsLive(cfg: Config, s: Run, k: nat, at: int)
    requires Invariant(cfg, s) && k < |s.tables.codes| && at < s.tables.codes[k].expireAt
    ensures var row := s.tables.codes[k];
            var last := LastIssue(s.log, row.client, row.user);
            last.Some? && LiveIssue(cfg, s.log, last.value, at) && RowOfIssue(cfg, row, s.log[last.value])
  {
    assert CodeFollows(cfg, s.tables.codes[k], s.log);
  }

  /** A request that passes the checks of the verifier exactly when it fits. */
  lemma VerifierIff(cfg: Config, client: Client, row: CodeRow, issue: Event, verifier: Option<string>)
    requires UniqueClients(cfg.clients) && client in cfg.clients && RowOfIssue(cfg, row, issue) && row.client == client.id
    ensures CheckVerifier(cfg.s256, client, row, verifier).None?
       <==> (client.pkceRequired ==>
               && verifier.Some? && issue.challenge.Some? && issue.challengeMethod.Some?
               && VerifierFits(cfg.s256, issue.challengeMethod.value, verifier.value, issue.challenge.value))
  {
    var own :| 0 <= own < |cfg.clients| && cfg.clients[own] == client;
  }

  lemma CheckedIsLive(cfg: Config, s: Run, r: TokenRequest, later: int) returns (j: nat)
    requires Invariant(cfg, s) && s.now <= later && CheckToken(cfg, s.tables, r, s.now, later).Ok?
    ensures LiveIssue(cfg, s.log, j, later) && RequestFits(cfg, s.log, j, r)
  {
    var (client, k) := CheckToken(cfg, s.tables, r, s.now, later).value;
    TokenFound(cfg, s, r, later);
    RowIsLive(cfg, s, k, later);
    var row := s.tables.codes[k];
    j := LastIssue(s.log, row.client, row.user).value;
    VerifierIff(cfg, client, row, s.log[j], r.verifier);
  }

  /** The row of a code that fits a request has the state of the request, if the client requires one. */
  lemma LiveIsChecked(cfg: Config, s: Run, r: TokenRequest, later: int, j: nat)
    requires Invariant(cfg, s) && s.now <= later && LiveIssue(cfg, s.log, j, later) && RequestFits(cfg, s.log, j, r)
    ensures CheckToken(cfg, s.tables, r, s.now, later).Ok?
  {
    var client := Authenticate(cfg.clients, r.clientId, r.credentials).value;
    var k := LiveRow(cfg, s, j, later);
    VerifierIff(cfg, client, s.tables.codes[k], s.log[j], r.verifier);
    RowFound(s.tables.codes, client, r, s.now, later, k);
  }

  /** In every run, a client gets tokens for a code exactly when the request fits a live code. */
  lemma TokenRequestIff(cfg: Config, s: Run, r: TokenRequest, pause: nat)
    requires Reachable(cfg, s)
    ensures Unique(s.tables)
    ensures CheckToken(cfg, s.tables, r, s.now, s.now + pause).Ok?
       <==> exists j: nat :: LiveIssue(cfg, s.log, j, s.now + pause) && RequestFits(cfg, s.log, j, r)
  {
    ReachableInvariant(cfg, s);
    if CheckToken(cfg, s.tables, r, s.now, s.now + pause).Ok? {
      var j := CheckedIsLive(cfg, s, r, s.now + pause);
    }
    if j: nat :| LiveIssue(cfg, s.log, j, s.now + pause) && RequestFits(cfg, s.log, j, r) {
      LiveIsChecked(cfg, s, r, s.now + pause, j);
    }
  }

  /** A client that requires a state and asks again for a user before it redeemed the first code gets a code that it cannot
    * redeem with the new state: the row keeps the first one. */
  lemma NewStateIsRefused(cfg: Config, s: Run, r: AuthorizeRequest, code: string, again: TokenRequest, pause: nat)
    requires Reachable(cfg, s) && FreshCode(s.log, code) && CheckAuthorize(cfg, r).Ok?
    requires var client := CheckAuthorize(cfg, r).value;
             && client.stateRequired && StateSince(s.log, client.id, r.user).Some?
             && StateSince(s.log, client.id, r.user).value != r.state
    requires again.clientId == r.clientId && again.code == code && again.state == r.state
    ensures Unique(s.tables)
    ensures var after := Next(cfg, s, AuthorizeStep(r, code));
            Unique(after.tables) && CheckToken(cfg, after.tables, again, after.now, after.now + pause).Err?
  {
    ReachableInvariant(cfg, s);
    AuthorizeKeeps(cfg, s, r, code);
    var after := AfterAuthorize(cfg, s, r, code);
    forall j: nat | LiveIssue(cfg, after.log, j, after.now + pause) ensures !RequestFits(cfg, after.log, j, again) {
      NewStateDoesNotFit(cfg, s, r, code, again, j);
    }
    NothingFits(cfg, after, again, after.now + pause);
  }

  // A client that requires a state.

  function OneClient(s256: string -> string): Config {
    Config([Client(1, "app", "key", "uri", true, false)], 10, 3600, s256)
  }

  /** The user asks for a code with the state "a". */
  function AskedOnce(s256: string -> string): Run {
    Next(OneClient(s256), Start(0), AuthorizeStep(AuthorizeRequest("app", 7, "uri", Some("a"), None, None), "x"))
  }

  /** The user asks again, with the state "b". */
  function AskedTwice(s256: string -> string): Run
    requires Unique(AskedOnce(s256).tables)
  {
    Next(OneClient(s256), AskedOnce(s256), AuthorizeStep(AuthorizeRequest("app", 7, "uri", Some("b"), None, None), "y"))
  }

  lemma FoundFirst<T(!new)>(row: T, select: T -> bool)
    requires select(row)
    ensures OneOrNone([row], select) == Some(0)
  {
    assert select([row][0]);
  }

  lemma OneClientAccepts(s256: string -> string, r: AuthorizeRequest)
    requires r.clientId == "app" && r.redirectUri == "uri" && r.challenge.None?
    ensures CheckAuthorize(OneClient(s256), r) == Ok(OneClient(s256).clients[0])
  {
    var client := OneClient(s256).clients[0];
    FoundFirst(client, (c: Client) => c.clientId == r.clientId);
    FoundFirst(client, (c: Client) => c.clientId == r.clientId && c.redirectUri == r.redirectUri);
  }

  lemma AskedOnceState(s256: string -> string)
    ensures AskedOnce(s256) == Run(Tables([CodeRow(1, 7, "x", "uri", Some("a"), None, None, 600)], []), 0,
                                   [Issued(0, 1, 7, "x", "uri", Some("a"), None, None)])
  {
    OneClientAccepts(s256, AuthorizeRequest("app", 7, "uri", Some("a"), None, None));
  }

  lemma AskedOnceReachable(s256: string -> string)
    ensures Unique(AskedOnce(s256).tables) && Reachable(OneClient(s256), AskedOnce(s256))
  {
    var cfg := OneClient(s256);
    var first := AuthorizeStep(AuthorizeRequest("app", 7, "uri", Some("a"), None, None), "x");
    AskedOnceState(s256);
    StartInvariant(cfg, 0);
    assert Possible(cfg, Start(0), [first]) by {
      StepKeeps(cfg, Start(0), first);
      assert [first][1..] == [];
    }
    assert Reaches(cfg, 0, [first], AskedOnce(s256));
  }

  lemma AskedTwiceState(s256: string -> string)
    ensures Unique(AskedOnce(s256).tables)
    ensures AskedTwice(s256).tables == Tables([CodeRow(1, 7, "y", "uri", Some("a"), None, None, 600)], [])
  {
    AskedOnceState(s256);
    OneClientAccepts(s256, AuthorizeRequest("app", 7, "uri", Some("b"), None, None));
    FoundFirst(AskedOnce(s256).tables.codes[0], (r: CodeRow) => r.client == 1 && r.user == 7);
  }

  /** Then the code can be redeemed with the first state, and not with the second. */
  lemma OldStateOnly(s256: string -> string)
    ensures Unique(AskedOnce(s256).tables) && Unique(AskedTwice(s256).tables)
    ensures var cfg, s := OneClient(s256), AskedTwice(s256);
            && Reachable(cfg, AskedOnce(s256))
            && CheckToken(cfg, s.tables, TokenRequest("app", Body("key"), "y", "uri", Some("b"), None), 0, 0).Err?
            && CheckToken(cfg, s.tables, TokenRequest("app", Body("key"), "y", "uri", Some("a"), None), 0, 0).Ok?
  {
    AskedOnceReachable(s256);
    AskedTwiceState(s256);
    RowChecked(s256, "y", Some("a"), 600, Some("a"));
    RowChecked(s256, "y", Some("a"), 600, Some("b"));
    assert "a"[0] != "b"[0];
  }

  lemma RowChecked(s256: string -> string, code: string, kept: Option<string>, expireAt: int, state: Option<string>)
    requires expireAt > 0
    ensures var t := Tables([CodeRow(1, 7, code, "uri", kept, None, None, expireAt)], []);
            CheckToken(OneClient(s256), t, TokenRequest("app", Body("key"), code, "uri", state, None), 0, 0).Ok? <==> state == kept
  {
    var client, row := OneClient(s256).clients[0], CodeRow(1, 7, code, "uri", kept, None, None, expireAt);
    FoundFirst(client, (c: Client) => c.clientId == "app" && c.secret == "key");
    if state == kept {
      FoundFirst(row, (r: CodeRow) => r.code == code && r.client == client.id && r.expireAt > 0
                                      && (client.stateRequired ==> r.state == state));
      FoundFirst(row, (r: CodeRow) => r.code == code && r.client == client.id && r.redirectUri == "uri" && r.expireAt > 0);
    }
  }

  lemma NothingFits(cfg: Config, s: Run, r: TokenRequest, later: int)
    requires Invariant(cfg, s) && s.now <= later
    requires forall j: nat :: LiveIssue(cfg, s.log, j, later) ==> !RequestFits(cfg, s.log, j, r)
    ensures CheckToken(cfg, s.tables, r, s.now, later).Err?
  {
    if CheckToken(cfg, s.tables, r, s.now, later).Ok? {
      var j := CheckedIsLive(cfg, s, r, later);
    }
  }

  lemma NewStateDoesNotFit(cfg: Config, s: Run, r: AuthorizeRequest, code: string, again: TokenRequest, j: nat)
    requires Invariant(cfg, s) && FreshCode(s.log, code) && CheckAuthorize(cfg, r).Ok?
    requires var client := CheckAuthorize(cfg, r).value;
             && client.stateRequired && StateSince(s.log, client.id, r.user).Some?
             && StateSince(s.log, client.id, r.user).value != r.state
    requires again.clientId == r.clientId && again.code == code && again.state == r.state
    requires var log := AfterAuthorize(cfg, s, r, code).log; j < |log| && log[j].Issued?
    ensures !RequestFits(cfg, AfterAuthorize(cfg, s, r, code).log, j, again)
  {
    var client, log := CheckAuthorize(cfg, r).value, AfterAuthorize(cfg, s, r, code).log;
    if log[j].code == code {
      assert s.log <= log;
      assert j >= |s.log|;
      var codes := NextAuthorize(cfg, s, r, code);
      StateMore(s.log, log[j], client.id, r.user);
      assert StateSince(log, client.id, r.user) == StateSince(s.log, client.id, r.user);
    }
  }

  /** The queries find a row that fits. */
  lemma RowFound(codes: seq<CodeRow>, client: Client, r: TokenRequest, now: int, later: int, k: nat)
    requires UniqueCodes(codes) && k < |codes| && now <= later < codes[k].expireAt
    requires codes[k].code == r.code && codes[k].client == client.id && codes[k].redirectUri == r.redirectUri
    requires client.stateRequired ==> codes[k].state == r.state
    ensures ValidCode(codes, client, r.code, r.state, now) == Some(k)
    ensures ConfirmRedirect(codes, client, r.code, r.redirectUri, later)
  {
    var i := ValidCode(codes, client, r.code, r.state, now);
    assert i.Some?;
    assert !(i.value < k) && !(k < i.value);
  }

  /** Tokens that were granted last to the client for the user. */
  predicate LastGranted(log: Log, i: nat) {
    i < |log| && log[i].Granted? && LastGrant(log, log[i].client, log[i].user) == Some(i)
  }

  /** The row of the last grant is in the table. */
  lemma GrantRow(cfg: Config, s: Run, i: nat) returns (k: nat)
    requires Invariant(cfg, s) && LastGranted(s.log, i)
    ensures k < |s.tables.tokens| && RowOfGrant(cfg, s.tables.tokens[k], s.log[i])
  {
    var client, user := s.log[i].client, s.log[i].user;
    assert HasToken(s.tables.tokens, client, user);
    k :| 0 <= k < |s.tables.tokens| && s.tables.tokens[k].client == client && s.tables.tokens[k].user == user;
    assert TokenFollows(cfg, s.tables.tokens[k], s.log);
  }

  lemma RowIsGranted(cfg: Config, s: Run, k: nat)
    requires Invariant(cfg, s) && k < |s.tables.tokens|
    ensures var row := s.tables.tokens[k];
            var last := LastGrant(s.log, row.client, row.user);
            last.Some? && LastGranted(s.log, last.value) && RowOfGrant(cfg, row, s.log[last.value])
            && Authorized(s.log, last.value) && s.log[last.value].at <= s.now
  {
    assert TokenFollows(cfg, s.tables.tokens[k], s.log);
  }

  /** An access token within its lifetime, granted last to a client that the user had authorized. */
  predicate LiveAccess(cfg: Config, s: Run, i: nat, access: string, user: int) {
    && LastGranted(s.log, i) && s.log[i].access == access && s.log[i].user == user
    && s.log[i].at <= s.now < s.log[i].at + cfg.tokenSeconds && Authorized(s.log, i)
  }

  lemma AcceptedIsLive(cfg: Config, s: Run, access: string, user: int) returns (i: nat)
    requires Invariant(cfg, s) && BearerUser(s.tables.tokens, access, s.now) == Some(user)
    ensures LiveAccess(cfg, s, i, access, user)
  {
    var k := OneOrNone(s.tables.tokens, (r: TokenRow) => r.access == access && r.expireAt > s.now).value;
    RowIsGranted(cfg, s, k);
    i := LastGrant(s.log, s.tables.tokens[k].client, s.tables.tokens[k].user).value;
  }

  lemma LiveIsAccepted(cfg: Config, s: Run, access: string, user: int, i: nat)
    requires Invariant(cfg, s) && LiveAccess(cfg, s, i, access, user)
    ensures BearerUser(s.tables.tokens, access, s.now) == Some(user)
  {
    var k := GrantRow(cfg, s, i);
    var found := OneOrNone(s.tables.tokens, (r: TokenRow) => r.access == access && r.expireAt > s.now);
    assert found.Some?;
    assert !(found.value < k) && !(k < found.value);
  }

  /** In every run, an access token is accepted for a user exactly when it was granted last to its client for this user,
    * within its lifetime; the user had then authorized the client. */
  lemma AccessTokenIff(cfg: Config, s: Run, access: string, user: int)
    requires Reachable(cfg, s)
    ensures Unique(s.tables)
    ensures BearerUser(s.tables.tokens, access, s.now) == Some(user) <==> exists i: nat :: LiveAccess(cfg, s, i, access, user)
  {
    ReachableInvariant(cfg, s);
    if BearerUser(s.tables.tokens, access, s.now) == Some(user) {
      var i := AcceptedIsLive(cfg, s, access, user);
    }
    if i: nat :| LiveAccess(cfg, s, i, access, user) {
      LiveIsAccepted(cfg, s, access, user, i);
    }
  }

  /** A refresh token granted last to a client that the user had authorized. */
  predicate LiveRefresh(s: Run, i: nat, client: Client, refresh: string, user: int) {
    && LastGranted(s.log, i) && s.log[i].refresh == refresh && s.log[i].client == client.id && s.log[i].user == user
    && Authorized(s.log, i)
  }

  lemma RefreshAcceptedIsLive(cfg: Config, s: Run, client: Client, refresh: string, user: int) returns (i: nat)
    requires Invariant(cfg, s) && RefreshUser(s.tables.tokens, client, refresh) == Some(user)
    ensures LiveRefresh(s, i, client, refresh, user)
  {
    var k := OneOrNone(s.tables.tokens, (r: TokenRow) => r.refresh == refresh && r.client == client.id).value;
    RowIsGranted(cfg, s, k);
    i := LastGrant(s.log, s.tables.tokens[k].client, s.tables.tokens[k].user).value;
  }

  lemma LiveRefreshIsAccepted(cfg: Config, s: Run, client: Client, refresh: string, user: int, i: nat)
    requires Invariant(cfg, s) && LiveRefresh(s, i, client, refresh, user)
    ensures RefreshUser(s.tables.tokens, client, refresh) == Some(user)
  {
    var k := GrantRow(cfg, s, i);
    var found := OneOrNone(s.tables.tokens, (r: TokenRow) => r.refresh == refresh && r.client == client.id);
    assert found.Some?;
    assert !(found.value < k) && !(k < found.value);
  }

  /** In every run, a refresh token is accepted for a client and a user exactly when it was granted last to them. */
  lemma RefreshTokenIff(cfg: Config, s: Run, client: Client, refresh: string, user: int)
    requires Reachable(cfg, s)
    ensures Unique(s.tables)
    ensures RefreshUser(s.tables.tokens, client, refresh) == Some(user)
       <==> exists i: nat :: LiveRefresh(s, i, client, refresh, user)
  {
    ReachableInvariant(cfg, s);
    if RefreshUser(s.tables.tokens, client, refresh) == Some(user) {
      var i := RefreshAcceptedIsLive(cfg, s, client, refresh, user);
    }
    if i: nat :| LiveRefresh(s, i, client, refresh, user) {
      LiveRefreshIsAccepted(cfg, s, client, refresh, user, i);
    }
  }

  /** In every run, a refresh request succeeds exactly for a client with its secret that has the refresh token of the last grant
    * to it for some user. */
  lemma RefreshRequestIff(cfg: Config, s: Run, r: RefreshRequest, pair: Pair)
    requires Reachable(cfg, s)
    ensures Unique(s.tables)
    ensures Refresh(cfg, s.tables, r, pair, s.now).Ok?
       <==> exists c, i: nat, user: int ::
              c in cfg.clients && Identifies(c, r.clientId, r.credentials) && LiveRefresh(s, i, c, r.refresh, user)
  {
    ReachableInvariant(cfg, s);
    RefreshIff(cfg, s.tables, r, pair, s.now);
    if Refresh(cfg, s.tables, r, pair, s.now).Ok? {
      var c, row :| c in cfg.clients && row in s.tables.tokens && Refreshes(c, row, r);
      RefreshUserIff(s.tables.tokens, c, r.refresh, row);
      var i := RefreshAcceptedIsLive(cfg, s, c, r.refresh, row.user);
    }
    if c, i: nat, user: int :|
         c in cfg.clients && Identifies(c, r.clientId, r.credentials) && LiveRefresh(s, i, c, r.refresh, user) {
      LiveRefreshIsAccepted(cfg, s, c, r.refresh, user, i);
      var row := RefreshRow(s.tables.tokens, c, r.refresh);
      assert Refreshes(c, row, r);
    }
  }

  /** Tokens that were replaced by a later grant for the same client and user are never accepted again, however the run
    * goes on. */
  lemma ReplacedTokensAreDead(cfg: Config, s: Run, steps: seq<Step>, i: nat, j: nat, client: Client)
    requires Invariant(cfg, s) && Possible(cfg, s, steps)
    requires i < j < |s.log| && s.log[i].Granted? && s.log[j].Granted?
    requires s.log[i].client == s.log[j].client && s.log[i].user == s.log[j].user
    ensures var after := After(cfg, s, steps);
            && BearerUser(after.tables.tokens, s.log[i].access, after.now) == None
            && RefreshUser(after.tables.tokens, client, s.log[i].refresh) == None
  {
    var after := After(cfg, s, steps);
    assert after.log[i] == s.log[i] && after.log[j] == s.log[j];
    LastGrantIsLast(after.log, i, j);
    forall k | 0 <= k < |after.tables.tokens|
      ensures after.tables.tokens[k].access != s.log[i].access && after.tables.tokens[k].refresh != s.log[i].refresh
    {
      RowIsGranted(cfg, after, k);
      var last := LastGrant(after.log, after.tables.tokens[k].client, after.tables.tokens[k].user).value;
      assert last != i;
      assert Apart(after.log[if last < i then last else i], after.log[if last < i then i else last]);
    }
  }
}
