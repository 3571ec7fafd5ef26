/** The authorization-code and refresh-token grants, over the in-memory token store. */
module OAuth {
  import opened Common
  import opened TokenStores

  datatype Result<+T> = Ok(value: T) | Err(code: string)

  // ----- scopes -----

  /** CanonicalScope resolves every deprecated alias. */
  function Canonical(scope: string): string {
    if scope in {"mcp", "read", "content.read", "reader"} then "read"
    else if scope in {"admin", "site.admin", "site_admin", "siteadmin", "system.admin", "system_admin", "systemadmin"} then "admin"
    else if scope in {"write", "content.write"} then "write"
    else scope
  }

  /** ScopeRank; anything unknown ranks with anonymous callers. */
  function Rank(scope: string): nat {
    if scope == "write" then 1 else if scope == "admin" then 2 else 0
  }

  const SCOPES := ["read", "write", "admin"]

  /** normalizeConfiguredScope of a trimmed token; -1 for an unrecognised one. */
  function TokenRank(token: string): int {
    var c := Canonical(token);
    if c == "" || c == "read" then 0 else if c == "write" then 1 else if c == "admin" then 2 else -1
  }

  /** Rank of the highest recognised token, -1 if there is none. */
  function HighestRank(tokens: seq<string>): (r: int)
    ensures -1 <= r <= 2
    ensures forall t <- tokens :: TokenRank(t) <= r
    ensures r >= 0 ==> exists t <- tokens :: TokenRank(t) == r
  {
    if tokens == [] then -1
    else
      var r := HighestRank(tokens[..|tokens|-1]);
      var last := TokenRank(tokens[|tokens|-1]);
      assert tokens == tokens[..|tokens|-1] + [tokens[|tokens|-1]];
      if last > r then last else r
  }

  /** requestedScope: unrecognised tokens are skipped unless all are. */
  function Requested(tokens: seq<string>): Result<string> {
    if tokens == [] then Ok("")
    else if HighestRank(tokens) < 0 then Err("invalid_scope")
    else Ok(SCOPES[HighestRank(tokens)])
  }

  method RequestedScope(tokens: seq<string>) returns (r: Result<string>)
    ensures r == Requested(tokens)
  {
    if |tokens| == 0 {
      return Ok("");
    }
    var highest, highestRank := "", -1;
    for i := 0 to |tokens|
      invariant highestRank == HighestRank(tokens[..i])
      invariant highestRank >= 0 ==> highest == SCOPES[highestRank]
    {
      assert tokens[..i+1][..i] == tokens[..i];
      var rank := TokenRank(tokens[i]);
      if rank < 0 {
        continue;
      }
      if rank > highestRank {
        highest, highestRank := SCOPES[rank], rank;
      }
    }
    assert tokens[..|tokens|] == tokens;
    if highestRank < 0 {
      return Err("invalid_scope");
    }
    return Ok(highest);
  }

  /** highestConfiguredScope over the scopes of a registered client. */
  method HighestConfiguredScope(scopes: seq<string>) returns (highest: string)
    ensures scopes == [] ==> highest == "read"
    ensures scopes != [] ==> highest in scopes || (highest == "read" && "" in scopes)
    ensures forall s <- scopes :: Rank(s) <= Rank(highest)
  {
    if |scopes| == 0 {
      return "read";
    }
    highest := scopes[0];
    var highestRank := Rank(highest);
    for i := 1 to |scopes|
      invariant highest in scopes && highestRank == Rank(highest)
      invariant forall k :: 0 <= k < i ==> Rank(scopes[k]) <= highestRank
    {
      if Rank(scopes[i]) > highestRank {
        highest, highestRank := scopes[i], Rank(scopes[i]);
      }
    }
    if highest == "" {
      return "read";
    }
  }

  // ----- state -----

  /** What the service takes from outside: hashes, redirect matching, lifetimes. */
  datatype Config = Config(hash: string -> string, s256: string -> string,
                           wellFormed: string -> bool, redirectMatches: (string, string) -> bool,
                           dynamicClients: bool, registrable: string -> bool,
                           codeTTL: int, accessTTL: int, refreshTTL: int, requirePKCE: bool)

  datatype Client = Client(redirects: seq<string>, grantTypes: seq<string>, secretHash: string, scope: string, enabled: bool)

  datatype Code = Code(clientID: string, redirectURI: string, scope: string, expiresAt: int, challenge: string)

  datatype Service = Service(clients: map<string, Client>, codes: map<string, Code>, tokens: Tokens)

  datatype Authorize = Authorize(sourceAllowed: bool, responseType: string, clientID: string, redirectURI: string,
                                 state: string, scope: seq<string>, challenge: string, challengeMethod: string)

  datatype Credentials = Credentials(clientID: string, secret: string)

  datatype TokenResponse = TokenResponse(access: string, refresh: string, scope: string)

  function FindClient(clients: map<string, Client>, id: string): Option<Client> {
    if id in clients && clients[id].enabled then Some(clients[id]) else None
  }

  predicate Authenticated(cfg: Config, c: Client, secret: string) {
    c.secretHash == "" || (secret != "" && cfg.hash(secret) == c.secretHash)
  }

  predicate PkceOk(cfg: Config, challenge: string, verifier: string) {
    challenge != "" && verifier != "" && cfg.s256(verifier) == challenge
  }

  // ----- operations on values -----

  /** Clamp the request to the client's maximum. */
  function ResolveScope(clients: map<string, Client>, id: string, tokens: seq<string>): Result<string> {
    match FindClient(clients, id)
    case None => Err("unauthorized_client")
    case Some(c) =>
      match Requested(tokens)
      case Err(_) => Err("invalid_scope")
      case Ok(s) =>
        var scope := if s == "" then c.scope else s;
        Ok(if Rank(scope) <= Rank(c.scope) then scope else c.scope)
  }

  function CheckAuthorize(cfg: Config, svc: Service, a: Authorize): Result<string> {
    if !a.sourceAllowed then Err("access_denied")
    else if a.responseType != "code" then Err("unsupported_response_type")
    else if a.state == "" then Err("invalid_request")
    else if a.challenge == "" && cfg.requirePKCE then Err("invalid_request")
    else if a.challenge != "" && (a.challengeMethod != "S256" || |a.challenge| < 43 || |a.challenge| > 128) then Err("invalid_request")
    else match FindClient(svc.clients, a.clientID)
      case None => Err("unauthorized_client")
      case Some(c) =>
        if !cfg.wellFormed(a.redirectURI) || !(exists r <- c.redirects :: cfg.redirectMatches(r, a.redirectURI)) then Err("invalid_redirect_uri")
        else ResolveScope(svc.clients, a.clientID, a.scope)
  }

  /** `random` is what the random source yields, None when it fails. */
  function IssueCode(cfg: Config, svc: Service, a: Authorize, now: int, random: Option<string>): (Service, Result<string>) {
    match CheckAuthorize(cfg, svc, a)
    case Err(e) => (svc, Err(e))
    case Ok(scope) =>
      if random.None? then (svc, Err("server_error"))
      else
        (svc.(codes := svc.codes[random.value := Code(a.clientID, a.redirectURI, scope, now + cfg.codeTTL, a.challenge)]), Ok(random.value))
  }

  function IssuePair(cfg: Config, t: Tokens, clientID: string, scope: string, now: int, access: Option<string>, refresh: Option<string>)
    : (Tokens, Result<TokenResponse>)
  {
    if access.None? then (t, Err("server_error"))
    else
      var t1 := MemoryStep(t, AddAccess(cfg.hash(access.value), scope, clientID, now + cfg.accessTTL), now).0;
      if refresh.None? then (t1, Err("server_error"))
      else
        (MemoryStep(t1, AddRefresh(cfg.hash(refresh.value), clientID, scope, now + cfg.refreshTTL), now).0,
         Ok(TokenResponse(access.value, refresh.value, scope)))
  }

  /** The code is spent as soon as it is found, whatever is checked afterwards. */
  function ExchangeCode(cfg: Config, svc: Service, who: Credentials, redirectURI: string, code: string, verifier: string,
                        now: int, access: Option<string>, refresh: Option<string>): (Service, Result<TokenResponse>)
  {
    match FindClient(svc.clients, who.clientID)
    case None => (svc, Err("invalid_client"))
    case Some(c) =>
      if !Authenticated(cfg, c, who.secret) then (svc, Err("invalid_client"))
      else if code !in svc.codes then (svc, Err("invalid_grant"))
      else
        var data := svc.codes[code];
        var spent := svc.(codes := svc.codes - {code});
        if data.expiresAt < now then (spent, Err("invalid_grant"))
        else if who.clientID != data.clientID then (spent, Err("invalid_client"))
        else if redirectURI == "" || redirectURI != data.redirectURI then (spent, Err("invalid_grant"))
        else if data.challenge != "" && !PkceOk(cfg, data.challenge, verifier) then (spent, Err("invalid_grant"))
        else
          var (t, r) := IssuePair(cfg, svc.tokens, who.clientID, Canonical(data.scope), now, access, refresh);
          (spent.(tokens := t), r)
  }

  function ExchangeRefreshToken(cfg: Config, svc: Service, who: Credentials, token: string,
                                now: int, access: Option<string>, refresh: Option<string>): (Service, Result<TokenResponse>)
  {
    match FindClient(svc.clients, who.clientID)
    case None => (svc, Err("invalid_client"))
    case Some(c) =>
      if !Authenticated(cfg, c, who.secret) then (svc, Err("invalid_client"))
      else if c.grantTypes != [] && "refresh_token" !in c.grantTypes then (svc, Err("unauthorized_client"))
      else if access.None? || refresh.None? then (svc, Err("server_error"))
      else
        var (t, answer) := MemoryExchange(svc.tokens,
          ExchangeRefresh(cfg.hash(token), who.clientID, cfg.hash(refresh.value), cfg.hash(access.value),
                          now + cfg.accessTTL, now + cfg.refreshTTL), now);
        if answer.scope.None? then (svc, Err("invalid_grant"))
        else (svc.(tokens := t), Ok(TokenResponse(access.value, refresh.value, Canonical(answer.scope.value))))
  }

  function PurgeCodes(svc: Service, now: int): Service {
    svc.(codes := map c | c in svc.codes && svc.codes[c].expiresAt >= now :: svc.codes[c])
  }

  /** Dynamic registration always grants the lowest scope; `random` is the new id. */
  function Register(cfg: Config, svc: Service, redirects: seq<string>, random: Option<string>): (Service, Result<string>) {
    if !cfg.dynamicClients || redirects == [] then (svc, Err("invalid_request"))
    else if exists uri <- redirects :: !cfg.registrable(uri) then (svc, Err("invalid_redirect_uri"))
    else if random.None? then (svc, Err("server_error"))
    else
      (svc.(clients := svc.clients[random.value := Client(redirects, ["authorization_code", "refresh_token"], "", "read", true)]),
       Ok(random.value))
  }

  /** The bearer check: what is stored under the token's hash, unexpired and with a
      principal, its scope canonical. */
  function Bearer(cfg: Config, svc: Service, token: string, now: int): Option<Access> {
    var found := MemoryStep(svc.tokens, AccessDetails(cfg.hash(token)), now).1.details;
    if found.None? || Blank(found.value.principal) then None
    else Some(found.value.(scope := Canonical(found.value.scope)))
  }

  // ----- the service -----

  class OAuthService {
    const cfg: Config
    const store: MemoryStore
    var clients: map<string, Client>
    var codes: map<string, Code>

    ghost function Model(): Service
      reads this, store
    {
      Service(clients, codes, store.Model())
    }

    constructor (cfg: Config, clients: map<string, Client>, store: MemoryStore)
      ensures this.cfg == cfg && this.store == store
      ensures Model() == Service(clients, map[], store.Model())
    {
      this.cfg, this.store, this.clients := cfg, store, clients;
      codes := map[];
    }

    method ResolveClientScope(id: string, tokens: seq<string>) returns (r: Result<string>)
      ensures r == ResolveScope(clients, id, tokens)
    {
      if id !in clients || !clients[id].enabled {
        return Err("unauthorized_client");
      }
      var c := clients[id];
      var requested := RequestedScope(tokens);
      if requested.Err? {
        return Err("invalid_scope");
      }
      var scope := requested.value;
      if scope == "" {
        scope := c.scope;
      }
      if !(Rank(scope) <= Rank(c.scope)) {
        scope := c.scope;
      }
      return Ok(scope);
    }

    method IssueAuthCode(a: Authorize, now: int, random: Option<string>) returns (r: Result<string>)
      modifies this`codes
      ensures (Model(), r) == IssueCode(cfg, old(Model()), a, now, random)
    {
      if !a.sourceAllowed {
        return Err("access_denied");
      }
      if a.responseType != "code" {
        return Err("unsupported_response_type");
      }
      if a.state == "" || (a.challenge == "" && cfg.requirePKCE) {
        return Err("invalid_request");
      }
      if a.challenge != "" && (a.challengeMethod != "S256" || |a.challenge| < 43 || |a.challenge| > 128) {
        return Err("invalid_request");
      }
      if a.clientID !in clients || !clients[a.clientID].enabled {
        return Err("unauthorized_client");
      }
      var registered := clients[a.clientID].redirects;
      if !cfg.wellFormed(a.redirectURI) || !(exists r <- registered :: cfg.redirectMatches(r, a.redirectURI)) {
        return Err("invalid_redirect_uri");
      }
      var scope := ResolveClientScope(a.clientID, a.scope);
      if scope.Err? {
        return scope;
      }
      if random.None? {
        return Err("server_error");
      }
      codes := codes[random.value := Code(a.clientID, a.redirectURI, scope.value, now + cfg.codeTTL, a.challenge)];
      return Ok(random.value);
    }

    method ExchangeAuthorizationCode(who: Credentials, redirectURI: string, code: string, verifier: string,
                                     now: int, access: Option<string>, refresh: Option<string>)
      returns (r: Result<TokenResponse>)
      modifies this`codes, store
      ensures (Model(), r) == ExchangeCode(cfg, old(Model()), who, redirectURI, code, verifier, now, access, refresh)
    {
      if who.clientID !in clients || !clients[who.clientID].enabled {
        return Err("invalid_client");
      }
      if !Authenticated(cfg, clients[who.clientID], who.secret) {
        return Err("invalid_client");
      }
      if code !in codes {
        return Err("invalid_grant");
      }
      var data := codes[code];
      codes := codes - {code};
      if data.expiresAt < now {
        return Err("invalid_grant");
      }
      if who.clientID != data.clientID {
        return Err("invalid_client");
      }
      if redirectURI == "" || redirectURI != data.redirectURI {
        return Err("invalid_grant");
      }
      if data.challenge != "" && !PkceOk(cfg, data.challenge, verifier) {
        return Err("invalid_grant");
      }
      r := IssueBearerPair(who.clientID, Canonical(data.scope), now, access, refresh);
    }

    method IssueBearerPair(clientID: string, scope: string, now: int, access: Option<string>, refresh: Option<string>)
      returns (r: Result<TokenResponse>)
      modifies store
      ensures (store.Model(), r) == IssuePair(cfg, old(store.Model()), clientID, scope, now, access, refresh)
    {
      if access.None? {
        return Err("server_error");
      }
      store.AddAccessToken(cfg.hash(access.value), scope, clientID, now + cfg.accessTTL, now);
      if refresh.None? {
        return Err("server_error");
      }
      store.AddRefreshToken(cfg.hash(refresh.value), clientID, scope, now + cfg.refreshTTL, now);
      return Ok(TokenResponse(access.value, refresh.value, scope));
    }

    method ExchangeRefresh(who: Credentials, token: string, now: int, access: Option<string>, refresh: Option<string>)
      returns (r: Result<TokenResponse>)
      modifies store
      ensures (Model(), r) == ExchangeRefreshToken(cfg, old(Model()), who, token, now, access, refresh)
    {
      if who.clientID !in clients || !clients[who.clientID].enabled {
        return Err("invalid_client");
      }
      var c := clients[who.clientID];
      if !Authenticated(cfg, c, who.secret) {
        return Err("invalid_client");
      }
      if |c.grantTypes| > 0 && "refresh_token" !in c.grantTypes {
        return Err("unauthorized_client");
      }
      if access.None? || refresh.None? {
        return Err("server_error");
      }
      var scope := store.ExchangeRefreshToken(cfg.hash(token), who.clientID, cfg.hash(refresh.value), cfg.hash(access.value),
                                              now + cfg.accessTTL, now + cfg.refreshTTL, now);
      if scope.None? {
        return Err("invalid_grant");
      }
      return Ok(TokenResponse(access.value, refresh.value, Canonical(scope.value)));
    }

    method ValidateBearerInfo(token: string, now: int) returns (info: Option<Access>)
      ensures info == Bearer(cfg, Model(), token, now)
    {
      var details := store.ValidateAccessTokenDetails(cfg.hash(token), now);
      if details.None? || Blank(details.value.principal) {
        return None;
      }
      return Some(Access(details.value.principal, Canonical(details.value.scope), details.value.expiresAt));
    }

    method PurgeExpired(now: int)
      modifies this`codes
      ensures Model() == PurgeCodes(old(Model()), now)
    {
      var left := codes.Keys;
      while left != {}
        invariant left <= old(codes).Keys
        invariant codes == map c | c in old(codes) && (c in left || old(codes)[c].expiresAt >= now) :: old(codes)[c]
      {
        var c :| c in left;
        left := left - {c};
        if codes[c].expiresAt < now {
          codes := codes - {c};
        }
      }
    }

    method RegisterClient(redirects: seq<string>, random: Option<string>) returns (r: Result<string>)
      modifies this`clients
      ensures (Model(), r) == Register(cfg, old(Model()), redirects, random)
    {
      if !cfg.dynamicClients || |redirects| == 0 {
        return Err("invalid_request");
      }
      for i := 0 to |redirects|
        invariant forall k :: 0 <= k < i ==> cfg.registrable(redirects[k])
      {
        if !cfg.registrable(redirects[i]) {
          return Err("invalid_redirect_uri");
        }
      }
      if random.None? {
        return Err("server_error");
      }
      clients := clients[random.value := Client(redirects, ["authorization_code", "refresh_token"], "", "read", true)];
      return Ok(random.value);
    }
  }
}
