/** Safety of the grants over every run: random strings are fresh, hashes collision
    free, and requests arrive in any order with any contents. */
module OAuthRuns {
  import opened Common
  import opened TokenStores
  import opened OAuth

  datatype Event =
    | Issue(request: Authorize, now: int, code: Option<string>)
    | Redeem(who: Credentials, redirectURI: string, code_: string, verifier: string, now: int, access: Option<string>, refresh: Option<string>)
    | Renew(who: Credentials, token: string, now: int, access: Option<string>, refresh: Option<string>)
    | ExpireCodes(now: int)
    | ExpireTokens(now: int)
    | NewClient(redirects: seq<string>, id: Option<string>)

  /** The service with what an observer remembers: random strings handed out, codes as
      issued, and the code each stored token goes back to. */
  datatype Log = Log(svc: Service, used: set<string>, issued: map<string, Code>, grantOf: map<string, string>)

  function Randoms(e: Event): set<string> {
    match e
    case Issue(_, _, c) => if c.Some? then {c.value} else {}
    case Redeem(_, _, _, _, _, a, r) => (if a.Some? then {a.value} else {}) + (if r.Some? then {r.value} else {})
    case Renew(_, _, _, a, r) => (if a.Some? then {a.value} else {}) + (if r.Some? then {r.value} else {})
    case _ => {}
  }

  /** Random strings never repeat and never coincide with each other. */
  predicate Fresh(l: Log, e: Event) {
    && Randoms(e) !! l.used
    && (e.Redeem? ==> e.access.Some? && e.refresh.Some? ==> e.access.value != e.refresh.value)
    && (e.Renew? ==> e.access.Some? && e.refresh.Some? ==> e.access.value != e.refresh.value)
    && (e.NewClient? && e.id.Some? ==> e.id.value !in l.svc.clients)
  }

  function Tag(cfg: Config, grantOf: map<string, string>, random: Option<string>, grant: string): map<string, string> {
    if random.Some? then grantOf[cfg.hash(random.value) := grant] else grantOf
  }

  function Step(cfg: Config, l: Log, e: Event): (Log, Result<TokenResponse>) {
    var used := l.used + Randoms(e);
    match e
    case Issue(request, now, code) =>
      var (svc, r) := IssueCode(cfg, l.svc, request, now, code);
      (Log(svc, used, if r.Ok? then l.issued[r.value := svc.codes[r.value]] else l.issued, l.grantOf), Err(""))
    case Redeem(who, uri, code, verifier, now, access, refresh) =>
      var (svc, r) := ExchangeCode(cfg, l.svc, who, uri, code, verifier, now, access, refresh);
      (Log(svc, used, l.issued, Tag(cfg, Tag(cfg, l.grantOf, access, code), refresh, code)), r)
    case Renew(who, token, now, access, refresh) =>
      var (svc, r) := ExchangeRefreshToken(cfg, l.svc, who, token, now, access, refresh);
      var grant := if cfg.hash(token) in l.grantOf then l.grantOf[cfg.hash(token)] else "";
      (Log(svc, used, l.issued, Tag(cfg, Tag(cfg, l.grantOf, access, grant), refresh, grant)), r)
    case ExpireCodes(now) => (l.(svc := PurgeCodes(l.svc, now)), Err(""))
    case ExpireTokens(now) => (l.(svc := l.svc.(tokens := MemoryStep(l.svc.tokens, Purge, now).0)), Err(""))
    case NewClient(redirects, id) => (l.(svc := Register(cfg, l.svc, redirects, id).0), Err(""))
  }

  ghost predicate FreshRun(cfg: Config, l: Log, es: seq<Event>)
    decreases |es|
  {
    es == [] || (Fresh(l, es[0]) && FreshRun(cfg, Step(cfg, l, es[0]).0, es[1..]))
  }

  function Run(cfg: Config, l: Log, es: seq<Event>): Log
    decreases |es|
  {
    if es == [] then l else Run(cfg, Step(cfg, l, es[0]).0, es[1..])
  }

  ghost predicate CollisionFree(cfg: Config) {
    forall x, y :: cfg.hash(x) == cfg.hash(y) ==> x == y
  }

  // ----- the invariant -----

  /** Within the maximum of a registered client, as granted and as reported. */
  predicate Within(clients: map<string, Client>, id: string, scope: string) {
    id in clients && Rank(scope) <= Rank(clients[id].scope) && Rank(Canonical(scope)) <= Rank(clients[id].scope)
  }

  ghost predicate CodesOk(l: Log) {
    && l.svc.codes.Keys <= l.issued.Keys <= l.used
    && (forall c <- l.svc.codes :: l.svc.codes[c] == l.issued[c])
    && (forall c <- l.issued :: Within(l.svc.clients, l.issued[c].clientID, l.issued[c].scope))
  }

  function Hashes(cfg: Config, used: set<string>): set<string> {
    set u <- used :: cfg.hash(u)
  }

  /** A stored token hashes a random string, goes back to a code that is spent, and
      carries that code's client and scope. */
  ghost predicate TokenOk(cfg: Config, l: Log, h: string, client: string, scope: string) {
    && h in Hashes(cfg, l.used)
    && h in l.grantOf && l.grantOf[h] in l.issued && l.grantOf[h] !in l.svc.codes
    && client == l.issued[l.grantOf[h]].clientID && scope == Canonical(l.issued[l.grantOf[h]].scope)
    && Within(l.svc.clients, client, scope)
  }

  ghost predicate TokensOk(cfg: Config, l: Log) {
    && (forall h <- l.svc.tokens.access :: TokenOk(cfg, l, h, l.svc.tokens.access[h].principal, l.svc.tokens.access[h].scope))
    && (forall h <- l.svc.tokens.refresh :: TokenOk(cfg, l, h, l.svc.tokens.refresh[h].clientID, l.svc.tokens.refresh[h].scope))
  }

  /** At most one live refresh token per grant. */
  ghost predicate OneRefresh(l: Log) {
    forall h <- l.svc.tokens.refresh, k <- l.svc.tokens.refresh ::
      h in l.grantOf && k in l.grantOf && l.grantOf[h] == l.grantOf[k] ==> h == k
  }

  /** Registration stores canonical scopes only. */
  predicate ClientsOk(clients: map<string, Client>) {
    forall id <- clients :: clients[id].scope in {"read", "write", "admin"}
  }

  ghost predicate Inv(cfg: Config, l: Log) {
    ClientsOk(l.svc.clients) && CodesOk(l) && TokensOk(cfg, l) && OneRefresh(l)
  }

  /** Tokens survive any step that keeps the code spent and the log growing. */
  lemma TokenFrame(cfg: Config, l: Log, l': Log, h: string, client: string, scope: string)
    requires TokenOk(cfg, l, h, client, scope)
    requires l.used <= l'.used
    requires forall c <- l.issued :: c in l'.issued && l'.issued[c] == l.issued[c]
    requires h in l'.grantOf && l'.grantOf[h] == l.grantOf[h]
    requires l.grantOf[h] !in l'.svc.codes
    requires forall id <- l.svc.clients :: id in l'.svc.clients && l'.svc.clients[id].scope == l.svc.clients[id].scope
    ensures TokenOk(cfg, l', h, client, scope)
  {
  }

  lemma ResolveIsClamped(clients: map<string, Client>, id: string, tokens: seq<string>)
    requires ClientsOk(clients)
    ensures var r := ResolveScope(clients, id, tokens);
      && (r.Ok? ==> Within(clients, id, r.value) && r.value in {"read", "write", "admin"})
      && (r.Ok? && tokens != [] ==> Rank(r.value) == if HighestRank(tokens) <= Rank(clients[id].scope) then HighestRank(tokens) else Rank(clients[id].scope))
      && (r.Ok? && tokens == [] ==> r.value == clients[id].scope)
  {
    if FindClient(clients, id).Some? && Requested(tokens).Ok? {
      assert clients[id].scope in {"read", "write", "admin"};
      assert Requested(tokens).value in {"", "read", "write", "admin"};
    }
  }

  lemma IssueEffect(cfg: Config, svc: Service, a: Authorize, now: int, random: Option<string>)
    requires ClientsOk(svc.clients)
    ensures var (svc', r) := IssueCode(cfg, svc, a, now, random);
      && (r.Err? ==> svc' == svc)
      && (r.Ok? ==> random == Some(r.value) && exists code ::
            && svc' == svc.(codes := svc.codes[r.value := code])
            && Within(svc.clients, code.clientID, code.scope)
            && code == Code(a.clientID, a.redirectURI, code.scope, now + cfg.codeTTL, a.challenge))
  {
    ResolveIsClamped(svc.clients, a.clientID, a.scope);
    var (svc', r) := IssueCode(cfg, svc, a, now, random);
    if r.Ok? {
      var code := svc'.codes[r.value];
      assert svc' == svc.(codes := svc.codes[r.value := code]);
    }
  }

  /** A new code touches neither tokens nor other codes. */
  lemma AddCode(cfg: Config, l: Log, x: string, code: Code, used: set<string>)
    requires Inv(cfg, l) && x !in l.used && used == l.used + {x}
    requires Within(l.svc.clients, code.clientID, code.scope)
    ensures Inv(cfg, Log(l.svc.(codes := l.svc.codes[x := code]), used, l.issued[x := code], l.grantOf))
  {
    var l' := Log(l.svc.(codes := l.svc.codes[x := code]), used, l.issued[x := code], l.grantOf);
    KeepTokens(cfg, l, l');
  }

  /** Steps that do not touch the token maps keep every stored token sound. */
  lemma KeepTokens(cfg: Config, l: Log, l': Log)
    requires TokensOk(cfg, l) && OneRefresh(l) && l'.svc.tokens == l.svc.tokens && l'.grantOf == l.grantOf
    requires l.used <= l'.used
    requires forall c <- l.issued :: c in l'.issued && l'.issued[c] == l.issued[c]
    requires forall c <- l.issued :: c in l'.svc.codes ==> c in l.svc.codes
    requires forall id <- l.svc.clients :: id in l'.svc.clients && l'.svc.clients[id].scope == l.svc.clients[id].scope
    ensures TokensOk(cfg, l') && OneRefresh(l')
  {
    forall h <- l.svc.tokens.access
      ensures TokenOk(cfg, l', h, l.svc.tokens.access[h].principal, l.svc.tokens.access[h].scope)
    {
      TokenFrame(cfg, l, l', h, l.svc.tokens.access[h].principal, l.svc.tokens.access[h].scope);
    }
    forall h <- l.svc.tokens.refresh
      ensures TokenOk(cfg, l', h, l.svc.tokens.refresh[h].clientID, l.svc.tokens.refresh[h].scope)
    {
      TokenFrame(cfg, l, l', h, l.svc.tokens.refresh[h].clientID, l.svc.tokens.refresh[h].scope);
    }
  }

  lemma IssueKeeps(cfg: Config, l: Log, e: Event)
    requires Inv(cfg, l) && Fresh(l, e) && e.Issue?
    ensures Inv(cfg, Step(cfg, l, e).0)
  {
    IssueEffect(cfg, l.svc, e.request, e.now, e.code);
    var (svc, r) := IssueCode(cfg, l.svc, e.request, e.now, e.code);
    if r.Ok? {
      AddCode(cfg, l, r.value, svc.codes[r.value], l.used + {r.value});
    } else {
      KeepTokens(cfg, l, Step(cfg, l, e).0);
    }
  }

  // ----- redeeming -----

  /** A registered and enabled client, which presents its secret if it has one. */
  predicate Authentic(cfg: Config, svc: Service, who: Credentials) {
    && who.clientID in svc.clients && svc.clients[who.clientID].enabled
    && (svc.clients[who.clientID].secretHash == ""
        || (who.secret != "" && cfg.hash(who.secret) == svc.clients[who.clientID].secretHash))
  }

  /** What redeeming may do to the service. */
  predicate Redeemed(cfg: Config, svc: Service, svc': Service, e: Event, r: Result<TokenResponse>)
    requires e.Redeem?
  {
    && svc'.clients == svc.clients
    && ((svc' == svc && r.Err?) || (Authentic(cfg, svc, e.who) && svc'.codes == svc.codes - {e.code_}))
    && ((svc'.tokens == svc.tokens && r.Err?) || (
          && Authentic(cfg, svc, e.who) && e.code_ in svc.codes && e.access.Some?
          && Bound(cfg, e, svc.codes[e.code_])
          && svc'.codes == svc.codes - {e.code_}
          && var scope := Canonical(svc.codes[e.code_].scope);
          && svc'.tokens.access == svc.tokens.access[cfg.hash(e.access.value) := Access(e.who.clientID, scope, e.now + cfg.accessTTL)]
          && svc'.tokens.refresh == (if e.refresh.None? then svc.tokens.refresh
               else svc.tokens.refresh[cfg.hash(e.refresh.value) := Refresh(e.who.clientID, scope, e.now + cfg.refreshTTL)])
          && (r.Ok? ==> e.refresh.Some? && r.value == TokenResponse(e.access.value, e.refresh.value, scope))))
  }

  lemma RedeemEffect(cfg: Config, svc: Service, e: Event)
    requires e.Redeem?
    ensures var (svc', r) := ExchangeCode(cfg, svc, e.who, e.redirectURI, e.code_, e.verifier, e.now, e.access, e.refresh);
      Redeemed(cfg, svc, svc', e, r)
  {
  }

  /** The request matches the code as it was issued. */
  predicate Bound(cfg: Config, e: Event, code: Code)
    requires e.Redeem?
  {
    && e.who.clientID == code.clientID
    && e.redirectURI != "" && e.redirectURI == code.redirectURI
    && e.now <= code.expiresAt
    && (code.challenge != "" ==> e.verifier != "" && cfg.s256(e.verifier) == code.challenge)
  }

  /** `l'` has grown by tokens of one spent grant under fresh random strings. */
  ghost predicate Grows(cfg: Config, l: Log, l': Log, grant: string, access: Option<string>, refresh: Option<string>) {
    && l'.svc.clients == l.svc.clients && l'.issued == l.issued && l.used <= l'.used
    && (access.Some? ==> access.value !in l.used && access.value in l'.used)
    && (refresh.Some? ==> refresh.value !in l.used && refresh.value in l'.used)
    && l'.grantOf == Tag(cfg, Tag(cfg, l.grantOf, access, grant), refresh, grant)
    && l'.svc.codes.Keys <= l.svc.codes.Keys
    && grant !in l'.svc.codes && grant in l.issued
  }

  lemma OldToken(cfg: Config, l: Log, l': Log, grant: string, access: Option<string>, refresh: Option<string>,
                 h: string, client: string, scope: string)
    requires CollisionFree(cfg) && Grows(cfg, l, l', grant, access, refresh)
    requires TokenOk(cfg, l, h, client, scope)
    ensures TokenOk(cfg, l', h, client, scope) && l'.grantOf[h] == l.grantOf[h]
  {
    var u :| u in l.used && cfg.hash(u) == h;
    TokenFrame(cfg, l, l', h, client, scope);
  }

  lemma NewToken(cfg: Config, l: Log, l': Log, grant: string, access: Option<string>, refresh: Option<string>,
                 x: string, client: string, scope: string)
    requires Grows(cfg, l, l', grant, access, refresh)
    requires access == Some(x) || refresh == Some(x)
    requires client == l.issued[grant].clientID && scope == Canonical(l.issued[grant].scope) && Within(l.svc.clients, client, scope)
    ensures TokenOk(cfg, l', cfg.hash(x), client, scope) && l'.grantOf[cfg.hash(x)] == grant
  {
  }

  /** The access map gains at most the one new token. */
  lemma AccessStored(cfg: Config, l: Log, l': Log, grant: string, access: Option<string>, refresh: Option<string>, scope: string)
    requires CollisionFree(cfg) && TokensOk(cfg, l) && Grows(cfg, l, l', grant, access, refresh)
    requires Within(l.svc.clients, l.issued[grant].clientID, scope) && scope == Canonical(l.issued[grant].scope)
    requires forall h <- l'.svc.tokens.access ::
      var t := l'.svc.tokens.access[h];
      Lookup(l.svc.tokens.access, h) == Some(t)
      || (access.Some? && h == cfg.hash(access.value) && t.principal == l.issued[grant].clientID && t.scope == scope)
    ensures forall h <- l'.svc.tokens.access :: TokenOk(cfg, l', h, l'.svc.tokens.access[h].principal, l'.svc.tokens.access[h].scope)
  {
    forall h <- l'.svc.tokens.access
      ensures TokenOk(cfg, l', h, l'.svc.tokens.access[h].principal, l'.svc.tokens.access[h].scope)
    {
      var t := l'.svc.tokens.access[h];
      if Lookup(l.svc.tokens.access, h) == Some(t) {
        OldToken(cfg, l, l', grant, access, refresh, h, t.principal, t.scope);
      } else {
        NewToken(cfg, l, l', grant, access, refresh, access.value, t.principal, t.scope);
      }
    }
  }

  /** The refresh map likewise; tokens of the same grant have been removed. */
  lemma RefreshStored(cfg: Config, l: Log, l': Log, grant: string, access: Option<string>, refresh: Option<string>, scope: string)
    requires CollisionFree(cfg) && TokensOk(cfg, l) && OneRefresh(l) && Grows(cfg, l, l', grant, access, refresh)
    requires Within(l.svc.clients, l.issued[grant].clientID, scope) && scope == Canonical(l.issued[grant].scope)
    requires forall h <- l'.svc.tokens.refresh ::
      var t := l'.svc.tokens.refresh[h];
      (Lookup(l.svc.tokens.refresh, h) == Some(t) && (refresh.Some? ==> l.grantOf[h] != grant))
      || (refresh.Some? && h == cfg.hash(refresh.value) && t.clientID == l.issued[grant].clientID && t.scope == scope)
    ensures forall h <- l'.svc.tokens.refresh :: TokenOk(cfg, l', h, l'.svc.tokens.refresh[h].clientID, l'.svc.tokens.refresh[h].scope)
    ensures OneRefresh(l')
  {
    forall h <- l'.svc.tokens.refresh
      ensures TokenOk(cfg, l', h, l'.svc.tokens.refresh[h].clientID, l'.svc.tokens.refresh[h].scope)
      ensures if refresh.Some? && h == cfg.hash(refresh.value) then l'.grantOf[h] == grant
              else h in l.svc.tokens.refresh && l'.grantOf[h] == l.grantOf[h] && (refresh.Some? ==> l'.grantOf[h] != grant)
    {
      var t := l'.svc.tokens.refresh[h];
      if refresh.Some? && h == cfg.hash(refresh.value) {
        if Lookup(l.svc.tokens.refresh, h) == Some(t) {
          OldToken(cfg, l, l', grant, access, refresh, h, t.clientID, t.scope);
        }
        assert t.clientID == l.issued[grant].clientID && t.scope == scope;
        NewToken(cfg, l, l', grant, access, refresh, refresh.value, t.clientID, t.scope);
      } else {
        OldToken(cfg, l, l', grant, access, refresh, h, t.clientID, t.scope);
      }
    }
  }

  /** A pair issued for a spent grant keeps the invariant: `kept` is what remains of the
      refresh tokens once those of the same grant are gone. */
  lemma PairStored(cfg: Config, l: Log, l': Log, grant: string, access: Option<string>, refresh: Option<string>,
                   aTok: Access, rTok: Refresh, kept: RefreshMap)
    requires Inv(cfg, l) && CollisionFree(cfg) && Grows(cfg, l, l', grant, access, refresh)
    requires aTok.principal == rTok.clientID == l.issued[grant].clientID && aTok.scope == rTok.scope
    requires aTok.scope == Canonical(l.issued[grant].scope) && Within(l.svc.clients, aTok.principal, aTok.scope)
    requires forall c <- l'.svc.codes :: l'.svc.codes[c] == l.svc.codes[c]
    requires access.Some?
    requires l'.svc.tokens.access == l.svc.tokens.access[cfg.hash(access.value) := aTok]
    requires forall h <- kept :: h in l.svc.tokens.refresh && kept[h] == l.svc.tokens.refresh[h] && l.grantOf[h] != grant
    requires l'.svc.tokens.refresh == if refresh.None? then kept
             else kept[cfg.hash(refresh.value) := rTok]
    ensures Inv(cfg, l')
  {
    AccessStored(cfg, l, l', grant, access, refresh, aTok.scope);
    RefreshStored(cfg, l, l', grant, access, refresh, aTok.scope);
  }

  lemma RedeemKeeps(cfg: Config, l: Log, e: Event)
    requires Inv(cfg, l) && CollisionFree(cfg) && Fresh(l, e) && e.Redeem?
    ensures Inv(cfg, Step(cfg, l, e).0)
  {
    RedeemEffect(cfg, l.svc, e);
    RedeemApplied(cfg, l, Step(cfg, l, e).0, e, ExchangeCode(cfg, l.svc, e.who, e.redirectURI, e.code_, e.verifier, e.now, e.access, e.refresh).1);
  }

  /** The same from the effect alone. */
  lemma RedeemApplied(cfg: Config, l: Log, l': Log, e: Event, r: Result<TokenResponse>)
    requires Inv(cfg, l) && CollisionFree(cfg) && Fresh(l, e) && e.Redeem?
    requires Redeemed(cfg, l.svc, l'.svc, e, r)
    requires l'.used == l.used + Randoms(e) && l'.issued == l.issued
    requires l'.grantOf == Tag(cfg, Tag(cfg, l.grantOf, e.access, e.code_), e.refresh, e.code_)
    ensures Inv(cfg, l')
  {
    if l'.svc.tokens == l.svc.tokens {
      UnusedTags(cfg, l, l', e.code_, e.access, e.refresh);
    } else {
      var scope := Canonical(l.svc.codes[e.code_].scope);
      CanonicalTwice(l.svc.codes[e.code_].scope);
      PairStored(cfg, l, l', e.code_, e.access, e.refresh, Access(e.who.clientID, scope, e.now + cfg.accessTTL),
                 Refresh(e.who.clientID, scope, e.now + cfg.refreshTTL), l.svc.tokens.refresh);
    }
  }

  lemma CanonicalTwice(scope: string)
    ensures Canonical(Canonical(scope)) == Canonical(scope)
  {
  }

  /** Fresh random strings are tagged under hashes nobody uses yet. */
  lemma TagsElsewhere(cfg: Config, l: Log, grant: string, access: Option<string>, refresh: Option<string>, h: string)
    requires CollisionFree(cfg) && h in Hashes(cfg, l.used)
    requires access.Some? ==> access.value !in l.used
    requires refresh.Some? ==> refresh.value !in l.used
    ensures Lookup(Tag(cfg, Tag(cfg, l.grantOf, access, grant), refresh, grant), h) == Lookup(l.grantOf, h)
  {
    var u :| u in l.used && cfg.hash(u) == h;
  }

  /** Random strings that end in no stored token change nothing that matters. */
  lemma UnusedTags(cfg: Config, l: Log, l': Log, grant: string, access: Option<string>, refresh: Option<string>)
    requires Inv(cfg, l) && CollisionFree(cfg)
    requires access.Some? ==> access.value !in l.used
    requires refresh.Some? ==> refresh.value !in l.used
    requires l'.svc.tokens == l.svc.tokens && l'.svc.clients == l.svc.clients && l'.issued == l.issued && l.used <= l'.used
    requires l'.svc.codes.Keys <= l.svc.codes.Keys && forall c <- l'.svc.codes :: l'.svc.codes[c] == l.svc.codes[c]
    requires l'.grantOf == Tag(cfg, Tag(cfg, l.grantOf, access, grant), refresh, grant)
    ensures Inv(cfg, l')
  {
    forall h | h in l.svc.tokens.access || h in l.svc.tokens.refresh
      ensures h in l.grantOf && h in l'.grantOf && l'.grantOf[h] == l.grantOf[h]
    {
      assert h in Hashes(cfg, l.used);
      TagsElsewhere(cfg, l, grant, access, refresh, h);
    }
    forall h <- l.svc.tokens.access
      ensures TokenOk(cfg, l', h, l.svc.tokens.access[h].principal, l.svc.tokens.access[h].scope)
    {
      TokenFrame(cfg, l, l', h, l.svc.tokens.access[h].principal, l.svc.tokens.access[h].scope);
    }
    forall h <- l.svc.tokens.refresh
      ensures TokenOk(cfg, l', h, l.svc.tokens.refresh[h].clientID, l.svc.tokens.refresh[h].scope)
    {
      TokenFrame(cfg, l, l', h, l.svc.tokens.refresh[h].clientID, l.svc.tokens.refresh[h].scope);
    }
  }

  // ----- renewing -----

  /** What renewing may do to the service. */
  predicate Renewed(cfg: Config, svc: Service, svc': Service, e: Event, r: Result<TokenResponse>)
    requires e.Renew?
  {
    && svc'.clients == svc.clients && svc'.codes == svc.codes
    && ((svc' == svc && r.Err?) || (
          && Authentic(cfg, svc, e.who)
          && (svc.clients[e.who.clientID].grantTypes == [] || "refresh_token" in svc.clients[e.who.clientID].grantTypes)
          && r.Ok? && e.access.Some? && e.refresh.Some?
          && var h := cfg.hash(e.token);
          && h in svc.tokens.refresh
          && var old_ := svc.tokens.refresh[h];
          && old_.clientID == e.who.clientID && e.now < old_.expiresAt
          && svc'.tokens.access == svc.tokens.access[cfg.hash(e.access.value) := Access(old_.clientID, old_.scope, e.now + cfg.accessTTL)]
          && svc'.tokens.refresh == (svc.tokens.refresh - {h})[cfg.hash(e.refresh.value) := Refresh(old_.clientID, old_.scope, e.now + cfg.refreshTTL)]
          && r.value == TokenResponse(e.access.value, e.refresh.value, Canonical(old_.scope))))
  }

  lemma RenewEffect(cfg: Config, svc: Service, e: Event)
    requires e.Renew?
    ensures var (svc', r) := ExchangeRefreshToken(cfg, svc, e.who, e.token, e.now, e.access, e.refresh);
      Renewed(cfg, svc, svc', e, r)
  {
  }

  lemma RenewKeeps(cfg: Config, l: Log, e: Event)
    requires Inv(cfg, l) && CollisionFree(cfg) && Fresh(l, e) && e.Renew?
    ensures Inv(cfg, Step(cfg, l, e).0)
  {
    RenewEffect(cfg, l.svc, e);
    var h := cfg.hash(e.token);
    RenewApplied(cfg, l, Step(cfg, l, e).0, e, ExchangeRefreshToken(cfg, l.svc, e.who, e.token, e.now, e.access, e.refresh).1,
                 if h in l.grantOf then l.grantOf[h] else "");
  }

  lemma RenewApplied(cfg: Config, l: Log, l': Log, e: Event, r: Result<TokenResponse>, grant: string)
    requires Inv(cfg, l) && CollisionFree(cfg) && Fresh(l, e) && e.Renew?
    requires Renewed(cfg, l.svc, l'.svc, e, r)
    requires cfg.hash(e.token) in l.grantOf ==> grant == l.grantOf[cfg.hash(e.token)]
    requires l'.used == l.used + Randoms(e) && l'.issued == l.issued
    requires l'.grantOf == Tag(cfg, Tag(cfg, l.grantOf, e.access, grant), e.refresh, grant)
    ensures Inv(cfg, l')
  {
    var h := cfg.hash(e.token);
    if l'.svc == l.svc {
      UnusedTags(cfg, l, l', grant, e.access, e.refresh);
    } else {
      var old_ := l.svc.tokens.refresh[h];
      RefreshGrant(cfg, l, h);
      PairStored(cfg, l, l', grant, e.access, e.refresh, Access(old_.clientID, old_.scope, e.now + cfg.accessTTL),
                 Refresh(old_.clientID, old_.scope, e.now + cfg.refreshTTL), l.svc.tokens.refresh - {h});
    }
  }

  /** A live refresh token goes back to a spent code of its client, and it alone does. */
  lemma RefreshGrant(cfg: Config, l: Log, h: string)
    requires Inv(cfg, l) && h in l.svc.tokens.refresh
    ensures h in l.grantOf && l.grantOf[h] in l.issued && l.grantOf[h] !in l.svc.codes
    ensures l.issued[l.grantOf[h]].clientID == l.svc.tokens.refresh[h].clientID
    ensures l.svc.tokens.refresh[h].scope == Canonical(l.issued[l.grantOf[h]].scope)
    ensures Within(l.svc.clients, l.svc.tokens.refresh[h].clientID, l.svc.tokens.refresh[h].scope)
    ensures forall k <- l.svc.tokens.refresh :: k in l.grantOf && (k != h ==> l.grantOf[k] != l.grantOf[h])
  {
    assert TokenOk(cfg, l, h, l.svc.tokens.refresh[h].clientID, l.svc.tokens.refresh[h].scope);
    forall k <- l.svc.tokens.refresh
      ensures k in l.grantOf
    {
      assert TokenOk(cfg, l, k, l.svc.tokens.refresh[k].clientID, l.svc.tokens.refresh[k].scope);
    }
  }

  // ----- every step, every run -----

  lemma StepKeeps(cfg: Config, l: Log, e: Event)
    requires Inv(cfg, l) && CollisionFree(cfg) && Fresh(l, e)
    ensures Inv(cfg, Step(cfg, l, e).0)
  {
    match e
    case Issue(_, _, _) => IssueKeeps(cfg, l, e);
    case Redeem(_, _, _, _, _, _, _) => RedeemKeeps(cfg, l, e);
    case Renew(_, _, _, _, _) => RenewKeeps(cfg, l, e);
    case ExpireCodes(now) => KeepTokens(cfg, l, l.(svc := PurgeCodes(l.svc, now)));
    case ExpireTokens(now) => DropTokens(cfg, l, MemoryStep(l.svc.tokens, Purge, now).0);
    case NewClient(redirects, id) => RegisterKeeps(cfg, l, redirects, id);
  }

  /** A new client changes no maximum that is relied on. */
  lemma RegisterKeeps(cfg: Config, l: Log, redirects: seq<string>, id: Option<string>)
    requires Inv(cfg, l) && (id.Some? ==> id.value !in l.svc.clients)
    ensures Inv(cfg, l.(svc := Register(cfg, l.svc, redirects, id).0))
  {
    KeepTokens(cfg, l, l.(svc := Register(cfg, l.svc, redirects, id).0));
  }

  lemma DropAccess(cfg: Config, l: Log, t: Tokens)
    requires TokensOk(cfg, l) && forall h <- t.access :: Lookup(l.svc.tokens.access, h) == Some(t.access[h])
    ensures var l' := l.(svc := l.svc.(tokens := t));
      forall h <- t.access :: TokenOk(cfg, l', h, t.access[h].principal, t.access[h].scope)
  {
    forall h <- t.access
      ensures TokenOk(cfg, l.(svc := l.svc.(tokens := t)), h, t.access[h].principal, t.access[h].scope)
    {
      TokenFrame(cfg, l, l.(svc := l.svc.(tokens := t)), h, t.access[h].principal, t.access[h].scope);
    }
  }

  lemma DropRefresh(cfg: Config, l: Log, t: Tokens)
    requires TokensOk(cfg, l) && forall h <- t.refresh :: Lookup(l.svc.tokens.refresh, h) == Some(t.refresh[h])
    ensures var l' := l.(svc := l.svc.(tokens := t));
      forall h <- t.refresh :: TokenOk(cfg, l', h, t.refresh[h].clientID, t.refresh[h].scope)
  {
    forall h <- t.refresh
      ensures TokenOk(cfg, l.(svc := l.svc.(tokens := t)), h, t.refresh[h].clientID, t.refresh[h].scope)
    {
      TokenFrame(cfg, l, l.(svc := l.svc.(tokens := t)), h, t.refresh[h].clientID, t.refresh[h].scope);
    }
  }

  /** Removing tokens keeps the invariant. */
  lemma DropTokens(cfg: Config, l: Log, t: Tokens)
    requires Inv(cfg, l)
    requires forall h <- t.access :: Lookup(l.svc.tokens.access, h) == Some(t.access[h])
    requires forall h <- t.refresh :: Lookup(l.svc.tokens.refresh, h) == Some(t.refresh[h])
    ensures Inv(cfg, l.(svc := l.svc.(tokens := t)))
  {
    DropAccess(cfg, l, t);
    DropRefresh(cfg, l, t);
  }

  lemma {:induction false} RunKeeps(cfg: Config, l: Log, es: seq<Event>)
    requires Inv(cfg, l) && CollisionFree(cfg) && FreshRun(cfg, l, es)
    ensures Inv(cfg, Run(cfg, l, es))
    decreases |es|
  {
    if es != [] {
      StepKeeps(cfg, l, es[0]);
      RunKeeps(cfg, Step(cfg, l, es[0]).0, es[1..]);
    }
  }

  function Start(clients: map<string, Client>): Log {
    Log(Service(clients, map[], Tokens(map[], map[])), {}, map[], map[])
  }

  /** After any run from a fresh service: every stored token belongs to the client its
      code was issued to, carries that code's scope, which is within the client's
      maximum, comes from a code that is spent, and no grant has two live refresh tokens. */
  lemma GrantsAreSafe(cfg: Config, clients: map<string, Client>, es: seq<Event>)
    requires ClientsOk(clients) && CollisionFree(cfg)
    requires FreshRun(cfg, Start(clients), es)
    ensures Inv(cfg, Run(cfg, Start(clients), es))
  {
    RunKeeps(cfg, Start(clients), es);
  }

  // ----- at most once -----

  function AnswerAt(cfg: Config, l: Log, es: seq<Event>, k: nat): Result<TokenResponse>
    requires k < |es|
  {
    Step(cfg, Run(cfg, l, es[..k]), es[k]).1
  }

  /** A random string that no longer keys anything never does again. */
  lemma {:induction false} NeverReturns(cfg: Config, l: Log, es: seq<Event>, x: string)
    requires Inv(cfg, l) && CollisionFree(cfg) && FreshRun(cfg, l, es) && x in l.used
    ensures x !in l.svc.codes ==> x !in Run(cfg, l, es).svc.codes
    ensures cfg.hash(x) !in l.svc.tokens.refresh ==> cfg.hash(x) !in Run(cfg, l, es).svc.tokens.refresh
    decreases |es|
  {
    if es != [] {
      var l1 := Step(cfg, l, es[0]).0;
      StepKeeps(cfg, l, es[0]);
      StepAddsOnlyFresh(cfg, l, es[0], x);
      NeverReturns(cfg, l1, es[1..], x);
    }
  }

  /** The step brings the string back neither as a code nor as a refresh token. */
  ghost predicate AddsOnlyFresh(cfg: Config, l: Log, l': Log, x: string) {
    && x in l'.used
    && (x in l'.svc.codes ==> x in l.svc.codes)
    && (cfg.hash(x) in l'.svc.tokens.refresh ==> cfg.hash(x) in l.svc.tokens.refresh)
  }

  lemma StepAddsOnlyFresh(cfg: Config, l: Log, e: Event, x: string)
    requires Inv(cfg, l) && CollisionFree(cfg) && Fresh(l, e) && x in l.used
    ensures AddsOnlyFresh(cfg, l, Step(cfg, l, e).0, x)
  {
    match e
    case Issue(_, _, _) => IssueAddsOnlyFresh(cfg, l, e, x);
    case Redeem(_, _, _, _, _, _, _) => RedeemAddsOnlyFresh(cfg, l, e, x);
    case Renew(_, _, _, _, _) => RenewAddsOnlyFresh(cfg, l, e, x);
    case _ => UpkeepAddsOnlyFresh(cfg, l, e, x);
  }

  lemma UpkeepAddsOnlyFresh(cfg: Config, l: Log, e: Event, x: string)
    requires (e.ExpireCodes? || e.ExpireTokens? || e.NewClient?) && x in l.used
    ensures AddsOnlyFresh(cfg, l, Step(cfg, l, e).0, x)
  {
  }

  lemma IssueAddsOnlyFresh(cfg: Config, l: Log, e: Event, x: string)
    requires ClientsOk(l.svc.clients) && e.Issue? && Fresh(l, e) && x in l.used
    ensures AddsOnlyFresh(cfg, l, Step(cfg, l, e).0, x)
  {
    IssueEffect(cfg, l.svc, e.request, e.now, e.code);
  }

  lemma RedeemAddsOnlyFresh(cfg: Config, l: Log, e: Event, x: string)
    requires CollisionFree(cfg) && e.Redeem? && Fresh(l, e) && x in l.used
    ensures AddsOnlyFresh(cfg, l, Step(cfg, l, e).0, x)
  {
    RedeemEffect(cfg, l.svc, e);
    RedeemedAddsOnlyFresh(cfg, l, Step(cfg, l, e).0, e, Step(cfg, l, e).1, x);
  }

  /** The same from the effect alone. */
  lemma RedeemedAddsOnlyFresh(cfg: Config, l: Log, l': Log, e: Event, r: Result<TokenResponse>, x: string)
    requires CollisionFree(cfg) && e.Redeem? && Fresh(l, e) && x in l.used
    requires Redeemed(cfg, l.svc, l'.svc, e, r) && l.used <= l'.used
    ensures AddsOnlyFresh(cfg, l, l', x)
  {
    assert e.refresh.Some? ==> cfg.hash(e.refresh.value) != cfg.hash(x);
  }

  lemma RenewAddsOnlyFresh(cfg: Config, l: Log, e: Event, x: string)
    requires CollisionFree(cfg) && e.Renew? && Fresh(l, e) && x in l.used
    ensures AddsOnlyFresh(cfg, l, Step(cfg, l, e).0, x)
  {
    RenewEffect(cfg, l.svc, e);
    RenewedAddsOnlyFresh(cfg, l, Step(cfg, l, e).0, e, Step(cfg, l, e).1, x);
  }

  lemma RenewedAddsOnlyFresh(cfg: Config, l: Log, l': Log, e: Event, r: Result<TokenResponse>, x: string)
    requires CollisionFree(cfg) && e.Renew? && Fresh(l, e) && x in l.used
    requires Renewed(cfg, l.svc, l'.svc, e, r) && l.used <= l'.used
    ensures AddsOnlyFresh(cfg, l, l', x)
  {
    assert e.refresh.Some? ==> cfg.hash(e.refresh.value) != cfg.hash(x);
  }

  lemma {:induction false} RunSplit(cfg: Config, l: Log, xs: seq<Event>, ys: seq<Event>)
    requires FreshRun(cfg, l, xs + ys)
    ensures FreshRun(cfg, l, xs) && FreshRun(cfg, Run(cfg, l, xs), ys)
    ensures Run(cfg, l, xs + ys) == Run(cfg, Run(cfg, l, xs), ys)
    decreases |xs|
  {
    if xs == [] {
      assert xs + ys == ys;
    } else {
      assert (xs + ys)[1..] == xs[1..] + ys;
      RunSplit(cfg, Step(cfg, l, xs[0]).0, xs[1..], ys);
    }
  }

  /** The state before event `j`, seen from the state after event `i`. */
  lemma Between(cfg: Config, l: Log, es: seq<Event>, i: nat, j: nat)
    requires i < j < |es| && FreshRun(cfg, l, es)
    ensures var at := Run(cfg, l, es[..i]);
      && FreshRun(cfg, l, es[..i]) && Fresh(at, es[i])
      && FreshRun(cfg, Step(cfg, at, es[i]).0, es[i+1..j])
      && Run(cfg, l, es[..j]) == Run(cfg, Step(cfg, at, es[i]).0, es[i+1..j])
  {
    assert es == es[..j] + es[j..];
    RunSplit(cfg, l, es[..j], es[j..]);
    assert es[..j] == es[..i] + es[i..j];
    RunSplit(cfg, l, es[..i], es[i..j]);
    assert es[i..j][0] == es[i] && es[i..j][1..] == es[i+1..j];
  }

  /** An authorization code yields at most one token response. */
  lemma CodeOnce(cfg: Config, l: Log, es: seq<Event>, i: nat, j: nat)
    requires Inv(cfg, l) && CollisionFree(cfg) && FreshRun(cfg, l, es) && i < j < |es|
    requires es[i].Redeem? && es[j].Redeem? && es[i].code_ == es[j].code_
    requires AnswerAt(cfg, l, es, i).Ok?
    ensures AnswerAt(cfg, l, es, j).Err?
  {
    Between(cfg, l, es, i, j);
    var at := Run(cfg, l, es[..i]);
    RunKeeps(cfg, l, es[..i]);
    RedeemEffect(cfg, at.svc, es[i]);
    var after := Step(cfg, at, es[i]).0;
    StepKeeps(cfg, at, es[i]);
    NeverReturns(cfg, after, es[i+1..j], es[i].code_);
    RedeemEffect(cfg, Run(cfg, l, es[..j]).svc, es[j]);
  }

  /** A refresh token that was exchanged is a handed-out string and keys nothing any more. */
  lemma RenewSpends(cfg: Config, l: Log, e: Event)
    requires Inv(cfg, l) && CollisionFree(cfg) && Fresh(l, e) && e.Renew? && Step(cfg, l, e).1.Ok?
    ensures e.token in l.used && cfg.hash(e.token) !in Step(cfg, l, e).0.svc.tokens.refresh
  {
    RenewEffect(cfg, l.svc, e);
    var h := cfg.hash(e.token);
    assert TokenOk(cfg, l, h, l.svc.tokens.refresh[h].clientID, l.svc.tokens.refresh[h].scope);
    var u :| u in l.used && cfg.hash(u) == h;
    assert u == e.token && cfg.hash(e.refresh.value) != h;
  }

  lemma RenewNeedsToken(cfg: Config, l: Log, e: Event)
    requires e.Renew? && cfg.hash(e.token) !in l.svc.tokens.refresh
    ensures Step(cfg, l, e).1.Err?
  {
    RenewEffect(cfg, l.svc, e);
  }

  /** A refresh token is exchanged at most once. */
  lemma RefreshOnce(cfg: Config, l: Log, es: seq<Event>, i: nat, j: nat)
    requires Inv(cfg, l) && CollisionFree(cfg) && FreshRun(cfg, l, es) && i < j < |es|
    requires es[i].Renew? && es[j].Renew? && es[i].token == es[j].token
    requires AnswerAt(cfg, l, es, i).Ok?
    ensures AnswerAt(cfg, l, es, j).Err?
  {
    Between(cfg, l, es, i, j);
    var at := Run(cfg, l, es[..i]);
    RunKeeps(cfg, l, es[..i]);
    RenewSpends(cfg, at, es[i]);
    StepKeeps(cfg, at, es[i]);
    StepAddsOnlyFresh(cfg, at, es[i], es[i].token);
    NeverReturns(cfg, Step(cfg, at, es[i]).0, es[i+1..j], es[i].token);
    RenewNeedsToken(cfg, Run(cfg, l, es[..j]), es[j]);
  }

  /** A redeemed code was issued to this very client for this redirect URI, has not
      expired, and its challenge, if any, is answered by the verifier. */
  lemma RedeemIsBound(cfg: Config, l: Log, e: Event)
    requires Inv(cfg, l) && e.Redeem? && Step(cfg, l, e).1.Ok?
    ensures e.code_ in l.issued && Bound(cfg, e, l.issued[e.code_])
    ensures Within(l.svc.clients, e.who.clientID, Step(cfg, l, e).1.value.scope)
  {
    RedeemEffect(cfg, l.svc, e);
    CanonicalTwice(l.svc.codes[e.code_].scope);
  }
}
