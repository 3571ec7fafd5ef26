/** Who gets in: exactly which token requests answer, what a bearer token goes back to,
    and what dynamically registered clients can reach. */
module OAuthAccess {
  import opened Common
  import opened TokenStores
  import opened OAuth
  import opened OAuthRuns
  import opened OAuthTrace

  // ----- scopes -----

  /** The scope strings in use, old and new; an empty one counts as "read". */
  lemma RecognisedScopes(t: string)
    ensures TokenRank(t) >= 0 <==> t in {"", "mcp", "read", "content.read", "reader", "write", "content.write", "admin",
                                         "site.admin", "site_admin", "siteadmin", "system.admin", "system_admin", "systemadmin"}
    ensures TokenRank(t) == 1 <==> t in {"write", "content.write"}
    ensures TokenRank(t) == 2 <==> t in {"admin", "site.admin", "site_admin", "siteadmin",
                                         "system.admin", "system_admin", "systemadmin"}
    ensures TokenRank(t) >= 0 && t != "" ==> Canonical(t) == ["read", "write", "admin"][TokenRank(t)]
    ensures TokenRank(t) >= 0 ==> Rank(Canonical(t)) == TokenRank(t)
    ensures TokenRank(t) < 0 ==> Canonical(t) == t && Rank(t) == 0
  {
  }

  // ----- who is answered -----

  /** An authorization request gets a scope exactly when its client is registered and
      enabled and it names no scope or a recognised one. */
  lemma ResolvesExactly(clients: map<string, Client>, id: string, tokens: seq<string>)
    ensures ResolveScope(clients, id, tokens).Ok? <==>
      && id in clients && clients[id].enabled
      && (tokens == [] || exists t <- tokens :: TokenRank(t) >= 0)
    ensures ResolveScope(clients, id, tokens) == Err("unauthorized_client") <==> !(id in clients && clients[id].enabled)
  {
    assert HighestRank(tokens) >= 0 ==> exists t <- tokens :: TokenRank(t) == HighestRank(tokens);
  }

  /** The request matches a stored code. */
  predicate Matches(cfg: Config, svc: Service, e: Event)
    requires e.Redeem?
  {
    && e.code_ in svc.codes
    && var code := svc.codes[e.code_];
    && e.now <= code.expiresAt && e.who.clientID == code.clientID
    && e.redirectURI != "" && e.redirectURI == code.redirectURI
    && (code.challenge == "" || (e.verifier != "" && cfg.s256(e.verifier) == code.challenge))
  }

  /** A redemption answers exactly for a registered and enabled client that presents its
      secret if it has one, with a stored and unexpired code of its own, the redirect URI
      the code was issued for, the verifier of its challenge, and working randomness. The
      code is gone whenever the client is authentic; when randomness fails between the two
      tokens, the first one stays. */
  lemma RedeemAnswersExactly(cfg: Config, svc: Service, e: Event)
    requires e.Redeem?
    ensures var (svc', r) := ExchangeCode(cfg, svc, e.who, e.redirectURI, e.code_, e.verifier, e.now, e.access, e.refresh);
      var id := e.who.clientID;
      var known := id in svc.clients && svc.clients[id].enabled
                   && (svc.clients[id].secretHash == "" || (e.who.secret != "" && cfg.hash(e.who.secret) == svc.clients[id].secretHash));
      && (r.Ok? <==> known && Matches(cfg, svc, e) && e.access.Some? && e.refresh.Some?)
      && svc'.codes == (if known then svc.codes - {e.code_} else svc.codes)
      && svc'.tokens.access == (
           if known && Matches(cfg, svc, e) && e.access.Some?
           then svc.tokens.access[cfg.hash(e.access.value) := Access(id, Canonical(svc.codes[e.code_].scope), e.now + cfg.accessTTL)]
           else svc.tokens.access)
      && svc'.tokens.refresh == (
           if known && Matches(cfg, svc, e) && e.access.Some? && e.refresh.Some?
           then svc.tokens.refresh[cfg.hash(e.refresh.value) := Refresh(id, Canonical(svc.codes[e.code_].scope), e.now + cfg.refreshTTL)]
           else svc.tokens.refresh)
      && (!known ==> r == Err("invalid_client"))
  {
  }

  /** A renewal answers exactly for such a client, allowed to renew, with an unexpired
      refresh token of its own, and otherwise changes nothing. */
  lemma RenewAnswersExactly(cfg: Config, svc: Service, e: Event)
    requires e.Renew?
    ensures var (svc', r) := ExchangeRefreshToken(cfg, svc, e.who, e.token, e.now, e.access, e.refresh);
      var id := e.who.clientID;
      var known := id in svc.clients && svc.clients[id].enabled
                   && (svc.clients[id].secretHash == "" || (e.who.secret != "" && cfg.hash(e.who.secret) == svc.clients[id].secretHash));
      && (r.Ok? <==>
            && known && (svc.clients[id].grantTypes == [] || "refresh_token" in svc.clients[id].grantTypes)
            && e.access.Some? && e.refresh.Some? && cfg.hash(e.token) in svc.tokens.refresh
            && var t := svc.tokens.refresh[cfg.hash(e.token)];
            t.clientID == id && e.now < t.expiresAt)
      && (r.Err? ==> svc' == svc)
      && (!known ==> r == Err("invalid_client"))
  {
  }

  /** In any run, whoever gets a token response is a registered and enabled client that
      presented its secret if it has one, and may renew if that is what it did. */
  lemma AnsweredIsAuthentic(cfg: Config, l: Log, es: seq<Event>, k: nat)
    requires k < |es| && AnswerAt(cfg, l, es, k).Ok?
    ensures es[k].Redeem? || es[k].Renew?
    ensures var clients, who := Run(cfg, l, es[..k]).svc.clients, es[k].who;
      && who.clientID in clients
      && var c := clients[who.clientID];
      && c.enabled
      && (c.secretHash == "" || (who.secret != "" && cfg.hash(who.secret) == c.secretHash))
      && (es[k].Renew? ==> c.grantTypes == [] || "refresh_token" in c.grantTypes)
  {
    var svc := Run(cfg, l, es[..k]).svc;
    if es[k].Redeem? {
      RedeemEffect(cfg, svc, es[k]);
    } else if es[k].Renew? {
      RenewEffect(cfg, svc, es[k]);
    }
  }

  // ----- what a stored token goes back to -----

  /** The event spends code `c` for a matching request of an authentic client. */
  predicate RedeemedBy(cfg: Config, l: Log, e: Event, c: string) {
    && e.Redeem? && e.code_ == c && Authentic(cfg, l.svc, e.who)
    && c in l.issued && Bound(cfg, e, l.issued[c])
  }

  /** Some stored token belongs to the grant. */
  ghost predicate Holds(l: Log, c: string) {
    exists h :: (h in l.svc.tokens.access || h in l.svc.tokens.refresh) && h in l.grantOf && l.grantOf[h] == c
  }

  lemma StoredHash(cfg: Config, l: Log, h: string)
    requires TokensOk(cfg, l) && (h in l.svc.tokens.access || h in l.svc.tokens.refresh)
    ensures h in Hashes(cfg, l.used) && h in l.grantOf
  {
    if h in l.svc.tokens.access {
      assert TokenOk(cfg, l, h, l.svc.tokens.access[h].principal, l.svc.tokens.access[h].scope);
    } else {
      assert TokenOk(cfg, l, h, l.svc.tokens.refresh[h].clientID, l.svc.tokens.refresh[h].scope);
    }
  }

  lemma RedeemHolds(cfg: Config, l: Log, e: Event, svc': Service, r: Result<TokenResponse>, h: string, c: string)
    requires Inv(cfg, l) && CollisionFree(cfg) && Fresh(l, e) && e.Redeem? && Redeemed(cfg, l.svc, svc', e, r)
    requires h in svc'.tokens.access || h in svc'.tokens.refresh
    requires Lookup(Tag(cfg, Tag(cfg, l.grantOf, e.access, e.code_), e.refresh, e.code_), h) == Some(c)
    ensures Holds(l, c) || RedeemedBy(cfg, l, e, c)
  {
    if h in l.svc.tokens.access || h in l.svc.tokens.refresh {
      StoredHash(cfg, l, h);
      TagsElsewhere(cfg, l, e.code_, e.access, e.refresh, h);
    } else {
      assert svc'.tokens != l.svc.tokens;
      assert c == e.code_;
    }
  }

  lemma RenewHolds(cfg: Config, l: Log, e: Event, svc': Service, r: Result<TokenResponse>, grant: string, h: string, c: string)
    requires Inv(cfg, l) && CollisionFree(cfg) && Fresh(l, e) && e.Renew? && Renewed(cfg, l.svc, svc', e, r)
    requires cfg.hash(e.token) in l.grantOf ==> grant == l.grantOf[cfg.hash(e.token)]
    requires h in svc'.tokens.access || h in svc'.tokens.refresh
    requires Lookup(Tag(cfg, Tag(cfg, l.grantOf, e.access, grant), e.refresh, grant), h) == Some(c)
    ensures Holds(l, c)
  {
    if h in l.svc.tokens.access || h in l.svc.tokens.refresh {
      StoredHash(cfg, l, h);
      TagsElsewhere(cfg, l, grant, e.access, e.refresh, h);
    } else {
      StoredHash(cfg, l, cfg.hash(e.token));
      assert c == grant;
    }
  }

  lemma RedeemStepHolds(cfg: Config, l: Log, e: Event, c: string)
    requires Inv(cfg, l) && CollisionFree(cfg) && Fresh(l, e) && e.Redeem? && Holds(Step(cfg, l, e).0, c)
    ensures Holds(l, c) || RedeemedBy(cfg, l, e, c)
  {
    var (l', r) := Step(cfg, l, e);
    var h :| (h in l'.svc.tokens.access || h in l'.svc.tokens.refresh) && h in l'.grantOf && l'.grantOf[h] == c;
    RedeemEffect(cfg, l.svc, e);
    RedeemHolds(cfg, l, e, l'.svc, r, h, c);
  }

  lemma RenewStepHolds(cfg: Config, l: Log, e: Event, c: string)
    requires Inv(cfg, l) && CollisionFree(cfg) && Fresh(l, e) && e.Renew? && Holds(Step(cfg, l, e).0, c)
    ensures Holds(l, c)
  {
    var (l', r) := Step(cfg, l, e);
    var h :| (h in l'.svc.tokens.access || h in l'.svc.tokens.refresh) && h in l'.grantOf && l'.grantOf[h] == c;
    RenewEffect(cfg, l.svc, e);
    RenewHolds(cfg, l, e, l'.svc, r, if cfg.hash(e.token) in l.grantOf then l.grantOf[cfg.hash(e.token)] else "", h, c);
  }

  /** The other events add no token. */
  lemma UpkeepHolds(cfg: Config, l: Log, e: Event, c: string)
    requires !e.Redeem? && !e.Renew? && ClientsOk(l.svc.clients) && Holds(Step(cfg, l, e).0, c)
    ensures Holds(l, c)
  {
    if e.Issue? {
      IssueEffect(cfg, l.svc, e.request, e.now, e.code);
    }
  }

  lemma StepHolds(cfg: Config, l: Log, e: Event, c: string)
    requires Inv(cfg, l) && CollisionFree(cfg) && Fresh(l, e) && Holds(Step(cfg, l, e).0, c)
    ensures Holds(l, c) || RedeemedBy(cfg, l, e, c)
  {
    if e.Redeem? {
      RedeemStepHolds(cfg, l, e, c);
    } else if e.Renew? {
      RenewStepHolds(cfg, l, e, c);
    } else {
      UpkeepHolds(cfg, l, e, c);
    }
  }

  /** The data of a code never change. */
  lemma {:induction false} IssuedStays(cfg: Config, l: Log, es: seq<Event>, c: string)
    requires Inv(cfg, l) && CollisionFree(cfg) && FreshRun(cfg, l, es) && c in l.issued
    ensures c in Run(cfg, l, es).issued && Run(cfg, l, es).issued[c] == l.issued[c]
    decreases |es|
  {
    if es != [] {
      StepKeeps(cfg, l, es[0]);
      IssuedStep(cfg, l, es[0], c);
      IssuedStays(cfg, Step(cfg, l, es[0]).0, es[1..], c);
    }
  }

  lemma IssuedStep(cfg: Config, l: Log, e: Event, c: string)
    requires CodesOk(l) && ClientsOk(l.svc.clients) && Fresh(l, e) && c in l.issued
    ensures c in Step(cfg, l, e).0.issued && Step(cfg, l, e).0.issued[c] == l.issued[c]
  {
    if e.Issue? {
      IssueEffect(cfg, l.svc, e.request, e.now, e.code);
    }
  }

  /** Every grant with a stored token was redeemed by some event. */
  lemma {:induction false} HeldIsRedeemed(cfg: Config, l: Log, es: seq<Event>, c: string)
    requires Inv(cfg, l) && CollisionFree(cfg) && FreshRun(cfg, l, es) && Holds(Run(cfg, l, es), c)
    ensures Holds(l, c) || exists j: nat :: j < |es| && RedeemedBy(cfg, Run(cfg, l, es[..j]), es[j], c)
    decreases |es|
  {
    if es != [] {
      var l1 := Step(cfg, l, es[0]).0;
      StepKeeps(cfg, l, es[0]);
      HeldIsRedeemed(cfg, l1, es[1..], c);
      if Holds(l1, c) {
        StepHolds(cfg, l, es[0], c);
        assert es[..0] == [] && Run(cfg, l, es[..0]) == l;
      } else {
        var j: nat :| j < |es[1..]| && RedeemedBy(cfg, Run(cfg, l1, es[1..][..j]), es[1..][j], c);
        assert es[..j+1][1..] == es[1..][..j] && es[..j+1][0] == es[0];
        assert RedeemedBy(cfg, Run(cfg, l, es[..j+1]), es[j+1], c);
      }
    }
  }

  /** A bearer that is accepted is unexpired and a string handed out in the run; its scope
      is canonical. Behind it are an accepted authorization request and a later redemption
      by its client, authentic then, with the redirect URI and the verifier of that
      request, and it carries no more scope than was asked for and than the client may
      have. */
  lemma BearerTracesToRequest(cfg: Config, clients: map<string, Client>, es: seq<Event>, token: string, now: int)
    requires ClientsOk(clients) && CollisionFree(cfg) && FreshRun(cfg, Start(clients), es)
    requires Bearer(cfg, Run(cfg, Start(clients), es).svc, token, now).Some?
    ensures var info := Bearer(cfg, Run(cfg, Start(clients), es).svc, token, now).value;
      && now < info.expiresAt && token in Run(cfg, Start(clients), es).used
      && exists i: nat, j: nat :: i < j < |es| && es[j].Redeem? && es[j].who.clientID == info.principal
           && Answers(cfg, Run(cfg, Start(clients), es[..i]).svc, es[i], Run(cfg, Start(clients), es[..j]).svc, es[j], info.scope)
  {
    var l := Start(clients);
    var end, h := Run(cfg, l, es), cfg.hash(token);
    var info := Bearer(cfg, end.svc, token, now).value;
    GrantsAreSafe(cfg, clients, es);
    var t := end.svc.tokens.access[h];
    assert TokenOk(cfg, end, h, t.principal, t.scope);
    var u :| u in end.used && cfg.hash(u) == h;
    var c := end.grantOf[h];
    assert Holds(end, c);
    CanonicalTwice(end.issued[c].scope);
    var i, j := GrantTraces(cfg, clients, es, c);
    assert info == Access(t.principal, Canonical(end.issued[c].scope), t.expiresAt);
  }

  lemma GrantTraces(cfg: Config, clients: map<string, Client>, es: seq<Event>, c: string) returns (i: nat, j: nat)
    requires ClientsOk(clients) && CollisionFree(cfg) && FreshRun(cfg, Start(clients), es)
    requires Holds(Run(cfg, Start(clients), es), c) && c in Run(cfg, Start(clients), es).issued
    ensures i < j < |es| && es[j].Redeem? && es[j].who.clientID == Run(cfg, Start(clients), es).issued[c].clientID
    ensures Answers(cfg, Run(cfg, Start(clients), es[..i]).svc, es[i], Run(cfg, Start(clients), es[..j]).svc, es[j],
                    Canonical(Run(cfg, Start(clients), es).issued[c].scope))
  {
    var l := Start(clients);
    HeldIsRedeemed(cfg, l, es, c);
    j :| j < |es| && RedeemedBy(cfg, Run(cfg, l, es[..j]), es[j], c);
    SameIssued(cfg, clients, es, j, c);
    i := RedemptionTraces(cfg, clients, es, c, j);
  }

  lemma SameIssued(cfg: Config, clients: map<string, Client>, es: seq<Event>, j: nat, c: string)
    requires ClientsOk(clients) && CollisionFree(cfg) && FreshRun(cfg, Start(clients), es)
    requires j <= |es| && c in Run(cfg, Start(clients), es[..j]).issued
    ensures Lookup(Run(cfg, Start(clients), es).issued, c) == Some(Run(cfg, Start(clients), es[..j]).issued[c])
  {
    StateBefore(cfg, clients, es, j);
    assert es == es[..j] + es[j..];
    RunSplit(cfg, Start(clients), es[..j], es[j..]);
    IssuedStays(cfg, Run(cfg, Start(clients), es[..j]), es[j..], c);
  }

  lemma RedemptionTraces(cfg: Config, clients: map<string, Client>, es: seq<Event>, c: string, j: nat) returns (i: nat)
    requires ClientsOk(clients) && CollisionFree(cfg) && FreshRun(cfg, Start(clients), es)
    requires j < |es| && RedeemedBy(cfg, Run(cfg, Start(clients), es[..j]), es[j], c)
    ensures i < j && Answers(cfg, Run(cfg, Start(clients), es[..i]).svc, es[i], Run(cfg, Start(clients), es[..j]).svc, es[j],
                             Canonical(Run(cfg, Start(clients), es[..j]).issued[c].scope))
  {
    var l := Start(clients);
    var at := Run(cfg, l, es[..j]);
    CodesHaveOrigins(cfg, l, es[..j], c);
    i :| i < |es[..j]| && IssuedBy(cfg, Run(cfg, l, es[..j][..i]).svc, es[..j][i], c, at.issued[c]);
    assert es[..j][..i] == es[..i] && es[..j][i] == es[i];
    StateBefore(cfg, clients, es, i);
    OriginAnswers(cfg, Run(cfg, l, es[..i]).svc, es[i], at.svc, es[j], at.issued[c]);
  }

  // ----- dynamic registration -----

  /** Registration succeeds exactly when it is switched on, there is a redirect URI and all
      are acceptable; the new client is public, enabled and limited to "read", has exactly
      the redirects it sent, and every other client stays as it is. */
  lemma RegistersExactly(cfg: Config, svc: Service, redirects: seq<string>, random: Option<string>)
    ensures var (svc', r) := Register(cfg, svc, redirects, random);
      && (r.Ok? <==> cfg.dynamicClients && redirects != [] && random.Some? && forall uri <- redirects :: cfg.registrable(uri))
      && svc'.codes == svc.codes && svc'.tokens == svc.tokens
      && (r.Err? ==> svc'.clients == svc.clients)
      && (r.Ok? ==>
            && random == Some(r.value) && svc'.clients.Keys == svc.clients.Keys + {r.value}
            && (forall id <- svc.clients :: id != r.value ==> svc'.clients[id] == svc.clients[id])
            && svc'.clients[r.value] == Client(redirects, ["authorization_code", "refresh_token"], "", "read", true))
  {
  }

  /** Clients registered in a run, and the ones there before it. */
  lemma {:induction false} ClientsOfRun(cfg: Config, l: Log, es: seq<Event>, id: string)
    requires FreshRun(cfg, l, es) && id in Run(cfg, l, es).svc.clients
    ensures var c := Run(cfg, l, es).svc.clients[id];
      Lookup(l.svc.clients, id) == Some(c) || (
        && id !in l.svc.clients
        && c.scope == "read" && c.secretHash == "" && c.enabled
        && exists k: nat :: k < |es| && es[k] == NewClient(c.redirects, Some(id)))
    decreases |es|
  {
    if es != [] {
      var l1 := Step(cfg, l, es[0]).0;
      var c := Run(cfg, l, es).svc.clients[id];
      StepClients(cfg, l, es[0]);
      ClientsOfRun(cfg, l1, es[1..], id);
      if Lookup(l1.svc.clients, id) != Some(c) {
        var k: nat :| k < |es[1..]| && es[1..][k] == NewClient(c.redirects, Some(id));
        assert es[k+1] == NewClient(c.redirects, Some(id));
      }
    }
  }

  lemma StepClients(cfg: Config, l: Log, e: Event)
    requires Fresh(l, e)
    ensures var clients := Step(cfg, l, e).0.svc.clients;
      clients == l.svc.clients || (
        && e.NewClient? && e.id.Some? && e.id.value !in l.svc.clients
        && clients == l.svc.clients[e.id.value := clients[e.id.value]]
        && var c := clients[e.id.value];
        c.redirects == e.redirects && c.scope == "read" && c.secretHash == "" && c.enabled)
  {
    match e
    case Redeem(_, _, _, _, _, _, _) => RedeemEffect(cfg, l.svc, e);
    case Renew(_, _, _, _, _) => RenewEffect(cfg, l.svc, e);
    case _ =>
  }

  /** No bearer of a client that registered itself is worth more than "read". */
  lemma SelfRegisteredOnlyRead(cfg: Config, clients: map<string, Client>, es: seq<Event>, token: string, now: int)
    requires ClientsOk(clients) && CollisionFree(cfg) && FreshRun(cfg, Start(clients), es)
    requires Bearer(cfg, Run(cfg, Start(clients), es).svc, token, now).Some?
    requires Bearer(cfg, Run(cfg, Start(clients), es).svc, token, now).value.principal !in clients
    ensures Bearer(cfg, Run(cfg, Start(clients), es).svc, token, now).value.scope !in {"write", "admin"}
  {
    var l := Start(clients);
    var end, h := Run(cfg, l, es), cfg.hash(token);
    GrantsAreSafe(cfg, clients, es);
    var t := end.svc.tokens.access[h];
    assert TokenOk(cfg, end, h, t.principal, t.scope);
    ClientsOfRun(cfg, l, es, t.principal);
  }

  // ----- expired codes -----

  /** Purging removes exactly the expired codes, and no later redemption can tell. */
  lemma PurgedCodesWereDead(cfg: Config, svc: Service, at: int, e: Event)
    requires e.Redeem? && at <= e.now
    ensures var svc0 := PurgeCodes(svc, at);
      && svc0.clients == svc.clients && svc0.tokens == svc.tokens
      && (forall c :: c in svc0.codes <==> c in svc.codes && at <= svc.codes[c].expiresAt)
      && (forall c <- svc0.codes :: svc0.codes[c] == svc.codes[c])
      && var (svc1, r1) := ExchangeCode(cfg, svc, e.who, e.redirectURI, e.code_, e.verifier, e.now, e.access, e.refresh);
      ExchangeCode(cfg, svc0, e.who, e.redirectURI, e.code_, e.verifier, e.now, e.access, e.refresh) == (PurgeCodes(svc1, at), r1)
  {
    var svc0 := PurgeCodes(svc, at);
    var (svc1, r1) := ExchangeCode(cfg, svc, e.who, e.redirectURI, e.code_, e.verifier, e.now, e.access, e.refresh);
    var (svc2, r2) := ExchangeCode(cfg, svc0, e.who, e.redirectURI, e.code_, e.verifier, e.now, e.access, e.refresh);
    assert svc2.codes == PurgeCodes(svc1, at).codes;
    assert svc2.clients == svc1.clients && svc2.tokens == svc1.tokens;
  }
}
