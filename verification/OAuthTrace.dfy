/** From a token back to the authorization request: what a client that holds tokens
    must have asked for and proved. */
module OAuthTrace {
  import opened Common
  import opened OAuth
  import opened OAuthRuns

  /** The event hands out the code `c` with the data `code`. */
  predicate IssuedBy(cfg: Config, svc: Service, e: Event, c: string, code: Code) {
    && e.Issue? && e.code == Some(c)
    && IssueCode(cfg, svc, e.request, e.now, e.code) == (svc.(codes := svc.codes[c := code]), Ok(c))
  }

  /** What an accepted authorization request has shown. */
  ghost predicate Accepted(cfg: Config, svc: Service, a: Authorize) {
    && a.sourceAllowed && a.responseType == "code" && a.state != ""
    && a.clientID in svc.clients && svc.clients[a.clientID].enabled
    && cfg.wellFormed(a.redirectURI)
    && (exists r <- svc.clients[a.clientID].redirects :: cfg.redirectMatches(r, a.redirectURI))
    && (cfg.requirePKCE ==> a.challenge != "")
    && (a.challenge != "" ==> a.challengeMethod == "S256" && 43 <= |a.challenge| <= 128)
    && (a.scope == [] || exists t <- a.scope :: TokenRank(t) >= 0)
  }

  /** A code is issued exactly for an accepted request, when the random source works. */
  lemma IssuesExactlyAccepted(cfg: Config, svc: Service, a: Authorize, now: int, random: Option<string>)
    ensures IssueCode(cfg, svc, a, now, random).1.Ok? <==> Accepted(cfg, svc, a) && random.Some?
  {
    assert a.scope != [] && HighestRank(a.scope) >= 0 ==> exists t <- a.scope :: TokenRank(t) == HighestRank(a.scope);
  }

  lemma IssuedCodeIsBound(cfg: Config, svc: Service, e: Event, c: string, code: Code)
    requires ClientsOk(svc.clients) && IssuedBy(cfg, svc, e, c, code)
    ensures Accepted(cfg, svc, e.request)
    ensures code.clientID == e.request.clientID && code.redirectURI == e.request.redirectURI
    ensures code.challenge == e.request.challenge && code.expiresAt == e.now + cfg.codeTTL
    ensures Rank(code.scope) <= Rank(svc.clients[code.clientID].scope)
    ensures e.request.scope != [] ==> Rank(code.scope) <= HighestRank(e.request.scope)
    ensures Canonical(code.scope) == code.scope
  {
    IssuesExactlyAccepted(cfg, svc, e.request, e.now, e.code);
    ResolveIsClamped(svc.clients, e.request.clientID, e.request.scope);
    assert code == svc.(codes := svc.codes[c := code]).codes[c];
  }

  /** Every code known at the end was known at the start or comes from some event. */
  lemma {:induction false} CodesHaveOrigins(cfg: Config, l: Log, es: seq<Event>, c: string)
    requires c in Run(cfg, l, es).issued
    ensures var code := Run(cfg, l, es).issued[c];
      Lookup(l.issued, c) == Some(code) || exists i: nat :: i < |es| && IssuedBy(cfg, Run(cfg, l, es[..i]).svc, es[i], c, code)
    decreases |es|
  {
    if es != [] {
      var l1 := Step(cfg, l, es[0]).0;
      var code := Run(cfg, l, es).issued[c];
      CodesHaveOrigins(cfg, l1, es[1..], c);
      if Lookup(l1.issued, c) == Some(code) {
        if Lookup(l.issued, c) != Some(code) {
          StepIssues(cfg, l, es[0], c);
          assert es[..0] == [];
          assert IssuedBy(cfg, Run(cfg, l, es[..0]).svc, es[0], c, code);
        }
      } else {
        var i: nat :| i < |es[1..]| && IssuedBy(cfg, Run(cfg, l1, es[1..][..i]).svc, es[1..][i], c, code);
        assert es[..i+1][1..] == es[1..][..i] && es[..i+1][0] == es[0];
        assert IssuedBy(cfg, Run(cfg, l, es[..i+1]).svc, es[i+1], c, code);
      }
    }
  }

  lemma StepIssues(cfg: Config, l: Log, e: Event, c: string)
    requires c in Step(cfg, l, e).0.issued && Lookup(l.issued, c) != Some(Step(cfg, l, e).0.issued[c])
    ensures IssuedBy(cfg, l.svc, e, c, Step(cfg, l, e).0.issued[c])
  {
  }

  lemma RedeemedScope(cfg: Config, l: Log, e: Event)
    requires CodesOk(l) && e.Redeem? && Step(cfg, l, e).1.Ok?
    ensures e.code_ in l.issued && Step(cfg, l, e).1.value.scope == Canonical(l.issued[e.code_].scope)
  {
    RedeemEffect(cfg, l.svc, e);
  }

  /** The redemption, made in state `at`, is the client's own, answers the authorization
      request and exceeds it in nothing. */
  ghost predicate Answers(cfg: Config, svc: Service, issue: Event, at: Service, redeem: Event, scope: string) {
    && issue.Issue? && redeem.Redeem? && Authentic(cfg, at, redeem.who)
    && Accepted(cfg, svc, issue.request) && issue.code == Some(redeem.code_)
    && redeem.who.clientID == issue.request.clientID && redeem.redirectURI == issue.request.redirectURI
    && redeem.now <= issue.now + cfg.codeTTL
    && (cfg.requirePKCE || issue.request.challenge != "" ==>
          redeem.verifier != "" && cfg.s256(redeem.verifier) == issue.request.challenge)
    && Rank(scope) <= Rank(svc.clients[redeem.who.clientID].scope)
    && (issue.request.scope != [] ==> Rank(scope) <= HighestRank(issue.request.scope))
  }

  lemma StateBefore(cfg: Config, clients: map<string, Client>, es: seq<Event>, i: nat)
    requires ClientsOk(clients) && CollisionFree(cfg) && FreshRun(cfg, Start(clients), es) && i <= |es|
    ensures Inv(cfg, Run(cfg, Start(clients), es[..i]))
  {
    assert es == es[..i] + es[i..];
    RunSplit(cfg, Start(clients), es[..i], es[i..]);
    RunKeeps(cfg, Start(clients), es[..i]);
  }

  /** Over any run from a fresh service: whoever redeems a code presents the client, the
      redirect URI and, where one was sent or is required, the verifier of an accepted
      authorization request that handed out this very code, within its lifetime, and
      receives no more scope than was asked for and than the client may have. */
  lemma RedeemTracesToRequest(cfg: Config, clients: map<string, Client>, es: seq<Event>, k: nat)
    requires ClientsOk(clients) && CollisionFree(cfg) && FreshRun(cfg, Start(clients), es)
    requires k < |es| && es[k].Redeem? && AnswerAt(cfg, Start(clients), es, k).Ok?
    ensures exists i: nat :: i < k && Answers(cfg, Run(cfg, Start(clients), es[..i]).svc, es[i],
                                              Run(cfg, Start(clients), es[..k]).svc, es[k],
                                              AnswerAt(cfg, Start(clients), es, k).value.scope)
  {
    var l := Start(clients);
    var at := Run(cfg, l, es[..k]);
    StateBefore(cfg, clients, es, k);
    RedeemIsBound(cfg, at, es[k]);
    RedeemedScope(cfg, at, es[k]);
    RedeemEffect(cfg, at.svc, es[k]);
    var c := es[k].code_;
    CodesHaveOrigins(cfg, l, es[..k], c);
    var i: nat :| i < |es[..k]| && IssuedBy(cfg, Run(cfg, l, es[..k][..i]).svc, es[..k][i], c, at.issued[c]);
    assert es[..k][..i] == es[..i] && es[..k][i] == es[i];
    StateBefore(cfg, clients, es, i);
    OriginAnswers(cfg, Run(cfg, l, es[..i]).svc, es[i], at.svc, es[k], at.issued[c]);
  }

  lemma OriginAnswers(cfg: Config, svc: Service, issue: Event, at: Service, redeem: Event, code: Code)
    requires ClientsOk(svc.clients) && redeem.Redeem? && IssuedBy(cfg, svc, issue, redeem.code_, code)
    requires Bound(cfg, redeem, code) && Authentic(cfg, at, redeem.who)
    ensures Answers(cfg, svc, issue, at, redeem, Canonical(code.scope))
  {
    IssuedCodeIsBound(cfg, svc, issue, redeem.code_, code);
  }
}
