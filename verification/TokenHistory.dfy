/** Histories of the token stores: every answer follows from what was added and exchanged
    before, purging expired tokens never shows, and the JSON store exchanges a refresh
    token at most once, through failing saves and restarts. */
module TokenHistory {
  import opened Common
  import opened TokenStores

  /** The tokens that still count at a time. */
  function Live(m: Tokens, now: int): Tokens {
    Tokens(map t | t in m.access && now < m.access[t].expiresAt :: m.access[t],
           map t | t in m.refresh && now < m.refresh[t].expiresAt :: m.refresh[t])
  }

  predicate Ordered(ops: seq<Timed>, since: int) {
    && (forall i :: 0 <= i < |ops| ==> since <= ops[i].now)
    && (forall i, j :: 0 <= i < j < |ops| ==> ops[i].now <= ops[j].now)
  }

  /** The same operations with every purge doing nothing. */
  function AnswersWithoutPurges(m: Tokens, ops: seq<Timed>): seq<Answer>
    decreases |ops|
  {
    if ops == [] then []
    else if ops[0].op.Purge? then [Stored] + AnswersWithoutPurges(m, ops[1..])
    else
      var (m', a) := MemoryStep(m, ops[0].op, ops[0].now);
      [a] + AnswersWithoutPurges(m', ops[1..])
  }

  /** The two stores agree on what is live, token by token. */
  ghost predicate SameLive(m: Tokens, n: Tokens, now: int) {
    && (forall t :: LiveAccess(m, t, now) == LiveAccess(n, t, now))
    && (forall t :: LiveRefresh(m, t, now) == LiveRefresh(n, t, now))
  }

  function LiveAccess(m: Tokens, t: string, now: int): Option<Access> {
    if t in m.access && now < m.access[t].expiresAt then Some(m.access[t]) else None
  }

  function LiveRefresh(m: Tokens, t: string, now: int): Option<Refresh> {
    if t in m.refresh && now < m.refresh[t].expiresAt then Some(m.refresh[t]) else None
  }

  lemma SameLiveMeans(m: Tokens, n: Tokens, now: int)
    requires Live(m, now) == Live(n, now)
    ensures SameLive(m, n, now)
  {
    forall t ensures LiveAccess(m, t, now) == LiveAccess(n, t, now) && LiveRefresh(m, t, now) == LiveRefresh(n, t, now) {
      assert LiveAccess(m, t, now) == Lookup(Live(m, now).access, t) && LiveAccess(n, t, now) == Lookup(Live(n, now).access, t);
      assert LiveRefresh(m, t, now) == Lookup(Live(m, now).refresh, t) && LiveRefresh(n, t, now) == Lookup(Live(n, now).refresh, t);
    }
  }

  /** What is live decides the answer and what is live afterwards. */
  lemma LiveDecides(m: Tokens, n: Tokens, op: Op, now: int)
    requires SameLive(m, n, now) && !op.Purge?
    ensures MemoryStep(m, op, now).1 == MemoryStep(n, op, now).1
    ensures SameLive(MemoryStep(m, op, now).0, MemoryStep(n, op, now).0, now)
  {
    match op {
    case ValidateAccess(t) => assert LiveAccess(m, t, now) == LiveAccess(n, t, now);
    case AccessDetails(t) => assert LiveAccess(m, t, now) == LiveAccess(n, t, now);
    case ValidateRefresh(t, _) => assert LiveRefresh(m, t, now) == LiveRefresh(n, t, now);
    case ExchangeRefresh(t, _, _, _, _, _) => assert LiveRefresh(m, t, now) == LiveRefresh(n, t, now);
    case _ =>
    }
    var m', n' := MemoryStep(m, op, now).0, MemoryStep(n, op, now).0;
    forall t ensures LiveAccess(m', t, now) == LiveAccess(n', t, now) && LiveRefresh(m', t, now) == LiveRefresh(n', t, now) {
      assert LiveAccess(m, t, now) == LiveAccess(n, t, now) && LiveRefresh(m, t, now) == LiveRefresh(n, t, now);
    }
  }

  lemma LiveLater(m: Tokens, n: Tokens, now: int, later: int)
    requires SameLive(m, n, now) && now <= later
    ensures SameLive(m, n, later)
  {
    forall t ensures LiveAccess(m, t, later) == LiveAccess(n, t, later) {
      assert LiveAccess(m, t, now) == LiveAccess(n, t, now);
    }
    forall t ensures LiveRefresh(m, t, later) == LiveRefresh(n, t, later) {
      assert LiveRefresh(m, t, now) == LiveRefresh(n, t, now);
    }
  }

  lemma PurgeKeepsLive(m: Tokens, n: Tokens, now: int)
    requires SameLive(m, n, now)
    ensures SameLive(MemoryStep(m, Purge, now).0, n, now)
  {
    forall t ensures LiveAccess(MemoryStep(m, Purge, now).0, t, now) == LiveAccess(m, t, now) {}
    forall t ensures LiveRefresh(MemoryStep(m, Purge, now).0, t, now) == LiveRefresh(m, t, now) {}
  }

  lemma {:induction false} LiveAnswers(m: Tokens, n: Tokens, ops: seq<Timed>, since: int)
    requires SameLive(m, n, since) && Ordered(ops, since)
    ensures MemoryAnswers(m, ops) == AnswersWithoutPurges(n, ops)
    decreases |ops|
  {
    if ops != [] {
      var op, now := ops[0].op, ops[0].now;
      LiveLater(m, n, since, now);
      if op.Purge? {
        PurgeKeepsLive(m, n, now);
        LiveAnswers(MemoryStep(m, op, now).0, n, ops[1..], now);
      } else {
        LiveDecides(m, n, op, now);
        LiveAnswers(MemoryStep(m, op, now).0, MemoryStep(n, op, now).0, ops[1..], now);
      }
    }
  }

  /** However often and whenever expired tokens are purged, no answer changes. */
  lemma PurgesAreInvisible(m: Tokens, ops: seq<Timed>, since: int)
    requires Ordered(ops, since)
    ensures MemoryAnswers(m, ops) == AnswersWithoutPurges(m, ops)
  {
    LiveAnswers(m, m, ops, since);
  }

  /** Stores that agree on the live tokens cannot be told apart from then on. */
  lemma OnlyLiveTokensMatter(m: Tokens, n: Tokens, ops: seq<Timed>, since: int)
    requires Live(m, since) == Live(n, since) && Ordered(ops, since)
    ensures MemoryAnswers(m, ops) == MemoryAnswers(n, ops)
  {
    SameLiveMeans(m, n, since);
    LiveAnswers(m, n, ops, since);
    LiveAnswers(n, n, ops, since);
  }

  // ----- answers from the history alone -----

  /** A fresh store after the operations, in order. */
  function MemoryRun(ops: seq<Timed>): Tokens {
    if ops == [] then Tokens(map[], map[])
    else MemoryStep(MemoryRun(ops[..|ops|-1]), ops[|ops|-1].op, ops[|ops|-1].now).0
  }

  /** What was last granted under a refresh token: the latest addition, or the latest
      exchange that put it there, unless an exchange has used it up since. */
  function RefreshGrant(ops: seq<Timed>, t: string): Option<Refresh>
    decreases |ops|
  {
    if ops == [] then None
    else
      var rest, last := ops[..|ops|-1], ops[|ops|-1];
      match last.op
      case AddRefresh(token, client, scope, at) => if token == t then Some(Refresh(client, scope, at)) else RefreshGrant(rest, t)
      case ExchangeRefresh(used, client, newRefresh, _, _, at) =>
        var before := RefreshGrant(rest, used);
        if before.None? || before.value.clientID != client || before.value.expiresAt <= last.now then RefreshGrant(rest, t)
        else if newRefresh == t then Some(Refresh(client, before.value.scope, at))
        else if used == t then None
        else RefreshGrant(rest, t)
      case _ => RefreshGrant(rest, t)
  }

  /** What was last granted under an access token. */
  function AccessGrant(ops: seq<Timed>, t: string): Option<Access>
    decreases |ops|
  {
    if ops == [] then None
    else
      var rest, last := ops[..|ops|-1], ops[|ops|-1];
      match last.op
      case AddAccess(token, scope, principal, at) => if token == t then Some(Access(principal, scope, at)) else AccessGrant(rest, t)
      case ExchangeRefresh(used, client, _, newAccess, at, _) =>
        var before := RefreshGrant(rest, used);
        if before.None? || before.value.clientID != client || before.value.expiresAt <= last.now || newAccess != t then AccessGrant(rest, t)
        else Some(Access(client, before.value.scope, at))
      case _ => AccessGrant(rest, t)
  }

  function Unexpired(g: Option<Access>, now: int): Option<Access> {
    if g.Some? && now < g.value.expiresAt then g else None
  }

  function UnexpiredRefresh(g: Option<Refresh>, now: int): Option<Refresh> {
    if g.Some? && now < g.value.expiresAt then g else None
  }

  /** On a clock that does not run backwards, what is live in the store is what was
      granted and has not expired. */
  lemma {:induction false} GrantsAreLive(ops: seq<Timed>, since: int, now: int)
    requires Ordered(ops, since) && forall o <- ops :: o.now <= now
    ensures forall t :: LiveAccess(MemoryRun(ops), t, now) == Unexpired(AccessGrant(ops, t), now)
    ensures forall t :: LiveRefresh(MemoryRun(ops), t, now) == UnexpiredRefresh(RefreshGrant(ops, t), now)
    decreases |ops|
  {
    if ops != [] {
      var rest, last := ops[..|ops|-1], ops[|ops|-1];
      assert last in ops && forall o <- rest :: o in ops;
      forall o <- rest ensures o.now <= last.now {
        var i :| 0 <= i < |rest| && rest[i] == o;
        assert ops[i] == o;
      }
      GrantsAreLive(rest, since, last.now);
      GrantsAreLive(rest, since, now);
      forall t
        ensures LiveAccess(MemoryRun(ops), t, now) == Unexpired(AccessGrant(ops, t), now)
        ensures LiveRefresh(MemoryRun(ops), t, now) == UnexpiredRefresh(RefreshGrant(ops, t), now)
      {
        NextGrant(ops, now, t);
      }
    }
  }

  lemma NextGrant(ops: seq<Timed>, now: int, t: string)
    requires ops != [] && ops[|ops|-1].now <= now
    requires var rest, at := ops[..|ops|-1], ops[|ops|-1].now;
      && LiveAccess(MemoryRun(rest), t, now) == Unexpired(AccessGrant(rest, t), now)
      && (forall u :: LiveRefresh(MemoryRun(rest), u, now) == UnexpiredRefresh(RefreshGrant(rest, u), now))
      && (forall u :: LiveRefresh(MemoryRun(rest), u, at) == UnexpiredRefresh(RefreshGrant(rest, u), at))
    ensures LiveAccess(MemoryRun(ops), t, now) == Unexpired(AccessGrant(ops, t), now)
    ensures LiveRefresh(MemoryRun(ops), t, now) == UnexpiredRefresh(RefreshGrant(ops, t), now)
  {
    var rest, last := ops[..|ops|-1], ops[|ops|-1];
    assert LiveRefresh(MemoryRun(rest), t, now) == UnexpiredRefresh(RefreshGrant(rest, t), now);
    if last.op.ExchangeRefresh? {
      assert LiveRefresh(MemoryRun(rest), last.op.old_, last.now) == UnexpiredRefresh(RefreshGrant(rest, last.op.old_), last.now);
    }
  }

  /** So every answer can be read off the history of additions and exchanges: validation
      gives the scope that was granted, to its client, until it expires; an exchange gives
      the scope of the token it uses up. */
  lemma AnswersFollowGrants(ops: seq<Timed>, since: int, op: Op, now: int)
    requires Ordered(ops, since) && forall o <- ops :: o.now <= now
    ensures var answer := MemoryStep(MemoryRun(ops), op, now).1;
      && (op.ValidateAccess? ==>
            var g := AccessGrant(ops, op.token);
            answer == Scope(if g.Some? && now < g.value.expiresAt then Some(g.value.scope) else None))
      && (op.AccessDetails? ==>
            var g := AccessGrant(ops, op.token);
            answer == Details(if g.Some? && now < g.value.expiresAt then g else None))
      && (op.ValidateRefresh? ==>
            var g := RefreshGrant(ops, op.token);
            answer == Scope(if g.Some? && g.value.clientID == op.clientID && now < g.value.expiresAt then Some(g.value.scope) else None))
      && (op.ExchangeRefresh? ==>
            var g := RefreshGrant(ops, op.old_);
            answer == Scope(if g.Some? && g.value.clientID == op.clientID && now < g.value.expiresAt then Some(g.value.scope) else None))
  {
    GrantsAreLive(ops, since, now);
    var m := MemoryRun(ops);
    match op {
    case ValidateAccess(t) => assert LiveAccess(m, t, now) == Unexpired(AccessGrant(ops, t), now);
    case AccessDetails(t) => assert LiveAccess(m, t, now) == Unexpired(AccessGrant(ops, t), now);
    case ValidateRefresh(t, _) => assert LiveRefresh(m, t, now) == UnexpiredRefresh(RefreshGrant(ops, t), now);
    case ExchangeRefresh(t, _, _, _, _, _) => assert LiveRefresh(m, t, now) == UnexpiredRefresh(RefreshGrant(ops, t), now);
    case _ =>
    }
  }

  // ----- the JSON store with failing saves and restarts -----

  /** One call of the JSON store; before it the process may have been restarted, and its
      save may fail. */
  datatype Call = Call(op: Op, now: int, saveFails: bool, restarted: bool)

  /** The file can be loaded: no save has ever left anything else. */
  predicate Loadable(j: Json) { Load(j.file).Some? }

  function Reloaded(j: Json, c: Call): (j': Json)
    requires Loadable(j)
    ensures Loadable(j')
  {
    if c.restarted then Json(Load(j.file).value, j.file) else j
  }

  function CallStep(j: Json, c: Call): (r: (Json, Answer))
    requires Loadable(j)
    ensures Loadable(r.0)
  {
    JsonStep(Reloaded(j, c), c.op, c.now, c.saveFails)
  }

  function CallRun(j: Json, cs: seq<Call>): (j': Json)
    requires Loadable(j)
    ensures Loadable(j')
    decreases |cs|
  {
    if cs == [] then j else CallRun(CallStep(j, cs[0]).0, cs[1..])
  }

  /** The refresh token is neither in memory nor in the file. */
  predicate Gone(j: Json, t: string)
    requires Loadable(j)
  {
    t !in j.tokens.refresh && t !in Load(j.file).value.refresh
  }

  /** The call hands out `t` as a new refresh token. */
  predicate HandsOut(c: Call, t: string) {
    (c.op.AddRefresh? && c.op.token == t) || (c.op.ExchangeRefresh? && c.op.newRefresh == t)
  }

  lemma CallKeepsGone(j: Json, c: Call, t: string)
    requires Loadable(j) && Gone(j, t) && !HandsOut(c, t)
    ensures Gone(CallStep(j, c).0, t)
    ensures c.op.ExchangeRefresh? && c.op.old_ == t ==> CallStep(j, c).1 == Scope(None)
  {
    var j0 := Reloaded(j, c);
    assert t !in j0.tokens.refresh && t !in Load(j0.file).value.refresh;
    var t1 := MemoryStep(j0.tokens, InSeconds(c.op), Unix(c.now)).0;
    assert t !in t1.refresh;
    SavedLoads(t1);
  }

  lemma {:induction false} RunKeepsGone(j: Json, cs: seq<Call>, t: string)
    requires Loadable(j) && Gone(j, t) && forall c <- cs :: !HandsOut(c, t)
    ensures Gone(CallRun(j, cs), t)
    decreases |cs|
  {
    if cs != [] {
      assert cs[0] in cs && forall c <- cs[1..] :: c in cs;
      CallKeepsGone(j, cs[0], t);
      RunKeepsGone(CallStep(j, cs[0]).0, cs[1..], t);
    }
  }

  /** An exchange that answers has removed its token from memory and from the file. */
  lemma ExchangeRemoves(j: Json, c: Call)
    requires Loadable(j) && c.op.ExchangeRefresh? && c.op.newRefresh != c.op.old_
    requires CallStep(j, c).1.Scope? && CallStep(j, c).1.scope.Some?
    ensures Gone(CallStep(j, c).0, c.op.old_)
  {
    SavedLoads(CallStep(j, c).0.tokens);
  }

  /** A refresh token that was exchanged once is refused ever after, whatever calls, failing
      saves and restarts come in between, as long as it is not handed out anew. */
  lemma JsonRefreshOnce(j: Json, first: Call, cs: seq<Call>, again: Call)
    requires Loadable(j) && first.op.ExchangeRefresh? && again.op.ExchangeRefresh? && first.op.old_ == again.op.old_
    requires CallStep(j, first).1.Scope? && CallStep(j, first).1.scope.Some?
    requires !HandsOut(first, first.op.old_) && !HandsOut(again, again.op.old_)
    requires forall c <- cs :: !HandsOut(c, first.op.old_)
    ensures CallStep(CallRun(CallStep(j, first).0, cs), again).1 == Scope(None)
  {
    ExchangeRemoves(j, first);
    RunKeepsGone(CallStep(j, first).0, cs, first.op.old_);
    CallKeepsGone(CallRun(CallStep(j, first).0, cs), again, again.op.old_);
  }
}
