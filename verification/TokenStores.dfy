/** The two token back ends: the in-memory store and the store that rewrites a JSON
    file after every change. */
module TokenStores {
  import opened Common

  /** Times are in nanoseconds; the JSON file keeps whole seconds. */
  const SECOND := 1_000_000_000

  datatype Access = Access(principal: string, scope: string, expiresAt: int)
  datatype Refresh = Refresh(clientID: string, scope: string, expiresAt: int)

  type AccessMap = map<string, Access>
  type RefreshMap = map<string, Refresh>

  datatype Tokens = Tokens(access: AccessMap, refresh: RefreshMap)

  datatype Op =
    | AddAccess(token: string, scope: string, principal: string, expiresAt: int)
    | AddRefresh(token: string, clientID: string, scope: string, expiresAt: int)
    | ValidateAccess(token: string)
    | AccessDetails(token: string)
    | ValidateRefresh(token: string, clientID: string)
    | ExchangeRefresh(old_: string, clientID: string, newRefresh: string, newAccess: string, accessExpiresAt: int, refreshExpiresAt: int)
    | Purge

  datatype Answer =
    | Stored
    | Scope(scope: Option<string>)
    | Details(details: Option<Access>)
    | SaveError

  // ----- the memory store on values -----

  function MemoryExchange(m: Tokens, op: Op, now: int): (Tokens, Answer)
    requires op.ExchangeRefresh?
  {
    if op.old_ !in m.refresh then (m, Scope(None))
    else
      var e := m.refresh[op.old_];
      if e.clientID != op.clientID || now >= e.expiresAt then (m, Scope(None))
      else
        (Tokens(m.access[op.newAccess := Access(op.clientID, e.scope, op.accessExpiresAt)],
                (m.refresh - {op.old_})[op.newRefresh := Refresh(op.clientID, e.scope, op.refreshExpiresAt)]),
         Scope(Some(e.scope)))
  }

  function MemoryStep(m: Tokens, op: Op, now: int): (Tokens, Answer) {
    match op
    case AddAccess(t, scope, principal, at) => (m.(access := m.access[t := Access(principal, scope, at)]), Stored)
    case AddRefresh(t, client, scope, at) => (m.(refresh := m.refresh[t := Refresh(client, scope, at)]), Stored)
    case ValidateAccess(t) => (m, Scope(if t in m.access && now < m.access[t].expiresAt then Some(m.access[t].scope) else None))
    case AccessDetails(t) => (m, Details(if t in m.access && now < m.access[t].expiresAt then Some(m.access[t]) else None))
    case ValidateRefresh(t, client) =>
      (m, Scope(if t in m.refresh && m.refresh[t].clientID == client && now < m.refresh[t].expiresAt
                then Some(m.refresh[t].scope) else None))
    case ExchangeRefresh(_, _, _, _, _, _) => MemoryExchange(m, op, now)
    case Purge => (Tokens(map t | t in m.access && now < m.access[t].expiresAt :: m.access[t],
                          map t | t in m.refresh && now < m.refresh[t].expiresAt :: m.refresh[t]), Stored)
  }

  // ----- the JSON store on values -----

  function Unix(at: int): int { at / SECOND }

  /** The file: the current layout, the old bare map, or something unreadable. An empty
      refresh map is not written. */
  datatype File = Missing | EmptyFile | Current(access: AccessMap, refresh: Option<RefreshMap>) | Legacy(access: AccessMap) | Corrupt

  datatype Json = Json(tokens: Tokens, file: File)

  function Saved(t: Tokens): File {
    Current(t.access, if t.refresh == map[] then None else Some(t.refresh))
  }

  /** What NewJSON starts with; None is a load error. */
  function Load(f: File): Option<Tokens> {
    match f
    case Missing => Some(Tokens(map[], map[]))
    case EmptyFile => Some(Tokens(map[], map[]))
    case Current(a, r) => Some(Tokens(a, if r.Some? then r.value else map[]))
    case Legacy(a) => Some(Tokens(a, map[]))
    case Corrupt => None
  }

  /** The same operation with its expiry times cut to seconds. */
  function InSeconds(op: Op): Op {
    match op
    case AddAccess(t, s, p, at) => AddAccess(t, s, p, Unix(at))
    case AddRefresh(t, c, s, at) => AddRefresh(t, c, s, Unix(at))
    case ExchangeRefresh(o, c, r, a, aAt, rAt) => ExchangeRefresh(o, c, r, a, Unix(aAt), Unix(rAt))
    case _ => op
  }

  /** Additions and purges change memory before saving; an exchange saves first. */
  function JsonStep(j: Json, op: Op, now: int, saveFails: bool): (Json, Answer) {
    var (t, answer) := MemoryStep(j.tokens, InSeconds(op), Unix(now));
    match op
    case AddAccess(_, _, _, _) => if saveFails then (Json(t, j.file), SaveError) else (Json(t, Saved(t)), answer)
    case AddRefresh(_, _, _, _) => if saveFails then (Json(t, j.file), SaveError) else (Json(t, Saved(t)), answer)
    case Purge => if saveFails then (Json(t, j.file), SaveError) else (Json(t, Saved(t)), answer)
    case ExchangeRefresh(_, _, _, _, _, _) =>
      if answer == Scope(None) then (j, answer)
      else if saveFails then (j, SaveError)
      else (Json(t, Saved(t)), answer)
    case AccessDetails(_) =>
      (j, Details(if answer.details.Some? then Some(answer.details.value.(expiresAt := answer.details.value.expiresAt * SECOND)) else None))
    case _ => (j, answer)
  }

  // ----- the stores -----

  class MemoryStore {
    var tokens: AccessMap
    var refreshTokens: RefreshMap

    ghost function Model(): Tokens
      reads this
    {
      Tokens(tokens, refreshTokens)
    }

    constructor ()
      ensures Model() == Tokens(map[], map[])
    {
      tokens, refreshTokens := map[], map[];
    }

    method AddAccessToken(token: string, scope: string, principal: string, expiresAt: int, now: int)
      modifies this`tokens
      ensures Model() == MemoryStep(old(Model()), AddAccess(token, scope, principal, expiresAt), now).0
    {
      tokens := tokens[token := Access(principal, scope, expiresAt)];
    }

    method AddRefreshToken(token: string, clientID: string, scope: string, expiresAt: int, now: int)
      modifies this`refreshTokens
      ensures Model() == MemoryStep(old(Model()), AddRefresh(token, clientID, scope, expiresAt), now).0
    {
      refreshTokens := refreshTokens[token := Refresh(clientID, scope, expiresAt)];
    }

    method ExchangeRefreshToken(old_: string, clientID: string, newRefresh: string, newAccess: string,
                                accessExpiresAt: int, refreshExpiresAt: int, now: int)
      returns (scope: Option<string>)
      modifies this
      ensures (Model(), Scope(scope))
        == MemoryStep(old(Model()), ExchangeRefresh(old_, clientID, newRefresh, newAccess, accessExpiresAt, refreshExpiresAt), now)
    {
      if old_ !in refreshTokens || refreshTokens[old_].clientID != clientID || !(now < refreshTokens[old_].expiresAt) {
        return None;
      }
      var e := refreshTokens[old_];
      refreshTokens := refreshTokens - {old_};
      tokens := tokens[newAccess := Access(clientID, e.scope, accessExpiresAt)];
      refreshTokens := refreshTokens[newRefresh := Refresh(clientID, e.scope, refreshExpiresAt)];
      return Some(e.scope);
    }

    method ValidateAccessToken(token: string, now: int) returns (scope: Option<string>)
      ensures (Model(), Scope(scope)) == MemoryStep(Model(), ValidateAccess(token), now)
    {
      if token !in tokens || !(now < tokens[token].expiresAt) {
        return None;
      }
      return Some(tokens[token].scope);
    }

    method ValidateAccessTokenDetails(token: string, now: int) returns (details: Option<Access>)
      ensures (Model(), Details(details)) == MemoryStep(Model(), AccessDetails(token), now)
    {
      if token !in tokens || !(now < tokens[token].expiresAt) {
        return None;
      }
      return Some(tokens[token]);
    }

    method ValidateRefreshToken(token: string, clientID: string, now: int) returns (scope: Option<string>)
      ensures (Model(), Scope(scope)) == MemoryStep(Model(), ValidateRefresh(token, clientID), now)
    {
      if token !in refreshTokens || refreshTokens[token].clientID != clientID || !(now < refreshTokens[token].expiresAt) {
        return None;
      }
      return Some(refreshTokens[token].scope);
    }

    method PurgeExpiredTokens(now: int)
      modifies this
      ensures Model() == MemoryStep(old(Model()), Purge, now).0
    {
      tokens := DropExpired(tokens, (t: Access) => t.expiresAt, now);
      refreshTokens := DropExpired(refreshTokens, (t: Refresh) => t.expiresAt, now);
    }
  }

  /** The deletion loops of both stores, over either map. */
  method DropExpired<V>(m: map<string, V>, expiry: V -> int, now: int) returns (r: map<string, V>)
    ensures r == map t | t in m && now < expiry(m[t]) :: m[t]
  {
    r := m;
    var left := m.Keys;
    while left != {}
      invariant left <= m.Keys
      invariant r == map t | t in m && (t in left || now < expiry(m[t])) :: m[t]
    {
      var t :| t in left;
      left := left - {t};
      if !(now < expiry(m[t])) {
        r := r - {t};
      }
    }
  }

  /** The copy loops of ExchangeRefreshToken. */
  method Copy<V>(m: map<string, V>) returns (r: map<string, V>)
    ensures r == m
  {
    r := map[];
    var left := m.Keys;
    while left != {}
      invariant left <= m.Keys && r.Keys == m.Keys - left
      invariant forall k <- r :: r[k] == m[k]
    {
      var k :| k in left;
      left := left - {k};
      r := r[k := m[k]];
    }
  }

  class JsonStore {
    var tokens: AccessMap
    var refreshTokens: RefreshMap
    var file: File

    ghost function Model(): Json
      reads this
    {
      Json(Tokens(tokens, refreshTokens), file)
    }

    constructor (initial: File)
      requires Load(initial).Some?
      ensures Model() == Json(Load(initial).value, initial)
    {
      var t := Load(initial).value;
      tokens, refreshTokens, file := t.access, t.refresh, initial;
    }

    /** Write a temporary file and rename it over the old one, or leave the old one. */
    method SaveState(t: Tokens, fails: bool) returns (ok: bool)
      modifies this`file
      ensures ok == !fails
      ensures file == if ok then Saved(t) else old(file)
    {
      if fails {
        return false;
      }
      file := Saved(t);
      return true;
    }

    method AddAccessToken(token: string, scope: string, principal: string, expiresAt: int, now: int, saveFails: bool)
      returns (answer: Answer)
      modifies this
      ensures (Model(), answer) == JsonStep(old(Model()), AddAccess(token, scope, principal, expiresAt), now, saveFails)
    {
      tokens := tokens[token := Access(principal, scope, Unix(expiresAt))];
      var ok := SaveState(Tokens(tokens, refreshTokens), saveFails);
      answer := if ok then Stored else SaveError;
    }

    method AddRefreshToken(token: string, clientID: string, scope: string, expiresAt: int, now: int, saveFails: bool)
      returns (answer: Answer)
      modifies this
      ensures (Model(), answer) == JsonStep(old(Model()), AddRefresh(token, clientID, scope, expiresAt), now, saveFails)
    {
      refreshTokens := refreshTokens[token := Refresh(clientID, scope, Unix(expiresAt))];
      var ok := SaveState(Tokens(tokens, refreshTokens), saveFails);
      answer := if ok then Stored else SaveError;
    }

    method ExchangeRefreshToken(old_: string, clientID: string, newRefresh: string, newAccess: string,
                                accessExpiresAt: int, refreshExpiresAt: int, now: int, saveFails: bool)
      returns (answer: Answer)
      modifies this
      ensures (Model(), answer) == JsonStep(old(Model()),
        ExchangeRefresh(old_, clientID, newRefresh, newAccess, accessExpiresAt, refreshExpiresAt), now, saveFails)
    {
      if old_ !in refreshTokens || refreshTokens[old_].clientID != clientID || Unix(now) >= refreshTokens[old_].expiresAt {
        return Scope(None);
      }
      var e := refreshTokens[old_];
      var nextTokens := Copy(tokens);
      var nextRefresh := Copy(refreshTokens);
      nextRefresh := nextRefresh - {old_};
      nextTokens := nextTokens[newAccess := Access(clientID, e.scope, Unix(accessExpiresAt))];
      nextRefresh := nextRefresh[newRefresh := Refresh(clientID, e.scope, Unix(refreshExpiresAt))];
      var ok := SaveState(Tokens(nextTokens, nextRefresh), saveFails);
      if !ok {
        return SaveError;
      }
      tokens, refreshTokens := nextTokens, nextRefresh;
      return Scope(Some(e.scope));
    }

    method PurgeExpiredTokens(now: int, saveFails: bool) returns (answer: Answer)
      modifies this
      ensures (Model(), answer) == JsonStep(old(Model()), Purge, now, saveFails)
    {
      tokens := DropExpired(tokens, (t: Access) => t.expiresAt, Unix(now));
      refreshTokens := DropExpired(refreshTokens, (t: Refresh) => t.expiresAt, Unix(now));
      assert Tokens(tokens, refreshTokens) == MemoryStep(old(Model()).tokens, Purge, Unix(now)).0;
      var ok := SaveState(Tokens(tokens, refreshTokens), saveFails);
      answer := if ok then Stored else SaveError;
    }

    method ValidateAccessToken(token: string, now: int) returns (scope: Option<string>)
      ensures (Model(), Scope(scope)) == JsonStep(Model(), ValidateAccess(token), now, false)
    {
      if token !in tokens || Unix(now) >= tokens[token].expiresAt {
        return None;
      }
      return Some(tokens[token].scope);
    }

    method ValidateAccessTokenDetails(token: string, now: int) returns (details: Option<Access>)
      ensures (Model(), Details(details)) == JsonStep(Model(), AccessDetails(token), now, false)
    {
      if token !in tokens || Unix(now) >= tokens[token].expiresAt {
        return None;
      }
      var e := tokens[token];
      return Some(Access(e.principal, e.scope, e.expiresAt * SECOND));
    }

    method ValidateRefreshToken(token: string, clientID: string, now: int) returns (scope: Option<string>)
      ensures (Model(), Scope(scope)) == JsonStep(Model(), ValidateRefresh(token, clientID), now, false)
    {
      if token !in refreshTokens || refreshTokens[token].clientID != clientID || Unix(now) >= refreshTokens[token].expiresAt {
        return None;
      }
      return Some(refreshTokens[token].scope);
    }
  }

  // ----- the JSON store simulates the memory store -----

  predicate Whole(at: int) { at % SECOND == 0 }

  predicate WholeOp(op: Op) {
    match op
    case AddAccess(_, _, _, at) => Whole(at)
    case AddRefresh(_, _, _, at) => Whole(at)
    case ExchangeRefresh(_, _, _, _, a, r) => Whole(a) && Whole(r)
    case _ => true
  }

  /** The two expiry tests differ exactly when the expiry lies ahead within the current
      second; an expiry on a whole second never does. */
  lemma ExpiryTestsAgree(now: int, expiresAt: int)
    ensures (now < expiresAt <==> Unix(now) < Unix(expiresAt)) <==> !(now < expiresAt && Unix(now) == Unix(expiresAt))
    ensures Whole(expiresAt) ==> (now < expiresAt <==> Unix(now) < Unix(expiresAt))
  {
    assert now == Unix(now) * SECOND + now % SECOND;
    assert expiresAt == Unix(expiresAt) * SECOND + expiresAt % SECOND;
  }

  function CutAccess(m: AccessMap): AccessMap {
    map t | t in m :: m[t].(expiresAt := Unix(m[t].expiresAt))
  }

  function CutRefresh(m: RefreshMap): RefreshMap {
    map t | t in m :: m[t].(expiresAt := Unix(m[t].expiresAt))
  }

  function Cut(m: Tokens): Tokens { Tokens(CutAccess(m.access), CutRefresh(m.refresh)) }

  predicate WholeTokens(m: Tokens) {
    && (forall t <- m.access :: Whole(m.access[t].expiresAt))
    && (forall t <- m.refresh :: Whole(m.refresh[t].expiresAt))
  }

  /** An answer as the JSON store's maps know it. */
  function CutAnswer(a: Answer): Answer {
    if a.Details? && a.details.Some? then Details(Some(a.details.value.(expiresAt := Unix(a.details.value.expiresAt)))) else a
  }

  lemma CutUpdates(m: Tokens, t: string, a: Access, r: Refresh)
    ensures CutAccess(m.access[t := a]) == CutAccess(m.access)[t := a.(expiresAt := Unix(a.expiresAt))]
    ensures CutRefresh(m.refresh[t := r]) == CutRefresh(m.refresh)[t := r.(expiresAt := Unix(r.expiresAt))]
    ensures CutRefresh(m.refresh - {t}) == CutRefresh(m.refresh) - {t}
  {
  }

  lemma ExchangeCommutes(m: Tokens, op: Op, now: int)
    requires WholeTokens(m) && WholeOp(op) && op.ExchangeRefresh?
    ensures var (m', a) := MemoryExchange(m, op, now);
      MemoryExchange(Cut(m), InSeconds(op), Unix(now)) == (Cut(m'), a) && WholeTokens(m')
  {
    if op.old_ in m.refresh {
      var e := m.refresh[op.old_];
      ExpiryTestsAgree(now, e.expiresAt);
      var a, r := Access(op.clientID, e.scope, op.accessExpiresAt), Refresh(op.clientID, e.scope, op.refreshExpiresAt);
      CutUpdates(m, op.newAccess, a, r);
      CutUpdates(m, op.old_, a, r);
      CutUpdates(Tokens(m.access, m.refresh - {op.old_}), op.newRefresh, a, r);
    }
  }

  lemma PurgeCommutes(m: Tokens, now: int)
    requires WholeTokens(m)
    ensures var m' := MemoryStep(m, Purge, now).0;
      MemoryStep(Cut(m), Purge, Unix(now)).0 == Cut(m') && WholeTokens(m')
  {
    forall t <- m.access ensures now < m.access[t].expiresAt <==> Unix(now) < Unix(m.access[t].expiresAt) {
      ExpiryTestsAgree(now, m.access[t].expiresAt);
    }
    forall t <- m.refresh ensures now < m.refresh[t].expiresAt <==> Unix(now) < Unix(m.refresh[t].expiresAt) {
      ExpiryTestsAgree(now, m.refresh[t].expiresAt);
    }
    var m' := MemoryStep(m, Purge, now).0;
    assert MemoryStep(Cut(m), Purge, Unix(now)).0.access == CutAccess(m'.access);
    assert MemoryStep(Cut(m), Purge, Unix(now)).0.refresh == CutRefresh(m'.refresh);
  }

  /** Cutting times to seconds commutes with every operation. */
  lemma StepCommutes(m: Tokens, op: Op, now: int)
    requires WholeTokens(m) && WholeOp(op)
    ensures var (m', a) := MemoryStep(m, op, now);
      MemoryStep(Cut(m), InSeconds(op), Unix(now)) == (Cut(m'), CutAnswer(a)) && WholeTokens(m')
  {
    match op
    case AddAccess(t, s, p, at) => CutUpdates(m, t, Access(p, s, at), Refresh("", "", 0));
    case AddRefresh(t, c, s, at) => CutUpdates(m, t, Access("", "", 0), Refresh(c, s, at));
    case ValidateAccess(t) => if t in m.access { ExpiryTestsAgree(now, m.access[t].expiresAt); }
    case AccessDetails(t) => if t in m.access { ExpiryTestsAgree(now, m.access[t].expiresAt); }
    case ValidateRefresh(t, _) => if t in m.refresh { ExpiryTestsAgree(now, m.refresh[t].expiresAt); }
    case ExchangeRefresh(_, _, _, _, _, _) => ExchangeCommutes(m, op, now);
    case Purge => PurgeCommutes(m, now);
  }

  /** The JSON maps are the memory maps in seconds, and the file holds the JSON maps. */
  ghost predicate Simulates(m: Tokens, j: Json) {
    WholeTokens(m) && j.tokens == Cut(m) && Load(j.file) == Some(j.tokens)
  }

  lemma StepSimulates(m: Tokens, j: Json, op: Op, now: int)
    requires Simulates(m, j) && WholeOp(op)
    ensures var (m', a) := MemoryStep(m, op, now);
      var (j', b) := JsonStep(j, op, now, false);
      a == b && Simulates(m', j')
  {
    StepCommutes(m, op, now);
    SavedLoads(Cut(MemoryStep(m, op, now).0));
    if op.AccessDetails? && op.token in m.access {
      assert Unix(m.access[op.token].expiresAt) * SECOND == m.access[op.token].expiresAt;
    }
  }

  datatype Timed = Timed(op: Op, now: int)

  function MemoryAnswers(m: Tokens, ops: seq<Timed>): seq<Answer>
    decreases |ops|
  {
    if ops == [] then []
    else
      var (m', a) := MemoryStep(m, ops[0].op, ops[0].now);
      [a] + MemoryAnswers(m', ops[1..])
  }

  /** With restarts: before any operation the store may be loaded again from its file. */
  function JsonAnswers(j: Json, ops: seq<Timed>, restarts: set<nat>): seq<Answer>
    requires Load(j.file) == Some(j.tokens)
    decreases |ops|
  {
    if ops == [] then []
    else
      var j0 := if |ops| in restarts then Json(Load(j.file).value, j.file) else j;
      var (j', a) := JsonStep(j0, ops[0].op, ops[0].now, false);
      SavedLoads(j'.tokens);
      [a] + JsonAnswers(j', ops[1..], restarts)
  }

  /** Loading what was saved restores the same maps, the empty refresh map included. */
  lemma SavedLoads(t: Tokens)
    ensures Load(Saved(t)) == Some(t)
  {
  }

  /** Whatever the operations, with expiries on whole seconds and saves that succeed,
      both stores give the same answers, even when the JSON store is restarted at any
      points in between. */
  lemma {:induction false} SameAnswers(m: Tokens, j: Json, ops: seq<Timed>, restarts: set<nat>)
    requires Simulates(m, j) && forall o <- ops :: WholeOp(o.op)
    ensures JsonAnswers(j, ops, restarts) == MemoryAnswers(m, ops)
    decreases |ops|
  {
    if ops != [] {
      assert ops[0] in ops && forall o <- ops[1..] :: o in ops;
      StepSimulates(m, j, ops[0].op, ops[0].now);
      SameAnswers(MemoryStep(m, ops[0].op, ops[0].now).0, JsonStep(j, ops[0].op, ops[0].now, false).0, ops[1..], restarts);
    }
  }

  /** The JSON store counts in seconds: what it stores under a new token is valid until
      the second of its expiry begins, and that second is what it reports. */
  lemma JsonExpiresBySecond(j: Json, token: string, scope: string, owner: string, at: int, added: int, now: int, fails: bool)
    ensures var j1 := JsonStep(j, AddAccess(token, scope, owner, at), added, fails).0;
      var valid := now / 1_000_000_000 < at / 1_000_000_000;
      && JsonStep(j1, ValidateAccess(token), now, false).1 == Scope(if valid then Some(scope) else None)
      && JsonStep(j1, AccessDetails(token), now, false).1
           == Details(if valid then Some(Access(owner, scope, at / 1_000_000_000 * 1_000_000_000)) else None)
    ensures var j1 := JsonStep(j, AddRefresh(token, owner, scope, at), added, fails).0;
      forall client :: JsonStep(j1, ValidateRefresh(token, client), now, false).1
        == Scope(if client == owner && now / 1_000_000_000 < at / 1_000_000_000 then Some(scope) else None)
  {
  }

  /** Files of every layout ever written load, and nothing else does: the current one with
      or without refresh tokens, the old bare map, an empty file, no file. */
  lemma LayoutsLoad(access: AccessMap, refresh: RefreshMap, f: File)
    ensures Load(Current(access, Some(refresh))) == Some(Tokens(access, refresh))
    ensures Load(Current(access, None)) == Load(Legacy(access)) == Some(Tokens(access, map[]))
    ensures Load(Missing) == Load(EmptyFile) == Some(Tokens(map[], map[]))
    ensures Load(f) == None <==> f == Corrupt
  {
  }

  /** A failing save is reported by every addition and purge, and by an exchange exactly
      when it would have gone through. */
  lemma SaveErrorExactly(j: Json, op: Op, now: int)
    ensures JsonStep(j, op, now, true).1 == SaveError <==>
      || op.AddAccess? || op.AddRefresh? || op.Purge?
      || (op.ExchangeRefresh? && op.old_ in j.tokens.refresh && j.tokens.refresh[op.old_].clientID == op.clientID
          && now / 1_000_000_000 < j.tokens.refresh[op.old_].expiresAt)
  {
  }

  /** A failed save inside an exchange changes neither memory nor file; inside an
      addition it leaves memory ahead of the file, so that a restart forgets. */
  lemma FailedSave(j: Json, op: Op, now: int)
    requires Load(j.file) == Some(j.tokens) && JsonStep(j, op, now, true).1 == SaveError
    ensures JsonStep(j, op, now, true).0.file == j.file
    ensures op.ExchangeRefresh? ==> JsonStep(j, op, now, true).0 == j
    ensures !op.ExchangeRefresh? ==> JsonStep(j, op, now, true).0.tokens == MemoryStep(j.tokens, InSeconds(op), Unix(now)).0
  {
  }
}
