/** Preview sessions as values: what one critical section does to an entry, and what
    every interleaving of such sections keeps. */
module PreviewSessions {
  import opened Common

  /** The mutable part of a preview entry and the secrets it is compared with. */
  datatype Session = Session(token: string, cookie: string, activated: bool, expiresAt: int)

  /** EstablishSession on a registered entry; `random` is what the random source would
      yield, None when it fails. */
  function Exchange(s: Session, token: string, now: int, random: Option<string>): (Session, Option<string>) {
    if now > s.expiresAt || token != s.token || (s.cookie != "" && s.activated) then (s, None)
    else if s.cookie != "" then (s, Some(s.cookie))
    else if random.None? then (s, None)
    else (s.(cookie := random.value), Some(random.value))
  }

  /** First section of GetBySession: does the stored cookie match? */
  predicate CookieMatches(s: Session, cookie: string, now: int) {
    now <= s.expiresAt && cookie == s.cookie
  }

  // ----- interleavings -----

  /** The second section of GetBySession runs later, under its own lock, whatever has
      happened in between; the entry may even have left the store. */
  datatype Act =
    | DoExchange(token: string, now: int, random: Option<string>)
    | Fetch(thread: nat, cookie: string, now: int)
    | Activate(thread: nat)
    | Remove

  datatype Machine = Machine(session: Session, live: bool, matched: set<nat>)

  function Step(m: Machine, a: Act): (Machine, Option<string>) {
    match a
    case DoExchange(token, now, random) =>
      if !m.live then (m, None)
      else
        var (s, r) := Exchange(m.session, token, now, random);
        (m.(session := s), r)
    case Fetch(t, cookie, now) =>
      (if m.live && CookieMatches(m.session, cookie, now) then m.(matched := m.matched + {t}) else m, None)
    case Activate(t) =>
      (if t in m.matched then m.(matched := m.matched - {t}, session := m.session.(activated := true)) else m, None)
    case Remove => (m.(live := false), None)
  }

  function Run(m: Machine, acts: seq<Act>): Machine
    decreases |acts|
  {
    if acts == [] then m else Run(Step(m, acts[0]).0, acts[1..])
  }

  /** The answer of act `k`. */
  function Answer(m: Machine, acts: seq<Act>, k: nat): Option<string>
    requires k < |acts|
  {
    Step(Run(m, acts[..k]), acts[k]).1
  }

  /** No empty secrets are generated or presented. */
  predicate Nonempty(a: Act) {
    match a
    case DoExchange(_, _, random) => random.Some? ==> random.value != ""
    case Fetch(_, cookie, _) => cookie != ""
    case _ => true
  }

  /** Activation and pending activations presuppose a session. */
  predicate Consistent(m: Machine) {
    m.session.activated || m.matched != {} ==> m.session.cookie != ""
  }

  lemma StepKeeps(m: Machine, a: Act)
    requires Consistent(m) && Nonempty(a)
    ensures var (m', r) := Step(m, a);
      && Consistent(m')
      && (m.session.cookie != "" ==> m'.session.cookie == m.session.cookie)
      && (m.session.activated ==> m'.session.activated && r.None?)
      && (r.Some? ==> r.value == m'.session.cookie && r.value != "")
      && (a.Activate? && a.thread in m.matched ==> m'.session.activated)
  {
  }

  lemma {:induction false} RunKeeps(m: Machine, acts: seq<Act>)
    requires Consistent(m) && forall a <- acts :: Nonempty(a)
    ensures var m' := Run(m, acts);
      && Consistent(m')
      && (m.session.cookie != "" ==> m'.session.cookie == m.session.cookie)
      && (m.session.activated ==> m'.session.activated)
    decreases |acts|
  {
    if acts != [] {
      assert acts[0] in acts && forall a <- acts[1..] :: a in acts;
      StepKeeps(m, acts[0]);
      RunKeeps(Step(m, acts[0]).0, acts[1..]);
    }
  }

  lemma {:induction false} RunSplit(m: Machine, xs: seq<Act>, ys: seq<Act>)
    ensures Run(m, xs + ys) == Run(Run(m, xs), ys)
    decreases |xs|
  {
    if xs == [] {
      assert xs + ys == ys;
    } else {
      RunSplit(Step(m, xs[0]).0, xs[1..], ys);
      assert (xs + ys)[1..] == xs[1..] + ys;
    }
  }

  /** What happens from act `i` on is a run from the state act `i` left. */
  lemma RunBetween(m: Machine, acts: seq<Act>, i: nat, j: nat)
    requires i < j <= |acts|
    ensures Run(m, acts[..j]) == Run(Step(Run(m, acts[..i]), acts[i]).0, acts[i+1..j])
  {
    assert acts[..j] == acts[..i] + ([acts[i]] + acts[i+1..j]);
    RunSplit(m, acts[..i], [acts[i]] + acts[i+1..j]);
    assert ([acts[i]] + acts[i+1..j])[1..] == acts[i+1..j];
  }

  /** In every interleaving all successful exchanges hand out one and the same cookie. */
  lemma OneSession(m: Machine, acts: seq<Act>, i: nat, j: nat)
    requires Consistent(m) && forall a <- acts :: Nonempty(a)
    requires i < j < |acts| && Answer(m, acts, i).Some? && Answer(m, acts, j).Some?
    ensures Answer(m, acts, i) == Answer(m, acts, j)
  {
    RunKeeps(m, acts[..i]);
    RunBetween(m, acts, i, j);
    StepKeeps(Run(m, acts[..i]), acts[i]);
    var after := Step(Run(m, acts[..i]), acts[i]).0;
    RunKeeps(after, acts[i+1..j]);
    StepKeeps(Run(m, acts[..j]), acts[j]);
  }

  /** Once a matched fetch has activated the session, no exchange succeeds any more. */
  lemma SpentAfterActivation(m: Machine, acts: seq<Act>, i: nat, j: nat)
    requires Consistent(m) && forall a <- acts :: Nonempty(a)
    requires i < j < |acts| && acts[i].Activate? && acts[i].thread in Run(m, acts[..i]).matched
    ensures Answer(m, acts, j).None?
  {
    RunKeeps(m, acts[..i]);
    RunBetween(m, acts, i, j);
    StepKeeps(Run(m, acts[..i]), acts[i]);
    RunKeeps(Step(Run(m, acts[..i]), acts[i]).0, acts[i+1..j]);
    StepKeeps(Run(m, acts[..j]), acts[j]);
  }

  /** Only an unexchanged entry can be activated and still exchanged: for an activated
      entry, some exchange succeeds exactly when no cookie was ever set. */
  lemma SpentExactlyWithCookie(s: Session)
    requires s.activated
    ensures (exists token, now, random :: Exchange(s, token, now, random).1.Some?) <==> s.cookie == ""
  {
    if s.cookie == "" {
      assert Exchange(s, s.token, s.expiresAt, Some("c")).1.Some?;
    }
  }

  /** Called directly, GetBySession takes the empty cookie for that of an entry nobody has
      exchanged yet: the entry is activated, the next exchange still succeeds, and the one
      after it is refused. The handler rules this call out, see HandlerPresentsSecrets. */
  lemma EmptyCookieActivates()
    ensures var m := Machine(Session("t", "", false, 9), true, {});
      var acts := [Fetch(0, "", 0), Activate(0), DoExchange("t", 0, Some("c")), DoExchange("t", 0, Some("d"))];
      Answer(m, acts, 2) == Some("c") && Answer(m, acts, 3) == None
  {
    var m := Machine(Session("t", "", false, 9), true, {});
    var acts := [Fetch(0, "", 0), Activate(0), DoExchange("t", 0, Some("c")), DoExchange("t", 0, Some("d"))];
    var m1 := Machine(Session("t", "", false, 9), true, {0});
    var m2 := Machine(Session("t", "", true, 9), true, {});
    assert Step(m, acts[0]).0 == m1 && Step(m1, acts[1]).0 == m2;
    assert acts[..2] == [acts[0], acts[1]];
    assert [acts[0], acts[1]][1..] == [acts[1]] && [acts[1]][1..] == [];
    assert Run(m1, [acts[1]]) == m2;
    assert Run(m, acts[..2]) == m2;
    assert acts[..3] == acts[..2] + [acts[2]];
    RunSplit(m, acts[..2], [acts[2]]);
    assert [acts[2]][1..] == [];
    assert Run(m2, [acts[2]]) == Step(m2, acts[2]).0;
  }

  /** An entry restored after a restart carries no secrets: called directly, only the empty
      token and the empty cookie open it, and the handler presents neither. */
  lemma RecoveredIsClosed(s: Session, secret: string, now: int, random: Option<string>)
    requires s.token == "" && s.cookie == "" && !s.activated && random.Some? && now <= s.expiresAt
    ensures Exchange(s, secret, now, random).1.Some? <==> secret == ""
    ensures CookieMatches(s, secret, now) <==> secret == ""
  {
  }

  // ----- the handler -----

  /** A preview request: the cookie it carries, and the path segment behind the id, empty
      when there is none. */
  datatype Request = Request(cookie: Option<string>, segment: string)

  /** How far a request has got: its cookie is yet to be looked at, has matched, or has
      not; afterwards it is done. */
  datatype Phase = Arrived(request: Request) | Matched | Missed(request: Request) | Done

  datatype Event =
    | Arrive(thread: nat, request: Request)
    | Advance(thread: nat, now: int, random: Option<string>)
    | Drop

  datatype Server = Server(machine: Machine, phases: map<nat, Phase>)

  /** The store call of the next stage of a request; blank cookies and empty segments are
      never passed on. */
  function Calls(s: Server, ev: Event): seq<Act> {
    match ev
    case Arrive(_, _) => []
    case Drop => [Remove]
    case Advance(t, now, random) =>
      if t !in s.phases then []
      else match s.phases[t]
        case Arrived(r) => if r.cookie.Some? && !Blank(r.cookie.value) then [Fetch(t, r.cookie.value, now)] else []
        case Matched => [Activate(t)]
        case Missed(r) => if r.segment != "" then [DoExchange(r.segment, now, random)] else []
        case Done => []
  }

  function NextPhase(s: Server, ev: Event): map<nat, Phase> {
    match ev
    case Arrive(t, r) => if t in s.phases then s.phases else s.phases[t := Arrived(r)]
    case Drop => s.phases
    case Advance(t, now, _) =>
      if t !in s.phases then s.phases
      else match s.phases[t]
        case Arrived(r) =>
          var found := r.cookie.Some? && !Blank(r.cookie.value) && s.machine.live && CookieMatches(s.machine.session, r.cookie.value, now);
          s.phases[t := if found then Matched else Missed(r)]
        case _ => s.phases[t := Done]
  }

  function Serve(s: Server, ev: Event): Server {
    Server(Run(s.machine, Calls(s, ev)), NextPhase(s, ev))
  }

  function ServeAll(s: Server, evs: seq<Event>): Server
    decreases |evs|
  {
    if evs == [] then s else ServeAll(Serve(s, evs[0]), evs[1..])
  }

  /** Everything the handler calls over a run of events. */
  function AllCalls(s: Server, evs: seq<Event>): seq<Act>
    decreases |evs|
  {
    if evs == [] then [] else Calls(s, evs[0]) + AllCalls(Serve(s, evs[0]), evs[1..])
  }

  /** The random source never yields the empty string. */
  predicate Drawn(ev: Event) {
    ev.Advance? && ev.random.Some? ==> ev.random.value != ""
  }

  /** Whatever requests arrive and however they interleave, the handler presents no empty
      secret to the store, and the store sees exactly its calls. */
  lemma {:induction false} HandlerPresentsSecrets(s: Server, evs: seq<Event>)
    requires forall ev <- evs :: Drawn(ev)
    ensures forall a <- AllCalls(s, evs) :: Nonempty(a) && (a.DoExchange? ==> a.token != "")
    ensures ServeAll(s, evs).machine == Run(s.machine, AllCalls(s, evs))
    decreases |evs|
  {
    if evs != [] {
      assert evs[0] in evs && forall ev <- evs[1..] :: ev in evs;
      HandlerPresentsSecrets(Serve(s, evs[0]), evs[1..]);
      RunSplit(s.machine, Calls(s, evs[0]), AllCalls(Serve(s, evs[0]), evs[1..]));
    }
  }

  /** So over every run of requests all successful exchanges return one session, and none
      succeeds once a matched request has activated it. */
  lemma HandlerSessions(s: Server, evs: seq<Event>, i: nat, j: nat)
    requires Consistent(s.machine) && forall ev <- evs :: Drawn(ev)
    requires i < j < |AllCalls(s, evs)|
    ensures var acts := AllCalls(s, evs);
      && (Answer(s.machine, acts, i).Some? && Answer(s.machine, acts, j).Some? ==>
            Answer(s.machine, acts, i) == Answer(s.machine, acts, j))
      && (acts[i].Activate? && acts[i].thread in Run(s.machine, acts[..i]).matched ==> Answer(s.machine, acts, j).None?)
  {
    var acts := AllCalls(s, evs);
    HandlerPresentsSecrets(s, evs);
    if Answer(s.machine, acts, i).Some? && Answer(s.machine, acts, j).Some? {
      OneSession(s.machine, acts, i, j);
    }
    if acts[i].Activate? && acts[i].thread in Run(s.machine, acts[..i]).matched {
      SpentAfterActivation(s.machine, acts, i, j);
    }
  }

  lemma {:induction false} ClosedRun(m: Machine, acts: seq<Act>)
    requires m.session.token == "" && m.session.cookie == "" && m.matched == {}
    requires forall a <- acts :: Nonempty(a) && (a.DoExchange? ==> a.token != "")
    ensures Run(m, acts).session == m.session && Run(m, acts).matched == {}
    decreases |acts|
  {
    if acts != [] {
      assert acts[0] in acts && forall a <- acts[1..] :: a in acts;
      ClosedRun(Step(m, acts[0]).0, acts[1..]);
    }
  }

  /** No run of requests opens an entry that was restored after a restart: no exchange
      answers, and the entry never changes. */
  lemma RecoveredStaysClosed(s: Server, evs: seq<Event>, k: nat)
    requires s.machine.session.token == "" && s.machine.session.cookie == "" && s.machine.matched == {}
    requires (forall ev <- evs :: Drawn(ev)) && k < |AllCalls(s, evs)|
    ensures Answer(s.machine, AllCalls(s, evs), k).None?
    ensures ServeAll(s, evs).machine.session == s.machine.session
  {
    var acts := AllCalls(s, evs);
    HandlerPresentsSecrets(s, evs);
    ClosedRun(s.machine, acts);
    ClosedAnswers(s.machine, acts, k);
  }

  lemma ClosedAnswers(m: Machine, acts: seq<Act>, k: nat)
    requires m.session.token == "" && m.session.cookie == "" && m.matched == {}
    requires (forall a <- acts :: Nonempty(a) && (a.DoExchange? ==> a.token != "")) && k < |acts|
    ensures Answer(m, acts, k).None?
  {
    assert forall a <- acts[..k] :: a in acts;
    ClosedRun(m, acts[..k]);
    assert acts[k] in acts;
  }
}
